/** Gregorian dates and the period filter of the operational dashboard. */
module CivilDate {
  import opened Basics

  datatype Date = Date(year: int, month: int, day: int)

  predicate Leap(y: int) {
    y % 4 == 0 && (y % 100 != 0 || y % 400 == 0)
  }

  function DaysInMonth(y: int, m: int): int {
    if m == 2 then (if Leap(y) then 29 else 28)
    else if m in {4, 6, 9, 11} then 30 else 31
  }

  predicate Valid(x: Date) {
    x.year >= 1 && 1 <= x.month <= 12 && 1 <= x.day <= DaysInMonth(x.year, x.month)
  }

  function DaysBeforeYear(y: int): int {
    (y - 1) * 365 + (y - 1) / 4 - (y - 1) / 100 + (y - 1) / 400
  }

  function DaysBeforeMonth(y: int, m: int): int {
    if m <= 1 then 0 else DaysBeforeMonth(y, m - 1) + DaysInMonth(y, m - 1)
  }

  /** Day 1 is the first of January of year 1. */
  function Ordinal(x: Date): int {
    DaysBeforeYear(x.year) + DaysBeforeMonth(x.year, x.month) + x.day
  }

  // ---------- The calendar is ordered by its ordinals ----------

  lemma YearLength(y: int)
    requires y >= 1
    ensures DaysBeforeYear(y + 1) == DaysBeforeYear(y) + (if Leap(y) then 366 else 365)
  {
    StepOf(y, 4);
    StepOf(y, 100);
    StepOf(y, 400);
    Multiples(y);
    assert DaysBeforeYear(y) == 365 * (y - 1) + (y - 1) / 4 - (y - 1) / 100 + (y - 1) / 400;
    assert DaysBeforeYear(y + 1) == 365 * y + y / 4 - y / 100 + y / 400;
  }

  lemma MultipleOf(y: int, d: int, k: int)
    requires d in {4, 100} && y == d * k
    ensures y % d == 0
  {
  }

  lemma Multiples(y: int)
    ensures y % 400 == 0 ==> y % 100 == 0
    ensures y % 100 == 0 ==> y % 4 == 0
  {
    var a, b := y / 400, y / 100;
    if y % 400 == 0 {
      MultipleOf(y, 100, 4 * a);
    }
    if y % 100 == 0 {
      MultipleOf(y, 4, 25 * b);
    }
  }

  /** A quotient grows by one exactly at the multiples of the divisor. */
  lemma StepOf(y: int, d: int)
    requires y >= 1 && d in {4, 100, 400}
    ensures y / d == (y - 1) / d + (if y % d == 0 then 1 else 0)
  {
  }

  lemma MonthsOfYear(y: int)
    ensures DaysBeforeMonth(y, 13) == if Leap(y) then 366 else 365
  {
    TableIsSum(y, 13);
  }

  /** The usual table of days before each month. */
  function DaysTable(y: int, m: int): int {
    var leap := if Leap(y) then 1 else 0;
    if m <= 1 then 0 else if m == 2 then 31 else if m == 3 then 59 + leap else if m == 4 then 90 + leap
    else if m == 5 then 120 + leap else if m == 6 then 151 + leap else if m == 7 then 181 + leap
    else if m == 8 then 212 + leap else if m == 9 then 243 + leap else if m == 10 then 273 + leap
    else if m == 11 then 304 + leap else if m == 12 then 334 + leap else 365 + leap
  }

  lemma {:induction false} TableIsSum(y: int, m: int)
    requires 1 <= m <= 13
    ensures DaysBeforeMonth(y, m) == DaysTable(y, m)
  {
    if m > 1 {
      TableIsSum(y, m - 1);
    }
  }

  lemma {:induction false} MonthsGrow(y: int, m: int, n: int)
    requires 1 <= m < n <= 13
    ensures DaysBeforeMonth(y, m) + DaysInMonth(y, m) <= DaysBeforeMonth(y, n)
    decreases n
  {
    if m < n - 1 {
      MonthsGrow(y, m, n - 1);
    }
  }

  lemma {:induction false} YearsGrow(y: int, z: int)
    requires 1 <= y <= z
    ensures DaysBeforeYear(y) <= DaysBeforeYear(z)
    decreases z
  {
    if y < z {
      YearsGrow(y, z - 1);
      YearLength(z - 1);
    }
  }

  predicate Before(a: Date, b: Date) {
    || a.year < b.year
    || (a.year == b.year && a.month < b.month)
    || (a.year == b.year && a.month == b.month && a.day < b.day)
  }

  /** An earlier date has a smaller ordinal: ordinals number the calendar without gaps or repetition. */
  lemma OrdinalIsMonotone(a: Date, b: Date)
    requires Valid(a) && Valid(b) && Before(a, b)
    ensures Ordinal(a) < Ordinal(b)
  {
    if a.year < b.year {
      MonthsOfYear(a.year);
      MonthsGrow(a.year, a.month, 13);
      YearLength(a.year);
      YearsGrow(a.year + 1, b.year);
      FromZero(b.year, b.month);
    } else if a.month < b.month {
      MonthsGrow(a.year, a.month, b.month);
    }
  }

  lemma FromZero(y: int, m: int)
    requires 1 <= m <= 13
    ensures DaysBeforeMonth(y, m) >= 0
  {
    TableIsSum(y, m);
  }

  lemma OrdinalsCompare(a: Date, b: Date)
    requires Valid(a) && Valid(b)
    ensures Ordinal(a) < Ordinal(b) <==> Before(a, b)
    ensures Ordinal(a) == Ordinal(b) <==> a == b
  {
    if Before(a, b) {
      OrdinalIsMonotone(a, b);
    } else if Before(b, a) {
      OrdinalIsMonotone(b, a);
    }
  }

  // ---------- Adding days ----------

  function Next(x: Date): Date {
    if x.day < DaysInMonth(x.year, x.month) then x.(day := x.day + 1)
    else if x.month < 12 then Date(x.year, x.month + 1, 1)
    else Date(x.year + 1, 1, 1)
  }

  function Previous(x: Date): Date {
    if x.day > 1 then x.(day := x.day - 1)
    else if x.month > 1 then Date(x.year, x.month - 1, DaysInMonth(x.year, x.month - 1))
    else Date(x.year - 1, 12, 31)
  }

  /** `x + timedelta(days=n)` for `n >= 0`. */
  function Plus(x: Date, n: nat): Date {
    if n == 0 then x else Next(Plus(x, n - 1))
  }

  lemma NextOrdinal(x: Date)
    requires Valid(x)
    ensures Valid(Next(x)) && Ordinal(Next(x)) == Ordinal(x) + 1
  {
    if x.day >= DaysInMonth(x.year, x.month) && x.month == 12 {
      MonthsOfYear(x.year);
      YearLength(x.year);
    }
  }

  lemma {:induction false} PlusOrdinal(x: Date, n: nat)
    requires Valid(x)
    ensures Valid(Plus(x, n)) && Ordinal(Plus(x, n)) == Ordinal(x) + n
  {
    if n > 0 {
      PlusOrdinal(x, n - 1);
      NextOrdinal(Plus(x, n - 1));
    }
  }

  lemma PreviousOrdinal(x: Date)
    requires Valid(x) && x != Date(1, 1, 1)
    ensures Valid(Previous(x)) && Ordinal(Previous(x)) == Ordinal(x) - 1
  {
    NextOrdinal(Previous(x));
    assert Next(Previous(x)) == x;
  }

  // ---------- The period filter ----------

  datatype Period = Dia | Mes | Ano | OtroPeriodo

  predicate Selected(x: Date, start: Option<Date>, end: Option<Date>) {
    && (start.Some? ==> Ordinal(start.value) <= Ordinal(x))
    && (end.Some? ==> Ordinal(x) <= Ordinal(end.value))
  }

  lemma SelectedBetween(x: Date, first: Date, last: Date)
    requires Valid(x) && Valid(first) && Valid(last)
    ensures Selected(x, Some(first), Some(last)) <==> !Before(x, first) && !Before(last, x)
  {
    OrdinalsCompare(x, first);
    OrdinalsCompare(last, x);
    hide Ordinal;
  }

  predicate InPeriod(x: Date, period: Period, today: Date) {
    match period
    case Dia => x == today
    case Mes => x.year == today.year && x.month == today.month
    case Ano => x.year == today.year
    case OtroPeriodo => true
  }

  lemma DaySelected(x: Date, today: Date)
    requires Valid(x) && Valid(today)
    ensures Selected(x, Some(today), Some(today)) <==> InPeriod(x, Dia, today)
  {
    SelectedBetween(x, today, today);
    hide Selected;
  }

  lemma MonthSelected(x: Date, today: Date)
    requires Valid(x) && Valid(today)
    ensures Selected(x, Some(today.(day := 1)), Some(today.(day := DaysInMonth(today.year, today.month))))
            <==> InPeriod(x, Mes, today)
  {
    SelectedBetween(x, today.(day := 1), today.(day := DaysInMonth(today.year, today.month)));
    hide Selected;
  }

  lemma YearSelected(x: Date, today: Date)
    requires Valid(x) && Valid(today)
    ensures Selected(x, Some(Date(today.year, 1, 1)), Some(Date(today.year, 12, 31))) <==> InPeriod(x, Ano, today)
  {
    SelectedBetween(x, Date(today.year, 1, 1), Date(today.year, 12, 31));
    hide Selected;
  }

  /** The date part of `_apply_operational_filters`: explicit bounds win; otherwise the period selects
      exactly the dates that share today's day, month or year. */
  method PeriodBounds(desde: Option<Date>, hasta: Option<Date>, period: Period, today: Date)
    returns (start: Option<Date>, end: Option<Date>)
    requires Valid(today)
    ensures desde.Some? || hasta.Some? ==> start == desde && end == hasta
    ensures desde.None? && hasta.None? ==>
              forall x :: Valid(x) ==> (Selected(x, start, end) <==> InPeriod(x, period, today))
  {
    start, end := desde, hasta;
    if start.None? && end.None? {
      if period == Dia {
        start, end := Some(today), Some(today);
      } else if period == Mes {
        var first := today.(day := 1);
        var nextMonth := Plus(first.(day := 28), 4).(day := 1);
        start, end := Some(first), Some(Previous(nextMonth));
        FourDaysLater(first);
        MonthEnd(first);
        assert end == Some(today.(day := DaysInMonth(today.year, today.month)));
      } else if period == Ano {
        start, end := Some(Date(today.year, 1, 1)), Some(Date(today.year, 12, 31));
      }
      assert period == OtroPeriodo ==> forall x :: Selected(x, start, end) && InPeriod(x, period, today);
      forall x | Valid(x)
        ensures Selected(x, start, end) <==> InPeriod(x, period, today)
      {
        hide *;
        DaySelected(x, today);
        MonthSelected(x, today);
        YearSelected(x, today);
      }
    }
  }

  /** Four days after the 28th is always early in the following month. */
  lemma FourDaysLater(first: Date)
    requires Valid(first) && first.day == 1
    ensures var later := Plus(first.(day := 28), 4);
            && Valid(later) && later.day <= 4
            && (if first.month < 12 then later.year == first.year && later.month == first.month + 1
                else later.year == first.year + 1 && later.month == 1)
  {
    var x := first.(day := 28);
    var length := DaysInMonth(first.year, first.month);
    assert 28 <= length <= 31;
    var a, b, c, d := Plus(x, 1), Plus(x, 2), Plus(x, 3), Plus(x, 4);
    assert Plus(x, 0) == x;
    assert a == Next(x) && b == Next(a) && c == Next(b) && d == Next(c);
  }

  /** The day before the first of the next month is the last day of this one. */
  lemma MonthEnd(first: Date)
    requires Valid(first) && first.day == 1
    ensures var end := Previous(Plus(first.(day := 28), 4).(day := 1));
            Valid(end) && end == first.(day := DaysInMonth(first.year, first.month))
  {
    FourDaysLater(first);
  }
}
