/** Business-day arithmetic and the service-level due date of a batch. A date is its proleptic
    Gregorian ordinal, as in Python's `date.toordinal`.
  */
module BusinessCalendar {
  import opened Basics

  /** Monday is 0. */
  function Weekday(day: int): int {
    (day + 6) % 7
  }

  predicate IsWeekday(day: int) {
    Weekday(day) < 5
  }

  /** Day 1 is a Monday, and weeks go on from there: five weekdays and two days of weekend. */
  lemma WeekIs(week: int, d: int)
    requires 1 <= d <= 7
    ensures Weekday(7 * week + d) == d - 1 && (IsWeekday(7 * week + d) <==> d <= 5)
  {
    WeekOf(7 * week + d, week + 1, d - 1);
  }

  /** How many weekdays there are after `lo` and up to `hi`. */
  function Weekdays(lo: int, hi: int): (n: int)
    ensures 0 <= n
    decreases hi - lo
  {
    if hi <= lo then 0 else Weekdays(lo, hi - 1) + (if IsWeekday(hi) then 1 else 0)
  }

  /** The signed difference: weekdays after `start` up to `end`, or minus those from `end` before `start`. */
  function Between(start: int, end: int): int {
    if start <= end then Weekdays(start, end) else -Weekdays(end - 1, start - 1)
  }

  /** `days` business days after `start`; a weekend start counts from the Friday before it. */
  function BusinessDayAfter(start: int, days: int): int {
    if days <= 0 then start
    else
      var w := Weekday(start);
      var from, wd := if w >= 5 then start - (w - 4) else start, if w >= 5 then 4 else w;
      from + 7 * (days / 5) + days % 5 + (if wd + days % 5 >= 5 then 2 else 0)
  }

  // ---------- Counting weekdays in closed form ----------

  /** Weekdays up to `day`, counted from a fixed Monday. */
  function Cumulative(day: int): int {
    5 * ((day + 6) / 7) + (if Weekday(day) < 5 then Weekday(day) + 1 else 5)
  }

  lemma {:induction false} WeekdaysClosed(lo: int, hi: int)
    requires lo <= hi
    ensures Weekdays(lo, hi) == Cumulative(hi) - Cumulative(lo)
    decreases hi - lo
  {
    if lo < hi {
      WeekdaysClosed(lo, hi - 1);
      CumulativeStep(hi);
      hide Cumulative, IsWeekday;
    }
  }

  lemma CumulativeStep(day: int)
    ensures Cumulative(day) == Cumulative(day - 1) + (if IsWeekday(day) then 1 else 0)
  {
    var week, w := (day + 6) / 7, Weekday(day);
    assert day + 6 == 7 * week + w;
    if w == 0 {
      WeekOf(day - 1, week - 1, 6);
    } else {
      WeekOf(day - 1, week, w - 1);
    }
  }

  lemma {:induction false} WeekdaysSplit(a: int, b: int, c: int)
    requires a <= b <= c
    ensures Weekdays(a, c) == Weekdays(a, b) + Weekdays(b, c)
  {
    WeekdaysClosed(a, b);
    WeekdaysClosed(b, c);
    WeekdaysClosed(a, c);
  }

  /** The closed form is the one weekday with the right number of weekdays before it. */
  lemma AfterIsCounted(start: int, days: int)
    requires days > 0
    ensures var due := BusinessDayAfter(start, days);
            due > start && IsWeekday(due) && Weekdays(start, due) == days
  {
    var due := BusinessDayAfter(start, days);
    var week, w, q, r := (start + 6) / 7, Weekday(start), days / 5, days % 5;
    var wd := if w >= 5 then 4 else w;
    assert start + 6 == 7 * week + w && days == 5 * q + r;
    if wd + r >= 5 {
      WeekOf(due, week + q + 1, wd + r - 5);
    } else {
      WeekOf(due, week + q, wd + r);
    }
    WeekdaysClosed(start, due);
  }

  lemma WeekOf(day: int, week: int, w: int)
    requires 0 <= w < 7 && day + 6 == 7 * week + w
    ensures (day + 6) / 7 == week && Weekday(day) == w
  {
  }

  lemma CountedIsUnique(start: int, x: int, y: int)
    requires start < x && start < y && IsWeekday(x) && IsWeekday(y) && Weekdays(start, x) == Weekdays(start, y)
    ensures x == y
  {
    if x < y {
      WeekdaysSplit(start, x, y);
      WeekdaysSplit(x, y - 1, y);
    } else if y < x {
      WeekdaysSplit(start, y, x);
      WeekdaysSplit(y, x - 1, x);
    }
  }

  // ---------- The day-stepping loops ----------

  /** Days from `day` to the next weekday after it. */
  function ToNextWeekday(day: int): nat {
    if Weekday(day) == 4 then 3 else if Weekday(day) == 5 then 2 else 1
  }

  lemma NextDay(day: int)
    ensures !IsWeekday(day + 1) ==> ToNextWeekday(day + 1) < ToNextWeekday(day)
    ensures Weekdays(day, day + 1) == if IsWeekday(day + 1) then 1 else 0
  {
    OneDay(day + 1);
  }

  method AddBusinessDays(start: int, days: int) returns (current: int)
    ensures current == BusinessDayAfter(start, days)
  {
    current := start;
    var added := 0;
    assert days <= 0 ==> BusinessDayAfter(start, days) == start;
    hide BusinessDayAfter, Weekday, ToNextWeekday;
    while added < days
      invariant start <= current && 0 <= added
      invariant added <= days || days <= 0
      invariant Weekdays(start, current) == added
      invariant added == days && days > 0 ==> IsWeekday(current) && current > start
      invariant days <= 0 ==> current == start
      decreases days - added, ToNextWeekday(current)
    {
      NextDay(current);
      current := current + 1;
      if Weekday(current) < 5 {
        added := added + 1;
      }
    }
    if days > 0 {
      AfterIsCounted(start, days);
      CountedIsUnique(start, current, BusinessDayAfter(start, days));
    }
  }

  method BusinessDaysBetween(start: int, end: int) returns (count: int)
    ensures count == Between(start, end)
  {
    if start == end {
      return 0;
    }
    var step := if end > start then 1 else -1;
    var current := start;
    count := 0;
    while current != end
      invariant step == 1 ==> start <= current <= end && count == Weekdays(start, current)
      invariant step == -1 ==> end <= current <= start && count == -Weekdays(current - 1, start - 1)
      decreases if step == 1 then end - current else current - end
    {
      if step == -1 {
        WeekdaysSplit(current - 2, current - 1, start - 1);
      }
      current := current + step;
      if Weekday(current) < 5 {
        count := count + step;
      }
    }
  }

  // ---------- Laws ----------

  /** Counting back what was added gives the number added. */
  lemma DifferenceOfSum(start: int, days: nat)
    ensures Between(start, BusinessDayAfter(start, days)) == days
  {
    if days > 0 {
      AfterIsCounted(start, days);
    }
  }

  /** Adding back the difference lands on the last weekday of the span, or on its start if it has none. */
  lemma SumOfDifference(start: int, end: int)
    requires start <= end
    ensures var back := BusinessDayAfter(start, Between(start, end));
            && start <= back <= end
            && (if Weekdays(start, end) == 0 then back == start else back > start && IsWeekday(back))
            && forall day :: back < day <= end ==> !IsWeekday(day)
  {
    var n := Weekdays(start, end);
    var back := BusinessDayAfter(start, n);
    if n > 0 {
      AfterIsCounted(start, n);
      if back > end {
        WeekdaysSplit(start, end, back);
        WeekdaysSplit(end, back - 1, back);
      }
    }
    WeekdaysSplit(start, back, end);
    forall day | back < day <= end
      ensures !IsWeekday(day)
    {
      WeekdaysSplit(back, day, end);
      WeekdaysSplit(back, day - 1, day);
    }
  }

  lemma DifferencesAdd(a: int, b: int, c: int)
    requires a <= b <= c
    ensures Between(a, c) == Between(a, b) + Between(b, c)
  {
    WeekdaysSplit(a, b, c);
  }

  lemma OneDay(day: int)
    ensures Weekdays(day - 1, day) == if IsWeekday(day) then 1 else 0
  {
    assert Weekdays(day - 1, day - 1) == 0;
  }

  /** There and back differ by whether the two ends are weekdays. */
  lemma ThereAndBack(a: int, b: int)
    requires a < b
    ensures Between(a, b) + Between(b, a) == (if IsWeekday(b) then 1 else 0) - (if IsWeekday(a) then 1 else 0)
  {
    hide IsWeekday;
    WeekdaysSplit(a - 1, a, b);
    WeekdaysSplit(a - 1, b - 1, b);
    OneDay(a);
    OneDay(b);
  }

  // ---------- The due date of a batch ----------

  datatype BatchState =
    | Borrador | Registrado | Recibido | EnLaboratorio | EnAnalisis | Parcial | ResultadosCompletos | Revisado
    | Reportado | Cancelado

  datatype Management = Management(diasHabiles: Option<int>, diasCalendario: Option<int>)
  datatype Batch = Batch(tipoGestion: Option<Management>, fechaRecepcion: Option<int>, estado: BatchState)

  datatype DayMode = SIN_SLA | PENDIENTE_RECEPCION | HABILES | CALENDARIO
  datatype Urgency = SinSla | PendienteRecepcion | Cerrado | Vencido | VenceHoy | Proximo | Normal

  datatype DueInfo = DueInfo(
    base: Option<int>, due: Option<int>, remaining: Option<int>, mode: DayMode, sla: Option<int>, urgency: Urgency)

  function OrZero(n: Option<int>): int {
    if n.Some? then n.value else 0
  }

  predicate Closed(b: Batch) {
    b.estado in {Reportado, Cancelado}
  }

  function DueInfoForBatch(b: Batch, today: int): DueInfo {
    if b.tipoGestion.None? then DueInfo(None, None, None, SIN_SLA, None, SinSla)
    else
      var business, calendar := OrZero(b.tipoGestion.value.diasHabiles), OrZero(b.tipoGestion.value.diasCalendario);
      if b.fechaRecepcion.None? && (business > 0 || calendar > 0) then
        DueInfo(None, None, None, PENDIENTE_RECEPCION, Some(if business != 0 then business else calendar),
                PendienteRecepcion)
      else if business > 0 then
        var due := BusinessDayAfter(b.fechaRecepcion.value, business);
        Dated(b, due, Between(today, due), HABILES, business)
      else if calendar > 0 then
        var due := b.fechaRecepcion.value + calendar;
        Dated(b, due, due - today, CALENDARIO, calendar)
      else DueInfo(b.fechaRecepcion, None, None, SIN_SLA, None, SinSla)
  }

  function Dated(b: Batch, due: int, remaining: int, mode: DayMode, sla: int): DueInfo {
    DueInfo(b.fechaRecepcion, Some(due), Some(remaining), mode, Some(sla),
            if Closed(b) then Cerrado
            else if remaining < 0 then Vencido
            else if remaining == 0 then VenceHoy
            else if remaining <= 2 then Proximo
            else Normal)
  }

  /** An open batch that has been received under a positive service level. */
  predicate Running(b: Batch) {
    && !Closed(b) && b.fechaRecepcion.Some? && b.tipoGestion.Some?
    && (OrZero(b.tipoGestion.value.diasHabiles) > 0 || OrZero(b.tipoGestion.value.diasCalendario) > 0)
  }

  /** As a queue rank: the lower, the more urgent. */
  function Rank(u: Urgency): nat {
    match u
    case Vencido => 0
    case VenceHoy => 1
    case Proximo => 2
    case Normal => 3
    case SinSla => 4
    case Cerrado => 5
    case PendienteRecepcion => 9
  }

  /** Overdue and due today mean what they say, in business days as in calendar days. */
  lemma UrgencyMeansDate(b: Batch, today: int)
    requires Running(b)
    ensures var info := DueInfoForBatch(b, today);
            && info.due.Some? && info.due.value > b.fechaRecepcion.value
            && (info.mode == HABILES ==> IsWeekday(info.due.value))
            && (info.urgency == Vencido <==> today > info.due.value)
            && (info.urgency == VenceHoy <==> today == info.due.value)
            && (info.urgency in {Proximo, Normal} <==> today < info.due.value)
  {
    var business := OrZero(b.tipoGestion.value.diasHabiles);
    if business > 0 {
      AfterIsCounted(b.fechaRecepcion.value, business);
      var due := BusinessDayAfter(b.fechaRecepcion.value, business);
      if today < due {
        WeekdaysSplit(today, due - 1, due);
      } else if today > due {
        WeekdaysSplit(due - 1, due, today - 1);
      }
    }
  }

  /** The due date of a running batch: that many weekdays after reception, itself a weekday, if the service level is
      in business days, otherwise that many days after reception. What remains is counted in the same days. */
  lemma DueDateIs(b: Batch, today: int)
    requires Running(b)
    ensures var info, received, m := DueInfoForBatch(b, today), b.fechaRecepcion.value, b.tipoGestion.value;
            && info.base == Some(received) && info.due.Some? && info.remaining.Some? && info.sla.Some?
            && (if m.diasHabiles.Some? && m.diasHabiles.value > 0 then
                  && info.mode == HABILES && info.sla == m.diasHabiles
                  && info.due.value > received && IsWeekday(info.due.value)
                  && Weekdays(received, info.due.value) == m.diasHabiles.value
                  && (today <= info.due.value ==> info.remaining.value == Weekdays(today, info.due.value))
                  && (today > info.due.value ==> info.remaining.value == -Weekdays(info.due.value - 1, today - 1))
                else
                  && info.mode == CALENDARIO && info.sla == m.diasCalendario && m.diasCalendario.Some?
                  && info.due.value == received + m.diasCalendario.value
                  && info.remaining.value == info.due.value - today)
            && (info.urgency == Vencido <==> info.remaining.value < 0)
            && (info.urgency == VenceHoy <==> info.remaining.value == 0)
            && (info.urgency == Proximo <==> info.remaining.value in {1, 2})
            && (info.urgency == Normal <==> info.remaining.value > 2)
  {
    if OrZero(b.tipoGestion.value.diasHabiles) > 0 {
      AfterIsCounted(b.fechaRecepcion.value, b.tipoGestion.value.diasHabiles.value);
    }
  }

  /** A positive service level, in business or in calendar days. */
  predicate Promised(m: Management) {
    (m.diasHabiles.Some? && m.diasHabiles.value > 0) || (m.diasCalendario.Some? && m.diasCalendario.value > 0)
  }

  /** The batches that are not running: without a service level there is no date; before reception only the level
      is known; a closed batch keeps the date that it had while open. */
  lemma OtherBatches(b: Batch, today: int)
    ensures var info := DueInfoForBatch(b, today);
            && (b.tipoGestion.None? || !Promised(b.tipoGestion.value) ==>
                  && info.due == None && info.remaining == None && info.sla == None
                  && info.mode == SIN_SLA && info.urgency == SinSla
                  && info.base == if b.tipoGestion.None? then None else b.fechaRecepcion)
            && (b.tipoGestion.Some? && Promised(b.tipoGestion.value) && b.fechaRecepcion.None? ==>
                  && info.base == None && info.due == None && info.remaining == None
                  && info.mode == PENDIENTE_RECEPCION && info.urgency == PendienteRecepcion
                  && info.sla == if b.tipoGestion.value.diasHabiles in {None, Some(0)} then b.tipoGestion.value.diasCalendario
                                 else b.tipoGestion.value.diasHabiles)
            && (b.tipoGestion.Some? && Promised(b.tipoGestion.value) && b.fechaRecepcion.Some? && b.estado in {Reportado, Cancelado} ==>
                  && info.urgency == Cerrado
                  && Running(b.(estado := Recibido))
                  && info == DueInfoForBatch(b.(estado := Recibido), today).(urgency := Cerrado))
  {
  }

  /** As days pass the due date stays, the days remaining never grow and urgency never eases. */
  lemma UrgencyNeverEases(b: Batch, today: int, later: int)
    requires Running(b) && today <= later
    ensures var info, info' := DueInfoForBatch(b, today), DueInfoForBatch(b, later);
            && info'.due == info.due
            && info.remaining.Some? && info'.remaining.Some? && info'.remaining.value <= info.remaining.value
            && Rank(info'.urgency) <= Rank(info.urgency)
            && (info'.urgency != info.urgency ==> Rank(info'.urgency) < Rank(info.urgency))
  {
    var business := OrZero(b.tipoGestion.value.diasHabiles);
    if business > 0 {
      var due := BusinessDayAfter(b.fechaRecepcion.value, business);
      if later <= due {
        WeekdaysSplit(today, later, due);
      } else if today > due {
        WeekdaysSplit(due - 1, today - 1, later - 1);
      }
    }
  }
}
