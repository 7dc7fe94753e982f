/** How the grouped verdict relates to the flat one, and what neither depends on. */
module EvaluationTheorems {
  import opened Basics
  import opened Json
  import opened Evaluation

  // ---------- Counts ----------

  lemma {:induction false} CountPositive(rd: Reading, items: seq<Item>, q: Probe)
    ensures rd.Count(items, q) > 0 <==> exists x :: x in items && rd.Hits(x, q)
  {
    hide rd.Hits;
    if items != [] {
      var n := |items| - 1;
      CountPositive(rd, items[..n], q);
      assert items == items[..n] + [items[n]];
    }
  }

  lemma {:induction false} CountRelations(rd: Reading, items: seq<Item>)
    ensures rd.Count(items, Passed) + rd.Count(items, Failed) == rd.Count(items, Comparable)
    ensures rd.Count(items, Yellow) + rd.Count(items, Red) <= rd.Count(items, Comparable)
  {
    if items != [] {
      CountRelations(rd, items[..|items| - 1]);
    }
  }

  lemma {:induction false} GroupMembers(render: Renderer, items: seq<Item>, k: GroupKey)
    ensures forall x :: x in Group(render, items, k) <==> x in items && KeyOf(render, x) == k
  {
    hide KeyOf;
    if items != [] {
      var n := |items| - 1;
      GroupMembers(render, items[..n], k);
      assert items == items[..n] + [items[n]];
    }
  }

  /** Some group holds an item with the probe exactly when some item has it. */
  lemma SomeGroupHas(rd: Reading, items: seq<Item>, q: Probe)
    ensures rd.Count(items, q) > 0 <==>
            exists k :: k in Keys(rd.render, items) && rd.Count(Group(rd.render, items, k), q) > 0
  {
    hide KeyOf, rd.Hits;
    KeysAre(rd.render, items);
    CountPositive(rd, items, q);
    if rd.Count(items, q) > 0 {
      var x :| x in items && rd.Hits(x, q);
      var k := KeyOf(rd.render, x);
      GroupMembers(rd.render, items, k);
      CountPositive(rd, Group(rd.render, items, k), q);
      assert k in Keys(rd.render, items) by {
        var i :| 0 <= i < |items| && items[i] == x;
        assert KeyOf(rd.render, items[i]) == k;
      }
    }
    forall k | k in Keys(rd.render, items) && rd.Count(Group(rd.render, items, k), q) > 0
      ensures rd.Count(items, q) > 0
    {
      GroupMembers(rd.render, items, k);
      CountPositive(rd, Group(rd.render, items, k), q);
    }
  }

  function SumGroups(rd: Reading, items: seq<Item>, keys: seq<GroupKey>, q: Probe): nat {
    if keys == [] then 0
    else SumGroups(rd, items, keys[..|keys| - 1], q) + rd.Count(Group(rd.render, items, keys[|keys| - 1]), q)
  }

  lemma {:induction false} SumGroupsStep(rd: Reading, items: seq<Item>, keys: seq<GroupKey>, q: Probe)
    requires items != [] && Distinct(keys)
    ensures var x := items[|items| - 1];
            SumGroups(rd, items, keys, q) == SumGroups(rd, items[..|items| - 1], keys, q)
                                             + (if KeyOf(rd.render, x) in keys && rd.Hits(x, q) then 1 else 0)
  {
    hide KeyOf, rd.Hits;
    if keys != [] {
      var n := |keys| - 1;
      SumGroupsStep(rd, items, keys[..n], q);
      assert keys == keys[..n] + [keys[n]];
      var x, k := items[|items| - 1], keys[n];
      var before, after := Group(rd.render, items[..|items| - 1], k), Group(rd.render, items, k);
      if KeyOf(rd.render, x) == k {
        assert after[..|after| - 1] == before;
      } else {
        assert after == before + [] == before;
      }
    }
  }

  /** Summing a count over the groups gives the count over all items. */
  lemma {:induction false} GroupsPartition(rd: Reading, items: seq<Item>, keys: seq<GroupKey>, q: Probe)
    requires Distinct(keys) && forall x :: x in items ==> KeyOf(rd.render, x) in keys
    ensures SumGroups(rd, items, keys, q) == rd.Count(items, q)
  {
    hide KeyOf, rd.Hits;
    if items == [] {
      EmptyGroups(rd, keys, q);
    } else {
      SumGroupsStep(rd, items, keys, q);
      GroupsPartition(rd, items[..|items| - 1], keys, q);
    }
  }

  lemma {:induction false} EmptyGroups(rd: Reading, keys: seq<GroupKey>, q: Probe)
    ensures SumGroups(rd, [], keys, q) == 0
  {
    if keys != [] {
      EmptyGroups(rd, keys[..|keys| - 1], q);
    }
  }

  // ---------- One group ----------

  /** A group whose failures carry no yellow or red state: flat aggregation calls it critical only
      when it is looked at by itself. */
  predicate Silent(rd: Reading, items: seq<Item>) {
    rd.Count(items, Red) == 0 && rd.Count(items, Yellow) == 0 && rd.Count(items, Failed) > 0
  }

  function Cells(rd: Reading, items: seq<Item>, c: Column): int {
    match c
    case PassedC => rd.Count(items, Passed)
    case EvaluatedC => rd.Count(items, Comparable)
    case YellowC => rd.Count(items, Yellow)
    case RedC => rd.Count(items, Red) + (if Silent(rd, items) then rd.Count(items, Failed) else 0)
    case RedResults => if rd.Count(items, Red) > 0 || Silent(rd, items) then 1 else 0
    case YellowResults => if rd.Count(items, Red) == 0 && rd.Count(items, Yellow) > 0 then 1 else 0
    case EvaluatedResults => if rd.Count(items, Comparable) > 0 then 1 else 0
  }

  lemma GroupCells(rd: Reading, items: seq<Item>, k: GroupKey, c: Column)
    requires rd.Count(items, Missing) == 0
    ensures Cell(ResultOf(rd, items, TodasDebenCumplir, k), c) == Cells(rd, Group(rd.render, items, k), c)
  {
    hide KeyOf, rd.Hits, rd.RedIdentifiers, GroupLabel, Group, rd.Count;
    var g := Group(rd.render, items, k);
    GroupMembers(rd.render, items, k);
    CountPositive(rd, items, Missing);
    CountPositive(rd, g, Missing);
    CountRelations(rd, g);
  }

  /** A column total as a sum over groups. */
  function SumCells(rd: Reading, items: seq<Item>, keys: seq<GroupKey>, c: Column): int {
    if keys == [] then 0
    else SumCells(rd, items, keys[..|keys| - 1], c) + Cells(rd, Group(rd.render, items, keys[|keys| - 1]), c)
  }

  lemma {:induction false} TotalIsSum(rd: Reading, items: seq<Item>, keys: seq<GroupKey>, c: Column)
    requires rd.Count(items, Missing) == 0
    ensures Total(Results(rd, items, TodasDebenCumplir, keys), c) == SumCells(rd, items, keys, c)
  {
    hide ResultOf, Cells, Cell;
    if keys != [] {
      var n := |keys| - 1;
      TotalIsSum(rd, items, keys[..n], c);
      GroupCells(rd, items, keys[n], c);
      var rs := Results(rd, items, TodasDebenCumplir, keys);
      assert rs[..|rs| - 1] == Results(rd, items, TodasDebenCumplir, keys[..n]);
    }
  }

  lemma {:induction false} SumPositive(rd: Reading, items: seq<Item>, keys: seq<GroupKey>, c: Column)
    ensures SumCells(rd, items, keys, c) >= 0
    ensures SumCells(rd, items, keys, c) > 0 <==>
            exists k :: k in keys && Cells(rd, Group(rd.render, items, k), c) > 0
  {
    hide Cells, rd.Count;
    if keys != [] {
      var n := |keys| - 1;
      SumPositive(rd, items, keys[..n], c);
      assert keys == keys[..n] + [keys[n]];
      CellsNat(rd, Group(rd.render, items, keys[n]), c);
      if SumCells(rd, items, keys[..n], c) > 0 {
        var k :| k in keys[..n] && Cells(rd, Group(rd.render, items, k), c) > 0;
        assert k in keys;
      } else if Cells(rd, Group(rd.render, items, keys[n]), c) > 0 {
        assert keys[n] in keys;
      }
    }
  }

  lemma CellsNat(rd: Reading, items: seq<Item>, c: Column)
    ensures Cells(rd, items, c) >= 0
  {
  }

  lemma {:induction false} SumMatchesCount(rd: Reading, items: seq<Item>, keys: seq<GroupKey>, c: Column, q: Probe)
    requires (c, q) in {(PassedC, Passed), (EvaluatedC, Comparable), (YellowC, Yellow)}
    ensures SumCells(rd, items, keys, c) == SumGroups(rd, items, keys, q)
  {
    hide rd.Count;
    if keys != [] {
      SumMatchesCount(rd, items, keys[..|keys| - 1], c, q);
    }
  }

  /** The red column: red items, plus the failures of the silent groups. */
  function SilentFailures(rd: Reading, items: seq<Item>, keys: seq<GroupKey>): nat {
    if keys == [] then 0
    else
      var g := Group(rd.render, items, keys[|keys| - 1]);
      SilentFailures(rd, items, keys[..|keys| - 1]) + (if Silent(rd, g) then rd.Count(g, Failed) else 0)
  }

  lemma {:induction false} RedColumn(rd: Reading, items: seq<Item>, keys: seq<GroupKey>)
    ensures SumCells(rd, items, keys, RedC) == SumGroups(rd, items, keys, Red) + SilentFailures(rd, items, keys)
    ensures SilentFailures(rd, items, keys) > 0 <==> exists k :: k in keys && Silent(rd, Group(rd.render, items, k))
  {
    hide rd.Count;
    if keys != [] {
      var n := |keys| - 1;
      RedColumn(rd, items, keys[..n]);
      assert keys == keys[..n] + [keys[n]];
      if SilentFailures(rd, items, keys[..n]) > 0 {
        var k :| k in keys[..n] && Silent(rd, Group(rd.render, items, k));
        assert k in keys;
      } else if Silent(rd, Group(rd.render, items, keys[n])) {
        assert keys[n] in keys;
      }
    }
  }

  // ---------- The verdict and what it depends on ----------

  /** An outcome without its lists of details. */
  datatype Verdict = Verdict(
    estado: Estado, passed: Option<bool>, passedCount: int, evaluatedCount: int,
    yellowCount: int, redCount: int, yellowResultCount: int, redResultCount: int)

  function VerdictOf(o: Outcome): Verdict {
    Verdict(o.estado, o.passed, o.passedCount, o.evaluatedCount, o.yellowCount, o.redCount,
            o.yellowResultCount, o.redResultCount)
  }

  datatype Totals = Totals(
    missing: int, passed: int, comparable: int, yellow: int, red: int, yellowResults: int, redResults: int)

  function TotalsOf(rd: Reading, items: seq<Item>): Totals {
    var keys := Keys(rd.render, items);
    Totals(rd.Count(items, Missing), rd.Count(items, Passed), rd.Count(items, Comparable), rd.Count(items, Yellow),
           SumCells(rd, items, keys, RedC), SumCells(rd, items, keys, YellowResults), SumCells(rd, items, keys, RedResults))
  }

  function VerdictFrom(t: Totals, policy: Policy): Verdict {
    if t.missing > 0 then Verdict(SIN_INFORMACION_TECNICA, None, t.passed, t.comparable, 0, 0, 0, 0)
    else if policy == SoloInformativo then Verdict(INFORMATIVO, None, t.passed, t.comparable, 0, 0, 0, 0)
    else if t.comparable == 0 then Verdict(NO_EVALUABLE, None, 0, 0, 0, 0, 0, 0)
    else
      var estado := if t.redResults > 0 then CRITICO else if t.yellowResults > 0 then NO_DESEADO else NORMAL;
      Verdict(estado, Some(estado == NORMAL), t.passed, t.comparable, t.yellow, t.red, t.yellowResults, t.redResults)
  }

  /** The column sums of the evaluated groups are counts over all items. */
  lemma ColumnSums(rd: Reading, items: seq<Item>)
    ensures var keys := Keys(rd.render, items);
            && Distinct(keys)
            && SumCells(rd, items, keys, PassedC) == rd.Count(items, Passed)
            && SumCells(rd, items, keys, EvaluatedC) == rd.Count(items, Comparable)
            && SumCells(rd, items, keys, YellowC) == rd.Count(items, Yellow)
            && SumCells(rd, items, keys, RedC) == rd.Count(items, Red) + SilentFailures(rd, items, keys)
  {
    hide KeyOf, rd.Count, SumCells;
    var keys := Keys(rd.render, items);
    KeysAre(rd.render, items);
    forall q {
      GroupsPartition(rd, items, keys, q);
    }
    SumMatchesCount(rd, items, keys, PassedC, Passed);
    SumMatchesCount(rd, items, keys, EvaluatedC, Comparable);
    SumMatchesCount(rd, items, keys, YellowC, Yellow);
    RedColumn(rd, items, keys);
  }

  /** The grouped verdict, in terms of its totals. */
  lemma AggregateVerdict(rd: Reading, items: seq<Item>, policy: Policy)
    ensures VerdictOf(Aggregate(rd, items, policy)) == VerdictFrom(TotalsOf(rd, items), policy)
  {
    hide rd.Count, rd.RedIdentifiers, SumCells, Total, Results, Keys;
    var keys := Keys(rd.render, items);
    if policy != SoloInformativo && rd.Count(items, Missing) == 0 {
      forall c {
        TotalIsSum(rd, items, keys, c);
      }
      ColumnSums(rd, items);
      SumPositive(rd, items, keys, EvaluatedResults);
      SomeGroupHas(rd, items, Comparable);
      CountRelations(rd, items);
      CountNone(rd);
    }
  }

  lemma CountNone(rd: Reading)
    ensures forall q :: rd.Count([], q) == 0
  {
  }

  // ---------- Grouped against flat ----------

  predicate SilentGroup(rd: Reading, items: seq<Item>) {
    exists k :: k in Keys(rd.render, items) && Silent(rd, Group(rd.render, items, k))
  }

  /** Items are evaluated rather than reported as missing or informative. */
  predicate Evaluating(rd: Reading, items: seq<Item>, policy: Policy) {
    policy == TodasDebenCumplir && rd.Count(items, Missing) == 0
  }

  function Severity(e: Estado): nat {
    if e == CRITICO then 2 else if e == NO_DESEADO then 1 else 0
  }

  /** Without yellow or red items every failure is in a silent group. */
  lemma {:induction false} AllFailuresSilent(rd: Reading, items: seq<Item>, keys: seq<GroupKey>)
    requires forall k :: k in keys ==> rd.Count(Group(rd.render, items, k), Red) == 0
                                       && rd.Count(Group(rd.render, items, k), Yellow) == 0
    ensures SilentFailures(rd, items, keys) == SumGroups(rd, items, keys, Failed)
  {
    hide rd.Count;
    if keys != [] {
      var n := |keys| - 1;
      assert keys == keys[..n] + [keys[n]];
      AllFailuresSilent(rd, items, keys[..n]);
    }
  }

  lemma SilentFailuresWhenPlain(rd: Reading, items: seq<Item>)
    requires rd.Count(items, Red) == 0 && rd.Count(items, Yellow) == 0
    ensures SilentFailures(rd, items, Keys(rd.render, items)) == rd.Count(items, Failed)
  {
    hide KeyOf, rd.Count;
    var keys := Keys(rd.render, items);
    KeysAre(rd.render, items);
    SomeGroupHas(rd, items, Red);
    SomeGroupHas(rd, items, Yellow);
    AllFailuresSilent(rd, items, keys);
    GroupsPartition(rd, items, keys, Failed);
  }

  /** What the group columns say about the items. */
  lemma ResultColumns(rd: Reading, items: seq<Item>)
    ensures var t := TotalsOf(rd, items);
            && (t.redResults > 0 <==> rd.Count(items, Red) > 0 || SilentGroup(rd, items))
            && (rd.Count(items, Red) == 0 ==> (t.yellowResults > 0 <==> rd.Count(items, Yellow) > 0))
            && t.red == rd.Count(items, Red) + SilentFailures(rd, items, Keys(rd.render, items))
            && (SilentFailures(rd, items, Keys(rd.render, items)) > 0 <==> SilentGroup(rd, items))
  {
    hide rd.Count, SumCells, Keys, Group, SilentFailures;
    var keys := Keys(rd.render, items);
    SumPositive(rd, items, keys, RedResults);
    SumPositive(rd, items, keys, YellowResults);
    SomeGroupHas(rd, items, Red);
    SomeGroupHas(rd, items, Yellow);
    ColumnSums(rd, items);
    RedColumn(rd, items, keys);
  }

  /** Grouped and flat aggregation always agree on passing and on the passed, evaluated and yellow
      counts. They agree on the state unless items without red but with yellow hide a silent group, and
      on the red count unless any yellow or red item does. The grouped state is never milder. */
  lemma GroupedAgainstFlat(rd: Reading, items: seq<Item>, policy: Policy)
    ensures var grouped, flat := Aggregate(rd, items, policy), FlatOutcome(rd, items, policy);
            && grouped.passedCount == flat.passedCount && grouped.evaluatedCount == flat.evaluatedCount
            && grouped.yellowCount == flat.yellowCount
            && grouped.passed == flat.passed
            && (grouped.estado == flat.estado || (grouped.estado == CRITICO && flat.estado == NO_DESEADO))
            && (grouped.estado == flat.estado <==>
                !(Evaluating(rd, items, policy) && rd.Count(items, Red) == 0 && rd.Count(items, Yellow) > 0
                  && SilentGroup(rd, items)))
            && (grouped.redCount == flat.redCount <==>
                !(Evaluating(rd, items, policy) && rd.Count(items, Red) + rd.Count(items, Yellow) > 0
                  && SilentGroup(rd, items)))
            && Severity(grouped.estado) >= Severity(flat.estado)
  {
    hide rd.Count, rd.RedIdentifiers, SumCells, Keys, SilentFailures, SilentGroup, Aggregate;
    AggregateVerdict(rd, items, policy);
    ResultColumns(rd, items);
    CountRelations(rd, items);
    if rd.Count(items, Red) == 0 && rd.Count(items, Yellow) == 0 {
      SilentFailuresWhenPlain(rd, items);
    }
  }

  /** Every comparable failure carries a yellow or red state. */
  ghost predicate WellFormed(rd: Reading, items: seq<Item>) {
    forall x :: x in items && rd.Hits(x, Failed) ==> rd.Hits(x, Yellow) || rd.Hits(x, Red)
  }

  lemma WellFormedIsNotSilent(rd: Reading, items: seq<Item>)
    requires WellFormed(rd, items)
    ensures !SilentGroup(rd, items) && !Silent(rd, items)
  {
    hide KeyOf, rd.Count, rd.Hits;
    CountPositive(rd, items, Failed);
    CountPositive(rd, items, Yellow);
    CountPositive(rd, items, Red);
    forall k | k in Keys(rd.render, items)
      ensures !Silent(rd, Group(rd.render, items, k))
    {
      var g := Group(rd.render, items, k);
      GroupMembers(rd.render, items, k);
      CountPositive(rd, g, Failed);
      CountPositive(rd, g, Yellow);
      CountPositive(rd, g, Red);
    }
  }

  /** For well-formed items grouping changes nothing in the verdict and the item counts. */
  lemma GroupedRefinesFlat(rd: Reading, items: seq<Item>, policy: Policy)
    requires WellFormed(rd, items)
    ensures var grouped, flat := Aggregate(rd, items, policy), FlatOutcome(rd, items, policy);
            VerdictOf(grouped).(yellowResultCount := 0, redResultCount := 0) == VerdictOf(flat)
  {
    hide Aggregate, FlatOutcome;
    WellFormedIsNotSilent(rd, items);
    GroupedAgainstFlat(rd, items, policy);
    FlatHasNoResults(rd, items, policy);
  }

  lemma FlatHasNoResults(rd: Reading, items: seq<Item>, policy: Policy)
    ensures FlatOutcome(rd, items, policy).yellowResultCount == FlatOutcome(rd, items, policy).redResultCount == 0
  {
    hide rd.Count, rd.RedIdentifiers;
  }

  lemma CountTwo(rd: Reading, a: Item, b: Item, q: Probe)
    ensures rd.Count([b], q) == if rd.Hits(b, q) then 1 else 0
    ensures rd.Count([a, b], q) == (if rd.Hits(a, q) then 1 else 0) + (if rd.Hits(b, q) then 1 else 0)
  {
    hide rd.Hits;
    assert [a, b][..1] == [a] && [a][..0] == [] && [b][..0] == [];
    assert rd.Count([a], q) == if rd.Hits(a, q) then 1 else 0;
  }

  ghost predicate Any(rd: Reading, items: seq<Item>, q: Probe) {
    exists x :: x in items && rd.Hits(x, q)
  }

  /** The verdict by its meaning: the worst state among the comparable items decides, in the grouped
      verdict as in the flat one, and only well-formedness is needed for them to mean the same. */
  lemma WorstStateWins(rd: Reading, items: seq<Item>, policy: Policy)
    requires WellFormed(rd, items)
    ensures var o := Aggregate(rd, items, policy);
            && (o.estado == SIN_INFORMACION_TECNICA <==> Any(rd, items, Missing))
            && (o.estado == INFORMATIVO <==> !Any(rd, items, Missing) && policy == SoloInformativo)
            && (Evaluating(rd, items, policy) ==>
                  && (o.estado == NO_EVALUABLE <==> !Any(rd, items, Comparable))
                  && (o.estado == CRITICO <==> Any(rd, items, Red))
                  && (o.estado == NO_DESEADO <==> !Any(rd, items, Red) && Any(rd, items, Yellow))
                  && (o.estado == NORMAL <==> Any(rd, items, Comparable) && !Any(rd, items, Red) && !Any(rd, items, Yellow))
                  && (o.passed == Some(true) <==> o.estado == NORMAL) && (o.passed == None <==> o.estado == NO_EVALUABLE))
  {
    hide rd.Hits, rd.Count, rd.RedIdentifiers, Aggregate, WellFormed;
    GroupedRefinesFlat(rd, items, policy);
    WellFormedIsNotSilent(rd, items);
    CountRelations(rd, items);
    CountPositive(rd, items, Missing);
    CountPositive(rd, items, Comparable);
    CountPositive(rd, items, Red);
    CountPositive(rd, items, Yellow);
  }

  /** A yellow item in one result and a failure without a state in another: yellow when flat, red when
      grouped. */
  lemma SilentPair(rd: Reading, a: Item, b: Item)
    requires rd.Hits(a, Yellow) && !rd.Hits(a, Red) && !rd.Hits(a, Missing)
    requires rd.Hits(b, Failed) && !rd.Hits(b, Yellow) && !rd.Hits(b, Red) && !rd.Hits(b, Missing)
    requires KeyOf(rd.render, a) != KeyOf(rd.render, b)
    ensures FlatOutcome(rd, [a, b], TodasDebenCumplir).estado == NO_DESEADO
    ensures Aggregate(rd, [a, b], TodasDebenCumplir).estado == CRITICO
  {
    hide KeyOf, Aggregate, FlatOutcome, rd.Hits, rd.Count, Keys, Group;
    ExampleGroup(rd.render, a, b, KeyOf(rd.render, b));
    forall q {
      CountTwo(rd, a, b, q);
    }
    assert Silent(rd, [b]);
    HiddenFailure(rd, [a, b]);
  }

  lemma SilentPairExists(render: Renderer)
    ensures var rd := Reading(render, {});
            var a := Item(Null, Null, Null, Some(false), NO_DESEADO, Null, Null);
            var b := Item(Null, Null, Null, Some(false), OTRO("SIN_LIMITE_CONFIGURADO"), Str("2"), Null);
            && FlatOutcome(rd, [a, b], TodasDebenCumplir).estado == NO_DESEADO
            && Aggregate(rd, [a, b], TodasDebenCumplir).estado == CRITICO
  {
    var rd := Reading(render, {});
    var a := Item(Null, Null, Null, Some(false), NO_DESEADO, Null, Null);
    var b := Item(Null, Null, Null, Some(false), OTRO("SIN_LIMITE_CONFIGURADO"), Str("2"), Null);
    hide Aggregate, FlatOutcome, rd.Count, Keys, Group;
    SilentPair(rd, a, b);
  }

  /** The one way in which the two verdicts differ. */
  lemma HiddenFailure(rd: Reading, items: seq<Item>)
    requires Evaluating(rd, items, TodasDebenCumplir) && SilentGroup(rd, items)
    requires rd.Count(items, Red) == 0 && rd.Count(items, Yellow) > 0
    ensures FlatOutcome(rd, items, TodasDebenCumplir).estado == NO_DESEADO
    ensures Aggregate(rd, items, TodasDebenCumplir).estado == CRITICO
  {
    GroupedAgainstFlat(rd, items, TodasDebenCumplir);
    hide Aggregate, FlatOutcome, rd.Count, SilentGroup;
  }

  lemma ExampleGroup(render: Renderer, a: Item, b: Item, k: GroupKey)
    requires KeyOf(render, a) != k && KeyOf(render, b) == k
    ensures k in Keys(render, [a, b]) && Group(render, [a, b], k) == [b]
  {
    hide KeyOf;
    assert [a, b][..1] == [a] && [a][..0] == [];
    assert Group(render, [a], k) == [];
  }
}
