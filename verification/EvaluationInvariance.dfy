/** What the grouped verdict does not depend on: the order of the items and items that do not count;
    and how one more comparable item moves it.
  */
module EvaluationInvariance {
  import opened Basics
  import opened Json
  import opened Evaluation
  import opened EvaluationTheorems

  function Without<T>(s: seq<T>, i: nat): seq<T>
    requires i < |s|
  {
    s[..i] + s[i + 1..]
  }

  lemma MultisetWithout<T>(s: seq<T>, i: nat)
    requires i < |s|
    ensures multiset(Without(s, i)) == multiset(s) - multiset{s[i]}
  {
    assert s == s[..i] + [s[i]] + s[i + 1..];
  }

  lemma MembersWithout(keys: seq<GroupKey>, i: nat)
    requires i < |keys| && Distinct(keys)
    ensures Distinct(Without(keys, i))
    ensures forall k :: k in Without(keys, i) <==> k in keys && k != keys[i]
  {
    assert keys == keys[..i] + [keys[i]] + keys[i + 1..];
  }

  /** Dropping one item lowers the counts of its own group, and of all items, by what it hits. */
  lemma {:induction false} GroupCountWithout(rd: Reading, items: seq<Item>, i: nat, k: GroupKey, q: Probe)
    requires i < |items|
    ensures var hit := if rd.Hits(items[i], q) then 1 else 0;
            && rd.Count(items, q) == rd.Count(Without(items, i), q) + hit
            && rd.Count(Group(rd.render, items, k), q) ==
               rd.Count(Group(rd.render, Without(items, i), k), q)
               + (if KeyOf(rd.render, items[i]) == k then hit else 0)
  {
    hide KeyOf, rd.Hits, Group;
    var n := |items| - 1;
    if i < n {
      GroupCountWithout(rd, items[..n], i, k, q);
      assert Without(items, i)[..n - 1] == Without(items[..n], i);
      GroupCountLast(rd, items, k, q);
      GroupCountLast(rd, Without(items, i), k, q);
    } else {
      assert Without(items, i) == items[..n];
      GroupCountLast(rd, items, k, q);
    }
  }

  lemma GroupCountLast(rd: Reading, items: seq<Item>, k: GroupKey, q: Probe)
    requires items != []
    ensures var n := |items| - 1;
            rd.Count(Group(rd.render, items, k), q) ==
            rd.Count(Group(rd.render, items[..n], k), q)
            + (if KeyOf(rd.render, items[n]) == k && rd.Hits(items[n], q) then 1 else 0)
  {
    hide KeyOf, rd.Hits;
    var n := |items| - 1;
    var before, after := Group(rd.render, items[..n], k), Group(rd.render, items, k);
    if KeyOf(rd.render, items[n]) == k {
      assert after[..|after| - 1] == before;
    } else {
      assert after == before;
    }
  }

  lemma {:induction false} CountsPermuted(rd: Reading, items: seq<Item>, items': seq<Item>, k: GroupKey, q: Probe)
    requires multiset(items) == multiset(items')
    ensures rd.Count(items, q) == rd.Count(items', q)
    ensures rd.Count(Group(rd.render, items, k), q) == rd.Count(Group(rd.render, items', k), q)
  {
    hide KeyOf, rd.Hits;
    assert |items| == |multiset(items)| == |multiset(items')| == |items'|;
    if items != [] {
      var n := |items| - 1;
      assert items[n] in multiset(items');
      var i :| 0 <= i < |items'| && items'[i] == items[n];
      assert Without(items, n) == items[..n];
      MultisetWithout(items, n);
      MultisetWithout(items', i);
      CountsPermuted(rd, items[..n], Without(items', i), k, q);
      GroupCountWithout(rd, items, n, k, q);
      GroupCountWithout(rd, items', i, k, q);
    }
  }

  lemma {:induction false} SumCellsWithout(rd: Reading, items: seq<Item>, keys: seq<GroupKey>, i: nat, c: Column)
    requires i < |keys|
    ensures SumCells(rd, items, keys, c) ==
            SumCells(rd, items, Without(keys, i), c) + Cells(rd, Group(rd.render, items, keys[i]), c)
  {
    hide Cells, Group;
    var n := |keys| - 1;
    if i < n {
      SumCellsWithout(rd, items, keys[..n], i, c);
      assert Without(keys, i)[..n - 1] == Without(keys[..n], i);
    } else {
      assert Without(keys, i) == keys[..n];
    }
  }

  /** A column sum depends only on the set of keys and on the cells. */
  lemma {:induction false} SumCellsPermuted(rd: Reading, items: seq<Item>, items': seq<Item>,
                                            keys: seq<GroupKey>, keys': seq<GroupKey>, c: Column)
    requires Distinct(keys) && Distinct(keys') && forall k :: k in keys <==> k in keys'
    requires forall k :: k in keys ==>
                           Cells(rd, Group(rd.render, items, k), c) == Cells(rd, Group(rd.render, items', k), c)
    ensures SumCells(rd, items, keys, c) == SumCells(rd, items', keys', c)
  {
    hide Cells, Group;
    assert keys' != [] ==> keys'[0] in keys;
    if keys != [] {
      var n := |keys| - 1;
      assert keys[n] in keys';
      var i :| 0 <= i < |keys'| && keys'[i] == keys[n];
      var rest := Without(keys', i);
      assert Without(keys, n) == keys[..n];
      MembersWithout(keys, n);
      MembersWithout(keys', i);
      SumCellsPermuted(rd, items, items', keys[..n], rest, c);
      SumCellsWithout(rd, items', keys', i, c);
    }
  }

  lemma CellsPermuted(rd: Reading, g: seq<Item>, g': seq<Item>, c: Column)
    requires forall q :: rd.Count(g, q) == rd.Count(g', q)
    ensures Cells(rd, g, c) == Cells(rd, g', c)
  {
  }

  /** The verdict and every count are the same for any order of the items. */
  lemma OrderDoesNotMatter(rd: Reading, items: seq<Item>, items': seq<Item>, policy: Policy)
    requires multiset(items) == multiset(items')
    ensures VerdictOf(Aggregate(rd, items, policy)) == VerdictOf(Aggregate(rd, items', policy))
  {
    hide KeyOf, rd.Hits, rd.Count, Group, Cells, SumCells, Keys, Aggregate, VerdictFrom;
    var keys, keys' := Keys(rd.render, items), Keys(rd.render, items');
    KeysAre(rd.render, items);
    KeysAre(rd.render, items');
    assert forall x :: x in items <==> x in multiset(items);
    assert forall x :: x in items' <==> x in multiset(items');
    SameKeys(rd.render, items, items');
    forall q {
      CountsPermuted(rd, items, items', Ungrouped, q);
    }
    forall c ensures SumCells(rd, items, keys, c) == SumCells(rd, items', keys', c) {
      forall k ensures Cells(rd, Group(rd.render, items, k), c) == Cells(rd, Group(rd.render, items', k), c) {
        forall q ensures rd.Count(Group(rd.render, items, k), q) == rd.Count(Group(rd.render, items', k), q) {
          CountsPermuted(rd, items, items', k, q);
        }
        CellsPermuted(rd, Group(rd.render, items, k), Group(rd.render, items', k), c);
      }
      SumCellsPermuted(rd, items, items', keys, keys', c);
    }
    AggregateVerdict(rd, items, policy);
    AggregateVerdict(rd, items', policy);
  }

  lemma SameKeys(render: Renderer, items: seq<Item>, items': seq<Item>)
    requires forall x :: x in items <==> x in items'
    ensures forall k :: k in Keys(render, items) <==> k in Keys(render, items')
  {
    hide KeyOf;
    KeysAre(render, items);
    KeysAre(render, items');
    forall k
      ensures k in Keys(render, items) <==> k in Keys(render, items')
    {
      if k in Keys(render, items) {
        var i :| 0 <= i < |items| && KeyOf(render, items[i]) == k;
        assert items[i] in items';
      }
      if k in Keys(render, items') {
        var i :| 0 <= i < |items'| && KeyOf(render, items'[i]) == k;
        assert items'[i] in items;
      }
    }
  }

  // ---------- One more item ----------

  lemma Appended(rd: Reading, items: seq<Item>, x: Item)
    ensures forall q :: rd.Count(items + [x], q) == rd.Count(items, q) + (if rd.Hits(x, q) then 1 else 0)
    ensures var keys, k := Keys(rd.render, items), KeyOf(rd.render, x);
            Keys(rd.render, items + [x]) == if k in keys then keys else keys + [k]
  {
    hide KeyOf, rd.Hits;
    assert (items + [x])[..|items|] == items;
  }

  lemma GroupAppended(rd: Reading, items: seq<Item>, x: Item, k: GroupKey, q: Probe)
    ensures rd.Count(Group(rd.render, items + [x], k), q) ==
            rd.Count(Group(rd.render, items, k), q) + (if KeyOf(rd.render, x) == k && rd.Hits(x, q) then 1 else 0)
  {
    hide KeyOf, rd.Hits;
    assert (items + [x])[..|items|] == items;
    GroupCountLast(rd, items + [x], k, q);
  }

  lemma NoGroup(rd: Reading, items: seq<Item>, k: GroupKey)
    requires k !in Keys(rd.render, items)
    ensures forall q :: rd.Count(Group(rd.render, items, k), q) == 0
  {
    hide KeyOf, rd.Hits;
    KeysAre(rd.render, items);
    GroupMembers(rd.render, items, k);
    forall q ensures rd.Count(Group(rd.render, items, k), q) == 0 {
      CountPositive(rd, Group(rd.render, items, k), q);
    }
  }

  /** Neither comparable nor missing: ignored, or without a verdict of its own. */
  predicate Counts(rd: Reading, x: Item) {
    rd.Hits(x, Comparable) || rd.Hits(x, Missing)
  }

  lemma NothingHits(rd: Reading, x: Item)
    requires !Counts(rd, x)
    ensures forall q :: !rd.Hits(x, q)
  {
  }

  lemma LastDoesNotCount(rd: Reading, items: seq<Item>, x: Item, policy: Policy)
    requires !Counts(rd, x)
    ensures VerdictOf(Aggregate(rd, items + [x], policy)) == VerdictOf(Aggregate(rd, items, policy))
  {
    hide KeyOf, rd.Hits, rd.Count, Group, Cells, SumCells, Keys, Aggregate, VerdictFrom, Counts;
    var keys, k := Keys(rd.render, items), KeyOf(rd.render, x);
    NothingHits(rd, x);
    Appended(rd, items, x);
    KeysAre(rd.render, items);
    forall c ensures SumCells(rd, items + [x], Keys(rd.render, items + [x]), c) == SumCells(rd, items, keys, c) {
      forall k, q ensures rd.Count(Group(rd.render, items + [x], k), q) == rd.Count(Group(rd.render, items, k), q) {
        GroupAppended(rd, items, x, k, q);
      }
      SameCells(rd, items, items + [x], c);
      SumCellsPermuted(rd, items + [x], items, keys, keys, c);
      if k !in keys {
        NoGroup(rd, items, k);
        SumCellsEmpty(rd, items + [x], keys, k, c);
      }
    }
    AggregateVerdict(rd, items, policy);
    AggregateVerdict(rd, items + [x], policy);
  }

  lemma SameCells(rd: Reading, items: seq<Item>, items': seq<Item>, c: Column)
    requires forall k, q :: rd.Count(Group(rd.render, items', k), q) == rd.Count(Group(rd.render, items, k), q)
    ensures forall k :: Cells(rd, Group(rd.render, items', k), c) == Cells(rd, Group(rd.render, items, k), c)
  {
    hide rd.Count, Group;
  }

  lemma SumCellsEmpty(rd: Reading, items: seq<Item>, keys: seq<GroupKey>, k: GroupKey, c: Column)
    requires forall q :: rd.Count(Group(rd.render, items, k), q) == 0
    ensures SumCells(rd, items, keys + [k], c) == SumCells(rd, items, keys, c)
  {
    hide rd.Count, Group;
    assert (keys + [k])[..|keys|] == keys;
  }

  /** Deleting an item that does not count, wherever it stands, changes nothing. */
  lemma OneDoesNotCount(rd: Reading, items: seq<Item>, i: nat, policy: Policy)
    requires i < |items| && !Counts(rd, items[i])
    ensures VerdictOf(Aggregate(rd, Without(items, i), policy)) == VerdictOf(Aggregate(rd, items, policy))
  {
    hide Aggregate, Counts;
    MultisetWithout(items, i);
    LastDoesNotCount(rd, Without(items, i), items[i], policy);
    OrderDoesNotMatter(rd, items, Without(items, i) + [items[i]], policy);
  }

  function Counting(rd: Reading, items: seq<Item>): seq<Item> {
    if items == [] then []
    else Counting(rd, items[..|items| - 1]) + (if Counts(rd, items[|items| - 1]) then [items[|items| - 1]] else [])
  }

  lemma {:induction false} CountingWithout(rd: Reading, items: seq<Item>, i: nat)
    requires i < |items| && !Counts(rd, items[i])
    ensures Counting(rd, Without(items, i)) == Counting(rd, items)
  {
    hide Counts;
    var n := |items| - 1;
    if i < n {
      CountingWithout(rd, items[..n], i);
      assert Without(items, i)[..n - 1] == Without(items[..n], i);
    } else {
      assert Without(items, i) == items[..n];
    }
  }

  lemma {:induction false} AllCounting(rd: Reading, items: seq<Item>)
    requires forall x :: x in items ==> Counts(rd, x)
    ensures Counting(rd, items) == items
  {
    hide Counts;
    if items != [] {
      assert items == items[..|items| - 1] + [items[|items| - 1]];
      AllCounting(rd, items[..|items| - 1]);
    }
  }

  /** The verdict and every count are those of the items that count. */
  lemma {:induction false} OnlyCountingItemsMatter(rd: Reading, items: seq<Item>, policy: Policy)
    ensures VerdictOf(Aggregate(rd, items, policy)) == VerdictOf(Aggregate(rd, Counting(rd, items), policy))
    decreases |items|
  {
    hide Aggregate, Counts;
    if i: nat :| i < |items| && !Counts(rd, items[i]) {
      OneDoesNotCount(rd, items, i, policy);
      CountingWithout(rd, items, i);
      OnlyCountingItemsMatter(rd, Without(items, i), policy);
    } else {
      AllCounting(rd, items);
    }
  }

  predicate CriticalGroup(rd: Reading, items: seq<Item>, k: GroupKey) {
    rd.Count(Group(rd.render, items, k), Red) > 0 || Silent(rd, Group(rd.render, items, k))
  }

  /** The severity of an evaluated verdict. */
  lemma SeverityIs(rd: Reading, items: seq<Item>)
    requires Evaluating(rd, items, TodasDebenCumplir) && rd.Count(items, Comparable) > 0
    ensures Severity(Aggregate(rd, items, TodasDebenCumplir).estado) ==
            if exists k :: k in Keys(rd.render, items) && CriticalGroup(rd, items, k) then 2
            else if rd.Count(items, Yellow) > 0 then 1 else 0
  {
    hide rd.Count, Group, SumCells, Keys, Aggregate;
    var keys := Keys(rd.render, items);
    AggregateVerdict(rd, items, TodasDebenCumplir);
    SumPositive(rd, items, keys, RedResults);
    SumPositive(rd, items, keys, YellowResults);
    SomeGroupHas(rd, items, Red);
    SomeGroupHas(rd, items, Yellow);
  }

  /** One more comparable item improves an evaluated verdict exactly when it is yellow, joins the only
      critical result, and that result was critical for failures without a state. */
  lemma AddingImprovesIff(rd: Reading, items: seq<Item>, x: Item)
    requires Evaluating(rd, items, TodasDebenCumplir) && rd.Count(items, Comparable) > 0
    requires rd.Hits(x, Comparable) && !rd.Hits(x, Missing)
    ensures var k := KeyOf(rd.render, x);
            Severity(Aggregate(rd, items + [x], TodasDebenCumplir).estado)
            < Severity(Aggregate(rd, items, TodasDebenCumplir).estado)
            <==>
            && Silent(rd, Group(rd.render, items, k)) && rd.Hits(x, Yellow)
            && forall k' :: k' in Keys(rd.render, items) && k' != k ==> !CriticalGroup(rd, items, k')
  {
    hide KeyOf, rd.Count, Group, Keys, Aggregate;
    var keys, keys', k := Keys(rd.render, items), Keys(rd.render, items + [x]), KeyOf(rd.render, x);
    Appended(rd, items, x);
    SeverityIs(rd, items);
    SeverityIs(rd, items + [x]);
    if k !in keys {
      NoGroup(rd, items, k);
    }
    forall k' | k' != k
      ensures CriticalGroup(rd, items + [x], k') == CriticalGroup(rd, items, k')
      ensures k' in keys' <==> k' in keys
    {
      GroupAppended(rd, items, x, k', Red);
      GroupAppended(rd, items, x, k', Yellow);
      GroupAppended(rd, items, x, k', Failed);
    }
    GroupAppended(rd, items, x, k, Red);
    GroupAppended(rd, items, x, k, Yellow);
    GroupAppended(rd, items, x, k, Failed);
    assert k in keys';
    assert CriticalGroup(rd, items, k) && !CriticalGroup(rd, items + [x], k) <==>
           Silent(rd, Group(rd.render, items, k)) && rd.Hits(x, Yellow);
  }

  /** A failure without a state makes its result critical; a yellow item added to it makes it yellow. */
  lemma AddingToSilent(rd: Reading, a: Item, b: Item)
    requires rd.Hits(a, Failed) && !rd.Hits(a, Yellow) && !rd.Hits(a, Red) && !rd.Hits(a, Missing)
    requires rd.Hits(b, Yellow) && !rd.Hits(b, Missing) && KeyOf(rd.render, a) == KeyOf(rd.render, b)
    ensures Aggregate(rd, [a], TodasDebenCumplir).estado == CRITICO
    ensures Aggregate(rd, [a, b], TodasDebenCumplir).estado == NO_DESEADO
  {
    PairFlat(rd, a, b);
    OneGroup(rd.render, a);
    OnlyGroup(rd, a);
    assert [a] + [b] == [a, b];
    hide Aggregate, FlatOutcome, rd.Count, Keys, Group, KeyOf, CriticalGroup;
    AddingImprovesIff(rd, [a], b);
    hide rd.Hits, Silent, SilentGroup, Evaluating;
    GroupedAgainstFlat(rd, [a], TodasDebenCumplir);
    GroupedAgainstFlat(rd, [a, b], TodasDebenCumplir);
  }

  lemma PairFlat(rd: Reading, a: Item, b: Item)
    requires rd.Hits(a, Failed) && !rd.Hits(a, Yellow) && !rd.Hits(a, Red) && !rd.Hits(a, Missing)
    requires rd.Hits(b, Yellow) && !rd.Hits(b, Missing)
    ensures rd.Hits(a, Comparable) && rd.Hits(b, Comparable)
    ensures Silent(rd, [a]) && rd.Count([a], Missing) == 0 && rd.Count([a], Comparable) == 1
    ensures FlatOutcome(rd, [a], TodasDebenCumplir).estado == CRITICO
    ensures FlatOutcome(rd, [a, b], TodasDebenCumplir).estado == NO_DESEADO
  {
    assert rd.Hits(a, Comparable) && !rd.Hits(a, Passed) && rd.Hits(b, Comparable) && !rd.Hits(b, Red);
    hide rd.Hits, rd.Count;
    CountTwo(rd, b, a, Missing);
    CountTwo(rd, b, a, Comparable);
    CountTwo(rd, b, a, Passed);
    CountTwo(rd, b, a, Yellow);
    CountTwo(rd, b, a, Red);
    CountTwo(rd, b, a, Failed);
    CountTwo(rd, a, b, Missing);
    CountTwo(rd, a, b, Comparable);
    CountTwo(rd, a, b, Yellow);
    CountTwo(rd, a, b, Red);
  }

  lemma OnlyGroup(rd: Reading, a: Item)
    ensures forall k' :: k' in Keys(rd.render, [a]) && k' != KeyOf(rd.render, a) ==> !CriticalGroup(rd, [a], k')
  {
    OneGroup(rd.render, a);
    hide Keys, KeyOf;
  }

  lemma AddingCanImprove(render: Renderer)
    ensures var rd := Reading(render, {});
            var a := Item(Null, Null, Null, Some(false), OTRO("SIN_LIMITE_CONFIGURADO"), Str("2"), Null);
            var b := Item(Null, Null, Null, Some(false), NO_DESEADO, Str("2"), Null);
            && Aggregate(rd, [a], TodasDebenCumplir).estado == CRITICO
            && Aggregate(rd, [a, b], TodasDebenCumplir).estado == NO_DESEADO
  {
    hide Aggregate, FlatOutcome, Keys, Group;
    var a := Item(Null, Null, Null, Some(false), OTRO("SIN_LIMITE_CONFIGURADO"), Str("2"), Null);
    var b := Item(Null, Null, Null, Some(false), NO_DESEADO, Str("2"), Null);
    AddingToSilent(Reading(render, {}), a, b);
  }

  lemma OneGroup(render: Renderer, a: Item)
    ensures Keys(render, [a]) == [KeyOf(render, a)] && Group(render, [a], KeyOf(render, a)) == [a]
  {
    hide KeyOf;
    assert [a][..0] == [];
  }

  /** For well-formed items no comparable item ever improves an evaluated verdict. */
  lemma AddingNeverImproves(rd: Reading, items: seq<Item>, x: Item)
    requires WellFormed(rd, items)
    requires Evaluating(rd, items, TodasDebenCumplir) && rd.Count(items, Comparable) > 0
    requires rd.Hits(x, Comparable) && !rd.Hits(x, Missing)
    ensures Severity(Aggregate(rd, items + [x], TodasDebenCumplir).estado)
         >= Severity(Aggregate(rd, items, TodasDebenCumplir).estado)
  {
    hide rd.Count, Group, Keys, Aggregate;
    AddingImprovesIff(rd, items, x);
    WellFormedIsNotSilent(rd, items);
    var k := KeyOf(rd.render, x);
    if k !in Keys(rd.render, items) {
      NoGroup(rd, items, k);
    }
  }
}
