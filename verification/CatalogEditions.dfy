/** Repair of catalog items that were created before catalog editions existed. */
module CatalogEditions {
  import opened Basics
  import opened OrderedIds

  datatype Catalog = Catalog(actual: Option<int>)
  datatype Edition = Edition(catalogo: int, numero: nat, activo: bool, borrado: bool)
  datatype Item = Item(catalogo: int, version: Option<int>, codigo: string)

  datatype Tables = Tables(
    catalogs: map<int, Catalog>, editions: map<int, Edition>, items: map<int, Item>, nextEdition: int)

  datatype Totals = Totals(repaired: nat, created: nat, conflicts: nat)

  // ---------- Constraints of the tables ----------

  predicate ForeignKeys(t: Tables) {
    && (forall c :: c in t.catalogs && t.catalogs[c].actual.Some? ==> t.catalogs[c].actual.value in t.editions)
    && (forall v :: v in t.editions ==> v < t.nextEdition && t.editions[v].catalogo in t.catalogs)
    && (forall i :: i in t.items ==> t.items[i].catalogo in t.catalogs
                                     && (t.items[i].version.Some? ==> t.items[i].version.value in t.editions))
  }

  predicate SameSlot(a: Item, b: Item) {
    a.version.Some? && a.version == b.version && a.codigo == b.codigo
  }

  predicate SameNumber(a: Edition, b: Edition) {
    a.catalogo == b.catalogo && a.numero == b.numero
  }

  /** `unique_together = ("version", "codigo")` and `("catalogo", "numero")` */
  predicate Unique(t: Tables) {
    && (forall i, j :: i in t.items && j in t.items && SameSlot(t.items[i], t.items[j]) ==> i == j)
    && (forall v, w :: v in t.editions && w in t.editions && SameNumber(t.editions[v], t.editions[w]) ==> v == w)
  }

  predicate Valid(t: Tables) {
    ForeignKeys(t) && Unique(t)
  }

  // ---------- What the command sees of one catalog ----------

  function ActiveEditions(t: Tables, c: int): set<int> {
    set v | v in t.editions && t.editions[v].catalogo == c && t.editions[v].activo && !t.editions[v].borrado
  }

  predicate IsLatest(t: Tables, c: int, v: int) {
    v in ActiveEditions(t, c)
    && forall w :: w in ActiveEditions(t, c) ==>
                     t.editions[w].numero < t.editions[v].numero
                     || (t.editions[w].numero == t.editions[v].numero && w <= v)
  }

  method LatestActiveVersion(t: Tables, c: int) returns (latest: Option<int>)
    ensures latest.None? <==> ActiveEditions(t, c) == {}
    ensures latest.Some? ==> IsLatest(t, c, latest.value)
  {
    latest := None;
    var todo := ActiveEditions(t, c);
    while todo != {}
      invariant todo <= ActiveEditions(t, c)
      invariant latest.None? ==> todo == ActiveEditions(t, c)
      invariant latest.Some? ==>
                  latest.value in ActiveEditions(t, c)
                  && forall w :: w in ActiveEditions(t, c) - todo ==>
                                   t.editions[w].numero < t.editions[latest.value].numero
                                   || (t.editions[w].numero == t.editions[latest.value].numero && w <= latest.value)
      decreases todo
    {
      ghost var member := Member(todo);
      var v :| v in todo;
      if latest.None? || t.editions[latest.value].numero < t.editions[v].numero
         || (t.editions[latest.value].numero == t.editions[v].numero && latest.value < v) {
        latest := Some(v);
      }
      todo := todo - {v};
    }
  }

  lemma LatestExists(t: Tables, c: int)
    requires ActiveEditions(t, c) != {}
    ensures exists v :: IsLatest(t, c, v)
  {
    var v := LatestIn(t, c, ActiveEditions(t, c));
    assert IsLatest(t, c, v);
  }

  lemma {:induction false} LatestIn(t: Tables, c: int, s: set<int>) returns (v: int)
    requires s <= ActiveEditions(t, c) && s != {}
    ensures v in s
    ensures forall w :: w in s ==> t.editions[w].numero < t.editions[v].numero
                                   || (t.editions[w].numero == t.editions[v].numero && w <= v)
    decreases |s|
  {
    v := Member(s);
    if s != {v} {
      assert s == {v} + (s - {v});
      var u := LatestIn(t, c, s - {v});
      if t.editions[v].numero < t.editions[u].numero || (t.editions[v].numero == t.editions[u].numero && v < u) {
        v := u;
      }
    }
  }

  ghost function LatestOf(t: Tables, c: int): (latest: Option<int>)
    ensures latest.None? <==> ActiveEditions(t, c) == {}
    ensures latest.Some? ==> IsLatest(t, c, latest.value)
  {
    if ActiveEditions(t, c) == {} then None
    else
      LatestExists(t, c);
      var v :| IsLatest(t, c, v);
      Some(v)
  }

  /** `_valid_current_version` */
  function ValidCurrent(t: Tables, c: int): Option<int>
    requires c in t.catalogs
  {
    var actual := t.catalogs[c].actual;
    if actual.Some? && actual.value in ActiveEditions(t, c) then actual else None
  }

  ghost function CurrentOf(t: Tables, c: int): Option<int>
    requires c in t.catalogs
  {
    if ValidCurrent(t, c).Some? then ValidCurrent(t, c) else LatestOf(t, c)
  }

  function Legacy(t: Tables, c: int): set<int> {
    set i | i in t.items && t.items[i].catalogo == c && t.items[i].version.None?
  }

  function ExistingCodes(t: Tables, current: Option<int>): set<string> {
    if current.None? then {} else set i | i in t.items && t.items[i].version == current :: t.items[i].codigo
  }

  function Transferable(t: Tables, c: int, current: Option<int>): set<int> {
    set i | i in Legacy(t, c) && t.items[i].codigo !in ExistingCodes(t, current)
  }

  function ConflictCodes(t: Tables, c: int, current: Option<int>): set<string> {
    set i | i in Legacy(t, c) && t.items[i].codigo in ExistingCodes(t, current) :: t.items[i].codigo
  }

  /** Two items to be moved share a code: the update would violate the unique constraint. */
  predicate Clash(t: Tables, ids: set<int>) {
    exists i, j :: i in ids && j in ids && i != j && i in t.items && j in t.items && t.items[i].codigo == t.items[j].codigo
  }

  ghost predicate ClashOf(t: Tables, c: int)
    requires c in t.catalogs
  {
    Clash(t, Transferable(t, c, CurrentOf(t, c)))
  }

  ghost function TotalsOf(t: Tables, c: int): Totals
    requires c in t.catalogs
  {
    var current := CurrentOf(t, c);
    Totals(|Transferable(t, c, current)|, if current.None? then 1 else 0, |ConflictCodes(t, c, current)|)
  }

  function Add(a: Totals, b: Totals): Totals {
    Totals(a.repaired + b.repaired, a.created + b.created, a.conflicts + b.conflicts)
  }

  predicate IsMaxNumber(t: Tables, c: int, n: nat) {
    && (forall v :: v in t.editions && t.editions[v].catalogo == c ==> t.editions[v].numero <= n)
    && (n > 0 ==> exists v :: v in t.editions && t.editions[v].catalogo == c && t.editions[v].numero == n)
  }

  method MaxNumber(t: Tables, c: int) returns (n: nat)
    ensures IsMaxNumber(t, c, n)
  {
    n := 0;
    var todo := set v | v in t.editions && t.editions[v].catalogo == c;
    ghost var all := todo;
    while todo != {}
      invariant todo <= all
      invariant forall v :: v in all - todo ==> t.editions[v].numero <= n
      invariant n > 0 ==> exists v :: v in all && t.editions[v].numero == n
      decreases todo
    {
      ghost var member := Member(todo);
      var v :| v in todo;
      if n < t.editions[v].numero {
        n := t.editions[v].numero;
      }
      todo := todo - {v};
    }
  }

  /** The tables after one catalog is repaired; `number` is the highest number it has in use. */
  function Repaired(t: Tables, c: int, current: Option<int>, number: nat): Tables
    requires c in t.catalogs
  {
    var v := if current.Some? then current.value else t.nextEdition;
    var moved := Transferable(t, c, current);
    Tables(
      t.catalogs[c := Catalog(Some(v))],
      if current.Some? then t.editions else t.editions[v := Edition(c, number + 1, true, false)],
      map i | i in t.items :: if i in moved then t.items[i].(version := Some(v)) else t.items[i],
      if current.Some? then t.nextEdition else v + 1)
  }

  /** `t'` is `t` with one catalog repaired. */
  ghost predicate Repairs(t: Tables, c: int, t': Tables) {
    c in t.catalogs && !ClashOf(t, c) && exists n: nat :: IsMaxNumber(t, c, n) && t' == Repaired(t, c, CurrentOf(t, c), n)
  }

  // ---------- One catalog at a time ----------

  lemma CurrentDependsOn(t: Tables, t': Tables, c: int)
    requires c in t.catalogs && c in t'.catalogs && t'.catalogs[c] == t.catalogs[c]
    requires ActiveEditions(t', c) == ActiveEditions(t, c)
    requires forall v :: v in ActiveEditions(t, c) ==> t'.editions[v] == t.editions[v]
    ensures CurrentOf(t', c) == CurrentOf(t, c)
  {
    forall v
      ensures IsLatest(t', c, v) <==> IsLatest(t, c, v)
    {
    }
    var a, b := LatestOf(t, c), LatestOf(t', c);
    if a.Some? {
      assert IsLatest(t, c, a.value) && IsLatest(t, c, b.value);
    }
  }

  lemma CurrentIsActive(t: Tables, c: int)
    requires c in t.catalogs && CurrentOf(t, c).Some?
    ensures CurrentOf(t, c).value in ActiveEditions(t, c)
  {
  }

  /** What repairing `c` shows to another catalog is what it showed before. */
  lemma OthersUnaffected(t: Tables, c: int, t': Tables, o: int)
    requires Valid(t) && Repairs(t, c, t') && o in t.catalogs && o != c
    ensures CurrentOf(t', o) == CurrentOf(t, o)
    ensures TotalsOf(t', o) == TotalsOf(t, o) && ClashOf(t', o) == ClashOf(t, o)
    ensures Transferable(t', o, CurrentOf(t', o)) == Transferable(t, o, CurrentOf(t, o))
  {
    assert ActiveEditions(t', o) == ActiveEditions(t, o);
    CurrentDependsOn(t, t', o);
    if CurrentOf(t, c).Some? {
      CurrentIsActive(t, c);
    }
    var current := CurrentOf(t, o);
    if current.Some? {
      CurrentIsActive(t, o);
    }
    forall i | i in t.items
      ensures t'.items[i].version == current && current.Some? <==> t.items[i].version == current && current.Some?
      ensures t'.items[i].codigo == t.items[i].codigo
    {
    }
    assert ExistingCodes(t', current) == ExistingCodes(t, current);
    assert Legacy(t', o) == Legacy(t, o);
    assert Transferable(t', o, current) == Transferable(t, o, current);
    assert ConflictCodes(t', o, current) == ConflictCodes(t, o, current);
  }

  /** Repairing keeps the constraints, moves no versioned item, changes no edition, and leaves the
      catalog with an active edition of its own. */
  lemma RepairKeeps(t: Tables, c: int, t': Tables)
    requires Valid(t) && Repairs(t, c, t')
    ensures Valid(t') && t'.catalogs.Keys == t.catalogs.Keys && t'.items.Keys == t.items.Keys
    ensures forall v :: v in t.editions ==> v in t'.editions && t'.editions[v] == t.editions[v]
    ensures forall i :: i in t.items ==> t'.items[i] == t.items[i].(version := t'.items[i].version)
                                         && (t.items[i].version.Some? ==> t'.items[i] == t.items[i])
    ensures ValidCurrent(t', c).Some? && t'.catalogs[c].actual == ValidCurrent(t', c)
    ensures forall o :: o in t.catalogs && o != c ==> t'.catalogs[o] == t.catalogs[o]
  {
    var current := CurrentOf(t, c);
    var n: nat :| IsMaxNumber(t, c, n) && t' == Repaired(t, c, current, n);
    if current.Some? {
      CurrentIsActive(t, c);
    }
    RepairedRows(t, c, current, n);
    RepairedReferences(t, c, current, n);
    RepairedCurrent(t, c, current, n);
    RepairedSlots(t, c, current, n);
    RepairedNumbers(t, c, current, n);
    hide ClashOf, CurrentOf, Repaired, ForeignKeys, ValidCurrent, Transferable, IsMaxNumber, ActiveEditions;
  }

  lemma RepairedRows(t: Tables, c: int, current: Option<int>, n: nat)
    requires ForeignKeys(t) && c in t.catalogs
    ensures var t' := Repaired(t, c, current, n);
            && t'.catalogs.Keys == t.catalogs.Keys && t'.items.Keys == t.items.Keys
            && (forall v :: v in t.editions ==> v in t'.editions && t'.editions[v] == t.editions[v])
            && (forall i :: i in t.items ==> t'.items[i] == t.items[i].(version := t'.items[i].version)
                                             && (t.items[i].version.Some? ==> t'.items[i] == t.items[i]))
            && (forall o :: o in t.catalogs && o != c ==> t'.catalogs[o] == t.catalogs[o])
  {
  }

  lemma RepairedReferences(t: Tables, c: int, current: Option<int>, n: nat)
    requires ForeignKeys(t) && c in t.catalogs && (current.Some? ==> current.value in ActiveEditions(t, c))
    ensures ForeignKeys(Repaired(t, c, current, n))
  {
    hide Transferable;
  }

  lemma RepairedCurrent(t: Tables, c: int, current: Option<int>, n: nat)
    requires c in t.catalogs && (current.Some? ==> current.value in ActiveEditions(t, c))
    ensures var t' := Repaired(t, c, current, n);
            ValidCurrent(t', c).Some? && t'.catalogs[c].actual == ValidCurrent(t', c)
  {
    hide Transferable;
  }

  /** No two items of an edition get the same code. */
  lemma RepairedSlots(t: Tables, c: int, current: Option<int>, n: nat)
    requires Valid(t) && c in t.catalogs && !Clash(t, Transferable(t, c, current))
    ensures var t' := Repaired(t, c, current, n);
            forall i, j :: i in t'.items && j in t'.items && SameSlot(t'.items[i], t'.items[j]) ==> i == j
  {
    var t', moved := Repaired(t, c, current, n), Transferable(t, c, current);
    forall i, j | i in t'.items && j in t'.items && SameSlot(t'.items[i], t'.items[j])
      ensures i == j
    {
      if i !in moved && j !in moved {
        assert SameSlot(t.items[i], t.items[j]);
      }
    }
  }

  /** A new edition takes a number its catalog does not use. */
  lemma RepairedNumbers(t: Tables, c: int, current: Option<int>, n: nat)
    requires Valid(t) && c in t.catalogs && IsMaxNumber(t, c, n)
    ensures var t' := Repaired(t, c, current, n);
            forall a, b :: a in t'.editions && b in t'.editions && SameNumber(t'.editions[a], t'.editions[b]) ==> a == b
  {
    var t' := Repaired(t, c, current, n);
    hide Transferable;
    forall a, b | a in t'.editions && b in t'.editions && SameNumber(t'.editions[a], t'.editions[b])
      ensures a == b
    {
      if a in t.editions && b in t.editions {
        assert SameNumber(t.editions[a], t.editions[b]);
      }
    }
  }

  /** After its repair a catalog has nothing left to move or create, and the same conflicts. */
  lemma NothingLeft(t: Tables, c: int, t': Tables)
    requires Valid(t) && Repairs(t, c, t')
    ensures TotalsOf(t', c) == Totals(0, 0, TotalsOf(t, c).conflicts) && !ClashOf(t', c)
    ensures CurrentOf(t', c) == t'.catalogs[c].actual
  {
    RepairKeeps(t, c, t');
    var current, v := CurrentOf(t, c), t'.catalogs[c].actual;
    assert CurrentOf(t', c) == v;
    forall i | i in Legacy(t', c)
      ensures i in Legacy(t, c) && t.items[i].codigo in ExistingCodes(t, current) && t.items[i].codigo in ExistingCodes(t', v)
    {
      var j :| j in t.items && t.items[j].version == current && t.items[j].codigo == t.items[i].codigo;
      assert t'.items[j] == t.items[j];
    }
    assert Transferable(t', c, v) == {};
    forall code
      ensures code in ConflictCodes(t', c, v) <==> code in ConflictCodes(t, c, current)
    {
      if code in ConflictCodes(t, c, current) {
        var i :| i in Legacy(t, c) && t.items[i].codigo in ExistingCodes(t, current) && t.items[i].codigo == code;
        assert i !in Transferable(t, c, current);
        assert i in Legacy(t', c);
      }
    }
    assert ConflictCodes(t', c, v) == ConflictCodes(t, c, current);
  }

  // ---------- The whole command ----------

  /** `t'` is `t` with the listed catalogs repaired one after the other. */
  ghost predicate Runs(t: Tables, ids: seq<int>, t': Tables) {
    if ids == [] then t' == t
    else exists mid :: Runs(t, Front(ids), mid) && Repairs(mid, Back(ids), t')
  }

  function Front(ids: seq<int>): seq<int>
    requires ids != []
  {
    ids[..|ids| - 1]
  }

  function Back(ids: seq<int>): int
    requires ids != []
  {
    ids[|ids| - 1]
  }

  ghost function SumTotals(t: Tables, ids: seq<int>): Totals
    requires forall c :: c in ids ==> c in t.catalogs
  {
    if ids == [] then Totals(0, 0, 0) else Add(SumTotals(t, ids[..|ids| - 1]), TotalsOf(t, ids[|ids| - 1]))
  }

  /** Rows may gain an edition; nothing else about them changes. */
  predicate OnlyAssigns(t: Tables, t': Tables) {
    && t'.catalogs.Keys == t.catalogs.Keys && t'.items.Keys == t.items.Keys
    && (forall v :: v in t.editions ==> v in t'.editions && t'.editions[v] == t.editions[v])
    && (forall i :: i in t.items ==> t'.items[i] == t.items[i].(version := t'.items[i].version)
                                     && (t.items[i].version.Some? ==> t'.items[i] == t.items[i]))
  }

  /** The state of a catalog during a run: as at the start until its turn comes, repaired from then on. */
  ghost predicate Stage(t: Tables, t': Tables, c: int, done: bool)
    requires c in t.catalogs && c in t'.catalogs
  {
    if !done then
      && CurrentOf(t', c) == CurrentOf(t, c) && TotalsOf(t', c) == TotalsOf(t, c) && ClashOf(t', c) == ClashOf(t, c)
      && Transferable(t', c, CurrentOf(t', c)) == Transferable(t, c, CurrentOf(t, c))
    else
      && TotalsOf(t', c) == Totals(0, 0, TotalsOf(t, c).conflicts) && !ClashOf(t', c) && !ClashOf(t, c)
      && t'.catalogs[c].actual.Some? && CurrentOf(t', c) == t'.catalogs[c].actual == ValidCurrent(t', c)
  }

  lemma StageStep(t: Tables, mid: Tables, d: int, t': Tables, c: int, done: bool)
    requires Valid(mid) && Repairs(mid, d, t') && c in t.catalogs && c in mid.catalogs && c in t'.catalogs
    requires Stage(t, mid, c, done) && (c == d ==> !done)
    ensures Stage(t, t', c, done || c == d)
  {
    RepairKeeps(mid, d, t');
    if c == d {
      NothingLeft(mid, d, t');
    } else {
      OthersUnaffected(mid, d, t', c);
      hide CurrentOf, Transferable, ExistingCodes, Legacy, ConflictCodes, ClashOf, TotalsOf;
    }
  }

  lemma {:induction false} RunFacts(t: Tables, ids: seq<int>, t': Tables)
    requires Valid(t) && Distinct(ids) && (forall c :: c in ids ==> c in t.catalogs) && Runs(t, ids, t')
    ensures Valid(t') && OnlyAssigns(t, t')
    ensures forall c :: c in t.catalogs ==> Stage(t, t', c, c in ids)
  {
    hide Valid, Stage, OnlyAssigns, Repairs;
    if ids == [] {
      RunNothing(t);
    } else {
      var n := |ids| - 1;
      var d := ids[n];
      assert ids == ids[..n] + [d];
      var mid :| Runs(t, ids[..n], mid) && Repairs(mid, d, t');
      RunFacts(t, ids[..n], mid);
      RunStep(t, mid, d, t');
      assert d !in ids[..n];
      forall c | c in t.catalogs
        ensures Stage(t, t', c, c in ids)
      {
        StageStep(t, mid, d, t', c, c in ids[..n]);
      }
    }
  }

  lemma RunNothing(t: Tables)
    ensures OnlyAssigns(t, t) && forall c :: c in t.catalogs ==> Stage(t, t, c, false)
  {
  }

  lemma RunStep(t: Tables, mid: Tables, d: int, t': Tables)
    requires Valid(mid) && OnlyAssigns(t, mid) && Repairs(mid, d, t')
    ensures Valid(t') && OnlyAssigns(t, t') && t'.catalogs.Keys == t.catalogs.Keys == mid.catalogs.Keys
  {
    RepairKeeps(mid, d, t');
    hide Repairs, Valid;
  }

  /** A catalog whose turn has not come looks as it did at the start. */
  lemma TurnOf(t: Tables, order: seq<int>, n: nat, now: Tables)
    requires Valid(t) && Lists(order, t.catalogs.Keys) && n < |order| && Runs(t, order[..n], now)
    ensures order[n] in t.catalogs && order[n] in now.catalogs && Valid(now)
    ensures TotalsOf(now, order[n]) == TotalsOf(t, order[n]) && ClashOf(now, order[n]) == ClashOf(t, order[n])
  {
    var c := order[n];
    assert c in order;
    forall d | d in order[..n]
      ensures d in order && d != c
    {
    }
    RunFacts(t, order[..n], now);
    hide TotalsOf, ClashOf, CurrentOf, Valid, Runs;
    assert Stage(t, now, c, c in order[..n]);
  }

  class CatalogTables {
    var catalogs: map<int, Catalog>
    var editions: map<int, Edition>
    var items: map<int, Item>
    var nextEdition: int

    function Now(): Tables
      reads this
    {
      Tables(catalogs, editions, items, nextEdition)
    }

    /** The current edition of a catalog, or the latest active one. */
    method FindCurrent(c: int) returns (current: Option<int>)
      requires c in catalogs
      ensures current == CurrentOf(Now(), c)
    {
      current := ValidCurrent(Now(), c);
      if current.None? {
        current := LatestActiveVersion(Now(), c);
        ghost var latest := LatestOf(Now(), c);
        if latest.Some? {
          assert IsLatest(Now(), c, latest.value) && IsLatest(Now(), c, current.value);
        }
      }
    }

    /** The body of the loop for one catalog; `failed` stands for the integrity error of the database. */
    method RepairOne(c: int, apply: bool) returns (totals: Totals, failed: bool)
      requires c in catalogs
      modifies this
      ensures totals == TotalsOf(old(Now()), c)
      ensures failed == (apply && ClashOf(old(Now()), c))
      ensures !apply ==> Now() == old(Now())
      ensures apply && !failed ==> Repairs(old(Now()), c, Now())
    {
      ghost var t := Now();
      var current := FindCurrent(c);
      var transferable := Transferable(Now(), c, current);
      var conflicts := ConflictCodes(Now(), c, current);
      totals := Totals(|transferable|, if current.None? then 1 else 0, |conflicts|);
      failed := apply && Clash(Now(), transferable);
      if apply && !failed {
        var target := nextEdition;
        var next := MaxNumber(Now(), c);
        if current.None? {
          editions := editions[target := Edition(c, next + 1, true, false)];
          nextEdition := target + 1;
        } else {
          target := current.value;
        }
        if catalogs[c].actual != Some(target) {
          catalogs := catalogs[c := catalogs[c].(actual := Some(target))];
        }
        items := map i | i in items :: if i in transferable then items[i].(version := Some(target)) else items[i];
        assert Now() == Repaired(t, c, current, next);
      }
    }

    /** `handle`: None is an integrity error, and the transaction changes nothing. */
    method Handle(apply: bool) returns (r: Option<Totals>, ghost ids: seq<int>)
      requires Valid(Now())
      modifies this
      ensures Lists(ids, old(catalogs).Keys)
      ensures apply ==> (r.None? <==> exists c :: c in old(catalogs) && ClashOf(old(Now()), c))
      ensures !apply ==> r.Some?
      ensures r.None? || !apply ==> Now() == old(Now())
      ensures r.Some? ==> r.value == SumTotals(old(Now()), ids)
      ensures r.Some? && apply ==> Runs(old(Now()), ids, Now())
    {
      hide Repairs, TotalsOf, ClashOf, Valid, Stage, OnlyAssigns;
      var savedCatalogs, savedEditions, savedItems, savedNext := catalogs, editions, items, nextEdition;
      ghost var t := Now();
      var order := SortedIds(catalogs.Keys);
      ids := order;
      var sum := Totals(0, 0, 0);
      RunNothing(t);
      for n := 0 to |order|
        invariant sum == SumTotals(t, order[..n])
        invariant !apply ==> Now() == t
        invariant apply ==> Runs(t, order[..n], Now())
        invariant forall k :: 0 <= k < n && apply ==> !ClashOf(t, order[k])
      {
        var c := order[n];
        assert order[..n + 1] == order[..n] + [c];
        assert c in order;
        if apply {
          TurnOf(t, order, n, Now());
        }
        ghost var mid := Now();
        var one, failed := RepairOne(c, apply);
        assert Front(order[..n + 1]) == order[..n] && Back(order[..n + 1]) == c;
        assert apply && !failed ==> Runs(t, order[..n], mid) && Repairs(mid, c, Now());
        if failed {
          catalogs, editions, items, nextEdition := savedCatalogs, savedEditions, savedItems, savedNext;
          return None, ids;
        }
        sum := Add(sum, one);
      }
      assert order[..|order|] == order;
      r := Some(sum);
    }
  }

  // ---------- What the command promises ----------

  /** The dry run reports what applying reports, and applying fails exactly when two unversioned items of
      a catalog share a code that its current edition lacks. */
  lemma ApplySucceedsWith(t: Tables, ids: seq<int>, t': Tables)
    requires Valid(t) && Lists(ids, t.catalogs.Keys) && Runs(t, ids, t')
    ensures Valid(t') && OnlyAssigns(t, t')
    ensures forall c :: c in t.catalogs ==> !ClashOf(t, c)
    ensures forall c :: c in t'.catalogs ==> t'.catalogs[c].actual.Some? && ValidCurrent(t', c) == t'.catalogs[c].actual
  {
    hide TotalsOf, ClashOf, CurrentOf, Valid, Runs, ValidCurrent, OnlyAssigns;
    RunFacts(t, ids, t');
    OnlyAssignsKeys(t, t');
    forall c | c in t.catalogs
      ensures !ClashOf(t, c) && t'.catalogs[c].actual.Some? && ValidCurrent(t', c) == t'.catalogs[c].actual
    {
      assert Stage(t, t', c, c in ids);
    }
  }

  lemma OnlyAssignsKeys(t: Tables, t': Tables)
    requires OnlyAssigns(t, t')
    ensures t'.catalogs.Keys == t.catalogs.Keys
  {
  }

  /** A second run repairs and creates nothing, keeps the same conflicts, and cannot fail. */
  lemma {:induction false} SecondRunIsIdle(t: Tables, ids: seq<int>, t': Tables, cs: seq<int>)
    requires Valid(t) && Lists(ids, t.catalogs.Keys) && Runs(t, ids, t') && forall c :: c in cs ==> c in t.catalogs
    ensures t'.catalogs.Keys == t.catalogs.Keys && forall c :: c in t.catalogs ==> !ClashOf(t', c)
    ensures SumTotals(t', cs) == Totals(0, 0, SumTotals(t, cs).conflicts)
  {
    hide TotalsOf, ClashOf, CurrentOf, Valid, Runs, ValidCurrent, OnlyAssigns;
    RunFacts(t, ids, t');
    OnlyAssignsKeys(t, t');
    forall c | c in t.catalogs
      ensures !ClashOf(t', c) && TotalsOf(t', c) == Totals(0, 0, TotalsOf(t, c).conflicts)
    {
      assert Stage(t, t', c, c in ids);
    }
    if cs != [] {
      assert cs == cs[..|cs| - 1] + [cs[|cs| - 1]];
      SecondRunIsIdle(t, ids, t', cs[..|cs| - 1]);
    }
  }

  lemma IdleRepair(t: Tables, c: int, t': Tables)
    requires Repairs(t, c, t') && TotalsOf(t, c).repaired == 0 && t.catalogs[c].actual.Some?
    requires CurrentOf(t, c) == t.catalogs[c].actual
    ensures t' == t
  {
    var current := CurrentOf(t, c);
    assert Transferable(t, c, current) == {};
    assert t'.catalogs == t.catalogs && t'.items == t.items;
  }

  /** The second run leaves every table as it is. */
  lemma {:induction false} SecondRunChangesNothing(t: Tables, ids: seq<int>, t': Tables, cs: seq<int>, t'': Tables)
    requires Valid(t) && Lists(ids, t.catalogs.Keys) && Runs(t, ids, t')
    requires (forall c :: c in cs ==> c in t.catalogs) && Runs(t', cs, t'')
    ensures t'' == t'
  {
    hide TotalsOf, ClashOf, CurrentOf, Valid, ValidCurrent, OnlyAssigns, Repairs;
    if cs != [] {
      var c := Back(cs);
      assert cs == Front(cs) + [c];
      var mid :| Runs(t', Front(cs), mid) && Repairs(mid, c, t'');
      SecondRunChangesNothing(t, ids, t', Front(cs), mid);
      RunFacts(t, ids, t');
      RunKeys(t, ids, t');
      assert Stage(t, t', c, c in ids);
      IdleRepair(t', c, t'');
    }
  }

  lemma RunKeys(t: Tables, ids: seq<int>, t': Tables)
    requires Valid(t) && Lists(ids, t.catalogs.Keys) && Runs(t, ids, t')
    ensures t'.catalogs.Keys == t.catalogs.Keys
  {
    hide Valid, Runs;
    RunFacts(t, ids, t');
    OnlyAssignsKeys(t, t');
  }

  /** Two unversioned items with one code: the dry run reports both as repaired, applying fails. */
  lemma ClashExample()
    ensures var t := Tables(map[1 := Catalog(None)], map[], map[1 := Item(1, None, "a"), 2 := Item(1, None, "a")], 1);
            Valid(t) && TotalsOf(t, 1) == Totals(2, 1, 0) && ClashOf(t, 1)
  {
    var t := Tables(map[1 := Catalog(None)], map[], map[1 := Item(1, None, "a"), 2 := Item(1, None, "a")], 1);
    assert ActiveEditions(t, 1) == {};
    assert CurrentOf(t, 1) == None;
    assert 1 in Legacy(t, 1) && 2 in Legacy(t, 1);
    assert Transferable(t, 1, None) == {1, 2};
    assert ConflictCodes(t, 1, None) == {};
    assert t.items[1].codigo == t.items[2].codigo;
  }
}
