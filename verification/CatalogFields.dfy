/** One repaired catalog, read off the rows. */
module CatalogFields {
  import opened Basics
  import opened CatalogEditions

  /** An edition of the catalog that is active and not deleted. */
  predicate Usable(t: Tables, c: int, v: int) {
    v in t.editions && t.editions[v].catalogo == c && t.editions[v].activo && !t.editions[v].borrado
  }

  /** The edition comes last, by number and then by id, among the usable ones. */
  predicate Newest(t: Tables, c: int, v: int) {
    Usable(t, c, v)
    && forall w :: w in t.editions && Usable(t, c, w) && w != v ==>
         t.editions[w].numero < t.editions[v].numero || (t.editions[w].numero == t.editions[v].numero && w < v)
  }

  lemma UsableIff(t: Tables, c: int)
    ensures forall v :: v in ActiveEditions(t, c) <==> Usable(t, c, v)
    ensures forall v :: IsLatest(t, c, v) <==> Newest(t, c, v)
  {
    forall v
      ensures IsLatest(t, c, v) <==> Newest(t, c, v)
    {
      assert forall w :: w in ActiveEditions(t, c) <==> Usable(t, c, w);
    }
  }

  /** The edition in use: the current one if it is usable, else the newest usable one, if any. */
  lemma CurrentByFields(t: Tables, c: int)
    requires c in t.catalogs
    ensures var actual, current := t.catalogs[c].actual, CurrentOf(t, c);
            && (current.None? <==> forall v :: v in t.editions ==> !Usable(t, c, v))
            && (actual.Some? && Usable(t, c, actual.value) ==> current == actual)
            && (current.Some? && current != actual ==>
                  Newest(t, c, current.value) && !(actual.Some? && Usable(t, c, actual.value)))
  {
    UsableIff(t, c);
    if forall v :: v in t.editions ==> !Usable(t, c, v) {
      assert forall v :: v in ActiveEditions(t, c) ==> v in t.editions;
      assert forall v :: v !in ActiveEditions(t, c);
    }
    if v :| v in t.editions && Usable(t, c, v) {
      assert v in ActiveEditions(t, c);
    }
    hide Usable, IsLatest, Newest;
  }

  /** The item has no edition yet, and the edition in use has no item with its code. */
  predicate Moves(t: Tables, c: int, current: Option<int>, i: int) {
    i in t.items && t.items[i].catalogo == c && t.items[i].version == None
    && (current == None || forall j :: j in t.items && t.items[j].version == current ==> t.items[j].codigo != t.items[i].codigo)
  }

  /** The item has no edition yet and cannot get one, as its code is taken. */
  predicate Conflicts(t: Tables, c: int, current: Option<int>, i: int) {
    i in t.items && t.items[i].catalogo == c && t.items[i].version == None && current != None
    && exists j :: j in t.items && t.items[j].version == current && t.items[j].codigo == t.items[i].codigo
  }

  lemma MovesIff(t: Tables, c: int, current: Option<int>, i: int)
    ensures i in Transferable(t, c, current) <==> Moves(t, c, current, i)
    ensures i in Legacy(t, c) && i !in Transferable(t, c, current) <==> Conflicts(t, c, current, i)
  {
    if i in t.items {
      CodeTaken(t, current, t.items[i].codigo);
    }
    hide ExistingCodes;
  }

  lemma CodeTaken(t: Tables, current: Option<int>, codigo: string)
    ensures codigo in ExistingCodes(t, current) <==>
            current != None && exists j :: j in t.items && t.items[j].version == current && t.items[j].codigo == codigo
  {
  }

  /** What is reported: the items that move, whether an edition is missing, and the codes that conflict. Applying fails
      exactly when two of the items that move have one code. */
  lemma TotalsByFields(t: Tables, c: int)
    requires c in t.catalogs
    ensures var current, totals := CurrentOf(t, c), TotalsOf(t, c);
            && totals.repaired == |set i | i in t.items && Moves(t, c, current, i)|
            && totals.created == (if exists v :: v in t.editions && Usable(t, c, v) then 0 else 1)
            && totals.conflicts == |set i | i in t.items && Conflicts(t, c, current, i) :: t.items[i].codigo|
            && (ClashOf(t, c) <==> exists i, j :: i in t.items && j in t.items && i != j && Moves(t, c, current, i)
                                                  && Moves(t, c, current, j) && t.items[i].codigo == t.items[j].codigo)
  {
    var current := CurrentOf(t, c);
    CurrentByFields(t, c);
    hide CurrentOf, Usable;
    forall i
      ensures i in Transferable(t, c, current) <==> i in t.items && Moves(t, c, current, i)
      ensures i in Legacy(t, c) && t.items[i].codigo in ExistingCodes(t, current) <==> i in t.items && Conflicts(t, c, current, i)
    {
      MovesIff(t, c, current, i);
    }
    assert (set i | i in t.items && Moves(t, c, current, i)) == Transferable(t, c, current);
    assert (set i | i in t.items && Conflicts(t, c, current, i) :: t.items[i].codigo) == ConflictCodes(t, c, current);
    hide Moves, Conflicts, ExistingCodes;
  }

  /** The repaired catalog: its current edition is the one in use, or a new active one numbered one above the highest;
      exactly the items that move get it, and nothing else changes. */
  lemma RepairByFields(t: Tables, c: int, t': Tables)
    requires ForeignKeys(t) && Repairs(t, c, t')
    ensures t'.catalogs.Keys == t.catalogs.Keys && t'.items.Keys == t.items.Keys && t'.catalogs[c].actual.Some?
    ensures var current, v := CurrentOf(t, c), t'.catalogs[c].actual.value;
            && (forall o :: o in t.catalogs && o != c ==> t'.catalogs[o] == t.catalogs[o])
            && (forall i :: i in t.items ==>
                  t'.items[i] == if Moves(t, c, current, i) then t.items[i].(version := Some(v)) else t.items[i])
            && (current.Some? ==> Some(v) == current && t'.editions == t.editions && t'.nextEdition == t.nextEdition)
            && (current.None? ==>
                  && v == t.nextEdition && t'.nextEdition == v + 1 && v !in t.editions && v in t'.editions
                  && (forall w :: w != v ==> (w in t'.editions <==> w in t.editions))
                  && (forall w :: w in t.editions ==> t'.editions[w] == t.editions[w])
                  && IsFirstAbove(t, c, t'.editions[v]))
  {
    var current := CurrentOf(t, c);
    var n: nat :| IsMaxNumber(t, c, n) && t' == Repaired(t, c, current, n);
    forall i {
      MovesIff(t, c, current, i);
    }
    hide Transferable, CurrentOf, Moves, Conflicts;
  }

  /** The edition is new for the catalog: active, and one above the highest number in use, which is 0 for none. */
  ghost predicate IsFirstAbove(t: Tables, c: int, e: Edition) {
    && e.catalogo == c && e.activo && !e.borrado
    && (forall w :: w in t.editions && t.editions[w].catalogo == c ==> t.editions[w].numero < e.numero)
    && (e.numero == 1 || exists w :: w in t.editions && t.editions[w].catalogo == c && t.editions[w].numero + 1 == e.numero)
  }

  // ---------- The whole command ----------

  /** The item is one that the command gives an edition. */
  ghost predicate ToMove(t: Tables, i: int) {
    i in t.items && t.items[i].catalogo in t.catalogs && Moves(t, t.items[i].catalogo, CurrentOf(t, t.items[i].catalogo), i)
  }

  /** The items of the catalogs listed that were to move have the edition that is current now, every other item and
      catalog is as it was. */
  ghost predicate RanOver(t: Tables, ids: seq<int>, t': Tables) {
    && t'.items.Keys == t.items.Keys && t'.catalogs.Keys == t.catalogs.Keys
    && (forall i :: i in t.items ==> t.items[i].catalogo in t.catalogs)
    && (forall i :: i in t.items ==>
          t'.items[i] == if t.items[i].catalogo in ids && ToMove(t, i)
                         then t.items[i].(version := t'.catalogs[t.items[i].catalogo].actual) else t.items[i])
    && (forall c :: c in t.catalogs && c !in ids ==> t'.catalogs[c] == t.catalogs[c])
  }

  lemma {:induction false} RunByFields(t: Tables, ids: seq<int>, t': Tables)
    requires Valid(t) && Distinct(ids) && (forall c :: c in ids ==> c in t.catalogs) && Runs(t, ids, t')
    ensures RanOver(t, ids, t')
  {
    hide Stage, Repairs, Unique, ToMove;
    if ids != [] {
      var n := |ids| - 1;
      var d := ids[n];
      assert ids == ids[..n] + [d];
      var mid :| Runs(t, ids[..n], mid) && Repairs(mid, d, t');
      RunByFields(t, ids[..n], mid);
      RunFacts(t, ids[..n], mid);
      assert d !in ids[..n];
      assert Stage(t, mid, d, d in ids[..n]);
      hide RanOver, Valid, Runs;
      RanOne(t, ids[..n], mid, d, t');
    }
  }

  lemma RanOne(t: Tables, ids: seq<int>, mid: Tables, d: int, t': Tables)
    requires RanOver(t, ids, mid) && Valid(mid) && Repairs(mid, d, t') && d in t.catalogs && d in mid.catalogs && d !in ids
    requires Stage(t, mid, d, false)
    ensures RanOver(t, ids + [d], t')
  {
    hide Repairs, CurrentOf, Moves, ToMove, Stage, IsFirstAbove, Transferable;
    RepairByFields(mid, d, t');
    hide Valid;
    forall i | i in mid.items
      ensures Moves(mid, d, CurrentOf(mid, d), i) <==> t.items[i].catalogo == d && ToMove(t, i)
    {
      MovesAsAtStart(t, mid, d, i);
    }
  }

  lemma MovesAsAtStart(t: Tables, mid: Tables, d: int, i: int)
    requires d in t.catalogs && d in mid.catalogs && Stage(t, mid, d, false)
    requires i in t.items && i in mid.items && (t.items[i].catalogo == d ==> mid.items[i] == t.items[i])
    requires mid.items[i].catalogo == t.items[i].catalogo
    ensures Moves(mid, d, CurrentOf(mid, d), i) <==> t.items[i].catalogo == d && ToMove(t, i)
  {
    hide CurrentOf, Transferable;
    MovesIff(mid, d, CurrentOf(mid, d), i);
    MovesIff(t, d, CurrentOf(t, d), i);
  }

  // ---------- The totals ----------

  /** The catalog has no usable edition. */
  predicate Lacks(t: Tables, c: int) {
    c in t.catalogs && forall v :: v in t.editions ==> !Usable(t, c, v)
  }

  /** The pairs of a catalog listed and a code of it that is taken. */
  ghost function Conflicting(t: Tables, ids: seq<int>): set<(int, string)> {
    set i | i in t.items && t.items[i].catalogo in ids && t.items[i].catalogo in t.catalogs
            && Conflicts(t, t.items[i].catalogo, CurrentOf(t, t.items[i].catalogo), i) :: (t.items[i].catalogo, t.items[i].codigo)
  }

  /** The sums reported: the items to move, the catalogs without an edition, and the pairs of catalog and taken code. */
  lemma {:induction false} SumByFields(t: Tables, ids: seq<int>)
    requires Distinct(ids) && forall c :: c in ids ==> c in t.catalogs
    ensures SumTotals(t, ids).repaired == |set i | i in t.items && t.items[i].catalogo in ids && ToMove(t, i)|
    ensures SumTotals(t, ids).created == |set c | c in ids && Lacks(t, c)|
    ensures SumTotals(t, ids).conflicts == |Conflicting(t, ids)|
  {
    if ids == [] {
      assert (set i | i in t.items && t.items[i].catalogo in ids && ToMove(t, i)) == {};
      assert (set c | c in ids && Lacks(t, c)) == {};
      assert Conflicting(t, ids) == {};
    } else {
      var n := |ids| - 1;
      var d := ids[n];
      assert ids == ids[..n] + [d] && d !in ids[..n];
      SumByFields(t, ids[..n]);
      SumStep(t, ids);
      TotalsByFields(t, d);
      hide *;
      MovedStep(t, ids[..n], d);
      LackingStep(t, ids[..n], d);
      ConflictStep(t, ids[..n], d);
    }
  }

  lemma SumStep(t: Tables, ids: seq<int>)
    requires ids != [] && forall c :: c in ids ==> c in t.catalogs
    ensures var n := |ids| - 1;
            var before, one, all := SumTotals(t, ids[..n]), TotalsOf(t, ids[n]), SumTotals(t, ids);
            all.repaired == before.repaired + one.repaired && all.created == before.created + one.created
            && all.conflicts == before.conflicts + one.conflicts
  {
    hide TotalsOf;
  }

  lemma MovedStep(t: Tables, ids: seq<int>, d: int)
    requires d in t.catalogs && d !in ids
    ensures |set i | i in t.items && t.items[i].catalogo in ids + [d] && ToMove(t, i)|
         == |set i | i in t.items && t.items[i].catalogo in ids && ToMove(t, i)|
            + |set i | i in t.items && Moves(t, d, CurrentOf(t, d), i)|
  {
    hide CurrentOf;
    var before := set i | i in t.items && t.items[i].catalogo in ids && ToMove(t, i);
    var own := set i | i in t.items && Moves(t, d, CurrentOf(t, d), i);
    assert before !! own;
    assert (set i | i in t.items && t.items[i].catalogo in ids + [d] && ToMove(t, i)) == before + own;
  }

  lemma LackingStep(t: Tables, ids: seq<int>, d: int)
    requires d in t.catalogs && d !in ids
    ensures |set c | c in ids + [d] && Lacks(t, c)|
         == |set c | c in ids && Lacks(t, c)| + (if exists v :: v in t.editions && Usable(t, d, v) then 0 else 1)
  {
    var before := set c | c in ids && Lacks(t, c);
    assert (set c | c in ids + [d] && Lacks(t, c)) == before + (if Lacks(t, d) then {d} else {});
  }

  lemma ConflictStep(t: Tables, ids: seq<int>, d: int)
    requires d in t.catalogs && d !in ids
    ensures |Conflicting(t, ids + [d])|
         == |Conflicting(t, ids)| + |set i | i in t.items && Conflicts(t, d, CurrentOf(t, d), i) :: t.items[i].codigo|
  {
    hide CurrentOf;
    var codes := set i | i in t.items && Conflicts(t, d, CurrentOf(t, d), i) :: t.items[i].codigo;
    var own := set code | code in codes :: (d, code);
    PairsCount(codes, d);
    var before := Conflicting(t, ids);
    forall k | k in own
      ensures k !in before
    {
    }
    assert before !! own;
    forall k: (int, string)
      ensures k in Conflicting(t, ids + [d]) <==> k in before + own
    {
    }
    assert Conflicting(t, ids + [d]) == before + own;
  }

  lemma {:induction false} PairsCount(codes: set<string>, d: int)
    ensures |set code | code in codes :: (d, code)| == |codes|
    decreases |codes|
  {
    var pairs := set code | code in codes :: (d, code);
    if codes != {} {
      var code := Member(codes);
      PairsCount(codes - {code}, d);
      assert pairs == (set other | other in codes - {code} :: (d, other)) + {(d, code)};
    }
  }
}
