/** Ensuring the roots of several companies, one after the other. */
module AssetRoots {
  import opened Basics
  import opened AssetNodes

  /** The rows of the tree with the next id to be handed out. */
  datatype Rows = Rows(nodes: Nodes, next: int)

  /** Every id and every parent reference is below `next`. */
  predicate UsesIdsBelow(nodes: Nodes, next: int) {
    next > 0 && forall id :: id in nodes ==> 0 < id < next && nodes[id].parent < next
  }

  predicate Sound(t: Rows) {
    UsesIdsBelow(t.nodes, t.next)
  }

  /** The root that ensuring it keeps or creates. */
  ghost function RootNext(t: Rows, c: int): (root: int)
    requires Sound(t)
    ensures RootChoice(t.nodes, c, root)
  {
    var r := RootOf(t.nodes, c);
    if r.Some? then r.value else t.next
  }

  /** `ensure_company_root`, ids being handed out in sequence. */
  ghost function EnsureNext(t: Rows, c: int, nombre: string): (t': Rows)
    requires Sound(t)
    ensures Sound(t') && t.next <= t'.next
  {
    var t' := Rows(EnsureRoot(t.nodes, c, nombre, RootNext(t, c)), if RootIds(t.nodes, c) == {} then t.next + 1 else t.next);
    EnsureNextIsSound(t, c, nombre);
    t'
  }

  lemma EnsureNextIsSound(t: Rows, c: int, nombre: string)
    requires Sound(t)
    ensures UsesIdsBelow(EnsureRoot(t.nodes, c, nombre, RootNext(t, c)), if RootIds(t.nodes, c) == {} then t.next + 1 else t.next)
  {
  }

  /** One call for each of the listed companies. */
  ghost function EnsureAll(t: Rows, companies: map<int, string>, cs: seq<int>): (t': Rows)
    requires Sound(t) && forall c :: c in cs ==> c in companies
    ensures Sound(t') && t.next <= t'.next
  {
    if cs == [] then t
    else
      var n := |cs| - 1;
      assert cs == cs[..n] + [cs[n]];
      EnsureNext(EnsureAll(t, companies, cs[..n]), cs[n], companies[cs[n]])
  }

  /** The company has its one root, named after it. */
  predicate RootInPlace(nodes: Nodes, c: int, nombre: string) {
    exists r :: r in nodes && RootIds(nodes, c) == {r} && nodes[r].nombre == nombre
  }

  lemma EnsureNextPlaces(t: Rows, c: int, nombre: string)
    requires Sound(t)
    ensures RootInPlace(EnsureNext(t, c, nombre).nodes, c, nombre)
    ensures EnsureNext(t, c, nombre) == t <==> RootInPlace(t.nodes, c, nombre)
  {
    var root := RootNext(t, c);
    EnsureRootResult(t.nodes, c, nombre, root);
    EnsureRootIdleIff(t.nodes, c, nombre, root);
    assert root in EnsureRoot(t.nodes, c, nombre, root);
    if RootInPlace(t.nodes, c, nombre) {
      var r :| r in t.nodes && RootIds(t.nodes, c) == {r} && t.nodes[r].nombre == nombre;
      assert root == r;
    }
    hide EnsureRoot;
  }

  /** Another company's root stays where it is. */
  lemma OtherRootInPlace(t: Rows, c: int, nombre: string, c': int, nombre': string)
    requires Sound(t) && c' != c && RootInPlace(t.nodes, c', nombre')
    ensures RootInPlace(EnsureNext(t, c, nombre).nodes, c', nombre')
  {
    var root, out := RootNext(t, c), EnsureNext(t, c, nombre).nodes;
    EnsureRootResult(t.nodes, c, nombre, root);
    var r :| r in t.nodes && RootIds(t.nodes, c') == {r} && t.nodes[r].nombre == nombre';
    assert r in RootIds(t.nodes, c') && r !in RootIds(t.nodes, c);
    assert r in out && RootIds(out, c') == {r};
    hide EnsureRoot;
  }

  lemma {:induction false} AllPlaced(t: Rows, companies: map<int, string>, cs: seq<int>, c: int)
    requires Sound(t) && (forall c' :: c' in cs ==> c' in companies) && c in cs
    ensures RootInPlace(EnsureAll(t, companies, cs).nodes, c, companies[c])
  {
    var n := |cs| - 1;
    assert cs == cs[..n] + [cs[n]];
    var before := EnsureAll(t, companies, cs[..n]);
    if c == cs[n] {
      EnsureNextPlaces(before, c, companies[c]);
    } else {
      AllPlaced(t, companies, cs[..n], c);
      OtherRootInPlace(before, cs[n], companies[cs[n]], c, companies[c]);
    }
    hide RootInPlace, EnsureNext;
  }

  lemma {:induction false} AllInPlaceAlready(t: Rows, companies: map<int, string>, cs: seq<int>)
    requires Sound(t) && forall c :: c in cs ==> c in companies && RootInPlace(t.nodes, c, companies[c])
    ensures EnsureAll(t, companies, cs) == t
  {
    hide RootInPlace, EnsureNext;
    if cs != [] {
      var n := |cs| - 1;
      assert cs == cs[..n] + [cs[n]];
      AllInPlaceAlready(t, companies, cs[..n]);
      EnsureNextPlaces(t, cs[n], companies[cs[n]]);
    }
  }

  /** Ensuring roots changes no row exactly if every one of the companies has its root in place. */
  lemma EnsureAllIdleIff(t: Rows, companies: map<int, string>, cs: seq<int>)
    requires Sound(t) && forall c :: c in cs ==> c in companies
    ensures EnsureAll(t, companies, cs).nodes == t.nodes <==> forall c :: c in cs ==> RootInPlace(t.nodes, c, companies[c])
  {
    if forall c :: c in cs ==> RootInPlace(t.nodes, c, companies[c]) {
      AllInPlaceAlready(t, companies, cs);
    }
    forall c | c in cs
      ensures RootInPlace(EnsureAll(t, companies, cs).nodes, c, companies[c])
    {
      AllPlaced(t, companies, cs, c);
    }
    hide RootInPlace;
  }

  /** The oldest root of a company stays its root; a root created later has an id of its own. */
  ghost predicate RootsFollow(t0: Rows, t: Rows) {
    forall c :: RootOf(t0.nodes, c).Some? ==> RootOf(t.nodes, c) == RootOf(t0.nodes, c)
  }

  ghost predicate NewRootsAreNew(t0: Rows, t: Rows) {
    forall c :: RootOf(t0.nodes, c).None? && RootOf(t.nodes, c).Some? ==> RootOf(t.nodes, c).value >= t0.next
  }

  lemma RootAfter(t: Rows, c: int, nombre: string)
    requires Sound(t)
    ensures RootOf(EnsureNext(t, c, nombre).nodes, c) == Some(RootNext(t, c))
    ensures forall c' :: c' != c ==> RootOf(EnsureNext(t, c, nombre).nodes, c') == RootOf(t.nodes, c')
  {
    var root, out := RootNext(t, c), EnsureNext(t, c, nombre).nodes;
    EnsureRootResult(t.nodes, c, nombre, root);
    assert root in RootIds(out, c);
    hide EnsureRoot;
  }

  lemma {:induction false} EnsureAllFacts(t: Rows, companies: map<int, string>, cs: seq<int>)
    requires Sound(t) && forall c :: c in cs ==> c in companies
    ensures var t' := EnsureAll(t, companies, cs);
            RootsEnsured(t.nodes, t'.nodes) && RootsFollow(t, t') && NewRootsAreNew(t, t')
  {
    if cs != [] {
      var n := |cs| - 1;
      assert cs == cs[..n] + [cs[n]];
      var before, c := EnsureAll(t, companies, cs[..n]), cs[n];
      EnsureAllFacts(t, companies, cs[..n]);
      RootAfter(before, c, companies[c]);
      EnsureRootKeepsRows(t.nodes, before.nodes, c, companies[c], RootNext(before, c));
      hide RootOf, RootsEnsured, EnsureRoot;
    }
  }

  /** The root that a company has or gets plays, for rows fetched first, the part of the root it had: a row
      under a root that is merged away is not directly under the root. */
  lemma SameUnder(t0: Rows, t: Rows, c: int, id: int)
    requires Sound(t0) && Sound(t) && t0.next <= t.next && RootsFollow(t0, t) && NewRootsAreNew(t0, t) && id in t0.nodes
    ensures DirectlyUnder(t0.nodes, id, Some(RootNext(t, c))) == DirectlyUnder(t0.nodes, id, RootOf(t0.nodes, c))
  {
  }
}
