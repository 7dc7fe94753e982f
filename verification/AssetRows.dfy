/** The repaired tree, read off its rows. */
module AssetRows {
  import opened Basics
  import opened Forest
  import opened AssetNodes
  import opened AssetRoots
  import opened AssetMerge

  predicate RootRow(n: Node, c: int) {
    n.tipo == RootFolder && n.parent == NO_PARENT && n.compania == c
  }

  /** The root of the company with the smallest id. */
  predicate OldestRoot(nodes: Nodes, c: int, r: int) {
    r in nodes && RootRow(nodes[r], c) && forall o :: o in nodes && RootRow(nodes[o], c) ==> r <= o
  }

  lemma RootIdsAre(nodes: Nodes, c: int)
    ensures forall id :: id in RootIds(nodes, c) <==> id in nodes && RootRow(nodes[id], c)
    ensures forall r :: RootOf(nodes, c) == Some(r) <==> OldestRoot(nodes, c, r)
  {
    forall r | OldestRoot(nodes, c, r)
      ensures RootOf(nodes, c) == Some(r)
    {
      assert r in RootIds(nodes, c);
    }
    forall r | RootOf(nodes, c) == Some(r)
      ensures OldestRoot(nodes, c, r)
    {
      forall o | o in nodes && RootRow(nodes[o], c)
        ensures r <= o
      {
        assert o in RootIds(nodes, c);
      }
      assert RootIds(nodes, c) != {};
    }
  }

  // ---------- Which row is kept for a machine ----------

  /** The row hangs directly from the oldest root of the company. */
  predicate UnderRoot(nodes: Nodes, c: int, id: int)
    requires id in nodes
  {
    OldestRoot(nodes, c, nodes[id].parent)
  }

  /** Of the rows of one machine the one kept is not directly under the root, if there is such a row, and then the
      oldest. A row without a machine is always kept. */
  predicate IsKept(nodes: Nodes, machines: map<int, Machine>, id: int)
    requires id in nodes && MachinesExist(nodes, machines)
  {
    nodes[id].machine.Some? ==>
      var c := machines[nodes[id].machine.value].empresa;
      forall o :: o in nodes && nodes[o].machine == nodes[id].machine && o != id ==>
        (UnderRoot(nodes, c, o) && !UnderRoot(nodes, c, id))
        || (UnderRoot(nodes, c, o) == UnderRoot(nodes, c, id) && id < o)
  }

  lemma KeptIff(nodes: Nodes, machines: map<int, Machine>, id: int)
    requires id in nodes && MachinesExist(nodes, machines)
    ensures IsKept(nodes, machines, id) <==> id !in MergeMap(nodes, machines)
  {
    if nodes[id].machine.Some? {
      var m := nodes[id].machine.value;
      var c, keep := machines[m].empresa, KeepOf(nodes, machines, id);
      var root := RootOf(nodes, c);
      assert id in Copies(nodes, m);
      assert keep == Keep(nodes, machines, m) && IsPreferred(nodes, root, Copies(nodes, m), keep);
      RootIdsAre(nodes, c);
      forall o | o in nodes
        ensures DirectlyUnder(nodes, o, root) <==> UnderRoot(nodes, c, o)
      {
      }
      assert forall o :: o in Copies(nodes, m) <==> o in nodes && nodes[o].machine == Some(m);
      hide UnderRoot, DirectlyUnder, OldestRoot, RootOf, Copies;
      if keep == id {
        assert forall o :: o in nodes && nodes[o].machine == Some(m) ==> Prefers(nodes, root, id, o);
      } else {
        assert Prefers(nodes, root, keep, id);
      }
    }
  }

  // ---------- Roots put in order ----------

  /** The roots of a company that is not listed stay as they are. */
  lemma {:induction false} OtherCompanies(t: Rows, companies: map<int, string>, cs: seq<int>, c: int)
    requires Sound(t) && (forall o :: o in cs ==> o in companies) && c !in cs
    ensures var out := EnsureAll(t, companies, cs).nodes;
            RootIds(out, c) == RootIds(t.nodes, c) && forall id :: id in RootIds(out, c) ==> out[id] == t.nodes[id]
  {
    if cs != [] {
      var n := |cs| - 1;
      assert cs == cs[..n] + [cs[n]];
      var before := EnsureAll(t, companies, cs[..n]);
      OtherCompanies(t, companies, cs[..n], c);
      EnsureRootResult(before.nodes, cs[n], companies[cs[n]], RootNext(before, cs[n]));
      forall id | id in RootIds(before.nodes, c)
        ensures EnsureNext(before, cs[n], companies[cs[n]]).nodes[id] == before.nodes[id]
      {
        OtherRowsStay(before.nodes, cs[n], companies[cs[n]], RootNext(before, cs[n]), id);
      }
      hide EnsureRoot, RootNext;
    }
  }

  /** A row that is no root stays; it moves only from a root to a root of the same company. */
  lemma {:induction false} MovedRow(t: Rows, companies: map<int, string>, cs: seq<int>, id: int)
    requires Sound(t) && (forall o :: o in cs ==> o in companies) && id in t.nodes && !IsRoot(t.nodes[id])
    ensures var out, p := EnsureAll(t, companies, cs).nodes, t.nodes[id].parent;
            && id in out && !IsRoot(out[id]) && out[id] == t.nodes[id].(parent := out[id].parent)
            && (if p in t.nodes && IsRoot(t.nodes[p]) then
                  out[id].parent in out && IsRoot(out[out[id].parent]) && out[out[id].parent].compania == t.nodes[p].compania
                else out[id].parent == p && (p in out ==> p in t.nodes))
    decreases |cs|
  {
    if cs != [] {
      var n := |cs| - 1;
      assert cs == cs[..n] + [cs[n]];
      var before := EnsureAll(t, companies, cs[..n]);
      MovedRow(t, companies, cs[..n], id);
      var p := t.nodes[id].parent;
      if p in t.nodes && !IsRoot(t.nodes[p]) {
        MovedRow(t, companies, cs[..n], p);
      }
      hide EnsureAll;
      MovedOnce(before, cs[n], companies[cs[n]], id);
    }
  }

  lemma MovedOnce(t: Rows, c: int, nombre: string, id: int)
    requires Sound(t) && id in t.nodes && !IsRoot(t.nodes[id])
    ensures var out, p := EnsureNext(t, c, nombre).nodes, t.nodes[id].parent;
            && id in out && !IsRoot(out[id]) && out[id] == t.nodes[id].(parent := out[id].parent)
            && (if p in t.nodes && IsRoot(t.nodes[p]) then
                  out[id].parent in out && IsRoot(out[out[id].parent]) && out[out[id].parent].compania == t.nodes[p].compania
                else out[id].parent == p && (p in out ==> p in t.nodes))
  {
    var root, p := RootNext(t, c), t.nodes[id].parent;
    KeptRoot(t.nodes, c, nombre, root);
    OtherRowsStay(t.nodes, c, nombre, root, id);
    if p in t.nodes && p !in RootIds(t.nodes, c) {
      OtherRowsStay(t.nodes, c, nombre, root, p);
    }
    assert root in t.nodes || root == t.next;
    hide EnsureRoot, RootNext;
  }

  // ---------- The whole repair ----------

  /** Where a row that had the parent `p` hangs: from the row kept for the machine of `p`, if `p` is merged; from a root
      of the company of `p`, if `p` is one; from `p` in every other case. */
  predicate Rehung(before: Nodes, machines: map<int, Machine>, after: Nodes, p: int, q: int)
    requires MachinesExist(before, machines)
  {
    if p in before && !IsKept(before, machines, p) then
      q in before && q in after && before[q].machine == before[p].machine && IsKept(before, machines, q)
    else if p in before && before[p].tipo == RootFolder && before[p].parent == NO_PARENT then
      q in after && RootRow(after[q], before[p].compania)
    else q == p
  }

  /** Of the rows that are no roots exactly the ones kept remain, with name, company, type and machine. */
  lemma RepairedRows(t: Rows, machines: map<int, Machine>, companies: map<int, string>, id: int)
    requires Ready(t, machines, companies) && id in t.nodes && !IsRoot(t.nodes[id])
    ensures var out := Reconciled(true, t, machines, companies).nodes;
            && (id in out <==> IsKept(t.nodes, machines, id))
            && (id in out ==> out[id] == t.nodes[id].(parent := out[id].parent)
                              && Rehung(t.nodes, machines, out, t.nodes[id].parent, out[id].parent))
  {
    OrderIsKnown(t.nodes, machines);
    var cs, to := CompaniesToEnsure(t.nodes, machines, MachineOrder(t.nodes)), MergeMap(t.nodes, machines);
    var base, p := EnsureAll(t, companies, cs).nodes, t.nodes[id].parent;
    assert base == Base(t, machines, companies).nodes;
    MovedRow(t, companies, cs, id);
    KeptIff(t.nodes, machines, id);
    var q := base[id].parent;
    if p in t.nodes {
      KeptIff(t.nodes, machines, p);
    }
    if p in to {
      var keep := to[p];
      MergedAway(t.nodes, machines, p);
      MovedRow(t, companies, cs, keep);
      assert q == p;
    } else if q in base && IsRoot(base[q]) {
      RootsAreNotMerged(t, machines, companies, q);
    }
    hide MergeMap, IsKept, MachineOrder, CompaniesToEnsure, Base, EnsureAll;
  }

  lemma MergedAway(nodes: Nodes, machines: map<int, Machine>, d: int)
    requires MachinesExist(nodes, machines) && NoMachineIsRoot(nodes) && d in MergeMap(nodes, machines)
    ensures var keep := MergeMap(nodes, machines)[d];
            && d in nodes && !IsRoot(nodes[d]) && keep in nodes && !IsRoot(nodes[keep])
            && keep !in MergeMap(nodes, machines) && nodes[keep].machine == nodes[d].machine && IsKept(nodes, machines, keep)
  {
    var keep := MergeMap(nodes, machines)[d];
    MergesAreApart(nodes, machines, []);
    KeptIff(nodes, machines, keep);
    hide IsKept;
  }

  lemma RootsAreNotMerged(t: Rows, machines: map<int, Machine>, companies: map<int, string>, q: int)
    requires Ready(t, machines, companies) && q in Base(t, machines, companies).nodes && IsRoot(Base(t, machines, companies).nodes[q])
    ensures q !in MergeMap(t.nodes, machines)
  {
    OrderIsKnown(t.nodes, machines);
    BaseFacts(t, machines, companies, MachineOrder(t.nodes));
    if q in MergeMap(t.nodes, machines) {
      MergedAway(t.nodes, machines, q);
    }
    hide MergeMap;
  }

  /** Two rows stand for the machine. */
  predicate HasTwo(nodes: Nodes, m: int) {
    exists a, b :: a in nodes && b in nodes && a != b && nodes[a].machine == nodes[b].machine == Some(m)
  }

  lemma HasTwoIff(nodes: Nodes, m: int)
    ensures HasTwo(nodes, m) <==> Duplicated(nodes, m)
  {
    if a, b :| a in nodes && b in nodes && a != b && nodes[a].machine == nodes[b].machine == Some(m) {
      SubsetSize({a, b}, Copies(nodes, m));
    }
    if Duplicated(nodes, m) {
      var a := Member(Copies(nodes, m));
      assert Copies(nodes, m) != {a};
      assert exists b :: b in Copies(nodes, m) && b != a;
    }
  }

  /** The company whose machine is duplicated has one root afterwards, with its name: the oldest it had, or a new one. */
  ghost predicate OneRoot(before: Nodes, after: Nodes, c: int, nombre: string, next: int, r: int) {
    && r in after && RootRow(after[r], c) && after[r].nombre == nombre
    && (forall o :: o in after && RootRow(after[o], c) ==> o == r)
    && (if exists o :: o in before && RootRow(before[o], c) then OldestRoot(before, c, r) && after[r].machine == before[r].machine
        else r >= next && after[r].machine == None)
  }

  /** The repair of a company with a duplicated machine leaves it one root; the roots of other companies stay as they
      are; and no row appears but these roots. */
  lemma RepairedRoots(t: Rows, machines: map<int, Machine>, companies: map<int, string>, c: int)
    requires Ready(t, machines, companies)
    ensures var out := Reconciled(true, t, machines, companies).nodes;
            if exists m :: m in machines && HasTwo(t.nodes, m) && machines[m].empresa == c then
              c in companies && exists r :: OneRoot(t.nodes, out, c, companies[c], t.next, r)
            else
              && (forall id :: id in out && RootRow(out[id], c) ==> id in t.nodes && out[id] == t.nodes[id])
              && (forall id :: id in t.nodes && RootRow(t.nodes[id], c) ==> id in out)
    ensures forall id :: id in Reconciled(true, t, machines, companies).nodes && id !in t.nodes ==>
              IsRoot(Reconciled(true, t, machines, companies).nodes[id])
  {
    OrderIsKnown(t.nodes, machines);
    var cs, base := CompaniesToEnsure(t.nodes, machines, MachineOrder(t.nodes)), Base(t, machines, companies);
    var out := Reconciled(true, t, machines, companies);
    RootsKeptByMerges(t, machines, companies, c);
    CompanyListed(t.nodes, machines, c);
    NewRowsAreRoots(t, machines, companies);
    RootIdsAre(base.nodes, c);
    RootIdsAre(out.nodes, c);
    if c in cs {
      var r := EnsuredRoot(t, companies, cs, c);
      hide *;
      SameOneRoot(t.nodes, base.nodes, out.nodes, c, companies[c], t.next, r);
    } else {
      OtherCompanies(t, companies, cs, c);
      RootIdsAre(t.nodes, c);
      hide MergeMap, EnsureAll, MachineOrder, CompaniesToEnsure, HasTwo, OneRoot, Reconciled;
    }
  }

  lemma SameOneRoot(before: Nodes, base: Nodes, out: Nodes, c: int, nombre: string, next: int, r: int)
    requires OneRoot(before, base, c, nombre, next, r)
    requires RootIds(out, c) == RootIds(base, c) && forall id :: id in RootIds(out, c) ==> id in base && out[id] == base[id]
    ensures OneRoot(before, out, c, nombre, next, r)
  {
    RootIdsAre(base, c);
    RootIdsAre(out, c);
    assert r in RootIds(out, c);
    hide OldestRoot, RootIds;
  }

  lemma NewRowsAreRoots(t: Rows, machines: map<int, Machine>, companies: map<int, string>)
    requires Ready(t, machines, companies)
    ensures forall id :: id in Reconciled(true, t, machines, companies).nodes && id !in t.nodes ==>
              IsRoot(Reconciled(true, t, machines, companies).nodes[id])
  {
    OrderIsKnown(t.nodes, machines);
    BaseFacts(t, machines, companies, MachineOrder(t.nodes));
    RootsKeptByMerges(t, machines, companies, 0);
    hide MergeMap, EnsureAll, MachineOrder, Reconciled;
  }

  /** Ensuring the roots of the listed companies gives each of them one root. */
  lemma EnsuredRoot(t: Rows, companies: map<int, string>, cs: seq<int>, c: int) returns (r: int)
    requires Sound(t) && (forall o :: o in cs ==> o in companies) && c in cs
    ensures OneRoot(t.nodes, EnsureAll(t, companies, cs).nodes, c, companies[c], t.next, r)
  {
    var base := EnsureAll(t, companies, cs);
    EnsureAllFacts(t, companies, cs);
    AllPlaced(t, companies, cs, c);
    RootIdsAre(t.nodes, c);
    RootIdsAre(base.nodes, c);
    r :| r in base.nodes && RootIds(base.nodes, c) == {r} && base.nodes[r].nombre == companies[c];
    assert r in RootIds(base.nodes, c) && OldestRoot(base.nodes, c, r);
    hide EnsureAll;
  }

  lemma CompanyListed(nodes: Nodes, machines: map<int, Machine>, c: int)
    requires MachinesExist(nodes, machines)
    ensures forall m :: m in MachineOrder(nodes) ==> m in machines
    ensures c in CompaniesToEnsure(nodes, machines, MachineOrder(nodes))
            <==> exists m :: m in machines && HasTwo(nodes, m) && machines[m].empresa == c
  {
    OrderIsKnown(nodes, machines);
    MachineOrderIs(nodes);
    forall m {
      HasTwoIff(nodes, m);
    }
    hide HasTwo, MachineOrder;
  }

  lemma RootsKeptByMerges(t: Rows, machines: map<int, Machine>, companies: map<int, string>, c: int)
    requires Ready(t, machines, companies)
    ensures var base, out := Base(t, machines, companies).nodes, Reconciled(true, t, machines, companies).nodes;
            && RootIds(out, c) == RootIds(base, c) && (forall id :: id in RootIds(out, c) ==> out[id] == base[id])
            && (forall id :: id in out ==> id in base && (IsRoot(out[id]) <==> IsRoot(base[id])))
  {
    var base, to := Base(t, machines, companies).nodes, MergeMap(t.nodes, machines);
    forall id | id in base && IsRoot(base[id])
      ensures id !in to
    {
      RootsAreNotMerged(t, machines, companies, id);
    }
    forall d | d in to
      ensures to[d] != NO_PARENT && d != NO_PARENT
    {
      MergedAway(t.nodes, machines, d);
    }
    hide MergeMap, Base, Ready;
    RedirectKeepsRoots(base, to, c);
  }

  lemma RedirectKeepsRoots(base: Nodes, to: map<int, int>, c: int)
    requires forall id :: id in base && IsRoot(base[id]) ==> id !in to
    requires forall d :: d in to ==> to[d] != NO_PARENT && d != NO_PARENT
    ensures var out := RedirectNodes(base, to);
            && RootIds(out, c) == RootIds(base, c) && (forall id :: id in RootIds(out, c) ==> out[id] == base[id])
            && (forall id :: id in out ==> id in base && (IsRoot(out[id]) <==> IsRoot(base[id])))
  {
    var out := RedirectNodes(base, to);
    forall id
      ensures id in RootIds(out, c) <==> id in RootIds(base, c)
    {
    }
  }
}
