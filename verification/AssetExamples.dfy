/** Small tables on which the maintenance of the asset tree does what one would not expect. */
module AssetExamples {
  import opened Basics
  import opened Forest
  import opened AssetNodes
  import opened AssetRoots
  import opened AssetMerge
  import opened AssetRepair
  import opened AssetPlacement
  import opened OrderedIds

  const COMPANIES: map<int, string> := map[1 := "C"]
  const MACHINES: map<int, Machine> := map[7 := Machine("M", 1, true)]

  function Root(nombre: string): Node {
    Node(nombre, 1, RootFolder, NO_PARENT, None)
  }

  function MachineNode(parent: int): Node {
    Node("M", 1, MachineFolder, parent, Some(7))
  }

  /** A table whose machine nodes are `keep`, the preferred one, and `gone`, both of machine 7. */
  predicate Pair(t: Rows, keep: int, gone: int) {
    && Ready(t, MACHINES, COMPANIES) && keep != gone
    && Copies(t.nodes, 7) == MachineNodes(t.nodes) == {keep, gone}
  }

  lemma PairIsDuplicated(t: Rows, keep: int, gone: int)
    requires Pair(t, keep, gone)
    ensures Duplicated(t.nodes, 7) && MachineOrder(t.nodes) == [7]
  {
    assert |{keep, gone}| == 2;
    MachineOrderIs(t.nodes);
    var order := MachineOrder(t.nodes);
    forall m
      ensures m in order <==> m == 7
    {
      if m in order {
        var id := Member(Copies(t.nodes, m));
        assert id in MachineNodes(t.nodes) && id in Copies(t.nodes, 7);
      }
    }
    DistinctOne(order, 7);
  }

  lemma PairMerges(t: Rows, keep: int, gone: int)
    requires Pair(t, keep, gone) && Prefers(t.nodes, RootOf(t.nodes, 1), keep, gone)
    ensures var to := MergeMap(t.nodes, MACHINES);
            (forall id :: id in to <==> id == gone) && to[gone] == keep
  {
    PreferredUnique(t.nodes, RootOf(t.nodes, 1), RootOf(t.nodes, 1), Copies(t.nodes, 7), keep, Keep(t.nodes, MACHINES, 7));
    hide RootOf;
    assert keep in Copies(t.nodes, 7) && gone in Copies(t.nodes, 7);
    forall id
      ensures id in MergeMap(t.nodes, MACHINES) <==> id == gone
    {
      assert id in t.nodes && t.nodes[id].machine.Some? ==> id in MachineNodes(t.nodes);
    }
  }

  lemma PairCompanies(t: Rows, keep: int, gone: int)
    requires Pair(t, keep, gone)
    ensures Reconciled(false, t, MACHINES, COMPANIES) == EnsureNext(t, 1, "C")
  {
    PairIsDuplicated(t, keep, gone);
    hide EnsureNext, MachineOrder, Duplicated, Pair;
    assert CompaniesToEnsure(t.nodes, MACHINES, [7]) == [1] by {
      assert [7][..0] == [];
    }
    assert EnsureAll(t, COMPANIES, [1]) == EnsureNext(t, 1, "C") by {
      assert [1][..0] == [];
    }
  }

  /** The repair of such a table: one company's root is ensured, and one merge done. */
  lemma PairMerged(t: Rows, keep: int, gone: int)
    requires Pair(t, keep, gone) && Prefers(t.nodes, RootOf(t.nodes, 1), keep, gone)
    ensures var to := MergeMap(t.nodes, MACHINES);
            (forall id :: id in to <==> id == gone) && to[gone] == keep
    ensures Reconciled(false, t, MACHINES, COMPANIES) == EnsureNext(t, 1, "C")
  {
    PairMerges(t, keep, gone);
    PairCompanies(t, keep, gone);
    hide MergeMap, Reconciled, EnsureNext, RootOf;
  }

  /** What applying the repair leaves, row by row. */
  lemma PairRows(t: Rows, keep: int, gone: int)
    requires Pair(t, keep, gone) && Prefers(t.nodes, RootOf(t.nodes, 1), keep, gone)
    ensures var base, out := EnsureNext(t, 1, "C").nodes, Reconciled(true, t, MACHINES, COMPANIES).nodes;
            && (forall id :: id in out <==> id in base && id != gone)
            && forall id :: id in out ==> out[id] == if base[id].parent == gone then base[id].(parent := keep) else base[id]
  {
    PairMerged(t, keep, gone);
    hide EnsureNext, RootOf, Base, MergeMap;
  }

  /** A company that has its one root, whatever its name. */
  lemma OnlyRoot(t: Rows, id: int)
    requires Sound(t) && RootIds(t.nodes, 1) == {1}
    ensures RootOf(t.nodes, 1) == Some(1)
    ensures var out := EnsureNext(t, 1, "C").nodes;
            && 1 in t.nodes && out.Keys == t.nodes.Keys
            && (id in t.nodes ==> out[id] == if id == 1 then t.nodes[1].(nombre := "C") else t.nodes[id])
  {
    assert 1 in RootIds(t.nodes, 1);
    assert RootOf(t.nodes, 1).value in {1};
    NothingRedirected(t.nodes, RootMerge(t.nodes, 1, 1));
  }

  // ---------- The dry run ----------

  function OldName(): Rows {
    Rows(map[1 := Root("old"), 2 := MachineNode(1), 3 := MachineNode(1)], 4)
  }

  lemma OldNameIs()
    ensures var t := OldName();
            Pair(t, 2, 3) && RootIds(t.nodes, 1) == {1} && Prefers(t.nodes, Some(1), 2, 3) && t.nodes[1] == Root("old")
  {
  }

  /** A root that carries an old name is renamed. */
  lemma DryRunRenames()
    ensures var t := OldName();
            && Ready(t, MACHINES, COMPANIES) && !RootsInPlace(t.nodes, MACHINES, COMPANIES)
            && 1 in Reconciled(false, t, MACHINES, COMPANIES).nodes
            && Reconciled(false, t, MACHINES, COMPANIES).nodes[1] == Root("C")
  {
    var t := OldName();
    OldNameIs();
    assert Ready(t, MACHINES, COMPANIES);
    hide OldName, Ready, Pair, Prefers, EnsureNext, Reconciled, RootsInPlace, RootIds;
    OnlyRoot(t, 1);
    PairMerged(t, 2, 3);
    DryRunIsIdleIff(t, MACHINES, COMPANIES);
  }

  function NoRoot(): Rows {
    Rows(map[2 := MachineNode(NO_PARENT), 3 := MachineNode(NO_PARENT)], 4)
  }

  lemma NoRootIs()
    ensures var t := NoRoot();
            Pair(t, 2, 3) && RootIds(t.nodes, 1) == {} && Prefers(t.nodes, None, 2, 3) && t.next == 4
  {
  }

  /** A missing root is created. */
  lemma DryRunCreates()
    ensures var t := NoRoot();
            && Ready(t, MACHINES, COMPANIES)
            && 4 !in t.nodes && 4 in Reconciled(false, t, MACHINES, COMPANIES).nodes
            && Reconciled(false, t, MACHINES, COMPANIES).nodes[4] == Root("C")
  {
    var t := NoRoot();
    NoRootIs();
    assert Ready(t, MACHINES, COMPANIES);
    hide NoRoot, Ready, Pair, Prefers, Reconciled;
    PairMerged(t, 2, 3);
  }

  function TwoRoots(): Rows {
    Rows(map[1 := Root("C"), 2 := Root("C"), 3 := MachineNode(1), 4 := MachineNode(2)], 5)
  }

  lemma TwoRootsAre()
    ensures var t := TwoRoots();
            && Pair(t, 4, 3) && RootIds(t.nodes, 1) == {1, 2} && Prefers(t.nodes, Some(1), 4, 3)
            && t.nodes[4] == MachineNode(2)
  {
  }

  lemma TwoRootsEnsured()
    ensures var t := TwoRoots();
            var out := EnsureNext(t, 1, "C").nodes;
            RootOf(t.nodes, 1) == Some(1) && 2 !in out && 4 in out && out[4] == MachineNode(1)
  {
    var t := TwoRoots();
    TwoRootsAre();
    assert NO_PARENT !in t.nodes && 4 in t.nodes && 4 !in RootIds(t.nodes, 1);
    hide TwoRoots, Pair, Prefers;
    assert RootOf(t.nodes, 1).value in {1, 2};
    assert RootOf(t.nodes, 1) == Some(1) && 2 in RootMerge(t.nodes, 1, 1);
    OtherRootsGone(t.nodes, 1, "C", 1, 2);
    OtherRowsStay(t.nodes, 1, "C", 1, 4);
  }

  /** Two roots are merged. The node under the root that goes counts as not directly under the root, since
      its parent is read as first fetched: it is kept, and the node under the oldest root is merged into it. */
  lemma UnderMergedRootIsPreferred()
    ensures var t := TwoRoots();
            && Ready(t, MACHINES, COMPANIES)
            && var dry, out := Reconciled(false, t, MACHINES, COMPANIES).nodes, Reconciled(true, t, MACHINES, COMPANIES).nodes;
               && 2 !in dry && 4 in dry && dry[4] == MachineNode(1)
               && 3 !in out && 4 in out && out[4] == MachineNode(1)
  {
    var t := TwoRoots();
    TwoRootsAre();
    TwoRootsEnsured();
    assert Ready(t, MACHINES, COMPANIES);
    hide TwoRoots, Ready, Pair, Prefers, Reconciled, EnsureNext, RootOf, RootIds;
    PairMerged(t, 4, 3);
    PairRows(t, 4, 3);
  }

  // ---------- Merging ----------

  /** A survivor whose company has its one root: it keeps its parent or moves to the kept node. */
  lemma AfterOneRoot(t: Rows, keep: int, gone: int, id: int)
    requires Pair(t, keep, gone) && RootIds(t.nodes, 1) == {1} && Prefers(t.nodes, Some(1), keep, gone)
    ensures var f, g := ParentsOf(t.nodes), ParentsAfter(true, t, MACHINES, COMPANIES);
            && (id in g <==> id in f && id != gone)
            && (id in g ==> g[id] == if f[id] == gone then keep else f[id])
  {
    OnlyRoot(t, id);
    PairRows(t, keep, gone);
    hide Pair, EnsureNext, RootIds, Reconciled, Prefers;
  }

  function Nested(): Rows {
    Rows(map[1 := Root("C"), 2 := MachineNode(1), 3 := MachineNode(2)], 4)
  }

  lemma NestedIs()
    ensures var t := Nested();
            && Pair(t, 3, 2) && RootIds(t.nodes, 1) == {1} && Prefers(t.nodes, Some(1), 3, 2)
            && var f := ParentsOf(t.nodes); f.Keys == {1, 2, 3} && f[1] == NO_PARENT && f[2] == 1 && f[3] == 2
  {
  }

  /** A machine node below the other one: merging makes the kept node its own parent. */
  lemma MergeCanCycle()
    ensures var t := Nested();
            && Ready(t, MACHINES, COMPANIES) && Acyclic(ParentsOf(t.nodes))
            && 3 in ParentsAfter(true, t, MACHINES, COMPANIES) && ParentsAfter(true, t, MACHINES, COMPANIES)[3] == 3
            && !Acyclic(ParentsAfter(true, t, MACHINES, COMPANIES))
  {
    var t := Nested();
    NestedIs();
    assert Ready(t, MACHINES, COMPANIES);
    hide Nested, Ready, Pair, Prefers, RootIds, ParentsAfter, ParentsOf;
    Chain(ParentsOf(t.nodes));
    AfterOneRoot(t, 3, 2, 3);
    OwnParent(ParentsAfter(true, t, MACHINES, COMPANIES), 3);
  }

  lemma Chain(f: Parents)
    requires f.Keys == {1, 2, 3} && f[1] == NO_PARENT && f[2] == 1 && f[3] == 2
    ensures Acyclic(f)
  {
    assert EndsWithin(f, 1, 1) && EndsWithin(f, 2, 2) && EndsWithin(f, 3, 3);
  }

  lemma OwnParent(f: Parents, x: int)
    requires x in f && f[x] == x
    ensures !Acyclic(f)
  {
    assert BelowWithin(f, x, x, 1);
    forall k: nat
      ensures !EndsWithin(f, x, k)
    {
      CycleNeverEnds(f, x, k);
    }
  }

  function Outside(): Rows {
    Rows(map[1 := Root("C"), 2 := MachineNode(1), 3 := MachineNode(-9), 4 := Node("X", 1, OtherFolder("x"), 2, None)], 5)
  }

  lemma OutsideIs()
    ensures var t := Outside();
            && Pair(t, 3, 2) && RootIds(t.nodes, 1) == {1} && Prefers(t.nodes, Some(1), 3, 2)
            && var f := ParentsOf(t.nodes);
               f.Keys == {1, 2, 3, 4} && f[1] == NO_PARENT && f[2] == 1 && f[3] == -9 && f[4] == 2
  {
  }

  /** A preferred node outside the tree: what hung from the duplicate is cut off from the root. */
  lemma MergeCanStrand()
    ensures var t := Outside();
            && Ready(t, MACHINES, COMPANIES) && 4 in ParentsAfter(true, t, MACHINES, COMPANIES)
            && Rooted(ParentsOf(t.nodes), 4) && !Rooted(ParentsAfter(true, t, MACHINES, COMPANIES), 4)
  {
    var t := Outside();
    OutsideIs();
    assert Ready(t, MACHINES, COMPANIES);
    hide Outside, Ready, Pair, Prefers, RootIds, ParentsAfter, ParentsOf;
    var f, g := ParentsOf(t.nodes), ParentsAfter(true, t, MACHINES, COMPANIES);
    assert RootedWithin(f, 1, 0) && RootedWithin(f, 2, 1) && RootedWithin(f, 4, 2);
    AfterOneRoot(t, 3, 2, 4);
    AfterOneRoot(t, 3, 2, 3);
    AfterOneRoot(t, 3, 2, -9);
    RootedStep(g, 4);
    RootedStep(g, 3);
    assert forall k: nat :: !RootedWithin(g, -9, k);
  }

  // ---------- Placing a machine ----------

  function EmptyRoots(): Rows {
    Rows(map[1 := Root("C"), 2 := Root("C")], 3)
  }

  lemma EmptyRootsAre()
    ensures var t := EmptyRoots();
            Placeable(t, MACHINES, COMPANIES, 7) && RootIds(t.nodes, 1) == {1, 2} && Copies(t.nodes, 7) == {} && 2 in t.nodes
  {
  }

  lemma StillNoCopies(t: Rows)
    requires Placeable(t, MACHINES, COMPANIES, 7) && Copies(t.nodes, 7) == {}
    ensures Copies(Prepared(t, MACHINES, COMPANIES, 7).nodes, 7) == {}
  {
    EnsureRootKeepsRows(t.nodes, t.nodes, 1, "C", RootNext(t, 1));
    var out := Prepared(t, MACHINES, COMPANIES, 7).nodes;
    hide EnsureNext, RootNext;
    forall id
      ensures id !in Copies(out, 7)
    {
      assert id !in Copies(t.nodes, 7);
      assert id in t.nodes && !IsRoot(t.nodes[id]) ==> KeepsRow(t.nodes, out, id);
    }
  }

  /** A machine placed below a root that the same call merges away hangs from nothing. */
  lemma NewNodeCanDangle(t': Rows, node: int)
    requires Placeable(EmptyRoots(), MACHINES, COMPANIES, 7)
    requires Placed(EmptyRoots(), MACHINES, COMPANIES, 7, Some(2), t', node)
    ensures Copies(t'.nodes, 7) == {node} && !Rooted(ParentsOf(t'.nodes), node)
  {
    var t := EmptyRoots();
    EmptyRootsAre();
    hide EmptyRoots;
    StillNoCopies(t);
    assert RootNext(t, 1) == 1 by {
      assert RootOf(t.nodes, 1).value in {1, 2};
    }
    assert FolderIsMergedAway(t, 1, 2);
    var ensured := Prepared(t, MACHINES, COMPANIES, 7).nodes;
    hide Prepared, RootNext;
    forall id
      ensures id in Copies(t'.nodes, 7) <==> id == node
    {
      assert id !in Copies(ensured, 7);
    }
    NewNodeRootedIff(t, MACHINES, COMPANIES, 7, Some(2), t', node);
  }
}
