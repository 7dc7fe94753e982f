/** The asset tree table and the operations that repair it. */
module AssetTree {
  import opened Basics
  import opened Forest
  import opened AssetNodes
  import opened AssetRoots
  import opened AssetPlacement
  import opened AssetMerge
  import opened OrderedIds

  predicate CompaniesExist(nodes: Nodes, companies: map<int, string>) {
    forall id :: id in nodes ==> nodes[id].compania in companies
  }

  lemma MergeListKeepsTable(nodes: Nodes, machines: map<int, Machine>, companies: map<int, string>, next: int,
                            duplicates: seq<int>, keep: int)
    requires UsesIdsBelow(nodes, next) && MachinesExist(nodes, machines) && CompaniesExist(nodes, companies)
    requires keep < next
    ensures var out := RedirectNodes(nodes, MergeList(duplicates, keep));
            UsesIdsBelow(out, next) && MachinesExist(out, machines) && CompaniesExist(out, companies)
  {
  }

  function Reparented(nodes: Nodes, d: int, keep: int): Nodes {
    map id | id in nodes :: if nodes[id].parent == d then nodes[id].(parent := keep) else nodes[id]
  }

  lemma ReparentedAndDeleted(nodes: Nodes, d: int, keep: int)
    ensures Reparented(nodes, d, keep) - {d} == RedirectNodes(nodes, map[d := keep])
  {
  }

  lemma FirstIsRoot(t: Rows, c: int, roots: seq<int>)
    requires Sound(t) && Lists(roots, RootIds(t.nodes, c)) && roots != []
    ensures roots[0] == RootNext(t, c) && roots[0] in RootIds(t.nodes, c)
    ensures Increasing(roots[1..]) && roots[0] !in roots[1..]
    ensures MergeList(roots[1..], roots[0]) == RootMerge(t.nodes, c, roots[0])
  {
    assert roots == [roots[0]] + roots[1..];
    assert roots[0] in roots;
    forall r | r in RootIds(t.nodes, c)
      ensures roots[0] <= r
    {
      var k :| 0 <= k < |roots| && roots[k] == r;
    }
  }

  /** The kept root survives the merge of the others. */
  lemma RenamedRoot(nodes: Nodes, c: int, nombre: string, root: int)
    requires root in RootIds(nodes, c)
    ensures var merged := RedirectNodes(nodes, RootMerge(nodes, c, root));
            root in merged && EnsureRoot(nodes, c, nombre, root) == merged[root := merged[root].(nombre := nombre)]
  {
  }

  lemma NoRoots(t: Rows, c: int, roots: seq<int>)
    requires Sound(t) && Lists(roots, RootIds(t.nodes, c)) && roots == []
    ensures RootIds(t.nodes, c) == {} && RootNext(t, c) == t.next
  {
    assert forall r :: r !in RootIds(t.nodes, c);
  }

  lemma EnsureNextKeepsTable(t: Rows, machines: map<int, Machine>, companies: map<int, string>, c: int)
    requires Sound(t) && MachinesExist(t.nodes, machines) && CompaniesExist(t.nodes, companies) && c in companies
    ensures var out := EnsureNext(t, c, companies[c]).nodes;
            MachinesExist(out, machines) && CompaniesExist(out, companies)
  {
  }

  /** The least of the listed nodes is the one the specification keeps. */
  lemma PreferredInList(snapshot: Nodes, root: int, ids: seq<int>, m: int, keep: int)
    requires Copies(snapshot, m) != {} && Lists(ids, Copies(snapshot, m))
    requires keep in ids && forall id :: id in ids ==> id in snapshot && Prefers(snapshot, Some(root), keep, id)
    ensures keep == KeptUnder(snapshot, root, m)
  {
    PreferredUnique(snapshot, Some(root), Some(root), Copies(snapshot, m), keep, KeptUnder(snapshot, root, m));
  }

  class AssetTable {
    var nodes: Nodes
    var machines: map<int, Machine>
    var companies: map<int, string>
    var nextId: int

    ghost function Now(): Rows
      reads this`nodes, this`nextId
    {
      Rows(nodes, nextId)
    }

    /** Ids are handed out in sequence, so no row refers to an id not yet used; foreign keys hold. */
    predicate Valid()
      reads this
    {
      && UsesIdsBelow(nodes, nextId) && MachinesExist(nodes, machines) && CompaniesExist(nodes, companies)
      && CompaniesOfMachines()
    }

    predicate CompaniesOfMachines()
      reads this`machines, this`companies
    {
      forall m :: m in machines ==> machines[m].empresa in companies
    }

    lemma ValidFacts()
      requires Valid()
      ensures UsesIdsBelow(nodes, nextId) && MachinesExist(nodes, machines) && CompaniesExist(nodes, companies)
      ensures CompaniesOfMachines()
    {
    }

    /** `Carpeta.objects.filter(id_parent_node=str(d)).update(id_parent_node=str(keep))` */
    method Reparent(d: int, keep: int)
      modifies this`nodes
      ensures nodes == Reparented(old(nodes), d, keep)
    {
      nodes := map id | id in nodes :: if nodes[id].parent == d then nodes[id].(parent := keep) else nodes[id];
    }

    /** The merge loop: re-parent the children of each duplicate, then delete it. */
    method MergeAll(duplicates: seq<int>, keep: int)
      requires Valid() && keep < nextId && Increasing(duplicates) && keep !in duplicates
      modifies this`nodes
      ensures Valid() && nodes == RedirectNodes(old(nodes), MergeList(duplicates, keep))
    {
      ValidFacts();
      MergeListKeepsTable(nodes, machines, companies, nextId, duplicates, keep);
      NothingMerged(nodes, keep);
      hide *;
      for i := 0 to |duplicates|
        invariant nodes == RedirectNodes(old(nodes), MergeList(duplicates[..i], keep))
      {
        ghost var before := nodes;
        Reparent(duplicates[i], keep);
        nodes := nodes - {duplicates[i]};
        ReparentedAndDeleted(before, duplicates[i], keep);
        MergeListStep(old(nodes), duplicates, i, keep);
      }
      assert duplicates[..|duplicates|] == duplicates;
      StaysValid();
    }

    lemma StaysValid()
      requires UsesIdsBelow(nodes, nextId) && MachinesExist(nodes, machines) && CompaniesExist(nodes, companies)
      requires CompaniesOfMachines()
      ensures Valid()
    {
    }

    /** `ensure_company_root` */
    method EnsureCompanyRoot(c: int) returns (root: int)
      requires Valid() && c in companies
      modifies this`nodes, this`nextId
      ensures Valid()
      ensures root == RootNext(old(Now()), c) && Now() == EnsureNext(old(Now()), c, companies[c])
    {
      var roots := SortedIds(RootIds(nodes, c));
      ghost var start := Now();
      if roots != [] {
        root := roots[0];
        FirstIsRoot(start, c, roots);
        MergeAll(roots[1..], root);
        RenamedRoot(start.nodes, c, companies[c], root);
      } else {
        root := nextId;
        NoRoots(start, c, roots);
        nodes := nodes[root := Node(companies[c], c, RootFolder, NO_PARENT, None)];
        nextId := nextId + 1;
      }
      if nodes[root].nombre != companies[c] {
        nodes := nodes[root := nodes[root].(nombre := companies[c])];
      }
      EnsureNextKeepsTable(start, machines, companies, c);
    }

    /** The first loop of the reconciliation: the nodes of each machine, in id order. */
    method GroupByMachine() returns (order: seq<int>, groups: map<int, seq<int>>)
      ensures order == MachineOrder(nodes)
      ensures forall m :: m in order ==> m in groups && Lists(groups[m], Copies(nodes, m))
    {
      var ids := SortedIds(MachineNodes(nodes));
      SortedOfMachines(nodes, ids);
      ListsUnique(ids, Sorted(MachineNodes(nodes)), MachineNodes(nodes));
      order, groups := [], map[];
      for i := 0 to |ids|
        invariant Grouped(nodes, ids[..i], order, groups)
      {
        var id := ids[i];
        var m := nodes[id].machine.value;
        GroupedStep(nodes, ids, i, order, groups, m);
        if m !in groups {
          order := order + [m];
          groups := groups[m := []];
        }
        groups := groups[m := groups[m] + [id]];
      }
      assert ids[..|ids|] == ids;
      forall m {
        AllCopies(nodes, ids, m);
      }
    }

    ghost predicate StepsFrom(snapshot: Nodes)
      reads this
    {
      CanStep(snapshot, machines, companies, Now())
    }

    /** One iteration for a machine with several nodes, `ids` as first fetched. */
    method MergeMachine(snapshot: Nodes, m: int, ids: seq<int>, apply: bool) returns (detail: Detail)
      requires Valid() && StepsFrom(snapshot) && m in machines
      requires Duplicated(snapshot, m) && Lists(ids, Copies(snapshot, m))
      modifies this`nodes, this`nextId
      ensures Valid()
      ensures detail == StepDetail(snapshot, RootNext(old(Now()), machines[m].empresa), m)
      ensures var t := EnsureNext(old(Now()), machines[m].empresa, companies[machines[m].empresa]);
              Now() == if apply then MergedInto(t, detail) else t
    {
      hide RedirectNodes, Lists, EnsureNext, Preferred, Copies, RootNext, Duplicated;
      ListMembers(ids, snapshot, m);
      var root := EnsureCompanyRoot(machines[m].empresa);
      var keep := Preferred(snapshot, Some(root), ids).value;
      ghost var d := StepDetail(snapshot, root, m);
      PreferredInList(snapshot, root, ids, m, keep);
      var duplicates := Except(ids, keep);
      ExceptLists(ids, Copies(snapshot, m), keep);
      ListsUnique(duplicates, d.removed, Copies(snapshot, m) - {keep});
      detail := Detail(m, keep, duplicates);
      if apply {
        OthersListed(duplicates, Copies(snapshot, m), keep);
        MergeAll(duplicates, keep);
      }
    }

    /** The loop body: machines with a single node are skipped. */
    method HandleMachine(snapshot: Nodes, m: int, ids: seq<int>, apply: bool, s: Summary) returns (s': Summary)
      requires Valid() && StepsFrom(snapshot) && m in machines
      requires Copies(snapshot, m) != {} && Lists(ids, Copies(snapshot, m))
      modifies this`nodes, this`nextId
      ensures Valid() && Stage(Now(), s') == StepOf(apply, snapshot, machines, companies, Stage(old(Now()), s), m)
      ensures StepsFrom(snapshot)
    {
      hide Lists, Copies, EnsureNext, RootNext, StepDetail, MergedInto;
      ListsCount(ids, Copies(snapshot, m));
      s' := s;
      if |ids| >= 2 {
        var detail := MergeMachine(snapshot, m, ids, apply);
        s' := Summary(s.duplicatedMachines + 1, s.mergedNodes + |detail.removed|, s.details + [detail]);
      }
    }

    /** `reconcile_duplicate_machine_tree_nodes`, for any table: the table left and the report are functions
        of the table found, step by step. */
    method ReconcileDuplicates(apply: bool) returns (s: Summary)
      requires Valid()
      modifies this`nodes, this`nextId
      ensures CanStep(old(nodes), machines, companies, old(Now()))
      ensures Valid() && Stage(Now(), s) == Repaired(apply, old(Now()), machines, companies)
    {
      ghost var t := Now();
      var snapshot := nodes;
      assert StepsFrom(snapshot) && MachinesExist(snapshot, machines);
      hide Copies, MachineOrder, Lists, StepOf, CanStep;
      var order, groups := GroupByMachine();
      MachineOrderIs(snapshot);
      OrderIsKnown(snapshot, machines);
      s := Summary(0, 0, []);
      for i := 0 to |order|
        invariant Valid() && StepsFrom(snapshot) && Known(machines, order[..i])
        invariant Stage(Now(), s) == StepAll(apply, t, machines, companies, order[..i])
      {
        assert order[..i + 1] == order[..i] + [order[i]];
        assert order[i] in order;
        StepNext(apply, t, machines, companies, order[..i], order[i]);
        s := HandleMachine(snapshot, order[i], groups[order[i]], apply, s);
      }
      assert order[..|order|] == order;
    }

    /** `ensure_machine_tree_node`: a machine that has a node keeps it where it is; otherwise a node is
        created below the chosen folder, or directly below the root of its company. */
    method EnsureMachineNode(m: int, parentFolder: Option<int>) returns (node: int)
      requires Valid() && m in machines
      requires parentFolder.Some? ==> parentFolder.value in nodes
      modifies this`nodes, this`nextId
      ensures Valid() && Placed(old(Now()), machines, companies, m, parentFolder, Now(), node)
    {
      var root := EnsureCompanyRoot(machines[m].empresa);
      hide EnsureNext, RootNext;
      var ids := SortedIds(Copies(nodes, m));
      var preferred := Preferred(nodes, Some(root), ids);
      if preferred.Some? {
        assert preferred.value in Copies(nodes, m);
        return preferred.value;
      }
      assert Copies(nodes, m) == {};
      node := nextId;
      nodes := nodes[node := Node(machines[m].nombre, machines[m].empresa, MachineFolder,
                                  if parentFolder.Some? then parentFolder.value else root, Some(m))];
      nextId := nextId + 1;
    }
  }
}
