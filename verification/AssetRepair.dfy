/** What merging the duplicate machine nodes does to the forest, and what it reports. */
module AssetRepair {
  import opened Basics
  import opened Forest
  import opened ForestContraction
  import opened ForestRoots
  import opened AssetNodes
  import opened AssetRoots
  import opened AssetMerge
  import opened OrderedIds

  // ---------- The forest before and after ----------

  /** No machine node lies below another machine node. */
  ghost predicate MachinesNotNested(nodes: Nodes) {
    forall a, b :: a in nodes && b in nodes && nodes[a].machine.Some? && nodes[b].machine.Some? ==>
                     !Below(ParentsOf(nodes), a, b)
  }

  ghost function ParentsAfter(apply: bool, t: Rows, machines: map<int, Machine>, companies: map<int, string>): Parents
    requires Ready(t, machines, companies)
  {
    ParentsOf(Reconciled(apply, t, machines, companies).nodes)
  }

  ghost function MergesOf(t: Rows, machines: map<int, Machine>): map<int, int>
    requires MachinesExist(t.nodes, machines)
  {
    MergeMap(t.nodes, machines)
  }

  /** Before any merge, the roots are put in order. */
  lemma BaseForest(t: Rows, machines: map<int, Machine>, companies: map<int, string>)
    requires Ready(t, machines, companies)
    ensures RootsMerged(ParentsOf(t.nodes), ParentsOf(Base(t, machines, companies).nodes), AllRoots(t.nodes))
  {
    OrderIsKnown(t.nodes, machines);
    BaseFacts(t, machines, companies, MachineOrder(t.nodes));
    hide RootsOnly, RootsEnsured, RootsFollow, NewRootsAreNew, MachineOrder, MergeMapOf, RootsMerged, ApartFromRoots;
    RootsEnsuredForest(t.nodes, Base(t, machines, companies).nodes);
  }

  lemma MergesAvoidRoots(t: Rows, machines: map<int, Machine>, companies: map<int, string>)
    requires Ready(t, machines, companies)
    ensures MergesApart(ParentsOf(t.nodes), MergesOf(t, machines), AllRoots(t.nodes))
  {
    MergesAreApart(t.nodes, machines, []);
    hide MergeMap, MergeMapOf;
  }

  /** The repair in terms of parents: the roots put in order, then the merges. */
  lemma RepairedForest(t: Rows, machines: map<int, Machine>, companies: map<int, string>) returns (g: Parents, roots: set<int>)
    requires Ready(t, machines, companies)
    ensures var f, to := ParentsOf(t.nodes), MergesOf(t, machines);
            && RootsMerged(f, g, roots) && MergesApart(f, to, roots) && Merges(f, to) && Merges(g, to)
            && g.Keys == Base(t, machines, companies).nodes.Keys
            && ParentsAfter(true, t, machines, companies) == Redirect(g, to)
            && ParentsAfter(false, t, machines, companies) == g
  {
    var base, to := Base(t, machines, companies).nodes, MergesOf(t, machines);
    g, roots := ParentsOf(base), AllRoots(t.nodes);
    BaseForest(t, machines, companies);
    MergesAvoidRoots(t, machines, companies);
    RedirectParents(base, to);
    hide Base, Ready, MergeMap, Merges, RootsMerged, MergesApart, Redirect, RedirectNodes;
    MergesBoth(ParentsOf(t.nodes), g, roots, to);
  }

  lemma NotNestedIsSeparate(t: Rows, machines: map<int, Machine>)
    requires MachinesExist(t.nodes, machines) && MachinesNotNested(t.nodes)
    ensures Separate(ParentsOf(t.nodes), MergesOf(t, machines))
  {
    var to := MergesOf(t, machines);
    forall d | d in to
      ensures d in t.nodes && to[d] in t.nodes && t.nodes[d].machine.Some? && t.nodes[to[d]].machine.Some?
    {
    }
    hide MergeMap;
  }

  /** In the intended shape merging keeps the forest acyclic. */
  lemma MergeKeepsAcyclic(apply: bool, t: Rows, machines: map<int, Machine>, companies: map<int, string>)
    requires Ready(t, machines, companies) && Acyclic(ParentsOf(t.nodes)) && MachinesNotNested(t.nodes)
    ensures Acyclic(ParentsAfter(apply, t, machines, companies))
  {
    var f, to := ParentsOf(t.nodes), MergesOf(t, machines);
    assert MachinesExist(t.nodes, machines);
    hide Acyclic, Ready, ParentsAfter, MachinesNotNested, MergesOf, Merges, RootsMerged;
    var g, roots := RepairedForest(t, machines, companies);
    StaysAcyclic(f, g, roots);
    NotNestedIsSeparate(t, machines);
    SameSeparation(f, g, roots, to);
    MergingKeepsAcyclic(g, to);
  }

  /** Whatever the shape of the forest, the repair keeps it acyclic exactly when the merges form no cycle:
      each leads from a duplicate to the kept node and from there up to the nearest duplicate. */
  lemma MergeIsAcyclicIff(t: Rows, machines: map<int, Machine>, companies: map<int, string>)
    requires Ready(t, machines, companies) && Acyclic(ParentsOf(t.nodes))
    ensures Merges(ParentsOf(t.nodes), MergesOf(t, machines))
    ensures Acyclic(ParentsAfter(true, t, machines, companies))
            <==> Acyclic(Contracted(ParentsOf(t.nodes), MergesOf(t, machines)))
  {
    var f, to := ParentsOf(t.nodes), MergesOf(t, machines);
    assert MachinesExist(t.nodes, machines);
    hide Acyclic, Ready, ParentsAfter, MergesOf, Merges, RootsMerged, Contracted;
    var g, roots := RepairedForest(t, machines, companies);
    SameContraction(f, g, roots, to);
    MergingIsAcyclicIff(g, to);
  }

  /** Every surviving node that reached a root still does, exactly when every duplicate that reached one
      and has a surviving child leads to one: from it to the kept node, up to the nearest duplicate, and
      so on until no duplicate is met. This holds for an acyclic forest of any shape. */
  lemma MergeKeepsRootsIff(t: Rows, machines: map<int, Machine>, companies: map<int, string>)
    requires Ready(t, machines, companies) && Acyclic(ParentsOf(t.nodes))
    ensures Merges(ParentsOf(t.nodes), MergesOf(t, machines))
    ensures RootsKept(ParentsOf(t.nodes), ParentsAfter(true, t, machines, companies))
            <==> DuplicatesLeadToRoot(ParentsOf(t.nodes), MergesOf(t, machines))
  {
    var f, to := ParentsOf(t.nodes), MergesOf(t, machines);
    assert MachinesExist(t.nodes, machines);
    hide Acyclic, Ready, ParentsAfter, MergesOf, Merges, RootsMerged, RootsKept, DuplicatesLeadToRoot;
    var g, roots := RepairedForest(t, machines, companies);
    StaysAcyclic(f, g, roots);
    MergingKeepsRootsIff(g, to);
    SameRootsKept(f, g, roots, to);
    SameDuplicatesLead(f, g, roots, to);
  }

  /** In the intended shape, without assuming that the forest is acyclic: exactly when each rooted
      duplicate with children is merged into a rooted node. */
  lemma MergeKeepsRootedIff(t: Rows, machines: map<int, Machine>, companies: map<int, string>)
    requires Ready(t, machines, companies) && MachinesNotNested(t.nodes)
    ensures RootsKept(ParentsOf(t.nodes), ParentsAfter(true, t, machines, companies))
            <==> DuplicatesRooted(ParentsOf(t.nodes), MergesOf(t, machines))
  {
    var f, to := ParentsOf(t.nodes), MergesOf(t, machines);
    assert MachinesExist(t.nodes, machines);
    hide Ready, ParentsAfter, MergesOf, Merges, RootsMerged, RootsKept, DuplicatesRooted, MachinesNotNested;
    var g, roots := RepairedForest(t, machines, companies);
    NotNestedIsSeparate(t, machines);
    SameSeparation(f, g, roots, to);
    MergingKeepsRootedIff(g, to);
    SameRootsKept(f, g, roots, to);
    SameDuplicatesRooted(f, g, roots, to);
  }

  // ---------- Nodes left, and the report ----------

  lemma CopiesInBase(t: Rows, machines: map<int, Machine>, companies: map<int, string>, m: int)
    requires Ready(t, machines, companies)
    ensures Copies(Base(t, machines, companies).nodes, m) == Copies(t.nodes, m)
  {
    var base := Base(t, machines, companies).nodes;
    OrderIsKnown(t.nodes, machines);
    BaseFacts(t, machines, companies, MachineOrder(t.nodes));
    hide Base;
    forall id
      ensures id in Copies(base, m) <==> id in Copies(t.nodes, m)
    {
      assert id in t.nodes && !IsRoot(t.nodes[id]) ==> KeepsRow(t.nodes, base, id);
    }
  }

  /** Each machine that had nodes has exactly one, the preferred one among those fetched. */
  lemma OneNodePerMachine(t: Rows, machines: map<int, Machine>, companies: map<int, string>, m: int)
    requires Ready(t, machines, companies) && m in machines && Copies(t.nodes, m) != {}
    ensures Copies(Reconciled(true, t, machines, companies).nodes, m) == {Keep(t.nodes, machines, m)}
    ensures IsPreferred(t.nodes, RootOf(t.nodes, machines[m].empresa), Copies(t.nodes, m), Keep(t.nodes, machines, m))
  {
    var keep, to := Keep(t.nodes, machines, m), MergeMap(t.nodes, machines);
    var base, out := Base(t, machines, companies).nodes, Reconciled(true, t, machines, companies).nodes;
    CopiesInBase(t, machines, companies, m);
    hide Base;
    forall id
      ensures id in Copies(out, m) <==> id in Copies(base, m) && id !in to
    {
    }
    forall id | id in Copies(t.nodes, m)
      ensures id in to <==> id != keep
    {
      assert KeepOf(t.nodes, machines, id) == keep;
    }
  }

  /** The rows lost by merging are those reported. */
  lemma RowsLost(t: Rows, machines: map<int, Machine>, companies: map<int, string>)
    requires Ready(t, machines, companies)
    ensures |Reconciled(true, t, machines, companies).nodes|
         == |Reconciled(false, t, machines, companies).nodes| - Report(t.nodes, machines).mergedNodes
  {
    var g, roots := RepairedForest(t, machines, companies);
    var to, base, out := MergesOf(t, machines), Base(t, machines, companies).nodes, Reconciled(true, t, machines, companies).nodes;
    ReportCounts(t.nodes, machines);
    assert to.Keys <= g.Keys by {
      assert forall d :: d in to.Keys ==> d in g.Keys;
    }
    hide Base, MergeMap, Report;
    RedirectRemoves(g, to);
    assert |base| == |base.Keys| == |g.Keys| == |g|;
    assert ParentsOf(out).Keys == out.Keys;
    assert |out| == |out.Keys| == |ParentsOf(out)|;
  }

  /** The machines with more than one node. */
  function DuplicatedMachines(nodes: Nodes): set<int> {
    set id | id in nodes && nodes[id].machine.Some? && Duplicated(nodes, nodes[id].machine.value) :: nodes[id].machine.value
  }

  lemma DuplicatedIff(nodes: Nodes, m: int)
    ensures m in DuplicatedMachines(nodes) <==> Duplicated(nodes, m)
  {
    if Duplicated(nodes, m) {
      var id := Member(Copies(nodes, m));
      assert nodes[id].machine == Some(m);
    }
  }

  ghost predicate DetailFits(nodes: Nodes, machines: map<int, Machine>, ms: seq<int>, d: Detail)
    requires Known(machines, ms)
  {
    d.machine in ms && Duplicated(nodes, d.machine) && d == DetailOf(nodes, machines, d.machine)
  }

  predicate Mentions(ds: seq<Detail>, m: int) {
    exists i :: 0 <= i < |ds| && ds[i].machine == m
  }

  predicate MachinesDistinct(ds: seq<Detail>) {
    forall i, j :: 0 <= i < j < |ds| ==> ds[i].machine != ds[j].machine
  }

  lemma DetailsStep(nodes: Nodes, machines: map<int, Machine>, ms: seq<int>)
    requires Known(machines, ms) && ms != []
    ensures var n := |ms| - 1;
            var before := DetailsOf(nodes, machines, ms[..n]);
            && ms == ms[..n] + [ms[n]]
            && DetailsOf(nodes, machines, ms) ==
               if Duplicated(nodes, ms[n]) then before + [DetailOf(nodes, machines, ms[n])] else before
  {
    hide Duplicated, DetailOf;
    assert ms == ms[..|ms| - 1] + [ms[|ms| - 1]];
  }

  /** Every detail is that of a machine of the list with duplicates. */
  lemma {:induction false} DetailsFit(nodes: Nodes, machines: map<int, Machine>, ms: seq<int>, d: Detail)
    requires Known(machines, ms) && d in DetailsOf(nodes, machines, ms)
    ensures DetailFits(nodes, machines, ms, d)
  {
    if ms != [] {
      var n := |ms| - 1;
      DetailsStep(nodes, machines, ms);
      if d in DetailsOf(nodes, machines, ms[..n]) {
        DetailsFit(nodes, machines, ms[..n], d);
      }
    }
  }

  /** Every machine of the list with duplicates has its detail. */
  lemma {:induction false} DetailsMention(nodes: Nodes, machines: map<int, Machine>, ms: seq<int>, m: int)
    requires Known(machines, ms) && m in ms && Duplicated(nodes, m)
    ensures Mentions(DetailsOf(nodes, machines, ms), m)
  {
    var n := |ms| - 1;
    DetailsStep(nodes, machines, ms);
    var before, ds := DetailsOf(nodes, machines, ms[..n]), DetailsOf(nodes, machines, ms);
    hide DetailsOf, DetailOf, Duplicated;
    if m == ms[n] {
      assert ds[|before|].machine == m;
    } else {
      DetailsMention(nodes, machines, ms[..n], m);
      var i :| 0 <= i < |before| && before[i].machine == m;
      assert ds[i].machine == m;
    }
  }

  lemma {:induction false} DetailsDistinct(nodes: Nodes, machines: map<int, Machine>, ms: seq<int>)
    requires Known(machines, ms) && Distinct(ms)
    ensures MachinesDistinct(DetailsOf(nodes, machines, ms))
  {
    if ms != [] {
      var n := |ms| - 1;
      DetailsStep(nodes, machines, ms);
      NotYet(ms, n);
      DetailsDistinct(nodes, machines, ms[..n]);
      var before := DetailsOf(nodes, machines, ms[..n]);
      forall d | d in before
        ensures d.machine != ms[n]
      {
        DetailsFit(nodes, machines, ms[..n], d);
      }
      hide DetailsOf, DetailOf, Duplicated;
    }
  }

  lemma {:induction false} MergesCount(nodes: Nodes, machines: map<int, Machine>, ms: seq<int>)
    requires MachinesExist(nodes, machines) && Known(machines, ms) && Distinct(ms)
    requires forall m :: m in ms ==> Copies(nodes, m) != {}
    ensures |MergeMapOf(nodes, machines, ms)| == Removed(DetailsOf(nodes, machines, ms))
  {
    if ms == [] {
      assert MergeMapOf(nodes, machines, ms).Keys == {};
    } else {
      var n := |ms| - 1;
      var m := ms[n];
      assert ms == ms[..n] + [m];
      NotYet(ms, n);
      MergesCount(nodes, machines, ms[..n]);
      SummaryStep(nodes, machines, ms[..n], m);
      hide Duplicated, DetailOf, MergeMapOf, DetailsOf;
      if Duplicated(nodes, m) {
        MergesOfOne(nodes, machines, ms[..n], m);
      } else {
        SingleNode(nodes, machines, ms[..n], m);
      }
    }
  }

  lemma MergesOfOne(nodes: Nodes, machines: map<int, Machine>, ms: seq<int>, m: int)
    requires MachinesExist(nodes, machines) && m in machines && m !in ms && Duplicated(nodes, m)
    ensures var d := DetailOf(nodes, machines, m);
            |MergeMapOf(nodes, machines, ms + [m])| == |MergeMapOf(nodes, machines, ms)| + |d.removed|
  {
    var d := DetailOf(nodes, machines, m);
    var to, more := MergeMapOf(nodes, machines, ms), MergeList(d.removed, d.kept);
    MergeMapStep(nodes, machines, ms, m, d.kept, d.removed);
    var gone := Copies(nodes, m) - {d.kept};
    ListsCount(d.removed, gone);
    hide MergeMapOf, DetailOf;
    assert more.Keys == gone;
    assert (to + more).Keys == to.Keys + more.Keys;
    assert to.Keys !! more.Keys;
  }

  /** A detail names the kept node and lists every other node of the machine. */
  ghost predicate DetailRight(nodes: Nodes, machines: map<int, Machine>, d: Detail) {
    && d.machine in machines && Copies(nodes, d.machine) != {} && d.kept == Keep(nodes, machines, d.machine)
    && Lists(d.removed, Copies(nodes, d.machine) - {d.kept}) && |d.removed| == |Copies(nodes, d.machine)| - 1
  }

  lemma FittingIsRight(nodes: Nodes, machines: map<int, Machine>, ms: seq<int>, d: Detail)
    requires Known(machines, ms) && DetailFits(nodes, machines, ms, d)
    ensures DetailRight(nodes, machines, d)
  {
    ListsCount(d.removed, Copies(nodes, d.machine) - {d.kept});
  }

  /** The report has each duplicated machine once, with every node but the kept one, and the nodes removed
      add up to the number of merges. */
  lemma ReportCounts(nodes: Nodes, machines: map<int, Machine>)
    requires MachinesExist(nodes, machines)
    ensures var r := Report(nodes, machines);
            && r.duplicatedMachines == |r.details| == |DuplicatedMachines(nodes)|
            && (forall m :: m in DuplicatedMachines(nodes) <==> Mentions(r.details, m))
            && MachinesDistinct(r.details) && (forall d :: d in r.details ==> DetailRight(nodes, machines, d))
            && r.mergedNodes == Removed(r.details) == |MergeMap(nodes, machines)|
  {
    var order, r := MachineOrder(nodes), Report(nodes, machines);
    MachineOrderIs(nodes);
    OrderIsKnown(nodes, machines);
    DetailsDistinct(nodes, machines, order);
    MergesCount(nodes, machines, order);
    AllMerged(nodes, machines, order);
    hide MachineOrder, DetailsOf, MergeMap, MergeMapOf, Duplicated, DuplicatedMachines, Copies, DetailRight;
    forall m
      ensures m in DuplicatedMachines(nodes) <==> Mentions(r.details, m)
    {
      DuplicatedIff(nodes, m);
      if Duplicated(nodes, m) {
        DetailsMention(nodes, machines, order, m);
      }
      if i :| 0 <= i < |r.details| && r.details[i].machine == m {
        DetailsFit(nodes, machines, order, r.details[i]);
      }
    }
    MachinesCount(r.details, DuplicatedMachines(nodes));
    forall d | d in r.details
      ensures DetailRight(nodes, machines, d)
    {
      DetailsFit(nodes, machines, order, d);
      FittingIsRight(nodes, machines, order, d);
    }
  }

  lemma {:induction false} MachinesCount(ds: seq<Detail>, s: set<int>)
    requires MachinesDistinct(ds) && forall m :: m in s <==> Mentions(ds, m)
    ensures |ds| == |s|
  {
    if ds == [] {
      forall m
        ensures m !in s
      {
        assert !Mentions(ds, m);
      }
    } else {
      var n := |ds| - 1;
      assert ds[n].machine in s by {
        assert Mentions(ds, ds[n].machine);
      }
      forall m
        ensures m in s - {ds[n].machine} <==> Mentions(ds[..n], m)
      {
        if m in s && m != ds[n].machine {
          assert Mentions(ds, m);
          var i :| 0 <= i < |ds| && ds[i].machine == m;
          assert ds[..n][i].machine == m;
        }
        if Mentions(ds[..n], m) {
          var i :| 0 <= i < n && ds[..n][i].machine == m;
          assert ds[i].machine == m;
          assert Mentions(ds, m);
        }
      }
      MachinesCount(ds[..n], s - {ds[n].machine});
    }
  }

  // ---------- The dry run ----------

  /** The company of every machine with duplicates has its one root, named after it. */
  predicate RootsInPlace(nodes: Nodes, machines: map<int, Machine>, companies: map<int, string>)
    requires forall m :: m in machines ==> machines[m].empresa in companies
  {
    forall m :: m in machines && Duplicated(nodes, m) ==>
                  RootInPlace(nodes, machines[m].empresa, companies[machines[m].empresa])
  }

  /** The dry run changes no row exactly if those companies have their roots in place. */
  lemma DryRunIsIdleIff(t: Rows, machines: map<int, Machine>, companies: map<int, string>)
    requires Ready(t, machines, companies)
    ensures Reconciled(false, t, machines, companies).nodes == t.nodes <==> RootsInPlace(t.nodes, machines, companies)
  {
    OrderIsKnown(t.nodes, machines);
    MachineOrderIs(t.nodes);
    var order := MachineOrder(t.nodes);
    var cs := CompaniesToEnsure(t.nodes, machines, order);
    EnsureAllIdleIff(t, companies, cs);
    hide RootInPlace, Duplicated, MachineOrder, EnsureAll, CompaniesToEnsure;
    assert forall m :: m in machines && Duplicated(t.nodes, m) ==> m in order;
    if forall c :: c in cs ==> RootInPlace(t.nodes, c, companies[c]) {
      forall m | m in machines && Duplicated(t.nodes, m)
        ensures RootInPlace(t.nodes, machines[m].empresa, companies[machines[m].empresa])
      {
        assert machines[m].empresa in cs;
      }
    }
  }

  // ---------- A second repair ----------

  /** After the repair no root row carries a machine, and the table is still sound. */
  lemma RepairedIsReady(t: Rows, machines: map<int, Machine>, companies: map<int, string>)
    requires Ready(t, machines, companies)
    ensures Ready(Reconciled(true, t, machines, companies), machines, companies)
  {
    OrderIsKnown(t.nodes, machines);
    BaseFacts(t, machines, companies, MachineOrder(t.nodes));
    MergesAreApart(t.nodes, machines, []);
    var base, to := Base(t, machines, companies), MergeMap(t.nodes, machines);
    BaseIsReady(t, base, machines, companies);
    ApartInBase(t.nodes, base.nodes, to);
    hide RootsOnly, MachineOrder, MergeMap, MergeMapOf, RootsEnsured, RootsFollow, NewRootsAreNew, Base;
    MergedIsReady(base, to, machines, companies);
  }

  lemma BaseIsReady(t: Rows, base: Rows, machines: map<int, Machine>, companies: map<int, string>)
    requires Ready(t, machines, companies) && Sound(base) && RootsEnsured(t.nodes, base.nodes)
    ensures Ready(base, machines, companies)
  {
    forall id | id in base.nodes && base.nodes[id].machine.Some?
      ensures base.nodes[id].machine.value in machines && !IsRoot(base.nodes[id])
    {
      if id in t.nodes && !IsRoot(t.nodes[id]) {
        assert KeepsRow(t.nodes, base.nodes, id);
      }
    }
  }

  lemma MergedIsReady(base: Rows, to: map<int, int>, machines: map<int, Machine>, companies: map<int, string>)
    requires Ready(base, machines, companies) && ApartFromRoots(base.nodes, to)
    ensures Ready(Rows(RedirectNodes(base.nodes, to), base.next), machines, companies)
  {
    forall d | d in to
      ensures 0 < to[d] < base.next
    {
      assert to[d] in base.nodes;
    }
  }

  /** A table in which no machine has two nodes is left as it is, and nothing is reported. */
  lemma NothingToRepair(apply: bool, t: Rows, machines: map<int, Machine>, companies: map<int, string>)
    requires Ready(t, machines, companies) && forall m :: !Duplicated(t.nodes, m)
    ensures Reconciled(apply, t, machines, companies) == t && Report(t.nodes, machines) == Summary(0, 0, [])
  {
    OrderIsKnown(t.nodes, machines);
    NoCompanies(t.nodes, machines, MachineOrder(t.nodes));
    ReportCounts(t.nodes, machines);
    NothingToMerge(t.nodes, machines);
    NothingRedirected(t.nodes, if apply then MergeMap(t.nodes, machines) else map[]);
    hide MachineOrder, MergeMap, RedirectNodes, Duplicated;
  }

  lemma NothingToMerge(nodes: Nodes, machines: map<int, Machine>)
    requires MachinesExist(nodes, machines) && forall m :: !Duplicated(nodes, m)
    ensures forall d :: d !in MergeMap(nodes, machines)
  {
    forall d | d in nodes && nodes[d].machine.Some?
      ensures KeepOf(nodes, machines, d) == d
    {
      var m := nodes[d].machine.value;
      assert d in Copies(nodes, m) && !Duplicated(nodes, m);
      OnlyCopy(nodes, m, d, KeepOf(nodes, machines, d));
    }
  }

  lemma OnlyCopy(nodes: Nodes, m: int, a: int, b: int)
    requires a in Copies(nodes, m) && b in Copies(nodes, m) && !Duplicated(nodes, m)
    ensures a == b
  {
    if a != b {
      SubsetSize({a, b}, Copies(nodes, m));
    }
  }

  lemma {:induction false} NoCompanies(nodes: Nodes, machines: map<int, Machine>, ms: seq<int>)
    requires Known(machines, ms) && forall m :: !Duplicated(nodes, m)
    ensures CompaniesToEnsure(nodes, machines, ms) == [] && DetailsOf(nodes, machines, ms) == []
  {
    hide Duplicated, DetailOf;
    if ms != [] {
      NoCompanies(nodes, machines, ms[..|ms| - 1]);
    }
  }

  /** The repair is done once: a second one, applied or dry, reports nothing and changes nothing. */
  lemma RepairTwice(again: bool, t: Rows, machines: map<int, Machine>, companies: map<int, string>)
    requires Ready(t, machines, companies)
    ensures var t' := Reconciled(true, t, machines, companies);
            && Ready(t', machines, companies)
            && Reconciled(again, t', machines, companies) == t' && Report(t'.nodes, machines) == Summary(0, 0, [])
  {
    var t' := Reconciled(true, t, machines, companies);
    RepairedIsReady(t, machines, companies);
    forall m
      ensures !Duplicated(t'.nodes, m)
    {
      OneAtMost(t, machines, companies, m);
    }
    hide Reconciled, Ready, Duplicated, Report;
    NothingToRepair(again, t', machines, companies);
  }

  lemma OneAtMost(t: Rows, machines: map<int, Machine>, companies: map<int, string>, m: int)
    requires Ready(t, machines, companies)
    ensures !Duplicated(Reconciled(true, t, machines, companies).nodes, m)
  {
    if Copies(t.nodes, m) == {} {
      CopiesInBase(t, machines, companies, m);
      hide Base, MergeMap;
      assert Copies(Reconciled(true, t, machines, companies).nodes, m) == {};
    } else {
      MachineOf(t.nodes, machines, m);
      OneNodePerMachine(t, machines, companies, m);
      hide Reconciled;
    }
  }
}
