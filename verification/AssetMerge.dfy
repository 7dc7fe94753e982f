/** The merge of duplicate machine nodes, as a function of the table it starts from. */
module AssetMerge {
  import opened Basics
  import opened Forest
  import opened AssetNodes
  import opened AssetRoots
  import opened OrderedIds

  datatype Detail = Detail(machine: int, kept: int, removed: seq<int>)
  datatype Summary = Summary(duplicatedMachines: nat, mergedNodes: nat, details: seq<Detail>)

  function CopiesIn(nodes: Nodes, ids: seq<int>, m: int): set<int> {
    set id | id in ids && id in Copies(nodes, m)
  }

  lemma CopiesStep(nodes: Nodes, ids: seq<int>, i: nat, m: int)
    requires i < |ids|
    ensures CopiesIn(nodes, ids[..i + 1], m) ==
            CopiesIn(nodes, ids[..i], m) + if ids[i] in Copies(nodes, m) then {ids[i]} else {}
    ensures Increasing(ids) ==> forall y :: y in CopiesIn(nodes, ids[..i], m) ==> y < ids[i]
  {
    assert ids[..i + 1] == ids[..i] + [ids[i]];
  }

  lemma AllCopies(nodes: Nodes, ids: seq<int>, m: int)
    requires forall id :: id in nodes && nodes[id].machine.Some? ==> id in ids
    ensures CopiesIn(nodes, ids, m) == Copies(nodes, m)
  {
    forall id | id in Copies(nodes, m)
      ensures id in ids
    {
      assert nodes[id].machine.Some?;
    }
  }

  function MachineNodes(nodes: Nodes): set<int> {
    set id | id in nodes && nodes[id].machine.Some?
  }

  predicate OfMachines(nodes: Nodes, ids: seq<int>) {
    forall k :: 0 <= k < |ids| ==> ids[k] in nodes && nodes[ids[k]].machine.Some?
  }

  lemma SortedOfMachines(nodes: Nodes, ids: seq<int>)
    requires Lists(ids, MachineNodes(nodes))
    ensures OfMachines(nodes, ids)
  {
    forall k | 0 <= k < |ids|
      ensures ids[k] in MachineNodes(nodes)
    {
      assert ids[k] in ids;
    }
  }

  /** The machines of the listed nodes, in order of first occurrence. */
  function FirstSeen(nodes: Nodes, ids: seq<int>): seq<int>
    requires OfMachines(nodes, ids)
  {
    if ids == [] then []
    else
      var n := |ids| - 1;
      var rest, m := FirstSeen(nodes, ids[..n]), nodes[ids[n]].machine.value;
      if m in rest then rest else rest + [m]
  }

  /** The order in which the reconciliation treats the machines. */
  ghost function MachineOrder(nodes: Nodes): seq<int> {
    var ids := Sorted(MachineNodes(nodes));
    SortedOfMachines(nodes, ids);
    FirstSeen(nodes, ids)
  }

  lemma {:induction false} FirstSeenAre(nodes: Nodes, ids: seq<int>)
    requires OfMachines(nodes, ids)
    ensures Distinct(FirstSeen(nodes, ids))
    ensures forall m :: m in FirstSeen(nodes, ids) <==> CopiesIn(nodes, ids, m) != {}
  {
    if ids == [] {
      assert forall m :: CopiesIn(nodes, ids, m) == {};
    } else {
      var n := |ids| - 1;
      assert ids == ids[..n + 1];
      FirstSeenAre(nodes, ids[..n]);
      forall m {
        CopiesStep(nodes, ids, n, m);
      }
      hide CopiesIn;
    }
  }

  lemma MachineOrderIs(nodes: Nodes)
    ensures Distinct(MachineOrder(nodes)) && forall m :: m in MachineOrder(nodes) <==> Copies(nodes, m) != {}
  {
    var ids := Sorted(MachineNodes(nodes));
    SortedOfMachines(nodes, ids);
    FirstSeenAre(nodes, ids);
    forall m {
      AllCopies(nodes, ids, m);
    }
  }

  /** The listed nodes are grouped by machine. */
  ghost predicate Grouped(nodes: Nodes, ids: seq<int>, order: seq<int>, groups: map<int, seq<int>>)
    requires OfMachines(nodes, ids)
  {
    && order == FirstSeen(nodes, ids) && (forall m :: m in order <==> m in groups)
    && (forall m :: m in groups ==> Lists(groups[m], CopiesIn(nodes, ids, m)))
  }

  lemma FirstSeenStep(nodes: Nodes, ids: seq<int>, i: nat, m: int)
    requires OfMachines(nodes, ids) && i < |ids| && ids[i] in Copies(nodes, m)
    ensures var order := FirstSeen(nodes, ids[..i]);
            FirstSeen(nodes, ids[..i + 1]) == if m in order then order else order + [m]
    ensures m !in FirstSeen(nodes, ids[..i]) ==> CopiesIn(nodes, ids[..i], m) == {}
  {
    assert ids[..i + 1][..i] == ids[..i];
    FirstSeenAre(nodes, ids[..i]);
  }

  lemma GroupedStep(nodes: Nodes, ids: seq<int>, i: nat, order: seq<int>, groups: map<int, seq<int>>, m: int)
    requires OfMachines(nodes, ids)
    requires i < |ids| && Increasing(ids) && ids[i] in Copies(nodes, m) && Grouped(nodes, ids[..i], order, groups)
    ensures var order' := if m in groups then order else order + [m];
            var list := (if m in groups then groups[m] else []) + [ids[i]];
            Grouped(nodes, ids[..i + 1], order', groups[m := list])
  {
    assert forall m' :: m' != m ==> ids[i] !in Copies(nodes, m');
    hide Copies;
    FirstSeenStep(nodes, ids, i, m);
    GroupAppend(nodes, ids, i, groups, m);
    hide FirstSeen, CopiesIn, Increasing, Lists;
    forall m' | m' != m
      ensures CopiesIn(nodes, ids[..i + 1], m') == CopiesIn(nodes, ids[..i], m')
    {
      CopiesStep(nodes, ids, i, m');
    }
  }

  lemma GroupAppend(nodes: Nodes, ids: seq<int>, i: nat, groups: map<int, seq<int>>, m: int)
    requires i < |ids| && Increasing(ids) && ids[i] in Copies(nodes, m)
    requires if m in groups then Lists(groups[m], CopiesIn(nodes, ids[..i], m)) else CopiesIn(nodes, ids[..i], m) == {}
    ensures CopiesIn(nodes, ids[..i + 1], m) != {}
    ensures Lists((if m in groups then groups[m] else []) + [ids[i]], CopiesIn(nodes, ids[..i + 1], m))
  {
    var before := CopiesIn(nodes, ids[..i], m);
    CopiesStep(nodes, ids, i, m);
    hide Copies, CopiesIn, Increasing, Lists;
    EmptyList();
    ListsAppend(if m in groups then groups[m] else [], before, ids[i]);
  }

  lemma EmptyList()
    ensures Lists([], {})
  {
  }

  /** Merging the listed nodes into one. */
  function MergeList(ids: seq<int>, keep: int): map<int, int> {
    map d | d in ids :: keep
  }

  lemma NothingMerged(nodes: Nodes, keep: int)
    ensures RedirectNodes(nodes, MergeList([], keep)) == nodes
  {
  }

  lemma MergeListStep(nodes: Nodes, duplicates: seq<int>, i: nat, keep: int)
    requires Increasing(duplicates) && keep !in duplicates && i < |duplicates|
    ensures RedirectNodes(RedirectNodes(nodes, MergeList(duplicates[..i], keep)), map[duplicates[i] := keep])
         == RedirectNodes(nodes, MergeList(duplicates[..i + 1], keep))
  {
    var d, to := duplicates[i], MergeList(duplicates[..i], keep);
    assert duplicates[..i + 1] == duplicates[..i] + [d];
    assert MergeList(duplicates[..i + 1], keep) == to[d := keep];
    hide RedirectNodes;
    RedirectMore(nodes, to, d, keep);
  }

  /** The list without one of its members. */
  function Except(ids: seq<int>, x: int): seq<int> {
    if ids == [] then [] else if ids[|ids| - 1] == x then Except(ids[..|ids| - 1], x)
    else Except(ids[..|ids| - 1], x) + [ids[|ids| - 1]]
  }

  lemma {:induction false} ExceptLists(ids: seq<int>, s: set<int>, x: int)
    requires Lists(ids, s)
    ensures Lists(Except(ids, x), s - {x})
  {
    if ids == [] {
      assert forall y :: y !in s;
    } else {
      var n, last := |ids| - 1, ids[|ids| - 1];
      ListsPrefix(ids, s);
      hide Lists;
      ExceptLists(ids[..n], s - {last}, x);
      if last != x {
        assert s - {x} == (s - {last} - {x}) + {last};
        ListsAppend(Except(ids[..n], x), s - {last} - {x}, last);
      } else {
        assert s - {last} - {x} == s - {x};
      }
    }
  }

  // ---------- The whole merge, as a function of the table it starts from ----------

  /** The node kept for a machine. */
  ghost function Keep(nodes: Nodes, machines: map<int, Machine>, m: int): (keep: int)
    requires m in machines && Copies(nodes, m) != {}
    ensures IsPreferred(nodes, RootOf(nodes, machines[m].empresa), Copies(nodes, m), keep)
  {
    KeepExists(nodes, machines, m);
    var keep :| IsPreferred(nodes, RootOf(nodes, machines[m].empresa), Copies(nodes, m), keep);
    keep
  }

  lemma KeepExists(nodes: Nodes, machines: map<int, Machine>, m: int)
    requires m in machines && Copies(nodes, m) != {}
    ensures exists keep :: IsPreferred(nodes, RootOf(nodes, machines[m].empresa), Copies(nodes, m), keep)
  {
    var keep := PreferredExists(nodes, RootOf(nodes, machines[m].empresa), Copies(nodes, m));
  }

  /** Foreign keys from nodes to machines hold. */
  predicate MachinesExist(nodes: Nodes, machines: map<int, Machine>) {
    forall id :: id in nodes && nodes[id].machine.Some? ==> nodes[id].machine.value in machines
  }

  /** No company root stands for a machine. */
  predicate NoMachineIsRoot(nodes: Nodes) {
    forall id :: id in nodes && nodes[id].machine.Some? ==> !IsRoot(nodes[id])
  }

  ghost function KeepOf(nodes: Nodes, machines: map<int, Machine>, id: int): (keep: int)
    requires MachinesExist(nodes, machines) && id in nodes && nodes[id].machine.Some?
    ensures keep in nodes && nodes[keep].machine == nodes[id].machine
  {
    assert id in Copies(nodes, nodes[id].machine.value);
    Keep(nodes, machines, nodes[id].machine.value)
  }

  /** Every node of a machine other than the one kept, with the node it is merged into. */
  ghost function MergeMap(nodes: Nodes, machines: map<int, Machine>): map<int, int>
    requires MachinesExist(nodes, machines)
  {
    map id | id in nodes && nodes[id].machine.Some? && KeepOf(nodes, machines, id) != id :: KeepOf(nodes, machines, id)
  }

  /** The part of the merge map that concerns the listed machines. */
  ghost function MergeMapOf(nodes: Nodes, machines: map<int, Machine>, ms: seq<int>): map<int, int>
    requires MachinesExist(nodes, machines)
  {
    map id | id in MergeMap(nodes, machines) && nodes[id].machine.value in ms :: MergeMap(nodes, machines)[id]
  }

  lemma PreferredUnique(nodes: Nodes, root: Option<int>, root': Option<int>, ids: set<int>, a: int, b: int)
    requires ids <= nodes.Keys
    requires forall id :: id in ids ==> DirectlyUnder(nodes, id, root) == DirectlyUnder(nodes, id, root')
    requires IsPreferred(nodes, root, ids, a) && IsPreferred(nodes, root', ids, b)
    ensures a == b
  {
  }

  // ---------- The companies whose roots are ensured ----------

  predicate Duplicated(nodes: Nodes, m: int): (duplicated: bool)
    ensures duplicated ==> Copies(nodes, m) != {}
  {
    |Copies(nodes, m)| >= 2
  }

  /** The companies of the machines with more than one node, as often as they come up. */
  function CompaniesToEnsure(nodes: Nodes, machines: map<int, Machine>, ms: seq<int>): (cs: seq<int>)
    requires forall m :: m in ms ==> m in machines
    ensures forall c :: c in cs <==> exists m :: m in ms && Duplicated(nodes, m) && machines[m].empresa == c
  {
    if ms == [] then []
    else
      var n := |ms| - 1;
      assert ms == ms[..n] + [ms[n]];
      CompaniesToEnsure(nodes, machines, ms[..n]) + (if Duplicated(nodes, ms[n]) then [machines[ms[n]].empresa] else [])
  }

  /** What the reconciliation relies on. */
  predicate Ready(t: Rows, machines: map<int, Machine>, companies: map<int, string>) {
    && Sound(t) && MachinesExist(t.nodes, machines) && NoMachineIsRoot(t.nodes)
    && forall m :: m in machines ==> machines[m].empresa in companies
  }

  predicate Known(machines: map<int, Machine>, ms: seq<int>) {
    forall m :: m in ms ==> m in machines
  }

  /** The rows once the machines `ms` had the roots of their companies ensured, and nothing else. */
  ghost function RootsOnly(t: Rows, machines: map<int, Machine>, companies: map<int, string>, ms: seq<int>): Rows
    requires Ready(t, machines, companies) && Known(machines, ms)
  {
    EnsureAll(t, companies, CompaniesToEnsure(t.nodes, machines, ms))
  }

  /** The merges done after the machines `ms`. */
  ghost function Done(apply: bool, nodes: Nodes, machines: map<int, Machine>, ms: seq<int>): map<int, int>
    requires MachinesExist(nodes, machines)
  {
    if apply then MergeMapOf(nodes, machines, ms) else map[]
  }

  /** The rows after the machines `ms`: roots ensured, and the merges applied unless it is a dry run. */
  ghost function RowsAfter(apply: bool, t: Rows, machines: map<int, Machine>, companies: map<int, string>, ms: seq<int>): Rows
    requires Ready(t, machines, companies) && Known(machines, ms)
  {
    var base := RootsOnly(t, machines, companies, ms);
    Rows(RedirectNodes(base.nodes, Done(apply, t.nodes, machines, ms)), base.next)
  }

  // ---------- The summary ----------

  ghost function DetailOf(nodes: Nodes, machines: map<int, Machine>, m: int): (d: Detail)
    requires m in machines && Copies(nodes, m) != {}
    ensures Lists(d.removed, Copies(nodes, m) - {d.kept}) && d.kept == Keep(nodes, machines, m) && d.machine == m
  {
    var keep := Keep(nodes, machines, m);
    Detail(m, keep, Sorted(Copies(nodes, m) - {keep}))
  }

  ghost function DetailsOf(nodes: Nodes, machines: map<int, Machine>, ms: seq<int>): seq<Detail>
    requires Known(machines, ms)
  {
    if ms == [] then []
    else
      var n := |ms| - 1;
      assert ms == ms[..n] + [ms[n]];
      DetailsOf(nodes, machines, ms[..n])
      + if Duplicated(nodes, ms[n]) then [DetailOf(nodes, machines, ms[n])] else []
  }

  /** The nodes removed according to the details. */
  function Removed(details: seq<Detail>): nat {
    if details == [] then 0 else Removed(details[..|details| - 1]) + |details[|details| - 1].removed|
  }

  /** What the reconciliation reports, whether or not it merges. */
  ghost function SummaryOf(nodes: Nodes, machines: map<int, Machine>, ms: seq<int>): Summary
    requires Known(machines, ms)
  {
    var details := DetailsOf(nodes, machines, ms);
    Summary(|details|, Removed(details), details)
  }

  lemma SummaryStep(nodes: Nodes, machines: map<int, Machine>, ms: seq<int>, m: int)
    requires Known(machines, ms) && m in machines
    ensures Known(machines, ms + [m])
    ensures var s := SummaryOf(nodes, machines, ms);
            SummaryOf(nodes, machines, ms + [m]) ==
            if !Duplicated(nodes, m) then s
            else
              var d := DetailOf(nodes, machines, m);
              Summary(s.duplicatedMachines + 1, s.mergedNodes + |d.removed|, s.details + [d])
  {
    assert (ms + [m])[..|ms|] == ms;
    var details := DetailsOf(nodes, machines, ms);
    assert details + [] == details;
    if Duplicated(nodes, m) {
      var d := DetailOf(nodes, machines, m);
      assert (details + [d])[..|details|] == details;
    }
    hide Duplicated;
  }

  lemma RootsStep(t: Rows, machines: map<int, Machine>, companies: map<int, string>, ms: seq<int>, m: int)
    requires Ready(t, machines, companies) && Known(machines, ms) && m in machines
    ensures Known(machines, ms + [m])
    ensures var base := RootsOnly(t, machines, companies, ms);
            RootsOnly(t, machines, companies, ms + [m]) ==
            if Duplicated(t.nodes, m) then EnsureNext(base, machines[m].empresa, companies[machines[m].empresa]) else base
  {
    assert (ms + [m])[..|ms|] == ms;
    var cs := CompaniesToEnsure(t.nodes, machines, ms);
    assert (cs + [machines[m].empresa])[..|cs|] == cs;
    assert cs + [] == cs;
    hide Duplicated, Ready, EnsureNext;
  }

  // ---------- Ensuring a root commutes with merges of other nodes ----------

  /** Merges between rows that are no roots. */
  predicate ApartFromRoots(nodes: Nodes, to: map<int, int>) {
    forall d :: d in to ==> d in nodes && !IsRoot(nodes[d]) && to[d] in nodes && !IsRoot(nodes[to[d]]) && to[d] !in to
  }

  lemma NoMergesApart(nodes: Nodes)
    ensures ApartFromRoots(nodes, map[])
  {
  }

  lemma RedirectCompose(nodes: Nodes, to: map<int, int>, more: map<int, int>)
    requires forall d :: d in to ==> d !in more && to[d] !in more
    requires forall d :: d in more ==> d !in to && more[d] !in to
    ensures RedirectNodes(RedirectNodes(nodes, to), more) == RedirectNodes(nodes, to + more)
  {
  }

  lemma MergedRoots(nodes: Nodes, to: map<int, int>, c: int)
    requires NO_PARENT !in nodes && ApartFromRoots(nodes, to)
    ensures RootIds(RedirectNodes(nodes, to), c) == RootIds(nodes, c)
  {
    var merged := RedirectNodes(nodes, to);
    forall id
      ensures id in RootIds(merged, c) <==> id in RootIds(nodes, c)
    {
    }
  }

  lemma EnsureRootCommutes(nodes: Nodes, to: map<int, int>, c: int, nombre: string, root: int)
    requires NO_PARENT !in nodes && ApartFromRoots(nodes, to) && RootChoice(nodes, c, root)
    ensures EnsureRoot(RedirectNodes(nodes, to), c, nombre, root) == RedirectNodes(EnsureRoot(nodes, c, nombre, root), to)
  {
    var merged := RedirectNodes(nodes, to);
    MergedRoots(nodes, to, c);
    if root in RootIds(nodes, c) {
      var roots := RootMerge(nodes, c, root);
      assert RootMerge(merged, c, root) == roots;
      RedirectCompose(nodes, to, roots);
      RedirectCompose(nodes, roots, to);
      SumCommutes(to, roots);
      RelabelCommutes(RedirectNodes(nodes, roots), to, root, nombre);
    } else {
      AddedCommutes(nodes, to, root, Node(nombre, c, RootFolder, NO_PARENT, None));
    }
  }

  lemma SumCommutes(a: map<int, int>, b: map<int, int>)
    requires a.Keys !! b.Keys
    ensures a + b == b + a
  {
  }

  lemma RelabelCommutes(nodes: Nodes, to: map<int, int>, root: int, nombre: string)
    requires root in nodes && root !in to
    ensures root in RedirectNodes(nodes, to)
    ensures Relabelled(RedirectNodes(nodes, to), root, nombre) == RedirectNodes(Relabelled(nodes, root, nombre), to)
  {
  }

  lemma AddedCommutes(nodes: Nodes, to: map<int, int>, root: int, n: Node)
    requires root !in to && n.parent == NO_PARENT && NO_PARENT !in to
    ensures RedirectNodes(nodes, to)[root := n] == RedirectNodes(nodes[root := n], to)
  {
  }

  lemma RootPhase(base: Rows, to: map<int, int>, c: int, nombre: string)
    requires Sound(base) && ApartFromRoots(base.nodes, to) && Sound(Rows(RedirectNodes(base.nodes, to), base.next))
    ensures var merged, out := Rows(RedirectNodes(base.nodes, to), base.next), EnsureNext(base, c, nombre);
            && RootNext(merged, c) == RootNext(base, c)
            && EnsureNext(merged, c, nombre) == Rows(RedirectNodes(out.nodes, to), out.next)
  {
    MergedRoots(base.nodes, to, c);
    EnsureRootCommutes(base.nodes, to, c, nombre, RootNext(base, c));
    hide EnsureRoot, RedirectNodes;
  }

  lemma ApartInBase(n0: Nodes, base: Nodes, to: map<int, int>)
    requires NO_PARENT !in base && RootsEnsured(n0, base) && ApartFromRoots(n0, to)
    ensures ApartFromRoots(base, to)
  {
    forall id | id in n0 && !IsRoot(n0[id])
      ensures id in base && !IsRoot(base[id])
    {
      assert KeepsRow(n0, base, id);
    }
  }

  // ---------- What one machine adds ----------

  lemma MergesAreApart(nodes: Nodes, machines: map<int, Machine>, ms: seq<int>)
    requires MachinesExist(nodes, machines) && NoMachineIsRoot(nodes)
    ensures ApartFromRoots(nodes, MergeMapOf(nodes, machines, ms))
    ensures ApartFromRoots(nodes, MergeMap(nodes, machines))
  {
  }

  lemma MergeMapStep(nodes: Nodes, machines: map<int, Machine>, ms: seq<int>, m: int, keep: int, duplicates: seq<int>)
    requires MachinesExist(nodes, machines) && m !in ms && m in machines && Copies(nodes, m) != {}
    requires keep == Keep(nodes, machines, m) && Lists(duplicates, Copies(nodes, m) - {keep})
    ensures var to, more := MergeMapOf(nodes, machines, ms), MergeList(duplicates, keep);
            && MergeMapOf(nodes, machines, ms + [m]) == to + more
            && keep in nodes && nodes[keep].machine == Some(m) && keep !in to && keep !in more
            && (forall d :: d in to ==> d !in more && to[d] !in more)
            && (forall d :: d in more ==> d !in to && more[d] == keep)
  {
    var to, more := MergeMapOf(nodes, machines, ms), MergeList(duplicates, keep);
    forall d | d in to
      ensures to[d] in nodes && nodes[to[d]].machine == nodes[d].machine && to[d] !in more && d !in more && d != keep
    {
    }
    forall id | id in nodes && nodes[id].machine == Some(m)
      ensures id in Copies(nodes, m) && KeepOf(nodes, machines, id) == keep
    {
    }
    var all := MergeMapOf(nodes, machines, ms + [m]);
    forall id
      ensures id in all <==> id in to + more
      ensures id in all ==> all[id] == (to + more)[id]
    {
    }
  }

  /** A machine with a single node contributes no merge. */
  lemma SingleNode(nodes: Nodes, machines: map<int, Machine>, ms: seq<int>, m: int)
    requires MachinesExist(nodes, machines) && Copies(nodes, m) != {} && !Duplicated(nodes, m)
    ensures MergeMapOf(nodes, machines, ms + [m]) == MergeMapOf(nodes, machines, ms)
  {
    forall id | id in Copies(nodes, m)
      ensures KeepOf(nodes, machines, id) == id
    {
      var keep := KeepOf(nodes, machines, id);
      assert keep in Copies(nodes, m);
      if keep != id {
        assert {keep, id} <= Copies(nodes, m);
        assert |{keep, id}| == 2;
        SubsetSize({keep, id}, Copies(nodes, m));
      }
    }
    forall id | id in MergeMap(nodes, machines)
      ensures nodes[id].machine.value != m
    {
      assert nodes[id].machine == Some(m) ==> id in Copies(nodes, m);
    }
  }

  lemma SubsetSize(a: set<int>, b: set<int>)
    requires a <= b
    ensures |a| <= |b|
  {
    assert b == a + (b - a);
  }

  lemma BaseFacts(t: Rows, machines: map<int, Machine>, companies: map<int, string>, ms: seq<int>)
    requires Ready(t, machines, companies) && Known(machines, ms)
    ensures var base := RootsOnly(t, machines, companies, ms);
            && Sound(base) && t.next <= base.next && RootsEnsured(t.nodes, base.nodes)
            && RootsFollow(t, base) && NewRootsAreNew(t, base)
            && ApartFromRoots(base.nodes, MergeMapOf(t.nodes, machines, ms)) && NO_PARENT !in base.nodes
  {
    EnsureAllFacts(t, companies, CompaniesToEnsure(t.nodes, machines, ms));
    MergesAreApart(t.nodes, machines, ms);
    var base := RootsOnly(t, machines, companies, ms);
    assert Sound(base);
    ApartInBase(t.nodes, base.nodes, MergeMapOf(t.nodes, machines, ms));
  }

  lemma StartMerge(apply: bool, t: Rows, machines: map<int, Machine>, companies: map<int, string>)
    requires Ready(t, machines, companies)
    ensures RowsAfter(apply, t, machines, companies, []) == t && SummaryOf(t.nodes, machines, []) == Summary(0, 0, [])
  {
    NothingRedirected(t.nodes, Done(apply, t.nodes, machines, []));
  }

  lemma MachineOf(nodes: Nodes, machines: map<int, Machine>, m: int)
    requires MachinesExist(nodes, machines) && Copies(nodes, m) != {}
    ensures m in machines
  {
    var id := Member(Copies(nodes, m));
    assert nodes[id].machine == Some(m);
  }

  lemma OrderIsKnown(nodes: Nodes, machines: map<int, Machine>)
    requires MachinesExist(nodes, machines)
    ensures Known(machines, MachineOrder(nodes))
  {
    MachineOrderIs(nodes);
    forall m | m in MachineOrder(nodes)
      ensures m in machines
    {
      MachineOf(nodes, machines, m);
    }
  }

  lemma AllMerged(nodes: Nodes, machines: map<int, Machine>, ms: seq<int>)
    requires MachinesExist(nodes, machines) && forall m :: Copies(nodes, m) != {} ==> m in ms
    ensures MergeMapOf(nodes, machines, ms) == MergeMap(nodes, machines)
  {
    forall id | id in MergeMap(nodes, machines)
      ensures nodes[id].machine.value in ms
    {
      assert id in Copies(nodes, nodes[id].machine.value);
    }
  }

  lemma NotYet(order: seq<int>, i: nat)
    requires Distinct(order) && i < |order|
    ensures order[i] !in order[..i]
  {
  }

  lemma OthersListed(duplicates: seq<int>, s: set<int>, keep: int)
    requires Lists(duplicates, s - {keep})
    ensures Increasing(duplicates) && keep !in duplicates
  {
  }

  lemma ListMembers(ids: seq<int>, nodes: Nodes, m: int)
    requires Lists(ids, Copies(nodes, m)) && Copies(nodes, m) != {}
    ensures ids != [] && forall id :: id in ids ==> id in nodes
  {
    ListsCount(ids, Copies(nodes, m));
  }

  // ---------- Step by step, for any table ----------

  /** Where the loop stands: the rows, and what is to be reported. */
  datatype Stage = Stage(rows: Rows, report: Summary)

  ghost predicate CanStep(snapshot: Nodes, machines: map<int, Machine>, companies: map<int, string>, t: Rows) {
    && Sound(t) && (forall id :: id in snapshot ==> 0 < id < t.next)
    && forall m :: m in machines ==> machines[m].empresa in companies
  }

  /** The node kept when `root` is the root of the company. */
  ghost function KeptUnder(snapshot: Nodes, root: int, m: int): (keep: int)
    requires Copies(snapshot, m) != {}
    ensures IsPreferred(snapshot, Some(root), Copies(snapshot, m), keep)
  {
    KeptExists(snapshot, root, m);
    var keep :| IsPreferred(snapshot, Some(root), Copies(snapshot, m), keep);
    keep
  }

  lemma KeptExists(snapshot: Nodes, root: int, m: int)
    requires Copies(snapshot, m) != {}
    ensures exists keep :: IsPreferred(snapshot, Some(root), Copies(snapshot, m), keep)
  {
    var keep := PreferredExists(snapshot, Some(root), Copies(snapshot, m));
  }

  /** What one iteration reports about a machine with several nodes. */
  ghost function StepDetail(snapshot: Nodes, root: int, m: int): (d: Detail)
    requires Copies(snapshot, m) != {}
    ensures d.machine == m && d.kept in Copies(snapshot, m) && Lists(d.removed, Copies(snapshot, m) - {d.kept})
  {
    var keep := KeptUnder(snapshot, root, m);
    Detail(m, keep, Sorted(Copies(snapshot, m) - {keep}))
  }

  function Reported(s: Summary, d: Detail): Summary {
    Summary(s.duplicatedMachines + 1, s.mergedNodes + |d.removed|, s.details + [d])
  }

  function MergedInto(t: Rows, d: Detail): Rows {
    Rows(RedirectNodes(t.nodes, MergeList(d.removed, d.kept)), t.next)
  }

  /** One iteration: the root is that of the moment, the nodes of the machine are those first fetched. */
  ghost function StepOf(apply: bool, snapshot: Nodes, machines: map<int, Machine>, companies: map<int, string>, st: Stage, m: int)
    : (st': Stage)
    requires CanStep(snapshot, machines, companies, st.rows) && m in machines
    ensures CanStep(snapshot, machines, companies, st'.rows)
  {
    if !Duplicated(snapshot, m) then st
    else
      var c := machines[m].empresa;
      var t, d := EnsureNext(st.rows, c, companies[c]), StepDetail(snapshot, RootNext(st.rows, c), m);
      MergedIsSound(t, d, snapshot);
      Stage(if apply then MergedInto(t, d) else t, Reported(st.report, d))
  }

  lemma MergedIsSound(t: Rows, d: Detail, snapshot: Nodes)
    requires Sound(t) && d.kept in snapshot && forall id :: id in snapshot ==> 0 < id < t.next
    ensures Sound(MergedInto(t, d))
  {
  }

  ghost function StepAll(apply: bool, t: Rows, machines: map<int, Machine>, companies: map<int, string>, ms: seq<int>): (st: Stage)
    requires CanStep(t.nodes, machines, companies, t) && Known(machines, ms)
    ensures CanStep(t.nodes, machines, companies, st.rows)
  {
    if ms == [] then Stage(t, Summary(0, 0, []))
    else
      var n := |ms| - 1;
      assert ms == ms[..n] + [ms[n]];
      StepOf(apply, t.nodes, machines, companies, StepAll(apply, t, machines, companies, ms[..n]), ms[n])
  }

  lemma StepNext(apply: bool, t: Rows, machines: map<int, Machine>, companies: map<int, string>, ms: seq<int>, m: int)
    requires CanStep(t.nodes, machines, companies, t) && Known(machines, ms) && m in machines
    ensures Known(machines, ms + [m])
    ensures StepAll(apply, t, machines, companies, ms + [m])
         == StepOf(apply, t.nodes, machines, companies, StepAll(apply, t, machines, companies, ms), m)
  {
    hide StepOf, CanStep;
    assert (ms + [m])[..|ms|] == ms;
  }

  /** The whole loop, in the order in which the machines come up. */
  ghost function Repaired(apply: bool, t: Rows, machines: map<int, Machine>, companies: map<int, string>): Stage
    requires CanStep(t.nodes, machines, companies, t) && MachinesExist(t.nodes, machines)
  {
    OrderIsKnown(t.nodes, machines);
    StepAll(apply, t, machines, companies, MachineOrder(t.nodes))
  }

  // ---------- The reconciliation as a whole ----------

  /** The table with the roots ensured and nothing merged: what a dry run leaves. */
  ghost function Base(t: Rows, machines: map<int, Machine>, companies: map<int, string>): Rows
    requires Ready(t, machines, companies)
  {
    OrderIsKnown(t.nodes, machines);
    RootsOnly(t, machines, companies, MachineOrder(t.nodes))
  }

  /** What the reconciliation leaves: the roots ensured, then every node that is not the one kept for its
      machine merged into it, or nothing merged in a dry run. */
  ghost function Reconciled(apply: bool, t: Rows, machines: map<int, Machine>, companies: map<int, string>): Rows
    requires Ready(t, machines, companies)
  {
    var base := Base(t, machines, companies);
    Rows(if apply then RedirectNodes(base.nodes, MergeMap(t.nodes, machines)) else base.nodes, base.next)
  }

  /** What it reports, applied or not. */
  ghost function Report(nodes: Nodes, machines: map<int, Machine>): Summary
    requires MachinesExist(nodes, machines)
  {
    OrderIsKnown(nodes, machines);
    SummaryOf(nodes, machines, MachineOrder(nodes))
  }

  lemma MergeEnds(apply: bool, t: Rows, machines: map<int, Machine>, companies: map<int, string>, order: seq<int>)
    requires Ready(t, machines, companies) && order == MachineOrder(t.nodes) && Known(machines, order)
    ensures RowsAfter(apply, t, machines, companies, order) == Reconciled(apply, t, machines, companies)
  {
    MachineOrderIs(t.nodes);
    hide RootsOnly, MachineOrder, MergeMap, MergeMapOf;
    AllMerged(t.nodes, machines, order);
    var base := RootsOnly(t, machines, companies, order);
    NothingRedirected(base.nodes, map[]);
    hide RedirectNodes, Ready;
  }

  // ---------- The steps in closed form ----------

  lemma ReadyCanStep(t: Rows, machines: map<int, Machine>, companies: map<int, string>)
    requires Ready(t, machines, companies)
    ensures CanStep(t.nodes, machines, companies, t)
  {
  }

  /** The root of the moment and the root at the start prefer the same node. */
  lemma SameDetail(t: Rows, base: Rows, machines: map<int, Machine>, m: int)
    requires Sound(t) && Sound(base) && t.next <= base.next && RootsFollow(t, base) && NewRootsAreNew(t, base)
    requires m in machines && Copies(t.nodes, m) != {}
    ensures StepDetail(t.nodes, RootNext(base, machines[m].empresa), m) == DetailOf(t.nodes, machines, m)
  {
    var c, root := machines[m].empresa, RootNext(base, machines[m].empresa);
    forall id | id in Copies(t.nodes, m)
      ensures DirectlyUnder(t.nodes, id, Some(root)) == DirectlyUnder(t.nodes, id, RootOf(t.nodes, c))
    {
      SameUnder(t, base, c, id);
    }
    PreferredUnique(t.nodes, Some(root), RootOf(t.nodes, c), Copies(t.nodes, m), KeptUnder(t.nodes, root, m),
                    Keep(t.nodes, machines, m));
  }

  /** Merging the duplicates of one machine, after the merges of the machines before it. */
  lemma MergeStep(t: Rows, machines: map<int, Machine>, companies: map<int, string>, ms: seq<int>, m: int)
    requires Ready(t, machines, companies) && Known(machines, ms) && m in machines && m !in ms && Duplicated(t.nodes, m)
    ensures Known(machines, ms + [m])
    ensures var d, base := DetailOf(t.nodes, machines, m), RootsOnly(t, machines, companies, ms + [m]);
            RowsAfter(true, t, machines, companies, ms + [m])
            == MergedInto(Rows(RedirectNodes(base.nodes, MergeMapOf(t.nodes, machines, ms)), base.next), d)
  {
    var d := DetailOf(t.nodes, machines, m);
    MergeMapStep(t.nodes, machines, ms, m, d.kept, d.removed);
    var base := RootsOnly(t, machines, companies, ms + [m]).nodes;
    RedirectCompose(base, MergeMapOf(t.nodes, machines, ms), MergeList(d.removed, d.kept));
    hide RootsOnly, MergeMapOf, MergeList, Ready, Duplicated, RedirectNodes;
  }

  lemma {:induction false} StepsAre(apply: bool, t: Rows, machines: map<int, Machine>, companies: map<int, string>, ms: seq<int>)
    requires Ready(t, machines, companies) && Known(machines, ms) && Distinct(ms)
    requires forall m :: m in ms ==> Copies(t.nodes, m) != {}
    ensures CanStep(t.nodes, machines, companies, t)
    ensures StepAll(apply, t, machines, companies, ms)
         == Stage(RowsAfter(apply, t, machines, companies, ms), SummaryOf(t.nodes, machines, ms))
  {
    ReadyCanStep(t, machines, companies);
    if ms == [] {
      StartMerge(apply, t, machines, companies);
    } else {
      var n := |ms| - 1;
      assert ms == ms[..n] + [ms[n]];
      NotYet(ms, n);
      StepsAre(apply, t, machines, companies, ms[..n]);
      StepNext(apply, t, machines, companies, ms[..n], ms[n]);
      hide Ready, CanStep, RowsAfter, SummaryOf, StepAll, StepOf, Copies;
      OneStep(apply, t, machines, companies, ms[..n], ms[n]);
    }
  }

  lemma OneStep(apply: bool, t: Rows, machines: map<int, Machine>, companies: map<int, string>, ms: seq<int>, m: int)
    requires Ready(t, machines, companies) && Known(machines, ms) && m in machines && m !in ms && Copies(t.nodes, m) != {}
    requires CanStep(t.nodes, machines, companies, RowsAfter(apply, t, machines, companies, ms))
    ensures Known(machines, ms + [m])
    ensures var st := Stage(RowsAfter(apply, t, machines, companies, ms), SummaryOf(t.nodes, machines, ms));
            StepOf(apply, t.nodes, machines, companies, st, m)
            == Stage(RowsAfter(apply, t, machines, companies, ms + [m]), SummaryOf(t.nodes, machines, ms + [m]))
  {
    hide RowsAfter, SummaryOf, DetailOf, StepDetail, MergedInto, RootNext, EnsureNext, Ready, CanStep, Duplicated, Copies, DetailsOf;
    SummaryStep(t.nodes, machines, ms, m);
    if Duplicated(t.nodes, m) {
      DuplicatedRows(apply, t, machines, companies, ms, m);
    } else {
      SingleRows(apply, t, machines, companies, ms, m);
    }
  }

  lemma SingleRows(apply: bool, t: Rows, machines: map<int, Machine>, companies: map<int, string>, ms: seq<int>, m: int)
    requires Ready(t, machines, companies) && Known(machines, ms) && m in machines && Copies(t.nodes, m) != {}
    requires !Duplicated(t.nodes, m)
    ensures Known(machines, ms + [m])
    ensures RowsAfter(apply, t, machines, companies, ms + [m]) == RowsAfter(apply, t, machines, companies, ms)
  {
    RootsStep(t, machines, companies, ms, m);
    SingleNode(t.nodes, machines, ms, m);
    hide RootsOnly, MergeMapOf, RedirectNodes, EnsureNext;
  }

  lemma DuplicatedRows(apply: bool, t: Rows, machines: map<int, Machine>, companies: map<int, string>, ms: seq<int>, m: int)
    requires Ready(t, machines, companies) && Known(machines, ms) && m in machines && m !in ms && Duplicated(t.nodes, m)
    requires CanStep(t.nodes, machines, companies, RowsAfter(apply, t, machines, companies, ms))
    ensures Known(machines, ms + [m])
    ensures var c, now, d := machines[m].empresa, RowsAfter(apply, t, machines, companies, ms), DetailOf(t.nodes, machines, m);
            var out := EnsureNext(now, c, companies[c]);
            && RowsAfter(apply, t, machines, companies, ms + [m]) == (if apply then MergedInto(out, d) else out)
            && StepDetail(t.nodes, RootNext(now, c), m) == d
  {
    RootsStep(t, machines, companies, ms, m);
    RootOfTheStep(apply, t, machines, companies, ms, m);
    hide RootsOnly, MergeMapOf, Copies, RedirectNodes, EnsureNext, MergeList, RootNext, DetailOf, StepDetail, Duplicated;
    if apply {
      MergeStep(t, machines, companies, ms, m);
    }
  }

  /** The root of the moment is the one that the merges before it leave alone, and prefers the same node. */
  lemma RootOfTheStep(apply: bool, t: Rows, machines: map<int, Machine>, companies: map<int, string>, ms: seq<int>, m: int)
    requires Ready(t, machines, companies) && Known(machines, ms) && m in machines && Copies(t.nodes, m) != {}
    requires CanStep(t.nodes, machines, companies, RowsAfter(apply, t, machines, companies, ms))
    ensures var c, base, now := machines[m].empresa, RootsOnly(t, machines, companies, ms), RowsAfter(apply, t, machines, companies, ms);
            var out := EnsureNext(base, c, companies[c]);
            && EnsureNext(now, c, companies[c]) == Rows(RedirectNodes(out.nodes, Done(apply, t.nodes, machines, ms)), out.next)
            && StepDetail(t.nodes, RootNext(now, c), m) == DetailOf(t.nodes, machines, m)
  {
    var c, base := machines[m].empresa, RootsOnly(t, machines, companies, ms);
    BaseFacts(t, machines, companies, ms);
    NoMergesApart(base.nodes);
    hide RootsOnly, MergeMapOf, Copies, RedirectNodes, RootsEnsured, RootsFollow, NewRootsAreNew, ApartFromRoots, EnsureNext,
      RootNext, DetailOf, StepDetail, MergeMap;
    RootPhase(base, Done(apply, t.nodes, machines, ms), c, companies[c]);
    SameDetail(t, base, machines, m);
  }

  /** If no company root stands for a machine, the loop leaves the table `Reconciled` and reports `Report`: the
      roots are put in order, every duplicate is merged at once, and a dry run differs only in not merging. */
  lemma RepairInClosedForm(apply: bool, t: Rows, machines: map<int, Machine>, companies: map<int, string>)
    requires Ready(t, machines, companies)
    ensures CanStep(t.nodes, machines, companies, t)
    ensures Repaired(apply, t, machines, companies)
         == Stage(Reconciled(apply, t, machines, companies), Report(t.nodes, machines))
  {
    var order := MachineOrder(t.nodes);
    MachineOrderIs(t.nodes);
    OrderIsKnown(t.nodes, machines);
    hide Ready, CanStep, RowsAfter, SummaryOf, StepAll, MachineOrder, Reconciled, Copies;
    StepsAre(apply, t, machines, companies, order);
    MergeEnds(apply, t, machines, companies, order);
  }
}
