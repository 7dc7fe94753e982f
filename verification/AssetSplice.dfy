/** Migration 0016: nodes of inactive machines are spliced out of the tree, in id order, each passing its
    children to the parent it had when the rows were fetched.
  */
module AssetSplice {
  import opened Basics
  import opened Forest
  import opened AssetNodes
  import opened AssetRoots
  import opened AssetTree
  import opened OrderedIds

  function AtLeast(s: set<int>, p: int): set<int> {
    set q | q in s && q >= p
  }

  /** Where a child of `p` hangs once the inactive nodes below `bound` are gone. If the fetched parent of
      a spliced node is inactive with a smaller id it is already gone: the reference is left dangling. */
  function Landing(f: Parents, inactive: set<int>, p: int, bound: int): int
    decreases AtLeast(inactive, p)
  {
    if p !in inactive || p !in f || p >= bound then p
    else if f[p] !in inactive || f[p] <= p then f[p]
    else
      assert p in AtLeast(inactive, p) && p !in AtLeast(inactive, f[p]);
      Landing(f, inactive, f[p], bound)
  }

  function Spliced(nodes: Nodes, inactive: set<int>, bound: int): Nodes {
    map x | x in nodes && !(x in inactive && x < bound) ::
      nodes[x].(parent := Landing(ParentsOf(nodes), inactive, nodes[x].parent, bound))
  }

  /** Splicing the next inactive node. */
  lemma {:induction false} LandingStep(f: Parents, inactive: set<int>, p: int, b: int, bound: int)
    requires b in inactive && b in f && bound <= b && forall q :: q in inactive && bound <= q ==> b <= q
    ensures Landing(f, inactive, p, b + 1) == if Landing(f, inactive, p, bound) == b then f[b]
                                              else Landing(f, inactive, p, bound)
    decreases AtLeast(inactive, p)
  {
    if p in inactive && p in f && p < bound && f[p] in inactive && f[p] > p {
      assert p in AtLeast(inactive, p) && p !in AtLeast(inactive, f[p]);
      LandingStep(f, inactive, f[p], b, bound);
    } else if p == b && f[b] in inactive && f[b] > b {
      assert Landing(f, inactive, f[b], b + 1) == f[b];
    }
  }

  lemma SplicedStep(nodes: Nodes, inactive: set<int>, b: int, bound: int)
    requires inactive <= nodes.Keys && b in inactive && bound <= b
    requires forall q :: q in inactive && bound <= q ==> b <= q
    ensures Reparented(Spliced(nodes, inactive, bound), b, nodes[b].parent) - {b} == Spliced(nodes, inactive, b + 1)
  {
    forall x | x in nodes {
      LandingStep(ParentsOf(nodes), inactive, nodes[x].parent, b, bound);
    }
    hide Landing;
  }

  lemma {:induction false} NothingSpliced(f: Parents, inactive: set<int>, p: int, bound: int)
    requires forall q :: q in inactive ==> q >= bound
    ensures Landing(f, inactive, p, bound) == p
  {
  }

  function InactiveNodes(nodes: Nodes, machines: map<int, Machine>): set<int> {
    set id | id in nodes && nodes[id].machine.Some? && nodes[id].machine.value in machines
             && !machines[nodes[id].machine.value].activo
  }

  /** The first `i` of the inactive nodes are those below `bound`. */
  predicate Passed(ids: seq<int>, i: nat, bound: int) {
    && (forall k :: 0 <= k < i && k < |ids| ==> ids[k] < bound)
    && (forall k :: i <= k < |ids| ==> bound <= ids[k])
  }

  lemma SpliceNext(fetched: Nodes, inactive: set<int>, ids: seq<int>, i: nat, bound: int)
    requires inactive <= fetched.Keys && Lists(ids, inactive) && i < |ids| && Passed(ids, i, bound)
    ensures ids[i] in fetched.Keys && Passed(ids, i + 1, ids[i] + 1)
    ensures Reparented(Spliced(fetched, inactive, bound), ids[i], fetched[ids[i]].parent) - {ids[i]}
         == Spliced(fetched, inactive, ids[i] + 1)
  {
    assert ids[i] in ids;
    NextInactive(ids, inactive, i, bound);
    SplicedStep(fetched, inactive, ids[i], bound);
  }

  lemma SpliceStarts(fetched: Nodes, inactive: set<int>, ids: seq<int>)
    requires inactive <= fetched.Keys && Lists(ids, inactive) && forall id :: id in fetched ==> id > 0
    ensures Passed(ids, 0, 0) && Spliced(fetched, inactive, 0) == fetched
  {
    forall k | 0 <= k < |ids|
      ensures ids[k] > 0
    {
      assert ids[k] in ids;
    }
    forall x | x in fetched {
      NothingSpliced(ParentsOf(fetched), inactive, fetched[x].parent, 0);
    }
  }

  lemma SpliceEnds(fetched: Nodes, inactive: set<int>, ids: seq<int>, bound: int, next: int)
    requires inactive <= fetched.Keys && Lists(ids, inactive) && Passed(ids, |ids|, bound) && bound <= next
    ensures Spliced(fetched, inactive, bound) == Spliced(fetched, inactive, next)
  {
    NextInactive(ids, inactive, |ids|, bound);
    SplicedBeyond(fetched, inactive, bound, next);
  }

  /** The row stands for a machine that is not in use. */
  predicate OutOfUse(n: Node, machines: map<int, Machine>) {
    n.machine.Some? && n.machine.value in machines && !machines[n.machine.value].activo
  }

  /** Exactly the rows of inactive machines go. Every other row keeps its name, company, type and machine, and its
      parent unless that went too; then it moves to the parent of that one if it stayed. */
  ghost predicate Cleared(before: Nodes, machines: map<int, Machine>, after: Nodes) {
    && (forall id :: id in after <==> id in before && !OutOfUse(before[id], machines))
    && (forall id :: id in after ==> after[id] == before[id].(parent := after[id].parent))
    && (forall id :: id in after && (before[id].parent !in before || before[id].parent in after) ==> after[id] == before[id])
    && (forall id :: id in after && before[id].parent in before && before[id].parent !in after ==>
          var up := before[before[id].parent].parent; up in after || up !in before ==> after[id].parent == up)
    && ((forall id :: id in before ==> !OutOfUse(before[id], machines)) ==> after == before)
  }

  lemma SplicedIsCleared(nodes: Nodes, machines: map<int, Machine>, next: int)
    requires UsesIdsBelow(nodes, next)
    ensures Cleared(nodes, machines, Spliced(nodes, InactiveNodes(nodes, machines), next))
  {
    var inactive := InactiveNodes(nodes, machines);
    var out := Spliced(nodes, inactive, next);
    assert forall id :: id in nodes ==> (id in inactive <==> OutOfUse(nodes[id], machines));
    if forall id :: id in nodes ==> !OutOfUse(nodes[id], machines) {
      assert forall id :: id in nodes ==> out[id] == nodes[id];
      assert out == nodes;
    }
  }

  /** `remove_inactive_machine_tree_nodes`: every parent is read from the rows as first fetched. */
  method RemoveInactive(t: AssetTable)
    requires UsesIdsBelow(t.nodes, t.nextId)
    modifies t`nodes
    ensures t.nodes == Spliced(old(t.nodes), InactiveNodes(old(t.nodes), t.machines), t.nextId)
    ensures Cleared(old(t.nodes), t.machines, t.nodes)
  {
    var inactive := InactiveNodes(t.nodes, t.machines);
    var ids := SortedIds(inactive);
    SplicedIsCleared(t.nodes, t.machines, t.nextId);
    assert inactive <= t.nodes.Keys;
    hide *;
    SpliceOut(t, inactive, ids);
  }

  /** The loop. */
  method SpliceOut(t: AssetTable, ghost inactive: set<int>, ids: seq<int>)
    requires UsesIdsBelow(t.nodes, t.nextId) && inactive <= t.nodes.Keys && Lists(ids, inactive)
    modifies t`nodes
    ensures t.nodes == Spliced(old(t.nodes), inactive, t.nextId)
  {
    var fetched := t.nodes;
    ghost var bound, next := 0, t.nextId;
    IdsBelow(fetched, next);
    hide *;
    SpliceStarts(fetched, inactive, ids);
    for i := 0 to |ids|
      invariant Passed(ids, i, bound) && bound <= next
      invariant t.nodes == Spliced(fetched, inactive, bound)
    {
      SpliceNext(fetched, inactive, ids, i, bound);
      t.Reparent(ids[i], fetched[ids[i]].parent);
      t.nodes := t.nodes - {ids[i]};
      bound := ids[i] + 1;
    }
    SpliceEnds(fetched, inactive, ids, bound, next);
  }

  lemma IdsBelow(nodes: Nodes, next: int)
    requires UsesIdsBelow(nodes, next)
    ensures next >= 0 && forall id :: id in nodes.Keys ==> id < next
  {
  }

  lemma NextInactive(ids: seq<int>, inactive: set<int>, i: nat, bound: int)
    requires Lists(ids, inactive) && i <= |ids|
    requires forall k :: 0 <= k < i ==> ids[k] < bound
    ensures i < |ids| ==> forall q :: q in inactive && bound <= q ==> ids[i] <= q
    ensures i == |ids| ==> forall q :: q in inactive ==> q < bound
  {
    forall q | q in inactive
      ensures bound <= q ==> i < |ids| && ids[i] <= q
    {
      var k :| 0 <= k < |ids| && ids[k] == q;
    }
  }

  lemma {:induction false} LandingBeyond(f: Parents, inactive: set<int>, p: int, bound: int, bound': int)
    requires bound <= bound' && forall q :: q in inactive ==> q < bound
    ensures Landing(f, inactive, p, bound) == Landing(f, inactive, p, bound')
    decreases AtLeast(inactive, p)
  {
    if p in inactive && p in f && f[p] in inactive && f[p] > p {
      assert p in AtLeast(inactive, p) && p !in AtLeast(inactive, f[p]);
      LandingBeyond(f, inactive, f[p], bound, bound');
    }
  }

  lemma SplicedBeyond(nodes: Nodes, inactive: set<int>, bound: int, bound': int)
    requires bound <= bound' && forall q :: q in inactive ==> q < bound
    ensures Spliced(nodes, inactive, bound) == Spliced(nodes, inactive, bound')
  {
    forall x | x in nodes {
      LandingBeyond(ParentsOf(nodes), inactive, nodes[x].parent, bound, bound');
    }
  }

  // ---------- When splicing is right ----------

  /** Going up from `p` through inactive nodes, the ids grow. */
  predicate OrderedAbove(f: Parents, inactive: set<int>, p: int)
    decreases AtLeast(inactive, p)
  {
    p in inactive && p in f && f[p] in inactive ==>
      && f[p] > p
      && (assert p in AtLeast(inactive, p) && p !in AtLeast(inactive, f[p]); OrderedAbove(f, inactive, f[p]))
  }

  lemma {:induction false} LandsOnSurvivorIff(f: Parents, inactive: set<int>, p: int, bound: int)
    requires inactive <= f.Keys && forall q :: q in inactive ==> q < bound
    ensures Landing(f, inactive, p, bound) !in inactive <==> OrderedAbove(f, inactive, p)
    decreases AtLeast(inactive, p)
  {
    if p in inactive && f[p] in inactive && f[p] > p {
      assert p in AtLeast(inactive, p) && p !in AtLeast(inactive, f[p]);
      LandsOnSurvivorIff(f, inactive, f[p], bound);
    }
  }

  /** No survivor is left pointing at a removed node exactly when above each of them the ids of inactive
      nodes directly on top of each other grow. */
  lemma NoneLeftDanglingIff(nodes: Nodes, inactive: set<int>, bound: int)
    requires inactive <= nodes.Keys && forall q :: q in inactive ==> q < bound
    ensures var out := Spliced(nodes, inactive, bound);
            (forall x :: x in out ==> out[x].parent !in inactive)
            <==> (forall x :: x in nodes && x !in inactive ==> OrderedAbove(ParentsOf(nodes), inactive, nodes[x].parent))
  {
    var f, out := ParentsOf(nodes), Spliced(nodes, inactive, bound);
    forall x | x in nodes && x !in inactive
      ensures x in out && (out[x].parent !in inactive <==> OrderedAbove(f, inactive, nodes[x].parent))
    {
      LandsOnSurvivorIff(f, inactive, nodes[x].parent, bound);
    }
    hide Landing, OrderedAbove;
    assert forall x :: x in out <==> x in nodes && x !in inactive;
  }

  /** The surviving ancestors of an inactive node are those of the survivor its children land on. */
  lemma {:induction false} LandingKeepsAncestors(f: Parents, inactive: set<int>, p: int, a: int, bound: int, k: nat)
    requires inactive <= f.Keys && (forall q :: q in inactive ==> q < bound)
    requires p in inactive && OrderedAbove(f, inactive, p) && a !in inactive
    ensures var l := Landing(f, inactive, p, bound);
            && (Below(f, p, a) <==> l == a || Below(f, l, a))
            && (BelowWithin(f, p, a, k) ==> k > 0 && (l == a || BelowWithin(f, l, a, k - 1)))
    decreases AtLeast(inactive, p)
  {
    BelowStep(f, p, a);
    if f[p] in inactive {
      assert p in AtLeast(inactive, p) && p !in AtLeast(inactive, f[p]);
      LandingKeepsAncestors(f, inactive, f[p], a, bound, if k > 0 then k - 1 else 0);
      if BelowWithin(f, p, a, k) {
        var l := Landing(f, inactive, p, bound);
        assert l == a || BelowWithin(f, l, a, k - 2);
        if l != a {
          BelowWithinMore(f, l, a, k - 2);
        }
      }
    }
  }

  lemma {:induction false} BelowWithinMore(f: Parents, x: int, a: int, k: nat)
    requires BelowWithin(f, x, a, k)
    ensures BelowWithin(f, x, a, k + 1)
    decreases k
  {
    if f[x] != a {
      BelowWithinMore(f, f[x], a, k - 1);
    }
  }

  ghost predicate AllOrdered(nodes: Nodes, inactive: set<int>) {
    forall x :: x in nodes && x !in inactive ==> OrderedAbove(ParentsOf(nodes), inactive, nodes[x].parent)
  }

  lemma {:induction false} StillBelow(nodes: Nodes, inactive: set<int>, bound: int, x: int, a: int, k: nat)
    requires inactive <= nodes.Keys && (forall q :: q in inactive ==> q < bound) && AllOrdered(nodes, inactive)
    requires x in nodes && x !in inactive && a !in inactive
    requires BelowWithin(ParentsOf(nodes), x, a, k)
    ensures Below(ParentsOf(Spliced(nodes, inactive, bound)), x, a)
    decreases k
  {
    var f, f' := ParentsOf(nodes), ParentsOf(Spliced(nodes, inactive, bound));
    var p, l := nodes[x].parent, Landing(f, inactive, nodes[x].parent, bound);
    assert x in f' && f'[x] == l;
    BelowStep(f', x, a);
    LandsOnSurvivorIff(f, inactive, p, bound);
    if p in inactive {
      LandingKeepsAncestors(f, inactive, p, a, bound, k - 1);
      if l != a {
        StillBelow(nodes, inactive, bound, l, a, k - 2);
      }
    } else if p != a {
      StillBelow(nodes, inactive, bound, p, a, k - 1);
    }
  }

  lemma {:induction false} WasBelow(nodes: Nodes, inactive: set<int>, bound: int, x: int, a: int, k: nat)
    requires inactive <= nodes.Keys && (forall q :: q in inactive ==> q < bound) && AllOrdered(nodes, inactive)
    requires x in nodes && x !in inactive && a !in inactive
    requires BelowWithin(ParentsOf(Spliced(nodes, inactive, bound)), x, a, k)
    ensures Below(ParentsOf(nodes), x, a)
    decreases k
  {
    var f, f' := ParentsOf(nodes), ParentsOf(Spliced(nodes, inactive, bound));
    var p, l := nodes[x].parent, Landing(f, inactive, nodes[x].parent, bound);
    assert x in f' && f'[x] == l;
    BelowStep(f, x, a);
    LandsOnSurvivorIff(f, inactive, p, bound);
    if l != a {
      assert l in f';
      WasBelow(nodes, inactive, bound, l, a, k - 1);
    }
    if p in inactive {
      LandingKeepsAncestors(f, inactive, p, a, bound, 0);
    }
  }

  /** Splicing then keeps the ancestor relation between every two survivors. */
  lemma SplicingKeepsAncestors(nodes: Nodes, inactive: set<int>, bound: int, x: int, a: int)
    requires inactive <= nodes.Keys && (forall q :: q in inactive ==> q < bound) && AllOrdered(nodes, inactive)
    requires x in nodes && x !in inactive && a !in inactive
    ensures Below(ParentsOf(Spliced(nodes, inactive, bound)), x, a) <==> Below(ParentsOf(nodes), x, a)
  {
    var f, f' := ParentsOf(nodes), ParentsOf(Spliced(nodes, inactive, bound));
    if Below(f, x, a) {
      var k: nat :| BelowWithin(f, x, a, k);
      StillBelow(nodes, inactive, bound, x, a, k);
    }
    if Below(f', x, a) {
      var k: nat :| BelowWithin(f', x, a, k);
      WasBelow(nodes, inactive, bound, x, a, k);
    }
  }

  /** Each survivor is below the same ids as before: surviving nodes, and the reference that ends the walk. */
  ghost predicate AncestorsKept(f: Parents, f': Parents, inactive: set<int>) {
    forall x, a :: x in f && x !in inactive && a !in inactive ==> (Below(f', x, a) <==> Below(f, x, a))
  }

  lemma {:induction false} EndOfWalk(f: Parents, x: int, k: nat) returns (last: int)
    requires x in f && EndsWithin(f, x, k)
    ensures last !in f && Below(f, x, last)
    decreases k
  {
    last := f[x];
    if f[x] in f {
      last := EndOfWalk(f, f[x], k - 1);
    }
    BelowStep(f, x, last);
  }

  /** In an acyclic forest splicing keeps every ancestor relation exactly when the ids grow; otherwise some
      survivor loses the end of its walk. */
  lemma SplicingKeepsAncestorsIff(nodes: Nodes, inactive: set<int>, bound: int)
    requires inactive <= nodes.Keys && (forall q :: q in inactive ==> q < bound) && Acyclic(ParentsOf(nodes))
    ensures AncestorsKept(ParentsOf(nodes), ParentsOf(Spliced(nodes, inactive, bound)), inactive)
            <==> AllOrdered(nodes, inactive)
  {
    var f, f' := ParentsOf(nodes), ParentsOf(Spliced(nodes, inactive, bound));
    if AllOrdered(nodes, inactive) {
      forall x, a | x in f && x !in inactive && a !in inactive
        ensures Below(f', x, a) <==> Below(f, x, a)
      {
        SplicingKeepsAncestors(nodes, inactive, bound, x, a);
      }
    }
    if AncestorsKept(f, f', inactive) {
      forall x | x in nodes && x !in inactive
        ensures OrderedAbove(f, inactive, nodes[x].parent)
      {
        var k: nat :| EndsWithin(f, x, k);
        var last := EndOfWalk(f, x, k);
        assert Below(f', x, last);
        BelowStep(f', x, last);
        LandsOnSurvivorIff(f, inactive, nodes[x].parent, bound);
      }
    }
  }

  /** It is enough that no inactive node is the direct parent of another. */
  lemma NoInactiveParentIsOrdered(nodes: Nodes, inactive: set<int>)
    requires inactive <= nodes.Keys && forall q :: q in inactive ==> nodes[q].parent !in inactive
    ensures AllOrdered(nodes, inactive)
  {
  }

  /** An inactive machine below an older inactive one: its child is left pointing at a removed node. */
  lemma SplicingCanDangle()
    ensures var nodes: Nodes := map[1 := Node("A", 1, MachineFolder, NO_PARENT, Some(1)), 2 := Node("B", 1, MachineFolder, 1, Some(2)),
                                    3 := Node("x", 1, GroupFolder, 2, None)];
            var machines := map[1 := Machine("A", 1, false), 2 := Machine("B", 1, false)];
            var out := Spliced(nodes, InactiveNodes(nodes, machines), 4);
            UsesIdsBelow(nodes, 4) && 3 in out && out[3].parent == 1 && 1 !in out
  {
    var nodes: Nodes := map[1 := Node("A", 1, MachineFolder, NO_PARENT, Some(1)), 2 := Node("B", 1, MachineFolder, 1, Some(2)),
                            3 := Node("x", 1, GroupFolder, 2, None)];
    var machines := map[1 := Machine("A", 1, false), 2 := Machine("B", 1, false)];
    assert InactiveNodes(nodes, machines) == {1, 2};
  }
}
