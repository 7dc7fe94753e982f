/** Forests of parent pointers: a finite map from each node to its parent. A parent that is not a node
    ends the walk upwards: `NO_PARENT` for a root, or a reference left dangling.
  */
module Forest {

  const NO_PARENT := -1

  type Parents = map<int, int>

  // ---------- Walking up ----------

  /** The walk up from `x` leaves the forest after at most `k` nodes. */
  predicate EndsWithin(f: Parents, x: int, k: nat)
    decreases k
  {
    x !in f || (k > 0 && EndsWithin(f, f[x], k - 1))
  }

  ghost predicate Ends(f: Parents, x: int) {
    exists k: nat :: EndsWithin(f, x, k)
  }

  /** No walk up goes on for ever. */
  ghost predicate Acyclic(f: Parents) {
    forall x :: x in f ==> Ends(f, x)
  }

  /** The walk up from `x` reaches a root. */
  predicate RootedWithin(f: Parents, x: int, k: nat)
    decreases k
  {
    x in f && (f[x] == NO_PARENT || (k > 0 && RootedWithin(f, f[x], k - 1)))
  }

  ghost predicate Rooted(f: Parents, x: int) {
    exists k: nat :: RootedWithin(f, x, k)
  }

  /** `a` is met after at most `k` steps up from `x`. */
  predicate BelowWithin(f: Parents, x: int, a: int, k: nat)
    decreases k
  {
    k > 0 && x in f && (f[x] == a || BelowWithin(f, f[x], a, k - 1))
  }

  /** `a` is a proper ancestor of `x`. */
  ghost predicate Below(f: Parents, x: int, a: int) {
    exists k: nat :: BelowWithin(f, x, a, k)
  }

  lemma EndsStep(f: Parents, x: int)
    requires x in f
    ensures Ends(f, x) <==> Ends(f, f[x])
  {
    if Ends(f, f[x]) {
      var k: nat :| EndsWithin(f, f[x], k);
      assert EndsWithin(f, x, k + 1);
    }
    if Ends(f, x) {
      var k: nat :| EndsWithin(f, x, k);
      assert EndsWithin(f, f[x], k - 1);
    }
  }

  lemma RootedStep(f: Parents, x: int)
    requires x in f && f[x] != NO_PARENT
    ensures Rooted(f, x) <==> Rooted(f, f[x])
  {
    if Rooted(f, f[x]) {
      var k: nat :| RootedWithin(f, f[x], k);
      assert RootedWithin(f, x, k + 1);
    }
    if Rooted(f, x) {
      var k: nat :| RootedWithin(f, x, k);
      assert RootedWithin(f, f[x], k - 1);
    }
  }

  lemma BelowStep(f: Parents, x: int, a: int)
    requires x in f
    ensures Below(f, x, a) <==> f[x] == a || Below(f, f[x], a)
  {
    if Below(f, f[x], a) {
      var k: nat :| BelowWithin(f, f[x], a, k);
      assert BelowWithin(f, x, a, k + 1);
    }
    if f[x] == a {
      assert BelowWithin(f, x, a, 1);
    } else if Below(f, x, a) {
      var k: nat :| BelowWithin(f, x, a, k);
      assert BelowWithin(f, f[x], a, k - 1);
    }
  }

  lemma {:induction false} BelowIsTransitive(f: Parents, x: int, y: int, a: int, k: nat)
    requires BelowWithin(f, x, y, k) && Below(f, y, a)
    ensures Below(f, x, a)
    decreases k
  {
    BelowStep(f, x, a);
    if f[x] != y {
      BelowIsTransitive(f, f[x], y, a, k - 1);
    }
  }

  /** Ancestors of a rooted node are rooted. */
  lemma {:induction false} AncestorIsRooted(f: Parents, x: int, a: int, k: nat)
    requires NO_PARENT !in f && BelowWithin(f, x, a, k) && a in f && Rooted(f, x)
    ensures Rooted(f, a)
    decreases k
  {
    if f[x] != NO_PARENT {
      RootedStep(f, x);
      if f[x] != a {
        AncestorIsRooted(f, f[x], a, k - 1);
      }
    }
  }

  /** A node that is its own ancestor is on a walk that never ends. */
  lemma {:induction false} CycleNeverEnds(f: Parents, x: int, k: nat)
    requires Below(f, x, x) && x in f
    ensures !EndsWithin(f, x, k)
    decreases k
  {
    if EndsWithin(f, x, k) {
      var j: nat :| BelowWithin(f, x, x, j);
      var k' := StepsLeft(f, x, x, j, k);
      CycleNeverEnds(f, x, k');
    }
  }

  lemma {:induction false} StepsLeft(f: Parents, x: int, a: int, j: nat, k: nat) returns (k': nat)
    requires BelowWithin(f, x, a, j) && EndsWithin(f, x, k)
    ensures k' < k && EndsWithin(f, a, k')
    decreases k
  {
    if f[x] == a {
      k' := k - 1;
    } else {
      k' := StepsLeft(f, f[x], a, j - 1, k - 1);
    }
  }

  /** In an acyclic forest no node is its own ancestor. */
  lemma AcyclicHasNoCycle(f: Parents, x: int)
    requires Acyclic(f) && x in f
    ensures !Below(f, x, x)
  {
    if Below(f, x, x) {
      var k: nat :| EndsWithin(f, x, k);
      CycleNeverEnds(f, x, k);
    }
  }

  // ---------- Merging nodes away ----------

  /** Every node in `to` is removed and its children move to the node it is merged into. */
  function Redirect(f: Parents, to: map<int, int>): Parents {
    map x | x in f && x !in to :: if f[x] in to then to[f[x]] else f[x]
  }

  /** Merges go between nodes of the forest, and never into a node that is itself removed. */
  predicate Merges(f: Parents, to: map<int, int>) {
    && NO_PARENT !in f
    && (forall d :: d in to ==> d in f && to[d] in f && to[d] !in to)
  }

  lemma {:induction false} RedirectRemoves(f: Parents, to: map<int, int>)
    requires to.Keys <= f.Keys
    ensures |Redirect(f, to)| == |f| - |to|
  {
    assert Redirect(f, to).Keys == f.Keys - to.Keys;
    assert |f.Keys - to.Keys| == |f.Keys| - |f.Keys * to.Keys|;
    assert f.Keys * to.Keys == to.Keys;
  }

  /** A survivor that is below no removed node walks up as before. */
  lemma {:induction false} UntouchedWalk(f: Parents, to: map<int, int>, x: int, k: nat)
    requires Merges(f, to) && x !in to && forall d :: d in to ==> !Below(f, x, d)
    ensures EndsWithin(Redirect(f, to), x, k) <==> EndsWithin(f, x, k)
    ensures RootedWithin(Redirect(f, to), x, k) <==> RootedWithin(f, x, k)
    decreases k
  {
    if x in f {
      forall d | d in to
        ensures f[x] != d && !Below(f, f[x], d)
      {
        BelowStep(f, x, d);
      }
      if k > 0 {
        UntouchedWalk(f, to, f[x], k - 1);
      }
    }
  }

  lemma Untouched(f: Parents, to: map<int, int>, x: int)
    requires Merges(f, to) && x !in to && forall d :: d in to ==> !Below(f, x, d)
    ensures Ends(Redirect(f, to), x) <==> Ends(f, x)
    ensures Rooted(Redirect(f, to), x) <==> Rooted(f, x)
  {
    var f' := Redirect(f, to);
    if Ends(f, x) {
      var k: nat :| EndsWithin(f, x, k);
      UntouchedWalk(f, to, x, k);
    }
    if Ends(f', x) {
      var k: nat :| EndsWithin(f', x, k);
      UntouchedWalk(f, to, x, k);
    }
    if Rooted(f, x) {
      var k: nat :| RootedWithin(f, x, k);
      UntouchedWalk(f, to, x, k);
    }
    if Rooted(f', x) {
      var k: nat :| RootedWithin(f', x, k);
      UntouchedWalk(f, to, x, k);
    }
  }

  /** The nodes that removed nodes merge into are below no removed node. */
  ghost predicate TargetsClear(f: Parents, to: map<int, int>) {
    forall d, e :: d in to && e in to ==> !Below(f, to[d], e)
  }

  lemma {:induction false} MergedWalkEnds(f: Parents, to: map<int, int>, x: int, k: nat)
    requires Merges(f, to) && Acyclic(f) && TargetsClear(f, to)
    requires x !in to && EndsWithin(f, x, k)
    ensures Ends(Redirect(f, to), x)
    decreases k
  {
    var f' := Redirect(f, to);
    if x !in f {
      assert EndsWithin(f', x, 0);
    } else {
      EndsStep(f', x);
      if f[x] in to {
        Untouched(f, to, to[f[x]]);
      } else {
        MergedWalkEnds(f, to, f[x], k - 1);
      }
    }
  }

  /** Merging keeps the forest acyclic when no target lies below a removed node. */
  lemma MergingKeepsAcyclic(f: Parents, to: map<int, int>)
    requires Merges(f, to) && Acyclic(f) && TargetsClear(f, to)
    ensures Acyclic(Redirect(f, to))
  {
    forall x | x in Redirect(f, to)
      ensures Ends(Redirect(f, to), x)
    {
      var k: nat :| EndsWithin(f, x, k);
      MergedWalkEnds(f, to, x, k);
    }
  }

  /** The path from `keep` up to its ancestor `d` turns into a cycle when `d` is merged into `keep`. */
  lemma {:induction false} PathBecomesCycle(f: Parents, d: int, keep: int, x: int, k: nat)
    requires Acyclic(f) && d in f && x in f && x != d && BelowWithin(f, x, d, k)
    ensures Below(Redirect(f, map[d := keep]), x, keep)
    decreases k
  {
    var f' := Redirect(f, map[d := keep]);
    BelowStep(f', x, keep);
    if f[x] != d {
      PathBecomesCycle(f, d, keep, f[x], k - 1);
    }
  }

  /** Merging one node into another keeps an acyclic forest acyclic exactly when the node kept is not
      below the node removed. */
  lemma MergingOneIsAcyclicIff(f: Parents, d: int, keep: int)
    requires NO_PARENT !in f && Acyclic(f) && d in f && keep in f && d != keep
    ensures Acyclic(Redirect(f, map[d := keep])) <==> !Below(f, keep, d)
  {
    var to := map[d := keep];
    if Below(f, keep, d) {
      var k: nat :| BelowWithin(f, keep, d, k);
      PathBecomesCycle(f, d, keep, keep, k);
      if Acyclic(Redirect(f, to)) {
        AcyclicHasNoCycle(Redirect(f, to), keep);
      }
    } else {
      MergingKeepsAcyclic(f, to);
    }
  }

  /** A survivor below a removed node `d` ends up rooted exactly when the node `d` merged into is. */
  lemma {:induction false} RootedThroughTarget(f: Parents, to: map<int, int>, x: int, d: int, k: nat)
    requires Merges(f, to) && TargetsClear(f, to)
    requires forall e, e' :: e in to && e' in to ==> !Below(f, e, e')
    requires d in to && x !in to && BelowWithin(f, x, d, k)
    ensures Rooted(Redirect(f, to), x) <==> Rooted(f, to[d])
    decreases k
  {
    var f' := Redirect(f, to);
    RootedStep(f', x);
    if f[x] == d {
      Untouched(f, to, to[d]);
    } else {
      assert f[x] !in to by {
        assert Below(f, f[x], d);
      }
      RootedThroughTarget(f, to, f[x], d, k - 1);
    }
  }

  /** Removed nodes are not nested, and neither lies above a target. */
  ghost predicate Separate(f: Parents, to: map<int, int>) {
    TargetsClear(f, to) && forall e, e' :: e in to && e' in to ==> !Below(f, e, e')
  }

  predicate HasChild(f: Parents, d: int) {
    exists x :: x in f && f[x] == d
  }

  /** The child of `d` on the way up from `x`. */
  lemma {:induction false} ChildOnTheWay(f: Parents, x: int, d: int, k: nat) returns (c: int)
    requires BelowWithin(f, x, d, k)
    ensures c in f && f[c] == d
    decreases k
  {
    if f[x] == d {
      c := x;
    } else {
      c := ChildOnTheWay(f, f[x], d, k - 1);
    }
  }

  /** Every duplicate with children that reached a root is merged into a node that does. */
  ghost predicate DuplicatesRooted(f: Parents, to: map<int, int>) {
    forall d :: d in to && Rooted(f, d) && HasChild(f, d) ==> to[d] in f && Rooted(f, to[d])
  }

  /** Nothing of `f` that is still there in `g` lost its root. */
  ghost predicate RootsKept(f: Parents, g: Parents) {
    forall x :: x in f && x in g && Rooted(f, x) ==> Rooted(g, x)
  }

  /** Merging leaves every survivor that reached a root connected to one exactly when each rooted node
      with children is merged into a rooted node. */
  lemma MergingKeepsRootedIff(f: Parents, to: map<int, int>)
    requires Merges(f, to) && Separate(f, to)
    ensures RootsKept(f, Redirect(f, to)) <==> DuplicatesRooted(f, to)
  {
    var f' := Redirect(f, to);
    if forall d :: d in to && Rooted(f, d) && HasChild(f, d) ==> Rooted(f, to[d]) {
      forall x | x in f && x !in to && Rooted(f, x)
        ensures Rooted(f', x)
      {
        if d :| d in to && Below(f, x, d) {
          var k: nat :| BelowWithin(f, x, d, k);
          AncestorIsRooted(f, x, d, k);
          var c := ChildOnTheWay(f, x, d, k);
          RootedThroughTarget(f, to, x, d, k);
        } else {
          Untouched(f, to, x);
        }
      }
    }
    if forall x :: x in f && x !in to && Rooted(f, x) ==> Rooted(f', x) {
      forall d | d in to && Rooted(f, d) && HasChild(f, d)
        ensures Rooted(f, to[d])
      {
        var c :| c in f && f[c] == d;
        assert BelowWithin(f, c, d, 1);
        assert Below(f, c, d);
        RootedStep(f, c);
        RootedThroughTarget(f, to, c, d, 1);
      }
    }
  }
}
