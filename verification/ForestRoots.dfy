/** Putting the roots of a forest in order: some are merged into others, and some are added. What was not
    one of those roots keeps its place, and whatever the merging of other nodes does to it.
  */
module ForestRoots {
  import opened Forest
  import opened ForestContraction

  /** `x` keeps its parent, or moves from one root to another. */
  predicate KeepsPlace(f: Parents, g: Parents, roots: set<int>, x: int)
    requires x in f && x in g
  {
    || (g[x] == f[x] && (f[x] in g <==> f[x] in f))
    || (f[x] in roots && g[x] in g && (g[x] in roots || g[x] !in f))
  }

  /** `g` is `f` with some of its roots merged into others and with further roots. */
  predicate RootsMerged(f: Parents, g: Parents, roots: set<int>) {
    && NO_PARENT !in f && NO_PARENT !in g
    && (forall r :: r in roots ==> r in f && f[r] == NO_PARENT)
    && (forall x :: x in f && x !in roots ==> x in g && KeepsPlace(f, g, roots, x))
    && (forall x :: x in g && (x in roots || x !in f) ==> g[x] == NO_PARENT)
  }

  lemma {:induction false} SameWalk(f: Parents, g: Parents, roots: set<int>, x: int, k: nat)
    requires RootsMerged(f, g, roots) && (x in f <==> x in g)
    ensures EndsWithin(g, x, k) <==> EndsWithin(f, x, k)
    ensures RootedWithin(g, x, k) <==> RootedWithin(f, x, k)
    decreases k
  {
    if x in f && x !in roots && k > 0 {
      if f[x] == g[x] {
        SameWalk(f, g, roots, f[x], k - 1);
      } else {
        AtRoot(f, f[x], k - 1);
        AtRoot(g, g[x], k - 1);
      }
    }
  }

  lemma AtRoot(f: Parents, r: int, k: nat)
    requires NO_PARENT !in f && r in f && f[r] == NO_PARENT
    ensures EndsWithin(f, r, k) <==> k > 0
    ensures RootedWithin(f, r, k)
  {
  }

  lemma {:induction false} SameAncestors(f: Parents, g: Parents, roots: set<int>, x: int, a: int, k: nat)
    requires RootsMerged(f, g, roots) && (x in f <==> x in g) && a in f && a !in roots
    ensures BelowWithin(g, x, a, k) <==> BelowWithin(f, x, a, k)
    decreases k
  {
    if x in f && k > 0 {
      if x !in roots && f[x] == g[x] {
        SameAncestors(f, g, roots, f[x], a, k - 1);
      } else if x !in roots {
        NothingAboveRoot(f, f[x], a, k - 1);
        NothingAboveRoot(g, g[x], a, k - 1);
      } else {
        NothingAboveRoot(f, x, a, k);
        NothingAboveRoot(g, x, a, k);
      }
    }
  }

  lemma NothingAboveRoot(f: Parents, r: int, a: int, k: nat)
    requires NO_PARENT !in f && r in f && f[r] == NO_PARENT && a != NO_PARENT
    ensures !BelowWithin(f, r, a, k)
  {
  }

  /** Walks end, reach a root, and pass by any node other than a merged root, as they did. */
  lemma SamePlaces(f: Parents, g: Parents, roots: set<int>, x: int)
    requires RootsMerged(f, g, roots) && (x in f <==> x in g)
    ensures Ends(g, x) <==> Ends(f, x)
    ensures Rooted(g, x) <==> Rooted(f, x)
    ensures forall a :: a in f && a !in roots ==> (Below(g, x, a) <==> Below(f, x, a))
  {
    forall k: nat
      ensures EndsWithin(g, x, k) <==> EndsWithin(f, x, k)
      ensures RootedWithin(g, x, k) <==> RootedWithin(f, x, k)
    {
      SameWalk(f, g, roots, x, k);
    }
    Transfer(f, g, x);
    Transfer(g, f, x);
    forall a | a in f && a !in roots
      ensures Below(g, x, a) <==> Below(f, x, a)
    {
      forall k: nat
        ensures BelowWithin(g, x, a, k) <==> BelowWithin(f, x, a, k)
      {
        SameAncestors(f, g, roots, x, a, k);
      }
    }
  }

  lemma Transfer(f: Parents, g: Parents, x: int)
    requires forall k: nat :: EndsWithin(g, x, k) <==> EndsWithin(f, x, k)
    requires forall k: nat :: RootedWithin(g, x, k) <==> RootedWithin(f, x, k)
    ensures Ends(f, x) ==> Ends(g, x)
    ensures Rooted(f, x) ==> Rooted(g, x)
  {
    if Ends(f, x) {
      var k: nat :| EndsWithin(f, x, k);
      assert EndsWithin(g, x, k);
    }
    if Rooted(f, x) {
      var k: nat :| RootedWithin(f, x, k);
      assert RootedWithin(g, x, k);
    }
  }

  lemma StaysAcyclic(f: Parents, g: Parents, roots: set<int>)
    requires RootsMerged(f, g, roots) && Acyclic(f)
    ensures Acyclic(g)
  {
    forall x | x in g
      ensures Ends(g, x)
    {
      if x in f {
        SamePlaces(f, g, roots, x);
      } else {
        assert EndsWithin(g, x, 1);
      }
    }
  }

  lemma SameChildren(f: Parents, g: Parents, roots: set<int>, to: map<int, int>, d: int)
    requires RootsMerged(f, g, roots) && d in f && d !in roots && forall e :: e in to ==> e in f && e !in roots
    ensures HasChild(g, d) <==> HasChild(f, d)
    ensures HasSurvivingChild(g, to, d) <==> HasSurvivingChild(f, to, d)
  {
    forall x
      ensures x in g && g[x] == d <==> x in f && f[x] == d
    {
    }
    assert HasChild(g, d) ==> HasChild(f, d) by {
      if x :| x in g && g[x] == d {
        assert x in f && f[x] == d;
      }
    }
    if HasSurvivingChild(g, to, d) {
      var x :| x in g && x !in to && g[x] == d;
      assert x in f && f[x] == d;
    }
  }

  // ---------- Merges of other nodes ----------

  /** Merges between nodes that are none of the roots. */
  predicate MergesApart(f: Parents, to: map<int, int>, roots: set<int>) {
    forall d :: d in to ==> d in f && d !in roots && to[d] in f && to[d] !in roots && to[d] !in to
  }

  lemma MergesBoth(f: Parents, g: Parents, roots: set<int>, to: map<int, int>)
    requires RootsMerged(f, g, roots) && MergesApart(f, to, roots)
    ensures Merges(f, to) && Merges(g, to)
  {
    forall d | d in to
      ensures d in g && to[d] in g
    {
      var e := to[d];
      assert e in f && e !in roots;
    }
  }

  lemma SameSeparation(f: Parents, g: Parents, roots: set<int>, to: map<int, int>)
    requires RootsMerged(f, g, roots) && MergesApart(f, to, roots) && Separate(f, to)
    ensures Separate(g, to)
  {
    forall d, e | d in to && e in to
      ensures !Below(g, to[d], e) && !Below(g, d, e)
    {
      SamePlaces(f, g, roots, to[d]);
      SamePlaces(f, g, roots, d);
    }
  }

  /** No survivor loses its root in `h`, counted from `f` or from `g`: the roots do not matter. */
  lemma SameRootsKept(f: Parents, g: Parents, roots: set<int>, to: map<int, int>)
    requires RootsMerged(f, g, roots) && MergesApart(f, to, roots)
    ensures RootsKept(f, Redirect(g, to)) <==> RootsKept(g, Redirect(g, to))
  {
    var h := Redirect(g, to);
    forall x | x in h && x !in f
      ensures Rooted(h, x)
    {
      assert g[x] == NO_PARENT;
      assert NO_PARENT !in to;
      assert RootedWithin(h, x, 0);
    }
    forall x | x in f && x in g
      ensures Rooted(g, x) <==> Rooted(f, x)
    {
      SamePlaces(f, g, roots, x);
    }
    hide Rooted;
  }

  lemma SameDuplicatesRooted(f: Parents, g: Parents, roots: set<int>, to: map<int, int>)
    requires RootsMerged(f, g, roots) && MergesApart(f, to, roots)
    ensures DuplicatesRooted(g, to) <==> DuplicatesRooted(f, to)
  {
    forall d | d in to
      ensures Rooted(g, d) <==> Rooted(f, d)
      ensures Rooted(g, to[d]) <==> Rooted(f, to[d])
      ensures HasChild(g, d) <==> HasChild(f, d)
    {
      SamePlaces(f, g, roots, d);
      SamePlaces(f, g, roots, to[d]);
      SameChildren(f, g, roots, to, d);
    }
    hide Rooted, HasChild;
  }

  lemma {:induction false} SameFirstAbove(f: Parents, g: Parents, roots: set<int>, to: map<int, int>, x: int, k: nat)
    requires RootsMerged(f, g, roots) && MergesApart(f, to, roots) && (x in f <==> x in g)
    ensures FirstAbove(g, to, x, k) == FirstAbove(f, to, x, k)
    decreases k
  {
    if x in f && x !in roots && k > 0 {
      if f[x] == g[x] {
        SameFirstAbove(f, g, roots, to, f[x], k - 1);
      } else {
        NoneAboveRoot(f, to, f[x], k - 1);
        NoneAboveRoot(g, to, g[x], k - 1);
      }
    } else if x in f && k > 0 {
      NoneAboveRoot(f, to, x, k);
      NoneAboveRoot(g, to, x, k);
    }
  }

  lemma NoneAboveRoot(f: Parents, to: map<int, int>, r: int, k: nat)
    requires NO_PARENT !in f && NO_PARENT !in to && r in f && f[r] == NO_PARENT
    ensures FirstAbove(f, to, r, k) == NO_PARENT
  {
  }

  lemma SameNearest(f: Parents, g: Parents, roots: set<int>, to: map<int, int>, x: int)
    requires RootsMerged(f, g, roots) && MergesApart(f, to, roots) && x in f && x in g && Ends(f, x)
    ensures Ends(g, x) && Nearest(g, to, x) == Nearest(f, to, x)
  {
    SamePlaces(f, g, roots, x);
    var j: nat :| EndsWithin(f, x, j) && Nearest(f, to, x) == FirstAbove(f, to, x, j);
    var k: nat :| EndsWithin(g, x, k) && Nearest(g, to, x) == FirstAbove(g, to, x, k);
    SameFirstAbove(f, g, roots, to, x, k);
    SameWalk(f, g, roots, x, k);
    assert to.Keys <= f.Keys by {
      assert forall d :: d in to.Keys ==> d in f.Keys;
    }
    FirstAboveIsStable(f, to, x, j, k);
  }

  lemma SameContraction(f: Parents, g: Parents, roots: set<int>, to: map<int, int>)
    requires RootsMerged(f, g, roots) && MergesApart(f, to, roots) && Acyclic(f)
    ensures Merges(f, to) && Merges(g, to) && Acyclic(g)
    ensures Contracted(g, to) == Contracted(f, to)
  {
    MergesBoth(f, g, roots, to);
    StaysAcyclic(f, g, roots);
    forall d | d in to
      ensures Nearest(g, to, to[d]) == Nearest(f, to, to[d])
    {
      SameNearest(f, g, roots, to, to[d]);
    }
  }

  lemma {:induction false} SameLeading(f: Parents, g: Parents, roots: set<int>, to: map<int, int>, d: int, k: nat)
    requires RootsMerged(f, g, roots) && MergesApart(f, to, roots)
    requires Merges(f, to) && Merges(g, to) && Acyclic(f) && Acyclic(g)
    ensures LeadsToRootWithin(g, to, d, k) <==> LeadsToRootWithin(f, to, d, k)
    decreases k
  {
    if k > 0 && d in to {
      SameNearest(f, g, roots, to, to[d]);
      SamePlaces(f, g, roots, to[d]);
      if Nearest(f, to, to[d]) != NO_PARENT {
        SameLeading(f, g, roots, to, Nearest(f, to, to[d]), k - 1);
      }
    }
  }

  lemma SameDuplicatesLead(f: Parents, g: Parents, roots: set<int>, to: map<int, int>)
    requires RootsMerged(f, g, roots) && MergesApart(f, to, roots)
    requires Merges(f, to) && Merges(g, to) && Acyclic(f) && Acyclic(g)
    ensures DuplicatesLeadToRoot(g, to) <==> DuplicatesLeadToRoot(f, to)
  {
    forall d | d in to
      ensures Rooted(g, d) <==> Rooted(f, d)
      ensures HasSurvivingChild(g, to, d) <==> HasSurvivingChild(f, to, d)
      ensures LeadsToRoot(g, to, d) <==> LeadsToRoot(f, to, d)
    {
      SamePlaces(f, g, roots, d);
      SameChildren(f, g, roots, to, d);
      forall k: nat
        ensures LeadsToRootWithin(g, to, d, k) <==> LeadsToRootWithin(f, to, d, k)
      {
        SameLeading(f, g, roots, to, d, k);
      }
      hide LeadsToRootWithin, Rooted, HasSurvivingChild;
    }
    hide LeadsToRoot, Rooted, HasSurvivingChild;
  }
}
