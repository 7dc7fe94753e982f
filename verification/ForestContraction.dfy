/** When merging many nodes of a forest at once makes a cycle. Each removed node leads to the node it is
    merged into, and from there up to the next removed node: the merges as a forest of their own.
  */
module ForestContraction {
  import opened Forest

  /** The first node of `to` above `x`, within `k` steps; `NO_PARENT` if there is none. */
  function FirstAbove(f: Parents, to: map<int, int>, x: int, k: nat): int
    decreases k
  {
    if x !in f || k == 0 then NO_PARENT
    else if f[x] in to then f[x]
    else FirstAbove(f, to, f[x], k - 1)
  }

  lemma {:induction false} FirstAboveIsStable(f: Parents, to: map<int, int>, x: int, j: nat, k: nat)
    requires to.Keys <= f.Keys && EndsWithin(f, x, j) && EndsWithin(f, x, k)
    ensures FirstAbove(f, to, x, j) == FirstAbove(f, to, x, k)
    decreases k
  {
    if x in f && f[x] !in to {
      FirstAboveIsStable(f, to, f[x], j - 1, k - 1);
    }
  }

  /** The removed node nearest above `x`. */
  ghost function Nearest(f: Parents, to: map<int, int>, x: int): int
    requires Ends(f, x)
  {
    var k: nat :| EndsWithin(f, x, k);
    FirstAbove(f, to, x, k)
  }

  lemma NearestStep(f: Parents, to: map<int, int>, x: int)
    requires to.Keys <= f.Keys && x in f && Ends(f, x)
    ensures Ends(f, f[x])
    ensures Nearest(f, to, x) == if f[x] in to then f[x] else Nearest(f, to, f[x])
  {
    EndsStep(f, x);
    var j: nat :| EndsWithin(f, x, j) && Nearest(f, to, x) == FirstAbove(f, to, x, j);
    var k: nat :| EndsWithin(f, f[x], k) && Nearest(f, to, f[x]) == FirstAbove(f, to, f[x], k);
    FirstAboveIsStable(f, to, x, j, k + 1);
  }

  /** It is a removed ancestor with every other removed ancestor above it, if there is any at all. */
  lemma {:induction false} NearestIs(f: Parents, to: map<int, int>, x: int, k: nat)
    requires NO_PARENT !in f && to.Keys <= f.Keys && EndsWithin(f, x, k)
    ensures var e := Nearest(f, to, x);
            if e == NO_PARENT then forall d :: d in to ==> !Below(f, x, d)
            else e in to && Below(f, x, e) && forall d :: d in to && Below(f, x, d) ==> d == e || Below(f, e, d)
    decreases k
  {
    if x in f {
      NearestStep(f, to, x);
      NearestIs(f, to, f[x], k - 1);
      BelowStep(f, x, Nearest(f, to, x));
      forall d | d in to
        ensures Below(f, x, d) <==> f[x] == d || Below(f, f[x], d)
      {
        BelowStep(f, x, d);
      }
    }
  }

  /** The merges as a forest: from each removed node to the removed node nearest above its target. */
  ghost function Contracted(f: Parents, to: map<int, int>): Parents
    requires Merges(f, to) && Acyclic(f)
  {
    map d | d in to :: Nearest(f, to, to[d])
  }

  lemma {:induction false} EndsLater(f: Parents, x: int, k: nat)
    requires EndsWithin(f, x, k)
    ensures EndsWithin(f, x, k + 1)
    decreases k
  {
    if x in f {
      EndsLater(f, f[x], k - 1);
    }
  }

  /** After merging, the walk up from a survivor goes on from the target of the nearest removed node. */
  lemma {:induction false} WalkToNearest(f: Parents, to: map<int, int>, x: int, k: nat)
    requires Merges(f, to) && x !in to && EndsWithin(f, x, k)
    ensures var e, g := Nearest(f, to, x), Redirect(f, to);
            if e == NO_PARENT then Ends(g, x)
            else
              && e in to && (Ends(g, to[e]) ==> Ends(g, x))
              && forall j: nat :: EndsWithin(g, x, j) ==> j > 0 && EndsWithin(g, to[e], j - 1)
    decreases k
  {
    var g := Redirect(f, to);
    assert to.Keys <= f.Keys by {
      assert forall d :: d in to.Keys ==> d in f.Keys;
    }
    if x !in f {
      assert EndsWithin(g, x, 0);
    } else {
      NearestStep(f, to, x);
      EndsStep(g, x);
      if f[x] !in to {
        WalkToNearest(f, to, f[x], k - 1);
        var e := Nearest(f, to, x);
        if e != NO_PARENT {
          forall j: nat | EndsWithin(g, x, j)
            ensures j > 0 && EndsWithin(g, to[e], j - 1)
          {
            var i: nat := j - 1;
            assert EndsWithin(g, f[x], i);
            EndsLater(g, to[e], i - 1);
          }
        }
      }
    }
  }

  lemma {:induction false} ContractedWalkEnds(f: Parents, to: map<int, int>, d: int, k: nat)
    requires Merges(f, to) && Acyclic(f) && d in to && EndsWithin(Contracted(f, to), d, k)
    ensures Ends(Redirect(f, to), to[d])
    decreases k
  {
    var j: nat :| EndsWithin(f, to[d], j);
    WalkToNearest(f, to, to[d], j);
    var e := Nearest(f, to, to[d]);
    if e != NO_PARENT {
      ContractedWalkEnds(f, to, e, k - 1);
    }
  }

  lemma {:induction false} MergedWalkContracts(f: Parents, to: map<int, int>, d: int, j: nat)
    requires Merges(f, to) && Acyclic(f) && d in to && EndsWithin(Redirect(f, to), to[d], j)
    ensures Ends(Contracted(f, to), d)
    decreases j
  {
    var k: nat :| EndsWithin(f, to[d], k);
    WalkToNearest(f, to, to[d], k);
    var e, c := Nearest(f, to, to[d]), Contracted(f, to);
    EndsStep(c, d);
    if e == NO_PARENT {
      assert EndsWithin(c, e, 0);
    } else {
      MergedWalkContracts(f, to, e, j - 1);
    }
  }

  /** Merging any set of nodes keeps an acyclic forest acyclic exactly when the merges themselves form no
      cycle. */
  lemma MergingIsAcyclicIff(f: Parents, to: map<int, int>)
    requires Merges(f, to) && Acyclic(f)
    ensures Acyclic(Redirect(f, to)) <==> Acyclic(Contracted(f, to))
  {
    var g, c := Redirect(f, to), Contracted(f, to);
    if Acyclic(g) {
      forall d | d in c
        ensures Ends(c, d)
      {
        var j: nat :| EndsWithin(g, to[d], j);
        MergedWalkContracts(f, to, d, j);
      }
    }
    if Acyclic(c) {
      forall x | x in g
        ensures Ends(g, x)
      {
        var k: nat :| EndsWithin(f, x, k);
        WalkToNearest(f, to, x, k);
        var e := Nearest(f, to, x);
        if e != NO_PARENT {
          var j: nat :| EndsWithin(c, e, j);
          ContractedWalkEnds(f, to, e, j);
        }
      }
    }
  }

  // ---------- Which survivors still reach a root ----------

  /** Following the merges from `d`, the last target reaches a root without meeting a removed node. */
  ghost predicate LeadsToRootWithin(f: Parents, to: map<int, int>, d: int, k: nat)
    requires Merges(f, to) && Acyclic(f)
    decreases k
  {
    k > 0 && d in to
    && var e := Nearest(f, to, to[d]);
       if e == NO_PARENT then Rooted(f, to[d]) else LeadsToRootWithin(f, to, e, k - 1)
  }

  ghost predicate LeadsToRoot(f: Parents, to: map<int, int>, d: int)
    requires Merges(f, to) && Acyclic(f)
  {
    exists k: nat :: LeadsToRootWithin(f, to, d, k)
  }

  predicate HasSurvivingChild(f: Parents, to: map<int, int>, d: int) {
    exists x :: x in f && x !in to && f[x] == d
  }

  /** Every duplicate that reached a root and has a surviving child leads to a root through its merge. */
  ghost predicate DuplicatesLeadToRoot(f: Parents, to: map<int, int>)
    requires Merges(f, to) && Acyclic(f)
  {
    forall d :: d in to && Rooted(f, d) && HasSurvivingChild(f, to, d) ==> LeadsToRoot(f, to, d)
  }

  lemma {:induction false} RootedLater(f: Parents, x: int, k: nat)
    requires RootedWithin(f, x, k)
    ensures RootedWithin(f, x, k + 1)
    decreases k
  {
    if f[x] != NO_PARENT {
      RootedLater(f, f[x], k - 1);
    }
  }

  /** A survivor below no removed node is rooted as before. */
  lemma RootedFreely(f: Parents, to: map<int, int>, x: int)
    requires Merges(f, to) && Acyclic(f) && x in f && x !in to && Nearest(f, to, x) == NO_PARENT
    ensures Rooted(Redirect(f, to), x) <==> Rooted(f, x)
  {
    var k: nat :| EndsWithin(f, x, k);
    assert to.Keys <= f.Keys by {
      assert forall d :: d in to.Keys ==> d in f.Keys;
    }
    NearestIs(f, to, x, k);
    Untouched(f, to, x);
  }

  /** Any other survivor is rooted exactly when the target of the nearest removed node is. */
  lemma {:induction false} RootedToNearest(f: Parents, to: map<int, int>, x: int, k: nat)
    requires Merges(f, to) && x in f && x !in to && EndsWithin(f, x, k) && Nearest(f, to, x) != NO_PARENT
    ensures var e, g := Nearest(f, to, x), Redirect(f, to);
            && e in to && HasSurvivingChild(f, to, e) && (Rooted(f, x) ==> Rooted(f, e))
            && (Rooted(g, to[e]) ==> Rooted(g, x))
            && forall j: nat :: RootedWithin(g, x, j) ==> j > 0 && RootedWithin(g, to[e], j - 1)
    decreases k
  {
    var g := Redirect(f, to);
    assert to.Keys <= f.Keys by {
      assert forall d :: d in to.Keys ==> d in f.Keys;
    }
    NearestStep(f, to, x);
    var e := Nearest(f, to, x);
    assert f[x] in f;
    RootedStep(f, x);
    RootedStep(g, x);
    if f[x] !in to {
      RootedToNearest(f, to, f[x], k - 1);
      forall j: nat | RootedWithin(g, x, j)
        ensures j > 0 && RootedWithin(g, to[e], j - 1)
      {
        var i: nat := j - 1;
        assert RootedWithin(g, f[x], i);
        RootedLater(g, to[e], i - 1);
      }
    }
  }

  lemma {:induction false} LeadingIsRooted(f: Parents, to: map<int, int>, d: int, k: nat)
    requires Merges(f, to) && Acyclic(f) && LeadsToRootWithin(f, to, d, k)
    ensures Rooted(Redirect(f, to), to[d])
    decreases k
  {
    var e := Nearest(f, to, to[d]);
    if e == NO_PARENT {
      RootedFreely(f, to, to[d]);
    } else {
      LeadingIsRooted(f, to, e, k - 1);
      var j: nat :| EndsWithin(f, to[d], j);
      RootedToNearest(f, to, to[d], j);
    }
  }

  lemma {:induction false} RootedIsLeading(f: Parents, to: map<int, int>, d: int, j: nat)
    requires Merges(f, to) && Acyclic(f) && d in to && RootedWithin(Redirect(f, to), to[d], j)
    ensures LeadsToRoot(f, to, d)
    decreases j
  {
    var e := Nearest(f, to, to[d]);
    if e == NO_PARENT {
      RootedFreely(f, to, to[d]);
      assert LeadsToRootWithin(f, to, d, 1);
    } else {
      var k: nat :| EndsWithin(f, to[d], k);
      RootedToNearest(f, to, to[d], k);
      RootedIsLeading(f, to, e, j - 1);
      var i: nat :| LeadsToRootWithin(f, to, e, i);
      assert LeadsToRootWithin(f, to, d, i + 1);
    }
  }

  /** Merging any set of nodes leaves every survivor that reached a root connected to one exactly when
      each removed node that matters leads to a root. */
  lemma MergingKeepsRootsIff(f: Parents, to: map<int, int>)
    requires Merges(f, to) && Acyclic(f)
    ensures RootsKept(f, Redirect(f, to)) <==> DuplicatesLeadToRoot(f, to)
  {
    var g := Redirect(f, to);
    if RootsKept(f, g) {
      forall d | d in to && Rooted(f, d) && HasSurvivingChild(f, to, d)
        ensures LeadsToRoot(f, to, d)
      {
        var x :| x in f && x !in to && f[x] == d;
        RootedStep(f, x);
        RootedStep(g, x);
        assert x in g && Rooted(g, x);
        var j: nat :| RootedWithin(g, to[d], j);
        RootedIsLeading(f, to, d, j);
      }
    }
    if DuplicatesLeadToRoot(f, to) {
      forall x | x in f && x in g && Rooted(f, x)
        ensures Rooted(g, x)
      {
        var e := Nearest(f, to, x);
        if e == NO_PARENT {
          RootedFreely(f, to, x);
        } else {
          var k: nat :| EndsWithin(f, x, k);
          RootedToNearest(f, to, x, k);
          var j: nat :| LeadsToRootWithin(f, to, e, j);
          LeadingIsRooted(f, to, e, j);
        }
      }
    }
  }
}
