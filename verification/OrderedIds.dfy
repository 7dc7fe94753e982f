/** Ids in increasing order, as `order_by('id')` returns them. */
module OrderedIds {
  import opened Basics

  predicate Increasing(ids: seq<int>) {
    forall i, j :: 0 <= i < j < |ids| ==> ids[i] < ids[j]
  }

  lemma IncreasingAppend(ids: seq<int>, x: int)
    requires Increasing(ids) && forall y :: y in ids ==> y < x
    ensures Increasing(ids + [x])
  {
    assert forall i :: 0 <= i < |ids| ==> ids[i] in ids;
  }

  /** The members of a set in increasing order. */
  predicate Lists(ids: seq<int>, s: set<int>) {
    Increasing(ids) && (forall x :: x in ids ==> x in s) && (forall x :: x in s ==> x in ids)
  }

  lemma ListsAppend(ids: seq<int>, s: set<int>, x: int)
    requires Lists(ids, s) && forall y :: y in s ==> y < x
    ensures Lists(ids + [x], s + {x})
  {
    IncreasingAppend(ids, x);
  }

  lemma ListsPrefix(ids: seq<int>, s: set<int>)
    requires Lists(ids, s) && ids != []
    ensures var last := ids[|ids| - 1];
            && last in s && Lists(ids[..|ids| - 1], s - {last})
            && forall y :: y in s - {last} ==> y < last
  {
    var last := ids[|ids| - 1];
    assert ids == ids[..|ids| - 1] + [last];
    assert last in ids;
    forall k | 0 <= k < |ids| - 1
      ensures ids[k] in ids && ids[k] < last
    {
    }
  }

  lemma {:induction false} ListsCount(ids: seq<int>, s: set<int>)
    requires Lists(ids, s)
    ensures |ids| == |s|
  {
    if ids == [] {
      assert forall x :: x !in s;
    } else {
      ListsPrefix(ids, s);
      ListsCount(ids[..|ids| - 1], s - {ids[|ids| - 1]});
    }
  }

  /** A set has only one such list. */
  lemma {:induction false} ListsUnique(a: seq<int>, b: seq<int>, s: set<int>)
    requires Lists(a, s) && Lists(b, s)
    ensures a == b
    decreases |a|
  {
    ListsCount(a, s);
    ListsCount(b, s);
    if a != [] {
      ListsPrefix(a, s);
      ListsPrefix(b, s);
      var n := |a| - 1;
      assert a == a[..n] + [a[n]] && b == b[..n] + [b[n]];
      ListsUnique(a[..n], b[..n], s - {a[n]});
    }
  }

  lemma {:induction false} SortedExists(s: set<int>) returns (ids: seq<int>)
    ensures Lists(ids, s)
    decreases |s|
  {
    if s == {} {
      ids := [];
    } else {
      var least := LeastExists(s);
      var rest := SortedExists(s - {least});
      ids := [least] + rest;
      assert forall x :: x in ids <==> x == least || x in rest;
      assert forall k :: 0 < k < |ids| ==> ids[k] == rest[k - 1] && rest[k - 1] in rest;
    }
  }

  lemma HasList(s: set<int>)
    ensures exists ids :: Lists(ids, s)
  {
    var ids := SortedExists(s);
  }

  /** The members of a set in increasing order. */
  ghost function Sorted(s: set<int>): (ids: seq<int>)
    ensures Lists(ids, s)
  {
    HasList(s);
    var ids :| Lists(ids, s);
    ids
  }

  lemma DistinctOne(s: seq<int>, x: int)
    requires Distinct(s) && forall y :: y in s <==> y == x
    ensures s == [x]
  {
    assert x in s;
    var last := |s| - 1;
    assert s[0] in s && s[last] in s;
  }

  method Least(s: set<int>) returns (least: int)
    requires s != {}
    ensures least in s && forall x :: x in s ==> least <= x
  {
    ghost var member := Member(s);
    least :| least in s;
    var todo := s - {least};
    while todo != {}
      invariant todo <= s && least in s
      invariant forall x :: x in s ==> x in todo || least <= x
      decreases todo
    {
      member := Member(todo);
      var x :| x in todo;
      if x < least {
        least := x;
      }
      todo := todo - {x};
    }
  }

  /** `order_by('id')` */
  method SortedIds(s: set<int>) returns (ids: seq<int>)
    ensures Lists(ids, s) && |ids| == |s|
  {
    ids := [];
    var todo := s;
    while todo != {}
      invariant todo <= s && |ids| + |todo| == |s|
      invariant Increasing(ids)
      invariant forall x :: x in s <==> x in ids || x in todo
      invariant forall x, y :: x in ids && y in todo ==> x < y
      decreases todo
    {
      var x := Least(todo);
      IncreasingAppend(ids, x);
      ids, todo := ids + [x], todo - {x};
    }
  }

  lemma {:induction false} LeastExists(s: set<int>) returns (least: int)
    requires s != {}
    ensures least in s && forall x :: x in s ==> least <= x
    decreases |s|
  {
    var x := Member(s);
    least := x;
    if s != {x} {
      var rest := s - {x};
      assert s == {x} + rest;
      var y := LeastExists(rest);
      least := if x <= y then x else y;
      assert forall z :: z in s ==> z == x || z in rest;
    }
  }

  lemma HasLeast(s: set<int>)
    requires s != {}
    ensures exists least :: least in s && forall x :: x in s ==> least <= x
  {
    var least := LeastExists(s);
  }

  ghost function LeastOf(s: set<int>): (least: int)
    requires s != {}
    ensures least in s && forall x :: x in s ==> least <= x
  {
    HasLeast(s);
    var least :| least in s && forall x :: x in s ==> least <= x;
    least
  }
}
