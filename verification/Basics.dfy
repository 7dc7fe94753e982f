/** Small shared definitions. */
module Basics {

  datatype Option<+T> = None | Some(value: T)

  predicate Distinct<T(==)>(s: seq<T>) {
    forall i, j :: 0 <= i < j < |s| ==> s[i] != s[j]
  }

  /** A member of a set that is not empty. */
  lemma Member<T>(s: set<T>) returns (x: T)
    requires s != {}
    ensures x in s
  {
    assert |s| > 0;
    x :| x in s;
  }

  /** The members with a property, in order. */
  function Filter<T>(s: seq<T>, keep: T -> bool): seq<T> {
    if s == [] then [] else (if keep(s[0]) then [s[0]] else []) + Filter(s[1..], keep)
  }

  lemma {:induction false} FilterLast<T>(s: seq<T>, keep: T -> bool)
    requires s != []
    ensures var n := |s| - 1;
            Filter(s, keep) == Filter(s[..n], keep) + (if keep(s[n]) then [s[n]] else [])
  {
    if |s| > 1 {
      var n := |s| - 1;
      FilterLast(s[1..], keep);
      assert s[1..][..n - 1] == s[..n][1..];
    } else {
      assert s[1..] == [] && s[..0] == [];
    }
  }

  /** The parts of the members, one after the other. */
  function FlatMap<A, B>(s: seq<A>, part: A -> seq<B>): seq<B> {
    if s == [] then [] else part(s[0]) + FlatMap(s[1..], part)
  }

  lemma {:induction false} FlatMapLast<A, B>(s: seq<A>, part: A -> seq<B>)
    requires s != []
    ensures FlatMap(s, part) == FlatMap(s[..|s| - 1], part) + part(s[|s| - 1])
  {
    if |s| > 1 {
      var n := |s| - 1;
      FlatMapLast(s[1..], part);
      assert s[1..][..n - 1] == s[..n][1..];
    } else {
      assert s[1..] == [] && s[..0] == [];
    }
  }
}
