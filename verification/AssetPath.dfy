/** The asset-tree path shown for a machine. */
module AssetPath {
  import opened Basics
  import opened Forest
  import opened AssetNodes
  import opened AssetTree
  import opened OrderedIds

  /** A walk up from `p`: each id is a node and the next one is its parent. */
  predicate IsWalk(nodes: Nodes, p: int, ids: seq<int>) {
    && (forall i :: 0 <= i < |ids| ==> ids[i] in nodes)
    && (ids != [] ==> ids[0] == p)
    && (forall i :: 0 < i < |ids| ==> ids[i] == nodes[ids[i - 1]].parent)
  }

  /** Where the walk goes next. */
  function NextOf(nodes: Nodes, p: int, ids: seq<int>): int
    requires IsWalk(nodes, p, ids)
  {
    if ids == [] then p else nodes[ids[|ids| - 1]].parent
  }

  function Names(nodes: Nodes, ids: seq<int>): (names: seq<string>)
    requires forall i :: 0 <= i < |ids| ==> ids[i] in nodes
    ensures |names| == |ids| && forall i :: 0 <= i < |ids| ==> names[i] == nodes[ids[i]].nombre
  {
    seq(|ids|, i requires 0 <= i < |ids| => nodes[ids[i]].nombre)
  }

  function Reversed(s: seq<string>): (r: seq<string>)
    ensures |r| == |s| && forall i :: 0 <= i < |s| ==> r[i] == s[|s| - 1 - i]
  {
    if s == [] then [] else Reversed(s[1..]) + [s[0]]
  }

  /** `' / '.join(parts)` */
  function JoinPath(parts: seq<string>): string {
    if parts == [] then ""
    else if |parts| == 1 then parts[0]
    else parts[0] + " / " + JoinPath(parts[1..])
  }

  /** The loop of `get_ubicacion_activo`. It stops on every table, cyclic or dangling: at the end of the
      tree, at a missing row, or at a row already visited. */
  method WalkUp(nodes: Nodes, start: int) returns (parts: seq<string>, ghost ids: seq<int>)
    ensures IsWalk(nodes, start, ids) && Distinct(ids) && NO_PARENT !in ids
    ensures parts == Names(nodes, ids)
    ensures var next := NextOf(nodes, start, ids); next == NO_PARENT || next !in nodes || next in ids
  {
    parts, ids := [], [];
    var parent := start;
    var visited: set<int> := {};
    while parent != NO_PARENT && parent !in visited
      invariant IsWalk(nodes, start, ids) && Distinct(ids) && NO_PARENT !in ids
      invariant parts == Names(nodes, ids)
      invariant parent == NextOf(nodes, start, ids)
      invariant visited == (set id | id in ids)
      decreases nodes.Keys - visited
    {
      visited := visited + {parent};
      if parent !in nodes {
        break;
      }
      parts := parts + [nodes[parent].nombre];
      ids := ids + [parent];
      parent := nodes[parent].parent;
    }
  }

  function OfCompany(nodes: Nodes, c: int): Nodes {
    map id | id in nodes && nodes[id].compania == c :: nodes[id]
  }

  // ---------- On a tree the path is the whole line of ancestors ----------

  lemma {:induction false} WalkGoesUp(nodes: Nodes, start: int, ids: seq<int>, i: nat, j: nat)
    requires IsWalk(nodes, start, ids) && i < j <= |ids|
    ensures Below(ParentsOf(nodes), ids[i], if j < |ids| then ids[j] else NextOf(nodes, start, ids))
    decreases j - i
  {
    var f := ParentsOf(nodes);
    var target := if j < |ids| then ids[j] else NextOf(nodes, start, ids);
    BelowStep(f, ids[i], target);
    if i + 1 < j {
      WalkGoesUp(nodes, start, ids, i + 1, j);
      assert ids[i + 1] == nodes[ids[i]].parent;
    }
  }

  lemma EndingWalkDoesNotReturn(nodes: Nodes, start: int, ids: seq<int>)
    requires IsWalk(nodes, start, ids) && Ends(ParentsOf(nodes), start)
    ensures NextOf(nodes, start, ids) !in ids
  {
    var f, next := ParentsOf(nodes), NextOf(nodes, start, ids);
    if i: nat :| i < |ids| && ids[i] == next {
      WalkGoesUp(nodes, start, ids, i, |ids|);
      WalkEnds(nodes, start, ids, i);
      var k: nat :| EndsWithin(f, ids[i], k);
      CycleNeverEnds(f, ids[i], k);
    }
  }

  lemma {:induction false} WalkEnds(nodes: Nodes, start: int, ids: seq<int>, i: nat)
    requires IsWalk(nodes, start, ids) && Ends(ParentsOf(nodes), start) && i < |ids|
    ensures Ends(ParentsOf(nodes), ids[i])
  {
    if i > 0 {
      WalkEnds(nodes, start, ids, i - 1);
      EndsStep(ParentsOf(nodes), ids[i - 1]);
      assert ids[i] == nodes[ids[i - 1]].parent;
    }
  }

  /** A complete walk lists exactly the rows at or above its start. */
  lemma {:induction false} WalkIsAncestors(nodes: Nodes, start: int, ids: seq<int>, a: int)
    requires IsWalk(nodes, start, ids) && NO_PARENT !in nodes && a in nodes
    requires NextOf(nodes, start, ids) !in nodes
    ensures a in ids <==> a == start || Below(ParentsOf(nodes), start, a)
    decreases |ids|
  {
    var f := ParentsOf(nodes);
    if ids == [] {
      assert forall k: nat :: !BelowWithin(f, start, a, k);
    } else {
      var rest := ids[1..];
      BelowStep(f, start, a);
      assert ids == [start] + rest;
      assert rest != [] ==> rest[0] == ids[1] == nodes[ids[0]].parent;
      assert IsWalk(nodes, nodes[start].parent, rest) by {
        forall i | 0 < i < |rest|
          ensures rest[i] == nodes[rest[i - 1]].parent
        {
          assert rest[i] == ids[i + 1] && rest[i - 1] == ids[i];
        }
      }
      WalkIsAncestors(nodes, nodes[start].parent, rest, a);
    }
  }

  lemma AllAncestors(nodes: Nodes, start: int, ids: seq<int>)
    requires NO_PARENT !in nodes && IsWalk(nodes, start, ids) && Ends(ParentsOf(nodes), start)
    requires var next := NextOf(nodes, start, ids); next == NO_PARENT || next !in nodes || next in ids
    ensures forall a :: a in ids <==> IsAncestor(nodes, start, a)
  {
    EndingWalkDoesNotReturn(nodes, start, ids);
    forall a
      ensures a in ids <==> IsAncestor(nodes, start, a)
    {
      if a in nodes {
        WalkIsAncestors(nodes, start, ids, a);
      }
    }
  }

  // ---------- How the path reads ----------

  /** The text of a path whose rows are listed from below. */
  function PathText(nodes: Nodes, ids: seq<int>): string
    requires forall i :: 0 <= i < |ids| ==> ids[i] in nodes
  {
    JoinPath(Reversed(Names(nodes, ids)))
  }

  lemma {:induction false} JoinLast(parts: seq<string>, last: string)
    ensures JoinPath(parts + [last]) == if parts == [] then last else JoinPath(parts) + " / " + last
  {
    if parts == [] {
      assert parts + [last] == [last];
    } else {
      JoinLast(parts[1..], last);
      assert (parts + [last])[1..] == parts[1..] + [last];
      if |parts| > 1 {
        assert parts[0] + " / " + (JoinPath(parts[1..]) + " / " + last) == (parts[0] + " / " + JoinPath(parts[1..])) + " / " + last;
      } else {
        assert (parts + [last])[1..] == [last];
      }
    }
  }

  /** Nothing above: empty. Otherwise the path of the parent's parent, a slash between spaces, and the parent's name. */
  lemma PathByParents(nodes: Nodes, ids: seq<int>)
    requires forall i :: 0 <= i < |ids| ==> ids[i] in nodes
    ensures ids == [] ==> PathText(nodes, ids) == ""
    ensures |ids| == 1 ==> PathText(nodes, ids) == nodes[ids[0]].nombre
    ensures |ids| > 1 ==> PathText(nodes, ids) == PathText(nodes, ids[1..]) + " / " + nodes[ids[0]].nombre
  {
    if ids != [] {
      var names := Names(nodes, ids);
      assert names[1..] == Names(nodes, ids[1..]);
      JoinLast(Reversed(names[1..]), names[0]);
    }
  }

  /** The proper ancestors of a node whose parent is `p`. */
  ghost predicate IsAncestor(nodes: Nodes, p: int, a: int) {
    a in nodes && (a == p || Below(ParentsOf(nodes), p, a))
  }

  /** The walk ends at the top, at a row that is missing or belongs to another company, or where it has been. */
  predicate StopsAt(nodes: Nodes, c: int, start: int, ids: seq<int>)
    requires forall i :: 0 <= i < |ids| ==> ids[i] in nodes
  {
    var next := if ids == [] then start else nodes[ids[|ids| - 1]].parent;
    next == NO_PARENT || next !in nodes || nodes[next].compania != c || next in ids
  }

  /** `get_ubicacion_activo`: the path of the oldest node of a machine, within its company, from the top
      down. Where the parents come to an end it names exactly the ancestors of that node. */
  method AssetLocation(t: AssetTable, m: int) returns (location: string, ghost node: int, ghost ids: seq<int>)
    requires m in t.machines
    ensures Copies(t.nodes, m) == {} ==> location == ""
    ensures Copies(t.nodes, m) != {} ==>
              var own := OfCompany(t.nodes, t.machines[m].empresa);
              && node in Copies(t.nodes, m) && (forall o :: o in Copies(t.nodes, m) ==> node <= o)
              && IsWalk(own, t.nodes[node].parent, ids) && Distinct(ids)
              && location == PathText(own, ids)
              && (forall id :: id in ids ==> id in t.nodes && t.nodes[id].compania == t.machines[m].empresa)
              && StopsAt(t.nodes, t.machines[m].empresa, t.nodes[node].parent, ids)
              && (NO_PARENT !in t.nodes && Ends(ParentsOf(own), t.nodes[node].parent) ==>
                    forall a :: a in ids <==> IsAncestor(own, t.nodes[node].parent, a))
  {
    var copies := SortedIds(Copies(t.nodes, m));
    if copies == [] {
      assert forall x :: x in Copies(t.nodes, m) ==> x in copies;
      return "", 0, [];
    }
    var oldest := copies[0];
    node := oldest;
    assert oldest in copies;
    forall o | o in Copies(t.nodes, m)
      ensures oldest <= o
    {
      var k :| 0 <= k < |copies| && copies[k] == o;
    }
    var own := OfCompany(t.nodes, t.machines[m].empresa);
    var parts;
    parts, ids := WalkUp(own, t.nodes[oldest].parent);
    if NO_PARENT !in t.nodes && Ends(ParentsOf(own), t.nodes[node].parent) {
      AllAncestors(own, t.nodes[node].parent, ids);
    }
    location := JoinPath(Reversed(parts));
  }
}
