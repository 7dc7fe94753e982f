/** Rows of the asset tree, and what its maintenance operations make of them. */
module AssetNodes {
  import opened Basics
  import opened Forest
  import opened ForestRoots
  import opened OrderedIds

  datatype FolderType = RootFolder | GroupFolder | MachineFolder | OtherFolder(name: string)

  /** One row; `parent` is the id in `id_parent_node`, `NO_PARENT` standing for '-1'. */
  datatype Node = Node(nombre: string, compania: int, tipo: FolderType, parent: int, machine: Option<int>)

  datatype Machine = Machine(nombre: string, empresa: int, activo: bool)

  type Nodes = map<int, Node>

  function ParentsOf(nodes: Nodes): Parents {
    map id | id in nodes :: nodes[id].parent
  }

  predicate IsRoot(n: Node) {
    n.tipo == RootFolder && n.parent == NO_PARENT
  }

  function RootIds(nodes: Nodes, c: int): set<int> {
    set id | id in nodes && IsRoot(nodes[id]) && nodes[id].compania == c
  }

  /** Rows are removed and their children move, as `Forest.Redirect` does for parents. */
  function RedirectNodes(nodes: Nodes, to: map<int, int>): Nodes {
    map id | id in nodes && id !in to ::
      if nodes[id].parent in to then nodes[id].(parent := to[nodes[id].parent]) else nodes[id]
  }

  lemma NothingRedirected(nodes: Nodes, to: map<int, int>)
    requires forall d :: d !in to
    ensures RedirectNodes(nodes, to) == nodes
  {
    var out := RedirectNodes(nodes, to);
    assert forall id :: id in out <==> id in nodes;
    assert forall id :: id in nodes ==> out[id] == nodes[id];
  }

  lemma RedirectParents(nodes: Nodes, to: map<int, int>)
    ensures ParentsOf(RedirectNodes(nodes, to)) == Redirect(ParentsOf(nodes), to)
  {
  }

  /** One more merge on top of others that neither remove nor use its node. */
  lemma RedirectMore(nodes: Nodes, to: map<int, int>, d: int, keep: int)
    requires d !in to && keep !in to && d != keep && forall e :: e in to ==> to[e] != d
    ensures RedirectNodes(RedirectNodes(nodes, to), map[d := keep]) == RedirectNodes(nodes, to[d := keep])
  {
  }

  // ---------- The root of a company ----------

  function RootMerge(nodes: Nodes, c: int, root: int): map<int, int> {
    map d | d in RootIds(nodes, c) && d != root :: root
  }

  function Relabelled(nodes: Nodes, root: int, nombre: string): Nodes
    requires root in nodes
  {
    nodes[root := nodes[root].(nombre := nombre)]
  }

  /** What `ensure_company_root` leaves, `root` being the row it keeps or creates. */
  function EnsureRoot(nodes: Nodes, c: int, nombre: string, root: int): Nodes {
    if root in RootIds(nodes, c) then Relabelled(RedirectNodes(nodes, RootMerge(nodes, c, root)), root, nombre)
    else nodes[root := Node(nombre, c, RootFolder, NO_PARENT, None)]
  }

  /** `root` is the oldest root of the company or, when it has none, an id that nothing refers to. */
  predicate RootChoice(nodes: Nodes, c: int, root: int) {
    if RootIds(nodes, c) == {} then root !in nodes && root != NO_PARENT && forall id :: id in nodes ==> nodes[id].parent != root
    else root in RootIds(nodes, c) && forall r :: r in RootIds(nodes, c) ==> root <= r
  }

  /** A company root other than the kept one is not in the result. */
  lemma OtherRootsGone(nodes: Nodes, c: int, nombre: string, root: int, id: int)
    requires NO_PARENT !in nodes && RootChoice(nodes, c, root) && id in RootIds(nodes, c) && id != root
    ensures root in RootIds(nodes, c) && id !in EnsureRoot(nodes, c, nombre, root)
  {
    assert RootIds(nodes, c) != {};
    assert id in RootMerge(nodes, c, root);
  }

  /** Any other row stays, and keeps its parent unless that was a removed root. */
  lemma OtherRowsStay(nodes: Nodes, c: int, nombre: string, root: int, id: int)
    requires NO_PARENT !in nodes && RootChoice(nodes, c, root) && id in nodes && id !in RootIds(nodes, c)
    ensures var out := EnsureRoot(nodes, c, nombre, root);
            && id in out && id != root && out[id] == nodes[id].(parent := out[id].parent)
            && out[id].parent == (if nodes[id].parent in RootMerge(nodes, c, root) then root else nodes[id].parent)
            && (IsRoot(out[id]) <==> IsRoot(nodes[id]))
  {
  }

  lemma KeptRoot(nodes: Nodes, c: int, nombre: string, root: int)
    requires NO_PARENT !in nodes && RootChoice(nodes, c, root)
    ensures var out := EnsureRoot(nodes, c, nombre, root);
            && root in out && IsRoot(out[root]) && out[root].compania == c && out[root].nombre == nombre
            && (if root in RootIds(nodes, c) then out[root] == nodes[root].(nombre := nombre)
                else root !in nodes && out[root] == Node(nombre, c, RootFolder, NO_PARENT, None))
            && forall id :: id in out ==> id in nodes || id == root
  {
  }

  /** The company has exactly one root, with its name; other rows are kept, moved only from a removed root. */
  lemma EnsureRootResult(nodes: Nodes, c: int, nombre: string, root: int)
    requires NO_PARENT !in nodes && RootChoice(nodes, c, root)
    ensures var out := EnsureRoot(nodes, c, nombre, root);
            && RootIds(out, c) == {root} && out[root].nombre == nombre
            && (forall c' :: c' != c ==> RootIds(out, c') == RootIds(nodes, c'))
            && (forall id :: id in nodes && id !in RootIds(nodes, c) ==>
                               id in out && out[id] == nodes[id].(parent := out[id].parent)
                               && (out[id].parent == nodes[id].parent
                                   || (nodes[id].parent in RootIds(nodes, c) && out[id].parent == root)))
            && forall id :: id in out ==> id in nodes || id == root
  {
    var out := EnsureRoot(nodes, c, nombre, root);
    KeptRoot(nodes, c, nombre, root);
    forall id | id in RootIds(nodes, c) && id != root
      ensures id !in out
    {
      OtherRootsGone(nodes, c, nombre, root, id);
    }
    forall id | id in nodes && id !in RootIds(nodes, c)
      ensures id in out && id != root && out[id] == nodes[id].(parent := out[id].parent)
      ensures out[id].parent == nodes[id].parent || (nodes[id].parent in RootIds(nodes, c) && out[id].parent == root)
      ensures IsRoot(out[id]) <==> IsRoot(nodes[id])
    {
      OtherRowsStay(nodes, c, nombre, root, id);
    }
    hide EnsureRoot, RootChoice;
  }

  /** Nothing changes exactly if the company already has its one root, named after it. */
  lemma EnsureRootIdleIff(nodes: Nodes, c: int, nombre: string, root: int)
    requires NO_PARENT !in nodes && RootChoice(nodes, c, root)
    ensures EnsureRoot(nodes, c, nombre, root) == nodes <==> RootIds(nodes, c) == {root} && nodes[root].nombre == nombre
  {
    EnsureRootResult(nodes, c, nombre, root);
    if RootIds(nodes, c) == {root} && nodes[root].nombre == nombre {
      NothingRedirected(nodes, RootMerge(nodes, c, root));
    }
  }

  /** A second call finds the root it needs and changes nothing. */
  lemma EnsureRootTwice(nodes: Nodes, c: int, nombre: string, root: int, again: int)
    requires NO_PARENT !in nodes && RootChoice(nodes, c, root)
    requires RootChoice(EnsureRoot(nodes, c, nombre, root), c, again)
    ensures again == root
    ensures EnsureRoot(EnsureRoot(nodes, c, nombre, root), c, nombre, again) == EnsureRoot(nodes, c, nombre, root)
  {
    var out := EnsureRoot(nodes, c, nombre, root);
    EnsureRootResult(nodes, c, nombre, root);
    assert root in RootIds(out, c) && NO_PARENT !in out;
    hide EnsureRoot;
    EnsureRootIdleIff(out, c, nombre, again);
  }

  // ---------- What ensuring roots does to the forest ----------

  function AllRoots(nodes: Nodes): set<int> {
    set id | id in nodes && IsRoot(nodes[id])
  }

  /** A row that is no root stays where it is, or moves from one root to another. */
  predicate KeepsRow(n0: Nodes, n1: Nodes, id: int)
    requires id in n0 && id in n1
  {
    var p, q := n0[id].parent, n1[id].parent;
    && n1[id] == n0[id].(parent := q)
    && ((p == q && (q in n1 <==> p in n0)) || (p in n0 && IsRoot(n0[p]) && q in n1 && IsRoot(n1[q])))
  }

  /** Roots may be merged, renamed and created; no other row is lost, and it moves from root to root only. */
  predicate RootsEnsured(n0: Nodes, n1: Nodes) {
    && (forall id :: id in n0 && !IsRoot(n0[id]) ==> id in n1 && KeepsRow(n0, n1, id))
    && (forall id :: id in n1 && id in n0 && IsRoot(n0[id]) ==> IsRoot(n1[id]) && n1[id].machine == n0[id].machine)
    && (forall id :: id in n1 && id !in n0 ==> IsRoot(n1[id]) && n1[id].machine.None?)
  }

  lemma RootsEnsuredForest(n0: Nodes, n1: Nodes)
    requires NO_PARENT !in n0 && NO_PARENT !in n1 && RootsEnsured(n0, n1)
    ensures RootsMerged(ParentsOf(n0), ParentsOf(n1), AllRoots(n0))
  {
    var f, g, roots := ParentsOf(n0), ParentsOf(n1), AllRoots(n0);
    forall x | x in f && x !in roots
      ensures x in g && KeepsPlace(f, g, roots, x)
    {
      assert KeepsRow(n0, n1, x);
      var q := n1[x].parent;
      assert q in n0 && !IsRoot(n0[q]) ==> KeepsRow(n0, n1, q);
    }
  }

  /** Ensuring a root keeps one row as a table `n0` from before had it. */
  lemma EnsureRootKeepsRow(n0: Nodes, nodes: Nodes, c: int, nombre: string, root: int, id: int)
    requires NO_PARENT !in nodes && RootChoice(nodes, c, root) && RootsEnsured(n0, nodes)
    requires root in nodes || (root !in n0 && forall id :: id in n0 ==> n0[id].parent != root)
    requires id in n0 && !IsRoot(n0[id])
    ensures var out := EnsureRoot(nodes, c, nombre, root); id in out && KeepsRow(n0, out, id)
  {
    var out := EnsureRoot(nodes, c, nombre, root);
    assert KeepsRow(n0, nodes, id) && !IsRoot(nodes[id]);
    KeptRoot(nodes, c, nombre, root);
    OtherRowsStay(nodes, c, nombre, root, id);
    var p := nodes[id].parent;
    if p in nodes && p !in RootIds(nodes, c) {
      OtherRowsStay(nodes, c, nombre, root, p);
    }
    hide EnsureRoot, RootChoice, RootsEnsured;
  }

  /** Ensuring a root keeps rows as a table `n0` from before had them; new ids are new to `n0` as well. */
  lemma EnsureRootKeepsRows(n0: Nodes, nodes: Nodes, c: int, nombre: string, root: int)
    requires NO_PARENT !in nodes && RootChoice(nodes, c, root) && RootsEnsured(n0, nodes)
    requires root in nodes || (root !in n0 && forall id :: id in n0 ==> n0[id].parent != root)
    ensures RootsEnsured(n0, EnsureRoot(nodes, c, nombre, root))
  {
    var out := EnsureRoot(nodes, c, nombre, root);
    forall id | id in n0 && !IsRoot(n0[id])
      ensures id in out && KeepsRow(n0, out, id)
    {
      EnsureRootKeepsRow(n0, nodes, c, nombre, root, id);
    }
    KeptRoot(nodes, c, nombre, root);
    forall id | id in nodes && id !in RootIds(nodes, c)
      ensures id in out && out[id] == nodes[id].(parent := out[id].parent) && (IsRoot(out[id]) <==> IsRoot(nodes[id]))
    {
      OtherRowsStay(nodes, c, nombre, root, id);
    }
    forall id | id in RootIds(nodes, c) && id != root
      ensures id !in out
    {
      OtherRootsGone(nodes, c, nombre, root, id);
    }
    hide EnsureRoot, RootChoice, KeepsRow;
  }

  /** Every row that stays keeps its depth, and is rooted exactly if it was. */
  lemma EnsureRootKeepsDepth(nodes: Nodes, c: int, nombre: string, root: int, x: int, k: nat)
    requires NO_PARENT !in nodes && RootChoice(nodes, c, root)
    requires x in nodes && x in EnsureRoot(nodes, c, nombre, root)
    ensures var f, f' := ParentsOf(nodes), ParentsOf(EnsureRoot(nodes, c, nombre, root));
            && (EndsWithin(f', x, k) <==> EndsWithin(f, x, k))
            && (RootedWithin(f', x, k) <==> RootedWithin(f, x, k))
  {
    EnsureRootForest(nodes, c, nombre, root);
    SameWalk(ParentsOf(nodes), ParentsOf(EnsureRoot(nodes, c, nombre, root)), AllRoots(nodes), x, k);
  }

  lemma EnsureRootForest(nodes: Nodes, c: int, nombre: string, root: int)
    requires NO_PARENT !in nodes && RootChoice(nodes, c, root)
    ensures RootsMerged(ParentsOf(nodes), ParentsOf(EnsureRoot(nodes, c, nombre, root)), AllRoots(nodes))
  {
    assert RootsEnsured(nodes, nodes);
    EnsureRootKeepsRows(nodes, nodes, c, nombre, root);
    KeptRoot(nodes, c, nombre, root);
    hide EnsureRoot, RootsEnsured;
    RootsEnsuredForest(nodes, EnsureRoot(nodes, c, nombre, root));
  }

  lemma EnsureRootKeepsAcyclic(nodes: Nodes, c: int, nombre: string, root: int)
    requires NO_PARENT !in nodes && RootChoice(nodes, c, root) && Acyclic(ParentsOf(nodes))
    ensures Acyclic(ParentsOf(EnsureRoot(nodes, c, nombre, root)))
  {
    EnsureRootForest(nodes, c, nombre, root);
    StaysAcyclic(ParentsOf(nodes), ParentsOf(EnsureRoot(nodes, c, nombre, root)), AllRoots(nodes));
  }

  // ---------- The node kept for a machine ----------

  function Copies(nodes: Nodes, m: int): set<int> {
    set id | id in nodes && nodes[id].machine == Some(m)
  }

  predicate DirectlyUnder(nodes: Nodes, id: int, root: Option<int>)
    requires id in nodes
  {
    root.Some? && nodes[id].parent == root.value
  }

  /** The order (directly under the root, id). */
  predicate Prefers(nodes: Nodes, root: Option<int>, a: int, b: int)
    requires a in nodes && b in nodes
  {
    var underA, underB := DirectlyUnder(nodes, a, root), DirectlyUnder(nodes, b, root);
    (!underA && underB) || (underA == underB && a <= b)
  }

  /** `_preferred_machine_node`: the least node of a list, or none. */
  function Preferred(nodes: Nodes, root: Option<int>, ids: seq<int>): (keep: Option<int>)
    requires forall id :: id in ids ==> id in nodes
    ensures ids == [] <==> keep.None?
    ensures keep.Some? ==> keep.value in ids && forall id :: id in ids ==> Prefers(nodes, root, keep.value, id)
  {
    if ids == [] then None
    else
      var n := |ids| - 1;
      assert ids == ids[..n] + [ids[n]];
      var best := Preferred(nodes, root, ids[..n]);
      if best.None? || !Prefers(nodes, root, best.value, ids[n]) then Some(ids[n]) else best
  }

  ghost predicate IsPreferred(nodes: Nodes, root: Option<int>, ids: set<int>, keep: int)
    requires ids <= nodes.Keys
  {
    keep in ids && forall id :: id in ids ==> Prefers(nodes, root, keep, id)
  }

  lemma {:induction false} PreferredExists(nodes: Nodes, root: Option<int>, ids: set<int>) returns (keep: int)
    requires ids <= nodes.Keys && ids != {}
    ensures IsPreferred(nodes, root, ids, keep)
    decreases |ids|
  {
    var x := Member(ids);
    keep := x;
    if ids != {x} {
      var rest := ids - {x};
      assert ids == {x} + rest;
      var k := PreferredExists(nodes, root, rest);
      keep := if Prefers(nodes, root, x, k) then x else k;
      assert forall id :: id in ids <==> id == x || id in rest;
    }
  }

  /** The oldest root of a company. */
  ghost function RootOf(nodes: Nodes, c: int): (root: Option<int>)
    ensures root.None? <==> RootIds(nodes, c) == {}
    ensures root.Some? ==> RootChoice(nodes, c, root.value)
  {
    if RootIds(nodes, c) == {} then None else Some(LeastOf(RootIds(nodes, c)))
  }
}
