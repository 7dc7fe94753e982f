/** Where a machine is shown in the tree of its company. */
module AssetPlacement {
  import opened Basics
  import opened Forest
  import opened ForestRoots
  import opened AssetNodes
  import opened AssetRoots

  predicate Placeable(t: Rows, machines: map<int, Machine>, companies: map<int, string>, m: int) {
    Sound(t) && m in machines && machines[m].empresa in companies
  }

  /** The rows once the root of the machine's company is ensured. */
  ghost function Prepared(t: Rows, machines: map<int, Machine>, companies: map<int, string>, m: int): (t': Rows)
    requires Placeable(t, machines, companies, m)
    ensures Sound(t')
  {
    EnsureNext(t, machines[m].empresa, companies[machines[m].empresa])
  }

  /** What `ensure_machine_tree_node` makes of `t`: a machine that has a node keeps it where it is; otherwise
      one is created below the chosen folder, or directly below the root of its company. */
  ghost predicate Placed(t: Rows, machines: map<int, Machine>, companies: map<int, string>, m: int, folder: Option<int>,
                         t': Rows, node: int)
    requires Placeable(t, machines, companies, m)
  {
    var root, ensured := RootNext(t, machines[m].empresa), Prepared(t, machines, companies, m);
    if Copies(ensured.nodes, m) != {} then
      t' == ensured && IsPreferred(ensured.nodes, Some(root), Copies(ensured.nodes, m), node)
    else
      node == ensured.next && t' == Rows(ensured.nodes[node := NewNode(machines[m], m, folder, root)], node + 1)
  }

  function NewNode(machine: Machine, m: int, folder: Option<int>, root: int): Node {
    Node(machine.nombre, machine.empresa, MachineFolder, if folder.Some? then folder.value else root, Some(m))
  }

  /** A machine without a node gets one of its own, named after it, in the folder chosen or else in the root of its
      company; every other row is as ensuring the root left it. */
  lemma PlacedByFields(t: Rows, machines: map<int, Machine>, companies: map<int, string>, m: int, folder: Option<int>,
                       t': Rows, node: int)
    requires Placeable(t, machines, companies, m) && Placed(t, machines, companies, m, folder, t', node)
    ensures var ensured := Prepared(t, machines, companies, m);
            if exists id :: id in ensured.nodes && ensured.nodes[id].machine == Some(m) then
              && t' == ensured && node in t'.nodes && t'.nodes[node].machine == Some(m)
              && forall o :: o in t'.nodes && t'.nodes[o].machine == Some(m) && o != node ==>
                   var under, otherUnder := t'.nodes[node].parent == RootNext(t, machines[m].empresa),
                                            t'.nodes[o].parent == RootNext(t, machines[m].empresa);
                   (otherUnder && !under) || (otherUnder == under && node < o)
            else
              && node !in ensured.nodes && node in t'.nodes && t'.next == node + 1
              && (forall id :: id != node ==> (id in t'.nodes <==> id in ensured.nodes))
              && (forall id :: id in ensured.nodes ==> t'.nodes[id] == ensured.nodes[id])
              && var n := t'.nodes[node];
                 && n.nombre == machines[m].nombre && n.compania == machines[m].empresa && n.tipo == MachineFolder
                 && n.machine == Some(m)
                 && n.parent == match folder case Some(f) => f case None => RootNext(t, machines[m].empresa)
  {
    var ensured := Prepared(t, machines, companies, m);
    hide Prepared, RootNext;
    assert forall id :: id in Copies(ensured.nodes, m) <==> id in ensured.nodes && ensured.nodes[id].machine == Some(m);
    if id :| id in ensured.nodes && ensured.nodes[id].machine == Some(m) {
      assert id in Copies(ensured.nodes, m);
    }
  }

  lemma PreparedTwice(t: Rows, machines: map<int, Machine>, companies: map<int, string>, m: int, folder: Option<int>,
                      t': Rows, node: int)
    requires Placeable(t, machines, companies, m) && Placeable(t', machines, companies, m)
    requires Placed(t, machines, companies, m, folder, t', node)
    ensures Prepared(t', machines, companies, m) == t'
    ensures RootNext(t', machines[m].empresa) == RootNext(t, machines[m].empresa)
  {
    var c := machines[m].empresa;
    var nombre, ensured, root := companies[c], Prepared(t, machines, companies, m), RootNext(t, machines[m].empresa);
    EnsureNextPlaces(t, c, nombre);
    RootAfter(t, c, nombre);
    EnsureRootResult(t.nodes, c, nombre, root);
    hide EnsureNext, EnsureRoot, RootNext, RootChoice;
    assert RootIds(t'.nodes, c) == RootIds(ensured.nodes, c) == {root} by {
      assert node !in ensured.nodes || t' == ensured;
    }
    assert RootInPlace(t'.nodes, c, nombre);
    EnsureNextPlaces(t', c, nombre);
    OnlyRootNext(t', c, root);
  }

  lemma OnlyRootNext(t: Rows, c: int, root: int)
    requires Sound(t) && RootIds(t.nodes, c) == {root}
    ensures RootNext(t, c) == root
  {
    assert root in RootIds(t.nodes, c);
    assert RootOf(t.nodes, c).value in {root};
  }

  /** A second call, whatever folder it names, finds the node of the first and changes nothing. */
  lemma SecondCallFindsIt(t: Rows, machines: map<int, Machine>, companies: map<int, string>, m: int,
                          folder: Option<int>, t': Rows, node: int, folder': Option<int>, t'': Rows, node': int)
    requires Placeable(t, machines, companies, m) && Placeable(t', machines, companies, m)
    requires Placed(t, machines, companies, m, folder, t', node)
    requires Placed(t', machines, companies, m, folder', t'', node')
    ensures t'' == t' && node' == node
  {
    var ensured := Prepared(t, machines, companies, m);
    PreparedTwice(t, machines, companies, m, folder, t', node);
    hide Prepared, RootNext, Placeable;
    if Copies(ensured.nodes, m) == {} {
      forall id
        ensures id in Copies(t'.nodes, m) <==> id == node
      {
        assert id !in Copies(ensured.nodes, m);
      }
      assert node in Copies(t'.nodes, m);
    }
  }

  // ---------- When the new node is in the tree ----------

  lemma {:induction false} NewLeafAside(f: Parents, node: int, p: int, x: int, k: nat)
    requires node !in f && x != node && forall y :: y in f ==> f[y] != node
    ensures RootedWithin(f[node := p], x, k) <==> RootedWithin(f, x, k)
    decreases k
  {
    if x in f && k > 0 {
      NewLeafAside(f, node, p, f[x], k - 1);
    }
  }

  lemma NewLeafRooted(f: Parents, node: int, p: int)
    requires node !in f && p != node && p != NO_PARENT && forall y :: y in f ==> f[y] != node
    ensures Rooted(f[node := p], node) <==> Rooted(f, p)
  {
    var g := f[node := p];
    RootedStep(g, node);
    forall k: nat
      ensures RootedWithin(g, p, k) <==> RootedWithin(f, p, k)
    {
      NewLeafAside(f, node, p, p, k);
    }
    if Rooted(g, p) {
      var k: nat :| RootedWithin(g, p, k);
      assert RootedWithin(f, p, k);
    }
    if Rooted(f, p) {
      var k: nat :| RootedWithin(f, p, k);
      assert RootedWithin(g, p, k);
    }
  }

  /** The chosen folder is a root that the same call merges away. */
  ghost predicate FolderIsMergedAway(t: Rows, c: int, folder: int)
    requires Sound(t)
  {
    folder in RootIds(t.nodes, c) && folder != RootNext(t, c)
  }

  /** The chosen folder reaches a root after the company's root is ensured exactly if it did before and is not
      itself merged away. */
  lemma FolderRootedIff(t: Rows, c: int, nombre: string, folder: int)
    requires Sound(t) && folder in t.nodes
    ensures Rooted(ParentsOf(EnsureNext(t, c, nombre).nodes), folder)
            <==> Rooted(ParentsOf(t.nodes), folder) && !FolderIsMergedAway(t, c, folder)
  {
    var root := RootNext(t, c);
    var f, g := ParentsOf(t.nodes), ParentsOf(EnsureRoot(t.nodes, c, nombre, root));
    EnsureRootForest(t.nodes, c, nombre, root);
    if FolderIsMergedAway(t, c, folder) {
      OtherRootsGone(t.nodes, c, nombre, root, folder);
      assert forall k: nat :: !RootedWithin(g, folder, k);
    } else {
      StaysUnlessMerged(t, c, nombre, folder);
      SamePlaces(f, g, AllRoots(t.nodes), folder);
    }
    hide EnsureRoot, RootNext, RootsMerged;
  }

  lemma StaysUnlessMerged(t: Rows, c: int, nombre: string, folder: int)
    requires Sound(t) && folder in t.nodes && !FolderIsMergedAway(t, c, folder)
    ensures folder in EnsureRoot(t.nodes, c, nombre, RootNext(t, c))
  {
    var root := RootNext(t, c);
    if folder in RootIds(t.nodes, c) {
      KeptRoot(t.nodes, c, nombre, root);
    } else {
      OtherRowsStay(t.nodes, c, nombre, root, folder);
    }
  }

  /** A new node reaches a root exactly if no folder was chosen, or the folder did and is not a root that the
      same call merges away. */
  lemma NewNodeRootedIff(t: Rows, machines: map<int, Machine>, companies: map<int, string>, m: int, folder: Option<int>,
                         t': Rows, node: int)
    requires Placeable(t, machines, companies, m) && (folder.Some? ==> folder.value in t.nodes)
    requires Placed(t, machines, companies, m, folder, t', node)
    requires Copies(Prepared(t, machines, companies, m).nodes, m) == {}
    ensures Rooted(ParentsOf(t'.nodes), node) <==>
            folder.None? || (Rooted(ParentsOf(t.nodes), folder.value)
                             && !FolderIsMergedAway(t, machines[m].empresa, folder.value))
  {
    var c := machines[m].empresa;
    var ensured, root := Prepared(t, machines, companies, m), RootNext(t, machines[m].empresa);
    var f, p := ParentsOf(ensured.nodes), if folder.Some? then folder.value else root;
    RootIsRooted(t, c, companies[c]);
    if folder.Some? {
      FolderRootedIff(t, c, companies[c], folder.value);
    }
    hide EnsureRoot, RootNext, FolderIsMergedAway, Rooted;
    NewNodeIsNew(ensured, node, t'.nodes[node], p);
    NewLeafRooted(f, node, p);
  }

  lemma RootIsRooted(t: Rows, c: int, nombre: string)
    requires Sound(t)
    ensures Rooted(ParentsOf(EnsureNext(t, c, nombre).nodes), RootNext(t, c))
  {
    KeptRoot(t.nodes, c, nombre, RootNext(t, c));
    assert RootedWithin(ParentsOf(EnsureNext(t, c, nombre).nodes), RootNext(t, c), 0);
  }

  lemma NewNodeIsNew(t: Rows, node: int, row: Node, p: int)
    requires Sound(t) && node == t.next && row.parent == p
    ensures ParentsOf(t.nodes[node := row]) == ParentsOf(t.nodes)[node := p]
    ensures node !in ParentsOf(t.nodes) && forall y :: y in t.nodes ==> ParentsOf(t.nodes)[y] != node
  {
  }
}
