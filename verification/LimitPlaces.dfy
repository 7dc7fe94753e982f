/** What each leaf of a test stands for and how it is called. */
module LimitPlaces {
  import opened Basics
  import opened LimitContract
  import opened LimitLeaves

  /** Two names with a space between them, unless one is empty. */
  function Spaced(a: string, b: string): string {
    if a == "" then b else if b == "" then a else a + " " + b
  }

  /** The leaf bears the name, or "Campo"; its code is the slug with underscores for hyphens. */
  predicate IsCalled(text: Text, leaf: Leaf, name: string) {
    var slug := text.slug(if name == "" then "campo" else name);
    && leaf.nombre == (if name == "" then "Campo" else name)
    && |leaf.codigo| == |slug|
    && forall i :: 0 <= i < |slug| ==> leaf.codigo[i] == if slug[i] == '-' then '_' else slug[i]
  }

  predicate OfComponent(text: Text, leaf: Leaf, r: ResultRow, d: DivisionRow, c: ComponentRow) {
    && leaf.resultado == Some(r) && leaf.division == Some(d) && leaf.componente == Some(c)
    && IsCalled(text, leaf, text.strip(Spaced(Spaced(r.nombre, if d.nombre.Some? then d.nombre.value else ""), c.nombre)))
  }

  predicate OfDivision(text: Text, leaf: Leaf, r: ResultRow, d: DivisionRow) {
    && leaf.resultado == Some(r) && leaf.division == Some(d) && leaf.componente == None
    && IsCalled(text, leaf, text.strip(Spaced(r.nombre, if d.nombre.Some? then d.nombre.value else "")))
  }

  predicate OfResult(text: Text, leaf: Leaf, r: ResultRow) {
    leaf.resultado == Some(r) && leaf.division == None && leaf.componente == None && IsCalled(text, leaf, r.nombre)
  }

  /** The leaf of an active component of `d`, or of `d` itself if it has none. */
  predicate UnderDivision(text: Text, leaf: Leaf, r: ResultRow, d: DivisionNode) {
    || (exists c :: c in d.componentes && c.activo && OfComponent(text, leaf, r, d.row, c.row))
    || (OfDivision(text, leaf, r, d.row) && forall c :: c in d.componentes ==> !c.activo)
  }

  /** The leaf of something active in `r`, or of `r` itself if it has no active division. */
  predicate UnderResult(text: Text, leaf: Leaf, r: ResultNode) {
    r.activo
    && ((exists d :: d in r.divisiones && d.activo && UnderDivision(text, leaf, r.row, d))
        || (OfResult(text, leaf, r.row) && forall d :: d in r.divisiones ==> !d.activo))
  }

  lemma MadeLeafIs(text: Text, name: string, r: Option<ResultRow>, d: Option<DivisionRow>, c: Option<ComponentRow>, leaf: Leaf)
    ensures leaf == MakeLeaf(text, name, r, d, c)
            <==> leaf.resultado == r && leaf.division == d && leaf.componente == c && IsCalled(text, leaf, name)
  {
    if IsCalled(text, leaf, name) {
      assert leaf.codigo == MakeLeaf(text, name, r, d, c).codigo;
    }
  }

  lemma JoinedNames(a: string, b: string, c: string)
    ensures JoinNames([a, b]) == Spaced(a, b) && JoinNames([a, b, c]) == Spaced(Spaced(a, b), c)
  {
    assert [a, b][1..] == [b] && [b][1..] == [] && [a, b, c][1..] == [b, c] && [b, c][1..] == [c] && [c][1..] == [];
    assert JoinNames([c]) == c && JoinNames([b]) == b;
    assert JoinNames([b, c]) == Spaced(b, c);
    assert a != "" && b != "" && c != "" ==> a + " " + (b + " " + c) == (a + " " + b) + " " + c;
  }

  lemma {:induction false} ActiveRows(cs: seq<ComponentNode>)
    ensures forall row :: row in ActiveComponents(cs) <==> exists c :: c in cs && c.activo && c.row == row
  {
    if cs != [] {
      assert cs == cs[..|cs| - 1] + [cs[|cs| - 1]];
      ActiveRows(cs[..|cs| - 1]);
    }
  }

  lemma {:induction false} ActiveNodes(ds: seq<DivisionNode>)
    ensures forall d :: d in ActiveDivisions(ds) <==> d in ds && d.activo
  {
    if ds != [] {
      assert ds == ds[..|ds| - 1] + [ds[|ds| - 1]];
      ActiveNodes(ds[..|ds| - 1]);
    }
  }

  lemma {:induction false} ComponentLeavesAre(text: Text, r: ResultRow, d: DivisionRow, cs: seq<ComponentRow>)
    ensures |ComponentLeaves(text, r, d, cs)| == |cs|
    ensures forall i :: 0 <= i < |cs| ==> OfComponent(text, ComponentLeaves(text, r, d, cs)[i], r, d, cs[i])
  {
    if cs != [] {
      var c := cs[|cs| - 1];
      ComponentLeavesAre(text, r, d, cs[..|cs| - 1]);
      JoinedNames(r.nombre, DivisionName(d), c.nombre);
      MadeLeafIs(text, text.strip(JoinNames([r.nombre, DivisionName(d), c.nombre])), Some(r), Some(d), Some(c), ComponentLeaf(text, r, d, c));
      hide JoinNames, Spaced, IsCalled, MakeLeaf;
    }
  }

  lemma OneLeaf(text: Text, r: ResultRow, d: DivisionRow, c: ComponentRow, a: Leaf, b: Leaf)
    ensures OfComponent(text, a, r, d, c) && OfComponent(text, b, r, d, c) ==> a == b
    ensures OfDivision(text, a, r, d) && OfDivision(text, b, r, d) ==> a == b
    ensures OfResult(text, a, r) && OfResult(text, b, r) ==> a == b
  {
    forall name | IsCalled(text, a, name) && IsCalled(text, b, name)
      ensures a.nombre == b.nombre && a.codigo == b.codigo
    {
    }
    hide IsCalled, Spaced;
  }

  lemma DivisionLeaves(text: Text, r: ResultRow, d: DivisionNode, leaf: Leaf)
    ensures leaf in LeavesOfDivision(text, r, d) <==> UnderDivision(text, leaf, r, d)
  {
    var cs := ActiveComponents(d.componentes);
    ActiveRows(d.componentes);
    ComponentLeavesAre(text, r, d.row, cs);
    JoinedNames(r.nombre, DivisionName(d.row), "");
    MadeLeafIs(text, text.strip(JoinNames([r.nombre, DivisionName(d.row)])), Some(r), Some(d.row), None, leaf);
    hide JoinNames, Spaced, IsCalled, MakeLeaf, ActiveComponents, ComponentLeaves;
    forall c | c in d.componentes && c.activo
      ensures c.row in cs
    {
    }
    if cs != [] {
      assert cs[0] in cs;
      forall c | c in d.componentes && c.activo && OfComponent(text, leaf, r, d.row, c.row)
        ensures leaf in ComponentLeaves(text, r, d.row, cs)
      {
        var i :| 0 <= i < |cs| && cs[i] == c.row;
        OneLeaf(text, r, d.row, c.row, leaf, ComponentLeaves(text, r, d.row, cs)[i]);
      }
      if i :| 0 <= i < |cs| && ComponentLeaves(text, r, d.row, cs)[i] == leaf {
        assert cs[i] in cs;
      }
    }
  }

  lemma {:induction false} DivisionsLeaves(text: Text, r: ResultRow, ds: seq<DivisionNode>, leaf: Leaf)
    ensures leaf in LeavesOfDivisions(text, r, ds) <==> exists d :: d in ds && UnderDivision(text, leaf, r, d)
  {
    hide UnderDivision, LeavesOfDivision;
    if ds != [] {
      var n := |ds| - 1;
      assert ds == ds[..n] + [ds[n]];
      DivisionsLeaves(text, r, ds[..n], leaf);
      DivisionLeaves(text, r, ds[n], leaf);
    }
  }

  lemma ResultLeaves(text: Text, r: ResultNode, leaf: Leaf)
    ensures leaf in LeavesOfResult(text, r) <==> UnderResult(text, leaf, r)
  {
    var ds := ActiveDivisions(r.divisiones);
    ActiveNodes(r.divisiones);
    DivisionsLeaves(text, r.row, ds, leaf);
    MadeLeafIs(text, r.row.nombre, Some(r.row), None, None, leaf);
    hide UnderDivision, IsCalled, MakeLeaf, ActiveDivisions, LeavesOfDivisions;
    if ds != [] {
      assert ds[0] in ds;
    }
  }

  lemma {:induction false} ResultsLeaves(text: Text, rs: seq<ResultNode>, leaf: Leaf)
    ensures leaf in LeavesOfResults(text, rs) <==> exists r :: r in rs && UnderResult(text, leaf, r)
  {
    hide UnderResult, LeavesOfResult;
    if rs != [] {
      var n := |rs| - 1;
      assert rs == rs[..n] + [rs[n]];
      ResultsLeaves(text, rs[..n], leaf);
      ResultLeaves(text, rs[n], leaf);
    }
  }

  /** The leaves of a test, exactly: the active components, the active divisions without any, the active results
      without any of these; and, for a test without active results, one named after the test. */
  lemma LeavesIff(text: Text, t: Test, leaf: Leaf)
    ensures if exists r :: r in t.resultados && r.activo
            then leaf in Leaves(text, t) <==> exists r :: r in t.resultados && UnderResult(text, leaf, r)
            else leaf in Leaves(text, t) <==>
                 && leaf.resultado == None && leaf.division == None && leaf.componente == None
                 && IsCalled(text, leaf, if t.nombreVariable != "" then t.nombreVariable
                                         else if t.acronimo != "" then t.acronimo else "Prueba " + text.number(t.pk))
  {
    ResultsLeaves(text, t.resultados, leaf);
    assert FallbackLeaf(text, t).resultado == None;
    MadeLeafIs(text, if t.nombreVariable != "" then t.nombreVariable
                     else if t.acronimo != "" then t.acronimo else "Prueba " + text.number(t.pk), None, None, None, leaf);
    hide LeavesOfResults, MakeLeaf, IsCalled, OfResult, UnderDivision;
    if r :| r in t.resultados && r.activo {
      EveryActiveResultHasALeaf(text, t, r);
      var some :| some in Leaves(text, t) && some.resultado == Some(r.row);
      assert LeavesOfResults(text, t.resultados) != [];
    } else {
      var ls := LeavesOfResults(text, t.resultados);
      if ls != [] {
        ResultsLeaves(text, t.resultados, ls[0]);
      }
    }
  }

  // ---------- The order of the leaves ----------

  function DivisionPart(text: Text, r: ResultRow, d: DivisionNode): seq<Leaf> {
    var active := Filter(d.componentes, (c: ComponentNode) => c.activo);
    if active == [] then [DivisionLeaf(text, r, d.row)]
    else FlatMap(active, (c: ComponentNode) => [ComponentLeaf(text, r, d.row, c.row)])
  }

  function ResultPart(text: Text, r: ResultNode): seq<Leaf> {
    var active := Filter(r.divisiones, (d: DivisionNode) => d.activo);
    if active == [] then [MakeLeaf(text, r.row.nombre, Some(r.row), None, None)]
    else FlatMap(active, (d: DivisionNode) => DivisionPart(text, r.row, d))
  }

  lemma {:induction false} ComponentsInOrder(text: Text, r: ResultRow, d: DivisionRow, cs: seq<ComponentNode>)
    ensures ComponentLeaves(text, r, d, ActiveComponents(cs))
         == FlatMap(Filter(cs, (c: ComponentNode) => c.activo), (c: ComponentNode) => [ComponentLeaf(text, r, d, c.row)])
    ensures ActiveComponents(cs) == [] <==> Filter(cs, (c: ComponentNode) => c.activo) == []
  {
    hide ComponentLeaf;
    if cs != [] {
      var n := |cs| - 1;
      ComponentsInOrder(text, r, d, cs[..n]);
      FilterLast(cs, (c: ComponentNode) => c.activo);
      if cs[n].activo {
        var before, after := Filter(cs[..n], (c: ComponentNode) => c.activo), Filter(cs, (c: ComponentNode) => c.activo);
        FlatMapLast(after, (c: ComponentNode) => [ComponentLeaf(text, r, d, c.row)]);
        assert after[..|after| - 1] == before;
        assert ActiveComponents(cs)[..|ActiveComponents(cs)| - 1] == ActiveComponents(cs[..n]);
      } else {
        assert Filter(cs, (c: ComponentNode) => c.activo) == Filter(cs[..n], (c: ComponentNode) => c.activo);
        assert ActiveComponents(cs) == ActiveComponents(cs[..n]);
      }
    }
  }

  lemma {:induction false} DivisionsInOrder(text: Text, r: ResultRow, ds: seq<DivisionNode>)
    ensures ActiveDivisions(ds) == Filter(ds, (d: DivisionNode) => d.activo)
    ensures LeavesOfDivisions(text, r, ds) == FlatMap(ds, (d: DivisionNode) => DivisionPart(text, r, d))
  {
    hide DivisionPart, LeavesOfDivision;
    if ds != [] {
      var n := |ds| - 1;
      DivisionsInOrder(text, r, ds[..n]);
      FilterLast(ds, (d: DivisionNode) => d.activo);
      FlatMapLast(ds, (d: DivisionNode) => DivisionPart(text, r, d));
      PartOfDivision(text, r, ds[n]);
    }
  }

  lemma PartOfDivision(text: Text, r: ResultRow, d: DivisionNode)
    ensures LeavesOfDivision(text, r, d) == DivisionPart(text, r, d)
  {
    ComponentsInOrder(text, r, d.row, d.componentes);
    hide ComponentLeaf, ComponentLeaves, ActiveComponents, Filter, FlatMap, DivisionLeaf;
  }

  /** The leaves follow the structure: results, divisions and components in their order, the inactive ones left out. */
  lemma {:induction false} LeavesInOrder(text: Text, rs: seq<ResultNode>)
    ensures LeavesOfResults(text, rs) == FlatMap(Filter(rs, (r: ResultNode) => r.activo), (r: ResultNode) => ResultPart(text, r))
  {
    hide ResultPart, LeavesOfResult;
    if rs != [] {
      var n := |rs| - 1;
      LeavesInOrder(text, rs[..n]);
      FilterLast(rs, (r: ResultNode) => r.activo);
      PartOfResult(text, rs[n]);
      if rs[n].activo {
        var before, after := Filter(rs[..n], (r: ResultNode) => r.activo), Filter(rs, (r: ResultNode) => r.activo);
        FlatMapLast(after, (r: ResultNode) => ResultPart(text, r));
        assert after[..|after| - 1] == before;
      } else {
        assert Filter(rs, (r: ResultNode) => r.activo) == Filter(rs[..n], (r: ResultNode) => r.activo);
      }
    }
  }

  lemma PartOfResult(text: Text, r: ResultNode)
    ensures LeavesOfResult(text, r) == if r.activo then ResultPart(text, r) else []
  {
    DivisionsInOrder(text, r.row, r.divisiones);
    DivisionsInOrder(text, r.row, ActiveDivisions(r.divisiones));
    hide MakeLeaf, LeavesOfDivisions, ActiveDivisions, Filter, FlatMap, DivisionPart;
  }
}
