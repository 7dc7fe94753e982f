/** The evaluable structure of a test, flattened into coded leaves.
    Children are listed in the (orden, id) order in which the queries return them.
  */
module LimitLeaves {
  import opened Basics
  import opened LimitContract

  datatype ComponentNode = ComponentNode(row: ComponentRow, activo: bool)
  datatype DivisionNode = DivisionNode(row: DivisionRow, activo: bool, componentes: seq<ComponentNode>)
  datatype ResultNode = ResultNode(row: ResultRow, activo: bool, divisiones: seq<DivisionNode>)
  datatype Test = Test(pk: int, nombreVariable: string, acronimo: string, resultados: seq<ResultNode>)

  /** Text functions of the host language: slugify, str.strip and the rendering of a key. */
  datatype Text = Text(slug: string -> string, strip: string -> string, number: int -> string)

  function Underscored(s: string): string {
    seq(|s|, i requires 0 <= i < |s| => if s[i] == '-' then '_' else s[i])
  }

  function MakeLeaf(text: Text, nombre: string, r: Option<ResultRow>, d: Option<DivisionRow>, c: Option<ComponentRow>)
    : Leaf
  {
    Leaf(if nombre == "" then "Campo" else nombre,
         Underscored(text.slug(if nombre == "" then "campo" else nombre)), r, d, c)
  }

  /** `" ".join(filter(None, parts))` */
  function JoinNames(parts: seq<string>): string {
    if parts == [] then ""
    else
      var rest := JoinNames(parts[1..]);
      if parts[0] == "" then rest else if rest == "" then parts[0] else parts[0] + " " + rest
  }

  function DivisionName(d: DivisionRow): string {
    if d.nombre.Some? then d.nombre.value else ""
  }

  function ComponentLeaf(text: Text, r: ResultRow, d: DivisionRow, c: ComponentRow): Leaf {
    MakeLeaf(text, text.strip(JoinNames([r.nombre, DivisionName(d), c.nombre])), Some(r), Some(d), Some(c))
  }

  function DivisionLeaf(text: Text, r: ResultRow, d: DivisionRow): Leaf {
    MakeLeaf(text, text.strip(JoinNames([r.nombre, DivisionName(d)])), Some(r), Some(d), None)
  }

  function ActiveComponents(cs: seq<ComponentNode>): seq<ComponentRow> {
    if cs == [] then []
    else ActiveComponents(cs[..|cs| - 1]) + (if cs[|cs| - 1].activo then [cs[|cs| - 1].row] else [])
  }

  function ActiveDivisions(ds: seq<DivisionNode>): seq<DivisionNode> {
    if ds == [] then []
    else ActiveDivisions(ds[..|ds| - 1]) + (if ds[|ds| - 1].activo then [ds[|ds| - 1]] else [])
  }

  function ComponentLeaves(text: Text, r: ResultRow, d: DivisionRow, cs: seq<ComponentRow>): seq<Leaf> {
    if cs == [] then []
    else ComponentLeaves(text, r, d, cs[..|cs| - 1]) + [ComponentLeaf(text, r, d, cs[|cs| - 1])]
  }

  function LeavesOfDivision(text: Text, r: ResultRow, d: DivisionNode): seq<Leaf> {
    if ActiveComponents(d.componentes) != [] then ComponentLeaves(text, r, d.row, ActiveComponents(d.componentes))
    else [DivisionLeaf(text, r, d.row)]
  }

  function LeavesOfDivisions(text: Text, r: ResultRow, ds: seq<DivisionNode>): seq<Leaf> {
    if ds == [] then []
    else LeavesOfDivisions(text, r, ds[..|ds| - 1]) + LeavesOfDivision(text, r, ds[|ds| - 1])
  }

  function LeavesOfResult(text: Text, r: ResultNode): seq<Leaf> {
    if !r.activo then []
    else if ActiveDivisions(r.divisiones) == [] then [MakeLeaf(text, r.row.nombre, Some(r.row), None, None)]
    else LeavesOfDivisions(text, r.row, ActiveDivisions(r.divisiones))
  }

  function LeavesOfResults(text: Text, rs: seq<ResultNode>): seq<Leaf> {
    if rs == [] then [] else LeavesOfResults(text, rs[..|rs| - 1]) + LeavesOfResult(text, rs[|rs| - 1])
  }

  function FallbackLeaf(text: Text, t: Test): Leaf {
    MakeLeaf(text,
             if t.nombreVariable != "" then t.nombreVariable
             else if t.acronimo != "" then t.acronimo else "Prueba " + text.number(t.pk),
             None, None, None)
  }

  function Leaves(text: Text, t: Test): seq<Leaf> {
    var ls := LeavesOfResults(text, t.resultados);
    if ls == [] then [FallbackLeaf(text, t)] else ls
  }

  // ---------- The nested loops ----------

  method AppendDivision(text: Text, r: ResultRow, d: DivisionNode, leaves: seq<Leaf>) returns (out: seq<Leaf>)
    ensures out == leaves + LeavesOfDivision(text, r, d)
  {
    var componentes := ActiveComponents(d.componentes);
    if componentes == [] {
      return leaves + [DivisionLeaf(text, r, d.row)];
    }
    out := leaves;
    for i := 0 to |componentes|
      invariant out == leaves + ComponentLeaves(text, r, d.row, componentes[..i])
    {
      assert componentes[..i + 1][..i] == componentes[..i];
      out := out + [ComponentLeaf(text, r, d.row, componentes[i])];
    }
    assert componentes[..|componentes|] == componentes;
  }

  method AppendResult(text: Text, r: ResultNode, leaves: seq<Leaf>) returns (out: seq<Leaf>)
    ensures out == leaves + LeavesOfResult(text, r)
  {
    hide MakeLeaf, LeavesOfDivision, ActiveDivisions;
    if !r.activo {
      return leaves;
    }
    var divisiones := ActiveDivisions(r.divisiones);
    if divisiones == [] {
      return leaves + [MakeLeaf(text, r.row.nombre, Some(r.row), None, None)];
    }
    out := leaves;
    for i := 0 to |divisiones|
      invariant out == leaves + LeavesOfDivisions(text, r.row, divisiones[..i])
    {
      assert divisiones[..i + 1][..i] == divisiones[..i];
      out := AppendDivision(text, r.row, divisiones[i], out);
    }
    assert divisiones[..|divisiones|] == divisiones;
  }

  method TestLimitLeaves(text: Text, t: Test) returns (leaves: seq<Leaf>)
    ensures leaves == Leaves(text, t) && leaves != []
  {
    leaves := [];
    for i := 0 to |t.resultados|
      invariant leaves == LeavesOfResults(text, t.resultados[..i])
    {
      assert t.resultados[..i + 1][..i] == t.resultados[..i];
      leaves := AppendResult(text, t.resultados[i], leaves);
    }
    assert t.resultados[..|t.resultados|] == t.resultados;
    if leaves == [] {
      leaves := [FallbackLeaf(text, t)];
    }
  }

  // ---------- Every active node is represented, each component exactly once ----------

  /** The active components of the whole test, in structure order. */
  function TestComponents(rs: seq<ResultNode>): seq<ComponentRow> {
    if rs == [] then []
    else
      var r := rs[|rs| - 1];
      TestComponents(rs[..|rs| - 1]) + (if r.activo then DivisionsComponents(ActiveDivisions(r.divisiones)) else [])
  }

  function DivisionsComponents(ds: seq<DivisionNode>): seq<ComponentRow> {
    if ds == [] then []
    else DivisionsComponents(ds[..|ds| - 1]) + ActiveComponents(ds[|ds| - 1].componentes)
  }

  /** The components the leaves stand for, in leaf order. */
  function ComponentsOf(leaves: seq<Leaf>): seq<ComponentRow> {
    if leaves == [] then []
    else ComponentsOf(leaves[..|leaves| - 1])
         + (if leaves[|leaves| - 1].componente.Some? then [leaves[|leaves| - 1].componente.value] else [])
  }

  lemma {:induction false} ComponentsOfAppend(a: seq<Leaf>, b: seq<Leaf>)
    ensures ComponentsOf(a + b) == ComponentsOf(a) + ComponentsOf(b)
  {
    if b == [] {
      assert a + b == a;
    } else {
      ComponentsOfAppend(a, b[..|b| - 1]);
      assert (a + b)[..|a + b| - 1] == a + b[..|b| - 1];
    }
  }

  lemma {:induction false} ComponentsOfDivision(text: Text, r: ResultRow, d: DivisionRow, cs: seq<ComponentRow>)
    ensures ComponentsOf(ComponentLeaves(text, r, d, cs)) == cs
  {
    if cs != [] {
      ComponentsOfDivision(text, r, d, cs[..|cs| - 1]);
      ComponentsOfAppend(ComponentLeaves(text, r, d, cs[..|cs| - 1]), [ComponentLeaf(text, r, d, cs[|cs| - 1])]);
    }
  }

  lemma {:induction false} ComponentsOfDivisions(text: Text, r: ResultRow, ds: seq<DivisionNode>)
    ensures ComponentsOf(LeavesOfDivisions(text, r, ds)) == DivisionsComponents(ds)
  {
    if ds != [] {
      var d := ds[|ds| - 1];
      ComponentsOfDivisions(text, r, ds[..|ds| - 1]);
      ComponentsOfDivision(text, r, d.row, ActiveComponents(d.componentes));
      ComponentsOfAppend(LeavesOfDivisions(text, r, ds[..|ds| - 1]), LeavesOfDivision(text, r, d));
    }
  }

  lemma ComponentsOfResult(text: Text, r: ResultNode)
    ensures ComponentsOf(LeavesOfResult(text, r)) == if r.activo then DivisionsComponents(ActiveDivisions(r.divisiones)) else []
  {
    hide MakeLeaf, LeavesOfDivision;
    var ds := ActiveDivisions(r.divisiones);
    if r.activo && ds == [] {
      ComponentsOfPlain(MakeLeaf(text, r.row.nombre, Some(r.row), None, None), text, r);
    } else if r.activo {
      ComponentsOfDivisions(text, r.row, ds);
    }
  }

  lemma ComponentsOfPlain(leaf: Leaf, text: Text, r: ResultNode)
    requires leaf == MakeLeaf(text, r.row.nombre, Some(r.row), None, None)
    ensures ComponentsOf([leaf]) == []
  {
    assert [leaf][..0] == [];
  }

  lemma {:induction false} ComponentsOfResults(text: Text, rs: seq<ResultNode>)
    ensures ComponentsOf(LeavesOfResults(text, rs)) == TestComponents(rs)
  {
    hide LeavesOfResult, DivisionsComponents;
    if rs != [] {
      var r := rs[|rs| - 1];
      ComponentsOfResults(text, rs[..|rs| - 1]);
      ComponentsOfResult(text, r);
      ComponentsOfAppend(LeavesOfResults(text, rs[..|rs| - 1]), LeavesOfResult(text, r));
      hide ComponentsOf;
    }
  }

  /** Every active component occurs exactly once among the leaves, in structure order. */
  lemma ComponentsOnce(text: Text, t: Test)
    ensures ComponentsOf(Leaves(text, t)) == TestComponents(t.resultados)
  {
    ComponentsOfResults(text, t.resultados);
    assert ComponentsOf([FallbackLeaf(text, t)]) == [] by {
      assert [FallbackLeaf(text, t)][..0] == [];
    }
  }

  lemma LastLeafOf(text: Text, r: ResultNode)
    requires r.activo
    ensures var own := LeavesOfResult(text, r);
            own != [] && own[|own| - 1].resultado == Some(r.row)
  {
    hide JoinNames, Underscored;
    var ds := ActiveDivisions(r.divisiones);
    if ds != [] {
      LastLeafOfDivision(text, r.row, ds[|ds| - 1]);
    }
  }

  lemma LastLeafOfDivision(text: Text, r: ResultRow, d: DivisionNode)
    ensures var own := LeavesOfDivision(text, r, d);
            own != [] && own[|own| - 1].resultado == Some(r)
  {
    hide JoinNames, Underscored;
  }

  lemma {:induction false} ResultHasLeaf(text: Text, rs: seq<ResultNode>, i: nat)
    requires i < |rs| && rs[i].activo
    ensures exists leaf :: leaf in LeavesOfResults(text, rs) && leaf.resultado == Some(rs[i].row)
  {
    hide LeavesOfResult;
    var n := |rs| - 1;
    var own := LeavesOfResult(text, rs[n]);
    if i < n {
      ResultHasLeaf(text, rs[..n], i);
      var leaf :| leaf in LeavesOfResults(text, rs[..n]) && leaf.resultado == Some(rs[i].row);
      assert leaf in LeavesOfResults(text, rs);
    } else {
      LastLeafOf(text, rs[n]);
      assert own[|own| - 1] in LeavesOfResults(text, rs);
    }
  }

  /** Every active result keeps at least one leaf, whatever its divisions. */
  lemma EveryActiveResultHasALeaf(text: Text, t: Test, r: ResultNode)
    requires r in t.resultados && r.activo
    ensures exists leaf :: leaf in Leaves(text, t) && leaf.resultado == Some(r.row)
  {
    var i :| 0 <= i < |t.resultados| && t.resultados[i] == r;
    ResultHasLeaf(text, t.resultados, i);
  }
}
