/** Small structures on which reconciling limits does what one would not expect. */
module LimitExamples {
  import opened Basics
  import opened Json
  import opened LimitContract
  import opened LimitIdempotence
  import opened LimitLeaves
  import opened LimitEdits
  import opened LimitEvaluation
  import opened Evaluation

  function Iron(pk: int, unidad: Option<string>): ResultNode {
    ResultNode(ResultRow(pk, "Hierro", unidad), true, [])
  }

  /** Two active results with one name, of which only the second has a unit. */
  function TwoIron(): Test {
    Test(1, "Metales", "FE", [Iron(1, None), Iron(2, Some("ppm"))])
  }

  /** Whatever slugs look like, both leaves get one code; the first does not determine the unit. */
  lemma SameNameTwice(text: Text, render: Renderer) returns (src: Source)
    ensures var leaves := Leaves(text, TwoIron());
            && |leaves| == 2 && leaves[0].codigo == leaves[1].codigo
            && !Consistent(leaves) && !Idempotent(render, leaves, src)
  {
    var leaves := Leaves(text, TwoIron());
    LeavesAre(text);
    hide Idempotent, Leaves, MakeLeaf;
    var k := Last(leaves, leaves[0].codigo);
    assert k == 1;
    assert !ConsistentAt(leaves, 0);
    src := InconsistentWitness(render, leaves);
  }

  lemma LeavesAre(text: Text)
    ensures var leaves := Leaves(text, TwoIron());
            && |leaves| == 2 && leaves[0].codigo == leaves[1].codigo
            && !Truthy(LeafUnit(leaves[0])) && Truthy(LeafUnit(leaves[1]))
  {
    var rs := TwoIron().resultados;
    assert rs[..1] == [rs[0]] && [rs[0]][..0] == [];
    assert LeavesOfResults(text, [rs[0]]) == LeavesOfResult(text, rs[0]);
    assert LeavesOfResults(text, rs) == LeavesOfResult(text, rs[0]) + LeavesOfResult(text, rs[1]);
  }

  // ---------- Leaves seen for the first time ----------

  function Component(pk: int, nombre: string, tipoDato: string): ComponentNode {
    ComponentNode(ComponentRow(pk, nombre, tipoDato, None, "", ""), true)
  }

  /** One result with one unnamed division, whose two components are a number and a comment. */
  function NumberAndComment(number: string, comment: string): Test {
    Test(1, "Metales", "FE",
         [ResultNode(ResultRow(1, "Metales", None), true,
                     [DivisionNode(DivisionRow(1, None), true,
                                   [Component(1, number, "numerico"), Component(2, comment, "comentario")])])])
  }

  /** The code of its comment. */
  function CommentCode(text: Text, comment: string): string {
    ComponentLeaf(text, ResultRow(1, "Metales", None), DivisionRow(1, None), Component(2, comment, "comentario").row).codigo
  }

  lemma NumberAndCommentLeaves(text: Text, number: string, comment: string)
    ensures var leaves := Leaves(text, NumberAndComment(number, comment));
            && |leaves| == 2 && (number == comment ==> leaves[0].codigo == leaves[1].codigo)
            && leaves[0].componente == Some(Component(1, number, "numerico").row)
            && leaves[1].codigo == CommentCode(text, comment)
            && ComparisonFromComponent(leaves[0].componente) == "numerica"
            && ComparisonFromComponent(leaves[1].componente) == "comentario"
  {
    var r := NumberAndComment(number, comment).resultados[0];
    var d, cs := r.divisiones[0], r.divisiones[0].componentes;
    var rows := [cs[0].row, cs[1].row];
    assert cs[..1] == [cs[0]] && [cs[0]][..0] == [] && rows[..1] == [rows[0]] && [rows[0]][..0] == [];
    hide MakeLeaf;
    assert ActiveComponents([cs[0]]) == [rows[0]];
    assert ActiveComponents(cs) == rows;
    assert ComponentLeaves(text, r.row, d.row, [rows[0]]) == [ComponentLeaf(text, r.row, d.row, rows[0])];
    assert LeavesOfDivision(text, r.row, d)
        == [ComponentLeaf(text, r.row, d.row, rows[0]), ComponentLeaf(text, r.row, d.row, rows[1])];
    assert [d][..0] == [] && [r][..0] == [];
    assert ActiveDivisions([d]) == [d];
    assert LeavesOfDivisions(text, r.row, [d]) == LeavesOfDivision(text, r.row, d);
    assert LeavesOfResults(text, [r]) == LeavesOfDivision(text, r.row, d);
    LeafCodes(text, r.row, d.row, rows[0], rows[1]);
    Comparisons(number, comment);
    hide ComparisonFromComponent;
  }

  lemma LeafCodes(text: Text, r: ResultRow, d: DivisionRow, a: ComponentRow, b: ComponentRow)
    ensures ComponentLeaf(text, r, d, a).componente == Some(a) && ComponentLeaf(text, r, d, b).componente == Some(b)
    ensures a.nombre == b.nombre ==> ComponentLeaf(text, r, d, a).codigo == ComponentLeaf(text, r, d, b).codigo
  {
  }

  lemma Comparisons(number: string, comment: string)
    ensures ComparisonFromComponent(Some(Component(1, number, "numerico").row)) == "numerica"
    ensures ComparisonFromComponent(Some(Component(2, comment, "comentario").row)) == "comentario"
  {
  }

  function NewSource(): Source {
    Source(1, Catalogo, map[], map[])
  }

  lemma NewSourceIs(render: Renderer)
    ensures var b := BeforeOf(render, NewSource());
            b.kind == Catalogo && (forall c :: c !in b.saved) && forall c :: c !in b.rows
  {
  }

  lemma FirstSeen(render: Renderer, leaf: Leaf)
    ensures var b := BeforeOf(render, NewSource());
            && (Evaluated(b.RuleOf(leaf)) <==> ComparisonFromComponent(leaf.componente) != "comentario")
            && (EntryEvaluated(b.Entry(leaf)) <==> ComparisonFromComponent(leaf.componente) != "comentario")
            && (LeftOut(b.Entry(leaf)) <==> ComparisonFromComponent(leaf.componente) == "comentario")
  {
    var b := BeforeOf(render, NewSource());
    NewSourceIs(render);
    NewLeafRule(Catalogo, leaf);
    EntryGet(b.Saved(leaf), leaf.codigo, b.RuleOf(leaf));
    hide RuleFor, Overlay, OwnedValue, OWNED, ComparisonFromComponent, BeforeOf;
  }

  /** In a new source a leaf that is no comment gives its code an active row, whatever other leaves have it. */
  lemma NewRowIsActive(render: Renderer, leaves: seq<Leaf>, i: nat)
    requires i < |leaves| && ComparisonFromComponent(leaves[i].componente) != "comentario"
    ensures var out := ReconcileSource(render, leaves, NewSource());
            leaves[i].codigo in out.campos && out.campos[leaves[i].codigo].activo
  {
    hide RuleFor, Overlay, OwnedValue, OWNED, ReconcileSource, Evaluated, EntryEvaluated, LeftOut, BeforeOf, NewSource, RowFor, Last,
      Before.RuleOf, Before.Entry, LastMarked, ComparisonFromComponent;
    var b := BeforeOf(render, NewSource());
    FirstSeen(render, leaves[i]);
    NewSourceIs(render);
    assert Evaluations(b, leaves)[i];
    RowOutcome(render, leaves, NewSource(), leaves[i].codigo);
  }

  /** Two components of one name, the last a comment: under any slug function the row of the first stays
      active, although the last leaf with its code is informative. */
  lemma StaysActive(text: Text, render: Renderer)
    ensures var leaves := Leaves(text, NumberAndComment("Hierro", "Hierro"));
            var out := ReconcileSource(render, leaves, NewSource());
            && |leaves| == 2 && leaves[0].codigo == leaves[1].codigo
            && !EntryEvaluated(BeforeOf(render, NewSource()).Entry(leaves[1]))
            && leaves[1].codigo in out.campos && out.campos[leaves[1].codigo].activo
  {
    hide RuleFor, Overlay, ReconcileSource, Evaluated, EntryEvaluated, LeftOut, BeforeOf, NewSource, Leaves, NumberAndComment,
      Before.RuleOf, Before.Entry, ComparisonFromComponent;
    NumberAndCommentLeaves(text, "Hierro", "Hierro");
    var leaves := Leaves(text, NumberAndComment("Hierro", "Hierro"));
    FirstSeen(render, leaves[1]);
    NewRowIsActive(render, leaves, 0);
  }

  /** The evaluation of an active field, with the id of its row and the name of its component as label. */
  function Labelled(leaf: Leaf): Item
    requires leaf.componente.Some?
  {
    Item(Num(1.0), Str(leaf.codigo), Str(leaf.componente.value.nombre), Some(true), NORMAL, Num(1.0), Str("Metales"))
  }

  /** It does not count if the component is named like the code of the comment beside it. */
  lemma DroppedByLabel(text: Text, render: Renderer)
    ensures var leaves := Leaves(text, NumberAndComment(CommentCode(text, "Nota"), "Nota"));
            var out := ReconcileSource(render, leaves, NewSource());
            && |leaves| == 2 && leaves[0].codigo in out.campos && out.campos[leaves[0].codigo].activo
            && leaves[0].componente.Some?
            && (leaves[1].codigo != "" ==> !ReadingAfter(render, leaves, NewSource()).Hits(Labelled(leaves[0]), Comparable))
  {
    hide RuleFor, Overlay, ReconcileSource, Evaluated, EntryEvaluated, LeftOut, BeforeOf, NewSource, Leaves, NumberAndComment,
      Before.RuleOf, Before.Entry, ComparisonFromComponent, ReadingAfter, Reading.Hits, PyStr, CommentCode;
    var name := CommentCode(text, "Nota");
    NumberAndCommentLeaves(text, name, "Nota");
    var leaves, b := Leaves(text, NumberAndComment(name, "Nota")), BeforeOf(render, NewSource());
    FirstSeen(render, leaves[1]);
    NewRowIsActive(render, leaves, 0);
    CodeKey(render, leaves[1].codigo);
    ItemCountsIff(render, leaves, NewSource(), Labelled(leaves[0]));
    assert leaves[1].codigo != "" ==> NamesLeftOut(render, b, leaves, Str(leaves[1].codigo));
  }
}
