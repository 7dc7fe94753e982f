/** What reconciliation writes into each `campos` entry and each field row, read off the nodes of the leaf, the
    saved rule of its code and the stored row.
  */
module LimitEntries {
  import opened Basics
  import opened Json
  import opened LimitContract
  import opened LimitIdempotence
  import opened LimitEdits
  import opened OrderedIds

  /** The first truthy option, or the last one: Python's `a or b or c`. */
  ghost predicate FirstTruthy(v: Json, options: seq<Json>) {
    exists k :: 0 <= k < |options| && v == options[k] && (forall j :: 0 <= j < k ==> !Truthy(options[j]))
                && (Truthy(v) || k == |options| - 1)
  }

  lemma OrIsFirst(a: Json, b: Json)
    ensures FirstTruthy(Or(a, b), [a, b])
  {
    assert Or(a, b) == [a, b][if Truthy(a) then 0 else 1];
  }

  lemma OrIsFirstOfThree(a: Json, b: Json, c: Json)
    ensures FirstTruthy(Or(a, Or(b, c)), [a, b, c])
  {
    assert Or(a, Or(b, c)) == [a, b, c][if Truthy(a) then 0 else if Truthy(b) then 1 else 2];
  }

  lemma OrIsFirstOfFour(a: Json, b: Json, c: Json, d: Json)
    ensures FirstTruthy(Or(a, Or(b, Or(c, d))), [a, b, c, d])
  {
    assert Or(a, Or(b, Or(c, d))) == [a, b, c, d][if Truthy(a) then 0 else if Truthy(b) then 1 else if Truthy(c) then 2 else 3];
  }

  // ---------- The rule saved for a code ----------

  predicate RuleNamed(render: Renderer, item: Json, c: string) {
    item.Obj? && Codigo in item.fields && Truthy(item.fields[Codigo]) && PyStr(render, item.fields[Codigo]) == c
  }

  /** `k` is the last object of the list with the code. */
  predicate LastNamed(render: Renderer, items: seq<Json>, c: string, k: int) {
    0 <= k < |items| && RuleNamed(render, items[k], c) && forall j :: k < j < |items| ==> !RuleNamed(render, items[j], c)
  }

  /** `saved` is the last object of the list with the code, or empty if there is none. */
  ghost predicate IsSavedRule(render: Renderer, items: seq<Json>, c: string, saved: Object) {
    || (exists k :: LastNamed(render, items, c, k) && saved == items[k].fields)
    || (saved == map[] && forall i :: 0 <= i < |items| ==> !RuleNamed(render, items[i], c))
  }

  lemma ByCodeNext(render: Renderer, items: seq<Json>, c: string)
    requires items != []
    ensures SavedFor(ByCode(render, items), c)
         == if RuleNamed(render, items[|items| - 1], c) then items[|items| - 1].fields
            else SavedFor(ByCode(render, items[..|items| - 1]), c)
  {
  }

  lemma {:induction false} SavedRuleIs(render: Renderer, items: seq<Json>, c: string)
    ensures IsSavedRule(render, items, c, SavedFor(ByCode(render, items), c))
  {
    if items != [] {
      var n := |items| - 1;
      SavedRuleIs(render, items[..n], c);
      ByCodeNext(render, items, c);
      hide ByCode;
      OneMore(render, items, c, SavedFor(ByCode(render, items[..n]), c));
    }
  }

  lemma OneMore(render: Renderer, items: seq<Json>, c: string, saved: Object)
    requires items != [] && IsSavedRule(render, items[..|items| - 1], c, saved)
    ensures var last := items[|items| - 1];
            IsSavedRule(render, items, c, if RuleNamed(render, last, c) then last.fields else saved)
  {
    hide PyStr, Truthy;
    var n := |items| - 1;
    assert forall i :: 0 <= i < n ==> items[..n][i] == items[i];
    if RuleNamed(render, items[n], c) {
      assert LastNamed(render, items, c, n);
    } else if k :| LastNamed(render, items[..n], c, k) && saved == items[..n][k].fields {
      assert LastNamed(render, items, c, k);
    }
  }

  function CamposOf(configuracion: Object): seq<Json> {
    if Campos in configuracion && configuracion[Campos].Arr? then configuracion[Campos].items else []
  }

  // ---------- The structure part of an entry ----------

  /** The entry names the current nodes of its leaf. */
  predicate NamesNodes(e: Object, leaf: Leaf) {
    && Get(e, Codigo) == Str(leaf.codigo)
    && Get(e, Nombre) == Str(if leaf.componente.Some? && leaf.componente.value.nombre != "" then leaf.componente.value.nombre
                             else leaf.nombre)
    && (match leaf.resultado
        case None => Get(e, Resultado) == Null && Get(e, ResultadoNombre) == Str("")
        case Some(r) => Get(e, Resultado) == Num(r.pk as real) && Get(e, ResultadoNombre) == Str(r.nombre))
    && (match leaf.division
        case None => Get(e, Division) == Null && Get(e, DivisionNombre) == Str("")
        case Some(d) => Get(e, Division) == Num(d.pk as real)
                        && Get(e, DivisionNombre) == Str(if d.nombre.Some? then d.nombre.value else ""))
    && (match leaf.componente
        case None => Get(e, Componente) == Null && Get(e, Escala) == Get(e, EscalaComparacion) == Str("")
        case Some(c) => Get(e, Componente) == Num(c.pk as real)
                        && Get(e, Escala) == Get(e, EscalaComparacion)
                        && Get(e, Escala) == (if c.escala.Some? && c.escala.value != 0 then Num(c.escala.value as real) else Str("")))
  }

  lemma NodeEntry(saved: Object, codigo: string, r: Rule)
    ensures var e := saved + Overlay(codigo, r);
            Get(e, Resultado) == r.resultado && Get(e, Division) == r.division && Get(e, Componente) == r.componente
  {
    hide Overlay, OWNED;
    EntryOwned(saved, codigo, r, Resultado, r.resultado);
    EntryOwned(saved, codigo, r, Division, r.division);
    EntryOwned(saved, codigo, r, Componente, r.componente);
  }

  lemma NameEntry(saved: Object, codigo: string, r: Rule)
    ensures var e := saved + Overlay(codigo, r);
            Get(e, Nombre) == r.nombre && Get(e, ResultadoNombre) == r.resultadoNombre && Get(e, DivisionNombre) == r.divisionNombre
  {
    hide Overlay, OWNED;
    EntryOwned(saved, codigo, r, Nombre, r.nombre);
    EntryOwned(saved, codigo, r, ResultadoNombre, r.resultadoNombre);
    EntryOwned(saved, codigo, r, DivisionNombre, r.divisionNombre);
  }

  lemma ScaleEntry(saved: Object, codigo: string, r: Rule)
    ensures var e := saved + Overlay(codigo, r);
            Get(e, Codigo) == Str(codigo) && Get(e, Escala) == Get(e, EscalaComparacion) == r.escala
  {
    hide Overlay, OWNED;
    EntryOwned(saved, codigo, r, Codigo, Str(codigo));
    EntryOwned(saved, codigo, r, Escala, r.escala);
    EntryOwned(saved, codigo, r, EscalaComparacion, r.escala);
  }

  lemma StructureOfRule(kind: LimitKind, leaf: Leaf, saved: Object, stored: Option<FieldRow>)
    ensures var r := RuleFor(kind, leaf, saved, stored);
            && r.nombre == Str(if leaf.componente.Some? && leaf.componente.value.nombre != "" then leaf.componente.value.nombre
                               else leaf.nombre)
            && (match leaf.resultado
                case None => r.resultado == Null && r.resultadoNombre == Str("")
                case Some(row) => r.resultado == Num(row.pk as real) && r.resultadoNombre == Str(row.nombre))
            && (match leaf.division
                case None => r.division == Null && r.divisionNombre == Str("")
                case Some(d) => r.division == Num(d.pk as real) && r.divisionNombre == Str(if d.nombre.Some? then d.nombre.value else ""))
            && (match leaf.componente
                case None => r.componente == Null && r.escala == Str("")
                case Some(c) => r.componente == Num(c.pk as real)
                                && r.escala == (if c.escala.Some? && c.escala.value != 0 then Num(c.escala.value as real) else Str("")))
  {
  }

  lemma EntryNamesNodes(b: Before, leaf: Leaf)
    ensures NamesNodes(b.Entry(leaf), leaf)
  {
    NodeEntry(b.Saved(leaf), leaf.codigo, b.RuleOf(leaf));
    NameEntry(b.Saved(leaf), leaf.codigo, b.RuleOf(leaf));
    ScaleEntry(b.Saved(leaf), leaf.codigo, b.RuleOf(leaf));
    StructureOfRule(b.kind, leaf, b.Saved(leaf), b.Stored(leaf));
    hide RuleFor, Overlay, Get;
  }

  // ---------- The rule part of an entry ----------

  function TypeOf(leaf: Leaf): Json {
    if leaf.componente.Some? then Str(leaf.componente.value.tipoDato) else Null
  }

  function TrueLabelOf(leaf: Leaf): Json {
    if leaf.componente.Some? then Str(leaf.componente.value.etiquetaVerdadero) else Null
  }

  function FalseLabelOf(leaf: Leaf): Json {
    if leaf.componente.Some? then Str(leaf.componente.value.etiquetaFalso) else Null
  }

  function UnitOf(leaf: Leaf): Json {
    if leaf.resultado.Some? && leaf.resultado.value.unidadMedida.Some? then Str(leaf.resultado.value.unidadMedida.value) else Null
  }

  function StoredUnitOf(stored: Option<FieldRow>): Json {
    if stored.Some? && stored.value.unidad.Some? then Str(stored.value.unidad.value) else Null
  }

  /** The comparison of a leaf that no rule or row decides. */
  predicate IsDefaultComparison(leaf: Leaf, comparison: string) {
    var tipo := if leaf.componente.Some? then leaf.componente.value.tipoDato else "numerico";
    && (comparison == "escala" <==> tipo in {"escala", "escala_ordinal", "opcion"})
    && (comparison == "comentario" <==> tipo in {"comentario", "texto"})
    && (comparison == "booleano" <==> tipo == "booleano")
    && comparison in {"escala", "comentario", "booleano", "numerica"}
  }

  /** Type, unit and labels: from the structure if it has them, else from the saved rule. */
  ghost predicate TakesTexts(e: Object, leaf: Leaf, saved: Object, stored: Option<FieldRow>) {
    && FirstTruthy(Get(e, Tipo), [TypeOf(leaf), Get(saved, Tipo), Str("numerico")])
    && FirstTruthy(Get(e, Unidad), [UnitOf(leaf), Get(saved, Unidad), StoredUnitOf(stored), Str("")])
    && FirstTruthy(Get(e, EtiquetaVerdadero), [TrueLabelOf(leaf), Get(saved, EtiquetaVerdadero), Str("Sí")])
    && FirstTruthy(Get(e, EtiquetaFalso), [FalseLabelOf(leaf), Get(saved, EtiquetaFalso), Str("No")])
    && FirstTruthy(Get(e, TrueLabel), [TrueLabelOf(leaf), Get(saved, TrueLabel), Str("Sí")])
    && FirstTruthy(Get(e, FalseLabel), [FalseLabelOf(leaf), Get(saved, FalseLabel), Str("No")])
  }

  /** Comparison, operator and switches: from the saved rule, else from the stored row, else by default. */
  ghost predicate TakesDecisions(kind: LimitKind, e: Object, leaf: Leaf, saved: Object, stored: Option<FieldRow>) {
    var comment := Get(e, TipoComparacion) == Str("comentario");
    var informative := comment || Get(saved, Informativo) == Bool(true) || Get(saved, Evalua) == Bool(false);
    && (exists d: string :: IsDefaultComparison(leaf, d)
          && FirstTruthy(Get(e, TipoComparacion),
                         [Get(saved, TipoComparacion), if stored.Some? then Str(stored.value.tipoComparacion) else Null, Str(d)]))
    && FirstTruthy(Get(e, Operador),
                   [Get(saved, Operador), if stored.Some? then Str(stored.value.operador) else Null,
                    Str(if Get(e, TipoComparacion) == Str("booleano") then "eq" else "max")])
    && FirstTruthy(Get(e, OrigenLimite),
                   [Get(saved, OrigenLimite),
                    Str(if informative then "informativo" else if kind == Catalogo then "catalogo" else "directo")])
    && Get(e, Informativo) == Bool(informative)
    && Get(e, Participa) == (if Get(saved, Participa) != Null then Get(saved, Participa) else Bool(!informative))
    && Get(e, Evalua) == (if Get(saved, Evalua) != Null then Get(saved, Evalua) else Bool(!informative))
  }

  /** Values: the saved ones, even null ones, else those of the row. */
  predicate TakesValues(e: Object, saved: Object, stored: Option<FieldRow>) {
    && Get(e, ValorGlobal)
       == (if ValorGlobal in saved then saved[ValorGlobal]
           else if stored.Some? && stored.value.valorGlobal.Some? && stored.value.valorGlobal.value != ""
           then Str(stored.value.valorGlobal.value) else Obj(map[]))
    && Get(e, EvaluacionBooleano)
       == (if EvaluacionBooleano in saved then saved[EvaluacionBooleano]
           else if stored.Some? then stored.value.evaluacionOpciones else Null)
  }

  lemma EntryTakesTexts(b: Before, leaf: Leaf)
    ensures TakesTexts(b.Entry(leaf), leaf, b.Saved(leaf), b.Stored(leaf))
  {
    var saved, stored := b.Saved(leaf), b.Stored(leaf);
    EntryGet(saved, leaf.codigo, b.RuleOf(leaf));
    RuleFields(b.kind, leaf, saved, stored);
    hide RuleFor, Overlay, Get, Evaluated, Comparison, FirstTruthy, Before.Saved, Before.Stored, Or, LeafUnit, StoredUnit, UnitOf, StoredUnitOf;
    forall a, c, d {
      OrIsFirstOfThree(a, c, d);
    }
    OrIsFirstOfFour(LeafUnit(leaf), Get(saved, Unidad), StoredUnit(stored), Str(""));
    UnitIsFirst(leaf, saved, stored, Or(LeafUnit(leaf), Or(Get(saved, Unidad), Or(StoredUnit(stored), Str("")))));
  }

  /** A missing unit and an empty one are alike. */
  lemma UnitIsFirst(leaf: Leaf, saved: Object, stored: Option<FieldRow>, v: Json)
    requires FirstTruthy(v, [LeafUnit(leaf), Get(saved, Unidad), StoredUnit(stored), Str("")])
    ensures FirstTruthy(v, [UnitOf(leaf), Get(saved, Unidad), StoredUnitOf(stored), Str("")])
  {
    var before := [LeafUnit(leaf), Get(saved, Unidad), StoredUnit(stored), Str("")];
    var after := [UnitOf(leaf), Get(saved, Unidad), StoredUnitOf(stored), Str("")];
    var k :| 0 <= k < 4 && v == before[k] && (forall j :: 0 <= j < k ==> !Truthy(before[j])) && (Truthy(v) || k == 3);
    assert forall j :: 0 <= j < 4 ==> Truthy(after[j]) == Truthy(before[j]);
    assert v == after[k];
  }

  lemma RuleDecides(kind: LimitKind, leaf: Leaf, saved: Object, stored: Option<FieldRow>)
    ensures var r, informative := RuleFor(kind, leaf, saved, stored), IsInformative(leaf, saved, stored);
            && r.tipoComparacion == Comparison(leaf, saved, stored)
            && r.operador == Or(Get(saved, Operador),
                                Or(StoredOperator(stored), Str(if Comparison(leaf, saved, stored) == Str("booleano") then "eq" else "max")))
            && r.origenLimite == Or(Get(saved, OrigenLimite),
                                    Str(if informative then "informativo" else if kind == Catalogo then "catalogo" else "directo"))
            && r.participa == Switch(saved, Participa, informative) && r.evalua == Switch(saved, Evalua, informative)
            && r.informativo == informative
  {
  }

  lemma EntryTakesDecisions(b: Before, leaf: Leaf)
    ensures TakesDecisions(b.kind, b.Entry(leaf), leaf, b.Saved(leaf), b.Stored(leaf))
  {
    var saved, stored := b.Saved(leaf), b.Stored(leaf);
    EntryGet(saved, leaf.codigo, b.RuleOf(leaf));
    RuleDecides(b.kind, leaf, saved, stored);
    hide RuleFor, Overlay, Get, FirstTruthy, Before.Saved, Before.Stored, ComparisonFromComponent;
    DefaultComparison(leaf);
    forall a, c, d {
      OrIsFirstOfThree(a, c, d);
    }
    forall a, c {
      OrIsFirst(a, c);
    }
    hide Or, IsDefaultComparison;
  }

  lemma DefaultComparison(leaf: Leaf)
    ensures IsDefaultComparison(leaf, ComparisonFromComponent(leaf.componente))
  {
  }

  lemma EntryTakesValues(b: Before, leaf: Leaf)
    ensures TakesValues(b.Entry(leaf), b.Saved(leaf), b.Stored(leaf))
  {
    EntryGet(b.Saved(leaf), leaf.codigo, b.RuleOf(leaf));
    hide Overlay, Before.Saved, Before.Stored;
  }

  /** Every other key is the saved rule's. */
  ghost predicate KeepsOthers(e: Object, saved: Object) {
    forall k: Key :: k.Other? || k.Campos? || k.Informativos? ==> (k in e <==> k in saved) && Get(e, k) == Get(saved, k)
  }

  lemma EntryKeepsOthers(b: Before, leaf: Leaf)
    ensures KeepsOthers(b.Entry(leaf), b.Saved(leaf))
  {
    OthersKept(b.Saved(leaf), leaf.codigo, b.RuleOf(leaf));
    hide RuleFor, Overlay, KeepsOthers;
  }

  lemma OthersKept(saved: Object, codigo: string, r: Rule)
    ensures KeepsOthers(saved + Overlay(codigo, r), saved)
  {
    hide Overlay, Get;
    forall k: Key | k.Other? || k.Campos? || k.Informativos? {
      EntryOther(saved, codigo, r, k);
    }
  }

  /** The `i`-th entry of the reconciled configuration: nodes from the leaf, decisions from the last saved rule with
      its code, then from the stored row. */
  lemma EntryByFields(render: Renderer, leaves: seq<Leaf>, src: Source, i: nat) returns (saved: Object)
    requires i < |leaves|
    ensures IsSavedRule(render, CamposOf(src.configuracion), leaves[i].codigo, saved)
    ensures var campos := CamposOf(ReconcileSource(render, leaves, src).configuracion);
            && |campos| == |leaves| && campos[i].Obj?
            && var e, leaf := campos[i].fields, leaves[i];
               var stored := if leaf.codigo in src.campos then Some(src.campos[leaf.codigo]) else None;
               EntrySays(src.tipoLimite, e, leaf, saved, stored)
  {
    var b, leaf := BeforeOf(render, src), leaves[i];
    saved := b.Saved(leaf);
    SavedRuleIs(render, CamposOf(src.configuracion), leaf.codigo);
    CamposListLeaves(render, leaves, src);
    EntryIs(b, leaf);
    hide ReconcileSource, Before.Entry, IsSavedRule, ByCode, EntrySays;
  }

  /** The entry of a leaf, given the rule saved for its code and the row stored under it. */
  ghost predicate EntrySays(kind: LimitKind, e: Object, leaf: Leaf, saved: Object, stored: Option<FieldRow>) {
    && NamesNodes(e, leaf) && TakesTexts(e, leaf, saved, stored)
    && TakesDecisions(kind, e, leaf, saved, stored) && TakesValues(e, saved, stored) && KeepsOthers(e, saved)
  }

  lemma EntryIs(b: Before, leaf: Leaf)
    ensures EntrySays(b.kind, b.Entry(leaf), leaf, b.Saved(leaf), b.Stored(leaf))
  {
    EntryNamesNodes(b, leaf);
    EntryTakesTexts(b, leaf);
    EntryTakesDecisions(b, leaf);
    EntryTakesValues(b, leaf);
    EntryKeepsOthers(b, leaf);
    hide NamesNodes, TakesTexts, TakesDecisions, TakesValues, KeepsOthers, Before.Entry, Before.Saved, Before.Stored;
  }

  // ---------- Rows ----------

  predicate Counted(e: Object) {
    Get(e, Informativo) == Bool(false) && Get(e, Participa) != Bool(false) && Get(e, Evalua) != Bool(false)
  }

  /** `w` is the last leaf with code `c` whose entry counts. */
  predicate LastCounted(campos: seq<Json>, leaves: seq<Leaf>, c: string, w: int) {
    && |campos| == |leaves| && 0 <= w < |leaves| && leaves[w].codigo == c && campos[w].Obj? && Counted(campos[w].fields)
    && forall j :: w < j < |leaves| && leaves[j].codigo == c ==> campos[j].Obj? && !Counted(campos[j].fields)
  }

  /** The row written for a leaf: its nodes and position, the decisions of its entry, the value and options kept. */
  ghost predicate RowOf(render: Renderer, row: FieldRow, e: Object, leaf: Leaf, orden: nat, saved: Object, stored: Option<FieldRow>) {
    && row.nombre == leaf.nombre && row.orden == orden && row.deletedAt == None
    && row.resultado == (match leaf.resultado case None => None case Some(r) => Some(r.pk))
    && row.division == (match leaf.division case None => None case Some(d) => Some(d.pk))
    && row.componente == (match leaf.componente case None => None case Some(c) => Some(c.pk))
    && row.escala == (match leaf.componente case None => None case Some(c) => c.escala)
    && row.operador == PyStr(render, Get(e, Operador)) && row.tipoComparacion == PyStr(render, Get(e, TipoComparacion))
    && row.unidad == Some(PyStr(render, Get(e, Unidad)))
    && row.valorGlobal == (if stored.Some? && stored.value.valorGlobal != Some("") then stored.value.valorGlobal else None)
    && FirstTruthy(row.evaluacionOpciones,
                   [Get(saved, EvaluacionBooleano), if stored.Some? then stored.value.evaluacionOpciones else Null])
    && row.otros == (if stored.Some? then stored.value.otros else OtherColumns("orden", Null, [None, None, None]))
  }

  lemma WrittenRow(render: Renderer, b: Before, leaf: Leaf, orden: nat)
    ensures RowOf(render, RowFor(render, b, leaf, orden), b.Entry(leaf), leaf, orden, b.Saved(leaf), b.Stored(leaf))
  {
    EntryGet(b.Saved(leaf), leaf.codigo, b.RuleOf(leaf));
    OrIsFirst(Get(b.Saved(leaf), EvaluacionBooleano), StoredOptions(b.Stored(leaf)));
    hide RuleFor, Overlay, FirstTruthy, Get, PyStr, Before.Saved, Before.Stored, Or;
  }

  lemma CountedIff(b: Before, leaf: Leaf)
    ensures Counted(b.Entry(leaf)) <==> Evaluated(b.RuleOf(leaf))
  {
    EntryGet(b.Saved(leaf), leaf.codigo, b.RuleOf(leaf));
    hide RuleFor, Overlay;
  }

  lemma LastCountedIs(render: Renderer, leaves: seq<Leaf>, src: Source, c: string)
    ensures var campos := CamposOf(ReconcileSource(render, leaves, src).configuracion);
            var w := LastEvaluated(BeforeOf(render, src), leaves, c);
            && (w >= 0 ==> LastCounted(campos, leaves, c, w))
            && (w < 0 ==> |campos| == |leaves|
                          && forall j :: 0 <= j < |leaves| && leaves[j].codigo == c ==> campos[j].Obj? && !Counted(campos[j].fields))
  {
    var b := BeforeOf(render, src);
    CamposListLeaves(render, leaves, src);
    forall j | 0 <= j < |leaves| {
      CountedIff(b, leaves[j]);
    }
    hide ReconcileSource, Counted, Evaluated, Before.RuleOf, Before.Entry, BeforeOf, Get, Last, RuleFor, LastEvaluated;
  }

  /** The row of any code after reconciling: that of the last leaf with the code that counts, active unless a later
      leaf with the code does not count and the row was there before. Without such a leaf a stored row is deactivated
      and keeps everything else, and no row appears. */
  lemma RowByFields(render: Renderer, leaves: seq<Leaf>, src: Source, c: string) returns (w: int, saved: Object)
    ensures IsSavedRule(render, CamposOf(src.configuracion), c, saved)
    ensures var out := ReconcileSource(render, leaves, src);
            var campos := CamposOf(out.configuracion);
            if exists i :: LastCounted(campos, leaves, c, i) then
              && LastCounted(campos, leaves, c, w) && c in out.campos
              && RowOf(render, out.campos[c], campos[w].fields, leaves[w], w + 1, saved,
                       if c in src.campos then Some(src.campos[c]) else None)
              && (out.campos[c].activo <==> c !in src.campos || forall j :: w < j < |leaves| ==> leaves[j].codigo != c)
            else
              && (c in out.campos <==> c in src.campos)
              && (c in src.campos ==> out.campos[c] == src.campos[c].(activo := false))
  {
    var b := BeforeOf(render, src);
    w := LastEvaluated(b, leaves, c);
    saved := SavedFor(b.saved, c);
    SavedRuleIs(render, CamposOf(src.configuracion), c);
    LastCountedIs(render, leaves, src, c);
    hide ReconcileSource, RowOf, Counted, IsSavedRule, ByCode, LastEvaluated, Last;
    if w >= 0 {
      CountedRow(render, leaves, src, c, w);
    } else {
      RowOutcome(render, leaves, src, c);
    }
  }

  lemma CountedRow(render: Renderer, leaves: seq<Leaf>, src: Source, c: string, w: int)
    requires w == LastEvaluated(BeforeOf(render, src), leaves, c) >= 0
    ensures var out := ReconcileSource(render, leaves, src);
            var campos := CamposOf(out.configuracion);
            && |campos| == |leaves| && campos[w].Obj? && c in out.campos
            && RowOf(render, out.campos[c], campos[w].fields, leaves[w], w + 1, SavedFor(BeforeOf(render, src).saved, c),
                     Lookup(src.campos, c))
            && (out.campos[c].activo <==> c !in src.campos || forall j :: w < j < |leaves| ==> leaves[j].codigo != c)
  {
    var b := BeforeOf(render, src);
    CamposListLeaves(render, leaves, src);
    RowOutcome(render, leaves, src, c);
    RowThenIs(render, b, leaves, c, w);
    hide ReconcileSource, RowFor, Before.RuleOf, Before.Entry, Get, ByCode, LastEvaluated, RowThen, RuleFor, Evaluations, Evaluated, RowOf;
    WrittenRow(render, b, leaves[w], w + 1);
    ActiveRowOf(render, RowFor(render, b, leaves[w], w + 1), b.Entry(leaves[w]), leaves[w], w + 1, b.Saved(leaves[w]), b.Stored(leaves[w]));
  }

  lemma RowThenIs(render: Renderer, b: Before, leaves: seq<Leaf>, c: string, w: int)
    requires w == LastEvaluated(b, leaves, c) >= 0
    ensures var last := forall j :: w < j < |leaves| ==> leaves[j].codigo != c;
            && leaves[w].codigo == c
            && RowThen(render, b, leaves, c) == Some(RowFor(render, b, leaves[w], w + 1).(activo := last || c !in b.rows))
  {
    hide RowFor, LastEvaluated, Last, RuleFor, Evaluated, Evaluations, Before.RuleOf;
    var k := Last(leaves, c);
    assert k >= 0 && leaves[k].codigo == c;
  }

  lemma ActiveRowOf(render: Renderer, row: FieldRow, e: Object, leaf: Leaf, orden: nat, saved: Object, stored: Option<FieldRow>)
    requires RowOf(render, row, e, leaf, orden, saved, stored)
    ensures forall activo :: RowOf(render, row.(activo := activo), e, leaf, orden, saved, stored)
  {
    hide FirstTruthy, PyStr, Get;
  }

  // ---------- The rest of the source ----------

  function InformativePlaces(campos: seq<Json>): set<int> {
    set i | 0 <= i < |campos| && campos[i].Obj? && Get(campos[i].fields, Informativo) == Bool(true)
  }

  lemma InformativeStep(entries: seq<Object>)
    requires entries != [] && Get(entries[|entries| - 1], Informativo).Bool?
    ensures var n := |entries| - 1;
            var before, own := InformativePlaces(Objects(entries[..n])), Get(entries[n], Informativo) == Bool(true);
            && (forall i :: i in before ==> i < n)
            && InformativePlaces(Objects(entries)) == before + (if own then {n} else {})
            && InformativeCodes(entries) == InformativeCodes(entries[..n]) + (if own then [Get(entries[n], Codigo)] else [])
  {
    hide Get;
  }

  lemma {:induction false} InformativeAre(entries: seq<Object>) returns (ks: seq<int>)
    requires forall i :: 0 <= i < |entries| ==> Get(entries[i], Informativo).Bool?
    ensures Lists(ks, InformativePlaces(Objects(entries))) && |ks| == |InformativeCodes(entries)|
    ensures forall j :: 0 <= j < |ks| ==> 0 <= ks[j] < |entries| && InformativeCodes(entries)[j] == Get(entries[ks[j]], Codigo)
  {
    ks := [];
    if entries != [] {
      var n := |entries| - 1;
      ks := InformativeAre(entries[..n]);
      InformativeStep(entries);
      hide InformativePlaces, InformativeCodes, Get, Objects;
      if Get(entries[n], Informativo) == Bool(true) {
        ListsAppend(ks, InformativePlaces(Objects(entries[..n])), n);
        ks := ks + [n];
      }
      hide Lists;
    }
  }

  /** Test, kind and every other setting stay; the informative list names the codes of the informative entries, in
      leaf order. */
  lemma SourceByFields(render: Renderer, leaves: seq<Leaf>, src: Source) returns (ks: seq<int>)
    ensures var out := ReconcileSource(render, leaves, src);
            && out.prueba == src.prueba && out.tipoLimite == src.tipoLimite
            && (forall k: Key :: k != Campos && k != Informativos ==>
                  (k in out.configuracion <==> k in src.configuracion) && Get(out.configuracion, k) == Get(src.configuracion, k))
            && Lists(ks, InformativePlaces(CamposOf(out.configuracion)))
            && Get(out.configuracion, Informativos).Arr? && |Get(out.configuracion, Informativos).items| == |ks|
            && forall j :: 0 <= j < |ks| ==>
                 0 <= ks[j] < |leaves| && Get(out.configuracion, Informativos).items[j] == Str(leaves[ks[j]].codigo)
  {
    var entries := Entries(BeforeOf(render, src), leaves);
    EntryCodes(BeforeOf(render, src), leaves);
    ConfigurationIs(render, leaves, src);
    hide ReconcileSource, Entries, BeforeOf, InformativePlaces, Lists, InformativeCodes, Get, Objects;
    ks := InformativeAre(entries);
  }

  lemma EntryCodes(b: Before, leaves: seq<Leaf>)
    ensures var entries := Entries(b, leaves);
            |entries| == |leaves| && forall i :: 0 <= i < |leaves| ==>
              Get(entries[i], Informativo).Bool? && Get(entries[i], Codigo) == Str(leaves[i].codigo)
  {
    EntriesAt(b, leaves);
    forall i | 0 <= i < |leaves|
      ensures Get(b.Entry(leaves[i]), Informativo).Bool? && Get(b.Entry(leaves[i]), Codigo) == Str(leaves[i].codigo)
    {
      EntryGet(b.Saved(leaves[i]), leaves[i].codigo, b.RuleOf(leaves[i]));
      hide RuleFor, Overlay;
    }
  }

  lemma ConfigurationIs(render: Renderer, leaves: seq<Leaf>, src: Source)
    ensures var out, entries := ReconcileSource(render, leaves, src), Entries(BeforeOf(render, src), leaves);
            && out.prueba == src.prueba && out.tipoLimite == src.tipoLimite
            && CamposOf(out.configuracion) == Objects(entries)
            && Get(out.configuracion, Informativos) == Arr(InformativeCodes(entries))
            && forall k: Key :: k != Campos && k != Informativos ==>
                  (k in out.configuracion <==> k in src.configuracion) && Get(out.configuracion, k) == Get(src.configuracion, k)
  {
    hide Entries, RowsAfter, KeepActive, Codes, BeforeOf, InformativeCodes, Objects;
  }
}
