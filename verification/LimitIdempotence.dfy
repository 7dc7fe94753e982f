/** When reconciling a limit contract twice is the same as reconciling it once. */
module LimitIdempotence {
  import opened Basics
  import opened Json
  import opened LimitContract

  // ---------- Reading a canonical entry back ----------

  predicate Owned(k: Key) {
    !k.Campos? && !k.Informativos? && !k.Other?
  }

  lemma OwnedIff(k: Key)
    ensures k in OWNED <==> Owned(k)
  {
  }

  /** A key that reconciliation owns has its new value. */
  lemma EntryOwned(saved: Object, codigo: string, r: Rule, k: Key, value: Json)
    requires Owned(k) && value == OwnedValue(codigo, r, k)
    ensures var e := saved + Overlay(codigo, r);
            k in e && e[k] == value
  {
    OwnedIff(k);
    hide OWNED, OwnedValue;
  }

  /** Any other key keeps the saved value. */
  lemma EntryOther(saved: Object, codigo: string, r: Rule, k: Key)
    requires !Owned(k)
    ensures var e := saved + Overlay(codigo, r);
            (k in e <==> k in saved) && Get(e, k) == Get(saved, k)
  {
    OwnedIff(k);
    hide OWNED, OwnedValue;
  }

  lemma EntryStructure(saved: Object, codigo: string, r: Rule)
    ensures var e := saved + Overlay(codigo, r);
            Get(e, Codigo) == Str(codigo) && Get(e, Tipo) == r.tipo && Get(e, Unidad) == r.unidad
  {
    hide Overlay, OWNED;
    EntryOwned(saved, codigo, r, Codigo, Str(codigo));
    EntryOwned(saved, codigo, r, Tipo, r.tipo);
    EntryOwned(saved, codigo, r, Unidad, r.unidad);
  }

  lemma EntryLabels(saved: Object, codigo: string, r: Rule)
    ensures var e := saved + Overlay(codigo, r);
            && Get(e, EtiquetaVerdadero) == r.etiquetaVerdadero && Get(e, EtiquetaFalso) == r.etiquetaFalso
            && Get(e, TrueLabel) == r.trueLabel && Get(e, FalseLabel) == r.falseLabel
  {
    hide Overlay, OWNED;
    EntryOwned(saved, codigo, r, EtiquetaVerdadero, r.etiquetaVerdadero);
    EntryOwned(saved, codigo, r, EtiquetaFalso, r.etiquetaFalso);
    EntryOwned(saved, codigo, r, TrueLabel, r.trueLabel);
    EntryOwned(saved, codigo, r, FalseLabel, r.falseLabel);
  }

  lemma EntryDecision(saved: Object, codigo: string, r: Rule)
    ensures var e := saved + Overlay(codigo, r);
            && Get(e, TipoComparacion) == r.tipoComparacion && Get(e, Operador) == r.operador
            && Get(e, OrigenLimite) == r.origenLimite
  {
    hide Overlay, OWNED;
    EntryOwned(saved, codigo, r, TipoComparacion, r.tipoComparacion);
    EntryOwned(saved, codigo, r, Operador, r.operador);
    EntryOwned(saved, codigo, r, OrigenLimite, r.origenLimite);
  }

  lemma EntrySwitches(saved: Object, codigo: string, r: Rule)
    ensures var e := saved + Overlay(codigo, r);
            Get(e, Participa) == r.participa && Get(e, Evalua) == r.evalua && Get(e, Informativo) == Bool(r.informativo)
  {
    hide Overlay, OWNED;
    EntryOwned(saved, codigo, r, Participa, r.participa);
    EntryOwned(saved, codigo, r, Evalua, r.evalua);
    EntryOwned(saved, codigo, r, Informativo, Bool(r.informativo));
  }

  lemma EntryValues(saved: Object, codigo: string, r: Rule)
    ensures var e := saved + Overlay(codigo, r);
            && ValorGlobal in e && e[ValorGlobal] == r.valorGlobal
            && EvaluacionBooleano in e && e[EvaluacionBooleano] == r.evaluacionBooleano
  {
    hide Overlay, OWNED;
    EntryOwned(saved, codigo, r, ValorGlobal, r.valorGlobal);
    EntryOwned(saved, codigo, r, EvaluacionBooleano, r.evaluacionBooleano);
  }

  /** What a canonical entry says when it is read back as a saved rule. */
  lemma EntryGet(saved: Object, codigo: string, r: Rule)
    ensures var e := saved + Overlay(codigo, r);
            && Get(e, Codigo) == Str(codigo)
            && Get(e, Tipo) == r.tipo && Get(e, TipoComparacion) == r.tipoComparacion
            && Get(e, Unidad) == r.unidad
            && Get(e, EtiquetaVerdadero) == r.etiquetaVerdadero && Get(e, EtiquetaFalso) == r.etiquetaFalso
            && Get(e, TrueLabel) == r.trueLabel && Get(e, FalseLabel) == r.falseLabel
    ensures var e := saved + Overlay(codigo, r);
            && Get(e, Operador) == r.operador && Get(e, OrigenLimite) == r.origenLimite
            && Get(e, Participa) == r.participa && Get(e, Evalua) == r.evalua
            && Get(e, Informativo) == Bool(r.informativo)
            && ValorGlobal in e && e[ValorGlobal] == r.valorGlobal
            && EvaluacionBooleano in e && e[EvaluacionBooleano] == r.evaluacionBooleano
  {
    EntryStructure(saved, codigo, r);
    EntryLabels(saved, codigo, r);
    EntryDecision(saved, codigo, r);
    EntrySwitches(saved, codigo, r);
    EntryValues(saved, codigo, r);
    hide Overlay, OWNED, OwnedValue;
  }

  lemma OverlayTwice(saved: Object, codigo: string, r: Rule, r': Rule)
    ensures (saved + Overlay(codigo, r)) + Overlay(codigo, r') == saved + Overlay(codigo, r')
  {
    hide OWNED, OwnedValue;
  }

  // ---------- Two leaves with one code ----------

  lemma ComparisonNonempty(c: Option<ComponentRow>)
    ensures ComparisonFromComponent(c) != ""
  {
  }

  /** How a rule decides what it does not take from the structure alone. */
  lemma RuleFields(kind: LimitKind, leaf: Leaf, saved: Object, stored: Option<FieldRow>)
    ensures var r := RuleFor(kind, leaf, saved, stored);
            && r.tipoComparacion == Comparison(leaf, saved, stored)
            && r.unidad == Or(LeafUnit(leaf), Or(Get(saved, Unidad), Or(StoredUnit(stored), Str(""))))
            && r.tipo == Or(LeafType(leaf), Or(Get(saved, Tipo), Str("numerico")))
            && r.etiquetaVerdadero == Or(LeafTrue(leaf), Or(Get(saved, EtiquetaVerdadero), Str("Sí")))
            && r.etiquetaFalso == Or(LeafFalse(leaf), Or(Get(saved, EtiquetaFalso), Str("No")))
            && r.trueLabel == Or(LeafTrue(leaf), Or(Get(saved, TrueLabel), Str("Sí")))
            && r.falseLabel == Or(LeafFalse(leaf), Or(Get(saved, FalseLabel), Str("No")))
    ensures saved == map[] ==>
              (Evaluated(RuleFor(kind, leaf, saved, stored)) <==> Comparison(leaf, saved, stored) != Str("comentario"))
  {
  }

  /** `i` fixes by itself everything that `j`, reconciled after it under the same code, could
      write into what they share. */
  predicate Determines(i: Leaf, j: Leaf) {
    && ComparisonFromComponent(i.componente) == ComparisonFromComponent(j.componente)
    && (Truthy(LeafUnit(j)) ==> Truthy(LeafUnit(i)))
    && (i.codigo != "" ==>
          && (Truthy(LeafType(j)) ==> Truthy(LeafType(i)))
          && (Truthy(LeafTrue(j)) ==> Truthy(LeafTrue(i)))
          && (Truthy(LeafFalse(j)) ==> Truthy(LeafFalse(i))))
  }

  /** What a rule takes from the current structure alone. */
  lemma StructureOnly(kind: LimitKind, i: Leaf, saved: Object, stored: Option<FieldRow>, saved': Object, stored': Option<FieldRow>)
    ensures var r, r' := RuleFor(kind, i, saved, stored), RuleFor(kind, i, saved', stored');
            && r'.nombre == r.nombre && r'.resultado == r.resultado && r'.resultadoNombre == r.resultadoNombre
            && r'.division == r.division && r'.divisionNombre == r.divisionNombre && r'.componente == r.componente
            && r'.escala == r.escala
  {
  }

  /** `saved'` holds the decisions of rule `r`. */
  predicate Carries(saved': Object, r: Rule) {
    && Get(saved', TipoComparacion) == r.tipoComparacion && Get(saved', Operador) == r.operador
    && Get(saved', OrigenLimite) == r.origenLimite && Get(saved', Participa) == r.participa
    && Get(saved', Evalua) == r.evalua && Get(saved', Informativo) == Bool(r.informativo)
    && ValorGlobal in saved' && saved'[ValorGlobal] == r.valorGlobal
    && EvaluacionBooleano in saved' && saved'[EvaluacionBooleano] == r.evaluacionBooleano
  }

  lemma SameDecisions(kind: LimitKind, i: Leaf, j: Leaf, saved: Object, stored: Option<FieldRow>, saved': Object, stored': Option<FieldRow>)
    requires ComparisonFromComponent(i.componente) == ComparisonFromComponent(j.componente)
    requires Carries(saved', RuleFor(kind, j, saved, stored))
    ensures var r, r' := RuleFor(kind, i, saved, stored), RuleFor(kind, i, saved', stored');
            && r'.tipoComparacion == r.tipoComparacion && r'.operador == r.operador && r'.origenLimite == r.origenLimite
            && r'.participa == r.participa && r'.evalua == r.evalua && r'.informativo == r.informativo
            && r'.valorGlobal == r.valorGlobal && r'.evaluacionBooleano == r.evaluacionBooleano
  {
    ComparisonNonempty(i.componente);
    hide ComparisonFromComponent, LeafUnit, LeafType, LeafTrue, LeafFalse, LeafName, ComponentScale, StoredUnit;
  }

  lemma SameTexts(kind: LimitKind, i: Leaf, j: Leaf, saved: Object, stored: Option<FieldRow>, saved': Object, stored': Option<FieldRow>)
    requires Determines(i, j) && i.codigo != ""
    requires var r := RuleFor(kind, j, saved, stored);
             && Get(saved', Tipo) == r.tipo && Get(saved', Unidad) == r.unidad
             && Get(saved', EtiquetaVerdadero) == r.etiquetaVerdadero && Get(saved', EtiquetaFalso) == r.etiquetaFalso
             && Get(saved', TrueLabel) == r.trueLabel && Get(saved', FalseLabel) == r.falseLabel
             && (!Truthy(r.unidad) ==> !Truthy(StoredUnit(stored')))
    ensures var r, r' := RuleFor(kind, i, saved, stored), RuleFor(kind, i, saved', stored');
            && r'.tipo == r.tipo && r'.unidad == r.unidad
            && r'.etiquetaVerdadero == r.etiquetaVerdadero && r'.etiquetaFalso == r.etiquetaFalso
            && r'.trueLabel == r.trueLabel && r'.falseLabel == r.falseLabel
  {
    RuleFields(kind, i, saved, stored);
    RuleFields(kind, j, saved, stored);
    RuleFields(kind, i, saved', stored');
    hide RuleFor, Comparison, ComparisonFromComponent, LeafUnit, LeafType, LeafTrue, LeafFalse, StoredUnit, Evaluated;
  }

  lemma SameFields(r: Rule, r': Rule)
    requires r'.nombre == r.nombre && r'.resultado == r.resultado && r'.resultadoNombre == r.resultadoNombre
             && r'.division == r.division && r'.divisionNombre == r.divisionNombre && r'.componente == r.componente
             && r'.escala == r.escala
    requires r'.tipoComparacion == r.tipoComparacion && r'.operador == r.operador && r'.origenLimite == r.origenLimite
             && r'.participa == r.participa && r'.evalua == r.evalua && r'.informativo == r.informativo
             && r'.valorGlobal == r.valorGlobal && r'.evaluacionBooleano == r.evaluacionBooleano
    requires r'.tipo == r.tipo && r'.unidad == r.unidad
             && r'.etiquetaVerdadero == r.etiquetaVerdadero && r'.etiquetaFalso == r.etiquetaFalso
             && r'.trueLabel == r.trueLabel && r'.falseLabel == r.falseLabel
    ensures r' == r
  {
  }

  /** Reconciled again from what the last leaf with its code saved, a leaf keeps its rule. */
  lemma RuleStable(kind: LimitKind, i: Leaf, j: Leaf, saved: Object, stored: Option<FieldRow>, stored': Option<FieldRow>)
    requires Determines(i, j) && i.codigo != ""
    requires var r := RuleFor(kind, j, saved, stored);
             !Truthy(r.unidad) ==> !Truthy(StoredUnit(stored'))
    ensures RuleFor(kind, i, saved + Overlay(i.codigo, RuleFor(kind, j, saved, stored)), stored')
         == RuleFor(kind, i, saved, stored)
  {
    var r := RuleFor(kind, j, saved, stored);
    var saved' := saved + Overlay(i.codigo, r);
    EntryGet(saved, i.codigo, r);
    hide RuleFor, Overlay, OwnedValue, OWNED, Get;
    StructureOnly(kind, i, saved, stored, saved', stored');
    SameDecisions(kind, i, j, saved, stored, saved', stored');
    SameTexts(kind, i, j, saved, stored, saved', stored');
    SameFields(RuleFor(kind, i, saved, stored), RuleFor(kind, i, saved', stored'));
  }

  /** The same for the empty code, which the saved rules never carry: only the row is shared. */
  lemma RuleStableEmpty(kind: LimitKind, i: Leaf, j: Leaf, stored: Option<FieldRow>, stored': Option<FieldRow>,
                        render: Renderer, orden: nat)
    requires Determines(i, j) && i.codigo == ""
    requires var r := RuleFor(kind, j, map[], stored);
             stored' == if Evaluated(r) then Some(UpsertedRow(render, j, orden, r, map[], stored, stored))
                        else if stored.Some? then Some(stored.value.(activo := false)) else None
    ensures RuleFor(kind, i, map[], stored') == RuleFor(kind, i, map[], stored)
  {
  }

  /** Whether a leaf is evaluated depends on its structure only through its default comparison. */
  lemma SameSwitches(kind: LimitKind, i: Leaf, j: Leaf, saved: Object, stored: Option<FieldRow>)
    requires ComparisonFromComponent(i.componente) == ComparisonFromComponent(j.componente)
    ensures Evaluated(RuleFor(kind, i, saved, stored)) == Evaluated(RuleFor(kind, j, saved, stored))
  {
  }

  // ---------- The last leaf with a code ----------

  function Last(leaves: seq<Leaf>, codigo: string): (k: int)
    ensures -1 <= k < |leaves|
    ensures k >= 0 ==> leaves[k].codigo == codigo
    ensures forall i :: k < i < |leaves| ==> leaves[i].codigo != codigo
  {
    if leaves == [] then -1
    else if leaves[|leaves| - 1].codigo == codigo then |leaves| - 1
    else Last(leaves[..|leaves| - 1], codigo)
  }

  /** Every leaf determines what the last leaf with its code would write for it. */
  predicate Consistent(leaves: seq<Leaf>) {
    forall i :: 0 <= i < |leaves| ==> ConsistentAt(leaves, i)
  }

  predicate ConsistentAt(leaves: seq<Leaf>, i: nat)
    requires i < |leaves|
  {
    Determines(leaves[i], leaves[Last(leaves, leaves[i].codigo)])
  }

  predicate DistinctCodes(leaves: seq<Leaf>) {
    forall i, j :: 0 <= i < j < |leaves| ==> leaves[i].codigo != leaves[j].codigo
  }

  // ---------- What one reconciliation leaves behind ----------

  lemma CodeKey(render: Renderer, c: string)
    ensures PyStr(render, Str(c)) == c
  {
  }

  lemma {:induction false} ByCodeLast(render: Renderer, items: seq<Json>, leaves: seq<Leaf>, c: string)
    requires |items| == |leaves|
    requires forall i :: 0 <= i < |items| ==> items[i].Obj? && Get(items[i].fields, Codigo) == Str(leaves[i].codigo)
    ensures var m := ByCode(render, items);
            var k := Last(leaves, c);
            if c != "" && k >= 0 then c in m && m[c] == items[k].fields else c !in m
  {
    if items != [] {
      var n := |items| - 1;
      ByCodeStep(render, items, leaves[n].codigo);
      ByCodeLast(render, items[..n], leaves[..n], c);
      hide ByCode;
    }
  }

  lemma ByCodeStep(render: Renderer, items: seq<Json>, codigo: string)
    requires items != [] && items[|items| - 1].Obj? && Get(items[|items| - 1].fields, Codigo) == Str(codigo)
    ensures var n := |items| - 1;
            var rest := ByCode(render, items[..n]);
            ByCode(render, items) == if codigo != "" then rest[codigo := items[n].fields] else rest
  {
    CodeKey(render, codigo);
    hide Get;
  }

  /** The saved rules read back from canonical entries: the last entry of each nonempty code. */
  lemma SavedBack(render: Renderer, b: Before, leaves: seq<Leaf>, c: string)
    ensures var m := ByCode(render, Objects(Entries(b, leaves)));
            var k := Last(leaves, c);
            if c != "" && k >= 0 then c in m && m[c] == b.Entry(leaves[k]) else c !in m
  {
    EntriesAt(b, leaves);
    var items := Objects(Entries(b, leaves));
    forall i | 0 <= i < |items|
      ensures items[i].Obj? && Get(items[i].fields, Codigo) == Str(leaves[i].codigo)
    {
      EntryGet(b.Saved(leaves[i]), leaves[i].codigo, b.RuleOf(leaves[i]));
      hide Overlay, OwnedValue, OWNED, RuleFor;
    }
    hide Overlay, OwnedValue, OWNED, RuleFor;
    ByCodeLast(render, items, leaves, c);
  }

  function RowFor(render: Renderer, b: Before, leaf: Leaf, orden: nat): FieldRow {
    UpsertedRow(render, leaf, orden, b.RuleOf(leaf), b.Saved(leaf), b.Stored(leaf), b.Stored(leaf))
  }

  /** The last leaf with code `c` that is marked. */
  function LastMarked(marks: seq<bool>, leaves: seq<Leaf>, c: string): (w: int)
    requires |marks| == |leaves|
    ensures -1 <= w <= Last(leaves, c) && (w >= 0 ==> leaves[w].codigo == c && marks[w])
    ensures forall i :: w < i < |leaves| && leaves[i].codigo == c ==> !marks[i]
  {
    if leaves == [] then -1
    else
      var n := |leaves| - 1;
      if leaves[n].codigo == c && marks[n] then n else LastMarked(marks[..n], leaves[..n], c)
  }

  function Evaluations(b: Before, leaves: seq<Leaf>): (marks: seq<bool>)
    ensures |marks| == |leaves| && forall i :: 0 <= i < |leaves| ==> marks[i] == Evaluated(b.RuleOf(leaves[i]))
  {
    seq(|leaves|, i requires 0 <= i < |leaves| => Evaluated(b.RuleOf(leaves[i])))
  }

  /** The last leaf with code `c` that is evaluated. */
  function LastEvaluated(b: Before, leaves: seq<Leaf>, c: string): (w: int)
    ensures -1 <= w <= Last(leaves, c) && (w >= 0 ==> leaves[w].codigo == c && Evaluations(b, leaves)[w])
  {
    LastMarked(Evaluations(b, leaves), leaves, c)
  }

  lemma LastEvaluatedStep(b: Before, leaves: seq<Leaf>, c: string)
    requires leaves != []
    ensures var n := |leaves| - 1;
            LastEvaluated(b, leaves, c)
            == if leaves[n].codigo == c && Evaluated(b.RuleOf(leaves[n])) then n else LastEvaluated(b, leaves[..n], c)
  {
    hide RuleFor, Evaluated;
    var n := |leaves| - 1;
    assert Evaluations(b, leaves)[..n] == Evaluations(b, leaves[..n]);
  }

  /** The row of a code after one reconciliation. It is that of the last evaluated leaf with the code; a later
      leaf that is not evaluated deactivates it only if the row was there before. */
  function RowThen(render: Renderer, b: Before, leaves: seq<Leaf>, c: string): Option<FieldRow> {
    var w := LastEvaluated(b, leaves, c);
    if w >= 0 then Some(RowFor(render, b, leaves[w], w + 1).(activo := w == Last(leaves, c) || c !in b.rows))
    else if c in b.rows then Some(b.rows[c].(activo := false)) else None
  }

  /** The same, also for a code that no leaf has. */
  function RowSoFar(render: Renderer, b: Before, leaves: seq<Leaf>, c: string): Option<FieldRow> {
    if Last(leaves, c) < 0 then Lookup(b.rows, c) else RowThen(render, b, leaves, c)
  }

  lemma UpsertedOver(render: Renderer, b: Before, leaf: Leaf, orden: nat, current: Option<FieldRow>)
    requires if current.Some? then current.value.otros == (if b.Stored(leaf).Some? then b.Stored(leaf).value.otros else DEFAULT_COLUMNS)
             else b.Stored(leaf).None?
    ensures UpsertedRow(render, leaf, orden, b.RuleOf(leaf), b.Saved(leaf), b.Stored(leaf), current) == RowFor(render, b, leaf, orden)
    ensures RowFor(render, b, leaf, orden).activo
  {
    hide RuleFor;
  }

  lemma {:induction false} RowsAt(render: Renderer, b: Before, leaves: seq<Leaf>, c: string)
    ensures Lookup(RowsAfter(render, b, leaves), c)
         == RowSoFar(render, b, leaves, c)
  {
    hide RuleFor, Evaluated, Before.Saved, Before.RuleOf, UpsertedRow, RowFor, LastEvaluated, RowThen, StepRows;
    if leaves != [] {
      var n := |leaves| - 1;
      RowsAt(render, b, leaves[..n], c);
      if leaves[n].codigo == c {
        RowStep(render, b, leaves, c);
      } else {
        OtherStep(render, b, leaves, c);
      }
    }
  }

  /** What one leaf does to the row of a code. */
  lemma StepAt(render: Renderer, b: Before, leaf: Leaf, orden: nat, rows: map<string, FieldRow>, c: string)
    ensures leaf.codigo != c ==> Lookup(StepRows(render, b, leaf, orden, rows), c) == Lookup(rows, c)
    ensures leaf.codigo == c ==>
              Lookup(StepRows(render, b, leaf, orden, rows), c)
              == if Evaluated(b.RuleOf(leaf)) then
                   Some(UpsertedRow(render, leaf, orden, b.RuleOf(leaf), b.Saved(leaf), b.Stored(leaf), Lookup(rows, c)))
                 else if c in b.rows && c in rows then Some(rows[c].(activo := false)) else Lookup(rows, c)
  {
    hide RuleFor, Evaluated, UpsertedRow;
  }

  lemma OtherStep(render: Renderer, b: Before, leaves: seq<Leaf>, c: string)
    requires leaves != [] && leaves[|leaves| - 1].codigo != c
    ensures var before := leaves[..|leaves| - 1];
            && Lookup(RowsAfter(render, b, leaves), c) == Lookup(RowsAfter(render, b, before), c)
            && RowThen(render, b, leaves, c) == RowThen(render, b, before, c) && Last(leaves, c) == Last(before, c)
  {
    hide RuleFor, Evaluated, Before.Saved, Before.RuleOf, UpsertedRow, RowFor, LastEvaluated, StepRows, Lookup;
    var n := |leaves| - 1;
    LastEvaluatedStep(b, leaves, c);
    StepAt(render, b, leaves[n], n + 1, RowsAfter(render, b, leaves[..n]), c);
  }

  /** The row after one more leaf with the code, from the row before it. */
  lemma RowStep(render: Renderer, b: Before, leaves: seq<Leaf>, c: string)
    requires leaves != [] && leaves[|leaves| - 1].codigo == c
    requires Lookup(RowsAfter(render, b, leaves[..|leaves| - 1]), c) == RowSoFar(render, b, leaves[..|leaves| - 1], c)
    ensures Lookup(RowsAfter(render, b, leaves), c) == RowThen(render, b, leaves, c)
  {
    hide RuleFor, Evaluated, Before.Saved, Before.RuleOf, UpsertedRow, RowFor, RowThen, RowSoFar, StepRows;
    var n, before := |leaves| - 1, leaves[..|leaves| - 1];
    StepAt(render, b, leaves[n], n + 1, RowsAfter(render, b, before), c);
    if Evaluated(b.RuleOf(leaves[n])) {
      OthersBefore(render, b, before, leaves[n], c);
      UpsertedOver(render, b, leaves[n], n + 1, RowSoFar(render, b, before, c));
      EvaluatedLast(render, b, leaves, c);
    } else {
      SkippedLast(render, b, leaves, c);
    }
  }

  lemma EvaluatedLast(render: Renderer, b: Before, leaves: seq<Leaf>, c: string)
    requires leaves != [] && leaves[|leaves| - 1].codigo == c && Evaluated(b.RuleOf(leaves[|leaves| - 1]))
    ensures var n := |leaves| - 1;
            RowFor(render, b, leaves[n], n + 1).activo ==> RowThen(render, b, leaves, c) == Some(RowFor(render, b, leaves[n], n + 1))
  {
    hide Evaluated, Before.RuleOf, RowFor, LastEvaluated;
    LastEvaluatedStep(b, leaves, c);
    assert Last(leaves, c) == |leaves| - 1;
  }

  lemma SkippedLast(render: Renderer, b: Before, leaves: seq<Leaf>, c: string)
    requires leaves != [] && leaves[|leaves| - 1].codigo == c && !Evaluated(b.RuleOf(leaves[|leaves| - 1]))
    ensures var current := RowSoFar(render, b, leaves[..|leaves| - 1], c);
            RowThen(render, b, leaves, c)
            == if c in b.rows && current.Some? then Some(current.value.(activo := false)) else current
  {
    hide Evaluated, Before.RuleOf, RowFor, LastEvaluated;
    var n, before := |leaves| - 1, leaves[..|leaves| - 1];
    var w := LastEvaluated(b, before, c);
    LastEvaluatedStep(b, leaves, c);
    assert Last(leaves, c) == n;
    assert w >= 0 ==> before[w] == leaves[w] && Last(before, c) >= 0;
    hide Last;
  }

  /** Whatever wrote the row of the moment, it left the columns that reconciling does not own. */
  lemma OthersBefore(render: Renderer, b: Before, before: seq<Leaf>, leaf: Leaf, c: string)
    requires leaf.codigo == c
    ensures var current := RowSoFar(render, b, before, c);
            if current.Some? then current.value.otros == (if b.Stored(leaf).Some? then b.Stored(leaf).value.otros else DEFAULT_COLUMNS)
            else b.Stored(leaf).None?
  {
    hide RowFor, Last, LastEvaluated, RuleFor, Evaluated, Evaluations, Before.RuleOf, Before.Saved;
    var w := LastEvaluated(b, before, c);
    if w >= 0 {
      RowOthers(render, b, before[w], w + 1);
    }
  }

  lemma RowOthers(render: Renderer, b: Before, leaf: Leaf, orden: nat)
    ensures RowFor(render, b, leaf, orden).otros == if b.Stored(leaf).Some? then b.Stored(leaf).value.otros else DEFAULT_COLUMNS
  {
    hide RuleFor;
  }

  lemma {:induction false} NoEmptyCode(render: Renderer, items: seq<Json>)
    ensures "" !in ByCode(render, items)
  {
    if items != [] {
      NoEmptyCode(render, items[..|items| - 1]);
    }
  }

  /** `b1` is what a source holds after a reconciliation that started from `b0`. */
  predicate Follows(render: Renderer, leaves: seq<Leaf>, b0: Before, b1: Before) {
    && "" !in b0.saved
    && b1.kind == b0.kind
    && b1.saved == ByCode(render, Objects(Entries(b0, leaves)))
    && b1.rows == KeepActive(RowsAfter(render, b0, leaves), Codes(leaves))
  }

  lemma ReconciledFollows(render: Renderer, leaves: seq<Leaf>, src: Source)
    ensures Follows(render, leaves, BeforeOf(render, src), BeforeOf(render, ReconcileSource(render, leaves, src)))
  {
    NoEmptyCode(render, Configured(src.configuracion));
    hide Overlay, OwnedValue, OWNED, RuleFor, Entries, RowsAfter, ByCode;
  }

  lemma KeptAt(rows: map<string, FieldRow>, leaves: seq<Leaf>, c: string)
    ensures var kept := Lookup(KeepActive(rows, Codes(leaves)), c);
            kept == if Last(leaves, c) >= 0 || c !in rows then Lookup(rows, c)
                    else Some(rows[c].(activo := false))
  {
    if Last(leaves, c) >= 0 {
      assert leaves[Last(leaves, c)].codigo in Codes(leaves);
    }
  }

  /** The row stored for any code after one reconciliation. */
  lemma StoredAfter(render: Renderer, leaves: seq<Leaf>, b0: Before, c: string)
    ensures Lookup(KeepActive(RowsAfter(render, b0, leaves), Codes(leaves)), c) == RowThen(render, b0, leaves, c)
  {
    hide RuleFor, Evaluated, UpsertedRow, Overlay, OwnedValue, OWNED, RowsAfter, KeepActive, Codes;
    RowsAt(render, b0, leaves, c);
    KeptAt(RowsAfter(render, b0, leaves), leaves, c);
  }

  /** In a consistent structure the leaves with one code are all evaluated, or none is. */
  lemma LastDecides(b: Before, leaves: seq<Leaf>, c: string)
    requires Consistent(leaves) && Last(leaves, c) >= 0
    ensures LastEvaluated(b, leaves, c) == if Evaluated(b.RuleOf(leaves[Last(leaves, c)])) then Last(leaves, c) else -1
  {
    hide RuleFor, Evaluated, Consistent, Determines;
    var k, w := Last(leaves, c), LastEvaluated(b, leaves, c);
    if w >= 0 {
      SameEvaluation(b, leaves, w);
    }
    assert Evaluations(b, leaves)[k] == Evaluated(b.RuleOf(leaves[k]));
    hide Last, Evaluations, LastMarked, Before.RuleOf;
  }

  lemma SameEvaluation(b: Before, leaves: seq<Leaf>, i: nat)
    requires Consistent(leaves) && i < |leaves|
    ensures Evaluated(b.RuleOf(leaves[i])) == Evaluated(b.RuleOf(leaves[Last(leaves, leaves[i].codigo)]))
  {
    hide RuleFor, Evaluated;
    var last := leaves[Last(leaves, leaves[i].codigo)];
    assert ConsistentAt(leaves, i);
    SameSwitches(b.kind, leaves[i], last, b.Saved(last), b.Stored(last));
    hide Consistent, ConsistentAt, Determines, Last;
  }

  /** So the last leaf with a code decides about its row. */
  lemma ConsistentRow(render: Renderer, leaves: seq<Leaf>, b0: Before, c: string)
    requires Consistent(leaves) && Last(leaves, c) >= 0
    ensures var leaf, k := leaves[Last(leaves, c)], Last(leaves, c);
            RowThen(render, b0, leaves, c)
            == if Evaluated(b0.RuleOf(leaf)) then Some(RowFor(render, b0, leaf, k + 1))
               else if b0.Stored(leaf).Some? then Some(b0.Stored(leaf).value.(activo := false)) else None
  {
    hide RuleFor, Evaluated, UpsertedRow, RowFor, LastEvaluated, Last, Consistent;
    var k := Last(leaves, c);
    LastDecides(b0, leaves, c);
    UpsertedOver(render, b0, leaves[k], k + 1, b0.Stored(leaves[k]));
    hide Before.RuleOf, Before.Saved;
  }

  /** An empty unit stays empty in the row. */
  lemma UnitKept(render: Renderer, kind: LimitKind, j: Leaf, saved: Object, stored: Option<FieldRow>, orden: nat)
    ensures var r := RuleFor(kind, j, saved, stored);
            !Truthy(r.unidad) ==>
              && !Truthy(StoredUnit(stored))
              && !Truthy(StoredUnit(Some(UpsertedRow(render, j, orden, r, saved, stored, stored))))
  {
  }

  lemma RuleAfter(render: Renderer, leaves: seq<Leaf>, b0: Before, b1: Before, i: nat)
    requires Consistent(leaves) && Follows(render, leaves, b0, b1) && i < |leaves|
    ensures b1.RuleOf(leaves[i]) == b0.RuleOf(leaves[i])
    ensures b1.Entry(leaves[i]) == b0.Entry(leaves[i])
  {
    hide RuleFor, Evaluated, UpsertedRow, Overlay, ByCode, Entries, RowsAfter, Determines, KeepActive, RowThen, Codes, Last;
    var leaf, c := leaves[i], leaves[i].codigo;
    var k := Last(leaves, c);
    var last := leaves[k];
    assert ConsistentAt(leaves, i);
    StoredAfter(render, leaves, b0, c);
    ConsistentRow(render, leaves, b0, c);
    SavedBack(render, b0, leaves, c);
    if c == "" {
      RuleStableEmpty(b0.kind, leaf, last, b0.Stored(leaf), b1.Stored(leaf), render, k + 1);
    } else {
      UnitKept(render, b0.kind, last, b0.Saved(leaf), b0.Stored(leaf), k + 1);
      RuleStable(b0.kind, leaf, last, b0.Saved(leaf), b0.Stored(leaf), b1.Stored(leaf));
      OverlayTwice(b0.Saved(leaf), c, b0.RuleOf(last), b0.RuleOf(leaf));
    }
  }

  lemma EntriesAgain(render: Renderer, leaves: seq<Leaf>, b0: Before, b1: Before)
    requires Consistent(leaves) && Follows(render, leaves, b0, b1)
    ensures Entries(b1, leaves) == Entries(b0, leaves)
  {
    hide *;
    forall i: nat | i < |leaves|
      ensures b1.Entry(leaves[i]) == b0.Entry(leaves[i])
    {
      RuleAfter(render, leaves, b0, b1, i);
    }
    EntriesAt(b0, leaves);
    EntriesAt(b1, leaves);
  }

  /** Upserting over the row just written, with the options just saved, writes the same row. */
  lemma UpsertAgain(render: Renderer, leaf: Leaf, orden: nat, r: Rule, saved: Object, saved': Object, stored: Option<FieldRow>)
    requires saved' == saved
             || (EvaluacionBooleano in saved' && saved'[EvaluacionBooleano] == GetOr(saved, EvaluacionBooleano, StoredOptions(stored)))
    ensures var row := UpsertedRow(render, leaf, orden, r, saved, stored, stored);
            UpsertedRow(render, leaf, orden, r, saved', Some(row), Some(row)) == row
  {
  }

  lemma RuleOptions(kind: LimitKind, leaf: Leaf, saved: Object, stored: Option<FieldRow>)
    ensures RuleFor(kind, leaf, saved, stored).evaluacionBooleano == GetOr(saved, EvaluacionBooleano, StoredOptions(stored))
  {
  }

  /** Writing an evaluated row over itself changes nothing. */
  lemma RowAgain(render: Renderer, b0: Before, b1: Before, leaf: Leaf, orden: nat)
    requires b1.RuleOf(leaf) == b0.RuleOf(leaf)
    requires b1.Stored(leaf) == Some(RowFor(render, b0, leaf, orden))
    requires leaf.codigo == "" ==> b0.Saved(leaf) == map[] == b1.Saved(leaf)
    requires leaf.codigo != "" ==> b1.Saved(leaf) == b0.Entry(leaf)
    ensures RowFor(render, b1, leaf, orden) == RowFor(render, b0, leaf, orden)
  {
    hide Overlay, OwnedValue, OWNED, RuleFor, UpsertedRow, StoredOptions;
    var r := b0.RuleOf(leaf);
    EntryValues(b0.Saved(leaf), leaf.codigo, r);
    RuleOptions(b0.kind, leaf, b0.Saved(leaf), b0.Stored(leaf));
    UpsertAgain(render, leaf, orden, r, b0.Saved(leaf), b1.Saved(leaf), b0.Stored(leaf));
  }

  lemma RowsAgain(render: Renderer, leaves: seq<Leaf>, b0: Before, b1: Before, c: string)
    requires Consistent(leaves) && Follows(render, leaves, b0, b1)
    ensures Lookup(KeepActive(RowsAfter(render, b1, leaves), Codes(leaves)), c) == Lookup(b1.rows, c)
  {
    hide RuleFor, Evaluated, UpsertedRow, Overlay, ByCode, Entries, RowsAfter, KeepActive, Consistent;
    var k := Last(leaves, c);
    StoredAfter(render, leaves, b0, c);
    StoredAfter(render, leaves, b1, c);
    if k >= 0 {
      ConsistentRow(render, leaves, b0, c);
      ConsistentRow(render, leaves, b1, c);
      RuleAfter(render, leaves, b0, b1, k);
      SavedBack(render, b0, leaves, c);
      if Evaluated(b0.RuleOf(leaves[k])) {
        RowAgain(render, b0, b1, leaves[k], k + 1);
      }
    }
  }

  predicate Idempotent(render: Renderer, leaves: seq<Leaf>, src: Source) {
    ReconcileSource(render, leaves, ReconcileSource(render, leaves, src)) == ReconcileSource(render, leaves, src)
  }

  lemma SameRows(a: map<string, FieldRow>, b: map<string, FieldRow>)
    requires forall c :: Lookup(a, c) == Lookup(b, c)
    ensures a == b
  {
    forall c
      ensures c in a <==> c in b
      ensures c in a ==> a[c] == b[c]
    {
      assert Lookup(a, c) == Lookup(b, c);
    }
  }

  lemma AllRowsAgain(render: Renderer, leaves: seq<Leaf>, b0: Before, b1: Before)
    requires Consistent(leaves) && Follows(render, leaves, b0, b1)
    ensures KeepActive(RowsAfter(render, b1, leaves), Codes(leaves)) == b1.rows
  {
    hide *;
    var rows := KeepActive(RowsAfter(render, b1, leaves), Codes(leaves));
    forall c
      ensures Lookup(rows, c) == Lookup(b1.rows, c)
    {
      RowsAgain(render, leaves, b0, b1, c);
    }
    SameRows(rows, b1.rows);
  }

  lemma WriteAgain(configuracion: Object, a: Json, b: Json)
    ensures var once := configuracion[Campos := a][Informativos := b];
            once[Campos := a][Informativos := b] == once
  {
  }

  lemma ConsistentIsIdempotent(render: Renderer, leaves: seq<Leaf>, src: Source)
    requires Consistent(leaves)
    ensures Idempotent(render, leaves, src)
  {
    hide RuleFor, OwnedValue, OWNED, Overlay, Entries, RowsAfter, SavedRules, ByCode, KeepActive, InformativeCodes, Consistent, Follows;
    var src1 := ReconcileSource(render, leaves, src);
    var b0, b1 := BeforeOf(render, src), BeforeOf(render, src1);
    ReconciledFollows(render, leaves, src);
    EntriesAgain(render, leaves, b0, b1);
    AllRowsAgain(render, leaves, b0, b1);
    var entries := Entries(b0, leaves);
    WriteAgain(src.configuracion, Arr(Objects(entries)), Arr(InformativeCodes(entries)));
  }

  // ---------- The converse: an inconsistent structure has a source it changes twice ----------

  /** If the second reconciliation changes nothing, it decides the same for every leaf. */
  lemma IdempotentRules(render: Renderer, leaves: seq<Leaf>, src: Source, i: nat)
    requires Idempotent(render, leaves, src) && i < |leaves|
    ensures var b0, b1 := BeforeOf(render, src), BeforeOf(render, ReconcileSource(render, leaves, src));
            var r0, r1 := b0.RuleOf(leaves[i]), b1.RuleOf(leaves[i]);
            && r1.tipoComparacion == r0.tipoComparacion && r1.unidad == r0.unidad && r1.tipo == r0.tipo
            && r1.etiquetaVerdadero == r0.etiquetaVerdadero && r1.etiquetaFalso == r0.etiquetaFalso
  {
    hide RuleFor, OwnedValue, OWNED, Overlay, RowsAfter, SavedRules, ByCode, KeepActive, InformativeCodes, Entries;
    var src1 := ReconcileSource(render, leaves, src);
    var b0, b1 := BeforeOf(render, src), BeforeOf(render, src1);
    var e0, e1 := Entries(b0, leaves), Entries(b1, leaves);
    assert Get(src1.configuracion, Campos) == Arr(Objects(e0));
    assert Get(ReconcileSource(render, leaves, src1).configuracion, Campos) == Arr(Objects(e1));
    EntriesAt(b0, leaves);
    EntriesAt(b1, leaves);
    assert Objects(e0)[i] == Objects(e1)[i];
    EntryGet(b0.Saved(leaves[i]), leaves[i].codigo, b0.RuleOf(leaves[i]));
    EntryGet(b1.Saved(leaves[i]), leaves[i].codigo, b1.RuleOf(leaves[i]));
  }

  /** A source with at most one saved rule and one stored row, both for the code `c`. */
  function SmallSource(c: string, saved: Object, stored: Option<FieldRow>): Source {
    Source(0, Global,
           if saved == map[] then map[] else map[Campos := Arr([Obj(saved[Codigo := Str(c)])])],
           if stored.Some? then map[c := stored.value] else map[])
  }

  lemma SmallBefore(render: Renderer, c: string, saved: Object, stored: Option<FieldRow>)
    ensures var b := BeforeOf(render, SmallSource(c, saved, stored));
            && b.kind == Global
            && b.saved == (if saved == map[] || c == "" then map[] else map[c := saved[Codigo := Str(c)]])
            && b.rows == if stored.Some? then map[c := stored.value] else map[]
  {
    var src := SmallSource(c, saved, stored);
    if saved != map[] {
      var entry := saved[Codigo := Str(c)];
      assert Configured(src.configuracion) == [Obj(entry)];
      assert Configured(src.configuracion)[..0] == [];
      assert ByCode(render, [Obj(entry)]) == if c == "" then map[] else map[c := entry];
    }
  }

  /** Something that the rule of the last leaf saves overrides what the first leaf had decided. */
  predicate Overrides(leaf: Leaf, r: Rule, rLast: Rule) {
    || (Truthy(rLast.tipoComparacion) && rLast.tipoComparacion != r.tipoComparacion)
    || (!Truthy(LeafUnit(leaf)) && Truthy(rLast.unidad) && rLast.unidad != r.unidad)
    || (!Truthy(LeafType(leaf)) && Truthy(rLast.tipo) && rLast.tipo != r.tipo)
    || (!Truthy(LeafTrue(leaf)) && Truthy(rLast.etiquetaVerdadero) && rLast.etiquetaVerdadero != r.etiquetaVerdadero)
    || (!Truthy(LeafFalse(leaf)) && Truthy(rLast.etiquetaFalso) && rLast.etiquetaFalso != r.etiquetaFalso)
  }

  function SmallSaved(saved: Object, c: string): Object {
    if saved == map[] then map[] else saved[Codigo := Str(c)]
  }

  lemma WitnessByRule(render: Renderer, leaves: seq<Leaf>, i: nat, saved: Object)
    requires i < |leaves| && leaves[i].codigo != ""
    requires var s := SmallSaved(saved, leaves[i].codigo);
             Overrides(leaves[i], RuleFor(Global, leaves[i], s, None),
                       RuleFor(Global, leaves[Last(leaves, leaves[i].codigo)], s, None))
    ensures !Idempotent(render, leaves, SmallSource(leaves[i].codigo, saved, None))
  {
    hide RuleFor, Overlay, OwnedValue, OWNED, ReconcileSource, BeforeOf, Entries, ByCode, RowsAfter, SmallSource, Idempotent,
      Comparison, LeafUnit, LeafType, LeafTrue, LeafFalse, StoredUnit;
    var leaf, c := leaves[i], leaves[i].codigo;
    var src := SmallSource(c, saved, None);
    if Idempotent(render, leaves, src) {
      var last := leaves[Last(leaves, c)];
      var b0, b1 := BeforeOf(render, src), BeforeOf(render, ReconcileSource(render, leaves, src));
      SmallBefore(render, c, saved, None);
      IdempotentRules(render, leaves, src, i);
      ReconciledFollows(render, leaves, src);
      SavedBack(render, b0, leaves, c);
      EntryGet(b0.Saved(last), c, b0.RuleOf(last));
      RuleFields(b1.kind, leaf, b1.Saved(leaf), b1.Stored(leaf));
      SavedComparisonWins(leaf, b1.Saved(leaf), b1.Stored(leaf));
      assert false;
    }
  }

  lemma SavedComparisonWins(leaf: Leaf, saved: Object, stored: Option<FieldRow>)
    ensures Truthy(Get(saved, TipoComparacion)) ==> Comparison(leaf, saved, stored) == Get(saved, TipoComparacion)
  {
  }

  lemma StructureOverrides(leaf: Leaf, last: Leaf)
    requires || ComparisonFromComponent(leaf.componente) != ComparisonFromComponent(last.componente)
             || (!Truthy(LeafUnit(leaf)) && Truthy(LeafUnit(last)))
    ensures Overrides(leaf, RuleFor(Global, leaf, map[], None), RuleFor(Global, last, map[], None))
  {
    hide RuleFor, ComparisonFromComponent, LeafUnit, LeafType, LeafTrue, LeafFalse, Evaluated;
    RuleFields(Global, leaf, map[], None);
    RuleFields(Global, last, map[], None);
    ComparisonNonempty(last.componente);
    assert Get(map[], Unidad) == Get(map[], TipoComparacion) == Null;
  }

  lemma WitnessByStructure(render: Renderer, leaves: seq<Leaf>, i: nat)
    requires i < |leaves| && leaves[i].codigo != ""
    requires var last := leaves[Last(leaves, leaves[i].codigo)];
             || ComparisonFromComponent(leaves[i].componente) != ComparisonFromComponent(last.componente)
             || (!Truthy(LeafUnit(leaves[i])) && Truthy(LeafUnit(last)))
    ensures !Idempotent(render, leaves, SmallSource(leaves[i].codigo, map[], None))
  {
    StructureOverrides(leaves[i], leaves[Last(leaves, leaves[i].codigo)]);
    hide RuleFor, Idempotent, ComparisonFromComponent, LeafUnit, Overrides, SmallSource;
    WitnessByRule(render, leaves, i, map[]);
  }

  lemma WitnessByText(render: Renderer, leaves: seq<Leaf>, i: nat, text: string)
    requires i < |leaves| && leaves[i].codigo != "" && text != ""
    requires var last := leaves[Last(leaves, leaves[i].codigo)];
             || (!Truthy(LeafType(leaves[i])) && Truthy(LeafType(last)) && LeafType(last) != Str(text))
             || (!Truthy(LeafTrue(leaves[i])) && Truthy(LeafTrue(last)) && LeafTrue(last) != Str(text))
             || (!Truthy(LeafFalse(leaves[i])) && Truthy(LeafFalse(last)) && LeafFalse(last) != Str(text))
    ensures !Idempotent(render, leaves, SmallSource(leaves[i].codigo, TextRule(text), None))
  {
    hide RuleFor, Idempotent, LeafType, LeafTrue, LeafFalse, TextRule, Overrides;
    TextOverrides(leaves[i], leaves[Last(leaves, leaves[i].codigo)], leaves[i].codigo, text);
    hide Last;
    WitnessByRule(render, leaves, i, TextRule(text));
  }

  lemma TextOverrides(leaf: Leaf, last: Leaf, c: string, text: string)
    requires text != ""
    requires || (!Truthy(LeafType(leaf)) && Truthy(LeafType(last)) && LeafType(last) != Str(text))
             || (!Truthy(LeafTrue(leaf)) && Truthy(LeafTrue(last)) && LeafTrue(last) != Str(text))
             || (!Truthy(LeafFalse(leaf)) && Truthy(LeafFalse(last)) && LeafFalse(last) != Str(text))
    ensures TextRule(text) != map[]
    ensures var s := TextRule(text)[Codigo := Str(c)];
            Overrides(leaf, RuleFor(Global, leaf, s, None), RuleFor(Global, last, s, None))
  {
    hide RuleFor, Comparison, LeafUnit, LeafType, LeafTrue, LeafFalse, TextRule, Get;
    var s := TextRule(text)[Codigo := Str(c)];
    TextValues(text, c);
    RuleFields(Global, leaf, s, None);
    RuleFields(Global, last, s, None);
  }

  function TextRule(text: string): Object {
    map[Tipo := Str(text), EtiquetaVerdadero := Str(text), EtiquetaFalso := Str(text)]
  }

  lemma TextValues(text: string, c: string)
    ensures TextRule(text) != map[]
    ensures var s := TextRule(text)[Codigo := Str(c)];
            Get(s, Tipo) == Get(s, EtiquetaVerdadero) == Get(s, EtiquetaFalso) == Str(text)
  {
    assert Tipo in TextRule(text);
  }

  lemma WitnessNonemptyCode(render: Renderer, leaves: seq<Leaf>, i: nat) returns (src: Source)
    requires i < |leaves| && leaves[i].codigo != "" && !ConsistentAt(leaves, i)
    ensures !Idempotent(render, leaves, src)
  {
    hide RuleFor, Idempotent, ComparisonFromComponent, TextRule;
    var c := leaves[i].codigo;
    var leaf, last := leaves[i], leaves[Last(leaves, c)];
    if && ComparisonFromComponent(leaf.componente) == ComparisonFromComponent(last.componente)
       && (Truthy(LeafUnit(last)) ==> Truthy(LeafUnit(leaf))) {
      var component := last.componente.value;
      var text := component.tipoDato + component.etiquetaVerdadero + component.etiquetaFalso + "x";
      WitnessByText(render, leaves, i, text);
      src := SmallSource(c, TextRule(text), None);
    } else {
      WitnessByStructure(render, leaves, i);
      src := SmallSource(c, map[], None);
    }
  }

  /** Empty code, no saved rule and no row: the row left is that of the last evaluated leaf. */
  lemma {:induction false} LastWriter(render: Renderer, b: Before, leaves: seq<Leaf>, c: string) returns (e: int)
    requires b.rows == map[] && b.saved == map[]
    ensures e < 0 ==> forall i :: 0 <= i < |leaves| && leaves[i].codigo == c ==>
                                    ComparisonFromComponent(leaves[i].componente) == "comentario"
    ensures e >= 0 ==>
              && e < |leaves| && leaves[e].codigo == c
              && ComparisonFromComponent(leaves[e].componente) != "comentario"
              && c in RowsAfter(render, b, leaves)
              && RowsAfter(render, b, leaves)[c].tipoComparacion == ComparisonFromComponent(leaves[e].componente)
  {
    hide RuleFor, OwnedValue, OWNED, Overlay, Evaluated, ComparisonFromComponent;
    e := -1;
    if leaves != [] {
      var n := |leaves| - 1;
      e := LastWriter(render, b, leaves[..n], c);
      RuleFields(b.kind, leaves[n], map[], None);
      if leaves[n].codigo == c && ComparisonFromComponent(leaves[n].componente) != "comentario" {
        e := n;
      }
    }
  }

  /** Under the empty code an idempotent source decides the same from the row the first run left. */
  lemma EmptyCodeAgain(render: Renderer, leaves: seq<Leaf>, stored: Option<FieldRow>, i: nat)
    requires i < |leaves| && leaves[i].codigo == ""
    requires Idempotent(render, leaves, SmallSource("", map[], stored))
    ensures var b0 := BeforeOf(render, SmallSource("", map[], stored));
            var after := Lookup(RowsAfter(render, b0, leaves), "");
            && b0 == Before(Global, map[], if stored.Some? then map["" := stored.value] else map[])
            && Comparison(leaves[i], map[], after) == Comparison(leaves[i], map[], stored)
            && Or(LeafUnit(leaves[i]), Or(StoredUnit(after), Str("")))
            == Or(LeafUnit(leaves[i]), Or(StoredUnit(stored), Str("")))
  {
    hide RuleFor, OwnedValue, OWNED, Overlay, Evaluated, ComparisonOfType, Idempotent, ReconcileSource, SavedRules, Entries, ByCode,
      RowsAfter, SmallSource, KeepActive, Comparison, LeafUnit;
    var src := SmallSource("", map[], stored);
    var b0, b1 := BeforeOf(render, src), BeforeOf(render, ReconcileSource(render, leaves, src));
    SmallBefore(render, "", map[], stored);
    IdempotentRules(render, leaves, src, i);
    ReconciledFollows(render, leaves, src);
    SavedBack(render, b0, leaves, "");
    KeptAt(RowsAfter(render, b0, leaves), leaves, "");
    RuleFields(Global, leaves[i], map[], stored);
    RuleFields(Global, leaves[i], map[], b1.Stored(leaves[i]));
  }

  lemma WitnessEmptyByComparison(render: Renderer, leaves: seq<Leaf>, i: nat, k: nat)
    requires i < |leaves| && k < |leaves| && leaves[i].codigo == "" == leaves[k].codigo
    requires ComparisonFromComponent(leaves[i].componente) != ComparisonFromComponent(leaves[k].componente)
    ensures !Idempotent(render, leaves, SmallSource("", map[], None))
  {
    hide RuleFor, Idempotent, ComparisonOfType, RowsAfter, SmallSource, BeforeOf;
    if Idempotent(render, leaves, SmallSource("", map[], None)) {
      var b0 := BeforeOf(render, SmallSource("", map[], None));
      EmptyCodeAgain(render, leaves, None, i);
      EmptyCodeAgain(render, leaves, None, k);
      var e := LastWriter(render, b0, leaves, "");
      if e >= 0 {
        ComparisonNonempty(leaves[e].componente);
      }
      assert false;
    }
  }

  lemma EvaluatedByStored(leaf: Leaf, b: Before, stored: FieldRow)
    requires b == Before(Global, map[], map["" := stored]) && stored.tipoComparacion == "numerica" && leaf.codigo == ""
    ensures Evaluated(b.RuleOf(leaf))
  {
    hide RuleFor;
    RuleFields(Global, leaf, map[], Some(stored));
  }

  /** A stored numeric row keeps every leaf with the empty code evaluated. */
  lemma AllEvaluated(leaves: seq<Leaf>, b: Before, stored: FieldRow)
    requires b == Before(Global, map[], map["" := stored]) && stored.tipoComparacion == "numerica"
    ensures LastEvaluated(b, leaves, "") == Last(leaves, "")
  {
    hide RuleFor, Evaluated, Before.RuleOf;
    var k := Last(leaves, "");
    if k >= 0 {
      EvaluatedByStored(leaves[k], b, stored);
      assert Evaluations(b, leaves)[k];
    }
    hide Last, LastMarked, Evaluations;
  }

  lemma UpsertedUnit(render: Renderer, b: Before, leaf: Leaf, orden: nat)
    requires Truthy(LeafUnit(leaf))
    ensures forall activo :: Truthy(StoredUnit(Some(RowFor(render, b, leaf, orden).(activo := activo))))
  {
  }

  /** So the last one writes it. */
  lemma LastUnit(render: Renderer, leaves: seq<Leaf>, b: Before, stored: FieldRow)
    requires b == Before(Global, map[], map["" := stored]) && stored.tipoComparacion == "numerica"
    requires Last(leaves, "") >= 0 && Truthy(LeafUnit(leaves[Last(leaves, "")]))
    ensures Truthy(StoredUnit(Lookup(RowsAfter(render, b, leaves), "")))
  {
    hide RuleFor, RowsAfter, Evaluated, RowFor, LeafUnit, StoredUnit, Last;
    var k := Last(leaves, "");
    AllEvaluated(leaves, b, stored);
    RowsAt(render, b, leaves, "");
    UpsertedUnit(render, b, leaves[k], k + 1);
  }

  lemma WitnessEmptyByUnit(render: Renderer, leaves: seq<Leaf>, i: nat, stored: FieldRow)
    requires i < |leaves| && leaves[i].codigo == ""
    requires stored.tipoComparacion == "numerica" && stored.unidad == None
    requires Truthy(LeafUnit(leaves[Last(leaves, "")])) && !Truthy(LeafUnit(leaves[i]))
    ensures !Idempotent(render, leaves, SmallSource("", map[], Some(stored)))
  {
    hide RuleFor, Idempotent, RowsAfter, SmallSource, BeforeOf, LeafUnit, Comparison;
    if Idempotent(render, leaves, SmallSource("", map[], Some(stored))) {
      EmptyCodeAgain(render, leaves, Some(stored), i);
      LastUnit(render, leaves, BeforeOf(render, SmallSource("", map[], Some(stored))), stored);
      assert false;
    }
  }

  /** A structure that is not consistent has a source on which the second run undoes the first. */
  lemma InconsistentWitness(render: Renderer, leaves: seq<Leaf>) returns (src: Source)
    requires !Consistent(leaves)
    ensures !Idempotent(render, leaves, src)
  {
    var i: nat :| i < |leaves| && !ConsistentAt(leaves, i);
    var c := leaves[i].codigo;
    var leaf, last := leaves[i], leaves[Last(leaves, c)];
    if c != "" {
      src := WitnessNonemptyCode(render, leaves, i);
    } else if ComparisonFromComponent(leaf.componente) != ComparisonFromComponent(last.componente) {
      src := SmallSource("", map[], None);
      WitnessEmptyByComparison(render, leaves, i, Last(leaves, c));
    } else {
      var stored := FieldRow("", "", "numerica", None, Null, None, None, None, None, None, 1, true, None,
                             DEFAULT_COLUMNS);
      src := SmallSource("", map[], Some(stored));
      WitnessEmptyByUnit(render, leaves, i, stored);
    }
  }

  /** Reconciling twice is reconciling once for every prior mix of saved rules and stored rows,
      exactly when the structure is consistent about its codes. */
  lemma IdempotentIffConsistent(render: Renderer, leaves: seq<Leaf>)
    ensures (forall src :: Idempotent(render, leaves, src)) <==> Consistent(leaves)
  {
    if Consistent(leaves) {
      forall src ensures Idempotent(render, leaves, src) {
        ConsistentIsIdempotent(render, leaves, src);
      }
    } else {
      var src := InconsistentWitness(render, leaves);
      assert !Idempotent(render, leaves, src);
    }
  }

  lemma DistinctIsConsistent(leaves: seq<Leaf>)
    requires DistinctCodes(leaves)
    ensures Consistent(leaves)
  {
    forall i | 0 <= i < |leaves|
      ensures ConsistentAt(leaves, i)
    {
      assert Last(leaves, leaves[i].codigo) == i;
    }
  }

  /** In particular when no two leaves share a code. */
  lemma DistinctCodesIdempotent(render: Renderer, leaves: seq<Leaf>, src: Source)
    requires DistinctCodes(leaves)
    ensures Idempotent(render, leaves, src)
  {
    DistinctIsConsistent(leaves);
    ConsistentIsIdempotent(render, leaves, src);
  }
}
