/** The limit contract of a laboratory test: how the coded leaves of its result structure are
    merged with the saved JSON rules and the stored field rows of one limit source.
  */
module LimitContract {
  import opened Basics
  import opened Json

  // ---------- The structure of a test ----------

  datatype ResultRow = ResultRow(pk: int, nombre: string, unidadMedida: Option<string>)
  datatype DivisionRow = DivisionRow(pk: int, nombre: Option<string>)
  datatype ComponentRow = ComponentRow(
    pk: int, nombre: string, tipoDato: string, escala: Option<int>,
    etiquetaVerdadero: string, etiquetaFalso: string)

  /** A leaf: a stable code with the current nodes it stands for. */
  datatype Leaf = Leaf(
    nombre: string, codigo: string,
    resultado: Option<ResultRow>, division: Option<DivisionRow>, componente: Option<ComponentRow>)

  // ---------- Limit sources and their field rows ----------

  /** The columns of a field row that reconciliation never writes. */
  datatype OtherColumns = OtherColumns(
    modoOrdinal: string, opcionesPermitidas: Json, comentarios: seq<Option<string>>)

  const DEFAULT_COLUMNS := OtherColumns("orden", Null, [None, None, None])

  datatype FieldRow = FieldRow(
    nombre: string, operador: string, tipoComparacion: string, escala: Option<int>,
    evaluacionOpciones: Json, valorGlobal: Option<string>, unidad: Option<string>,
    resultado: Option<int>, division: Option<int>, componente: Option<int>,
    orden: nat, activo: bool, deletedAt: Option<int>, otros: OtherColumns)

  datatype LimitKind = Catalogo | CampoMuestra | SeleccionAsignacion | Global | SinLimite

  /** A source owns its field rows; (source, code) is unique, so they form a map by code. */
  datatype Source = Source(
    prueba: int, tipoLimite: LimitKind, configuracion: Object, campos: map<string, FieldRow>)

  // ---------- One leaf ----------

  function ComparisonOfType(tipoDato: string): string {
    if tipoDato == "numerico" then "numerica"
    else if tipoDato == "booleano" then "booleano"
    else if tipoDato == "escala" || tipoDato == "escala_ordinal" || tipoDato == "opcion" then "escala"
    else if tipoDato == "comentario" || tipoDato == "texto" then "comentario"
    else "numerica"
  }

  function ComparisonFromComponent(c: Option<ComponentRow>): string {
    ComparisonOfType(if c.Some? then c.value.tipoDato else "numerico")
  }

  /** What reconciliation decides for one leaf. */
  datatype Rule = Rule(
    nombre: Json, resultado: Json, resultadoNombre: Json, division: Json, divisionNombre: Json,
    componente: Json, tipo: Json, tipoComparacion: Json, unidad: Json, escala: Json,
    etiquetaVerdadero: Json, etiquetaFalso: Json, trueLabel: Json, falseLabel: Json,
    operador: Json, origenLimite: Json, participa: Json, evalua: Json, informativo: bool,
    valorGlobal: Json, evaluacionBooleano: Json)

  // Attributes of a leaf's component or result; null (or "") when the leaf has none.

  function LeafName(leaf: Leaf): Json {
    if leaf.componente.Some? then Str(leaf.componente.value.nombre) else Null
  }

  function ComponentScale(leaf: Leaf): Json {
    if leaf.componente.Some? then OptInt(leaf.componente.value.escala) else Null
  }

  function LeafType(leaf: Leaf): Json {
    if leaf.componente.Some? then Str(leaf.componente.value.tipoDato) else Null
  }

  function LeafTrue(leaf: Leaf): Json {
    if leaf.componente.Some? then Str(leaf.componente.value.etiquetaVerdadero) else Null
  }

  function LeafFalse(leaf: Leaf): Json {
    if leaf.componente.Some? then Str(leaf.componente.value.etiquetaFalso) else Null
  }

  function LeafUnit(leaf: Leaf): Json {
    if leaf.resultado.Some? then OptStr(leaf.resultado.value.unidadMedida) else Str("")
  }

  // Columns of the stored row, when there is one.

  function StoredComparison(stored: Option<FieldRow>): Json {
    if stored.Some? then Str(stored.value.tipoComparacion) else Null
  }

  function StoredOperator(stored: Option<FieldRow>): Json {
    if stored.Some? then Str(stored.value.operador) else Null
  }

  function StoredUnit(stored: Option<FieldRow>): Json {
    if stored.Some? then OptStr(stored.value.unidad) else Str("")
  }

  function StoredOptions(stored: Option<FieldRow>): Json {
    if stored.Some? then stored.value.evaluacionOpciones else Null
  }

  function HasGlobalValue(stored: Option<FieldRow>): bool {
    stored.Some? && stored.value.valorGlobal.Some? && stored.value.valorGlobal.value != ""
  }

  function Comparison(leaf: Leaf, saved: Object, stored: Option<FieldRow>): Json {
    Or(Get(saved, TipoComparacion),
       Or(StoredComparison(stored), Str(ComparisonFromComponent(leaf.componente))))
  }

  predicate IsInformative(leaf: Leaf, saved: Object, stored: Option<FieldRow>) {
    || Comparison(leaf, saved, stored) == Str("comentario")
    || Get(saved, Informativo) == Bool(true)
    || Get(saved, Evalua) == Bool(false)
  }

  /** `not informative` unless the saved rule says otherwise. */
  function Switch(saved: Object, k: Key, informative: bool): Json {
    if Get(saved, k) == Null then Bool(!informative) else Get(saved, k)
  }

  function RuleFor(kind: LimitKind, leaf: Leaf, saved: Object, stored: Option<FieldRow>): Rule {
    var comparison := Comparison(leaf, saved, stored);
    var informative := IsInformative(leaf, saved, stored);
    Rule(
      nombre := Or(LeafName(leaf), Str(leaf.nombre)),
      resultado := OptInt(if leaf.resultado.Some? then Some(leaf.resultado.value.pk) else None),
      resultadoNombre := Str(if leaf.resultado.Some? then leaf.resultado.value.nombre else ""),
      division := OptInt(if leaf.division.Some? then Some(leaf.division.value.pk) else None),
      divisionNombre := Or(if leaf.division.Some? then OptStr(leaf.division.value.nombre) else Str(""), Str("")),
      componente := OptInt(if leaf.componente.Some? then Some(leaf.componente.value.pk) else None),
      tipo := Or(LeafType(leaf), Or(Get(saved, Tipo), Str("numerico"))),
      tipoComparacion := comparison,
      unidad := Or(LeafUnit(leaf), Or(Get(saved, Unidad), Or(StoredUnit(stored), Str("")))),
      escala := Or(ComponentScale(leaf), Str("")),
      etiquetaVerdadero := Or(LeafTrue(leaf), Or(Get(saved, EtiquetaVerdadero), Str("Sí"))),
      etiquetaFalso := Or(LeafFalse(leaf), Or(Get(saved, EtiquetaFalso), Str("No"))),
      trueLabel := Or(LeafTrue(leaf), Or(Get(saved, TrueLabel), Str("Sí"))),
      falseLabel := Or(LeafFalse(leaf), Or(Get(saved, FalseLabel), Str("No"))),
      operador := Or(Get(saved, Operador),
                     Or(StoredOperator(stored),
                        Str(if comparison == Str("booleano") then "eq" else "max"))),
      origenLimite := Or(Get(saved, OrigenLimite),
                         Str(if informative then "informativo"
                             else if kind == Catalogo then "catalogo" else "directo")),
      participa := Switch(saved, Participa, informative),
      evalua := Switch(saved, Evalua, informative),
      informativo := informative,
      valorGlobal := GetOr(saved, ValorGlobal,
                           if HasGlobalValue(stored) then Str(stored.value.valorGlobal.value) else Obj(map[])),
      evaluacionBooleano := GetOr(saved, EvaluacionBooleano, StoredOptions(stored)))
  }

  /** The keys that reconciliation writes over the saved rule. */
  const OWNED: set<Key> := {
    Codigo, Nombre, Resultado, ResultadoNombre, Division, DivisionNombre, Componente, Tipo, TipoComparacion, Unidad,
    Escala, EscalaComparacion, EtiquetaVerdadero, EtiquetaFalso, TrueLabel, FalseLabel, Operador, OrigenLimite,
    Participa, Evalua, Informativo, ValorGlobal, EvaluacionBooleano}

  function OwnedValue(codigo: string, r: Rule, k: Key): Json {
    match k
    case Codigo => Str(codigo)
    case Nombre => r.nombre
    case Resultado => r.resultado
    case ResultadoNombre => r.resultadoNombre
    case Division => r.division
    case DivisionNombre => r.divisionNombre
    case Componente => r.componente
    case Tipo => r.tipo
    case TipoComparacion => r.tipoComparacion
    case Unidad => r.unidad
    case Escala => r.escala
    case EscalaComparacion => r.escala
    case EtiquetaVerdadero => r.etiquetaVerdadero
    case EtiquetaFalso => r.etiquetaFalso
    case TrueLabel => r.trueLabel
    case FalseLabel => r.falseLabel
    case Operador => r.operador
    case OrigenLimite => r.origenLimite
    case Participa => r.participa
    case Evalua => r.evalua
    case Informativo => Bool(r.informativo)
    case ValorGlobal => r.valorGlobal
    case EvaluacionBooleano => r.evaluacionBooleano
    case Campos => Null
    case Informativos => Null
    case Other(_) => Null
  }

  function Overlay(codigo: string, r: Rule): Object {
    map k | k in OWNED :: OwnedValue(codigo, r, k)
  }

  predicate Evaluated(r: Rule) {
    !r.informativo && r.participa != Bool(false) && r.evalua != Bool(false)
  }

  /** The row that `update_or_create` leaves for an evaluated leaf; `current` is the row it finds. */
  function UpsertedRow(render: Renderer, leaf: Leaf, orden: nat, r: Rule, saved: Object,
                       stored: Option<FieldRow>, current: Option<FieldRow>): FieldRow
  {
    FieldRow(
      nombre := leaf.nombre,
      operador := PyStr(render, r.operador),
      tipoComparacion := PyStr(render, r.tipoComparacion),
      escala := if leaf.componente.Some? then leaf.componente.value.escala else None,
      evaluacionOpciones := Or(Get(saved, EvaluacionBooleano), StoredOptions(stored)),
      valorGlobal := if HasGlobalValue(stored) then stored.value.valorGlobal else None,
      unidad := Some(PyStr(render, r.unidad)),
      resultado := if leaf.resultado.Some? then Some(leaf.resultado.value.pk) else None,
      division := if leaf.division.Some? then Some(leaf.division.value.pk) else None,
      componente := if leaf.componente.Some? then Some(leaf.componente.value.pk) else None,
      orden := orden, activo := true, deletedAt := None,
      otros := if current.Some? then current.value.otros else DEFAULT_COLUMNS)
  }

  // ---------- One source ----------

  /** The saved rules by code: only objects with a truthy code count, and the last one wins. */
  function ByCode(render: Renderer, items: seq<Json>): map<string, Object> {
    if items == [] then map[]
    else
      var rest := ByCode(render, items[..|items| - 1]);
      var last := items[|items| - 1];
      if last.Obj? && Truthy(Get(last.fields, Codigo))
      then rest[PyStr(render, Get(last.fields, Codigo)) := last.fields] else rest
  }

  function Configured(configuracion: Object): seq<Json> {
    var c := Get(configuracion, Campos);
    if c.Arr? then c.items else []
  }

  function SavedRules(render: Renderer, configuracion: Object): map<string, Object> {
    ByCode(render, Configured(configuracion))
  }

  function SavedFor(saved: map<string, Object>, codigo: string): Object {
    if codigo in saved then saved[codigo] else map[]
  }

  function Lookup(rows: map<string, FieldRow>, codigo: string): Option<FieldRow> {
    if codigo in rows then Some(rows[codigo]) else None
  }

  /** What a source had before its reconciliation began: its kind, saved rules and rows. */
  datatype Before = Before(kind: LimitKind, saved: map<string, Object>, rows: map<string, FieldRow>) {
    function Saved(leaf: Leaf): Object { SavedFor(saved, leaf.codigo) }
    function Stored(leaf: Leaf): Option<FieldRow> { Lookup(rows, leaf.codigo) }
    function RuleOf(leaf: Leaf): Rule { RuleFor(kind, leaf, Saved(leaf), Stored(leaf)) }
    function Entry(leaf: Leaf): Object { Saved(leaf) + Overlay(leaf.codigo, RuleOf(leaf)) }
  }

  function BeforeOf(render: Renderer, src: Source): Before {
    Before(src.tipoLimite, SavedRules(render, src.configuracion), src.campos)
  }

  /** The new `campos`: one entry for each leaf, in leaf order. */
  function Entries(b: Before, leaves: seq<Leaf>): seq<Object> {
    if leaves == [] then []
    else Entries(b, leaves[..|leaves| - 1]) + [b.Entry(leaves[|leaves| - 1])]
  }

  lemma {:induction false} EntriesAt(b: Before, leaves: seq<Leaf>)
    ensures |Entries(b, leaves)| == |leaves|
    ensures forall i :: 0 <= i < |leaves| ==> Entries(b, leaves)[i] == b.Entry(leaves[i])
  {
    hide Overlay, OwnedValue, OWNED, RuleFor;
    if leaves != [] {
      EntriesAt(b, leaves[..|leaves| - 1]);
    }
  }

  function Objects(entries: seq<Object>): (r: seq<Json>)
    ensures |r| == |entries| && forall i :: 0 <= i < |r| ==> r[i] == Obj(entries[i])
  {
    seq(|entries|, i requires 0 <= i < |entries| => Obj(entries[i]))
  }

  function InformativeCodes(entries: seq<Object>): seq<Json> {
    if entries == [] then []
    else
      var last := entries[|entries| - 1];
      InformativeCodes(entries[..|entries| - 1])
      + (if Truthy(Get(last, Informativo)) then [Get(last, Codigo)] else [])
  }

  /** The rows after one leaf: upsert when it is evaluated, otherwise deactivate what was stored. */
  function StepRows(render: Renderer, b: Before, leaf: Leaf, orden: nat, rows: map<string, FieldRow>)
    : map<string, FieldRow>
  {
    var r := b.RuleOf(leaf);
    var c := leaf.codigo;
    if Evaluated(r) then
      rows[c := UpsertedRow(render, leaf, orden, r, b.Saved(leaf), b.Stored(leaf), Lookup(rows, c))]
    else if c in b.rows && c in rows then rows[c := rows[c].(activo := false)]
    else rows
  }

  function RowsAfter(render: Renderer, b: Before, leaves: seq<Leaf>): map<string, FieldRow> {
    if leaves == [] then b.rows
    else
      var n := |leaves| - 1;
      StepRows(render, b, leaves[n], n + 1, RowsAfter(render, b, leaves[..n]))
  }

  function Codes(leaves: seq<Leaf>): set<string> {
    set i | 0 <= i < |leaves| :: leaves[i].codigo
  }

  function KeepActive(rows: map<string, FieldRow>, codes: set<string>): map<string, FieldRow> {
    map c | c in rows :: if c in codes then rows[c] else rows[c].(activo := false)
  }

  function ReconcileSource(render: Renderer, leaves: seq<Leaf>, src: Source): Source {
    var b := BeforeOf(render, src);
    var entries := Entries(b, leaves);
    src.(configuracion := src.configuracion[Campos := Arr(Objects(entries))]
                                           [Informativos := Arr(InformativeCodes(entries))],
         campos := KeepActive(RowsAfter(render, b, leaves), Codes(leaves)))
  }

  // ---------- The reconciliation loops ----------

  class LimitTables {
    var sources: map<int, Source>

    constructor (initial: map<int, Source>)
      ensures sources == initial
    {
      sources := initial;
    }

    /** The row part of one iteration: upsert an evaluated leaf, deactivate a stored one. */
    method WriteRow(render: Renderer, id: int, b: Before, leaf: Leaf, orden: nat, rule: Rule)
      requires id in sources && rule == b.RuleOf(leaf)
      modifies this
      ensures sources == old(sources)[id := old(sources)[id].(
                             campos := StepRows(render, b, leaf, orden, old(sources)[id].campos))]
    {
      hide RuleFor, UpsertedRow;
      var saved, stored := b.Saved(leaf), b.Stored(leaf);
      var rows := sources[id].campos;
      if rule.informativo || rule.participa == Bool(false) || rule.evalua == Bool(false) {
        if stored.Some? && leaf.codigo in rows {
          rows := rows[leaf.codigo := rows[leaf.codigo].(activo := false)];
        }
      } else {
        rows := rows[leaf.codigo := UpsertedRow(render, leaf, orden, rule, saved, stored, Lookup(rows, leaf.codigo))];
      }
      sources := sources[id := sources[id].(campos := rows)];
    }

    /** The loop over the leaves of one source. */
    method ReconcileOne(render: Renderer, id: int, leaves: seq<Leaf>)
      requires id in sources
      modifies this
      ensures sources == old(sources)[id := ReconcileSource(render, leaves, old(sources)[id])]
    {
      hide Overlay, OwnedValue, OWNED, RuleFor, StepRows, SavedRules, InformativeCodes, KeepActive;
      var b := BeforeOf(render, sources[id]);
      var canonical: seq<Object> := [];
      var n := 0;
      while n < |leaves|
        invariant 0 <= n <= |leaves|
        invariant canonical == Entries(b, leaves[..n])
        invariant id in sources
        invariant sources == old(sources)[id := old(sources)[id].(campos := RowsAfter(render, b, leaves[..n]))]
      {
        assert leaves[..n + 1][..n] == leaves[..n];
        var rule := b.RuleOf(leaves[n]);
        canonical := canonical + [b.Saved(leaves[n]) + Overlay(leaves[n].codigo, rule)];
        WriteRow(render, id, b, leaves[n], n + 1, rule);
        n := n + 1;
      }
      assert leaves[..n] == leaves;
      var src := sources[id];
      sources := sources[id := src.(
        campos := KeepActive(src.campos, Codes(leaves)),
        configuracion := src.configuracion[Campos := Arr(Objects(canonical))]
                                          [Informativos := Arr(InformativeCodes(canonical))])];
    }

    /** The ids of the sources of one test, each once, in the order the query returns them. */
    method SourcesOf(prueba: int) returns (ids: seq<int>)
      ensures forall id :: id in ids <==> id in sources && sources[id].prueba == prueba
      ensures forall i, j :: 0 <= i < j < |ids| ==> ids[i] != ids[j]
      ensures |ids| == |set id | id in sources && sources[id].prueba == prueba|
    {
      ids := [];
      var todo := set id | id in sources && sources[id].prueba == prueba;
      ghost var total := |todo|;
      while todo != {}
        invariant |ids| + |todo| == total
        invariant forall id :: id in ids || id in todo <==> id in sources && sources[id].prueba == prueba
        invariant forall i, j :: 0 <= i < j < |ids| ==> ids[i] != ids[j]
        invariant forall id :: id in ids ==> id !in todo
        decreases todo
      {
        ghost var member := Member(todo);
        var id :| id in todo;
        ids, todo := ids + [id], todo - {id};
      }
    }

    /** Every source of the test is reconciled; sources of other tests are untouched. */
    method Reconcile(render: Renderer, prueba: int, leaves: seq<Leaf>) returns (reconciled: nat)
      modifies this
      ensures reconciled == |set id | id in old(sources) && old(sources)[id].prueba == prueba|
      ensures sources == map id | id in old(sources) ::
                           if old(sources)[id].prueba == prueba
                           then ReconcileSource(render, leaves, old(sources)[id]) else old(sources)[id]
    {
      hide ReconcileSource;
      var ids := SourcesOf(prueba);
      reconciled := |ids|;
      for n := 0 to |ids|
        invariant sources.Keys == old(sources).Keys
        invariant forall id :: id in sources ==>
                                 sources[id] == if id in ids[..n] then ReconcileSource(render, leaves, old(sources)[id])
                                                else old(sources)[id]
      {
        ReconcileOne(render, ids[n], leaves);
      }
      assert ids[..|ids|] == ids;
      assert forall id :: id in sources ==>
                            sources[id] == if old(sources)[id].prueba == prueba
                                           then ReconcileSource(render, leaves, old(sources)[id])
                                           else old(sources)[id];
    }
  }
}
