/** JSON values as the limit configuration stores them, with Python's truthiness.

    The keys that the limit code reads or writes are named constructors of `Key`;
    every other key of a JSON object is `Other(name)`, so an object is exactly a
    finite map from keys to values.
  */
module Json {

  import opened Basics

  datatype Key =
    | Campos | Informativos
    | Codigo | Nombre | Resultado | ResultadoNombre | Division | DivisionNombre | Componente
    | Tipo | TipoComparacion | Unidad | Escala | EscalaComparacion
    | EtiquetaVerdadero | EtiquetaFalso | TrueLabel | FalseLabel
    | Operador | OrigenLimite | Participa | Evalua | Informativo
    | ValorGlobal | EvaluacionBooleano
    | Other(name: string)

  datatype Json =
    | Null
    | Bool(b: bool)
    | Num(n: real)
    | Str(s: string)
    | Arr(items: seq<Json>)
    | Obj(fields: map<Key, Json>)

  type Object = map<Key, Json>

  /** How Python's `str` renders a value that is not a string: never as "", and never as the one word that
      the limit code looks for. */
  type Renderer = f: Json -> string | forall j :: f(j) != "" && f(j) != "comentario" ghost witness (j: Json) => "x"

  predicate Truthy(j: Json) {
    match j
    case Null => false
    case Bool(b) => b
    case Num(n) => n != 0.0
    case Str(s) => s != ""
    case Arr(items) => items != []
    case Obj(fields) => fields != map[]
  }

  /** The false values are None, False, zero and the empty string, list and dictionary. */
  lemma FalseValues(j: Json)
    ensures !Truthy(j) <==> j == Null || j == Bool(false) || j == Num(0.0) || j == Str("") || j == Arr([]) || j == Obj(map[])
  {
  }

  /** Python's `a or b`. */
  function Or(a: Json, b: Json): Json {
    if Truthy(a) then a else b
  }

  /** `o.get(k)` and `o.get(k, default)`. */
  function Get(o: Object, k: Key): Json {
    if k in o then o[k] else Null
  }

  function GetOr(o: Object, k: Key, default: Json): Json {
    if k in o then o[k] else default
  }

  /** `str(j)`. */
  function PyStr(render: Renderer, j: Json): string {
    if j.Str? then j.s else render(j)
  }

  /** A nullable string or foreign key as a JSON value. */
  function OptStr(o: Option<string>): Json {
    if o.Some? then Str(o.value) else Null
  }

  function OptInt(o: Option<int>): Json {
    if o.Some? then Num(o.value as real) else Null
  }
}
