/** What survives when the structure of a test is edited: rules follow their code. */
module LimitEdits {
  import opened Basics
  import opened Json
  import opened LimitContract
  import opened LimitIdempotence
  import opened LimitLeaves

  /** `reconcile_limit_contract`: flatten the test, then reconcile each of its sources. */
  method ReconcileLimitContract(tables: LimitTables, render: Renderer, text: Text, t: Test) returns (reconciled: nat)
    modifies tables
    ensures tables.sources == map id | id in old(tables.sources) ::
                                if old(tables.sources)[id].prueba == t.pk
                                then ReconcileSource(render, Leaves(text, t), old(tables.sources)[id])
                                else old(tables.sources)[id]
    ensures reconciled == |set id | id in old(tables.sources) && old(tables.sources)[id].prueba == t.pk|
  {
    hide ReconcileSource, Leaves;
    var leaves := TestLimitLeaves(text, t);
    reconciled := tables.Reconcile(render, t.pk, leaves);
  }

  // ---------- Active rows are the evaluated leaves ----------

  predicate EntryEvaluated(e: Object) {
    Get(e, Informativo) != Bool(true) && Get(e, Participa) != Bool(false) && Get(e, Evalua) != Bool(false)
  }

  lemma EntryEvaluatedIff(b: Before, leaf: Leaf)
    ensures EntryEvaluated(b.Entry(leaf)) == Evaluated(b.RuleOf(leaf))
  {
    EntryGet(b.Saved(leaf), leaf.codigo, b.RuleOf(leaf));
    hide RuleFor, OwnedValue, OWNED, Overlay;
  }

  predicate LinksTo(row: FieldRow, leaf: Leaf, orden: nat) {
    && row.resultado == (if leaf.resultado.Some? then Some(leaf.resultado.value.pk) else None)
    && row.division == (if leaf.division.Some? then Some(leaf.division.value.pk) else None)
    && row.componente == (if leaf.componente.Some? then Some(leaf.componente.value.pk) else None)
    && row.orden == orden && row.nombre == leaf.nombre && row.deletedAt == None
  }

  /** The new `campos` lists the leaves in leaf order. */
  lemma CamposListLeaves(render: Renderer, leaves: seq<Leaf>, src: Source)
    ensures var campos := Configured(ReconcileSource(render, leaves, src).configuracion);
            var b := BeforeOf(render, src);
            && |campos| == |leaves|
            && forall i :: 0 <= i < |leaves| ==>
                             campos[i] == Obj(b.Entry(leaves[i])) && Get(campos[i].fields, Codigo) == Str(leaves[i].codigo)
  {
    var b := BeforeOf(render, src);
    EntriesAt(b, leaves);
    forall i | 0 <= i < |leaves|
      ensures Get(b.Entry(leaves[i]), Codigo) == Str(leaves[i].codigo)
    {
      EntryGet(b.Saved(leaves[i]), leaves[i].codigo, b.RuleOf(leaves[i]));
      hide RuleFor, OwnedValue, OWNED, Overlay;
    }
    hide RuleFor, OwnedValue, OWNED, Overlay, Entries, RowsAfter, SavedRules, InformativeCodes, KeepActive;
  }

  lemma RowForFields(render: Renderer, b: Before, leaf: Leaf, orden: nat)
    ensures var row := RowFor(render, b, leaf, orden);
            && row.activo && LinksTo(row, leaf, orden)
            && row.operador == PyStr(render, b.RuleOf(leaf).operador)
            && row.tipoComparacion == PyStr(render, b.RuleOf(leaf).tipoComparacion)
  {
    hide RuleFor;
  }

  /** The row of a code after reconciliation, whatever the structure: see `RowThen`. */
  lemma RowOutcome(render: Renderer, leaves: seq<Leaf>, src: Source, c: string)
    ensures Lookup(ReconcileSource(render, leaves, src).campos, c) == RowThen(render, BeforeOf(render, src), leaves, c)
  {
    hide RuleFor, OwnedValue, OWNED, Overlay, Evaluated, Entries, RowsAfter, SavedRules, InformativeCodes, KeepActive,
      UpsertedRow, Codes, RowThen;
    StoredAfter(render, leaves, BeforeOf(render, src), c);
  }

  predicate Counting(entry: Json) {
    entry.Obj? && EntryEvaluated(entry.fields)
  }

  function Countings(campos: seq<Json>): (marks: seq<bool>)
    ensures |marks| == |campos| && forall i :: 0 <= i < |campos| ==> marks[i] == Counting(campos[i])
  {
    seq(|campos|, i requires 0 <= i < |campos| => Counting(campos[i]))
  }

  /** The row of a code is active exactly when a leaf with it is evaluated, as its entry says, and no later leaf
      with the code is not, unless the row is new; it links to the nodes of the last evaluated one. */
  predicate RowsMatchEntries(before: map<string, FieldRow>, out: Source, leaves: seq<Leaf>, c: string) {
    var campos := Configured(out.configuracion);
    && |campos| == |leaves|
    && var k, w := Last(leaves, c), LastMarked(Countings(campos), leaves, c);
       && ((c in out.campos && out.campos[c].activo) <==> (w >= 0 && (w == k || c !in before)))
       && (c in out.campos && out.campos[c].activo ==> LinksTo(out.campos[c], leaves[w], w + 1))
  }

  /** The entries of the new `campos` say which leaves are evaluated. */
  lemma SameLast(render: Renderer, leaves: seq<Leaf>, src: Source, c: string)
    ensures var campos, b := Configured(ReconcileSource(render, leaves, src).configuracion), BeforeOf(render, src);
            |campos| == |leaves| && LastMarked(Countings(campos), leaves, c) == LastEvaluated(b, leaves, c)
  {
    hide RuleFor, OwnedValue, OWNED, Overlay, Evaluated, EntryEvaluated, ReconcileSource, Configured, Get, Before.RuleOf,
      Before.Entry, Last;
    CamposListLeaves(render, leaves, src);
    var campos, b := Configured(ReconcileSource(render, leaves, src).configuracion), BeforeOf(render, src);
    forall i | 0 <= i < |leaves|
      ensures Counting(campos[i]) == Evaluated(b.RuleOf(leaves[i]))
    {
      EntryEvaluatedIff(b, leaves[i]);
    }
    hide Counting, BeforeOf;
    assert Countings(campos) == Evaluations(b, leaves);
  }

  /** After any reconciliation the active rows are those of evaluated leaves. */
  lemma ActiveRowsAreEvaluatedLeaves(render: Renderer, leaves: seq<Leaf>, src: Source, c: string)
    ensures RowsMatchEntries(src.campos, ReconcileSource(render, leaves, src), leaves, c)
  {
    hide RuleFor, OwnedValue, OWNED, Overlay, Evaluated, EntryEvaluated, ReconcileSource, Configured, LinksTo, RowFor, Counting,
      Last, Get, Before.RuleOf, Before.Entry, PyStr, SavedRules, LastMarked, LastEvaluated, Countings;
    var b := BeforeOf(render, src);
    SameLast(render, leaves, src, c);
    RowOutcome(render, leaves, src, c);
    var w := LastEvaluated(b, leaves, c);
    if w >= 0 {
      RowForFields(render, b, leaves[w], w + 1);
      ActiveLinks(RowFor(render, b, leaves[w], w + 1), leaves[w], w + 1);
    }
  }

  lemma ActiveLinks(row: FieldRow, leaf: Leaf, orden: nat)
    requires LinksTo(row, leaf, orden)
    ensures forall activo :: LinksTo(row.(activo := activo), leaf, orden)
  {
  }

  /** With distinct codes: a row is active exactly when its leaf is evaluated. */
  lemma ActiveRowsOfDistinctCodes(render: Renderer, leaves: seq<Leaf>, src: Source, c: string)
    requires DistinctCodes(leaves)
    ensures var out, k := ReconcileSource(render, leaves, src), Last(leaves, c);
            && |Configured(out.configuracion)| == |leaves|
            && ((c in out.campos && out.campos[c].activo) <==> (k >= 0 && Counting(Configured(out.configuracion)[k])))
            && (c in out.campos && out.campos[c].activo ==> LinksTo(out.campos[c], leaves[k], k + 1))
  {
    ActiveRowsAreEvaluatedLeaves(render, leaves, src, c);
    hide ReconcileSource, Configured, Counting, LinksTo;
    var campos := Configured(ReconcileSource(render, leaves, src).configuracion);
    hide Last, LastMarked;
  }

  lemma {:induction false} RowsAfterKeep(render: Renderer, b: Before, leaves: seq<Leaf>, c: string)
    requires c in b.rows
    ensures c in RowsAfter(render, b, leaves) && RowsAfter(render, b, leaves)[c].otros == b.rows[c].otros
  {
    hide RuleFor, Evaluated;
    if leaves != [] {
      RowsAfterKeep(render, b, leaves[..|leaves| - 1], c);
    }
  }

  /** No row is ever deleted, and the columns that reconciliation does not own keep their values. */
  lemma NoRowIsDeleted(render: Renderer, leaves: seq<Leaf>, src: Source, c: string)
    requires c in src.campos
    ensures var out := ReconcileSource(render, leaves, src);
            c in out.campos && out.campos[c].otros == src.campos[c].otros
  {
    hide RuleFor, OwnedValue, OWNED, Overlay, Entries, RowsAfter, SavedRules, InformativeCodes;
    RowsAfterKeep(render, BeforeOf(render, src), leaves, c);
  }

  /** A leaf seen for the first time: comments are informative; anything else is evaluated, against a
      maximum or, for a boolean, for equality. */
  lemma NewLeafRule(kind: LimitKind, leaf: Leaf)
    ensures var r := RuleFor(kind, leaf, map[], None);
            var comparison := ComparisonFromComponent(leaf.componente);
            && r.tipoComparacion == Str(comparison)
            && (Evaluated(r) <==> comparison != "comentario") && (r.informativo <==> comparison == "comentario")
            && r.participa == r.evalua == Bool(!r.informativo)
            && r.operador == Str(if comparison == "booleano" then "eq" else "max")
            && r.origenLimite == Str(if r.informativo then "informativo" else if kind.Catalogo? then "catalogo" else "directo")
            && r.evaluacionBooleano == Null && r.valorGlobal == Obj(map[])
  {
  }

  // ---------- Runs of structural edits ----------

  /** Editing a test deletes its nodes, which sets the links of every row to null. */
  function Unlinked(src: Source): Source {
    src.(campos := map c | c in src.campos ::
                     src.campos[c].(resultado := None, division := None, componente := None))
  }

  function Edit(render: Renderer, leaves: seq<Leaf>, src: Source): Source {
    ReconcileSource(render, leaves, Unlinked(src))
  }

  function Run(render: Renderer, edits: seq<seq<Leaf>>, src: Source): Source {
    if edits == [] then src
    else Edit(render, edits[|edits| - 1], Run(render, edits[..|edits| - 1], src))
  }

  /** The keys of a rule that the current structure never decides: everything but names, ids, type,
      unit, scale and labels. Value bands live under keys of their own, so they are among these. */
  predicate RuleKey(k: Key) {
    || !Owned(k) || k.TipoComparacion? || k.Operador? || k.OrigenLimite? || k.Participa? || k.Evalua? || k.Informativo?
    || k.ValorGlobal? || k.EvaluacionBooleano?
  }

  /** A rule that a reconciliation has written. */
  predicate Settled(e: Object) {
    && Truthy(Get(e, TipoComparacion)) && Truthy(Get(e, Operador)) && Truthy(Get(e, OrigenLimite))
    && Get(e, Participa) != Null && Get(e, Evalua) != Null && ValorGlobal in e && EvaluacionBooleano in e
    && Get(e, Informativo) ==
       Bool(Get(e, TipoComparacion) == Str("comentario") || Get(e, Informativo) == Bool(true)
            || Get(e, Evalua) == Bool(false))
  }

  ghost predicate SameRule(e: Object, e': Object) {
    forall k :: RuleKey(k) ==> SameAt(e, e', k)
  }

  lemma SettledAfter(kind: LimitKind, leaf: Leaf, saved: Object, stored: Option<FieldRow>)
    ensures Settled(saved + Overlay(leaf.codigo, RuleFor(kind, leaf, saved, stored)))
  {
    RuleIsWhole(kind, leaf, saved, stored);
    EntryGet(saved, leaf.codigo, RuleFor(kind, leaf, saved, stored));
    hide Overlay, OwnedValue, OWNED, RuleFor;
  }

  lemma RuleIsWhole(kind: LimitKind, leaf: Leaf, saved: Object, stored: Option<FieldRow>)
    ensures var r := RuleFor(kind, leaf, saved, stored);
            && Truthy(r.tipoComparacion) && Truthy(r.operador) && Truthy(r.origenLimite)
            && r.participa != Null && r.evalua != Null
            && r.informativo == (r.tipoComparacion == Str("comentario") || r.informativo || r.evalua == Bool(false))
  {
    ComparisonNonempty(leaf.componente);
    hide ComparisonFromComponent;
  }

  lemma SettledRule(kind: LimitKind, leaf: Leaf, saved: Object, stored: Option<FieldRow>)
    requires Settled(saved)
    ensures var r := RuleFor(kind, leaf, saved, stored);
            && r.tipoComparacion == Get(saved, TipoComparacion) && r.operador == Get(saved, Operador)
            && r.origenLimite == Get(saved, OrigenLimite) && r.participa == Get(saved, Participa)
            && r.evalua == Get(saved, Evalua) && Bool(r.informativo) == Get(saved, Informativo)
            && r.valorGlobal == Get(saved, ValorGlobal) && r.evaluacionBooleano == Get(saved, EvaluacionBooleano)
  {
  }

  /** One more reconciliation of a settled rule, on any leaf and any row, keeps the rule. */
  lemma SettledStays(kind: LimitKind, leaf: Leaf, saved: Object, stored: Option<FieldRow>)
    requires Settled(saved)
    ensures SameRule(saved, saved + Overlay(leaf.codigo, RuleFor(kind, leaf, saved, stored)))
  {
    var r := RuleFor(kind, leaf, saved, stored);
    SettledRule(kind, leaf, saved, stored);
    EntryGet(saved, leaf.codigo, r);
    hide Overlay, OWNED, OwnedValue, RuleFor, RuleKey;
    forall k | !Owned(k)
      ensures SameAt(saved, saved + Overlay(leaf.codigo, r), k)
    {
      EntryOther(saved, leaf.codigo, r, k);
    }
    SameRuleByKeys(saved, saved + Overlay(leaf.codigo, r));
  }

  predicate SameAt(e: Object, e': Object, k: Key) {
    (k in e <==> k in e') && Get(e, k) == Get(e', k)
  }

  lemma SameRuleByKeys(e: Object, e': Object)
    requires forall k :: !Owned(k) ==> SameAt(e, e', k)
    requires SameAt(e, e', TipoComparacion) && SameAt(e, e', Operador) && SameAt(e, e', OrigenLimite)
    requires SameAt(e, e', Participa) && SameAt(e, e', Evalua) && SameAt(e, e', Informativo)
    requires SameAt(e, e', ValorGlobal) && SameAt(e, e', EvaluacionBooleano)
    ensures SameRule(e, e')
  {
    hide SameAt;
  }

  /** The saved rule and the row of a code. */
  function SavedRule(render: Renderer, src: Source, c: string): Object {
    SavedFor(SavedRules(render, src.configuracion), c)
  }

  lemma EditedRule(render: Renderer, leaves: seq<Leaf>, src: Source, c: string)
    requires c != "" && Last(leaves, c) >= 0
    ensures var b := BeforeOf(render, Unlinked(src));
            && SavedRule(render, Edit(render, leaves, src), c) == b.Entry(leaves[Last(leaves, c)])
            && b.Saved(leaves[Last(leaves, c)]) == SavedRule(render, src, c)
  {
    ReconciledFollows(render, leaves, Unlinked(src));
    SavedBack(render, BeforeOf(render, Unlinked(src)), leaves, c);
    hide RuleFor, OwnedValue, OWNED, Overlay, ReconcileSource, Entries, ByCode, RowsAfter, KeepActive;
  }

  lemma EditSettles(render: Renderer, leaves: seq<Leaf>, src: Source, c: string)
    requires c != "" && Last(leaves, c) >= 0
    ensures Settled(SavedRule(render, Edit(render, leaves, src), c))
    ensures Settled(SavedRule(render, src, c)) ==>
              SameRule(SavedRule(render, src, c), SavedRule(render, Edit(render, leaves, src), c))
  {
    var b := BeforeOf(render, Unlinked(src));
    var leaf := leaves[Last(leaves, c)];
    EditedRule(render, leaves, src, c);
    SettledAfter(b.kind, leaf, b.Saved(leaf), b.Stored(leaf));
    if Settled(b.Saved(leaf)) {
      SettledStays(b.kind, leaf, b.Saved(leaf), b.Stored(leaf));
    }
    hide RuleFor, OwnedValue, OWNED, Overlay, Edit, Settled, SameRule, SavedRule;
  }

  predicate AllHave(edits: seq<seq<Leaf>>, c: string) {
    forall n :: 0 <= n < |edits| ==> Last(edits[n], c) >= 0
  }

  predicate NoneHas(edits: seq<seq<Leaf>>, c: string) {
    forall n :: 0 <= n < |edits| ==> Last(edits[n], c) < 0
  }

  /** A code that stays through any sequence of edits keeps its operator, comparison type, origin,
      switches, global value and every value band it had after the first of them. */
  lemma {:induction false} RulesSurviveEdits(render: Renderer, first: seq<Leaf>, edits: seq<seq<Leaf>>, src: Source, c: string)
    requires c != "" && Last(first, c) >= 0 && AllHave(edits, c)
    ensures var start := Edit(render, first, src);
            && Settled(SavedRule(render, Run(render, edits, start), c))
            && SameRule(SavedRule(render, start, c), SavedRule(render, Run(render, edits, start), c))
  {
    hide Edit, Settled, SavedRule;
    var start := Edit(render, first, src);
    EditSettles(render, first, src, c);
    if edits != [] {
      var n := |edits| - 1;
      RulesSurviveEdits(render, first, edits[..n], src, c);
      EditSettles(render, edits[n], Run(render, edits[..n], start), c);
    }
  }

  // ---------- A leaf that is removed and returns ----------

  /** While a code is missing its row only loses its links and its active flag. */
  lemma EditWithout(render: Renderer, leaves: seq<Leaf>, src: Source, c: string)
    requires Last(leaves, c) < 0 && c in src.campos
    ensures var out := Edit(render, leaves, src);
            && SavedRule(render, out, c) == map[]
            && c in out.campos
            && out.campos[c] == src.campos[c].(resultado := None, division := None, componente := None, activo := false)
  {
    var b := BeforeOf(render, Unlinked(src));
    ReconciledFollows(render, leaves, Unlinked(src));
    SavedBack(render, b, leaves, c);
    StoredAfter(render, leaves, b, c);
    hide RuleFor, OwnedValue, OWNED, Overlay, Entries, ByCode, RowsAfter, KeepActive, SavedRules, InformativeCodes, RowFor;
  }

  lemma {:induction false} RunWithout(render: Renderer, edits: seq<seq<Leaf>>, src: Source, c: string)
    requires edits != [] && NoneHas(edits, c) && c in src.campos
    ensures var out := Run(render, edits, src);
            && SavedRule(render, out, c) == map[]
            && c in out.campos
            && out.campos[c] == src.campos[c].(resultado := None, division := None, componente := None, activo := false)
  {
    hide Edit, SavedRule;
    var n := |edits| - 1;
    if n > 0 {
      RunWithout(render, edits[..n], src, c);
      EditWithout(render, edits[n], Run(render, edits[..n], src), c);
    } else {
      assert Run(render, edits[..0], src) == src;
      EditWithout(render, edits[0], src, c);
    }
  }

  lemma SettledTexts(render: Renderer, e: Object)
    requires Settled(e)
    ensures PyStr(render, Get(e, Operador)) != "" && PyStr(render, Get(e, TipoComparacion)) != ""
    ensures EntryEvaluated(e) ==> PyStr(render, Get(e, TipoComparacion)) != "comentario"
  {
  }

  /** If the last leaf with a code is evaluated, the row is that of this leaf. */
  lemma LastRow(render: Renderer, leaves: seq<Leaf>, src: Source, c: string)
    requires Last(leaves, c) >= 0
    ensures var b, k := BeforeOf(render, src), Last(leaves, c);
            Evaluated(b.RuleOf(leaves[k])) ==>
              Lookup(ReconcileSource(render, leaves, src).campos, c) == Some(RowFor(render, b, leaves[k], k + 1))
  {
    hide RuleFor, Evaluated, UpsertedRow, ReconcileSource, Last, Before.RuleOf, Before.Saved, BeforeOf, RowFor;
    var b, k := BeforeOf(render, src), Last(leaves, c);
    RowOutcome(render, leaves, src, c);
    assert Evaluations(b, leaves)[k] == Evaluated(b.RuleOf(leaves[k]));
    UpsertedOver(render, b, leaves[k], k + 1, b.Stored(leaves[k]));
  }

  /** The row an evaluated leaf leaves: its operator and comparison type are those of its rule. */
  lemma EvaluatedRow(render: Renderer, leaves: seq<Leaf>, src: Source, c: string)
    requires c != "" && Last(leaves, c) >= 0
    ensures var out := Edit(render, leaves, src);
            var rule := SavedRule(render, out, c);
            EntryEvaluated(rule) ==>
              && c in out.campos && out.campos[c].activo
              && out.campos[c].operador == PyStr(render, Get(rule, Operador)) != ""
              && out.campos[c].tipoComparacion == PyStr(render, Get(rule, TipoComparacion))
              && out.campos[c].tipoComparacion !in {"", "comentario"}
              && LinksTo(out.campos[c], leaves[Last(leaves, c)], Last(leaves, c) + 1)
  {
    hide RuleFor, Overlay, ReconcileSource, Unlinked, SavedRule, Evaluated, EntryEvaluated, LinksTo, RowFor, Last, BeforeOf, PyStr,
      Settled, Before.RuleOf, Before.Saved, SameRule, Get;
    var b, k := BeforeOf(render, Unlinked(src)), Last(leaves, c);
    EditedRule(render, leaves, src, c);
    EditSettles(render, leaves, src, c);
    SettledTexts(render, SavedRule(render, Edit(render, leaves, src), c));
    EntryEvaluatedIff(b, leaves[k]);
    LastRow(render, leaves, Unlinked(src), c);
    RowForFields(render, b, leaves[k], k + 1);
    EntryGet(b.Saved(leaves[k]), c, b.RuleOf(leaves[k]));
  }

  /** With no saved rule, operator and comparison type come from the stored row. */
  lemma RecoveredRule(kind: LimitKind, leaf: Leaf, stored: FieldRow)
    requires stored.operador != "" && stored.tipoComparacion != ""
    ensures var r := RuleFor(kind, leaf, map[], Some(stored));
            && r.operador == Str(stored.operador) && r.tipoComparacion == Str(stored.tipoComparacion)
            && (Evaluated(r) <==> stored.tipoComparacion != "comentario")
  {
  }

  /** The rule of a code that returns with no saved rule but a stored row. */
  lemma ReturnedRule(render: Renderer, back: seq<Leaf>, gone: Source, c: string)
    requires c != "" && Last(back, c) >= 0
    requires SavedRule(render, gone, c) == map[] && c in gone.campos
    requires gone.campos[c].operador != "" && gone.campos[c].tipoComparacion !in {"", "comentario"}
    ensures var rule := SavedRule(render, Edit(render, back, gone), c);
            && Get(rule, Operador) == Str(gone.campos[c].operador)
            && Get(rule, TipoComparacion) == Str(gone.campos[c].tipoComparacion)
            && EntryEvaluated(rule)
  {
    hide RuleFor, OwnedValue, OWNED, Overlay, Edit, SavedRule, SavedRules, EntryEvaluated, Evaluated, Last;
    var b, leaf := BeforeOf(render, Unlinked(gone)), back[Last(back, c)];
    EditedRule(render, back, gone, c);
    RecoveredRule(b.kind, leaf, b.rows[c]);
    EntryGet(map[], c, b.RuleOf(leaf));
    EntryEvaluatedIff(b, leaf);
  }

  /** An evaluated leaf that is removed by one or more edits and then returns recovers the operator
      and comparison type of its deactivated row, and the row is active and linked again. */
  lemma RuleRecoveredOnReturn(render: Renderer, first: seq<Leaf>, without: seq<seq<Leaf>>, back: seq<Leaf>, src: Source,
                              c: string)
    requires c != "" && Last(first, c) >= 0
    requires without != [] && NoneHas(without, c)
    requires Last(back, c) >= 0
    ensures var start := Edit(render, first, src);
            var was := SavedRule(render, start, c);
            var out := Edit(render, back, Run(render, without, start));
            var rule := SavedRule(render, out, c);
            EntryEvaluated(was) ==>
              && Get(rule, Operador) == Str(PyStr(render, Get(was, Operador)))
              && Get(rule, TipoComparacion) == Str(PyStr(render, Get(was, TipoComparacion)))
              && EntryEvaluated(rule)
              && c in start.campos && c in out.campos && out.campos[c].activo
              && out.campos[c].operador == start.campos[c].operador
              && out.campos[c].tipoComparacion == start.campos[c].tipoComparacion
              && LinksTo(out.campos[c], back[Last(back, c)], Last(back, c) + 1)
  {
    hide RuleFor, OwnedValue, OWNED, Overlay, Edit, Run, SavedRule, EntryEvaluated, LinksTo, Last, NoneHas;
    var start := Edit(render, first, src);
    var gone := Run(render, without, start);
    EvaluatedRow(render, first, src, c);
    if EntryEvaluated(SavedRule(render, start, c)) {
      RunWithout(render, without, start, c);
      ReturnedRule(render, back, gone, c);
      EvaluatedRow(render, back, gone, c);
    }
  }
}
