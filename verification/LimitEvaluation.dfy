/** The configuration a reconciliation writes, as the aggregation of evaluations reads it. */
module LimitEvaluation {
  import opened Json
  import opened LimitContract
  import opened LimitIdempotence
  import opened LimitEdits
  import opened Evaluation

  /** The part of a source configuration that aggregation reads. */
  function ConfigOf(configuracion: Object): Config {
    Config(Listed(Get(configuracion, Informativos)), Get(configuracion, Campos))
  }

  /** A leaf that aggregation leaves out, as its new entry says. */
  predicate LeftOut(e: Object) {
    Truthy(Get(e, Informativo)) || Get(e, Evalua) == Bool(false)
  }

  lemma {:induction false} InformativeMembers(entries: seq<Object>)
    ensures forall j :: j in InformativeCodes(entries) <==>
                        exists i :: 0 <= i < |entries| && Truthy(Get(entries[i], Informativo)) && j == Get(entries[i], Codigo)
  {
    if entries != [] {
      InformativeMembers(entries[..|entries| - 1]);
    }
  }

  lemma ListedOnly(render: Renderer, entries: seq<Object>, codes: seq<string>, j: Json)
    requires |codes| == |entries| && forall i :: 0 <= i < |entries| ==> Get(entries[i], Codigo) == Str(codes[i])
    requires j in InformativeCodes(entries)
    ensures exists i :: 0 <= i < |entries| && LeftOut(entries[i]) && codes[i] == PyStr(render, j)
  {
    InformativeMembers(entries);
    hide InformativeCodes;
    var i :| 0 <= i < |entries| && Truthy(Get(entries[i], Informativo)) && j == Get(entries[i], Codigo);
    assert LeftOut(entries[i]) && codes[i] == PyStr(render, j);
  }

  lemma DeclaredOnly(render: Renderer, entries: seq<Object>, codes: seq<string>, j: Json)
    requires |codes| == |entries| && forall i :: 0 <= i < |entries| ==> Get(entries[i], Codigo) == Str(codes[i])
    requires j in Objects(entries) && DeclaredIgnored(j)
    ensures exists i :: 0 <= i < |entries| && LeftOut(entries[i]) && codes[i] == PyStr(render, Or(Get(j.fields, Codigo), Str("")))
  {
    var i :| 0 <= i < |entries| && Objects(entries)[i] == j;
    assert LeftOut(entries[i]) && codes[i] == PyStr(render, Or(Get(j.fields, Codigo), Str("")));
  }

  lemma IgnoredOnly(render: Renderer, entries: seq<Object>, codes: seq<string>, c: string)
    requires |codes| == |entries| && forall i :: 0 <= i < |entries| ==> Get(entries[i], Codigo) == Str(codes[i])
    requires c in Ignored(render, Config(InformativeCodes(entries), Arr(Objects(entries))))
    ensures exists i :: 0 <= i < |entries| && LeftOut(entries[i]) && codes[i] == c
  {
    hide InformativeCodes, LeftOut, Objects, DeclaredIgnored, Truthy;
    if j :| j in InformativeCodes(entries) && Present(j) && c == PyStr(render, j) {
      ListedOnly(render, entries, codes, j);
    } else {
      var j :| j in Objects(entries) && DeclaredIgnored(j) && c == PyStr(render, Or(Get(j.fields, Codigo), Str("")));
      DeclaredOnly(render, entries, codes, j);
    }
  }

  lemma IgnoredAll(render: Renderer, entries: seq<Object>, codes: seq<string>, i: nat)
    requires |codes| == |entries| && forall i :: 0 <= i < |entries| ==> Get(entries[i], Codigo) == Str(codes[i])
    requires i < |entries| && LeftOut(entries[i])
    ensures codes[i] in Ignored(render, Config(InformativeCodes(entries), Arr(Objects(entries))))
  {
    hide InformativeCodes, PyStr;
    var j := Objects(entries)[i];
    assert j in Objects(entries) && DeclaredIgnored(j);
    CodeKey(render, codes[i]);
    assert Or(Get(j.fields, Codigo), Str("")) == Str(codes[i]);
  }

  lemma IgnoredOfEntries(render: Renderer, entries: seq<Object>, codes: seq<string>)
    requires |codes| == |entries| && forall i :: 0 <= i < |entries| ==> Get(entries[i], Codigo) == Str(codes[i])
    ensures Ignored(render, Config(InformativeCodes(entries), Arr(Objects(entries))))
         == set i | 0 <= i < |entries| && LeftOut(entries[i]) :: codes[i]
  {
    hide Ignored, LeftOut, Objects, InformativeCodes;
    var ignored := Ignored(render, Config(InformativeCodes(entries), Arr(Objects(entries))));
    forall c | c in ignored
      ensures exists i :: 0 <= i < |entries| && LeftOut(entries[i]) && codes[i] == c
    {
      IgnoredOnly(render, entries, codes, c);
    }
    forall i | 0 <= i < |entries| && LeftOut(entries[i])
      ensures codes[i] in ignored
    {
      IgnoredAll(render, entries, codes, i);
    }
  }

  /** After a reconciliation, aggregation ignores exactly the codes of the leaves that are informative or
      not to be evaluated, whatever the configuration listed before. */
  lemma IgnoredAfterReconciling(render: Renderer, leaves: seq<Leaf>, src: Source)
    ensures var b := BeforeOf(render, src);
            Ignored(render, ConfigOf(ReconcileSource(render, leaves, src).configuracion))
            == set i | 0 <= i < |leaves| && LeftOut(b.Entry(leaves[i])) :: leaves[i].codigo
  {
    var b := BeforeOf(render, src);
    var entries := Entries(b, leaves);
    EntriesAt(b, leaves);
    var codes := seq(|leaves|, i requires 0 <= i < |leaves| => leaves[i].codigo);
    forall i | 0 <= i < |leaves|
      ensures Get(entries[i], Codigo) == Str(codes[i])
    {
      EntryGet(b.Saved(leaves[i]), leaves[i].codigo, b.RuleOf(leaves[i]));
      hide RuleFor, OwnedValue, OWNED, Overlay;
    }
    IgnoredOfEntries(render, entries, codes);
    ConfigWritten(render, leaves, src);
    hide RuleFor, OwnedValue, OWNED, Overlay, Ignored, Entries, ReconcileSource;
    SameLeftOut(b, leaves, entries, codes);
  }

  lemma ConfigWritten(render: Renderer, leaves: seq<Leaf>, src: Source)
    ensures var entries := Entries(BeforeOf(render, src), leaves);
            ConfigOf(ReconcileSource(render, leaves, src).configuracion)
            == Config(InformativeCodes(entries), Arr(Objects(entries)))
  {
    hide RuleFor, OwnedValue, OWNED, Overlay, Entries, RowsAfter, SavedRules, InformativeCodes, KeepActive;
  }

  lemma SameLeftOut(b: Before, leaves: seq<Leaf>, entries: seq<Object>, codes: seq<string>)
    requires |entries| == |leaves| == |codes|
    requires forall i :: 0 <= i < |leaves| ==> entries[i] == b.Entry(leaves[i]) && codes[i] == leaves[i].codigo
    ensures (set i | 0 <= i < |entries| && LeftOut(entries[i]) :: codes[i])
         == set i | 0 <= i < |leaves| && LeftOut(b.Entry(leaves[i])) :: leaves[i].codigo
  {
    hide RuleFor, OwnedValue, OWNED, Overlay, LeftOut;
  }

  lemma LeftOutIsNotEvaluated(saved: Object, codigo: string, r: Rule)
    requires LeftOut(saved + Overlay(codigo, r))
    ensures !EntryEvaluated(saved + Overlay(codigo, r))
  {
    EntryGet(saved, codigo, r);
    hide Overlay, OwnedValue, OWNED;
  }

  /** The code of an active row is not among the ignored fields. */
  lemma ActiveRowsAreCounted(render: Renderer, leaves: seq<Leaf>, src: Source, c: string)
    requires DistinctCodes(leaves)
    ensures var out := ReconcileSource(render, leaves, src);
            c in out.campos && out.campos[c].activo ==> c !in Ignored(render, ConfigOf(out.configuracion))
  {
    hide RuleFor, Overlay, OwnedValue, OWNED, Entries, ReconcileSource, Ignored, SavedRules, Consistent, Configured, LeftOut,
      EntryEvaluated, LinksTo;
    var b := BeforeOf(render, src);
    var k := Last(leaves, c);
    ActiveRowsOfDistinctCodes(render, leaves, src, c);
    CamposListLeaves(render, leaves, src);
    IgnoredAfterReconciling(render, leaves, src);
    forall i | 0 <= i < |leaves| && leaves[i].codigo == c && LeftOut(b.Entry(leaves[i]))
      ensures i == k && !EntryEvaluated(b.Entry(leaves[k]))
    {
      LeftOutIsNotEvaluated(b.Saved(leaves[i]), c, b.RuleOf(leaves[i]));
    }
  }

  /** The identifier is the code of a leaf that the configuration leaves out. */
  predicate NamesLeftOut(render: Renderer, b: Before, leaves: seq<Leaf>, id: Json) {
    Present(id) && exists i :: 0 <= i < |leaves| && LeftOut(b.Entry(leaves[i])) && leaves[i].codigo == PyStr(render, id)
  }

  lemma IgnoredId(render: Renderer, b: Before, leaves: seq<Leaf>, ignored: set<string>, id: Json)
    requires ignored == set i | 0 <= i < |leaves| && LeftOut(b.Entry(leaves[i])) :: leaves[i].codigo
    ensures NamesLeftOut(render, b, leaves, id) <==> Present(id) && PyStr(render, id) in ignored
  {
    hide LeftOut, Before.Entry, PyStr;
  }

  lemma IdentifiersApart(render: Renderer, item: Item, ignored: set<string>)
    ensures Identifiers(render, item) * ignored == {} <==>
            && (Present(item.fieldId) ==> PyStr(render, item.fieldId) !in ignored)
            && (Present(item.field) ==> PyStr(render, item.field) !in ignored)
            && (Present(item.fieldLabel) ==> PyStr(render, item.fieldLabel) !in ignored)
  {
    var ids := Identifiers(render, item);
    assert forall x :: x in ids * ignored <==> x in ids && x in ignored;
    assert Present(item.fieldId) ==> PyStr(render, item.fieldId) in ids;
    assert Present(item.field) ==> PyStr(render, item.field) in ids;
    assert Present(item.fieldLabel) ==> PyStr(render, item.fieldLabel) in ids;
  }

  /** How an evaluation is read under the configuration that a reconciliation writes. */
  function ReadingAfter(render: Renderer, leaves: seq<Leaf>, src: Source): Reading {
    Reading(render, Ignored(render, ConfigOf(ReconcileSource(render, leaves, src).configuracion)))
  }

  /** An evaluation counts exactly if it has a verdict and none of its identifiers is the code of a leaf that
      is left out. */
  lemma ItemCountsIff(render: Renderer, leaves: seq<Leaf>, src: Source, item: Item)
    ensures var b := BeforeOf(render, src);
            ReadingAfter(render, leaves, src).Hits(item, Comparable) <==>
            && item.passed.Some? && !NamesLeftOut(render, b, leaves, item.fieldId)
            && !NamesLeftOut(render, b, leaves, item.field) && !NamesLeftOut(render, b, leaves, item.fieldLabel)
  {
    hide RuleFor, OwnedValue, OWNED, Overlay, LeftOut, ReconcileSource, Ignored, BeforeOf, PyStr, Before.Entry;
    var b, ignored := BeforeOf(render, src), ReadingAfter(render, leaves, src).ignored;
    IgnoredAfterReconciling(render, leaves, src);
    IgnoredId(render, b, leaves, ignored, item.fieldId);
    IgnoredId(render, b, leaves, ignored, item.field);
    IgnoredId(render, b, leaves, ignored, item.fieldLabel);
    IdentifiersApart(render, item, ignored);
    hide NamesLeftOut, Identifiers, Present;
  }

  /** With distinct codes the field of an active row never stands in the way: only the id or the label can
      happen to be the code of a leaf that is left out. */
  lemma ActiveItemCountsIff(render: Renderer, leaves: seq<Leaf>, src: Source, c: string, item: Item)
    requires DistinctCodes(leaves) && item.field == Str(c)
    ensures var b, out := BeforeOf(render, src), ReconcileSource(render, leaves, src);
            c in out.campos && out.campos[c].activo ==>
              (ReadingAfter(render, leaves, src).Hits(item, Comparable) <==>
               && item.passed.Some?
               && !NamesLeftOut(render, b, leaves, item.fieldId) && !NamesLeftOut(render, b, leaves, item.fieldLabel))
  {
    hide RuleFor, OwnedValue, OWNED, Overlay, LeftOut, ReconcileSource, Ignored, BeforeOf, DistinctCodes, PyStr, Before.Entry;
    var b, ignored := BeforeOf(render, src), ReadingAfter(render, leaves, src).ignored;
    ActiveRowsAreCounted(render, leaves, src, c);
    IgnoredAfterReconciling(render, leaves, src);
    IgnoredId(render, b, leaves, ignored, item.field);
    CodeKey(render, c);
    hide NamesLeftOut;
    ItemCountsIff(render, leaves, src, item);
    hide Reading.Hits;
  }
}
