/** The grouped verdict read off the fields of the items and of the configuration, and nothing else. */
module EvaluationFields {
  import opened Basics
  import opened Json
  import opened Evaluation
  import opened EvaluationTheorems
  import opened OrderedIds

  // ---------- Which items count ----------

  /** The configuration says that the field named `id` is not evaluated. */
  ghost predicate NotEvaluated(render: Renderer, config: Config, id: string) {
    || (exists j :: j in config.informativos && j != Null && j != Str("") && PyStr(render, j) == id)
    || (config.campos.Arr? && exists j :: j in config.campos.items && DeclaresItself(render, j, id))
  }

  predicate DeclaresItself(render: Renderer, j: Json, id: string) {
    && j.Obj? && ((Informativo in j.fields && Truthy(j.fields[Informativo])) || (Evalua in j.fields && j.fields[Evalua] == Bool(false)))
    && id == if Codigo in j.fields && Truthy(j.fields[Codigo]) then PyStr(render, j.fields[Codigo]) else ""
  }

  ghost predicate Clears(render: Renderer, config: Config, id: Json) {
    id == Null || id == Str("") || !NotEvaluated(render, config, PyStr(render, id))
  }

  /** The item has a verdict, and neither its id nor its field nor its label names a field left out. */
  ghost predicate Counts(render: Renderer, config: Config, x: Item) {
    x.passed.Some? && Clears(render, config, x.fieldId) && Clears(render, config, x.field) && Clears(render, config, x.fieldLabel)
  }

  function ReadingOf(render: Renderer, config: Config): Reading {
    Reading(render, Ignored(render, config))
  }

  lemma IgnoredIff(render: Renderer, config: Config, id: string)
    ensures id in Ignored(render, config) <==> NotEvaluated(render, config, id)
  {
    if NotEvaluated(render, config, id) && !(exists j :: j in config.informativos && j != Null && j != Str("") && PyStr(render, j) == id) {
      var j :| j in config.campos.items && DeclaresItself(render, j, id);
      assert j in Listed(config.campos) && DeclaredIgnored(j) && PyStr(render, Or(Get(j.fields, Codigo), Str(""))) == id;
    }
    if j :| j in Listed(config.campos) && DeclaredIgnored(j) && PyStr(render, Or(Get(j.fields, Codigo), Str(""))) == id {
      assert DeclaresItself(render, j, id);
    }
  }

  lemma CountsIff(render: Renderer, config: Config, x: Item)
    ensures ReadingOf(render, config).Comp(x) <==> Counts(render, config, x)
  {
    forall id {
      IgnoredIff(render, config, id);
    }
    hide Ignored, NotEvaluated;
    var ids, ignored := Identifiers(render, x), Ignored(render, config);
    forall j | j in {x.fieldId, x.field, x.fieldLabel} && !Clears(render, config, j)
      ensures ids * ignored != {}
    {
      assert PyStr(render, j) in ids * ignored;
    }
    if id :| id in ids * ignored {
      assert !Clears(render, config, x.fieldId) || !Clears(render, config, x.field) || !Clears(render, config, x.fieldLabel);
    }
  }

  // ---------- Positions ----------

  function Where(items: seq<Item>, p: Item -> bool): set<int> {
    set i | 0 <= i < |items| && p(items[i])
  }

  lemma WhereStep(items: seq<Item>, p: Item -> bool)
    requires items != []
    ensures var n := |items| - 1;
            |Where(items, p)| == |Where(items[..n], p)| + (if p(items[n]) then 1 else 0)
  {
    var n := |items| - 1;
    assert Where(items, p) == Where(items[..n], p) + (if p(items[n]) then {n} else {});
  }

  /** A count over one result is the number of its positions. */
  lemma {:induction false} GroupCount(rd: Reading, items: seq<Item>, k: GroupKey, q: Probe)
    ensures rd.Count(Group(rd.render, items, k), q) == |Where(items, x => KeyOf(rd.render, x) == k && rd.Hits(x, q))|
  {
    hide KeyOf, rd.Hits;
    if items != [] {
      var n := |items| - 1;
      GroupCount(rd, items[..n], k, q);
      WhereStep(items, x => KeyOf(rd.render, x) == k && rd.Hits(x, q));
      var before := Group(rd.render, items[..n], k);
      assert (before + [items[n]])[..|before|] == before;
      assert before + [] == before;
      hide Where;
    }
  }

  lemma {:induction false} CountIs(rd: Reading, items: seq<Item>, q: Probe)
    ensures rd.Count(items, q) == |Where(items, x => rd.Hits(x, q))|
  {
    hide rd.Hits;
    if items != [] {
      CountIs(rd, items[..|items| - 1], q);
      WhereStep(items, x => rd.Hits(x, q));
      hide Where;
    }
  }

  // ---------- States and results ----------

  ghost predicate HasPassed(render: Renderer, config: Config, x: Item) {
    Counts(render, config, x) && x.passed == Some(true)
  }

  ghost predicate HasFailed(render: Renderer, config: Config, x: Item) {
    Counts(render, config, x) && x.passed == Some(false)
  }

  ghost predicate IsYellow(render: Renderer, config: Config, x: Item) {
    Counts(render, config, x) && x.estado == NO_DESEADO
  }

  ghost predicate IsRed(render: Renderer, config: Config, x: Item) {
    Counts(render, config, x) && (x.estado == CRITICO || x.estado == FUERA_DE_LIMITE)
  }

  lemma HitsIff(render: Renderer, config: Config, x: Item)
    ensures var rd := ReadingOf(render, config);
            && (rd.Hits(x, Comparable) <==> Counts(render, config, x))
            && (rd.Hits(x, Passed) <==> HasPassed(render, config, x)) && (rd.Hits(x, Failed) <==> HasFailed(render, config, x))
            && (rd.Hits(x, Yellow) <==> IsYellow(render, config, x)) && (rd.Hits(x, Red) <==> IsRed(render, config, x))
            && (rd.Hits(x, Missing) <==> x.estado == SIN_INFORMACION_TECNICA)
  {
    CountsIff(render, config, x);
    hide Counts, Ignored;
  }

  predicate Blank(j: Json) {
    j == Null || j == Str("")
  }

  /** Two items belong to one result: equal ids, or no id and equal labels, or neither id nor label. */
  predicate SameResult(render: Renderer, x: Item, y: Item) {
    if Blank(x.resultId) then
      Blank(y.resultId)
      && (if Blank(x.resultLabel) then Blank(y.resultLabel)
          else !Blank(y.resultLabel) && PyStr(render, x.resultLabel) == PyStr(render, y.resultLabel))
    else !Blank(y.resultId) && PyStr(render, x.resultId) == PyStr(render, y.resultId)
  }

  lemma SameResultIff(render: Renderer, x: Item, y: Item)
    ensures KeyOf(render, x) == KeyOf(render, y) <==> SameResult(render, x, y)
  {
  }

  /** Some item of the result of `x` is yellow, red, or a failure. */
  ghost predicate YellowIn(render: Renderer, config: Config, items: seq<Item>, x: Item) {
    exists y :: y in items && SameResult(render, x, y) && IsYellow(render, config, y)
  }

  ghost predicate RedIn(render: Renderer, config: Config, items: seq<Item>, x: Item) {
    exists y :: y in items && SameResult(render, x, y) && IsRed(render, config, y)
  }

  ghost predicate FailureIn(render: Renderer, config: Config, items: seq<Item>, x: Item) {
    exists y :: y in items && SameResult(render, x, y) && HasFailed(render, config, y)
  }

  /** A failure in a result without a yellow or red item. */
  ghost predicate IsSilent(render: Renderer, config: Config, items: seq<Item>, x: Item) {
    HasFailed(render, config, x) && !YellowIn(render, config, items, x) && !RedIn(render, config, items, x)
  }

  ghost predicate RedResult(render: Renderer, config: Config, items: seq<Item>, x: Item) {
    RedIn(render, config, items, x) || (FailureIn(render, config, items, x) && !YellowIn(render, config, items, x))
  }

  ghost predicate YellowResult(render: Renderer, config: Config, items: seq<Item>, x: Item) {
    YellowIn(render, config, items, x) && !RedIn(render, config, items, x)
  }

  /** The counts over the result of `x` say which items it has. */
  lemma GroupHas(render: Renderer, config: Config, items: seq<Item>, x: Item)
    ensures var rd := ReadingOf(render, config);
            var g := Group(render, items, KeyOf(render, x));
            && (rd.Count(g, Yellow) > 0 <==> YellowIn(render, config, items, x))
            && (rd.Count(g, Red) > 0 <==> RedIn(render, config, items, x))
            && (rd.Count(g, Failed) > 0 <==> FailureIn(render, config, items, x))
            && (rd.Count(g, Comparable) > 0 <==> exists y :: y in items && SameResult(render, x, y) && Counts(render, config, y))
  {
    var rd := ReadingOf(render, config);
    forall q {
      InResult(rd, items, x, q);
    }
    forall y {
      HitsIff(render, config, y);
    }
    hide rd.Hits, KeyOf, SameResult, IsYellow, IsRed, HasFailed, Counts, Group, rd.Count, Ignored;
  }

  lemma InResult(rd: Reading, items: seq<Item>, x: Item, q: Probe)
    ensures rd.Count(Group(rd.render, items, KeyOf(rd.render, x)), q) > 0
            <==> exists y :: y in items && SameResult(rd.render, x, y) && rd.Hits(y, q)
  {
    var k := KeyOf(rd.render, x);
    var g := Group(rd.render, items, k);
    GroupMembers(rd.render, items, k);
    CountPositive(rd, g, q);
    forall y
      ensures KeyOf(rd.render, y) == k <==> SameResult(rd.render, x, y)
    {
      SameResultIff(rd.render, x, y);
    }
    hide KeyOf, SameResult, Group, rd.Count, rd.Hits;
    if y :| y in items && SameResult(rd.render, x, y) && rd.Hits(y, q) {
      assert KeyOf(rd.render, y) == k && y in g;
    }
  }

  lemma CellsByFields(render: Renderer, config: Config, items: seq<Item>, x: Item)
    ensures var rd := ReadingOf(render, config);
            var g := Group(render, items, KeyOf(render, x));
            && Cells(rd, g, RedResults) == (if RedResult(render, config, items, x) then 1 else 0)
            && Cells(rd, g, YellowResults) == (if YellowResult(render, config, items, x) then 1 else 0)
            && (Silent(rd, g) <==> !RedIn(render, config, items, x) && !YellowIn(render, config, items, x)
                                   && FailureIn(render, config, items, x))
  {
    GroupHas(render, config, items, x);
    hide YellowIn, RedIn, FailureIn, KeyOf, Group;
  }

  // ---------- The first item of each result ----------

  predicate IsFirst(render: Renderer, items: seq<Item>, i: int)
    requires 0 <= i < |items|
  {
    forall j :: 0 <= j < i ==> !SameResult(render, items[j], items[i])
  }

  function Firsts(render: Renderer, items: seq<Item>): seq<int> {
    if items == [] then []
    else
      var n := |items| - 1;
      Firsts(render, items[..n]) + (if KeyOf(render, items[n]) in Keys(render, items[..n]) then [] else [n])
  }

  /** The last item starts a result exactly if its key is new. */
  lemma LastIsFirst(render: Renderer, items: seq<Item>)
    requires items != []
    ensures IsFirst(render, items, |items| - 1) <==> KeyOf(render, items[|items| - 1]) !in Keys(render, items[..|items| - 1])
  {
    var n := |items| - 1;
    KeysAre(render, items[..n]);
    forall j | 0 <= j < n
      ensures items[..n][j] == items[j]
      ensures SameResult(render, items[j], items[n]) <==> KeyOf(render, items[j]) == KeyOf(render, items[n])
    {
      SameResultIff(render, items[j], items[n]);
    }
    hide KeyOf, SameResult, Keys;
    var keys, k := Keys(render, items[..n]), KeyOf(render, items[n]);
    if k in keys {
      var j :| 0 <= j < |items[..n]| && KeyOf(render, items[..n][j]) == k;
      assert SameResult(render, items[j], items[n]);
    } else {
      forall j | 0 <= j < n
        ensures !SameResult(render, items[j], items[n])
      {
        assert KeyOf(render, items[..n][j]) in keys;
      }
    }
  }

  lemma FirstOfPrefix(render: Renderer, items: seq<Item>, n: nat, i: nat)
    requires i < n <= |items|
    ensures IsFirst(render, items[..n], i) <==> IsFirst(render, items, i)
  {
    hide SameResult;
    assert forall j :: 0 <= j <= i ==> items[..n][j] == items[j];
  }

  /** `fs` holds the position of the first item of each key, in order. */
  predicate Opens(render: Renderer, items: seq<Item>, keys: seq<GroupKey>, fs: seq<int>) {
    && |fs| == |keys| && (forall m :: 0 <= m < |fs| ==> 0 <= fs[m] < |items| && KeyOf(render, items[fs[m]]) == keys[m])
    && forall m, n :: 0 <= m < n < |fs| ==> fs[m] < fs[n]
  }

  lemma {:induction false} FirstsOpen(render: Renderer, items: seq<Item>)
    ensures Opens(render, items, Keys(render, items), Firsts(render, items))
  {
    hide KeyOf;
    if items != [] {
      FirstsOpen(render, items[..|items| - 1]);
    }
  }

  lemma {:induction false} FirstsIff(render: Renderer, items: seq<Item>, i: nat)
    requires i < |items|
    ensures i in Firsts(render, items) <==> IsFirst(render, items, i)
  {
    var n := |items| - 1;
    if i == n {
      LastIsFirst(render, items);
      FirstsOpen(render, items[..n]);
      hide IsFirst, KeyOf, Keys;
    } else {
      FirstsIff(render, items[..n], i);
      FirstOfPrefix(render, items, n, i);
      hide IsFirst, KeyOf, Keys;
    }
  }

  lemma FirstsAre(render: Renderer, items: seq<Item>)
    ensures Opens(render, items, Keys(render, items), Firsts(render, items))
    ensures forall i :: 0 <= i < |items| ==> (i in Firsts(render, items) <==> IsFirst(render, items, i))
  {
    FirstsOpen(render, items);
    forall i: nat | i < |items| {
      FirstsIff(render, items, i);
    }
    hide *;
  }

  // ---------- Columns as numbers of positions ----------

  /** The marked members of an increasing list. */
  function Marked(fs: seq<int>, marks: set<int>): set<int> {
    set i | i in fs && i in marks
  }

  lemma MarkedStep(fs: seq<int>, marks: set<int>)
    requires fs != [] && forall m, n :: 0 <= m < n < |fs| ==> fs[m] < fs[n]
    ensures var n := |fs| - 1;
            |Marked(fs, marks)| == |Marked(fs[..n], marks)| + (if fs[n] in marks then 1 else 0)
  {
    var n := |fs| - 1;
    assert fs == fs[..n] + [fs[n]];
    assert fs[n] !in Marked(fs[..n], marks);
    assert Marked(fs, marks) == Marked(fs[..n], marks) + (if fs[n] in marks then {fs[n]} else {});
  }

  /** The results in column `c`, by their first items. */
  lemma {:induction false} ResultColumn(rd: Reading, items: seq<Item>, keys: seq<GroupKey>, fs: seq<int>, c: Column, marks: set<int>)
    requires |fs| == |keys| && forall m, n :: 0 <= m < n < |fs| ==> fs[m] < fs[n]
    requires forall m :: 0 <= m < |fs| ==> Cells(rd, Group(rd.render, items, keys[m]), c) == if fs[m] in marks then 1 else 0
    ensures SumCells(rd, items, keys, c) == |Marked(fs, marks)|
  {
    hide Cells, Group, Marked;
    if keys != [] {
      ResultColumn(rd, items, keys[..|keys| - 1], fs[..|keys| - 1], c, marks);
      MarkedStep(fs, marks);
    } else {
      NoneMarked(marks);
    }
  }

  lemma NoneMarked(marks: set<int>)
    ensures Marked([], marks) == {}
  {
  }

  /** The positions of the failures in silent results, the result being one of those listed. */
  ghost function SilentPlaces(rd: Reading, items: seq<Item>, keys: seq<GroupKey>): set<int> {
    set i | 0 <= i < |items| && KeyOf(rd.render, items[i]) in keys && rd.Hits(items[i], Failed)
            && Silent(rd, Group(rd.render, items, KeyOf(rd.render, items[i])))
  }

  lemma SilentStep(rd: Reading, items: seq<Item>, keys: seq<GroupKey>, k: GroupKey)
    requires k !in keys
    ensures |SilentPlaces(rd, items, keys + [k])|
         == |SilentPlaces(rd, items, keys)|
            + (if Silent(rd, Group(rd.render, items, k)) then |Where(items, x => KeyOf(rd.render, x) == k && rd.Hits(x, Failed))| else 0)
  {
    hide KeyOf, Silent, Group, rd.Hits;
    var own := Where(items, x => KeyOf(rd.render, x) == k && rd.Hits(x, Failed));
    assert SilentPlaces(rd, items, keys) !! own;
    assert SilentPlaces(rd, items, keys + [k]) == SilentPlaces(rd, items, keys) + (if Silent(rd, Group(rd.render, items, k)) then own else {});
  }

  lemma {:induction false} SilentColumn(rd: Reading, items: seq<Item>, keys: seq<GroupKey>)
    requires Distinct(keys)
    ensures SilentFailures(rd, items, keys) == |SilentPlaces(rd, items, keys)|
  {
    hide KeyOf, Silent, Group, rd.Hits, rd.Count;
    if keys == [] {
      assert SilentPlaces(rd, items, keys) == {};
    } else {
      var n := |keys| - 1;
      var k, rest := keys[n], keys[..n];
      assert keys == rest + [k] && k !in rest;
      SilentColumn(rd, items, rest);
      GroupCount(rd, items, k, Failed);
      SilentStep(rd, items, rest, k);
      hide SilentPlaces, Where;
    }
  }

  // ---------- The verdict ----------

  ghost predicate Lacking(items: seq<Item>) {
    exists x :: x in items && x.estado == SIN_INFORMACION_TECNICA
  }

  ghost predicate SomeCounts(render: Renderer, config: Config, items: seq<Item>) {
    exists x :: x in items && Counts(render, config, x)
  }

  lemma AnyIff(render: Renderer, items: seq<Item>, config: Config)
    ensures var rd := ReadingOf(render, config);
            && (rd.Count(items, Missing) > 0 <==> Lacking(items))
            && (rd.Count(items, Comparable) > 0 <==> SomeCounts(render, config, items))
            && (rd.Count(items, Yellow) > 0 <==> exists x :: x in items && IsYellow(render, config, x))
            && (rd.Count(items, Red) > 0 <==> exists x :: x in items && IsRed(render, config, x))
            && (SilentGroup(rd, items) <==> exists x :: x in items && IsSilent(render, config, items, x))
  {
    var rd := ReadingOf(render, config);
    forall y {
      HitsIff(render, config, y);
    }
    forall q {
      CountPositive(rd, items, q);
    }
    SilentGroupIff(render, items, config);
    hide rd.Hits, IsYellow, IsRed, Counts, Ignored, rd.Count, IsSilent, SilentGroup;
  }

  lemma SilentGroupIff(render: Renderer, items: seq<Item>, config: Config)
    ensures SilentGroup(ReadingOf(render, config), items) <==> exists x :: x in items && IsSilent(render, config, items, x)
  {
    var rd := ReadingOf(render, config);
    KeysAre(render, items);
    hide KeyOf, SameResult, Counts, Ignored, Silent, HasFailed, YellowIn, RedIn, Keys;
    if k :| k in Keys(render, items) && Silent(rd, Group(render, items, k)) {
      var i :| 0 <= i < |items| && KeyOf(render, items[i]) == k;
      CellsByFields(render, config, items, items[i]);
      var y :| y in items && SameResult(render, items[i], y) && HasFailed(render, config, y);
      SameResultIff(render, items[i], y);
      CellsByFields(render, config, items, y);
      assert IsSilent(render, config, items, y);
    }
    if x :| x in items && IsSilent(render, config, items, x) {
      SameResultIff(render, x, x);
      assert FailureIn(render, config, items, x);
      CellsByFields(render, config, items, x);
      var i :| 0 <= i < |items| && items[i] == x;
      assert KeyOf(render, items[i]) in Keys(render, items);
    }
  }

  /** The state and the verdict, for all items: missing information first, then the policy, then the worst
      result, where a failure without a state makes a result without a state critical. */
  lemma StateByFields(render: Renderer, items: seq<Item>, policy: Policy, config: Config)
    ensures var o := Aggregate(ReadingOf(render, config), items, policy);
            var evaluated := !Lacking(items) && policy == TodasDebenCumplir && SomeCounts(render, config, items);
            var red := exists x :: x in items && (IsRed(render, config, x) || IsSilent(render, config, items, x));
            var yellow := exists x :: x in items && IsYellow(render, config, x);
            && (Lacking(items) ==> o.estado == SIN_INFORMACION_TECNICA && o.passed == None)
            && (!Lacking(items) && policy == SoloInformativo ==> o.estado == INFORMATIVO && o.passed == None)
            && (!Lacking(items) && policy == TodasDebenCumplir && !evaluated ==> o.estado == NO_EVALUABLE && o.passed == None)
            && (evaluated ==>
                  && o.estado == (if red then CRITICO else if yellow then NO_DESEADO else NORMAL)
                  && o.passed == Some(!red && !yellow))
  {
    var rd := ReadingOf(render, config);
    AggregateVerdict(rd, items, policy);
    ResultColumns(rd, items);
    AnyIff(render, items, config);
    hide rd.Count, SumCells, Aggregate, Keys, IsRed, IsSilent, IsYellow, SomeCounts, Lacking, Ignored, SilentGroup, SilentFailures;
  }

  /** Well-formed items, by their fields: every failure that counts is yellow or red. Then the worst state among
      the items that count decides. */
  lemma WorstStateByFields(render: Renderer, items: seq<Item>, policy: Policy, config: Config)
    requires forall x :: x in items && HasFailed(render, config, x) ==> IsYellow(render, config, x) || IsRed(render, config, x)
    ensures WellFormed(ReadingOf(render, config), items)
    ensures var o := Aggregate(ReadingOf(render, config), items, policy);
            var red := exists x :: x in items && IsRed(render, config, x);
            var yellow := exists x :: x in items && IsYellow(render, config, x);
            !Lacking(items) && policy == TodasDebenCumplir ==>
              && (o.estado == CRITICO <==> red)
              && (o.estado == NO_DESEADO <==> !red && yellow)
              && (o.estado == NORMAL <==> SomeCounts(render, config, items) && !red && !yellow)
              && (o.estado == NO_EVALUABLE <==> !SomeCounts(render, config, items))
              && (o.passed == Some(true) <==> o.estado == NORMAL)
  {
    forall x {
      HitsIff(render, config, x);
    }
    StateByFields(render, items, policy, config);
    forall x | x in items
      ensures !IsSilent(render, config, items, x)
    {
      SameResultIff(render, x, x);
      hide SameResult, Counts, KeyOf;
    }
    hide Aggregate, Ignored, SameResult, Lacking, Counts, IsSilent, ReadingOf, KeyOf;
  }

  lemma SilentIff(render: Renderer, items: seq<Item>, config: Config, x: Item)
    requires x in items
    ensures var rd := ReadingOf(render, config);
            Silent(rd, Group(render, items, KeyOf(render, x))) && rd.Hits(x, Failed) <==> IsSilent(render, config, items, x)
  {
    CellsByFields(render, config, items, x);
    HitsIff(render, config, x);
    SameResultIff(render, x, x);
    hide KeyOf, SameResult, Counts, Ignored, Silent, HasFailed, YellowIn, RedIn, Reading.Hits, Group;
  }

  lemma SilentCount(render: Renderer, items: seq<Item>, config: Config)
    ensures SilentFailures(ReadingOf(render, config), items, Keys(render, items))
         == |set i | 0 <= i < |items| && IsSilent(render, config, items, items[i])|
  {
    var rd, keys := ReadingOf(render, config), Keys(render, items);
    KeysAre(render, items);
    SilentColumn(rd, items, keys);
    hide KeyOf, Silent, IsSilent, Ignored, Group, rd.Hits, Keys;
    forall i | 0 <= i < |items|
      ensures KeyOf(render, items[i]) in keys
    {
    }
    forall i | 0 <= i < |items| {
      SilentIff(render, items, config, items[i]);
    }
    assert (set i | 0 <= i < |items| && IsSilent(render, config, items, items[i])) == SilentPlaces(rd, items, keys);
  }

  lemma ItemCounts(render: Renderer, items: seq<Item>, config: Config)
    ensures var rd := ReadingOf(render, config);
            && rd.Count(items, Passed) == |set i | 0 <= i < |items| && HasPassed(render, config, items[i])|
            && rd.Count(items, Comparable) == |set i | 0 <= i < |items| && Counts(render, config, items[i])|
            && rd.Count(items, Yellow) == |set i | 0 <= i < |items| && IsYellow(render, config, items[i])|
            && rd.Count(items, Red) == |set i | 0 <= i < |items| && IsRed(render, config, items[i])|
  {
    var rd := ReadingOf(render, config);
    forall q {
      CountIs(rd, items, q);
    }
    forall x {
      HitsIff(render, config, x);
    }
    hide rd.Hits, HasPassed, Counts, IsYellow, IsRed, Ignored, rd.Count;
    assert (set i | 0 <= i < |items| && HasPassed(render, config, items[i])) == Where(items, x => rd.Hits(x, Passed));
    assert (set i | 0 <= i < |items| && Counts(render, config, items[i])) == Where(items, x => rd.Hits(x, Comparable));
    assert (set i | 0 <= i < |items| && IsYellow(render, config, items[i])) == Where(items, x => rd.Hits(x, Yellow));
    assert (set i | 0 <= i < |items| && IsRed(render, config, items[i])) == Where(items, x => rd.Hits(x, Red));
  }

  /** The first items of the results in which `p` holds. */
  ghost function FirstsWith(render: Renderer, items: seq<Item>, p: Item -> bool): set<int> {
    set i | 0 <= i < |items| && IsFirst(render, items, i) && p(items[i])
  }

  lemma ResultCount(rd: Reading, items: seq<Item>, c: Column, p: Item -> bool)
    requires forall i :: 0 <= i < |items| ==> Cells(rd, Group(rd.render, items, KeyOf(rd.render, items[i])), c) == if p(items[i]) then 1 else 0
    ensures SumCells(rd, items, Keys(rd.render, items), c) == |FirstsWith(rd.render, items, p)|
  {
    var keys, fs, marks := Keys(rd.render, items), Firsts(rd.render, items), FirstsWith(rd.render, items, p);
    FirstsAre(rd.render, items);
    hide KeyOf, Cells, Group, Keys, Firsts, IsFirst;
    forall m | 0 <= m < |fs|
      ensures Cells(rd, Group(rd.render, items, keys[m]), c) == if fs[m] in marks then 1 else 0
    {
      assert fs[m] in fs;
    }
    ResultColumn(rd, items, keys, fs, c, marks);
    assert Marked(fs, marks) == marks;
  }

  lemma ResultCounts(render: Renderer, items: seq<Item>, config: Config)
    ensures var rd, keys := ReadingOf(render, config), Keys(render, items);
            && SumCells(rd, items, keys, RedResults) == |FirstsWith(render, items, x => RedResult(render, config, items, x))|
            && SumCells(rd, items, keys, YellowResults) == |FirstsWith(render, items, x => YellowResult(render, config, items, x))|
  {
    forall i | 0 <= i < |items| {
      CellsByFields(render, config, items, items[i]);
    }
    hide RedResult, YellowResult, FirstsWith, SumCells, Keys, Ignored, KeyOf, Group, Cells;
    ResultCount(ReadingOf(render, config), items, RedResults, x => RedResult(render, config, items, x));
    ResultCount(ReadingOf(render, config), items, YellowResults, x => YellowResult(render, config, items, x));
  }

  /** The numbers beside the verdict are numbers of items, and of results by their first items. Red counts the
      red items and the failures of results that have no state at all. */
  lemma CountsByFields(render: Renderer, items: seq<Item>, policy: Policy, config: Config)
    ensures var o := Aggregate(ReadingOf(render, config), items, policy);
            && o.passedCount == |set i | 0 <= i < |items| && HasPassed(render, config, items[i])|
            && o.evaluatedCount == |set i | 0 <= i < |items| && Counts(render, config, items[i])|
            && (if Lacking(items) || policy == SoloInformativo || !SomeCounts(render, config, items)
                then o.yellowCount == o.redCount == o.yellowResultCount == o.redResultCount == 0
                else
                  && o.yellowCount == |set i | 0 <= i < |items| && IsYellow(render, config, items[i])|
                  && o.redCount == |set i | 0 <= i < |items| && IsRed(render, config, items[i])|
                                   + |set i | 0 <= i < |items| && IsSilent(render, config, items, items[i])|
                  && o.yellowResultCount == |FirstsWith(render, items, x => YellowResult(render, config, items, x))|
                  && o.redResultCount == |FirstsWith(render, items, x => RedResult(render, config, items, x))|)
  {
    var rd := ReadingOf(render, config);
    AggregateVerdict(rd, items, policy);
    ResultColumns(rd, items);
    AnyIff(render, items, config);
    SilentCount(render, items, config);
    ItemCounts(render, items, config);
    ResultCounts(render, items, config);
    CountRelations(rd, items);
    hide rd.Count, SumCells, Aggregate, Keys, IsRed, IsSilent, IsYellow, SomeCounts, Lacking, Ignored, SilentGroup, SilentFailures,
      FirstsWith, RedResult, YellowResult, Counts, HasPassed;
  }

  // ---------- The results one by one ----------

  function ResultText(render: Renderer, x: Item): string {
    if !Blank(x.resultId) then "id:" + PyStr(render, x.resultId)
    else if !Blank(x.resultLabel) then "label:" + PyStr(render, x.resultLabel)
    else "ungrouped"
  }

  function TitleText(render: Renderer, x: Item): string {
    if Blank(x.resultId) then (if Blank(x.resultLabel) then "Resultado principal" else PyStr(render, x.resultLabel))
    else if Truthy(x.resultLabel) then PyStr(render, x.resultLabel)
    else "Resultado " + PyStr(render, x.resultId)
  }

  predicate IsLast(render: Renderer, items: seq<Item>, x: Item, l: int) {
    0 <= l < |items| && SameResult(render, x, items[l]) && forall j :: l < j < |items| ==> !SameResult(render, x, items[j])
  }

  /** The positions of the items of the result of `x` with a property. */
  ghost function Own(render: Renderer, items: seq<Item>, x: Item, p: Item -> bool): set<int> {
    set i | 0 <= i < |items| && SameResult(render, x, items[i]) && p(items[i])
  }

  /** `r` reports the result of `x`. */
  ghost predicate Reports(render: Renderer, config: Config, items: seq<Item>, x: Item, r: ResultOutcome) {
    && KeyText(r.key) == ResultText(render, x)
    && (exists l :: IsLast(render, items, x, l) && r.title == TitleText(render, items[l]))
    && r.passedCount == |Own(render, items, x, y => HasPassed(render, config, y))|
    && r.evaluatedCount == |Own(render, items, x, y => Counts(render, config, y))|
    && r.yellowCount == |Own(render, items, x, y => IsYellow(render, config, y))|
    && r.redCount == (if RedIn(render, config, items, x) then |Own(render, items, x, y => IsRed(render, config, y))|
                      else if YellowIn(render, config, items, x) then 0
                      else |Own(render, items, x, y => HasFailed(render, config, y))|)
    && r.estado == (if RedResult(render, config, items, x) then CRITICO
                    else if YellowIn(render, config, items, x) then NO_DESEADO
                    else if r.evaluatedCount > 0 then NORMAL else NO_EVALUABLE)
    && r.passed == (if r.evaluatedCount == 0 then None else Some(r.estado == NORMAL))
  }

  lemma OwnCount(rd: Reading, items: seq<Item>, x: Item, q: Probe, p: Item -> bool)
    requires forall y :: rd.Hits(y, q) <==> p(y)
    ensures rd.Count(Group(rd.render, items, KeyOf(rd.render, x)), q) == |Own(rd.render, items, x, p)|
  {
    var k := KeyOf(rd.render, x);
    GroupCount(rd, items, k, q);
    forall y
      ensures KeyOf(rd.render, y) == k <==> SameResult(rd.render, x, y)
    {
      SameResultIff(rd.render, x, y);
    }
    hide rd.Hits, KeyOf, SameResult, Group, rd.Count;
    assert Own(rd.render, items, x, p) == Where(items, y => KeyOf(rd.render, y) == k && rd.Hits(y, q));
  }

  lemma CountsInResult(render: Renderer, config: Config, items: seq<Item>, x: Item)
    ensures var rd, g := ReadingOf(render, config), Group(render, items, KeyOf(render, x));
            && rd.Count(g, Passed) == |Own(render, items, x, y => HasPassed(render, config, y))|
            && rd.Count(g, Comparable) == |Own(render, items, x, y => Counts(render, config, y))|
            && rd.Count(g, Yellow) == |Own(render, items, x, y => IsYellow(render, config, y))|
            && rd.Count(g, Red) == |Own(render, items, x, y => IsRed(render, config, y))|
            && rd.Count(g, Failed) == |Own(render, items, x, y => HasFailed(render, config, y))|
  {
    var rd := ReadingOf(render, config);
    forall y {
      HitsIff(render, config, y);
    }
    hide rd.Hits, HasPassed, HasFailed, Counts, IsYellow, IsRed, Ignored, rd.Count, KeyOf, Group, Own;
    OwnCount(rd, items, x, Passed, y => HasPassed(render, config, y));
    OwnCount(rd, items, x, Comparable, y => Counts(render, config, y));
    OwnCount(rd, items, x, Yellow, y => IsYellow(render, config, y));
    OwnCount(rd, items, x, Red, y => IsRed(render, config, y));
    OwnCount(rd, items, x, Failed, y => HasFailed(render, config, y));
  }

  lemma {:induction false} LastOf(render: Renderer, items: seq<Item>, x: Item) returns (l: int)
    requires x in items
    ensures IsLast(render, items, x, l) && GroupLabel(render, items, KeyOf(render, x)) == TitleText(render, items[l])
  {
    var n := |items| - 1;
    SameResultIff(render, x, items[n]);
    if KeyOf(render, items[n]) == KeyOf(render, x) {
      l := n;
    } else {
      assert items == items[..n] + [items[n]];
      l := LastOf(render, items[..n], x);
      assert forall j :: 0 <= j < n ==> items[..n][j] == items[j];
    }
  }

  lemma ResultIsReported(render: Renderer, config: Config, items: seq<Item>, x: Item)
    requires x in items && !Lacking(items)
    ensures Reports(render, config, items, x, ResultOf(ReadingOf(render, config), items, TodasDebenCumplir, KeyOf(render, x)))
  {
    hide KeyOf, KeyText, ResultText, Reading.Count, GroupLabel, Group, FlatOutcome, SameResult, HasPassed, HasFailed, Counts, IsYellow, IsRed,
      YellowIn, RedIn, FailureIn, TitleText, IsLast, Ignored, Lacking, Own;
    var rd, k := ReadingOf(render, config), KeyOf(render, x);
    KeyIs(render, x);
    NothingLacks(rd, items, k);
    var l := LastOf(render, items, x);
    CountsInResult(render, config, items, x);
    GroupHas(render, config, items, x);
    FlatIs(rd, Group(render, items, k));
  }

  lemma FlatIs(rd: Reading, g: seq<Item>)
    requires rd.Count(g, Missing) == 0
    ensures var o := FlatOutcome(rd, g, TodasDebenCumplir);
            var passed, counted, yellow := rd.Count(g, Passed), rd.Count(g, Comparable), rd.Count(g, Yellow);
            var red, failed := rd.Count(g, Red), rd.Count(g, Failed);
            && o.passedCount == passed && o.evaluatedCount == counted && o.yellowCount == yellow
            && o.redCount == (if red > 0 then red else if yellow > 0 then 0 else failed)
            && o.estado == (if red > 0 || (failed > 0 && yellow == 0) then CRITICO else if yellow > 0 then NO_DESEADO
                            else if counted > 0 then NORMAL else NO_EVALUABLE)
            && o.passed == (if counted == 0 then None else Some(o.estado == NORMAL))
  {
    CountRelations(rd, g);
    hide rd.Count, rd.RedIdentifiers;
  }

  lemma KeyIs(render: Renderer, x: Item)
    ensures KeyText(KeyOf(render, x)) == ResultText(render, x)
  {
  }

  lemma NothingLacks(rd: Reading, items: seq<Item>, k: GroupKey)
    requires !Lacking(items)
    ensures rd.Count(Group(rd.render, items, k), Missing) == 0
  {
    GroupMembers(rd.render, items, k);
    CountPositive(rd, Group(rd.render, items, k), Missing);
    hide KeyOf, Group, rd.Count;
  }

  lemma {:induction false} ResultsAre(rd: Reading, items: seq<Item>, keys: seq<GroupKey>)
    ensures var rs := Results(rd, items, TodasDebenCumplir, keys);
            |rs| == |keys| && forall m :: 0 <= m < |keys| ==> rs[m] == ResultOf(rd, items, TodasDebenCumplir, keys[m])
  {
    hide ResultOf;
    if keys != [] {
      ResultsAre(rd, items, keys[..|keys| - 1]);
    }
  }

  function RedPlaces(rs: seq<ResultOutcome>): set<int> {
    set m | 0 <= m < |rs| && rs[m].estado == CRITICO
  }

  /** The critical results, in order. */
  lemma {:induction false} RedKeysAre(rs: seq<ResultOutcome>) returns (ms: seq<int>)
    ensures Lists(ms, RedPlaces(rs)) && |ms| == |RedKeys(rs)|
    ensures forall j :: 0 <= j < |ms| ==> 0 <= ms[j] < |rs| && RedKeys(rs)[j] == KeyText(rs[ms[j]].key)
  {
    hide KeyText;
    ms := [];
    if rs != [] {
      var n := |rs| - 1;
      ms := RedKeysAre(rs[..n]);
      ghost var before := RedPlaces(rs[..n]);
      if rs[n].estado == CRITICO {
        ListsAppend(ms, before, n);
        assert RedPlaces(rs) == before + {n};
        ms := ms + [n];
      } else {
        assert RedPlaces(rs) == before;
      }
      hide Lists, RedPlaces;
    }
  }

  /** The positions of the first items. */
  ghost function FirstPlaces(render: Renderer, items: seq<Item>): set<int> {
    set i | 0 <= i < |items| && IsFirst(render, items, i)
  }

  lemma FirstsListed(render: Renderer, items: seq<Item>)
    ensures Lists(Firsts(render, items), FirstPlaces(render, items))
    ensures forall m :: 0 <= m < |Firsts(render, items)| ==> 0 <= Firsts(render, items)[m] < |items|
  {
    FirstsAre(render, items);
    hide IsFirst, KeyOf, Firsts;
  }

  /** The list of results: one for each first item, in that order, each reporting its own items. */
  lemma ResultsByFields(render: Renderer, items: seq<Item>, config: Config) returns (fs: seq<int>)
    requires items != [] && !Lacking(items)
    ensures Lists(fs, FirstPlaces(render, items)) && forall m :: 0 <= m < |fs| ==> 0 <= fs[m] < |items|
    ensures var o := Aggregate(ReadingOf(render, config), items, TodasDebenCumplir);
            && o.resultOutcomes.Some? && |o.resultOutcomes.value| == |fs|
            && forall m :: 0 <= m < |fs| ==> Reports(render, config, items, items[fs[m]], o.resultOutcomes.value[m])
  {
    var rd, keys := ReadingOf(render, config), Keys(render, items);
    fs := Firsts(render, items);
    FirstsAre(render, items);
    FirstsListed(render, items);
    ResultsAre(rd, items, keys);
    AnyIff(render, items, config);
    OutcomeLists(rd, items);
    hide *;
    forall m | 0 <= m < |fs|
      ensures Reports(render, config, items, items[fs[m]], Results(rd, items, TodasDebenCumplir, keys)[m])
    {
      ResultIsReported(render, config, items, items[fs[m]]);
    }
  }

  /** The critical results are named again, in order. */
  lemma CriticalByFields(render: Renderer, items: seq<Item>, config: Config) returns (ms: seq<int>)
    requires items != [] && !Lacking(items)
    ensures var o := Aggregate(ReadingOf(render, config), items, TodasDebenCumplir);
            && o.resultOutcomes.Some? && Lists(ms, RedPlaces(o.resultOutcomes.value))
            && (if SomeCounts(render, config, items) then
                  && o.criticalFailed.Some? && |o.criticalFailed.value| == |ms|
                  && forall j :: 0 <= j < |ms| ==>
                       && 0 <= ms[j] < |o.resultOutcomes.value|
                       && o.criticalFailed.value[j] == KeyText(o.resultOutcomes.value[ms[j]].key)
                else o.criticalFailed == None)
  {
    var rd := ReadingOf(render, config);
    AnyIff(render, items, config);
    OutcomeLists(rd, items);
    ms := RedKeysAre(Results(rd, items, TodasDebenCumplir, Keys(render, items)));
    hide Aggregate, Results, Keys, RedPlaces, Lists, RedKeys, KeyText, SomeCounts, Ignored, Lacking, rd.Count;
  }

  lemma OutcomeLists(rd: Reading, items: seq<Item>)
    requires items != [] && rd.Count(items, Missing) == 0
    ensures var o, rs := Aggregate(rd, items, TodasDebenCumplir), Results(rd, items, TodasDebenCumplir, Keys(rd.render, items));
            && o.resultOutcomes == Some(rs)
            && o.criticalFailed == if rd.Count(items, Comparable) > 0 then Some(RedKeys(rs)) else None
  {
    hide *;
    EvaluatedResultsIff(rd, items);
    ListsOf(rd, items);
    if rd.Count(items, Comparable) == 0 {
      NothingCritical(rd, items);
    }
  }

  lemma ListsOf(rd: Reading, items: seq<Item>)
    requires items != [] && rd.Count(items, Missing) == 0
    ensures var o, rs := Aggregate(rd, items, TodasDebenCumplir), Results(rd, items, TodasDebenCumplir, Keys(rd.render, items));
            && o.resultOutcomes == Some(rs)
            && o.criticalFailed == if Total(rs, EvaluatedResults) == 0 then FlatOutcome(rd, items, TodasDebenCumplir).criticalFailed
                                   else Some(RedKeys(rs))
  {
    hide rd.Count, rd.Hits, rd.RedIdentifiers, Results, Keys, RedKeys, FlatOutcome, Total, Cell, ResultOf, KeyOf, Group;
  }

  lemma EvaluatedResultsIff(rd: Reading, items: seq<Item>)
    requires rd.Count(items, Missing) == 0
    ensures Total(Results(rd, items, TodasDebenCumplir, Keys(rd.render, items)), EvaluatedResults) > 0 <==> rd.Count(items, Comparable) > 0
    ensures Total(Results(rd, items, TodasDebenCumplir, Keys(rd.render, items)), EvaluatedResults) >= 0
  {
    hide *;
    var keys := Keys(rd.render, items);
    TotalIsSum(rd, items, keys, EvaluatedResults);
    SumPositive(rd, items, keys, EvaluatedResults);
    SomeGroupHas(rd, items, Comparable);
    forall k
      ensures Cells(rd, Group(rd.render, items, k), EvaluatedResults) > 0 <==> rd.Count(Group(rd.render, items, k), Comparable) > 0
    {
      EvaluatedCell(rd, Group(rd.render, items, k));
    }
  }

  lemma EvaluatedCell(rd: Reading, g: seq<Item>)
    ensures Cells(rd, g, EvaluatedResults) > 0 <==> rd.Count(g, Comparable) > 0
  {
    hide rd.Count;
  }

  lemma NothingCritical(rd: Reading, items: seq<Item>)
    requires rd.Count(items, Comparable) == 0
    ensures FlatOutcome(rd, items, TodasDebenCumplir).criticalFailed == None
  {
    hide rd.Count, rd.RedIdentifiers;
  }

  /** The flat verdict names its red items, in order, by the first truthy of id, field and label. */
  lemma {:induction false} RedIdentifiersAre(render: Renderer, config: Config, items: seq<Item>) returns (ks: seq<int>)
    ensures Lists(ks, RedPositions(render, config, items))
    ensures var names := ReadingOf(render, config).RedIdentifiers(items);
            |names| == |ks| && forall j :: 0 <= j < |ks| ==>
              && 0 <= ks[j] < |items|
              && var x := items[ks[j]];
                 names[j] == PyStr(render, if Truthy(x.fieldId) then x.fieldId else if Truthy(x.field) then x.field
                                           else if Truthy(x.fieldLabel) then x.fieldLabel else Str(""))
  {
    ks := [];
    if items != [] {
      var n := |items| - 1;
      ks := RedIdentifiersAre(render, config, items[..n]);
      ghost var before, all := RedPositions(render, config, items[..n]), RedPositions(render, config, items);
      RedPositionsStep(render, config, items);
      RedStep(render, config, items);
      hide RedPositions, IsRed, Ignored;
      if IsRed(render, config, items[n]) {
        ListsAppend(ks, before, n);
        ks := ks + [n];
      }
      hide Lists;
    }
  }

  ghost function RedPositions(render: Renderer, config: Config, items: seq<Item>): set<int> {
    set i | 0 <= i < |items| && IsRed(render, config, items[i])
  }

  lemma RedPositionsStep(render: Renderer, config: Config, items: seq<Item>)
    requires items != []
    ensures var n := |items| - 1;
            && (forall i :: i in RedPositions(render, config, items[..n]) ==> i < n)
            && RedPositions(render, config, items)
               == RedPositions(render, config, items[..n]) + (if IsRed(render, config, items[n]) then {n} else {})
  {
    hide IsRed;
    var n := |items| - 1;
    assert forall i :: 0 <= i < n ==> items[..n][i] == items[i];
  }

  lemma RedStep(render: Renderer, config: Config, items: seq<Item>)
    requires items != []
    ensures var n, rd := |items| - 1, ReadingOf(render, config);
            rd.RedIdentifiers(items)
            == rd.RedIdentifiers(items[..n]) + (if IsRed(render, config, items[n]) then [Identifier(render, items[n])] else [])
  {
    HitsIff(render, config, items[|items| - 1]);
    hide IsRed, Ignored, Identifier;
  }
}
