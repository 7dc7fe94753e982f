/** Traffic-light aggregation: the flat verdict over items and the grouped verdict over results. */
module Evaluation {
  import opened Basics
  import opened Json

  datatype Estado =
    | NORMAL | NO_DESEADO | CRITICO | FUERA_DE_LIMITE | SIN_INFORMACION_TECNICA | NO_EVALUABLE | INFORMATIVO
    | OTRO(name: string)

  datatype Policy = TodasDebenCumplir | SoloInformativo

  datatype Item = Item(
    fieldId: Json, field: Json, fieldLabel: Json, passed: Option<bool>, estado: Estado,
    resultId: Json, resultLabel: Json)

  /** The parts of a source configuration that aggregation reads; `campos` may be any JSON value. */
  datatype Config = Config(informativos: seq<Json>, campos: Json)

  datatype GroupKey = ById(id: string) | ByLabel(text: string) | Ungrouped

  datatype ResultOutcome = ResultOutcome(
    key: GroupKey, title: string, estado: Estado, passed: Option<bool>,
    passedCount: int, evaluatedCount: int, yellowCount: int, redCount: int)

  datatype Outcome = Outcome(
    estado: Estado, passed: Option<bool>, passedCount: int, evaluatedCount: int,
    criticalFailed: Option<seq<string>>, yellowCount: int, redCount: int,
    yellowResultCount: int, redResultCount: int, resultOutcomes: Option<seq<ResultOutcome>>)

  // ---------- Ignored fields ----------

  /** `value not in [None, ""]` */
  predicate Present(j: Json) {
    j != Null && j != Str("")
  }

  function Identifiers(render: Renderer, item: Item): set<string> {
    (if Present(item.fieldId) then {PyStr(render, item.fieldId)} else {})
    + (if Present(item.field) then {PyStr(render, item.field)} else {})
    + (if Present(item.fieldLabel) then {PyStr(render, item.fieldLabel)} else {})
  }

  function Identifier(render: Renderer, item: Item): string {
    PyStr(render, Or(item.fieldId, Or(item.field, Or(item.fieldLabel, Str("")))))
  }

  predicate DeclaredIgnored(j: Json) {
    j.Obj? && (Truthy(Get(j.fields, Informativo)) || Get(j.fields, Evalua) == Bool(false))
  }

  function Listed(j: Json): seq<Json> {
    if j.Arr? then j.items else []
  }

  /** Fields are ignored when listed as informative, or declared so by their own rule. */
  function Ignored(render: Renderer, config: Config): set<string> {
    (set j | j in config.informativos && Present(j) :: PyStr(render, j))
    + (set j | j in Listed(config.campos) && DeclaredIgnored(j) :: PyStr(render, Or(Get(j.fields, Codigo), Str(""))))
  }

  method IgnoredFields(render: Renderer, config: Config) returns (ignored: set<string>)
    ensures ignored == Ignored(render, config)
  {
    ignored := set j | j in config.informativos && Present(j) :: PyStr(render, j);
    var campos := Listed(config.campos);
    for i := 0 to |campos|
      invariant ignored == (set j | j in config.informativos && Present(j) :: PyStr(render, j))
                           + (set j | j in campos[..i] && DeclaredIgnored(j) :: PyStr(render, Or(Get(j.fields, Codigo), Str(""))))
    {
      assert campos[..i + 1] == campos[..i] + [campos[i]];
      if campos[i].Obj? {
        if Truthy(Get(campos[i].fields, Informativo)) || Get(campos[i].fields, Evalua) == Bool(false) {
          ignored := ignored + {PyStr(render, Or(Get(campos[i].fields, Codigo), Str("")))};
        }
      }
    }
    assert campos[..|campos|] == campos;
  }

  // ---------- Counting ----------

  /** What aggregation reads of one item, besides its group. */
  datatype Probe = Comparable | Passed | Failed | Yellow | Red | Missing

  /** How items are read: the ignored fields, and the rendering of identifiers. */
  datatype Reading = Reading(render: Renderer, ignored: set<string>) {
    predicate Comp(item: Item) {
      item.passed.Some? && Identifiers(render, item) * ignored == {}
    }

    predicate Hits(item: Item, q: Probe) {
      match q
      case Comparable => Comp(item)
      case Passed => Comp(item) && item.passed.value
      case Failed => Comp(item) && !item.passed.value
      case Yellow => Comp(item) && item.estado == NO_DESEADO
      case Red => Comp(item) && item.estado in {CRITICO, FUERA_DE_LIMITE}
      case Missing => item.estado == SIN_INFORMACION_TECNICA
    }

    function Count(items: seq<Item>, q: Probe): nat {
      if items == [] then 0
      else Count(items[..|items| - 1], q) + (if Hits(items[|items| - 1], q) then 1 else 0)
    }

    function RedIdentifiers(items: seq<Item>): seq<string> {
      if items == [] then []
      else
        var last := items[|items| - 1];
        RedIdentifiers(items[..|items| - 1]) + (if Hits(last, Red) then [Identifier(render, last)] else [])
    }
  }

  // ---------- The flat verdict ----------

  function Plain(estado: Estado, passed: Option<bool>, passedCount: int, evaluatedCount: int): Outcome {
    Outcome(estado, passed, passedCount, evaluatedCount, None, 0, 0, 0, 0, None)
  }

  function FlatOutcome(rd: Reading, items: seq<Item>, policy: Policy): Outcome {
    var comparable, passedCount := rd.Count(items, Comparable), rd.Count(items, Passed);
    var yellow, red := rd.Count(items, Yellow), rd.Count(items, Red);
    if rd.Count(items, Missing) > 0 then Plain(SIN_INFORMACION_TECNICA, None, passedCount, comparable)
    else if policy == SoloInformativo then Plain(INFORMATIVO, None, passedCount, comparable)
    else if comparable == 0 then Plain(NO_EVALUABLE, None, 0, 0)
    else if red > 0 then
      Plain(CRITICO, Some(false), passedCount, comparable)
      .(criticalFailed := Some(rd.RedIdentifiers(items)), yellowCount := yellow, redCount := red)
    else if yellow > 0 then
      Plain(NO_DESEADO, Some(false), passedCount, comparable).(yellowCount := yellow)
    else
      var passed := passedCount == comparable;
      Plain(if passed then NORMAL else CRITICO, Some(passed), passedCount, comparable)
      .(redCount := if passed then 0 else comparable - passedCount)
  }

  // ---------- The grouped verdict ----------

  function KeyOf(render: Renderer, item: Item): GroupKey {
    if Present(item.resultId) then ById(PyStr(render, item.resultId))
    else if Present(item.resultLabel) then ByLabel(PyStr(render, item.resultLabel))
    else Ungrouped
  }

  function LabelOf(render: Renderer, item: Item): string {
    if Present(item.resultId) then
      PyStr(render, Or(item.resultLabel, Str("Resultado " + PyStr(render, item.resultId))))
    else if Present(item.resultLabel) then PyStr(render, item.resultLabel)
    else "Resultado principal"
  }

  function KeyText(k: GroupKey): string {
    match k
    case ById(id) => "id:" + id
    case ByLabel(text) => "label:" + text
    case Ungrouped => "ungrouped"
  }

  /** The group keys in order of first occurrence. */
  function Keys(render: Renderer, items: seq<Item>): seq<GroupKey> {
    if items == [] then []
    else
      var rest := Keys(render, items[..|items| - 1]);
      var k := KeyOf(render, items[|items| - 1]);
      if k in rest then rest else rest + [k]
  }

  function Group(render: Renderer, items: seq<Item>, k: GroupKey): seq<Item> {
    if items == [] then []
    else
      var last := items[|items| - 1];
      Group(render, items[..|items| - 1], k) + (if KeyOf(render, last) == k then [last] else [])
  }

  /** The label of a group is that of its last item. */
  function GroupLabel(render: Renderer, items: seq<Item>, k: GroupKey): string {
    if items == [] then ""
    else
      var last := items[|items| - 1];
      if KeyOf(render, last) == k then LabelOf(render, last) else GroupLabel(render, items[..|items| - 1], k)
  }

  function ToResult(k: GroupKey, title: string, o: Outcome): ResultOutcome {
    ResultOutcome(k, title, o.estado, o.passed, o.passedCount, o.evaluatedCount, o.yellowCount, o.redCount)
  }

  function ResultOf(rd: Reading, items: seq<Item>, policy: Policy, k: GroupKey): ResultOutcome {
    ToResult(k, GroupLabel(rd.render, items, k), FlatOutcome(rd, Group(rd.render, items, k), policy))
  }

  function Results(rd: Reading, items: seq<Item>, policy: Policy, keys: seq<GroupKey>): seq<ResultOutcome> {
    if keys == [] then []
    else Results(rd, items, policy, keys[..|keys| - 1]) + [ResultOf(rd, items, policy, keys[|keys| - 1])]
  }

  datatype Column = PassedC | EvaluatedC | YellowC | RedC | YellowResults | RedResults | EvaluatedResults

  function Cell(r: ResultOutcome, c: Column): int {
    match c
    case PassedC => r.passedCount
    case EvaluatedC => r.evaluatedCount
    case YellowC => r.yellowCount
    case RedC => r.redCount
    case YellowResults => if r.estado == NO_DESEADO then 1 else 0
    case RedResults => if r.estado == CRITICO then 1 else 0
    case EvaluatedResults => if r.estado !in {NO_EVALUABLE, INFORMATIVO} then 1 else 0
  }

  function Total(rs: seq<ResultOutcome>, c: Column): int {
    if rs == [] then 0 else Total(rs[..|rs| - 1], c) + Cell(rs[|rs| - 1], c)
  }

  function RedKeys(rs: seq<ResultOutcome>): seq<string> {
    if rs == [] then []
    else RedKeys(rs[..|rs| - 1]) + (if rs[|rs| - 1].estado == CRITICO then [KeyText(rs[|rs| - 1].key)] else [])
  }

  function Aggregate(rd: Reading, items: seq<Item>, policy: Policy): Outcome {
    var flat := FlatOutcome(rd, items, policy);
    if policy == SoloInformativo || rd.Count(items, Missing) > 0 || items == [] then flat
    else
      var rs := Results(rd, items, policy, Keys(rd.render, items));
      if Total(rs, EvaluatedResults) == 0 then flat.(resultOutcomes := Some(rs))
      else
        var estado := if Total(rs, RedResults) > 0 then CRITICO
                      else if Total(rs, YellowResults) > 0 then NO_DESEADO else NORMAL;
        Outcome(estado, Some(estado == NORMAL), Total(rs, PassedC), Total(rs, EvaluatedC),
                Some(RedKeys(rs)), Total(rs, YellowC), Total(rs, RedC),
                Total(rs, YellowResults), Total(rs, RedResults), Some(rs))
  }

  // ---------- The loops ----------

  lemma {:induction false} KeysAre(render: Renderer, items: seq<Item>)
    ensures forall k :: k in Keys(render, items) <==> exists i :: 0 <= i < |items| && KeyOf(render, items[i]) == k
    ensures forall i, j :: 0 <= i < j < |Keys(render, items)| ==> Keys(render, items)[i] != Keys(render, items)[j]
  {
    if items != [] {
      KeysAre(render, items[..|items| - 1]);
    }
  }

  /** The items seen so far are held by group, with the label of each group. */
  ghost predicate Grouped(render: Renderer, items: seq<Item>, groups: map<GroupKey, seq<Item>>, labels: map<GroupKey, string>) {
    && (forall k :: k in groups <==> k in Keys(render, items))
    && (forall k :: k in groups ==> groups[k] == Group(render, items, k) && k in labels
                                    && labels[k] == GroupLabel(render, items, k))
  }

  lemma {:induction false} NoGroupYet(render: Renderer, items: seq<Item>, k: GroupKey)
    requires k !in Keys(render, items)
    ensures Group(render, items, k) == []
  {
    hide KeyOf;
    if items != [] {
      NoGroupYet(render, items[..|items| - 1], k);
    }
  }

  /** One more item joins its own group. */
  lemma GroupNext(render: Renderer, items: seq<Item>, i: nat, k: GroupKey)
    requires i < |items|
    ensures Group(render, items[..i + 1], k) ==
            Group(render, items[..i], k) + if KeyOf(render, items[i]) == k then [items[i]] else []
    ensures GroupLabel(render, items[..i + 1], k) ==
            if KeyOf(render, items[i]) == k then LabelOf(render, items[i]) else GroupLabel(render, items[..i], k)
  {
    hide KeyOf, LabelOf;
    assert items[..i + 1][..i] == items[..i];
  }

  lemma KeysNext(render: Renderer, items: seq<Item>, i: nat)
    requires i < |items|
    ensures var keys, k := Keys(render, items[..i]), KeyOf(render, items[i]);
            Keys(render, items[..i + 1]) == if k in keys then keys else keys + [k]
  {
    hide KeyOf;
    assert items[..i + 1][..i] == items[..i];
  }

  lemma GroupedStep(render: Renderer, items: seq<Item>, i: nat, groups: map<GroupKey, seq<Item>>, labels: map<GroupKey, string>)
    requires i < |items| && Grouped(render, items[..i], groups, labels)
    ensures var k := KeyOf(render, items[i]);
            var list := (if k in groups then groups[k] else []) + [items[i]];
            && Grouped(render, items[..i + 1], groups[k := list], labels[k := LabelOf(render, items[i])])
            && Keys(render, items[..i + 1]) == Keys(render, items[..i]) + if k in groups then [] else [k]
  {
    hide KeyOf, LabelOf, Keys, Group, GroupLabel;
    var k := KeyOf(render, items[i]);
    if k !in groups {
      NoGroupYet(render, items[..i], k);
    }
    KeysNext(render, items, i);
    forall k' {
      GroupNext(render, items, i, k');
    }
  }

  lemma GroupedStart(render: Renderer)
    ensures Keys(render, []) == [] && Grouped(render, [], map[], map[])
  {
  }

  /** The first loop of `aggregate_evaluations`: items by group, labels, and the order of the groups. */
  method GroupItems(render: Renderer, items: seq<Item>)
    returns (order: seq<GroupKey>, groups: map<GroupKey, seq<Item>>, labels: map<GroupKey, string>)
    ensures order == Keys(render, items)
    ensures Grouped(render, items, groups, labels)
  {
    hide *;
    order, groups, labels := [], map[], map[];
    GroupedStart(render);
    assert items[..0] == [];
    for i := 0 to |items|
      invariant order == Keys(render, items[..i])
      invariant Grouped(render, items[..i], groups, labels)
    {
      var key, title := KeyOf(render, items[i]), LabelOf(render, items[i]);
      GroupedStep(render, items, i, groups, labels);
      ghost var list := (if key in groups then groups[key] else []) + [items[i]];
      ghost var expected := groups[key := list];
      if key !in groups {
        order := order + [key];
        groups := groups[key := []];
      }
      groups := groups[key := groups[key] + [items[i]]];
      assert groups == expected;
      labels := labels[key := title];
    }
    assert items[..|items|] == items;
  }

  /** The second loop: one outcome for each group, in order. */
  method OutcomesByGroup(rd: Reading, items: seq<Item>, policy: Policy, order: seq<GroupKey>,
                         groups: map<GroupKey, seq<Item>>, labels: map<GroupKey, string>)
    returns (rs: seq<ResultOutcome>)
    requires order == Keys(rd.render, items) && Grouped(rd.render, items, groups, labels)
    ensures rs == Results(rd, items, policy, order)
  {
    hide FlatOutcome, Keys, Group, GroupLabel;
    rs := [];
    for i := 0 to |order|
      invariant rs == Results(rd, items, policy, order[..i])
    {
      assert order[..i + 1][..i] == order[..i];
      var k := order[i];
      assert k in order;
      rs := rs + [ToResult(k, labels[k], FlatOutcome(rd, groups[k], policy))];
    }
    assert order[..|order|] == order;
  }

  method AggregateEvaluations(render: Renderer, items: seq<Item>, policy: Policy, config: Config) returns (o: Outcome)
    ensures o == Aggregate(Reading(render, Ignored(render, config)), items, policy)
  {
    var ignored := IgnoredFields(render, config);
    var rd := Reading(render, ignored);
    hide FlatOutcome, Ignored, Keys, Results, Total, RedKeys, Grouped;
    if policy == SoloInformativo || rd.Count(items, Missing) > 0 {
      return FlatOutcome(rd, items, policy);
    }
    var order, groups, labels := GroupItems(render, items);
    if items == [] {
      return FlatOutcome(rd, items, policy);
    }
    var rs := OutcomesByGroup(rd, items, policy, order, groups, labels);
    if Total(rs, EvaluatedResults) == 0 {
      return FlatOutcome(rd, items, policy).(resultOutcomes := Some(rs));
    }
    var estado, passed := NORMAL, true;
    if Total(rs, RedResults) > 0 {
      estado, passed := CRITICO, false;
    } else if Total(rs, YellowResults) > 0 {
      estado, passed := NO_DESEADO, false;
    }
    o := Outcome(estado, Some(passed), Total(rs, PassedC), Total(rs, EvaluatedC), Some(RedKeys(rs)),
                 Total(rs, YellowC), Total(rs, RedC), Total(rs, YellowResults), Total(rs, RedResults), Some(rs));
  }
}
