// Joining the alerts of two sources: on the vendor's alert id, then on the incident.
module AlertMerge {
  import opened Text

  datatype Source = FromGraph | FromSentinel | FromBoth

  datatype Classification = TruePositive | FalsePositive | BenignPositive | Undetermined

  datatype Alert = Alert(
    id: string, title: string, severity: string, status: string, classification: Classification,
    determination: string, source: Source, serviceSource: string, created: Option<int>, resolved: Option<int>,
    firstActivity: Option<int>, lastActivity: Option<int>, incidentId: Option<string>, techniques: seq<string>,
    assignedTo: Option<string>, description: string, ruleId: Option<string>, ruleName: Option<string>,
    detectionSource: string, providerId: Option<string>)

  const UNKNOWN := "unknown"

  // ---- merging two alerts ----

  /** Python's `a or b`. */
  function Or<T(==)>(a: seq<T>, b: seq<T>): seq<T> {
    if a != [] then a else b
  }

  predicate Given(a: Option<string>) {
    a.Some? && a.value != ""
  }

  function OrText(a: Option<string>, b: Option<string>): Option<string> {
    if Given(a) then a else b
  }

  function OrTime(a: Option<int>, b: Option<int>): Option<int> {
    if a.Some? then a else b
  }

  /** `NormalizedAlert.merge`. */
  function Merge(g: Alert, s: Alert): Alert {
    Alert(
      g.id, Or(g.title, s.title),
      if g.severity != UNKNOWN then g.severity else s.severity,
      if g.status != UNKNOWN then g.status else s.status,
      if g.classification == Undetermined && s.classification != Undetermined then s.classification
      else g.classification,
      if g.determination == UNKNOWN && s.determination != UNKNOWN then s.determination else g.determination,
      FromBoth, Or(g.serviceSource, s.serviceSource), OrTime(g.created, s.created), OrTime(g.resolved, s.resolved),
      OrTime(g.firstActivity, s.firstActivity), OrTime(g.lastActivity, s.lastActivity),
      OrText(g.incidentId, s.incidentId), Or(g.techniques, s.techniques), OrText(g.assignedTo, s.assignedTo),
      Or(g.description, s.description), OrText(s.ruleId, g.ruleId), OrText(g.ruleName, s.ruleName),
      Or(g.detectionSource, s.detectionSource), OrText(g.providerId, s.providerId))
  }

  /** What either side knows is known afterwards, and merging again with either side changes nothing. */
  lemma MergeKeepsWhatIsKnown(g: Alert, s: Alert)
    ensures var m := Merge(g, s);
      && (Given(m.incidentId) <==> Given(g.incidentId) || Given(s.incidentId))
      && (Given(m.ruleId) <==> Given(g.ruleId) || Given(s.ruleId))
      && (Given(m.providerId) <==> Given(g.providerId) || Given(s.providerId))
      && (m.classification != Undetermined <==> g.classification != Undetermined || s.classification != Undetermined)
      && (m.created.Some? <==> g.created.Some? || s.created.Some?)
      && Merge(m, s) == m && Merge(g, m) == m
  {
  }

  /** Graph's evidence wins where there is any; Sentinel's rule wins; a decided classification beats an open one. */
  lemma MergePrefers(g: Alert, s: Alert)
    ensures var m := Merge(g, s);
      && m.id == g.id && m.source == FromBoth
      && m.title == (if g.title == "" then s.title else g.title)
      && m.description == (if g.description == "" then s.description else g.description)
      && m.techniques == (if g.techniques == [] then s.techniques else g.techniques)
      && m.serviceSource == (if g.serviceSource == "" then s.serviceSource else g.serviceSource)
      && m.detectionSource == (if g.detectionSource == "" then s.detectionSource else g.detectionSource)
    ensures var m := Merge(g, s);
      && m.severity == (if g.severity == UNKNOWN then s.severity else g.severity)
      && m.status == (if g.status == UNKNOWN then s.status else g.status)
      && m.determination == (if g.determination == UNKNOWN then s.determination else g.determination)
      && m.classification == (if g.classification == Undetermined then s.classification else g.classification)
    ensures var m := Merge(g, s);
      && m.ruleId == (if Given(s.ruleId) then s.ruleId else g.ruleId)
      && m.ruleName == (if Given(g.ruleName) then g.ruleName else s.ruleName)
      && m.incidentId == (if Given(g.incidentId) then g.incidentId else s.incidentId)
      && m.assignedTo == (if Given(g.assignedTo) then g.assignedTo else s.assignedTo)
      && m.providerId == (if Given(g.providerId) then g.providerId else s.providerId)
    ensures var m := Merge(g, s);
      && m.created == (if g.created.Some? then g.created else s.created)
      && m.resolved == (if g.resolved.Some? then g.resolved else s.resolved)
      && m.firstActivity == (if g.firstActivity.Some? then g.firstActivity else s.firstActivity)
      && m.lastActivity == (if g.lastActivity.Some? then g.lastActivity else s.lastActivity)
  {
  }

  // ---- the join's parts ----

  function CorrelationKeys(a: Alert): seq<string> {
    (if Given(a.providerId) then [a.providerId.value] else []) + if a.id != "" then [a.id] else []
  }

  function Indexed(index: map<string, Alert>, keys: seq<string>, a: Alert): map<string, Alert> {
    if keys == [] then index
    else
      var before, key := Indexed(index, keys[..|keys| - 1], a), keys[|keys| - 1];
      if key in before then before else before[key := a]
  }

  /** `sentinel_by_key`: the first alert offering a key keeps it. */
  function Index(sentinel: seq<Alert>): map<string, Alert> {
    if sentinel == [] then map[]
    else
      var s := sentinel[|sentinel| - 1];
      Indexed(Index(sentinel[..|sentinel| - 1]), CorrelationKeys(s), s)
  }

  function Lookup(index: map<string, Alert>, keys: seq<string>): Option<Alert> {
    if keys == [] then None
    else if keys[0] in index then Some(index[keys[0]])
    else Lookup(index, keys[1..])
  }

  /** One output row, with the alerts it was made from. */
  datatype Row = Joined(graph: Alert, sentinel: Alert) | GraphOnly(graph: Alert) | SentinelOnly(sentinel: Alert)

  function Output(row: Row): Alert {
    match row
    case Joined(g, s) => Merge(g, s)
    case GraphOnly(g) => g
    case SentinelOnly(s) => s
  }

  function Outputs(rows: seq<Row>): seq<Alert> {
    seq(|rows|, i requires 0 <= i < |rows| => Output(rows[i]))
  }

  /** The loop's variables: rows so far, and the ids that are matched. */
  datatype State = State(rows: seq<Row>, graphIds: set<string>, sentinelIds: set<string>)

  /** First pass, one Graph alert. */
  function Correlate(st: State, g: Alert, index: map<string, Alert>): State {
    match Lookup(index, CorrelationKeys(g))
    case None => st
    case Some(s) => State(st.rows + [Joined(g, s)], st.graphIds + {g.id}, st.sentinelIds + {s.id})
  }

  function FirstPass(graph: seq<Alert>, index: map<string, Alert>): State {
    if graph == [] then State([], {}, {})
    else Correlate(FirstPass(graph[..|graph| - 1], index), graph[|graph| - 1], index)
  }

  /** `graph_by_incident`. */
  function ByIncident(graph: seq<Alert>, matched: set<string>): map<string, seq<Alert>> {
    if graph == [] then map[]
    else
      var before, g := ByIncident(graph[..|graph| - 1], matched), graph[|graph| - 1];
      if g.id !in matched && Given(g.incidentId) then
        var key := g.incidentId.value;
        before[key := (if key in before then before[key] else []) + [g]]
      else before
  }

  /** Second pass, the inner loop: `s` takes the Graph alerts that are not taken. */
  function Take(st: State, gs: seq<Alert>, s: Alert): State {
    if gs == [] then st
    else
      var before, g := Take(st, gs[..|gs| - 1], s), gs[|gs| - 1];
      if g.id in before.graphIds then before
      else before.(rows := before.rows + [Joined(g, s)], graphIds := before.graphIds + {g.id})
  }

  function JoinOne(st: State, s: Alert, byIncident: map<string, seq<Alert>>): State {
    if s.id in st.sentinelIds then st
    else if Given(s.incidentId) && s.incidentId.value in byIncident then
      var taken := Take(st, byIncident[s.incidentId.value], s);
      taken.(sentinelIds := taken.sentinelIds + {s.id})
    else st
  }

  function SecondPass(st: State, sentinel: seq<Alert>, byIncident: map<string, seq<Alert>>): State {
    if sentinel == [] then st
    else JoinOne(SecondPass(st, sentinel[..|sentinel| - 1], byIncident), sentinel[|sentinel| - 1], byIncident)
  }

  function GraphLeft(graph: seq<Alert>, matched: set<string>): seq<Row> {
    if graph == [] then []
    else
      var before, g := GraphLeft(graph[..|graph| - 1], matched), graph[|graph| - 1];
      if g.id !in matched then before + [GraphOnly(g)] else before
  }

  function SentinelLeft(sentinel: seq<Alert>, matched: set<string>): seq<Row> {
    if sentinel == [] then []
    else
      var before, s := SentinelLeft(sentinel[..|sentinel| - 1], matched), sentinel[|sentinel| - 1];
      if s.id !in matched then before + [SentinelOnly(s)] else before
  }

  function AfterFirst(graph: seq<Alert>, sentinel: seq<Alert>): State {
    FirstPass(graph, Index(sentinel))
  }

  function AfterSecond(graph: seq<Alert>, sentinel: seq<Alert>): State {
    var first := AfterFirst(graph, sentinel);
    SecondPass(first, sentinel, ByIncident(graph, first.graphIds))
  }

  /** All rows of `merge_alerts`. */
  function Rows(graph: seq<Alert>, sentinel: seq<Alert>): seq<Row> {
    if graph == [] then SentinelLeft(sentinel, {})
    else if sentinel == [] then GraphLeft(graph, {})
    else
      var st := AfterSecond(graph, sentinel);
      st.rows + GraphLeft(graph, st.graphIds) + SentinelLeft(sentinel, st.sentinelIds)
  }

  // ---- the method ----

  lemma OutputsSnoc(rows: seq<Row>, row: Row)
    ensures Outputs(rows + [row]) == Outputs(rows) + [Output(row)]
  {
  }

  lemma OutputsConcat(a: seq<Row>, b: seq<Row>, c: seq<Row>)
    ensures Outputs(a + b + c) == Outputs(a) + (Outputs(b) + Outputs(c))
  {
  }

  lemma IndexStep(sentinel: seq<Alert>, i: nat)
    requires i < |sentinel|
    ensures Index(sentinel[..i + 1]) == Indexed(Index(sentinel[..i]), CorrelationKeys(sentinel[i]), sentinel[i])
  {
    assert sentinel[..i + 1][..i] == sentinel[..i];
  }

  method BuildIndex(sentinel: seq<Alert>) returns (index: map<string, Alert>)
    ensures index == Index(sentinel)
  {
    index := map[];
    for i := 0 to |sentinel|
      invariant index == Index(sentinel[..i])
    {
      IndexStep(sentinel, i);
      index := AddUnder(index, CorrelationKeys(sentinel[i]), sentinel[i]);
    }
    assert sentinel[..|sentinel|] == sentinel;
  }

  method AddUnder(before: map<string, Alert>, keys: seq<string>, s: Alert) returns (index: map<string, Alert>)
    ensures index == Indexed(before, keys, s)
  {
    index := before;
    for j := 0 to |keys|
      invariant index == Indexed(before, keys[..j], s)
    {
      assert keys[..j + 1][..j] == keys[..j];
      if keys[j] !in index {
        index := index[keys[j] := s];
      }
    }
    assert keys[..|keys|] == keys;
  }

  method GroupByIncident(graph: seq<Alert>, matched: set<string>) returns (groups: map<string, seq<Alert>>)
    ensures groups == ByIncident(graph, matched)
  {
    groups := map[];
    for i := 0 to |graph|
      invariant groups == ByIncident(graph[..i], matched)
    {
      assert graph[..i + 1][..i] == graph[..i];
      if graph[i].id !in matched && Given(graph[i].incidentId) {
        var key := graph[i].incidentId.value;
        groups := groups[key := (if key in groups then groups[key] else []) + [graph[i]]];
      }
    }
    assert graph[..|graph|] == graph;
  }

  method RunFirstPass(graph: seq<Alert>, index: map<string, Alert>)
    returns (result: seq<Alert>, graphIds: set<string>, sentinelIds: set<string>)
    ensures var st := FirstPass(graph, index);
      result == Outputs(st.rows) && graphIds == st.graphIds && sentinelIds == st.sentinelIds
  {
    result, graphIds, sentinelIds := [], {}, {};
    ghost var st := State([], {}, {});
    for i := 0 to |graph|
      invariant st == FirstPass(graph[..i], index)
      invariant result == Outputs(st.rows) && graphIds == st.graphIds && sentinelIds == st.sentinelIds
    {
      assert graph[..i + 1][..i] == graph[..i];
      var s := Lookup(index, CorrelationKeys(graph[i]));
      if s.Some? {
        OutputsSnoc(st.rows, Joined(graph[i], s.value));
        result := result + [Merge(graph[i], s.value)];
        graphIds, sentinelIds := graphIds + {graph[i].id}, sentinelIds + {s.value.id};
      }
      st := Correlate(st, graph[i], index);
    }
    assert graph[..|graph|] == graph;
  }

  method TakeGroup(ghost st: State, result: seq<Alert>, graphIds: set<string>, gs: seq<Alert>, s: Alert)
    returns (result': seq<Alert>, graphIds': set<string>)
    requires result == Outputs(st.rows) && graphIds == st.graphIds
    ensures result' == Outputs(Take(st, gs, s).rows) && graphIds' == Take(st, gs, s).graphIds
  {
    result', graphIds' := result, graphIds;
    for i := 0 to |gs|
      invariant result' == Outputs(Take(st, gs[..i], s).rows) && graphIds' == Take(st, gs[..i], s).graphIds
    {
      assert gs[..i + 1][..i] == gs[..i];
      if gs[i].id !in graphIds' {
        OutputsSnoc(Take(st, gs[..i], s).rows, Joined(gs[i], s));
        result' := result' + [Merge(gs[i], s)];
        graphIds' := graphIds' + {gs[i].id};
      }
    }
    assert gs[..|gs|] == gs;
  }

  lemma {:induction false} TakeKeepsSentinelIds(st: State, gs: seq<Alert>, s: Alert)
    ensures Take(st, gs, s).sentinelIds == st.sentinelIds
  {
    if gs != [] {
      TakeKeepsSentinelIds(st, gs[..|gs| - 1], s);
    }
  }

  method RunSecondPass(ghost st: State, result0: seq<Alert>, graphIds0: set<string>, sentinelIds0: set<string>,
                       sentinel: seq<Alert>, groups: map<string, seq<Alert>>)
    returns (result: seq<Alert>, graphIds: set<string>, sentinelIds: set<string>)
    requires result0 == Outputs(st.rows) && graphIds0 == st.graphIds && sentinelIds0 == st.sentinelIds
    ensures var end := SecondPass(st, sentinel, groups);
      result == Outputs(end.rows) && graphIds == end.graphIds && sentinelIds == end.sentinelIds
  {
    result, graphIds, sentinelIds := result0, graphIds0, sentinelIds0;
    for i := 0 to |sentinel|
      invariant var now := SecondPass(st, sentinel[..i], groups);
        result == Outputs(now.rows) && graphIds == now.graphIds && sentinelIds == now.sentinelIds
    {
      assert sentinel[..i + 1][..i] == sentinel[..i];
      ghost var now := SecondPass(st, sentinel[..i], groups);
      var s := sentinel[i];
      if s.id in sentinelIds {
        continue;
      }
      if Given(s.incidentId) && s.incidentId.value in groups {
        TakeKeepsSentinelIds(now, groups[s.incidentId.value], s);
        result, graphIds := TakeGroup(now, result, graphIds, groups[s.incidentId.value], s);
        sentinelIds := sentinelIds + {s.id};
      }
    }
    assert sentinel[..|sentinel|] == sentinel;
  }

  method Leftovers(graph: seq<Alert>, sentinel: seq<Alert>, graphIds: set<string>, sentinelIds: set<string>)
    returns (rest: seq<Alert>)
    ensures rest == Outputs(GraphLeft(graph, graphIds)) + Outputs(SentinelLeft(sentinel, sentinelIds))
  {
    var gs: seq<Alert> := [];
    for i := 0 to |graph|
      invariant gs == Outputs(GraphLeft(graph[..i], graphIds))
    {
      assert graph[..i + 1][..i] == graph[..i];
      if graph[i].id !in graphIds {
        gs := gs + [graph[i]];
      }
    }
    assert graph[..|graph|] == graph;
    var ss: seq<Alert> := [];
    for i := 0 to |sentinel|
      invariant ss == Outputs(SentinelLeft(sentinel[..i], sentinelIds))
    {
      assert sentinel[..i + 1][..i] == sentinel[..i];
      if sentinel[i].id !in sentinelIds {
        ss := ss + [sentinel[i]];
      }
    }
    assert sentinel[..|sentinel|] == sentinel;
    rest := gs + ss;
  }

  /** `merge_alerts`. */
  method MergeAlerts(graph: seq<Alert>, sentinel: seq<Alert>) returns (result: seq<Alert>)
    ensures result == Outputs(Rows(graph, sentinel))
  {
    if graph == [] {
      LeftIsAll([], sentinel);
      return sentinel;
    }
    if sentinel == [] {
      LeftIsAll(graph, []);
      return graph;
    }
    var index := BuildIndex(sentinel);
    var graphIds, sentinelIds;
    result, graphIds, sentinelIds := RunFirstPass(graph, index);
    ghost var first := AfterFirst(graph, sentinel);
    var groups := GroupByIncident(graph, graphIds);
    result, graphIds, sentinelIds := RunSecondPass(first, result, graphIds, sentinelIds, sentinel, groups);
    var rest := Leftovers(graph, sentinel, graphIds, sentinelIds);
    ghost var end := AfterSecond(graph, sentinel);
    OutputsConcat(end.rows, GraphLeft(graph, graphIds), SentinelLeft(sentinel, sentinelIds));
    result := result + rest;
  }

  lemma {:induction false} LeftIsAll(graph: seq<Alert>, sentinel: seq<Alert>)
    ensures Outputs(GraphLeft(graph, {})) == graph && Outputs(SentinelLeft(sentinel, {})) == sentinel
    decreases |graph| + |sentinel|
  {
    if graph != [] {
      LeftIsAll(graph[..|graph| - 1], sentinel);
      assert graph == graph[..|graph| - 1] + [graph[|graph| - 1]];
    } else if sentinel != [] {
      LeftIsAll(graph, sentinel[..|sentinel| - 1]);
      assert sentinel == sentinel[..|sentinel| - 1] + [sentinel[|sentinel| - 1]];
    }
  }
}
