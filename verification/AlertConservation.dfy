// Which alerts survive the merge: every Graph alert exactly once, and exactly which Sentinel alerts do not.
module AlertConservation {
  import opened Text
  import opened AlertMerge

  predicate DistinctIds(alerts: seq<Alert>) {
    forall i, j | 0 <= i < j < |alerts| :: alerts[i].id != alerts[j].id
  }

  predicate Identifies(alerts: seq<Alert>, a: Alert) {
    forall x | x in alerts :: x.id == a.id ==> x == a
  }

  lemma DistinctIdentifies(alerts: seq<Alert>, a: Alert)
    requires DistinctIds(alerts) && a in alerts
    ensures Identifies(alerts, a)
  {
  }

  // ---- every Graph alert, once ----

  /** How many rows were made from a Graph alert. */
  function Times(rows: seq<Row>, g: Alert): nat {
    if rows == [] then 0
    else
      var last := rows[|rows| - 1];
      Times(rows[..|rows| - 1], g) + if !last.SentinelOnly? && last.graph == g then 1 else 0
  }

  lemma {:induction false} TimesConcat(a: seq<Row>, b: seq<Row>, g: Alert)
    ensures Times(a + b, g) == Times(a, g) + Times(b, g)
  {
    if b == [] {
      assert a + b == a;
    } else {
      assert (a + b)[..|a + b| - 1] == a + b[..|b| - 1];
      TimesConcat(a, b[..|b| - 1], g);
    }
  }

  predicate Once(st: State, g: Alert) {
    Times(st.rows, g) == if g.id in st.graphIds then 1 else 0
  }

  lemma {:induction false} FirstPassOnce(graph: seq<Alert>, index: map<string, Alert>, g: Alert)
    requires DistinctIds(graph) && Identifies(graph, g)
    ensures Once(FirstPass(graph, index), g)
    ensures g.id in FirstPass(graph, index).graphIds ==> g in graph
  {
    if graph != [] {
      var last, rest := graph[|graph| - 1], graph[..|graph| - 1];
      assert graph == rest + [last];
      FirstPassOnce(rest, index, g);
      CorrelateOnce(FirstPass(rest, index), last, index, g);
    }
  }

  lemma CorrelateOnce(st: State, last: Alert, index: map<string, Alert>, g: Alert)
    requires Once(st, g) && (last.id == g.id ==> last == g && g.id !in st.graphIds)
    ensures Once(Correlate(st, last, index), g)
    ensures g.id in Correlate(st, last, index).graphIds ==> g.id in st.graphIds || g == last
  {
    var found := Lookup(index, CorrelationKeys(last));
    if found.Some? {
      RowAdded(st.rows, Joined(last, found.value), g);
    }
  }

  lemma RowAdded(rows: seq<Row>, row: Row, g: Alert)
    ensures Times(rows + [row], g) == Times(rows, g) + if !row.SentinelOnly? && row.graph == g then 1 else 0
  {
    assert (rows + [row])[..|rows|] == rows;
  }

  lemma {:induction false} TakeOnce(st: State, gs: seq<Alert>, s: Alert, g: Alert)
    requires Identifies(gs, g) && Once(st, g)
    ensures Once(Take(st, gs, s), g)
  {
    if gs != [] {
      var last, rest := gs[|gs| - 1], gs[..|gs| - 1];
      assert gs == rest + [last];
      TakeOnce(st, rest, s, g);
      RowAdded(Take(st, rest, s).rows, Joined(last, s), g);
    }
  }

  /** A group holds the unmatched Graph alerts of its incident. */
  lemma {:induction false} GroupHolds(graph: seq<Alert>, matched: set<string>, key: string, x: Alert)
    ensures (key in ByIncident(graph, matched) && x in ByIncident(graph, matched)[key])
      <==> (x in graph && x.id !in matched && x.incidentId == Some(key) && key != "")
    ensures key in ByIncident(graph, matched) ==> ByIncident(graph, matched)[key] != []
  {
    if graph != [] {
      assert graph == graph[..|graph| - 1] + [graph[|graph| - 1]];
      GroupHolds(graph[..|graph| - 1], matched, key, x);
    }
  }

  lemma {:induction false} SecondPassOnce(st: State, sentinel: seq<Alert>, graph: seq<Alert>, matched: set<string>,
                                          g: Alert)
    requires Identifies(graph, g) && Once(st, g)
    ensures Once(SecondPass(st, sentinel, ByIncident(graph, matched)), g)
  {
    if sentinel != [] {
      var s, rest, groups := sentinel[|sentinel| - 1], sentinel[..|sentinel| - 1], ByIncident(graph, matched);
      SecondPassOnce(st, rest, graph, matched, g);
      if Joinable(s, groups) {
        var gs := groups[s.incidentId.value];
        forall x | x in gs ensures x in graph {
          GroupHolds(graph, matched, s.incidentId.value, x);
        }
        TakeOnce(SecondPass(st, rest, groups), gs, s, g);
      }
    }
  }

  lemma InitIdentifies(graph: seq<Alert>, g: Alert)
    requires DistinctIds(graph) && Identifies(graph, g) && graph != []
    ensures var last, rest := graph[|graph| - 1], graph[..|graph| - 1];
      && DistinctIds(rest) && Identifies(rest, g)
      && (g in graph <==> g in rest || g == last) && (g == last ==> g !in rest)
  {
    var last, rest := graph[|graph| - 1], graph[..|graph| - 1];
    assert graph == rest + [last];
    if g in rest {
      var i :| 0 <= i < |rest| && rest[i] == g;
      assert graph[i].id != last.id;
    }
  }

  lemma {:induction false} GraphLeftOnce(graph: seq<Alert>, matched: set<string>, g: Alert)
    requires DistinctIds(graph) && Identifies(graph, g)
    ensures Times(GraphLeft(graph, matched), g) == if g in graph && g.id !in matched then 1 else 0
  {
    if graph != [] {
      var last, rest := graph[|graph| - 1], graph[..|graph| - 1];
      InitIdentifies(graph, g);
      GraphLeftOnce(rest, matched, g);
      RowAdded(GraphLeft(rest, matched), GraphOnly(last), g);
    }
  }

  lemma {:induction false} SentinelLeftNever(sentinel: seq<Alert>, matched: set<string>, g: Alert)
    ensures Times(SentinelLeft(sentinel, matched), g) == 0
  {
    if sentinel != [] {
      SentinelLeftNever(sentinel[..|sentinel| - 1], matched, g);
      RowAdded(SentinelLeft(sentinel[..|sentinel| - 1], matched), SentinelOnly(sentinel[|sentinel| - 1]), g);
    }
  }

  /** Each Graph alert gives exactly one output row. */
  lemma EveryGraphAlertOnce(graph: seq<Alert>, sentinel: seq<Alert>, g: Alert)
    requires DistinctIds(graph) && g in graph
    ensures Times(Rows(graph, sentinel), g) == 1
  {
    DistinctIdentifies(graph, g);
    if sentinel == [] {
      GraphLeftOnce(graph, {}, g);
    } else {
      var first, st := AfterFirst(graph, sentinel), AfterSecond(graph, sentinel);
      FirstPassOnce(graph, Index(sentinel), g);
      SecondPassOnce(first, sentinel, graph, first.graphIds, g);
      GraphLeftOnce(graph, st.graphIds, g);
      SentinelLeftNever(sentinel, st.sentinelIds, g);
      TimesConcat(st.rows + GraphLeft(graph, st.graphIds), SentinelLeft(sentinel, st.sentinelIds), g);
      TimesConcat(st.rows, GraphLeft(graph, st.graphIds), g);
    }
  }

  // ---- the number of rows ----

  function GraphParts(rows: seq<Row>): seq<Alert> {
    if rows == [] then []
    else
      var last := rows[|rows| - 1];
      GraphParts(rows[..|rows| - 1]) + if last.SentinelOnly? then [] else [last.graph]
  }

  function SentinelOnlyRows(rows: seq<Row>): nat {
    if rows == [] then 0
    else SentinelOnlyRows(rows[..|rows| - 1]) + if rows[|rows| - 1].SentinelOnly? then 1 else 0
  }

  lemma {:induction false} PartsCount(rows: seq<Row>, g: Alert)
    ensures multiset(GraphParts(rows))[g] == Times(rows, g)
  {
    if rows != [] {
      PartsCount(rows[..|rows| - 1], g);
    }
  }

  lemma {:induction false} RowsSplit(rows: seq<Row>)
    ensures |GraphParts(rows)| + SentinelOnlyRows(rows) == |rows|
  {
    if rows != [] {
      RowsSplit(rows[..|rows| - 1]);
    }
  }

  predicate FromThese(rows: seq<Row>, graph: seq<Alert>) {
    forall r | r in rows :: !r.SentinelOnly? ==> r.graph in graph
  }

  lemma {:induction false} FirstPassFromThese(graph: seq<Alert>, index: map<string, Alert>)
    ensures FromThese(FirstPass(graph, index).rows, graph)
  {
    if graph != [] {
      assert graph == graph[..|graph| - 1] + [graph[|graph| - 1]];
      FirstPassFromThese(graph[..|graph| - 1], index);
    }
  }

  lemma {:induction false} TakeFromThese(st: State, gs: seq<Alert>, s: Alert, graph: seq<Alert>)
    requires FromThese(st.rows, graph) && forall x | x in gs :: x in graph
    ensures FromThese(Take(st, gs, s).rows, graph)
  {
    if gs != [] {
      assert gs == gs[..|gs| - 1] + [gs[|gs| - 1]];
      TakeFromThese(st, gs[..|gs| - 1], s, graph);
    }
  }

  lemma {:induction false} SecondPassFromThese(st: State, sentinel: seq<Alert>, graph: seq<Alert>, matched: set<string>)
    requires FromThese(st.rows, graph)
    ensures FromThese(SecondPass(st, sentinel, ByIncident(graph, matched)).rows, graph)
  {
    if sentinel != [] {
      var s, rest, groups := sentinel[|sentinel| - 1], sentinel[..|sentinel| - 1], ByIncident(graph, matched);
      SecondPassFromThese(st, rest, graph, matched);
      if Joinable(s, groups) {
        var gs := groups[s.incidentId.value];
        forall x | x in gs ensures x in graph {
          GroupHolds(graph, matched, s.incidentId.value, x);
        }
        TakeFromThese(SecondPass(st, rest, groups), gs, s, graph);
      }
    }
  }

  lemma {:induction false} LeftFromThese(graph: seq<Alert>, part: seq<Alert>, matched: set<string>)
    requires forall x | x in part :: x in graph
    ensures FromThese(GraphLeft(part, matched), graph)
  {
    if part != [] {
      assert part == part[..|part| - 1] + [part[|part| - 1]];
      LeftFromThese(graph, part[..|part| - 1], matched);
    }
  }

  lemma {:induction false} SentinelLeftOnly(sentinel: seq<Alert>, matched: set<string>)
    ensures forall r | r in SentinelLeft(sentinel, matched) :: r.SentinelOnly?
  {
    if sentinel != [] {
      SentinelLeftOnly(sentinel[..|sentinel| - 1], matched);
    }
  }

  lemma RowsFromThese(graph: seq<Alert>, sentinel: seq<Alert>)
    ensures FromThese(Rows(graph, sentinel), graph)
  {
    if graph == [] {
      SentinelLeftOnly(sentinel, {});
    } else if sentinel == [] {
      LeftFromThese(graph, graph, {});
    } else {
      var first, st := AfterFirst(graph, sentinel), AfterSecond(graph, sentinel);
      FirstPassFromThese(graph, Index(sentinel));
      SecondPassFromThese(first, sentinel, graph, first.graphIds);
      LeftFromThese(graph, graph, st.graphIds);
      SentinelLeftOnly(sentinel, st.sentinelIds);
    }
  }

  lemma {:induction false} PartsFrom(rows: seq<Row>, graph: seq<Alert>)
    requires FromThese(rows, graph)
    ensures forall x | x in GraphParts(rows) :: x in graph
  {
    if rows != [] {
      assert forall r | r in rows[..|rows| - 1] :: r in rows;
      assert rows[|rows| - 1] in rows;
      PartsFrom(rows[..|rows| - 1], graph);
    }
  }

  lemma {:induction false} CountedOnce(alerts: seq<Alert>, a: Alert)
    requires DistinctIds(alerts) && a in alerts
    ensures multiset(alerts)[a] == 1
  {
    var last, rest := alerts[|alerts| - 1], alerts[..|alerts| - 1];
    assert alerts == rest + [last];
    if a in rest {
      CountedOnce(rest, a);
    }
  }

  lemma EveryPartCounts(graph: seq<Alert>, sentinel: seq<Alert>, g: Alert)
    requires DistinctIds(graph)
    ensures multiset(GraphParts(Rows(graph, sentinel)))[g] == multiset(graph)[g]
  {
    var rows := Rows(graph, sentinel);
    PartsCount(rows, g);
    if g in graph {
      CountedOnce(graph, g);
      EveryGraphAlertOnce(graph, sentinel, g);
    } else {
      RowsFromThese(graph, sentinel);
      PartsFrom(rows, graph);
      assert g !in GraphParts(rows);
    }
  }

  /** The rows made from Graph alerts are exactly the Graph alerts, so the output's length is the number of Graph
      alerts plus the rows that are Sentinel's alone. */
  lemma GraphSideIsConserved(graph: seq<Alert>, sentinel: seq<Alert>)
    requires DistinctIds(graph)
    ensures multiset(GraphParts(Rows(graph, sentinel))) == multiset(graph)
    ensures |Rows(graph, sentinel)| == |graph| + SentinelOnlyRows(Rows(graph, sentinel))
  {
    var parts := GraphParts(Rows(graph, sentinel));
    forall g ensures multiset(parts)[g] == multiset(graph)[g] {
      EveryPartCounts(graph, sentinel, g);
    }
    SameLength(parts, graph);
    RowsSplit(Rows(graph, sentinel));
  }

  lemma SameLength(a: seq<Alert>, b: seq<Alert>)
    requires multiset(a) == multiset(b)
    ensures |a| == |b|
  {
    assert |multiset(a)| == |multiset(b)|;
  }

  // ---- what happens to a Sentinel alert ----

  predicate Shows(r: Row, s: Alert) {
    !r.GraphOnly? && r.sentinel == s
  }

  ghost predicate Emitted(rows: seq<Row>, s: Alert) {
    exists r :: r in rows && Shows(r, s)
  }

  /** An unmatched alert that would join this incident in the second pass. */
  predicate Claims(s: Alert, matched: set<string>, key: string) {
    s.id !in matched && key != "" && s.incidentId == Some(key)
  }

  /** In terms of the passes: unmatched after the first, of an incident with unmatched Graph alerts that an earlier
      unmatched alert takes. */
  predicate LeftOut(graph: seq<Alert>, sentinel: seq<Alert>, i: nat)
    requires i < |sentinel|
  {
    && graph != [] && sentinel[i].incidentId.Some?
    && var key := sentinel[i].incidentId.value;
       var first := AfterFirst(graph, sentinel);
    && Claims(sentinel[i], first.sentinelIds, key) && key in ByIncident(graph, first.graphIds)
    && exists j :: 0 <= j < i && Claims(sentinel[j], first.sentinelIds, key)
  }

  lemma {:induction false} IndexHoldsSentinel(sentinel: seq<Alert>, key: string)
    requires key in Index(sentinel)
    ensures Index(sentinel)[key] in sentinel
  {
    var s, rest := sentinel[|sentinel| - 1], sentinel[..|sentinel| - 1];
    IndexedHolds(Index(rest), CorrelationKeys(s), s, key);
    if key in Index(rest) {
      IndexHoldsSentinel(rest, key);
      assert forall x | x in rest :: x in sentinel;
    } else {
      assert Index(sentinel)[key] == s;
    }
  }

  lemma {:induction false} IndexedHolds(index: map<string, Alert>, keys: seq<string>, a: Alert, key: string)
    requires key in Indexed(index, keys, a)
    ensures Indexed(index, keys, a)[key] == if key in index then index[key] else a
  {
    if keys != [] && key in Indexed(index, keys[..|keys| - 1], a) {
      IndexedHolds(index, keys[..|keys| - 1], a, key);
    } else if keys != [] {
      IndexedKeeps(index, keys[..|keys| - 1], a, key);
    }
  }

  lemma {:induction false} IndexedKeeps(index: map<string, Alert>, keys: seq<string>, a: Alert, key: string)
    ensures key in index ==> key in Indexed(index, keys, a)
  {
    if keys != [] {
      IndexedKeeps(index, keys[..|keys| - 1], a, key);
    }
  }

  lemma {:induction false} LookupFinds(index: map<string, Alert>, keys: seq<string>)
    ensures Lookup(index, keys).Some? ==> exists key :: key in index && index[key] == Lookup(index, keys).value
  {
    if keys != [] && keys[0] !in index {
      LookupFinds(index, keys[1..]);
    }
  }

  /** After the first pass an id is marked exactly when a row shows its alert. */
  lemma {:induction false} FirstPassShows(graph: seq<Alert>, sentinel: seq<Alert>, s: Alert)
    requires DistinctIds(sentinel) && s in sentinel
    ensures s.id in FirstPass(graph, Index(sentinel)).sentinelIds
      <==> Emitted(FirstPass(graph, Index(sentinel)).rows, s)
    ensures forall r | r in FirstPass(graph, Index(sentinel)).rows :: r.Joined?
  {
    if graph != [] {
      var last, rest := graph[|graph| - 1], graph[..|graph| - 1];
      var before := FirstPass(rest, Index(sentinel));
      FirstPassShows(rest, sentinel, s);
      var found := Lookup(Index(sentinel), CorrelationKeys(last));
      if found.Some? {
        LookupFinds(Index(sentinel), CorrelationKeys(last));
        var key :| key in Index(sentinel) && Index(sentinel)[key] == found.value;
        IndexHoldsSentinel(sentinel, key);
        assert found.value.id == s.id <==> found.value == s;
        EmittedSnoc(before.rows, Joined(last, found.value), s);
      }
    }
  }

  lemma EmittedSnoc(rows: seq<Row>, row: Row, s: Alert)
    ensures Emitted(rows + [row], s) <==> Emitted(rows, s) || Shows(row, s)
  {
    assert row in rows + [row];
    forall r | r in rows ensures r in rows + [row] {}
    forall r | r in rows + [row] ensures r in rows || r == row {}
  }

  lemma EmittedConcat(a: seq<Row>, b: seq<Row>, s: Alert)
    ensures Emitted(a + b, s) <==> Emitted(a, s) || Emitted(b, s)
  {
    forall r | r in a ensures r in a + b {}
    forall r | r in b ensures r in a + b {}
    forall r | r in a + b ensures r in a || r in b {}
  }

  /** Taking shows `s` exactly when something is left to take, and shows nobody else. */
  lemma {:induction false} TakeShows(st: State, gs: seq<Alert>, s: Alert, x: Alert)
    ensures Emitted(Take(st, gs, s).rows, x) <==>
      Emitted(st.rows, x) || (x == s && exists g :: g in gs && g.id !in st.graphIds)
    ensures forall id :: id in Take(st, gs, s).graphIds <==> id in st.graphIds || exists g :: g in gs && g.id == id
  {
    if gs != [] {
      var last, rest := gs[|gs| - 1], gs[..|gs| - 1];
      assert gs == rest + [last];
      TakeShows(st, rest, s, x);
      EmittedSnoc(Take(st, rest, s).rows, Joined(last, s), x);
      forall g | g in rest ensures g in gs {}
      forall g | g in gs ensures g in rest || g == last {}
    }
  }

  predicate Joinable(s: Alert, groups: map<string, seq<Alert>>) {
    Given(s.incidentId) && s.incidentId.value in groups
  }

  /** During the second pass: which ids are marked. */
  lemma {:induction false} SecondPassMarks(st: State, sentinel: seq<Alert>, groups: map<string, seq<Alert>>, id: string)
    ensures id in SecondPass(st, sentinel, groups).sentinelIds <==>
      (id in st.sentinelIds || exists s :: s in sentinel && s.id == id && Joinable(s, groups))
  {
    if sentinel != [] {
      var s, rest := sentinel[|sentinel| - 1], sentinel[..|sentinel| - 1];
      assert sentinel == rest + [s];
      SecondPassMarks(st, rest, groups, id);
      var now := SecondPass(st, rest, groups);
      forall x | x in rest ensures x in sentinel {}
      forall x | x in sentinel ensures x in rest || x == s {}
      if Joinable(s, groups) {
        TakeKeepsSentinelIds(now, groups[s.incidentId.value], s);
      }
    }
  }

  /** A Graph alert of a group is taken by the first unmatched Sentinel alert of its incident. */
  lemma {:induction false} SecondPassTakes(graph: seq<Alert>, st: State, sentinel: seq<Alert>, key: string, g: Alert)
    requires DistinctIds(graph) && DistinctIds(sentinel)
    requires key in ByIncident(graph, st.graphIds) && g in ByIncident(graph, st.graphIds)[key]
    ensures g.id in SecondPass(st, sentinel, ByIncident(graph, st.graphIds)).graphIds <==>
      exists j :: 0 <= j < |sentinel| && Claims(sentinel[j], st.sentinelIds, key)
  {
    var groups := ByIncident(graph, st.graphIds);
    GroupHolds(graph, st.graphIds, key, g);
    if sentinel != [] {
      var s, rest := sentinel[|sentinel| - 1], sentinel[..|sentinel| - 1];
      assert sentinel == rest + [s];
      SecondPassTakes(graph, st, rest, key, g);
      var now := SecondPass(st, rest, groups);
      NotMarkedYet(st, sentinel, groups);
      if s.id !in st.sentinelIds && Joinable(s, groups) {
        TakeShows(now, groups[s.incidentId.value], s, s);
        TakenOnlyFromItsGroup(graph, st.graphIds, key, s.incidentId.value, g);
      }
    }
  }

  /** With distinct ids an alert is not marked before its turn, unless the first pass marked it. */
  lemma NotMarkedYet(st: State, sentinel: seq<Alert>, groups: map<string, seq<Alert>>)
    requires DistinctIds(sentinel) && sentinel != []
    ensures sentinel[|sentinel| - 1].id in SecondPass(st, sentinel[..|sentinel| - 1], groups).sentinelIds
      <==> sentinel[|sentinel| - 1].id in st.sentinelIds
  {
    SecondPassMarks(st, sentinel[..|sentinel| - 1], groups, sentinel[|sentinel| - 1].id);
  }

  lemma TakenOnlyFromItsGroup(graph: seq<Alert>, matched: set<string>, key: string, other: string, g: Alert)
    requires DistinctIds(graph) && key in ByIncident(graph, matched) && g in ByIncident(graph, matched)[key]
    requires other in ByIncident(graph, matched)
    ensures (exists x :: x in ByIncident(graph, matched)[other] && x.id == g.id) <==> other == key
  {
    GroupHolds(graph, matched, key, g);
    forall x | x in ByIncident(graph, matched)[other] && x.id == g.id ensures other == key {
      GroupHolds(graph, matched, other, x);
    }
  }

  /** The alert that takes the group of its incident. */
  predicate FirstClaim(sentinel: seq<Alert>, matched: set<string>, groups: map<string, seq<Alert>>, i: nat)
    requires i < |sentinel|
  {
    && Joinable(sentinel[i], groups)
    && Claims(sentinel[i], matched, sentinel[i].incidentId.value)
    && forall j | 0 <= j < i :: !Claims(sentinel[j], matched, sentinel[i].incidentId.value)
  }

  ghost predicate IsFirstClaim(sentinel: seq<Alert>, matched: set<string>, groups: map<string, seq<Alert>>, x: Alert) {
    exists i :: 0 <= i < |sentinel| && sentinel[i] == x && FirstClaim(sentinel, matched, groups, i)
  }

  lemma IsFirstClaimSnoc(rest: seq<Alert>, s: Alert, matched: set<string>, groups: map<string, seq<Alert>>, x: Alert)
    ensures IsFirstClaim(rest + [s], matched, groups, x) <==>
      (IsFirstClaim(rest, matched, groups, x) || (x == s && FirstClaim(rest + [s], matched, groups, |rest|)))
  {
    var all := rest + [s];
    forall i | 0 <= i < |rest| ensures FirstClaim(all, matched, groups, i) <==> FirstClaim(rest, matched, groups, i) {
      assert all[i] == rest[i];
      forall j | 0 <= j < i ensures all[j] == rest[j] {}
    }
    if IsFirstClaim(rest, matched, groups, x) {
      var i :| 0 <= i < |rest| && rest[i] == x && FirstClaim(rest, matched, groups, i);
      assert all[i] == x;
    }
    if x == s && FirstClaim(all, matched, groups, |rest|) {
      assert all[|rest|] == x;
    }
  }

  /** The second pass shows exactly the alerts that are the first to claim a group. */
  lemma {:induction false} SecondPassShows(graph: seq<Alert>, st: State, sentinel: seq<Alert>, x: Alert)
    requires DistinctIds(graph) && DistinctIds(sentinel)
    ensures var groups := ByIncident(graph, st.graphIds);
      Emitted(SecondPass(st, sentinel, groups).rows, x) <==>
      (Emitted(st.rows, x) || IsFirstClaim(sentinel, st.sentinelIds, groups, x))
  {
    if sentinel != [] {
      var s, rest, groups := sentinel[|sentinel| - 1], sentinel[..|sentinel| - 1], ByIncident(graph, st.graphIds);
      assert sentinel == rest + [s];
      SecondPassShows(graph, st, rest, x);
      IsFirstClaimSnoc(rest, s, st.sentinelIds, groups, x);
      NotMarkedYet(st, sentinel, groups);
      if s.id !in st.sentinelIds && Joinable(s, groups) {
        TakesIffFirst(graph, st, rest, s);
        TakeShows(SecondPass(st, rest, groups), groups[s.incidentId.value], s, x);
      }
    }
  }

  lemma TakesIffFirst(graph: seq<Alert>, st: State, rest: seq<Alert>, s: Alert)
    requires DistinctIds(graph) && DistinctIds(rest)
    requires s.id !in st.sentinelIds && Joinable(s, ByIncident(graph, st.graphIds))
    ensures var groups := ByIncident(graph, st.graphIds);
      (exists g :: g in groups[s.incidentId.value] && g.id !in SecondPass(st, rest, groups).graphIds) <==>
      FirstClaim(rest + [s], st.sentinelIds, groups, |rest|)
  {
    var groups, key := ByIncident(graph, st.graphIds), s.incidentId.value;
    var gs, now := groups[key], SecondPass(st, rest, groups);
    forall g: Alert | g in gs
      ensures g.id in now.graphIds <==> exists j :: 0 <= j < |rest| && Claims(rest[j], st.sentinelIds, key)
    {
      SecondPassTakes(graph, st, rest, key, g);
    }
    forall j | 0 <= j < |rest| ensures (rest + [s])[j] == rest[j] {}
    GroupHolds(graph, st.graphIds, key, s);
    assert gs[0] in gs;
  }

  lemma {:induction false} SentinelLeftShows(sentinel: seq<Alert>, matched: set<string>, s: Alert)
    ensures Emitted(SentinelLeft(sentinel, matched), s) <==> s in sentinel && s.id !in matched
  {
    if sentinel != [] {
      var last, rest := sentinel[|sentinel| - 1], sentinel[..|sentinel| - 1];
      assert sentinel == rest + [last];
      SentinelLeftShows(rest, matched, s);
      EmittedSnoc(SentinelLeft(rest, matched), SentinelOnly(last), s);
    }
  }

  lemma {:induction false} GraphLeftShowsNone(graph: seq<Alert>, matched: set<string>, s: Alert)
    ensures !Emitted(GraphLeft(graph, matched), s)
  {
    if graph != [] {
      GraphLeftShowsNone(graph[..|graph| - 1], matched, s);
      EmittedSnoc(GraphLeft(graph[..|graph| - 1], matched), GraphOnly(graph[|graph| - 1]), s);
    }
  }

  lemma RowsShow(graph: seq<Alert>, sentinel: seq<Alert>, s: Alert)
    requires graph != [] && s in sentinel
    ensures var st := AfterSecond(graph, sentinel);
      Emitted(Rows(graph, sentinel), s) <==> (Emitted(st.rows, s) || s.id !in st.sentinelIds)
  {
    var st := AfterSecond(graph, sentinel);
    GraphLeftShowsNone(graph, st.graphIds, s);
    SentinelLeftShows(sentinel, st.sentinelIds, s);
    EmittedConcat(st.rows + GraphLeft(graph, st.graphIds), SentinelLeft(sentinel, st.sentinelIds), s);
    EmittedConcat(st.rows, GraphLeft(graph, st.graphIds), s);
  }

  lemma MarkedInTheEnd(graph: seq<Alert>, sentinel: seq<Alert>, s: Alert)
    requires DistinctIds(sentinel) && s in sentinel
    ensures var first := AfterFirst(graph, sentinel);
      s.id in AfterSecond(graph, sentinel).sentinelIds <==>
      (s.id in first.sentinelIds || Joinable(s, ByIncident(graph, first.graphIds)))
  {
    var first := AfterFirst(graph, sentinel);
    SecondPassMarks(first, sentinel, ByIncident(graph, first.graphIds), s.id);
    DistinctIdentifies(sentinel, s);
  }

  /** A Sentinel alert is in the output, alone or merged, exactly when the passes do not leave it out. */
  lemma EmittedUnlessLeftOut(graph: seq<Alert>, sentinel: seq<Alert>, i: nat)
    requires DistinctIds(graph) && DistinctIds(sentinel) && i < |sentinel|
    ensures Emitted(Rows(graph, sentinel), sentinel[i]) <==> !LeftOut(graph, sentinel, i)
  {
    var s := sentinel[i];
    if graph == [] {
      SentinelLeftShows(sentinel, {}, s);
    } else {
      RowsShow(graph, sentinel, s);
      MarkedInTheEnd(graph, sentinel, s);
      FirstPassShows(graph, sentinel, s);
      SecondPassShows(graph, AfterFirst(graph, sentinel), sentinel, s);
      FirstClaimOrLeftOut(graph, sentinel, i);
    }
  }

  lemma FirstClaimOrLeftOut(graph: seq<Alert>, sentinel: seq<Alert>, i: nat)
    requires DistinctIds(sentinel) && i < |sentinel| && graph != []
    ensures var first := AfterFirst(graph, sentinel);
      var groups := ByIncident(graph, first.graphIds);
      (IsFirstClaim(sentinel, first.sentinelIds, groups, sentinel[i]) <==>
        (sentinel[i].id !in first.sentinelIds && Joinable(sentinel[i], groups) && !LeftOut(graph, sentinel, i)))
  {
    var first := AfterFirst(graph, sentinel);
    var groups := ByIncident(graph, first.graphIds);
    forall k | 0 <= k < |sentinel| && sentinel[k] == sentinel[i] ensures k == i {}
    assert IsFirstClaim(sentinel, first.sentinelIds, groups, sentinel[i]) <==>
      FirstClaim(sentinel, first.sentinelIds, groups, i);
  }

  // ---- rows and their Graph alerts ----

  lemma {:induction false} SomeRow(rows: seq<Row>, g: Alert) returns (r: Row)
    requires Times(rows, g) > 0
    ensures r in rows && !r.SentinelOnly? && r.graph == g
  {
    var last := rows[|rows| - 1];
    if !last.SentinelOnly? && last.graph == g {
      r := last;
    } else {
      r := SomeRow(rows[..|rows| - 1], g);
    }
  }
}
