// The order in which the merged rows come out.
module AlertOrder {
  import opened Text
  import opened AlertMerge

  predicate Rising(at: seq<nat>) {
    forall i, j | 0 <= i < j < |at| :: at[i] < at[j]
  }

  /** Some alerts of a list, at rising positions. */
  predicate Picks(at: seq<nat>, part: seq<Alert>, whole: seq<Alert>) {
    && |at| == |part| && Rising(at)
    && forall i | 0 <= i < |at| :: at[i] < |whole| && whole[at[i]] == part[i]
  }

  lemma PicksFromLonger(at: seq<nat>, part: seq<Alert>, whole: seq<Alert>, n: nat)
    requires n <= |whole| && Picks(at, part, whole[..n])
    ensures Picks(at, part, whole)
  {
  }

  lemma PicksOneMore(at: seq<nat>, part: seq<Alert>, whole: seq<Alert>)
    requires whole != [] && Picks(at, part, whole[..|whole| - 1])
    ensures Picks(at + [|whole| - 1], part + [whole[|whole| - 1]], whole)
  {
  }

  function Joins(part: seq<Alert>, s: Alert): seq<Row> {
    seq(|part|, i requires 0 <= i < |part| => Joined(part[i], s))
  }

  function GraphRows(part: seq<Alert>): seq<Row> {
    seq(|part|, i requires 0 <= i < |part| => GraphOnly(part[i]))
  }

  function SentinelRows(part: seq<Alert>): seq<Row> {
    seq(|part|, i requires 0 <= i < |part| => SentinelOnly(part[i]))
  }

  // ---- the leftovers ----

  lemma {:induction false} GraphLeftInOrder(graph: seq<Alert>, matched: set<string>)
    returns (at: seq<nat>, part: seq<Alert>)
    ensures GraphLeft(graph, matched) == GraphRows(part) && Picks(at, part, graph)
  {
    if graph == [] {
      at, part := [], [];
    } else {
      var init, g := graph[..|graph| - 1], graph[|graph| - 1];
      at, part := GraphLeftInOrder(init, matched);
      if g.id !in matched {
        PicksOneMore(at, part, graph);
        at, part := at + [|init|], part + [g];
      } else {
        PicksFromLonger(at, part, graph, |init|);
      }
    }
  }

  lemma {:induction false} SentinelLeftInOrder(sentinel: seq<Alert>, matched: set<string>)
    returns (at: seq<nat>, part: seq<Alert>)
    ensures SentinelLeft(sentinel, matched) == SentinelRows(part) && Picks(at, part, sentinel)
  {
    if sentinel == [] {
      at, part := [], [];
    } else {
      var init, s := sentinel[..|sentinel| - 1], sentinel[|sentinel| - 1];
      at, part := SentinelLeftInOrder(init, matched);
      if s.id !in matched {
        PicksOneMore(at, part, sentinel);
        at, part := at + [|init|], part + [s];
      } else {
        PicksFromLonger(at, part, sentinel, |init|);
      }
    }
  }

  // ---- the first pass ----

  /** Rows joining some Graph alerts, at rising positions, each with some Sentinel alert. */
  predicate JoinsOf(at: seq<nat>, rows: seq<Row>, graph: seq<Alert>) {
    && |at| == |rows| && Rising(at)
    && forall i | 0 <= i < |at| :: at[i] < |graph| && rows[i].Joined? && rows[i].graph == graph[at[i]]
  }

  lemma {:induction false} FirstPassInOrder(graph: seq<Alert>, index: map<string, Alert>) returns (at: seq<nat>)
    ensures JoinsOf(at, FirstPass(graph, index).rows, graph)
  {
    if graph == [] {
      at := [];
    } else {
      var init, g := graph[..|graph| - 1], graph[|graph| - 1];
      at := FirstPassInOrder(init, index);
      if Lookup(index, CorrelationKeys(g)).Some? {
        at := at + [|init|];
      }
    }
  }

  // ---- the second pass ----

  lemma {:induction false} GroupInOrder(graph: seq<Alert>, matched: set<string>, key: string) returns (at: seq<nat>)
    requires key in ByIncident(graph, matched)
    ensures Picks(at, ByIncident(graph, matched)[key], graph)
  {
    var init, g := graph[..|graph| - 1], graph[|graph| - 1];
    var before := ByIncident(init, matched);
    at := [];
    if key in before {
      at := GroupInOrder(init, matched, key);
      PicksFromLonger(at, before[key], graph, |init|);
    }
    if g.id !in matched && Given(g.incidentId) && g.incidentId.value == key {
      PicksOneMore(at, if key in before then before[key] else [], graph);
      at := at + [|init|];
    }
  }

  lemma {:induction false} TakeInOrder(st: State, gs: seq<Alert>, s: Alert) returns (at: seq<nat>, part: seq<Alert>)
    ensures Take(st, gs, s).rows == st.rows + Joins(part, s) && Picks(at, part, gs)
  {
    if gs == [] {
      at, part := [], [];
      assert st.rows + Joins([], s) == st.rows;
    } else {
      var init, g := gs[..|gs| - 1], gs[|gs| - 1];
      at, part := TakeInOrder(st, init, s);
      if g.id !in Take(st, init, s).graphIds {
        PicksOneMore(at, part, gs);
        JoinsSnoc(st.rows, part, s, g);
        at, part := at + [|init|], part + [g];
      } else {
        PicksFromLonger(at, part, gs, |init|);
      }
    }
  }

  lemma JoinsSnoc(rows: seq<Row>, part: seq<Alert>, s: Alert, g: Alert)
    ensures rows + Joins(part, s) + [Joined(g, s)] == rows + Joins(part + [g], s)
  {
  }

  predicate Earlier(a: (nat, nat), b: (nat, nat)) {
    a.0 < b.0 || (a.0 == b.0 && a.1 < b.1)
  }

  /** Rows joining a Sentinel alert and a Graph alert each, in the order of the Sentinel alerts and, for one of these,
      of the Graph alerts. */
  predicate Places(at: seq<(nat, nat)>, rows: seq<Row>, graph: seq<Alert>, sentinel: seq<Alert>) {
    && |at| == |rows|
    && (forall i | 0 <= i < |at| :: at[i].0 < |sentinel| && at[i].1 < |graph|)
    && (forall i | 0 <= i < |at| :: rows[i] == Joined(graph[at[i].1], sentinel[at[i].0]))
    && (forall i, j | 0 <= i < j < |at| :: Earlier(at[i], at[j]))
  }

  /** A part of a group is a part of the list the group is from. */
  lemma PicksOfPicks(at: seq<nat>, part: seq<Alert>, outer: seq<nat>, group: seq<Alert>, whole: seq<Alert>)
    returns (within: seq<nat>)
    requires Picks(at, part, group) && Picks(outer, group, whole)
    ensures Picks(within, part, whole)
  {
    within := seq(|at|, i requires 0 <= i < |at| => outer[at[i]]);
  }

  lemma PlacesOneMore(at: seq<(nat, nat)>, rows: seq<Row>, graph: seq<Alert>, sentinel: seq<Alert>,
                      within: seq<nat>, part: seq<Alert>) returns (more: seq<(nat, nat)>)
    requires sentinel != [] && Places(at, rows, graph, sentinel[..|sentinel| - 1]) && Picks(within, part, graph)
    ensures Places(more, rows + Joins(part, sentinel[|sentinel| - 1]), graph, sentinel)
  {
    var n := |sentinel| - 1;
    var added := seq(|within|, i requires 0 <= i < |within| => (n, within[i]));
    more := at + added;
    forall i, j | 0 <= i < j < |more| ensures Earlier(more[i], more[j]) {
      assert i < |at| ==> more[i].0 < n;
    }
  }

  lemma PlacesKept(at: seq<(nat, nat)>, rows: seq<Row>, graph: seq<Alert>, sentinel: seq<Alert>)
    requires sentinel != [] && Places(at, rows, graph, sentinel[..|sentinel| - 1])
    ensures Places(at, rows, graph, sentinel)
  {
  }

  lemma {:induction false} SecondPassInOrder(graph: seq<Alert>, matched: set<string>, st: State, sentinel: seq<Alert>)
    returns (at: seq<(nat, nat)>, rows: seq<Row>)
    ensures SecondPass(st, sentinel, ByIncident(graph, matched)).rows == st.rows + rows
    ensures Places(at, rows, graph, sentinel)
  {
    if sentinel == [] {
      at, rows := [], [];
    } else {
      var groups, init, s := ByIncident(graph, matched), sentinel[..|sentinel| - 1], sentinel[|sentinel| - 1];
      at, rows := SecondPassInOrder(graph, matched, st, init);
      var before := SecondPass(st, init, groups);
      if s.id !in before.sentinelIds && Given(s.incidentId) && s.incidentId.value in groups {
        var outer := GroupInOrder(graph, matched, s.incidentId.value);
        var inner, part := TakeInOrder(before, groups[s.incidentId.value], s);
        var within := PicksOfPicks(inner, part, outer, groups[s.incidentId.value], graph);
        at := PlacesOneMore(at, rows, graph, sentinel, within, part);
        assert st.rows + rows + Joins(part, s) == st.rows + (rows + Joins(part, s));
        rows := rows + Joins(part, s);
      } else {
        PlacesKept(at, rows, graph, sentinel);
      }
    }
  }

  // ---- all rows ----

  /** The four stretches of the output. */
  datatype Stretches = Stretches(byId: seq<Row>, byIncident: seq<Row>, graphOnly: seq<Alert>, sentinelOnly: seq<Alert>)
  {
    function All(): seq<Row> {
      byId + byIncident + GraphRows(graphOnly) + SentinelRows(sentinelOnly)
    }
  }

  /** Both lists keep their order: first the alerts joined by an id, in the order of the Graph list; then those joined
      by an incident, in the order of the Sentinel list; then what is left of the one and of the other. */
  ghost predicate InOrder(p: Stretches, graph: seq<Alert>, sentinel: seq<Alert>) {
    && (exists at :: JoinsOf(at, p.byId, graph))
    && (exists at :: Places(at, p.byIncident, graph, sentinel))
    && (exists at :: Picks(at, p.graphOnly, graph))
    && (exists at :: Picks(at, p.sentinelOnly, sentinel))
  }

  lemma NothingJoined(graph: seq<Alert>, sentinel: seq<Alert>)
    ensures JoinsOf([], [], graph) && Places([], [], graph, sentinel)
    ensures Picks([], [], graph) && Picks([], [], sentinel)
  {
  }

  lemma RowsInOrder(graph: seq<Alert>, sentinel: seq<Alert>) returns (p: Stretches)
    ensures Rows(graph, sentinel) == p.All() && InOrder(p, graph, sentinel)
  {
    NothingJoined(graph, sentinel);
    if graph == [] {
      var at, part := SentinelLeftInOrder(sentinel, {});
      p := Stretches([], [], [], part);
      assert p.All() == SentinelRows(part);
    } else if sentinel == [] {
      var at, part := GraphLeftInOrder(graph, {});
      p := Stretches([], [], part, []);
      assert p.All() == GraphRows(part);
    } else {
      var st := AfterSecond(graph, sentinel);
      var at := FirstPassInOrder(graph, Index(sentinel));
      var first := AfterFirst(graph, sentinel);
      var places, rows := SecondPassInOrder(graph, first.graphIds, first, sentinel);
      var left, graphOnly := GraphLeftInOrder(graph, st.graphIds);
      var rest, sentinelOnly := SentinelLeftInOrder(sentinel, st.sentinelIds);
      p := Stretches(first.rows, rows, graphOnly, sentinelOnly);
    }
  }
}
