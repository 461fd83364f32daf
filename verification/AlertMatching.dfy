// Which alerts are matched, and which Sentinel alerts are dropped, in terms of the two inputs alone.
module AlertMatching {
  import opened Text
  import opened AlertMerge
  import opened AlertConservation

  // ---- who is matched ----

  ghost predicate Offered(sentinel: seq<Alert>, key: string) {
    exists s :: s in sentinel && key in CorrelationKeys(s)
  }

  /** The first alert that offers the key. */
  ghost predicate FirstOffer(sentinel: seq<Alert>, key: string, i: nat) {
    i < |sentinel| && key in CorrelationKeys(sentinel[i]) && !Offered(sentinel[..i], key)
  }

  /** Alert `i` is the first to offer the first of the keys that any alert offers. */
  ghost predicate Finds(sentinel: seq<Alert>, keys: seq<string>, i: nat) {
    keys != [] &&
    if Offered(sentinel, keys[0]) then FirstOffer(sentinel, keys[0], i) else Finds(sentinel, keys[1..], i)
  }

  /** A Graph alert is matched when some Sentinel alert offers one of its keys. */
  ghost predicate GraphMatched(sentinel: seq<Alert>, g: Alert) {
    exists key :: key in CorrelationKeys(g) && Offered(sentinel, key)
  }

  /** A Sentinel alert is matched when some Graph alert finds it. */
  ghost predicate SentinelMatched(graph: seq<Alert>, sentinel: seq<Alert>, i: nat) {
    exists g :: g in graph && Finds(sentinel, CorrelationKeys(g), i)
  }

  ghost predicate Waiting(graph: seq<Alert>, sentinel: seq<Alert>, incident: Option<string>) {
    exists g :: g in graph && g.incidentId == incident && !GraphMatched(sentinel, g)
  }

  /** The alert is unmatched, its incident has an unmatched Graph alert, and an earlier alert of the incident is
      unmatched too. */
  ghost predicate Dropped(graph: seq<Alert>, sentinel: seq<Alert>, i: nat)
    requires i < |sentinel|
  {
    && Given(sentinel[i].incidentId) && !SentinelMatched(graph, sentinel, i)
    && Waiting(graph, sentinel, sentinel[i].incidentId)
    && exists j :: 0 <= j < i && EarlierClaim(graph, sentinel, i, j)
  }

  ghost predicate EarlierClaim(graph: seq<Alert>, sentinel: seq<Alert>, i: nat, j: nat)
    requires j < i < |sentinel|
  {
    sentinel[j].incidentId == sentinel[i].incidentId && !SentinelMatched(graph, sentinel, j)
  }

  // ---- the index and the first pass say the same ----

  lemma {:induction false} IndexedHas(index: map<string, Alert>, keys: seq<string>, a: Alert, key: string)
    ensures key in Indexed(index, keys, a) <==> key in index || key in keys
  {
    if keys != [] {
      assert keys == keys[..|keys| - 1] + [keys[|keys| - 1]];
      IndexedHas(index, keys[..|keys| - 1], a, key);
    }
  }

  lemma OfferedSnoc(rest: seq<Alert>, s: Alert, key: string)
    ensures Offered(rest + [s], key) <==> Offered(rest, key) || key in CorrelationKeys(s)
  {
    assert s in rest + [s];
    forall x | x in rest ensures x in rest + [s] {}
    forall x | x in rest + [s] ensures x in rest || x == s {}
  }

  lemma {:induction false} IndexHasOffered(sentinel: seq<Alert>, key: string)
    ensures key in Index(sentinel) <==> Offered(sentinel, key)
  {
    if sentinel != [] {
      var rest, s := sentinel[..|sentinel| - 1], sentinel[|sentinel| - 1];
      assert sentinel == rest + [s];
      IndexHasOffered(rest, key);
      OfferedSnoc(rest, s, key);
      IndexedHas(Index(rest), CorrelationKeys(s), s, key);
    }
  }

  lemma {:induction false} FirstOfferExists(sentinel: seq<Alert>, key: string) returns (i: nat)
    requires Offered(sentinel, key)
    ensures FirstOffer(sentinel, key, i)
  {
    var rest, s := sentinel[..|sentinel| - 1], sentinel[|sentinel| - 1];
    assert sentinel == rest + [s];
    OfferedSnoc(rest, s, key);
    i := |rest|;
    if Offered(rest, key) {
      i := FirstOfferExists(rest, key);
      assert rest[..i] == sentinel[..i];
    }
  }

  /** One more alert: it keeps its keys only where no earlier alert has them. */
  lemma IndexedOneMore(index: map<string, Alert>, s: Alert, key: string)
    ensures var more := Indexed(index, CorrelationKeys(s), s);
      && (key in index ==> key in more && more[key] == index[key])
      && (key !in index && key in CorrelationKeys(s) ==> key in more && more[key] == s)
  {
    IndexedHas(index, CorrelationKeys(s), s, key);
    if key in Indexed(index, CorrelationKeys(s), s) {
      IndexedHolds(index, CorrelationKeys(s), s, key);
    }
  }

  lemma {:induction false} IndexHoldsFirst(sentinel: seq<Alert>, key: string, i: nat)
    requires FirstOffer(sentinel, key, i)
    ensures key in Index(sentinel) && Index(sentinel)[key] == sentinel[i]
  {
    var rest, s := sentinel[..|sentinel| - 1], sentinel[|sentinel| - 1];
    IndexedOneMore(Index(rest), s, key);
    if i < |rest| {
      assert rest[..i] == sentinel[..i];
      IndexHoldsFirst(rest, key, i);
    } else {
      IndexHasOffered(rest, key);
    }
  }

  lemma OfferedBefore(sentinel: seq<Alert>, key: string, i: nat, j: nat)
    ensures i < j <= |sentinel| && key in CorrelationKeys(sentinel[i]) ==> Offered(sentinel[..j], key)
  {
    if i < j <= |sentinel| {
      assert sentinel[..j][i] in sentinel[..j];
    }
  }

  lemma OneFirstOffer(sentinel: seq<Alert>, key: string, i: nat, j: nat)
    requires FirstOffer(sentinel, key, j)
    ensures FirstOffer(sentinel, key, i) ==> i == j
  {
    OfferedBefore(sentinel, key, i, j);
    OfferedBefore(sentinel, key, j, i);
  }

  lemma {:induction false} LookupFindsFirst(sentinel: seq<Alert>, keys: seq<string>, i: nat)
    requires DistinctIds(sentinel) && i < |sentinel|
    ensures Lookup(Index(sentinel), keys) == Some(sentinel[i]) <==> Finds(sentinel, keys, i)
  {
    if keys != [] {
      IndexHasOffered(sentinel, keys[0]);
      if Offered(sentinel, keys[0]) {
        var j := FirstOfferExists(sentinel, keys[0]);
        IndexHoldsFirst(sentinel, keys[0], j);
        OneFirstOffer(sentinel, keys[0], i, j);
        assert i != j ==> sentinel[i].id != sentinel[j].id;
      } else {
        LookupFindsFirst(sentinel, keys[1..], i);
      }
    }
  }

  lemma {:induction false} LookupIffOffered(sentinel: seq<Alert>, keys: seq<string>)
    ensures Lookup(Index(sentinel), keys).Some? <==> exists key :: key in keys && Offered(sentinel, key)
  {
    if keys != [] {
      IndexHasOffered(sentinel, keys[0]);
      LookupIffOffered(sentinel, keys[1..]);
      assert keys[0] in keys && forall k :: k in keys <==> k == keys[0] || k in keys[1..];
    }
  }

  ghost predicate Hits(graph: seq<Alert>, index: map<string, Alert>, graphId: string) {
    exists g :: g in graph && g.id == graphId && Lookup(index, CorrelationKeys(g)).Some?
  }

  ghost predicate IsHit(graph: seq<Alert>, index: map<string, Alert>, sentinelId: string) {
    exists g :: g in graph && Lookup(index, CorrelationKeys(g)).Some?
      && Lookup(index, CorrelationKeys(g)).value.id == sentinelId
  }

  lemma {:induction false} FirstPassIds(graph: seq<Alert>, index: map<string, Alert>, id: string)
    ensures id in FirstPass(graph, index).graphIds <==> Hits(graph, index, id)
    ensures id in FirstPass(graph, index).sentinelIds <==> IsHit(graph, index, id)
  {
    if graph != [] {
      var rest, g := graph[..|graph| - 1], graph[|graph| - 1];
      assert graph == rest + [g] && g in graph;
      FirstPassIds(rest, index, id);
      forall x | x in rest ensures x in graph {}
      forall x | x in graph ensures x in rest || x == g {}
    }
  }

  lemma GraphMatchedIff(graph: seq<Alert>, sentinel: seq<Alert>, g: Alert)
    requires DistinctIds(graph) && g in graph
    ensures g.id in AfterFirst(graph, sentinel).graphIds <==> GraphMatched(sentinel, g)
  {
    FirstPassIds(graph, Index(sentinel), g.id);
    DistinctIdentifies(graph, g);
    LookupIffOffered(sentinel, CorrelationKeys(g));
  }

  lemma FoundIsSentinel(sentinel: seq<Alert>, keys: seq<string>)
    ensures Lookup(Index(sentinel), keys).Some? ==> Lookup(Index(sentinel), keys).value in sentinel
  {
    LookupFinds(Index(sentinel), keys);
    if Lookup(Index(sentinel), keys).Some? {
      var key :| key in Index(sentinel) && Index(sentinel)[key] == Lookup(Index(sentinel), keys).value;
      IndexHoldsSentinel(sentinel, key);
    }
  }

  lemma SentinelMatchedIff(graph: seq<Alert>, sentinel: seq<Alert>, i: nat)
    requires DistinctIds(sentinel) && i < |sentinel|
    ensures sentinel[i].id in AfterFirst(graph, sentinel).sentinelIds <==> SentinelMatched(graph, sentinel, i)
  {
    FirstPassIds(graph, Index(sentinel), sentinel[i].id);
    DistinctIdentifies(sentinel, sentinel[i]);
    forall g | g in graph
      ensures Finds(sentinel, CorrelationKeys(g), i) <==>
        (Lookup(Index(sentinel), CorrelationKeys(g)).Some?
         && Lookup(Index(sentinel), CorrelationKeys(g)).value.id == sentinel[i].id)
    {
      LookupFindsFirst(sentinel, CorrelationKeys(g), i);
      FoundIsSentinel(sentinel, CorrelationKeys(g));
    }
  }

  lemma {:induction false} GroupExists(graph: seq<Alert>, matched: set<string>, key: string)
    requires key != ""
    ensures key in ByIncident(graph, matched) <==>
      exists g :: g in graph && g.id !in matched && g.incidentId == Some(key)
  {
    if graph != [] {
      var rest, g := graph[..|graph| - 1], graph[|graph| - 1];
      assert graph == rest + [g] && g in graph;
      GroupExists(rest, matched, key);
      forall x | x in rest ensures x in graph {}
      forall x | x in graph ensures x in rest || x == g {}
    }
  }

  lemma WaitingIff(graph: seq<Alert>, sentinel: seq<Alert>, key: string)
    requires DistinctIds(graph) && key != ""
    ensures key in ByIncident(graph, AfterFirst(graph, sentinel).graphIds) <==> Waiting(graph, sentinel, Some(key))
  {
    GroupExists(graph, AfterFirst(graph, sentinel).graphIds, key);
    forall g | g in graph ensures g.id in AfterFirst(graph, sentinel).graphIds <==> GraphMatched(sentinel, g) {
      GraphMatchedIff(graph, sentinel, g);
    }
  }

  /** What the passes leave out is what the inputs say is dropped. */
  lemma DroppedIffLeftOut(graph: seq<Alert>, sentinel: seq<Alert>, i: nat)
    requires DistinctIds(graph) && DistinctIds(sentinel) && i < |sentinel|
    ensures Dropped(graph, sentinel, i) <==> LeftOut(graph, sentinel, i)
  {
    if Given(sentinel[i].incidentId) {
      WaitingIff(graph, sentinel, sentinel[i].incidentId.value);
      forall j | 0 <= j < |sentinel|
        ensures sentinel[j].id in AfterFirst(graph, sentinel).sentinelIds <==> SentinelMatched(graph, sentinel, j)
      {
        SentinelMatchedIff(graph, sentinel, j);
      }
      forall j | 0 <= j < i
        ensures EarlierClaim(graph, sentinel, i, j) <==>
          Claims(sentinel[j], AfterFirst(graph, sentinel).sentinelIds, sentinel[i].incidentId.value)
      {
      }
    }
  }

  /** A Sentinel alert is in the output, alone or merged, exactly when it is not dropped. */
  lemma EmittedUnlessDropped(graph: seq<Alert>, sentinel: seq<Alert>, i: nat)
    requires DistinctIds(graph) && DistinctIds(sentinel) && i < |sentinel|
    ensures Emitted(Rows(graph, sentinel), sentinel[i]) <==> !Dropped(graph, sentinel, i)
  {
    EmittedUnlessLeftOut(graph, sentinel, i);
    DroppedIffLeftOut(graph, sentinel, i);
  }

  // ---- what a dropped alert leaves behind ----

  /** The incident of a dropped alert is carried by a row. */
  lemma DroppedIncidentIsCarried(graph: seq<Alert>, sentinel: seq<Alert>, i: nat)
    requires DistinctIds(graph) && DistinctIds(sentinel) && i < |sentinel| && Dropped(graph, sentinel, i)
    ensures exists r :: r in Rows(graph, sentinel) && Output(r).incidentId == sentinel[i].incidentId
  {
    var key, matched := sentinel[i].incidentId.value, AfterFirst(graph, sentinel).graphIds;
    DroppedIffLeftOut(graph, sentinel, i);
    GroupHolds(graph, matched, key, graph[0]);
    var g := ByIncident(graph, matched)[key][0];
    assert g in ByIncident(graph, matched)[key];
    GroupHolds(graph, matched, key, g);
    EveryGraphAlertOnce(graph, sentinel, g);
    var r := SomeRow(Rows(graph, sentinel), g);
    assert Output(r).incidentId == sentinel[i].incidentId;
  }

  function Plain(id: string, source: Source, incident: string): Alert {
    Alert(id, "", UNKNOWN, UNKNOWN, Undetermined, UNKNOWN, source, "", None, None, None, None, Some(incident), [], None,
          "", None, None, "", None)
  }

  lemma IndexedOne(index: map<string, Alert>, key: string, a: Alert)
    ensures Indexed(index, [key], a) == if key in index then index else index[key := a]
  {
    assert [key][..0] == [];
  }

  /** The promise that no data is ever dropped fails: of two Sentinel alerts in the incident of one Graph alert, the
      second is gone. */
  lemma SecondAlertOfAnIncidentIsDropped()
    ensures var graph, sentinel := [Plain("g", FromGraph, "7")],
                                   [Plain("a", FromSentinel, "7"), Plain("b", FromSentinel, "7")];
      Dropped(graph, sentinel, 1) && !Emitted(Rows(graph, sentinel), sentinel[1])
  {
    var g, a, b := Plain("g", FromGraph, "7"), Plain("a", FromSentinel, "7"), Plain("b", FromSentinel, "7");
    assert [a, b][..1] == [a] && [a][..0] == [] && [g][..0] == [];
    IndexedOne(map[], "a", a);
    IndexedOne(map["a" := a], "b", b);
    assert CorrelationKeys(a) == ["a"] && CorrelationKeys(b) == ["b"] && CorrelationKeys(g) == ["g"];
    assert Index([a]) == map["a" := a];
    assert Index([a, b]) == map["a" := a, "b" := b];
    assert Lookup(Index([a, b]), CorrelationKeys(g)) == None;
    assert FirstPass([g], Index([a, b])) == Correlate(State([], {}, {}), g, Index([a, b]));
    assert "7" in ByIncident([g], {});
    assert Claims(a, {}, "7") && [a, b][0] == a;
    assert LeftOut([g], [a, b], 1);
    DroppedIffLeftOut([g], [a, b], 1);
    EmittedUnlessDropped([g], [a, b], 1);
  }
}
