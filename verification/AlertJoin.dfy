// Which alerts are joined with which, in terms of the alerts' own fields.
module AlertJoin {
  import opened Text
  import opened AlertMerge
  import opened AlertConservation
  import opened AlertMatching

  // ---- the first pass: by the vendor's id, then by the alert's own ----

  /** The alert has the key as its vendor id or as its own id. */
  predicate Carries(s: Alert, key: string) {
    key != "" && (s.providerId == Some(key) || s.id == key)
  }

  ghost predicate SomeCarries(sentinel: seq<Alert>, key: string) {
    exists s :: s in sentinel && Carries(s, key)
  }

  predicate FirstCarrier(sentinel: seq<Alert>, key: string, i: nat) {
    && i < |sentinel| && Carries(sentinel[i], key)
    && forall j | 0 <= j < i :: !Carries(sentinel[j], key)
  }

  /** The first Sentinel alert that shares the Graph alert's vendor id; only when there is none, the first that shares
      its id. */
  ghost predicate Partner(sentinel: seq<Alert>, g: Alert, i: nat) {
    if g.providerId.Some? && SomeCarries(sentinel, g.providerId.value) then
      FirstCarrier(sentinel, g.providerId.value, i)
    else FirstCarrier(sentinel, g.id, i)
  }

  lemma KeysAreCarried(a: Alert, key: string)
    ensures key in CorrelationKeys(a) <==> Carries(a, key)
  {
  }

  lemma OfferedIffCarried(sentinel: seq<Alert>, key: string)
    ensures Offered(sentinel, key) <==> SomeCarries(sentinel, key)
  {
    forall s | s in sentinel ensures key in CorrelationKeys(s) <==> Carries(s, key) {
      KeysAreCarried(s, key);
    }
  }

  lemma FirstOfferIff(sentinel: seq<Alert>, key: string, i: nat)
    ensures FirstOffer(sentinel, key, i) <==> FirstCarrier(sentinel, key, i)
  {
    if i < |sentinel| {
      KeysAreCarried(sentinel[i], key);
      OfferedIffCarried(sentinel[..i], key);
      NoneBefore(sentinel, key, i);
    }
  }

  lemma NoneBefore(sentinel: seq<Alert>, key: string, i: nat)
    requires i < |sentinel|
    ensures SomeCarries(sentinel[..i], key) <==> exists j :: 0 <= j < i && Carries(sentinel[j], key)
  {
    if SomeCarries(sentinel[..i], key) {
      var s :| s in sentinel[..i] && Carries(s, key);
      var j :| 0 <= j < i && sentinel[..i][j] == s;
      assert Carries(sentinel[j], key);
    }
    if j :| 0 <= j < i && Carries(sentinel[j], key) {
      assert sentinel[..i][j] in sentinel[..i];
    }
  }

  lemma FindsPartner(sentinel: seq<Alert>, g: Alert, i: nat)
    ensures Finds(sentinel, CorrelationKeys(g), i) <==> Partner(sentinel, g, i)
  {
    var keys := CorrelationKeys(g);
    FirstOfferIff(sentinel, g.id, i);
    OfferedIffCarried(sentinel, g.id);
    if Given(g.providerId) {
      FirstOfferIff(sentinel, g.providerId.value, i);
      OfferedIffCarried(sentinel, g.providerId.value);
      assert keys[0] == g.providerId.value && keys[1..] == if g.id != "" then [g.id] else [];
    }
    OneKey(sentinel, g.id, i);
  }

  lemma OneKey(sentinel: seq<Alert>, key: string, i: nat)
    ensures Finds(sentinel, [key], i) <==> FirstOffer(sentinel, key, i)
  {
    assert [key][1..] == [];
    if FirstOffer(sentinel, key, i) {
      assert sentinel[i] in sentinel;
    }
  }

  lemma {:induction false} FirstPassRows(graph: seq<Alert>, index: map<string, Alert>, row: Row)
    ensures row in FirstPass(graph, index).rows <==>
      row.Joined? && row.graph in graph && Lookup(index, CorrelationKeys(row.graph)) == Some(row.sentinel)
  {
    if graph != [] {
      var rest, g := graph[..|graph| - 1], graph[|graph| - 1];
      assert graph == rest + [g];
      FirstPassRows(rest, index, row);
    }
  }

  /** The first pass joins a Graph alert with exactly its partner. */
  lemma FirstPassJoins(graph: seq<Alert>, sentinel: seq<Alert>, g: Alert, i: nat)
    requires DistinctIds(sentinel) && g in graph && i < |sentinel|
    ensures Joined(g, sentinel[i]) in AfterFirst(graph, sentinel).rows <==> Partner(sentinel, g, i)
  {
    FirstPassRows(graph, Index(sentinel), Joined(g, sentinel[i]));
    LookupFindsFirst(sentinel, CorrelationKeys(g), i);
    FindsPartner(sentinel, g, i);
  }

  /** It joins a Graph alert at all exactly when some Sentinel alert has its vendor id or its id, as either. */
  lemma MatchedIffShared(sentinel: seq<Alert>, g: Alert)
    ensures GraphMatched(sentinel, g) <==>
      (exists s :: s in sentinel && ((g.providerId.Some? && Carries(s, g.providerId.value)) || Carries(s, g.id)))
  {
    if GraphMatched(sentinel, g) {
      var key :| key in CorrelationKeys(g) && Offered(sentinel, key);
      KeysAreCarried(g, key);
      OfferedIffCarried(sentinel, key);
    }
    if s :| s in sentinel && ((g.providerId.Some? && Carries(s, g.providerId.value)) || Carries(s, g.id)) {
      var key := if g.providerId.Some? && Carries(s, g.providerId.value) then g.providerId.value else g.id;
      KeysAreCarried(g, key);
      assert SomeCarries(sentinel, key);
      OfferedIffCarried(sentinel, key);
      assert key in CorrelationKeys(g) && Offered(sentinel, key);
    }
  }

  lemma FoundIsPartner(sentinel: seq<Alert>, g: Alert) returns (i: nat)
    requires DistinctIds(sentinel) && GraphMatched(sentinel, g)
    ensures i < |sentinel| && Partner(sentinel, g, i)
  {
    LookupIffOffered(sentinel, CorrelationKeys(g));
    FoundIsSentinel(sentinel, CorrelationKeys(g));
    var s := Lookup(Index(sentinel), CorrelationKeys(g)).value;
    i :| 0 <= i < |sentinel| && sentinel[i] == s;
    LookupFindsFirst(sentinel, CorrelationKeys(g), i);
    FindsPartner(sentinel, g, i);
  }

  // ---- the second pass: by the incident ----

  lemma {:induction false} TakeAdds(st: State, gs: seq<Alert>, s: Alert, g: Alert)
    requires g in gs && g.id !in st.graphIds && (forall x | x in gs && x.id == g.id :: x == g)
    ensures Joined(g, s) in Take(st, gs, s).rows
  {
    var rest, last := gs[..|gs| - 1], gs[|gs| - 1];
    assert gs == rest + [last];
    if g in rest {
      TakeAdds(st, rest, s, g);
    } else {
      TakeShows(st, rest, s, s);
      assert forall x | x in rest :: x in gs;
    }
  }

  lemma {:induction false} TakeKeepsRows(st: State, gs: seq<Alert>, s: Alert, row: Row)
    ensures row in st.rows ==> row in Take(st, gs, s).rows
  {
    if gs != [] {
      TakeKeepsRows(st, gs[..|gs| - 1], s, row);
    }
  }

  lemma {:induction false} SecondPassKeepsRows(st: State, sentinel: seq<Alert>, groups: map<string, seq<Alert>>,
                                                 row: Row)
    ensures row in st.rows ==> row in SecondPass(st, sentinel, groups).rows
  {
    if sentinel != [] {
      var rest, s := sentinel[..|sentinel| - 1], sentinel[|sentinel| - 1];
      SecondPassKeepsRows(st, rest, groups, row);
      if Joinable(s, groups) {
        TakeKeepsRows(SecondPass(st, rest, groups), groups[s.incidentId.value], s, row);
      }
    }
  }

  /** The first of the alerts that claims the incident. */
  predicate FirstToClaim(sentinel: seq<Alert>, matched: set<string>, key: string, i: nat) {
    && i < |sentinel| && Claims(sentinel[i], matched, key)
    && forall j | 0 <= j < i :: !Claims(sentinel[j], matched, key)
  }

  lemma {:induction false} SecondPassJoinsFirst(graph: seq<Alert>, st: State, sentinel: seq<Alert>, key: string,
                                                g: Alert, i: nat)
    requires DistinctIds(graph) && DistinctIds(sentinel) && FirstToClaim(sentinel, st.sentinelIds, key, i)
    requires key in ByIncident(graph, st.graphIds) && g in ByIncident(graph, st.graphIds)[key]
    ensures Joined(g, sentinel[i]) in SecondPass(st, sentinel, ByIncident(graph, st.graphIds)).rows
  {
    var groups := ByIncident(graph, st.graphIds);
    var rest, s := sentinel[..|sentinel| - 1], sentinel[|sentinel| - 1];
    assert sentinel == rest + [s];
    var now := SecondPass(st, rest, groups);
    if i < |rest| {
      assert FirstToClaim(rest, st.sentinelIds, key, i);
      SecondPassJoinsFirst(graph, st, rest, key, g, i);
      if Joinable(s, groups) {
        TakeKeepsRows(now, groups[s.incidentId.value], s, Joined(g, sentinel[i]));
      }
    } else {
      NotMarkedYet(st, sentinel, groups);
      SecondPassTakes(graph, st, rest, key, g);
      GroupIdentifies(graph, st.graphIds, key, g);
      TakeAdds(now, groups[key], s, g);
    }
  }

  lemma GroupIdentifies(graph: seq<Alert>, matched: set<string>, key: string, g: Alert)
    requires DistinctIds(graph) && key in ByIncident(graph, matched) && g in ByIncident(graph, matched)[key]
    ensures forall x | x in ByIncident(graph, matched)[key] && x.id == g.id :: x == g
  {
    GroupHolds(graph, matched, key, g);
    forall x | x in ByIncident(graph, matched)[key] && x.id == g.id ensures x == g {
      GroupHolds(graph, matched, key, x);
      DistinctIdentifies(graph, g);
    }
  }

  lemma {:induction false} GraphLeftRows(graph: seq<Alert>, matched: set<string>, g: Alert)
    ensures GraphOnly(g) in GraphLeft(graph, matched) <==> g in graph && g.id !in matched
  {
    if graph != [] {
      assert graph == graph[..|graph| - 1] + [graph[|graph| - 1]];
      GraphLeftRows(graph[..|graph| - 1], matched, g);
    }
  }

  // ---- the row of every Graph alert ----

  /** An unmatched Sentinel alert of the incident, before which none is. */
  ghost predicate Claimant(graph: seq<Alert>, sentinel: seq<Alert>, incident: Option<string>, i: nat) {
    && i < |sentinel| && sentinel[i].incidentId == incident && !SentinelMatched(graph, sentinel, i)
    && forall j | 0 <= j < i :: sentinel[j].incidentId == incident ==> SentinelMatched(graph, sentinel, j)
  }

  ghost predicate NoClaimant(graph: seq<Alert>, sentinel: seq<Alert>, incident: Option<string>) {
    forall i: nat :: !Claimant(graph, sentinel, incident, i)
  }

  /** The one row of a matched Graph alert: joined with its partner. */
  lemma MatchedJoinsPartner(graph: seq<Alert>, sentinel: seq<Alert>, g: Alert) returns (i: nat)
    requires DistinctIds(graph) && DistinctIds(sentinel) && g in graph && GraphMatched(sentinel, g)
    ensures i < |sentinel| && Partner(sentinel, g, i)
    ensures Joined(g, sentinel[i]) in Rows(graph, sentinel) && Times(Rows(graph, sentinel), g) == 1
  {
    EveryGraphAlertOnce(graph, sentinel, g);
    i := FoundIsPartner(sentinel, g);
    FirstPassJoins(graph, sentinel, g, i);
    InRows(graph, sentinel, Joined(g, sentinel[i]));
  }

  lemma InRows(graph: seq<Alert>, sentinel: seq<Alert>, row: Row)
    requires graph != [] && sentinel != []
    ensures row in AfterFirst(graph, sentinel).rows ==> row in Rows(graph, sentinel)
    ensures row in AfterSecond(graph, sentinel).rows ==> row in Rows(graph, sentinel)
    ensures row in GraphLeft(graph, AfterSecond(graph, sentinel).graphIds) ==> row in Rows(graph, sentinel)
  {
    var first := AfterFirst(graph, sentinel);
    SecondPassKeepsRows(first, sentinel, ByIncident(graph, first.graphIds), row);
  }

  lemma ClaimsIffUnmatched(graph: seq<Alert>, sentinel: seq<Alert>, key: string, i: nat)
    requires DistinctIds(sentinel) && key != "" && i < |sentinel|
    ensures Claims(sentinel[i], AfterFirst(graph, sentinel).sentinelIds, key) <==>
      sentinel[i].incidentId == Some(key) && !SentinelMatched(graph, sentinel, i)
  {
    SentinelMatchedIff(graph, sentinel, i);
  }

  lemma ClaimantIff(graph: seq<Alert>, sentinel: seq<Alert>, key: string, i: nat)
    requires DistinctIds(sentinel) && key != ""
    ensures Claimant(graph, sentinel, Some(key), i) <==>
      FirstToClaim(sentinel, AfterFirst(graph, sentinel).sentinelIds, key, i)
  {
    forall j | 0 <= j < |sentinel|
      ensures Claims(sentinel[j], AfterFirst(graph, sentinel).sentinelIds, key) <==>
        (sentinel[j].incidentId == Some(key) && !SentinelMatched(graph, sentinel, j))
    {
      ClaimsIffUnmatched(graph, sentinel, key, j);
    }
  }

  /** The one row of an unmatched Graph alert whose incident has an unmatched Sentinel alert: joined with the first. */
  lemma ClaimantJoins(graph: seq<Alert>, sentinel: seq<Alert>, g: Alert, i: nat)
    requires DistinctIds(graph) && DistinctIds(sentinel) && g in graph && Given(g.incidentId)
    requires !GraphMatched(sentinel, g) && Claimant(graph, sentinel, g.incidentId, i)
    ensures Joined(g, sentinel[i]) in Rows(graph, sentinel) && Times(Rows(graph, sentinel), g) == 1
  {
    EveryGraphAlertOnce(graph, sentinel, g);
    var first, key := AfterFirst(graph, sentinel), g.incidentId.value;
    GraphMatchedIff(graph, sentinel, g);
    GroupHolds(graph, first.graphIds, key, g);
    ClaimantIff(graph, sentinel, key, i);
    SecondPassJoinsFirst(graph, first, sentinel, key, g, i);
    InRows(graph, sentinel, Joined(g, sentinel[i]));
  }

  lemma {:induction false} FirstClaimExists(sentinel: seq<Alert>, matched: set<string>, key: string, j: nat)
    returns (i: nat)
    requires j < |sentinel| && Claims(sentinel[j], matched, key)
    ensures FirstToClaim(sentinel, matched, key, i)
  {
    if k :| 0 <= k < j && Claims(sentinel[k], matched, key) {
      i := FirstClaimExists(sentinel, matched, key, k);
    } else {
      i := j;
    }
  }

  /** The one row of any other Graph alert: alone. */
  lemma LeftAlone(graph: seq<Alert>, sentinel: seq<Alert>, g: Alert)
    requires DistinctIds(graph) && DistinctIds(sentinel) && g in graph && sentinel != []
    requires !GraphMatched(sentinel, g)
    requires !Given(g.incidentId) || NoClaimant(graph, sentinel, g.incidentId)
    ensures GraphOnly(g) in Rows(graph, sentinel) && Times(Rows(graph, sentinel), g) == 1
  {
    EveryGraphAlertOnce(graph, sentinel, g);
    var st := AfterSecond(graph, sentinel);
    NotTaken(graph, sentinel, g);
    GraphLeftRows(graph, st.graphIds, g);
    InRows(graph, sentinel, GraphOnly(g));
  }

  lemma NotTaken(graph: seq<Alert>, sentinel: seq<Alert>, g: Alert)
    requires DistinctIds(graph) && DistinctIds(sentinel) && g in graph && !GraphMatched(sentinel, g)
    requires !Given(g.incidentId) || NoClaimant(graph, sentinel, g.incidentId)
    ensures g.id !in AfterSecond(graph, sentinel).graphIds
  {
    var first := AfterFirst(graph, sentinel);
    GraphMatchedIff(graph, sentinel, g);
    if Given(g.incidentId) {
      var key := g.incidentId.value;
      GroupHolds(graph, first.graphIds, key, g);
      SecondPassTakes(graph, first, sentinel, key, g);
      if j :| 0 <= j < |sentinel| && Claims(sentinel[j], first.sentinelIds, key) {
        var i := FirstClaimExists(sentinel, first.sentinelIds, key, j);
        ClaimantIff(graph, sentinel, key, i);
      }
    } else {
      NeverGrouped(graph, first, sentinel, g);
    }
  }

  /** A Graph alert without an incident is in no group. */
  lemma {:induction false} NeverGrouped(graph: seq<Alert>, st: State, sentinel: seq<Alert>, g: Alert)
    requires DistinctIds(graph) && g in graph && !Given(g.incidentId) && g.id !in st.graphIds
    ensures g.id !in SecondPass(st, sentinel, ByIncident(graph, st.graphIds)).graphIds
  {
    if sentinel != [] {
      var rest, s := sentinel[..|sentinel| - 1], sentinel[|sentinel| - 1];
      var groups := ByIncident(graph, st.graphIds);
      NeverGrouped(graph, st, rest, g);
      if Joinable(s, groups) {
        var now, gs := SecondPass(st, rest, groups), groups[s.incidentId.value];
        TakeShows(now, gs, s, s);
        forall x | x in gs ensures x.id != g.id {
          GroupHolds(graph, st.graphIds, s.incidentId.value, x);
          DistinctIdentifies(graph, g);
        }
      }
    }
  }

  /** A Sentinel alert stands alone exactly when it is unmatched and its incident has no unmatched Graph alert. */
  lemma StandsAlone(graph: seq<Alert>, sentinel: seq<Alert>, i: nat)
    requires DistinctIds(graph) && DistinctIds(sentinel) && i < |sentinel| && graph != []
    ensures SentinelOnly(sentinel[i]) in SentinelLeft(sentinel, AfterSecond(graph, sentinel).sentinelIds) <==>
      !SentinelMatched(graph, sentinel, i) && !(Given(sentinel[i].incidentId) &&
        Waiting(graph, sentinel, sentinel[i].incidentId))
  {
    var s := sentinel[i];
    MarkedInTheEnd(graph, sentinel, s);
    SentinelMatchedIff(graph, sentinel, i);
    if Given(s.incidentId) {
      WaitingIff(graph, sentinel, s.incidentId.value);
    }
    SentinelLeftRows(sentinel, AfterSecond(graph, sentinel).sentinelIds, s);
  }

  lemma {:induction false} SentinelLeftRows(sentinel: seq<Alert>, matched: set<string>, s: Alert)
    ensures SentinelOnly(s) in SentinelLeft(sentinel, matched) <==> s in sentinel && s.id !in matched
  {
    if sentinel != [] {
      assert sentinel == sentinel[..|sentinel| - 1] + [sentinel[|sentinel| - 1]];
      SentinelLeftRows(sentinel[..|sentinel| - 1], matched, s);
    }
  }
}
