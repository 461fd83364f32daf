// A rule's telemetry rows count every alert and every incident once, or exactly when not.
module TelemetrySums {
  import opened Text
  import opened RuleTelemetry

  predicate Distinct(keys: seq<Key>) {
    forall i, j | 0 <= i < j < |keys| :: keys[i] != keys[j]
  }

  // ---- sums of sizes and sizes of unions ----

  function Sizes(f: Key -> set<string>, keys: seq<Key>): nat {
    if keys == [] then 0 else Sizes(f, keys[..|keys| - 1]) + |f(keys[|keys| - 1])|
  }

  function Union(f: Key -> set<string>, keys: seq<Key>): (u: set<string>)
    ensures forall x :: x in u <==> exists k :: k in keys && x in f(k)
  {
    if keys == [] then {}
    else
      assert keys == keys[..|keys| - 1] + [keys[|keys| - 1]];
      Union(f, keys[..|keys| - 1]) + f(keys[|keys| - 1])
  }

  /** No member is in the sets of two keys. */
  predicate Apart(f: Key -> set<string>, keys: seq<Key>) {
    if keys == [] then true
    else Apart(f, keys[..|keys| - 1]) && Union(f, keys[..|keys| - 1]) !! f(keys[|keys| - 1])
  }

  lemma {:induction false} ApartWhen(f: Key -> set<string>, keys: seq<Key>)
    requires forall i, j, x | 0 <= i < j < |keys| && x in f(keys[i]) :: x !in f(keys[j])
    ensures Apart(f, keys)
  {
    if keys != [] {
      var last, rest := keys[|keys| - 1], keys[..|keys| - 1];
      ApartWhen(f, rest);
      forall x | x in Union(f, rest) ensures x !in f(last) {
        var k :| k in rest && x in f(k);
        var i :| 0 <= i < |rest| && rest[i] == k;
        assert keys[i] == k;
      }
    }
  }

  lemma {:induction false} ApartMeans(f: Key -> set<string>, keys: seq<Key>, i: nat, j: nat, x: string)
    requires Apart(f, keys) && i < j < |keys| && x in f(keys[i])
    ensures x !in f(keys[j])
  {
    var rest := keys[..|keys| - 1];
    if j < |rest| {
      ApartMeans(f, rest, i, j, x);
    } else {
      assert rest[i] in rest && x in f(rest[i]);
      assert x in Union(f, rest);
    }
  }

  lemma SizeOfUnion(a: set<string>, b: set<string>)
    ensures |a + b| <= |a| + |b|
    ensures |a + b| == |a| + |b| <==> a !! b
  {
    assert |a + b| == |a| + |b| - |a * b|;
    if a !! b {
      assert a * b == {};
    } else {
      var x :| x in a && x in b;
      assert x in a * b;
    }
  }

  /** The sum counts a member once for each of its keys: it is the number of members exactly when none has two. */
  lemma {:induction false} SumsCountOnceIffApart(f: Key -> set<string>, keys: seq<Key>)
    ensures Sizes(f, keys) >= |Union(f, keys)|
    ensures Sizes(f, keys) == |Union(f, keys)| <==> Apart(f, keys)
  {
    if keys != [] {
      var last, rest := keys[|keys| - 1], keys[..|keys| - 1];
      SumsCountOnceIffApart(f, rest);
      SizeOfUnion(Union(f, rest), f(last));
    }
  }

  // ---- the rows of a rule add up to the counts of its keys ----

  function KeyOf(t: Table, s: string): Key {
    if t == ByName then NameKey(s) else IdKey(s)
  }

  function SumOf(f: Key -> Totals, keys: seq<Key>): Totals {
    if keys == [] then NOTHING else Plus(SumOf(f, keys[..|keys| - 1]), f(keys[|keys| - 1]))
  }

  lemma PlusAssociates(a: Totals, b: Totals, c: Totals)
    ensures Plus(Plus(a, b), c) == Plus(a, Plus(b, c)) && Plus(a, NOTHING) == a && Plus(NOTHING, a) == a
  {
  }

  lemma {:induction false} SumOfConcat(f: Key -> Totals, a: seq<Key>, b: seq<Key>)
    ensures SumOf(f, a + b) == Plus(SumOf(f, a), SumOf(f, b))
  {
    if b == [] {
      assert a + b == a;
      PlusAssociates(SumOf(f, a), NOTHING, NOTHING);
    } else {
      assert (a + b)[..|a + b| - 1] == a + b[..|b| - 1];
      SumOfConcat(f, a, b[..|b| - 1]);
      PlusAssociates(SumOf(f, a), SumOf(f, b[..|b| - 1]), f(b[|b| - 1]));
    }
  }

  lemma {:induction false} PickConcat(rows: seq<Row>, a: seq<nat>, b: seq<nat>)
    requires InRange(a, |rows|) && InRange(b, |rows|)
    ensures InRange(a + b, |rows|) && Pick(rows, a + b) == Pick(rows, a) + Pick(rows, b)
  {
    if b == [] {
      assert a + b == a;
    } else {
      assert (a + b)[..|a + b| - 1] == a + b[..|b| - 1];
      PickConcat(rows, a, b[..|b| - 1]);
    }
  }

  lemma {:induction false} SumConcat(a: seq<Row>, b: seq<Row>)
    ensures Sum(a + b) == Plus(Sum(a), Sum(b))
  {
    if b == [] {
      assert a + b == a;
      PlusAssociates(Sum(a), NOTHING, NOTHING);
    } else {
      assert (a + b)[..|a + b| - 1] == a + b[..|b| - 1];
      SumConcat(a, b[..|b| - 1]);
      PlusAssociates(Sum(a), Sum(b[..|b| - 1]), b[|b| - 1].counts);
    }
  }

  lemma SumOfPicks(rows: seq<Row>, a: seq<nat>, b: seq<nat>)
    requires InRange(a, |rows|) && InRange(b, |rows|)
    ensures InRange(a + b, |rows|) && Sum(Pick(rows, a + b)) == Plus(Sum(Pick(rows, a)), Sum(Pick(rows, b)))
  {
    PickConcat(rows, a, b);
    SumConcat(Pick(rows, a), Pick(rows, b));
  }

  predicate OneRowPerKey(rows: seq<Row>) {
    && (forall i | 0 <= i < |rows| :: rows[i].key.Some?)
    && (forall i, j | 0 <= i < j < |rows| :: rows[i].key != rows[j].key)
  }

  /** The rows are the table of `f`: one for every key where `f` is not nothing. */
  ghost predicate Tabulates(f: Key -> Totals, rows: seq<Row>) {
    && OneRowPerKey(rows)
    && (forall i | 0 <= i < |rows| :: rows[i].counts == f(rows[i].key.value))
    && (forall k: Key | f(k) != NOTHING :: HasRow(rows, k))
  }

  lemma AnswersTabulate(w: Workspace, rows: seq<Row>)
    requires Answers(w, rows)
    ensures Tabulates(w.Counts, rows)
  {
    forall k: Key | w.Counts(k) != NOTHING ensures HasRow(rows, k) {
      CountsClosedWithinIncidents(w, k);
      assert w.AlertsWith(k) != {} || w.IncidentsWith(k) != {};
    }
  }

  lemma {:induction false} UnderNone(t: Table, norm: string -> string, rows: seq<Row>, s: string)
    requires t != ByIdRowName
    requires forall i | 0 <= i < |rows| :: rows[i].key.Some? && rows[i].key != Some(KeyOf(t, s))
    ensures Under(t, norm, rows, s) == []
  {
    if rows != [] {
      UnderNone(t, norm, rows[..|rows| - 1], s);
    }
  }

  lemma {:induction false} UnderOne(t: Table, norm: string -> string, rows: seq<Row>, s: string, i: nat)
    requires t != ByIdRowName && OneRowPerKey(rows) && i < |rows| && rows[i].key == Some(KeyOf(t, s))
    ensures Under(t, norm, rows, s) == [i]
  {
    var rest := rows[..|rows| - 1];
    if i < |rest| {
      UnderOne(t, norm, rest, s, i);
    } else {
      UnderNone(t, norm, rest, s);
    }
  }

  ghost predicate HasRow(rows: seq<Row>, k: Key) {
    exists i :: 0 <= i < |rows| && rows[i].key == Some(k)
  }

  lemma UnderAtMostOne(t: Table, norm: string -> string, rows: seq<Row>, s: string)
    requires t != ByIdRowName && OneRowPerKey(rows)
    ensures |Under(t, norm, rows, s)| == if HasRow(rows, KeyOf(t, s)) then 1 else 0
    ensures forall i | i in Under(t, norm, rows, s) :: i < |rows| && rows[i].key == Some(KeyOf(t, s))
  {
    if HasRow(rows, KeyOf(t, s)) {
      var i :| 0 <= i < |rows| && rows[i].key == Some(KeyOf(t, s));
      UnderOne(t, norm, rows, s, i);
    } else {
      UnderNone(t, norm, rows, s);
    }
  }

  lemma UnderCounts(f: Key -> Totals, t: Table, norm: string -> string, rows: seq<Row>, s: string)
    requires Tabulates(f, rows) && t != ByIdRowName
    ensures Sum(Pick(rows, Under(t, norm, rows, s))) == f(KeyOf(t, s))
  {
    if HasRow(rows, KeyOf(t, s)) {
      var i :| 0 <= i < |rows| && rows[i].key == Some(KeyOf(t, s));
      UnderOne(t, norm, rows, s, i);
      PickOne(rows, i);
    } else {
      UnderNone(t, norm, rows, s);
      assert f(KeyOf(t, s)) == NOTHING;
    }
  }

  lemma PickOne(rows: seq<Row>, i: nat)
    requires i < |rows|
    ensures Sum(Pick(rows, [i])) == rows[i].counts
  {
    assert [i][..0] == [];
    assert Pick(rows, [i]) == [rows[i]];
    SumOne(rows[i]);
  }

  lemma SumOne(r: Row)
    ensures Sum([r]) == r.counts
  {
    assert [r][..0] == [];
    PlusAssociates(r.counts, NOTHING, NOTHING);
  }

  function KeysOf(t: Table, ss: seq<string>): seq<Key> {
    if t == ByName then NameKeys(ss) else IdKeys(ss)
  }

  lemma {:induction false} ChainCounts(f: Key -> Totals, t: Table, norm: string -> string, rows: seq<Row>,
                                       ss: seq<string>)
    requires Tabulates(f, rows) && t != ByIdRowName
    ensures Sum(Pick(rows, Chain(t, norm, rows, ss))) == SumOf(f, KeysOf(t, ss))
  {
    if ss != [] {
      var rest, s := ss[..|ss| - 1], ss[|ss| - 1];
      ChainCounts(f, t, norm, rows, rest);
      UnderCounts(f, t, norm, rows, s);
      SumOfPicks(rows, Chain(t, norm, rows, rest), Under(t, norm, rows, s));
      SumOfKeys(f, t, ss);
    }
  }

  lemma SumOfKeys(f: Key -> Totals, t: Table, ss: seq<string>)
    requires ss != []
    ensures SumOf(f, KeysOf(t, ss)) == Plus(SumOf(f, KeysOf(t, ss[..|ss| - 1])), f(KeyOf(t, ss[|ss| - 1])))
  {
    assert KeysOf(t, ss)[..|ss| - 1] == KeysOf(t, ss[..|ss| - 1]);
  }

  predicate NoRepeats(at: seq<nat>) {
    forall i, j | 0 <= i < j < |at| :: at[i] != at[j]
  }

  lemma {:induction false} UniqueOfNoRepeats(at: seq<nat>)
    requires NoRepeats(at)
    ensures Unique(at) == at
  {
    if at != [] {
      var rest, x := at[..|at| - 1], at[|at| - 1];
      UniqueOfNoRepeats(rest);
      assert at == rest + [x];
      assert x !in rest;
    }
  }

  /** Every position of a chain carries a key of the chain. */
  lemma {:induction false} ChainKeys(t: Table, norm: string -> string, rows: seq<Row>, ss: seq<string>, i: nat)
    requires t != ByIdRowName && i in Chain(t, norm, rows, ss)
    requires forall j | 0 <= j < |rows| :: rows[j].key.Some?
    ensures i < |rows| && exists s :: s in ss && rows[i].key == Some(KeyOf(t, s))
  {
    var rest, s := ss[..|ss| - 1], ss[|ss| - 1];
    assert ss == rest + [s];
    if i in Chain(t, norm, rows, rest) {
      ChainKeys(t, norm, rows, rest, i);
    } else {
      assert i in Under(t, norm, rows, s);
      assert s in ss;
    }
  }

  lemma {:induction false} ChainNoRepeats(t: Table, norm: string -> string, rows: seq<Row>, ss: seq<string>)
    requires OneRowPerKey(rows) && t != ByIdRowName
    requires forall i, j | 0 <= i < j < |ss| :: ss[i] != ss[j]
    ensures NoRepeats(Chain(t, norm, rows, ss))
  {
    if ss != [] {
      var rest, s := ss[..|ss| - 1], ss[|ss| - 1];
      ChainNoRepeats(t, norm, rows, rest);
      UnderAtMostOne(t, norm, rows, s);
      forall x | x in Chain(t, norm, rows, rest) ensures x !in Under(t, norm, rows, s) {
        ChainKeys(t, norm, rows, rest, x);
      }
      NoRepeatsConcat(Chain(t, norm, rows, rest), Under(t, norm, rows, s));
    }
  }

  lemma NoRepeatsConcat(a: seq<nat>, b: seq<nat>)
    requires NoRepeats(a) && NoRepeats(b) && forall x | x in a :: x !in b
    ensures NoRepeats(a + b)
  {
    forall i, j | 0 <= i < j < |a + b| ensures (a + b)[i] != (a + b)[j] {
      if i < |a| && j >= |a| {
        assert (a + b)[i] in a && (a + b)[j] in b;
      }
    }
  }

  lemma OwnRowsAreChained(norm: string -> string, rows: seq<Row>, keys: RuleKeys)
    requires OneRowPerKey(rows) && keys.Deduped()
    ensures OwnRows(norm, rows, keys) == Chain(ById, norm, rows, keys.ids) + Chain(ByName, norm, rows, keys.names)
  {
    var ids, names := Chain(ById, norm, rows, keys.ids), Chain(ByName, norm, rows, keys.names);
    ChainNoRepeats(ById, norm, rows, keys.ids);
    ChainNoRepeats(ByName, norm, rows, keys.names);
    forall x | x in ids ensures x !in names {
      ChainKeys(ById, norm, rows, keys.ids, x);
      if x in names {
        ChainKeys(ByName, norm, rows, keys.names, x);
        assert false;
      }
    }
    NoRepeatsConcat(ids, names);
    UniqueOfNoRepeats(ids + names);
  }

  /** A rule's own rows, summed, are the counts of its keys, summed. */
  lemma OwnRowsSum(f: Key -> Totals, norm: string -> string, rows: seq<Row>, keys: RuleKeys)
    requires Tabulates(f, rows) && keys.Deduped()
    ensures Sum(Pick(rows, OwnRows(norm, rows, keys))) == SumOf(f, keys.Candidates())
  {
    OwnRowsAreChained(norm, rows, keys);
    ChainCounts(f, ById, norm, rows, keys.ids);
    ChainCounts(f, ByName, norm, rows, keys.names);
    SumOfPicks(rows, Chain(ById, norm, rows, keys.ids), Chain(ByName, norm, rows, keys.names));
    SumOfConcat(f, IdKeys(keys.ids), NameKeys(keys.names));
  }

  // ---- what the sums count ----

  lemma {:induction false} SumCountsAreSizes(w: Workspace, keys: seq<Key>)
    ensures SumOf(w.Counts, keys).alerts == Sizes(w.AlertsWith, keys)
    ensures SumOf(w.Counts, keys).incidents == Sizes(w.IncidentsWith, keys)
  {
    if keys != [] {
      SumCountsAreSizes(w, keys[..|keys| - 1]);
    }
  }

  lemma AlertsAreApart(w: Workspace, keys: seq<Key>)
    requires Distinct(keys)
    ensures Apart(w.AlertsWith, keys)
  {
    ApartWhen(w.AlertsWith, keys);
  }

  lemma CandidatesAreDistinct(keys: RuleKeys)
    requires keys.Deduped()
    ensures Distinct(keys.Candidates())
  {
  }

  /** Two references of the incident name different ids of the rule. */
  ghost predicate UnderTwoIds(w: Workspace, keys: RuleKeys, n: string)
    requires n in w.incidents
  {
    exists r, s :: r in w.incidents[n].ruleRefs && s in w.incidents[n].ruleRefs && NamesId(w, keys, r)
      && NamesId(w, keys, s) && w.norms.ref(r) != w.norms.ref(s)
  }

  /** One reference of the incident names an id of the rule, another normalises to nothing, and the rule carries the
      incident's title. */
  ghost predicate UnderIdAndName(w: Workspace, keys: RuleKeys, n: string)
    requires n in w.incidents
  {
    && w.norms.name(w.incidents[n].title) in keys.names
    && (exists r :: r in w.incidents[n].ruleRefs && NamesId(w, keys, r))
    && exists s :: s in w.incidents[n].ruleRefs && w.norms.ref(s) == ""
  }

  predicate NamesId(w: Workspace, keys: RuleKeys, r: string) {
    w.norms.ref(r) != "" && w.norms.ref(r) in keys.ids
  }

  lemma TwoIdsNotApart(w: Workspace, keys: RuleKeys, n: string, r: string, s: string)
    requires n in w.incidents && r in w.incidents[n].ruleRefs && s in w.incidents[n].ruleRefs
    requires NamesId(w, keys, r) && w.norms.ref(r) != w.norms.ref(s)
    requires NamesId(w, keys, s) || (w.norms.ref(s) == "" && w.norms.name(w.incidents[n].title) in keys.names)
    ensures !Apart(w.IncidentsWith, keys.Candidates())
  {
    HasKey(w, n, r);
    HasKey(w, n, s);
    CandidateOf(keys, w.RefKey(n, r));
    CandidateOf(keys, w.RefKey(n, s));
    NotApart(w.IncidentsWith, keys.Candidates(), w.RefKey(n, r), w.RefKey(n, s), n);
  }

  /** Two different keys of an incident come from two references. */
  lemma TwoKeysTwoRefs(w: Workspace, n: string, k: Key, l: Key) returns (r: string, s: string)
    requires n in w.IncidentsWith(k) && n in w.IncidentsWith(l) && k != l
    ensures r in w.incidents[n].ruleRefs && w.RefKey(n, r) == k
    ensures s in w.incidents[n].ruleRefs && w.RefKey(n, s) == l
  {
    var refs := if w.incidents[n].ruleRefs != [] then w.incidents[n].ruleRefs else [""];
    r :| r in refs && w.RefKey(n, r) == k;
    s :| s in refs && w.RefKey(n, s) == l;
  }

  lemma TwoKeysAreSeen(w: Workspace, keys: RuleKeys, n: string, k: Key, l: Key)
    requires n in w.IncidentsWith(k) && n in w.IncidentsWith(l) && k != l
    requires k in keys.Candidates() && l in keys.Candidates()
    ensures UnderTwoIds(w, keys, n) || UnderIdAndName(w, keys, n)
  {
    var r, s := TwoKeysTwoRefs(w, n, k, l);
    CandidateOf(keys, k);
    CandidateOf(keys, l);
    if k.IdKey? {
      assert NamesId(w, keys, r);
    }
    if l.IdKey? {
      assert NamesId(w, keys, s);
    }
  }

  /** When no incident has two of a rule's keys, stated over the incidents' references and titles. */
  lemma ApartIff(w: Workspace, keys: RuleKeys)
    requires keys.Deduped()
    ensures Apart(w.IncidentsWith, keys.Candidates()) <==>
      forall n | n in w.incidents :: !UnderTwoIds(w, keys, n) && !UnderIdAndName(w, keys, n)
  {
    var cs := keys.Candidates();
    if n :| n in w.incidents && (UnderTwoIds(w, keys, n) || UnderIdAndName(w, keys, n)) {
      var refs := w.incidents[n].ruleRefs;
      if UnderTwoIds(w, keys, n) {
        var r, s :| r in refs && s in refs && NamesId(w, keys, r) && NamesId(w, keys, s)
          && w.norms.ref(r) != w.norms.ref(s);
        TwoIdsNotApart(w, keys, n, r, s);
      } else {
        var r :| r in refs && NamesId(w, keys, r);
        var s :| s in refs && w.norms.ref(s) == "";
        TwoIdsNotApart(w, keys, n, r, s);
      }
    } else {
      CandidatesAreDistinct(keys);
      forall i, j, n | 0 <= i < j < |cs| && n in w.IncidentsWith(cs[i]) ensures n !in w.IncidentsWith(cs[j]) {
        if n in w.IncidentsWith(cs[j]) {
          TwoKeysAreSeen(w, keys, n, cs[i], cs[j]);
          assert false;
        }
      }
      ApartWhen(w.IncidentsWith, cs);
    }
  }

  /** For any rule with rows of its own: the alerts are exactly those attributed to its id or names; the incidents
      are at least those, and exactly those if and only if no incident names two of its ids, and none names one of
      them beside a reference that normalises to nothing while its title is one of the rule's names. */
  lemma RuleTotals(w: Workspace, norm: string -> string, rows: seq<Row>, keys: RuleKeys)
    requires Answers(w, rows) && keys.Deduped() && OwnRows(norm, rows, keys) != []
    ensures LookupOf(norm, rows, keys).Some?
    ensures var t, cs := LookupOf(norm, rows, keys).value, keys.Candidates();
      && t.alerts == |Union(w.AlertsWith, cs)|
      && t.incidents >= |Union(w.IncidentsWith, cs)|
      && (t.incidents == |Union(w.IncidentsWith, cs)| <==>
           forall n | n in w.incidents :: !UnderTwoIds(w, keys, n) && !UnderIdAndName(w, keys, n))
  {
    RuleSums(w, norm, rows, keys);
    ApartIff(w, keys);
  }

  /** A rule with one id, as the repository's rules have: only the second case is left. */
  lemma RuleTotalsOneId(w: Workspace, norm: string -> string, rows: seq<Row>, keys: RuleKeys)
    requires Answers(w, rows) && keys.Deduped() && |keys.ids| <= 1 && OwnRows(norm, rows, keys) != []
    ensures LookupOf(norm, rows, keys).Some?
    ensures LookupOf(norm, rows, keys).value.incidents == |Union(w.IncidentsWith, keys.Candidates())| <==>
      forall n | n in w.incidents :: !UnderIdAndName(w, keys, n)
  {
    RuleTotals(w, norm, rows, keys);
    forall n | n in w.incidents ensures !UnderTwoIds(w, keys, n) {
      OneIdNeverTwo(w, keys, n);
    }
  }

  lemma OneIdNeverTwo(w: Workspace, keys: RuleKeys, n: string)
    requires n in w.incidents && |keys.ids| <= 1
    ensures !UnderTwoIds(w, keys, n)
  {
    forall r | NamesId(w, keys, r) ensures w.norms.ref(r) == keys.ids[0] {}
  }

  lemma RuleSums(w: Workspace, norm: string -> string, rows: seq<Row>, keys: RuleKeys)
    requires Answers(w, rows) && keys.Deduped() && OwnRows(norm, rows, keys) != []
    ensures LookupOf(norm, rows, keys).Some?
    ensures var t, cs := LookupOf(norm, rows, keys).value, keys.Candidates();
      && t.alerts == |Union(w.AlertsWith, cs)|
      && t.incidents >= |Union(w.IncidentsWith, cs)|
      && (t.incidents == |Union(w.IncidentsWith, cs)| <==> Apart(w.IncidentsWith, cs))
  {
    var cs := keys.Candidates();
    AnswersTabulate(w, rows);
    OwnRowsSum(w.Counts, norm, rows, keys);
    SumCountsAreSizes(w, cs);
    CandidatesAreDistinct(keys);
    AlertsAreApart(w, cs);
    SumsCountOnceIffApart(w.AlertsWith, cs);
    SumsCountOnceIffApart(w.IncidentsWith, cs);
  }

  lemma {:induction false} PartsApart(part: Key -> set<string>, whole: Key -> set<string>, keys: seq<Key>)
    requires Apart(whole, keys) && forall k :: part(k) <= whole(k)
    ensures Apart(part, keys)
  {
    if keys != [] {
      var last, rest := keys[|keys| - 1], keys[..|keys| - 1];
      PartsApart(part, whole, rest);
      forall x | x in Union(part, rest) ensures x !in part(last) {
        var k :| k in rest && x in part(k);
        assert x in whole(k) && x in Union(whole, rest);
      }
    }
  }

  lemma {:induction false} SumClosedAreSizes(w: Workspace, keys: seq<Key>)
    ensures SumOf(w.Counts, keys).tp == Sizes(w.ClosedFor("TruePositive"), keys)
    ensures SumOf(w.Counts, keys).fp == Sizes(w.ClosedFor("FalsePositive"), keys)
    ensures SumOf(w.Counts, keys).bp == Sizes(w.ClosedFor("BenignPositive"), keys)
  {
    if keys != [] {
      SumClosedAreSizes(w, keys[..|keys| - 1]);
    }
  }

  lemma ClosedSizes(w: Workspace, keys: seq<Key>, classification: string)
    requires Apart(w.IncidentsWith, keys)
    ensures Sizes(w.ClosedFor(classification), keys) == |Union(w.ClosedFor(classification), keys)|
  {
    PartsApart(w.ClosedFor(classification), w.IncidentsWith, keys);
    SumsCountOnceIffApart(w.ClosedFor(classification), keys);
  }

  /** Under the same condition a rule's closed verdicts are exactly its distinct closed incidents. */
  lemma RuleClosedTotals(w: Workspace, norm: string -> string, rows: seq<Row>, keys: RuleKeys)
    requires Answers(w, rows) && keys.Deduped() && OwnRows(norm, rows, keys) != []
    requires forall n | n in w.incidents :: !UnderTwoIds(w, keys, n) && !UnderIdAndName(w, keys, n)
    ensures LookupOf(norm, rows, keys).Some?
    ensures var t, cs := LookupOf(norm, rows, keys).value, keys.Candidates();
      && t.tp == |Union(w.ClosedFor("TruePositive"), cs)|
      && t.fp == |Union(w.ClosedFor("FalsePositive"), cs)|
      && t.bp == |Union(w.ClosedFor("BenignPositive"), cs)|
  {
    var cs := keys.Candidates();
    ApartIff(w, keys);
    AnswersTabulate(w, rows);
    OwnRowsSum(w.Counts, norm, rows, keys);
    SumClosedAreSizes(w, cs);
    ClosedSizes(w, cs, "TruePositive");
    ClosedSizes(w, cs, "FalsePositive");
    ClosedSizes(w, cs, "BenignPositive");
  }

  /** Every reference to a related rule names one. */
  predicate RefsNamed(w: Workspace) {
    forall n, r | n in w.incidents && r in w.incidents[n].ruleRefs :: w.norms.ref(r) != ""
  }

  /** No double counting: with every reference naming a rule, a rule's sums are exactly the distinct alerts and the
      distinct incidents attributed to it. */
  lemma RuleTotalsCountOnce(w: Workspace, norm: string -> string, rows: seq<Row>, keys: RuleKeys)
    requires Answers(w, rows) && RefsNamed(w)
    requires keys.Deduped() && |keys.ids| <= 1 && OwnRows(norm, rows, keys) != []
    ensures LookupOf(norm, rows, keys).Some?
    ensures var t, cs := LookupOf(norm, rows, keys).value, keys.Candidates();
      t.alerts == |Union(w.AlertsWith, cs)| && t.incidents == |Union(w.IncidentsWith, cs)|
  {
    RuleTotals(w, norm, rows, keys);
    RuleTotalsOneId(w, norm, rows, keys);
  }

  /** The claim of at most one row per rule fails for an incident with a related rule and a reference that normalises
      to nothing, when the rule also carries the incident's title: it is counted under the id and under the name. */
  lemma EmptyReferenceCountsTwice(w: Workspace, norm: string -> string, rows: seq<Row>, keys: RuleKeys, n: string,
                                  r: string, s: string)
    requires Answers(w, rows) && keys.Deduped() && OwnRows(norm, rows, keys) != []
    requires n in w.incidents && w.norms.name(w.incidents[n].title) in keys.names
    requires r in w.incidents[n].ruleRefs && w.norms.ref(r) != "" && w.norms.ref(r) in keys.ids
    requires s in w.incidents[n].ruleRefs && w.norms.ref(s) == ""
    ensures LookupOf(norm, rows, keys).Some?
    ensures LookupOf(norm, rows, keys).value.incidents > |Union(w.IncidentsWith, keys.Candidates())|
  {
    RuleTotals(w, norm, rows, keys);
    assert NamesId(w, keys, r) && UnderIdAndName(w, keys, n);
  }

  lemma NotApart(f: Key -> set<string>, keys: seq<Key>, k: Key, l: Key, x: string)
    requires k in keys && l in keys && k != l && x in f(k) && x in f(l)
    ensures !Apart(f, keys)
  {
    var i :| 0 <= i < |keys| && keys[i] == k;
    var j :| 0 <= j < |keys| && keys[j] == l;
    if Apart(f, keys) {
      if i < j {
        ApartMeans(f, keys, i, j, x);
      } else {
        ApartMeans(f, keys, j, i, x);
      }
    }
  }

  lemma HasKey(w: Workspace, n: string, r: string)
    requires n in w.incidents && r in w.incidents[n].ruleRefs
    ensures n in w.IncidentsWith(w.RefKey(n, r))
  {
    assert w.RefKey(n, r) in w.IncidentKeys(n);
  }

  /** A rule has rows of its own exactly when some alert or incident is attributed to one of its keys. */
  lemma OwnRowsIffAttributed(w: Workspace, norm: string -> string, rows: seq<Row>, keys: RuleKeys)
    requires Answers(w, rows) && keys.Deduped()
    ensures OwnRows(norm, rows, keys) != [] <==>
      exists k :: k in keys.Candidates() && (w.AlertsWith(k) != {} || w.IncidentsWith(k) != {})
  {
    var ids, names := Chain(ById, norm, rows, keys.ids), Chain(ByName, norm, rows, keys.names);
    OwnRowsAreChained(norm, rows, keys);
    if ids != [] {
      ChainIsAttributed(w, ById, norm, rows, keys, ids[0]);
    }
    if names != [] {
      ChainIsAttributed(w, ByName, norm, rows, keys, names[0]);
    }
    forall k | k in keys.Candidates() && (w.AlertsWith(k) != {} || w.IncidentsWith(k) != {}) ensures ids + names != [] {
      AttributedIsChained(w, norm, rows, keys, k);
    }
  }

  lemma ChainIsAttributed(w: Workspace, t: Table, norm: string -> string, rows: seq<Row>, keys: RuleKeys, i: nat)
    requires Answers(w, rows) && t != ByIdRowName
    requires i in Chain(t, norm, rows, if t == ById then keys.ids else keys.names)
    ensures exists k :: k in keys.Candidates() && (w.AlertsWith(k) != {} || w.IncidentsWith(k) != {})
  {
    var ss := if t == ById then keys.ids else keys.names;
    ChainKeys(t, norm, rows, ss, i);
    var s :| s in ss && rows[i].key == Some(KeyOf(t, s));
    RowIsAttributed(w, rows, i);
    CandidateOf(keys, KeyOf(t, s));
  }

  lemma AttributedIsChained(w: Workspace, norm: string -> string, rows: seq<Row>, keys: RuleKeys, k: Key)
    requires Answers(w, rows) && k in keys.Candidates() && (w.AlertsWith(k) != {} || w.IncidentsWith(k) != {})
    ensures Chain(ById, norm, rows, keys.ids) + Chain(ByName, norm, rows, keys.names) != []
  {
    var i :| 0 <= i < |rows| && rows[i].key == Some(k);
    CandidateOf(keys, k);
    if k.IdKey? {
      ChainFinds(ById, norm, rows, keys.ids, k.id, i);
    } else {
      ChainFinds(ByName, norm, rows, keys.names, k.name, i);
    }
  }

  lemma RowIsAttributed(w: Workspace, rows: seq<Row>, i: nat)
    requires Answers(w, rows) && i < |rows|
    ensures w.AlertsWith(rows[i].key.value) != {} || w.IncidentsWith(rows[i].key.value) != {}
  {
  }

  lemma CandidateOf(keys: RuleKeys, k: Key)
    ensures k in keys.Candidates() <==> if k.IdKey? then k.id in keys.ids else k.name in keys.names
  {
    var cs := keys.Candidates();
    if k.IdKey? && k.id in keys.ids {
      var i :| 0 <= i < |keys.ids| && keys.ids[i] == k.id;
      assert cs[i] == k;
    }
    if k.NameKey? && k.name in keys.names {
      var i :| 0 <= i < |keys.names| && keys.names[i] == k.name;
      assert cs[|keys.ids| + i] == k;
    }
  }

  lemma {:induction false} ChainFinds(t: Table, norm: string -> string, rows: seq<Row>, ss: seq<string>, s: string,
                                      i: nat)
    requires OneRowPerKey(rows) && t != ByIdRowName && s in ss && i < |rows| && rows[i].key == Some(KeyOf(t, s))
    ensures i in Chain(t, norm, rows, ss)
  {
    if s == ss[|ss| - 1] {
      UnderOne(t, norm, rows, s, i);
    } else {
      assert ss == ss[..|ss| - 1] + [ss[|ss| - 1]];
      ChainFinds(t, norm, rows, ss[..|ss| - 1], s, i);
    }
  }

  // ---- all rows together ----

  function RowKeys(rows: seq<Row>): seq<Key>
    requires forall i | 0 <= i < |rows| :: rows[i].key.Some?
  {
    seq(|rows|, i requires 0 <= i < |rows| => rows[i].key.value)
  }

  /** Every alert of the workspace lands in exactly one row. */
  lemma EveryAlertInOneRow(w: Workspace, rows: seq<Row>)
    requires Answers(w, rows)
    ensures Sum(rows).alerts == |w.alerts|
  {
    var keys := RowKeys(rows);
    AnswersTabulate(w, rows);
    SumOfRows(w.Counts, rows);
    SumCountsAreSizes(w, keys);
    AlertsAreApart(w, keys);
    SumsCountOnceIffApart(w.AlertsWith, keys);
    EveryAlertHasARow(w, rows);
    assert |w.alerts.Keys| == |w.alerts|;
  }

  lemma EveryAlertHasARow(w: Workspace, rows: seq<Row>)
    requires Answers(w, rows)
    ensures Union(w.AlertsWith, RowKeys(rows)) == w.alerts.Keys
  {
    var all := Union(w.AlertsWith, RowKeys(rows));
    forall a ensures a in all <==> a in w.alerts {
      AlertHasARow(w, rows, a);
    }
  }

  lemma AlertHasARow(w: Workspace, rows: seq<Row>, a: string)
    requires Answers(w, rows)
    ensures a in Union(w.AlertsWith, RowKeys(rows)) <==> a in w.alerts
  {
    var keys := RowKeys(rows);
    if a in w.alerts {
      var k := w.AlertKey(a);
      assert a in w.AlertsWith(k);
      var i :| 0 <= i < |rows| && rows[i].key == Some(k);
      assert keys[i] in keys && keys[i] == k;
    }
  }

  /** Every incident lands in some row, and the rows' incidents add up to their number if and only if the references
      of each incident all normalise to the same. */
  lemma EveryIncidentInSomeRow(w: Workspace, rows: seq<Row>)
    requires Answers(w, rows)
    ensures Union(w.IncidentsWith, RowKeys(rows)) == w.incidents.Keys
    ensures Sum(rows).incidents >= |w.incidents|
    ensures Sum(rows).incidents == |w.incidents| <==> forall n | n in w.incidents :: OneRule(w, n)
  {
    var keys := RowKeys(rows);
    AnswersTabulate(w, rows);
    SumOfRows(w.Counts, rows);
    SumCountsAreSizes(w, keys);
    SumsCountOnceIffApart(w.IncidentsWith, keys);
    IncidentsHaveRows(w, rows);
    RowsApartIff(w, rows);
    assert |w.incidents.Keys| == |w.incidents|;
  }

  predicate OneRule(w: Workspace, n: string)
    requires n in w.incidents
  {
    forall r, s | r in w.incidents[n].ruleRefs && s in w.incidents[n].ruleRefs :: w.norms.ref(r) == w.norms.ref(s)
  }

  lemma RowsApartIff(w: Workspace, rows: seq<Row>)
    requires Answers(w, rows)
    ensures Apart(w.IncidentsWith, RowKeys(rows)) <==> forall n | n in w.incidents :: OneRule(w, n)
  {
    var keys := RowKeys(rows);
    if n :| n in w.incidents && !OneRule(w, n) {
      var refs := w.incidents[n].ruleRefs;
      var r, s :| r in refs && s in refs && w.norms.ref(r) != w.norms.ref(s);
      HasRowKey(w, rows, n, r);
      HasRowKey(w, rows, n, s);
      NotApart(w.IncidentsWith, keys, w.RefKey(n, r), w.RefKey(n, s), n);
    } else {
      forall i, j, n | 0 <= i < j < |keys| && n in w.IncidentsWith(keys[i]) ensures n !in w.IncidentsWith(keys[j]) {
        if n in w.IncidentsWith(keys[j]) {
          TwoKeysTwoRules(w, n, keys[i], keys[j]);
          assert false;
        }
      }
      ApartWhen(w.IncidentsWith, keys);
    }
  }

  lemma TwoKeysTwoRules(w: Workspace, n: string, k: Key, l: Key)
    requires n in w.IncidentsWith(k) && n in w.IncidentsWith(l) && k != l
    ensures !OneRule(w, n)
  {
    var r, s := TwoKeysTwoRefs(w, n, k, l);
    assert w.norms.ref(r) != w.norms.ref(s);
  }

  lemma HasRowKey(w: Workspace, rows: seq<Row>, n: string, r: string)
    requires Answers(w, rows) && n in w.incidents && r in w.incidents[n].ruleRefs
    ensures w.RefKey(n, r) in RowKeys(rows) && n in w.IncidentsWith(w.RefKey(n, r))
  {
    HasKey(w, n, r);
    var i :| 0 <= i < |rows| && rows[i].key == Some(w.RefKey(n, r));
    assert RowKeys(rows)[i] == w.RefKey(n, r);
  }

  lemma IncidentsHaveRows(w: Workspace, rows: seq<Row>)
    requires Answers(w, rows)
    ensures Union(w.IncidentsWith, RowKeys(rows)) == w.incidents.Keys
  {
    var all := Union(w.IncidentsWith, RowKeys(rows));
    forall n ensures n in all <==> n in w.incidents {
      IncidentHasARow(w, rows, n);
    }
  }

  lemma IncidentHasARow(w: Workspace, rows: seq<Row>, n: string)
    requires Answers(w, rows)
    ensures n in Union(w.IncidentsWith, RowKeys(rows)) <==> n in w.incidents
  {
    var keys := RowKeys(rows);
    if n in w.incidents {
      var refs := if w.incidents[n].ruleRefs != [] then w.incidents[n].ruleRefs else [""];
      assert refs[0] in refs;
      var k := w.RefKey(n, refs[0]);
      assert k in w.IncidentKeys(n);
      assert n in w.IncidentsWith(k);
      var i :| 0 <= i < |rows| && rows[i].key == Some(k);
      assert keys[i] in keys && keys[i] == k;
    }
  }

  lemma {:induction false} SumOfRows(f: Key -> Totals, rows: seq<Row>)
    requires forall i | 0 <= i < |rows| :: rows[i].key.Some? && rows[i].counts == f(rows[i].key.value)
    ensures Sum(rows) == SumOf(f, RowKeys(rows))
  {
    if rows != [] {
      SumOfRows(f, rows[..|rows| - 1]);
      assert RowKeys(rows)[..|rows| - 1] == RowKeys(rows[..|rows| - 1]);
    }
  }

  // ---- the false-positive rate ----

  function Closed(t: Totals): nat {
    t.tp + t.fp + t.bp
  }

  /** `closed_fp_rate`. */
  function ClosedFpRate(t: Totals): Option<real> {
    if Closed(t) == 0 then None else Some(t.fp as real / Closed(t) as real)
  }

  lemma CountsClosedWithinIncidents(w: Workspace, k: Key)
    ensures Closed(w.Counts(k)) <= w.Counts(k).incidents
  {
    var a, b, c := w.ClosedAs(k, "TruePositive"), w.ClosedAs(k, "FalsePositive"), w.ClosedAs(k, "BenignPositive");
    assert "TruePositive"[0] != "FalsePositive"[0] && "TruePositive"[0] != "BenignPositive"[0];
    assert "FalsePositive"[0] != "BenignPositive"[0];
    assert a !! b && a !! c && b !! c;
    PartsWithin(a, b, c, w.IncidentsWith(k));
  }

  lemma PartsWithin(a: set<string>, b: set<string>, c: set<string>, all: set<string>)
    requires a <= all && b <= all && c <= all && a !! b && a !! c && b !! c
    ensures |a| + |b| + |c| <= |all|
  {
    SizeOfUnion(a, b);
    SizeOfUnion(a + b, c);
    SubsetSize(a + b + c, all);
  }

  lemma SubsetSize(a: set<string>, b: set<string>)
    requires a <= b
    ensures |a| <= |b|
  {
    assert b == a + (b - a);
  }

  predicate Bounded(t: Totals) {
    Closed(t) <= t.incidents
  }

  lemma {:induction false} PickedAreBounded(rows: seq<Row>, at: seq<nat>)
    requires InRange(at, |rows|) && forall i | 0 <= i < |rows| :: Bounded(rows[i].counts)
    ensures Bounded(Sum(Pick(rows, at)))
  {
    if at != [] {
      PickedAreBounded(rows, at[..|at| - 1]);
      assert Pick(rows, at)[..|at| - 1] == Pick(rows, at[..|at| - 1]) && |Pick(rows, at)| == |at|;
    }
  }

  lemma RowsAreBounded(w: Workspace, rows: seq<Row>)
    requires Answers(w, rows)
    ensures forall i | 0 <= i < |rows| :: Bounded(rows[i].counts)
  {
    forall i | 0 <= i < |rows| ensures Bounded(rows[i].counts) {
      CountsClosedWithinIncidents(w, rows[i].key.value);
    }
  }

  /** Whatever rows a lookup adds up, by id, by name or by the fallback: no more closed verdicts than incidents, and
      a rate between 0 and 1. */
  lemma RateIsAFraction(w: Workspace, norm: string -> string, rows: seq<Row>, keys: RuleKeys)
    requires Answers(w, rows) && LookupOf(norm, rows, keys).Some?
    ensures var t := LookupOf(norm, rows, keys).value;
      && Closed(t) <= t.incidents
      && (ClosedFpRate(t).Some? ==> 0.0 <= ClosedFpRate(t).value <= 1.0)
      && (ClosedFpRate(t).None? <==> t.tp == t.fp == t.bp == 0)
  {
    RowsAreBounded(w, rows);
    PickedAreBounded(rows, RowsOf(norm, rows, keys));
    RateOf(LookupOf(norm, rows, keys).value);
  }

  /** The rate is that of the false positives among the closed verdicts. */
  lemma RateIs(t: Totals)
    ensures ClosedFpRate(t).Some? <==> t.tp + t.fp + t.bp > 0
    ensures ClosedFpRate(t).Some? ==> ClosedFpRate(t).value * (t.tp + t.fp + t.bp) as real == t.fp as real
  {
    if Closed(t) != 0 {
      Quotient(t.fp as real, Closed(t) as real);
    }
  }

  lemma Quotient(a: real, b: real)
    requires b != 0.0
    ensures a / b * b == a
  {
  }

  lemma RateOf(t: Totals)
    ensures ClosedFpRate(t).Some? ==> 0.0 <= ClosedFpRate(t).value <= 1.0
    ensures ClosedFpRate(t).None? <==> t.tp == t.fp == t.bp == 0
  {
    if Closed(t) != 0 {
      Fraction(t.fp as real, Closed(t) as real);
    }
  }

  lemma Fraction(a: real, b: real)
    requires 0.0 <= a <= b && b > 0.0
    ensures 0.0 <= a / b <= 1.0
  {
    assert a / b * b == a;
  }
}
