// Telemetry per rule: the workspace query as a relation over its two tables, the index over its rows, and why a
// rule's rows can be added up.
module RuleTelemetry {
  import opened Text

  // ---- the tables ----

  datatype AlertRow = AlertRow(name: string, alertType: string, product: string)

  datatype IncidentRow = IncidentRow(
    title: string, classification: string, status: string, ruleRefs: seq<string>, alertIds: seq<string>)

  /** One logged state of an alert or an incident. */
  datatype Logged<V> = Logged(key: string, time: int, state: V)

  /** `summarize arg_max(TimeGenerated, *) by key`: the state logged last. */
  function Latest<V>(log: seq<Logged<V>>): (m: map<string, Logged<V>>)
    ensures forall k :: k in m <==> exists l :: l in log && l.key == k
  {
    if log == [] then map[]
    else
      var before, l := Latest(log[..|log| - 1]), log[|log| - 1];
      assert log == log[..|log| - 1] + [l];
      if l.key in before && before[l.key].time > l.time then before else before[l.key := l]
  }

  /** Each key once, in its latest state. */
  lemma {:induction false} LatestIsLatest<V>(log: seq<Logged<V>>, l: Logged<V>)
    requires l in log
    ensures l.key in Latest(log) && Latest(log)[l.key].time >= l.time
    ensures Latest(log)[l.key].key == l.key && Latest(log)[l.key] in log
  {
    var rest, last := log[..|log| - 1], log[|log| - 1];
    assert log == rest + [last];
    if l in rest {
      LatestIsLatest(rest, l);
    } else if last.key in Latest(rest) {
      var other :| other in rest && other.key == last.key;
      LatestIsLatest(rest, other);
    }
  }

  // ---- rule keys ----

  datatype Key = IdKey(id: string) | NameKey(name: string)

  /** The query's normalising expressions: a related rule's reference, an alert type, a display name. */
  datatype Norms = Norms(ref: string -> string, alertType: string -> string, name: string -> string)
  {
    /** Nothing is no rule. */
    predicate Sane() {
      ref("") == ""
    }
  }

  const SENTINEL_PRODUCTS := {"Azure Sentinel", "Microsoft Sentinel"}

  /** The tables in their latest state, and the choices the query leaves open: `linked` is the rule `take_any` picks
      for an alert among the incidents with exactly one related rule. */
  datatype Workspace = Workspace(
    norms: Norms, alerts: map<string, AlertRow>, incidents: map<string, IncidentRow>, linked: map<string, string>)
  {
    /** A rule an alert can be linked to. */
    ghost predicate Offers(n: string, alert: string, rule: string) {
      && n in incidents && |incidents[n].ruleRefs| == 1 && alert in incidents[n].alertIds && alert != ""
      && rule == norms.ref(incidents[n].ruleRefs[0]) && rule != ""
    }

    /** `alert_rule_link` holds some offered rule for every alert that is offered one. */
    ghost predicate Valid() {
      && norms.Sane()
      && (forall a | a in linked :: exists n :: Offers(n, a, linked[a]))
      && (forall n, a, r | Offers(n, a, r) :: a in linked)
    }

    function AlertKey(a: string): Key
      requires a in alerts
    {
      var row := alerts[a];
      var rule :=
        if row.product !in SENTINEL_PRODUCTS then ""
        else if a in linked && linked[a] != "" then linked[a]
        else norms.alertType(row.alertType);
      if rule != "" then IdKey(rule) else NameKey(norms.name(row.name))
    }

    function RefKey(n: string, ref: string): Key
      requires n in incidents
    {
      if norms.ref(ref) != "" then IdKey(norms.ref(ref)) else NameKey(norms.name(incidents[n].title))
    }

    /** One key per related rule, or one for none, each once. */
    function IncidentKeys(n: string): set<Key>
      requires n in incidents
    {
      var refs := if incidents[n].ruleRefs != [] then incidents[n].ruleRefs else [""];
      set r | r in refs :: RefKey(n, r)
    }

    function AlertsWith(k: Key): set<string> {
      set a | a in alerts && AlertKey(a) == k
    }

    function IncidentsWith(k: Key): set<string> {
      set n | n in incidents && k in IncidentKeys(n)
    }

    function ClosedAs(k: Key, classification: string): set<string> {
      set n | n in IncidentsWith(k) && incidents[n].status == "Closed" && incidents[n].classification == classification
    }

    function ClosedFor(classification: string): Key -> set<string> {
      k => ClosedAs(k, classification)
    }

    /** The counts of one key. */
    function Counts(k: Key): Totals {
      Totals(|AlertsWith(k)|, |IncidentsWith(k)|, |ClosedAs(k, "TruePositive")|, |ClosedAs(k, "FalsePositive")|,
             |ClosedAs(k, "BenignPositive")|)
    }
  }

  /** A Defender alert is never credited to a Sentinel rule, and a linked rule is one a single-rule incident names. */
  lemma AlertKeyIsEarned(w: Workspace, a: string)
    requires w.Valid() && a in w.alerts && w.AlertKey(a).IdKey?
    ensures w.alerts[a].product in SENTINEL_PRODUCTS
    ensures (exists n :: w.Offers(n, a, w.AlertKey(a).id)) ||
      (w.AlertKey(a).id == w.norms.alertType(w.alerts[a].alertType) && forall n, r :: !w.Offers(n, a, r))
  {
  }

  // ---- from the logs to the tables ----

  function States<V>(log: seq<Logged<V>>): map<string, V> {
    map k | k in Latest(log) :: Latest(log)[k].state
  }

  /** The tables a query sees, given the rows logged in its window. */
  function FromLogs(norms: Norms, alerts: seq<Logged<AlertRow>>, incidents: seq<Logged<IncidentRow>>,
                    linked: map<string, string>): Workspace {
    Workspace(norms, States(alerts), States(incidents), linked)
  }

  /** No key is logged twice at one time in different states. */
  predicate Unambiguous<V(==)>(log: seq<Logged<V>>) {
    forall l, m | l in log && m in log && l.key == m.key && l.time == m.time :: l == m
  }

  /** `more` logs what `log` does, perhaps repeatedly and in another order, and else only states that `log` has
      superseded. */
  ghost predicate AddsOnlyOlder<V>(log: seq<Logged<V>>, more: seq<Logged<V>>) {
    && (forall l | l in log :: l in more)
    && (forall l | l in more :: l in log || exists m :: m in log && m.key == l.key && m.time > l.time)
  }

  lemma LatestIsLogged<V>(log: seq<Logged<V>>, k: string)
    requires k in Latest(log)
    ensures Latest(log)[k] in log && Latest(log)[k].key == k
  {
    var l :| l in log && l.key == k;
    LatestIsLatest(log, l);
  }

  lemma LatestAgain<V>(log: seq<Logged<V>>, more: seq<Logged<V>>, k: string)
    requires Unambiguous(more) && AddsOnlyOlder(log, more) && k in Latest(log)
    ensures k in Latest(more) && Latest(more)[k] == Latest(log)[k]
  {
    LatestIsLogged(log, k);
    var x := Latest(log)[k];
    LatestIsLatest(more, x);
    var y := Latest(more)[k];
    if y in log {
      LatestIsLatest(log, y);
    } else {
      var m :| m in log && m.key == k && m.time > y.time;
      LatestIsLatest(log, m);
      assert false;
    }
  }

  lemma NoNewKey<V>(log: seq<Logged<V>>, more: seq<Logged<V>>, k: string)
    requires AddsOnlyOlder(log, more) && k in Latest(more)
    ensures k in Latest(log)
  {
    LatestIsLogged(more, k);
    var y := Latest(more)[k];
    if y in log {
      LatestIsLatest(log, y);
    } else {
      var m :| m in log && m.key == y.key && m.time > y.time;
      LatestIsLatest(log, m);
    }
  }

  lemma SameState<V>(log: seq<Logged<V>>, more: seq<Logged<V>>, k: string)
    requires Unambiguous(more) && AddsOnlyOlder(log, more)
    ensures k in States(more) <==> k in States(log)
    ensures k in States(log) ==> States(more)[k] == States(log)[k]
  {
    if k in Latest(log) {
      LatestAgain(log, more, k);
    } else if k in Latest(more) {
      NoNewKey(log, more, k);
    }
  }

  lemma SameMap<V>(a: map<string, V>, b: map<string, V>)
    requires forall k :: k in a <==> k in b
    requires forall k | k in b :: a[k] == b[k]
    ensures a == b
  {
  }

  lemma SameStates<V>(log: seq<Logged<V>>, more: seq<Logged<V>>)
    requires Unambiguous(more) && AddsOnlyOlder(log, more)
    ensures States(more) == States(log)
  {
    var a, b := States(more), States(log);
    forall k ensures (k in a <==> k in b) && (k in b ==> a[k] == b[k]) {
      SameState(log, more, k);
    }
    SameMap(a, b);
  }

  /** Counting only latest states: status changes that are already superseded, repeated rows and the order of the
      rows change neither what answers the query nor any rule's sums. */
  lemma OlderRowsChangeNothing(norms: Norms, alerts: seq<Logged<AlertRow>>, moreAlerts: seq<Logged<AlertRow>>,
                               incidents: seq<Logged<IncidentRow>>, moreIncidents: seq<Logged<IncidentRow>>,
                               linked: map<string, string>, rows: seq<Row>)
    requires Unambiguous(moreAlerts) && AddsOnlyOlder(alerts, moreAlerts)
    requires Unambiguous(moreIncidents) && AddsOnlyOlder(incidents, moreIncidents)
    ensures Answers(FromLogs(norms, moreAlerts, moreIncidents, linked), rows) <==>
      Answers(FromLogs(norms, alerts, incidents, linked), rows)
  {
    SameStates(alerts, moreAlerts);
    SameStates(incidents, moreIncidents);
  }

  /** A verdict counts if and only if the incident's latest row is closed with it: one given before a reopening does
      not, whatever the log held. */
  lemma VerdictIsTheLatest(norms: Norms, alerts: seq<Logged<AlertRow>>, incidents: seq<Logged<IncidentRow>>,
                           linked: map<string, string>, last: Logged<IncidentRow>, classification: string)
    requires last in incidents
    requires forall l | l in incidents && l.key == last.key && l != last :: l.time < last.time
    ensures var w := FromLogs(norms, alerts, incidents, linked);
      (exists k :: last.key in w.ClosedAs(k, classification)) <==>
        last.state.status == "Closed" && last.state.classification == classification
  {
    var w := FromLogs(norms, alerts, incidents, linked);
    var n := last.key;
    LatestIsLatest(incidents, last);
    assert w.incidents[n] == last.state;
    var refs := if w.incidents[n].ruleRefs != [] then w.incidents[n].ruleRefs else [""];
    assert refs[0] in refs;
    var k := w.RefKey(n, refs[0]);
    assert k in w.IncidentKeys(n) && n in w.IncidentsWith(k);
    assert n in w.ClosedAs(k, classification) <==>
      (last.state.status == "Closed" && last.state.classification == classification);
  }

  // ---- the query's answer ----

  datatype Totals = Totals(alerts: nat, incidents: nat, tp: nat, fp: nat, bp: nat)

  const NOTHING := Totals(0, 0, 0, 0, 0)

  function Plus(a: Totals, b: Totals): Totals {
    Totals(a.alerts + b.alerts, a.incidents + b.incidents, a.tp + b.tp, a.fp + b.fp, a.bp + b.bp)
  }

  datatype Row = Row(key: Option<Key>, ruleName: string, counts: Totals)

  /** The full outer join: one row for every key that an alert or an incident has, in any order. */
  ghost predicate Answers(w: Workspace, rows: seq<Row>) {
    && (forall i | 0 <= i < |rows| :: rows[i].key.Some? && rows[i].counts == w.Counts(rows[i].key.value))
    && (forall i | 0 <= i < |rows| :: rows[i].counts.alerts + rows[i].counts.incidents > 0)
    && (forall i, j | 0 <= i < j < |rows| :: rows[i].key != rows[j].key)
    && (forall k: Key | w.AlertsWith(k) != {} || w.IncidentsWith(k) != {} ::
         exists i :: 0 <= i < |rows| && rows[i].key == Some(k))
  }

  // ---- the index ----

  function Get(m: map<string, seq<nat>>, s: string): seq<nat> {
    if s in m then m[s] else []
  }

  function PutAt(m: map<string, seq<nat>>, s: string, i: nat): map<string, seq<nat>> {
    m[s := Get(m, s) + [i]]
  }

  predicate InRange(at: seq<nat>, n: nat) {
    forall j | 0 <= j < |at| :: at[j] < n
  }

  /** The index's three dictionaries. */
  datatype Table = ById | ByName | ByIdRowName

  /** Where a row is found: under its id, under its name (a row without a key under its rule's name), and an id row
      also under its rule's name. */
  predicate FoundUnder(t: Table, norm: string -> string, r: Row, s: string) {
    match t
    case ById => r.key == Some(IdKey(s))
    case ByName => r.key == Some(NameKey(s)) || (r.key.None? && s != "" && norm(r.ruleName) == s)
    case ByIdRowName => r.key.Some? && r.key.value.IdKey? && s != "" && norm(r.ruleName) == s
  }

  /** The positions of the rows found under `s`. */
  function Under(t: Table, norm: string -> string, rows: seq<Row>, s: string): (at: seq<nat>)
    ensures InRange(at, |rows|) && forall j | 0 <= j < |at| :: FoundUnder(t, norm, rows[at[j]], s)
  {
    if rows == [] then []
    else
      var before := Under(t, norm, rows[..|rows| - 1], s);
      if FoundUnder(t, norm, rows[|rows| - 1], s) then before + [|rows| - 1] else before
  }

  /** How one rule can appear in telemetry. */
  datatype RuleKeys = RuleKeys(ids: seq<string>, names: seq<string>)
  {
    /** Both lists are free of repetitions. */
    predicate Deduped() {
      && (forall i, j | 0 <= i < j < |ids| :: ids[i] != ids[j])
      && (forall i, j | 0 <= i < j < |names| :: names[i] != names[j])
    }

    function Candidates(): seq<Key> {
      IdKeys(ids) + NameKeys(names)
    }
  }

  function IdKeys(ids: seq<string>): seq<Key> {
    seq(|ids|, i requires 0 <= i < |ids| => IdKey(ids[i]))
  }

  function NameKeys(names: seq<string>): seq<Key> {
    seq(|names|, i requires 0 <= i < |names| => NameKey(names[i]))
  }

  function Chain(t: Table, norm: string -> string, rows: seq<Row>, keys: seq<string>): (at: seq<nat>)
    ensures InRange(at, |rows|)
  {
    if keys == [] then []
    else Chain(t, norm, rows, keys[..|keys| - 1]) + Under(t, norm, rows, keys[|keys| - 1])
  }

  /** Each position once, at its first occurrence. */
  function Unique(s: seq<nat>): (u: seq<nat>)
    ensures (forall x :: x in u <==> x in s) && forall j | 0 <= j < |u| :: u[j] in s
  {
    if s == [] then []
    else
      var before, x := Unique(s[..|s| - 1]), s[|s| - 1];
      assert s == s[..|s| - 1] + [x];
      if x in before then before else before + [x]
  }

  function OwnRows(norm: string -> string, rows: seq<Row>, keys: RuleKeys): (at: seq<nat>)
    ensures InRange(at, |rows|)
  {
    Unique(Chain(ById, norm, rows, keys.ids) + Chain(ByName, norm, rows, keys.names))
  }

  /** A rule's rows; only when it has none of its own, the id rows whose name matches. */
  function RowsOf(norm: string -> string, rows: seq<Row>, keys: RuleKeys): (at: seq<nat>)
    ensures InRange(at, |rows|)
  {
    var own := OwnRows(norm, rows, keys);
    if own != [] then own else Unique(Chain(ByIdRowName, norm, rows, keys.names))
  }

  function Pick(rows: seq<Row>, at: seq<nat>): (picked: seq<Row>)
    requires InRange(at, |rows|)
    ensures |picked| == |at|
  {
    if at == [] then [] else Pick(rows, at[..|at| - 1]) + [rows[at[|at| - 1]]]
  }

  function Sum(rows: seq<Row>): Totals {
    if rows == [] then NOTHING else Plus(Sum(rows[..|rows| - 1]), rows[|rows| - 1].counts)
  }

  ghost predicate IndexedUnder(m: map<string, seq<nat>>, t: Table, norm: string -> string, rows: seq<Row>) {
    forall s: string :: Get(m, s) == Under(t, norm, rows, s)
  }

  /** The one string a row is found under, if any. */
  function Place(t: Table, norm: string -> string, r: Row): Option<string> {
    var name := norm(r.ruleName);
    match t
    case ById => if r.key.Some? && r.key.value.IdKey? then Some(r.key.value.id) else None
    case ByName =>
      if r.key.Some? then if r.key.value.NameKey? then Some(r.key.value.name) else None
      else if name != "" then Some(name) else None
    case ByIdRowName => if r.key.Some? && r.key.value.IdKey? && name != "" then Some(name) else None
  }

  lemma FoundAtPlace(t: Table, norm: string -> string, r: Row, s: string)
    ensures FoundUnder(t, norm, r, s) <==> Place(t, norm, r) == Some(s)
  {
  }

  function Placed(m: map<string, seq<nat>>, at: Option<string>, i: nat): map<string, seq<nat>> {
    if at.Some? then PutAt(m, at.value, i) else m
  }

  /** A dictionary after all rows: each is put where it is found. */
  function Filled(t: Table, norm: string -> string, rows: seq<Row>): map<string, seq<nat>> {
    if rows == [] then map[]
    else Placed(Filled(t, norm, rows[..|rows| - 1]), Place(t, norm, rows[|rows| - 1]), |rows| - 1)
  }

  lemma FilledStep(t: Table, norm: string -> string, rows: seq<Row>, i: nat)
    requires i < |rows|
    ensures Filled(t, norm, rows[..i + 1]) == Placed(Filled(t, norm, rows[..i]), Place(t, norm, rows[i]), i)
  {
    assert rows[..i + 1][..i] == rows[..i];
  }

  lemma GetPlaced(m: map<string, seq<nat>>, at: Option<string>, i: nat, s: string)
    ensures Get(Placed(m, at, i), s) == if at == Some(s) then Get(m, s) + [i] else Get(m, s)
  {
  }

  /** It holds exactly the rows found under each string. */
  lemma {:induction false} FilledHolds(t: Table, norm: string -> string, rows: seq<Row>, s: string)
    ensures Get(Filled(t, norm, rows), s) == Under(t, norm, rows, s)
  {
    if rows != [] {
      var init, last := rows[..|rows| - 1], rows[|rows| - 1];
      FilledHolds(t, norm, init, s);
      FoundAtPlace(t, norm, last, s);
      GetPlaced(Filled(t, norm, init), Place(t, norm, last), |rows| - 1, s);
    }
  }

  lemma FilledIsIndex(t: Table, norm: string -> string, rows: seq<Row>)
    ensures IndexedUnder(Filled(t, norm, rows), t, norm, rows)
  {
    forall s: string ensures Get(Filled(t, norm, rows), s) == Under(t, norm, rows, s) {
      FilledHolds(t, norm, rows, s);
    }
  }

  /** The index over the rows of a query. */
  class TelemetryIndex {
    const rows: seq<Row>
    const norm: string -> string
    var byId: map<string, seq<nat>>
    var byName: map<string, seq<nat>>
    var byIdRowName: map<string, seq<nat>>

    /** The dictionaries hold exactly what the rows say. */
    ghost predicate Valid()
      reads this
    {
      && IndexedUnder(byId, ById, norm, rows) && IndexedUnder(byName, ByName, norm, rows)
      && IndexedUnder(byIdRowName, ByIdRowName, norm, rows)
    }

    constructor (rows: seq<Row>, norm: string -> string)
      ensures this.rows == rows && this.norm == norm && Valid()
    {
      this.rows, this.norm := rows, norm;
      new;
      byId, byName, byIdRowName := map[], map[], map[];
      for i := 0 to |rows|
        modifies this
        invariant byId == Filled(ById, norm, rows[..i]) && byName == Filled(ByName, norm, rows[..i])
        invariant byIdRowName == Filled(ByIdRowName, norm, rows[..i])
      {
        var row := rows[i];
        var name := norm(row.ruleName);
        FilledStep(ById, norm, rows, i);
        FilledStep(ByName, norm, rows, i);
        FilledStep(ByIdRowName, norm, rows, i);
        if row.key.Some? && row.key.value.IdKey? {
          byId := PutAt(byId, row.key.value.id, i);
          if name != "" {
            byIdRowName := PutAt(byIdRowName, name, i);
          }
        } else if row.key.Some? {
          byName := PutAt(byName, row.key.value.name, i);
        } else {
          if name != "" {
            byName := PutAt(byName, name, i);
          }
        }
      }
      assert rows[..|rows|] == rows;
      FilledIsIndex(ById, norm, rows);
      FilledIsIndex(ByName, norm, rows);
      FilledIsIndex(ByIdRowName, norm, rows);
    }

    method RowsFor(keys: RuleKeys) returns (at: seq<nat>)
      requires Valid()
      ensures at == RowsOf(norm, rows, keys)
    {
      var ids := Collect(byId, ById, norm, rows, keys.ids);
      var names := Collect(byName, ByName, norm, rows, keys.names);
      at := Unique(ids + names);
      if at != [] {
        return;
      }
      var others := Collect(byIdRowName, ByIdRowName, norm, rows, keys.names);
      at := Unique(others);
    }

    method Lookup(keys: RuleKeys) returns (totals: Option<Totals>)
      requires Valid()
      ensures totals == LookupOf(norm, rows, keys)
    {
      var at := RowsFor(keys);
      if at == [] {
        return None;
      }
      var t := MergeRows(Pick(rows, at));
      return Some(t);
    }
  }

  method Collect(m: map<string, seq<nat>>, ghost t: Table, ghost norm: string -> string, ghost rows: seq<Row>,
                 keys: seq<string>) returns (at: seq<nat>)
    requires IndexedUnder(m, t, norm, rows)
    ensures at == Chain(t, norm, rows, keys)
  {
    at := [];
    for i := 0 to |keys|
      invariant at == Chain(t, norm, rows, keys[..i])
    {
      assert keys[..i + 1][..i] == keys[..i];
      at := at + Get(m, keys[i]);
    }
    assert keys[..|keys|] == keys;
  }

  /** The sums of `merge_rows`. */
  method MergeRows(rows: seq<Row>) returns (t: Totals)
    ensures t == Sum(rows)
  {
    t := NOTHING;
    for i := 0 to |rows|
      invariant t == Sum(rows[..i])
    {
      assert rows[..i + 1][..i] == rows[..i];
      t := Plus(t, rows[i].counts);
    }
    assert rows[..|rows|] == rows;
  }

  function LookupOf(norm: string -> string, rows: seq<Row>, keys: RuleKeys): Option<Totals> {
    var at := RowsOf(norm, rows, keys);
    if at == [] then None else Some(Sum(Pick(rows, at)))
  }
}
