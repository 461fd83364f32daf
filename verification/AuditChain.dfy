// The hash-chained audit trail: records, chaining, the tail scan and the verifier.
module AuditChain {
  import opened Text
  import opened JsonText
  import T = Timestamps

  /** The digest of a record without its `record_hash`: SHA-256 hex of its JSON text. */
  type Digest = Doc -> string

  /** The digest the repository computes, given the hash of a text. */
  function JsonDigest(sha: string -> string): Digest {
    d => sha(Write(d))
  }

  const ZERO_HASH := "0000000000000000000000000000000000000000000000000000000000000000"

  /** No two dicts share a digest, and no digest is the chain's starting value or empty. */
  ghost predicate Ideal(digest: Digest) {
    && (forall x, y | DistinctKeys(x) && DistinctKeys(y) && digest(x) == digest(y) :: x == y)
    && (forall x :: digest(x) != ZERO_HASH && digest(x) != "")
  }

  /** An ideal text hash makes an ideal record digest, since the JSON text determines the dict. */
  lemma JsonDigestIdeal(sha: string -> string)
    requires forall s, t | sha(s) == sha(t) :: s == t
    requires forall s :: sha(s) != ZERO_HASH && sha(s) != ""
    ensures Ideal(JsonDigest(sha))
  {
    var digest := JsonDigest(sha);
    forall x, y | DistinctKeys(x) && DistinctKeys(y) && digest(x) == digest(y)
      ensures x == y
    {
      SameText(sha, Write(x), Write(y));
      WriteInjective(x, y);
    }
    forall x ensures digest(x) != ZERO_HASH && digest(x) != "" {
      assert digest(x) == sha(Write(x));
    }
  }

  lemma SameText(sha: string -> string, s: string, t: string)
    requires forall s, t | sha(s) == sha(t) :: s == t
    requires sha(s) == sha(t)
    ensures s == t
  {
  }

  // ---- records ----

  datatype Record = Record(
    timestamp: string, asset: string, id: string, action: string, status: string, sha: string, actor: string,
    workflowRun: Scalar, message: Scalar, metadataOwner: Scalar, workspace: Scalar, snippetDigest: Scalar,
    prevHash: string, recordHash: string)

  /** Every field but `record_hash`, in declaration order. */
  function Body(r: Record): Doc {
    [Entry("timestamp", Str(r.timestamp)), Entry("asset", Str(r.asset)), Entry("id", Str(r.id)),
     Entry("action", Str(r.action)), Entry("status", Str(r.status)), Entry("sha", Str(r.sha)),
     Entry("actor", Str(r.actor)), Entry("workflow_run", r.workflowRun), Entry("message", r.message),
     Entry("metadata_owner", r.metadataOwner), Entry("workspace", r.workspace),
     Entry("snippet_digest", r.snippetDigest), Entry("prev_hash", Str(r.prevHash))]
  }

  function ToDoc(r: Record): Doc {
    Body(r) + [Entry("record_hash", Str(r.recordHash))]
  }

  function ToJson(r: Record): string {
    Write(ToDoc(r))
  }

  // ---- parsed lines ----

  datatype Line = Blank | Unreadable | Obj(doc: Doc)

  function Get(d: Doc, k: string): Option<Scalar> {
    if d == [] then None else if d[0].key == k then Some(d[0].value) else Get(d[1..], k)
  }

  function Without(d: Doc, k: string): Doc {
    if d == [] then [] else (if d[0].key == k then [] else [d[0]]) + Without(d[1..], k)
  }

  /** The part of a dict that its `record_hash` covers. */
  function Hashed(d: Doc): Doc {
    Without(d, "record_hash")
  }

  function ParseLine(s: string): Line {
    if forall c | c in s :: IsSpace(c) then Blank
    else match ReadDoc(s)
      case None => Unreadable
      case Some(d) => Obj(d)
  }

  function ParseAll(ss: seq<string>): (ls: seq<Line>)
    ensures |ls| == |ss| && forall i | 0 <= i < |ss| :: ls[i] == ParseLine(ss[i])
  {
    if ss == [] then [] else [ParseLine(ss[0])] + ParseAll(ss[1..])
  }

  function Lines(text: string): seq<Line> {
    ParseAll(SplitLines(text))
  }

  // ---- chaining ----

  function Link(digest: Digest, r: Record, ts: string, prevHash: string): Record {
    var linked := r.(timestamp := ts, prevHash := prevHash, recordHash := "");
    linked.(recordHash := digest(Body(linked)))
  }

  /** The hash and timestamp the next record follows. */
  datatype Tail = Tail(hash: string, timestamp: string)

  const NO_TAIL := Tail(ZERO_HASH, "")

  function EndOf(done: seq<Record>, tail: Tail): Tail {
    if done == [] then tail else Tail(done[|done| - 1].recordHash, done[|done| - 1].timestamp)
  }

  /** One turn of the chaining loop; None when the timestamp bump overflows the calendar. */
  function ChainOne(digest: Digest, done: seq<Record>, r: Record, tail: Tail): Option<seq<Record>> {
    var end := EndOf(done, tail);
    match T.Monotonic(end.timestamp, r.timestamp)
    case None => None
    case Some(ts) => Some(done + [Link(digest, r, ts, end.hash)])
  }

  /** `_chain_records`. */
  function Chained(digest: Digest, records: seq<Record>, tail: Tail): (r: Option<seq<Record>>)
    ensures r.Some? ==> |r.value| == |records|
  {
    if records == [] then Some([])
    else match Chained(digest, records[..|records| - 1], tail)
      case None => None
      case Some(done) => ChainOne(digest, done, records[|records| - 1], tail)
  }

  lemma ChainedSnoc(digest: Digest, a: seq<Record>, r: Record, tail: Tail)
    ensures Chained(digest, a, tail).None? ==> Chained(digest, a + [r], tail).None?
    ensures Chained(digest, a, tail).Some? ==>
      Chained(digest, a + [r], tail) == ChainOne(digest, Chained(digest, a, tail).value, r, tail)
  {
    assert (a + [r])[..|a|] == a;
  }

  function Prepend(done: seq<Record>, more: Option<seq<Record>>): Option<seq<Record>> {
    match more
    case None => None
    case Some(m) => Some(done + m)
  }

  lemma ChainOneAfter(digest: Digest, done: seq<Record>, more: seq<Record>, r: Record, tail: Tail)
    ensures ChainOne(digest, done + more, r, tail) == Prepend(done, ChainOne(digest, more, r, EndOf(done, tail)))
  {
    assert EndOf(done + more, tail) == EndOf(more, EndOf(done, tail));
    var one := ChainOne(digest, more, r, EndOf(done, tail));
    if one.Some? {
      var x := one.value[|more|];
      assert done + more + [x] == done + (more + [x]);
    }
  }

  /** Chaining two batches one after the other is chaining their concatenation. */
  lemma {:induction false} ChainedConcat(digest: Digest, a: seq<Record>, b: seq<Record>, tail: Tail)
    ensures Chained(digest, a, tail).None? ==> Chained(digest, a + b, tail).None?
    ensures Chained(digest, a, tail).Some? ==>
      var done := Chained(digest, a, tail).value;
      Chained(digest, a + b, tail) == Prepend(done, Chained(digest, b, EndOf(done, tail)))
  {
    if b == [] {
      assert a + b == a;
      if Chained(digest, a, tail).Some? {
        assert Chained(digest, a, tail).value + [] == Chained(digest, a, tail).value;
      }
    } else {
      var b', r := b[..|b| - 1], b[|b| - 1];
      assert a + b == (a + b') + [r] by { assert b == b' + [r]; }
      ChainedConcat(digest, a, b', tail);
      ChainedSnoc(digest, a + b', r, tail);
      if Chained(digest, a, tail).Some? {
        var done := Chained(digest, a, tail).value;
        var more := Chained(digest, b', EndOf(done, tail));
        if more.Some? {
          ChainOneAfter(digest, done, more.value, r, tail);
        }
      }
    }
  }

  lemma ChainOneHere(digest: Digest, done: seq<Record>, r: Record, tail: Tail, prev: string, ts: string)
    requires EndOf(done, tail) == Tail(prev, ts)
    ensures var bumped := T.Monotonic(ts, r.timestamp);
      if bumped.None? then ChainOne(digest, done, r, tail).None?
      else
        var one := Link(digest, r, bumped.value, prev);
        && ChainOne(digest, done, r, tail) == Some(done + [one])
        && EndOf(done + [one], tail) == Tail(one.recordHash, bumped.value)
  {
  }

  lemma NoneStaysNone(digest: Digest, records: seq<Record>, i: nat, tail: Tail)
    requires i <= |records| && Chained(digest, records[..i], tail).None?
    ensures Chained(digest, records, tail).None?
  {
    assert records == records[..i] + records[i..];
    ChainedConcat(digest, records[..i], records[i..], tail);
  }

  /** The loop of `_chain_records`, with its running hash and timestamp. */
  method ChainRecords(digest: Digest, records: seq<Record>, tail: Tail) returns (chained: Option<seq<Record>>)
    ensures chained == Chained(digest, records, tail)
  {
    var done: seq<Record> := [];
    var currentPrev, currentTs := tail.hash, tail.timestamp;
    for i := 0 to |records|
      invariant Chained(digest, records[..i], tail) == Some(done)
      invariant EndOf(done, tail) == Tail(currentPrev, currentTs)
    {
      assert records[..i + 1] == records[..i] + [records[i]];
      ChainedSnoc(digest, records[..i], records[i], tail);
      ChainOneHere(digest, done, records[i], tail, currentPrev, currentTs);
      var bumped := T.Monotonic(currentTs, records[i].timestamp);
      if bumped.None? {
        NoneStaysNone(digest, records, i + 1, tail);
        return None;
      }
      var r := Link(digest, records[i], bumped.value, currentPrev);
      done := done + [r];
      currentPrev, currentTs := r.recordHash, bumped.value;
    }
    assert records[..|records|] == records;
    return Some(done);
  }

  // ---- tail and verifier, over all lines of all files in date order ----

  /** The tail a line gives, if it can: a non-empty string `record_hash`. */
  function TailAt(line: Line): Option<Tail> {
    if !line.Obj? then None
    else match Get(line.doc, "record_hash")
      case Some(Str(h)) =>
        if h == "" then None
        else Some(Tail(h, match Get(line.doc, "timestamp") { case Some(Str(ts)) => ts case _ => "" }))
      case _ => None
  }

  /** `_last_record_tail`: the last line that gives a tail. */
  function TailOf(lines: seq<Line>): Tail {
    if lines == [] then NO_TAIL
    else match TailAt(lines[|lines| - 1])
      case Some(t) => t
      case None => TailOf(lines[..|lines| - 1])
  }

  /** `expected_prev` and `prev_timestamp` of the verifier's walk. */
  datatype Cursor = Cursor(prev: Scalar, floor: string)

  const START := Cursor(Str(ZERO_HASH), "")

  predicate Chainable(line: Line) {
    line.Obj? && Get(line.doc, "record_hash").Some? && Get(line.doc, "prev_hash").Some?
  }

  function Advance(c: Cursor, line: Line): Cursor {
    if !Chainable(line) then c
    else Cursor(Get(line.doc, "record_hash").value,
      match Get(line.doc, "timestamp") {
        case Some(Str(ts)) => if ts == "" then c.floor else ts
        case _ => c.floor })
  }

  function CursorOf(lines: seq<Line>): Cursor {
    if lines == [] then START else Advance(CursorOf(lines[..|lines| - 1]), lines[|lines| - 1])
  }

  datatype Reason = MissingField | RecordHashInvalid | PrevHashMismatch | TimestampRegression

  function LinkFaults(digest: Digest, c: Cursor, d: Doc): seq<Reason> {
    if Get(d, "record_hash") != Some(Str(digest(Hashed(d)))) then [RecordHashInvalid]
    else if Get(d, "prev_hash") != Some(c.prev) then [PrevHashMismatch]
    else []
  }

  function ClockFaults(c: Cursor, d: Doc): seq<Reason> {
    match Get(d, "timestamp")
    case Some(Str(ts)) => if c.floor != "" && Before(ts, c.floor) then [TimestampRegression] else []
    case _ => []
  }

  /** What the verifier reports at one line. */
  function Faults(digest: Digest, c: Cursor, line: Line): seq<Reason> {
    match line
    case Blank => []
    case Unreadable => [MissingField]
    case Obj(d) => if Chainable(line) then LinkFaults(digest, c, d) + ClockFaults(c, d) else [MissingField]
  }

  /** The verifier walks `lines` and reports nothing. */
  predicate Clean(digest: Digest, lines: seq<Line>) {
    lines == [] ||
    (Clean(digest, lines[..|lines| - 1]) && Faults(digest, CursorOf(lines[..|lines| - 1]), lines[|lines| - 1]) == [])
  }

  lemma CleanSnoc(digest: Digest, lines: seq<Line>, line: Line)
    ensures Clean(digest, lines + [line]) <==> Clean(digest, lines) && Faults(digest, CursorOf(lines), line) == []
    ensures CursorOf(lines + [line]) == Advance(CursorOf(lines), line)
    ensures TailOf(lines + [line]) == match TailAt(line) { case Some(t) => t case None => TailOf(lines) }
  {
    assert (lines + [line])[..|lines|] == lines;
  }

  lemma {:induction false} CleanPrefix(digest: Digest, a: seq<Line>, b: seq<Line>)
    requires Clean(digest, a + b)
    ensures Clean(digest, a)
  {
    if b == [] {
      assert a + b == a;
    } else {
      var b' := b[..|b| - 1];
      assert a + b == (a + b') + [b[|b| - 1]];
      CleanSnoc(digest, a + b', b[|b| - 1]);
      CleanPrefix(digest, a, b');
    }
  }

  // ---- what a written record looks like once read back ----

  lemma {:induction false} KeysAt(d: Doc, k: string)
    ensures k in Keys(d) <==> exists i :: 0 <= i < |d| && d[i].key == k
  {
    if d != [] {
      KeysAt(d[1..], k);
      if k in Keys(d[1..]) {
        var i :| 0 <= i < |d| - 1 && d[1..][i].key == k;
        assert d[i + 1].key == k;
      }
      if i :| 0 < i < |d| && d[i].key == k {
        assert d[1..][i - 1].key == k;
      }
    }
  }

  lemma {:induction false} DistinctByIndex(d: Doc)
    requires forall i, j | 0 <= i < j < |d| :: d[i].key != d[j].key
    ensures DistinctKeys(d)
  {
    if d != [] {
      DistinctByIndex(d[1..]);
      KeysAt(d[1..], d[0].key);
    }
  }

  /** Tells the field names apart by length and last character. */
  function Signature(k: string): int
    requires k != []
  {
    0x110000 * |k| + k[|k| - 1] as int
  }

  lemma DocKeys(r: Record)
    ensures DistinctKeys(ToDoc(r))
  {
    var d := ToDoc(r);
    assert |d| == 14;
    assert Signature(d[0].key) == 0x110000 * 9 + 'p' as int && Signature(d[1].key) == 0x110000 * 5 + 't' as int;
    assert Signature(d[2].key) == 0x110000 * 2 + 'd' as int && Signature(d[3].key) == 0x110000 * 6 + 'n' as int;
    assert Signature(d[4].key) == 0x110000 * 6 + 's' as int && Signature(d[5].key) == 0x110000 * 3 + 'a' as int;
    assert Signature(d[6].key) == 0x110000 * 5 + 'r' as int && Signature(d[7].key) == 0x110000 * 12 + 'n' as int;
    assert Signature(d[8].key) == 0x110000 * 7 + 'e' as int && Signature(d[9].key) == 0x110000 * 14 + 'r' as int;
    assert Signature(d[10].key) == 0x110000 * 9 + 'e' as int && Signature(d[11].key) == 0x110000 * 14 + 't' as int;
    assert Signature(d[12].key) == 0x110000 * 9 + 'h' as int && Signature(d[13].key) == 0x110000 * 11 + 'h' as int;
    forall i, j | 0 <= i < j < |d| ensures d[i].key != d[j].key {
      assert Signature(d[i].key) != Signature(d[j].key);
    }
    DistinctByIndex(d);
  }

  lemma {:induction false} DistinctPrefix(d: Doc, e: Entry)
    requires DistinctKeys(d + [e])
    ensures DistinctKeys(d) && e.key !in Keys(d)
  {
    if d != [] {
      assert (d + [e])[1..] == d[1..] + [e];
      DistinctPrefix(d[1..], e);
      KeysAppend(d[1..], e);
    }
  }

  lemma {:induction false} WithoutAbsent(d: Doc, e: Entry)
    requires e.key !in Keys(d)
    ensures Without(d + [e], e.key) == d && Get(d + [e], e.key) == Some(e.value)
    ensures forall k | k != e.key :: Get(d + [e], k) == Get(d, k)
  {
    if d == [] {
      assert d + [e] == [e];
    } else {
      assert (d + [e])[1..] == d[1..] + [e];
      WithoutAbsent(d[1..], e);
    }
  }

  lemma DocOfRecord(r: Record)
    ensures DistinctKeys(ToDoc(r))
    ensures Hashed(ToDoc(r)) == Body(r)
    ensures Get(ToDoc(r), "record_hash") == Some(Str(r.recordHash))
    ensures Get(ToDoc(r), "prev_hash") == Some(Str(r.prevHash))
    ensures Get(ToDoc(r), "timestamp") == Some(Str(r.timestamp))
  {
    DocKeys(r);
    var e := Entry("record_hash", Str(r.recordHash));
    DistinctPrefix(Body(r), e);
    WithoutAbsent(Body(r), e);
    var init, last := Body(r)[..12], Body(r)[12];
    assert Body(r) == init + [last];
    DistinctPrefix(init, last);
    WithoutAbsent(init, last);
    assert last.key != e.key by { assert |last.key| != |e.key|; }
    assert ToDoc(r)[0].key == "timestamp";
  }

  lemma {:induction false} GetAt(d: Doc, i: nat)
    requires DistinctKeys(d) && i < |d|
    ensures Get(d, d[i].key) == Some(d[i].value)
  {
    if i > 0 {
      KeysAt(d[1..], d[i].key);
      assert d[1..][i - 1] == d[i];
      GetAt(d[1..], i - 1);
    }
  }

  const FIELD_NAMES := ["timestamp", "asset", "id", "action", "status", "sha", "actor", "workflow_run", "message",
                        "metadata_owner", "workspace", "snippet_digest", "prev_hash", "record_hash"]

  function FieldValues(r: Record): (vs: seq<Scalar>)
    ensures |vs| == |FIELD_NAMES|
  {
    [Str(r.timestamp), Str(r.asset), Str(r.id), Str(r.action), Str(r.status), Str(r.sha), Str(r.actor), r.workflowRun,
     r.message, r.metadataOwner, r.workspace, r.snippetDigest, Str(r.prevHash), Str(r.recordHash)]
  }

  lemma FieldsInOrder(r: Record, i: nat)
    requires i < |FIELD_NAMES|
    ensures |ToDoc(r)| == |FIELD_NAMES|
    ensures ToDoc(r)[i].key == FIELD_NAMES[i] && ToDoc(r)[i].value == FieldValues(r)[i]
  {
    if i == |FIELD_NAMES| - 1 {
      assert ToDoc(r)[i] == Entry("record_hash", Str(r.recordHash));
    } else {
      assert ToDoc(r)[i] == Body(r)[i];
    }
  }

  /** A written record reads back field by field, each under its own key and in the order of declaration. */
  lemma RecordReadsBack(r: Record, i: nat)
    requires i < |FIELD_NAMES|
    ensures ReadDoc(ToJson(r)) == Some(ToDoc(r)) && |ToDoc(r)| == |FIELD_NAMES|
    ensures ToDoc(r)[i].key == FIELD_NAMES[i] && Get(ToDoc(r), FIELD_NAMES[i]) == Some(FieldValues(r)[i])
  {
    DocOfRecord(r);
    ReadDocOfWrite(ToDoc(r));
    FieldsInOrder(r, i);
    GetAt(ToDoc(r), i);
  }
}
