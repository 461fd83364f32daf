// When a written batch verifies: exactly which batches keep a clean directory clean.
module AuditWrites {
  import opened Text
  import opened JsonText
  import opened AuditChain
  import opened AuditLinks
  import opened AuditFiles
  import T = Timestamps

  /** One bump cannot go backwards: only an unparsable predecessor with an earlier candidate can. */
  predicate SteadyStep(prev: string, candidate: string) {
    prev == "" || prev == candidate || Before(prev, candidate) || T.WellFormed(prev)
  }

  /** The timestamp the chain ends with after `records` are appended behind `prev`. */
  function ClockAfter(records: seq<Record>, prev: string): Option<string> {
    if records == [] then Some(prev)
    else match ClockAfter(records[..|records| - 1], prev)
      case None => None
      case Some(ts) => T.Monotonic(ts, records[|records| - 1].timestamp)
  }

  /** No record of the batch meets an unparsable, later predecessor. */
  predicate Steady(records: seq<Record>, prev: string) {
    records == [] ||
    var init := records[..|records| - 1];
    Steady(init, prev) &&
    match ClockAfter(init, prev)
    case None => true
    case Some(ts) => SteadyStep(ts, records[|records| - 1].timestamp)
  }

  lemma {:induction false} ClockOfChained(digest: Digest, records: seq<Record>, tail: Tail)
    ensures Chained(digest, records, tail).Some? <==> ClockAfter(records, tail.timestamp).Some?
    ensures Chained(digest, records, tail).Some? ==>
      ClockAfter(records, tail.timestamp) == Some(EndOf(Chained(digest, records, tail).value, tail).timestamp)
  {
    if records != [] {
      ClockOfChained(digest, records[..|records| - 1], tail);
    }
  }

  /** The clock part of one step: a regression is reported exactly when the step is not steady. */
  lemma StepIsSteady(prev: string, candidate: string, ts: string)
    requires T.Monotonic(prev, candidate) == Some(ts)
    ensures SteadyStep(prev, candidate) <==> !(prev != "" && Before(ts, prev))
    ensures SteadyStep(prev, candidate) ==> (ts == "" ==> prev == "")
  {
    BeforeTotal(prev, candidate);
    BeforeIrreflexive(prev);
    if Before(prev, candidate) {
      BeforeAsymmetric(prev, candidate);
    }
    if Before(candidate, prev) {
      BeforeAsymmetric(candidate, prev);
    }
    if T.WellFormed(prev) {
      T.MonotonicAdvances(prev, candidate);
      BeforeAsymmetric(prev, ts);
    }
  }

  /** The verifier stands exactly where the next batch will continue. */
  predicate InStep(lines: seq<Line>) {
    CursorOf(lines) == Cursor(Str(TailOf(lines).hash), TailOf(lines).timestamp)
  }

  /** `line` holds a record that continues the chain from `before` to `after`. */
  predicate Continues(digest: Digest, before: Tail, line: Line, after: Tail) {
    && line.Obj? && after.hash == digest(Hashed(line.doc))
    && Get(line.doc, "record_hash") == Some(Str(after.hash))
    && Get(line.doc, "prev_hash") == Some(Str(before.hash))
    && Get(line.doc, "timestamp") == Some(Str(after.timestamp))
  }

  lemma ContinueVerifiesIff(digest: Digest, lines: seq<Line>, line: Line, before: Tail, after: Tail)
    requires Ideal(digest) && Clean(digest, lines) && InStep(lines) && Continues(digest, before, line, after)
    requires before == TailOf(lines)
    ensures Clean(digest, lines + [line]) <==>
      !(before.timestamp != "" && Before(after.timestamp, before.timestamp))
    ensures (after.timestamp == "" ==> before.timestamp == "") ==>
      InStep(lines + [line]) && TailOf(lines + [line]) == after
  {
    CleanSnoc(digest, lines, line);
    assert LinkFaults(digest, CursorOf(lines), line.doc) == [];
    assert Faults(digest, CursorOf(lines), line) == ClockFaults(CursorOf(lines), line.doc);
    assert TailAt(line) == Some(after);
  }

  lemma WrittenContinues(digest: Digest, r: Record, ts: string, hash: string)
    ensures Link(digest, r, ts, hash).timestamp == ts
    ensures Continues(digest, Tail(hash, ""), Obj(ToDoc(Link(digest, r, ts, hash))),
      Tail(Link(digest, r, ts, hash).recordHash, ts))
  {
    var l := Link(digest, r, ts, hash);
    DocOfRecord(l);
    assert Body(l) == Body(l.(recordHash := ""));
  }

  /** The last record of a chained batch, and the batch before it. */
  lemma LastLink(digest: Digest, records: seq<Record>, tail: Tail) returns (end: Tail, after: Tail, line: Line)
    requires records != [] && Chained(digest, records, tail).Some?
    ensures var init := records[..|records| - 1]; var done := Chained(digest, records, tail).value;
      && Chained(digest, init, tail).Some?
      && end == EndOf(Chained(digest, init, tail).value, tail) && after == EndOf(done, tail)
      && Objs(done) == Objs(Chained(digest, init, tail).value) + [line]
      && Continues(digest, end, line, after)
      && T.Monotonic(end.timestamp, records[|records| - 1].timestamp) == Some(after.timestamp)
  {
    var init, last := records[..|records| - 1], records[|records| - 1];
    var done' := Chained(digest, init, tail).value;
    end := EndOf(done', tail);
    var ts := T.Monotonic(end.timestamp, last.timestamp).value;
    var l := Link(digest, last, ts, end.hash);
    WrittenContinues(digest, last, ts, end.hash);
    var done := Chained(digest, records, tail).value;
    assert done == done' + [l] && done[..|done| - 1] == done';
    line := Obj(ToDoc(l));
    after := Tail(l.recordHash, ts);
  }

  /** One more line behind lines of which it is known when they verify. */
  lemma StepVerifiesIff(digest: Digest, all: seq<Line>, line: Line, end: Tail, after: Tail,
                        candidate: string, steady: bool)
    requires Ideal(digest) && Continues(digest, end, line, after)
    requires T.Monotonic(end.timestamp, candidate) == Some(after.timestamp)
    requires (Clean(digest, all) <==> steady) && (Clean(digest, all) ==> InStep(all) && TailOf(all) == end)
    ensures Clean(digest, all + [line]) <==> steady && SteadyStep(end.timestamp, candidate)
    ensures Clean(digest, all + [line]) ==> InStep(all + [line]) && TailOf(all + [line]) == after
  {
    StepIsSteady(end.timestamp, candidate, after.timestamp);
    if steady {
      ContinueVerifiesIff(digest, all, line, end, after);
    } else {
      CleanSnoc(digest, all, line);
    }
  }

  lemma SteadySnoc(records: seq<Record>, prev: string, ts: string)
    requires records != [] && ClockAfter(records[..|records| - 1], prev) == Some(ts)
    ensures Steady(records, prev) <==>
      Steady(records[..|records| - 1], prev) && SteadyStep(ts, records[|records| - 1].timestamp)
  {
  }

  lemma AppendLine(lines: seq<Line>, objs: seq<Line>, line: Line)
    ensures lines + (objs + [line]) == lines + objs + [line]
  {
  }

  /** Records chained behind the tail of clean lines verify exactly when the batch is steady. */
  lemma {:induction false} ChainedVerifiesIff(digest: Digest, lines: seq<Line>, records: seq<Record>)
    requires Ideal(digest) && Clean(digest, lines) && InStep(lines)
    requires Chained(digest, records, TailOf(lines)).Some?
    ensures var done := Chained(digest, records, TailOf(lines)).value; var all := lines + Objs(done);
      && (Clean(digest, all) <==> Steady(records, TailOf(lines).timestamp))
      && (Clean(digest, all) ==> InStep(all) && TailOf(all) == EndOf(done, TailOf(lines)))
  {
    var tail := TailOf(lines);
    if records == [] {
      assert lines + Objs([]) == lines;
    } else {
      var init, last := records[..|records| - 1], records[|records| - 1];
      var end, after, line := LastLink(digest, records, tail);
      ChainedVerifiesIff(digest, lines, init);
      ClockOfChained(digest, init, tail);
      SteadySnoc(records, tail.timestamp, end.timestamp);
      var objs := Objs(Chained(digest, init, tail).value);
      AppendLine(lines, objs, line);
      StepVerifiesIff(digest, lines + objs, line, end, after, last.timestamp, Steady(init, tail.timestamp));
    }
  }

  /** The first line of a chained batch points at the tail it was chained behind. */
  lemma {:induction false} FirstLine(digest: Digest, records: seq<Record>, tail: Tail)
    requires records != [] && Chained(digest, records, tail).Some?
    ensures var objs := Objs(Chained(digest, records, tail).value);
      objs != [] && objs[0].Obj? && Get(objs[0].doc, "prev_hash") == Some(Str(tail.hash)) &&
      Get(objs[0].doc, "record_hash") == Some(Str(digest(Hashed(objs[0].doc))))
  {
    var init := records[..|records| - 1];
    var end, after, line := LastLink(digest, records, tail);
    if init != [] {
      FirstLine(digest, init, tail);
    } else {
      assert Chained(digest, init, tail) == Some([]);
      assert end == tail;
    }
  }

  lemma FirstOf(lines: seq<Line>, more: seq<Line>, one: seq<Line>)
    requires more != [] && one == lines + [more[0]]
    ensures lines + more == one + more[1..]
  {
  }

  /** A record the verifier passes points at where the walk stands. */
  lemma PassedLinks(digest: Digest, c: Cursor, line: Line, hash: string)
    requires Chainable(line) && Faults(digest, c, line) == [] && Get(line.doc, "prev_hash") == Some(Str(hash))
    ensures c.prev == Str(hash)
  {
    assert LinkFaults(digest, c, line.doc) == [];
  }

  lemma PassedAfter(digest: Digest, lines: seq<Line>, line: Line, one: seq<Line>)
    requires one == lines + [line] && Clean(digest, one)
    ensures Faults(digest, CursorOf(lines), line) == []
  {
    CleanSnoc(digest, lines, line);
  }

  lemma HeadLine(digest: Digest, lines: seq<Line>, more: seq<Line>, hash: string)
    requires more != [] && Clean(digest, lines + more) && Chainable(more[0])
    requires Get(more[0].doc, "prev_hash") == Some(Str(hash))
    ensures CursorOf(lines).prev == Str(hash)
  {
    var one := lines + [more[0]];
    FirstOf(lines, more, one);
    CleanPrefix(digest, one, more[1..]);
    PassedAfter(digest, lines, more[0], one);
    PassedLinks(digest, CursorOf(lines), more[0], hash);
  }

  /** A batch inserted before lines that hold records, but chained behind them, is reported. */
  lemma InsertedIsReported(digest: Digest, a: seq<Line>, b: seq<Line>, records: seq<Record>)
    requires Ideal(digest) && Clean(digest, a + b) && DistinctDocs(Docs(a + b)) && Docs(b) != []
    requires records != [] && Chained(digest, records, TailOf(a + b)).Some?
    ensures !Clean(digest, a + Objs(Chained(digest, records, TailOf(a + b)).value))
  {
    var tail := TailOf(a + b);
    var objs := Objs(Chained(digest, records, tail).value);
    if Clean(digest, a + objs) {
      FirstLine(digest, records, tail);
      HeadLine(digest, a, objs, tail.hash);
      TailIsHead(digest, a + b);
      CleanPrefix(digest, a, b);
      CleanIsLinked(digest, a);
      CleanIsLinked(digest, a + b);
      DocsConcat(a, b);
      HeadsNeverRepeat(digest, Docs(a), Docs(b));
      assert false;
    }
  }

  lemma AppendedVerifiesIff(digest: Digest, a: seq<Line>, b: seq<Line>, records: seq<Record>)
    requires Ideal(digest) && Clean(digest, a + b) && InStep(a + b) && Idle(b)
    requires Chained(digest, records, TailOf(a + b)).Some?
    ensures var all := a + Objs(Chained(digest, records, TailOf(a + b)).value) + b;
      && (Clean(digest, all) <==> Steady(records, TailOf(a + b).timestamp))
      && (Clean(digest, all) ==> InStep(all))
  {
    IdleAppend(digest, a, b);
    var objs := Objs(Chained(digest, records, TailOf(a)).value);
    ChainedVerifiesIff(digest, a, records);
    IdleAppend(digest, a + objs, b);
  }

  /** Records chained behind `a + b` and placed between them. */
  lemma PlacedVerifiesIff(digest: Digest, a: seq<Line>, b: seq<Line>, records: seq<Record>)
    requires Ideal(digest) && Clean(digest, a + b) && InStep(a + b) && DistinctDocs(Docs(a + b))
    requires Chained(digest, records, TailOf(a + b)).Some?
    ensures var all := a + Objs(Chained(digest, records, TailOf(a + b)).value) + b;
      && (Clean(digest, all) <==> records == [] || (Docs(b) == [] && Steady(records, TailOf(a + b).timestamp)))
      && (Clean(digest, all) ==> InStep(all))
  {
    var objs := Objs(Chained(digest, records, TailOf(a + b)).value);
    CleanIsLinked(digest, a + b);
    assert forall l | l in b :: l in a + b;
    IdleHasNoDocs(b);
    if records == [] {
      assert a + [] + b == a + b;
    } else if Docs(b) == [] {
      AppendedVerifiesIff(digest, a, b, records);
    } else {
      InsertedIsReported(digest, a, b, records);
      if Clean(digest, a + objs + b) {
        CleanPrefix(digest, a + objs, b);
      }
    }
  }

  /** The directory verifies, ends its lines, and the tail scan agrees with the verifier's walk. */
  ghost predicate Good(digest: Digest, files: seq<File>) {
    Dated(files) && Tidy(files) && Clean(digest, Flat(files)) && InStep(Flat(files))
  }

  /** Later files hold no record. */
  predicate NothingLater(files: seq<File>, day: nat) {
    Docs(Flat(Later(files, day))) == []
  }

  /** The lines before today's new ones, and the lines after them. */
  function Front(files: seq<File>, day: nat): seq<Line> {
    Flat(Earlier(files, day)) + Lines(TextAt(files, day))
  }

  function Back(files: seq<File>, day: nat): seq<Line> {
    Flat(Later(files, day))
  }

  lemma Regroup<T>(a: seq<T>, b: seq<T>, c: seq<T>, d: seq<T>)
    ensures a + (b + c) + d == (a + b) + c + d
  {
  }

  lemma WrittenShape(digest: Digest, files: seq<File>, day: nat, records: seq<Record>)
    requires Dated(files) && Tidy(files) && Chained(digest, records, TailOf(Flat(files))).Some?
    ensures Flat(files) == Front(files, day) + Back(files, day)
    ensures var w := Written(digest, files, day, records).value;
      && Dated(w) && Tidy(w)
      && Flat(w) == Front(files, day) + Objs(Chained(digest, records, TailOf(Flat(files))).value) + Back(files, day)
  {
    FrontThenBack(files, day);
    ReplacedShape(files, day, Chained(digest, records, TailOf(Flat(files))).value);
  }

  lemma FrontThenBack(files: seq<File>, day: nat)
    ensures Flat(files) == Front(files, day) + Back(files, day)
  {
    FlatSplits(files, day);
  }

  lemma ReplacedShape(files: seq<File>, day: nat, done: seq<Record>)
    requires Dated(files) && Tidy(files)
    ensures var w := Replace(files, day, TextAt(files, day) + Serialise(done));
      && Dated(w) && Tidy(w)
      && Flat(w) == Front(files, day) + Objs(done) + Back(files, day)
  {
    var was := TextAt(files, day);
    var text := was + Serialise(done);
    assert EndsLine(was) by {
      if Exists(files, day) { assert files[Pos(files, day)] in files; }
    }
    AppendBatch(was, done);
    ReplaceKeepsDated(files, day, text);
    ReplaceKeepsTidy(files, day, text);
    FlatOfReplace(files, day, text);
    Regroup(Flat(Earlier(files, day)), Lines(was), Objs(done), Flat(Later(files, day)));
  }

  lemma FlatOfReplace(files: seq<File>, day: nat, text: string)
    ensures Flat(Replace(files, day, text)) == Flat(Earlier(files, day)) + Lines(text) + Flat(Later(files, day))
  {
    FlatSplits(files, day);
  }

  lemma ReplaceKeepsTidy(files: seq<File>, day: nat, text: string)
    requires Tidy(files) && EndsLine(text)
    ensures Tidy(Replace(files, day, text))
  {
    forall f | f in Replace(files, day, text) ensures EndsLine(f.text) {
      assert f in files || f == File(day, text);
    }
  }

  /** The exact condition: a batch keeps a clean directory clean iff it is empty, or no later file holds
      a record and the batch is steady behind the current tail. */
  lemma WriteVerifiesIff(digest: Digest, files: seq<File>, day: nat, records: seq<Record>)
    requires Ideal(digest) && Good(digest, files) && Written(digest, files, day, records).Some?
    ensures Clean(digest, Flat(Written(digest, files, day, records).value)) <==>
      (records == [] || (NothingLater(files, day) && Steady(records, TailOf(Flat(files)).timestamp)))
    ensures Clean(digest, Flat(Written(digest, files, day, records).value)) ==>
      Good(digest, Written(digest, files, day, records).value)
  {
    WrittenShape(digest, files, day, records);
    FlatIsDistinct(files);
    PlacedVerifiesIff(digest, Front(files, day), Back(files, day), records);
  }

  /** The condition is not idle: an unparsable timestamp followed by an earlier one is reported. */
  lemma UnparsableTimestampRegresses(digest: Digest, r: Record)
    requires Ideal(digest)
    ensures var batch := [r.(timestamp := "z"), r.(timestamp := "y")];
      && Good(digest, []) && Written(digest, [], 0, batch).Some?
      && !Clean(digest, Flat(Written(digest, [], 0, batch).value))
  {
    var batch := [r.(timestamp := "z"), r.(timestamp := "y")];
    assert T.Scan("z", T.SHAPE).None?;
    assert batch[..1] == [batch[0]] && batch[..1][..0] == [];
    assert Before("y", "z") && !Before("z", "y");
    assert T.Monotonic("", "z") == Some("z");
    assert T.Monotonic("z", "y") == Some("y");
    assert ClockAfter(batch[..1], "") == Some("z");
    assert ClockAfter(batch, "") == Some("y");
    ClockOfChained(digest, batch, NO_TAIL);
    assert !SteadyStep("z", "y");
    assert !Steady(batch, "");
    WriteVerifiesIff(digest, [], 0, batch);
  }
}
