// Whole runs over an audit directory: what any sequence of batches leaves behind, and when it verifies.
module AuditRuns {
  import opened Text
  import opened JsonText
  import opened AuditChain
  import opened AuditLinks
  import opened AuditFiles
  import opened AuditWrites
  import T = Timestamps

  // ---- chained, whatever the timestamps ----

  /** Every line is blank or holds a record, and each record carries its own digest and its predecessor's. */
  ghost predicate Chains(digest: Digest, lines: seq<Line>) {
    Linked(digest, Docs(lines)) && forall l | l in lines :: !l.Unreadable?
  }

  /** The directory ends its lines and is one chain. */
  ghost predicate Intact(digest: Digest, files: seq<File>) {
    Dated(files) && Tidy(files) && Chains(digest, Flat(files))
  }

  lemma GoodIsIntact(digest: Digest, files: seq<File>)
    requires Good(digest, files)
    ensures Intact(digest, files)
  {
    CleanIsLinked(digest, Flat(files));
  }

  lemma ChainsInit(digest: Digest, lines: seq<Line>)
    requires lines != [] && Chains(digest, lines)
    ensures Chains(digest, lines[..|lines| - 1])
    ensures lines[|lines| - 1].Obj? ==>
      Get(lines[|lines| - 1].doc, "record_hash") == Some(Str(digest(Hashed(lines[|lines| - 1].doc))))
  {
    var init, last := lines[..|lines| - 1], lines[|lines| - 1];
    assert lines == init + [last];
    if last.Obj? {
      DocsSnoc(init, last);
      assert Docs(lines)[..|Docs(init)|] == Docs(init);
    } else {
      assert Docs(lines) == Docs(init);
    }
  }

  /** The tail scan ends at the chain's head. */
  lemma {:induction false} HeadIsTail(digest: Digest, lines: seq<Line>)
    requires Chains(digest, lines) && forall x :: digest(x) != ""
    ensures HeadOf(Docs(lines)) == Some(Str(TailOf(lines).hash))
  {
    if lines != [] {
      var last := lines[|lines| - 1];
      assert last in lines;
      ChainsInit(digest, lines);
      HeadIsTail(digest, lines[..|lines| - 1]);
      if last.Obj? {
        assert digest(Hashed(last.doc)) != "";
      }
    }
  }

  lemma DocsSnoc(lines: seq<Line>, line: Line)
    requires line.Obj?
    ensures Docs(lines + [line]) == Docs(lines) + [line.doc]
  {
    assert (lines + [line])[..|lines|] == lines;
  }

  lemma LinkedSnoc(digest: Digest, docs: seq<Doc>, d: Doc)
    requires Linked(digest, docs) && Get(d, "prev_hash") == HeadOf(docs)
    requires Get(d, "record_hash") == Some(Str(digest(Hashed(d))))
    ensures Linked(digest, docs + [d])
  {
    assert (docs + [d])[..|docs|] == docs;
  }

  lemma ContinueChains(digest: Digest, lines: seq<Line>, line: Line, after: Tail)
    requires Ideal(digest) && Chains(digest, lines) && Continues(digest, TailOf(lines), line, after)
    ensures Chains(digest, lines + [line]) && TailOf(lines + [line]) == after
  {
    HeadIsTail(digest, lines);
    DocsSnoc(lines, line);
    LinkedSnoc(digest, Docs(lines), line.doc);
    CleanSnoc(digest, lines, line);
    assert TailAt(line) == Some(after);
  }

  /** Records chained behind the tail of a chain continue it, whatever their timestamps. */
  lemma {:induction false} ChainedChains(digest: Digest, lines: seq<Line>, records: seq<Record>)
    requires Ideal(digest) && Chains(digest, lines) && Chained(digest, records, TailOf(lines)).Some?
    ensures var done := Chained(digest, records, TailOf(lines)).value;
      Chains(digest, lines + Objs(done)) && TailOf(lines + Objs(done)) == EndOf(done, TailOf(lines))
  {
    if records == [] {
      assert lines + Objs([]) == lines;
    } else {
      var end, after, line := LastLink(digest, records, TailOf(lines));
      var objs := Objs(Chained(digest, records[..|records| - 1], TailOf(lines)).value);
      ChainedChains(digest, lines, records[..|records| - 1]);
      AppendLine(lines, objs, line);
      ContinueChains(digest, lines + objs, line, after);
    }
  }

  // ---- one write ----

  /** The records of a chained batch, as the verifier reads them. */
  function DocsOf(records: seq<Record>): seq<Doc> {
    Docs(Objs(records))
  }

  lemma IdleTail(digest: Digest, a: seq<Line>, b: seq<Line>)
    requires Idle(b)
    ensures TailOf(a + b) == TailOf(a) && Docs(a + b) == Docs(a)
    ensures Chains(digest, a + b) <==> Chains(digest, a)
  {
    IdleAppend(digest, a, b);
    DocsConcat(a, b);
    IdleHasNoDocs(b);
    assert Docs(a) + [] == Docs(a);
    forall l | l in a ensures l in a + b {}
  }

  lemma BackIsIdle(digest: Digest, files: seq<File>, day: nat)
    requires Intact(digest, files) && NothingLater(files, day)
    ensures Idle(Back(files, day)) && Flat(files) == Front(files, day) + Back(files, day)
  {
    FrontThenBack(files, day);
    assert forall l | l in Back(files, day) :: l in Front(files, day) + Back(files, day);
    IdleHasNoDocs(Back(files, day));
  }

  /** A batch written where nothing later holds records goes to the end of the chain. */
  lemma WriteExtends(digest: Digest, files: seq<File>, day: nat, records: seq<Record>)
    requires Ideal(digest) && Intact(digest, files) && NothingLater(files, day)
    requires Chained(digest, records, TailOf(Flat(files))).Some?
    ensures var w := Written(digest, files, day, records).value;
      var done := Chained(digest, records, TailOf(Flat(files))).value;
      && Intact(digest, w)
      && Docs(Flat(w)) == Docs(Flat(files)) + DocsOf(done)
      && TailOf(Flat(w)) == EndOf(done, TailOf(Flat(files)))
  {
    var done := Chained(digest, records, TailOf(Flat(files))).value;
    var front, back := Front(files, day), Back(files, day);
    WrittenShape(digest, files, day, records);
    BackIsIdle(digest, files, day);
    IdleTail(digest, front, back);
    ChainedChains(digest, front, records);
    IdleTail(digest, front + Objs(done), back);
    DocsConcat(front, Objs(done));
  }

  /** `files` holds the records of `start` followed by `records`, chained behind them. */
  ghost predicate Extends(digest: Digest, start: seq<File>, records: seq<Record>, files: seq<File>) {
    var tail := TailOf(Flat(start));
    var chained := Chained(digest, records, tail);
    && chained.Some?
    && Docs(Flat(files)) == Docs(Flat(start)) + DocsOf(chained.value)
    && TailOf(Flat(files)) == EndOf(chained.value, tail)
  }

  lemma ExtendsNothing(digest: Digest, start: seq<File>)
    ensures Extends(digest, start, [], start)
  {
    assert Docs(Flat(start)) + [] == Docs(Flat(start));
  }

  lemma {:induction false} ObjsConcat(a: seq<Record>, b: seq<Record>)
    ensures Objs(a + b) == Objs(a) + Objs(b)
  {
    if b == [] {
      assert a + b == a;
    } else {
      assert (a + b)[..|a + b| - 1] == a + b[..|b| - 1];
      ObjsConcat(a, b[..|b| - 1]);
    }
  }

  lemma DocsOfConcat(a: seq<Record>, b: seq<Record>)
    ensures DocsOf(a + b) == DocsOf(a) + DocsOf(b)
  {
    ObjsConcat(a, b);
    DocsConcat(Objs(a), Objs(b));
  }

  lemma EndOfConcat(a: seq<Record>, b: seq<Record>, tail: Tail)
    ensures EndOf(a + b, tail) == EndOf(b, EndOf(a, tail))
  {
    if b == [] {
      assert a + b == a;
    }
  }

  /** One more batch extends further. */
  lemma ExtendsMore(digest: Digest, start: seq<File>, before: seq<Record>, files: seq<File>, day: nat,
                    records: seq<Record>)
    requires Ideal(digest) && Intact(digest, files) && NothingLater(files, day)
    requires Extends(digest, start, before, files) && Chained(digest, records, TailOf(Flat(files))).Some?
    ensures Extends(digest, start, before + records, Written(digest, files, day, records).value)
  {
    var tail := TailOf(Flat(start));
    var done := Chained(digest, before, tail).value;
    var more := Chained(digest, records, TailOf(Flat(files))).value;
    WriteExtends(digest, files, day, records);
    ChainedConcat(digest, before, records, tail);
    DocsOfConcat(done, more);
    EndOfConcat(done, more, tail);
    Reassociate(Docs(Flat(start)), DocsOf(done), DocsOf(more));
  }

  // ---- whole runs ----

  datatype Batch = Batch(day: nat, records: seq<Record>)

  /** The directory after writing `run` into `start`, batch by batch; a batch that raises writes nothing. */
  function Reached(digest: Digest, start: seq<File>, run: seq<Batch>): seq<File> {
    if run == [] then start
    else AfterBatch(digest, Reached(digest, start, run[..|run| - 1]), run[|run| - 1])
  }

  function AfterBatch(digest: Digest, files: seq<File>, b: Batch): seq<File> {
    match Written(digest, files, b.day, b.records)
    case Some(w) => w
    case None => files
  }

  /** The records of the batches that were written. */
  function Accepted(digest: Digest, start: seq<File>, run: seq<Batch>): seq<Record> {
    if run == [] then []
    else
      var init, last := run[..|run| - 1], run[|run| - 1];
      Accepted(digest, start, init) + Taken(digest, Reached(digest, start, init), last)
  }

  function Taken(digest: Digest, files: seq<File>, b: Batch): seq<Record> {
    if Written(digest, files, b.day, b.records).Some? then b.records else []
  }

  /** The days never go back, neither within the run nor behind a file that is already there. */
  predicate OrderedRun(start: seq<File>, run: seq<Batch>) {
    && (forall i, j | 0 <= i < j < |run| :: run[i].day <= run[j].day)
    && (forall f, b | f in start && b in run :: f.day <= b.day)
  }

  lemma OrderedPrefix(start: seq<File>, run: seq<Batch>)
    requires OrderedRun(start, run) && run != []
    ensures OrderedRun(start, run[..|run| - 1])
  {
    forall b | b in run[..|run| - 1] ensures b in run {}
  }

  ghost predicate OnSomeDay(run: seq<Batch>, f: File) {
    exists i :: 0 <= i < |run| && f.day == run[i].day
  }

  ghost predicate AllOnSomeDay(start: seq<File>, run: seq<Batch>, files: seq<File>) {
    forall f | f in files :: f in start || OnSomeDay(run, f)
  }

  lemma LaterRun(run: seq<Batch>, f: File)
    requires run != [] && OnSomeDay(run[..|run| - 1], f)
    ensures OnSomeDay(run, f)
  {
    var i :| 0 <= i < |run| - 1 && f.day == run[..|run| - 1][i].day;
    assert f.day == run[i].day;
  }

  lemma NoneAfterLast(start: seq<File>, run: seq<Batch>, files: seq<File>)
    requires OrderedRun(start, run) && run != [] && AllOnSomeDay(start, run[..|run| - 1], files)
    ensures forall f | f in files :: f.day <= run[|run| - 1].day
  {
    forall f | f in files ensures f.day <= run[|run| - 1].day {
      if f in start {
        assert run[|run| - 1] in run;
      } else {
        var i :| 0 <= i < |run| - 1 && f.day == run[..|run| - 1][i].day;
        assert run[i].day <= run[|run| - 1].day;
      }
    }
  }

  lemma StillOnSomeDay(start: seq<File>, run: seq<Batch>, files: seq<File>, now: seq<File>)
    requires run != [] && AllOnSomeDay(start, run[..|run| - 1], files)
    requires forall f | f in now :: f in files || f.day == run[|run| - 1].day
    ensures AllOnSomeDay(start, run, now)
  {
    forall f | f in now && f !in start ensures OnSomeDay(run, f) {
      if f in files {
        LaterRun(run, f);
      } else {
        assert f.day == run[|run| - 1].day;
      }
    }
  }

  lemma LastDay(files: seq<File>, day: nat, text: string)
    requires Dated(files) && (forall f | f in files :: f.day <= day)
    ensures Later(files, day) == []
    ensures forall f | f in Replace(files, day, text) :: f in files || f.day == day
  {
    PosSplits(files, day);
    var p := Pos(files, day);
    if p < |files| {
      assert files[p] in files && files[|files| - 1] in files;
      assert files[p].day == day;
      assert p == |files| - 1;
    }
  }

  /** One batch of a run, on a day no earlier than any file. */
  lemma BatchExtends(digest: Digest, start: seq<File>, before: seq<Record>, files: seq<File>, b: Batch)
    requires Ideal(digest) && Intact(digest, files) && Extends(digest, start, before, files)
    requires forall f | f in files :: f.day <= b.day
    ensures var now := AfterBatch(digest, files, b);
      && Intact(digest, now) && Extends(digest, start, before + Taken(digest, files, b), now)
      && forall f | f in now :: f in files || f.day == b.day
  {
    if Written(digest, files, b.day, b.records).Some? {
      var done := Chained(digest, b.records, TailOf(Flat(files))).value;
      LastDay(files, b.day, TextAt(files, b.day) + Serialise(done));
      WriteExtends(digest, files, b.day, b.records);
      ExtendsMore(digest, start, before, files, b.day, b.records);
    } else {
      assert before + [] == before;
    }
  }

  /** Any sequence of batches on days that never go back, written into any intact directory, leaves an intact
      directory with the old records followed by those of the batches that were written, in order. */
  lemma {:induction false} ReachedExtends(digest: Digest, start: seq<File>, run: seq<Batch>)
    requires Ideal(digest) && Intact(digest, start) && OrderedRun(start, run)
    ensures Intact(digest, Reached(digest, start, run)) && AllOnSomeDay(start, run, Reached(digest, start, run))
    ensures Extends(digest, start, Accepted(digest, start, run), Reached(digest, start, run))
  {
    if run == [] {
      ExtendsNothing(digest, start);
    } else {
      var init := run[..|run| - 1];
      var files := Reached(digest, start, init);
      OrderedPrefix(start, run);
      ReachedExtends(digest, start, init);
      NoneAfterLast(start, run, files);
      BatchExtends(digest, start, Accepted(digest, start, init), files, run[|run| - 1]);
      StillOnSomeDay(start, run, files, AfterBatch(digest, files, run[|run| - 1]));
    }
  }

  // ---- when a run verifies ----

  function DocLines(docs: seq<Doc>): seq<Line> {
    if docs == [] then [] else DocLines(docs[..|docs| - 1]) + [Obj(docs[|docs| - 1])]
  }

  lemma DocLinesSnoc(docs: seq<Doc>, d: Doc)
    ensures DocLines(docs + [d]) == DocLines(docs) + [Obj(d)]
  {
    assert (docs + [d])[..|docs|] == docs;
  }

  lemma {:induction false} DocLinesConcat(a: seq<Doc>, b: seq<Doc>)
    ensures DocLines(a + b) == DocLines(a) + DocLines(b)
  {
    if b == [] {
      assert a + b == a;
    } else {
      assert (a + b)[..|a + b| - 1] == a + b[..|b| - 1];
      DocLinesConcat(a, b[..|b| - 1]);
    }
  }

  lemma {:induction false} DocLinesOfRecords(records: seq<Record>)
    ensures DocLines(DocsOf(records)) == Objs(records)
  {
    if records != [] {
      var init, line := records[..|records| - 1], Obj(ToDoc(records[|records| - 1]));
      DocLinesOfRecords(init);
      DocsSnoc(Objs(init), line);
      DocLinesSnoc(DocsOf(init), line.doc);
    }
  }

  /** The verifier and the tail scan tell neither from the other. */
  ghost predicate Alike(digest: Digest, a: seq<Line>, b: seq<Line>) {
    && (Clean(digest, a) <==> Clean(digest, b)) && Docs(a) == Docs(b)
    && CursorOf(a) == CursorOf(b) && TailOf(a) == TailOf(b)
  }

  lemma AlikeSnoc(digest: Digest, a: seq<Line>, b: seq<Line>, line: Line)
    requires Alike(digest, a, b) && line.Obj?
    ensures Alike(digest, a + [line], b + [line])
  {
    CleanSnoc(digest, a, line);
    CleanSnoc(digest, b, line);
    DocsSnoc(a, line);
    DocsSnoc(b, line);
  }

  lemma AlikeBlank(digest: Digest, a: seq<Line>, b: seq<Line>)
    requires Alike(digest, a, b)
    ensures Alike(digest, a, b + [Blank])
  {
    CleanSnoc(digest, b, Blank);
    DocsConcat(b, [Blank]);
    assert Docs([Blank]) == [] && Docs(b) + [] == Docs(b) by { assert [Blank][..0] == []; }
  }

  /** Blank lines matter neither to the verifier nor to the tail scan. */
  lemma {:induction false} OnlyDocsMatter(digest: Digest, lines: seq<Line>)
    requires forall l | l in lines :: !l.Unreadable?
    ensures Alike(digest, DocLines(Docs(lines)), lines)
  {
    if lines != [] {
      var init, last := lines[..|lines| - 1], lines[|lines| - 1];
      assert lines == init + [last] && last in lines;
      forall l | l in init ensures l in lines {}
      OnlyDocsMatter(digest, init);
      if last.Obj? {
        AlikeSnoc(digest, DocLines(Docs(init)), init, last);
        DocsSnoc(init, last);
        DocLinesSnoc(Docs(init), last.doc);
      } else {
        AlikeBlank(digest, DocLines(Docs(init)), init);
        assert Docs(lines) == Docs(init);
      }
    }
  }

  /** The records of an extended directory, one line each. */
  lemma ExtendedLines(digest: Digest, start: seq<File>, records: seq<Record>, files: seq<File>)
    requires Extends(digest, start, records, files)
    ensures DocLines(Docs(Flat(files))) ==
      DocLines(Docs(Flat(start))) + Objs(Chained(digest, records, TailOf(Flat(start))).value)
  {
    var done := Chained(digest, records, TailOf(Flat(start))).value;
    DocLinesConcat(Docs(Flat(start)), DocsOf(done));
    DocLinesOfRecords(done);
  }

  /** An extended directory verifies exactly when the appended records are steady behind the old tail. */
  lemma ExtendsVerifiesIff(digest: Digest, start: seq<File>, records: seq<Record>, files: seq<File>)
    requires Ideal(digest) && Good(digest, start) && Intact(digest, files) && Extends(digest, start, records, files)
    ensures Clean(digest, Flat(files)) <==> Steady(records, TailOf(Flat(start)).timestamp)
    ensures Clean(digest, Flat(files)) ==> Good(digest, files)
  {
    GoodIsIntact(digest, start);
    OnlyDocsMatter(digest, Flat(start));
    OnlyDocsMatter(digest, Flat(files));
    ExtendedLines(digest, start, records, files);
    ChainedVerifiesIff(digest, DocLines(Docs(Flat(start))), records);
  }

  /** The exact condition: a run over a directory that verifies leaves one that verifies if and only if no written
      record meets an unparsable, later predecessor. */
  lemma ReachedVerifiesIff(digest: Digest, start: seq<File>, run: seq<Batch>)
    requires Ideal(digest) && Good(digest, start) && OrderedRun(start, run)
    ensures var files := Reached(digest, start, run);
      && (Clean(digest, Flat(files)) <==>
           Steady(Accepted(digest, start, run), TailOf(Flat(start)).timestamp))
      && (Clean(digest, Flat(files)) ==> Good(digest, files))
  {
    GoodIsIntact(digest, start);
    ReachedExtends(digest, start, run);
    ExtendsVerifiesIff(digest, start, Accepted(digest, start, run), Reached(digest, start, run));
  }

  predicate WellStamped(records: seq<Record>) {
    forall r | r in records :: T.WellFormed(r.timestamp)
  }

  /** Every record has a well-formed timestamp, each strictly after the one before. */
  ghost predicate Rising(docs: seq<Doc>, last: string) {
    if docs == [] then last == ""
    else
      var init := docs[..|docs| - 1];
      && T.WellFormed(last) && Get(docs[|docs| - 1], "timestamp") == Some(Str(last))
      && (init == [] || exists ts :: Rising(init, ts) && Before(ts, last))
  }

  lemma {:induction false} SteadyWhenWellStamped(records: seq<Record>, prev: string)
    requires WellStamped(records) && (prev == "" || T.WellFormed(prev))
    ensures Steady(records, prev)
    ensures ClockAfter(records, prev).Some? ==>
      (if records == [] then ClockAfter(records, prev).value == prev else T.WellFormed(ClockAfter(records, prev).value))
  {
    if records != [] {
      var init, last := records[..|records| - 1], records[|records| - 1];
      assert forall r | r in init :: r in records;
      assert last in records;
      SteadyWhenWellStamped(init, prev);
      if ClockAfter(init, prev).Some? {
        var ts := ClockAfter(init, prev).value;
        if T.WellFormed(ts) && T.Monotonic(ts, last.timestamp).Some? {
          T.MonotonicAdvances(ts, last.timestamp);
        }
      }
    }
  }

  lemma {:induction false} ChainedRises(digest: Digest, lines: seq<Line>, records: seq<Record>)
    requires WellStamped(records) && Rising(Docs(lines), TailOf(lines).timestamp)
    requires Chained(digest, records, TailOf(lines)).Some?
    ensures var done := Chained(digest, records, TailOf(lines)).value;
      Rising(Docs(lines + Objs(done)), EndOf(done, TailOf(lines)).timestamp)
  {
    var tail := TailOf(lines);
    if records == [] {
      assert lines + Objs([]) == lines;
    } else {
      var init, last := records[..|records| - 1], records[|records| - 1];
      assert forall r | r in init :: r in records;
      assert last in records;
      var end, after, line := LastLink(digest, records, tail);
      ChainedRises(digest, lines, init);
      var objs := Objs(Chained(digest, init, tail).value);
      AppendLine(lines, objs, line);
      RisesByOne(Docs(lines + objs), line.doc, end.timestamp, last.timestamp, after.timestamp);
      DocsSnoc(lines + objs, line);
    }
  }

  lemma RisesByOne(docs: seq<Doc>, d: Doc, prev: string, candidate: string, ts: string)
    requires Rising(docs, prev) && T.WellFormed(candidate) && T.Monotonic(prev, candidate) == Some(ts)
    requires Get(d, "timestamp") == Some(Str(ts))
    ensures Rising(docs + [d], ts)
  {
    assert (docs + [d])[..|docs|] == docs;
    if docs != [] {
      T.MonotonicAdvances(prev, candidate);
      assert Rising(docs, prev) && Before(prev, ts);
    }
  }

  lemma {:induction false} AcceptedAreStamped(digest: Digest, start: seq<File>, run: seq<Batch>)
    requires forall b | b in run :: WellStamped(b.records)
    ensures WellStamped(Accepted(digest, start, run))
  {
    if run != [] {
      var init, last := run[..|run| - 1], run[|run| - 1];
      assert last in run && forall b | b in init :: b in run;
      AcceptedAreStamped(digest, start, init);
    }
  }

  lemma ExtendsRises(digest: Digest, start: seq<File>, records: seq<Record>, files: seq<File>)
    requires Intact(digest, start) && Extends(digest, start, records, files) && WellStamped(records)
    requires Rising(Docs(Flat(start)), TailOf(Flat(start)).timestamp)
    ensures Rising(Docs(Flat(files)), TailOf(Flat(files)).timestamp)
  {
    var lines := DocLines(Docs(Flat(start)));
    OnlyDocsMatter(digest, Flat(start));
    ChainedRises(digest, lines, records);
    DocsConcat(lines, Objs(Chained(digest, records, TailOf(lines)).value));
  }

  /** With well-formed timestamps every run verifies, its timestamps strictly increase across batches and days, and
      the tail scan ends where the verifier's walk does. */
  lemma ReachedVerifies(digest: Digest, start: seq<File>, run: seq<Batch>)
    requires Ideal(digest) && Good(digest, start) && OrderedRun(start, run)
    requires Rising(Docs(Flat(start)), TailOf(Flat(start)).timestamp)
    requires forall b | b in run :: WellStamped(b.records)
    ensures var files := Reached(digest, start, run);
      Good(digest, files) && Rising(Docs(Flat(files)), TailOf(Flat(files)).timestamp)
  {
    var records := Accepted(digest, start, run);
    GoodIsIntact(digest, start);
    AcceptedAreStamped(digest, start, run);
    SteadyWhenWellStamped(records, TailOf(Flat(start)).timestamp);
    ReachedVerifiesIff(digest, start, run);
    ReachedExtends(digest, start, run);
    ExtendsRises(digest, start, records, Reached(digest, start, run));
  }

  // ---- the timestamps that are written ----

  /** Each record is stamped after the one before it, the first after `prev`. */
  predicate RisingStamps(records: seq<Record>, prev: string) {
    records == [] ||
    var init, last := records[..|records| - 1], records[|records| - 1];
    RisingStamps(init, prev) && Before(if init == [] then prev else init[|init| - 1].timestamp, last.timestamp)
  }

  /** Everything but the two hashes. */
  function Unhashed(r: Record): Record {
    r.(prevHash := "", recordHash := "")
  }

  /** A batch that rises behind the tail is never refused, and every record keeps its own timestamp and every other
      field its caller set. */
  lemma {:induction false} OwnStampsAreKept(digest: Digest, records: seq<Record>, tail: Tail)
    requires RisingStamps(records, tail.timestamp)
    ensures Chained(digest, records, tail).Some?
    ensures var done := Chained(digest, records, tail).value;
      && (forall i | 0 <= i < |records| :: Unhashed(done[i]) == Unhashed(records[i]))
      && (records != [] ==> EndOf(done, tail).timestamp == records[|records| - 1].timestamp)
  {
    if records != [] {
      OwnStampsAreKept(digest, records[..|records| - 1], tail);
    }
  }

  lemma {:induction false} DocsOfAt(records: seq<Record>)
    ensures |DocsOf(records)| == |records|
    ensures forall i | 0 <= i < |records| :: DocsOf(records)[i] == ToDoc(records[i])
  {
    if records != [] {
      var line := Obj(ToDoc(records[|records| - 1]));
      DocsOfAt(records[..|records| - 1]);
      DocsSnoc(Objs(records[..|records| - 1]), line);
    }
  }

  /** So on disk: behind the records that were there stand the batch's, each under its own timestamp. */
  lemma WrittenUnderOwnStamps(digest: Digest, files: seq<File>, day: nat, records: seq<Record>, i: nat)
    requires Ideal(digest) && Intact(digest, files) && NothingLater(files, day)
    requires RisingStamps(records, TailOf(Flat(files)).timestamp) && i < |records|
    ensures Written(digest, files, day, records).Some?
    ensures var docs := Docs(Flat(Written(digest, files, day, records).value)); var at := |Docs(Flat(files))| + i;
      at < |docs| && Get(docs[at], "timestamp") == Some(Str(records[i].timestamp))
  {
    OwnStampsAreKept(digest, records, TailOf(Flat(files)));
    WriteExtends(digest, files, day, records);
    var done := Chained(digest, records, TailOf(Flat(files))).value;
    DocsOfAt(done);
    DocOfRecord(done[i]);
    assert Unhashed(done[i]) == Unhashed(records[i]);
  }

  /** `stamp` is the later of a record's own timestamp and one microsecond after its predecessor's. */
  predicate LaterOf(prev: string, own: string, stamp: string) {
    && T.WellFormed(prev) && T.WellFormed(stamp)
    && if Before(prev, own) then stamp == own else Moment(stamp) == Moment(prev) + 1
  }

  lemma BumpedIsLater(prev: string, own: string)
    requires T.WellFormed(prev) && T.WellFormed(own) && T.Monotonic(prev, own).Some?
    ensures LaterOf(prev, own, T.Monotonic(prev, own).value)
  {
    T.MonotonicAdvances(prev, own);
  }

  lemma LastStamp(digest: Digest, records: seq<Record>, tail: Tail) returns (done: seq<Record>, r: Record)
    requires records != [] && Chained(digest, records, tail).Some?
    ensures Chained(digest, records[..|records| - 1], tail) == Some(done)
    ensures Chained(digest, records, tail) == Some(done + [r])
    ensures T.Monotonic(EndOf(done, tail).timestamp, records[|records| - 1].timestamp) == Some(r.timestamp)
  {
    done := Chained(digest, records[..|records| - 1], tail).value;
    r := Chained(digest, records, tail).value[|done|];
  }

  /** What record `i` follows. */
  function Followed(chained: seq<Record>, tail: Tail, i: nat): string
    requires i <= |chained|
  {
    if i == 0 then tail.timestamp else chained[i - 1].timestamp
  }

  lemma {:induction false} EndIsFormed(digest: Digest, records: seq<Record>, tail: Tail, chained: seq<Record>)
    requires WellStamped(records) && T.WellFormed(tail.timestamp) && Chained(digest, records, tail) == Some(chained)
    ensures T.WellFormed(EndOf(chained, tail).timestamp)
  {
    if records != [] {
      InitIsStamped(records);
      var done, r := LastStamp(digest, records, tail);
      EndIsFormed(digest, records[..|records| - 1], tail, done);
      BumpedIsLater(EndOf(done, tail).timestamp, records[|records| - 1].timestamp);
    }
  }

  lemma LastIsLater(digest: Digest, records: seq<Record>, tail: Tail, chained: seq<Record>)
    requires WellStamped(records) && T.WellFormed(tail.timestamp) && Chained(digest, records, tail) == Some(chained)
    requires records != []
    ensures var i := |records| - 1;
      LaterOf(Followed(chained, tail, i), records[i].timestamp, chained[i].timestamp)
  {
    InitIsStamped(records);
    var done, r := LastStamp(digest, records, tail);
    EndIsFormed(digest, records[..|records| - 1], tail, done);
    BumpedIsLater(EndOf(done, tail).timestamp, records[|records| - 1].timestamp);
    assert EndOf(done, tail).timestamp == Followed(chained, tail, |records| - 1);
  }

  /** Any other batch: each record gets the later of its own timestamp and one microsecond after its predecessor's. */
  lemma {:induction false} StampsAreLater(digest: Digest, records: seq<Record>, tail: Tail, chained: seq<Record>,
                                          i: nat)
    requires WellStamped(records) && T.WellFormed(tail.timestamp) && Chained(digest, records, tail) == Some(chained)
    requires i < |records|
    ensures LaterOf(Followed(chained, tail, i), records[i].timestamp, chained[i].timestamp)
  {
    if i == |records| - 1 {
      LastIsLater(digest, records, tail, chained);
    } else {
      InitIsStamped(records);
      var done, r := LastStamp(digest, records, tail);
      StampsAreLater(digest, records[..|records| - 1], tail, done, i);
      assert Followed(done, tail, i) == Followed(chained, tail, i);
    }
  }

  lemma InitIsStamped(records: seq<Record>)
    requires records != [] && WellStamped(records)
    ensures WellStamped(records[..|records| - 1]) && T.WellFormed(records[|records| - 1].timestamp)
  {
    assert records[|records| - 1] in records && forall r | r in records[..|records| - 1] :: r in records;
  }

  function Moment(s: string): int
    requires T.WellFormed(s)
  {
    T.Instant(T.Parse(s).value)
  }

  /** An empty directory is such a start. */
  lemma NothingIsGood(digest: Digest)
    ensures Good(digest, []) && Intact(digest, []) && Rising(Docs(Flat([])), TailOf(Flat([])).timestamp)
  {
  }
}
