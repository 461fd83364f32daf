// Concurrent writers of one audit directory: every interleaving is some serial order of whole batches.
//
// Each attempt of `write_records` is four steps that other writers may come between: take the date and read
// the tail; read the existing file; write the private temp file; re-check the tail and replace. The re-check
// and the replace are one step here, as are the date and the tail read, and the calendar never goes back.
module AuditProtocol {
  import opened Text
  import opened JsonText
  import opened AuditChain
  import opened AuditLinks
  import opened AuditFiles
  import opened AuditWrites
  import opened AuditRuns
  import T = Timestamps

  /** One call of `write_records_with_retry`; `write_records` is the call with one attempt. */
  datatype Job = Job(records: seq<Record>, attempts: nat)

  datatype Phase =
    | Begin(left: nat)
    | HasTail(left: nat, day: nat, tail: Tail)
    | HasExisting(left: nat, day: nat, tail: Tail, existing: string)
    | HasTemp(left: nat, day: nat, tail: Tail, temp: string)
    | Returned
    | Raised
    | Overflowed

  datatype Commit = Commit(writer: nat, day: nat)

  /** `commits` only records which writer replaced a file, and when. */
  datatype State = State(files: seq<File>, today: nat, phases: seq<Phase>, commits: seq<Commit>)

  datatype Event = Run(writer: nat) | Midnight

  /** Where a schedule starts: the directory as it is, and the date. */
  datatype Origin = Origin(files: seq<File>, today: nat)
  {
    /** The directory is one chain, and no file dated later holds a record. Timestamps may be anything. */
    ghost predicate Fit(digest: Digest) {
      Intact(digest, files) && Quiet(files, today)
    }
  }

  function Start(jobs: seq<Job>, o: Origin): (s: State)
    ensures |s.phases| == |jobs|
  {
    State(o.files, o.today, seq(|jobs|, i requires 0 <= i < |jobs| =>
      if jobs[i].attempts == 0 then Raised else Begin(jobs[i].attempts)), [])
  }

  /** A step that leaves the directory alone. */
  function Move(digest: Digest, records: seq<Record>, files: seq<File>, today: nat, p: Phase): Phase {
    match p
    case Begin(left) => HasTail(left, today, TailOf(Flat(files)))
    case HasTail(left, day, tail) => HasExisting(left, day, tail, TextAt(files, day))
    case HasExisting(left, day, tail, existing) =>
      (match Chained(digest, records, tail)
       case None => Overflowed
       case Some(done) => HasTemp(left, day, tail, existing + Serialise(done)))
    case HasTemp(left, _, _, _) => if left > 1 then Begin(left - 1) else Raised
    case _ => p
  }

  /** The re-check passes. */
  predicate Commits(files: seq<File>, p: Phase) {
    p.HasTemp? && TailOf(Flat(files)).hash == p.tail.hash
  }

  function Apply(digest: Digest, jobs: seq<Job>, s: State, e: Event): (s': State)
    requires |s.phases| == |jobs|
    ensures |s'.phases| == |jobs|
  {
    match e
    case Midnight => s.(today := s.today + 1)
    case Run(w) =>
      if w >= |jobs| then s
      else
        var p := s.phases[w];
        if Commits(s.files, p) then
          s.(files := Replace(s.files, p.day, p.temp), phases := s.phases[w := Returned],
             commits := s.commits + [Commit(w, p.day)])
        else s.(phases := s.phases[w := Move(digest, jobs[w].records, s.files, s.today, p)])
  }

  function Execute(digest: Digest, jobs: seq<Job>, o: Origin, schedule: seq<Event>): (s: State)
    ensures |s.phases| == |jobs|
  {
    if schedule == [] then Start(jobs, o)
    else Apply(digest, jobs, Execute(digest, jobs, o, schedule[..|schedule| - 1]), schedule[|schedule| - 1])
  }

  /** The dates a schedule lets pass. */
  function Midnights(schedule: seq<Event>): nat {
    if schedule == [] then 0
    else Midnights(schedule[..|schedule| - 1]) + if schedule[|schedule| - 1].Midnight? then 1 else 0
  }

  /** The date moves by one at every midnight and never otherwise. */
  lemma {:induction false} DatesPass(digest: Digest, jobs: seq<Job>, o: Origin, schedule: seq<Event>)
    ensures Execute(digest, jobs, o, schedule).today == o.today + Midnights(schedule)
  {
    if schedule != [] {
      DatesPass(digest, jobs, o, schedule[..|schedule| - 1]);
    }
  }

  // ---- the serial order ----

  /** The committed jobs as a run of whole batches, in commit order. */
  function Serial(jobs: seq<Job>, commits: seq<Commit>): seq<Batch> {
    if commits == [] then []
    else
      var last := commits[|commits| - 1];
      Serial(jobs, commits[..|commits| - 1]) +
        [Batch(last.day, if last.writer < |jobs| then jobs[last.writer].records else [])]
  }

  function AllRecords(run: seq<Batch>): seq<Record> {
    if run == [] then [] else AllRecords(run[..|run| - 1]) + run[|run| - 1].records
  }

  /** The records a schedule has appended, as chained. */
  function Appended(digest: Digest, o: Origin, run: seq<Batch>): seq<Record> {
    match Chained(digest, AllRecords(run), TailOf(Flat(o.files)))
    case None => []
    case Some(done) => done
  }

  /** What a caller put into a record: everything the chain does not set. */
  function Content(r: Record): Record {
    r.(timestamp := "", prevHash := "", recordHash := "")
  }

  function Contents(records: seq<Record>): (c: seq<Record>)
    ensures |c| == |records|
  {
    if records == [] then [] else Contents(records[..|records| - 1]) + [Content(records[|records| - 1])]
  }

  function AllContents(run: seq<Batch>): seq<Record> {
    if run == [] then [] else AllContents(run[..|run| - 1]) + Contents(run[|run| - 1].records)
  }

  // ---- the invariant ----

  /** No file dated after `day` holds a record. */
  ghost predicate Quiet(files: seq<File>, day: nat) {
    forall d: nat | d > day :: Docs(Lines(TextAt(files, d))) == []
  }

  ghost predicate IsHead(docs: seq<Doc>, hash: string) {
    exists k :: 0 <= k <= |docs| && HeadOf(docs[..k]) == Some(Str(hash))
  }

  /** The writer's tail is one the chain has had; while it still is the tail, nothing was appended since. */
  ghost predicate Holds(files: seq<File>, day: nat, tail: Tail) {
    && IsHead(Docs(Flat(files)), tail.hash)
    && (TailOf(Flat(files)).hash == tail.hash ==> TailOf(Flat(files)) == tail && Quiet(files, day))
  }

  ghost predicate Current(files: seq<File>, tail: Tail) {
    TailOf(Flat(files)).hash == tail.hash
  }

  ghost predicate PhaseInv(digest: Digest, records: seq<Record>, files: seq<File>, p: Phase) {
    match p
    case HasTail(_, day, tail) => Holds(files, day, tail)
    case HasExisting(_, day, tail, existing) =>
      Holds(files, day, tail) && (Current(files, tail) ==> existing == TextAt(files, day))
    case HasTemp(_, day, tail, temp) =>
      && Holds(files, day, tail) && Chained(digest, records, tail).Some?
      && (Current(files, tail) ==> temp == TextAt(files, day) + Serialise(Chained(digest, records, tail).value))
    case _ => true
  }

  /** Exactly the writers that returned have committed, each once. */
  ghost predicate CommitsMatch(s: State) {
    && (forall i, j | 0 <= i < j < |s.commits| :: s.commits[i].writer != s.commits[j].writer)
    && (forall c | c in s.commits :: c.writer < |s.phases| && s.phases[c.writer] == Returned)
    && (forall w | 0 <= w < |s.phases| && s.phases[w] == Returned ::
         exists i :: 0 <= i < |s.commits| && s.commits[i].writer == w)
  }

  /** The directory is what the committed jobs, run one at a time in commit order, leave behind: the records that were
      there, and then theirs. */
  ghost predicate Serialised(digest: Digest, jobs: seq<Job>, o: Origin, s: State) {
    var run := Serial(jobs, s.commits);
    s.files == Reached(digest, o.files, run) && Extends(digest, o.files, AllRecords(run), s.files)
  }

  predicate DatedBy(p: Phase, today: nat) {
    p.HasTail? || p.HasExisting? || p.HasTemp? ==> p.day <= today
  }

  ghost predicate FilesInv(digest: Digest, s: State) {
    Intact(digest, s.files) && Quiet(s.files, s.today)
  }

  ghost predicate PhasesInv(digest: Digest, jobs: seq<Job>, s: State) {
    |s.phases| == |jobs| && forall w | 0 <= w < |jobs| :: PhaseInv(digest, jobs[w].records, s.files, s.phases[w])
  }

  predicate DaysInv(s: State) {
    forall p | p in s.phases :: DatedBy(p, s.today)
  }

  ghost predicate Inv(digest: Digest, jobs: seq<Job>, o: Origin, s: State) {
    FilesInv(digest, s) && PhasesInv(digest, jobs, s) && DaysInv(s) && Serialised(digest, jobs, o, s) && CommitsMatch(s)
  }

  // ---- what one commit does ----

  lemma {:induction false} QuietFlat(files: seq<File>)
    requires forall f | f in files :: Docs(Lines(f.text)) == []
    ensures Docs(Flat(files)) == []
  {
    if files != [] {
      var init, last := files[..|files| - 1], files[|files| - 1];
      assert last in files && forall f | f in init :: f in files;
      QuietFlat(init);
      DocsConcat(Flat(init), Lines(last.text));
    }
  }

  lemma QuietIsNothingLater(files: seq<File>, day: nat)
    requires Dated(files) && Quiet(files, day)
    ensures NothingLater(files, day)
  {
    PosSplits(files, day);
    forall f | f in Later(files, day) ensures Docs(Lines(f.text)) == [] {
      assert f in files && f.day > day;
      TextAtIs(files, f);
    }
    QuietFlat(Later(files, day));
  }

  lemma QuietAfterReplace(files: seq<File>, day: nat, text: string, from: nat)
    requires Dated(files) && Quiet(files, from) && day <= from
    ensures Quiet(Replace(files, day, text), from)
  {
    ReplaceKeepsDated(files, day, text);
  }

  lemma {:induction false} DocsOfLength(records: seq<Record>)
    ensures |DocsOf(records)| == |records|
  {
    if records != [] {
      DocsOfLength(records[..|records| - 1]);
      var l := Obj(ToDoc(records[|records| - 1]));
      DocsConcat(Objs(records[..|records| - 1]), [l]);
      assert Docs([l]) == [l.doc] by { assert [l][..0] == []; }
    }
  }

  /** After a non-empty append the tail is one the chain never had. */
  lemma AppendMovesTail(digest: Digest, was: seq<Line>, now: seq<Line>, more: seq<Doc>, hash: string)
    requires Ideal(digest) && Chains(digest, now) && DistinctDocs(Docs(now))
    requires Docs(now) == Docs(was) + more && more != [] && IsHead(Docs(was), hash)
    ensures TailOf(now).hash != hash && IsHead(Docs(now), hash)
  {
    var k :| 0 <= k <= |Docs(was)| && HeadOf(Docs(was)[..k]) == Some(Str(hash));
    var xs, ys := Docs(now)[..k], Docs(now)[k..];
    assert xs == Docs(was)[..k] && Docs(now) == xs + ys;
    HeadIsTail(digest, now);
    HeadsNeverRepeat(digest, xs, ys);
  }

  /** An empty batch changes no text. */
  lemma EmptyWriteChangesNothing(files: seq<File>, day: nat)
    requires Dated(files)
    ensures forall d :: TextAt(Replace(files, day, TextAt(files, day) + ""), d) == TextAt(files, d)
  {
    var text := TextAt(files, day) + "";
    assert text == TextAt(files, day);
    ReplaceKeepsDated(files, day, text);
  }

  /** A write that changes no text and no tail keeps every other writer's phase. */
  lemma PhaseKeptUnchanged(digest: Digest, files: seq<File>, w: seq<File>, records: seq<Record>, p: Phase)
    requires PhaseInv(digest, records, files, p)
    requires TailOf(Flat(w)) == TailOf(Flat(files)) && Docs(Flat(w)) == Docs(Flat(files))
    requires forall d :: TextAt(w, d) == TextAt(files, d)
    ensures PhaseInv(digest, records, w, p)
  {
  }

  /** A write that moves the tail away from a writer's keeps its phase: its re-check will fail. */
  lemma PhaseKeptBehind(digest: Digest, files: seq<File>, w: seq<File>, records: seq<Record>, p: Phase)
    requires PhaseInv(digest, records, files, p) && (p.HasTail? || p.HasExisting? || p.HasTemp?)
    requires TailOf(Flat(w)).hash != p.tail.hash && IsHead(Docs(Flat(w)), p.tail.hash)
    ensures PhaseInv(digest, records, w, p)
  {
  }

  lemma OtherPhaseKept(digest: Digest, files: seq<File>, day: nat, records: seq<Record>, other: seq<Record>, p: Phase)
    requires Ideal(digest) && Intact(digest, files) && NothingLater(files, day)
    requires Chained(digest, records, TailOf(Flat(files))).Some?
    requires PhaseInv(digest, other, files, p)
    ensures PhaseInv(digest, other, Written(digest, files, day, records).value, p)
  {
    if p.HasTail? || p.HasExisting? || p.HasTemp? {
      var w := Written(digest, files, day, records).value;
      var done := Chained(digest, records, TailOf(Flat(files))).value;
      WriteExtends(digest, files, day, records);
      DocsOfLength(done);
      if done == [] {
        EmptyWriteChangesNothing(files, day);
        assert Docs(Flat(w)) == Docs(Flat(files));
        PhaseKeptUnchanged(digest, files, w, other, p);
      } else {
        FlatIsDistinct(w);
        AppendMovesTail(digest, Flat(files), Flat(w), DocsOf(done), p.tail.hash);
        PhaseKeptBehind(digest, files, w, other, p);
      }
    }
  }

  /** A passing re-check means the replace is the write that would have happened with no one else around. */
  lemma CommitIsWrite(digest: Digest, records: seq<Record>, files: seq<File>, p: Phase)
    requires PhaseInv(digest, records, files, p) && Commits(files, p) && Dated(files)
    ensures Chained(digest, records, TailOf(Flat(files))).Some?
    ensures Written(digest, files, p.day, records) == Some(Replace(files, p.day, p.temp))
    ensures Quiet(files, p.day) && NothingLater(files, p.day)
  {
    QuietIsNothingLater(files, p.day);
  }

  lemma CommitKeepsFiles(digest: Digest, records: seq<Record>, s: State, p: Phase)
    requires Ideal(digest) && FilesInv(digest, s) && DatedBy(p, s.today)
    requires PhaseInv(digest, records, s.files, p) && Commits(s.files, p)
    ensures Intact(digest, Replace(s.files, p.day, p.temp)) && Quiet(Replace(s.files, p.day, p.temp), s.today)
  {
    CommitIsWrite(digest, records, s.files, p);
    WriteExtends(digest, s.files, p.day, records);
    CommitKeepsQuiet(s, p);
  }

  lemma CommitKeepsPhases(digest: Digest, jobs: seq<Job>, s: State, w: nat)
    requires Ideal(digest) && Intact(digest, s.files) && PhasesInv(digest, jobs, s)
    requires w < |jobs| && Commits(s.files, s.phases[w])
    ensures PhasesInv(digest, jobs, Apply(digest, jobs, s, Run(w)))
  {
    var p, records := s.phases[w], jobs[w].records;
    var s' := Apply(digest, jobs, s, Run(w));
    CommitIsWrite(digest, records, s.files, p);
    forall v | 0 <= v < |jobs| ensures PhaseInv(digest, jobs[v].records, s'.files, s'.phases[v]) {
      if v != w {
        OtherPhaseKept(digest, s.files, p.day, records, jobs[v].records, s.phases[v]);
      }
    }
  }

  lemma WriteStaysSerial(digest: Digest, o: Origin, files: seq<File>, run: seq<Batch>, b: Batch)
    requires Ideal(digest) && Intact(digest, files) && NothingLater(files, b.day)
    requires Chained(digest, b.records, TailOf(Flat(files))).Some? && files == Reached(digest, o.files, run)
    requires Extends(digest, o.files, AllRecords(run), files)
    ensures var files' := Written(digest, files, b.day, b.records).value;
      files' == Reached(digest, o.files, run + [b]) && Extends(digest, o.files, AllRecords(run + [b]), files')
  {
    assert (run + [b])[..|run|] == run;
    ExtendsMore(digest, o.files, AllRecords(run), files, b.day, b.records);
  }

  lemma CommitStaysSerial(digest: Digest, jobs: seq<Job>, o: Origin, s: State, w: nat)
    requires Ideal(digest) && Intact(digest, s.files) && Serialised(digest, jobs, o, s) && |s.phases| == |jobs|
    requires w < |jobs| && Commits(s.files, s.phases[w])
    requires PhaseInv(digest, jobs[w].records, s.files, s.phases[w])
    ensures Serialised(digest, jobs, o, Apply(digest, jobs, s, Run(w)))
  {
    var p, records := s.phases[w], jobs[w].records;
    CommitIsWrite(digest, records, s.files, p);
    SerialSnoc(jobs, s.commits, Commit(w, p.day));
    WriteStaysSerial(digest, o, s.files, Serial(jobs, s.commits), Batch(p.day, records));
  }

  lemma CommitKeepsInv(digest: Digest, jobs: seq<Job>, o: Origin, s: State, w: nat)
    requires Ideal(digest) && Inv(digest, jobs, o, s) && w < |jobs| && Commits(s.files, s.phases[w])
    ensures Inv(digest, jobs, o, Apply(digest, jobs, s, Run(w)))
  {
    var p, s' := s.phases[w], Apply(digest, jobs, s, Run(w));
    assert p in s.phases;
    CommitKeepsFiles(digest, jobs[w].records, s, p);
    CommitKeepsPhases(digest, jobs, s, w);
    CommitStaysSerial(digest, jobs, o, s, w);
    CommitMatches(s, s', w, p.day);
    ChangeKeepsDays(s, w, Returned);
  }

  lemma ChangeKeepsDays(s: State, w: nat, p: Phase)
    requires DaysInv(s) && w < |s.phases| && DatedBy(p, s.today)
    ensures forall q | q in s.phases[w := p] :: DatedBy(q, s.today)
  {
    forall q | q in s.phases[w := p] ensures DatedBy(q, s.today) {
      assert q == p || q in s.phases;
    }
  }

  lemma {:induction false} ContentsConcat(a: seq<Record>, b: seq<Record>)
    ensures Contents(a + b) == Contents(a) + Contents(b)
  {
    if b == [] {
      assert a + b == a;
    } else {
      assert (a + b)[..|a + b| - 1] == a + b[..|b| - 1];
      ContentsConcat(a, b[..|b| - 1]);
    }
  }

  /** Chaining sets timestamps and hashes and nothing else, and keeps the order. */
  lemma {:induction false} ChainedKeepsContents(digest: Digest, records: seq<Record>, tail: Tail)
    requires Chained(digest, records, tail).Some?
    ensures Contents(Chained(digest, records, tail).value) == Contents(records)
  {
    if records != [] {
      var init := records[..|records| - 1];
      ChainedKeepsContents(digest, init, tail);
      var done, done' := Chained(digest, records, tail).value, Chained(digest, init, tail).value;
      assert done[..|done| - 1] == done';
    }
  }

  lemma CommitKeepsQuiet(s: State, p: Phase)
    requires Dated(s.files) && Quiet(s.files, s.today) && p.HasTemp? && Quiet(s.files, p.day)
    requires p.day <= s.today
    ensures Quiet(Replace(s.files, p.day, p.temp), s.today)
  {
    QuietAfterReplace(s.files, p.day, p.temp, s.today);
  }

  lemma SerialSnoc(jobs: seq<Job>, commits: seq<Commit>, c: Commit)
    requires c.writer < |jobs|
    ensures Serial(jobs, commits + [c]) == Serial(jobs, commits) + [Batch(c.day, jobs[c.writer].records)]
  {
    assert (commits + [c])[..|commits|] == commits;
  }

  lemma CommitMatches(s: State, s': State, w: nat, day: nat)
    requires CommitsMatch(s) && w < |s.phases| && s.phases[w] != Returned
    requires s'.phases == s.phases[w := Returned] && s'.commits == s.commits + [Commit(w, day)]
    ensures CommitsMatch(s')
  {
    forall v | 0 <= v < |s'.phases| && s'.phases[v] == Returned
      ensures exists i :: 0 <= i < |s'.commits| && s'.commits[i].writer == v
    {
      if v == w {
        assert s'.commits[|s.commits|].writer == w;
      } else {
        var i :| 0 <= i < |s.commits| && s.commits[i].writer == v;
        assert s'.commits[i].writer == v;
      }
    }
  }

  // ---- every step, every schedule ----

  lemma TailIsAHead(digest: Digest, files: seq<File>)
    requires Ideal(digest) && Intact(digest, files)
    ensures IsHead(Docs(Flat(files)), TailOf(Flat(files)).hash)
  {
    var docs := Docs(Flat(files));
    HeadIsTail(digest, Flat(files));
    assert docs[..|docs|] == docs;
  }

  /** Each step of a writer keeps what is known about it, until it commits. */
  lemma MoveKeepsPhase(digest: Digest, records: seq<Record>, files: seq<File>, today: nat, p: Phase)
    requires Ideal(digest) && Intact(digest, files) && Quiet(files, today)
    requires PhaseInv(digest, records, files, p) && DatedBy(p, today) && !Commits(files, p)
    ensures PhaseInv(digest, records, files, Move(digest, records, files, today, p))
    ensures DatedBy(Move(digest, records, files, today, p), today)
    ensures Move(digest, records, files, today, p) == Returned <==> p == Returned
  {
    TailIsAHead(digest, files);
  }

  lemma MoveMatches(s: State, w: nat, p: Phase)
    requires CommitsMatch(s) && w < |s.phases| && (p == Returned <==> s.phases[w] == Returned)
    ensures CommitsMatch(s.(phases := s.phases[w := p]))
  {
    var s' := s.(phases := s.phases[w := p]);
    forall v | 0 <= v < |s'.phases| && s'.phases[v] == Returned
      ensures exists i :: 0 <= i < |s'.commits| && s'.commits[i].writer == v
    {
      assert s.phases[v] == Returned;
    }
  }

  lemma PhasesAfterMove(digest: Digest, jobs: seq<Job>, s: State, w: nat, p: Phase)
    requires PhasesInv(digest, jobs, s) && w < |jobs| && PhaseInv(digest, jobs[w].records, s.files, p)
    ensures PhasesInv(digest, jobs, s.(phases := s.phases[w := p]))
  {
  }

  /** What depends on files and commits alone. */
  lemma SerialisedSame(digest: Digest, jobs: seq<Job>, o: Origin, s: State, s': State)
    requires Serialised(digest, jobs, o, s) && s'.files == s.files && s'.commits == s.commits
    ensures Serialised(digest, jobs, o, s')
  {
  }

  lemma MoveKeepsInv(digest: Digest, jobs: seq<Job>, o: Origin, s: State, w: nat)
    requires Ideal(digest) && Inv(digest, jobs, o, s) && w < |jobs| && !Commits(s.files, s.phases[w])
    ensures Inv(digest, jobs, o, Apply(digest, jobs, s, Run(w)))
  {
    var p, records := s.phases[w], jobs[w].records;
    var p' := Move(digest, records, s.files, s.today, p);
    var s' := s.(phases := s.phases[w := p']);
    assert p in s.phases;
    MoveKeepsPhase(digest, records, s.files, s.today, p);
    MoveMatches(s, w, p');
    ChangeKeepsDays(s, w, p');
    PhasesAfterMove(digest, jobs, s, w, p');
    SerialisedSame(digest, jobs, o, s, s');
    assert Apply(digest, jobs, s, Run(w)) == s';
  }

  lemma StepKeepsInv(digest: Digest, jobs: seq<Job>, o: Origin, s: State, e: Event)
    requires Ideal(digest) && Inv(digest, jobs, o, s)
    ensures Inv(digest, jobs, o, Apply(digest, jobs, s, e))
  {
    if e.Midnight? {
      MidnightKeepsInv(digest, jobs, o, s);
    } else if e.writer < |jobs| {
      RunKeepsInv(digest, jobs, o, s, e.writer);
    }
  }

  lemma RunKeepsInv(digest: Digest, jobs: seq<Job>, o: Origin, s: State, w: nat)
    requires Ideal(digest) && Inv(digest, jobs, o, s) && w < |jobs|
    ensures Inv(digest, jobs, o, Apply(digest, jobs, s, Run(w)))
  {
    if Commits(s.files, s.phases[w]) {
      CommitKeepsInv(digest, jobs, o, s, w);
    } else {
      MoveKeepsInv(digest, jobs, o, s, w);
    }
  }

  lemma MidnightKeepsInv(digest: Digest, jobs: seq<Job>, o: Origin, s: State)
    requires Inv(digest, jobs, o, s)
    ensures Inv(digest, jobs, o, s.(today := s.today + 1))
  {
    assert forall p | p in s.phases :: DatedBy(p, s.today) ==> DatedBy(p, s.today + 1);
    assert Quiet(s.files, s.today + 1);
  }

  lemma StartInv(digest: Digest, jobs: seq<Job>, o: Origin)
    requires o.Fit(digest)
    ensures Inv(digest, jobs, o, Start(jobs, o))
  {
    ExtendsNothing(digest, o.files);
  }

  /** Whatever the schedule, the timestamps and the records already there, the directory stays one chain and is the
      serial outcome of exactly the jobs that returned, each once; jobs that raised or are still running have added
      nothing. */
  lemma {:induction false} EveryScheduleIsSerial(digest: Digest, jobs: seq<Job>, o: Origin, schedule: seq<Event>)
    requires Ideal(digest) && o.Fit(digest)
    ensures Inv(digest, jobs, o, Execute(digest, jobs, o, schedule))
  {
    if schedule == [] {
      StartInv(digest, jobs, o);
    } else {
      EveryScheduleIsSerial(digest, jobs, o, schedule[..|schedule| - 1]);
      StepKeepsInv(digest, jobs, o, Execute(digest, jobs, o, schedule[..|schedule| - 1]), schedule[|schedule| - 1]);
    }
  }

  /** When the directory verifies at the start it does so after a schedule if and only if no appended record meets an
      unparsable, later predecessor. */
  lemma ScheduleVerifiesIff(digest: Digest, jobs: seq<Job>, o: Origin, schedule: seq<Event>)
    requires Ideal(digest) && o.Fit(digest) && Good(digest, o.files)
    ensures var s := Execute(digest, jobs, o, schedule);
      Clean(digest, Flat(s.files)) <==>
        Steady(AllRecords(Serial(jobs, s.commits)), TailOf(Flat(o.files)).timestamp)
  {
    var s := Execute(digest, jobs, o, schedule);
    EveryScheduleIsSerial(digest, jobs, o, schedule);
    ExtendsVerifiesIff(digest, o.files, AllRecords(Serial(jobs, s.commits)), s.files);
  }

  lemma {:induction false} SerialIsStamped(jobs: seq<Job>, commits: seq<Commit>)
    requires forall j | j in jobs :: WellStamped(j.records)
    ensures WellStamped(AllRecords(Serial(jobs, commits)))
  {
    if commits != [] {
      var init, last := commits[..|commits| - 1], commits[|commits| - 1];
      SerialIsStamped(jobs, init);
      if last.writer < |jobs| {
        assert jobs[last.writer] in jobs;
      }
      var b := Batch(last.day, if last.writer < |jobs| then jobs[last.writer].records else []);
      assert Serial(jobs, commits)[..|Serial(jobs, init)|] == Serial(jobs, init);
    }
  }

  /** With well-formed timestamps every schedule leaves a directory that verifies. */
  lemma EveryScheduleVerifies(digest: Digest, jobs: seq<Job>, o: Origin, schedule: seq<Event>)
    requires Ideal(digest) && o.Fit(digest) && Good(digest, o.files)
    requires TailOf(Flat(o.files)).timestamp == "" || T.WellFormed(TailOf(Flat(o.files)).timestamp)
    requires forall j | j in jobs :: WellStamped(j.records)
    ensures Clean(digest, Flat(Execute(digest, jobs, o, schedule).files))
  {
    var records := AllRecords(Serial(jobs, Execute(digest, jobs, o, schedule).commits));
    ScheduleVerifiesIff(digest, jobs, o, schedule);
    SerialIsStamped(jobs, Execute(digest, jobs, o, schedule).commits);
    SteadyWhenWellStamped(records, TailOf(Flat(o.files)).timestamp);
  }

  /** Where batch `i` of a run starts among the run's records. */
  function Offset(run: seq<Batch>, i: nat): nat
    requires i <= |run|
  {
    if i == 0 then 0 else Offset(run, i - 1) + |run[i - 1].records|
  }

  lemma {:induction false} OffsetIsLength(run: seq<Batch>)
    ensures Offset(run, |run|) == |AllContents(run)|
  {
    if run != [] {
      OffsetIsLength(run[..|run| - 1]);
      OffsetOfPrefix(run, |run| - 1);
    }
  }

  lemma SliceOfConcat<A>(a: seq<A>, b: seq<A>, i: nat, j: nat)
    requires i <= j <= |a|
    ensures (a + b)[i..j] == a[i..j] && (a + b)[|a|..] == b
  {
  }

  lemma {:induction false} BatchesAreContiguous(run: seq<Batch>, i: nat)
    requires i < |run|
    ensures Offset(run, i + 1) <= |AllContents(run)|
    ensures AllContents(run)[Offset(run, i)..Offset(run, i + 1)] == Contents(run[i].records)
    decreases |run|
  {
    var init, last := run[..|run| - 1], run[|run| - 1];
    var a, b := AllContents(init), Contents(last.records);
    if i < |init| {
      OffsetOfPrefix(run, i);
      OffsetOfPrefix(run, i + 1);
      BatchesAreContiguous(init, i);
      SliceOfConcat(a, b, Offset(init, i), Offset(init, i + 1));
    } else {
      OffsetOfPrefix(run, i);
      OffsetIsLength(init);
      SliceOfConcat(a, b, 0, 0);
      assert Offset(run, i + 1) == |a + b|;
    }
  }

  lemma {:induction false} OffsetOfPrefix(run: seq<Batch>, i: nat)
    requires i < |run|
    ensures Offset(run[..|run| - 1], i) == Offset(run, i)
  {
    if i > 0 {
      OffsetOfPrefix(run, i - 1);
    }
  }

  /** Commit `i`, and no other, is of writer `w`, and its batch stands whole and in order among the chain's records. */
  predicate PlacedOnce(jobs: seq<Job>, commits: seq<Commit>, chain: seq<Record>, w: nat, i: nat) {
    var run := Serial(jobs, commits);
    && i < |commits| && commits[i].writer == w && w < |jobs|
    && (forall j | 0 <= j < |commits| && j != i :: commits[j].writer != w)
    && |run| == |commits| && Offset(run, i + 1) <= |chain| && Offset(run, i) <= Offset(run, i + 1)
    && Contents(chain)[Offset(run, i)..Offset(run, i + 1)] == Contents(jobs[w].records)
  }

  lemma CommittedOnce(jobs: seq<Job>, s: State, chain: seq<Record>, w: nat) returns (i: nat)
    requires CommitsMatch(s) && |s.phases| == |jobs| && w < |jobs| && s.phases[w] == Returned
    requires Contents(chain) == AllContents(Serial(jobs, s.commits))
    ensures PlacedOnce(jobs, s.commits, chain, w, i)
  {
    i :| 0 <= i < |s.commits| && s.commits[i].writer == w;
    SerialAt(jobs, s.commits, i);
    BatchesAreContiguous(Serial(jobs, s.commits), i);
  }

  lemma {:induction false} ContentsOfAll(run: seq<Batch>)
    ensures Contents(AllRecords(run)) == AllContents(run)
  {
    if run != [] {
      ContentsOfAll(run[..|run| - 1]);
      ContentsConcat(AllRecords(run[..|run| - 1]), run[|run| - 1].records);
    }
  }

  /** A writer that returned: behind the records that were there its batch stands whole, in order, and in exactly one
      place. */
  lemma ReturnedExactlyOnce(digest: Digest, jobs: seq<Job>, o: Origin, schedule: seq<Event>, w: nat)
    requires Ideal(digest) && o.Fit(digest) && w < |jobs|
    requires Execute(digest, jobs, o, schedule).phases[w] == Returned
    ensures var s := Execute(digest, jobs, o, schedule);
      var chain := Appended(digest, o, Serial(jobs, s.commits));
      && Intact(digest, s.files) && Docs(Flat(s.files)) == Docs(Flat(o.files)) + DocsOf(chain)
      && exists i :: PlacedOnce(jobs, s.commits, chain, w, i)
  {
    EveryScheduleIsSerial(digest, jobs, o, schedule);
    var s := Execute(digest, jobs, o, schedule);
    var run := Serial(jobs, s.commits);
    ChainedKeepsContents(digest, AllRecords(run), TailOf(Flat(o.files)));
    ContentsOfAll(run);
    var i := CommittedOnce(jobs, s, Appended(digest, o, run), w);
  }

  lemma {:induction false} SerialAt(jobs: seq<Job>, commits: seq<Commit>, i: nat)
    requires i < |commits| && commits[i].writer < |jobs|
    ensures |Serial(jobs, commits)| == |commits| && Serial(jobs, commits)[i].records == jobs[commits[i].writer].records
    decreases |commits|
  {
    if i < |commits| - 1 {
      SerialAt(jobs, commits[..|commits| - 1], i);
    } else {
      SerialLength(jobs, commits[..|commits| - 1]);
    }
  }

  lemma {:induction false} SerialLength(jobs: seq<Job>, commits: seq<Commit>)
    ensures |Serial(jobs, commits)| == |commits|
  {
    if commits != [] {
      SerialLength(jobs, commits[..|commits| - 1]);
    }
  }

  /** A failed re-check means some other writer's records were appended after this one read its tail. */
  lemma CollisionMeansProgress(digest: Digest, jobs: seq<Job>, o: Origin, schedule: seq<Event>, w: nat)
    requires Ideal(digest) && o.Fit(digest) && w < |jobs|
    requires var s := Execute(digest, jobs, o, schedule); s.phases[w].HasTemp? && !Commits(s.files, s.phases[w])
    ensures var s := Execute(digest, jobs, o, schedule); var docs := Docs(Flat(s.files));
      exists k :: 0 <= k < |docs| && HeadOf(docs[..k]) == Some(Str(s.phases[w].tail.hash))
  {
    EveryScheduleIsSerial(digest, jobs, o, schedule);
    var s := Execute(digest, jobs, o, schedule);
    assert PhaseInv(digest, jobs[w].records, s.files, s.phases[w]);
    StaleIsBehind(digest, s.files, s.phases[w].tail.hash);
  }

  lemma StaleIsBehind(digest: Digest, files: seq<File>, hash: string)
    requires Ideal(digest) && Intact(digest, files) && IsHead(Docs(Flat(files)), hash)
    requires TailOf(Flat(files)).hash != hash
    ensures exists k :: 0 <= k < |Docs(Flat(files))| && HeadOf(Docs(Flat(files))[..k]) == Some(Str(hash))
  {
    var docs := Docs(Flat(files));
    var k :| 0 <= k <= |docs| && HeadOf(docs[..k]) == Some(Str(hash));
    HeadIsTail(digest, Flat(files));
    assert docs[..|docs|] == docs;
    assert k < |docs|;
  }

  /** A writer left alone for its four steps returns, unless its timestamps overflow the calendar. */
  lemma AloneReturns(digest: Digest, jobs: seq<Job>, s: State, w: nat)
    requires |s.phases| == |jobs| && w < |jobs| && s.phases[w].Begin?
    requires Chained(digest, jobs[w].records, TailOf(Flat(s.files))).Some?
    ensures var s1 := Apply(digest, jobs, s, Run(w)); var s2 := Apply(digest, jobs, s1, Run(w));
      var s3 := Apply(digest, jobs, s2, Run(w)); var s4 := Apply(digest, jobs, s3, Run(w));
      s4.phases[w] == Returned && Some(s4.files) == Written(digest, s.files, s.today, jobs[w].records)
  {
    var tail := TailOf(Flat(s.files));
    var left := s.phases[w].left;
    var s1 := Apply(digest, jobs, s, Run(w));
    assert s1.phases[w] == HasTail(left, s.today, tail);
    var s2 := Apply(digest, jobs, s1, Run(w));
    assert s2.phases[w] == HasExisting(left, s.today, tail, TextAt(s.files, s.today));
    var s3 := Apply(digest, jobs, s2, Run(w));
    assert s3.phases[w].HasTemp? && s3.files == s.files;
  }

  // ---- retries ----

  /** This step is a re-check of `w` that fails. */
  predicate Collides(s: State, e: Event, w: nat) {
    e == Run(w) && w < |s.phases| && s.phases[w].HasTemp? && !Commits(s.files, s.phases[w])
  }

  function Collisions(digest: Digest, jobs: seq<Job>, o: Origin, schedule: seq<Event>, w: nat): nat {
    if schedule == [] then 0
    else
      var init, last := schedule[..|schedule| - 1], schedule[|schedule| - 1];
      Collisions(digest, jobs, o, init, w) + if Collides(Execute(digest, jobs, o, init), last, w) then 1 else 0
  }

  /** The attempts a phase stands for, given the collisions so far. */
  predicate Accounted(p: Phase, attempts: nat, collisions: nat) {
    match p
    case Begin(left) => left > 0 && collisions + left == attempts
    case HasTail(left, _, _) => left > 0 && collisions + left == attempts
    case HasExisting(left, _, _, _) => left > 0 && collisions + left == attempts
    case HasTemp(left, _, _, _) => left > 0 && collisions + left == attempts
    case Raised => collisions == attempts
    case Returned => collisions < attempts
    case Overflowed => collisions < attempts
  }

  /** A writer raises only after every one of its attempts has collided, and uses no more than its attempts. */
  lemma {:induction false} AttemptsAreUsed(digest: Digest, jobs: seq<Job>, o: Origin, schedule: seq<Event>, w: nat)
    requires w < |jobs|
    ensures Accounted(Execute(digest, jobs, o, schedule).phases[w], jobs[w].attempts,
                      Collisions(digest, jobs, o, schedule, w))
  {
    if schedule != [] {
      AttemptsAreUsed(digest, jobs, o, schedule[..|schedule| - 1], w);
    }
  }

  /** The writer has read a tail that is no longer the tail. */
  predicate Stale(s: State, w: nat) {
    && w < |s.phases| && (s.phases[w].HasTail? || s.phases[w].HasExisting? || s.phases[w].HasTemp?)
    && TailOf(Flat(s.files)).hash != s.phases[w].tail.hash
  }

  lemma CollisionStep(digest: Digest, jobs: seq<Job>, s: State, e: Event, w: nat)
    requires |s.phases| == |jobs|
    ensures var s' := Apply(digest, jobs, s, e);
      (if Collides(s, e, w) then 1 else 0) + (if Stale(s', w) then 1 else 0) + |s.commits| <=
        (if Stale(s, w) then 1 else 0) + |s'.commits|
  {
  }

  /** Every collision has a commit of its own behind it. */
  lemma {:induction false} CollisionsNeedCommits(digest: Digest, jobs: seq<Job>, o: Origin, schedule: seq<Event>,
                                                 w: nat)
    ensures var s := Execute(digest, jobs, o, schedule);
      Collisions(digest, jobs, o, schedule, w) + (if Stale(s, w) then 1 else 0) <= |s.commits|
  {
    if schedule != [] {
      var init, last := schedule[..|schedule| - 1], schedule[|schedule| - 1];
      CollisionsNeedCommits(digest, jobs, o, init, w);
      CollisionStep(digest, jobs, Execute(digest, jobs, o, init), last, w);
    }
  }

  /** The numbers below `n`. */
  function UpTo(n: nat): (s: set<nat>)
    ensures |s| == n && forall x: nat :: x in s <==> x < n
  {
    if n == 0 then {} else UpTo(n - 1) + {n - 1}
  }

  function Members(xs: seq<nat>): (s: set<nat>)
    ensures forall x :: x in s <==> x in xs
  {
    if xs == [] then {}
    else
      assert xs == xs[..|xs| - 1] + [xs[|xs| - 1]];
      Members(xs[..|xs| - 1]) + {xs[|xs| - 1]}
  }

  lemma DistinctBelow(xs: seq<nat>, n: nat, w: nat)
    requires (forall i, j | 0 <= i < j < |xs| :: xs[i] != xs[j]) && w < n
    requires forall x | x in xs :: x < n && x != w
    ensures |xs| < n
  {
    SizeOfDistinct(xs);
    assert w in UpTo(n) && |UpTo(n) - {w}| == n - 1;
    Smaller(Members(xs), UpTo(n) - {w});
  }

  lemma {:induction false} SizeOfDistinct(xs: seq<nat>)
    requires forall i, j | 0 <= i < j < |xs| :: xs[i] != xs[j]
    ensures |Members(xs)| == |xs|
  {
    if xs != [] {
      var init, last := xs[..|xs| - 1], xs[|xs| - 1];
      SizeOfDistinct(init);
      forall x | x in init ensures x != last {
        var i :| 0 <= i < |init| && init[i] == x;
        assert xs[i] != xs[|xs| - 1];
      }
      assert last !in Members(init);
    }
  }

  lemma {:induction false} Smaller(a: set<nat>, b: set<nat>)
    requires a <= b
    ensures |a| <= |b|
  {
    if a != {} {
      var x :| x in a;
      Smaller(a - {x}, b - {x});
    }
  }

  function Writers(commits: seq<Commit>): (ws: seq<nat>)
    ensures |ws| == |commits| && forall i | 0 <= i < |commits| :: ws[i] == commits[i].writer
  {
    seq(|commits|, i requires 0 <= i < |commits| => commits[i].writer)
  }

  /** With as many attempts as there are writers no schedule makes a writer raise. */
  lemma EnoughAttemptsNeverRaise(digest: Digest, jobs: seq<Job>, o: Origin, schedule: seq<Event>, w: nat)
    requires Ideal(digest) && o.Fit(digest) && w < |jobs| && jobs[w].attempts >= |jobs|
    ensures Execute(digest, jobs, o, schedule).phases[w] != Raised
  {
    var s := Execute(digest, jobs, o, schedule);
    EveryScheduleIsSerial(digest, jobs, o, schedule);
    AttemptsAreUsed(digest, jobs, o, schedule, w);
    CollisionsNeedCommits(digest, jobs, o, schedule, w);
    if s.phases[w] == Raised {
      OthersCommit(jobs, s, w);
    }
  }

  lemma OthersCommit(jobs: seq<Job>, s: State, w: nat)
    requires CommitsMatch(s) && |s.phases| == |jobs| && w < |jobs| && s.phases[w] != Returned
    ensures |s.commits| < |jobs|
  {
    var ws := Writers(s.commits);
    forall x | x in ws ensures x < |jobs| && x != w {
      var i :| 0 <= i < |ws| && ws[i] == x;
      assert s.commits[i] in s.commits;
    }
    DistinctBelow(ws, |jobs|, w);
  }
}
