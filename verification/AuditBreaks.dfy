// Where the verifier reports a break, and for which reason.
module AuditBreaks {
  import opened Text
  import opened JsonText
  import opened AuditChain
  import opened AuditLinks
  import opened AuditFiles
  import opened AuditLog
  import opened AuditEvidence

  // ---- breaks of a directory, one part after the other ----

  lemma {:induction false} CursorAfter(p: seq<Line>, q: seq<Line>, more: seq<Line>)
    requires CursorOf(p) == CursorOf(q)
    ensures CursorOf(p + more) == CursorOf(q + more)
  {
    if more == [] {
      assert p + more == p && q + more == q;
    } else {
      var init, last := more[..|more| - 1], more[|more| - 1];
      CursorAfter(p, q, init);
      assert (p + more)[..|p + more| - 1] == p + init && (q + more)[..|q + more| - 1] == q + init;
    }
  }

  /** What is reported in some lines depends on the lines before only through the walk's cursor. */
  lemma {:induction false} BreaksInSame(digest: Digest, p: seq<Line>, q: seq<Line>, lines: seq<Line>, day: nat)
    requires CursorOf(p) == CursorOf(q)
    ensures BreaksIn(digest, p, lines, day) == BreaksIn(digest, q, lines, day)
  {
    if lines != [] {
      BreaksInSame(digest, p, q, lines[..|lines| - 1], day);
      CursorAfter(p, q, lines[..|lines| - 1]);
    }
  }

  lemma BreaksSnoc(digest: Digest, a: seq<File>, f: File)
    ensures Breaks(digest, a + [f]) == Breaks(digest, a) + BreaksIn(digest, Flat(a), Lines(f.text), f.day)
    ensures Flat(a + [f]) == Flat(a) + Lines(f.text)
  {
    assert (a + [f])[..|a|] == a;
  }

  lemma JoinTail<A>(a: seq<A>, b: seq<A>, c: seq<A>, d: seq<A>)
    requires a == b + c
    ensures a + d == b + (c + d)
  {
  }

  /** What later files report is the same behind directories that leave the walk at one cursor. */
  lemma {:induction false} LaterBreaks(digest: Digest, p: seq<File>, q: seq<File>, b: seq<File>)
    returns (more: seq<ChainBreak>)
    requires CursorOf(Flat(p)) == CursorOf(Flat(q))
    ensures Breaks(digest, p + b) == Breaks(digest, p) + more && Breaks(digest, q + b) == Breaks(digest, q) + more
    ensures CursorOf(Flat(p + b)) == CursorOf(Flat(q + b))
  {
    if b == [] {
      assert p + b == p && q + b == q;
      more := [];
    } else {
      var init, f := b[..|b| - 1], b[|b| - 1];
      var before := LaterBreaks(digest, p, q, init);
      LastFile(p, b);
      LastFile(q, b);
      var last := BreaksIn(digest, Flat(p + init), Lines(f.text), f.day);
      OneMoreFile(digest, p + init, Breaks(digest, p), before, f, last);
      BreaksInSame(digest, Flat(p + init), Flat(q + init), Lines(f.text), f.day);
      OneMoreFile(digest, q + init, Breaks(digest, q), before, f, last);
      CursorAfter(Flat(p + init), Flat(q + init), Lines(f.text));
      more := before + last;
    }
  }

  lemma LastFile(p: seq<File>, b: seq<File>)
    requires b != []
    ensures p + b == (p + b[..|b| - 1]) + [b[|b| - 1]]
  {
  }

  lemma OneMoreFile(digest: Digest, files: seq<File>, start: seq<ChainBreak>, so: seq<ChainBreak>, f: File,
                    last: seq<ChainBreak>)
    requires Breaks(digest, files) == start + so && last == BreaksIn(digest, Flat(files), Lines(f.text), f.day)
    ensures Breaks(digest, files + [f]) == start + (so + last)
    ensures Flat(files + [f]) == Flat(files) + Lines(f.text)
  {
    BreaksSnoc(digest, files, f);
    JoinTail(Breaks(digest, files), start, so, last);
  }

  lemma Extended<A>(a: seq<A>, b: seq<A>, more: seq<A>)
    requires b == a + more
    ensures a <= b
  {
  }

  /** What the first `n` lines of a file report. */
  function Reported(digest: Digest, before: seq<Line>, lines: seq<Line>, n: nat, day: nat): seq<ChainBreak>
    requires n <= |lines|
  {
    BreaksIn(digest, before, lines[..n], day)
  }

  lemma OneLineLater(digest: Digest, before: seq<Line>, lines: seq<Line>, n: nat, day: nat)
    requires n < |lines|
    ensures Reported(digest, before, lines, n, day) <= Reported(digest, before, lines, n + 1, day)
  {
    WalkStep(digest, before, lines, n, day);
    var c := CursorOf(before + lines[..n]);
    Extended(Reported(digest, before, lines, n, day), Reported(digest, before, lines, n + 1, day),
             Located(Faults(digest, c, lines[n]), day, n + 1, c.prev));
  }

  lemma {:induction false} Grows<A>(f: nat -> seq<A>, k: nat, n: nat)
    requires k <= n && forall j: nat | k <= j < n :: f(j) <= f(j + 1)
    ensures f(k) <= f(n)
  {
    if k < n {
      Grows(f, k, n - 1);
      assert f(n - 1) <= f(n - 1 + 1);
    }
  }

  /** It begins with what fewer lines report. */
  lemma LaterLines(digest: Digest, before: seq<Line>, lines: seq<Line>, k: nat, n: nat, day: nat)
    requires k <= n <= |lines|
    ensures Reported(digest, before, lines, k, day) <= Reported(digest, before, lines, n, day)
  {
    var f := (j: nat) => if j <= |lines| then Reported(digest, before, lines, j, day) else [];
    forall j: nat | k <= j < n ensures f(j) <= f(j + 1) {
      OneLineLater(digest, before, lines, j, day);
    }
    Grows(f, k, n);
  }

  /** When everything up to line `i` of the file behind `a` verifies, the reports begin at that line. */
  lemma FirstBreakAt(digest: Digest, a: seq<File>, f: File, b: seq<File>, i: nat)
    requires i < |Lines(f.text)| && Clean(digest, Flat(a) + Lines(f.text)[..i])
    requires Faults(digest, CursorOf(Flat(a) + Lines(f.text)[..i]), Lines(f.text)[i]) != []
    ensures var c := CursorOf(Flat(a) + Lines(f.text)[..i]); var all := Breaks(digest, a + [f] + b);
      all != [] && all[0] == ChainBreak(f.day, i + 1, c.prev, Faults(digest, c, Lines(f.text)[i])[0])
  {
    var lines := Lines(f.text);
    CleanPrefix(digest, Flat(a), lines[..i]);
    NoBreaksIff(digest, a);
    NoBreaksIn(digest, Flat(a), lines[..i], f.day);
    WalkStep(digest, Flat(a), lines, i, f.day);
    LaterLines(digest, Flat(a), lines, i + 1, |lines|, f.day);
    assert lines[..|lines|] == lines;
    BreaksSnoc(digest, a, f);
    var later := LaterBreaks(digest, a + [f], a + [f], b);
  }

  // ---- the reason ----

  /** What the verifier expects behind some lines of a chain: the hash of the last record. */
  lemma ExpectedIsHead(digest: Digest, lines: seq<Line>)
    requires Clean(digest, lines)
    ensures Some(CursorOf(lines).prev) == HeadOf(Docs(lines))
  {
    CleanIsLinked(digest, lines);
  }

  /** The line carries the chain's fields and this timestamp, which is text and not empty. */
  predicate Stamps(line: Line, ts: string) {
    Chainable(line) && ts != "" && Get(line.doc, "timestamp") == Some(Str(ts))
  }

  /** The walk holds timestamps against the last one that some chained line carries. */
  lemma {:induction false} FloorIs(lines: seq<Line>, i: nat, ts: string)
    requires i < |lines| && Stamps(lines[i], ts)
    requires forall j, t | i < j < |lines| :: !Stamps(lines[j], t)
    ensures CursorOf(lines).floor == ts
  {
    var init, last := lines[..|lines| - 1], lines[|lines| - 1];
    if i < |init| {
      assert forall j, t | i < j < |init| :: !Stamps(init[j], t);
      FloorIs(init, i, ts);
      NoStampKeepsFloor(CursorOf(init), last);
    }
  }

  lemma NoStampKeepsFloor(c: Cursor, line: Line)
    requires forall t :: !Stamps(line, t)
    ensures Advance(c, line).floor == c.floor
  {
    if Chainable(line) && Get(line.doc, "timestamp").Some? && Get(line.doc, "timestamp").value.Str? {
      assert !Stamps(line, Get(line.doc, "timestamp").value.text);
    }
  }

  lemma {:induction false} NoFloor(lines: seq<Line>)
    requires forall j, t | 0 <= j < |lines| :: !Stamps(lines[j], t)
    ensures CursorOf(lines).floor == ""
  {
    if lines != [] {
      var init, last := lines[..|lines| - 1], lines[|lines| - 1];
      assert forall j, t | 0 <= j < |init| :: !Stamps(init[j], t);
      NoFloor(init);
      assert last == lines[|init|];
      NoStampKeepsFloor(CursorOf(init), last);
    }
  }

  /** An unreadable line, or one without the chain's fields, is a missing field, and nothing else is. */
  lemma MissingFieldIff(digest: Digest, c: Cursor, line: Line)
    ensures MissingField in Faults(digest, c, line) <==> line.Unreadable? || (line.Obj? && !Chainable(line))
    ensures MissingField in Faults(digest, c, line) ==> |Faults(digest, c, line)| == 1
  {
  }

  /** An earlier string timestamp than the last one is a regression, whatever else is wrong, and nothing else is. */
  lemma RegressionIff(digest: Digest, c: Cursor, line: Line)
    requires Chainable(line)
    ensures TimestampRegression in Faults(digest, c, line) <==>
      exists ts :: Get(line.doc, "timestamp") == Some(Str(ts)) && c.floor != "" && Before(ts, c.floor)
  {
    if Get(line.doc, "timestamp").Some? && Get(line.doc, "timestamp").value.Str? {
      assert Get(line.doc, "timestamp") == Some(Str(Get(line.doc, "timestamp").value.text));
    }
  }

  lemma FaultsOfEdit(digest: Digest, c: Cursor, line: Line, edited: Line)
    requires Ideal(digest) && line.Obj? && edited.Obj? && DistinctKeys(edited.doc) && DistinctKeys(line.doc)
    requires Faults(digest, c, line) == [] && Get(edited.doc, "record_hash") == Get(line.doc, "record_hash")
    requires Hashed(edited.doc) != Hashed(line.doc) && Chainable(edited)
    ensures Faults(digest, c, edited) != [] && Faults(digest, c, edited)[0] == RecordHashInvalid
    ensures Get(edited.doc, "timestamp") == Get(line.doc, "timestamp") ==>
      Faults(digest, c, edited) == [RecordHashInvalid]
  {
    PrevOfHashed(edited.doc);
    PrevOfHashed(line.doc);
    FollowsCursor(digest, c, line);
    assert LinkFaults(digest, c, edited.doc) == [RecordHashInvalid];
    assert ClockFaults(c, line.doc) == [];
  }

  /** The lines of a file in a directory that verifies, up to one of them. */
  lemma CleanUpTo(digest: Digest, a: seq<File>, f: File, b: seq<File>, i: nat)
    requires Clean(digest, Flat(a + [f] + b)) && i <= |Lines(f.text)|
    ensures Clean(digest, Flat(a) + Lines(f.text)[..i])
    ensures i < |Lines(f.text)| ==> Faults(digest, CursorOf(Flat(a) + Lines(f.text)[..i]), Lines(f.text)[i]) == []
  {
    FlatConcat(a + [f], b);
    CleanPrefix(digest, Flat(a + [f]), Flat(b));
    BreaksSnoc(digest, a, f);
    CleanInto(digest, Flat(a), Lines(f.text), i);
  }

  lemma TakeInto<A>(before: seq<A>, lines: seq<A>, i: nat)
    requires i <= |lines|
    ensures (before + lines)[..|before| + i] == before + lines[..i]
    ensures i < |lines| ==> (before + lines)[|before| + i] == lines[i]
  {
  }

  lemma CleanAt(digest: Digest, all: seq<Line>, n: nat, upTo: seq<Line>)
    requires Clean(digest, all) && n <= |all| && upTo == all[..n]
    ensures Clean(digest, upTo) && (n < |all| ==> Faults(digest, CursorOf(upTo), all[n]) == [])
  {
    CleanTake(digest, all, n);
    if n < |all| {
      StepAt(digest, all, n);
    }
  }

  lemma CleanInto(digest: Digest, before: seq<Line>, lines: seq<Line>, i: nat)
    requires Clean(digest, before + lines) && i <= |lines|
    ensures Clean(digest, before + lines[..i])
    ensures i < |lines| ==> Faults(digest, CursorOf(before + lines[..i]), lines[i]) == []
  {
    TakeInto(before, lines, i);
    CleanAt(digest, before + lines, |before| + i, before + lines[..i]);
  }

  /** Changing what a record's hash covers is reported first at its own line, as a hash that does not fit; and it is
      the only report when the record keeps its timestamp. */
  lemma EditIsLocated(digest: Digest, a: seq<File>, f: File, b: seq<File>, i: nat, edited: Line, f': File)
    requires Ideal(digest) && Clean(digest, Flat(a + [f] + b)) && i < |Lines(f.text)|
    requires f'.day == f.day && Lines(f'.text) == Lines(f.text)[i := edited]
    requires var line := Lines(f.text)[i];
      && line.Obj? && edited.Obj? && DistinctKeys(edited.doc) && DistinctKeys(line.doc) && Chainable(edited)
      && Get(edited.doc, "record_hash") == Get(line.doc, "record_hash") && Hashed(edited.doc) != Hashed(line.doc)
    ensures var all := Breaks(digest, a + [f'] + b); var c := CursorOf(Flat(a) + Lines(f.text)[..i]);
      && all != [] && all[0] == ChainBreak(f.day, i + 1, c.prev, RecordHashInvalid)
      && (Get(edited.doc, "timestamp") == Get(Lines(f.text)[i].doc, "timestamp") ==> |all| == 1)
  {
    var lines, line := Lines(f.text), Lines(f.text)[i];
    CleanUpTo(digest, a, f, b, i);
    FaultsOfEdit(digest, CursorOf(Flat(a) + lines[..i]), line, edited);
    assert Lines(f'.text)[..i] == lines[..i];
    FirstBreakAt(digest, a, f', b, i);
    if Get(edited.doc, "timestamp") == Get(line.doc, "timestamp") {
      FollowsCursor(digest, CursorOf(Flat(a) + lines[..i]), line);
      OnlyHere(digest, a, f, b, i, edited, f');
    }
  }

  lemma OnlyHere(digest: Digest, a: seq<File>, f: File, b: seq<File>, i: nat, edited: Line, f': File)
    requires Clean(digest, Flat(a + [f] + b)) && i < |Lines(f.text)|
    requires f'.day == f.day && Lines(f'.text) == Lines(f.text)[i := edited]
    requires Chainable(Lines(f.text)[i]) && Chainable(edited)
    requires Get(edited.doc, "record_hash") == Get(Lines(f.text)[i].doc, "record_hash")
    requires Get(edited.doc, "timestamp") == Get(Lines(f.text)[i].doc, "timestamp")
    requires Faults(digest, CursorOf(Flat(a) + Lines(f.text)[..i]), edited) == [RecordHashInvalid]
    ensures |Breaks(digest, a + [f'] + b)| == 1
  {
    CleanUpTo(digest, a, f, b, |Lines(f.text)|);
    assert Lines(f.text)[..|Lines(f.text)|] == Lines(f.text);
    OnlyInFile(digest, Flat(a), Lines(f.text), i, edited, f.day);
    BreaksSnoc(digest, a, f);
    BreaksSnoc(digest, a, f');
    OneInFile(digest, a, f, f', b);
  }

  lemma OneInFile(digest: Digest, a: seq<File>, f: File, f': File, b: seq<File>)
    requires Clean(digest, Flat(a + [f] + b)) && CursorOf(Flat(a + [f'])) == CursorOf(Flat(a + [f]))
    requires |BreaksIn(digest, Flat(a), Lines(f'.text), f'.day)| == 1
    ensures |Breaks(digest, a + [f'] + b)| == 1
  {
    BreaksSnoc(digest, a, f);
    BreaksSnoc(digest, a, f');
    NoBreaksIff(digest, a + [f] + b);
    var later := LaterBreaks(digest, a + [f'], a + [f], b);
    assert Breaks(digest, a) == [] && later == [];
  }

  /** Two versions of a line after which the walk stands the same: the rest of the file reports nothing. */
  lemma OnlyInFile(digest: Digest, before: seq<Line>, lines: seq<Line>, i: nat, edited: Line, day: nat)
    requires Clean(digest, before + lines) && i < |lines|
    requires Advance(CursorOf(before + lines[..i]), lines[i]) == Advance(CursorOf(before + lines[..i]), edited)
    requires Faults(digest, CursorOf(before + lines[..i]), edited) == [RecordHashInvalid]
    ensures |BreaksIn(digest, before, lines[i := edited], day)| == 1
    ensures CursorOf(before + lines) == CursorOf(before + lines[i := edited])
  {
    var now := lines[i := edited];
    CleanInto(digest, before, lines, i);
    OneAtEdit(digest, before, lines, i, edited, now, day);
    TakeAll(lines);
    TakeAll(now);
    RestIsClean(digest, before, lines, now, i + 1, |lines|, day, lines, now);
  }

  lemma TakeAll<A>(s: seq<A>)
    ensures s[..|s|] == s
  {
  }

  lemma OneAtEdit(digest: Digest, before: seq<Line>, lines: seq<Line>, i: nat, edited: Line, now: seq<Line>, day: nat)
    requires i < |lines| && now == lines[i := edited] && Clean(digest, before + lines[..i])
    requires Advance(CursorOf(before + lines[..i]), lines[i]) == Advance(CursorOf(before + lines[..i]), edited)
    requires Faults(digest, CursorOf(before + lines[..i]), edited) == [RecordHashInvalid]
    ensures |BreaksIn(digest, before, now[..i + 1], day)| == 1
    ensures CursorOf(before + lines[..i + 1]) == CursorOf(before + now[..i + 1])
  {
    assert now[..i] == lines[..i];
    CleanPrefix(digest, before, lines[..i]);
    NoBreaksIn(digest, before, lines[..i], day);
    WalkStep(digest, before, lines, i, day);
    WalkStep(digest, before, now, i, day);
    OneLocated(day, i + 1, CursorOf(before + lines[..i]).prev);
  }

  lemma OneLocated(day: nat, line: nat, expected: Scalar)
    ensures |Located([RecordHashInvalid], day, line, expected)| == 1
  {
    assert [RecordHashInvalid][1..] == [];
  }

  lemma RestStep(digest: Digest, before: seq<Line>, p: seq<Line>, q: seq<Line>, n: nat, day: nat)
    requires n < |p| == |q| && p[n] == q[n] && CursorOf(before + p[..n]) == CursorOf(before + q[..n])
    requires Faults(digest, CursorOf(before + p[..n]), p[n]) == []
    ensures CursorOf(before + p[..n + 1]) == CursorOf(before + q[..n + 1])
    ensures BreaksIn(digest, before, q[..n + 1], day) == BreaksIn(digest, before, q[..n], day)
  {
    WalkStep(digest, before, p, n, day);
    WalkStep(digest, before, q, n, day);
  }

  /** `pn` and `qn` are the first `n` lines of `p` and `q`. */
  lemma {:induction false} RestIsClean(digest: Digest, before: seq<Line>, p: seq<Line>, q: seq<Line>, k: nat, n: nat,
                                       day: nat, pn: seq<Line>, qn: seq<Line>)
    requires k <= n <= |p| == |q| && (forall i | k <= i < n :: p[i] == q[i]) && Clean(digest, before + p)
    requires CursorOf(before + p[..k]) == CursorOf(before + q[..k]) && pn == p[..n] && qn == q[..n]
    ensures BreaksIn(digest, before, qn, day) == BreaksIn(digest, before, q[..k], day)
    ensures CursorOf(before + pn) == CursorOf(before + qn)
  {
    if k < n {
      RestIsClean(digest, before, p, q, k, n - 1, day, p[..n - 1], q[..n - 1]);
      CleanInto(digest, before, p, n - 1);
      RestStep(digest, before, p, q, n - 1, day);
    }
  }

  /** Deleting records is reported first at the record behind the gap, whose predecessor is not the one it names. */
  lemma DeletionIsLocated(digest: Digest, a: seq<File>, f: File, b: seq<File>, i: nat, j: nat, f': File)
    requires Ideal(digest) && Clean(digest, Flat(a + [f] + b)) && i < j < |Lines(f.text)|
    requires f'.day == f.day && Lines(f'.text) == Lines(f.text)[..i] + Lines(f.text)[j..]
    requires Lines(f.text)[j].Obj? && Docs(Lines(f.text)[i..j]) != []
    requires DistinctDocs(Docs(Flat(a) + Lines(f.text)[..j]))
    ensures var all := Breaks(digest, a + [f'] + b); var c := CursorOf(Flat(a) + Lines(f.text)[..i]);
      all != [] && all[0] == ChainBreak(f.day, i + 1, c.prev, PrevHashMismatch)
  {
    var lines, now := Lines(f.text), Lines(f'.text);
    CleanUpTo(digest, a, f, b, i);
    CleanUpTo(digest, a, f, b, j);
    SplitAt(Flat(a), lines, i, j);
    HeadsAcrossGap(digest, Flat(a) + lines[..i], lines[i..j], Flat(a) + lines[..j]);
    FaultsBehindGap(digest, CursorOf(Flat(a) + lines[..j]), CursorOf(Flat(a) + lines[..i]), lines[j]);
    CutOut(lines, i, j, now);
    FirstBreakAt(digest, a, f', b, i);
  }

  lemma SplitAt<A>(before: seq<A>, lines: seq<A>, i: nat, j: nat)
    requires i <= j <= |lines|
    ensures before + lines[..j] == (before + lines[..i]) + lines[i..j]
  {
  }

  lemma CutOut<A>(lines: seq<A>, i: nat, j: nat, now: seq<A>)
    requires i < j < |lines| && now == lines[..i] + lines[j..]
    ensures i < |now| && now[..i] == lines[..i] && now[i] == lines[j]
  {
  }

  lemma HeadsAcrossGap(digest: Digest, x: seq<Line>, gap: seq<Line>, y: seq<Line>)
    requires Ideal(digest) && y == x + gap && Docs(gap) != []
    requires Clean(digest, x) && Clean(digest, y) && DistinctDocs(Docs(y))
    ensures CursorOf(y).prev != CursorOf(x).prev
  {
    ExpectedIsHead(digest, x);
    ExpectedIsHead(digest, y);
    DocsConcat(x, gap);
    CleanIsLinked(digest, y);
    HeadsNeverRepeat(digest, Docs(x), Docs(gap));
  }

  lemma FaultsBehindGap(digest: Digest, c: Cursor, c': Cursor, line: Line)
    requires line.Obj? && Faults(digest, c, line) == [] && c.prev != c'.prev
    ensures Faults(digest, c', line) != [] && Faults(digest, c', line)[0] == PrevHashMismatch
  {
    FollowsCursor(digest, c, line);
    assert LinkFaults(digest, c', line.doc) == [PrevHashMismatch];
  }
}
