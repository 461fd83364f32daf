// The audit directory as the writer and the verifier use it.
module AuditLog {
  import opened Text
  import opened JsonText
  import opened AuditChain
  import opened AuditLinks
  import opened AuditFiles

  /** One reported break; `line` counts from 1 within the file of that day. */
  datatype ChainBreak = ChainBreak(day: nat, line: nat, expected: Scalar, reason: Reason)

  function Located(faults: seq<Reason>, day: nat, line: nat, expected: Scalar): seq<ChainBreak> {
    if faults == [] then []
    else [ChainBreak(day, line, expected, faults[0])] + Located(faults[1..], day, line, expected)
  }

  /** The breaks in one file's lines, walked after the lines of the files before it. */
  function BreaksIn(digest: Digest, before: seq<Line>, lines: seq<Line>, day: nat): seq<ChainBreak> {
    if lines == [] then []
    else
      var init, last := lines[..|lines| - 1], lines[|lines| - 1];
      var c := CursorOf(before + init);
      BreaksIn(digest, before, init, day) + Located(Faults(digest, c, last), day, |lines|, c.prev)
  }

  function Breaks(digest: Digest, files: seq<File>): seq<ChainBreak> {
    if files == [] then []
    else
      var init, last := files[..|files| - 1], files[|files| - 1];
      Breaks(digest, init) + BreaksIn(digest, Flat(init), Lines(last.text), last.day)
  }

  function CountChainable(lines: seq<Line>): nat {
    if lines == [] then 0
    else CountChainable(lines[..|lines| - 1]) + if Chainable(lines[|lines| - 1]) then 1 else 0
  }

  lemma BreaksStep(digest: Digest, before: seq<Line>, lines: seq<Line>, day: nat)
    requires lines != []
    ensures var init, last := lines[..|lines| - 1], lines[|lines| - 1];
      BreaksIn(digest, before, lines, day) == [] <==>
        BreaksIn(digest, before, init, day) == [] && Faults(digest, CursorOf(before + init), last) == []
  {
    var init, last := lines[..|lines| - 1], lines[|lines| - 1];
    var c := CursorOf(before + init);
    LocatedEmpty(Faults(digest, c, last), day, |lines|, c.prev);
    EmptyParts(BreaksIn(digest, before, init, day), Located(Faults(digest, c, last), day, |lines|, c.prev));
  }

  lemma {:induction false} NoBreaksIn(digest: Digest, before: seq<Line>, lines: seq<Line>, day: nat)
    requires Clean(digest, before)
    ensures BreaksIn(digest, before, lines, day) == [] <==> Clean(digest, before + lines)
  {
    if lines == [] {
      assert before + lines == before;
    } else {
      var init, last := lines[..|lines| - 1], lines[|lines| - 1];
      NoBreaksIn(digest, before, init, day);
      BreaksStep(digest, before, lines, day);
      CleanStep(digest, before, lines);
    }
  }

  lemma CleanStep(digest: Digest, before: seq<Line>, lines: seq<Line>)
    requires lines != []
    ensures var init, last := lines[..|lines| - 1], lines[|lines| - 1];
      Clean(digest, before + lines) <==>
        Clean(digest, before + init) && Faults(digest, CursorOf(before + init), last) == []
  {
    var init, last := lines[..|lines| - 1], lines[|lines| - 1];
    assert lines == init + [last];
    assert before + lines == (before + init) + [last];
    CleanSnoc(digest, before + init, last);
  }

  lemma LocatedEmpty(faults: seq<Reason>, day: nat, line: nat, expected: Scalar)
    ensures Located(faults, day, line, expected) == [] <==> faults == []
  {
  }

  lemma EmptyParts<A>(a: seq<A>, b: seq<A>)
    ensures a + b == [] <==> a == [] && b == []
  {
  }

  /** The verifier's list is empty exactly when the walk is clean. */
  lemma {:induction false} NoBreaksIff(digest: Digest, files: seq<File>)
    ensures Breaks(digest, files) == [] <==> Clean(digest, Flat(files))
  {
    if files != [] {
      var init, last := files[..|files| - 1], files[|files| - 1];
      NoBreaksIff(digest, init);
      if Clean(digest, Flat(init)) {
        NoBreaksIn(digest, Flat(init), Lines(last.text), last.day);
      } else if Clean(digest, Flat(files)) {
        CleanPrefix(digest, Flat(init), Lines(last.text));
      }
    }
  }

  lemma {:induction false} CountConcat(a: seq<Line>, b: seq<Line>)
    ensures CountChainable(a + b) == CountChainable(a) + CountChainable(b)
  {
    if b == [] {
      assert a + b == a;
    } else {
      assert (a + b)[..|a + b| - 1] == a + b[..|b| - 1];
      CountConcat(a, b[..|b| - 1]);
    }
  }

  datatype Outcome = Done | Overflowed | Raced

  datatype Summary = Summary(head: Option<string>, tailTimestamp: Option<string>, filesChecked: nat,
                             recordsVerified: nat, chainBreaks: nat, verified: bool)

  /** The lines of one file backwards. */
  method TailInFile(ghost before: seq<Line>, lines: seq<Line>) returns (tail: Option<Tail>)
    ensures match tail
      case Some(t) => TailOf(before + lines) == t
      case None => TailOf(before + lines) == TailOf(before)
  {
    var j := |lines|;
    assert lines[..j] == lines;
    while j > 0
      invariant j <= |lines| && TailOf(before + lines) == TailOf(before + lines[..j])
    {
      j := j - 1;
      assert (before + lines[..j + 1])[..|before| + j] == before + lines[..j];
      var t := TailAt(lines[j]);
      if t.Some? {
        return t;
      }
    }
    assert before + lines[..0] == before;
    return None;
  }

  lemma WalkStep(digest: Digest, before: seq<Line>, lines: seq<Line>, j: nat, day: nat)
    requires j < |lines|
    ensures var c := CursorOf(before + lines[..j]);
      && CursorOf(before + lines[..j + 1]) == Advance(c, lines[j])
      && CountChainable(lines[..j + 1]) == CountChainable(lines[..j]) + (if Chainable(lines[j]) then 1 else 0)
      && BreaksIn(digest, before, lines[..j + 1], day) ==
         BreaksIn(digest, before, lines[..j], day) + Located(Faults(digest, c, lines[j]), day, j + 1, c.prev)
  {
    var upTo := lines[..j + 1];
    assert upTo[..j] == lines[..j];
    assert (before + upTo)[..|before| + j] == before + lines[..j];
  }

  /** The lines of one file forwards, with the running cursor. */
  method WalkFile(digest: Digest, ghost before: seq<Line>, start: Cursor, lines: seq<Line>, day: nat)
    returns (end: Cursor, verified: nat, breaks: seq<ChainBreak>)
    requires start == CursorOf(before)
    ensures end == CursorOf(before + lines) && verified == CountChainable(lines)
    ensures breaks == BreaksIn(digest, before, lines, day)
  {
    end, verified, breaks := start, 0, [];
    assert before + lines[..0] == before;
    for j := 0 to |lines|
      invariant breaks == BreaksIn(digest, before, lines[..j], day)
      invariant end == CursorOf(before + lines[..j]) && verified == CountChainable(lines[..j])
    {
      WalkStep(digest, before, lines, j, day);
      breaks := breaks + Located(Faults(digest, end, lines[j]), day, j + 1, end.prev);
      end := Advance(end, lines[j]);
      verified := verified + if Chainable(lines[j]) then 1 else 0;
    }
    assert lines[..|lines|] == lines;
  }

  method WalkFiles(digest: Digest, files: seq<File>)
    returns (filesChecked: nat, recordsVerified: nat, breaks: seq<ChainBreak>)
    ensures filesChecked == |files| && recordsVerified == CountChainable(Flat(files))
    ensures breaks == Breaks(digest, files)
    ensures breaks == [] <==> Clean(digest, Flat(files))
  {
    breaks, recordsVerified := [], 0;
    var cursor := START;
    for i := 0 to |files|
      invariant breaks == Breaks(digest, files[..i]) && cursor == CursorOf(Flat(files[..i]))
      invariant recordsVerified == CountChainable(Flat(files[..i]))
    {
      assert files[..i + 1][..i] == files[..i];
      var lines := Lines(files[i].text);
      var end, verified, found := WalkFile(digest, Flat(files[..i]), cursor, lines, files[i].day);
      CountConcat(Flat(files[..i]), lines);
      cursor, recordsVerified, breaks := end, recordsVerified + verified, breaks + found;
    }
    assert files[..|files|] == files;
    filesChecked := |files|;
    NoBreaksIff(digest, files);
  }

  class Trail {
    const sha: string -> string
    var files: seq<File>

    ghost predicate Valid()
      reads this
    {
      Dated(files)
    }

    constructor (sha: string -> string)
      ensures Valid() && this.sha == sha && files == []
    {
      this.sha := sha;
      files := [];
    }

    /** `_last_record_tail`: files and lines backwards, to the first line that gives a tail. */
    method LastRecordTail() returns (tail: Tail)
      ensures tail == TailOf(Flat(files))
    {
      var i := |files|;
      assert files[..i] == files;
      while i > 0
        invariant i <= |files| && TailOf(Flat(files)) == TailOf(Flat(files[..i]))
      {
        i := i - 1;
        assert files[..i + 1][..i] == files[..i];
        var found := TailInFile(Flat(files[..i]), Lines(files[i].text));
        if found.Some? {
          return found.value;
        }
      }
      return NO_TAIL;
    }

    /** `write_records`, run alone: the tail cannot move under it. */
    method WriteRecords(today: nat, records: seq<Record>) returns (outcome: Outcome)
      requires Valid()
      modifies this
      ensures Valid()
      ensures match Written(JsonDigest(sha), old(files), today, records)
        case Some(w) => outcome == Done && files == w
        case None => outcome == Overflowed && files == old(files)
    {
      var tail := LastRecordTail();
      var chained := ChainRecords(JsonDigest(sha), records, tail);
      if chained.None? {
        return Overflowed;
      }
      var text := TextAt(files, today) + Serialise(chained.value);
      var current := LastRecordTail();
      if current.hash != tail.hash {
        return Raced;
      }
      ReplaceKeepsDated(files, today, text);
      files := Replace(files, today, text);
      return Done;
    }

    /** `verify_chain`. */
    method VerifyChain() returns (filesChecked: nat, recordsVerified: nat, breaks: seq<ChainBreak>)
      ensures filesChecked == |files| && recordsVerified == CountChainable(Flat(files))
      ensures breaks == Breaks(JsonDigest(sha), files)
      ensures breaks == [] <==> Clean(JsonDigest(sha), Flat(files))
    {
      filesChecked, recordsVerified, breaks := WalkFiles(JsonDigest(sha), files);
    }

    /** `head_summary`. */
    method HeadSummary() returns (s: Summary)
      ensures s.verified <==> Clean(JsonDigest(sha), Flat(files))
      ensures s.chainBreaks == |Breaks(JsonDigest(sha), files)| && (s.verified <==> s.chainBreaks == 0)
      ensures s.recordsVerified == CountChainable(Flat(files)) && s.filesChecked == |files|
      ensures var tail := TailOf(Flat(files));
        && s.head == (if tail.hash == ZERO_HASH then None else Some(tail.hash))
        && s.tailTimestamp == (if tail.timestamp == "" then None else Some(tail.timestamp))
    {
      var tail := LastRecordTail();
      var filesChecked, verified, breaks := VerifyChain();
      s := Summary(if tail.hash == ZERO_HASH then None else Some(tail.hash),
                   if tail.timestamp == "" then None else Some(tail.timestamp),
                   filesChecked, verified, |breaks|, breaks == []);
    }
  }
}
