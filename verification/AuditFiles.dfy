// The audit directory: dated files of text, and what appending a batch does to them.
module AuditFiles {
  import opened Text
  import opened JsonText
  import opened AuditChain
  import opened AuditLinks
  import T = Timestamps

  /** `audit/<day>.jsonl`; `day` is the date's ordinal, which orders files as their names do. */
  datatype File = File(day: nat, text: string)

  /** The directory as `sorted(audit_dir.glob("*.jsonl"))` lists it. */
  predicate Dated(files: seq<File>) {
    forall i, j | 0 <= i < j < |files| :: files[i].day < files[j].day
  }

  /** Every file ends its last line. */
  predicate Tidy(files: seq<File>) {
    forall f | f in files :: EndsLine(f.text)
  }

  /** All lines of all files, in the order both scans use. */
  function Flat(files: seq<File>): seq<Line> {
    if files == [] then [] else Flat(files[..|files| - 1]) + Lines(files[|files| - 1].text)
  }

  /** How many files are dated before `day`. */
  function Pos(files: seq<File>, day: nat): (p: nat)
    ensures p <= |files|
  {
    if files == [] || files[0].day >= day then 0 else 1 + Pos(files[1..], day)
  }

  function Earlier(files: seq<File>, day: nat): seq<File> {
    files[..Pos(files, day)]
  }

  predicate Exists(files: seq<File>, day: nat) {
    Pos(files, day) < |files| && files[Pos(files, day)].day == day
  }

  function Later(files: seq<File>, day: nat): seq<File> {
    files[Pos(files, day) + (if Exists(files, day) then 1 else 0)..]
  }

  /** `path.read_bytes() if path.exists() else b""`. */
  function TextAt(files: seq<File>, day: nat): string {
    if Exists(files, day) then files[Pos(files, day)].text else ""
  }

  /** `os.replace(tmp, path)`. */
  function Replace(files: seq<File>, day: nat, text: string): seq<File> {
    Earlier(files, day) + [File(day, text)] + Later(files, day)
  }

  function Serialise(records: seq<Record>): string {
    if records == [] then "" else Serialise(records[..|records| - 1]) + (ToJson(records[|records| - 1]) + "\n")
  }

  function Objs(records: seq<Record>): seq<Line> {
    if records == [] then [] else Objs(records[..|records| - 1]) + [Obj(ToDoc(records[|records| - 1]))]
  }

  /** `write_records` without interference; None when a timestamp bump overflows and nothing is written. */
  function Written(digest: Digest, files: seq<File>, day: nat, records: seq<Record>): Option<seq<File>> {
    match Chained(digest, records, TailOf(Flat(files)))
    case None => None
    case Some(done) => Some(Replace(files, day, TextAt(files, day) + Serialise(done)))
  }

  // ---- files and lines ----

  lemma FlatSnoc(files: seq<File>, f: File)
    ensures Flat(files + [f]) == Flat(files) + Lines(f.text)
  {
    assert (files + [f])[..|files|] == files;
  }

  lemma Reassociate<A>(a: seq<A>, b: seq<A>, c: seq<A>)
    ensures a + b + c == a + (b + c)
  {
  }

  lemma {:induction false} FlatConcat(a: seq<File>, b: seq<File>)
    ensures Flat(a + b) == Flat(a) + Flat(b)
  {
    if b == [] {
      assert a + b == a && Flat(a) + [] == Flat(a);
    } else {
      var b', f := b[..|b| - 1], b[|b| - 1];
      assert b == b' + [f] && a + b == a + b' + [f];
      FlatConcat(a, b');
      FlatSnoc(a + b', f);
      FlatSnoc(b', f);
      Reassociate(Flat(a), Flat(b'), Lines(f.text));
    }
  }

  lemma {:induction false} PosSplits(files: seq<File>, day: nat)
    requires Dated(files)
    ensures forall i | 0 <= i < Pos(files, day) :: files[i].day < day
    ensures forall i | Pos(files, day) <= i < |files| :: files[i].day >= day
  {
    if files != [] && files[0].day < day {
      PosSplits(files[1..], day);
    }
  }

  lemma ReplaceKeepsDated(files: seq<File>, day: nat, text: string)
    requires Dated(files)
    ensures Dated(Replace(files, day, text)) && TextAt(Replace(files, day, text), day) == text
    ensures forall d | d != day :: TextAt(Replace(files, day, text), d) == TextAt(files, d)
  {
    PosSplits(files, day);
    var after := Replace(files, day, text);
    assert Dated(after);
    PosSplits(after, day);
    assert after[Pos(files, day)] == File(day, text);
    TextAtIs(after, File(day, text));
    forall d | d != day ensures TextAt(after, d) == TextAt(files, d) {
      PosSplits(after, d);
      PosSplits(files, d);
      if Exists(files, d) {
        var f := files[Pos(files, d)];
        assert f in Earlier(files, day) || f in Later(files, day);
        TextAtIs(after, f);
      } else if Exists(after, d) {
        var f := after[Pos(after, d)];
        assert f in Earlier(files, day) || f in Later(files, day);
        assert f in files;
        TextAtIs(files, f);
      }
    }
  }

  lemma TextAtIs(files: seq<File>, f: File)
    requires Dated(files) && f in files
    ensures Exists(files, f.day) && TextAt(files, f.day) == f.text
  {
    PosSplits(files, f.day);
    var i :| 0 <= i < |files| && files[i] == f;
    assert Pos(files, f.day) <= i;
  }

  lemma FlatSplits(files: seq<File>, day: nat)
    ensures Flat(files) == Flat(Earlier(files, day)) + Lines(TextAt(files, day)) + Flat(Later(files, day))
    ensures forall text ::
      Flat(Replace(files, day, text)) == Flat(Earlier(files, day)) + Lines(text) + Flat(Later(files, day))
  {
    var e, l := Earlier(files, day), Later(files, day);
    if Exists(files, day) {
      var f := files[Pos(files, day)];
      assert files == e + [f] + l;
      FlatConcat(e + [f], l);
      FlatConcat(e, [f]);
      FlatOne(f);
    } else {
      assert files == e + l;
      FlatConcat(e, l);
      assert Flat(e) + [] == Flat(e);
    }
    forall text ensures Flat(Replace(files, day, text)) == Flat(e) + Lines(text) + Flat(l) {
      FlatConcat(e + [File(day, text)], l);
      FlatConcat(e, [File(day, text)]);
      FlatOne(File(day, text));
    }
  }

  lemma FlatOne(f: File)
    ensures Flat([f]) == Lines(f.text)
  {
    assert [f][..0] == [];
    assert [] + Lines(f.text) == Lines(f.text);
  }

  // ---- text and records ----

  lemma {:induction false} ParseAllConcat(a: seq<string>, b: seq<string>)
    ensures ParseAll(a + b) == ParseAll(a) + ParseAll(b)
  {
  }

  lemma LinesAppend(a: string, b: string)
    requires EndsLine(a)
    ensures Lines(a + b) == Lines(a) + Lines(b)
  {
    SplitLinesAppend(a, b);
    ParseAllConcat(SplitLines(a), SplitLines(b));
  }

  /** One serialised record is one line, and parses to that record's dict. */
  lemma LinesOfRecord(r: Record)
    ensures Lines(ToJson(r) + "\n") == [Obj(ToDoc(r))]
  {
    WritePrintable(ToDoc(r));
    OneLine(ToJson(r));
    ParseWritten(r);
  }

  lemma OneLine(line: string)
    requires AllPrintable(line)
    ensures Lines(line + "\n") == [ParseLine(line)]
  {
    assert forall c | c in line :: !IsLineBreak(c);
    SplitOneLine(line, []);
    assert [] + line == line;
    assert SplitLines(line + "\n") == [line] && [line][1..] == [];
  }

  lemma ParseWritten(r: Record)
    ensures ParseLine(ToJson(r)) == Obj(ToDoc(r))
  {
    DocOfRecord(r);
    ReadDocOfWrite(ToDoc(r));
    var line := ToJson(r);
    assert line[0] == '{' && line[0] in line && !IsSpace('{');
  }

  /** Serialise, split into lines and parse: exactly the same records, whatever their field strings. */
  lemma {:induction false} LinesOfSerialise(records: seq<Record>)
    ensures EndsLine(Serialise(records)) && Lines(Serialise(records)) == Objs(records)
  {
    if records != [] {
      var init, last := records[..|records| - 1], records[|records| - 1];
      LinesOfSerialise(init);
      LinesAppend(Serialise(init), ToJson(last) + "\n");
      LinesOfRecord(last);
    }
  }

  lemma AppendBatch(text: string, records: seq<Record>)
    requires EndsLine(text)
    ensures EndsLine(text + Serialise(records)) && Lines(text + Serialise(records)) == Lines(text) + Objs(records)
  {
    LinesOfSerialise(records);
    LinesAppend(text, Serialise(records));
    var s := Serialise(records);
    if s != [] {
      assert (text + s)[|text + s| - 1] == s[|s| - 1];
    } else {
      assert text + s == text;
    }
  }

  // ---- what is read is a dict with distinct keys ----

  lemma {:induction false} PutKeepsDistinct(d: Doc, k: string, v: Scalar)
    requires DistinctKeys(d)
    ensures DistinctKeys(Put(d, k, v)) && Keys(Put(d, k, v)) == Keys(d) + {k}
  {
    if d != [] && d[0].key != k {
      PutKeepsDistinct(d[1..], k, v);
      assert Put(d, k, v)[1..] == Put(d[1..], k, v);
    } else if d != [] {
      assert Put(d, k, v)[1..] == d[1..];
    } else {
      assert [Entry(k, v)][1..] == [];
    }
  }

  lemma {:induction false} ReadEntriesDistinct(s: string, acc: Doc)
    requires DistinctKeys(acc)
    ensures ReadEntries(s, acc).Some? ==> DistinctKeys(ReadEntries(s, acc).value.value)
    decreases |s|
  {
    var head := ReadEntry(s);
    if head.Some? {
      var e, rest := head.value.value, head.value.rest;
      PutKeepsDistinct(acc, e.key, e.value);
      if rest[0] == ',' {
        ReadEntriesDistinct(SkipSpace(rest[1..]), Put(acc, e.key, e.value));
      }
    }
  }

  lemma ReadDocDistinct(s: string)
    ensures ReadDoc(s).Some? ==> DistinctKeys(ReadDoc(s).value)
  {
    var t := SkipSpace(s);
    if t != [] {
      ReadEntriesDistinct(SkipSpace(t[1..]), []);
    }
  }

  lemma {:induction false} LinesAreDistinct(ss: seq<string>)
    ensures DistinctDocs(Docs(ParseAll(ss)))
  {
    if ss != [] {
      var init, last := ss[..|ss| - 1], ss[|ss| - 1];
      LinesAreDistinct(init);
      assert ss == init + [last];
      ParseAllConcat(init, [last]);
      assert ParseAll(ss)[..|ss| - 1] == ParseAll(init) && ParseAll(ss)[|ss| - 1] == ParseLine(last);
      ReadDocDistinct(last);
    }
  }

  lemma {:induction false} FlatIsDistinct(files: seq<File>)
    ensures DistinctDocs(Docs(Flat(files)))
  {
    if files != [] {
      var init, last := files[..|files| - 1], files[|files| - 1];
      FlatIsDistinct(init);
      LinesAreDistinct(SplitLines(last.text));
      DocsConcat(Flat(init), Lines(last.text));
    }
  }
}
