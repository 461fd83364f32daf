// JSON text of flat objects (section 7 of RFC 8259), as Python's json module writes and reads it.
module JsonText {
  import opened Text

  // ---- strings ----

  function HexDigit(n: nat): char
    requires n < 16
  {
    if n < 10 then ('0' as int + n) as char else ('a' as int + n - 10) as char
  }

  function HexValue(c: char): Option<nat> {
    if '0' <= c <= '9' then Some(c as int - '0' as int)
    else if 'a' <= c <= 'f' then Some(c as int - 'a' as int + 10)
    else if 'A' <= c <= 'F' then Some(c as int - 'A' as int + 10)
    else None
  }

  function Hex4(n: nat): (s: string)
    requires n < 0x10000
    ensures |s| == 4
  {
    [HexDigit(n / 4096), HexDigit(n / 256 % 16), HexDigit(n / 16 % 16), HexDigit(n % 16)]
  }

  function Hex4Value(s: string): Option<nat>
    requires |s| == 4
  {
    match (HexValue(s[0]), HexValue(s[1]), HexValue(s[2]), HexValue(s[3]))
    case (Some(a), Some(b), Some(c), Some(d)) => Some(4096 * a + 256 * b + 16 * c + d)
    case _ => None
  }

  lemma Hex4RoundTrip(n: nat)
    requires n < 0x10000
    ensures Hex4Value(Hex4(n)) == Some(n)
  {
    HexValueOfDigit(n / 4096);
    HexValueOfDigit(n / 256 % 16);
    HexValueOfDigit(n / 16 % 16);
    HexValueOfDigit(n % 16);
    assert n / 256 == n / 16 / 16 && n / 4096 == n / 256 / 16;
  }

  lemma HexValueOfDigit(n: nat)
    requires n < 16
    ensures HexValue(HexDigit(n)) == Some(n)
  {
  }

  predicate Printable(c: char) {
    ' ' <= c <= '~'
  }

  const BACKSPACE := '\U{8}'
  const FORMFEED := '\U{C}'

  /** One character as `json.dumps` writes it with `ensure_ascii`. */
  function Escape(c: char): string {
    if c == '"' then "\\\""
    else if c == '\\' then "\\\\"
    else if c == '\n' then "\\n"
    else if c == '\r' then "\\r"
    else if c == '\t' then "\\t"
    else if c == BACKSPACE then "\\b"
    else if c == FORMFEED then "\\f"
    else if Printable(c) then [c]
    else if c as int < 0x10000 then "\\u" + Hex4(c as int)
    else
      var v := c as int - 0x10000;
      "\\u" + Hex4(0xD800 + v / 1024) + "\\u" + Hex4(0xDC00 + v % 1024)
  }

  function EscapeAll(t: string): string {
    if t == [] then [] else Escape(t[0]) + EscapeAll(t[1..])
  }

  function Quote(t: string): string {
    "\"" + EscapeAll(t) + "\""
  }

  datatype Read<T> = Read(value: T, rest: string)

  /** `\uXXXX` at the head of `s`. */
  function ReadUnit(s: string): Option<nat> {
    if |s| >= 6 && s[0] == '\\' && s[1] == 'u' then Hex4Value(s[2..6]) else None
  }

  /** One possibly escaped character; a lone surrogate has no character and is refused. */
  function ReadChar(s: string): (r: Option<Read<char>>)
    requires s != []
    ensures r.Some? ==> |r.value.rest| < |s|
  {
    if s[0] != '\\' then (if s[0] < ' ' then None else Some(Read(s[0], s[1..])))
    else if |s| == 1 then None
    else if s[1] == 'u' then
      match ReadUnit(s)
      case None => None
      case Some(u) =>
        if u < 0xD800 || 0xE000 <= u < 0x10000 then Some(Read(u as char, s[6..]))
        else match ReadUnit(s[6..])
          case Some(low) =>
            if u < 0xDC00 && 0xDC00 <= low < 0xE000
            then Some(Read((0x10000 + (u - 0xD800) * 1024 + low - 0xDC00) as char, s[12..])) else None
          case None => None
    else
      var plain := if s[1] == '"' then Some('"') else if s[1] == '\\' then Some('\\')
        else if s[1] == '/' then Some('/') else if s[1] == 'n' then Some('\n')
        else if s[1] == 'r' then Some('\r') else if s[1] == 't' then Some('\t')
        else if s[1] == 'b' then Some(BACKSPACE) else if s[1] == 'f' then Some(FORMFEED) else None;
      match plain
      case None => None
      case Some(c) => Some(Read(c, s[2..]))
  }

  /** The rest of a string after its opening quote, up to and including the closing one. */
  function ReadChars(s: string): (r: Option<Read<string>>)
    ensures r.Some? ==> |r.value.rest| < |s|
    decreases |s|
  {
    if s == [] then None
    else if s[0] == '"' then Some(Read([], s[1..]))
    else match ReadChar(s)
      case None => None
      case Some(Read(c, rest)) =>
        match ReadChars(rest)
        case None => None
        case Some(Read(cs, rest')) => Some(Read([c] + cs, rest'))
  }

  lemma ReadUnitOfHex4(n: nat, rest: string)
    requires n < 0x10000
    ensures ReadUnit("\\u" + Hex4(n) + rest) == Some(n)
    ensures ("\\u" + Hex4(n) + rest)[6..] == rest
  {
    Hex4RoundTrip(n);
    assert ("\\u" + Hex4(n) + rest)[2..6] == Hex4(n);
  }

  lemma ReadUnescaped(c: char, rest: string)
    requires c != '\\' && c >= ' '
    ensures ReadChar([c] + rest) == Some(Read(c, rest))
  {
    assert ([c] + rest)[1..] == rest;
  }

  /** The eight escapes of one letter, as reading decodes them. */
  function Unescape(e: char): Option<char> {
    if e == '"' then Some('"') else if e == '\\' then Some('\\')
    else if e == '/' then Some('/') else if e == 'n' then Some('\n')
    else if e == 'r' then Some('\r') else if e == 't' then Some('\t')
    else if e == 'b' then Some(BACKSPACE) else if e == 'f' then Some(FORMFEED) else None
  }

  lemma ReadShortEscape(c: char, e: char, rest: string)
    requires Unescape(e) == Some(c)
    ensures ReadChar(['\\', e] + rest) == Some(Read(c, rest))
  {
    var s := ['\\', e] + rest;
    assert s[0] == '\\' && s[1] == e && s[2..] == rest && |s| > 1 && e != 'u';
  }

  lemma ReadUnitEscape(u: nat, rest: string)
    requires u < 0xD800 || 0xE000 <= u < 0x10000
    ensures ReadChar("\\u" + Hex4(u) + rest) == Some(Read(u as char, rest))
  {
    ReadUnitOfHex4(u, rest);
  }

  lemma ReadPairEscape(v: nat, rest: string)
    requires v < 0x100000
    ensures ReadChar("\\u" + Hex4(0xD800 + v / 1024) + ("\\u" + Hex4(0xDC00 + v % 1024) + rest)) ==
      Some(Read((0x10000 + v) as char, rest))
  {
    var high, low := 0xD800 + v / 1024, 0xDC00 + v % 1024;
    var tail := "\\u" + Hex4(low) + rest;
    var s := "\\u" + Hex4(high) + tail;
    ReadUnitOfHex4(high, tail);
    ReadUnitOfHex4(low, rest);
    assert s[12..] == s[6..][6..];
    assert v == (v / 1024) * 1024 + v % 1024;
  }

  lemma ReadCharOfEscape(c: char, rest: string)
    ensures Escape(c) != [] && Escape(c)[0] != '"'
    ensures ReadChar(Escape(c) + rest) == Some(Read(c, rest))
  {
    if |Escape(c)| == 1 {
      ReadUnescaped(c, rest);
    } else if |Escape(c)| == 2 {
      EscapeIsShort(c);
      ReadShortEscape(c, Escape(c)[1], rest);
      assert Escape(c) == ['\\', Escape(c)[1]];
    } else {
      ReadLongEscape(c, rest);
    }
  }

  lemma ReadLongEscape(c: char, rest: string)
    requires |Escape(c)| > 2
    ensures Escape(c)[0] == '\\' && ReadChar(Escape(c) + rest) == Some(Read(c, rest))
  {
    if c as int < 0x10000 {
      EscapeIsUnit(c);
      ReadUnitEscape(c as int, rest);
    } else {
      var v := c as int - 0x10000;
      EscapeIsPair(c, v);
      ReadPairEscape(v, rest);
      PairThenRest("\\u" + Hex4(0xD800 + v / 1024), "\\u" + Hex4(0xDC00 + v % 1024), rest);
    }
  }

  lemma PairThenRest(a: string, b: string, rest: string)
    ensures a + b + rest == a + (b + rest)
  {
  }

  lemma EscapeIsUnit(c: char)
    requires |Escape(c)| > 2 && c as int < 0x10000
    ensures Escape(c) == "\\u" + Hex4(c as int)
  {
  }

  lemma EscapeIsPair(c: char, v: nat)
    requires c as int == 0x10000 + v
    ensures v < 0x100000 && Escape(c) == "\\u" + Hex4(0xD800 + v / 1024) + ("\\u" + Hex4(0xDC00 + v % 1024))
  {
    PairThenRest("\\u" + Hex4(0xD800 + v / 1024), "\\u", Hex4(0xDC00 + v % 1024));
  }

  lemma EscapeIsShort(c: char)
    requires |Escape(c)| == 2
    ensures Escape(c)[0] == '\\' && Unescape(Escape(c)[1]) == Some(c)
  {
  }

  /** Reading back a written string gives every character, whatever it is. */
  lemma {:induction false} ReadCharsOfEscape(t: string, rest: string)
    ensures ReadChars(EscapeAll(t) + "\"" + rest) == Some(Read(t, rest))
  {
    if t == [] {
      assert EscapeAll(t) + "\"" + rest == ['"'] + rest;
      assert (['"'] + rest)[1..] == rest;
    } else {
      ReadCharsOfEscape(t[1..], rest);
      PairThenRest(Escape(t[0]), EscapeAll(t[1..]), "\"");
      PairThenRest(Escape(t[0]), EscapeAll(t[1..]) + "\"", rest);
      ReadCharOfEscape(t[0], EscapeAll(t[1..]) + "\"" + rest);
      ReadOneMore(Escape(t[0]), EscapeAll(t[1..]) + "\"" + rest, t[0], t[1..], rest);
      assert [t[0]] + t[1..] == t;
    }
  }

  lemma ReadOneMore(escaped: string, tail: string, c: char, t: string, rest: string)
    requires escaped != [] && escaped[0] != '"' && ReadChar(escaped + tail) == Some(Read(c, tail))
    requires ReadChars(tail) == Some(Read(t, rest))
    ensures ReadChars(escaped + tail) == Some(Read([c] + t, rest))
  {
    assert (escaped + tail)[0] == escaped[0];
  }

  predicate AllPrintable(s: string) {
    forall c | c in s :: Printable(c)
  }

  lemma {:induction false} EscapeAllPrintable(t: string)
    ensures AllPrintable(EscapeAll(t))
  {
    if t != [] {
      EscapeAllPrintable(t[1..]);
      EscapePrintable(t[0]);
    }
  }

  lemma EscapePrintable(c: char)
    ensures AllPrintable(Escape(c))
  {
  }

  // ---- flat objects ----

  datatype Scalar = Null | Str(text: string)

  datatype Entry = Entry(key: string, value: Scalar)

  /** A Python dict of strings and Nones: keys distinct, in insertion order. */
  type Doc = seq<Entry>

  function WriteScalar(v: Scalar): string {
    match v
    case Null => "null"
    case Str(t) => Quote(t)
  }

  function WriteEntry(e: Entry): (s: string)
    ensures s != [] && s[0] == '"'
  {
    Quote(e.key) + ":" + WriteScalar(e.value)
  }

  function WriteEntries(d: Doc): string {
    if d == [] then []
    else
      WriteEntry(d[0]) + if |d| == 1 then "" else "," + WriteEntries(d[1..])
  }

  /** `json.dumps(d, separators=(",", ":"))`. */
  function Write(d: Doc): string {
    "{" + WriteEntries(d) + "}"
  }

  /** Printable ASCII stands for itself; quotes, backslashes and five control characters have short escapes. */
  lemma ShortEscapes(c: char)
    ensures Printable(c) && c != '"' && c != '\\' ==> Escape(c) == [c]
    ensures Escape('"') == "\\\"" && Escape('\\') == "\\\\"
    ensures Escape('\n') == "\\n" && Escape('\r') == "\\r" && Escape('\t') == "\\t"
    ensures Escape(BACKSPACE) == "\\b" && Escape(FORMFEED) == "\\f"
  {
  }

  /** Any other character of the basic plane is `\u` and its code in four lower-case hexadecimal digits. */
  lemma HexEscapes(c: char)
    requires c < ' ' || '~' < c
    requires c !in "\n\r\t" && c != BACKSPACE && c != FORMFEED && c as int < 0x10000
    ensures |Escape(c)| == 6 && Escape(c)[..2] == "\\u"
    ensures Hex4Value(Escape(c)[2..]) == Some(c as int)
    ensures forall d | d in Escape(c)[2..] :: '0' <= d <= '9' || 'a' <= d <= 'f'
  {
    assert c != '\n' && c != '\r' && c != '\t' by {
      var short := "\n\r\t";
      assert short[0] == '\n' && short[1] == '\r' && short[2] == '\t';
    }
    Hex4RoundTrip(c as int);
    assert Escape(c) == "\\u" + Hex4(c as int);
    assert Escape(c)[2..] == Hex4(c as int);
  }

  /** How long an object's text must be: keys, values, colons, commas and braces, and nothing else. */
  function CompactLength(d: Doc): nat {
    if d == [] then 0
    else |Quote(d[0].key)| + 1 + |WriteScalar(d[0].value)| + (if |d| == 1 then 0 else 1 + CompactLength(d[1..]))
  }

  lemma {:induction false} EntriesAreCompact(d: Doc)
    ensures |WriteEntries(d)| == CompactLength(d)
  {
    if d != [] {
      EntriesAreCompact(d[1..]);
    }
  }

  /** No blanks between the parts. */
  lemma WriteIsCompact(d: Doc)
    ensures |Write(d)| == 2 + CompactLength(d)
  {
    EntriesAreCompact(d);
  }

  predicate IsJsonSpace(c: char) {
    c == ' ' || c == '\t' || c == '\n' || c == '\r'
  }

  function SkipSpace(s: string): (r: string)
    ensures |r| <= |s|
  {
    if s != [] && IsJsonSpace(s[0]) then SkipSpace(s[1..]) else s
  }

  function ReadScalar(s: string): (r: Option<Read<Scalar>>)
    ensures r.Some? ==> |r.value.rest| < |s|
  {
    if s == [] then None
    else if s[0] == '"' then
      match ReadChars(s[1..])
      case None => None
      case Some(Read(t, rest)) => Some(Read(Str(t), rest))
    else if |s| >= 4 && s[..4] == "null" then Some(Read(Null, s[4..]))
    else None
  }

  function Keys(d: Doc): set<string> {
    if d == [] then {} else {d[0].key} + Keys(d[1..])
  }

  predicate DistinctKeys(d: Doc) {
    d == [] || (d[0].key !in Keys(d[1..]) && DistinctKeys(d[1..]))
  }

  lemma {:induction false} KeysAppend(d: Doc, e: Entry)
    ensures Keys(d + [e]) == Keys(d) + {e.key}
  {
    if d == [] {
      assert d + [e] == [e];
    } else {
      assert (d + [e])[1..] == d[1..] + [e];
      KeysAppend(d[1..], e);
    }
  }

  /** `d[k] = v`: a repeated key keeps its place and takes the new value. */
  function Put(d: Doc, k: string, v: Scalar): Doc {
    if d == [] then [Entry(k, v)]
    else if d[0].key == k then [Entry(k, v)] + d[1..]
    else [d[0]] + Put(d[1..], k, v)
  }

  /** `"key": value`, and the text from the next comma or brace on. */
  function ReadEntry(s: string): (r: Option<Read<Entry>>)
    ensures r.Some? ==> 0 < |r.value.rest| < |s|
  {
    if s == [] || s[0] != '"' then None
    else match ReadChars(s[1..])
      case None => None
      case Some(Read(k, rest)) =>
        var afterKey := SkipSpace(rest);
        if afterKey == [] || afterKey[0] != ':' then None
        else match ReadScalar(SkipSpace(afterKey[1..]))
          case None => None
          case Some(Read(v, rest')) =>
            var after := SkipSpace(rest');
            if after == [] then None else Some(Read(Entry(k, v), after))
  }

  /** Entries up to the closing brace, put into `acc` one by one. */
  function ReadEntries(s: string, acc: Doc): Option<Read<Doc>>
    decreases |s|
  {
    match ReadEntry(s)
    case None => None
    case Some(Read(e, rest)) =>
      var acc' := Put(acc, e.key, e.value);
      if rest[0] == '}' then Some(Read(acc', rest[1..]))
      else if rest[0] == ',' then ReadEntries(SkipSpace(rest[1..]), acc')
      else None
  }

  /** `json.loads` of an object whose values are strings or null. */
  function ReadDoc(s: string): Option<Doc> {
    var t := SkipSpace(s);
    if t == [] || t[0] != '{' then None
    else
      var body := SkipSpace(t[1..]);
      if body != [] && body[0] == '}' then (if SkipSpace(body[1..]) == [] then Some([]) else None)
      else match ReadEntries(body, [])
        case None => None
        case Some(Read(d, rest)) => if SkipSpace(rest) == [] then Some(d) else None
  }

  lemma {:induction false} PutNewKey(d: Doc, k: string, v: Scalar)
    requires k !in Keys(d)
    ensures Put(d, k, v) == d + [Entry(k, v)]
  {
    if d != [] {
      PutNewKey(d[1..], k, v);
    }
  }

  lemma ReadScalarOfWrite(v: Scalar, rest: string)
    ensures WriteScalar(v) != [] && !IsJsonSpace(WriteScalar(v)[0])
    ensures ReadScalar(WriteScalar(v) + rest) == Some(Read(v, rest))
  {
    match v
    case Null => ReadNull(rest);
    case Str(t) => ReadQuoted(t, rest);
  }

  lemma ReadNull(rest: string)
    ensures ReadScalar("null" + rest) == Some(Read(Null, rest))
  {
    var s := "null" + rest;
    assert s[..4] == "null" && s[4..] == rest;
  }

  lemma ReadQuoted(t: string, rest: string)
    ensures ReadScalar(Quote(t) + rest) == Some(Read(Str(t), rest))
  {
    var s := Quote(t) + rest;
    assert s[0] == '"' && s[1..] == EscapeAll(t) + "\"" + rest;
    ReadCharsOfEscape(t, rest);
  }

  lemma SkipNothing(s: string)
    requires s == [] || !IsJsonSpace(s[0])
    ensures SkipSpace(s) == s
  {
  }

  lemma ReadScalarHere(v: Scalar, rest: string)
    ensures ReadScalar(SkipSpace(WriteScalar(v) + rest)) == Some(Read(v, rest))
  {
    ReadScalarOfWrite(v, rest);
    SkipNothing(WriteScalar(v) + rest);
  }

  lemma EntryAsPieces(e: Entry, rest: string)
    ensures var s := WriteEntry(e) + rest;
      s[0] == '"' && s[1..] == EscapeAll(e.key) + "\"" + ([':'] + (WriteScalar(e.value) + rest))
  {
  }

  /** A written entry is read back, up to what follows it. */
  lemma ReadEntryOfWrite(e: Entry, c: char, rest: string)
    requires !IsJsonSpace(c)
    ensures ReadEntry(WriteEntry(e) + ([c] + rest)) == Some(Read(e, [c] + rest))
  {
    var after := [c] + rest;
    var value := WriteScalar(e.value) + after;
    var colon := [':'] + value;
    EntryAsPieces(e, after);
    ReadCharsOfEscape(e.key, colon);
    ReadScalarHere(e.value, after);
    SkipNothing(colon);
    SkipNothing(after);
    assert colon[1..] == value;
  }

  lemma ReadEntriesMore(d: Doc, acc: Doc, close: string)
    requires |d| > 1 && d[0].key !in Keys(acc)
    ensures ReadEntries(WriteEntries(d) + close, acc) == ReadEntries(WriteEntries(d[1..]) + close, acc + [d[0]])
  {
    var more := WriteEntries(d[1..]) + close;
    PutNewKey(acc, d[0].key, d[0].value);
    WriteEntriesStep(d, close);
    ReadEntryOfWrite(d[0], ',', more);
    SkipNothing(more);
    assert ([','] + more)[1..] == more;
  }

  lemma ReadEntriesLast(e: Entry, acc: Doc, rest: string)
    requires e.key !in Keys(acc)
    ensures ReadEntries(WriteEntries([e]) + (['}'] + rest), acc) == Some(Read(acc + [e], rest))
  {
    PutNewKey(acc, e.key, e.value);
    ReadEntryOfWrite(e, '}', rest);
    assert WriteEntries([e]) == WriteEntry(e);
    assert (['}'] + rest)[1..] == rest;
  }

  lemma {:induction false} ReadEntriesOfWrite(d: Doc, acc: Doc, rest: string)
    requires d != [] && DistinctKeys(d) && Keys(acc) !! Keys(d)
    ensures ReadEntries(WriteEntries(d) + (['}'] + rest), acc) == Some(Read(acc + d, rest))
    decreases |d|
  {
    var close := ['}'] + rest;
    if |d| == 1 {
      assert d == [d[0]];
      ReadEntriesLast(d[0], acc, rest);
    } else {
      var acc', tail := acc + [d[0]], d[1..];
      assert acc' + tail == acc + d;
      assert Keys(acc') !! Keys(tail) by { KeysAppend(acc, d[0]); }
      ReadEntriesOfWrite(tail, acc', rest);
      ReadEntriesMore(d, acc, close);
    }
  }

  lemma WriteEntriesStep(d: Doc, close: string)
    requires |d| > 1
    ensures var more := WriteEntries(d[1..]) + close;
      more != [] && more[0] == '"' && WriteEntries(d) + close == WriteEntry(d[0]) + ([','] + more)
  {
    assert "," + WriteEntries(d[1..]) + close == [','] + (WriteEntries(d[1..]) + close);
  }

  lemma ReadDocStep(body: string, d: Doc)
    requires body != [] && body[0] == '"' && ReadEntries(body, []) == Some(Read(d, ""))
    ensures ReadDoc(['{'] + body) == Some(d)
  {
    var s := ['{'] + body;
    assert s[1..] == body;
    SkipNothing(s);
    SkipNothing(body);
  }

  lemma WriteStarts(d: Doc, close: string)
    requires d != []
    ensures var body := WriteEntries(d) + close; body != [] && body[0] == '"'
  {
  }

  /** Writing a dict and reading the text back gives the same dict, for arbitrary field strings. */
  lemma ReadDocOfWrite(d: Doc)
    requires DistinctKeys(d)
    ensures ReadDoc(Write(d)) == Some(d)
  {
    if d == [] {
      ReadEmptyDoc();
    } else {
      var body := WriteEntries(d) + (['}'] + "");
      ReadEntriesOfWrite(d, [], "");
      assert [] + d == d;
      WriteStarts(d, ['}'] + "");
      ReadDocStep(body, d);
      Braced(WriteEntries(d));
    }
  }

  lemma Braced(entries: string)
    ensures "{" + entries + "}" == ['{'] + (entries + (['}'] + ""))
  {
  }

  lemma ReadEmptyDoc()
    ensures ReadDoc("{}") == Some([])
  {
    assert "{}"[1..] == "}" && "}"[1..] == "";
    SkipNothing("{}");
    SkipNothing("}");
  }

  /** The text determines the dict. */
  lemma WriteInjective(x: Doc, y: Doc)
    requires DistinctKeys(x) && DistinctKeys(y) && Write(x) == Write(y)
    ensures x == y
  {
    ReadDocOfWrite(x);
    ReadDocOfWrite(y);
  }

  lemma {:induction false} WriteEntriesPrintable(d: Doc)
    ensures AllPrintable(WriteEntries(d))
  {
    if d != [] {
      EscapeAllPrintable(d[0].key);
      if d[0].value.Str? {
        EscapeAllPrintable(d[0].value.text);
      }
      WriteEntriesPrintable(d[1..]);
    }
  }

  /** A written dict is one line of printable ASCII: no character that ends a line survives. */
  lemma WritePrintable(d: Doc)
    ensures AllPrintable(Write(d))
  {
    WriteEntriesPrintable(d);
  }

  // ---- lines ----

  /** The characters at which `str.splitlines` splits. */
  predicate IsLineBreak(c: char) {
    '\n' <= c <= '\r' || '\U{1C}' <= c <= '\U{1E}' || c == '\U{85}' || c == '\U{2028}' || c == '\U{2029}'
  }

  /** The lines of `s` when `current` is what the open line already holds. */
  function SplitFrom(s: string, current: string): seq<string>
    decreases |s|
  {
    if s == [] then (if current == [] then [] else [current])
    else if |s| >= 2 && s[0] == '\r' && s[1] == '\n' then [current] + SplitFrom(s[2..], [])
    else if IsLineBreak(s[0]) then [current] + SplitFrom(s[1..], [])
    else SplitFrom(s[1..], current + [s[0]])
  }

  /** `text.splitlines()`. */
  function SplitLines(s: string): seq<string> {
    SplitFrom(s, [])
  }

  predicate EndsLine(s: string) {
    s == [] || s[|s| - 1] == '\n'
  }

  lemma {:induction false} SplitFromAppend(a: string, b: string, current: string)
    requires a != [] && EndsLine(a)
    ensures SplitFrom(a + b, current) == SplitFrom(a, current) + SplitFrom(b, [])
    decreases |a|
  {
    var s := a + b;
    if |a| >= 2 && a[0] == '\r' && a[1] == '\n' {
      assert s[2..] == a[2..] + b;
      if |a| > 2 {
        SplitFromAppend(a[2..], b, []);
      } else {
        assert s[2..] == b;
      }
    } else {
      assert s[1..] == a[1..] + b;
      var open := if IsLineBreak(a[0]) then [] else current + [a[0]];
      if |a| > 1 {
        SplitFromAppend(a[1..], b, open);
      } else {
        assert s[1..] == b;
      }
    }
  }

  /** Text that ends its last line splits independently of what is appended. */
  lemma SplitLinesAppend(a: string, b: string)
    requires EndsLine(a)
    ensures SplitLines(a + b) == SplitLines(a) + SplitLines(b)
  {
    if a == [] {
      assert a + b == b;
    } else {
      SplitFromAppend(a, b, []);
    }
  }

  lemma {:induction false} SplitOneLine(line: string, current: string)
    requires forall c | c in line :: !IsLineBreak(c)
    ensures SplitFrom(line + "\n", current) == [current + line]
  {
    var s := line + "\n";
    if line == [] {
      assert s[1..] == [] && current + line == current;
    } else {
      assert s[1..] == line[1..] + "\n";
      SplitOneLine(line[1..], current + [line[0]]);
      assert current + [line[0]] + line[1..] == current + line;
    }
  }
}
