// The texts that are read as a flat object: exactly those of the grammar (sections 2 to 7 of RFC 8259).
module JsonGrammar {
  import opened Text
  import opened JsonText

  // ---- blanks ----

  predicate Blanks(w: string) {
    forall c | c in w :: c in {' ', '\t', '\n', '\r'}
  }

  lemma {:induction false} SkipBlanks(w: string, s: string)
    requires Blanks(w) && (s == [] || !IsJsonSpace(s[0]))
    ensures SkipSpace(w + s) == s
  {
    if w == [] {
      assert w + s == s;
    } else {
      assert w[0] in w && forall c | c in w[1..] :: c in w;
      assert (w + s)[1..] == w[1..] + s;
      SkipBlanks(w[1..], s);
    }
  }

  lemma {:induction false} SkippedAre(s: string) returns (w: string)
    ensures Blanks(w) && s == w + SkipSpace(s)
    ensures SkipSpace(s) != [] ==> !IsJsonSpace(SkipSpace(s)[0])
  {
    w := "";
    if s != [] && IsJsonSpace(s[0]) {
      w := SkippedAre(s[1..]);
      w := [s[0]] + w;
    }
  }

  // ---- strings ----

  /** `\u` and four hexadecimal digits of that value. */
  predicate IsUnit(q: string, n: nat) {
    |q| == 6 && q[0] == '\\' && q[1] == 'u' && Hex4Value(q[2..6]) == Some(n)
  }

  /** A character within quotes: itself, unless it is a quote, a backslash or a control character; a short escape; its
      code; or, above the basic plane, two surrogates. */
  predicate SpellsChar(q: string, c: char) {
    || (q == [c] && c != '"' && c != '\\' && c >= ' ')
    || (|q| == 2 && q[0] == '\\' && Unescape(q[1]) == Some(c))
    || IsUnit(q, c as int)
    || (|q| == 12 && c as int >= 0x10000
        && IsUnit(q[..6], 0xD800 + (c as int - 0x10000) / 1024)
        && IsUnit(q[6..], 0xDC00 + (c as int - 0x10000) % 1024))
  }

  lemma CharReads(q: string, c: char, rest: string)
    requires SpellsChar(q, c)
    ensures q != [] && q[0] != '"' && ReadChar(q + rest) == Some(Read(c, rest))
  {
    if |q| == 1 {
      ReadUnescaped(c, rest);
    } else if |q| == 2 {
      ReadShortEscape(c, q[1], rest);
      assert q == ['\\', q[1]];
    } else if |q| == 6 {
      CodeReads(q, c, rest);
    } else {
      PairReads(q, c, rest);
    }
  }

  lemma CodeReads(q: string, c: char, rest: string)
    requires IsUnit(q, c as int)
    ensures ReadChar(q + rest) == Some(Read(c, rest))
  {
    UnitReads(q, c as int, rest);
    assert (q + rest)[0] == q[0] && (q + rest)[1] == q[1];
  }

  lemma UnitReads(q: string, n: nat, rest: string)
    requires IsUnit(q, n)
    ensures ReadUnit(q + rest) == Some(n) && (q + rest)[6..] == rest
  {
    assert (q + rest)[2..6] == q[2..6];
  }

  lemma PairReads(q: string, c: char, rest: string)
    requires |q| == 12 && SpellsChar(q, c)
    ensures ReadChar(q + rest) == Some(Read(c, rest))
  {
    var v := c as int - 0x10000;
    UnitReads(q[..6], 0xD800 + v / 1024, q[6..] + rest);
    UnitReads(q[6..], 0xDC00 + v % 1024, rest);
    assert q + rest == q[..6] + (q[6..] + rest);
    assert (q + rest)[12..] == rest;
    assert v == v / 1024 * 1024 + v % 1024;
  }

  lemma CharRead(s: string, c: char, rest: string) returns (q: string)
    requires s != [] && s[0] != '"' && ReadChar(s) == Some(Read(c, rest))
    ensures s == q + rest && SpellsChar(q, c)
  {
    if s[0] != '\\' {
      q := [c];
    } else if s[1] == 'u' {
      q := UnitRead(s, c, rest);
    } else {
      q := s[..2];
      assert rest == s[2..] && q[1] == s[1] && Unescape(q[1]) == Some(c);
    }
  }

  lemma UnitRead(s: string, c: char, rest: string) returns (q: string)
    requires |s| > 1 && s[0] == '\\' && s[1] == 'u' && ReadChar(s) == Some(Read(c, rest))
    ensures s == q + rest && SpellsChar(q, c)
  {
    var u := ReadUnit(s).value;
    if u < 0xD800 || 0xE000 <= u {
      q := s[..6];
      CodeRead(s, u);
    } else {
      q := s[..12];
      PairRead(s, c, rest, u, ReadUnit(s[6..]).value);
    }
  }

  lemma CodeRead(s: string, u: nat)
    requires ReadUnit(s) == Some(u)
    ensures IsUnit(s[..6], u)
  {
    assert s[..6][2..6] == s[2..6];
  }

  lemma Slice(s: string, a: nat, b: nat, c: nat, d: nat)
    requires a <= b <= |s| && c <= d <= b - a
    ensures s[a..b][c..d] == s[a + c..a + d]
  {
    var x, y := s[a..b][c..d], s[a + c..a + d];
    assert |x| == |y| && forall i | 0 <= i < |x| :: x[i] == y[i];
  }

  lemma SliceOfSlices(s: string)
    requires |s| >= 12
    ensures s[..12][..6][2..6] == s[2..6] && s[..12][6..][2..6] == s[6..][2..6]
  {
    Slice(s, 0, 12, 0, 6);
    Slice(s, 0, 6, 2, 6);
    Slice(s, 0, 12, 6, 12);
    Slice(s, 6, 12, 2, 6);
    Slice(s, 6, |s|, 2, 6);
    assert s[..12][..6] == s[0..6] && s[..12][6..] == s[6..12] && s[6..] == s[6..|s|];
  }

  lemma PairRead(s: string, c: char, rest: string, u: nat, low: nat)
    requires |s| >= 12 && rest == s[12..] && 0xD800 <= u < 0xDC00 && 0xDC00 <= low < 0xE000
    requires ReadUnit(s) == Some(u) && ReadUnit(s[6..]) == Some(low)
    requires c as int == 0x10000 + (u - 0xD800) * 1024 + low - 0xDC00
    ensures SpellsChar(s[..12], c)
  {
    var q := s[..12];
    SliceOfSlices(s);
    assert IsUnit(q[..6], u) && IsUnit(q[6..], low);
    assert (c as int - 0x10000) / 1024 == u - 0xD800 && (c as int - 0x10000) % 1024 == low - 0xDC00;
  }

  /** A text within quotes, character by character. */
  ghost predicate SpellsText(q: string, t: string)
    decreases |t|
  {
    if t == [] then q == [] else exists n | 0 <= n <= |q| :: SpellsChar(q[..n], t[0]) && SpellsText(q[n..], t[1..])
  }

  lemma FirstChar(q: string, t: string) returns (n: nat)
    requires t != [] && SpellsText(q, t)
    ensures n <= |q| && SpellsChar(q[..n], t[0]) && SpellsText(q[n..], t[1..])
  {
    n :| 0 <= n <= |q| && SpellsChar(q[..n], t[0]) && SpellsText(q[n..], t[1..]);
  }

  lemma SplitAt(q: string, n: nat, rest: string)
    requires n <= |q|
    ensures q + rest == q[..n] + (q[n..] + rest)
  {
  }

  lemma OneMoreChar(a: string, b: string, c: char, t: string, rest: string)
    requires SpellsChar(a, c) && ReadChars(b) == Some(Read(t, rest))
    ensures ReadChars(a + b) == Some(Read([c] + t, rest))
  {
    CharReads(a, c, b);
    ReadOneMore(a, b, c, t, rest);
  }

  lemma {:induction false} SpellsMore(a: string, b: string, c: char, t: string)
    requires SpellsChar(a, c) && SpellsText(b, t)
    ensures SpellsText(a + b, [c] + t)
  {
    var n := |a|;
    assert (a + b)[..n] == a && (a + b)[n..] == b && ([c] + t)[1..] == t;
  }

  lemma {:induction false} TextReads(q: string, t: string, rest: string)
    requires SpellsText(q, t)
    ensures ReadChars(q + (['"'] + rest)) == Some(Read(t, rest))
    decreases |t|
  {
    if t == [] {
      assert q + (['"'] + rest) == ['"'] + rest;
    } else {
      var n := FirstChar(q, t);
      TextReads(q[n..], t[1..], rest);
      OneMoreChar(q[..n], q[n..] + (['"'] + rest), t[0], t[1..], rest);
      SplitAt(q, n, ['"'] + rest);
      assert [t[0]] + t[1..] == t;
    }
  }

  lemma CharThenText(s: string, t: string, rest: string) returns (c: char, cs: string, more: string)
    requires s != [] && s[0] != '"' && ReadChars(s) == Some(Read(t, rest))
    ensures ReadChar(s) == Some(Read(c, more)) && |more| < |s|
    ensures ReadChars(more) == Some(Read(cs, rest)) && t == [c] + cs
  {
    c, more := ReadChar(s).value.value, ReadChar(s).value.rest;
    cs := ReadChars(more).value.value;
  }

  lemma Reassociate(a: string, b: string, c: string)
    ensures a + b + c == a + (b + c)
  {
  }

  lemma {:induction false} TextRead(s: string, t: string, rest: string) returns (q: string)
    requires ReadChars(s) == Some(Read(t, rest))
    ensures s == q + (['"'] + rest) && SpellsText(q, t)
    decreases |s|
  {
    if s[0] == '"' {
      q := "";
      assert s == ['"'] + rest;
    } else {
      var c, cs, more := CharThenText(s, t, rest);
      var piece := CharRead(s, c, more);
      var tail := TextRead(more, cs, rest);
      SpellsMore(piece, tail, c, cs);
      q := piece + tail;
      Reassociate(piece, tail, ['"'] + rest);
    }
  }

  // ---- members and objects ----

  ghost predicate Quoted(q: string, t: string) {
    |q| >= 2 && q[0] == '"' && q[|q| - 1] == '"' && SpellsText(q[1..|q| - 1], t)
  }

  ghost predicate SpellsScalar(q: string, v: Scalar) {
    match v
    case Null => q == "null"
    case Str(t) => Quoted(q, t)
  }

  /** One member as it is written: its entry, the texts of key and value, the blanks around the colon and behind the
      value, and those behind the comma when another member follows. */
  datatype Member = Member(
    entry: Entry, key: string, beforeColon: string, afterColon: string, value: string, behind: string,
    afterComma: string)
  {
    ghost predicate Valid() {
      && Quoted(key, entry.key) && SpellsScalar(value, entry.value)
      && Blanks(beforeColon) && Blanks(afterColon) && Blanks(behind) && Blanks(afterComma)
    }

    function Text(): string {
      key + (beforeColon + ([':'] + (afterColon + (value + behind))))
    }
  }

  function MembersText(ms: seq<Member>): string {
    if ms == [] then []
    else if |ms| == 1 then ms[0].Text()
    else ms[0].Text() + ([','] + (ms[0].afterComma + MembersText(ms[1..])))
  }

  /** An object as it is written, with the blanks around it and behind the opening brace. */
  datatype ObjectText = ObjectText(before: string, inside: string, members: seq<Member>, behind: string)
  {
    ghost predicate Valid() {
      && Blanks(before) && Blanks(inside) && Blanks(behind)
      && forall m | m in members :: m.Valid()
    }

    function Text(): string {
      before + (['{'] + (inside + (MembersText(members) + (['}'] + behind))))
    }

    /** Of a key that is written twice the last value counts, at the first place. */
    function Meaning(): Doc {
      PutAll([], members)
    }
  }

  function PutAll(acc: Doc, ms: seq<Member>): Doc
    decreases |ms|
  {
    if ms == [] then acc else PutAll(Put(acc, ms[0].entry.key, ms[0].entry.value), ms[1..])
  }

  lemma {:induction false} PutHolds(acc: Doc, k: string, v: Scalar)
    ensures Entry(k, v) in Put(acc, k, v)
    ensures forall e | e in acc && e.key != k :: e in Put(acc, k, v)
  {
    if acc != [] && acc[0].key != k {
      PutHolds(acc[1..], k, v);
      assert forall e | e in acc :: e == acc[0] || e in acc[1..];
    }
  }

  lemma {:induction false} OthersKeep(acc: Doc, ms: seq<Member>, e: Entry)
    requires e in acc && forall m | m in ms :: m.entry.key != e.key
    ensures e in PutAll(acc, ms)
    decreases |ms|
  {
    if ms != [] {
      assert ms[0] in ms && forall m | m in ms[1..] :: m in ms;
      PutHolds(acc, ms[0].entry.key, ms[0].entry.value);
      OthersKeep(Put(acc, ms[0].entry.key, ms[0].entry.value), ms[1..], e);
    }
  }

  /** The last value of a key is the one that counts. */
  lemma {:induction false} LastValueCounts(acc: Doc, ms: seq<Member>, i: nat)
    requires i < |ms| && forall m | m in ms[i + 1..] :: m.entry.key != ms[i].entry.key
    ensures ms[i].entry in PutAll(acc, ms)
    decreases |ms|
  {
    var acc' := Put(acc, ms[0].entry.key, ms[0].entry.value);
    if i == 0 {
      PutHolds(acc, ms[0].entry.key, ms[0].entry.value);
      OthersKeep(acc', ms[1..], ms[0].entry);
    } else {
      assert ms[1..][i - 1] == ms[i] && ms[1..][i..] == ms[i + 1..];
      LastValueCounts(acc', ms[1..], i - 1);
    }
  }

  // ---- what is written is read ----

  lemma QuotedReads(q: string, t: string, rest: string)
    requires Quoted(q, t)
    ensures (q + rest)[0] == '"' && ReadChars((q + rest)[1..]) == Some(Read(t, rest))
  {
    TextReads(q[1..|q| - 1], t, rest);
    assert (q + rest)[1..] == q[1..|q| - 1] + (['"'] + rest);
  }

  lemma ScalarReads(q: string, v: Scalar, rest: string)
    requires SpellsScalar(q, v)
    ensures q != [] && !IsJsonSpace(q[0]) && ReadScalar(q + rest) == Some(Read(v, rest))
  {
    match v
    case Null => ReadNull(rest);
    case Str(t) => QuotedReads(q, t, rest);
  }

  lemma Split5(a: string, b: string, c: string, d: string, e: string, rest: string)
    ensures a + (b + (c + (d + e))) + rest == a + (b + (c + (d + (e + rest))))
  {
  }

  lemma MemberReads(m: Member, c: char, rest: string)
    requires m.Valid() && !IsJsonSpace(c)
    ensures ReadEntry(m.Text() + ([c] + rest)) == Some(Read(m.entry, [c] + rest))
  {
    var after := [c] + rest;
    var behind := m.behind + after;
    var value := m.value + behind;
    var colon := [':'] + (m.afterColon + value);
    Split5(m.key, m.beforeColon, [':'], m.afterColon, m.value + m.behind, after);
    assert m.value + m.behind + after == value;
    QuotedReads(m.key, m.entry.key, m.beforeColon + colon);
    SkipBlanks(m.beforeColon, colon);
    assert colon[1..] == m.afterColon + value;
    ScalarReads(m.value, m.entry.value, behind);
    SkipBlanks(m.afterColon, value);
    SkipBlanks(m.behind, after);
  }

  lemma {:induction false} MembersRead(ms: seq<Member>, acc: Doc, rest: string)
    requires ms != [] && forall m | m in ms :: m.Valid()
    ensures ReadEntries(MembersText(ms) + (['}'] + rest), acc) == Some(Read(PutAll(acc, ms), rest))
    decreases |ms|
  {
    var m, close := ms[0], ['}'] + rest;
    var acc' := Put(acc, m.entry.key, m.entry.value);
    assert m in ms;
    if |ms| == 1 {
      MemberReads(m, '}', rest);
      assert close[1..] == rest && ms[1..] == [];
    } else {
      assert forall x | x in ms[1..] :: x in ms;
      assert ms[1] == ms[1..][0];
      MembersRead(ms[1..], acc', rest);
      MembersStart(ms[1..], close);
      NextMember(m.Text(), m.afterComma, MembersText(ms[1..]), close);
      OneMoreMember(m, MembersText(ms[1..]) + close, acc);
    }
  }

  lemma OneMoreMember(m: Member, more: string, acc: Doc)
    requires m.Valid() && more != [] && more[0] == '"'
    ensures ReadEntries(m.Text() + ([','] + (m.afterComma + more)), acc) ==
      ReadEntries(more, Put(acc, m.entry.key, m.entry.value))
  {
    MemberReads(m, ',', m.afterComma + more);
    SkipBlanks(m.afterComma, more);
    assert ([','] + (m.afterComma + more))[1..] == m.afterComma + more;
  }

  lemma NextMember(text: string, blanks: string, others: string, close: string)
    ensures text + ([','] + (blanks + others)) + close == text + ([','] + (blanks + (others + close)))
    ensures ([','] + (blanks + (others + close)))[1..] == blanks + (others + close)
  {
  }

  lemma MembersStart(ms: seq<Member>, close: string)
    requires ms != [] && ms[0].Valid()
    ensures var s := MembersText(ms) + close; s != [] && s[0] == '"'
  {
  }

  /** Every text of the grammar is read, as what it means. */
  lemma ObjectReads(o: ObjectText)
    requires o.Valid()
    ensures ReadDoc(o.Text()) == Some(o.Meaning())
  {
    var body := MembersText(o.members) + (['}'] + o.behind);
    var inner := ['{'] + (o.inside + body);
    SkipBlanks(o.before, inner);
    assert inner[1..] == o.inside + body;
    SkipBlanks(o.behind, "");
    assert o.behind + "" == o.behind;
    if o.members == [] {
      assert body == ['}'] + o.behind;
      SkipBlanks(o.inside, body);
      assert body[1..] == o.behind;
    } else {
      assert o.members[0] in o.members;
      MembersStart(o.members, ['}'] + o.behind);
      SkipBlanks(o.inside, body);
      MembersRead(o.members, [], o.behind);
    }
  }

  // ---- what is read was written ----

  lemma QuotedRead(s: string, t: string, rest: string) returns (q: string)
    requires s != [] && s[0] == '"' && ReadChars(s[1..]) == Some(Read(t, rest))
    ensures s == q + rest && Quoted(q, t)
  {
    var x := TextRead(s[1..], t, rest);
    q := ['"'] + x + ['"'];
    Inside(x);
    Around(x, rest);
    assert s == ['"'] + s[1..];
  }

  lemma Inside(x: string)
    ensures var q := ['"'] + x + ['"']; q[1..|q| - 1] == x && q[0] == '"' && q[|q| - 1] == '"'
  {
  }

  lemma Around(x: string, rest: string)
    ensures ['"'] + x + ['"'] + rest == ['"'] + (x + (['"'] + rest))
  {
  }

  lemma ScalarRead(s: string, v: Scalar, rest: string) returns (q: string)
    requires ReadScalar(s) == Some(Read(v, rest))
    ensures s == q + rest && SpellsScalar(q, v)
  {
    if s[0] == '"' {
      q := QuotedRead(s, v.text, rest);
    } else {
      q := s[..4];
    }
  }

  lemma KeyRead(s: string, e: Entry, rest: string)
    returns (key: string, beforeColon: string, afterColon: string, start: string)
    requires ReadEntry(s) == Some(Read(e, rest))
    ensures Quoted(key, e.key) && Blanks(beforeColon) && Blanks(afterColon)
    ensures s == key + (beforeColon + ([':'] + (afterColon + start)))
    ensures match ReadScalar(start) case Some(r) => r.value == e.value && SkipSpace(r.rest) == rest case None => false
  {
    var keyRest := ReadChars(s[1..]).value.rest;
    key := QuotedRead(s, e.key, keyRest);
    beforeColon := SkippedAre(keyRest);
    var colon := SkipSpace(keyRest);
    afterColon := SkippedAre(colon[1..]);
    start := SkipSpace(colon[1..]);
    assert colon == [':'] + colon[1..];
  }

  lemma ValueRead(start: string, v: Scalar, valueRest: string) returns (value: string, behind: string)
    requires ReadScalar(start) == Some(Read(v, valueRest))
    ensures SpellsScalar(value, v) && Blanks(behind) && start == value + behind + SkipSpace(valueRest)
    ensures SkipSpace(valueRest) != [] ==> !IsJsonSpace(SkipSpace(valueRest)[0])
  {
    value := ScalarRead(start, v, valueRest);
    behind := SkippedAre(valueRest);
    Reassociate(value, behind, SkipSpace(valueRest));
  }

  lemma RestIsThere(s: string, e: Entry, rest: string)
    requires ReadEntry(s) == Some(Read(e, rest))
    ensures rest != []
  {
  }

  lemma MemberRead(s: string, e: Entry, rest: string) returns (m: Member)
    requires ReadEntry(s) == Some(Read(e, rest))
    ensures m.Valid() && m.entry == e && m.afterComma == "" && s == m.Text() + rest
    ensures rest != [] && !IsJsonSpace(rest[0])
  {
    var key, w1, w2, start := KeyRead(s, e, rest);
    var value, w3 := ValueRead(start, e.value, ReadScalar(start).value.rest);
    m := Member(e, key, w1, w2, value, w3, "");
    Split5(key, w1, [':'], w2, value + w3, rest);
    RestIsThere(s, e, rest);
  }

  lemma {:induction false} MembersAre(s: string, acc: Doc, d: Doc, rest: string) returns (ms: seq<Member>)
    requires ReadEntries(s, acc) == Some(Read(d, rest))
    ensures ms != [] && forall m | m in ms :: m.Valid()
    ensures s == MembersText(ms) + (['}'] + rest) && d == PutAll(acc, ms)
    decreases |s|
  {
    var e, after := ReadEntry(s).value.value, ReadEntry(s).value.rest;
    var m := MemberRead(s, e, after);
    var acc' := Put(acc, e.key, e.value);
    if after[0] == '}' {
      ms := [m];
      assert ms[1..] == [] && after == ['}'] + rest;
    } else {
      var w := SkippedAre(after[1..]);
      var more := MembersAre(SkipSpace(after[1..]), acc', d, rest);
      var first := m.(afterComma := w);
      ms := [first] + more;
      assert ms[1..] == more;
      NextMember(first.Text(), w, MembersText(more), ['}'] + rest);
      assert after == [','] + after[1..];
    }
  }

  /** The text after the opening brace and its blanks. */
  lemma BodyRead(body: string, d: Doc) returns (ms: seq<Member>, behind: string)
    requires body != [] && body[0] == '}' ==> SkipSpace(body[1..]) == [] && d == []
    requires !(body != [] && body[0] == '}') ==>
      ReadEntries(body, []).Some? && ReadEntries(body, []).value.value == d
      && SkipSpace(ReadEntries(body, []).value.rest) == []
    ensures Blanks(behind) && (forall m | m in ms :: m.Valid()) && d == PutAll([], ms)
    ensures body == MembersText(ms) + (['}'] + behind)
  {
    if body != [] && body[0] == '}' {
      behind := SkippedAre(body[1..]);
      ms := [];
      assert body == ['}'] + body[1..] && behind + "" == behind;
    } else {
      var rest := ReadEntries(body, []).value.rest;
      ms := MembersAre(body, [], d, rest);
      behind := SkippedAre(rest);
      assert behind + "" == behind;
    }
  }

  /** Every text that is read is one of the grammar, and is read as what it means. */
  lemma ObjectRead(s: string, d: Doc) returns (o: ObjectText)
    requires ReadDoc(s) == Some(d)
    ensures o.Valid() && s == o.Text() && d == o.Meaning()
  {
    var before := SkippedAre(s);
    var t := SkipSpace(s);
    assert t == ['{'] + t[1..];
    var inside := SkippedAre(t[1..]);
    var ms, behind := BodyRead(SkipSpace(t[1..]), d);
    o := ObjectText(before, inside, ms, behind);
  }
}
