// Parsed YAML values: comparing them, and what writing and reading them back does.
module Values {
  import opened Text

  datatype Value =
    | Null
    | Bool(b: bool)
    | Int(i: int)
    | Str(s: string)
    | List(items: seq<Value>)
    | Dict(fields: map<string, Value>)

  type Doc = map<string, Value>

  // ---- strings ----

  /** `replace("\r\n", "\n").replace("\r", "\n")`. */
  function Fold(s: string): string {
    if s == [] then []
    else if s[0] != '\r' then [s[0]] + Fold(s[1..])
    else if |s| > 1 && s[1] == '\n' then ['\n'] + Fold(s[2..])
    else ['\n'] + Fold(s[1..])
  }

  function Lines(s: string): (ls: seq<string>)
    ensures |ls| > 0
  {
    if s == [] then [[]]
    else
      var rest := Lines(s[1..]);
      if s[0] == '\n' then [[]] + rest else [[s[0]] + rest[0]] + rest[1..]
  }

  function Join(ls: seq<string>): string
    requires |ls| > 0
  {
    if |ls| == 1 then ls[0] else ls[0] + ['\n'] + Join(ls[1..])
  }

  function RightStripped(ls: seq<string>): (r: seq<string>)
    ensures |r| == |ls|
  {
    if ls == [] then [] else [StripRight(ls[0])] + RightStripped(ls[1..])
  }

  function StripNewlines(s: string): string {
    if s != [] && s[|s| - 1] == '\n' then StripNewlines(s[..|s| - 1]) else s
  }

  /** Each line without its trailing blanks, and no trailing line breaks. */
  function Clean(s: string): string {
    StripNewlines(Join(RightStripped(Lines(s))))
  }

  /** `_normalize` on a string. */
  function NormString(s: string): string {
    Clean(Fold(s))
  }

  /** A string as it reads back from disk: the dumper cleans strings with several lines or more than 80 characters. */
  function ReadString(s: string): string {
    var folded := Fold(s);
    if '\n' in folded || |folded| > 80 then Clean(folded) else folded
  }

  // ---- cleaning, character by character ----

  /** The same as stripping line by line: a blank is dropped when nothing but blanks follows it in its line. */
  function Stripped(s: string): string {
    if s == [] then []
    else
      var rest := Stripped(s[1..]);
      if s[0] != '\n' && IsSpace(s[0]) && (rest == [] || rest[0] == '\n') then rest else [s[0]] + rest
  }

  lemma {:induction false} LinesHaveNoBreaks(s: string)
    ensures forall l | l in Lines(s) :: '\n' !in l
  {
    if s != [] {
      LinesHaveNoBreaks(s[1..]);
      var rest := Lines(s[1..]);
      forall l | l in Lines(s) ensures '\n' !in l {
        if s[0] != '\n' && l == [s[0]] + rest[0] {
          assert rest[0] in rest;
        }
      }
    }
  }

  lemma {:induction false} StripRightCons(c: char, l: string)
    ensures StripRight([c] + l) == if IsSpace(c) && StripRight(l) == [] then [] else [c] + StripRight(l)
  {
    if l != [] && IsSpace(l[|l| - 1]) {
      assert ([c] + l)[..|l|] == [c] + l[..|l| - 1];
      StripRightCons(c, l[..|l| - 1]);
    } else if l == [] {
      assert [c] + l == [c];
    }
  }

  lemma {:induction false} StripRightKeepsChars(l: string)
    ensures forall c | c in StripRight(l) :: c in l
  {
    if l != [] && IsSpace(l[|l| - 1]) {
      StripRightKeepsChars(l[..|l| - 1]);
      assert forall c | c in l[..|l| - 1] :: c in l;
    }
  }

  lemma {:induction false} StrippedIsPerLine(s: string)
    ensures Join(RightStripped(Lines(s))) == Stripped(s)
  {
    if s != [] {
      StrippedIsPerLine(s[1..]);
      LinesHaveNoBreaks(s[1..]);
      var rest := Lines(s[1..]);
      if s[0] == '\n' {
        assert RightStripped([[]] + rest) == [[]] + RightStripped(rest);
      } else {
        StripRightCons(s[0], rest[0]);
        assert rest[0] in rest;
        StripRightKeepsChars(rest[0]);
        FirstLineGrows(s[0], rest);
      }
    }
  }

  lemma FirstLineGrows(c: char, rest: seq<string>)
    requires |rest| > 0 && c != '\n' && '\n' !in StripRight(rest[0])
    ensures var joined := Join(RightStripped(rest));
      Join(RightStripped([[c] + rest[0]] + rest[1..])) ==
        if IsSpace(c) && (joined == [] || joined[0] == '\n') then joined else [c] + joined
  {
    StripRightCons(c, rest[0]);
    assert ([[c] + rest[0]] + rest[1..])[1..] == rest[1..];
    JoinFirst(c, StripRight(rest[0]), RightStripped(rest[1..]));
  }

  lemma JoinFirst(c: char, first: string, more: seq<string>)
    requires '\n' !in first
    ensures var joined := Join([first] + more);
      Join([if IsSpace(c) && first == [] then [] else [c] + first] + more) ==
        if IsSpace(c) && (joined == [] || joined[0] == '\n') then joined else [c] + joined
  {
    JoinCons(first, more);
    if !(IsSpace(c) && first == []) {
      JoinCons([c] + first, more);
      if first != [] {
        assert first[0] in first;
      }
    }
  }

  lemma JoinCons(l: string, more: seq<string>)
    ensures Join([l] + more) == if more == [] then l else l + ['\n'] + Join(more)
  {
    assert more != [] ==> ([l] + more)[1..] == more;
  }

  lemma {:induction false} StrippedIdempotent(s: string)
    ensures Stripped(Stripped(s)) == Stripped(s)
  {
    if s != [] {
      StrippedIdempotent(s[1..]);
      var rest := Stripped(s[1..]);
      if Stripped(s) != rest {
        assert ([s[0]] + rest)[1..] == rest;
      }
    }
  }

  lemma {:induction false} StrippedBeforeBreak(s: string)
    ensures Stripped(s + ['\n']) == Stripped(s) + ['\n']
  {
    if s == [] {
      assert [] + ['\n'] == ['\n'] && ['\n'][1..] == [];
    } else {
      assert (s + ['\n'])[1..] == s[1..] + ['\n'];
      StrippedBeforeBreak(s[1..]);
    }
  }

  lemma {:induction false} StripNewlinesKeepsStripped(t: string)
    requires Stripped(t) == t
    ensures Stripped(StripNewlines(t)) == StripNewlines(t) && StripNewlines(StripNewlines(t)) == StripNewlines(t)
  {
    if t != [] && t[|t| - 1] == '\n' {
      var u := t[..|t| - 1];
      assert t == u + ['\n'];
      StrippedBeforeBreak(u);
      StripNewlinesKeepsStripped(u);
    }
  }

  lemma CleanIdempotent(s: string)
    ensures Clean(Clean(s)) == Clean(s)
  {
    StrippedIsPerLine(s);
    StrippedIsPerLine(Clean(s));
    StrippedIdempotent(s);
    StripNewlinesKeepsStripped(Stripped(s));
  }

  lemma {:induction false} FoldDropsReturns(s: string)
    ensures '\r' !in Fold(s)
    decreases |s|
  {
    if s != [] {
      if s[0] == '\r' && |s| > 1 && s[1] == '\n' {
        FoldDropsReturns(s[2..]);
      } else {
        FoldDropsReturns(s[1..]);
      }
    }
  }

  lemma {:induction false} FoldWithoutReturns(s: string)
    requires '\r' !in s
    ensures Fold(s) == s
  {
    if s != [] {
      assert s[0] in s && forall c | c in s[1..] :: c in s;
      FoldWithoutReturns(s[1..]);
    }
  }

  lemma {:induction false} StrippedKeepsChars(s: string)
    ensures forall c | c in Stripped(s) :: c in s
  {
    if s != [] {
      StrippedKeepsChars(s[1..]);
      assert forall c | c in s[1..] :: c in s;
    }
  }

  lemma {:induction false} StripNewlinesKeepsChars(s: string)
    ensures forall c | c in StripNewlines(s) :: c in s
  {
    if s != [] && s[|s| - 1] == '\n' {
      StripNewlinesKeepsChars(s[..|s| - 1]);
      assert forall c | c in s[..|s| - 1] :: c in s;
    }
  }

  lemma FoldOfClean(s: string)
    requires '\r' !in s
    ensures Fold(Clean(s)) == Clean(s)
  {
    StrippedIsPerLine(s);
    StrippedKeepsChars(s);
    StripNewlinesKeepsChars(Stripped(s));
    FoldWithoutReturns(Clean(s));
  }

  lemma NormStringIdempotent(s: string)
    ensures NormString(NormString(s)) == NormString(s)
  {
    FoldDropsReturns(s);
    FoldOfClean(Fold(s));
    CleanIdempotent(Fold(s));
  }

  /** Writing and reading back changes nothing the comparison sees, and is stable. */
  lemma ReadStringIsInvisible(s: string)
    ensures NormString(ReadString(s)) == NormString(s) && ReadString(ReadString(s)) == ReadString(s)
  {
    var folded := Fold(s);
    FoldDropsReturns(s);
    FoldWithoutReturns(folded);
    FoldOfClean(folded);
    CleanIdempotent(folded);
  }

  /** Strings without blanks, as ids and names are. */
  predicate Plain(s: string) {
    forall c | c in s :: !IsSpace(c)
  }

  lemma {:induction false} StrippedOfPlain(s: string)
    requires Plain(s)
    ensures Stripped(s) == s && StripNewlines(s) == s
  {
    if s != [] {
      assert !IsSpace(s[0]) && s[|s| - 1] != '\n' by { assert s[0] in s && s[|s| - 1] in s; }
      assert Plain(s[1..]) by { assert forall c | c in s[1..] :: c in s; }
      StrippedOfPlain(s[1..]);
      assert [s[0]] + s[1..] == s;
    }
  }

  lemma ReadStringOfPlain(s: string)
    requires Plain(s)
    ensures ReadString(s) == s
  {
    FoldWithoutReturns(s);
    StrippedIsPerLine(s);
    StrippedOfPlain(s);
  }

  // ---- values ----

  /** `_normalize`. */
  function Normalize(v: Value): Value {
    match v
    case Str(s) => Str(NormString(s))
    case List(items) => List(seq(|items|, i requires 0 <= i < |items| => Normalize(items[i])))
    case Dict(fields) => Dict(map k | k in fields :: Normalize(fields[k]))
    case _ => v
  }

  /** A value dumped and loaded again. */
  function Readback(v: Value): Value {
    match v
    case Str(s) => Str(ReadString(s))
    case List(items) => List(seq(|items|, i requires 0 <= i < |items| => Readback(items[i])))
    case Dict(fields) => Dict(map k | k in fields :: Readback(fields[k]))
    case _ => v
  }

  function ReadDoc(d: Doc): Doc {
    map k | k in d :: Readback(d[k])
  }

  lemma {:induction false} NormalizeIdempotent(v: Value)
    ensures Normalize(Normalize(v)) == Normalize(v)
  {
    match v
    case Str(s) => NormStringIdempotent(s);
    case List(items) =>
      forall i | 0 <= i < |items| ensures Normalize(Normalize(items[i])) == Normalize(items[i]) {
        NormalizeIdempotent(items[i]);
      }
    case Dict(fields) =>
      forall k | k in fields ensures Normalize(Normalize(fields[k])) == Normalize(fields[k]) {
        NormalizeIdempotent(fields[k]);
      }
    case _ =>
  }

  /** Reading back is invisible to the comparison, and stable, on every nested value. */
  lemma {:induction false} ReadbackIsInvisible(v: Value)
    ensures Normalize(Readback(v)) == Normalize(v) && Readback(Readback(v)) == Readback(v)
  {
    match v
    case Str(s) => ReadStringIsInvisible(s);
    case List(items) =>
      forall i | 0 <= i < |items|
        ensures Normalize(Readback(items[i])) == Normalize(items[i])
        ensures Readback(Readback(items[i])) == Readback(items[i])
      {
        ReadbackIsInvisible(items[i]);
      }
    case Dict(fields) =>
      forall k | k in fields
        ensures Normalize(Readback(fields[k])) == Normalize(fields[k])
        ensures Readback(Readback(fields[k])) == Readback(fields[k])
      {
        ReadbackIsInvisible(fields[k]);
      }
    case _ =>
  }

  // ---- comparing payloads ----

  /** `_payloads_match`. */
  predicate PayloadsMatch(local: Value, remote: Value) {
    Normalize(local) == Normalize(remote)
  }

  datatype Kind = Added | Removed | Modified

  datatype FieldDiff = FieldDiff(key: string, kind: Kind)

  function Sub(prefix: string, key: string): string {
    if prefix == "" then key else prefix + "." + key
  }

  /** `_diff_walk`. */
  ghost function DiffWalk(local: Value, remote: Value, prefix: string): seq<FieldDiff>
    decreases local, 1, 0
  {
    if local == remote then []
    else if local.Dict? && remote.Dict? then
      DiffKeys(local, remote, Sorted(local.fields.Keys + remote.fields.Keys), prefix)
    else [FieldDiff(if prefix == "" then "(root)" else prefix, Modified)]
  }

  /** The loop over the sorted keys. */
  ghost function DiffKeys(local: Value, remote: Value, keys: seq<string>, prefix: string): seq<FieldDiff>
    requires local.Dict? && remote.Dict?
    decreases local, 0, |keys|
  {
    if keys == [] then []
    else
      var k, sub := keys[|keys| - 1], Sub(prefix, keys[|keys| - 1]);
      DiffKeys(local, remote, keys[..|keys| - 1], prefix) +
      if k !in local.fields && k !in remote.fields then []
      else if k !in local.fields then [FieldDiff(sub, Added)]
      else if k !in remote.fields then [FieldDiff(sub, Removed)]
      else DiffWalk(local.fields[k], remote.fields[k], sub)
  }

  ghost function Diff(local: Value, remote: Value): seq<FieldDiff> {
    DiffWalk(Normalize(local), Normalize(remote), "")
  }

  lemma {:induction false} DiffWalkEmptyIffEqual(local: Value, remote: Value, prefix: string)
    ensures DiffWalk(local, remote, prefix) == [] <==> local == remote
    decreases local, 1, 0
  {
    if local != remote && local.Dict? && remote.Dict? {
      var keys := Sorted(local.fields.Keys + remote.fields.Keys);
      DiffKeysEmptyIffEqual(local, remote, keys, prefix);
      if AllAgree(local.fields, remote.fields, keys) {
        FieldsEqual(local.fields, remote.fields, keys);
      }
    }
  }

  predicate Agree(a: map<string, Value>, b: map<string, Value>, k: string) {
    (k in a <==> k in b) && (k in a ==> a[k] == b[k])
  }

  predicate AllAgree(a: map<string, Value>, b: map<string, Value>, keys: seq<string>) {
    if keys == [] then true else AllAgree(a, b, keys[..|keys| - 1]) && Agree(a, b, keys[|keys| - 1])
  }

  lemma {:induction false} AllAgreeOn(a: map<string, Value>, b: map<string, Value>, keys: seq<string>, k: string)
    requires AllAgree(a, b, keys) && k in keys
    ensures Agree(a, b, k)
  {
    if k != keys[|keys| - 1] {
      assert keys == keys[..|keys| - 1] + [keys[|keys| - 1]];
      AllAgreeOn(a, b, keys[..|keys| - 1], k);
    }
  }

  lemma FieldsEqual(a: map<string, Value>, b: map<string, Value>, keys: seq<string>)
    requires AllAgree(a, b, keys) && forall k :: k in keys <==> k in a.Keys + b.Keys
    ensures a == b
  {
    forall k ensures (k in a <==> k in b) && (k in a ==> a[k] == b[k]) {
      if k in a.Keys + b.Keys {
        AllAgreeOn(a, b, keys, k);
      }
    }
  }

  lemma {:induction false} DiffKeysEmptyIffEqual(local: Value, remote: Value, keys: seq<string>, prefix: string)
    requires local.Dict? && remote.Dict?
    ensures DiffKeys(local, remote, keys, prefix) == [] <==> AllAgree(local.fields, remote.fields, keys)
    decreases local, 0, |keys|
  {
    if keys != [] {
      var k, rest := keys[|keys| - 1], keys[..|keys| - 1];
      DiffKeysEmptyIffEqual(local, remote, rest, prefix);
      if k in local.fields && k in remote.fields {
        DiffWalkEmptyIffEqual(local.fields[k], remote.fields[k], Sub(prefix, k));
      }
    }
  }

  lemma {:induction false} DiffKeysNames(local: Value, remote: Value, keys: seq<string>, prefix: string, k: string)
    requires local.Dict? && remote.Dict? && k in keys
    ensures k !in local.fields && k in remote.fields ==>
      FieldDiff(Sub(prefix, k), Added) in DiffKeys(local, remote, keys, prefix)
    ensures k in local.fields && k !in remote.fields ==>
      FieldDiff(Sub(prefix, k), Removed) in DiffKeys(local, remote, keys, prefix)
    ensures k in local.fields && k in remote.fields ==> forall d ::
      d in DiffWalk(local.fields[k], remote.fields[k], Sub(prefix, k)) ==> d in DiffKeys(local, remote, keys, prefix)
  {
    if k != keys[|keys| - 1] {
      assert keys == keys[..|keys| - 1] + [keys[|keys| - 1]];
      DiffKeysNames(local, remote, keys[..|keys| - 1], prefix, k);
    }
  }

  /** Every key on one side only is reported as added or removed under its dotted path, and every difference further
      down is reported too. */
  lemma DiffWalkNames(local: Value, remote: Value, prefix: string, k: string)
    requires local.Dict? && remote.Dict? && (k in local.fields || k in remote.fields)
    ensures k !in local.fields ==> FieldDiff(Sub(prefix, k), Added) in DiffWalk(local, remote, prefix)
    ensures k !in remote.fields ==> FieldDiff(Sub(prefix, k), Removed) in DiffWalk(local, remote, prefix)
    ensures k in local.fields && k in remote.fields ==> forall d ::
      d in DiffWalk(local.fields[k], remote.fields[k], Sub(prefix, k)) ==> d in DiffWalk(local, remote, prefix)
  {
    if local != remote {
      DiffKeysNames(local, remote, Sorted(local.fields.Keys + remote.fields.Keys), prefix, k);
    }
  }

  /** The field report is empty exactly when the payloads match. */
  lemma DiffEmptyIffMatch(local: Value, remote: Value)
    ensures Diff(local, remote) == [] <==> PayloadsMatch(local, remote)
  {
    DiffWalkEmptyIffEqual(Normalize(local), Normalize(remote), "");
  }
}
