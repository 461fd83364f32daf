// When two payloads match, said by recursion on the two values and without normalising either.
module PayloadMatching {
  import opened Text
  import opened Values

  // ---- texts ----

  /** The lines of a text, whichever of the three line breaks it uses. */
  function TextLines(s: string): (ls: seq<string>)
    ensures |ls| > 0
    decreases |s|
  {
    if s == [] then [[]]
    else if |s| > 1 && s[0] == '\r' && s[1] == '\n' then [[]] + TextLines(s[2..])
    else if s[0] == '\r' || s[0] == '\n' then [[]] + TextLines(s[1..])
    else
      var rest := TextLines(s[1..]);
      [[s[0]] + rest[0]] + rest[1..]
  }

  /** Without the empty lines at the end; one line always stays. */
  function WithoutEmptyEnd(ls: seq<string>): (r: seq<string>)
    requires |ls| > 0
    ensures |r| > 0
  {
    if |ls| > 1 && ls[|ls| - 1] == "" then WithoutEmptyEnd(ls[..|ls| - 1]) else ls
  }

  function Trimmed(ls: seq<string>): (r: seq<string>)
    ensures |r| == |ls|
  {
    seq(|ls|, i requires 0 <= i < |ls| => StripRight(ls[i]))
  }

  /** The same lines, not counting trailing blanks of a line and empty lines at the end. */
  predicate SameText(s: string, t: string) {
    WithoutEmptyEnd(Trimmed(TextLines(s))) == WithoutEmptyEnd(Trimmed(TextLines(t)))
  }

  lemma {:induction false} TextLinesAreFolded(s: string)
    ensures TextLines(s) == Lines(Fold(s))
    decreases |s|
  {
    if s != [] {
      if |s| > 1 && s[0] == '\r' && s[1] == '\n' {
        TextLinesAreFolded(s[2..]);
        LinesCons('\n', Fold(s[2..]));
      } else {
        TextLinesAreFolded(s[1..]);
        LinesCons(if s[0] == '\r' then '\n' else s[0], Fold(s[1..]));
      }
    }
  }

  lemma LinesCons(c: char, t: string)
    ensures Lines([c] + t) ==
      if c == '\n' then [[]] + Lines(t) else [[c] + Lines(t)[0]] + Lines(t)[1..]
  {
    assert ([c] + t)[1..] == t;
  }

  lemma {:induction false} TrimmedIsRightStripped(ls: seq<string>)
    ensures Trimmed(ls) == RightStripped(ls)
  {
    if ls != [] {
      TrimmedIsRightStripped(ls[1..]);
      assert Trimmed(ls) == [StripRight(ls[0])] + Trimmed(ls[1..]);
    }
  }

  predicate NoBreaks(ls: seq<string>) {
    forall l | l in ls :: '\n' !in l
  }

  lemma TrimmedHasNoBreaks(ls: seq<string>)
    requires NoBreaks(ls)
    ensures NoBreaks(Trimmed(ls))
  {
    forall l | l in Trimmed(ls) ensures '\n' !in l {
      var i :| 0 <= i < |ls| && Trimmed(ls)[i] == l;
      StripRightKeepsChars(ls[i]);
      assert ls[i] in ls;
    }
  }

  // ---- joining lines loses nothing ----

  lemma {:induction false} LinesOfLine(l: string, rest: string)
    requires '\n' !in l
    ensures Lines(l) == [l] && Lines(l + ['\n'] + rest) == [l] + Lines(rest)
  {
    if l == [] {
      assert [] + ['\n'] + rest == ['\n'] + rest;
      LinesCons('\n', rest);
    } else {
      assert l[0] in l && forall c | c in l[1..] :: c in l;
      LinesOfLine(l[1..], rest);
      assert l == [l[0]] + l[1..] && l + ['\n'] + rest == [l[0]] + (l[1..] + ['\n'] + rest);
      LinesCons(l[0], l[1..]);
      LinesCons(l[0], l[1..] + ['\n'] + rest);
      assert [[l[0]] + l[1..]] + [] == [l];
    }
  }

  lemma {:induction false} LinesOfJoin(ls: seq<string>)
    requires |ls| > 0 && NoBreaks(ls)
    ensures Lines(Join(ls)) == ls
  {
    assert ls[0] in ls;
    if |ls| == 1 {
      LinesOfLine(ls[0], "");
    } else {
      assert forall l | l in ls[1..] :: l in ls;
      LinesOfJoin(ls[1..]);
      LinesOfLine(ls[0], Join(ls[1..]));
      assert ls == [ls[0]] + ls[1..];
    }
  }

  lemma {:induction false} JoinSnoc(init: seq<string>, l: string)
    requires |init| > 0
    ensures Join(init + [l]) == Join(init) + ['\n'] + l
  {
    assert (init + [l])[1..] == init[1..] + [l];
    if |init| > 1 {
      JoinSnoc(init[1..], l);
      assert init[0] + ['\n'] + (Join(init[1..]) + ['\n'] + l) == init[0] + ['\n'] + Join(init[1..]) + ['\n'] + l;
    } else {
      assert (init + [l])[1..] == [l];
    }
  }

  /** Dropping line breaks at the end of a joined text is dropping empty lines at the end. */
  lemma {:induction false} StripNewlinesOfJoin(ls: seq<string>)
    requires |ls| > 0 && NoBreaks(ls)
    ensures StripNewlines(Join(ls)) == Join(WithoutEmptyEnd(ls))
  {
    var last := ls[|ls| - 1];
    assert last in ls;
    if |ls| > 1 {
      var init := ls[..|ls| - 1];
      assert ls == init + [last] && forall l | l in init :: l in ls;
      JoinSnoc(init, last);
      if last == "" {
        StripNewlinesOfJoin(init);
        assert Join(ls)[..|Join(ls)| - 1] == Join(init);
      } else {
        assert Join(ls)[|Join(ls)| - 1] == last[|last| - 1] && last[|last| - 1] in last;
      }
    } else {
      assert last != "" ==> last[|last| - 1] in last;
    }
  }

  lemma {:induction false} EndHasNoBreaks(ls: seq<string>)
    requires |ls| > 0 && NoBreaks(ls)
    ensures NoBreaks(WithoutEmptyEnd(ls))
  {
    if |ls| > 1 && ls[|ls| - 1] == "" {
      assert forall l | l in ls[..|ls| - 1] :: l in ls;
      EndHasNoBreaks(ls[..|ls| - 1]);
    }
  }

  /** What `_normalize` makes of a text: its lines, trimmed, without the empty ones at the end. */
  lemma NormalisedIsJoined(s: string)
    ensures NormString(s) == Join(WithoutEmptyEnd(Trimmed(TextLines(s))))
    ensures Lines(NormString(s)) == WithoutEmptyEnd(Trimmed(TextLines(s)))
  {
    var ls := Trimmed(TextLines(s));
    TextLinesAreFolded(s);
    TrimmedIsRightStripped(TextLines(s));
    LinesHaveNoBreaks(Fold(s));
    TrimmedHasNoBreaks(TextLines(s));
    StripNewlinesOfJoin(ls);
    EndHasNoBreaks(ls);
    LinesOfJoin(WithoutEmptyEnd(ls));
  }

  lemma SameTextIff(s: string, t: string)
    ensures NormString(s) == NormString(t) <==> SameText(s, t)
  {
    NormalisedIsJoined(s);
    NormalisedIsJoined(t);
  }

  // ---- values ----

  /** Null, truth values and numbers match only themselves; lists item by item; mappings key by key; texts line by
      line. */
  predicate SameValue(a: Value, b: Value) {
    match (a, b)
    case (Str(s), Str(t)) => SameText(s, t)
    case (List(x), List(y)) => |x| == |y| && forall i | 0 <= i < |x| :: SameValue(x[i], y[i])
    case (Dict(x), Dict(y)) => x.Keys == y.Keys && forall k | k in x :: SameValue(x[k], y[k])
    case _ => a == b
  }

  lemma {:induction false} MatchIffSame(a: Value, b: Value)
    ensures PayloadsMatch(a, b) <==> SameValue(a, b)
  {
    match (a, b)
    case (Str(s), Str(t)) => SameTextIff(s, t);
    case (List(x), List(y)) =>
      forall i | 0 <= i < |x| && i < |y| ensures PayloadsMatch(x[i], y[i]) <==> SameValue(x[i], y[i]) {
        MatchIffSame(x[i], y[i]);
      }
      ListsMatch(x, y);
    case (Dict(x), Dict(y)) =>
      forall k | k in x && k in y ensures PayloadsMatch(x[k], y[k]) <==> SameValue(x[k], y[k]) {
        MatchIffSame(x[k], y[k]);
      }
      DictsMatch(x, y);
    case _ =>
  }

  lemma ListsMatch(x: seq<Value>, y: seq<Value>)
    ensures PayloadsMatch(List(x), List(y)) <==> |x| == |y| && forall i | 0 <= i < |x| :: PayloadsMatch(x[i], y[i])
  {
    var a, b := Normalize(List(x)).items, Normalize(List(y)).items;
    assert |a| == |x| && |b| == |y|;
    if a == b {
      forall i | 0 <= i < |x| ensures PayloadsMatch(x[i], y[i]) {
        assert a[i] == b[i];
      }
    }
  }

  lemma DictsMatch(x: map<string, Value>, y: map<string, Value>)
    ensures PayloadsMatch(Dict(x), Dict(y)) <==> x.Keys == y.Keys && forall k | k in x :: PayloadsMatch(x[k], y[k])
  {
    var a, b := Normalize(Dict(x)).fields, Normalize(Dict(y)).fields;
    assert a.Keys == x.Keys && b.Keys == y.Keys;
    if a == b {
      forall k | k in x ensures PayloadsMatch(x[k], y[k]) {
        assert a[k] == b[k];
      }
    }
  }

  // ---- what the field report says ----

  /** Outside mappings a difference is one modification, at its path or at the root. */
  lemma DiffOfLeaf(local: Value, remote: Value, prefix: string)
    requires local != remote && !(local.Dict? && remote.Dict?)
    ensures DiffWalk(local, remote, prefix) == [FieldDiff(if prefix == "" then "(root)" else prefix, Modified)]
  {
  }

  /** Where the report on a key comes from. */
  ghost predicate Reports(local: Value, remote: Value, prefix: string, k: string, d: FieldDiff)
    requires local.Dict? && remote.Dict?
  {
    if k in local.fields && k in remote.fields then d in DiffWalk(local.fields[k], remote.fields[k], Sub(prefix, k))
    else if k in remote.fields then d == FieldDiff(Sub(prefix, k), Added)
    else k in local.fields && d == FieldDiff(Sub(prefix, k), Removed)
  }

  lemma {:induction false} DiffKeysReport(local: Value, remote: Value, keys: seq<string>, prefix: string, d: FieldDiff)
    requires local.Dict? && remote.Dict?
    ensures d in DiffKeys(local, remote, keys, prefix) <==>
      exists k :: k in keys && Reports(local, remote, prefix, k, d)
  {
    if keys != [] {
      var rest, k := keys[..|keys| - 1], keys[|keys| - 1];
      assert keys == rest + [k] && k in keys;
      DiffKeysReport(local, remote, rest, prefix, d);
      forall j | j in rest ensures j in keys {}
      forall j | j in keys ensures j in rest || j == k {}
    }
  }

  /** In a mapping exactly the keys' own differences are reported: added, removed, or further down. */
  lemma DiffWalkReports(local: Value, remote: Value, prefix: string, d: FieldDiff)
    requires local.Dict? && remote.Dict? && local != remote
    ensures d in DiffWalk(local, remote, prefix) <==> exists k :: Reports(local, remote, prefix, k, d)
  {
    DiffKeysReport(local, remote, Sorted(local.fields.Keys + remote.fields.Keys), prefix, d);
  }

  // ---- what survives on disk ----

  /** The value reached through nested mappings, key by key. */
  function At(v: Value, path: seq<string>): Option<Value> {
    if path == [] then Some(v)
    else match v
      case Dict(fields) => if path[0] in fields then At(fields[path[0]], path[1..]) else None
      case _ => None
  }

  /** The keys with dots between them. */
  function Dotted(path: seq<string>): string
    requires path != []
  {
    if |path| == 1 then path[0] else path[0] + "." + Dotted(path[1..])
  }

  function Extended(prefix: string, path: seq<string>): string {
    if path == [] then prefix else if prefix == "" then Dotted(path) else prefix + "." + Dotted(path)
  }

  lemma ExtendedBySub(prefix: string, path: seq<string>)
    requires path != [] && path[0] != ""
    ensures Sub(prefix, path[0]) != "" && Extended(Sub(prefix, path[0]), path[1..]) == Extended(prefix, path)
  {
    if |path| > 1 && prefix != "" {
      assert prefix + "." + path[0] + "." + Dotted(path[1..]) == prefix + "." + (path[0] + "." + Dotted(path[1..]));
    }
  }

  /** What is reported below a path is reported. */
  lemma {:induction false} DiffBelow(local: Value, remote: Value, path: seq<string>, prefix: string, d: FieldDiff)
    requires At(local, path).Some? && At(remote, path).Some? && forall k | k in path :: k != ""
    requires d in DiffWalk(At(local, path).value, At(remote, path).value, Extended(prefix, path))
    ensures d in DiffWalk(local, remote, prefix)
  {
    if path != [] {
      var k, rest := path[0], path[1..];
      assert path[0] in path && forall x | x in rest :: x in path;
      ExtendedBySub(prefix, path);
      DiffBelow(local.fields[k], remote.fields[k], rest, Sub(prefix, k), d);
      DiffWalkNames(local, remote, prefix, k);
    }
  }

  /** A difference anywhere is reported under the keys leading there, with dots between them: a value that is not the
      same, a key that only the tenant has, a key that only the file has. */
  lemma DifferencesAreNamed(local: Value, remote: Value, path: seq<string>, k: string)
    requires path != [] && forall p | p in path + [k] :: p != ""
    requires At(local, path).Some? && At(remote, path).Some?
    ensures var a, b := At(local, path).value, At(remote, path).value;
      && (a != b && !(a.Dict? && b.Dict?) ==> FieldDiff(Dotted(path), Modified) in DiffWalk(local, remote, ""))
      && (a.Dict? && b.Dict? && k !in a.fields && k in b.fields ==>
           FieldDiff(Dotted(path) + "." + k, Added) in DiffWalk(local, remote, ""))
      && (a.Dict? && b.Dict? && k in a.fields && k !in b.fields ==>
           FieldDiff(Dotted(path) + "." + k, Removed) in DiffWalk(local, remote, ""))
  {
    var a, b := At(local, path).value, At(remote, path).value;
    assert forall p | p in path :: p in path + [k];
    DottedIsSomething(path);
    if a != b && !(a.Dict? && b.Dict?) {
      DiffOfLeaf(a, b, Dotted(path));
      DiffBelow(local, remote, path, "", FieldDiff(Dotted(path), Modified));
    }
    if a.Dict? && b.Dict? && (k in a.fields || k in b.fields) {
      DiffWalkNames(a, b, Dotted(path), k);
      if k !in a.fields {
        DiffBelow(local, remote, path, "", FieldDiff(Dotted(path) + "." + k, Added));
      } else if k !in b.fields {
        DiffBelow(local, remote, path, "", FieldDiff(Dotted(path) + "." + k, Removed));
      }
    }
  }

  lemma DottedIsSomething(path: seq<string>)
    requires path != [] && forall p | p in path :: p != ""
    ensures Dotted(path) != ""
  {
    assert path[0] in path;
  }

  /** A text of one line and at most 80 characters is read back as it was; a longer one loses only blanks at its end. */
  lemma OneLineReadsBack(s: string)
    requires '\n' !in s && '\r' !in s
    ensures ReadString(s) == if |s| <= 80 then s else StripRight(s)
  {
    FoldWithoutReturns(s);
    LinesOfLine(s, "");
    StripRightKeepsChars(s);
    assert RightStripped([s]) == [StripRight(s)];
    NoNewlineStays(StripRight(s));
  }

  lemma NoNewlineStays(s: string)
    requires '\n' !in s
    ensures StripNewlines(s) == s
  {
    assert s != [] ==> s[|s| - 1] in s;
  }
}
