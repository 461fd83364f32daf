// Which technique ids and tactics a detection ends up with, in terms of what its author wrote.
module CoverageIds {
  import opened Text
  import opened AttackMatrix
  import opened CoverageExtract

  // ---- technique ids ----

  /** A capital T and four digits, alone or followed by a dot and three more. */
  ghost predicate Shaped(s: string) {
    exists d, e :: |d| == 4 && AllDigits(d) && AllDigits(e) &&
      ((e == "" && s == ['T'] + d) || (|e| == 3 && s == ['T'] + d + ['.'] + e))
  }

  predicate AllDigits(s: string) {
    forall c | c in s :: IsDigit(c)
  }

  lemma ShapeOfId(s: string)
    ensures IsTechniqueId(s) <==> Shaped(s)
  {
    if IsTechniqueId(s) {
      var d, e := s[1..5], if |s| == 9 then s[6..] else "";
      forall c | c in d ensures IsDigit(c) {
        var i :| 0 <= i < 4 && d[i] == c;
        assert s[i + 1] == c;
      }
      forall c | c in e ensures IsDigit(c) {
        var i :| 0 <= i < |e| && e[i] == c;
        assert s[i + 6] == c;
      }
      assert |s| == 5 ==> s == ['T'] + d;
      assert |s| == 9 ==> s == ['T'] + d + ['.'] + e;
      assert |d| == 4 && AllDigits(d) && AllDigits(e);
    } else if Shaped(s) {
      var d, e :| |d| == 4 && AllDigits(d) && AllDigits(e) &&
        ((e == "" && s == ['T'] + d) || (|e| == 3 && s == ['T'] + d + ['.'] + e));
      ShapedIsId(s, d, e);
    }
  }

  lemma ShapedIsId(s: string, d: string, e: string)
    requires |d| == 4 && AllDigits(d) && AllDigits(e)
    requires (e == "" && s == ['T'] + d) || (|e| == 3 && s == ['T'] + d + ['.'] + e)
    ensures IsTechniqueId(s)
  {
    forall i | 1 <= i < |s| && i != 5 ensures IsDigit(s[i]) {
      if i < 5 {
        assert s[i] == d[i - 1] && d[i - 1] in d;
      } else {
        assert s[i] == e[i - 6] && e[i - 6] in e;
      }
    }
  }

  lemma IdIsTrimUpper(id: string)
    requires IsTechniqueId(id)
    ensures Upper(id) == id && Trim(id)
  {
    assert Upper(id) == id by {
      forall i | 0 <= i < |id| ensures UpperChar(id[i]) == id[i] {
        assert i == 0 || i == 5 || IsDigit(id[i]);
      }
    }
    assert IsDigit(id[|id| - 1]);
  }

  /** Blanks survive a change of case, so an id with letters in any case has none at its ends. */
  lemma UpperKeepsBlanks(t: string)
    requires Trim(Upper(t))
    ensures Trim(t)
  {
    if t != [] {
      assert Upper(t)[0] == UpperChar(t[0]) && Upper(t)[|t| - 1] == UpperChar(t[|t| - 1]);
    }
  }

  /** Exactly which ids a written text stands for: the text with capital letters and without blanks at its ends, when
      that is an id. */
  lemma NormalisedIff(raw: string, id: string)
    ensures NormaliseId(raw) == Some(id) <==>
      IsTechniqueId(id) && exists a, t, b :: Spelled(raw, a, t, b) && Upper(t) == id
  {
    if NormaliseId(raw) == Some(id) {
      var a, b := StripIs(raw);
      assert Spelled(raw, a, Strip(raw), b);
    }
    if IsTechniqueId(id) && exists a, t, b :: Spelled(raw, a, t, b) && Upper(t) == id {
      var a, t, b :| Spelled(raw, a, t, b) && Upper(t) == id;
      IdIsTrimUpper(id);
      UpperKeepsBlanks(t);
      StripAround(a, t, b);
    }
  }

  predicate Spelled(raw: string, a: string, t: string, b: string) {
    AllBlank(a) && AllBlank(b) && raw == a + t + b
  }

  /** An id of the right shape stands for itself. */
  lemma IdStandsForItself(id: string)
    requires IsTechniqueId(id)
    ensures NormaliseId(id) == Some(id)
  {
    IdIsTrimUpper(id);
    assert [] + id + [] == id;
    StripAround([], id, []);
  }

  /** Small letters and blanks around it change nothing. */
  lemma SpellingIsIgnored(id: string, a: string, b: string)
    requires IsTechniqueId(id) && AllBlank(a) && AllBlank(b)
    ensures NormaliseId(a + Lower(id) + b) == Some(id)
  {
    IdIsTrimUpper(id);
    assert Upper(Lower(id)) == id by {
      forall i | 0 <= i < |id| ensures UpperChar(LowerChar(id[i])) == id[i] {
        assert i == 0 || i == 5 || IsDigit(id[i]);
      }
    }
    assert Spelled(a + Lower(id) + b, a, Lower(id), b);
    NormalisedIff(a + Lower(id) + b, id);
  }

  /** The technique of a sub-technique is its id before the dot. */
  lemma ParentIs(d: string, e: string)
    requires '.' !in d
    ensures Parent(d) == d && Parent(d + ['.'] + e) == d
  {
    ParentOfDotless(d);
    ParentBeforeDot(d, e);
  }

  lemma {:induction false} ParentBeforeDot(d: string, e: string)
    requires '.' !in d
    ensures Parent(d + ['.'] + e) == d
  {
    if d == [] {
      assert [] + ['.'] + e == ['.'] + e;
    } else {
      assert d[0] in d && forall c | c in d[1..] :: c in d;
      assert (d + ['.'] + e)[1..] == d[1..] + ['.'] + e;
      ParentBeforeDot(d[1..], e);
      assert [d[0]] + d[1..] == d;
    }
  }

  // ---- what is counted ----

  /** The written id `w` counts as `id`: it is `id` and current, or it is revoked and `id` is its replacement. */
  predicate CountsAs(m: Matrix, w: string, id: string) {
    id in m.techniqueTactics &&
    (w == id || (w !in m.techniqueTactics && w in m.revoked && m.revoked[w] == id && id != ""))
  }

  ghost predicate Writes(tags: Tags, w: string) {
    exists r :: r in tags.ids && NormaliseId(r) == Some(w)
  }

  lemma IdsAreWritten(tags: Tags, w: string)
    ensures w in Ids(tags.ids) <==> Writes(tags, w)
  {
  }

  lemma ResolvesTo(m: Matrix, w: string, id: string)
    ensures m.Resolved(w).0 == Some(id) <==> CountsAs(m, w, id)
  {
  }

  /** An id is counted exactly when a written id counts as it. */
  lemma CountedIffWritten(m: Matrix, tags: Tags, id: string)
    ensures id in Extract(m, tags).counted <==> exists w :: Writes(tags, w) && CountsAs(m, w, id)
  {
    var ids := Ids(tags.ids);
    if id in Extract(m, tags).counted {
      var w :| w in ids && m.Resolved(w).0.Some? && m.Resolved(w).0.value == id;
      IdsAreWritten(tags, w);
      ResolvesTo(m, w, id);
    }
    if w :| Writes(tags, w) && CountsAs(m, w, id) {
      IdsAreWritten(tags, w);
      ResolvesTo(m, w, id);
      assert w in ids && m.Resolved(w).0 == Some(id);
    }
  }

  /** A current id of the right shape that is written on a rule is counted as itself. */
  lemma WrittenCurrentIsCounted(m: Matrix, tags: Tags, id: string)
    requires IsTechniqueId(id) && id in tags.ids && id in m.techniqueTactics
    ensures id in Extract(m, tags).counted && id in Extract(m, tags).techniques
  {
    IdStandsForItself(id);
    assert Writes(tags, id) && CountsAs(m, id, id);
    CountedIffWritten(m, tags, id);
  }

  /** The other lists hold exactly what was written and is none of this: remapped with its replacement, deprecated,
      or unknown. */
  lemma OtherListsAreWritten(m: Matrix, tags: Tags, w: string)
    ensures var e := Extract(m, tags); var counts := exists id :: CountsAs(m, w, id);
      && (w in e.deprecated <==> Writes(tags, w) && !counts && w in m.deprecated)
      && (w in e.unknown <==> Writes(tags, w) && !counts && w !in m.deprecated)
      && (forall id :: (w, id) in e.remapped <==> Writes(tags, w) && w !in m.techniqueTactics && CountsAs(m, w, id))
  {
    IdsAreWritten(tags, w);
    forall id ensures m.Resolved(w).0 == Some(id) <==> CountsAs(m, w, id) {
      ResolvesTo(m, w, id);
    }
    if m.Resolved(w).0.Some? {
      assert CountsAs(m, w, m.Resolved(w).0.value);
    }
  }

  /** Every entry of the invalid list was written and is no id. */
  lemma {:induction false} InvalidIsWritten(raw: seq<string>, x: string)
    ensures x in Invalid(raw) <==> exists r :: r in raw && NormaliseId(r).None? && Strip(r) == x
  {
    if raw != [] {
      var rest, r := raw[..|raw| - 1], raw[|raw| - 1];
      assert raw == rest + [r] && r in raw;
      InvalidIsWritten(rest, x);
      forall y | y in rest ensures y in raw {}
      forall y | y in raw ensures y in rest || y == r {}
    }
  }

  // ---- tactics ----

  /** Claimed tactics are the rule's own; only a rule that claims none gets those of its counted techniques. */
  lemma TacticsOfRule(m: Matrix, tags: Tags, t: string)
    ensures var e := Extract(m, tags); var claims := tags.metaTactics + tags.payloadTactics;
      && (t in e.tactics <==>
           if claims != [] then t in claims else exists id :: id in e.counted && t in m.TacticsFor(id))
      && (e.inferred <==> claims == [] && e.counted != {})
      && e.severity == tags.severity
      && (t in e.tactics ==> forall id :: id in e.byTactic[t] <==> id in e.counted && t in m.TacticsFor(id))
  {
    ClaimsNothing(tags);
  }

  /** What is shown is what is counted, deprecated or unknown; outside is what is shown and listed nowhere. */
  lemma ShownAndOutside(m: Matrix, tags: Tags, id: string)
    ensures var e := Extract(m, tags);
      && (id in e.techniques <==> id in e.counted || id in e.deprecated || id in e.unknown)
      && (id in e.outside <==> id in e.techniques && forall t | t in e.byTactic :: id !in e.byTactic[t])
  {
  }

  // ---- the loaded tables ----

  predicate LastEntry(raw: seq<RawTechnique>, id: string, i: nat) {
    && i < |raw| && raw[i].id == Some(id)
    && forall j | i < j < |raw| :: raw[j].id != Some(id)
  }

  /** A table files an id under the known tactics of its last entry; an id it does not name stays as it was. */
  lemma {:induction false} FiledByLastEntry(raw: seq<RawTechnique>, before: map<string, seq<string>>, id: string,
                                              i: nat)
    ensures LastEntry(raw, id, i) ==> id in Filed(raw, before) && Filed(raw, before)[id] == Tactics(raw[i].tactics)
    ensures id !in RawIds(raw) ==> (id in Filed(raw, before) <==> id in before)
    ensures id !in RawIds(raw) && id in before ==> Filed(raw, before)[id] == before[id]
  {
    if raw != [] {
      var rest, e := raw[..|raw| - 1], raw[|raw| - 1];
      assert raw == rest + [e];
      RawIdsSnoc(rest, e);
      if LastEntry(raw, id, i) && i < |rest| {
        assert LastEntry(rest, id, i) && e.id != Some(id);
      }
      FiledByLastEntry(rest, before, id, i);
    }
  }

  /** In the order of first appearance: what is written later only adds to the end. */
  lemma {:induction false} TacticsInOrder(raw: seq<Option<string>>, more: seq<Option<string>>)
    ensures Tactics(raw) <= Tactics(raw + more)
  {
    if more == [] {
      assert raw + more == raw;
    } else {
      var init := more[..|more| - 1];
      assert (raw + more)[..|raw + more| - 1] == raw + init;
      TacticsInOrder(raw, init);
    }
  }

  /** The recognised tactics of a list, each once. */
  lemma {:induction false} TacticsOnce(raw: seq<Option<string>>)
    ensures forall i, j | 0 <= i < j < |Tactics(raw)| :: Tactics(raw)[i] != Tactics(raw)[j]
  {
    if raw != [] {
      TacticsOnce(raw[..|raw| - 1]);
    }
  }

  lemma SquashConcat(a: string, b: string)
    ensures Squash(a + b) == Squash(a) + Squash(b)
    decreases |a|
  {
    if a == [] {
      assert [] + b == b;
    } else {
      assert (a + b)[1..] == a[1..] + b;
      SquashConcat(a[1..], b);
    }
  }

  /** Blanks, dashes, underscores and letter case do not count in a tactic's spelling; anything else does. */
  lemma SpellingOfTactics(a: string, c: char, b: string)
    ensures Squash(a + [c] + b) == Squash(a) + (if IsSpace(c) || c in "_-" then [] else Lower([c])) + Squash(b)
  {
    SquashConcat(a + [c], b);
    SquashConcat(a, [c]);
    assert [c][1..] == [] && Lower([c]) == [LowerChar(c)];
    assert "_-"[0] == '_' && "_-"[1] == '-';
  }

  predicate LowerDistinct(ts: seq<string>) {
    forall i, j | 0 <= i < j < |ts| :: Lower(ts[i]) != Lower(ts[j])
  }

  lemma {:induction false} FindsByKey(ts: seq<string>, key: string, t: string)
    requires LowerDistinct(ts) && t in ts
    ensures FindTactic(ts, key) == Some(t) <==> Lower(t) == key
  {
    if t == ts[0] {
      if Lower(t) != key {
        FindsOnlyKeys(ts, key);
      }
    } else {
      var i :| 0 < i < |ts| && ts[i] == t;
      assert Lower(ts[0]) != Lower(ts[i]) && ts[1..][i - 1] == t;
      FindsByKey(ts[1..], key, t);
    }
  }

  lemma {:induction false} FindsOnlyKeys(ts: seq<string>, key: string)
    ensures FindTactic(ts, key).Some? ==> Lower(FindTactic(ts, key).value) == key
  {
    if ts != [] && Lower(ts[0]) != key {
      FindsOnlyKeys(ts[1..], key);
    }
  }

  /** The tactics' lengths and first letters, which tell their lower-case names apart. */
  const MARKS: seq<(nat, char)> := [
    (14, 'r'), (19, 'r'), (13, 'i'), (9, 'e'), (11, 'p'), (19, 'p'), (14, 'd'), (16, 'c'), (9, 'd'), (15, 'l'),
    (10, 'c'), (17, 'c'), (12, 'e'), (6, 'i'), (9, 'p'), (20, 'i'), (23, 'i')]

  lemma MarkIs(i: nat)
    requires i < |ALL_TACTICS|
    ensures |ALL_TACTICS| == |MARKS| && |ALL_TACTICS[i]| == MARKS[i].0 && MARKS[i].0 > 0
    ensures LowerChar(ALL_TACTICS[i][0]) == MARKS[i].1
  {
  }

  lemma MarksDiffer(i: nat, j: nat)
    requires i < j < |MARKS|
    ensures MARKS[i] != MARKS[j]
  {
  }

  lemma TacticsDiffer()
    ensures LowerDistinct(ALL_TACTICS)
  {
    forall i, j | 0 <= i < j < |ALL_TACTICS| ensures Lower(ALL_TACTICS[i]) != Lower(ALL_TACTICS[j]) {
      MarkIs(i);
      MarkIs(j);
      MarksDiffer(i, j);
      var a, b := ALL_TACTICS[i], ALL_TACTICS[j];
      assert Lower(a)[0] == LowerChar(a[0]) && Lower(b)[0] == LowerChar(b[0]);
    }
  }

  const ALIASES := ["stealth", "defenseimpairment"]

  /** Exactly which spellings stand for a tactic: its own, and for Defense Evasion two more. */
  lemma TacticIff(raw: string, t: string)
    requires t in ALL_TACTICS && Squash(raw) !in ALIASES
    ensures NormaliseTactic(Some(raw)) == Some(t) <==> Squash(raw) == Lower(t)
  {
    NoAliasIsFound(raw);
    TacticsDiffer();
    FindsByKey(ALL_TACTICS, Squash(raw), t);
  }

  lemma NoAliasIsFound(raw: string)
    requires Squash(raw) !in ALIASES
    ensures NormaliseTactic(Some(raw)) == FindTactic(ALL_TACTICS, Squash(raw))
  {
    assert ALIASES[0] in ALIASES && ALIASES[1] in ALIASES;
  }

  lemma AliasesAreEvasion(raw: string)
    requires Squash(raw) in ALIASES
    ensures NormaliseTactic(Some(raw)) == Some("DefenseEvasion")
  {
  }
}
