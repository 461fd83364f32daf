// The CI gate on versions, and why a re-import always passes it.
module VersionGate {
  import opened Text
  import opened Values
  import opened Drift

  /** Python's `str` on a parsed value; what the gate needs is that a string shows as itself. */
  predicate Shows(show: Value -> string, s: string) {
    show(Str(s)) == s
  }

  predicate Missing(v: Option<Value>) {
    v.None? || v == Some(Null)
  }

  /** `_requires_bump` on two parsed documents. */
  predicate RequiresBump(show: Value -> string, head: Option<Doc>, base: Option<Doc>) {
    && head.Some? && base.Some?
    && Body(head.value) != Body(base.value)
    && !Missing(Field(head.value, "version")) && !Missing(Field(base.value, "version"))
    && show(head.value["version"]) == show(base.value["version"])
  }

  function ShowField(show: Value -> string, d: Doc): string {
    if "version" in d then show(d["version"]) else show(Null)
  }

  /** One changed file in `main`: the envelope, and for an accepted envelope the sidecar of the same stem. */
  predicate Rejects(show: Value -> string, head: Option<Doc>, base: Option<Doc>, headSidecar: Option<string>,
                    baseSidecar: Option<string>)
  {
    RequiresBump(show, head, base) ||
    (headSidecar.Some? && baseSidecar.Some? && headSidecar != baseSidecar && head.Some? && base.Some?
      && ShowField(show, head.value) == ShowField(show, base.value))
  }

  // ---- bumping ----

  lemma {:induction false} DotsOfDotless(s: string)
    requires '.' !in s
    ensures SplitDots(s) == [s]
  {
    if s != [] {
      assert s[0] in s && forall c | c in s[1..] :: c in s;
      DotsOfDotless(s[1..]);
      assert [s[1..]][1..] == [] && [s[0]] + s[1..] == s;
    }
  }

  lemma {:induction false} DotsAfter(s: string, t: string)
    requires '.' !in s
    ensures SplitDots(s + ['.'] + t) == [s] + SplitDots(t)
  {
    if s == [] {
      assert s + ['.'] + t == ['.'] + t && (['.'] + t)[1..] == t;
    } else {
      assert s[0] in s && forall c | c in s[1..] :: c in s;
      assert (s + ['.'] + t)[1..] == s[1..] + ['.'] + t;
      DotsAfter(s[1..], t);
      assert ([s[1..]] + SplitDots(t))[1..] == SplitDots(t) && [s[0]] + s[1..] == s;
    }
  }

  lemma {:induction false} DecimalIsDigits(n: nat)
    ensures AllDigits(Decimal(n)) && DigitsValue(Decimal(n)) == Some(n)
  {
    if n >= 10 {
      DecimalIsDigits(n / 10);
      assert Decimal(n)[..|Decimal(n)| - 1] == Decimal(n / 10);
    } else {
      assert [DigitChar(n)][..0] == [];
    }
  }

  /** A plain `X.Y.Z` becomes `X.Y.(Z+1)`: plain again, with the patch number raised exactly once. */
  lemma BumpRaisesPatchOnce(s: string)
    requires PlainVersion(s)
    ensures BumpPatch(Str(s)).Str?
    ensures var t := BumpPatch(Str(s)).s;
      && PlainVersion(t) && t != s
      && SplitDots(t)[..2] == SplitDots(s)[..2]
      && Number(SplitDots(t)[2]) == Number(SplitDots(s)[2]) + 1
  {
    var p := SplitDots(s);
    assert p[0] in p && p[1] in p && p[2] in p;
    var z := Decimal(Number(p[2]) + 1);
    DecimalIsDigits(Number(p[2]) + 1);
    ThreeParts(p[0], p[1], z);
  }

  lemma ThreeParts(a: string, b: string, c: string)
    requires AllDigits(a) && AllDigits(b) && AllDigits(c)
    ensures SplitDots(a + "." + b + "." + c) == [a, b, c]
  {
    NoDots(a);
    NoDots(b);
    NoDots(c);
    DotsAfter(a, b + ['.'] + c);
    DotsAfter(b, c);
    DotsOfDotless(c);
    assert a + "." + b + "." + c == a + ['.'] + (b + ['.'] + c);
  }

  lemma NoDots(s: string)
    requires AllDigits(s)
    ensures '.' !in s
  {
  }

  lemma {:induction false} PlainParts(s: string)
    requires forall p | p in SplitDots(s) :: AllDigits(p) || p == ""
    ensures Plain(s)
  {
    if s != [] {
      var rest := SplitDots(s[1..]);
      forall p | p in rest ensures AllDigits(p) || p == "" {
        if s[0] == '.' {
          assert p in SplitDots(s);
        } else {
          FirstPart(s[0], rest, p);
        }
      }
      PlainParts(s[1..]);
      if s[0] != '.' {
        assert SplitDots(s)[0] in SplitDots(s) && s[0] in SplitDots(s)[0];
      }
    }
  }

  lemma FirstPart(c: char, rest: seq<string>, p: string)
    requires |rest| > 0 && p in rest
    requires forall q | q in [[c] + rest[0]] + rest[1..] :: AllDigits(q) || q == ""
    ensures AllDigits(p) || p == ""
  {
    var whole := [[c] + rest[0]] + rest[1..];
    if p == rest[0] {
      assert whole[0] in whole;
      assert forall d | d in rest[0] :: d in [c] + rest[0];
    } else {
      var i :| 0 <= i < |rest| && rest[i] == p;
      assert whole[i] == p;
    }
  }

  lemma PlainVersionIsPlain(s: string)
    requires PlainVersion(s)
    ensures Plain(s) && ReadString(s) == s && s != ""
  {
    PlainParts(s);
    ReadStringOfPlain(s);
  }

  // ---- what the re-import does to the version ----

  /** The envelope over the file, before its version is decided. */
  function Kept(local: File, onDisk: Doc): Doc {
    PreserveId(PreserveMetadata(onDisk, local.doc), local.doc)
  }

  predicate BodyChanged(local: File, onDisk: Doc) {
    BodyWithoutVersion(Kept(local, onDisk)) != BodyWithoutVersion(local.doc)
  }

  lemma VersionIsSetAside(d: Doc, v: Value)
    ensures BodyWithoutVersion(d["version" := v]) == BodyWithoutVersion(d)
  {
  }

  /** The version of the written envelope: bumped when the body or a sidecar changed, kept when neither did. */
  lemma ReimportedVersion(local: File, onDisk: Doc, sidecars: map<string, string>)
    requires "version" in local.doc && Truthy(local.doc["version"])
    ensures var v := local.doc["version"];
      Field(Reimported(local, onDisk, sidecars), "version") ==
        Some(if BodyChanged(local, onDisk) || SidecarsDiffer(sidecars, local.sidecars) then BumpPatch(v) else v)
    ensures Body(Reimported(local, onDisk, sidecars)) == Body(Kept(local, onDisk))
  {
    VersionIsSetAside(Kept(local, onDisk), local.doc["version"]);
  }

  // ---- a changed entry always changes the body or a sidecar ----

  lemma KeptPayload(local: File, onDisk: Doc)
    ensures Payload(Kept(local, onDisk)) == Payload(onDisk)
  {
  }

  lemma SameBodySamePayload(local: File, onDisk: Doc)
    requires !BodyChanged(local, onDisk)
    ensures Readback(Payload(onDisk)) == Readback(Payload(local.doc))
  {
    KeptPayload(local, onDisk);
    var a, b := BodyWithoutVersion(Kept(local, onDisk)), BodyWithoutVersion(local.doc);
    assert "payload" in a <==> "payload" in Kept(local, onDisk);
    assert "payload" in b <==> "payload" in local.doc;
  }

  /** What converting a playbook delivers: its definition inline. */
  predicate PlaybookShape(envelope: Doc) {
    Field(envelope, "asset") == Some(Str(PLAYBOOK)) ==>
      match Payload(envelope)
      case Dict(p) => "definition" in p && p["definition"].Dict? && "definitionFile" !in p
      case _ => false
  }

  /** A sidecar name in a file, if there is one, contains no blanks. */
  predicate PlainSidecarName(d: Doc) {
    match Payload(d)
    case Dict(p) => (match Field(p, "definitionFile") case Some(Str(s)) => Plain(s) case _ => true)
    case _ => true
  }

  /** A drifted payload shows on disk: in the body, or in the sidecar. */
  lemma DriftShows(env: Env, local: File, envelope: Doc, l: Loaded)
    requires env.Valid() && Load(env, local) == Some(l) && PlaybookShape(envelope)
    requires Field(envelope, "asset") == Some(Str(l.asset))
    requires !PayloadsMatch(l.payload, Payload(envelope))
    requires PlainSidecarName(local.doc) && Plain(IdText(envelope))
    ensures BodyChanged(local, Split(env, envelope).0) || SidecarsDiffer(Split(env, envelope).1, local.sidecars)
  {
    var (onDisk, sidecars) := Split(env, envelope);
    if !BodyChanged(local, onDisk) && !SidecarsDiffer(sidecars, local.sidecars) {
      SameBodySamePayload(local, onDisk);
      if l.asset == PLAYBOOK {
        SamePlaybook(env, local, envelope, l.payload);
      } else {
        ReadbackIsInvisible(Payload(onDisk));
        ReadbackIsInvisible(Payload(local.doc));
      }
    }
  }

  lemma SamePlaybook(env: Env, local: File, envelope: Doc, inlined: Value)
    requires env.Valid() && Field(envelope, "asset") == Some(Str(PLAYBOOK)) && PlaybookShape(envelope)
    requires Inline(env, local.sidecars, Payload(local.doc)) == Some(inlined)
    requires PlainSidecarName(local.doc) && Plain(IdText(envelope))
    requires Readback(Payload(Split(env, envelope).0)) == Readback(Payload(local.doc))
    requires !SidecarsDiffer(Split(env, envelope).1, local.sidecars)
    ensures Normalize(inlined) == Normalize(Payload(envelope))
  {
    var p := Payload(envelope).fields;
    var name := IdText(envelope) + SIDECAR_SUFFIX;
    SplitPlaybook(env, envelope);
    var q := StoredPayload(p, name);
    assert Payload(local.doc).Dict?;
    var mine := Payload(local.doc).fields;
    SameFields(q, mine);
    PlainName(IdText(envelope));
    SameName(q, mine, name);
    assert name in Split(env, envelope).1;
    InlineStored(env, local.sidecars, mine, name, p["definition"]);
    SameInlined(p, mine, name, inlined);
  }

  /** A playbook's payload as it is stored. */
  function StoredPayload(p: map<string, Value>, name: string): map<string, Value> {
    (p - {"definition"})["definitionFile" := Str(name)]
  }

  lemma SplitPlaybook(env: Env, envelope: Doc)
    requires Field(envelope, "asset") == Some(Str(PLAYBOOK)) && PlaybookShape(envelope)
    ensures var p, name := Payload(envelope).fields, IdText(envelope) + SIDECAR_SUFFIX;
      && Split(env, envelope).0 == envelope["payload" := Dict(StoredPayload(p, name))]
      && Split(env, envelope).1 == map[name := env.dumpJson(p["definition"])]
      && Payload(Split(env, envelope).0) == Dict(StoredPayload(p, name))
  {
  }

  lemma SameFields(q: Doc, mine: Doc)
    requires ReadDoc(q) == ReadDoc(mine)
    ensures mine.Keys == q.Keys
    ensures forall k | k in q :: Readback(mine[k]) == Readback(q[k])
  {
    assert ReadDoc(q).Keys == q.Keys && ReadDoc(mine).Keys == mine.Keys;
    forall k | k in q ensures Readback(mine[k]) == Readback(q[k]) {
      assert ReadDoc(q)[k] == Readback(q[k]) && ReadDoc(mine)[k] == Readback(mine[k]);
    }
  }

  lemma SameName(q: Doc, mine: Doc, name: string)
    requires "definitionFile" in q && q["definitionFile"] == Str(name) && "definitionFile" in mine && Plain(name)
    requires Readback(mine["definitionFile"]) == Readback(q["definitionFile"])
    requires mine["definitionFile"].Str? ==> Plain(mine["definitionFile"].s)
    ensures mine["definitionFile"] == Str(name)
  {
    ReadStringOfPlain(name);
    assert mine["definitionFile"].Str?;
    ReadStringOfPlain(mine["definitionFile"].s);
  }

  /** Inlining reads back the definition that was dumped. */
  lemma InlineStored(env: Env, sidecars: map<string, string>, mine: Doc, name: string, definition: Value)
    requires env.Valid() && definition.Dict? && name in sidecars && sidecars[name] == env.dumpJson(definition)
    requires "definitionFile" in mine && mine["definitionFile"] == Str(name) && name != "" && "definition" !in mine
    ensures Inline(env, sidecars, Dict(mine)) ==
      if BareName(name) then Some(Dict((mine - {"definitionFile"})["definition" := definition])) else None
  {
    assert env.loadJson(env.dumpJson(definition)) == Some(definition);
  }

  lemma PlainName(id: string)
    requires Plain(id)
    ensures Plain(id + SIDECAR_SUFFIX)
  {
    forall c | c in id + SIDECAR_SUFFIX ensures !IsSpace(c) {
      if c !in id {
        assert c in SIDECAR_SUFFIX;
      }
    }
  }

  lemma SameInlined(p: Doc, mine: Doc, name: string, inlined: Value)
    requires "definition" in p && "definitionFile" !in p
    requires mine.Keys == StoredPayload(p, name).Keys
    requires forall k | k in StoredPayload(p, name) :: Readback(mine[k]) == Readback(StoredPayload(p, name)[k])
    requires inlined == Dict((mine - {"definitionFile"})["definition" := p["definition"]])
    ensures Normalize(inlined) == Normalize(Dict(p))
  {
    var fields := inlined.fields;
    assert fields.Keys == p.Keys;
    forall k | k in p ensures Normalize(fields[k]) == Normalize(p[k]) {
      if k != "definition" {
        assert k in StoredPayload(p, name) && StoredPayload(p, name)[k] == p[k];
        ReadbackIsInvisible(mine[k]);
        ReadbackIsInvisible(p[k]);
      }
    }
    NormalizeFields(fields, p);
  }

  lemma NormalizeFields(a: Doc, b: Doc)
    requires a.Keys == b.Keys && forall k | k in b :: Normalize(a[k]) == Normalize(b[k])
    ensures Normalize(Dict(a)) == Normalize(Dict(b))
  {
    assert (map k | k in a :: Normalize(a[k])) == (map k | k in b :: Normalize(b[k]));
  }

  // ---- the gate accepts ----

  /** Every changed entry over a file with a plain version is written with the patch raised once, and accepted,
      whether the body, the sidecar or both changed. */
  lemma ReimportPassesTheGate(env: Env, show: Value -> string, repo: Repo, e: Entry, l: Loaded,
                              headSidecar: Option<string>, baseSidecar: Option<string>)
    requires env.Valid() && e.path.Some? && e.path.value in repo && Load(env, repo[e.path.value]) == Some(l)
    requires Field(e.envelope, "asset") == Some(Str(l.asset)) && PlaybookShape(e.envelope)
    requires !PayloadsMatch(l.payload, Payload(e.envelope))
    requires PlainSidecarName(repo[e.path.value].doc) && Plain(IdText(e.envelope))
    requires match Field(repo[e.path.value].doc, "version") case Some(Str(s)) => PlainVersion(s) case _ => false
    requires forall s :: Shows(show, s)
    ensures var v, head := repo[e.path.value].doc["version"], WrittenFile(env, repo, e).doc;
      && Field(head, "version") == Some(BumpPatch(v))
      && !Rejects(show, Some(head), Some(repo[e.path.value].doc), headSidecar, baseSidecar)
  {
    var local := repo[e.path.value];
    var s := local.doc["version"].s;
    var (onDisk, sidecars) := Split(env, e.envelope);
    PlainVersionIsPlain(s);
    DriftShows(env, local, e.envelope, l);
    ReimportedVersion(local, onDisk, sidecars);
    BumpRaisesPatchOnce(s);
    var t := BumpPatch(Str(s)).s;
    PlainVersionIsPlain(t);
    assert ReadDoc(Reimported(local, onDisk, sidecars))["version"] == Str(t);
    assert Shows(show, s) && Shows(show, t);
  }

  /** The gate sees two different sidecars. */
  predicate SidecarChanged(headSidecar: Option<string>, baseSidecar: Option<string>) {
    headSidecar.Some? && baseSidecar.Some? && headSidecar != baseSidecar
  }

  /** Exactly when: a re-import that changes the body, or only a sidecar, is refused if and only if the file's version
      is not plain, since the bump is then no bump. */
  lemma OtherVersionsAreRefused(show: Value -> string, local: File, onDisk: Doc, sidecars: map<string, string>,
                                headSidecar: Option<string>, baseSidecar: Option<string>)
    requires BodyChanged(local, onDisk) ||
      (SidecarsDiffer(sidecars, local.sidecars) && SidecarChanged(headSidecar, baseSidecar))
    requires match Field(local.doc, "version") case Some(Str(s)) => s != "" && Plain(s) case _ => false
    requires forall s :: Shows(show, s)
    ensures Rejects(show, Some(ReadDoc(Reimported(local, onDisk, sidecars))), Some(local.doc), headSidecar, baseSidecar)
      <==> !PlainVersion(local.doc["version"].s)
  {
    var s := local.doc["version"].s;
    var re := Reimported(local, onDisk, sidecars);
    ReimportedVersion(local, onDisk, sidecars);
    BumpIsPlain(s);
    var t := BumpPatch(Str(s)).s;
    assert Field(re, "version") == Some(Str(t));
    ReadVersion(re, t);
    ReadBody(re);
    if BodyChanged(local, onDisk) {
      BodyStaysChanged(local, onDisk, ReadDoc(re));
    }
    GateOnVersions(show, ReadDoc(re), local.doc, t, s, headSidecar, baseSidecar);
  }

  lemma TwoParts(a: string, b: string)
    requires AllDigits(a) && AllDigits(b)
    ensures SplitDots(a + "." + b) == [a, b]
  {
    NoDots(a);
    NoDots(b);
    DotsAfter(a, b);
    DotsOfDotless(b);
    assert a + "." + b == a + ['.'] + b;
  }

  lemma TwoPartsIsNotPlain()
    ensures !PlainVersion("1.0") && Plain("1.0") && "1.0" != ""
  {
    TwoParts("1", "0");
    assert "1" + "." + "0" == "1.0";
  }

  /** Such a file: version 1.0, over which the sidecar alone changes. */
  lemma SidecarUnderTwoPartsIsRefused(show: Value -> string, local: File, onDisk: Doc, name: string, now: string)
    requires (forall s :: Shows(show, s)) && Field(local.doc, "version") == Some(Str("1.0"))
    requires name in local.sidecars && local.sidecars[name] != now
    ensures Rejects(show, Some(ReadDoc(Reimported(local, onDisk, map[name := now]))), Some(local.doc),
                    Some(now), Some(local.sidecars[name]))
  {
    TwoPartsIsNotPlain();
    assert name in map[name := now];
    OtherVersionsAreRefused(show, local, onDisk, map[name := now], Some(now), Some(local.sidecars[name]));
  }

  lemma ReadVersion(d: Doc, t: string)
    requires Field(d, "version") == Some(Str(t)) && ReadString(t) == t
    ensures Field(ReadDoc(d), "version") == Some(Str(t))
  {
  }

  lemma ReadBody(d: Doc)
    ensures Body(ReadDoc(d)) == ReadDoc(Body(d))
  {
  }

  lemma GateOnVersions(show: Value -> string, head: Doc, base: Doc, t: string, s: string,
                       headSidecar: Option<string>, baseSidecar: Option<string>)
    requires Body(head) != Body(base) || SidecarChanged(headSidecar, baseSidecar)
    requires forall x :: Shows(show, x)
    requires Field(head, "version") == Some(Str(t)) && Field(base, "version") == Some(Str(s))
    ensures Rejects(show, Some(head), Some(base), headSidecar, baseSidecar) <==> t == s
  {
    assert Shows(show, s) && Shows(show, t);
  }

  lemma BumpIsPlain(s: string)
    requires Plain(s) && s != ""
    ensures BumpPatch(Str(s)).Str? && ReadString(BumpPatch(Str(s)).s) == BumpPatch(Str(s)).s
    ensures BumpPatch(Str(s)).s != s <==> PlainVersion(s)
  {
    ReadStringOfPlain(s);
    if PlainVersion(s) {
      BumpRaisesPatchOnce(s);
      PlainVersionIsPlain(BumpPatch(Str(s)).s);
    }
  }

  lemma BodyStaysChanged(local: File, onDisk: Doc, head: Doc)
    requires BodyChanged(local, onDisk) && Body(head) == BodyWithoutVersion(Kept(local, onDisk))
    ensures Body(head) != Body(local.doc)
  {
    if Body(head) == Body(local.doc) {
      assert BodyWithoutVersion(local.doc) == ReadDoc(Body(local.doc));
      var kept := Body(Kept(local, onDisk));
      assert Body(head) == ReadDoc(kept);
      ReadDocTwice(kept);
    }
  }

  lemma ReadDocTwice(d: Doc)
    ensures ReadDoc(ReadDoc(d)) == ReadDoc(d)
  {
    forall k | k in d ensures Readback(Readback(d[k])) == Readback(d[k]) {
      ReadbackIsInvisible(d[k]);
    }
  }

  /** An edit that leaves body and sidecars the same never bumps. */
  lemma NoChangeNoBump(local: File, onDisk: Doc, sidecars: map<string, string>)
    requires !BodyChanged(local, onDisk) && !SidecarsDiffer(sidecars, local.sidecars)
    requires "version" in local.doc && Truthy(local.doc["version"])
    ensures Field(Reimported(local, onDisk, sidecars), "version") == Some(local.doc["version"])
  {
    ReimportedVersion(local, onDisk, sidecars);
  }

  /** A re-import over a file without a version, as no version is delivered: exempt whatever the body, and refused if
      and only if the sidecar changed. */
  lemma UnversionedIsExempt(show: Value -> string, local: File, onDisk: Doc, sidecars: map<string, string>,
                            headSidecar: Option<string>, baseSidecar: Option<string>)
    requires "version" !in local.doc && "version" !in onDisk
    ensures var head := ReadDoc(Reimported(local, onDisk, sidecars));
      && !RequiresBump(show, Some(head), Some(local.doc))
      && (Rejects(show, Some(head), Some(local.doc), headSidecar, baseSidecar) <==>
           SidecarChanged(headSidecar, baseSidecar))
  {
    assert "version" !in Kept(local, onDisk);
  }

  // ---- the gate on any two documents ----

  /** The two agree on every key but the version. */
  predicate SameButVersion(head: Doc, base: Doc) {
    forall k | k in head.Keys + base.Keys && k != "version" :: Field(head, k) == Field(base, k)
  }

  lemma SameBodyIff(head: Doc, base: Doc)
    ensures Body(head) == Body(base) <==> SameButVersion(head, base)
  {
    if Body(head) == Body(base) {
      forall k | k in head.Keys + base.Keys && k != "version" ensures Field(head, k) == Field(base, k) {
        assert k in Body(head) <==> k in head;
        assert k in Body(base) <==> k in base;
      }
    }
    if SameButVersion(head, base) {
      forall k ensures (k in Body(head) <==> k in Body(base)) && (k in Body(head) ==> Body(head)[k] == Body(base)[k]) {
        if k in head.Keys + base.Keys && k != "version" {
          assert Field(head, k) == Field(base, k);
        }
      }
      assert Body(head) == Body(base);
    }
  }

  /** A version's text; one that is not there reads like null. */
  function VersionText(show: Value -> string, d: Doc): string {
    match Field(d, "version") case Some(v) => show(v) case None => show(Null)
  }

  /** The whole gate: both sides parse, their versions show alike, and either the sidecar changed, or another key did
      and both sides have a version that is not null. */
  lemma GateIff(show: Value -> string, head: Option<Doc>, base: Option<Doc>, headSidecar: Option<string>,
                baseSidecar: Option<string>)
    ensures Rejects(show, head, base, headSidecar, baseSidecar) <==>
      && head.Some? && base.Some? && VersionText(show, head.value) == VersionText(show, base.value)
      && (SidecarChanged(headSidecar, baseSidecar) ||
          (!SameButVersion(head.value, base.value)
           && Field(head.value, "version") !in {None, Some(Null)}
           && Field(base.value, "version") !in {None, Some(Null)}))
  {
    if head.Some? && base.Some? {
      SameBodyIff(head.value, base.value);
    }
  }

  /** A cosmetic edit, after which both sides parse alike but for the version, is never refused, unless the sidecar
      changed. */
  lemma CosmeticEditPasses(show: Value -> string, head: Doc, base: Doc, headSidecar: Option<string>,
                           baseSidecar: Option<string>)
    requires SameButVersion(head, base) && !SidecarChanged(headSidecar, baseSidecar)
    ensures !Rejects(show, Some(head), Some(base), headSidecar, baseSidecar)
  {
    SameBodyIff(head, base);
  }

  /** Versions that show differently are never refused, whatever changed. */
  lemma RaisedVersionPasses(show: Value -> string, head: Doc, base: Doc, headSidecar: Option<string>,
                            baseSidecar: Option<string>)
    requires ShowField(show, head) != ShowField(show, base)
    ensures !Rejects(show, Some(head), Some(base), headSidecar, baseSidecar)
  {
  }

  /** A file that does not parse on one side is left to another check. */
  lemma UnparsablePasses(show: Value -> string, head: Option<Doc>, base: Option<Doc>, headSidecar: Option<string>,
                         baseSidecar: Option<string>)
    requires head.None? || base.None?
    ensures !Rejects(show, head, base, headSidecar, baseSidecar)
  {
  }

  /** And otherwise: over one version, a change of any other key or of the sidecar is refused. */
  lemma UnraisedVersionIsRefused(show: Value -> string, head: Doc, base: Doc, headSidecar: Option<string>,
                                 baseSidecar: Option<string>, k: string)
    requires !Missing(Field(head, "version")) && !Missing(Field(base, "version"))
    requires show(head["version"]) == show(base["version"])
    requires (k != "version" && Field(head, k) != Field(base, k)) || SidecarChanged(headSidecar, baseSidecar)
    ensures Rejects(show, Some(head), Some(base), headSidecar, baseSidecar)
  {
    SameBodyIff(head, base);
  }

  /** A re-import that changes neither body nor sidecar passes whenever the stored file reads back to itself. */
  lemma UnchangedReimportPasses(show: Value -> string, local: File, onDisk: Doc, sidecars: map<string, string>,
                                headSidecar: Option<string>, baseSidecar: Option<string>)
    requires !BodyChanged(local, onDisk) && ReadDoc(local.doc) == local.doc
    requires !SidecarChanged(headSidecar, baseSidecar)
    ensures var head := ReadDoc(Reimported(local, onDisk, sidecars));
      !Rejects(show, Some(head), Some(local.doc), headSidecar, baseSidecar)
  {
    var head := ReadDoc(Reimported(local, onDisk, sidecars));
    ReimportedBody(local, onDisk, sidecars);
    ReadBody(Reimported(local, onDisk, sidecars));
    ReadBody(Kept(local, onDisk));
    ReadBody(local.doc);
    assert Body(head) == Body(local.doc);
  }

  lemma ReimportedBody(local: File, onDisk: Doc, sidecars: map<string, string>)
    ensures Body(Reimported(local, onDisk, sidecars)) == Body(Kept(local, onDisk))
  {
  }
}
