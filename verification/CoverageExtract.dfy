// What one detection covers: its technique ids resolved against the ATT&CK matrix, and its tactics.
module CoverageExtract {
  import opened Text
  import opened AttackMatrix

  const ALL_TACTICS: seq<string> := [
    "Reconnaissance", "ResourceDevelopment", "InitialAccess", "Execution", "Persistence", "PrivilegeEscalation",
    "DefenseEvasion", "CredentialAccess", "Discovery", "LateralMovement", "Collection", "CommandAndControl",
    "Exfiltration", "Impact", "PreAttack", "ImpairProcessControl", "InhibitResponseFunction"]

  // ---- normalising what authors write ----

  /** `T####` or `T####.###`. */
  predicate IsTechniqueId(s: string) {
    && (|s| == 5 || (|s| == 9 && s[5] == '.'))
    && s[0] == 'T'
    && forall i | 1 <= i < |s| && i != 5 :: IsDigit(s[i])
  }

  function NormaliseId(raw: string): (id: Option<string>)
    ensures id.Some? ==> IsTechniqueId(id.value)
  {
    var candidate := Upper(Strip(raw));
    if IsTechniqueId(candidate) then Some(candidate) else None
  }

  /** `split(".", 1)[0]`. */
  function Parent(id: string): string {
    if id == [] || id[0] == '.' then [] else [id[0]] + Parent(id[1..])
  }

  lemma {:induction false} ParentOfDotless(id: string)
    requires '.' !in id
    ensures Parent(id) == id
  {
    if id != [] {
      assert id[0] in id && forall c | c in id[1..] :: c in id;
      ParentOfDotless(id[1..]);
      assert id == [id[0]] + id[1..];
    }
  }

  /** The tactic of a spelling without blanks, underscores and dashes, in lower case. */
  function FindTactic(tactics: seq<string>, key: string): (t: Option<string>)
    ensures t.Some? ==> t.value in tactics
  {
    if tactics == [] then None
    else if Lower(tactics[0]) == key then Some(tactics[0])
    else FindTactic(tactics[1..], key)
  }

  function Squash(s: string): string {
    if s == [] then []
    else (if IsSpace(s[0]) || s[0] == '_' || s[0] == '-' then [] else [LowerChar(s[0])]) + Squash(s[1..])
  }

  function NormaliseTactic(raw: Option<string>): (t: Option<string>)
    ensures t.Some? ==> t.value in ALL_TACTICS
  {
    if raw.None? then None
    else
      var key := Squash(raw.value);
      if key == "stealth" || key == "defenseimpairment" then
        assert ALL_TACTICS[6] == "DefenseEvasion";
        Some("DefenseEvasion")
      else FindTactic(ALL_TACTICS, key)
  }

  /** The recognised tactics of a list, each once, in order of first appearance. */
  function Tactics(raw: seq<Option<string>>): (ts: seq<string>)
    ensures forall t :: t in ts <==> exists r :: r in raw && NormaliseTactic(r) == Some(t)
  {
    if raw == [] then []
    else
      var ts, t := Tactics(raw[..|raw| - 1]), NormaliseTactic(raw[|raw| - 1]);
      assert raw == raw[..|raw| - 1] + [raw[|raw| - 1]];
      if t.Some? && t.value !in ts then ts + [t.value] else ts
  }

  // ---- the matrix ----

  datatype Matrix = Matrix(
    tactics: set<string>, techniques: set<string>, subTechniques: set<string>,
    techniqueTactics: map<string, seq<string>>, revoked: map<string, string>, deprecated: set<string>)
  {
    function Resolved(id: string): (Option<string>, Status) {
      Resolve(techniqueTactics.Keys, revoked, deprecated, id)
    }

    function TacticsFor(id: string): seq<string> {
      if id in techniqueTactics then techniqueTactics[id] else []
    }

    /** What loading establishes. */
    predicate Loaded() {
      techniqueTactics.Keys == techniques + subTechniques && KnownTactics(techniqueTactics)
    }

    /** Ids as ATT&CK writes them: only sub-techniques carry a dot. */
    predicate WellFormed() {
      && Loaded()
      && (forall id | id in techniques :: '.' !in id)
      && (forall id | id in subTechniques :: '.' in id)
    }
  }

  datatype RawTechnique = RawTechnique(id: Option<string>, tactics: seq<Option<string>>)

  function RawIds(raw: seq<RawTechnique>): set<string> {
    set e | e in raw && e.id.Some? :: e.id.value
  }

  /** The tactics a table files its techniques under; a later entry of an id wins. */
  function Filed(raw: seq<RawTechnique>, before: map<string, seq<string>>): map<string, seq<string>> {
    if raw == [] then before
    else
      var rest, e := Filed(raw[..|raw| - 1], before), raw[|raw| - 1];
      if e.id.Some? then rest[e.id.value := Tactics(e.tactics)] else rest
  }

  predicate KnownTactics(filed: map<string, seq<string>>) {
    forall id, t | id in filed && t in filed[id] :: t in ALL_TACTICS
  }

  lemma {:induction false} FiledIsKnown(raw: seq<RawTechnique>, before: map<string, seq<string>>)
    requires KnownTactics(before)
    ensures KnownTactics(Filed(raw, before)) && Filed(raw, before).Keys == before.Keys + RawIds(raw)
  {
    if raw != [] {
      var rest, e := raw[..|raw| - 1], raw[|raw| - 1];
      FiledIsKnown(rest, before);
      RawIdsSnoc(rest, e);
      assert raw == rest + [e];
    }
  }

  lemma RawIdsSnoc(raw: seq<RawTechnique>, e: RawTechnique)
    ensures RawIds(raw + [e]) == RawIds(raw) + if e.id.Some? then {e.id.value} else {}
  {
    forall x | x in raw + [e] ensures x in raw || x == e {}
    forall x | x in raw ensures x in raw + [e] {}
    assert e in raw + [e];
  }

  /** One of the two loops of `from_dict`. */
  method LoadTable(raw: seq<RawTechnique>, before: map<string, seq<string>>)
    returns (bucket: set<string>, tactics: map<string, seq<string>>)
    ensures bucket == RawIds(raw) && tactics == Filed(raw, before)
  {
    bucket, tactics := {}, before;
    for i := 0 to |raw|
      invariant bucket == RawIds(raw[..i]) && tactics == Filed(raw[..i], before)
    {
      assert raw[..i + 1] == raw[..i] + [raw[i]];
      RawIdsSnoc(raw[..i], raw[i]);
      var e := raw[i];
      if e.id.Some? {
        bucket, tactics := bucket + {e.id.value}, tactics[e.id.value := Tactics(e.tactics)];
      }
    }
    assert raw[..|raw|] == raw;
  }

  /** `AttackMatrix.from_dict`: every loaded matrix files techniques only under tactics the reports have rows for. */
  method FromDict(techniques: seq<RawTechnique>, subTechniques: seq<RawTechnique>, tactics: seq<Option<string>>,
                  revoked: map<string, string>, deprecated: set<string>) returns (m: Matrix)
    ensures m.Loaded() && m.revoked == revoked && m.deprecated == deprecated
    ensures m.techniques == RawIds(techniques) && m.subTechniques == RawIds(subTechniques)
    ensures m.tactics == set t | t in tactics && t.Some? :: t.value
    ensures m.techniqueTactics == Filed(subTechniques, Filed(techniques, map[]))
  {
    FiledIsKnown(techniques, map[]);
    FiledIsKnown(subTechniques, Filed(techniques, map[]));
    var parents, filed := LoadTable(techniques, map[]);
    var subs, all := LoadTable(subTechniques, filed);
    m := Matrix(set t | t in tactics && t.Some? :: t.value, parents, subs, all, revoked, deprecated);
  }

  // ---- one detection ----

  datatype Severity = Informational | Low | Medium | High

  /** What the extraction reads: the tags of the metadata block, then those of the payload. */
  datatype Tags = Tags(metaTactics: seq<string>, payloadTactics: seq<string>, ids: seq<string>, severity: Severity)

  /** The sorted tuples of the source, as sets. `ids` that are no technique id keep their order. */
  datatype Extracted = Extracted(
    tactics: set<string>, techniques: set<string>, counted: set<string>, byTactic: map<string, set<string>>,
    outside: set<string>, invalid: seq<string>, unknown: set<string>, deprecated: set<string>,
    remapped: set<(string, string)>, inferred: bool, severity: Severity)

  /** The well-formed ids among what was written. */
  function Ids(raw: seq<string>): set<string> {
    set r | r in raw && NormaliseId(r).Some? :: NormaliseId(r).value
  }

  function Counted(m: Matrix, ids: set<string>): set<string> {
    set id | id in ids && m.Resolved(id).0.Some? :: m.Resolved(id).0.value
  }

  function WithStatus(m: Matrix, ids: set<string>, status: Status): set<string> {
    set id | id in ids && m.Resolved(id).1 == status
  }

  function Remapped(m: Matrix, ids: set<string>): set<(string, string)> {
    set id | id in ids && m.Resolved(id).1 == IsRevoked :: (id, m.Resolved(id).0.value)
  }

  function Invalid(raw: seq<string>): seq<string> {
    if raw == [] then []
    else
      var rest, r := Invalid(raw[..|raw| - 1]), raw[|raw| - 1];
      if NormaliseId(r).None? && Strip(r) !in rest then rest + [Strip(r)] else rest
  }

  /** The tactics written on the rule, and those it is listed under. */
  function Claimed(tags: Tags): set<string> {
    set t | t in tags.metaTactics + tags.payloadTactics
  }

  function TacticsClaimed(m: Matrix, tags: Tags, counted: set<string>): set<string> {
    if Claimed(tags) == {} then set id, t | id in counted && t in m.TacticsFor(id) :: t else Claimed(tags)
  }

  function Under(m: Matrix, counted: set<string>, tactic: string): set<string> {
    set id | id in counted && tactic in m.TacticsFor(id)
  }

  function Attributed(byTactic: map<string, set<string>>): set<string> {
    set t, id | t in byTactic && id in byTactic[t] :: id
  }

  /** The lists the extraction loop fills. */
  datatype Tally = Tally(
    counted: set<string>, display: set<string>, unknown: set<string>, deprecated: set<string>,
    remapped: set<(string, string)>, invalid: seq<string>)

  /** What the loop must have found, stated over the set of well-formed ids. */
  function Found(m: Matrix, raw: seq<string>): Tally {
    var ids := Ids(raw);
    var unknown, deprecated := WithStatus(m, ids, IsUnknown), WithStatus(m, ids, IsDeprecated);
    Tally(Counted(m, ids), Counted(m, ids) + deprecated + unknown, unknown, deprecated, Remapped(m, ids), Invalid(raw))
  }

  function Assemble(m: Matrix, tags: Tags, t: Tally): Extracted {
    var tactics := TacticsClaimed(m, tags, t.counted);
    var byTactic := map tactic | tactic in tactics :: Under(m, t.counted, tactic);
    Extracted(tactics, t.display, t.counted, byTactic, t.display - Attributed(byTactic), t.invalid, t.unknown,
              t.deprecated, t.remapped, Claimed(tags) == {} && t.counted != {}, tags.severity)
  }

  /** What a detection covers. */
  function Extract(m: Matrix, tags: Tags): Extracted {
    Assemble(m, tags, Found(m, tags.ids))
  }

  /** One round of the loop. */
  function Add(m: Matrix, t: Tally, r: string): Tally {
    match NormaliseId(r)
    case None => t.(invalid := if Strip(r) in t.invalid then t.invalid else t.invalid + [Strip(r)])
    case Some(id) =>
      match m.Resolved(id)
      case (Some(current), IsRevoked) =>
        t.(remapped := t.remapped + {(id, current)}, counted := t.counted + {current}, display := t.display + {current})
      case (_, IsDeprecated) => t.(deprecated := t.deprecated + {id}, display := t.display + {id})
      case (Some(_), IsCurrent) => t.(counted := t.counted + {id}, display := t.display + {id})
      case _ => t.(unknown := t.unknown + {id}, display := t.display + {id})
  }

  lemma FoundSnoc(m: Matrix, raw: seq<string>, r: string)
    ensures Found(m, raw + [r]) == Add(m, Found(m, raw), r)
  {
    assert (raw + [r])[..|raw|] == raw;
    IdsSnoc(raw, r);
    if NormaliseId(r).Some? {
      FoundOneMore(m, raw, Ids(raw), r, NormaliseId(r).value);
    } else {
      assert Ids(raw + [r]) == Ids(raw);
    }
  }

  lemma FoundOneMore(m: Matrix, raw: seq<string>, ids: set<string>, r: string, id: string)
    requires ids == Ids(raw) && Ids(raw + [r]) == ids + {id} && NormaliseId(r) == Some(id)
    ensures Found(m, raw + [r]) == Add(m, Found(m, raw), r)
  {
    assert (raw + [r])[..|raw|] == raw;
    var (current, status) := m.Resolved(id);
    var (c, d, u) := (Counted(m, ids), WithStatus(m, ids, IsDeprecated), WithStatus(m, ids, IsUnknown));
    OneMoreCounted(m, ids, id);
    OneMoreWithStatus(m, ids, id, IsDeprecated);
    OneMoreWithStatus(m, ids, id, IsUnknown);
    OneMoreRemapped(m, ids, id);
    OneMoreDisplayed(c, d, u, if current.Some? then current.value else id);
  }

  lemma OneMoreDisplayed(c: set<string>, d: set<string>, u: set<string>, x: string)
    ensures (c + {x}) + d + u == (c + d + u) + {x}
    ensures c + (d + {x}) + u == (c + d + u) + {x}
    ensures c + d + (u + {x}) == (c + d + u) + {x}
  {
  }

  /** The loop of `extract_mitre`, and what it builds from its lists. */
  method ExtractMitre(m: Matrix, tags: Tags) returns (e: Extracted)
    ensures e == Extract(m, tags)
  {
    var display, counted, unknown, deprecated: set<string> := {}, {}, {}, {};
    var invalid: seq<string> := [];
    var remapped: set<(string, string)> := {};
    FoundNothing(m);
    for i := 0 to |tags.ids|
      invariant Tally(counted, display, unknown, deprecated, remapped, invalid) == Found(m, tags.ids[..i])
    {
      FoundSnoc(m, tags.ids[..i], tags.ids[i]);
      assert tags.ids[..i + 1] == tags.ids[..i] + [tags.ids[i]];
      var id := NormaliseId(tags.ids[i]);
      if id.None? {
        invalid := if Strip(tags.ids[i]) in invalid then invalid else invalid + [Strip(tags.ids[i])];
        continue;
      }
      var tid := id.value;
      var (current, status) := m.Resolved(tid);
      if status == IsCurrent {
        counted, display := counted + {tid}, display + {tid};
      } else if status == IsRevoked && current.Some? {
        remapped := remapped + {(tid, current.value)};
        counted, display := counted + {current.value}, display + {current.value};
      } else if status == IsDeprecated {
        deprecated, display := deprecated + {tid}, display + {tid};
      } else {
        unknown, display := unknown + {tid}, display + {tid};
      }
    }
    assert tags.ids[..|tags.ids|] == tags.ids;
    e := AssembleFrom(m, tags, Tally(counted, display, unknown, deprecated, remapped, invalid));
  }

  /** The rest of `extract_mitre`: claimed or inferred tactics, and which technique is listed where. */
  method AssembleFrom(m: Matrix, tags: Tags, t: Tally) returns (e: Extracted)
    ensures e == Assemble(m, tags, t)
  {
    var tactics, inferred := Claimed(tags), false;
    if tactics == {} && t.counted != {} {
      tactics, inferred := set id, tactic | id in t.counted && tactic in m.TacticsFor(id) :: tactic, true;
    }
    var byTactic := map tactic | tactic in tactics :: Under(m, t.counted, tactic);
    e := Extracted(tactics, t.display, t.counted, byTactic, t.display - Attributed(byTactic), t.invalid, t.unknown,
                   t.deprecated, t.remapped, inferred, tags.severity);
  }

  lemma FoundNothing(m: Matrix)
    ensures Found(m, []) == Tally({}, {}, {}, {}, {}, [])
  {
  }

  lemma ClaimsNothing(tags: Tags)
    ensures Claimed(tags) == {} <==> tags.metaTactics == [] && tags.payloadTactics == []
  {
    var all := tags.metaTactics + tags.payloadTactics;
    if all != [] {
      assert all[0] in Claimed(tags);
    }
  }

  lemma IdsSnoc(raw: seq<string>, r: string)
    ensures Ids(raw + [r]) == Ids(raw) + match NormaliseId(r) { case None => {} case Some(id) => {id} }
  {
    forall x | x in raw + [r] ensures x in raw || x == r {}
    forall x | x in raw ensures x in raw + [r] {}
    assert r in raw + [r];
  }

  lemma OneMoreCounted(m: Matrix, ids: set<string>, id: string)
    ensures Counted(m, ids + {id}) ==
      if m.Resolved(id).0.Some? then Counted(m, ids) + {m.Resolved(id).0.value} else Counted(m, ids)
  {
  }

  lemma OneMoreWithStatus(m: Matrix, ids: set<string>, id: string, s: Status)
    ensures WithStatus(m, ids + {id}, s) ==
      if m.Resolved(id).1 == s then WithStatus(m, ids, s) + {id} else WithStatus(m, ids, s)
  {
  }

  lemma OneMoreRemapped(m: Matrix, ids: set<string>, id: string)
    ensures Remapped(m, ids + {id}) ==
      if m.Resolved(id).1 == IsRevoked then Remapped(m, ids) + {(id, m.Resolved(id).0.value)} else Remapped(m, ids)
  {
  }

  // ---- what the extraction guarantees ----

  /** Nothing written on a rule disappears: a value is malformed and listed, or its id is counted as itself,
      counted as its replacement and listed as remapped, or listed as deprecated or unknown. */
  lemma NothingWrittenDisappears(m: Matrix, tags: Tags, r: string)
    requires r in tags.ids
    ensures var e := Extract(m, tags);
      match NormaliseId(r)
      case None => Strip(r) in e.invalid
      case Some(id) =>
        match m.Resolved(id).1
        case IsCurrent => id in e.counted && id in e.techniques
        case IsRevoked => (id, m.revoked[id]) in e.remapped && m.revoked[id] in e.counted
        case IsDeprecated => id in e.deprecated && id in e.techniques
        case IsUnknown => id in e.unknown && id in e.techniques
  {
    var e, ids := Extract(m, tags), Ids(tags.ids);
    if NormaliseId(r).None? {
      InvalidHolds(tags.ids, r);
    } else {
      var id := NormaliseId(r).value;
      assert id in ids;
      assert m.Resolved(id).0.Some? ==> m.Resolved(id).0.value in Counted(m, ids);
    }
  }

  lemma {:induction false} InvalidHolds(raw: seq<string>, r: string)
    requires r in raw && NormaliseId(r).None?
    ensures Strip(r) in Invalid(raw)
  {
    if r != raw[|raw| - 1] {
      assert raw == raw[..|raw| - 1] + [raw[|raw| - 1]];
      InvalidHolds(raw[..|raw| - 1], r);
    }
  }

  /** Only current ids are counted, and the three kinds of id a rule shows do not overlap. */
  lemma CountedIsCurrent(m: Matrix, tags: Tags)
    ensures var e := Extract(m, tags);
      && e.counted <= m.techniqueTactics.Keys
      && e.deprecated !! m.techniqueTactics.Keys && e.unknown !! m.techniqueTactics.Keys
      && e.deprecated !! e.unknown
      && e.techniques * m.techniqueTactics.Keys == e.counted
  {
  }

  /** A technique is listed under a tactic only where the matrix files it, and every counted technique is listed
      somewhere or reported as outside the rule's tactics. */
  lemma AttributionIsExact(m: Matrix, tags: Tags)
    ensures var e := Extract(m, tags);
      && e.byTactic.Keys == e.tactics
      && (forall t, id | t in e.byTactic && id in e.byTactic[t] :: id in e.counted && t in m.TacticsFor(id))
      && e.counted == Attributed(e.byTactic) + (e.outside * m.techniqueTactics.Keys)
      && Attributed(e.byTactic) !! e.outside
  {
    CountedIsCurrent(m, tags);
    var e := Extract(m, tags);
    forall id | id in Attributed(e.byTactic) ensures id in e.counted {
      var t :| t in e.byTactic && id in e.byTactic[t];
    }
  }

  /** A rule that claims no tactic is listed under every tactic of its techniques: nothing is left outside
      unless the matrix files it nowhere. */
  lemma InferredTacticsCoverAll(m: Matrix, tags: Tags, id: string)
    requires tags.metaTactics == [] && tags.payloadTactics == [] && id in Extract(m, tags).counted
    ensures id in Extract(m, tags).outside <==> m.TacticsFor(id) == []
  {
    ClaimsNothing(tags);
    var e := Extract(m, tags);
    if m.TacticsFor(id) == [] {
      assert forall t | t in e.byTactic :: id !in e.byTactic[t];
    } else {
      var t := m.TacticsFor(id)[0];
      assert t in m.TacticsFor(id);
      assert t in TacticsClaimed(m, tags, e.counted);
      assert id in Under(m, e.counted, t) && e.byTactic[t] == Under(m, e.counted, t);
      assert id in Attributed(e.byTactic);
    }
  }
}
