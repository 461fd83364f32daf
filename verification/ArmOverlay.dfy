// Patching the daily alert files with the incidents' live state, and rebuilding the ledger from them.
module ArmOverlay {
  import opened Text

  /** An incident as ARM returns it. `closed` is its closing time as the ledger writes it, None when it is absent
      or unreadable. */
  datatype Incident = Incident(
    alertIds: seq<string>, number: Option<int>, classification: string, closed: Option<string>, status: string)

  datatype Patch = Patch(classification: Option<string>, closedAt: Option<string>, number: Option<int>, reopened: bool)

  datatype Entry = Entry(
    alertId: string, rule: string, classification: string, closedAt: Option<string>, severity: string, source: string,
    createdAt: string, ruleId: Option<string>, serviceSource: string, detectionSource: string, number: Option<int>)

  /** A daily file; a line that does not parse is None. */
  datatype Day = Day(name: string, lines: seq<Option<Entry>>)

  const UNDETERMINED := "undetermined"
  const BOTH := "both"

  function Squeeze(s: string): string {
    if s == [] then [] else (if s[0] == ' ' || s[0] == '_' then [] else [s[0]]) + Squeeze(s[1..])
  }

  /** `AlertClassification.from_sentinel(...).value`. */
  function Classified(raw: string): string {
    var key := Squeeze(Lower(raw));
    if key == "truepositive" then "truePositive"
    else if key == "falsepositive" then "falsePositive"
    else if key == "benignpositive" then "benignPositive"
    else UNDETERMINED
  }

  function PatchOf(inc: Incident): Patch {
    var reopened := Lower(inc.status) == "new" || Lower(inc.status) == "active";
    Patch(if inc.classification != "" then Some(Classified(inc.classification)) else None,
          if reopened then None else inc.closed, inc.number, reopened)
  }

  // ---- which patch an entry gets ----

  function PutAll(m: map<string, Patch>, ids: seq<string>, p: Patch): map<string, Patch> {
    if ids == [] then m else PutAll(m, ids[..|ids| - 1], p)[ids[|ids| - 1] := p]
  }

  /** `patch_map`: the last incident naming an alert wins. */
  function ByAlert(incidents: seq<Incident>): map<string, Patch> {
    if incidents == [] then map[]
    else
      var inc := incidents[|incidents| - 1];
      PutAll(ByAlert(incidents[..|incidents| - 1]), inc.alertIds, PatchOf(inc))
  }

  /** `incident_number_map`. */
  function ByNumber(incidents: seq<Incident>): map<int, Patch> {
    if incidents == [] then map[]
    else
      var inc, before := incidents[|incidents| - 1], ByNumber(incidents[..|incidents| - 1]);
      if inc.number.Some? then before[inc.number.value := PatchOf(inc)] else before
  }

  function PatchFor(byAlert: map<string, Patch>, byNumber: map<int, Patch>, e: Entry): Option<Patch> {
    if e.alertId in byAlert then Some(byAlert[e.alertId])
    else if e.number.Some? && e.number.value in byNumber then Some(byNumber[e.number.value])
    else None
  }

  method BuildMaps(incidents: seq<Incident>) returns (byAlert: map<string, Patch>, byNumber: map<int, Patch>)
    ensures byAlert == ByAlert(incidents) && byNumber == ByNumber(incidents)
  {
    byAlert, byNumber := map[], map[];
    for i := 0 to |incidents|
      invariant byAlert == ByAlert(incidents[..i]) && byNumber == ByNumber(incidents[..i])
    {
      assert incidents[..i + 1][..i] == incidents[..i];
      var inc := incidents[i];
      var patch := PatchOf(inc);
      ghost var before := byAlert;
      for j := 0 to |inc.alertIds|
        invariant byAlert == PutAll(before, inc.alertIds[..j], patch)
      {
        assert inc.alertIds[..j + 1][..j] == inc.alertIds[..j];
        byAlert := byAlert[inc.alertIds[j] := patch];
      }
      assert inc.alertIds[..|inc.alertIds|] == inc.alertIds;
      if inc.number.Some? {
        byNumber := byNumber[inc.number.value := patch];
      }
    }
    assert incidents[..|incidents|] == incidents;
  }

  // ---- one entry ----

  /** The live state an entry must show, as far as the incident states it. */
  predicate Agrees(e: Entry, p: Patch) {
    && (p.classification.Some? ==> e.classification == p.classification.value)
    && (p.reopened ==> e.closedAt.None?)
    && (p.closedAt.Some? ==> e.closedAt == p.closedAt)
    && (p.number.Some? ==> e.number == p.number)
  }

  predicate SameAlert(e: Entry, f: Entry) {
    && e.alertId == f.alertId && e.rule == f.rule && e.severity == f.severity && e.createdAt == f.createdAt
    && e.ruleId == f.ruleId && e.serviceSource == f.serviceSource && e.detectionSource == f.detectionSource
  }

  /** An entry under its patch: rewritten only when it disagrees with the incident. */
  function Patched(e: Entry, p: Patch): Entry {
    if Agrees(e, p) then e
    else e.(
      classification :=
        if p.classification.Some? then p.classification.value
        else if p.reopened && e.closedAt.Some? then UNDETERMINED
        else e.classification,
      closedAt := if p.reopened then None else if p.closedAt.Some? then p.closedAt else e.closedAt,
      number := if p.number.Some? then p.number else e.number,
      source := BOTH)
  }

  /** The loop body of `apply_arm_overlay_to_daily_files`, with its `needs_update` flag. */
  method PatchEntry(e: Entry, p: Patch) returns (r: Entry, needsUpdate: bool)
    requires p.reopened ==> p.closedAt.None?
    ensures r == Patched(e, p) && needsUpdate == !Agrees(e, p)
  {
    needsUpdate := false;
    var classification, closedAt, number := e.classification, e.closedAt, e.number;
    if p.classification.Some? && p.classification.value != e.classification {
      classification, needsUpdate := p.classification.value, true;
    }
    if p.reopened && e.closedAt.Some? {
      closedAt := None;
      classification := if p.classification.Some? then p.classification.value else UNDETERMINED;
      needsUpdate := true;
    } else if p.closedAt.Some? && p.closedAt != e.closedAt {
      closedAt, needsUpdate := p.closedAt, true;
    }
    if p.number.Some? && e.number != p.number {
      number, needsUpdate := p.number, true;
    }
    r := e;
    if needsUpdate {
      r := Entry(e.alertId, e.rule, classification, closedAt, e.severity, BOTH, e.createdAt, e.ruleId,
                 e.serviceSource, e.detectionSource, number);
    }
  }

  /** After patching an entry agrees with its incident and is the same alert; patching again changes nothing. */
  lemma PatchedAgrees(e: Entry, inc: Incident)
    ensures Agrees(Patched(e, PatchOf(inc)), PatchOf(inc)) && SameAlert(e, Patched(e, PatchOf(inc)))
    ensures Patched(Patched(e, PatchOf(inc)), PatchOf(inc)) == Patched(e, PatchOf(inc))
  {
  }

  /** Closing and reopening: whatever verdict the closed incident carried, and whatever the entry said before, a
      reopened incident without a verdict leaves the entry open and undetermined, and one with a verdict its own. */
  lemma ReopenedIsReverted(e: Entry, closed: Incident, reopened: Incident)
    requires PatchOf(closed).closedAt.Some? && PatchOf(reopened).reopened
    ensures var r := Patched(Patched(e, PatchOf(closed)), PatchOf(reopened));
      && SameAlert(e, r) && r.closedAt.None?
      && r.classification ==
           (if reopened.classification == "" then UNDETERMINED else Classified(reopened.classification))
  {
    PatchedAgrees(e, closed);
    assert Patched(e, PatchOf(closed)).closedAt.Some?;
  }

  // ---- the files ----

  function Overlaid(byAlert: map<string, Patch>, byNumber: map<int, Patch>, e: Entry): Entry {
    match PatchFor(byAlert, byNumber, e)
    case None => e
    case Some(p) => Patched(e, p)
  }

  function Entries(lines: seq<Option<Entry>>): seq<Entry> {
    if lines == [] then []
    else
      var last, before := lines[|lines| - 1], Entries(lines[..|lines| - 1]);
      if last.Some? then before + [last.value] else before
  }

  function OverlaidAll(byAlert: map<string, Patch>, byNumber: map<int, Patch>, entries: seq<Entry>): seq<Entry> {
    seq(|entries|, i requires 0 <= i < |entries| => Overlaid(byAlert, byNumber, entries[i]))
  }

  function Stale(byAlert: map<string, Patch>, byNumber: map<int, Patch>, entries: seq<Entry>): nat {
    if entries == [] then 0
    else
      var e := entries[|entries| - 1];
      Stale(byAlert, byNumber, entries[..|entries| - 1]) + if Overlaid(byAlert, byNumber, e) != e then 1 else 0
  }

  function Lines(entries: seq<Entry>): seq<Option<Entry>> {
    seq(|entries|, i requires 0 <= i < |entries| => Some(entries[i]))
  }

  /** A file is rewritten only when one of its entries changes; lines that do not parse are lost then. */
  function OverlaidDay(byAlert: map<string, Patch>, byNumber: map<int, Patch>, d: Day): Day {
    var entries := Entries(d.lines);
    if Stale(byAlert, byNumber, entries) == 0 then d
    else Day(d.name, Lines(OverlaidAll(byAlert, byNumber, entries)))
  }

  function OverlaidDays(byAlert: map<string, Patch>, byNumber: map<int, Patch>, days: seq<Day>): seq<Day> {
    seq(|days|, i requires 0 <= i < |days| => OverlaidDay(byAlert, byNumber, days[i]))
  }

  /** Files rewritten and entries changed. */
  function Changes(byAlert: map<string, Patch>, byNumber: map<int, Patch>, days: seq<Day>): (nat, nat) {
    if days == [] then (0, 0)
    else
      var (files, entries) := Changes(byAlert, byNumber, days[..|days| - 1]);
      var stale := Stale(byAlert, byNumber, Entries(days[|days| - 1].lines));
      (if stale == 0 then files else files + 1, entries + stale)
  }

  function AllEntries(days: seq<Day>): seq<Entry> {
    if days == [] then [] else AllEntries(days[..|days| - 1]) + Entries(days[|days| - 1].lines)
  }

  /** Every patch of the maps came from an incident; the one found by number carries that number. */
  lemma {:induction false} MapsHoldPatches(incidents: seq<Incident>, id: string, n: int)
    ensures id in ByAlert(incidents) ==> exists inc :: inc in incidents && ByAlert(incidents)[id] == PatchOf(inc)
    ensures n in ByNumber(incidents) ==>
      exists inc :: inc in incidents && ByNumber(incidents)[n] == PatchOf(inc) && inc.number == Some(n)
  {
    if incidents != [] {
      var inc, rest := incidents[|incidents| - 1], incidents[..|incidents| - 1];
      assert incidents == rest + [inc];
      MapsHoldPatches(rest, id, n);
      PutAllHolds(ByAlert(rest), inc.alertIds, PatchOf(inc), id);
      assert inc in incidents;
    }
  }

  lemma {:induction false} PutAllHolds(m: map<string, Patch>, ids: seq<string>, p: Patch, id: string)
    ensures id in PutAll(m, ids, p) <==> id in ids || id in m
    ensures id in PutAll(m, ids, p) ==> PutAll(m, ids, p)[id] == if id in ids then p else m[id]
  {
    if ids != [] {
      assert ids == ids[..|ids| - 1] + [ids[|ids| - 1]];
      PutAllHolds(m, ids[..|ids| - 1], p, id);
    }
  }

  lemma PatchIsConsistent(incidents: seq<Incident>, e: Entry)
    requires PatchFor(ByAlert(incidents), ByNumber(incidents), e).Some?
    ensures var p := PatchFor(ByAlert(incidents), ByNumber(incidents), e).value;
      && (p.reopened ==> p.closedAt.None?)
      && Agrees(Patched(e, p), p)
      && PatchFor(ByAlert(incidents), ByNumber(incidents), Patched(e, p)) == Some(p)
  {
    MapsHoldPatches(incidents, e.alertId, if e.number.Some? then e.number.value else 0);
  }

  /** Overlaying an entry twice is overlaying it once, although its incident number may have changed. */
  lemma OverlaidTwice(incidents: seq<Incident>, e: Entry)
    ensures var a, n := ByAlert(incidents), ByNumber(incidents);
      Overlaid(a, n, Overlaid(a, n, e)) == Overlaid(a, n, e)
  {
    if PatchFor(ByAlert(incidents), ByNumber(incidents), e).Some? {
      PatchIsConsistent(incidents, e);
    }
  }

  lemma {:induction false} EntriesOfLines(entries: seq<Entry>)
    ensures Entries(Lines(entries)) == entries
  {
    if entries != [] {
      EntriesOfLines(entries[..|entries| - 1]);
      assert Lines(entries)[..|entries| - 1] == Lines(entries[..|entries| - 1]);
    }
  }

  lemma {:induction false} NotStale(byAlert: map<string, Patch>, byNumber: map<int, Patch>, entries: seq<Entry>)
    ensures Stale(byAlert, byNumber, entries) == 0 <==> OverlaidAll(byAlert, byNumber, entries) == entries
  {
    if entries != [] {
      var rest := entries[..|entries| - 1];
      NotStale(byAlert, byNumber, rest);
      assert entries == rest + [entries[|entries| - 1]];
      assert OverlaidAll(byAlert, byNumber, entries) ==
        OverlaidAll(byAlert, byNumber, rest) + [Overlaid(byAlert, byNumber, entries[|entries| - 1])];
    }
  }

  /** The readable entries of a file after the overlay. */
  lemma OverlaidDayEntries(byAlert: map<string, Patch>, byNumber: map<int, Patch>, d: Day)
    ensures Entries(OverlaidDay(byAlert, byNumber, d).lines) == OverlaidAll(byAlert, byNumber, Entries(d.lines))
  {
    NotStale(byAlert, byNumber, Entries(d.lines));
    EntriesOfLines(OverlaidAll(byAlert, byNumber, Entries(d.lines)));
  }

  lemma OverlaidDayIsFresh(incidents: seq<Incident>, d: Day)
    ensures var a, n := ByAlert(incidents), ByNumber(incidents);
      Stale(a, n, Entries(OverlaidDay(a, n, d).lines)) == 0
  {
    var a, n := ByAlert(incidents), ByNumber(incidents);
    var entries := Entries(d.lines);
    OverlaidDayEntries(a, n, d);
    var once := OverlaidAll(a, n, entries);
    forall i | 0 <= i < |entries| ensures OverlaidAll(a, n, once)[i] == once[i] {
      OverlaidTwice(incidents, entries[i]);
    }
    assert OverlaidAll(a, n, once) == once;
    NotStale(a, n, once);
  }

  /** A second run with the same incidents changes nothing and reports (0, 0). */
  lemma {:induction false} OverlayIsIdempotent(incidents: seq<Incident>, days: seq<Day>)
    ensures var a, n := ByAlert(incidents), ByNumber(incidents);
      && OverlaidDays(a, n, OverlaidDays(a, n, days)) == OverlaidDays(a, n, days)
      && Changes(a, n, OverlaidDays(a, n, days)) == (0, 0)
  {
    var a, n := ByAlert(incidents), ByNumber(incidents);
    var once := OverlaidDays(a, n, days);
    forall i | 0 <= i < |days| ensures OverlaidDay(a, n, once[i]) == once[i] {
      OverlaidDayIsFresh(incidents, days[i]);
    }
    assert OverlaidDays(a, n, once) == once;
    if days != [] {
      OverlayIsIdempotent(incidents, days[..|days| - 1]);
      assert once[..|days| - 1] == OverlaidDays(a, n, days[..|days| - 1]);
      OverlaidDayIsFresh(incidents, days[|days| - 1]);
    }
  }

  /** One run: every patched entry agrees with ARM, and every entry is still there, in its place, as the same alert. */
  lemma {:induction false} OverlayAgreesWithArm(incidents: seq<Incident>, days: seq<Day>)
    ensures var a, n := ByAlert(incidents), ByNumber(incidents);
      var before, after := AllEntries(days), AllEntries(OverlaidDays(a, n, days));
      && after == OverlaidAll(a, n, before)
      && (forall i | 0 <= i < |before| :: SameAlert(before[i], after[i]))
      && (forall i | 0 <= i < |before| :: PatchFor(a, n, before[i]).Some? ==>
           Agrees(after[i], PatchFor(a, n, before[i]).value))
      && (forall i | 0 <= i < |before| :: PatchFor(a, n, before[i]).None? ==> after[i] == before[i])
  {
    var a, n := ByAlert(incidents), ByNumber(incidents);
    OverlaidEntries(a, n, days);
    var before := AllEntries(days);
    forall i | 0 <= i < |before| && PatchFor(a, n, before[i]).Some?
      ensures Agrees(Overlaid(a, n, before[i]), PatchFor(a, n, before[i]).value)
    {
      PatchIsConsistent(incidents, before[i]);
    }
  }

  lemma {:induction false} OverlaidEntries(a: map<string, Patch>, n: map<int, Patch>, days: seq<Day>)
    ensures AllEntries(OverlaidDays(a, n, days)) == OverlaidAll(a, n, AllEntries(days))
  {
    if days != [] {
      var rest, d := days[..|days| - 1], days[|days| - 1];
      OverlaidEntries(a, n, rest);
      OverlaidDaysSnoc(a, n, days, |rest|);
      AllEntriesSnoc(OverlaidDays(a, n, rest), OverlaidDay(a, n, d));
      OverlaidDayEntries(a, n, d);
      OverlaidConcat(a, n, AllEntries(rest), Entries(d.lines));
    }
  }

  lemma OverlaidDaysSnoc(a: map<string, Patch>, n: map<int, Patch>, days: seq<Day>, i: nat)
    requires i < |days|
    ensures OverlaidDays(a, n, days[..i + 1]) == OverlaidDays(a, n, days[..i]) + [OverlaidDay(a, n, days[i])]
    ensures i + 1 == |days| ==> days[..i + 1] == days
  {
  }

  lemma AllEntriesSnoc(days: seq<Day>, d: Day)
    ensures AllEntries(days + [d]) == AllEntries(days) + Entries(d.lines)
  {
    assert (days + [d])[..|days|] == days;
  }

  lemma OverlaidConcat(a: map<string, Patch>, n: map<int, Patch>, x: seq<Entry>, y: seq<Entry>)
    ensures OverlaidAll(a, n, x + y) == OverlaidAll(a, n, x) + OverlaidAll(a, n, y)
  {
  }

  // ---- the ledger ----

  /** The alert ids in order of first appearance. */
  function FirstSeen(entries: seq<Entry>): seq<string> {
    if entries == [] then []
    else
      var before, id := FirstSeen(entries[..|entries| - 1]), entries[|entries| - 1].alertId;
      if id in before then before else before + [id]
  }

  /** The last entry of each alert id. */
  function LastById(entries: seq<Entry>): map<string, Entry> {
    if entries == [] then map[]
    else
      var e := entries[|entries| - 1];
      LastById(entries[..|entries| - 1])[e.alertId := e]
  }

  lemma {:induction false} SeenIsMapped(entries: seq<Entry>, id: string)
    ensures id in LastById(entries) <==> id in FirstSeen(entries)
  {
    if entries != [] {
      SeenIsMapped(entries[..|entries| - 1], id);
    }
  }

  lemma AllSeenAreMapped(entries: seq<Entry>)
    ensures forall id | id in FirstSeen(entries) :: id in LastById(entries)
  {
    forall id | id in FirstSeen(entries) ensures id in LastById(entries) {
      SeenIsMapped(entries, id);
    }
  }

  function LedgerOf(entries: seq<Entry>): seq<Entry> {
    var ids, byId := FirstSeen(entries), LastById(entries);
    AllSeenAreMapped(entries);
    seq(|ids|, i requires 0 <= i < |ids| => byId[ids[i]])
  }

  lemma {:induction false} FirstSeenOnce(entries: seq<Entry>)
    ensures forall i, j | 0 <= i < j < |FirstSeen(entries)| :: FirstSeen(entries)[i] != FirstSeen(entries)[j]
  {
    if entries != [] {
      FirstSeenOnce(entries[..|entries| - 1]);
    }
  }

  /** No entry behind `i` is of the same alert. */
  predicate IsLast(entries: seq<Entry>, i: nat)
    requires i < |entries|
  {
    forall j | i < j < |entries| :: entries[j].alertId != entries[i].alertId
  }

  lemma {:induction false} LastByIdIsLast(entries: seq<Entry>, i: nat)
    requires i < |entries| && IsLast(entries, i)
    ensures entries[i].alertId in LastById(entries) && LastById(entries)[entries[i].alertId] == entries[i]
  {
    if i < |entries| - 1 {
      var rest, last := entries[..|entries| - 1], entries[|entries| - 1];
      assert IsLast(rest, i);
      assert last.alertId != entries[i].alertId;
      LastByIdIsLast(rest, i);
    }
  }

  /** The ledger holds one entry per alert id, and it is the last one in date order. */
  lemma LedgerHoldsTheLast(entries: seq<Entry>, i: nat)
    requires i < |entries| && IsLast(entries, i)
    ensures exists k ::
      && 0 <= k < |LedgerOf(entries)| && LedgerOf(entries)[k] == entries[i]
      && forall l | 0 <= l < |LedgerOf(entries)| && l != k :: LedgerOf(entries)[l].alertId != entries[i].alertId
  {
    var ids := FirstSeen(entries);
    LastByIdIsLast(entries, i);
    FirstSeenOnce(entries);
    LedgerIds(entries);
    SeenIsMapped(entries, entries[i].alertId);
    var k :| 0 <= k < |ids| && ids[k] == entries[i].alertId;
    assert LedgerOf(entries)[k] == entries[i];
  }

  lemma {:induction false} LastByIdIds(entries: seq<Entry>, id: string)
    requires id in LastById(entries)
    ensures LastById(entries)[id].alertId == id && LastById(entries)[id] in entries
  {
    if entries[|entries| - 1].alertId != id {
      LastByIdIds(entries[..|entries| - 1], id);
    }
  }

  lemma LedgerIds(entries: seq<Entry>)
    ensures forall k | 0 <= k < |LedgerOf(entries)| :: LedgerOf(entries)[k].alertId == FirstSeen(entries)[k]
    ensures forall k | 0 <= k < |LedgerOf(entries)| :: LedgerOf(entries)[k] in entries
  {
    var ids := FirstSeen(entries);
    forall k | 0 <= k < |ids|
      ensures LedgerOf(entries)[k].alertId == ids[k] && LedgerOf(entries)[k] in entries
    {
      SeenIsMapped(entries, ids[k]);
      LastByIdIds(entries, ids[k]);
    }
  }

  /** After a sync every ledger entry agrees with ARM: it is some daily entry under its patch. */
  lemma LedgerAgreesWithArm(incidents: seq<Incident>, before: seq<Entry>, k: nat)
    requires k < |LedgerOf(OverlaidAll(ByAlert(incidents), ByNumber(incidents), before))|
    ensures var a, n := ByAlert(incidents), ByNumber(incidents);
      var e := LedgerOf(OverlaidAll(a, n, before))[k];
      exists i :: 0 <= i < |before| && e == Overlaid(a, n, before[i]) && SameAlert(before[i], e)
        && (PatchFor(a, n, before[i]).Some? ==> Agrees(e, PatchFor(a, n, before[i]).value))
  {
    var a, n := ByAlert(incidents), ByNumber(incidents);
    var after := OverlaidAll(a, n, before);
    LedgerIds(after);
    var i :| 0 <= i < |after| && after[i] == LedgerOf(after)[k];
    if PatchFor(a, n, before[i]).Some? {
      PatchIsConsistent(incidents, before[i]);
    }
    assert LedgerOf(after)[k] == Overlaid(a, n, before[i]);
  }

  /** The alerts directory: the daily files in name order, and the ledger. */
  class AlertStore {
    var days: seq<Day>
    var ledger: seq<Entry>

    constructor (days: seq<Day>)
      ensures this.days == days && ledger == []
    {
      this.days, ledger := days, [];
    }

    /** `apply_arm_overlay_to_daily_files`. */
    method Overlay(incidents: seq<Incident>) returns (files: nat, updated: nat)
      modifies `days
      ensures days == OverlaidDays(ByAlert(incidents), ByNumber(incidents), old(days))
      ensures (files, updated) == Changes(ByAlert(incidents), ByNumber(incidents), old(days))
    {
      files, updated := 0, 0;
      if incidents == [] {
        NothingToDo(days);
        return;
      }
      var byAlert, byNumber := BuildMaps(incidents);
      MapsClearReopened(incidents, byAlert, byNumber);
      var stored, result: seq<Day> := days, [];
      for i := 0 to |stored|
        invariant result == OverlaidDays(byAlert, byNumber, stored[..i])
        invariant (files, updated) == Changes(byAlert, byNumber, stored[..i])
      {
        assert stored[..i + 1][..i] == stored[..i];
        OverlaidDaysSnoc(byAlert, byNumber, stored, i);
        var day, stale := OverlayDay(byAlert, byNumber, stored[i]);
        updated := updated + stale;
        if stale > 0 {
          files := files + 1;
        }
        result := result + [day];
      }
      assert stored[..|stored|] == stored;
      days := result;
    }

    /** `rebuild_ledger_from_daily`. */
    method Rebuild() returns (count: nat)
      modifies `ledger
      ensures ledger == LedgerOf(AllEntries(days)) && count == |FirstSeen(AllEntries(days))|
    {
      var all := LoadAll();
      var order: seq<string>, byId: map<string, Entry> := [], map[];
      for i := 0 to |all|
        invariant order == FirstSeen(all[..i]) && byId == LastById(all[..i])
      {
        assert all[..i + 1][..i] == all[..i];
        SeenIsMapped(all[..i], all[i].alertId);
        if all[i].alertId !in byId {
          order := order + [all[i].alertId];
        }
        byId := byId[all[i].alertId := all[i]];
      }
      assert all[..|all|] == all;
      AllSeenAreMapped(all);
      ledger := seq(|order|, i requires 0 <= i < |order| => byId[order[i]]);
      count := |order|;
    }

    /** `load_daily_files`. */
    method LoadAll() returns (entries: seq<Entry>)
      ensures entries == AllEntries(days)
    {
      entries := [];
      for i := 0 to |days|
        invariant entries == AllEntries(days[..i])
      {
        assert days[..i + 1][..i] == days[..i];
        entries := entries + Entries(days[i].lines);
      }
      assert days[..|days|] == days;
    }

    /** The two steps of a sync, in their order: the ledger is rebuilt from files that agree with ARM. */
    method Sync(incidents: seq<Incident>) returns (files: nat, updated: nat, count: nat)
      modifies this
      ensures days == OverlaidDays(ByAlert(incidents), ByNumber(incidents), old(days))
      ensures (files, updated) == Changes(ByAlert(incidents), ByNumber(incidents), old(days))
      ensures ledger == LedgerOf(OverlaidAll(ByAlert(incidents), ByNumber(incidents), AllEntries(old(days))))
    {
      files, updated := Overlay(incidents);
      OverlaidEntries(ByAlert(incidents), ByNumber(incidents), old(days));
      count := Rebuild();
    }
  }

  method OverlayDay(byAlert: map<string, Patch>, byNumber: map<int, Patch>, d: Day) returns (r: Day, stale: nat)
    requires ClearsReopened(byAlert, byNumber)
    ensures r == OverlaidDay(byAlert, byNumber, d) && stale == Stale(byAlert, byNumber, Entries(d.lines))
  {
    var entries;
    entries, stale := OverlayEntries(byAlert, byNumber, Entries(d.lines));
    r := d;
    if stale > 0 {
      r := Day(d.name, Lines(entries));
    }
  }

  /** A patch of a reopened incident carries no closing time. */
  ghost predicate ClearsReopened(byAlert: map<string, Patch>, byNumber: map<int, Patch>) {
    forall e: Entry :: PatchFor(byAlert, byNumber, e).Some? && PatchFor(byAlert, byNumber, e).value.reopened ==>
      PatchFor(byAlert, byNumber, e).value.closedAt.None?
  }

  lemma OverlaidStep(byAlert: map<string, Patch>, byNumber: map<int, Patch>, entries: seq<Entry>, i: nat)
    requires i < |entries|
    ensures OverlaidAll(byAlert, byNumber, entries[..i + 1]) ==
      OverlaidAll(byAlert, byNumber, entries[..i]) + [Overlaid(byAlert, byNumber, entries[i])]
    ensures Stale(byAlert, byNumber, entries[..i + 1]) ==
      Stale(byAlert, byNumber, entries[..i]) + if Overlaid(byAlert, byNumber, entries[i]) != entries[i] then 1 else 0
  {
    assert entries[..i + 1][..i] == entries[..i];
  }

  method OverlayEntries(byAlert: map<string, Patch>, byNumber: map<int, Patch>, entries: seq<Entry>)
    returns (r: seq<Entry>, stale: nat)
    requires ClearsReopened(byAlert, byNumber)
    ensures r == OverlaidAll(byAlert, byNumber, entries) && stale == Stale(byAlert, byNumber, entries)
  {
    r, stale := [], 0;
    for i := 0 to |entries|
      invariant r == OverlaidAll(byAlert, byNumber, entries[..i])
      invariant stale == Stale(byAlert, byNumber, entries[..i])
    {
      OverlaidStep(byAlert, byNumber, entries, i);
      var patch := PatchFor(byAlert, byNumber, entries[i]);
      if patch.None? {
        r := r + [entries[i]];
        continue;
      }
      PatchedIffStale(entries[i], patch.value);
      var e, needsUpdate := PatchEntry(entries[i], patch.value);
      r := r + [e];
      if needsUpdate {
        stale := stale + 1;
      }
    }
    assert entries[..|entries|] == entries;
  }

  lemma PatchedIffStale(e: Entry, p: Patch)
    requires p.reopened ==> p.closedAt.None?
    ensures Patched(e, p) != e <==> !Agrees(e, p)
  {
  }

  lemma MapsClearReopened(incidents: seq<Incident>, byAlert: map<string, Patch>, byNumber: map<int, Patch>)
    requires byAlert == ByAlert(incidents) && byNumber == ByNumber(incidents)
    ensures ClearsReopened(byAlert, byNumber)
  {
    forall e: Entry | PatchFor(byAlert, byNumber, e).Some?
      ensures PatchFor(byAlert, byNumber, e).value.reopened ==> PatchFor(byAlert, byNumber, e).value.closedAt.None?
    {
      PatchIsConsistent(incidents, e);
    }
  }

  lemma {:induction false} NothingToDo(days: seq<Day>)
    ensures OverlaidDays(map[], map[], days) == days && Changes(map[], map[], days) == (0, 0)
  {
    forall i | 0 <= i < |days| ensures OverlaidDay(map[], map[], days[i]) == days[i] {
      NothingStale(Entries(days[i].lines));
    }
    if days != [] {
      NothingToDo(days[..|days| - 1]);
      NothingStale(Entries(days[|days| - 1].lines));
    }
  }

  lemma {:induction false} NothingStale(entries: seq<Entry>)
    ensures Stale(map[], map[], entries) == 0
  {
    if entries != [] {
      NothingStale(entries[..|entries| - 1]);
    }
  }
}
