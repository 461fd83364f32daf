// What the overlay writes into an alert's entry, said in the incidents' own fields, and what the ledger lists.
module OverlayMeaning {
  import opened Text
  import opened ArmOverlay

  // ---- verdicts ----

  /** A character a verdict may be written with anywhere: blanks and underscores are not read. */
  predicate Filler(c: char) {
    c == ' ' || c == '_'
  }

  lemma {:induction false} SqueezeConcat(a: string, b: string)
    ensures Squeeze(a + b) == Squeeze(a) + Squeeze(b)
  {
    if a == [] {
      assert a + b == b;
    } else {
      assert (a + b)[1..] == a[1..] + b;
      SqueezeConcat(a[1..], b);
    }
  }

  lemma {:induction false} SqueezeNothing(s: string)
    requires forall i | 0 <= i < |s| :: !Filler(s[i])
    ensures Squeeze(s) == s
  {
    if s != [] {
      SqueezeNothing(s[1..]);
    }
  }

  lemma LowerConcat(a: string, b: string)
    ensures Lower(a + b) == Lower(a) + Lower(b)
  {
  }

  lemma LowerFiller(c: char)
    requires Filler(c)
    ensures Lower([c]) == [c] && Squeeze([c]) == []
  {
    assert Squeeze([c][1..]) == [];
  }

  /** What is read of three pieces is what is read of each. */
  lemma ReadInPieces(a: string, b: string, c: string)
    ensures Squeeze(Lower(a + b + c)) == Squeeze(Lower(a)) + Squeeze(Lower(b)) + Squeeze(Lower(c))
  {
    LowerConcat(a + b, c);
    LowerConcat(a, b);
    SqueezeConcat(Lower(a) + Lower(b), Lower(c));
    SqueezeConcat(Lower(a), Lower(b));
  }

  lemma SameReading(raw: string, other: string)
    requires Squeeze(Lower(raw)) == Squeeze(Lower(other))
    ensures Classified(raw) == Classified(other)
  {
  }

  /** A blank or an underscore anywhere in a verdict makes no difference. */
  lemma FillersAreNotRead(a: string, c: char, b: string)
    requires Filler(c)
    ensures Classified(a + [c] + b) == Classified(a + b)
  {
    assert a + [] == a;
    ReadInPieces(a, [c], b);
    ReadInPieces(a, [], b);
    LowerFiller(c);
    SameReading(a + [c] + b, a + b);
  }

  /** Nor do capitals. */
  lemma CaseIsNotRead(raw: string, other: string)
    requires Lower(raw) == Lower(other)
    ensures Classified(raw) == Classified(other)
  {
  }

  /** A verdict written without blanks and underscores, in any case, is what it is; anything else is none. */
  lemma VerdictIs(raw: string)
    requires forall i | 0 <= i < |Lower(raw)| :: !Filler(Lower(raw)[i])
    ensures Classified(raw) == "truePositive" <==> Lower(raw) == "truepositive"
    ensures Classified(raw) == "falsePositive" <==> Lower(raw) == "falsepositive"
    ensures Classified(raw) == "benignPositive" <==> Lower(raw) == "benignpositive"
    ensures Classified(raw) == "undetermined" <==>
      Lower(raw) !in {"truepositive", "falsepositive", "benignpositive"}
  {
    SqueezeNothing(Lower(raw));
    assert "truePositive"[0] != "falsePositive"[0] && "truePositive"[0] != "benignPositive"[0];
    assert "falsePositive"[0] != "benignPositive"[0] && "undetermined"[0] == 'u';
  }

  // ---- the incident an entry shows ----

  /** The last incident naming an alert. */
  predicate LastNaming(incidents: seq<Incident>, i: nat, id: string)
    requires i < |incidents|
  {
    id in incidents[i].alertIds && forall j | i < j < |incidents| :: id !in incidents[j].alertIds
  }

  predicate LastNumbered(incidents: seq<Incident>, i: nat, n: int)
    requires i < |incidents|
  {
    incidents[i].number == Some(n) && forall j | i < j < |incidents| :: incidents[j].number != Some(n)
  }

  lemma {:induction false} LastNamingWins(incidents: seq<Incident>, i: nat, id: string)
    requires i < |incidents| && LastNaming(incidents, i, id)
    ensures id in ByAlert(incidents) && ByAlert(incidents)[id] == PatchOf(incidents[i])
  {
    var rest, last := incidents[..|incidents| - 1], incidents[|incidents| - 1];
    PutAllHolds(ByAlert(rest), last.alertIds, PatchOf(last), id);
    if i < |rest| {
      assert last == incidents[|incidents| - 1] && id !in last.alertIds;
      LastNamingWins(rest, i, id);
    }
  }

  lemma {:induction false} NobodyNames(incidents: seq<Incident>, id: string)
    requires forall j | 0 <= j < |incidents| :: id !in incidents[j].alertIds
    ensures id !in ByAlert(incidents)
  {
    if incidents != [] {
      var rest, last := incidents[..|incidents| - 1], incidents[|incidents| - 1];
      NobodyNames(rest, id);
      PutAllHolds(ByAlert(rest), last.alertIds, PatchOf(last), id);
    }
  }

  lemma {:induction false} LastNumberedWins(incidents: seq<Incident>, i: nat, n: int)
    requires i < |incidents| && LastNumbered(incidents, i, n)
    ensures n in ByNumber(incidents) && ByNumber(incidents)[n] == PatchOf(incidents[i])
  {
    var rest, last := incidents[..|incidents| - 1], incidents[|incidents| - 1];
    if i < |rest| {
      assert last == incidents[|incidents| - 1] && last.number != Some(n);
      LastNumberedWins(rest, i, n);
    }
  }

  lemma {:induction false} NobodyIsNumbered(incidents: seq<Incident>, n: int)
    requires forall j | 0 <= j < |incidents| :: incidents[j].number != Some(n)
    ensures n !in ByNumber(incidents)
  {
    if incidents != [] {
      NobodyIsNumbered(incidents[..|incidents| - 1], n);
    }
  }

  /** The incident an entry belongs to: the last naming its alert; if none does, the last with its number. */
  ghost predicate BelongsTo(incidents: seq<Incident>, i: nat, e: Entry)
    requires i < |incidents|
  {
    || LastNaming(incidents, i, e.alertId)
    || ((forall j | 0 <= j < |incidents| :: e.alertId !in incidents[j].alertIds)
        && e.number.Some? && LastNumbered(incidents, i, e.number.value))
  }

  /** Entry `r` is `e` showing the incident: its number, its closing time unless it is open again, its verdict; an
      entry that was closed and is open again has no verdict of its own left. What the incident does not state is
      kept. */
  ghost predicate Shows(r: Entry, e: Entry, inc: Incident) {
    var open := Lower(inc.status) in {"new", "active"};
    && SameAlert(e, r)
    && (inc.number.Some? ==> r.number == inc.number)
    && (inc.number.None? ==> r.number == e.number)
    && (open ==> r.closedAt.None?)
    && (!open ==> r.closedAt == if inc.closed.Some? then inc.closed else e.closedAt)
    && (inc.classification != "" ==> r.classification == Classified(inc.classification))
    && (inc.classification == "" && open && e.closedAt.Some? ==> r.classification == "undetermined")
    && (inc.classification == "" && !(open && e.closedAt.Some?) ==> r.classification == e.classification)
  }

  lemma PatchedShows(e: Entry, inc: Incident)
    ensures Shows(Patched(e, PatchOf(inc)), e, inc)
    ensures Patched(e, PatchOf(inc)).source == if Shows(e, e, inc) then e.source else "both"
  {
  }

  /** The overlay makes every entry show the incident it belongs to, and only an entry that did not is rewritten. */
  lemma OverlaidShows(incidents: seq<Incident>, i: nat, e: Entry)
    requires i < |incidents| && BelongsTo(incidents, i, e)
    ensures var r := Overlaid(ByAlert(incidents), ByNumber(incidents), e);
      && Shows(r, e, incidents[i])
      && (r == e <==> Shows(e, e, incidents[i]))
      && (r != e ==> r.source == "both")
  {
    if LastNaming(incidents, i, e.alertId) {
      LastNamingWins(incidents, i, e.alertId);
    } else {
      NobodyNames(incidents, e.alertId);
      LastNumberedWins(incidents, i, e.number.value);
    }
    PatchedShows(e, incidents[i]);
  }

  /** An entry no incident names or has the number of stays as it is. */
  lemma OthersAreKept(incidents: seq<Incident>, e: Entry)
    requires forall j | 0 <= j < |incidents| ::
      e.alertId !in incidents[j].alertIds && (e.number.Some? ==> incidents[j].number != e.number)
    ensures Overlaid(ByAlert(incidents), ByNumber(incidents), e) == e
  {
    NobodyNames(incidents, e.alertId);
    if e.number.Some? {
      NobodyIsNumbered(incidents, e.number.value);
    }
  }

  // ---- the counts of a run ----

  /** The positions at which two lists of one length differ. */
  function Differing<A(==)>(before: seq<A>, after: seq<A>): nat
    requires |before| == |after|
  {
    if before == [] then 0
    else Differing(before[1..], after[1..]) + if before[0] != after[0] then 1 else 0
  }

  lemma {:induction false} DifferingSnoc<A>(before: seq<A>, after: seq<A>, x: A, y: A)
    requires |before| == |after|
    ensures Differing(before + [x], after + [y]) == Differing(before, after) + if x != y then 1 else 0
  {
    if before == [] {
      assert before + [x] == [x] && after + [y] == [y] && [x][1..] == [] && [y][1..] == [];
    } else {
      assert (before + [x])[1..] == before[1..] + [x] && (after + [y])[1..] == after[1..] + [y];
      DifferingSnoc(before[1..], after[1..], x, y);
    }
  }

  lemma {:induction false} DifferingConcat<A>(a: seq<A>, b: seq<A>, c: seq<A>, d: seq<A>)
    requires |a| == |b| && |c| == |d|
    ensures Differing(a + c, b + d) == Differing(a, b) + Differing(c, d)
  {
    if a == [] {
      assert a + c == c && b + d == d;
    } else {
      assert (a + c)[1..] == a[1..] + c && (b + d)[1..] == b[1..] + d;
      DifferingConcat(a[1..], b[1..], c, d);
    }
  }

  lemma {:induction false} StaleIsDiffering(a: map<string, Patch>, n: map<int, Patch>, entries: seq<Entry>)
    ensures Stale(a, n, entries) == Differing(entries, OverlaidAll(a, n, entries))
  {
    if entries != [] {
      var rest, e := entries[..|entries| - 1], entries[|entries| - 1];
      StaleIsDiffering(a, n, rest);
      OverlaidLast(a, n, rest, e, entries);
      DifferingSnoc(rest, OverlaidAll(a, n, rest), e, Overlaid(a, n, e));
    }
  }

  lemma OverlaidLast(a: map<string, Patch>, n: map<int, Patch>, rest: seq<Entry>, e: Entry, entries: seq<Entry>)
    requires entries == rest + [e]
    ensures OverlaidAll(a, n, entries) == OverlaidAll(a, n, rest) + [Overlaid(a, n, e)]
  {
  }

  lemma DayDiffers(a: map<string, Patch>, n: map<int, Patch>, d: Day)
    ensures OverlaidDay(a, n, d) != d <==> Stale(a, n, Entries(d.lines)) != 0
  {
    var entries := Entries(d.lines);
    NotStale(a, n, entries);
    if Stale(a, n, entries) != 0 && Lines(OverlaidAll(a, n, entries)) == d.lines {
      EntriesOfLines(OverlaidAll(a, n, entries));
    }
  }

  /** The number of changed files, and the number of changed entries. */
  lemma {:induction false} FilesChanged(a: map<string, Patch>, n: map<int, Patch>, days: seq<Day>)
    ensures Changes(a, n, days).0 == Differing(days, OverlaidDays(a, n, days))
  {
    if days != [] {
      var rest, d := days[..|days| - 1], days[|days| - 1];
      FilesChanged(a, n, rest);
      DayDiffers(a, n, d);
      OverlaidDaysSnoc(a, n, days, |rest|);
      assert days == rest + [d];
      DifferingSnoc(rest, OverlaidDays(a, n, rest), d, OverlaidDay(a, n, d));
    }
  }

  lemma {:induction false} EntriesChanged(a: map<string, Patch>, n: map<int, Patch>, days: seq<Day>)
    ensures Changes(a, n, days).1 == Differing(AllEntries(days), OverlaidAll(a, n, AllEntries(days)))
  {
    if days != [] {
      var rest := days[..|days| - 1];
      var x, y := AllEntries(rest), Entries(days[|rest|].lines);
      EntriesChanged(a, n, rest);
      StaleIsDiffering(a, n, y);
      OverlaidConcat(a, n, x, y);
      DifferingConcat(x, OverlaidAll(a, n, x), y, OverlaidAll(a, n, y));
    }
  }

  /** A run reports how many files and how many entries it left different. */
  lemma ChangesAreDifferences(a: map<string, Patch>, n: map<int, Patch>, days: seq<Day>)
    ensures Changes(a, n, days) ==
      (Differing(days, OverlaidDays(a, n, days)), Differing(AllEntries(days), OverlaidAll(a, n, AllEntries(days))))
  {
    FilesChanged(a, n, days);
    EntriesChanged(a, n, days);
  }

  // ---- the ledger's order ----

  /** No entry before `i` is of the same alert. */
  predicate IsFirst(entries: seq<Entry>, i: nat)
    requires i < |entries|
  {
    forall j | 0 <= j < i :: entries[j].alertId != entries[i].alertId
  }

  /** How many alerts have appeared for the first time before `i`. */
  function FirstsBefore(entries: seq<Entry>, i: nat): nat
    requires i <= |entries|
  {
    if i == 0 then 0 else FirstsBefore(entries, i - 1) + if IsFirst(entries, i - 1) then 1 else 0
  }

  lemma {:induction false} FirstsOfInit(entries: seq<Entry>, i: nat)
    requires i < |entries|
    ensures FirstsBefore(entries[..|entries| - 1], i) == FirstsBefore(entries, i)
  {
    if i > 0 {
      FirstsOfInit(entries, i - 1);
      var rest := entries[..|entries| - 1];
      assert forall j | 0 <= j < i :: rest[j] == entries[j];
    }
  }

  lemma {:induction false} SeenIff(entries: seq<Entry>, id: string)
    ensures id in FirstSeen(entries) <==> exists e :: e in entries && e.alertId == id
  {
    if entries != [] {
      var rest, e := entries[..|entries| - 1], entries[|entries| - 1];
      SeenIff(rest, id);
      assert entries == rest + [e];
    }
  }

  lemma {:induction false} SeenCount(entries: seq<Entry>)
    ensures |FirstSeen(entries)| == FirstsBefore(entries, |entries|)
  {
    if entries != [] {
      var rest, e := entries[..|entries| - 1], entries[|entries| - 1];
      SeenCount(rest);
      FirstsOfInit(entries, |rest|);
      SeenIff(rest, e.alertId);
      assert forall j | 0 <= j < |rest| :: rest[j] == entries[j];
    }
  }

  /** The ledger lists the alerts in the order in which the daily files first name them. */
  lemma {:induction false} LedgerOrder(entries: seq<Entry>, i: nat)
    requires i < |entries| && IsFirst(entries, i)
    ensures FirstsBefore(entries, i) < |LedgerOf(entries)| == FirstsBefore(entries, |entries|)
    ensures LedgerOf(entries)[FirstsBefore(entries, i)].alertId == entries[i].alertId
  {
    SeenCount(entries);
    LedgerIds(entries);
    SeenAt(entries, i);
  }

  lemma {:induction false} SeenAt(entries: seq<Entry>, i: nat)
    requires i < |entries| && IsFirst(entries, i)
    ensures FirstsBefore(entries, i) < |FirstSeen(entries)|
    ensures FirstSeen(entries)[FirstsBefore(entries, i)] == entries[i].alertId
  {
    var rest, e := entries[..|entries| - 1], entries[|entries| - 1];
    FirstsOfInit(entries, i);
    if i < |rest| {
      assert forall j | 0 <= j < |rest| :: rest[j] == entries[j];
      assert IsFirst(rest, i);
      SeenAt(rest, i);
    } else {
      SeenCount(rest);
      SeenIff(rest, e.alertId);
      assert forall j | 0 <= j < |rest| :: rest[j] == entries[j];
    }
  }
}
