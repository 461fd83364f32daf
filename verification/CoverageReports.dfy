// The coverage reports: one scope, one corpus, and numbers that must agree.
module CoverageReports {
  import opened Text
  import opened CoverageExtract

  // ---- scope ----

  datatype Asset = SentinelAnalytic | SentinelHunting | DefenderDetection

  datatype Reason = Disabled | Hunting | NonProduction

  datatype Scope = Scope(productionOnly: bool, includeHunting: bool)
  {
    function ExclusionReason(asset: Asset, status: string, enabled: bool): Option<Reason> {
      if status == "deprecated" || !enabled then Some(Disabled)
      else if asset == SentinelHunting && !includeHunting then Some(Hunting)
      else if productionOnly && status != "production" then Some(NonProduction)
      else None
    }

    /** This scope admits everything `narrow` admits. */
    predicate Widens(narrow: Scope) {
      (productionOnly ==> narrow.productionOnly) && (narrow.includeHunting ==> includeHunting)
    }
  }

  datatype Entry = Entry(
    id: string, asset: Asset, status: string, enabled: bool, tags: Tags, mitre: Extracted, exclusion: Option<Reason>)

  datatype Corpus = Corpus(scope: Scope, matrix: Matrix, entries: seq<Entry>)

  function EntryFor(scope: Scope, m: Matrix, id: string, asset: Asset, status: string, enabled: bool, tags: Tags)
    : Entry
  {
    Entry(id, asset, status, enabled, tags, Extract(m, tags), scope.ExclusionReason(asset, status, enabled))
  }

  /** Every entry was built for this corpus. */
  predicate Built(c: Corpus) {
    forall e | e in c.entries :: e == EntryFor(c.scope, c.matrix, e.id, e.asset, e.status, e.enabled, e.tags)
  }

  function Rescoped(e: Entry, scope: Scope): Entry {
    e.(exclusion := scope.ExclusionReason(e.asset, e.status, e.enabled))
  }

  function WithScope(c: Corpus, scope: Scope): (r: Corpus)
    ensures |r.entries| == |c.entries| && Built(c) ==> Built(r)
  {
    Corpus(scope, c.matrix, seq(|c.entries|, i requires 0 <= i < |c.entries| => Rescoped(c.entries[i], scope)))
  }

  function InScope(entries: seq<Entry>): (kept: seq<Entry>)
    ensures forall e :: e in kept <==> e in entries && e.exclusion.None?
  {
    if entries == [] then []
    else
      assert entries == entries[..|entries| - 1] + [entries[|entries| - 1]];
      InScope(entries[..|entries| - 1]) +
        if entries[|entries| - 1].exclusion.None? then [entries[|entries| - 1]] else []
  }

  function Excluded(entries: seq<Entry>, reason: Reason): nat {
    if entries == [] then 0
    else Excluded(entries[..|entries| - 1], reason) + if entries[|entries| - 1].exclusion == Some(reason) then 1 else 0
  }

  method ExcludedCounts(entries: seq<Entry>) returns (counts: map<Reason, nat>)
    ensures counts.Keys == {Disabled, Hunting, NonProduction}
    ensures forall r | r in counts :: counts[r] == Excluded(entries, r)
  {
    counts := map[Disabled := 0, Hunting := 0, NonProduction := 0];
    for i := 0 to |entries|
      invariant counts.Keys == {Disabled, Hunting, NonProduction}
      invariant forall r | r in counts :: counts[r] == Excluded(entries[..i], r)
    {
      assert entries[..i + 1][..i] == entries[..i];
      var reason := entries[i].exclusion;
      if reason.Some? {
        assert reason.value.Disabled? || reason.value.Hunting? || reason.value.NonProduction?;
        counts := counts[reason.value := counts[reason.value] + 1];
      }
    }
    assert entries[..|entries|] == entries;
  }

  /** Every detection is counted in scope or excluded for exactly one reason. */
  lemma {:induction false} ExcludedCountsConserve(entries: seq<Entry>)
    ensures |InScope(entries)| + Excluded(entries, Disabled) + Excluded(entries, Hunting)
      + Excluded(entries, NonProduction) == |entries|
  {
    if entries != [] {
      var reason := entries[|entries| - 1].exclusion;
      ExcludedCountsConserve(entries[..|entries| - 1]);
      assert reason.Some? ==> reason.value.Disabled? || reason.value.Hunting? || reason.value.NonProduction?;
    }
  }

  // ---- the covered set ----

  datatype CoveredIds = CoveredIds(tactics: set<string>, techniques: set<string>, subTechniques: set<string>)
  {
    function Ids(): set<string> {
      techniques + subTechniques
    }
  }

  /** The counted technique ids of some detections. */
  function AllCounted(entries: seq<Entry>): set<string> {
    set e, id | e in entries && id in e.mitre.counted :: id
  }

  function AllTactics(entries: seq<Entry>): set<string> {
    set e, t | e in entries && t in e.mitre.tactics :: t
  }

  /** Covered: a tactic that is claimed, a technique that is counted or whose sub-technique is, a sub-technique
      that is counted itself. */
  function Covered(entries: seq<Entry>, m: Matrix): CoveredIds {
    CoveredIds(
      set t | t in AllTactics(entries) && t in m.tactics,
      set id | id in AllCounted(entries) && Parent(id) in m.techniques :: Parent(id),
      set id | id in AllCounted(entries) && id in m.subTechniques)
  }

  lemma AllSnoc(entries: seq<Entry>, e: Entry)
    ensures AllCounted(entries + [e]) == AllCounted(entries) + e.mitre.counted
    ensures AllTactics(entries + [e]) == AllTactics(entries) + e.mitre.tactics
  {
    forall x | x in entries ensures x in entries + [e] {}
    assert e in entries + [e];
    forall x | x in entries + [e] ensures x in entries || x == e {}
  }

  /** The loops of `covered_ids`. */
  method FindCovered(entries: seq<Entry>, m: Matrix) returns (c: CoveredIds)
    ensures c == Covered(entries, m)
  {
    var tactics, parents, subs: set<string> := {}, {}, {};
    for i := 0 to |entries|
      invariant CoveredIds(tactics, parents, subs) == Covered(entries[..i], m)
    {
      AllSnoc(entries[..i], entries[i]);
      assert entries[..i + 1] == entries[..i] + [entries[i]];
      tactics := tactics + set t | t in entries[i].mitre.tactics && t in m.tactics;
      var ps, ss := CoverOne(entries[i].mitre.counted, m);
      parents, subs := parents + ps, subs + ss;
    }
    assert entries[..|entries|] == entries;
    c := CoveredIds(tactics, parents, subs);
  }

  method CoverOne(counted: set<string>, m: Matrix) returns (parents: set<string>, subs: set<string>)
    ensures parents == set id | id in counted && Parent(id) in m.techniques :: Parent(id)
    ensures subs == set id | id in counted && id in m.subTechniques
  {
    parents, subs := {}, {};
    var todo := counted;
    while todo != {}
      invariant todo <= counted
      invariant parents == set id | id in counted - todo && Parent(id) in m.techniques :: Parent(id)
      invariant subs == set id | id in counted - todo && id in m.subTechniques
    {
      var id :| id in todo;
      assert counted - (todo - {id}) == (counted - todo) + {id};
      todo := todo - {id};
      if Parent(id) in m.techniques {
        parents := parents + {Parent(id)};
      }
      if id in m.subTechniques {
        subs := subs + {id};
      }
    }
  }

  /** Hits on a sub-technique roll up to its technique; hits on a technique never roll down. */
  lemma RollsUpNeverDown(entries: seq<Entry>, m: Matrix, id: string)
    requires m.WellFormed()
    ensures id in Covered(entries, m).tactics <==> id in m.tactics && exists e :: e in entries && id in e.mitre.tactics
    ensures Covered(entries, m).techniques <= m.techniques && Covered(entries, m).subTechniques <= m.subTechniques
    ensures id in m.subTechniques ==> (id in Covered(entries, m).subTechniques <==> id in AllCounted(entries))
    ensures id in m.techniques ==> (id in Covered(entries, m).techniques <==>
        id in AllCounted(entries) || exists sub :: sub in AllCounted(entries) && '.' in sub && Parent(sub) == id)
  {
    if id in m.techniques {
      ParentOfDotless(id);
      if id in Covered(entries, m).techniques {
        var x :| x in AllCounted(entries) && Parent(x) == id;
        if '.' !in x {
          ParentOfDotless(x);
        }
      }
    }
  }

  lemma InScopeWidens(c: Corpus, narrow: Scope, wide: Scope, e: Entry)
    requires wide.Widens(narrow) && e in InScope(WithScope(c, narrow).entries)
    ensures e in InScope(WithScope(c, wide).entries)
  {
    var i :| 0 <= i < |c.entries| && WithScope(c, narrow).entries[i] == e;
    assert WithScope(c, wide).entries[i] == e;
  }

  /** Widening the scope never uncovers anything. */
  lemma WideningNeverUncovers(c: Corpus, narrow: Scope, wide: Scope)
    requires wide.Widens(narrow)
    ensures var a, b := Covered(InScope(WithScope(c, narrow).entries), c.matrix),
                        Covered(InScope(WithScope(c, wide).entries), c.matrix);
      a.tactics <= b.tactics && a.techniques <= b.techniques && a.subTechniques <= b.subTechniques
  {
    var es, fs := InScope(WithScope(c, narrow).entries), InScope(WithScope(c, wide).entries);
    forall e | e in es ensures e in fs {
      InScopeWidens(c, narrow, wide, e);
    }
    assert AllCounted(es) <= AllCounted(fs) && AllTactics(es) <= AllTactics(fs);
  }

  const WIDEST := Scope(false, true)

  /** The reason tells what would admit the detection: nothing, adding hunting rules, or adding those not in
      production; and the widest scope admits exactly what is enabled and not deprecated. */
  lemma ReasonNamesTheRemedy(scope: Scope, asset: Asset, status: string, enabled: bool)
    ensures WIDEST.ExclusionReason(asset, status, enabled).None? <==> enabled && status != "deprecated"
    ensures var r := scope.ExclusionReason(asset, status, enabled);
      && (r == Some(Disabled) <==> forall s: Scope :: s.ExclusionReason(asset, status, enabled).Some?)
      && (r == Some(NonProduction) <==>
           r.Some? && scope.(productionOnly := false).ExclusionReason(asset, status, enabled).None?)
      && (r == Some(Hunting) <==>
           (forall p :: Scope(p, scope.includeHunting).ExclusionReason(asset, status, enabled).Some?)
           && WIDEST.ExclusionReason(asset, status, enabled).None?)
  {
    var narrow := Scope(false, scope.includeHunting);
    assert narrow.ExclusionReason(asset, status, enabled).Some? ==>
        forall p :: Scope(p, scope.includeHunting).ExclusionReason(asset, status, enabled).Some?;
  }

  /** What a scope admits: enabled and not deprecated, hunting rules only if included, and under the production scope
      nothing but rules in production. */
  lemma AdmittedIff(scope: Scope, asset: Asset, status: string, enabled: bool)
    ensures scope.ExclusionReason(asset, status, enabled).None? <==>
      && enabled && status != "deprecated"
      && (asset == SentinelHunting ==> scope.includeHunting)
      && (scope.productionOnly ==> status == "production")
  {
  }

  /** Disabled and deprecated rules count under no scope. */
  lemma DisabledNeverCounts(c: Corpus, scope: Scope, e: Entry)
    requires e in InScope(WithScope(c, scope).entries)
    ensures e.enabled && e.status != "deprecated"
  {
    var i :| 0 <= i < |c.entries| && WithScope(c, scope).entries[i] == e;
  }

  // ---- the heatmap ----

  datatype Bucket =
    Bucket(detections: nat, production: nat, bySeverity: map<Severity, nat>, techniques: map<string, nat>)

  const EMPTY: Bucket :=
    Bucket(0, 0, map[Informational := 0, Low := 0, Medium := 0, High := 0], map[])

  function Bumped(counts: map<string, nat>, ids: set<string>): map<string, nat> {
    map id | id in counts.Keys + ids ::
      (if id in counts then counts[id] else 0) + if id in ids then 1 else 0
  }

  function Listed(e: Entry, tactic: string): set<string> {
    if tactic in e.mitre.byTactic then e.mitre.byTactic[tactic] else {}
  }

  function AddTo(b: Bucket, e: Entry, tactic: string): Bucket {
    var s := e.mitre.severity;
    Bucket(b.detections + 1, b.production + if e.status == "production" then 1 else 0,
           b.bySeverity[s := (if s in b.bySeverity then b.bySeverity[s] else 0) + 1],
           Bumped(b.techniques, Listed(e, tactic)))
  }

  /** A tactic's row: the detections that claim the tactic, one after the other. */
  function Row(entries: seq<Entry>, tactic: string): Bucket {
    if entries == [] then EMPTY
    else
      var e, b := entries[|entries| - 1], Row(entries[..|entries| - 1], tactic);
      if tactic in e.mitre.tactics then AddTo(b, e, tactic) else b
  }

  method BumpAll(counts: map<string, nat>, ids: set<string>) returns (r: map<string, nat>)
    ensures r == Bumped(counts, ids)
  {
    r := counts;
    var todo := ids;
    assert Bumped(counts, ids - todo) == counts;
    while todo != {}
      invariant todo <= ids && r == Bumped(counts, ids - todo)
    {
      var id :| id in todo;
      r := r[id := (if id in r then r[id] else 0) + 1];
      assert ids - (todo - {id}) == (ids - todo) + {id};
      todo := todo - {id};
    }
    assert ids - {} == ids;
  }

  /** The loops of `compute_coverage`: a detection is added to the row of each tactic it claims. */
  method ComputeCoverage(inScope: seq<Entry>) returns (buckets: map<string, Bucket>)
    ensures buckets.Keys == set t | t in ALL_TACTICS
    ensures forall t | t in buckets :: buckets[t] == Row(inScope, t)
  {
    buckets := map t | t in ALL_TACTICS :: EMPTY;
    for i := 0 to |inScope|
      invariant buckets.Keys == set t | t in ALL_TACTICS
      invariant forall t | t in buckets :: buckets[t] == Row(inScope[..i], t)
    {
      var e := inScope[i];
      assert inScope[..i + 1][..i] == inScope[..i];
      buckets := AddEntry(buckets, e);
    }
    assert inScope[..|inScope|] == inScope;
  }

  method AddEntry(buckets: map<string, Bucket>, e: Entry) returns (r: map<string, Bucket>)
    ensures r.Keys == buckets.Keys
    ensures forall t | t in buckets :: r[t] == if t in e.mitre.tactics then AddTo(buckets[t], e, t) else buckets[t]
  {
    r := buckets;
    var todo := e.mitre.tactics;
    while todo != {}
      invariant todo <= e.mitre.tactics && r.Keys == buckets.Keys
      invariant forall t | t in buckets ::
        r[t] == if t in e.mitre.tactics && t !in todo then AddTo(buckets[t], e, t) else buckets[t]
    {
      var t :| t in todo;
      todo := todo - {t};
      if t in r {
        var b := r[t];
        var techniques := BumpAll(b.techniques, Listed(e, t));
        var s := e.mitre.severity;
        var bySeverity := b.bySeverity[s := (if s in b.bySeverity then b.bySeverity[s] else 0) + 1];
        r := r[t := Bucket(b.detections + 1, b.production + if e.status == "production" then 1 else 0,
                           bySeverity, techniques)];
      }
    }
  }

  function BySeverity(b: Bucket, s: Severity): nat {
    if s in b.bySeverity then b.bySeverity[s] else 0
  }

  /** A row's severities add up to its detections, and no technique is counted more often than the tactic. */
  lemma {:induction false} RowAddsUp(entries: seq<Entry>, tactic: string)
    ensures var b := Row(entries, tactic);
      && BySeverity(b, Informational) + BySeverity(b, Low) + BySeverity(b, Medium) + BySeverity(b, High) == b.detections
      && b.production <= b.detections <= |entries|
      && forall id | id in b.techniques :: 1 <= b.techniques[id] <= b.detections
  {
    if entries != [] {
      var s := entries[|entries| - 1].mitre.severity;
      RowAddsUp(entries[..|entries| - 1], tactic);
      assert s.Informational? || s.Low? || s.Medium? || s.High?;
    }
  }

  /** What a row counts: its detections, those in production, those of one severity, those listing a technique. */
  datatype Counter = Detections | InProduction | OfSeverity(s: Severity) | OfTechnique(id: string)

  /** A detection is counted in the row of a tactic it claims. */
  predicate CountedBy(e: Entry, tactic: string, c: Counter) {
    && tactic in e.mitre.tactics
    && match c
       case Detections => true
       case InProduction => e.status == "production"
       case OfSeverity(s) => e.mitre.severity == s
       case OfTechnique(id) => tactic in e.mitre.byTactic && id in e.mitre.byTactic[tactic]
  }

  function HowMany(entries: seq<Entry>, tactic: string, c: Counter): nat {
    if entries == [] then 0 else HowMany(entries[1..], tactic, c) + if CountedBy(entries[0], tactic, c) then 1 else 0
  }

  lemma {:induction false} HowManySnoc(entries: seq<Entry>, e: Entry, tactic: string, c: Counter)
    ensures HowMany(entries + [e], tactic, c) ==
      HowMany(entries, tactic, c) + if CountedBy(e, tactic, c) then 1 else 0
  {
    if entries == [] {
      assert [] + [e] == [e] && [e][1..] == [];
    } else {
      assert (entries + [e])[1..] == entries[1..] + [e];
      HowManySnoc(entries[1..], e, tactic, c);
    }
  }

  function Read(b: Bucket, c: Counter): nat {
    match c
    case Detections => b.detections
    case InProduction => b.production
    case OfSeverity(s) => BySeverity(b, s)
    case OfTechnique(id) => if id in b.techniques then b.techniques[id] else 0
  }

  lemma ReadAdded(b: Bucket, e: Entry, tactic: string, c: Counter)
    requires tactic in e.mitre.tactics
    ensures Read(AddTo(b, e, tactic), c) == Read(b, c) + if CountedBy(e, tactic, c) then 1 else 0
  {
  }

  /** Every number of a row is the number of detections it stands for. */
  lemma {:induction false} RowCounts(entries: seq<Entry>, tactic: string, c: Counter)
    ensures Read(Row(entries, tactic), c) == HowMany(entries, tactic, c)
  {
    if entries != [] {
      var e, rest := entries[|entries| - 1], entries[..|entries| - 1];
      RowCounts(rest, tactic, c);
      HowManySnoc(rest, e, tactic, c);
      assert entries == rest + [e];
      if tactic in e.mitre.tactics {
        ReadAdded(Row(rest, tactic), e, tactic, c);
      }
    }
  }

  /** A row lists exactly what its detections list under the tactic. */
  lemma {:induction false} RowLists(entries: seq<Entry>, tactic: string, id: string)
    ensures id in Row(entries, tactic).techniques <==>
      exists e :: e in entries && tactic in e.mitre.tactics && id in Listed(e, tactic)
  {
    if entries != [] {
      var last, rest := entries[|entries| - 1], entries[..|entries| - 1];
      RowLists(rest, tactic, id);
      assert entries == rest + [last];
      assert forall e :: e in entries <==> e in rest || e == last;
    }
  }

  /** The ids reported as outside the rules' tactics. */
  function Outside(entries: seq<Entry>, m: Matrix): set<string> {
    set e, id | e in entries && id in e.mitre.outside && id in m.techniqueTactics :: id
  }

  method FindOutside(entries: seq<Entry>, m: Matrix) returns (outside: set<string>)
    ensures outside == Outside(entries, m)
  {
    outside := {};
    for i := 0 to |entries|
      invariant outside == Outside(entries[..i], m)
    {
      assert entries[..i + 1] == entries[..i] + [entries[i]];
      OutsideSnoc(entries[..i], entries[i], m);
      outside := outside + set id | id in entries[i].mitre.outside && id in m.techniqueTactics;
    }
    assert entries[..|entries|] == entries;
  }

  lemma OutsideSnoc(entries: seq<Entry>, e: Entry, m: Matrix)
    ensures Outside(entries + [e], m) ==
      Outside(entries, m) + set id | id in e.mitre.outside && id in m.techniqueTactics
  {
    forall x | x in entries ensures x in entries + [e] {}
    assert e in entries + [e];
    forall x | x in entries + [e] ensures x in entries || x == e {}
  }

  /** Everything the heatmap's rows list. */
  ghost predicate InHeatmap(entries: seq<Entry>, id: string) {
    exists t :: t in ALL_TACTICS && id in Row(entries, t).techniques
  }

  /** The heatmap loses nothing: the techniques of its rows and those reported outside every tactic are exactly
      the counted techniques of the detections in scope. */
  lemma HeatmapLosesNothing(c: Corpus, id: string)
    requires Built(c) && c.matrix.Loaded()
    ensures id in AllCounted(InScope(c.entries)) <==>
      InHeatmap(InScope(c.entries), id) || id in Outside(InScope(c.entries), c.matrix)
  {
    var entries := InScope(c.entries);
    if id in AllCounted(entries) {
      var e :| e in entries && id in e.mitre.counted;
      AttributionIsExact(c.matrix, e.tags);
      assert e.mitre == Extract(c.matrix, e.tags);
      if id !in e.mitre.outside {
        assert id in Attributed(e.mitre.byTactic);
        var t :| t in e.mitre.byTactic && id in e.mitre.byTactic[t];
        assert id in Listed(e, t);
        RowLists(entries, t, id);
        assert t in c.matrix.TacticsFor(id);
      }
    }
    if InHeatmap(entries, id) {
      var t :| t in ALL_TACTICS && id in Row(entries, t).techniques;
      ListedIsCounted(c, t, id);
    }
    if id in Outside(entries, c.matrix) {
      var e :| e in entries && id in e.mitre.outside && id in c.matrix.techniqueTactics;
      AttributionIsExact(c.matrix, e.tags);
    }
  }

  /** Under a tactic, only techniques the matrix files there are listed. */
  lemma ListedIsCounted(c: Corpus, tactic: string, id: string)
    requires Built(c) && id in Row(InScope(c.entries), tactic).techniques
    ensures tactic in c.matrix.TacticsFor(id) && id in AllCounted(InScope(c.entries))
  {
    var entries := InScope(c.entries);
    RowLists(entries, tactic, id);
    var e :| e in entries && tactic in e.mitre.tactics && id in Listed(e, tactic);
    AttributionIsExact(c.matrix, e.tags);
    assert e.mitre == Extract(c.matrix, e.tags);
  }

  // ---- the gaps report ----

  datatype TechniqueRef = TechniqueRef(id: string, tactics: seq<string>)

  /** The reference list of full mode: the techniques, then the sub-techniques. */
  ghost function FullReference(m: Matrix): seq<TechniqueRef> {
    References(m, Sorted(m.techniques) + Sorted(m.subTechniques))
  }

  function References(m: Matrix, ids: seq<string>): seq<TechniqueRef> {
    seq(|ids|, i requires 0 <= i < |ids| => TechniqueRef(ids[i], m.TacticsFor(ids[i])))
  }

  lemma ReferencesIds(m: Matrix, ids: seq<string>, id: string)
    ensures id in RefIds(References(m, ids)) <==> id in ids
  {
    var refs := References(m, ids);
    if id in ids {
      var i :| 0 <= i < |ids| && ids[i] == id;
      assert refs[i] in refs;
    }
  }

  lemma FullReferenceIds(m: Matrix)
    ensures RefIds(FullReference(m)) == m.techniques + m.subTechniques
  {
    var ids := Sorted(m.techniques) + Sorted(m.subTechniques);
    forall id ensures id in RefIds(FullReference(m)) <==> id in m.techniques + m.subTechniques {
      ReferencesIds(m, ids, id);
    }
  }

  function RefIds(refs: seq<TechniqueRef>): set<string> {
    set r | r in refs :: r.id
  }

  function RolledUp(covered: set<string>): set<string> {
    covered + set id | id in covered && '.' in id :: Parent(id)
  }

  /** `_covered_technique_ids`: a sub-technique also covers its parent. */
  method CoveredTechniqueIds(reported: set<string>) returns (covered: set<string>)
    ensures covered == RolledUp(reported)
  {
    covered := reported;
    var todo := reported;
    while todo != {}
      invariant todo <= reported
      invariant covered == reported + set id | id in reported - todo && '.' in id :: Parent(id)
    {
      var id :| id in todo;
      todo := todo - {id};
      if '.' in id {
        covered := covered + {Parent(id)};
      }
    }
  }

  /** How often a list names a tactic: each is one cell of the table. */
  function Cells(tactics: seq<string>, tactic: string): nat {
    if tactics == [] then 0
    else Cells(tactics[..|tactics| - 1], tactic) + if tactics[|tactics| - 1] == tactic then 1 else 0
  }

  /** The cells a list of tactics has in a table with the given rows. */
  function KnownCells(tactics: seq<string>, rows: set<string>): nat {
    if tactics == [] then 0
    else KnownCells(tactics[..|tactics| - 1], rows) + if tactics[|tactics| - 1] in rows then 1 else 0
  }

  /** All cells of the table, and those of techniques outside `covered`. */
  function TableCells(refs: seq<TechniqueRef>, rows: set<string>, covered: set<string>): (nat, nat) {
    if refs == [] then (0, 0)
    else
      var (all, open) := TableCells(refs[..|refs| - 1], rows, covered);
      var r := refs[|refs| - 1];
      (all + KnownCells(r.tactics, rows), open + if r.id in covered then 0 else KnownCells(r.tactics, rows))
  }

  function Repeat(r: TechniqueRef, n: nat): seq<TechniqueRef> {
    if n == 0 then [] else Repeat(r, n - 1) + [r]
  }

  datatype Gaps = Gaps(uncovered: seq<TechniqueRef>, covered: nat, total: nat)

  function AddCells(g: Gaps, r: TechniqueRef, covered: set<string>, n: nat): Gaps {
    if r.id in covered then Gaps(g.uncovered, g.covered + n, g.total + n)
    else Gaps(g.uncovered + Repeat(r, n), g.covered, g.total + n)
  }

  /** A tactic's row of the gaps table. */
  function GapsRow(refs: seq<TechniqueRef>, covered: set<string>, tactic: string): Gaps {
    if refs == [] then Gaps([], 0, 0)
    else AddCells(GapsRow(refs[..|refs| - 1], covered, tactic), refs[|refs| - 1], covered,
                  Cells(refs[|refs| - 1].tactics, tactic))
  }

  /** One cell of the table. */
  method AddCell(b: Gaps, r: TechniqueRef, covered: set<string>, open: nat) returns (b': Gaps, open': nat)
    ensures b' == AddCells(b, r, covered, 1) && open' == if r.id in covered then open else open + 1
  {
    assert Repeat(r, 1) == [r];
    if r.id in covered {
      b', open' := Gaps(b.uncovered, b.covered + 1, b.total + 1), open;
    } else {
      b', open' := Gaps(b.uncovered + [r], b.covered, b.total + 1), open + 1;
    }
  }

  /** One cell per tactic of a technique, in the table's rows. */
  function WithCells(buckets: map<string, Gaps>, r: TechniqueRef, covered: set<string>, tactics: seq<string>)
    : map<string, Gaps>
  {
    if tactics == [] then buckets
    else
      var before, tactic := WithCells(buckets, r, covered, tactics[..|tactics| - 1]), tactics[|tactics| - 1];
      if tactic in before then before[tactic := AddCells(before[tactic], r, covered, 1)] else before
  }

  /** The inner loop of `compute_gaps`, over one technique's tactics. */
  method AddTechnique(buckets: map<string, Gaps>, r: TechniqueRef, covered: set<string>)
    returns (result: map<string, Gaps>, cells: nat, open: nat)
    ensures result.Keys == buckets.Keys
    ensures forall t | t in buckets :: result[t] == AddCells(buckets[t], r, covered, Cells(r.tactics, t))
    ensures cells == KnownCells(r.tactics, buckets.Keys) && open == if r.id in covered then 0 else cells
  {
    result, cells, open := buckets, 0, 0;
    for i := 0 to |r.tactics|
      invariant result == WithCells(buckets, r, covered, r.tactics[..i]) && result.Keys == buckets.Keys
      invariant cells == KnownCells(r.tactics[..i], buckets.Keys) && open == if r.id in covered then 0 else cells
    {
      assert r.tactics[..i + 1][..i] == r.tactics[..i];
      var tactic := r.tactics[i];
      if tactic !in result {
        continue;
      }
      cells := cells + 1;
      var b;
      b, open := AddCell(result[tactic], r, covered, open);
      result := result[tactic := b];
    }
    assert r.tactics[..|r.tactics|] == r.tactics;
    forall t | t in buckets ensures result[t] == AddCells(buckets[t], r, covered, Cells(r.tactics, t)) {
      WithCellsAt(buckets, r, covered, r.tactics, t);
    }
  }

  lemma {:induction false} WithCellsAt(buckets: map<string, Gaps>, r: TechniqueRef, covered: set<string>,
                                       tactics: seq<string>, t: string)
    requires t in buckets
    ensures t in WithCells(buckets, r, covered, tactics)
    ensures WithCells(buckets, r, covered, tactics)[t] == AddCells(buckets[t], r, covered, Cells(tactics, t))
  {
    if tactics != [] {
      WithCellsAt(buckets, r, covered, tactics[..|tactics| - 1], t);
      OneMoreCell(buckets[t], r, covered, Cells(tactics[..|tactics| - 1], t));
    }
  }

  lemma OneMoreCell(g: Gaps, r: TechniqueRef, covered: set<string>, n: nat)
    ensures AddCells(AddCells(g, r, covered, n), r, covered, 1) == AddCells(g, r, covered, n + 1)
  {
    assert Repeat(r, 1) == [r];
    assert g.uncovered + (Repeat(r, n) + [r]) == g.uncovered + Repeat(r, n) + [r];
  }

  datatype GapsReport = GapsReport(
    tactics: map<string, Gaps>, cells: nat, uncovered: nat, reference: nat,
    techniquesTotal: nat, techniquesCovered: nat, subTechniquesTotal: nat, subTechniquesCovered: nat)

  /** `compute_gaps`. */
  method ComputeGaps(reported: set<string>, refs: seq<TechniqueRef>) returns (g: GapsReport)
    ensures g.tactics.Keys == set t | t in ALL_TACTICS
    ensures forall t | t in g.tactics :: g.tactics[t] == GapsRow(refs, RolledUp(reported), t)
    ensures (g.cells, g.uncovered) == TableCells(refs, g.tactics.Keys, RolledUp(reported))
    ensures g.reference == |RefIds(refs)|
    ensures HeadlineOf(g) == Headline(RefIds(refs), RolledUp(reported))
  {
    var covered := CoveredTechniqueIds(reported);
    var buckets, cells, uncovered := map t | t in ALL_TACTICS :: Gaps([], 0, 0), 0, 0;
    for i := 0 to |refs|
      invariant buckets.Keys == set t | t in ALL_TACTICS
      invariant forall t | t in buckets :: buckets[t] == GapsRow(refs[..i], covered, t)
      invariant (cells, uncovered) == TableCells(refs[..i], buckets.Keys, covered)
    {
      assert refs[..i + 1][..i] == refs[..i];
      var more, open;
      buckets, more, open := AddTechnique(buckets, refs[i], covered);
      cells, uncovered := cells + more, uncovered + open;
    }
    assert refs[..|refs|] == refs;
    var (parents, parentsCovered, subs, subsCovered) := Headline(RefIds(refs), covered);
    g := GapsReport(buckets, cells, uncovered, |RefIds(refs)|, parents, parentsCovered, subs, subsCovered);
  }

  function Dotless(ids: set<string>): set<string> {
    set id | id in ids && '.' !in id
  }

  function WithDot(ids: set<string>): set<string> {
    set id | id in ids && '.' in id
  }

  /** Techniques in total and covered, sub-techniques in total and covered. */
  function Headline(ids: set<string>, covered: set<string>): (nat, nat, nat, nat) {
    (|Dotless(ids)|, |Dotless(ids) * covered|, |WithDot(ids)|, |WithDot(ids) * covered|)
  }

  function HeadlineOf(g: GapsReport): (nat, nat, nat, nat) {
    (g.techniquesTotal, g.techniquesCovered, g.subTechniquesTotal, g.subTechniquesCovered)
  }

  /** `summary_from_corpus`, the badge's numbers at the two technique levels. */
  function Summary(c: Corpus): (nat, nat, nat, nat) {
    var covered := Covered(InScope(c.entries), c.matrix);
    (|c.matrix.techniques|, |covered.techniques|, |c.matrix.subTechniques|, |covered.subTechniques|)
  }

  /** The gaps report in full mode and the badge state the same numbers. */
  lemma GapsAgreeWithBadge(c: Corpus)
    requires c.matrix.WellFormed()
    ensures var covered := RolledUp(Covered(InScope(c.entries), c.matrix).Ids());
      Headline(RefIds(FullReference(c.matrix)), covered) == Summary(c)
  {
    FullReferenceIds(c.matrix);
    IdsSplitByDot(c.matrix);
    TechniquesAgree(InScope(c.entries), c.matrix);
    SubTechniquesAgree(InScope(c.entries), c.matrix);
  }

  lemma IdsSplitByDot(m: Matrix)
    requires m.WellFormed()
    ensures Dotless(m.techniques + m.subTechniques) == m.techniques
    ensures WithDot(m.techniques + m.subTechniques) == m.subTechniques
  {
  }

  lemma TechniquesAgree(entries: seq<Entry>, m: Matrix)
    requires m.WellFormed()
    ensures m.techniques * RolledUp(Covered(entries, m).Ids()) == Covered(entries, m).techniques
  {
    forall id | id in m.techniques
      ensures id in RolledUp(Covered(entries, m).Ids()) <==> id in Covered(entries, m).techniques
    {
      TechniqueCovered(entries, m, id);
    }
  }

  lemma SubTechniquesAgree(entries: seq<Entry>, m: Matrix)
    requires m.WellFormed()
    ensures m.subTechniques * RolledUp(Covered(entries, m).Ids()) == Covered(entries, m).subTechniques
  {
    forall id | id in m.subTechniques
      ensures id in RolledUp(Covered(entries, m).Ids()) <==> id in Covered(entries, m).subTechniques
    {
      SubTechniqueCovered(entries, m, id);
    }
  }

  lemma TechniqueCovered(entries: seq<Entry>, m: Matrix, id: string)
    requires m.WellFormed() && id in m.techniques
    ensures id in RolledUp(Covered(entries, m).Ids()) <==> id in Covered(entries, m).techniques
  {
    var covered := Covered(entries, m);
    forall sub | sub in covered.Ids() && '.' in sub && Parent(sub) in m.techniques
      ensures Parent(sub) in covered.techniques
    {
      assert sub in covered.subTechniques;
    }
  }

  lemma SubTechniqueCovered(entries: seq<Entry>, m: Matrix, id: string)
    requires m.WellFormed() && id in m.subTechniques
    ensures id in RolledUp(Covered(entries, m).Ids()) <==> id in Covered(entries, m).subTechniques
  {
    var covered := Covered(entries, m);
    if id in RolledUp(covered.Ids()) && id !in covered.subTechniques {
      var sub :| sub in covered.Ids() && '.' in sub && Parent(sub) == id;
      ParentHasNoDot(sub);
    }
  }

  lemma {:induction false} ParentHasNoDot(id: string)
    ensures '.' !in Parent(id)
  {
    if id != [] && id[0] != '.' {
      ParentHasNoDot(id[1..]);
    }
  }

  /** In every row of the gaps table, what is covered and what is listed add up to the cells, and exactly the
      techniques outside the covered set are listed. */
  lemma {:induction false} GapsRowAddsUp(refs: seq<TechniqueRef>, covered: set<string>, tactic: string)
    ensures var g := GapsRow(refs, covered, tactic);
      && g.covered + |g.uncovered| == g.total
      && forall r :: r in g.uncovered <==> r in refs && tactic in r.tactics && r.id !in covered
  {
    if refs != [] {
      var last, rest := refs[|refs| - 1], refs[..|refs| - 1];
      GapsRowAddsUp(rest, covered, tactic);
      assert refs == rest + [last];
      CellsPositive(last.tactics, tactic);
      RepeatHolds(last, Cells(last.tactics, tactic));
    }
  }

  /** The table's cells are those of its rows: with one row more they grow by what that row holds. */
  lemma {:induction false} TableAddsUp(refs: seq<TechniqueRef>, rows: set<string>, covered: set<string>, t: string)
    requires t !in rows
    ensures TableCells(refs, {}, covered) == (0, 0)
    ensures var (all, open) := TableCells(refs, rows, covered);
      TableCells(refs, rows + {t}, covered) ==
        (all + GapsRow(refs, covered, t).total, open + |GapsRow(refs, covered, t).uncovered|)
  {
    if refs != [] {
      var r := refs[|refs| - 1];
      TableAddsUp(refs[..|refs| - 1], rows, covered, t);
      CellsOfRows(r.tactics, rows, t);
      RepeatHolds(r, Cells(r.tactics, t));
    }
  }

  lemma {:induction false} CellsOfRows(tactics: seq<string>, rows: set<string>, t: string)
    requires t !in rows
    ensures KnownCells(tactics, {}) == 0
    ensures KnownCells(tactics, rows + {t}) == KnownCells(tactics, rows) + Cells(tactics, t)
  {
    if tactics != [] {
      CellsOfRows(tactics[..|tactics| - 1], rows, t);
    }
  }

  /** The references under a tactic, in their order: those outside the covered set, or those in it. */
  function Filing(refs: seq<TechniqueRef>, tactic: string, covered: set<string>, inside: bool): seq<TechniqueRef> {
    if refs == [] then []
    else
      var r := refs[0];
      (if tactic in r.tactics && (r.id in covered) == inside then [r] else []) +
        Filing(refs[1..], tactic, covered, inside)
  }

  lemma {:induction false} FilingSnoc(refs: seq<TechniqueRef>, r: TechniqueRef, tactic: string, covered: set<string>,
                                     inside: bool)
    ensures Filing(refs + [r], tactic, covered, inside) == Filing(refs, tactic, covered, inside) +
      if tactic in r.tactics && (r.id in covered) == inside then [r] else []
  {
    if refs == [] {
      assert [] + [r] == [r] && [r][1..] == [];
    } else {
      assert (refs + [r])[1..] == refs[1..] + [r];
      FilingSnoc(refs[1..], r, tactic, covered, inside);
    }
  }

  predicate NoRepeats(tactics: seq<string>) {
    forall i, j | 0 <= i < j < |tactics| :: tactics[i] != tactics[j]
  }

  lemma {:induction false} OneCell(tactics: seq<string>, tactic: string)
    requires NoRepeats(tactics)
    ensures Cells(tactics, tactic) == if tactic in tactics then 1 else 0
  {
    if tactics != [] {
      var rest := tactics[..|tactics| - 1];
      assert tactics == rest + [tactics[|tactics| - 1]];
      OneCell(rest, tactic);
    }
  }

  /** Where the matrix files a technique under a tactic only once, a row lists exactly the techniques outside the
      covered set, each once and in their order, and counts the others. */
  lemma {:induction false} GapsRowIs(refs: seq<TechniqueRef>, covered: set<string>, tactic: string)
    requires forall r | r in refs :: NoRepeats(r.tactics)
    ensures var g := GapsRow(refs, covered, tactic);
      && g.uncovered == Filing(refs, tactic, covered, false)
      && g.covered == |Filing(refs, tactic, covered, true)|
  {
    if refs != [] {
      var last, rest := refs[|refs| - 1], refs[..|refs| - 1];
      assert refs == rest + [last];
      assert forall r | r in rest :: r in refs;
      GapsRowIs(rest, covered, tactic);
      FilingSnoc(rest, last, tactic, covered, false);
      FilingSnoc(rest, last, tactic, covered, true);
      OneCell(last.tactics, tactic);
      RepeatOnce(last);
    }
  }

  lemma RepeatOnce(r: TechniqueRef)
    ensures Repeat(r, 0) == [] && Repeat(r, 1) == [r]
  {
    assert Repeat(r, 1) == Repeat(r, 0) + [r];
  }

  lemma {:induction false} CellsPositive(tactics: seq<string>, tactic: string)
    ensures Cells(tactics, tactic) > 0 <==> tactic in tactics
  {
    if tactics != [] {
      assert tactics == tactics[..|tactics| - 1] + [tactics[|tactics| - 1]];
      CellsPositive(tactics[..|tactics| - 1], tactic);
    }
  }

  lemma {:induction false} RepeatHolds(r: TechniqueRef, n: nat)
    ensures |Repeat(r, n)| == n && forall x :: x in Repeat(r, n) <==> n > 0 && x == r
  {
    if n > 0 {
      RepeatHolds(r, n - 1);
    }
  }

  /** Every reference is a technique of the matrix under the tactics the matrix files it under, and every technique
      has one. */
  lemma ReferencesAre(m: Matrix, r: TechniqueRef)
    ensures r in FullReference(m) <==> r.id in m.techniques + m.subTechniques && r.tactics == m.TacticsFor(r.id)
  {
    var ids := Sorted(m.techniques) + Sorted(m.subTechniques);
    if r.id in ids && r.tactics == m.TacticsFor(r.id) {
      var i :| 0 <= i < |ids| && ids[i] == r.id;
      assert References(m, ids)[i] == r;
    }
  }

  /** One technique, one answer: listed as a gap under a tactic are exactly the techniques that the matrix files there
      and the badge does not count. */
  lemma GapsAreWhatTheBadgeLacks(c: Corpus, tactic: string, r: TechniqueRef)
    requires c.matrix.WellFormed()
    ensures var covered := Covered(InScope(c.entries), c.matrix).Ids();
      r in GapsRow(FullReference(c.matrix), RolledUp(covered), tactic).uncovered <==>
        && r.id in c.matrix.techniques + c.matrix.subTechniques && r.tactics == c.matrix.TacticsFor(r.id)
        && tactic in c.matrix.TacticsFor(r.id) && r.id !in covered
  {
    var entries := InScope(c.entries);
    GapsRowAddsUp(FullReference(c.matrix), RolledUp(Covered(entries, c.matrix).Ids()), tactic);
    ReferencesAre(c.matrix, r);
    if r.id in c.matrix.techniques {
      TechniqueCovered(entries, c.matrix, r.id);
    } else if r.id in c.matrix.subTechniques {
      SubTechniqueCovered(entries, c.matrix, r.id);
    }
  }
}
