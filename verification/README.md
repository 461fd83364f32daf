# Verified model of the detection-content pipeline

A Dafny model of the parts of ContentOps whose docstrings make strong promises, and proofs of those promises for all
inputs, all runs and all interleavings. `dafny verify dfyconfig.toml` checks everything.

The repository keeps detection rules as YAML files, compares them with a Sentinel and Defender tenant, collects alerts
and reports on coverage. Five parts are modelled.

* **Audit chain** (`Timestamps`, `JsonText`, `JsonGrammar`, `AuditChain`, `AuditLinks`, `AuditFiles`, `AuditWrites`,
  `AuditRuns`, `AuditEvidence`, `AuditLog`, `AuditBreaks`, `AuditProtocol`). Dated JSON-lines files whose records carry
  the hash of their predecessor. The model goes down to the characters: timestamps, JSON escaping and line splitting
  are modelled and proved, and the hash is a function on texts. `AuditProtocol` is the state machine of concurrent
  writers: read the tail, read the file, write a temporary file, re-check and replace; `write_records_with_retry` is a
  writer with several attempts left.
* **Windowed fetch** (`WindowedFetch`, `FetchTermination`). Bisecting a time window against an API that caps each page,
  and when that ends.
* **ATT&CK ids and coverage** (`AttackMatrix`, `CoverageExtract`, `CoverageIds`, `CoverageReports`). Following revoked
  ids to their replacements, what a detection covers, and the reports that must agree on it.
* **Drift** (`Values`, `PayloadMatching`, `Drift`, `DriftReport`, `DriftFixpoint`, `VersionGate`). Comparing,
  re-importing and bumping versions, and the separate CI gate.
* **Alerts** (`AlertMerge`, `AlertMatching`, `AlertJoin`, `AlertOrder`, `AlertConservation`, `ArmOverlay`,
  `OverlayMeaning`, `RuleTelemetry`, `RuleRows`, `TelemetrySums`). Joining two sources, overlaying live incident state,
  rebuilding the ledger, and summing telemetry per rule.

`Text` holds string order, digits, blanks and sorting.

Where the source works step by step, methods and classes with loops carry the same variables and are proved equal to a
recursive or set-based definition; the promises are lemmas about that definition. Beside each definition stand lemmas
that say what it answers in the inputs' own terms, such as `PayloadMatching.MatchIffSame`, `AlertJoin.FirstPassJoins`,
`CoverageIds.CountedIffWritten` or `OverlayMeaning.OverlaidShows`.

## Where the code does less than its text says

* `merge_alerts` says no data is ever dropped (contentops/alerts/merge.py:64). A second Sentinel alert of an incident
  is dropped when an earlier one has taken the incident's Graph alerts: `SecondAlertOfAnIncidentIsDropped` gives the
  input and `EmittedUnlessDropped` the exact condition.
* `silent_rules_query` says an incident lands in at most one row per rule (contentops/workspace_kql.py:210-212). An
  incident with a related rule and a reference that normalises to nothing lands in two rows of a rule that carries its
  title: `EmptyReferenceCountsTwice`. `RuleTotals`, and `RuleTotalsOneId` for a rule with one id, give the exact
  condition on the incidents' references and titles.
* `_monotonic_timestamp` leaves a candidate alone behind an unparsable predecessor, so the writer can produce a
  timestamp regression: `UnparsableTimestampRegresses`. The exact condition is `WriteVerifiesIff` for one batch,
  `ReachedVerifiesIff` for a run and `ScheduleVerifiesIff` for concurrent writers.
* A re-import keeps a version that is not plain `X.Y.Z`, and the gate then refuses a changed body or a changed sidecar:
  `OtherVersionsAreRefused` is an equivalence, `SidecarUnderTwoPartsIsRefused` an instance. Over a file without a
  version there is nothing to raise, and the gate refuses a changed sidecar all the same: `UnversionedIsExempt`.
* Any floor may be passed to the windowed fetch. With one below a microsecond it does not end on some servers:
  `ZeroFloorNeverEnds` gives one, and `EndsUnlessSecondIsFull` the exact condition.

## Assumptions

* Writers: the re-check and the replace are one step (the code leaves a gap between lines 294 and 307 of
  contentops/audit/writer.py); each writer has its own temporary file (line 281 uses one name per day); reading the
  date and the tail is one step; the calendar day never goes back. `WriteVerifiesIff` shows that the last one is
  needed: a non-empty batch dated before a file that holds records is always reported.
* Where a schedule or a run starts: any directory whose files end their last line and hold one chain (`Intact`), with
  no record dated after today. Being one chain, the serial order, exactly-once and contiguity hold for records with any
  timestamps. That the directory also verifies, without an exact condition on the timestamps, is claimed only where
  every record's timestamp is well formed (`WellStamped`), as the callers write it
  (contentops/cli/commands/apply_support.py:581): `ReachedVerifies` and `EveryScheduleVerifies`.
* The hash function is injective and never yields the starting value or the empty string where a theorem requires
  `Ideal`. The commitment theorems do not: they exhibit a collision instead.
* Fetch: the server is fixed during the run, and a page holds only matching alerts, all of them unless the cap is
  reached.
* Merge: ids are distinct within each source.
* Coverage agreement: only sub-technique ids contain a dot. Loading a matrix proves the rest of its well-formedness.
* Telemetry: the normalising expressions of the query are functions of their text. `take_any` may choose any candidate.
  `OlderRowsChangeNothing` takes no key to be logged twice at one time in different states, where `arg_max` would be
  free to choose.
* Drift: YAML gives back every string the dumper hands to it; JSON gives back every definition; a sidecar file belongs
  to one envelope; discovery lists the files in some fixed total order of paths. For the fixpoint, the rules deliver
  what their handlers build (their kind, their resource name as `arm_name` if any, a playbook's definition inline),
  share no keys within a kind, each is matched to its own file or given its own unoccupied path, and what is written
  satisfies the envelope schema.

## Model

| member | source | states |
|---|---|---|
| Timestamps.ParseFormat | contentops/audit/writer.py:69-74 | a valid stamp rendered in the fixed-width format parses back to itself |
| Timestamps.FormatParse | contentops/audit/writer.py:172-173 | a text accepted as fixed-width (all fields padded, years from 1000) is exactly the rendering of the stamp it parses to; see Left out for what else `strptime` takes |
| Timestamps.FormatOrder | contentops/audit/writer.py:153-157 | string order of rendered stamps is time order, both ways |
| Timestamps.NextMicroIsNext | contentops/audit/writer.py:180-180 | adding a microsecond carries through every field, leap years included: the instant grows by exactly one |
| Timestamps.MonotonicAdvances | contentops/audit/writer.py:168-181 | behind a well-formed predecessor a later candidate is kept as it is, an equal or earlier one gives exactly one microsecond after the predecessor, and there is no answer only behind the last stamp of year 9999 |
| Timestamps.MonotonicIsLater | contentops/audit/writer.py:149-181 | the documented rule, in instants: the later of the candidate and one microsecond after the predecessor |
| Timestamps.FormatIs | contentops/audit/writer.py:69-74 | the rendering is year, month, day, T, hour, minute, second, microseconds and Z, each padded to its width |
| Timestamps.DaysBeforeYearCounts | contentops/audit/writer.py:180-180 | the calendar the carry runs on: 365 days a year and one for each leap year of the Gregorian rule |
| JsonText.ReadCharOfEscape | contentops/audit/writer.py:109-109 | every character, escaped as `json.dumps` does (section 7 of RFC 8259, surrogate pairs included), is read back as itself |
| JsonText.HexEscapes | contentops/audit/writer.py:109-109 | a character outside printable ASCII and the five short escapes is written as backslash, u and four lower-case hexadecimal digits of its code |
| JsonText.WriteIsCompact | contentops/audit/writer.py:109-113 | the text has no blanks between its parts |
| JsonText.ReadDocOfWrite | contentops/audit/writer.py:102-113 | serialising a dict of arbitrary strings and nulls and parsing the text gives the same dict, in the same key order |
| JsonText.WriteInjective | contentops/audit/writer.py:422-424 | the text that is hashed determines the dict |
| JsonText.WritePrintable | contentops/audit/writer.py:111-113 | a serialised record is printable ASCII, so it holds no character that ends a line |
| JsonGrammar.ObjectReads | contentops/audit/writer.py:400-409 | every text of the grammar of flat objects of strings and nulls (sections 2 to 7 of RFC 8259), blanks and all escapes included, is read as what it means |
| JsonGrammar.ObjectRead | contentops/audit/writer.py:400-409 | and nothing else is read: a text that is read belongs to the grammar and is read as what it means |
| JsonGrammar.LastValueCounts | contentops/audit/writer.py:400-409 | of a key written twice the last value counts |
| JsonText.SplitLinesAppend | contentops/audit/writer.py:398-398 | text appended after a line end splits into the old lines followed by the new ones |
| AuditChain.JsonDigestIdeal | contentops/audit/writer.py:144-146 | the record hash over JSON text inherits injectivity from the hash function on texts |
| AuditChain.ChainedConcat | contentops/audit/writer.py:205-220 | chaining two batches one behind the other is chaining their concatenation |
| AuditChain.ChainRecords | contentops/audit/writer.py:184-220 | the loop with its running hash and timestamp computes the chained batch, or stops when the calendar overflows |
| AuditChain.DocOfRecord | contentops/audit/writer.py:421-424 | dropping `record_hash` from a parsed record gives exactly the text that was hashed |
| AuditChain.RecordReadsBack | contentops/audit/writer.py:77-113 | a written record reads back with each of its fourteen fields under its own name, in the order of declaration |
| AuditFiles.LinesOfSerialise | contentops/audit/writer.py:278-278 | records serialised and concatenated, then split and parsed, are exactly the same records |
| AuditFiles.AppendBatch | contentops/audit/writer.py:278-284 | appending a batch to a file that ends in a line break adds exactly its records behind the old lines |
| AuditFiles.ReplaceKeepsDated | contentops/audit/writer.py:307-307 | replacing one day's file keeps the directory in date order and every other file as it was |
| AuditLinks.CleanIsLinked | contentops/audit/writer.py:393-463 | a walk without breaks has met only records that carry their own digest and their predecessor's, and stands at the last hash |
| AuditLinks.HeadsNeverRepeat | contentops/audit/writer.py:388-463 | a chain never returns to a head it had before |
| AuditLinks.TailIsHead | contentops/audit/writer.py:223-252 | the backward tail scan ends at the hash where the verifier's forward walk ends |
| AuditLog.NoBreaksIff | contentops/audit/writer.py:388-469 | the list of breaks is empty exactly when the walk over all files meets no fault |
| AuditLog.WalkFile | contentops/audit/writer.py:398-463 | one file's loop reports exactly its breaks, with day, line and expected hash, and counts its records |
| AuditLog.Trail.LastRecordTail | contentops/audit/writer.py:223-252 | scanning files and lines backwards finds the last line that gives a tail |
| AuditLog.Trail.WriteRecords | contentops/audit/writer.py:260-308 | run alone, the write leaves exactly the chained batch behind the old text of the day, never loses a race, and writes nothing when a timestamp overflows |
| AuditLog.Trail.VerifyChain | contentops/audit/writer.py:360-469 | the verifier returns all breaks, and none exactly for a clean chain |
| AuditLog.Trail.HeadSummary | contentops/audit/writer.py:472-498 | the summary says verified exactly for a clean chain, and carries its head hash and timestamp, the number of breaks, of records and of files |
| AuditWrites.ChainedVerifiesIff | contentops/audit/writer.py:184-220 | a chained batch verifies behind a clean chain exactly when no record meets an unparsable later predecessor; head and clock then agree with the verifier |
| AuditWrites.PlacedVerifiesIff | contentops/audit/writer.py:273-279 | a batch placed before existing lines verifies exactly when it is empty, or it is steady and those lines hold no record |
| AuditWrites.WriteVerifiesIff | contentops/audit/writer.py:260-308 | writing to a clean directory keeps it clean exactly when the batch is empty, or nothing dated later holds a record and the batch is steady; a predecessor stamp counts as parsable when it is fixed-width |
| AuditWrites.UnparsableTimestampRegresses | contentops/audit/writer.py:175-179 | a batch whose timestamps do not parse is written and then reported as a regression |
| AuditWrites.InsertedIsReported | contentops/audit/writer.py:432-437 | a batch chained behind the tail but written before lines that hold records is reported |
| AuditBreaks.FirstBreakAt | contentops/audit/writer.py:398-463 | when everything before a line verifies, the reports begin at that line: its day, its number, the reason and the hash expected there |
| AuditBreaks.EditIsLocated | contentops/audit/writer.py:432-437 | changing what a record's hash covers is reported first at that record's own line, as an invalid hash; it is the only report when the timestamp was kept |
| AuditBreaks.DeletionIsLocated | contentops/audit/writer.py:439-444 | deleting records is reported first at the record behind the gap, as a mismatch of the previous hash |
| AuditBreaks.MissingFieldIff | contentops/audit/writer.py:400-430 | exactly unreadable lines and those without the chain's fields are reported as missing a field, and nothing else at such a line |
| AuditBreaks.RegressionIff | contentops/audit/writer.py:446-463 | a regression is reported at a line exactly when its timestamp is text and earlier than the one the walk holds |
| AuditBreaks.FloorIs | contentops/audit/writer.py:446-463 | the walk holds the last non-empty timestamp of the chained lines before |
| AuditRuns.ChainedChains | contentops/audit/writer.py:184-220 | records chained behind the tail of a chain continue it, whatever their timestamps |
| AuditRuns.WriteExtends | contentops/audit/writer.py:260-308 | whatever the timestamps, a write where nothing later holds records goes to the end of the chain and becomes its tail |
| AuditRuns.ReachedExtends | contentops/audit/writer.py:149-252 | any batches on non-decreasing days, written into any directory that is one chain, leave one chain: the old records, then those of the batches that were written, in order |
| AuditRuns.ReachedVerifiesIff | contentops/audit/writer.py:360-469 | over a directory that verifies, such a run leaves one that verifies exactly when no written record meets an unparsable, later predecessor |
| AuditRuns.ReachedVerifies | contentops/audit/writer.py:149-252 | with well-formed record timestamps every such run verifies, with strictly increasing timestamps across batches and days, and the tail scan ends where the verifier does |
| AuditRuns.OwnStampsAreKept | contentops/audit/writer.py:149-220 | a batch whose timestamps rise from behind the tail is never refused, and every record keeps its timestamp and every other field its caller set |
| AuditRuns.WrittenUnderOwnStamps | contentops/audit/writer.py:260-308 | and so it stands on disk: behind the old records, each under its own timestamp |
| AuditRuns.StampsAreLater | contentops/audit/writer.py:149-220 | each record of a chained batch has its own timestamp when that is later than its predecessor's, and otherwise exactly one microsecond after it |
| AuditEvidence.HeadCommits | contentops/audit/writer.py:472-498 | two chains with one head hash hold the same records, or exhibit a hash collision; for any digest |
| AuditEvidence.HeadHashCommitsToHistory | contentops/audit/writer.py:472-498 | two directories that verify and have one head hash hold the same record sequence, however it is cut into files, unless the hash collides |
| AuditEvidence.SelectionVerifiesIff | contentops/audit/writer.py:360-463 | any selection of a chain's lines, in any order and with repetitions, verifies exactly when it is a prefix |
| AuditEvidence.ReorderIsReported | contentops/audit/writer.py:368-370 | any other order of the records is reported |
| AuditEvidence.DeletionIsReported | contentops/audit/writer.py:368-370 | deleting any block but a final one is reported |
| AuditEvidence.EditIsReported | contentops/audit/writer.py:365-367 | changing a record without re-hashing it is reported wherever it stands |
| AuditEvidence.InnerEditIsReported | contentops/audit/writer.py:360-463 | a record with a successor cannot be changed, blanked or replaced at all, even re-hashed, without a report |
| AuditProtocol.CommitIsWrite | contentops/audit/writer.py:288-308 | a re-check that passes means the replace is the write that would have happened with no one else around |
| AuditProtocol.StepKeepsInv | contentops/audit/writer.py:260-335 | every step of every writer, and every midnight, keeps the protocol invariant, for any timestamps |
| AuditProtocol.EveryScheduleIsSerial | contentops/audit/writer.py:260-335 | for any number of writers, any interleaving, any timestamps and any chained directory to start from: the result is one chain, and what the jobs that returned, run one after the other, leave behind; the others added nothing |
| AuditProtocol.ScheduleVerifiesIff | contentops/audit/writer.py:260-335 | started on a directory that verifies, it verifies after a schedule exactly when no appended record meets an unparsable, later predecessor |
| AuditProtocol.EveryScheduleVerifies | contentops/audit/writer.py:260-335 | with well-formed timestamps it verifies after every schedule |
| AuditProtocol.ReturnedExactlyOnce | contentops/audit/writer.py:260-335 | a batch whose write returned, with or without retries, stands behind the old records whole, in order and in exactly one place, whatever its timestamps |
| AuditProtocol.BatchesAreContiguous | contentops/audit/writer.py:276-278 | the records of batch i occupy one block of the chain |
| AuditProtocol.CollisionMeansProgress | contentops/audit/writer.py:294-305 | a failed re-check means another writer's records were appended since the tail was read |
| AuditProtocol.AloneReturns | contentops/audit/writer.py:311-335 | a writer left alone for its four steps returns, unless its timestamps overflow |
| AuditProtocol.AttemptsAreUsed | contentops/audit/writer.py:311-335 | under every schedule a call has as many attempts left as it was given less one for each collision, and raises exactly with the last |
| AuditProtocol.EnoughAttemptsNeverRaise | contentops/audit/writer.py:311-335 | with as many attempts as there are writers no schedule makes a call raise |
| WindowedFetch.MatchingSplits | contentops/alerts/provider.py:364-367 | cut at a point inside it, a window's alerts fall into exactly one of the two parts, although bounds lose their microseconds |
| WindowedFetch.HalvesPay | contentops/alerts/provider.py:422-426 | halving a slice longer than the floor gives two shorter adjacent slices and pays for one request, rounding included |
| WindowedFetch.AddPage | contentops/alerts/provider.py:436-442 | the page loop keeps each identified alert once and every alert without an id |
| WindowedFetch.CollectCount | contentops/alerts/provider.py:436-442 | an alert is kept at most as often as delivered, and exactly as often when it has no id |
| WindowedFetch.CollectIs | contentops/alerts/provider.py:436-442 | a page adds, in its order, the alerts without an id and the first delivery of each id not seen before |
| WindowedFetch.CutIs | contentops/alerts/provider.py:364-367 | a query bound is the last whole second not later than it |
| WindowedFetch.HalfRoundsToEven | contentops/alerts/provider.py:423-423 | half a duration is the nearest microsecond, and of two the even one |
| WindowedFetch.RunningToTheEnd | contentops/alerts/provider.py:407-442 | every round keeps: stack and used slices tile the window, and what was collected is sound and complete for the used part |
| WindowedFetch.WindowedDelivers | contentops/alerts/provider.py:376-448 | the used slices tile the window; a slice is logged exactly when its page was full at the floor; nothing is missing outside logged slices |
| WindowedFetch.WindowedIsComplete | contentops/alerts/provider.py:384-403 | against a fixed server with distinct ids, a run that logged nothing returns exactly the alerts of the window, each once |
| WindowedFetch.RequestBound | contentops/alerts/provider.py:406-426 | for a floor of at least one microsecond the loop ends, with one request for a window no longer than the floor and otherwise fewer than 4 (until - since) / floor |
| WindowedFetch.ListWindowed | contentops/alerts/provider.py:376-448 | the loop over stack, collected alerts and seen ids computes what the rounds define, for every floor under which it ends |
| WindowedFetch.FinalIsRounds | contentops/alerts/provider.py:406-442 | a floor of at least one microsecond always ends the loop, with the result of the rounds |
| FetchTermination.EndsUnlessSecondIsFull | contentops/alerts/provider.py:407-426 | under a shorter floor, zero included, the loop ends exactly when no whole second that ends in the window holds a page of alerts |
| FetchTermination.EndsAsIfOne | contentops/alerts/provider.py:407-442 | when it ends it returns what a floor of one microsecond returns |
| FetchTermination.ZeroFloorNeverEnds | contentops/alerts/provider.py:376-383 | a floor of zero, one alert and a page size of one: work is left after any number of rounds |
| AttackMatrix.EdgesStartRetired | scripts/refresh_attack_matrix.py:232-245 | a revoked-by edge starts at a retired id of the bundle |
| AttackMatrix.FollowChain | scripts/refresh_attack_matrix.py:248-254 | on any graph, cycles included, the loop ends with the first current id along the chain, or with none exactly when none is reachable |
| AttackMatrix.RetiredIds | scripts/refresh_attack_matrix.py:207-257 | an id is mapped exactly when a current technique is reachable along its edges, and then to the first; the rest of the retired ids is listed as deprecated |
| AttackMatrix.RetiredSplitsExactly | scripts/refresh_attack_matrix.py:182-194 | revoked and deprecated ids are disjoint and together exactly the retired ids; replacements are current |
| AttackMatrix.CurrentAndRetired | scripts/refresh_attack_matrix.py:139-173 | an id is current exactly when some technique object carrying it is neither revoked nor deprecated, and retired when all that carry it are |
| AttackMatrix.EdgesAreLast | scripts/refresh_attack_matrix.py:232-245 | each retired id leads where the last relationship in force that replaces it leads |
| AttackMatrix.ByStixIdIsLast | scripts/refresh_attack_matrix.py:208-208 | of objects with one STIX id relationships refer to the last |
| AttackMatrix.StrangersAreUnknown | contentops/coverage/matrix.py:114-127 | over the generated matrix exactly the ids that no technique object of the bundle carries are unknown |
| AttackMatrix.ResolveIsIdempotent | contentops/coverage/matrix.py:114-127 | what an id resolves to is current and resolves to itself |
| AttackMatrix.BundleIdsResolve | contentops/coverage/matrix.py:114-127 | every technique of the bundle has a known status, decided by what is reachable |
| CoverageExtract.NormaliseId | contentops/coverage/matrix.py:77-82 | a normalised id has the shape `T####` or `T####.###` |
| CoverageIds.NormalisedIff | contentops/coverage/matrix.py:77-82 | a text stands for an id exactly when the id is the text in capitals without blanks at its ends |
| CoverageIds.IdStandsForItself | contentops/coverage/matrix.py:77-82 | an id of the right shape, sub-techniques included, normalises to itself |
| CoverageIds.SpellingIsIgnored | contentops/coverage/matrix.py:77-82 | small letters and surrounding blanks change nothing |
| CoverageIds.TacticIff | contentops/coverage/matrix.py:67-89 | which spellings stand for a tactic: its name, blanks, dashes, underscores and case aside |
| CoverageIds.FiledByLastEntry | contentops/coverage/matrix.py:136-150 | a loaded table files an id under the recognised tactics of its last entry |
| CoverageExtract.NormaliseTactic | contentops/coverage/matrix.py:85-89 | a recognised tactic is one of the reports' tactics |
| CoverageExtract.FromDict | contentops/coverage/matrix.py:132-168 | a loaded matrix files exactly the listed ids, the last entry of an id winning, and only under tactics the reports have rows for |
| CoverageExtract.ExtractMitre | contentops/coverage/extract.py:221-295 | the loop over the written ids and the lists it fills agree with the set-based definition of what a detection covers |
| CoverageExtract.NothingWrittenDisappears | contentops/coverage/extract.py:249-267 | every value written on a rule is counted, remapped, or listed as malformed, deprecated or unknown |
| CoverageIds.CountedIffWritten | contentops/coverage/extract.py:249-268 | an id is counted exactly when it is written on the rule and current, or replaces a written revoked one |
| CoverageIds.WrittenCurrentIsCounted | contentops/coverage/extract.py:249-256 | a current id of the right shape that is written on a rule is counted as itself |
| CoverageIds.OtherListsAreWritten | contentops/coverage/extract.py:249-267 | the remapped, deprecated and unknown lists hold exactly the written ids of these kinds |
| CoverageIds.TacticsOfRule | contentops/coverage/extract.py:270-275 | a rule is listed under the tactics it claims; only one that claims none under those of its counted techniques |
| CoverageExtract.CountedIsCurrent | contentops/coverage/extract.py:72-78 | only current ids are counted, and counted, deprecated and unknown ids are disjoint |
| CoverageExtract.AttributionIsExact | contentops/coverage/extract.py:277-287 | a technique is listed under a tactic only where the matrix files it, and each counted one is listed or reported as outside |
| CoverageExtract.InferredTacticsCoverAll | contentops/coverage/extract.py:270-275 | for a rule without tactics, a counted technique is outside exactly when the matrix files it nowhere |
| CoverageReports.ExcludedCountsConserve | contentops/coverage/corpus.py:183-188 | every detection is in scope or excluded for exactly one reason |
| CoverageReports.ExcludedCounts | contentops/coverage/corpus.py:183-188 | the counting loop gives the number excluded for each reason |
| CoverageReports.FindCovered | contentops/coverage/corpus.py:233-246 | the loops of the covered set compute its definition |
| CoverageReports.RollsUpNeverDown | contentops/coverage/corpus.py:138-144 | a tactic is covered exactly when a detection claims it, a technique when it or a sub-technique is counted, a sub-technique only when counted itself |
| CoverageReports.WideningNeverUncovers | contentops/coverage/corpus.py:64-71 | a scope that admits more covers at least as much at every level |
| CoverageReports.ReasonNamesTheRemedy | contentops/coverage/corpus.py:64-71 | the reason for leaving a detection out says what would admit it: nothing, hunting rules, or those not in production |
| CoverageReports.DisabledNeverCounts | contentops/coverage/corpus.py:64-66 | disabled and deprecated rules count under no scope |
| CoverageReports.ComputeCoverage | contentops/coverage/report.py:104-121 | the nested loops build each tactic's row from the detections that claim it |
| CoverageReports.RowAddsUp | contentops/coverage/report.py:112-121 | a row's severities add up to its detections, and no technique is counted more often |
| CoverageReports.RowCounts | contentops/coverage/report.py:112-121 | each number of a row counts the detections that claim its tactic: all of them, those in production, those of each severity, and per technique those that list it there |
| CoverageReports.RowLists | contentops/coverage/report.py:120-121 | a row lists exactly what its detections list under the tactic |
| CoverageReports.FindOutside | contentops/coverage/corpus.py:218-220 | the diagnostics loop collects exactly the current techniques outside every claimed tactic |
| CoverageReports.HeatmapLosesNothing | contentops/coverage/report.py:89-138 | the techniques of all rows and the outside diagnostic are exactly the counted techniques in scope |
| CoverageReports.ListedIsCounted | contentops/coverage/report.py:97-103 | each technique in a row belongs to that tactic in the matrix and is counted |
| CoverageReports.CoveredTechniqueIds | contentops/coverage/gaps.py:188-203 | the gaps report's covered set is the reported set with parents added |
| CoverageReports.ComputeGaps | contentops/coverage/gaps.py:206-261 | the loops fill each tactic's row, the cell totals and the headline as defined |
| CoverageReports.GapsRowAddsUp | contentops/coverage/gaps.py:233-240 | in each row covered and listed cells add up, and exactly the techniques outside the covered set are listed |
| CoverageReports.GapsRowIs | contentops/coverage/gaps.py:228-240 | where the matrix files a technique under a tactic once, a row lists exactly the techniques outside the covered set, each once and in order, and counts the others |
| CoverageReports.TableAddsUp | contentops/coverage/gaps.py:225-240 | the cell totals are the sums over the rows, of all cells and of the uncovered ones |
| CoverageReports.GapsAgreeWithBadge | contentops/coverage/report.py:392-405 | for a well-formed matrix in full mode, the gaps headline equals the badge's four technique numbers |
| CoverageReports.GapsAreWhatTheBadgeLacks | contentops/coverage/gaps.py:17-22 | listed as gaps under a tactic are exactly the techniques that the matrix files there and the badge does not count |
| AlertMerge.MergeKeepsWhatIsKnown | contentops/alerts/models.py:431-471 | a merged alert knows what either side knows; merging again with either side changes nothing |
| AlertMerge.MergeAlerts | contentops/alerts/merge.py:57-140 | the four passes with their matched-id sets produce the defined rows |
| AlertJoin.FirstPassJoins | contentops/alerts/merge.py:37-91 | the first pass joins a Graph alert with the first Sentinel alert that has its vendor id, as vendor id or as own id, and failing one with the first that has its own id |
| AlertJoin.MatchedIffShared | contentops/alerts/merge.py:37-91 | it joins a Graph alert at all exactly when some Sentinel alert has its vendor id or its id, as either |
| AlertJoin.MatchedJoinsPartner | contentops/alerts/merge.py:83-112 | a matched Graph alert gives one row, joined with that partner |
| AlertJoin.ClaimantJoins | contentops/alerts/merge.py:93-107 | an unmatched Graph alert is joined with the first unmatched Sentinel alert of its incident |
| AlertJoin.LeftAlone | contentops/alerts/merge.py:109-112 | any other Graph alert gives a row of its own |
| AlertJoin.StandsAlone | contentops/alerts/merge.py:114-116 | a Sentinel alert gives a row of its own exactly when it is unmatched and its incident has no unmatched Graph alert |
| AlertOrder.RowsInOrder | contentops/alerts/merge.py:83-116 | the rows come out in order: joined by an id as the Graph list goes, joined by an incident as the Sentinel list goes, then what is left of each list |
| AlertConservation.EveryGraphAlertOnce | contentops/alerts/merge.py:83-112 | each Graph alert gives exactly one output row |
| AlertConservation.GraphSideIsConserved | contentops/alerts/merge.py:57-140 | the rows made from Graph alerts are exactly the Graph alerts; the length is their number plus the Sentinel-only rows |
| AlertMatching.GraphMatchedIff | contentops/alerts/merge.py:83-91 | the first pass matches a Graph alert exactly when some Sentinel alert offers one of its keys |
| AlertMatching.SentinelMatchedIff | contentops/alerts/merge.py:83-91 | and a Sentinel alert exactly when it is the first to offer the first offered key of some Graph alert |
| AlertMatching.EmittedUnlessDropped | contentops/alerts/merge.py:99-116 | a Sentinel alert is in the output exactly unless it is unmatched, its incident has an unmatched Graph alert, and an earlier alert of the incident is unmatched too; in terms of the inputs alone |
| AlertMatching.DroppedIncidentIsCarried | contentops/alerts/merge.py:102-107 | the incident of a dropped alert is carried by a row |
| AlertMatching.SecondAlertOfAnIncidentIsDropped | contentops/alerts/merge.py:64-64 | the promise that no data is dropped fails on one Graph and two Sentinel alerts of an incident |
| ArmOverlay.PatchEntry | contentops/alerts/merge.py:323-365 | the flag-driven loop body rewrites an entry exactly when it disagrees with its incident |
| ArmOverlay.PatchedAgrees | contentops/alerts/merge.py:323-361 | a patched entry agrees with its incident, is the same alert, and patching again changes nothing |
| ArmOverlay.ReopenedIsReverted | contentops/alerts/merge.py:334-338 | closed by one run and reopened by the next: nothing of the closing time or its verdict survives |
| ArmOverlay.BuildMaps | contentops/alerts/merge.py:264-301 | the two patch maps: the last incident naming an alert or a number wins |
| ArmOverlay.AlertStore.Overlay | contentops/alerts/merge.py:250-372 | daily files are rewritten as defined, only where an entry changes, and the returned pair counts files and entries |
| ArmOverlay.OverlayIsIdempotent | contentops/alerts/merge.py:250-372 | a second run with the same incidents changes nothing and returns (0, 0) |
| ArmOverlay.OverlayAgreesWithArm | contentops/alerts/merge.py:250-258 | after one run every patched entry agrees with ARM; ids, creation times, order and counts are unchanged |
| OverlayMeaning.OverlaidShows | contentops/alerts/merge.py:264-361 | an entry shows the last incident naming its alert or, if none does, the last with its number: its verdict, number and closing time, none when it is open again; it is rewritten only when it did not |
| OverlayMeaning.OthersAreKept | contentops/alerts/merge.py:303-321 | an entry that no incident names or has the number of stays as it is |
| OverlayMeaning.VerdictIs | contentops/alerts/models.py:93-104 | which spelling of a classification is written as which verdict, every other as undetermined |
| OverlayMeaning.FillersAreNotRead | contentops/alerts/models.py:93-104 | a blank or underscore anywhere in a classification makes no difference |
| OverlayMeaning.ChangesAreDifferences | contentops/alerts/merge.py:303-372 | the returned pair is the number of files and of entries that differ after the run |
| ArmOverlay.AlertStore.LoadAll | contentops/alerts/ledger.py:312-318 | all readable entries in file order |
| ArmOverlay.AlertStore.Rebuild | contentops/alerts/ledger.py:321-334 | the ledger is the last entry of each alert id in order of first appearance |
| ArmOverlay.LedgerHoldsTheLast | contentops/alerts/ledger.py:325-330 | each alert id has one ledger entry, the last in date order |
| OverlayMeaning.LedgerOrder | contentops/alerts/ledger.py:321-334 | the ledger lists the alerts in the order in which the daily files first name them |
| ArmOverlay.AlertStore.Sync | contentops/alerts/sync.py:372-384 | overlay then rebuild: the ledger is built from the patched files |
| ArmOverlay.LedgerAgreesWithArm | contentops/alerts/sync.py:372-384 | after a sync every ledger entry is a daily entry that agrees with its incident |
| RuleTelemetry.LatestIsLatest | contentops/workspace_kql.py:180-182 | `arg_max` keeps each key once, in a state no earlier than any logged one |
| RuleTelemetry.AlertKeyIsEarned | contentops/workspace_kql.py:146-158 | only a Sentinel alert gets a rule id: that of an incident with one related rule, else that of its alert type |
| RuleRows.AlertKeyIs | contentops/workspace_kql.py:126-158 | a Sentinel alert counts for the rule of a single-rule incident holding it, else for the rule of its alert type, else by name; an alert of another product always by name |
| RuleRows.IncidentKeysAre | contentops/workspace_kql.py:236-241 | an incident counts for the rules its references name, and by its title exactly when it has no reference or one that names nothing |
| RuleTelemetry.OlderRowsChangeNothing | contentops/workspace_kql.py:214-221 | superseded, repeated or reordered log rows change no answer of the query |
| RuleTelemetry.VerdictIsTheLatest | contentops/workspace_kql.py:225-231 | an incident counts under a verdict exactly when its latest logged row is closed with it, whatever was logged before a reopening |
| RuleTelemetry.TelemetryIndex.constructor | contentops/rule_keys.py:166-182 | the loop fills the three dictionaries with exactly the rows found under each id and name |
| RuleTelemetry.TelemetryIndex.RowsFor | contentops/rule_keys.py:184-192 | a rule's own rows, or the name-matched id rows when it has none |
| RuleRows.RowsAre | contentops/rule_keys.py:151-192 | a rule is given the rows keyed by its ids or names, or without a key and named like it; only when there is none the id rows that share its name; each once |
| RuleTelemetry.TelemetryIndex.Lookup | contentops/rule_keys.py:194-197 | the summed counts of those rows |
| RuleTelemetry.MergeRows | contentops/rule_keys.py:204-214 | the sum over all rows, column by column |
| TelemetrySums.SumsCountOnceIffApart | contentops/rule_keys.py:161-164 | a sum over keys equals the number of distinct members exactly when no member has two of the keys |
| TelemetrySums.OwnRowsSum | contentops/rule_keys.py:184-197 | a rule's own rows summed are the counts of its keys summed, no row twice |
| TelemetrySums.RuleTotals | contentops/rule_keys.py:158-164 | the alerts are exactly the distinct ones of the rule; the incidents are too exactly when no incident names two ids of the rule, nor one of them beside a reference that normalises to nothing while its title is a name of the rule |
| TelemetrySums.RuleTotalsOneId | contentops/rule_keys.py:106-136 | for a rule with one id, as every rule has, only the second of these can happen |
| TelemetrySums.RuleTotalsCountOnce | contentops/workspace_kql.py:210-212 | no double counting: with every reference naming a rule the sums are the distinct alerts and incidents of the rule |
| TelemetrySums.RuleClosedTotals | contentops/workspace_kql.py:245-248 | under the same condition its closed verdicts are its distinct closed incidents of each classification |
| TelemetrySums.EmptyReferenceCountsTwice | contentops/workspace_kql.py:241-245 | an incident with a related rule and a reference that normalises to nothing is counted twice for a rule that carries its title |
| TelemetrySums.OwnRowsIffAttributed | contentops/rule_keys.py:158-164 | a rule has rows of its own exactly when some alert or incident is attributed to it |
| TelemetrySums.EveryAlertInOneRow | contentops/workspace_kql.py:210-211 | the rows' alerts add up to the number of distinct alerts |
| TelemetrySums.EveryIncidentInSomeRow | contentops/workspace_kql.py:240-251 | every incident is in some row, and the rows add up to the incidents exactly when the references of each incident normalise to the same |
| TelemetrySums.RateIsAFraction | contentops/workspace_kql.py:275-290 | closed verdicts never exceed incidents and the false-positive rate lies in [0, 1], for every lookup |
| TelemetrySums.RateIs | contentops/workspace_kql.py:275-290 | the rate times the closed verdicts is the false positives; there is none exactly when nothing was closed with a verdict |
| Values.StrippedIsPerLine | contentops/core/drift.py:220-222 | stripping each line is dropping every blank followed only by blanks in its line |
| Values.ReadStringIsInvisible | contentops/utils/yaml_io.py:32-55 | dumping and reading a string changes nothing the comparison sees, and is stable |
| Values.NormalizeIdempotent | contentops/core/drift.py:207-223 | normalising is idempotent on every nested value |
| Values.ReadbackIsInvisible | contentops/core/drift.py:140-150 | reading back is invisible to the comparison and stable on every nested value |
| Values.DiffWalkEmptyIffEqual | contentops/core/drift.py:176-192 | the walk reports nothing exactly for equal values |
| Values.DiffWalkNames | contentops/core/drift.py:176-192 | keys on one side only are reported as added or removed under their dotted path, deeper differences as well |
| Values.DiffEmptyIffMatch | contentops/core/drift.py:195-204 | the field report is empty exactly when the payloads match |
| PayloadMatching.MatchIffSame | contentops/core/drift.py:140-150 | two payloads match exactly when they are the same value: null, truth values and numbers equal, lists item by item, mappings key by key, texts line by line without trailing blanks and empty lines at the end |
| PayloadMatching.SameTextIff | contentops/core/drift.py:212-222 | two texts are equal to the comparison exactly when their lines are, whichever line breaks they use, without trailing blanks and empty lines at the end |
| PayloadMatching.DiffWalkReports | contentops/core/drift.py:176-192 | over mappings the walk reports exactly the added keys, the removed keys and what differs further down |
| PayloadMatching.DifferencesAreNamed | contentops/core/drift.py:176-192 | a difference anywhere in nested mappings is reported under the keys leading there with dots between them, as modified, added or removed |
| PayloadMatching.OneLineReadsBack | contentops/utils/yaml_io.py:32-55 | a text of one line and at most 80 characters reads back unchanged, a longer one loses only blanks at its end |
| Drift.LocalIndex | contentops/core/drift.py:121-137 | the loop registers each loadable envelope of the kind under its id and remote name, later paths winning |
| Drift.WorkingTree.DetectDrift | contentops/core/drift.py:226-301 | the report has one entry per rule with an id: new, changed or in sync, looked up by remote name and then by id |
| DriftReport.ReportOfOne | contentops/core/drift.py:263-301 | a rule is new when no loadable file registers its name or id, otherwise changed exactly when the deciding file's payload differs from the tenant's, and in sync when not |
| DriftReport.DifferenceIsReported | contentops/core/drift.py:226-301 | a rule whose file loads with a different payload is reported as changed, at that file |
| DriftReport.EveryRuleIsReported | contentops/core/drift.py:226-301 | the report holds the entry of every rule with an id and nothing else |
| Drift.WorkingTree.WriteDrift | contentops/core/drift.py:404-446 | new entries, then changed ones, are written to their targets and nothing else changes |
| DriftFixpoint.IndexIsLast | contentops/core/drift.py:121-137 | a key leads to the last file that registers it, and to none exactly when no file does |
| DriftFixpoint.ReimportedLoads | contentops/core/drift.py:420-428 | a re-imported file loads under its old id and the delivered remote name, with a matching payload |
| DriftFixpoint.NewLoads | contentops/core/drift.py:432-438 | a new file loads under the rule's id and remote name, with a matching payload |
| DriftFixpoint.StoredPayloadMatches | contentops/handlers/sentinel_playbook_models.py:370-387 | a payload split, dumped, read back and inlined again matches the original, playbook definitions included |
| DriftFixpoint.NoNewClaims | contentops/core/drift.py:263-284 | after writing, no other file registers a rule's keys that did not before |
| DriftFixpoint.InSyncAfter | contentops/core/drift.py:276-301 | a second comparison finds each rule in sync at the file it was matched to or given |
| DriftFixpoint.WritingIsAFixpoint | contentops/core/drift.py:226-301 | detect, write, detect again: nothing new, nothing changed, nothing to write |
| DriftFixpoint.OperatorFieldsSurvive | contentops/core/drift.py:304-321 | a re-import keeps the file's id and every metadata key the tenant does not deliver |
| DriftReport.DeliveredKeysAreWritten | contentops/core/drift.py:404-446 | every other top-level key a re-import writes is the tenant's, and keys the tenant does not deliver go |
| DriftReport.TenantMetadataWins | contentops/core/drift.py:404-446 | metadata the tenant delivers wins over the file's |
| VersionGate.BumpRaisesPatchOnce | contentops/core/drift.py:371-376 | a plain X.Y.Z becomes X.Y.(Z+1), plain again |
| VersionGate.ReimportedVersion | contentops/core/drift.py:345-357 | the written version is bumped exactly when the body or a sidecar changed |
| VersionGate.DriftShows | contentops/core/drift.py:449-471 | a drifted payload always shows in the body or in the sidecar |
| VersionGate.InlineStored | contentops/core/discovery.py:68-93 | inlining a stored sidecar gives back the definition that was dumped |
| VersionGate.ReimportPassesTheGate | scripts/check_version_bump.py:120-152 | every changed entry over a plain version is bumped once and accepted, whether body, sidecar or both changed |
| VersionGate.OtherVersionsAreRefused | scripts/check_version_bump.py:86-152 | a re-import that changes the body, or only the sidecar, is refused exactly when the version is not plain X.Y.Z |
| VersionGate.GateIff | scripts/check_version_bump.py:86-152 | a change is refused exactly when both sides parse, their versions show alike, and the sidecar changed or some other key did and both sides have a version |
| VersionGate.CosmeticEditPasses | scripts/check_version_bump.py:94-103 | documents that agree on every key but the version are never refused, unless the sidecar changed |
| VersionGate.UnchangedReimportPasses | scripts/check_version_bump.py:94-152 | a re-import that changes neither body nor sidecar passes whenever the stored file reads back to itself |
| VersionGate.SidecarUnderTwoPartsIsRefused | scripts/check_version_bump.py:138-152 | over version 1.0 a re-import that changes the sidecar alone is refused |
| VersionGate.NoChangeNoBump | contentops/core/drift.py:342-344 | an edit that leaves body and sidecars the same keeps the version |
| VersionGate.UnversionedIsExempt | scripts/check_version_bump.py:104-152 | a re-import over a file without a version is exempt whatever its body, but refused exactly when the sidecar changed |

## Left out

- AuditLog.Trail.WriteRecords: as a method it is the write of one writer alone; races are the subject of `AuditProtocol`.
- AuditLog.WalkFile: a break carries day, line, expected hash and reason, not the `actual_prev_hash` it also prints.
- JsonText.ReadDocOfWrite: lines with numbers, nested values or lone surrogates read as unreadable lines, although
  `json.loads` accepts them; no record the writer produces contains them.
- Timestamps.FormatParse: `strptime` also accepts fields without leading zeros, and `strftime` does not pad years
  before 1000; both are outside the format.
- AuditWrites.WriteVerifiesIff: the condition is exact for the fixed-width stamps the chain writes. Behind a stamp that
  only `strptime` parses, such as one of the year 999, the code bumps where the model leaves the candidate alone.
- WindowedFetch.ListWindowed: the page function is fixed; retries, throttling and progress logging are left out, and
  alerts carry an id and a creation time only.
- CoverageExtract.NormaliseId: letters and digits are ASCII; Python also folds and accepts others.
- CoverageExtract.ExtractMitre: sorted tuples are sets; reading tags out of payload and metadata is an input.
- CoverageReports.ComputeGaps: lists keep the order of the reference; sorting them, and curated or custom references,
  are left out.
- CoverageReports.FindOutside: the other diagnostics are unions of the same kind.
- AttackMatrix.RetiredIds: the tactic and technique rows of the data file, their names and their order.
- AlertMerge.MergeAlerts: logging, and `overlay_arm_incidents` and `enrich_from_graph`, which patch alerts in memory.
- AlertConservation.GraphSideIsConserved: with repeated ids inside one source the code can lose alerts; distinct ids
  are assumed.
- ArmOverlay.AlertStore.Overlay: parsing of the closing time is an input; the ledger's JSON text is not modelled.
- RuleTelemetry.TelemetryIndex.Lookup: only the five count columns; the other fields come from the first row.
- RuleTelemetry.MergeRows: columns absent from every row, and the list of contributing keys.
- TelemetrySums.RuleTotals: the query's time window and the display name it picks are inputs; the name matters only
  for the fallback by name.
- Values.Normalize: floats, dates and Python's equality of `True` and 1 are not modelled, and mapping keys are taken
  as they are.
- Drift.WorkingTree.DetectDrift: conversion, sorting and id disambiguation of the tenant's rules are done before, by
  the same functions in both runs; a kind whose listing fails is skipped.
- Drift.Load: of the envelope schema only id, kind, payload and remote name; the rest is one abstract check.
- Drift.Split: a `definitionFile` that is neither text nor absent is read as absent.
- Drift.WorkingTree.WriteDrift: the returned list names the envelopes, not the sidecars.
- VersionGate.Rejects: git is two inputs, the parsed file at head and at the merge base.
- HTTP, tokens, subprocesses, tar files and fsync: input and output.
- Renderers, badges, catalogue, command line, conformance probes: presentation.
- Orphan records, ledger pruning, snapshot differences, roll-up counts, status gating, suppression filters: easy
  members, or unrelated to these promises.
- `suppression_impact_query`: an incident with several related rules can match an id key and a name key there, so its
  sums carry no claim of this kind.
- Lifecycle text edits: regular expressions over a file layout that is not part of this model.
