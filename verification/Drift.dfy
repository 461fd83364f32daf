// Comparing the tenant's rules with the repository's files, and writing back what drifted.
module Drift {
  import opened Text
  import opened Values

  const PLAYBOOK := "sentinel_playbook"
  const SIDECAR_SUFFIX := ".workflow.json"

  /** A file as YAML reads it, with the sidecar files next to it that it names. A file that is no YAML mapping is a
      document without fields. */
  datatype File = File(doc: Doc, sidecars: map<string, string>)

  type Repo = map<string, File>

  /** What the engine takes from its surroundings: JSON for sidecars, the envelope schema, the discovery order of
      paths and the path of a new file. */
  datatype Env = Env(
    dumpJson: Value -> string, loadJson: string -> Option<Value>, accepts: Doc -> bool, rank: string -> int,
    place: (string, string) -> string)
  {
    ghost predicate Valid() {
      && (forall d: Value | d.Dict? :: loadJson(dumpJson(d)) == Some(d))
      && (forall p, q | rank(p) == rank(q) :: p == q)
    }
  }

  /** Python's truth value. */
  predicate Truthy(v: Value) {
    match v
    case Null => false
    case Bool(b) => b
    case Int(i) => i != 0
    case Str(s) => s != ""
    case List(items) => items != []
    case Dict(fields) => fields != map[]
  }

  function Field(d: Doc, k: string): Option<Value> {
    if k in d then Some(d[k]) else None
  }

  function Payload(d: Doc): Value {
    if "payload" in d then d["payload"] else Dict(map[])
  }

  // ---- loading a file ----

  datatype Loaded = Loaded(asset: string, id: string, armName: Option<string>, payload: Value)

  function ArmName(d: Doc): Option<string> {
    match Field(d, "metadata")
    case Some(Dict(m)) =>
      (match Field(m, "arm_name") case Some(Str(s)) => if s != "" then Some(s) else None case _ => None)
    case _ => None
  }

  predicate EndsWith(s: string, suffix: string) {
    |s| >= |suffix| && s[|s| - |suffix|..] == suffix
  }

  predicate BareName(s: string) {
    '/' !in s && '\\' !in s && EndsWith(s, SIDECAR_SUFFIX)
  }

  /** `_inline_playbook_sidecar`; None when the file cannot be loaded. */
  function Inline(env: Env, sidecars: map<string, string>, payload: Value): Option<Value> {
    if !payload.Dict? || "definitionFile" !in payload.fields || !Truthy(payload.fields["definitionFile"]) then
      Some(payload)
    else if "definition" in payload.fields then None
    else
      match payload.fields["definitionFile"]
      case Str(name) =>
        if !BareName(name) || name !in sidecars then None
        else
          (match env.loadJson(sidecars[name])
          case Some(Dict(d)) => Some(Dict((payload.fields - {"definitionFile"})["definition" := Dict(d)]))
          case _ => None)
      case _ => None
  }

  /** `load_asset`. */
  function Load(env: Env, f: File): (l: Option<Loaded>)
    ensures l.Some? ==> l.value.id != "" && Plain(l.value.id)
  {
    match (Field(f.doc, "id"), Field(f.doc, "asset"))
    case (Some(Str(id)), Some(Str(asset))) =>
      if !env.accepts(f.doc) || id == "" || !Plain(id) then None
      else if asset == PLAYBOOK then
        (match Inline(env, f.sidecars, Payload(f.doc))
        case Some(p) => Some(Loaded(asset, id, ArmName(f.doc), p))
        case None => None)
      else Some(Loaded(asset, id, ArmName(f.doc), Payload(f.doc)))
    case _ => None
  }

  // ---- the local index ----

  function Register(index: map<string, string>, l: Loaded, path: string): map<string, string> {
    var byId := index[l.id := path];
    if l.armName.Some? then byId[l.armName.value := path] else byId
  }

  /** The path each key leads to: an envelope registers its id and its remote name, and a later path wins. */
  function IndexOf(env: Env, repo: Repo, paths: seq<string>, asset: string): map<string, string> {
    if paths == [] then map[]
    else
      var before, path := IndexOf(env, repo, paths[..|paths| - 1], asset), paths[|paths| - 1];
      match if path in repo then Load(env, repo[path]) else None
      case None => before
      case Some(l) => if l.asset == asset then Register(before, l, path) else before
  }

  /** `_local_index`. */
  method LocalIndex(env: Env, repo: Repo, paths: seq<string>, asset: string) returns (index: map<string, string>)
    ensures index == IndexOf(env, repo, paths, asset)
  {
    index := map[];
    for i := 0 to |paths|
      invariant index == IndexOf(env, repo, paths[..i], asset)
    {
      assert paths[..i + 1][..i] == paths[..i];
      if paths[i] !in repo {
        continue;
      }
      var loaded := Load(env, repo[paths[i]]);
      if loaded.None? || loaded.value.asset != asset {
        continue;
      }
      index := index[loaded.value.id := paths[i]];
      if loaded.value.armName.Some? {
        index := index[loaded.value.armName.value := paths[i]];
      }
    }
    assert paths[..|paths|] == paths;
  }

  // ---- detecting ----

  /** One remote rule, converted and with its id made unique; `name` is its resource name, empty when it has none. */
  datatype Remote = Remote(asset: string, name: string, id: string, envelope: Doc)

  datatype EntryKind = New | Changed | InSync

  datatype Entry = Entry(asset: string, id: string, kind: EntryKind, envelope: Doc, path: Option<string>)

  function Named(r: Remote): Doc {
    r.envelope["id" := Str(r.id)]
  }

  /** The file a rule is matched to: by resource name first, then by envelope id. */
  function Match(index: map<string, string>, r: Remote): Option<string> {
    if r.name != "" && r.name in index then Some(index[r.name])
    else if r.id in index then Some(index[r.id])
    else None
  }

  function LocalPayload(env: Env, repo: Repo, path: string): Option<Value> {
    if path !in repo then None else match Load(env, repo[path]) case None => None case Some(l) => Some(l.payload)
  }

  function DetectOne(env: Env, repo: Repo, paths: seq<string>, r: Remote): Entry {
    match Match(IndexOf(env, repo, paths, r.asset), r)
    case None => Entry(r.asset, r.id, New, Named(r), None)
    case Some(path) =>
      match LocalPayload(env, repo, path)
      case Some(local) =>
        if PayloadsMatch(local, Payload(Named(r))) then Entry(r.asset, r.id, InSync, map[], Some(path))
        else Entry(r.asset, r.id, Changed, Named(r), Some(path))
      case None => Entry(r.asset, r.id, New, Named(r), None)
  }

  function Detect(env: Env, repo: Repo, paths: seq<string>, remotes: seq<Remote>): seq<Entry> {
    if remotes == [] then []
    else
      var before, r := Detect(env, repo, paths, remotes[..|remotes| - 1]), remotes[|remotes| - 1];
      if r.id == "" then before else before + [DetectOne(env, repo, paths, r)]
  }

  // ---- the on-disk form ----

  /** `split_sidecars` for playbooks: the definition moves to a sidecar; other kinds pass unchanged. */
  function Split(env: Env, envelope: Doc): (Doc, map<string, string>) {
    if Field(envelope, "asset") != Some(Str(PLAYBOOK)) then (envelope, map[])
    else
      var payload: map<string, Value> := match Payload(envelope) case Dict(p) => p case _ => map[];
      var rest := payload - {"definition"};
      if "definition" in payload && payload["definition"].Dict? then
        var name := SidecarName(envelope, payload);
        (envelope["payload" := Dict(rest["definitionFile" := Str(name)])],
         map[name := env.dumpJson(payload["definition"])])
      else (envelope["payload" := Dict(rest)], map[])
  }

  function SidecarName(envelope: Doc, payload: map<string, Value>): string {
    match Field(payload, "definitionFile")
    case Some(Str(s)) => if s != "" then s else IdText(envelope) + SIDECAR_SUFFIX
    case _ => IdText(envelope) + SIDECAR_SUFFIX
  }

  function IdText(envelope: Doc): string {
    match Field(envelope, "id") case Some(Str(s)) => s case _ => ""
  }

  // ---- re-importing over an existing file ----

  /** The operator's metadata stays; what the tenant knows wins. */
  function PreserveMetadata(envelope: Doc, local: Doc): Doc {
    match Field(local, "metadata")
    case Some(Dict(mine)) =>
      if mine == map[] then envelope
      else
        (match Field(envelope, "metadata")
        case Some(Dict(theirs)) => envelope["metadata" := Dict(mine + theirs)]
        case _ => envelope["metadata" := Dict(mine)])
    case _ => envelope
  }

  function PreserveId(envelope: Doc, local: Doc): Doc {
    if "id" in local && Truthy(local["id"]) then envelope["id" := local["id"]] else envelope
  }

  function Body(d: Doc): Doc {
    d - {"version"}
  }

  function BodyWithoutVersion(d: Doc): Doc {
    Body(ReadDoc(d))
  }

  /** The parts of a string between dots. */
  function SplitDots(s: string): (parts: seq<string>)
    ensures |parts| > 0
  {
    if s == [] then [[]]
    else
      var rest := SplitDots(s[1..]);
      if s[0] == '.' then [[]] + rest else [[s[0]] + rest[0]] + rest[1..]
  }

  predicate AllDigits(s: string) {
    s != "" && forall c | c in s :: IsDigit(c)
  }

  /** `X.Y.Z` in plain digits. */
  predicate PlainVersion(s: string) {
    |SplitDots(s)| == 3 && forall p | p in SplitDots(s) :: AllDigits(p)
  }

  function Decimal(n: nat): string {
    if n < 10 then [DigitChar(n)] else Decimal(n / 10) + [DigitChar(n % 10)]
  }

  function Number(s: string): nat {
    match DigitsValue(s) case Some(n) => n case None => 0
  }

  /** `_bump_patch`. */
  function BumpPatch(v: Value): Value {
    match v
    case Str(s) =>
      if PlainVersion(s) then
        var parts := SplitDots(s);
        Str(parts[0] + "." + parts[1] + "." + Decimal(Number(parts[2]) + 1))
      else v
    case _ => v
  }

  function PreserveVersion(envelope: Doc, local: Doc): Doc {
    if "version" !in local || !Truthy(local["version"]) then envelope
    else if BodyWithoutVersion(envelope["version" := local["version"]]) != BodyWithoutVersion(local) then
      envelope["version" := BumpPatch(local["version"])]
    else envelope["version" := local["version"]]
  }

  predicate SidecarsDiffer(sidecars: map<string, string>, disk: map<string, string>) {
    exists name | name in sidecars :: name !in disk || disk[name] != sidecars[name]
  }

  /** `_bump_for_changed_sidecars`: once, and only when the body did not earn a bump. */
  function BumpForSidecars(envelope: Doc, local: File, sidecars: map<string, string>): Doc {
    if sidecars == map[] || "version" !in local.doc || !Truthy(local.doc["version"])
       || Field(envelope, "version") != Some(local.doc["version"]) then envelope
    else if SidecarsDiffer(sidecars, local.sidecars) then envelope["version" := BumpPatch(local.doc["version"])]
    else envelope
  }

  /** A changed entry's envelope, before it is dumped. */
  function Reimported(local: File, onDisk: Doc, sidecars: map<string, string>): Doc {
    var kept := PreserveId(PreserveMetadata(onDisk, local.doc), local.doc);
    BumpForSidecars(PreserveVersion(kept, local.doc), local, sidecars)
  }

  // ---- writing ----

  function Target(env: Env, e: Entry): string {
    if e.path.Some? then e.path.value else env.place(e.asset, e.id)
  }

  /** What an entry leaves at its target. */
  function WrittenFile(env: Env, repo: Repo, e: Entry): File {
    var (onDisk, sidecars) := Split(env, e.envelope);
    var target := Target(env, e);
    var disk := if target in repo then repo[target].sidecars else map[];
    if e.path.Some? && target in repo then
      File(ReadDoc(Reimported(repo[target], onDisk, sidecars)), disk + sidecars)
    else File(ReadDoc(onDisk), disk + sidecars)
  }

  function WriteAll(env: Env, repo: Repo, entries: seq<Entry>): Repo {
    if entries == [] then repo
    else
      var before, e := WriteAll(env, repo, entries[..|entries| - 1]), entries[|entries| - 1];
      before[Target(env, e) := WrittenFile(env, before, e)]
  }

  function Targets(env: Env, entries: seq<Entry>): seq<string> {
    seq(|entries|, i requires 0 <= i < |entries| => Target(env, entries[i]))
  }

  function OfKind(entries: seq<Entry>, kind: EntryKind): seq<Entry> {
    if entries == [] then []
    else
      var before, e := OfKind(entries[..|entries| - 1], kind), entries[|entries| - 1];
      if e.kind == kind then before + [e] else before
  }

  /** One round of `write_drift`: the file an entry is written as. */
  method Rewrite(env: Env, repo: Repo, e: Entry, target: string) returns (f: File)
    requires target == Target(env, e)
    ensures f == WrittenFile(env, repo, e)
  {
    var (envelope, sidecars) := Split(env, e.envelope);
    var disk := if target in repo then repo[target].sidecars else map[];
    if e.path.Some? && target in repo {
      var local := repo[target];
      envelope := PreserveMetadata(envelope, local.doc);
      envelope := PreserveId(envelope, local.doc);
      envelope := PreserveVersion(envelope, local.doc);
      envelope := BumpForSidecars(envelope, local, sidecars);
    }
    f := File(ReadDoc(envelope), disk + sidecars);
  }

  /** The repository's working tree. */
  class WorkingTree {
    var files: Repo

    constructor (files: Repo)
      ensures this.files == files
    {
      this.files := files;
    }

    /** `detect_drift` for the rules of the handlers, one after the other. */
    method DetectDrift(env: Env, paths: seq<string>, remotes: seq<Remote>) returns (report: seq<Entry>)
      ensures report == Detect(env, files, paths, remotes)
    {
      report := [];
      for i := 0 to |remotes|
        invariant report == Detect(env, files, paths, remotes[..i])
      {
        assert remotes[..i + 1][..i] == remotes[..i];
        var r := remotes[i];
        if r.id == "" {
          continue;
        }
        var index := LocalIndex(env, files, paths, r.asset);
        var found := if r.name != "" && r.name in index then Some(index[r.name]) else None;
        if found.None? && r.id in index {
          found := Some(index[r.id]);
        }
        var local := if found.Some? then LocalPayload(env, files, found.value) else None;
        if local.None? {
          report := report + [Entry(r.asset, r.id, New, Named(r), None)];
        } else if PayloadsMatch(local.value, Payload(Named(r))) {
          report := report + [Entry(r.asset, r.id, InSync, map[], found)];
        } else {
          report := report + [Entry(r.asset, r.id, Changed, Named(r), found)];
        }
      }
      assert remotes[..|remotes|] == remotes;
    }

    /** `write_drift`: the new entries, then the changed ones. */
    method WriteDrift(env: Env, report: seq<Entry>) returns (written: seq<string>)
      modifies `files
      ensures files == WriteAll(env, old(files), OfKind(report, New) + OfKind(report, Changed))
      ensures written == Targets(env, OfKind(report, New) + OfKind(report, Changed))
    {
      var entries := OfKind(report, New) + OfKind(report, Changed);
      ghost var start := files;
      written := [];
      for i := 0 to |entries|
        invariant files == WriteAll(env, start, entries[..i]) && written == Targets(env, entries[..i])
      {
        assert entries[..i + 1][..i] == entries[..i];
        var e := entries[i];
        var target := Target(env, e);
        var f := Rewrite(env, files, e, target);
        files := files[target := f];
        written := written + [target];
      }
      assert entries[..|entries|] == entries;
    }
  }
}
