// What the drift report says about each rule, and what a re-import writes, field by field.
module DriftReport {
  import opened Text
  import opened Values
  import opened PayloadMatching
  import opened Drift
  import opened VersionGate
  import opened DriftFixpoint

  // ---- the report ----

  /** The payload of the file a rule is matched to differs from the tenant's. */
  ghost predicate DiffersAt(env: Env, repo: Repo, r: Remote, p: string) {
    && Decides(env, repo, r, p) && p in repo && Load(env, repo[p]).Some?
    && !SameValue(Load(env, repo[p]).value.payload, Payload(Named(r)))
  }

  /** A rule is new when no file that loads registers its resource name or its id; otherwise it is changed exactly
      when the payload of the file that decides differs from the tenant's, and in sync when it does not. */
  lemma ReportOfOne(env: Env, repo: Repo, paths: seq<string>, r: Remote)
    requires env.Valid() && Listed(env, repo, paths)
    ensures var e := DetectOne(env, repo, paths, r);
      && e.asset == r.asset && e.id == r.id && (e.kind == New <==> e.path.None?)
      && (e.kind == New <==> (r.name == "" || Nobody(env, repo, r.asset, r.name)) && Nobody(env, repo, r.asset, r.id))
      && (e.kind != New ==> Decides(env, repo, r, e.path.value))
      && (e.kind == Changed <==> e.path.Some? && DiffersAt(env, repo, r, e.path.value))
      && e.envelope == (if e.kind == InSync then map[] else Named(r))
  {
    MatchDecides(env, repo, paths, r);
    var found := Match(IndexOf(env, repo, paths, r.asset), r);
    if found.Some? {
      DecidedLoads(env, repo, r, found.value);
      MatchIffSame(Load(env, repo[found.value]).value.payload, Payload(Named(r)));
    }
  }

  lemma DecidedLoads(env: Env, repo: Repo, r: Remote, p: string)
    requires Decides(env, repo, r, p)
    ensures p in repo && Load(env, repo[p]).Some? && Load(env, repo[p]).value.asset == r.asset
    ensures Registers(env, repo[p], r.asset, r.id) || (r.name != "" && Registers(env, repo[p], r.asset, r.name))
  {
  }

  /** A rule whose file loads with a different payload is reported as changed, at that file. */
  lemma DifferenceIsReported(env: Env, repo: Repo, paths: seq<string>, remotes: seq<Remote>, r: Remote, p: string)
    requires env.Valid() && Listed(env, repo, paths) && r in remotes && r.id != "" && DiffersAt(env, repo, r, p)
    ensures Entry(r.asset, r.id, Changed, Named(r), Some(p)) in Detect(env, repo, paths, remotes)
  {
    DecidesMatch(env, repo, paths, r, p);
    ReportOfOne(env, repo, paths, r);
    EveryRuleIsReported(env, repo, paths, remotes, DetectOne(env, repo, paths, r));
  }

  /** The report holds the entry of every rule with an id, and nothing else. */
  lemma {:induction false} EveryRuleIsReported(env: Env, repo: Repo, paths: seq<string>, remotes: seq<Remote>, e: Entry)
    ensures e in Detect(env, repo, paths, remotes) <==>
      exists r :: r in remotes && r.id != "" && e == DetectOne(env, repo, paths, r)
  {
    if remotes != [] {
      var rest, last := remotes[..|remotes| - 1], remotes[|remotes| - 1];
      assert remotes == rest + [last] && last in remotes;
      EveryRuleIsReported(env, repo, paths, rest, e);
      forall r | r in rest ensures r in remotes {}
      forall r | r in remotes ensures r in rest || r == last {}
    }
  }

  function WithIds(remotes: seq<Remote>): nat {
    if remotes == [] then 0 else WithIds(remotes[..|remotes| - 1]) + if remotes[|remotes| - 1].id == "" then 0 else 1
  }

  lemma {:induction false} OneEntryEach(env: Env, repo: Repo, paths: seq<string>, remotes: seq<Remote>)
    ensures |Detect(env, repo, paths, remotes)| == WithIds(remotes)
  {
    if remotes != [] {
      OneEntryEach(env, repo, paths, remotes[..|remotes| - 1]);
    }
  }

  // ---- which files load ----

  /** A playbook that carries a definition beside the name of a sidecar does not load, nor one whose sidecar is
      missing, not named plainly or no JSON object; a playbook that names none, and every other kind, loads with its
      payload as it is. */
  lemma WhatLoads(env: Env, f: File, id: string, asset: string)
    requires env.accepts(f.doc) && id != "" && Plain(id)
    requires Field(f.doc, "id") == Some(Str(id)) && Field(f.doc, "asset") == Some(Str(asset))
    ensures asset != PLAYBOOK ==> Load(env, f).Some? && Load(env, f).value.payload == Payload(f.doc)
    ensures asset == PLAYBOOK ==>
      match Payload(f.doc)
      case Dict(p) =>
        if "definitionFile" !in p || !Truthy(p["definitionFile"]) then
          Load(env, f).Some? && Load(env, f).value.payload == Payload(f.doc)
        else
          (Load(env, f).Some? <==>
            && "definition" !in p && p["definitionFile"].Str? && BareName(p["definitionFile"].s)
            && p["definitionFile"].s in f.sidecars
            && env.loadJson(f.sidecars[p["definitionFile"].s]).Some?
            && env.loadJson(f.sidecars[p["definitionFile"].s]).value.Dict?)
      case _ => Load(env, f).Some?
    ensures Load(env, f).Some? ==> Load(env, f).value.id == id && Load(env, f).value.asset == asset
  {
  }

  /** A file without a usable id or kind, or refused by the schema, does not load. */
  lemma WhatDoesNot(env: Env, f: File)
    ensures Load(env, f).Some? ==>
      && env.accepts(f.doc)
      && (match Field(f.doc, "id") case Some(Str(s)) => s != "" && Plain(s) case _ => false)
      && (match Field(f.doc, "asset") case Some(Str(_)) => true case _ => false)
      && Load(env, f).value.armName == ArmName(f.doc)
  {
  }

  /** A sidecar's name: some stem and the suffix, without a slash or backslash. */
  lemma BareNameIff(name: string)
    ensures BareName(name) <==>
      && (forall c | c in name :: c != '/' && c != '\\')
      && exists stem :: name == stem + ".workflow.json"
  {
    if BareName(name) {
      assert name == name[..|name| - |SIDECAR_SUFFIX|] + ".workflow.json";
    }
    if stem :| name == stem + ".workflow.json" {
      assert name[|stem|..] == ".workflow.json";
    }
  }

  /** Six values count as absent. */
  lemma AbsentValues(v: Value)
    ensures Truthy(v) <==> v !in {Null, Bool(false), Int(0), Str(""), List([]), Dict(map[])}
  {
  }

  // ---- what a re-import writes ----

  /** Every key the tenant delivers is written, but for the id, the metadata and the version, which the file decides,
      and the payload, whose definition moves to a sidecar; keys the tenant does not deliver go. */
  lemma DeliveredKeysAreWritten(env: Env, local: File, r: Remote, k: string)
    requires k !in {"id", "metadata", "version", "payload"}
    ensures var (onDisk, sidecars) := Split(env, Named(r));
      Field(ReadDoc(Reimported(local, onDisk, sidecars)), k) == ReadField(r.envelope, k)
  {
    var (onDisk, sidecars) := Split(env, Named(r));
    SplitKeeps(env, Named(r), k);
    OnlyVersionIsDecided(local, onDisk, sidecars, k);
    KeptFields(local.doc, onDisk, k);
    ReadMap(Reimported(local, onDisk, sidecars), k);
  }

  function ReadField(d: Doc, k: string): Option<Value> {
    match Field(d, k) case None => None case Some(v) => Some(Readback(v))
  }

  /** A new file holds what the tenant delivers, under the rule's id. */
  lemma NewFilesAreDelivered(env: Env, repo: Repo, r: Remote, k: string)
    requires k != "payload"
    ensures Field(WrittenFile(env, repo, Entry(r.asset, r.id, New, Named(r), None)).doc, k) ==
      if k == "id" then Some(Readback(Str(r.id))) else ReadField(r.envelope, k)
  {
    SplitKeeps(env, Named(r), k);
    ReadMap(Split(env, Named(r)).0, k);
  }

  /** Metadata the tenant delivers wins over the file's. */
  lemma TenantMetadataWins(env: Env, local: File, r: Remote, k: string)
    requires Field(local.doc, "id").Some? && Truthy(local.doc["id"]) && Delivers(r, k)
    ensures var (onDisk, sidecars) := Split(env, Named(r));
      match Field(ReadDoc(Reimported(local, onDisk, sidecars)), "metadata")
      case Some(Dict(m)) => k in m && m[k] == Readback(r.envelope["metadata"].fields[k])
      case _ => false
  {
    var (onDisk, sidecars) := Split(env, Named(r));
    ReimportedFields(env, local, r);
    ReadMap(Reimported(local, onDisk, sidecars), "metadata");
    DeliveredKey(local.doc, r, k);
  }

  lemma DeliveredKey(local: Doc, r: Remote, k: string)
    requires Delivers(r, k)
    ensures match Field(PreserveMetadata(Named(r), local), "metadata")
      case Some(Dict(m)) => k in m && m[k] == r.envelope["metadata"].fields[k]
      case _ => false
  {
  }

  /** A file without metadata of its own leaves the tenant's as it is, and adds none. */
  lemma NothingToPreserve(envelope: Doc, local: Doc)
    requires match Field(local, "metadata") case Some(Dict(m)) => m == map[] case _ => true
    ensures PreserveMetadata(envelope, local) == envelope
  {
  }

  /** Nobody else's metadata: a key that is written comes from the file or from the tenant. */
  lemma MetadataComesFromEither(env: Env, local: File, r: Remote, k: string)
    requires Field(local.doc, "id").Some? && Truthy(local.doc["id"])
    requires var (onDisk, sidecars) := Split(env, Named(r));
      match Field(ReadDoc(Reimported(local, onDisk, sidecars)), "metadata") case Some(Dict(m)) => k in m case _ => false
    ensures Delivers(r, k) || match Field(local.doc, "metadata") case Some(Dict(m)) => k in m case _ => false
  {
    var (onDisk, sidecars) := Split(env, Named(r));
    ReimportedFields(env, local, r);
    ReadMap(Reimported(local, onDisk, sidecars), "metadata");
  }

  /** The name a playbook's definition is stored under: the one the payload gives, or one made from the id. */
  predicate StoredAs(envelope: Doc, payload: Doc, name: string) {
    match Field(payload, "definitionFile")
    case Some(Str(given)) => if given != "" then name == given else name == IdText(envelope) + ".workflow.json"
    case _ => name == IdText(envelope) + ".workflow.json"
  }

  /** Splitting a playbook: its definition leaves the payload; a mapping is dumped to a sidecar that the payload then
      names. Everything else stays as it is. */
  lemma SplitIs(env: Env, envelope: Doc, payload: Doc, k: string)
    requires Field(envelope, "asset") == Some(Str("sentinel_playbook"))
    requires Field(envelope, "payload") == Some(Dict(payload))
    ensures var (onDisk, sidecars) := Split(env, envelope);
      && (k != "payload" ==> Field(onDisk, k) == Field(envelope, k))
      && Payload(onDisk).Dict?
      && var rest := Payload(onDisk).fields;
      && "definition" !in rest
      && (k !in {"definition", "definitionFile"} ==> Field(rest, k) == Field(payload, k))
      && (match Field(payload, "definition")
          case Some(Dict(d)) =>
            exists name :: StoredAs(envelope, payload, name)
              && sidecars == map[name := env.dumpJson(Dict(d))] && Field(rest, "definitionFile") == Some(Str(name))
          case _ => sidecars == map[] && Field(rest, "definitionFile") == Field(payload, "definitionFile"))
  {
    assert Payload(envelope) == Dict(payload);
    if Field(payload, "definition").Some? && payload["definition"].Dict? {
      assert StoredAs(envelope, payload, SidecarName(envelope, payload));
    }
  }

  /** Other kinds are stored as they are. */
  lemma OthersAreNotSplit(env: Env, envelope: Doc)
    requires Field(envelope, "asset") != Some(Str("sentinel_playbook"))
    ensures Split(env, envelope) == (envelope, map[])
  {
  }

  /** Sidecars: the file keeps those it had, and a playbook's definition is written under its id's name. */
  lemma SidecarsAreWritten(env: Env, repo: Repo, r: Remote, e: Entry)
    requires e.envelope == Named(r) && Field(r.envelope, "asset") == Some(Str(r.asset)) && PlaybookShape(r.envelope)
    ensures var f := WrittenFile(env, repo, e);
      var disk := if Target(env, e) in repo then repo[Target(env, e)].sidecars else map[];
      f.sidecars == if r.asset == PLAYBOOK
        then disk[r.id + SIDECAR_SUFFIX := env.dumpJson(Payload(r.envelope).fields["definition"])] else disk
  {
    if r.asset == PLAYBOOK {
      SplitPlaybook(env, Named(r));
      assert Payload(Named(r)) == Payload(r.envelope);
    }
  }
}
