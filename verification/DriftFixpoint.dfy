// Writing back what drifted settles it: a second comparison finds nothing new and nothing changed.
module DriftFixpoint {
  import opened Text
  import opened Values
  import opened Drift
  import opened VersionGate

  // ---- the index leads to the last file that registers a key ----

  predicate Registers(env: Env, f: File, asset: string, k: string) {
    match Load(env, f)
    case Some(l) => l.asset == asset && (k == l.id || l.armName == Some(k))
    case None => false
  }

  predicate InOrder(env: Env, paths: seq<string>) {
    forall i, j | 0 <= i < j < |paths| :: env.rank(paths[i]) < env.rank(paths[j])
  }

  /** The files in discovery order. */
  ghost predicate Listed(env: Env, repo: Repo, paths: seq<string>) {
    InOrder(env, paths) && forall p :: p in paths <==> p in repo
  }

  ghost predicate Last(env: Env, repo: Repo, paths: seq<string>, asset: string, k: string, p: string) {
    && p in paths && p in repo && Registers(env, repo[p], asset, k)
    && forall q | q in paths && q in repo && Registers(env, repo[q], asset, k) :: env.rank(q) <= env.rank(p)
  }

  lemma IndexStep(env: Env, repo: Repo, paths: seq<string>, asset: string, k: string)
    requires paths != []
    ensures var before, p := IndexOf(env, repo, paths[..|paths| - 1], asset), paths[|paths| - 1];
      Leads(IndexOf(env, repo, paths, asset), k) ==
        if p in repo && Registers(env, repo[p], asset, k) then Some(p) else Leads(before, k)
  {
  }

  function Leads(m: map<string, string>, k: string): Option<string> {
    if k in m then Some(m[k]) else None
  }

  lemma {:induction false} IndexIsLast(env: Env, repo: Repo, paths: seq<string>, asset: string, k: string)
    requires InOrder(env, paths)
    ensures match Leads(IndexOf(env, repo, paths, asset), k)
      case Some(p) => Last(env, repo, paths, asset, k, p)
      case None => forall q | q in paths && q in repo :: !Registers(env, repo[q], asset, k)
  {
    if paths != [] {
      var rest, p := paths[..|paths| - 1], paths[|paths| - 1];
      assert paths == rest + [p];
      IndexIsLast(env, repo, rest, asset, k);
      IndexStep(env, repo, paths, asset, k);
      forall q | q in rest ensures env.rank(q) < env.rank(p) {
        var i :| 0 <= i < |rest| && rest[i] == q;
        assert paths[i] == q;
      }
      assert forall q | q in paths :: q in rest || q == p;
    }
  }

  ghost predicate Wins(env: Env, repo: Repo, asset: string, k: string, p: string) {
    && p in repo && Registers(env, repo[p], asset, k)
    && forall q | q in repo && Registers(env, repo[q], asset, k) :: env.rank(q) <= env.rank(p)
  }

  ghost predicate Nobody(env: Env, repo: Repo, asset: string, k: string) {
    forall q | q in repo :: !Registers(env, repo[q], asset, k)
  }

  lemma IndexWins(env: Env, repo: Repo, paths: seq<string>, asset: string, k: string)
    requires Listed(env, repo, paths)
    ensures k in IndexOf(env, repo, paths, asset) ==> Wins(env, repo, asset, k, IndexOf(env, repo, paths, asset)[k])
    ensures k !in IndexOf(env, repo, paths, asset) ==> Nobody(env, repo, asset, k)
  {
    IndexIsLast(env, repo, paths, asset, k);
  }

  lemma WinnerIsIndexed(env: Env, repo: Repo, paths: seq<string>, asset: string, k: string, p: string)
    requires env.Valid() && Listed(env, repo, paths) && Wins(env, repo, asset, k, p)
    ensures k in IndexOf(env, repo, paths, asset) && IndexOf(env, repo, paths, asset)[k] == p
  {
    IndexWins(env, repo, paths, asset, k);
    var q := IndexOf(env, repo, paths, asset)[k];
    assert env.rank(p) == env.rank(q);
  }

  /** What decides a match: the winner of the resource name, else of the id. */
  ghost predicate Decides(env: Env, repo: Repo, r: Remote, p: string) {
    if r.name != "" && !Nobody(env, repo, r.asset, r.name) then Wins(env, repo, r.asset, r.name, p)
    else Wins(env, repo, r.asset, r.id, p)
  }

  lemma MatchDecides(env: Env, repo: Repo, paths: seq<string>, r: Remote)
    requires env.Valid() && Listed(env, repo, paths)
    ensures Match(IndexOf(env, repo, paths, r.asset), r).Some? ==>
      Decides(env, repo, r, Match(IndexOf(env, repo, paths, r.asset), r).value)
    ensures Match(IndexOf(env, repo, paths, r.asset), r).None? ==>
      (r.name == "" || Nobody(env, repo, r.asset, r.name)) && Nobody(env, repo, r.asset, r.id)
  {
    IndexWins(env, repo, paths, r.asset, r.name);
    IndexWins(env, repo, paths, r.asset, r.id);
  }

  lemma DecidesMatch(env: Env, repo: Repo, paths: seq<string>, r: Remote, p: string)
    requires env.Valid() && Listed(env, repo, paths) && Decides(env, repo, r, p)
    ensures Match(IndexOf(env, repo, paths, r.asset), r) == Some(p)
  {
    IndexWins(env, repo, paths, r.asset, r.name);
    if r.name != "" && !Nobody(env, repo, r.asset, r.name) {
      WinnerIsIndexed(env, repo, paths, r.asset, r.name, p);
    } else {
      WinnerIsIndexed(env, repo, paths, r.asset, r.id, p);
    }
  }

  // ---- what a written file loads as ----

  predicate HasArm(r: Remote) {
    match Field(r.envelope, "metadata") case Some(Dict(m)) => "arm_name" in m case _ => false
  }

  /** What converting a remote rule delivers: its kind, its resource name if any as the remote name, an id fit for a
      file name, and for a playbook its definition. */
  predicate Delivered(r: Remote) {
    && r.id != "" && Plain(r.id) && Plain(r.name) && Plain(r.asset) && BareName(r.id + SIDECAR_SUFFIX)
    && Field(r.envelope, "asset") == Some(Str(r.asset)) && PlaybookShape(r.envelope)
    && (match Field(r.envelope, "metadata")
        case Some(Dict(m)) => "arm_name" in m ==> r.name != "" && m["arm_name"] == Str(r.name)
        case _ => true)
  }

  lemma {:induction false} ReadMap(d: Doc, k: string)
    ensures Field(ReadDoc(d), k) == match Field(d, k) case None => None case Some(v) => Some(Readback(v))
  {
  }

  lemma ReadArm(d: Doc)
    requires ArmName(d).Some? ==> Plain(ArmName(d).value)
    requires ArmName(d).None? ==> HasNoArm(d)
    ensures ArmName(ReadDoc(d)) == ArmName(d)
  {
    ReadMap(d, "metadata");
    match Field(d, "metadata")
    case Some(Dict(m)) =>
      assert Readback(Dict(m)) == Dict(ReadDoc(m));
      ReadMap(m, "arm_name");
      if ArmName(d).Some? {
        ReadStringOfPlain(ArmName(d).value);
      }
    case _ =>
  }

  /** No remote name, and nothing that would read back as one. */
  predicate HasNoArm(d: Doc) {
    match Field(d, "metadata")
    case Some(Dict(m)) => (match Field(m, "arm_name") case Some(Str(s)) => s == "" case _ => true)
    case _ => true
  }

  lemma NoArm(d: Doc)
    ensures ArmName(d).None? <==> HasNoArm(d)
  {
  }

  /** The remote name after merging metadata: the tenant's when it delivers one, else the file's. */
  lemma MergedArm(r: Remote, local: Doc)
    requires Delivered(r)
    ensures ArmName(PreserveMetadata(Named(r), local)) == if HasArm(r) then Some(r.name) else ArmName(local)
  {
    match Field(local, "metadata")
    case Some(Dict(mine)) =>
      match Field(r.envelope, "metadata") {
        case Some(Dict(theirs)) =>
          assert Field(mine + theirs, "arm_name") ==
            if "arm_name" in theirs then Some(theirs["arm_name"]) else Field(mine, "arm_name");
        case _ =>
      }
    case _ =>
  }

  lemma NewArm(r: Remote)
    requires Delivered(r)
    ensures ArmName(Named(r)) == if HasArm(r) then Some(r.name) else None
  {
  }

  /** Splitting touches the payload only. */
  lemma SplitKeeps(env: Env, envelope: Doc, k: string)
    requires k != "payload"
    ensures Field(Split(env, envelope).0, k) == Field(envelope, k)
  {
  }

  lemma ArmOfMetadata(a: Doc, b: Doc)
    requires Field(a, "metadata") == Field(b, "metadata")
    ensures ArmName(a) == ArmName(b)
  {
  }

  lemma OnlyVersionIsDecided(local: File, onDisk: Doc, sidecars: map<string, string>, k: string)
    requires k != "version"
    ensures Field(Reimported(local, onDisk, sidecars), k) == Field(Kept(local, onDisk), k)
  {
  }

  lemma KeptFields(local: Doc, onDisk: Doc, k: string)
    requires k != "id" && k != "metadata"
    ensures Field(PreserveId(PreserveMetadata(onDisk, local), local), k) == Field(onDisk, k)
  {
  }

  lemma KeptId(local: Doc, onDisk: Doc)
    requires Field(local, "id").Some? && Truthy(local["id"])
    ensures Field(PreserveId(PreserveMetadata(onDisk, local), local), "id") == Field(local, "id")
  {
  }

  lemma KeptMetadata(local: Doc, onDisk: Doc, named: Doc)
    requires Field(onDisk, "metadata") == Field(named, "metadata")
    ensures Field(PreserveId(PreserveMetadata(onDisk, local), local), "metadata") ==
      Field(PreserveMetadata(named, local), "metadata")
  {
  }

  lemma ReimportedFields(env: Env, local: File, r: Remote)
    requires Field(local.doc, "id").Some? && Truthy(local.doc["id"])
    ensures var (onDisk, sidecars) := Split(env, Named(r));
      var re := Reimported(local, onDisk, sidecars);
      && Field(re, "id") == Field(local.doc, "id")
      && Field(re, "asset") == Field(r.envelope, "asset")
      && Field(re, "metadata") == Field(PreserveMetadata(Named(r), local.doc), "metadata")
      && Field(re, "payload") == Field(onDisk, "payload")
  {
    var (onDisk, sidecars) := Split(env, Named(r));
    SplitKeeps(env, Named(r), "asset");
    SplitKeeps(env, Named(r), "metadata");
    OnlyVersionIsDecided(local, onDisk, sidecars, "id");
    OnlyVersionIsDecided(local, onDisk, sidecars, "asset");
    OnlyVersionIsDecided(local, onDisk, sidecars, "metadata");
    OnlyVersionIsDecided(local, onDisk, sidecars, "payload");
    KeptId(local.doc, onDisk);
    KeptMetadata(local.doc, onDisk, Named(r));
    KeptFields(local.doc, onDisk, "asset");
    KeptFields(local.doc, onDisk, "payload");
  }

  /** The payload of a written file, loaded again, matches the tenant's. */
  lemma StoredPayloadMatches(env: Env, r: Remote, sidecars: map<string, string>)
    requires env.Valid() && Delivered(r)
    requires forall name | name in Split(env, Named(r)).1 ::
      name in sidecars && sidecars[name] == Split(env, Named(r)).1[name]
    ensures var stored := Readback(Payload(Split(env, Named(r)).0));
      if r.asset == PLAYBOOK
      then Inline(env, sidecars, stored).Some? && PayloadsMatch(Inline(env, sidecars, stored).value, Payload(Named(r)))
      else PayloadsMatch(stored, Payload(Named(r)))
  {
    if r.asset == PLAYBOOK {
      var p, name := Payload(Named(r)).fields, r.id + SIDECAR_SUFFIX;
      SplitPlaybook(env, Named(r));
      var q := StoredPayload(p, name);
      assert Readback(Dict(q)) == Dict(ReadDoc(q));
      PlainName(r.id);
      ReadStringOfPlain(name);
      assert name in Split(env, Named(r)).1;
      InlineStored(env, sidecars, ReadDoc(q), name, p["definition"]);
      ReadFieldsTwice(q);
      SameInlined(p, ReadDoc(q), name, Inline(env, sidecars, Dict(ReadDoc(q))).value);
    } else {
      ReadbackIsInvisible(Payload(Named(r)));
    }
  }

  lemma ReadFieldsTwice(q: Doc)
    ensures forall k | k in q :: Readback(ReadDoc(q)[k]) == Readback(q[k])
  {
    forall k | k in q ensures Readback(ReadDoc(q)[k]) == Readback(q[k]) {
      ReadbackIsInvisible(q[k]);
    }
  }

  lemma ReadPayload(d: Doc)
    ensures Payload(ReadDoc(d)) == Readback(Payload(d))
  {
  }

  /** A file over which a rule is re-imported: it loads, and its remote name has no blanks. */
  predicate Local(env: Env, f: File, r: Remote) {
    && Load(env, f).Some? && Load(env, f).value.asset == r.asset
    && (ArmName(f.doc).Some? ==> Plain(ArmName(f.doc).value))
  }

  /** A file re-imported for `r` loads under its old id, under the tenant's remote name when it delivers one, and its
      payload matches. */
  lemma ReimportedLoads(env: Env, local: File, r: Remote)
    requires env.Valid() && Delivered(r) && Local(env, local, r)
    ensures var (onDisk, sidecars) := Split(env, Named(r));
      var f := File(ReadDoc(Reimported(local, onDisk, sidecars)), local.sidecars + sidecars);
      env.accepts(f.doc) ==>
        && Load(env, f).Some? && Load(env, f).value.asset == r.asset
        && Load(env, f).value.id == Load(env, local).value.id
        && Load(env, f).value.armName == (if HasArm(r) then Some(r.name) else Load(env, local).value.armName)
        && PayloadsMatch(Load(env, f).value.payload, Payload(Named(r)))
  {
    var (onDisk, sidecars) := Split(env, Named(r));
    var re := Reimported(local, onDisk, sidecars);
    var id := Load(env, local).value.id;
    ReimportedFields(env, local, r);
    MergedArm(r, local.doc);
    ArmOfMetadata(re, PreserveMetadata(Named(r), local.doc));
    LoadsAs(env, re, local.sidecars + sidecars, r, id);
    PayloadOfField(re, onDisk);
  }

  lemma PayloadOfField(a: Doc, b: Doc)
    requires Field(a, "payload") == Field(b, "payload")
    ensures Payload(a) == Payload(b)
  {
  }

  lemma NewLoads(env: Env, r: Remote, disk: map<string, string>)
    requires env.Valid() && Delivered(r)
    ensures var (onDisk, sidecars) := Split(env, Named(r));
      var f := File(ReadDoc(onDisk), disk + sidecars);
      env.accepts(f.doc) ==>
        && Load(env, f).Some? && Load(env, f).value.asset == r.asset && Load(env, f).value.id == r.id
        && Load(env, f).value.armName == (if HasArm(r) then Some(r.name) else None)
        && PayloadsMatch(Load(env, f).value.payload, Payload(Named(r)))
  {
    var (onDisk, sidecars) := Split(env, Named(r));
    SplitKeeps(env, Named(r), "id");
    SplitKeeps(env, Named(r), "asset");
    SplitKeeps(env, Named(r), "metadata");
    NewArm(r);
    ArmOfMetadata(onDisk, Named(r));
    LoadsAs(env, onDisk, disk + sidecars, r, r.id);
  }

  /** A document with the right fields, written and loaded. */
  lemma LoadsAs(env: Env, d: Doc, sidecars: map<string, string>, r: Remote, id: string)
    requires env.Valid() && Delivered(r) && id != "" && Plain(id)
    requires Field(d, "id") == Some(Str(id)) && Field(d, "asset") == Some(Str(r.asset))
    requires Payload(d) == Payload(Split(env, Named(r)).0)
    requires ArmName(d).Some? ==> Plain(ArmName(d).value)
    requires forall name | name in Split(env, Named(r)).1 ::
      name in sidecars && sidecars[name] == Split(env, Named(r)).1[name]
    ensures var f := File(ReadDoc(d), sidecars);
      env.accepts(f.doc) ==>
        && Load(env, f).Some? && Load(env, f).value.asset == r.asset && Load(env, f).value.id == id
        && Load(env, f).value.armName == ArmName(d)
        && PayloadsMatch(Load(env, f).value.payload, Payload(Named(r)))
  {
    var f := File(ReadDoc(d), sidecars);
    ReadMap(d, "id");
    ReadMap(d, "asset");
    ReadStringOfPlain(id);
    ReadStringOfPlain(r.asset);
    NoArm(d);
    ReadArm(d);
    ReadPayload(d);
    StoredPayloadMatches(env, r, sidecars);
  }

  // ---- the state after writing ----

  predicate Apart(env: Env, es: seq<Entry>) {
    forall i, j | 0 <= i < j < |es| :: Target(env, es[i]) != Target(env, es[j])
  }

  /** A path that is no target is left alone. */
  lemma {:induction false} Untouched(env: Env, repo: Repo, es: seq<Entry>, p: string)
    requires forall i | 0 <= i < |es| :: Target(env, es[i]) != p
    ensures (p in WriteAll(env, repo, es) <==> p in repo) && (p in repo ==> WriteAll(env, repo, es)[p] == repo[p])
  {
    if es != [] {
      Untouched(env, repo, es[..|es| - 1], p);
    }
  }

  lemma SameStart(env: Env, a: Repo, b: Repo, e: Entry)
    requires Target(env, e) in a <==> Target(env, e) in b
    requires Target(env, e) in a ==> a[Target(env, e)] == b[Target(env, e)]
    ensures WrittenFile(env, a, e) == WrittenFile(env, b, e)
  {
  }

  /** With different targets, each entry is written over what was there before. */
  lemma {:induction false} WrittenOnce(env: Env, repo: Repo, es: seq<Entry>, i: nat)
    requires Apart(env, es) && i < |es|
    ensures Target(env, es[i]) in WriteAll(env, repo, es)
    ensures WriteAll(env, repo, es)[Target(env, es[i])] == WrittenFile(env, repo, es[i])
  {
    var rest := es[..|es| - 1];
    if i < |rest| {
      assert rest[i] == es[i];
      WrittenOnce(env, repo, rest, i);
    } else {
      Untouched(env, repo, rest, Target(env, es[i]));
      SameStart(env, repo, WriteAll(env, repo, rest), es[i]);
    }
  }

  /** After writing: a target holds what its entry leaves there, any other path what it held before. */
  lemma WrittenAt(env: Env, repo: Repo, es: seq<Entry>, p: string)
    requires Apart(env, es)
    ensures (forall e | e in es :: Target(env, e) != p) ==>
      (p in WriteAll(env, repo, es) <==> p in repo) && (p in repo ==> WriteAll(env, repo, es)[p] == repo[p])
    ensures forall e | e in es && Target(env, e) == p ::
      p in WriteAll(env, repo, es) && WriteAll(env, repo, es)[p] == WrittenFile(env, repo, e)
  {
    if forall e | e in es :: Target(env, e) != p {
      Untouched(env, repo, es, p);
    }
    forall e | e in es && Target(env, e) == p
      ensures p in WriteAll(env, repo, es) && WriteAll(env, repo, es)[p] == WrittenFile(env, repo, e)
    {
      var i :| 0 <= i < |es| && es[i] == e;
      WrittenOnce(env, repo, es, i);
    }
  }

  lemma {:induction false} OfKindApart(env: Env, es: seq<Entry>, kind: EntryKind)
    requires Apart(env, es)
    ensures Apart(env, OfKind(es, kind)) && forall e :: e in OfKind(es, kind) <==> e in es && e.kind == kind
  {
    if es != [] {
      var rest, e := es[..|es| - 1], es[|es| - 1];
      assert es == rest + [e];
      OfKindApart(env, rest, kind);
      forall x | x in rest ensures Target(env, x) != Target(env, e) {
        var i :| 0 <= i < |rest| && rest[i] == x;
        assert es[i] == x;
      }
    }
  }

  function ToWrite(es: seq<Entry>): seq<Entry> {
    OfKind(es, New) + OfKind(es, Changed)
  }

  lemma ToWriteApart(env: Env, es: seq<Entry>)
    requires Apart(env, es)
    ensures Apart(env, ToWrite(es)) && forall e :: e in ToWrite(es) <==> e in es && e.kind != InSync
  {
    var a, b := OfKind(es, New), OfKind(es, Changed);
    OfKindApart(env, es, New);
    OfKindApart(env, es, Changed);
    forall x, y | x in a && y in b ensures Target(env, x) != Target(env, y) {
      DifferentTargets(env, es, x, y);
    }
    forall i, j | 0 <= i < j < |a + b| ensures Target(env, (a + b)[i]) != Target(env, (a + b)[j]) {
      if i < |a| && j >= |a| {
        assert (a + b)[i] in a && (a + b)[j] in b;
      }
    }
    forall e ensures e in ToWrite(es) <==> e in es && e.kind != InSync {
      assert e.kind.New? || e.kind.Changed? || e.kind.InSync?;
    }
  }

  lemma DifferentTargets(env: Env, es: seq<Entry>, x: Entry, y: Entry)
    requires Apart(env, es) && x in es && y in es && x != y
    ensures Target(env, x) != Target(env, y)
  {
    var i :| 0 <= i < |es| && es[i] == x;
    var j :| 0 <= j < |es| && es[j] == y;
    assert i < j || j < i;
  }

  // ---- the second comparison ----

  predicate IsKey(r: Remote, k: string) {
    k != "" && (k == r.id || k == r.name)
  }

  /** Two rules of a kind share no key. */
  predicate KeysApart(r: Remote, s: Remote) {
    r.asset == s.asset ==> !IsKey(s, r.id) && !IsKey(s, r.name)
  }

  /** The rules with an id are delivered as promised, share no keys, and each is matched to a file of its own or given
      an unoccupied path of its own; what is written satisfies the envelope schema. */
  ghost predicate Separate(env: Env, repo: Repo, paths: seq<string>, remotes: seq<Remote>) {
    var es := Detect(env, repo, paths, remotes);
    && (forall r | r in remotes && r.id != "" :: Delivered(r))
    && (forall r, s | r in remotes && s in remotes && r.id != "" && s.id != "" && r != s :: KeysApart(r, s))
    && Apart(env, es)
    && (forall e | e in es && e.kind == New :: Target(env, e) !in repo)
    && (forall e | e in es && e.path.Some? && e.path.value in repo :: NoBlanks(ArmName(repo[e.path.value].doc)))
    && (forall e | e in es && e.kind != InSync :: env.accepts(WrittenFile(env, repo, e).doc))
  }

  predicate NoBlanks(name: Option<string>) {
    name.Some? ==> Plain(name.value)
  }

  function After(env: Env, repo: Repo, paths: seq<string>, remotes: seq<Remote>): Repo {
    WriteAll(env, repo, ToWrite(Detect(env, repo, paths, remotes)))
  }

  lemma {:induction false} DetectHolds(env: Env, repo: Repo, paths: seq<string>, remotes: seq<Remote>, e: Entry)
    ensures e in Detect(env, repo, paths, remotes) <==>
      exists r :: r in remotes && r.id != "" && e == DetectOne(env, repo, paths, r)
  {
    if remotes != [] {
      var rest, last := remotes[..|remotes| - 1], remotes[|remotes| - 1];
      assert remotes == rest + [last];
      DetectHolds(env, repo, paths, rest, e);
      assert forall r :: r in remotes <==> r in rest || r == last;
    }
  }

  /** How a rule stands before writing. */
  lemma DetectedHow(env: Env, repo: Repo, paths: seq<string>, r: Remote)
    requires env.Valid() && Listed(env, repo, paths)
    ensures var e := DetectOne(env, repo, paths, r);
      if e.kind == New then
        e == Entry(r.asset, r.id, New, Named(r), None) && (r.name == "" || Nobody(env, repo, r.asset, r.name))
          && Nobody(env, repo, r.asset, r.id)
      else
        && e.path.Some? && e.path.value in repo && Decides(env, repo, r, e.path.value)
        && Load(env, repo[e.path.value]).Some? && Load(env, repo[e.path.value]).value.asset == r.asset
        && (e.kind == Changed ==> e.envelope == Named(r))
        && (e.kind == InSync <==> PayloadsMatch(Load(env, repo[e.path.value]).value.payload, Payload(Named(r))))
  {
    MatchDecides(env, repo, paths, r);
  }

  /** What a rule's target registers after writing, and that its payload is settled. */
  ghost predicate Settled(env: Env, repo: Repo, repo': Repo, r: Remote, p: string) {
    && p in repo' && Load(env, repo'[p]).Some?
    && PayloadsMatch(Load(env, repo'[p]).value.payload, Payload(Named(r)))
    && (r.name != "" && p in repo && Registers(env, repo[p], r.asset, r.name) ==>
         Registers(env, repo'[p], r.asset, r.name))
    && ((p in repo ==> Registers(env, repo[p], r.asset, r.id)) ==>
         Registers(env, repo'[p], r.asset, r.id) || (r.name != "" && Registers(env, repo'[p], r.asset, r.name)))
    && (forall k | Registers(env, repo'[p], r.asset, k) ::
         k == r.id || k == r.name || (p in repo && Registers(env, repo[p], r.asset, k)))
    && Load(env, repo'[p]).value.asset == r.asset
  }

  lemma NewSettles(env: Env, repo: Repo, repo': Repo, r: Remote, p: string)
    requires env.Valid() && Delivered(r) && p !in repo && p in repo'
    requires env.accepts(repo'[p].doc)
    requires p == env.place(r.asset, r.id)
    requires repo'[p] == WrittenFile(env, repo, Entry(r.asset, r.id, New, Named(r), None))
    ensures Settled(env, repo, repo', r, p)
  {
    NewLoads(env, r, map[]);
  }

  lemma ChangedSettles(env: Env, repo: Repo, repo': Repo, r: Remote, p: string)
    requires env.Valid() && Delivered(r) && p in repo && p in repo' && env.accepts(repo'[p].doc)
    requires Local(env, repo[p], r)
    requires repo'[p] == WrittenFile(env, repo, Entry(r.asset, r.id, Changed, Named(r), Some(p)))
    ensures Settled(env, repo, repo', r, p)
  {
    ReimportedLoads(env, repo[p], r);
  }

  lemma UnchangedSettles(env: Env, repo: Repo, repo': Repo, r: Remote, p: string)
    requires p in repo && p in repo' && repo'[p] == repo[p]
    requires Load(env, repo[p]).Some? && Load(env, repo[p]).value.asset == r.asset
    requires PayloadsMatch(Load(env, repo[p]).value.payload, Payload(Named(r)))
    ensures Settled(env, repo, repo', r, p)
  {
  }

  lemma Settles(env: Env, repo: Repo, paths: seq<string>, remotes: seq<Remote>, r: Remote)
    requires env.Valid() && Listed(env, repo, paths) && Separate(env, repo, paths, remotes)
    requires r in remotes && r.id != ""
    ensures Settled(env, repo, After(env, repo, paths, remotes), r, Target(env, DetectOne(env, repo, paths, r)))
  {
    var es, e := Detect(env, repo, paths, remotes), DetectOne(env, repo, paths, r);
    var repo', p := After(env, repo, paths, remotes), Target(env, e);
    DetectHolds(env, repo, paths, remotes, e);
    DetectedHow(env, repo, paths, r);
    ToWriteApart(env, es);
    WrittenAt(env, repo, ToWrite(es), p);
    if e.kind == New {
      NewSettles(env, repo, repo', r, p);
    } else if e.kind == Changed {
      ChangedSettles(env, repo, repo', r, p);
    } else {
      OnlyOwnTarget(env, es, e, p);
      UnchangedSettles(env, repo, repo', r, p);
    }
  }

  lemma OnlyOwnTarget(env: Env, es: seq<Entry>, e: Entry, p: string)
    requires Apart(env, es) && e in es && e.kind == InSync && Target(env, e) == p
    ensures forall x | x in ToWrite(es) :: Target(env, x) != p
  {
    ToWriteApart(env, es);
    forall x | x in ToWrite(es) ensures Target(env, x) != p {
      DifferentTargets(env, es, x, e);
    }
  }

  /** Nobody else comes to register a rule's keys. */
  lemma NoNewClaims(env: Env, repo: Repo, paths: seq<string>, remotes: seq<Remote>, r: Remote, q: string, k: string)
    requires env.Valid() && Listed(env, repo, paths) && Separate(env, repo, paths, remotes)
    requires r in remotes && r.id != "" && IsKey(r, k)
    requires q != Target(env, DetectOne(env, repo, paths, r))
    requires q in After(env, repo, paths, remotes)
    requires Registers(env, After(env, repo, paths, remotes)[q], r.asset, k)
    ensures q in repo && Registers(env, repo[q], r.asset, k)
  {
    var es := Detect(env, repo, paths, remotes);
    ToWriteApart(env, es);
    WrittenAt(env, repo, ToWrite(es), q);
    if x :| x in ToWrite(es) && Target(env, x) == q {
      DetectHolds(env, repo, paths, remotes, x);
      var s :| s in remotes && s.id != "" && x == DetectOne(env, repo, paths, s);
      Settles(env, repo, paths, remotes, s);
      assert r != s;
      assert KeysApart(r, s) && KeysApart(s, r);
    }
  }

  lemma NoNewClaimsFor(env: Env, repo: Repo, paths: seq<string>, remotes: seq<Remote>, r: Remote, k: string)
    requires env.Valid() && Listed(env, repo, paths) && Separate(env, repo, paths, remotes)
    requires r in remotes && r.id != "" && IsKey(r, k)
    ensures NobodyNew(env, repo, After(env, repo, paths, remotes), r.asset, k,
                      Target(env, DetectOne(env, repo, paths, r)))
  {
    var repo', p := After(env, repo, paths, remotes), Target(env, DetectOne(env, repo, paths, r));
    forall q | q in repo' && q != p && Registers(env, repo'[q], r.asset, k)
      ensures q in repo && Registers(env, repo[q], r.asset, k)
    {
      NoNewClaims(env, repo, paths, remotes, r, q, k);
    }
  }

  /** Apart from `p`, only files that registered the key before register it after. */
  ghost predicate NobodyNew(env: Env, repo: Repo, repo': Repo, asset: string, k: string, p: string) {
    forall q | q in repo' && q != p && Registers(env, repo'[q], asset, k) ::
      q in repo && Registers(env, repo[q], asset, k)
  }

  lemma WinsAfter(env: Env, repo: Repo, repo': Repo, asset: string, k: string, p: string)
    requires p in repo' && Registers(env, repo'[p], asset, k) && NobodyNew(env, repo, repo', asset, k, p)
    requires Wins(env, repo, asset, k, p) || Nobody(env, repo, asset, k)
    ensures Wins(env, repo', asset, k, p) && !Nobody(env, repo', asset, k)
  {
  }

  lemma NobodyAfter(env: Env, repo: Repo, repo': Repo, asset: string, k: string, p: string)
    requires p in repo' && !Registers(env, repo'[p], asset, k) && NobodyNew(env, repo, repo', asset, k, p)
    requires Nobody(env, repo, asset, k)
    ensures Nobody(env, repo', asset, k)
  {
  }

  ghost predicate StoodBefore(env: Env, repo: Repo, r: Remote, p: string) {
    if p in repo then Decides(env, repo, r, p)
    else (r.name == "" || Nobody(env, repo, r.asset, r.name)) && Nobody(env, repo, r.asset, r.id)
  }

  lemma DecidesAfter(env: Env, repo: Repo, repo': Repo, r: Remote, p: string)
    requires Settled(env, repo, repo', r, p) && StoodBefore(env, repo, r, p)
    requires r.name != "" ==> NobodyNew(env, repo, repo', r.asset, r.name, p)
    requires NobodyNew(env, repo, repo', r.asset, r.id, p)
    ensures Decides(env, repo', r, p)
  {
    if r.name != "" && Registers(env, repo'[p], r.asset, r.name) {
      assert Wins(env, repo, r.asset, r.name, p) || Nobody(env, repo, r.asset, r.name);
      WinsAfter(env, repo, repo', r.asset, r.name, p);
    } else {
      assert r.name == "" || Nobody(env, repo, r.asset, r.name);
      if r.name != "" {
        NobodyAfter(env, repo, repo', r.asset, r.name, p);
      }
      assert Wins(env, repo, r.asset, r.id, p) || Nobody(env, repo, r.asset, r.id);
      WinsAfter(env, repo, repo', r.asset, r.id, p);
    }
  }

  /** Each rule is found in sync, at the file it was matched to or given. */
  lemma InSyncAfter(env: Env, repo: Repo, paths: seq<string>, paths': seq<string>, remotes: seq<Remote>, r: Remote)
    requires env.Valid() && Listed(env, repo, paths) && Separate(env, repo, paths, remotes)
    requires r in remotes && r.id != "" && Listed(env, After(env, repo, paths, remotes), paths')
    ensures var e := DetectOne(env, After(env, repo, paths, remotes), paths', r);
      e.kind == InSync && e.path == Some(Target(env, DetectOne(env, repo, paths, r)))
  {
    var repo', p := After(env, repo, paths, remotes), Target(env, DetectOne(env, repo, paths, r));
    StandsBefore(env, repo, paths, remotes, r);
    Settles(env, repo, paths, remotes, r);
    NoNewClaimsFor(env, repo, paths, remotes, r, r.id);
    if r.name != "" {
      NoNewClaimsFor(env, repo, paths, remotes, r, r.name);
    }
    DecidesAfter(env, repo, repo', r, p);
    DecidesMatch(env, repo', paths', r, p);
    FoundInSync(env, repo', paths', r, p);
  }

  lemma StandsBefore(env: Env, repo: Repo, paths: seq<string>, remotes: seq<Remote>, r: Remote)
    requires env.Valid() && Listed(env, repo, paths) && Separate(env, repo, paths, remotes)
    requires r in remotes && r.id != ""
    ensures StoodBefore(env, repo, r, Target(env, DetectOne(env, repo, paths, r)))
  {
    DetectedHow(env, repo, paths, r);
    DetectHolds(env, repo, paths, remotes, DetectOne(env, repo, paths, r));
  }

  lemma FoundInSync(env: Env, repo: Repo, paths: seq<string>, r: Remote, p: string)
    requires Match(IndexOf(env, repo, paths, r.asset), r) == Some(p) && p in repo && Load(env, repo[p]).Some?
    requires PayloadsMatch(Load(env, repo[p]).value.payload, Payload(Named(r)))
    ensures DetectOne(env, repo, paths, r) == Entry(r.asset, r.id, InSync, map[], Some(p))
  {
  }

  /** Detect, write, detect again: nothing new and nothing changed. */
  lemma WritingIsAFixpoint(env: Env, repo: Repo, paths: seq<string>, paths': seq<string>, remotes: seq<Remote>)
    requires env.Valid() && Listed(env, repo, paths) && Separate(env, repo, paths, remotes)
    requires Listed(env, After(env, repo, paths, remotes), paths')
    ensures forall e | e in Detect(env, After(env, repo, paths, remotes), paths', remotes) :: e.kind == InSync
    ensures ToWrite(Detect(env, After(env, repo, paths, remotes), paths', remotes)) == []
  {
    var repo' := After(env, repo, paths, remotes);
    var es := Detect(env, repo', paths', remotes);
    forall e | e in es ensures e.kind == InSync {
      DetectHolds(env, repo', paths', remotes, e);
      var r :| r in remotes && r.id != "" && e == DetectOne(env, repo', paths', r);
      InSyncAfter(env, repo, paths, paths', remotes, r);
    }
    NoneOfKind(es, New);
    NoneOfKind(es, Changed);
  }

  lemma {:induction false} NoneOfKind(es: seq<Entry>, kind: EntryKind)
    requires forall e | e in es :: e.kind == InSync && kind != InSync
    ensures OfKind(es, kind) == []
  {
    if es != [] {
      assert es[|es| - 1] in es;
      NoneOfKind(es[..|es| - 1], kind);
    }
  }

  /** A re-import keeps the file's id, and every metadata key its operator wrote; only keys the tenant delivers
      change. */
  lemma OperatorFieldsSurvive(env: Env, local: File, r: Remote, k: string)
    requires Field(local.doc, "id").Some? && Truthy(local.doc["id"])
    requires match Field(local.doc, "metadata") case Some(Dict(m)) => k in m case _ => false
    ensures var (onDisk, sidecars) := Split(env, Named(r));
      var written := ReadDoc(Reimported(local, onDisk, sidecars));
      && Field(written, "id") == Some(Readback(local.doc["id"]))
      && (match Field(written, "metadata")
          case Some(Dict(m)) => k in m && (Delivers(r, k) || m[k] == Readback(local.doc["metadata"].fields[k]))
          case _ => false)
  {
    var (onDisk, sidecars) := Split(env, Named(r));
    var re := Reimported(local, onDisk, sidecars);
    ReimportedFields(env, local, r);
    ReadMap(re, "id");
    ReadMap(re, "metadata");
    MergedKey(local.doc, r, k);
  }

  predicate Delivers(r: Remote, k: string) {
    match Field(r.envelope, "metadata") case Some(Dict(m)) => k in m case _ => false
  }

  lemma MergedKey(local: Doc, r: Remote, k: string)
    requires match Field(local, "metadata") case Some(Dict(m)) => k in m case _ => false
    ensures match Field(PreserveMetadata(Named(r), local), "metadata")
      case Some(Dict(m)) => k in m && (Delivers(r, k) || m[k] == local["metadata"].fields[k])
      case _ => false
  {
  }
}
