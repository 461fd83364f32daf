// Retired ATT&CK ids: built from a STIX bundle, and resolved against the current matrix.
module AttackMatrix {
  import opened Text

  datatype Reference = Reference(source: string, externalId: Option<string>)

  /** One object of the bundle, with the fields the extraction reads. */
  datatype Object = Object(
    stixId: Option<string>, kind: string, references: seq<Reference>, revoked: bool, deprecated: bool,
    relation: string, sourceRef: string, targetRef: string)

  /** `_technique_id`: the first ATT&CK reference whose id starts with a T. */
  function TechniqueId(references: seq<Reference>): (id: Option<string>)
    ensures id.Some? ==> id.value != ""
  {
    if references == [] then None
    else
      var r := references[0];
      if r.source == "mitre-attack" && r.externalId.Some? && r.externalId.value != "" && r.externalId.value[0] == 'T'
      then r.externalId
      else TechniqueId(references[1..])
  }

  predicate IsTechnique(o: Object) {
    o.kind == "attack-pattern" && TechniqueId(o.references).Some?
  }

  predicate IsRetired(o: Object) {
    o.revoked || o.deprecated
  }

  function Id(o: Object): string
    requires IsTechnique(o)
  {
    TechniqueId(o.references).value
  }

  /** The ids of techniques still in force, and of those that only retired objects carry. */
  function Current(objects: seq<Object>): set<string> {
    set o | o in objects && IsTechnique(o) && !IsRetired(o) :: Id(o)
  }

  function Retired(objects: seq<Object>, current: set<string>): set<string> {
    set o | o in objects && IsTechnique(o) && IsRetired(o) && Id(o) !in current :: Id(o)
  }

  /** `by_stix_id`: the last object with an id wins. */
  function ByStixId(objects: seq<Object>): map<string, Object> {
    if objects == [] then map[]
    else
      var o, rest := objects[|objects| - 1], ByStixId(objects[..|objects| - 1]);
      if o.stixId.Some? then rest[o.stixId.value := o] else rest
  }

  lemma {:induction false} ByStixIdHoldsObjects(objects: seq<Object>, key: string)
    requires key in ByStixId(objects)
    ensures ByStixId(objects)[key] in objects && ByStixId(objects)[key].stixId == Some(key)
  {
    var o := objects[|objects| - 1];
    if o.stixId != Some(key) {
      ByStixIdHoldsObjects(objects[..|objects| - 1], key);
    }
  }

  /** The revoked-by edge one object contributes. */
  function EdgeOf(o: Object, byId: map<string, Object>, current: set<string>): (e: Option<(string, string)>)
    ensures e.Some? ==> e.value.0 !in current && e.value.0 != e.value.1 && o.sourceRef in byId && o.targetRef in byId
    ensures e.Some? ==> IsTechnique(byId[o.sourceRef]) && Id(byId[o.sourceRef]) == e.value.0
    ensures e.Some? ==> IsTechnique(byId[o.targetRef]) && Id(byId[o.targetRef]) == e.value.1
  {
    if o.kind != "relationship" || o.relation != "revoked-by" then None
    else if IsRetired(o) then None
    else if o.sourceRef !in byId || o.targetRef !in byId then None
    else
      var source, target := byId[o.sourceRef], byId[o.targetRef];
      if !IsTechnique(source) || !IsTechnique(target) then None
      else if Id(source) == Id(target) || Id(source) in current then None
      else Some((Id(source), Id(target)))
  }

  /** `edges`: the last relationship of an id wins. */
  function Edges(objects: seq<Object>, byId: map<string, Object>, current: set<string>): map<string, string> {
    if objects == [] then map[]
    else
      var rest := Edges(objects[..|objects| - 1], byId, current);
      match EdgeOf(objects[|objects| - 1], byId, current)
      case None => rest
      case Some(e) => rest[e.0 := e.1]
  }

  /** An edge starts at a retired id of the bundle. */
  lemma {:induction false} EdgesStartRetired(objects: seq<Object>, part: seq<Object>, old_id: string)
    requires old_id in Edges(part, ByStixId(objects), Current(objects))
    ensures old_id in Retired(objects, Current(objects))
  {
    var byId, current := ByStixId(objects), Current(objects);
    var e := EdgeOf(part[|part| - 1], byId, current);
    if e.Some? && e.value.0 == old_id {
      var key := part[|part| - 1].sourceRef;
      ByStixIdHoldsObjects(objects, key);
      assert byId[key] in objects && Id(byId[key]) == old_id;
    } else {
      EdgesStartRetired(objects, part[..|part| - 1], old_id);
    }
  }

  // ---- following a chain ----

  /** The id `hops` edges further on, if there is one. */
  function Hop(edges: map<string, string>, id: string, hops: nat): Option<string> {
    if hops == 0 then Some(id)
    else match Hop(edges, id, hops - 1)
      case None => None
      case Some(at) => if at in edges then Some(edges[at]) else None
  }

  /** The k-th id along the chain is a current technique, and none before it (after the start) is. */
  predicate FirstCurrent(edges: map<string, string>, current: set<string>, id: string, k: nat, target: string) {
    && k >= 1 && Hop(edges, id, k) == Some(target) && target in current
    && forall j | 1 <= j < k :: Hop(edges, id, j).Some? && Hop(edges, id, j).value !in current
  }

  /** `target` is the first current technique along the chain from `id`. */
  ghost predicate ReachesFirst(edges: map<string, string>, current: set<string>, id: string, target: string) {
    exists k :: FirstCurrent(edges, current, id, k, target)
  }

  predicate Visited(edges: map<string, string>, id: string, k: nat, x: string) {
    exists j | 0 <= j < k :: Hop(edges, id, j) == Some(x)
  }

  predicate NoneCurrent(edges: map<string, string>, current: set<string>, id: string, k: nat) {
    forall j | 1 <= j <= k :: Hop(edges, id, j).Some? ==> Hop(edges, id, j).value !in current
  }

  /** Where a chain ends, it ends for good. */
  lemma {:induction false} HopEnds(edges: map<string, string>, id: string, k: nat, j: nat)
    requires Hop(edges, id, k).Some? && Hop(edges, id, k).value !in edges && j > k
    ensures Hop(edges, id, j).None?
  {
    if j > k + 1 {
      HopEnds(edges, id, k, j - 1);
    }
  }

  /** A chain that returns to an id it has visited repeats itself. */
  lemma {:induction false} HopRepeats(edges: map<string, string>, id: string, i: nat, k: nat, d: nat)
    requires Hop(edges, id, i) == Hop(edges, id, k)
    ensures Hop(edges, id, i + d) == Hop(edges, id, k + d)
  {
    if d > 0 {
      HopRepeats(edges, id, i, k, d - 1);
    }
  }

  lemma {:induction false} CycleHasNoneCurrent(edges: map<string, string>, current: set<string>, id: string,
                                               i: nat, k: nat, j: nat)
    requires i < k && Hop(edges, id, i) == Hop(edges, id, k) && NoneCurrent(edges, current, id, k) && j >= 1
    ensures Hop(edges, id, j).Some? ==> Hop(edges, id, j).value !in current
    decreases j
  {
    if j > k {
      HopRepeats(edges, id, i, k, j - k);
      CycleHasNoneCurrent(edges, current, id, i, k, i + (j - k));
    }
  }

  /** The loop of `_retired_ids`, which stops at a current id, at the end of the chain or on a cycle: the answer
      is the first current id along the chain, and there is none exactly when no current id is reachable. */
  method FollowChain(edges: map<string, string>, current: set<string>, id: string) returns (target: Option<string>)
    requires id in edges
    ensures target.Some? ==> ReachesFirst(edges, current, id, target.value)
    ensures target.None? ==> forall k :: k >= 1 && Hop(edges, id, k).Some? ==> Hop(edges, id, k).value !in current
  {
    var seen, at := {id}, edges[id];
    ghost var k: nat := 1;
    assert Hop(edges, id, 0) == Some(id) && Visited(edges, id, 1, id);
    while at !in current && at in edges && at !in seen
      invariant k >= 1 && Hop(edges, id, k) == Some(at)
      invariant forall j | 1 <= j < k :: Hop(edges, id, j).Some? && Hop(edges, id, j).value !in current
      invariant seen <= edges.Keys && forall x | x in seen :: Visited(edges, id, k, x)
      decreases edges.Keys - seen
    {
      ghost var before := seen;
      seen, at, k := seen + {at}, edges[at], k + 1;
      forall x | x in seen ensures Visited(edges, id, k, x) {
        if x in before {
          ghost var j :| 0 <= j < k - 1 && Hop(edges, id, j) == Some(x);
          assert 0 <= j < k;
        } else {
          assert Hop(edges, id, k - 1) == Some(x);
        }
      }
    }
    if at in current {
      assert FirstCurrent(edges, current, id, k, at);
      return Some(at);
    }
    if at !in edges {
      forall j | j > k ensures Hop(edges, id, j).None? {
        HopEnds(edges, id, k, j);
      }
    } else {
      ghost var i :| 0 <= i < k && Hop(edges, id, i) == Some(at);
      forall j | j >= 1 && Hop(edges, id, j).Some? ensures Hop(edges, id, j).value !in current {
        CycleHasNoneCurrent(edges, current, id, i, k, j);
      }
    }
    return None;
  }

  // ---- the retired ids of a bundle ----

  /** What `revoked` must hold: an id is mapped exactly when a current id is reachable, and then to the first. */
  ghost predicate Resolves(edges: map<string, string>, current: set<string>, revoked: map<string, string>) {
    && (forall id | id in revoked :: id in edges && ReachesFirst(edges, current, id, revoked[id]))
    && (forall id, k | id in edges && id !in revoked && k >= 1 && Hop(edges, id, k).Some? ::
         Hop(edges, id, k).value !in current)
  }

  method IndexObjects(objects: seq<Object>) returns (byId: map<string, Object>)
    ensures byId == ByStixId(objects)
  {
    byId := map[];
    for i := 0 to |objects|
      invariant byId == ByStixId(objects[..i])
    {
      assert objects[..i + 1][..i] == objects[..i];
      if objects[i].stixId.Some? {
        byId := byId[objects[i].stixId.value := objects[i]];
      }
    }
    assert objects[..|objects|] == objects;
  }

  method CollectEdges(objects: seq<Object>, byId: map<string, Object>, current: set<string>)
    returns (edges: map<string, string>)
    ensures edges == Edges(objects, byId, current)
  {
    edges := map[];
    for i := 0 to |objects|
      invariant edges == Edges(objects[..i], byId, current)
    {
      assert objects[..i + 1][..i] == objects[..i];
      var e := EdgeOf(objects[i], byId, current);
      if e.Some? {
        edges := edges[e.value.0 := e.value.1];
      }
    }
    assert objects[..|objects|] == objects;
  }

  method RetiredIds(objects: seq<Object>, current: set<string>)
    returns (revoked: map<string, string>, deprecated: set<string>)
    ensures Resolves(Edges(objects, ByStixId(objects), current), current, revoked)
    ensures deprecated == Retired(objects, current) - revoked.Keys
  {
    var byId := IndexObjects(objects);
    var edges := CollectEdges(objects, byId, current);
    revoked := map[];
    var todo := edges.Keys;
    while todo != {}
      invariant todo <= edges.Keys && revoked.Keys <= edges.Keys - todo
      invariant forall id | id in revoked :: ReachesFirst(edges, current, id, revoked[id])
      invariant forall id, k | id in edges && id !in todo && id !in revoked && k >= 1 && Hop(edges, id, k).Some? ::
        Hop(edges, id, k).value !in current
    {
      var id :| id in todo;
      todo := todo - {id};
      var target := FollowChain(edges, current, id);
      if target.Some? {
        revoked := revoked[id := target.value];
      }
    }
    deprecated := Retired(objects, current) - revoked.Keys;
  }

  /** Replaced and dropped ids are disjoint, and together they are exactly the retired ids. */
  lemma RetiredSplitsExactly(objects: seq<Object>, revoked: map<string, string>, deprecated: set<string>)
    requires Resolves(Edges(objects, ByStixId(objects), Current(objects)), Current(objects), revoked)
    requires deprecated == Retired(objects, Current(objects)) - revoked.Keys
    ensures revoked.Keys !! deprecated && revoked.Keys + deprecated == Retired(objects, Current(objects))
    ensures revoked.Keys !! Current(objects) && revoked.Values <= Current(objects)
  {
    forall id | id in revoked ensures id in Retired(objects, Current(objects)) && revoked[id] in Current(objects) {
      EdgesStartRetired(objects, objects, id);
      var k :| FirstCurrent(Edges(objects, ByStixId(objects), Current(objects)), Current(objects), id, k, revoked[id]);
    }
  }

  // ---- the loaded matrix ----

  datatype Status = IsCurrent | IsRevoked | IsDeprecated | IsUnknown

  /** `AttackMatrix.resolve` over the ids, replacements and dropped ids the data file carries. */
  function Resolve(current: set<string>, revoked: map<string, string>, deprecated: set<string>, id: string)
    : (Option<string>, Status)
  {
    if id in current then (Some(id), IsCurrent)
    else if id in revoked && revoked[id] != "" && revoked[id] in current then (Some(revoked[id]), IsRevoked)
    else if id in deprecated then (None, IsDeprecated)
    else (None, IsUnknown)
  }

  /** Whatever `resolve` answers is current, and resolving it again changes nothing. */
  lemma ResolveIsIdempotent(current: set<string>, revoked: map<string, string>, deprecated: set<string>, id: string)
    ensures var r := Resolve(current, revoked, deprecated, id);
      && (r.0.Some? <==> r.1 == IsCurrent || r.1 == IsRevoked)
      && (r.0.Some? ==> r.0.value in current && Resolve(current, revoked, deprecated, r.0.value) == (r.0, IsCurrent))
  {
  }

  /** Over the generated matrix: every technique of the bundle has a known status, decided by what is reachable. */
  lemma BundleIdsResolve(objects: seq<Object>, revoked: map<string, string>, deprecated: set<string>, o: Object)
    requires Resolves(Edges(objects, ByStixId(objects), Current(objects)), Current(objects), revoked)
    requires deprecated == Retired(objects, Current(objects)) - revoked.Keys
    requires o in objects && IsTechnique(o)
    ensures var r := Resolve(Current(objects), revoked, deprecated, Id(o));
      var edges := Edges(objects, ByStixId(objects), Current(objects));
      && r.1 != IsUnknown
      && (r.1 == IsCurrent <==> Id(o) in Current(objects))
      && (r.1 == IsRevoked ==> ReachesFirst(edges, Current(objects), Id(o), r.0.value))
      && (r.1 == IsDeprecated ==> forall k ::
            k >= 1 && Hop(edges, Id(o), k).Some? ==> Hop(edges, Id(o), k).value !in Current(objects))
  {
    var current := Current(objects);
    var edges := Edges(objects, ByStixId(objects), current);
    RetiredSplitsExactly(objects, revoked, deprecated);
    if Id(o) !in current {
      assert Id(o) in Retired(objects, current);
      if Id(o) in revoked {
        CurrentIdsAreNotEmpty(objects, revoked[Id(o)]);
        assert Resolve(current, revoked, deprecated, Id(o)).0 == Some(revoked[Id(o)]);
        assert ReachesFirst(edges, current, Id(o), revoked[Id(o)]);
      } else if Id(o) !in edges {
        forall k | k >= 1 ensures Hop(edges, Id(o), k).None? {
          HopEnds(edges, Id(o), 0, k);
        }
      }
    }
  }

  lemma CurrentIdsAreNotEmpty(objects: seq<Object>, id: string)
    requires id in Current(objects)
    ensures id != ""
  {
  }

  // ---- what the bundle says ----

  predicate IsAttackId(r: Reference) {
    r.source == "mitre-attack" && r.externalId.Some? && r.externalId.value != "" && r.externalId.value[0] == 'T'
  }

  /** The id of an object is that of its first ATT&CK reference with a technique id. */
  lemma {:induction false} TechniqueIdIsFirst(references: seq<Reference>, i: nat)
    requires i < |references| && IsAttackId(references[i])
    requires forall j | 0 <= j < i :: !IsAttackId(references[j])
    ensures TechniqueId(references) == references[i].externalId
  {
    if i > 0 {
      assert references[1..][i - 1] == references[i];
      forall j | 0 <= j < i - 1 ensures !IsAttackId(references[1..][j]) {
        assert references[1..][j] == references[j + 1];
      }
      TechniqueIdIsFirst(references[1..], i - 1);
    }
  }

  lemma {:induction false} NoTechniqueId(references: seq<Reference>)
    requires forall r | r in references :: !IsAttackId(r)
    ensures TechniqueId(references).None?
  {
    if references != [] {
      assert references[0] in references;
      NoTechniqueId(references[1..]);
    }
  }

  /** A technique object of the bundle that carries the id. */
  predicate Carries(o: Object, id: string) {
    o.kind == "attack-pattern" && TechniqueId(o.references) == Some(id)
  }

  /** Current: some object carries the id that is neither revoked nor deprecated. Retired: only such objects do. */
  lemma CurrentAndRetired(objects: seq<Object>, id: string)
    ensures id in Current(objects) <==>
      exists o :: o in objects && Carries(o, id) && !o.revoked && !o.deprecated
    ensures id in Retired(objects, Current(objects)) <==>
      (exists o :: o in objects && Carries(o, id)) &&
      forall o | o in objects && Carries(o, id) :: o.revoked || o.deprecated
  {
    if o :| o in objects && Carries(o, id) && !o.revoked && !o.deprecated {
      assert IsTechnique(o) && Id(o) == id;
    }
    if id !in Current(objects) && exists o :: o in objects && Carries(o, id) {
      var o :| o in objects && Carries(o, id);
      assert IsTechnique(o) && Id(o) == id;
    }
  }

  /** The last object with an id is the one relationships refer to. */
  lemma {:induction false} ByStixIdIsLast(objects: seq<Object>, key: string, i: nat)
    requires i < |objects| && objects[i].stixId == Some(key)
    requires forall j | i < j < |objects| :: objects[j].stixId != Some(key)
    ensures key in ByStixId(objects) && ByStixId(objects)[key] == objects[i]
  {
    if i < |objects| - 1 {
      var rest := objects[..|objects| - 1];
      assert rest[i] == objects[i];
      ByStixIdIsLast(rest, key, i);
    }
  }

  /** A revoked-by relationship in force from a technique that is no longer current to another technique. */
  predicate Replaces(o: Object, byId: map<string, Object>, current: set<string>, old_id: string, new_id: string) {
    && o.kind == "relationship" && o.relation == "revoked-by" && !o.revoked && !o.deprecated
    && o.sourceRef in byId && Carries(byId[o.sourceRef], old_id)
    && o.targetRef in byId && Carries(byId[o.targetRef], new_id)
    && old_id != new_id && old_id !in current
  }

  lemma EdgeOfIff(o: Object, byId: map<string, Object>, current: set<string>, old_id: string, new_id: string)
    ensures EdgeOf(o, byId, current) == Some((old_id, new_id)) <==> Replaces(o, byId, current, old_id, new_id)
  {
  }

  /** Each retired id leads where the last relationship that replaces it leads. */
  lemma {:induction false} EdgesAreLast(objects: seq<Object>, byId: map<string, Object>, current: set<string>,
                                        old_id: string, new_id: string, i: nat)
    requires i < |objects| && Replaces(objects[i], byId, current, old_id, new_id)
    requires forall j, x | i < j < |objects| :: !Replaces(objects[j], byId, current, old_id, x)
    ensures old_id in Edges(objects, byId, current) && Edges(objects, byId, current)[old_id] == new_id
  {
    var rest, last := objects[..|objects| - 1], objects[|objects| - 1];
    if i < |rest| {
      assert rest[i] == objects[i];
      forall j, x | i < j < |rest| ensures !Replaces(rest[j], byId, current, old_id, x) {
        assert rest[j] == objects[j];
      }
      EdgesAreLast(rest, byId, current, old_id, new_id, i);
      var e := EdgeOf(last, byId, current);
      if e.Some? {
        EdgeOfIff(last, byId, current, e.value.0, e.value.1);
      }
    } else {
      EdgeOfIff(last, byId, current, old_id, new_id);
    }
  }

  lemma {:induction false} NoEdge(objects: seq<Object>, byId: map<string, Object>, current: set<string>, old_id: string)
    requires forall o, x | o in objects :: !Replaces(o, byId, current, old_id, x)
    ensures old_id !in Edges(objects, byId, current)
  {
    if objects != [] {
      var rest, last := objects[..|objects| - 1], objects[|objects| - 1];
      assert objects == rest + [last];
      NoEdge(rest, byId, current, old_id);
      var e := EdgeOf(last, byId, current);
      if e.Some? {
        EdgeOfIff(last, byId, current, e.value.0, e.value.1);
      }
    }
  }

  /** Over the generated matrix only an id that no technique object of the bundle carries is unknown. */
  lemma StrangersAreUnknown(objects: seq<Object>, revoked: map<string, string>, deprecated: set<string>, id: string)
    requires Resolves(Edges(objects, ByStixId(objects), Current(objects)), Current(objects), revoked)
    requires deprecated == Retired(objects, Current(objects)) - revoked.Keys
    ensures Resolve(Current(objects), revoked, deprecated, id).1 == IsUnknown <==>
      forall o | o in objects :: !Carries(o, id)
  {
    CurrentAndRetired(objects, id);
    RetiredSplitsExactly(objects, revoked, deprecated);
    if o :| o in objects && Carries(o, id) {
      assert IsTechnique(o) && Id(o) == id;
      BundleIdsResolve(objects, revoked, deprecated, o);
    }
  }
}
