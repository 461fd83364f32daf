// Which key an alert or an incident is counted under, and which rows of the query a rule is given.
module RuleRows {
  import opened Text
  import opened RuleTelemetry

  // ---- keys ----

  /** Some single-rule incident offers the alert a rule. */
  ghost predicate Linked(w: Workspace, a: string) {
    exists n, r :: w.Offers(n, a, r)
  }

  /** An alert's key: a Sentinel alert counts for the rule of a single-rule incident holding it, failing that for
      the rule its type names, failing that by its name; an alert of another product always by its name. */
  lemma AlertKeyIs(w: Workspace, a: string)
    requires w.Valid() && a in w.alerts
    ensures var row, k := w.alerts[a], w.AlertKey(a);
      var sentinel := row.product == "Azure Sentinel" || row.product == "Microsoft Sentinel";
      var named := NameKey(w.norms.name(row.name));
      && (!sentinel ==> k == named)
      && (sentinel && Linked(w, a) ==> k.IdKey? && exists n :: w.Offers(n, a, k.id))
      && (sentinel && !Linked(w, a) ==>
           k == if w.norms.alertType(row.alertType) != "" then IdKey(w.norms.alertType(row.alertType)) else named)
  {
    if a in w.linked {
      var n :| w.Offers(n, a, w.linked[a]);
    }
  }

  /** An incident's keys: the rules its references name; and its title, if it has no reference or one that names
      nothing. */
  lemma IncidentKeysAre(w: Workspace, n: string, k: Key)
    requires w.norms.Sane() && n in w.incidents
    ensures var refs := w.incidents[n].ruleRefs;
      k in w.IncidentKeys(n) <==>
        || (k.IdKey? && k.id != "" && exists r :: r in refs && w.norms.ref(r) == k.id)
        || (k == NameKey(w.norms.name(w.incidents[n].title)) &&
            (refs == [] || exists r :: r in refs && w.norms.ref(r) == ""))
  {
    var refs := w.incidents[n].ruleRefs;
    if refs == [] {
      assert w.IncidentKeys(n) == {w.RefKey(n, "")} by {
        assert "" in [""];
      }
    }
  }

  // ---- rows ----

  lemma {:induction false} UnderIff(t: Table, norm: string -> string, rows: seq<Row>, s: string, i: nat)
    ensures i in Under(t, norm, rows, s) <==> i < |rows| && FoundUnder(t, norm, rows[i], s)
  {
    if rows != [] {
      UnderIff(t, norm, rows[..|rows| - 1], s, i);
    }
  }

  lemma {:induction false} ChainIff(t: Table, norm: string -> string, rows: seq<Row>, keys: seq<string>, i: nat)
    ensures i in Chain(t, norm, rows, keys) <==>
      i < |rows| && exists s :: s in keys && FoundUnder(t, norm, rows[i], s)
  {
    if keys != [] {
      var rest, s := keys[..|keys| - 1], keys[|keys| - 1];
      assert keys == rest + [s];
      ChainIff(t, norm, rows, rest, i);
      UnderIff(t, norm, rows, s, i);
    }
  }

  lemma {:induction false} UniqueOnce(s: seq<nat>)
    ensures forall i, j | 0 <= i < j < |Unique(s)| :: Unique(s)[i] != Unique(s)[j]
  {
    if s != [] {
      UniqueOnce(s[..|s| - 1]);
    }
  }

  /** A row of the rule's own: keyed by one of its ids or names, or without a key and named like it. */
  predicate Own(norm: string -> string, r: Row, keys: RuleKeys) {
    match r.key
    case Some(IdKey(id)) => id in keys.ids
    case Some(NameKey(name)) => name in keys.names
    case None => norm(r.ruleName) != "" && norm(r.ruleName) in keys.names
  }

  /** A row keyed by an id, of a rule that is named like this one. */
  predicate SameName(norm: string -> string, r: Row, keys: RuleKeys) {
    r.key.Some? && r.key.value.IdKey? && norm(r.ruleName) != "" && norm(r.ruleName) in keys.names
  }

  lemma OwnIff(norm: string -> string, rows: seq<Row>, keys: RuleKeys, i: nat)
    requires i < |rows|
    ensures i in OwnRows(norm, rows, keys) <==> Own(norm, rows[i], keys)
  {
    ChainIff(ById, norm, rows, keys.ids, i);
    ChainIff(ByName, norm, rows, keys.names, i);
    var r := rows[i];
    if r.key.Some? && r.key.value.IdKey? {
      assert FoundUnder(ById, norm, r, r.key.value.id);
    } else if r.key.Some? {
      assert FoundUnder(ByName, norm, r, r.key.value.name);
    }
  }

  lemma SameNameIff(norm: string -> string, rows: seq<Row>, keys: RuleKeys, i: nat)
    requires i < |rows|
    ensures i in Chain(ByIdRowName, norm, rows, keys.names) <==> SameName(norm, rows[i], keys)
  {
    ChainIff(ByIdRowName, norm, rows, keys.names, i);
  }

  lemma NoOwnRows(norm: string -> string, rows: seq<Row>, keys: RuleKeys)
    ensures OwnRows(norm, rows, keys) == [] <==> forall j | 0 <= j < |rows| :: !Own(norm, rows[j], keys)
  {
    var own := OwnRows(norm, rows, keys);
    if own == [] {
      forall j | 0 <= j < |rows| ensures !Own(norm, rows[j], keys) {
        OwnIff(norm, rows, keys, j);
      }
    } else {
      var i := own[0];
      assert i in own;
      OwnIff(norm, rows, keys, i);
    }
  }

  /** A rule is given its own rows; when there is none, the rows of the ids that share its name; each row once. */
  lemma RowsAre(norm: string -> string, rows: seq<Row>, keys: RuleKeys, i: nat)
    requires i < |rows|
    ensures i in RowsOf(norm, rows, keys) <==>
      if exists j :: 0 <= j < |rows| && Own(norm, rows[j], keys) then Own(norm, rows[i], keys)
      else SameName(norm, rows[i], keys)
    ensures var at := RowsOf(norm, rows, keys); forall a, b | 0 <= a < b < |at| :: at[a] != at[b]
  {
    NoOwnRows(norm, rows, keys);
    OwnIff(norm, rows, keys, i);
    SameNameIff(norm, rows, keys, i);
    UniqueOnce(Chain(ById, norm, rows, keys.ids) + Chain(ByName, norm, rows, keys.names));
    UniqueOnce(Chain(ByIdRowName, norm, rows, keys.names));
  }
}
