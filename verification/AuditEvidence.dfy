// What an auditor may conclude from a chain that verifies.
module AuditEvidence {
  import opened Text
  import opened JsonText
  import opened AuditChain
  import opened AuditLinks
  import opened AuditFiles

  // ---- the head commits to the history ----

  /** Two different records with one digest, or a record whose digest is the starting value. */
  ghost predicate Collision(digest: Digest, docs: seq<Doc>) {
    || (exists d, e :: d in docs && e in docs && Hashed(d) != Hashed(e) && digest(Hashed(d)) == digest(Hashed(e)))
    || (exists d :: d in docs && digest(Hashed(d)) == ZERO_HASH)
  }

  /** The same records in the same order, key by key. */
  predicate SameRecords(xs: seq<Doc>, ys: seq<Doc>) {
    |xs| == |ys| &&
    (xs == [] ||
     var x, y := xs[|xs| - 1], ys[|ys| - 1];
     && Hashed(x) == Hashed(y) && Get(x, "record_hash") == Get(y, "record_hash")
     && SameRecords(xs[..|xs| - 1], ys[..|ys| - 1]))
  }

  lemma CollisionGrows(digest: Digest, docs: seq<Doc>, more: seq<Doc>)
    requires Collision(digest, docs) && forall d | d in docs :: d in more
    ensures Collision(digest, more)
  {
    if d, e :| d in docs && e in docs && Hashed(d) != Hashed(e) && digest(Hashed(d)) == digest(Hashed(e)) {
      assert d in more && e in more;
    } else {
      var d :| d in docs && digest(Hashed(d)) == ZERO_HASH;
      assert d in more;
    }
  }

  lemma FirstCollides(digest: Digest, docs: seq<Doc>)
    requires Linked(digest, docs) && docs != [] && HeadOf(docs) == Some(Str(ZERO_HASH))
    ensures Collision(digest, docs)
  {
    var d := docs[|docs| - 1];
    assert d in docs && digest(Hashed(d)) == ZERO_HASH;
  }

  /** The last records under one head: the same, with one head before them, or a collision. */
  lemma LastsAgree(digest: Digest, xs: seq<Doc>, ys: seq<Doc>)
    requires xs != [] && ys != [] && Linked(digest, xs) && Linked(digest, ys) && HeadOf(xs) == HeadOf(ys)
    ensures Collision(digest, xs + ys) ||
      (Hashed(xs[|xs| - 1]) == Hashed(ys[|ys| - 1]) && HeadOf(xs[..|xs| - 1]) == HeadOf(ys[..|ys| - 1]))
  {
    var x, y := xs[|xs| - 1], ys[|ys| - 1];
    assert x in xs + ys && y in xs + ys && digest(Hashed(x)) == digest(Hashed(y));
    PrevOfHashed(x);
    PrevOfHashed(y);
  }

  /** Two chains with one head hold the same records, or they exhibit a hash collision. For any digest. */
  lemma {:induction false} HeadCommits(digest: Digest, xs: seq<Doc>, ys: seq<Doc>)
    requires Linked(digest, xs) && Linked(digest, ys) && HeadOf(xs) == HeadOf(ys)
    ensures SameRecords(xs, ys) || Collision(digest, xs + ys)
  {
    var all := xs + ys;
    if xs == [] && ys == [] {
    } else if xs == [] {
      FirstCollides(digest, ys);
      assert all == ys;
    } else if ys == [] {
      FirstCollides(digest, xs);
      assert all == xs;
    } else {
      LastsAgree(digest, xs, ys);
      if !Collision(digest, all) {
        var xs', ys' := xs[..|xs| - 1], ys[..|ys| - 1];
        HeadCommits(digest, xs', ys');
        if Collision(digest, xs' + ys') {
          CollisionGrows(digest, xs' + ys', all);
        }
      }
    }
  }

  /** Directories that verify with no breaks and have one head hash hold the same record sequence, however
      it is cut into files, unless the hash function collides on their records. */
  lemma HeadHashCommitsToHistory(digest: Digest, a: seq<File>, b: seq<File>)
    requires Clean(digest, Flat(a)) && Clean(digest, Flat(b)) && forall x :: digest(x) != ""
    requires TailOf(Flat(a)).hash == TailOf(Flat(b)).hash
    ensures SameRecords(Docs(Flat(a)), Docs(Flat(b))) || Collision(digest, Docs(Flat(a)) + Docs(Flat(b)))
  {
    TailIsHead(digest, Flat(a));
    TailIsHead(digest, Flat(b));
    CleanIsLinked(digest, Flat(a));
    CleanIsLinked(digest, Flat(b));
    HeadCommits(digest, Docs(Flat(a)), Docs(Flat(b)));
  }

  // ---- rearranging records ----

  predicate AllObj(lines: seq<Line>) {
    forall l | l in lines :: l.Obj?
  }

  lemma {:induction false} DocsOfObjs(lines: seq<Line>)
    requires AllObj(lines)
    ensures |Docs(lines)| == |lines| && forall i | 0 <= i < |lines| :: Docs(lines)[i] == lines[i].doc
  {
    if lines != [] {
      assert lines[|lines| - 1] in lines;
      assert forall l | l in lines[..|lines| - 1] :: l in lines;
      DocsOfObjs(lines[..|lines| - 1]);
    }
  }

  /** Heads at different points of a chain differ. */
  lemma HeadsDiffer(digest: Digest, docs: seq<Doc>, i: nat, j: nat)
    requires Ideal(digest) && Linked(digest, docs) && DistinctDocs(docs) && i < j <= |docs|
    ensures HeadOf(docs[..i]) != HeadOf(docs[..j])
  {
    var xs, ys := docs[..i], docs[i..j];
    assert docs[..j] == xs + ys && docs == docs[..j] + docs[j..];
    LinkedPrefix(digest, docs[..j], docs[j..]);
    assert forall d | d in xs + ys :: d in docs;
    HeadsNeverRepeat(digest, xs, ys);
  }

  lemma {:induction false} PrevAt(digest: Digest, docs: seq<Doc>, i: nat)
    requires Linked(digest, docs) && i < |docs|
    ensures Get(docs[i], "prev_hash") == HeadOf(docs[..i])
  {
    var init := docs[..|docs| - 1];
    if i < |init| {
      PrevAt(digest, init, i);
      assert init[..i] == docs[..i];
    }
  }

  lemma {:induction false} DocsTake(lines: seq<Line>, k: nat)
    requires AllObj(lines) && k <= |lines|
    ensures |Docs(lines)| == |lines| && Docs(lines[..k]) == Docs(lines)[..k]
  {
    DocsOfObjs(lines);
    var init := lines[..k];
    assert forall l | l in init :: l in lines;
    DocsOfObjs(init);
  }

  lemma {:induction false} CleanTake(digest: Digest, lines: seq<Line>, k: nat)
    requires Clean(digest, lines) && k <= |lines|
    ensures Clean(digest, lines[..k])
  {
    if k == |lines| {
      assert lines[..k] == lines;
    } else {
      CleanTake(digest, lines[..|lines| - 1], k);
      assert lines[..|lines| - 1][..k] == lines[..k];
    }
  }

  /** A chain read up to line `k`: its records and where its head stands. */
  lemma ChainUpTo(digest: Digest, chain: seq<Line>, k: nat)
    requires Clean(digest, chain) && AllObj(chain) && k <= |chain|
    ensures |Docs(chain)| == |chain| && Linked(digest, Docs(chain))
    ensures HeadOf(Docs(chain)[..k]) == Some(CursorOf(chain[..k]).prev)
  {
    CleanTake(digest, chain, k);
    CleanIsLinked(digest, chain[..k]);
    CleanIsLinked(digest, chain);
    DocsTake(chain, k);
  }

  lemma FollowsCursor(digest: Digest, c: Cursor, line: Line)
    requires line.Obj? && Faults(digest, c, line) == []
    ensures Get(line.doc, "prev_hash") == Some(c.prev)
    ensures Get(line.doc, "record_hash") == Some(Str(digest(Hashed(line.doc))))
  {
    assert LinkFaults(digest, c, line.doc) == [];
  }

  lemma SameHeadSamePlace(digest: Digest, docs: seq<Doc>, j: nat, k: nat)
    requires Ideal(digest) && Linked(digest, docs) && DistinctDocs(docs) && j <= |docs| && k <= |docs|
    requires HeadOf(docs[..j]) == HeadOf(docs[..k])
    ensures j == k
  {
    if j < k {
      HeadsDiffer(digest, docs, j, k);
    } else if k < j {
      HeadsDiffer(digest, docs, k, j);
    }
  }

  /** The only line of a chain that verifies right after its first `k` is the one at `k`. */
  lemma NextIsNext(digest: Digest, chain: seq<Line>, k: nat, line: Line)
    requires Ideal(digest) && Clean(digest, chain) && AllObj(chain) && DistinctDocs(Docs(chain))
    requires k <= |chain| && line in chain && Faults(digest, CursorOf(chain[..k]), line) == []
    ensures k < |chain| && line == chain[k]
  {
    var j :| 0 <= j < |chain| && chain[j] == line;
    FollowsCursor(digest, CursorOf(chain[..k]), line);
    ChainUpTo(digest, chain, k);
    DocsOfObjs(chain);
    PrevAt(digest, Docs(chain), j);
    SameHeadSamePlace(digest, Docs(chain), j, k);
  }

  lemma LastStep(digest: Digest, lines: seq<Line>)
    requires Clean(digest, lines) && lines != []
    ensures Clean(digest, lines[..|lines| - 1])
    ensures Faults(digest, CursorOf(lines[..|lines| - 1]), lines[|lines| - 1]) == []
  {
  }

  lemma {:induction false} StepAt(digest: Digest, lines: seq<Line>, i: nat)
    requires Clean(digest, lines) && i < |lines|
    ensures Clean(digest, lines[..i]) && Faults(digest, CursorOf(lines[..i]), lines[i]) == []
  {
    LastStep(digest, lines);
    var init := lines[..|lines| - 1];
    if i < |init| {
      StepAt(digest, init, i);
      assert init[..i] == lines[..i];
    } else {
      assert init == lines[..i];
    }
  }

  /** The first `k` lines of a selection that verifies are the first `k` lines of the chain. */
  lemma {:induction false} SelectedUpTo(digest: Digest, chain: seq<Line>, picked: seq<Line>, k: nat)
    requires Ideal(digest) && Clean(digest, chain) && AllObj(chain) && DistinctDocs(Docs(chain))
    requires (forall l | l in picked :: l in chain) && Clean(digest, picked) && k <= |picked|
    ensures k <= |chain| && picked[..k] == chain[..k]
  {
    if k > 0 {
      SelectedUpTo(digest, chain, picked, k - 1);
      StepAt(digest, picked, k - 1);
      NextIsNext(digest, chain, k - 1, picked[k - 1]);
      TakeSnoc(picked, chain, k - 1);
    }
  }

  lemma TakeSnoc<A>(a: seq<A>, b: seq<A>, k: nat)
    requires k < |a| && k < |b| && a[..k] == b[..k] && a[k] == b[k]
    ensures a[..k + 1] == b[..k + 1]
  {
    assert a[..k + 1] == a[..k] + [a[k]] && b[..k + 1] == b[..k] + [b[k]];
  }

  /** Any selection of a chain's lines, in any order and with repetitions, verifies iff it is a prefix. */
  lemma SelectionVerifiesIff(digest: Digest, chain: seq<Line>, picked: seq<Line>)
    requires Ideal(digest) && Clean(digest, chain) && AllObj(chain) && DistinctDocs(Docs(chain))
    requires forall l | l in picked :: l in chain
    ensures Clean(digest, picked) <==> picked <= chain
  {
    if picked <= chain {
      assert chain == picked + chain[|picked|..];
      CleanPrefix(digest, picked, chain[|picked|..]);
    } else if Clean(digest, picked) {
      assert picked[..|picked|] == picked;
      SelectedUpTo(digest, chain, picked, |picked|);
    }
  }

  /** Putting the records in any other order is reported. */
  lemma ReorderIsReported(digest: Digest, chain: seq<Line>, order: seq<Line>)
    requires Ideal(digest) && Clean(digest, chain) && AllObj(chain) && DistinctDocs(Docs(chain))
    requires multiset(order) == multiset(chain) && order != chain
    ensures !Clean(digest, order)
  {
    forall l | l in order ensures l in chain {
      assert l in multiset(order);
    }
    SelectionVerifiesIff(digest, chain, order);
    assert |order| == |multiset(order)| == |chain|;
  }

  /** Deleting any block but a final one is reported. */
  lemma DeletionIsReported(digest: Digest, chain: seq<Line>, i: nat, j: nat)
    requires Ideal(digest) && Clean(digest, chain) && AllObj(chain) && DistinctDocs(Docs(chain))
    requires i < j < |chain|
    ensures !Clean(digest, chain[..i] + chain[j..])
  {
    var rest := chain[..i] + chain[j..];
    SelectionVerifiesIff(digest, chain, rest);
    if rest <= chain {
      assert rest[i] == chain[j] && chain[i] == chain[j];
      SameLineSamePlace(digest, chain, i, j);
      assert false;
    }
  }

  lemma SameLineSamePlace(digest: Digest, chain: seq<Line>, i: nat, j: nat)
    requires Ideal(digest) && Clean(digest, chain) && AllObj(chain) && DistinctDocs(Docs(chain))
    requires i < |chain| && j < |chain| && chain[i] == chain[j]
    ensures i == j
  {
    DocsOfObjs(chain);
    CleanIsLinked(digest, chain);
    PrevAt(digest, Docs(chain), i);
    PrevAt(digest, Docs(chain), j);
    SameHeadSamePlace(digest, Docs(chain), i, j);
  }

  // ---- editing one record ----

  /** Changing what a record's hash covers, without re-hashing it, is reported wherever the record stands. */
  lemma EditIsReported(digest: Digest, lines: seq<Line>, i: nat, edited: Line)
    requires Ideal(digest) && Clean(digest, lines) && i < |lines| && lines[i].Obj? && edited.Obj?
    requires DistinctKeys(edited.doc) && DistinctKeys(lines[i].doc)
    requires Get(edited.doc, "record_hash") == Get(lines[i].doc, "record_hash")
    requires Hashed(edited.doc) != Hashed(lines[i].doc)
    ensures !Clean(digest, lines[i := edited])
  {
    StepAt(digest, lines, i);
    if Clean(digest, lines[i := edited]) {
      PrevOfHashed(edited.doc);
      PrevOfHashed(lines[i].doc);
      StepAt(digest, lines[i := edited], i);
      assert false;
    }
  }

  /** The first record after some lines of a chain points at their head. */
  lemma {:induction false} NextPointsBack(digest: Digest, a: seq<Line>, b: seq<Line>)
    requires Clean(digest, a + b) && Docs(b) != []
    ensures Get(Docs(b)[0], "prev_hash") == HeadOf(Docs(a))
  {
    CleanIsLinked(digest, a + b);
    DocsConcat(a, b);
    var docs := Docs(a + b);
    PrevAt(digest, docs, |Docs(a)|);
    assert docs[..|Docs(a)|] == Docs(a) && docs[|Docs(a)|] == Docs(b)[0];
  }

  /** A record with a successor cannot be changed at all: blanked, replaced or even re-hashed, it is reported. */
  lemma InnerEditIsReported(digest: Digest, a: seq<Line>, line: Line, b: seq<Line>, edited: Line)
    requires Ideal(digest) && Clean(digest, a + [line] + b) && line.Obj? && Docs(b) != []
    requires DistinctDocs(Docs(a + [line])) && (edited.Obj? ==> DistinctKeys(edited.doc))
    requires !edited.Obj? || Hashed(edited.doc) != Hashed(line.doc)
    ensures !Clean(digest, a + [edited] + b)
  {
    if Clean(digest, a + [edited] + b) {
      NextPointsBack(digest, a + [line], b);
      NextPointsBack(digest, a + [edited], b);
      HeadsWith(digest, a, line, b);
      HeadsWith(digest, a, edited, b);
      if edited.Obj? {
        CleanSnoc(digest, a, line);
        CleanSnoc(digest, a, edited);
        FollowsCursor(digest, CursorOf(a), line);
        FollowsCursor(digest, CursorOf(a), edited);
        assert line.doc in Docs(a + [line]);
        SameDigestSameRecord(digest, line.doc, edited.doc);
        assert false;
      } else {
        HeadsNeverRepeat(digest, Docs(a), [line.doc]);
        assert false;
      }
    }
  }

  lemma SameDigestSameRecord(digest: Digest, d: Doc, e: Doc)
    requires Ideal(digest) && DistinctKeys(d) && DistinctKeys(e) && digest(Hashed(d)) == digest(Hashed(e))
    ensures Hashed(d) == Hashed(e)
  {
    PrevOfHashed(d);
    PrevOfHashed(e);
  }

  /** A chain up to one of its lines: it is a chain, and the line adds its record, if it holds one. */
  lemma HeadsWith(digest: Digest, a: seq<Line>, line: Line, b: seq<Line>)
    requires Clean(digest, a + [line] + b)
    ensures Clean(digest, a + [line]) && Linked(digest, Docs(a + [line]))
    ensures Docs(a + [line]) == if line.Obj? then Docs(a) + [line.doc] else Docs(a)
  {
    CleanPrefix(digest, a + [line], b);
    CleanIsLinked(digest, a + [line]);
    assert (a + [line])[..|a|] == a;
  }
}
