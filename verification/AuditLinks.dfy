// What a clean verifier walk says about the records it walked over.
module AuditLinks {
  import opened Text
  import opened JsonText
  import opened AuditChain

  /** The dicts of the lines that hold one. */
  function Docs(lines: seq<Line>): seq<Doc> {
    if lines == [] then []
    else
      var init, last := lines[..|lines| - 1], lines[|lines| - 1];
      Docs(init) + if last.Obj? then [last.doc] else []
  }

  function HeadOf(docs: seq<Doc>): Option<Scalar> {
    if docs == [] then Some(Str(ZERO_HASH)) else Get(docs[|docs| - 1], "record_hash")
  }

  /** Every record carries its own digest and its predecessor's. */
  predicate Linked(digest: Digest, docs: seq<Doc>) {
    docs == [] ||
    var init, last := docs[..|docs| - 1], docs[|docs| - 1];
    && Linked(digest, init)
    && Get(last, "record_hash") == Some(Str(digest(Hashed(last))))
    && Get(last, "prev_hash") == HeadOf(init)
  }

  predicate DistinctDocs(docs: seq<Doc>) {
    forall d | d in docs :: DistinctKeys(d)
  }

  lemma {:induction false} DocsConcat(a: seq<Line>, b: seq<Line>)
    ensures Docs(a + b) == Docs(a) + Docs(b)
  {
    if b == [] {
      assert a + b == a;
    } else {
      var b', last := b[..|b| - 1], b[|b| - 1];
      assert (a + b)[..|a + b| - 1] == a + b';
      DocsConcat(a, b');
      var tail := if last.Obj? then [last.doc] else [];
      assert Docs(a) + Docs(b') + tail == Docs(a) + (Docs(b') + tail);
    }
  }

  /** A clean walk has met only chained records, and stands at the last one's hash. */
  lemma {:induction false} CleanIsLinked(digest: Digest, lines: seq<Line>)
    requires Clean(digest, lines)
    ensures Linked(digest, Docs(lines)) && HeadOf(Docs(lines)) == Some(CursorOf(lines).prev)
    ensures forall l | l in lines :: !l.Unreadable?
  {
    if lines != [] {
      var init, last := lines[..|lines| - 1], lines[|lines| - 1];
      CleanIsLinked(digest, init);
      if last.Obj? {
        var d := last.doc;
        assert Docs(lines) == Docs(init) + [d];
        assert (Docs(init) + [d])[..|Docs(init)|] == Docs(init);
        assert LinkFaults(digest, CursorOf(init), d) == [];
      } else {
        assert Docs(lines) == Docs(init);
      }
    }
  }

  lemma {:induction false} WithoutKeys(d: Doc, k: string)
    ensures Keys(Without(d, k)) <= Keys(d)
    ensures DistinctKeys(d) ==> DistinctKeys(Without(d, k))
    ensures forall j | j != k :: Get(Without(d, k), j) == Get(d, j)
  {
    if d != [] {
      WithoutKeys(d[1..], k);
      var rest := Without(d[1..], k);
      if d[0].key != k {
        assert Without(d, k) == [d[0]] + rest && ([d[0]] + rest)[1..] == rest;
      } else {
        assert Without(d, k) == rest;
      }
    }
  }

  lemma PrevOfHashed(d: Doc)
    ensures Get(Hashed(d), "prev_hash") == Get(d, "prev_hash")
    ensures DistinctKeys(d) ==> DistinctKeys(Hashed(d))
  {
    WithoutKeys(d, "record_hash");
    assert |"prev_hash"| != |"record_hash"|;
  }

  /** A chain never returns to a head it had before. */
  lemma {:induction false} HeadsNeverRepeat(digest: Digest, xs: seq<Doc>, ys: seq<Doc>)
    requires Ideal(digest) && Linked(digest, xs + ys) && DistinctDocs(xs + ys) && ys != []
    ensures HeadOf(xs + ys) != HeadOf(xs)
    decreases |xs|
  {
    var all := xs + ys;
    var y := all[|all| - 1];
    if xs != [] && HeadOf(all) == HeadOf(xs) {
      var x, xs' := xs[|xs| - 1], xs[..|xs| - 1];
      LinkedPrefix(digest, xs, ys);
      assert x in all && y in all by { assert all[|xs| - 1] == x; }
      PrevOfHashed(x);
      PrevOfHashed(y);
      assert digest(Hashed(x)) == digest(Hashed(y));
      var ys' := [x] + ys[..|ys| - 1];
      assert all[..|all| - 1] == xs' + ys';
      assert HeadOf(xs' + ys') == HeadOf(xs');
      assert forall d | d in xs' + ys' :: d in all;
      HeadsNeverRepeat(digest, xs', ys');
    }
  }

  lemma {:induction false} LinkedPrefix(digest: Digest, xs: seq<Doc>, ys: seq<Doc>)
    requires Linked(digest, xs + ys)
    ensures Linked(digest, xs)
  {
    if ys == [] {
      assert xs + ys == xs;
    } else {
      assert (xs + ys)[..|xs + ys| - 1] == xs + ys[..|ys| - 1];
      LinkedPrefix(digest, xs, ys[..|ys| - 1]);
    }
  }

  /** Where the verifier's forward walk ends, the backward tail scan arrives too. */
  lemma {:induction false} TailIsHead(digest: Digest, lines: seq<Line>)
    requires Clean(digest, lines) && forall x :: digest(x) != ""
    ensures CursorOf(lines).prev == Str(TailOf(lines).hash)
  {
    if lines != [] {
      var init, last := lines[..|lines| - 1], lines[|lines| - 1];
      TailIsHead(digest, init);
      if last.Obj? {
        assert LinkFaults(digest, CursorOf(init), last.doc) == [];
        assert digest(Hashed(last.doc)) != "";
      }
    }
  }

  /** No record on these lines, and nothing the verifier would report. */
  predicate Idle(lines: seq<Line>) {
    forall l | l in lines :: l.Blank?
  }

  lemma {:induction false} IdleAppend(digest: Digest, a: seq<Line>, b: seq<Line>)
    requires Idle(b)
    ensures Clean(digest, a + b) <==> Clean(digest, a)
    ensures CursorOf(a + b) == CursorOf(a) && TailOf(a + b) == TailOf(a)
  {
    if b == [] {
      assert a + b == a;
    } else {
      var b', last := b[..|b| - 1], b[|b| - 1];
      assert a + b == (a + b') + [last] by { assert b == b' + [last]; }
      assert last in b;
      CleanSnoc(digest, a + b', last);
      IdleAppend(digest, a, b');
    }
  }

  lemma {:induction false} IdleHasNoDocs(lines: seq<Line>)
    requires forall l | l in lines :: !l.Unreadable?
    ensures Idle(lines) <==> Docs(lines) == []
  {
    if lines != [] {
      var init, last := lines[..|lines| - 1], lines[|lines| - 1];
      assert lines == init + [last] && last in lines;
      IdleHasNoDocs(init);
      assert forall l | l in lines :: l in init || l == last;
      assert forall l | l in init :: l in lines;
    }
  }
}
