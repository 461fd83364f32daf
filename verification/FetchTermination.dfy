// When the windowed fetch ends under a floor below one microsecond, where halving need not make progress.
module FetchTermination {
  import opened Text
  import opened WindowedFetch

  /** Some whole second that ends in the window fills a page. */
  ghost predicate FullSecond(server: seq<Alert>, pageSize: nat, window: Slice) {
    exists u :: FullAt(server, pageSize, window, u)
  }

  predicate FullAt(server: seq<Alert>, pageSize: nat, window: Slice, u: int) {
    && window.since < u <= window.until && u % 1_000_000 == 0
    && |Matching(server, Slice(u - 1_000_000, u))| >= pageSize
  }

  /** All slices of the stack lie in the window. */
  predicate Inside(stack: seq<Slice>, window: Slice) {
    forall s | s in stack :: window.since <= s.since <= s.until <= window.until
  }

  lemma SplitStaysInside(stack: seq<Slice>, window: Slice)
    requires stack != [] && Inside(stack, window)
    requires stack[|stack| - 1].since <= Mid(stack[|stack| - 1]) <= stack[|stack| - 1].until
    ensures Inside(Split(stack), window) && Inside(stack[..|stack| - 1], window)
  {
    var s := stack[|stack| - 1];
    assert s in stack;
    forall x | x in Split(stack) ensures window.since <= x.since <= x.until <= window.until {
      assert x in stack || x == Slice(s.since, Mid(s)) || x == Slice(Mid(s), s.until);
    }
  }

  /** The shortest slice that ends on a whole second asks for all of that second; any other asks for nothing. */
  lemma {:induction false} ShortestSlice(server: seq<Alert>, u: int)
    ensures Matching(server, Slice(u - 1, u)) ==
      (if u % 1_000_000 == 0 then Matching(server, Slice(u - 1_000_000, u)) else [])
  {
    CutAround(u);
    if server != [] {
      ShortestSlice(server[1..], u);
    }
  }

  lemma CutAround(u: int)
    ensures u % 1_000_000 == 0 ==> Cut(u - 1) == u - 1_000_000 == Cut(u - 1_000_000) && Cut(u) == u
    ensures u % 1_000_000 != 0 ==> Cut(u - 1) == Cut(u)
  {
  }

  /** Without a full second no slice of at most a microsecond fills its page. */
  lemma ShortIsNotFull(fetch: Slice -> seq<Alert>, server: seq<Alert>, pageSize: nat, window: Slice, s: Slice)
    requires pageSize >= 1 && PagesOf(fetch, server, pageSize) && !FullSecond(server, pageSize, window)
    requires window.since <= s.since <= s.until <= window.until && s.until - s.since <= 1
    ensures |fetch(s)| < pageSize
  {
    assert Answers(server, s, pageSize, fetch(s));
    if s.since == s.until {
      MatchingOfEmptyWindow(server, s);
    } else {
      ShortestIsNotFull(server, pageSize, window, s.until);
      assert s == Slice(s.until - 1, s.until);
    }
  }

  lemma ShortestIsNotFull(server: seq<Alert>, pageSize: nat, window: Slice, u: int)
    requires pageSize >= 1 && !FullSecond(server, pageSize, window) && window.since < u <= window.until
    ensures |Matching(server, Slice(u - 1, u))| < pageSize
  {
    ShortestSlice(server, u);
    assert !FullAt(server, pageSize, window, u);
  }

  /** Without a full second a round under a floor below one microsecond is a round under one microsecond. */
  lemma RoundAsIfOne(fetch: Slice -> seq<Alert>, server: seq<Alert>, pageSize: nat, floor: int, window: Slice, w: Work)
    requires pageSize >= 1 && floor <= 0 && PagesOf(fetch, server, pageSize) && !FullSecond(server, pageSize, window)
    requires w.stack != [] && Inside(w.stack, window)
    ensures Round(fetch, pageSize, floor, w) == Round(fetch, pageSize, 1, w)
    ensures Inside(Round(fetch, pageSize, floor, w).stack, window)
  {
    var s := w.stack[|w.stack| - 1];
    assert s in w.stack;
    if s.until - s.since <= 1 {
      ShortIsNotFull(fetch, server, pageSize, window, s);
    }
    SplitStaysInside(w.stack, window);
  }

  lemma AfterRound(fetch: Slice -> seq<Alert>, pageSize: nat, floor: int, w: Work, next: Work, n: nat)
    requires n > 0 && w.stack != [] && next == Round(fetch, pageSize, floor, w)
    ensures After(fetch, pageSize, floor, w, n) == After(fetch, pageSize, floor, next, n - 1)
  {
  }

  lemma {:induction false} RunAsIfOne(fetch: Slice -> seq<Alert>, server: seq<Alert>, pageSize: nat, floor: int,
                                      window: Slice, w: Work, n: nat)
    requires pageSize >= 1 && floor <= 0 && PagesOf(fetch, server, pageSize) && !FullSecond(server, pageSize, window)
    requires Inside(w.stack, window)
    ensures After(fetch, pageSize, floor, w, n) == After(fetch, pageSize, 1, w, n)
    decreases n
  {
    if n > 0 && w.stack != [] {
      RoundAsIfOne(fetch, server, pageSize, floor, window, w);
      var next := Round(fetch, pageSize, floor, w);
      AfterRound(fetch, pageSize, floor, w, next, n);
      AfterRound(fetch, pageSize, 1, w, next, n);
      RunAsIfOne(fetch, server, pageSize, floor, window, next, n - 1);
    }
  }

  /** Some slice of the stack contains the microsecond that ends at `u`. */
  ghost predicate Contains(stack: seq<Slice>, u: int) {
    exists s :: s in stack && s.since < u <= s.until
  }

  lemma {:induction false} MatchingGrows(server: seq<Alert>, a: Slice, b: Slice)
    requires Cut(b.since) <= Cut(a.since) && Cut(a.until) <= Cut(b.until)
    ensures |Matching(server, a)| <= |Matching(server, b)|
  {
    if server != [] {
      MatchingGrows(server[1..], a, b);
    }
  }

  lemma AroundFullSecond(server: seq<Alert>, pageSize: nat, window: Slice, s: Slice, u: int)
    requires FullAt(server, pageSize, window, u) && s.since < u <= s.until
    ensures |Matching(server, s)| >= pageSize
  {
    CutAround(u);
    CutMonotone(s.since, u - 1);
    CutMonotone(u, s.until);
    MatchingGrows(server, Slice(u - 1_000_000, u), s);
  }

  lemma SplitStillContains(stack: seq<Slice>, u: int)
    requires stack != [] && stack[|stack| - 1].since < u <= stack[|stack| - 1].until
    ensures Contains(Split(stack), u)
  {
    var s := stack[|stack| - 1];
    var a, b := Slice(s.since, Mid(s)), Slice(Mid(s), s.until);
    assert Split(stack)[|stack| - 1] == a && Split(stack)[|stack|] == b;
    assert a in Split(stack) && b in Split(stack);
    assert a.since < u <= a.until || b.since < u <= b.until;
  }

  lemma BelowStillContains(stack: seq<Slice>, u: int)
    requires stack != [] && Contains(stack, u)
    requires !(stack[|stack| - 1].since < u <= stack[|stack| - 1].until)
    ensures Contains(stack[..|stack| - 1], u) && Contains(Split(stack), u)
  {
    var x :| x in stack && x.since < u <= x.until;
    assert x in stack[..|stack| - 1] && x in Split(stack);
  }

  /** Under such a floor a slice around a full second is halved for ever. */
  lemma {:induction false} FullSecondKeepsGoing(fetch: Slice -> seq<Alert>, server: seq<Alert>, pageSize: nat,
                                                floor: int, window: Slice, u: int, w: Work, n: nat)
    requires floor <= 0 && PagesOf(fetch, server, pageSize) && FullAt(server, pageSize, window, u)
    requires Contains(w.stack, u)
    ensures After(fetch, pageSize, floor, w, n).stack != []
    decreases n
  {
    if n > 0 && w.stack != [] {
      var s := w.stack[|w.stack| - 1];
      assert Answers(server, s, pageSize, fetch(s));
      if s.since < u <= s.until {
        AroundFullSecond(server, pageSize, window, s, u);
        SplitStillContains(w.stack, u);
      } else {
        BelowStillContains(w.stack, u);
      }
      FullSecondKeepsGoing(fetch, server, pageSize, floor, window, u, Round(fetch, pageSize, floor, w), n - 1);
    }
  }

  /** The exact condition: under a floor below one microsecond the loop never ends if and only if some whole second
      that ends in the window holds a page of alerts. */
  lemma EndsUnlessSecondIsFull(fetch: Slice -> seq<Alert>, server: seq<Alert>, pageSize: nat, floor: int,
                               window: Slice)
    requires pageSize >= 1 && floor <= 0 && PagesOf(fetch, server, pageSize)
    ensures Ends(fetch, pageSize, floor, Start(window)) <==> !FullSecond(server, pageSize, window)
  {
    var start := Start(window);
    if u :| FullAt(server, pageSize, window, u) {
      assert window in start.stack && Contains(start.stack, u);
      forall n ensures After(fetch, pageSize, floor, start, n).stack != [] {
        FullSecondKeepsGoing(fetch, server, pageSize, floor, window, u, start, n);
      }
    } else if window.since <= window.until {
      var n := RoundsAreAfter(fetch, pageSize, 1, start);
      RunAsIfOne(fetch, server, pageSize, floor, window, start, n);
    } else {
      EmptyWindowEnds(fetch, server, pageSize, floor, window);
    }
  }

  lemma EmptyWindowEnds(fetch: Slice -> seq<Alert>, server: seq<Alert>, pageSize: nat, floor: int, window: Slice)
    requires pageSize >= 1 && PagesOf(fetch, server, pageSize) && window.since >= window.until
    ensures After(fetch, pageSize, floor, Start(window), 1).stack == []
  {
    CutMonotone(window.until, window.since);
    MatchingOfEmptyWindow(server, window);
    assert Answers(server, window, pageSize, fetch(window));
    assert [window][..0] == [];
    var next := Round(fetch, pageSize, floor, Start(window));
    assert next.stack == [] && After(fetch, pageSize, floor, next, 0) == next;
  }

  /** What such a run returns when it ends is what a floor of one microsecond returns. */
  lemma EndsAsIfOne(fetch: Slice -> seq<Alert>, server: seq<Alert>, pageSize: nat, floor: int, window: Slice, n: nat)
    requires pageSize >= 1 && floor <= 0 && PagesOf(fetch, server, pageSize) && window.since <= window.until
    requires After(fetch, pageSize, floor, Start(window), n).stack == []
    ensures After(fetch, pageSize, floor, Start(window), n) == Rounds(fetch, pageSize, 1, Start(window))
  {
    EndsUnlessSecondIsFull(fetch, server, pageSize, floor, window);
    RunAsIfOne(fetch, server, pageSize, floor, window, Start(window), n);
    AfterEnds(fetch, pageSize, 1, Start(window), n);
  }

  /** A concrete input: under a floor of zero, a second with as many alerts as a page holds is asked for again and
      again. */
  lemma ZeroFloorNeverEnds(n: nat)
    ensures var server := [Alert(Some("a"), 0)];
      var fetch := (s: Slice) => Matching(server, s);
      PagesOf(fetch, server, 1) && After(fetch, 1, 0, Start(Slice(0, 1_000_000)), n).stack != []
  {
    var server := [Alert(Some("a"), 0)];
    var fetch := (s: Slice) => Matching(server, s);
    forall s ensures Answers(server, s, 1, fetch(s)) {
      assert server[1..] == [];
    }
    var window := Slice(0, 1_000_000);
    assert server[1..] == [] && Within(server[0], window) && Matching(server, window) == server;
    assert FullAt(server, 1, window, 1_000_000);
    assert window in [window] && Contains([window], 1_000_000);
    FullSecondKeepsGoing(fetch, server, 1, 0, window, 1_000_000, Start(window), n);
  }
}
