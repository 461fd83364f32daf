// Fetching every alert of a time window through an API that caps each page.
module WindowedFetch {
  import opened Text

  /** Times are microseconds. */
  datatype Alert = Alert(id: Option<string>, created: int)

  datatype Slice = Slice(since: int, until: int)

  /** `strftime('%Y-%m-%dT%H:%M:%SZ')`: a query bound loses its microseconds. */
  function Cut(t: int): int {
    t - t % 1_000_000
  }

  /** The last whole second that is not later. */
  lemma CutIs(t: int, second: int)
    ensures Cut(t) <= t < Cut(t) + 1_000_000 && Cut(t) % 1_000_000 == 0
    ensures second % 1_000_000 == 0 && second <= t < second + 1_000_000 ==> second == Cut(t)
  {
    if second % 1_000_000 == 0 && second <= t < second + 1_000_000 {
      assert t == second / 1_000_000 * 1_000_000 + (t - second);
    }
  }

  predicate Within(a: Alert, s: Slice) {
    Cut(s.since) <= a.created < Cut(s.until)
  }

  /** What the server holds for a slice. */
  function Matching(server: seq<Alert>, s: Slice): seq<Alert> {
    if server == [] then []
    else (if Within(server[0], s) then [server[0]] else []) + Matching(server[1..], s)
  }

  /** The page contract: a page holds only matching alerts, all of them unless the cap is reached. */
  predicate Answers(server: seq<Alert>, s: Slice, pageSize: nat, page: seq<Alert>) {
    && multiset(page) <= multiset(Matching(server, s))
    && |page| == if |Matching(server, s)| <= pageSize then |Matching(server, s)| else pageSize
  }

  ghost predicate PagesOf(fetch: Slice -> seq<Alert>, server: seq<Alert>, pageSize: nat) {
    forall s :: Answers(server, s, pageSize, fetch(s))
  }

  /** `timedelta / 2`, which rounds a half microsecond to the even neighbour. */
  function Half(d: int): int {
    if d % 2 == 0 then d / 2 else if d / 2 % 2 == 0 then d / 2 else d / 2 + 1
  }

  /** The nearest integer to a half, and of two equally near the even one. */
  lemma HalfRoundsToEven(d: int, h: int)
    ensures -1 <= 2 * Half(d) - d <= 1 && (d % 2 != 0 ==> Half(d) % 2 == 0)
    ensures -1 <= 2 * h - d <= 1 && (d % 2 != 0 ==> h % 2 == 0) ==> h == Half(d)
  {
  }

  function Mid(s: Slice): int {
    s.since + Half(s.until - s.since)
  }

  // ---- de-duplication ----

  function Ids(alerts: seq<Alert>): set<string> {
    set a | a in alerts && a.id.Some? :: a.id.value
  }

  /** `page` appended, each identified alert only when its id has not been seen. */
  function Collect(collected: seq<Alert>, page: seq<Alert>): seq<Alert> {
    if page == [] then collected
    else
      var a := page[|page| - 1];
      var before := Collect(collected, page[..|page| - 1]);
      if a.id.Some? && a.id.value in Ids(before) then before else before + [a]
  }

  predicate DistinctIds(alerts: seq<Alert>) {
    forall i, j | 0 <= i < j < |alerts| :: alerts[i].id.Some? ==> alerts[i].id != alerts[j].id
  }

  lemma {:induction false} CollectIds(collected: seq<Alert>, page: seq<Alert>)
    ensures Ids(Collect(collected, page)) == Ids(collected) + Ids(page)
  {
    if page != [] {
      var a, rest := page[|page| - 1], page[..|page| - 1];
      CollectIds(collected, rest);
      assert page == rest + [a];
      IdsSnoc(rest, a);
      IdsSnoc(Collect(collected, rest), a);
    }
  }

  lemma IdsSnoc(alerts: seq<Alert>, a: Alert)
    ensures Ids(alerts + [a]) == Ids(alerts) + if a.id.Some? then {a.id.value} else {}
  {
    forall x | x in alerts + [a] ensures x in alerts || x == a {}
    forall x | x in alerts ensures x in alerts + [a] {}
    assert a in alerts + [a];
  }

  /** An alert is kept at most as often as it was delivered, and exactly as often when it has no id. */
  lemma {:induction false} CollectCount(collected: seq<Alert>, page: seq<Alert>, x: Alert)
    ensures multiset(Collect(collected, page))[x] <= multiset(collected)[x] + multiset(page)[x]
    ensures x.id.None? ==> multiset(Collect(collected, page))[x] == multiset(collected)[x] + multiset(page)[x]
  {
    if page != [] {
      assert page == page[..|page| - 1] + [page[|page| - 1]];
      CollectCount(collected, page[..|page| - 1], x);
    }
  }

  /** Whether a page's alert is kept: it has no id, or one that neither the alerts collected before the page nor an
      earlier alert of the page has. */
  predicate Kept(collected: seq<Alert>, page: seq<Alert>, i: nat)
    requires i < |page|
  {
    page[i].id.Some? ==>
      (forall c | c in collected :: c.id != page[i].id) && forall j | 0 <= j < i :: page[j].id != page[i].id
  }

  function KeptOf(collected: seq<Alert>, page: seq<Alert>, n: nat): seq<Alert>
    requires n <= |page|
  {
    if n == 0 then []
    else KeptOf(collected, page, n - 1) + if Kept(collected, page, n - 1) then [page[n - 1]] else []
  }

  lemma IdIsIn(alerts: seq<Alert>, id: string)
    ensures id in Ids(alerts) <==> exists a :: a in alerts && a.id == Some(id)
  {
  }

  lemma KeptIff(collected: seq<Alert>, page: seq<Alert>, i: nat)
    requires i < |page|
    ensures !Kept(collected, page, i) <==>
      page[i].id.Some? && page[i].id.value in Ids(collected) + Ids(page[..i])
  {
    if page[i].id.Some? {
      IdIsIn(collected, page[i].id.value);
      IdIsIn(page[..i], page[i].id.value);
      assert forall j | 0 <= j < i :: page[..i][j] == page[j];
    }
  }

  /** The page follows what was collected, in its order, each identified alert at its first delivery. */
  lemma {:induction false} CollectIs(collected: seq<Alert>, page: seq<Alert>, n: nat)
    requires n <= |page|
    ensures Collect(collected, page[..n]) == collected + KeptOf(collected, page, n)
  {
    if n > 0 {
      CollectIs(collected, page, n - 1);
      assert page[..n][..n - 1] == page[..n - 1];
      CollectIds(collected, page[..n - 1]);
      KeptIff(collected, page, n - 1);
    }
  }

  lemma {:induction false} CollectDistinct(collected: seq<Alert>, page: seq<Alert>)
    requires DistinctIds(collected)
    ensures DistinctIds(Collect(collected, page))
  {
    if page != [] {
      CollectDistinct(collected, page[..|page| - 1]);
      DistinctSnoc(Collect(collected, page[..|page| - 1]), page[|page| - 1]);
    }
  }

  lemma DistinctSnoc(alerts: seq<Alert>, a: Alert)
    requires DistinctIds(alerts)
    ensures !(a.id.Some? && a.id.value in Ids(alerts)) ==> DistinctIds(alerts + [a])
  {
    if !(a.id.Some? && a.id.value in Ids(alerts)) {
      forall i | 0 <= i < |alerts| ensures alerts[i].id.Some? ==> alerts[i].id != a.id {
        if alerts[i].id.Some? {
          assert alerts[i] in alerts && alerts[i].id.value in Ids(alerts);
        }
      }
    }
  }

  // ---- splitting a window ----

  lemma CutMonotone(a: int, b: int)
    requires a <= b
    ensures Cut(a) <= Cut(b)
  {
  }

  lemma {:induction false} MatchingCount(server: seq<Alert>, s: Slice, x: Alert)
    ensures multiset(Matching(server, s))[x] == if Within(x, s) then multiset(server)[x] else 0
  {
    if server != [] {
      assert server == [server[0]] + server[1..];
      MatchingCount(server[1..], s, x);
    }
  }

  /** Cut at a point inside, a window's alerts fall into exactly one of the two parts. */
  lemma {:induction false} MatchingSplits(server: seq<Alert>, since: int, mid: int, until: int, x: Alert)
    requires Cut(since) <= Cut(mid) <= Cut(until)
    ensures multiset(Matching(server, Slice(since, until)))[x] ==
      multiset(Matching(server, Slice(since, mid)))[x] + multiset(Matching(server, Slice(mid, until)))[x]
  {
    MatchingCount(server, Slice(since, until), x);
    MatchingCount(server, Slice(since, mid), x);
    MatchingCount(server, Slice(mid, until), x);
  }

  // ---- the work stack ----

  /** Adjacent slices leading from `from` to `to`. */
  predicate Tiles(slices: seq<Slice>, from: int, to: int) {
    if slices == [] then from == to
    else slices[|slices| - 1].until == to && Tiles(slices[..|slices| - 1], from, slices[|slices| - 1].since)
  }

  lemma {:induction false} TilesPrepend(s: Slice, slices: seq<Slice>, to: int)
    requires Tiles(slices, s.until, to)
    ensures Tiles([s] + slices, s.since, to)
  {
    if slices == [] {
      assert [s] + slices == [s] && [s][..0] == [];
    } else {
      assert ([s] + slices)[..|slices|] == [s] + slices[..|slices| - 1];
      TilesPrepend(s, slices[..|slices| - 1], slices[|slices| - 1].since);
    }
  }

  /** A bound on the requests a slice can still cost, times the floor. */
  function Weight(s: Slice, floor: int): int {
    if s.until - s.since <= floor then floor else 4 * (s.until - s.since) - floor
  }

  function Weights(stack: seq<Slice>, floor: int): int {
    if stack == [] then 0 else Weights(stack[..|stack| - 1], floor) + Weight(stack[|stack| - 1], floor)
  }

  lemma {:induction false} WeightsNonNegative(stack: seq<Slice>, floor: int)
    requires floor >= 1
    ensures Weights(stack, floor) >= 0
  {
    if stack != [] {
      WeightsNonNegative(stack[..|stack| - 1], floor);
    }
  }

  /** Halving a slice longer than the floor makes two shorter, adjacent slices, and pays for one request. */
  lemma HalvesPay(s: Slice, floor: int)
    requires floor >= 1 && s.until - s.since > floor
    ensures s.since < Mid(s) < s.until
    ensures floor + Weight(Slice(s.since, Mid(s)), floor) + Weight(Slice(Mid(s), s.until), floor) <= Weight(s, floor)
  {
    var d := s.until - s.since;
    var h := Half(d);
    assert 2 * h - 1 <= d <= 2 * h + 1;
  }

  /** Nothing is delivered that the window does not hold, and no id twice. */
  ghost predicate Sound(server: seq<Alert>, window: Slice, collected: seq<Alert>) {
    DistinctIds(collected) && forall x :: multiset(collected)[x] <= multiset(Matching(server, window))[x]
  }

  /** Every identified alert of the window is there, unless it lies in a slice that was logged. */
  ghost predicate Found(server: seq<Alert>, window: Slice, collected: seq<Alert>, warned: seq<Slice>) {
    forall a | a in server && a.id.Some? && Within(a, window) ::
      a.id.value in Ids(collected) || exists w :: w in warned && Within(a, w)
  }

  /** Every alert without an id is there as often as the server holds it, unless a slice was logged. */
  ghost predicate FoundAnonymous(server: seq<Alert>, window: Slice, collected: seq<Alert>, warned: seq<Slice>) {
    warned == [] ==> forall x: Alert ::
      x.id.None? ==> multiset(collected)[x] == multiset(Matching(server, window))[x]
  }

  /** What the slices already fetched guarantee about the window. */
  ghost predicate Fetched(server: seq<Alert>, window: Slice, collected: seq<Alert>, warned: seq<Slice>) {
    && Sound(server, window, collected)
    && Found(server, window, collected, warned)
    && FoundAnonymous(server, window, collected, warned)
  }

  lemma SoundOneMore(server: seq<Alert>, s: Slice, until: int, collected: seq<Alert>, page: seq<Alert>)
    requires Sound(server, Slice(s.until, until), collected) && Cut(s.since) <= Cut(s.until) <= Cut(until)
    requires multiset(page) <= multiset(Matching(server, s))
    ensures Sound(server, Slice(s.since, until), Collect(collected, page))
  {
    CollectDistinct(collected, page);
    forall x ensures multiset(Collect(collected, page))[x] <= multiset(Matching(server, Slice(s.since, until)))[x] {
      CollectCount(collected, page, x);
      MatchingSplits(server, s.since, s.until, until, x);
    }
  }

  lemma FoundOneMore(server: seq<Alert>, s: Slice, until: int, collected: seq<Alert>, warned: seq<Slice>,
                     page: seq<Alert>, warned': seq<Slice>)
    requires Found(server, Slice(s.until, until), collected, warned)
    requires warned' == warned + [s] || (warned' == warned && multiset(page) == multiset(Matching(server, s)))
    ensures Found(server, Slice(s.since, until), Collect(collected, page), warned')
  {
    CollectIds(collected, page);
    forall a | a in server && a.id.Some? && Within(a, Slice(s.since, until))
      ensures a.id.value in Ids(collected) + Ids(page) || exists w :: w in warned' && Within(a, w)
    {
      if Within(a, s) {
        if warned' == warned {
          MatchingCount(server, s, a);
          assert a in multiset(server) && a in multiset(page);
        } else {
          assert s in warned';
        }
      } else {
        assert Within(a, Slice(s.until, until));
        if a.id.value !in Ids(collected) {
          var w :| w in warned && Within(a, w);
          assert w in warned';
        }
      }
    }
  }

  lemma FoundAnonymousOneMore(server: seq<Alert>, s: Slice, until: int, collected: seq<Alert>, page: seq<Alert>)
    requires FoundAnonymous(server, Slice(s.until, until), collected, []) && Cut(s.since) <= Cut(s.until) <= Cut(until)
    requires multiset(page) == multiset(Matching(server, s))
    ensures FoundAnonymous(server, Slice(s.since, until), Collect(collected, page), [])
  {
    forall x: Alert | x.id.None?
      ensures multiset(Collect(collected, page))[x] == multiset(Matching(server, Slice(s.since, until)))[x]
    {
      CollectCount(collected, page, x);
      MatchingSplits(server, s.since, s.until, until, x);
    }
  }

  lemma FetchedOneMore(server: seq<Alert>, s: Slice, until: int, collected: seq<Alert>, warned: seq<Slice>,
                       page: seq<Alert>, capped: bool)
    requires Fetched(server, Slice(s.until, until), collected, warned)
    requires Cut(s.since) <= Cut(s.until) <= Cut(until)
    requires multiset(page) <= multiset(Matching(server, s))
    requires !capped ==> |page| == |Matching(server, s)|
    ensures Fetched(server, Slice(s.since, until), Collect(collected, page), if capped then warned + [s] else warned)
  {
    SoundOneMore(server, s, until, collected, page);
    if capped {
      FoundOneMore(server, s, until, collected, warned, page, warned + [s]);
    } else {
      SameMultiset(page, Matching(server, s));
      FoundOneMore(server, s, until, collected, warned, page, warned);
      if warned == [] {
        FoundAnonymousOneMore(server, s, until, collected, page);
      }
    }
  }

  lemma SameMultiset(a: seq<Alert>, b: seq<Alert>)
    requires multiset(a) <= multiset(b) && |a| == |b|
    ensures multiset(a) == multiset(b)
  {
    var rest := multiset(b) - multiset(a);
    assert multiset(b) == multiset(a) + rest;
    assert |rest| == 0;
  }

  /** The inner loop over one page. */
  method AddPage(collected: seq<Alert>, seen: set<string>, page: seq<Alert>)
    returns (collected': seq<Alert>, seen': set<string>)
    requires seen == Ids(collected)
    ensures collected' == Collect(collected, page) && seen' == Ids(collected')
  {
    collected', seen' := collected, seen;
    for i := 0 to |page|
      invariant collected' == Collect(collected, page[..i]) && seen' == Ids(collected')
    {
      assert page[..i + 1][..i] == page[..i];
      var a := page[i];
      if a.id.Some? && a.id.value in seen' {
        continue;
      }
      if a.id.Some? {
        seen' := seen' + {a.id.value};
      }
      IdsSnoc(collected', a);
      collected' := collected' + [a];
    }
    assert page[..|page|] == page;
  }

  /** Where the loop stands: the stack tiles what is left, `kept` what is done. */
  ghost predicate Placed(since: int, until: int, frontier: int, stack: seq<Slice>, kept: seq<Slice>) {
    && Tiles(stack, since, frontier) && Tiles(kept, frontier, until)
    && if since <= until then frontier <= until && forall s | s in stack :: s.since <= s.until
       else (stack == [] && frontier == since) || (stack == [Slice(since, until)] && frontier == until)
  }

  /** The stack with the slice on top replaced by its halves. */
  function Split(stack: seq<Slice>): seq<Slice>
    requires stack != []
  {
    var s := stack[|stack| - 1];
    stack[..|stack| - 1] + [Slice(s.since, Mid(s))] + [Slice(Mid(s), s.until)]
  }

  lemma PlacedSplit(since: int, until: int, frontier: int, stack: seq<Slice>, kept: seq<Slice>)
    requires stack != [] && Placed(since, until, frontier, stack, kept)
    requires stack[|stack| - 1].since < Mid(stack[|stack| - 1]) < stack[|stack| - 1].until
    ensures Placed(since, until, frontier, Split(stack), kept)
  {
    var mid := Mid(stack[|stack| - 1]);
    var s, below := stack[|stack| - 1], stack[..|stack| - 1];
    assert s in stack && forall x | x in below :: x in stack;
    var once := below + [Slice(s.since, mid)];
    var twice := once + [Slice(mid, s.until)];
    assert once[..|below|] == below && twice[..|once|] == once;
    assert Tiles(once, since, mid);
    assert Tiles(twice, since, frontier);
    assert forall x | x in twice :: x in below || x == Slice(s.since, mid) || x == Slice(mid, s.until);
  }

  lemma PlacedKeep(since: int, until: int, frontier: int, stack: seq<Slice>, kept: seq<Slice>)
    requires stack != [] && Placed(since, until, frontier, stack, kept)
    ensures var s := stack[|stack| - 1];
      && s.until == frontier
      && Placed(since, until, s.since, stack[..|stack| - 1], [s] + kept)
      && if since <= until then s.since <= s.until <= until else s == Slice(since, until)
  {
    var s, below := stack[|stack| - 1], stack[..|stack| - 1];
    assert s in stack && forall x | x in below :: x in stack;
    TilesPrepend(s, kept, until);
  }

  lemma WeightsPop(stack: seq<Slice>, floor: int)
    requires stack != [] && floor >= 1
    ensures 0 <= Weights(stack[..|stack| - 1], floor)
    ensures floor + Weights(stack[..|stack| - 1], floor) <= Weights(stack, floor)
  {
    WeightsNonNegative(stack[..|stack| - 1], floor);
  }

  lemma WeightsSplit(stack: seq<Slice>, floor: int)
    requires stack != [] && floor >= 1 && stack[|stack| - 1].until - stack[|stack| - 1].since > floor
    ensures stack[|stack| - 1].since < Mid(stack[|stack| - 1]) < stack[|stack| - 1].until
    ensures floor + Weights(Split(stack), floor) <= Weights(stack, floor)
  {
    var s, below := stack[|stack| - 1], stack[..|stack| - 1];
    HalvesPay(s, floor);
    var once := below + [Slice(s.since, Mid(s))];
    var twice := once + [Slice(Mid(s), s.until)];
    assert once[..|below|] == below && twice[..|once|] == once;
  }

  /** The window as fetched: as asked for, or empty when it ends before it starts. */
  function Done(since: int, until: int, frontier: int): Slice {
    if since <= until then Slice(frontier, until) else Slice(until, until)
  }

  /** Fetching the slice on top extends what is guaranteed down to its start. */
  lemma FetchedTop(server: seq<Alert>, since: int, until: int, s: Slice, collected: seq<Alert>, warned: seq<Slice>,
                   page: seq<Alert>, capped: bool)
    requires if since <= until then s.since <= s.until <= until else s == Slice(since, until)
    requires Fetched(server, Done(since, until, s.until), collected, warned)
    requires multiset(page) <= multiset(Matching(server, s))
    requires !capped ==> |page| == |Matching(server, s)|
    ensures Fetched(server, Done(since, until, s.since), Collect(collected, page),
                    if capped then warned + [s] else warned)
  {
    if since <= until {
      CutMonotone(s.since, s.until);
      CutMonotone(s.until, until);
      FetchedOneMore(server, s, until, collected, warned, page, capped);
    } else {
      CutMonotone(until, since);
      MatchingOfEmptyWindow(server, s);
      EmptyPart(page, Matching(server, s));
      assert Collect(collected, page) == collected;
    }
  }

  lemma EmptyPart(part: seq<Alert>, whole: seq<Alert>)
    requires multiset(part) <= multiset(whole) && whole == []
    ensures part == []
  {
    assert |multiset(part)| <= |multiset(whole)|;
  }

  lemma {:induction false} MatchingOfEmptyWindow(server: seq<Alert>, s: Slice)
    requires Cut(s.since) >= Cut(s.until)
    ensures Matching(server, s) == []
  {
    if server != [] {
      MatchingOfEmptyWindow(server[1..], s);
    }
  }

  lemma FetchedAtStart(server: seq<Alert>, since: int, until: int)
    ensures Fetched(server, Done(since, until, until), [], [])
  {
    MatchingOfEmptyWindow(server, Slice(until, until));
  }

  /** `slices` requests, each of weight `floor`. */
  function Cost(slices: nat, floor: int): int {
    if slices == 0 then 0 else Cost(slices - 1, floor) + floor
  }

  lemma {:induction false} CostIsProduct(slices: nat, floor: int)
    ensures Cost(slices, floor) == slices * floor
  {
    if slices > 0 {
      CostIsProduct(slices - 1, floor);
      assert slices * floor == (slices - 1) * floor + floor;
    }
  }

  /** The requests made, and those the stack can still cost, within what the window allows. */
  predicate Paid(slices: nat, stack: seq<Slice>, floor: int, window: Slice) {
    && Cost(slices, floor) + Weights(stack, floor) <= Weight(window, floor)
    && (slices == 0 ==> stack == [window])
  }

  lemma PaidSplit(slices: nat, stack: seq<Slice>, floor: int, window: Slice)
    requires stack != [] && floor >= 1 && stack[|stack| - 1].until - stack[|stack| - 1].since > floor
    requires Paid(slices, stack, floor, window)
    ensures stack[|stack| - 1].since < Mid(stack[|stack| - 1]) < stack[|stack| - 1].until
    ensures Paid(slices + 1, Split(stack), floor, window)
  {
    WeightsSplit(stack, floor);
  }

  lemma PaidKeep(slices: nat, stack: seq<Slice>, floor: int, window: Slice)
    requires stack != [] && floor >= 1 && Paid(slices, stack, floor, window)
    ensures Paid(slices + 1, stack[..|stack| - 1], floor, window)
  {
    WeightsPop(stack, floor);
  }

  /** A kept slice was answered in full, or it hit the cap at the floor and was logged. */
  ghost predicate Logged(server: seq<Alert>, pageSize: nat, floor: int, kept: seq<Slice>, warned: seq<Slice>) {
    && (forall w | w in warned :: w in kept && w.until - w.since <= floor && |Matching(server, w)| >= pageSize)
    && (forall k | k in kept :: k in warned || |Matching(server, k)| < pageSize)
  }

  lemma LoggedKeep(server: seq<Alert>, pageSize: nat, floor: int, kept: seq<Slice>, warned: seq<Slice>, s: Slice,
                   capped: bool)
    requires Logged(server, pageSize, floor, kept, warned)
    requires capped ==> s.until - s.since <= floor
    requires capped <==> |Matching(server, s)| >= pageSize
    ensures Logged(server, pageSize, floor, [s] + kept, if capped then warned + [s] else warned)
  {
    assert s in [s] + kept && s in warned + [s];
    forall k | k in kept ensures k in [s] + kept {}
    forall k | k in [s] + kept ensures k == s || k in kept {}
    forall w | w in warned ensures w in warned + [s] {}
  }

  /** The loop's variables. `warned` are the slices that hit the page cap at the floor and were logged;
      `kept` are the slices whose pages were used. */
  datatype Work = Work(stack: seq<Slice>, slices: nat, collected: seq<Alert>, warned: seq<Slice>, kept: seq<Slice>)

  function Start(window: Slice): Work {
    Work([window], 0, [], [], [])
  }

  /** One round of the loop. */
  function Round(fetch: Slice -> seq<Alert>, pageSize: nat, floor: int, w: Work): Work
    requires w.stack != []
  {
    var s := w.stack[|w.stack| - 1];
    var page := fetch(s);
    if |page| >= pageSize && s.until - s.since > floor then
      w.(stack := Split(w.stack), slices := w.slices + 1)
    else
      Work(w.stack[..|w.stack| - 1], w.slices + 1, Collect(w.collected, page),
           if |page| >= pageSize then w.warned + [s] else w.warned, [s] + w.kept)
  }

  lemma RoundLightens(fetch: Slice -> seq<Alert>, pageSize: nat, floor: int, w: Work)
    requires w.stack != [] && floor >= 1
    ensures 0 <= Weights(Round(fetch, pageSize, floor, w).stack, floor) < Weights(w.stack, floor)
  {
    var s := w.stack[|w.stack| - 1];
    if |fetch(s)| >= pageSize && s.until - s.since > floor {
      WeightsSplit(w.stack, floor);
      WeightsNonNegative(Split(w.stack), floor);
    } else {
      WeightsPop(w.stack, floor);
    }
  }

  /** All rounds: terminates for every floor of at least one microsecond. */
  function Rounds(fetch: Slice -> seq<Alert>, pageSize: nat, floor: int, w: Work): (end: Work)
    requires floor >= 1
    ensures end.stack == []
    decreases Weights(w.stack, floor)
  {
    if w.stack == [] then w
    else
      RoundLightens(fetch, pageSize, floor, w);
      Rounds(fetch, pageSize, floor, Round(fetch, pageSize, floor, w))
  }

  /** The first `n` rounds, for any floor. */
  function After(fetch: Slice -> seq<Alert>, pageSize: nat, floor: int, w: Work, n: nat): Work
    decreases n
  {
    if n == 0 || w.stack == [] then w else After(fetch, pageSize, floor, Round(fetch, pageSize, floor, w), n - 1)
  }

  /** The loop ends. */
  ghost predicate Ends(fetch: Slice -> seq<Alert>, pageSize: nat, floor: int, w: Work) {
    exists n :: After(fetch, pageSize, floor, w, n).stack == []
  }

  lemma {:induction false} RoundsAreAfter(fetch: Slice -> seq<Alert>, pageSize: nat, floor: int, w: Work)
    returns (n: nat)
    requires floor >= 1
    ensures After(fetch, pageSize, floor, w, n) == Rounds(fetch, pageSize, floor, w)
    decreases Weights(w.stack, floor)
  {
    n := 0;
    if w.stack != [] {
      RoundLightens(fetch, pageSize, floor, w);
      n := RoundsAreAfter(fetch, pageSize, floor, Round(fetch, pageSize, floor, w));
      n := n + 1;
    }
  }

  lemma {:induction false} AfterEnds(fetch: Slice -> seq<Alert>, pageSize: nat, floor: int, w: Work, n: nat)
    requires floor >= 1 && After(fetch, pageSize, floor, w, n).stack == []
    ensures After(fetch, pageSize, floor, w, n) == Rounds(fetch, pageSize, floor, w)
    decreases n
  {
    if n > 0 && w.stack != [] {
      AfterEnds(fetch, pageSize, floor, Round(fetch, pageSize, floor, w), n - 1);
    }
  }

  /** Where the loop ends, if it does. */
  ghost function Final(fetch: Slice -> seq<Alert>, pageSize: nat, floor: int, w: Work): (end: Work)
    requires Ends(fetch, pageSize, floor, w)
    ensures end.stack == []
  {
    var n :| After(fetch, pageSize, floor, w, n).stack == [];
    After(fetch, pageSize, floor, w, n)
  }

  /** A floor of at least one microsecond ends the loop, where the rounds end. */
  lemma FinalIsRounds(fetch: Slice -> seq<Alert>, pageSize: nat, floor: int, w: Work)
    requires floor >= 1
    ensures Ends(fetch, pageSize, floor, w) && Final(fetch, pageSize, floor, w) == Rounds(fetch, pageSize, floor, w)
  {
    var n := RoundsAreAfter(fetch, pageSize, floor, w);
    var m :| Final(fetch, pageSize, floor, w) == After(fetch, pageSize, floor, w, m)
      && After(fetch, pageSize, floor, w, m).stack == [];
    AfterEnds(fetch, pageSize, floor, w, m);
  }

  /** What every round keeps. */
  ghost predicate Running(server: seq<Alert>, pageSize: nat, floor: int, window: Slice, w: Work, frontier: int) {
    && Placed(window.since, window.until, frontier, w.stack, w.kept)
    && Fetched(server, Done(window.since, window.until, frontier), w.collected, w.warned)
    && Logged(server, pageSize, floor, w.kept, w.warned)
  }

  lemma RunningAtStart(server: seq<Alert>, pageSize: nat, floor: int, window: Slice)
    ensures Running(server, pageSize, floor, window, Start(window), window.until)
  {
    assert [window][..0] == [];
    FetchedAtStart(server, window.since, window.until);
  }

  lemma RunningSplit(server: seq<Alert>, pageSize: nat, floor: int, window: Slice, w: Work, frontier: int)
    requires Running(server, pageSize, floor, window, w, frontier)
    requires w.stack != [] && floor >= 1 && w.stack[|w.stack| - 1].until - w.stack[|w.stack| - 1].since > floor
    ensures Running(server, pageSize, floor, window, w.(stack := Split(w.stack), slices := w.slices + 1), frontier)
  {
    HalvesPay(w.stack[|w.stack| - 1], floor);
    PlacedSplit(window.since, window.until, frontier, w.stack, w.kept);
  }

  lemma RunningKeep(server: seq<Alert>, pageSize: nat, floor: int, window: Slice, w: Work, frontier: int,
                    page: seq<Alert>)
    requires Running(server, pageSize, floor, window, w, frontier)
    requires w.stack != [] && floor >= 1 && Answers(server, w.stack[|w.stack| - 1], pageSize, page)
    requires |page| >= pageSize ==> w.stack[|w.stack| - 1].until - w.stack[|w.stack| - 1].since <= floor
    ensures var s := w.stack[|w.stack| - 1];
      Running(server, pageSize, floor, window,
              Work(w.stack[..|w.stack| - 1], w.slices + 1, Collect(w.collected, page),
                   if |page| >= pageSize then w.warned + [s] else w.warned, [s] + w.kept), s.since)
  {
    var s := w.stack[|w.stack| - 1];
    PlacedKeep(window.since, window.until, frontier, w.stack, w.kept);
    FetchedTop(server, window.since, window.until, s, w.collected, w.warned, page, |page| >= pageSize);
    LoggedKeep(server, pageSize, floor, w.kept, w.warned, s, |page| >= pageSize);
  }

  lemma {:induction false} RunningToTheEnd(fetch: Slice -> seq<Alert>, server: seq<Alert>, pageSize: nat, floor: int,
                                           window: Slice, w: Work, frontier: int) returns (final: int)
    requires floor >= 1 && PagesOf(fetch, server, pageSize)
    requires Running(server, pageSize, floor, window, w, frontier)
    ensures Running(server, pageSize, floor, window, Rounds(fetch, pageSize, floor, w), final)
    decreases Weights(w.stack, floor)
  {
    if w.stack == [] {
      final := frontier;
    } else {
      var s := w.stack[|w.stack| - 1];
      var page := fetch(s);
      var lower := frontier;
      assert Answers(server, s, pageSize, page);
      if |page| >= pageSize && s.until - s.since > floor {
        RunningSplit(server, pageSize, floor, window, w, frontier);
      } else {
        RunningKeep(server, pageSize, floor, window, w, frontier, page);
        lower := s.since;
      }
      RoundLightens(fetch, pageSize, floor, w);
      final := RunningToTheEnd(fetch, server, pageSize, floor, window, Round(fetch, pageSize, floor, w), lower);
    }
  }

  /** What the windowed fetch delivers against a fixed server, and which slices it used. */
  lemma WindowedDelivers(fetch: Slice -> seq<Alert>, server: seq<Alert>, pageSize: nat, floor: int, window: Slice)
    requires floor >= 1 && PagesOf(fetch, server, pageSize)
    ensures var end := Rounds(fetch, pageSize, floor, Start(window));
      && Fetched(server, Done(window.since, window.until, window.since), end.collected, end.warned)
      && Tiles(end.kept, window.since, window.until)
      && Logged(server, pageSize, floor, end.kept, end.warned)
  {
    RunningAtStart(server, pageSize, floor, window);
    var _ := RunningToTheEnd(fetch, server, pageSize, floor, window, Start(window), window.until);
  }

  /** One turn of the loop is one round nearer the end. */
  lemma OneRoundNearer(fetch: Slice -> seq<Alert>, pageSize: nat, floor: int, w: Work, left: nat, next: Work)
    requires w.stack != [] && After(fetch, pageSize, floor, w, left).stack == []
    requires next == Round(fetch, pageSize, floor, w)
    ensures left > 0 && After(fetch, pageSize, floor, next, left - 1) == After(fetch, pageSize, floor, w, left)
  {
  }

  /** What one turn does to the loop's variables, when it halves the slice. */
  lemma TurnHalves(fetch: Slice -> seq<Alert>, pageSize: nat, floor: int, w: Work, below: seq<Slice>, s: Slice)
    requires w.stack == below + [s] && |fetch(s)| >= pageSize && s.until - s.since > floor
    ensures Round(fetch, pageSize, floor, w) ==
      Work(below + [Slice(s.since, Mid(s))] + [Slice(Mid(s), s.until)], w.slices + 1, w.collected, w.warned, w.kept)
  {
  }

  /** And when it uses the slice's page. */
  lemma TurnKeeps(fetch: Slice -> seq<Alert>, pageSize: nat, floor: int, w: Work, below: seq<Slice>, s: Slice)
    requires w.stack == below + [s] && !(|fetch(s)| >= pageSize && s.until - s.since > floor)
    ensures Round(fetch, pageSize, floor, w) ==
      Work(below, w.slices + 1, Collect(w.collected, fetch(s)),
           if |fetch(s)| >= pageSize then w.warned + [s] else w.warned, [s] + w.kept)
  {
  }

  /** `list_graph_alerts_windowed`, whenever its loop ends. */
  method ListWindowed(fetch: Slice -> seq<Alert>, since: int, until: int, pageSize: nat, floor: int)
    returns (collected: seq<Alert>, slices: nat, warned: seq<Slice>)
    requires Ends(fetch, pageSize, floor, Start(Slice(since, until)))
    ensures var end := Final(fetch, pageSize, floor, Start(Slice(since, until)));
      collected == end.collected && slices == end.slices && warned == end.warned
  {
    collected, slices, warned := [], 0, [];
    ghost var kept: seq<Slice> := [];
    var seen: set<string> := {};
    var stack := [Slice(since, until)];
    ghost var end := Final(fetch, pageSize, floor, Start(Slice(since, until)));
    ghost var left: nat :| After(fetch, pageSize, floor, Start(Slice(since, until)), left) == end;
    while stack != []
      invariant After(fetch, pageSize, floor, Work(stack, slices, collected, warned, kept), left) == end
      invariant seen == Ids(collected)
      decreases left
    {
      var s := stack[|stack| - 1];
      ghost var w := Work(stack, slices, collected, warned, kept);
      stack := stack[..|stack| - 1];
      slices := slices + 1;
      assert w.stack == stack + [s];
      var page := fetch(s);
      if |page| >= pageSize && s.until - s.since > floor {
        TurnHalves(fetch, pageSize, floor, w, stack, s);
        var mid := Mid(s);
        stack := stack + [Slice(s.since, mid)];
        stack := stack + [Slice(mid, s.until)];
        OneRoundNearer(fetch, pageSize, floor, w, left, Work(stack, slices, collected, warned, kept));
        left := left - 1;
        continue;
      }
      TurnKeeps(fetch, pageSize, floor, w, stack, s);
      if |page| >= pageSize {
        warned := warned + [s];
      }
      collected, seen := AddPage(collected, seen, page);
      kept := [s] + kept;
      OneRoundNearer(fetch, pageSize, floor, w, left, Work(stack, slices, collected, warned, kept));
      left := left - 1;
    }
  }

  /** The promised number of requests: one for a window no longer than the floor, otherwise fewer than four
      times the window's length in floors. */
  lemma RequestBound(fetch: Slice -> seq<Alert>, pageSize: nat, floor: int, window: Slice)
    requires floor >= 1
    ensures var slices := Rounds(fetch, pageSize, floor, Start(window)).slices;
      && slices >= 1
      && (window.until - window.since <= floor ==> slices == 1)
      && (window.until - window.since > floor ==> slices < 4 * (window.until - window.since) / floor)
  {
    var slices := Rounds(fetch, pageSize, floor, Start(window)).slices;
    PaidToTheEnd(fetch, pageSize, floor, window, Start(window));
    CostIsProduct(slices, floor);
    var d := window.until - window.since;
    if d <= floor {
      AtMost(slices, floor, floor);
      assert floor / floor == 1;
    } else {
      assert (slices + 1) * floor == slices * floor + floor;
      AtMost(slices + 1, floor, 4 * d);
    }
  }

  lemma PaidRound(fetch: Slice -> seq<Alert>, pageSize: nat, floor: int, window: Slice, w: Work)
    requires floor >= 1 && w.stack != [] && Paid(w.slices, w.stack, floor, window)
    ensures var next := Round(fetch, pageSize, floor, w); Paid(next.slices, next.stack, floor, window)
  {
    var s := w.stack[|w.stack| - 1];
    if |fetch(s)| >= pageSize && s.until - s.since > floor {
      PaidSplit(w.slices, w.stack, floor, window);
    } else {
      PaidKeep(w.slices, w.stack, floor, window);
    }
  }

  lemma {:induction false} PaidToTheEnd(fetch: Slice -> seq<Alert>, pageSize: nat, floor: int, window: Slice, w: Work)
    requires floor >= 1 && Paid(w.slices, w.stack, floor, window)
    ensures Paid(Rounds(fetch, pageSize, floor, w).slices, [], floor, window)
    decreases Weights(w.stack, floor)
  {
    if w.stack != [] {
      PaidRound(fetch, pageSize, floor, window, w);
      RoundLightens(fetch, pageSize, floor, w);
      PaidToTheEnd(fetch, pageSize, floor, window, Round(fetch, pageSize, floor, w));
    }
  }

  lemma AtMost(n: int, floor: int, total: int)
    requires floor >= 1 && n * floor <= total
    ensures n <= total / floor
  {
    var q := total / floor;
    if n > q {
      Scaled(q + 1, n, floor);
      assert false;
    }
  }

  lemma Scaled(a: int, b: int, floor: int)
    requires a <= b && floor >= 1
    ensures a * floor <= b * floor
  {
  }

  /** When the server's ids are distinct and no slice was logged, the result is exactly the window's alerts. */
  lemma CompleteWhenNothingWarned(server: seq<Alert>, window: Slice, collected: seq<Alert>)
    requires DistinctIds(server) && Fetched(server, window, collected, [])
    ensures multiset(collected) == multiset(Matching(server, window))
  {
    forall x ensures multiset(collected)[x] == multiset(Matching(server, window))[x] {
      MatchingCount(server, window, x);
      if x.id.Some? && Within(x, window) && x in server {
        IdentifiedIsCollected(server, window, collected, x);
        CountAtMostOne(server, x);
      }
    }
  }

  /** The whole run: against a fixed server with distinct ids, a run that logged nothing delivers exactly the
      alerts created in the window, its bounds cut to whole seconds, each once. */
  lemma WindowedIsComplete(fetch: Slice -> seq<Alert>, server: seq<Alert>, pageSize: nat, floor: int, window: Slice)
    requires floor >= 1 && PagesOf(fetch, server, pageSize) && DistinctIds(server)
    requires Rounds(fetch, pageSize, floor, Start(window)).warned == []
    ensures multiset(Rounds(fetch, pageSize, floor, Start(window)).collected) == multiset(Matching(server, window))
  {
    var end := Rounds(fetch, pageSize, floor, Start(window));
    WindowedDelivers(fetch, server, pageSize, floor, window);
    CompleteWhenNothingWarned(server, Done(window.since, window.until, window.since), end.collected);
    if window.since > window.until {
      CutMonotone(window.until, window.since);
      MatchingOfEmptyWindow(server, window);
      MatchingOfEmptyWindow(server, Slice(window.until, window.until));
    }
  }

  lemma IdentifiedIsCollected(server: seq<Alert>, window: Slice, collected: seq<Alert>, x: Alert)
    requires DistinctIds(server) && Sound(server, window, collected) && Found(server, window, collected, [])
    requires x.id.Some? && Within(x, window) && x in server
    ensures x in multiset(collected)
  {
    var y :| y in collected && y.id == x.id;
    assert y in multiset(collected);
    MatchingCount(server, window, y);
    SameIdSameAlert(server, x, y);
  }

  lemma SameIdSameAlert(server: seq<Alert>, x: Alert, y: Alert)
    requires DistinctIds(server) && x in server && y in server && x.id.Some? && x.id == y.id
    ensures x == y
  {
  }

  lemma {:induction false} CountAtMostOne(server: seq<Alert>, x: Alert)
    requires DistinctIds(server) && x.id.Some?
    ensures multiset(server)[x] <= 1
  {
    if server != [] {
      CountAtMostOne(server[1..], x);
      assert server == [server[0]] + server[1..];
      if server[0] == x {
        forall i | 0 <= i < |server[1..]| ensures server[1..][i] != x {
          assert server[1..][i] == server[i + 1];
        }
        assert x !in server[1..];
      }
    }
  }
}
