/** The request sweep of scripts/scheduling-profile/scenarios.ts: due requests first, then the
    least recently updated, one page at a time, with every visited request restamped. */
module SweepFairness {
  import opened Ordering

  datatype Status = Pending | SplitRequested | Terminal

  /** Times are milliseconds. */
  datatype Request = Request(id: string, status: Status, updatedAt: int, startsAt: int)

  const PAGE: nat := 200

  /** `collate` ranks the IDs as locale comparison does; different IDs may tie. */
  type Collation = string -> int

  predicate Open(r: Request) { r.status == Pending || r.status == SplitRequested }

  predicate Due(r: Request, clock: int) { r.startsAt <= clock }

  predicate MayPrecede(a: Request, b: Request, clock: int, collate: Collation) {
    if Due(a, clock) != Due(b, clock) then Due(a, clock)
    else if a.updatedAt != b.updatedAt then a.updatedAt < b.updatedAt
    else collate(a.id) <= collate(b.id)
  }

  function Order(clock: int, collate: Collation): (Request, Request) -> bool {
    (a, b) => MayPrecede(a, b, clock, collate)
  }

  function Queue(rows: seq<Request>, clock: int, collate: Collation): seq<Request> {
    SortBy(Order(clock, collate), Keep(rows, Open))
  }

  function Page(queue: seq<Request>): seq<Request> {
    if |queue| <= PAGE then queue else queue[..PAGE]
  }

  /** The rows a sweep visits, in order. */
  function Select(rows: seq<Request>, clock: int, collate: Collation): seq<Request> {
    Page(Queue(rows, clock, collate))
  }

  /** The sweep contract: unselected rows are unchanged, a selected row's stamp advances, and one
      that stays open is restamped to `max(clock, previous + 1)`. */
  predicate Sweep(before: seq<Request>, clock: int, collate: Collation, after: seq<Request>) {
    && |after| == |before|
    && forall i :: 0 <= i < |before| ==>
         && after[i].id == before[i].id
         && if before[i] in Select(before, clock, collate) then
              && after[i].updatedAt > before[i].updatedAt
              && (Open(after[i]) ==>
                    after[i].updatedAt == if clock >= before[i].updatedAt + 1 then clock else before[i].updatedAt + 1)
            else after[i] == before[i]
  }

  // ----- selection -----

  lemma OrderIsTotal(clock: int, collate: Collation)
    ensures TotalPreorder(Order(clock, collate))
  {
  }

  function Count(rows: seq<Request>, p: Request -> bool): nat {
    if rows == [] then 0 else (if p(rows[0]) then 1 else 0) + Count(rows[1..], p)
  }

  lemma {:induction false} CountAppend(a: seq<Request>, b: seq<Request>, p: Request -> bool)
    ensures Count(a + b, p) == Count(a, p) + Count(b, p)
  {
    if a == [] {
      assert a + b == b;
    } else {
      assert (a + b)[1..] == a[1..] + b;
      CountAppend(a[1..], b, p);
    }
  }

  lemma {:induction false} CountWithout(s: seq<Request>, i: nat, p: Request -> bool)
    requires i < |s|
    ensures Count(s, p) == Count(Without(s, i), p) + if p(s[i]) then 1 else 0
  {
    if i == 0 {
      assert Without(s, 0) == s[1..];
    } else {
      CountWithout(s[1..], i - 1, p);
      assert Without(s, i)[1..] == Without(s[1..], i - 1);
    }
  }

  lemma {:induction false} CountPermutation(s: seq<Request>, t: seq<Request>, p: Request -> bool)
    requires multiset(s) == multiset(t)
    ensures Count(s, p) == Count(t, p)
  {
    SameLength(s, t);
    if s != [] {
      var i := Locate(s, t);
      CountPermutation(s[1..], Without(t, i), p);
      CountWithout(t, i, p);
    }
  }

  lemma {:induction false} CountKeep(rows: seq<Request>, p: Request -> bool, q: Request -> bool)
    requires forall r :: q(r) ==> p(r)
    ensures Count(Keep(rows, p), q) == Count(rows, q)
  {
    if rows != [] {
      CountKeep(rows[1..], p, q);
      var head := if p(rows[0]) then [rows[0]] else [];
      CountAppend(head, Keep(rows[1..], p), q);
      assert p(rows[0]) ==> Count([rows[0]], q) == (if q(rows[0]) then 1 else 0) + Count([], q);
    }
  }

  lemma {:induction false} CountAll(rows: seq<Request>, p: Request -> bool)
    requires forall r :: r in rows ==> p(r)
    ensures Count(rows, p) == |rows|
  {
    if rows != [] { CountAll(rows[1..], p); }
  }

  lemma {:induction false} CountMonotone(rows: seq<Request>, p: Request -> bool, q: Request -> bool)
    requires forall r :: r in rows && p(r) ==> q(r)
    ensures Count(rows, p) <= Count(rows, q)
  {
    if rows != [] { CountMonotone(rows[1..], p, q); }
  }

  /** A count over the open rows splits into the selected page and the rest of the queue. */
  lemma CountSplits(rows: seq<Request>, clock: int, collate: Collation, p: Request -> bool) returns (rest: seq<Request>)
    requires forall r :: p(r) ==> Open(r)
    ensures Queue(rows, clock, collate) == Select(rows, clock, collate) + rest
    ensures Count(rows, p) == Count(Select(rows, clock, collate), p) + Count(rest, p)
  {
    var queue := Queue(rows, clock, collate);
    rest := if |queue| <= PAGE then [] else queue[PAGE..];
    CountAppend(Select(rows, clock, collate), rest, p);
    CountPermutation(queue, Keep(rows, Open), p);
    CountKeep(rows, Open, p);
  }

  /** An open row that is passed over had a whole page of rows before it. */
  lemma PassedOver(rows: seq<Request>, clock: int, collate: Collation, r: Request)
    requires r in rows && Open(r) && r !in Select(rows, clock, collate)
    ensures |Select(rows, clock, collate)| == PAGE
    ensures forall y :: y in Select(rows, clock, collate) ==> Open(y) && MayPrecede(y, r, clock, collate)
  {
    var queue := Queue(rows, clock, collate);
    OrderIsTotal(clock, collate);
    SortBySorted(Order(clock, collate), Keep(rows, Open));
    assert r in multiset(Keep(rows, Open));
    assert r in multiset(queue);
    var j :| 0 <= j < |queue| && queue[j] == r;
    forall y | y in Select(rows, clock, collate) ensures Open(y) && MayPrecede(y, r, clock, collate) {
      var i :| 0 <= i < PAGE && queue[i] == y;
      assert Order(clock, collate)(queue[i], queue[j]);
      assert y in multiset(queue);
      assert y in Keep(rows, Open);
    }
  }

  // ----- fairness -----

  /** How many stamps an open row can still advance before it passes `limit`. */
  function Lag(r: Request, limit: int): nat {
    if Open(r) && r.updatedAt <= limit then limit - r.updatedAt + 1 else 0
  }

  function Potential(rows: seq<Request>, limit: int): nat {
    if rows == [] then 0 else Lag(rows[0], limit) + Potential(rows[1..], limit)
  }

  lemma {:induction false} PotentialDrops(before: seq<Request>, after: seq<Request>, limit: int, y: nat)
    requires |before| == |after| && y < |before|
    requires forall i :: 0 <= i < |before| ==> Lag(after[i], limit) <= Lag(before[i], limit)
    requires Lag(after[y], limit) < Lag(before[y], limit)
    ensures Potential(after, limit) < Potential(before, limit)
  {
    PotentialKept(before[1..], after[1..], limit);
    if y > 0 { PotentialDrops(before[1..], after[1..], limit, y - 1); }
  }

  lemma {:induction false} PotentialKept(before: seq<Request>, after: seq<Request>, limit: int)
    requires |before| == |after|
    requires forall i :: 0 <= i < |before| ==> Lag(after[i], limit) <= Lag(before[i], limit)
    ensures Potential(after, limit) <= Potential(before, limit)
  {
    if before != [] { PotentialKept(before[1..], after[1..], limit); }
  }

  predicate OpenDue(r: Request, clock: int) { Open(r) && Due(r, clock) }

  /** A full page holds a row that is not due, if less than a page is. */
  lemma PageBeyondDue(rows: seq<Request>, clock: int, collate: Collation) returns (r: Request)
    requires |Select(rows, clock, collate)| == PAGE && Count(rows, r => OpenDue(r, clock)) < PAGE
    ensures r in Select(rows, clock, collate) && !OpenDue(r, clock)
  {
    var page, due := Select(rows, clock, collate), (r: Request) => OpenDue(r, clock);
    var rest := CountSplits(rows, clock, collate, due);
    if forall y :: y in page ==> due(y) { CountAll(page, due); }
    r :| r in page && !due(r);
  }

  lemma LagsNeverGrow(before: seq<Request>, clock: int, collate: Collation, after: seq<Request>, limit: int)
    requires Sweep(before, clock, collate, after)
    ensures forall i :: 0 <= i < |before| ==> Lag(after[i], limit) <= Lag(before[i], limit)
  {
    forall i | 0 <= i < |before| ensures Lag(after[i], limit) <= Lag(before[i], limit) {
      if before[i] in Select(before, clock, collate) { PagedRow(before, clock, collate, before[i]); }
    }
  }

  /** A sweep that passes over an open, not yet due row advances another row towards its stamp. */
  lemma PassingOverAdvances(before: seq<Request>, clock: int, collate: Collation, after: seq<Request>, x: nat)
    requires Sweep(before, clock, collate, after) && x < |before|
    requires Open(before[x]) && !Due(before[x], clock) && before[x] !in Select(before, clock, collate)
    requires Count(before, r => OpenDue(r, clock)) < PAGE
    ensures Potential(after, before[x].updatedAt) < Potential(before, before[x].updatedAt)
  {
    var limit := before[x].updatedAt;
    PassedOver(before, clock, collate, before[x]);
    var r := PageBeyondDue(before, clock, collate);
    PagedRow(before, clock, collate, r);
    var y :| 0 <= y < |before| && before[y] == r;
    assert MayPrecede(r, before[x], clock, collate);
    LagsNeverGrow(before, clock, collate, after, limit);
    PotentialDrops(before, after, limit, y);
  }

  lemma PagedRow(rows: seq<Request>, clock: int, collate: Collation, r: Request)
    requires r in Select(rows, clock, collate)
    ensures r in rows && Open(r)
  {
    assert r in multiset(Queue(rows, clock, collate));
    assert r in Keep(rows, Open);
  }

  /** A run of sweeps: `states[k + 1]` is the result of sweeping `states[k]` at `clocks[k]`. */
  ghost predicate Run(states: seq<seq<Request>>, clocks: seq<int>, collate: Collation) {
    && |states| == |clocks| + 1
    && forall k :: 0 <= k < |clocks| ==> Sweep(states[k], clocks[k], collate, states[k + 1])
  }

  /** Sweep `k` passes over row `x`, which is open and not due, while less than a page is due. */
  ghost predicate Waits(states: seq<seq<Request>>, clocks: seq<int>, collate: Collation, x: nat, k: nat)
    requires k < |clocks| && k < |states|
  {
    && x < |states[k]| && Open(states[k][x]) && !Due(states[k][x], clocks[k])
    && states[k][x] !in Select(states[k], clocks[k], collate)
    && Count(states[k], r => OpenDue(r, clocks[k])) < PAGE
  }

  lemma {:induction false} WaitingIsBounded(states: seq<seq<Request>>, clocks: seq<int>, collate: Collation, x: nat,
                                            n: nat)
    requires Run(states, clocks, collate) && n <= |clocks| && x < |states[0]|
    requires forall k :: 0 <= k < n ==> Waits(states, clocks, collate, x, k)
    ensures x < |states[n]| && states[n][x] == states[0][x]
    ensures n + Potential(states[n], states[0][x].updatedAt) <= Potential(states[0], states[0][x].updatedAt)
  {
    if n > 0 {
      WaitingIsBounded(states, clocks, collate, x, n - 1);
      assert Waits(states, clocks, collate, x, n - 1);
      assert Sweep(states[n - 1], clocks[n - 1], collate, states[n - 1 + 1]);
      PassingOverAdvances(states[n - 1], clocks[n - 1], collate, states[n], x);
    }
  }

  /** A due request is visited at once while at most a page of requests is due. */
  lemma DueIsVisited(rows: seq<Request>, clock: int, collate: Collation, r: Request)
    requires r in rows && OpenDue(r, clock)
    requires Count(rows, q => OpenDue(q, clock)) <= PAGE
    ensures r in Select(rows, clock, collate)
  {
    if r !in Select(rows, clock, collate) {
      PassedOver(rows, clock, collate, r);
      var page := Select(rows, clock, collate);
      var due := q => OpenDue(q, clock);
      var rest := CountSplits(rows, clock, collate, due);
      CountAll(page, due);
      PassedIsInRest(rows, clock, collate, r, rest);
      CountMember(rest, due, r);
      assert false;
    }
  }

  lemma PassedIsInRest(rows: seq<Request>, clock: int, collate: Collation, r: Request, rest: seq<Request>)
    requires r in rows && Open(r) && r !in Select(rows, clock, collate)
    requires Queue(rows, clock, collate) == Select(rows, clock, collate) + rest
    ensures r in rest
  {
    assert r in multiset(Keep(rows, Open));
    assert r in multiset(Queue(rows, clock, collate));
  }

  lemma {:induction false} CountMember(rows: seq<Request>, p: Request -> bool, r: Request)
    requires r in rows && p(r)
    ensures Count(rows, p) >= 1
  {
    if rows[0] != r { CountMember(rows[1..], p, r); }
  }

  // ----- one round -----

  /** Open and last stamped before the first clock. */
  predicate Stale(r: Request, start: int) { Open(r) && r.updatedAt < start }

  /** With nothing due, a sweep visits a full page of stale rows, or all of them. */
  lemma SweepRefreshesAPage(before: seq<Request>, clock: int, collate: Collation, after: seq<Request>, start: int)
    requires Sweep(before, clock, collate, after) && start <= clock
    requires forall r :: r in before && Open(r) ==> !Due(r, clock)
    ensures Count(after, r => Stale(r, start)) + PAGE <= Count(before, r => Stale(r, start))
            || Count(after, r => Stale(r, start)) == 0
  {
    var stale := r => Stale(r, start);
    var page := Select(before, clock, collate);
    var passed := r => Stale(r, start) && r !in page;
    StaleAfterSweep(before, clock, collate, after, start);
    if Count(after, stale) > 0 {
      var i := CountWitness(after, stale);
      assert before[i] !in page;
      PassedOver(before, clock, collate, before[i]);
      forall y | y in page ensures stale(y) { PagedRow(before, clock, collate, y); }
      var rest := CountSplits(before, clock, collate, stale);
      CountAll(page, stale);
      var rest' := CountSplits(before, clock, collate, passed);
      assert rest' == rest;
      CountNone(page, passed);
      CountMonotone(rest, passed, stale);
    }
  }

  lemma {:induction false} CountWitness(rows: seq<Request>, p: Request -> bool) returns (i: nat)
    requires Count(rows, p) > 0
    ensures i < |rows| && p(rows[i])
  {
    if p(rows[0]) { return 0; }
    var j := CountWitness(rows[1..], p);
    i := j + 1;
  }

  lemma {:induction false} CountNone(rows: seq<Request>, p: Request -> bool)
    requires forall r :: r in rows ==> !p(r)
    ensures Count(rows, p) == 0
  {
    if rows != [] { CountNone(rows[1..], p); }
  }

  /** What is stale after a sweep was stale and passed over. */
  lemma StaleAfterSweep(before: seq<Request>, clock: int, collate: Collation, after: seq<Request>, start: int)
    requires Sweep(before, clock, collate, after) && start <= clock
    ensures Count(after, r => Stale(r, start)) == Count(before, r => Stale(r, start) && r !in Select(before, clock, collate))
    ensures forall i :: 0 <= i < |before| && Stale(after[i], start) ==>
              before[i] !in Select(before, clock, collate) && after[i] == before[i]
  {
    CountPointwise(after, before, r => Stale(r, start), r => Stale(r, start) && r !in Select(before, clock, collate));
  }

  lemma {:induction false} CountPointwise(a: seq<Request>, b: seq<Request>, p: Request -> bool, q: Request -> bool)
    requires |a| == |b| && forall i :: 0 <= i < |a| ==> (p(a[i]) <==> q(b[i]))
    ensures Count(a, p) == Count(b, q)
  {
    if a != [] { CountPointwise(a[1..], b[1..], p, q); }
  }

  /** Every sweep of the run has nothing due. */
  ghost predicate NothingDue(states: seq<seq<Request>>, clocks: seq<int>)
    requires |states| == |clocks| + 1
  {
    forall k, r :: 0 <= k < |clocks| && r in states[k] && Open(r) ==> !Due(r, clocks[k])
  }

  lemma {:induction false} RoundProgress(states: seq<seq<Request>>, clocks: seq<int>, collate: Collation, n: nat)
    requires Run(states, clocks, collate) && NothingDue(states, clocks) && clocks != [] && n <= |clocks|
    requires forall k :: 0 <= k < |clocks| ==> clocks[0] <= clocks[k]
    ensures var start := clocks[0];
            Count(states[n], r => Stale(r, start)) + n * PAGE <= Count(states[0], r => Stale(r, start))
            || Count(states[n], r => Stale(r, start)) == 0
  {
    if n > 0 {
      RoundProgress(states, clocks, collate, n - 1);
      assert Sweep(states[n - 1], clocks[n - 1], collate, states[n - 1 + 1]);
      SweepRefreshesAPage(states[n - 1], clocks[n - 1], collate, states[n], clocks[0]);
    }
  }

  lemma {:induction false} UnvisitedUnchanged(states: seq<seq<Request>>, clocks: seq<int>, collate: Collation,
        x: nat, n: nat)
    requires Run(states, clocks, collate) && n <= |clocks| && x < |states[0]|
    requires forall k :: 0 <= k < n ==> x >= |states[k]| || states[k][x] !in Select(states[k], clocks[k], collate)
    ensures x < |states[n]| && states[n][x] == states[0][x]
  {
    if n > 0 {
      UnvisitedUnchanged(states, clocks, collate, x, n - 1);
      assert Sweep(states[n - 1], clocks[n - 1], collate, states[n - 1 + 1]);
    }
  }

  /** A sweep that does not visit an open row, while less than a page is due, passes it over. */
  lemma UnvisitedWaits(states: seq<seq<Request>>, clocks: seq<int>, collate: Collation, x: nat, k: nat)
    requires k < |clocks| && k < |states| && x < |states[k]| && Open(states[k][x])
    requires states[k][x] !in Select(states[k], clocks[k], collate)
    requires Count(states[k], r => OpenDue(r, clocks[k])) < PAGE
    ensures Waits(states, clocks, collate, x, k)
  {
    if Due(states[k][x], clocks[k]) { DueIsVisited(states[k], clocks[k], collate, states[k][x]); }
  }

  /** Fairness: every open request is visited within an explicit number of sweeps, whether or not
      it becomes due on the way, as long as fewer than a page of requests are due. */
  lemma EveryRequestIsVisited(states: seq<seq<Request>>, clocks: seq<int>, collate: Collation, x: nat)
    requires Run(states, clocks, collate) && x < |states[0]| && Open(states[0][x])
    requires |clocks| > Potential(states[0], states[0][x].updatedAt)
    requires forall k :: 0 <= k < |clocks| ==> Count(states[k], r => OpenDue(r, clocks[k])) < PAGE
    ensures exists k :: 0 <= k < |clocks| && x < |states[k]| && states[k][x] in Select(states[k], clocks[k], collate)
  {
    if forall k :: 0 <= k < |clocks| ==> x >= |states[k]| || states[k][x] !in Select(states[k], clocks[k], collate) {
      forall k | 0 <= k < |clocks| ensures Waits(states, clocks, collate, x, k) {
        UnvisitedUnchanged(states, clocks, collate, x, k);
        UnvisitedWaits(states, clocks, collate, x, k);
      }
      WaitingIsBounded(states, clocks, collate, x, |clocks|);
    }
  }

  /** With nothing due and every stamp before the first clock, `ceil(n / 200)` sweeps visit all of
      the `n` open requests. */
  lemma OneRoundVisitsAll(states: seq<seq<Request>>, clocks: seq<int>, collate: Collation, x: nat)
    requires Run(states, clocks, collate) && NothingDue(states, clocks) && clocks != []
    requires forall k :: 0 <= k < |clocks| ==> clocks[0] <= clocks[k]
    requires forall r :: r in states[0] && Open(r) ==> r.updatedAt < clocks[0]
    requires |clocks| * PAGE >= Count(states[0], Open)
    requires x < |states[0]| && Open(states[0][x])
    ensures exists k :: 0 <= k < |clocks| && x < |states[k]| && states[k][x] in Select(states[k], clocks[k], collate)
  {
    var n, start := |clocks|, clocks[0];
    var stale := r => Stale(r, start);
    RoundProgress(states, clocks, collate, n);
    CountPointwise(states[0], states[0], stale, Open);
    if forall k :: 0 <= k < n ==> x >= |states[k]| || states[k][x] !in Select(states[k], clocks[k], collate) {
      UnvisitedUnchanged(states, clocks, collate, x, n);
      CountMember(states[n], stale, states[n][x]);
    }
  }

  // ----- the selection in the terms of its rows -----

  /** Due rows first, then the older stamp, then the smaller identity. */
  predicate ComesBefore(a: Request, b: Request, clock: int, collate: Collation) {
    || (a.startsAt <= clock < b.startsAt)
    || ((a.startsAt <= clock <==> b.startsAt <= clock) && a.updatedAt < b.updatedAt)
    || ((a.startsAt <= clock <==> b.startsAt <= clock) && a.updatedAt == b.updatedAt && collate(a.id) <= collate(b.id))
  }

  predicate IsOpen(r: Request) {
    r.status in {Pending, SplitRequested}
  }

  lemma SelectedAreOpen(rows: seq<Request>, clock: int, collate: Collation)
    ensures var s := Select(rows, clock, collate);
            |s| <= 200 && multiset(s) <= multiset(rows) && forall i :: 0 <= i < |s| ==> IsOpen(s[i])
  {
    var s, queue := Select(rows, clock, collate), Queue(rows, clock, collate);
    KeepWithin(rows, Open);
    PageWithin(queue);
    forall i | 0 <= i < |s| ensures IsOpen(s[i]) {
      assert s[i] == queue[i] && queue[i] in multiset(queue);
      assert s[i] in Keep(rows, Open);
    }
  }

  lemma SelectedInOrder(rows: seq<Request>, clock: int, collate: Collation, i: nat, j: nat)
    requires i < j < |Select(rows, clock, collate)|
    ensures var s := Select(rows, clock, collate); ComesBefore(s[i], s[j], clock, collate)
  {
    var queue := Queue(rows, clock, collate);
    OrderIsTotal(clock, collate);
    SortBySorted(Order(clock, collate), Keep(rows, Open));
    assert Order(clock, collate)(queue[i], queue[j]);
  }

  lemma PassedOverLater(rows: seq<Request>, clock: int, collate: Collation, r: Request)
    requires r in rows && IsOpen(r) && r !in Select(rows, clock, collate)
    ensures var s := Select(rows, clock, collate);
            |s| == 200 && forall i :: 0 <= i < |s| ==> ComesBefore(s[i], r, clock, collate)
  {
    var s := Select(rows, clock, collate);
    PassedOver(rows, clock, collate, r);
    forall i | 0 <= i < |s| ensures ComesBefore(s[i], r, clock, collate) {
      assert s[i] in s;
      assert MayPrecede(s[i], r, clock, collate);
    }
  }

  /** A sweep visits at most 200 open rows, in this order, and passes over none that comes before. */
  lemma SelectionIs(rows: seq<Request>, clock: int, collate: Collation)
    ensures var s := Select(rows, clock, collate);
            && |s| <= 200 && multiset(s) <= multiset(rows)
            && (forall i :: 0 <= i < |s| ==> IsOpen(s[i]))
            && (forall i, j :: 0 <= i < j < |s| ==> ComesBefore(s[i], s[j], clock, collate))
            && (forall r :: r in rows && IsOpen(r) && r !in s ==>
                  |s| == 200 && forall i :: 0 <= i < |s| ==> ComesBefore(s[i], r, clock, collate))
  {
    var s := Select(rows, clock, collate);
    SelectedAreOpen(rows, clock, collate);
    forall i, j | 0 <= i < j < |s| ensures ComesBefore(s[i], s[j], clock, collate) {
      SelectedInOrder(rows, clock, collate, i, j);
    }
    forall r | r in rows && IsOpen(r) && r !in s
      ensures |s| == 200 && forall i :: 0 <= i < |s| ==> ComesBefore(s[i], r, clock, collate)
    {
      PassedOverLater(rows, clock, collate, r);
    }
  }

  lemma PageWithin(queue: seq<Request>)
    ensures multiset(Page(queue)) <= multiset(queue)
  {
    if |queue| > PAGE { assert queue == queue[..PAGE] + queue[PAGE..]; }
  }

  lemma {:induction false} KeepWithin(rows: seq<Request>, p: Request -> bool)
    ensures multiset(Keep(rows, p)) <= multiset(rows)
  {
    if rows != [] {
      KeepWithin(rows[1..], p);
      assert rows == [rows[0]] + rows[1..];
    }
  }

  /** A visited row that stays open gets the least stamp that is not before the clock and later
      than its own; any other visited row gets some later stamp, and no other row changes. */
  lemma StampIsLeast(before: seq<Request>, clock: int, collate: Collation, after: seq<Request>, i: nat)
    requires Sweep(before, clock, collate, after) && i < |before|
    ensures before[i] !in Select(before, clock, collate) ==> after[i] == before[i]
    ensures before[i] in Select(before, clock, collate) ==> after[i].updatedAt > before[i].updatedAt
    ensures before[i] in Select(before, clock, collate) && IsOpen(after[i]) ==>
              && after[i].updatedAt >= clock
              && (after[i].updatedAt == clock || after[i].updatedAt == before[i].updatedAt + 1)
  {
  }
}
