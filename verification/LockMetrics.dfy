/** Lock-interval accounting of scripts/scheduling-profile/metrics.ts: what the profiler records
    for one database connection over an arbitrary trace of events. */
module LockMetrics {
  import opened Wrappers

  datatype Kind = Blocking | Try

  /** A finished statement, classified by the profiler's patterns. The patterns are independent:
      a text may match several of them. */
  datatype Query = Query(begin: bool, lock: bool, tryLock: bool, rollbackTo: bool, ends: bool)

  datatype TryOutcome = GrantedLock | Denied | Unrecognized

  datatype Reason =
    | NewBegin | SavepointRollback | FailedEnd
    | ClientError | ClientEnd | ClientRelease | PoolRemove | ProfilerClose

  /** `metrics` is the measured operation that issued the statement, if any. */
  datatype Event =
    | Finished(query: Query, metrics: Option<nat>, failed: bool, outcome: TryOutcome, time: int)
    | Lost(reason: Reason, time: int)      // the connection reports an error or its end
    | Returned(reason: Reason, time: int)  // the pool takes the connection back
    | Close(time: int)

  /** An open lock interval: the event that opened it, when, and for which operation. */
  datatype Open = Open(at: nat, time: int, metrics: nat)

  datatype Outcome = Reported | Uncertain(reason: Reason)

  datatype Entry = Entry(kind: Kind, span: Open, endedAt: nat, endTime: int, outcome: Outcome)

  /** `tx` is the explicit transaction, if one is known, and whether its scope is uncertain. */
  datatype ClientState = ClientState(tx: Option<bool>, held: Option<Open>, tried: Option<Open>, log: seq<Entry>, closed: bool)

  const FRESH := ClientState(None, None, None, [], false)

  function Slot(s: ClientState, kind: Kind): Option<Open> {
    if kind == Blocking then s.held else s.tried
  }

  // ----- one event -----

  /** Ends one slot, if it is open. */
  function Ended(kind: Kind, slot: Option<Open>, n: nat, time: int, outcome: Outcome): seq<Entry> {
    match slot
    case None => []
    case Some(span) => [Entry(kind, span, n, time, outcome)]
  }

  /** Ends both slots. */
  function EndBoth(s: ClientState, n: nat, time: int, outcome: Outcome): ClientState {
    s.(held := None, tried := None,
       log := s.log + Ended(Blocking, s.held, n, time, outcome) + Ended(Try, s.tried, n, time, outcome))
  }

  /** `uncertainInterval`. */
  function UncertainInterval(s: ClientState, reason: Reason, n: nat, time: int): ClientState {
    EndBoth(s, n, time, Uncertain(reason)).(tx := if s.tx.Some? then Some(true) else None)
  }

  predicate Begins(e: Event) { e.Finished? && e.query.begin && !e.failed }

  function AfterBegin(s: ClientState, e: Event, n: nat): ClientState {
    if Begins(e) then UncertainInterval(s, NewBegin, n, e.time).(tx := Some(false)) else s
  }

  /** A measured statement that acquired a lock of this kind. */
  predicate Acquires(e: Event, kind: Kind) {
    && e.Finished? && !e.failed && e.metrics.Some?
    && if kind == Blocking then e.query.lock else e.query.tryLock && e.outcome == GrantedLock
  }

  predicate OpensSlot(s: ClientState, e: Event, kind: Kind) {
    Acquires(e, kind) && s.tx == Some(false) && Slot(s, kind) == None
  }

  function AfterAcquire(s: ClientState, e: Event, n: nat): ClientState {
    s.(held := if OpensSlot(s, e, Blocking) then Some(Open(n, e.time, e.metrics.value)) else s.held,
       tried := if OpensSlot(s, e, Try) then Some(Open(n, e.time, e.metrics.value)) else s.tried)
  }

  /** A savepoint rollback, which may have released any lock. */
  predicate RollsBack(e: Event) { e.Finished? && e.query.rollbackTo && !e.failed }

  predicate EndsTransaction(e: Event) { e.Finished? && e.query.ends && !RollsBack(e) }

  function AfterEnd(s: ClientState, e: Event, n: nat): ClientState {
    if RollsBack(e) then UncertainInterval(s, SavepointRollback, n, e.time)
    else if !EndsTransaction(e) then s
    else if e.failed then UncertainInterval(s, FailedEnd, n, e.time)
    else EndBoth(s, n, e.time, Reported).(tx := None)
  }

  /** The effect of event number `n`. Closing detaches the listeners, but a statement that was
      already in flight still reports its completion. */
  function Apply(s: ClientState, e: Event, n: nat): ClientState {
    match e
    case Finished(_, _, _, _, _) => AfterEnd(AfterAcquire(AfterBegin(s, e, n), e, n), e, n)
    case Lost(reason, time) => if s.closed then s else UncertainInterval(s, reason, n, time)
    case Returned(reason, time) => if s.closed then s else UncertainInterval(s, reason, n, time).(tx := None)
    case Close(time) =>
      if s.closed then s
      else CloseOpen(s, n, time).(closed := true)
  }

  /** Closing only touches the connections that have an open interval. */
  function CloseOpen(s: ClientState, n: nat, time: int): ClientState {
    if s.held.Some? || s.tried.Some? then UncertainInterval(s, ProfilerClose, n, time) else s
  }

  function After(trace: seq<Event>): ClientState {
    if trace == [] then FRESH
    else Apply(After(trace[..|trace| - 1]), trace[|trace| - 1], |trace| - 1)
  }

  // ----- the profiler object -----

  type Client = nat

  /** The profiler's maps; `log` keeps each connection's pushed intervals in order. */
  class Profiler {
    var heldLocks: map<Client, Open>
    var heldTryLocks: map<Client, Open>
    var transactions: map<Client, bool>
    var log: map<Client, seq<Entry>>
    var closed: bool

    ghost function View(c: Client): ClientState
      reads this
    {
      ClientState(if c in transactions then Some(transactions[c]) else None,
                  if c in heldLocks then Some(heldLocks[c]) else None,
                  if c in heldTryLocks then Some(heldTryLocks[c]) else None,
                  if c in log then log[c] else [],
                  closed)
    }

    constructor ()
      ensures forall c :: View(c) == FRESH
    {
      heldLocks, heldTryLocks, transactions, log, closed := map[], map[], map[], map[], false;
    }

    /** Pushes an entry for an open blocking interval and closes the interval. */
    method EndHeld(c: Client, n: nat, time: int, outcome: Outcome)
      modifies this`log, this`heldLocks
      ensures View(c) == old(View(c)).(held := None,
                                       log := old(View(c)).log + Ended(Blocking, old(View(c)).held, n, time, outcome))
      ensures forall d :: d != c ==> View(d) == old(View(d))
      ensures heldLocks == old(heldLocks) - {c}
    {
      if c in heldLocks {
        log := log[c := (if c in log then log[c] else []) + [Entry(Blocking, heldLocks[c], n, time, outcome)]];
        heldLocks := heldLocks - {c};
      }
    }

    /** The same for an open try-lock interval. */
    method EndTried(c: Client, n: nat, time: int, outcome: Outcome)
      modifies this`log, this`heldTryLocks
      ensures View(c) == old(View(c)).(tried := None,
                                       log := old(View(c)).log + Ended(Try, old(View(c)).tried, n, time, outcome))
      ensures forall d :: d != c ==> View(d) == old(View(d))
      ensures heldTryLocks == old(heldTryLocks) - {c}
    {
      if c in heldTryLocks {
        log := log[c := (if c in log then log[c] else []) + [Entry(Try, heldTryLocks[c], n, time, outcome)]];
        heldTryLocks := heldTryLocks - {c};
      }
    }

    method SetTransaction(c: Client, tx: Option<bool>)
      modifies this`transactions
      ensures View(c) == old(View(c)).(tx := tx)
      ensures forall d :: d != c ==> View(d) == old(View(d))
    {
      transactions := if tx.Some? then transactions[c := tx.value] else transactions - {c};
    }

    /** Moves both open intervals of a connection to the uncertain ones. */
    method MarkUncertain(c: Client, reason: Reason, n: nat, time: int)
      modifies this`log, this`heldLocks, this`heldTryLocks, this`transactions
      ensures View(c) == UncertainInterval(old(View(c)), reason, n, time)
      ensures forall d :: d != c ==> View(d) == old(View(d))
      ensures heldLocks == old(heldLocks) - {c} && heldTryLocks == old(heldTryLocks) - {c}
    {
      EndHeld(c, n, time, Uncertain(reason));
      EndTried(c, n, time, Uncertain(reason));
      if c in transactions { SetTransaction(c, Some(true)); }
    }

    /** The bookkeeping of a finished statement. */
    method Finish(c: Client, e: Event, n: nat)
      requires e.Finished?
      modifies this
      ensures View(c) == Apply(old(View(c)), e, n)
      ensures forall d :: d != c ==> View(d) == old(View(d))
    {
      if !e.failed && e.query.begin {
        MarkUncertain(c, NewBegin, n, e.time);
        SetTransaction(c, Some(false));
      }
      Acquire(c, e, n);
      FinishTransaction(c, e, n);
    }

    method Acquire(c: Client, e: Event, n: nat)
      requires e.Finished?
      modifies this`heldLocks, this`heldTryLocks
      ensures View(c) == AfterAcquire(old(View(c)), e, n)
      ensures forall d :: d != c ==> View(d) == old(View(d))
    {
      var certain := c in transactions && !transactions[c];
      if !e.failed && e.query.lock && certain && e.metrics.Some? && c !in heldLocks {
        heldLocks := heldLocks[c := Open(n, e.time, e.metrics.value)];
      }
      if e.query.tryLock && !e.failed && e.outcome == GrantedLock && e.metrics.Some? && certain && c !in heldTryLocks {
        heldTryLocks := heldTryLocks[c := Open(n, e.time, e.metrics.value)];
      }
    }

    method FinishTransaction(c: Client, e: Event, n: nat)
      requires e.Finished?
      modifies this
      ensures View(c) == AfterEnd(old(View(c)), e, n)
      ensures forall d :: d != c ==> View(d) == old(View(d))
    {
      if !e.failed && e.query.rollbackTo {
        MarkUncertain(c, SavepointRollback, n, e.time);
      } else if e.query.ends {
        if e.failed {
          MarkUncertain(c, FailedEnd, n, e.time);
        } else {
          EndHeld(c, n, e.time, Reported);
          EndTried(c, n, e.time, Reported);
          SetTransaction(c, None);
        }
      }
    }

    /** The connection and pool listeners; closing has removed them. */
    method Notify(c: Client, e: Event, n: nat)
      requires e.Lost? || e.Returned?
      modifies this
      ensures View(c) == Apply(old(View(c)), e, n)
      ensures forall d :: d != c ==> View(d) == old(View(d))
    {
      if closed { return; }
      MarkUncertain(c, e.reason, n, e.time);
      if e.Returned? { SetTransaction(c, None); }
    }

    /** The closing of one connection's intervals. */
    method CloseOne(c: Client, time: int, n: nat)
      requires c in heldLocks || c in heldTryLocks
      modifies this`log, this`heldLocks, this`heldTryLocks, this`transactions
      ensures View(c) == CloseOpen(old(View(c)), n, time)
      ensures forall d :: d != c ==> View(d) == old(View(d))
      ensures heldLocks.Keys + heldTryLocks.Keys == old(heldLocks.Keys + heldTryLocks.Keys) - {c}
    {
      MarkUncertain(c, ProfilerClose, n, time);
    }

    /** Closing ends every open interval; `number` gives each connection's next event number. */
    method CloseAll(time: int, number: Client -> nat)
      modifies this
      ensures closed
      ensures forall c :: View(c) == Apply(old(View(c)), Close(time), number(c))
      ensures !old(closed) ==> heldLocks == map[] && heldTryLocks == map[]
    {
      if closed { return; }
      var rest := heldLocks.Keys + heldTryLocks.Keys;
      while rest != {}
        invariant !closed && heldLocks.Keys + heldTryLocks.Keys == rest
        invariant forall c :: View(c) == if c in rest then old(View(c)) else CloseOpen(old(View(c)), number(c), time)
      {
        var c :| c in rest;
        CloseOne(c, time, number(c));
        rest := rest - {c};
      }
      closed := true;
    }
  }

  // ----- an open interval needs a certain transaction -----

  ghost predicate OpenIsCertain(s: ClientState) {
    s.held.Some? || s.tried.Some? ==> s.tx == Some(false)
  }

  /** Whenever an interval is open, an explicit transaction with no uncertain scope is active. */
  lemma {:induction false} OpenNeedsCertainTransaction(trace: seq<Event>)
    ensures OpenIsCertain(After(trace))
  {
    if trace != [] {
      OpenNeedsCertainTransaction(trace[..|trace| - 1]);
    }
  }

  // ----- every interval is accounted for exactly once -----

  /** How many entries of a log belong to the interval of this kind that event `i` opened. */
  function Count(log: seq<Entry>, kind: Kind, i: nat): nat {
    if log == [] then 0
    else
      var last := log[|log| - 1];
      Count(log[..|log| - 1], kind, i) + if last.kind == kind && last.span.at == i then 1 else 0
  }

  predicate IsOpen(s: ClientState, kind: Kind, i: nat) {
    Slot(s, kind).Some? && Slot(s, kind).value.at == i
  }

  function Balance(s: ClientState, kind: Kind, i: nat): nat {
    Count(s.log, kind, i) + if IsOpen(s, kind, i) then 1 else 0
  }

  lemma CountAppend(log: seq<Entry>, kind: Kind, slot: Option<Open>, n: nat, time: int, outcome: Outcome, k: Kind,
                    i: nat)
    ensures Count(log + Ended(kind, slot, n, time, outcome), k, i)
            == Count(log, k, i) + if k == kind && slot.Some? && slot.value.at == i then 1 else 0
  {
    var ended := Ended(kind, slot, n, time, outcome);
    if slot == None {
      assert log + ended == log;
    } else {
      assert (log + ended)[..|log|] == log;
    }
  }

  lemma EndBothBalances(s: ClientState, n: nat, time: int, outcome: Outcome, kind: Kind, i: nat)
    ensures Balance(EndBoth(s, n, time, outcome), kind, i) == Balance(s, kind, i)
  {
    CountAppend(s.log, Blocking, s.held, n, time, outcome, kind, i);
    CountAppend(s.log + Ended(Blocking, s.held, n, time, outcome), Try, s.tried, n, time, outcome, kind, i);
  }

  lemma SameBalance(s: ClientState, t: ClientState, kind: Kind, i: nat)
    requires s.log == t.log && s.held == t.held && s.tried == t.tried
    ensures Balance(s, kind, i) == Balance(t, kind, i)
  {
  }

  lemma UncertainBalances(s: ClientState, reason: Reason, n: nat, time: int, kind: Kind, i: nat)
    ensures Balance(UncertainInterval(s, reason, n, time), kind, i) == Balance(s, kind, i)
  {
    EndBothBalances(s, n, time, Uncertain(reason), kind, i);
    SameBalance(UncertainInterval(s, reason, n, time), EndBoth(s, n, time, Uncertain(reason)), kind, i);
  }

  lemma BeginBalances(s: ClientState, e: Event, n: nat, kind: Kind, i: nat)
    ensures Balance(AfterBegin(s, e, n), kind, i) == Balance(s, kind, i)
  {
    if Begins(e) {
      UncertainBalances(s, NewBegin, n, e.time, kind, i);
      SameBalance(AfterBegin(s, e, n), UncertainInterval(s, NewBegin, n, e.time), kind, i);
    }
  }

  lemma EndBalances(s: ClientState, e: Event, n: nat, kind: Kind, i: nat)
    ensures Balance(AfterEnd(s, e, n), kind, i) == Balance(s, kind, i)
  {
    if RollsBack(e) {
      UncertainBalances(s, SavepointRollback, n, e.time, kind, i);
    } else if EndsTransaction(e) && e.failed {
      UncertainBalances(s, FailedEnd, n, e.time, kind, i);
    } else if EndsTransaction(e) {
      EndBothBalances(s, n, e.time, Reported, kind, i);
      SameBalance(AfterEnd(s, e, n), EndBoth(s, n, e.time, Reported), kind, i);
    }
  }

  /** Event number `i` of the trace opened an interval of this kind. */
  ghost predicate Opens(trace: seq<Event>, kind: Kind, i: nat) {
    && i < |trace| && trace[i].Finished?
    && OpensSlot(AfterBegin(After(trace[..i]), trace[i], i), trace[i], kind)
  }

  lemma ApplyBalances(s: ClientState, e: Event, n: nat, kind: Kind, i: nat)
    requires !IsOpen(s, kind, n)
    ensures Balance(Apply(s, e, n), kind, i)
            == Balance(s, kind, i) + if i == n && e.Finished? && OpensSlot(AfterBegin(s, e, n), e, kind) then 1 else 0
  {
    match e
    case Finished(_, _, _, _, _) =>
      var s1 := AfterBegin(s, e, n);
      var s2 := AfterAcquire(s1, e, n);
      BeginBalances(s, e, n, kind, i);
      EndBalances(s2, e, n, kind, i);
    case Lost(reason, time) => EndBothBalances(s, n, time, Uncertain(reason), kind, i);
    case Returned(reason, time) => EndBothBalances(s, n, time, Uncertain(reason), kind, i);
    case Close(time) => EndBothBalances(s, n, time, Uncertain(ProfilerClose), kind, i);
  }

  /** Every opened interval is, at every moment, in exactly one place: once in the log, as
      reported or as uncertain, or else still open. Nothing else is ever logged. */
  lemma {:induction false} AccountedExactlyOnce(trace: seq<Event>, kind: Kind, i: nat)
    ensures Balance(After(trace), kind, i) == if Opens(trace, kind, i) then 1 else 0
  {
    if trace != [] {
      var n := |trace| - 1;
      AccountedExactlyOnce(trace[..n], kind, i);
      AccountedExactlyOnce(trace[..n], kind, n);
      ApplyBalances(After(trace[..n]), trace[n], n, kind, i);
      if i < n { assert trace[..n][..i] == trace[..i]; }
    }
  }

  // ----- which intervals are open, and which are reported -----

  /** A savepoint rollback or the end of a transaction, successful or not. */
  predicate Late(e: Event) { RollsBack(e) || EndsTransaction(e) }

  /** A new transaction, a lost or returned connection, or the close of the profiler. */
  ghost predicate Interrupts(trace: seq<Event>, k: nat)
    requires k < |trace|
  {
    Begins(trace[k]) || (!trace[k].Finished? && !After(trace[..k]).closed)
  }

  /** Opened by event `i`, and nothing before event `n` has ended it or made it uncertain. */
  ghost predicate Alive(trace: seq<Event>, kind: Kind, i: nat, n: nat) {
    && Opens(trace, kind, i) && i < n <= |trace|
    && (forall k :: i < k < n ==> !Interrupts(trace, k))
    && (forall k :: i <= k < n ==> !Late(trace[k]))
  }

  lemma AliveInPrefix(trace: seq<Event>, kind: Kind, i: nat, n: nat)
    requires n <= |trace|
    ensures Alive(trace[..n], kind, i, n) <==> Alive(trace, kind, i, n)
  {
    var front := trace[..n];
    if i < n {
      assert front[..i] == trace[..i];
      forall k | i < k < n ensures Interrupts(front, k) <==> Interrupts(trace, k) {
        assert front[..k] == trace[..k];
      }
    }
  }

  lemma AliveNext(trace: seq<Event>, kind: Kind, i: nat, n: nat)
    requires n < |trace|
    ensures Alive(trace, kind, i, n + 1)
            <==> !Late(trace[n]) && if i == n then Opens(trace, kind, n) else Alive(trace, kind, i, n) && !Interrupts(trace, n)
  {
  }

  /** The slot just before the end phase of event `n`. */
  function BeforeEnd(s: ClientState, e: Event, n: nat): ClientState {
    AfterAcquire(AfterBegin(s, e, n), e, n)
  }

  lemma ApplySlot(s: ClientState, e: Event, n: nat, kind: Kind, i: nat)
    requires i < n
    ensures IsOpen(Apply(s, e, n), kind, i)
            <==> IsOpen(s, kind, i) && !Begins(e) && !Late(e) && (e.Finished? || s.closed)
    ensures e.Finished? ==> (IsOpen(BeforeEnd(s, e, n), kind, i) <==> IsOpen(s, kind, i) && !Begins(e))
  {
  }

  lemma ApplyOpens(s: ClientState, e: Event, n: nat, kind: Kind)
    requires !IsOpen(s, kind, n)
    ensures IsOpen(Apply(s, e, n), kind, n) <==> e.Finished? && OpensSlot(AfterBegin(s, e, n), e, kind) && !Late(e)
    ensures e.Finished? ==> (IsOpen(BeforeEnd(s, e, n), kind, n) <==> OpensSlot(AfterBegin(s, e, n), e, kind))
  {
  }

  /** An interval is open exactly while it is alive. */
  lemma {:induction false} OpenIffAlive(trace: seq<Event>, kind: Kind, i: nat)
    ensures IsOpen(After(trace), kind, i) <==> Alive(trace, kind, i, |trace|)
  {
    if trace != [] {
      var n := |trace| - 1;
      var s := After(trace[..n]);
      OpenIffAlive(trace[..n], kind, i);
      OpenIffAlive(trace[..n], kind, n);
      AliveInPrefix(trace, kind, i, n);
      AliveNext(trace, kind, i, n);
      if i < n {
        ApplySlot(s, trace[n], n, kind, i);
      } else if i == n {
        ApplyOpens(s, trace[n], n, kind);
      } else {
        LaterNeverOpen(trace, kind, i);
      }
    }
  }

  lemma {:induction false} LaterNeverOpen(trace: seq<Event>, kind: Kind, i: nat)
    requires i >= |trace|
    ensures !IsOpen(After(trace), kind, i)
  {
    if trace != [] { LaterNeverOpen(trace[..|trace| - 1], kind, i); }
  }

  ghost predicate Logged(log: seq<Entry>, kind: Kind, i: nat, j: nat) {
    exists entry :: entry in log && entry.kind == kind && entry.span.at == i && entry.endedAt == j && entry.outcome == Reported
  }

  /** Event `j` successfully ends the transaction in which event `i` acquired the lock, and no
      new transaction, savepoint rollback, failed end, error, release or close lies between. */
  ghost predicate HeldThrough(trace: seq<Event>, kind: Kind, i: nat, j: nat) {
    && j < |trace| && EndsTransaction(trace[j]) && !trace[j].failed
    && if i == j then Opens(trace, kind, i) else Alive(trace, kind, i, j) && !Begins(trace[j])
  }

  lemma LogGrows(s: ClientState, e: Event, n: nat, kind: Kind, i: nat, j: nat)
    ensures Logged(Apply(s, e, n).log, kind, i, j)
            <==> Logged(s.log, kind, i, j)
                 || (j == n && e.Finished? && EndsTransaction(e) && !e.failed && IsOpen(BeforeEnd(s, e, n), kind, i))
  {
    match e
    case Finished(_, _, _, _, _) =>
      var s2 := BeforeEnd(s, e, n);
      LoggedUncertain(s, NewBegin, n, e.time, kind, i, j);
      assert Logged(s2.log, kind, i, j) <==> Logged(s.log, kind, i, j);
      LoggedUncertain(s2, SavepointRollback, n, e.time, kind, i, j);
      LoggedUncertain(s2, FailedEnd, n, e.time, kind, i, j);
      LoggedReported(s2, n, e.time, kind, i, j);
    case Lost(reason, time) => LoggedUncertain(s, reason, n, time, kind, i, j);
    case Returned(reason, time) => LoggedUncertain(s, reason, n, time, kind, i, j);
    case Close(time) => LoggedUncertain(s, ProfilerClose, n, time, kind, i, j);
  }

  lemma LoggedUncertain(s: ClientState, reason: Reason, n: nat, time: int, kind: Kind, i: nat, j: nat)
    ensures Logged(EndBoth(s, n, time, Uncertain(reason)).log, kind, i, j) <==> Logged(s.log, kind, i, j)
  {
    var ended := EndBoth(s, n, time, Uncertain(reason)).log;
    if Logged(s.log, kind, i, j) {
      var entry :| entry in s.log && entry.kind == kind && entry.span.at == i && entry.endedAt == j && entry.outcome == Reported;
      assert entry in ended;
    }
  }

  lemma LoggedReported(s: ClientState, n: nat, time: int, kind: Kind, i: nat, j: nat)
    ensures Logged(EndBoth(s, n, time, Reported).log, kind, i, j) <==> Logged(s.log, kind, i, j) || (j == n && IsOpen(s, kind, i))
  {
    var ended := EndBoth(s, n, time, Reported).log;
    if Logged(s.log, kind, i, j) {
      var entry :| entry in s.log && entry.kind == kind && entry.span.at == i && entry.endedAt == j && entry.outcome == Reported;
      assert entry in ended;
    }
    if j == n && IsOpen(s, kind, i) {
      assert Entry(kind, Slot(s, kind).value, n, time, Reported) in ended;
    }
  }

  /** A hold is reported from `i` to `j` exactly when the lock was held through: in particular no
      reported hold spans a BEGIN, a savepoint rollback, a failed end, an error or a release. */
  lemma {:induction false} ReportedIffHeldThrough(trace: seq<Event>, kind: Kind, i: nat, j: nat)
    ensures Logged(After(trace).log, kind, i, j) <==> HeldThrough(trace, kind, i, j)
  {
    if trace != [] {
      var n := |trace| - 1;
      var s := After(trace[..n]);
      ReportedIffHeldThrough(trace[..n], kind, i, j);
      LogGrows(s, trace[n], n, kind, i, j);
      if j < n {
        HeldThroughInPrefix(trace, kind, i, j, n);
      } else if j == n && trace[n].Finished? {
        HeldAtEnd(trace, kind, i);
      }
    }
  }

  lemma HeldThroughInPrefix(trace: seq<Event>, kind: Kind, i: nat, j: nat, n: nat)
    requires j < n <= |trace|
    ensures HeldThrough(trace[..n], kind, i, j) <==> HeldThrough(trace, kind, i, j)
  {
    AliveInPrefix(trace, kind, i, j);
    AliveInPrefix(trace[..n], kind, i, j);
    assert trace[..n][..j] == trace[..j];
  }

  lemma HeldAtEnd(trace: seq<Event>, kind: Kind, i: nat)
    requires trace != [] && trace[|trace| - 1].Finished?
    ensures var n := |trace| - 1;
            IsOpen(BeforeEnd(After(trace[..n]), trace[n], n), kind, i)
            <==> if i == n then Opens(trace, kind, n) else Alive(trace, kind, i, n) && !Begins(trace[n])
  {
    var n := |trace| - 1;
    var s := After(trace[..n]);
    OpenIffAlive(trace[..n], kind, i);
    OpenIffAlive(trace[..n], kind, n);
    AliveInPrefix(trace, kind, i, n);
    if i < n {
      ApplySlot(s, trace[n], n, kind, i);
    } else if i == n {
      ApplyOpens(s, trace[n], n, kind);
    } else {
      LaterNeverOpen(trace[..n], kind, i);
    }
  }

  // ----- after the close -----

  lemma NothingOpenAtClose(trace: seq<Event>, c: nat, kind: Kind)
    requires c < |trace| && trace[c].Close? && !After(trace[..c]).closed
    ensures Slot(After(trace[..c + 1]), kind) == None
  {
    assert trace[..c + 1][..c] == trace[..c];
  }

  lemma AliveOpenedLater(trace: seq<Event>, c: nat, kind: Kind, i: nat)
    requires c < |trace| && trace[c].Close? && !After(trace[..c]).closed && Alive(trace, kind, i, |trace|)
    ensures c < i
  {
    if i < c { assert Interrupts(trace, c); }
  }

  /** Closing leaves no interval open; one that is open later was opened by a statement that
      completed after the close. */
  lemma OpenAfterClose(trace: seq<Event>, c: nat, kind: Kind)
    requires c < |trace| && trace[c].Close? && !After(trace[..c]).closed
    ensures Slot(After(trace[..c + 1]), kind) == None
    ensures Slot(After(trace), kind).Some? <==> exists i :: c < i < |trace| && Alive(trace, kind, i, |trace|)
  {
    NothingOpenAtClose(trace, c, kind);
    if Slot(After(trace), kind).Some? {
      var i := Slot(After(trace), kind).value.at;
      OpenIffAlive(trace, kind, i);
      AliveOpenedLater(trace, c, kind, i);
    }
    if i :| c < i < |trace| && Alive(trace, kind, i, |trace|) {
      OpenIffAlive(trace, kind, i);
    }
  }

  /** With no statement in flight at the close, nothing is ever open again. */
  lemma NothingInFlight(trace: seq<Event>, c: nat, kind: Kind)
    requires c < |trace| && trace[c].Close? && !After(trace[..c]).closed
    requires forall k :: c < k < |trace| ==> !Acquires(trace[k], kind)
    ensures Slot(After(trace), kind) == None
  {
    OpenAfterClose(trace, c, kind);
  }

  /** A statement that was in flight can open an interval after the close. */
  lemma LateCompletionStaysOpen()
    ensures var trace := [Finished(Query(true, false, false, false, false), None, false, Denied, 0),
                          Close(1),
                          Finished(Query(false, true, false, false, false), Some(7), false, Denied, 2)];
            After(trace).closed && After(trace).held == Some(Open(2, 2, 7))
  {
    var e0 := Finished(Query(true, false, false, false, false), None, false, Denied, 0);
    var e2 := Finished(Query(false, true, false, false, false), Some(7), false, Denied, 2);
    var trace := [e0, Close(1), e2];
    assert trace[..2] == [e0, Close(1)] && [e0, Close(1)][..1] == [e0] && [e0][..0] == [];
    assert After([e0]) == FRESH.(tx := Some(false));
    assert After([e0, Close(1)]) == FRESH.(tx := Some(false), closed := true);
  }

  // ----- what a logged interval says -----

  /** The event that makes an interval uncertain for this reason. */
  predicate Explains(e: Event, reason: Reason) {
    match e
    case Lost(r, _) => r == reason
    case Returned(r, _) => r == reason
    case Close(_) => reason == ProfilerClose
    case Finished(_, _, _, _, _) =>
      || (reason == NewBegin && Begins(e))
      || (reason == SavepointRollback && RollsBack(e))
      || (reason == FailedEnd && EndsTransaction(e) && e.failed)
  }

  predicate Justifies(e: Event, outcome: Outcome) {
    match outcome
    case Reported => EndsTransaction(e) && !e.failed
    case Uncertain(reason) => Explains(e, reason)
  }

  /** The interval starts when its lock was acquired, on behalf of the operation that acquired it. */
  predicate OpenedBy(trace: seq<Event>, kind: Kind, span: Open) {
    && span.at < |trace| && Acquires(trace[span.at], kind)
    && span.time == trace[span.at].time && trace[span.at].metrics == Some(span.metrics)
  }

  /** And it ends at the event that justifies its outcome. */
  predicate Faithful(trace: seq<Event>, entry: Entry) {
    && OpenedBy(trace, entry.kind, entry.span) && entry.span.at <= entry.endedAt < |trace|
    && entry.endTime == trace[entry.endedAt].time && Justifies(trace[entry.endedAt], entry.outcome)
  }

  ghost predicate Told(trace: seq<Event>, s: ClientState) {
    && (forall entry :: entry in s.log ==> Faithful(trace, entry))
    && (s.held.Some? ==> OpenedBy(trace, Blocking, s.held.value))
    && (s.tried.Some? ==> OpenedBy(trace, Try, s.tried.value))
  }

  lemma EndBothTold(trace: seq<Event>, s: ClientState, outcome: Outcome)
    requires trace != [] && Told(trace, s) && Justifies(trace[|trace| - 1], outcome)
    ensures Told(trace, EndBoth(s, |trace| - 1, trace[|trace| - 1].time, outcome))
  {
  }

  lemma AcquireTold(trace: seq<Event>, s: ClientState)
    requires trace != [] && Told(trace, s)
    ensures Told(trace, AfterAcquire(s, trace[|trace| - 1], |trace| - 1))
  {
  }

  lemma ApplyTold(trace: seq<Event>, s: ClientState)
    requires trace != [] && Told(trace, s)
    ensures Told(trace, Apply(s, trace[|trace| - 1], |trace| - 1))
  {
    var n := |trace| - 1;
    match trace[n]
    case Finished(_, _, _, _, _) =>
      var e := trace[n];
      if Begins(e) { EndBothTold(trace, s, Uncertain(NewBegin)); }
      var s1 := AfterBegin(s, e, n);
      AcquireTold(trace, s1);
      var s2 := AfterAcquire(s1, e, n);
      if RollsBack(e) {
        EndBothTold(trace, s2, Uncertain(SavepointRollback));
      } else if EndsTransaction(e) {
        EndBothTold(trace, s2, if e.failed then Uncertain(FailedEnd) else Reported);
      }
    case Lost(reason, _) => EndBothTold(trace, s, Uncertain(reason));
    case Returned(reason, _) => EndBothTold(trace, s, Uncertain(reason));
    case Close(_) => EndBothTold(trace, s, Uncertain(ProfilerClose));
  }

  lemma ToldLater(trace: seq<Event>, n: nat, s: ClientState)
    requires n <= |trace| && Told(trace[..n], s)
    ensures Told(trace, s)
  {
    assert forall entry :: Faithful(trace[..n], entry) ==> Faithful(trace, entry);
  }

  /** Every logged interval runs from an acquisition of its kind to the event that ended it, with
      the times of both, the operation of the first and the reason of the second. */
  lemma {:induction false} EntriesTellTheTrace(trace: seq<Event>)
    ensures forall entry :: entry in After(trace).log ==> Faithful(trace, entry)
    ensures Told(trace, After(trace))
  {
    if trace != [] {
      var n := |trace| - 1;
      EntriesTellTheTrace(trace[..n]);
      ToldLater(trace, n, After(trace[..n]));
      ApplyTold(trace, After(trace[..n]));
    }
  }

  ghost predicate Timely(s: ClientState, now: int) {
    && (forall entry :: entry in s.log ==> entry.span.time <= entry.endTime)
    && (s.held.Some? ==> s.held.value.time <= now)
    && (s.tried.Some? ==> s.tried.value.time <= now)
  }

  lemma EndBothTimely(s: ClientState, n: nat, time: int, outcome: Outcome)
    requires Timely(s, time)
    ensures Timely(EndBoth(s, n, time, outcome), time)
  {
  }

  lemma ApplyTimely(s: ClientState, e: Event, n: nat)
    requires Timely(s, e.time)
    ensures Timely(Apply(s, e, n), e.time)
  {
    match e
    case Finished(_, _, _, _, _) =>
      EndBothTimely(s, n, e.time, Uncertain(NewBegin));
      var s2 := BeforeEnd(s, e, n);
      assert Timely(s2, e.time);
      EndBothTimely(s2, n, e.time, Uncertain(if RollsBack(e) then SavepointRollback else FailedEnd));
      EndBothTimely(s2, n, e.time, Reported);
    case Lost(reason, time) => EndBothTimely(s, n, time, Uncertain(reason));
    case Returned(reason, time) => EndBothTimely(s, n, time, Uncertain(reason));
    case Close(time) => EndBothTimely(s, n, time, Uncertain(ProfilerClose));
  }

  /** With a clock that does not run backwards, no logged interval has a negative length. */
  lemma {:induction false} DurationsNotNegative(trace: seq<Event>, now: int)
    requires forall j, k :: 0 <= j < k < |trace| ==> trace[j].time <= trace[k].time
    requires forall k :: 0 <= k < |trace| ==> trace[k].time <= now
    ensures Timely(After(trace), now)
  {
    if trace != [] {
      var n := |trace| - 1;
      DurationsNotNegative(trace[..n], trace[n].time);
      ApplyTimely(After(trace[..n]), trace[n], n);
    }
  }
}
