/** Which locks the profiler reports as held (scripts/scheduling-profile/metrics.ts), told by the
    events of one connection alone. */
module LockTrace {
  import opened LockMetrics
  import opened Wrappers

  // ----- events -----

  /** A BEGIN that succeeded. */
  predicate Starts(e: Event) {
    e.Finished? && !e.failed && e.query.begin
  }

  /** A measured statement that got the lock: a blocking one by succeeding, a try by its answer. */
  predicate Locks(e: Event, kind: Kind) {
    && e.Finished? && !e.failed && e.metrics.Some?
    && (kind == Blocking ==> e.query.lock)
    && (kind == Try ==> e.query.tryLock && e.outcome == GrantedLock)
  }

  /** A ROLLBACK TO that succeeded. */
  predicate Undoes(e: Event) {
    e.Finished? && !e.failed && e.query.rollbackTo
  }

  /** A COMMIT or ROLLBACK, successful or not. */
  predicate Finishes(e: Event) {
    e.Finished? && e.query.ends && !Undoes(e)
  }

  /** The profiler was closed before event `n`. */
  ghost predicate ClosedBefore(trace: seq<Event>, n: nat)
    requires n <= |trace|
  {
    exists k :: 0 <= k < n && trace[k].Close?
  }

  /** The connection reports an error, its end or its return while the profiler listens. */
  ghost predicate Detaches(trace: seq<Event>, k: nat)
    requires k < |trace|
  {
    (trace[k].Lost? || trace[k].Returned?) && !ClosedBefore(trace, k)
  }

  /** The profiler is closed while a lock taken since event `b` is open. */
  ghost predicate ClosesOpen(trace: seq<Event>, b: nat, k: nat)
    requires k < |trace|
  {
    trace[k].Close? && !ClosedBefore(trace, k) && exists j, kind :: b <= j < k && Locks(trace[j], kind)
  }

  /** Event `b` starts a transaction whose scope is certain up to event `n`. */
  ghost predicate Certain(trace: seq<Event>, b: nat, n: nat)
    requires n <= |trace|
  {
    && b < n && Starts(trace[b]) && !Undoes(trace[b]) && !Finishes(trace[b])
    && forall k :: b < k < n ==> Harmless(trace, b, k)
  }

  ghost predicate Harmless(trace: seq<Event>, b: nat, k: nat)
    requires k < |trace|
  {
    var e := trace[k];
    !Starts(e) && !Undoes(e) && !Finishes(e) && !Detaches(trace, k) && !ClosesOpen(trace, b, k)
  }

  // ----- the state follows the events -----

  lemma {:induction false} ClosedIff(trace: seq<Event>)
    ensures After(trace).closed <==> ClosedBefore(trace, |trace|)
  {
    if trace != [] {
      var n := |trace| - 1;
      ClosedIff(trace[..n]);
      assert forall k :: 0 <= k < n ==> trace[..n][k] == trace[k];
    }
  }

  lemma ClosedInPrefix(trace: seq<Event>, n: nat, k: nat)
    requires k <= n <= |trace|
    ensures ClosedBefore(trace[..n], k) <==> ClosedBefore(trace, k)
  {
  }

  lemma HarmlessInPrefix(trace: seq<Event>, n: nat, b: nat, k: nat)
    requires k < n <= |trace|
    ensures Harmless(trace[..n], b, k) <==> Harmless(trace, b, k)
  {
    ClosedInPrefix(trace, n, k);
    assert forall j :: b <= j < k ==> trace[..n][j] == trace[j];
  }

  lemma CertainInPrefix(trace: seq<Event>, b: nat, n: nat)
    requires n < |trace|
    ensures Certain(trace[..n], b, n) <==> Certain(trace, b, n)
  {
    forall k | b < k < n ensures Harmless(trace[..n], b, k) <==> Harmless(trace, b, k) {
      HarmlessInPrefix(trace, n, b, k);
    }
  }

  /** A lock of this kind was taken between events `b` and `n`. */
  ghost predicate Locked(trace: seq<Event>, kind: Kind, b: nat, n: nat)
    requires n <= |trace|
  {
    exists k :: b <= k < n && Locks(trace[k], kind)
  }

  lemma LockedNext(trace: seq<Event>, kind: Kind, b: nat, n: nat)
    requires b <= n < |trace|
    ensures Locked(trace, kind, b, n + 1) <==> Locked(trace, kind, b, n) || Locks(trace[n], kind)
    ensures Locked(trace[..n], kind, b, n) <==> Locked(trace, kind, b, n)
  {
    assert forall k :: b <= k < n ==> trace[..n][k] == trace[k];
  }

  /** While the scope is certain, a slot is open exactly when a lock of its kind was taken. */
  ghost predicate Follows(trace: seq<Event>, b: nat) {
    && After(trace).tx == Some(false)
    && forall kind :: Slot(After(trace), kind).Some? <==> Locked(trace, kind, b, |trace|)
  }

  lemma {:induction false} CertainState(trace: seq<Event>, b: nat)
    requires Certain(trace, b, |trace|)
    ensures Follows(trace, b)
  {
    var n := |trace| - 1;
    var s, e := After(trace[..n]), trace[n];
    forall kind ensures Locked(trace, kind, b, n + 1) <==> Locked(trace, kind, b, n) || Locks(e, kind) {
      LockedNext(trace, kind, b, n);
    }
    if b == n {
      StartState(s, e, n);
    } else {
      assert Harmless(trace, b, n);
      CertainInPrefix(trace, b, n);
      CertainState(trace[..n], b);
      forall kind ensures Slot(s, kind).Some? <==> Locked(trace, kind, b, n) { LockedNext(trace, kind, b, n); }
      ClosedIff(trace[..n]);
      ClosedInPrefix(trace, n, n);
      HarmlessState(trace, b, n, s);
    }
  }

  lemma StartState(s: ClientState, e: Event, n: nat)
    requires Starts(e) && !Undoes(e) && !Finishes(e)
    ensures Apply(s, e, n).tx == Some(false)
    ensures forall kind :: Slot(Apply(s, e, n), kind).Some? <==> Locks(e, kind)
  {
  }

  lemma HarmlessState(trace: seq<Event>, b: nat, n: nat, s: ClientState)
    requires b < n < |trace| && Harmless(trace, b, n) && s.tx == Some(false)
    requires s.closed <==> ClosedBefore(trace, n)
    requires forall kind :: Slot(s, kind).Some? <==> Locked(trace, kind, b, n)
    ensures Apply(s, trace[n], n).tx == Some(false)
    ensures forall kind :: Slot(Apply(s, trace[n], n), kind).Some? <==> Slot(s, kind).Some? || Locks(trace[n], kind)
  {
    assert Slot(s, Blocking).Some? <==> s.held.Some?;
    assert Slot(s, Try).Some? <==> s.tried.Some?;
  }

  /** And every certain scope comes from such a transaction. */
  lemma {:induction false} CertainFrom(trace: seq<Event>) returns (b: nat)
    requires After(trace).tx == Some(false)
    ensures Certain(trace, b, |trace|)
  {
    var n := |trace| - 1;
    var s, e := After(trace[..n]), trace[n];
    if Starts(e) && !Undoes(e) && !Finishes(e) {
      b := n;
    } else {
      StaysCertain(s, e, n);
      b := CertainFrom(trace[..n]);
      CertainInPrefix(trace, b, n);
      CertainState(trace[..n], b);
      ClosedIff(trace[..n]);
      ClosedInPrefix(trace, n, n);
      HarmlessFrom(trace, b, n, s);
    }
  }

  lemma StaysCertain(s: ClientState, e: Event, n: nat)
    requires Apply(s, e, n).tx == Some(false) && !(Starts(e) && !Undoes(e) && !Finishes(e))
    ensures s.tx == Some(false) && !Starts(e) && !Undoes(e) && !Finishes(e)
    ensures (e.Lost? || e.Returned?) ==> s.closed
    ensures e.Close? && !s.closed ==> s.held == None && s.tried == None
  {
  }

  lemma HarmlessFrom(trace: seq<Event>, b: nat, n: nat, s: ClientState)
    requires n < |trace| && b < n && s == After(trace[..n]) && Follows(trace[..n], b)
    requires s.closed <==> ClosedBefore(trace, n)
    requires var e := trace[n];
             && !Starts(e) && !Undoes(e) && !Finishes(e)
             && ((e.Lost? || e.Returned?) ==> s.closed)
             && (e.Close? && !s.closed ==> s.held == None && s.tried == None)
    ensures Harmless(trace, b, n)
  {
    forall kind ensures Slot(s, kind).Some? <==> Locked(trace, kind, b, n) { LockedNext(trace, kind, b, n); }
    assert Slot(s, Blocking) == s.held && Slot(s, Try) == s.tried;
  }

  // ----- which statements open an interval -----

  /** Event `i` takes the first lock of its kind in a transaction whose scope is certain. */
  ghost predicate FirstLock(trace: seq<Event>, kind: Kind, i: nat, b: nat)
    requires i < |trace|
  {
    && Locks(trace[i], kind) && !Locked(trace, kind, b, i)
    && if Starts(trace[i]) then b == i else Certain(trace, b, i)
  }

  lemma OpensIff(trace: seq<Event>, kind: Kind, i: nat)
    requires i < |trace|
    ensures Opens(trace, kind, i) <==> exists b :: FirstLock(trace, kind, i, b)
  {
    var s, e := After(trace[..i]), trace[i];
    if Starts(e) {
      assert Locks(e, kind) ==> FirstLock(trace, kind, i, i);
    } else {
      if b :| FirstLock(trace, kind, i, b) {
        CertainInPrefix(trace, b, i);
        CertainState(trace[..i], b);
        LockedNext(trace, kind, b, i);
      }
      if Opens(trace, kind, i) {
        var b := CertainFrom(trace[..i]);
        CertainInPrefix(trace, b, i);
        CertainState(trace[..i], b);
        LockedNext(trace, kind, b, i);
        assert FirstLock(trace, kind, i, b);
      }
    }
  }

  // ----- which holds are reported -----

  /** Between the acquisition `i` and event `j` the transaction neither restarts nor rolls back to a
      savepoint nor ends, and the profiler neither loses the connection nor is closed. */
  ghost predicate Undisturbed(trace: seq<Event>, i: nat, j: nat)
    requires i <= j <= |trace|
  {
    && (forall k :: i <= k < j ==> !Undoes(trace[k]) && !Finishes(trace[k]))
    && (forall k :: i < k < j ==> !Starts(trace[k]) && (trace[k].Finished? || ClosedBefore(trace, k)))
  }

  /** Event `j` is the successful end of the transaction in which event `i` took the lock. */
  ghost predicate Spans(trace: seq<Event>, kind: Kind, i: nat, j: nat) {
    && i <= j < |trace| && (exists b :: FirstLock(trace, kind, i, b)) && Undisturbed(trace, i, j)
    && Finishes(trace[j]) && !trace[j].failed && (i < j ==> !Starts(trace[j]))
  }

  /** A hold is reported exactly when it spans from a first lock to a successful end. */
  lemma ReportedIffSpans(trace: seq<Event>, kind: Kind, i: nat, j: nat)
    ensures Logged(After(trace).log, kind, i, j) <==> Spans(trace, kind, i, j)
  {
    ReportedIffHeldThrough(trace, kind, i, j);
    if i <= j < |trace| {
      OpensIff(trace, kind, i);
      forall k | i < k < j
        ensures Interrupts(trace, k) <==> Starts(trace[k]) || (!trace[k].Finished? && !ClosedBefore(trace, k))
      {
        ClosedIff(trace[..k]);
        ClosedInPrefix(trace, k, k);
      }
    }
  }
}
