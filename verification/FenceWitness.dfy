/** The contention fence witness of scripts/scheduling-profile/contention-fence-witness.ts: the
    ordinals it records while two transactions compete for the period lock. */
module FenceWitness {
  import opened Wrappers

  datatype Role = Bulk | Acceptance
  datatype Order = BulkBeforeAcceptance | AcceptanceBeforeBulk
  datatype Terminal = Running | Succeeded | Failed

  /** Times are wall-clock milliseconds; the clock may jump. */
  datatype Acquisition = Acquisition(sequence: nat, startedAt: int, acquiredAt: int)

  datatype Operation = Operation(
    role: Role, invocation: nat, startedAt: int, terminal: Terminal, terminalAt: Option<int>,
    acquisitions: seq<Acquisition>, failedAcquisitions: nat)

  // ----- the witness -----

  datatype Witness = Witness(operations: seq<Operation>, sequence: nat)

  const FRESH := Witness([], 0)

  /** `run` before its work starts. */
  predicate CanStart(w: Witness, role: Role) {
    |w.operations| < 2 && forall i :: 0 <= i < |w.operations| ==> w.operations[i].role != role
  }

  function Start(w: Witness, role: Role, now: int): Witness {
    w.(operations := w.operations + [Operation(role, |w.operations|, now, Running, None, [], 0)])
  }

  /** `run` after its work settles. */
  function Settle(w: Witness, i: nat, succeeded: bool, now: int): Witness
    requires i < |w.operations|
  {
    var op := w.operations[i];
    w.(operations := w.operations[i := op.(terminal := if succeeded then Succeeded else Failed, terminalAt := Some(now))])
  }

  /** The period query has returned: record the acquisition, unless a check fails. */
  predicate CanRecord(op: Operation) {
    op.terminal == Running && |op.acquisitions| < 4
  }

  function Returned(w: Witness, i: nat, startedAt: int, now: int): Witness
    requires i < |w.operations|
  {
    var op := w.operations[i];
    if CanRecord(op) then
      var acquisition := Acquisition(w.sequence + 1, startedAt, now);
      Witness(w.operations[i := op.(acquisitions := op.acquisitions + [acquisition])], w.sequence + 1)
    else Rejected(w, i)
  }

  /** The period query has failed. */
  function Rejected(w: Witness, i: nat): Witness
    requires i < |w.operations|
  {
    var op := w.operations[i];
    w.(operations := w.operations[i := op.(failedAcquisitions := op.failedAcquisitions + 1)])
  }

  /** The witness object; each method is one synchronous section of the source. */
  class ContentionFenceWitness {
    var operations: seq<Operation>
    var sequence: nat

    function Model(): Witness
      reads this
    {
      Witness(operations, sequence)
    }

    constructor ()
      ensures Model() == FRESH
    {
      operations, sequence := [], 0;
    }

    method Run(role: Role, now: int) returns (started: bool)
      modifies this
      ensures started <==> |old(operations)| < 2 && forall op :: op in old(operations) ==> op.role != role
      ensures started ==> operations == old(operations) + [Operation(role, |old(operations)|, now, Running, None, [], 0)]
      ensures Model() == if started then Start(old(Model()), role, now) else old(Model())
    {
      if |operations| >= 2 || exists i :: 0 <= i < |operations| && operations[i].role == role { return false; }
      operations := operations + [Operation(role, |operations|, now, Running, None, [], 0)];
      started := true;
    }

    method Finish(i: nat, succeeded: bool, now: int)
      requires i < |operations|
      modifies this
      ensures Model() == Settle(old(Model()), i, succeeded, now)
    {
      var operation := operations[i].(terminal := if succeeded then Succeeded else Failed);
      operations := operations[i := operation.(terminalAt := Some(now))];
    }

    method ObserveReturn(i: nat, startedAt: int, now: int) returns (recorded: bool)
      requires i < |operations|
      modifies this
      ensures |operations| == |old(operations)|
      ensures recorded <==> old(operations[i]).terminal == Running && |old(operations[i]).acquisitions| < 4
      ensures recorded ==>
                && sequence == old(sequence) + 1
                && operations[i].acquisitions
                   == old(operations[i]).acquisitions + [Acquisition(old(sequence) + 1, startedAt, now)]
      ensures !recorded ==>
                && sequence == old(sequence)
                && operations[i] == old(operations[i]).(failedAcquisitions := old(operations[i]).failedAcquisitions + 1)
      ensures Model() == Returned(old(Model()), i, startedAt, now)
    {
      var operation := operations[i];
      if operation.terminal != Running || |operation.acquisitions| >= 4 {
        ObserveFailure(i);
        return false;
      }
      sequence := sequence + 1;
      operations := operations[i := operation.(acquisitions := operation.acquisitions + [Acquisition(sequence, startedAt, now)])];
      recorded := true;
    }

    method ObserveFailure(i: nat)
      requires i < |operations|
      modifies this
      ensures Model() == Rejected(old(Model()), i)
    {
      operations := operations[i := operations[i].(failedAcquisitions := operations[i].failedAcquisitions + 1)];
    }
  }

  predicate CleanOperation(op: Operation) {
    && op.terminal == Succeeded && op.failedAcquisitions == 0 && |op.acquisitions| == 1
    && op.terminalAt.Some?
    && op.startedAt <= op.acquisitions[0].startedAt <= op.acquisitions[0].acquiredAt <= op.terminalAt.value
  }

  /** `contentionFenceOrder`. */
  function FenceOrder(operations: seq<Operation>): Option<Order> {
    if |operations| != 2 then None
    else
      var a, b := operations[0], operations[1];
      if {a.invocation, b.invocation} != {0, 1} || a.role == b.role then None
      else if !CleanOperation(a) || !CleanOperation(b) then None
      else
        var first, second := a.acquisitions[0].sequence, b.acquisitions[0].sequence;
        if {first, second} != {1, 2} then None
        else
          var bulk, acceptance := if a.role == Bulk then first else second, if a.role == Bulk then second else first;
          Some(if bulk < acceptance then BulkBeforeAcceptance else AcceptanceBeforeBulk)
  }

  // ----- the world: two transactions and one lock -----

  /** The current transaction of an operation. A backend can abort between the grant and the
      delivery of its result; the result may then still arrive, or the query may fail. */
  datatype Tx = Idle | Waiting | Granted(returned: bool) | Committed | AbortedBeforeReturn | Aborted

  datatype World = World(
    observed: Witness,
    tx: seq<Tx>,
    grants: seq<nat>,     // operations in the order the database granted them the lock
    commits: seq<nat>)    // operations in commit order

  const START := World(FRESH, [], [], [])

  datatype Event =
    | Begins(role: Role, now: int)
    | Requests(i: nat)
    | Grants(i: nat)
    | Returns(i: nat, startedAt: int, now: int)
    | ReturnsAgain(i: nat, startedAt: int, now: int)  // a second acquisition inside the same transaction
    | QueryFails(i: nat)
    | Commits(i: nat)
    | Aborts(i: nat)
    | Settles(i: nat, succeeded: bool, now: int)

  predicate LockFree(w: World) {
    forall i :: 0 <= i < |w.tx| ==> !w.tx[i].Granted?
  }

  predicate InRange(w: World, i: nat) {
    i < |w.tx| && i < |w.observed.operations|
  }

  predicate Enabled(w: World, e: Event) {
    match e
    case Begins(role, _) => CanStart(w.observed, role)
    case Requests(i) => InRange(w, i) && w.tx[i] in {Idle, Committed, Aborted} && w.observed.operations[i].terminal == Running
    case Grants(i) => InRange(w, i) && w.tx[i] == Waiting && LockFree(w)
    case Returns(i, _, _) => InRange(w, i) && w.tx[i] in {Granted(false), AbortedBeforeReturn}
    case ReturnsAgain(i, _, _) => InRange(w, i) && w.tx[i] == Granted(true)
    case QueryFails(i) => InRange(w, i) && w.tx[i] in {Waiting, Granted(false), AbortedBeforeReturn}
    // the handler cannot commit before its query has returned
    case Commits(i) => InRange(w, i) && w.tx[i] == Granted(true)
    case Aborts(i) => InRange(w, i) && w.tx[i].Granted?
    // work that succeeds has no transaction open and its last one committed
    case Settles(i, succeeded, _) =>
      InRange(w, i) && w.observed.operations[i].terminal == Running && (succeeded ==> w.tx[i] in {Idle, Committed})
  }

  function Apply(w: World, e: Event): World
    requires Enabled(w, e)
  {
    match e
    case Begins(role, now) => w.(observed := Start(w.observed, role, now), tx := w.tx + [Idle])
    case Requests(i) => w.(tx := w.tx[i := Waiting])
    case Grants(i) => w.(tx := w.tx[i := Granted(false)], grants := w.grants + [i])
    case Returns(i, startedAt, now) =>
      w.(observed := Returned(w.observed, i, startedAt, now),
         tx := w.tx[i := if w.tx[i].Granted? then Granted(true) else Aborted])
    case ReturnsAgain(i, startedAt, now) => w.(observed := Returned(w.observed, i, startedAt, now))
    case QueryFails(i) => w.(observed := Rejected(w.observed, i), tx := w.tx[i := Aborted])
    case Commits(i) => w.(tx := w.tx[i := Committed], commits := w.commits + [i])
    case Aborts(i) => w.(tx := w.tx[i := if w.tx[i].returned then Aborted else AbortedBeforeReturn])
    case Settles(i, succeeded, now) => w.(observed := Settle(w.observed, i, succeeded, now))
  }

  /** The world after a list of events, if each was possible in its turn. */
  function After(events: seq<Event>): Option<World> {
    if events == [] then Some(START)
    else
      var last := events[|events| - 1];
      match After(events[..|events| - 1])
      case None => None
      case Some(w) => if Enabled(w, last) then Some(Apply(w, last)) else None
  }

  // ----- the invariant -----

  /** How many period queries of an operation have come back. */
  function Outcomes(op: Operation): nat {
    |op.acquisitions| + op.failedAcquisitions
  }

  /** An operation that has been aborted, retried or has acquired twice; it never becomes clean again. */
  predicate Dirty(w: World, i: nat)
    requires InRange(w, i)
  {
    var op := w.observed.operations[i];
    || Outcomes(op) >= 2
    || op.failedAcquisitions >= 1
    || (Outcomes(op) == 1 && w.tx[i] !in {Granted(true), Committed})
    || w.tx[i] == AbortedBeforeReturn
  }

  /** The operation has been granted the lock and its query has returned. */
  predicate Recorded(t: Tx) {
    t == Granted(true) || t == Committed
  }

  /** The ordinal of the first recorded acquisition, 0 before there is one. */
  function Ordinal(w: World, i: nat): nat {
    if InRange(w, i) && w.observed.operations[i].acquisitions != [] then w.observed.operations[i].acquisitions[0].sequence else 0
  }

  /** The `k`-th commit is of a committed operation whose ordinal is `k + 1`. */
  predicate CommitAligned(w: World, k: nat)
    requires k < |w.commits|
  {
    var c := w.commits[k];
    c < |w.tx| && w.tx[c] == Committed && Ordinal(w, c) == k + 1
  }

  /** The holder of the lock is the last grant, and its ordinal, once recorded, is the next one. */
  predicate HolderAligned(w: World, h: nat)
    requires h < |w.tx| && w.tx[h].Granted?
  {
    var n := |w.commits|;
    && w.grants == w.commits + [h]
    && w.observed.sequence == (if w.tx[h].returned then n + 1 else n)
    && (w.tx[h].returned ==> Ordinal(w, h) == n + 1)
  }

  /** With no dirty operation, grants, ordinals and commits tell the same story. */
  ghost predicate Aligned(w: World) {
    && (forall k :: 0 <= k < |w.commits| ==> CommitAligned(w, k))
    && (forall i :: 0 <= i < |w.tx| && w.tx[i] == Committed ==> i in w.commits)
    && (forall h :: 0 <= h < |w.tx| && w.tx[h].Granted? ==> HolderAligned(w, h))
    && (LockFree(w) ==> w.grants == w.commits && w.observed.sequence == |w.commits|)
  }

  /** How the state of one operation's transaction and its recorded outcomes go together. */
  predicate SlotShape(i: nat, t: Tx, op: Operation) {
    && op.invocation == i
    && (t == Idle ==> Outcomes(op) == 0)
    && (Recorded(t) || t == Aborted ==> Outcomes(op) >= 1)
  }

  ghost predicate Shape(w: World) {
    && |w.tx| == |w.observed.operations| <= 2
    && (forall i, j :: 0 <= i < j < |w.tx| ==> !(w.tx[i].Granted? && w.tx[j].Granted?))
    && (forall i :: 0 <= i < |w.tx| ==> SlotShape(i, w.tx[i], w.observed.operations[i]))
  }

  ghost predicate Clean(w: World) {
    forall i :: 0 <= i < |w.tx| ==> InRange(w, i) && !Dirty(w, i)
  }

  ghost predicate Invariant(w: World) {
    Shape(w) && (Clean(w) ==> Aligned(w))
  }

  lemma DirtyStays(w: World, e: Event, i: nat)
    requires Shape(w) && Enabled(w, e) && i < |w.tx| && Dirty(w, i)
    ensures InRange(Apply(w, e), i) && Dirty(Apply(w, e), i)
  {
  }

  lemma ShapeKept(w: World, e: Event)
    requires Shape(w) && Enabled(w, e)
    ensures Shape(Apply(w, e))
  {
    if e.Begins? { ShapeKeptByBegin(w, e); } else { ShapeKeptByUpdate(w, e); }
  }

  lemma ShapeKeptByBegin(w: World, e: Event)
    requires Shape(w) && Enabled(w, e) && e.Begins?
    ensures Shape(Apply(w, e))
  {
  }

  /** Every other event changes one slot. */
  lemma ShapeKeptByUpdate(w: World, e: Event)
    requires Shape(w) && Enabled(w, e) && !e.Begins?
    ensures Shape(Apply(w, e))
  {
    var next := Apply(w, e);
    forall i | 0 <= i < |next.tx| ensures SlotShape(i, next.tx[i], next.observed.operations[i]) {
      SlotKept(w, e, i);
    }
    if !e.Grants? { assert forall i :: 0 <= i < |w.tx| && next.tx[i].Granted? ==> w.tx[i].Granted?; }
  }

  lemma SlotKept(w: World, e: Event, i: nat)
    requires Shape(w) && Enabled(w, e) && !e.Begins? && i < |w.tx|
    ensures |Apply(w, e).tx| == |Apply(w, e).observed.operations| == |w.tx|
    ensures SlotShape(i, Apply(w, e).tx[i], Apply(w, e).observed.operations[i])
  {
    assert SlotShape(i, w.tx[i], w.observed.operations[i]);
  }

  lemma AlignedGrant(w: World, i: nat)
    requires Shape(w) && Clean(w) && Aligned(w) && Enabled(w, Grants(i))
    ensures Aligned(Apply(w, Grants(i)))
  {
    var next := Apply(w, Grants(i));
    assert next.tx[i].Granted?;
    forall k | 0 <= k < |next.commits| ensures CommitAligned(next, k) { assert CommitAligned(w, k); }
  }

  lemma AlignedReturn(w: World, i: nat, startedAt: int, now: int)
    requires Shape(w) && Clean(w) && Aligned(w) && Enabled(w, Returns(i, startedAt, now))
    requires Clean(Apply(w, Returns(i, startedAt, now)))
    ensures Aligned(Apply(w, Returns(i, startedAt, now)))
  {
    var next := Apply(w, Returns(i, startedAt, now));
    assert !Dirty(w, i) && !Dirty(next, i);
    assert HolderAligned(w, i);
    forall k | 0 <= k < |next.commits| ensures CommitAligned(next, k) { assert CommitAligned(w, k); }
  }

  lemma AlignedCommit(w: World, i: nat)
    requires Shape(w) && Clean(w) && Aligned(w) && Enabled(w, Commits(i))
    ensures Aligned(Apply(w, Commits(i)))
  {
    var next := Apply(w, Commits(i));
    assert HolderAligned(w, i);
    assert next.commits == w.commits + [i];
    forall k | 0 <= k < |next.commits| ensures CommitAligned(next, k) {
      if k < |w.commits| { assert CommitAligned(w, k); }
    }
  }

  lemma AlignedSettle(w: World, e: Event)
    requires Shape(w) && Aligned(w) && Enabled(w, e) && e.Settles?
    ensures Aligned(Apply(w, e))
  {
    var next := Apply(w, e);
    forall k | 0 <= k < |next.commits| ensures CommitAligned(next, k) { assert CommitAligned(w, k); }
    forall h | 0 <= h < |next.tx| && next.tx[h].Granted? ensures HolderAligned(next, h) { assert HolderAligned(w, h); }
  }

  lemma AlignedRequest(w: World, i: nat)
    requires Shape(w) && Aligned(w) && Enabled(w, Requests(i)) && w.tx[i] == Idle
    ensures Aligned(Apply(w, Requests(i)))
  {
    var next := Apply(w, Requests(i));
    forall k | 0 <= k < |next.commits| ensures CommitAligned(next, k) { assert CommitAligned(w, k); }
    forall h | 0 <= h < |next.tx| && next.tx[h].Granted? ensures HolderAligned(next, h) { assert HolderAligned(w, h); }
    assert forall h :: 0 <= h < |w.tx| && w.tx[h].Granted? ==> next.tx[h].Granted?;
  }

  lemma AlignedBegin(w: World, role: Role, now: int)
    requires Shape(w) && Aligned(w) && Enabled(w, Begins(role, now))
    ensures Aligned(Apply(w, Begins(role, now)))
  {
    var next := Apply(w, Begins(role, now));
    forall k | 0 <= k < |next.commits| ensures CommitAligned(next, k) { assert CommitAligned(w, k); }
    forall h | 0 <= h < |next.tx| && next.tx[h].Granted? ensures HolderAligned(next, h) { assert HolderAligned(w, h); }
    if LockFree(next) {
      assert forall i :: 0 <= i < |w.tx| ==> next.tx[i] == w.tx[i];
    }
  }

  /** Every other event makes its operation dirty. */
  lemma AlignedKept(w: World, e: Event)
    requires Shape(w) && Clean(w) && Aligned(w) && Enabled(w, e) && Clean(Apply(w, e))
    ensures Aligned(Apply(w, e))
  {
    match e
    case Begins(role, now) => AlignedBegin(w, role, now);
    case Requests(i) =>
      assert !Dirty(Apply(w, e), i);
      AlignedRequest(w, i);
    case Grants(i) => AlignedGrant(w, i);
    case Returns(i, startedAt, now) => AlignedReturn(w, i, startedAt, now);
    case Commits(i) => AlignedCommit(w, i);
    case Settles(_, _, _) => AlignedSettle(w, e);
    case ReturnsAgain(i, _, _) => SecondOutcomeDirties(w, e, i);
    case QueryFails(i) => SecondOutcomeDirties(w, e, i);
    case Aborts(i) => SecondOutcomeDirties(w, e, i);
  }

  lemma SecondOutcomeDirties(w: World, e: Event, i: nat)
    requires Shape(w) && Enabled(w, e)
    requires (e.ReturnsAgain? && e.i == i) || (e.QueryFails? && e.i == i) || (e.Aborts? && e.i == i)
    ensures InRange(Apply(w, e), i) && Dirty(Apply(w, e), i)
  {
  }

  lemma InvariantKept(w: World, e: Event)
    requires Invariant(w) && Enabled(w, e)
    ensures Invariant(Apply(w, e))
  {
    ShapeKept(w, e);
    var next := Apply(w, e);
    if Clean(next) {
      forall i | 0 <= i < |w.tx| ensures !Dirty(w, i) {
        if Dirty(w, i) { DirtyStays(w, e, i); }
      }
      AlignedKept(w, e);
    }
  }

  lemma {:induction false} AlwaysInvariant(events: seq<Event>)
    requires After(events).Some?
    ensures Invariant(After(events).value)
  {
    if events != [] {
      AlwaysInvariant(events[..|events| - 1]);
      InvariantKept(After(events[..|events| - 1]).value, events[|events| - 1]);
    }
  }

  /** Whatever the interleaving, a reported order names the operation that was granted the lock
      first, and the same operation committed first. */
  lemma OrderIsGrantOrder(events: seq<Event>) returns (first: nat, second: nat)
    requires After(events).Some?
    requires FenceOrder(After(events).value.observed.operations).Some?
    ensures var w := After(events).value;
            && w.grants == [first, second] && w.commits == [first, second]
            && first < |w.observed.operations| == 2
            && FenceOrder(w.observed.operations).value
               == (if w.observed.operations[first].role == Bulk then BulkBeforeAcceptance else AcceptanceBeforeBulk)
            && w.observed.operations[first].acquisitions[0].sequence == 1
  {
    var w := After(events).value;
    AlwaysInvariant(events);
    SettledAfterCommit(events);
    CleanSettled(w);
    first, second := GrantsAreCommits(w);
  }

  ghost predicate SettledCommitted(w: World) {
    forall i :: 0 <= i < |w.tx| && i < |w.observed.operations| && w.observed.operations[i].terminal == Succeeded ==>
      w.tx[i] in {Idle, Committed}
  }

  /** A reported order means that no operation is dirty and both have committed. */
  lemma CleanSettled(w: World)
    requires Shape(w) && SettledCommitted(w) && FenceOrder(w.observed.operations).Some?
    ensures Clean(w) && |w.tx| == 2 && w.tx[0] == Committed && w.tx[1] == Committed
  {
    assert SlotShape(0, w.tx[0], w.observed.operations[0]) && SlotShape(1, w.tx[1], w.observed.operations[1]);
  }

  lemma GrantsAreCommits(w: World) returns (first: nat, second: nat)
    requires Shape(w) && Aligned(w) && FenceOrder(w.observed.operations).Some?
    requires |w.tx| == 2 && w.tx[0] == Committed && w.tx[1] == Committed
    ensures w.grants == [first, second] && w.commits == [first, second] && first < 2
    ensures Ordinal(w, first) == 1
    ensures FenceOrder(w.observed.operations).value
            == (if w.observed.operations[first].role == Bulk then BulkBeforeAcceptance else AcceptanceBeforeBulk)
  {
    assert LockFree(w);
    TwoCommits(w);
    first, second := w.grants[0], w.grants[1];
    assert CommitAligned(w, 0) && CommitAligned(w, 1);
    assert w.grants == [first, second];
  }

  /** An operation's ordinal tells which commit is its own. */
  lemma OneOfTwo(w: World, i: nat, j: nat, k: nat)
    requires |w.tx| == 2 && i < |w.commits| && j < |w.commits| && k < |w.commits|
    requires w.commits[i] == 0 && w.commits[j] == 1
    requires CommitAligned(w, i) && CommitAligned(w, j) && CommitAligned(w, k)
    ensures k == i || k == j
  {
  }

  /** So two operations commit exactly twice. */
  lemma TwoCommits(w: World)
    requires |w.tx| == 2 && 0 in w.commits && 1 in w.commits
    requires forall k :: 0 <= k < |w.commits| ==> CommitAligned(w, k)
    ensures |w.commits| == 2
  {
    var n := |w.commits|;
    var i :| 0 <= i < n && w.commits[i] == 0;
    var j :| 0 <= j < n && w.commits[j] == 1;
    OneOfTwo(w, i, j, 0);
    OneOfTwo(w, i, j, 1);
    OneOfTwo(w, i, j, n - 1);
  }

  lemma SettledKept(w: World, e: Event)
    requires Shape(w) && SettledCommitted(w) && Enabled(w, e)
    ensures SettledCommitted(Apply(w, e))
  {
  }

  /** An operation that succeeded has no transaction open. */
  lemma {:induction false} SettledAfterCommit(events: seq<Event>)
    requires After(events).Some?
    ensures SettledCommitted(After(events).value)
  {
    if events != [] {
      SettledAfterCommit(events[..|events| - 1]);
      AlwaysInvariant(events[..|events| - 1]);
      SettledKept(After(events[..|events| - 1]).value, events[|events| - 1]);
    }
  }

  // ----- an order is final -----

  /** An operation that has settled keeps everything but the count of its failed queries. */
  predicate Frozen(before: Operation, after: Operation) {
    after == before.(failedAcquisitions := after.failedAcquisitions)
  }

  lemma StepFreezes(w: World, e: Event, i: nat)
    requires Enabled(w, e) && i < |w.observed.operations| && w.observed.operations[i].terminal != Running
    ensures i < |Apply(w, e).observed.operations|
    ensures Frozen(w.observed.operations[i], Apply(w, e).observed.operations[i])
  {
  }

  /** Whatever happens afterwards: a late query can neither add an acquisition nor end the operation again. */
  lemma {:induction false} SettledIsFrozen(events: seq<Event>, more: seq<Event>, i: nat)
    requires After(events).Some? && After(events + more).Some?
    requires var ops := After(events).value.observed.operations; i < |ops| && ops[i].terminal != Running
    ensures var before, after := After(events).value.observed.operations, After(events + more).value.observed.operations;
            i < |after| && Frozen(before[i], after[i])
  {
    if more == [] {
      assert events + more == events;
    } else {
      var front := more[..|more| - 1];
      assert (events + more)[..|events + more| - 1] == events + front;
      SettledIsFrozen(events, front, i);
      StepFreezes(After(events + front).value, more[|more| - 1], i);
    }
  }

  lemma NothingLeft(w: World, e: Event)
    requires |w.tx| == |w.observed.operations| == 2 && w.tx[0] == Committed && w.tx[1] == Committed
    requires w.observed.operations[0].terminal != Running && w.observed.operations[1].terminal != Running
    ensures !Enabled(w, e)
  {
  }

  /** So once an order can be reported it is final: nothing is left that could happen. */
  lemma OrderIsFinal(events: seq<Event>, e: Event)
    requires After(events).Some? && FenceOrder(After(events).value.observed.operations).Some?
    ensures !Enabled(After(events).value, e)
  {
    var w := After(events).value;
    AlwaysInvariant(events);
    SettledAfterCommit(events);
    CleanSettled(w);
    NothingLeft(w, e);
  }

  // ----- when an order is reported -----

  /** The operation succeeded with one acquisition and no failed query, and its times are in order. */
  predicate AcquiredOnce(op: Operation) {
    && op.terminal == Succeeded && op.failedAcquisitions == 0 && |op.acquisitions| == 1 && op.terminalAt.Some?
    && op.startedAt <= op.acquisitions[0].startedAt
    && op.acquisitions[0].startedAt <= op.acquisitions[0].acquiredAt
    && op.acquisitions[0].acquiredAt <= op.terminalAt.value
  }

  /** Operation `first` has ordinal 1, operation `second` ordinal 2, and both acquired once. */
  predicate InTurn(operations: seq<Operation>, first: int, second: int) {
    && |operations| == 2 && 0 <= first < 2 && second == 1 - first
    && operations[first].role != operations[second].role
    && (operations[first].invocation, operations[second].invocation) in {(0, 1), (1, 0)}
    && AcquiredOnce(operations[first]) && AcquiredOnce(operations[second])
    && operations[first].acquisitions[0].sequence == 1 && operations[second].acquisitions[0].sequence == 2
  }

  /** An order is reported exactly when the two operations acquired in turn, and then it names the
      role of the first. */
  lemma OrderReportedIff(operations: seq<Operation>, order: Order)
    ensures FenceOrder(operations) == Some(order)
            <==> exists first, second ::
                   && InTurn(operations, first, second)
                   && (order == BulkBeforeAcceptance <==> operations[first].role == Bulk)
  {
    if FenceOrder(operations).Some? { ReportedTurn(operations); }
    forall first, second | InTurn(operations, first, second)
      ensures FenceOrder(operations)
              == Some(if operations[first].role == Bulk then BulkBeforeAcceptance else AcceptanceBeforeBulk)
    {
      TurnReported(operations, first, second);
    }
  }

  lemma ReportedTurn(operations: seq<Operation>)
    requires FenceOrder(operations).Some?
    ensures var first := if operations[0].acquisitions[0].sequence == 1 then 0 else 1;
            && InTurn(operations, first, 1 - first)
            && FenceOrder(operations)
               == Some(if operations[first].role == Bulk then BulkBeforeAcceptance else AcceptanceBeforeBulk)
  {
    var a, b := operations[0], operations[1];
    assert a.invocation in {a.invocation, b.invocation} && b.invocation in {a.invocation, b.invocation};
    assert 0 in {a.invocation, b.invocation} && 1 in {a.invocation, b.invocation};
    var m, n := a.acquisitions[0].sequence, b.acquisitions[0].sequence;
    assert m in {m, n} && n in {m, n} && 1 in {m, n} && 2 in {m, n};
  }

  lemma TurnReported(operations: seq<Operation>, first: int, second: int)
    requires InTurn(operations, first, second)
    ensures FenceOrder(operations)
            == Some(if operations[first].role == Bulk then BulkBeforeAcceptance else AcceptanceBeforeBulk)
  {
    var a, b := operations[0], operations[1];
    assert {a.invocation, b.invocation} == {0, 1};
    assert {a.acquisitions[0].sequence, b.acquisitions[0].sequence} == {1, 2};
  }

  ghost predicate RolesDiffer(w: World) {
    forall i, j :: 0 <= i < j < |w.observed.operations| ==> w.observed.operations[i].role != w.observed.operations[j].role
  }

  lemma StepKeepsRoles(w: World, e: Event)
    requires Enabled(w, e) && RolesDiffer(w)
    ensures RolesDiffer(Apply(w, e))
  {
  }

  lemma {:induction false} RolesStayDifferent(events: seq<Event>)
    requires After(events).Some?
    ensures RolesDiffer(After(events).value)
  {
    if events != [] {
      RolesStayDifferent(events[..|events| - 1]);
      StepKeepsRoles(After(events[..|events| - 1]).value, events[|events| - 1]);
    }
  }

  lemma OrdinalsOfTwo(w: World)
    requires Shape(w) && Aligned(w) && |w.tx| == 2 && w.tx[0] == Committed && w.tx[1] == Committed
    ensures (Ordinal(w, 0), Ordinal(w, 1)) in {(1, 2), (2, 1)}
  {
    TwoCommits(w);
    assert CommitAligned(w, 0) && CommitAligned(w, 1);
    assert 0 in w.commits && 1 in w.commits;
  }

  /** Whatever the interleaving, two operations that each acquired once have an order to report. */
  lemma OneAcquisitionEach(events: seq<Event>)
    requires After(events).Some? && |After(events).value.observed.operations| == 2
    ensures var ops := After(events).value.observed.operations;
            FenceOrder(ops).Some? <==> AcquiredOnce(ops[0]) && AcquiredOnce(ops[1])
  {
    var w := After(events).value;
    var ops := w.observed.operations;
    AlwaysInvariant(events);
    SettledAfterCommit(events);
    RolesStayDifferent(events);
    if AcquiredOnce(ops[0]) && AcquiredOnce(ops[1]) {
      BothCommitted(w);
      OrdinalsOfTwo(w);
      var first := if Ordinal(w, 0) == 1 then 0 else 1;
      assert InTurn(ops, first, 1 - first);
      OrderReportedIff(ops, if ops[first].role == Bulk then BulkBeforeAcceptance else AcceptanceBeforeBulk);
    }
  }

  lemma BothCommitted(w: World)
    requires Invariant(w) && SettledCommitted(w) && |w.observed.operations| == 2
    requires AcquiredOnce(w.observed.operations[0]) && AcquiredOnce(w.observed.operations[1])
    ensures Aligned(w) && |w.tx| == 2 && w.tx[0] == Committed && w.tx[1] == Committed
    ensures w.observed.operations[0].invocation == 0 && w.observed.operations[1].invocation == 1
  {
    assert SlotShape(0, w.tx[0], w.observed.operations[0]) && SlotShape(1, w.tx[1], w.observed.operations[1]);
    assert Clean(w);
  }
}
