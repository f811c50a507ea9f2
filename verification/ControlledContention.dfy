/** The controlled lock contention of scripts/scheduling-profile/controlled-contention.ts:
    request transactions that take the period lock and then the room lock, and a controller
    that holds the room lock until it has observed a leader and a follower. Locks are granted
    in any order; no queue discipline is assumed. */
module ControlledContention {
  import opened MapSums
  import opened Ordering
  import opened Wrappers

  datatype Error = HolderLost | AmbiguousFirst | FirstChanged | AmbiguousSecond | TooClose

  datatype Key = Period | Room

  /** A row of the lock table; `exclusive` is `mode === "ExclusiveLock"`. */
  datatype LockRow = LockRow(
    pid: nat, key: Key, granted: bool, exclusive: bool, blockers: seq<nat>, xactStart: int, observedAt: int)

  datatype Chain = Chain(leader: LockRow, follower: Option<LockRow>)

  // ----- inspection -----

  predicate Held(rows: seq<LockRow>, pid: nat, key: Key) {
    exists i :: 0 <= i < |rows| && rows[i].pid == pid && rows[i].key == key && rows[i].granted && rows[i].exclusive
  }

  predicate Leads(rows: seq<LockRow>, holder: nat, row: LockRow) {
    row.pid != holder && row.key == Room && !row.granted && row.exclusive && holder in row.blockers && Held(rows, row.pid, Period)
  }

  predicate Follows(holder: nat, leader: nat, row: LockRow) {
    row.pid != holder && row.pid != leader && row.key == Period && !row.granted && row.exclusive && leader in row.blockers
  }

  /** `inspectControlledChain`. */
  function Inspect(rows: seq<LockRow>, holder: nat, firstPid: Option<nat>): Result<Option<Chain>, Error> {
    if !Held(rows, holder, Room) then Failure(HolderLost)
    else
      var leaders := Keep(rows, row => Leads(rows, holder, row));
      if |leaders| > 1 then Failure(AmbiguousFirst)
      else if leaders == [] then Success(None)
      else
        var leader := leaders[0];
        if firstPid.Some? && leader.pid != firstPid.value then Failure(FirstChanged)
        else
          var followers := Keep(rows, row => Follows(holder, leader.pid, row));
          if |followers| > 1 then Failure(AmbiguousSecond)
          else if followers == [] then Success(Some(Chain(leader, None)))
          else if followers[0].xactStart - leader.xactStart < 3 then Failure(TooClose)
          else Success(Some(Chain(leader, Some(followers[0]))))
  }

  // ----- the system -----

  /** Where a request transaction is. */
  datatype Phase = NotStarted | WaitsPeriod | InPeriod | WaitsRoom | InBoth | Ended(succeeded: bool)

  predicate HoldsPeriod(p: Phase) { p == InPeriod || p == WaitsRoom || p == InBoth }

  predicate HoldsRoom(p: Phase) { p == InBoth }

  /** Where the controller is; the `finally` block starts at `RollingBack`. */
  datatype Control =
    | Connecting | Beginning | Locking | AwaitingFirst | AwaitingSecond | Committing | Draining
    | RollingBack | ClosingHolder | ClosingObserver | FinalDrain | Finished

  datatype System = System(
    requests: map<nat, Phase>,
    holder: nat,
    control: Control,
    holderOpen: bool,
    roomHeld: bool,           // the controller's session holds the room lock
    rollbackFailed: bool,
    closeFailed: bool,
    launched: set<nat>,
    firstPid: Option<nat>,
    secondPid: Option<nat>)

  predicate Initial(s: System) {
    && (forall p :: p in s.requests ==> s.requests[p] == NotStarted)
    && s.holder !in s.requests
    && s.control == Connecting && !s.holderOpen && !s.roomHeld && !s.rollbackFailed && !s.closeFailed
    && s.launched == {} && s.firstPid == None && s.secondPid == None
  }

  ghost predicate PeriodFree(s: System) {
    forall p :: p in s.requests ==> !HoldsPeriod(s.requests[p])
  }

  ghost predicate RoomFree(s: System) {
    !s.roomHeld && forall p :: p in s.requests ==> !HoldsRoom(s.requests[p])
  }

  /** One step of request `p` that does not abort it. */
  ghost predicate Advances(s: System, p: nat, next: Phase) {
    && p in s.requests && p in s.launched
    && match s.requests[p]
       case NotStarted => next == WaitsPeriod
       case WaitsPeriod => next == InPeriod && PeriodFree(s)
       case InPeriod => next == WaitsRoom
       case WaitsRoom => next == InBoth && RoomFree(s)
       case InBoth => next == Ended(true)
       case Ended(_) => false
  }

  /** A transaction can fail at any point, which releases its locks. */
  ghost predicate Aborts(s: System, p: nat, next: Phase) {
    p in s.requests && p in s.launched && !s.requests[p].Ended? && next == Ended(false)
  }

  ghost predicate RequestStep(s: System, t: System) {
    exists p, next :: (Advances(s, p, next) || Aborts(s, p, next)) && t == s.(requests := s.requests[p := next])
  }

  /** Rows only state what is so: a granted row is held, a waiting row waits. */
  ghost predicate Observes(rows: seq<LockRow>, s: System) {
    forall row :: row in rows && row.exclusive ==>
      if row.granted then
        if row.pid == s.holder then row.key == Room && s.roomHeld
        else row.pid in s.requests
             && (if row.key == Period then HoldsPeriod(s.requests[row.pid]) else HoldsRoom(s.requests[row.pid]))
      else row.pid in s.requests && s.requests[row.pid] == (if row.key == Period then WaitsPeriod else WaitsRoom)
  }

  /** The jump to the `finally` block: a failed statement may or may not have taken effect. */
  ghost predicate Fails(s: System, t: System) {
    && s.control in {Connecting, Beginning, Locking, AwaitingFirst, AwaitingSecond, Committing}
    && t == s.(control := if s.holderOpen then RollingBack else ClosingHolder, roomHeld := t.roomHeld)
    && (t.roomHeld && !s.roomHeld ==> s.control == Locking && RoomFree(s))
    && (s.roomHeld && !t.roomHeld ==> s.control == Committing)
  }

  ghost predicate Launches(s: System, t: System, control: Control) {
    exists p :: p in s.requests && p !in s.launched && t == s.(control := control, launched := s.launched + {p})
  }

  /** Opening the controller's transaction and taking the room lock. */
  ghost predicate OpeningStep(s: System, t: System) {
    || (s.control == Connecting && t == s.(control := Beginning))
    || (s.control == Beginning && t == s.(control := Locking, holderOpen := true))
    || (s.control == Locking && RoomFree(s) && Launches(s.(roomHeld := true), t, AwaitingFirst))
  }

  /** The commit, and the `finally` block: roll back, close both connections, drain. */
  ghost predicate ClosingStep(s: System, t: System) {
    || (s.control == Committing && t == s.(control := Draining, roomHeld := false, holderOpen := false))
    // the hold lasted too long: nothing is left to roll back
    || (s.control == Committing && t == s.(control := ClosingHolder, roomHeld := false, holderOpen := false))
    || (s.control == Draining && AllEnded(s) && t == s.(control := ClosingHolder))
    || (s.control == RollingBack && t == s.(control := ClosingHolder, roomHeld := false))
    || (s.control == RollingBack && t == s.(control := ClosingHolder, rollbackFailed := true))
    || (s.control == ClosingHolder && t == s.(control := ClosingObserver, roomHeld := false))
    || (s.control == ClosingHolder && t == s.(control := ClosingObserver, closeFailed := true))
    || (s.control == ClosingObserver && t == s.(control := FinalDrain))
    || (s.control == FinalDrain && AllEnded(s) && t == s.(control := Finished))
  }

  /** The server may end the controller's session, which releases its lock. */
  ghost predicate SessionLost(s: System, t: System) {
    s.roomHeld && t == s.(roomHeld := false)
  }

  /** One step of the controller. */
  ghost predicate ControlStep(s: System, t: System) {
    Fails(s, t) || OpeningStep(s, t) || ProvesFirst(s, t) || ProvesSecond(s, t) || ClosingStep(s, t) || SessionLost(s, t)
  }

  ghost predicate ProvesFirst(s: System, t: System) {
    && s.control == AwaitingFirst
    && exists rows: seq<LockRow>, chain: Chain, u: System ::
         && Observes(rows, s) && Inspect(rows, s.holder, None) == Success(Some(chain))
         && chain.leader.observedAt - chain.leader.xactStart >= 3
         && u == s.(firstPid := Some(chain.leader.pid))
         && Launches(u, t, AwaitingSecond)
  }

  ghost predicate ProvesSecond(s: System, t: System) {
    && s.control == AwaitingSecond
    && exists rows: seq<LockRow>, chain: Chain ::
         && Observes(rows, s) && Inspect(rows, s.holder, s.firstPid) == Success(Some(chain))
         && chain.follower.Some?
         && t == s.(control := Committing, secondPid := Some(chain.follower.value.pid))
  }

  ghost predicate AllEnded(s: System) {
    forall p :: p in s.requests && p in s.launched ==> s.requests[p].Ended?
  }

  ghost predicate Step(s: System, t: System) {
    RequestStep(s, t) || ControlStep(s, t)
  }

  ghost predicate Run(states: seq<System>) {
    && states != []
    && forall i :: 0 <= i < |states| - 1 ==> StepAt(states, i)
  }

  ghost predicate StepAt(states: seq<System>, i: nat)
    requires i < |states| - 1
  {
    Step(states[i], states[i + 1])
  }

  // ----- what every step keeps -----

  ghost predicate Invariant(s: System) {
    && s.holder !in s.requests
    && (forall p, q :: p in s.requests && q in s.requests && HoldsPeriod(s.requests[p]) && HoldsPeriod(s.requests[q]) ==> p == q)
    && (s.roomHeld ==> forall p :: p in s.requests ==> !HoldsRoom(s.requests[p]))
    && (forall p :: p in s.requests && p !in s.launched ==> s.requests[p] == NotStarted)
    && (s.holderOpen ==> s.control !in {Connecting, Beginning, Draining})
    && (s.control in {Connecting, Beginning} ==> !s.roomHeld)
    // before the finally block a held lock belongs to an open transaction
    && (s.roomHeld && s.control in {Locking, AwaitingFirst, AwaitingSecond, Committing, RollingBack} ==> s.holderOpen)
    && (s.roomHeld && s.control == ClosingHolder ==> s.rollbackFailed)
    && (s.roomHeld && s.control in {Draining, ClosingObserver, FinalDrain, Finished} ==> s.rollbackFailed && s.closeFailed)
    && (s.control in {Connecting, Beginning, Locking, AwaitingFirst, AwaitingSecond, Committing, Draining} ==>
          !s.rollbackFailed && !s.closeFailed)
    && (s.control == Locking ==> s.holderOpen)
    && (s.control in {AwaitingFirst, AwaitingSecond, Committing} ==> s.holderOpen)
  }

  lemma InitialInvariant(s: System)
    requires Initial(s)
    ensures Invariant(s)
  {
  }

  lemma RequestStepKeeps(s: System, t: System)
    requires Invariant(s) && RequestStep(s, t)
    ensures Invariant(t)
  {
  }

  lemma OpeningKeeps(s: System, t: System)
    requires Invariant(s) && (OpeningStep(s, t) || ProvesFirst(s, t) || ProvesSecond(s, t))
    ensures Invariant(t)
  {
  }

  lemma ClosingKeeps(s: System, t: System)
    requires Invariant(s) && ClosingStep(s, t)
    ensures Invariant(t)
  {
  }

  lemma FailureKeeps(s: System, t: System)
    requires Invariant(s) && (Fails(s, t) || SessionLost(s, t))
    ensures Invariant(t)
  {
  }

  lemma ControlStepKeeps(s: System, t: System)
    requires Invariant(s) && ControlStep(s, t)
    ensures Invariant(t)
  {
    if OpeningStep(s, t) || ProvesFirst(s, t) || ProvesSecond(s, t) {
      OpeningKeeps(s, t);
    } else if ClosingStep(s, t) {
      ClosingKeeps(s, t);
    } else {
      FailureKeeps(s, t);
    }
  }

  lemma {:induction false} RunInvariant(states: seq<System>, i: nat)
    requires Run(states) && Initial(states[0]) && i < |states|
    ensures Invariant(states[i])
  {
    if i == 0 {
      InitialInvariant(states[0]);
    } else {
      RunInvariant(states, i - 1);
      RunStep(states, i - 1);
      StepKeeps(states[i - 1], states[i]);
    }
  }

  lemma StepKeeps(s: System, t: System)
    requires Invariant(s) && Step(s, t)
    ensures Invariant(t)
  {
    if RequestStep(s, t) { RequestStepKeeps(s, t); } else { ControlStepKeeps(s, t); }
  }

  // ----- what an inspected chain means -----

  /** A successful inspection of a truthful lock table names a request that holds the period lock
      while it waits for the controller's room lock, and a different one waiting for the period. */
  lemma InspectSound(rows: seq<LockRow>, s: System, firstPid: Option<nat>)
    requires Observes(rows, s)
    requires Inspect(rows, s.holder, firstPid).Success? && Inspect(rows, s.holder, firstPid).value.Some?
    ensures var chain := Inspect(rows, s.holder, firstPid).value.value;
            && s.roomHeld
            && chain.leader.pid in s.requests && s.requests[chain.leader.pid] == WaitsRoom
            && (firstPid.Some? ==> chain.leader.pid == firstPid.value)
            && (chain.follower.Some? ==>
                  var follower := chain.follower.value;
                  && follower.pid in s.requests && s.requests[follower.pid] == WaitsPeriod
                  && follower.pid != chain.leader.pid
                  && follower.xactStart - chain.leader.xactStart >= 3)
  {
    var chain := Inspect(rows, s.holder, firstPid).value.value;
    var leaders := Keep(rows, row => Leads(rows, s.holder, row));
    assert chain.leader in leaders;
    var i :| 0 <= i < |rows| && rows[i].pid == s.holder && rows[i].key == Room && rows[i].granted && rows[i].exclusive;
    assert rows[i] in rows;
    if chain.follower.Some? {
      var followers := Keep(rows, row => Follows(s.holder, chain.leader.pid, row));
      assert chain.follower.value in followers;
    }
  }

  /** Mutual exclusion of the period lock leaves no room for two leaders: the ambiguity check
      only fires on a table that repeats a row. */
  lemma LeaderUnambiguous(rows: seq<LockRow>, s: System, firstPid: Option<nat>)
    requires Observes(rows, s) && Invariant(s)
    requires forall i, j :: 0 <= i < j < |rows| ==> rows[i].pid != rows[j].pid || rows[i].key != rows[j].key
    ensures Inspect(rows, s.holder, firstPid) != Failure(AmbiguousFirst)
  {
    var keep := row => Leads(rows, s.holder, row);
    var leaders := Keep(rows, keep);
    if |leaders| > 1 {
      var i, j := KeepTwo(rows, keep);
    }
  }

  lemma {:induction false} KeepTwo(rows: seq<LockRow>, keep: LockRow -> bool) returns (i: nat, j: nat)
    requires |Keep(rows, keep)| > 1
    ensures i < j < |rows| && keep(rows[i]) && keep(rows[j])
  {
    if keep(rows[0]) {
      var rest := Keep(rows[1..], keep);
      assert rest[0] in rest;
      assert rest[0] in rows[1..];
      var k :| 0 <= k < |rows[1..]| && rows[1..][k] == rest[0];
      i, j := 0, k + 1;
    } else {
      i, j := KeepTwo(rows[1..], keep);
      i, j := i + 1, j + 1;
    }
  }

  // ----- the leader finishes before the follower starts -----

  /** From a chain on, the follower has no period lock until the leader has ended. */
  ghost predicate Chained(s: System, leader: nat, follower: nat) {
    && leader in s.requests && follower in s.requests && leader != follower
    && (HoldsPeriod(s.requests[leader]) || s.requests[leader].Ended?)
    && (HoldsPeriod(s.requests[leader]) ==> !HoldsPeriod(s.requests[follower]))
  }

  lemma ChainedStep(s: System, t: System, leader: nat, follower: nat)
    requires Invariant(s) && Step(s, t) && Chained(s, leader, follower)
    ensures Chained(t, leader, follower)
    ensures s.requests[leader].Ended? ==> t.requests[leader].Ended?
    ensures !HoldsPeriod(s.requests[follower]) && HoldsPeriod(t.requests[follower]) ==> s.requests[leader].Ended?
  {
    if RequestStep(s, t) {
      var p, next :| (Advances(s, p, next) || Aborts(s, p, next)) && t == s.(requests := s.requests[p := next]);
    } else {
      ControlKeepsRequests(s, t);
    }
  }

  lemma ClosingKeepsRequests(s: System, t: System)
    requires ClosingStep(s, t) || Fails(s, t) || SessionLost(s, t)
    ensures t.requests == s.requests
  {
  }

  lemma ControlKeepsRequests(s: System, t: System)
    requires ControlStep(s, t)
    ensures t.requests == s.requests
  {
    if !(OpeningStep(s, t) || ProvesFirst(s, t) || ProvesSecond(s, t)) { ClosingKeepsRequests(s, t); }
  }

  lemma ChainedAt(states: seq<System>, j: nat, leader: nat, follower: nat)
    requires Run(states) && Initial(states[0]) && j < |states| - 1 && Chained(states[j], leader, follower)
    ensures Chained(states[j + 1], leader, follower)
    ensures !HoldsPeriod(states[j].requests[follower]) && HoldsPeriod(states[j + 1].requests[follower]) ==>
              states[j].requests[leader].Ended?
  {
    RunInvariant(states, j);
    RunStep(states, j);
    ChainedStep(states[j], states[j + 1], leader, follower);
  }

  /** The chain from state `i` on: the leader has ended before any grant to the follower. */
  ghost predicate EndsFirst(states: seq<System>, i: nat, j: nat, k: nat, leader: nat, follower: nat)
    requires i <= j < |states|
  {
    && Chained(states[j], leader, follower)
    && (HoldsPeriod(states[j].requests[follower]) ==>
          && i <= k < j && Chained(states[k], leader, follower)
          && states[k].requests[leader].Ended? && !HoldsPeriod(states[k].requests[follower]))
  }

  lemma EndsFirstStep(states: seq<System>, i: nat, j: nat, k: nat, leader: nat, follower: nat) returns (k': nat)
    requires i <= j < |states| - 1 && EndsFirst(states, i, j, k, leader, follower)
    requires Run(states) && Initial(states[0])
    ensures EndsFirst(states, i, j + 1, k', leader, follower)
  {
    ChainedAt(states, j, leader, follower);
    k' := if HoldsPeriod(states[j].requests[follower]) then k else j;
  }

  lemma {:induction false} ChainedRun(states: seq<System>, i: nat, j: nat, leader: nat, follower: nat) returns (k: nat)
    requires Run(states) && Initial(states[0]) && i <= j < |states|
    requires Chained(states[i], leader, follower) && !HoldsPeriod(states[i].requests[follower])
    ensures EndsFirst(states, i, j, k, leader, follower)
  {
    k := i;
    if i < j {
      k := ChainedRun(states, i, j - 1, leader, follower);
      k := EndsFirstStep(states, i, j - 1, k, leader, follower);
    }
  }

  lemma RunStep(states: seq<System>, i: nat)
    requires Run(states) && i < |states| - 1
    ensures Step(states[i], states[i + 1])
  {
    assert StepAt(states, i);
  }

  /** The second proof starts with the follower behind the leader. */
  lemma SecondProofChains(s: System, t: System)
    requires ProvesSecond(s, t) && FirstKnown(s)
    ensures t.firstPid.Some? && t.secondPid.Some?
    ensures Chained(t, t.firstPid.value, t.secondPid.value) && !HoldsPeriod(t.requests[t.secondPid.value])
  {
    var rows: seq<LockRow>, chain: Chain :|
      && Observes(rows, s) && Inspect(rows, s.holder, s.firstPid) == Success(Some(chain))
      && chain.follower.Some?
      && t == s.(control := Committing, secondPid := Some(chain.follower.value.pid));
    InspectSound(rows, s, s.firstPid);
  }

  /** Once the controller has proved its chain, in every continuation the leader's transaction
      ends before the follower is granted the period lock. */
  lemma LeaderEndsFirst(states: seq<System>, i: nat, j: nat) returns (k: nat)
    requires Run(states) && Initial(states[0]) && i < j < |states|
    requires ProvesSecond(states[i], states[i + 1])
    ensures states[i + 1].firstPid.Some? && states[i + 1].secondPid.Some?
    ensures var leader, follower := states[i + 1].firstPid.value, states[i + 1].secondPid.value;
            && leader in states[j].requests && follower in states[j].requests && leader != follower
            && (HoldsPeriod(states[j].requests[follower]) ==>
                  && i < k < j
                  && leader in states[k].requests && states[k].requests[leader].Ended?
                  && follower in states[k].requests && !HoldsPeriod(states[k].requests[follower]))
  {
    var s, t := states[i], states[i + 1];
    FirstPidRecorded(states, i);
    SecondProofChains(s, t);
    k := ChainedRun(states, i + 1, j, t.firstPid.value, t.secondPid.value);
  }

  ghost predicate FirstKnown(s: System) {
    s.control in {AwaitingSecond, Committing, Draining} ==> s.firstPid.Some?
  }

  lemma FirstKnownStep(s: System, t: System)
    requires Step(s, t) && FirstKnown(s)
    ensures FirstKnown(t)
  {
    if RequestStep(s, t) {
      assert t.control == s.control && t.firstPid == s.firstPid;
    } else if OpeningStep(s, t) || ProvesFirst(s, t) || ProvesSecond(s, t) {
      FirstKnownOpening(s, t);
    } else {
      FirstKnownClosing(s, t);
    }
  }

  lemma FirstKnownClosing(s: System, t: System)
    requires (Fails(s, t) || ClosingStep(s, t) || SessionLost(s, t)) && FirstKnown(s)
    ensures FirstKnown(t)
  {
  }

  lemma FirstKnownOpening(s: System, t: System)
    requires (OpeningStep(s, t) || ProvesFirst(s, t) || ProvesSecond(s, t)) && FirstKnown(s)
    ensures FirstKnown(t)
  {
  }

  /** The second phase of the observation always knows the first request. */
  lemma {:induction false} FirstPidRecorded(states: seq<System>, i: nat)
    requires Run(states) && Initial(states[0]) && i < |states|
    ensures FirstKnown(states[i])
  {
    if i > 0 {
      FirstPidRecorded(states, i - 1);
      RunStep(states, i - 1);
      FirstKnownStep(states[i - 1], states[i]);
    }
  }

  // ----- the controller releases before it waits -----

  /** Whenever the controller waits for the requests to drain, its own lock is gone, unless both
      the rollback and the closing of its connection failed. */
  lemma ReleasedBeforeDraining(states: seq<System>, i: nat)
    requires Run(states) && Initial(states[0]) && i < |states|
    requires states[i].control in {Draining, FinalDrain}
    ensures states[i].roomHeld ==> states[i].control == FinalDrain && states[i].rollbackFailed && states[i].closeFailed
  {
    RunInvariant(states, i);
  }

  lemma Extend(states: seq<System>, t: System) returns (longer: seq<System>)
    requires Run(states) && Step(states[|states| - 1], t)
    ensures Run(longer) && longer[0] == states[0] && |longer| == |states| + 1
    ensures longer[|longer| - 2] == states[|states| - 1] && longer[|longer| - 1] == t
  {
    longer := states + [t];
    forall i | 0 <= i < |longer| - 1 ensures StepAt(longer, i) {
      if i < |states| - 1 {
        assert StepAt(states, i);
        assert longer[i] == states[i] && longer[i + 1] == states[i + 1];
      }
    }
  }

  /** The controller holds the room lock and has launched request 1. */
  lemma HoldingRun(requests: map<nat, Phase>) returns (states: seq<System>)
    requires 1 in requests && 0 !in requests && forall p :: p in requests ==> requests[p] == NotStarted
    ensures Run(states) && Initial(states[0])
    ensures states[|states| - 1] == System(requests, 0, AwaitingFirst, true, true, false, false, {1}, None, None)
  {
    var s0 := System(requests, 0, Connecting, false, false, false, false, {}, None, None);
    states := [s0];
    states := Extend(states, s0.(control := Beginning));
    states := Extend(states, s0.(control := Locking, holderOpen := true));
    var s2 := states[|states| - 1];
    var s3 := s2.(control := AwaitingFirst, roomHeld := true, launched := {1});
    assert s3.launched == {} + {1};
    assert Launches(s2.(roomHeld := true), s3, AwaitingFirst);
    states := Extend(states, s3);
  }

  /** And request 1 waits for it. */
  lemma BlockedRun(requests: map<nat, Phase>) returns (states: seq<System>)
    requires requests.Keys == {1} || requests.Keys == {1, 2}
    requires forall p :: p in requests ==> requests[p] == NotStarted
    ensures Run(states) && Initial(states[0])
    ensures states[|states| - 1]
            == System(requests[1 := WaitsRoom], 0, AwaitingFirst, true, true, false, false, {1}, None, None)
  {
    states := HoldingRun(requests);
    states := Moved(states, 1, WaitsPeriod);
    states := Moved(states, 1, InPeriod);
    states := Moved(states, 1, WaitsRoom);
    assert requests[1 := WaitsPeriod][1 := InPeriod][1 := WaitsRoom] == requests[1 := WaitsRoom];
  }

  lemma Moved(states: seq<System>, p: nat, next: Phase) returns (longer: seq<System>)
    requires Run(states) && Advances(states[|states| - 1], p, next)
    ensures Run(longer) && longer[0] == states[0]
    ensures var s := states[|states| - 1]; longer[|longer| - 1] == s.(requests := s.requests[p := next])
  {
    var s := states[|states| - 1];
    longer := Extend(states, s.(requests := s.requests[p := next]));
  }

  /** That case is real: a launched request can be left waiting for a lock that the controller's
      failed cleanup still holds, and nothing but the server or an abort can move it. */
  lemma CleanupCanFail() returns (states: seq<System>)
    ensures Run(states) && Initial(states[0])
    ensures var s := states[|states| - 1];
            && s.control == FinalDrain && s.roomHeld && s.rollbackFailed && s.closeFailed && !AllEnded(s)
            && forall p, next :: !Advances(s, p, next)
  {
    states := BlockedRun(map[1 := NotStarted]);
    var s := states[|states| - 1];
    assert Fails(s, s.(control := RollingBack));
    states := Extend(states, s.(control := RollingBack));
    states := FailedCleanup(states);
    assert states[|states| - 1].requests[1] == WaitsRoom;
  }

  lemma FailedCleanup(states: seq<System>) returns (longer: seq<System>)
    requires Run(states) && states[|states| - 1].control == RollingBack
    ensures Run(longer) && longer[0] == states[0]
    ensures longer[|longer| - 1] == states[|states| - 1].(control := FinalDrain, rollbackFailed := true, closeFailed := true)
  {
    var s := states[|states| - 1];
    longer := Extend(states, s.(control := ClosingHolder, rollbackFailed := true));
    longer := Extend(longer, s.(control := ClosingObserver, rollbackFailed := true, closeFailed := true));
    longer := Extend(longer, s.(control := FinalDrain, rollbackFailed := true, closeFailed := true));
  }

  /** A run that waits for the requests while it still holds the room, with these failures. */
  ghost predicate DrainsHolding(states: seq<System>, rollbackFailed: bool, closeFailed: bool) {
    && Run(states) && Initial(states[0])
    && var s := states[|states| - 1];
       && s.control in {Draining, FinalDrain} && s.roomHeld
       && s.rollbackFailed == rollbackFailed && s.closeFailed == closeFailed
  }

  /** The controller can wait for the requests while it holds the room exactly if both its rollback
      and the closing of its connection have failed. */
  lemma HeldWhileDrainingIff(rollbackFailed: bool, closeFailed: bool)
    ensures (exists states :: DrainsHolding(states, rollbackFailed, closeFailed)) <==> rollbackFailed && closeFailed
  {
    if rollbackFailed && closeFailed {
      var states := CleanupCanFail();
      assert DrainsHolding(states, true, true);
    }
    forall states | DrainsHolding(states, rollbackFailed, closeFailed) ensures rollbackFailed && closeFailed {
      ReleasedBeforeDraining(states, |states| - 1);
    }
  }

  // ----- a run that proves its chain -----

  lemma {:induction false} FilterNone(rows: seq<LockRow>, keep: LockRow -> bool)
    requires forall i :: 0 <= i < |rows| ==> !keep(rows[i])
    ensures Keep(rows, keep) == []
  {
    if rows != [] { FilterNone(rows[1..], keep); }
  }

  lemma {:induction false} FilterOnly(rows: seq<LockRow>, keep: LockRow -> bool, k: nat)
    requires k < |rows| && forall i :: 0 <= i < |rows| ==> (keep(rows[i]) <==> i == k)
    ensures Keep(rows, keep) == [rows[k]]
  {
    if k == 0 { FilterNone(rows[1..], keep); } else { FilterOnly(rows[1..], keep, k - 1); }
  }

  const HOLDER_ROW := LockRow(0, Room, true, true, [], 0, 3)
  const LEADER_HOLDS := LockRow(1, Period, true, true, [], 0, 3)
  const LEADER_WAITS := LockRow(1, Room, false, true, [0], 0, 3)
  const FOLLOWER_WAITS := LockRow(2, Period, false, true, [1], 3, 6)

  /** The rows of a proved chain, without and with the follower. */
  function ChainRows(followed: bool): seq<LockRow> {
    [HOLDER_ROW, LEADER_HOLDS, LEADER_WAITS] + if followed then [FOLLOWER_WAITS] else []
  }

  lemma InspectChain(followed: bool, firstPid: Option<nat>)
    requires firstPid == None || firstPid == Some(1)
    ensures Inspect(ChainRows(followed), 0, firstPid)
            == Success(Some(Chain(LEADER_WAITS, if followed then Some(FOLLOWER_WAITS) else None)))
  {
    var rows := ChainRows(followed);
    assert rows[0] == HOLDER_ROW && rows[1] == LEADER_HOLDS && rows[2] == LEADER_WAITS;
    assert Held(rows, 0, Room) && Held(rows, 1, Period);
    FilterOnly(rows, row => Leads(rows, 0, row), 2);
    if followed {
      assert rows[3] == FOLLOWER_WAITS;
      FilterOnly(rows, row => Follows(0, 1, row), 3);
    } else {
      FilterNone(rows, row => Follows(0, 1, row));
    }
  }

  lemma ChainObserved(followed: bool, s: System)
    requires s.holder == 0 && s.roomHeld && 1 in s.requests && s.requests[1] == WaitsRoom
    requires followed ==> 2 in s.requests && s.requests[2] == WaitsPeriod
    ensures Observes(ChainRows(followed), s)
  {
  }

  lemma FirstShown(s: System, t: System, rows: seq<LockRow>, chain: Chain)
    requires s.control == AwaitingFirst && Observes(rows, s) && Inspect(rows, s.holder, None) == Success(Some(chain))
    requires chain.leader.observedAt - chain.leader.xactStart >= 3
    requires Launches(s.(firstPid := Some(chain.leader.pid)), t, AwaitingSecond)
    ensures ProvesFirst(s, t)
  {
  }

  lemma SecondShown(s: System, t: System, rows: seq<LockRow>, chain: Chain)
    requires s.control == AwaitingSecond && Observes(rows, s)
             && Inspect(rows, s.holder, s.firstPid) == Success(Some(chain))
    requires chain.follower.Some? && t == s.(control := Committing, secondPid := Some(chain.follower.value.pid))
    ensures ProvesSecond(s, t)
  {
  }

  lemma SecondLaunched(s: System, t: System)
    requires 2 in s.requests && s.launched == {1} && t == s.(control := AwaitingSecond, launched := {1, 2})
    ensures Launches(s, t, AwaitingSecond)
  {
    assert {1, 2} == {1} + {2};
  }

  const TWO_REQUESTS: map<nat, Phase> := map[1 := NotStarted, 2 := NotStarted]
  const ONE_WAITS: map<nat, Phase> := map[1 := WaitsRoom, 2 := NotStarted]

  /** Chains are proved in real runs. */
  lemma ChainCanBeProved() returns (states: seq<System>)
    ensures Run(states) && Initial(states[0]) && |states| >= 2
    ensures ProvesSecond(states[|states| - 2], states[|states| - 1])
  {
    assert TWO_REQUESTS.Keys == {1, 2} && TWO_REQUESTS[1 := WaitsRoom] == ONE_WAITS;
    states := BlockedRun(TWO_REQUESTS);
    states := LeaderProved(states, states[|states| - 1]);
    states := FollowerProved(states, states[|states| - 1]);
  }

  lemma LeaderStep(s: System, t: System)
    requires s.control == AwaitingFirst && s.holder == 0 && s.roomHeld && s.requests == ONE_WAITS && s.launched == {1}
    requires t == s.(firstPid := Some(1), control := AwaitingSecond, launched := {1, 2})
    ensures Step(s, t)
  {
    InspectChain(false, None);
    ChainObserved(false, s);
    SecondLaunched(s.(firstPid := Some(1)), t);
    FirstShown(s, t, ChainRows(false), Chain(LEADER_WAITS, None));
    assert ControlStep(s, t);
  }

  lemma LeaderProved(states: seq<System>, s: System) returns (longer: seq<System>)
    requires Run(states) && states[|states| - 1] == s && s.control == AwaitingFirst
    requires s.holder == 0 && s.roomHeld && s.requests == ONE_WAITS && s.launched == {1}
    ensures Run(longer) && longer[0] == states[0]
    ensures longer[|longer| - 1] == s.(firstPid := Some(1), control := AwaitingSecond, launched := {1, 2})
  {
    var t := s.(firstPid := Some(1), control := AwaitingSecond, launched := {1, 2});
    LeaderStep(s, t);
    longer := Extend(states, t);
  }

  lemma FollowerProved(states: seq<System>, s: System) returns (longer: seq<System>)
    requires Run(states) && states[|states| - 1] == s && s.control == AwaitingSecond && s.firstPid == Some(1)
    requires s.holder == 0 && s.roomHeld && s.requests == ONE_WAITS && 2 in s.launched
    ensures Run(longer) && longer[0] == states[0] && |longer| >= 2
    ensures ProvesSecond(longer[|longer| - 2], longer[|longer| - 1])
  {
    longer := Moved(states, 2, WaitsPeriod);
    var u := longer[|longer| - 1];
    InspectChain(true, Some(1));
    ChainObserved(true, u);
    SecondShown(u, u.(control := Committing, secondPid := Some(2)), ChainRows(true), Chain(LEADER_WAITS, Some(FOLLOWER_WAITS)));
    longer := Extend(longer, u.(control := Committing, secondPid := Some(2)));
  }

  // ----- progress -----

  function Remaining(p: Phase): nat {
    match p
    case NotStarted => 5
    case WaitsPeriod => 4
    case InPeriod => 3
    case WaitsRoom => 2
    case InBoth => 1
    case Ended(_) => 0
  }

  /** With the room released, some unfinished request can always advance: there is no deadlock. */
  lemma NoDeadlock(s: System)
    requires Invariant(s) && !s.roomHeld && !AllEnded(s)
    ensures exists p, next :: Advances(s, p, next)
  {
    var p :| p in s.requests && p in s.launched && !s.requests[p].Ended?;
    if q :| q in s.requests && HoldsRoom(s.requests[q]) {
      assert Advances(s, q, Ended(true));
    } else if q :| q in s.requests && HoldsPeriod(s.requests[q]) {
      if s.requests[q] == InPeriod {
        assert Advances(s, q, WaitsRoom);
      } else {
        assert RoomFree(s);
        assert Advances(s, q, InBoth);
      }
    } else {
      assert PeriodFree(s);
      assert Advances(s, p, if s.requests[p] == NotStarted then WaitsPeriod else InPeriod);
    }
  }

  /** While the controller holds the room, no request gets past waiting for it. */
  lemma HeldRoomBlocks(s: System, p: nat, next: Phase)
    requires Invariant(s) && s.roomHeld && Advances(s, p, next)
    ensures next in {WaitsPeriod, InPeriod, WaitsRoom}
  {
  }

  function Steps(requests: map<nat, Phase>): map<nat, nat> {
    map p | p in requests :: Remaining(requests[p])
  }

  /** How many steps the requests of a state can still take at most. */
  ghost function StepsLeft(s: System): nat {
    Total(Steps(s.requests), s.requests.Keys)
  }

  lemma StepsAfter(requests: map<nat, Phase>, p: nat, next: Phase)
    requires p in requests && Remaining(next) < Remaining(requests[p])
    ensures var after := requests[p := next];
            && after.Keys == requests.Keys
            && Total(Steps(after), after.Keys) < Total(Steps(requests), requests.Keys)
  {
    var after := requests[p := next];
    assert after.Keys == requests.Keys == Steps(requests).Keys == Steps(after).Keys;
    TotalUpdate(Steps(requests), Steps(after), p);
  }

  lemma RequestStepProgress(s: System, t: System)
    requires RequestStep(s, t)
    ensures t.requests.Keys == s.requests.Keys && StepsLeft(t) < StepsLeft(s)
  {
    var p, next :| (Advances(s, p, next) || Aborts(s, p, next)) && t == s.(requests := s.requests[p := next]);
    assert p in s.requests && Remaining(next) < Remaining(s.requests[p]);
    StepsAfter(s.requests, p, next);
  }

  /** Requests can only take finitely many steps. */
  lemma {:induction false} RequestRunsAreBounded(states: seq<System>)
    requires RequestRun(states)
    ensures |states| - 1 + StepsLeft(states[|states| - 1]) <= StepsLeft(states[0])
  {
    if |states| > 1 {
      var n := |states| - 1;
      RequestRunsAreBounded(states[..n]);
      assert states[..n][n - 1] == states[n - 1];
      assert RequestStep(states[n - 1], states[n - 1 + 1]);
      RequestStepProgress(states[n - 1], states[n]);
    }
  }

  ghost predicate RequestRun(states: seq<System>) {
    states != [] && forall i :: 0 <= i < |states| - 1 ==> RequestStep(states[i], states[i + 1])
  }

  ghost predicate CannotGoOn(s: System) {
    forall t :: !RequestStep(s, t)
  }

  lemma {:induction false} ReleasedStays(states: seq<System>, i: nat)
    requires RequestRun(states) && i < |states| && Invariant(states[0]) && !states[0].roomHeld
    ensures Invariant(states[i]) && !states[i].roomHeld
  {
    if i > 0 {
      ReleasedStays(states, i - 1);
      assert RequestStep(states[i - 1], states[i - 1 + 1]);
      RequestStepKeeps(states[i - 1], states[i]);
    }
  }

  /** After the release draining ends: however the requests take turns, a run of theirs that
      cannot go on has ended every launched request. */
  lemma DrainingEnds(states: seq<System>)
    requires RequestRun(states) && Invariant(states[0]) && !states[0].roomHeld
    requires CannotGoOn(states[|states| - 1])
    ensures AllEnded(states[|states| - 1]) && |states| - 1 <= StepsLeft(states[0])
  {
    var s := states[|states| - 1];
    ReleasedStays(states, |states| - 1);
    RequestRunsAreBounded(states);
    if !AllEnded(s) {
      NoDeadlock(s);
      var p, next :| Advances(s, p, next);
      assert RequestStep(s, s.(requests := s.requests[p := next]));
    }
  }
}
