/** What `inspectControlledChain` answers (scripts/scheduling-profile/controlled-contention.ts), told
    by the rows of the lock table alone. */
module ChainInspection {
  import opened ControlledContention
  import opened Ordering
  import opened Wrappers

  // ----- the rows -----

  /** Some row says that the backend holds the lock exclusively. */
  ghost predicate Holding(rows: seq<LockRow>, pid: nat, key: Key) {
    exists i :: 0 <= i < |rows| && rows[i].pid == pid && rows[i].key == key && rows[i].granted && rows[i].exclusive
  }

  predicate WaitingFor(row: LockRow, key: Key, blocker: nat) {
    row.key == key && !row.granted && row.exclusive && blocker in row.blockers
  }

  /** Row `i` waits for the room behind the controller, and its backend holds the period. */
  ghost predicate LeadsAt(rows: seq<LockRow>, holder: nat, i: int) {
    && 0 <= i < |rows| && rows[i].pid != holder && WaitingFor(rows[i], Room, holder)
    && Holding(rows, rows[i].pid, Period)
  }

  /** Row `i` waits for the period behind the leader, and is of neither backend. */
  ghost predicate FollowsAt(rows: seq<LockRow>, holder: nat, leader: nat, i: int) {
    0 <= i < |rows| && rows[i].pid != holder && rows[i].pid != leader && WaitingFor(rows[i], Period, leader)
  }

  ghost predicate OnlyLeader(rows: seq<LockRow>, holder: nat, i: int) {
    LeadsAt(rows, holder, i) && forall j :: LeadsAt(rows, holder, j) ==> j == i
  }

  ghost predicate OnlyFollower(rows: seq<LockRow>, holder: nat, leader: nat, i: int) {
    FollowsAt(rows, holder, leader, i) && forall j :: FollowsAt(rows, holder, leader, j) ==> j == i
  }

  /** Row `i` is the only one that leads, and of the backend that led before, if there was one. */
  ghost predicate Leader(rows: seq<LockRow>, holder: nat, firstPid: Option<nat>, i: int) {
    OnlyLeader(rows, holder, i) && (firstPid == None || firstPid == Some(rows[i].pid))
  }

  // ----- the outcomes -----

  /** When the inspection of the rows has this outcome. */
  ghost predicate Outcome(rows: seq<LockRow>, holder: nat, firstPid: Option<nat>, r: Result<Option<Chain>, Error>) {
    if !Holding(rows, holder, Room) then r == Failure(HolderLost)
    else
      match r
      case Failure(HolderLost) => false
      case Success(None) => forall i :: !LeadsAt(rows, holder, i)
      case Failure(AmbiguousFirst) => exists i, j :: i < j && LeadsAt(rows, holder, i) && LeadsAt(rows, holder, j)
      case Failure(FirstChanged) => exists i :: OnlyLeader(rows, holder, i) && !Leader(rows, holder, firstPid, i)
      case Failure(AmbiguousSecond) =>
        exists i :: Leader(rows, holder, firstPid, i)
                    && exists j, k :: j < k && FollowsAt(rows, holder, rows[i].pid, j)
                                      && FollowsAt(rows, holder, rows[i].pid, k)
      case Failure(TooClose) =>
        exists i, j :: Leader(rows, holder, firstPid, i) && OnlyFollower(rows, holder, rows[i].pid, j)
                       && rows[j].xactStart - rows[i].xactStart < 3
      case Success(Some(Chain(leader, None))) =>
        exists i :: Leader(rows, holder, firstPid, i) && leader == rows[i]
                    && forall j :: !FollowsAt(rows, holder, rows[i].pid, j)
      case Success(Some(Chain(leader, Some(follower)))) =>
        exists i, j :: Leader(rows, holder, firstPid, i) && OnlyFollower(rows, holder, rows[i].pid, j)
                       && leader == rows[i] && follower == rows[j] && follower.xactStart - leader.xactStart >= 3
  }

  // ----- counting what a filter keeps -----

  ghost predicate KeptAt(rows: seq<LockRow>, keep: LockRow -> bool, i: int) {
    0 <= i < |rows| && keep(rows[i])
  }

  lemma NothingKept(rows: seq<LockRow>, keep: LockRow -> bool)
    requires Keep(rows, keep) == []
    ensures forall i :: !KeptAt(rows, keep, i)
  {
    forall i | 0 <= i < |rows| ensures !keep(rows[i]) {
      assert rows[i] in Keep(rows, keep) <==> keep(rows[i]);
    }
  }

  lemma {:induction false} OneKept(rows: seq<LockRow>, keep: LockRow -> bool) returns (i: nat)
    requires |Keep(rows, keep)| == 1
    ensures KeptAt(rows, keep, i) && Keep(rows, keep) == [rows[i]]
    ensures forall j :: KeptAt(rows, keep, j) ==> j == i
  {
    if keep(rows[0]) {
      i := 0;
      NothingKept(rows[1..], keep);
      forall j | j > 0 ensures !KeptAt(rows, keep, j) {
        assert !KeptAt(rows[1..], keep, j - 1);
      }
    } else {
      var k := OneKept(rows[1..], keep);
      i := k + 1;
      forall j | KeptAt(rows, keep, j) ensures j == i {
        if j > 0 { assert KeptAt(rows[1..], keep, j - 1); }
      }
    }
  }

  lemma FollowersAreKept(rows: seq<LockRow>, holder: nat, leader: nat)
    ensures forall i :: FollowsAt(rows, holder, leader, i) <==> KeptAt(rows, row => Follows(holder, leader, row), i)
  {
  }

  lemma LeadersAreKept(rows: seq<LockRow>, holder: nat)
    ensures forall i :: LeadsAt(rows, holder, i) <==> KeptAt(rows, row => Leads(rows, holder, row), i)
  {
  }

  // ----- the inspection has its outcome -----

  lemma NoLeader(rows: seq<LockRow>, holder: nat, firstPid: Option<nat>)
    requires Held(rows, holder, Room) && Keep(rows, row => Leads(rows, holder, row)) == []
    ensures Outcome(rows, holder, firstPid, Inspect(rows, holder, firstPid))
  {
    NothingKept(rows, row => Leads(rows, holder, row));
    LeadersAreKept(rows, holder);
  }

  lemma TwoLeaders(rows: seq<LockRow>, holder: nat, firstPid: Option<nat>)
    requires Held(rows, holder, Room) && |Keep(rows, row => Leads(rows, holder, row))| > 1
    ensures Outcome(rows, holder, firstPid, Inspect(rows, holder, firstPid))
  {
    var i, j := KeepTwo(rows, row => Leads(rows, holder, row));
    LeadersAreKept(rows, holder);
    assert LeadsAt(rows, holder, i) && LeadsAt(rows, holder, j);
  }

  lemma OneLeader(rows: seq<LockRow>, holder: nat, firstPid: Option<nat>)
    requires Held(rows, holder, Room) && |Keep(rows, row => Leads(rows, holder, row))| == 1
    ensures Outcome(rows, holder, firstPid, Inspect(rows, holder, firstPid))
  {
    var i := OneKept(rows, row => Leads(rows, holder, row));
    LeadersAreKept(rows, holder);
    assert OnlyLeader(rows, holder, i);
    if Leader(rows, holder, firstPid, i) { WithLeader(rows, holder, firstPid, i); }
  }

  lemma WithLeader(rows: seq<LockRow>, holder: nat, firstPid: Option<nat>, i: int)
    requires Held(rows, holder, Room) && Leader(rows, holder, firstPid, i)
    requires Keep(rows, row => Leads(rows, holder, row)) == [rows[i]]
    ensures Outcome(rows, holder, firstPid, Inspect(rows, holder, firstPid))
  {
    var leader := rows[i].pid;
    var keep := row => Follows(holder, leader, row);
    FollowersAreKept(rows, holder, leader);
    if Keep(rows, keep) == [] {
      NothingKept(rows, keep);
    } else if |Keep(rows, keep)| == 1 {
      var j := OneKept(rows, keep);
      assert OnlyFollower(rows, holder, leader, j);
    } else {
      var j, k := KeepTwo(rows, keep);
      assert FollowsAt(rows, holder, leader, j) && FollowsAt(rows, holder, leader, k);
    }
  }

  lemma OneWithFollower(rows: seq<LockRow>, holder: nat, firstPid: Option<nat>, r: Result<Option<Chain>, Error>,
                        s: Result<Option<Chain>, Error>)
    requires Outcome(rows, holder, firstPid, r) && Outcome(rows, holder, firstPid, s) && r.Success? && r.value.Some?
             && r.value.value.follower.Some?
    ensures r == s
  {
  }

  lemma OneWithoutFollower(rows: seq<LockRow>, holder: nat, firstPid: Option<nat>, r: Result<Option<Chain>, Error>,
                           s: Result<Option<Chain>, Error>)
    requires Outcome(rows, holder, firstPid, r) && Outcome(rows, holder, firstPid, s) && r.Success? && r.value.Some?
             && r.value.value.follower == None
    ensures r == s
  {
  }

  lemma OneWithoutLeader(rows: seq<LockRow>, holder: nat, firstPid: Option<nat>, r: Result<Option<Chain>, Error>,
                         s: Result<Option<Chain>, Error>)
    requires Outcome(rows, holder, firstPid, r) && Outcome(rows, holder, firstPid, s) && r == Success(None)
    ensures r == s
  {
  }

  lemma OneOfFailures(rows: seq<LockRow>, holder: nat, firstPid: Option<nat>, r: Result<Option<Chain>, Error>,
                      s: Result<Option<Chain>, Error>)
    requires Outcome(rows, holder, firstPid, r) && Outcome(rows, holder, firstPid, s) && r.Failure? && s.Failure?
    ensures r == s
  {
  }

  /** Only one outcome fits the rows. */
  lemma OutcomeUnique(rows: seq<LockRow>, holder: nat, firstPid: Option<nat>, r: Result<Option<Chain>, Error>,
                      s: Result<Option<Chain>, Error>)
    requires Outcome(rows, holder, firstPid, r) && Outcome(rows, holder, firstPid, s)
    ensures r == s
  {
    if r.Success? {
      SuccessUnique(rows, holder, firstPid, r, s);
    } else if s.Success? {
      SuccessUnique(rows, holder, firstPid, s, r);
    } else {
      OneOfFailures(rows, holder, firstPid, r, s);
    }
  }

  lemma SuccessUnique(rows: seq<LockRow>, holder: nat, firstPid: Option<nat>, r: Result<Option<Chain>, Error>,
                      s: Result<Option<Chain>, Error>)
    requires Outcome(rows, holder, firstPid, r) && Outcome(rows, holder, firstPid, s) && r.Success?
    ensures r == s
  {
    if r.value == None {
      OneWithoutLeader(rows, holder, firstPid, r, s);
    } else if r.value.value.follower == None {
      OneWithoutFollower(rows, holder, firstPid, r, s);
    } else {
      OneWithFollower(rows, holder, firstPid, r, s);
    }
  }

  /** The inspection answers exactly what the rows say. */
  lemma InspectExact(rows: seq<LockRow>, holder: nat, firstPid: Option<nat>, r: Result<Option<Chain>, Error>)
    ensures r == Inspect(rows, holder, firstPid) <==> Outcome(rows, holder, firstPid, r)
  {
    if Held(rows, holder, Room) {
      var leaders := Keep(rows, row => Leads(rows, holder, row));
      if leaders == [] {
        NoLeader(rows, holder, firstPid);
      } else if |leaders| == 1 {
        OneLeader(rows, holder, firstPid);
      } else {
        TwoLeaders(rows, holder, firstPid);
      }
    }
    assert Outcome(rows, holder, firstPid, Inspect(rows, holder, firstPid));
    if Outcome(rows, holder, firstPid, r) { OutcomeUnique(rows, holder, firstPid, r, Inspect(rows, holder, firstPid)); }
  }

  // ----- when the controller polls on -----

  /** The table has a row for every lock that is held, and for every request that the controller blocks. */
  ghost predicate Covers(rows: seq<LockRow>, s: System) {
    && (s.roomHeld ==> Holding(rows, s.holder, Room))
    && (forall p :: p in s.requests && HoldsPeriod(s.requests[p]) ==> Holding(rows, p, Period))
    && (forall p :: p in s.requests && s.requests[p] == WaitsRoom && s.roomHeld ==> BlockedRow(rows, p, s.holder))
  }

  ghost predicate BlockedRow(rows: seq<LockRow>, pid: nat, holder: nat) {
    exists i :: 0 <= i < |rows| && rows[i].pid == pid && WaitingFor(rows[i], Room, holder)
  }

  /** On a truthful and complete table the controller polls on exactly while no request waits for
      the room it holds. */
  lemma PollsOnIff(rows: seq<LockRow>, s: System, firstPid: Option<nat>)
    requires Observes(rows, s) && Covers(rows, s) && Invariant(s) && s.roomHeld
    ensures Inspect(rows, s.holder, firstPid) == Success(None)
            <==> forall p :: p in s.requests ==> s.requests[p] != WaitsRoom
  {
    InspectExact(rows, s.holder, firstPid, Success(None));
    if p :| p in s.requests && s.requests[p] == WaitsRoom {
      var i := WaitingRow(rows, s, p);
    }
    forall i | LeadsAt(rows, s.holder, i) ensures rows[i].pid in s.requests && s.requests[rows[i].pid] == WaitsRoom {
      assert rows[i] in rows;
    }
  }

  lemma WaitingRow(rows: seq<LockRow>, s: System, p: nat) returns (i: int)
    requires Covers(rows, s) && Invariant(s) && s.roomHeld && p in s.requests && s.requests[p] == WaitsRoom
    ensures LeadsAt(rows, s.holder, i) && rows[i].pid == p
  {
    i :| 0 <= i < |rows| && rows[i].pid == p && WaitingFor(rows[i], Room, s.holder);
    assert HoldsPeriod(s.requests[p]);
  }

  /** The request that waits for the room is the leader that the table shows. */
  lemma LeaderFound(rows: seq<LockRow>, s: System, p: nat) returns (i: int)
    requires Observes(rows, s) && Covers(rows, s) && Invariant(s) && s.roomHeld
    requires forall j, k :: 0 <= j < k < |rows| ==> rows[j].pid != rows[k].pid || rows[j].key != rows[k].key
    requires p in s.requests && s.requests[p] == WaitsRoom
    ensures OnlyLeader(rows, s.holder, i) && rows[i].pid == p
  {
    i := WaitingRow(rows, s, p);
    forall j | LeadsAt(rows, s.holder, j) ensures j == i {
      assert rows[j] in rows;
      assert rows[j].pid == p;
    }
  }
}
