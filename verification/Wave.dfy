/** The two-call wave of scripts/scheduling-concurrency/wave.ts: two requests that are
    coordinated by one-shot signals, with an abort that releases every waiter. */
module Wave {
  import opened Wrappers

  datatype Policy = FirstPeriod | DueCandidates | Simultaneous

  /** Where a call is: awaiting the first-period signal, running, or awaiting both selections. */
  datatype Phase = AwaitsFirst | Running | AwaitsBoth | Done(succeeded: bool)

  datatype Selection = Selection(callId: string, id: string)

  datatype State = State(
    policy: Policy,
    callIds: seq<string>,      // the operation names of the two calls
    phases: seq<Phase>,
    started: seq<bool>,        // the call's record has been pushed
    passed: seq<bool>,         // the call got past its rendezvous without a failure
    selected: seq<Selection>,
    failed: bool,
    firstReleased: bool,
    bothReleased: bool,
    firstAcquired: bool)

  /** Both calls are launched; the second may have to wait for the first. */
  function Launch(policy: Policy, first: string, second: string): State {
    var waits := policy == FirstPeriod;
    State(policy, [first, second], [Running, if waits then AwaitsFirst else Running], [true, !waits], [false, false],
          [], false, false, false, false)
  }

  function Abort(s: State): State {
    s.(failed := true, firstReleased := true, bothReleased := true)
  }

  predicate HasSelected(selected: seq<Selection>, callId: string) {
    exists k :: 0 <= k < |selected| && selected[k].callId == callId
  }

  /** The checks after a call's operation has returned. */
  predicate MissesWitness(s: State, i: nat)
    requires i < |s.callIds|
  {
    || (s.policy == FirstPeriod && i == 0 && !s.firstAcquired)
    || (s.policy == DueCandidates && !HasSelected(s.selected, s.callIds[i]))
  }

  datatype Event =
    | StartSecond                          // the second call wakes from the first-period signal
    | Acquires(i: nat)                     // a period fence statement of call i returns
    | Selects(i: nat, row: Option<string>) // a due-candidate query of call i returns its single row, if any
    | Resumes(i: nat)                      // call i wakes from the both-selected signal
    | Settles(i: nat, succeeded: bool)     // the operation of call i settles
    | TimesOut

  /** A wave always has two calls. */
  predicate Valid(s: State) {
    |s.callIds| == |s.phases| == |s.started| == |s.passed| == 2
  }

  predicate Finished(s: State) {
    Valid(s) && s.phases[0].Done? && s.phases[1].Done?
  }

  predicate Enabled(s: State, e: Event) {
    Valid(s) &&
    match e
    case StartSecond => s.phases[1] == AwaitsFirst && s.firstReleased
    case Acquires(i) => i < 2 && s.phases[i] == Running
    case Selects(i, _) => i < 2 && s.phases[i] == Running
    case Resumes(i) => i < 2 && s.phases[i] == AwaitsBoth && s.bothReleased
    case Settles(i, _) => i < 2 && s.phases[i] == Running
    // the timer is cleared once both calls have settled
    case TimesOut => !Finished(s)
  }

  /** A due selection is recorded when it names one row and its call ID has none yet. */
  predicate Records(s: State, i: nat, row: Option<string>)
    requires i < |s.callIds|
  {
    s.policy == DueCandidates && row.Some? && !HasSelected(s.selected, s.callIds[i])
  }

  function Apply(s: State, e: Event): State
    requires Enabled(s, e)
  {
    match e
    case StartSecond =>
      if s.failed then s.(phases := s.phases[1 := Done(false)])
      else s.(phases := s.phases[1 := Running], started := s.started[1 := true])
    case Acquires(i) =>
      if s.policy == FirstPeriod && i == 0 && !s.firstAcquired then s.(firstAcquired := true, firstReleased := true) else s
    case Selects(i, row) =>
      if Records(s, i, row) then
        s.(selected := s.selected + [Selection(s.callIds[i], row.value)],
           bothReleased := s.bothReleased || |s.selected| == 1,
           phases := s.phases[i := AwaitsBoth])
      else s
    case Resumes(i) =>
      s.(phases := s.phases[i := Running], passed := if s.failed then s.passed else s.passed[i := true])
    case Settles(i, succeeded) =>
      if succeeded && !MissesWitness(s, i) then s.(phases := s.phases[i := Done(true)])
      else Abort(s).(phases := s.phases[i := Done(false)])
    case TimesOut => Abort(s)
  }

  function After(s: State, events: seq<Event>): Option<State> {
    if events == [] then Some(s)
    else
      match After(s, events[..|events| - 1])
      case None => None
      case Some(t) => if Enabled(t, events[|events| - 1]) then Some(Apply(t, events[|events| - 1])) else None
  }

  // ----- the wave object -----

  /** The shared state of a wave; each method is one synchronous section of the source. */
  class WaveObject {
    const policy: Policy
    const callIds: seq<string>
    var phases: seq<Phase>
    var started: seq<bool>
    var passed: seq<bool>
    var selected: seq<Selection>
    var failed: bool
    var firstReleased: bool
    var bothReleased: bool
    var firstAcquired: bool

    function Model(): State
      reads this
    {
      State(policy, callIds, phases, started, passed, selected, failed, firstReleased, bothReleased, firstAcquired)
    }

    constructor (policy: Policy, first: string, second: string)
      ensures Model() == Launch(policy, first, second) && Invariant(Model())
    {
      this.policy, callIds := policy, [first, second];
      phases := [Running, if policy == FirstPeriod then AwaitsFirst else Running];
      started := [true, policy != FirstPeriod];
      passed, selected := [false, false], [];
      failed, firstReleased, bothReleased, firstAcquired := false, false, false, false;
    }

    /** Keeps the first failure and releases both signals. */
    method AbortAll()
      requires Invariant(Model())
      modifies this`failed, this`firstReleased, this`bothReleased
      ensures Model() == Abort(old(Model())) && Invariant(Model())
      ensures !Blocked(Model(), 0) && !Blocked(Model(), 1)
    {
      AbortKeeps(Model());
      failed := true;
      firstReleased := true;
      bothReleased := true;
    }

    method WakeSecond()
      requires Invariant(Model()) && Enabled(Model(), StartSecond)
      modifies this
      ensures Model() == Apply(old(Model()), StartSecond) && Invariant(Model())
    {
      StepKeeps(Model(), StartSecond);
      if failed { phases := phases[1 := Done(false)]; return; }
      started := started[1 := true];
      phases := phases[1 := Running];
    }

    method ObserveExecute(i: nat)
      requires Invariant(Model()) && Enabled(Model(), Acquires(i))
      modifies this
      ensures Model() == Apply(old(Model()), Acquires(i)) && Invariant(Model())
    {
      StepKeeps(Model(), Acquires(i));
      if policy == FirstPeriod && i == 0 && !firstAcquired {
        firstAcquired := true;
        firstReleased := true;
      }
    }

    /** Returns whether the query's row was accepted; the source throws otherwise. */
    method ObserveQuery(i: nat, row: Option<string>) returns (accepted: bool)
      requires Invariant(Model()) && Enabled(Model(), Selects(i, row))
      modifies this
      ensures Model() == Apply(old(Model()), Selects(i, row)) && Invariant(Model())
      ensures accepted <==>
                policy != DueCandidates
                || (row.Some? && forall k :: 0 <= k < |old(selected)| ==> old(selected)[k].callId != callIds[i])
    {
      StepKeeps(Model(), Selects(i, row));
      if policy != DueCandidates { return true; }
      if row == None || exists k :: 0 <= k < |selected| && selected[k].callId == callIds[i] { return false; }
      selected := selected + [Selection(callIds[i], row.value)];
      if |selected| == 2 { bothReleased := true; }
      phases := phases[i := AwaitsBoth];
      accepted := true;
    }

    method WakeSelected(i: nat) returns (resumed: bool)
      requires Invariant(Model()) && Enabled(Model(), Resumes(i))
      modifies this
      ensures Model() == Apply(old(Model()), Resumes(i)) && Invariant(Model())
      ensures resumed <==> !old(failed)
    {
      StepKeeps(Model(), Resumes(i));
      phases := phases[i := Running];
      if failed { return false; }
      passed := passed[i := true];
      resumed := true;
    }

    method SettleCall(i: nat, succeeded: bool)
      requires Invariant(Model()) && Enabled(Model(), Settles(i, succeeded))
      modifies this
      ensures Model() == Apply(old(Model()), Settles(i, succeeded)) && Invariant(Model())
    {
      StepKeeps(Model(), Settles(i, succeeded));
      var ok := succeeded;
      if policy == FirstPeriod && i == 0 && !firstAcquired { ok := false; }
      if policy == DueCandidates && !exists k :: 0 <= k < |selected| && selected[k].callId == callIds[i] { ok := false; }
      if !ok { AbortAll(); }
      phases := phases[i := Done(ok)];
    }

    /** The timer fires. */
    method Expire()
      requires Invariant(Model()) && Enabled(Model(), TimesOut)
      modifies this
      ensures Model() == Apply(old(Model()), TimesOut) && Invariant(Model())
    {
      AbortAll();
    }
  }

  /** Runs the sections of a wave in the given order: the object goes through the states of `After`,
      and stops where that has none. */
  method Replay(policy: Policy, first: string, second: string, events: seq<Event>) returns (final: Option<State>)
    ensures final == After(Launch(policy, first, second), events)
  {
    ghost var start := Launch(policy, first, second);
    var wave := new WaveObject(policy, first, second);
    for k := 0 to |events|
      invariant fresh(wave) && Invariant(wave.Model())
      invariant After(start, events[..k]) == Some(wave.Model())
    {
      AfterNext(start, events, k);
      if !Enabled(wave.Model(), events[k]) {
        StaysImpossible(start, events, k + 1);
        return None;
      }
      match events[k] {
        case StartSecond => wave.WakeSecond();
        case Acquires(i) => wave.ObserveExecute(i);
        case Selects(i, row) => var _ := wave.ObserveQuery(i, row);
        case Resumes(i) => var _ := wave.WakeSelected(i);
        case Settles(i, succeeded) => wave.SettleCall(i, succeeded);
        case TimesOut => wave.Expire();
      }
    }
    assert events[..|events|] == events;
    final := Some(wave.Model());
  }

  lemma AfterNext(s: State, events: seq<Event>, k: nat)
    requires k < |events| && After(s, events[..k]).Some?
    ensures var t := After(s, events[..k]).value;
            After(s, events[..k + 1]) == if Enabled(t, events[k]) then Some(Apply(t, events[k])) else None
  {
    assert events[..k + 1][..k] == events[..k];
  }

  lemma {:induction false} StaysImpossible(s: State, events: seq<Event>, k: nat)
    requires k <= |events| && After(s, events[..k]) == None
    ensures After(s, events) == None
  {
    if k == |events| {
      assert events[..k] == events;
    } else {
      var front := events[..|events| - 1];
      assert front[..k] == events[..k];
      StaysImpossible(s, front, k);
    }
  }

  // ----- what every step keeps -----

  /** How signals, failure and the phases of the calls go together. */
  ghost predicate Flow(s: State) {
    && Valid(s)
    && (s.failed ==> s.firstReleased && s.bothReleased)
    && (s.firstReleased && !s.failed ==> s.firstAcquired)
    && (s.firstAcquired ==> s.firstReleased)
    && (s.bothReleased && !s.failed ==> |s.selected| == 2)
    && (|s.selected| == 2 ==> s.bothReleased)
    && |s.selected| <= 2
    && (s.policy == FirstPeriod && s.started[1] ==> s.firstAcquired)
    && (s.phases[1] == AwaitsFirst ==> s.policy == FirstPeriod)
    && s.phases[0] != AwaitsFirst
    && (forall i :: 0 <= i < 2 && s.passed[i] ==> |s.selected| == 2)
    && (forall i :: 0 <= i < 2 && s.phases[i] == Done(false) ==> s.failed)
    && (s.phases[0] == Done(true) && s.policy == FirstPeriod ==> s.firstAcquired)
    && (s.phases[1] in {Running, Done(true)} && s.policy == FirstPeriod ==> s.started[1])
  }

  /** Which calls have selected: each call ID at most once, and every call that waits for or
      succeeds after its selection. */
  ghost predicate Selections(s: State) {
    && Valid(s)
    && (forall i :: 0 <= i < 2 && s.phases[i] == AwaitsBoth ==>
          s.policy == DueCandidates && HasSelected(s.selected, s.callIds[i]))
    && (forall i :: 0 <= i < 2 && s.phases[i] == Done(true) && s.policy == DueCandidates ==>
          HasSelected(s.selected, s.callIds[i]))
    && (forall k :: 0 <= k < |s.selected| ==> s.selected[k].callId in s.callIds)
    && (forall j, k :: 0 <= j < k < |s.selected| ==> s.selected[j].callId != s.selected[k].callId)
  }

  ghost predicate Invariant(s: State) {
    Flow(s) && Selections(s)
  }

  lemma LaunchInvariant(policy: Policy, first: string, second: string)
    ensures Invariant(Launch(policy, first, second))
  {
  }

  lemma SelectedGrows(before: seq<Selection>, last: Selection)
    ensures forall callId :: HasSelected(before, callId) ==> HasSelected(before + [last], callId)
  {
    forall callId | HasSelected(before, callId) ensures HasSelected(before + [last], callId) {
      var k :| 0 <= k < |before| && before[k].callId == callId;
      assert (before + [last])[k] == before[k];
    }
  }

  lemma SelectKeeps(s: State, i: nat, row: Option<string>)
    requires Invariant(s) && Enabled(s, Selects(i, row))
    ensures Invariant(Apply(s, Selects(i, row)))
  {
    if Records(s, i, row) {
      if |s.selected| == 2 { TwoSelectionsCoverBoth(s); }
      RecordKeeps(s, i, row.value);
    }
  }

  lemma RecordKeeps(s: State, i: nat, row: string)
    requires Invariant(s) && Enabled(s, Selects(i, Some(row))) && Records(s, i, Some(row)) && |s.selected| <= 1
    ensures Invariant(Apply(s, Selects(i, Some(row))))
  {
    RecordKeepsFlow(s, i, row);
    RecordKeepsSelections(s, i, row);
  }

  lemma RecordKeepsFlow(s: State, i: nat, row: string)
    requires Flow(s) && Enabled(s, Selects(i, Some(row))) && Records(s, i, Some(row)) && |s.selected| <= 1
    ensures Flow(Apply(s, Selects(i, Some(row))))
  {
  }

  lemma RecordKeepsSelections(s: State, i: nat, row: string)
    requires Selections(s) && Enabled(s, Selects(i, Some(row))) && Records(s, i, Some(row))
    ensures Selections(Apply(s, Selects(i, Some(row))))
  {
    var t, n := Apply(s, Selects(i, Some(row))), |s.selected|;
    SelectedGrows(s.selected, Selection(s.callIds[i], row));
    assert t.selected[n].callId == s.callIds[i];
    assert HasSelected(t.selected, s.callIds[i]);
  }

  /** Two selections under two different call IDs cover both calls. */
  lemma TwoSelectionsCoverBoth(s: State)
    requires Valid(s) && |s.selected| == 2
    requires forall k :: 0 <= k < |s.selected| ==> s.selected[k].callId in s.callIds
    requires forall j, k :: 0 <= j < k < |s.selected| ==> s.selected[j].callId != s.selected[k].callId
    ensures HasSelected(s.selected, s.callIds[0]) && HasSelected(s.selected, s.callIds[1])
  {
    assert s.selected[0].callId in s.callIds && s.selected[1].callId in s.callIds;
  }

  lemma SettleKeeps(s: State, e: Event)
    requires Invariant(s) && Enabled(s, e) && (e.Settles? || e.TimesOut?)
    ensures Invariant(Apply(s, e))
  {
    SettleKeepsFlow(s, e);
  }

  lemma SettleKeepsFlow(s: State, e: Event)
    requires Flow(s) && Enabled(s, e) && (e.Settles? || e.TimesOut?)
    ensures Flow(Apply(s, e))
  {
  }

  lemma AbortKeeps(s: State)
    requires Invariant(s)
    ensures Invariant(Abort(s)) && !Blocked(Abort(s), 0) && !Blocked(Abort(s), 1)
  {
  }

  lemma WakeKeeps(s: State, e: Event)
    requires Invariant(s) && Enabled(s, e) && (e.StartSecond? || e.Resumes? || e.Acquires?)
    ensures Invariant(Apply(s, e))
  {
  }

  lemma StepKeeps(s: State, e: Event)
    requires Invariant(s) && Enabled(s, e)
    ensures Invariant(Apply(s, e))
  {
    if e.Selects? {
      SelectKeeps(s, e.i, e.row);
    } else if e.Settles? || e.TimesOut? {
      SettleKeeps(s, e);
    } else {
      WakeKeeps(s, e);
    }
  }

  lemma {:induction false} RunKeeps(s: State, events: seq<Event>)
    requires Invariant(s) && After(s, events).Some?
    ensures Invariant(After(s, events).value)
  {
    if events != [] {
      RunKeeps(s, events[..|events| - 1]);
      StepKeeps(After(s, events[..|events| - 1]).value, events[|events| - 1]);
    }
  }

  // ----- no call is left behind -----

  /** Call `i` waits for a signal that has not been released. */
  predicate Blocked(s: State, i: nat)
    requires Valid(s) && i < 2
  {
    (s.phases[i] == AwaitsFirst && !s.firstReleased) || (s.phases[i] == AwaitsBoth && !s.bothReleased)
  }

  /** What a waiting call waits for: the first call's acquisition, or the second selection. */
  lemma BlockedIff(policy: Policy, first: string, second: string, events: seq<Event>, i: nat)
    requires After(Launch(policy, first, second), events).Some? && i < 2
    ensures var s := After(Launch(policy, first, second), events).value;
            && Valid(s)
            && (Blocked(s, i) <==> !s.failed && ((s.phases[i] == AwaitsFirst && !s.firstAcquired)
                                                 || (s.phases[i] == AwaitsBoth && |s.selected| < 2)))
  {
    LaunchInvariant(policy, first, second);
    RunKeeps(Launch(policy, first, second), events);
  }

  /** Once anything has failed or timed out, no call is blocked. */
  lemma FailureReleasesEveryone(policy: Policy, first: string, second: string, events: seq<Event>)
    requires After(Launch(policy, first, second), events).Some?
    ensures var s := After(Launch(policy, first, second), events).value;
            Valid(s) && (s.failed ==> forall i :: 0 <= i < 2 ==> !Blocked(s, i))
  {
    LaunchInvariant(policy, first, second);
    RunKeeps(Launch(policy, first, second), events);
  }

  /** Under the first-period policy the second call starts only after the first one has acquired
      the period lock, so a wave that completes without a failure has that order. */
  lemma SecondStartsAfterAcquisition(first: string, second: string, events: seq<Event>)
    requires After(Launch(FirstPeriod, first, second), events).Some?
    ensures var s := After(Launch(FirstPeriod, first, second), events).value;
            Valid(s) && (s.started[1] ==> s.firstAcquired)
    ensures var s := After(Launch(FirstPeriod, first, second), events).value;
            Finished(s) && !s.failed ==> s.started[1]
  {
    LaunchInvariant(FirstPeriod, first, second);
    RunKeeps(Launch(FirstPeriod, first, second), events);
    NamesStay(Launch(FirstPeriod, first, second), events);
  }

  /** Under the due-candidates policy a call passes its rendezvous only after both selections. */
  lemma RendezvousNeedsBoth(first: string, second: string, events: seq<Event>)
    requires After(Launch(DueCandidates, first, second), events).Some?
    ensures var s := After(Launch(DueCandidates, first, second), events).value;
            && Valid(s)
            && (forall i :: 0 <= i < 2 && s.passed[i] ==> |s.selected| == 2)
            && (|s.selected| == 2 ==> HasSelected(s.selected, first) && HasSelected(s.selected, second) && first != second)
  {
    var s0 := Launch(DueCandidates, first, second);
    LaunchInvariant(DueCandidates, first, second);
    RunKeeps(s0, events);
    NamesStay(s0, events);
    var s := After(s0, events).value;
    if |s.selected| == 2 {
      TwoSelectionsCoverBoth(s);
      assert s.selected[0].callId in s.callIds && s.selected[1].callId in s.callIds;
    }
  }

  lemma StepKeepsNames(s: State, e: Event)
    requires Enabled(s, e)
    ensures Apply(s, e).callIds == s.callIds && Apply(s, e).policy == s.policy
  {
  }

  lemma {:induction false} NamesStay(s: State, events: seq<Event>)
    requires After(s, events).Some?
    ensures After(s, events).value.callIds == s.callIds && After(s, events).value.policy == s.policy
  {
    if events != [] {
      NamesStay(s, events[..|events| - 1]);
      StepKeepsNames(After(s, events[..|events| - 1]).value, events[|events| - 1]);
    }
  }

  /** Nothing but the timer can move the wave any more, although a call is still waiting. */
  predicate Stuck(s: State)
    requires Valid(s)
  {
    !Finished(s) && forall i :: 0 <= i < 2 ==> s.phases[i].Done? || Blocked(s, i)
  }

  /** Before the timer fires, a wave can get stuck exactly when due candidates are requested from
      two calls of the same name: then one call's selection passes for the other's. */
  lemma StuckOnlyBySharedName(policy: Policy, first: string, second: string)
    ensures (exists events :: After(Launch(policy, first, second), events).Some?
                              && Stalled(After(Launch(policy, first, second), events).value))
            <==> policy == DueCandidates && first == second
  {
    if policy == DueCandidates && first == second {
      SharedNameGetsStuck(first);
    }
    forall events | After(Launch(policy, first, second), events).Some?
                    && Stalled(After(Launch(policy, first, second), events).value)
      ensures policy == DueCandidates && first == second
    {
      StuckMeansSharedName(policy, first, second, events);
    }
  }

  predicate Stalled(s: State) { Valid(s) && Stuck(s) }

  lemma StuckMeansSharedName(policy: Policy, first: string, second: string, events: seq<Event>)
    requires After(Launch(policy, first, second), events).Some?
    requires Stalled(After(Launch(policy, first, second), events).value)
    ensures policy == DueCandidates && first == second
  {
    var s0 := Launch(policy, first, second);
    LaunchInvariant(policy, first, second);
    RunKeeps(s0, events);
    NamesStay(s0, events);
    var s := After(s0, events).value;
  }

  lemma SharedNameGetsStuck(name: string)
    ensures exists events :: After(Launch(DueCandidates, name, name), events).Some?
                             && Stalled(After(Launch(DueCandidates, name, name), events).value)
  {
    var s0 := Launch(DueCandidates, name, name);
    var select, settle := Selects(0, Some("request")), Settles(1, true);
    var events := [select, settle];
    assert events[..1] == [select] && [select][..0] == [];
    var s1 := Apply(s0, select);
    assert After(s0, [select]) == Some(s1);
    assert s1.selected[0].callId == name;
    assert HasSelected(s1.selected, name);
    assert Stalled(Apply(s1, settle));
    assert After(s0, events) == Some(Apply(s1, settle));
  }

  /** The timer covers that case as well: until both calls have settled it can fire, and after
      it every call can go on. */
  lemma TimerRescues(s: State)
    requires Invariant(s) && !Finished(s)
    ensures Enabled(s, TimesOut) && Invariant(Apply(s, TimesOut)) && !Stuck(Apply(s, TimesOut))
  {
    StepKeeps(s, TimesOut);
  }

  /** What `runWave` may report: success needs both calls and no failure. Then each call has
      supplied the evidence its policy asks for. */
  lemma SuccessHasEvidence(policy: Policy, first: string, second: string, events: seq<Event>)
    requires After(Launch(policy, first, second), events).Some?
    requires var s := After(Launch(policy, first, second), events).value; Finished(s) && !s.failed
    ensures var s := After(Launch(policy, first, second), events).value;
            && Finished(s) && s.phases[0] == Done(true) && s.phases[1] == Done(true)
            && (policy == FirstPeriod ==> s.firstAcquired && s.started[1])
            && (policy == DueCandidates ==> HasSelected(s.selected, first) && HasSelected(s.selected, second))
            && (policy == DueCandidates && first != second ==> |s.selected| == 2)
  {
    var s0 := Launch(policy, first, second);
    LaunchInvariant(policy, first, second);
    RunKeeps(s0, events);
    NamesStay(s0, events);
    var s := After(s0, events).value;
    if policy == DueCandidates && first != second {
      var j :| 0 <= j < |s.selected| && s.selected[j].callId == first;
      var k :| 0 <= k < |s.selected| && s.selected[k].callId == second;
    }
  }
}
