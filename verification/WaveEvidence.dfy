/** When a wave fails (scripts/scheduling-concurrency/wave.ts), told by its events alone. */
module WaveEvidence {
  import opened Wave
  import opened Wrappers

  /** The first call has returned from a period fence statement before event `n`. */
  ghost predicate AcquiredBefore(events: seq<Event>, n: nat)
    requires n <= |events|
  {
    exists j :: 0 <= j < n && events[j] == Acquires(0)
  }

  /** A due-candidate query of a call with this name has returned its single row before event `n`. */
  ghost predicate SelectedBefore(callIds: seq<string>, events: seq<Event>, name: string, n: nat)
    requires n <= |events|
  {
    exists j :: 0 <= j < n && SelectsFor(callIds, events[j], name)
  }

  predicate SelectsFor(callIds: seq<string>, e: Event, name: string) {
    e.Selects? && e.row.Some? && e.i < |callIds| && callIds[e.i] == name
  }

  /** The evidence that the policy asks of a call is there when event `n` settles it. */
  ghost predicate Supplied(policy: Policy, callIds: seq<string>, events: seq<Event>, i: nat, n: nat)
    requires n <= |events| && i < |callIds|
  {
    match policy
    case FirstPeriod => i == 0 ==> AcquiredBefore(events, n)
    case DueCandidates => SelectedBefore(callIds, events, callIds[i], n)
    case Simultaneous => true
  }

  /** Event `n` fails the wave: the timer fires, or a call settles badly or without its evidence. */
  ghost predicate FailsAt(policy: Policy, callIds: seq<string>, events: seq<Event>, n: nat)
    requires n < |events|
  {
    match events[n]
    case TimesOut => true
    case Settles(i, succeeded) => !succeeded || i >= |callIds| || !Supplied(policy, callIds, events, i, n)
    case _ => false
  }

  // ----- the state follows the events -----

  lemma AcquiredNext(events: seq<Event>, n: nat)
    requires n < |events|
    ensures AcquiredBefore(events, n + 1) <==> AcquiredBefore(events, n) || events[n] == Acquires(0)
    ensures AcquiredBefore(events[..n], n) <==> AcquiredBefore(events, n)
  {
    assert forall j :: 0 <= j < n ==> events[..n][j] == events[j];
  }

  lemma StepAcquires(s: State, e: Event)
    requires Enabled(s, e)
    ensures Apply(s, e).firstAcquired <==> s.firstAcquired || (s.policy == FirstPeriod && e == Acquires(0))
  {
  }

  lemma {:induction false} AcquiredIff(s0: State, events: seq<Event>)
    requires After(s0, events).Some? && !s0.firstAcquired
    ensures After(s0, events).value.firstAcquired <==> s0.policy == FirstPeriod && AcquiredBefore(events, |events|)
  {
    if events != [] {
      var n := |events| - 1;
      AcquiredIff(s0, events[..n]);
      NamesStay(s0, events[..n]);
      AcquiredNext(events, n);
      StepAcquires(After(s0, events[..n]).value, events[n]);
    }
  }

  lemma SelectionNext(callIds: seq<string>, events: seq<Event>, name: string, n: nat)
    requires n < |events|
    ensures SelectedBefore(callIds, events, name, n + 1)
            <==> SelectedBefore(callIds, events, name, n) || SelectsFor(callIds, events[n], name)
    ensures SelectedBefore(callIds, events[..n], name, n) <==> SelectedBefore(callIds, events, name, n)
  {
    assert forall j :: 0 <= j < n ==> events[..n][j] == events[j];
  }

  lemma SelectedNext(selected: seq<Selection>, last: Selection, name: string)
    ensures HasSelected(selected + [last], name) <==> HasSelected(selected, name) || last.callId == name
  {
    SelectedGrows(selected, last);
    assert (selected + [last])[|selected|] == last;
    if k :| 0 <= k < |selected| + 1 && (selected + [last])[k].callId == name && k < |selected| {
      assert selected[k].callId == name;
    }
  }

  lemma StepSelects(s: State, e: Event, name: string)
    requires Enabled(s, e)
    ensures HasSelected(Apply(s, e).selected, name)
            <==> HasSelected(s.selected, name) || (s.policy == DueCandidates && SelectsFor(s.callIds, e, name))
  {
    if e.Selects? && Records(s, e.i, e.row) { SelectedNext(s.selected, Selection(s.callIds[e.i], e.row.value), name); }
  }

  lemma {:induction false} SelectedIff(s0: State, events: seq<Event>, name: string)
    requires After(s0, events).Some? && s0.selected == []
    ensures HasSelected(After(s0, events).value.selected, name)
            <==> s0.policy == DueCandidates && SelectedBefore(s0.callIds, events, name, |events|)
  {
    if events != [] {
      var n := |events| - 1;
      SelectedIff(s0, events[..n], name);
      NamesStay(s0, events[..n]);
      SelectionNext(s0.callIds, events, name, n);
      StepSelects(After(s0, events[..n]).value, events[n], name);
    }
  }

  lemma FailsInPrefix(policy: Policy, callIds: seq<string>, events: seq<Event>, n: nat, k: nat)
    requires k < n <= |events|
    ensures FailsAt(policy, callIds, events[..n], k) <==> FailsAt(policy, callIds, events, k)
  {
    assert forall j :: 0 <= j < k ==> events[..n][j] == events[j];
  }

  /** A wave has failed exactly when some event fails it: nothing else does, under any policy. */
  lemma {:induction false} FailsIff(policy: Policy, first: string, second: string, events: seq<Event>)
    requires After(Launch(policy, first, second), events).Some?
    ensures After(Launch(policy, first, second), events).value.failed
            <==> exists n :: 0 <= n < |events| && FailsAt(policy, [first, second], events, n)
  {
    var s0 := Launch(policy, first, second);
    if events != [] {
      var n := |events| - 1;
      FailsIff(policy, first, second, events[..n]);
      forall k | 0 <= k < n
        ensures FailsAt(policy, [first, second], events[..n], k) <==> FailsAt(policy, [first, second], events, k)
      {
        FailsInPrefix(policy, [first, second], events, n, k);
      }
      LastFails(policy, first, second, events);
    }
  }

  lemma LastFails(policy: Policy, first: string, second: string, events: seq<Event>)
    requires events != [] && After(Launch(policy, first, second), events).Some?
    ensures var n := |events| - 1;
            After(Launch(policy, first, second), events).value.failed
            <==> After(Launch(policy, first, second), events[..n]).value.failed
                 || FailsAt(policy, [first, second], events, n)
  {
    var s0, n := Launch(policy, first, second), |events| - 1;
    var s, e := After(s0, events[..n]).value, events[n];
    NamesStay(s0, events[..n]);
    AcquiredIff(s0, events[..n]);
    assert forall j :: 0 <= j < n ==> events[..n][j] == events[j];
    if e.Settles? { SelectedIff(s0, events[..n], [first, second][e.i]); }
  }

  // ----- success is possible -----

  lemma AfterTwo(s: State, a: Event, b: Event)
    requires Enabled(s, a) && Enabled(Apply(s, a), b)
    ensures After(s, [a, b]) == Some(Apply(Apply(s, a), b))
  {
    assert [a, b][..1] == [a] && [a][..0] == [];
    assert After(s, [a]) == Some(Apply(s, a));
  }

  lemma {:induction false} AfterAppend(s: State, a: seq<Event>, b: seq<Event>)
    requires After(s, a).Some?
    ensures After(s, a + b) == After(After(s, a).value, b)
  {
    if b == [] {
      assert a + b == a;
    } else {
      assert (a + b)[..|a + b| - 1] == a + b[..|b| - 1];
      AfterAppend(s, a, b[..|b| - 1]);
    }
  }

  /** Under every policy two calls can succeed, unless due candidates are asked of one name twice. */
  lemma SuccessIsPossible(policy: Policy, first: string, second: string) returns (events: seq<Event>)
    requires policy == DueCandidates ==> first != second
    ensures After(Launch(policy, first, second), events).Some?
    ensures var s := After(Launch(policy, first, second), events).value; Finished(s) && !s.failed
  {
    var s := Launch(policy, first, second);
    match policy
    case Simultaneous =>
      events := [Settles(0, true), Settles(1, true)];
      AfterTwo(s, Settles(0, true), Settles(1, true));
    case FirstPeriod =>
      AfterTwo(s, Acquires(0), StartSecond);
      var t := Apply(Apply(s, Acquires(0)), StartSecond);
      AfterTwo(t, Settles(0, true), Settles(1, true));
      AfterAppend(s, [Acquires(0), StartSecond], [Settles(0, true), Settles(1, true)]);
      events := [Acquires(0), StartSecond] + [Settles(0, true), Settles(1, true)];
    case DueCandidates =>
      events := DueSuccess(first, second);
  }

  lemma BothSelect(first: string, second: string) returns (u: State)
    requires first != second
    ensures After(Launch(DueCandidates, first, second), [Selects(0, Some("a")), Selects(1, Some("b"))]) == Some(u)
    ensures Valid(u) && u.policy == DueCandidates && u.callIds == [first, second]
            && u.phases == [AwaitsBoth, AwaitsBoth]
    ensures u.bothReleased && !u.failed && HasSelected(u.selected, first) && HasSelected(u.selected, second)
  {
    var s := Launch(DueCandidates, first, second);
    var t := Apply(s, Selects(0, Some("a")));
    assert t.selected == [Selection(first, "a")] && !HasSelected(t.selected, second);
    AfterTwo(s, Selects(0, Some("a")), Selects(1, Some("b")));
    u := Apply(t, Selects(1, Some("b")));
    assert u.selected == [Selection(first, "a"), Selection(second, "b")];
    assert u.selected[0].callId == first && u.selected[1].callId == second;
  }

  /** Two calls that have both selected can go on and succeed. */
  lemma SelectedSucceed(u: State)
    requires Valid(u) && u.policy == DueCandidates && u.phases == [AwaitsBoth, AwaitsBoth] && u.bothReleased
             && !u.failed
    requires HasSelected(u.selected, u.callIds[0]) && HasSelected(u.selected, u.callIds[1])
    ensures var rest := [Resumes(0), Resumes(1)] + [Settles(0, true), Settles(1, true)];
            After(u, rest).Some? && Finished(After(u, rest).value) && !After(u, rest).value.failed
  {
    AfterTwo(u, Resumes(0), Resumes(1));
    var v := Apply(Apply(u, Resumes(0)), Resumes(1));
    AfterTwo(v, Settles(0, true), Settles(1, true));
    AfterAppend(u, [Resumes(0), Resumes(1)], [Settles(0, true), Settles(1, true)]);
  }

  lemma DueSuccess(first: string, second: string) returns (events: seq<Event>)
    requires first != second
    ensures After(Launch(DueCandidates, first, second), events).Some?
    ensures var s := After(Launch(DueCandidates, first, second), events).value; Finished(s) && !s.failed
  {
    var u := BothSelect(first, second);
    SelectedSucceed(u);
    var selects := [Selects(0, Some("a")), Selects(1, Some("b"))];
    var rest := [Resumes(0), Resumes(1)] + [Settles(0, true), Settles(1, true)];
    AfterAppend(Launch(DueCandidates, first, second), selects, rest);
    events := selects + rest;
  }
}
