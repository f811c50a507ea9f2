/** The confirmation countdown of src/lib/confirmation-timing.ts: eligibility from a server
    snapshot and the client's monotonic clock. Times are milliseconds. */
module ConfirmationTiming {
  import opened Arithmetic
  import opened Wrappers

  /** A JavaScript number; rounding is left out. */
  datatype Number = NaN | Infinity | NegativeInfinity | Finite(value: real)

  function Negate(a: Number): Number {
    match a
    case NaN => NaN
    case Infinity => NegativeInfinity
    case NegativeInfinity => Infinity
    case Finite(x) => Finite(-x)
  }

  function Add(a: Number, b: Number): Number {
    match (a, b)
    case (Finite(x), Finite(y)) => Finite(x + y)
    case (NaN, _) => NaN
    case (_, NaN) => NaN
    case (Infinity, NegativeInfinity) => NaN
    case (NegativeInfinity, Infinity) => NaN
    case (Finite(_), _) => b
    case _ => a
  }

  /** `Math.max(0, a)`. */
  function AtLeastZero(a: Number): Number {
    match a
    case NegativeInfinity => Finite(0.0)
    case Finite(x) => if x < 0.0 then Finite(0.0) else a
    case _ => a
  }

  datatype Ticket = Ticket(readyAt: Number, expiresAt: Number, serverNow: Number)

  datatype Anchor = Anchor(ticket: Ticket, requestStartedAt: Number, receivedAt: Number)

  datatype State = State(remaining: Option<int>, expired: bool, eligible: bool)

  function Current(anchor: Anchor, now: Number): Number {
    Add(anchor.ticket.serverNow, AtLeastZero(Add(now, Negate(anchor.receivedAt))))
  }

  function TransitUpperBound(anchor: Anchor): Number {
    AtLeastZero(Add(anchor.receivedAt, Negate(anchor.requestStartedAt)))
  }

  predicate Valid(anchor: Anchor, current: Number) {
    var t := anchor.ticket;
    t.serverNow.Finite? && t.readyAt.Finite? && t.expiresAt.Finite? && current.Finite? && t.expiresAt.value > t.readyAt.value
  }

  /** `confirmationState`. */
  function ConfirmationState(anchor: Option<Anchor>, now: Number): State {
    match anchor
    case None => State(None, false, false)
    case Some(a) =>
      var current := Current(a, now);
      var transit := TransitUpperBound(a);
      var valid := Valid(a, current);
      var expired := !valid || !transit.Finite? || current.value + transit.value >= a.ticket.expiresAt.value;
      var seconds := if valid then Ceil((a.ticket.readyAt.value - current.value) / 1000.0) else 0;
      var remaining := if !valid then None else if seconds < 0 then Some(0) else Some(seconds);
      State(remaining, expired, !expired && remaining == Some(0))
  }

  /** The server read its clock, `offset` ahead of the client's, at client time `snapshot`, between
      the start of the request and the receipt of its answer. */
  predicate Snapshot(a: Anchor, snapshot: real, offset: real) {
    && a.requestStartedAt.Finite? && a.receivedAt.Finite?
    && a.requestStartedAt.value <= snapshot <= a.receivedAt.value
    && a.ticket.serverNow == Finite(snapshot + offset)
  }

  /** Never early and never late: while both clocks run at the same rate, an eligible
      confirmation lies in the server's own validity window. */
  lemma EligibleIsInWindow(a: Anchor, now: real, snapshot: real, offset: real)
    requires Snapshot(a, snapshot, offset) && now >= a.receivedAt.value
    requires ConfirmationState(Some(a), Finite(now)).eligible
    ensures a.ticket.readyAt.Finite? && a.ticket.expiresAt.Finite?
    ensures a.ticket.readyAt.value <= now + offset < a.ticket.expiresAt.value
  {
    var current := Current(a, Finite(now)).value;
    assert current == snapshot + offset + (now - a.receivedAt.value);
    CeilNotPositive((a.ticket.readyAt.value - current) / 1000.0);
  }

  lemma CurrentGrows(a: Anchor, earlier: real, later: real)
    requires earlier <= later
    ensures var c, d := Current(a, Finite(earlier)), Current(a, Finite(later));
            (c.Finite? <==> d.Finite?) && (c.Finite? ==> c.value <= d.value)
  {
  }

  /** Time only moves one way: the countdown never grows and an expired ticket stays expired. */
  lemma TimeMovesForward(a: Anchor, earlier: real, later: real)
    requires earlier <= later
    ensures var s, t := ConfirmationState(Some(a), Finite(earlier)), ConfirmationState(Some(a), Finite(later));
            && (s.expired ==> t.expired)
            && (s.remaining.Some? && t.remaining.Some? ==> t.remaining.value <= s.remaining.value)
            && (s.remaining.Some? <==> t.remaining.Some?)
            && (s.eligible && !t.expired ==> t.eligible)
  {
    var c, d := Current(a, Finite(earlier)), Current(a, Finite(later));
    CurrentGrows(a, earlier, later);
    if c.Finite? && d.Finite? && a.ticket.readyAt.Finite? {
      CeilMonotone((a.ticket.readyAt.value - d.value) / 1000.0, (a.ticket.readyAt.value - c.value) / 1000.0);
    }
  }

  /** The countdown is the least number of whole seconds after which it reaches zero. */
  lemma CountdownIsTight(a: Anchor, now: real, seconds: int)
    requires a.receivedAt.Finite? && now >= a.receivedAt.value && seconds >= 0
    requires ConfirmationState(Some(a), Finite(now)).remaining.Some?
    ensures ConfirmationState(Some(a), Finite(now + 1000.0 * seconds as real)).remaining == Some(0)
            <==> seconds >= ConfirmationState(Some(a), Finite(now)).remaining.value
  {
    var later := now + 1000.0 * seconds as real;
    var c, d := Current(a, Finite(now)).value, Current(a, Finite(later)).value;
    var x := (a.ticket.readyAt.value - c) / 1000.0;
    assert d == c + 1000.0 * seconds as real;
    assert (a.ticket.readyAt.value - d) / 1000.0 == x - seconds as real;
    CeilNotPositive(x - seconds as real);
    CeilBounds(x);
  }

  /** There is a moment to confirm exactly when the window, shortened by the transit bound, is
      still open once the ticket is ready. */
  lemma EverEligible(a: Anchor)
    requires a.requestStartedAt.Finite? && a.receivedAt.Finite?
    requires a.ticket.serverNow.Finite? && a.ticket.readyAt.Finite? && a.ticket.expiresAt.Finite?
    ensures (exists now: real :: ConfirmationState(Some(a), Finite(now)).eligible)
            <==> var t := a.ticket;
                 var usable := t.expiresAt.value - TransitUpperBound(a).value;
                 t.readyAt.value < usable && t.serverNow.value < usable
  {
    var t := a.ticket;
    var usable := t.expiresAt.value - TransitUpperBound(a).value;
    if t.readyAt.value < usable && t.serverNow.value < usable {
      var wait := if t.readyAt.value > t.serverNow.value then t.readyAt.value - t.serverNow.value else 0.0;
      var now := a.receivedAt.value + wait;
      assert Current(a, Finite(now)) == Finite(t.serverNow.value + wait);
      CeilNotPositive((t.readyAt.value - (t.serverNow.value + wait)) / 1000.0);
      assert ConfirmationState(Some(a), Finite(now)).eligible;
    }
    forall now: real | ConfirmationState(Some(a), Finite(now)).eligible
      ensures t.readyAt.value < usable && t.serverNow.value < usable
    {
      var current := Current(a, Finite(now)).value;
      CeilNotPositive((t.readyAt.value - current) / 1000.0);
    }
  }

  // ----- the whole state -----

  function LongerOf(a: real, b: real): (r: real)
    ensures r >= a && r >= b && (r == a || r == b)
  {
    if a < b then b else a
  }

  /** On finite times: a ticket is expired exactly when its window is empty or the server's time,
      advanced by the wait and the longest transit, has reached its end; there is a countdown
      exactly for a window that is not empty. */
  lemma StateOfFinite(a: Anchor, now: real)
    requires a.requestStartedAt.Finite? && a.receivedAt.Finite?
    requires a.ticket.serverNow.Finite? && a.ticket.readyAt.Finite? && a.ticket.expiresAt.Finite?
    ensures var t, s := a.ticket, ConfirmationState(Some(a), Finite(now));
            var current := t.serverNow.value + LongerOf(0.0, now - a.receivedAt.value);
            var transit := LongerOf(0.0, a.receivedAt.value - a.requestStartedAt.value);
            && (s.expired <==> t.expiresAt.value <= t.readyAt.value || current + transit >= t.expiresAt.value)
            && (s.remaining == None <==> t.expiresAt.value <= t.readyAt.value)
            && (s.remaining.Some? ==> (s.remaining.value == 0 <==> current >= t.readyAt.value))
            && (s.eligible <==> !s.expired && current >= t.readyAt.value)
  {
    var t := a.ticket;
    var current := t.serverNow.value + LongerOf(0.0, now - a.receivedAt.value);
    assert Current(a, Finite(now)) == Finite(current);
    CeilNotPositive((t.readyAt.value - current) / 1000.0);
  }

  /** Without an anchor nothing is known; a ticket with a time that is not finite is expired. */
  lemma StateOfOthers(a: Option<Anchor>, now: Number)
    ensures a == None ==> ConfirmationState(a, now) == State(None, false, false)
    ensures a.Some? && !(a.value.ticket.serverNow.Finite? && a.value.ticket.readyAt.Finite?
                         && a.value.ticket.expiresAt.Finite?) ==>
              ConfirmationState(a, now) == State(None, true, false)
  {
  }
}
