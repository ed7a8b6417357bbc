/**
  When an instance emits: the trigger must have held for `sustained`, and emissions are spaced
  by `emitInterval`. Ticks are a sequence of times and trigger outcomes; what happens at a tick
  is a function of the ticks before it.
 */
module Findings {
  import opened FlowSpec

  /** The trigger expression's outcome; an evaluation error leaves the instance as it was. */
  datatype Trigger = True | NotTrue | EvalError

  datatype Tick = Tick(at: int, trigger: Trigger)

  datatype Timing = Timing(trueSince: Option<int>, lastEvent: Option<int>)

  datatype Policy = Policy(sustained: int, emitInterval: int)

  /** The instance after a tick, and whether it emits. */
  function Eval(p: Policy, t: Timing, tick: Tick): (Timing, bool)
  {
    match tick.trigger
    case EvalError => (t, false)
    case NotTrue => (t.(trueSince := None), false)
    case True =>
      var since := if t.trueSince.None? then tick.at else t.trueSince.value;
      var t' := t.(trueSince := Some(since));
      if tick.at - since < p.sustained then (t', false)
      else if t.lastEvent.None? || tick.at - t.lastEvent.value >= p.emitInterval
      then (t'.(lastEvent := Some(tick.at)), true)
      else (t', false)
  }

  class Instance {
    var trueSince: Option<int>
    var lastEvent: Option<int>

    ghost function View(): Timing
      reads this
    {
      Timing(trueSince, lastEvent)
    }

    constructor ()
      ensures View() == Timing(None, None)
    {
      trueSince, lastEvent := None, None;
    }

    method ShouldEmit(now: int, interval: int) returns (emit: bool)
      modifies this`lastEvent
      ensures emit == (old(lastEvent).None? || now - old(lastEvent).value >= interval)
      ensures lastEvent == if emit then Some(now) else old(lastEvent)
    {
      if lastEvent.None? || now - lastEvent.value >= interval {
        lastEvent := Some(now);
        return true;
      }
      return false;
    }

    method EvalInstance(p: Policy, tick: Tick) returns (emit: bool)
      modifies this
      ensures (View(), emit) == Eval(p, old(View()), tick)
    {
      if tick.trigger.EvalError? {
        return false;
      }
      if tick.trigger.NotTrue? {
        trueSince := None;
        return false;
      }
      if trueSince.None? {
        trueSince := Some(tick.at);
      }
      if tick.at - trueSince.value < p.sustained {
        return false;
      }
      emit := ShouldEmit(tick.at, p.emitInterval);
    }
  }

  // ----- runs -----

  function After(p: Policy, ticks: seq<Tick>): Timing
  {
    if ticks == [] then Timing(None, None)
    else Eval(p, After(p, ticks[..|ticks| - 1]), ticks[|ticks| - 1]).0
  }

  predicate Emits(p: Policy, ticks: seq<Tick>, i: int)
  {
    0 <= i < |ticks| && Eval(p, After(p, ticks[..i]), ticks[i]).1
  }

  lemma AfterStep(p: Policy, ticks: seq<Tick>, i: nat)
    requires i < |ticks|
    ensures After(p, ticks[..i + 1]) == Eval(p, After(p, ticks[..i]), ticks[i]).0
  {
    assert ticks[..i + 1][..i] == ticks[..i];
  }

  predicate InOrder(ticks: seq<Tick>) { forall i, j | 0 <= i < j < |ticks| :: ticks[i].at <= ticks[j].at }

  /** From tick `j` up to tick `i`, the trigger was true at `j` and never found untrue since. */
  predicate HeldSince(ticks: seq<Tick>, j: int, i: int)
  {
    && 0 <= j < i <= |ticks| && ticks[j].trigger.True?
    && forall k | j <= k < i :: !ticks[k].trigger.NotTrue?
  }

  /** A recorded start is the time of a tick since which the trigger has held. */
  lemma {:induction false} SinceMeaning(p: Policy, ticks: seq<Tick>, i: nat)
    requires i <= |ticks| && After(p, ticks[..i]).trueSince.Some?
    ensures exists j :: HeldSince(ticks, j, i) && ticks[j].at == After(p, ticks[..i]).trueSince.value
  {
    var last := i - 1;
    AfterStep(p, ticks, last);
    if After(p, ticks[..last]).trueSince.Some? {
      SinceMeaning(p, ticks, last);
      var j :| HeldSince(ticks, j, last) && ticks[j].at == After(p, ticks[..last]).trueSince.value;
      assert HeldSince(ticks, j, i);
    } else {
      assert HeldSince(ticks, last, i);
    }
  }

  /** No event fires before the trigger has held for `sustained`. */
  lemma NoEarlyEvent(p: Policy, ticks: seq<Tick>, i: nat)
    requires Emits(p, ticks, i)
    ensures exists j :: HeldSince(ticks, j, i + 1) && ticks[i].at - ticks[j].at >= p.sustained
  {
    AfterStep(p, ticks, i);
    SinceMeaning(p, ticks, i + 1);
  }

  /** The last event recorded is the time of the last emission. */
  lemma {:induction false} LastEventMeaning(p: Policy, ticks: seq<Tick>, i: nat)
    requires i <= |ticks|
    ensures After(p, ticks[..i]).lastEvent.Some? ==>
              exists j :: 0 <= j < i && Emits(p, ticks, j) && ticks[j].at == After(p, ticks[..i]).lastEvent.value &&
                          forall k | j < k < i :: !Emits(p, ticks, k)
    ensures After(p, ticks[..i]).lastEvent.None? ==> forall k | 0 <= k < i :: !Emits(p, ticks, k)
  {
    if i > 0 {
      AfterStep(p, ticks, i - 1);
      LastEventMeaning(p, ticks, i - 1);
      var before, now := After(p, ticks[..i - 1]).lastEvent, After(p, ticks[..i]).lastEvent;
      if Emits(p, ticks, i - 1) {
        assert now == Some(ticks[i - 1].at);
      } else {
        assert now == before;
      }
    }
  }

  /** Any two events are at least `emitInterval` apart. */
  lemma EventsSpaced(p: Policy, ticks: seq<Tick>, i: nat, k: nat)
    requires InOrder(ticks) && i < k && Emits(p, ticks, i) && Emits(p, ticks, k)
    ensures ticks[k].at - ticks[i].at >= p.emitInterval
  {
    LastEventMeaning(p, ticks, k);
    var j :| 0 <= j < k && Emits(p, ticks, j) && ticks[j].at == After(p, ticks[..k]).lastEvent.value &&
             forall m | j < m < k :: !Emits(p, ticks, m);
    assert i <= j;
    assert ticks[i].at <= ticks[j].at;
  }

  /** A trigger that holds has a recorded start, no later than any tick it has held since. */
  lemma {:induction false} SinceEarliest(p: Policy, ticks: seq<Tick>, j: nat, i: nat)
    requires InOrder(ticks) && HeldSince(ticks, j, i)
    ensures After(p, ticks[..i]).trueSince.Some? && After(p, ticks[..i]).trueSince.value <= ticks[j].at
  {
    var last := i - 1;
    AfterStep(p, ticks, last);
    if j < last {
      SinceEarliest(p, ticks, j, last);
    } else if After(p, ticks[..last]).trueSince.Some? {
      SinceMeaning(p, ticks, last);
    }
  }

  /** The trigger is true at tick `i` and has held for `sustained`. */
  ghost predicate Sustained(p: Policy, ticks: seq<Tick>, i: int)
  {
    && 0 <= i < |ticks| && ticks[i].trigger.True?
    && exists j :: HeldSince(ticks, j, i + 1) && ticks[i].at - ticks[j].at >= p.sustained
  }

  /** No emission before tick `i` is less than `emitInterval` earlier. */
  predicate Rested(p: Policy, ticks: seq<Tick>, i: int)
    requires 0 <= i < |ticks|
  {
    forall k | 0 <= k < i && Emits(p, ticks, k) :: ticks[i].at - ticks[k].at >= p.emitInterval
  }

  lemma SustainedIff(p: Policy, ticks: seq<Tick>, i: nat)
    requires InOrder(ticks) && i < |ticks| && ticks[i].trigger.True?
    ensures After(p, ticks[..i + 1]).trueSince.Some?
    ensures Sustained(p, ticks, i) <==> ticks[i].at - After(p, ticks[..i + 1]).trueSince.value >= p.sustained
  {
    AfterStep(p, ticks, i);
    SinceMeaning(p, ticks, i + 1);
    if j :| HeldSince(ticks, j, i + 1) && ticks[i].at - ticks[j].at >= p.sustained {
      SinceEarliest(p, ticks, j, i + 1);
    }
  }

  lemma RestedIff(p: Policy, ticks: seq<Tick>, i: nat)
    requires InOrder(ticks) && i < |ticks|
    ensures var last := After(p, ticks[..i]).lastEvent;
            Rested(p, ticks, i) <==> last.None? || ticks[i].at - last.value >= p.emitInterval
  {
    LastEventMeaning(p, ticks, i);
    var last := After(p, ticks[..i]).lastEvent;
    if last.Some? {
      var j :| 0 <= j < i && Emits(p, ticks, j) && ticks[j].at == last.value && forall k | j < k < i :: !Emits(p, ticks, k);
      forall k | 0 <= k < i && Emits(p, ticks, k) ensures ticks[k].at <= ticks[j].at {
        assert k <= j;
      }
    }
  }

  /** Exactly when a tick emits, over the whole history of ticks: the trigger is true, it has held
      for `sustained` (evaluation errors in between do not count against it), and no earlier
      emission is too recent. */
  lemma EmitsIff(p: Policy, ticks: seq<Tick>, i: nat)
    requires InOrder(ticks) && i < |ticks|
    ensures Emits(p, ticks, i) <==> Sustained(p, ticks, i) && Rested(p, ticks, i)
  {
    AfterStep(p, ticks, i);
    RestedIff(p, ticks, i);
    if ticks[i].trigger.True? {
      SustainedIff(p, ticks, i);
    }
  }

  /** The trigger is true at every tick after `i` up to and including `k`. */
  predicate TrueThrough(ticks: seq<Tick>, i: nat, k: nat)
  {
    k < |ticks| && forall m | i < m <= k :: ticks[m].trigger.True?
  }

  /** Once sustained, a trigger that stays true stays sustained. */
  lemma {:induction false} StaysSustained(p: Policy, ticks: seq<Tick>, i: nat, k: nat)
    requires InOrder(ticks) && i <= k && TrueThrough(ticks, i, k) && Emits(p, ticks, i)
    ensures After(p, ticks[..k + 1]).trueSince.Some?
    ensures ticks[k].at - After(p, ticks[..k + 1]).trueSince.value >= p.sustained
  {
    AfterStep(p, ticks, k);
    if i < k {
      StaysSustained(p, ticks, i, k - 1);
      assert ticks[k - 1].at <= ticks[k].at;
    }
  }

  /** While the trigger stays true after an event, another event comes as soon as a tick is
      `emitInterval` later. */
  lemma NextEventDue(p: Policy, ticks: seq<Tick>, i: nat, k: nat)
    requires InOrder(ticks) && i < k && TrueThrough(ticks, i, k) && Emits(p, ticks, i)
    requires ticks[k].at - ticks[i].at >= p.emitInterval
    ensures exists j :: i < j <= k && Emits(p, ticks, j)
  {
    if forall m | i < m < k :: !Emits(p, ticks, m) {
      LastEventIs(p, ticks, i, k);
      StaysSustained(p, ticks, i, k - 1);
      assert ticks[k - 1].at <= ticks[k].at;
      assert Emits(p, ticks, k);
    }
  }

  lemma LastEventIs(p: Policy, ticks: seq<Tick>, i: nat, k: nat)
    requires i < k <= |ticks| && Emits(p, ticks, i) && forall m | i < m < k :: !Emits(p, ticks, m)
    ensures After(p, ticks[..k]).lastEvent == Some(ticks[i].at)
  {
    LastEventMeaning(p, ticks, k);
  }

  /** Ticks are at most `d` apart. */
  predicate Paced(ticks: seq<Tick>, d: int)
  {
    forall m | 0 < m < |ticks| :: ticks[m].at - ticks[m - 1].at <= d
  }

  /** The latest event at or before tick `k`. */
  predicate LatestEvent(p: Policy, ticks: seq<Tick>, j: nat, k: nat)
  {
    j <= k && Emits(p, ticks, j) && forall m | j < m <= k :: !Emits(p, ticks, m)
  }

  /** While the trigger stays true, the next tick after any tick is less than
      `emitInterval + d` past the latest event. */
  lemma EventNeverStale(p: Policy, ticks: seq<Tick>, d: int, j: nat, k: nat)
    requires InOrder(ticks) && Paced(ticks, d) && p.emitInterval > 0
    requires LatestEvent(p, ticks, j, k) && k + 1 < |ticks| && TrueThrough(ticks, j, k)
    ensures ticks[k].at - ticks[j].at < p.emitInterval
    ensures ticks[k + 1].at - ticks[j].at < p.emitInterval + d
  {
    if j < k && ticks[k].at - ticks[j].at >= p.emitInterval {
      NextEventDue(p, ticks, j, k);
    }
    assert ticks[k + 1].at - ticks[(k + 1) - 1].at <= d;
  }

  /** So events that follow one another while it holds are less than `emitInterval + d` apart. */
  lemma EventsNotTooFar(p: Policy, ticks: seq<Tick>, d: int, j: nat, k: nat)
    requires InOrder(ticks) && Paced(ticks, d) && p.emitInterval > 0
    requires j < k && LatestEvent(p, ticks, j, k - 1) && Emits(p, ticks, k) && TrueThrough(ticks, j, k)
    ensures p.emitInterval <= ticks[k].at - ticks[j].at < p.emitInterval + d
  {
    EventsSpaced(p, ticks, j, k);
    EventNeverStale(p, ticks, d, j, k - 1);
  }

  /** A compiled rule refreshes at half its lease time, but no faster than its finest ring. */
  function EmitInterval(ttl: int, fineResolution: int): (i: int)
    requires ttl > 0
  {
    if ttl / 2 < fineResolution then fineResolution else ttl / 2
  }

  /** With refresh on and events delivered at once, the lease set by the latest event outlives
      the next tick: a sustained finding never loses its lease. */
  lemma LeaseNeverLapses(sustained: int, ttl: int, fineResolution: int, ticks: seq<Tick>, d: int, j: nat, k: nat)
    requires ttl > 0 && fineResolution > 0 && EmitInterval(ttl, fineResolution) + d <= ttl
    requires InOrder(ticks) && Paced(ticks, d)
    requires var p := Policy(sustained, EmitInterval(ttl, fineResolution));
             LatestEvent(p, ticks, j, k) && k + 1 < |ticks| && TrueThrough(ticks, j, k)
    ensures ticks[k + 1].at < ticks[j].at + ttl
  {
    EventNeverStale(Policy(sustained, EmitInterval(ttl, fineResolution)), ticks, d, j, k);
  }
}
