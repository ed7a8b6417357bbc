/**
  A finding and its lease together: at every tick the controller first drops what is due, then
  the instance is evaluated, and its event, if any, reaches the controller at once. A controller
  that wakes up between ticks as well drops nothing that it would not drop at the next tick.
 */
module Sustained {
  import opened Arith
  import opened FlowSpec
  import opened ManagerState
  import opened Findings
  import L = Leases

  function Unexpired(l: Option<int>, now: int): Option<int> { if l.Some? && now < l.value then l else None }

  /** When the finding's lease ends, after a run of ticks. */
  function LeaseAfter(p: Policy, ev: L.DetectorEvent, dryRun: bool, ticks: seq<Tick>): Option<int>
  {
    if ticks == [] then None
    else
      var now := ticks[|ticks| - 1].at;
      var kept := Unexpired(LeaseAfter(p, ev, dryRun, ticks[..|ticks| - 1]), now);
      if !Emits(p, ticks, |ticks| - 1) || dryRun || ev.ttl <= 0 then kept
      else if kept.Some? && !ev.refresh then kept
      else Some(now + ev.ttl)
  }

  /** What is sent for the finding's rule. */
  function Sends(p: Policy, ev: L.DetectorEvent, dryRun: bool, ticks: seq<Tick>): seq<Update>
  {
    if ticks == [] then []
    else
      var init, now := ticks[..|ticks| - 1], ticks[|ticks| - 1].at;
      var before := LeaseAfter(p, ev, dryRun, init);
      var kept := Unexpired(before, now);
      Sends(p, ev, dryRun, init)
      + (if before.Some? && kept.None? then [Withdraw(L.DETECTOR, Some(ev.rule))] else [])
      + (if kept.None? && Emits(p, ticks, |ticks| - 1) && !dryRun && ev.ttl > 0
         then [Announce(L.DETECTOR, Some(ev.rule))] else [])
  }

  // ----- the updates of one route -----

  predicate OfRoute(u: Update, rid: RouteId)
  {
    (u.Announce? || u.Withdraw?) && u.rule.Some? && RouteIdentity(u.rule.value) == rid
  }

  function Mine(us: seq<Update>, rid: RouteId): seq<Update>
  {
    if us == [] then []
    else Mine(us[..|us| - 1], rid) + (if OfRoute(us[|us| - 1], rid) then [us[|us| - 1]] else [])
  }

  lemma {:induction false} MineConcat(a: seq<Update>, b: seq<Update>, rid: RouteId)
    ensures Mine(a + b, rid) == Mine(a, rid) + Mine(b, rid)
  {
    if b == [] {
      assert a + b == a;
    } else {
      MineConcat(a, b[..|b| - 1], rid);
      assert (a + b)[..|a + b| - 1] == a + b[..|b| - 1];
    }
  }

  lemma MineOne(u: Update, rid: RouteId)
    ensures Mine([u], rid) == if OfRoute(u, rid) then [u] else []
  {
    assert [u][..0] == [];
  }

  lemma {:induction false} NoneMine(us: seq<Update>, rid: RouteId)
    requires forall u | u in us :: !OfRoute(u, rid)
    ensures Mine(us, rid) == []
  {
    if us != [] {
      assert forall u | u in us[..|us| - 1] :: u in us;
      NoneMine(us[..|us| - 1], rid);
    }
  }

  /** Of the leases dropped, one at most is of this route. */
  lemma {:induction false} MineWithdrawals(owner: RouteId -> L.EventID, leases: map<L.EventID, L.Lease>,
                                           ids: seq<L.EventID>, of: set<L.EventID>, rid: RouteId)
    requires L.Owned(owner, leases) && of <= leases.Keys && L.Lists(ids, of)
    requires owner(rid) in leases ==> RouteIdentity(leases[owner(rid)].rule) == rid
    ensures Mine(L.Withdrawals(leases, ids), rid) ==
            if owner(rid) in of then [Withdraw(L.DETECTOR, Some(leases[owner(rid)].rule))] else []
  {
    if ids != [] {
      var last := ids[|ids| - 1];
      var init, us := ids[..|ids| - 1], L.Withdrawals(leases, ids);
      assert last in of;
      assert us[..|us| - 1] == L.Withdrawals(leases, init);
      assert L.Lists(init, of - {last});
      MineWithdrawals(owner, leases, init, of - {last}, rid);
      assert OfRoute(us[|us| - 1], rid) <==> last == owner(rid);
    }
  }

  // ----- the two objects -----

  /** The event's lease, and the rule it is for. */
  ghost predicate Holds(leases: map<L.EventID, L.Lease>, ev: L.DetectorEvent, ends: Option<int>)
  {
    if ends.None? then ev.id !in leases
    else ev.id in leases && leases[ev.id] == L.Lease(ev.rule, ends.value)
  }

  /** Drops the leases that are due. */
  method DropDue(c: L.Controller, ev: L.DetectorEvent, now: int, ghost ends: Option<int>)
    requires c.Valid() && c.owner(RouteIdentity(ev.rule)) == ev.id && Holds(c.leases, ev, ends)
    modifies c`leases, c`sent
    ensures c.Valid() && Holds(c.leases, ev, Unexpired(ends, now))
    ensures Mine(c.sent, RouteIdentity(ev.rule)) ==
            Mine(old(c.sent), RouteIdentity(ev.rule)) +
            (if ends.Some? && Unexpired(ends, now).None? then [Withdraw(L.DETECTOR, Some(ev.rule))] else [])
  {
    ghost var was, before := c.leases, c.sent;
    c.Expire(now);
    ghost var due := L.Due(was, now);
    ghost var ids :| L.Lists(ids, due) && c.sent == before + L.Withdrawals(was, ids);
    MineConcat(before, L.Withdrawals(was, ids), RouteIdentity(ev.rule));
    MineWithdrawals(c.owner, was, ids, due, RouteIdentity(ev.rule));
  }

  /** Delivers the event. */
  method Deliver(c: L.Controller, ev: L.DetectorEvent, now: int, ghost kept: Option<int>)
    requires c.Valid() && c.owner(RouteIdentity(ev.rule)) == ev.id && Holds(c.leases, ev, kept)
    modifies c`leases, c`sent
    ensures c.Valid()
    ensures Holds(c.leases, ev, if c.dryRun || ev.ttl <= 0 || (kept.Some? && !ev.refresh) then kept else Some(now + ev.ttl))
    ensures Mine(c.sent, RouteIdentity(ev.rule)) ==
            Mine(old(c.sent), RouteIdentity(ev.rule)) +
            (if kept.None? && !c.dryRun && ev.ttl > 0 then [Announce(L.DETECTOR, Some(ev.rule))] else [])
  {
    ghost var before, u := c.sent, Announce(L.DETECTOR, Some(ev.rule));
    ghost var more := if kept.None? && !c.dryRun && ev.ttl > 0 then [u] else [];
    c.ApplyEvent(ev, now);
    assert c.sent == before + more;
    MineConcat(before, more, RouteIdentity(ev.rule));
    MineOne(u, RouteIdentity(ev.rule));
  }

  /** Events of other findings that a tick delivers, before and after the finding's own. */
  datatype Others = Others(before: seq<L.DetectorEvent>, after: seq<L.DetectorEvent>)

  /** Events with other ids, whose rule texts are their own. */
  ghost predicate OfOthers(owner: RouteId -> L.EventID, ev: L.DetectorEvent, evs: seq<L.DetectorEvent>)
  {
    forall e | e in evs :: e.id != ev.id && owner(RouteIdentity(e.rule)) == e.id
  }

  /** Delivers events of other findings. */
  method DeliverOthers(c: L.Controller, ev: L.DetectorEvent, evs: seq<L.DetectorEvent>, now: int, ghost ends: Option<int>)
    requires c.Valid() && c.owner(RouteIdentity(ev.rule)) == ev.id && Holds(c.leases, ev, ends)
    requires OfOthers(c.owner, ev, evs)
    modifies c`leases, c`sent
    ensures c.Valid() && Holds(c.leases, ev, ends)
    ensures Mine(c.sent, RouteIdentity(ev.rule)) == Mine(old(c.sent), RouteIdentity(ev.rule))
  {
    for i := 0 to |evs|
      invariant c.Valid() && Holds(c.leases, ev, ends)
      invariant Mine(c.sent, RouteIdentity(ev.rule)) == Mine(old(c.sent), RouteIdentity(ev.rule))
    {
      assert evs[i] in evs;
      DeliverOther(c, ev, evs[i], now, ends);
    }
  }

  method DeliverOther(c: L.Controller, ev: L.DetectorEvent, e: L.DetectorEvent, now: int, ghost ends: Option<int>)
    requires c.Valid() && c.owner(RouteIdentity(ev.rule)) == ev.id && Holds(c.leases, ev, ends)
    requires e.id != ev.id && c.owner(RouteIdentity(e.rule)) == e.id
    modifies c`leases, c`sent
    ensures c.Valid() && Holds(c.leases, ev, ends)
    ensures Mine(c.sent, RouteIdentity(ev.rule)) == Mine(old(c.sent), RouteIdentity(ev.rule))
  {
    ghost var was, before := c.leases, c.sent;
    c.ApplyEvent(e, now);
    ghost var more := c.sent[|before|..];
    assert c.sent == before + more;
    assert forall u | u in more :: !OfRoute(u, RouteIdentity(ev.rule)) by {
      assert e.id in was ==> c.owner(RouteIdentity(was[e.id].rule)) == e.id;
    }
    MineConcat(before, more, RouteIdentity(ev.rule));
    NoneMine(more, RouteIdentity(ev.rule));
  }

  /** The state both objects are in after the first `k` ticks. */
  ghost predicate At(inst: Instance, c: L.Controller, p: Policy, ev: L.DetectorEvent, ticks: seq<Tick>, k: nat,
                     before: seq<Update>)
    requires k <= |ticks|
    reads inst, c
  {
    && inst.View() == After(p, ticks[..k]) && c.Valid()
    && Holds(c.leases, ev, LeaseAfter(p, ev, c.dryRun, ticks[..k]))
    && Mine(c.sent, RouteIdentity(ev.rule)) == before + Sends(p, ev, c.dryRun, ticks[..k])
  }

  lemma Step(p: Policy, ev: L.DetectorEvent, dryRun: bool, ticks: seq<Tick>, m: nat)
    requires m < |ticks|
    ensures var before, now := LeaseAfter(p, ev, dryRun, ticks[..m]), ticks[m].at;
            var kept := Unexpired(before, now);
            && LeaseAfter(p, ev, dryRun, ticks[..m + 1]) ==
               (if !Emits(p, ticks, m) || dryRun || ev.ttl <= 0 || (kept.Some? && !ev.refresh) then kept else Some(now + ev.ttl))
            && Sends(p, ev, dryRun, ticks[..m + 1]) ==
               Sends(p, ev, dryRun, ticks[..m])
               + (if before.Some? && kept.None? then [Withdraw(L.DETECTOR, Some(ev.rule))] else [])
               + (if kept.None? && Emits(p, ticks, m) && !dryRun && ev.ttl > 0
                  then [Announce(L.DETECTOR, Some(ev.rule))] else [])
  {
    assert ticks[..m + 1][..m] == ticks[..m];
  }

  lemma Reassociate(a: seq<Update>, b: seq<Update>, c: seq<Update>, d: seq<Update>)
    ensures (a + b) + c + d == a + (b + c + d)
  {
  }

  /** Drops what is due, evaluates the instance and delivers its event and those of others. */
  method Advance(inst: Instance, c: L.Controller, p: Policy, ev: L.DetectorEvent, tick: Tick, others: Others,
                 ghost ends: Option<int>)
    returns (emit: bool)
    requires c.Valid() && c.owner(RouteIdentity(ev.rule)) == ev.id && Holds(c.leases, ev, ends)
    requires OfOthers(c.owner, ev, others.before) && OfOthers(c.owner, ev, others.after)
    modifies inst, c`leases, c`sent
    ensures (inst.View(), emit) == Eval(p, old(inst.View()), tick) && c.Valid()
    ensures var kept := Unexpired(ends, tick.at);
            && Holds(c.leases, ev, if !emit || c.dryRun || ev.ttl <= 0 || (kept.Some? && !ev.refresh)
                                   then kept else Some(tick.at + ev.ttl))
            && Mine(c.sent, RouteIdentity(ev.rule)) ==
               Mine(old(c.sent), RouteIdentity(ev.rule))
               + (if ends.Some? && kept.None? then [Withdraw(L.DETECTOR, Some(ev.rule))] else [])
               + (if kept.None? && emit && !c.dryRun && ev.ttl > 0 then [Announce(L.DETECTOR, Some(ev.rule))] else [])
  {
    DropDue(c, ev, tick.at, ends);
    ghost var kept := Unexpired(ends, tick.at);
    DeliverOthers(c, ev, others.before, tick.at, kept);
    emit := inst.EvalInstance(p, tick);
    if emit {
      Deliver(c, ev, tick.at, kept);
    }
    DeliverOthers(c, ev, others.after, tick.at,
                  if !emit || c.dryRun || ev.ttl <= 0 || (kept.Some? && !ev.refresh) then kept else Some(tick.at + ev.ttl));
  }

  /** One tick of both. */
  method OneTick(inst: Instance, c: L.Controller, p: Policy, ev: L.DetectorEvent, ticks: seq<Tick>, k: nat,
                 others: Others, ghost before: seq<Update>)
    requires OfOthers(c.owner, ev, others.before) && OfOthers(c.owner, ev, others.after)
    requires k < |ticks| && c.owner(RouteIdentity(ev.rule)) == ev.id && At(inst, c, p, ev, ticks, k, before)
    modifies inst, c`leases, c`sent
    ensures At(inst, c, p, ev, ticks, k + 1, before)
  {
    ghost var ends := LeaseAfter(p, ev, c.dryRun, ticks[..k]);
    AfterStep(p, ticks, k);
    Step(p, ev, c.dryRun, ticks, k);
    ghost var kept := Unexpired(ends, ticks[k].at);
    Reassociate(before, Sends(p, ev, c.dryRun, ticks[..k]),
                if ends.Some? && kept.None? then [Withdraw(L.DETECTOR, Some(ev.rule))] else [],
                if kept.None? && Emits(p, ticks, k) && !c.dryRun && ev.ttl > 0
                then [Announce(L.DETECTOR, Some(ev.rule))] else []);
    var emit := Advance(inst, c, p, ev, ticks[k], others, ends);
  }

  /** A whole run of the instance and the controller: the lease and what was sent for the rule
      are as `LeaseAfter` and `Sends` say, whatever other leases there are and whatever events of
      other findings each tick delivers. */
  method RunTicks(inst: Instance, c: L.Controller, p: Policy, ev: L.DetectorEvent, ticks: seq<Tick>, others: seq<Others>)
    requires |others| == |ticks|
    requires forall o | o in others :: OfOthers(c.owner, ev, o.before) && OfOthers(c.owner, ev, o.after)
    requires inst.View() == Timing(None, None)
    requires c.Valid() && c.owner(RouteIdentity(ev.rule)) == ev.id && ev.id !in c.leases
    modifies inst, c`leases, c`sent
    ensures inst.View() == After(p, ticks)
    ensures c.Valid() && Holds(c.leases, ev, LeaseAfter(p, ev, c.dryRun, ticks))
    ensures Mine(c.sent, RouteIdentity(ev.rule)) ==
            Mine(old(c.sent), RouteIdentity(ev.rule)) + Sends(p, ev, c.dryRun, ticks)
  {
    ghost var before := Mine(c.sent, RouteIdentity(ev.rule));
    for k := 0 to |ticks|
      invariant At(inst, c, p, ev, ticks, k, before)
    {
      assert others[k] in others;
      OneTick(inst, c, p, ev, ticks, k, others[k], before);
    }
    assert ticks[..|ticks|] == ticks;
  }

  // ----- sustained findings -----

  /** After tick `m` the lease is the one set by the latest event, at tick `e`. */
  predicate LeasedBy(p: Policy, ev: L.DetectorEvent, ticks: seq<Tick>, e: nat, m: nat)
  {
    m < |ticks| && LatestEvent(p, ticks, e, m) && LeaseAfter(p, ev, false, ticks[..m + 1]) == Some(ticks[e].at + ev.ttl)
  }

  /** From an event on, at every tick for as long as the trigger holds, there is a lease, and it
      is the one the latest event set. */
  lemma {:induction false} LeaseHeld(p: Policy, ev: L.DetectorEvent, ticks: seq<Tick>, d: int, i: nat, m: nat)
    requires ev.refresh && 0 < p.emitInterval && 0 < ev.ttl && p.emitInterval + d <= ev.ttl
    requires InOrder(ticks) && Paced(ticks, d) && i <= m && Emits(p, ticks, i) && TrueThrough(ticks, i, m)
    ensures exists e :: i <= e && LeasedBy(p, ev, ticks, e, m)
  {
    if m == i {
      Step(p, ev, false, ticks, m);
      assert LeasedBy(p, ev, ticks, m, m);
    } else {
      LeaseHeld(p, ev, ticks, d, i, m - 1);
      var e :| i <= e && LeasedBy(p, ev, ticks, e, m - 1);
      LeaseKept(p, ev, ticks, d, e, m);
    }
  }

  /** A tick before the lease ends. */
  lemma StepKept(p: Policy, ev: L.DetectorEvent, ticks: seq<Tick>, m: nat, end: int)
    requires m < |ticks| && LeaseAfter(p, ev, false, ticks[..m]) == Some(end) && ticks[m].at < end && ev.refresh && 0 < ev.ttl
    ensures LeaseAfter(p, ev, false, ticks[..m + 1]) == Some(if Emits(p, ticks, m) then ticks[m].at + ev.ttl else end)
    ensures Sends(p, ev, false, ticks[..m + 1]) == Sends(p, ev, false, ticks[..m])
  {
    Step(p, ev, false, ticks, m);
  }

  lemma LatestMoves(p: Policy, ticks: seq<Tick>, e: nat, m: nat)
    requires 0 < m < |ticks| && LatestEvent(p, ticks, e, m - 1)
    ensures LatestEvent(p, ticks, if Emits(p, ticks, m) then m else e, m)
  {
  }

  /** One more tick: the lease is not due, stays or moves on, and nothing is sent. */
  lemma LeaseKept(p: Policy, ev: L.DetectorEvent, ticks: seq<Tick>, d: int, e: nat, m: nat)
    requires ev.refresh && 0 < p.emitInterval && 0 < ev.ttl && p.emitInterval + d <= ev.ttl && 0 < m < |ticks|
    requires InOrder(ticks) && Paced(ticks, d) && LeasedBy(p, ev, ticks, e, m - 1) && TrueThrough(ticks, e, m - 1)
    ensures LeasedBy(p, ev, ticks, if Emits(p, ticks, m) then m else e, m)
    ensures Sends(p, ev, false, ticks[..m + 1]) == Sends(p, ev, false, ticks[..m])
  {
    assert ticks[m].at < ticks[e].at + ev.ttl by {
      EventNeverStale(p, ticks, d, e, m - 1);
    }
    assert ticks[..(m - 1) + 1] == ticks[..m];
    StepKept(p, ev, ticks, m, ticks[e].at + ev.ttl);
    LatestMoves(p, ticks, e, m);
  }

  lemma NextSendsNothing(p: Policy, ev: L.DetectorEvent, ticks: seq<Tick>, d: int, i: nat, m: nat)
    requires ev.refresh && 0 < p.emitInterval && 0 < ev.ttl && p.emitInterval + d <= ev.ttl
    requires InOrder(ticks) && Paced(ticks, d) && i < m && Emits(p, ticks, i) && TrueThrough(ticks, i, m)
    ensures Sends(p, ev, false, ticks[..m + 1]) == Sends(p, ev, false, ticks[..m])
  {
    LeaseHeld(p, ev, ticks, d, i, m - 1);
    var e :| i <= e && LeasedBy(p, ev, ticks, e, m - 1);
    LeaseKept(p, ev, ticks, d, e, m);
  }

  /** And nothing more is sent: the rule is neither withdrawn nor announced again. */
  lemma {:induction false} NothingSent(p: Policy, ev: L.DetectorEvent, ticks: seq<Tick>, d: int, i: nat, m: nat)
    requires ev.refresh && 0 < p.emitInterval && 0 < ev.ttl && p.emitInterval + d <= ev.ttl
    requires InOrder(ticks) && Paced(ticks, d) && i <= m && Emits(p, ticks, i) && TrueThrough(ticks, i, m)
    ensures Sends(p, ev, false, ticks[..m + 1]) == Sends(p, ev, false, ticks[..i + 1])
  {
    if i < m {
      NothingSent(p, ev, ticks, d, i, m - 1);
      NextSendsNothing(p, ev, ticks, d, i, m);
      assert ticks[..(m - 1) + 1] == ticks[..m];
    }
  }

  /** The rule stays put through every sustained finding at this pace. */
  ghost predicate NeverLapses(p: Policy, ev: L.DetectorEvent, d: int)
  {
    forall ticks, i: nat, m: nat | InOrder(ticks) && Paced(ticks, d) && i <= m && Emits(p, ticks, i) && TrueThrough(ticks, i, m) ::
      Sends(p, ev, false, ticks[..m + 1]) == Sends(p, ev, false, ticks[..i + 1])
  }

  /** True at every nanosecond up to just before the second event is due or the lease ends, and
      once more `d` later. */
  function Lapse(p: Policy, ttl: int, d: int): (ticks: seq<Tick>)
    requires p.sustained >= 0 && p.emitInterval > 0 && ttl > 0
    ensures |ticks| == p.sustained + Min(p.emitInterval, ttl) + 1
  {
    var n := p.sustained + Min(p.emitInterval, ttl);
    seq(n, k => Tick(k, True)) + [Tick(n - 1 + d, True)]
  }

  /** The instance along that run: one event, at `sustained`. */
  lemma {:induction false} LapseTiming(p: Policy, ev: L.DetectorEvent, d: int, k: nat)
    requires p.sustained >= 0 && p.emitInterval > 0 && ev.ttl > 0 && k < |Lapse(p, ev.ttl, d)|
    ensures After(p, Lapse(p, ev.ttl, d)[..k]) ==
            Timing(if k == 0 then None else Some(0), if k <= p.sustained then None else Some(p.sustained))
    ensures k < |Lapse(p, ev.ttl, d)| - 1 ==> (Emits(p, Lapse(p, ev.ttl, d), k) <==> k == p.sustained)
  {
    if k > 0 {
      LapseTiming(p, ev, d, k - 1);
      AfterStep(p, Lapse(p, ev.ttl, d), k - 1);
    }
  }

  /** And its lease: set at `sustained`, untouched until the last tick. */
  lemma {:induction false} LapseLease(p: Policy, ev: L.DetectorEvent, d: int, k: nat)
    requires p.sustained >= 0 && p.emitInterval > 0 && ev.ttl > 0 && k < |Lapse(p, ev.ttl, d)|
    ensures LeaseAfter(p, ev, false, Lapse(p, ev.ttl, d)[..k]) == if k <= p.sustained then None else Some(p.sustained + ev.ttl)
  {
    if k > 0 {
      var ticks := Lapse(p, ev.ttl, d);
      LapseLease(p, ev, d, k - 1);
      LapseTiming(p, ev, d, k - 1);
      Step(p, ev, false, ticks, k - 1);
      assert ticks[k - 1].at == k - 1;
      assert ticks[..(k - 1) + 1] == ticks[..k];
    }
  }

  lemma LapsePaced(p: Policy, ttl: int, d: int)
    requires p.sustained >= 0 && p.emitInterval > 0 && ttl > 0 && d > 0
    ensures InOrder(Lapse(p, ttl, d)) && Paced(Lapse(p, ttl, d), d)
    ensures forall m | 0 <= m < |Lapse(p, ttl, d)| :: Lapse(p, ttl, d)[m].trigger.True?
  {
  }

  lemma LapseShape(p: Policy, ev: L.DetectorEvent, d: int)
    requires p.sustained >= 0 && p.emitInterval > 0 && ev.ttl > 0 && d > 0
    ensures var ticks := Lapse(p, ev.ttl, d);
            InOrder(ticks) && Paced(ticks, d) && Emits(p, ticks, p.sustained) && TrueThrough(ticks, p.sustained, |ticks| - 1)
  {
    LapsePaced(p, ev.ttl, d);
    LapseTiming(p, ev, d, p.sustained);
  }

  /** With refresh on, no sustained finding ever loses its rule if and only if an event interval
      and a tick fit within the lease time. */
  lemma NeverLapsesIff(p: Policy, ev: L.DetectorEvent, d: int)
    requires ev.refresh && p.sustained >= 0 && 0 < p.emitInterval && 0 < ev.ttl && 0 < d
    ensures NeverLapses(p, ev, d) <==> p.emitInterval + d <= ev.ttl
  {
    if p.emitInterval + d <= ev.ttl {
      forall ticks, i: nat, m: nat | InOrder(ticks) && Paced(ticks, d) && i <= m && Emits(p, ticks, i) && TrueThrough(ticks, i, m)
        ensures Sends(p, ev, false, ticks[..m + 1]) == Sends(p, ev, false, ticks[..i + 1])
      {
        NothingSent(p, ev, ticks, d, i, m);
      }
    } else {
      LapseSends(p, ev, d);
    }
  }

  /** At the last tick of that run the lease is over and its rule withdrawn. */
  lemma LapseSends(p: Policy, ev: L.DetectorEvent, d: int)
    requires p.sustained >= 0 && 0 < p.emitInterval && 0 < ev.ttl && 0 < d && p.emitInterval + d > ev.ttl
    ensures !NeverLapses(p, ev, d)
  {
    var ticks := Lapse(p, ev.ttl, d);
    var m := |ticks| - 1;
    LapseShape(p, ev, d);
    LapseLease(p, ev, d, m);
    Step(p, ev, false, ticks, m);
    SendsGrow(p, ev, ticks, p.sustained + 1, m);
    assert |Sends(p, ev, false, ticks[..m + 1])| > |Sends(p, ev, false, ticks[..m])|;
    assert Sends(p, ev, false, ticks[..m + 1]) != Sends(p, ev, false, ticks[..p.sustained + 1]);
  }

  lemma SendsGrowStep(p: Policy, ev: L.DetectorEvent, ticks: seq<Tick>, m: nat)
    requires m < |ticks|
    ensures |Sends(p, ev, false, ticks[..m])| <= |Sends(p, ev, false, ticks[..m + 1])|
  {
    Step(p, ev, false, ticks, m);
  }

  lemma {:induction false} SendsGrow(p: Policy, ev: L.DetectorEvent, ticks: seq<Tick>, i: nat, m: nat)
    requires i <= m <= |ticks|
    ensures |Sends(p, ev, false, ticks[..i])| <= |Sends(p, ev, false, ticks[..m])|
    decreases m - i
  {
    if i < m {
      SendsGrow(p, ev, ticks, i, m - 1);
      SendsGrowStep(p, ev, ticks, m - 1);
      assert (m - 1) + 1 == m;
    }
  }

  /** For a compiled rule, whose event interval is half its lease time but no shorter than its
      finest ring. */
  lemma CompiledNeverLapsesIff(sustained: int, fineResolution: int, ev: L.DetectorEvent, d: int)
    requires ev.refresh && sustained >= 0 && fineResolution > 0 && 0 < ev.ttl && 0 < d
    ensures NeverLapses(Policy(sustained, EmitInterval(ev.ttl, fineResolution)), ev, d) <==>
            ev.ttl / 2 + d <= ev.ttl && fineResolution + d <= ev.ttl
  {
    NeverLapsesIff(Policy(sustained, EmitInterval(ev.ttl, fineResolution)), ev, d);
  }
}
