/**
  The lease controller: detector events become announcements with an expiry, refreshed by later
  events and withdrawn when due. What it has sent, replayed on the manager's plain map, gives
  the detector's session exactly the entries of its current leases.
 */
module Leases {
  import opened FlowSpec
  import opened Acl
  import opened ManagerState
  import E = EndToEnd
  import T = Translate

  type EventID = string

  /** Times and durations are in nanoseconds. */
  datatype DetectorEvent = DetectorEvent(id: EventID, rule: Rule, ttl: int, refresh: bool)

  datatype Lease = Lease(rule: Rule, expiresAt: int)

  const DETECTOR: SessionID := "detector"
  const HOUR: int := 3_600_000_000_000

  /** Each route identity belongs to one event, as `owner` tells. */
  ghost predicate Owned(owner: RouteId -> EventID, leases: map<EventID, Lease>)
  {
    forall id | id in leases :: owner(RouteIdentity(leases[id].rule)) == id
  }

  ghost function AclOf(r: Rule): Option<ACLRule>
  {
    match T.Translate(r)
    case Ok(acl) => Some(acl)
    case Err(_) => None
  }

  /** The entry the current leases call for on a route. */
  ghost function LeasedEntry(owner: RouteId -> EventID, leases: map<EventID, Lease>, rid: RouteId): Option<ACLRule>
  {
    if owner(rid) in leases && RouteIdentity(leases[owner(rid)].rule) == rid
    then AclOf(leases[owner(rid)].rule) else None
  }

  /** Replaying what was sent gives the detector's session the leased entries and no others. */
  ghost predicate Mirrors(owner: RouteId -> EventID, leases: map<EventID, Lease>, sent: seq<Update>)
  {
    && Owned(owner, leases)
    && forall rid :: Lookup(E.TableOf(sent), DETECTOR, rid) == LeasedEntry(owner, leases, rid)
  }

  lemma SentOne(sent: seq<Update>, u: Update)
    ensures E.TableOf(sent + [u]) == TableStep(E.TableOf(sent), u)
  {
    assert (sent + [u])[..|sent|] == sent;
  }

  /** Withdrawing a lease's rule and dropping the lease go together. */
  lemma MirrorsWithdraw(owner: RouteId -> EventID, leases: map<EventID, Lease>, sent: seq<Update>, id: EventID)
    requires Mirrors(owner, leases, sent) && id in leases
    ensures Mirrors(owner, leases - {id}, sent + [Withdraw(DETECTOR, Some(leases[id].rule))])
  {
    var u := Withdraw(DETECTOR, Some(leases[id].rule));
    SentOne(sent, u);
    forall rid ensures Lookup(E.TableOf(sent + [u]), DETECTOR, rid) == LeasedEntry(owner, leases - {id}, rid) {
      E.TableStepLookup(E.TableOf(sent), u, DETECTOR, rid);
      assert Lookup(E.TableOf(sent), DETECTOR, rid) == LeasedEntry(owner, leases, rid);
    }
  }

  lemma LeasedAfterAdd(owner: RouteId -> EventID, leases: map<EventID, Lease>, id: EventID, l: Lease, rid: RouteId)
    requires id !in leases && owner(RouteIdentity(l.rule)) == id
    ensures LeasedEntry(owner, leases[id := l], rid) ==
            if rid == RouteIdentity(l.rule) then AclOf(l.rule) else LeasedEntry(owner, leases, rid)
  {
  }

  lemma AnnouncedLookup(t: Table, r: Rule, rid: RouteId)
    ensures Lookup(TableStep(t, Announce(DETECTOR, Some(r))), DETECTOR, rid) ==
            if rid == RouteIdentity(r) then AclOf(r) else Lookup(t, DETECTOR, rid)
  {
    E.TableStepLookup(t, Announce(DETECTOR, Some(r)), DETECTOR, rid);
  }

  /** Announcing a rule and adding its lease go together, once no lease holds the event. */
  lemma MirrorsAnnounce(owner: RouteId -> EventID, leases: map<EventID, Lease>, sent: seq<Update>, id: EventID, l: Lease)
    requires Mirrors(owner, leases, sent) && id !in leases && owner(RouteIdentity(l.rule)) == id
    ensures Mirrors(owner, leases[id := l], sent + [Announce(DETECTOR, Some(l.rule))])
  {
    var u := Announce(DETECTOR, Some(l.rule));
    SentOne(sent, u);
    forall rid ensures Lookup(E.TableOf(sent + [u]), DETECTOR, rid) == LeasedEntry(owner, leases[id := l], rid) {
      AnnouncedLookup(E.TableOf(sent), l.rule, rid);
      LeasedAfterAdd(owner, leases, id, l, rid);
      assert Lookup(E.TableOf(sent), DETECTOR, rid) == LeasedEntry(owner, leases, rid);
    }
  }

  lemma NothingLeased(owner: RouteId -> EventID, sent: seq<Update>)
    requires Mirrors(owner, map[], sent)
    ensures forall rid :: Lookup(E.TableOf(sent), DETECTOR, rid) == None
  {
    forall rid ensures Lookup(E.TableOf(sent), DETECTOR, rid) == None {
      assert LeasedEntry(owner, map[], rid) == None;
    }
  }

  lemma MirrorsRefresh(owner: RouteId -> EventID, leases: map<EventID, Lease>, sent: seq<Update>, id: EventID, until: int)
    requires Mirrors(owner, leases, sent) && id in leases
    ensures Mirrors(owner, leases[id := leases[id].(expiresAt := until)], sent)
  {
    forall rid
      ensures Lookup(E.TableOf(sent), DETECTOR, rid) ==
              LeasedEntry(owner, leases[id := leases[id].(expiresAt := until)], rid)
    {
      assert Lookup(E.TableOf(sent), DETECTOR, rid) == LeasedEntry(owner, leases, rid);
    }
  }

  // ----- withdrawals -----

  /** The withdrawals of some leases, in the order given. */
  function Withdrawals(leases: map<EventID, Lease>, ids: seq<EventID>): (us: seq<Update>)
    requires forall i | 0 <= i < |ids| :: ids[i] in leases
    ensures |us| == |ids|
  {
    seq(|ids|, i requires 0 <= i < |ids| => Withdraw(DETECTOR, Some(leases[ids[i]].rule)))
  }

  /** `ids` lists a set of leases, each once. */
  ghost predicate Lists(ids: seq<EventID>, of: set<EventID>)
  {
    (forall i, j | 0 <= i < j < |ids| :: ids[i] != ids[j]) && (forall id :: id in ids <==> id in of)
  }

  /** `sent'` adds to `sent` one withdrawal for each lease of a set, in some order. */
  ghost predicate SentWithdrawals(leases: map<EventID, Lease>, of: set<EventID>, sent: seq<Update>, sent': seq<Update>)
  {
    of <= leases.Keys && exists ids :: Lists(ids, of) && sent' == sent + Withdrawals(leases, ids)
  }

  lemma OneMoreWithdrawal(leases: map<EventID, Lease>, of: set<EventID>, sent: seq<Update>, sent': seq<Update>, id: EventID)
    requires SentWithdrawals(leases, of, sent, sent') && id in leases && id !in of
    ensures SentWithdrawals(leases, of + {id}, sent, sent' + [Withdraw(DETECTOR, Some(leases[id].rule))])
  {
    var ids :| Lists(ids, of) && sent' == sent + Withdrawals(leases, ids);
    assert Lists(ids + [id], of + {id});
    assert Withdrawals(leases, ids + [id]) == Withdrawals(leases, ids) + [Withdraw(DETECTOR, Some(leases[id].rule))];
  }

  lemma NoWithdrawals(leases: map<EventID, Lease>, sent: seq<Update>)
    ensures SentWithdrawals(leases, {}, sent, sent)
  {
    assert Lists([], {}) && sent == sent + Withdrawals(leases, []);
  }

  function Due(leases: map<EventID, Lease>, now: int): set<EventID>
  {
    set id | id in leases && !(now < leases[id].expiresAt)
  }

  class Controller {
    const dryRun: bool
    var leases: map<EventID, Lease>
    var sent: seq<Update>
    ghost const owner: RouteId -> EventID

    /** What was sent mirrors the leases. */
    ghost predicate Valid()
      reads this
    {
      Mirrors(owner, leases, sent)
    }

    constructor (dryRun: bool, ghost owner: RouteId -> EventID)
      ensures Valid() && leases == map[] && sent == [] && this.dryRun == dryRun && this.owner == owner
    {
      this.dryRun, this.owner := dryRun, owner;
      leases, sent := map[], [];
    }

    method Send(u: Update)
      modifies this`sent
      ensures sent == old(sent) + [u]
    {
      sent := sent + [u];
    }

    /** Announce, replace or refresh. Two rules are the same when their text is. The mirror holds
        on when the event's rule text belongs to that event. */
    method ApplyEvent(ev: DetectorEvent, now: int)
      modifies this`leases, this`sent
      ensures old(Valid()) && owner(RouteIdentity(ev.rule)) == ev.id ==> Valid()
      ensures ev.ttl <= 0 || dryRun ==> leases == old(leases) && sent == old(sent)
      ensures ev.ttl > 0 && !dryRun ==>
                leases == if ev.id in old(leases) && old(leases)[ev.id].rule.raw == ev.rule.raw
                          then if ev.refresh
                               then old(leases)[ev.id := old(leases)[ev.id].(expiresAt := now + ev.ttl)]
                               else old(leases)
                          else old(leases)[ev.id := Lease(ev.rule, now + ev.ttl)]
      ensures ev.ttl > 0 && !dryRun ==>
                sent == old(sent) + (if ev.id !in old(leases) then [Announce(DETECTOR, Some(ev.rule))]
                                     else if old(leases)[ev.id].rule.raw == ev.rule.raw then []
                                     else [Withdraw(DETECTOR, Some(old(leases)[ev.id].rule)), Announce(DETECTOR, Some(ev.rule))])
    {
      if ev.ttl <= 0 {
        return;
      }
      if dryRun {
        return;
      }
      ghost var mirrored := Valid() && owner(RouteIdentity(ev.rule)) == ev.id;
      var expiresAt := now + ev.ttl;
      if ev.id in leases && leases[ev.id].rule.raw == ev.rule.raw {
        if ev.refresh {
          if mirrored {
            MirrorsRefresh(owner, leases, sent, ev.id, expiresAt);
          }
          leases := leases[ev.id := leases[ev.id].(expiresAt := expiresAt)];
        }
        return;
      }
      ghost var rest := leases - {ev.id};
      var l := Lease(ev.rule, expiresAt);
      if ev.id in leases {
        var stale := leases[ev.id].rule;
        if mirrored {
          MirrorsWithdraw(owner, leases, sent, ev.id);
        }
        Send(Withdraw(DETECTOR, Some(stale)));
      } else {
        assert rest == leases;
      }
      if mirrored {
        MirrorsAnnounce(owner, rest, sent, ev.id, l);
      }
      assert rest[ev.id := l] == leases[ev.id := l];
      leases := leases[ev.id := l];
      Send(Announce(DETECTOR, Some(ev.rule)));
    }

    /** A lease and its announcement end together. */
    method WithdrawOne(id: EventID)
      requires id in leases
      modifies this`leases, this`sent
      ensures old(Valid()) ==> Valid()
      ensures leases == old(leases) - {id} && sent == old(sent) + [Withdraw(DETECTOR, Some(old(leases)[id].rule))]
    {
      if Valid() {
        MirrorsWithdraw(owner, leases, sent, id);
      }
      var r := leases[id].rule;
      leases := leases - {id};
      Send(Withdraw(DETECTOR, Some(r)));
    }

    /** Withdraws every lease that is due, once; the rest are kept as they are. */
    method Expire(now: int)
      modifies this`leases, this`sent
      ensures old(Valid()) ==> Valid()
      ensures leases == map id | id in old(leases) && now < old(leases)[id].expiresAt :: old(leases)[id]
      ensures SentWithdrawals(old(leases), Due(old(leases), now), old(sent), sent)
    {
      var todo := leases.Keys;
      ghost var was, gone: set<EventID> := leases, {};
      NoWithdrawals(was, sent);
      while todo != {}
        invariant old(Valid()) ==> Valid()
        invariant todo <= was.Keys && gone == Due(was, now) - todo
        invariant leases == map id | id in was && id !in gone :: was[id]
        invariant SentWithdrawals(was, gone, old(sent), sent)
        decreases todo
      {
        var id :| id in todo;
        if !(now < leases[id].expiresAt) {
          OneMoreWithdrawal(was, gone, old(sent), sent, id);
          WithdrawOne(id);
          gone := gone + {id};
        }
        todo := todo - {id};
      }
    }

    /** Nothing stays announced. */
    method WithdrawAll()
      modifies this`leases, this`sent
      ensures leases == map[] && (old(Valid()) ==> Valid())
      ensures SentWithdrawals(old(leases), old(leases).Keys, old(sent), sent)
      ensures old(Valid()) ==> forall rid :: Lookup(E.TableOf(sent), DETECTOR, rid) == None
    {
      ghost var was, gone: set<EventID> := leases, {};
      NoWithdrawals(was, sent);
      while leases != map[]
        invariant old(Valid()) ==> Valid()
        invariant gone <= was.Keys && leases.Keys == was.Keys - gone
        invariant forall id | id in leases :: leases[id] == was[id]
        invariant SentWithdrawals(was, gone, old(sent), sent)
        decreases leases.Keys
      {
        var id :| id in leases;
        OneMoreWithdrawal(was, gone, old(sent), sent, id);
        WithdrawOne(id);
        gone := gone + {id};
      }
      assert gone == was.Keys;
      if old(Valid()) {
        NothingLeased(owner, sent);
      }
    }

    /** Sleeps exactly until the earliest expiry, or the shortest time if that has passed. */
    method NextWake(now: int) returns (d: int)
      ensures leases == map[] ==> d == HOUR
      ensures leases != map[] ==> exists id | id in leases ::
                && (forall o | o in leases :: leases[id].expiresAt <= leases[o].expiresAt)
                && d == if leases[id].expiresAt > now then leases[id].expiresAt - now else 1
      ensures d > 0
    {
      if leases == map[] {
        return HOUR;
      }
      var next: Option<EventID> := None;
      var todo := leases.Keys;
      while todo != {}
        invariant todo <= leases.Keys && (next.None? ==> todo == leases.Keys)
        invariant next.Some? ==> next.value in leases
        invariant next.Some? ==> forall o | o in leases && o !in todo ::
                                   leases[next.value].expiresAt <= leases[o].expiresAt
        decreases todo
      {
        var id :| id in todo;
        if next.None? || leases[id].expiresAt < leases[next.value].expiresAt {
          next := Some(id);
        }
        todo := todo - {id};
      }
      d := if leases[next.value].expiresAt - now > 0 then leases[next.value].expiresAt - now else 1;
    }
  }

  // ----- rule texts shared by events -----

  /** The detector's routes are exactly the accepted rules of the leases. */
  ghost predicate Announced(leases: map<EventID, Lease>, sent: seq<Update>)
  {
    forall rid, acl :: Lookup(E.TableOf(sent), DETECTOR, rid) == Some(acl) <==> LeasedAs(leases, rid, acl)
  }

  ghost predicate LeasedAs(leases: map<EventID, Lease>, rid: RouteId, acl: ACLRule)
  {
    exists id | id in leases :: RouteIdentity(leases[id].rule) == rid && AclOf(leases[id].rule) == Some(acl)
  }

  /** The mirror with an owner for each text is this one. */
  lemma MirrorsIsAnnounced(owner: RouteId -> EventID, leases: map<EventID, Lease>, sent: seq<Update>)
    requires Mirrors(owner, leases, sent)
    ensures Announced(leases, sent)
  {
    forall rid, acl ensures Lookup(E.TableOf(sent), DETECTOR, rid) == Some(acl) <==> LeasedAs(leases, rid, acl) {
      assert Lookup(E.TableOf(sent), DETECTOR, rid) == LeasedEntry(owner, leases, rid);
      if LeasedEntry(owner, leases, rid) == Some(acl) {
        assert owner(rid) in leases;
      }
    }
  }

  /** Withdrawing one lease keeps that if and only if no other lease has an accepted rule of the
      same route: with a shared text, the first to expire takes the rule from the others. */
  lemma WithdrawKeepsIff(leases: map<EventID, Lease>, sent: seq<Update>, id: EventID)
    requires Announced(leases, sent) && id in leases
    ensures Announced(leases - {id}, sent + [Withdraw(DETECTOR, Some(leases[id].rule))]) <==>
            forall o | o in leases && o != id && RouteIdentity(leases[o].rule) == RouteIdentity(leases[id].rule) ::
              AclOf(leases[o].rule).None?
  {
    var u, rest, rid0 := Withdraw(DETECTOR, Some(leases[id].rule)), leases - {id}, RouteIdentity(leases[id].rule);
    SentOne(sent, u);
    forall rid, acl | rid != rid0
      ensures Lookup(E.TableOf(sent + [u]), DETECTOR, rid) == Some(acl) <==> LeasedAs(rest, rid, acl)
    {
      E.TableStepLookup(E.TableOf(sent), u, DETECTOR, rid);
      assert Lookup(E.TableOf(sent), DETECTOR, rid) == Some(acl) <==> LeasedAs(leases, rid, acl);
      if o :| o in leases && RouteIdentity(leases[o].rule) == rid && AclOf(leases[o].rule) == Some(acl) {
        assert o in rest;
      }
    }
    E.TableStepLookup(E.TableOf(sent), u, DETECTOR, rid0);
    if o :| o in leases && o != id && RouteIdentity(leases[o].rule) == rid0 && AclOf(leases[o].rule).Some? {
      assert o in rest && LeasedAs(rest, rid0, AclOf(leases[o].rule).value);
    }
  }

  /** A second event with the same rule keeps it. */
  lemma ShareKeeps(leases: map<EventID, Lease>, sent: seq<Update>, a: EventID, b: EventID, until: int)
    requires Announced(leases, sent) && a in leases && b !in leases && AclOf(leases[a].rule).Some?
    ensures Announced(leases[b := Lease(leases[a].rule, until)], sent + [Announce(DETECTOR, Some(leases[a].rule))])
  {
    var r, both := leases[a].rule, leases[b := Lease(leases[a].rule, until)];
    SentOne(sent, Announce(DETECTOR, Some(r)));
    forall rid, acl
      ensures Lookup(TableStep(E.TableOf(sent), Announce(DETECTOR, Some(r))), DETECTOR, rid) == Some(acl) <==>
              LeasedAs(both, rid, acl)
    {
      AnnouncedLookup(E.TableOf(sent), r, rid);
      assert LeasedAs(leases, RouteIdentity(r), AclOf(r).value);
      assert Lookup(E.TableOf(sent), DETECTOR, rid) == Some(acl) <==> LeasedAs(leases, rid, acl);
      assert LeasedAs(both, rid, acl) <==> LeasedAs(leases, rid, acl) by {
        if o :| o in leases && RouteIdentity(leases[o].rule) == rid && AclOf(leases[o].rule) == Some(acl) {
          assert o in both && both[o] == leases[o];
        }
        if o :| o in both && RouteIdentity(both[o].rule) == rid && AclOf(both[o].rule) == Some(acl) {
          assert LeasedAs(leases, rid, acl) by {
            assert o in leases || (o == b && RouteIdentity(leases[a].rule) == rid);
          }
        }
      }
    }
  }

  /** A failing case, from any state with an owner for each text: a second event gets a lease for
      the rule of the first, and when the first expires the rule is gone although leased. */
  lemma SharedTextLoses(owner: RouteId -> EventID, leases: map<EventID, Lease>, sent: seq<Update>,
                        a: EventID, b: EventID, until: int)
    requires Mirrors(owner, leases, sent) && a in leases && b !in leases && AclOf(leases[a].rule).Some?
    ensures var r, both := leases[a].rule, leases[b := Lease(leases[a].rule, until)];
            var sent' := sent + [Announce(DETECTOR, Some(r))];
            Announced(both, sent') && !Announced(both - {a}, sent' + [Withdraw(DETECTOR, Some(r))])
  {
    var both := leases[b := Lease(leases[a].rule, until)];
    MirrorsIsAnnounced(owner, leases, sent);
    ShareKeeps(leases, sent, a, b, until);
    WithdrawKeepsIff(both, sent + [Announce(DETECTOR, Some(leases[a].rule))], a);
    assert b in both && RouteIdentity(both[b].rule) == RouteIdentity(both[a].rule) && AclOf(both[b].rule).Some?;
  }

  // ----- inside the manager's own history -----

  /** The updates of one session, in order. */
  function OfSession(us: seq<Update>, s: SessionID): seq<Update>
  {
    if us == [] then []
    else
      var init, u := OfSession(us[..|us| - 1], s), us[|us| - 1];
      if !u.Resync? && u.session == s then init + [u] else init
  }

  /** Other sessions and resyncs do not touch a session's routes. */
  lemma {:induction false} SessionsIndependent(us: seq<Update>, s: SessionID, rid: RouteId)
    ensures Lookup(E.TableOf(us), s, rid) == Lookup(E.TableOf(OfSession(us, s)), s, rid)
  {
    if us != [] {
      var init, u := us[..|us| - 1], us[|us| - 1];
      SessionsIndependent(init, s, rid);
      E.TableStepLookup(E.TableOf(init), u, s, rid);
      if !u.Resync? && u.session == s {
        SentOne(OfSession(init, s), u);
        E.TableStepLookup(E.TableOf(OfSession(init, s)), u, s, rid);
      }
    }
  }

  /** However the controller's updates interleave with other sessions, the manager holds for the
      detector exactly the entries of its leases. */
  lemma ManagerMirrorsLeases(owner: RouteId -> EventID, leases: map<EventID, Lease>, us: seq<Update>, rid: RouteId)
    requires Mirrors(owner, leases, OfSession(us, DETECTOR))
    ensures RouteKey(E.Run(us), rid, DETECTOR) == LeasedEntry(owner, leases, rid)
  {
    E.RunRefines(us);
    SessionsIndependent(us, DETECTOR, rid);
  }
}
