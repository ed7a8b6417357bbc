/**
  The manager as an object over its three maps, with the backend it drives. Each helper does to
  the maps what its counterpart in `ManagerState` says; every update leaves each family whose
  last push succeeded holding exactly the desired entries in key order.
 */
module Manager {
  import opened FlowSpec
  import opened Acl
  import M = ManagerState
  import opened Pushes
  import E = EndToEnd
  import T = Translate

  // ----- the order of canonical keys -----

  ghost predicate TotalOrder(leq: (ACLRule, ACLRule) -> bool)
  {
    && (forall a, b :: leq(a, b) || leq(b, a))
    && (forall a, b :: leq(a, b) && leq(b, a) ==> a == b)
    && (forall a, b, c :: leq(a, b) && leq(b, c) ==> leq(a, c))
  }

  predicate Ascending(leq: (ACLRule, ACLRule) -> bool, rules: seq<ACLRule>)
  {
    forall i, j | 0 <= i < j < |rules| :: rules[i] != rules[j] && leq(rules[i], rules[j])
  }

  /** The desired list of a family: its live entries, each once, in key order. */
  ghost predicate IsDesired(leq: (ACLRule, ACLRule) -> bool, st: M.State, f: Family, rules: seq<ACLRule>)
  {
    Ascending(leq, rules) && forall k :: k in rules <==> k in M.Live(st, f)
  }

  lemma FirstIsLeast(leq: (ACLRule, ACLRule) -> bool, s: seq<ACLRule>, k: ACLRule)
    requires TotalOrder(leq) && Ascending(leq, s) && k in s
    ensures leq(s[0], k)
  {
    var i :| 0 <= i < |s| && s[i] == k;
    assert i > 0 ==> leq(s[0], s[i]);
  }

  lemma {:induction false} AscendingUnique(leq: (ACLRule, ACLRule) -> bool, a: seq<ACLRule>, b: seq<ACLRule>)
    requires TotalOrder(leq) && Ascending(leq, a) && Ascending(leq, b)
    requires forall k :: k in a <==> k in b
    ensures a == b
  {
    assert forall i | 0 <= i < |a| :: a[i] in b;
    assert forall i | 0 <= i < |b| :: b[i] in a;
    if a != [] && b != [] {
      assert a[0] in a && a[0] in b && b[0] in b && b[0] in a;
      FirstIsLeast(leq, a, b[0]);
      FirstIsLeast(leq, b, a[0]);
      forall k ensures k in a[1..] <==> k in b[1..] {
        TailMember(leq, a, k);
        TailMember(leq, b, k);
      }
      AscendingUnique(leq, a[1..], b[1..]);
      assert a == [a[0]] + a[1..] && b == [b[0]] + b[1..];
    }
  }

  lemma TailMember(leq: (ACLRule, ACLRule) -> bool, s: seq<ACLRule>, k: ACLRule)
    requires Ascending(leq, s) && s != []
    ensures k in s[1..] <==> k in s && k != s[0]
  {
    assert s == [s[0]] + s[1..];
  }

  /** The push is deterministic: one state has one desired list. */
  lemma DesiredUnique(leq: (ACLRule, ACLRule) -> bool, st: M.State, f: Family, a: seq<ACLRule>, b: seq<ACLRule>)
    requires TotalOrder(leq) && IsDesired(leq, st, f, a) && IsDesired(leq, st, f, b)
    ensures a == b
  {
    AscendingUnique(leq, a, b);
  }

  /** An update leaves the desired list of every family outside its dirty set as it was. */
  lemma CleanStaysDesired(leq: (ACLRule, ACLRule) -> bool, st: M.State, u: M.Update)
    requires M.Inv(st)
    ensures M.Inv(M.Apply(st, u))
    ensures forall f, rules | f !in M.Dirty(st, u) && IsDesired(leq, st, f, rules) ::
              IsDesired(leq, M.Apply(st, u), f, rules)
  {
    M.ApplyInv(st, u);
    forall f, rules | f !in M.Dirty(st, u) && IsDesired(leq, st, f, rules)
      ensures IsDesired(leq, M.Apply(st, u), f, rules)
    {
      assert f == IPv4 || f == IPv6;
      DirtyExact(st, u, f);
    }
  }

  function InsertKey(leq: (ACLRule, ACLRule) -> bool, rules: seq<ACLRule>, k: ACLRule): (r: seq<ACLRule>)
    requires TotalOrder(leq) && Ascending(leq, rules) && k !in rules
    ensures Ascending(leq, r) && forall x :: x in r <==> x in rules || x == k
  {
    if rules == [] then [k]
    else if leq(k, rules[0]) then
      assert forall i | 0 < i < |rules| :: leq(rules[0], rules[i]);
      [k] + rules
    else
      var rest := InsertKey(leq, rules[1..], k);
      assert rules == [rules[0]] + rules[1..];
      assert forall x | x in rules[1..] :: x != rules[0] && leq(rules[0], x);
      assert forall i | 0 <= i < |rest| :: rest[i] in rest;
      [rules[0]] + rest
  }

  /** An announcement that changes its route is a removal and, if accepted, an addition. */
  lemma SwapIsAnnounce(st: M.State, s: M.SessionID, r: Rule)
    requires T.Translate(r).Ok? ==> M.RouteKey(st, M.RouteIdentity(r), s) != Some(T.Translate(r).value)
    ensures var rid, res, u := M.RouteIdentity(r), T.Translate(r), M.Announce(s, Some(r));
            var mid := M.RemoveRoute(st, rid, s);
            && M.Apply(st, u) == (if res.Err? then mid else M.AddRoute(mid, rid, res.value, s))
            && M.Dirty(st, u) == M.RemoveRouteDirty(st, rid, s) +
                                 (if res.Ok? && M.Appears(mid, res.value) then {M.AclFamily(res.value)} else {})
  {
    assert M.Apply(st, M.Announce(s, Some(r))) == M.AnnounceRule(st, s, r);
    assert M.Dirty(st, M.Announce(s, Some(r))) == M.AnnounceDirty(st, s, r);
  }

  // ----- the backend -----

  /** One push, whether it succeeded or not. */
  datatype Attempt = Attempt(family: Family, rules: seq<ACLRule>)

  /** One push for each dirty family and none for another, each of the desired list. */
  ghost predicate PushesFor(leq: (ACLRule, ACLRule) -> bool, st: M.State, dirty: set<Family>, pushes: seq<Attempt>)
  {
    && (forall i | 0 <= i < |pushes| :: pushes[i].family in dirty && IsDesired(leq, st, pushes[i].family, pushes[i].rules))
    && (forall i, j | 0 <= i < j < |pushes| :: pushes[i].family != pushes[j].family)
    && (forall f | f in dirty :: exists i :: 0 <= i < |pushes| && pushes[i].family == f)
  }

  class Backend {
    var installed: map<Family, seq<ACLRule>>
    ghost var failed: set<Family>
    ghost var attempts: seq<Attempt>

    constructor ()
      ensures installed == map[IPv4 := [], IPv6 := []] && failed == {} && attempts == []
    {
      installed := map[IPv4 := [], IPv6 := []];
      failed, attempts := {}, [];
    }

    /** A push either takes effect whole or fails and changes nothing. */
    method ReplaceACL(f: Family, rules: seq<ACLRule>) returns (ok: bool)
      modifies this
      ensures ok ==> installed == old(installed)[f := rules] && failed == old(failed) - {f}
      ensures !ok ==> installed == old(installed) && failed == old(failed) + {f}
      ensures attempts == old(attempts) + [Attempt(f, rules)]
    {
      attempts := attempts + [Attempt(f, rules)];
      ok := *;
      if ok {
        installed := installed[f := rules];
        failed := failed - {f};
      } else {
        failed := failed + {f};
      }
    }
  }

  // ----- the manager -----

  class Manager {
    const backend: Backend
    const keyLeq: (ACLRule, ACLRule) -> bool
    var entries: map<ACLRule, M.Entry>
    var sessionRules: map<M.SessionID, set<ACLRule>>
    var sessionRoutes: map<M.SessionID, map<M.RouteId, ACLRule>>

    ghost function View(): M.State
      reads this
    {
      M.State(entries, sessionRules, sessionRoutes)
    }

    /** What a family's last successful push left in the backend is what is desired now. */
    ghost predicate InStep(f: Family)
      reads this, backend
    {
      f !in backend.failed ==>
        f in backend.installed && IsDesired(keyLeq, View(), f, backend.installed[f])
    }

    ghost predicate Valid()
      reads this, backend
    {
      TotalOrder(keyLeq) && M.Inv(View()) && InStep(IPv4) && InStep(IPv6)
    }

    constructor (backend: Backend, keyLeq: (ACLRule, ACLRule) -> bool)
      requires TotalOrder(keyLeq)
      requires backend.installed == map[IPv4 := [], IPv6 := []] && backend.failed == {}
      ensures Valid() && View() == M.EMPTY && this.backend == backend
    {
      this.backend := backend;
      this.keyLeq := keyLeq;
      entries, sessionRules, sessionRoutes := map[], map[], map[];
      new;
      E.EmptyInv();
    }

    method AddOwner(key: ACLRule, fam: Family, s: M.SessionID) returns (dirty: bool)
      modifies this`entries, this`sessionRules
      ensures View() == M.AddOwner(old(View()), key, fam, s)
      ensures dirty == M.Appears(old(View()), key)
    {
      var created := key !in entries;
      var e := if created then M.Entry(key, fam, map[]) else entries[key];
      var wasEmpty := |e.owners| == 0;
      var n := if s in e.owners then e.owners[s] else 0;
      assert n == M.OwnerCount(View(), key, s);
      entries := entries[key := e.(owners := e.owners[s := n + 1])];
      var sr := if s in sessionRules then sessionRules[s] else {};
      sessionRules := sessionRules[s := sr + {key}];
      dirty := created || wasEmpty;
    }

    method RemoveOwner(key: ACLRule, s: M.SessionID) returns (dirty: bool)
      modifies this`entries, this`sessionRules
      ensures View() == M.RemoveOwner(old(View()), key, s)
      ensures dirty == M.Vanishes(old(View()), key, s)
    {
      if key !in entries {
        return false;
      }
      var e := entries[key];
      var n := if s in e.owners then e.owners[s] else 0;
      if n == 0 {
        return false;
      }
      var owners := if n == 1 then e.owners - {s} else e.owners[s := n - 1];
      if s in sessionRules {
        if s !in owners {
          var sr := sessionRules[s] - {key};
          sessionRules := if |sr| == 0 then sessionRules - {s} else sessionRules[s := sr];
        }
      }
      if |owners| == 0 {
        entries := entries - {key};
        dirty := true;
      } else {
        entries := entries[key := e.(owners := owners)];
        dirty := false;
      }
      assert n > 1 ==> s in owners;
    }

    /** Forgets a route that maps to `key`; any other request changes nothing. */
    method ForgetRoute(rid: M.RouteId, s: M.SessionID, key: ACLRule)
      modifies this`sessionRoutes
      ensures View() == if M.RouteKey(old(View()), rid, s) == Some(key) then M.ForgetRoute(old(View()), rid, s)
                        else old(View())
    {
      if s !in sessionRoutes {
        return;
      }
      if rid !in sessionRoutes[s] || sessionRoutes[s][rid] != key {
        return;
      }
      var left := sessionRoutes[s] - {rid};
      sessionRoutes := if |left| == 0 then sessionRoutes - {s} else sessionRoutes[s := left];
    }

    method RememberRoute(rid: M.RouteId, key: ACLRule, s: M.SessionID)
      modifies this`sessionRoutes
      ensures View() == M.RememberRoute(old(View()), rid, key, s)
    {
      var mine := if s in sessionRoutes then sessionRoutes[s] else map[];
      sessionRoutes := sessionRoutes[s := mine[rid := key]];
    }

    method RemoveRoute(rid: M.RouteId, s: M.SessionID) returns (dirty: set<Family>)
      modifies this`entries, this`sessionRules, this`sessionRoutes
      ensures View() == M.RemoveRoute(old(View()), rid, s)
      ensures dirty == M.RemoveRouteDirty(old(View()), rid, s)
    {
      if s !in sessionRoutes || rid !in sessionRoutes[s] {
        return {};
      }
      var key := sessionRoutes[s][rid];
      M.RemoveKnownRoute(View(), rid, s, key);
      ForgetRoute(rid, s, key);
      if key !in entries {
        return {};
      }
      var fam := entries[key].family;
      var gone := RemoveOwner(key, s);
      dirty := if gone then {fam} else {};
    }

    /** The desired list of a family, collected from the entries and put in key order. */
    method Desired(f: Family) returns (rules: seq<ACLRule>)
      requires TotalOrder(keyLeq) && M.EntriesOk(entries)
      ensures IsDesired(keyLeq, View(), f, rules)
    {
      rules := [];
      var todo := entries.Keys;
      while todo != {}
        invariant todo <= entries.Keys
        invariant Ascending(keyLeq, rules)
        invariant forall k :: k in rules <==> k in entries && k !in todo && entries[k].family == f
        decreases todo
      {
        var k :| k in todo;
        todo := todo - {k};
        assert M.EntryOk(k, entries[k]);
        if entries[k].family == f && |entries[k].owners| > 0 {
          rules := InsertKey(keyLeq, rules, k);
        }
      }
    }

    /** Since `before` the backend was asked once for each dirty family to take its desired list,
        and for nothing else. */
    ghost predicate Pushed(before: seq<Attempt>, dirty: set<Family>)
      reads this, backend
    {
      && before <= backend.attempts
      && PushesFor(keyLeq, View(), dirty, backend.attempts[|before|..])
    }

    /** Pushes a family's desired list, once. */
    method Reconcile(f: Family) returns (ok: bool)
      requires TotalOrder(keyLeq) && M.EntriesOk(entries)
      modifies backend
      ensures InStep(f)
      ensures forall g | g != f :: g in backend.failed <==> g in old(backend.failed)
      ensures forall g | g != f && g in old(backend.installed) ::
                g in backend.installed && backend.installed[g] == old(backend.installed)[g]
      ensures |backend.attempts| == |old(backend.attempts)| + 1 && old(backend.attempts) <= backend.attempts
      ensures var last := backend.attempts[|old(backend.attempts)|];
              last.family == f && IsDesired(keyLeq, View(), f, last.rules)
    {
      var rules := Desired(f);
      ok := backend.ReplaceACL(f, rules);
    }

    /** Pushes every family in `dirty`; the others must already be in step. */
    method ReconcileAll(dirty: set<Family>)
      requires TotalOrder(keyLeq) && M.Inv(View())
      requires IPv4 !in dirty ==> InStep(IPv4)
      requires IPv6 !in dirty ==> InStep(IPv6)
      modifies backend
      ensures Valid() && Pushed(old(backend.attempts), dirty)
    {
      if IPv4 in dirty {
        var _ := Reconcile(IPv4);
      }
      if IPv6 in dirty {
        var _ := Reconcile(IPv6);
      }
      assert forall f | f in dirty :: f == IPv4 || f == IPv6;
    }

    method Announce(s: M.SessionID, rule: Option<Rule>)
      requires Valid()
      modifies this, backend
      ensures Valid() && View() == M.Apply(old(View()), M.Announce(s, rule))
      ensures Pushed(old(backend.attempts), M.Dirty(old(View()), M.Announce(s, rule)))
    {
      if rule.None? {
        return;
      }
      var r := rule.value;
      var res := T.TranslateRule(r);
      if res.Ok? && s in sessionRoutes && M.RouteIdentity(r) in sessionRoutes[s] &&
         sessionRoutes[s][M.RouteIdentity(r)] == res.value {
        return;
      }
      ChangeRoute(s, r, res);
    }

    /** An announcement that changes its session's route, and the pushes after it. */
    method ChangeRoute(s: M.SessionID, r: Rule, res: Result<ACLRule>)
      requires Valid() && res == T.Translate(r)
      requires res.Ok? ==> M.RouteKey(View(), M.RouteIdentity(r), s) != Some(res.value)
      modifies this, backend
      ensures Valid() && View() == M.AnnounceRule(old(View()), s, r)
      ensures Pushed(old(backend.attempts), M.Dirty(old(View()), M.Announce(s, Some(r))))
    {
      ghost var before := View();
      SwapIsAnnounce(before, s, r);
      CleanStaysDesired(keyLeq, before, M.Announce(s, Some(r)));
      var dirty := SwapRoute(s, M.RouteIdentity(r), res);
      ReconcileAll(dirty);
    }

    /** Replaces or removes a session's route after translation. */
    method SwapRoute(s: M.SessionID, rid: M.RouteId, res: Result<ACLRule>) returns (dirty: set<Family>)
      modifies this`entries, this`sessionRules, this`sessionRoutes
      ensures var mid := M.RemoveRoute(old(View()), rid, s);
              && View() == (if res.Err? then mid else M.AddRoute(mid, rid, res.value, s))
              && dirty == M.RemoveRouteDirty(old(View()), rid, s) +
                          (if res.Ok? && M.Appears(mid, res.value) then {M.AclFamily(res.value)} else {})
    {
      dirty := RemoveRoute(rid, s);
      if res.Ok? {
        var appeared := AddOwner(res.value, M.AclFamily(res.value), s);
        RememberRoute(rid, res.value, s);
        if appeared {
          dirty := dirty + {M.AclFamily(res.value)};
        }
      }
    }

    method Withdraw(s: M.SessionID, rule: Option<Rule>)
      requires Valid()
      modifies this, backend
      ensures Valid() && View() == M.Apply(old(View()), M.Withdraw(s, rule))
      ensures Pushed(old(backend.attempts), M.Dirty(old(View()), M.Withdraw(s, rule)))
    {
      if rule.None? {
        return;
      }
      ghost var before := View();
      ghost var u := M.Withdraw(s, rule);
      var dirty := RemoveRoute(M.RouteIdentity(rule.value), s);
      CleanStaysDesired(keyLeq, before, u);
      ReconcileAll(dirty);
    }

    method SessionDown(s: M.SessionID)
      requires Valid()
      modifies this, backend
      ensures Valid() && View() == M.Apply(old(View()), M.SessionDown(s))
      ensures Pushed(old(backend.attempts), M.Dirty(old(View()), M.SessionDown(s)))
    {
      var keys := if s in sessionRules then sessionRules[s] else {};
      if keys == {} {
        M.EarlyReturn(View(), s);
        sessionRules := sessionRules - {s};
        return;
      }
      ghost var before := View();
      ghost var u := M.SessionDown(s);
      var dirty := RemoveSessionOwners(keys, s);
      sessionRules := sessionRules - {s};
      sessionRoutes := sessionRoutes - {s};
      CleanStaysDesired(keyLeq, before, u);
      ReconcileAll(dirty);
    }

    /** Takes the session out of every entry it owns. */
    method RemoveSessionOwners(keys: set<ACLRule>, s: M.SessionID) returns (dirty: set<Family>)
      requires M.EntriesOk(entries)
      modifies this`entries
      ensures entries == M.Strip(old(entries), s, keys)
      ensures dirty == M.Emptied(old(entries), s, keys)
    {
      dirty := {};
      var todo := keys;
      ghost var done: set<ACLRule> := {};
      M.StripNothing(entries, s);
      while todo != {}
        invariant todo !! done && todo + done == keys
        invariant entries == M.Strip(old(entries), s, done)
        invariant dirty == M.Emptied(old(entries), s, done)
        decreases todo
      {
        var key :| key in todo;
        dirty := StripOne(key, s, dirty, old(entries), done);
        todo, done := todo - {key}, done + {key};
      }
      assert done == keys;
    }

    /** One more entry, and the families dirty so far. */
    method StripOne(key: ACLRule, s: M.SessionID, before: set<Family>, ghost was: map<ACLRule, M.Entry>, ghost done: set<ACLRule>)
      returns (dirty: set<Family>)
      requires M.EntriesOk(was) && key !in done && entries == M.Strip(was, s, done) && before == M.Emptied(was, s, done)
      modifies this`entries
      ensures entries == M.Strip(was, s, done + {key}) && dirty == M.Emptied(was, s, done + {key})
    {
      M.StripMore(was, s, done, key);
      M.EmptiedAfter(was, s, done, key);
      M.EmptiedMore(was, s, done, key);
      assert key in entries ==> M.EntryOk(key, entries[key]);
      var fam := RemoveSessionOwner(key, s);
      dirty := before + fam;
    }

    /** Takes the session out of one entry; its family is dirty when nobody is left. */
    method RemoveSessionOwner(key: ACLRule, s: M.SessionID) returns (dirty: set<Family>)
      requires key in entries ==> M.EntryOk(key, entries[key])
      modifies this`entries
      ensures entries == M.Strip(old(entries), s, {key})
      ensures dirty == M.Emptied(old(entries), s, {key})
    {
      if key !in entries {
        return {};
      }
      var e := entries[key];
      if s !in e.owners || e.owners[s] == 0 {
        assert e.owners - {s} == e.owners;
        return {};
      }
      var owners := e.owners - {s};
      if |owners| == 0 {
        entries := entries - {key};
        dirty := {e.family};
      } else {
        entries := entries[key := e.(owners := owners)];
        dirty := {};
      }
    }

    /** Both families are pushed, whether or not their last push succeeded. */
    method Resync()
      requires Valid()
      modifies backend
      ensures Valid() && Pushed(old(backend.attempts), {IPv4, IPv6})
    {
      ReconcileAll({IPv4, IPv6});
    }

    method Apply(u: M.Update)
      requires Valid()
      modifies this, backend
      ensures Valid() && View() == M.Apply(old(View()), u)
      ensures Pushed(old(backend.attempts), M.Dirty(old(View()), u))
    {
      match u
      case Announce(s, rule) => Announce(s, rule);
      case Withdraw(s, rule) => Withdraw(s, rule);
      case SessionDown(s) => SessionDown(s);
      case Resync => Resync();
    }

    /** A whole run. Whatever pushes failed on the way, each family whose last push succeeded
        denies exactly the packets covered by a standing announcement. */
    method Run(us: seq<M.Update>)
      requires Valid() && View() == M.EMPTY
      modifies this, backend
      ensures Valid() && View() == E.Run(us)
      ensures forall f | f !in backend.failed :: f in backend.installed
      ensures forall f, p: Packet | f in backend.installed && f !in backend.failed ::
                E.Enforces(us, f, backend.installed[f], p)
    {
      for i := 0 to |us|
        invariant Valid() && View() == E.Run(us[..i])
      {
        assert us[..i + 1][..i] == us[..i];
        Apply(us[i]);
      }
      assert us[..|us|] == us;
      forall f | f !in backend.failed ensures f in backend.installed {
        assert f == IPv4 || f == IPv6;
      }
      forall f, p: Packet | f in backend.installed && f !in backend.failed
        ensures E.Enforces(us, f, backend.installed[f], p)
      {
        assert f == IPv4 || f == IPv6;
        assert InStep(f);
        E.ManagedVerdict(us, f, backend.installed[f], p);
      }
    }
  }
}
