/**
  The manager's three maps as values: entries with per-session owner counts, the keys each
  session advertises, and each session's route table. The helper functions say what one call
  does to the maps; `Inv` ties the maps together; `Table` is the plain map they refine.
 */
module ManagerState {
  import opened FlowSpec
  import opened Acl
  import T = Translate

  type SessionID = string

  /** A route is known by its text, or by family and match when it has none. */
  datatype RouteId = ByRaw(raw: string) | ByMatch(family: Family, match_: Match)

  function RouteIdentity(r: Rule): RouteId
  {
    if r.raw != "" then ByRaw(r.raw) else ByMatch(r.family, r.match_)
  }

  /** Two rules are one route when they have one text, or neither has a text and family and match
      are the same. */
  lemma SameRouteIff(a: Rule, b: Rule)
    ensures RouteIdentity(a) == RouteIdentity(b) <==>
            a.raw == b.raw && (a.raw == "" ==> a.family == b.family && a.match_ == b.match_)
  {
  }

  function AclFamily(acl: ACLRule): Family { if acl.isIPv6 then IPv6 else IPv4 }

  datatype Update =
    | Announce(session: SessionID, rule: Option<Rule>)
    | Withdraw(session: SessionID, rule: Option<Rule>)
    | SessionDown(session: SessionID)
    | Resync

  datatype Entry = Entry(acl: ACLRule, family: Family, owners: map<SessionID, nat>)

  type Routes = map<SessionID, map<RouteId, ACLRule>>

  datatype State = State(entries: map<ACLRule, Entry>, rules: map<SessionID, set<ACLRule>>, routes: Routes)

  const EMPTY := State(map[], map[], map[])

  // ----- the helpers -----

  function RouteKey(st: State, rid: RouteId, s: SessionID): Option<ACLRule>
  {
    if s in st.routes && rid in st.routes[s] then Some(st.routes[s][rid]) else None
  }

  function RulesOf(st: State, s: SessionID): set<ACLRule>
  {
    if s in st.rules then st.rules[s] else {}
  }

  function OwnersOf(st: State, key: ACLRule): map<SessionID, nat>
  {
    if key in st.entries then st.entries[key].owners else map[]
  }

  /** How many routes of `s` own `key`, by the entry's count. */
  function OwnerCount(st: State, key: ACLRule, s: SessionID): nat
  {
    if s in OwnersOf(st, key) then OwnersOf(st, key)[s] else 0
  }

  function AddOwner(st: State, key: ACLRule, fam: Family, s: SessionID): State
  {
    var e := if key in st.entries then st.entries[key] else Entry(key, fam, map[]);
    st.(entries := st.entries[key := e.(owners := e.owners[s := OwnerCount(st, key, s) + 1])],
        rules := st.rules[s := RulesOf(st, s) + {key}])
  }

  /** Whether adding an owner makes the entry appear. */
  predicate Appears(st: State, key: ACLRule) { |OwnersOf(st, key)| == 0 }

  function DropRule(rules: map<SessionID, set<ACLRule>>, s: SessionID, key: ACLRule): map<SessionID, set<ACLRule>>
    requires s in rules
  {
    if |rules[s] - {key}| == 0 then rules - {s} else rules[s := rules[s] - {key}]
  }

  function RemoveOwner(st: State, key: ACLRule, s: SessionID): State
  {
    var n := OwnerCount(st, key, s);
    if n == 0 then st
    else
      var owners := if n == 1 then OwnersOf(st, key) - {s} else OwnersOf(st, key)[s := n - 1];
      st.(entries := if |owners| == 0 then st.entries - {key}
                     else st.entries[key := st.entries[key].(owners := owners)],
          rules := if s in st.rules && n == 1 then DropRule(st.rules, s, key) else st.rules)
  }

  /** Whether removing one route's ownership makes the entry vanish. */
  predicate Vanishes(st: State, key: ACLRule, s: SessionID)
  {
    OwnerCount(st, key, s) == 1 && |OwnersOf(st, key) - {s}| == 0
  }

  function RememberRoute(st: State, rid: RouteId, key: ACLRule, s: SessionID): State
  {
    var mine := if s in st.routes then st.routes[s] else map[];
    st.(routes := st.routes[s := mine[rid := key]])
  }

  function ForgetRoute(st: State, rid: RouteId, s: SessionID): State
    requires RouteKey(st, rid, s).Some?
  {
    var left := st.routes[s] - {rid};
    st.(routes := if |left| == 0 then st.routes - {s} else st.routes[s := left])
  }

  function RemoveRoute(st: State, rid: RouteId, s: SessionID): State
  {
    match RouteKey(st, rid, s)
    case None => st
    case Some(key) => RemoveOwner(ForgetRoute(st, rid, s), key, s)
  }

  /** The family whose desired set a route removal shrinks. */
  function RemoveRouteDirty(st: State, rid: RouteId, s: SessionID): set<Family>
  {
    match RouteKey(st, rid, s)
    case None => {}
    case Some(key) => if key in st.entries && Vanishes(st, key, s) then {st.entries[key].family} else {}
  }

  /** Removing a known route is forgetting it and giving up its key. */
  lemma RemoveKnownRoute(st: State, rid: RouteId, s: SessionID, key: ACLRule)
    requires RouteKey(st, rid, s) == Some(key)
    ensures var mid := ForgetRoute(st, rid, s);
            && mid.entries == st.entries
            && RemoveRoute(st, rid, s) == RemoveOwner(mid, key, s)
            && RemoveRouteDirty(st, rid, s) == (if key in st.entries && Vanishes(mid, key, s) then {st.entries[key].family} else {})
            && (key !in st.entries ==> RemoveOwner(mid, key, s) == mid)
  {
  }

  /** Entries after session `s` gave up the keys in `keys`. */
  function Strip(entries: map<ACLRule, Entry>, s: SessionID, keys: set<ACLRule>): map<ACLRule, Entry>
  {
    map k | k in entries && !(k in keys && s in entries[k].owners && |entries[k].owners - {s}| == 0) ::
      if k in keys then entries[k].(owners := entries[k].owners - {s}) else entries[k]
  }

  /** The families of the entries that go with it. */
  function Emptied(entries: map<ACLRule, Entry>, s: SessionID, keys: set<ACLRule>): set<Family>
  {
    set k | k in entries && k in keys && s in entries[k].owners && |entries[k].owners - {s}| == 0 :: entries[k].family
  }

  /** Keys can be given up one by one. */
  lemma StripMore(entries: map<ACLRule, Entry>, s: SessionID, keys: set<ACLRule>, key: ACLRule)
    requires key !in keys
    ensures Strip(Strip(entries, s, keys), s, {key}) == Strip(entries, s, keys + {key})
    ensures key in entries <==> key in Strip(entries, s, keys)
    ensures key in entries ==> Strip(entries, s, keys)[key] == entries[key]
  {
  }

  /** A key not yet given up empties its entry as it did before. */
  lemma EmptiedAfter(entries: map<ACLRule, Entry>, s: SessionID, keys: set<ACLRule>, key: ACLRule)
    requires key !in keys
    ensures Emptied(Strip(entries, s, keys), s, {key}) == Emptied(entries, s, {key})
  {
  }

  lemma StripNothing(entries: map<ACLRule, Entry>, s: SessionID)
    ensures Strip(entries, s, {}) == entries && Emptied(entries, s, {}) == {}
  {
  }

  lemma EmptiedMore(entries: map<ACLRule, Entry>, s: SessionID, keys: set<ACLRule>, key: ACLRule)
    ensures Emptied(entries, s, keys + {key}) == Emptied(entries, s, keys) + Emptied(entries, s, {key})
  {
  }

  // ----- one update -----

  ghost function AnnounceRule(st: State, s: SessionID, r: Rule): State
  {
    var rid := RouteIdentity(r);
    match T.Translate(r)
    case Err(_) => RemoveRoute(st, rid, s)
    case Ok(acl) =>
      if RouteKey(st, rid, s) == Some(acl) then st
      else RememberRoute(AddOwner(RemoveRoute(st, rid, s), acl, AclFamily(acl), s), rid, acl, s)
  }

  ghost function AnnounceDirty(st: State, s: SessionID, r: Rule): set<Family>
  {
    var rid := RouteIdentity(r);
    match T.Translate(r)
    case Err(_) => RemoveRouteDirty(st, rid, s)
    case Ok(acl) =>
      if RouteKey(st, rid, s) == Some(acl) then {}
      else RemoveRouteDirty(st, rid, s) +
           (if Appears(RemoveRoute(st, rid, s), acl) then {AclFamily(acl)} else {})
  }

  function DropSession(st: State, s: SessionID): State
  {
    if RulesOf(st, s) == {} then st.(rules := st.rules - {s})
    else State(Strip(st.entries, s, RulesOf(st, s)), st.rules - {s}, st.routes - {s})
  }

  function DropSessionDirty(st: State, s: SessionID): set<Family> { Emptied(st.entries, s, RulesOf(st, s)) }

  ghost function Apply(st: State, u: Update): State
  {
    match u
    case Announce(s, Some(r)) => AnnounceRule(st, s, r)
    case Withdraw(s, Some(r)) => RemoveRoute(st, RouteIdentity(r), s)
    case SessionDown(s) => DropSession(st, s)
    case _ => st
  }

  /** The families pushed after an update. */
  ghost function Dirty(st: State, u: Update): set<Family>
  {
    match u
    case Announce(s, Some(r)) => AnnounceDirty(st, s, r)
    case Withdraw(s, Some(r)) => RemoveRouteDirty(st, RouteIdentity(r), s)
    case SessionDown(s) => DropSessionDirty(st, s)
    case Resync => {IPv4, IPv6}
    case _ => {}
  }

  // ----- the invariant -----

  function Owning(m: map<RouteId, ACLRule>, key: ACLRule): set<RouteId>
  {
    set rid | rid in m && m[rid] == key
  }

  function RoutesOf(st: State, s: SessionID): map<RouteId, ACLRule>
  {
    if s in st.routes then st.routes[s] else map[]
  }

  /** How many routes of `s` map to `key`, by the route table. */
  function RouteCount(st: State, s: SessionID, key: ACLRule): nat { |Owning(RoutesOf(st, s), key)| }

  predicate EntryOk(k: ACLRule, e: Entry)
  {
    && e.acl == k && e.family == AclFamily(k) && |e.owners| > 0
    && forall s | s in e.owners :: e.owners[s] > 0
  }

  predicate EntriesOk(entries: map<ACLRule, Entry>) { forall k | k in entries :: EntryOk(k, entries[k]) }

  predicate NoEmptyTable(routes: Routes) { forall s | s in routes :: |routes[s]| > 0 }

  ghost predicate RulesOk(st: State)
  {
    && st.rules.Keys == st.routes.Keys
    && forall s, k | s in st.rules :: k in st.rules[s] <==> RouteCount(st, s, k) > 0
  }

  ghost predicate CountsAgree(st: State)
  {
    forall k, s :: OwnerCount(st, k, s) == RouteCount(st, s, k)
  }

  /** No inner map is empty, no entry is ownerless, the keys a session advertises are the
      values of its routes, and every owner count is the number of routes mapped to the key. */
  ghost predicate Inv(st: State)
  {
    && NoEmptyTable(st.routes) && EntriesOk(st.entries) && RulesOk(st) && CountsAgree(st)
  }

  /** The plain map that the three maps refine. */
  type Table = map<(SessionID, RouteId), ACLRule>

  function Lookup(t: Table, s: SessionID, rid: RouteId): Option<ACLRule>
  {
    if (s, rid) in t then Some(t[(s, rid)]) else None
  }

  ghost predicate RoutesMatch(st: State, t: Table)
  {
    forall s, rid :: RouteKey(st, rid, s) == Lookup(t, s, rid)
  }

  ghost predicate Refines(st: State, t: Table)
  {
    Inv(st) && RoutesMatch(st, t)
  }

  /** An update on the plain map. */
  ghost function TableStep(t: Table, u: Update): Table
  {
    match u
    case Announce(s, Some(r)) =>
      (match T.Translate(r)
       case Ok(acl) => t[(s, RouteIdentity(r)) := acl]
       case Err(_) => t - {(s, RouteIdentity(r))})
    case Withdraw(s, Some(r)) => t - {(s, RouteIdentity(r))}
    case SessionDown(s) => map k | k in t && k.0 != s :: t[k]
    case _ => t
  }

  /** The desired set of a family. */
  function Live(st: State, f: Family): set<ACLRule>
  {
    set k | k in st.entries && st.entries[k].family == f
  }

  // ----- counting -----

  lemma OwningAfterAdd(m: map<RouteId, ACLRule>, rid: RouteId, key: ACLRule, k: ACLRule)
    requires rid !in m
    ensures |Owning(m[rid := key], k)| == |Owning(m, k)| + (if k == key then 1 else 0)
  {
    assert Owning(m[rid := key], k) == if k == key then Owning(m, k) + {rid} else Owning(m, k);
  }

  lemma OwningAfterRemove(m: map<RouteId, ACLRule>, rid: RouteId, k: ACLRule)
    requires rid in m
    ensures |Owning(m - {rid}, k)| == |Owning(m, k)| - (if k == m[rid] then 1 else 0)
  {
    if k == m[rid] {
      assert rid in Owning(m, k);
      assert Owning(m - {rid}, k) == Owning(m, k) - {rid};
    } else {
      assert Owning(m - {rid}, k) == Owning(m, k);
    }
  }

  lemma OwningNonempty(m: map<RouteId, ACLRule>, rid: RouteId)
    requires rid in m
    ensures |Owning(m, m[rid])| > 0
  {
    assert rid in Owning(m, m[rid]);
  }

  // ----- how the helpers move the counts -----

  lemma ForgetCounts(st: State, rid: RouteId, s: SessionID, s': SessionID, k: ACLRule)
    requires RouteKey(st, rid, s).Some?
    ensures RouteCount(ForgetRoute(st, rid, s), s', k) ==
            RouteCount(st, s', k) - (if s' == s && k == RouteKey(st, rid, s).value then 1 else 0)
  {
    OwningAfterRemove(st.routes[s], rid, k);
  }

  lemma RememberCounts(st: State, rid: RouteId, key: ACLRule, s: SessionID, s': SessionID, k: ACLRule)
    requires RouteKey(st, rid, s).None?
    ensures RouteCount(RememberRoute(st, rid, key, s), s', k) ==
            RouteCount(st, s', k) + (if s' == s && k == key then 1 else 0)
  {
    OwningAfterAdd(RoutesOf(st, s), rid, key, k);
  }

  lemma AddOwnerCounts(st: State, key: ACLRule, fam: Family, s: SessionID, s': SessionID, k: ACLRule)
    ensures OwnerCount(AddOwner(st, key, fam, s), k, s') ==
            OwnerCount(st, k, s') + (if s' == s && k == key then 1 else 0)
  {
  }

  lemma RemoveOwnerCounts(st: State, key: ACLRule, s: SessionID, s': SessionID, k: ACLRule)
    requires OwnerCount(st, key, s) > 0
    ensures OwnerCount(RemoveOwner(st, key, s), k, s') ==
            OwnerCount(st, k, s') - (if s' == s && k == key then 1 else 0)
  {
  }

  // ----- removing a route -----

  lemma RemoveRouteCounts(st: State, rid: RouteId, s: SessionID)
    requires CountsAgree(st) && RouteKey(st, rid, s).Some?
    ensures CountsAgree(RemoveRoute(st, rid, s))
    ensures OwnerCount(ForgetRoute(st, rid, s), RouteKey(st, rid, s).value, s) > 0
  {
    var key, mid := RouteKey(st, rid, s).value, ForgetRoute(st, rid, s);
    OwningNonempty(st.routes[s], rid);
    assert OwnerCount(st, key, s) == RouteCount(st, s, key);
    forall k, s'
      ensures OwnerCount(RemoveOwner(mid, key, s), k, s') == RouteCount(RemoveOwner(mid, key, s), s', k)
    {
      ForgetCounts(st, rid, s, s', k);
      RemoveOwnerCounts(mid, key, s, s', k);
      assert OwnerCount(st, k, s') == RouteCount(st, s', k);
    }
  }

  lemma NoKeysIff(m: map<RouteId, ACLRule>)
    ensures (forall k :: |Owning(m, k)| == 0) <==> |m| == 0
  {
    if |m| > 0 {
      var rid :| rid in m;
      OwningNonempty(m, rid);
    } else {
      forall k ensures |Owning(m, k)| == 0 {
        assert Owning(m, k) == {};
      }
    }
  }

  /** The keys of one session are the keys its routes map to. */
  ghost predicate KeysOk(keys: set<ACLRule>, m: map<RouteId, ACLRule>)
  {
    forall k :: k in keys <==> |Owning(m, k)| > 0
  }

  lemma KeysEmptyIff(keys: set<ACLRule>, m: map<RouteId, ACLRule>)
    requires KeysOk(keys, m)
    ensures |keys| == 0 <==> |m| == 0
  {
    NoKeysIff(m);
    if |keys| > 0 {
      var k :| k in keys;
      assert |Owning(m, k)| > 0;
    }
  }

  /** One route fewer: its key goes exactly when it was the last route to it. */
  lemma KeysAfterRemove(keys: set<ACLRule>, m: map<RouteId, ACLRule>, rid: RouteId)
    requires KeysOk(keys, m) && rid in m
    ensures |Owning(m, m[rid])| > 0
    ensures KeysOk(if |Owning(m, m[rid])| == 1 then keys - {m[rid]} else keys, m - {rid})
  {
    OwningNonempty(m, rid);
    forall k ensures k in (if |Owning(m, m[rid])| == 1 then keys - {m[rid]} else keys) <==> |Owning(m - {rid}, k)| > 0 {
      OwningAfterRemove(m, rid, k);
    }
  }

  lemma RemoveRouteRules(st: State, rid: RouteId, s: SessionID)
    requires RulesOk(st) && RouteKey(st, rid, s).Some?
    requires OwnerCount(st, RouteKey(st, rid, s).value, s) == RouteCount(st, s, RouteKey(st, rid, s).value)
    ensures RulesOk(RemoveRoute(st, rid, s))
  {
    var key, st', m := RouteKey(st, rid, s).value, RemoveRoute(st, rid, s), st.routes[s];
    var keys := if |Owning(m, key)| == 1 then st.rules[s] - {key} else st.rules[s];
    assert KeysOk(st.rules[s], m) by {
      forall k ensures k in st.rules[s] <==> |Owning(m, k)| > 0 {
        assert k in st.rules[s] <==> RouteCount(st, s, k) > 0;
      }
    }
    KeysAfterRemove(st.rules[s], m, rid);
    KeysEmptyIff(keys, m - {rid});
    KeysEmptyIff(st.rules[s], m);
    RulesFromSession(st, st', s, keys, m - {rid});
  }

  /** A step that replaces the keys and routes of session `s` by `keys` and `m`. */
  lemma RulesFromSession(st: State, st': State, s: SessionID, keys: set<ACLRule>, m: map<RouteId, ACLRule>)
    requires RulesOk(st) && KeysOk(keys, m) && (|keys| == 0 <==> |m| == 0)
    requires st'.rules == if |keys| == 0 then st.rules - {s} else st.rules[s := keys]
    requires st'.routes == if |m| == 0 then st.routes - {s} else st.routes[s := m]
    ensures RulesOk(st')
  {
    forall s', k | s' in st'.rules ensures k in st'.rules[s'] <==> RouteCount(st', s', k) > 0 {
      if s' == s {
        assert k in keys <==> |Owning(m, k)| > 0;
      } else {
        assert k in st.rules[s'] <==> RouteCount(st, s', k) > 0;
      }
    }
  }

  lemma RemoveOwnerEntries(st: State, key: ACLRule, s: SessionID)
    requires EntriesOk(st.entries)
    ensures EntriesOk(RemoveOwner(st, key, s).entries)
  {
    var st' := RemoveOwner(st, key, s);
    forall k | k in st'.entries ensures EntryOk(k, st'.entries[k]) {
      assert k in st.entries && EntryOk(k, st.entries[k]);
      if k == key && st'.entries[k] != st.entries[k] {
        var before, after := st.entries[k].owners, st'.entries[k].owners;
        assert forall x | x in after :: x in before && (after[x] == before[x] || x == s);
      }
    }
  }

  /** Only the route `rid` of session `s` changes, to `v`. */
  ghost predicate OnlyRoute(st: State, st': State, s: SessionID, rid: RouteId, v: Option<ACLRule>)
  {
    forall s', rid' :: RouteKey(st', rid', s') == if s' == s && rid' == rid then v else RouteKey(st, rid', s')
  }

  lemma ForgetTable(st: State, rid: RouteId, s: SessionID)
    requires RouteKey(st, rid, s).Some?
    ensures NoEmptyTable(st.routes) ==> NoEmptyTable(ForgetRoute(st, rid, s).routes)
    ensures OnlyRoute(st, ForgetRoute(st, rid, s), s, rid, None)
  {
    var left := st.routes[s] - {rid};
    if |left| == 0 {
      assert forall x :: x !in left;
    }
  }

  /** Removing a route keeps the invariant and forgets that route alone. */
  lemma RemoveRouteInv(st: State, rid: RouteId, s: SessionID)
    requires Inv(st)
    ensures Inv(RemoveRoute(st, rid, s))
    ensures OnlyRoute(st, RemoveRoute(st, rid, s), s, rid, None)
  {
    if RouteKey(st, rid, s).Some? {
      var key, mid := RouteKey(st, rid, s).value, ForgetRoute(st, rid, s);
      assert OwnerCount(st, key, s) == RouteCount(st, s, key);
      RemoveRouteCounts(st, rid, s);
      RemoveRouteRules(st, rid, s);
      RemoveOwnerEntries(mid, key, s);
      ForgetTable(st, rid, s);
      assert RemoveRoute(st, rid, s).routes == mid.routes;
    }
  }

  // ----- adding a route -----

  /** What an accepted announce does once the old route is gone. */
  function AddRoute(st: State, rid: RouteId, key: ACLRule, s: SessionID): State
  {
    RememberRoute(AddOwner(st, key, AclFamily(key), s), rid, key, s)
  }

  lemma KeysAfterAdd(keys: set<ACLRule>, m: map<RouteId, ACLRule>, rid: RouteId, key: ACLRule)
    requires KeysOk(keys, m) && rid !in m
    ensures KeysOk(keys + {key}, m[rid := key])
  {
    forall k ensures k in keys + {key} <==> |Owning(m[rid := key], k)| > 0 {
      OwningAfterAdd(m, rid, key, k);
    }
  }

  lemma AddRouteRules(st: State, rid: RouteId, key: ACLRule, s: SessionID)
    requires RulesOk(st) && RouteKey(st, rid, s).None?
    ensures RulesOk(AddRoute(st, rid, key, s))
  {
    var keys, m := RulesOf(st, s), RoutesOf(st, s);
    assert KeysOk(keys, m) by {
      NoKeysIff(m);
      forall k ensures k in keys <==> |Owning(m, k)| > 0 {
        if s in st.rules {
          assert k in st.rules[s] <==> RouteCount(st, s, k) > 0;
        }
      }
    }
    KeysAfterAdd(keys, m, rid, key);
    assert key in keys + {key} && rid in m[rid := key];
    RulesFromSession(st, AddRoute(st, rid, key, s), s, keys + {key}, m[rid := key]);
  }

  lemma OwnerAdded(owners: map<SessionID, nat>, owners': map<SessionID, nat>, s: SessionID, n: nat)
    requires (forall x | x in owners :: owners[x] > 0) && owners' == owners[s := n + 1]
    ensures |owners'| > 0 && forall x | x in owners' :: owners'[x] > 0
  {
    assert s in owners';
  }

  lemma AddOwnerEntries(st: State, key: ACLRule, s: SessionID)
    requires EntriesOk(st.entries)
    ensures EntriesOk(AddOwner(st, key, AclFamily(key), s).entries)
  {
    var st' := AddOwner(st, key, AclFamily(key), s);
    assert key in st.entries ==> EntryOk(key, st.entries[key]);
    OwnerAdded(OwnersOf(st, key), st'.entries[key].owners, s, OwnerCount(st, key, s));
    forall k | k in st'.entries ensures EntryOk(k, st'.entries[k]) {
      if k != key {
        assert EntryOk(k, st.entries[k]);
      }
    }
  }

  lemma AddRouteCounts(st: State, rid: RouteId, key: ACLRule, s: SessionID)
    requires CountsAgree(st) && RouteKey(st, rid, s).None?
    ensures CountsAgree(AddRoute(st, rid, key, s))
  {
    var mid, st' := AddOwner(st, key, AclFamily(key), s), AddRoute(st, rid, key, s);
    forall k, s' ensures OwnerCount(st', k, s') == RouteCount(st', s', k) {
      AddOwnerCounts(st, key, AclFamily(key), s, s', k);
      RememberCounts(mid, rid, key, s, s', k);
      assert OwnerCount(st, k, s') == RouteCount(st, s', k);
    }
  }

  lemma AddRouteInv(st: State, rid: RouteId, key: ACLRule, s: SessionID)
    requires Inv(st) && RouteKey(st, rid, s).None?
    ensures Inv(AddRoute(st, rid, key, s))
    ensures OnlyRoute(st, AddRoute(st, rid, key, s), s, rid, Some(key))
  {
    AddRouteRules(st, rid, key, s);
    AddRouteCounts(st, rid, key, s);
    AddOwnerEntries(st, key, s);
    AddRouteTable(st, rid, key, s);
  }

  /** A table with one more route for a session. */
  lemma RememberTable(st: State, rid: RouteId, key: ACLRule, s: SessionID)
    ensures NoEmptyTable(st.routes) ==> NoEmptyTable(RememberRoute(st, rid, key, s).routes)
    ensures OnlyRoute(st, RememberRoute(st, rid, key, s), s, rid, Some(key))
  {
    var mine, st' := RoutesOf(st, s)[rid := key], RememberRoute(st, rid, key, s);
    assert rid in mine && st'.routes == st.routes[s := mine];
  }

  lemma AddRouteTable(st: State, rid: RouteId, key: ACLRule, s: SessionID)
    ensures AddRoute(st, rid, key, s).entries == AddOwner(st, key, AclFamily(key), s).entries
    ensures NoEmptyTable(st.routes) ==> NoEmptyTable(AddRoute(st, rid, key, s).routes)
    ensures OnlyRoute(st, AddRoute(st, rid, key, s), s, rid, Some(key))
  {
    var mid := AddOwner(st, key, AclFamily(key), s);
    assert mid.routes == st.routes;
    RememberTable(mid, rid, key, s);
    assert forall s', rid' :: RouteKey(mid, rid', s') == RouteKey(st, rid', s');
  }

  // ----- dropping a session -----

  lemma StripEntries(entries: map<ACLRule, Entry>, s: SessionID, keys: set<ACLRule>)
    requires EntriesOk(entries)
    ensures EntriesOk(Strip(entries, s, keys))
  {
    var entries' := Strip(entries, s, keys);
    forall k | k in entries' ensures EntryOk(k, entries'[k]) {
      assert EntryOk(k, entries[k]);
      if k in keys && s !in entries[k].owners {
        assert entries[k].owners - {s} == entries[k].owners;
      }
    }
  }

  lemma DropSessionCount(st: State, s: SessionID, k: ACLRule, s': SessionID)
    requires Inv(st) && RulesOf(st, s) != {}
    ensures OwnerCount(DropSession(st, s), k, s') == if s' == s then 0 else OwnerCount(st, k, s')
  {
    assert k in st.rules[s] <==> RouteCount(st, s, k) > 0;
    assert OwnerCount(st, k, s) == RouteCount(st, s, k);
    if k in st.entries {
      assert EntryOk(k, st.entries[k]);
      StrippedCount(st, s, k, s');
    }
  }

  lemma DropSessionCounts(st: State, s: SessionID)
    requires Inv(st) && RulesOf(st, s) != {}
    ensures CountsAgree(DropSession(st, s))
  {
    var st' := DropSession(st, s);
    forall k, s' ensures OwnerCount(st', k, s') == RouteCount(st', s', k) {
      DropSessionCount(st, s, k, s');
      DropSessionRoutes(st, s, s', k);
      assert OwnerCount(st, k, s') == RouteCount(st, s', k);
    }
  }

  lemma DropSessionRoutes(st: State, s: SessionID, s': SessionID, k: ACLRule)
    requires RulesOf(st, s) != {}
    ensures RouteCount(DropSession(st, s), s', k) == if s' == s then 0 else RouteCount(st, s', k)
  {
    if s' == s {
      assert Owning(RoutesOf(DropSession(st, s), s), k) == {};
    }
  }

  lemma KeysOfSession(st: State, s: SessionID)
    requires RulesOk(st) && s in st.rules
    ensures KeysOk(st.rules[s], st.routes[s])
  {
    forall k ensures k in st.rules[s] <==> |Owning(st.routes[s], k)| > 0 {
      assert k in st.rules[s] <==> RouteCount(st, s, k) > 0;
    }
  }

  /** Stripping a session empties its own counts and leaves the others. */
  lemma StrippedCount(st: State, s: SessionID, k: ACLRule, s': SessionID)
    requires k in st.entries && EntryOk(k, st.entries[k]) && RulesOf(st, s) != {}
    requires k in RulesOf(st, s) <==> s in st.entries[k].owners
    ensures OwnerCount(DropSession(st, s), k, s') == if s' == s then 0 else OwnerCount(st, k, s')
  {
    var left := st.entries[k].owners - {s};
    if |left| == 0 {
      assert s' !in left;
    }
  }

  /** A session without advertised keys has no routes, so the early return has nothing to undo. */
  lemma EarlyReturn(st: State, s: SessionID)
    requires Inv(st) && RulesOf(st, s) == {}
    ensures s !in st.routes && DropSession(st, s) == st
  {
    if s in st.rules {
      KeysOfSession(st, s);
      KeysEmptyIff(st.rules[s], st.routes[s]);
    }
    assert s !in st.rules;
    assert st.rules - {s} == st.rules;
  }

  /** A session that goes down leaves nothing behind and disturbs no other session. */
  lemma DropSessionInv(st: State, s: SessionID)
    requires Inv(st)
    ensures Inv(DropSession(st, s))
    ensures forall s', rid :: RouteKey(DropSession(st, s), rid, s') ==
                              if s' == s then None else RouteKey(st, rid, s')
  {
    if RulesOf(st, s) == {} {
      EarlyReturn(st, s);
    } else {
      StripEntries(st.entries, s, st.rules[s]);
      DropSessionCounts(st, s);
      DropSessionRules(st, s);
    }
  }

  lemma DropSessionRules(st: State, s: SessionID)
    requires RulesOk(st) && s in st.rules && RulesOf(st, s) != {}
    ensures RulesOk(DropSession(st, s))
  {
    var st' := DropSession(st, s);
    forall s', k | s' in st'.rules ensures k in st'.rules[s'] <==> RouteCount(st', s', k) > 0 {
      assert k in st.rules[s'] <==> RouteCount(st, s', k) > 0;
    }
  }

  // ----- every update -----

  lemma MatchAfterSet(st: State, st': State, t: Table, s: SessionID, rid: RouteId, acl: ACLRule)
    requires RoutesMatch(st, t) && OnlyRoute(st, st', s, rid, Some(acl))
    ensures RoutesMatch(st', t[(s, rid) := acl])
  {
  }

  lemma MatchAfterRemove(st: State, st': State, t: Table, s: SessionID, rid: RouteId)
    requires RoutesMatch(st, t) && OnlyRoute(st, st', s, rid, None)
    ensures RoutesMatch(st', t - {(s, rid)})
  {
  }

  /** An accepted announce leaves exactly its own route changed. */
  lemma AcceptedAnnounce(st: State, s: SessionID, r: Rule)
    requires Inv(st) && T.Translate(r).Ok?
    ensures Inv(AnnounceRule(st, s, r))
    ensures OnlyRoute(st, AnnounceRule(st, s, r), s, RouteIdentity(r), Some(T.Translate(r).value))
  {
    var rid, acl := RouteIdentity(r), T.Translate(r).value;
    var mid := RemoveRoute(st, rid, s);
    if RouteKey(st, rid, s) != Some(acl) {
      RemoveRouteInv(st, rid, s);
      AddRouteInv(mid, rid, acl, s);
      assert AnnounceRule(st, s, r) == AddRoute(mid, rid, acl, s);
    }
  }

  lemma ApplyInv(st: State, u: Update)
    requires Inv(st)
    ensures Inv(Apply(st, u))
  {
    match u
    case Announce(s, Some(r)) =>
      if T.Translate(r).Ok? {
        AcceptedAnnounce(st, s, r);
      } else {
        RemoveRouteInv(st, RouteIdentity(r), s);
      }
    case Withdraw(s, Some(r)) => RemoveRouteInv(st, RouteIdentity(r), s);
    case SessionDown(s) => DropSessionInv(st, s);
    case _ =>
  }

  lemma AnnounceRefines(st: State, t: Table, s: SessionID, r: Rule)
    requires Refines(st, t)
    ensures Refines(AnnounceRule(st, s, r), TableStep(t, Announce(s, Some(r))))
  {
    var rid := RouteIdentity(r);
    if T.Translate(r).Ok? {
      AcceptedAnnounce(st, s, r);
      MatchAfterSet(st, AnnounceRule(st, s, r), t, s, rid, T.Translate(r).value);
    } else {
      RemoveRouteInv(st, rid, s);
      MatchAfterRemove(st, RemoveRoute(st, rid, s), t, s, rid);
    }
  }

  /** Every update keeps the invariant and does to the maps what it does to the plain map. */
  lemma ApplyRefines(st: State, t: Table, u: Update)
    requires Refines(st, t)
    ensures Refines(Apply(st, u), TableStep(t, u))
  {
    match u
    case Announce(s, Some(r)) => AnnounceRefines(st, t, s, r);
    case Withdraw(s, Some(r)) =>
      RemoveRouteInv(st, RouteIdentity(r), s);
      MatchAfterRemove(st, RemoveRoute(st, RouteIdentity(r), s), t, s, RouteIdentity(r));
    case SessionDown(s) =>
      DropSessionInv(st, s);
    case _ =>
  }
}
