/** When the manager pushes a family: exactly when the family's desired set has changed. */
module Pushes {
  import opened FlowSpec
  import opened Acl
  import opened ManagerState
  import T = Translate

  /** Under the invariant the desired set of a family is its share of the entry keys. */
  lemma LiveByKeys(st: State, f: Family)
    requires EntriesOk(st.entries)
    ensures Live(st, f) == set k | k in st.entries && AclFamily(k) == f
  {
    forall k | k in st.entries ensures st.entries[k].family == AclFamily(k) {
      assert EntryOk(k, st.entries[k]);
    }
  }

  /** An entry is live exactly while some route maps to it. */
  lemma LiveIff(st: State, k: ACLRule)
    requires Inv(st)
    ensures k in st.entries <==> exists s, rid :: RouteKey(st, rid, s) == Some(k)
  {
    if k in st.entries {
      assert EntryOk(k, st.entries[k]);
      var s :| s in st.entries[k].owners;
      assert OwnerCount(st, k, s) == RouteCount(st, s, k);
      var rid :| rid in Owning(RoutesOf(st, s), k);
      assert RouteKey(st, rid, s) == Some(k);
    }
    if s, rid :| RouteKey(st, rid, s) == Some(k) {
      OwningNonempty(st.routes[s], rid);
      assert OwnerCount(st, k, s) == RouteCount(st, s, k);
    }
  }

  function FamiliesOf(keys: set<ACLRule>): set<Family> { set k | k in keys :: AclFamily(k) }

  lemma FamiliesUnion(a: set<ACLRule>, b: set<ACLRule>)
    ensures FamiliesOf(a + b) == FamiliesOf(a) + FamiliesOf(b)
  {
    assert forall k | k in a :: k in a + b;
    assert forall k | k in b :: k in a + b;
  }

  /** Two entry maps show the same family share unless a key of that family came or went. */
  lemma ShareChanges(keys: set<ACLRule>, keys': set<ACLRule>, gone: set<ACLRule>, added: set<ACLRule>, f: Family)
    requires gone <= keys && added !! keys && keys' == keys - gone + added
    ensures (set k | k in keys' && AclFamily(k) == f) != (set k | k in keys && AclFamily(k) == f) <==>
            f in FamiliesOf(gone + added)
  {
    var before, after := set k | k in keys && AclFamily(k) == f, set k | k in keys' && AclFamily(k) == f;
    if f in FamiliesOf(gone + added) {
      var k :| k in gone + added && AclFamily(k) == f;
      assert (k in after) != (k in before);
    } else {
      forall k ensures k in after <==> k in before {
        if k in gone + added {
          assert AclFamily(k) in FamiliesOf(gone + added);
        }
      }
    }
  }

  /** The keys leave by `gone` and come by `added`; the dirty families are theirs. */
  lemma KeysDecideDirty(st: State, st': State, gone: set<ACLRule>, added: set<ACLRule>, f: Family)
    requires EntriesOk(st.entries) && EntriesOk(st'.entries)
    requires gone <= st.entries.Keys && added !! st.entries.Keys
    requires st'.entries.Keys == st.entries.Keys - gone + added
    ensures Live(st', f) != Live(st, f) <==> f in FamiliesOf(gone + added)
  {
    LiveByKeys(st, f);
    LiveByKeys(st', f);
    ShareChanges(st.entries.Keys, st'.entries.Keys, gone, added, f);
    assert (set k | k in st.entries.Keys && AclFamily(k) == f) == (set k | k in st.entries && AclFamily(k) == f);
    assert (set k | k in st'.entries.Keys && AclFamily(k) == f) == (set k | k in st'.entries && AclFamily(k) == f);
  }

  lemma KeysGone(st: State, st': State, gone: set<ACLRule>, f: Family)
    requires EntriesOk(st.entries) && EntriesOk(st'.entries)
    requires gone <= st.entries.Keys && st'.entries.Keys == st.entries.Keys - gone
    ensures Live(st', f) != Live(st, f) <==> f in FamiliesOf(gone)
  {
    assert gone + {} == gone;
    KeysDecideDirty(st, st', gone, {}, f);
  }

  lemma KeysSwapped(st: State, mid: State, st': State, gone: set<ACLRule>, acl: ACLRule, f: Family)
    requires EntriesOk(st.entries) && EntriesOk(st'.entries) && gone <= st.entries.Keys && acl !in gone
    requires mid.entries.Keys == st.entries.Keys - gone && st'.entries.Keys == mid.entries.Keys + {acl}
    ensures Live(st', f) != Live(st, f) <==>
            f in FamiliesOf(gone) + (if acl in mid.entries then {} else {AclFamily(acl)})
  {
    var before, after := st.entries.Keys, st'.entries.Keys;
    if acl in mid.entries {
      assert after == before - gone;
      KeysGone(st, st', gone, f);
    } else {
      assert acl !in before;
      assert after == before - gone + {acl};
      KeysDecideDirty(st, st', gone, {acl}, f);
      FamiliesUnion(gone, {acl});
      assert FamiliesOf({acl}) == {AclFamily(acl)};
    }
  }

  /** The key a route removal takes out of the entries, if any. */
  function RemovedKeys(st: State, rid: RouteId, s: SessionID): set<ACLRule>
  {
    match RouteKey(st, rid, s)
    case None => {}
    case Some(key) => if key in st.entries && Vanishes(st, key, s) then {key} else {}
  }

  lemma RemoveOwnerKeys(st: State, key: ACLRule, s: SessionID)
    requires OwnerCount(st, key, s) > 0
    ensures RemoveOwner(st, key, s).entries.Keys ==
            if Vanishes(st, key, s) then st.entries.Keys - {key} else st.entries.Keys
  {
    var n := OwnerCount(st, key, s);
    if n > 1 {
      assert s in OwnersOf(st, key)[s := n - 1];
    }
  }

  lemma VanishesByEntries(a: State, b: State, key: ACLRule, s: SessionID)
    requires a.entries == b.entries
    ensures Vanishes(a, key, s) == Vanishes(b, key, s) && OwnerCount(a, key, s) == OwnerCount(b, key, s)
  {
  }

  lemma RemoveRouteKeys(st: State, rid: RouteId, s: SessionID)
    requires Inv(st)
    ensures RemoveRoute(st, rid, s).entries.Keys == st.entries.Keys - RemovedKeys(st, rid, s)
    ensures RemovedKeys(st, rid, s) <= st.entries.Keys
  {
    if RouteKey(st, rid, s).Some? {
      var key, mid := RouteKey(st, rid, s).value, ForgetRoute(st, rid, s);
      RemoveRouteCounts(st, rid, s);
      assert mid.entries == st.entries;
      VanishesByEntries(st, mid, key, s);
      RemoveOwnerKeys(mid, key, s);
    }
  }

  lemma RemovedFamily(st: State, rid: RouteId, s: SessionID)
    requires EntriesOk(st.entries)
    ensures RemoveRouteDirty(st, rid, s) == FamiliesOf(RemovedKeys(st, rid, s))
  {
    if RouteKey(st, rid, s).Some? && RouteKey(st, rid, s).value in st.entries {
      var key := RouteKey(st, rid, s).value;
      assert EntryOk(key, st.entries[key]);
      assert FamiliesOf({key}) == {AclFamily(key)};
    }
  }

  lemma RemoveRouteExact(st: State, rid: RouteId, s: SessionID, f: Family)
    requires Inv(st)
    ensures f in RemoveRouteDirty(st, rid, s) <==> Live(RemoveRoute(st, rid, s), f) != Live(st, f)
  {
    RemoveRouteInv(st, rid, s);
    RemoveRouteKeys(st, rid, s);
    RemovedFamily(st, rid, s);
    KeysGone(st, RemoveRoute(st, rid, s), RemovedKeys(st, rid, s), f);
  }

  lemma AppearsIff(st: State, key: ACLRule)
    requires EntriesOk(st.entries)
    ensures Appears(st, key) <==> key !in st.entries
  {
    if key in st.entries {
      assert EntryOk(key, st.entries[key]);
    }
  }

  lemma AnnouncedKeys(st: State, s: SessionID, r: Rule)
    requires T.Translate(r).Ok? && RouteKey(st, RouteIdentity(r), s) != Some(T.Translate(r).value)
    ensures AnnounceRule(st, s, r).entries.Keys ==
            RemoveRoute(st, RouteIdentity(r), s).entries.Keys + {T.Translate(r).value}
    ensures T.Translate(r).value !in RemovedKeys(st, RouteIdentity(r), s)
  {
  }

  lemma AcceptedExact(st: State, s: SessionID, r: Rule, f: Family)
    requires Inv(st) && T.Translate(r).Ok? && RouteKey(st, RouteIdentity(r), s) != Some(T.Translate(r).value)
    ensures f in AnnounceDirty(st, s, r) <==> Live(AnnounceRule(st, s, r), f) != Live(st, f)
  {
    var rid, acl := RouteIdentity(r), T.Translate(r).value;
    var mid := RemoveRoute(st, rid, s);
    RemoveRouteInv(st, rid, s);
    AcceptedAnnounce(st, s, r);
    AppearsIff(mid, acl);
    RemovedFamily(st, rid, s);
    RemoveRouteKeys(st, rid, s);
    AnnouncedKeys(st, s, r);
    KeysSwapped(st, mid, AnnounceRule(st, s, r), RemovedKeys(st, rid, s), acl, f);
  }

  /** The keys a session's end takes out of the entries. */
  function DroppedKeys(st: State, s: SessionID): set<ACLRule>
  {
    set k | k in st.entries && k in RulesOf(st, s) && s in st.entries[k].owners && |st.entries[k].owners - {s}| == 0
  }

  lemma DroppedFamily(st: State, s: SessionID)
    requires EntriesOk(st.entries)
    ensures DropSessionDirty(st, s) == FamiliesOf(DroppedKeys(st, s))
  {
    forall k | k in st.entries ensures st.entries[k].family == AclFamily(k) {
      assert EntryOk(k, st.entries[k]);
    }
    forall f ensures f in DropSessionDirty(st, s) <==> f in FamiliesOf(DroppedKeys(st, s)) {
      if f in DropSessionDirty(st, s) {
        var k :| k in DroppedKeys(st, s) && st.entries[k].family == f;
      }
      if f in FamiliesOf(DroppedKeys(st, s)) {
        var k :| k in DroppedKeys(st, s) && AclFamily(k) == f;
        assert st.entries[k].family in DropSessionDirty(st, s);
      }
    }
  }

  lemma DropSessionKeys(st: State, s: SessionID)
    ensures DropSession(st, s).entries.Keys == st.entries.Keys - DroppedKeys(st, s)
  {
  }

  lemma DropSessionExact(st: State, s: SessionID, f: Family)
    requires Inv(st)
    ensures f in DropSessionDirty(st, s) <==> Live(DropSession(st, s), f) != Live(st, f)
  {
    DropSessionInv(st, s);
    DroppedFamily(st, s);
    DropSessionKeys(st, s);
    KeysGone(st, DropSession(st, s), DroppedKeys(st, s), f);
  }

  /** No push is missed and none is made for nothing. */
  lemma DirtyExact(st: State, u: Update, f: Family)
    requires Inv(st) && !u.Resync?
    ensures f in Dirty(st, u) <==> Live(Apply(st, u), f) != Live(st, f)
  {
    match u
    case Announce(s, Some(r)) =>
      if T.Translate(r).Err? {
        RemoveRouteExact(st, RouteIdentity(r), s, f);
      } else if RouteKey(st, RouteIdentity(r), s) != Some(T.Translate(r).value) {
        AcceptedExact(st, s, r, f);
      }
    case Withdraw(s, Some(r)) =>
      RemoveRouteExact(st, RouteIdentity(r), s, f);
    case SessionDown(s) =>
      DropSessionExact(st, s, f);
    case _ =>
  }
}
