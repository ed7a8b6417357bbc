/**
  Whole runs of the manager. The state after any sequence of updates is related to the history
  itself, and the ACL pushed from it to the packets the standing announcements cover.
 */
module EndToEnd {
  import opened FlowSpec
  import opened Acl
  import opened ManagerState
  import opened Pushes
  import T = Translate

  ghost function Run(us: seq<Update>): State
  {
    if us == [] then EMPTY else Apply(Run(us[..|us| - 1]), us[|us| - 1])
  }

  ghost function TableOf(us: seq<Update>): Table
  {
    if us == [] then map[] else TableStep(TableOf(us[..|us| - 1]), us[|us| - 1])
  }

  lemma EmptyInv()
    ensures Refines(EMPTY, map[])
  {
    forall k, s ensures OwnerCount(EMPTY, k, s) == RouteCount(EMPTY, s, k) {
      NoKeysIff(map[]);
    }
  }

  /** Every reachable state keeps the invariant and refines the plain map. */
  lemma {:induction false} RunRefines(us: seq<Update>)
    ensures Refines(Run(us), TableOf(us))
  {
    if us == [] {
      EmptyInv();
    } else {
      RunRefines(us[..|us| - 1]);
      ApplyRefines(Run(us[..|us| - 1]), TableOf(us[..|us| - 1]), us[|us| - 1]);
    }
  }

  // ----- the history -----

  predicate Announces(u: Update) { u.Announce? && u.rule.Some? }

  /** An update that puts an end to the route `rid` of session `s`. */
  predicate Supersedes(u: Update, s: SessionID, rid: RouteId)
  {
    match u
    case Announce(s', Some(r)) => s' == s && RouteIdentity(r) == rid
    case Withdraw(s', Some(r)) => s' == s && RouteIdentity(r) == rid
    case SessionDown(s') => s' == s
    case _ => false
  }

  /** The announcement at `i` still stands: nothing after it replaced, withdrew or dropped it. */
  predicate Standing(us: seq<Update>, i: int)
  {
    && 0 <= i < |us| && Announces(us[i])
    && forall j | i < j < |us| :: !Supersedes(us[j], us[i].session, RouteIdentity(us[i].rule.value))
  }

  /** The standing announcement at `i` is of this route and became this entry. */
  ghost predicate StandsAs(us: seq<Update>, i: int, s: SessionID, rid: RouteId, acl: ACLRule)
  {
    && Standing(us, i) && us[i].session == s && RouteIdentity(us[i].rule.value) == rid
    && T.Translate(us[i].rule.value) == Ok(acl)
  }

  lemma StandingStep(us: seq<Update>, i: int)
    requires us != [] && 0 <= i < |us| - 1 && Announces(us[i])
    ensures Standing(us, i) <==>
            && Standing(us[..|us| - 1], i)
            && !Supersedes(us[|us| - 1], us[i].session, RouteIdentity(us[i].rule.value))
  {
    var init := us[..|us| - 1];
    assert forall j | 0 <= j < |init| :: init[j] == us[j];
  }

  lemma TableStepLookup(t: Table, u: Update, s: SessionID, rid: RouteId)
    ensures Lookup(TableStep(t, u), s, rid) ==
            if !Supersedes(u, s, rid) then Lookup(t, s, rid)
            else if u.Announce? && T.Translate(u.rule.value).Ok? then Some(T.Translate(u.rule.value).value)
            else None
  {
  }

  /** The plain map holds exactly the accepted announcements that still stand. */
  lemma {:induction false} TableByHistory(us: seq<Update>, s: SessionID, rid: RouteId, acl: ACLRule)
    ensures Lookup(TableOf(us), s, rid) == Some(acl) <==> exists i :: StandsAs(us, i, s, rid, acl)
  {
    if us != [] {
      var init, u := us[..|us| - 1], us[|us| - 1];
      TableByHistory(init, s, rid, acl);
      TableStepLookup(TableOf(init), u, s, rid);
      if i :| StandsAs(init, i, s, rid, acl) && !Supersedes(u, s, rid) {
        StandingStep(us, i);
        assert StandsAs(us, i, s, rid, acl);
      }
      if i :| StandsAs(us, i, s, rid, acl) && i < |us| - 1 {
        StandingStep(us, i);
        assert StandsAs(init, i, s, rid, acl);
      }
      if Supersedes(u, s, rid) && u.Announce? && T.Translate(u.rule.value) == Ok(acl) {
        assert StandsAs(us, |us| - 1, s, rid, acl);
      }
    }
  }

  /** An entry is desired after a run exactly when a standing announcement became it. */
  lemma LiveByHistory(us: seq<Update>, k: ACLRule)
    ensures k in Run(us).entries <==> exists i :: Standing(us, i) && T.Translate(us[i].rule.value) == Ok(k)
  {
    var st := Run(us);
    RunRefines(us);
    LiveIff(st, k);
    if s, rid :| RouteKey(st, rid, s) == Some(k) {
      assert Lookup(TableOf(us), s, rid) == Some(k);
      TableByHistory(us, s, rid, k);
      var i :| StandsAs(us, i, s, rid, k);
    }
    if i :| Standing(us, i) && T.Translate(us[i].rule.value) == Ok(k) {
      var s, rid := us[i].session, RouteIdentity(us[i].rule.value);
      assert StandsAs(us, i, s, rid, k);
      TableByHistory(us, s, rid, k);
      assert RouteKey(st, rid, s) == Some(k);
    }
  }

  // ----- packets -----

  /** An accepted rule covers the packet (a protocol list `= 0` counts as any protocol). */
  ghost predicate Blocks(r: Rule, p: Packet)
  {
    T.Translate(r).Ok? && Covers(T.Effective(r), p)
  }

  ghost predicate SomeStandingBlocks(us: seq<Update>, p: Packet)
  {
    exists i :: Standing(us, i) && Blocks(us[i].rule.value, p)
  }

  lemma BlocksIsMatch(r: Rule, p: Packet)
    requires T.Translate(r).Ok?
    ensures Blocks(r, p) <==> EntryMatches(T.Translate(r).value, p)
    ensures AclFamily(T.Translate(r).value) == r.family && DenyOf(r.family, T.Translate(r).value)
    ensures Blocks(r, p) ==> r.family == FamilyOf(p)
  {
    T.TranslatePreserves(r, p);
    T.TranslateDenies(r);
  }

  lemma DesiredMatch(us: seq<Update>, f: Family, p: Packet)
    requires FamilyOf(p) == f
    ensures (exists k :: k in Live(Run(us), f) && EntryMatches(k, p)) <==> SomeStandingBlocks(us, p)
  {
    RunRefines(us);
    LiveByKeys(Run(us), f);
    if k :| k in Live(Run(us), f) && EntryMatches(k, p) {
      LiveByHistory(us, k);
      var i :| Standing(us, i) && T.Translate(us[i].rule.value) == Ok(k);
      BlocksIsMatch(us[i].rule.value, p);
    }
    if i :| Standing(us, i) && Blocks(us[i].rule.value, p) {
      var k := T.Translate(us[i].rule.value).value;
      BlocksIsMatch(us[i].rule.value, p);
      LiveByHistory(us, k);
      assert k in Live(Run(us), f);
    }
  }

  lemma DesiredDenies(us: seq<Update>, f: Family, k: ACLRule)
    requires k in Live(Run(us), f)
    ensures DenyOf(f, k)
  {
    RunRefines(us);
    LiveByKeys(Run(us), f);
    LiveByHistory(us, k);
    var i :| Standing(us, i) && T.Translate(us[i].rule.value) == Ok(k);
    T.TranslateDenies(us[i].rule.value);
  }

  /** The family's ACL gives the packet the verdict the history calls for. */
  ghost predicate Enforces(us: seq<Update>, f: Family, rules: seq<ACLRule>, p: Packet)
  {
    FirstMatch(BuildACL(f, rules), p) ==
    if FamilyOf(p) != f then None
    else if SomeStandingBlocks(us, p) then Some(Deny)
    else Some(Permit)
  }

  /** End to end: after any run, the ACL pushed for a family (its desired entries in any order)
      denies a packet of that family exactly when a standing, accepted announcement covers it,
      and permits it otherwise. */
  lemma ManagedVerdict(us: seq<Update>, f: Family, rules: seq<ACLRule>, p: Packet)
    requires forall k :: k in rules <==> k in Live(Run(us), f)
    ensures Enforces(us, f, rules, p)
  {
    forall k | k in rules ensures DenyOf(f, k) {
      DesiredDenies(us, f, k);
    }
    Blocklist(f, rules, p);
    if FamilyOf(p) == f {
      DesiredMatch(us, f, p);
      if r :| r in rules && EntryMatches(r, p) {
        assert r in Live(Run(us), f);
      }
      if k :| k in Live(Run(us), f) && EntryMatches(k, p) {
        assert k in rules;
      }
    }
  }

  /** Where no standing rule says `proto = 0`, "blocks" is plain coverage by the rule. */
  lemma BlocksIsCovers(us: seq<Update>, p: Packet)
    requires forall i | Standing(us, i) :: !ProtoIsZero(us[i].rule.value.match_)
    ensures SomeStandingBlocks(us, p) <==>
            exists i :: Standing(us, i) && T.Translate(us[i].rule.value).Ok? && Covers(us[i].rule.value, p)
  {
    if i :| Standing(us, i) && Blocks(us[i].rule.value, p) {
      assert T.Effective(us[i].rule.value) == us[i].rule.value;
    }
    if i :| Standing(us, i) && T.Translate(us[i].rule.value).Ok? && Covers(us[i].rule.value, p) {
      assert Blocks(us[i].rule.value, p);
    }
  }
}
