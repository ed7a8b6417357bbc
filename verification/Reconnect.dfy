/**
  The agent and VPP as interleaved actors: sources that enqueue updates, the manager that takes
  one update at a time and pushes its dirty families, the event handler that re-creates and
  attaches the managed ACLs after a reconnect, operators who edit their own ACLs and lists, and
  VPP itself, which may restart between any two steps.

  A push and a bootstrap exclude each other (`opMu`), but a bootstrap is a sequence of VPP
  calls, and VPP may be lost in the middle of it. Every call may fail, and a failed call may or
  may not have taken effect.
 */
module Reconnect {
  import opened FlowSpec
  import opened Acl
  import opened ManagerState
  import opened Pushes
  import opened InterfaceLists
  import E = EndToEnd
  import T = Translate

  /** Whose ACL it is, by the tag it carries. */
  datatype Tag = Managed(family: Family) | Foreign(name: string)

  datatype Installed = Installed(tag: Tag, rules: seq<ACLRule>)

  type Acls = map<AclIndex, Installed>

  type Lists = map<nat, AclList>

  /** What attaching works from, all read at its start: the data-plane interfaces, the indices to
      strip and the lists as they were; the interfaces still to do, and those whose merged list
      had more than 255 entries. */
  datatype Job = Job(ifs: set<nat>, todo: set<nat>, out: set<nat>, managed: set<AclIndex>, lists: Lists)
  {
    /** Interfaces attached so far. */
    function Done(): set<nat> { ifs - todo - out }
  }

  /** Where the event handler stands; `gen` is the VPP generation its bootstrap began in. It
      holds `opMu` from `Create4` through `Cleanup`. */
  datatype Handler = Idle | Create4(gen: nat) | Create6(gen: nat) | Dump(gen: nat) | Attach(gen: nat, job: Job)
                   | Cleanup(gen: nat) | Notify(gen: nat)
  {
    predicate Locked() { Create4? || Create6? || Dump? || Attach? || Cleanup? }
  }

  /** A managed ACL index and the generation that handed it out. */
  datatype Handle = Handle(index: AclIndex, gen: nat)

  datatype Sys = Sys(
    taken: seq<Update>, mgr: State, queue: seq<Update>, work: set<Family>, failed: set<Family>,
    generation: nat, acls: Acls, lists: Lists, dataplane: set<nat>, dumped: set<nat>, outgrown: set<nat>, dir: Direction,
    idx4: Option<Handle>, idx6: Option<Handle>, handler: Handler, boot: Option<nat>)
  {
    function Idx(f: Family): Option<Handle> { if f.IPv4? then idx4 else idx6 }

    function SetIdx(f: Family, h: Option<Handle>): Sys
    {
      if f.IPv4? then this.(idx4 := h) else this.(idx6 := h)
    }

    predicate HasPair() { idx4.Some? && idx6.Some? }

    function Pair(): seq<AclIndex>
      requires HasPair()
    {
      [idx4.value.index, idx6.value.index]
    }

    /** The interfaces the last finished attaching worked through, without those that had no room. */
    function Attached(): set<nat> { dumped - outgrown }

    /** The last bootstrap ran to its end and VPP has not restarted since it began. */
    predicate Bootstrapped() { boot == Some(generation) }

    /** A resync for the last bootstrap is still on its way, or the family awaits a push. */
    predicate Pending(f: Family) { handler.Notify? || Resync in queue || f in work }

    /** Nothing is outstanding for the family and its last push succeeded. */
    predicate Quiet(f: Family) { !Pending(f) && f !in failed }
  }

  /** A list of a family's desired entries. */
  ghost predicate DesiredList(st: State, f: Family, rules: seq<ACLRule>)
  {
    forall k :: k in rules <==> k in Live(st, f)
  }

  function Tagged(acls: Acls): set<AclIndex> { set i | i in acls && acls[i].tag.Managed? }

  function Contents(acls: Acls): map<AclIndex, seq<ACLRule>> { map i | i in acls :: acls[i].rules }

  /** Lists as VPP keeps them: both lengths fit a byte and every index is that of an ACL. VPP
      refuses to attach an undefined ACL and to delete an attached one. */
  predicate ListsSound(lists: Lists, acls: Acls)
  {
    Reported(lists) && forall k | k in lists :: Defined(lists[k], acls)
  }

  predicate Defined(l: AclList, acls: Acls) { forall a | a in l.acls :: a in acls }

  // ----- the steps -----

  /** The effect of `acl_add_replace` at handle `h`: an unset handle creates a fresh ACL, a set
      one replaces rules and tag of whatever ACL has that index. */
  predicate Replaced(s: Sys, f: Family, rules: seq<ACLRule>, i: AclIndex, acls': Acls)
  {
    && (if s.Idx(f).Some? then i == s.Idx(f).value.index && i in s.acls else i !in s.acls)
    && acls' == s.acls[i := Installed(Managed(f), BuildACL(f, rules))]
  }

  predicate Deliver(s: Sys, s': Sys, u: Update)
  {
    !u.Resync? && s' == s.(queue := s.queue + [u])
  }

  /** The manager takes the next update once its pushes are done. */
  ghost predicate Take(s: Sys, s': Sys)
  {
    && s.work == {} && s.queue != []
    && s' == s.(taken := s.taken + [s.queue[0]], mgr := Apply(s.mgr, s.queue[0]),
                queue := s.queue[1..], work := Dirty(s.mgr, s.queue[0]))
  }

  /** A push may start: no bootstrap is under way. */
  ghost predicate MayPush(s: Sys, f: Family, rules: seq<ACLRule>)
  {
    !s.handler.Locked() && f in s.work && DesiredList(s.mgr, f, rules)
  }

  /** A successful push keeps the handle it used, or records the one it got. */
  ghost predicate PushOk(s: Sys, s': Sys, f: Family, rules: seq<ACLRule>, i: AclIndex)
  {
    && MayPush(s, f, rules)
    && exists acls' ::
         && Replaced(s, f, rules, i, acls')
         && s' == s.(acls := acls', work := s.work - {f}, failed := s.failed - {f})
                   .SetIdx(f, if s.Idx(f).Some? then s.Idx(f) else Some(Handle(i, s.generation)))
  }

  /** A failed push is logged and not retried; it may have reached VPP. */
  ghost predicate PushFail(s: Sys, s': Sys, f: Family, rules: seq<ACLRule>, acls': Acls)
  {
    && MayPush(s, f, rules)
    && (acls' == s.acls || exists i :: Replaced(s, f, rules, i, acls'))
    && s' == s.(acls := acls', work := s.work - {f}, failed := s.failed + {f})
  }

  /** VPP is lost and comes back with whatever its own configuration creates. */
  predicate Restart(s: Sys, s': Sys, acls': Acls, lists': Lists, dataplane': set<nat>)
  {
    && ListsSound(lists', acls')
    && s' == s.(generation := s.generation + 1, acls := acls', lists := lists', dataplane := dataplane')
  }

  predicate BootStart(s: Sys, s': Sys)
  {
    s.handler.Idle? && s' == s.(handler := Create4(s.generation), idx4 := None, idx6 := None, boot := None)
  }

  /** The effect of creating a family's empty ACL. */
  predicate Created(s: Sys, f: Family, i: AclIndex, acls': Acls)
  {
    i !in s.acls && acls' == s.acls[i := Installed(Managed(f), BuildACL(f, []))]
  }

  /** The family whose ACL is created next. */
  predicate Creating(s: Sys, f: Family) { if f.IPv4? then s.handler.Create4? else s.handler.Create6? }

  predicate BootCreate(s: Sys, s': Sys, f: Family, i: AclIndex)
  {
    && Creating(s, f) && s.Idx(f).None?
    && Created(s, f, i, s'.acls)
    && s' == s.(acls := s'.acls, handler := if f.IPv4? then Create6(s.handler.gen) else Dump(s.handler.gen))
              .SetIdx(f, Some(Handle(i, s.generation)))
  }

  /** Interfaces, tags and lists are read. The indices to strip are our pair and, unless the dump
      of tags failed, every tagged ACL. */
  predicate AttachDump(s: Sys, s': Sys, managed: set<AclIndex>)
  {
    && s.handler.Dump? && s.HasPair()
    && var ours := set a | a in s.Pair();
    && (managed == ours || managed == Tagged(s.acls) + ours)
    && s' == s.(handler := Attach(s.handler.gen, Job(s.dataplane, s.dataplane, {}, managed, s.lists)))
  }

  /** The list meant for an interface, merged from what was read. */
  function Target(s: Sys, i: nat): AclList
    requires s.handler.Attach? && s.HasPair()
  {
    Merge(ListOf(s.handler.job.lists, i), s.handler.job.managed, s.Pair(), s.dir)
  }

  predicate Fits(s: Sys, i: nat)
    requires s.handler.Attach? && s.HasPair()
  {
    |Target(s, i).acls| <= 255
  }

  /** VPP takes the list of an interface. */
  predicate Writes(s: Sys, i: nat, lists': Lists)
  {
    && s.handler.Attach? && s.HasPair() && i in s.handler.job.todo && i in s.dataplane
    && Defined(Told(Target(s, i)), s.acls)
    && lists' == s.lists[i := Told(Target(s, i))]
  }

  /** One interface is attached; one whose list has no room is noted. */
  predicate AttachOne(s: Sys, s': Sys, i: nat)
  {
    && Writes(s, i, s'.lists)
    && var job := s.handler.job;
       s' == s.(lists := s'.lists,
                handler := Attach(s.handler.gen, job.(todo := job.todo - {i}, out := if Fits(s, i) then job.out else job.out + {i})))
  }

  /** Every interface read has been worked through. */
  predicate AttachDone(s: Sys, s': Sys)
  {
    && s.handler.Attach? && s.handler.job.todo == {}
    && s' == s.(handler := Cleanup(s.handler.gen), dumped := s.handler.job.ifs, outgrown := s.handler.job.out)
  }

  /** The orphan cleanup deletes a tagged ACL other than the pair kept. */
  predicate CleanupOne(s: Sys, s': Sys, i: AclIndex)
  {
    && s.handler.Cleanup? && s.HasPair() && i in Tagged(s.acls) && i !in s.Pair()
    && (forall k | k in s.lists :: i !in s.lists[k].acls)
    && s' == s.(acls := s.acls - {i})
  }

  predicate BootDone(s: Sys, s': Sys)
  {
    s.handler.Cleanup? && s' == s.(handler := Notify(s.handler.gen), boot := Some(s.handler.gen))
  }

  /** A create, dump or attach call fails, having taken effect or not; the handler then waits for
      the next event. */
  ghost predicate BootFail(s: Sys, s': Sys)
  {
    && (s.handler.Create4? || s.handler.Create6? || s.handler.Dump? || s.handler.Attach?)
    && (s'.acls == s.acls || (s'.lists == s.lists && exists f, i :: Creating(s, f) && Created(s, f, i, s'.acls)))
    && (s'.lists == s.lists || (s'.acls == s.acls && exists i :: Writes(s, i, s'.lists)))
    && s' == s.(handler := Idle, acls := s'.acls, lists := s'.lists)
  }

  /** `OnReconnect` enqueues the resync. */
  predicate NotifyStep(s: Sys, s': Sys)
  {
    s.handler.Notify? && s' == s.(handler := Idle, queue := s.queue + [Resync])
  }

  /** Interfaces whose list has our pair in place: last on our side and nowhere before. */
  predicate PairLast(s: Sys, i: nat)
  {
    s.HasPair() &&
    var side := Side(ListOf(s.lists, i), s.dir);
    && |side| >= 2 && side[|side| - 2..] == s.Pair()
    && forall a | a in side[..|side| - 2] :: a !in s.Pair()
  }

  /** The interfaces a bootstrap attached, in full or so far. */
  function Covered(s: Sys): set<nat> { if s.handler.Attach? then s.handler.job.Done() else s.Attached() }

  /** Operators edit lists and ACLs of their own, and add and remove interfaces; they leave our
      ACLs alone and our pair where it is. */
  predicate Operate(s: Sys, s': Sys, acls': Acls, lists': Lists, dataplane': set<nat>)
  {
    && ListsSound(lists', acls')
    && (forall i | i in s.acls && s.acls[i].tag.Managed? :: i in acls' && acls'[i] == s.acls[i])
    && (forall i | i in acls' && acls'[i].tag.Managed? :: i in s.acls && s.acls[i] == acls'[i])
    && s' == s.(acls := acls', lists := lists', dataplane := dataplane', dumped := s.dumped * dataplane',
                handler := if !s.handler.Attach? then s.handler
                           else Attach(s.handler.gen, s.handler.job.(ifs := s.handler.job.ifs * dataplane')))
    && (forall i | i in Covered(s') && PairLast(s, i) :: PairLast(s', i))
  }

  /** A step of the manager's goroutine. */
  ghost predicate Push(s: Sys, s': Sys, f: Family)
  {
    (exists rules, i :: PushOk(s, s', f, rules, i)) || (exists rules, acls' :: PushFail(s, s', f, rules, acls'))
  }

  /** A step of the event handler. */
  ghost predicate Boot(s: Sys, s': Sys)
  {
    || BootStart(s, s')
    || (exists f, i :: BootCreate(s, s', f, i))
    || (exists managed :: AttachDump(s, s', managed))
    || (exists i :: AttachOne(s, s', i))
    || AttachDone(s, s')
    || (exists i :: CleanupOne(s, s', i))
    || BootDone(s, s')
    || BootFail(s, s')
    || NotifyStep(s, s')
  }

  ghost predicate Next(s: Sys, s': Sys)
  {
    || (exists u :: Deliver(s, s', u))
    || Take(s, s')
    || (exists f :: Push(s, s', f))
    || Boot(s, s')
    || (exists acls', lists', dataplane' :: Restart(s, s', acls', lists', dataplane'))
    || (exists acls', lists', dataplane' :: Operate(s, s', acls', lists', dataplane'))
  }

  /** The first bootstrap has run before the manager and the handler start. */
  predicate Init(s: Sys)
  {
    && s.taken == [] && s.mgr == EMPTY && s.queue == [] && s.work == {} && s.failed == {}
    && s.handler.Idle? && s.boot == Some(s.generation) && s.HasPair()
    && s.idx4.value.gen == s.idx6.value.gen == s.generation && s.idx4.value.index != s.idx6.value.index
    && s.idx4.value.index in s.acls && s.acls[s.idx4.value.index] == Installed(Managed(IPv4), BuildACL(IPv4, []))
    && s.idx6.value.index in s.acls && s.acls[s.idx6.value.index] == Installed(Managed(IPv6), BuildACL(IPv6, []))
    && ListsSound(s.lists, s.acls) && forall i | i in s.Attached() :: PairLast(s, i)
  }

  // ----- the invariant -----

  /** The handle names a live ACL of the running VPP, tagged and built for its family. */
  predicate Current(s: Sys, f: Family)
  {
    s.Idx(f).Some? && s.Idx(f).value.gen == s.generation &&
    var i := s.Idx(f).value.index;
    i in s.acls && s.acls[i].tag == Managed(f) && FamilyAcl(f, s.acls[i].rules)
  }

  predicate PairCurrent(s: Sys)
  {
    Current(s, IPv4) && Current(s, IPv6) && s.idx4.value.index != s.idx6.value.index
  }

  /** What a half-done bootstrap has achieved, as long as VPP has not restarted under it. */
  predicate HandlerOk(s: Sys)
  {
    && (s.handler.Locked() || s.handler.Notify? ==> s.handler.gen <= s.generation && (s.handler.Locked() ==> s.boot.None?))
    && (s.handler.Create6? && s.handler.gen == s.generation ==> Current(s, IPv4))
    && ((s.handler.Dump? || s.handler.Attach? || s.handler.Cleanup?) && s.handler.gen == s.generation ==> PairCurrent(s))
    && (s.handler.Attach? ==> s.HasPair() && AllIn(s.Pair(), s.handler.job.managed) && Reported(s.handler.job.lists))
    && (s.boot.Some? ==> s.boot.value <= s.generation)
  }

  /** A bootstrap that is attaching or past it, with VPP still the one it began with. */
  predicate PairPlaced(s: Sys)
  {
    s.Bootstrapped() || ((s.handler.Attach? || s.handler.Cleanup?) && s.handler.gen == s.generation)
  }

  predicate ListsOk(s: Sys)
  {
    ListsSound(s.lists, s.acls) && (PairPlaced(s) ==> forall i | i in Covered(s) :: PairLast(s, i))
  }

  /** An index of the running VPP names an ACL of ours. */
  predicate OwnTagged(s: Sys, f: Family)
  {
    s.Idx(f).Some? ==>
      && s.Idx(f).value.gen <= s.generation
      && (s.Idx(f).value.gen == s.generation ==>
            s.Idx(f).value.index in s.acls && s.acls[s.Idx(f).value.index].tag.Managed?)
  }

  ghost predicate InStep(s: Sys, f: Family)
  {
    s.Bootstrapped() && s.Quiet(f) ==> Current(s, f) && Desires(s.mgr, f, s.acls[s.Idx(f).value.index].rules)
  }

  ghost predicate SysInv(s: Sys)
  {
    && s.mgr == E.Run(s.taken) && Inv(s.mgr)
    && HandlerOk(s) && ListsOk(s) && OwnTagged(s, IPv4) && OwnTagged(s, IPv6)
    && (s.Bootstrapped() ==> PairCurrent(s))
    && InStep(s, IPv4) && InStep(s, IPv6)
  }

  lemma BuiltAcl(f: Family, rules: seq<ACLRule>)
    ensures BuildACL(f, rules) != [] && Denies(BuildACL(f, rules)) == rules
  {
  }

  lemma InitInv(s: Sys)
    requires Init(s)
    ensures SysInv(s)
  {
    E.EmptyInv();
    BuiltAcl(IPv4, []);
    BuiltAcl(IPv6, []);
    assert s.Idx(IPv4).Some? && s.Idx(IPv6).Some?;
    assert Live(EMPTY, IPv4) == {} && Live(EMPTY, IPv6) == {};
  }

  lemma DeliverInv(s: Sys, s': Sys, u: Update)
    requires SysInv(s) && Deliver(s, s', u)
    ensures SysInv(s')
  {
    assert Resync in s'.queue <==> Resync in s.queue;
    assert forall i :: PairLast(s', i) == PairLast(s, i);
  }

  /** A family the update leaves clean still desires what it did. */
  lemma TakeInStep(s: Sys, s': Sys, f: Family)
    requires SysInv(s) && Take(s, s') && InStep(s, f)
    ensures InStep(s', f)
  {
    var u := s.queue[0];
    if s'.Bootstrapped() && s'.Quiet(f) {
      assert Resync !in s.queue by {
        assert s.queue == [u] + s.queue[1..];
      }
      DirtyExact(s.mgr, u, f);
    }
  }

  lemma TakeInv(s: Sys, s': Sys)
    requires SysInv(s) && Take(s, s')
    ensures SysInv(s')
  {
    assert s'.mgr == E.Run(s'.taken) && Inv(s'.mgr) by {
      assert s'.taken[..|s'.taken| - 1] == s.taken;
      ApplyInv(s.mgr, s.queue[0]);
    }
    assert ListsOk(s') by {
      assert forall i :: PairLast(s', i) == PairLast(s, i);
    }
    TakeInStep(s, s', IPv4);
    TakeInStep(s, s', IPv6);
  }

  /** What a push writes is an ACL of the family, and the desired one. */
  lemma PushedAcl(s: Sys, f: Family, rules: seq<ACLRule>)
    requires SysInv(s) && DesiredList(s.mgr, f, rules)
    ensures FamilyAcl(f, BuildACL(f, rules)) && Desires(s.mgr, f, BuildACL(f, rules))
  {
    BuiltAcl(f, rules);
    forall r | r in rules ensures DenyOf(f, r) {
      E.DesiredDenies(s.taken, f, r);
    }
  }

  /** The family pushed holds what it desires, and the other one what it held. */
  lemma PushOkInStep(s: Sys, s': Sys, f: Family, rules: seq<ACLRule>, i: AclIndex, g: Family)
    requires SysInv(s) && PushOk(s, s', f, rules, i)
    ensures s'.Bootstrapped() ==> Current(s', g) && s'.Idx(g).value.index == s.Idx(g).value.index
    ensures InStep(s', g)
  {
    assert (f == IPv4 || f == IPv6) && (g == IPv4 || g == IPv6);
    assert InStep(s, g);
    PushedAcl(s, f, rules);
  }

  lemma PushOkInv(s: Sys, s': Sys, f: Family, rules: seq<ACLRule>, i: AclIndex)
    requires SysInv(s) && PushOk(s, s', f, rules, i)
    ensures SysInv(s')
  {
    assert f == IPv4 || f == IPv6;
    PushOkInStep(s, s', f, rules, i, IPv4);
    PushOkInStep(s, s', f, rules, i, IPv6);
    assert ListsOk(s') by {
      if s.Bootstrapped() {
        assert forall k :: PairLast(s', k) == PairLast(s, k);
      }
    }
  }

  lemma PushFailInv(s: Sys, s': Sys, f: Family, rules: seq<ACLRule>, acls': Acls)
    requires SysInv(s) && PushFail(s, s', f, rules, acls')
    ensures SysInv(s')
  {
    assert f == IPv4 || f == IPv6;
    PushedAcl(s, f, rules);
    assert forall k :: PairLast(s', k) == PairLast(s, k);
  }

  lemma RestartInv(s: Sys, s': Sys, acls': Acls, lists': Lists, dataplane': set<nat>)
    requires SysInv(s) && Restart(s, s', acls', lists', dataplane')
    ensures SysInv(s')
  {
  }

  lemma BootMovesInv(s: Sys, s': Sys)
    requires SysInv(s) && (BootStart(s, s') || AttachDone(s, s') || BootDone(s, s') || NotifyStep(s, s'))
    ensures SysInv(s')
  {
    if NotifyStep(s, s') {
      assert s'.queue[|s'.queue| - 1] == Resync;
    }
    if !BootStart(s, s') {
      assert forall k :: PairLast(s', k) == PairLast(s, k);
    }
  }

  lemma BootFailInv(s: Sys, s': Sys)
    requires SysInv(s) && BootFail(s, s')
    ensures SysInv(s')
  {
    assert ListsSound(s'.lists, s'.acls) by {
      if i :| Writes(s, i, s'.lists) {
        TargetFits(s, i);
      }
    }
    assert OwnTagged(s', IPv4) && OwnTagged(s', IPv6);
  }

  /** What VPP is told of a target is a list it can keep. */
  lemma TargetFits(s: Sys, i: nat)
    requires s.handler.Attach? && s.HasPair()
    ensures Told(Target(s, i)).Fits()
  {
  }

  lemma BootCreateInv(s: Sys, s': Sys, f: Family, i: AclIndex)
    requires SysInv(s) && BootCreate(s, s', f, i)
    ensures SysInv(s')
  {
    assert f == IPv4 || f == IPv6;
    BuiltAcl(f, []);
  }

  lemma AttachDumpInv(s: Sys, s': Sys, managed: set<AclIndex>)
    requires SysInv(s) && AttachDump(s, s', managed)
    ensures SysInv(s')
  {
    assert s'.handler.job.Done() == {};
  }

  /** The interface just attached has the pair last. */
  lemma AttachedPairLast(s: Sys, s': Sys, i: nat)
    requires AttachOne(s, s', i) && Fits(s, i) && AllIn(s.Pair(), s.handler.job.managed)
    ensures PairLast(s', i)
  {
    MergedPairLast(ListOf(s.handler.job.lists, i), s.handler.job.managed, s.Pair(), s.dir);
  }

  /** The others keep what they have. */
  lemma AttachOneInv(s: Sys, s': Sys, i: nat)
    requires SysInv(s) && AttachOne(s, s', i)
    ensures SysInv(s')
  {
    TargetFits(s, i);
    forall k | k in Covered(s') && PairPlaced(s) ensures PairLast(s', k) {
      if k == i {
        AttachedPairLast(s, s', i);
      } else {
        assert k in Covered(s) && PairLast(s, k);
      }
    }
  }

  lemma CleanupOneInv(s: Sys, s': Sys, i: AclIndex)
    requires SysInv(s) && CleanupOne(s, s', i)
    ensures SysInv(s')
  {
    assert s.Pair()[0] == s.idx4.value.index && s.Pair()[1] == s.idx6.value.index;
    assert forall k :: PairLast(s', k) == PairLast(s, k);
    assert forall f | s.Idx(f).Some? :: s.Idx(f).value.index in s.Pair();
  }

  lemma OperateInv(s: Sys, s': Sys, acls': Acls, lists': Lists, dataplane': set<nat>)
    requires SysInv(s) && Operate(s, s', acls', lists', dataplane')
    ensures SysInv(s')
  {
    assert forall i | i in Covered(s') :: i in Covered(s);
  }

  /** Every step of the event handler keeps the invariant. */
  lemma BootInv(s: Sys, s': Sys)
    requires SysInv(s) && Boot(s, s')
    ensures SysInv(s')
  {
    if f, i :| BootCreate(s, s', f, i) {
      BootCreateInv(s, s', f, i);
    } else if managed :| AttachDump(s, s', managed) {
      AttachDumpInv(s, s', managed);
    } else if i :| AttachOne(s, s', i) {
      AttachOneInv(s, s', i);
    } else if i :| CleanupOne(s, s', i) {
      CleanupOneInv(s, s', i);
    } else if BootFail(s, s') {
      BootFailInv(s, s');
    } else {
      BootMovesInv(s, s');
    }
  }

  lemma NextInv(s: Sys, s': Sys)
    requires SysInv(s) && Next(s, s')
    ensures SysInv(s')
  {
    if u :| Deliver(s, s', u) {
      DeliverInv(s, s', u);
    } else if Take(s, s') {
      TakeInv(s, s');
    } else if f :| Push(s, s', f) {
      if rules, i :| PushOk(s, s', f, rules, i) {
        PushOkInv(s, s', f, rules, i);
      } else {
        var rules, acls' :| PushFail(s, s', f, rules, acls');
        PushFailInv(s, s', f, rules, acls');
      }
    } else if Boot(s, s') {
      BootInv(s, s');
    } else if acls', lists', dataplane' :| Restart(s, s', acls', lists', dataplane') {
      RestartInv(s, s', acls', lists', dataplane');
    } else {
      var acls', lists', dataplane' :| Operate(s, s', acls', lists', dataplane');
      OperateInv(s, s', acls', lists', dataplane');
    }
  }

  // ----- whole runs -----

  ghost predicate IsRun(ss: seq<Sys>)
  {
    ss != [] && Init(ss[0]) && forall i | 0 <= i < |ss| - 1 :: Next(ss[i], ss[i + 1])
  }

  /** A run without its last state is a run. */
  lemma RunInit(ss: seq<Sys>)
    requires IsRun(ss) && |ss| > 1
    ensures IsRun(ss[..|ss| - 1]) && Next(ss[|ss| - 2], ss[|ss| - 1])
  {
    var init := ss[..|ss| - 1];
    forall i | 0 <= i < |init| - 1 ensures Next(init[i], init[i + 1]) {
      assert Next(ss[i], ss[i + 1]);
    }
    var last := |ss| - 2;
    assert Next(ss[last], ss[last + 1]);
  }

  lemma {:induction false} RunInv(ss: seq<Sys>)
    requires IsRun(ss)
    ensures SysInv(ss[|ss| - 1])
  {
    if |ss| == 1 {
      InitInv(ss[0]);
    } else {
      RunInit(ss);
      RunInv(ss[..|ss| - 1]);
      NextInv(ss[|ss| - 2], ss[|ss| - 1]);
    }
  }

  /** Under every interleaving: once VPP is bootstrapped, both indices belong to the running
      generation; and a quiet family holds an ACL that denies exactly what the standing
      announcements cover. */
  lemma Safety(ss: seq<Sys>, f: Family, p: Packet)
    requires IsRun(ss) && ss[|ss| - 1].Bootstrapped()
    ensures Current(ss[|ss| - 1], f)
    ensures var s := ss[|ss| - 1];
            s.Quiet(f) ==> E.Enforces(s.taken, f, Denies(s.acls[s.Idx(f).value.index].rules), p)
  {
    RunInv(ss);
    var s := ss[|ss| - 1];
    assert f == IPv4 || f == IPv6;
    if s.Quiet(f) {
      assert InStep(s, f);
      E.ManagedVerdict(s.taken, f, Denies(s.acls[s.Idx(f).value.index].rules), p);
    }
  }

  /** The list of an interface on our side, without our pair. */
  function Others(s: Sys, i: nat): seq<AclIndex>
    requires PairLast(s, i)
  {
    var side := Side(ListOf(s.lists, i), s.dir); side[..|side| - 2]
  }

  /** What a packet meets on each data-plane interface the last bootstrap read, if its merged list
      had room, under every interleaving: once VPP is bootstrapped and the packet's family is
      quiet, the first match among the ACLs of others decides, and failing that the packet is
      denied exactly when a standing announcement covers it. */
  lemma InterfaceSafety(ss: seq<Sys>, i: nat, p: Packet)
    requires IsRun(ss) && ss[|ss| - 1].Bootstrapped()
    requires i in ss[|ss| - 1].dumped && i !in ss[|ss| - 1].outgrown && ss[|ss| - 1].Quiet(FamilyOf(p))
    ensures PairLast(ss[|ss| - 1], i)
    ensures var s := ss[|ss| - 1];
            var others := Evaluate(Others(s, i), Contents(s.acls), p);
            Evaluate(Side(ListOf(s.lists, i), s.dir), Contents(s.acls), p) ==
            if others.Some? then others
            else Some(if E.SomeStandingBlocks(s.taken, p) then Deny else Permit)
  {
    RunInv(ss);
    var s := ss[|ss| - 1];
    assert i in Covered(s) && PairLast(s, i);
    var side := Side(ListOf(s.lists, i), s.dir);
    assert side == Others(s, i) + s.Pair();
    EvaluateConcat(Others(s, i), s.Pair(), Contents(s.acls), p);
    assert InStep(s, FamilyOf(p)) by {
      assert FamilyOf(p) == IPv4 || FamilyOf(p) == IPv6;
    }
    PairDecides(s.taken, s.idx4.value.index, s.idx6.value.index, Contents(s.acls), p);
  }

  /** Interfaces noted as having no room, by the last attaching or the one under way. */
  function NoRoom(s: Sys): set<nat> { s.outgrown + (if s.handler.Attach? then s.handler.job.out else {}) }

  ghost predicate Outgrows(s: Sys, s': Sys, i: nat) { AttachOne(s, s', i) && !Fits(s, i) }

  lemma NoRoomBoot(s: Sys, s': Sys, i: nat)
    requires Boot(s, s') && i in NoRoom(s')
    ensures i in NoRoom(s) || Outgrows(s, s', i)
  {
    if k :| AttachOne(s, s', k) {
      assert i in NoRoom(s) || (i == k && !Fits(s, k));
    }
  }

  /** The other actors note nothing. */
  lemma NoRoomPush(s: Sys, s': Sys, f: Family)
    requires Push(s, s', f)
    ensures NoRoom(s') == NoRoom(s)
  {
  }

  lemma NoRoomStep(s: Sys, s': Sys, i: nat)
    requires Next(s, s') && i in NoRoom(s')
    ensures i in NoRoom(s) || Outgrows(s, s', i)
  {
    if Boot(s, s') {
      NoRoomBoot(s, s', i);
    } else if f :| Push(s, s', f) {
      NoRoomPush(s, s', f);
    } else if acls', lists', dataplane' :| Operate(s, s', acls', lists', dataplane') {
      assert NoRoom(s') == NoRoom(s);
    } else if acls', lists', dataplane' :| Restart(s, s', acls', lists', dataplane') {
      assert NoRoom(s') == NoRoom(s);
    } else if u :| Deliver(s, s', u) {
      assert NoRoom(s') == NoRoom(s);
    } else {
      assert NoRoom(s') == NoRoom(s);
    }
  }

  /** An interface is noted so only because its merged list once had more than 255 entries, in
      this run or in the first bootstrap before it. */
  lemma {:induction false} NoRoomMeaning(ss: seq<Sys>, i: nat)
    requires IsRun(ss) && i in NoRoom(ss[|ss| - 1])
    ensures i in ss[0].outgrown || exists k | 0 <= k < |ss| - 1 :: Outgrows(ss[k], ss[k + 1], i)
  {
    if |ss| > 1 {
      var init := ss[..|ss| - 1];
      RunInit(ss);
      NoRoomStep(ss[|ss| - 2], ss[|ss| - 1], i);
      if i in NoRoom(init[|init| - 1]) {
        NoRoomMeaning(init, i);
        if k :| 0 <= k < |init| - 1 && Outgrows(init[k], init[k + 1], i) {
          assert Outgrows(ss[k], ss[k + 1], i);
        }
      }
    }
  }

  // ----- recovery -----

  function Last(run: seq<Sys>): Sys
    requires run != []
  {
    run[|run| - 1]
  }

  /** `run'` goes on from `run` and loses no update that was taken or queued. */
  ghost predicate GoesOn(run: seq<Sys>, run': seq<Sys>)
  {
    && IsRun(run) && IsRun(run') && run <= run'
    && Last(run).taken + Last(run).queue <= Last(run').taken + Last(run').queue
  }

  lemma OneStep(run: seq<Sys>, s': Sys)
    requires IsRun(run) && Next(Last(run), s') && Last(run).taken + Last(run).queue <= s'.taken + s'.queue
    ensures GoesOn(run, run + [s']) && Last(run + [s']) == s'
  {
    RunSnoc(run, s');
  }

  lemma OneBoot(run: seq<Sys>, s': Sys)
    requires IsRun(run) && Boot(Last(run), s') && Last(run).taken == s'.taken && Last(run).queue <= s'.queue
    ensures GoesOn(run, run + [s']) && Last(run + [s']) == s'
  {
    BootIsStep(Last(run), s');
    OneStep(run, s');
  }

  /** Whether an ACL is on some interface's list. */
  ghost predicate Listed(s: Sys, i: AclIndex) { exists k | k in s.lists :: i in s.lists[k].acls }

  /** No tagged ACL is left over, but for those on a list. */
  ghost predicate Tidy(s: Sys)
  {
    s.HasPair() && forall i | i in Tagged(s.acls) :: i in s.Pair() || Listed(s, i)
  }

  /** The cleanup deletes what is left over, one by one. */
  lemma {:induction false} CleanRest(run: seq<Sys>) returns (run': seq<Sys>)
    requires IsRun(run) && Last(run).handler.Cleanup? && Last(run).HasPair()
    ensures GoesOn(run, run') && Last(run').handler == Last(run).handler && Tidy(Last(run'))
    ensures Last(run').generation == Last(run).generation
    ensures Last(run').dumped == Last(run).dumped && Last(run').dataplane == Last(run).dataplane
    decreases Tagged(Last(run).acls)
  {
    var s := Last(run);
    if i :| i in Tagged(s.acls) && i !in s.Pair() && !Listed(s, i) {
      var s1 := s.(acls := s.acls - {i});
      assert CleanupOne(s, s1, i);
      OneBoot(run, s1);
      assert Tagged(s1.acls) < Tagged(s.acls);
      run' := CleanRest(run + [s1]);
    } else {
      run' := run;
    }
  }

  /** A handler that has cleaned up finishes and asks for the resync. */
  lemma Finish(run: seq<Sys>) returns (run': seq<Sys>)
    requires IsRun(run) && Last(run).handler.Cleanup?
    ensures GoesOn(run, run') && Last(run').handler.Idle? && Last(run').boot == Some(Last(run).handler.gen)
    ensures Last(run').generation == Last(run).generation && Resync in Last(run').queue
    ensures Last(run').dumped == Last(run).dumped && Last(run').dataplane == Last(run).dataplane
    ensures Tidy(Last(run)) ==> Tidy(Last(run'))
  {
    var s := Last(run);
    var s1 := s.(handler := Notify(s.handler.gen), boot := Some(s.handler.gen));
    assert BootDone(s, s1);
    OneBoot(run, s1);
    run' := Notified(run + [s1]);
  }

  lemma Notified(run: seq<Sys>) returns (run': seq<Sys>)
    requires IsRun(run) && Last(run).handler.Notify?
    ensures GoesOn(run, run') && Last(run').handler.Idle? && Resync in Last(run').queue
    ensures Last(run').boot == Last(run).boot && Last(run').generation == Last(run).generation
    ensures Last(run').dumped == Last(run).dumped && Last(run').dataplane == Last(run).dataplane
    ensures Tidy(Last(run)) ==> Tidy(Last(run'))
  {
    var s := Last(run);
    var s1 := s.(handler := Idle, queue := s.queue + [Resync]);
    assert NotifyStep(s, s1);
    OneBoot(run, s1);
    run' := run + [s1];
  }

  /** Whatever the handler is at, it can come to rest: a bootstrap not yet attached is given up. */
  lemma Settle(run: seq<Sys>) returns (run': seq<Sys>)
    requires IsRun(run)
    ensures GoesOn(run, run') && Last(run').handler.Idle?
  {
    var s := Last(run);
    if s.handler.Idle? {
      run' := run;
    } else if s.handler.Notify? {
      run' := Notified(run);
    } else if s.handler.Cleanup? {
      run' := Finish(run);
    } else {
      var s1 := s.(handler := Idle);
      assert BootFail(s, s1);
      OneBoot(run, s1);
      run' := run + [s1];
    }
  }

  lemma {:induction false} FreshIndex(used: set<AclIndex>) returns (i: AclIndex)
    ensures forall k | k in used :: k < i
  {
    if used == {} {
      i := 0;
    } else {
      var k :| k in used;
      var j := FreshIndex(used - {k});
      i := if j <= k then k + 1 else j;
      forall x | x in used ensures x < i {
        assert x == k || x in used - {k};
      }
    }
  }

  /** A family's ACL is created at an index VPP has free. */
  lemma Create(run: seq<Sys>, f: Family) returns (run': seq<Sys>)
    requires IsRun(run) && Creating(Last(run), f) && Last(run).Idx(f).None?
    ensures GoesOn(run, run') && Last(run').Idx(f).Some?
    ensures var s, s' := Last(run), Last(run');
            && s'.handler == (if f.IPv4? then Create6(s.handler.gen) else Dump(s.handler.gen))
            && s'.generation == s.generation && s'.dataplane == s.dataplane
            && s'.Idx(if f.IPv4? then IPv6 else IPv4) == s.Idx(if f.IPv4? then IPv6 else IPv4)
  {
    var s := Last(run);
    var i := FreshIndex(s.acls.Keys);
    var s1 := s.(acls := s.acls[i := Installed(Managed(f), BuildACL(f, []))],
                 handler := if f.IPv4? then Create6(s.handler.gen) else Dump(s.handler.gen))
               .SetIdx(f, Some(Handle(i, s.generation)));
    assert i !in s.acls;
    assert BootCreate(s, s1, f, i);
    OneBoot(run, s1);
    run' := run + [s1];
  }

  /** What was read for attaching still names only ACLs that VPP has. */
  ghost predicate Attachable(s: Sys)
  {
    && s.handler.Attach? && s.HasPair() && AllIn(s.Pair(), s.acls.Keys) && s.handler.job.todo <= s.dataplane
    && forall k | k in s.handler.job.lists :: Defined(s.handler.job.lists[k], s.acls)
  }

  lemma TargetDefined(s: Sys, i: nat)
    requires Attachable(s)
    ensures Defined(Told(Target(s, i)), s.acls)
  {
    var l := ListOf(s.handler.job.lists, i);
    assert forall a | a in Target(s, i).acls :: a in l.acls || a in s.Pair();
  }

  /** All interfaces are worked through, one by one. */
  lemma {:induction false} AttachRest(run: seq<Sys>) returns (run': seq<Sys>)
    requires IsRun(run) && Attachable(Last(run))
    ensures GoesOn(run, run') && Attachable(Last(run')) && Last(run').handler.job.todo == {}
    ensures Last(run').handler == Attach(Last(run).handler.gen, Last(run').handler.job)
    ensures Last(run').handler.job.ifs == Last(run).handler.job.ifs
    ensures Last(run').generation == Last(run).generation && Last(run').dataplane == Last(run).dataplane
    decreases Last(run).handler.job.todo
  {
    var s := Last(run);
    if s.handler.job.todo == {} {
      run' := run;
    } else {
      var i :| i in s.handler.job.todo;
      TargetDefined(s, i);
      var job := s.handler.job;
      var s1 := s.(lists := s.lists[i := Told(Target(s, i))],
                   handler := Attach(s.handler.gen, job.(todo := job.todo - {i}, out := if Fits(s, i) then job.out else job.out + {i})));
      assert AttachOne(s, s1, i);
      OneBoot(run, s1);
      run' := AttachRest(run + [s1]);
    }
  }

  /** An idle handler can bootstrap to the end, all data-plane interfaces attached. */
  lemma Rebootstrap(run: seq<Sys>) returns (run': seq<Sys>)
    requires IsRun(run) && Last(run).handler.Idle?
    ensures GoesOn(run, run') && Last(run').handler.Idle? && Last(run').Bootstrapped() && Resync in Last(run').queue
    ensures Last(run').dumped == Last(run').dataplane && Tidy(Last(run'))
  {
    var s := Last(run);
    var s1 := s.(handler := Create4(s.generation), idx4 := None, idx6 := None, boot := None);
    assert BootStart(s, s1);
    OneBoot(run, s1);
    var r2 := Create(run + [s1], IPv4);
    var r3 := Create(r2, IPv6);
    var r4 := StartAttach(r3);
    var r5 := AttachRest(r4);
    run' := Complete(r5);
  }

  lemma StartAttach(run: seq<Sys>) returns (run': seq<Sys>)
    requires IsRun(run) && Last(run).handler.Dump? && Last(run).HasPair() && Last(run).handler.gen == Last(run).generation
    ensures GoesOn(run, run') && Attachable(Last(run')) && Last(run').handler.gen == Last(run').generation
    ensures Last(run').handler.job.ifs == Last(run').dataplane
  {
    var s := Last(run);
    RunInv(run);
    var managed := Tagged(s.acls) + set a | a in s.Pair();
    var s1 := s.(handler := Attach(s.handler.gen, Job(s.dataplane, s.dataplane, {}, managed, s.lists)));
    assert AttachDump(s, s1, managed);
    OneBoot(run, s1);
    run' := run + [s1];
  }

  lemma Complete(run: seq<Sys>) returns (run': seq<Sys>)
    requires IsRun(run) && Last(run).handler.Attach? && Last(run).handler.job.todo == {}
    requires Last(run).handler.gen == Last(run).generation && Last(run).handler.job.ifs == Last(run).dataplane
    ensures GoesOn(run, run') && Last(run').handler.Idle? && Last(run').Bootstrapped() && Resync in Last(run').queue
    ensures Last(run').dumped == Last(run').dataplane && Tidy(Last(run'))
  {
    var s := Last(run);
    var s1 := s.(handler := Cleanup(s.handler.gen), dumped := s.handler.job.ifs, outgrown := s.handler.job.out);
    assert AttachDone(s, s1);
    OneBoot(run, s1);
    RunInv(run + [s1]);
    var clean := CleanRest(run + [s1]);
    run' := Finish(clean);
  }

  /** Every family that failed last is due another push, or will be. */
  predicate Repairing(s: Sys) { Resync in s.queue || s.failed <= s.work }

  lemma PushOne(run: seq<Sys>) returns (run': seq<Sys>)
    requires IsRun(run) && Last(run).handler.Idle? && Last(run).Bootstrapped() && Repairing(Last(run)) && Last(run).work != {}
    ensures GoesOn(run, run') && Last(run').handler.Idle? && Last(run').Bootstrapped() && Repairing(Last(run'))
    ensures Last(run').work < Last(run).work && Last(run').queue == Last(run).queue && Last(run').taken == Last(run).taken
    ensures Last(run').dumped == Last(run).dumped && Last(run').dataplane == Last(run).dataplane
    ensures Tidy(Last(run)) ==> Tidy(Last(run'))
  {
    var s := Last(run);
    RunInv(run);
    var f :| f in s.work;
    assert f == IPv4 || f == IPv6;
    var s1, rules := PushPossible(s, f, s.Idx(f).value.index);
    PushIsStep(s, s1, f, rules, s.Idx(f).value.index);
    OneStep(run, s1);
    run' := run + [s1];
    PushTidy(s, s1, f, rules);
  }

  /** A push with a current index adds no ACL. */
  lemma PushTidy(s: Sys, s': Sys, f: Family, rules: seq<ACLRule>)
    requires PairCurrent(s) && PushOk(s, s', f, rules, s.Idx(f).value.index)
    ensures Tidy(s) ==> Tidy(s')
  {
    assert Tagged(s'.acls) == Tagged(s.acls) && s'.lists == s.lists && s'.Pair() == s.Pair();
    assert forall i :: Listed(s', i) == Listed(s, i);
  }

  lemma TakeOne(run: seq<Sys>) returns (run': seq<Sys>)
    requires IsRun(run) && Last(run).handler.Idle? && Last(run).Bootstrapped() && Repairing(Last(run))
    requires Last(run).work == {} && Last(run).queue != []
    ensures GoesOn(run, run') && Last(run').handler.Idle? && Last(run').Bootstrapped() && Repairing(Last(run'))
    ensures Last(run').queue == Last(run).queue[1..] && Last(run').taken == Last(run).taken + [Last(run).queue[0]]
    ensures Last(run').dumped == Last(run).dumped && Last(run').dataplane == Last(run).dataplane
    ensures Tidy(Last(run)) ==> Tidy(Last(run'))
  {
    var s := Last(run);
    var s1 := s.(taken := s.taken + [s.queue[0]], mgr := Apply(s.mgr, s.queue[0]), queue := s.queue[1..], work := Dirty(s.mgr, s.queue[0]));
    assert s.queue == [s.queue[0]] + s.queue[1..];
    assert Repairing(s1) by {
      if s.queue[0].Resync? {
        assert forall f | f in s.failed :: f == IPv4 || f == IPv6;
      }
    }
    assert Take(s, s1);
    assert s1.taken + s1.queue == s.taken + s.queue;
    OneStep(run, s1);
    run' := run + [s1];
  }

  /** Everything due is pushed and everything queued is taken. */
  lemma {:induction false} Drain(run: seq<Sys>) returns (run': seq<Sys>)
    requires IsRun(run) && Last(run).handler.Idle? && Last(run).Bootstrapped() && Repairing(Last(run))
    ensures GoesOn(run, run') && Last(run').handler.Idle? && Last(run').Bootstrapped()
    ensures Last(run').queue == [] && Last(run').work == {} && Last(run').failed == {}
    ensures Tidy(Last(run)) ==> Tidy(Last(run'))
    ensures Last(run').dumped == Last(run).dumped && Last(run').dataplane == Last(run).dataplane
    decreases |Last(run).queue|, Last(run).work
  {
    var s := Last(run);
    if s.work != {} {
      var next := PushOne(run);
      run' := Drain(next);
    } else if s.queue != [] {
      var next := TakeOne(run);
      run' := Drain(next);
    } else {
      run' := run;
    }
  }

  /** From every reachable state the agent can recover: the run can go on to one that has taken
      every update queued, with VPP bootstrapped, every data-plane interface attached that has
      room, no ACL of ours left over but for those on a list, and nothing outstanding for either
      family. */
  lemma Recovers(run: seq<Sys>) returns (run': seq<Sys>)
    requires IsRun(run)
    ensures IsRun(run') && run <= run' && Last(run').Bootstrapped() && Last(run').Quiet(IPv4) && Last(run').Quiet(IPv6)
    ensures Last(run).taken + Last(run).queue <= Last(run').taken && Last(run').dumped == Last(run').dataplane && Tidy(Last(run'))
  {
    var r1 := Settle(run);
    var r2 := Rebootstrap(r1);
    run' := Drain(r2);
  }

  // ----- the ACLs and list entries of others -----

  /** Every ACL without our tag is there as it was. */
  predicate ForeignKept(s: Sys, s': Sys)
  {
    forall j | j in s.acls && s.acls[j].tag.Foreign? :: j in s'.acls && s'.acls[j] == s.acls[j]
  }

  /** The index a push of `f` would use names no ACL of others. */
  predicate Harmless(s: Sys, f: Family)
  {
    s.Idx(f).Some? && s.Idx(f).value.index in s.acls ==> s.acls[s.Idx(f).value.index].tag.Managed?
  }

  lemma {:induction false} ListOfSet(keys: set<ACLRule>) returns (rules: seq<ACLRule>)
    ensures forall k :: k in rules <==> k in keys
  {
    if keys == {} {
      rules := [];
    } else {
      var k :| k in keys;
      var rest := ListOfSet(keys - {k});
      rules := [k] + rest;
    }
  }

  /** Some push of `f` can succeed, when the index it uses is there or unset. */
  lemma PushPossible(s: Sys, f: Family, i: AclIndex) returns (s': Sys, rules: seq<ACLRule>)
    requires !s.handler.Locked() && f in s.work
    requires if s.Idx(f).Some? then i == s.Idx(f).value.index && i in s.acls else i !in s.acls
    ensures PushOk(s, s', f, rules, i)
    ensures i in s'.acls && s'.acls[i].tag == Managed(f)
  {
    rules := ListOfSet(Live(s.mgr, f));
    var acls' := s.acls[i := Installed(Managed(f), BuildACL(f, rules))];
    s' := s.(acls := acls', work := s.work - {f}, failed := s.failed - {f})
           .SetIdx(f, if s.Idx(f).Some? then s.Idx(f) else Some(Handle(i, s.generation)));
    assert Replaced(s, f, rules, i, acls');
  }

  /** The pushes of a family, successful or not, leave every ACL of others alone if and only if
      its index names none of them. */
  lemma PushKeepsForeignIff(s: Sys, f: Family)
    requires !s.handler.Locked() && f in s.work
    ensures (forall s' :: Push(s, s', f) ==> ForeignKept(s, s')) <==> Harmless(s, f)
  {
    if !Harmless(s, f) {
      var j := s.Idx(f).value.index;
      var s', rules := PushPossible(s, f, j);
      assert Push(s, s', f) && !ForeignKept(s, s');
    }
  }

  /** The ACL a push of `f` writes is new or the family's own of the running VPP. */
  predicate OwnOrNew(s: Sys, f: Family, i: AclIndex)
  {
    i !in s.acls || s.Idx(f) == Some(Handle(i, s.generation))
  }

  /** In terms of generations: every successful push writes such an ACL if and only if the
      handle is unset, of the running generation, or names nothing. */
  lemma PushWritesOwnIff(s: Sys, f: Family)
    requires !s.handler.Locked() && f in s.work
    ensures (forall s', rules, i :: PushOk(s, s', f, rules, i) ==> OwnOrNew(s, f, i)) <==>
            s.Idx(f).None? || s.Idx(f).value.gen == s.generation || s.Idx(f).value.index !in s.acls
  {
    if s.Idx(f).Some? && s.Idx(f).value.gen != s.generation && s.Idx(f).value.index in s.acls {
      var s', rules := PushPossible(s, f, s.Idx(f).value.index);
      assert !OwnOrNew(s, f, s.Idx(f).value.index);
    }
  }

  /** A handle of the running generation is harmless in every reachable state, so only the time
      between the loss of VPP and the re-bootstrap is at risk. */
  lemma OnlyStaleHarms(ss: seq<Sys>, f: Family)
    requires IsRun(ss) && !Harmless(ss[|ss| - 1], f)
    ensures ss[|ss| - 1].Idx(f).value.gen < ss[|ss| - 1].generation && !ss[|ss| - 1].Bootstrapped()
  {
    RunInv(ss);
    assert f == IPv4 || f == IPv6;
  }

  /** A drop of all IPv4 traffic. */
  const DROP_ALL := Rule(IPv4, T.EMPTY_MATCH, Drop, "drop all")

  /** The entry it becomes. */
  lemma DropAllAccepted()
    ensures T.Translate(DROP_ALL).Ok? && AclFamily(T.Translate(DROP_ALL).value) == IPv4
  {
  }

  lemma DropAllWork(u: Update)
    requires u == Announce("peer", Some(DROP_ALL))
    ensures IPv4 in Dirty(EMPTY, u)
  {
    DropAllAccepted();
    E.EmptyInv();
    var acl := T.Translate(DROP_ALL).value;
    var st' := Apply(EMPTY, u);
    ApplyInv(EMPTY, u);
    assert acl in st'.entries;
    LiveByKeys(st', IPv4);
    DirtyExact(EMPTY, u, IPv4);
    assert acl in Live(st', IPv4) && acl !in Live(EMPTY, IPv4);
  }

  /** A system just bootstrapped, with ACLs and lists of others and nothing attached. */
  function JustStarted(theirs: Acls, lists: Lists, dataplane: set<nat>): (s: Sys)
    requires 0 !in theirs && 1 !in theirs && ListsSound(lists, theirs)
    ensures Init(s)
  {
    Sys([], EMPTY, [], {}, {}, 0,
        theirs[0 := Installed(Managed(IPv4), BuildACL(IPv4, []))][1 := Installed(Managed(IPv6), BuildACL(IPv6, []))],
        lists, dataplane, {}, {}, Ingress, Some(Handle(0, 0)), Some(Handle(1, 0)), Idle, Some(0))
  }

  /** One more step of a run. */
  lemma RunSnoc(ss: seq<Sys>, s': Sys)
    requires IsRun(ss) && Next(ss[|ss| - 1], s')
    ensures IsRun(ss + [s'])
  {
    var all := ss + [s'];
    forall i | 0 <= i < |all| - 1 ensures Next(all[i], all[i + 1]) {
      assert i < |ss| - 1 ==> Next(ss[i], ss[i + 1]);
    }
  }

  lemma BootIsStep(s: Sys, s': Sys)
    requires Boot(s, s')
    ensures Next(s, s')
  {
  }

  lemma RestartIsStep(s: Sys, s': Sys)
    requires Restart(s, s', s'.acls, s'.lists, s'.dataplane)
    ensures Next(s, s')
  {
  }

  lemma PushIsStep(s: Sys, s': Sys, f: Family, rules: seq<ACLRule>, i: AclIndex)
    requires PushOk(s, s', f, rules, i)
    ensures Push(s, s', f) && Next(s, s')
  {
    assert Push(s, s', f);
  }

  lemma DeliverAndTake(s0: Sys, s1: Sys, s2: Sys, u: Update)
    requires !u.Resync? && s0.queue == [] && s0.work == {} && s1 == s0.(queue := [u])
    requires s2 == s1.(taken := s0.taken + [u], mgr := Apply(s0.mgr, u), queue := [], work := Dirty(s0.mgr, u))
    ensures Next(s0, s1) && Next(s1, s2)
  {
    assert Next(s0, s1) by {
      assert Deliver(s0, s1, u);
    }
    assert Next(s1, s2) by {
      assert Take(s1, s2);
    }
  }

  /** An announcement is taken and its push is due. */
  lemma TakenRun() returns (ss: seq<Sys>)
    ensures IsRun(ss) && |ss| == 3
    ensures ss[2].handler.Idle? && IPv4 in ss[2].work && ss[2].idx4 == Some(Handle(0, 0))
  {
    var u := Announce("peer", Some(DROP_ALL));
    var s0 := JustStarted(map[], map[], {});
    var s1 := s0.(queue := [u]);
    var s2 := s1.(taken := s0.taken + [u], mgr := Apply(s0.mgr, u), queue := [], work := Dirty(s0.mgr, u));
    DropAllWork(u);
    DeliverAndTake(s0, s1, s2, u);
    RunSnoc([s0], s1);
    RunSnoc([s0] + [s1], s2);
    ss := [s0] + [s1] + [s2];
  }

  /** And there the property fails: an announcement is taken, VPP restarts and gives the index
      of our IPv4 ACL to an operator's, and the push replaces that. */
  lemma StalePushRun(theirs: Installed) returns (ss: seq<Sys>)
    requires theirs.tag.Foreign?
    ensures IsRun(ss) && |ss| == 5
    ensures ss[3].acls == map[0 := theirs] && Push(ss[3], ss[4], IPv4) && !ForeignKept(ss[3], ss[4])
  {
    var run := TakenRun();
    var s2 := run[2];
    var s3 := s2.(generation := s2.generation + 1, acls := map[0 := theirs], lists := map[]);
    RestartIsStep(s2, s3);
    RunSnoc(run, s3);
    var s4, rules := PushPossible(s3, IPv4, 0);
    PushIsStep(s3, s4, IPv4, rules, 0);
    RunSnoc(run + [s3], s4);
    ss := run + [s3] + [s4];
  }

  // ----- attaching and the list entries of others -----

  /** An interface's list on either side, without the ACLs that carry our tag. */
  function ForeignSide(s: Sys, i: nat, side: Direction): seq<AclIndex>
  {
    Manual(Side(ListOf(s.lists, i), side), Tagged(s.acls))
  }

  /** On every list and either side, the ACLs of others are there as they were, in order. */
  ghost predicate SidesKept(s: Sys, s': Sys)
  {
    forall k, side :: ForeignSide(s', k, side) == ForeignSide(s, k, side)
  }

  lemma {:induction false} ManualSame(l: seq<AclIndex>, a: set<AclIndex>, b: set<AclIndex>)
    requires forall x | x in l :: x in a <==> x in b
    ensures Manual(l, a) == Manual(l, b)
  {
    if l != [] {
      assert forall x | x in l[..|l| - 1] :: x in l;
      ManualSame(l[..|l| - 1], a, b);
    }
  }

  lemma BootKeepsAcls(s: Sys, s': Sys)
    requires Boot(s, s')
    ensures ForeignKept(s, s')
  {
  }

  /** What a step of the event handler does to lists and to the tags of the ACLs on them. */
  lemma BootChanges(s: Sys, s': Sys)
    requires Boot(s, s')
    ensures s'.lists != s.lists ==> s'.acls == s.acls && exists i :: Writes(s, i, s'.lists)
    ensures forall k, a | k in s.lists && s'.lists == s.lists && a in s.lists[k].acls && a in s.acls ::
              a in Tagged(s'.acls) <==> a in Tagged(s.acls)
  {
  }

  /** No step of the event handler touches an ACL of others, and only the writes of attaching
      touch lists. */
  lemma BootKeepsForeign(s: Sys, s': Sys)
    requires Boot(s, s') && ListsSound(s.lists, s.acls)
    ensures ForeignKept(s, s')
    ensures s'.lists == s.lists ==> SidesKept(s, s')
    ensures s'.lists != s.lists ==> s'.acls == s.acls && exists i :: Writes(s, i, s'.lists)
  {
    BootKeepsAcls(s, s');
    BootChanges(s, s');
    if s'.lists == s.lists {
      forall k, side ensures ForeignSide(s', k, side) == ForeignSide(s, k, side) {
        var l := Side(ListOf(s.lists, k), side);
        assert forall x | x in l :: k in s.lists && x in s.lists[k].acls;
        ManualSame(l, Tagged(s'.acls), Tagged(s.acls));
      }
    }
  }

  /** What attaching keeps of the list it read is what the list holds of others now. */
  ghost predicate Carried(s: Sys, i: nat)
    requires s.handler.Attach?
  {
    forall side :: Manual(Manual(Side(ListOf(s.handler.job.lists, i), side), s.handler.job.managed), Tagged(s.acls)) ==
                   ForeignSide(s, i, side)
  }

  /** So it is when nobody edited the list since, and VPP did not restart. */
  lemma UneditedIsCarried(s: Sys, i: nat)
    requires s.handler.Attach? && ListOf(s.handler.job.lists, i) == ListOf(s.lists, i)
    requires s.handler.job.managed <= Tagged(s.acls)
    ensures Carried(s, i)
  {
    forall side
      ensures Manual(Manual(Side(ListOf(s.handler.job.lists, i), side), s.handler.job.managed), Tagged(s.acls)) ==
              ForeignSide(s, i, side)
    {
      ManualTwice(Side(ListOf(s.lists, i), side), s.handler.job.managed, Tagged(s.acls));
    }
  }

  predicate PairTagged(s: Sys)
    requires s.HasPair()
  {
    AllIn(s.Pair(), Tagged(s.acls))
  }

  /** Entries of others on a side of the list meant for an interface. */
  lemma TargetSide(s: Sys, i: nat, side: Direction)
    requires s.handler.Attach? && s.HasPair()
    ensures Manual(Side(Target(s, i), side), Tagged(s.acls)) ==
            Manual(Manual(Side(ListOf(s.handler.job.lists, i), side), s.handler.job.managed), Tagged(s.acls)) +
            (if side == s.dir then Manual(s.Pair(), Tagged(s.acls)) else [])
  {
    var kept := Manual(Side(ListOf(s.handler.job.lists, i), side), s.handler.job.managed);
    MergedSide(ListOf(s.handler.job.lists, i), s.handler.job.managed, s.Pair(), s.dir, side);
    ManualConcat(kept, if side == s.dir then s.Pair() else [], Tagged(s.acls));
  }

  lemma OtherListsKept(s: Sys, s': Sys, i: nat)
    requires Writes(s, i, s'.lists) && s'.acls == s.acls
    ensures SidesKept(s, s') <==>
            forall side :: Manual(Side(Told(Target(s, i)), side), Tagged(s.acls)) == ForeignSide(s, i, side)
  {
    forall side ensures ForeignSide(s', i, side) == Manual(Side(Told(Target(s, i)), side), Tagged(s.acls)) {
    }
    assert forall k, side | k != i :: ForeignSide(s', k, side) == ForeignSide(s, k, side);
  }

  /** With room and a pair of ours, the entries of others that VPP is told are those kept. */
  lemma ToldSide(s: Sys, i: nat, side: Direction)
    requires s.handler.Attach? && s.HasPair() && Fits(s, i) && PairTagged(s)
    ensures Manual(Side(Told(Target(s, i)), side), Tagged(s.acls)) ==
            Manual(Manual(Side(ListOf(s.handler.job.lists, i), side), s.handler.job.managed), Tagged(s.acls))
  {
    ToldIff(Target(s, i));
    ManualDropsAll(s.Pair(), Tagged(s.acls));
    TargetSide(s, i, side);
  }

  /** Attaching an interface, with room and a pair of ours, keeps the ACLs of others on every
      list if and only if what it read of that list still stands. */
  lemma AttachKeepsEditsIff(s: Sys, s': Sys, i: nat)
    requires Writes(s, i, s'.lists) && s'.acls == s.acls && Fits(s, i) && PairTagged(s)
    ensures SidesKept(s, s') <==> Carried(s, i)
  {
    OtherListsKept(s, s', i);
    forall side
      ensures Manual(Side(Told(Target(s, i)), side), Tagged(s.acls)) ==
              Manual(Manual(Side(ListOf(s.handler.job.lists, i), side), s.handler.job.managed), Tagged(s.acls))
    {
      ToldSide(s, i, side);
    }
  }

  lemma {:induction false} ManualNone(l: seq<AclIndex>, managed: set<AclIndex>)
    requires Manual(l, managed) == []
    ensures AllIn(l, managed)
  {
    if l != [] {
      ManualNone(l[..|l| - 1], managed);
      assert l == l[..|l| - 1] + [l[|l| - 1]];
    }
  }

  /** A merged list without room is told VPP with fewer entries than the manual ones that go in. */
  lemma ToldTooShort(l: AclList, managed: set<AclIndex>, pair: seq<AclIndex>, dir: Direction)
    requires |pair| == 2 && |Merge(l, managed, pair, dir).acls| > 255
    ensures |Told(Merge(l, managed, pair, dir)).acls| < |Manual(l.Inputs(), managed)| + |Manual(l.Outputs(), managed)|
  {
    var merged := Merge(l, managed, pair, dir);
    assert |merged.acls| == |Manual(l.Inputs(), managed)| + |Manual(l.Outputs(), managed)| + 2;
    assert |merged.acls| % 256 <= |merged.acls| - 256;
  }

  /** So some side of it has lost an entry of others. */
  lemma OutgrownLoses(s: Sys, i: nat)
    requires s.handler.Attach? && s.HasPair() && !Fits(s, i) && Carried(s, i) && Tagged(s.acls) <= s.handler.job.managed
    ensures exists side :: Manual(Side(Told(Target(s, i)), side), Tagged(s.acls)) != ForeignSide(s, i, side)
  {
    var l, managed, tagged := ListOf(s.handler.job.lists, i), s.handler.job.managed, Tagged(s.acls);
    var told := Told(Target(s, i));
    ToldTooShort(l, managed, s.Pair(), s.dir);
    ManualKeepsAll(Manual(Side(l, Ingress), managed), tagged);
    ManualKeepsAll(Manual(Side(l, Egress), managed), tagged);
    if |Manual(Side(told, Ingress), tagged)| == |ForeignSide(s, i, Ingress)| {
      assert |Manual(Side(told, Egress), tagged)| != |ForeignSide(s, i, Egress)|;
    }
  }

  /** Attaching an interface, from a list that still stands, keeps the ACLs of others on every list
      if and only if the merged list has at most 255 entries and both indices of our pair name
      ACLs with our tag; for a longer list, when every tagged ACL is to be stripped. */
  lemma AttachKeepsForeignIff(s: Sys, s': Sys, i: nat)
    requires Writes(s, i, s'.lists) && s'.acls == s.acls
    requires Carried(s, i) && (Fits(s, i) || Tagged(s.acls) <= s.handler.job.managed)
    ensures SidesKept(s, s') <==> Fits(s, i) && PairTagged(s)
  {
    OtherListsKept(s, s', i);
    if !Fits(s, i) {
      OutgrownLoses(s, i);
    } else if PairTagged(s) {
      AttachKeepsEditsIff(s, s', i);
    } else {
      ToldIff(Target(s, i));
      TargetSide(s, i, s.dir);
      if Manual(s.Pair(), Tagged(s.acls)) == [] {
        ManualNone(s.Pair(), Tagged(s.acls));
      }
    }
  }

  /** In every reachable state where VPP is the one the bootstrap began with, the pair is ours. */
  lemma PairTaggedUnlessRestarted(ss: seq<Sys>)
    requires IsRun(ss) && ss[|ss| - 1].handler.Attach? && ss[|ss| - 1].handler.gen == ss[|ss| - 1].generation
    ensures ss[|ss| - 1].HasPair() && PairTagged(ss[|ss| - 1])
  {
    RunInv(ss);
  }

  // ----- where attaching fails others -----

  /** A re-bootstrap up to its creates. */
  lemma ReBoot(s0: Sys) returns (ss: seq<Sys>)
    requires Init(s0) && 2 !in s0.acls && 3 !in s0.acls && s0.generation == 0
    ensures IsRun(ss) && |ss| == 4 && ss[0] == s0
    ensures ss[3] == s0.(acls := s0.acls[2 := Installed(Managed(IPv4), BuildACL(IPv4, []))]
                                        [3 := Installed(Managed(IPv6), BuildACL(IPv6, []))],
                         idx4 := Some(Handle(2, 0)), idx6 := Some(Handle(3, 0)), handler := Dump(0), boot := None)
  {
    var s1 := s0.(handler := Create4(0), idx4 := None, idx6 := None, boot := None);
    var s2 := s1.(acls := s1.acls[2 := Installed(Managed(IPv4), BuildACL(IPv4, []))],
                  idx4 := Some(Handle(2, 0)), handler := Create6(0));
    var s3 := s2.(acls := s2.acls[3 := Installed(Managed(IPv6), BuildACL(IPv6, []))],
                  idx6 := Some(Handle(3, 0)), handler := Dump(0));
    assert BootStart(s0, s1);
    BootIsStep(s0, s1);
    assert BootCreate(s1, s2, IPv4, 2);
    BootIsStep(s1, s2);
    assert BootCreate(s2, s3, IPv6, 3);
    BootIsStep(s2, s3);
    RunSnoc([s0], s1);
    RunSnoc([s0] + [s1], s2);
    RunSnoc([s0] + [s1] + [s2], s3);
    ss := [s0] + [s1] + [s2] + [s3];
  }

  lemma DumpStep(s: Sys, managed: set<AclIndex>) returns (s': Sys)
    requires s.handler.Dump? && s.HasPair() && (managed == (set a | a in s.Pair()) || managed == Tagged(s.acls) + set a | a in s.Pair())
    ensures s' == s.(handler := Attach(s.handler.gen, Job(s.dataplane, s.dataplane, {}, managed, s.lists)))
    ensures Next(s, s') && forall i :: Target(s', i) == Merge(ListOf(s.lists, i), managed, s.Pair(), s.dir)
  {
    s' := s.(handler := Attach(s.handler.gen, Job(s.dataplane, s.dataplane, {}, managed, s.lists)));
    assert AttachDump(s, s', managed);
    BootIsStep(s, s');
  }

  lemma AttachStep(s: Sys, i: nat) returns (s': Sys)
    requires s.handler.Attach? && s.HasPair() && i in s.handler.job.todo && i in s.dataplane
    requires Defined(Told(Target(s, i)), s.acls)
    ensures AttachOne(s, s', i) && Next(s, s') && s'.lists == s.lists[i := Told(Target(s, i))] && s'.acls == s.acls
  {
    var job := s.handler.job;
    s' := s.(lists := s.lists[i := Told(Target(s, i))],
             handler := Attach(s.handler.gen, job.(todo := job.todo - {i}, out := if Fits(s, i) then job.out else job.out + {i})));
    assert AttachOne(s, s', i);
    BootIsStep(s, s');
  }

  /** What is merged from an empty list is our pair. */
  lemma EmptyTarget(s: Sys, i: nat)
    requires s.handler.Attach? && s.HasPair() && s.dir == Ingress && i !in s.handler.job.lists
    ensures Target(s, i) == AclList(s.Pair(), 2) && Told(Target(s, i)) == AclList(s.Pair(), 2)
  {
    var none: seq<AclIndex> := [];
    assert AclList([], 0).Inputs() == none && AclList([], 0).Outputs() == none;
    assert none + s.Pair() + none == s.Pair();
    ToldIff(Target(s, i));
  }

  /** Our pair is put on interface 7, which has no list; the ACLs of others on it are then those of
      the pair that do not carry our tag. */
  lemma AttachToNew(run: seq<Sys>) returns (s: Sys, s': Sys)
    requires IsRun(run) && var d := run[|run| - 1]; d.handler.Dump? && d.HasPair() && d.dir == Ingress && d.lists == map[]
                                                    && 7 in d.dataplane && AllIn(d.Pair(), d.acls.Keys)
    ensures IsRun(run + [s, s']) && AttachOne(s, s', 7) && s.acls == run[|run| - 1].acls && s.lists == map[]
    ensures s'.lists == map[7 := AclList(run[|run| - 1].Pair(), 2)] && ForeignSide(s, 7, Ingress) == []
    ensures ForeignSide(s', 7, Ingress) == Manual(run[|run| - 1].Pair(), Tagged(s.acls))
  {
    var d := run[|run| - 1];
    s := DumpStep(d, set a | a in d.Pair());
    EmptyTarget(s, 7);
    s' := AttachStep(s, 7);
    RunSnoc(run, s);
    RunSnoc(run + [s], s');
    assert run + [s] + [s'] == run + [s, s'];
    assert AclList(d.Pair(), 2).Inputs() == d.Pair();
  }

  /** VPP restarts after our ACLs are created and gives their indices to an operator's, which then
      are attached to an interface where nobody had put them. */
  lemma RestartWhileAttachingRun(theirs: Installed) returns (ss: seq<Sys>)
    requires theirs.tag.Foreign?
    ensures IsRun(ss) && |ss| == 7
    ensures ss[5].acls == map[2 := theirs, 3 := theirs] && ss[5].lists == map[]
    ensures AttachOne(ss[5], ss[6], 7) && ss[6].lists == map[7 := AclList([2, 3], 2)] && !SidesKept(ss[5], ss[6])
  {
    var boot := ReBoot(JustStarted(map[], map[], {7}));
    var s3 := boot[3];
    var s4 := s3.(generation := 1, acls := map[2 := theirs, 3 := theirs], lists := map[]);
    RestartIsStep(s3, s4);
    RunSnoc(boot, s4);
    var s5, s6 := AttachToNew(boot + [s4]);
    ss := boot + [s4] + [s5, s6];
    ManualKeepsAll([2, 3], Tagged(s5.acls));
    assert ForeignSide(s6, 7, Ingress) != ForeignSide(s5, 7, Ingress);
  }

  /** While nothing is attached yet, an operator gives interface 7 a list. */
  lemma EditStep(s: Sys, l: AclList) returns (s': Sys)
    requires s.handler.Attach? && s.handler.job.ifs == s.handler.job.todo == s.dataplane == {7} && s.dumped == {}
    requires s.lists == map[] && l.Fits() && Defined(l, s.acls)
    ensures Next(s, s') && s' == s.(lists := map[7 := l])
  {
    s' := s.(lists := map[7 := l]);
    assert s.handler.job.Done() == {};
    assert s' == s.(acls := s.acls, lists := map[7 := l], dataplane := {7}, dumped := s.dumped * {7},
                    handler := Attach(s.handler.gen, s.handler.job.(ifs := s.handler.job.ifs * {7})));
    assert Operate(s, s', s.acls, s'.lists, {7});
  }

  lemma OneListed(s: Sys)
    requires s.lists == map[7 := AclList([5], 1)] && 5 !in Tagged(s.acls)
    ensures ForeignSide(s, 7, Ingress) == [5]
  {
    assert AclList([5], 1).Inputs() == [5];
    ManualKeepsAll([5], Tagged(s.acls));
  }

  lemma NoneListed(s: Sys)
    requires 7 in s.lists && s.lists[7] == AclList([2, 3], 2) && 2 in Tagged(s.acls) && 3 in Tagged(s.acls)
    ensures ForeignSide(s, 7, Ingress) == []
  {
    assert AclList([2, 3], 2).Inputs() == [2, 3];
    ManualDropsAll([2, 3], Tagged(s.acls));
  }

  /** A run up to the reading of interface 7, which has no list yet. */
  lemma ReadRun(theirs: Installed) returns (ss: seq<Sys>)
    requires theirs.tag.Foreign?
    ensures IsRun(ss) && |ss| == 5 && 5 in ss[4].acls && ss[4].acls[5] == theirs
    ensures var s := ss[4];
            && s.handler.Attach? && s.handler.job.lists == map[] && s.handler.job.ifs == s.handler.job.todo == {7}
            && s.dataplane == {7} && s.dumped == {} && s.lists == map[]
            && s.HasPair() && s.Pair() == [2, 3] && s.dir == Ingress && 2 in Tagged(s.acls) && 3 in Tagged(s.acls)
  {
    var boot := ReBoot(JustStarted(map[5 := theirs], map[], {7}));
    var s4 := DumpStep(boot[3], set a | a in boot[3].Pair());
    RunSnoc(boot, s4);
    ss := boot + [s4];
  }

  /** And then of an operator's edit. */
  lemma EditedRun(theirs: Installed) returns (ss: seq<Sys>)
    requires theirs.tag.Foreign?
    ensures IsRun(ss) && |ss| == 6 && 5 in ss[5].acls && ss[5].acls[5] == theirs
    ensures var s := ss[5];
            && s.handler.Attach? && s.handler.job.lists == map[] && 7 in s.handler.job.todo && 7 in s.dataplane
            && s.HasPair() && s.Pair() == [2, 3] && s.dir == Ingress
            && s.lists == map[7 := AclList([5], 1)] && 2 in Tagged(s.acls) && 3 in Tagged(s.acls)
  {
    var run := ReadRun(theirs);
    var s5 := EditStep(run[4], AclList([5], 1));
    RunSnoc(run, s5);
    ss := run + [s5];
  }

  /** An operator's edit between the reading and the rewriting of a list is undone. */
  lemma LostEditRun(theirs: Installed) returns (ss: seq<Sys>)
    requires theirs.tag.Foreign?
    ensures IsRun(ss) && |ss| == 7
    ensures ForeignSide(ss[5], 7, Ingress) == [5] && 5 in ss[5].acls && ss[5].acls[5] == theirs
    ensures AttachOne(ss[5], ss[6], 7) && ForeignSide(ss[6], 7, Ingress) == []
  {
    var run := EditedRun(theirs);
    EmptyTarget(run[5], 7);
    var s6 := AttachStep(run[5], 7);
    RunSnoc(run, s6);
    ss := run + [s6];
    OneListed(run[5]);
    NoneListed(s6);
  }

  /** A system whose interface 7 has the ACLs `many` of an operator. */
  lemma ManyStart(theirs: Installed, many: seq<AclIndex>) returns (s: Sys)
    requires theirs.tag.Foreign? && |many| == 254 && forall a | a in many :: 4 <= a
    ensures Init(s) && 2 !in s.acls && 3 !in s.acls && s.generation == 0 && s.dataplane == {7} && s.dir == Ingress
    ensures s.lists == map[7 := AclList(many, 254)] && forall a | a in many :: a in s.acls && s.acls[a] == theirs
  {
    var acls, lists := map a | a in many :: theirs, map[7 := AclList(many, 254)];
    assert Defined(lists[7], acls);
    s := JustStarted(acls, lists, {7});
  }

  /** What is merged from them and what VPP is told of it. */
  lemma ManyTarget(many: seq<AclIndex>, managed: set<AclIndex>, pair: seq<AclIndex>)
    requires |pair| == 2 && |many| == 254 && forall a | a in many :: a !in managed
    ensures Told(Merge(AclList(many, 254), managed, pair, Ingress)) == AclList([], 0)
  {
    var l := AclList(many, 254);
    var none: seq<AclIndex> := [];
    assert l.Inputs() == many && l.Outputs() == none;
    ManualKeepsAll(many, managed);
    assert |Merge(l, managed, pair, Ingress).acls| == 256 && Merge(l, managed, pair, Ingress).nInput == 256;
  }

  /** Attaching to an interface whose merged list is told as an empty one. */
  lemma AttachOutgrown(run: seq<Sys>) returns (s': Sys)
    requires IsRun(run)
    requires var s := run[|run| - 1];
             s.handler.Attach? && s.HasPair() && 7 in s.handler.job.todo && 7 in s.dataplane && Told(Target(s, 7)) == AclList([], 0)
    ensures IsRun(run + [s']) && AttachOne(run[|run| - 1], s', 7)
    ensures s'.lists == run[|run| - 1].lists[7 := AclList([], 0)] && ForeignSide(s', 7, Ingress) == []
  {
    var s := run[|run| - 1];
    assert Defined(AclList([], 0), s.acls);
    s' := AttachStep(s, 7);
    RunSnoc(run, s');
    assert Side(ListOf(s'.lists, 7), Ingress) == [];
  }

  /** A run in which such a list is read for merging. */
  lemma ManyRead(theirs: Installed, many: seq<AclIndex>) returns (ss: seq<Sys>, managed: set<AclIndex>)
    requires theirs.tag.Foreign? && |many| == 254 && forall a | a in many :: 4 <= a
    ensures IsRun(ss) && |ss| == 5
    ensures var s := ss[4];
            && s.handler == Attach(0, Job({7}, {7}, {}, managed, s.lists)) && s.HasPair() && s.dir == Ingress && s.dataplane == {7}
            && s.lists == map[7 := AclList(many, 254)] && AllIn(many, s.acls.Keys - Tagged(s.acls))
            && forall a | a in many :: a !in managed
  {
    var s0 := ManyStart(theirs, many);
    var boot := ReBoot(s0);
    managed := set a | a in boot[3].Pair();
    var s4 := DumpStep(boot[3], managed);
    RunSnoc(boot, s4);
    ss := boot + [s4];
  }

  /** What attaching makes of such an interface, and what it holds of others. */
  lemma ManyMeant(s: Sys, many: seq<AclIndex>, managed: set<AclIndex>)
    requires s.handler.Attach? && s.handler.job.managed == managed && s.handler.job.lists == s.lists && s.HasPair() && s.dir == Ingress
    requires s.lists == map[7 := AclList(many, 254)] && |many| == 254
    requires forall a | a in many :: a !in managed && a !in Tagged(s.acls)
    ensures Told(Target(s, 7)) == AclList([], 0) && ForeignSide(s, 7, Ingress) == many
  {
    ManyTarget(many, managed, s.Pair());
    ManualKeepsAll(many, Tagged(s.acls));
    assert AclList(many, 254).Inputs() == many;
  }

  /** With 254 ACLs of an operator the merged list has 256 entries, VPP is told none, and the
      interface loses all of them. */
  lemma OutgrownRun(theirs: Installed, many: seq<AclIndex>) returns (ss: seq<Sys>)
    requires theirs.tag.Foreign? && |many| == 254 && forall a | a in many :: 4 <= a
    ensures IsRun(ss) && |ss| == 6
    ensures ForeignSide(ss[4], 7, Ingress) == many
    ensures AttachOne(ss[4], ss[5], 7) && ss[5].lists == map[7 := AclList([], 0)] && ForeignSide(ss[5], 7, Ingress) == []
  {
    var run, managed := ManyRead(theirs, many);
    ManyMeant(run[4], many, managed);
    var s5 := AttachOutgrown(run);
    ss := run + [s5];
  }
}
