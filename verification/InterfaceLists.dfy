/**
  How the two managed ACLs are placed into an interface's ACL list and taken out again. The
  first `nInput` indices of a list are its input ACLs, the rest its output ACLs; VPP counts both
  in one byte. Evaluation takes the first entry that matches, ACL after ACL.
 */
module InterfaceLists {
  import opened Arith
  import opened FlowSpec
  import opened Acl
  import opened ManagerState
  import E = EndToEnd

  type AclIndex = nat

  datatype Direction = Ingress | Egress

  datatype AclList = AclList(acls: seq<AclIndex>, nInput: nat)
  {
    function Inputs(): seq<AclIndex> { acls[..Min(nInput, |acls|)] }

    function Outputs(): seq<AclIndex> { acls[Min(nInput, |acls|)..] }

    predicate Fits() { |acls| <= 255 && nInput <= 255 }
  }

  /** The indices outside `managed`, in order. */
  function Manual(s: seq<AclIndex>, managed: set<AclIndex>): (r: seq<AclIndex>)
    ensures forall a | a in r :: a in s && a !in managed
    ensures |r| <= |s|
  {
    if s == [] then []
    else
      var init := Manual(s[..|s| - 1], managed);
      if s[|s| - 1] in managed then init else init + [s[|s| - 1]]
  }

  lemma {:induction false} ManualConcat(a: seq<AclIndex>, b: seq<AclIndex>, managed: set<AclIndex>)
    ensures Manual(a + b, managed) == Manual(a, managed) + Manual(b, managed)
  {
    if b == [] {
      assert a + b == a;
    } else {
      ManualConcat(a, b[..|b| - 1], managed);
      assert (a + b)[..|a + b| - 1] == a + b[..|b| - 1];
    }
  }

  /** Nothing managed, nothing dropped. */
  lemma {:induction false} ManualKeepsAll(s: seq<AclIndex>, managed: set<AclIndex>)
    requires forall a | a in s :: a !in managed
    ensures Manual(s, managed) == s
  {
    if s != [] {
      assert forall a | a in s[..|s| - 1] :: a in s;
      ManualKeepsAll(s[..|s| - 1], managed);
      assert s == s[..|s| - 1] + [s[|s| - 1]];
    }
  }

  lemma {:induction false} ManualDropsAll(s: seq<AclIndex>, managed: set<AclIndex>)
    requires forall a | a in s :: a in managed
    ensures Manual(s, managed) == []
  {
    if s != [] {
      assert forall a | a in s[..|s| - 1] :: a in s;
      ManualDropsAll(s[..|s| - 1], managed);
    }
  }

  lemma ManualSnoc(s: seq<AclIndex>, from: nat, i: nat, managed: set<AclIndex>)
    requires from <= i < |s|
    ensures Manual(s[from..i + 1], managed) ==
            if s[i] in managed then Manual(s[from..i], managed) else Manual(s[from..i], managed) + [s[i]]
  {
    assert s[from..i + 1] == s[from..i] + [s[i]];
    ManualAppend(s[from..i], s[i], managed);
  }

  lemma ManualAppend(s: seq<AclIndex>, a: AclIndex, managed: set<AclIndex>)
    ensures Manual(s + [a], managed) == if a in managed then Manual(s, managed) else Manual(s, managed) + [a]
  {
    assert (s + [a])[..|s + [a]| - 1] == s;
  }

  /** One more index partitioned. */
  lemma SplitNext(cur: seq<AclIndex>, nInput: nat, managed: set<AclIndex>, i: nat)
    requires i < |cur| && i < 256
    ensures SplitUpTo(cur, nInput, managed, i + 1) ==
            var (ins, outs) := SplitUpTo(cur, nInput, managed, i);
            if cur[i] in managed then (ins, outs) else if i < nInput then (ins + [cur[i]], outs) else (ins, outs + [cur[i]])
  {
    ModSmall(i, 256);
  }

  /** The partition of the first `i` indices; the position is compared as a byte. */
  function SplitUpTo(cur: seq<AclIndex>, nInput: nat, managed: set<AclIndex>, i: nat): (seq<AclIndex>, seq<AclIndex>)
    requires i <= |cur|
  {
    if i == 0 then ([], [])
    else
      var (ins, outs) := SplitUpTo(cur, nInput, managed, i - 1);
      var a := cur[i - 1];
      if a in managed then (ins, outs)
      else if (i - 1) % 256 < nInput then (ins + [a], outs)
      else (ins, outs + [a])
  }

  lemma {:induction false} SplitInputs(cur: seq<AclIndex>, nInput: nat, managed: set<AclIndex>, i: nat)
    requires i <= |cur| && i <= 256 && i <= nInput
    ensures SplitUpTo(cur, nInput, managed, i) == (Manual(cur[0..i], managed), [])
  {
    if i == 0 {
      assert cur[0..0] == [];
    } else {
      var k := i - 1;
      SplitInputs(cur, nInput, managed, k);
      SplitNext(cur, nInput, managed, k);
      ManualSnoc(cur, 0, k, managed);
      assert k + 1 == i;
    }
  }

  /** Within a byte's range the partition is the manual part of each side. */
  lemma {:induction false} SplitMeaning(cur: seq<AclIndex>, nInput: nat, managed: set<AclIndex>, i: nat)
    requires i <= |cur| && i <= 256 && nInput <= i
    ensures SplitUpTo(cur, nInput, managed, i) == (Manual(cur[0..nInput], managed), Manual(cur[nInput..i], managed))
  {
    if i == nInput {
      SplitInputs(cur, nInput, managed, i);
    } else {
      SplitMeaning(cur, nInput, managed, i - 1);
      SplitNext(cur, nInput, managed, i - 1);
      ManualSnoc(cur, nInput, i - 1, managed);
    }
  }

  /** An index past position 255 that is not ours and whose wrapped position counts as input. */
  predicate Strays(cur: seq<AclIndex>, nInput: Byte, managed: set<AclIndex>, k: int)
  {
    256 <= k < |cur| && cur[k] !in managed && k % 256 < nInput
  }

  predicate NoStrays(cur: seq<AclIndex>, nInput: Byte, managed: set<AclIndex>, i: int)
  {
    forall k | 256 <= k < i :: !Strays(cur, nInput, managed, k)
  }

  /** How one position past 255 changes the partition. */
  lemma StrayStep(cur: seq<AclIndex>, nInput: Byte, managed: set<AclIndex>, k: nat)
    requires 256 <= k < |cur|
    ensures NoStrays(cur, nInput, managed, k + 1) <==> NoStrays(cur, nInput, managed, k) && !Strays(cur, nInput, managed, k)
    ensures var (ins, outs) := SplitUpTo(cur, nInput, managed, k);
            SplitUpTo(cur, nInput, managed, k + 1) ==
            if cur[k] in managed then (ins, outs)
            else if Strays(cur, nInput, managed, k) then (ins + [cur[k]], outs)
            else (ins, outs + [cur[k]])
  {
  }

  /** The partition of the first `i` indices is the one by sides, or has too many inputs. */
  predicate BySidesOrMore(cur: seq<AclIndex>, nInput: Byte, managed: set<AclIndex>, i: nat)
    requires 256 <= i <= |cur|
  {
    var (ins, outs) := SplitUpTo(cur, nInput, managed, i);
    if NoStrays(cur, nInput, managed, i)
    then ins == Manual(cur[0..nInput], managed) && outs == Manual(cur[nInput..i], managed)
    else |ins| > |Manual(cur[0..nInput], managed)|
  }

  lemma SplitIffStep(cur: seq<AclIndex>, nInput: Byte, managed: set<AclIndex>, k: nat)
    requires 256 <= k < |cur| && BySidesOrMore(cur, nInput, managed, k)
    ensures BySidesOrMore(cur, nInput, managed, k + 1)
  {
    StrayStep(cur, nInput, managed, k);
    if !Strays(cur, nInput, managed, k) {
      ManualSnoc(cur, nInput, k, managed);
    }
  }

  lemma {:induction false} SplitIff(cur: seq<AclIndex>, nInput: Byte, managed: set<AclIndex>, i: nat)
    requires 256 <= i <= |cur|
    ensures BySidesOrMore(cur, nInput, managed, i)
  {
    if i == 256 {
      SplitMeaning(cur, nInput, managed, i);
    } else {
      SplitIff(cur, nInput, managed, i - 1);
      SplitIffStep(cur, nInput, managed, i - 1);
      assert (i - 1) + 1 == i;
    }
  }

  /** The two sides of a list, with ours left out. */
  function ManualSides(l: AclList, managed: set<AclIndex>): (seq<AclIndex>, seq<AclIndex>)
  {
    (Manual(l.Inputs(), managed), Manual(l.Outputs(), managed))
  }

  /** The partition computed is the one by sides if and only if no index strays; a list as VPP
      reports it is shorter than that. */
  lemma SplitBySidesIff(cur: seq<AclIndex>, nInput: Byte, managed: set<AclIndex>)
    ensures SplitUpTo(cur, nInput, managed, |cur|) == ManualSides(AclList(cur, nInput), managed) <==>
            NoStrays(cur, nInput, managed, |cur|)
  {
    assert cur[0..|cur|] == cur;
    if |cur| >= 256 {
      SplitIff(cur, nInput, managed, |cur|);
      assert cur[0..nInput] == AclList(cur, nInput).Inputs() && cur[nInput..|cur|] == AclList(cur, nInput).Outputs();
    } else if nInput <= |cur| {
      SplitMeaning(cur, nInput, managed, |cur|);
      assert cur[0..nInput] == cur[..nInput] && cur[nInput..|cur|] == cur[nInput..];
    } else {
      SplitInputs(cur, nInput, managed, |cur|);
      assert AclList(cur, nInput).Inputs() == cur && AclList(cur, nInput).Outputs() == [];
    }
  }

  method SplitNonManaged(cur: seq<AclIndex>, nInput: Byte, managed: set<AclIndex>)
    returns (ins: seq<AclIndex>, outs: seq<AclIndex>)
    ensures (ins, outs) == SplitUpTo(cur, nInput, managed, |cur|)
    ensures (ins, outs) == ManualSides(AclList(cur, nInput), managed) <==> NoStrays(cur, nInput, managed, |cur|)
  {
    ins, outs := [], [];
    for i := 0 to |cur|
      invariant (ins, outs) == SplitUpTo(cur, nInput, managed, i)
    {
      if cur[i] in managed {
        continue;
      }
      if i % 256 < nInput {
        ins := ins + [cur[i]];
      } else {
        outs := outs + [cur[i]];
      }
    }
    SplitBySidesIff(cur, nInput, managed);
  }

  /** The merged list: the manual ACLs in place, ours last in our direction. */
  function Merge(l: AclList, managed: set<AclIndex>, ours: seq<AclIndex>, dir: Direction): (r: AclList)
  {
    var ins := Manual(l.Inputs(), managed) + (if dir.Ingress? then ours else []);
    var outs := Manual(l.Outputs(), managed) + (if dir.Egress? then ours else []);
    AclList(ins + outs, |ins|)
  }

  /** What VPP is told of a list: the number of ACLs and of input ACLs, each in one byte. */
  function Told(l: AclList): (r: AclList)
  {
    AclList(l.acls[..|l.acls| % 256], l.nInput % 256)
  }

  /** VPP is told the list as it is if and only if it has at most 255 ACLs. */
  lemma ToldIff(l: AclList)
    requires l.nInput <= |l.acls|
    ensures Told(l) == l <==> |l.acls| <= 255
  {
    if |l.acls| <= 255 {
      ModSmall(|l.acls|, 256);
      ModSmall(l.nInput, 256);
    }
  }

  /** For every list ours come last on our side of the partition, and nothing else is added or
      lost; without strays the result is the merged list. */
  method MergeManagedLast(cur: seq<AclIndex>, nInput: Byte, managed: set<AclIndex>, ours: seq<AclIndex>, dir: Direction)
    returns (merged: seq<AclIndex>, n: nat)
    ensures var (ins, outs) := SplitUpTo(cur, nInput, managed, |cur|);
            && merged == (if dir.Ingress? then ins + ours + outs else ins + outs + ours)
            && n == (|ins| + if dir.Ingress? then |ours| else 0) % 256
    ensures NoStrays(cur, nInput, managed, |cur|) ==>
              var l := Merge(AclList(cur, nInput), managed, ours, dir); merged == l.acls && n == l.nInput % 256
  {
    var ins, outs := SplitNonManaged(cur, nInput, managed);
    if dir == Ingress {
      ins := ins + ours;
    } else {
      outs := outs + ours;
    }
    merged := ins + outs;
    n := |ins| % 256;
  }

  /** What detaching leaves: everything but `ours`. */
  function Detach(l: AclList, ours: set<AclIndex>): (r: AclList)
  {
    AclList(Manual(l.Inputs(), ours) + Manual(l.Outputs(), ours), |Manual(l.Inputs(), ours)|)
  }

  // ----- laws -----

  lemma Sides(ins: seq<AclIndex>, outs: seq<AclIndex>)
    ensures AclList(ins + outs, |ins|).Inputs() == ins && AclList(ins + outs, |ins|).Outputs() == outs
  {
  }

  predicate AllIn(s: seq<AclIndex>, t: set<AclIndex>) { forall a | a in s :: a in t }

  /** Filtering a filtered list followed by managed indices gives the filtered list back. */
  lemma ManualAgain(s: seq<AclIndex>, managed: set<AclIndex>, tail: seq<AclIndex>)
    requires AllIn(tail, managed)
    ensures Manual(Manual(s, managed) + tail, managed) == Manual(s, managed)
  {
    ManualConcat(Manual(s, managed), tail, managed);
    ManualKeepsAll(Manual(s, managed), managed);
    ManualDropsAll(tail, managed);
  }

  /** Merging keeps the manual ACLs of each side, in order. */
  lemma MergeKeepsManual(l: AclList, managed: set<AclIndex>, ours: seq<AclIndex>, dir: Direction)
    requires AllIn(ours, managed)
    ensures Manual(Merge(l, managed, ours, dir).Inputs(), managed) == Manual(l.Inputs(), managed)
    ensures Manual(Merge(l, managed, ours, dir).Outputs(), managed) == Manual(l.Outputs(), managed)
  {
    var inTail: seq<AclIndex> := if dir.Ingress? then ours else [];
    var outTail: seq<AclIndex> := if dir.Egress? then ours else [];
    Sides(Manual(l.Inputs(), managed) + inTail, Manual(l.Outputs(), managed) + outTail);
    ManualAgain(l.Inputs(), managed, inTail);
    ManualAgain(l.Outputs(), managed, outTail);
  }

  /** Attaching twice is attaching once. */
  lemma MergeIdempotent(l: AclList, managed: set<AclIndex>, ours: seq<AclIndex>, dir: Direction)
    requires AllIn(ours, managed)
    ensures Merge(Merge(l, managed, ours, dir), managed, ours, dir) == Merge(l, managed, ours, dir)
  {
    MergeKeepsManual(l, managed, ours, dir);
  }

  /** Detaching after an attach leaves exactly the manual lists. */
  lemma DetachUndoesMerge(l: AclList, managed: set<AclIndex>, ours: seq<AclIndex>, dir: Direction)
    requires AllIn(ours, managed)
    ensures Detach(Merge(l, managed, ours, dir), set a | a in ours) ==
            AclList(Manual(l.Inputs(), managed) + Manual(l.Outputs(), managed), |Manual(l.Inputs(), managed)|)
  {
    var mine := set a | a in ours;
    var inTail: seq<AclIndex> := if dir.Ingress? then ours else [];
    var outTail: seq<AclIndex> := if dir.Egress? then ours else [];
    var ins, outs := Manual(l.Inputs(), managed), Manual(l.Outputs(), managed);
    Sides(ins + inTail, outs + outTail);
    ManualTail(ins, inTail, mine);
    ManualTail(outs, outTail, mine);
  }

  lemma ManualTail(s: seq<AclIndex>, tail: seq<AclIndex>, mine: set<AclIndex>)
    requires (forall a | a in s :: a !in mine) && AllIn(tail, mine)
    ensures Manual(s + tail, mine) == s
  {
    ManualConcat(s, tail, mine);
    ManualKeepsAll(s, mine);
    ManualDropsAll(tail, mine);
  }

  /** A list with nothing of ours comes back as it was. */
  lemma DetachRestores(l: AclList, managed: set<AclIndex>, ours: seq<AclIndex>, dir: Direction)
    requires AllIn(ours, managed) && l.nInput <= |l.acls| && forall a | a in l.acls :: a !in managed
    ensures Detach(Merge(l, managed, ours, dir), set a | a in ours) == l
  {
    DetachUndoesMerge(l, managed, ours, dir);
    ManualKeepsAll(l.Inputs(), managed);
    ManualKeepsAll(l.Outputs(), managed);
    assert l.Inputs() + l.Outputs() == l.acls;
  }

  lemma {:induction false} ManualTwice(l: seq<AclIndex>, a: set<AclIndex>, b: set<AclIndex>)
    requires a <= b
    ensures Manual(Manual(l, a), b) == Manual(l, b)
  {
    if l != [] {
      var init, last := l[..|l| - 1], l[|l| - 1];
      ManualTwice(init, a, b);
      if last !in a {
        ManualAppend(Manual(init, a), last, b);
      }
    }
  }

  /** The side of a list that a direction configures. */
  function Side(l: AclList, dir: Direction): seq<AclIndex> { if dir.Ingress? then l.Inputs() else l.Outputs() }

  lemma MergedSide(l: AclList, managed: set<AclIndex>, ours: seq<AclIndex>, dir: Direction, side: Direction)
    ensures Side(Merge(l, managed, ours, dir), side) ==
            Manual(Side(l, side), managed) + (if side == dir then ours else [])
  {
    Sides(Manual(l.Inputs(), managed) + (if dir.Ingress? then ours else []),
          Manual(l.Outputs(), managed) + (if dir.Egress? then ours else []));
  }

  /** With room, the list VPP is told ends on our side in our pair, and names it nowhere before. */
  lemma MergedPairLast(l: AclList, managed: set<AclIndex>, pair: seq<AclIndex>, dir: Direction)
    requires |pair| == 2 && AllIn(pair, managed) && |Merge(l, managed, pair, dir).acls| <= 255
    ensures var side := Side(Told(Merge(l, managed, pair, dir)), dir);
            |side| >= 2 && side[|side| - 2..] == pair && forall a | a in side[..|side| - 2] :: a !in pair
  {
    ToldIff(Merge(l, managed, pair, dir));
    MergedSide(l, managed, pair, dir, dir);
    var rest := Manual(Side(l, dir), managed);
    assert (rest + pair)[..|rest|] == rest && (rest + pair)[|rest|..] == pair;
  }

  /** Whatever part of our ACLs is stripped, the others stay on both sides, in order. */
  lemma MergeKeepsOthers(l: AclList, managed: set<AclIndex>, ours: seq<AclIndex>, dir: Direction, side: Direction,
                         all: set<AclIndex>)
    requires AllIn(ours, all) && managed <= all
    ensures Manual(Side(Merge(l, managed, ours, dir), side), all) == Manual(Side(l, side), all)
  {
    var tail: seq<AclIndex> := if side == dir then ours else [];
    MergedSide(l, managed, ours, dir, side);
    ManualConcat(Manual(Side(l, side), managed), tail, all);
    ManualDropsAll(tail, all);
    ManualTwice(Side(l, side), managed, all);
  }

  // ----- whole interfaces -----

  function ListOf(lists: map<nat, AclList>, i: nat): AclList
  {
    if i in lists then lists[i] else AclList([], 0)
  }

  /** Every list is one VPP can report: it counts both lengths in a byte. */
  predicate Reported(lists: map<nat, AclList>) { forall i | i in lists :: lists[i].Fits() }

  /** The list an interface is given. */
  method AttachOne(cur: AclList, managed: set<AclIndex>, ours: seq<AclIndex>, dir: Direction) returns (l: AclList)
    requires cur.Fits()
    ensures l == Told(Merge(cur, managed, ours, dir)) && l.Fits()
  {
    var acls, n := MergeManagedLast(cur.acls, cur.nInput, managed, ours, dir);
    l := AclList(acls[..|acls| % 256], n);
  }

  /** Rewrites the list of every data-plane interface. */
  method AttachAll(lists: map<nat, AclList>, ifs: seq<nat>, managed: set<AclIndex>, ours: seq<AclIndex>, dir: Direction)
    returns (lists': map<nat, AclList>)
    requires Reported(lists)
    ensures Reported(lists')
    ensures forall i | i in ifs :: ListOf(lists', i) == Told(Merge(ListOf(lists, i), managed, ours, dir))
    ensures forall i | i !in ifs :: ListOf(lists', i) == ListOf(lists, i)
  {
    lists' := lists;
    for k := 0 to |ifs|
      invariant Reported(lists')
      invariant forall i | i in ifs[..k] :: ListOf(lists', i) == Told(Merge(ListOf(lists, i), managed, ours, dir))
      invariant forall i | i !in ifs[..k] :: ListOf(lists', i) == ListOf(lists, i)
    {
      var i := ifs[k];
      var l := AttachOne(ListOf(lists, i), managed, ours, dir);
      lists' := lists'[i := l];
    }
    assert ifs[..|ifs|] == ifs;
  }

  method DetachOne(cur: AclList, ours: set<AclIndex>) returns (l: AclList)
    requires cur.Fits()
    ensures l == Detach(cur, ours) && l.Fits()
  {
    var ins, outs := SplitNonManaged(cur.acls, cur.nInput, ours);
    l := AclList(ins + outs, |ins| % 256);
  }

  /** Takes our indices out of every interface that holds one; other interfaces stay. */
  method DetachAll(lists: map<nat, AclList>, ours: set<AclIndex>) returns (lists': map<nat, AclList>)
    requires Reported(lists)
    ensures lists'.Keys == lists.Keys
    ensures forall i | i in lists ::
              lists'[i] == if exists a | a in lists[i].acls :: a in ours then Detach(lists[i], ours) else lists[i]
  {
    lists' := lists;
    var todo := lists.Keys;
    while todo != {}
      invariant todo <= lists.Keys && lists'.Keys == lists.Keys
      invariant forall i | i in todo :: lists'[i] == lists[i]
      invariant forall i | i in lists && i !in todo ::
                  lists'[i] == if exists a | a in lists[i].acls :: a in ours then Detach(lists[i], ours) else lists[i]
      decreases todo
    {
      var i :| i in todo;
      todo := todo - {i};
      if exists a | a in lists[i].acls :: a in ours {
        var l := DetachOne(lists[i], ours);
        lists' := lists'[i := l];
      }
    }
  }

  // ----- evaluation -----

  /** The verdict of the first matching entry of a list of ACLs. */
  function Evaluate(list: seq<AclIndex>, acls: map<AclIndex, seq<ACLRule>>, p: Packet): (v: Option<Verdict>)
  {
    if list == [] then None
    else
      var v := if list[0] in acls then FirstMatch(acls[list[0]], p) else None;
      if v.Some? then v else Evaluate(list[1..], acls, p)
  }

  lemma {:induction false} EvaluateConcat(a: seq<AclIndex>, b: seq<AclIndex>, acls: map<AclIndex, seq<ACLRule>>, p: Packet)
    ensures Evaluate(a + b, acls, p) ==
            if Evaluate(a, acls, p).Some? then Evaluate(a, acls, p) else Evaluate(b, acls, p)
  {
    if a == [] {
      assert a + b == b;
    } else {
      assert (a + b)[1..] == a[1..] + b;
      EvaluateConcat(a[1..], b, acls, p);
    }
  }

  /** The entries of an ACL before its last one. */
  function Denies(acl: seq<ACLRule>): seq<ACLRule> { if acl == [] then [] else acl[..|acl| - 1] }

  /** A family's ACL as some push left it: denies of that family, then permit-any. */
  predicate FamilyAcl(f: Family, acl: seq<ACLRule>)
  {
    acl == BuildACL(f, Denies(acl)) && forall r | r in Denies(acl) :: DenyOf(f, r)
  }

  /** Such an ACL holds what the manager state calls for. */
  ghost predicate Desires(st: State, f: Family, acl: seq<ACLRule>)
  {
    forall k :: k in Denies(acl) <==> k in Live(st, f)
  }

  /** The managed pair decides every packet, and the packet's own family alone matters. */
  lemma PairDecides(us: seq<Update>, v4: AclIndex, v6: AclIndex, acls: map<AclIndex, seq<ACLRule>>, p: Packet)
    requires v4 in acls && FamilyAcl(IPv4, acls[v4]) && v6 in acls && FamilyAcl(IPv6, acls[v6])
    requires Desires(E.Run(us), FamilyOf(p), acls[if FamilyOf(p).IPv4? then v4 else v6])
    ensures Evaluate([v4, v6], acls, p) == Some(if E.SomeStandingBlocks(us, p) then Deny else Permit)
  {
    assert [v4, v6][1..] == [v6];
    assert [v6][1..] == [];
    if FamilyOf(p).IPv4? {
      E.ManagedVerdict(us, IPv4, Denies(acls[v4]), p);
    } else {
      Blocklist(IPv4, Denies(acls[v4]), p);
      E.ManagedVerdict(us, IPv6, Denies(acls[v6]), p);
    }
  }

  /** On an interface with both managed ACLs merged in, in either direction, a manual entry that
      matches decides; otherwise the packet is denied exactly when a standing announcement
      covers it. */
  lemma InterfaceVerdict(us: seq<Update>, l: AclList, managed: set<AclIndex>, dir: Direction, v4: AclIndex, v6: AclIndex,
                         acls: map<AclIndex, seq<ACLRule>>, p: Packet)
    requires v4 in acls && FamilyAcl(IPv4, acls[v4]) && v6 in acls && FamilyAcl(IPv6, acls[v6])
    requires Desires(E.Run(us), FamilyOf(p), acls[if FamilyOf(p).IPv4? then v4 else v6])
    ensures var manual := Evaluate(Manual(Side(l, dir), managed), acls, p);
            Evaluate(Side(Merge(l, managed, [v4, v6], dir), dir), acls, p) ==
            if manual.Some? then manual
            else Some(if E.SomeStandingBlocks(us, p) then Deny else Permit)
  {
    MergedSide(l, managed, [v4, v6], dir, dir);
    EvaluateConcat(Manual(Side(l, dir), managed), [v4, v6], acls, p);
    PairDecides(us, v4, v6, acls, p);
  }
}
