/**
  The detector's events, from a matched sample to the verdict on packets. An event's id and the
  text of its rule are both made of the rule's name and the descriptor, so each text belongs to one
  event; and the drop of a finding that is leased reaches the ACL of its family.
 */
module DetectorEvents {
  import opened Arith
  import opened FlowSpec
  import opened Acl
  import opened ManagerState
  import opened Pushes
  import opened Detector
  import opened Texts
  import E = EndToEnd
  import F = Findings
  import L = Leases
  import S = Sustained
  import T = Translate

  // ----- descriptors as text -----

  predicate InAddress(c: char) { '0' <= c <= '9' || 'a' <= c <= 'f' || c == '.' || c == ':' }

  /** How addresses are written: in hexadecimal digits, dots and colons, each in its own way. */
  ghost predicate Writes(text: Addr -> string)
  {
    && (forall a, k | 0 <= k < |text(a)| :: InAddress(text(a)[k]))
    && forall a, b :: text(a) == text(b) ==> a == b
  }

  function FamilyText(f: Family): string { if f.IPv4? then "ipv4" else "ipv6" }

  function ProtoText(p: Option<Byte>): string { if p.None? then "any" else Dec(p.value) }

  function PrefixText(text: Addr -> string, a: Addr, bits: int): string
  {
    Join([text(a), Dec(MaskLen(a.family, bits))], '/')
  }

  function PortText(lo: nat, hi: nat): string
  {
    Join(if lo == hi then [Dec(lo)] else [Dec(lo), Dec(hi)], '-')
  }

  /** A type or code is written only where there is one. */
  function IcmpField(name: string, v: Option<Byte>): seq<string> { if v.None? then [] else [name + Dec(v.value)] }

  /** Everything after the family. */
  function TailFields(text: Addr -> string, r: DetectorRule, d: Descriptor): (fields: seq<string>)
    ensures |fields| >= 5
  {
    ["proto=" + ProtoText(d.proto),
     "src=" + PrefixText(text, d.src, r.srcMask), "dst=" + PrefixText(text, d.dst, r.dstMask),
     "src_port=" + PortText(d.srcPorts.lo, d.srcPorts.hi), "dst_port=" + PortText(d.dstPorts.lo, d.dstPorts.hi)]
    + (IcmpField("icmp_type=", d.icmpType) + IcmpField("icmp_code=", d.icmpCode))
  }

  function KeyFields(text: Addr -> string, r: DetectorRule, d: Descriptor): seq<string>
  {
    ["family=" + FamilyText(d.family)] + TailFields(text, r, d)
  }

  function KeyText(text: Addr -> string, r: DetectorRule, d: Descriptor): string
  {
    Join(KeyFields(text, r, d), '|')
  }

  function IdOf(name: string, key: string): L.EventID { name + "/" + key }

  function RawOf(name: string, key: string): string { "detector:" + name + ":" + key }

  // ----- the text tells the descriptor -----

  /** Neither the separator of fields nor an l, which is found in "family" alone. */
  predicate Plain(s: string) { '|' !in s && 'l' !in s }

  lemma DecPlain(n: nat)
    ensures Plain(Dec(n)) && '/' !in Dec(n) && '-' !in Dec(n) && Dec(n) != "any"
  {
    assert "any"[0] == 'a';
  }

  lemma JoinPlain(fields: seq<string>, sep: char)
    requires fields != [] && (forall f | f in fields :: Plain(f)) && sep != '|' && sep != 'l'
    ensures Plain(Join(fields, sep))
  {
    if '|' in Join(fields, sep) {
      JoinChars(fields, sep, '|');
    }
    if 'l' in Join(fields, sep) {
      JoinChars(fields, sep, 'l');
    }
  }

  lemma PrefixPlain(text: Addr -> string, a: Addr, bits: int)
    requires Writes(text)
    ensures Plain(PrefixText(text, a, bits)) && Without([text(a), Dec(MaskLen(a.family, bits))], '/')
  {
    DecPlain(MaskLen(a.family, bits));
    JoinPlain([text(a), Dec(MaskLen(a.family, bits))], '/');
  }

  lemma PortPlain(lo: nat, hi: nat)
    ensures Plain(PortText(lo, hi)) && Without([Dec(lo), Dec(hi)], '-') && Without([Dec(lo)], '-')
  {
    DecPlain(lo);
    DecPlain(hi);
    JoinPlain(if lo == hi then [Dec(lo)] else [Dec(lo), Dec(hi)], '-');
  }

  lemma IcmpPlain(name: string, v: Option<Byte>)
    requires Plain(name)
    ensures forall f | f in IcmpField(name, v) :: Plain(f)
  {
    if v.Some? {
      DecPlain(v.value);
    }
  }

  lemma ProtoPlain(p: Option<Byte>)
    ensures Plain(ProtoText(p))
  {
    if p.Some? {
      DecPlain(p.value);
    }
  }

  lemma PlainField(name: string, s: string)
    requires Plain(name) && Plain(s)
    ensures Plain(name + s)
  {
  }

  lemma TailPlain(text: Addr -> string, r: DetectorRule, d: Descriptor)
    requires Writes(text)
    ensures forall f | f in TailFields(text, r, d) :: Plain(f)
  {
    ProtoPlain(d.proto);
    PrefixPlain(text, d.src, r.srcMask);
    PrefixPlain(text, d.dst, r.dstMask);
    PortPlain(d.srcPorts.lo, d.srcPorts.hi);
    PortPlain(d.dstPorts.lo, d.dstPorts.hi);
    PlainField("proto=", ProtoText(d.proto));
    PlainField("src=", PrefixText(text, d.src, r.srcMask));
    PlainField("dst=", PrefixText(text, d.dst, r.dstMask));
    PlainField("src_port=", PortText(d.srcPorts.lo, d.srcPorts.hi));
    PlainField("dst_port=", PortText(d.dstPorts.lo, d.dstPorts.hi));
    IcmpPlain("icmp_type=", d.icmpType);
    IcmpPlain("icmp_code=", d.icmpCode);
    var first, more := TailFields(text, r, d)[..5], IcmpField("icmp_type=", d.icmpType) + IcmpField("icmp_code=", d.icmpCode);
    assert TailFields(text, r, d) == first + more;
    assert forall i | 0 <= i < 5 :: Plain(first[i]);
  }

  lemma SamePrefix(text: Addr -> string, a: Addr, b: Addr, bits: int)
    requires Writes(text) && PrefixText(text, a, bits) == PrefixText(text, b, bits)
    ensures a == b
  {
    PrefixPlain(text, a, bits);
    PrefixPlain(text, b, bits);
    var x, y := [text(a), Dec(MaskLen(a.family, bits))], [text(b), Dec(MaskLen(b.family, bits))];
    JoinInjective(x, y, '/');
    assert x[0] == y[0];
  }

  lemma SamePorts(lo: nat, hi: nat, lo': nat, hi': nat)
    requires PortText(lo, hi) == PortText(lo', hi')
    ensures lo == lo' && hi == hi'
  {
    PortPlain(lo, hi);
    PortPlain(lo', hi');
    var x := if lo == hi then [Dec(lo)] else [Dec(lo), Dec(hi)];
    var y := if lo' == hi' then [Dec(lo')] else [Dec(lo'), Dec(hi')];
    JoinInjective(x, y, '-');
    assert |x| == |y| && x[0] == y[0] && x[|x| - 1] == y[|y| - 1];
    DecInjective(lo, lo');
    DecInjective(hi, hi');
  }

  lemma SameProto(a: Option<Byte>, b: Option<Byte>)
    requires ProtoText(a) == ProtoText(b)
    ensures a == b
  {
    if a.Some? {
      DecPlain(a.value);
    }
    if b.Some? {
      DecPlain(b.value);
    }
    if a.Some? && b.Some? {
      DecInjective(a.value, b.value);
    }
  }

  /** What follows a common beginning is the same. */
  lemma SameRest(begin: string, a: string, b: string)
    requires begin + a == begin + b
    ensures a == b
  {
    assert a == (begin + a)[|begin|..] && b == (begin + b)[|begin|..];
  }

  lemma SameField(name: string, a: Option<Byte>, b: Option<Byte>)
    requires IcmpField(name, a) == IcmpField(name, b)
    ensures a == b
  {
    if a.Some? && b.Some? {
      assert IcmpField(name, a)[0] == IcmpField(name, b)[0];
      SameRest(name, Dec(a.value), Dec(b.value));
      DecInjective(a.value, b.value);
    }
  }

  /** Which of the two fields is there shows in the sixth letter. */
  lemma SameIcmp(t: Option<Byte>, c: Option<Byte>, t': Option<Byte>, c': Option<Byte>)
    requires IcmpField("icmp_type=", t) + IcmpField("icmp_code=", c) == IcmpField("icmp_type=", t') + IcmpField("icmp_code=", c')
    ensures t == t' && c == c'
  {
    var a, b := IcmpField("icmp_type=", t) + IcmpField("icmp_code=", c), IcmpField("icmp_type=", t') + IcmpField("icmp_code=", c');
    assert t.Some? ==> a[0][5] == 't';
    assert t'.Some? ==> b[0][5] == 't';
    assert t.None? && c.Some? ==> a[0][5] == 'c';
    assert t'.None? && c'.Some? ==> b[0][5] == 'c';
    assert IcmpField("icmp_type=", t) == IcmpField("icmp_type=", t') by {
      assert t.Some? <==> t'.Some?;
      if t.Some? {
        assert a[0] == b[0];
      }
    }
    assert IcmpField("icmp_code=", c) == a[|IcmpField("icmp_type=", t)|..];
    assert IcmpField("icmp_code=", c') == b[|IcmpField("icmp_type=", t')|..];
    SameField("icmp_type=", t, t');
    SameField("icmp_code=", c, c');
  }

  lemma SameTail(text: Addr -> string, r: DetectorRule, d: Descriptor, d': Descriptor)
    requires Writes(text) && TailFields(text, r, d) == TailFields(text, r, d')
    ensures d.(family := d'.family) == d'
  {
    var x, y := TailFields(text, r, d), TailFields(text, r, d');
    assert x[0] == y[0] && x[1] == y[1] && x[2] == y[2] && x[3] == y[3] && x[4] == y[4] && x[5..] == y[5..];
    SameRest("proto=", ProtoText(d.proto), ProtoText(d'.proto));
    SameProto(d.proto, d'.proto);
    SameRest("src=", PrefixText(text, d.src, r.srcMask), PrefixText(text, d'.src, r.srcMask));
    SamePrefix(text, d.src, d'.src, r.srcMask);
    SameRest("dst=", PrefixText(text, d.dst, r.dstMask), PrefixText(text, d'.dst, r.dstMask));
    SamePrefix(text, d.dst, d'.dst, r.dstMask);
    SameRest("src_port=", PortText(d.srcPorts.lo, d.srcPorts.hi), PortText(d'.srcPorts.lo, d'.srcPorts.hi));
    SamePorts(d.srcPorts.lo, d.srcPorts.hi, d'.srcPorts.lo, d'.srcPorts.hi);
    SameRest("dst_port=", PortText(d.dstPorts.lo, d.dstPorts.hi), PortText(d'.dstPorts.lo, d'.dstPorts.hi));
    SamePorts(d.dstPorts.lo, d.dstPorts.hi, d'.dstPorts.lo, d'.dstPorts.hi);
    SameIcmp(d.icmpType, d.icmpCode, d'.icmpType, d'.icmpCode);
  }

  lemma FieldsPlain(text: Addr -> string, r: DetectorRule, d: Descriptor)
    requires Writes(text)
    ensures Without(KeyFields(text, r, d), '|')
  {
    TailPlain(text, r, d);
    assert '|' !in "family=" + FamilyText(d.family);
  }

  /** A rule's descriptors are told apart by their text. */
  lemma KeyTextInjective(text: Addr -> string, r: DetectorRule, d: Descriptor, d': Descriptor)
    requires Writes(text) && KeyText(text, r, d) == KeyText(text, r, d')
    ensures d == d'
  {
    FieldsPlain(text, r, d);
    FieldsPlain(text, r, d');
    var x, y := KeyFields(text, r, d), KeyFields(text, r, d');
    JoinInjective(x, y, '|');
    assert x[0] == y[0] && x[1..] == y[1..];
    assert x[1..] == TailFields(text, r, d) && y[1..] == TailFields(text, r, d');
    SameTail(text, r, d, d');
    assert "family=" + "ipv4" != "family=" + "ipv6" by {
      assert ("family=" + "ipv4")[10] == '4' && ("family=" + "ipv6")[10] == '6';
    }
  }

  // ----- the text tells the event -----

  /** The only l is the fifth letter. */
  predicate KeyShape(key: string)
  {
    |key| > 4 && key[4] == 'l' && forall k | 0 <= k < |key| && k != 4 :: key[k] != 'l'
  }

  lemma KeyTextShape(text: Addr -> string, r: DetectorRule, d: Descriptor)
    requires Writes(text)
    ensures KeyShape(KeyText(text, r, d))
  {
    var key, first, rest := KeyText(text, r, d), "family=" + FamilyText(d.family), Join(TailFields(text, r, d), '|');
    TailPlain(text, r, d);
    if 'l' in rest {
      JoinChars(TailFields(text, r, d), '|', 'l');
    }
    assert KeyFields(text, r, d)[1..] == TailFields(text, r, d);
    assert key == first + ['|'] + rest;
    assert forall k | |first| < k < |key| :: key[k] == rest[k - |first| - 1];
    assert forall k | 0 <= k < |first| && k != 4 :: first[k] != 'l';
  }

  /** A rule's name may be any text, yet it can be told from what follows. */
  lemma SplitUnique(a: string, key: string, b: string, key': string, sep: char)
    requires KeyShape(key) && KeyShape(key') && a + [sep] + key == b + [sep] + key'
    ensures a == b && key == key'
  {
    var t := a + [sep] + key;
    assert forall k | 0 <= k < |key| :: t[|t| - |key| + k] == key[k];
    assert forall k | 0 <= k < |key'| :: t[|t| - |key'| + k] == key'[k];
    SameLength(t, key, key');
    assert t[..|a|] == a && t[..|b|] == b;
    assert t[|a| + 1..] == key && t[|b| + 1..] == key';
  }

  /** Two endings of this shape are equally long. */
  lemma SameLength(t: string, key: string, key': string)
    requires KeyShape(key) && KeyShape(key') && |key| <= |t| && |key'| <= |t|
    requires t[|t| - |key|..] == key && t[|t| - |key'|..] == key'
    ensures |key| == |key'|
  {
    assert t[|t| - |key| + 4] == 'l' && t[|t| - |key'| + 4] == 'l';
    assert forall i | |t| - |key| <= i < |t| :: t[i] == key[i - (|t| - |key|)];
    assert forall i | |t| - |key'| <= i < |t| :: t[i] == key'[i - (|t| - |key'|)];
  }

  lemma IdSplit(name: string, key: string, name': string, key': string)
    requires KeyShape(key) && KeyShape(key')
    ensures IdOf(name, key) == IdOf(name', key') <==> name == name' && key == key'
    ensures RawOf(name, key) == RawOf(name', key') <==> name == name' && key == key'
  {
    if IdOf(name, key) == IdOf(name', key') {
      SplitUnique(name, key, name', key', '/');
    }
    if RawOf(name, key) == RawOf(name', key') {
      var head := "detector:";
      assert RawOf(name, key) == head + (name + [':'] + key) && RawOf(name', key') == head + (name' + [':'] + key');
      SameRest(head, name + [':'] + key, name' + [':'] + key');
      SplitUnique(name, key, name', key', ':');
    }
  }

  // ----- events -----

  /** The event of a finding of the rule called `name`. */
  function EventFor(text: Addr -> string, name: string, r: DetectorRule, d: Descriptor, ttl: int, refresh: bool): L.DetectorEvent
  {
    L.DetectorEvent(IdOf(name, KeyText(text, r, d)), BuildFlowSpec(r, d, RawOf(name, KeyText(text, r, d))), ttl, refresh)
  }

  /** Whether a route's text is the detector's, and of which event. */
  predicate TextOf(rid: RouteId, name: string, key: string) { KeyShape(key) && rid == ByRaw(RawOf(name, key)) }

  /** The event a route belongs to. */
  ghost function Owner(rid: RouteId): L.EventID
  {
    if exists name, key :: TextOf(rid, name, key)
    then var name, key :| TextOf(rid, name, key); IdOf(name, key)
    else ""
  }

  lemma EventOwned(text: Addr -> string, name: string, r: DetectorRule, d: Descriptor, ttl: int, refresh: bool)
    requires Writes(text)
    ensures var ev := EventFor(text, name, r, d, ttl, refresh); Owner(RouteIdentity(ev.rule)) == ev.id
  {
    var key := KeyText(text, r, d);
    KeyTextShape(text, r, d);
    var rid := RouteIdentity(EventFor(text, name, r, d, ttl, refresh).rule);
    assert rid == ByRaw(RawOf(name, key));
    assert TextOf(rid, name, key);
    var n, k :| TextOf(rid, n, k) && Owner(rid) == IdOf(n, k);
    assert TextOf(rid, n, k);
    IdSplit(name, key, n, k);
  }

  /** Rules are called by unique names. For all events of the detector: the ids are equal exactly
      when rule name and descriptor are, and so are the texts of the rules sent. */
  lemma EventIdentityIff(text: Addr -> string, rules: map<string, DetectorRule>, name: string, d: Descriptor,
                         name': string, d': Descriptor, ttl: int, refresh: bool)
    requires Writes(text) && name in rules && name' in rules
    ensures var a, b := EventFor(text, name, rules[name], d, ttl, refresh), EventFor(text, name', rules[name'], d', ttl, refresh);
            && (a.id == b.id <==> name == name' && d == d')
            && (RouteIdentity(a.rule) == RouteIdentity(b.rule) <==> name == name' && d == d')
  {
    var key, key' := KeyText(text, rules[name], d), KeyText(text, rules[name'], d');
    KeyTextShape(text, rules[name], d);
    KeyTextShape(text, rules[name'], d');
    IdSplit(name, key, name', key');
    if name == name' && key == key' {
      KeyTextInjective(text, rules[name], d, d');
    }
  }

  /** Findings apart, in name or in descriptor, have events of their own, as `Sustained` asks. */
  lemma EventsApart(text: Addr -> string, rules: map<string, DetectorRule>, name: string, d: Descriptor,
                    name': string, d': Descriptor, ttl: int, refresh: bool, ttl': int)
    requires Writes(text) && name in rules && name' in rules && (name != name' || d != d')
    ensures var ev := EventFor(text, name, rules[name], d, ttl, refresh);
            S.OfOthers(Owner, ev, [EventFor(text, name', rules[name'], d', ttl', refresh)])
  {
    EventIdentityIff(text, rules, name, d, name', d', ttl, refresh);
    EventOwned(text, name', rules[name'], d', ttl', refresh);
  }

  // ----- the verdict -----

  /** An entry of the family's live ones denies what it matches. */
  lemma LiveDenies(us: seq<Update>, acl: ACLRule, rules: seq<ACLRule>, p: Packet)
    requires forall k :: k in rules <==> k in Live(E.Run(us), FamilyOf(p))
    requires acl in Live(E.Run(us), FamilyOf(p)) && EntryMatches(acl, p)
    ensures FirstMatch(BuildACL(FamilyOf(p), rules), p) == Some(Deny)
  {
    forall k | k in rules ensures DenyOf(FamilyOf(p), k) {
      E.DesiredDenies(us, FamilyOf(p), k);
    }
    Blocklist(FamilyOf(p), rules, p);
    assert acl in rules;
  }

  /** A leased rule that the translator accepts is live in its family. */
  lemma LeasedIsLive(owner: RouteId -> L.EventID, leases: map<L.EventID, L.Lease>, us: seq<Update>, id: L.EventID)
    requires L.Mirrors(owner, leases, L.OfSession(us, L.DETECTOR)) && id in leases && T.Translate(leases[id].rule).Ok?
    ensures T.Translate(leases[id].rule).value in Live(E.Run(us), leases[id].rule.family)
  {
    var r := leases[id].rule;
    L.ManagerMirrorsLeases(owner, leases, us, RouteIdentity(r));
    E.RunRefines(us);
    LiveByKeys(E.Run(us), r.family);
    LiveIff(E.Run(us), T.Translate(r).value);
    T.TranslateDenies(r);
  }

  /** From a sample to the verdict: while the drop of a sample is leased, and whatever other
      sessions announce, the pushed ACL denies every matched sample that agrees with it on what
      the drop's entry names. */
  lemma DetectedIsDropped(owner: RouteId -> L.EventID, leases: map<L.EventID, L.Lease>, us: seq<Update>, id: L.EventID,
                          r: DetectorRule, s: Sample, s': Sample, raw: string, rules: seq<ACLRule>)
    requires r.Compiled() && Matches(r, s) && Matches(r, s') && Accepted(r, s) && Agrees(Expressed(r, s), s, s')
    requires L.Mirrors(owner, leases, L.OfSession(us, L.DETECTOR))
    requires id in leases && leases[id].rule == BuildFlowSpec(r, DescriptorFor(r, s), raw)
    requires forall k :: k in rules <==> k in Live(E.Run(us), s'.family)
    ensures FirstMatch(BuildACL(s'.family, rules), PacketOf(s')) == Some(Deny)
  {
    EntryMatchesIff(r, s, s', raw);
    LeasedIsLive(owner, leases, us, id);
    assert s'.family == s.family;
    LiveDenies(us, T.Translate(leases[id].rule).value, rules, PacketOf(s'));
  }

  lemma ClassAgrees(r: DetectorRule, s: Sample, s': Sample)
    requires r.Compiled() && DescriptorFor(r, s) == DescriptorFor(r, s') && PortsInRange(r, s') && IcmpFits(r, s')
    ensures Agrees(Expressed(r, s), s, s')
  {
    SameClassAgrees(r, s, s');
    ExpressedSame(r, s, s');
  }

  /** A sustained finding still has its lease. */
  lemma StillLeased(p: F.Policy, ev: L.DetectorEvent, ticks: seq<F.Tick>, d: int, i: nat, leases: map<L.EventID, L.Lease>)
    requires ev.refresh && 0 < p.emitInterval && 0 < ev.ttl && p.emitInterval + d <= ev.ttl
    requires F.InOrder(ticks) && F.Paced(ticks, d)
    requires i < |ticks| && F.Emits(p, ticks, i) && F.TrueThrough(ticks, i, |ticks| - 1)
    requires S.Holds(leases, ev, S.LeaseAfter(p, ev, false, ticks))
    ensures ev.id in leases && leases[ev.id].rule == ev.rule
  {
    var m := |ticks| - 1;
    S.LeaseHeld(p, ev, ticks, d, i, m);
    var e :| i <= e && S.LeasedBy(p, ev, ticks, e, m);
    assert ticks[..m + 1] == ticks;
  }

  /** A whole sustained finding: from its event on, at every tick for as long as the trigger
      holds, every matched sample of the finding's class that FlowSpec can express is denied,
      provided an event interval and a tick fit within the lease time. */
  lemma SustainedIsDropped(text: Addr -> string, name: string, r: DetectorRule, s: Sample, s': Sample,
                           p: F.Policy, ttl: int, ticks: seq<F.Tick>, d: int, i: nat,
                           leases: map<L.EventID, L.Lease>, us: seq<Update>, rules: seq<ACLRule>)
    requires r.Compiled() && Matches(r, s) && Matches(r, s') && Accepted(r, s)
    requires DescriptorFor(r, s) == DescriptorFor(r, s') && PortsInRange(r, s') && IcmpFits(r, s')
    requires 0 < p.emitInterval && 0 < ttl && p.emitInterval + d <= ttl && F.InOrder(ticks) && F.Paced(ticks, d)
    requires i < |ticks| && F.Emits(p, ticks, i) && F.TrueThrough(ticks, i, |ticks| - 1)
    requires var ev := EventFor(text, name, r, DescriptorFor(r, s), ttl, true);
             S.Holds(leases, ev, S.LeaseAfter(p, ev, false, ticks))
    requires L.Mirrors(Owner, leases, L.OfSession(us, L.DETECTOR))
    requires forall k :: k in rules <==> k in Live(E.Run(us), s'.family)
    ensures FirstMatch(BuildACL(s'.family, rules), PacketOf(s')) == Some(Deny)
  {
    var ev := EventFor(text, name, r, DescriptorFor(r, s), ttl, true);
    StillLeased(p, ev, ticks, d, i, leases);
    ClassAgrees(r, s, s');
    DetectedIsDropped(Owner, leases, us, ev.id, r, s, s', RawOf(name, KeyText(text, r, DescriptorFor(r, s))), rules);
  }
}
