/**
  The compile step from a FlowSpec rule to one VPP ACL entry: an equivalent entry or a typed
  rejection, never an approximation.
 */
module Translate {
  import opened FlowSpec
  import opened Intervals
  import opened TcpFlags
  import opened Acl

  const PORT_MAX: nat := 65535

  /** A list of the single form `= v` with v below 256, as protocol and ICMP lists must be. */
  function ExactOf(ops: seq<NumericOp>): (r: Result<Option<Byte>>)
  {
    if ops == [] then Ok(None)
    else if |ops| != 1 then Err(UnsupportedExpression)
    else
      var c := ops[0].cond;
      if !c.eq || c.lt || c.gt then Err(UnsupportedExpression)
      else if c.value > 255 then Err(UnsupportedExpression)
      else Ok(Some(c.value))
  }

  /** The protocol after tcp-flags and ICMP components have fixed or contradicted it. */
  function InferProto(f: Family, proto: Option<Byte>, tcp: bool, icmp: bool): (r: Result<Option<Byte>>)
  {
    if tcp && proto.Some? && proto.value != TCP then Err(UnsupportedExpression)
    else
      var afterTcp := if tcp then Some(TCP) else proto;
      if icmp && afterTcp.Some? && afterTcp.value != IcmpProto(f) then Err(UnsupportedExpression)
      else Ok(if icmp then Some(IcmpProto(f)) else afterTcp)
  }

  predicate PortsAllowed(m: Match, proto: Option<Byte>)
  {
    m.srcPort != [] || m.dstPort != [] ==> proto.Some? && (proto.value == TCP || proto.value == UDP)
  }

  function PrefixOrDefault(f: Family, pm: Option<PrefixMatch>): Prefix
  {
    if pm.Some? then pm.value.prefix else DefaultPrefix(f)
  }

  predicate OffsetOk(pm: Option<PrefixMatch>) { pm.Some? ==> pm.value.offset == 0 }

  predicate FamilyOk(f: Family, pm: Option<PrefixMatch>) { pm.Some? ==> pm.value.prefix.addr.family == f }

  function IcmpRange(v: Option<Byte>): Interval
  {
    if v.Some? then Interval(v.value, v.value) else Interval(0, 255)
  }

  function Entry(r: Rule, proto: Option<Byte>, src: Interval, dst: Interval, flags: Option<FlagMatch>): ACLRule
    requires src.lo <= PORT_MAX && src.hi <= PORT_MAX && dst.lo <= PORT_MAX && dst.hi <= PORT_MAX
  {
    ACLRule(r.family.IPv6?, false,
            PrefixOrDefault(r.family, r.match_.src), PrefixOrDefault(r.family, r.match_.dst),
            if proto.Some? then proto.value else 0,
            src.lo, src.hi, dst.lo, dst.hi,
            if flags.Some? then flags.value.mask else {},
            if flags.Some? then flags.value.value else {})
  }

  /** The checks that need no operator list, in the order the translator makes them. */
  function Screen(r: Rule): (e: Option<Reason>)
  {
    var m := r.match_;
    if r.action != Drop then Some(UnsupportedActionKind)
    else if m.HasUnmapped() then Some(UnsupportedComponent)
    else if !OffsetOk(m.dst) || !OffsetOk(m.src) then Some(UnmappablePrefix)
    else if !FamilyOk(r.family, m.dst) || !FamilyOk(r.family, m.src) then Some(UnmappablePrefix)
    else None
  }

  /** The entry a rule becomes. Port ranges are given by `RangeOf`, that is by meaning. */
  ghost function Translate(r: Rule): (res: Result<ACLRule>)
  {
    var m := r.match_;
    if Screen(r).Some? then Err(Screen(r).value)
    else
      var explicit :- ExactOf(m.proto);
      var flags :- FlagsOf(m.tcpFlags);
      var icmpType :- ExactOf(m.icmpType);
      var icmpCode :- ExactOf(m.icmpCode);
      var icmp := icmpType.Some? || icmpCode.Some?;
      var proto :- InferProto(r.family, explicit, flags.Some?, icmp);
      if !PortsAllowed(m, proto) then Err(UnsupportedExpression)
      else if icmp then Ok(Entry(r, proto, IcmpRange(icmpType), IcmpRange(icmpCode), flags))
      else
        RangeFits(m.srcPort);
        RangeFits(m.dstPort);
        var src :- RangeOf(m.srcPort, PORT_MAX);
        var dst :- RangeOf(m.dstPort, PORT_MAX);
        Ok(Entry(r, proto, src, dst, flags))
  }

  lemma RangeFits(ops: seq<NumericOp>)
    ensures RangeOf(ops, PORT_MAX).Ok? ==>
              RangeOf(ops, PORT_MAX).value.lo <= RangeOf(ops, PORT_MAX).value.hi <= PORT_MAX
  {
    if ops != [] && RangeOf(ops, PORT_MAX).Ok? {
      RangeOfMeaning(ops, PORT_MAX, RangeOf(ops, PORT_MAX).value);
    }
  }

  // ----- which rules are accepted, as what -----

  /** Absent, or the one item `= v` with v in a byte. */
  predicate AbsentOrNumber(ops: seq<NumericOp>)
  {
    ops == [] || (|ops| == 1 && ops[0].cond == Comparison(false, false, true, ops[0].cond.value) && ops[0].cond.value <= 255)
  }

  /** Absent, or one AND term of carried items that never want a bit both set and clear. */
  ghost predicate FlagsFit(ops: seq<BitmaskOp>)
  {
    ops == [] || (OneAndTerm(ops) && AllMappable(ops) && Consistent(ops))
  }

  /** Absent, or operands that are ports and accepted ports that are one interval. */
  ghost predicate PortsFit(ops: seq<NumericOp>)
  {
    ops == [] || ((forall op | op in ops :: IsPortOperand(op.cond)) && exists iv :: IsExactly(ops, 65535, iv))
  }

  /** A comparison needs a port to compare with; "true" and "false" do not. */
  predicate IsPortOperand(c: Comparison) { c.value <= 65535 || (c.lt == c.gt && c.gt == c.eq) }

  /** A protocol that some component calls for: the listed one, TCP (6) for flags, ICMP (1) or
      ICMPv6 (58) for a type or code. */
  predicate CallsFor(r: Rule, proto: nat)
  {
    var m := r.match_;
    || (m.proto != [] && m.proto[0].cond.value == proto)
    || (m.tcpFlags != [] && proto == 6)
    || ((m.icmpType != [] || m.icmpCode != []) && proto == if r.family.IPv6? then 58 else 1)
  }

  /** The operator lists can be expressed together, ports going with TCP (6) or UDP (17). */
  ghost predicate ListsFit(r: Rule)
  {
    var m := r.match_;
    && AbsentOrNumber(m.proto) && AbsentOrNumber(m.icmpType) && AbsentOrNumber(m.icmpCode)
    && FlagsFit(m.tcpFlags) && PortsFit(m.srcPort) && PortsFit(m.dstPort)
    && (forall a, b | CallsFor(r, a) && CallsFor(r, b) :: a == b)
    && (m.srcPort != [] || m.dstPort != [] ==> CallsFor(r, 6) || CallsFor(r, 17))
  }

  predicate PrefixFits(f: Family, pm: Option<PrefixMatch>)
  {
    pm.Some? ==> pm.value.offset == 0 && pm.value.prefix.addr.family == f
  }

  /** Why a rule is rejected, if it is: the first of four demands that it fails. */
  ghost function WhyNot(r: Rule): Option<Reason>
  {
    var m := r.match_;
    if r.action != Drop then Some(UnsupportedActionKind)
    else if m.fragment != [] || m.hasGenericPort || m.hasPacketLen || m.hasDSCP || m.hasFlowLabel || m.hasLabel || m.hasUnknownComponent
    then Some(UnsupportedComponent)
    else if !PrefixFits(r.family, m.src) || !PrefixFits(r.family, m.dst) then Some(UnmappablePrefix)
    else if !ListsFit(r) then Some(UnsupportedExpression)
    else None
  }

  /** The ports an entry gives are those the list accepts, all of them without a list. */
  ghost predicate PortsAre(ops: seq<NumericOp>, first: nat, last: nat)
  {
    if ops == [] then first == 0 && last == 65535 else IsExactly(ops, 65535, Interval(first, last))
  }

  /** The type or code an entry gives is the one listed, any without a list. */
  predicate IcmpIs(ops: seq<NumericOp>, first: nat, last: nat)
  {
    if ops == [] then first == 0 && last == 255 else first == last == ops[0].cond.value
  }

  predicate PrefixIs(f: Family, pm: Option<PrefixMatch>, p: Prefix)
  {
    if pm.Some? then p == pm.value.prefix else p == RawPrefix(RawAddr(f, 0), 0)
  }

  /** Every field of the entry, by the component it stands for. */
  ghost predicate IsEntry(r: Rule, acl: ACLRule)
  {
    var m := r.match_;
    && acl.isIPv6 == r.family.IPv6? && !acl.permit
    && PrefixIs(r.family, m.src, acl.src) && PrefixIs(r.family, m.dst, acl.dst)
    && (if exists p :: CallsFor(r, p) then CallsFor(r, acl.proto) else acl.proto == 0)
    && (if m.icmpType != [] || m.icmpCode != []
        then IcmpIs(m.icmpType, acl.srcFirst, acl.srcLast) && IcmpIs(m.icmpCode, acl.dstFirst, acl.dstLast)
        else PortsAre(m.srcPort, acl.srcFirst, acl.srcLast) && PortsAre(m.dstPort, acl.dstFirst, acl.dstLast))
    && FlagsAre(m.tcpFlags, acl)
  }

  /** The mask has the bits some item wants, the value those wanted set. */
  ghost predicate FlagsAre(ops: seq<BitmaskOp>, acl: ACLRule)
  {
    && (forall b :: b in acl.tcpValue <==> Wants(ops, false, b))
    && (forall b :: b in acl.tcpMask <==> Wants(ops, false, b) || Wants(ops, true, b))
  }

  lemma ExactOfIff(ops: seq<NumericOp>)
    ensures ExactOf(ops).Ok? <==> AbsentOrNumber(ops)
    ensures ExactOf(ops).Ok? ==> ExactOf(ops).value == if ops == [] then None else Some(ops[0].cond.value)
    ensures ExactOf(ops).Err? ==> ExactOf(ops).reason == UnsupportedExpression
  {
  }

  lemma FlagsOfIff(ops: seq<BitmaskOp>)
    ensures FlagsOf(ops).Ok? <==> FlagsFit(ops)
    ensures FlagsOf(ops).Ok? ==> (FlagsOf(ops).value.Some? <==> ops != [])
    ensures FlagsOf(ops).Err? ==> FlagsOf(ops).reason == UnsupportedExpression
  {
    FoldItemsIff(ops);
  }

  lemma RangeOfIff(ops: seq<NumericOp>)
    ensures RangeOf(ops, PORT_MAX).Ok? <==> PortsFit(ops)
    ensures RangeOf(ops, PORT_MAX).Ok? ==> PortsAre(ops, RangeOf(ops, PORT_MAX).value.lo, RangeOf(ops, PORT_MAX).value.hi)
    ensures RangeOf(ops, PORT_MAX).Err? ==> RangeOf(ops, PORT_MAX).reason == UnsupportedExpression
  {
    assert forall op | op in ops :: IsPortOperand(op.cond) <==> OperandFits(op.cond, PORT_MAX);
    if ops != [] && RangeOf(ops, PORT_MAX).Ok? {
      RangeOfMeaning(ops, PORT_MAX, RangeOf(ops, PORT_MAX).value);
    }
  }

  /** Inference succeeds exactly when all components call for one protocol, and gives it. */
  lemma InferProtoIff(r: Rule, explicit: Option<Byte>)
    requires explicit == if r.match_.proto == [] then None else Some(r.match_.proto[0].cond.value)
    ensures var m := r.match_;
            var res := InferProto(r.family, explicit, m.tcpFlags != [], m.icmpType != [] || m.icmpCode != []);
            && (res.Ok? <==> forall a, b | CallsFor(r, a) && CallsFor(r, b) :: a == b)
            && (res.Err? ==> res.reason == UnsupportedExpression)
            && (res.Ok? ==> if res.value.Some? then CallsFor(r, res.value.value) else forall p :: !CallsFor(r, p))
  {
    var m := r.match_;
    assert m.proto != [] ==> CallsFor(r, m.proto[0].cond.value);
    assert m.tcpFlags != [] ==> CallsFor(r, 6);
    assert m.icmpType != [] || m.icmpCode != [] ==> CallsFor(r, if r.family.IPv6? then 58 else 1);
  }

  lemma FlagFieldsAre(ops: seq<BitmaskOp>, acl: ACLRule)
    requires FlagsOf(ops).Ok?
    requires var flags := FlagsOf(ops).value;
             && acl.tcpMask == (if flags.Some? then flags.value.mask else {})
             && acl.tcpValue == (if flags.Some? then flags.value.value else {})
    ensures FlagsAre(ops, acl)
  {
    if ops != [] {
      forall b ensures b in acl.tcpValue <==> Wants(ops, false, b)
               ensures b in acl.tcpMask <==> Wants(ops, false, b) || Wants(ops, true, b) {
        FoldItemsBits(ops, b);
      }
    }
  }

  lemma ListsIff(r: Rule)
    requires Screen(r).None?
    ensures Translate(r).Ok? <==> ListsFit(r)
    ensures Translate(r).Err? ==> Translate(r).reason == UnsupportedExpression
  {
    var m := r.match_;
    ExactOfIff(m.proto);
    ExactOfIff(m.icmpType);
    ExactOfIff(m.icmpCode);
    FlagsOfIff(m.tcpFlags);
    RangeOfIff(m.srcPort);
    RangeOfIff(m.dstPort);
    if AbsentOrNumber(m.proto) {
      InferProtoIff(r, ExactOf(m.proto).value);
    }
  }

  /** For every rule: it is accepted, or rejected for the first demand that it fails; and an
      accepted rule becomes the one entry whose fields say what its components say. */
  lemma TranslateIff(r: Rule)
    ensures WhyNot(r).None? <==> Translate(r).Ok?
    ensures Translate(r).Err? ==> WhyNot(r) == Some(Translate(r).reason)
    ensures Translate(r).Ok? ==> IsEntry(r, Translate(r).value)
  {
    if Screen(r).None? {
      ListsIff(r);
      if Translate(r).Ok? {
        EntryIs(r);
      }
    }
  }

  lemma EntryIs(r: Rule)
    requires Translate(r).Ok?
    ensures IsEntry(r, Translate(r).value)
  {
    var m := r.match_;
    ExactOfIff(m.proto);
    ExactOfIff(m.icmpType);
    ExactOfIff(m.icmpCode);
    FlagsOfIff(m.tcpFlags);
    InferProtoIff(r, ExactOf(m.proto).value);
    FlagFieldsAre(m.tcpFlags, Translate(r).value);
    RangeOfIff(m.srcPort);
    RangeOfIff(m.dstPort);
  }

  /** Nothing else is an entry of the rule. */
  lemma EntryUnique(r: Rule, a: ACLRule, b: ACLRule)
    requires WhyNot(r).None? && IsEntry(r, a) && IsEntry(r, b)
    ensures a == b
  {
    var m := r.match_;
    if m.icmpType == m.icmpCode == [] {
      if m.srcPort != [] {
        ExactUnique(m.srcPort, 65535, Interval(a.srcFirst, a.srcLast), Interval(b.srcFirst, b.srcLast));
      }
      if m.dstPort != [] {
        ExactUnique(m.dstPort, 65535, Interval(a.dstFirst, a.dstLast), Interval(b.dstFirst, b.dstLast));
      }
    }
    assert a.tcpValue == b.tcpValue && a.tcpMask == b.tcpMask;
  }

  /** The executable translator accepts, rejects and answers as `TranslateIff` says. */
  method TranslateRule(r: Rule) returns (res: Result<ACLRule>)
    ensures res == Translate(r)
    ensures res.Ok? ==> WhyNot(r).None? && IsEntry(r, res.value)
    ensures res.Err? ==> WhyNot(r) == Some(res.reason)
  {
    TranslateIff(r);
    var m := r.match_;
    var screened := Screen(r);
    if screened.Some? {
      return Err(screened.value);
    }
    var explicit :- ExactOf(m.proto);
    var flags :- ReduceTCPFlags(m.tcpFlags);
    var icmpType :- ExactOf(m.icmpType);
    var icmpCode :- ExactOf(m.icmpCode);
    var icmp := icmpType.Some? || icmpCode.Some?;
    var proto :- InferProto(r.family, explicit, flags.Some?, icmp);
    if !PortsAllowed(m, proto) {
      return Err(UnsupportedExpression);
    }
    if icmp {
      return Ok(Entry(r, proto, IcmpRange(icmpType), IcmpRange(icmpCode), flags));
    }
    RangeFits(m.srcPort);
    RangeFits(m.dstPort);
    var src :- ReduceRange(m.srcPort, PORT_MAX);
    var dst :- ReduceRange(m.dstPort, PORT_MAX);
    return Ok(Entry(r, proto, src, dst, flags));
  }

  // ----- meaning -----

  /** The rule an entry can express: `= 0` on the protocol becomes "any protocol". */
  function Effective(r: Rule): Rule
  {
    if ProtoIsZero(r.match_) then r.(match_ := r.match_.(proto := [])) else r
  }

  lemma PrefixField(f: Family, pm: Option<PrefixMatch>, a: Addr)
    requires OffsetOk(pm) && FamilyOk(f, pm)
    ensures Contains(PrefixOrDefault(f, pm), a) <==> PrefixHolds(f, pm, a)
  {
    if pm.Some? {
      OffsetZero(pm.value.prefix, a);
    } else {
      DefaultContains(f, a);
    }
  }

  lemma ExactField(ops: seq<NumericOp>, v: Byte)
    requires ExactOf(ops).Ok? && ops != []
    ensures ExactOf(ops).value.Some?
    ensures NumericHolds(ops, v) <==> v == ExactOf(ops).value.value
    ensures RfcNumericHolds(ops, v) <==> v == ExactOf(ops).value.value
  {
    SingleHolds(ops, v);
  }

  lemma PortField(ops: seq<NumericOp>, v: Port)
    requires RangeOf(ops, PORT_MAX).Ok?
    ensures var iv := RangeOf(ops, PORT_MAX).value;
            (ops != [] ==> NumericHolds(ops, v)) <==> iv.lo <= v <= iv.hi
  {
    if ops != [] {
      RangeOfMeaning(ops, PORT_MAX, RangeOf(ops, PORT_MAX).value);
    }
  }

  // Each predicate below ties some fields of an entry to the components they stand for.

  predicate ProtoMeans(r: Rule, acl: ACLRule, p: Packet)
  {
    var m := r.match_;
    && (m.proto != [] && !ProtoIsZero(m) ==> (NumericHolds(m.proto, p.proto) <==> acl.proto == p.proto))
    && (m.proto != [] && !ProtoIsZero(m) ==> acl.proto != 0)
    && (m.srcPort != [] || m.dstPort != [] ==> acl.proto == TCP || acl.proto == UDP)
    && (m.tcpFlags != [] ==> acl.proto == TCP)
    && (m.icmpType != [] || m.icmpCode != [] ==> acl.proto == IcmpProto(r.family))
    && (m.tcpFlags == [] && m.icmpType == m.icmpCode == [] && (m.proto == [] || ProtoIsZero(m)) ==> acl.proto == 0)
  }

  predicate IcmpMeans(m: Match, acl: ACLRule, p: Packet)
  {
    && (acl.srcFirst <= p.icmpType <= acl.srcLast <==> (m.icmpType != [] ==> NumericHolds(m.icmpType, p.icmpType)))
    && (acl.dstFirst <= p.icmpCode <= acl.dstLast <==> (m.icmpCode != [] ==> NumericHolds(m.icmpCode, p.icmpCode)))
  }

  predicate PortsMean(m: Match, acl: ACLRule, p: Packet)
  {
    && (acl.srcFirst <= p.srcPort <= acl.srcLast <==> (m.srcPort != [] ==> NumericHolds(m.srcPort, p.srcPort)))
    && (acl.dstFirst <= p.dstPort <= acl.dstLast <==> (m.dstPort != [] ==> NumericHolds(m.dstPort, p.dstPort)))
    && (m.srcPort == [] ==> acl.srcFirst == 0 && acl.srcLast == PORT_MAX)
    && (m.dstPort == [] ==> acl.dstFirst == 0 && acl.dstLast == PORT_MAX)
  }

  predicate PrefixesMean(r: Rule, acl: ACLRule, p: Packet)
  {
    && (Contains(acl.src, p.src) <==> PrefixHolds(r.family, r.match_.src, p.src))
    && (Contains(acl.dst, p.dst) <==> PrefixHolds(r.family, r.match_.dst, p.dst))
  }

  lemma FlagFields(r: Rule)
    requires Translate(r).Ok?
    ensures FlagsOf(r.match_.tcpFlags).Ok?
    ensures var acl, flags := Translate(r).value, FlagsOf(r.match_.tcpFlags).value;
            && acl.tcpMask == (if flags.Some? then flags.value.mask else {})
            && acl.tcpValue == (if flags.Some? then flags.value.value else {})
  {
  }

  /** On the packets the header admits, value and mask mean the tcp-flags component. */
  lemma FlagsMeanComponent(m: Match, acl: ACLRule, p: Packet)
    requires FlagsOf(m.tcpFlags).Ok? && (m.tcpFlags != [] ==> p.proto == TCP)
    requires var flags := FlagsOf(m.tcpFlags).value;
             && acl.tcpMask == (if flags.Some? then flags.value.mask else {})
             && acl.tcpValue == (if flags.Some? then flags.value.value else {})
    ensures FlagsMatch(acl, p) <==> FlagsCover(m, p)
  {
    if m.tcpFlags != [] {
      FlagsOfMeaning(m.tcpFlags, p.tcpFlags);
    }
  }

  lemma ProtoField(r: Rule, p: Packet)
    requires Translate(r).Ok?
    ensures ProtoMeans(r, Translate(r).value, p)
  {
    if r.match_.proto != [] {
      ExactField(r.match_.proto, p.proto);
    }
  }

  lemma IcmpFields(r: Rule, p: Packet)
    requires Translate(r).Ok? && (r.match_.icmpType != [] || r.match_.icmpCode != [])
    ensures IcmpMeans(r.match_, Translate(r).value, p)
  {
    var m := r.match_;
    if m.icmpType != [] { ExactField(m.icmpType, p.icmpType); }
    if m.icmpCode != [] { ExactField(m.icmpCode, p.icmpCode); }
  }

  lemma PortFields(r: Rule, p: Packet)
    requires Translate(r).Ok? && r.match_.icmpType == [] && r.match_.icmpCode == []
    ensures PortsMean(r.match_, Translate(r).value, p)
  {
    PortField(r.match_.srcPort, p.srcPort);
    PortField(r.match_.dstPort, p.dstPort);
  }

  lemma PrefixFields(r: Rule, p: Packet)
    requires Translate(r).Ok?
    ensures PrefixesMean(r, Translate(r).value, p)
  {
    PrefixField(r.family, r.match_.src, p.src);
    PrefixField(r.family, r.match_.dst, p.dst);
  }

  /** Fields that mean their components make an entry whose header means its rule. */
  lemma FieldsMeanHeader(r: Rule, acl: ACLRule, p: Packet)
    requires !r.match_.HasUnmapped()
    requires PrefixesMean(r, acl, p) && ProtoMeans(r, acl, p)
    requires if r.match_.icmpType != [] || r.match_.icmpCode != []
             then IcmpMeans(r.match_, acl, p) else PortsMean(r.match_, acl, p)
    ensures HeaderMatches(acl, p) <==> HeaderCovers(Effective(r), p)
  {
    var m := r.match_;
    if PrefixHolds(r.family, m.src, p.src) {
      if m.icmpType != [] || m.icmpCode != [] {
        assert m.srcPort == m.dstPort == [] && m.tcpFlags == [];
      }
    }
  }

  lemma HeaderPreserved(r: Rule, p: Packet)
    requires Translate(r).Ok?
    ensures !r.match_.HasUnmapped()
    ensures HeaderMatches(Translate(r).value, p) <==> HeaderCovers(Effective(r), p)
  {
    PrefixFields(r, p);
    ProtoField(r, p);
    if r.match_.icmpType != [] || r.match_.icmpCode != [] {
      IcmpFields(r, p);
    } else {
      PortFields(r, p);
    }
    FieldsMeanHeader(r, Translate(r).value, p);
  }

  /** Translation preserves meaning: the entry matches exactly the packets of the effective rule. */
  lemma TranslatePreserves(r: Rule, p: Packet)
    requires Translate(r).Ok?
    ensures !r.match_.HasUnmapped()
    ensures EntryMatches(Translate(r).value, p) <==> Covers(Effective(r), p)
  {
    HeaderPreserved(r, p);
    FlagFields(r);
    if HeaderCovers(Effective(r), p) {
      FlagsMeanComponent(r.match_, Translate(r).value, p);
    }
  }

  /** Every entry is a deny of the rule's own family. */
  lemma TranslateDenies(r: Rule)
    requires Translate(r).Ok?
    ensures DenyOf(r.family, Translate(r).value)
  {
  }

  /** A packet the prefixes admit, of protocol UDP. */
  function Probe(r: Rule): Packet
    requires Screen(r).None?
  {
    RawPacket(PrefixOrDefault(r.family, r.match_.src).addr, PrefixOrDefault(r.family, r.match_.dst).addr,
              UDP, 0, 0, 0, 0, {})
  }

  /** An accepted rule is translated equivalently if and only if its protocol list is not `= 0`. */
  lemma TranslateExactIff(r: Rule)
    requires Translate(r).Ok?
    ensures !r.match_.HasUnmapped()
    ensures (forall p: Packet :: EntryMatches(Translate(r).value, p) <==> Covers(r, p)) <==>
            !ProtoIsZero(r.match_)
  {
    if ProtoIsZero(r.match_) {
      var p := Probe(r);
      ExactField(r.match_.proto, p.proto);
      assert EntryMatches(Translate(r).value, p);
      assert !Covers(r, p);
    } else {
      forall p: Packet ensures EntryMatches(Translate(r).value, p) <==> Covers(r, p) {
        TranslatePreserves(r, p);
      }
    }
  }

  /** Rules that collapse to one entry cover the same packets. */
  lemma SameEntrySameMeaning(a: Rule, b: Rule, p: Packet)
    requires Translate(a).Ok? && Translate(b) == Translate(a)
    ensures !a.match_.HasUnmapped() && !b.match_.HasUnmapped()
    ensures Covers(Effective(a), p) <==> Covers(Effective(b), p)
  {
    TranslatePreserves(a, p);
    TranslatePreserves(b, p);
  }

  // ----- agreement with RFC 8955 -----

  /** One item agrees with section 4.2.1.1 of RFC 8955 exactly when it is a comparison. */
  lemma ItemAgreesIff(c: Comparison)
    ensures (forall v: nat :: c.Holds(v) <==> c.RfcHolds(v)) <==> c.IsComparison()
  {
    if !c.IsComparison() {
      assert c.Holds(0) != c.RfcHolds(0);
    }
  }

  /** The comparison whose reading by the agent is the RFC reading of `c`: "no bit set" and
      "every bit set" change places. */
  function FlipItem(c: Comparison): Comparison
  {
    if c.IsComparison() then c else Comparison(!c.lt, !c.gt, !c.eq, c.value)
  }

  function Flip(ops: seq<NumericOp>): (r: seq<NumericOp>)
    ensures |r| == |ops|
  {
    seq(|ops|, i requires 0 <= i < |ops| => Item(ops[i].and, FlipItem(ops[i].cond)))
  }

  function FlipTerm(t: seq<Comparison>): (r: seq<Comparison>)
    ensures |r| == |t|
  {
    seq(|t|, i requires 0 <= i < |t| => FlipItem(t[i]))
  }

  lemma {:induction false} FlipTerms(ops: seq<NumericOp>)
    ensures |Terms(Flip(ops))| == |Terms(ops)|
    ensures forall i | 0 <= i < |Terms(ops)| :: Terms(Flip(ops))[i] == FlipTerm(Terms(ops)[i])
  {
    if ops != [] {
      var init := ops[..|ops| - 1];
      FlipTerms(init);
      assert Flip(ops)[..|ops| - 1] == Flip(init);
      var ts := Terms(init);
      if |ops| > 1 && ops[|ops| - 1].and {
        assert FlipTerm(ts[|ts| - 1] + [ops[|ops| - 1].cond]) == FlipTerm(ts[|ts| - 1]) + [FlipItem(ops[|ops| - 1].cond)];
      } else {
        assert FlipTerm([ops[|ops| - 1].cond]) == [FlipItem(ops[|ops| - 1].cond)];
      }
    }
  }

  lemma FlipTermHolds(t: seq<Comparison>, v: nat)
    ensures (forall c | c in FlipTerm(t) :: c.Holds(v)) <==> (forall c | c in t :: c.RfcHolds(v))
  {
    if forall c | c in FlipTerm(t) :: c.Holds(v) {
      forall c | c in t ensures c.RfcHolds(v) {
        var i :| 0 <= i < |t| && t[i] == c;
        assert FlipTerm(t)[i] in FlipTerm(t);
      }
    }
    if forall c | c in t :: c.RfcHolds(v) {
      forall c | c in FlipTerm(t) ensures c.Holds(v) {
        var i :| 0 <= i < |t| && FlipTerm(t)[i] == c;
        assert t[i] in t;
      }
    }
  }

  /** The RFC reading of a list is the agent's reading of the flipped list. */
  lemma FlipMeaning(ops: seq<NumericOp>, v: nat)
    ensures NumericHolds(Flip(ops), v) <==> RfcNumericHolds(ops, v)
  {
    var ts, flipped := Terms(ops), Terms(Flip(ops));
    FlipTerms(ops);
    if t :| t in flipped && forall c | c in t :: c.Holds(v) {
      var i :| 0 <= i < |flipped| && flipped[i] == t;
      FlipTermHolds(ts[i], v);
      assert ts[i] in ts;
    }
    if t :| t in ts && forall c | c in t :: c.RfcHolds(v) {
      var i :| 0 <= i < |ts| && ts[i] == t;
      FlipTermHolds(t, v);
      assert flipped[i] in flipped;
    }
  }

  /** The list reduces to the same range however its bare items are read. */
  ghost predicate SameEitherWay(ops: seq<NumericOp>)
  {
    RangeOf(Flip(ops), PORT_MAX) == RangeOf(ops, PORT_MAX)
  }

  /** For a list that reduces to a range, that is agreement of the two readings on every port. */
  lemma SameEitherWayIff(ops: seq<NumericOp>)
    requires ops != [] && RangeOf(ops, PORT_MAX).Ok?
    ensures SameEitherWay(ops) <==> forall v: Port :: NumericHolds(ops, v) <==> RfcNumericHolds(ops, v)
  {
    var iv := RangeOf(ops, PORT_MAX).value;
    RangeOfMeaning(ops, PORT_MAX, iv);
    RangeOfMeaning(Flip(ops), PORT_MAX, iv);
    forall v: nat ensures NumericHolds(Flip(ops), v) <==> RfcNumericHolds(ops, v) {
      FlipMeaning(ops, v);
    }
    assert OperandsFit(Flip(ops), PORT_MAX) by {
      forall op | op in Flip(ops) ensures OperandFits(op.cond, PORT_MAX) {
        var i :| 0 <= i < |ops| && Flip(ops)[i] == op;
        assert ops[i] in ops;
      }
    }
  }

  /** The two readings of a rule, given those of its port lists. */
  lemma ReadingsByPorts(r: Rule, p: Packet)
    requires Translate(r).Ok? && !ProtoIsZero(r.match_)
    requires r.match_.srcPort != [] ==> (NumericHolds(r.match_.srcPort, p.srcPort) <==> RfcNumericHolds(r.match_.srcPort, p.srcPort))
    requires r.match_.dstPort != [] ==> (NumericHolds(r.match_.dstPort, p.dstPort) <==> RfcNumericHolds(r.match_.dstPort, p.dstPort))
    ensures !r.match_.HasUnmapped()
    ensures EntryMatches(Translate(r).value, p) <==> RfcCovers(r, p)
  {
    var m := r.match_;
    TranslatePreserves(r, p);
    if m.proto != [] { ExactField(m.proto, p.proto); }
    if m.icmpType != [] { ExactField(m.icmpType, p.icmpType); }
    if m.icmpCode != [] { ExactField(m.icmpCode, p.icmpCode); }
  }

  /** A packet of an entry with port ranges, with ports of one's choice. */
  function PortProbe(acl: ACLRule, srcPort: Port, dstPort: Port): RawPacket
  {
    RawPacket(acl.src.addr, acl.dst.addr, acl.proto, srcPort, dstPort, 0, 0, acl.tcpValue)
  }

  predicate HasPortList(m: Match) { m.srcPort != [] || m.dstPort != [] }

  /** What a rule with a port list becomes. */
  lemma PortEntry(r: Rule)
    requires Translate(r).Ok? && HasPortList(r.match_)
    ensures var acl, m := Translate(r).value, r.match_;
            && !ProtoIsZero(m) && m.icmpType == m.icmpCode == []
            && (acl.proto == TCP || acl.proto == UDP)
            && acl.src.addr.family == acl.dst.addr.family == r.family
            && RangeOf(m.srcPort, PORT_MAX) == Ok(Interval(acl.srcFirst, acl.srcLast))
            && RangeOf(m.dstPort, PORT_MAX) == Ok(Interval(acl.dstFirst, acl.dstLast))
            && acl.srcFirst <= acl.srcLast && acl.dstFirst <= acl.dstLast
  {
    RangeFits(r.match_.srcPort);
    RangeFits(r.match_.dstPort);
  }

  /** Such a packet matches the entry exactly when its ports lie in the ranges. */
  lemma PortProbeMatches(r: Rule, srcPort: Port, dstPort: Port)
    requires Translate(r).Ok? && HasPortList(r.match_)
    ensures var acl := Translate(r).value;
            && PortProbe(acl, srcPort, dstPort).src.family == PortProbe(acl, srcPort, dstPort).dst.family
            && (EntryMatches(acl, PortProbe(acl, srcPort, dstPort)) <==>
                acl.srcFirst <= srcPort <= acl.srcLast && acl.dstFirst <= dstPort <= acl.dstLast)
  {
    PortEntry(r);
    FlagFields(r);
    if r.match_.tcpFlags != [] {
      FoldItemsMeaning(r.match_.tcpFlags, {});
    }
  }

  /** If the entry and the RFC reading agree on every packet, the port lists read alike. */
  lemma AgreeingPorts(r: Rule, v: Port)
    requires Translate(r).Ok? && HasPortList(r.match_) && !r.match_.HasUnmapped()
    requires forall p: Packet :: EntryMatches(Translate(r).value, p) <==> RfcCovers(r, p)
    ensures r.match_.srcPort != [] ==> (NumericHolds(r.match_.srcPort, v) <==> RfcNumericHolds(r.match_.srcPort, v))
    ensures r.match_.dstPort != [] ==> (NumericHolds(r.match_.dstPort, v) <==> RfcNumericHolds(r.match_.dstPort, v))
  {
    var acl, m := Translate(r).value, r.match_;
    PortEntry(r);
    PortField(m.srcPort, v);
    PortField(m.dstPort, v);
    PortProbeMatches(r, acl.srcFirst, acl.dstFirst);
    PortProbeMatches(r, v, acl.dstFirst);
    PortProbeMatches(r, acl.srcFirst, v);
    var low: Packet := PortProbe(acl, acl.srcFirst, acl.dstFirst);
    var bySrc: Packet := PortProbe(acl, v, acl.dstFirst);
    var byDst: Packet := PortProbe(acl, acl.srcFirst, v);
    assert EntryMatches(acl, low) && RfcCovers(r, low);
    assert EntryMatches(acl, bySrc) <==> RfcCovers(r, bySrc);
    assert EntryMatches(acl, byDst) <==> RfcCovers(r, byDst);
  }

  lemma ZeroNeverAgrees(r: Rule)
    requires Translate(r).Ok? && ProtoIsZero(r.match_)
    ensures !r.match_.HasUnmapped()
    ensures EntryMatches(Translate(r).value, Probe(r)) && !RfcCovers(r, Probe(r))
  {
    ExactField(r.match_.proto, Probe(r).proto);
  }

  lemma AgreesOnlyIf(r: Rule)
    requires Translate(r).Ok? && !r.match_.HasUnmapped()
    requires forall p: Packet :: EntryMatches(Translate(r).value, p) <==> RfcCovers(r, p)
    ensures !ProtoIsZero(r.match_) && SameEitherWay(r.match_.srcPort) && SameEitherWay(r.match_.dstPort)
  {
    var m := r.match_;
    assert Flip([]) == [];
    if ProtoIsZero(m) {
      ZeroNeverAgrees(r);
    } else if HasPortList(m) {
      PortEntry(r);
      forall v: Port
        ensures m.srcPort != [] ==> (NumericHolds(m.srcPort, v) <==> RfcNumericHolds(m.srcPort, v))
        ensures m.dstPort != [] ==> (NumericHolds(m.dstPort, v) <==> RfcNumericHolds(m.dstPort, v))
      {
        AgreeingPorts(r, v);
      }
      if m.srcPort != [] { SameEitherWayIff(m.srcPort); }
      if m.dstPort != [] { SameEitherWayIff(m.dstPort); }
    }
  }

  /** An accepted rule means what RFC 8955 says if and only if its protocol list is not `= 0`
      and each port list reduces to the same range with its bare items read the other way. */
  lemma TranslateAgreesWithRfcIff(r: Rule)
    requires Translate(r).Ok?
    ensures !r.match_.HasUnmapped()
    ensures (forall p: Packet :: EntryMatches(Translate(r).value, p) <==> RfcCovers(r, p)) <==>
            !ProtoIsZero(r.match_) && SameEitherWay(r.match_.srcPort) && SameEitherWay(r.match_.dstPort)
  {
    var m := r.match_;
    if !ProtoIsZero(m) && SameEitherWay(m.srcPort) && SameEitherWay(m.dstPort) {
      if HasPortList(m) {
        PortEntry(r);
      }
      if m.srcPort != [] { SameEitherWayIff(m.srcPort); }
      if m.dstPort != [] { SameEitherWayIff(m.dstPort); }
      forall p: Packet ensures EntryMatches(Translate(r).value, p) <==> RfcCovers(r, p) {
        ReadingsByPorts(r, p);
      }
    }
    if forall p: Packet :: EntryMatches(Translate(r).value, p) <==> RfcCovers(r, p) {
      AgreesOnlyIf(r);
    }
  }

  predicate OnlyComparisons(ops: seq<NumericOp>) { forall op | op in ops :: op.cond.IsComparison() }

  /** Lists of comparisons alone always qualify; so do others, as the next lemma shows. */
  lemma ComparisonsSameEitherWay(ops: seq<NumericOp>)
    requires OnlyComparisons(ops)
    ensures SameEitherWay(ops)
  {
    assert forall i | 0 <= i < |ops| :: ops[i] in ops && Flip(ops)[i] == ops[i];
    assert Flip(ops) == ops;
  }

  /** "true or false" is everything under both readings. */
  lemma MixedSameEitherWay()
    ensures var ops := [Item(false, Comparison(false, false, false, 0)), Item(false, Comparison(true, true, true, 0))];
            RangeOf(ops, PORT_MAX).Ok? && SameEitherWay(ops) && !OnlyComparisons(ops)
  {
    var none, all := Comparison(false, false, false, 0), Comparison(true, true, true, 0);
    var ops := [Item(false, none), Item(false, all)];
    EverythingRange(ops, none);
    EverythingRange(Flip(ops), none);
    assert ops[0].cond == none;
  }

  /** A list with a one-item term that is always true takes the whole range. */
  lemma EverythingRange(ops: seq<NumericOp>, c: Comparison)
    requires c == Comparison(false, false, false, 0) && |ops| == 2 && !ops[1].and
    requires ops[0].cond == c || ops[1].cond == c
    requires forall op | op in ops :: !op.cond.IsComparison()
    ensures RangeOf(ops, PORT_MAX) == Ok(Interval(0, PORT_MAX))
  {
    OneTerm(ops[..1]);
    assert ops[..|ops| - 1] == ops[..1];
    assert Terms(ops) == [[ops[0].cond], [ops[1].cond]];
    forall v: nat ensures NumericHolds(ops, v) {
      var t := [c];
      assert t == Terms(ops)[0] || t == Terms(ops)[1];
      assert t in Terms(ops);
    }
    assert IsExactly(ops, PORT_MAX, Interval(0, PORT_MAX));
    RangeOfMeaning(ops, PORT_MAX, Interval(0, PORT_MAX));
  }

  const EMPTY_MATCH := Match(None, None, [], [], [], [], [], [], [], false, false, false, false, false, false)

  /** UDP with a destination-port item that has no comparison bit set. */
  const BARE_PORT_RULE := Rule(IPv4,
      EMPTY_MATCH.(proto := [Item(false, Comparison(false, false, true, 17))],
                   dstPort := [Item(false, Comparison(false, false, false, 0))]),
      Drop, "")

  /** Outside that condition, concretely: the bare item opens every port, while
      section 4.2.1.1 of RFC 8955 lets it match none. */
  lemma BareItemDisagrees(p: Packet)
    requires p == RawPacket(RawAddr(IPv4, 0), RawAddr(IPv4, 0), UDP, 0, 0, 0, 0, {})
    ensures !BARE_PORT_RULE.match_.HasUnmapped()
    ensures Translate(BARE_PORT_RULE).Ok?
    ensures EntryMatches(Translate(BARE_PORT_RULE).value, p) && !RfcCovers(BARE_PORT_RULE, p)
  {
    var m := BARE_PORT_RULE.match_;
    var iv := Interval(0, PORT_MAX);
    forall v: nat ensures NumericHolds(m.dstPort, v) {
      SingleHolds(m.dstPort, v);
    }
    assert IsExactly(m.dstPort, PORT_MAX, iv);
    RangeOfMeaning(m.dstPort, PORT_MAX, iv);
    SingleHolds(m.dstPort, p.dstPort);
    SingleHolds(m.proto, p.proto);
    TranslatePreserves(BARE_PORT_RULE, p);
    DefaultContains(IPv4, p.src);
  }
}
