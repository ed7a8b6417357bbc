/**
  A detection rule reduces a matched sample to a descriptor, its identity, and emits a FlowSpec
  drop built from that descriptor. The drop covers a matched sample exactly when that sample
  has the same descriptor, wherever FlowSpec can express the descriptor at all.
 */
module Detector {
  import opened Arith
  import opened FlowSpec
  import opened Intervals
  import opened TcpFlags
  import opened Acl
  import T = Translate

  datatype RawSample = RawSample(
    family: Family, src: Addr, dst: Addr, proto: Byte, srcPort: Port, dstPort: Port,
    packetLen: Port, tcpFlags: Octet, icmpType: Byte, icmpCode: Byte)

  type Sample = s: RawSample | s.src.family == s.family && s.dst.family == s.family
    witness RawSample(IPv4, RawAddr(IPv4, 0), RawAddr(IPv4, 0), 0, 0, 0, 0, {}, 0, 0)

  function PacketOf(s: Sample): Packet
  {
    RawPacket(s.src, s.dst, s.proto, s.srcPort, s.dstPort, s.icmpType, s.icmpCode, s.tcpFlags)
  }

  // ----- compiled rules -----

  datatype PortAgg = ExactPort | AllPorts | PortRange(lo: Port, hi: Port) | PortBucket(step: nat)
  {
    predicate Valid() { (PortRange? ==> lo <= hi) && (PortBucket? ==> step > 0) }

    /** The aggregated range of a port. */
    function Reduce(port: Port): Interval
      requires Valid()
    {
      match this
      case AllPorts => Interval(0, 65535)
      case PortRange(lo, hi) => Interval(lo, hi)
      case PortBucket(step) =>
        var base := (port / step) * step;
        var end := base + step - 1;
        Interval(base, if end > 65535 then 65535 else end)
      case ExactPort => Interval(port, port)
    }

    /** A fixed range is copied without checking that the port lies in it. */
    predicate InRange(port: Port) { PortRange? ==> lo <= port <= hi }
  }

  /** Bounds on the packet length; zero means no bound. */
  datatype LengthFilter = LengthFilter(lt: nat, lte: nat, gt: nat, gte: nat)

  /** Emitted fields replaced by "any". All false is the default emission. */
  datatype Wildcards = Wildcards(proto: bool, src: bool, dst: bool, srcPort: bool, dstPort: bool,
                                 icmpType: bool, icmpCode: bool, tcpFlags: bool)
  {
    predicate None() { !proto && !src && !dst && !srcPort && !dstPort && !icmpType && !icmpCode && !tcpFlags }
  }

  datatype DetectorRule = DetectorRule(
    family: Option<Family>, protos: seq<Byte>, srcFilter: Option<Prefix>, dstFilter: Option<Prefix>,
    srcPorts: seq<Port>, dstPorts: seq<Port>, length: LengthFilter,
    tcpCare: Octet, tcpWant: Octet, icmpTypes: seq<Byte>, icmpCodes: seq<Byte>,
    protoWild: bool, srcMask: int, dstMask: int, srcPortAgg: PortAgg, dstPortAgg: PortAgg,
    icmpTypeAll: bool, icmpCodeAll: bool, wild: Wildcards)
  {
    /** What compilation guarantees. */
    predicate Compiled()
    {
      && srcPortAgg.Valid() && dstPortAgg.Valid()
      && tcpWant <= tcpCare
      && (tcpCare != {} ==> protos != [] && forall p | p in protos :: p == TCP)
      && (protoWild ==> srcPortAgg.AllPorts? && dstPortAgg.AllPorts?)
    }
  }

  predicate IsIcmp(proto: Byte) { proto == ICMP || proto == ICMPV6 }

  predicate HasPorts(proto: Byte) { proto == TCP || proto == UDP }

  predicate LengthOk(f: LengthFilter, len: nat)
  {
    && (f.lt != 0 ==> len < f.lt) && (f.lte != 0 ==> len <= f.lte)
    && (f.gt != 0 ==> len > f.gt) && (f.gte != 0 ==> len >= f.gte)
  }

  predicate Matches(r: DetectorRule, s: Sample)
  {
    && (r.family.Some? ==> s.family == r.family.value)
    && (r.protos != [] ==> s.proto in r.protos)
    && (r.srcFilter.Some? ==> Contains(r.srcFilter.value, s.src))
    && (r.dstFilter.Some? ==> Contains(r.dstFilter.value, s.dst))
    && (r.srcPorts != [] ==> s.srcPort in r.srcPorts)
    && (r.dstPorts != [] ==> s.dstPort in r.dstPorts)
    && (r.tcpCare != {} ==> s.tcpFlags * r.tcpCare == r.tcpWant)
    && (r.icmpTypes != [] || r.icmpCodes != [] ==> IsIcmp(s.proto))
    && (r.icmpTypes != [] ==> s.icmpType in r.icmpTypes)
    && (r.icmpCodes != [] ==> s.icmpCode in r.icmpCodes)
    && LengthOk(r.length, s.packetLen)
  }

  // ----- descriptors -----

  /** The prefix length a mask setting means for a family: out of range is the full host. */
  function MaskLen(f: Family, bits: int): (len: nat)
    ensures len <= Width(f)
  {
    if bits < 0 || bits > Width(f) then Width(f) else bits
  }

  /** A number with everything below a power of two cleared. */
  function ClearLow(v: nat, d: nat): (r: nat)
    requires d > 0
    ensures r <= v
  {
    (v / d) * d
  }

  function MaskAddr(a: Addr, bits: int): Addr
  {
    var d := Pow2(Width(a.family) - MaskLen(a.family, bits));
    RawAddr(a.family, ClearLow(a.value, d))
  }

  /** The fields of an instance's identity, for some form of addresses. `None` for a type or
      code means "not applicable or wildcarded". */
  datatype Described<A> = Descriptor(
    family: Family, proto: Option<Byte>, src: A, dst: A, srcPorts: Interval, dstPorts: Interval,
    icmpType: Option<Byte>, icmpCode: Option<Byte>)

  type Descriptor = Described<Addr>

  function DescriptorFor(r: DetectorRule, s: Sample): Descriptor
    requires r.Compiled()
  {
    var ports := !r.protoWild && HasPorts(s.proto);
    var icmp := !r.protoWild && IsIcmp(s.proto);
    Descriptor(s.family, if r.protoWild then None else Some(s.proto),
               MaskAddr(s.src, r.srcMask), MaskAddr(s.dst, r.dstMask),
               if ports then r.srcPortAgg.Reduce(s.srcPort) else Interval(0, 65535),
               if ports then r.dstPortAgg.Reduce(s.dstPort) else Interval(0, 65535),
               if icmp && !r.icmpTypeAll then Some(s.icmpType) else None,
               if icmp && !r.icmpCodeAll then Some(s.icmpCode) else None)
  }

  // ----- emission -----

  function Equals(v: nat): NumericOp { Item(false, Comparison(false, false, true, v)) }

  function PortRangeOps(iv: Interval): seq<NumericOp>
  {
    if iv.lo == iv.hi then [Equals(iv.lo)]
    else [Item(false, Comparison(false, true, true, iv.lo)), Item(true, Comparison(true, false, true, iv.hi))]
  }

  function EmitPort(iv: Interval): seq<NumericOp>
  {
    if iv.lo == 0 && iv.hi == 65535 then [] else PortRangeOps(iv)
  }

  function EmitPrefix(a: Addr, bits: int): Option<PrefixMatch>
  {
    if bits == 0 then None else Some(PrefixMatch(RawPrefix(a, MaskLen(a.family, bits)), 0))
  }

  function EmitExact(v: Option<Byte>): seq<NumericOp> { if v.Some? then [Equals(v.value)] else [] }

  /** "flags & care == want" as one item for the set bits and one for the clear bits. */
  function TcpFlagOps(care: Octet, want: Octet): seq<BitmaskOp>
  {
    var set_ := if want != {} then [Item(false, BitTest(false, true, want))] else [];
    var clear := care - want;
    set_ + (if clear != {} then [Item(set_ != [], BitTest(true, false, clear))] else [])
  }

  function BuildMatch(r: DetectorRule, d: Descriptor): Match
  {
    T.EMPTY_MATCH.(
      proto := if r.wild.proto then [] else EmitExact(d.proto),
      src := if r.wild.src then None else EmitPrefix(d.src, r.srcMask),
      dst := if r.wild.dst then None else EmitPrefix(d.dst, r.dstMask),
      srcPort := if r.wild.srcPort then [] else EmitPort(d.srcPorts),
      dstPort := if r.wild.dstPort then [] else EmitPort(d.dstPorts),
      tcpFlags := if r.wild.tcpFlags || r.tcpCare == {} then [] else TcpFlagOps(r.tcpCare, r.tcpWant),
      icmpType := if r.wild.icmpType then [] else EmitExact(d.icmpType),
      icmpCode := if r.wild.icmpCode then [] else EmitExact(d.icmpCode))
  }

  function BuildFlowSpec(r: DetectorRule, d: Descriptor, raw: string): (rule: Rule)
    ensures !rule.match_.HasUnmapped()
  {
    Rule(d.family, BuildMatch(r, d), Drop, raw)
  }

  // ----- what FlowSpec can express -----

  /** A fixed port range must contain the sample's own port. */
  predicate PortsInRange(r: DetectorRule, s: Sample)
  {
    !r.protoWild && HasPorts(s.proto) ==> r.srcPortAgg.InRange(s.srcPort) && r.dstPortAgg.InRange(s.dstPort)
  }

  /** A type or code can only be named for the family's own ICMP protocol. */
  predicate IcmpFits(r: DetectorRule, s: Sample)
  {
    !r.protoWild && IsIcmp(s.proto) && !(r.icmpTypeAll && r.icmpCodeAll) ==> s.proto == IcmpProto(s.family)
  }

  // ----- field by field -----

  lemma ClearLowMeaning(v: nat, w: nat, d: nat)
    requires d > 0
    ensures ClearLow(v, d) / d == v / d
    ensures ClearLow(v, d) == ClearLow(w, d) <==> v / d == w / d
  {
    QuotientIs((v / d) * d, d, v / d);
    QuotientIs((w / d) * d, d, w / d);
  }

  lemma LeadingOfMasked(a: Addr, bits: int)
    ensures Leading(MaskAddr(a, bits), MaskLen(a.family, bits)) == Leading(a, MaskLen(a.family, bits))
  {
    var d := Pow2(Width(a.family) - MaskLen(a.family, bits));
    ClearLowMeaning(a.value, a.value, d);
  }

  lemma MaskedEqual(a: Addr, b: Addr, bits: int)
    requires a.family == b.family
    ensures MaskAddr(a, bits) == MaskAddr(b, bits) <==>
            Leading(a, MaskLen(a.family, bits)) == Leading(b, MaskLen(a.family, bits))
  {
    ClearLowMeaning(a.value, b.value, Pow2(Width(a.family) - MaskLen(a.family, bits)));
  }

  /** The emitted prefix holds of an address exactly when it masks to the same address. */
  lemma PrefixAligned(a: Addr, b: Addr, bits: int)
    ensures PrefixHolds(a.family, EmitPrefix(MaskAddr(a, bits), bits), b) <==>
            b.family == a.family && MaskAddr(a, bits) == MaskAddr(b, bits)
    ensures PrefixHolds(a.family, EmitPrefix(MaskAddr(a, bits), bits), b) <==> b.family == a.family && SameAbove(a, b, bits)
  {
    if b.family == a.family {
      SameAboveIff(a, b, bits);
      MaskedEqual(a, b, bits);
      if bits == 0 {
        LeadingBound(a, 0);
        LeadingBound(b, 0);
      } else {
        LeadingOfMasked(a, bits);
        OffsetZero(RawPrefix(MaskAddr(a, bits), MaskLen(a.family, bits)), b);
      }
    }
  }

  lemma EqualsHolds(v: nat, x: nat)
    ensures NumericHolds([Equals(v)], x) <==> x == v
  {
    SingleHolds([Equals(v)], x);
  }

  /** The port list of a range means the range. */
  lemma PortOpsHold(iv: Interval, x: nat)
    requires iv.lo <= iv.hi
    ensures NumericHolds(PortRangeOps(iv), x) <==> iv.lo <= x <= iv.hi
  {
    var ops := PortRangeOps(iv);
    if iv.lo == iv.hi {
      EqualsHolds(iv.lo, x);
    } else {
      AndListIsOneTerm(ops);
      var t := Terms(ops)[0];
      assert Terms(ops) == [t] && t == [ops[0].cond, ops[1].cond];
      assert t in Terms(ops) && ops[0].cond in t && ops[1].cond in t;
    }
  }

  lemma PortOpsRange(iv: Interval)
    requires iv.lo <= iv.hi <= T.PORT_MAX
    ensures RangeOf(PortRangeOps(iv), T.PORT_MAX) == Ok(iv)
  {
    forall v: nat | v <= T.PORT_MAX ensures NumericHolds(PortRangeOps(iv), v) <==> iv.lo <= v <= iv.hi {
      PortOpsHold(iv, v);
    }
    assert OperandsFit(PortRangeOps(iv), T.PORT_MAX);
    RangeOfMeaning(PortRangeOps(iv), T.PORT_MAX, iv);
  }

  lemma ReduceBounds(agg: PortAgg, p: Port)
    requires agg.Valid()
    ensures agg.Reduce(p).lo <= agg.Reduce(p).hi <= 65535
    ensures agg.InRange(p) ==> agg.Reduce(p).lo <= p <= agg.Reduce(p).hi
  {
    if agg.PortBucket? {
      BucketBounds(p, agg.step);
    }
  }

  lemma BucketBounds(p: nat, step: nat)
    requires step > 0
    ensures (p / step) * step <= p <= (p / step) * step + step - 1
  {
  }

  lemma BucketSame(p: nat, q: nat, step: nat)
    requires step > 0
    ensures (p / step) * step <= q <= (p / step) * step + step - 1 <==> (p / step) * step == (q / step) * step
  {
    BucketBounds(q, step);
    var b := p / step;
    if b * step <= q <= b * step + step - 1 {
      assert (b + 1) * step == b * step + step;
      QuotientIs(q, step, b);
    }
  }

  /** The emitted port list holds of a port exactly when it has the same aggregate and, for a
      fixed range, lies in it. */
  lemma PortAligned(agg: PortAgg, p: Port, q: Port)
    requires agg.Valid()
    ensures (EmitPort(agg.Reduce(p)) != [] ==> NumericHolds(EmitPort(agg.Reduce(p)), q)) <==>
            agg.Reduce(p) == agg.Reduce(q) && agg.InRange(q)
  {
    var iv := agg.Reduce(p);
    ReduceBounds(agg, p);
    ReduceBounds(agg, q);
    PortOpsHold(iv, q);
    if agg.PortBucket? {
      BucketSame(p, q, agg.step);
    }
  }

  // ----- what a descriptor tells apart -----

  /** Two addresses of a family are one to a mask: equal above it, or equal at all where the mask
      is out of range. */
  predicate SameAbove(a: Addr, b: Addr, bits: int)
  {
    if bits < 0 || bits > Width(a.family) then a.value == b.value
    else a.value / Pow2(Width(a.family) - bits) == b.value / Pow2(Width(a.family) - bits)
  }

  predicate SamePort(agg: PortAgg, p: Port, q: Port)
    requires agg.Valid()
  {
    && (agg.ExactPort? ==> p == q)
    && (agg.PortBucket? ==> p / agg.step == q / agg.step)
  }

  /** Field by field, what makes two samples one to a rule: ports count for TCP (6) and UDP (17),
      types and codes for ICMP (1) and ICMPv6 (58), and none of these once protocols collapse. */
  predicate OneInstance(r: DetectorRule, s: Sample, s': Sample)
    requires r.Compiled()
  {
    && s.family == s'.family
    && SameAbove(s.src, s'.src, r.srcMask) && SameAbove(s.dst, s'.dst, r.dstMask)
    && (!r.protoWild ==>
          && s.proto == s'.proto
          && (s.proto == 6 || s.proto == 17 ==> SamePort(r.srcPortAgg, s.srcPort, s'.srcPort) && SamePort(r.dstPortAgg, s.dstPort, s'.dstPort))
          && (s.proto == 1 || s.proto == 58 ==> (r.icmpTypeAll || s.icmpType == s'.icmpType) && (r.icmpCodeAll || s.icmpCode == s'.icmpCode)))
  }

  lemma SameAboveIff(a: Addr, b: Addr, bits: int)
    requires a.family == b.family
    ensures MaskAddr(a, bits) == MaskAddr(b, bits) <==> SameAbove(a, b, bits)
  {
    ClearLowMeaning(a.value, b.value, Pow2(Width(a.family) - MaskLen(a.family, bits)));
    assert Pow2(0) == 1;
  }

  lemma SamePortIff(agg: PortAgg, p: Port, q: Port)
    requires agg.Valid()
    ensures agg.Reduce(p) == agg.Reduce(q) <==> SamePort(agg, p, q)
  {
    if agg.PortBucket? {
      ClearLowMeaning(p, q, agg.step);
    }
  }

  /** A descriptor is the identity the rule's aggregates ask for: samples share one exactly when
      they are one to the rule. */
  lemma SameDescriptorIff(r: DetectorRule, s: Sample, s': Sample)
    requires r.Compiled()
    ensures DescriptorFor(r, s) == DescriptorFor(r, s') <==> OneInstance(r, s, s')
  {
    if s.family == s'.family {
      SameAboveIff(s.src, s'.src, r.srcMask);
      SameAboveIff(s.dst, s'.dst, r.dstMask);
    }
    SamePortIff(r.srcPortAgg, s.srcPort, s'.srcPort);
    SamePortIff(r.dstPortAgg, s.dstPort, s'.dstPort);
  }

  lemma FlagOpsHold(care: Octet, want: Octet, flags: Octet)
    requires want <= care && care != {}
    ensures TcpFlagOps(care, want) != [] && FlagsOf(TcpFlagOps(care, want)).Ok?
    ensures BitmaskHolds(TcpFlagOps(care, want), flags) <==> flags * care == want
  {
    var ops := TcpFlagOps(care, want);
    var clear := care - want;
    assert want + clear == care && want * clear == {};
    FlagOpsFold(care, want);
    FlagsOfMeaning(ops, flags);
  }

  lemma FlagOpsFold(care: Octet, want: Octet)
    requires want <= care && care != {}
    ensures TcpFlagOps(care, want) != [] && FoldItems(TcpFlagOps(care, want)) == Some(Bits(want, care - want))
  {
    var ops := TcpFlagOps(care, want);
    var clear := care - want;
    var none: Octet := {};
    assert want + clear == care && none + want == want && none + clear == clear;
    assert want * none == {} && none * clear == {} && want * clear == {};
    assert FoldItems([]) == Some(Bits({}, {}));
    if want == {} {
      assert ops == [Item(false, BitTest(true, false, clear))] && ops[..0] == [];
    } else {
      var first := [Item(false, BitTest(false, true, want))];
      assert first[..0] == [];
      assert FoldItems(first) == Some(Bits(want, {}));
      if clear == {} {
        assert ops == first;
      } else {
        assert ops[..1] == first;
      }
    }
  }

  // ----- what a rule matches, in FlowSpec's terms -----

  /** Any of the numbers. */
  function AnyOf(vs: seq<nat>): (ops: seq<NumericOp>)
    ensures |ops| == |vs|
  {
    if vs == [] then [] else AnyOf(vs[..|vs| - 1]) + [Equals(vs[|vs| - 1])]
  }

  lemma {:induction false} AnyOfTerms(vs: seq<nat>)
    ensures |Terms(AnyOf(vs))| == |vs| && forall i | 0 <= i < |vs| :: Terms(AnyOf(vs))[i] == [Equals(vs[i]).cond]
  {
    if vs != [] {
      var init := vs[..|vs| - 1];
      AnyOfTerms(init);
      assert AnyOf(vs)[..|vs| - 1] == AnyOf(init);
    }
  }

  lemma AnyOfHolds(vs: seq<nat>, x: nat)
    ensures NumericHolds(AnyOf(vs), x) <==> x in vs
  {
    AnyOfTerms(vs);
    var ts: seq<seq<Comparison>> := Terms(AnyOf(vs));
    if x in vs {
      var i :| 0 <= i < |vs| && vs[i] == x;
      assert ts[i] in ts;
      assert forall c: Comparison | c in ts[i] :: c.Holds(x);
    }
    if t :| t in ts && forall c: Comparison | c in t :: c.Holds(x) {
      var i :| 0 <= i < |ts| && ts[i] == t;
      assert Equals(vs[i]).cond in t;
    }
  }

  function Filter(p: Option<Prefix>): Option<PrefixMatch> { if p.Some? then Some(PrefixMatch(p.value, 0)) else None }

  /** The FlowSpec rule made of a rule's filters, for one family. */
  function FilterRule(r: DetectorRule, f: Family): (rule: Rule)
    ensures !rule.match_.HasUnmapped()
  {
    Rule(f, T.EMPTY_MATCH.(
        proto := AnyOf(r.protos), src := Filter(r.srcFilter), dst := Filter(r.dstFilter),
        srcPort := AnyOf(r.srcPorts), dstPort := AnyOf(r.dstPorts),
        tcpFlags := if r.tcpCare == {} then [] else TcpFlagOps(r.tcpCare, r.tcpWant),
        icmpType := AnyOf(r.icmpTypes), icmpCode := AnyOf(r.icmpCodes)), Drop, "")
  }

  /** The sample is one whose filtered fields FlowSpec would look at: ports of TCP or UDP, types
      and codes of the family's own ICMP. */
  predicate FieldsCarried(r: DetectorRule, s: Sample)
  {
    && (r.srcPorts != [] || r.dstPorts != [] ==> s.proto == 6 || s.proto == 17)
    && (r.icmpTypes != [] || r.icmpCodes != [] ==> s.proto == if s.family.IPv6? then 58 else 1)
  }

  /** Bounds of zero are no bounds. */
  predicate LengthWithin(f: LengthFilter, len: nat)
  {
    && Max(if f.gt == 0 then 0 else f.gt + 1, f.gte) <= len
    && (f.lt == 0 || len <= f.lt - 1) && (f.lte == 0 || len <= f.lte)
  }

  lemma FilterHolds(p: Option<Prefix>, f: Family, a: Addr)
    requires a.family == f
    ensures PrefixHolds(f, Filter(p), a) <==> (p.Some? ==> Contains(p.value, a))
  {
    if p.Some? {
      OffsetZero(p.value, a);
    }
  }

  /** A rule matches a sample that carries the filtered fields exactly when the FlowSpec rule made
      of its filters covers the packet, the family is the rule's and the length is in bounds. */
  lemma MatchesIff(r: DetectorRule, s: Sample)
    requires r.Compiled()
    ensures Matches(r, s) && FieldsCarried(r, s) <==>
            && Covers(FilterRule(r, s.family), PacketOf(s))
            && (r.family.Some? ==> r.family.value == s.family) && LengthWithin(r.length, s.packetLen)
  {
    var rule, p := FilterRule(r, s.family), PacketOf(s);
    FilterLists(r, s);
    FilterHolds(r.srcFilter, s.family, s.src);
    FilterHolds(r.dstFilter, s.family, s.dst);
    FilterFlags(r, s);
    LengthIff(r.length, s.packetLen);
    assert HeaderCovers(rule, p) && FlagsCover(rule.match_, p) <==> Covers(rule, p);
  }

  lemma LengthIff(f: LengthFilter, len: nat)
    ensures LengthOk(f, len) <==> LengthWithin(f, len)
  {
  }

  lemma FilterFlags(r: DetectorRule, s: Sample)
    requires r.Compiled()
    ensures var m := FilterRule(r, s.family).match_;
            && (r.tcpCare == {} <==> m.tcpFlags == [])
            && (FlagsCover(m, PacketOf(s)) <==> (r.tcpCare != {} ==> s.tcpFlags * r.tcpCare == r.tcpWant))
            && (r.tcpCare != {} && s.proto in r.protos ==> s.proto == TCP)
  {
    if r.tcpCare != {} {
      FlagOpsHold(r.tcpCare, r.tcpWant, s.tcpFlags);
    }
  }

  /** Each list of the filter rule holds of the packet exactly when its filter admits the sample. */
  lemma FilterLists(r: DetectorRule, s: Sample)
    ensures var m, p := FilterRule(r, s.family).match_, PacketOf(s);
            && ((m.proto != [] ==> NumericHolds(m.proto, p.proto)) <==> (r.protos != [] ==> s.proto in r.protos))
            && ((m.srcPort != [] ==> CarriesPorts(p) && NumericHolds(m.srcPort, p.srcPort)) <==>
                (r.srcPorts != [] ==> (s.proto == 6 || s.proto == 17) && s.srcPort in r.srcPorts))
            && ((m.dstPort != [] ==> CarriesPorts(p) && NumericHolds(m.dstPort, p.dstPort)) <==>
                (r.dstPorts != [] ==> (s.proto == 6 || s.proto == 17) && s.dstPort in r.dstPorts))
            && ((m.icmpType != [] ==> CarriesIcmp(p) && NumericHolds(m.icmpType, p.icmpType)) <==>
                (r.icmpTypes != [] ==> s.proto == (if s.family.IPv6? then 58 else 1) && s.icmpType in r.icmpTypes))
            && ((m.icmpCode != [] ==> CarriesIcmp(p) && NumericHolds(m.icmpCode, p.icmpCode)) <==>
                (r.icmpCodes != [] ==> s.proto == (if s.family.IPv6? then 58 else 1) && s.icmpCode in r.icmpCodes))
  {
    AnyOfHolds(r.protos, s.proto);
    AnyOfHolds(r.srcPorts, s.srcPort);
    AnyOfHolds(r.dstPorts, s.dstPort);
    AnyOfHolds(r.icmpTypes, s.icmpType);
    AnyOfHolds(r.icmpCodes, s.icmpCode);
  }

  // ----- what a drop names -----

  predicate NamesProto(r: DetectorRule) { !r.wild.proto && !r.protoWild }

  predicate NamesSrcPort(r: DetectorRule, s: Sample)
    requires r.Compiled()
  {
    !r.wild.srcPort && !r.protoWild && HasPorts(s.proto) && r.srcPortAgg.Reduce(s.srcPort) != Interval(0, 65535)
  }

  predicate NamesDstPort(r: DetectorRule, s: Sample)
    requires r.Compiled()
  {
    !r.wild.dstPort && !r.protoWild && HasPorts(s.proto) && r.dstPortAgg.Reduce(s.dstPort) != Interval(0, 65535)
  }

  predicate NamesIcmpType(r: DetectorRule, s: Sample)
  {
    !r.wild.icmpType && !r.protoWild && IsIcmp(s.proto) && !r.icmpTypeAll
  }

  predicate NamesIcmpCode(r: DetectorRule, s: Sample)
  {
    !r.wild.icmpCode && !r.protoWild && IsIcmp(s.proto) && !r.icmpCodeAll
  }

  predicate NamesFlags(r: DetectorRule) { !r.wild.tcpFlags && r.tcpCare != {} }

  predicate AgreesSrc(r: DetectorRule, s: Sample, s': Sample)
  {
    s'.family == s.family && (!r.wild.src ==> MaskAddr(s.src, r.srcMask) == MaskAddr(s'.src, r.srcMask))
  }

  predicate AgreesDst(r: DetectorRule, s: Sample, s': Sample)
  {
    s'.family == s.family && (!r.wild.dst ==> MaskAddr(s.dst, r.dstMask) == MaskAddr(s'.dst, r.dstMask))
  }

  predicate AgreesProto(r: DetectorRule, s: Sample, s': Sample) { NamesProto(r) ==> s'.proto == s.proto }

  predicate AgreesSrcPort(r: DetectorRule, s: Sample, s': Sample)
    requires r.Compiled()
  {
    NamesSrcPort(r, s) ==>
      HasPorts(s'.proto) && r.srcPortAgg.Reduce(s.srcPort) == r.srcPortAgg.Reduce(s'.srcPort) && r.srcPortAgg.InRange(s'.srcPort)
  }

  predicate AgreesDstPort(r: DetectorRule, s: Sample, s': Sample)
    requires r.Compiled()
  {
    NamesDstPort(r, s) ==>
      HasPorts(s'.proto) && r.dstPortAgg.Reduce(s.dstPort) == r.dstPortAgg.Reduce(s'.dstPort) && r.dstPortAgg.InRange(s'.dstPort)
  }

  predicate AgreesIcmpType(r: DetectorRule, s: Sample, s': Sample)
  {
    NamesIcmpType(r, s) ==> s'.proto == IcmpProto(s'.family) && s'.icmpType == s.icmpType
  }

  predicate AgreesIcmpCode(r: DetectorRule, s: Sample, s': Sample)
  {
    NamesIcmpCode(r, s) ==> s'.proto == IcmpProto(s'.family) && s'.icmpCode == s.icmpCode
  }

  /** `s'` agrees with `s` on every field that the drop built from `s` names; a named port or
      ICMP field also needs a packet that carries one, and a fixed range needs the port in it. */
  predicate Agrees(r: DetectorRule, s: Sample, s': Sample)
    requires r.Compiled()
  {
    && AgreesSrc(r, s, s') && AgreesDst(r, s, s') && AgreesProto(r, s, s')
    && AgreesSrcPort(r, s, s') && AgreesDstPort(r, s, s')
    && AgreesIcmpType(r, s, s') && AgreesIcmpCode(r, s, s')
  }

  // ----- alignment -----

  lemma PrefixesNamed(r: DetectorRule, s: Sample, s': Sample)
    requires r.Compiled()
    ensures var m := BuildMatch(r, DescriptorFor(r, s));
            && (PrefixHolds(s.family, m.src, s'.src) <==> AgreesSrc(r, s, s'))
            && (PrefixHolds(s.family, m.dst, s'.dst) <==> AgreesDst(r, s, s'))
  {
    PrefixAligned(s.src, s'.src, r.srcMask);
    PrefixAligned(s.dst, s'.dst, r.dstMask);
  }

  lemma PortsNamed(r: DetectorRule, s: Sample, s': Sample)
    requires r.Compiled()
    ensures var m := BuildMatch(r, DescriptorFor(r, s));
            && (m.srcPort != [] <==> NamesSrcPort(r, s)) && (m.dstPort != [] <==> NamesDstPort(r, s))
            && ((m.srcPort != [] ==> CarriesPorts(PacketOf(s')) && NumericHolds(m.srcPort, s'.srcPort)) <==>
                AgreesSrcPort(r, s, s'))
            && ((m.dstPort != [] ==> CarriesPorts(PacketOf(s')) && NumericHolds(m.dstPort, s'.dstPort)) <==>
                AgreesDstPort(r, s, s'))
  {
    PortAligned(r.srcPortAgg, s.srcPort, s'.srcPort);
    PortAligned(r.dstPortAgg, s.dstPort, s'.dstPort);
  }

  lemma ExactNamed(r: DetectorRule, s: Sample, s': Sample)
    requires r.Compiled()
    ensures var m := BuildMatch(r, DescriptorFor(r, s));
            && (m.proto != [] <==> NamesProto(r))
            && (m.icmpType != [] <==> NamesIcmpType(r, s)) && (m.icmpCode != [] <==> NamesIcmpCode(r, s))
            && ((m.proto != [] ==> NumericHolds(m.proto, s'.proto)) <==> AgreesProto(r, s, s'))
            && ((m.icmpType != [] ==> CarriesIcmp(PacketOf(s')) && NumericHolds(m.icmpType, s'.icmpType)) <==>
                AgreesIcmpType(r, s, s'))
            && ((m.icmpCode != [] ==> CarriesIcmp(PacketOf(s')) && NumericHolds(m.icmpCode, s'.icmpCode)) <==>
                AgreesIcmpCode(r, s, s'))
  {
    EqualsHolds(s.proto, s'.proto);
    EqualsHolds(s.icmpType, s'.icmpType);
    EqualsHolds(s.icmpCode, s'.icmpCode);
  }

  /** Field by field is all there is to coverage. */
  lemma CoversByField(rule: Rule, p: Packet, addrs: bool, proto: bool, ports: bool, icmp: bool)
    requires !rule.match_.HasUnmapped()
    requires addrs <==> PrefixHolds(rule.family, rule.match_.src, p.src) && PrefixHolds(rule.family, rule.match_.dst, p.dst)
    requires proto <==> (rule.match_.proto != [] ==> NumericHolds(rule.match_.proto, p.proto))
    requires ports <==> (rule.match_.srcPort != [] ==> CarriesPorts(p) && NumericHolds(rule.match_.srcPort, p.srcPort)) &&
                        (rule.match_.dstPort != [] ==> CarriesPorts(p) && NumericHolds(rule.match_.dstPort, p.dstPort))
    requires icmp <==> (rule.match_.icmpType != [] ==> CarriesIcmp(p) && NumericHolds(rule.match_.icmpType, p.icmpType)) &&
                       (rule.match_.icmpCode != [] ==> CarriesIcmp(p) && NumericHolds(rule.match_.icmpCode, p.icmpCode))
    requires FlagsCover(rule.match_, p) && (rule.match_.tcpFlags != [] ==> p.proto == TCP)
    ensures Covers(rule, p) <==> addrs && proto && ports && icmp
  {
  }

  lemma FlagsAligned(r: DetectorRule, s: Sample, s': Sample)
    requires r.Compiled() && Matches(r, s')
    ensures var m := BuildMatch(r, DescriptorFor(r, s));
            && FlagsCover(m, PacketOf(s')) && (m.tcpFlags != [] ==> s'.proto == TCP) && (m.tcpFlags != [] <==> NamesFlags(r))
  {
    if r.tcpCare != {} {
      FlagOpsHold(r.tcpCare, r.tcpWant, s'.tcpFlags);
    }
  }

  /** For every choice of wildcards: among the samples the rule matches, the drop built from one
      covers exactly those that agree with it on what the drop names. */
  lemma DropCoversIff(r: DetectorRule, s: Sample, s': Sample, raw: string)
    requires r.Compiled() && Matches(r, s) && Matches(r, s')
    ensures Covers(BuildFlowSpec(r, DescriptorFor(r, s), raw), PacketOf(s')) <==> Agrees(r, s, s')
  {
    PrefixesNamed(r, s, s');
    PortsNamed(r, s, s');
    ExactNamed(r, s, s');
    FlagsAligned(r, s, s');
    CoversByField(BuildFlowSpec(r, DescriptorFor(r, s), raw), PacketOf(s'),
                  AgreesSrc(r, s, s') && AgreesDst(r, s, s'), AgreesProto(r, s, s'),
                  AgreesSrcPort(r, s, s') && AgreesDstPort(r, s, s'),
                  AgreesIcmpType(r, s, s') && AgreesIcmpCode(r, s, s'));
  }

  /** Without wildcards, what the drop names is the descriptor. */
  lemma AgreesIsSameClass(r: DetectorRule, s: Sample, s': Sample)
    requires r.Compiled() && r.wild.None()
    ensures Agrees(r, s, s') <==>
            DescriptorFor(r, s) == DescriptorFor(r, s') && PortsInRange(r, s') && IcmpFits(r, s')
  {
    if s'.family == s.family && (NamesProto(r) ==> s'.proto == s.proto) && !r.protoWild && HasPorts(s.proto) {
      FullRange(r.srcPortAgg, s.srcPort, s'.srcPort);
      FullRange(r.dstPortAgg, s.dstPort, s'.dstPort);
    }
  }

  /** An aggregate with the full range for one port has it for every port, and every port in it. */
  lemma FullRange(agg: PortAgg, p: Port, q: Port)
    requires agg.Valid()
    ensures agg.Reduce(p) == Interval(0, 65535) ==> agg.Reduce(q) == Interval(0, 65535) && agg.InRange(q)
  {
    if agg.Reduce(p) == Interval(0, 65535) {
      PortAligned(agg, p, q);
    }
  }

  /** Detection and mitigation align: for matched samples, the default drop built from the
      descriptor of one covers the other exactly when both have the same descriptor and FlowSpec
      can express it, that is, ports lie in any fixed range and ICMP fields go with the family's
      ICMP. */
  lemma DropCoversClass(r: DetectorRule, s: Sample, s': Sample, raw: string)
    requires r.Compiled() && r.wild.None() && Matches(r, s) && Matches(r, s')
    ensures Covers(BuildFlowSpec(r, DescriptorFor(r, s), raw), PacketOf(s')) <==>
            DescriptorFor(r, s) == DescriptorFor(r, s') && PortsInRange(r, s') && IcmpFits(r, s')
    ensures Covers(BuildFlowSpec(r, DescriptorFor(r, s), raw), PacketOf(s')) <==>
            OneInstance(r, s, s') && PortsInRange(r, s') && IcmpFits(r, s')
  {
    DropCoversIff(r, s, s', raw);
    AgreesIsSameClass(r, s, s');
    SameDescriptorIff(r, s, s');
  }

  // ----- the translator's answer -----

  lemma EmittedRanges(r: DetectorRule, s: Sample)
    requires r.Compiled()
    ensures var m := BuildMatch(r, DescriptorFor(r, s));
            RangeOf(m.srcPort, T.PORT_MAX).Ok? && RangeOf(m.dstPort, T.PORT_MAX).Ok?
  {
    var d := DescriptorFor(r, s);
    if !r.protoWild && HasPorts(s.proto) {
      ReduceBounds(r.srcPortAgg, s.srcPort);
      ReduceBounds(r.dstPortAgg, s.dstPort);
    }
    PortOpsRange(d.srcPorts);
    PortOpsRange(d.dstPorts);
  }

  /** The drop is one the translator can express: a named ICMP field goes with the family when
      the protocol is named too, and a named port has a protocol, named or inferred from flags. */
  predicate Accepted(r: DetectorRule, s: Sample)
    requires r.Compiled()
  {
    && ((NamesIcmpType(r, s) || NamesIcmpCode(r, s)) && !r.wild.proto ==> s.proto == IcmpProto(s.family))
    && ((NamesSrcPort(r, s) || NamesDstPort(r, s)) && r.wild.proto ==> NamesFlags(r))
  }

  /** For every choice of wildcards, the translator accepts exactly the drops it can express. */
  lemma DropAcceptedIff(r: DetectorRule, s: Sample, raw: string)
    requires r.Compiled() && Matches(r, s)
    ensures T.Translate(BuildFlowSpec(r, DescriptorFor(r, s), raw)).Ok? <==> Accepted(r, s)
  {
    EmittedRanges(r, s);
    PortsNamed(r, s, s);
    ExactNamed(r, s, s);
    if r.tcpCare != {} {
      FlagOpsHold(r.tcpCare, r.tcpWant, s.tcpFlags);
      assert s.proto == TCP;
    }
  }

  /** The rule whose drop an entry stands for: protocol zero cannot be named. */
  function Expressed(r: DetectorRule, s: Sample): DetectorRule
  {
    if NamesProto(r) && s.proto == 0 then r.(wild := r.wild.(proto := true)) else r
  }

  lemma ExpressedSame(r: DetectorRule, s: Sample, s': Sample)
    requires r.Compiled()
    ensures Expressed(r, s).Compiled() && DescriptorFor(Expressed(r, s), s) == DescriptorFor(r, s)
    ensures Matches(r, s') ==> Matches(Expressed(r, s), s')
    ensures Agrees(r, s, s') ==> Agrees(Expressed(r, s), s, s')
  {
  }

  /** What the translator makes of a drop is the drop of the rule it can express. */
  lemma EffectiveDrop(r: DetectorRule, s: Sample, raw: string)
    requires r.Compiled()
    ensures Expressed(r, s).Compiled()
    ensures T.Effective(BuildFlowSpec(r, DescriptorFor(r, s), raw)) ==
            BuildFlowSpec(Expressed(r, s), DescriptorFor(Expressed(r, s), s), raw)
  {
    ExpressedSame(r, s, s);
    var m := BuildMatch(r, DescriptorFor(r, s));
    assert NamesProto(r) ==> m.proto == [Equals(s.proto)];
    assert !NamesProto(r) ==> m.proto == [];
    assert ProtoIsZero(m) <==> NamesProto(r) && s.proto == 0;
  }

  /** End to end for the detector, for every choice of wildcards: the ACL entry of an accepted
      drop matches, among the samples the rule matches, exactly those that agree with the drop's
      own sample on what the entry names. */
  lemma EntryMatchesIff(r: DetectorRule, s: Sample, s': Sample, raw: string)
    requires r.Compiled() && Matches(r, s) && Matches(r, s') && Accepted(r, s)
    ensures T.Translate(BuildFlowSpec(r, DescriptorFor(r, s), raw)).Ok?
    ensures EntryMatches(T.Translate(BuildFlowSpec(r, DescriptorFor(r, s), raw)).value, PacketOf(s')) <==>
            Agrees(Expressed(r, s), s, s')
  {
    DropAcceptedIff(r, s, raw);
    ExpressedSame(r, s, s);
    ExpressedSame(r, s, s');
    EffectiveDrop(r, s, raw);
    T.TranslatePreserves(BuildFlowSpec(r, DescriptorFor(r, s), raw), PacketOf(s'));
    DropCoversIff(Expressed(r, s), s, s', raw);
  }

  /** The entry of a default drop that names the protocol, or need not. */
  lemma EntryMatchesClass(r: DetectorRule, s: Sample, s': Sample, raw: string)
    requires r.Compiled() && r.wild.None() && Matches(r, s) && Matches(r, s') && IcmpFits(r, s)
    requires r.protoWild || s.proto != 0
    ensures T.Translate(BuildFlowSpec(r, DescriptorFor(r, s), raw)).Ok?
    ensures EntryMatches(T.Translate(BuildFlowSpec(r, DescriptorFor(r, s), raw)).value, PacketOf(s')) <==>
            DescriptorFor(r, s) == DescriptorFor(r, s') && PortsInRange(r, s')
  {
    EntryMatchesIff(r, s, s', raw);
    AgreesIsSameClass(r, s, s');
    assert DescriptorFor(r, s) == DescriptorFor(r, s') ==> IcmpFits(r, s');
  }

  /** The rule matches protocol zero alone. */
  predicate OnlyZero(r: DetectorRule) { r.protos != [] && forall p | p in r.protos :: p == 0 }

  /** Whether the drop becomes an entry that matches, among the samples of the rule, exactly the
      class of its sample, as far as ports lie in any fixed range. */
  ghost predicate EntryIsClass(r: DetectorRule, s: Sample, raw: string)
    requires r.Compiled()
  {
    var res := T.Translate(BuildFlowSpec(r, DescriptorFor(r, s), raw));
    res.Ok? && forall s' | Matches(r, s') ::
      EntryMatches(res.value, PacketOf(s')) <==> DescriptorFor(r, s) == DescriptorFor(r, s') && PortsInRange(r, s')
  }

  /** Where protocol zero is all the rule matches, the class is one of addresses. */
  lemma OnlyZeroIsClass(r: DetectorRule, s: Sample, s': Sample)
    requires r.Compiled() && r.wild.None() && Matches(r, s) && Matches(r, s') && !r.protoWild && OnlyZero(r)
    ensures Agrees(Expressed(r, s), s, s') <==> DescriptorFor(r, s) == DescriptorFor(r, s') && PortsInRange(r, s')
  {
    assert s.proto == 0 && s'.proto == 0;
  }

  /** Otherwise the entry also matches samples of other protocols. */
  lemma ZeroWidens(r: DetectorRule, s: Sample) returns (s': Sample)
    requires r.Compiled() && r.wild.None() && Matches(r, s) && !r.protoWild && s.proto == 0 && !OnlyZero(r)
    ensures Matches(r, s') && Agrees(Expressed(r, s), s, s') && DescriptorFor(r, s) != DescriptorFor(r, s')
  {
    var p: Byte :| p != 0 && (r.protos != [] ==> p in r.protos);
    s' := s.(proto := p);
  }

  /** The entry of a default drop matches exactly the class of its sample if and only if any ICMP
      field goes with the family, and the sample's protocol is one an entry can name, is not part
      of the class, or is the only one the rule matches. */
  lemma EntryMatchesClassIff(r: DetectorRule, s: Sample, raw: string)
    requires r.Compiled() && r.wild.None() && Matches(r, s)
    ensures EntryIsClass(r, s, raw) <==> IcmpFits(r, s) && (r.protoWild || s.proto != 0 || OnlyZero(r))
  {
    DropAcceptedIff(r, s, raw);
    if IcmpFits(r, s) && !r.protoWild && s.proto == 0 && !OnlyZero(r) {
      var s' := ZeroWidens(r, s);
      EntryMatchesIff(r, s, s', raw);
    } else if IcmpFits(r, s) {
      forall s' | Matches(r, s')
        ensures EntryMatches(T.Translate(BuildFlowSpec(r, DescriptorFor(r, s), raw)).value, PacketOf(s')) <==>
                DescriptorFor(r, s) == DescriptorFor(r, s') && PortsInRange(r, s')
      {
        if r.protoWild || s.proto != 0 {
          EntryMatchesClass(r, s, s', raw);
        } else {
          EntryMatchesIff(r, s, s', raw);
          OnlyZeroIsClass(r, s, s');
        }
      }
    }
  }

  /** A sample of the same class that FlowSpec can express agrees on whatever is named. */
  lemma SameClassAgrees(r: DetectorRule, s: Sample, s': Sample)
    requires r.Compiled() && DescriptorFor(r, s) == DescriptorFor(r, s') && PortsInRange(r, s') && IcmpFits(r, s')
    ensures Agrees(r, s, s')
  {
  }

  /** Wildcarded fields only widen an accepted drop: its entry matches every sample of the class
      that FlowSpec can express. */
  lemma WildcardsOnlyWiden(r: DetectorRule, s: Sample, s': Sample, raw: string)
    requires r.Compiled() && Matches(r, s) && Matches(r, s') && Accepted(r, s)
    requires DescriptorFor(r, s) == DescriptorFor(r, s') && PortsInRange(r, s') && IcmpFits(r, s')
    ensures T.Translate(BuildFlowSpec(r, DescriptorFor(r, s), raw)).Ok?
    ensures EntryMatches(T.Translate(BuildFlowSpec(r, DescriptorFor(r, s), raw)).value, PacketOf(s'))
  {
    EntryMatchesIff(r, s, s', raw);
    SameClassAgrees(r, s, s');
    ExpressedSame(r, s, s');
  }

  /** A drop stops the very sample it was built from if and only if the translator accepts it,
      named ports lie in any fixed range, and a named ICMP field goes with the family. */
  lemma StopsOwnSampleIff(r: DetectorRule, s: Sample, raw: string)
    requires r.Compiled() && Matches(r, s)
    ensures (var res := T.Translate(BuildFlowSpec(r, DescriptorFor(r, s), raw));
             res.Ok? && EntryMatches(res.value, PacketOf(s))) <==>
            && Accepted(r, s)
            && (NamesSrcPort(r, s) ==> r.srcPortAgg.InRange(s.srcPort))
            && (NamesDstPort(r, s) ==> r.dstPortAgg.InRange(s.dstPort))
            && (NamesIcmpType(r, s) || NamesIcmpCode(r, s) ==> s.proto == IcmpProto(s.family))
  {
    DropAcceptedIff(r, s, raw);
    if Accepted(r, s) {
      EntryMatchesIff(r, s, s, raw);
    }
  }

  const NO_WILDCARDS := Wildcards(false, false, false, false, false, false, false, false)

  /** UDP with exact ports, emitted for any protocol. */
  const ANY_PROTO_RULE := DetectorRule(
      None, [UDP], None, None, [], [], LengthFilter(0, 0, 0, 0), {}, {}, [], [],
      false, -1, -1, ExactPort, ExactPort, false, false, NO_WILDCARDS.(proto := true))

  /** A rule that compiles and matches, and whose drop FlowSpec could carry, yet is rejected: with
      the protocol wildcarded its ports have none to go with, so nothing is dropped. */
  lemma AnyProtoRejected(s: Sample, raw: string)
    requires s.proto == UDP
    ensures ANY_PROTO_RULE.Compiled() && Matches(ANY_PROTO_RULE, s)
    ensures PortsInRange(ANY_PROTO_RULE, s) && IcmpFits(ANY_PROTO_RULE, s)
    ensures T.Translate(BuildFlowSpec(ANY_PROTO_RULE, DescriptorFor(ANY_PROTO_RULE, s), raw)).Err?
  {
    assert UDP in [UDP];
    DropAcceptedIff(ANY_PROTO_RULE, s, raw);
  }
}
