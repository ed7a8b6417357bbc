/**
  The agent's FlowSpec rule and its meaning on packets (RFC 8955 and RFC 8956).

  An operator list is a flat list of items; an item whose `and` bit is clear opens a new
  OR term (the bit of the very first item is ignored). `Terms` recovers that structure.
 */
module FlowSpec {
  import opened Arith

  datatype Option<+T> = None | Some(value: T)

  /** Why a rule is ignored. */
  datatype Reason = UnsupportedComponent | UnsupportedExpression | UnsupportedActionKind | UnmappablePrefix

  datatype Result<+T> = Ok(value: T) | Err(reason: Reason)
  {
    predicate IsFailure() { Err? }

    function PropagateFailure<U>(): Result<U>
      requires Err?
    {
      Err(reason)
    }

    function Extract(): T
      requires Ok?
    {
      value
    }
  }

  // ----- addresses and packets -----

  datatype Family = IPv4 | IPv6

  function Width(f: Family): nat { if f.IPv4? then 32 else 128 }

  type Byte = n: int | 0 <= n < 0x100

  type Port = n: int | 0 <= n < 0x1_0000

  /** Flag bits, as the set of positions that are 1. */
  type BitSet = set<nat>

  predicate InOctet(s: BitSet) { forall b | b in s :: b < 8 }

  /** The TCP header flags byte. */
  type Octet = s: BitSet | InOctet(s)

  datatype RawAddr = RawAddr(family: Family, value: nat)

  /** An address is a number below 2^32 or 2^128. */
  type Addr = a: RawAddr | a.value < Pow2(Width(a.family)) witness RawAddr(IPv4, 0)

  datatype RawPrefix = RawPrefix(addr: Addr, len: nat)

  /** A prefix may carry host bits; only its leading `len` bits are compared. */
  type Prefix = p: RawPrefix | p.len <= Width(p.addr.family) witness RawPrefix(RawAddr(IPv4, 0), 0)

  /** The leading `len` bits of an address. */
  function Leading(a: Addr, len: nat): (r: nat)
    requires len <= Width(a.family)
  {
    Quot(a.value, Pow2(Width(a.family) - len))
  }

  predicate Contains(p: Prefix, a: Addr)
  {
    a.family == p.addr.family && Leading(a, p.len) == Leading(p.addr, p.len)
  }

  /** RFC 8956 prefix with an offset: bits `offset`..`len` are compared. */
  predicate ContainsFrom(p: Prefix, offset: nat, a: Addr)
  {
    && a.family == p.addr.family
    && (offset < p.len ==>
          Leading(a, p.len) % Pow2(p.len - offset) == Leading(p.addr, p.len) % Pow2(p.len - offset))
  }

  datatype RawPacket = RawPacket(
    src: Addr, dst: Addr, proto: Byte,
    srcPort: Port, dstPort: Port,
    icmpType: Byte, icmpCode: Byte, tcpFlags: Octet)

  /** A packet with a full layer-4 header. */
  type Packet = p: RawPacket | p.src.family == p.dst.family
    witness RawPacket(RawAddr(IPv4, 0), RawAddr(IPv4, 0), 0, 0, 0, 0, 0, {})

  function FamilyOf(p: Packet): Family { p.src.family }

  const ICMP: Byte := 1
  const TCP: Byte := 6
  const UDP: Byte := 17
  const ICMPV6: Byte := 58

  function IcmpProto(f: Family): Byte { if f.IPv6? then ICMPV6 else ICMP }

  predicate CarriesPorts(p: Packet) { p.proto == TCP || p.proto == UDP }

  predicate CarriesIcmp(p: Packet) { p.proto == IcmpProto(FamilyOf(p)) }

  // ----- operator lists -----

  datatype Item<T> = Item(and: bool, cond: T)

  datatype Comparison = Comparison(lt: bool, gt: bool, eq: bool, value: nat)
  {
    /** The agent's reading: no bit set is "true", every bit set is "false". */
    predicate Holds(v: nat)
    {
      if !lt && !gt && !eq then true
      else if lt && gt && eq then false
      else RfcHolds(v)
    }

    /** Section 4.2.1.1 of RFC 8955: the disjunction of the selected comparisons. */
    predicate RfcHolds(v: nat)
    {
      (lt && v < value) || (gt && v > value) || (eq && v == value)
    }

    /** One of the six comparison patterns, as opposed to "true" or "false". */
    predicate IsComparison() { (lt || gt || eq) && !(lt && gt && eq) }
  }

  datatype BitTest = BitTest(neg: bool, match_: bool, value: BitSet)
  {
    /** Section 4.2.1.2 of RFC 8955: all listed bits, or any of them. */
    predicate Holds(flags: Octet)
    {
      var hit := if match_ then value <= flags else flags * value != {};
      hit != neg
    }
  }

  type NumericOp = Item<Comparison>
  type BitmaskOp = Item<BitTest>

  /** The OR terms of a list, each the conditions it ANDs together. */
  function Terms<T>(ops: seq<Item<T>>): (ts: seq<seq<T>>)
    ensures ops == [] <==> ts == []
  {
    if ops == [] then []
    else
      var ts := Terms(ops[..|ops| - 1]);
      var last := ops[|ops| - 1];
      if |ops| == 1 || !last.and then ts + [[last.cond]]
      else ts[|ts| - 1 := ts[|ts| - 1] + [last.cond]]
  }

  predicate NumericHolds(ops: seq<NumericOp>, v: nat)
  {
    exists t | t in Terms(ops) :: forall c | c in t :: c.Holds(v)
  }

  predicate RfcNumericHolds(ops: seq<NumericOp>, v: nat)
  {
    exists t | t in Terms(ops) :: forall c | c in t :: c.RfcHolds(v)
  }

  predicate BitmaskHolds(ops: seq<BitmaskOp>, flags: Octet)
  {
    exists t | t in Terms(ops) :: forall c | c in t :: c.Holds(flags)
  }

  // ----- rules -----

  datatype PrefixMatch = PrefixMatch(prefix: Prefix, offset: nat)

  /** An absent component is `None` or an empty list. */
  datatype Match = Match(
    dst: Option<PrefixMatch>, src: Option<PrefixMatch>,
    proto: seq<NumericOp>, dstPort: seq<NumericOp>, srcPort: seq<NumericOp>,
    icmpType: seq<NumericOp>, icmpCode: seq<NumericOp>,
    tcpFlags: seq<BitmaskOp>, fragment: seq<BitmaskOp>,
    hasGenericPort: bool, hasPacketLen: bool, hasDSCP: bool,
    hasFlowLabel: bool, hasLabel: bool, hasUnknownComponent: bool)
  {
    /** A component the agent records but never maps. */
    predicate HasUnmapped()
    {
      || hasGenericPort || hasPacketLen || hasDSCP || hasFlowLabel || hasLabel
      || hasUnknownComponent || fragment != []
    }
  }

  datatype Action = UnknownAction | Drop | UnsupportedAction

  datatype Rule = Rule(family: Family, match_: Match, action: Action, raw: string)

  function DefaultPrefix(f: Family): Prefix { RawPrefix(RawAddr(f, 0), 0) }

  /** `proto = 0`, the one protocol number an ACL entry cannot name. */
  predicate ProtoIsZero(m: Match)
  {
    |m.proto| == 1 && m.proto[0].cond == Comparison(false, false, true, 0)
  }

  predicate PrefixHolds(f: Family, pm: Option<PrefixMatch>, a: Addr)
  {
    a.family == f && (pm.Some? ==> ContainsFrom(pm.value.prefix, pm.value.offset, a))
  }

  /** Every present component except the TCP flag bits holds. A port, ICMP or TCP component is
      false on packets of another protocol. */
  predicate HeaderCovers(r: Rule, p: Packet)
  {
    var m := r.match_;
    && PrefixHolds(r.family, m.dst, p.dst)
    && PrefixHolds(r.family, m.src, p.src)
    && (m.proto != [] ==> NumericHolds(m.proto, p.proto))
    && (m.srcPort != [] ==> CarriesPorts(p) && NumericHolds(m.srcPort, p.srcPort))
    && (m.dstPort != [] ==> CarriesPorts(p) && NumericHolds(m.dstPort, p.dstPort))
    && (m.icmpType != [] ==> CarriesIcmp(p) && NumericHolds(m.icmpType, p.icmpType))
    && (m.icmpCode != [] ==> CarriesIcmp(p) && NumericHolds(m.icmpCode, p.icmpCode))
    && (m.tcpFlags != [] ==> p.proto == TCP)
  }

  predicate FlagsCover(m: Match, p: Packet)
  {
    m.tcpFlags != [] ==> BitmaskHolds(m.tcpFlags, p.tcpFlags)
  }

  /** Section 4.2.2 of RFC 8955: a packet is covered when every present component holds. */
  predicate Covers(r: Rule, p: Packet)
    requires !r.match_.HasUnmapped()
  {
    HeaderCovers(r, p) && FlagsCover(r.match_, p)
  }

  /** `Covers` with every numeric list read as in section 4.2.1.1 of RFC 8955. */
  predicate RfcCovers(r: Rule, p: Packet)
    requires !r.match_.HasUnmapped()
  {
    var m := r.match_;
    && PrefixHolds(r.family, m.dst, p.dst)
    && PrefixHolds(r.family, m.src, p.src)
    && (m.proto != [] ==> RfcNumericHolds(m.proto, p.proto))
    && (m.srcPort != [] ==> CarriesPorts(p) && RfcNumericHolds(m.srcPort, p.srcPort))
    && (m.dstPort != [] ==> CarriesPorts(p) && RfcNumericHolds(m.dstPort, p.dstPort))
    && (m.icmpType != [] ==> CarriesIcmp(p) && RfcNumericHolds(m.icmpType, p.icmpType))
    && (m.icmpCode != [] ==> CarriesIcmp(p) && RfcNumericHolds(m.icmpCode, p.icmpCode))
    && (m.tcpFlags != [] ==> p.proto == TCP)
    && FlagsCover(m, p)
  }

  // ----- facts about lists and prefixes -----

  lemma OneTerm<T>(ops: seq<Item<T>>)
    requires |ops| == 1
    ensures Terms(ops) == [[ops[0].cond]]
  {
    assert ops[..0] == [];
  }

  /** A one-item list means its only condition. */
  lemma SingleHolds(ops: seq<NumericOp>, v: nat)
    requires |ops| == 1
    ensures NumericHolds(ops, v) <==> ops[0].cond.Holds(v)
    ensures RfcNumericHolds(ops, v) <==> ops[0].cond.RfcHolds(v)
  {
    OneTerm(ops);
    assert Terms(ops)[0] in Terms(ops);
    assert [ops[0].cond][0] in [ops[0].cond];
  }

  /** A list whose items all AND is one term. */
  lemma {:induction false} AndListIsOneTerm<T>(ops: seq<Item<T>>)
    requires ops != []
    requires forall i | 1 <= i < |ops| :: ops[i].and
    ensures |Terms(ops)| == 1 && |Terms(ops)[0]| == |ops|
    ensures forall i | 0 <= i < |ops| :: Terms(ops)[0][i] == ops[i].cond
  {
    if |ops| == 1 {
      OneTerm(ops);
    } else {
      var init := ops[..|ops| - 1];
      AndListIsOneTerm(init);
      assert Terms(ops) == [Terms(init)[0] + [ops[|ops| - 1].cond]];
    }
  }

  /** Every condition of every term is one of the list's items. */
  lemma {:induction false} TermsFromItems<T>(ops: seq<Item<T>>, t: seq<T>, c: T)
    requires t in Terms(ops) && c in t
    ensures exists op | op in ops :: op.cond == c
  {
    var init, last := ops[..|ops| - 1], ops[|ops| - 1];
    if c == last.cond {
      assert last in ops;
    } else {
      var ts := Terms(init);
      if t in ts {
        TermsFromItems(init, t, c);
      } else {
        var t' := ts[|ts| - 1];
        assert t == t' + [last.cond];
        TermsFromItems(init, t', c);
      }
      var op :| op in init && op.cond == c;
      assert op in ops;
    }
  }

  lemma LeadingBound(a: Addr, len: nat)
    requires len <= Width(a.family)
    ensures Leading(a, len) < Pow2(len)
  {
    var w := Width(a.family);
    LeadingBits(a.value, w, len);
  }

  /** An offset of zero compares the whole prefix. */
  lemma OffsetZero(p: Prefix, a: Addr)
    ensures ContainsFrom(p, 0, a) <==> Contains(p, a)
  {
    if a.family == p.addr.family {
      var len := p.len;
      var x, y := Leading(a, len), Leading(p.addr, len);
      LeadingBound(a, len);
      LeadingBound(p.addr, len);
      if len > 0 {
        ModSmall(x, Pow2(len));
        ModSmall(y, Pow2(len));
        assert len - 0 == len;
      }
    }
  }
}
