/**
  FlowSpec components on the wire: what the agent originates and how it reads components back.
  Operator bytes are sets of bit positions; the BGP library adds its own end-of-list and length
  bits to every operator byte it sends.
 */
module Wire {
  import opened FlowSpec
  import T = Translate

  // Operator bits of sections 4.2.1.1 and 4.2.1.2 of RFC 8955.
  const EQ: nat := 0
  const GT: nat := 1
  const LT: nat := 2
  const MATCH: nat := 0
  const NOT: nat := 1
  const AND: nat := 6

  /** Length (bits 4 and 5) and end-of-list (bit 7) belong to the library. */
  predicate LibraryBits(b: BitSet) { forall x | x in b :: x == 4 || x == 5 || x == 7 }

  datatype WireItem<V> = WireItem(op: BitSet, value: V)

  datatype NumericType = Proto | GenericPort | DstPort | SrcPort | IcmpType | IcmpCode | PacketLen | Dscp | Label
  datatype BitmaskType = TcpFlag | Fragment

  datatype Component =
    | DstPrefix(p: Prefix)
    | SrcPrefix(p: Prefix)
    | DstPrefix6(p: Prefix, offset: nat)
    | SrcPrefix6(p: Prefix, offset: nat)
    | Numeric(ntype: NumericType, nitems: seq<WireItem<nat>>)
    | Bitmask(btype: BitmaskType, bitems: seq<WireItem<BitSet>>)
    | Other

  // ----- one item -----

  function Bit(b: bool, x: nat): BitSet { if b then {x} else {} }

  function EncodeNumeric(o: NumericOp): WireItem<nat>
  {
    WireItem(Bit(o.and, AND) + Bit(o.cond.eq, EQ) + Bit(o.cond.gt, GT) + Bit(o.cond.lt, LT), o.cond.value)
  }

  function DecodeNumeric(w: WireItem<nat>): NumericOp
  {
    Item(AND in w.op, Comparison(LT in w.op, GT in w.op, EQ in w.op, w.value))
  }

  function EncodeBitmask(o: BitmaskOp): WireItem<BitSet>
  {
    WireItem(Bit(o.and, AND) + Bit(o.cond.neg, NOT) + Bit(o.cond.match_, MATCH), o.cond.value)
  }

  function DecodeBitmask(w: WireItem<BitSet>): BitmaskOp
  {
    Item(AND in w.op, BitTest(NOT in w.op, MATCH in w.op, w.value))
  }

  /** The operator bytes of sections 4.2.1.1 and 4.2.1.2 of RFC 8955: in a numeric one bit 0 is
      "equal", bit 1 "greater", bit 2 "less"; in a bitmask one bit 0 is "match", bit 1 "not"; bit 6
      ANDs with the item before. No other bit is set. */
  lemma OperatorBits(o: NumericOp, b: BitmaskOp, x: nat)
    ensures x in EncodeNumeric(o).op <==>
            (x == 0 && o.cond.eq) || (x == 1 && o.cond.gt) || (x == 2 && o.cond.lt) || (x == 6 && o.and)
    ensures x in EncodeBitmask(b).op <==> (x == 0 && b.cond.match_) || (x == 1 && b.cond.neg) || (x == 6 && b.and)
    ensures EncodeNumeric(o).value == o.cond.value && EncodeBitmask(b).value == b.cond.value
  {
  }

  // ----- lists, as the append loops build them -----

  function EncodeNumerics(ops: seq<NumericOp>): (r: seq<WireItem<nat>>)
    ensures |r| == |ops| && forall i | 0 <= i < |ops| :: r[i] == EncodeNumeric(ops[i])
  {
    if ops == [] then [] else EncodeNumerics(ops[..|ops| - 1]) + [EncodeNumeric(ops[|ops| - 1])]
  }

  function DecodeNumerics(ws: seq<WireItem<nat>>): (r: seq<NumericOp>)
    ensures |r| == |ws| && forall i | 0 <= i < |ws| :: r[i] == DecodeNumeric(ws[i])
  {
    if ws == [] then [] else DecodeNumerics(ws[..|ws| - 1]) + [DecodeNumeric(ws[|ws| - 1])]
  }

  function EncodeBitmasks(ops: seq<BitmaskOp>): (r: seq<WireItem<BitSet>>)
    ensures |r| == |ops| && forall i | 0 <= i < |ops| :: r[i] == EncodeBitmask(ops[i])
  {
    if ops == [] then [] else EncodeBitmasks(ops[..|ops| - 1]) + [EncodeBitmask(ops[|ops| - 1])]
  }

  function DecodeBitmasks(ws: seq<WireItem<BitSet>>): (r: seq<BitmaskOp>)
    ensures |r| == |ws| && forall i | 0 <= i < |ws| :: r[i] == DecodeBitmask(ws[i])
  {
    if ws == [] then [] else DecodeBitmasks(ws[..|ws| - 1]) + [DecodeBitmask(ws[|ws| - 1])]
  }

  // ----- whole matches -----

  function PrefixComponent(v6: bool, dst: bool, pm: Option<PrefixMatch>): seq<Component>
  {
    if pm.None? then []
    else if v6 then
      [if dst then DstPrefix6(pm.value.prefix, pm.value.offset) else SrcPrefix6(pm.value.prefix, pm.value.offset)]
    else [if dst then DstPrefix(pm.value.prefix) else SrcPrefix(pm.value.prefix)]
  }

  function NumericComponent(t: NumericType, ops: seq<NumericOp>): seq<Component>
  {
    if ops == [] then [] else [Numeric(t, EncodeNumerics(ops))]
  }

  function BitmaskComponent(t: BitmaskType, ops: seq<BitmaskOp>): seq<Component>
  {
    if ops == [] then [] else [Bitmask(t, EncodeBitmasks(ops))]
  }

  function Components(r: Rule): seq<Component>
  {
    var m, v6 := r.match_, r.family.IPv6?;
    PrefixComponent(v6, true, m.dst) + PrefixComponent(v6, false, m.src) +
    NumericComponent(Proto, m.proto) + NumericComponent(DstPort, m.dstPort) + NumericComponent(SrcPort, m.srcPort) +
    NumericComponent(IcmpType, m.icmpType) + NumericComponent(IcmpCode, m.icmpCode) +
    BitmaskComponent(TcpFlag, m.tcpFlags)
  }

  /** The components of a rule, or nothing when a prefix has the wrong family or none is left. */
  function EncodeNLRI(r: Rule): (c: Option<seq<Component>>)
  {
    if !T.FamilyOk(r.family, r.match_.dst) || !T.FamilyOk(r.family, r.match_.src) then None
    else if Components(r) == [] then None
    else Some(Components(r))
  }

  /** A rule is encoded exactly when each prefix is of the rule's family and some component that
      the wire carries is present. */
  lemma EncodeNLRIIff(r: Rule)
    ensures var m := r.match_;
            EncodeNLRI(r).Some? <==>
            && (m.dst.Some? ==> m.dst.value.prefix.addr.family == r.family)
            && (m.src.Some? ==> m.src.value.prefix.addr.family == r.family)
            && (m.dst.Some? || m.src.Some? || m.proto != [] || m.dstPort != [] || m.srcPort != []
                || m.icmpType != [] || m.icmpCode != [] || m.tcpFlags != [])
  {
  }

  /** One component read into the match. */
  function Fill(m: Match, c: Component): Match
  {
    match c
    case DstPrefix(p) => m.(dst := Some(PrefixMatch(p, if m.dst.Some? then m.dst.value.offset else 0)))
    case SrcPrefix(p) => m.(src := Some(PrefixMatch(p, if m.src.Some? then m.src.value.offset else 0)))
    case DstPrefix6(p, o) => m.(dst := Some(PrefixMatch(p, o)))
    case SrcPrefix6(p, o) => m.(src := Some(PrefixMatch(p, o)))
    case Numeric(t, ws) => FillNumerics(m, t, ws)
    case Bitmask(t, ws) => FillBitmasks(m, t, ws)
    case Other => m.(hasUnknownComponent := true)
  }

  function FillNumerics(m: Match, t: NumericType, ws: seq<WireItem<nat>>): Match
  {
    match t
    case Proto => m.(proto := DecodeNumerics(ws))
    case DstPort => m.(dstPort := DecodeNumerics(ws))
    case SrcPort => m.(srcPort := DecodeNumerics(ws))
    case IcmpType => m.(icmpType := DecodeNumerics(ws))
    case IcmpCode => m.(icmpCode := DecodeNumerics(ws))
    case GenericPort => m.(hasGenericPort := true)
    case PacketLen => m.(hasPacketLen := true)
    case Dscp => m.(hasDSCP := true)
    case Label => m.(hasFlowLabel := true)
  }

  function FillBitmasks(m: Match, t: BitmaskType, ws: seq<WireItem<BitSet>>): Match
  {
    match t
    case TcpFlag => m.(tcpFlags := DecodeBitmasks(ws))
    case Fragment => m.(fragment := DecodeBitmasks(ws))
  }

  function ParseFrom(m: Match, cs: seq<Component>): Match
    decreases |cs|
  {
    if cs == [] then m else ParseFrom(Fill(m, cs[0]), cs[1..])
  }

  function ParseComponents(cs: seq<Component>): Match { ParseFrom(T.EMPTY_MATCH, cs) }

  // ----- what the library does to the bytes -----

  ghost predicate StampedItem<V(!new)>(w: WireItem<V>, w': WireItem<V>)
  {
    w'.value == w.value && exists extra :: LibraryBits(extra) && w'.op == w.op + extra
  }

  ghost predicate Stamped(c: Component, c': Component)
  {
    match (c, c')
    case (Numeric(t, ws), Numeric(t', ws')) =>
      t == t' && |ws| == |ws'| && forall i | 0 <= i < |ws| :: StampedItem(ws[i], ws'[i])
    case (Bitmask(t, ws), Bitmask(t', ws')) =>
      t == t' && |ws| == |ws'| && forall i | 0 <= i < |ws| :: StampedItem(ws[i], ws'[i])
    case _ => c' == c
  }

  ghost predicate StampedAll(cs: seq<Component>, cs': seq<Component>)
  {
    |cs| == |cs'| && forall i | 0 <= i < |cs| :: Stamped(cs[i], cs'[i])
  }

  // ----- round trip -----

  lemma NumericBack(o: NumericOp, w: WireItem<nat>)
    requires StampedItem(EncodeNumeric(o), w)
    ensures DecodeNumeric(w) == o
  {
  }

  lemma BitmaskBack(o: BitmaskOp, w: WireItem<BitSet>)
    requires StampedItem(EncodeBitmask(o), w)
    ensures DecodeBitmask(w) == o
  {
  }

  lemma NumericsBack(ops: seq<NumericOp>, ws: seq<WireItem<nat>>)
    requires |ws| == |ops| && forall i | 0 <= i < |ops| :: StampedItem(EncodeNumerics(ops)[i], ws[i])
    ensures DecodeNumerics(ws) == ops
  {
    forall i | 0 <= i < |ops| ensures DecodeNumerics(ws)[i] == ops[i] {
      NumericBack(ops[i], ws[i]);
    }
  }

  lemma BitmasksBack(ops: seq<BitmaskOp>, ws: seq<WireItem<BitSet>>)
    requires |ws| == |ops| && forall i | 0 <= i < |ops| :: StampedItem(EncodeBitmasks(ops)[i], ws[i])
    ensures DecodeBitmasks(ws) == ops
  {
    forall i | 0 <= i < |ops| ensures DecodeBitmasks(ws)[i] == ops[i] {
      BitmaskBack(ops[i], ws[i]);
    }
  }

  lemma NumericsStamped(ws: seq<WireItem<nat>>, ws': seq<WireItem<nat>>)
    requires |ws| == |ws'| && forall i | 0 <= i < |ws| :: StampedItem(ws[i], ws'[i])
    ensures DecodeNumerics(ws') == DecodeNumerics(ws)
  {
    forall i | 0 <= i < |ws| ensures DecodeNumerics(ws')[i] == DecodeNumerics(ws)[i] {
      assert StampedItem(ws[i], ws'[i]);
    }
  }

  lemma BitmasksStamped(ws: seq<WireItem<BitSet>>, ws': seq<WireItem<BitSet>>)
    requires |ws| == |ws'| && forall i | 0 <= i < |ws| :: StampedItem(ws[i], ws'[i])
    ensures DecodeBitmasks(ws') == DecodeBitmasks(ws)
  {
    forall i | 0 <= i < |ws| ensures DecodeBitmasks(ws')[i] == DecodeBitmasks(ws)[i] {
      assert StampedItem(ws[i], ws'[i]);
    }
  }

  /** Reading a stamped component is reading the component. */
  lemma FillStamped(m: Match, c: Component, c': Component)
    requires Stamped(c, c')
    ensures Fill(m, c') == Fill(m, c)
  {
    match (c, c')
    case (Numeric(t, ws), Numeric(t', ws')) => NumericsStamped(ws, ws');
    case (Bitmask(t, ws), Bitmask(t', ws')) => BitmasksStamped(ws, ws');
    case _ =>
  }

  /** The library's bits never change what is read back. */
  lemma {:induction false} ParseStamped(m: Match, cs: seq<Component>, cs': seq<Component>)
    requires StampedAll(cs, cs')
    ensures ParseFrom(m, cs') == ParseFrom(m, cs)
    decreases |cs|
  {
    if cs != [] {
      FillStamped(m, cs[0], cs'[0]);
      ParseStamped(Fill(m, cs[0]), cs[1..], cs'[1..]);
    }
  }

  lemma {:induction false} ParseConcat(m: Match, a: seq<Component>, b: seq<Component>)
    ensures ParseFrom(m, a + b) == ParseFrom(ParseFrom(m, a), b)
    decreases |a|
  {
    if a == [] {
      assert a + b == b;
    } else {
      assert (a + b)[1..] == a[1..] + b;
      ParseConcat(Fill(m, a[0]), a[1..], b);
    }
  }

  lemma ParseOne(m: Match, c: Component)
    ensures ParseFrom(m, [c]) == Fill(m, c) && ParseFrom(m, []) == m
  {
    assert [c][1..] == [];
  }

  lemma NumericDecoded(ops: seq<NumericOp>)
    ensures DecodeNumerics(EncodeNumerics(ops)) == ops
  {
    forall i | 0 <= i < |ops| ensures StampedItem(EncodeNumerics(ops)[i], EncodeNumerics(ops)[i]) {
      var none: BitSet := {};
      assert LibraryBits(none) && EncodeNumeric(ops[i]).op + none == EncodeNumeric(ops[i]).op;
    }
    NumericsBack(ops, EncodeNumerics(ops));
  }

  lemma BitmaskDecoded(ops: seq<BitmaskOp>)
    ensures DecodeBitmasks(EncodeBitmasks(ops)) == ops
  {
    forall i | 0 <= i < |ops| ensures StampedItem(EncodeBitmasks(ops)[i], EncodeBitmasks(ops)[i]) {
      var none: BitSet := {};
      assert LibraryBits(none) && EncodeBitmask(ops[i]).op + none == EncodeBitmask(ops[i]).op;
    }
    BitmasksBack(ops, EncodeBitmasks(ops));
  }

  /** What survives the wire: the mapped components, and the offsets of an IPv6 rule. */
  function Carried(r: Rule): Match
  {
    var m := r.match_;
    T.EMPTY_MATCH.(
      dst := if m.dst.Some? && r.family.IPv4? then Some(m.dst.value.(offset := 0)) else m.dst,
      src := if m.src.Some? && r.family.IPv4? then Some(m.src.value.(offset := 0)) else m.src,
      proto := m.proto, dstPort := m.dstPort, srcPort := m.srcPort,
      icmpType := m.icmpType, icmpCode := m.icmpCode, tcpFlags := m.tcpFlags)
  }

  lemma ReadPrefixes(r: Rule)
    ensures var v6, m := r.family.IPv6?, r.match_;
            ParseFrom(T.EMPTY_MATCH, PrefixComponent(v6, true, m.dst) + PrefixComponent(v6, false, m.src)) ==
            T.EMPTY_MATCH.(dst := Carried(r).dst, src := Carried(r).src)
  {
    var v6, m := r.family.IPv6?, r.match_;
    var a, b := PrefixComponent(v6, true, m.dst), PrefixComponent(v6, false, m.src);
    ParseConcat(T.EMPTY_MATCH, a, b);
    if m.dst.Some? { ParseOne(T.EMPTY_MATCH, a[0]); }
    if m.src.Some? { ParseOne(ParseFrom(T.EMPTY_MATCH, a), b[0]); }
  }

  /** A match with one of its numeric lists set. */
  function WithNumeric(m: Match, t: NumericType, ops: seq<NumericOp>): Match
    requires Mapped(t)
  {
    match t
    case Proto => m.(proto := ops)
    case DstPort => m.(dstPort := ops)
    case SrcPort => m.(srcPort := ops)
    case IcmpType => m.(icmpType := ops)
    case _ => m.(icmpCode := ops)
  }

  lemma FillNumeric(m: Match, t: NumericType, ws: seq<WireItem<nat>>)
    requires Mapped(t)
    ensures Fill(m, Numeric(t, ws)) == WithNumeric(m, t, DecodeNumerics(ws))
  {
  }

  /** Reads one list component that is not there yet. */
  lemma ReadNumeric(acc: Match, cs: seq<Component>, t: NumericType, ops: seq<NumericOp>)
    requires Mapped(t)
    ensures ParseFrom(acc, cs + NumericComponent(t, ops)) ==
            if ops == [] then ParseFrom(acc, cs) else WithNumeric(ParseFrom(acc, cs), t, ops)
  {
    var m, c := ParseFrom(acc, cs), Numeric(t, EncodeNumerics(ops));
    ParseConcat(acc, cs, NumericComponent(t, ops));
    ParseOne(m, c);
    FillNumeric(m, t, EncodeNumerics(ops));
    NumericDecoded(ops);
  }

  lemma ReadBitmask(acc: Match, cs: seq<Component>, ops: seq<BitmaskOp>)
    ensures ParseFrom(acc, cs + BitmaskComponent(TcpFlag, ops)) ==
            if ops == [] then ParseFrom(acc, cs) else ParseFrom(acc, cs).(tcpFlags := ops)
  {
    var m, c := ParseFrom(acc, cs), Bitmask(TcpFlag, EncodeBitmasks(ops));
    ParseConcat(acc, cs, BitmaskComponent(TcpFlag, ops));
    ParseOne(m, c);
    FillFlags(m, EncodeBitmasks(ops));
    BitmaskDecoded(ops);
  }

  lemma FillFlags(m: Match, ws: seq<WireItem<BitSet>>)
    ensures Fill(m, Bitmask(TcpFlag, ws)) == m.(tcpFlags := DecodeBitmasks(ws))
  {
  }

  /** The prefixes, the protocol and the ports. */
  function Front(r: Rule): seq<Component>
  {
    var m, v6 := r.match_, r.family.IPv6?;
    PrefixComponent(v6, true, m.dst) + PrefixComponent(v6, false, m.src) + NumericComponent(Proto, m.proto) +
    NumericComponent(DstPort, m.dstPort) + NumericComponent(SrcPort, m.srcPort)
  }

  lemma ReadFront(r: Rule)
    ensures ParseFrom(T.EMPTY_MATCH, Front(r)) ==
            Carried(r).(icmpType := [], icmpCode := [], tcpFlags := [])
  {
    var m, v6 := r.match_, r.family.IPv6?;
    var acc := T.EMPTY_MATCH;
    var c0 := PrefixComponent(v6, true, m.dst) + PrefixComponent(v6, false, m.src);
    ReadPrefixes(r);
    ReadNumeric(acc, c0, Proto, m.proto);
    var c1 := c0 + NumericComponent(Proto, m.proto);
    ReadNumeric(acc, c1, DstPort, m.dstPort);
    var c2 := c1 + NumericComponent(DstPort, m.dstPort);
    ReadNumeric(acc, c2, SrcPort, m.srcPort);
  }

  lemma ParsedIsCarried(r: Rule)
    ensures ParseComponents(Components(r)) == Carried(r)
  {
    var m, acc, c3 := r.match_, T.EMPTY_MATCH, Front(r);
    ReadFront(r);
    ReadNumeric(acc, c3, IcmpType, m.icmpType);
    var c4 := c3 + NumericComponent(IcmpType, m.icmpType);
    ReadNumeric(acc, c4, IcmpCode, m.icmpCode);
    var c5 := c4 + NumericComponent(IcmpCode, m.icmpCode);
    ReadBitmask(acc, c5, m.tcpFlags);
  }

  // ----- what any list of components is read as -----

  /** The items of the last component of a type. */
  function LastNumeric(cs: seq<Component>, t: NumericType): Option<seq<WireItem<nat>>>
  {
    if cs == [] then None
    else
      match cs[|cs| - 1]
      case Numeric(t', ws) => if t' == t then Some(ws) else LastNumeric(cs[..|cs| - 1], t)
      case _ => LastNumeric(cs[..|cs| - 1], t)
  }

  function LastBitmask(cs: seq<Component>, t: BitmaskType): Option<seq<WireItem<BitSet>>>
  {
    if cs == [] then None
    else
      match cs[|cs| - 1]
      case Bitmask(t', ws) => if t' == t then Some(ws) else LastBitmask(cs[..|cs| - 1], t)
      case _ => LastBitmask(cs[..|cs| - 1], t)
  }

  predicate HasNumeric(cs: seq<Component>, t: NumericType) { exists c | c in cs :: c.Numeric? && c.ntype == t }

  function NumericsOf(ws: Option<seq<WireItem<nat>>>): seq<NumericOp> { if ws.None? then [] else DecodeNumerics(ws.value) }

  function BitmasksOf(ws: Option<seq<WireItem<BitSet>>>): seq<BitmaskOp> { if ws.None? then [] else DecodeBitmasks(ws.value) }

  /** The list of a match that a type is read into, if any. */
  function ListAt(m: Match, t: NumericType): seq<NumericOp>
  {
    match t
    case Proto => m.proto
    case DstPort => m.dstPort
    case SrcPort => m.srcPort
    case IcmpType => m.icmpType
    case IcmpCode => m.icmpCode
    case _ => []
  }

  predicate Mapped(t: NumericType) { t.Proto? || t.DstPort? || t.SrcPort? || t.IcmpType? || t.IcmpCode? }

  /** The mark of a type that is never mapped. */
  predicate MarkAt(m: Match, t: NumericType)
  {
    match t
    case GenericPort => m.hasGenericPort
    case PacketLen => m.hasPacketLen
    case Dscp => m.hasDSCP
    case Label => m.hasFlowLabel
    case _ => false
  }

  function FlagsAt(m: Match, t: BitmaskType): seq<BitmaskOp> { if t.TcpFlag? then m.tcpFlags else m.fragment }

  lemma FillNumericsAt(m: Match, t': NumericType, ws: seq<WireItem<nat>>, t: NumericType)
    ensures var m' := FillNumerics(m, t', ws);
            && ListAt(m', t) == (if Mapped(t) && t' == t then DecodeNumerics(ws) else ListAt(m, t))
            && (MarkAt(m', t) <==> MarkAt(m, t) || (!Mapped(t) && t' == t))
            && m'.tcpFlags == m.tcpFlags && m'.fragment == m.fragment
            && m'.hasUnknownComponent == m.hasUnknownComponent && m'.hasLabel == m.hasLabel
  {
  }

  lemma FillBitmasksAt(m: Match, t': BitmaskType, ws: seq<WireItem<BitSet>>, t: NumericType, b: BitmaskType)
    ensures var m' := FillBitmasks(m, t', ws);
            && ListAt(m', t) == ListAt(m, t) && MarkAt(m', t) == MarkAt(m, t)
            && FlagsAt(m', b) == (if t' == b then DecodeBitmasks(ws) else FlagsAt(m, b))
            && m'.hasUnknownComponent == m.hasUnknownComponent && m'.hasLabel == m.hasLabel
  {
  }

  /** What one component changes. */
  lemma FillAt(m: Match, c: Component, t: NumericType, b: BitmaskType)
    ensures ListAt(Fill(m, c), t) == if Mapped(t) && c.Numeric? && c.ntype == t then DecodeNumerics(c.nitems) else ListAt(m, t)
    ensures MarkAt(Fill(m, c), t) <==> MarkAt(m, t) || (!Mapped(t) && c.Numeric? && c.ntype == t)
    ensures FlagsAt(Fill(m, c), b) == if c.Bitmask? && c.btype == b then DecodeBitmasks(c.bitems) else FlagsAt(m, b)
    ensures Fill(m, c).hasUnknownComponent <==> m.hasUnknownComponent || c.Other?
    ensures Fill(m, c).hasLabel == m.hasLabel
  {
    if c.Numeric? {
      FillNumericsAt(m, c.ntype, c.nitems, t);
    } else if c.Bitmask? {
      FillBitmasksAt(m, c.btype, c.bitems, t, b);
    }
  }

  lemma LastSnoc(init: seq<Component>, c: Component, t: NumericType, b: BitmaskType)
    ensures LastNumeric(init + [c], t) == if c.Numeric? && c.ntype == t then Some(c.nitems) else LastNumeric(init, t)
    ensures LastBitmask(init + [c], b) == if c.Bitmask? && c.btype == b then Some(c.bitems) else LastBitmask(init, b)
    ensures HasNumeric(init + [c], t) <==> HasNumeric(init, t) || (c.Numeric? && c.ntype == t)
    ensures Other in init + [c] <==> Other in init || c.Other?
  {
    assert (init + [c])[..|init|] == init;
    assert c in init + [c] && forall x | x in init :: x in init + [c];
  }

  /** For any list of components: each mapped list of the match is that of the last component of
      its type, and the marks of components never mapped tell exactly which of them occur. */
  lemma {:induction false} ParseIs(cs: seq<Component>, t: NumericType, b: BitmaskType)
    ensures ListAt(ParseComponents(cs), t) == if Mapped(t) then NumericsOf(LastNumeric(cs, t)) else []
    ensures FlagsAt(ParseComponents(cs), b) == BitmasksOf(LastBitmask(cs, b))
    ensures MarkAt(ParseComponents(cs), t) <==> !Mapped(t) && HasNumeric(cs, t)
    ensures (ParseComponents(cs).hasUnknownComponent <==> Other in cs) && !ParseComponents(cs).hasLabel
  {
    if cs != [] {
      var init, c := cs[..|cs| - 1], cs[|cs| - 1];
      assert cs == init + [c];
      ParseIs(init, t, b);
      ParseConcat(T.EMPTY_MATCH, init, [c]);
      ParseOne(ParseComponents(init), c);
      FillAt(ParseComponents(init), c, t, b);
      LastSnoc(init, c, t, b);
    }
  }

  /** A list with a component that is never mapped is read as a rule that is never accepted, and
      no other list is rejected for its components. */
  lemma UnmappedIff(cs: seq<Component>)
    ensures ParseComponents(cs).HasUnmapped() <==>
            || HasNumeric(cs, GenericPort) || HasNumeric(cs, PacketLen) || HasNumeric(cs, Dscp) || HasNumeric(cs, Label)
            || Other in cs || (LastBitmask(cs, Fragment).Some? && LastBitmask(cs, Fragment).value != [])
  {
    ParseIs(cs, GenericPort, Fragment);
    ParseIs(cs, PacketLen, Fragment);
    ParseIs(cs, Dscp, Fragment);
    ParseIs(cs, Label, Fragment);
  }

  /** Reading back an encoded rule, whatever bits the library added, returns its match if and
      only if the rule has nothing the encoder leaves out: no unmapped component and, for IPv4,
      no prefix offset. */
  lemma RoundTripIff(r: Rule, wire: seq<Component>)
    requires EncodeNLRI(r).Some? && StampedAll(EncodeNLRI(r).value, wire)
    ensures ParseComponents(wire) == r.match_ <==>
            !r.match_.HasUnmapped() && (r.family.IPv4? ==> T.OffsetOk(r.match_.dst) && T.OffsetOk(r.match_.src))
  {
    ParseStamped(T.EMPTY_MATCH, Components(r), wire);
    ParsedIsCarried(r);
  }
}
