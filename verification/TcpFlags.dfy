/** TCP-flag lists reduced to a value and mask pair. */
module TcpFlags {
  import opened FlowSpec

  datatype FlagMatch = FlagMatch(value: Octet, mask: Octet)
  {
    predicate Accepts(flags: Octet) { flags * mask == value }
  }

  /** The bits a list requires set and requires clear. */
  datatype Bits = Bits(set_: Octet, clear: Octet)

  /** One item folded into the accumulated bits, or `None` when it cannot be. */
  function FoldItem(acc: Bits, t: BitTest): (r: Option<Bits>)
  {
    var bits := t.value;
    if !InOctet(bits) || bits == {} || (t.match_ == t.neg && |bits| != 1) then None
    else
      var acc' := if t.neg then acc.(clear := acc.clear + bits) else acc.(set_ := acc.set_ + bits);
      if acc'.set_ * acc'.clear != {} then None else Some(acc')
  }

  // ----- the same step on bytes -----

  function Mask(i: nat): (m: bv8)
    requires i < 8
  {
    if i == 0 then 1 else if i == 1 then 2 else if i == 2 then 4 else if i == 3 then 8
    else if i == 4 then 16 else if i == 5 then 32 else if i == 6 then 64 else 128
  }

  /** The positions of the 1 bits of a byte. */
  function Positions(b: bv8): Octet { set i | 0 <= i < 8 && b & Mask(i) != 0 }

  lemma OrPositions(a: bv8, b: bv8)
    ensures Positions(a | b) == Positions(a) + Positions(b)
  {
    forall i | 0 <= i < 8 ensures (a | b) & Mask(i) != 0 <==> a & Mask(i) != 0 || b & Mask(i) != 0 {
      BitOr(a, b, Mask(i));
    }
  }

  lemma BitOr(a: bv8, b: bv8, m: bv8)
    ensures (a | b) & m != 0 <==> a & m != 0 || b & m != 0
  {
  }

  lemma NoPositions(b: bv8)
    ensures b == 0 <==> Positions(b) == {}
  {
    if Positions(b) == {} {
      forall i | 0 <= i < 8 ensures b & Mask(i) == 0 {
        assert i !in Positions(b);
      }
      assert b & Mask(0) == 0 && b & Mask(1) == 0 && b & Mask(2) == 0 && b & Mask(3) == 0;
      assert b & Mask(4) == 0 && b & Mask(5) == 0 && b & Mask(6) == 0 && b & Mask(7) == 0;
    }
  }

  lemma AndPositions(a: bv8, b: bv8)
    ensures Positions(a & b) == Positions(a) * Positions(b)
  {
    forall i | 0 <= i < 8 ensures (a & b) & Mask(i) != 0 <==> a & Mask(i) != 0 && b & Mask(i) != 0 {
    }
  }

  lemma SinglePosition(b: bv8, k: nat)
    requires k < 8
    ensures b == Mask(k) <==> Positions(b) == {k}
  {
    if Positions(b) == {k} {
      forall i | 0 <= i < 8 ensures b & Mask(i) != 0 <==> i == k {
        assert i in Positions(b) <==> i == k;
      }
      assert (b & Mask(0) != 0 <==> 0 == k) && (b & Mask(1) != 0 <==> 1 == k);
      assert (b & Mask(2) != 0 <==> 2 == k) && (b & Mask(3) != 0 <==> 3 == k);
      assert (b & Mask(4) != 0 <==> 4 == k) && (b & Mask(5) != 0 <==> 5 == k);
      assert (b & Mask(6) != 0 <==> 6 == k) && (b & Mask(7) != 0 <==> 7 == k);
    }
  }

  lemma PowerOfTwo(b: bv8)
    requires b != 0
    ensures b & (b - 1) == 0 <==> exists k | 0 <= k < 8 :: b == Mask(k)
  {
    assert b & (b - 1) == 0 <==>
           b == Mask(0) || b == Mask(1) || b == Mask(2) || b == Mask(3) ||
           b == Mask(4) || b == Mask(5) || b == Mask(6) || b == Mask(7);
  }

  /** The test `bits & (bits-1) == 0` on a nonzero byte says that it has one position. */
  lemma OneBitTrick(bits: bv8)
    requires bits != 0
    ensures bits & (bits - 1) == 0 <==> |Positions(bits)| == 1
  {
    PowerOfTwo(bits);
    if k :| 0 <= k < 8 && bits == Mask(k) {
      SinglePosition(bits, k);
    }
    if |Positions(bits)| == 1 {
      var k :| k in Positions(bits);
      assert |Positions(bits) - {k}| == 0;
      SinglePosition(bits, k);
    }
  }

  /** The loop body on bytes: the bits required set and clear after one more item. */
  function FoldByte(setBits: bv8, clearBits: bv8, neg: bool, match_: bool, bits: bv8): (r: Option<(bv8, bv8)>)
  {
    if bits == 0 then None
    else
      var oneBit := bits & (bits - 1) == 0;
      if match_ && !neg then Checked(setBits | bits, clearBits)
      else if match_ && neg then if !oneBit then None else Checked(setBits, clearBits | bits)
      else if !match_ && !neg then if !oneBit then None else Checked(setBits | bits, clearBits)
      else Checked(setBits, clearBits | bits)
  }

  function Checked(setBits: bv8, clearBits: bv8): Option<(bv8, bv8)>
  {
    if setBits & clearBits != 0 then None else Some((setBits, clearBits))
  }

  /** Pairs of bytes as pairs of position sets. */
  function AsBits(acc: Option<(bv8, bv8)>): Option<Bits>
  {
    match acc
    case None => None
    case Some((s, c)) => Some(Bits(Positions(s), Positions(c)))
  }

  lemma CheckedMeaning(s: bv8, c: bv8, ps: Octet, pc: Octet)
    requires ps == Positions(s) && pc == Positions(c)
    ensures AsBits(Checked(s, c)) == if ps * pc != {} then None else Some(Bits(ps, pc))
  {
    AndPositions(s, c);
    NoPositions(s & c);
  }

  /** On bytes and on their positions the loop body is the same step. */
  lemma FoldByteIsFoldItem(setBits: bv8, clearBits: bv8, neg: bool, match_: bool, bits: bv8)
    ensures AsBits(FoldByte(setBits, clearBits, neg, match_, bits)) ==
            FoldItem(Bits(Positions(setBits), Positions(clearBits)), BitTest(neg, match_, Positions(bits)))
  {
    NoPositions(bits);
    if bits != 0 {
      OneBitTrick(bits);
      var ps, pc, pb := Positions(setBits), Positions(clearBits), Positions(bits);
      if neg {
        OrPositions(clearBits, bits);
        CheckedMeaning(setBits, clearBits | bits, ps, pc + pb);
      } else {
        OrPositions(setBits, bits);
        CheckedMeaning(setBits | bits, clearBits, ps + pb, pc);
      }
    }
  }

  function FoldItems(ops: seq<BitmaskOp>): (r: Option<Bits>)
  {
    if ops == [] then Some(Bits({}, {}))
    else
      var last := ops[|ops| - 1];
      var acc := FoldItems(ops[..|ops| - 1]);
      if acc.None? || (|ops| > 1 && !last.and) then None else FoldItem(acc.value, last.cond)
  }

  function FlagsOf(ops: seq<BitmaskOp>): (r: Result<Option<FlagMatch>>)
  {
    if ops == [] then Ok(None)
    else
      match FoldItems(ops)
      case None => Err(UnsupportedExpression)
      case Some(b) => Ok(Some(FlagMatch(b.set_, b.set_ + b.clear)))
  }

  predicate BitsHold(b: Bits, flags: Octet) { b.set_ <= flags && flags * b.clear == {} }

  /** A single listed bit is hit by "any" exactly when it is hit by "all". */
  lemma AnyIsAll(flags: Octet, bits: Octet)
    requires |bits| == 1
    ensures flags * bits != {} <==> bits <= flags
  {
    var b :| b in bits;
    assert |bits - {b}| == 0;
    assert bits == {b};
  }

  lemma FoldItemMeaning(acc: Bits, t: BitTest, flags: Octet)
    requires FoldItem(acc, t).Some?
    ensures BitsHold(FoldItem(acc, t).value, flags) <==> BitsHold(acc, flags) && t.Holds(flags)
    ensures FoldItem(acc, t).value.set_ * FoldItem(acc, t).value.clear == {}
  {
    if t.match_ == t.neg {
      AnyIsAll(flags, t.value);
    }
    assert flags * (acc.clear + t.value) == flags * acc.clear + flags * t.value;
  }

  lemma {:induction false} FoldItemsMeaning(ops: seq<BitmaskOp>, flags: Octet)
    requires FoldItems(ops).Some?
    ensures BitsHold(FoldItems(ops).value, flags) <==> forall op | op in ops :: op.cond.Holds(flags)
    ensures FoldItems(ops).value.set_ * FoldItems(ops).value.clear == {}
    ensures forall i | 1 <= i < |ops| :: ops[i].and
  {
    if ops != [] {
      var init, last := ops[..|ops| - 1], ops[|ops| - 1];
      assert ops == init + [last];
      FoldItemsMeaning(init, flags);
      FoldItemMeaning(FoldItems(init).value, last.cond, flags);
      assert forall i | 1 <= i < |init| :: ops[i] == init[i];
    }
  }

  lemma MaskMeaning(b: Bits, flags: Octet)
    requires b.set_ * b.clear == {}
    ensures FlagMatch(b.set_, b.set_ + b.clear).Accepts(flags) <==> BitsHold(b, flags)
  {
    assert flags * (b.set_ + b.clear) == flags * b.set_ + flags * b.clear;
    if flags * (b.set_ + b.clear) == b.set_ {
      assert flags * b.clear <= b.set_ * b.clear;
    }
  }

  /** An accepted list means exactly its value and mask. */
  lemma FlagsOfMeaning(ops: seq<BitmaskOp>, flags: Octet)
    requires ops != [] && FlagsOf(ops).Ok?
    ensures FlagsOf(ops).value.Some?
    ensures FlagsOf(ops).value.value.Accepts(flags) <==> BitmaskHolds(ops, flags)
  {
    FoldItemsMeaning(ops, flags);
    MaskMeaning(FoldItems(ops).value, flags);
    AndListIsOneTerm(ops);
    var t := Terms(ops)[0];
    assert Terms(ops) == [t];
    if BitmaskHolds(ops, flags) {
      forall op | op in ops ensures op.cond.Holds(flags) {
        var i :| 0 <= i < |ops| && ops[i] == op;
        assert t[i] == op.cond;
      }
    }
    if forall op | op in ops :: op.cond.Holds(flags) {
      forall c | c in t ensures c.Holds(flags) {
        var i :| 0 <= i < |t| && t[i] == c;
        assert ops[i] in ops;
      }
      assert t in Terms(ops);
    }
  }

  lemma {:induction false} FoldItemsPrefix(ops: seq<BitmaskOp>, n: nat)
    requires n <= |ops| && FoldItems(ops[..n]).None?
    ensures FoldItems(ops).None?
  {
    if n < |ops| {
      assert ops[..|ops| - 1][..n] == ops[..n];
      FoldItemsPrefix(ops[..|ops| - 1], n);
    } else {
      assert ops[..n] == ops;
    }
  }

  lemma FoldItemsStep(ops: seq<BitmaskOp>, i: nat)
    requires i < |ops| && FoldItems(ops[..i]).Some?
    ensures FoldItems(ops[..i + 1]) ==
            if i > 0 && !ops[i].and then None else FoldItem(FoldItems(ops[..i]).value, ops[i].cond)
  {
    assert ops[..i + 1][..i] == ops[..i];
  }

  /** An item one value and mask pair can carry: known bits only, and "all of these set" or
      "none of these set" rather than "any" or "not all", which differ beyond a single bit. */
  predicate Mappable(t: BitTest)
  {
    InOctet(t.value) && t.value != {} && (t.match_ == t.neg ==> |t.value| == 1)
  }

  /** A value and mask pair that says what the item says. */
  ghost predicate Carries(m: FlagMatch, t: BitTest) { forall flags: Octet :: m.Accepts(flags) <==> t.Holds(flags) }

  /** No such pair says "some bit" or "not every bit" of two. */
  lemma TwoBitsNotCarried(t: BitTest, m: FlagMatch, a: nat, b: nat)
    requires InOctet(t.value) && t.match_ == t.neg && a in t.value && b in t.value && a != b
    ensures !Carries(m, t)
  {
    var none: Octet, all: Octet := {}, t.value;
    var x: Octet, y: Octet := if t.neg then all - {a} else {a}, if t.neg then all - {b} else {b};
    if Carries(m, t) {
      assert t.Holds(x) && t.Holds(y) by {
        assert !t.neg ==> a in x * all && b in y * all;
        assert t.neg ==> a !in x && b !in y;
      }
      assert m.Accepts(x) && m.Accepts(y);
      if t.neg {
        assert t.Holds(none) by { assert a !in none; }
        assert m.Accepts(none);
        assert m.value == {} && a !in m.mask && b !in m.mask by {
          assert none * m.mask == {};
          assert b in x && a in y;
          assert m.mask * x == {} && m.mask * y == {};
        }
        assert all * m.mask == {} by {
          forall i | i in all ensures i !in m.mask {
            assert i in x || i in y;
            assert i in x ==> i !in x * m.mask;
            assert i in y ==> i !in y * m.mask;
          }
        }
        assert m.Accepts(all) && !t.Holds(all);
      } else {
        assert a !in m.value && m.value == {} by {
          assert m.value <= {a} && m.value <= {b};
        }
        assert none * m.mask == {};
        assert none * all == {};
        assert m.Accepts(none) && !t.Holds(none);
      }
    }
  }

  /** That is what can be carried at all: of the nonempty tests on known bits, the mappable ones
      are exactly those some value and mask pair expresses. */
  lemma MappableIff(t: BitTest)
    requires InOctet(t.value) && t.value != {}
    ensures Mappable(t) <==> exists m :: Carries(m, t)
  {
    var none: Octet := {};
    if Mappable(t) {
      var acc := FoldItem(Bits({}, {}), t).value;
      forall flags: Octet ensures FlagMatch(acc.set_, acc.set_ + acc.clear).Accepts(flags) <==> t.Holds(flags) {
        FoldItemMeaning(Bits({}, {}), t, flags);
        MaskMeaning(acc, flags);
        assert flags * none == {};
      }
      assert Carries(FlagMatch(acc.set_, acc.set_ + acc.clear), t);
    } else {
      var a :| a in t.value;
      assert t.value != {a};
      var b :| b in t.value && b != a;
      forall m ensures !Carries(m, t) {
        TwoBitsNotCarried(t, m, a, b);
      }
    }
  }

  /** Some item of the list wants bit `b` clear (`neg`) or set. */
  predicate Wants(ops: seq<BitmaskOp>, neg: bool, b: nat)
  {
    exists op | op in ops :: op.cond.neg == neg && b in op.cond.value
  }

  /** No bit is wanted both set and clear. */
  ghost predicate Consistent(ops: seq<BitmaskOp>) { forall b :: !(Wants(ops, false, b) && Wants(ops, true, b)) }

  lemma WantsSnoc(init: seq<BitmaskOp>, last: BitmaskOp, neg: bool, b: nat)
    ensures Wants(init + [last], neg, b) <==> Wants(init, neg, b) || (last.cond.neg == neg && b in last.cond.value)
  {
    assert last in init + [last];
    if op :| op in init && op.cond.neg == neg && b in op.cond.value {
      assert op in init + [last];
    }
  }

  /** The accumulated bits are exactly the wanted ones. */
  lemma {:induction false} FoldItemsBits(ops: seq<BitmaskOp>, b: nat)
    requires FoldItems(ops).Some?
    ensures b in FoldItems(ops).value.set_ <==> Wants(ops, false, b)
    ensures b in FoldItems(ops).value.clear <==> Wants(ops, true, b)
  {
    if ops != [] {
      var init, last := ops[..|ops| - 1], ops[|ops| - 1];
      assert ops == init + [last];
      FoldItemsBits(init, b);
      WantsSnoc(init, last, false, b);
      WantsSnoc(init, last, true, b);
    }
  }

  lemma ClashIff(init: seq<BitmaskOp>, last: BitmaskOp)
    requires FoldItems(init).Some? && Mappable(last.cond)
    ensures FoldItem(FoldItems(init).value, last.cond).Some? <==> Consistent(init + [last])
  {
    var acc, t := FoldItems(init).value, last.cond;
    var all := if t.neg then acc.(clear := acc.clear + t.value) else acc.(set_ := acc.set_ + t.value);
    forall b: nat
      ensures b in all.set_ <==> Wants(init + [last], false, b)
      ensures b in all.clear <==> Wants(init + [last], true, b)
    {
      FoldItemsBits(init, b);
      WantsSnoc(init, last, false, b);
      WantsSnoc(init, last, true, b);
    }
    if b :| b in all.set_ * all.clear {
      assert Wants(init + [last], false, b) && Wants(init + [last], true, b);
    }
    assert forall b :: Wants(init + [last], false, b) && Wants(init + [last], true, b) ==> b in all.set_ * all.clear;
  }

  predicate AllMappable(ops: seq<BitmaskOp>) { forall op | op in ops :: Mappable(op.cond) }

  predicate OneAndTerm<T>(ops: seq<Item<T>>) { forall i | 1 <= i < |ops| :: ops[i].and }

  lemma ShapeSnoc(init: seq<BitmaskOp>, last: BitmaskOp)
    ensures OneAndTerm(init + [last]) <==> OneAndTerm(init) && (init != [] ==> last.and)
    ensures AllMappable(init + [last]) <==> AllMappable(init) && Mappable(last.cond)
  {
    var ops := init + [last];
    assert last == ops[|init|] && forall i | 0 <= i < |init| :: ops[i] == init[i];
    assert last in ops && forall op | op in init :: op in ops;
  }

  lemma ConsistentInit(init: seq<BitmaskOp>, last: BitmaskOp)
    ensures Consistent(init + [last]) ==> Consistent(init)
  {
    forall b | Wants(init, false, b) && Wants(init, true, b) ensures !Consistent(init + [last]) {
      WantsSnoc(init, last, false, b);
      WantsSnoc(init, last, true, b);
    }
  }

  /** A list is accepted exactly when it is one AND term of mappable items that want no bit both
      set and clear. */
  lemma {:induction false} FoldItemsIff(ops: seq<BitmaskOp>)
    ensures FoldItems(ops).Some? <==> OneAndTerm(ops) && AllMappable(ops) && Consistent(ops)
  {
    if ops != [] {
      var init, last := ops[..|ops| - 1], ops[|ops| - 1];
      assert ops == init + [last];
      FoldItemsIff(init);
      ShapeSnoc(init, last);
      ConsistentInit(init, last);
      if FoldItems(init).Some? && Mappable(last.cond) {
        ClashIff(init, last);
      }
    }
  }

  method ReduceTCPFlags(ops: seq<BitmaskOp>) returns (r: Result<Option<FlagMatch>>)
    ensures r == FlagsOf(ops)
  {
    if |ops| == 0 {
      return Ok(None);
    }
    var acc := Bits({}, {});
    for i := 0 to |ops|
      invariant FoldItems(ops[..i]) == Some(acc)
    {
      FoldItemsStep(ops, i);
      if i > 0 && !ops[i].and {
        FoldItemsPrefix(ops, i + 1);
        return Err(UnsupportedExpression);
      }
      var next := FoldItem(acc, ops[i].cond);
      if next.None? {
        FoldItemsPrefix(ops, i + 1);
        return Err(UnsupportedExpression);
      }
      acc := next.value;
    }
    assert ops[..|ops|] == ops;
    return Ok(Some(FlagMatch(acc.set_, acc.set_ + acc.clear)));
  }
}
