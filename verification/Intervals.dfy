/**
  Port lists as sets of inclusive intervals. `ReduceRange` works through an interval algebra;
  its specification `RangeOf` speaks only of the numbers a list accepts.
 */
module Intervals {
  import opened FlowSpec

  datatype Interval = Interval(lo: nat, hi: nat)

  predicate Member(s: seq<Interval>, v: nat)
  {
    exists iv | iv in s :: iv.lo <= v <= iv.hi
  }

  predicate Proper(s: seq<Interval>, max: nat)
  {
    forall iv | iv in s :: iv.lo <= iv.hi <= max
  }

  /** Sorted, disjoint and non-adjacent. */
  predicate Canonical(s: seq<Interval>, max: nat)
  {
    && Proper(s, max)
    && forall i, j | 0 <= i < j < |s| :: s[i].hi + 1 < s[j].lo
  }

  ghost predicate SameSet(a: seq<Interval>, b: seq<Interval>)
  {
    forall v: nat :: Member(a, v) <==> Member(b, v)
  }

  lemma MemberAppend(s: seq<Interval>, iv: Interval, v: nat)
    ensures Member(s + [iv], v) <==> Member(s, v) || iv.lo <= v <= iv.hi
  {
    assert iv in s + [iv];
    if x :| x in s && x.lo <= v <= x.hi {
      assert x in s + [iv];
    }
  }

  lemma MemberConcat(a: seq<Interval>, b: seq<Interval>, v: nat)
    ensures Member(a + b, v) <==> Member(a, v) || Member(b, v)
  {
    if x :| x in a && x.lo <= v <= x.hi { assert x in a + b; }
    if x :| x in b && x.lo <= v <= x.hi { assert x in a + b; }
  }

  /** A canonical list is determined by its numbers. */
  lemma {:induction false} CanonicalUnique(a: seq<Interval>, b: seq<Interval>, max: nat)
    requires Canonical(a, max) && Canonical(b, max) && SameSet(a, b)
    ensures a == b
  {
    if a == [] || b == [] {
      assert a != [] ==> a[0] in a && Member(a, a[0].lo);
      assert b != [] ==> b[0] in b && Member(b, b[0].lo);
    } else {
      HeadsSame(a, b, max);
      TailsSame(a, b, max);
      CanonicalUnique(a[1..], b[1..], max);
      assert a == [a[0]] + a[1..] && b == [b[0]] + b[1..];
    }
  }

  lemma HeadsSame(a: seq<Interval>, b: seq<Interval>, max: nat)
    requires Canonical(a, max) && Canonical(b, max) && SameSet(a, b) && a != [] && b != []
    ensures a[0] == b[0]
  {
    FirstLoLe(a, b, max);
    FirstLoLe(b, a, max);
    FirstHiLe(a, b, max);
    FirstHiLe(b, a, max);
  }

  lemma TailsSame(a: seq<Interval>, b: seq<Interval>, max: nat)
    requires Canonical(a, max) && Canonical(b, max) && SameSet(a, b) && a != [] && b != [] && a[0] == b[0]
    ensures SameSet(a[1..], b[1..]) && Canonical(a[1..], max) && Canonical(b[1..], max)
  {
    forall v: nat ensures Member(a[1..], v) <==> Member(b[1..], v) {
      TailMember(a, max, v);
      TailMember(b, max, v);
      assert Member(a, v) <==> Member(b, v);
    }
  }

  lemma FirstLoLe(a: seq<Interval>, b: seq<Interval>, max: nat)
    requires Canonical(a, max) && Canonical(b, max) && SameSet(a, b) && a != [] && b != []
    ensures b[0].lo <= a[0].lo
  {
    assert a[0] in a && Member(a, a[0].lo);
    assert Member(b, a[0].lo);
    var iv :| iv in b && iv.lo <= a[0].lo <= iv.hi;
    var k :| 0 <= k < |b| && b[k] == iv;
    assert k == 0 || b[0].hi + 1 < b[k].lo;
    assert b[0] in b;
  }

  /** The number just past the first interval is left out. */
  lemma GapNotMember(s: seq<Interval>, max: nat)
    requires Canonical(s, max) && s != []
    ensures !Member(s, s[0].hi + 1)
  {
    forall iv | iv in s ensures !(iv.lo <= s[0].hi + 1 <= iv.hi) {
      var k :| 0 <= k < |s| && s[k] == iv;
      assert k == 0 || s[0].hi + 1 < s[k].lo;
    }
  }

  lemma FirstHiLe(a: seq<Interval>, b: seq<Interval>, max: nat)
    requires Canonical(a, max) && Canonical(b, max) && SameSet(a, b) && a != [] && b != []
    requires a[0].lo == b[0].lo
    ensures a[0].hi <= b[0].hi
  {
    GapNotMember(b, max);
    assert Member(a, b[0].hi + 1) <==> Member(b, b[0].hi + 1);
    assert a[0] in a && b[0] in b;
  }

  lemma TailMember(a: seq<Interval>, max: nat, v: nat)
    requires Canonical(a, max) && a != []
    ensures Member(a[1..], v) <==> Member(a, v) && v > a[0].hi
  {
    if x :| x in a[1..] && x.lo <= v <= x.hi {
      var k :| 0 <= k < |a[1..]| && a[1..][k] == x;
      assert a[k + 1] == x && a[0].hi + 1 < a[k + 1].lo;
    }
    if x :| x in a && x.lo <= v <= x.hi && v > a[0].hi {
      assert x in a[1..];
    }
  }

  // ----- one operator -----

  function OpToSet(c: Comparison, max: nat): (r: Result<seq<Interval>>)
  {
    var v := c.value;
    if !c.lt && !c.gt && !c.eq then Ok([Interval(0, max)])
    else if c.lt && c.gt && c.eq then Ok([])
    else if v > max then Err(UnsupportedExpression)
    else if c.eq && !c.lt && !c.gt then Ok([Interval(v, v)])
    else if c.gt && !c.eq && !c.lt then
      if v >= max then Ok([]) else Ok([Interval(v + 1, max)])
    else if c.lt && !c.eq && !c.gt then
      if v == 0 then Ok([]) else Ok([Interval(0, v - 1)])
    else if c.gt && c.eq && !c.lt then Ok([Interval(v, max)])
    else if c.lt && c.eq && !c.gt then Ok([Interval(0, v)])
    else
      Ok((if v > 0 then [Interval(0, v - 1)] else []) +
         (if v < max then [Interval(v + 1, max)] else []))
  }

  predicate OperandFits(c: Comparison, max: nat) { c.IsComparison() ==> c.value <= max }

  /** One operator denotes exactly its numbers, and fails only on an operand out of range. */
  lemma OpToSetMeaning(c: Comparison, max: nat)
    ensures OpToSet(c, max).Ok? <==> OperandFits(c, max)
    ensures OpToSet(c, max).Err? ==> OpToSet(c, max).reason == UnsupportedExpression
    ensures OpToSet(c, max).Ok? ==> Canonical(OpToSet(c, max).value, max)
    ensures OpToSet(c, max).Ok? ==>
              forall v: nat | v <= max :: Member(OpToSet(c, max).value, v) <==> c.Holds(v)
  {
    if OpToSet(c, max).Ok? {
      var s := OpToSet(c, max).value;
      forall v: nat | v <= max ensures Member(s, v) <==> c.Holds(v) {
        assert forall i | 0 <= i < |s| :: s[i] in s;
      }
    }
  }

  // ----- the algebra -----

  predicate Precedes(a: Interval, b: Interval) { a.lo < b.lo || (a.lo == b.lo && a.hi <= b.hi) }

  predicate Sorted(s: seq<Interval>) { forall i, j | 0 <= i < j < |s| :: Precedes(s[i], s[j]) }

  function Insert(s: seq<Interval>, iv: Interval): (r: seq<Interval>)
    requires Sorted(s)
    ensures Sorted(r) && |r| == |s| + 1
    ensures forall x :: x in r <==> x in s || x == iv
  {
    if s == [] then [iv]
    else if Precedes(iv, s[0]) then [iv] + s
    else
      var rest := Insert(s[1..], iv);
      assert s == [s[0]] + s[1..];
      assert forall x | x in s[1..] :: Precedes(s[0], x);
      assert forall k | 0 <= k < |rest| :: rest[k] in rest;
      [s[0]] + rest
  }

  function SortIntervals(s: seq<Interval>): (r: seq<Interval>)
    ensures Sorted(r) && |r| == |s|
    ensures forall x :: x in r <==> x in s
  {
    if s == [] then []
    else
      assert s == s[..|s| - 1] + [s[|s| - 1]];
      Insert(SortIntervals(s[..|s| - 1]), s[|s| - 1])
  }

  /** One merge step: a touching interval widens the last one, any other is appended. */
  lemma MergeStep(out: seq<Interval>, iv: Interval, out': seq<Interval>, max: nat)
    requires out != [] && Canonical(out, max) && iv.lo <= iv.hi <= max
    requires out[|out| - 1].lo <= iv.lo
    requires var last := out[|out| - 1];
             out' == if iv.lo <= last.hi + 1
                     then out[|out| - 1 := Interval(last.lo, if iv.hi > last.hi then iv.hi else last.hi)]
                     else out + [iv]
    ensures out' != [] && Canonical(out', max) && out'[|out'| - 1].lo <= iv.lo
    ensures forall v: nat :: Member(out', v) <==> Member(out, v) || iv.lo <= v <= iv.hi
  {
    var init, last := out[..|out| - 1], out[|out| - 1];
    assert last in out && out == init + [last];
    forall v: nat ensures Member(out', v) <==> Member(out, v) || iv.lo <= v <= iv.hi {
      if iv.lo <= last.hi + 1 {
        var wide := Interval(last.lo, if iv.hi > last.hi then iv.hi else last.hi);
        assert out' == init + [wide];
        MemberAppend(init, last, v);
        MemberAppend(init, wide, v);
      } else {
        MemberAppend(out, iv, v);
      }
    }
  }

  /** The canonical form of the same set. */
  method Normalize(s: seq<Interval>, ghost max: nat) returns (out: seq<Interval>)
    requires Proper(s, max)
    ensures Canonical(out, max) && SameSet(out, s)
  {
    if |s| == 0 {
      return [];
    }
    var cp := SortIntervals(s);
    assert Proper(cp, max);
    out := [cp[0]];
    assert cp[..1] == out && cp[0] in cp;
    for i := 1 to |cp|
      invariant out != [] && Canonical(out, max) && out[|out| - 1].lo <= cp[i - 1].lo
      invariant SameSet(out, cp[..i])
    {
      var iv, last := cp[i], out[|out| - 1];
      assert iv in cp && Precedes(cp[i - 1], cp[i]);
      ghost var before := out;
      if iv.lo <= last.hi || iv.lo == last.hi + 1 {
        if iv.hi > last.hi {
          out := out[|out| - 1 := Interval(last.lo, iv.hi)];
        }
      } else {
        out := out + [iv];
      }
      assert before[|before| - 1 := last] == before;
      MergeStep(before, iv, out, max);
      forall v: nat ensures Member(out, v) <==> Member(cp[..i + 1], v) {
        assert cp[..i + 1] == cp[..i] + [iv];
        MemberAppend(cp[..i], iv, v);
        assert Member(before, v) <==> Member(cp[..i], v);
      }
    }
    assert cp[..|cp|] == cp;
  }

  method UnionSets(a: seq<Interval>, b: seq<Interval>, ghost max: nat) returns (out: seq<Interval>)
    requires Proper(a, max) && Proper(b, max)
    ensures Canonical(out, max)
    ensures forall v: nat :: Member(out, v) <==> Member(a, v) || Member(b, v)
  {
    out := Normalize(a + b, max);
    forall v: nat ensures Member(out, v) <==> Member(a, v) || Member(b, v) {
      MemberConcat(a, b, v);
      assert Member(out, v) <==> Member(a + b, v);
    }
  }

  method IntersectSets(a: seq<Interval>, b: seq<Interval>, ghost max: nat) returns (out: seq<Interval>)
    requires Proper(a, max) && Proper(b, max)
    ensures Canonical(out, max)
    ensures forall v: nat :: Member(out, v) <==> Member(a, v) && Member(b, v)
  {
    var acc: seq<Interval> := [];
    for i := 0 to |a|
      invariant Proper(acc, max)
      invariant forall v: nat :: Member(acc, v) <==> Member(a[..i], v) && Member(b, v)
    {
      ghost var before := acc;
      var x := a[i];
      assert x in a;
      for j := 0 to |b|
        invariant Proper(acc, max)
        invariant forall v: nat ::
            Member(acc, v) <==> Member(before, v) || (x.lo <= v <= x.hi && Member(b[..j], v))
      {
        var y := b[j];
        assert y in b;
        ghost var prev := acc;
        var lo := if y.lo > x.lo then y.lo else x.lo;
        var hi := if y.hi < x.hi then y.hi else x.hi;
        if lo <= hi {
          acc := acc + [Interval(lo, hi)];
        }
        forall v: nat
          ensures Member(acc, v) <==> Member(before, v) || (x.lo <= v <= x.hi && Member(b[..j + 1], v))
        {
          assert b[..j + 1] == b[..j] + [y];
          MemberAppend(b[..j], y, v);
          MemberAppend(prev, Interval(lo, hi), v);
        }
      }
      assert b[..|b|] == b;
      forall v: nat ensures Member(acc, v) <==> Member(a[..i + 1], v) && Member(b, v) {
        assert a[..i + 1] == a[..i] + [x];
        MemberAppend(a[..i], x, v);
      }
    }
    assert a[..|a|] == a;
    out := Normalize(acc, max);
  }

  // ----- whole lists -----

  predicate TermHolds(t: seq<Comparison>, v: nat) { forall c | c in t :: c.Holds(v) }

  predicate AnyTermHolds(ts: seq<seq<Comparison>>, v: nat) { exists t | t in ts :: TermHolds(t, v) }

  lemma TermAppend(t: seq<Comparison>, c: Comparison, v: nat)
    ensures TermHolds(t + [c], v) <==> TermHolds(t, v) && c.Holds(v)
  {
    assert c in t + [c];
    assert forall x | x in t :: x in t + [c];
  }

  lemma AnyTermAppend(ts: seq<seq<Comparison>>, t: seq<Comparison>, v: nat)
    ensures AnyTermHolds(ts + [t], v) <==> AnyTermHolds(ts, v) || TermHolds(t, v)
  {
    assert t in ts + [t];
    if x :| x in ts && TermHolds(x, v) {
      assert x in ts + [t];
    }
  }

  /** The list accepts exactly the numbers of `iv` within [0, max]. */
  ghost predicate IsExactly(ops: seq<NumericOp>, max: nat, iv: Interval)
  {
    && iv.lo <= iv.hi <= max
    && forall v: nat | v <= max :: NumericHolds(ops, v) <==> iv.lo <= v <= iv.hi
  }

  predicate OperandsFit(ops: seq<NumericOp>, max: nat)
  {
    forall op | op in ops :: OperandFits(op.cond, max)
  }

  /** What a port list must reduce to: its accepted set, when that is one nonempty interval. */
  ghost function RangeOf(ops: seq<NumericOp>, max: nat): (r: Result<Interval>)
  {
    if ops == [] then Ok(Interval(0, max))
    else if OperandsFit(ops, max) && exists iv :: IsExactly(ops, max, iv) then
      var iv :| IsExactly(ops, max, iv); Ok(iv)
    else Err(UnsupportedExpression)
  }

  lemma ExactUnique(ops: seq<NumericOp>, max: nat, a: Interval, b: Interval)
    requires IsExactly(ops, max, a) && IsExactly(ops, max, b)
    ensures a == b
  {
    assert NumericHolds(ops, a.lo) && NumericHolds(ops, a.hi);
    assert NumericHolds(ops, b.lo) && NumericHolds(ops, b.hi);
  }

  /** `RangeOf` succeeds with `iv` exactly when the operands fit and the list means `iv`. */
  lemma RangeOfMeaning(ops: seq<NumericOp>, max: nat, iv: Interval)
    requires ops != []
    ensures RangeOf(ops, max) == Ok(iv) <==> OperandsFit(ops, max) && IsExactly(ops, max, iv)
    ensures RangeOf(ops, max).Err? ==> RangeOf(ops, max).reason == UnsupportedExpression
  {
    if OperandsFit(ops, max) && exists x :: IsExactly(ops, max, x) {
      var x := RangeOf(ops, max).value;
      assert IsExactly(ops, max, x);
      if IsExactly(ops, max, iv) {
        ExactUnique(ops, max, x, iv);
      }
    }
  }

  /** A canonical set with the list's numbers decides `RangeOf`. */
  lemma CanonicalDecides(ops: seq<NumericOp>, max: nat, s: seq<Interval>)
    requires ops != [] && OperandsFit(ops, max) && Canonical(s, max)
    requires forall v: nat | v <= max :: NumericHolds(ops, v) <==> Member(s, v)
    ensures RangeOf(ops, max) == if |s| == 1 then Ok(s[0]) else Err(UnsupportedExpression)
  {
    assert forall i | 0 <= i < |s| :: s[i] in s;
    if |s| == 1 {
      assert IsExactly(ops, max, s[0]);
      RangeOfMeaning(ops, max, s[0]);
    } else if iv :| IsExactly(ops, max, iv) {
      assert NumericHolds(ops, iv.lo);
      assert Member(s, iv.lo);
      assert s != [];
      assert Member(s, s[0].hi) && Member(s, s[1].lo);
      assert NumericHolds(ops, s[0].hi) && NumericHolds(ops, s[1].lo);
      GapNotMember(s, max);
      assert false;
    }
  }

  /** Sound and complete: the list's exact range, or an error when it has none. */
  method ReduceRange(ops: seq<NumericOp>, max: nat) returns (r: Result<Interval>)
    ensures r == RangeOf(ops, max)
  {
    if |ops| == 0 {
      return Ok(Interval(0, max));
    }
    var result: seq<Interval> := [];
    var cur: seq<Interval> := [];
    var curStarted := false;
    for i := 0 to |ops|
      invariant OperandsFit(ops[..i], max)
      invariant Canonical(result, max) && Canonical(cur, max)
      invariant curStarted == (i > 0)
      invariant i == 0 ==> result == []
      invariant i > 0 ==> ListDenotes(ops[..i], result, cur, max)
    {
      var op := ops[i];
      assert ops[..i + 1] == ops[..i] + [op];
      var set_ := OpToSet(op.cond, max);
      OpToSetMeaning(op.cond, max);
      if set_.Err? {
        assert op in ops && !OperandFits(op.cond, max);
        return Err(UnsupportedExpression);
      }
      ghost var result0, cur0 := result, cur;
      if i > 0 && !op.and {
        result := UnionSets(result, cur, max);
        cur := [];
        curStarted := false;
      }
      if !curStarted {
        cur := set_.value;
        curStarted := true;
      } else {
        cur := IntersectSets(cur, set_.value, max);
      }
      if i == 0 {
        assert ops[..1] == [op];
        OneTerm([op]);
        ListDenotesFirst(op, cur, max);
      } else if !op.and {
        ListDenotesOr(ops[..i], op, result0, cur0, result, cur, max);
      } else {
        ListDenotesAnd(ops[..i], op, result, cur0, cur, max);
      }
    }
    assert ops[..|ops|] == ops;
    ghost var result0, cur0 := result, cur;
    result := UnionSets(result, cur, max);
    ListDenotesAll(ops, result0, cur0, result, max);
    ghost var before := result;
    result := Normalize(result, max);
    CanonicalUnique(before, result, max);
    CanonicalDecides(ops, max, result);
    if |result| == 0 {
      return Err(UnsupportedExpression);
    }
    if |result| != 1 {
      return Err(UnsupportedExpression);
    }
    return Ok(result[0]);
  }

  /** `result` holds the closed terms and `cur` the open one. */
  ghost predicate ListDenotes(ops: seq<NumericOp>, result: seq<Interval>, cur: seq<Interval>, max: nat)
    requires ops != []
  {
    var ts := Terms(ops);
    && (forall v: nat | v <= max :: Member(result, v) <==> AnyTermHolds(ts[..|ts| - 1], v))
    && (forall v: nat | v <= max :: Member(cur, v) <==> TermHolds(ts[|ts| - 1], v))
  }

  lemma ListDenotesFirst(op: NumericOp, cur: seq<Interval>, max: nat)
    requires forall v: nat | v <= max :: Member(cur, v) <==> op.cond.Holds(v)
    ensures ListDenotes([op], [], cur, max)
  {
    OneTerm([op]);
    forall v: nat | v <= max ensures Member(cur, v) <==> TermHolds([op.cond], v) {
      assert op.cond in [op.cond];
    }
  }

  lemma ListDenotesOr(ops: seq<NumericOp>, op: NumericOp, result0: seq<Interval>, cur0: seq<Interval>,
                      result: seq<Interval>, cur: seq<Interval>, max: nat)
    requires ops != [] && !op.and && ListDenotes(ops, result0, cur0, max)
    requires forall v: nat :: Member(result, v) <==> Member(result0, v) || Member(cur0, v)
    requires forall v: nat | v <= max :: Member(cur, v) <==> op.cond.Holds(v)
    ensures ListDenotes(ops + [op], result, cur, max)
  {
    var ts, all := Terms(ops), Terms(ops + [op]);
    assert (ops + [op])[..|ops|] == ops;
    assert all == ts + [[op.cond]] && all[..|all| - 1] == ts;
    assert ts == ts[..|ts| - 1] + [ts[|ts| - 1]];
    forall v: nat | v <= max
      ensures Member(result, v) <==> AnyTermHolds(ts, v)
      ensures Member(cur, v) <==> TermHolds([op.cond], v)
    {
      AnyTermAppend(ts[..|ts| - 1], ts[|ts| - 1], v);
      assert op.cond in [op.cond];
    }
  }

  lemma ListDenotesAnd(ops: seq<NumericOp>, op: NumericOp, result: seq<Interval>, cur0: seq<Interval>,
                       cur: seq<Interval>, max: nat)
    requires ops != [] && op.and && ListDenotes(ops, result, cur0, max)
    requires forall v: nat | v <= max :: Member(cur, v) <==> Member(cur0, v) && op.cond.Holds(v)
    ensures ListDenotes(ops + [op], result, cur, max)
  {
    var ts, all := Terms(ops), Terms(ops + [op]);
    assert (ops + [op])[..|ops|] == ops;
    var last := ts[|ts| - 1];
    assert all == ts[|ts| - 1 := last + [op.cond]];
    assert all[..|all| - 1] == ts[..|ts| - 1];
    forall v: nat | v <= max ensures Member(cur, v) <==> TermHolds(last + [op.cond], v) {
      TermAppend(last, op.cond, v);
    }
  }

  lemma ListDenotesAll(ops: seq<NumericOp>, result: seq<Interval>, cur: seq<Interval>,
                       all: seq<Interval>, max: nat)
    requires ops != [] && ListDenotes(ops, result, cur, max)
    requires forall v: nat :: Member(all, v) <==> Member(result, v) || Member(cur, v)
    ensures forall v: nat | v <= max :: NumericHolds(ops, v) <==> Member(all, v)
  {
    var ts := Terms(ops);
    assert ts == ts[..|ts| - 1] + [ts[|ts| - 1]];
    forall v: nat | v <= max ensures NumericHolds(ops, v) <==> Member(all, v) {
      AnyTermAppend(ts[..|ts| - 1], ts[|ts| - 1], v);
      assert NumericHolds(ops, v) <==> AnyTermHolds(ts, v) by {
        if t :| t in ts && TermHolds(t, v) {
          assert forall c | c in t :: c.Holds(v);
        }
        if t :| t in ts && forall c | c in t :: c.Holds(v) {
          assert TermHolds(t, v);
        }
      }
    }
  }
}
