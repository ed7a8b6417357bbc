/**
  The diversity gates of a rule: which fields they may measure, into how many regions, and which
  region a sample falls into. Every configured field yields a region its estimator takes.
 */
module SpreadFields {
  import opened Arith
  import opened FlowSpec
  import opened Detector
  import opened Regions
  import S = Spread

  datatype FieldKind = SrcAddr | DstAddr | SrcPort | DstPort
  {
    predicate IsAddr() { SrcAddr? || DstAddr? }
  }

  /** How a port is placed: in a range of `size` from `lo`, or by its remainder by `size`. */
  datatype PortPlace = PortPlace(lo: nat, size: nat, mod: bool)

  datatype SpreadField = SpreadField(kind: FieldKind, buckets: nat, family: Family, mask: int, place: PortPlace)

  /** An exact port, or a range of one, has nothing to spread across. */
  function PlaceOf(agg: PortAgg): Option<PortPlace>
    requires agg.Valid()
  {
    match agg
    case ExactPort => None
    case AllPorts => Some(PortPlace(0, 65536, false))
    case PortRange(lo, hi) => if hi - lo + 1 < 2 then None else Some(PortPlace(lo, hi - lo + 1, false))
    case PortBucket(step) => if step < 2 then None else Some(PortPlace(0, step, true))
  }

  function PortBuckets(p: PortPlace): (n: nat) { if p.size > S.MAX_BUCKETS then S.MAX_BUCKETS else p.size }

  /** One configured gate; an address needs the rule's family and an aggregate shorter than a host. */
  function CompileField(r: DetectorRule, kind: FieldKind): Option<SpreadField>
    requires r.Compiled()
  {
    var fam := if r.family.Some? then r.family.value else IPv4;
    if kind.IsAddr() then
      var mask := if kind.SrcAddr? then r.srcMask else r.dstMask;
      if r.family.None? || IpBuckets(Width(fam), mask).None? then None
      else Some(SpreadField(kind, IpBuckets(Width(fam), mask).value, fam, mask, PortPlace(0, 0, false)))
    else
      var place := PlaceOf(if kind.SrcPort? then r.srcPortAgg else r.dstPortAgg);
      if place.None? then None else Some(SpreadField(kind, PortBuckets(place.value), fam, 0, place.value))
  }

  /** Which gates a rule can have, and over how many regions: an address of a set family, kept to
      fewer bits than a host, or a port aggregate of more than one port; a region for each address
      or port, but no more than twenty. */
  lemma CompileFieldIff(r: DetectorRule, kind: FieldKind)
    requires r.Compiled()
    ensures var f := CompileField(r, kind);
            var mask := if kind.SrcAddr? then r.srcMask else r.dstMask;
            var agg := if kind.SrcPort? then r.srcPortAgg else r.dstPortAgg;
            if kind.IsAddr()
            then && (f.Some? <==> r.family.Some? && 0 <= mask < Width(r.family.value))
                 && (f.Some? ==> f.value.kind == kind && f.value.family == r.family.value && f.value.mask == mask &&
                                 f.value.buckets == Min(Pow2(Width(r.family.value) - mask), 20))
            else && (f.Some? <==> Ports(agg) > 1)
                 && (f.Some? ==> f.value.kind == kind && f.value.place.size == Ports(agg) &&
                                 f.value.buckets == Min(Ports(agg), 20))
  {
    if kind.IsAddr() && r.family.Some? {
      IpBucketsIff(Width(r.family.value), if kind.SrcAddr? then r.srcMask else r.dstMask);
      if 0 <= (if kind.SrcAddr? then r.srcMask else r.dstMask) < Width(r.family.value) {
        BucketsFit(Width(r.family.value), if kind.SrcAddr? then r.srcMask else r.dstMask);
      }
    }
  }

  /** The number of ports an aggregate takes as one. */
  function Ports(agg: PortAgg): int
  {
    match agg
    case ExactPort => 1
    case AllPorts => 65536
    case PortRange(lo, hi) => hi - lo + 1
    case PortBucket(step) => step
  }

  /** The region of a sample's field. */
  function Bucket(f: SpreadField, s: Sample): nat
    requires f.kind.IsAddr() ==> 0 <= f.mask < Width(f.family)
    requires !f.kind.IsAddr() ==> f.place.size > 0
  {
    match f.kind
    case SrcAddr => IpRegion(LayoutOf(f.family), s.src.value, f.mask, f.buckets)
    case DstAddr => IpRegion(LayoutOf(f.family), s.dst.value, f.mask, f.buckets)
    case SrcPort => PortRegion(s.srcPort, f.place.lo, f.place.size, f.place.mod, f.buckets)
    case DstPort => PortRegion(s.dstPort, f.place.lo, f.place.size, f.place.mod, f.buckets)
  }

  /** For every configured field and matching sample: the addresses are of the field's family,
      and the region is one the field's estimator takes. */
  lemma BucketInRange(r: DetectorRule, kind: FieldKind, s: Sample)
    requires r.Compiled() && CompileField(r, kind).Some? && Matches(r, s)
    ensures var f := CompileField(r, kind).value;
            && (kind.IsAddr() ==> 0 <= f.mask < Width(f.family) && s.src.family == s.dst.family == f.family)
            && (!kind.IsAddr() ==> f.place.size > 0)
            && Bucket(f, s) < f.buckets <= S.MAX_BUCKETS
  {
    var f := CompileField(r, kind).value;
    if kind.IsAddr() {
      BucketsFit(Width(f.family), f.mask);
      RegionInRange(LayoutOf(f.family), if kind.SrcAddr? then s.src.value else s.dst.value, f.mask, f.buckets);
    } else {
      PortRegionInRange(if kind.SrcPort? then s.srcPort else s.dstPort, f.place.lo, f.place.size, f.place.mod, f.buckets);
    }
  }

  /** For IPv4 and for IPv6 masks of 64 or more, the region is floor(varying * n / 2^spreadBits);
      with the configured count each region is that of some address. */
  lemma AddrRegionReached(f: Family, mask: nat, r: nat) returns (a: Addr)
    requires mask < Width(f) && r < IpBuckets(Width(f), mask).value
    ensures a.family == f && IpRegion(LayoutOf(f), a.value, mask, IpBuckets(Width(f), mask).value) == r
    ensures f.IPv4? || mask >= 64 ==>
              r == Quot(Mul(Varying(LayoutOf(f), a.value, mask), IpBuckets(Width(f), mask).value), Pow2(Width(f) - mask))
  {
    var v := EveryRegionReached(LayoutOf(f), mask, r);
    Pow2Grows(Width(f) - mask, Width(f));
    a := RawAddr(f, v);
    if f.IPv4? || mask >= 64 {
      RegionExact(LayoutOf(f), v, mask, IpBuckets(Width(f), mask).value);
    }
  }

  lemma {:induction false} Pow2Grows(a: nat, b: nat)
    requires a <= b
    ensures Pow2(a) <= Pow2(b)
  {
    if a < b {
      Pow2Grows(a, b - 1);
    }
  }

  lemma QuotientBelow(x: nat, d: nat, m: nat)
    requires d > 0 && x <= m
    ensures (x / d) * d <= m
  {
  }

  lemma ScaledBelow(v: nat, n: nat, size: nat)
    requires v <= 65535 && size > 0
    ensures (v * n / size) * size <= 65535 * n
  {
    MulLe(v, 65535, n);
    QuotientBelow(v * n, size, 65535 * n);
  }

  /** No region starts beyond the last port. */
  lemma RegionStart(p: Port, place: PortPlace, n: nat)
    requires 0 < place.size && n > 0 && (place.mod || place.size <= 65536)
    ensures place.size > n ==> PortRegion(p, place.lo, place.size, place.mod, n) * place.size <= 65535 * n
  {
    var lo, size := place.lo, place.size;
    if place.mod {
      ScaledBelow(p % size, n, size);
    } else {
      var v := if p < lo then lo else p;
      ScaledBelow(if v - lo >= size then size - 1 else v - lo, n, size);
    }
  }

  /** Each port region is that of some port, unless the bucket width leaves it beyond the last
      port. */
  lemma PortRegionReachedIff(agg: PortAgg, r: nat)
    requires agg.Valid() && PlaceOf(agg).Some? && r < PortBuckets(PlaceOf(agg).value)
    ensures var place := PlaceOf(agg).value;
            (exists p: Port :: PortRegion(p, place.lo, place.size, place.mod, PortBuckets(place)) == r) <==>
            Mul(r, place.size) <= Mul(65535, PortBuckets(place))
  {
    var place := PlaceOf(agg).value;
    var n := PortBuckets(place);
    if p: Port :| PortRegion(p, place.lo, place.size, place.mod, n) == r {
      RegionStart(p, place, n);
      if place.size <= n {
        MulLe(r, 65535, n);
      }
    }
    if Mul(r, place.size) <= Mul(65535, n) {
      var x := r;
      if place.size > n {
        x := SliceReachable(place.size, n, r);
        SliceLeast(place.size, n, r, 65535);
      }
      var p: Port := place.lo + x;
      ModSmall(x, place.size);
      assert PortRegion(p, place.lo, place.size, place.mod, n) == r;
    }
  }

  ghost predicate PortReached(place: PortPlace, r: nat)
    requires place.size > 0
  {
    exists p: Port :: PortRegion(p, place.lo, place.size, place.mod, PortBuckets(place)) == r
  }

  lemma LowEnough(r: nat, place: PortPlace)
    requires r < PortBuckets(place) && place.size <= 68984
    ensures Mul(r, place.size) <= Mul(65535, PortBuckets(place))
  {
    MulLe(r, PortBuckets(place) - 1, place.size);
    if place.size <= S.MAX_BUCKETS {
      MulLe(place.size - 1, 65535, place.size);
    }
  }

  /** All regions are in reach if and only if a bucket, where there are buckets, has at most 68984
      ports: 19 of its 20 parts then begin no later than port 65535. */
  lemma AllPortRegionsIff(agg: PortAgg)
    requires agg.Valid() && PlaceOf(agg).Some?
    ensures (forall r: nat | r < PortBuckets(PlaceOf(agg).value) :: PortReached(PlaceOf(agg).value, r)) <==>
            (agg.PortBucket? ==> agg.step <= 68984)
  {
    var place := PlaceOf(agg).value;
    var n := PortBuckets(place);
    if agg.PortBucket? ==> agg.step <= 68984 {
      forall r: nat | r < n ensures PortReached(place, r) {
        LowEnough(r, place);
        PortRegionReachedIff(agg, r);
      }
    } else {
      PortRegionReachedIff(agg, 19);
      assert !PortReached(place, 19);
    }
  }

  // ----- whether a gate can open -----

  /** The share of regions the estimator's window shows after a history. */
  function Shown(hist: seq<nat>, n: nat): nat
    requires n > 0
  {
    S.Percent(|S.Seen(S.Suffix(hist, Max(n, 16)), n)|, n)
  }

  ghost predicate GateOpens(allowed: set<nat>, n: nat, minRatio: nat)
    requires n > 0
  {
    exists hist: seq<nat> :: (forall r | r in hist :: r in allowed) && Shown(hist, n) >= minRatio
  }

  lemma Listed(allowed: set<nat>) returns (hist: seq<nat>)
    ensures |hist| == |allowed| && forall r | r in hist :: r in allowed
    ensures forall r | r in allowed :: r in hist
  {
    if allowed == {} {
      hist := [];
    } else {
      var r :| r in allowed;
      var rest := Listed(allowed - {r});
      hist := [r] + rest;
    }
  }

  lemma SubsetSize(a: set<nat>, b: set<nat>)
    requires a <= b
    ensures |a| <= |b|
  {
    if a != {} {
      var x :| x in a;
      SubsetSize(a - {x}, b - {x});
    }
  }

  /** Numbers below n are at most n many, and n many if all are there. */
  lemma {:induction false} SizeBelow(a: set<nat>, n: nat)
    requires forall x | x in a :: x < n
    ensures |a| <= n
    ensures (forall x: nat | x < n :: x in a) ==> |a| == n
  {
    if n > 0 {
      SizeBelow(a - {n - 1}, n - 1);
    } else {
      assert a == {};
    }
  }

  /** A gate opens on some history if and only if the regions the history may visit are share
      enough: the window is always wide enough to show them all. */
  lemma GateOpensIff(allowed: set<nat>, n: nat, minRatio: nat)
    requires 0 < n <= S.MAX_BUCKETS && forall r | r in allowed :: r < n
    ensures GateOpens(allowed, n, minRatio) <==> minRatio <= S.Percent(|allowed|, n)
  {
    SizeBelow(allowed, n);
    var all := Listed(allowed);
    assert S.Suffix(all, Max(n, 16)) == all;
    assert S.Seen(all, n) == allowed;
    assert Shown(all, n) == S.Percent(|allowed|, n);
    if hist: seq<nat> :| (forall r | r in hist :: r in allowed) && Shown(hist, n) >= minRatio {
      var seen := S.Seen(S.Suffix(hist, Max(n, 16)), n);
      SubsetSize(seen, allowed);
      DivMonotone(|seen| * 100, |allowed| * 100, n);
    }
  }

  /** The regions an instance's samples can fall into, for a port that has its aggregate. */
  ghost function ClassRegions(agg: PortAgg, p: Port): set<nat>
    requires agg.Valid() && PlaceOf(agg).Some?
  {
    var place := PlaceOf(agg).value;
    set r | 0 <= r < PortBuckets(place) && InClass(agg, p, r)
  }

  ghost predicate InClass(agg: PortAgg, p: Port, r: nat)
    requires agg.Valid() && PlaceOf(agg).Some?
  {
    var place := PlaceOf(agg).value;
    exists q: Port :: agg.Reduce(q) == agg.Reduce(p) && PortRegion(q, place.lo, place.size, place.mod, PortBuckets(place)) == r
  }

  /** The highest of them: that of the last port of the aggregate. */
  function LastRegion(agg: PortAgg, p: Port): nat
    requires agg.Valid() && PlaceOf(agg).Some?
  {
    ReduceBounds(agg, p);
    var iv := agg.Reduce(p);
    Quot(Mul(iv.hi - iv.lo, PortBuckets(PlaceOf(agg).value)), PlaceOf(agg).value.size)
  }

  /** What a port is placed by: its remainder, or its distance into the range, cut off at both ends. */
  function Offset(place: PortPlace, q: Port): nat
    requires place.size > 0
  {
    if place.mod then q % place.size
    else if q < place.lo then 0
    else if q - place.lo >= place.size then place.size - 1
    else q - place.lo
  }

  /** A port's place within its aggregate. */
  lemma PlaceInClass(agg: PortAgg, p: Port, q: Port)
    requires agg.Valid() && PlaceOf(agg).Some? && agg.Reduce(q) == agg.Reduce(p)
    ensures var place, iv := PlaceOf(agg).value, agg.Reduce(p);
            var v := Offset(place, q);
            && v <= iv.hi - iv.lo && iv.hi - iv.lo < place.size
            && (agg.InRange(q) ==> v == q - iv.lo)
            && PortRegion(q, place.lo, place.size, place.mod, PortBuckets(place)) == Quot(Mul(v, PortBuckets(place)), place.size)
  {
    var place := PlaceOf(agg).value;
    ReduceBounds(agg, q);
    if agg.PortBucket? {
      ModIs(q, agg.step, q / agg.step, q - (q / agg.step) * agg.step);
    }
    var v := Offset(place, q);
    if place.size <= PortBuckets(place) {
      QuotientIs(v * place.size, place.size, v);
    }
  }

  lemma ClassRegionIff(agg: PortAgg, p: Port, r: nat)
    requires agg.Valid() && PlaceOf(agg).Some? && r < PortBuckets(PlaceOf(agg).value)
    ensures InClass(agg, p, r) <==> r <= LastRegion(agg, p)
  {
    var place, iv := PlaceOf(agg).value, agg.Reduce(p);
    var n, size := PortBuckets(place), place.size;
    ReduceBounds(agg, p);
    if q: Port :| agg.Reduce(q) == iv && PortRegion(q, place.lo, size, place.mod, n) == r {
      PlaceInClass(agg, p, q);
      var v := Offset(place, q);
      MulLe(v, iv.hi - iv.lo, n);
      DivMonotone(v * n, (iv.hi - iv.lo) * n, size);
    }
    if r <= LastRegion(agg, p) {
      var x := SliceReachable(size, n, r);
      MulLe(r, LastRegion(agg, p), size);
      QuotientBelow((iv.hi - iv.lo) * n, size, (iv.hi - iv.lo) * n);
      SliceLeast(size, n, r, iv.hi - iv.lo);
      var q: Port := iv.lo + x;
      if agg.PortBucket? {
        BucketSame(p, q, agg.step);
      }
      assert agg.Reduce(q) == iv;
      PlaceInClass(agg, p, q);
      assert InClass(agg, p, r);
    }
  }

  /** For every port gate and every instance: some sequence of ports of the instance opens the
      gate if and only if the regions up to that of its last port are share enough. */
  lemma PortGateOpensIff(agg: PortAgg, p: Port, minRatio: nat)
    requires agg.Valid() && PlaceOf(agg).Some?
    ensures var n := PortBuckets(PlaceOf(agg).value);
            GateOpens(ClassRegions(agg, p), n, minRatio) <==> minRatio <= S.Percent(LastRegion(agg, p) + 1, n)
  {
    var n, last := PortBuckets(PlaceOf(agg).value), LastRegion(agg, p);
    LastBelow(agg, p);
    forall r: nat | r < n ensures r in ClassRegions(agg, p) <==> r <= last {
      ClassRegionIff(agg, p, r);
    }
    SizeBelow(ClassRegions(agg, p), last + 1);
    GateOpensIff(ClassRegions(agg, p), n, minRatio);
  }

  lemma ScaledLess(v: nat, n: nat, size: nat)
    requires v < size && n > 0
    ensures Quot(Mul(v, n), size) < n
  {
    var q := v * n / size;
    MulLt(v, size, n);
    QuotientBelow(v * n, size, v * n);
    if n <= q {
      MulLe(n, q, size);
    }
  }

  lemma LastBelow(agg: PortAgg, p: Port)
    requires agg.Valid() && PlaceOf(agg).Some?
    ensures LastRegion(agg, p) < PortBuckets(PlaceOf(agg).value)
  {
    PlaceInClass(agg, p, p);
    ScaledLess(agg.Reduce(p).hi - agg.Reduce(p).lo, PortBuckets(PlaceOf(agg).value), PlaceOf(agg).value.size);
  }

  /** Two gates the configuration accepts and no traffic opens fully: a bucket wider than the port
      space, whose region 10 is that of no port, and the last bucket of 60000 ports, which the
      port space cuts off. */
  lemma NarrowInstances(p: Port, q: Port, minRatio: nat)
    requires q >= 60000
    ensures !PortReached(PlaceOf(PortBucket(131072)).value, 10)
    ensures GateOpens(ClassRegions(PortBucket(131072), p), 20, minRatio) <==> minRatio <= 50
    ensures GateOpens(ClassRegions(PortBucket(60000), q), 20, minRatio) <==> minRatio <= 10
  {
    PortRegionReachedIff(PortBucket(131072), 10);
    QuotientIs(p, 131072, 0);
    QuotientIs(q, 60000, 1);
    PortGateOpensIff(PortBucket(131072), p, minRatio);
    PortGateOpensIff(PortBucket(60000), q, minRatio);
  }
}
