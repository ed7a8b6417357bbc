/**
  Which of `n` equal slices of its varying range a value falls into. The source computes the
  address region with 64-bit shifts and the high word of a product; here the shifts are
  multiplications and divisions by powers of two, truncated to 64 bits where the source's are.
 */
module Regions {
  import opened Arith
  import opened FlowSpec

  /** An address of `width` bits handled in words of `word` bits: 32 or 128 in words of 64. */
  datatype Layout = Layout(width: nat, word: nat)
  {
    predicate Ok() { 0 < word && (width <= word || width == 2 * word) }

    /** The varying bits fit one word. */
    predicate OneWord(mask: nat)
      requires mask < width
    {
      width - mask <= word
    }
  }

  function LayoutOf(f: Family): (l: Layout)
    ensures l.Ok()
  {
    Layout(Width(f), 64)
  }

  /** The bits of an address below the aggregate mask. */
  function Varying(l: Layout, v: nat, mask: nat): nat
    requires mask < l.width
  {
    Rem(v, Pow2(l.width - mask))
  }

  // Go's uint64 operations on nonnegative numbers.

  function Mul(a: nat, b: nat): nat { a * b }

  function Rem(a: nat, d: nat): nat
    requires d > 0
  {
    a % d
  }

  /** The varying part aligned to the top of a word. */
  function LeftJustified(l: Layout, v: nat, mask: nat): nat
    requires l.Ok() && mask < l.width
  {
    if l.OneWord(mask) then
      Mul(Varying(l, v, mask), Pow2(l.word - (l.width - mask)))
    else
      var hi, lo := Quot(v, Pow2(l.word)), Rem(v, Pow2(l.word));
      Rem(Mul(hi, Pow2(mask)), Pow2(l.word)) + Quot(lo, Pow2(l.word - mask))
  }

  /** The high word of the double-width product with `n`. */
  function IpRegion(l: Layout, v: nat, mask: nat, n: nat): nat
    requires l.Ok() && mask < l.width
  {
    Quot(Mul(LeftJustified(l, v, mask), n), Pow2(l.word))
  }

  lemma Reassociate(a: int, b: int, c: int)
    ensures (a * b) * c == a * (b * c)
  {
  }

  lemma MulLt(a: int, b: int, d: int)
    requires a < b && d > 0
    ensures a * d < b * d
  {
  }

  /** Scaling numerator and denominator alike does not change a quotient. */
  lemma ScaledQuotient(x: nat, d: nat, k: nat)
    requires d > 0 && k > 0
    ensures d * k > 0 && (x * k) / (d * k) == x / d
  {
    var q := x / d;
    assert q * d <= x < (q + 1) * d;
    Reassociate(q, d, k);
    Reassociate(q + 1, d, k);
    MulLe(q * d, x, k);
    MulLt(x, (q + 1) * d, k);
    MulLt(0, d, k);
    QuotientIs(x * k, d * k, q);
  }

  /** Where the varying bits fit one word (IPv4, and IPv6 masks of 64 or more) the region is
      floor(varying * n / 2^spreadBits). */
  lemma RegionExact(l: Layout, v: nat, mask: nat, n: nat)
    requires l.Ok() && mask < l.width && l.OneWord(mask)
    ensures IpRegion(l, v, mask, n) == Quot(Mul(Varying(l, v, mask), n), Pow2(l.width - mask))
  {
    var bits := l.width - mask;
    var x, k, d := Varying(l, v, mask), Pow2(l.word - bits), Pow2(bits);
    Pow2Add(bits, l.word - bits);
    ScaledQuotient(x * n, d, k);
    assert (x * k) * n == (x * n) * k;
  }

  /** A remainder by a product, split into its two digits. */
  lemma DigitMod(q: nat, r: nat, a: nat, b: nat)
    requires a > 0 && b > 0 && r < b
    ensures a * b > 0 && (q * b + r) % (a * b) == (q % a) * b + r
  {
    var c, m := q / a, q % a;
    assert q == c * a + m;
    assert (c * a + m) * b == c * (a * b) + m * b;
    MulLe(m + 1, a, b);
    assert (m + 1) * b == m * b + b;
    var rest := m * b + r;
    assert q * b + r == c * (a * b) + rest && 0 <= rest < a * b;
    QuotientIs(q * b + r, a * b, c);
  }

  lemma JoinDigits(h: nat, lo: nat, top: nat, cut: nat, low: nat)
    requires top > 0 && low == top * cut
    ensures (h * low + lo) / top == h * cut + lo / top
  {
    var q, r := h * cut + lo / top, lo % top;
    assert lo == (lo / top) * top + r;
    Reassociate(h, cut, top);
    assert q * top == (h * cut) * top + (lo / top) * top;
    assert (q + 1) * top == q * top + top;
    QuotientIs(h * low + lo, top, q);
  }

  /** Splits `hi*low + lo` (with `low == top*cut`) the way the two shifts do. */
  lemma ShiftsJoin(hi: nat, lo: nat, top: nat, cut: nat, low: nat)
    requires top > 0 && cut > 0 && low == top * cut && lo < low
    ensures top * low > 0
    ensures Rem(Mul(hi, cut), low) + Quot(lo, top) == Quot(Rem(hi * low + lo, top * low), top)
  {
    DigitMod(hi, lo, top, low);
    DigitMod(hi, 0, top, cut);
    JoinDigits(hi % top, lo, top, cut, low);
  }

  /** For shorter IPv6 masks the word holds the top bits of the varying part. */
  lemma WideWord(l: Layout, v: nat, mask: nat)
    requires l.Ok() && mask < l.width && !l.OneWord(mask)
    ensures LeftJustified(l, v, mask) == Quot(Varying(l, v, mask), Pow2(l.word - mask))
  {
    var hi, lo := Quot(v, Pow2(l.word)), Rem(v, Pow2(l.word));
    Pow2Add(l.word - mask, l.word);
    Pow2Add(l.word - mask, mask);
    assert (l.word - mask) + l.word == l.width - mask && (l.word - mask) + mask == l.word;
    QuotRem(v, Pow2(l.word));
    ShiftsJoin(hi, lo, Pow2(l.word - mask), Pow2(mask), Pow2(l.word));
  }

  lemma QuotRem(v: nat, d: nat)
    requires d > 0
    ensures v == Quot(v, d) * d + Rem(v, d) && Rem(v, d) < d
  {
  }

  lemma WordBound(l: Layout, v: nat, mask: nat)
    requires l.Ok() && mask < l.width
    ensures LeftJustified(l, v, mask) < Pow2(l.word)
  {
    var bits := l.width - mask;
    if l.OneWord(mask) {
      Pow2Add(bits, l.word - bits);
      MulLt(Varying(l, v, mask), Pow2(bits), Pow2(l.word - bits));
    } else {
      WideWord(l, v, mask);
      assert bits - l.word == l.word - mask;
      LeadingBits(Varying(l, v, mask), bits, l.word);
    }
  }

  /** A word below `word` times `n` has a high part below `n`. */
  lemma HighPart(lj: nat, word: nat, n: nat)
    requires lj < word && n > 0
    ensures Mul(lj, n) / word < n
  {
    MulLe(lj + 1, word, n);
    assert (lj + 1) * n == lj * n + n;
    var q := (lj * n) / word;
    assert q * word <= lj * n;
    if n <= q {
      MulLe(n, q, word);
    }
  }

  /** Every region is one of the `n`. */
  lemma RegionInRange(l: Layout, v: nat, mask: nat, n: nat)
    requires l.Ok() && mask < l.width && n > 0
    ensures IpRegion(l, v, mask, n) < n
  {
    WordBound(l, v, mask);
    HighPart(LeftJustified(l, v, mask), Pow2(l.word), n);
  }

  lemma SamePrefix(v: nat, w: nat, d: nat)
    requires d > 0 && v <= w && v / d == w / d
    ensures v % d <= w % d
  {
    assert v == (v / d) * d + v % d && w == (w / d) * d + w % d;
  }

  lemma ScaledMonotone(a: nat, b: nat, n: nat, d: nat)
    requires a <= b && d > 0
    ensures Mul(a, n) <= Mul(b, n) && Mul(a, n) / d <= Mul(b, n) / d
  {
    MulLe(a, b, n);
    DivMonotone(a * n, b * n, d);
  }

  /** Within one prefix, larger addresses are never in a smaller region. */
  lemma RegionMonotone(l: Layout, v: nat, w: nat, mask: nat, n: nat)
    requires l.Ok() && mask < l.width && v <= w && v / Pow2(l.width - mask) == w / Pow2(l.width - mask)
    ensures IpRegion(l, v, mask, n) <= IpRegion(l, w, mask, n)
  {
    SamePrefix(v, w, Pow2(l.width - mask));
    var x, y := Varying(l, v, mask), Varying(l, w, mask);
    if l.OneWord(mask) {
      ScaledMonotone(x, y, Pow2(l.word - (l.width - mask)), 1);
    } else {
      WideWord(l, v, mask);
      WideWord(l, w, mask);
      DivMonotone(x, y, Pow2(l.word - mask));
    }
    ScaledMonotone(LeftJustified(l, v, mask), LeftJustified(l, w, mask), n, Pow2(l.word));
  }

  // ----- bucket counts -----

  /** How many regions an aggregated address field is split into. */
  function IpBuckets(width: nat, mask: int): (n: Option<nat>)
  {
    if mask < 0 || mask >= width then None
    else if width - mask >= 5 then Some(20)
    else Some(Pow2(width - mask))
  }

  lemma {:induction false} Pow2AtLeast(n: nat)
    requires n >= 5
    ensures Pow2(n) >= 32
  {
    if n > 5 {
      Pow2AtLeast(n - 1);
    } else {
      assert Pow2(5) == 2 * Pow2(4);
      assert Pow2(4) == 2 * Pow2(3);
      assert Pow2(3) == 2 * Pow2(2);
    }
  }

  /** `n` slices of a range of `d >= n` numbers are all nonempty. */
  lemma SliceReachable(d: nat, n: nat, r: nat) returns (x: nat)
    requires 0 < n <= d && r < n
    ensures x < d && Mul(x, n) / d == r
    ensures x == (r * d + n - 1) / n
  {
    x := (r * d + n - 1) / n;
    var y := r * d + n - 1;
    assert x * n <= y < (x + 1) * n;
    assert (x + 1) * n == x * n + n;
    assert (r + 1) * d == r * d + d;
    QuotientIs(x * n, d, r);
    MulLe(r + 1, n, d);
    if d <= x {
      MulLe(d, x, n);
    }
  }

  /** It is the first number of its slice. */
  lemma SliceLeast(d: nat, n: nat, r: nat, m: nat)
    requires n > 0 && Mul(r, d) <= Mul(m, n)
    ensures (r * d + n - 1) / n <= m
  {
    assert (m + 1) * n == m * n + n;
    QuotientIs(m * n + n - 1, n, m);
    DivMonotone(r * d + n - 1, m * n + n - 1, n);
  }

  lemma BucketsFit(width: nat, mask: nat)
    requires mask < width
    ensures IpBuckets(width, mask).Some? && 0 < IpBuckets(width, mask).value
    ensures IpBuckets(width, mask).value == Min(Pow2(width - mask), 20)
  {
    var bits := width - mask;
    if bits >= 5 {
      Pow2AtLeast(bits);
    } else {
      assert Pow2(4) == 2 * Pow2(3);
      assert Pow2(3) == 2 * Pow2(2);
      assert Pow2(2) == 2 * Pow2(1);
    }
  }

  /** An address field is measured exactly when it has more than one address per instance; it is
      then split into as many regions as addresses, but no more than twenty. */
  lemma IpBucketsIff(width: nat, mask: int)
    ensures IpBuckets(width, mask).Some? <==> 0 <= mask <= width && Pow2(width - mask) > 1
    ensures IpBuckets(width, mask).Some? ==> IpBuckets(width, mask).value == Min(Pow2(width - mask), 20)
  {
    if 0 <= mask < width {
      BucketsFit(width, mask);
      assert Pow2(width - mask) == 2 * Pow2(width - mask - 1);
    }
  }

  /** With the configured bucket count, no region is out of reach. */
  lemma EveryRegionReached(l: Layout, mask: nat, r: nat) returns (v: nat)
    requires l.Ok() && l.word >= 5 && mask < l.width
    requires IpBuckets(l.width, mask).Some? && r < IpBuckets(l.width, mask).value
    ensures v < Pow2(l.width - mask) && IpRegion(l, v, mask, IpBuckets(l.width, mask).value) == r
  {
    var bits, n := l.width - mask, IpBuckets(l.width, mask).value;
    BucketsFit(l.width, mask);
    if l.OneWord(mask) {
      v := SliceReachable(Pow2(bits), n, r);
      RegionExact(l, v, mask, n);
      ModSmall(v, Pow2(bits));
    } else {
      Pow2AtLeast(l.word);
      var word := SliceReachable(Pow2(l.word), n, r);
      v := Mul(word, Pow2(l.word - mask));
      Pow2Add(l.word, l.word - mask);
      assert l.word + (l.word - mask) == bits;
      WordScaled(word, Pow2(l.word), Pow2(l.word - mask));
      ModSmall(v, Pow2(bits));
      WideWord(l, v, mask);
    }
  }

  lemma WordScaled(x: nat, d: nat, k: nat)
    requires x < d && k > 0
    ensures Mul(x, k) < d * k && Mul(x, k) / k == x
  {
    MulLe(x + 1, d, k);
    assert (x + 1) * k == x * k + k;
    QuotientIs(x * k, k, x);
  }

  // ----- ports -----

  /** The slice of a port: by its place in a range, or in its floor bucket. */
  function PortRegion(p: Port, lo: nat, size: nat, mod: bool, n: nat): (r: nat)
    requires size > 0
  {
    var varying :=
      if mod then p % size
      else
        var v := if p < lo then lo else p;
        if v - lo >= size then size - 1 else v - lo;
    if size <= n then varying else Quot(Mul(varying, n), size)
  }

  lemma PortRegionInRange(p: Port, lo: nat, size: nat, mod: bool, n: nat)
    requires size > 0 && n > 0
    ensures PortRegion(p, lo, size, mod, n) < n
  {
    var varying :=
      if mod then p % size
      else
        var v := if p < lo then lo else p;
        if v - lo >= size then size - 1 else v - lo;
    if size > n {
      HighPart(varying, size, n);
    }
  }
}
