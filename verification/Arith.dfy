/** Integer arithmetic shared by the models: powers of two and Go's integer operators. */
module Arith {

  function Pow2(n: nat): (r: nat)
    ensures r >= 1
  {
    if n == 0 then 1 else 2 * Pow2(n - 1)
  }

  lemma {:induction false} Pow2Add(a: nat, b: nat)
    ensures Pow2(a + b) == Pow2(a) * Pow2(b)
  {
    if a > 0 {
      Pow2Add(a - 1, b);
      assert Pow2(a + b) == 2 * Pow2((a - 1) + b);
      assert 2 * (Pow2(a - 1) * Pow2(b)) == (2 * Pow2(a - 1)) * Pow2(b);
    }
  }

  /** Go's integer division: truncates toward zero. */
  function TruncDiv(a: int, b: int): (q: int)
    requires b > 0
  {
    if a >= 0 then a / b else -((-a) / b)
  }

  /** Go's remainder: carries the sign of the dividend. */
  function TruncMod(a: int, b: int): (r: int)
    requires b > 0
  {
    a - TruncDiv(a, b) * b
  }

  function Quot(a: nat, d: nat): nat
    requires d > 0
  {
    a / d
  }

  function Min(a: int, b: int): int { if a <= b then a else b }

  function Max(a: int, b: int): int { if a >= b then a else b }

  lemma MulLe(a: int, b: int, d: int)
    requires a <= b && d >= 0
    ensures a * d <= b * d
  {
  }

  /** A quotient is the number that brackets the dividend. */
  lemma QuotientIs(x: int, d: int, q: int)
    requires d > 0 && q * d <= x < (q + 1) * d
    ensures x / d == q
  {
    var q' := x / d;
    assert q' * d <= x < (q' + 1) * d;
    if q' + 1 <= q {
      MulLe(q' + 1, q, d);
    }
    if q + 1 <= q' {
      MulLe(q + 1, q', d);
    }
  }

  /** A remainder is what a multiple falls short by. */
  lemma ModIs(x: int, n: nat, q: int, r: nat)
    requires r < n && x == q * n + r
    ensures x % n == r
  {
    QuotientIs(x, n, q);
    assert x == (x / n) * n + x % n;
  }

  lemma DivMonotone(x: int, y: int, d: int)
    requires d > 0 && x <= y
    ensures x / d <= y / d
  {
    var q, q' := x / d, y / d;
    assert q * d <= x && y < (q' + 1) * d;
    if q' + 1 <= q {
      MulLe(q' + 1, q, d);
    }
  }

  lemma ModSmall(x: nat, m: nat)
    requires x < m
    ensures x % m == x
  {
  }

  /** The leading `len` bits of a `w`-bit number form a `len`-bit number. */
  lemma LeadingBits(v: nat, w: nat, len: nat)
    requires len <= w && v < Pow2(w)
    ensures v / Pow2(w - len) < Pow2(len)
  {
    var d, q := Pow2(w - len), v / Pow2(w - len);
    Pow2Add(len, w - len);
    assert q * d <= v;
    if Pow2(len) <= q {
      MulLe(Pow2(len), q, d);
    }
  }
}
