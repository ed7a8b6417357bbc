/**
  The diversity estimator: a circular buffer of the last `window` region indices, a count per
  region and the number of regions with a nonzero count, all kept up in constant time.
 */
module Spread {
  import opened Arith

  const MAX_BUCKETS: nat := 20
  const MIN_SAMPLES: nat := 16

  type UInt8 = n: int | 0 <= n < 0x100

  /** The last `window` samples of a history. */
  function Suffix(hist: seq<nat>, window: nat): (s: seq<nat>)
    ensures |s| == Min(window, |hist|)
  {
    hist[|hist| - Min(window, |hist|)..]
  }

  function Occurrences(s: seq<nat>, r: nat): (c: nat)
    ensures c <= |s|
    ensures c > 0 <==> r in s
  {
    if s == [] then 0
    else
      assert s == [s[0]] + s[1..];
      (if s[0] == r then 1 else 0) + Occurrences(s[1..], r)
  }

  /** The regions below `n` that occur. */
  function Seen(s: seq<nat>, n: nat): set<nat> { set r | 0 <= r < n && r in s }

  lemma {:induction false} OccurrencesAppend(s: seq<nat>, x: nat, r: nat)
    ensures Occurrences(s + [x], r) == Occurrences(s, r) + (if x == r then 1 else 0)
  {
    if s == [] {
      assert s + [x] == [x];
    } else {
      assert (s + [x])[0] == s[0] && (s + [x])[1..] == s[1..] + [x];
      OccurrencesAppend(s[1..], x, r);
    }
  }

  /** How the suffix moves when one sample arrives. */
  lemma SuffixStep(hist: seq<nat>, window: nat, x: nat)
    requires window > 0
    ensures Suffix(hist + [x], window) ==
            (if |hist| >= window then Suffix(hist, window)[1..] else Suffix(hist, window)) + [x]
  {
  }

  /** Adding a sample to a window. */
  lemma SeenAdd(s: seq<nat>, x: nat, n: nat)
    requires x < n
    ensures |Seen(s + [x], n)| == |Seen(s, n)| + (if Occurrences(s, x) == 0 then 1 else 0)
  {
    if x in s {
      assert Seen(s + [x], n) == Seen(s, n);
    } else {
      assert Seen(s + [x], n) == Seen(s, n) + {x};
    }
  }

  /** Evicting the oldest sample of a window. */
  lemma SeenDrop(s: seq<nat>, n: nat)
    requires s != [] && s[0] < n
    ensures |Seen(s[1..], n)| == |Seen(s, n)| - (if Occurrences(s[1..], s[0]) == 0 then 1 else 0)
  {
    assert s == [s[0]] + s[1..];
    if s[0] in s[1..] {
      assert Seen(s[1..], n) == Seen(s, n);
    } else {
      assert Seen(s[1..], n) == Seen(s, n) - {s[0]};
    }
  }

  // ----- the circular buffer -----

  /** The buffer position of the `j`-th sample of the history. */
  function Slot(j: nat, window: nat): nat
    requires window > 0
  {
    j % window
  }

  /** Positions of different samples of one window differ. */
  lemma SlotsDiffer(i: nat, j: nat, window: nat)
    requires window > 0 && i < j < i + window
    ensures Slot(i, window) != Slot(j, window)
  {
    var qi, qj := i / window, j / window;
    assert i == qi * window + i % window && j == qj * window + j % window;
    if qi + 1 <= qj - 1 {
      MulLe(qi + 1, qj - 1, window);
    }
    if qj <= qi {
      MulLe(qj, qi, window);
    }
  }

  lemma SlotNext(j: nat, window: nat)
    requires window > 0
    ensures Slot(j + 1, window) == if Slot(j, window) + 1 == window then 0 else Slot(j, window) + 1
    ensures Slot(j + window, window) == Slot(j, window) < window
  {
    var q, r := j / window, j % window;
    assert j == q * window + r;
    if r + 1 == window {
      ModIs(j + 1, window, q + 1, 0);
    } else {
      ModIs(j + 1, window, q, r + 1);
    }
    ModIs(j + window, window, q + 1, r);
  }

  /** The buffer holds the last min(window, length) samples at their positions. */
  ghost predicate Holds(ring: seq<UInt8>, hist: seq<nat>, window: nat)
    requires |ring| == window > 0
  {
    forall j | |hist| - Min(window, |hist|) <= j < |hist| :: Slot(j, window) < window && ring[Slot(j, window)] == hist[j]
  }

  lemma HoldsStep(ring: seq<UInt8>, hist: seq<nat>, window: nat, x: UInt8)
    requires |ring| == window > 0 && Holds(ring, hist, window)
    ensures Slot(|hist|, window) < window
    ensures Holds(ring[Slot(|hist|, window) := x], hist + [x], window)
  {
    var hist' := hist + [x];
    SlotNext(|hist|, window);
    forall j | |hist'| - Min(window, |hist'|) <= j < |hist'|
      ensures Slot(j, window) < window && ring[Slot(|hist|, window) := x][Slot(j, window)] == hist'[j]
    {
      if j < |hist| {
        SlotsDiffer(j, |hist|, window);
      }
    }
  }

  /** Share of `n` regions, in percent, rounded down. */
  function Percent(seen: nat, n: nat): nat
    requires n > 0
  {
    seen * 100 / n
  }

  class Estimator {
    const buckets: nat
    const window: nat
    var ring: array<UInt8>
    var count: array<UInt8>
    var head: nat
    var filled: nat
    var distinct: nat
    ghost var hist: seq<nat>

    ghost predicate Shape()
      reads this
    {
      && 0 < buckets <= MAX_BUCKETS && window == Max(buckets, 16)
      && ring.Length == window && count.Length == buckets && ring != count
      && filled == Min(window, |hist|) && head == Slot(|hist|, window)
      && forall r | r in hist :: r < buckets
    }

    /** Buffer, counts and `distinct` describe exactly the last min(window, length) samples. */
    ghost predicate Valid()
      reads this, ring, count
    {
      && Shape()
      && Holds(ring[..], hist, window)
      && (forall r | 0 <= r < buckets :: count[r] == Occurrences(Suffix(hist, window), r))
      && distinct == |Seen(Suffix(hist, window), buckets)|
    }

    constructor (buckets: nat)
      requires 0 < buckets <= MAX_BUCKETS
      ensures Valid() && hist == [] && this.buckets == buckets && fresh(ring) && fresh(count)
    {
      this.buckets := buckets;
      var w := if buckets < MIN_SAMPLES then MIN_SAMPLES else buckets;
      window := w;
      ring := new UInt8[w](i => 0);
      count := new UInt8[buckets](i => 0);
      head, filled, distinct := 0, 0, 0;
      hist := [];
      new;
      assert Seen([], buckets) == {};
    }

    /** Makes room: the oldest sample's count goes down. */
    method Evict()
      requires Valid() && filled == window
      modifies this`distinct, count
      ensures var rest := Suffix(hist, window)[1..];
              && (forall r | 0 <= r < buckets :: count[r] == Occurrences(rest, r))
              && distinct == |Seen(rest, buckets)|
    {
      ghost var s := Suffix(hist, window);
      var old_ := ring[head];
      SlotNext(|hist| - window, window);
      assert old_ == hist[|hist| - window] == s[0];
      assert s[0] in hist;
      assert s == [s[0]] + s[1..];
      SeenDrop(s, buckets);
      count[old_] := count[old_] - 1;
      if count[old_] == 0 {
        distinct := distinct - 1;
      }
    }

    /** Counts a new sample into the window `kept`. */
    method Count(region: nat, ghost kept: seq<nat>)
      requires region < buckets == count.Length && |kept| < 255
      requires forall r | 0 <= r < buckets :: count[r] == Occurrences(kept, r)
      requires distinct == |Seen(kept, buckets)|
      modifies this`distinct, count
      ensures forall r | 0 <= r < buckets :: count[r] == Occurrences(kept + [region], r)
      ensures distinct == |Seen(kept + [region], buckets)|
    {
      SeenAdd(kept, region, buckets);
      forall r | 0 <= r < buckets
        ensures Occurrences(kept + [region], r) == Occurrences(kept, r) + (if region == r then 1 else 0)
      {
        OccurrencesAppend(kept, region, r);
      }
      if count[region] == 0 {
        distinct := distinct + 1;
      }
      count[region] := count[region] + 1;
    }

    /** Writes a region at the head and moves the head on. */
    method Store(region: nat)
      requires 0 < window == ring.Length && head == Slot(|hist|, window) && Holds(ring[..], hist, window)
      requires region < 256
      modifies this`head, ring
      ensures Holds(ring[..], hist + [region], window) && head == Slot(|hist| + 1, window)
    {
      var tag: UInt8 := region;
      SlotNext(|hist|, window);
      HoldsStep(ring[..], hist, window, tag);
      ghost var before := ring[..];
      ring[head] := tag;
      assert ring[..] == before[head := tag];
      head := head + 1;
      if head == window {
        head := 0;
      }
    }

    /** What stays of the window when a sample arrives. */
    ghost function Kept(): seq<nat>
      reads this
    {
      if |hist| >= window > 0 then Suffix(hist, window)[1..] else Suffix(hist, window)
    }

    method MakeRoom()
      requires Valid()
      modifies this`filled, this`distinct, count
      ensures filled == Min(window, |hist| + 1)
      ensures forall r | 0 <= r < buckets :: count[r] == Occurrences(Kept(), r)
      ensures distinct == |Seen(Kept(), buckets)|
    {
      if filled == window {
        Evict();
      } else {
        filled := filled + 1;
      }
    }

    /** Records a region; the result is the share of regions seen in the window, in percent. */
    method Observe(region: nat) returns (pct: nat)
      requires Valid() && region < buckets
      modifies this`head, this`filled, this`distinct, this`hist, ring, count
      ensures Valid() && hist == old(hist) + [region] && ring == old(ring) && count == old(count)
      ensures pct == Percent(|Seen(Suffix(hist, window), buckets)|, buckets)
    {
      SuffixStep(hist, window, region);
      ghost var kept := Kept();
      MakeRoom();
      Count(region, kept);
      Store(region);
      hist := hist + [region];
      pct := Percent(distinct, buckets);
      Described(kept + [region]);
    }

    /** Buffer and counts that describe the last samples make the estimator valid. */
    lemma Described(s: seq<nat>)
      requires Shape() && Holds(ring[..], hist, window) && s == Suffix(hist, window)
      requires forall r | 0 <= r < buckets :: count[r] == Occurrences(s, r)
      requires distinct == |Seen(s, buckets)|
      ensures Valid()
    {
    }
  }
}
