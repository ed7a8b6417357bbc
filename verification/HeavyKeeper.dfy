/**
  The HeavyKeeper sketch. Weights are reals, the row hash is an arbitrary function and every
  collision draw is free. The sketch never credits a key with more than its true decayed weight.
 */
module HeavyKeeper {

  type Key = nat

  datatype Event = Added(key: Key, weight: real) | Aged(factor: real)

  predicate Ages(e: Event) { e.Aged? && 0.0 < e.factor < 1.0 }

  /** The true weight of a key: its additions, each scaled by every ageing that followed. */
  function Weight(hist: seq<Event>, key: Key): real
  {
    if hist == [] then 0.0
    else
      var rest, e := Weight(hist[..|hist| - 1], key), hist[|hist| - 1];
      if e.Added? && e.key == key then rest + e.weight
      else if Ages(e) then rest * e.factor
      else rest
  }

  predicate NonNegative(hist: seq<Event>)
  {
    forall i | 0 <= i < |hist| && hist[i].Added? :: hist[i].weight >= 0.0
  }

  lemma {:induction false} WeightNonNegative(hist: seq<Event>, key: Key)
    requires NonNegative(hist)
    ensures Weight(hist, key) >= 0.0
  {
    if hist != [] {
      WeightNonNegative(hist[..|hist| - 1], key);
      var e := hist[|hist| - 1];
      if Ages(e) {
        Scaled(0.0, Weight(hist[..|hist| - 1], key), e.factor);
      }
    }
  }

  lemma Scaled(a: real, b: real, f: real)
    requires a <= b && f > 0.0
    ensures a * f <= b * f
  {
  }

  lemma WeightStep(hist: seq<Event>, e: Event, key: Key)
    ensures Weight(hist + [e], key) ==
            if e.Added? && e.key == key then Weight(hist, key) + e.weight
            else if Ages(e) then Weight(hist, key) * e.factor
            else Weight(hist, key)
  {
    assert (hist + [e])[..|hist|] == hist;
  }

  datatype Bucket = Bucket(fp: Key, count: real)

  /** A bucket credits its key with no more than the true weight. */
  ghost predicate BucketOk(b: Bucket, hist: seq<Event>)
  {
    b.count >= 0.0 && (b.count > 0.0 ==> b.count <= Weight(hist, b.fp))
  }

  /** How many ageing passes had an effect. */
  function Ageings(hist: seq<Event>): nat
  {
    if hist == [] then 0 else Ageings(hist[..|hist| - 1]) + (if Ages(hist[|hist| - 1]) then 1 else 0)
  }

  lemma AgeingsStep(hist: seq<Event>, e: Event)
    ensures Ageings(hist + [e]) == Ageings(hist) + (if Ages(e) then 1 else 0)
  {
    assert (hist + [e])[..|hist|] == hist;
  }

  predicate DecayFree(hist: seq<Event>) { forall i | 0 <= i < |hist| :: !Ages(hist[i]) }

  lemma {:induction false} DecayFreeAgeings(hist: seq<Event>)
    requires DecayFree(hist)
    ensures Ageings(hist) == 0
  {
    if hist != [] {
      DecayFreeAgeings(hist[..|hist| - 1]);
    }
  }

  /** No other key of the history shares `key`'s bucket in row `i`. */
  ghost predicate Private(index: (Key, nat) -> nat, hist: seq<Event>, i: nat, key: Key)
  {
    forall k | 0 <= k < |hist| && hist[k].Added? && index(hist[k].key, i) == index(key, i) :: hist[k].key == key
  }

  /** A private bucket falls short by at most one packet-equivalent for each ageing pass. */
  ghost predicate NearIn(index: (Key, nat) -> nat, b: Bucket, hist: seq<Event>, i: nat, key: Key)
  {
    Private(index, hist, i, key) ==>
      b.count >= Weight(hist, key) - Ageings(hist) as real && (b.count > 0.0 ==> b.fp == key)
  }

  // ----- one bucket -----

  /** One row's bucket after `weight` for `key` arrives; `hit` is the outcome of the draw. */
  function Credit(b: Bucket, key: Key, weight: real, hit: bool): Bucket
  {
    if b.count <= 0.0 then Bucket(key, weight)
    else if b.fp == key then Bucket(b.fp, b.count + weight)
    else if !hit then b
    else if b.count - weight < 0.0 then Bucket(key, weight - b.count)
    else if b.count - weight == 0.0 then Bucket(0, 0.0)
    else Bucket(b.fp, b.count - weight)
  }

  // ----- a bucket under contention -----

  /** What a bucket says for or against a key. */
  function Vote(b: Bucket, key: Key): real
  {
    if b.count <= 0.0 then 0.0 else if b.fp == key then b.count else -b.count
  }

  /** When the draw hits, a key gains all of its own weight and loses no more than another's. */
  lemma VoteStep(b: Bucket, key: Key, weight: real, k: Key)
    requires b.count >= 0.0 && weight >= 0.0
    ensures key == k ==> Vote(Credit(b, key, weight, true), k) == Vote(b, k) + weight
    ensures key != k ==> Vote(Credit(b, key, weight, true), k) >= Vote(b, k) - weight
    ensures Credit(b, key, weight, true).count >= 0.0
  {
  }

  /** When it misses on another's bucket, nothing changes. */
  lemma MissedDraw(b: Bucket, key: Key, weight: real)
    requires b.count > 0.0 && b.fp != key
    ensures Credit(b, key, weight, false) == b
  {
  }

  /** A bucket after arrivals whose draws all hit. */
  function Contend(arrivals: seq<(Key, real)>): Bucket
  {
    if arrivals == [] then Bucket(0, 0.0)
    else Credit(Contend(arrivals[..|arrivals| - 1]), arrivals[|arrivals| - 1].0, arrivals[|arrivals| - 1].1, true)
  }

  /** What arrives for a key less what arrives for others. */
  function Margin(arrivals: seq<(Key, real)>, k: Key): real
  {
    if arrivals == [] then 0.0
    else Margin(arrivals[..|arrivals| - 1], k) +
         (if arrivals[|arrivals| - 1].0 == k then arrivals[|arrivals| - 1].1 else -arrivals[|arrivals| - 1].1)
  }

  predicate NoNegative(arrivals: seq<(Key, real)>) { forall i | 0 <= i < |arrivals| :: arrivals[i].1 >= 0.0 }

  lemma {:induction false} ContendVote(arrivals: seq<(Key, real)>, k: Key)
    requires NoNegative(arrivals)
    ensures Vote(Contend(arrivals), k) >= Margin(arrivals, k) && Contend(arrivals).count >= 0.0
  {
    if arrivals != [] {
      var init, last := arrivals[..|arrivals| - 1], arrivals[|arrivals| - 1];
      ContendVote(init, k);
      VoteStep(Contend(init), last.0, last.1, k);
    }
  }

  /** A key that outweighs all others in its bucket together holds it, with at least the margin,
      when every draw hits. */
  lemma MajorityHolds(arrivals: seq<(Key, real)>, k: Key)
    requires NoNegative(arrivals) && Margin(arrivals, k) > 0.0
    ensures Contend(arrivals).fp == k && Contend(arrivals).count >= Margin(arrivals, k)
  {
    ContendVote(arrivals, k);
  }

  /** `b'` is what `b` became, for one outcome of the draw or the other. */
  predicate Credited(b: Bucket, b': Bucket, key: Key, weight: real)
  {
    b' == Credit(b, key, weight, true) || b' == Credit(b, key, weight, false)
  }

  lemma CreditOk(b: Bucket, hist: seq<Event>, key: Key, weight: real, hit: bool)
    requires BucketOk(b, hist) && NonNegative(hist) && weight >= 0.0
    ensures BucketOk(Credit(b, key, weight, hit), hist + [Added(key, weight)])
  {
    WeightNonNegative(hist, key);
    WeightStep(hist, Added(key, weight), key);
    WeightStep(hist, Added(key, weight), b.fp);
  }

  lemma UntouchedOk(b: Bucket, hist: seq<Event>, key: Key, weight: real)
    requires BucketOk(b, hist) && weight >= 0.0
    ensures BucketOk(b, hist + [Added(key, weight)])
  {
    WeightStep(hist, Added(key, weight), b.fp);
  }

  lemma Earlier(index: (Key, nat) -> nat, hist: seq<Event>, e: Event, i: nat, key: Key)
    ensures Private(index, hist + [e], i, key) ==>
              Private(index, hist, i, key) && (e.Added? && index(e.key, i) == index(key, i) ==> e.key == key)
  {
    var all := hist + [e];
    assert all[|hist|] == e;
    assert forall k | 0 <= k < |hist| :: all[k] == hist[k];
  }

  lemma CreditNear(index: (Key, nat) -> nat, b: Bucket, hist: seq<Event>, i: nat, key: Key, weight: real, hit: bool, k: Key)
    requires NearIn(index, b, hist, i, k) && index(key, i) == index(k, i)
    requires BucketOk(b, hist) && NonNegative(hist) && weight >= 0.0
    ensures NearIn(index, Credit(b, key, weight, hit), hist + [Added(key, weight)], i, k)
  {
    Earlier(index, hist, Added(key, weight), i, k);
    WeightStep(hist, Added(key, weight), k);
    AgeingsStep(hist, Added(key, weight));
  }

  lemma UntouchedNear(index: (Key, nat) -> nat, b: Bucket, hist: seq<Event>, i: nat, key: Key, weight: real, k: Key)
    requires NearIn(index, b, hist, i, k) && index(key, i) != index(k, i)
    ensures NearIn(index, b, hist + [Added(key, weight)], i, k)
  {
    Earlier(index, hist, Added(key, weight), i, k);
    WeightStep(hist, Added(key, weight), k);
    AgeingsStep(hist, Added(key, weight));
  }

  /** One bucket after an ageing pass: scaled, and freed below one packet-equivalent. */
  function Age(b: Bucket, factor: real): Bucket
  {
    if b.count == 0.0 then b else Kept(b.fp, Times(b.count, factor))
  }

  function Times(a: real, b: real): real { a * b }

  function Kept(fp: Key, count: real): Bucket { if count < 1.0 then Bucket(0, 0.0) else Bucket(fp, count) }

  lemma Shrinks(a: real, f: real)
    requires a >= 0.0 && 0.0 < f < 1.0
    ensures 0.0 <= a * f <= a
  {
    Scaled(0.0, a, f);
    Scaled(f, 1.0, a + 1.0);
    Distribute(f, a);
  }

  lemma Distribute(f: real, a: real)
    ensures f * (a + 1.0) == a * f + f
  {
  }

  lemma Difference(a: real, b: real, f: real)
    ensures (a - b) * f == a * f - b * f
  {
  }

  lemma Chain(a: real, b: real, c: real, d: real, e: real)
    requires b <= a && b == c - d && d <= e
    ensures a >= c - e
  {
  }

  /** Scaling scales the shortfall, too. */
  lemma AgedShort(w: real, c: real, short: real, f: real)
    requires c >= w - short && short >= 0.0 && 0.0 < f < 1.0
    ensures c * f >= w * f - short
  {
    var diff := w - short;
    Scaled(diff, c, f);
    Difference(w, short, f);
    Shrinks(short, f);
    Chain(c * f, diff * f, w * f, short * f, short);
  }

  /** One bucket's count after a pass, given its scaled weight. */
  lemma AgedCount(b: Bucket, w: real, wf: real, short: real, f: real)
    requires b.count >= w - short && b.count >= 0.0 && short >= 0.0 && 0.0 < f < 1.0 && wf == w * f
    ensures Age(b, f).count >= wf - (short + 1.0) && (Age(b, f).count > 0.0 ==> b.count > 0.0 && Age(b, f).fp == b.fp)
  {
    AgedShort(w, b.count, short, f);
    TimesBound(b.count, f, wf - short);
    AgedBucket(b, Age(b, f), Times(b.count, f), wf - short);
  }

  lemma TimesBound(a: real, f: real, bound: real)
    requires a * f >= bound
    ensures Times(a, f) >= bound && (a == 0.0 ==> Times(a, f) == 0.0)
  {
  }

  lemma AgedBucket(b: Bucket, b': Bucket, cf: real, bound: real)
    requires b' == (if b.count == 0.0 then b else Kept(b.fp, cf)) && cf >= bound && b.count >= 0.0 && (b.count == 0.0 ==> cf == 0.0)
    ensures b'.count >= bound - 1.0 && (b'.count > 0.0 ==> b.count > 0.0 && b'.fp == b.fp)
  {
    KeptCount(b.fp, cf, bound);
  }

  lemma KeptCount(fp: Key, count: real, bound: real)
    requires count >= bound
    ensures Kept(fp, count).count >= bound - 1.0 && (Kept(fp, count).count > 0.0 ==> Kept(fp, count).fp == fp)
  {
  }

  lemma AgeNear(index: (Key, nat) -> nat, b: Bucket, hist: seq<Event>, i: nat, k: Key, factor: real)
    requires NearIn(index, b, hist, i, k) && BucketOk(b, hist) && 0.0 < factor < 1.0
    ensures NearIn(index, Age(b, factor), hist + [Aged(factor)], i, k)
  {
    Earlier(index, hist, Aged(factor), i, k);
    WeightStep(hist, Aged(factor), k);
    AgeingsStep(hist, Aged(factor));
    if Private(index, hist, i, k) {
      AgedCount(b, Weight(hist, k), Weight(hist, k) * factor, Ageings(hist) as real, factor);
    }
  }

  lemma AgeOk(b: Bucket, hist: seq<Event>, factor: real)
    requires BucketOk(b, hist) && 0.0 < factor < 1.0
    ensures BucketOk(Age(b, factor), hist + [Aged(factor)])
  {
    WeightStep(hist, Aged(factor), b.fp);
    if b.count > 0.0 {
      Scaled(b.count, Weight(hist, b.fp), factor);
    }
  }

  // ----- the sketch -----

  class Sketch {
    const depth: nat
    const width: nat
    const index: (Key, nat) -> nat
    var buckets: array2<Bucket>
    ghost var hist: seq<Event>

    ghost predicate Shape()
      reads this
    {
      && depth > 0 && width > 0 && buckets.Length0 == depth && buckets.Length1 == width
      && NonNegative(hist) && forall k, i :: index(k, i) < width
    }

    ghost predicate Bounded()
      reads this, buckets
    {
      Shape() && forall i, j | 0 <= i < depth && 0 <= j < width :: BucketOk(buckets[i, j], hist)
    }

    ghost predicate Valid()
      reads this, buckets
    {
      && Bounded()
      && (forall i, k | 0 <= i < depth :: NearIn(index, buckets[i, index(k, i)], hist, i, k))
    }

    constructor (width: nat, depth: nat, index: (Key, nat) -> nat)
      requires width > 0 && depth > 0 && forall k, i :: index(k, i) < width
      ensures Valid() && hist == [] && fresh(buckets)
    {
      this.width, this.depth, this.index := width, depth, index;
      buckets := new Bucket[depth, width]((i, j) => Bucket(0, 0.0));
      hist := [];
    }

    /** Rows below `n` are already credited, the rest still stand as in the old history. */
    ghost predicate Half(n: nat, before: seq<Event>, after: seq<Event>)
      requires n <= depth
      reads this, buckets
    {
      && Shape()
      && (forall i, j | 0 <= i < n && 0 <= j < width :: BucketOk(buckets[i, j], after))
      && (forall i, j | n <= i < depth && 0 <= j < width :: BucketOk(buckets[i, j], before))
      && (forall i, k | 0 <= i < n :: NearIn(index, buckets[i, index(k, i)], after, i, k))
      && (forall i, k | n <= i < depth :: NearIn(index, buckets[i, index(k, i)], before, i, k))
    }

    method CreditRow(i: nat, key: Key, weight: real, ghost before: seq<Event>)
      requires i < depth && weight >= 0.0 && NonNegative(before)
      requires Half(i, before, before + [Added(key, weight)])
      modifies buckets
      ensures Half(i + 1, before, before + [Added(key, weight)])
      ensures forall x, y | 0 <= x < depth && 0 <= y < width ::
                if x == i && y == index(key, i) then Credited(old(buckets[x, y]), buckets[x, y], key, weight)
                else buckets[x, y] == old(buckets[x, y])
    {
      ghost var after := before + [Added(key, weight)];
      var b := buckets[i, index(key, i)];
      var hit: bool := *;
      forall j | 0 <= j < width ensures BucketOk(buckets[i, j], after) {
        UntouchedOk(buckets[i, j], before, key, weight);
      }
      CreditOk(b, before, key, weight, hit);
      forall k
        ensures NearIn(index, if index(k, i) == index(key, i) then Credit(b, key, weight, hit) else buckets[i, index(k, i)], after, i, k)
      {
        if index(k, i) == index(key, i) {
          CreditNear(index, b, before, i, key, weight, hit, k);
        } else {
          UntouchedNear(index, buckets[i, index(k, i)], before, i, key, weight, k);
        }
      }
      buckets[i, index(key, i)] := Credit(b, key, weight, hit);
    }

    /** Folds weight for a key into every row, whatever the draws turn out to be. */
    method Add(key: Key, weight: real)
      requires Valid() && weight >= 0.0
      modifies this`hist, buckets
      ensures Valid() && hist == old(hist) + [Added(key, weight)] && buckets == old(buckets)
      ensures forall x, y | 0 <= x < depth && 0 <= y < width ::
                if y == index(key, x) then Credited(old(buckets[x, y]), buckets[x, y], key, weight)
                else buckets[x, y] == old(buckets[x, y])
    {
      ghost var before := hist;
      for i := 0 to depth
        invariant Half(i, before, before + [Added(key, weight)]) && hist == before && buckets == old(buckets)
        invariant forall x, y | 0 <= x < depth && 0 <= y < width ::
                    if x < i && y == index(key, x) then Credited(old(buckets[x, y]), buckets[x, y], key, weight)
                    else buckets[x, y] == old(buckets[x, y])
      {
        CreditRow(i, key, weight, before);
      }
      hist := before + [Added(key, weight)];
    }

    /** The largest count any of the first `n` rows holds for the key, or zero. */
    ghost function EstimateUpTo(n: nat, key: Key): real
      requires Shape() && n <= depth
      reads this, buckets
    {
      if n == 0 then 0.0
      else
        var best, b := EstimateUpTo(n - 1, key), buckets[n - 1, index(key, n - 1)];
        if b.fp == key && b.count > best then b.count else best
    }

    ghost function EstimateOf(key: Key): real
      requires Shape()
      reads this, buckets
    {
      EstimateUpTo(depth, key)
    }

    method Estimate(key: Key) returns (best: real)
      requires Shape()
      ensures best == EstimateOf(key)
    {
      best := 0.0;
      for i := 0 to depth
        invariant best == EstimateUpTo(i, key)
      {
        var b := buckets[i, index(key, i)];
        if b.fp == key && b.count > best {
          best := b.count;
        }
      }
    }

    lemma {:induction false} EstimateBounds(n: nat, key: Key)
      requires Bounded() && n <= depth
      ensures 0.0 <= EstimateUpTo(n, key) <= Weight(hist, key)
      ensures forall i | 0 <= i < n && buckets[i, index(key, i)].fp == key ::
                buckets[i, index(key, i)].count <= EstimateUpTo(n, key)
    {
      if n == 0 {
        WeightNonNegative(hist, key);
      } else {
        EstimateBounds(n - 1, key);
        assert BucketOk(buckets[n - 1, index(key, n - 1)], hist);
      }
    }

    /** The sketch never over-estimates. */
    lemma NeverOver(key: Key)
      requires Valid()
      ensures 0.0 <= EstimateOf(key) <= Weight(hist, key)
    {
      EstimateBounds(depth, key);
    }

    /** With one row to itself a key is under-estimated by at most one packet-equivalent for each
        ageing pass; without ageing the estimate is its true weight. */
    lemma PrivateIsNear(key: Key, i: nat)
      requires Valid() && i < depth && Private(index, hist, i, key)
      ensures Weight(hist, key) - Ageings(hist) as real <= EstimateOf(key) <= Weight(hist, key)
      ensures DecayFree(hist) ==> EstimateOf(key) == Weight(hist, key)
    {
      EstimateBounds(depth, key);
      assert NearIn(index, buckets[i, index(key, i)], hist, i, key);
      if DecayFree(hist) {
        DecayFreeAgeings(hist);
      }
    }

    /** Ages every counter; a factor outside (0, 1) does nothing. */
    method DecayAll(factor: real)
      requires Valid()
      modifies this`hist, buckets
      ensures Valid() && hist == old(hist) + [Aged(factor)] && buckets == old(buckets)
      ensures forall x, y | 0 <= x < depth && 0 <= y < width ::
                buckets[x, y] == if Ages(Aged(factor)) then Age(old(buckets[x, y]), factor) else old(buckets[x, y])
      ensures Ages(Aged(factor)) ==>
                forall x, y | 0 <= x < depth && 0 <= y < width :: buckets[x, y].count == 0.0 || buckets[x, y].count >= 1.0
    {
      ghost var before := hist;
      ghost var after := before + [Aged(factor)];
      if factor <= 0.0 || factor >= 1.0 {
        Unaged(factor);
        hist := after;
        return;
      }
      for i := 0 to depth
        invariant hist == before && buckets == old(buckets) && Shape()
        invariant forall x, y | 0 <= x < i && 0 <= y < width :: BucketOk(buckets[x, y], after)
        invariant forall x, y | i <= x < depth && 0 <= y < width :: BucketOk(buckets[x, y], before)
        invariant forall x, k | 0 <= x < i :: NearIn(index, buckets[x, index(k, x)], after, x, k)
        invariant forall x, k | i <= x < depth :: NearIn(index, buckets[x, index(k, x)], before, x, k)
        invariant forall x, y | 0 <= x < depth && 0 <= y < width ::
                    buckets[x, y] == if x < i then Age(old(buckets[x, y]), factor) else old(buckets[x, y])
      {
        AgeRow(i, factor, before);
      }
      hist := after;
    }

    method AgeRow(i: nat, factor: real, ghost before: seq<Event>)
      requires Shape() && i < depth && 0.0 < factor < 1.0
      requires forall y | 0 <= y < width :: BucketOk(buckets[i, y], before)
      modifies buckets
      requires forall k :: NearIn(index, buckets[i, index(k, i)], before, i, k)
      ensures forall y | 0 <= y < width :: BucketOk(buckets[i, y], before + [Aged(factor)])
      ensures forall k :: NearIn(index, buckets[i, index(k, i)], before + [Aged(factor)], i, k)
      ensures forall x, y | 0 <= x < depth && 0 <= y < width ::
                buckets[x, y] == if x == i then Age(old(buckets[x, y]), factor) else old(buckets[x, y])
    {
      forall k ensures NearIn(index, Age(buckets[i, index(k, i)], factor), before + [Aged(factor)], i, k) {
        AgeNear(index, buckets[i, index(k, i)], before, i, k, factor);
      }
      for j := 0 to width
        invariant forall y | 0 <= y < j :: BucketOk(buckets[i, y], before + [Aged(factor)])
        invariant forall y | j <= y < width :: BucketOk(buckets[i, y], before)
        invariant forall x, y | 0 <= x < depth && 0 <= y < width ::
                    buckets[x, y] == if x == i && y < j then Age(old(buckets[x, y]), factor) else old(buckets[x, y])
      {
        AgeOk(buckets[i, j], before, factor);
        buckets[i, j] := Age(buckets[i, j], factor);
      }
    }

    /** A pass without effect leaves every weight as it was. */
    lemma Unaged(factor: real)
      requires Valid() && !Ages(Aged(factor))
      ensures var after := hist + [Aged(factor)];
              && NonNegative(after)
              && (forall i, j | 0 <= i < depth && 0 <= j < width :: BucketOk(buckets[i, j], after))
              && (forall i, k | 0 <= i < depth :: NearIn(index, buckets[i, index(k, i)], after, i, k))
    {
      var after := hist + [Aged(factor)];
      forall i, j | 0 <= i < depth && 0 <= j < width ensures BucketOk(buckets[i, j], after) {
        WeightStep(hist, Aged(factor), buckets[i, j].fp);
      }
      forall i, k | 0 <= i < depth ensures NearIn(index, buckets[i, index(k, i)], after, i, k) {
        Earlier(index, hist, Aged(factor), i, k);
        WeightStep(hist, Aged(factor), k);
        AgeingsStep(hist, Aged(factor));
        assert NearIn(index, buckets[i, index(k, i)], hist, i, k);
      }
    }
  }
}
