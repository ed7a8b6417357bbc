/**
  Rings of interface rates. A slot keeps a running mean of the polls of one epoch; the log
  keeps every poll. On a window the ring still holds, each slot is the arithmetic mean of the
  logged polls of its epoch, and so a window reads the same off either.
 */
module StatsRing {
  import opened Arith
  import SR = SampleRing

  datatype Rates = Rates(rxPps: real, txPps: real, rxBps: real, txBps: real, swDrop: real, hwDrop: real)
  {
    function Plus(o: Rates): Rates
    {
      Rates(rxPps + o.rxPps, txPps + o.txPps, rxBps + o.rxBps, txBps + o.txBps, swDrop + o.swDrop, hwDrop + o.hwDrop)
    }

    function Max(o: Rates): Rates
    {
      Rates(RealMax(rxPps, o.rxPps), RealMax(txPps, o.txPps), RealMax(rxBps, o.rxBps), RealMax(txBps, o.txBps),
            RealMax(swDrop, o.swDrop), RealMax(hwDrop, o.hwDrop))
    }

    function Scale(f: real): Rates
    {
      Rates(rxPps * f, txPps * f, rxBps * f, txBps * f, swDrop * f, hwDrop * f)
    }

    /** The running mean `this` with one more observation, the n-th. */
    function Fold(s: Rates, n: real): Rates
      requires n > 0.0
    {
      Rates(rxPps + (s.rxPps - rxPps) / n, txPps + (s.txPps - txPps) / n, rxBps + (s.rxBps - rxBps) / n,
            txBps + (s.txBps - txBps) / n, swDrop + (s.swDrop - swDrop) / n, hwDrop + (s.hwDrop - hwDrop) / n)
    }

    /** Each rate divided by n. */
    function Over(n: real): Rates
      requires n > 0.0
    {
      Rates(rxPps / n, txPps / n, rxBps / n, txBps / n, swDrop / n, hwDrop / n)
    }

    predicate AtMost(o: Rates)
    {
      && rxPps <= o.rxPps && txPps <= o.txPps && rxBps <= o.rxBps
      && txBps <= o.txBps && swDrop <= o.swDrop && hwDrop <= o.hwDrop
    }
  }

  const ZERO := Rates(0.0, 0.0, 0.0, 0.0, 0.0, 0.0)

  function RealMax(a: real, b: real): real { if a >= b then a else b }

  /** One poll of an interface, at a time in nanoseconds. */
  datatype Poll = Poll(at: int, rates: Rates)

  datatype Slot = Slot(epoch: int, count: nat, rates: Rates)

  datatype Ring = Ring(resolution: int, slots: seq<Slot>)
  {
    predicate Valid() { resolution > 0 && slots != [] }

    function Epoch(at: int): int
      requires Valid()
    {
      TruncDiv(at, resolution)
    }

    /** The slot that carries an epoch, whatever epoch it is tagged with. */
    function SlotOf(e: int): Slot
      requires Valid()
    {
      SR.SlotIndexIs(e, |slots|);
      slots[SR.SlotIndex(e, |slots|)]
    }

    function Add(p: Poll): (r: Ring)
      requires Valid()
      ensures r.Valid() && r.resolution == resolution && |r.slots| == |slots|
    {
      var epoch := Epoch(p.at);
      SR.SlotIndexIs(epoch, |slots|);
      var i := SR.SlotIndex(epoch, |slots|);
      var s := if slots[i].epoch != epoch then Slot(epoch, 0, ZERO) else slots[i];
      this.(slots := slots[i := Slot(epoch, s.count + 1, s.rates.Fold(p.rates, (s.count + 1) as real))])
    }
  }

  /** An unused ring: every slot tagged with epoch 0, and at least one slot. */
  function NewRing(resolution: int, duration: int): (r: Ring)
    requires resolution > 0
    ensures r.Valid() && r.resolution == resolution
  {
    var n := TruncDiv(duration, resolution);
    Ring(resolution, seq(if n < 1 then 1 else n, i => Slot(0, 0, ZERO)))
  }

  function Replay(empty: Ring, log: seq<Poll>): (r: Ring)
    requires empty.Valid()
    ensures r.Valid() && r.resolution == empty.resolution && |r.slots| == |empty.slots|
  {
    if log == [] then empty else Replay(empty, log[..|log| - 1]).Add(log[|log| - 1])
  }

  predicate Unused(r: Ring) { r.Valid() && forall s | s in r.slots :: s == Slot(0, 0, ZERO) }

  // ----- running means -----

  /** Polls of one epoch: how many, and their sum. */
  datatype Tally = Tally(count: nat, sum: Rates)
  {
    function Mean(): Rates { if count == 0 then ZERO else sum.Over(count as real) }
  }

  function TallyAt(resolution: int, log: seq<Poll>, e: int): Tally
    requires resolution > 0
  {
    if log == [] then Tally(0, ZERO)
    else
      var rest, p := TallyAt(resolution, log[..|log| - 1], e), log[|log| - 1];
      if TruncDiv(p.at, resolution) == e then Tally(rest.count + 1, rest.sum.Plus(p.rates)) else rest
  }

  lemma RunningMean(sum: real, s: real, c: real)
    requires c > 0.0
    ensures sum / c + (s - sum / c) / (c + 1.0) == (sum + s) / (c + 1.0)
  {
    var m := sum / c;
    var r := m + (s - m) / (c + 1.0);
    assert r * (c + 1.0) == m * (c + 1.0) + (s - m) == m * c + s == sum + s;
  }

  /** Folding a sample into the mean of a tally gives the mean of the longer tally. */
  lemma FoldIsMean(t: Tally, s: Rates)
    ensures t.Mean().Fold(s, (t.count + 1) as real) == Tally(t.count + 1, t.sum.Plus(s)).Mean()
    requires t.count == 0 ==> t.sum == ZERO
  {
    if t.count > 0 {
      var c, u := t.count as real, t.sum;
      RunningMean(u.rxPps, s.rxPps, c);
      RunningMean(u.txPps, s.txPps, c);
      RunningMean(u.rxBps, s.rxBps, c);
      RunningMean(u.txBps, s.txBps, c);
      RunningMean(u.swDrop, s.swDrop, c);
      RunningMean(u.hwDrop, s.hwDrop, c);
    }
  }

  lemma {:induction false} EmptyTally(resolution: int, log: seq<Poll>, e: int)
    requires resolution > 0
    ensures TallyAt(resolution, log, e).count == 0 ==> TallyAt(resolution, log, e).sum == ZERO
    ensures (forall i | 0 <= i < |log| :: TruncDiv(log[i].at, resolution) < e) ==> TallyAt(resolution, log, e).count == 0
  {
    if log != [] {
      EmptyTally(resolution, log[..|log| - 1], e);
    }
  }

  predicate InOrder(log: seq<Poll>) { forall i, j | 0 <= i < j < |log| :: log[i].at <= log[j].at }

  lemma TruncDivMonotone(a: int, b: int, d: int)
    requires d > 0 && a <= b
    ensures TruncDiv(a, d) <= TruncDiv(b, d)
  {
    if b < 0 {
      DivMonotone(-b, -a, d);
    } else if a >= 0 {
      DivMonotone(a, b, d);
    } else {
      DivMonotone(0, -a, d);
      DivMonotone(0, b, d);
    }
  }

  /** What the ring says of an epoch: the count and mean of its slot if the slot is tagged so. */
  function Held(r: Ring, e: int): (int, Rates)
    requires r.Valid()
  {
    var s := r.SlotOf(e);
    if s.epoch == e then (s.count, s.rates) else (0, ZERO)
  }

  lemma HeldAfterAdd(r: Ring, p: Poll, e: int)
    requires r.Valid()
    ensures Held(r.Add(p), e) ==
            if e == r.Epoch(p.at)
            then (Held(r, e).0 + 1, Held(r, e).1.Fold(p.rates, (r.SlotOf(e).count + 1) as real))
            else if SR.SlotIndex(e, |r.slots|) == SR.SlotIndex(r.Epoch(p.at), |r.slots|) then (0, ZERO)
            else Held(r, e)
    requires e == r.Epoch(p.at) ==> r.SlotOf(e).epoch == e
  {
    SR.SlotIndexIs(e, |r.slots|);
    SR.SlotIndexIs(r.Epoch(p.at), |r.slots|);
  }

  lemma HeldAfterReset(r: Ring, p: Poll, e: int)
    requires r.Valid() && e == r.Epoch(p.at) && r.SlotOf(e).epoch != e
    ensures Held(r.Add(p), e) == (1, ZERO.Fold(p.rates, 1.0))
  {
    SR.SlotIndexIs(e, |r.slots|);
  }

  /** Polls in time order: for every epoch less than a ring's length behind the newest, the slot
      counts exactly the polls of that epoch and holds their arithmetic mean. */
  lemma {:induction false} SlotIsMean(empty: Ring, log: seq<Poll>, e: int)
    requires Unused(empty) && InOrder(log)
    requires log != [] ==> e > empty.Epoch(log[|log| - 1].at) - |empty.slots|
    ensures Held(Replay(empty, log), e) ==
            (TallyAt(empty.resolution, log, e).count, TallyAt(empty.resolution, log, e).Mean())
  {
    var n, res := |empty.slots|, empty.resolution;
    if log == [] {
      SR.SlotIndexIs(e, n);
      assert empty.SlotOf(e) in empty.slots;
    } else {
      var init, p := log[..|log| - 1], log[|log| - 1];
      if init != [] {
        TruncDivMonotone(init[|init| - 1].at, p.at, res);
      }
      SlotIsMean(empty, init, e);
      var r, t := Replay(empty, init), TallyAt(res, init, e);
      EmptyTally(res, init, e);
      if e == r.Epoch(p.at) {
        FoldIsMean(t, p.rates);
        if r.SlotOf(e).epoch == e {
          HeldAfterAdd(r, p, e);
        } else {
          HeldAfterReset(r, p, e);
        }
      } else {
        HeldAfterAdd(r, p, e);
        Displaced(empty, init, p, e);
      }
    }
  }

  /** A poll displaces an epoch only when no poll of that epoch came before. */
  lemma Displaced(empty: Ring, init: seq<Poll>, p: Poll, e: int)
    requires Unused(empty) && InOrder(init + [p])
    requires e != empty.Epoch(p.at) && e > empty.Epoch(p.at) - |empty.slots|
    ensures SR.SlotIndex(e, |empty.slots|) == SR.SlotIndex(empty.Epoch(p.at), |empty.slots|) ==>
              TallyAt(empty.resolution, init, e) == Tally(0, ZERO)
  {
    var n, res := |empty.slots|, empty.resolution;
    if SR.SlotIndex(e, n) == SR.SlotIndex(empty.Epoch(p.at), n) {
      SR.SameSlot(e, empty.Epoch(p.at), n);
      forall i | 0 <= i < |init| ensures TruncDiv(init[i].at, res) < e {
        assert (init + [p])[i].at <= (init + [p])[|init|].at;
        TruncDivMonotone(init[i].at, p.at, res);
      }
      EmptyTally(res, init, e);
    }
  }

  /** A tagged slot has polls behind it, except the tag 0 that unused slots carry. */
  lemma {:induction false} TaggedHasPolls(empty: Ring, log: seq<Poll>, i: nat)
    requires Unused(empty) && i < |empty.slots|
    ensures Replay(empty, log).slots[i].count > 0 || Replay(empty, log).slots[i].epoch == 0
  {
    if log == [] {
      assert empty.slots[i] in empty.slots;
    } else {
      TaggedHasPolls(empty, log[..|log| - 1], i);
    }
  }

  // ----- windows -----

  /** A window in progress: populated epochs, their sum and their peak. */
  datatype Acc = Acc(n: nat, sum: Rates, peak: Rates)
  {
    function Take(r: Rates): Acc { Acc(n + 1, sum.Plus(r), peak.Max(r)) }

    function Result(wantPeak: bool): Rates
    {
      if wantPeak then peak else if n == 0 then ZERO else sum.Scale(1.0 / n as real)
    }
  }

  function RingWindow(r: Ring, hi: int, count: nat): Acc
    requires r.Valid()
    decreases count
  {
    if count == 0 then Acc(0, ZERO, ZERO)
    else
      var before, s := RingWindow(r, hi - 1, count - 1), r.SlotOf(hi);
      if s.epoch == hi then before.Take(s.rates) else before
  }

  /** The same window over the epoch means of a log. */
  function LogWindow(resolution: int, log: seq<Poll>, hi: int, count: nat): Acc
    requires resolution > 0
    decreases count
  {
    if count == 0 then Acc(0, ZERO, ZERO)
    else
      var before, t := LogWindow(resolution, log, hi - 1, count - 1), TallyAt(resolution, log, hi);
      if t.count > 0 then before.Take(t.Mean()) else before
  }

  /** Epochs a window reads. */
  function Epochs(r: Ring, window: int): (n: nat)
    requires r.Valid()
  {
    var c := TruncDiv(window, r.resolution);
    if c < 1 then 1 else c
  }

  /** What a window reads off a ring. */
  ghost function Reading(r: Ring, now: int, window: int, offset: int, peak: bool): Rates
    requires r.Valid()
  {
    RingWindow(r, r.Epoch(now - offset), Epochs(r, window)).Result(peak)
  }

  method Aggregate(r: Ring, now: int, window: int, offset: int, peak: bool) returns (out: Rates)
    requires r.Valid()
    ensures out == Reading(r, now, window, offset, peak)
  {
    var endEpoch := r.Epoch(now - offset);
    var count := TruncDiv(window, r.resolution);
    if count < 1 {
      count := 1;
    }
    var startEpoch := endEpoch - count + 1;
    var sum, mx, n: nat := ZERO, ZERO, 0;
    for e := startEpoch to endEpoch + 1
      invariant Acc(n, sum, mx) == RingWindow(r, e - 1, e - startEpoch)
    {
      var s := r.SlotOf(e);
      if s.epoch == e {
        n := n + 1;
        sum := sum.Plus(s.rates);
        mx := mx.Max(s.rates);
      }
    }
    if peak {
      return mx;
    }
    if n == 0 {
      return ZERO;
    }
    out := sum.Scale(1.0 / n as real);
  }

  lemma {:induction false} WindowIsLog(empty: Ring, log: seq<Poll>, hi: int, count: nat)
    requires Unused(empty) && InOrder(log) && hi >= count
    requires log != [] ==> hi - count >= empty.Epoch(log[|log| - 1].at) - |empty.slots|
    ensures RingWindow(Replay(empty, log), hi, count) == LogWindow(empty.resolution, log, hi, count)
    decreases count
  {
    if count > 0 {
      WindowIsLog(empty, log, hi - 1, count - 1);
      SlotIsMean(empty, log, hi);
      SR.SlotIndexIs(hi, |empty.slots|);
      TaggedHasPolls(empty, log, SR.SlotIndex(hi, |empty.slots|));
    }
  }

  /** The peak of a window bounds every epoch in it, populated or not. */
  lemma {:induction false} PeakBounds(r: Ring, hi: int, count: nat, e: int)
    requires r.Valid() && hi - count < e <= hi
    ensures Held(r, e).1.AtMost(RingWindow(r, hi, count).peak)
    decreases count
  {
    PeakNonNegative(r, hi, count);
    PeakNonNegative(r, hi - 1, count - 1);
    if e < hi {
      PeakBounds(r, hi - 1, count - 1, e);
    }
  }

  lemma {:induction false} PeakNonNegative(r: Ring, hi: int, count: nat)
    requires r.Valid()
    ensures ZERO.AtMost(RingWindow(r, hi, count).peak)
    decreases count
  {
    if count > 0 {
      PeakNonNegative(r, hi - 1, count - 1);
    }
  }

  /** The coverage test: the resolution divides window and offset, and the span holds both. */
  predicate RingCovers(res: int, slots: int, window: int, offset: int)
  {
    && res > 0 && slots >= 1 && res <= window
    && TruncMod(window, res) == 0 && TruncMod(offset, res) == 0
    && slots * res >= window + offset
  }

  /** A window is covered exactly when a sample ring of the same shape could serve it. */
  lemma CoversIff(res: int, slots: int, window: int, offset: int)
    ensures RingCovers(res, slots, window, offset) <==>
            res > 0 && slots >= 1 && SR.CanServe(SR.RingSpec(res, slots), window, offset)
  {
    if res > 0 {
      SignedRemainder(window, res);
      SignedRemainder(offset, res);
    }
  }

  lemma SignedRemainder(x: int, d: int)
    requires d > 0
    ensures TruncMod(x, d) == 0 <==> x % d == 0
  {
    if x < 0 {
      var q := (-x) / d;
      assert -x == q * d + (-x) % d;
      if (-x) % d == 0 {
        ModIs(x, d, -q, 0);
      }
      if x % d == 0 {
        var p := x / d;
        assert x == p * d;
        ModIs(-x, d, -p, 0);
      }
    } else {
      assert x == (x / d) * d + x % d;
    }
  }

  /** A covered window reads off the ring what it reads off the log: polls in time order, none
      after `now`, and the window after the Unix epoch. */
  lemma ReadingIsLog(empty: Ring, log: seq<Poll>, now: int, window: int, offset: nat, peak: bool)
    requires Unused(empty) && InOrder(log) && (forall p | p in log :: p.at <= now)
    requires RingCovers(empty.resolution, |empty.slots|, window, offset) && now >= window + offset
    ensures Reading(Replay(empty, log), now, window, offset, peak) ==
            LogWindow(empty.resolution, log, TruncDiv(now - offset, empty.resolution), window / empty.resolution).Result(peak)
  {
    var res, n := empty.resolution, |empty.slots|;
    var w, o := window / res, offset / res;
    assert window == w * res && offset == o * res by {
      assert window == w * res + window % res && offset == o * res + offset % res;
    }
    CoveredFits(n, res, window, offset);
    SR.OffsetEpochs(now, offset, res);
    var hi := TruncDiv(now - offset, res);
    DivMonotone(window, now - offset, res);
    if log != [] {
      assert log[|log| - 1] in log;
      TruncDivMonotone(log[|log| - 1].at, now, res);
    }
    WindowIsLog(empty, log, hi, w);
  }

  lemma CoveredFits(n: nat, res: int, window: int, offset: nat)
    requires RingCovers(res, n, window, offset)
    ensures 1 <= window / res && window / res + offset / res <= n && offset % res == 0
  {
    var w, o := window / res, offset / res;
    assert window == w * res + window % res && offset == o * res + offset % res;
    DivMonotone(res, window, res);
    assert (w + o) * res == w * res + o * res;
    if w + o >= n + 1 {
      MulLe(n + 1, w + o, res);
    }
  }

  // ----- the number reported, field by field -----

  datatype Field = RxPps | TxPps | RxBps | TxBps | SwDrop | HwDrop

  function Get(r: Rates, f: Field): real
  {
    match f
    case RxPps => r.rxPps
    case TxPps => r.txPps
    case RxBps => r.rxBps
    case TxBps => r.txBps
    case SwDrop => r.swDrop
    case HwDrop => r.hwDrop
  }

  /** The six fields are what rates are made of, in this order. */
  lemma FieldsAreAll(r: Rates)
    ensures r == Rates(Get(r, RxPps), Get(r, TxPps), Get(r, RxBps), Get(r, TxBps), Get(r, SwDrop), Get(r, HwDrop))
  {
  }

  /** Polls of one epoch. */
  function PollCount(resolution: int, log: seq<Poll>, e: int): nat
    requires resolution > 0
  {
    if log == [] then 0
    else PollCount(resolution, log[..|log| - 1], e) + (if TruncDiv(log[|log| - 1].at, resolution) == e then 1 else 0)
  }

  /** A field of them, added up. */
  function PollSum(resolution: int, log: seq<Poll>, e: int, f: Field): real
    requires resolution > 0
  {
    if log == [] then 0.0
    else
      var p := log[|log| - 1];
      PollSum(resolution, log[..|log| - 1], e, f) + (if TruncDiv(p.at, resolution) == e then Get(p.rates, f) else 0.0)
  }

  /** `v` is the mean of numbers that are `n` in number and add up to `sum`. */
  predicate Averages(v: real, n: nat, sum: real) { if n == 0 then v == 0.0 else v * n as real == sum }

  /** The means of the epochs of a window that have polls, oldest first. */
  ghost predicate AreMeans(resolution: int, log: seq<Poll>, hi: int, count: nat, means: seq<Rates>)
    requires resolution > 0
    decreases count
  {
    if count == 0 then means == []
    else if PollCount(resolution, log, hi) == 0 then AreMeans(resolution, log, hi - 1, count - 1, means)
    else
      && means != []
      && (forall f :: Averages(Get(means[|means| - 1], f), PollCount(resolution, log, hi), PollSum(resolution, log, hi, f)))
      && AreMeans(resolution, log, hi - 1, count - 1, means[..|means| - 1])
  }

  function Total(means: seq<Rates>, f: Field): real
  {
    if means == [] then 0.0 else Total(means[..|means| - 1], f) + Get(means[|means| - 1], f)
  }

  /** `v` is zero or one of the means, and none is larger. */
  predicate Tops(v: real, means: seq<Rates>, f: Field)
  {
    && v >= 0.0 && (forall i | 0 <= i < |means| :: Get(means[i], f) <= v)
    && (v == 0.0 || exists i | 0 <= i < |means| :: Get(means[i], f) == v)
  }

  lemma {:induction false} TallyIs(resolution: int, log: seq<Poll>, e: int, f: Field)
    requires resolution > 0
    ensures TallyAt(resolution, log, e).count == PollCount(resolution, log, e)
    ensures Get(TallyAt(resolution, log, e).sum, f) == PollSum(resolution, log, e, f)
  {
    if log != [] {
      TallyIs(resolution, log[..|log| - 1], e, f);
    }
  }

  lemma Divided(sum: real, n: real)
    requires n > 0.0
    ensures (sum / n) * n == sum && (sum * (1.0 / n)) * n == sum
  {
    var q := 1.0 / n;
    assert q * n == 1.0;
    assert (sum * q) * n == sum * (q * n);
  }

  lemma MeanAverages(t: Tally, f: Field)
    requires t.count > 0
    ensures Averages(Get(t.Mean(), f), t.count, Get(t.sum, f))
  {
    Divided(Get(t.sum, f), t.count as real);
  }

  /** The window's accumulator over the means of its epochs. */
  predicate Accumulates(a: Acc, means: seq<Rates>)
  {
    a.n == |means| && forall f :: Get(a.sum, f) == Total(means, f) && Tops(Get(a.peak, f), means, f)
  }

  lemma TopsMore(v: real, means: seq<Rates>, m: Rates, f: Field)
    requires Tops(v, means, f)
    ensures Tops(RealMax(v, Get(m, f)), means + [m], f)
  {
    var all := means + [m];
    assert all[|means|] == m;
    assert forall i | 0 <= i < |means| :: all[i] == means[i];
    if v >= Get(m, f) && v != 0.0 {
      var i :| 0 <= i < |means| && Get(means[i], f) == v;
      assert all[i] == means[i];
    }
  }

  lemma TakeAccumulates(a: Acc, means: seq<Rates>, m: Rates)
    requires Accumulates(a, means)
    ensures Accumulates(a.Take(m), means + [m])
  {
    forall f ensures Get(a.Take(m).sum, f) == Total(means + [m], f) && Tops(Get(a.Take(m).peak, f), means + [m], f) {
      assert (means + [m])[..|means|] == means;
      TopsMore(Get(a.peak, f), means, m, f);
    }
  }

  lemma {:induction false} WindowOfMeans(resolution: int, log: seq<Poll>, hi: int, count: nat) returns (means: seq<Rates>)
    requires resolution > 0
    ensures AreMeans(resolution, log, hi, count, means) && Accumulates(LogWindow(resolution, log, hi, count), means)
    decreases count
  {
    if count == 0 {
      means := [];
    } else {
      var rest := WindowOfMeans(resolution, log, hi - 1, count - 1);
      var t := TallyAt(resolution, log, hi);
      forall f ensures t.count == PollCount(resolution, log, hi)
               ensures t.count > 0 ==> Averages(Get(t.Mean(), f), t.count, PollSum(resolution, log, hi, f)) {
        TallyIs(resolution, log, hi, f);
        if t.count > 0 {
          MeanAverages(t, f);
        }
      }
      TallyIs(resolution, log, hi, RxPps);
      if t.count > 0 {
        means := rest + [t.Mean()];
        assert means[..|means| - 1] == rest;
        TakeAccumulates(LogWindow(resolution, log, hi - 1, count - 1), rest, t.Mean());
      } else {
        means := rest;
      }
    }
  }

  /** What a window reports of a log: field by field the mean of its epochs' means, or the largest
      of them, never below zero. */
  ghost predicate Says(resolution: int, log: seq<Poll>, hi: int, count: nat, peak: bool, v: Rates)
    requires resolution > 0
  {
    exists means :: AreMeans(resolution, log, hi, count, means) && ReportsOf(means, peak, v)
  }

  /** The same of one field. */
  ghost predicate FieldSays(resolution: int, log: seq<Poll>, hi: int, count: nat, peak: bool, f: Field, v: real)
    requires resolution > 0
  {
    exists means :: AreMeans(resolution, log, hi, count, means) &&
                    if peak then Tops(v, means, f) else Averages(v, |means|, Total(means, f))
  }

  lemma SaysField(resolution: int, log: seq<Poll>, hi: int, count: nat, peak: bool, f: Field, v: Rates)
    requires resolution > 0 && Says(resolution, log, hi, count, peak, v)
    ensures FieldSays(resolution, log, hi, count, peak, f, Get(v, f))
  {
  }

  predicate ReportsOf(means: seq<Rates>, peak: bool, v: Rates)
  {
    forall f :: if peak then Tops(Get(v, f), means, f) else Averages(Get(v, f), |means|, Total(means, f))
  }

  lemma ResultAverages(a: Acc, f: Field)
    requires a.n == 0 ==> Get(a.sum, f) == 0.0
    ensures Averages(Get(a.Result(false), f), a.n, Get(a.sum, f))
  {
    if a.n > 0 {
      Divided(Get(a.sum, f), a.n as real);
    }
  }

  lemma ResultReports(a: Acc, means: seq<Rates>, peak: bool)
    requires Accumulates(a, means)
    ensures ReportsOf(means, peak, a.Result(peak))
  {
    forall f ensures if peak then Tops(Get(a.Result(peak), f), means, f)
                     else Averages(Get(a.Result(peak), f), |means|, Total(means, f)) {
      if !peak {
        assert a.n == 0 ==> means == [];
        ResultAverages(a, f);
      }
    }
  }

  /** So a covered window reports the mean over its populated epochs of the arithmetic mean of each
      epoch's polls, or the largest of these. */
  lemma ReadingSays(empty: Ring, log: seq<Poll>, now: int, window: int, offset: nat, peak: bool)
    requires Unused(empty) && InOrder(log) && (forall p | p in log :: p.at <= now)
    requires RingCovers(empty.resolution, |empty.slots|, window, offset) && now >= window + offset
    ensures window / empty.resolution > 0
    ensures Says(empty.resolution, log, TruncDiv(now - offset, empty.resolution), window / empty.resolution, peak,
                 Reading(Replay(empty, log), now, window, offset, peak))
  {
    var res := empty.resolution;
    CoveredFits(|empty.slots|, res, window, offset);
    ReadingIsLog(empty, log, now, window, offset, peak);
    var hi := TruncDiv(now - offset, res);
    var means := WindowOfMeans(res, log, hi, window / res);
    ResultReports(LogWindow(res, log, hi, window / res), means, peak);
  }
}
