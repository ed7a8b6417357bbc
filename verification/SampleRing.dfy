/**
  Epoch-tagged rings. A ring keeps one slot per epoch modulo its length; the log keeps every
  sample. On a window the ring still holds, reading the ring is reading the log.
 */
module SampleRing {
  import opened Arith
  import opened FlowSpec

  /** Packets and bytes counted together. */
  datatype Vol = Vol(packets: nat, bytes: nat)
  {
    function Plus(o: Vol): Vol { Vol(packets + o.packets, bytes + o.bytes) }

    function Max(o: Vol): Vol
    {
      Vol(if o.packets > packets then o.packets else packets, if o.bytes > bytes then o.bytes else bytes)
    }

    predicate AtMost(o: Vol) { packets <= o.packets && bytes <= o.bytes }
  }

  datatype Slot = Slot(epoch: int, vol: Vol)

  /** One logged sample: its epoch and what it counts for. */
  datatype Rec = Rec(epoch: int, vol: Vol)

  function SlotIndex(epoch: int, n: nat): (i: int)
    requires n > 0
  {
    var idx := TruncMod(epoch, n);
    if idx < 0 then idx + n else idx
  }

  /** The folded index is the Euclidean remainder, for negative epochs too. */
  lemma SlotIndexIs(epoch: int, n: nat)
    requires n > 0
    ensures SlotIndex(epoch, n) == epoch % n && 0 <= SlotIndex(epoch, n) < n
  {
    if epoch < 0 {
      var q, r := (-epoch) / n, (-epoch) % n;
      assert -epoch == q * n + r && 0 <= r < n;
      assert TruncMod(epoch, n) == -r;
      if r == 0 {
        ModIs(epoch, n, -q, 0);
      } else {
        ModIs(epoch, n, -q - 1, n - r);
      }
    } else {
      assert epoch == (epoch / n) * n + epoch % n;
    }
  }

  lemma MultipleGap(qa: int, qb: int, n: nat)
    requires qa != qb
    ensures qa * n >= qb * n + n || qb * n >= qa * n + n
  {
    if qa > qb {
      MulLe(qb + 1, qa, n);
    } else {
      MulLe(qa + 1, qb, n);
    }
  }

  /** Epochs that share a slot are whole rings apart. */
  lemma SameSlot(a: int, b: int, n: nat)
    requires n > 0 && SlotIndex(a, n) == SlotIndex(b, n) && a != b
    ensures a >= b + n || b >= a + n
  {
    SlotIndexIs(a, n);
    SlotIndexIs(b, n);
    DivParts(a, n);
    DivParts(b, n);
    if a / n != b / n {
      MultipleGap(a / n, b / n, n);
    }
  }

  lemma DivParts(x: int, n: nat)
    requires n > 0
    ensures x == (x / n) * n + x % n
  {
  }

  // ----- the ring and the log -----

  function EmptySlots(n: nat): seq<Slot> { seq(n, i => Slot(0, Vol(0, 0))) }

  function AddSlot(slots: seq<Slot>, r: Rec): (s: seq<Slot>)
    requires slots != []
    ensures |s| == |slots|
  {
    SlotIndexIs(r.epoch, |slots|);
    var i := SlotIndex(r.epoch, |slots|);
    var cur := if slots[i].epoch != r.epoch then Vol(0, 0) else slots[i].vol;
    slots[i := Slot(r.epoch, cur.Plus(r.vol))]
  }

  function Replay(n: nat, log: seq<Rec>): (s: seq<Slot>)
    requires n > 0
    ensures |s| == n
  {
    if log == [] then EmptySlots(n) else AddSlot(Replay(n, log[..|log| - 1]), log[|log| - 1])
  }

  /** What the ring answers for one epoch. */
  function Read(slots: seq<Slot>, e: int): Vol
    requires slots != []
  {
    SlotIndexIs(e, |slots|);
    var s := slots[SlotIndex(e, |slots|)];
    if s.epoch == e then s.vol else Vol(0, 0)
  }

  /** What the log says for one epoch. */
  function VolAt(log: seq<Rec>, e: int): Vol
  {
    if log == [] then Vol(0, 0)
    else
      var rest := VolAt(log[..|log| - 1], e);
      if log[|log| - 1].epoch == e then rest.Plus(log[|log| - 1].vol) else rest
  }

  predicate NonDecreasing(log: seq<Rec>) { forall i, j | 0 <= i < j < |log| :: log[i].epoch <= log[j].epoch }

  lemma ReadAfterAdd(slots: seq<Slot>, r: Rec, e: int)
    requires slots != []
    ensures Read(AddSlot(slots, r), e) ==
            if e == r.epoch then Read(slots, e).Plus(r.vol)
            else if SlotIndex(e, |slots|) == SlotIndex(r.epoch, |slots|) then Vol(0, 0)
            else Read(slots, e)
  {
    SlotIndexIs(e, |slots|);
    SlotIndexIs(r.epoch, |slots|);
  }

  lemma {:induction false} NothingLater(log: seq<Rec>, e: int)
    requires forall i | 0 <= i < |log| :: log[i].epoch < e
    ensures VolAt(log, e) == Vol(0, 0)
  {
    if log != [] {
      NothingLater(log[..|log| - 1], e);
    }
  }

  /** In arrival order, the ring and the log agree on every epoch less than a ring's length
      behind the newest. */
  lemma {:induction false} RingAgrees(n: nat, log: seq<Rec>, e: int)
    requires n > 0 && NonDecreasing(log)
    requires log != [] ==> e > log[|log| - 1].epoch - n
    ensures Read(Replay(n, log), e) == VolAt(log, e)
  {
    if log == [] {
      SlotIndexIs(e, n);
    } else {
      var init, r := log[..|log| - 1], log[|log| - 1];
      assert init != [] ==> init[|init| - 1].epoch <= r.epoch;
      RingAgrees(n, init, e);
      ReadAfterAdd(Replay(n, init), r, e);
      if e != r.epoch && SlotIndex(e, n) == SlotIndex(r.epoch, n) {
        SameSlot(e, r.epoch, n);
        NothingLater(init, e);
      }
    }
  }

  /** In any arrival order, the ring never answers more than the log. */
  lemma {:induction false} RingNeverOver(n: nat, log: seq<Rec>, e: int)
    requires n > 0
    ensures Read(Replay(n, log), e).AtMost(VolAt(log, e))
  {
    if log == [] {
      SlotIndexIs(e, n);
    } else {
      RingNeverOver(n, log[..|log| - 1], e);
      ReadAfterAdd(Replay(n, log[..|log| - 1]), log[|log| - 1], e);
    }
  }

  /** A sample of epoch `e` that counts for something is overwritten by a later one of another
      epoch of the same slot. */
  ghost predicate Overwritten(n: nat, log: seq<Rec>, e: int)
    requires n > 0
  {
    exists i, j | 0 <= i < j < |log| :: Loses(n, log[i], log[j], e)
  }

  predicate Loses(n: nat, a: Rec, b: Rec, e: int)
    requires n > 0
  {
    a.epoch == e && a.vol != Vol(0, 0) && b.epoch != e && SlotIndex(b.epoch, n) == SlotIndex(e, n)
  }

  lemma {:induction false} NoVolume(log: seq<Rec>, e: int)
    ensures VolAt(log, e) == Vol(0, 0) <==> forall i | 0 <= i < |log| :: log[i].epoch == e ==> log[i].vol == Vol(0, 0)
  {
    if log != [] {
      NoVolume(log[..|log| - 1], e);
    }
  }

  lemma OverwrittenStep(n: nat, init: seq<Rec>, r: Rec, e: int)
    requires n > 0
    ensures Overwritten(n, init + [r], e) <==>
            Overwritten(n, init, e) || (exists i | 0 <= i < |init| :: Loses(n, init[i], r, e))
  {
    var log := init + [r];
    if i, j :| 0 <= i < j < |init| && Loses(n, init[i], init[j], e) {
      assert Loses(n, log[i], log[j], e);
    }
    if i :| 0 <= i < |init| && Loses(n, init[i], r, e) {
      assert Loses(n, log[i], log[|init|], e);
    }
    if i, j :| 0 <= i < j < |log| && Loses(n, log[i], log[j], e) {
      assert if j < |init| then Loses(n, init[i], init[j], e) else Loses(n, init[i], r, e);
    }
  }

  /** A sample that takes the slot over loses whatever was counted for the epoch. */
  lemma TakenOver(n: nat, init: seq<Rec>, r: Rec, e: int)
    requires n > 0 && r.epoch != e && SlotIndex(r.epoch, n) == SlotIndex(e, n)
    ensures Overwritten(n, init + [r], e) <==> VolAt(init, e) != Vol(0, 0)
  {
    OverwrittenStep(n, init, r, e);
    NoVolume(init, e);
    if VolAt(init, e) != Vol(0, 0) {
      var i :| 0 <= i < |init| && init[i].epoch == e && init[i].vol != Vol(0, 0);
      assert Loses(n, init[i], r, e);
    }
    if i, j :| 0 <= i < j < |init| && Loses(n, init[i], init[j], e) {
      assert init[i].epoch == e && init[i].vol != Vol(0, 0);
    }
  }

  lemma NotTakenOver(n: nat, init: seq<Rec>, r: Rec, e: int)
    requires n > 0 && (r.epoch == e || SlotIndex(r.epoch, n) != SlotIndex(e, n))
    ensures Overwritten(n, init + [r], e) <==> Overwritten(n, init, e)
  {
    OverwrittenStep(n, init, r, e);
  }

  lemma PlusCancels(a: Vol, b: Vol, c: Vol)
    ensures a.Plus(c) == b.Plus(c) <==> a == b
  {
  }

  lemma LogSnoc(n: nat, init: seq<Rec>, r: Rec, e: int)
    requires n > 0
    ensures Replay(n, init + [r]) == AddSlot(Replay(n, init), r)
    ensures VolAt(init + [r], e) == if r.epoch == e then VolAt(init, e).Plus(r.vol) else VolAt(init, e)
  {
    assert (init + [r])[..|init|] == init;
  }

  lemma ExactStep(n: nat, init: seq<Rec>, r: Rec, e: int)
    requires n > 0
    requires Read(Replay(n, init), e) == VolAt(init, e) <==> !Overwritten(n, init, e)
    ensures Read(Replay(n, init + [r]), e) == VolAt(init + [r], e) <==> !Overwritten(n, init + [r], e)
  {
    LogSnoc(n, init, r, e);
    ReadAfterAdd(Replay(n, init), r, e);
    if r.epoch == e {
      PlusCancels(Read(Replay(n, init), e), VolAt(init, e), r.vol);
      NotTakenOver(n, init, r, e);
    } else if SlotIndex(r.epoch, n) == SlotIndex(e, n) {
      TakenOver(n, init, r, e);
    } else {
      NotTakenOver(n, init, r, e);
    }
  }

  /** In any arrival order, the ring answers for an epoch what the log does if and only if no
      sample of that epoch was overwritten. */
  lemma {:induction false} RingExactIff(n: nat, log: seq<Rec>, e: int)
    requires n > 0
    ensures Read(Replay(n, log), e) == VolAt(log, e) <==> !Overwritten(n, log, e)
  {
    if log == [] {
      SlotIndexIs(e, n);
    } else {
      var init, r := log[..|log| - 1], log[|log| - 1];
      assert log == init + [r];
      RingExactIff(n, init, e);
      ExactStep(n, init, r, e);
    }
  }

  // ----- windows -----

  /** Total and peak of `count` epochs ending at `hi`, as the ring answers them. */
  function RingTotal(slots: seq<Slot>, hi: int, count: nat): Vol
    requires slots != []
    decreases count
  {
    if count == 0 then Vol(0, 0) else RingTotal(slots, hi - 1, count - 1).Plus(Read(slots, hi))
  }

  function RingPeak(slots: seq<Slot>, hi: int, count: nat): Vol
    requires slots != []
    decreases count
  {
    if count == 0 then Vol(0, 0) else RingPeak(slots, hi - 1, count - 1).Max(Read(slots, hi))
  }

  /** Total of every logged sample in the window. */
  function LogTotal(log: seq<Rec>, hi: int, count: nat): Vol
  {
    if log == [] then Vol(0, 0)
    else
      var rest := LogTotal(log[..|log| - 1], hi, count);
      if hi - count < log[|log| - 1].epoch <= hi then rest.Plus(log[|log| - 1].vol) else rest
  }

  function LogPeak(log: seq<Rec>, hi: int, count: nat): Vol
    decreases count
  {
    if count == 0 then Vol(0, 0) else LogPeak(log, hi - 1, count - 1).Max(VolAt(log, hi))
  }

  lemma {:induction false} LogTotalSplits(log: seq<Rec>, hi: int, count: nat)
    requires count > 0
    ensures LogTotal(log, hi, count) == LogTotal(log, hi - 1, count - 1).Plus(VolAt(log, hi))
  {
    if log != [] {
      var init, r := log[..|log| - 1], log[|log| - 1];
      LogTotalSplits(init, hi, count);
      var whole, part, at := LogTotal(init, hi, count), LogTotal(init, hi - 1, count - 1), VolAt(init, hi);
      assert whole == part.Plus(at);
      if r.epoch == hi {
        assert LogTotal(log, hi, count) == whole.Plus(r.vol) && LogTotal(log, hi - 1, count - 1) == part;
      } else {
        assert VolAt(log, hi) == at;
      }
    }
  }

  lemma {:induction false} LogTotalEmpty(log: seq<Rec>, hi: int)
    ensures LogTotal(log, hi, 0) == Vol(0, 0)
  {
    if log != [] {
      LogTotalEmpty(log[..|log| - 1], hi);
    }
  }

  lemma {:induction false} SumsAgree(slots: seq<Slot>, log: seq<Rec>, hi: int, count: nat)
    requires slots != [] && forall e | hi - count < e <= hi :: Read(slots, e) == VolAt(log, e)
    ensures RingTotal(slots, hi, count) == LogTotal(log, hi, count)
    ensures RingPeak(slots, hi, count) == LogPeak(log, hi, count)
    decreases count
  {
    if count == 0 {
      LogTotalEmpty(log, hi);
    } else {
      SumsAgree(slots, log, hi - 1, count - 1);
      LogTotalSplits(log, hi, count);
    }
  }

  ghost predicate Below(slots: seq<Slot>, log: seq<Rec>, hi: int, count: nat)
    requires slots != []
  {
    forall e | hi - count < e <= hi :: Read(slots, e).AtMost(VolAt(log, e))
  }

  lemma PlusBound(a: Vol, b: Vol, c: Vol, d: Vol)
    requires a.AtMost(c) && b.AtMost(d)
    ensures a.Plus(b).AtMost(c.Plus(d))
  {
  }

  lemma MaxBound(a: Vol, b: Vol, c: Vol, d: Vol)
    requires a.AtMost(c) && b.AtMost(d)
    ensures a.Max(b).AtMost(c.Max(d))
  {
  }

  /** The log's total again, epoch by epoch. */
  function EpochTotal(log: seq<Rec>, hi: int, count: nat): Vol
    decreases count
  {
    if count == 0 then Vol(0, 0) else EpochTotal(log, hi - 1, count - 1).Plus(VolAt(log, hi))
  }

  lemma EpochTotalStep(log: seq<Rec>, hi: int, count: nat, x: Vol, y: Vol)
    requires count > 0 && x == LogTotal(log, hi - 1, count - 1) && y == VolAt(log, hi)
    ensures x.Plus(y) == LogTotal(log, hi, count)
  {
    LogTotalSplits(log, hi, count);
  }

  lemma {:induction false} EpochTotalIs(log: seq<Rec>, hi: int, count: nat)
    ensures EpochTotal(log, hi, count) == LogTotal(log, hi, count)
    decreases count
  {
    if count == 0 {
      LogTotalEmpty(log, hi);
    } else {
      EpochTotalIs(log, hi - 1, count - 1);
      var x, y := EpochTotal(log, hi - 1, count - 1), VolAt(log, hi);
      assert EpochTotal(log, hi, count) == x.Plus(y);
      EpochTotalStep(log, hi, count, x, y);
    }
  }

  lemma {:induction false} TotalBounded(slots: seq<Slot>, log: seq<Rec>, hi: int, count: nat)
    requires slots != [] && Below(slots, log, hi, count)
    ensures RingTotal(slots, hi, count).AtMost(EpochTotal(log, hi, count))
    decreases count
  {
    if count > 0 {
      assert Below(slots, log, hi - 1, count - 1);
      TotalBounded(slots, log, hi - 1, count - 1);
      PlusBound(RingTotal(slots, hi - 1, count - 1), Read(slots, hi), EpochTotal(log, hi - 1, count - 1), VolAt(log, hi));
    }
  }

  lemma {:induction false} PeakBounded(slots: seq<Slot>, log: seq<Rec>, hi: int, count: nat)
    requires slots != [] && Below(slots, log, hi, count)
    ensures RingPeak(slots, hi, count).AtMost(LogPeak(log, hi, count))
    decreases count
  {
    if count > 0 {
      assert Below(slots, log, hi - 1, count - 1);
      PeakBounded(slots, log, hi - 1, count - 1);
      MaxBound(RingPeak(slots, hi - 1, count - 1), Read(slots, hi), LogPeak(log, hi - 1, count - 1), VolAt(log, hi));
    }
  }

  /** A window the ring still holds: exact total and exact peak. */
  lemma WindowExact(n: nat, log: seq<Rec>, hi: int, count: nat)
    requires n > 0 && NonDecreasing(log)
    requires log != [] ==> hi - count >= log[|log| - 1].epoch - n
    ensures RingTotal(Replay(n, log), hi, count) == LogTotal(log, hi, count)
    ensures RingPeak(Replay(n, log), hi, count) == LogPeak(log, hi, count)
  {
    var slots := Replay(n, log);
    forall e | hi - count < e <= hi ensures Read(slots, e) == VolAt(log, e) {
      RingAgrees(n, log, e);
    }
    SumsAgree(slots, log, hi, count);
  }

  /** Any window, any arrival order: never more than was sampled. */
  lemma WindowNeverOver(n: nat, log: seq<Rec>, hi: int, count: nat)
    requires n > 0
    ensures RingTotal(Replay(n, log), hi, count).AtMost(LogTotal(log, hi, count))
    ensures RingPeak(Replay(n, log), hi, count).AtMost(LogPeak(log, hi, count))
  {
    var slots := Replay(n, log);
    forall e | hi - count < e <= hi ensures Read(slots, e).AtMost(VolAt(log, e)) {
      RingNeverOver(n, log, e);
    }
    TotalBounded(slots, log, hi, count);
    EpochTotalIs(log, hi, count);
    PeakBounded(slots, log, hi, count);
  }

  // ----- terms -----

  datatype Metric = PPS | BPS
  datatype Agg = Avg | Peak | Sum

  /** A compiled trigger term; times in nanoseconds. */
  datatype Term = Term(metric: Metric, agg: Agg, window: int, offset: int, slots: int)

  const SECOND: int := 1_000_000_000

  function Count(m: Metric, v: Vol): nat { if m == BPS then v.bytes * 8 else v.packets }

  function Seconds(d: int): real { d as real / SECOND as real }

  /** The number a term reports for a window's total and peak. */
  function Report(t: Term, resolution: int, total: Vol, peak: Vol): real
  {
    match t.agg
    case Sum => Count(t.metric, total) as real
    case Peak => if resolution <= 0 then 0.0 else Count(t.metric, peak) as real / Seconds(resolution)
    case Avg => if t.window <= 0 then 0.0 else Count(t.metric, total) as real / Seconds(t.window)
  }

  /** The reading of a term over a full log. */
  function LogReading(log: seq<Rec>, resolution: int, now: int, t: Term): real
    requires resolution > 0 && t.slots >= 0
  {
    var end := TruncDiv(now - t.offset, resolution);
    Report(t, resolution, LogTotal(log, end, t.slots), LogPeak(log, end, t.slots))
  }

  /** The reading of a term off a ring's slots. */
  function SlotReading(slots: seq<Slot>, resolution: int, now: int, t: Term): real
    requires slots != [] && resolution > 0
  {
    if t.slots <= 0 then 0.0
    else
      var end := TruncDiv(now - t.offset, resolution);
      Report(t, resolution, RingTotal(slots, end, t.slots), RingPeak(slots, end, t.slots))
  }

  // ----- the number reported, by time -----

  /** A packet as it was sampled: when, how long, and how many packets it stands for. */
  datatype Sampled = Sampled(at: int, len: nat, weight: nat)

  /** The bits, or the packets, sampled from time `from` on and before `to`. */
  function Amount(samples: seq<Sampled>, m: Metric, from: int, to: int): nat
  {
    if samples == [] then 0
    else
      var s := samples[|samples| - 1];
      Amount(samples[..|samples| - 1], m, from, to) +
      (if !(from <= s.at < to) then 0 else if m.BPS? then 8 * (s.len * s.weight) else s.weight)
  }

  function Logged(samples: seq<Sampled>, resolution: int): (log: seq<Rec>)
    requires resolution > 0
    ensures |log| == |samples|
  {
    seq(|samples|, i requires 0 <= i < |samples| =>
      Rec(TruncDiv(samples[i].at, resolution), Vol(samples[i].weight, samples[i].len * samples[i].weight)))
  }

  /** The metric's part of a volume. */
  predicate Counts(m: Metric, v: Vol, n: nat) { if m.BPS? then n == 8 * v.bytes else n == v.packets }

  /** An epoch after the Unix epoch is a stretch of time. */
  lemma EpochIsTime(at: int, resolution: int, lo: int, hi: int)
    requires at >= 0 && resolution > 0
    ensures lo < TruncDiv(at, resolution) <= hi <==> (lo + 1) * resolution <= at < (hi + 1) * resolution
  {
    var q := at / resolution;
    assert q * resolution <= at < q * resolution + resolution;
    EpochBound(at, resolution, lo + 1);
    EpochBound(at, resolution, hi + 1);
  }

  lemma EpochBound(at: int, resolution: int, k: int)
    requires at >= 0 && resolution > 0
    ensures k <= at / resolution <==> k * resolution <= at
  {
    var q := at / resolution;
    assert q * resolution <= at < q * resolution + resolution;
    if k <= q {
      MulLe(k, q, resolution);
    } else {
      MulLe(q + 1, k, resolution);
    }
  }

  /** The log's total of a window of epochs is the amount sampled in that time. */
  lemma {:induction false} TotalIsAmount(samples: seq<Sampled>, resolution: int, hi: int, count: nat, m: Metric)
    requires resolution > 0 && forall s | s in samples :: s.at >= 0
    ensures Counts(m, LogTotal(Logged(samples, resolution), hi, count),
                   Amount(samples, m, (hi - count + 1) * resolution, (hi + 1) * resolution))
  {
    if samples != [] {
      var init, s := samples[..|samples| - 1], samples[|samples| - 1];
      assert forall x | x in init :: x in samples;
      TotalIsAmount(init, resolution, hi, count, m);
      EpochIsTime(s.at, resolution, hi - count, hi);
      assert Logged(samples, resolution)[..|samples| - 1] == Logged(init, resolution);
    }
  }

  lemma OneEpochTotal(log: seq<Rec>, e: int)
    ensures LogTotal(log, e, 1) == VolAt(log, e)
  {
    LogTotalSplits(log, e, 1);
    LogTotalEmpty(log, e - 1);
  }

  /** The peak is reached in the window and nowhere exceeded, packets and bytes each by itself. */
  lemma {:induction false} PeakIs(log: seq<Rec>, hi: int, count: nat)
    requires count > 0
    ensures forall e | hi - count < e <= hi :: VolAt(log, e).AtMost(LogPeak(log, hi, count))
    ensures exists e :: hi - count < e <= hi && VolAt(log, e).packets == LogPeak(log, hi, count).packets
    ensures exists e :: hi - count < e <= hi && VolAt(log, e).bytes == LogPeak(log, hi, count).bytes
    decreases count
  {
    var top := VolAt(log, hi);
    if count == 1 {
      assert LogPeak(log, hi - 1, 0) == Vol(0, 0);
    } else {
      PeakIs(log, hi - 1, count - 1);
    }
  }

  /** Amounts of the parts of a window, one per epoch, counted back from its end. */
  function PartAmount(samples: seq<Sampled>, m: Metric, resolution: int, hi: int, i: nat): nat
  {
    Amount(samples, m, (hi - i) * resolution, (hi - i + 1) * resolution)
  }

  lemma PartIsEpoch(samples: seq<Sampled>, m: Metric, resolution: int, hi: int, i: nat)
    requires resolution > 0 && forall s | s in samples :: s.at >= 0
    ensures Counts(m, VolAt(Logged(samples, resolution), hi - i), PartAmount(samples, m, resolution, hi, i))
  {
    TotalIsAmount(samples, resolution, hi - i, 1, m);
    OneEpochTotal(Logged(samples, resolution), hi - i);
  }

  /** `v` a second for `d` nanoseconds is `n` in all. */
  predicate IsRate(n: nat, d: int, v: real) { v * d as real == (n * 1_000_000_000) as real }

  /** `v` a second for `d` nanoseconds is `n` or more. */
  predicate RateCovers(n: nat, d: int, v: real) { v * d as real >= (n * 1_000_000_000) as real }

  /** The largest part, scaled to a second, is what a peak term reports. */
  ghost predicate IsPeakRate(samples: seq<Sampled>, m: Metric, resolution: int, hi: int, count: nat, v: real)
  {
    && (forall i: nat | i < count :: RateCovers(PartAmount(samples, m, resolution, hi, i), resolution, v))
    && (exists i: nat :: i < count && IsRate(PartAmount(samples, m, resolution, hi, i), resolution, v))
  }

  lemma RateIs(n: nat, d: int)
    requires d > 0
    ensures IsRate(n, d, n as real / Seconds(d))
  {
    var s := Seconds(d);
    assert s * 1_000_000_000.0 == d as real;
    assert (n as real / s) * s == n as real;
    assert (n as real / s) * d as real == ((n as real / s) * s) * 1_000_000_000.0;
  }

  lemma LessIsCovered(n: nat, m: nat, d: int, v: real)
    requires IsRate(m, d, v) && n <= m
    ensures RateCovers(n, d, v)
  {
  }

  /** Of two volumes the larger counts for more. */
  lemma CountsAtMost(m: Metric, v: Vol, w: Vol, n: nat)
    requires v.AtMost(w) && Counts(m, v, n)
    ensures n <= Count(m, w)
  {
  }

  lemma SomePartIsPeak(samples: seq<Sampled>, m: Metric, resolution: int, hi: int, count: nat) returns (i: nat)
    requires resolution > 0 && count > 0 && forall s | s in samples :: s.at >= 0
    ensures i < count && PartAmount(samples, m, resolution, hi, i) == Count(m, LogPeak(Logged(samples, resolution), hi, count))
  {
    var log := Logged(samples, resolution);
    PeakIs(log, hi, count);
    var peak := LogPeak(log, hi, count);
    var e :| hi - count < e <= hi && (if m.BPS? then VolAt(log, e).bytes == peak.bytes else VolAt(log, e).packets == peak.packets);
    i := hi - e;
    PartIsEpoch(samples, m, resolution, hi, i);
  }

  lemma PeakReading(samples: seq<Sampled>, resolution: int, hi: int, m: Metric, count: nat)
    requires resolution > 0 && count > 0 && forall s | s in samples :: s.at >= 0
    ensures IsPeakRate(samples, m, resolution, hi, count,
                       Count(m, LogPeak(Logged(samples, resolution), hi, count)) as real / Seconds(resolution))
  {
    var log := Logged(samples, resolution);
    var peak := LogPeak(log, hi, count);
    var v := Count(m, peak) as real / Seconds(resolution);
    RateIs(Count(m, peak), resolution);
    forall i: nat | i < count ensures RateCovers(PartAmount(samples, m, resolution, hi, i), resolution, v) {
      PartIsEpoch(samples, m, resolution, hi, i);
      PeakIs(log, hi, count);
      CountsAtMost(m, VolAt(log, hi - i), peak, PartAmount(samples, m, resolution, hi, i));
      LessIsCovered(PartAmount(samples, m, resolution, hi, i), Count(m, peak), resolution, v);
    }
    var i := SomePartIsPeak(samples, m, resolution, hi, count);
  }

  /** What a number reported for a window says of the samples: a sum is the amount sampled in that
      time, an average the amount per second, a peak the largest epoch's amount per second. */
  ghost predicate Says(samples: seq<Sampled>, resolution: int, now: int, t: Term, v: real)
    requires resolution > 0 && t.slots > 0
  {
    var end := TruncDiv(now - t.offset, resolution);
    var amount := Amount(samples, t.metric, (end + 1) * resolution - t.window, (end + 1) * resolution);
    match t.agg
    case Sum => v == amount as real
    case Avg => IsRate(amount, t.window, v)
    case Peak => IsPeakRate(samples, t.metric, resolution, end, t.slots, v)
  }

  lemma WindowAmount(samples: seq<Sampled>, resolution: int, end: int, slots: nat, m: Metric)
    requires resolution > 0 && forall s | s in samples :: s.at >= 0
    ensures Amount(samples, m, (end + 1) * resolution - slots * resolution, (end + 1) * resolution) ==
            Count(m, LogTotal(Logged(samples, resolution), end, slots))
  {
    TotalIsAmount(samples, resolution, end, slots, m);
    assert (end - slots + 1) * resolution == (end + 1) * resolution - slots * resolution;
  }

  /** For samples after the Unix epoch the log's reading is that number. */
  lemma LogReadingSays(samples: seq<Sampled>, resolution: int, now: int, t: Term)
    requires resolution > 0 && t.slots > 0 && t.window == t.slots * resolution && forall s | s in samples :: s.at >= 0
    ensures Says(samples, resolution, now, t, LogReading(Logged(samples, resolution), resolution, now, t))
  {
    var log, end := Logged(samples, resolution), TruncDiv(now - t.offset, resolution);
    var total := LogTotal(log, end, t.slots);
    WindowAmount(samples, resolution, end, t.slots, t.metric);
    if t.agg.Avg? {
      MulLe(1, t.slots, resolution);
      RateIs(Count(t.metric, total), t.window);
    } else if t.agg.Peak? {
      PeakReading(samples, resolution, end, t.metric, t.slots);
    }
  }

  /** And so is what the ring reports, read `now` or later than all samples. */
  lemma RingReadingSays(c: RingSpec, samples: seq<Sampled>, now: int, t: Term)
    requires c.resolution > 0 && c.slots > 0 && t.window > 0 && t.offset >= 0
    requires CanServe(c, t.window, t.offset) && t.slots == t.window / c.resolution
    requires forall s | s in samples :: 0 <= s.at <= now
    requires now >= 0 && forall i, j | 0 <= i < j < |samples| :: samples[i].at <= samples[j].at
    ensures t.slots > 0 && Says(samples, c.resolution, now, t, SlotReading(Replay(c.slots, Logged(samples, c.resolution)), c.resolution, now, t))
  {
    var log, res := Logged(samples, c.resolution), c.resolution;
    QuotientAtLeastOne(t.window, res);
    forall i, j | 0 <= i < j < |log| ensures log[i].epoch <= log[j].epoch {
      assert samples[i] in samples && samples[j] in samples;
      DivMonotone(samples[i].at, samples[j].at, res);
    }
    forall r | r in log ensures r.epoch <= TruncDiv(now, res) {
      var i :| 0 <= i < |log| && log[i] == r;
      assert samples[i] in samples;
      DivMonotone(samples[i].at, now, res);
    }
    RingRefinesLog(c, log, now, t);
    LogReadingSays(samples, res, now, t);
  }

  lemma QuotientAtLeastOne(w: int, res: int)
    requires 0 < res <= w && w % res == 0
    ensures w / res > 0 && w == (w / res) * res
  {
    DivMonotone(res, w, res);
    QuotientIs(res, res, 1);
  }

  // ----- the ring object -----

  class Ring {
    var slots: array<Slot>
    const resolution: int
    ghost var log: seq<Rec>
    ghost var samples: seq<Sampled>

    ghost predicate Valid()
      reads this, slots
    {
      resolution > 0 && slots.Length > 0 && slots[..] == Replay(slots.Length, log) && log == Logged(samples, resolution)
    }

    constructor (n: nat, resolution: int)
      requires n > 0 && resolution > 0
      ensures Valid() && fresh(slots) && log == [] && samples == [] && slots.Length == n && this.resolution == resolution
    {
      slots := new Slot[n](i => Slot(0, Vol(0, 0)));
      this.resolution := resolution;
      log, samples := [], [];
      new;
      assert slots[..] == EmptySlots(n);
    }

    function Epoch(at: int): int
      requires resolution > 0
    {
      TruncDiv(at, resolution)
    }

    method Add(at: int, packetLen: nat, weight: nat)
      requires Valid()
      modifies this`log, this`samples, slots
      ensures Valid() && slots == old(slots)
      ensures log == old(log) + [Rec(Epoch(at), Vol(weight, packetLen * weight))]
      ensures samples == old(samples) + [Sampled(at, packetLen, weight)]
    {
      var epoch := Epoch(at);
      SlotIndexIs(epoch, slots.Length);
      var idx := SlotIndex(epoch, slots.Length);
      ghost var before := slots[..];
      ghost var r := Rec(epoch, Vol(weight, packetLen * weight));
      if slots[idx].epoch != epoch {
        slots[idx] := Slot(epoch, Vol(0, 0));
      }
      var s := slots[idx];
      slots[idx] := Slot(s.epoch, Vol(s.vol.packets + weight, s.vol.bytes + packetLen * weight));
      assert slots[..] == AddSlot(before, r);
      log := log + [r];
      samples := samples + [Sampled(at, packetLen, weight)];
      assert log == Logged(samples, resolution);
      assert log[..|log| - 1] == old(log);
    }

    /** A term read off the ring's slots. */
    ghost function Reading(now: int, t: Term): real
      requires slots.Length > 0 && resolution > 0
      reads this, slots
    {
      SlotReading(slots[..], resolution, now, t)
    }

    /** Samples came in time order and the term was compiled for a ring of this shape. */
    ghost predicate Serves(now: int, t: Term)
      requires resolution > 0
      reads this, slots
    {
      && NonDecreasing(log) && now >= 0 && (forall r | r in log :: r.epoch <= TruncDiv(now, resolution))
      && t.window > 0 && t.offset >= 0 && t.slots == t.window / resolution
      && CanServe(RingSpec(resolution, slots.Length), t.window, t.offset)
    }

    /** The term was compiled for a ring of this shape, and samples came in time order, after the
        Unix epoch and by `now`. */
    ghost predicate Answers(now: int, t: Term)
      requires resolution > 0
      reads this, slots
    {
      && t.window > 0 && t.offset >= 0 && t.slots == t.window / resolution
      && CanServe(RingSpec(resolution, slots.Length), t.window, t.offset)
      && now >= 0 && (forall s | s in samples :: 0 <= s.at <= now)
      && forall i, j | 0 <= i < j < |samples| :: samples[i].at <= samples[j].at
    }

    method Aggregate(now: int, t: Term) returns (v: real)
      requires Valid()
      ensures v == Reading(now, t)
      ensures Answers(now, t) ==> t.slots > 0 && Says(samples, resolution, now, t, v)
    {
      if Answers(now, t) {
        ReadingSays(now, t);
      }
      if t.slots <= 0 {
        return 0.0;
      }
      var total, peak := Scan(Epoch(now - t.offset), t.slots);
      v := Report(t, resolution, total, peak);
    }

    /** Total and peak of the epochs of a window. */
    method Scan(endEpoch: int, count: nat) returns (total: Vol, peak: Vol)
      requires slots.Length > 0
      ensures total == RingTotal(slots[..], endEpoch, count) && peak == RingPeak(slots[..], endEpoch, count)
    {
      var startEpoch := endEpoch - count + 1;
      var packets: nat, bytes: nat, maxPackets: nat, maxBytes: nat := 0, 0, 0, 0;
      for epoch := startEpoch to endEpoch + 1
        invariant Vol(packets, bytes) == RingTotal(slots[..], epoch - 1, epoch - startEpoch)
        invariant Vol(maxPackets, maxBytes) == RingPeak(slots[..], epoch - 1, epoch - startEpoch)
      {
        SlotIndexIs(epoch, slots.Length);
        var s := slots[SlotIndex(epoch, slots.Length)];
        assert Read(slots[..], epoch) == if s.epoch == epoch then s.vol else Vol(0, 0);
        if s.epoch == epoch {
          packets := packets + s.vol.packets;
          bytes := bytes + s.vol.bytes;
          if s.vol.packets > maxPackets { maxPackets := s.vol.packets; }
          if s.vol.bytes > maxBytes { maxBytes := s.vol.bytes; }
        }
      }
      total, peak := Vol(packets, bytes), Vol(maxPackets, maxBytes);
    }

    /** What the ring reports says how much was sampled in the term's window. */
    lemma ReadingSays(now: int, t: Term)
      requires Valid() && Answers(now, t)
      ensures t.slots > 0 && Says(samples, resolution, now, t, Reading(now, t))
    {
      RingReadingSays(RingSpec(resolution, slots.Length), samples, now, t);
    }

    /** What the ring reports is what the full log would. */
    lemma ReadingIsLog(now: int, t: Term)
      requires Valid() && Serves(now, t) && t.slots > 0
      ensures Reading(now, t) == LogReading(log, resolution, now, t)
    {
      RingRefinesLog(RingSpec(resolution, slots.Length), log, now, t);
    }
  }

  // ----- choosing a ring -----

  datatype RingSpec = RingSpec(resolution: int, slots: int)

  /** A configured ring: the duration must be a positive multiple of the resolution. */
  function CompileRing(resolution: int, duration: int): (r: Option<RingSpec>)
  {
    if resolution <= 0 || duration <= 0 || duration % resolution != 0 then None
    else Some(RingSpec(resolution, duration / resolution))
  }

  /** A compiled ring has a slot and spans its configured duration exactly. */
  lemma CompiledSpan(resolution: int, duration: int)
    requires CompileRing(resolution, duration).Some?
    ensures var c := CompileRing(resolution, duration).value;
            c.resolution > 0 && c.slots > 0 && c.slots * c.resolution == duration
  {
    var q := duration / resolution;
    assert duration == q * resolution;
    if q <= 0 {
      MulLe(q, 0, resolution);
    }
  }

  /** A ring is accepted exactly when its duration is some positive number of resolutions. */
  lemma CompileRingIff(resolution: int, duration: int)
    ensures CompileRing(resolution, duration).Some? <==> resolution > 0 && exists k: nat :: k > 0 && Product(k, resolution) == duration
  {
    if resolution > 0 {
      if k: nat :| k > 0 && Product(k, resolution) == duration {
        MulLe(1, k, resolution);
        QuotientIs(duration, resolution, k);
      }
      if CompileRing(resolution, duration).Some? {
        CompiledSpan(resolution, duration);
        assert Product(duration / resolution, resolution) == duration;
      }
    }
  }

  function Product(a: int, b: int): int { a * b }

  /** The resolution divides window and offset, and the span covers both. */
  predicate CanServe(c: RingSpec, window: int, offset: int)
    requires c.resolution > 0
  {
    && c.resolution <= window && window % c.resolution == 0 && offset % c.resolution == 0
    && c.slots * c.resolution >= window + offset
  }

  /** The first of the coarsest rings that can serve the window, or none if no ring can. */
  method ChooseRing(rings: seq<RingSpec>, window: int, offset: int) returns (r: Option<nat>)
    requires forall c | c in rings :: c.resolution > 0
    ensures r.None? ==> forall i | 0 <= i < |rings| :: !CanServe(rings[i], window, offset)
    ensures r.Some? ==> r.value < |rings| && CanServe(rings[r.value], window, offset)
    ensures r.Some? ==> forall i | 0 <= i < r.value && CanServe(rings[i], window, offset) ::
                          rings[i].resolution < rings[r.value].resolution
    ensures r.Some? ==> forall i | r.value <= i < |rings| && CanServe(rings[i], window, offset) ::
                          rings[i].resolution <= rings[r.value].resolution
  {
    r := None;
    for i := 0 to |rings|
      invariant r.None? ==> forall j | 0 <= j < i :: !CanServe(rings[j], window, offset)
      invariant r.Some? ==> r.value < i && CanServe(rings[r.value], window, offset)
      invariant r.Some? ==> forall j | 0 <= j < r.value && CanServe(rings[j], window, offset) ::
                              rings[j].resolution < rings[r.value].resolution
      invariant r.Some? ==> forall j | r.value <= j < i && CanServe(rings[j], window, offset) ::
                              rings[j].resolution <= rings[r.value].resolution
    {
      var c := rings[i];
      assert c in rings;
      if c.resolution > window || window % c.resolution != 0 || offset % c.resolution != 0 {
        continue;
      }
      if c.slots * c.resolution < window + offset {
        continue;
      }
      if r.None? || c.resolution > rings[r.value].resolution {
        r := Some(i);
      }
    }
  }

  /** An offset of whole epochs moves the window's end back by at most that many epochs. */
  lemma OffsetEpochs(now: int, offset: nat, res: int)
    requires now >= 0 && res > 0 && offset % res == 0
    ensures TruncDiv(now - offset, res) >= TruncDiv(now, res) - offset / res
  {
    var k, q := offset / res, now / res;
    assert offset == k * res && now == q * res + now % res;
    assert (q - k) * res == q * res - k * res;
    if now >= offset {
      QuotientIs(now - offset, res, q - k);
    } else {
      assert offset - now <= (k - q) * res;
      DivMonotone(offset - now, (k - q) * res, res);
      QuotientIs((k - q) * res, res, k - q);
    }
  }

  /** The reach of a chosen ring: window and offset together are at most its slots. */
  lemma ServedFits(c: RingSpec, window: int, offset: nat)
    requires c.resolution > 0 && window > 0 && CanServe(c, window, offset)
    ensures window / c.resolution + offset / c.resolution <= c.slots
  {
    var res := c.resolution;
    var w, o := window / res, offset / res;
    assert window == w * res && offset == o * res;
    assert (w + o) * res <= c.slots * res;
    if w + o >= c.slots + 1 {
      MulLe(c.slots + 1, w + o, res);
    }
  }

  /** A ring picked for a term answers as the full log would: samples in time order, none
      before the Unix epoch, `now` no earlier than the newest. */
  lemma RingRefinesLog(c: RingSpec, log: seq<Rec>, now: int, t: Term)
    requires c.resolution > 0 && c.slots > 0 && t.window > 0 && t.offset >= 0
    requires CanServe(c, t.window, t.offset) && t.slots == t.window / c.resolution
    requires NonDecreasing(log) && now >= 0
    requires forall r | r in log :: r.epoch <= TruncDiv(now, c.resolution)
    ensures t.slots >= 0
    ensures var end := TruncDiv(now - t.offset, c.resolution);
            Report(t, c.resolution, RingTotal(Replay(c.slots, log), end, t.slots),
                                    RingPeak(Replay(c.slots, log), end, t.slots)) ==
            LogReading(log, c.resolution, now, t)
  {
    WindowHeld(c, now, t);
    if log != [] {
      assert log[|log| - 1] in log;
    }
    WindowExact(c.slots, log, TruncDiv(now - t.offset, c.resolution), t.slots);
  }

  /** The window starts less than a ring's length behind the present epoch. */
  lemma WindowHeld(c: RingSpec, now: int, t: Term)
    requires c.resolution > 0 && t.window > 0 && t.offset >= 0 && now >= 0
    requires CanServe(c, t.window, t.offset) && t.slots == t.window / c.resolution
    ensures t.slots >= 0
    ensures TruncDiv(now - t.offset, c.resolution) - t.slots >= TruncDiv(now, c.resolution) - c.slots
  {
    OffsetEpochs(now, t.offset, c.resolution);
    ServedFits(c, t.window, t.offset);
    DivMonotone(0, t.window, c.resolution);
  }

  predicate UpTo(c: RingSpec, log: seq<Rec>, now: int)
    requires c.resolution > 0
  {
    NonDecreasing(log) && now >= 0 && forall r | r in log :: r.epoch <= TruncDiv(now, c.resolution)
  }

  predicate TotalExact(c: RingSpec, log: seq<Rec>, now: int, window: nat, offset: nat)
    requires c.resolution > 0 && c.slots > 0
  {
    var end := TruncDiv(now - offset, c.resolution);
    RingTotal(Replay(c.slots, log), end, window / c.resolution) == LogTotal(log, end, window / c.resolution)
  }

  /** In time order and up to `now`, the ring's total of the window is always the log's. */
  ghost predicate AlwaysExact(c: RingSpec, window: nat, offset: nat)
    requires c.resolution > 0 && c.slots > 0
  {
    forall log, now | UpTo(c, log, now) :: TotalExact(c, log, now, window, offset)
  }

  /** One epoch short is a total short. */
  lemma {:induction false} TotalShort(slots: seq<Slot>, log: seq<Rec>, hi: int, count: nat, e: int)
    requires slots != [] && Below(slots, log, hi, count)
    requires hi - count < e <= hi && Read(slots, e).packets < VolAt(log, e).packets
    ensures RingTotal(slots, hi, count).packets < EpochTotal(log, hi, count).packets
    decreases count
  {
    assert Below(slots, log, hi - 1, count - 1);
    TotalBounded(slots, log, hi - 1, count - 1);
    if e < hi {
      TotalShort(slots, log, hi - 1, count - 1, e);
    }
  }

  lemma RingApart(e: nat, n: nat)
    requires n > 0
    ensures SlotIndex(e + n, n) == SlotIndex(e, n)
  {
    SlotIndexIs(e, n);
    SlotIndexIs(e + n, n);
    DivParts(e, n);
    SumTimes(e / n, 1, n);
    ModIs(e + n, n, e / n + 1, e % n);
  }

  /** A sample is lost to the next one of another epoch of its slot. */
  lemma SecondTakes(n: nat, a: Rec, b: Rec)
    requires n > 0 && a.epoch != b.epoch && SlotIndex(a.epoch, n) == SlotIndex(b.epoch, n)
    ensures Read(Replay(n, [a] + [b]), a.epoch) == Vol(0, 0) && VolAt([a] + [b], a.epoch) == a.vol
  {
    OneLogged(a);
    LogSnoc(n, [a], b, a.epoch);
    ReadAfterAdd(Replay(n, [a]), b, a.epoch);
  }

  lemma OneLogged(a: Rec)
    ensures VolAt([a], a.epoch) == a.vol
  {
    assert [a][..0] == [];
  }

  /** A ring shorter than window and offset loses the window's first epoch to a later sample. */
  lemma ShortRingLoses(n: nat, k: nat, l: nat) returns (log: seq<Rec>)
    requires 0 < n < k + l && k > 0
    ensures NonDecreasing(log) && forall r | r in log :: r.epoch <= k + l
    ensures RingTotal(Replay(n, log), k, k) != LogTotal(log, k, k)
  {
    log := [Rec(1, Vol(1, 0)), Rec(1 + n, Vol(1, 0))];
    RingApart(1, n);
    SecondTakes(n, log[0], log[1]);
    assert log == [log[0]] + [log[1]];
    forall e | 0 < e <= k ensures Read(Replay(n, log), e).AtMost(VolAt(log, e)) {
      RingNeverOver(n, log, e);
    }
    TotalShort(Replay(n, log), log, k, k, 1);
    EpochTotalIs(log, k, k);
  }

  /** The rings that can serve a term are exactly those whose epochs divide window and offset and
      whose total for the window is the log's on every ordered log. */
  lemma CanServeIff(c: RingSpec, window: nat, offset: nat)
    requires c.resolution > 0 && c.slots > 0 && window > 0
    ensures CanServe(c, window, offset) <==>
            window % c.resolution == 0 && offset % c.resolution == 0 && AlwaysExact(c, window, offset)
  {
    if CanServe(c, window, offset) {
      forall log, now | UpTo(c, log, now) ensures TotalExact(c, log, now, window, offset) {
        WindowTotalExact(c, log, now, window, offset);
      }
    } else if window % c.resolution == 0 && offset % c.resolution == 0 {
      TooShort(c, window, offset);
    }
  }

  lemma TooShort(c: RingSpec, window: nat, offset: nat)
    requires c.resolution > 0 && c.slots > 0 && window > 0 && !CanServe(c, window, offset)
    requires window % c.resolution == 0 && offset % c.resolution == 0
    ensures !AlwaysExact(c, window, offset)
  {
    var k, l, now := window / c.resolution, offset / c.resolution, window + offset;
    SpanShort(c.resolution, c.slots, window, offset);
    var log := ShortRingLoses(c.slots, k, l);
    assert UpTo(c, log, now) && !TotalExact(c, log, now, window, offset);
  }

  /** A span too short in time is too short in epochs, of which `window + offset` is a whole number. */
  lemma SpanShort(res: int, slots: int, window: nat, offset: nat)
    requires res > 0 && window > 0 && window % res == 0 && offset % res == 0
    requires !(res <= window && slots * res >= window + offset)
    ensures slots < window / res + offset / res && window / res > 0
    ensures TruncDiv(window + offset, res) == window / res + offset / res && TruncDiv(window, res) == window / res
  {
    var k, l := window / res, offset / res;
    Multiple(window, res);
    Multiple(offset, res);
    if k <= 0 {
      MulLe(k, 0, res);
    }
    MulLe(1, k, res);
    SumTimes(k, l, res);
    if slots >= k + l {
      MulLe(k + l, slots, res);
    }
    QuotientIs(window + offset, res, k + l);
  }

  lemma Multiple(x: int, d: int)
    requires d > 0 && x % d == 0
    ensures x == (x / d) * d
  {
  }

  lemma SumTimes(a: int, b: int, d: int)
    ensures (a + b) * d == a * d + b * d && (a + b + 1) * d == a * d + b * d + d
  {
  }

  lemma WindowTotalExact(c: RingSpec, log: seq<Rec>, now: int, window: nat, offset: nat)
    requires c.resolution > 0 && c.slots > 0 && window > 0 && CanServe(c, window, offset)
    requires UpTo(c, log, now)
    ensures TotalExact(c, log, now, window, offset)
  {
    WindowHeld(c, now, Term(PPS, Sum, window, offset, window / c.resolution));
    if log != [] {
      assert log[|log| - 1] in log;
    }
    WindowExact(c.slots, log, TruncDiv(now - offset, c.resolution), window / c.resolution);
  }

  /** Without the order, a reading is never too high. */
  lemma ReadingNeverOver(n: nat, log: seq<Rec>, resolution: int, now: int, t: Term, end: int)
    requires n > 0 && resolution > 0 && t.slots >= 0 && end == TruncDiv(now - t.offset, resolution)
    ensures Report(t, resolution, RingTotal(Replay(n, log), end, t.slots), RingPeak(Replay(n, log), end, t.slots)) <=
            LogReading(log, resolution, now, t)
  {
    WindowNeverOver(n, log, end, t.slots);
    ReportMonotone(t, resolution, RingTotal(Replay(n, log), end, t.slots), LogTotal(log, end, t.slots),
                   RingPeak(Replay(n, log), end, t.slots), LogPeak(log, end, t.slots));
  }

  lemma DivPositive(a: real, b: real, d: real)
    requires a <= b && d > 0.0
    ensures a / d <= b / d
  {
  }

  lemma ReportMonotone(t: Term, resolution: int, total: Vol, total': Vol, peak: Vol, peak': Vol)
    requires total.AtMost(total') && peak.AtMost(peak')
    ensures Report(t, resolution, total, peak) <= Report(t, resolution, total', peak')
  {
    var m := t.metric;
    assert Count(m, total) <= Count(m, total') && Count(m, peak) <= Count(m, peak');
    if t.agg.Peak? && resolution > 0 {
      DivPositive(resolution as real, resolution as real, SECOND as real);
      DivPositive(Count(m, peak) as real, Count(m, peak') as real, Seconds(resolution));
    } else if t.agg.Avg? && t.window > 0 {
      DivPositive(Count(m, total) as real, Count(m, total') as real, Seconds(t.window));
    }
  }
}
