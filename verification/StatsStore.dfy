/**
  The store of interface rates: one set of three rings per interface, found by name or alias,
  a running total of the latest rates, and windows over one interface or over all of them.
 */
module StatsStore {
  import opened Arith
  import opened FlowSpec
  import opened StatsRing
  import SR = SampleRing

  const SECOND: int := 1_000_000_000

  /** A ring's resolution and duration, in nanoseconds. */
  datatype Span = Span(resolution: int, duration: int)
  {
    function OrDefault(d: Span): Span
    {
      Span(if resolution <= 0 then d.resolution else resolution, if duration <= 0 then d.duration else duration)
    }

    /** Configured with less than one slot; such a ring still gets one. */
    predicate Degenerate() { duration < resolution }
  }

  /** The fine, medium and coarse ring. */
  datatype RingConfig = RingConfig(fine: Span, medium: Span, coarse: Span)
  {
    function Spans(): (s: seq<Span>)
      ensures |s| == 3
    {
      [fine, medium, coarse]
    }

    predicate Filled() { forall s | s in Spans() :: s.resolution > 0 && s.duration > 0 }

    function WithDefaults(): (c: RingConfig)
      ensures c.Filled()
      ensures Filled() ==> c == this
    {
      RingConfig(fine.OrDefault(Span(SECOND, 300 * SECOND)),
                 medium.OrDefault(Span(60 * SECOND, 86_400 * SECOND)),
                 coarse.OrDefault(Span(3_600 * SECOND, 2_592_000 * SECOND)))
    }
  }

  /** The test made at startup, on the configured durations. */
  predicate ConfigCovers(c: RingConfig, window: int, offset: int)
  {
    exists s | s in c.WithDefaults().Spans() ::
      RingCovers(s.resolution, TruncDiv(s.duration, s.resolution), window, offset)
  }

  /** One ring of whole seconds can serve the window. */
  predicate SecondsCover(seconds: int, span: int, window: int, offset: int)
    requires seconds > 0
  {
    var unit := seconds * 1_000_000_000;
    window >= unit && window % unit == 0 && offset % unit == 0 && window + offset <= span * unit
  }

  /** Without a configuration: whole seconds within five minutes, whole minutes within a day, or
      whole hours within thirty days. */
  lemma DefaultCoversIff(window: int, offset: int)
    ensures var unset := Span(0, 0);
            ConfigCovers(RingConfig(unset, unset, unset), window, offset) <==>
            SecondsCover(1, 300, window, offset) || SecondsCover(60, 1440, window, offset) || SecondsCover(3600, 720, window, offset)
  {
    var unset := Span(0, 0);
    var ss := RingConfig(unset, unset, unset).WithDefaults().Spans();
    assert ss[0] in ss && ss[1] in ss && ss[2] in ss;
    forall i | 0 <= i < 3 {
      CoversIff(ss[i].resolution, TruncDiv(ss[i].duration, ss[i].resolution), window, offset);
    }
  }

  /** The three empty rings of an interface. */
  function NewRings(c: RingConfig): (rs: seq<Ring>)
    requires c.Filled()
    ensures |rs| == 3 && forall i | 0 <= i < 3 :: Unused(rs[i]) && rs[i].resolution == c.Spans()[i].resolution
  {
    var ss := c.Spans();
    assert forall i | 0 <= i < 3 :: ss[i] in ss;
    seq(3, i requires 0 <= i < 3 => NewRing(ss[i].resolution, ss[i].duration))
  }

  /** `k` is the first of the coarsest covering rings. */
  ghost predicate IsChoice(rings: seq<Ring>, window: int, offset: int, k: int)
  {
    && 0 <= k < |rings| && Serves(rings[k], window, offset)
    && (forall i | 0 <= i < k && Serves(rings[i], window, offset) :: rings[i].resolution < rings[k].resolution)
    && (forall i | k <= i < |rings| && Serves(rings[i], window, offset) :: rings[i].resolution <= rings[k].resolution)
  }

  predicate Serves(r: Ring, window: int, offset: int) { RingCovers(r.resolution, |r.slots|, window, offset) }

  predicate SameShape(a: seq<Ring>, b: seq<Ring>)
  {
    |a| == |b| && forall i | 0 <= i < |a| :: a[i].resolution == b[i].resolution && |a[i].slots| == |b[i].slots|
  }

  /** Rings of one shape are chosen alike. */
  lemma ChoiceByShape(a: seq<Ring>, b: seq<Ring>, window: int, offset: int, j: int, k: int)
    requires SameShape(a, b) && IsChoice(a, window, offset, j) && IsChoice(b, window, offset, k)
    ensures j == k
  {
    assert Serves(a[j], window, offset) && Serves(a[k], window, offset);
  }

  method ChooseRing(rings: seq<Ring>, window: int, offset: int) returns (best: Option<nat>)
    ensures best.None? ==> forall i | 0 <= i < |rings| :: !Serves(rings[i], window, offset)
    ensures best.Some? ==> IsChoice(rings, window, offset, best.value)
  {
    best := None;
    for i := 0 to |rings|
      invariant best.None? ==> forall j | 0 <= j < i :: !Serves(rings[j], window, offset)
      invariant best.Some? ==> best.value < i && IsChoice(rings[..i], window, offset, best.value)
    {
      assert forall j | 0 <= j < i :: rings[..i + 1][j] == rings[..i][j];
      if !RingCovers(rings[i].resolution, |rings[i].slots|, window, offset) {
        continue;
      }
      if best.None? || rings[i].resolution > rings[best.value].resolution {
        best := Some(i);
      }
    }
    assert rings[..|rings|] == rings;
  }

  lemma {:induction false} ChoiceExists(rings: seq<Ring>, window: int, offset: int, i: nat, m: nat)
    requires i < m <= |rings| && Serves(rings[i], window, offset)
    ensures exists k :: IsChoice(rings[..m], window, offset, k)
    decreases m
  {
    var last := rings[m - 1];
    if j :| 0 <= j < m - 1 && Serves(rings[j], window, offset) {
      ChoiceExists(rings, window, offset, j, m - 1);
      var k :| IsChoice(rings[..m - 1], window, offset, k);
      var better := if Serves(last, window, offset) && last.resolution > rings[k].resolution then m - 1 else k;
      assert forall j | 0 <= j < m - 1 :: rings[..m][j] == rings[..m - 1][j];
      assert IsChoice(rings[..m], window, offset, better);
    } else {
      assert IsChoice(rings[..m], window, offset, m - 1);
    }
  }

  // ----- startup check against runtime choice -----

  lemma SlotCount(res: int, dur: int)
    requires res > 0 && dur > 0
    ensures |NewRing(res, dur).slots| == Max(1, TruncDiv(dur, res))
    ensures dur < res <==> TruncDiv(dur, res) < 1
  {
    if dur >= res {
      DivMonotone(res, dur, res);
    }
  }

  /** One ring: served at run time exactly when it passed the startup test, or when it was
      configured too short for one slot and the window is that slot. */
  lemma ServesIff(s: Span, window: int, offset: nat)
    requires s.resolution > 0 && s.duration > 0
    ensures Serves(NewRing(s.resolution, s.duration), window, offset) <==>
            RingCovers(s.resolution, TruncDiv(s.duration, s.resolution), window, offset)
            || (s.Degenerate() && window == s.resolution && offset == 0)
  {
    SlotCount(s.resolution, s.duration);
    if s.Degenerate() && window == s.resolution && offset == 0 {
      QuotientIs(window, s.resolution, 1);
    }
  }

  /** A window the startup test passes always finds a ring. The converse fails only for a ring
      configured shorter than its own resolution. */
  lemma CoveredFindsRing(c: RingConfig, window: int, offset: nat)
    ensures (exists i :: 0 <= i < 3 && Serves(NewRings(c.WithDefaults())[i], window, offset)) <==>
            ConfigCovers(c, window, offset)
            || (offset == 0 && exists s | s in c.WithDefaults().Spans() :: s.Degenerate() && window == s.resolution)
  {
    var ss := c.WithDefaults().Spans();
    forall i | 0 <= i < 3
      ensures Serves(NewRings(c.WithDefaults())[i], window, offset) <==>
              RingCovers(ss[i].resolution, TruncDiv(ss[i].duration, ss[i].resolution), window, offset)
              || (ss[i].Degenerate() && window == ss[i].resolution && offset == 0)
    {
      assert ss[i] in ss;
      ServesIff(ss[i], window, offset);
    }
  }

  // ----- sums over interfaces, in any order -----

  ghost function SumRates(m: map<string, Rates>): Rates
  {
    if m == map[] then Rates(0.0, 0.0, 0.0, 0.0, 0.0, 0.0)
    else
      var x :| x in m;
      m[x].Plus(SumRates(m - {x}))
  }

  lemma PlusSwap(a: Rates, b: Rates, c: Rates)
    ensures a.Plus(b.Plus(c)) == b.Plus(a.Plus(c))
  {
  }

  lemma {:induction false} SumPick(m: map<string, Rates>, x: string)
    requires x in m
    ensures SumRates(m) == m[x].Plus(SumRates(m - {x}))
    decreases |m|
  {
    var y :| y in m && SumRates(m) == m[y].Plus(SumRates(m - {y}));
    if x != y {
      SumPick(m - {y}, x);
      SumPick(m - {x}, y);
      assert m - {x} - {y} == m - {y} - {x};
      PlusSwap(m[x], m[y], SumRates(m - {x} - {y}));
    }
  }

  /** One more interface adds its rates. */
  lemma SumAdd(m: map<string, Rates>, x: string, v: Rates)
    requires x !in m
    ensures SumRates(m[x := v]) == SumRates(m).Plus(v)
  {
    SumPick(m[x := v], x);
    assert m[x := v] - {x} == m;
  }

  /** One more of the wanted interfaces summed. */
  lemma SumStep(want: map<string, Rates>, left: set<string>, x: string)
    requires x in want && x in left
    ensures SumRates(want - (left - {x})) == SumRates(want - left).Plus(want[x])
  {
    SumAdd(want - left, x, want[x]);
    assert want - (left - {x}) == (want - left)[x := want[x]];
  }

  lemma {:induction false} SumMonotone(a: map<string, Rates>, b: map<string, Rates>)
    requires a.Keys == b.Keys && forall x | x in a :: a[x].AtMost(b[x])
    ensures SumRates(a).AtMost(SumRates(b))
    decreases |a|
  {
    if a == map[] {
      assert b == map[];
    } else {
      var x :| x in a;
      SumMonotone(a - {x}, b - {x});
      SumPick(a, x);
      SumPick(b, x);
    }
  }

  // ----- interfaces -----

  /** An interface's rings, fine to coarse, and its latest poll. */
  datatype Interface = Interface(rings: seq<Ring>, last: Poll)

  /** The rings a log of polls leaves behind. */
  ghost function RingsOf(c: RingConfig, log: seq<Poll>): (rs: seq<Ring>)
    requires c.Filled()
    ensures |rs| == 3 && SameShape(rs, NewRings(c)) && forall r | r in rs :: r.Valid()
  {
    seq(3, i requires 0 <= i < 3 => Replay(NewRings(c)[i], log))
  }

  ghost predicate Reflects(c: RingConfig, itf: Interface, log: seq<Poll>)
    requires c.Filled()
  {
    log != [] && itf.rings == RingsOf(c, log) && itf.last == log[|log| - 1]
  }

  lemma RingsOfStep(c: RingConfig, log: seq<Poll>, p: Poll)
    requires c.Filled()
    ensures forall i | 0 <= i < 3 :: RingsOf(c, log + [p])[i] == RingsOf(c, log)[i].Add(p)
  {
    assert (log + [p])[..|log|] == log;
  }

  lemma NoPolls(c: RingConfig)
    requires c.Filled()
    ensures RingsOf(c, []) == NewRings(c)
  {
  }

  /** A poll added to each ring of an interface. */
  method AddTo(rings: seq<Ring>, p: Poll, ghost c: RingConfig, ghost log: seq<Poll>) returns (itf: Interface)
    requires c.Filled() && rings == RingsOf(c, log)
    ensures Reflects(c, itf, log + [p])
  {
    RingsOfStep(c, log, p);
    assert rings[0] in rings && rings[1] in rings && rings[2] in rings;
    itf := Interface([rings[0].Add(p), rings[1].Add(p), rings[2].Add(p)], p);
    assert itf.rings == RingsOf(c, log + [p]);
  }

  /** Latest rates by interface. */
  function Latest(ifs: map<string, Interface>): map<string, Rates> { map n | n in ifs :: ifs[n].last.rates }

  // ----- windows over interfaces of one shape -----

  /** The ring every interface of this shape is read from: the first of the coarsest that
      serve, or -1. */
  ghost function Choice(shape: seq<Ring>, window: int, offset: int): (k: int)
    ensures k >= 0 ==> IsChoice(shape, window, offset, k)
    ensures k < 0 ==> forall j :: !IsChoice(shape, window, offset, j)
  {
    if exists j :: IsChoice(shape, window, offset, j) then var j :| IsChoice(shape, window, offset, j); j else -1
  }

  ghost predicate Shaped(shape: seq<Ring>, itf: Interface)
  {
    SameShape(itf.rings, shape) && forall i | 0 <= i < |itf.rings| :: itf.rings[i].Valid()
  }

  ghost function Read(shape: seq<Ring>, itf: Interface, now: int, window: int, offset: int, peak: bool): Rates
    requires Shaped(shape, itf) && Choice(shape, window, offset) >= 0
  {
    Reading(itf.rings[Choice(shape, window, offset)], now, window, offset, peak)
  }

  ghost predicate AllShaped(shape: seq<Ring>, ifs: map<string, Interface>)
  {
    forall n | n in ifs :: Shaped(shape, ifs[n])
  }

  /** The reading of every interface. */
  ghost function ReadAll(shape: seq<Ring>, ifs: map<string, Interface>, now: int, window: int, offset: int, peak: bool): map<string, Rates>
    requires AllShaped(shape, ifs) && Choice(shape, window, offset) >= 0
  {
    map n | n in ifs :: Read(shape, ifs[n], now, window, offset, peak)
  }

  method WindowOf(ghost shape: seq<Ring>, itf: Interface, now: int, window: int, offset: int, peak: bool)
    returns (r: Option<Rates>)
    requires Shaped(shape, itf)
    ensures r.Some? <==> Choice(shape, window, offset) >= 0
    ensures r.Some? ==> r.value == Read(shape, itf, now, window, offset, peak)
  {
    var k := ChooseRing(itf.rings, window, offset);
    SameChoices(itf.rings, shape, window, offset);
    if k.None? {
      return None;
    }
    ChoiceByShape(shape, shape, window, offset, Choice(shape, window, offset), k.value);
    var v := Aggregate(itf.rings[k.value], now, window, offset, peak);
    r := Some(v);
  }

  /** The sum of all readings, whatever order the interfaces come in. */
  method SumWindows(ghost shape: seq<Ring>, ifs: map<string, Interface>, now: int, window: int, offset: int, peak: bool)
    returns (r: Option<Rates>)
    requires AllShaped(shape, ifs)
    ensures r.Some? <==> ifs != map[] && Choice(shape, window, offset) >= 0
    ensures r.Some? ==> r.value == SumRates(ReadAll(shape, ifs, now, window, offset, peak))
  {
    var t, any, left := ZERO, false, ifs.Keys;
    ghost var can := Choice(shape, window, offset) >= 0;
    ghost var want := if can then ReadAll(shape, ifs, now, window, offset, peak) else map[];
    assert want - left == map[];
    while left != {}
      invariant left <= ifs.Keys && t == SumRates(want - left)
      invariant any <==> can && left != ifs.Keys
      decreases left
    {
      var n :| n in left;
      var v := WindowOf(shape, ifs[n], now, window, offset, peak);
      if v.Some? {
        SumStep(want, left, n);
        t, any := t.Plus(v.value), true;
      } else {
        assert want - left == want - (left - {n});
      }
      left := left - {n};
    }
    assert want - left == want;
    r := if any then Some(t) else None;
  }

  class Store {
    var interfaces: map<string, Interface>
    var byAlias: map<string, string>
    var total: Rates
    const config: RingConfig
    ghost var logs: map<string, seq<Poll>>

    ghost predicate Valid()
      reads this
    {
      && config.Filled() && logs.Keys == interfaces.Keys
      && (forall n | n in interfaces :: Reflects(config, interfaces[n], logs[n]))
      && AllShaped(NewRings(config), interfaces)
      && byAlias.Values <= interfaces.Keys
      && total == SumRates(Latest(interfaces))
    }

    constructor (c: RingConfig)
      ensures Valid() && logs == map[] && config == c.WithDefaults()
    {
      interfaces, byAlias, total, logs := map[], map[], ZERO, map[];
      config := c.WithDefaults();
    }

    /** The log of a name, empty when unknown. */
    ghost function LogOf(name: string): seq<Poll>
      reads this
    {
      if name in logs then logs[name] else []
    }

    method Add(name: string, aliases: seq<string>, p: Poll)
      requires Valid()
      modifies this
      ensures Valid()
      ensures logs == old(logs)[name := old(LogOf(name)) + [p]]
      ensures forall a :: a in byAlias <==> a in old(byAlias) || (a in aliases && a != "" && a != name)
      ensures forall a | a in byAlias ::
                byAlias[a] == if a in aliases && a != "" && a != name then name else old(byAlias)[a]
    {
      AddPoll(name, p);
      RegisterAliases(name, aliases);
      RecomputeTotal();
    }

    /** The poll reaches all three rings of its interface, which is created when new. */
    method AddPoll(name: string, p: Poll)
      requires Valid()
      modifies this`interfaces, this`logs
      ensures logs == old(logs)[name := old(LogOf(name)) + [p]] && logs.Keys == interfaces.Keys
      ensures forall n | n in interfaces :: Reflects(config, interfaces[n], logs[n])
      ensures interfaces.Keys == old(interfaces).Keys + {name}
    {
      var rings := if name in interfaces then interfaces[name].rings else NewRings(config);
      ghost var log := LogOf(name);
      NoPolls(config);
      var itf := AddTo(rings, p, config, log);
      assert Reflects(config, itf, log + [p]);
      assert forall n | n in interfaces :: Reflects(config, interfaces[n], logs[n]);
      interfaces := interfaces[name := itf];
      logs := logs[name := log + [p]];
    }

    method RegisterAliases(name: string, aliases: seq<string>)
      requires name in interfaces && byAlias.Values <= interfaces.Keys
      modifies this`byAlias
      ensures byAlias.Values <= interfaces.Keys
      ensures forall a :: a in byAlias <==> a in old(byAlias) || (a in aliases && a != "" && a != name)
      ensures forall a | a in byAlias ::
                byAlias[a] == if a in aliases && a != "" && a != name then name else old(byAlias)[a]
    {
      for i := 0 to |aliases|
        invariant byAlias.Values <= interfaces.Keys
        invariant forall a :: a in byAlias <==> a in old(byAlias) || (a in aliases[..i] && a != "" && a != name)
        invariant forall a | a in byAlias ::
                    byAlias[a] == if a in aliases[..i] && a != "" && a != name then name else old(byAlias)[a]
      {
        if aliases[i] != "" && aliases[i] != name {
          byAlias := byAlias[aliases[i] := name];
        }
      }
    }

    /** The total is the sum of the latest rates, whatever order the interfaces come in. */
    method RecomputeTotal()
      modifies this`total
      ensures total == SumRates(Latest(interfaces))
    {
      var t, done: map<string, Rates>, left := ZERO, map[], interfaces.Keys;
      while left != {}
        invariant left <= interfaces.Keys && done.Keys == interfaces.Keys - left
        invariant forall n | n in done :: done[n] == interfaces[n].last.rates
        invariant t == SumRates(done)
        decreases left
      {
        var n :| n in left;
        t := t.Plus(interfaces[n].last.rates);
        SumAdd(done, n, interfaces[n].last.rates);
        done, left := done[n := interfaces[n].last.rates], left - {n};
      }
      assert done == Latest(interfaces);
      total := t;
    }

    function FindRing(name: string): (r: Option<string>)
      requires Valid()
      reads this
      ensures r.Some? ==> r.value in interfaces
      ensures r.Some? <==> name in interfaces || name in byAlias
    {
      if name in interfaces then Some(name)
      else if name in byAlias then assert byAlias[name] in byAlias.Values; Some(byAlias[name])
      else None
    }

    /** What passed the startup test finds a ring on every interface. */
    lemma CoveredHasChoice(window: int, offset: nat)
      requires Valid() && ConfigCovers(config, window, offset)
      ensures Choice(NewRings(config), window, offset) >= 0
    {
      CoveredFindsRing(config, window, offset);
      var i :| 0 <= i < 3 && Serves(NewRings(config)[i], window, offset);
      ChoiceExists(NewRings(config), window, offset, i, 3);
      assert NewRings(config)[..3] == NewRings(config);
    }

    /** One interface's window: none when it is unknown or no ring serves the window. */
    method InterfaceWindow(name: string, now: int, window: int, offset: int, peak: bool) returns (r: Option<Rates>)
      requires Valid()
      ensures r.Some? <==> FindRing(name).Some? && Choice(NewRings(config), window, offset) >= 0
      ensures r.Some? ==> r.value == Read(NewRings(config), interfaces[FindRing(name).value], now, window, offset, peak)
    {
      var found := FindRing(name);
      if found.None? {
        return None;
      }
      r := WindowOf(NewRings(config), interfaces[found.value], now, window, offset, peak);
    }

    /** Every interface is read off the ring of one and the same choice, and the readings summed. */
    method TotalWindow(now: int, window: int, offset: int, peak: bool) returns (r: Option<Rates>)
      requires Valid()
      ensures r.Some? <==> interfaces != map[] && Choice(NewRings(config), window, offset) >= 0
      ensures r.Some? ==> r.value == SumRates(ReadAll(NewRings(config), interfaces, now, window, offset, peak))
    {
      r := SumWindows(NewRings(config), interfaces, now, window, offset, peak);
    }

    /** For peaks, the total bounds from above the sum over interfaces at every epoch of the
        window, each interface at the mean of its logged polls. */
    lemma TotalPeakBounds(now: int, window: int, offset: nat, e: int)
      requires Valid() && Choice(NewRings(config), window, offset) >= 0 && now >= 0
      requires forall n | n in logs :: InOrder(logs[n]) && forall p | p in logs[n] :: p.at <= now
      requires InWindow(NewRings(config)[Choice(NewRings(config), window, offset)].resolution, now, window, offset, e)
      ensures SumRates(EpochMeans(logs, NewRings(config)[Choice(NewRings(config), window, offset)].resolution, e)).AtMost(
                SumRates(ReadAll(NewRings(config), interfaces, now, window, offset, true)))
    {
      var rings := NewRings(config);
      var empty := rings[Choice(rings, window, offset)];
      forall n | n in interfaces
        ensures EpochMeans(logs, empty.resolution, e)[n].AtMost(ReadAll(rings, interfaces, now, window, offset, true)[n])
      {
        EpochBelowPeak(empty, logs[n], now, window, offset, e);
      }
      SumMonotone(EpochMeans(logs, empty.resolution, e), ReadAll(rings, interfaces, now, window, offset, true));
    }
  }

  /** The epochs a window of whole epochs reads. */
  predicate InWindow(res: int, now: int, window: int, offset: int, e: int)
    requires res > 0
  {
    TruncDiv(now - offset, res) - window / res < e <= TruncDiv(now - offset, res)
  }

  /** Each interface's mean over the polls of one epoch. */
  ghost function EpochMeans(logs: map<string, seq<Poll>>, res: int, e: int): map<string, Rates>
    requires res > 0
  {
    map n | n in logs :: TallyAt(res, logs[n], e).Mean()
  }

  /** One interface: the mean of an epoch's polls is at most the window's peak. */
  lemma EpochBelowPeak(empty: Ring, log: seq<Poll>, now: int, window: int, offset: nat, e: int)
    requires Unused(empty) && InOrder(log) && (forall p | p in log :: p.at <= now) && now >= 0
    requires Serves(empty, window, offset)
    requires InWindow(empty.resolution, now, window, offset, e)
    ensures TallyAt(empty.resolution, log, e).Mean().AtMost(Reading(Replay(empty, log), now, window, offset, true))
  {
    var res, n := empty.resolution, |empty.slots|;
    CoveredFits(n, res, window, offset);
    SR.OffsetEpochs(now, offset, res);
    if log != [] {
      assert log[|log| - 1] in log;
      TruncDivMonotone(log[|log| - 1].at, now, res);
    }
    SlotIsMean(empty, log, e);
    PeakBounds(Replay(empty, log), TruncDiv(now - offset, res), window / res, e);
  }

  /** Rings of one shape serve alike. */
  lemma SameChoices(a: seq<Ring>, b: seq<Ring>, window: int, offset: int)
    requires SameShape(a, b)
    ensures forall i | 0 <= i < |a| :: Serves(a[i], window, offset) == Serves(b[i], window, offset)
    ensures forall k :: IsChoice(a, window, offset, k) == IsChoice(b, window, offset, k)
  {
  }
}
