/**
  Saved detection history. Exporting an engine and importing the export into a fresh engine
  with the same rules restores every instance. A tick computes each trigger term from an
  instance's rings or the interface statistics, and the export determines all it reads, so from
  there on both engines report the same events.
 */
module Persistence {
  import opened Arith
  import opened FlowSpec
  import opened Findings
  import opened Detector
  import SR = SampleRing
  import SG = StatsRing

  // ----- identities -----

  /** A descriptor; an address may be the zero address. */
  type Key = Described<Option<Addr>>

  /** A descriptor with its addresses in bytes. */
  type KeyState = Described<seq<Byte>>

  function ToBytes(v: nat, n: nat): (s: seq<Byte>)
    ensures |s| == n
  {
    if n == 0 then [] else ToBytes(v / 256, n - 1) + [v % 256]
  }

  function FromBytes(s: seq<Byte>): nat
  {
    if s == [] then 0 else FromBytes(s[..|s| - 1]) * 256 + s[|s| - 1]
  }

  lemma Pow2Byte(n: nat)
    requires n > 0
    ensures Pow2(8 * n) == 256 * Pow2(8 * (n - 1))
  {
    Pow2Add(8, 8 * (n - 1));
    assert Pow2(8) == 2 * (2 * (2 * (2 * (2 * (2 * (2 * (2 * Pow2(0))))))));
  }

  lemma {:induction false} BytesRoundTrip(v: nat, n: nat)
    requires v < Pow2(8 * n)
    ensures FromBytes(ToBytes(v, n)) == v
  {
    if n > 0 {
      Pow2Byte(n);
      BytesRoundTrip(v / 256, n - 1);
      var s := ToBytes(v, n);
      assert s[..|s| - 1] == ToBytes(v / 256, n - 1);
    }
  }

  lemma {:induction false} FromBytesBound(s: seq<Byte>)
    ensures FromBytes(s) < Pow2(8 * |s|)
  {
    if s != [] {
      Pow2Byte(|s|);
      FromBytesBound(s[..|s| - 1]);
    }
  }

  /** Four bytes for IPv4, sixteen for IPv6, none for the zero address. */
  function Marshal(a: Option<Addr>): seq<Byte>
  {
    match a
    case None => []
    case Some(a) => ToBytes(a.value, if a.family.IPv4? then 4 else 16)
  }

  function Unmarshal(s: seq<Byte>): Option<Option<Addr>>
  {
    FromBytesBound(s);
    if |s| == 0 then Some(None)
    else if |s| == 4 then Some(Some(RawAddr(IPv4, FromBytes(s))))
    else if |s| == 16 then Some(Some(RawAddr(IPv6, FromBytes(s))))
    else None
  }

  lemma MarshalRoundTrip(a: Option<Addr>)
    ensures Unmarshal(Marshal(a)) == Some(a)
  {
    if a.Some? {
      BytesRoundTrip(a.value.value, if a.value.family.IPv4? then 4 else 16);
    }
  }

  function ExportKey(k: Key): KeyState
  {
    Descriptor(k.family, k.proto, Marshal(k.src), Marshal(k.dst), k.srcPorts, k.dstPorts, k.icmpType, k.icmpCode)
  }

  function ToKey(s: KeyState): Option<Key>
  {
    if Unmarshal(s.src).None? || Unmarshal(s.dst).None? then None
    else Some(Descriptor(s.family, s.proto, Unmarshal(s.src).value, Unmarshal(s.dst).value,
                         s.srcPorts, s.dstPorts, s.icmpType, s.icmpCode))
  }

  /** A descriptor comes back, the zero address included. */
  lemma KeyRoundTrip(k: Key)
    ensures ToKey(ExportKey(k)) == Some(k)
  {
    MarshalRoundTrip(k.src);
    MarshalRoundTrip(k.dst);
  }

  // ----- instances -----

  type Slots = seq<SR.Slot>

  datatype RawRing = RawRing(slots: Slots, resolution: int)

  type SlotRing = r: RawRing | r.slots != [] && r.resolution > 0 witness RawRing([SR.Slot(0, SR.Vol(0, 0))], 1)

  /** An instance; the medium and coarse rings are optional. */
  datatype Tracked = Tracked(key: Key, fine: SlotRing, medium: Option<SlotRing>, coarse: Option<SlotRing>,
                             lastSeen: int, timing: Timing, ingressIf: string, spread: seq<nat>)

  /** What is saved of an instance: not its diversity estimators, nor which rings it has. */
  datatype InstanceState = InstanceState(desc: KeyState, lastSeen: int, timing: Timing, ingressIf: string,
                                         fine: Slots, medium: Slots, coarse: Slots)

  datatype RawShape = Shape(fineRes: int, fineSlots: int, mediumRes: int, mediumSlots: int, coarseRes: int, coarseSlots: int)

  /** The ring sizes of a compiled rule: the fine ring is always there. */
  type RingShapes = h: RawShape | h.fineRes > 0 && h.fineSlots > 0 witness Shape(1, 1, 0, 0, 0, 0)

  function NewRing(n: int, res: int): (r: SlotRing)
    requires n > 0 && res > 0
    ensures |r.slots| == n
  {
    RawRing(SR.EmptySlots(n), res)
  }

  function NewOptional(n: int, res: int): Option<SlotRing> { if n <= 0 || res <= 0 then None else Some(NewRing(n, res)) }

  predicate SameSize(a: SlotRing, b: SlotRing) { |a.slots| == |b.slots| && a.resolution == b.resolution }

  predicate SameOptional(a: Option<SlotRing>, b: Option<SlotRing>)
  {
    a.Some? == b.Some? && (a.Some? ==> SameSize(a.value, b.value))
  }

  /** The rings have the rule's shape. */
  predicate Shaped(i: Tracked, h: RingShapes)
  {
    && SameSize(i.fine, NewRing(h.fineSlots, h.fineRes))
    && SameOptional(i.medium, NewOptional(h.mediumSlots, h.mediumRes))
    && SameOptional(i.coarse, NewOptional(h.coarseSlots, h.coarseRes))
  }

  function ExportSlots(r: Option<SlotRing>): Slots { if r.None? then [] else r.value.slots }

  function ExportInstance(i: Tracked): InstanceState
  {
    InstanceState(ExportKey(i.key), i.lastSeen, i.timing, i.ingressIf, i.fine.slots, ExportSlots(i.medium), ExportSlots(i.coarse))
  }

  /** Saved slots copied into a ring of the same length; skipped otherwise. */
  method ImportSlots(r: array<SR.Slot>, slots: Slots)
    modifies r
    ensures r[..] == Filled(old(r[..]), slots)
  {
    if |slots| != r.Length {
      return;
    }
    for i := 0 to |slots|
      invariant r[..i] == slots[..i]
    {
      r[i] := slots[i];
    }
    assert r[..] == r[..|slots|] && slots == slots[..|slots|];
  }

  function Filled(r: Slots, slots: Slots): (s: Slots)
    ensures |s| == |r|
  {
    if |slots| != |r| then r else slots
  }

  function FilledRing(r: SlotRing, slots: Slots): (s: SlotRing)
    ensures SameSize(s, r)
  {
    RawRing(Filled(r.slots, slots), r.resolution)
  }

  function FilledOptional(r: Option<SlotRing>, slots: Slots): Option<SlotRing>
  {
    if r.None? then None else Some(FilledRing(r.value, slots))
  }

  function Restore(h: RingShapes, s: InstanceState): (r: Option<Tracked>)
    ensures r.Some? ==> Shaped(r.value, h) && r.value.spread == []
  {
    if ToKey(s.desc).None? then None
    else
      Some(Tracked(ToKey(s.desc).value, FilledRing(NewRing(h.fineSlots, h.fineRes), s.fine),
                   FilledOptional(NewOptional(h.mediumSlots, h.mediumRes), s.medium),
                   FilledOptional(NewOptional(h.coarseSlots, h.coarseRes), s.coarse),
                   s.lastSeen, s.timing, s.ingressIf, []))
  }

  /** Everything comes back but the diversity estimators. */
  lemma InstanceRoundTrip(h: RingShapes, i: Tracked)
    requires Shaped(i, h)
    ensures Restore(h, ExportInstance(i)) == Some(i.(spread := []))
  {
    KeyRoundTrip(i.key);
  }

  /** Instances of one rule's shape with the same export differ at most in their estimators. */
  lemma ExportDetermines(h: RingShapes, i: Tracked, j: Tracked)
    requires Shaped(i, h) && Shaped(j, h) && ExportInstance(i) == ExportInstance(j)
    ensures i.(spread := []) == j.(spread := [])
  {
    InstanceRoundTrip(h, i);
    InstanceRoundTrip(h, j);
  }

  // ----- pools -----

  type Items = map<Key, Tracked>

  datatype Def = Def(name: string, fingerprint: string, shape: RingShapes, max: nat, terms: seq<Term>,
                     policy: Policy, halfLife: int)

  /** A rule with its instances, its admission sketch and when that last aged. */
  datatype Tracker = Tracker(def: Def, items: Items, sketch: seq<real>, lastDecay: Option<int>)
  {
    /** What admission and import keep true. */
    ghost predicate Valid()
    {
      && |items| <= def.max
      && forall k | k in items :: items[k].key == k && Shaped(items[k], def.shape)
    }
  }

  /** A rule as compiled, with no history. */
  function Fresh(d: Def, sketch: seq<real>): Tracker { Tracker(d, map[], sketch, None) }

  datatype RuleState = RuleState(name: string, fingerprint: string, shape: RawShape, instances: seq<InstanceState>)

  /** Instances taken in order until the pool is full; unreadable ones are skipped. */
  function ImportItems(d: Def, items: Items, list: seq<InstanceState>): Items
    decreases |list|
  {
    if list == [] || |items| >= d.max then items
    else
      var r := Restore(d.shape, list[0]);
      ImportItems(d, if r.None? then items else items[r.value.key := r.value], list[1..])
  }

  /** The last readable saved instance of a key. */
  function LastSaved(h: RingShapes, list: seq<InstanceState>, k: Key): Option<Tracked>
  {
    if list == [] then None
    else
      var rest, first := LastSaved(h, list[1..], k), Restore(h, list[0]);
      if rest.Some? then rest else if first.Some? && first.value.key == k then first else None
  }

  /** With room for the whole list, every readable instance is taken, the last of a key if there
      are more, and nothing else changes: an unreadable one does not stop the rest. */
  lemma {:induction false} ImportTakesAll(d: Def, items: Items, list: seq<InstanceState>, k: Key)
    requires |items| + |list| <= d.max
    ensures var last, all := LastSaved(d.shape, list, k), ImportItems(d, items, list);
            if last.Some? then k in all && all[k] == last.value
            else (k in all <==> k in items) && (k in items ==> all[k] == items[k])
    decreases |list|
  {
    if list != [] {
      var r := Restore(d.shape, list[0]);
      var next := if r.None? then items else items[r.value.key := r.value];
      assert |next| <= |items| + 1 by {
        if r.Some? {
          assert next.Keys == items.Keys + {r.value.key};
        }
      }
      ImportTakesAll(d, next, list[1..], k);
    }
  }

  /** A full pool takes nothing more. */
  lemma ImportFull(d: Def, items: Items, list: seq<InstanceState>)
    requires |items| >= d.max
    ensures ImportItems(d, items, list) == items
  {
  }

  /** Any saved list, damaged or not, leaves a valid pool. */
  lemma {:induction false} ImportItemsValid(r: Tracker, list: seq<InstanceState>)
    requires r.Valid()
    ensures r.(items := ImportItems(r.def, r.items, list)).Valid()
    decreases |list|
  {
    if list != [] && |r.items| < r.def.max {
      var i := Restore(r.def.shape, list[0]);
      if i.None? {
        ImportItemsValid(r, list[1..]);
      } else {
        var items := r.items[i.value.key := i.value];
        assert items.Keys == r.items.Keys + {i.value.key};
        ImportItemsValid(r.(items := items), list[1..]);
      }
    }
  }

  /** `a` is part of `b`, as far as an export tells. */
  predicate PartOf(a: Items, b: Items) { forall k | k in a :: k in b && ExportInstance(a[k]) == ExportInstance(b[k]) }

  predicate In(ks: seq<Key>, items: Items) { forall i | 0 <= i < |ks| :: ks[i] in items }

  /** The exports of instances, in the order of their keys given. */
  function ExportList(items: Items, ks: seq<Key>): (list: seq<InstanceState>)
    requires In(ks, items)
    ensures |list| == |ks|
  {
    if ks == [] then []
    else
      assert forall i | 0 <= i < |ks| - 1 :: ks[1..][i] == ks[i + 1];
      [ExportInstance(items[ks[0]])] + ExportList(items, ks[1..])
  }

  lemma ExportListStep(items: Items, ks: seq<Key>)
    requires In(ks, items) && ks != []
    ensures In(ks[1..], items)
    ensures ExportList(items, ks)[0] == ExportInstance(items[ks[0]])
    ensures ExportList(items, ks)[1..] == ExportList(items, ks[1..])
  {
    assert forall i | 0 <= i < |ks| - 1 :: ks[1..][i] == ks[i + 1];
  }

  /** One exported instance comes back under its own key. */
  lemma ImportFirst(r: Tracker, acc: Items, ks: seq<Key>)
    requires r.Valid() && In(ks, r.items) && ks != [] && |acc| < r.def.max
    ensures In(ks[1..], r.items)
    ensures ImportItems(r.def, acc, ExportList(r.items, ks)) ==
            ImportItems(r.def, With(acc, r.items, ks[0]), ExportList(r.items, ks[1..]))
  {
    ExportListStep(r.items, ks);
    InstanceRoundTrip(r.def.shape, r.items[ks[0]]);
  }

  ghost function KeySet(ks: seq<Key>): set<Key> { set k | k in ks }

  /** The pool with the saved part of one more instance of `items`. */
  function With(acc: Items, items: Items, k: Key): (r: Items)
    requires k in items
    ensures r.Keys == acc.Keys + {k} && |r| <= |acc| + 1
    ensures PartOf(acc, items) ==> PartOf(r, items)
  {
    var r := acc[k := items[k].(spread := [])];
    assert r.Keys == acc.Keys + {k};
    r
  }

  /** Exported instances come back as they were. */
  lemma {:induction false} ImportRestores(r: Tracker, acc: Items, ks: seq<Key>)
    requires r.Valid() && PartOf(acc, r.items) && In(ks, r.items) && |acc| + |ks| <= r.def.max
    ensures PartOf(ImportItems(r.def, acc, ExportList(r.items, ks)), r.items)
    decreases |ks|
  {
    if ks != [] {
      ImportFirst(r, acc, ks);
      ImportRestores(r, With(acc, r.items, ks[0]), ks[1..]);
    }
  }

  /** All of them come back, under their own keys. */
  lemma {:induction false} ImportKeeps(r: Tracker, acc: Items, ks: seq<Key>, k: Key)
    requires r.Valid() && In(ks, r.items) && |acc| + |ks| <= r.def.max && (k in acc || k in ks)
    ensures k in ImportItems(r.def, acc, ExportList(r.items, ks))
    decreases |ks|
  {
    if ks != [] {
      ImportFirst(r, acc, ks);
      ImportKeeps(r, With(acc, r.items, ks[0]), ks[1..], k);
    }
  }

  /** The keys of a pool, each once, in some order. */
  ghost predicate Enumerates(ks: seq<Key>, items: Items)
  {
    |ks| == |items| && In(ks, items) && KeySet(ks) == items.Keys
  }

  /** A saved rule: its definition and its instances in some order. */
  ghost predicate Saves(s: RuleState, r: Tracker)
  {
    && s.name == r.def.name && s.fingerprint == r.def.fingerprint && s.shape == r.def.shape
    && exists ks | Enumerates(ks, r.items) :: s.instances == ExportList(r.items, ks)
  }

  /** Two rules with the same definition and the same saved history. */
  ghost predicate Agree(a: Tracker, b: Tracker)
  {
    a.Valid() && b.Valid() && a.def == b.def && a.items.Keys == b.items.Keys && PartOf(a.items, b.items)
  }

  function ImportRule(r: Tracker, s: RuleState): Tracker
  {
    if r.def.fingerprint != s.fingerprint || r.def.shape != s.shape then r
    else r.(items := ImportItems(r.def, r.items, s.instances))
  }

  /** Importing a saved rule into a fresh copy restores its history. */
  lemma RuleRoundTrip(r: Tracker, s: RuleState, sketch: seq<real>)
    requires r.Valid() && Saves(s, r)
    ensures Agree(ImportRule(Fresh(r.def, sketch), s), r)
  {
    var ks :| Enumerates(ks, r.items) && s.instances == ExportList(r.items, ks);
    ImportRestores(r, map[], ks);
    forall k | k in r.items ensures k in ImportItems(r.def, map[], s.instances) {
      assert k in KeySet(ks);
      ImportKeeps(r, map[], ks, k);
    }
    ImportItemsValid(Fresh(r.def, sketch), s.instances);
  }

  // ----- engines -----

  predicate UniqueNames(rules: seq<Tracker>) { forall i, j | 0 <= i < j < |rules| :: rules[i].def.name != rules[j].def.name }

  /** The rule of a name: the last one, as a map filled in order has it. */
  function Find(rules: seq<Tracker>, name: string): (i: int)
    ensures -1 <= i < |rules| && (i >= 0 ==> rules[i].def.name == name)
    ensures forall j | i < j < |rules| :: rules[j].def.name != name
  {
    if rules == [] then -1
    else if rules[|rules| - 1].def.name == name then |rules| - 1
    else Find(rules[..|rules| - 1], name)
  }

  function ImportOne(rules: seq<Tracker>, s: RuleState): (r: seq<Tracker>)
    ensures |r| == |rules|
  {
    var i := Find(rules, s.name);
    if i < 0 then rules else rules[i := ImportRule(rules[i], s)]
  }

  function ImportAll(rules: seq<Tracker>, saved: seq<RuleState>): (r: seq<Tracker>)
    ensures |r| == |rules|
  {
    if saved == [] then rules else ImportOne(ImportAll(rules, saved[..|saved| - 1]), saved[|saved| - 1])
  }

  ghost predicate SavesAll(saved: seq<RuleState>, rules: seq<Tracker>)
  {
    |saved| == |rules| && forall i | 0 <= i < |rules| :: Saves(saved[i], rules[i])
  }

  ghost predicate AllValid(rules: seq<Tracker>) { forall i | 0 <= i < |rules| :: rules[i].Valid() }

  /** Engine `b` is freshly compiled from the rules of engine `a`. */
  ghost predicate FreshCopy(b: seq<Tracker>, a: seq<Tracker>)
  {
    |b| == |a| && forall i | 0 <= i < |a| :: b[i] == Fresh(a[i].def, b[i].sketch)
  }

  ghost predicate AllAgree(a: seq<Tracker>, b: seq<Tracker>)
  {
    |a| == |b| && forall i | 0 <= i < |a| :: Agree(a[i], b[i])
  }

  /** The first `m` rules restored, the rest still fresh. */
  ghost predicate Restored(r: seq<Tracker>, rules: seq<Tracker>, copy: seq<Tracker>, m: nat)
  {
    && |r| == |rules| == |copy|
    && forall i | 0 <= i < |rules| :: if i < m then Agree(r[i], rules[i]) else r[i] == copy[i]
  }

  /** The name of rule `m` finds rule `m`. */
  lemma FindUnique(rules: seq<Tracker>, now: seq<Tracker>, m: nat)
    requires UniqueNames(rules) && m < |rules| == |now| && forall i | 0 <= i < |rules| :: now[i].def == rules[i].def
    ensures Find(now, rules[m].def.name) == m
  {
    var i := Find(now, rules[m].def.name);
    assert now[m].def.name == rules[m].def.name;
    assert forall j | m < j < |rules| :: now[j].def.name != rules[m].def.name;
  }

  lemma ImportStep(rules: seq<Tracker>, copy: seq<Tracker>, before: seq<Tracker>, s: RuleState, m: nat)
    requires UniqueNames(rules) && FreshCopy(copy, rules) && m < |rules| && Restored(before, rules, copy, m)
    requires rules[m].Valid() && Saves(s, rules[m])
    ensures Restored(ImportOne(before, s), rules, copy, m + 1)
  {
    FindUnique(rules, before, m);
    RuleRoundTrip(rules[m], s, copy[m].sketch);
    assert before[m] == Fresh(rules[m].def, copy[m].sketch);
  }

  lemma {:induction false} ImportPrefix(rules: seq<Tracker>, copy: seq<Tracker>, saved: seq<RuleState>)
    requires UniqueNames(rules) && AllValid(rules) && FreshCopy(copy, rules)
    requires |saved| <= |rules| && SavesAll(saved, rules[..|saved|])
    ensures Restored(ImportAll(copy, saved), rules, copy, |saved|)
  {
    if saved != [] {
      var m := |saved| - 1;
      ImportPrefix(rules, copy, saved[..m]);
      ImportStep(rules, copy, ImportAll(copy, saved[..m]), saved[m], m);
    }
  }

  /** Importing an engine's export into a fresh copy with unique names restores every instance. */
  lemma EngineRoundTrip(rules: seq<Tracker>, copy: seq<Tracker>, saved: seq<RuleState>)
    requires UniqueNames(rules) && AllValid(rules) && SavesAll(saved, rules) && FreshCopy(copy, rules)
    ensures AllAgree(ImportAll(copy, saved), rules)
  {
    assert rules[..|saved|] == rules;
    ImportPrefix(rules, copy, saved);
  }

  /** Whatever was saved, importing keeps every pool valid. */
  /** The saved rule is one of this definition. */
  predicate Fits(d: Def, s: RuleState) { d.name == s.name && d.fingerprint == s.fingerprint && d.shape == s.shape }

  lemma {:induction false} ImportKeepsDef(rules: seq<Tracker>, saved: seq<RuleState>, i: nat)
    requires i < |rules|
    ensures ImportAll(rules, saved)[i].def == rules[i].def
  {
    if saved != [] {
      ImportKeepsDef(rules, saved[..|saved| - 1], i);
    }
  }

  /** Saved rules of another name or another definition leave a rule as it was. */
  lemma {:induction false} UnmatchedUntouched(rules: seq<Tracker>, saved: seq<RuleState>, i: nat)
    requires i < |rules| && forall s | s in saved :: !Fits(rules[i].def, s)
    ensures ImportAll(rules, saved)[i] == rules[i]
  {
    if saved != [] {
      var init := saved[..|saved| - 1];
      assert forall s | s in init :: s in saved;
      UnmatchedUntouched(rules, init, i);
      ImportKeepsDef(rules, init, i);
      assert saved[|saved| - 1] in saved;
    }
  }

  lemma {:induction false} ImportKeepsValid(rules: seq<Tracker>, saved: seq<RuleState>)
    requires AllValid(rules)
    ensures AllValid(ImportAll(rules, saved))
  {
    if saved != [] {
      ImportKeepsValid(rules, saved[..|saved| - 1]);
      var before, s := ImportAll(rules, saved[..|saved| - 1]), saved[|saved| - 1];
      var i := Find(before, s.name);
      if i >= 0 {
        ImportItemsValid(before[i], s.instances);
      }
    }
  }

  // ----- trigger terms -----

  /** Interface statistics as a rule sees them: none for an unknown interface or a window no ring
      serves. */
  datatype StatsView = StatsView(
    interfaceRates: string -> Option<SG.Rates>, totalRates: SG.Rates,
    interfaceWindow: (string, int, int, int, bool) -> Option<SG.Rates>,
    totalWindow: (int, int, int, bool) -> Option<SG.Rates>)

  /** A metric of the instance's own rings, of its ingress interface, or of all interfaces. */
  datatype Metric = Own(metric: SR.Metric) | Iface(field: SG.Field) | Total(field: SG.Field)

  datatype RingKind = Fine | Medium | Coarse

  datatype Term = Term(name: string, metric: Metric, agg: SR.Agg, window: int, offset: int, ring: RingKind, slots: int)

  function RingFor(i: Tracked, k: RingKind): Option<SlotRing>
  {
    match k
    case Fine => Some(i.fine)
    case Medium => i.medium
    case Coarse => i.coarse
  }

  /** The rates a statistics term reads: the latest without a window, the window's otherwise. */
  function RatesFor(t: Term, ingressIf: string, now: int, v: StatsView): Option<SG.Rates>
  {
    if t.window <= 0 then
      if t.metric.Total? then Some(v.totalRates)
      else if ingressIf == "" then None else v.interfaceRates(ingressIf)
    else if t.metric.Total? then v.totalWindow(now, t.window, t.offset, t.agg == SR.Peak)
    else if ingressIf == "" then None
    else v.interfaceWindow(ingressIf, now, t.window, t.offset, t.agg == SR.Peak)
  }

  function TermValue(t: Term, i: Tracked, now: int, ctx: Option<StatsView>): real
  {
    match t.metric
    case Own(m) =>
      var ring := RingFor(i, t.ring);
      if ring.None? then 0.0
      else SR.SlotReading(ring.value.slots, ring.value.resolution, now, SR.Term(m, t.agg, t.window, t.offset, t.slots))
    case _ =>
      if ctx.None? then 0.0
      else
        var rates := RatesFor(t, i.ingressIf, now, ctx.value);
        if rates.None? then 0.0 else SG.Get(rates.value, t.metric.field)
  }

  /** A term over the instance's own ring says how much of its samples fell into the window. */
  lemma OwnTermSays(t: Term, i: Tracked, now: int, ctx: Option<StatsView>, r: SlotRing, samples: seq<SR.Sampled>)
    requires t.metric.Own? && RingFor(i, t.ring) == Some(r) && r.resolution > 0 && r.slots != []
    requires r.slots == SR.Replay(|r.slots|, SR.Logged(samples, r.resolution))
    requires t.window > 0 && t.offset >= 0 && t.slots == t.window / r.resolution
    requires SR.CanServe(SR.RingSpec(r.resolution, |r.slots|), t.window, t.offset)
    requires now >= 0 && (forall s | s in samples :: 0 <= s.at <= now)
    requires forall i, j | 0 <= i < j < |samples| :: samples[i].at <= samples[j].at
    ensures t.slots > 0
    ensures SR.Says(samples, r.resolution, now, SR.Term(t.metric.metric, t.agg, t.window, t.offset, t.slots), TermValue(t, i, now, ctx))
  {
    SR.RingReadingSays(SR.RingSpec(r.resolution, |r.slots|), samples, now,
                       SR.Term(t.metric.metric, t.agg, t.window, t.offset, t.slots));
  }

  /** The rates are read off a ring of statistics that holds the window of a log of polls. */
  ghost predicate ReadOff(rates: Option<SG.Rates>, empty: SG.Ring, log: seq<SG.Poll>, now: int, window: int, offset: nat, peak: bool)
  {
    && SG.Unused(empty) && SG.InOrder(log) && (forall p | p in log :: p.at <= now)
    && SG.RingCovers(empty.resolution, |empty.slots|, window, offset) && now >= window + offset
    && rates == Some(SG.Reading(SG.Replay(empty, log), now, window, offset, peak))
  }

  /** A windowed term over the ingress interface reports its field of the mean, or peak, of the
      interface's polls in the window. */
  lemma InterfaceTermSays(t: Term, i: Tracked, now: int, v: StatsView, empty: SG.Ring, log: seq<SG.Poll>)
    requires t.metric.Iface? && t.window > 0 && t.offset >= 0 && i.ingressIf != ""
    requires ReadOff(v.interfaceWindow(i.ingressIf, now, t.window, t.offset, t.agg == SR.Peak), empty, log, now, t.window, t.offset, t.agg == SR.Peak)
    ensures t.window / empty.resolution > 0
    ensures SG.FieldSays(empty.resolution, log, TruncDiv(now - t.offset, empty.resolution), t.window / empty.resolution,
                         t.agg == SR.Peak, t.metric.field, TermValue(t, i, now, Some(v)))
  {
    var peak, res := t.agg == SR.Peak, empty.resolution;
    var rates := v.interfaceWindow(i.ingressIf, now, t.window, t.offset, peak).value;
    SG.ReadingSays(empty, log, now, t.window, t.offset, peak);
    SG.SaysField(res, log, TruncDiv(now - t.offset, res), t.window / res, peak, t.metric.field, rates);
  }

  /** A term over all interfaces reports its field of the total: of the latest rates without a
      window, of the peak or the mean of the window with one, and zero when no ring serves it. */
  lemma TotalTermIs(t: Term, i: Tracked, now: int, v: StatsView, mean: Option<SG.Rates>, peak: Option<SG.Rates>)
    requires t.metric.Total? && mean == v.totalWindow(now, t.window, t.offset, false) && peak == v.totalWindow(now, t.window, t.offset, true)
    ensures var served := if t.agg.Peak? then peak else mean;
            TermValue(t, i, now, Some(v)) ==
            SG.Get(if t.window <= 0 then v.totalRates else if served.Some? then served.value else SG.ZERO, t.metric.field)
    ensures TermValue(t, i, now, None) == 0.0
  {
  }

  /** And one over the ingress interface reads zero until the instance has one that is known. */
  lemma UnknownInterface(t: Term, i: Tracked, now: int, v: StatsView)
    requires t.metric.Iface? && v.interfaceRates(i.ingressIf) == None && v.interfaceWindow(i.ingressIf, now, t.window, t.offset, t.agg.Peak?) == None
    ensures TermValue(t, i, now, Some(v)) == 0.0
  {
  }

  /** The values of a rule's terms by name. */
  function Values(ts: seq<Term>, i: Tracked, now: int, ctx: Option<StatsView>): map<string, real>
  {
    if ts == [] then map[]
    else Values(ts[..|ts| - 1], i, now, ctx)[ts[|ts| - 1].name := TermValue(ts[|ts| - 1], i, now, ctx)]
  }

  /** A term reads of an instance its rings and its ingress interface. */
  lemma {:induction false} ValuesByExport(h: RingShapes, ts: seq<Term>, i: Tracked, j: Tracked, now: int, ctx: Option<StatsView>)
    requires Shaped(i, h) && Shaped(j, h) && ExportInstance(i) == ExportInstance(j)
    ensures Values(ts, i, now, ctx) == Values(ts, j, now, ctx)
  {
    if ts != [] {
      ValuesByExport(h, ts[..|ts| - 1], i, j, now, ctx);
      ExportDetermines(h, i, j);
      assert forall k :: RingFor(i, k) == RingFor(j, k);
    }
  }

  // ----- ticks -----

  /** What is left open of a rule: the trigger expression over the term values, the event built
      from the descriptor, the ingress interface and the values (none when the drop cannot be
      built), and how a sketch ages over a time. */
  datatype Env<!E> = Env(trigger: (Def, map<string, real>) -> Trigger,
                         event: (Def, Key, string, map<string, real>) -> Option<E>,
                         age: (Def, seq<real>, int) -> seq<real>)

  /** An instance after a tick, and the event it reports. */
  function Evaluated<E>(env: Env<E>, d: Def, i: Tracked, now: int, ctx: Option<StatsView>): (Tracked, Option<E>)
  {
    var values := Values(d.terms, i, now, ctx);
    var (timing, emit) := Eval(d.policy, i.timing, Tick(now, env.trigger(d, values)));
    (i.(timing := timing), if emit then env.event(d, i.key, i.ingressIf, values) else None)
  }

  function Aged<E>(env: Env<E>, r: Tracker, now: int): seq<real>
  {
    if r.lastDecay.Some? && r.def.halfLife > 0 && now - r.lastDecay.value > 0
    then env.age(r.def, r.sketch, now - r.lastDecay.value)
    else r.sketch
  }

  /** A rule after a tick. */
  function Ticked<E>(env: Env<E>, r: Tracker, now: int, ctx: Option<StatsView>): Tracker
  {
    Tracker(r.def, map k | k in r.items :: Evaluated(env, r.def, r.items[k], now, ctx).0, Aged(env, r, now), Some(now))
  }

  /** The instances that report an event at a tick, and what each reports. */
  function Reports<E>(env: Env<E>, r: Tracker, now: int, ctx: Option<StatsView>): map<Key, E>
  {
    map k | k in r.items && Evaluated(env, r.def, r.items[k], now, ctx).1.Some? ::
      Evaluated(env, r.def, r.items[k], now, ctx).1.value
  }

  /** Instances with the same export report alike and keep the same export. */
  lemma EvaluatedAgrees<E>(env: Env<E>, d: Def, i: Tracked, j: Tracked, now: int, ctx: Option<StatsView>)
    requires Shaped(i, d.shape) && Shaped(j, d.shape) && ExportInstance(i) == ExportInstance(j)
    ensures Evaluated(env, d, i, now, ctx).1 == Evaluated(env, d, j, now, ctx).1
    ensures ExportInstance(Evaluated(env, d, i, now, ctx).0) == ExportInstance(Evaluated(env, d, j, now, ctx).0)
    ensures Shaped(Evaluated(env, d, i, now, ctx).0, d.shape) && Shaped(Evaluated(env, d, j, now, ctx).0, d.shape)
  {
    ValuesByExport(d.shape, d.terms, i, j, now, ctx);
    ExportDetermines(d.shape, i, j);
  }

  /** One key of two rules that agree. */
  ghost predicate AgreeAt<E>(env: Env<E>, a: Tracker, b: Tracker, now: int, ctx: Option<StatsView>, k: Key)
    requires k in a.items && k in b.items
  {
    var x, y := Evaluated(env, a.def, a.items[k], now, ctx), Evaluated(env, b.def, b.items[k], now, ctx);
    && x.1 == y.1 && ExportInstance(x.0) == ExportInstance(y.0)
    && Shaped(x.0, a.def.shape) && Shaped(y.0, b.def.shape) && x.0.key == y.0.key == k
  }

  lemma AllAgreeAt<E>(env: Env<E>, a: Tracker, b: Tracker, now: int, ctx: Option<StatsView>)
    requires Agree(a, b)
    ensures forall k | k in a.items :: AgreeAt(env, a, b, now, ctx, k)
  {
    forall k | k in a.items ensures AgreeAt(env, a, b, now, ctx, k) {
      EvaluatedAgrees(env, a.def, a.items[k], b.items[k], now, ctx);
    }
  }

  lemma ReportAt<E>(env: Env<E>, r: Tracker, now: int, ctx: Option<StatsView>, k: Key, event: Option<E>)
    requires k in r.items && Evaluated(env, r.def, r.items[k], now, ctx).1 == event
    ensures k in Reports(env, r, now, ctx) <==> event.Some?
    ensures event.Some? ==> Reports(env, r, now, ctx)[k] == event.value
  {
  }

  lemma ReportsAgree<E>(env: Env<E>, a: Tracker, b: Tracker, now: int, ctx: Option<StatsView>)
    requires a.items.Keys == b.items.Keys && forall k | k in a.items :: AgreeAt(env, a, b, now, ctx, k)
    ensures Reports(env, a, now, ctx) == Reports(env, b, now, ctx)
  {
    var x, y := Reports(env, a, now, ctx), Reports(env, b, now, ctx);
    assert x.Keys <= a.items.Keys && y.Keys <= a.items.Keys;
    forall k | k in a.items
      ensures k in x <==> k in y
      ensures k in x ==> x[k] == y[k]
    {
      assert AgreeAt(env, a, b, now, ctx, k);
      var event := Evaluated(env, a.def, a.items[k], now, ctx).1;
      ReportAt(env, a, now, ctx, k, event);
      ReportAt(env, b, now, ctx, k, event);
    }
  }

  lemma StillAgree<E>(env: Env<E>, a: Tracker, b: Tracker, now: int, ctx: Option<StatsView>)
    requires a.def == b.def && |a.items| <= a.def.max && |b.items| <= b.def.max
    requires a.items.Keys == b.items.Keys && forall k | k in a.items :: AgreeAt(env, a, b, now, ctx, k)
    ensures Agree(Ticked(env, a, now, ctx), Ticked(env, b, now, ctx))
  {
    var a', b' := Ticked(env, a, now, ctx), Ticked(env, b, now, ctx);
    assert a'.items.Keys == a.items.Keys && b'.items.Keys == b.items.Keys;
    assert |a'.items| == |a'.items.Keys| && |b'.items| == |b'.items.Keys|;
    forall k | k in a.items
      ensures a'.items[k].key == k && Shaped(a'.items[k], a.def.shape)
      ensures b'.items[k].key == k && Shaped(b'.items[k], b.def.shape)
      ensures ExportInstance(a'.items[k]) == ExportInstance(b'.items[k])
    {
      assert AgreeAt(env, a, b, now, ctx, k);
    }
  }

  /** Rules that agree report the same, and agree again after the tick. */
  lemma TickAgrees<E>(env: Env<E>, a: Tracker, b: Tracker, now: int, ctx: Option<StatsView>)
    requires Agree(a, b)
    ensures Reports(env, a, now, ctx) == Reports(env, b, now, ctx)
    ensures Agree(Ticked(env, a, now, ctx), Ticked(env, b, now, ctx))
  {
    AllAgreeAt(env, a, b, now, ctx);
    ReportsAgree(env, a, b, now, ctx);
    StillAgree(env, a, b, now, ctx);
  }

  /** A rule over a run of ticks, and all it reported. */
  function Run<E>(env: Env<E>, r: Tracker, ticks: seq<(int, Option<StatsView>)>): seq<map<Key, E>>
    decreases |ticks|
  {
    if ticks == [] then []
    else [Reports(env, r, ticks[0].0, ticks[0].1)] + Run(env, Ticked(env, r, ticks[0].0, ticks[0].1), ticks[1..])
  }

  /** A rule after a run of ticks. */
  function Ended<E>(env: Env<E>, r: Tracker, ticks: seq<(int, Option<StatsView>)>): Tracker
    decreases |ticks|
  {
    if ticks == [] then r else Ended(env, Ticked(env, r, ticks[0].0, ticks[0].1), ticks[1..])
  }

  /** Ageing twice is ageing once for the time of both. */
  ghost predicate AgesAdd<E(!new)>(env: Env<E>, d: Def)
  {
    forall s, a, b | a > 0 && b > 0 :: env.age(d, env.age(d, s, a), b) == env.age(d, s, a + b)
  }

  predicate TimesInOrder(from: int, ticks: seq<(int, Option<StatsView>)>)
  {
    && (forall j | 0 <= j < |ticks| :: from <= ticks[j].0)
    && forall j, k | 0 <= j < k < |ticks| :: ticks[j].0 <= ticks[k].0
  }

  /** A sketch ages by the time that has passed, however many ticks there were. */
  lemma {:induction false} AgedByTime<E(!new)>(env: Env<E>, r: Tracker, ticks: seq<(int, Option<StatsView>)>)
    requires AgesAdd(env, r.def) && r.lastDecay.Some? && ticks != [] && TimesInOrder(r.lastDecay.value, ticks)
    ensures var end, d := ticks[|ticks| - 1].0, r.def;
            && Ended(env, r, ticks).lastDecay == Some(end)
            && Ended(env, r, ticks).sketch ==
               if d.halfLife > 0 && end > r.lastDecay.value then env.age(d, r.sketch, end - r.lastDecay.value) else r.sketch
    decreases |ticks|
  {
    var r' := Ticked(env, r, ticks[0].0, ticks[0].1);
    if |ticks| > 1 {
      assert forall j | 0 <= j < |ticks| - 1 :: ticks[1..][j] == ticks[j + 1];
      AgedByTime(env, r', ticks[1..]);
      assert (ticks[0].0 - r.lastDecay.value) + (ticks[|ticks| - 1].0 - ticks[0].0) == ticks[|ticks| - 1].0 - r.lastDecay.value;
    } else {
      assert ticks[1..] == [];
    }
  }

  /** Term values do not depend on when an instance started or reported. */
  lemma {:induction false} ValuesOfRings(ts: seq<Term>, i: Tracked, timing: Timing, now: int, ctx: Option<StatsView>)
    ensures Values(ts, i.(timing := timing), now, ctx) == Values(ts, i, now, ctx)
  {
    if ts != [] {
      ValuesOfRings(ts[..|ts| - 1], i, timing, now, ctx);
      assert forall k :: RingFor(i.(timing := timing), k) == RingFor(i, k);
    }
  }

  /** The ticks as an instance sees them: when, and what its trigger says. */
  function TicksOf<E>(env: Env<E>, d: Def, i: Tracked, ticks: seq<(int, Option<StatsView>)>): (s: seq<Tick>)
    ensures |s| == |ticks|
  {
    seq(|ticks|, j requires 0 <= j < |ticks| =>
      Tick(ticks[j].0, env.trigger(d, Values(d.terms, i, ticks[j].0, ticks[j].1))))
  }

  lemma TicksOfRest<E>(env: Env<E>, d: Def, i: Tracked, timing: Timing, ticks: seq<(int, Option<StatsView>)>)
    requires ticks != []
    ensures TicksOf(env, d, i.(timing := timing), ticks[1..]) == TicksOf(env, d, i, ticks)[1..]
  {
    forall j | 0 <= j < |ticks| - 1
      ensures TicksOf(env, d, i.(timing := timing), ticks[1..])[j] == TicksOf(env, d, i, ticks)[1..][j]
    {
      ValuesOfRings(d.terms, i, timing, ticks[j + 1].0, ticks[j + 1].1);
    }
  }

  /** One tick: an instance with this past reports exactly when the tick emits and its drop can be
      built. */
  lemma EvaluatedEmits<E>(env: Env<E>, d: Def, i: Tracked, past: seq<Tick>, now: int, ctx: Option<StatsView>)
    requires i.timing == After(d.policy, past)
    ensures var tick := Tick(now, env.trigger(d, Values(d.terms, i, now, ctx)));
            && Evaluated(env, d, i, now, ctx).0 == i.(timing := After(d.policy, past + [tick]))
            && Evaluated(env, d, i, now, ctx).1 ==
               if Emits(d.policy, past + [tick], |past|) then env.event(d, i.key, i.ingressIf, Values(d.terms, i, now, ctx)) else None
  {
    var tick := Tick(now, env.trigger(d, Values(d.terms, i, now, ctx)));
    assert (past + [tick])[..|past|] == past;
  }

  lemma EmitsInPrefix(p: Policy, ticks: seq<Tick>, n: nat, i: nat)
    requires i < n <= |ticks|
    ensures Emits(p, ticks[..n], i) <==> Emits(p, ticks, i)
  {
    assert ticks[..n][..i] == ticks[..i];
  }

  /** At tick `m` of a run the instance is reported, with its event, exactly when that tick emits,
      by its whole past, and its drop can be built. */
  ghost predicate ReportedRight<E>(env: Env<E>, d: Def, i: Tracked, k: Key, past: seq<Tick>,
                                   ticks: seq<(int, Option<StatsView>)>, m: nat, reports: map<Key, E>)
    requires m < |ticks|
  {
    var event := env.event(d, k, i.ingressIf, Values(d.terms, i, ticks[m].0, ticks[m].1));
    && (k in reports <==> Emits(d.policy, past + TicksOf(env, d, i, ticks), |past| + m) && event.Some?)
    && (k in reports ==> event == Some(reports[k]))
  }

  lemma FirstReport<E>(env: Env<E>, r: Tracker, k: Key, past: seq<Tick>, ticks: seq<(int, Option<StatsView>)>)
    requires k in r.items && r.items[k].key == k && r.items[k].timing == After(r.def.policy, past) && ticks != []
    ensures ReportedRight(env, r.def, r.items[k], k, past, ticks, 0, Reports(env, r, ticks[0].0, ticks[0].1))
  {
    var i, d, now, ctx := r.items[k], r.def, ticks[0].0, ticks[0].1;
    var seen := TicksOf(env, d, i, ticks);
    EvaluatedEmits(env, d, i, past, now, ctx);
    ReportAt(env, r, now, ctx, k, Evaluated(env, d, i, now, ctx).1);
    assert (past + seen)[..|past| + 1] == past + [seen[0]];
    EmitsInPrefix(d.policy, past + seen, |past| + 1, |past|);
  }

  /** What is right of the ticks after the first is right of all. */
  lemma RestRight<E>(env: Env<E>, d: Def, i: Tracked, timing: Timing, k: Key, past: seq<Tick>,
                     ticks: seq<(int, Option<StatsView>)>, m: nat, reports: map<Key, E>)
    requires 0 < m < |ticks|
    requires ReportedRight(env, d, i.(timing := timing), k, past + [TicksOf(env, d, i, ticks)[0]], ticks[1..], m - 1, reports)
    ensures ReportedRight(env, d, i, k, past, ticks, m, reports)
  {
    var seen := TicksOf(env, d, i, ticks);
    TicksOfRest(env, d, i, timing, ticks);
    assert past + [seen[0]] + seen[1..] == past + seen;
    ValuesOfRings(d.terms, i, timing, ticks[m].0, ticks[m].1);
  }

  /** Over a run without new samples, every tick reports an instance exactly when it should. */
  lemma {:induction false} RunReports<E>(env: Env<E>, r: Tracker, k: Key, past: seq<Tick>,
                                         ticks: seq<(int, Option<StatsView>)>, m: nat)
    requires k in r.items && r.items[k].key == k && r.items[k].timing == After(r.def.policy, past) && m < |ticks|
    ensures |Run(env, r, ticks)| == |ticks|
    ensures ReportedRight(env, r.def, r.items[k], k, past, ticks, m, Run(env, r, ticks)[m])
    decreases |ticks|
  {
    RunLength(env, r, ticks);
    if m == 0 {
      FirstReport(env, r, k, past, ticks);
    } else {
      var i, now, ctx := r.items[k], ticks[0].0, ticks[0].1;
      var tick := TicksOf(env, r.def, i, ticks)[0];
      EvaluatedEmits(env, r.def, i, past, now, ctx);
      RunReports(env, Ticked(env, r, now, ctx), k, past + [tick], ticks[1..], m - 1);
      RestRight(env, r.def, i, After(r.def.policy, past + [tick]), k, past, ticks, m, Run(env, r, ticks)[m]);
    }
  }

  lemma {:induction false} RunLength<E>(env: Env<E>, r: Tracker, ticks: seq<(int, Option<StatsView>)>)
    ensures |Run(env, r, ticks)| == |ticks|
    decreases |ticks|
  {
    if ticks != [] {
      RunLength(env, Ticked(env, r, ticks[0].0, ticks[0].1), ticks[1..]);
    }
  }

  lemma {:induction false} RunAgrees<E>(env: Env<E>, a: Tracker, b: Tracker, ticks: seq<(int, Option<StatsView>)>)
    requires Agree(a, b)
    ensures Run(env, a, ticks) == Run(env, b, ticks)
    decreases |ticks|
  {
    if ticks != [] {
      TickAgrees(env, a, b, ticks[0].0, ticks[0].1);
      RunAgrees(env, Ticked(env, a, ticks[0].0, ticks[0].1), Ticked(env, b, ticks[0].0, ticks[0].1), ticks[1..]);
    }
  }

  /** A restarted engine reports, rule by rule and tick by tick, what the original would have. */
  lemma RestartSameEvents<E>(env: Env<E>, rules: seq<Tracker>, copy: seq<Tracker>, saved: seq<RuleState>,
                                ticks: seq<(int, Option<StatsView>)>)
    requires UniqueNames(rules) && AllValid(rules) && SavesAll(saved, rules) && FreshCopy(copy, rules)
    ensures forall i | 0 <= i < |rules| :: Run(env, ImportAll(copy, saved)[i], ticks) == Run(env, rules[i], ticks)
  {
    EngineRoundTrip(rules, copy, saved);
    forall i | 0 <= i < |rules| ensures Run(env, ImportAll(copy, saved)[i], ticks) == Run(env, rules[i], ticks) {
      RunAgrees(env, ImportAll(copy, saved)[i], rules[i], ticks);
    }
  }

  // ----- the operations -----

  class Engine {
    var rules: seq<Tracker>

    constructor (rules: seq<Tracker>)
      ensures this.rules == rules
    {
      this.rules := rules;
    }

    method Export() returns (saved: seq<RuleState>)
      ensures SavesAll(saved, rules)
    {
      saved := [];
      for i := 0 to |rules|
        invariant SavesAll(saved, rules[..i])
      {
        var list := ExportItems(rules[i].items);
        var d := rules[i].def;
        var s := RuleState(d.name, d.fingerprint, d.shape, list);
        assert Saves(s, rules[i]);
        saved := saved + [s];
      }
      assert rules[..|rules|] == rules;
    }

    method Import(saved: seq<RuleState>)
      modifies this
      ensures rules == ImportAll(old(rules), saved)
    {
      for i := 0 to |saved|
        invariant rules == ImportAll(old(rules), saved[..i])
      {
        assert saved[..i + 1][..i] == saved[..i];
        var s := saved[i];
        var at := Find(rules, s.name);
        if at < 0 {
          continue;
        }
        var r := rules[at];
        if r.def.fingerprint != s.fingerprint || r.def.shape != s.shape {
          continue;
        }
        var items := FillPool(r.def, r.items, s.instances);
        rules := rules[at := r.(items := items)];
      }
      assert saved[..|saved|] == saved;
    }
  }

  /** Every instance of a pool once, in whatever order the map yields them. */
  method ExportItems(items: Items) returns (list: seq<InstanceState>)
    ensures exists ks | Enumerates(ks, items) :: list == ExportList(items, ks)
  {
    list := [];
    var left := items.Keys;
    ghost var ks: seq<Key> := [];
    while left != {}
      invariant left <= items.Keys && In(ks, items)
      invariant KeySet(ks) == items.Keys - left && |ks| + |left| == |items.Keys|
      invariant list == ExportList(items, ks)
      decreases left
    {
      var k :| k in left;
      ExportSnoc(items, ks, k);
      list := list + [ExportInstance(items[k])];
      ks, left := ks + [k], left - {k};
    }
    assert Enumerates(ks, items);
  }

  lemma {:induction false} ExportSnoc(items: Items, ks: seq<Key>, k: Key)
    requires In(ks, items) && k in items
    ensures In(ks + [k], items) && KeySet(ks + [k]) == KeySet(ks) + {k}
    ensures ExportList(items, ks + [k]) == ExportList(items, ks) + [ExportInstance(items[k])]
  {
    if ks == [] {
      assert ks + [k] == [k];
    } else {
      ExportListStep(items, ks);
      ExportSnoc(items, ks[1..], k);
      assert (ks + [k])[1..] == ks[1..] + [k];
    }
  }

  method FillPool(d: Def, before: Items, list: seq<InstanceState>) returns (items: Items)
    ensures items == ImportItems(d, before, list)
  {
    items := before;
    for i := 0 to |list|
      invariant ImportItems(d, before, list) == ImportItems(d, items, list[i..])
    {
      if |items| >= d.max {
        return;
      }
      assert list[i..][0] == list[i] && list[i..][1..] == list[i + 1..];
      var r := Restore(d.shape, list[i]);
      if r.None? {
        continue;
      }
      items := items[r.value.key := r.value];
    }
  }

  /** What one instance becomes and reports. */
  ghost predicate Outcome<E>(env: Env<E>, r: Tracker, now: int, ctx: Option<StatsView>, k: Key, i: Tracked, event: Option<E>)
    requires k in r.items
  {
    Evaluated(env, r.def, r.items[k], now, ctx) == (i, event)
  }

  /** The pool and the reports, key by key. */
  lemma ByOutcomes<E>(env: Env<E>, r: Tracker, now: int, ctx: Option<StatsView>, items: Items, reports: map<Key, E>)
    requires items.Keys == r.items.Keys && reports.Keys <= r.items.Keys
    requires forall k | k in r.items ::
               Outcome(env, r, now, ctx, k, items[k], if k in reports then Some(reports[k]) else None)
    ensures items == Ticked(env, r, now, ctx).items && reports == Reports(env, r, now, ctx)
  {
    var all := Reports(env, r, now, ctx);
    forall k | k in r.items ensures k in reports <==> k in all
                            ensures k in reports ==> reports[k] == all[k]
    {
      assert Outcome(env, r, now, ctx, k, items[k], if k in reports then Some(reports[k]) else None);
    }
  }

  method EvaluateOne<E>(env: Env<E>, r: Tracker, k: Key, now: int, ctx: Option<StatsView>) returns (i: Tracked, event: Option<E>)
    requires k in r.items
    ensures Outcome(env, r, now, ctx, k, i, event)
  {
    var (i', event') := Evaluated(env, r.def, r.items[k], now, ctx);
    i, event := i', event';
  }

  /** One tick of a rule: every instance evaluated once, in whatever order. */
  method TickRule<E>(env: Env<E>, r: Tracker, now: int, ctx: Option<StatsView>) returns (r': Tracker, reports: map<Key, E>)
    ensures r' == Ticked(env, r, now, ctx) && reports == Reports(env, r, now, ctx)
  {
    var items: Items;
    items, reports := TickItems(env, r, now, ctx);
    ByOutcomes(env, r, now, ctx, items, reports);
    r' := Tracker(r.def, items, Aged(env, r, now), Some(now));
  }

  method TickItems<E>(env: Env<E>, r: Tracker, now: int, ctx: Option<StatsView>) returns (items: Items, reports: map<Key, E>)
    ensures items.Keys == r.items.Keys && reports.Keys <= r.items.Keys
    ensures forall k | k in r.items ::
              Outcome(env, r, now, ctx, k, items[k], if k in reports then Some(reports[k]) else None)
  {
    var left := r.items.Keys;
    items, reports := map[], map[];
    while left != {}
      invariant left <= r.items.Keys && items.Keys == r.items.Keys - left && reports.Keys <= items.Keys
      invariant forall k | k in items ::
                  Outcome(env, r, now, ctx, k, items[k], if k in reports then Some(reports[k]) else None)
      decreases left
    {
      var k :| k in left;
      var i, event := EvaluateOne(env, r, k, now, ctx);
      items := items[k := i];
      if event.Some? {
        reports := reports[k := event.value];
      }
      left := left - {k};
    }
  }
}
