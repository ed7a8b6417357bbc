/**
  The bounded pool of tracked instances. A newcomer to a full pool must beat, by the sketch's
  estimate, the weakest of up to sixteen residents looked at in arbitrary order.
 */
module Admission {
  import opened FlowSpec
  import opened HeavyKeeper

  const SAMPLE_SIZE: nat := 16

  datatype Resident<D> = Resident(key: D, keyHash: Key)

  function Swap<D(==)>(items: map<D, Resident<D>>, victim: D, inst: Resident<D>): map<D, Resident<D>>
  {
    (items - {victim})[inst.key := inst]
  }

  lemma SwapSize<D>(items: map<D, Resident<D>>, victim: D, inst: Resident<D>)
    requires victim in items && inst.key !in items
    ensures |Swap(items, victim, inst)| == |items|
    ensures forall d :: d in Swap(items, victim, inst) <==> d == inst.key || (d in items && d != victim)
  {
    assert (items - {victim}).Keys == items.Keys - {victim};
    assert Swap(items, victim, inst).Keys == (items.Keys - {victim}) + {inst.key};
  }

  // ----- descriptors and their hashes -----

  /** What happened to the sketch, in terms of descriptors. */
  datatype Seen<D> = Matched(key: D, weight: real) | Decayed(factor: real)

  function Hashed<D>(hash: D -> Key, seen: seq<Seen<D>>): (hist: seq<Event>)
    ensures |hist| == |seen|
  {
    seq(|seen|, i requires 0 <= i < |seen| =>
      match seen[i] case Matched(d, w) => Added(hash(d), w) case Decayed(f) => Aged(f))
  }

  /** The true decayed weight of one descriptor. */
  function OwnWeight<D(==)>(seen: seq<Seen<D>>, key: D): real
  {
    if seen == [] then 0.0
    else
      var rest, e := OwnWeight(seen[..|seen| - 1], key), seen[|seen| - 1];
      match e
      case Matched(d, w) => if d == key then rest + w else rest
      case Decayed(f) => if 0.0 < f < 1.0 then rest * f else rest
  }

  ghost predicate Injective<D(!new)>(hash: D -> Key) { forall a, b :: hash(a) == hash(b) ==> a == b }

  /** When no two descriptors share a hash, the weight of a hash is that of its descriptor. */
  lemma {:induction false} InjectiveWeight<D(!new)>(hash: D -> Key, seen: seq<Seen<D>>, key: D)
    requires Injective(hash)
    ensures Weight(Hashed(hash, seen), hash(key)) == OwnWeight(seen, key)
  {
    if seen != [] {
      var init := seen[..|seen| - 1];
      InjectiveWeight(hash, init, key);
      assert Hashed(hash, seen)[..|seen| - 1] == Hashed(hash, init);
    }
  }

  class Pool<D(==, !new)> {
    const max: nat
    const hash: D -> Key
    const sketch: Sketch
    var items: map<D, Resident<D>>

    /** Never above capacity; each key maps to its own instance with its own hash. */
    ghost predicate Valid()
      reads this, sketch, sketch.buckets
    {
      && sketch.Valid() && |items| <= max
      && forall d | d in items :: items[d] == Resident(d, hash(d))
    }

    constructor (max: nat, hash: D -> Key, sketch: Sketch)
      requires sketch.Valid()
      ensures Valid() && items == map[] && this.max == max && this.hash == hash && this.sketch == sketch
    {
      this.max, this.hash, this.sketch := max, hash, sketch;
      items := map[];
    }

    ghost function Est(d: D): real
      requires sketch.Shape()
      reads sketch, sketch.buckets
    {
      sketch.EstimateOf(hash(d))
    }

    /** The residents looked at: sixteen, or all when there are no more. */
    ghost predicate Looked(before: map<D, Resident<D>>, looked: set<D>)
    {
      looked <= before.Keys && |looked| == if |before| <= 16 then |before| else 16
    }

    /** None of those looked at is estimated below `bound`. */
    ghost predicate NoneBelow(looked: set<D>, bound: real)
      requires sketch.Shape()
      reads sketch, sketch.buckets
    {
      forall d | d in looked :: bound <= Est(d)
    }

    /** A weakest of those looked at, with its estimate. */
    ghost predicate IsWeakest(looked: set<D>, victim: (D, real))
      requires sketch.Shape()
      reads sketch, sketch.buckets
    {
      victim.0 in looked && victim.1 == Est(victim.0) && NoneBelow(looked, victim.1)
    }

    /** The weakest of those looked at. */
    method WeakestOfSample() returns (victim: Option<(D, real)>, ghost looked: set<D>)
      requires Valid()
      ensures Looked(items, looked) && (victim.None? <==> items == map[])
      ensures victim.Some? ==> IsWeakest(looked, victim.value)
    {
      victim, looked := None, {};
      var todo := items.Keys;
      var n := 0;
      while todo != {} && n < SAMPLE_SIZE
        invariant todo <= items.Keys && looked == items.Keys - todo
        invariant |looked| == n <= SAMPLE_SIZE
        invariant if n == 0 then victim.None? else victim.Some? && IsWeakest(looked, victim.value)
        decreases todo
      {
        var d :| d in todo;
        OneMore(todo, looked, d);
        victim := Weaker(d, victim, looked);
        todo, looked, n := todo - {d}, looked + {d}, n + 1;
      }
      LookedEnough(todo, looked);
    }

    /** One more resident looked at; the first and every weaker one takes the place. */
    method Weaker(d: D, victim: Option<(D, real)>, ghost looked: set<D>) returns (v: Option<(D, real)>)
      requires Valid() && d in items
      requires if looked == {} then victim.None? else victim.Some? && IsWeakest(looked, victim.value)
      ensures v.Some? && IsWeakest(looked + {d}, v.value)
    {
      var est := sketch.Estimate(items[d].keyHash);
      v := if victim.None? || est < victim.value.1 then Some((d, est)) else victim;
    }

    lemma OneMore(todo: set<D>, looked: set<D>, d: D)
      requires todo <= items.Keys && looked == items.Keys - todo && d in todo
      ensures looked + {d} == items.Keys - (todo - {d}) && |looked + {d}| == |looked| + 1
    {
    }

    /** Looking ends with all residents or with sixteen. */
    lemma LookedEnough(todo: set<D>, looked: set<D>)
      requires todo <= items.Keys && looked == items.Keys - todo && |looked| <= SAMPLE_SIZE
      requires todo == {} || |looked| == SAMPLE_SIZE
      ensures Looked(items, looked) && (looked == {} <==> items == map[])
    {
      assert |items.Keys| == |items|;
      if todo == {} {
        assert looked == items.Keys;
      } else {
        var d :| d in todo;
        SubsetSmaller(looked, items.Keys, d);
      }
      assert items.Keys == {} <==> items == map[];
    }

    /** The pool after a request: unchanged for a resident, grown while there is room; and when
        full, one resident replaced by the candidate if it beats the weakest of those looked at,
        unchanged if it does not. */
    ghost predicate Admitted(before: map<D, Resident<D>>, key: D, ok: bool)
      requires sketch.Shape()
      reads this, sketch, sketch.buckets
    {
      if key in before then ok && items == before
      else if |before| < max then ok && items == before[key := Resident(key, hash(key))]
      else if !ok then items == before && exists looked :: Looked(before, looked) && NoneBelow(looked, Est(key))
      else exists looked, victim :: Beats(before, looked, key, victim) && items == Swap(before, victim, Resident(key, hash(key)))
    }

    /** The candidate's estimate exceeds the victim's, the weakest of those looked at. */
    ghost predicate Beats(before: map<D, Resident<D>>, looked: set<D>, key: D, victim: D)
      requires sketch.Shape()
      reads sketch, sketch.buckets
    {
      && Looked(before, looked) && victim in looked
      && Est(victim) < Est(key) && NoneBelow(looked, Est(victim))
    }

    lemma LookedAll(before: map<D, Resident<D>>, looked: set<D>)
      requires Looked(before, looked) && |before| <= SAMPLE_SIZE
      ensures looked == before.Keys
    {
      assert |before.Keys| == |before|;
      forall d | d in before.Keys ensures d in looked {
        if d !in looked {
          SubsetSmaller(looked, before.Keys, d);
        }
      }
    }

    lemma SubsetSmaller(a: set<D>, b: set<D>, d: D)
      requires a <= b && d in b && d !in a
      ensures |a| < |b|
    {
      assert a <= b - {d};
      SubsetAtMost(a, b - {d});
    }

    lemma SubsetAtMost(a: set<D>, b: set<D>)
      requires a <= b
      ensures |a| <= |b|
    {
      if a != {} {
        var x :| x in a;
        SubsetAtMost(a - {x}, b - {x});
      }
    }

    /** In a full pool of at most sixteen, a newcomer is admitted if and only if it outweighs some
        resident, by estimate. */
    lemma AdmittedIff(before: map<D, Resident<D>>, key: D, ok: bool)
      requires sketch.Shape() && Admitted(before, key, ok) && key !in before && max <= |before| <= 16
      ensures ok <==> exists d :: d in before && Est(d) < Est(key)
    {
      if ok {
        var looked, victim :| Beats(before, looked, key, victim) && items == Swap(before, victim, Resident(key, hash(key)));
        assert victim in before && Est(victim) < Est(key);
      } else {
        var looked :| Looked(before, looked) && NoneBelow(looked, Est(key));
        LookedAll(before, looked);
      }
    }

    method Admit(key: D) returns (inst: Option<Resident<D>>)
      requires Valid()
      modifies this`items
      ensures Valid() && Admitted(old(items), key, inst.Some?)
      ensures inst.Some? ==> key in items && inst.value == items[key] && inst.value.key == key
    {
      if key in items {
        return Some(items[key]);
      }
      if |items| < max {
        items := items[key := Resident(key, hash(key))];
        return Some(items[key]);
      }
      inst := Challenge(key);
    }

    lemma SwapOwn(before: map<D, Resident<D>>, victim: D, key: D)
      requires victim in before && key !in before && forall d | d in before :: before[d] == Resident(d, hash(d))
      ensures var after := Swap(before, victim, Resident(key, hash(key)));
              |after| == |before| && key in after && forall d | d in after :: after[d] == Resident(d, hash(d))
    {
      SwapSize(before, victim, Resident(key, hash(key)));
    }

    /** A newcomer to a full pool. */
    method Challenge(key: D) returns (inst: Option<Resident<D>>)
      requires Valid() && key !in items && |items| >= max
      modifies this`items
      ensures Valid() && Admitted(old(items), key, inst.Some?)
      ensures inst.Some? ==> key in items && inst.value == items[key] && inst.value.key == key
    {
      var weakest, looked := WeakestOfSample();
      if weakest.None? {
        return None;
      }
      var est := sketch.Estimate(hash(key));
      if est <= weakest.value.1 {
        assert NoneBelow(looked, est);
        return None;
      }
      var newcomer := Resident(key, hash(key));
      SwapOwn(items, weakest.value.0, key);
      assert Beats(items, looked, key, weakest.value.0);
      items := Swap(items, weakest.value.0, newcomer);
      assert Beats(old(items), looked, key, weakest.value.0);
      return Some(newcomer);
    }

    /** Every matched sample is counted by the sketch before it asks for a place. */
    method Observe(key: D, weight: real) returns (inst: Option<Resident<D>>)
      requires Valid() && weight >= 0.0
      modifies this`items, sketch`hist, sketch.buckets
      ensures Valid() && sketch.hist == old(sketch.hist) + [Added(hash(key), weight)]
      ensures sketch.buckets == old(sketch.buckets)
      ensures Admitted(old(items), key, inst.Some?)
      ensures inst.Some? ==> inst.value.key == key
    {
      sketch.Add(hash(key), weight);
      inst := Admit(key);
    }

    /** A resident gives way only to a candidate whose hash truly weighs more than the estimate
        the resident still had: the weight of all descriptors with that hash, and of the candidate
        alone when no two share one. */
    lemma EvictionJustified(before: map<D, Resident<D>>, key: D, victim: D, seen: seq<Seen<D>>)
      requires sketch.Valid() && Admitted(before, key, true) && sketch.hist == Hashed(hash, seen)
      requires victim in before && victim !in items
      ensures Est(victim) < Weight(sketch.hist, hash(key))
      ensures Injective(hash) ==> Est(victim) < OwnWeight(seen, key)
      ensures |before| <= SAMPLE_SIZE ==> forall d | d in before :: Est(victim) <= Est(d)
    {
      sketch.NeverOver(hash(key));
      if Injective(hash) {
        InjectiveWeight(hash, seen, key);
      }
      var looked, v :| Beats(before, looked, key, v) && items == Swap(before, v, Resident(key, hash(key)));
      SwapSize(before, v, Resident(key, hash(key)));
      if |before| <= SAMPLE_SIZE {
        LookedAll(before, looked);
      }
    }
  }
}
