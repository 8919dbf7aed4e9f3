/** The in-memory token-bucket store: one atomic refill-then-consume per call, under a lock, with
    a sweep of refilled buckets when a new key meets the tracked-key cap. Tokens and times are
    reals; `now` is the clock reading the caller took before it got the lock. */
module TokenBucket {
  import opened Bits

  type Key = string

  datatype Params = Params(capacity: real, refill: real)
  datatype Bucket = Bucket(tokens: real, last: real)
  datatype Acquired = Acquired(allowed: bool, remaining: real)

  type Buckets = map<Key, Bucket>

  function RMin(a: real, b: real): real { if a <= b then a else b }

  /** `now.duration_since(last)`: zero for an earlier reading. */
  function Elapsed(now: real, last: real): real { if now >= last then now - last else 0.0 }

  function Refilled(b: Bucket, p: Params, now: real): Bucket
  {
    Bucket(RMin(b.tokens + Elapsed(now, b.last) * p.refill, p.capacity), now)
  }

  function Take(b: Bucket, cost: real): (Bucket, Acquired)
  {
    if b.tokens >= cost then (b.(tokens := b.tokens - cost), Acquired(true, b.tokens - cost))
    else (b, Acquired(false, b.tokens))
  }

  function Swept(buckets: Buckets, now: real, p: Params): Buckets
  {
    if p.refill <= 0.0 then buckets
    else map k | k in buckets && Elapsed(now, buckets[k].last) < p.capacity / p.refill :: buckets[k]
  }

  predicate SweepsFor(buckets: Buckets, key: Key, cap: nat) { key !in buckets && |buckets| >= cap }

  /** The bucket a call works on: the tracked one, or a fresh full one. */
  function Current(buckets: Buckets, key: Key, p: Params, now: real): Bucket
  {
    if key in buckets then buckets[key] else Bucket(p.capacity, now)
  }

  /** A call on a store that never evicts. */
  function AcquireKept(buckets: Buckets, key: Key, cost: real, p: Params, now: real): (Buckets, Acquired)
  {
    var (b, r) := Take(Refilled(Current(buckets, key, p, now), p, now), cost);
    (buckets[key := b], r)
  }

  /** A call on the store. */
  function Acquire(buckets: Buckets, key: Key, cost: real, p: Params, now: real, cap: nat): (Buckets, Acquired)
  {
    AcquireKept(if SweepsFor(buckets, key, cap) then Swept(buckets, now, p) else buckets, key, cost, p, now)
  }

  class InMemoryStateStore {
    const maxTrackedKeys: nat
    var buckets: Buckets

    constructor (maxTrackedKeys: nat)
      ensures this.maxTrackedKeys == Max(maxTrackedKeys, 1) && buckets == map[]
    {
      this.maxTrackedKeys, buckets := Max(maxTrackedKeys, 1), map[];
    }

    method TryAcquire(key: Key, cost: real, p: Params, now: real) returns (r: Acquired)
      modifies this
      ensures (buckets, r) == Acquire(old(buckets), key, cost, p, now, maxTrackedKeys)
    {
      if key !in buckets && |buckets| >= maxTrackedKeys {
        SweepFullBuckets(now, p);
      }
      ghost var base := buckets;
      if key !in buckets {
        buckets := buckets[key := Bucket(p.capacity, now)];
      }
      var bucket := buckets[key];
      assert bucket == Current(base, key, p, now);
      var elapsed := Elapsed(now, bucket.last);
      var tokens := RMin(bucket.tokens + elapsed * p.refill, p.capacity);
      assert Bucket(tokens, now) == Refilled(bucket, p, now);
      if tokens >= cost {
        tokens := tokens - cost;
        r := Acquired(true, tokens);
      } else {
        r := Acquired(false, tokens);
      }
      buckets := buckets[key := Bucket(tokens, now)];
      assert buckets == base[key := Bucket(tokens, now)];
    }

    method SweepFullBuckets(now: real, p: Params)
      modifies this
      ensures buckets == Swept(old(buckets), now, p)
    {
      if p.refill <= 0.0 { return; }
      var fullRefill := p.capacity / p.refill;
      buckets := map k | k in buckets && Elapsed(now, buckets[k].last) < fullRefill :: buckets[k];
    }
  }

  // ---- runs, in lock order ----

  datatype Call = Call(key: Key, cost: real, now: real)

  function StateAfter(buckets: Buckets, calls: seq<Call>, p: Params, cap: nat): Buckets
    decreases |calls|
  {
    if calls == [] then buckets
    else StateAfter(Acquire(buckets, calls[0].key, calls[0].cost, p, calls[0].now, cap).0, calls[1..], p, cap)
  }

  function Results(buckets: Buckets, calls: seq<Call>, p: Params, cap: nat): (r: seq<Acquired>)
    ensures |r| == |calls|
    decreases |calls|
  {
    if calls == [] then []
    else
      var (next, r) := Acquire(buckets, calls[0].key, calls[0].cost, p, calls[0].now, cap);
      [r] + Results(next, calls[1..], p, cap)
  }

  function ResultsKept(buckets: Buckets, calls: seq<Call>, p: Params): (r: seq<Acquired>)
    ensures |r| == |calls|
    decreases |calls|
  {
    if calls == [] then []
    else
      var (next, r) := AcquireKept(buckets, calls[0].key, calls[0].cost, p, calls[0].now);
      [r] + ResultsKept(next, calls[1..], p)
  }

  /** Readings nondecreasing in lock order, from `start` on. */
  ghost predicate Ordered(start: real, calls: seq<Call>)
    decreases |calls|
  {
    calls == [] || (start <= calls[0].now && Ordered(calls[0].now, calls[1..]))
  }

  // ---- eviction ----

  /** Full again at every reading from `now` on. */
  ghost predicate FullBy(b: Bucket, p: Params, now: real) { b.tokens + Elapsed(now, b.last) * p.refill >= p.capacity }

  lemma MulMono(a: real, b: real, c: real)
    requires a <= b && c >= 0.0
    ensures a * c <= b * c
  {
  }

  /** Forgetting a bucket can be told at a reading, by some cost, exactly when the bucket is not
      full again by then. */
  lemma EvictionShowsIff(b: Bucket, p: Params, now: real)
    ensures (forall cost :: Take(Refilled(b, p, now), cost) == Take(Refilled(Bucket(p.capacity, now), p, now), cost))
      <==> FullBy(b, p, now)
  {
    assert Refilled(Bucket(p.capacity, now), p, now) == Bucket(p.capacity, now) by { assert 0.0 * p.refill == 0.0; }
    if !FullBy(b, p, now) {
      assert Take(Refilled(b, p, now), p.capacity) != Take(Refilled(Bucket(p.capacity, now), p, now), p.capacity);
    }
  }

  /** The evicting store `a` and the keeping store `b` agree, but for buckets full by `now`. */
  ghost predicate Agree(a: Buckets, b: Buckets, p: Params, now: real)
  {
    && (forall k :: k in a ==> k in b && a[k] == b[k])
    && (forall k :: k in b ==> b[k].last <= now)
    && (p.refill > 0.0 ==> forall k :: k in b ==> b[k].tokens >= 0.0)
    && (forall k :: k in b && k !in a ==> p.refill > 0.0 && FullBy(b[k], p, now))
  }

  lemma FullStays(b: Bucket, p: Params, now: real, later: real)
    requires b.last <= now <= later && p.refill > 0.0 && FullBy(b, p, now)
    ensures FullBy(b, p, later)
  {
    MulMono(now - b.last, later - b.last, p.refill);
  }

  lemma SweptIsFull(b: Bucket, p: Params, now: real)
    requires p.refill > 0.0 && b.tokens >= 0.0 && Elapsed(now, b.last) >= p.capacity / p.refill
    ensures FullBy(b, p, now)
  {
    MulMono(p.capacity / p.refill, Elapsed(now, b.last), p.refill);
    assert p.capacity / p.refill * p.refill == p.capacity;
  }

  lemma NotSweptIsLow(b: Bucket, p: Params, now: real)
    requires p.refill > 0.0 && Elapsed(now, b.last) < p.capacity / p.refill
    ensures Elapsed(now, b.last) * p.refill < p.capacity
  {
    var wait := p.capacity / p.refill;
    assert wait * p.refill == p.capacity;
    MulStrict(Elapsed(now, b.last), wait, p.refill);
  }

  lemma MulStrict(a: real, b: real, c: real)
    requires a < b && c > 0.0
    ensures a * c < b * c
  {
  }

  /** A sweep drops a bucket exactly when even an empty one of its age would be full again, so what
      it drops is full; it changes nothing else, and without a refill it drops nothing. */
  lemma SweptIff(buckets: Buckets, now: real, p: Params, k: Key)
    requires k in buckets
    ensures var swept := Swept(buckets, now, p);
            && (k in swept <==> p.refill <= 0.0 || !FullBy(Bucket(0.0, buckets[k].last), p, now))
            && (k in swept ==> swept[k] == buckets[k])
            && (k !in swept && buckets[k].tokens >= 0.0 ==> FullBy(buckets[k], p, now))
  {
    var b := buckets[k];
    if p.refill > 0.0 {
      if Elapsed(now, b.last) < p.capacity / p.refill {
        NotSweptIsLow(b, p, now);
      } else {
        SweptIsFull(b.(tokens := 0.0), p, now);
        if b.tokens >= 0.0 { SweptIsFull(b, p, now); }
      }
    }
  }

  lemma AgreeLater(a: Buckets, b: Buckets, p: Params, now: real, later: real)
    requires Agree(a, b, p, now) && now <= later
    ensures Agree(a, b, p, later)
  {
    forall k | k in b && k !in a
      ensures FullBy(b[k], p, later)
    {
      FullStays(b[k], p, now, later);
    }
  }

  lemma AgreeSwept(a: Buckets, b: Buckets, p: Params, now: real)
    requires Agree(a, b, p, now)
    ensures Agree(Swept(a, now, p), b, p, now)
  {
    if p.refill > 0.0 {
      forall k | k in b && k !in Swept(a, now, p)
        ensures FullBy(b[k], p, now)
      {
        if k in a { SweptIsFull(b[k], p, now); }
      }
    }
  }

  lemma AgreeStep(a: Buckets, b: Buckets, key: Key, cost: real, p: Params, now: real)
    requires Agree(a, b, p, now) && p.capacity >= 0.0
    ensures var (a', r) := AcquireKept(a, key, cost, p, now);
            var (b', s) := AcquireKept(b, key, cost, p, now);
            r == s && Agree(a', b', p, now)
  {
    var cur := Current(b, key, p, now);
    if key in b && key !in a { EvictionShowsIff(b[key], p, now); }
    if p.refill > 0.0 { MulMono(0.0, Elapsed(now, cur.last), p.refill); }
    assert Take(Refilled(Current(a, key, p, now), p, now), cost) == Take(Refilled(cur, p, now), cost);
  }

  lemma {:induction false} AgreeRun(a: Buckets, b: Buckets, calls: seq<Call>, p: Params, cap: nat, start: real)
    requires Agree(a, b, p, start) && Ordered(start, calls) && p.capacity >= 0.0
    ensures Results(a, calls, p, cap) == ResultsKept(b, calls, p)
    decreases |calls|
  {
    if calls != [] {
      var c := calls[0];
      AgreeLater(a, b, p, start, c.now);
      AgreeSwept(a, b, p, c.now);
      var base := Base(a, c, p, cap);
      AgreeStep(base, b, c.key, c.cost, p, c.now);
      AgreeRun(AcquireKept(base, c.key, c.cost, p, c.now).0, AcquireKept(b, c.key, c.cost, p, c.now).0,
               calls[1..], p, cap, c.now);
    }
  }

  /** Over a whole run with readings in order, eviction is not observable: every decision and
      every level is the one of a store that keeps all its buckets. */
  lemma EvictionIsUnobservable(calls: seq<Call>, p: Params, cap: nat, start: real)
    requires Ordered(start, calls) && p.capacity >= 0.0
    ensures Results(map[], calls, p, cap) == ResultsKept(map[], calls, p)
  {
    AgreeRun(map[], map[], calls, p, cap, start);
  }

  // ---- eviction under any clock ----

  /** The store a call works on, swept if a new key meets the cap. */
  function Base(buckets: Buckets, c: Call, p: Params, cap: nat): Buckets
  {
    if SweepsFor(buckets, c.key, cap) then Swept(buckets, c.now, p) else buckets
  }

  function StateKept(buckets: Buckets, calls: seq<Call>, p: Params): Buckets
    decreases |calls|
  {
    if calls == [] then buckets
    else StateKept(AcquireKept(buckets, calls[0].key, calls[0].cost, p, calls[0].now).0, calls[1..], p)
  }

  /** What the evicting store `a` still has, the keeping store `b` has too. */
  ghost predicate Part(a: Buckets, b: Buckets) { forall k :: k in a ==> k in b && a[k] == b[k] }

  /** A bucket that only the keeping store has is full at the reading of the call that asks for it. */
  ghost predicate FullIfEvicted(a: Buckets, b: Buckets, c: Call, p: Params, cap: nat)
  {
    c.key in b && c.key !in Base(a, c, p, cap) ==> FullBy(b[c.key], p, c.now)
  }

  ghost predicate AlwaysFull(a: Buckets, b: Buckets, calls: seq<Call>, p: Params, cap: nat)
    decreases |calls|
  {
    calls == [] ||
    (var c := calls[0];
     && FullIfEvicted(a, b, c, p, cap)
     && AlwaysFull(Acquire(a, c.key, c.cost, p, c.now, cap).0, AcquireKept(b, c.key, c.cost, p, c.now).0,
                   calls[1..], p, cap))
  }

  /** Whether a bucket was kept or forgotten shows in the result of a call, whatever its cost, exactly
      when the bucket is not full at the reading. */
  lemma EveryCostShowsIff(b: Bucket, p: Params, now: real, cost: real)
    ensures Take(Refilled(b, p, now), cost).1 == Take(Refilled(Bucket(p.capacity, now), p, now), cost).1
      <==> FullBy(b, p, now)
  {
    assert Refilled(Bucket(p.capacity, now), p, now) == Bucket(p.capacity, now) by { assert 0.0 * p.refill == 0.0; }
  }

  lemma CallShowsIff(a: Buckets, b: Buckets, c: Call, p: Params, cap: nat)
    requires Part(a, b)
    ensures var (a', r) := Acquire(a, c.key, c.cost, p, c.now, cap);
            var (b', s) := AcquireKept(b, c.key, c.cost, p, c.now);
            (r == s <==> FullIfEvicted(a, b, c, p, cap)) && (r == s ==> Part(a', b'))
  {
    var base := Base(a, c, p, cap);
    if c.key in b && c.key !in base {
      EveryCostShowsIff(b[c.key], p, c.now, c.cost);
      EvictionShowsIff(b[c.key], p, c.now);
    }
  }

  /** Whatever the clock does and whatever the calls cost: a run gives the results of a store that
      never evicts if and only if every evicted bucket is full when it is asked for. */
  lemma {:induction false} EvictionIsHiddenIff(a: Buckets, b: Buckets, calls: seq<Call>, p: Params, cap: nat)
    requires Part(a, b)
    ensures Results(a, calls, p, cap) == ResultsKept(b, calls, p) <==> AlwaysFull(a, b, calls, p, cap)
    decreases |calls|
  {
    if calls != [] {
      var c := calls[0];
      var (a', r) := Acquire(a, c.key, c.cost, p, c.now, cap);
      var (b', s) := AcquireKept(b, c.key, c.cost, p, c.now);
      CallShowsIff(a, b, c, p, cap);
      SameConsIff(r, s, Results(a', calls[1..], p, cap), ResultsKept(b', calls[1..], p));
      if r == s { EvictionIsHiddenIff(a', b', calls[1..], p, cap); }
    }
  }

  lemma SameConsIff<T>(x: T, y: T, s: seq<T>, t: seq<T>)
    ensures [x] + s == [y] + t <==> x == y && s == t
  {
    if [x] + s == [y] + t {
      assert ([x] + s)[0] == ([y] + t)[0];
      assert ([x] + s)[1..] == ([y] + t)[1..];
      assert ([x] + s)[1..] == s && ([y] + t)[1..] == t;
    }
  }

  lemma FullBucketsHide(calls: seq<Call>, p: Params, cap: nat)
    requires AlwaysFull(map[], map[], calls, p, cap)
    ensures Results(map[], calls, p, cap) == ResultsKept(map[], calls, p)
  {
    EvictionIsHiddenIff(map[], map[], calls, p, cap);
  }

  lemma {:induction false} AlwaysFullSnoc(a: Buckets, b: Buckets, calls: seq<Call>, c: Call, p: Params, cap: nat)
    ensures AlwaysFull(a, b, calls + [c], p, cap)
      <==> AlwaysFull(a, b, calls, p, cap) &&
           FullIfEvicted(StateAfter(a, calls, p, cap), StateKept(b, calls, p), c, p, cap)
    decreases |calls|
  {
    if calls == [] {
      assert [c][1..] == [] && [] + [c] == [c];
    } else {
      var d := calls[0];
      assert (calls + [c])[1..] == calls[1..] + [c];
      AlwaysFullSnoc(Acquire(a, d.key, d.cost, p, d.now, cap).0, AcquireKept(b, d.key, d.cost, p, d.now).0,
                     calls[1..], c, p, cap);
    }
  }

  /** So an eviction first shows at the call whose key was evicted and whose bucket is not full at the
      reading, whatever that call costs. */
  lemma EvictionShowsInRunIff(calls: seq<Call>, c: Call, p: Params, cap: nat)
    ensures Results(map[], calls + [c], p, cap) == ResultsKept(map[], calls + [c], p)
      <==> Results(map[], calls, p, cap) == ResultsKept(map[], calls, p)
           && FullIfEvicted(StateAfter(map[], calls, p, cap), StateKept(map[], calls, p), c, p, cap)
  {
    NextCallShowsIff(map[], map[], calls, c, p, cap);
  }

  lemma NextCallShowsIff(a: Buckets, b: Buckets, calls: seq<Call>, c: Call, p: Params, cap: nat)
    requires Part(a, b)
    ensures Results(a, calls + [c], p, cap) == ResultsKept(b, calls + [c], p)
      <==> Results(a, calls, p, cap) == ResultsKept(b, calls, p)
           && FullIfEvicted(StateAfter(a, calls, p, cap), StateKept(b, calls, p), c, p, cap)
  {
    AlwaysFullSnoc(a, b, calls, c, p, cap);
    EvictionIsHiddenIff(a, b, calls, p, cap);
    EvictionIsHiddenIff(a, b, calls + [c], p, cap);
  }

  /** Readings that are out of order can bring that about. Key `a` empties its bucket at 0, in both stores;
      the call of key `b` at 10 sweeps it from the one that evicts. */
  lemma BothStoresEmptied(p: Params)
    requires p == Params(10.0, 1.0)
    ensures Acquire(map[], "a", 10.0, p, 0.0, 1).0 == map["a" := Bucket(0.0, 0.0)]
    ensures AcquireKept(map[], "a", 10.0, p, 0.0).0 == map["a" := Bucket(0.0, 0.0)]
  {
  }

  lemma OneStoreSwept(p: Params, emptied: Buckets)
    requires p == Params(10.0, 1.0) && emptied == map["a" := Bucket(0.0, 0.0)]
    ensures Acquire(emptied, "b", 1.0, p, 10.0, 1).0 == map["b" := Bucket(9.0, 10.0)]
    ensures AcquireKept(emptied, "b", 1.0, p, 10.0).0 == map["a" := Bucket(0.0, 0.0), "b" := Bucket(9.0, 10.0)]
  {
    assert |emptied| == 1 && Swept(emptied, 10.0, p) == map[];
  }

  /** Then a call of `a` with the stale reading 1 is admitted there, where the other store has one
      token for it and refuses. */
  lemma StaleReadingShowsEviction(p: Params, swept: Buckets, kept: Buckets)
    requires p == Params(10.0, 1.0)
    requires swept == map["b" := Bucket(9.0, 10.0)] && kept == map["a" := Bucket(0.0, 0.0), "b" := Bucket(9.0, 10.0)]
    ensures Acquire(swept, "a", 10.0, p, 1.0, 1).1.allowed && !AcquireKept(kept, "a", 10.0, p, 1.0).1.allowed
  {
    assert Swept(swept, 1.0, p) == swept;
  }

  lemma ThirdResult(a: Buckets, a1: Buckets, a2: Buckets, x: Call, y: Call, z: Call, p: Params, cap: nat)
    requires Acquire(a, x.key, x.cost, p, x.now, cap).0 == a1 && Acquire(a1, y.key, y.cost, p, y.now, cap).0 == a2
    ensures Results(a, [x, y, z], p, cap)[2] == Acquire(a2, z.key, z.cost, p, z.now, cap).1
  {
    assert [x, y, z][1..] == [y, z] && [y, z][1..] == [z];
    assert Results(a, [x, y, z], p, cap)[1..] == Results(a1, [y, z], p, cap);
    assert Results(a1, [y, z], p, cap)[1..] == Results(a2, [z], p, cap);
  }

  lemma ThirdKept(b: Buckets, b1: Buckets, b2: Buckets, x: Call, y: Call, z: Call, p: Params)
    requires AcquireKept(b, x.key, x.cost, p, x.now).0 == b1 && AcquireKept(b1, y.key, y.cost, p, y.now).0 == b2
    ensures ResultsKept(b, [x, y, z], p)[2] == AcquireKept(b2, z.key, z.cost, p, z.now).1
  {
    assert [x, y, z][1..] == [y, z] && [y, z][1..] == [z];
    assert ResultsKept(b, [x, y, z], p)[1..] == ResultsKept(b1, [y, z], p);
    assert ResultsKept(b1, [y, z], p)[1..] == ResultsKept(b2, [z], p);
  }

  /** The whole run: the third call is admitted by the one store and refused by the other. */
  lemma StaleRunDiffers(p: Params, x: Call, y: Call, z: Call)
    requires p == Params(10.0, 1.0)
    requires x == Call("a", 10.0, 0.0) && y == Call("b", 1.0, 10.0) && z == Call("a", 10.0, 1.0)
    ensures Results(map[], [x, y, z], p, 1)[2].allowed && !ResultsKept(map[], [x, y, z], p)[2].allowed
  {
    var emptied := map["a" := Bucket(0.0, 0.0)];
    var swept, kept := map["b" := Bucket(9.0, 10.0)], map["a" := Bucket(0.0, 0.0), "b" := Bucket(9.0, 10.0)];
    BothStoresEmptied(p);
    OneStoreSwept(p, emptied);
    StaleReadingShowsEviction(p, swept, kept);
    ThirdResult(map[], emptied, swept, x, y, z, p, 1);
    ThirdKept(map[], emptied, kept, x, y, z, p);
  }

  // ---- the bound on what is admitted ----

  /** Total of what `step` takes over a run. */
  function Total<S>(state: S, calls: seq<Call>, step: (S, Call) -> (S, real)): real
    decreases |calls|
  {
    if calls == [] then 0.0 else step(state, calls[0]).1 + Total(step(state, calls[0]).0, calls[1..], step)
  }

  /** A call seen from `key`: the store after it, and the cost admitted to that key. */
  function Charging(key: Key, p: Params, cap: nat): (Buckets, Call) -> (Buckets, real)
  {
    (buckets: Buckets, c: Call) =>
      var (next, r) := Acquire(buckets, c.key, c.cost, p, c.now, cap);
      (next, if c.key == key && r.allowed then c.cost else 0.0)
  }

  function Admitted(key: Key, buckets: Buckets, calls: seq<Call>, p: Params, cap: nat): real
  {
    Total(buckets, calls, Charging(key, p, cap))
  }

  /** Time the readings move forward, from `from` on; steps backward count for nothing. */
  function Forward(from: real, calls: seq<Call>): real
    decreases |calls|
  {
    if calls == [] then 0.0 else Elapsed(calls[0].now, from) + Forward(calls[0].now, calls[1..])
  }

  /** What a key could take at the reading `now`. */
  function Level(key: Key, buckets: Buckets, p: Params, now: real): real
  {
    if key in buckets then RMin(buckets[key].tokens + Elapsed(now, buckets[key].last) * p.refill, p.capacity)
    else p.capacity
  }

  /** Sound parameters and costs keep every level between zero and the capacity. */
  ghost predicate Sound(buckets: Buckets, p: Params)
  {
    p.capacity >= 0.0 && p.refill >= 0.0 && forall k :: k in buckets ==> 0.0 <= buckets[k].tokens <= p.capacity
  }

  lemma AcquireIsSound(buckets: Buckets, key: Key, cost: real, p: Params, now: real, cap: nat)
    requires Sound(buckets, p) && cost >= 0.0
    ensures var (next, r) := Acquire(buckets, key, cost, p, now, cap);
            Sound(next, p) && 0.0 <= r.remaining <= p.capacity
  {
    var base := if SweepsFor(buckets, key, cap) then Swept(buckets, now, p) else buckets;
    var cur := Current(base, key, p, now);
    MulMono(0.0, Elapsed(now, cur.last), p.refill);
  }

  lemma {:induction false} TokensStayInRange(buckets: Buckets, calls: seq<Call>, p: Params, cap: nat)
    requires Sound(buckets, p) && forall i :: 0 <= i < |calls| ==> calls[i].cost >= 0.0
    ensures Sound(StateAfter(buckets, calls, p, cap), p)
    ensures forall i :: 0 <= i < |calls| ==> 0.0 <= Results(buckets, calls, p, cap)[i].remaining <= p.capacity
    decreases |calls|
  {
    if calls != [] {
      var c := calls[0];
      AcquireIsSound(buckets, c.key, c.cost, p, c.now, cap);
      TokensStayInRange(Acquire(buckets, c.key, c.cost, p, c.now, cap).0, calls[1..], p, cap);
    }
  }

  lemma LevelMoves(key: Key, buckets: Buckets, p: Params, from: real, now: real)
    requires p.refill >= 0.0
    ensures Level(key, buckets, p, now) <= Level(key, buckets, p, from) + Elapsed(now, from) * p.refill
  {
    MulMono(0.0, Elapsed(now, from), p.refill);
    if key in buckets {
      var last := buckets[key].last;
      var long, short, step := Elapsed(now, last), Elapsed(from, last), Elapsed(now, from);
      RefillMoves(long, short, step, p.refill);
      MinMoves(buckets[key].tokens, long * p.refill, short * p.refill, step * p.refill, p.capacity);
    }
  }

  lemma RefillMoves(long: real, short: real, step: real, refill: real)
    requires long <= short + step && refill >= 0.0
    ensures long * refill <= short * refill + step * refill
  {
    MulMono(long, short + step, refill);
    Distribute(short, step, refill);
  }

  lemma MinMoves(tokens: real, long: real, short: real, step: real, capacity: real)
    requires long <= short + step && step >= 0.0
    ensures RMin(tokens + long, capacity) <= RMin(tokens + short, capacity) + step
  {
  }

  lemma SweepKeepsLevel(key: Key, buckets: Buckets, p: Params, now: real)
    requires Sound(buckets, p)
    ensures Level(key, Swept(buckets, now, p), p, now) == Level(key, buckets, p, now)
  {
    if p.refill > 0.0 && key in buckets && key !in Swept(buckets, now, p) {
      SweptIsFull(buckets[key], p, now);
    }
  }

  lemma TakeLowersLevel(key: Key, buckets: Buckets, other: Key, cost: real, p: Params, now: real)
    requires p.refill >= 0.0
    ensures var (next, r) := AcquireKept(buckets, other, cost, p, now);
            (if other == key && r.allowed then cost else 0.0) + Level(key, next, p, now) <= Level(key, buckets, p, now)
  {
    assert 0.0 * p.refill == 0.0;
  }

  lemma TakenWithinLevel(key: Key, buckets: Buckets, c: Call, p: Params, cap: nat)
    requires Sound(buckets, p)
    ensures var (next, taken) := Charging(key, p, cap)(buckets, c);
            taken + Level(key, next, p, c.now) <= Level(key, buckets, p, c.now)
  {
    if SweepsFor(buckets, c.key, cap) {
      SweepKeepsLevel(key, buckets, p, c.now);
      TakeLowersLevel(key, Swept(buckets, c.now, p), c.key, c.cost, p, c.now);
    } else {
      TakeLowersLevel(key, buckets, c.key, c.cost, p, c.now);
    }
  }

  /** What the moves of the readings bring, `gain` at each. */
  function Brought(from: real, calls: seq<Call>, gain: (real, real) -> real): real
    decreases |calls|
  {
    if calls == [] then 0.0 else gain(calls[0].now, from) + Brought(calls[0].now, calls[1..], gain)
  }

  /** The potential argument: if every call takes no more than it lowers a non-negative level, and
      the level rises by no more than the gain of a move of the clock, then a run takes no more
      than the level it starts at and the gains of its moves. */
  lemma {:induction false} TotalWithinLevel<S(!new)>(state: S, calls: seq<Call>, step: (S, Call) -> (S, real),
                                                     inv: S -> bool, level: (S, real) -> real,
                                                     gain: (real, real) -> real, from: real)
    requires inv(state) && forall i :: 0 <= i < |calls| ==> calls[i].cost >= 0.0
    requires forall s, c: Call :: inv(s) && c.cost >= 0.0 ==>
      inv(step(s, c).0) && step(s, c).1 + level(step(s, c).0, c.now) <= level(s, c.now)
    requires forall s, t, f :: inv(s) ==> 0.0 <= level(s, t) <= level(s, f) + gain(t, f)
    ensures Total(state, calls, step) <= level(state, from) + Brought(from, calls, gain)
    decreases |calls|
  {
    if calls != [] {
      var c := calls[0];
      TotalWithinLevel(step(state, c).0, calls[1..], step, inv, level, gain, c.now);
    }
  }

  function LevelOf(key: Key, p: Params): (Buckets, real) -> real
  {
    (buckets: Buckets, now: real) => Level(key, buckets, p, now)
  }

  function RefillOf(p: Params): (real, real) -> real
  {
    (now: real, from: real) => Elapsed(now, from) * p.refill
  }

  ghost function SoundFor(p: Params): Buckets -> bool
  {
    buckets => Sound(buckets, p)
  }

  lemma AdmittedWithinLevel(key: Key, buckets: Buckets, calls: seq<Call>, p: Params, cap: nat, from: real)
    requires Sound(buckets, p) && forall i :: 0 <= i < |calls| ==> calls[i].cost >= 0.0
    ensures Admitted(key, buckets, calls, p, cap) <= LevelOf(key, p)(buckets, from) + Brought(from, calls, RefillOf(p))
  {
    var step, inv, level, gain := Charging(key, p, cap), SoundFor(p), LevelOf(key, p), RefillOf(p);
    StepIsSound(key, p, cap, step, inv, level);
    LevelIsSound(key, p, inv, level, gain);
    TotalWithinLevel(buckets, calls, step, inv, level, gain, from);
  }

  lemma StepIsSound(key: Key, p: Params, cap: nat, step: (Buckets, Call) -> (Buckets, real), inv: Buckets -> bool,
                    level: (Buckets, real) -> real)
    requires step == Charging(key, p, cap) && inv == SoundFor(p) && level == LevelOf(key, p)
    ensures forall s, c: Call :: inv(s) && c.cost >= 0.0 ==>
      inv(step(s, c).0) && step(s, c).1 + level(step(s, c).0, c.now) <= level(s, c.now)
  {
    forall s, c: Call | inv(s) && c.cost >= 0.0
      ensures inv(step(s, c).0) && step(s, c).1 + level(step(s, c).0, c.now) <= level(s, c.now)
    {
      AcquireIsSound(s, c.key, c.cost, p, c.now, cap);
      TakenWithinLevel(key, s, c, p, cap);
    }
  }

  lemma LevelIsSound(key: Key, p: Params, inv: Buckets -> bool, level: (Buckets, real) -> real,
                     gain: (real, real) -> real)
    requires inv == SoundFor(p) && level == LevelOf(key, p) && gain == RefillOf(p)
    ensures forall s, t, f :: inv(s) ==> 0.0 <= level(s, t) <= level(s, f) + gain(t, f)
  {
    forall s, t, f | inv(s)
      ensures 0.0 <= level(s, t) <= level(s, f) + gain(t, f)
    {
      LevelMovesByGain(key, s, p, f, t);
    }
  }

  lemma LevelMovesByGain(key: Key, buckets: Buckets, p: Params, from: real, now: real)
    requires Sound(buckets, p)
    ensures 0.0 <= LevelOf(key, p)(buckets, now) <= LevelOf(key, p)(buckets, from) + RefillOf(p)(now, from)
  {
    LevelIsNonNegative(key, buckets, p, now);
    LevelMoves(key, buckets, p, from, now);
    SameSum(Level(key, buckets, p, now), Level(key, buckets, p, from), Elapsed(now, from) * p.refill,
            RefillOf(p)(now, from));
  }

  lemma SameSum(low: real, base: real, gain: real, same: real)
    requires low <= base + gain && gain == same
    ensures low <= base + same
  {
  }

  lemma {:induction false} BroughtIsForward(from: real, calls: seq<Call>, p: Params)
    ensures Brought(from, calls, RefillOf(p)) == Forward(from, calls) * p.refill
    decreases |calls|
  {
    if calls != [] {
      BroughtIsForward(calls[0].now, calls[1..], p);
      Distribute(Elapsed(calls[0].now, from), Forward(calls[0].now, calls[1..]), p.refill);
    }
  }

  lemma Distribute(a: real, b: real, c: real)
    ensures (a + b) * c == a * c + b * c
  {
  }

  lemma LevelIsNonNegative(key: Key, buckets: Buckets, p: Params, now: real)
    requires Sound(buckets, p)
    ensures 0.0 <= Level(key, buckets, p, now) <= p.capacity
  {
    if key in buckets { MulMono(0.0, Elapsed(now, buckets[key].last), p.refill); }
  }

  /** In any window of any run, whatever the clock does, a key is admitted at most the capacity
      plus the refill over the time that readings moved forward in the window. */
  lemma WindowBound(key: Key, before: seq<Call>, window: seq<Call>, forward: real, p: Params, cap: nat)
    requires p.capacity >= 0.0 && p.refill >= 0.0 && window != []
    requires forall i :: 0 <= i < |before| ==> before[i].cost >= 0.0
    requires forall i :: 0 <= i < |window| ==> window[i].cost >= 0.0
    requires forward == Forward(window[0].now, window)
    ensures Admitted(key, StateAfter(map[], before, p, cap), window, p, cap) <= p.capacity + forward * p.refill
  {
    TokensStayInRange(map[], before, p, cap);
    WindowFrom(key, StateAfter(map[], before, p, cap), window, p, cap, forward);
  }

  lemma WindowFrom(key: Key, state: Buckets, window: seq<Call>, p: Params, cap: nat, forward: real)
    requires Sound(state, p) && window != [] && forall i :: 0 <= i < |window| ==> window[i].cost >= 0.0
    requires forward == Forward(window[0].now, window)
    ensures Admitted(key, state, window, p, cap) <= p.capacity + forward * p.refill
  {
    var brought := BroughtInWindow(key, state, window, p, cap, forward);
    SameSum(Admitted(key, state, window, p, cap), p.capacity, brought, forward * p.refill);
  }

  lemma BroughtInWindow(key: Key, state: Buckets, window: seq<Call>, p: Params, cap: nat, forward: real)
    returns (brought: real)
    requires Sound(state, p) && window != [] && forall i :: 0 <= i < |window| ==> window[i].cost >= 0.0
    requires forward == Forward(window[0].now, window)
    ensures Admitted(key, state, window, p, cap) <= p.capacity + brought
    ensures brought == forward * p.refill
  {
    brought := Brought(window[0].now, window, RefillOf(p));
    BroughtIsForward(window[0].now, window, p);
    WindowBrought(key, state, window, p, cap, RefillOf(p));
  }

  lemma WindowBrought(key: Key, state: Buckets, window: seq<Call>, p: Params, cap: nat, gain: (real, real) -> real)
    requires Sound(state, p) && window != [] && gain == RefillOf(p)
    requires forall i :: 0 <= i < |window| ==> window[i].cost >= 0.0
    ensures Admitted(key, state, window, p, cap) <= p.capacity + Brought(window[0].now, window, gain)
  {
    var from := window[0].now;
    AdmittedWithinLevel(key, state, window, p, cap, from);
    LevelIsNonNegative(key, state, p, from);
    LessLevel(Admitted(key, state, window, p, cap), LevelOf(key, p)(state, from), p.capacity,
              Brought(from, window, gain));
  }

  lemma LessLevel(total: real, level: real, capacity: real, gain: real)
    requires total <= level + gain && level <= capacity
    ensures total <= capacity + gain
  {
  }

  /** For readings in order that time is simply the length of the window. */
  lemma {:induction false} ForwardIsLength(from: real, calls: seq<Call>)
    requires Ordered(from, calls)
    ensures Forward(from, calls) == if calls == [] then 0.0 else calls[|calls| - 1].now - from
    decreases |calls|
  {
    if calls != [] { ForwardIsLength(calls[0].now, calls[1..]); }
  }

  /** With readings in order: at most the capacity plus the refill over the length of the window. */
  lemma WindowBoundInOrder(key: Key, before: seq<Call>, window: seq<Call>, length: real, p: Params, cap: nat)
    requires p.capacity >= 0.0 && p.refill >= 0.0 && window != [] && Ordered(window[0].now, window)
    requires forall i :: 0 <= i < |before| ==> before[i].cost >= 0.0
    requires forall i :: 0 <= i < |window| ==> window[i].cost >= 0.0
    requires length == window[|window| - 1].now - window[0].now
    ensures Admitted(key, StateAfter(map[], before, p, cap), window, p, cap) <= p.capacity + length * p.refill
  {
    TokensStayInRange(map[], before, p, cap);
    LengthIsForward(window, length);
    WindowFrom(key, StateAfter(map[], before, p, cap), window, p, cap, length);
  }

  lemma LengthIsForward(window: seq<Call>, length: real)
    requires window != [] && Ordered(window[0].now, window) && length == window[|window| - 1].now - window[0].now
    ensures length == Forward(window[0].now, window)
  {
    ForwardIsLength(window[0].now, window);
  }

  // ---- waiting ----

  function Ceil(x: real): int { -((-x).Floor) }

  function RetryAfter(p: Params, tokens: real): nat
  {
    if p.refill <= 0.0 then 1 else Max(1, Ceil((1.0 - tokens) / p.refill))
  }

  lemma CeilIs(x: real)
    ensures Ceil(x) as real - 1.0 < x <= Ceil(x) as real
  {
  }

  lemma LongEnough(tokens: real, refill: real, waited: real)
    requires refill > 0.0 && waited >= (1.0 - tokens) / refill
    ensures tokens + waited * refill >= 1.0
  {
    var wait := (1.0 - tokens) / refill;
    assert wait * refill == 1.0 - tokens;
    MulMono(wait, waited, refill);
  }

  lemma TooShort(tokens: real, refill: real, waited: real)
    requires refill > 0.0 && waited < (1.0 - tokens) / refill
    ensures tokens + waited * refill < 1.0
  {
    var wait := (1.0 - tokens) / refill;
    assert wait * refill == 1.0 - tokens;
    assert (wait - waited) * refill > 0.0;
    Distribute(wait - waited, waited, refill);
  }

  /** The advice is exact: with a positive refill one token is there after the wait, and a wait
      that is a whole second shorter is not enough unless one second is the least to be told. */
  lemma RetryAfterIsExact(b: Bucket, p: Params, now: real)
    requires 0.0 <= b.tokens < 1.0 <= p.capacity && p.refill > 0.0 && b.last <= now
    ensures now - b.last >= RetryAfter(p, b.tokens) as real ==> Refilled(b, p, now).tokens >= 1.0
    ensures RetryAfter(p, b.tokens) > 1 && now - b.last <= RetryAfter(p, b.tokens) as real - 1.0
      ==> Refilled(b, p, now).tokens < 1.0
  {
    var waited := now - b.last;
    CeilIs((1.0 - b.tokens) / p.refill);
    if waited >= (1.0 - b.tokens) / p.refill {
      LongEnough(b.tokens, p.refill, waited);
    } else {
      TooShort(b.tokens, p.refill, waited);
    }
  }

  lemma OtherKeyKeepsBucket(buckets: Buckets, key: Key, other: Key, cost: real, p: Params, now: real, cap: nat)
    requires other != key
    ensures var next := Acquire(buckets, other, cost, p, now, cap).0;
            (key in next ==> key in buckets && next[key] == buckets[key])
              && (p.refill <= 0.0 && key in buckets ==> key in next)
  {
  }

  lemma {:induction false} OthersKeepBucket(buckets: Buckets, key: Key, others: seq<Call>, p: Params, cap: nat)
    requires forall i :: 0 <= i < |others| ==> others[i].key != key
    ensures var next := StateAfter(buckets, others, p, cap);
            (key in next ==> key in buckets && next[key] == buckets[key])
              && (p.refill <= 0.0 && key in buckets ==> key in next)
    decreases |others|
  {
    if others != [] {
      var c := others[0];
      OtherKeyKeepsBucket(buckets, key, c.key, c.cost, p, c.now, cap);
      OthersKeepBucket(Acquire(buckets, c.key, c.cost, p, c.now, cap).0, key, others[1..], p, cap);
    }
  }

  /** After a refusal, a caller that waits the advised time undisturbed, whatever other keys do
      meanwhile and whether or not its bucket is evicted, is admitted if and only if tokens are
      refilled at all. */
  lemma WaitingAdmitsIff(buckets: Buckets, key: Key, p: Params, cap: nat, now: real, others: seq<Call>, later: real)
    requires Sound(buckets, p) && p.capacity >= 1.0
    requires var r := Acquire(buckets, key, 1.0, p, now, cap).1;
      !r.allowed && later - now >= RetryAfter(p, r.remaining) as real
    requires forall i :: 0 <= i < |others| ==> others[i].key != key
    ensures var next := StateAfter(Acquire(buckets, key, 1.0, p, now, cap).0, others, p, cap);
            Acquire(next, key, 1.0, p, later, cap).1.allowed <==> p.refill > 0.0
  {
    var (mid, r) := Acquire(buckets, key, 1.0, p, now, cap);
    AcquireIsSound(buckets, key, 1.0, p, now, cap);
    RefusedBucket(buckets, key, p, cap, now);
    OthersKeepBucket(mid, key, others, p, cap);
    var next := StateAfter(mid, others, p, cap);
    if p.refill > 0.0 {
      if key in next {
        WaitedIsAdmitted(next, key, p, cap, later);
      } else {
        FreshIsAdmitted(next, key, p, cap, later);
      }
    } else {
      UnrefilledIsRefused(next, key, p, cap, later);
    }
  }

  lemma RefusedBucket(buckets: Buckets, key: Key, p: Params, cap: nat, now: real)
    requires !Acquire(buckets, key, 1.0, p, now, cap).1.allowed
    ensures var (next, r) := Acquire(buckets, key, 1.0, p, now, cap);
            key in next && next[key] == Bucket(r.remaining, now) && r.remaining < 1.0
  {
  }

  lemma WaitedIsAdmitted(buckets: Buckets, key: Key, p: Params, cap: nat, now: real)
    requires key in buckets && 0.0 <= buckets[key].tokens < 1.0 <= p.capacity && p.refill > 0.0
    requires now - buckets[key].last >= RetryAfter(p, buckets[key].tokens) as real
    ensures Acquire(buckets, key, 1.0, p, now, cap).1.allowed
  {
    RetryAfterIsExact(buckets[key], p, now);
  }

  lemma UnrefilledIsRefused(buckets: Buckets, key: Key, p: Params, cap: nat, now: real)
    requires key in buckets && buckets[key].tokens < 1.0 && p.refill == 0.0
    ensures !Acquire(buckets, key, 1.0, p, now, cap).1.allowed
  {
    assert Elapsed(now, buckets[key].last) * p.refill == 0.0;
  }

  lemma FreshIsAdmitted(buckets: Buckets, key: Key, p: Params, cap: nat, now: real)
    requires key !in buckets && p.capacity >= 1.0
    ensures Acquire(buckets, key, 1.0, p, now, cap).1.allowed
  {
    assert 0.0 * p.refill == 0.0;
  }
}
