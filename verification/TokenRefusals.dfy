/** The other side of the rate bound: a call is refused only when the client has used up what the bound
    allows it, so the store admits as much as it can. */
module TokenRefusals {
  import opened TokenBucket

  // ---- the argument, for any store and any clock ----

  function End<S>(state: S, calls: seq<Call>, step: (S, Call) -> (S, real)): S
    decreases |calls|
  {
    if calls == [] then state else End(step(state, calls[0]).0, calls[1..], step)
  }

  /** The level at the reading of `last` is at least `base`, what the moves of the readings bring from `from`
      on, less what the calls took. */
  predicate Accounts<S>(state: S, calls: seq<Call>, last: Call, step: (S, Call) -> (S, real),
                        level: (S, real) -> real, gain: (real, real) -> real, base: real, from: real)
  {
    level(End(state, calls, step), last.now)
    >= base + Brought(from, calls + [last], gain) - Total(state, calls, step)
  }

  /** It is so from the reading of this call or a later one on, at which the level was `full`. */
  predicate FullOnce<S>(state: S, calls: seq<Call>, last: Call, step: (S, Call) -> (S, real),
                        level: (S, real) -> real, gain: (real, real) -> real, full: real)
    decreases |calls|
  {
    || AccountsFull(state, calls, last, step, level, gain, full)
    || (calls != [] && FullOnce(step(state, calls[0]).0, calls[1..], last, step, level, gain, full))
  }

  predicate AccountsFull<S>(state: S, calls: seq<Call>, last: Call, step: (S, Call) -> (S, real),
                            level: (S, real) -> real, gain: (real, real) -> real, full: real)
  {
    level(End(state, calls, step), last.now)
    >= full + Brought((calls + [last])[0].now, (calls + [last])[1..], gain) - Total(state, calls, step)
  }

  /** If calls lower the level by what they take and no more, and it rises by the gain of a move of the
      clock unless it is full then, the level is accounted for from the start or from a full moment. */
  lemma {:induction false} LevelIsAccounted<S(!new)>(state: S, calls: seq<Call>, last: Call,
                                                     step: (S, Call) -> (S, real), inv: (S, real) -> bool,
                                                     level: (S, real) -> real, gain: (real, real) -> real,
                                                     full: real, from: real)
    requires inv(state, from) && Ordered(from, calls + [last])
    requires forall i :: 0 <= i < |calls| ==> calls[i].cost >= 0.0
    requires forall s, c: Call, f {:trigger inv(s, f), step(s, c)} :: inv(s, f) && f <= c.now && c.cost >= 0.0 ==>
      inv(step(s, c).0, c.now) && step(s, c).1 + level(step(s, c).0, c.now) == level(s, c.now)
    requires forall s, t, f :: inv(s, f) && f <= t ==> level(s, t) >= RMin(level(s, f) + gain(t, f), full)
    ensures Accounts(state, calls, last, step, level, gain, level(state, from), from)
      || FullOnce(state, calls, last, step, level, gain, full)
    decreases |calls|
  {
    if calls == [] {
      assert ([] + [last])[1..] == [];
    } else {
      var c := calls[0];
      assert (calls + [last])[1..] == calls[1..] + [last];
      LevelIsAccounted(step(state, c).0, calls[1..], last, step, inv, level, gain, full, c.now);
      OneMoreCall(state, calls, last, step, level, gain, full, from);
    }
  }

  lemma OneMoreCall<S>(state: S, calls: seq<Call>, last: Call, step: (S, Call) -> (S, real),
                       level: (S, real) -> real, gain: (real, real) -> real, full: real, from: real)
    requires calls != [] && (calls + [last])[1..] == calls[1..] + [last]
    requires var c := calls[0];
      && step(state, c).1 + level(step(state, c).0, c.now) == level(state, c.now)
      && level(state, c.now) >= RMin(level(state, from) + gain(c.now, from), full)
      && (|| Accounts(step(state, c).0, calls[1..], last, step, level, gain, level(step(state, c).0, c.now), c.now)
          || FullOnce(step(state, c).0, calls[1..], last, step, level, gain, full))
    ensures Accounts(state, calls, last, step, level, gain, level(state, from), from)
      || FullOnce(state, calls, last, step, level, gain, full)
  {
  }

  /** Which call it is. */
  lemma {:induction false} FullAt<S>(state: S, calls: seq<Call>, last: Call, step: (S, Call) -> (S, real),
                                     level: (S, real) -> real, gain: (real, real) -> real, full: real)
    returns (i: nat)
    requires FullOnce(state, calls, last, step, level, gain, full)
    ensures i <= |calls|
    ensures AccountsFull(End(state, calls[..i], step), calls[i..], last, step, level, gain, full)
    decreases |calls|
  {
    if AccountsFull(state, calls, last, step, level, gain, full) {
      i := 0;
      assert calls[..0] == [] && calls[0..] == calls;
    } else {
      var later := FullAt(step(state, calls[0]).0, calls[1..], last, step, level, gain, full);
      i := later + 1;
      assert calls[..i][1..] == calls[1..][..later] && calls[i..] == calls[1..][later..];
    }
  }

  // ---- the store ----

  ghost predicate Past(buckets: Buckets, now: real) { forall k :: k in buckets ==> buckets[k].last <= now }

  ghost function SoundSince(p: Params): (Buckets, real) -> bool
  {
    (buckets, now) => Sound(buckets, p) && Past(buckets, now)
  }

  lemma CappedTwice(tokens: real, short: real, step: real, capacity: real, long: real)
    requires step >= 0.0 && long == short + step
    ensures RMin(tokens + long, capacity) >= RMin(RMin(tokens + short, capacity) + step, capacity)
  {
  }

  /** As the clock moves on, a level rises by the refill, up to the capacity. */
  lemma LevelRises(key: Key, buckets: Buckets, p: Params, from: real, now: real)
    requires Sound(buckets, p) && Past(buckets, from) && from <= now
    ensures Level(key, buckets, p, now)
      >= RMin(Level(key, buckets, p, from) + Elapsed(now, from) * p.refill, p.capacity)
  {
    if key in buckets {
      var last := buckets[key].last;
      var long, short, step := Elapsed(now, last), Elapsed(from, last), Elapsed(now, from);
      MulMono(0.0, step, p.refill);
      Distribute(short, step, p.refill);
      CappedTwice(buckets[key].tokens, short * p.refill, step * p.refill, p.capacity, long * p.refill);
    }
  }

  lemma KeptLevelFalls(key: Key, buckets: Buckets, c: Call, p: Params)
    requires Sound(buckets, p) && c.cost >= 0.0
    ensures var (next, r) := AcquireKept(buckets, c.key, c.cost, p, c.now);
            Level(key, next, p, c.now)
              == Level(key, buckets, p, c.now) - (if c.key == key && r.allowed then c.cost else 0.0)
  {
    if c.key == key { OwnLevelFalls(buckets, c, p, Refilled(Current(buckets, key, p, c.now), p, c.now)); }
  }

  lemma OwnLevelFalls(buckets: Buckets, c: Call, p: Params, b: Bucket)
    requires Sound(buckets, p) && c.cost >= 0.0 && b == Refilled(Current(buckets, c.key, p, c.now), p, c.now)
    ensures b.tokens == Level(c.key, buckets, p, c.now) && b.last == c.now
    ensures Level(c.key, buckets[c.key := Take(b, c.cost).0], p, c.now)
      == b.tokens - if b.tokens >= c.cost then c.cost else 0.0
  {
    assert 0.0 * p.refill == 0.0;
  }

  /** A call lowers the level of its key by what it takes, nothing when it is refused, and no other. */
  lemma LevelFalls(key: Key, buckets: Buckets, c: Call, p: Params, cap: nat)
    requires Sound(buckets, p) && c.cost >= 0.0
    ensures var (next, taken) := Charging(key, p, cap)(buckets, c);
            taken + Level(key, next, p, c.now) == Level(key, buckets, p, c.now)
  {
    if SweepsFor(buckets, c.key, cap) {
      SweepKeepsLevel(key, buckets, p, c.now);
      KeptLevelFalls(key, Swept(buckets, c.now, p), c, p);
    } else {
      KeptLevelFalls(key, buckets, c, p);
    }
  }

  lemma PastLater(buckets: Buckets, c: Call, p: Params, cap: nat, from: real)
    requires Past(buckets, from) && from <= c.now
    ensures Past(Acquire(buckets, c.key, c.cost, p, c.now, cap).0, c.now)
  {
  }

  /** A call is admitted exactly when the level of its key is enough. */
  lemma AdmittedIffLevel(buckets: Buckets, c: Call, p: Params, cap: nat)
    requires Sound(buckets, p)
    ensures Acquire(buckets, c.key, c.cost, p, c.now, cap).1.allowed <==> Level(c.key, buckets, p, c.now) >= c.cost
  {
    assert 0.0 * p.refill == 0.0;
    if SweepsFor(buckets, c.key, cap) { SweepKeepsLevel(c.key, buckets, p, c.now); }
  }

  lemma StoreSteps(key: Key, p: Params, cap: nat, step: (Buckets, Call) -> (Buckets, real),
                   inv: (Buckets, real) -> bool, level: (Buckets, real) -> real)
    requires step == Charging(key, p, cap) && inv == SoundSince(p) && level == LevelOf(key, p)
    ensures forall s, c: Call, f {:trigger inv(s, f), step(s, c)} :: inv(s, f) && f <= c.now && c.cost >= 0.0 ==>
      inv(step(s, c).0, c.now) && step(s, c).1 + level(step(s, c).0, c.now) == level(s, c.now)
  {
    forall s, c: Call, f {:trigger inv(s, f), step(s, c)} | inv(s, f) && f <= c.now && c.cost >= 0.0
      ensures inv(step(s, c).0, c.now) && step(s, c).1 + level(step(s, c).0, c.now) == level(s, c.now)
    {
      AcquireIsSound(s, c.key, c.cost, p, c.now, cap);
      PastLater(s, c, p, cap, f);
      LevelFalls(key, s, c, p, cap);
    }
  }

  lemma StoreRises(key: Key, p: Params, inv: (Buckets, real) -> bool, level: (Buckets, real) -> real,
                   gain: (real, real) -> real)
    requires inv == SoundSince(p) && level == LevelOf(key, p) && gain == RefillOf(p)
    ensures forall s, t, f :: inv(s, f) && f <= t ==> level(s, t) >= RMin(level(s, f) + gain(t, f), p.capacity)
  {
    forall s, t, f | inv(s, f) && f <= t
      ensures level(s, t) >= RMin(level(s, f) + gain(t, f), p.capacity)
    {
      LevelRises(key, s, p, f, t);
      SameRise(Level(key, s, p, t), Level(key, s, p, f), Elapsed(t, f) * p.refill, gain(t, f), p.capacity);
    }
  }

  lemma SameRise(level: real, base: real, rise: real, gain: real, full: real)
    requires level >= RMin(base + rise, full) && gain == rise
    ensures level >= RMin(base + gain, full)
  {
  }

  lemma {:induction false} EndIsState(buckets: Buckets, calls: seq<Call>, key: Key, p: Params, cap: nat)
    ensures End(buckets, calls, Charging(key, p, cap)) == StateAfter(buckets, calls, p, cap)
    decreases |calls|
  {
    if calls != [] {
      EndIsState(Acquire(buckets, calls[0].key, calls[0].cost, p, calls[0].now, cap).0, calls[1..], key, p, cap);
    }
  }

  /** What a key was admitted from the `i`-th call on. */
  function Since(key: Key, buckets: Buckets, calls: seq<Call>, i: nat, p: Params, cap: nat): real
    requires i <= |calls|
  {
    Admitted(key, StateAfter(buckets, calls[..i], p, cap), calls[i..], p, cap)
  }

  /** From the `i`-th call on the refill of the time, less what was admitted, is still there. */
  lemma LevelFrom(key: Key, calls: seq<Call>, last: Call, p: Params, cap: nat, gain: (real, real) -> real)
    returns (i: nat)
    requires p.capacity >= 0.0 && p.refill >= 0.0 && gain == RefillOf(p)
    requires Ordered((calls + [last])[0].now, calls + [last])
    requires forall k :: 0 <= k < |calls| ==> calls[k].cost >= 0.0
    ensures i <= |calls|
    ensures Level(key, StateAfter(map[], calls, p, cap), p, last.now)
      >= p.capacity + Brought((calls + [last])[i].now, (calls + [last])[i + 1..], gain)
         - Since(key, map[], calls, i, p, cap)
  {
    var step, level := Charging(key, p, cap), LevelOf(key, p);
    FullSomewhere(key, map[], calls, last, p, cap, step, level, gain);
    i := FullAt(map[], calls, last, step, level, gain, p.capacity);
    EndIsState(map[], calls[..i], key, p, cap);
    EndIsState(StateAfter(map[], calls[..i], p, cap), calls[i..], key, p, cap);
    StateAfterTwo(map[], calls, i, p, cap);
    assert (calls[i..] + [last])[0] == (calls + [last])[i] && (calls[i..] + [last])[1..] == (calls + [last])[i + 1..];
  }

  lemma {:induction false} StateAfterTwo(buckets: Buckets, calls: seq<Call>, i: nat, p: Params, cap: nat)
    requires i <= |calls|
    ensures StateAfter(StateAfter(buckets, calls[..i], p, cap), calls[i..], p, cap)
      == StateAfter(buckets, calls, p, cap)
    decreases i
  {
    if i == 0 {
      assert calls[..0] == [] && calls[0..] == calls;
    } else {
      var c := calls[0];
      StateAfterTwo(Acquire(buckets, c.key, c.cost, p, c.now, cap).0, calls[1..], i - 1, p, cap);
      assert calls[..i][1..] == calls[1..][..i - 1] && calls[i..] == calls[1..][i - 1..];
    }
  }

  /** An empty store starts full. */
  lemma FullSomewhere(key: Key, none: Buckets, calls: seq<Call>, last: Call, p: Params, cap: nat,
                      step: (Buckets, Call) -> (Buckets, real), level: (Buckets, real) -> real,
                      gain: (real, real) -> real)
    requires p.capacity >= 0.0 && p.refill >= 0.0 && none == map[]
    requires gain == RefillOf(p) && step == Charging(key, p, cap) && level == LevelOf(key, p)
    requires Ordered((calls + [last])[0].now, calls + [last])
    requires forall k :: 0 <= k < |calls| ==> calls[k].cost >= 0.0
    ensures FullOnce(none, calls, last, step, level, gain, p.capacity)
  {
    var inv, from := SoundSince(p), (calls + [last])[0].now;
    StoreSteps(key, p, cap, step, inv, level);
    StoreRises(key, p, inv, level, gain);
    assert Sound(none, p) && Past(none, from);
    LevelIsAccounted(none, calls, last, step, inv, level, gain, p.capacity, from);
    NothingBrought(from, p);
    StartsFull(none, calls, last, step, level, gain, p.capacity, from);
  }

  lemma NothingBrought(now: real, p: Params)
    ensures RefillOf(p)(now, now) == 0.0
  {
    assert 0.0 * p.refill == 0.0;
  }

  lemma StartsFull<S>(state: S, calls: seq<Call>, last: Call, step: (S, Call) -> (S, real), level: (S, real) -> real,
                      gain: (real, real) -> real, full: real, from: real)
    requires from == (calls + [last])[0].now && gain(from, from) == 0.0 && level(state, from) == full
    requires Accounts(state, calls, last, step, level, gain, level(state, from), from)
      || FullOnce(state, calls, last, step, level, gain, full)
    ensures FullOnce(state, calls, last, step, level, gain, full)
  {
  }

  lemma {:induction false} LaterOrdered(from: real, calls: seq<Call>, i: nat)
    requires Ordered(from, calls) && i < |calls|
    ensures Ordered(calls[i].now, calls[i + 1..])
    decreases i
  {
    if i > 0 {
      LaterOrdered(calls[0].now, calls[1..], i - 1);
      assert calls[1..][i..] == calls[i + 1..];
    }
  }

  lemma SameProduct(a: real, b: real, c: real, product: real)
    requires product == a * c && a == b
    ensures product == b * c
  {
  }

  lemma RestTakes(all: seq<Call>, i: nat, time: real)
    requires i < |all| && Ordered(all[0].now, all) && time == all[|all| - 1].now - all[i].now
    ensures Forward(all[i].now, all[i + 1..]) == time
  {
    LaterOrdered(all[0].now, all, i);
    ForwardIsLength(all[i].now, all[i + 1..]);
  }

  /** What the rest of a run in order brings is the refill over its length. */
  lemma BroughtIsRefill(from: real, rest: seq<Call>, p: Params, time: real)
    requires Forward(from, rest) == time
    ensures Brought(from, rest, RefillOf(p)) == time * p.refill
  {
    BroughtIsForward(from, rest, p);
    SameProduct(Forward(from, rest), time, p.refill, Brought(from, rest, RefillOf(p)));
  }

  /** With readings in order, a call is refused only when from some moment on, at the latest its own, the
      key has been admitted so much that with this call it would pass the capacity and the refill of the
      time since: the bound of every window, exceeded. */
  lemma RefusedOnlyIfUsed(calls: seq<Call>, last: Call, p: Params, cap: nat) returns (i: nat, time: real)
    requires p.capacity >= 0.0 && p.refill >= 0.0 && Ordered((calls + [last])[0].now, calls + [last])
    requires forall k :: 0 <= k < |calls| ==> calls[k].cost >= 0.0
    requires !Acquire(StateAfter(map[], calls, p, cap), last.key, last.cost, p, last.now, cap).1.allowed
    ensures i <= |calls| && time == last.now - (calls + [last])[i].now
    ensures Since(last.key, map[], calls, i, p, cap) + last.cost > p.capacity + time * p.refill
  {
    var brought;
    i, brought := RefusedBelow(calls, last, p, cap, RefillOf(p));
    time := last.now - (calls + [last])[i].now;
    RestTakes(calls + [last], i, time);
    BroughtIsRefill((calls + [last])[i].now, (calls + [last])[i + 1..], p, time);
  }

  lemma RefusedBelow(calls: seq<Call>, last: Call, p: Params, cap: nat, gain: (real, real) -> real)
    returns (i: nat, brought: real)
    requires p.capacity >= 0.0 && p.refill >= 0.0 && Ordered((calls + [last])[0].now, calls + [last])
    requires forall k :: 0 <= k < |calls| ==> calls[k].cost >= 0.0
    requires !Acquire(StateAfter(map[], calls, p, cap), last.key, last.cost, p, last.now, cap).1.allowed
    requires gain == RefillOf(p)
    ensures i <= |calls|
    ensures brought == Brought((calls + [last])[i].now, (calls + [last])[i + 1..], gain)
    ensures Since(last.key, map[], calls, i, p, cap) + last.cost > p.capacity + brought
  {
    i := LevelFrom(last.key, calls, last, p, cap, gain);
    brought := Brought((calls + [last])[i].now, (calls + [last])[i + 1..], gain);
    TokensStayInRange(map[], calls, p, cap);
    AdmittedIffLevel(StateAfter(map[], calls, p, cap), last, p, cap);
  }

  // ---- the tracked keys ----

  /** More keys than the cap are tracked only while the others are in use: after a call that tracks a new one,
      the store is within the cap, or each other bucket is too young to be full again from nothing. */
  lemma OthersAreInUse(buckets: Buckets, c: Call, p: Params, cap: nat)
    requires c.key !in buckets && p.refill > 0.0
    ensures var next := Acquire(buckets, c.key, c.cost, p, c.now, cap).0;
            |next| <= cap || forall k :: k in next && k != c.key ==>
              k in buckets && next[k] == buckets[k] && Elapsed(c.now, next[k].last) < p.capacity / p.refill
  {
    var next := Acquire(buckets, c.key, c.cost, p, c.now, cap).0;
    if |buckets| < cap {
      assert next.Keys == buckets.Keys + {c.key};
      assert |next| == |next.Keys| && |buckets| == |buckets.Keys|;
    }
  }
}
