/** The rate-limit module over the token-bucket store. */
module RateLimit {
  import opened Bits
  import opened Seqs
  import opened TokenBucket
  import opened TokenRefusals
  import opened Waf

  datatype Action = BlockRequests | AddScore

  datatype Config = Config(enabled: bool, requests: u32, windowSeconds: u64, burst: Option<u32>, action: Action,
                           score: u32)

  function BurstOf(cfg: Config): u32 { match cfg.burst case Some(b) => b case None => cfg.requests }

  /** One bucket per client: a burst of tokens, `requests` of them back in every window. */
  function ParamsOf(cfg: Config): Params
  {
    Params(Max(BurstOf(cfg), 1) as real, cfg.requests as real / Max(cfg.windowSeconds, 1) as real)
  }

  /** `as u64` on the way out saturates. */
  function Advice(p: Params, tokens: real): nat { Min(RetryAfter(p, tokens), U64_MAX) }

  /** The decision on an admission or a refusal. */
  function Respond(r: Acquired, cfg: Config): Decision
  {
    if r.allowed then Allow
    else if cfg.action.BlockRequests? then
      Reject("rate-limit", "rate limit exceeded", 429, Some(Advice(ParamsOf(cfg), r.remaining)))
    else Score("rate-limit-exceeded", cfg.score)
  }

  /** One request of `key`, whose clock reading is `now`. */
  function Request(buckets: Buckets, key: Key, now: real, cfg: Config, cap: nat): (Buckets, Decision)
  {
    if !cfg.enabled then (buckets, Allow)
    else
      var (next, r) := Acquire(buckets, key, 1.0, ParamsOf(cfg), now, cap);
      (next, Respond(r, cfg))
  }

  class RateLimitModule {
    var enabled: bool
    var params: Params
    var action: Action
    var score: u32
    const store: InMemoryStateStore

    ghost predicate Configured(cfg: Config)
      reads this
    {
      enabled == cfg.enabled && params == ParamsOf(cfg) && action == cfg.action && score == cfg.score
    }

    constructor (store: InMemoryStateStore)
      ensures this.store == store && !enabled
    {
      this.store := store;
      enabled, params, action, score := false, Params(0.0, 0.0), BlockRequests, 0;
    }

    method Init(cfg: Config)
      modifies this
      ensures Configured(cfg)
    {
      enabled := cfg.enabled;
      var window := Max(cfg.windowSeconds, 1) as real;
      var burst := match cfg.burst case Some(b) => b case None => cfg.requests;
      params := Params(Max(burst, 1) as real, cfg.requests as real / window);
      action := cfg.action;
      score := cfg.score;
    }

    method Inspect(key: Key, now: real, ghost cfg: Config) returns (d: Decision)
      requires Configured(cfg)
      modifies store
      ensures (store.buckets, d) == Request(old(store.buckets), key, now, cfg, store.maxTrackedKeys)
    {
      if !enabled { return Allow; }
      var outcome := store.TryAcquire(key, 1.0, params, now);
      if outcome.allowed { return Allow; }
      match action
      case BlockRequests =>
        var retry := Advice(params, outcome.remaining);
        return Reject("rate-limit", "rate limit exceeded", 429, Some(retry));
      case AddScore =>
        return Score("rate-limit-exceeded", score);
    }
  }

  lemma ConfiguredIsSound(cfg: Config)
    ensures ParamsOf(cfg).capacity >= 1.0 && ParamsOf(cfg).refill >= 0.0
    ensures ParamsOf(cfg).refill > 0.0 <==> cfg.requests > 0
  {
    var n, w := cfg.requests as real, Max(cfg.windowSeconds, 1) as real;
    if cfg.requests > 0 { Quotient(n, w); } else { assert 0.0 / w == 0.0; }
  }

  lemma Quotient(n: real, w: real)
    requires n > 0.0 && w > 0.0
    ensures n / w > 0.0
  {
  }

  /** What the two parameters of a configuration mean: over any span no longer than the configured
      window, anywhere in any run with readings in order, a client is admitted at most the burst and
      the configured requests. */
  lemma ConfiguredRateHolds(cfg: Config, key: Key, before: seq<Call>, span: seq<Call>, length: real, cap: nat)
    requires span != [] && Ordered(span[0].now, span) && length == span[|span| - 1].now - span[0].now
    requires length <= Max(cfg.windowSeconds, 1) as real
    requires forall i :: 0 <= i < |before| ==> before[i].cost >= 0.0
    requires forall i :: 0 <= i < |span| ==> span[i].cost >= 0.0
    ensures Admitted(key, StateAfter(map[], before, ParamsOf(cfg), cap), span, ParamsOf(cfg), cap)
      <= Max(BurstOf(cfg), 1) as real + cfg.requests as real
  {
    var p, burst := ConfiguredIs(cfg, length);
    AdmittedWithin(key, before, span, length, burst, cfg.requests as real, p, cap);
  }

  lemma ConfiguredIs(cfg: Config, length: real) returns (p: Params, burst: real)
    requires length <= Max(cfg.windowSeconds, 1) as real
    ensures p == ParamsOf(cfg) && burst == Max(BurstOf(cfg), 1) as real
    ensures Within(p, burst, length, cfg.requests as real)
  {
    p, burst := ParamsOf(cfg), Max(BurstOf(cfg), 1) as real;
    var w, r := Max(cfg.windowSeconds, 1) as real, p.refill;
    ConfiguredIsSound(cfg);
    MulMono(length, w, r);
    assert w * r == cfg.requests as real;
  }

  /** A bucket of `burst` tokens, refilled with at most `back` of them over `length`. */
  predicate Within(p: Params, burst: real, length: real, back: real)
  {
    p.capacity == burst >= 0.0 && p.refill >= 0.0 && length * p.refill <= back
  }

  lemma AdmittedWithin(key: Key, before: seq<Call>, window: seq<Call>, length: real, burst: real, back: real,
                       p: Params, cap: nat)
    requires Within(p, burst, length, back) && window != [] && Ordered(window[0].now, window)
    requires forall i :: 0 <= i < |before| ==> before[i].cost >= 0.0
    requires forall i :: 0 <= i < |window| ==> window[i].cost >= 0.0
    requires length == window[|window| - 1].now - window[0].now
    ensures Admitted(key, StateAfter(map[], before, p, cap), window, p, cap) <= burst + back
  {
    WindowBoundInOrder(key, before, window, length, p, cap);
  }

  /** The advice never reaches the limit of its 64-bit field. */
  lemma AdviceIsExact(cfg: Config, tokens: real)
    requires 0.0 <= tokens < 1.0
    ensures Advice(ParamsOf(cfg), tokens) == RetryAfter(ParamsOf(cfg), tokens)
  {
    var p := ParamsOf(cfg);
    ConfiguredIsSound(cfg);
    if cfg.requests > 0 {
      var n, w := cfg.requests as real, Max(cfg.windowSeconds, 1) as real;
      LongestWait(tokens, n, w);
      CeilBelow((1.0 - tokens) / p.refill, Max(cfg.windowSeconds, 1));
    }
  }

  lemma LongestWait(tokens: real, n: real, w: real)
    requires 0.0 <= tokens < 1.0 && n >= 1.0 && w >= 1.0
    ensures n / w > 0.0 && (1.0 - tokens) / (n / w) <= w
  {
    Quotient(n, w);
    var r := n / w;
    assert r * w == n;
    QuotientAtMost(1.0 - tokens, r, w);
  }

  lemma QuotientAtMost(a: real, r: real, w: real)
    requires r > 0.0 && a <= r * w
    ensures a / r <= w
  {
    var q := a / r;
    assert q * r == a;
    assert (w - q) * r >= 0.0;
    NonNegativeFactor(w - q, r);
  }

  lemma NonNegativeFactor(x: real, r: real)
    requires r > 0.0 && x * r >= 0.0
    ensures x >= 0.0
  {
  }

  lemma CeilBelow(x: real, n: int)
    requires x <= n as real
    ensures Ceil(x) <= n
  {
  }

  /** A blocked client is told the truth: if it stays away for the advised seconds, then whatever
      other clients do meanwhile its next request is allowed, provided the configuration refills
      at all; and without any refill it is never allowed again. */
  lemma BlockedClientReturns(buckets: Buckets, key: Key, now: real, cfg: Config, cap: nat, others: seq<Call>,
                             later: real)
    requires Sound(buckets, ParamsOf(cfg)) && cfg.enabled
    requires forall i :: 0 <= i < |others| ==> others[i].key != key
    requires var d := Request(buckets, key, now, cfg, cap).1;
      d.Reject? && d.retryAfter.Some? && later - now >= d.retryAfter.value as real
    ensures var next := StateAfter(Request(buckets, key, now, cfg, cap).0, others, ParamsOf(cfg), cap);
            Request(next, key, later, cfg, cap).1 == Allow <==> cfg.requests > 0
  {
    var p := ParamsOf(cfg);
    ConfiguredIsSound(cfg);
    AcquireIsSound(buckets, key, 1.0, p, now, cap);
    var r := Acquire(buckets, key, 1.0, p, now, cap).1;
    AdviceIsExact(cfg, r.remaining);
    WaitingAdmitsIff(buckets, key, p, cap, now, others, later);
  }

  /** What a client is told: nothing when the module is off; otherwise it is let in exactly when a token is
      there, and if not it is rejected with a wait of at least a second, or scored, as configured. */
  lemma RequestAllowsIff(buckets: Buckets, key: Key, now: real, cfg: Config, cap: nat)
    requires Sound(buckets, ParamsOf(cfg))
    ensures var (next, d) := Request(buckets, key, now, cfg, cap);
            if !cfg.enabled then next == buckets && d == Allow
            else
              && (d == Allow <==> Level(key, buckets, ParamsOf(cfg), now) >= 1.0)
              && (d != Allow ==>
                    match cfg.action
                    case BlockRequests =>
                      d.Reject? && d.status == 429 && d.retryAfter.Some? && 1 <= d.retryAfter.value <= U64_MAX
                    case AddScore => d == Score("rate-limit-exceeded", cfg.score))
  {
    AdmittedIffLevel(buckets, Call(key, 1.0, now), ParamsOf(cfg), cap);
  }

  /** The configured rate is also given: with readings in order, a request is refused only when from some
      moment on the client has been let in so often that with this request it would pass the burst, which
      is at least one and by default the number of requests, and the requests of the time since. */
  lemma ConfiguredRateIsGiven(cfg: Config, calls: seq<Call>, last: Call, cap: nat, p: Params, burst: nat, window: nat)
    returns (i: nat, time: real)
    requires burst == Max(match cfg.burst case Some(b) => b case None => cfg.requests, 1)
    requires window == Max(cfg.windowSeconds, 1)
    requires last.cost == 1.0 && Ordered((calls + [last])[0].now, calls + [last])
    requires forall k :: 0 <= k < |calls| ==> calls[k].cost >= 0.0
    requires p == ParamsOf(cfg) && cfg.enabled
    requires Request(StateAfter(map[], calls, p, cap), last.key, last.now, cfg, cap).1 != Allow
    ensures p.capacity == burst as real && p.refill == cfg.requests as real / window as real
    ensures i <= |calls| && time == last.now - (calls + [last])[i].now
    ensures Since(last.key, map[], calls, i, p, cap) + 1.0 > p.capacity + time * p.refill
  {
    ConfiguredIsSound(cfg);
    RefusedMeansRefused(StateAfter(map[], calls, p, cap), last, cfg, p, cap);
    i, time := RefusedOnlyIfUsed(calls, last, p, cap);
  }

  lemma RefusedMeansRefused(buckets: Buckets, last: Call, cfg: Config, p: Params, cap: nat)
    requires p == ParamsOf(cfg) && cfg.enabled && last.cost == 1.0
    requires Request(buckets, last.key, last.now, cfg, cap).1 != Allow
    ensures !Acquire(buckets, last.key, last.cost, p, last.now, cap).1.allowed
  {
  }
}
