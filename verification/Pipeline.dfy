/** The module pipeline: phases in order, score accumulation, threshold and short-circuits. `R` is
    the read-only part of a request, which is all that a module's decision depends on here. */
module Pipeline {
  import opened Bits
  import opened Seqs
  import opened Waf

  datatype Mode = Blocking | DetectionOnly
  datatype FailMode = FailOpen | FailClosed
  datatype SeverityScores = SeverityScores(critical: u32, error: u32, warning: u32, notice: u32)
  datatype Policy = Policy(threshold: u32, mode: Mode, scores: SeverityScores, onError: FailMode)

  /** A module call returns a decision or panics. */
  datatype Outcome = Returned(decision: Decision) | Panicked

  datatype Module<!R> = Module(id: string, phase: Phase, structural: bool, inspect: R -> Outcome)

  datatype Contribution = Contribution(moduleId: string, ruleId: string, severity: Option<Severity>, points: u32)

  datatype Reason = Given(text: string) | ModulePanicked(moduleId: string) | ScoreReached(score: u32, threshold: u32)

  datatype Verdict =
    | Pass
    | Blocked(ruleId: string, reason: Reason)
    | Rejected(ruleId: string, reason: Reason, status: nat, retryAfter: Option<nat>)

  const PHASE_ORDER := [Connection, RequestLine, Headers, Body, Response]
  const INSPECTION_PHASES := [RequestLine, Headers, Body, Response]

  function PointsFor(scores: SeverityScores, severity: Severity): u32
  {
    match severity
    case Critical => scores.critical
    case Error => scores.error
    case Warning => scores.warning
    case Notice => scores.notice
  }

  // ---- what one decision does ----

  /** The mutable part of a request. */
  datatype Tally = Tally(score: u32, contributions: seq<Contribution>)

  /** `score += points` on a 32-bit counter, and the audit record. */
  function Accumulated(t: Tally, c: Contribution): Tally
  {
    Tally((t.score + c.points) % U32_MOD, t.contributions + [c])
  }

  function AccumulatedAll(t: Tally, cs: seq<Contribution>): Tally
    decreases |cs|
  {
    if cs == [] then t else AccumulatedAll(Accumulated(t, cs[0]), cs[1..])
  }

  function FromItems(id: string, items: seq<ScoreItem>, scores: SeverityScores): (r: seq<Contribution>)
    ensures |r| == |items|
  {
    seq(|items|, i requires 0 <= i < |items| =>
      Contribution(id, items[i].ruleId, Some(items[i].severity), PointsFor(scores, items[i].severity)))
  }

  /** What a module adds to the score. */
  function Contributions(id: string, o: Outcome, scores: SeverityScores): seq<Contribution>
  {
    match o
    case Returned(Score(ruleId, points)) => [Contribution(id, ruleId, None, points)]
    case Returned(Scores(items)) => FromItems(id, items, scores)
    case _ => []
  }

  predicate Scoring(o: Outcome) { o.Returned? && (o.decision.Score? || o.decision.Scores?) }

  function LastRule(o: Outcome): string
  {
    match o
    case Returned(Score(ruleId, _)) => ruleId
    case Returned(Scores(items)) => if items == [] then "" else items[|items| - 1].ruleId
    case _ => ""
  }

  /** The verdict a module asks for by itself, whatever the score. */
  function Direct(id: string, o: Outcome, onError: FailMode): Option<Verdict>
  {
    match o
    case Returned(Block(ruleId, reason)) => Some(Blocked(ruleId, Given(reason)))
    case Returned(Reject(ruleId, reason, status, retryAfter)) =>
      Some(Rejected(ruleId, Given(reason), status, retryAfter))
    case Panicked => if onError.FailClosed? then Some(Blocked("internal-error", ModulePanicked(id))) else None
    case _ => None
  }

  function ThresholdVerdict(score: u32, ruleId: string, p: Policy): Option<Verdict>
  {
    if score >= p.threshold && p.mode.Blocking? then Some(Blocked(ruleId, ScoreReached(score, p.threshold))) else None
  }

  /** The tally after a module, and the verdict that ends the run there, if any. */
  function Step<R>(t: Tally, m: Module<R>, request: R, p: Policy): (Tally, Option<Verdict>)
  {
    var o := m.inspect(request);
    var next := AccumulatedAll(t, Contributions(m.id, o, p.scores));
    (next,
     if Scoring(o) then ThresholdVerdict(next.score, LastRule(o), p)
     else if p.mode.Blocking? then Direct(m.id, o, p.onError)
     else None)
  }

  function RunAll<R>(t: Tally, ms: seq<Module<R>>, request: R, p: Policy): (Tally, Option<Verdict>)
    decreases |ms|
  {
    if ms == [] then (t, None)
    else
      var (next, stop) := Step(t, ms[0], request, p);
      if stop.Some? then (next, stop) else RunAll(next, ms[1..], request, p)
  }

  function InPhase<R>(ms: seq<Module<R>>, phase: Phase, structuralOnly: bool): seq<Module<R>>
  {
    if ms == [] then []
    else if ms[0].phase == phase && (!structuralOnly || ms[0].structural) then
      [ms[0]] + InPhase(ms[1..], phase, structuralOnly)
    else InPhase(ms[1..], phase, structuralOnly)
  }

  /** The modules in the order they run. */
  function Schedule<R>(ms: seq<Module<R>>, phases: seq<Phase>, structuralOnly: bool): seq<Module<R>>
    decreases |phases|
  {
    if phases == [] then [] else InPhase(ms, phases[0], structuralOnly) + Schedule(ms, phases[1..], structuralOnly)
  }

  function VerdictOf(stop: Option<Verdict>): Verdict { match stop case None => Pass case Some(v) => v }

  function RunPhases<R>(t: Tally, ms: seq<Module<R>>, phases: seq<Phase>, structuralOnly: bool,
                        request: R, p: Policy): (Tally, Verdict)
  {
    var (end, stop) := RunAll(t, Schedule(ms, phases, structuralOnly), request, p);
    (end, VerdictOf(stop))
  }

  // ---- the executor ----

  class Context {
    var score: u32
    var contributions: seq<Contribution>

    constructor ()
      ensures score == 0 && contributions == []
    {
      score, contributions := 0, [];
    }

    ghost function View(): Tally
      reads this
    {
      Tally(score, contributions)
    }
  }

  class Executor<!R> {
    const modules: seq<Module<R>>
    const policy: Policy

    constructor (modules: seq<Module<R>>, policy: Policy)
      ensures this.modules == modules && this.policy == policy
    {
      this.modules, this.policy := modules, policy;
    }

    method Accumulate(ctx: Context, c: Contribution)
      modifies ctx
      ensures ctx.View() == Accumulated(old(ctx.View()), c)
    {
      ctx.score := (ctx.score + c.points) % U32_MOD;
      ctx.contributions := ctx.contributions + [c];
    }

    method ThresholdCheck(ctx: Context, ruleId: string) returns (r: Option<Verdict>)
      ensures r == ThresholdVerdict(ctx.score, ruleId, policy)
    {
      if ctx.score < policy.threshold { return None; }
      if policy.mode.Blocking? { return Some(Blocked(ruleId, ScoreReached(ctx.score, policy.threshold))); }
      return None;
    }

    method AccumulateItems(ctx: Context, id: string, items: seq<ScoreItem>) returns (lastRuleId: string)
      modifies ctx
      ensures ctx.View() == AccumulatedAll(old(ctx.View()), FromItems(id, items, policy.scores))
      ensures lastRuleId == if items == [] then "" else items[|items| - 1].ruleId
    {
      lastRuleId := "";
      ghost var all := FromItems(id, items, policy.scores);
      for i := 0 to |items|
        invariant lastRuleId == if i == 0 then "" else items[i - 1].ruleId
        invariant AccumulatedAll(ctx.View(), all[i..]) == AccumulatedAll(old(ctx.View()), all)
      {
        assert all[i..][1..] == all[i + 1..];
        var points := PointsFor(policy.scores, items[i].severity);
        Accumulate(ctx, Contribution(id, items[i].ruleId, Some(items[i].severity), points));
        lastRuleId := items[i].ruleId;
      }
      assert all[|items|..] == [];
    }

    /** One module: its call under panic isolation, and its decision applied to the context. */
    method RunModule(ctx: Context, m: Module<R>, request: R) returns (stop: Option<Verdict>)
      modifies ctx
      ensures (ctx.View(), stop) == Step(old(ctx.View()), m, request, policy)
    {
      stop := None;
      var outcome := m.inspect(request);
      match outcome
      case Panicked =>
        if policy.onError.FailClosed? && policy.mode.Blocking? {
          stop := Some(Blocked("internal-error", ModulePanicked(m.id)));
        }
      case Returned(decision) =>
        stop := ApplyDecision(ctx, m.id, decision);
    }

    method ApplyDecision(ctx: Context, id: string, decision: Decision) returns (stop: Option<Verdict>)
      modifies ctx
      ensures ctx.View() == AccumulatedAll(old(ctx.View()), Contributions(id, Returned(decision), policy.scores))
      ensures stop ==
        if Scoring(Returned(decision)) then ThresholdVerdict(ctx.score, LastRule(Returned(decision)), policy)
        else if policy.mode.Blocking? then Direct(id, Returned(decision), policy.onError)
        else None
    {
      stop := None;
      match decision
      case Allow =>
      case Monitor(_) =>
      case Score(ruleId, points) =>
        Accumulate(ctx, Contribution(id, ruleId, None, points));
        stop := ThresholdCheck(ctx, ruleId);
      case Scores(items) =>
        var lastRuleId := AccumulateItems(ctx, id, items);
        stop := ThresholdCheck(ctx, lastRuleId);
      case Block(ruleId, reason) =>
        if policy.mode.Blocking? { stop := Some(Blocked(ruleId, Given(reason))); }
      case Reject(ruleId, reason, status, retryAfter) =>
        if policy.mode.Blocking? { stop := Some(Rejected(ruleId, Given(reason), status, retryAfter)); }
    }

    method RunPhasesFiltered(ctx: Context, request: R, phases: seq<Phase>, structuralOnly: bool) returns (v: Verdict)
      modifies ctx
      ensures (ctx.View(), v) == RunPhases(old(ctx.View()), modules, phases, structuralOnly, request, policy)
    {
      var stop: Option<Verdict> := None;
      for i := 0 to |phases|
        invariant stop == None
        invariant RunAll(ctx.View(), Schedule(modules, phases[i..], structuralOnly), request, policy)
          == RunAll(old(ctx.View()), Schedule(modules, phases, structuralOnly), request, policy)
      {
        assert phases[i..][1..] == phases[i + 1..];
        ghost var rest := Schedule(modules, phases[i + 1..], structuralOnly);
        RunAllConcat(ctx.View(), InPhase(modules, phases[i], structuralOnly), rest, request, policy);
        stop := RunPhase(ctx, request, phases[i], structuralOnly);
        if stop.Some? { break; }
      }
      v := match stop case Some(verdict) => verdict case None => Pass;
    }

    method RunPhase(ctx: Context, request: R, phase: Phase, structuralOnly: bool) returns (stop: Option<Verdict>)
      modifies ctx
      ensures (ctx.View(), stop) == RunAll(old(ctx.View()), InPhase(modules, phase, structuralOnly), request, policy)
    {
      stop := None;
      for j := 0 to |modules|
        invariant stop == None
        invariant RunAll(ctx.View(), InPhase(modules[j..], phase, structuralOnly), request, policy)
          == RunAll(old(ctx.View()), InPhase(modules, phase, structuralOnly), request, policy)
      {
        var m := modules[j];
        InPhaseStep(modules, j, phase, structuralOnly);
        if m.phase == phase && (!structuralOnly || m.structural) {
          RunAllStep(ctx.View(), m, InPhase(modules[j + 1..], phase, structuralOnly), request, policy);
          stop := RunModule(ctx, m, request);
          if stop.Some? { return; }
        }
      }
    }

    method Run(ctx: Context, request: R) returns (v: Verdict)
      modifies ctx
      ensures (ctx.View(), v) == RunPhases(old(ctx.View()), modules, PHASE_ORDER, false, request, policy)
    {
      v := RunPhasesFiltered(ctx, request, PHASE_ORDER, false);
    }

    method RunConnection(ctx: Context, request: R) returns (v: Verdict)
      modifies ctx
      ensures (ctx.View(), v) == RunPhases(old(ctx.View()), modules, [Connection], false, request, policy)
    {
      v := RunPhasesFiltered(ctx, request, [Connection], false);
    }

    method RunInspection(ctx: Context, request: R) returns (v: Verdict)
      modifies ctx
      ensures (ctx.View(), v) == RunPhases(old(ctx.View()), modules, INSPECTION_PHASES, false, request, policy)
    {
      v := RunPhasesFiltered(ctx, request, INSPECTION_PHASES, false);
    }

    method RunInspectionGated(ctx: Context, request: R, inspect: bool) returns (v: Verdict)
      modifies ctx
      ensures (ctx.View(), v) == RunPhases(old(ctx.View()), modules, INSPECTION_PHASES, !inspect, request, policy)
    {
      if inspect {
        v := RunInspection(ctx, request);
      } else {
        v := RunPhasesFiltered(ctx, request, INSPECTION_PHASES, true);
      }
    }
  }

  lemma InPhaseStep<R>(ms: seq<Module<R>>, j: nat, phase: Phase, structuralOnly: bool)
    requires j < |ms|
    ensures InPhase(ms[j..], phase, structuralOnly) ==
      if ms[j].phase == phase && (!structuralOnly || ms[j].structural) then
        [ms[j]] + InPhase(ms[j + 1..], phase, structuralOnly)
      else InPhase(ms[j + 1..], phase, structuralOnly)
  {
    assert ms[j..][1..] == ms[j + 1..];
  }

  lemma RunAllStep<R>(t: Tally, m: Module<R>, rest: seq<Module<R>>, request: R, p: Policy)
    ensures RunAll(t, [m] + rest, request, p) ==
      var (next, stop) := Step(t, m, request, p); if stop.Some? then (next, stop) else RunAll(next, rest, request, p)
  {
    assert ([m] + rest)[1..] == rest;
  }

  // ---- runs one after the other ----

  lemma {:induction false} RunAllConcat<R>(t: Tally, a: seq<Module<R>>, b: seq<Module<R>>, request: R, p: Policy)
    ensures RunAll(t, a + b, request, p) ==
      var (mid, stop) := RunAll(t, a, request, p); if stop.Some? then (mid, stop) else RunAll(mid, b, request, p)
    decreases |a|
  {
    if a == [] {
      assert a + b == b;
    } else {
      assert (a + b)[1..] == a[1..] + b;
      var (next, stop) := Step(t, a[0], request, p);
      if stop.None? { RunAllConcat(next, a[1..], b, request, p); }
    }
  }

  /** The whole pipeline is the connection phase followed, unless that one denies, by inspection. */
  lemma RunIsConnectionThenInspection<R>(t: Tally, ms: seq<Module<R>>, request: R, p: Policy)
    ensures RunPhases(t, ms, PHASE_ORDER, false, request, p) ==
      var (mid, v) := RunPhases(t, ms, [Connection], false, request, p);
      if v != Pass then (mid, v) else RunPhases(mid, ms, INSPECTION_PHASES, false, request, p)
  {
    var first, rest := InPhase(ms, Connection, false), Schedule(ms, INSPECTION_PHASES, false);
    assert PHASE_ORDER[1..] == INSPECTION_PHASES;
    assert Schedule(ms, [Connection], false) == first + [] == first;
    RunAllConcat(t, first, rest, request, p);
    StopsDeny(t, first, request, p);
  }

  lemma {:induction false} StopsDeny<R>(t: Tally, ms: seq<Module<R>>, request: R, p: Policy)
    ensures RunAll(t, ms, request, p).1 != Some(Pass)
    decreases |ms|
  {
    if ms != [] { StopsDeny(Step(t, ms[0], request, p).0, ms[1..], request, p); }
  }

  // ---- the score ----

  function Points(cs: seq<Contribution>): nat
  {
    if cs == [] then 0 else cs[0].points + Points(cs[1..])
  }

  lemma {:induction false} PointsConcat(a: seq<Contribution>, b: seq<Contribution>)
    ensures Points(a + b) == Points(a) + Points(b)
    decreases |a|
  {
    if a == [] {
      assert a + b == b;
    } else {
      PointsConcat(a[1..], b);
      assert (a + b)[1..] == a[1..] + b;
    }
  }

  lemma {:induction false} AccumulatedIs(t: Tally, cs: seq<Contribution>)
    ensures AccumulatedAll(t, cs) == Tally((t.score + Points(cs)) % U32_MOD, t.contributions + cs)
    decreases |cs|
  {
    if cs == [] {
      assert t.contributions + [] == t.contributions;
    } else {
      AccumulatedIs(Accumulated(t, cs[0]), cs[1..]);
      WrapTwice(t.score + cs[0].points, Points(cs[1..]));
      assert t.contributions + [cs[0]] + cs[1..] == t.contributions + cs;
    }
  }

  lemma WrapTwice(a: nat, b: nat)
    ensures (a % U32_MOD + b) % U32_MOD == (a + b) % U32_MOD
  {
  }

  function ContributionsOf<R>(m: Module<R>, request: R, p: Policy): seq<Contribution>
  {
    Contributions(m.id, m.inspect(request), p.scores)
  }

  /** What all modules would contribute, in order. */
  function AllContributions<R>(ms: seq<Module<R>>, request: R, p: Policy): seq<Contribution>
    decreases |ms|
  {
    if ms == [] then [] else ContributionsOf(ms[0], request, p) + AllContributions(ms[1..], request, p)
  }

  /** Whatever ends the run, the contributions recorded are a prefix of what the modules would
      contribute, and the score moved by exactly their points, in 32 bits. */
  lemma {:induction false} ScoreIsSum<R>(t: Tally, ms: seq<Module<R>>, request: R, p: Policy)
    returns (made: seq<Contribution>)
    ensures made <= AllContributions(ms, request, p)
    ensures RunAll(t, ms, request, p).0 == Tally((t.score + Points(made)) % U32_MOD, t.contributions + made)
    ensures RunAll(t, ms, request, p).1.None? ==> made == AllContributions(ms, request, p)
    decreases |ms|
  {
    if ms == [] {
      made := [];
      AccumulatedIs(t, []);
    } else {
      var here := ContributionsOf(ms[0], request, p);
      var (next, stop) := Step(t, ms[0], request, p);
      AccumulatedIs(t, here);
      if stop.Some? {
        made := here;
      } else {
        var later := ScoreIsSum(next, ms[1..], request, p);
        made := here + later;
        PointsConcat(here, later);
        WrapTwice(t.score + Points(here), Points(later));
        Assoc(t.contributions, here, later);
      }
    }
  }

  /** Detection-only never denies and runs every module; a blocking run records a prefix of what it
      records. */
  lemma DetectionOnlyRecordsAll<R>(t: Tally, ms: seq<Module<R>>, request: R, p: Policy, d: Policy)
    requires d.mode.DetectionOnly? && d.scores == p.scores
    ensures RunAll(t, ms, request, d).1 == None
    ensures RunAll(t, ms, request, d).0.contributions == t.contributions + AllContributions(ms, request, p)
    ensures RunAll(t, ms, request, p).0.contributions <= RunAll(t, ms, request, d).0.contributions
  {
    DetectionNeverStops(t, ms, request, d);
    SameContributions(ms, request, p, d);
    var all := ScoreIsSum(t, ms, request, d);
    var made := ScoreIsSum(t, ms, request, p);
  }

  lemma {:induction false} DetectionNeverStops<R>(t: Tally, ms: seq<Module<R>>, request: R, d: Policy)
    requires d.mode.DetectionOnly?
    ensures RunAll(t, ms, request, d).1 == None
    decreases |ms|
  {
    if ms != [] { DetectionNeverStops(Step(t, ms[0], request, d).0, ms[1..], request, d); }
  }

  lemma {:induction false} SameContributions<R>(ms: seq<Module<R>>, request: R, p: Policy, d: Policy)
    requires d.scores == p.scores
    ensures AllContributions(ms, request, d) == AllContributions(ms, request, p)
    decreases |ms|
  {
    if ms != [] { SameContributions(ms[1..], request, p, d); }
  }

  // ---- the threshold ----

  /** The same pipeline with a threshold that only the largest score reaches. */
  function AtMost(p: Policy): Policy { p.(threshold := U32_MAX) }

  /** The highest score the run stands at, before the first module and after each one that runs. */
  function Peak<R>(t: Tally, ms: seq<Module<R>>, request: R, p: Policy): nat
    decreases |ms|
  {
    if ms == [] then t.score
    else
      var (next, stop) := Step(t, ms[0], request, p);
      Max(t.score, if stop.Some? then next.score else Peak(next, ms[1..], request, p))
  }

  /** What replay can tell, overflow or not: a blocking run that starts below its threshold denies
      exactly when the run at the largest threshold denies or ever stands at the threshold or above. */
  lemma {:induction false} DeniesIffPeakReached<R>(t: Tally, ms: seq<Module<R>>, request: R, p: Policy)
    requires p.mode.Blocking? && t.score < p.threshold
    ensures RunAll(t, ms, request, p).1.Some?
      <==> RunAll(t, ms, request, AtMost(p)).1.Some? || Peak(t, ms, request, AtMost(p)) >= p.threshold
    decreases |ms|
  {
    if ms != [] {
      var (next, stop) := Step(t, ms[0], request, AtMost(p));
      SameStep(t, ms[0], request, p);
      SilentKeepsScore(t, ms[0], request, p);
      if stop.None? {
        PeakFromStart(next, ms[1..], request, AtMost(p));
        if next.score < p.threshold { DeniesIffPeakReached(next, ms[1..], request, p); }
      }
    }
  }

  lemma PeakFromStart<R>(t: Tally, ms: seq<Module<R>>, request: R, p: Policy)
    ensures Peak(t, ms, request, p) >= t.score
  {
  }

  /** Validation by replay compares the final score. That is right exactly when the run at the
      largest threshold denies, or its peak and its final score lie on one side of the threshold. */
  lemma ReplayIsRightIff<R>(t: Tally, ms: seq<Module<R>>, request: R, p: Policy)
    requires p.mode.Blocking? && t.score < p.threshold
    ensures var most, peak := RunAll(t, ms, request, AtMost(p)), Peak(t, ms, request, AtMost(p));
            (RunAll(t, ms, request, p).1.Some? <==> most.1.Some? || most.0.score >= p.threshold)
            <==> (most.1.Some? || (peak >= p.threshold <==> most.0.score >= p.threshold))
  {
    DeniesIffPeakReached(t, ms, request, p);
  }

  /** Without overflow it is always right. */
  lemma DeniesIffScoreReached<R>(t: Tally, ms: seq<Module<R>>, request: R, p: Policy)
    requires p.mode.Blocking? && t.score < p.threshold
    requires t.score + Points(AllContributions(ms, request, p)) <= U32_MAX
    ensures var most := RunAll(t, ms, request, AtMost(p));
            RunAll(t, ms, request, p).1.Some? <==> most.1.Some? || most.0.score >= p.threshold
  {
    SameContributions(ms, request, p, AtMost(p));
    PeakIsFinal(t, ms, request, AtMost(p));
    ReplayIsRightIff(t, ms, request, p);
  }

  lemma {:induction false} PeakIsFinal<R>(t: Tally, ms: seq<Module<R>>, request: R, p: Policy)
    requires t.score + Points(AllContributions(ms, request, p)) <= U32_MAX
    ensures Peak(t, ms, request, p) == RunAll(t, ms, request, p).0.score
    decreases |ms|
  {
    if ms != [] {
      var (next, stop) := Step(t, ms[0], request, p);
      PointsConcat(ContributionsOf(ms[0], request, p), AllContributions(ms[1..], request, p));
      StepAdds(t, ms[0], request, p);
      if stop.None? {
        PeakIsFinal(next, ms[1..], request, p);
        ScoreOnlyRises(next, ms[1..], request, p);
      }
    }
  }

  lemma StepAdds<R>(t: Tally, m: Module<R>, request: R, p: Policy)
    requires t.score + Points(ContributionsOf(m, request, p)) <= U32_MAX
    ensures Step(t, m, request, p).0.score == t.score + Points(ContributionsOf(m, request, p))
  {
    AccumulatedIs(t, ContributionsOf(m, request, p));
  }

  /** A denial by score tells the truth: it names the score the run ended at, which is at the
      threshold or above, and the last rule recorded. A blocking run that passes never stood there. */
  lemma {:induction false} ScoreReachedIsTrue<R>(t: Tally, ms: seq<Module<R>>, request: R, p: Policy)
    requires t.score < p.threshold
    ensures var (end, stop) := RunAll(t, ms, request, p);
            && (stop.Some? && stop.value.Blocked? && stop.value.reason.ScoreReached? ==>
                  && p.mode.Blocking? && end.score >= p.threshold && |end.contributions| > |t.contributions|
                  && stop.value.reason == ScoreReached(end.score, p.threshold)
                  && stop.value.ruleId == end.contributions[|end.contributions| - 1].ruleId)
            && (p.mode.Blocking? && stop.None? ==> Peak(t, ms, request, p) < p.threshold)
    decreases |ms|
  {
    if p.mode.DetectionOnly? {
      DetectionNeverStops(t, ms, request, p);
    } else if ms != [] {
      var (next, stop) := Step(t, ms[0], request, p);
      AccumulatedIs(t, ContributionsOf(ms[0], request, p));
      SilentKeepsScore(t, ms[0], request, p);
      if stop.None? { ScoreReachedIsTrue(next, ms[1..], request, p); }
    }
  }

  lemma SameStep<R>(t: Tally, m: Module<R>, request: R, p: Policy)
    requires p.mode.Blocking?
    ensures var (next, stop) := Step(t, m, request, p);
            var (most, mstop) := Step(t, m, request, AtMost(p));
            && next == most
            && (mstop.Some? ==> stop.Some?)
            && (stop.Some? && mstop.None? ==> next.score >= p.threshold && Scoring(m.inspect(request)))
            && (Scoring(m.inspect(request)) && next.score >= p.threshold ==> stop.Some?)
  {
  }

  lemma SilentKeepsScore<R>(t: Tally, m: Module<R>, request: R, p: Policy)
    ensures !Scoring(m.inspect(request)) ==> Step(t, m, request, p).0 == t
  {
  }

  lemma ScoreOnlyRises<R>(t: Tally, ms: seq<Module<R>>, request: R, p: Policy)
    requires t.score + Points(AllContributions(ms, request, p)) <= U32_MAX
    ensures RunAll(t, ms, request, p).0.score >= t.score
  {
    var made := ScoreIsSum(t, ms, request, p);
    var all := AllContributions(ms, request, p);
    assert all == made + all[|made|..];
    PointsConcat(made, all[|made|..]);
  }

  /** With overflow it fails: two modules of 2^31 points each cross a threshold of one, yet at the
      largest threshold the run ends with a score of zero. */
  lemma OverflowHidesScore()
    ensures var m := Module("m", Body, false, (r: int) => Returned(Score("rule", 0x8000_0000)));
            var p := Policy(1, Blocking, SeverityScores(0, 0, 0, 0), FailOpen);
            && RunAll(Tally(0, []), [m, m], 0, p).1.Some?
            && RunAll(Tally(0, []), [m, m], 0, AtMost(p)).1.None?
            && RunAll(Tally(0, []), [m, m], 0, AtMost(p)).0.score == 0
  {
    var m := Module("m", Body, false, (r: int) => Returned(Score("rule", 0x8000_0000)));
    var p := Policy(1, Blocking, SeverityScores(0, 0, 0, 0), FailOpen);
    var half := Tally(0x8000_0000, [Contribution("m", "rule", None, 0x8000_0000)]);
    assert Step(Tally(0, []), m, 0, p).0 == half && Step(Tally(0, []), m, 0, AtMost(p)) == (half, None);
    var full := half.contributions + [Contribution("m", "rule", None, 0x8000_0000)];
    assert AccumulatedAll(half, Contributions("m", m.inspect(0), p.scores)) == Tally(0, full);
    assert Step(half, m, 0, AtMost(p)) == (Tally(0, full), None);
    assert [m] + [m] == [m, m] && [m] + [] == [m];
    RunAllStep(Tally(0, []), m, [m], 0, AtMost(p));
    RunAllStep(half, m, [], 0, AtMost(p));
  }

  // ---- modules without effect ----

  /** A module that neither scores nor denies: it allows, only monitors, or panics open. */
  predicate Silent<R>(m: Module<R>, request: R, p: Policy)
  {
    var o := m.inspect(request);
    (o.Returned? && (o.decision.Allow? || o.decision.Monitor?)) || (o.Panicked? && p.onError.FailOpen?)
  }

  /** The schedule without the silent modules that `keep` does not name. */
  function Without<R>(ms: seq<Module<R>>, keep: Module<R> -> bool): seq<Module<R>>
  {
    if ms == [] then []
    else if keep(ms[0]) then [ms[0]] + Without(ms[1..], keep) else Without(ms[1..], keep)
  }

  lemma {:induction false} SilentDropOut<R>(t: Tally, ms: seq<Module<R>>, keep: Module<R> -> bool, request: R,
                                            p: Policy)
    requires forall i :: 0 <= i < |ms| ==> keep(ms[i]) || Silent(ms[i], request, p)
    ensures RunAll(t, Without(ms, keep), request, p) == RunAll(t, ms, request, p)
    decreases |ms|
  {
    if ms != [] {
      var (next, stop) := Step(t, ms[0], request, p);
      if keep(ms[0]) {
        RunAllStep(t, ms[0], Without(ms[1..], keep), request, p);
        if stop.None? { SilentDropOut(next, ms[1..], keep, request, p); }
      } else {
        SilentStep(t, ms[0], request, p);
        SilentDropOut(t, ms[1..], keep, request, p);
      }
    }
  }

  lemma SilentStep<R>(t: Tally, m: Module<R>, request: R, p: Policy)
    requires Silent(m, request, p)
    ensures Step(t, m, request, p) == (t, None)
  {
  }

  function Structural<R>(): Module<R> -> bool { (m: Module<R>) => m.structural }

  lemma {:induction false} StructuralInPhase<R>(ms: seq<Module<R>>, phase: Phase)
    ensures InPhase(ms, phase, true) == Without(InPhase(ms, phase, false), Structural())
    decreases |ms|
  {
    if ms != [] {
      StructuralInPhase(ms[1..], phase);
      if ms[0].phase == phase { WithoutFirst(ms[0], InPhase(ms[1..], phase, false), Structural()); }
    }
  }

  lemma WithoutFirst<R>(m: Module<R>, rest: seq<Module<R>>, keep: Module<R> -> bool)
    ensures Without([m] + rest, keep) == (if keep(m) then [m] else []) + Without(rest, keep)
  {
    assert ([m] + rest)[1..] == rest;
    assert [] + Without(rest, keep) == Without(rest, keep);
  }

  lemma {:induction false} WithoutConcat<R>(a: seq<Module<R>>, b: seq<Module<R>>, keep: Module<R> -> bool)
    ensures Without(a + b, keep) == Without(a, keep) + Without(b, keep)
    decreases |a|
  {
    if a == [] {
      assert a + b == b;
    } else {
      WithoutConcat(a[1..], b, keep);
      assert (a + b)[1..] == a[1..] + b;
      Assoc([a[0]], Without(a[1..], keep), Without(b, keep));
    }
  }

  lemma {:induction false} StructuralSchedule<R>(ms: seq<Module<R>>, phases: seq<Phase>)
    ensures Schedule(ms, phases, true) == Without(Schedule(ms, phases, false), Structural())
    decreases |phases|
  {
    if phases != [] {
      StructuralInPhase(ms, phases[0]);
      StructuralSchedule(ms, phases[1..]);
      WithoutConcat(InPhase(ms, phases[0], false), Schedule(ms, phases[1..], false), Structural());
    }
  }

  /** Skipping content inspection changes nothing, neither verdict nor score nor contributions,
      when every content module would have been silent. */
  lemma SkippingSilentContent<R>(t: Tally, ms: seq<Module<R>>, phases: seq<Phase>, request: R, p: Policy)
    requires forall m :: m in Schedule(ms, phases, false) && !m.structural ==> Silent(m, request, p)
    ensures RunPhases(t, ms, phases, true, request, p) == RunPhases(t, ms, phases, false, request, p)
  {
    StructuralSchedule(ms, phases);
    SilentDropOut(t, Schedule(ms, phases, false), Structural(), request, p);
  }
}
