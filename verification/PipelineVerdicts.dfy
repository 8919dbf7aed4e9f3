/** What a run of the pipeline decides, in terms of what its modules return. */
module PipelineVerdicts {
  import opened Bits
  import opened Seqs
  import opened Waf
  import opened Pipeline

  // ---- passing ----

  /** A blocking run passes exactly when no module blocks, rejects, or panics where that fails closed,
      and the score never reaches the threshold. */
  lemma {:induction false} PassesIff<R>(t: Tally, ms: seq<Module<R>>, request: R, p: Policy)
    requires p.mode.Blocking? && t.score < p.threshold
    ensures RunAll(t, ms, request, p).1.None? <==>
      && (forall i :: 0 <= i < |ms| ==>
            match ms[i].inspect(request)
            case Panicked => p.onError.FailOpen?
            case Returned(d) => !d.Block? && !d.Reject?)
      && Peak(t, ms, request, AtMost(p)) < p.threshold
    decreases |ms|
  {
    if ms != [] {
      var (next, stop) := Step(t, ms[0], request, p);
      StepStopsIff(t, ms[0], request, p);
      StepStopsIff(t, ms[0], request, AtMost(p));
      assert forall i :: 1 <= i < |ms| ==> ms[i] == ms[1..][i - 1];
      PeakFromStart(next, ms[1..], request, AtMost(p));
      if stop.None? { PassesIff(next, ms[1..], request, p); }
    }
  }

  predicate Denies(o: Outcome, onError: FailMode)
  {
    match o
    case Panicked => onError.FailClosed?
    case Returned(d) => d.Block? || d.Reject?
  }

  lemma StepStopsIff<R>(t: Tally, m: Module<R>, request: R, p: Policy)
    requires p.mode.Blocking? && t.score < p.threshold
    ensures Step(t, m, request, p).1.None?
      <==> !Denies(m.inspect(request), p.onError) && Step(t, m, request, p).0.score < p.threshold
  {
    SilentKeepsScore(t, m, request, p);
  }

  // ---- which verdict it is ----

  /** The first module to end a run without a score decides what the run answers: its own rule and reason,
      with the status and the advice of a rejection, or the name of the module that panicked. Anything
      else leaves the run to the modules after it, and so does everything when nothing is blocked. */
  lemma FirstDenialAnswers<R>(t: Tally, before: seq<Module<R>>, m: Module<R>, after: seq<Module<R>>, request: R,
                              p: Policy)
    requires RunAll(t, before, request, p).1.None?
    ensures var mid := RunAll(t, before, request, p).0;
            var run, rest := RunAll(t, before + ([m] + after), request, p), RunAll(mid, after, request, p);
            match m.inspect(request)
            case Returned(Block(ruleId, reason)) =>
              run == if p.mode.Blocking? then (mid, Some(Blocked(ruleId, Given(reason)))) else rest
            case Returned(Reject(ruleId, reason, status, retryAfter)) =>
              run == if p.mode.Blocking? then (mid, Some(Rejected(ruleId, Given(reason), status, retryAfter))) else rest
            case Panicked =>
              run == if p.mode.Blocking? && p.onError.FailClosed? then
                       (mid, Some(Blocked("internal-error", ModulePanicked(m.id))))
                     else rest
            case Returned(Allow) => run == rest
            case Returned(Monitor(_)) => run == rest
            case Returned(Score(_, _)) => true
            case Returned(Scores(_)) => true
  {
    RunAllConcat(t, before, [m] + after, request, p);
    RunAllStep(RunAll(t, before, request, p).0, m, after, request, p);
  }

  /** A single score is added in 32 bits and recorded, and ends a blocking run when the sum is at the
      threshold or above. */
  lemma ScoreAnswers<R>(t: Tally, before: seq<Module<R>>, m: Module<R>, after: seq<Module<R>>, request: R, p: Policy,
                        ruleId: string, points: u32)
    requires RunAll(t, before, request, p).1.None? && m.inspect(request) == Returned(Score(ruleId, points))
    ensures var mid := RunAll(t, before, request, p).0;
            var next := Tally((mid.score + points) % 0x1_0000_0000,
                              mid.contributions + [Contribution(m.id, ruleId, None, points)]);
            RunAll(t, before + ([m] + after), request, p) ==
              if p.mode.Blocking? && next.score >= p.threshold then
                (next, Some(Blocked(ruleId, ScoreReached(next.score, p.threshold))))
              else RunAll(next, after, request, p)
  {
    var mid, one := RunAll(t, before, request, p).0, [Contribution(m.id, ruleId, None, points)];
    RunAllConcat(t, before, [m] + after, request, p);
    RunAllStep(mid, m, after, request, p);
    AccumulatedIs(mid, one);
    assert Points(one) == points + Points(one[1..]) == points;
  }

  /** So are the items of a list, each with the points of its severity; the rule named is the last. */
  lemma ScoresAnswer<R>(t: Tally, before: seq<Module<R>>, m: Module<R>, after: seq<Module<R>>, request: R, p: Policy,
                        items: seq<ScoreItem>) returns (made: seq<Contribution>)
    requires RunAll(t, before, request, p).1.None? && m.inspect(request) == Returned(Scores(items))
    ensures |made| == |items| && forall i :: 0 <= i < |items| ==>
              made[i].moduleId == m.id && made[i].ruleId == items[i].ruleId
              && made[i].severity == Some(items[i].severity)
              && made[i].points == match items[i].severity
                                   case Critical => p.scores.critical
                                   case Error => p.scores.error
                                   case Warning => p.scores.warning
                                   case Notice => p.scores.notice
    ensures var mid := RunAll(t, before, request, p).0;
            var next := Tally((mid.score + Points(made)) % 0x1_0000_0000, mid.contributions + made);
            RunAll(t, before + ([m] + after), request, p) ==
              if p.mode.Blocking? && next.score >= p.threshold then
                (next, Some(Blocked(if items == [] then "" else items[|items| - 1].ruleId,
                                    ScoreReached(next.score, p.threshold))))
              else RunAll(next, after, request, p)
  {
    var mid := RunAll(t, before, request, p).0;
    made := FromItems(m.id, items, p.scores);
    RunAllConcat(t, before, [m] + after, request, p);
    RunAllStep(mid, m, after, request, p);
    AccumulatedIs(mid, made);
  }

  // ---- the score of a run ----

  /** The severities that a list decision names, in order. */
  function Named(o: Outcome): seq<Severity>
  {
    match o case Returned(Scores(items)) => SeveritiesOf(items) case _ => []
  }

  function Severities<R>(ms: seq<Module<R>>, request: R): seq<Severity>
    decreases |ms|
  {
    if ms == [] then [] else Named(ms[0].inspect(request)) + Severities(ms[1..], request)
  }

  function SeveritiesOf(items: seq<ScoreItem>): (r: seq<Severity>)
    ensures |r| == |items|
  {
    seq(|items|, i requires 0 <= i < |items| => items[i].severity)
  }

  /** The points that a single decision names. */
  function Single(o: Outcome): nat
  {
    match o case Returned(Score(_, points)) => points case _ => 0
  }

  function SinglePoints<R>(ms: seq<Module<R>>, request: R): nat
    decreases |ms|
  {
    if ms == [] then 0 else Single(ms[0].inspect(request)) + SinglePoints(ms[1..], request)
  }

  /** For every severity, its points as often as it is named. */
  function Weighed(m: multiset<Severity>, s: SeverityScores): nat
  {
    Times(m[Critical], s.critical) + Times(m[Error], s.error) + Times(m[Warning], s.warning)
    + Times(m[Notice], s.notice)
  }

  function Times(count: nat, points: nat): nat { if count == 0 then 0 else points + Times(count - 1, points) }

  function Wrapped(start: nat, points: nat): u32 { (start + points) % U32_MOD }

  lemma ScoreIsWrapped<R>(t: Tally, ms: seq<Module<R>>, request: R, p: Policy)
    requires p.mode.DetectionOnly?
    ensures RunAll(t, ms, request, p).0.score == Wrapped(t.score, Points(AllContributions(ms, request, p)))
  {
    var made := ScoreIsSum(t, ms, request, p);
    DetectionNeverStops(t, ms, request, p);
    assert made == AllContributions(ms, request, p);
  }

  /** Detection-only, the score moves by the points of single decisions and by those of the severities
      named, modulo 2^32. */
  lemma ScoreIsWeighed<R>(t: Tally, ms: seq<Module<R>>, request: R, p: Policy) returns (points: nat)
    requires p.mode.DetectionOnly?
    ensures points == SinglePoints(ms, request) + Weighed(multiset(Severities(ms, request)), p.scores)
    ensures RunAll(t, ms, request, p).0.score == Wrapped(t.score, points)
  {
    points := Points(AllContributions(ms, request, p));
    ScoreIsWrapped(t, ms, request, p);
    PointsAreWeighed(ms, request, p);
  }

  lemma {:induction false} PointsAreWeighed<R>(ms: seq<Module<R>>, request: R, p: Policy)
    ensures Points(AllContributions(ms, request, p))
      == SinglePoints(ms, request) + Weighed(multiset(Severities(ms, request)), p.scores)
    decreases |ms|
  {
    if ms != [] {
      PointsAreWeighed(ms[1..], request, p);
      PointsConcat(ContributionsOf(ms[0], request, p), AllContributions(ms[1..], request, p));
      ModuleIsWeighed(ms[0], request, p);
      var here, later := Named(ms[0].inspect(request)), Severities(ms[1..], request);
      assert multiset(here + later) == multiset(here) + multiset(later);
      WeighedAdds(multiset(here), multiset(later), p.scores);
    }
  }

  lemma ModuleIsWeighed<R>(m: Module<R>, request: R, p: Policy)
    ensures Points(ContributionsOf(m, request, p))
      == Single(m.inspect(request)) + Weighed(multiset(Named(m.inspect(request))), p.scores)
  {
    match m.inspect(request)
    case Returned(Scores(items)) => ItemsAreWeighed(m.id, items, p.scores);
    case Returned(Score(_, _)) => OnePoint(ContributionsOf(m, request, p));
    case _ =>
  }

  lemma OnePoint(cs: seq<Contribution>)
    requires |cs| == 1
    ensures Points(cs) == cs[0].points
  {
    assert Points(cs[1..]) == 0;
  }

  lemma {:induction false} ItemsAreWeighed(id: string, items: seq<ScoreItem>, s: SeverityScores)
    ensures Points(FromItems(id, items, s)) == Weighed(multiset(SeveritiesOf(items)), s)
    decreases |items|
  {
    var cs, named := FromItems(id, items, s), SeveritiesOf(items);
    if items != [] {
      ItemsAreWeighed(id, items[1..], s);
      assert cs[1..] == FromItems(id, items[1..], s);
      assert named == [items[0].severity] + SeveritiesOf(items[1..]);
      WeighedAdds(multiset([items[0].severity]), multiset(SeveritiesOf(items[1..])), s);
      OneWeighed(items[0].severity, s);
    }
  }

  lemma OneWeighed(severity: Severity, s: SeverityScores)
    ensures Weighed(multiset([severity]), s) == PointsFor(s, severity)
  {
    var once := multiset([severity]);
    assert once[severity] == 1 && forall other :: other != severity ==> once[other] == 0;
    Once(PointsFor(s, severity));
  }

  lemma Once(points: nat)
    ensures Times(1, points) == points
  {
    assert Times(0, points) == 0;
  }

  lemma WeighedAdds(a: multiset<Severity>, b: multiset<Severity>, s: SeverityScores)
    ensures Weighed(a + b, s) == Weighed(a, s) + Weighed(b, s)
  {
    Distributes(a[Critical], b[Critical], s.critical);
    Distributes(a[Error], b[Error], s.error);
    Distributes(a[Warning], b[Warning], s.warning);
    Distributes(a[Notice], b[Notice], s.notice);
  }

  lemma {:induction false} Distributes(a: nat, b: nat, x: nat)
    ensures Times(a + b, x) == Times(a, x) + Times(b, x)
  {
    if a > 0 { Distributes(a - 1, b, x); }
  }
}
