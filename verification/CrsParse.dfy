/** From directive lines to rules: chains are grouped, defaults applied, and each group becomes one
    rule or one skip. Parsing inside a token (variables, operators, actions) is a parameter. */
module CrsParse {
  import opened Bits
  import opened Seqs
  import opened Waf
  import opened CrsAst
  import opened CrsLexer

  datatype Actions = Actions(id: Option<nat>, phase: Option<nat>, severity: Option<Severity>,
                             transforms: seq<Transform>, chain: bool, msg: Option<string>,
                             blocking: Option<string>)

  const NO_ACTIONS := Actions(None, None, None, [], false, None, None)

  datatype Keyword = RuleKeyword | DefaultKeyword | RemovalKeyword | OtherKeyword

  /** What the tokens after the keyword mean. */
  datatype Grammar = Grammar(variables: string -> seq<Variable>, operator: string -> (bool, Operator),
                             actions: string -> Actions)

  datatype Parts = Malformed | Parts(variables: seq<Variable>, operator: Operator, negated: bool, actions: Actions)

  function SecRule(d: DirectiveLine, g: Grammar): Parts
  {
    if |d.tokens| < 3 then Malformed
    else
      var (negated, operator) := g.operator(d.tokens[2]);
      Parts(g.variables(d.tokens[1]), operator, negated, if |d.tokens| > 3 then g.actions(d.tokens[3]) else NO_ACTIONS)
  }

  // ---- directives ----

  /** Directives are told apart by their first token, in any case. */
  function SeclangKeyword(token: string): Keyword
  {
    var name := LowerAscii(token);
    if name == "secrule" then RuleKeyword
    else if name == "secdefaultaction" then DefaultKeyword
    else if name == "secruleremovebyid" then RemovalKeyword
    else OtherKeyword
  }

  function KeywordOf(d: DirectiveLine, g: Grammar): Keyword
  {
    if d.tokens == [] then OtherKeyword else SeclangKeyword(d.tokens[0])
  }

  predicate IsRule(d: DirectiveLine, g: Grammar) { KeywordOf(d, g).RuleKeyword? }
  predicate IsDefault(d: DirectiveLine, g: Grammar) { KeywordOf(d, g).DefaultKeyword? }
  predicate IsRemoval(d: DirectiveLine, g: Grammar) { KeywordOf(d, g).RemovalKeyword? }

  /** The rule asks for the next one to be chained to it. */
  predicate Chained(d: DirectiveLine, g: Grammar) { SecRule(d, g).Parts? && SecRule(d, g).actions.chain }

  /** Directives in the group headed by the first one: the head and the rules chained to it. */
  function GroupLen(dirs: seq<DirectiveLine>, g: Grammar): (n: nat)
    requires dirs != []
    ensures 1 <= n <= |dirs|
    decreases |dirs|
  {
    if Chained(dirs[0], g) && |dirs| > 1 && IsRule(dirs[1], g) then 1 + GroupLen(dirs[1..], g) else 1
  }

  // ---- defaults and transforms ----

  datatype Defaults = Defaults(transforms: seq<Transform>, severity: Option<Severity>, phase: Option<nat>)

  const NO_DEFAULTS := Defaults([], None, None)

  /** What follows the last `t:none`. */
  function AfterLastNone(own: seq<Transform>): seq<Transform>
  {
    if own == [] || own[|own| - 1].NoTransform? then [] else AfterLastNone(own[..|own| - 1]) + [own[|own| - 1]]
  }

  /** A rule's own list after the last `t:none` in it; without one, the defaults and then its list. */
  function Resolved(base: seq<Transform>, own: seq<Transform>): seq<Transform>
  {
    if NoTransform in own then AfterLastNone(own) else base + own
  }

  method ResolveTransforms(base: seq<Transform>, own: seq<Transform>) returns (list: seq<Transform>)
    ensures list == Resolved(base, own)
  {
    list := base;
    assert base + own[..0] == base;
    for i := 0 to |own|
      invariant list == Resolved(base, own[..i])
    {
      ResolvedOneMore(base, own[..i], own[i]);
      assert own[..i + 1] == own[..i] + [own[i]];
      if own[i].NoTransform? { list := []; } else { list := list + [own[i]]; }
    }
    assert own[..|own|] == own;
  }

  lemma ResolvedOneMore(base: seq<Transform>, own: seq<Transform>, t: Transform)
    ensures Resolved(base, own + [t]) == if t.NoTransform? then [] else Resolved(base, own) + [t]
  {
    var more := own + [t];
    assert more[..|more| - 1] == own && more[|own|] == t;
    assert NoTransform in more <==> NoTransform in own || t.NoTransform?;
    Assoc(base, own, [t]);
  }

  function Updated(df: Defaults, d: DirectiveLine, g: Grammar): Defaults
  {
    if |d.tokens| < 2 then df
    else
      var a := g.actions(d.tokens[1]);
      Defaults(Resolved([], a.transforms), if a.severity.Some? then a.severity else df.severity,
               if a.phase.Some? then a.phase else df.phase)
  }

  // ---- one group ----

  function VariableProblem(vs: seq<Variable>): Option<Reason>
  {
    if vs == [] then None
    else if vs[0].kind.UnsupportedTarget? then Some(VariableUnsupported(vs[0].kind.name))
    else if vs[0].count then Some(CountUnsupported)
    else if vs[0].regexSelector then Some(RegexSelectorUnsupported)
    else VariableProblem(vs[1..])
  }

  function TransformProblem(ts: seq<Transform>): Option<Reason>
  {
    if ts == [] then None
    else if ts[0].UnsupportedTransform? then Some(TransformUnsupported(ts[0].name))
    else TransformProblem(ts[1..])
  }

  function UnitProblem(u: MatchUnit): Option<Reason>
  {
    if u.operator.UnsupportedOperator? then Some(OperatorUnsupported(u.operator.name))
    else if u.variables == [] then Some(NoVariables)
    else if VariableProblem(u.variables).Some? then VariableProblem(u.variables)
    else TransformProblem(u.transforms)
  }

  datatype UnitResult = Built(u: MatchUnit) | Refused(reason: Reason)

  function UnitOf(d: DirectiveLine, base: seq<Transform>, g: Grammar): UnitResult
  {
    match SecRule(d, g)
    case Malformed => Refused(MalformedRule)
    case Parts(variables, operator, negated, actions) =>
      if actions.blocking.Some? then Refused(ActionUnsupported(actions.blocking.value))
      else
        var u := MatchUnit(variables, operator, negated, Resolved(base, actions.transforms));
        match UnitProblem(u) case Some(reason) => Refused(reason) case None => Built(u)
  }

  /** Units of the directives in order, or the first refusal and its line. */
  datatype Units = Units(units: seq<MatchUnit>) | NoUnits(lineNo: nat, reason: Reason)

  function UnitsOf(group: seq<DirectiveLine>, base: seq<Transform>, g: Grammar): (r: Units)
    ensures r.Units? ==> |r.units| == |group|
    decreases |group|
  {
    if group == [] then Units([])
    else match UnitOf(group[0], base, g)
      case Refused(reason) => NoUnits(group[0].lineNo, reason)
      case Built(u) =>
        match UnitsOf(group[1..], [], g)
        case NoUnits(lineNo, reason) => NoUnits(lineNo, reason)
        case Units(more) => Units([u] + more)
  }

  datatype Outcome = Kept(rule: CrsRule) | Dropped(skip: SkippedRule)

  function PhaseOf(a: Actions, df: Defaults): nat
  {
    if a.phase.Some? then a.phase.value else if df.phase.Some? then df.phase.value else 2
  }

  function SeverityOf(a: Actions, df: Defaults): Severity
  {
    if a.severity.Some? then a.severity.value else if df.severity.Some? then df.severity.value else Warning
  }

  function Assembled(group: seq<DirectiveLine>, df: Defaults, g: Grammar): Outcome
    requires group != []
  {
    var line := group[0].lineNo;
    match SecRule(group[0], g)
    case Malformed => Dropped(SkippedRule(None, line, MalformedRule))
    case Parts(_, _, _, a) =>
      if a.id == None then Dropped(SkippedRule(None, line, NoId))
      else if PhaseOf(a, df) >= 3 then Dropped(SkippedRule(a.id, line, LatePhase(PhaseOf(a, df))))
      else match UnitsOf(group, df.transforms, g)
        case NoUnits(at, reason) => Dropped(SkippedRule(a.id, at, reason))
        case Units(units) => Kept(CrsRule(a.id.value, SeverityOf(a, df), units[0], units[1..], a.msg, line))
  }

  method Assemble(group: seq<DirectiveLine>, df: Defaults, g: Grammar, out: Ruleset) returns (out': Ruleset)
    requires group != []
    ensures out' == Pushed(out, Assembled(group, df, g))
  {
    var line := group[0].lineNo;
    var head := SecRule(group[0], g);
    if head.Malformed? { return Pushed(out, Dropped(SkippedRule(None, line, MalformedRule))); }
    var a := head.actions;
    if a.id == None { return Pushed(out, Dropped(SkippedRule(None, line, NoId))); }
    var phase := PhaseOf(a, df);
    if phase >= 3 { return Pushed(out, Dropped(SkippedRule(a.id, line, LatePhase(phase)))); }
    var units := BuildUnits(group, df.transforms, g);
    match units
    case NoUnits(at, reason) => return Pushed(out, Dropped(SkippedRule(a.id, at, reason)));
    case Units(us) => return Pushed(out, Kept(CrsRule(a.id.value, SeverityOf(a, df), us[0], us[1..], a.msg, line)));
  }

  function Pushed(out: Ruleset, o: Outcome): Ruleset
  {
    match o
    case Kept(rule) => out.(rules := out.rules + [rule])
    case Dropped(skip) => out.(skipped := out.skipped + [skip])
  }

  function UnitsAhead(units: seq<MatchUnit>, more: Units): Units
  {
    match more case NoUnits(_, _) => more case Units(us) => Units(units + us)
  }

  lemma UnitsAheadTwice(a: seq<MatchUnit>, b: seq<MatchUnit>, more: Units)
    ensures UnitsAhead(a, UnitsAhead(b, more)) == UnitsAhead(a + b, more)
  {
    if more.Units? { Assoc(a, b, more.units); }
  }

  lemma NothingAhead(more: Units)
    ensures UnitsAhead([], more) == more
  {
    if more.Units? { assert [] + more.units == more.units; }
  }

  method BuildUnits(group: seq<DirectiveLine>, base: seq<Transform>, g: Grammar) returns (r: Units)
    ensures r == UnitsOf(group, base, g)
  {
    var units: seq<MatchUnit> := [];
    NothingAhead(UnitsOf(group, base, g));
    for i := 0 to |group|
      invariant UnitsOf(group, base, g) == UnitsAhead(units, UnitsOf(group[i..], if i == 0 then base else [], g))
    {
      assert group[i..][1..] == group[i + 1..];
      var u := UnitOf(group[i], if i == 0 then base else [], g);
      if u.Refused? { return NoUnits(group[i].lineNo, u.reason); }
      UnitsAheadTwice(units, [u.u], UnitsOf(group[i + 1..], [], g));
      units := units + [u.u];
    }
    assert units + [] == units;
    r := Units(units);
  }

  // ---- removal by id ----

  function TrimStart(s: string): string
  {
    if s != "" && White(s[0]) then TrimStart(s[1..]) else s
  }

  function Trim(s: string): string { TrimEnd(TrimStart(s)) }

  function Digits(s: string, value: nat): Option<nat>
    decreases |s|
  {
    if s == "" then Some(value)
    else if '0' <= s[0] <= '9' then Digits(s[1..], value * 10 + (s[0] as int - '0' as int))
    else None
  }

  /** `str::parse::<u64>` */
  function ParseU64(s: string): Option<nat>
  {
    var digits := if s != "" && s[0] == '+' then s[1..] else s;
    if digits == "" then None
    else match Digits(digits, 0)
      case None => None
      case Some(n) => if n <= U64_MAX then Some(n) else None
  }

  /** The ids a token names: an interval `n-m`, a single number, or nothing. */
  datatype Interval = Nothing | Interval(low: nat, high: nat)

  function IntervalOf(token: string): Interval
  {
    match IndexOf(token, '-')
    case Some(k) =>
      (match (ParseU64(Trim(token[..k])), ParseU64(Trim(token[k + 1..])))
       case (Some(a), Some(b)) => Interval(a, b)
       case _ => Nothing)
    case None => (match ParseU64(Trim(token)) case Some(n) => Interval(n, n) case None => Nothing)
  }

  predicate Names(token: string, id: nat)
  {
    var i := IntervalOf(token); i.Interval? && i.low <= id <= i.high
  }

  predicate Removes(d: DirectiveLine, id: nat, g: Grammar)
  {
    IsRemoval(d, g) && exists k :: 1 <= k < |d.tokens| && Names(d.tokens[k], id)
  }

  predicate RemovedUpTo(dirs: seq<DirectiveLine>, n: nat, id: nat, g: Grammar)
    requires n <= |dirs|
  {
    exists i :: 0 <= i < n && Removes(dirs[i], id, g)
  }

  predicate RemovedBy(dirs: seq<DirectiveLine>, id: nat, g: Grammar) { RemovedUpTo(dirs, |dirs|, id, g) }

  method CollectRemovedIds(d: DirectiveLine, before: seq<nat>, g: Grammar) returns (ids: seq<nat>)
    requires IsRemoval(d, g)
    ensures forall id: nat :: id in ids <==> id in before || Removes(d, id, g)
  {
    ids := before;
    for k := 1 to |d.tokens|
      invariant forall id: nat :: id in ids <==> id in before || exists j :: 1 <= j < k && Names(d.tokens[j], id)
    {
      ids := PushInterval(ids, d.tokens[k]);
    }
  }

  method PushInterval(before: seq<nat>, token: string) returns (ids: seq<nat>)
    ensures forall id: nat :: id in ids <==> id in before || Names(token, id)
  {
    ids := before;
    var i := IntervalOf(token);
    if i.Interval? && i.low <= i.high {
      for id := i.low to i.high + 1
        invariant forall x: nat :: x in ids <==> x in before || i.low <= x < id
      {
        ids := ids + [id];
      }
    }
  }

  function Without(rules: seq<CrsRule>, removed: nat -> bool): seq<CrsRule>
  {
    if rules == [] then []
    else if removed(rules[0].id) then Without(rules[1..], removed)
    else [rules[0]] + Without(rules[1..], removed)
  }

  // ---- the whole source ----

  function Prepended(o: Outcome, rest: Ruleset): Ruleset
  {
    match o
    case Kept(rule) => rest.(rules := [rule] + rest.rules)
    case Dropped(skip) => rest.(skipped := [skip] + rest.skipped)
  }

  /** The outcome of every group in order, under the defaults in force at its head. */
  function Collected(dirs: seq<DirectiveLine>, df: Defaults, g: Grammar): Ruleset
    decreases |dirs|
  {
    if dirs == [] then Ruleset([], [])
    else if IsRule(dirs[0], g) then
      var n := GroupLen(dirs, g);
      Prepended(Assembled(dirs[..n], df, g), Collected(dirs[n..], df, g))
    else Collected(dirs[1..], if IsDefault(dirs[0], g) then Updated(df, dirs[0], g) else df, g)
  }

  function RemovedIds(dirs: seq<DirectiveLine>, g: Grammar): nat -> bool { (id: nat) => RemovedBy(dirs, id, g) }

  function Parsed(dirs: seq<DirectiveLine>, g: Grammar): Ruleset
  {
    var all := Collected(dirs, NO_DEFAULTS, g);
    all.(rules := Without(all.rules, RemovedIds(dirs, g)))
  }

  function Appended(a: Ruleset, b: Ruleset): Ruleset { Ruleset(a.rules + b.rules, a.skipped + b.skipped) }

  lemma AppendedPushed(out: Ruleset, o: Outcome, rest: Ruleset)
    ensures Appended(out, Prepended(o, rest)) == Appended(Pushed(out, o), rest)
  {
    match o
    case Kept(rule) => Assoc(out.rules, [rule], rest.rules);
    case Dropped(skip) => Assoc(out.skipped, [skip], rest.skipped);
  }

  /** The ids collected are those that the first `n` directives remove. */
  ghost predicate Lists(removed: seq<nat>, dirs: seq<DirectiveLine>, n: nat, g: Grammar)
    requires n <= |dirs|
  {
    forall id: nat :: id in removed <==> RemovedUpTo(dirs, n, id, g)
  }

  method Parse(dirs: seq<DirectiveLine>, g: Grammar) returns (out: Ruleset)
    ensures out == Parsed(dirs, g)
  {
    var acc, df := Ruleset([], []), NO_DEFAULTS;
    var removed: seq<nat> := [];
    var i := 0;
    ghost var all := Collected(dirs, NO_DEFAULTS, g);
    assert dirs[0..] == dirs && Appended(acc, all) == all;
    while i < |dirs|
      invariant i <= |dirs|
      invariant all == Appended(acc, Collected(dirs[i..], df, g))
      invariant Lists(removed, dirs, i, g)
    {
      if IsRule(dirs[i], g) {
        ghost var head := i;
        i, acc := ParseGroup(dirs, i, df, g, acc);
        ListsPastRules(removed, dirs, head, i, g);
      } else {
        df, removed := ParseSetting(dirs, i, df, g, removed);
        i := i + 1;
      }
    }
    assert dirs[i..] == [];
    assert Appended(acc, Ruleset([], [])) == acc;
    out := Retain(acc, removed, dirs, g);
  }

  method Retain(acc: Ruleset, removed: seq<nat>, ghost dirs: seq<DirectiveLine>, ghost g: Grammar)
    returns (out: Ruleset)
    requires Lists(removed, dirs, |dirs|, g)
    ensures out == acc.(rules := Without(acc.rules, RemovedIds(dirs, g)))
  {
    SameFilter(acc.rules, removed, RemovedIds(dirs, g));
    out := if removed == [] then acc else acc.(rules := Without(acc.rules, id => id in removed));
  }

  /** A directive that is no rule: it may change the defaults or name ids to remove. */
  method ParseSetting(dirs: seq<DirectiveLine>, i: nat, df: Defaults, g: Grammar, removed: seq<nat>)
    returns (df': Defaults, removed': seq<nat>)
    requires i < |dirs| && !IsRule(dirs[i], g) && Lists(removed, dirs, i, g)
    ensures Collected(dirs[i + 1..], df', g) == Collected(dirs[i..], df, g)
    ensures Lists(removed', dirs, i + 1, g)
  {
    CollectedSkips(dirs, i, df, g);
    df', removed' := df, removed;
    if IsDefault(dirs[i], g) {
      df' := Updated(df, dirs[i], g);
    } else if IsRemoval(dirs[i], g) {
      removed' := CollectRemovedIds(dirs[i], removed, g);
    }
  }

  /** Consecutive directives of a group are all rules, so they remove nothing. */
  lemma ListsPastRules(removed: seq<nat>, dirs: seq<DirectiveLine>, i: nat, next: nat, g: Grammar)
    requires i <= next <= |dirs| && Lists(removed, dirs, i, g) && forall k :: i <= k < next ==> IsRule(dirs[k], g)
    ensures Lists(removed, dirs, next, g)
  {
    forall id: nat
      ensures RemovedUpTo(dirs, next, id, g) == RemovedUpTo(dirs, i, id, g)
    {
      if RemovedUpTo(dirs, next, id, g) {
        var k :| 0 <= k < next && Removes(dirs[k], id, g);
        assert k < i;
      }
    }
  }

  lemma CollectedSkips(dirs: seq<DirectiveLine>, i: nat, df: Defaults, g: Grammar)
    requires i < |dirs| && !IsRule(dirs[i], g)
    ensures Collected(dirs[i..], df, g)
      == Collected(dirs[i + 1..], if IsDefault(dirs[i], g) then Updated(df, dirs[i], g) else df, g)
  {
    assert dirs[i..][1..] == dirs[i + 1..];
  }

  lemma CollectedHead(dirs: seq<DirectiveLine>, df: Defaults, g: Grammar, group: seq<DirectiveLine>,
                      rest: seq<DirectiveLine>)
    requires dirs != [] && IsRule(dirs[0], g) && group != []
    requires group == dirs[..GroupLen(dirs, g)] && rest == dirs[GroupLen(dirs, g)..]
    ensures Collected(dirs, df, g) == Prepended(Assembled(group, df, g), Collected(rest, df, g))
  {
  }

  lemma GroupIsCollected(here: seq<DirectiveLine>, group: seq<DirectiveLine>, rest: seq<DirectiveLine>, df: Defaults,
                         g: Grammar, acc: Ruleset, acc': Ruleset)
    requires here != [] && IsRule(here[0], g) && group != []
    requires group == here[..GroupLen(here, g)] && rest == here[GroupLen(here, g)..]
    requires acc' == Pushed(acc, Assembled(group, df, g))
    ensures Appended(acc', Collected(rest, df, g)) == Appended(acc, Collected(here, df, g))
  {
    CollectedHead(here, df, g, group, rest);
    PushedThenRest(acc, Assembled(group, df, g), acc', Collected(rest, df, g), Collected(here, df, g));
  }

  lemma PushedThenRest(out: Ruleset, o: Outcome, out': Ruleset, rest: Ruleset, whole: Ruleset)
    requires out' == Pushed(out, o) && whole == Prepended(o, rest)
    ensures Appended(out', rest) == Appended(out, whole)
  {
    AppendedPushed(out, o, rest);
  }

  /** The whole group headed at `i`. */
  method ParseGroup(dirs: seq<DirectiveLine>, i: nat, df: Defaults, g: Grammar, acc: Ruleset)
    returns (next: nat, acc': Ruleset)
    requires i < |dirs| && IsRule(dirs[i], g)
    ensures i < next <= |dirs|
    ensures Appended(acc', Collected(dirs[next..], df, g)) == Appended(acc, Collected(dirs[i..], df, g))
    ensures forall k :: i <= k < next ==> IsRule(dirs[k], g)
  {
    var group := TakeGroup(dirs, i, g);
    next := i + |group|;
    acc' := Assemble(group, df, g, acc);
    assert Appended(acc', Collected(dirs[next..], df, g)) == Appended(acc, Collected(dirs[i..], df, g)) by {
      SlicesAt(dirs, i, |group|);
      GroupIsCollected(dirs[i..], group, dirs[next..], df, g, acc, acc');
    }
  }

  lemma {:induction false} SameFilter(rules: seq<CrsRule>, removed: seq<nat>, all: nat -> bool)
    requires forall id: nat :: id in removed <==> all(id)
    ensures Without(rules, id => id in removed) == Without(rules, all)
    ensures removed == [] ==> Without(rules, all) == rules
    decreases |rules|
  {
    if rules != [] { SameFilter(rules[1..], removed, all); }
  }

  /** The head at `i` and every rule chained to it. */
  method TakeGroup(dirs: seq<DirectiveLine>, i: nat, g: Grammar) returns (group: seq<DirectiveLine>)
    requires i < |dirs| && IsRule(dirs[i], g)
    ensures |group| == GroupLen(dirs[i..], g) && group == dirs[i..][..|group|]
    ensures forall k :: i <= k < i + |group| ==> IsRule(dirs[k], g)
  {
    var j := i;
    var chained := Chained(dirs[i], g);
    while chained && j + 1 < |dirs| && IsRule(dirs[j + 1], g)
      invariant i <= j < |dirs| && chained == Chained(dirs[j], g)
      invariant forall k :: i <= k <= j ==> IsRule(dirs[k], g)
      invariant GroupLen(dirs[i..], g) == j - i + GroupLen(dirs[j..], g)
      decreases |dirs| - j
    {
      assert dirs[j..][1..] == dirs[j + 1..];
      j := j + 1;
      chained := Chained(dirs[j], g);
    }
    group := dirs[i..j + 1];
    SlicesAt(dirs, i, |group|);
  }

  lemma SlicesAt(dirs: seq<DirectiveLine>, i: nat, n: nat)
    requires i + n <= |dirs|
    ensures dirs[i..][..n] == dirs[i..i + n] && dirs[i..][n..] == dirs[i + n..]
  {
  }
}
