/** What imported rules decide, in terms of the texts they look at: operators by the shape of a text,
    negation, chains, and rules that cannot be loaded. */
module CrsVerdicts {
  import opened Seqs
  import opened Waf
  import opened CrsAst
  import opened CrsEngine

  // ---- operators by the shape of a text ----

  /** What an operator says of one value. */
  ghost predicate Says(op: Operator, v: string, re: Regexes)
  {
    match op
    case Rx(pattern) => re.rx(pattern, v)
    case Pm(phrases) => exists k :: 0 <= k < |phrases| && Inside(LowerAscii(phrases[k]), LowerAscii(v))
    case ContainsOp(arg) => Inside(arg, v)
    case BeginsWith(arg) => exists after: string :: v == arg + after
    case EndsWithOp(arg) => exists before: string :: v == before + arg
    case Within(arg) => Inside(v, arg)
    case StrEq(arg) => v == arg
    case PmFromFile(_) => false
    case UnsupportedOperator(_) => false
  }

  ghost predicate Inside(part: string, whole: string)
  {
    exists before: string, after: string :: whole == before + part + after
  }

  predicate Loadable(op: Operator, re: Regexes)
  {
    match op
    case Rx(pattern) => re.valid(pattern)
    case PmFromFile(_) => false
    case UnsupportedOperator(_) => false
    case _ => true
  }

  lemma InsideIsHeld(part: string, whole: string)
    ensures Holds(whole, part) <==> Inside(part, whole)
  {
    if i :| 0 <= i <= |whole| && HasAt(whole, part, i) {
      assert whole == whole[..i] + part + whole[i + |part|..];
    }
    if before: string, after: string :| whole == before + part + after {
      assert whole[|before|..|before| + |part|] == part;
      assert HasAt(whole, part, |before|);
    }
  }

  /** Whether an operator can be loaded, and what the loaded one says. */
  lemma CompiledSays(op: Operator, v: string, re: Regexes)
    ensures Compile(op, re).Compiled? <==> Loadable(op, re)
    ensures Compile(op, re).Compiled? ==> (Matches(Compile(op, re).value, v, re) <==> Says(op, v, re))
  {
    match op
    case Pm(phrases) => PhrasesSay(phrases, v, Compile(op, re).value.phrases);
    case ContainsOp(arg) => InsideIsHeld(arg, v);
    case BeginsWith(arg) => BeginningIsPrefix(arg, v);
    case EndsWithOp(arg) => EndIsSuffix(arg, v);
    case Within(arg) => InsideIsHeld(v, arg);
    case _ =>
  }

  lemma PhrasesSay(phrases: seq<string>, v: string, lower: seq<string>)
    requires |lower| == |phrases| && forall k :: 0 <= k < |phrases| ==> lower[k] == LowerAscii(phrases[k])
    ensures (exists k :: 0 <= k < |lower| && Holds(LowerAscii(v), lower[k]))
      <==> (exists k :: 0 <= k < |phrases| && Inside(LowerAscii(phrases[k]), LowerAscii(v)))
  {
    forall k | 0 <= k < |phrases|
      ensures Holds(LowerAscii(v), lower[k]) <==> Inside(LowerAscii(phrases[k]), LowerAscii(v))
    {
      InsideIsHeld(lower[k], LowerAscii(v));
    }
  }

  lemma BeginningIsPrefix(arg: string, v: string)
    ensures arg <= v <==> exists after: string :: v == arg + after
  {
    if arg <= v { assert v == arg + v[|arg|..]; }
  }

  lemma EndIsSuffix(arg: string, v: string)
    ensures |arg| <= |v| && v[|v| - |arg|..] == arg <==> exists before: string :: v == before + arg
  {
    if |arg| <= |v| && v[|v| - |arg|..] == arg { assert v == v[..|v| - |arg|] + arg; }
    if before: string :| v == before + arg { assert v[|before|..] == arg; }
  }

  // ---- rules ----

  /** One link of a rule: what its operator says of some value, or the opposite when it is negated. */
  ghost predicate UnitHolds(u: MatchUnit, request: Request, re: Regexes)
  {
    var values := request(u.variables, u.transforms);
    if u.negated then forall k :: 0 <= k < |values| ==> !Says(u.operator, values[k], re)
    else exists k :: 0 <= k < |values| && Says(u.operator, values[k], re)
  }

  /** All links can be loaded and hold. */
  ghost predicate RuleHolds(r: CrsRule, request: Request, re: Regexes)
  {
    AllHold([r.head] + r.chain, request, re)
  }

  ghost predicate AllHold(us: seq<MatchUnit>, request: Request, re: Regexes)
  {
    forall i :: 0 <= i < |us| ==> Loadable(us[i].operator, re) && UnitHolds(us[i], request, re)
  }

  lemma LinkHolds(u: MatchUnit, l: Link, request: Request, re: Regexes)
    requires Compile(u.operator, re).Compiled?
    requires l == Link(u.variables, u.transforms, Compile(u.operator, re).value, u.negated)
    ensures LinkMatches(l, request, re) <==> UnitHolds(u, request, re)
  {
    var values := request(u.variables, u.transforms);
    forall k | 0 <= k < |values|
      ensures Matches(l.matcher, values[k], re) <==> Says(u.operator, values[k], re)
    {
      CompiledSays(u.operator, values[k], re);
    }
  }

  lemma {:induction false} LinksHold(us: seq<MatchUnit>, id: nat, severity: Severity, request: Request, re: Regexes)
    ensures AllHold(us, request, re)
      <==> CompileLinks(us, re).Compiled? && Fires(Rule(id, severity, CompileLinks(us, re).value), request, re)
    decreases |us|
  {
    if us != [] {
      CompiledSays(us[0].operator, "", re);
      LinksHold(us[1..], id, severity, request, re);
      FirstHolds(us, request, re);
      if CompileLinks(us, re).Compiled? {
        var links := CompileLinks(us, re).value;
        LinkHolds(us[0], links[0], request, re);
        ChainIsConjunction(id, severity, links[0], links[1..], request, re);
        assert links == [links[0]] + links[1..];
      }
    }
  }

  lemma FirstHolds(us: seq<MatchUnit>, request: Request, re: Regexes)
    requires us != []
    ensures AllHold(us, request, re)
      <==> Loadable(us[0].operator, re) && UnitHolds(us[0], request, re) && AllHold(us[1..], request, re)
  {
    assert forall i :: 1 <= i < |us| ==> us[i] == us[1..][i - 1];
  }

  /** A chain fires exactly when its first link and the rest of it would fire as rules of their own. */
  lemma ChainIsConjunction(id: nat, severity: Severity, l: Link, more: seq<Link>, request: Request, re: Regexes)
    ensures Fires(Rule(id, severity, [l] + more), request, re)
      <==> Fires(Rule(id, severity, [l]), request, re) && Fires(Rule(id, severity, more), request, re)
  {
    assert forall i :: 0 <= i < |more| ==> ([l] + more)[i + 1] == more[i];
    assert ([l] + more)[0] == l == [l][0];
  }

  /** Of a rule of one link and the same rule negated, exactly one fires, on every request. */
  lemma NegationFlips(id: nat, severity: Severity, l: Link, request: Request, re: Regexes)
    ensures Fires(Rule(id, severity, [l]), request, re)
      <==> !Fires(Rule(id, severity, [l.(negated := !l.negated)]), request, re)
  {
    var flipped := l.(negated := !l.negated);
    assert [l][0] == l && [flipped][0] == flipped;
  }

  /** A rule with a link that cannot be loaded is skipped with its own id and line, for its first such
      link: a pattern that does not compile, a phrase file, or an operator that is not supported. */
  lemma UnloadedIsSkipped(r: CrsRule, re: Regexes) returns (k: nat)
    requires exists i :: 0 <= i < |[r.head] + r.chain| && !Loadable(([r.head] + r.chain)[i].operator, re)
    ensures var us := [r.head] + r.chain;
            && k < |us| && !Loadable(us[k].operator, re)
            && (forall i :: 0 <= i < k ==> Loadable(us[i].operator, re))
            && FailedOf(r, re) == [SkippedRule(Some(r.id), r.lineNo,
                                     match us[k].operator
                                     case Rx(pattern) => InvalidRegex(pattern)
                                     case UnsupportedOperator(name) => OperatorUnsupported(name)
                                     case _ => PhraseFileUnsupported)]
  {
    k := FirstUnloaded([r.head] + r.chain, re);
  }

  lemma {:induction false} FirstUnloaded(us: seq<MatchUnit>, re: Regexes) returns (k: nat)
    requires exists i :: 0 <= i < |us| && !Loadable(us[i].operator, re)
    ensures k < |us| && !Loadable(us[k].operator, re) && forall i :: 0 <= i < k ==> Loadable(us[i].operator, re)
    ensures CompileLinks(us, re) == Failed(Compile(us[k].operator, re).reason)
    decreases |us|
  {
    CompiledSays(us[0].operator, "", re);
    if Loadable(us[0].operator, re) {
      var i :| 0 <= i < |us| && !Loadable(us[i].operator, re);
      assert us[i] == us[1..][i - 1];
      var later := FirstUnloaded(us[1..], re);
      k := later + 1;
      assert forall j :: 1 <= j < |us| ==> us[j] == us[1..][j - 1];
    } else {
      k := 0;
    }
  }

  // ---- rule sets ----

  /** An item for every rule that holds, in order. */
  ghost function Reported(rules: seq<CrsRule>, request: Request, re: Regexes): seq<ScoreItem>
  {
    if rules == [] then []
    else
      (if RuleHolds(rules[0], request, re) then [ScoreItem("crs-" + Decimal(rules[0].id), rules[0].severity)] else [])
      + Reported(rules[1..], request, re)
  }

  lemma {:induction false} NaiveIsReported(rules: seq<CrsRule>, request: Request, re: Regexes)
    ensures Naive(AllCompiled(rules, re), request, re) == Reported(rules, request, re)
    decreases |rules|
  {
    if rules != [] {
      NaiveIsReported(rules[1..], request, re);
      OneReported(rules[0], AllCompiled(rules[1..], re), request, re);
    }
  }

  lemma OneReported(r: CrsRule, more: seq<Rule>, request: Request, re: Regexes)
    ensures Naive(CompiledOf(r, re) + more, request, re)
      == (if RuleHolds(r, request, re) then [ScoreItem("crs-" + Decimal(r.id), r.severity)] else [])
         + Naive(more, request, re)
  {
    LinksHold([r.head] + r.chain, r.id, r.severity, request, re);
    if CompileRule(r, re).Compiled? {
      var c := CompileRule(r, re).value;
      assert ([c] + more)[1..] == more && ([c] + more)[0] == c;
    } else {
      assert [] + more == more && [] + Naive(more, request, re) == Naive(more, request, re);
    }
  }

  lemma {:induction false} NothingReported(rules: seq<CrsRule>, request: Request, re: Regexes)
    ensures Reported(rules, request, re) == [] <==> forall i :: 0 <= i < |rules| ==> !RuleHolds(rules[i], request, re)
    decreases |rules|
  {
    if rules != [] {
      NothingReported(rules[1..], request, re);
      assert forall i :: 1 <= i < |rules| ==> rules[i] == rules[1..][i - 1];
    }
  }

  /** A module built from a parsed rule set: it allows a request exactly when no rule of it holds, and
      otherwise reports, as a multiset, an item for each one that does. */
  method EvaluateRules(parsed: Ruleset, request: Request, re: Regexes) returns (d: Decision)
    ensures d == Allow <==> forall i :: 0 <= i < |parsed.rules| ==> !RuleHolds(parsed.rules[i], request, re)
    ensures d != Allow ==> d.Scores? && multiset(d.items) == multiset(Reported(parsed.rules, request, re))
  {
    d := Evaluate(parsed, request, re);
    var all := AllCompiled(parsed.rules, re);
    NaiveIsReported(parsed.rules, request, re);
    NothingReported(parsed.rules, request, re);
    NothingFires(all, request, re);
  }

  /** And one rule without a chain, operator by operator: a positive rule is silent exactly when its
      operator says nothing of any value, a negated one exactly when it says something of some value,
      and a rule that cannot be loaded always. */
  method EvaluateAlone(parsed: Ruleset, request: Request, re: Regexes) returns (d: Decision)
    requires |parsed.rules| == 1 && parsed.rules[0].chain == []
    ensures var r := parsed.rules[0]; d == Allow || d == Scores([ScoreItem("crs-" + Decimal(r.id), r.severity)])
    ensures var u := parsed.rules[0].head;
            u.operator.StrEq? ==>
              (d == Allow <==> (u.negated <==> u.operator.arg in request(u.variables, u.transforms)))
    ensures var u := parsed.rules[0].head;
            u.operator.Rx? && re.valid(u.operator.pattern) ==>
              (d == Allow <==> (u.negated <==>
                 exists v :: v in request(u.variables, u.transforms) && re.rx(u.operator.pattern, v)))
    ensures var u := parsed.rules[0].head;
            u.operator.Pm? ==>
              (d == Allow <==> (u.negated <==>
                 exists v, p :: v in request(u.variables, u.transforms) && p in u.operator.phrases
                                && Inside(LowerAscii(p), LowerAscii(v))))
    ensures var u := parsed.rules[0].head;
            u.operator.ContainsOp? ==>
              (d == Allow <==> (u.negated <==>
                 exists v :: v in request(u.variables, u.transforms) && Inside(u.operator.arg, v)))
    ensures var u := parsed.rules[0].head;
            u.operator.Within? ==>
              (d == Allow <==> (u.negated <==>
                 exists v :: v in request(u.variables, u.transforms) && Inside(v, u.operator.arg)))
    ensures var u := parsed.rules[0].head;
            u.operator.BeginsWith? ==>
              (d == Allow <==> (u.negated <==>
                 exists v, after :: v in request(u.variables, u.transforms) && v == u.operator.arg + after))
    ensures var u := parsed.rules[0].head;
            u.operator.EndsWithOp? ==>
              (d == Allow <==> (u.negated <==>
                 exists v, before :: v in request(u.variables, u.transforms) && v == before + u.operator.arg))
    ensures var op := parsed.rules[0].head.operator;
            (op.Rx? && !re.valid(op.pattern)) || op.PmFromFile? || op.UnsupportedOperator? ==> d == Allow
  {
    d := EvaluateRules(parsed, request, re);
    ghost var u := parsed.rules[0].head;
    OneRule(parsed.rules, d, request, re);
    SomeValue(u.operator, request(u.variables, u.transforms), re);
  }

  ghost predicate SomeSays(op: Operator, values: seq<string>, re: Regexes)
  {
    exists v :: v in values && Says(op, v, re)
  }

  /** Each operator written out. */
  lemma SomeValue(op: Operator, values: seq<string>, re: Regexes)
    ensures op.StrEq? ==> (SomeSays(op, values, re) <==> op.arg in values)
    ensures op.Rx? ==> (SomeSays(op, values, re) <==> exists v :: v in values && re.rx(op.pattern, v))
    ensures op.Pm? ==>
      (SomeSays(op, values, re) <==>
       exists v, p :: v in values && p in op.phrases && Inside(LowerAscii(p), LowerAscii(v)))
    ensures op.ContainsOp? ==> (SomeSays(op, values, re) <==> exists v :: v in values && Inside(op.arg, v))
    ensures op.Within? ==> (SomeSays(op, values, re) <==> exists v :: v in values && Inside(v, op.arg))
    ensures op.BeginsWith? ==> (SomeSays(op, values, re) <==> exists v, after :: v in values && v == op.arg + after)
    ensures op.EndsWithOp? ==> (SomeSays(op, values, re) <==> exists v, before :: v in values && v == before + op.arg)
  {
    forall v | v in values
      ensures op.Pm? ==> (Says(op, v, re) <==> exists p :: p in op.phrases && Inside(LowerAscii(p), LowerAscii(v)))
    {
      if op.Pm? { SomePhrase(op.phrases, LowerAscii(v)); }
    }
  }

  lemma SomePhrase(phrases: seq<string>, lower: string)
    ensures (exists k :: 0 <= k < |phrases| && Inside(LowerAscii(phrases[k]), lower))
      <==> exists p :: p in phrases && Inside(LowerAscii(p), lower)
  {
    if k :| 0 <= k < |phrases| && Inside(LowerAscii(phrases[k]), lower) { assert phrases[k] in phrases; }
  }

  lemma OneRule(rules: seq<CrsRule>, d: Decision, request: Request, re: Regexes)
    requires |rules| == 1 && rules[0].chain == []
    requires d == Allow <==> !RuleHolds(rules[0], request, re)
    requires d != Allow ==> d.Scores? && multiset(d.items) == multiset(Reported(rules, request, re))
    ensures var r := rules[0]; d == Allow || d == Scores([ScoreItem("crs-" + Decimal(r.id), r.severity)])
    ensures var u := rules[0].head;
            if Loadable(u.operator, re) then
              (d == Allow <==> (u.negated <==> SomeSays(u.operator, request(u.variables, u.transforms), re)))
            else d == Allow
  {
    var r := rules[0];
    AloneHolds(r, request, re);
    if d != Allow {
      var item := ScoreItem("crs-" + Decimal(r.id), r.severity);
      assert Reported(rules, request, re) == [item] + Reported(rules[1..], request, re) == [item];
      assert |d.items| == |multiset(d.items)| == |multiset([item])| == 1;
      assert d.items[0] in multiset(d.items);
    }
  }

  lemma AloneHolds(r: CrsRule, request: Request, re: Regexes)
    requires r.chain == []
    ensures RuleHolds(r, request, re) <==>
      Loadable(r.head.operator, re)
      && (r.head.negated <==> !SomeSays(r.head.operator, request(r.head.variables, r.head.transforms), re))
  {
    var us := [r.head] + r.chain;
    assert us == [r.head] && us[0] == r.head;
    assert AllHold(us, request, re) <==> Loadable(us[0].operator, re) && UnitHolds(us[0], request, re);
    var values := request(r.head.variables, r.head.transforms);
    assert forall k :: 0 <= k < |values| ==> values[k] in values;
  }
}
