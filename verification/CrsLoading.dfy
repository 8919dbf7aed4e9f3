/** Which rules an import keeps and what it says of the others, in terms of their directives; what a
    directive that sets defaults or names ids means. */
module CrsLoading {
  import opened Bits
  import opened Seqs
  import opened Waf
  import opened CrsAst
  import opened CrsLexer
  import opened CrsParse
  import opened CrsGroups
  import CrsEngine

  // ---- which groups become rules ----

  /** The actions of a rule directive; without a fourth token it has none. */
  function ActionsOf(d: DirectiveLine, g: Grammar): Actions
  {
    if |d.tokens| > 3 then g.actions(d.tokens[3]) else NO_ACTIONS
  }

  /** A directive that is whole and asks for nothing outside the supported subset. */
  ghost predicate Supported(d: DirectiveLine, base: seq<Transform>, g: Grammar)
  {
    && |d.tokens| >= 3
    && ActionsOf(d, g).blocking == None
    && !g.operator(d.tokens[2]).1.UnsupportedOperator?
    && g.variables(d.tokens[1]) != []
    && (forall v :: v in g.variables(d.tokens[1]) ==> !v.kind.UnsupportedTarget? && !v.count && !v.regexSelector)
    && (forall t :: t in Resolved(base, ActionsOf(d, g).transforms) ==> !t.UnsupportedTransform?)
  }

  lemma {:induction false} VariablesAreFine(vs: seq<Variable>)
    ensures VariableProblem(vs) == None
      <==> forall v :: v in vs ==> !v.kind.UnsupportedTarget? && !v.count && !v.regexSelector
    decreases |vs|
  {
    if vs != [] { VariablesAreFine(vs[1..]); }
  }

  lemma {:induction false} TransformsAreFine(ts: seq<Transform>)
    ensures TransformProblem(ts) == None <==> forall t :: t in ts ==> !t.UnsupportedTransform?
    decreases |ts|
  {
    if ts != [] { TransformsAreFine(ts[1..]); }
  }

  lemma BuiltIff(d: DirectiveLine, base: seq<Transform>, g: Grammar)
    ensures UnitOf(d, base, g).Built? <==> Supported(d, base, g)
  {
    if |d.tokens| >= 3 {
      VariablesAreFine(g.variables(d.tokens[1]));
      TransformsAreFine(Resolved(base, ActionsOf(d, g).transforms));
    }
  }

  /** The first `k` directives of a group are supported; only its head starts from the defaults. */
  ghost predicate SupportedUpTo(group: seq<DirectiveLine>, k: nat, base: seq<Transform>, g: Grammar)
    requires k <= |group|
  {
    forall i :: 0 <= i < k ==> Supported(group[i], if i == 0 then base else [], g)
  }

  /** A group has its units exactly when all of it is supported, and otherwise the line of the first
      directive that is not. */
  lemma {:induction false} UnitsIff(group: seq<DirectiveLine>, base: seq<Transform>, g: Grammar) returns (k: nat)
    ensures UnitsOf(group, base, g).Units? <==> SupportedUpTo(group, |group|, base, g)
    ensures UnitsOf(group, base, g).NoUnits? ==>
      && k < |group| && SupportedUpTo(group, k, base, g) && !Supported(group[k], if k == 0 then base else [], g)
      && UnitsOf(group, base, g).lineNo == group[k].lineNo
    decreases |group|
  {
    k := 0;
    if group != [] {
      BuiltIff(group[0], base, g);
      if UnitOf(group[0], base, g).Built? {
        var later := UnitsIff(group[1..], [], g);
        SupportedStep(group, base, g);
        k := later + 1;
        if UnitsOf(group, base, g).NoUnits? { FirstUnsupported(group, later, base, g); }
      }
    }
  }

  lemma SupportedStep(group: seq<DirectiveLine>, base: seq<Transform>, g: Grammar)
    requires group != [] && Supported(group[0], base, g)
    ensures SupportedUpTo(group, |group|, base, g) <==> SupportedUpTo(group[1..], |group| - 1, [], g)
  {
    assert forall i :: 1 <= i < |group| ==> group[i] == group[1..][i - 1];
  }

  lemma FirstUnsupported(group: seq<DirectiveLine>, k: nat, base: seq<Transform>, g: Grammar)
    requires group != [] && Supported(group[0], base, g) && k < |group| - 1
    requires SupportedUpTo(group[1..], k, [], g) && !Supported(group[1..][k], [], g)
    ensures SupportedUpTo(group, k + 1, base, g) && !Supported(group[k + 1], [], g)
  {
    assert forall i :: 1 <= i < |group| ==> group[i] == group[1..][i - 1];
  }

  /** A group becomes a rule exactly when its head is whole and has an id, its phase, its own or the
      default one or else the second, is the first or second, and all of its directives are supported. */
  lemma KeptIff(group: seq<DirectiveLine>, df: Defaults, g: Grammar)
    requires group != []
    ensures Assembled(group, df, g).Kept? <==>
      && |group[0].tokens| >= 3 && ActionsOf(group[0], g).id.Some?
      && (match ActionsOf(group[0], g).phase
          case Some(n) => n <= 2
          case None => (match df.phase case Some(n) => n <= 2 case None => true))
      && forall i :: 0 <= i < |group| ==> Supported(group[i], if i == 0 then df.transforms else [], g)
  {
    var k := UnitsIff(group, df.transforms, g);
  }

  /** The severity of a rule is its own, or the default one, or a warning; its message is its own. */
  lemma KeptRuleSays(group: seq<DirectiveLine>, df: Defaults, g: Grammar)
    requires group != [] && Assembled(group, df, g).Kept?
    ensures var r, a := Assembled(group, df, g).rule, ActionsOf(group[0], g);
            && r.msg == a.msg
            && (a.severity.Some? ==> r.severity == a.severity.value)
            && (a.severity.None? && df.severity.Some? ==> r.severity == df.severity.value)
            && (a.severity.None? && df.severity.None? ==> r.severity == Warning)
  {
  }

  /** A group that is dropped is reported with the line and the fault found first: a head that is not whole,
      that has no id, or that runs too late, and then the first directive that is not supported. */
  lemma DroppedSays(group: seq<DirectiveLine>, df: Defaults, g: Grammar) returns (k: nat)
    requires group != [] && Assembled(group, df, g).Dropped?
    ensures var s, a := Assembled(group, df, g).skip, ActionsOf(group[0], g);
            if |group[0].tokens| < 3 then s == SkippedRule(None, group[0].lineNo, MalformedRule)
            else if a.id.None? then s == SkippedRule(None, group[0].lineNo, NoId)
            else if s.reason.LatePhase? then
              && s.id == a.id && s.lineNo == group[0].lineNo && s.reason.phase >= 3
              && Some(s.reason.phase) == (if a.phase.Some? then a.phase else df.phase)
            else
              && k < |group| && s.id == a.id && s.lineNo == group[k].lineNo
              && SupportedUpTo(group, k, df.transforms, g)
              && !Supported(group[k], if k == 0 then df.transforms else [], g)
  {
    k := UnitsIff(group, df.transforms, g);
    if |group[0].tokens| >= 3 && ActionsOf(group[0], g).id.Some? && PhaseOf(ActionsOf(group[0], g), df) < 3 {
      ReasonIsNoPhase(group, df.transforms, g);
    }
  }

  lemma {:induction false} ReasonIsNoPhase(group: seq<DirectiveLine>, base: seq<Transform>, g: Grammar)
    ensures UnitsOf(group, base, g).NoUnits? ==> !UnitsOf(group, base, g).reason.LatePhase?
    decreases |group|
  {
    if group != [] {
      ReasonIsNoPhase(group[1..], [], g);
      if |group[0].tokens| >= 3 {
        ProblemIsNoPhase(g.variables(group[0].tokens[1]), Resolved(base, ActionsOf(group[0], g).transforms));
      }
    }
  }

  lemma {:induction false} ProblemIsNoPhase(vs: seq<Variable>, ts: seq<Transform>)
    ensures VariableProblem(vs).Some? ==> !VariableProblem(vs).value.LatePhase?
    ensures TransformProblem(ts).Some? ==> !TransformProblem(ts).value.LatePhase?
    decreases |vs| + |ts|
  {
    if vs != [] { ProblemIsNoPhase(vs[1..], []); }
    if ts != [] { ProblemIsNoPhase([], ts[1..]); }
  }

  // ---- names of ids ----

  /** The value read so far, and then the digits of `n`. */
  function Continued(value: nat, n: nat): nat
  {
    (if n < 10 then value else Continued(value, n / 10)) * 10 + n % 10
  }

  lemma {:induction false} ContinuedFromZero(n: nat)
    ensures Continued(0, n) == n
  {
    if n >= 10 { ContinuedFromZero(n / 10); }
  }

  predicate Digit(c: char) { '0' <= c <= '9' }

  lemma {:induction false} DecimalIsDigits(n: nat)
    ensures var d := CrsEngine.Decimal(n); d != "" && forall i :: 0 <= i < |d| ==> Digit(d[i])
  {
    if n >= 10 { DecimalIsDigits(n / 10); }
  }

  lemma {:induction false} DecimalReads(n: nat, more: string, value: nat)
    ensures Digits(CrsEngine.Decimal(n) + more, value) == Digits(more, Continued(value, n))
    decreases n
  {
    if n < 10 {
      DigitReads(n, more, value);
    } else {
      var last := ['0' + (n % 10) as char];
      DecimalReads(n / 10, last + more, value);
      DigitReads(n % 10, more, Continued(value, n / 10));
      Assoc(CrsEngine.Decimal(n / 10), last, more);
    }
  }

  lemma DigitReads(n: nat, more: string, value: nat)
    requires n < 10
    ensures Digits(['0' + n as char] + more, value) == Digits(more, value * 10 + n)
  {
    var s := ['0' + n as char] + more;
    assert s[1..] == more && s[0] as int - '0' as int == n;
  }

  /** A 64-bit number is read back from its decimal form, and a larger one is no number. */
  lemma NumberComesBack(n: nat)
    ensures ParseU64(CrsEngine.Decimal(n)) == if n <= U64_MAX then Some(n) else None
  {
    DecimalIsDigits(n);
    DecimalReads(n, "", 0);
    ContinuedFromZero(n);
    assert CrsEngine.Decimal(n) + "" == CrsEngine.Decimal(n);
  }

  lemma DigitsStay(s: string)
    requires s != "" && forall i :: 0 <= i < |s| ==> Digit(s[i])
    ensures Trim(s) == s && '-' !in s
  {
  }

  /** `n` names the rule `n` alone, and `a-b` the rules from `a` to `b`, none of them when `a` is the
      larger. */
  lemma NumbersNameRules(a: nat, b: nat, id: nat)
    requires a <= U64_MAX && b <= U64_MAX
    ensures Names(CrsEngine.Decimal(a), id) <==> id == a
    ensures Names(CrsEngine.Decimal(a) + "-" + CrsEngine.Decimal(b), id) <==> a <= id <= b
  {
    var x, y := CrsEngine.Decimal(a), CrsEngine.Decimal(b);
    NumberComesBack(a);
    NumberComesBack(b);
    DecimalIsDigits(a);
    DecimalIsDigits(b);
    DigitsStay(x);
    DigitsStay(y);
    OneNumber(x, a);
    TwoNumbers(x + "-" + y, x, y, a, b);
  }

  lemma OneNumber(x: string, a: nat)
    requires '-' !in x && Trim(x) == x && ParseU64(x) == Some(a)
    ensures IntervalOf(x) == Interval(a, a)
  {
  }

  lemma TwoNumbers(token: string, x: string, y: string, a: nat, b: nat)
    requires '-' !in x && Trim(x) == x && Trim(y) == y && ParseU64(x) == Some(a) && ParseU64(y) == Some(b)
    requires token == x + "-" + y
    ensures IntervalOf(token) == Interval(a, b)
  {
    assert token == x + ['-'] + y;
    IndexOfPiece(x, y, '-');
    assert token[..|x|] == x && token[|x| + 1..] == y;
  }

  // ---- defaults ----

  /** A directive that sets defaults. */
  predicate Sets(d: DirectiveLine, g: Grammar) { IsDefault(d, g) && |d.tokens| >= 2 }

  lemma {:induction false} DefaultsSnoc(dirs: seq<DirectiveLine>, d: DirectiveLine, df: Defaults, g: Grammar)
    ensures DefaultsAfter(dirs + [d], df, g)
      == var before := DefaultsAfter(dirs, df, g); if IsDefault(d, g) then Updated(before, d, g) else before
    decreases |dirs|
  {
    if dirs == [] {
      assert [] + [d] == [d] && [d][1..] == [];
    } else {
      DefaultsSnoc(dirs[1..], d, if IsDefault(dirs[0], g) then Updated(df, dirs[0], g) else df, g);
      assert (dirs + [d])[1..] == dirs[1..] + [d];
    }
  }

  /** The default severity and phase in force are those of the last directive that names one, and the
      default transforms those of the last directive at all, without what it resets. */
  lemma {:induction false} DefaultsAre(dirs: seq<DirectiveLine>, k: nat, g: Grammar)
    requires k < |dirs| && Sets(dirs[k], g)
    ensures var df, a := DefaultsAfter(dirs, NO_DEFAULTS, g), g.actions(dirs[k].tokens[1]);
            && (a.severity.Some?
                && (forall i :: k < i < |dirs| && Sets(dirs[i], g) ==> g.actions(dirs[i].tokens[1]).severity.None?)
                ==> df.severity == a.severity)
            && (a.phase.Some?
                && (forall i :: k < i < |dirs| && Sets(dirs[i], g) ==> g.actions(dirs[i].tokens[1]).phase.None?)
                ==> df.phase == a.phase)
            && ((forall i :: k < i < |dirs| ==> !Sets(dirs[i], g)) ==> df.transforms == Resolved([], a.transforms))
    decreases |dirs|
  {
    var before, d := dirs[..|dirs| - 1], dirs[|dirs| - 1];
    assert dirs == before + [d];
    DefaultsSnoc(before, d, NO_DEFAULTS, g);
    if k < |before| {
      DefaultsAre(before, k, g);
      assert forall i :: 0 <= i < |before| ==> before[i] == dirs[i];
    }
  }

  /** Without such a directive there is no default. */
  lemma {:induction false} NoDefaults(dirs: seq<DirectiveLine>, g: Grammar)
    requires forall i :: 0 <= i < |dirs| ==> !Sets(dirs[i], g)
    ensures DefaultsAfter(dirs, NO_DEFAULTS, g) == NO_DEFAULTS
    decreases |dirs|
  {
    if dirs != [] { NoDefaults(dirs[1..], g); }
  }

  // ---- letters in either case ----

  predicate Upper(c: char) { 'A' <= c <= 'Z' }

  predicate SameLetter(a: char, b: char)
  {
    a == b || (Upper(a) && b as int == a as int + 32) || (Upper(b) && a as int == b as int + 32)
  }

  lemma LettersDiffer(a: char, b: char)
    ensures (if Upper(a) then a + 32 as char else a) == (if Upper(b) then b + 32 as char else b) <==> SameLetter(a, b)
  {
  }

  /** Texts are the same in lower case exactly when they differ at most in the case of ASCII letters. */
  lemma SameInAnyCaseIff(s: string, t: string)
    ensures LowerAscii(s) == LowerAscii(t) <==> |s| == |t| && forall i :: 0 <= i < |s| ==> SameLetter(s[i], t[i])
  {
    if |s| == |t| {
      forall i | 0 <= i < |s|
        ensures LowerAscii(s)[i] == LowerAscii(t)[i] <==> SameLetter(s[i], t[i])
      {
        LettersDiffer(s[i], t[i]);
      }
    } else {
      assert |LowerAscii(s)| != |LowerAscii(t)|;
    }
  }

  /** So a directive is known by its name in any case. */
  lemma DirectiveNames(token: string)
    ensures LowerAscii(token) == LowerAscii("SecRule") ==> SeclangKeyword(token).RuleKeyword?
    ensures LowerAscii(token) == LowerAscii("SecDefaultAction") ==> SeclangKeyword(token).DefaultKeyword?
    ensures LowerAscii(token) == LowerAscii("SecRuleRemoveById") ==> SeclangKeyword(token).RemovalKeyword?
  {
    assert LowerAscii("SecRule") == "secrule";
    assert LowerAscii("SecDefaultAction") == "secdefaultaction";
    assert LowerAscii("SecRuleRemoveById") == "secruleremovebyid";
  }
}
