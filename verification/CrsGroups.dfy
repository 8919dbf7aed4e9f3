/** What the parser does to the directives of a source: it loses none and invents none. */
module CrsGroups {
  import opened Seqs
  import opened CrsAst
  import opened CrsLexer
  import opened CrsParse
  import CrsEngine

  type Group = seq<DirectiveLine>

  /** The head-and-chain groups, in order. */
  function Groups(dirs: seq<DirectiveLine>, g: Grammar): seq<Group>
    decreases |dirs|
  {
    if dirs == [] then []
    else if IsRule(dirs[0], g) then [dirs[..GroupLen(dirs, g)]] + Groups(dirs[GroupLen(dirs, g)..], g)
    else Groups(dirs[1..], g)
  }

  function Flatten(groups: seq<Group>): seq<DirectiveLine>
  {
    if groups == [] then [] else groups[0] + Flatten(groups[1..])
  }

  function RuleLines(dirs: seq<DirectiveLine>, g: Grammar): seq<DirectiveLine>
  {
    if dirs == [] then []
    else (if IsRule(dirs[0], g) then [dirs[0]] else []) + RuleLines(dirs[1..], g)
  }

  lemma {:induction false} RuleLinesConcat(a: seq<DirectiveLine>, b: seq<DirectiveLine>, g: Grammar)
    ensures RuleLines(a + b, g) == RuleLines(a, g) + RuleLines(b, g)
    decreases |a|
  {
    if a == [] {
      assert a + b == b;
    } else {
      RuleLinesConcat(a[1..], b, g);
      assert (a + b)[1..] == a[1..] + b;
      Assoc(if IsRule(a[0], g) then [a[0]] else [], RuleLines(a[1..], g), RuleLines(b, g));
    }
  }

  lemma {:induction false} OnlyRules(a: seq<DirectiveLine>, g: Grammar)
    requires forall i :: 0 <= i < |a| ==> IsRule(a[i], g)
    ensures RuleLines(a, g) == a
    decreases |a|
  {
    if a != [] { OnlyRules(a[1..], g); }
  }

  /** A head, then rules each asked for by the one before it; the last asks for none, or none follows. */
  ghost predicate WellChained(group: Group, g: Grammar)
  {
    && group != []
    && (forall i :: 0 <= i < |group| ==> IsRule(group[i], g))
    && (forall i :: 0 <= i < |group| - 1 ==> Chained(group[i], g))
  }

  lemma {:induction false} GroupIsChained(dirs: seq<DirectiveLine>, g: Grammar)
    requires dirs != [] && IsRule(dirs[0], g)
    ensures var n := GroupLen(dirs, g);
            WellChained(dirs[..n], g) && (n < |dirs| && IsRule(dirs[n], g) ==> !Chained(dirs[n - 1], g))
    decreases |dirs|
  {
    if Chained(dirs[0], g) && |dirs| > 1 && IsRule(dirs[1], g) {
      GroupIsChained(dirs[1..], g);
      var n := GroupLen(dirs, g);
      FirstAndTail(dirs, n);
      HeadJoins(dirs[0], dirs[1..][..n - 1], g);
    }
  }

  lemma FirstAndTail(dirs: seq<DirectiveLine>, n: nat)
    requires 2 <= n <= |dirs|
    ensures dirs[..n] == [dirs[0]] + dirs[1..][..n - 1] && dirs[1..][n - 2] == dirs[n - 1]
    ensures n < |dirs| ==> dirs[1..][n - 1] == dirs[n]
  {
  }

  lemma HeadJoins(head: DirectiveLine, tail: Group, g: Grammar)
    requires IsRule(head, g) && Chained(head, g) && WellChained(tail, g)
    ensures WellChained([head] + tail, g)
  {
    assert forall i :: 1 <= i < |tail| + 1 ==> ([head] + tail)[i] == tail[i - 1];
  }

  lemma FlattenCons(first: Group, more: seq<Group>)
    ensures Flatten([first] + more) == first + Flatten(more)
  {
    assert ([first] + more)[1..] == more;
  }

  lemma RulesFirst(dirs: seq<DirectiveLine>, n: nat, g: Grammar)
    requires n <= |dirs| && forall i :: 0 <= i < n ==> IsRule(dirs[..n][i], g)
    ensures RuleLines(dirs, g) == dirs[..n] + RuleLines(dirs[n..], g)
  {
    RuleLinesConcat(dirs[..n], dirs[n..], g);
    OnlyRules(dirs[..n], g);
    assert dirs == dirs[..n] + dirs[n..];
  }

  /** The groups are exactly the rule directives, all of them, in order, cut where chains end. */
  lemma {:induction false} GroupsPartitionRules(dirs: seq<DirectiveLine>, g: Grammar)
    ensures Flatten(Groups(dirs, g)) == RuleLines(dirs, g)
    ensures forall i :: 0 <= i < |Groups(dirs, g)| ==> WellChained(Groups(dirs, g)[i], g)
    decreases |dirs|
  {
    if dirs != [] {
      if IsRule(dirs[0], g) {
        var n := GroupLen(dirs, g);
        GroupIsChained(dirs, g);
        GroupsPartitionRules(dirs[n..], g);
        RulesFirst(dirs, n, g);
        FlattenCons(dirs[..n], Groups(dirs[n..], g));
      } else {
        GroupsPartitionRules(dirs[1..], g);
        assert [] + RuleLines(dirs[1..], g) == RuleLines(dirs[1..], g);
      }
    }
  }

  /** Every group yields exactly one rule or one skip. */
  lemma {:induction false} OneOutcomePerGroup(dirs: seq<DirectiveLine>, df: Defaults, g: Grammar)
    ensures |Collected(dirs, df, g).rules| + |Collected(dirs, df, g).skipped| == |Groups(dirs, g)|
    decreases |dirs|
  {
    if dirs != [] {
      if IsRule(dirs[0], g) {
        OneOutcomePerGroup(dirs[GroupLen(dirs, g)..], df, g);
      } else {
        OneOutcomePerGroup(dirs[1..], if IsDefault(dirs[0], g) then Updated(df, dirs[0], g) else df, g);
      }
    }
  }

  // ---- the units of a rule ----

  ghost predicate UnitMatches(u: MatchUnit, d: DirectiveLine, base: seq<Transform>, g: Grammar)
  {
    var p := SecRule(d, g);
    && p.Parts? && p.actions.blocking == None
    && u.variables == p.variables && u.operator == p.operator && u.negated == p.negated
    && u.transforms == Resolved(base, p.actions.transforms)
    && UnitProblem(u) == None
  }

  lemma {:induction false} UnitsMatch(group: Group, base: seq<Transform>, g: Grammar)
    requires UnitsOf(group, base, g).Units?
    ensures var us := UnitsOf(group, base, g).units;
            forall i :: 0 <= i < |group| ==> UnitMatches(us[i], group[i], if i == 0 then base else [], g)
    decreases |group|
  {
    if group != [] {
      UnitsMatch(group[1..], [], g);
      var us, more := UnitsOf(group, base, g).units, UnitsOf(group[1..], [], g).units;
      assert us == [us[0]] + more;
      forall i | 1 <= i < |group|
        ensures UnitMatches(us[i], group[i], [], g)
      {
        assert UnitMatches(more[i - 1], group[1..][i - 1], [], g);
      }
    }
  }

  /** A kept rule has one unit per directive of its group, in order, each with that directive's own
      variables and operator; only the head starts from the default transforms, and no unit needs
      anything outside the supported subset. */
  lemma KeptRuleIsItsGroup(group: Group, df: Defaults, g: Grammar)
    requires group != [] && Assembled(group, df, g).Kept?
    ensures var r := Assembled(group, df, g).rule;
            && |r.chain| + 1 == |group| && r.lineNo == group[0].lineNo
            && Some(r.id) == SecRule(group[0], g).actions.id
            && UnitMatches(r.head, group[0], df.transforms, g)
            && forall i :: 1 <= i < |group| ==> UnitMatches(r.chain[i - 1], group[i], [], g)
  {
    UnitsMatch(group, df.transforms, g);
    var us := UnitsOf(group, df.transforms, g).units;
    assert forall i :: 1 <= i < |group| ==> us[1..][i - 1] == us[i];
  }

  // ---- transforms ----

  lemma {:induction false} TailHasNoNone(own: seq<Transform>)
    ensures NoTransform !in AfterLastNone(own) && |AfterLastNone(own)| <= |own|
    ensures NoTransform !in own ==> AfterLastNone(own) == own
    decreases |own|
  {
    if own != [] && !own[|own| - 1].NoTransform? {
      TailHasNoNone(own[..|own| - 1]);
      assert own == own[..|own| - 1] + [own[|own| - 1]];
    }
  }

  lemma {:induction false} LastNone(own: seq<Transform>) returns (before: seq<Transform>)
    requires NoTransform in own
    ensures own == before + [NoTransform] + AfterLastNone(own)
    decreases |own|
  {
    var init, last := own[..|own| - 1], own[|own| - 1];
    assert own == init + [last];
    if last.NoTransform? {
      before := init;
      assert init + [NoTransform] + [] == own;
    } else {
      before := LastNone(init);
      Assoc(before + [NoTransform], AfterLastNone(init), [last]);
    }
  }

  /** The transform list of a link is what follows its last `t:none`, or the defaults followed by
      its own list when there is none; either way no reset marker is left in it. */
  lemma TransformsAreAfterLastNone(base: seq<Transform>, own: seq<Transform>) returns (before: seq<Transform>)
    requires NoTransform !in base
    ensures NoTransform !in Resolved(base, own)
    ensures if NoTransform in own then own == before + [NoTransform] + Resolved(base, own)
            else Resolved(base, own) == base + own
  {
    TailHasNoNone(own);
    before := [];
    if NoTransform in own { before := LastNone(own); }
  }

  // ---- removal ----

  lemma {:induction false} WithoutIs(rules: seq<CrsRule>, removed: nat -> bool)
    ensures var r := Without(rules, removed);
            && |r| <= |rules|
            && (forall x :: x in r <==> x in rules && !removed(x.id))
    decreases |rules|
  {
    if rules != [] { WithoutIs(rules[1..], removed); }
  }

  /** Whether the next directive would be drawn into a group that is still open at the end. */
  predicate OpenAt(a: seq<DirectiveLine>, next: DirectiveLine, g: Grammar)
  {
    a != [] && IsRule(a[|a| - 1], g) && Chained(a[|a| - 1], g) && IsRule(next, g)
  }

  lemma {:induction false} GroupLenStops(a: seq<DirectiveLine>, b: seq<DirectiveLine>, g: Grammar)
    requires a != [] && (b != [] ==> !OpenAt(a, b[0], g)) && IsRule(a[0], g)
    ensures GroupLen(a + b, g) == GroupLen(a, g)
    decreases |a|
  {
    var whole := a + b;
    assert whole[1..] == a[1..] + b;
    if Chained(a[0], g) && |a| > 1 && IsRule(a[1], g) {
      assert a[1..][|a| - 2] == a[|a| - 1];
      GroupLenStops(a[1..], b, g);
    } else if |a| == 1 && b != [] {
      assert whole[1] == b[0];
    }
  }

  function DefaultsAfter(dirs: seq<DirectiveLine>, df: Defaults, g: Grammar): Defaults
  {
    if dirs == [] then df
    else
      DefaultsAfter(dirs[1..],
                    if !IsRule(dirs[0], g) && IsDefault(dirs[0], g) then Updated(df, dirs[0], g) else df, g)
  }

  lemma {:induction false} RulesKeepDefaults(a: seq<DirectiveLine>, n: nat, df: Defaults, g: Grammar)
    requires n <= |a| && forall i :: 0 <= i < n ==> IsRule(a[i], g)
    ensures DefaultsAfter(a, df, g) == DefaultsAfter(a[n..], df, g)
    decreases n
  {
    if n > 0 {
      RulesKeepDefaults(a[1..], n - 1, df, g);
      assert a[1..][n - 1..] == a[n..];
    } else {
      assert a[0..] == a;
    }
  }

  /** Where no chain is open, a source is its parts one after the other. */
  lemma {:induction false} CollectedConcat(a: seq<DirectiveLine>, b: seq<DirectiveLine>, df: Defaults, g: Grammar)
    requires b != [] ==> !OpenAt(a, b[0], g)
    ensures Collected(a + b, df, g) == Appended(Collected(a, df, g), Collected(b, DefaultsAfter(a, df, g), g))
    decreases |a|
  {
    if a == [] {
      assert a + b == b;
      assert Appended(Ruleset([], []), Collected(b, df, g)) == Collected(b, df, g);
    } else {
      var n := if IsRule(a[0], g) then GroupLen(a, g) else 1;
      var next := if !IsRule(a[0], g) && IsDefault(a[0], g) then Updated(df, a[0], g) else df;
      OpenInTail(a, n, b, g);
      CollectedConcat(a[n..], b, next, g);
      if IsRule(a[0], g) {
        ConcatAfterGroup(a, b, df, g);
      } else {
        assert (a + b)[1..] == a[1..] + b;
      }
    }
  }

  lemma ConcatAfterGroup(a: seq<DirectiveLine>, b: seq<DirectiveLine>, df: Defaults, g: Grammar)
    requires a != [] && IsRule(a[0], g) && (b != [] ==> !OpenAt(a, b[0], g))
    requires var rest := a[GroupLen(a, g)..];
      Collected(rest + b, df, g) == Appended(Collected(rest, df, g), Collected(b, DefaultsAfter(rest, df, g), g))
    ensures Collected(a + b, df, g) == Appended(Collected(a, df, g), Collected(b, DefaultsAfter(a, df, g), g))
  {
    var group, rest := a[..GroupLen(a, g)], a[GroupLen(a, g)..];
    GroupBoundary(a, b, group, rest, g);
    CollectedHead(a, df, g, group, rest);
    CollectedHead(a + b, df, g, group, rest + b);
    HeadThenRest(Assembled(group, df, g), Collected(rest, df, g), Collected(b, DefaultsAfter(rest, df, g), g),
                 Collected(rest + b, df, g), Collected(a, df, g), Collected(a + b, df, g));
    GroupIsRules(a, g);
    RulesKeepDefaults(a, GroupLen(a, g), df, g);
  }

  lemma GroupBoundary(a: seq<DirectiveLine>, b: seq<DirectiveLine>, group: Group, rest: seq<DirectiveLine>, g: Grammar)
    requires a != [] && IsRule(a[0], g) && (b != [] ==> !OpenAt(a, b[0], g))
    requires group == a[..GroupLen(a, g)] && rest == a[GroupLen(a, g)..]
    ensures group == (a + b)[..GroupLen(a + b, g)] && rest + b == (a + b)[GroupLen(a + b, g)..]
  {
    GroupLenStops(a, b, g);
    SlicesOfConcat(a, b, GroupLen(a, g));
  }

  lemma SlicesOfConcat(a: seq<DirectiveLine>, b: seq<DirectiveLine>, n: nat)
    requires n <= |a|
    ensures (a + b)[..n] == a[..n] && (a + b)[n..] == a[n..] + b
  {
  }

  lemma {:induction false} GroupIsRules(dirs: seq<DirectiveLine>, g: Grammar)
    requires dirs != [] && IsRule(dirs[0], g)
    ensures forall i :: 0 <= i < GroupLen(dirs, g) ==> IsRule(dirs[i], g)
    decreases |dirs|
  {
    if Chained(dirs[0], g) && |dirs| > 1 && IsRule(dirs[1], g) {
      GroupIsRules(dirs[1..], g);
      assert forall i :: 1 <= i < GroupLen(dirs, g) ==> dirs[1..][i - 1] == dirs[i];
    }
  }

  lemma HeadThenRest(o: Outcome, rest: Ruleset, more: Ruleset, restAll: Ruleset, first: Ruleset, all: Ruleset)
    requires restAll == Appended(rest, more) && first == Prepended(o, rest) && all == Prepended(o, restAll)
    ensures all == Appended(first, more)
  {
    PrependedAppended(o, rest, more);
  }

  lemma OpenInTail(a: seq<DirectiveLine>, n: nat, b: seq<DirectiveLine>, g: Grammar)
    requires n <= |a| && b != [] ==> !OpenAt(a, b[0], g)
    requires n <= |a|
    ensures b != [] ==> !OpenAt(a[n..], b[0], g)
  {
    if n < |a| { assert a[n..][|a| - n - 1] == a[|a| - 1]; }
  }

  lemma PrependedAppended(o: Outcome, a: Ruleset, b: Ruleset)
    ensures Appended(Prepended(o, a), b) == Prepended(o, Appended(a, b))
  {
    match o
    case Kept(rule) => Assoc([rule], a.rules, b.rules);
    case Dropped(skip) => Assoc([skip], a.skipped, b.skipped);
  }

  /** The groups of two parts read together: those of the one and of the other, but for the two that
      an open chain joins. */
  function Joined(first: seq<Group>, second: seq<Group>): seq<Group>
    requires first != [] && second != []
  {
    var last := |first| - 1;
    first[..last] + [first[last] + second[0]] + second[1..]
  }

  lemma {:induction false} GroupLenInside(a: seq<DirectiveLine>, b: seq<DirectiveLine>, g: Grammar)
    requires a != []
    ensures GroupLen(a, g) < |a| ==> GroupLen(a + b, g) == GroupLen(a, g)
    decreases |a|
  {
    assert (a + b)[1..] == a[1..] + b;
    if Chained(a[0], g) && |a| > 1 && IsRule(a[1], g) { GroupLenInside(a[1..], b, g); }
  }

  lemma {:induction false} GroupLenJoins(a: seq<DirectiveLine>, b: seq<DirectiveLine>, g: Grammar)
    requires a != [] && b != [] && OpenAt(a, b[0], g) && GroupLen(a, g) == |a|
    ensures GroupLen(a + b, g) == |a| + GroupLen(b, g)
    decreases |a|
  {
    assert (a + b)[1..] == a[1..] + b;
    if |a| > 1 {
      assert a[1..][|a| - 2] == a[|a| - 1];
      GroupLenJoins(a[1..], b, g);
    } else {
      assert a[1..] + b == b;
    }
  }

  lemma JoinedLater(first: Group, more: seq<Group>, second: seq<Group>)
    requires more != [] && second != []
    ensures Joined([first] + more, second) == [first] + Joined(more, second)
  {
    assert ([first] + more)[..|more|] == [first] + more[..|more| - 1];
  }

  /** An open chain draws the first group of what follows into its own, and nothing else changes. */
  lemma {:induction false} OpenChainJoins(a: seq<DirectiveLine>, b: seq<DirectiveLine>, g: Grammar)
    requires b != [] && OpenAt(a, b[0], g)
    ensures Groups(a, g) != [] && Groups(b, g) != []
    ensures Groups(a + b, g) == Joined(Groups(a, g), Groups(b, g))
    decreases |a|
  {
    var n := if IsRule(a[0], g) then GroupLen(a, g) else 1;
    SlicesOfConcat(a, b, n);
    if n < |a| {
      assert a[n..][|a| - n - 1] == a[|a| - 1];
      OpenChainJoins(a[n..], b, g);
      if IsRule(a[0], g) {
        GroupLenInside(a, b, g);
        JoinedLater(a[..n], Groups(a[n..], g), Groups(b, g));
      }
    } else {
      GroupLenJoins(a, b, g);
      OneGroupJoins(a, b, GroupLen(b, g), g);
    }
  }

  lemma OneGroupJoins(a: seq<DirectiveLine>, b: seq<DirectiveLine>, m: nat, g: Grammar)
    requires a != [] && b != [] && IsRule(a[0], g) && IsRule(b[0], g)
    requires GroupLen(a, g) == |a| && m == GroupLen(b, g) && GroupLen(a + b, g) == |a| + m
    ensures Groups(a, g) == [a] && Groups(b, g) != []
    ensures Groups(a + b, g) == Joined(Groups(a, g), Groups(b, g))
  {
    GroupsHead(a, |a|, g);
    GroupsHead(b, m, g);
    GroupsHead(a + b, |a| + m, g);
    WholeAndMore(a, b, m);
    JoinedSingle(a, b[..m], Groups(b[m..], g));
  }

  lemma JoinedSingle(one: Group, first: Group, more: seq<Group>)
    ensures [one] + [] == [one] && Joined([one], [first] + more) == [one + first] + more
  {
  }

  lemma WholeAndMore(a: seq<DirectiveLine>, b: seq<DirectiveLine>, m: nat)
    requires m <= |b|
    ensures a[..|a|] == a && a[|a|..] == []
    ensures (a + b)[..|a| + m] == a + b[..m] && (a + b)[|a| + m..] == b[m..]
  {
  }

  /** Where no chain is open the groups are those of the two parts. */
  lemma {:induction false} GroupsConcat(a: seq<DirectiveLine>, b: seq<DirectiveLine>, g: Grammar)
    requires b != [] ==> !OpenAt(a, b[0], g)
    ensures Groups(a + b, g) == Groups(a, g) + Groups(b, g)
    decreases |a|
  {
    if a == [] {
      assert a + b == b;
    } else {
      var n := if IsRule(a[0], g) then GroupLen(a, g) else 1;
      OpenInTail(a, n, b, g);
      SlicesOfConcat(a, b, n);
      if IsRule(a[0], g) { GroupLenStops(a, b, g); }
      GroupsConcat(a[n..], b, g);
      GroupsHead(a, n, g);
      GroupsHead(a + b, n, g);
      Assoc(if IsRule(a[0], g) then [a[..n]] else [], Groups(a[n..], g), Groups(b, g));
    }
  }

  lemma GroupsHead(dirs: seq<DirectiveLine>, n: nat, g: Grammar)
    requires dirs != [] && n == if IsRule(dirs[0], g) then GroupLen(dirs, g) else 1
    ensures Groups(dirs, g) == (if IsRule(dirs[0], g) then [dirs[..n]] else []) + Groups(dirs[n..], g)
  {
  }

  /** Before the final filter a removal directive changes nothing, whatever surrounds it, exactly
      when it does not stand in an open chain. */
  lemma RemovalOnlyFiltersIff(a: seq<DirectiveLine>, removal: DirectiveLine, b: seq<DirectiveLine>, df: Defaults,
                              g: Grammar)
    requires IsRemoval(removal, g)
    ensures Collected(a + ([removal] + b), df, g) == Collected(a + b, df, g) <==> b == [] || !OpenAt(a, b[0], g)
  {
    assert ([removal] + b)[1..] == b;
    if b == [] || !OpenAt(a, b[0], g) {
      CollectedConcat(a, [removal] + b, df, g);
      CollectedConcat(a, b, df, g);
    } else {
      RemovalCutsOpenChain(a, removal, b, g);
      OneOutcomePerGroup(a + ([removal] + b), df, g);
      OneOutcomePerGroup(a + b, df, g);
    }
  }

  /** In an open chain it cuts, whatever surrounds it: the group of the chain ends at the removal, the
      rules that would have been chained to it form a group of their own, and so there is one group,
      and one rule or skip, more than without it. */
  lemma RemovalCutsOpenChain(a: seq<DirectiveLine>, removal: DirectiveLine, b: seq<DirectiveLine>, g: Grammar)
    requires IsRemoval(removal, g) && b != [] && OpenAt(a, b[0], g)
    ensures Groups(a + ([removal] + b), g) == Groups(a, g) + Groups(b, g)
    ensures Groups(a, g) != [] && Groups(b, g) != [] && Groups(a + b, g) == Joined(Groups(a, g), Groups(b, g))
    ensures |Groups(a + ([removal] + b), g)| == |Groups(a + b, g)| + 1
  {
    GroupsConcat(a, [removal] + b, g);
    assert ([removal] + b)[1..] == b;
    OpenChainJoins(a, b, g);
  }

  /** The rules that survive are those whose id no removal directive names, wherever it stands. */
  lemma ParsedRulesSurvive(dirs: seq<DirectiveLine>, g: Grammar)
    ensures forall r ::
              r in Parsed(dirs, g).rules <==> r in Collected(dirs, NO_DEFAULTS, g).rules && !RemovedBy(dirs, r.id, g)
    ensures Parsed(dirs, g).skipped == Collected(dirs, NO_DEFAULTS, g).skipped
    ensures |Parsed(dirs, g).rules| + |Parsed(dirs, g).skipped| <= |Groups(dirs, g)|
  {
    WithoutIs(Collected(dirs, NO_DEFAULTS, g).rules, RemovedIds(dirs, g));
    OneOutcomePerGroup(dirs, NO_DEFAULTS, g);
  }

  // ---- from the text to the evaluator ----

  function Lost(rules: seq<CrsRule>, removed: nat -> bool): nat
  {
    if rules == [] then 0 else (if removed(rules[0].id) then 1 else 0) + Lost(rules[1..], removed)
  }

  lemma {:induction false} KeptOrLost(rules: seq<CrsRule>, removed: nat -> bool)
    ensures |Without(rules, removed)| + Lost(rules, removed) == |rules|
    decreases |rules|
  {
    if rules != [] { KeptOrLost(rules[1..], removed); }
  }

  /** No rule of a source disappears silently: rules loaded by the evaluator, rules skipped by it,
      rules skipped by the parser and rules removed by id add up to the groups in the text. */
  lemma SourceIsAccountedFor(input: string, g: Grammar, re: CrsEngine.Regexes)
    ensures var dirs := Lexed(input);
            var p := Parsed(dirs, g);
            var lost := Lost(Collected(dirs, NO_DEFAULTS, g).rules, RemovedIds(dirs, g));
            |CrsEngine.AllCompiled(p.rules, re)| + |CrsEngine.AllFailed(p.rules, re)| + |p.skipped| + lost
              == |Groups(dirs, g)|
  {
    var dirs := Lexed(input);
    OneOutcomePerGroup(dirs, NO_DEFAULTS, g);
    KeptOrLost(Collected(dirs, NO_DEFAULTS, g).rules, RemovedIds(dirs, g));
    CrsEngine.EveryRuleIsAccountedFor(Parsed(dirs, g).rules, re);
  }
}
