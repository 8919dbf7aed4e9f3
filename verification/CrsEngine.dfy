/** Evaluation of imported rules: single positive `@rx` rules share buckets with one pattern set
    each, everything else runs rule by rule. */
module CrsEngine {
  import opened Seqs
  import opened Waf
  import opened CrsAst
  import Content

  /** The regular-expression library: which patterns compile alone, which pattern lists compile into
      one set, and what a compiled pattern matches. */
  datatype Regexes = Regexes(valid: string -> bool, setBuilds: seq<string> -> bool, rx: (string, string) -> bool)

  /** A request, as target extraction and transforms show it to the rules. */
  type Request = (seq<Variable>, seq<Transform>) -> seq<string>

  // ---- operators ----

  datatype Matcher =
    | RxMatcher(pattern: string)
    | PmMatcher(phrases: seq<string>)
    | ContainsMatcher(arg: string)
    | BeginsMatcher(arg: string)
    | EndsMatcher(arg: string)
    | WithinMatcher(arg: string)
    | EqMatcher(arg: string)

  datatype Compilation<+T> = Compiled(value: T) | Failed(reason: Reason)

  predicate Holds(s: string, part: string) { exists i :: 0 <= i <= |s| && HasAt(s, part, i) }

  function Compile(op: Operator, re: Regexes): Compilation<Matcher>
  {
    match op
    case Rx(pattern) => if re.valid(pattern) then Compiled(RxMatcher(pattern)) else Failed(InvalidRegex(pattern))
    case Pm(phrases) => Compiled(PmMatcher(seq(|phrases|, i requires 0 <= i < |phrases| => LowerAscii(phrases[i]))))
    case PmFromFile(_) => Failed(PhraseFileUnsupported)
    case ContainsOp(arg) => Compiled(ContainsMatcher(arg))
    case BeginsWith(arg) => Compiled(BeginsMatcher(arg))
    case EndsWithOp(arg) => Compiled(EndsMatcher(arg))
    case Within(arg) => Compiled(WithinMatcher(arg))
    case StrEq(arg) => Compiled(EqMatcher(arg))
    case UnsupportedOperator(name) => Failed(OperatorUnsupported(name))
  }

  predicate Matches(m: Matcher, value: string, re: Regexes)
  {
    match m
    case RxMatcher(pattern) => re.rx(pattern, value)
    case PmMatcher(phrases) => exists i :: 0 <= i < |phrases| && Holds(LowerAscii(value), phrases[i])
    case ContainsMatcher(arg) => Holds(value, arg)
    case BeginsMatcher(arg) => arg <= value
    case EndsMatcher(arg) => |arg| <= |value| && value[|value| - |arg|..] == arg
    case WithinMatcher(arg) => Holds(arg, value)
    case EqMatcher(arg) => value == arg
  }

  // ---- rule by rule ----

  datatype Link = Link(vars: seq<Variable>, transforms: seq<Transform>, matcher: Matcher, negated: bool)

  datatype Rule = Rule(id: nat, severity: Severity, links: seq<Link>)

  function CompileLinks(us: seq<MatchUnit>, re: Regexes): Compilation<seq<Link>>
  {
    if us == [] then Compiled([])
    else match Compile(us[0].operator, re)
      case Failed(reason) => Failed(reason)
      case Compiled(m) =>
        match CompileLinks(us[1..], re)
        case Failed(reason) => Failed(reason)
        case Compiled(more) => Compiled([Link(us[0].variables, us[0].transforms, m, us[0].negated)] + more)
  }

  function CompileRule(r: CrsRule, re: Regexes): Compilation<Rule>
  {
    match CompileLinks([r.head] + r.chain, re)
    case Failed(reason) => Failed(reason)
    case Compiled(links) => Compiled(Rule(r.id, r.severity, links))
  }

  predicate LinkMatches(l: Link, request: Request, re: Regexes)
  {
    var values := request(l.vars, l.transforms);
    l.negated != (exists k :: 0 <= k < |values| && Matches(l.matcher, values[k], re))
  }

  /** A rule fires when every link matches. */
  predicate Fires(r: Rule, request: Request, re: Regexes)
  {
    forall i :: 0 <= i < |r.links| ==> LinkMatches(r.links[i], request, re)
  }

  function Decimal(n: nat): string
  {
    if n < 10 then ['0' + n as char] else Decimal(n / 10) + ['0' + (n % 10) as char]
  }

  function ItemOf(r: Rule): ScoreItem { ScoreItem("crs-" + Decimal(r.id), r.severity) }

  /** What plain evaluation reports: an item for every rule that fires, in order. */
  function Naive(rules: seq<Rule>, request: Request, re: Regexes): seq<ScoreItem>
  {
    if rules == [] then []
    else (if Fires(rules[0], request, re) then [ItemOf(rules[0])] else []) + Naive(rules[1..], request, re)
  }

  function CompiledOf(r: CrsRule, re: Regexes): seq<Rule>
  {
    match CompileRule(r, re) case Compiled(c) => [c] case Failed(_) => []
  }

  function SkipOf(r: CrsRule, reason: Reason): SkippedRule { SkippedRule(Some(r.id), r.lineNo, reason) }

  function FailedOf(r: CrsRule, re: Regexes): seq<SkippedRule>
  {
    match CompileRule(r, re) case Compiled(_) => [] case Failed(reason) => [SkipOf(r, reason)]
  }

  /** The rules that compile, in order. */
  function AllCompiled(rules: seq<CrsRule>, re: Regexes): seq<Rule>
  {
    if rules == [] then [] else CompiledOf(rules[0], re) + AllCompiled(rules[1..], re)
  }

  /** And a skip for each of the others. */
  function AllFailed(rules: seq<CrsRule>, re: Regexes): seq<SkippedRule>
  {
    if rules == [] then [] else FailedOf(rules[0], re) + AllFailed(rules[1..], re)
  }

  method EvalCompiled(r: Rule, request: Request, re: Regexes) returns (fires: bool)
    ensures fires <==> Fires(r, request, re)
  {
    for i := 0 to |r.links|
      invariant forall j :: 0 <= j < i ==> LinkMatches(r.links[j], request, re)
    {
      var l := r.links[i];
      var values := request(l.vars, l.transforms);
      var any := exists k :: 0 <= k < |values| && Matches(l.matcher, values[k], re);
      var linkMatches := if l.negated then !any else any;
      if !linkMatches { return false; }
    }
    return true;
  }

  // ---- buckets ----

  /** Variables and transforms shared by the rules of a bucket. */
  type Key = (seq<Variable>, seq<Transform>)

  datatype Bucket = Bucket(patterns: seq<string>, ids: seq<nat>, severities: seq<Severity>)

  predicate Aligned(b: Bucket) { |b.ids| == |b.patterns| && |b.severities| == |b.patterns| }

  /** The rule that an entry of a bucket stands for. */
  function EntryRule(k: Key, b: Bucket, i: nat): Rule
    requires Aligned(b) && i < |b.patterns|
  {
    Rule(b.ids[i], b.severities[i], [Link(k.0, k.1, RxMatcher(b.patterns[i]), false)])
  }

  function BucketRules(k: Key, b: Bucket): (r: seq<Rule>)
    requires Aligned(b)
    ensures |r| == |b.patterns|
  {
    seq(|b.patterns|, i requires 0 <= i < |b.patterns| => EntryRule(k, b, i))
  }

  /** A positive single-link `@rx` rule goes to a bucket. */
  function FastPattern(r: CrsRule): Option<string>
  {
    if r.chain == [] && !r.head.negated && r.head.operator.Rx? then Some(r.head.operator.pattern) else None
  }

  datatype FastBucket = FastBucket(key: Key, bucket: Bucket)

  ghost predicate AllAligned(fast: seq<FastBucket>) { forall i :: 0 <= i < |fast| ==> Aligned(fast[i].bucket) }

  /** All rules that the evaluator holds: those of its buckets, then the slow ones. */
  ghost function FastRules(fast: seq<FastBucket>): seq<Rule>
    requires AllAligned(fast)
  {
    if fast == [] then [] else BucketRules(fast[0].key, fast[0].bucket) + FastRules(fast[1..])
  }

  lemma {:induction false} FastRulesSnoc(fast: seq<FastBucket>, b: FastBucket)
    requires AllAligned(fast) && Aligned(b.bucket)
    ensures AllAligned(fast + [b]) && FastRules(fast + [b]) == FastRules(fast) + BucketRules(b.key, b.bucket)
    decreases |fast|
  {
    if fast == [] {
      assert [b][1..] == [] && BucketRules(b.key, b.bucket) + [] == [] + BucketRules(b.key, b.bucket);
      assert fast + [b] == [b];
    } else {
      FastRulesSnoc(fast[1..], b);
      assert (fast + [b])[1..] == fast[1..] + [b];
      Assoc(BucketRules(fast[0].key, fast[0].bucket), FastRules(fast[1..]), BucketRules(b.key, b.bucket));
    }
  }

  // ---- filling the map ----

  /** `order` stands for the order in which the map is walked later. */
  ghost predicate Covers(m: map<Key, Bucket>, order: seq<Key>)
  {
    && (forall k :: k in m <==> k in order)
    && (forall i, j :: 0 <= i < j < |order| ==> order[i] != order[j])
    && (forall k :: k in m ==> Aligned(m[k]))
  }

  function MapRules(m: map<Key, Bucket>, order: seq<Key>): seq<Rule>
    requires forall i :: 0 <= i < |order| ==> order[i] in m && Aligned(m[order[i]])
  {
    if order == [] then [] else BucketRules(order[0], m[order[0]]) + MapRules(m, order[1..])
  }

  function Push(b: Bucket, pattern: string, id: nat, severity: Severity): Bucket
  {
    Bucket(b.patterns + [pattern], b.ids + [id], b.severities + [severity])
  }

  const NO_RULES := Bucket([], [], [])

  function Inserted(m: map<Key, Bucket>, k: Key, pattern: string, id: nat, severity: Severity): map<Key, Bucket>
  {
    m[k := Push(if k in m then m[k] else NO_RULES, pattern, id, severity)]
  }

  lemma {:induction false} UntouchedRules(m: map<Key, Bucket>, order: seq<Key>, k: Key, b: Bucket)
    requires (forall i :: 0 <= i < |order| ==> order[i] in m && Aligned(m[order[i]])) && k !in order
    ensures MapRules(m[k := b], order) == MapRules(m, order)
    decreases |order|
  {
    if order != [] { UntouchedRules(m, order[1..], k, b); }
  }

  lemma PushedRules(k: Key, b: Bucket, pattern: string, id: nat, severity: Severity)
    requires Aligned(b)
    ensures var r := Rule(id, severity, [Link(k.0, k.1, RxMatcher(pattern), false)]);
            Aligned(Push(b, pattern, id, severity))
              && BucketRules(k, Push(b, pattern, id, severity)) == BucketRules(k, b) + [r]
  {
  }

  /** Inserting an entry adds exactly its rule to those of the map. */
  lemma {:induction false} InsertedAt(m: map<Key, Bucket>, order: seq<Key>, k: Key, pattern: string, id: nat,
                                      severity: Severity)
    requires (forall i :: 0 <= i < |order| ==> order[i] in m && Aligned(m[order[i]])) && k in order
    requires forall i, j :: 0 <= i < j < |order| ==> order[i] != order[j]
    ensures var r := Rule(id, severity, [Link(k.0, k.1, RxMatcher(pattern), false)]);
            var m' := Inserted(m, k, pattern, id, severity);
            && (forall i :: 0 <= i < |order| ==> order[i] in m' && Aligned(m'[order[i]]))
            && multiset(MapRules(m', order)) == multiset(MapRules(m, order)) + multiset{r}
    decreases |order|
  {
    var m' := Inserted(m, k, pattern, id, severity);
    PushedRules(k, m[k], pattern, id, severity);
    if order[0] == k {
      assert k !in order[1..];
      UntouchedRules(m, order[1..], k, m'[k]);
    } else {
      InsertedAt(m, order[1..], k, pattern, id, severity);
    }
  }

  lemma {:induction false} MapRulesSnoc(m: map<Key, Bucket>, order: seq<Key>, k: Key)
    requires (forall i :: 0 <= i < |order| ==> order[i] in m && Aligned(m[order[i]])) && k in m && Aligned(m[k])
    ensures MapRules(m, order + [k]) == MapRules(m, order) + BucketRules(k, m[k])
    decreases |order|
  {
    if order == [] {
      assert [k][1..] == [] && order + [k] == [k];
      assert BucketRules(k, m[k]) + [] == [] + BucketRules(k, m[k]);
    } else {
      MapRulesSnoc(m, order[1..], k);
      assert (order + [k])[1..] == order[1..] + [k];
      Assoc(BucketRules(order[0], m[order[0]]), MapRules(m, order[1..]), BucketRules(k, m[k]));
    }
  }

  lemma OpenedRules(m: map<Key, Bucket>, order: seq<Key>, k: Key)
    requires Covers(m, order) && k !in m
    ensures Covers(m[k := NO_RULES], order + [k])
    ensures MapRules(m[k := NO_RULES], order + [k]) == MapRules(m, order)
  {
    UntouchedRules(m, order, k, NO_RULES);
    MapRulesSnoc(m[k := NO_RULES], order, k);
    assert BucketRules(k, NO_RULES) == [];
  }

  lemma InsertedCovers(m: map<Key, Bucket>, order: seq<Key>, k: Key, pattern: string, id: nat, severity: Severity)
    requires Covers(m, order) && k in m
    ensures Covers(Inserted(m, k, pattern, id, severity), order)
  {
  }

  /** Every pattern in a bucket has been compiled on its own. */
  ghost predicate Validated(m: map<Key, Bucket>, re: Regexes)
  {
    forall k, i :: k in m && 0 <= i < |m[k].patterns| ==> re.valid(m[k].patterns[i])
  }

  /** An entry goes to its key's bucket, which is opened at the end of the order if it is new. */
  method Insert(m: map<Key, Bucket>, order: seq<Key>, k: Key, pattern: string, id: nat, severity: Severity,
                ghost re: Regexes)
    returns (m': map<Key, Bucket>, order': seq<Key>)
    requires Covers(m, order) && Validated(m, re) && re.valid(pattern)
    ensures Covers(m', order') && Validated(m', re)
    ensures multiset(MapRules(m', order'))
      == multiset(MapRules(m, order)) + multiset{Rule(id, severity, [Link(k.0, k.1, RxMatcher(pattern), false)])}
  {
    m', order' := OpenBucket(m, order, k, re);
    InsertedAt(m', order', k, pattern, id, severity);
    InsertedCovers(m', order', k, pattern, id, severity);
    InsertedValidates(m', k, pattern, id, severity, re);
    var b := m'[k];
    m' := m'[k := Bucket(b.patterns + [pattern], b.ids + [id], b.severities + [severity])];
  }

  lemma InsertedValidates(m: map<Key, Bucket>, k: Key, pattern: string, id: nat, severity: Severity, re: Regexes)
    requires k in m && Aligned(m[k]) && Validated(m, re) && re.valid(pattern)
    ensures Validated(Inserted(m, k, pattern, id, severity), re)
  {
  }

  method OpenBucket(m: map<Key, Bucket>, order: seq<Key>, k: Key, ghost re: Regexes)
    returns (m': map<Key, Bucket>, order': seq<Key>)
    requires Covers(m, order) && Validated(m, re)
    ensures Covers(m', order') && Validated(m', re) && k in m'
    ensures MapRules(m', order') == MapRules(m, order)
  {
    m', order' := m, order;
    if k !in m {
      OpenedRules(m, order, k);
      m', order' := m[k := NO_RULES], order + [k];
    }
  }

  // ---- compiling a rule set ----

  class CrsModule {
    var fast: seq<FastBucket>
    var slow: seq<Rule>
    var skipped: seq<SkippedRule>
    var loaded: nat

    ghost predicate Valid()
      reads this
    {
      AllAligned(fast)
    }

    /** The rules held, bucketed or not. */
    ghost function Rules(): seq<Rule>
      requires Valid()
      reads this
    {
      FastRules(fast) + slow
    }

    /** Compile a parsed rule set: whichever pattern sets fail to build, the rules held are exactly
        those that compile one by one; and every rule is either loaded or skipped. */
    constructor (parsed: Ruleset, re: Regexes)
      ensures Valid()
      ensures multiset(Rules()) == multiset(AllCompiled(parsed.rules, re))
      ensures skipped == parsed.skipped + AllFailed(parsed.rules, re)
      ensures loaded == |AllCompiled(parsed.rules, re)|
    {
      var buckets, rules, skips, count := FromParsed(parsed, re);
      fast, slow, skipped, loaded := buckets, rules, skips, count;
    }

    /** One pass of the patterns over the values, then the slow rules. */
    method Inspect(request: Request, re: Regexes) returns (d: Decision)
      requires Valid()
      ensures d == if Naive(Rules(), request, re) == [] then Allow else Scores(Naive(Rules(), request, re))
    {
      var items: seq<ScoreItem> := [];
      for i := 0 to |fast|
        invariant items + Naive(FastRules(fast[i..]), request, re) == Naive(FastRules(fast), request, re)
      {
        assert fast[i..][1..] == fast[i + 1..];
        var b := fast[i];
        NaiveConcat(BucketRules(b.key, b.bucket), FastRules(fast[i + 1..]), request, re);
        Assoc(items, Naive(BucketRules(b.key, b.bucket), request, re), Naive(FastRules(fast[i + 1..]), request, re));
        items := InspectBucket(b, request, re, items);
      }
      assert items + [] == items;
      NaiveConcat(FastRules(fast), slow, request, re);
      items := InspectSlow(slow, request, re, items);
      d := if items == [] then Allow else Scores(items);
    }
  }

  method FromParsed(parsed: Ruleset, re: Regexes)
    returns (fast: seq<FastBucket>, slow: seq<Rule>, skipped: seq<SkippedRule>, loaded: nat)
    ensures AllAligned(fast) && multiset(FastRules(fast) + slow) == multiset(AllCompiled(parsed.rules, re))
    ensures skipped == parsed.skipped + AllFailed(parsed.rules, re)
    ensures loaded == |AllCompiled(parsed.rules, re)|
  {
    var m, order, slowRules;
    m, order, slowRules, skipped, loaded := Group(parsed, re);
    var degraded;
    fast, degraded := BuildSets(m, order, re);
    slow := slowRules + degraded;
    SumOfParts(FastRules(fast), degraded, slowRules, MapRules(m, order), AllCompiled(parsed.rules, re));
  }

  /** First loop: every rule goes to a bucket, to the slow list or to the skipped ones. */
  method Group(parsed: Ruleset, re: Regexes)
    returns (m: map<Key, Bucket>, order: seq<Key>, slow: seq<Rule>, skipped: seq<SkippedRule>, loaded: nat)
    ensures Covers(m, order) && Validated(m, re)
    ensures multiset(MapRules(m, order)) + multiset(slow) == multiset(AllCompiled(parsed.rules, re))
    ensures skipped == parsed.skipped + AllFailed(parsed.rules, re)
    ensures loaded == |AllCompiled(parsed.rules, re)|
  {
    m, order, slow, skipped, loaded := map[], [], [], parsed.skipped, 0;
    var rules := parsed.rules;
    assert rules[..0] == [] && parsed.skipped + [] == parsed.skipped;
    for i := 0 to |rules|
      invariant Covers(m, order) && Validated(m, re)
      invariant Placed(MapRules(m, order), slow, skipped, loaded, parsed.skipped, rules[..i], re)
    {
      ghost var bucketed, before, skips, count := MapRules(m, order), slow, skipped, loaded;
      m, order, slow, skipped, loaded := PlaceRule(rules[i], re, m, order, slow, skipped, loaded);
      OneMorePlaced(bucketed, before, skips, count, MapRules(m, order), slow, skipped, loaded, parsed.skipped,
                    rules, i, re);
    }
    assert rules[..|rules|] == rules;
  }

  /** The rules given so far, each in its place. */
  ghost predicate Placed(bucketed: seq<Rule>, slow: seq<Rule>, skipped: seq<SkippedRule>, loaded: nat,
                         given: seq<SkippedRule>, rules: seq<CrsRule>, re: Regexes)
  {
    && multiset(bucketed) + multiset(slow) == multiset(AllCompiled(rules, re))
    && skipped == given + AllFailed(rules, re)
    && loaded == |AllCompiled(rules, re)|
  }

  /** What one rule adds. */
  ghost predicate Adds(r: CrsRule, re: Regexes, bucketed: seq<Rule>, slow: seq<Rule>, skipped: seq<SkippedRule>,
                       loaded: nat, bucketed': seq<Rule>, slow': seq<Rule>, skipped': seq<SkippedRule>, loaded': nat)
  {
    match CompileRule(r, re)
    case Compiled(c) =>
      && multiset(bucketed') + multiset(slow') == multiset(bucketed) + multiset(slow) + multiset{c}
      && skipped' == skipped && loaded' == loaded + 1
    case Failed(reason) =>
      && multiset(bucketed') + multiset(slow') == multiset(bucketed) + multiset(slow)
      && skipped' == skipped + [SkipOf(r, reason)] && loaded' == loaded
  }

  lemma OneMorePlaced(bucketed: seq<Rule>, slow: seq<Rule>, skipped: seq<SkippedRule>, loaded: nat,
                      bucketed': seq<Rule>, slow': seq<Rule>, skipped': seq<SkippedRule>, loaded': nat,
                      given: seq<SkippedRule>, rules: seq<CrsRule>, i: nat, re: Regexes)
    requires i < |rules| && Placed(bucketed, slow, skipped, loaded, given, rules[..i], re)
    requires Adds(rules[i], re, bucketed, slow, skipped, loaded, bucketed', slow', skipped', loaded')
    ensures Placed(bucketed', slow', skipped', loaded', given, rules[..i + 1], re)
  {
    OneMoreRule(rules, i, re);
    match CompileRule(rules[i], re)
    case Compiled(_) =>
    case Failed(reason) => Assoc(given, AllFailed(rules[..i], re), [SkipOf(rules[i], reason)]);
  }

  /** A rule goes to its bucket or the slow list if it compiles, and to the skipped ones if not. */
  method PlaceRule(r: CrsRule, re: Regexes, m: map<Key, Bucket>, order: seq<Key>, slow: seq<Rule>,
                   skipped: seq<SkippedRule>, loaded: nat)
    returns (m': map<Key, Bucket>, order': seq<Key>, slow': seq<Rule>, skipped': seq<SkippedRule>, loaded': nat)
    requires Covers(m, order) && Validated(m, re)
    ensures Covers(m', order') && Validated(m', re)
    ensures Adds(r, re, MapRules(m, order), slow, skipped, loaded, MapRules(m', order'), slow', skipped', loaded')
  {
    m', order', slow', skipped', loaded' := m, order, slow, skipped, loaded;
    var pattern := FastPattern(r);
    if pattern.Some? {
      FastRuleCompiles(r, re);
      if !re.valid(pattern.value) {
        skipped' := skipped + [SkippedRule(Some(r.id), r.lineNo, InvalidRegex(pattern.value))];
      } else {
        m', order' := Insert(m, order, (r.head.variables, r.head.transforms), pattern.value, r.id, r.severity, re);
        loaded' := loaded + 1;
      }
    } else {
      match CompileRule(r, re)
      case Compiled(c) =>
        slow', loaded' := slow + [c], loaded + 1;
      case Failed(reason) =>
        skipped' := skipped + [SkippedRule(Some(r.id), r.lineNo, reason)];
    }
  }

  lemma OneMoreRule(rules: seq<CrsRule>, i: nat, re: Regexes)
    requires i < |rules|
    ensures AllCompiled(rules[..i + 1], re) == AllCompiled(rules[..i], re) + CompiledOf(rules[i], re)
    ensures AllFailed(rules[..i + 1], re) == AllFailed(rules[..i], re) + FailedOf(rules[i], re)
  {
    assert rules[..i + 1] == rules[..i] + [rules[i]];
    CompiledSnoc(rules[..i], rules[i], re);
    FailedSnoc(rules[..i], rules[i], re);
  }

  lemma {:induction false} CompiledSnoc(a: seq<CrsRule>, r: CrsRule, re: Regexes)
    ensures AllCompiled(a + [r], re) == AllCompiled(a, re) + CompiledOf(r, re)
    decreases |a|
  {
    if a == [] {
      assert a + [r] == [r] && CompiledOf(r, re) + [] == [] + CompiledOf(r, re);
    } else {
      CompiledSnoc(a[1..], r, re);
      assert (a + [r])[1..] == a[1..] + [r];
      Assoc(CompiledOf(a[0], re), AllCompiled(a[1..], re), CompiledOf(r, re));
    }
  }

  lemma {:induction false} FailedSnoc(a: seq<CrsRule>, r: CrsRule, re: Regexes)
    ensures AllFailed(a + [r], re) == AllFailed(a, re) + FailedOf(r, re)
    decreases |a|
  {
    if a == [] {
      assert a + [r] == [r] && FailedOf(r, re) + [] == [] + FailedOf(r, re);
    } else {
      FailedSnoc(a[1..], r, re);
      assert (a + [r])[1..] == a[1..] + [r];
      Assoc(FailedOf(a[0], re), AllFailed(a[1..], re), FailedOf(r, re));
    }
  }

  /** Compiling a bucket rule is compiling its pattern. */
  lemma FastRuleCompiles(r: CrsRule, re: Regexes)
    requires FastPattern(r).Some?
    ensures var p := FastPattern(r).value;
            CompileRule(r, re) ==
              if re.valid(p) then
                Compiled(Rule(r.id, r.severity, [Link(r.head.variables, r.head.transforms, RxMatcher(p), false)]))
              else Failed(InvalidRegex(p))
  {
    var us := [r.head];
    assert us + r.chain == us && us[1..] == [] && CompileLinks(us[1..], re) == Compiled([]);
    if re.valid(r.head.operator.pattern) {
      var l := Link(r.head.variables, r.head.transforms, RxMatcher(r.head.operator.pattern), false);
      assert CompileLinks(us, re) == Compiled([l] + []) && [l] + [] == [l];
    }
  }

  /** Second loop: a set per bucket; a bucket whose set does not build goes to the slow rules. */
  method BuildSets(m: map<Key, Bucket>, order: seq<Key>, re: Regexes)
    returns (fast: seq<FastBucket>, degraded: seq<Rule>)
    requires Covers(m, order) && Validated(m, re)
    ensures AllAligned(fast)
    ensures multiset(FastRules(fast)) + multiset(degraded) == multiset(MapRules(m, order))
  {
    fast, degraded := [], [];
    assert order[..0] == [];
    for j := 0 to |order|
      invariant AllAligned(fast)
      invariant multiset(FastRules(fast)) + multiset(degraded) == multiset(MapRules(m, order[..j]))
    {
      var k := order[j];
      OneMoreBucket(m, order, j);
      fast, degraded := BuildSet(k, m[k], fast, degraded, re);
    }
    assert order[..|order|] == order;
  }

  lemma OneMoreBucket(m: map<Key, Bucket>, order: seq<Key>, j: nat)
    requires Covers(m, order) && j < |order|
    ensures order[j] in m && Aligned(m[order[j]])
    ensures forall i :: 0 <= i < j ==> order[i] in m && Aligned(m[order[i]])
    ensures MapRules(m, order[..j + 1]) == MapRules(m, order[..j]) + BucketRules(order[j], m[order[j]])
  {
    assert order[j] in order;
    assert forall i :: 0 <= i < j ==> order[i] in order;
    assert order[..j + 1] == order[..j] + [order[j]];
    MapRulesSnoc(m, order[..j], order[j]);
  }

  method BuildSet(k: Key, b: Bucket, fast: seq<FastBucket>, degraded: seq<Rule>, re: Regexes)
    returns (fast': seq<FastBucket>, degraded': seq<Rule>)
    requires AllAligned(fast) && Aligned(b) && forall i :: 0 <= i < |b.patterns| ==> re.valid(b.patterns[i])
    ensures AllAligned(fast')
    ensures multiset(FastRules(fast')) + multiset(degraded')
      == multiset(FastRules(fast)) + multiset(degraded) + multiset(BucketRules(k, b))
  {
    fast', degraded' := fast, degraded;
    if re.setBuilds(b.patterns) {
      FastRulesSnoc(fast, FastBucket(k, b));
      fast' := fast + [FastBucket(k, b)];
    } else {
      degraded' := Degrade(k, b, degraded, re);
    }
  }

  method Degrade(k: Key, b: Bucket, before: seq<Rule>, re: Regexes) returns (slow: seq<Rule>)
    requires Aligned(b) && forall i :: 0 <= i < |b.patterns| ==> re.valid(b.patterns[i])
    ensures slow == before + BucketRules(k, b)
  {
    slow := before;
    for i := 0 to |b.patterns|
      invariant slow == before + BucketRules(k, b)[..i]
    {
      if re.valid(b.patterns[i]) {
        slow := slow + [Rule(b.ids[i], b.severities[i], [Link(k.0, k.1, RxMatcher(b.patterns[i]), false)])];
      }
      assert BucketRules(k, b)[..i + 1] == BucketRules(k, b)[..i] + [BucketRules(k, b)[i]];
    }
    assert BucketRules(k, b)[..|b.patterns|] == BucketRules(k, b);
  }

  lemma SumOfParts(fast: seq<Rule>, degraded: seq<Rule>, slow: seq<Rule>, bucketed: seq<Rule>, all: seq<Rule>)
    requires multiset(fast) + multiset(degraded) == multiset(bucketed)
    requires multiset(bucketed) + multiset(slow) == multiset(all)
    ensures multiset(fast + (slow + degraded)) == multiset(all)
  {
    assert multiset(fast + (slow + degraded)) == multiset(fast) + (multiset(slow) + multiset(degraded));
  }

  // ---- evaluating ----

  lemma {:induction false} NaiveConcat(a: seq<Rule>, b: seq<Rule>, request: Request, re: Regexes)
    ensures Naive(a + b, request, re) == Naive(a, request, re) + Naive(b, request, re)
    decreases |a|
  {
    if a == [] {
      assert a + b == b;
    } else {
      NaiveConcat(a[1..], b, request, re);
      assert (a + b)[1..] == a[1..] + b;
      Assoc(if Fires(a[0], request, re) then [ItemOf(a[0])] else [], Naive(a[1..], request, re), Naive(b, request, re));
    }
  }

  /** An entry fires when its pattern matches some value of its bucket. */
  lemma EntryFires(k: Key, b: Bucket, i: nat, request: Request, re: Regexes)
    requires Aligned(b) && i < |b.patterns|
    ensures Fires(EntryRule(k, b, i), request, re) <==> Content.MatchesAny(b.patterns[i], request(k.0, k.1), re.rx)
  {
    var l := EntryRule(k, b, i).links[0];
    var values := request(k.0, k.1);
    assert LinkMatches(l, request, re) <==> exists n :: 0 <= n < |values| && Matches(l.matcher, values[n], re);
    if Content.MatchesAny(b.patterns[i], values, re.rx) {
      var n :| 0 <= n < |values| && re.rx(b.patterns[i], values[n]);
      assert Matches(l.matcher, values[n], re);
    }
  }

  method InspectBucket(f: FastBucket, request: Request, re: Regexes, before: seq<ScoreItem>)
    returns (items: seq<ScoreItem>)
    requires Aligned(f.bucket)
    ensures items == before + Naive(BucketRules(f.key, f.bucket), request, re)
  {
    items := before;
    var values := request(f.key.0, f.key.1);
    ghost var rules := BucketRules(f.key, f.bucket);
    var hit := SetHits(f.bucket.patterns, values, re);
    assert rules[..0] == [];
    for i := 0 to |f.bucket.ids|
      invariant forall j :: 0 <= j < |f.bucket.patterns| ==>
                  hit[j] == Content.MatchesAny(f.bucket.patterns[j], values, re.rx)
      invariant items == before + Naive(rules[..i], request, re)
    {
      assert rules[..i + 1] == rules[..i] + [rules[i]];
      NaiveConcat(rules[..i], [rules[i]], request, re);
      EntryFires(f.key, f.bucket, i, request, re);
      NaiveOne(rules[i], request, re);
      assert Naive(rules[..i], request, re) + [] == Naive(rules[..i], request, re);
      if hit[i] {
        Assoc(before, Naive(rules[..i], request, re), [ItemOf(rules[i])]);
        items := items + [ScoreItem("crs-" + Decimal(f.bucket.ids[i]), f.bucket.severities[i])];
      }
    }
    assert rules[..|rules|] == rules;
  }

  lemma NaiveOne(r: Rule, request: Request, re: Regexes)
    ensures Naive([r], request, re) == if Fires(r, request, re) then [ItemOf(r)] else []
  {
  }

  /** The set's matches over all values, in one array of flags. */
  method SetHits(patterns: seq<string>, values: seq<string>, re: Regexes) returns (hit: array<bool>)
    ensures fresh(hit) && hit.Length == |patterns|
    ensures forall i :: 0 <= i < |patterns| ==> hit[i] == Content.MatchesAny(patterns[i], values, re.rx)
  {
    hit := new bool[|patterns|](_ => false);
    for k := 0 to |values|
      invariant forall i :: 0 <= i < |patterns| ==> hit[i] == Content.MatchesAny(patterns[i], values[..k], re.rx)
    {
      for i := 0 to |patterns|
        invariant forall j :: 0 <= j < i ==> hit[j] == Content.MatchesAny(patterns[j], values[..k + 1], re.rx)
        invariant forall j :: i <= j < |patterns| ==> hit[j] == Content.MatchesAny(patterns[j], values[..k], re.rx)
      {
        Content.MatchesOneMore(patterns[i], values, k, re.rx);
        if re.rx(patterns[i], values[k]) { hit[i] := true; }
      }
    }
    assert values[..|values|] == values;
  }

  method InspectSlow(slow: seq<Rule>, request: Request, re: Regexes, before: seq<ScoreItem>)
    returns (items: seq<ScoreItem>)
    ensures items == before + Naive(slow, request, re)
  {
    items := before;
    for i := 0 to |slow|
      invariant items + Naive(slow[i..], request, re) == before + Naive(slow, request, re)
    {
      assert slow[i..][1..] == slow[i + 1..];
      Assoc(items, [ItemOf(slow[i])], Naive(slow[i + 1..], request, re));
      assert [] + Naive(slow[i + 1..], request, re) == Naive(slow[i + 1..], request, re);
      var fires := EvalCompiled(slow[i], request, re);
      if fires { items := items + [ItemOf(slow[i])]; }
    }
    assert items + [] == items;
  }

  // ---- the bucketed evaluator agrees with the plain one ----

  lemma NaiveSplit(a: seq<Rule>, i: nat, request: Request, re: Regexes)
    requires i < |a|
    ensures multiset(Naive(a, request, re))
      == multiset(Naive(a[..i] + a[i + 1..], request, re)) + multiset(Naive([a[i]], request, re))
  {
    var l, r := a[..i], a[i + 1..];
    assert a == l + ([a[i]] + r);
    NaiveConcat(l, [a[i]] + r, request, re);
    NaiveConcat([a[i]], r, request, re);
    NaiveConcat(l, r, request, re);
  }

  /** Plain evaluation depends on which rules there are, not on their order. */
  lemma {:induction false} NaiveOfPermutation(a: seq<Rule>, b: seq<Rule>, request: Request, re: Regexes)
    requires multiset(a) == multiset(b)
    ensures multiset(Naive(a, request, re)) == multiset(Naive(b, request, re))
    decreases |a|
  {
    if a == [] {
      assert |b| == |multiset(b)| == 0;
    } else {
      assert a[0] in multiset(b);
      var i :| 0 <= i < |b| && b[i] == a[0];
      DropSame(a, b, i);
      NaiveOfPermutation(a[1..], b[..i] + b[i + 1..], request, re);
      NaiveSplit(b, i, request, re);
      NaiveSplit(a, 0, request, re);
      assert a[..0] + a[1..] == a[1..];
    }
  }

  lemma DropSame<T>(a: seq<T>, b: seq<T>, i: nat)
    requires a != [] && multiset(a) == multiset(b) && i < |b| && b[i] == a[0]
    ensures multiset(a[1..]) == multiset(b[..i] + b[i + 1..])
  {
    WithoutAt(a, 0);
    WithoutAt(b, i);
    assert a[..0] + a[1..] == a[1..];
  }

  lemma WithoutAt<T>(s: seq<T>, i: nat)
    requires i < |s|
    ensures multiset(s[..i] + s[i + 1..]) == multiset(s) - multiset{s[i]}
  {
    assert s == s[..i] + ([s[i]] + s[i + 1..]);
  }

  /** Holding the rules that compile, in whatever order, is enough to report as a multiset what they
      report in theirs, and to report nothing exactly when none of them fires. */
  lemma HeldRulesDecide(held: seq<Rule>, parsed: Ruleset, request: Request, re: Regexes)
    requires multiset(held) == multiset(AllCompiled(parsed.rules, re))
    ensures multiset(Naive(held, request, re)) == multiset(Naive(AllCompiled(parsed.rules, re), request, re))
    ensures Naive(held, request, re) == []
      <==> forall r :: r in AllCompiled(parsed.rules, re) ==> !Fires(r, request, re)
  {
    var all := AllCompiled(parsed.rules, re);
    NaiveOfPermutation(held, all, request, re);
    NothingFires(all, request, re);
    assert |Naive(held, request, re)| == |multiset(Naive(held, request, re))|;
    assert |Naive(all, request, re)| == |multiset(Naive(all, request, re))|;
  }

  lemma {:induction false} NothingFires(rules: seq<Rule>, request: Request, re: Regexes)
    ensures Naive(rules, request, re) == [] <==> forall r :: r in rules ==> !Fires(r, request, re)
    decreases |rules|
  {
    if rules != [] { NothingFires(rules[1..], request, re); }
  }

  /** A module built from a parsed rule set and asked about a request: whatever the order of its
      buckets and whichever pattern sets fail to build, it reports, as a multiset, exactly what
      evaluating every compilable rule alone reports, and allows exactly when none of them fires. */
  method Evaluate(parsed: Ruleset, request: Request, re: Regexes) returns (d: Decision)
    ensures d == Allow <==> forall r :: r in AllCompiled(parsed.rules, re) ==> !Fires(r, request, re)
    ensures d != Allow ==> d.Scores? && multiset(d.items) == multiset(Naive(AllCompiled(parsed.rules, re), request, re))
  {
    var crs := new CrsModule(parsed, re);
    d := crs.Inspect(request, re);
    HeldRulesDecide(crs.Rules(), parsed, request, re);
  }

  /** Loaded and skipped together are the parsed rules and the parser's own skips. */
  lemma {:induction false} EveryRuleIsAccountedFor(rules: seq<CrsRule>, re: Regexes)
    ensures |AllCompiled(rules, re)| + |AllFailed(rules, re)| == |rules|
    decreases |rules|
  {
    if rules != [] { EveryRuleIsAccountedFor(rules[1..], re); }
  }
}
