/** The content-inspection modules: rule tables over the values of a normalized request. The
    regular-expression engine is the parameter `rx`: whether a pattern matches a text. */
module Content {
  import opened Bits
  import opened Seqs
  import opened Waf

  type Pairs = seq<(string, string)>

  datatype MultipartField = MultipartField(name: string, filename: Option<string>, data: seq<byte>)

  datatype ParsedBody =
    | NoBody
    | FormUrlEncoded(params: Pairs)
    | JsonFlattened(pairs: Pairs)
    | Multipart(fields: seq<MultipartField>)
    | Raw(bytes: seq<byte>)

  datatype Normalized = Normalized(path: string, query: Pairs, cookies: Pairs, headers: Pairs, body: ParsedBody,
                                   derived: seq<string>)

  /** Foreign operations: pattern matching, canonicalization of a multipart field, UTF-8 decoding. */
  datatype Ops = Ops(rx: (string, string) -> bool, canonical: string -> string, text: seq<byte> -> Option<string>)

  // ---- the values a module can look at ----

  /** Values of the pairs whose name is kept, in order. */
  function Select(pairs: Pairs, keep: string -> bool): seq<string>
  {
    if pairs == [] then []
    else if keep(pairs[0].0) then [pairs[0].1] + Select(pairs[1..], keep)
    else Select(pairs[1..], keep)
  }

  function AnyName(): string -> bool { _ => true }

  function Values(pairs: Pairs): seq<string> { Select(pairs, AnyName()) }

  lemma {:induction false} SelectedAreValues(pairs: Pairs, keep: string -> bool, v: string)
    requires v in Select(pairs, keep)
    ensures v in Values(pairs)
    decreases |pairs|
  {
    if !(keep(pairs[0].0) && pairs[0].1 == v) { SelectedAreValues(pairs[1..], keep, v); }
  }

  predicate StartsWith(s: string, prefix: string) { prefix <= s }

  predicate EndsWith(s: string, suffix: string) { |s| >= |suffix| && s[|s| - |suffix|..] == suffix }

  /** Headers whose value the content modules scan; the deny-list goes first. */
  predicate HeaderInspectable(name: string)
  {
    && name !in ["authorization", "proxy-authorization", "cookie", "set-cookie", "user-agent", "host", "etag",
                 "if-none-match", "if-match", "connection", "keep-alive", "transfer-encoding", "te", "trailer",
                 "upgrade"]
    && !EndsWith(name, "-token") && !StartsWith(name, "accept") && !StartsWith(name, "content-")
    && !StartsWith(name, "proxy-")
    && (name in ["referer", "x-forwarded-for", "x-forwarded-host", "x-forwarded-proto"] || StartsWith(name, "x-"))
  }

  predicate HostHeader(name: string) { name == "host" || name == "x-forwarded-host" }

  predicate UserAgentHeader(name: string) { name == "user-agent" }

  /** The part's name, its filename, and its data when that is text. */
  function FieldText(f: MultipartField, ops: Ops): seq<string>
  {
    [ops.canonical(f.name)]
    + (match f.filename case None => [] case Some(name) => [ops.canonical(name)])
    + (match ops.text(f.data) case None => [] case Some(t) => [ops.canonical(t)])
  }

  function FieldTexts(fields: seq<MultipartField>, ops: Ops): seq<string>
  {
    if fields == [] then [] else FieldText(fields[0], ops) + FieldTexts(fields[1..], ops)
  }

  function BodyValues(body: ParsedBody, ops: Ops): seq<string>
  {
    match body
    case NoBody => []
    case FormUrlEncoded(params) => Values(params)
    case JsonFlattened(pairs) => Values(pairs)
    case Multipart(fields) => FieldTexts(fields, ops)
    case Raw(bytes) =>
      match ops.text(bytes)
      case None => []
      case Some(t) => if 0 in bytes then [] else [t]
  }

  method BodyStrValues(body: ParsedBody, ops: Ops) returns (out: seq<string>)
    ensures out == BodyValues(body, ops)
  {
    match body
    case Multipart(fields) =>
      out := [];
      for i := 0 to |fields|
        invariant out + FieldTexts(fields[i..], ops) == FieldTexts(fields, ops)
      {
        assert fields[i..][1..] == fields[i + 1..];
        Assoc(out, FieldText(fields[i], ops), FieldTexts(fields[i + 1..], ops));
        out := PushField(out, fields[i], ops);
      }
    case _ =>
      out := BodyValues(body, ops);
  }

  method PushField(prefix: seq<string>, f: MultipartField, ops: Ops) returns (out: seq<string>)
    ensures out == prefix + FieldText(f, ops)
  {
    out := prefix + [ops.canonical(f.name)];
    if f.filename.Some? { out := out + [ops.canonical(f.filename.value)]; }
    var text := ops.text(f.data);
    if text.Some? { out := out + [ops.canonical(text.value)]; }
  }

  // ---- rules and matching ----

  datatype Rule = Rule(id: string, pattern: string, severity: Severity, paranoia: nat)

  function Active(rules: seq<Rule>, paranoia: nat): seq<Rule>
  {
    if rules == [] then []
    else if rules[0].paranoia <= paranoia then [rules[0]] + Active(rules[1..], paranoia)
    else Active(rules[1..], paranoia)
  }

  function Patterns(rules: seq<Rule>): (r: seq<string>)
    ensures |r| == |rules|
  {
    seq(|rules|, i requires 0 <= i < |rules| => rules[i].pattern)
  }

  predicate MatchesAny(pattern: string, values: seq<string>, rx: (string, string) -> bool)
  {
    exists k :: 0 <= k < |values| && rx(pattern, values[k])
  }

  /** Indices below `n` of the patterns that match some value, in order. */
  function HitsBelow(patterns: seq<string>, values: seq<string>, rx: (string, string) -> bool, n: nat): seq<nat>
    requires n <= |patterns|
  {
    if n == 0 then []
    else HitsBelow(patterns, values, rx, n - 1) + if MatchesAny(patterns[n - 1], values, rx) then [n - 1] else []
  }

  function Hits(patterns: seq<string>, values: seq<string>, rx: (string, string) -> bool): seq<nat>
  {
    HitsBelow(patterns, values, rx, |patterns|)
  }

  /** One array of flags, set value by value; each rule counts once however often it matches. */
  method AllMatches(patterns: seq<string>, values: seq<string>, rx: (string, string) -> bool) returns (r: seq<nat>)
    ensures r == Hits(patterns, values, rx)
  {
    var matched := new bool[|patterns|](_ => false);
    for k := 0 to |values|
      invariant forall i :: 0 <= i < |patterns| ==> matched[i] == MatchesAny(patterns[i], values[..k], rx)
    {
      assert values[..k + 1] == values[..k] + [values[k]];
      for i := 0 to |patterns|
        invariant forall j :: 0 <= j < i ==> matched[j] == MatchesAny(patterns[j], values[..k + 1], rx)
        invariant forall j :: i <= j < |patterns| ==> matched[j] == MatchesAny(patterns[j], values[..k], rx)
      {
        MatchesOneMore(patterns[i], values, k, rx);
        if rx(patterns[i], values[k]) { matched[i] := true; }
      }
    }
    assert values[..|values|] == values;
    r := [];
    for i := 0 to |patterns|
      invariant r == HitsBelow(patterns, values, rx, i)
    {
      if matched[i] { r := r + [i]; }
    }
  }

  lemma MatchesOneMore(pattern: string, values: seq<string>, k: nat, rx: (string, string) -> bool)
    requires k < |values|
    ensures MatchesAny(pattern, values[..k + 1], rx) <==> MatchesAny(pattern, values[..k], rx) || rx(pattern, values[k])
  {
    if MatchesAny(pattern, values[..k], rx) {
      var j :| 0 <= j < k && rx(pattern, values[..k][j]);
      assert values[..k + 1][j] == values[..k][j];
    }
    if rx(pattern, values[k]) { assert values[..k + 1][k] == values[k]; }
    if MatchesAny(pattern, values[..k + 1], rx) {
      var j :| 0 <= j < k + 1 && rx(pattern, values[..k + 1][j]);
      if j < k { assert values[..k][j] == values[..k + 1][j]; }
    }
  }

  /** The reported indices are exactly those of matching patterns, each once and in order. */
  lemma {:induction false} HitsAreMatches(patterns: seq<string>, values: seq<string>, rx: (string, string) -> bool,
                                          n: nat)
    requires n <= |patterns|
    ensures var r := HitsBelow(patterns, values, rx, n);
            && (forall i: nat :: i in r <==> i < n && MatchesAny(patterns[i], values, rx))
            && (forall a :: 0 <= a < |r| ==> r[a] < n)
            && (forall a, b :: 0 <= a < b < |r| ==> r[a] < r[b])
  {
    if n > 0 {
      HitsAreMatches(patterns, values, rx, n - 1);
    }
  }

  function Items(hits: seq<nat>, rules: seq<Rule>): (r: seq<ScoreItem>)
    requires forall k :: 0 <= k < |hits| ==> hits[k] < |rules|
    ensures |r| == |hits|
  {
    if hits == [] then [] else [ScoreItem(rules[hits[0]].id, rules[hits[0]].severity)] + Items(hits[1..], rules)
  }

  // ---- table modules ----

  /** Which values a table's rules are matched against. */
  datatype Surface = Everything | Fields | UserAgent

  datatype Table = Table(id: string, phase: Phase, surface: Surface, rules: seq<Rule>)

  function Scanned(n: Normalized, surface: Surface, ops: Ops): seq<string>
  {
    match surface
    case Everything =>
      [n.path] + (Values(n.query) + (Values(n.cookies)
        + (BodyValues(n.body, ops) + (n.derived + Select(n.headers, HeaderInspectable)))))
    case Fields => Values(n.query) + (Values(n.cookies) + (BodyValues(n.body, ops) + n.derived))
    case UserAgent => Select(n.headers, UserAgentHeader)
  }

  function InspectTable(t: Table, paranoia: nat, n: Normalized, ops: Ops): Decision
  {
    var rules := Active(t.rules, paranoia);
    var hits := Hits(Patterns(rules), Scanned(n, t.surface, ops), ops.rx);
    HitsAreMatches(Patterns(rules), Scanned(n, t.surface, ops), ops.rx, |rules|);
    if hits == [] then Allow else Scores(Items(hits, rules))
  }

  class TableModule {
    const table: Table
    var activeRules: seq<Rule>
    var compiled: bool

    constructor (table: Table)
      ensures this.table == table && !compiled
    {
      this.table, activeRules, compiled := table, [], false;
    }

    method Init(paranoia: nat)
      modifies this
      ensures compiled && activeRules == Active(table.rules, paranoia)
    {
      activeRules := Active(table.rules, paranoia);
      compiled := true;
    }

    method Inspect(n: Normalized, ops: Ops, ghost paranoia: nat) returns (d: Decision)
      requires compiled ==> activeRules == Active(table.rules, paranoia)
      ensures d == if compiled then InspectTable(table, paranoia, n, ops) else Allow
    {
      if !compiled { return Allow; }
      HitsAreMatches(Patterns(activeRules), Scanned(n, table.surface, ops), ops.rx, |activeRules|);
      var matched := AllMatches(Patterns(activeRules), Scanned(n, table.surface, ops), ops.rx);
      if matched == [] { return Allow; }
      return Scores(Items(matched, activeRules));
    }
  }

  // ---- header injection: rules with a scope of their own ----

  datatype Scope = AllFields | NonBody | HostHeaders | BodyOnly

  datatype HdrRule = HdrRule(rule: Rule, scope: Scope)

  function ActiveHdr(rules: seq<HdrRule>, paranoia: nat): seq<HdrRule>
  {
    if rules == [] then []
    else if rules[0].rule.paranoia <= paranoia then [rules[0]] + ActiveHdr(rules[1..], paranoia)
    else ActiveHdr(rules[1..], paranoia)
  }

  function InScope(n: Normalized, scope: Scope, ops: Ops): seq<string>
  {
    match scope
    case AllFields => [n.path] + (Values(n.query) + (Values(n.cookies) + (Values(n.headers) + BodyValues(n.body, ops))))
    case NonBody => [n.path] + (Values(n.query) + (Values(n.cookies) + Values(n.headers)))
    case HostHeaders => Select(n.headers, HostHeader)
    case BodyOnly => BodyValues(n.body, ops)
  }

  predicate Fires(r: HdrRule, n: Normalized, ops: Ops) { MatchesAny(r.rule.pattern, InScope(n, r.scope, ops), ops.rx) }

  function FiredItems(rules: seq<HdrRule>, n: Normalized, ops: Ops): seq<ScoreItem>
  {
    if rules == [] then []
    else
      (if Fires(rules[0], n, ops) then [ScoreItem(rules[0].rule.id, rules[0].rule.severity)] else [])
      + FiredItems(rules[1..], n, ops)
  }

  function InspectHeaders(rules: seq<HdrRule>, paranoia: nat, n: Normalized, ops: Ops): Decision
  {
    var items := FiredItems(ActiveHdr(rules, paranoia), n, ops);
    if items == [] then Allow else Scores(items)
  }

  class HeaderInjectionModule {
    const catalog: seq<HdrRule>
    var rules: seq<HdrRule>

    constructor (catalog: seq<HdrRule>)
      ensures this.catalog == catalog && rules == []
    {
      this.catalog, rules := catalog, [];
    }

    method Init(paranoia: nat)
      modifies this
      ensures rules == ActiveHdr(catalog, paranoia)
    {
      rules := ActiveHdr(catalog, paranoia);
    }

    method Inspect(n: Normalized, ops: Ops, ghost paranoia: nat) returns (d: Decision)
      requires rules == ActiveHdr(catalog, paranoia)
      ensures d == InspectHeaders(catalog, paranoia, n, ops)
    {
      if rules == [] { return Allow; }
      var items: seq<ScoreItem> := [];
      for i := 0 to |rules|
        invariant items + FiredItems(rules[i..], n, ops) == FiredItems(rules, n, ops)
      {
        assert rules[i..][1..] == rules[i + 1..];
        var r := rules[i];
        ghost var rest := FiredItems(rules[i + 1..], n, ops);
        Assoc(items, [ScoreItem(r.rule.id, r.rule.severity)], rest);
        Assoc(items, [], rest);
        if Fires(r, n, ops) {
          items := items + [ScoreItem(r.rule.id, r.rule.severity)];
        } else {
          assert items + [] == items;
        }
      }
      assert items + [] == items;
      if items == [] { return Allow; }
      return Scores(items);
    }
  }
}
