/** What the content modules report, in terms of the places of a request that their patterns match. */
module ContentVerdicts {
  import opened Waf
  import opened Content

  // ---- places of a request ----

  ghost predicate InPairs(pattern: string, pairs: Pairs, ops: Ops)
  {
    exists i :: 0 <= i < |pairs| && ops.rx(pattern, pairs[i].1)
  }

  /** In the value of a pair whose name is kept. */
  ghost predicate InNamed(pattern: string, pairs: Pairs, keep: string -> bool, ops: Ops)
  {
    exists i :: 0 <= i < |pairs| && keep(pairs[i].0) && ops.rx(pattern, pairs[i].1)
  }

  ghost predicate InTexts(pattern: string, texts: seq<string>, ops: Ops)
  {
    exists i :: 0 <= i < |texts| && ops.rx(pattern, texts[i])
  }

  /** In a part's name, its filename, or its data when that is text. */
  ghost predicate InField(pattern: string, f: MultipartField, ops: Ops)
  {
    || ops.rx(pattern, ops.canonical(f.name))
    || (f.filename.Some? && ops.rx(pattern, ops.canonical(f.filename.value)))
    || (ops.text(f.data).Some? && ops.rx(pattern, ops.canonical(ops.text(f.data).value)))
  }

  /** In a text of the body; a raw body with a zero byte has none. */
  ghost predicate InBody(pattern: string, body: ParsedBody, ops: Ops)
  {
    match body
    case NoBody => false
    case FormUrlEncoded(params) => InPairs(pattern, params, ops)
    case JsonFlattened(pairs) => InPairs(pattern, pairs, ops)
    case Multipart(fields) => exists i :: 0 <= i < |fields| && InField(pattern, fields[i], ops)
    case Raw(bytes) => 0 !in bytes && ops.text(bytes).Some? && ops.rx(pattern, ops.text(bytes).value)
  }

  // ---- the lists of values are those places ----

  lemma MatchesConcat(pattern: string, a: seq<string>, b: seq<string>, rx: (string, string) -> bool)
    ensures MatchesAny(pattern, a + b, rx) <==> MatchesAny(pattern, a, rx) || MatchesAny(pattern, b, rx)
  {
    if k :| 0 <= k < |a| && rx(pattern, a[k]) { assert (a + b)[k] == a[k]; }
    if k :| 0 <= k < |b| && rx(pattern, b[k]) { assert (a + b)[|a| + k] == b[k]; }
  }

  lemma MatchesOne(pattern: string, v: string, rx: (string, string) -> bool)
    ensures MatchesAny(pattern, [v], rx) <==> rx(pattern, v)
  {
    assert [v][0] == v;
  }

  lemma {:induction false} MatchesSelected(pattern: string, pairs: Pairs, keep: string -> bool, ops: Ops)
    ensures MatchesAny(pattern, Select(pairs, keep), ops.rx) <==> InNamed(pattern, pairs, keep, ops)
    decreases |pairs|
  {
    if pairs != [] {
      MatchesSelected(pattern, pairs[1..], keep, ops);
      MatchesConcat(pattern, [pairs[0].1], Select(pairs[1..], keep), ops.rx);
      MatchesOne(pattern, pairs[0].1, ops.rx);
      assert forall i :: 1 <= i < |pairs| ==> pairs[i] == pairs[1..][i - 1];
    }
  }

  lemma MatchesValues(pattern: string, pairs: Pairs, ops: Ops)
    ensures MatchesAny(pattern, Values(pairs), ops.rx) <==> InPairs(pattern, pairs, ops)
  {
    MatchesSelected(pattern, pairs, AnyName(), ops);
  }

  lemma MatchesField(pattern: string, f: MultipartField, ops: Ops)
    ensures MatchesAny(pattern, FieldText(f, ops), ops.rx) <==> InField(pattern, f, ops)
  {
    var name := [ops.canonical(f.name)];
    var file := match f.filename case None => [] case Some(s) => [ops.canonical(s)];
    var data := match ops.text(f.data) case None => [] case Some(t) => [ops.canonical(t)];
    MatchesConcat(pattern, name + file, data, ops.rx);
    MatchesConcat(pattern, name, file, ops.rx);
    MatchesOne(pattern, name[0], ops.rx);
    if file != [] { MatchesOne(pattern, file[0], ops.rx); }
    if data != [] { MatchesOne(pattern, data[0], ops.rx); }
  }

  lemma {:induction false} MatchesFields(pattern: string, fields: seq<MultipartField>, ops: Ops)
    ensures MatchesAny(pattern, FieldTexts(fields, ops), ops.rx)
      <==> exists i :: 0 <= i < |fields| && InField(pattern, fields[i], ops)
    decreases |fields|
  {
    if fields != [] {
      MatchesFields(pattern, fields[1..], ops);
      MatchesField(pattern, fields[0], ops);
      MatchesConcat(pattern, FieldText(fields[0], ops), FieldTexts(fields[1..], ops), ops.rx);
      assert forall i :: 1 <= i < |fields| ==> fields[i] == fields[1..][i - 1];
    }
  }

  lemma MatchesBody(pattern: string, body: ParsedBody, ops: Ops)
    ensures MatchesAny(pattern, BodyValues(body, ops), ops.rx) <==> InBody(pattern, body, ops)
  {
    match body
    case NoBody =>
    case FormUrlEncoded(params) => MatchesValues(pattern, params, ops);
    case JsonFlattened(pairs) => MatchesValues(pattern, pairs, ops);
    case Multipart(fields) => MatchesFields(pattern, fields, ops);
    case Raw(bytes) => if ops.text(bytes).Some? { MatchesOne(pattern, ops.text(bytes).value, ops.rx); }
  }

  // ---- table modules ----

  /** The places that a table's patterns are matched against. */
  ghost predicate Touches(pattern: string, n: Normalized, surface: Surface, ops: Ops)
  {
    match surface
    case Everything =>
      || ops.rx(pattern, n.path) || InPairs(pattern, n.query, ops) || InPairs(pattern, n.cookies, ops)
      || InBody(pattern, n.body, ops) || InTexts(pattern, n.derived, ops)
      || InNamed(pattern, n.headers, HeaderInspectable, ops)
    case Fields =>
      || InPairs(pattern, n.query, ops) || InPairs(pattern, n.cookies, ops) || InBody(pattern, n.body, ops)
      || InTexts(pattern, n.derived, ops)
    case UserAgent => exists i :: 0 <= i < |n.headers| && n.headers[i].0 == "user-agent"
                                  && ops.rx(pattern, n.headers[i].1)
  }

  lemma MatchesScanned(pattern: string, n: Normalized, surface: Surface, ops: Ops)
    ensures MatchesAny(pattern, Scanned(n, surface, ops), ops.rx) <==> Touches(pattern, n, surface, ops)
  {
    match surface
    case Everything => MatchesEverything(pattern, n, ops);
    case Fields => MatchesFieldValues(pattern, n, ops);
    case UserAgent => MatchesSelected(pattern, n.headers, UserAgentHeader, ops);
  }

  lemma MatchesEverything(pattern: string, n: Normalized, ops: Ops)
    ensures MatchesAny(pattern, Scanned(n, Everything, ops), ops.rx) <==> Touches(pattern, n, Everything, ops)
  {
    var query, cookies, body := Values(n.query), Values(n.cookies), BodyValues(n.body, ops);
    var headers := Select(n.headers, HeaderInspectable);
    MatchesConcat(pattern, [n.path], query + (cookies + (body + (n.derived + headers))), ops.rx);
    MatchesConcat(pattern, query, cookies + (body + (n.derived + headers)), ops.rx);
    MatchesConcat(pattern, cookies, body + (n.derived + headers), ops.rx);
    MatchesConcat(pattern, body, n.derived + headers, ops.rx);
    MatchesConcat(pattern, n.derived, headers, ops.rx);
    MatchesOne(pattern, n.path, ops.rx);
    MatchesValues(pattern, n.query, ops);
    MatchesValues(pattern, n.cookies, ops);
    MatchesBody(pattern, n.body, ops);
    MatchesSelected(pattern, n.headers, HeaderInspectable, ops);
  }

  lemma MatchesFieldValues(pattern: string, n: Normalized, ops: Ops)
    ensures MatchesAny(pattern, Scanned(n, Fields, ops), ops.rx) <==> Touches(pattern, n, Fields, ops)
  {
    var query, cookies, body := Values(n.query), Values(n.cookies), BodyValues(n.body, ops);
    MatchesConcat(pattern, query, cookies + (body + n.derived), ops.rx);
    MatchesConcat(pattern, cookies, body + n.derived, ops.rx);
    MatchesConcat(pattern, body, n.derived, ops.rx);
    MatchesValues(pattern, n.query, ops);
    MatchesValues(pattern, n.cookies, ops);
    MatchesBody(pattern, n.body, ops);
  }

  /** An item for every rule of a table that is switched on and whose pattern is met, in order. */
  ghost function TableReport(rules: seq<Rule>, paranoia: nat, n: Normalized, surface: Surface, ops: Ops): seq<ScoreItem>
  {
    if rules == [] then []
    else
      (if rules[0].paranoia <= paranoia && Touches(rules[0].pattern, n, surface, ops) then
         [ScoreItem(rules[0].id, rules[0].severity)]
       else [])
      + TableReport(rules[1..], paranoia, n, surface, ops)
  }

  /** A table module reports exactly these items. */
  lemma TableReports(t: Table, paranoia: nat, n: Normalized, ops: Ops)
    ensures InspectTable(t, paranoia, n, ops) ==
      var items := TableReport(t.rules, paranoia, n, t.surface, ops); if items == [] then Allow else Scores(items)
  {
    var rules := Active(t.rules, paranoia);
    HitsAreMatches(Patterns(rules), Scanned(n, t.surface, ops), ops.rx, |rules|);
    HitsReport(rules, |rules|, n, t.surface, ops);
    assert rules[..|rules|] == rules;
    ActiveReport(t.rules, paranoia, n, t.surface, ops);
  }

  ghost function Report(rules: seq<Rule>, n: Normalized, surface: Surface, ops: Ops): seq<ScoreItem>
  {
    if rules == [] then []
    else
      (if Touches(rules[0].pattern, n, surface, ops) then [ScoreItem(rules[0].id, rules[0].severity)] else [])
      + Report(rules[1..], n, surface, ops)
  }

  lemma {:induction false} ActiveReport(rules: seq<Rule>, paranoia: nat, n: Normalized, surface: Surface, ops: Ops)
    ensures Report(Active(rules, paranoia), n, surface, ops) == TableReport(rules, paranoia, n, surface, ops)
    decreases |rules|
  {
    if rules != [] { ActiveReport(rules[1..], paranoia, n, surface, ops); }
  }

  lemma {:induction false} ReportSnoc(rules: seq<Rule>, r: Rule, n: Normalized, surface: Surface, ops: Ops)
    ensures Report(rules + [r], n, surface, ops) == Report(rules, n, surface, ops)
      + if Touches(r.pattern, n, surface, ops) then [ScoreItem(r.id, r.severity)] else []
    decreases |rules|
  {
    if rules == [] {
      assert [] + [r] == [r] && [r][1..] == [];
    } else {
      ReportSnoc(rules[1..], r, n, surface, ops);
      assert (rules + [r])[1..] == rules[1..] + [r];
    }
  }

  ghost predicate Indices(hits: seq<nat>, rules: seq<Rule>) { forall a :: 0 <= a < |hits| ==> hits[a] < |rules| }

  /** Reading the hits of `rules[..k]` off the table is reporting those rules. */
  lemma {:induction false} HitsReport(rules: seq<Rule>, k: nat, n: Normalized, surface: Surface, ops: Ops)
    requires k <= |rules|
    ensures var hits := HitsBelow(Patterns(rules), Scanned(n, surface, ops), ops.rx, k);
            Indices(hits, rules) && Items(hits, rules) == Report(rules[..k], n, surface, ops)
  {
    var values := Scanned(n, surface, ops);
    if k > 0 {
      var before, r := HitsBelow(Patterns(rules), values, ops.rx, k - 1), rules[k - 1];
      HitsReport(rules, k - 1, n, surface, ops);
      MatchesScanned(r.pattern, n, surface, ops);
      OneMoreHit(rules, k - 1, before, HitsBelow(Patterns(rules), values, ops.rx, k), n, surface, ops);
    }
  }

  lemma OneMoreHit(rules: seq<Rule>, k: nat, before: seq<nat>, hits: seq<nat>, n: Normalized, surface: Surface,
                   ops: Ops)
    requires k < |rules| && Indices(before, rules) && Items(before, rules) == Report(rules[..k], n, surface, ops)
    requires hits == before + if Touches(rules[k].pattern, n, surface, ops) then [k] else []
    ensures Indices(hits, rules) && Items(hits, rules) == Report(rules[..k + 1], n, surface, ops)
  {
    ReportSnoc(rules[..k], rules[k], n, surface, ops);
    assert rules[..k + 1] == rules[..k] + [rules[k]];
    ItemsSnoc(before, k, rules);
    assert before + [] == before;
  }

  lemma {:induction false} ItemsSnoc(hits: seq<nat>, k: nat, rules: seq<Rule>)
    requires k < |rules| && forall a :: 0 <= a < |hits| ==> hits[a] < |rules|
    ensures Items(hits + [k], rules) == Items(hits, rules) + [ScoreItem(rules[k].id, rules[k].severity)]
    decreases |hits|
  {
    if hits == [] {
      assert [] + [k] == [k] && [k][1..] == [];
    } else {
      ItemsSnoc(hits[1..], k, rules);
      assert (hits + [k])[1..] == hits[1..] + [k];
    }
  }

  lemma {:induction false} NothingReported(rules: seq<Rule>, paranoia: nat, n: Normalized, surface: Surface, ops: Ops)
    ensures TableReport(rules, paranoia, n, surface, ops) == [] <==>
      forall r :: r in rules && r.paranoia <= paranoia ==> !Touches(r.pattern, n, surface, ops)
    decreases |rules|
  {
    if rules != [] { NothingReported(rules[1..], paranoia, n, surface, ops); }
  }

  /** A table over all values allows a request exactly when none of the rules switched on matches the path,
      a query or cookie value, a text of the body, a derived text, or an inspectable header. */
  lemma EverythingAllowsIff(t: Table, paranoia: nat, n: Normalized, ops: Ops)
    requires t.surface == Everything
    ensures InspectTable(t, paranoia, n, ops) == Allow <==>
      forall r :: r in t.rules && r.paranoia <= paranoia ==>
        && !ops.rx(r.pattern, n.path)
        && (forall i :: 0 <= i < |n.query| ==> !ops.rx(r.pattern, n.query[i].1))
        && (forall i :: 0 <= i < |n.cookies| ==> !ops.rx(r.pattern, n.cookies[i].1))
        && !InBody(r.pattern, n.body, ops)
        && (forall i :: 0 <= i < |n.derived| ==> !ops.rx(r.pattern, n.derived[i]))
        && (forall i :: 0 <= i < |n.headers| && HeaderInspectable(n.headers[i].0) ==>
              !ops.rx(r.pattern, n.headers[i].1))
  {
    TableReports(t, paranoia, n, ops);
    NothingReported(t.rules, paranoia, n, t.surface, ops);
  }

  /** A table over the fields leaves out the path and the headers. */
  lemma FieldsAllowIff(t: Table, paranoia: nat, n: Normalized, ops: Ops)
    requires t.surface == Fields
    ensures InspectTable(t, paranoia, n, ops) == Allow <==>
      forall r :: r in t.rules && r.paranoia <= paranoia ==>
        && (forall i :: 0 <= i < |n.query| ==> !ops.rx(r.pattern, n.query[i].1))
        && (forall i :: 0 <= i < |n.cookies| ==> !ops.rx(r.pattern, n.cookies[i].1))
        && !InBody(r.pattern, n.body, ops)
        && (forall i :: 0 <= i < |n.derived| ==> !ops.rx(r.pattern, n.derived[i]))
  {
    TableReports(t, paranoia, n, ops);
    NothingReported(t.rules, paranoia, n, t.surface, ops);
  }

  /** And the scanner's table looks at user agents alone. */
  lemma UserAgentAllowsIff(t: Table, paranoia: nat, n: Normalized, ops: Ops)
    requires t.surface == UserAgent
    ensures InspectTable(t, paranoia, n, ops) == Allow <==>
      forall r :: r in t.rules && r.paranoia <= paranoia ==>
        forall i :: 0 <= i < |n.headers| && n.headers[i].0 == "user-agent" ==> !ops.rx(r.pattern, n.headers[i].1)
  {
    TableReports(t, paranoia, n, ops);
    NothingReported(t.rules, paranoia, n, t.surface, ops);
  }

  /** Of the long lists of header names only two things decide: a header is inspected when it is the
      referrer or an extension header, unless its name ends like a token's. */
  lemma InspectableIff(name: string)
    ensures HeaderInspectable(name) <==> (name == "referer" || "x-" <= name) && !EndsWith(name, "-token")
  {
    AllowListIs(name);
    if "x-" <= name {
      OtherInitial(name, 'x');
    } else if name == "referer" {
      OtherInitial(name, 'r');
    }
  }

  lemma AllowListIs(name: string)
    ensures (name in ["referer", "x-forwarded-for", "x-forwarded-host", "x-forwarded-proto"] || StartsWith(name, "x-"))
      <==> (name == "referer" || "x-" <= name)
  {
  }

  /** No name on the deny-list, and none of its prefixes, starts with this letter. */
  lemma OtherInitial(name: string, first: char)
    requires name != "" && name[0] == first && (first == 'x' || first == 'r')
    ensures name !in ["authorization", "proxy-authorization", "cookie", "set-cookie", "user-agent", "host", "etag",
                      "if-none-match", "if-match", "connection", "keep-alive", "transfer-encoding", "te", "trailer",
                      "upgrade"]
    ensures !StartsWith(name, "accept") && !StartsWith(name, "content-") && !StartsWith(name, "proxy-")
  {
    Differ(name, "authorization"); Differ(name, "proxy-authorization"); Differ(name, "cookie");
    Differ(name, "set-cookie"); Differ(name, "user-agent"); Differ(name, "host"); Differ(name, "etag");
    Differ(name, "if-none-match"); Differ(name, "if-match"); Differ(name, "connection"); Differ(name, "keep-alive");
    Differ(name, "transfer-encoding"); Differ(name, "te"); Differ(name, "trailer"); Differ(name, "upgrade");
    Differ(name, "accept"); Differ(name, "content-"); Differ(name, "proxy-");
  }

  lemma Differ(name: string, word: string)
    requires name != "" && word != "" && name[0] != word[0]
    ensures name != word && !StartsWith(name, word)
  {
  }

  // ---- header injection ----

  ghost predicate HdrTouches(pattern: string, n: Normalized, scope: Scope, ops: Ops)
  {
    match scope
    case AllFields =>
      || ops.rx(pattern, n.path) || InPairs(pattern, n.query, ops) || InPairs(pattern, n.cookies, ops)
      || InPairs(pattern, n.headers, ops) || InBody(pattern, n.body, ops)
    case NonBody =>
      || ops.rx(pattern, n.path) || InPairs(pattern, n.query, ops) || InPairs(pattern, n.cookies, ops)
      || InPairs(pattern, n.headers, ops)
    case HostHeaders =>
      exists i :: 0 <= i < |n.headers| && n.headers[i].0 in ["host", "x-forwarded-host"]
                  && ops.rx(pattern, n.headers[i].1)
    case BodyOnly => InBody(pattern, n.body, ops)
  }

  lemma MatchesInScope(pattern: string, n: Normalized, scope: Scope, ops: Ops)
    ensures MatchesAny(pattern, InScope(n, scope, ops), ops.rx) <==> HdrTouches(pattern, n, scope, ops)
  {
    match scope
    case AllFields => MatchesAllFields(pattern, n, ops);
    case NonBody => MatchesNonBody(pattern, n, ops);
    case HostHeaders => MatchesSelected(pattern, n.headers, HostHeader, ops);
    case BodyOnly => MatchesBody(pattern, n.body, ops);
  }

  lemma MatchesAllFields(pattern: string, n: Normalized, ops: Ops)
    ensures MatchesAny(pattern, InScope(n, AllFields, ops), ops.rx) <==> HdrTouches(pattern, n, AllFields, ops)
  {
    var query, cookies, headers := Values(n.query), Values(n.cookies), Values(n.headers);
    var body := BodyValues(n.body, ops);
    MatchesConcat(pattern, [n.path], query + (cookies + (headers + body)), ops.rx);
    MatchesConcat(pattern, query, cookies + (headers + body), ops.rx);
    MatchesConcat(pattern, cookies, headers + body, ops.rx);
    MatchesConcat(pattern, headers, body, ops.rx);
    MatchesOne(pattern, n.path, ops.rx);
    MatchesValues(pattern, n.query, ops);
    MatchesValues(pattern, n.cookies, ops);
    MatchesValues(pattern, n.headers, ops);
    MatchesBody(pattern, n.body, ops);
  }

  lemma MatchesNonBody(pattern: string, n: Normalized, ops: Ops)
    ensures MatchesAny(pattern, InScope(n, NonBody, ops), ops.rx) <==> HdrTouches(pattern, n, NonBody, ops)
  {
    var query, cookies, headers := Values(n.query), Values(n.cookies), Values(n.headers);
    MatchesConcat(pattern, [n.path], query + (cookies + headers), ops.rx);
    MatchesConcat(pattern, query, cookies + headers, ops.rx);
    MatchesConcat(pattern, cookies, headers, ops.rx);
    MatchesOne(pattern, n.path, ops.rx);
    MatchesValues(pattern, n.query, ops);
    MatchesValues(pattern, n.cookies, ops);
    MatchesValues(pattern, n.headers, ops);
  }

  ghost function HdrReport(rules: seq<HdrRule>, paranoia: nat, n: Normalized, ops: Ops): seq<ScoreItem>
  {
    if rules == [] then []
    else
      (if rules[0].rule.paranoia <= paranoia && HdrTouches(rules[0].rule.pattern, n, rules[0].scope, ops) then
         [ScoreItem(rules[0].rule.id, rules[0].rule.severity)]
       else [])
      + HdrReport(rules[1..], paranoia, n, ops)
  }

  /** The header-injection module reports an item for every rule switched on whose pattern is met in the
      places of its own scope, in order. */
  lemma HeadersReport(rules: seq<HdrRule>, paranoia: nat, n: Normalized, ops: Ops)
    ensures InspectHeaders(rules, paranoia, n, ops) ==
      var items := HdrReport(rules, paranoia, n, ops); if items == [] then Allow else Scores(items)
  {
    FiredReport(rules, paranoia, n, ops);
  }

  lemma {:induction false} FiredReport(rules: seq<HdrRule>, paranoia: nat, n: Normalized, ops: Ops)
    ensures FiredItems(ActiveHdr(rules, paranoia), n, ops) == HdrReport(rules, paranoia, n, ops)
    decreases |rules|
  {
    if rules != [] {
      FiredReport(rules[1..], paranoia, n, ops);
      MatchesInScope(rules[0].rule.pattern, n, rules[0].scope, ops);
      assert ([rules[0]] + ActiveHdr(rules[1..], paranoia))[1..] == ActiveHdr(rules[1..], paranoia);
    }
  }
}
