/** The content prefilter: one union of patterns scanned over a superset of every module's values,
    and one for host headers alone, so that inspection can be skipped when neither matches. */
module Prefilter {
  import opened Seqs
  import opened Waf
  import opened Content
  import Pipeline

  type Listed = (string, string)

  /** The rule tables of the built-in content modules, in the order of the union. */
  function Tables(rulesOf: string -> seq<Rule>): seq<Table>
  {
    [Table("sqli", Body, Everything, rulesOf("sqli")), Table("xss", Body, Everything, rulesOf("xss")),
     Table("path_traversal", RequestLine, Everything, rulesOf("path_traversal")),
     Table("rce", Body, Everything, rulesOf("rce")),
     Table("lfi_rfi", Body, Fields, rulesOf("lfi_rfi")), Table("ssrf", Body, Fields, rulesOf("ssrf")),
     Table("ldap", Body, Everything, rulesOf("ldap")), Table("nosql", Body, Everything, rulesOf("nosql")),
     Table("mail", Body, Everything, rulesOf("mail")), Table("ssti", Body, Everything, rulesOf("ssti")),
     Table("scanner", Headers, UserAgent, rulesOf("scanner")), Table("ssi", Body, Everything, rulesOf("ssi")),
     Table("xxe", Body, Everything, rulesOf("xxe"))]
  }

  function Listing(rules: seq<Rule>): (r: seq<Listed>)
    ensures |r| == |rules|
  {
    seq(|rules|, i requires 0 <= i < |rules| => (rules[i].id, rules[i].pattern))
  }

  function TableListing(tables: seq<Table>, paranoia: nat): seq<Listed>
  {
    if tables == [] then [] else Listing(Active(tables[0].rules, paranoia)) + TableListing(tables[1..], paranoia)
  }

  /** The header-injection rules of one bucket. */
  function HdrListing(rules: seq<HdrRule>, paranoia: nat, hostOnly: bool): seq<Listed>
  {
    if rules == [] then []
    else
      (if rules[0].rule.paranoia <= paranoia && rules[0].scope.HostHeaders? == hostOnly then
         [(rules[0].rule.id, rules[0].rule.pattern)]
       else [])
      + HdrListing(rules[1..], paranoia, hostOnly)
  }

  datatype Buckets = Buckets(main: seq<Listed>, host: seq<Listed>)

  function Split(tables: seq<Table>, hdr: seq<HdrRule>, paranoia: nat): Buckets
  {
    Buckets(TableListing(tables, paranoia) + HdrListing(hdr, paranoia, false), HdrListing(hdr, paranoia, true))
  }

  method ContentRulesSplit(tables: seq<Table>, hdr: seq<HdrRule>, paranoia: nat)
    returns (main: seq<Listed>, host: seq<Listed>)
    ensures Buckets(main, host) == Split(tables, hdr, paranoia)
  {
    main, host := [], [];
    for i := 0 to |tables|
      invariant main + TableListing(tables[i..], paranoia) == TableListing(tables, paranoia)
    {
      assert tables[i..][1..] == tables[i + 1..];
      Assoc(main, Listing(Active(tables[i].rules, paranoia)), TableListing(tables[i + 1..], paranoia));
      main := PushTable(main, tables[i].rules, paranoia);
    }
    ghost var before := main;
    assert before == TableListing(tables, paranoia);
    ghost var pushed: seq<Listed> := [];
    assert main == before + pushed;
    for i := 0 to |hdr|
      invariant main == before + pushed
      invariant pushed + HdrListing(hdr[i..], paranoia, false) == HdrListing(hdr, paranoia, false)
      invariant host + HdrListing(hdr[i..], paranoia, true) == HdrListing(hdr, paranoia, true)
    {
      assert hdr[i..][1..] == hdr[i + 1..];
      var entry := (hdr[i].rule.id, hdr[i].rule.pattern);
      Assoc(pushed, [entry], HdrListing(hdr[i + 1..], paranoia, false));
      Assoc(host, [entry], HdrListing(hdr[i + 1..], paranoia, true));
      if hdr[i].rule.paranoia <= paranoia {
        if hdr[i].scope.HostHeaders? {
          host := host + [entry];
        } else {
          Assoc(before, pushed, [entry]);
          main, pushed := main + [entry], pushed + [entry];
        }
      }
    }
    assert pushed + [] == pushed && host + [] == host;
  }

  method PushTable(prefix: seq<Listed>, rules: seq<Rule>, paranoia: nat) returns (out: seq<Listed>)
    ensures out == prefix + Listing(Active(rules, paranoia))
  {
    out := prefix;
    ghost var done: seq<Rule> := [];
    for i := 0 to |rules|
      invariant done + Active(rules[i..], paranoia) == Active(rules, paranoia)
      invariant out == prefix + Listing(done)
    {
      assert rules[i..][1..] == rules[i + 1..];
      if rules[i].paranoia <= paranoia {
        Assoc(done, [rules[i]], Active(rules[i + 1..], paranoia));
        assert Listing(done + [rules[i]]) == Listing(done) + [(rules[i].id, rules[i].pattern)];
        out, done := out + [(rules[i].id, rules[i].pattern)], done + [rules[i]];
      }
    }
    assert done + [] == done;
  }

  // ---- the check ----

  /** `RegexSet::is_match`: some pattern of the bucket matches. */
  predicate BucketMatches(bucket: seq<Listed>, text: string, ops: Ops)
  {
    exists i :: 0 <= i < |bucket| && ops.rx(bucket[i].1, text)
  }

  predicate AnyText(bucket: seq<Listed>, texts: seq<string>, ops: Ops)
  {
    exists k :: 0 <= k < |texts| && BucketMatches(bucket, texts[k], ops)
  }

  /** The main surface: everything any content module reads, and more headers besides. */
  function MainSurface(n: Normalized, ops: Ops): seq<string>
  {
    [n.path] + ((Values(n.query) + Values(n.cookies) + Values(n.headers)) + (BodyValues(n.body, ops) + n.derived))
  }

  predicate Candidate(b: Buckets, n: Normalized, ops: Ops)
  {
    AnyText(b.main, MainSurface(n, ops), ops) || AnyText(b.host, Select(n.headers, HostHeader), ops)
  }

  method IsCandidate(b: Buckets, n: Normalized, ops: Ops) returns (r: bool)
    ensures r <==> Candidate(b, n, ops)
  {
    SurfaceParts(b.main, n, ops);
    if BucketMatches(b.main, n.path, ops) { return true; }
    var inPairs := AnyPair(b.main, n.query + n.cookies + n.headers, ops);
    ValuesConcat(n.query, n.cookies);
    ValuesConcat(n.query + n.cookies, n.headers);
    if inPairs { return true; }
    var body := BodyStrValues(n.body, ops);
    if AnyText(b.main, body, ops) { return true; }
    if AnyText(b.main, n.derived, ops) { return true; }
    r := AnyText(b.host, Select(n.headers, HostHeader), ops);
  }

  method AnyPair(bucket: seq<Listed>, pairs: Pairs, ops: Ops) returns (r: bool)
    ensures r <==> AnyText(bucket, Values(pairs), ops)
  {
    for i := 0 to |pairs|
      invariant AnyText(bucket, Values(pairs[i..]), ops) <==> AnyText(bucket, Values(pairs), ops)
    {
      assert pairs[i..][1..] == pairs[i + 1..];
      AnyTextConcat(bucket, [pairs[i].1], Values(pairs[i + 1..]), ops);
      AnyTextOne(bucket, pairs[i].1, ops);
      if BucketMatches(bucket, pairs[i].1, ops) { return true; }
    }
    return false;
  }

  lemma AnyTextConcat(bucket: seq<Listed>, a: seq<string>, b: seq<string>, ops: Ops)
    ensures AnyText(bucket, a + b, ops) <==> AnyText(bucket, a, ops) || AnyText(bucket, b, ops)
  {
    if AnyText(bucket, a, ops) {
      var k :| 0 <= k < |a| && BucketMatches(bucket, a[k], ops);
      assert (a + b)[k] == a[k];
    }
    if AnyText(bucket, b, ops) {
      var k :| 0 <= k < |b| && BucketMatches(bucket, b[k], ops);
      assert (a + b)[|a| + k] == b[k];
    }
  }

  lemma AnyTextOne(bucket: seq<Listed>, text: string, ops: Ops)
    ensures AnyText(bucket, [text], ops) <==> BucketMatches(bucket, text, ops)
  {
    if BucketMatches(bucket, text, ops) { assert [text][0] == text; }
  }

  lemma {:induction false} ValuesConcat(a: Pairs, b: Pairs)
    ensures Values(a + b) == Values(a) + Values(b)
    decreases |a|
  {
    if a == [] {
      assert a + b == b;
    } else {
      ValuesConcat(a[1..], b);
      assert (a + b)[1..] == a[1..] + b;
      Assoc([a[0].1], Values(a[1..]), Values(b));
    }
  }

  lemma SurfaceParts(bucket: seq<Listed>, n: Normalized, ops: Ops)
    ensures AnyText(bucket, MainSurface(n, ops), ops) <==>
      || BucketMatches(bucket, n.path, ops)
      || AnyText(bucket, Values(n.query) + Values(n.cookies) + Values(n.headers), ops)
      || AnyText(bucket, BodyValues(n.body, ops), ops) || AnyText(bucket, n.derived, ops)
  {
    var pairs, rest := Values(n.query) + Values(n.cookies) + Values(n.headers), BodyValues(n.body, ops) + n.derived;
    AnyTextConcat(bucket, [n.path], pairs + rest, ops);
    AnyTextOne(bucket, n.path, ops);
    AnyTextConcat(bucket, pairs, rest, ops);
    AnyTextConcat(bucket, BodyValues(n.body, ops), n.derived, ops);
  }

  // ---- coverage: each module's patterns and values are within its bucket's ----

  lemma {:induction false} ActiveIsListed(tables: seq<Table>, paranoia: nat, t: Table, r: Rule)
    requires t in tables && r in Active(t.rules, paranoia)
    ensures (r.id, r.pattern) in TableListing(tables, paranoia)
    decreases |tables|
  {
    if t == tables[0] {
      var active := Active(t.rules, paranoia);
      var i :| 0 <= i < |active| && active[i] == r;
      assert Listing(active)[i] == (r.id, r.pattern);
    } else {
      ActiveIsListed(tables[1..], paranoia, t, r);
    }
  }

  lemma {:induction false} HdrIsListed(rules: seq<HdrRule>, paranoia: nat, r: HdrRule)
    requires r in ActiveHdr(rules, paranoia)
    ensures (r.rule.id, r.rule.pattern) in HdrListing(rules, paranoia, r.scope.HostHeaders?)
    decreases |rules|
  {
    if r != rules[0] || r.rule.paranoia > paranoia { HdrIsListed(rules[1..], paranoia, r); }
  }

  /** Whatever a table module reads is on the main surface. */
  lemma ScannedIsOnSurface(n: Normalized, surface: Surface, ops: Ops, v: string)
    requires v in Scanned(n, surface, ops)
    ensures v in MainSurface(n, ops)
  {
    if v in Select(n.headers, HeaderInspectable) { SelectedAreValues(n.headers, HeaderInspectable, v); }
    if v in Select(n.headers, UserAgentHeader) { SelectedAreValues(n.headers, UserAgentHeader, v); }
  }

  /** And whatever a header-injection rule reads is on the surface of its own bucket. */
  lemma ScopeIsOnSurface(n: Normalized, scope: Scope, ops: Ops, v: string)
    requires v in InScope(n, scope, ops) && !scope.HostHeaders?
    ensures v in MainSurface(n, ops)
  {
  }

  lemma MatchIsSeen(bucket: seq<Listed>, surface: seq<string>, entry: Listed, v: string, ops: Ops)
    requires entry in bucket && v in surface && ops.rx(entry.1, v)
    ensures AnyText(bucket, surface, ops)
  {
    var i :| 0 <= i < |bucket| && bucket[i] == entry;
    assert ops.rx(bucket[i].1, v);
    assert BucketMatches(bucket, v, ops);
    var k :| 0 <= k < |surface| && surface[k] == v;
    assert BucketMatches(bucket, surface[k], ops);
  }

  /** A table module has nothing to report on a request that is no candidate. */
  lemma TableAllows(tables: seq<Table>, hdr: seq<HdrRule>, paranoia: nat, n: Normalized, ops: Ops, t: Table)
    requires t in tables && !Candidate(Split(tables, hdr, paranoia), n, ops)
    ensures InspectTable(t, paranoia, n, ops) == Allow
  {
    var rules, values := Active(t.rules, paranoia), Scanned(n, t.surface, ops);
    HitsAreMatches(Patterns(rules), values, ops.rx, |rules|);
    var hits := Hits(Patterns(rules), values, ops.rx);
    if hits != [] {
      assert hits[0] in hits;
      TableMatchIsSeen(tables, hdr, paranoia, n, ops, t, rules[hits[0]]);
      assert false;
    }
  }

  lemma TableMatchIsSeen(tables: seq<Table>, hdr: seq<HdrRule>, paranoia: nat, n: Normalized, ops: Ops, t: Table,
                         r: Rule)
    requires t in tables && r in Active(t.rules, paranoia) && MatchesAny(r.pattern, Scanned(n, t.surface, ops), ops.rx)
    ensures Candidate(Split(tables, hdr, paranoia), n, ops)
  {
    var values := Scanned(n, t.surface, ops);
    var k :| 0 <= k < |values| && ops.rx(r.pattern, values[k]);
    ActiveIsListed(tables, paranoia, t, r);
    ScannedIsOnSurface(n, t.surface, ops, values[k]);
    MatchIsSeen(Split(tables, hdr, paranoia).main, MainSurface(n, ops), (r.id, r.pattern), values[k], ops);
  }

  lemma HdrMatchIsSeen(tables: seq<Table>, hdr: seq<HdrRule>, paranoia: nat, n: Normalized, ops: Ops, r: HdrRule)
    requires r in ActiveHdr(hdr, paranoia) && Fires(r, n, ops)
    ensures Candidate(Split(tables, hdr, paranoia), n, ops)
  {
    var values := InScope(n, r.scope, ops);
    var k :| 0 <= k < |values| && ops.rx(r.rule.pattern, values[k]);
    HdrIsListed(hdr, paranoia, r);
    var b, entry := Split(tables, hdr, paranoia), (r.rule.id, r.rule.pattern);
    if r.scope.HostHeaders? {
      MatchIsSeen(b.host, Select(n.headers, HostHeader), entry, values[k], ops);
    } else {
      ScopeIsOnSurface(n, r.scope, ops, values[k]);
      MatchIsSeen(b.main, MainSurface(n, ops), entry, values[k], ops);
    }
  }

  lemma {:induction false} NothingFires(rules: seq<HdrRule>, n: Normalized, ops: Ops)
    requires forall r :: r in rules ==> !Fires(r, n, ops)
    ensures FiredItems(rules, n, ops) == []
    decreases |rules|
  {
    if rules != [] { NothingFires(rules[1..], n, ops); }
  }

  lemma HeadersAllow(tables: seq<Table>, hdr: seq<HdrRule>, paranoia: nat, n: Normalized, ops: Ops)
    requires !Candidate(Split(tables, hdr, paranoia), n, ops)
    ensures InspectHeaders(hdr, paranoia, n, ops) == Allow
  {
    forall r | r in ActiveHdr(hdr, paranoia)
      ensures !Fires(r, n, ops)
    {
      if Fires(r, n, ops) { HdrMatchIsSeen(tables, hdr, paranoia, n, ops, r); }
    }
    NothingFires(ActiveHdr(hdr, paranoia), n, ops);
  }

  // ---- the fast path ----

  /** A built-in content module: what it returns is what a rule table or the header rules say. */
  ghost predicate BuiltIn(m: Pipeline.Module<Normalized>, n: Normalized, tables: seq<Table>, hdr: seq<HdrRule>,
                          paranoia: nat, ops: Ops)
  {
    || (exists t :: t in tables && m.inspect(n) == Pipeline.Returned(InspectTable(t, paranoia, n, ops)))
    || m.inspect(n) == Pipeline.Returned(InspectHeaders(hdr, paranoia, n, ops))
  }

  /** The fast path is sound: on a request that is no candidate, running only the structural
      modules ends with the same verdict, score and contributions as inspecting everything. */
  lemma FastPathIsSound(t: Pipeline.Tally, ms: seq<Pipeline.Module<Normalized>>, n: Normalized, p: Pipeline.Policy,
                        rulesOf: string -> seq<Rule>, hdr: seq<HdrRule>, paranoia: nat, ops: Ops)
    requires !Candidate(Split(Tables(rulesOf), hdr, paranoia), n, ops)
    requires forall m :: m in Pipeline.Schedule(ms, Pipeline.INSPECTION_PHASES, false) ==>
                           m.structural || BuiltIn(m, n, Tables(rulesOf), hdr, paranoia, ops)
    ensures Pipeline.RunPhases(t, ms, Pipeline.INSPECTION_PHASES, true, n, p)
      == Pipeline.RunPhases(t, ms, Pipeline.INSPECTION_PHASES, false, n, p)
  {
    var tables := Tables(rulesOf);
    forall m | m in Pipeline.Schedule(ms, Pipeline.INSPECTION_PHASES, false) && !m.structural
      ensures Pipeline.Silent(m, n, p)
    {
      BuiltInAllows(m, n, tables, hdr, paranoia, ops);
    }
    Pipeline.SkippingSilentContent(t, ms, Pipeline.INSPECTION_PHASES, n, p);
  }

  lemma BuiltInAllows(m: Pipeline.Module<Normalized>, n: Normalized, tables: seq<Table>, hdr: seq<HdrRule>,
                      paranoia: nat, ops: Ops)
    requires BuiltIn(m, n, tables, hdr, paranoia, ops) && !Candidate(Split(tables, hdr, paranoia), n, ops)
    ensures m.inspect(n) == Pipeline.Returned(Allow)
  {
    HeadersAllow(tables, hdr, paranoia, n, ops);
    if t :| t in tables && m.inspect(n) == Pipeline.Returned(InspectTable(t, paranoia, n, ops)) {
      TableAllows(tables, hdr, paranoia, n, ops, t);
    }
  }
}
