/** Which requests the prefilter lets through to inspection. */
module PrefilterVerdicts {
  import opened Content
  import opened ContentVerdicts
  import opened Prefilter

  /** Where the main bucket looks: the path, every query, cookie and header value, the texts of the body, and
      the derived texts. */
  ghost predicate OnSurface(pattern: string, n: Normalized, ops: Ops)
  {
    || ops.rx(pattern, n.path) || InPairs(pattern, n.query, ops) || InPairs(pattern, n.cookies, ops)
    || InPairs(pattern, n.headers, ops) || InBody(pattern, n.body, ops) || InTexts(pattern, n.derived, ops)
  }

  lemma MatchesSurface(pattern: string, n: Normalized, ops: Ops)
    ensures MatchesAny(pattern, MainSurface(n, ops), ops.rx) <==> OnSurface(pattern, n, ops)
  {
    var query, cookies, headers := Values(n.query), Values(n.cookies), Values(n.headers);
    var body := BodyValues(n.body, ops);
    MatchesConcat(pattern, [n.path], (query + cookies + headers) + (body + n.derived), ops.rx);
    MatchesConcat(pattern, query + cookies + headers, body + n.derived, ops.rx);
    MatchesConcat(pattern, query + cookies, headers, ops.rx);
    MatchesConcat(pattern, query, cookies, ops.rx);
    MatchesConcat(pattern, body, n.derived, ops.rx);
    MatchesOne(pattern, n.path, ops.rx);
    MatchesValues(pattern, n.query, ops);
    MatchesValues(pattern, n.cookies, ops);
    MatchesValues(pattern, n.headers, ops);
    MatchesBody(pattern, n.body, ops);
  }

  ghost predicate SomeEntry(bucket: seq<Listed>, hit: string -> bool)
  {
    exists i :: 0 <= i < |bucket| && hit(bucket[i].1)
  }

  lemma AnyTextIs(bucket: seq<Listed>, texts: seq<string>, ops: Ops, hit: string -> bool)
    requires forall pattern :: hit(pattern) <==> MatchesAny(pattern, texts, ops.rx)
    ensures AnyText(bucket, texts, ops) <==> SomeEntry(bucket, hit)
  {
    if k :| 0 <= k < |texts| && BucketMatches(bucket, texts[k], ops) {
      var i :| 0 <= i < |bucket| && ops.rx(bucket[i].1, texts[k]);
      assert MatchesAny(bucket[i].1, texts, ops.rx);
    }
    if i :| 0 <= i < |bucket| && hit(bucket[i].1) {
      var k :| 0 <= k < |texts| && ops.rx(bucket[i].1, texts[k]);
      assert BucketMatches(bucket, texts[k], ops);
    }
  }

  lemma SomeConcat(a: seq<Listed>, b: seq<Listed>, hit: string -> bool)
    ensures SomeEntry(a + b, hit) <==> SomeEntry(a, hit) || SomeEntry(b, hit)
  {
    if i :| 0 <= i < |a| && hit(a[i].1) { assert hit((a + b)[i].1); }
    if i :| 0 <= i < |b| && hit(b[i].1) { assert hit((a + b)[|a| + i].1); }
  }

  ghost predicate SomeRule(rules: seq<Rule>, paranoia: nat, hit: string -> bool)
  {
    exists r :: r in rules && r.paranoia <= paranoia && hit(r.pattern)
  }

  lemma {:induction false} ListingHits(rules: seq<Rule>, paranoia: nat, hit: string -> bool)
    ensures SomeEntry(Listing(Active(rules, paranoia)), hit) <==> SomeRule(rules, paranoia, hit)
    decreases |rules|
  {
    if rules != [] {
      ListingHits(rules[1..], paranoia, hit);
      var active := Active(rules[1..], paranoia);
      if rules[0].paranoia <= paranoia {
        assert Listing([rules[0]] + active) == [(rules[0].id, rules[0].pattern)] + Listing(active);
        SomeConcat([(rules[0].id, rules[0].pattern)], Listing(active), hit);
        assert [(rules[0].id, rules[0].pattern)][0].1 == rules[0].pattern;
      }
    }
  }

  lemma {:induction false} TablesHit(tables: seq<Table>, paranoia: nat, hit: string -> bool)
    ensures SomeEntry(TableListing(tables, paranoia), hit)
      <==> exists t :: t in tables && SomeRule(t.rules, paranoia, hit)
    decreases |tables|
  {
    if tables != [] {
      TablesHit(tables[1..], paranoia, hit);
      ListingHits(tables[0].rules, paranoia, hit);
      SomeConcat(Listing(Active(tables[0].rules, paranoia)), TableListing(tables[1..], paranoia), hit);
    }
  }

  ghost predicate SomeHdrRule(rules: seq<HdrRule>, paranoia: nat, hostOnly: bool, hit: string -> bool)
  {
    exists r :: r in rules && r.rule.paranoia <= paranoia && r.scope.HostHeaders? == hostOnly && hit(r.rule.pattern)
  }

  lemma {:induction false} HdrHits(rules: seq<HdrRule>, paranoia: nat, hostOnly: bool, hit: string -> bool)
    ensures SomeEntry(HdrListing(rules, paranoia, hostOnly), hit) <==> SomeHdrRule(rules, paranoia, hostOnly, hit)
    decreases |rules|
  {
    if rules != [] {
      HdrHits(rules[1..], paranoia, hostOnly, hit);
      var entry := [(rules[0].rule.id, rules[0].rule.pattern)];
      SomeConcat(entry, HdrListing(rules[1..], paranoia, hostOnly), hit);
      assert entry[0].1 == rules[0].rule.pattern;
      assert [] + HdrListing(rules[1..], paranoia, hostOnly) == HdrListing(rules[1..], paranoia, hostOnly);
    }
  }

  /** A request is a candidate exactly when some rule that is switched on, of any table or of header
      injection, matches a place of the main surface, or a rule for hosts matches a host header. */
  lemma CandidateIff(tables: seq<Table>, hdr: seq<HdrRule>, paranoia: nat, n: Normalized, ops: Ops)
    ensures Candidate(Split(tables, hdr, paranoia), n, ops) <==>
      || (exists t, r :: t in tables && r in t.rules && r.paranoia <= paranoia && OnSurface(r.pattern, n, ops))
      || (exists r :: r in hdr && r.rule.paranoia <= paranoia && !r.scope.HostHeaders?
                      && OnSurface(r.rule.pattern, n, ops))
      || (exists r, i :: r in hdr && r.rule.paranoia <= paranoia && r.scope.HostHeaders?
                         && 0 <= i < |n.headers| && n.headers[i].0 in ["host", "x-forwarded-host"]
                         && ops.rx(r.rule.pattern, n.headers[i].1))
  {
    var main: string -> bool, host: string -> bool := MainHit(n, ops), HostHit(n, ops);
    AnyTextIs(Split(tables, hdr, paranoia).main, MainSurface(n, ops), ops, main);
    AnyTextIs(Split(tables, hdr, paranoia).host, Select(n.headers, HostHeader), ops, host);
    SomeConcat(TableListing(tables, paranoia), HdrListing(hdr, paranoia, false), main);
    TablesHit(tables, paranoia, main);
    HdrHits(hdr, paranoia, false, main);
    HdrHits(hdr, paranoia, true, host);
    forall pattern
      ensures main(pattern) <==> OnSurface(pattern, n, ops)
    {
      MatchesSurface(pattern, n, ops);
    }
    forall pattern
      ensures host(pattern) <==> InNamed(pattern, n.headers, HostHeader, ops)
    {
      MatchesSelected(pattern, n.headers, HostHeader, ops);
    }
  }

  function MainHit(n: Normalized, ops: Ops): string -> bool
  {
    (pattern: string) => MatchesAny(pattern, MainSurface(n, ops), ops.rx)
  }

  function HostHit(n: Normalized, ops: Ops): string -> bool
  {
    (pattern: string) => MatchesAny(pattern, Select(n.headers, HostHeader), ops.rx)
  }
}
