/** Query splitting and canonicalization, and the test kit's query builder that inverts it. */
module Query {
  import opened Bits
  import opened Seqs
  import opened Percent

  const EQUALS: byte := 0x3D

  type Pair = (seq<byte>, seq<byte>)

  datatype Parsed = Parsed(params: seq<Pair>, doubleEncoded: bool, derived: seq<seq<byte>>)
  datatype ParseResult = Ok(query: Parsed) | TooManyParams(limit: nat)

  /** What becomes of decoded bytes: `text` is lossy UTF-8 decoding followed by NFKC, `derive`
      the variants a canonical value gives rise to. */
  datatype Texts = Texts(text: seq<byte> -> seq<byte>, derive: seq<byte> -> seq<seq<byte>>)

  function Canonical(raw: seq<byte>, plusAsSpace: bool, t: Texts): (r: (seq<byte>, bool))
  {
    var (bytes, left) := Fixpoint(raw, plusAsSpace, PIPELINE_CAP);
    (t.text(bytes), PIPELINE_CAP - left >= 2)
  }

  method CanonicalizeValue(raw: seq<byte>, plusAsSpace: bool, t: Texts)
    returns (canonical: seq<byte>, doubleEncoded: bool)
    ensures (canonical, doubleEncoded) == Canonical(raw, plusAsSpace, t)
  {
    var bytes, passes, _ := PercentOverlongFixpoint(raw, plusAsSpace, PIPELINE_CAP);
    canonical, doubleEncoded := t.text(bytes), passes >= 2;
  }

  /** The two sides of the first `=`; without one, the whole is the name. */
  function Cut(pair: seq<byte>): (seq<byte>, seq<byte>)
  {
    match IndexOf(pair, EQUALS)
    case Some(pos) => (pair[..pos], pair[pos + 1..])
    case None => (pair, [])
  }

  // ---- what a query means: its nonempty pieces, each decoded on its own ----

  function NonEmpty(pieces: seq<seq<byte>>): seq<seq<byte>>
  {
    if pieces == [] then []
    else if pieces[0] == [] then NonEmpty(pieces[1..])
    else [pieces[0]] + NonEmpty(pieces[1..])
  }

  function PairOf(piece: seq<byte>, t: Texts): Pair
  {
    (Canonical(Cut(piece).0, true, t).0, Canonical(Cut(piece).1, true, t).0)
  }

  predicate DoubledIn(piece: seq<byte>, t: Texts)
  {
    Canonical(Cut(piece).0, true, t).1 || Canonical(Cut(piece).1, true, t).1
  }

  function Params(pieces: seq<seq<byte>>, t: Texts): (r: seq<Pair>)
    ensures |r| == |pieces|
  {
    seq(|pieces|, i requires 0 <= i < |pieces| => PairOf(pieces[i], t))
  }

  function Derived(pieces: seq<seq<byte>>, t: Texts): seq<seq<byte>>
  {
    if pieces == [] then []
    else Derived(pieces[..|pieces| - 1], t) + t.derive(PairOf(pieces[|pieces| - 1], t).1)
  }

  function Meaning(pieces: seq<seq<byte>>, t: Texts): Parsed
  {
    Parsed(Params(pieces, t), exists i :: 0 <= i < |pieces| && DoubledIn(pieces[i], t), Derived(pieces, t))
  }

  function Parse(query: seq<byte>, maxParams: nat, t: Texts): ParseResult
  {
    var pieces := NonEmpty(Split(query, AMPERSAND));
    if |pieces| > maxParams then TooManyParams(maxParams) else Ok(Meaning(pieces, t))
  }

  lemma NonEmptyStep(pieces: seq<seq<byte>>, i: nat)
    requires i < |pieces|
    ensures NonEmpty(pieces[i..]) ==
      if pieces[i] == [] then NonEmpty(pieces[i + 1..]) else [pieces[i]] + NonEmpty(pieces[i + 1..])
  {
    assert pieces[i..][1..] == pieces[i + 1..];
  }

  method ParseQuery(query: seq<byte>, maxParams: nat, t: Texts) returns (r: ParseResult)
    ensures r == Parse(query, maxParams, t)
  {
    var params: seq<Pair>, doubleEncoded, derived := [], false, [];
    var pieces := Split(query, AMPERSAND);
    ghost var taken: seq<seq<byte>> := [];
    for i := 0 to |pieces|
      invariant |taken| <= maxParams
      invariant taken + NonEmpty(pieces[i..]) == NonEmpty(pieces)
      invariant Parsed(params, doubleEncoded, derived) == Meaning(taken, t)
    {
      NonEmptyStep(pieces, i);
      var pair := pieces[i];
      if pair != [] {
        ghost var rest := NonEmpty(pieces[i + 1..]);
        Assoc(taken, [pair], rest);
        if |params| >= maxParams {
          assert |taken + [pair] + rest| > maxParams;
          return TooManyParams(maxParams);
        }
        params, doubleEncoded, derived := TakePair(pair, params, doubleEncoded, derived, t, taken);
        taken := taken + [pair];
      }
    }
    assert taken + [] == taken;
    return Ok(Parsed(params, doubleEncoded, derived));
  }

  method TakePair(pair: seq<byte>, params: seq<Pair>, doubleEncoded: bool, derived: seq<seq<byte>>, t: Texts,
                  ghost taken: seq<seq<byte>>)
    returns (params': seq<Pair>, doubleEncoded': bool, derived': seq<seq<byte>>)
    requires Parsed(params, doubleEncoded, derived) == Meaning(taken, t)
    ensures Parsed(params', doubleEncoded', derived') == Meaning(taken + [pair], t)
  {
    var (k, v) := Cut(pair);
    var dk, deK := CanonicalizeValue(k, true, t);
    var dv, deV := CanonicalizeValue(v, true, t);
    doubleEncoded' := doubleEncoded || deK || deV;
    derived' := derived + t.derive(dv);
    params' := params + [(dk, dv)];
    MeaningGrows(taken, pair, t);
  }

  /** One more piece adds its pair, its flag and what its value gives rise to. */
  lemma MeaningGrows(taken: seq<seq<byte>>, pair: seq<byte>, t: Texts)
    ensures var m, p := Meaning(taken, t), PairOf(pair, t);
            Meaning(taken + [pair], t)
              == Parsed(m.params + [p], m.doubleEncoded || DoubledIn(pair, t), m.derived + t.derive(p.1))
  {
    ParamsGrow(taken, pair, t);
    DoubledGrows(taken, pair, t);
    assert (taken + [pair])[..|taken|] == taken;
  }

  lemma ParamsGrow(taken: seq<seq<byte>>, pair: seq<byte>, t: Texts)
    ensures Params(taken + [pair], t) == Params(taken, t) + [PairOf(pair, t)]
  {
  }

  lemma DoubledGrows(taken: seq<seq<byte>>, pair: seq<byte>, t: Texts)
    ensures (exists i :: 0 <= i < |taken| + 1 && DoubledIn((taken + [pair])[i], t))
        <==> (exists i :: 0 <= i < |taken| && DoubledIn(taken[i], t)) || DoubledIn(pair, t)
  {
    var now := taken + [pair];
    if i :| 0 <= i < |taken| && DoubledIn(taken[i], t) { assert DoubledIn(now[i], t); }
    if DoubledIn(pair, t) { assert DoubledIn(now[|taken|], t); }
  }

  // ---- the query builder of the test kit ----

  function PairText(p: Pair): seq<byte> { EncodeComponent(p.0) + [EQUALS] + EncodeComponent(p.1) }

  function PairTexts(pairs: seq<Pair>): (r: seq<seq<byte>>)
    ensures |r| == |pairs|
  {
    seq(|pairs|, i requires 0 <= i < |pairs| => PairText(pairs[i]))
  }

  /** The query string after adding these pairs in order to a request without one. */
  function QueryOf(pairs: seq<Pair>): Option<seq<byte>>
  {
    if pairs == [] then None else Some(Join(PairTexts(pairs), AMPERSAND))
  }

  class Request {
    var query: Option<seq<byte>>
    ghost var pairs: seq<Pair>

    ghost predicate Valid()
      reads this
    {
      query == QueryOf(pairs)
    }

    constructor ()
      ensures Valid() && pairs == []
    {
      query, pairs := None, [];
    }

    /** Appends one pair. */
    method AddQuery(name: seq<byte>, value: seq<byte>)
      requires Valid()
      modifies this
      ensures Valid() && pairs == old(pairs) + [(name, value)]
    {
      var n := EncQueryComponent(name);
      var v := EncQueryComponent(value);
      var pair := n + [EQUALS] + v;
      JoinSnoc(PairTexts(pairs), pair, AMPERSAND);
      query := match query case Some(existing) => Some(existing + [AMPERSAND] + pair) case None => Some(pair);
      assert PairTexts(pairs + [(name, value)]) == PairTexts(pairs) + [pair];
      pairs := pairs + [(name, value)];
    }
  }

  lemma {:induction false} JoinSnoc<T>(pieces: seq<seq<T>>, last: seq<T>, sep: T)
    ensures Join(pieces + [last], sep) == if pieces == [] then last else Join(pieces, sep) + [sep] + last
    decreases |pieces|
  {
    if |pieces| > 0 {
      JoinSnoc(pieces[1..], last, sep);
      assert (pieces + [last])[1..] == pieces[1..] + [last];
      if |pieces| > 1 {
        Assoc(pieces[0] + [sep], Join(pieces[1..], sep), [sep]);
        Assoc(pieces[0] + [sep], Join(pieces[1..], sep) + [sep], last);
      }
    }
  }

  // ---- the round trip ----

  /** Values a request can carry unchanged: nothing left to decode, and already canonical text. */
  ghost predicate Plain(v: seq<byte>, t: Texts) { Stable(v) && t.text(v) == v }

  /** An encoded value needs one pass, so it is not mistaken for a doubly encoded one. */
  lemma EncodedIsCanonical(v: seq<byte>, t: Texts)
    requires Plain(v, t)
    ensures Canonical(EncodeComponent(v), true, t) == (v, false)
  {
    EncodedValueComesBackIff(v, PIPELINE_CAP);
    OnePassSuffices(v, PIPELINE_CAP);
  }

  lemma OnePassSuffices(v: seq<byte>, budget: nat)
    requires Stable(v) && budget >= 2
    ensures Fixpoint(EncodeComponent(v), true, budget).1 >= budget - 1
  {
    DecodeEncoded(v, true);
    OverlongShrinks(v);
    PassShrinks(v);
    assert OnePass(EncodeComponent(v), true) == v;
  }

  lemma {:induction false} EncodedHoldsNo(s: seq<byte>, x: byte)
    requires x == AMPERSAND || (x == EQUALS && EQUALS !in s)
    ensures x !in EncodeComponent(s)
    decreases |s|
  {
    if s != [] { EncodedHoldsNo(s[1..], x); }
  }

  lemma PairIsCut(p: Pair, t: Texts)
    requires EQUALS !in p.0 && Plain(p.0, t) && Plain(p.1, t)
    ensures PairText(p) != [] && AMPERSAND !in PairText(p)
    ensures PairOf(PairText(p), t) == p && !DoubledIn(PairText(p), t)
  {
    var n, v := EncodeComponent(p.0), EncodeComponent(p.1);
    EncodedHoldsNo(p.0, AMPERSAND);
    EncodedHoldsNo(p.1, AMPERSAND);
    EncodedHoldsNo(p.0, EQUALS);
    IndexOfPiece(n, v, EQUALS);
    CutOfPair(n, v);
    EncodedIsCanonical(p.0, t);
    EncodedIsCanonical(p.1, t);
  }

  lemma CutOfPair(n: seq<byte>, v: seq<byte>)
    requires EQUALS !in n
    ensures Cut(n + [EQUALS] + v) == (n, v)
  {
    IndexOfPiece(n, v, EQUALS);
    var pair := n + [EQUALS] + v;
    assert pair[..|n|] == n && pair[|n| + 1..] == v;
  }

  lemma {:induction false} AllNonEmpty(pieces: seq<seq<byte>>)
    requires forall i :: 0 <= i < |pieces| ==> pieces[i] != []
    ensures NonEmpty(pieces) == pieces
    decreases |pieces|
  {
    if pieces != [] {
      AllNonEmpty(pieces[1..]);
      assert [pieces[0]] + pieces[1..] == pieces;
    }
  }

  /** Parsing the query built from any list of carriable pairs gives the same pairs in order, or
      the limit error exactly when there are too many. */
  lemma QueryRoundTrip(pairs: seq<Pair>, maxParams: nat, t: Texts)
    requires pairs != []
    requires forall i :: 0 <= i < |pairs| ==> EQUALS !in pairs[i].0 && Plain(pairs[i].0, t) && Plain(pairs[i].1, t)
    ensures var r := Parse(QueryOf(pairs).value, maxParams, t);
            if |pairs| > maxParams then r == TooManyParams(maxParams)
            else r.Ok? && r.query.params == pairs && !r.query.doubleEncoded
  {
    var pieces := PairTexts(pairs);
    forall i | 0 <= i < |pairs|
      ensures pieces[i] != [] && AMPERSAND !in pieces[i] && PairOf(pieces[i], t) == pairs[i] && !DoubledIn(pieces[i], t)
    {
      PairIsCut(pairs[i], t);
    }
    SplitJoin(pieces, AMPERSAND);
    AllNonEmpty(pieces);
    assert Params(pieces, t) == pairs;
  }

  // ---- exactly which pairs come back ----

  /** The bytes that one side of a pair decodes to once it is sent. */
  function Received(v: seq<byte>): seq<byte> { Fixpoint(EncodeComponent(v), true, PIPELINE_CAP).0 }

  /** What the two sides decode to is canonical text already; of a name, the part before any `=`. */
  predicate Canonicals(p: Pair, t: Texts)
  {
    t.text(Received(Cut(p.0).0)) == Received(Cut(p.0).0) && t.text(Received(p.1)) == Received(p.1)
  }

  ghost predicate Carriable(p: Pair) { EQUALS !in p.0 && Stable(p.0) && Stable(p.1) }

  lemma DecodedIsNoLonger(v: seq<byte>)
    ensures |Received(v)| <= |v|
  {
    DecodeEncoded(v, true);
    OverlongShrinks(v);
    EncodeGrows(v);
    if OnePass(EncodeComponent(v), true) != EncodeComponent(v) {
      FixpointIsStable(CollapseOverlong(v), false, PIPELINE_CAP - 1);
    }
  }

  lemma {:induction false} EncodeConcat(a: seq<byte>, b: seq<byte>)
    ensures EncodeComponent(a + b) == EncodeComponent(a) + EncodeComponent(b)
    decreases |a|
  {
    if a == [] {
      assert a + b == b;
    } else {
      EncodeConcat(a[1..], b);
      EncodeFirst(a, b);
      Assoc(EncodeByte(a[0]), EncodeComponent(a[1..]), EncodeComponent(b));
    }
  }

  lemma EncodeFirst(a: seq<byte>, b: seq<byte>)
    requires a != []
    ensures EncodeComponent(a + b) == EncodeByte(a[0]) + EncodeComponent(a[1..] + b)
  {
    assert (a + b)[1..] == a[1..] + b;
  }

  /** A name with an `=` is cut short: the rest of it goes to the value. */
  lemma NameWithEqualsIsCut(p: Pair, t: Texts)
    requires EQUALS in p.0 && Canonicals(p, t)
    ensures |PairOf(PairText(p), t).0| < |p.0|
  {
    var head, tail := FirstEquals(p.0);
    CutInName(p, head, tail);
    DecodedIsNoLonger(head);
  }

  lemma FirstEquals(name: seq<byte>) returns (head: seq<byte>, tail: seq<byte>)
    requires EQUALS in name
    ensures name == head + [EQUALS] + tail && EQUALS !in head && Cut(name).0 == head && |head| < |name|
  {
    var pos := IndexOf(name, EQUALS).value;
    head, tail := name[..pos], name[pos + 1..];
  }

  lemma CutInName(p: Pair, head: seq<byte>, tail: seq<byte>)
    requires p.0 == head + [EQUALS] + tail && EQUALS !in head
    ensures Cut(PairText(p)).0 == EncodeComponent(head)
  {
    var n, rest := EncodeComponent(head), EncodeComponent(tail) + [EQUALS] + EncodeComponent(p.1);
    EncodedName(p.0, head, tail);
    EncodedHoldsNo(head, EQUALS);
    Assoc(n + [EQUALS], EncodeComponent(tail), [EQUALS]);
    Assoc(n + [EQUALS], EncodeComponent(tail) + [EQUALS], EncodeComponent(p.1));
    CutOfPair(n, rest);
  }

  lemma EncodedName(name: seq<byte>, head: seq<byte>, tail: seq<byte>)
    requires name == head + [EQUALS] + tail || name == head + ([EQUALS] + tail)
    ensures EncodeComponent(name) == EncodeComponent(head) + [EQUALS] + EncodeComponent(tail)
  {
    Assoc(head, [EQUALS], tail);
    EncodeConcat(head, [EQUALS] + tail);
    EncodeConcat([EQUALS], tail);
    assert EncodeComponent([EQUALS]) == [EQUALS];
    Assoc(EncodeComponent(head), [EQUALS], EncodeComponent(tail));
  }

  lemma PairTextIsPiece(p: Pair)
    ensures PairText(p) != [] && AMPERSAND !in PairText(p)
  {
    EncodedHoldsNo(p.0, AMPERSAND);
    EncodedHoldsNo(p.1, AMPERSAND);
  }

  lemma PairComesBackIff(p: Pair, t: Texts)
    requires Canonicals(p, t)
    ensures PairOf(PairText(p), t) == p <==> Carriable(p)
  {
    if EQUALS in p.0 {
      NameWithEqualsIsCut(p, t);
    } else {
      EncodedHoldsNo(p.0, EQUALS);
      CutOfPair(EncodeComponent(p.0), EncodeComponent(p.1));
      EncodedValueComesBackIff(p.0, PIPELINE_CAP);
      EncodedValueComesBackIff(p.1, PIPELINE_CAP);
    }
  }

  /** The exact reach of the builder's promise, for sides that decode to canonical text: a query
      within the limit comes back as built if and only if no name has an `=` and no name or value
      has an escape or an overlong pair of its own. */
  lemma QueryComesBackIff(pairs: seq<Pair>, maxParams: nat, t: Texts)
    requires pairs != [] && |pairs| <= maxParams && forall i :: 0 <= i < |pairs| ==> Canonicals(pairs[i], t)
    ensures var r := Parse(QueryOf(pairs).value, maxParams, t);
            r.Ok? && (r.query.params == pairs <==> forall i :: 0 <= i < |pairs| ==> Carriable(pairs[i]))
  {
    QuerySplits(pairs);
    ParamsComeBackIff(pairs, t);
  }

  lemma QuerySplits(pairs: seq<Pair>)
    requires pairs != []
    ensures NonEmpty(Split(QueryOf(pairs).value, AMPERSAND)) == PairTexts(pairs)
  {
    var pieces := PairTexts(pairs);
    forall i | 0 <= i < |pairs|
      ensures pieces[i] != [] && AMPERSAND !in pieces[i]
    {
      PairTextIsPiece(pairs[i]);
    }
    SplitJoin(pieces, AMPERSAND);
    AllNonEmpty(pieces);
  }

  lemma ParamsComeBackIff(pairs: seq<Pair>, t: Texts)
    requires forall i :: 0 <= i < |pairs| ==> Canonicals(pairs[i], t)
    ensures Params(PairTexts(pairs), t) == pairs <==> forall i :: 0 <= i < |pairs| ==> Carriable(pairs[i])
  {
    var params := Params(PairTexts(pairs), t);
    forall i | 0 <= i < |pairs|
      ensures params[i] == pairs[i] <==> Carriable(pairs[i])
    {
      PairComesBackIff(pairs[i], t);
    }
  }
}
