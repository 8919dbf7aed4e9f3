/** How a query is put together: piece by piece, empty pieces aside, each piece a name and a value. */
module QueryPieces {
  import opened Bits
  import opened Seqs
  import opened Percent
  import opened Query

  function Pieces(query: seq<byte>): seq<seq<byte>> { NonEmpty(Split(query, AMPERSAND)) }

  lemma {:induction false} NonEmptyConcat(a: seq<seq<byte>>, b: seq<seq<byte>>)
    ensures NonEmpty(a + b) == NonEmpty(a) + NonEmpty(b)
    decreases |a|
  {
    if a == [] {
      assert a + b == b;
    } else {
      NonEmptyConcat(a[1..], b);
      assert (a + b)[1..] == a[1..] + b;
    }
  }

  lemma PiecesConcat(a: seq<byte>, b: seq<byte>)
    ensures Pieces(a + [AMPERSAND] + b) == Pieces(a) + Pieces(b)
  {
    SplitConcat(a, b, AMPERSAND);
    NonEmptyConcat(Split(a, AMPERSAND), Split(b, AMPERSAND));
  }

  lemma NoPieces(none: seq<byte>)
    requires none == []
    ensures Pieces(none) == []
  {
    var pieces := Split(none, AMPERSAND);
    assert pieces == [none] && pieces[1..] == [];
    assert NonEmpty(pieces[1..]) == [];
  }

  /** Ampersands without anything between them, before or after a query do not count. */
  lemma EmptyPiecesDoNotCount(a: seq<byte>, b: seq<byte>, maxParams: nat, t: Texts)
    ensures Parse(a + [AMPERSAND] + ([AMPERSAND] + b), maxParams, t) == Parse(a + [AMPERSAND] + b, maxParams, t)
    ensures Parse([AMPERSAND] + a, maxParams, t) == Parse(a, maxParams, t) == Parse(a + [AMPERSAND], maxParams, t)
  {
    var none: seq<byte> := [];
    NoPieces(none);
    PiecesConcat(a, [AMPERSAND] + b);
    PiecesConcat(a, b);
    PiecesConcat(none, b);
    PiecesConcat(none, a);
    PiecesConcat(a, none);
    assert none + [AMPERSAND] + b == [AMPERSAND] + b && none + [AMPERSAND] + a == [AMPERSAND] + a;
    assert a + [AMPERSAND] + none == a + [AMPERSAND];
    assert [] + Pieces(b) == Pieces(b) && [] + Pieces(a) == Pieces(a) && Pieces(a) + [] == Pieces(a);
  }

  lemma {:induction false} DerivedConcat(a: seq<seq<byte>>, b: seq<seq<byte>>, t: Texts)
    ensures Derived(a + b, t) == Derived(a, t) + Derived(b, t)
    decreases |b|
  {
    if b == [] {
      assert a + b == a;
    } else {
      var last := b[|b| - 1];
      DerivedConcat(a, b[..|b| - 1], t);
      assert (a + b)[..|a + b| - 1] == a + b[..|b| - 1] && (a + b)[|a + b| - 1] == last;
      Assoc(Derived(a, t), Derived(b[..|b| - 1], t), t.derive(PairOf(last, t).1));
    }
  }

  lemma MeaningConcat(a: seq<seq<byte>>, b: seq<seq<byte>>, t: Texts)
    ensures var m, n := Meaning(a, t), Meaning(b, t);
            Meaning(a + b, t)
              == Parsed(m.params + n.params, m.doubleEncoded || n.doubleEncoded, m.derived + n.derived)
  {
    DerivedConcat(a, b, t);
    DoubledConcat(a, b, t);
    ParamsConcat(a, b, t);
  }

  lemma {:induction false} ParamsConcat(a: seq<seq<byte>>, b: seq<seq<byte>>, t: Texts)
    ensures Params(a + b, t) == Params(a, t) + Params(b, t)
    decreases |b|
  {
    if b == [] {
      assert a + b == a;
    } else {
      var before, last := b[..|b| - 1], b[|b| - 1];
      ParamsConcat(a, before, t);
      ParamsGrow(a + before, last, t);
      ParamsGrow(before, last, t);
      assert b == before + [last] && a + b == a + before + [last];
    }
  }

  lemma DoubledConcat(a: seq<seq<byte>>, b: seq<seq<byte>>, t: Texts)
    ensures (exists i :: 0 <= i < |a + b| && DoubledIn((a + b)[i], t))
      <==> (exists i :: 0 <= i < |a| && DoubledIn(a[i], t)) || (exists i :: 0 <= i < |b| && DoubledIn(b[i], t))
  {
    if i :| 0 <= i < |a| && DoubledIn(a[i], t) { assert DoubledIn((a + b)[i], t); }
    if i :| 0 <= i < |b| && DoubledIn(b[i], t) { assert DoubledIn((a + b)[|a| + i], t); }
  }

  /** Two queries joined by an ampersand give what they give apart, one after the other; they are too many
      exactly when one of them is or both together are. */
  lemma JoinedQueries(a: seq<byte>, b: seq<byte>, maxParams: nat, t: Texts)
    ensures var x, y, r := Parse(a, maxParams, t), Parse(b, maxParams, t), Parse(a + [AMPERSAND] + b, maxParams, t);
            if x.Ok? && y.Ok? && |x.query.params| + |y.query.params| <= maxParams then
              r == Ok(Parsed(x.query.params + y.query.params, x.query.doubleEncoded || y.query.doubleEncoded,
                             x.query.derived + y.query.derived))
            else r == TooManyParams(maxParams)
  {
    PiecesConcat(a, b);
    MeaningConcat(Pieces(a), Pieces(b), t);
  }

  /** One piece is one pair: what stands before the first `=` and what stands after it, or the whole and
      nothing, each decoded as a form; what is derived is derived from the value alone. */
  lemma PieceIsPair(name: seq<byte>, value: seq<byte>, maxParams: nat, t: Texts)
    requires EQUALS !in name && AMPERSAND !in name && AMPERSAND !in value && maxParams >= 1
    ensures var n, v := Canonical(name, true, t), Canonical(value, true, t);
            Parse(name + [EQUALS] + value, maxParams, t) == Ok(Parsed([(n.0, v.0)], n.1 || v.1, t.derive(v.0)))
    ensures name != [] ==>
      var n, v := Canonical(name, true, t), Canonical([], true, t);
      Parse(name, maxParams, t) == Ok(Parsed([(n.0, v.0)], n.1 || v.1, t.derive(v.0)))
  {
    CutOfPair(name, value);
    OnePiece(name + [EQUALS] + value, maxParams, t);
    if name != [] { OnePiece(name, maxParams, t); }
  }

  lemma OnePiece(piece: seq<byte>, maxParams: nat, t: Texts)
    requires piece != [] && AMPERSAND !in piece && maxParams >= 1
    ensures Parse(piece, maxParams, t)
      == Ok(Parsed([PairOf(piece, t)], DoubledIn(piece, t), t.derive(PairOf(piece, t).1)))
  {
    SplitPiece(piece, [], AMPERSAND);
    AllNonEmpty([piece]);
    MeaningGrows([], piece, t);
    assert [] + [piece] == [piece];
    assert Meaning([], t) == Parsed([], false, []);
  }
}
