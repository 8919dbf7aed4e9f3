/** Splitting and joining of sequences at a separator, and first-occurrence search:
    the specifications of `str::split`, `find` and the byte searches. */
module Seqs {

  datatype Option<+T> = None | Some(value: T)

  lemma Assoc<T>(a: seq<T>, b: seq<T>, c: seq<T>)
    ensures (a + b) + c == a + (b + c)
  {
  }

  // ---- results read piece by piece ----

  /** `first`, and then what follows it, if that can be read. */
  function Then<T>(first: seq<T>, rest: Option<seq<T>>): Option<seq<T>>
  {
    match rest case None => None case Some(more) => Some(first + more)
  }

  lemma ThenTwice<T>(a: seq<T>, b: seq<T>, rest: Option<seq<T>>)
    ensures Then(a, Then(b, rest)) == Then(a + b, rest)
  {
    if rest.Some? { Assoc(a, b, rest.value); }
  }

  lemma NothingFirst<T>(rest: Option<seq<T>>)
    ensures Then([], rest) == rest
  {
    if rest.Some? { assert [] + rest.value == rest.value; }
  }

  /** What is read off the front of an input, and what is left of it. */
  datatype Front<+T, +U> = Front(read: seq<T>, rest: seq<U>)

  function Ahead<T, U>(first: seq<T>, f: Front<T, U>): Front<T, U> { Front(first + f.read, f.rest) }

  lemma AheadTwice<T, U>(a: seq<T>, b: seq<T>, f: Front<T, U>)
    ensures Ahead(a, Ahead(b, f)) == Ahead(a + b, f)
  {
    Assoc(a, b, f.read);
  }

  function AheadIfAny<T, U>(first: seq<T>, f: Option<Front<T, U>>): Option<Front<T, U>>
  {
    match f case None => None case Some(front) => Some(Ahead(first, front))
  }

  lemma AheadIfAnyTwice<T, U>(a: seq<T>, b: seq<T>, f: Option<Front<T, U>>)
    ensures AheadIfAny(a, AheadIfAny(b, f)) == AheadIfAny(a + b, f)
  {
    if f.Some? { AheadTwice(a, b, f.value); }
  }

  lemma NothingAhead<T, U>(f: Option<Front<T, U>>)
    ensures AheadIfAny([], f) == f
  {
    if f.Some? { assert [] + f.value.read == f.value.read; }
  }

  // ---- splitting and searching ----

  /** `s.split(sep)`: always at least one piece. */
  function Split<T(==)>(s: seq<T>, sep: T): (pieces: seq<seq<T>>)
    ensures |pieces| >= 1
    decreases |s|
  {
    if s == [] then [[]]
    else if s[0] == sep then [[]] + Split(s[1..], sep)
    else Lead(s[0], Split(s[1..], sep))
  }

  /** An element put at the front of the first piece. */
  function Lead<T>(x: T, pieces: seq<seq<T>>): (r: seq<seq<T>>)
    requires |pieces| >= 1
    ensures |r| == |pieces|
  {
    [[x] + pieces[0]] + pieces[1..]
  }

  lemma LeadConcat<T>(x: T, a: seq<seq<T>>, b: seq<seq<T>>)
    requires |a| >= 1
    ensures Lead(x, a + b) == Lead(x, a) + b
  {
    assert (a + b)[1..] == a[1..] + b;
  }

  function Join<T>(pieces: seq<seq<T>>, sep: T): seq<T>
  {
    if pieces == [] then []
    else if |pieces| == 1 then pieces[0]
    else pieces[0] + [sep] + Join(pieces[1..], sep)
  }

  lemma {:induction false} SplitPiece<T>(piece: seq<T>, rest: seq<T>, sep: T)
    requires sep !in piece
    ensures Split(piece + [sep] + rest, sep) == [piece] + Split(rest, sep)
    ensures Split(piece, sep) == [piece]
    decreases |piece|
  {
    var whole := piece + [sep] + rest;
    if piece == [] {
      assert whole[1..] == rest;
    } else {
      SplitPiece(piece[1..], rest, sep);
      assert whole[1..] == piece[1..] + [sep] + rest;
      assert [piece[0]] + piece[1..] == piece;
    }
  }

  /** Splitting undoes joining when no piece holds the separator. */
  lemma {:induction false} SplitJoin<T>(pieces: seq<seq<T>>, sep: T)
    requires |pieces| >= 1
    requires forall i :: 0 <= i < |pieces| ==> sep !in pieces[i]
    ensures Split(Join(pieces, sep), sep) == pieces
    decreases |pieces|
  {
    if |pieces| == 1 {
      SplitPiece(pieces[0], [], sep);
    } else {
      SplitJoin(pieces[1..], sep);
      SplitPiece(pieces[0], Join(pieces[1..], sep), sep);
      assert pieces == [pieces[0]] + pieces[1..];
    }
  }

  /** Splitting at a separator that stands in the text splits the text in two there. */
  lemma {:induction false} SplitConcat<T>(a: seq<T>, b: seq<T>, sep: T)
    ensures Split(a + [sep] + b, sep) == Split(a, sep) + Split(b, sep)
    decreases |a|
  {
    var whole := a + [sep] + b;
    if a == [] {
      assert whole[1..] == b;
    } else {
      SplitConcat(a[1..], b, sep);
      assert whole[1..] == a[1..] + [sep] + b;
      assert Split(whole, sep) ==
        if a[0] == sep then [[]] + Split(whole[1..], sep) else Lead(a[0], Split(whole[1..], sep));
      LeadConcat(a[0], Split(a[1..], sep), Split(b, sep));
      Assoc([[]], Split(a[1..], sep), Split(b, sep));
    }
  }

  /** No piece of a split holds the separator. */
  lemma {:induction false} PiecesAreFree<T>(s: seq<T>, sep: T)
    ensures forall i :: 0 <= i < |Split(s, sep)| ==> sep !in Split(s, sep)[i]
    decreases |s|
  {
    if s != [] { PiecesAreFree(s[1..], sep); }
  }

  predicate HasAt<T(==)>(s: seq<T>, needle: seq<T>, at: int)
  {
    0 <= at <= |s| - |needle| && s[at..at + |needle|] == needle
  }

  ghost predicate Contains<T>(s: seq<T>, needle: seq<T>)
  {
    exists at :: HasAt(s, needle, at)
  }

  /** `at` is the first occurrence of `needle` in `s` at or after `from`. */
  ghost predicate FirstAt<T>(s: seq<T>, needle: seq<T>, from: nat, at: nat)
  {
    from <= at && HasAt(s, needle, at) && forall k :: from <= k < at ==> !HasAt(s, needle, k)
  }

  /** First index of an element, `position` on an iterator and `find` of a character. */
  function IndexOf<T(==)>(s: seq<T>, x: T): (r: Option<nat>)
    ensures r.Some? ==> r.value < |s| && s[r.value] == x && x !in s[..r.value]
    ensures r.None? ==> x !in s
    decreases |s|
  {
    if s == [] then None
    else if s[0] == x then Some(0)
    else match IndexOf(s[1..], x)
      case None => None
      case Some(k) => assert s[..k + 1] == [s[0]] + s[1..][..k]; Some(k + 1)
  }

  lemma {:induction false} IndexOfPiece<T>(piece: seq<T>, rest: seq<T>, x: T)
    requires x !in piece
    ensures IndexOf(piece + [x] + rest, x) == Some(|piece|)
    decreases |piece|
  {
    var whole := piece + [x] + rest;
    if piece != [] {
      IndexOfPiece(piece[1..], rest, x);
      assert whole[1..] == piece[1..] + [x] + rest;
    }
  }
}
