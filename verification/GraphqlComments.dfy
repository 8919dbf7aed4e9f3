/** Where the lexer and the grammar read a comment differently: to the grammar a carriage return ends it
    (section 2.1.2 of the GraphQL Specification, October 2021), to the lexer only a newline does. */
module GraphqlComments {
  import opened Bits
  import opened Seqs
  import opened Graphql
  import opened GraphqlTokens

  const RETURN: byte := 0x0D

  // ---- text that is read on its own ----

  /** A block string is closed within `b`, which starts behind its opening quotes. */
  predicate ClosedBlock(b: seq<byte>)
    decreases |b|
  {
    |b| >= 3 && (Triple(b) || (if b[0] == BACKSLASH then ClosedBlock(b[2..]) else ClosedBlock(b[1..])))
  }

  /** The first token ends within `b`, whatever comes on the next line. */
  predicate TokenCloses(b: seq<byte>)
    requires b != []
  {
    if Triple(b) then ClosedBlock(b[3..])
    else if b[0] == QUOTE then StringLen(b[1..]) < |b|
    else true
  }

  /** Every string opened in `b` is closed in it. */
  predicate Closed(b: seq<byte>)
    decreases |b|
  {
    b == [] || (TokenCloses(b) && Closed(Drop(b, TokenLen(b))))
  }

  lemma {:induction false} LineLenSplits(b: seq<byte>, rest: seq<byte>)
    ensures LineLen(b + [NEWLINE] + rest) == LineLen(b)
    decreases |b|
  {
    if b != [] && b[0] != NEWLINE {
      LineLenSplits(b[1..], rest);
      assert (b + [NEWLINE] + rest)[1..] == b[1..] + [NEWLINE] + rest;
    }
  }

  lemma {:induction false} StringLenSplits(b: seq<byte>, rest: seq<byte>)
    requires StringLen(b) <= |b|
    ensures StringLen(b + [NEWLINE] + rest) == StringLen(b)
    decreases |b|
  {
    var whole := b + [NEWLINE] + rest;
    if b[0] == BACKSLASH {
      if |b| >= 2 {
        StringLenSplits(b[2..], rest);
        assert whole[2..] == b[2..] + [NEWLINE] + rest;
      }
    } else if b[0] != QUOTE {
      StringLenSplits(b[1..], rest);
      assert whole[1..] == b[1..] + [NEWLINE] + rest;
    }
  }

  lemma TripleSplits(b: seq<byte>, rest: seq<byte>)
    ensures Triple(b + [NEWLINE] + rest) == Triple(b)
  {
    var whole := b + [NEWLINE] + rest;
    if |b| < 3 { assert whole[|b|] == NEWLINE; }
  }

  lemma {:induction false} BlockLenSplits(b: seq<byte>, rest: seq<byte>)
    requires ClosedBlock(b)
    ensures BlockLen(b + [NEWLINE] + rest) == BlockLen(b)
    decreases |b|
  {
    var whole := b + [NEWLINE] + rest;
    TripleSplits(b, rest);
    if !Triple(b) {
      if b[0] == BACKSLASH {
        BlockLenSplits(b[2..], rest);
        assert whole[2..] == b[2..] + [NEWLINE] + rest;
      } else {
        BlockLenSplits(b[1..], rest);
        assert whole[1..] == b[1..] + [NEWLINE] + rest;
      }
    }
  }

  lemma NameLenSplits(b: seq<byte>, rest: seq<byte>)
    ensures NameLen(b + [NEWLINE] + rest) == NameLen(b)
  {
    var n := NameLen(b);
    var tail := b[n..] + ([NEWLINE] + rest);
    assert b + [NEWLINE] + rest == b[..n] + tail;
    NameRunLen(b[..n], tail);
  }

  lemma TokenSplits(b: seq<byte>, rest: seq<byte>, s: State)
    requires b != [] && TokenCloses(b)
    ensures TokenLen(b) <= |b| && TokenLen(b + [NEWLINE] + rest) == TokenLen(b)
    ensures Effect(b + [NEWLINE] + rest, s) == Effect(b, s)
  {
    var whole := b + [NEWLINE] + rest;
    assert whole[0] == b[0] && whole[1..] == b[1..] + [NEWLINE] + rest;
    LineLenSplits(b, rest);
    TripleSplits(b, rest);
    NameLenSplits(b, rest);
    if Triple(b) {
      BlockLenSplits(b[3..], rest);
      assert whole[3..] == b[3..] + [NEWLINE] + rest;
    } else if b[0] == QUOTE {
      StringLenSplits(b[1..], rest);
    } else if NameStart(b[0]) {
      assert whole[..NameLen(b)] == b[..NameLen(b)];
    }
  }

  lemma DropSplits(b: seq<byte>, rest: seq<byte>, n: nat)
    requires n <= |b|
    ensures Drop(b + [NEWLINE] + rest, n) == Drop(b, n) + [NEWLINE] + rest
  {
  }

  lemma {:induction false} LexSplits(b: seq<byte>, rest: seq<byte>, s: State)
    requires Closed(b)
    ensures Lex(b + [NEWLINE] + rest, s) == Lex(rest, Lex(b, s))
    decreases |b|
  {
    if b == [] {
      assert b + [NEWLINE] + rest == [NEWLINE] + rest;
      LexOne(NEWLINE, rest, s);
    } else {
      TokenSplits(b, rest, s);
      DropSplits(b, rest, TokenLen(b));
      LexesOn(b + [NEWLINE] + rest, TokenLen(b), s, Effect(b, s));
      LexSplits(Drop(b, TokenLen(b)), rest, Effect(b, s));
    }
  }

  // ---- text that swallows what follows ----

  /** Nothing, or one `@`: what an open string is tried with. */
  predicate Trial(rest: seq<byte>) { rest == [] || rest == [AT] }

  lemma {:induction false} OpenString(b: seq<byte>, rest: seq<byte>)
    requires StringLen(b) > |b| && Trial(rest)
    ensures StringLen(b + [NEWLINE] + rest) >= |b| + 1 + |rest|
    decreases |b|
  {
    var whole := b + [NEWLINE] + rest;
    if b == [] {
      assert whole[1..] == rest;
      OneMore(rest);
    } else if b[0] == BACKSLASH {
      if |b| >= 2 {
        OpenString(b[2..], rest);
        assert whole[2..] == b[2..] + [NEWLINE] + rest;
      } else {
        assert whole[2..] == rest;
        OneMore(rest);
      }
    } else {
      OpenString(b[1..], rest);
      assert whole[1..] == b[1..] + [NEWLINE] + rest;
    }
  }

  lemma OneMore(rest: seq<byte>)
    requires Trial(rest)
    ensures StringLen(rest) > |rest|
  {
    assert rest != [] ==> rest[1..] == [];
  }

  lemma {:induction false} OpenBlock(b: seq<byte>)
    requires !ClosedBlock(b)
    ensures BlockLen(b) == |b|
    decreases |b|
  {
    if |b| >= 3 { OpenBlock(if b[0] == BACKSLASH then b[2..] else b[1..]); }
  }

  lemma {:induction false} OpenBlockSwallows(b: seq<byte>, rest: seq<byte>)
    requires !ClosedBlock(b) && Trial(rest)
    ensures !ClosedBlock(b + [NEWLINE] + rest)
    decreases |b|
  {
    var whole := b + [NEWLINE] + rest;
    TripleSplits(b, rest);
    if b != [] && |whole| >= 3 {
      if b[0] != BACKSLASH {
        assert whole[1..] == b[1..] + [NEWLINE] + rest;
        OpenBlockSwallows(b[1..], rest);
      } else if |b| >= 2 {
        assert whole[2..] == b[2..] + [NEWLINE] + rest;
        OpenBlockSwallows(b[2..], rest);
      } else {
        assert |whole[2..]| < 3;
      }
    }
  }

  lemma OpenTokenSwallows(b: seq<byte>, rest: seq<byte>, s: State)
    requires b != [] && !TokenCloses(b) && Trial(rest)
    ensures Lex(b, s) == s && Lex(b + [NEWLINE] + rest, s) == s
  {
    var whole := b + [NEWLINE] + rest;
    TripleSplits(b, rest);
    if Triple(b) {
      assert whole[3..] == b[3..] + [NEWLINE] + rest;
      OpenBlockSwallows(b[3..], rest);
      OpenBlock(b[3..]);
      OpenBlock(whole[3..]);
    } else {
      assert whole[1..] == b[1..] + [NEWLINE] + rest;
      OpenString(b[1..], rest);
    }
    LexesOn(b, TokenLen(b), s, s);
    LexesOn(whole, TokenLen(whole), s, s);
    assert Drop(b, TokenLen(b)) == [] && Drop(whole, TokenLen(whole)) == [];
  }

  lemma {:induction false} OpenSwallows(b: seq<byte>, rest: seq<byte>, s: State)
    requires !Closed(b) && Trial(rest)
    ensures Lex(b + [NEWLINE] + rest, s) == Lex(b, s)
    decreases |b|
  {
    if TokenCloses(b) {
      TokenSplits(b, rest, s);
      DropSplits(b, rest, TokenLen(b));
      LexesOn(b + [NEWLINE] + rest, TokenLen(b), s, Effect(b, s));
      OpenSwallows(Drop(b, TokenLen(b)), rest, Effect(b, s));
    } else {
      OpenTokenSwallows(b, rest, s);
    }
  }

  // ---- states that some text tells apart ----

  function Run(c: byte, n: nat): seq<byte> { if n == 0 then [] else [c] + Run(c, n - 1) }

  lemma {:induction false} LexCloses(close: byte, n: nat, rest: seq<byte>, s: State, end: State)
    requires close == CLOSE_PAREN && n <= s.paren && end == s.(paren := s.paren - n)
    ensures Lex(Run(close, n) + rest, s) == Lex(rest, end)
    decreases n
  {
    if n == 0 {
      assert Run(close, n) + rest == rest;
    } else {
      LexClose(close, n, rest, s, s.(paren := s.paren - 1));
      LexCloses(close, n - 1, rest, s.(paren := s.paren - 1), end);
    }
  }

  lemma LexClose(close: byte, n: nat, rest: seq<byte>, s: State, next: State)
    requires close == CLOSE_PAREN && n >= 1 && s.paren >= 1 && next == s.(paren := s.paren - 1)
    ensures Lex(Run(close, n) + rest, s) == Lex(Run(close, n - 1) + rest, next)
  {
    var more := Run(close, n - 1) + rest;
    Assoc([close], Run(close, n - 1), rest);
    assert Run(close, n) + rest == [close] + more;
    LexOne(close, more, s);
    CloseIs(close, s, next);
  }

  lemma CloseIs(close: byte, s: State, next: State)
    requires close == CLOSE_PAREN && s.paren >= 1 && next == s.(paren := s.paren - 1)
    ensures Effect([close], s) == next
  {
  }

  lemma {:induction false} LexOpens(n: nat, s: State)
    requires s.paren == 0 && n >= 1
    ensures Lex(Run(OPEN_BRACE, n), s).stats.maxDepth == Max(s.stats.maxDepth, s.depth + n)
  {
    LexOne(OPEN_BRACE, Run(OPEN_BRACE, n - 1), s);
    if n > 1 { LexOpens(n - 1, OpenBrace(s)); } else { assert Run(OPEN_BRACE, n - 1) == []; }
  }

  /** Two states that agree so far: some text makes their counts differ. */
  lemma Apart(s: State, t: State) returns (rest: seq<byte>)
    requires s != t && s.stats == t.stats
    ensures Lex(rest, s).stats != Lex(rest, t).stats
  {
    if s.paren != t.paren {
      var n := Min(s.paren, t.paren);
      rest := Run(CLOSE_PAREN, n) + [COLON];
      LexCloses(CLOSE_PAREN, n, [COLON], s, s.(paren := s.paren - n));
      LexCloses(CLOSE_PAREN, n, [COLON], t, t.(paren := t.paren - n));
      LexColon(s.(paren := s.paren - n));
      LexColon(t.(paren := t.paren - n));
    } else {
      var n := s.stats.maxDepth + 1;
      rest := Run(CLOSE_PAREN, s.paren) + Run(OPEN_BRACE, n);
      LexCloses(CLOSE_PAREN, s.paren, Run(OPEN_BRACE, n), s, s.(paren := 0));
      LexCloses(CLOSE_PAREN, s.paren, Run(OPEN_BRACE, n), t, t.(paren := t.paren - s.paren));
      LexOpens(n, s.(paren := 0));
      LexOpens(n, t.(paren := 0));
    }
  }

  lemma LexColon(s: State)
    ensures Lex([COLON], s) == CountAlias(s)
  {
    assert [COLON] + [] == [COLON];
    LexOne(COLON, [], s);
  }

  // ---- text that leaves no mark ----

  /** Depth never passes the depth recorded. */
  predicate Sane(s: State) { s.depth <= s.stats.maxDepth }

  /** The line `b` and its newline leave no mark on what comes after. */
  ghost predicate LeavesNoMark(b: seq<byte>, rest: seq<byte>, s: State)
  {
    Lex(b + [NEWLINE] + rest, s).stats == Lex(rest, s).stats
  }

  lemma MarkShows(b: seq<byte>, s: State) returns (rest: seq<byte>)
    requires !Closed(b) || Lex(b, s) != s
    ensures !LeavesNoMark(b, rest, s)
  {
    var t := Lex(b, s);
    if t.stats != s.stats {
      rest := [];
      if Closed(b) { LexSplits(b, rest, s); } else { OpenSwallows(b, rest, s); }
    } else if !Closed(b) {
      rest := [AT];
      OpenSwallows(b, rest, s);
      assert [AT] + [] == [AT];
      LexOne(AT, [], s);
    } else {
      rest := Apart(s, t);
      LexSplits(b, rest, s);
    }
  }

  /** Strings are closed in it, parentheses balance in it, names, `:`, `{` and `}` stand only inside
      those parentheses, and there is no `@`. `p` is the number of parentheses open before it. */
  predicate Inert(b: seq<byte>, p: nat)
    decreases |b|
  {
    if b == [] then p == 0
    else TokenCloses(b) && Harmless(b[0], p) && Inert(Drop(b, TokenLen(b)), After(b[0], p))
  }

  predicate Harmless(c: byte, p: nat)
  {
    c != AT && (c == CLOSE_PAREN || c == COLON || c == OPEN_BRACE || c == CLOSE_BRACE || NameStart(c) ==> p > 0)
  }

  function After(c: byte, p: nat): nat
  {
    if c == OPEN_PAREN then p + 1 else if c == CLOSE_PAREN && p > 0 then p - 1 else p
  }

  function Inside(s: State, p: nat): State { s.(paren := s.paren + p) }

  lemma HarmlessEffect(b: seq<byte>, p: nat, s: State)
    requires b != [] && Harmless(b[0], p)
    ensures Effect(b, Inside(s, p)) == Inside(s, After(b[0], p))
  {
  }

  lemma {:induction false} InertIsStill(b: seq<byte>, p: nat, s: State)
    requires Inert(b, p)
    ensures Closed(b) && Lex(b, Inside(s, p)) == s
    decreases |b|
  {
    if b != [] {
      HarmlessEffect(b, p, s);
      InertIsStill(Drop(b, TokenLen(b)), After(b[0], p), s);
    }
  }

  /** Counts never fall. */
  ghost predicate Rises(s: State, t: State)
  {
    && s.stats.maxDepth <= t.stats.maxDepth && s.stats.aliases <= t.stats.aliases
    && s.stats.fields <= t.stats.fields && s.stats.directives <= t.stats.directives
  }

  lemma {:induction false} LexRises(b: seq<byte>, s: State)
    ensures Rises(s, Lex(b, s))
    decreases |b|
  {
    if b != [] { LexRises(Drop(b, TokenLen(b)), Effect(b, s)); }
  }

  /** A state on which `c` leaves a mark, when it is not harmless and not closing anything. */
  lemma Counted(b: seq<byte>, p: nat) returns (s: State)
    requires b != [] && !Harmless(b[0], p) && b[0] != CLOSE_PAREN && b[0] != CLOSE_BRACE
    ensures Sane(s) && Lex(b, Inside(s, p)) != s
  {
    s := State(1, 0, Stats(1, 0, 0, 0, false));
    if b[0] == OPEN_BRACE { s := START; }
    LexRises(Drop(b, TokenLen(b)), Effect(b, Inside(s, p)));
  }

  /** Closing what is not open: two states become one, so one of them changes. */
  lemma Merged(b: seq<byte>) returns (s: State)
    requires b != [] && (b[0] == CLOSE_PAREN || b[0] == CLOSE_BRACE)
    ensures Sane(s) && Lex(b, s) != s
  {
    s := State(0, 0, Stats(1, 0, 0, 0, false));
    var other := if b[0] == CLOSE_PAREN then s.(paren := 1) else s.(depth := 1);
    assert Effect(b, s) == Effect(b, other);
    if Lex(b, s) == s { s := other; }
  }

  lemma {:induction false} NotInertMoves(b: seq<byte>, p: nat) returns (s: State)
    requires Closed(b) && !Inert(b, p)
    ensures Sane(s) && Lex(b, Inside(s, p)) != s
    decreases |b|
  {
    if b == [] {
      s := START;
    } else if Harmless(b[0], p) {
      s := NotInertMoves(Drop(b, TokenLen(b)), After(b[0], p));
      HarmlessEffect(b, p, s);
    } else if b[0] == CLOSE_PAREN || b[0] == CLOSE_BRACE {
      s := Merged(b);
      assert Inside(s, p) == s;
    } else {
      s := Counted(b, p);
    }
  }

  /** A line leaves no mark, in any state and before anything, exactly when it is inert. */
  lemma LeavesNoMarkIff(b: seq<byte>)
    ensures (forall rest: seq<byte>, s: State :: Sane(s) ==> LeavesNoMark(b, rest, s)) <==> Inert(b, 0)
  {
    if Inert(b, 0) {
      forall rest: seq<byte>, s: State | Sane(s)
        ensures LeavesNoMark(b, rest, s)
      {
        InertIsStill(b, 0, s);
        assert Inside(s, 0) == s;
        LexSplits(b, rest, s);
      }
    } else {
      var s := START;
      if Closed(b) {
        s := NotInertMoves(b, 0);
        assert Inside(s, 0) == s;
      }
      var rest := MarkShows(b, s);
      assert !LeavesNoMark(b, rest, s);
    }
  }

  // ---- the carriage return in a comment ----

  /** The text with its carriage returns as newlines: what they are to the grammar. */
  function Ended(b: seq<byte>): (r: seq<byte>)
    ensures |r| == |b|
  {
    seq(|b|, i requires 0 <= i < |b| => if b[i] == RETURN then NEWLINE else b[i])
  }

  /** A comment `t` ended by a carriage return, more text, a newline, and what follows: to the lexer
      all of the line is comment, to the grammar the text after the carriage return is not. */
  ghost predicate SameReading(t: CommentText, more: CommentText, rest: seq<byte>, s: State)
  {
    Lex([HASH] + (t + [RETURN] + more) + ([NEWLINE] + rest), s).stats == Lex(Ended(more) + [NEWLINE] + rest, s).stats
  }

  /** The two readings agree, in any state and before anything, exactly when what stands between the
      carriage return and the newline is inert. */
  lemma CarriageReturnEndsCommentIff(t: CommentText, more: CommentText)
    ensures (forall rest: seq<byte>, s: State :: Sane(s) ==> SameReading(t, more, rest, s)) <==> Inert(Ended(more), 0)
  {
    LeavesNoMarkIff(Ended(more));
    forall rest: seq<byte>, s: State
      ensures SameReading(t, more, rest, s) <==> LeavesNoMark(Ended(more), rest, s)
    {
      CarriageReturnIsComment(t, more, rest, s);
    }
  }

  lemma CarriageReturnIsComment(t: CommentText, more: CommentText, rest: seq<byte>, s: State)
    ensures Lex([HASH] + (t + [RETURN] + more) + ([NEWLINE] + rest), s) == Lex(rest, s)
  {
    var line := OneComment(t, more);
    LexComment(line, [NEWLINE] + rest, s);
    LexOne(NEWLINE, rest, s);
  }

  lemma OneComment(t: CommentText, more: CommentText) returns (line: CommentText)
    ensures line == t + [RETURN] + more
  {
    line := t + [RETURN] + more;
  }

  /** They do not for a brace: behind `#` and a carriage return it opens a level to the grammar, and
      none to the lexer. */
  lemma BraceBehindReturn(none: CommentText, brace: CommentText)
    requires none == [] && brace == [OPEN_BRACE]
    ensures Lex([HASH] + (none + [RETURN] + brace) + ([NEWLINE] + []), START).stats.maxDepth == 0
    ensures Lex(Ended(brace) + [NEWLINE] + [], START).stats.maxDepth == 1
    ensures !SameReading(none, brace, [], START)
  {
    CarriageReturnIsComment(none, brace, [], START);
    assert Ended(brace) + [NEWLINE] + [] == [OPEN_BRACE] + ([NEWLINE] + []);
    LexOne(OPEN_BRACE, [NEWLINE] + [], START);
    LexOne(NEWLINE, [], OpenBrace(START));
  }
}
