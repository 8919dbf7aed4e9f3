/** The lexical grammar of GraphQL documents (section 2.1 of the GraphQL Specification, October 2021),
    the printing of token lists, and the proof that the one-pass lexer reads them token by token. */
module GraphqlTokens {
  import opened Bits
  import opened Graphql

  // ---- what each token may hold ----

  type Name = n: seq<byte> | IsName(n) witness [0x61]

  predicate IsName(n: seq<byte>)
  {
    n != [] && NameStart(n[0]) && forall k :: 0 <= k < |n| ==> NameByte(n[k])
  }

  /** Digits, sign, point and exponent of an integer or float. */
  type Numeral = t: seq<byte> | IsNumeral(t) witness [0x30]

  predicate NumeralByte(c: byte) { 0x30 <= c <= 0x39 || c == 0x2B || c == 0x2D || c == 0x2E || c == 0x45 || c == 0x65 }

  predicate IsNumeral(t: seq<byte>)
  {
    t != [] && (t[0] == 0x2D || 0x30 <= t[0] <= 0x39) && forall k :: 0 <= k < |t| ==> NumeralByte(t[k])
  }

  /** Between the quotes of a string: no quote but after a backslash, and something after each backslash. */
  type StringText = t: seq<byte> | IsStringText(t) witness []

  predicate IsStringText(t: seq<byte>)
    decreases |t|
  {
    t == [] || (if t[0] == BACKSLASH then |t| >= 2 && IsStringText(t[2..]) else t[0] != QUOTE && IsStringText(t[1..]))
  }

  const TRIPLE: seq<byte> := [QUOTE, QUOTE, QUOTE]

  /** Between the triple quotes of a block string: none of them, nor the start of one, but behind a backslash. */
  type BlockText = t: seq<byte> | IsBlockText(t) witness []

  predicate IsBlockText(t: seq<byte>)
    decreases |t|
  {
    t == []
    || (if t[0] == BACKSLASH then |t| >= 2 && IsBlockText(t[2..]) else !Triple(t + TRIPLE) && IsBlockText(t[1..]))
  }

  type CommentText = t: seq<byte> | NEWLINE !in t witness []

  /** White space, line ends, commas, and the bytes of a byte order mark. */
  type Blank = c: byte | IsBlank(c) witness 0x20

  predicate IsBlank(c: byte)
  {
    c == 0x09 || c == 0x0A || c == 0x0D || c == 0x20 || c == COMMA || c == 0xEF || c == 0xBB || c == 0xBF
  }

  /** `! $ & ( ) : = @ [ ] { | }` */
  type Punctuator = c: byte | IsPunctuator(c) witness 0x21

  predicate IsPunctuator(c: byte)
  {
    || c == 0x21 || c == 0x24 || c == 0x26 || c == OPEN_PAREN || c == CLOSE_PAREN || c == COLON || c == 0x3D || c == AT
    || c == 0x5B || c == 0x5D || c == OPEN_BRACE || c == 0x7C || c == CLOSE_BRACE
  }

  datatype Token =
    | NameToken(name: Name)
    | NumeralToken(numeral: Numeral)
    | StringToken(text: StringText)
    | BlockToken(block: BlockText)
    | PunctToken(punct: Punctuator)
    | DotsToken
    | BlankToken(blank: Blank)
    | CommentToken(comment: CommentText)

  predicate Ignored(t: Token) { t.BlankToken? || t.CommentToken? }

  // ---- printing ----

  const DOTS: seq<byte> := [0x2E, 0x2E, 0x2E]

  function PrintToken(t: Token): (r: seq<byte>)
    ensures r != []
  {
    match t
    case NameToken(name) => name
    case NumeralToken(numeral) => numeral
    case StringToken(text) => [QUOTE] + text + [QUOTE]
    case BlockToken(block) => TRIPLE + block + TRIPLE
    case PunctToken(punct) => [punct]
    case DotsToken => DOTS
    case BlankToken(blank) => [blank]
    case CommentToken(comment) => [HASH] + comment
  }

  function PrintTokens(ts: seq<Token>): seq<byte>
  {
    if ts == [] then [] else PrintToken(ts[0]) + PrintTokens(ts[1..])
  }

  predicate Word(t: Token) { t.NameToken? || t.NumeralToken? }

  /** Whether `u` may stand right behind `t`: two words need something between them, so do an empty
      string and another string, and a comment ends with its line. */
  predicate MayFollow(t: Token, u: Token)
  {
    && (Word(t) ==> !Word(u))
    && (t.StringToken? && t.text == [] ==> !u.StringToken? && !u.BlockToken?)
    && (t.CommentToken? ==> u == BlankToken(NEWLINE))
  }

  predicate Separated(ts: seq<Token>) { forall k :: 0 <= k < |ts| - 1 ==> MayFollow(ts[k], ts[k + 1]) }

  // ---- counting token by token ----

  /** Outside parentheses the lexer would take the exponent of a numeral for a name; numerals stand inside. */
  function CountToken(t: Token, s: State): State
  {
    match t
    case NameToken(name) => CountName(name, s)
    case NumeralToken(numeral) => Lex(numeral, s)
    case PunctToken(punct) => Effect([punct], s)
    case _ => s
  }

  function CountTokens(ts: seq<Token>, s: State): State
    decreases |ts|
  {
    if ts == [] then s else CountTokens(ts[1..], CountToken(ts[0], s))
  }

  lemma {:induction false} CountConcat(a: seq<Token>, b: seq<Token>, s: State)
    ensures CountTokens(a + b, s) == CountTokens(b, CountTokens(a, s))
    decreases |a|
  {
    if a == [] {
      assert a + b == b;
    } else {
      CountConcat(a[1..], b, CountToken(a[0], s));
      assert (a + b)[1..] == a[1..] + b;
    }
  }

  lemma CountFirst(t: Token, ts: seq<Token>, s: State)
    ensures CountTokens([t] + ts, s) == CountTokens(ts, CountToken(t, s))
  {
    assert ([t] + ts)[1..] == ts;
  }

  // ---- reading one printed token ----

  lemma DropPrefix(p: seq<byte>, rest: seq<byte>)
    ensures Drop(p + rest, |p|) == rest
  {
  }

  lemma LexesOn(b: seq<byte>, n: nat, s: State, next: State)
    requires b != [] && TokenLen(b) == n && Effect(b, s) == next
    ensures Lex(b, s) == Lex(Drop(b, n), next)
  {
  }

  lemma LexOne(c: byte, rest: seq<byte>, s: State)
    requires c != HASH && c != QUOTE && !NameStart(c)
    ensures Lex([c] + rest, s) == Lex(rest, Effect([c], s))
  {
    DropPrefix([c], rest);
    LexesOn([c] + rest, 1, s, Effect([c], s));
  }

  lemma {:induction false} NameRunLen(n: seq<byte>, rest: seq<byte>)
    requires forall k :: 0 <= k < |n| ==> NameByte(n[k])
    requires rest == [] || !NameByte(rest[0])
    ensures NameLen(n + rest) == |n|
    decreases |n|
  {
    if n == [] {
      assert n + rest == rest;
    } else {
      NameRunLen(n[1..], rest);
      assert (n + rest)[1..] == n[1..] + rest;
    }
  }

  lemma LexName(n: Name, rest: seq<byte>, s: State)
    requires rest == [] || !NameByte(rest[0])
    ensures Lex(n + rest, s) == Lex(rest, CountName(n, s))
  {
    NameRunLen(n, rest);
    LexNameRun(n + rest, |n|, s);
    DropPrefix(n, rest);
    assert (n + rest)[..|n|] == n;
  }

  lemma LexNameRun(b: seq<byte>, n: nat, s: State)
    requires b != [] && NameStart(b[0]) && NameLen(b) == n
    ensures Lex(b, s) == Lex(Drop(b, n), CountName(b[..n], s))
  {
    LexesOn(b, n, s, CountName(b[..n], s));
  }

  /** Part of a numeral is read on its own, whatever follows that is no name. */
  lemma {:induction false} LexNumeral(t: seq<byte>, rest: seq<byte>, s: State)
    requires forall k :: 0 <= k < |t| ==> NumeralByte(t[k])
    requires rest == [] || !NameByte(rest[0])
    ensures Lex(t + rest, s) == Lex(rest, Lex(t, s))
    decreases |t|
  {
    if t == [] {
      assert t + rest == rest;
    } else if NameStart(t[0]) {
      ExponentSplits(t, rest, s);
      LexNumeral(t[NameLen(t)..], rest, CountName(t[..NameLen(t)], s));
    } else {
      assert t + rest == [t[0]] + (t[1..] + rest) && t == [t[0]] + t[1..];
      LexOne(t[0], t[1..] + rest, s);
      LexOne(t[0], t[1..], s);
      LexNumeral(t[1..], rest, Effect([t[0]], s));
    }
  }

  lemma ExponentSplits(t: seq<byte>, rest: seq<byte>, s: State)
    requires t != [] && NameStart(t[0]) && (rest == [] || !NameByte(rest[0]))
    ensures var n := NameLen(t);
            && 1 <= n
            && Lex(t + rest, s) == Lex(t[n..] + rest, CountName(t[..n], s))
            && Lex(t, s) == Lex(t[n..], CountName(t[..n], s))
  {
    var n := NameLen(t);
    var head, tail := t[..n], t[n..];
    assert t == head + tail && t + rest == head + (tail + rest);
    NameRunLen(head, tail + rest);
    LexNameRun(t, n, s);
    LexNameRun(t + rest, n, s);
    DropPrefix(head, tail + rest);
    assert (t + rest)[..n] == head;
  }

  lemma {:induction false} StringTextLen(t: seq<byte>, rest: seq<byte>)
    requires IsStringText(t)
    ensures StringLen(t + [QUOTE] + rest) == |t| + 1
    decreases |t|
  {
    var b := t + [QUOTE] + rest;
    if t != [] {
      if t[0] == BACKSLASH {
        StringTextLen(t[2..], rest);
        assert b[2..] == t[2..] + [QUOTE] + rest;
      } else {
        StringTextLen(t[1..], rest);
        assert b[1..] == t[1..] + [QUOTE] + rest;
      }
    }
  }

  lemma LexString(t: StringText, rest: seq<byte>, s: State)
    requires t == [] ==> rest == [] || rest[0] != QUOTE
    ensures Lex([QUOTE] + t + [QUOTE] + rest, s) == Lex(rest, s)
  {
    var p, body := [QUOTE] + t + [QUOTE], t + [QUOTE] + rest;
    assert p + rest == [QUOTE] + body && (p + rest)[1..] == body;
    StringTextLen(t, rest);
    StringOpens(t, rest);
    LexesOn(p + rest, |p|, s, s);
    DropPrefix(p, rest);
  }

  lemma StringOpens(t: StringText, rest: seq<byte>)
    requires t == [] ==> rest == [] || rest[0] != QUOTE
    ensures !Triple([QUOTE] + t + [QUOTE] + rest)
  {
    var b := [QUOTE] + t + [QUOTE] + rest;
    if t == [] {
      assert |b| >= 3 ==> b[2] == rest[0];
    } else {
      assert b[1] == t[0];
    }
  }

  lemma {:induction false} BlockTextLen(t: seq<byte>, rest: seq<byte>)
    requires IsBlockText(t)
    ensures BlockLen(t + TRIPLE + rest) == |t| + 3
    decreases |t|
  {
    var b := t + TRIPLE + rest;
    if t != [] {
      assert b[0] == t[0] && b[1] == (t + TRIPLE)[1] && b[2] == (t + TRIPLE)[2];
      if t[0] == BACKSLASH {
        BlockTextLen(t[2..], rest);
        assert b[2..] == t[2..] + TRIPLE + rest;
      } else {
        BlockTextLen(t[1..], rest);
        assert b[1..] == t[1..] + TRIPLE + rest;
      }
    }
  }

  lemma LexBlock(t: BlockText, rest: seq<byte>, s: State)
    ensures Lex(TRIPLE + t + TRIPLE + rest, s) == Lex(rest, s)
  {
    var p, body := TRIPLE + t + TRIPLE, t + TRIPLE + rest;
    assert p + rest == TRIPLE + body;
    OpensBlock(body);
    BlockTextLen(t, rest);
    BlockTokenLen(p + rest, |body| - |rest|, s);
    LexesOn(p + rest, |p|, s, s);
    DropPrefix(p, rest);
  }

  lemma OpensBlock(body: seq<byte>)
    ensures Triple(TRIPLE + body) && (TRIPLE + body)[3..] == body
  {
  }

  lemma BlockTokenLen(b: seq<byte>, n: nat, s: State)
    requires Triple(b) && BlockLen(b[3..]) == n
    ensures TokenLen(b) == 3 + n && Effect(b, s) == s
  {
  }

  lemma {:induction false} LineRunLen(line: seq<byte>, rest: seq<byte>)
    requires NEWLINE !in line && (rest == [] || rest[0] == NEWLINE)
    ensures LineLen(line + rest) == |line|
    decreases |line|
  {
    if line == [] {
      assert line + rest == rest;
    } else {
      LineRunLen(line[1..], rest);
      assert (line + rest)[1..] == line[1..] + rest;
    }
  }

  lemma LexComment(t: CommentText, rest: seq<byte>, s: State)
    requires rest == [] || rest[0] == NEWLINE
    ensures Lex([HASH] + t + rest, s) == Lex(rest, s)
  {
    var p := [HASH] + t;
    LineRunLen(p, rest);
    LexesOn(p + rest, |p|, s, s);
    DropPrefix(p, rest);
  }

  lemma LexDots(rest: seq<byte>, s: State)
    ensures Lex(DOTS + rest, s) == Lex(rest, s)
  {
    assert DOTS + rest == [0x2E] + ([0x2E] + ([0x2E] + rest));
    LexOne(0x2E, [0x2E] + ([0x2E] + rest), s);
    LexOne(0x2E, [0x2E] + rest, s);
    LexOne(0x2E, rest, s);
  }

  // ---- reading printed tokens ----

  /** What may come after the bytes of a token. */
  predicate Boundary(t: Token, rest: seq<byte>)
  {
    rest == [] ||
    (&& (Word(t) ==> !NameByte(rest[0]))
     && (t.StringToken? && t.text == [] ==> rest[0] != QUOTE)
     && (t.CommentToken? ==> rest[0] == NEWLINE))
  }

  lemma FirstByte(u: Token)
    ensures var c := PrintToken(u)[0];
            && (!Word(u) ==> !NameByte(c))
            && (!u.StringToken? && !u.BlockToken? ==> c != QUOTE)
            && (u.BlankToken? ==> c == u.blank)
  {
  }

  lemma NextIsBoundary(t: Token, ts: seq<Token>)
    requires ts != [] ==> MayFollow(t, ts[0])
    ensures Boundary(t, PrintTokens(ts))
  {
    if ts != [] {
      FirstByte(ts[0]);
      assert PrintTokens(ts)[0] == PrintToken(ts[0])[0];
    }
  }

  lemma LexPrintedToken(t: Token, rest: seq<byte>, s: State)
    requires Boundary(t, rest)
    ensures Lex(PrintToken(t) + rest, s) == Lex(rest, CountToken(t, s))
  {
    match t
    case NameToken(name) => LexName(name, rest, s);
    case NumeralToken(numeral) => LexNumeral(numeral, rest, s);
    case StringToken(text) => LexString(text, rest, s);
    case BlockToken(block) => LexBlock(block, rest, s);
    case PunctToken(punct) => LexOne(punct, rest, s);
    case DotsToken => LexDots(rest, s);
    case BlankToken(blank) => LexOne(blank, rest, s);
    case CommentToken(comment) => LexComment(comment, rest, s);
  }

  /** Lexing a printed token list counts token by token. */
  lemma {:induction false} LexPrintedTokens(ts: seq<Token>, s: State)
    requires Separated(ts)
    ensures Lex(PrintTokens(ts), s) == CountTokens(ts, s)
    decreases |ts|
  {
    if ts != [] {
      NextIsBoundary(ts[0], ts[1..]);
      LexPrintedToken(ts[0], PrintTokens(ts[1..]), s);
      TailIsSeparated(ts);
      LexPrintedTokens(ts[1..], CountToken(ts[0], s));
    }
  }

  lemma TailIsSeparated(ts: seq<Token>)
    requires ts != [] && Separated(ts)
    ensures Separated(ts[1..])
  {
    forall k | 0 <= k < |ts[1..]| - 1
      ensures MayFollow(ts[1..][k], ts[1..][k + 1])
    {
      assert MayFollow(ts[k + 1], ts[k + 2]);
    }
  }

  // ---- ignored tokens ----

  function Significant(ts: seq<Token>): seq<Token>
  {
    if ts == [] then []
    else (if Ignored(ts[0]) then [] else [ts[0]]) + Significant(ts[1..])
  }

  lemma {:induction false} IgnoredTokensDoNotCount(ts: seq<Token>, s: State)
    ensures CountTokens(ts, s) == CountTokens(Significant(ts), s)
    decreases |ts|
  {
    if ts != [] {
      IgnoredTokensDoNotCount(ts[1..], CountToken(ts[0], s));
      if Ignored(ts[0]) {
        BlankIsIgnored(ts[0], s);
        assert Significant(ts) == Significant(ts[1..]);
      } else {
        CountFirst(ts[0], Significant(ts[1..]), s);
      }
    }
  }

  lemma BlankIsIgnored(t: Token, s: State)
    requires Ignored(t)
    ensures CountToken(t, s) == s
  {
  }

  /** Every token list without comments can be printed: with a space after each token. */
  function Spaced(ts: seq<Token>): seq<Token>
  {
    if ts == [] then [] else [ts[0], BlankToken(0x20)] + Spaced(ts[1..])
  }

  lemma {:induction false} SpacedPrints(ts: seq<Token>)
    requires forall k :: 0 <= k < |ts| ==> !Ignored(ts[k])
    ensures Significant(Spaced(ts)) == ts && Separated(Spaced(ts))
    decreases |ts|
  {
    if ts != [] {
      SpacedPrints(ts[1..]);
      SpaceIsIgnored(ts[0], BlankToken(0x20), Spaced(ts[1..]));
      SpaceSeparates(ts[0], Spaced(ts[1..]));
      assert [ts[0]] + ts[1..] == ts;
    }
  }

  lemma SpaceIsIgnored(t: Token, space: Token, more: seq<Token>)
    requires !Ignored(t) && Ignored(space)
    ensures Significant([t, space] + more) == [t] + Significant(more)
  {
    assert ([t, space] + more)[1..] == [space] + more && ([space] + more)[1..] == more;
  }

  lemma SpaceSeparates(t: Token, more: seq<Token>)
    requires !Ignored(t) && Separated(more)
    ensures Separated([t, BlankToken(0x20)] + more)
  {
    var ts := [t, BlankToken(0x20)] + more;
    forall k | 0 <= k < |ts| - 1
      ensures MayFollow(ts[k], ts[k + 1])
    {
      if k >= 2 { assert MayFollow(more[k - 2], more[k - 1]); }
    }
  }

  // ---- where the lexer and the grammar part ----

  /** The text of a block string by the grammar: a backslash means something only before a triple
      quote (section 2.9.4), where the lexer skips whatever byte comes after it. */
  predicate GrammarBlockText(t: seq<byte>)
    decreases |t|
  {
    t == [] ||
    (if t[0] == BACKSLASH && Triple(t[1..]) then GrammarBlockText(t[4..])
     else !Triple(t + TRIPLE) && !(t == [BACKSLASH]) && GrammarBlockText(t[1..]))
  }

  /** The lexer reads a block string to its end, whatever follows, exactly when the text is one of its
      own: no triple quote and no start of one but behind a backslash, each backslash with what it skips. */
  lemma BlockIsWholeIff(t: seq<byte>)
    ensures (forall rest: seq<byte> :: BlockLen(t + TRIPLE + rest) == |t| + 3) <==> IsBlockText(t)
  {
    if IsBlockText(t) {
      forall rest: seq<byte>
        ensures BlockLen(t + TRIPLE + rest) == |t| + 3
      {
        BlockTextLen(t, rest);
      }
    } else {
      OtherTextEndsElsewhere(t, [0x78]);
      assert BlockLen(t + TRIPLE + [0x78]) != |t| + 3;
    }
  }

  lemma {:induction false} OtherTextEndsElsewhere(t: seq<byte>, rest: seq<byte>)
    requires !IsBlockText(t) && rest == [0x78]
    ensures BlockLen(t + TRIPLE + rest) != |t| + 3
    decreases |t|
  {
    var b := t + TRIPLE + rest;
    assert b[0] == t[0] && b[1] == (t + TRIPLE)[1] && b[2] == (t + TRIPLE)[2];
    if t[0] == BACKSLASH {
      if |t| >= 2 {
        OtherTextEndsElsewhere(t[2..], rest);
        assert b[2..] == t[2..] + TRIPLE + rest;
      } else {
        assert b[2..] == [QUOTE, QUOTE, 0x78];
        assert b[2..][1..] == [QUOTE, 0x78] && BlockLen([QUOTE, 0x78]) == 2;
      }
    } else if !Triple(t + TRIPLE) {
      OtherTextEndsElsewhere(t[1..], rest);
      assert b[1..] == t[1..] + TRIPLE + rest;
    }
  }

  /** So the text `\\"""`, a backslash and an escaped triple quote, is one to the grammar but not to
      the lexer, which ends it three quotes early. */
  lemma EscapedBackslashEndsBlock(t: seq<byte>, rest: seq<byte>)
    requires t == [BACKSLASH, BACKSLASH] + TRIPLE
    ensures GrammarBlockText(t) && !IsBlockText(t) && BlockLen(t + TRIPLE + rest) == |t|
  {
    assert t[1..] == [BACKSLASH] + TRIPLE && t[1..][1..] == TRIPLE && t[1..][4..] == [];
    assert t[2..] == TRIPLE && TRIPLE + TRIPLE == [QUOTE, QUOTE, QUOTE, QUOTE, QUOTE, QUOTE];
    assert (t + TRIPLE + rest)[2..] == TRIPLE + (TRIPLE + rest);
    OpensBlock(TRIPLE + rest);
  }
}
