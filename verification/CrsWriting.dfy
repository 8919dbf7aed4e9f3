/** Lines as they may be written: bare and quoted words with blanks around them, comments, empty lines. */
module CrsWriting {
  import opened Seqs
  import opened CrsLexer
  import opened CrsLexerRoundTrip
  import opened CrsQuoting

  /** A word of a line: the blanks before it, how it is written, and the token it stands for. */
  datatype Word = Word(gap: string, written: string, token: string)

  predicate Blanks(s: string) { forall i :: 0 <= i < |s| ==> Blank(s[i]) }

  /** Written as it is: not empty, without blanks, and not starting with a quote. */
  predicate IsBare(w: Word)
  {
    w.written == w.token != "" && w.token[0] != DQUOTE && forall i :: 0 <= i < |w.token| ==> !Blank(w.token[i])
  }

  /** Between quotes, with a backslash before every quote and backslash, or as it is when that reads back. */
  predicate IsQuoted(w: Word)
  {
    || w.written == PrintToken(w.token)
    || (w.written == [DQUOTE] + w.token + [DQUOTE] && DQUOTE !in w.token && Lone(w.token))
  }

  /** Words one after the other; a bare one ends at a blank. */
  predicate Written(ws: seq<Word>)
  {
    && (forall i :: 0 <= i < |ws| ==> Blanks(ws[i].gap) && (IsBare(ws[i]) || IsQuoted(ws[i])))
    && (forall i :: 1 <= i < |ws| ==> IsQuoted(ws[i - 1]) || ws[i].gap != "")
  }

  function Write(ws: seq<Word>, end: string): string
  {
    if ws == [] then end else ws[0].gap + (ws[0].written + Write(ws[1..], end))
  }

  function TokensOfWords(ws: seq<Word>): (r: seq<string>)
    ensures |r| == |ws|
  {
    seq(|ws|, i requires 0 <= i < |ws| => ws[i].token)
  }

  lemma {:induction false} BlanksAreSkipped(gap: string, s: string)
    requires Blanks(gap)
    ensures SkipBlanks(gap + s) == SkipBlanks(s)
    decreases |gap|
  {
    if gap == "" {
      assert gap + s == s;
    } else {
      BlanksAreSkipped(gap[1..], s);
      assert (gap + s)[1..] == gap[1..] + s;
    }
  }

  lemma {:induction false} BareIsRead(word: string, rest: string)
    requires (forall i :: 0 <= i < |word| ==> !Blank(word[i])) && (rest == "" || Blank(rest[0]))
    ensures Bare(word + rest) == Front(word, rest)
    decreases |word|
  {
    if word == "" {
      assert word + rest == rest;
    } else {
      BareIsRead(word[1..], rest);
      assert (word + rest)[1..] == word[1..] + rest;
      assert word == [word[0]] + word[1..];
    }
  }

  lemma WordIsRead(w: Word, rest: string)
    requires (IsBare(w) && (rest == "" || Blank(rest[0]))) || IsQuoted(w)
    ensures var s := w.written + rest; s != "" && !Blank(s[0]) && NextToken(s) == Front(w.token, rest)
  {
    var s := w.written + rest;
    if w.written == PrintToken(w.token) {
      assert s[1..] == Escape(w.token) + [DQUOTE] + rest;
      QuotedEscaped(w.token, rest);
    } else if IsQuoted(w) {
      assert s[1..] == w.token + [DQUOTE] + rest;
      LoneIsKept(w.token, rest);
    } else {
      BareIsRead(w.token, rest);
    }
  }

  lemma WordThenRest(w: Word, rest: string)
    requires Blanks(w.gap) && ((IsBare(w) && (rest == "" || Blank(rest[0]))) || IsQuoted(w))
    ensures Tokens(w.gap + (w.written + rest)) == [w.token] + Tokens(rest)
  {
    BlanksAreSkipped(w.gap, w.written + rest);
    WordIsRead(w, rest);
    assert SkipBlanks(w.written + rest) == w.written + rest;
  }

  /** A written line is cut into exactly its tokens. */
  lemma {:induction false} WrittenIsRead(ws: seq<Word>, end: string)
    requires Written(ws) && Blanks(end)
    ensures Tokens(Write(ws, end)) == TokensOfWords(ws)
    decreases |ws|
  {
    if ws == [] {
      BlanksAreSkipped(end, "");
      assert end + "" == end;
    } else {
      WrittenIsRead(ws[1..], end);
      RestStartsBlank(ws, end);
      WordThenRest(ws[0], Write(ws[1..], end));
      assert TokensOfWords(ws) == [ws[0].token] + TokensOfWords(ws[1..]);
    }
  }

  lemma RestStartsBlank(ws: seq<Word>, end: string)
    requires ws != [] && Written(ws) && Blanks(end)
    ensures IsQuoted(ws[0]) || Write(ws[1..], end) == "" || Blank(Write(ws[1..], end)[0])
  {
    if |ws| > 1 {
      assert ws[1..][0] == ws[1] && (IsQuoted(ws[1 - 1]) || ws[1].gap != "");
      if ws[1].gap != "" { assert Write(ws[1..], end)[0] == ws[1].gap[0]; }
    }
  }

  /** It is a directive of those tokens, unless its first word makes it a comment. */
  lemma WrittenIsDirectiveIff(ws: seq<Word>, end: string)
    requires Written(ws) && Blanks(end)
    ensures Tokenized(Write(ws, end)) ==
      if ws == [] || (IsBare(ws[0]) && ws[0].token[0] == '#') then None else Some(TokensOfWords(ws))
  {
    WrittenIsRead(ws, end);
    if ws == [] {
      BlanksAreSkipped(end, "");
      assert end + "" == end;
    } else {
      var rest := Write(ws[1..], end);
      RestStartsBlank(ws, end);
      BlanksAreSkipped(ws[0].gap, ws[0].written + rest);
      WordIsRead(ws[0], rest);
      assert SkipBlanks(ws[0].written + rest) == ws[0].written + rest;
    }
  }
}
