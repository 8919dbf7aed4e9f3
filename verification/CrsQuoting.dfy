/** Which texts can stand between double quotes as they are: the lexer unescapes `\"` and `\\` there and
    leaves every other backslash alone. */
module CrsQuoting {
  import opened Seqs
  import opened CrsLexer

  /** No backslash stands before another one or at the end. */
  predicate Lone(t: string)
  {
    forall i :: 0 <= i < |t| && t[i] == BACKSLASH ==> i + 1 < |t| && t[i + 1] != BACKSLASH
  }

  lemma LoneStep(t: string)
    requires t != ""
    ensures Lone(t) <==> (t[0] == BACKSLASH ==> |t| > 1 && t[1] != BACKSLASH) && Lone(t[1..])
  {
    if Lone(t) {
      assert forall i :: 0 <= i < |t| - 1 ==> t[1..][i] == t[i + 1];
    } else {
      var i :| 0 <= i < |t| && t[i] == BACKSLASH && !(i + 1 < |t| && t[i + 1] != BACKSLASH);
      if i > 0 { assert t[1..][i - 1] == BACKSLASH; }
    }
  }

  /** The closing quote is found, and then no more is read than stands before it; or it is escaped, and
      then what is read holds it. */
  lemma {:induction false} QuotedReads(t: string, rest: string)
    requires DQUOTE !in t
    ensures var q := Quoted(t + [DQUOTE] + rest); DQUOTE in q.read || (q.rest == rest && |q.read| <= |t|)
    decreases |t|
  {
    var whole := t + [DQUOTE] + rest;
    if t == "" {
      assert whole[1..] == rest;
    } else if t[0] == BACKSLASH && |t| == 1 {
      assert whole[1] == DQUOTE;
    } else if t[0] == BACKSLASH && t[1] == BACKSLASH {
      QuotedReads(t[2..], rest);
      assert whole[2..] == t[2..] + [DQUOTE] + rest;
    } else {
      QuotedReads(t[1..], rest);
      assert whole[1..] == t[1..] + [DQUOTE] + rest;
    }
  }

  /** A text without quotes is read as it stands, whatever comes after the closing quote, exactly when
      each backslash in it has another character than a backslash behind it. */
  lemma QuotedIsKeptIff(t: string, rest: string)
    requires DQUOTE !in t
    ensures Quoted(t + [DQUOTE] + rest) == Front(t, rest)
      <==> forall i :: 0 <= i < |t| && t[i] == '\\' ==> i + 1 < |t| && t[i + 1] != '\\'
  {
    LoneIsKept(t, rest);
  }

  lemma {:induction false} LoneIsKept(t: string, rest: string)
    requires DQUOTE !in t
    ensures Quoted(t + [DQUOTE] + rest) == Front(t, rest) <==> Lone(t)
    decreases |t|
  {
    var whole := t + [DQUOTE] + rest;
    if t == "" {
      assert whole[1..] == rest;
    } else {
      LoneStep(t);
      if t[0] == BACKSLASH && |t| == 1 {
        EscapedQuote(rest);
        assert whole == [BACKSLASH, DQUOTE] + rest;
      } else if t[0] == BACKSLASH && t[1] == BACKSLASH {
        PairIsLost(t, rest);
      } else {
        LoneIsKept(t[1..], rest);
        assert whole[1..] == t[1..] + [DQUOTE] + rest;
        OneMoreRead(t, Quoted(t[1..] + [DQUOTE] + rest), rest);
      }
    }
  }

  lemma PairIsLost(t: string, rest: string)
    requires DQUOTE !in t && |t| >= 2 && t[0] == BACKSLASH && t[1] == BACKSLASH
    ensures Quoted(t + [DQUOTE] + rest) != Front(t, rest)
  {
    var whole := t + [DQUOTE] + rest;
    QuotedReads(t[2..], rest);
    assert whole[2..] == t[2..] + [DQUOTE] + rest;
    var q := Quoted(t[2..] + [DQUOTE] + rest);
    assert Quoted(whole) == Ahead([BACKSLASH], q);
    if DQUOTE in q.read { assert DQUOTE in [BACKSLASH] + q.read; }
  }

  lemma OneMoreRead(t: string, q: Token, rest: string)
    requires t != ""
    ensures Ahead([t[0]], q) == Front(t, rest) <==> q == Front(t[1..], rest)
  {
    assert t == [t[0]] + t[1..];
    if Ahead([t[0]], q) == Front(t, rest) { assert q.read == ([t[0]] + q.read)[1..]; }
  }

  lemma EscapedQuote(rest: string)
    ensures var q := Quoted([BACKSLASH, DQUOTE] + rest); q.read != "" && q.read[0] == DQUOTE
  {
  }

  /** So a line that is such a text between quotes lexes to one directive of one token, the text itself,
      and a line that is another text without quotes does not. */
  lemma QuotedLineIsTokenIff(t: string)
    requires DQUOTE !in t && NEWLINE !in t
    ensures Lexed([DQUOTE] + t + [DQUOTE]) == [DirectiveLine(1, [t])]
      <==> forall i :: 0 <= i < |t| && t[i] == '\\' ==> i + 1 < |t| && t[i + 1] != '\\'
  {
    var line := [DQUOTE] + t + [DQUOTE];
    OneLine(line, [line], "");
    assert line[1..] == t + [DQUOTE] + "";
    QuotedIsKeptIff(t, "");
    QuotedReads(t, "");
    OneTokenIff(line, t, Quoted(t + [DQUOTE] + ""));
    SameDirective(Tokens(line), [t]);
  }

  lemma SameDirective(a: seq<string>, b: seq<string>)
    ensures [DirectiveLine(1, a)] == [DirectiveLine(1, b)] <==> a == b
  {
    if a != b { assert [DirectiveLine(1, a)][0] != [DirectiveLine(1, b)][0]; }
  }

  lemma OneTokenIff(line: string, t: string, q: Token)
    requires line != "" && line[0] == DQUOTE && q == Quoted(line[1..]) && DQUOTE !in t
    requires DQUOTE in q.read || q.rest == ""
    ensures Tokens(line) == [t] <==> q == Front(t, "")
  {
    assert Tokens(line) == [q.read] + Tokens(q.rest);
    if q.rest == "" {
      assert Tokens(q.rest) == [] && [q.read] + [] == [q.read];
    }
    if Tokens(line) == [t] {
      assert Tokens(line)[0] == q.read;
    }
  }

  /** A line that ends in a quote does not continue. */
  lemma OneLine(line: string, lines: seq<string>, none: string)
    requires line != "" && NEWLINE !in line && line[0] == DQUOTE && line[|line| - 1] == DQUOTE
    requires lines == [line] && none == ""
    ensures Lexed(line) == [DirectiveLine(1, Tokens(line))]
  {
    NoBreaks(line, lines);
    QuotedEnds(line);
    assert none + line == line;
    OnlyLine(line, lines, none);
  }

  lemma NoBreaks(line: string, lines: seq<string>)
    requires line != "" && NEWLINE !in line && lines == [line]
    ensures Lines(line) == lines
  {
  }

  lemma QuotedEnds(line: string)
    requires line != "" && line[0] == DQUOTE && line[|line| - 1] == DQUOTE
    ensures !Continues(line) && Directive(line, 1) == [DirectiveLine(1, Tokens(line))]
  {
    assert TrimEnd(line) == line && SkipBlanks(line) == line;
  }

  lemma OnlyLine(line: string, lines: seq<string>, none: string)
    requires !Continues(line) && lines == [line] && none == "" && none + line == line
    ensures LexLines(lines, 0, none, 0) == Directive(line, 1)
  {
    var more := lines[1..];
    assert more == [];
    assert LexLines(more, 1, none, 1) == [];
    assert Directive(line, 1) + [] == Directive(line, 1);
  }
}
