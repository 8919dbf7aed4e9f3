/** A printer that the seclang lexer inverts, and the freedom to break lines. */
module CrsLexerRoundTrip {
  import opened Seqs
  import opened CrsLexer

  function EscapeChar(c: char): string { if c == DQUOTE || c == BACKSLASH then [BACKSLASH, c] else [c] }

  function Escape(s: string): string
  {
    if s == "" then "" else EscapeChar(s[0]) + Escape(s[1..])
  }

  function PrintToken(t: string): string { [DQUOTE] + (Escape(t) + [DQUOTE]) }

  /** Quoted tokens with one space between them. */
  function PrintLine(ts: seq<string>): string
  {
    if ts == [] then "" else if |ts| == 1 then PrintToken(ts[0]) else PrintToken(ts[0]) + ([' '] + PrintLine(ts[1..]))
  }

  function Print(ls: seq<seq<string>>): string
  {
    if ls == [] then "" else PrintLine(ls[0]) + [NEWLINE] + Print(ls[1..])
  }

  function TokensOf(ds: seq<DirectiveLine>): (r: seq<seq<string>>)
    ensures |r| == |ds|
  {
    seq(|ds|, i requires 0 <= i < |ds| => ds[i].tokens)
  }

  // ---- one line ----

  lemma {:induction false} QuotedEscaped(t: string, rest: string)
    ensures Quoted(Escape(t) + [DQUOTE] + rest) == Front(t, rest)
    decreases |t|
  {
    var s := Escape(t) + [DQUOTE] + rest;
    if t == "" {
      assert s[1..] == rest;
    } else {
      QuotedEscaped(t[1..], rest);
      var e := EscapeChar(t[0]);
      assert s == e + (Escape(t[1..]) + [DQUOTE] + rest);
      assert s[|e|..] == Escape(t[1..]) + [DQUOTE] + rest;
      assert [t[0]] + t[1..] == t;
    }
  }

  lemma PrintedTokenIsNext(t: string, rest: string)
    ensures Tokens(PrintToken(t) + rest) == [t] + Tokens(rest)
  {
    var s := PrintToken(t) + rest;
    assert s[1..] == Escape(t) + [DQUOTE] + rest;
    QuotedEscaped(t, rest);
  }

  lemma {:induction false} PrintedLineTokens(ts: seq<string>)
    ensures Tokens(PrintLine(ts)) == ts
    decreases |ts|
  {
    if |ts| == 1 {
      PrintedTokenIsNext(ts[0], "");
      assert PrintToken(ts[0]) + "" == PrintToken(ts[0]);
    } else if |ts| > 1 {
      var more := PrintLine(ts[1..]);
      PrintedTokenIsNext(ts[0], [' '] + more);
      PrintedLineTokens(ts[1..]);
      assert ([' '] + more)[1..] == more;
      assert Tokens([' '] + more) == Tokens(more);
    }
  }

  lemma {:induction false} PrintedLineEnds(ts: seq<string>)
    requires ts != []
    ensures var l := PrintLine(ts); l != "" && l[0] == DQUOTE && l[|l| - 1] == DQUOTE
    decreases |ts|
  {
    if |ts| > 1 { PrintedLineEnds(ts[1..]); }
  }

  lemma {:induction false} EscapeHolds(t: string)
    ensures NEWLINE in Escape(t) <==> NEWLINE in t
    decreases |t|
  {
    if t != "" {
      EscapeHolds(t[1..]);
      assert t == [t[0]] + t[1..];
    }
  }

  predicate OneLine(ts: seq<string>) { forall i :: 0 <= i < |ts| ==> NEWLINE !in ts[i] }

  lemma {:induction false} PrintedLineIsOneLine(ts: seq<string>)
    requires OneLine(ts)
    ensures NEWLINE !in PrintLine(ts)
    decreases |ts|
  {
    if ts != [] {
      EscapeHolds(ts[0]);
      PrintedLineIsOneLine(ts[1..]);
    }
  }

  // ---- the whole file ----

  lemma LineIsRead(line: string, rest: string)
    requires NEWLINE !in line
    ensures Lines(line + [NEWLINE] + rest) == [StripCr(line)] + Lines(rest)
  {
    var s := line + [NEWLINE] + rest;
    IndexOfPiece(line, rest, NEWLINE);
    assert s[..|line|] == line && s[|line| + 1..] == rest;
  }

  function Numbered(ls: seq<seq<string>>, from: nat): (r: seq<DirectiveLine>)
    ensures |r| == |ls|
  {
    seq(|ls|, i requires 0 <= i < |ls| => DirectiveLine(from + i + 1, ls[i]))
  }

  predicate Printable(ls: seq<seq<string>>)
  {
    forall i :: 0 <= i < |ls| ==> ls[i] != [] && OneLine(ls[i])
  }

  lemma PrintedLineIsDirective(ts: seq<string>, lineNo: nat)
    requires ts != [] && OneLine(ts)
    ensures StripCr(PrintLine(ts)) == PrintLine(ts) && !Continues(PrintLine(ts))
    ensures Directive(PrintLine(ts), lineNo) == [DirectiveLine(lineNo, ts)]
  {
    PrintedLineEnds(ts);
    PrintedLineTokens(ts);
    assert SkipBlanks(PrintLine(ts)) == PrintLine(ts);
    assert TrimEnd(PrintLine(ts)) == PrintLine(ts);
  }

  lemma LexHead(line: string, rest: seq<string>, idx: nat, start: nat)
    requires !Continues(line)
    ensures LexLines([line] + rest, idx, "", start) == Directive(line, idx + 1) + LexLines(rest, idx + 1, "", idx + 1)
  {
    assert ([line] + rest)[1..] == rest && "" + line == line;
  }

  lemma NumberedCons(ls: seq<seq<string>>, from: nat)
    requires ls != []
    ensures Numbered(ls, from) == [DirectiveLine(from + 1, ls[0])] + Numbered(ls[1..], from + 1)
  {
  }

  lemma {:induction false} PrintedIsLexed(ls: seq<seq<string>>, idx: nat, start: nat)
    requires Printable(ls)
    ensures LexLines(Lines(Print(ls)), idx, "", start) == Numbered(ls, idx)
    decreases |ls|
  {
    if ls != [] {
      PrintedFirst(ls, idx, start);
      PrintedIsLexed(ls[1..], idx + 1, idx + 1);
      NumberedCons(ls, idx);
    }
  }

  lemma PrintedFirst(ls: seq<seq<string>>, idx: nat, start: nat)
    requires Printable(ls) && ls != []
    ensures LexLines(Lines(Print(ls)), idx, "", start)
      == [DirectiveLine(idx + 1, ls[0])] + LexLines(Lines(Print(ls[1..])), idx + 1, "", idx + 1)
  {
    var line := PrintLine(ls[0]);
    PrintedLineIsOneLine(ls[0]);
    LineIsRead(line, Print(ls[1..]));
    PrintedLineIsDirective(ls[0], idx + 1);
    LexHead(line, Lines(Print(ls[1..])), idx, start);
  }

  // ---- what the lexer can never return ----

  lemma {:induction false} QuotedKeepsOut(s: string, x: char)
    requires x !in s
    ensures x !in Quoted(s).read && x !in Quoted(s).rest
    decreases |s|
  {
    if s != "" {
      if s[0] == BACKSLASH && |s| > 1 && (s[1] == DQUOTE || s[1] == BACKSLASH) {
        QuotedKeepsOut(s[2..], x);
      } else if !(s[0] == DQUOTE) {
        QuotedKeepsOut(s[1..], x);
      }
    }
  }

  lemma {:induction false} BareKeepsOut(s: string, x: char)
    requires x !in s
    ensures x !in Bare(s).read && x !in Bare(s).rest
    decreases |s|
  {
    if s != "" && !Blank(s[0]) { BareKeepsOut(s[1..], x); }
  }

  lemma {:induction false} SkipKeepsOut(s: string, x: char)
    requires x !in s
    ensures x !in SkipBlanks(s)
    decreases |s|
  {
    if s != "" && Blank(s[0]) { SkipKeepsOut(s[1..], x); }
  }

  lemma {:induction false} TokensKeepOut(s: string, x: char)
    requires x !in s
    ensures forall i :: 0 <= i < |Tokens(s)| ==> x !in Tokens(s)[i]
    decreases |s|
  {
    SkipKeepsOut(s, x);
    var t := SkipBlanks(s);
    if t != "" {
      if t[0] == DQUOTE { QuotedKeepsOut(t[1..], x); } else { BareKeepsOut(t, x); }
      TokensKeepOut(NextToken(t).rest, x);
    }
  }

  lemma {:induction false} LinesAreFree(s: string)
    ensures forall i :: 0 <= i < |Lines(s)| ==> NEWLINE !in Lines(s)[i]
    decreases |s|
  {
    if s != "" {
      match IndexOf(s, NEWLINE)
      case None =>
      case Some(k) => LinesAreFree(s[k + 1..]);
    }
  }

  lemma {:induction false} LexedIsOneLine(lines: seq<string>, idx: nat, logical: string, start: nat)
    requires NEWLINE !in logical && forall i :: 0 <= i < |lines| ==> NEWLINE !in lines[i]
    ensures forall d :: d in LexLines(lines, idx, logical, start) ==> OneLine(d.tokens)
    decreases |lines|
  {
    if lines == [] {
      TokensKeepOut(logical, NEWLINE);
    } else {
      var from := if logical == "" then idx + 1 else start;
      if Continues(lines[0]) {
        LexedIsOneLine(lines[1..], idx + 1, logical + Joined(lines[0]), from);
      } else {
        TokensKeepOut(logical + lines[0], NEWLINE);
        LexedIsOneLine(lines[1..], idx + 1, "", from);
      }
    }
  }

  lemma LexedIsPrintable(lines: seq<string>, ls: seq<seq<string>>)
    requires forall i :: 0 <= i < |lines| ==> NEWLINE !in lines[i]
    requires LexLines(lines, 0, "", 0) == Numbered(ls, 0)
    ensures Printable(ls)
  {
    LexedIsOneLine(lines, 0, "", 0);
    DirectivesHaveTokens(lines, 0, "", 0);
    var ds := Numbered(ls, 0);
    assert forall i :: 0 <= i < |ls| ==> ds[i] in ds && ds[i].tokens == ls[i];
  }

  /** Printing token lists and lexing the text gives back the same lists, each on its line, exactly
      when no list is empty and no token holds a newline. */
  lemma PrintedComesBackIff(ls: seq<seq<string>>)
    ensures Lexed(Print(ls)) == Numbered(ls, 0) <==> Printable(ls)
  {
    if Printable(ls) { PrintedIsLexed(ls, 0, 0); }
    if Lexed(Print(ls)) == Numbered(ls, 0) {
      LinesAreFree(Print(ls));
      LexedIsPrintable(Lines(Print(ls)), ls);
    }
  }

  // ---- breaking a line ----

  function TokensIn(line: string): seq<seq<string>>
  {
    match Tokenized(line) case None => [] case Some(ts) => [ts]
  }

  /** Lexing without the line numbers. */
  function LexTokens(lines: seq<string>, logical: string): seq<seq<string>>
    decreases |lines|
  {
    if lines == [] then (if logical == "" then [] else TokensIn(logical))
    else if Continues(lines[0]) then LexTokens(lines[1..], logical + Joined(lines[0]))
    else TokensIn(logical + lines[0]) + LexTokens(lines[1..], "")
  }

  lemma TokensOfConcat(a: seq<DirectiveLine>, b: seq<DirectiveLine>)
    ensures TokensOf(a + b) == TokensOf(a) + TokensOf(b)
  {
  }

  lemma {:induction false} NumbersForgotten(lines: seq<string>, idx: nat, logical: string, start: nat)
    ensures TokensOf(LexLines(lines, idx, logical, start)) == LexTokens(lines, logical)
    decreases |lines|
  {
    if lines != [] {
      var from := if logical == "" then idx + 1 else start;
      if Continues(lines[0]) {
        NumbersForgotten(lines[1..], idx + 1, logical + Joined(lines[0]), from);
      } else {
        NumbersForgotten(lines[1..], idx + 1, "", from);
        TokensOfConcat(Directive(logical + lines[0], from), LexLines(lines[1..], idx + 1, "", from));
      }
    }
  }

  lemma {:induction false} TrimEndConcat(a: string, b: string)
    ensures TrimEnd(a + b) == if TrimEnd(b) == "" then TrimEnd(a) else a + TrimEnd(b)
    decreases |b|
  {
    if b == "" {
      assert a + b == a;
    } else if White(b[|b| - 1]) {
      TrimEndConcat(a, b[..|b| - 1]);
      assert (a + b)[..|a + b| - 1] == a + b[..|b| - 1];
    }
  }

  lemma BrokenLineContinues(a: string)
    ensures Continues(a + [BACKSLASH]) && Joined(a + [BACKSLASH]) == a
  {
    var s := a + [BACKSLASH];
    assert TrimEnd(s) == s && s[..|s| - 1] == a;
  }

  /** A line broken by a backslash means the same, whatever surrounds it, if something other than
      white space comes after the break, or the part before it does not itself continue. */
  lemma {:induction false} BreakingKeepsTokens(pre: seq<string>, a: string, b: string, post: seq<string>,
                                               logical: string)
    requires TrimEnd(b) != "" || !Continues(a)
    ensures LexTokens(pre + ([a + [BACKSLASH]] + ([b] + post)), logical) == LexTokens(pre + ([a + b] + post), logical)
    decreases |pre|
  {
    if pre == [] {
      BreakHere(a, b, post, logical);
      assert pre + ([a + [BACKSLASH]] + ([b] + post)) == [a + [BACKSLASH]] + ([b] + post);
      assert pre + ([a + b] + post) == [a + b] + post;
    } else {
      var broken, whole := [a + [BACKSLASH]] + ([b] + post), [a + b] + post;
      assert (pre + broken)[1..] == pre[1..] + broken && (pre + whole)[1..] == pre[1..] + whole;
      if Continues(pre[0]) {
        BreakingKeepsTokens(pre[1..], a, b, post, logical + Joined(pre[0]));
      } else {
        BreakingKeepsTokens(pre[1..], a, b, post, "");
      }
    }
  }

  lemma LexCons(line: string, rest: seq<string>, logical: string)
    ensures LexTokens([line] + rest, logical) ==
      if Continues(line) then LexTokens(rest, logical + Joined(line))
      else TokensIn(logical + line) + LexTokens(rest, "")
  {
    assert ([line] + rest)[1..] == rest;
  }

  lemma BreakHere(a: string, b: string, post: seq<string>, logical: string)
    requires TrimEnd(b) != "" || !Continues(a)
    ensures LexTokens([a + [BACKSLASH]] + ([b] + post), logical) == LexTokens([a + b] + post, logical)
  {
    BrokenLineContinues(a);
    LexCons(a + [BACKSLASH], [b] + post, logical);
    LexCons(b, post, logical + a);
    LexCons(a + b, post, logical);
    WholeContinuesIff(a, b);
    Assoc(logical, a, b);
    if Continues(b) { Assoc(logical, a, Joined(b)); }
  }

  lemma WholeContinuesIff(a: string, b: string)
    requires TrimEnd(b) != "" || !Continues(a)
    ensures Continues(a + b) <==> Continues(b)
    ensures Continues(b) ==> Joined(a + b) == a + Joined(b)
  {
    TrimEndConcat(a, b);
  }

  /** The lines with a break between `a` and `b` give the tokens of the lines without it. */
  ghost predicate BreakHides(pre: seq<string>, a: string, b: string, post: seq<string>)
  {
    LexTokens(pre + ([a + [BACKSLASH]] + ([b] + post)), "") == LexTokens(pre + ([a + b] + post), "")
  }

  /** That condition is exact: a break is hidden by whatever surrounds it if and only if it holds. */
  lemma BreakingKeepsTokensIff(a: string, b: string)
    ensures (forall pre: seq<string>, post: seq<string> :: BreakHides(pre, a, b, post))
      <==> TrimEnd(b) != "" || !Continues(a)
  {
    if TrimEnd(b) != "" || !Continues(a) {
      forall pre: seq<string>, post: seq<string>
        ensures BreakHides(pre, a, b, post)
      {
        BreakingKeepsTokens(pre, a, b, post, "");
      }
    } else {
      BreakShows(a, b, ["x" + [BACKSLASH]], ["y"]);
    }
  }

  /** Behind a line that starts a directive and is continued, and before one that ends, the break ends
      the directive where the whole line would have taken in the next one. */
  lemma BreakShows(a: string, b: string, pre: seq<string>, post: seq<string>)
    requires TrimEnd(b) == "" && Continues(a)
    requires pre == ["x" + [BACKSLASH]] && post == ["y"]
    ensures !BreakHides(pre, a, b, post)
  {
    var broken, whole := [a + [BACKSLASH]] + ([b] + post), [a + b] + post;
    BrokenLineContinues("x");
    LexCons("x" + [BACKSLASH], broken, "");
    LexCons("x" + [BACKSLASH], whole, "");
    assert "" + "x" == "x";
    BrokenEnds(a, b, "x", post);
    WholeGoesOn(a, b, "x", post);
  }

  lemma BrokenEnds(a: string, b: string, logical: string, post: seq<string>)
    requires TrimEnd(b) == "" && logical == "x" && post == ["y"]
    ensures |LexTokens([a + [BACKSLASH]] + ([b] + post), logical)| == 2
  {
    BrokenLineContinues(a);
    LexCons(a + [BACKSLASH], [b] + post, logical);
    LexCons(b, post, logical + a);
    OneDirective("x", a + b);
    Assoc(logical, a, b);
    LastLine("y", "");
  }

  lemma WholeGoesOn(a: string, b: string, logical: string, post: seq<string>)
    requires TrimEnd(b) == "" && Continues(a) && logical == "x" && post == ["y"]
    ensures |LexTokens([a + b] + post, logical)| == 1
  {
    TrimEndConcat(a, b);
    LexCons(a + b, post, logical);
    LastLine("y", logical + Joined(a + b));
    Assoc(logical, Joined(a + b), "y");
    OneDirective("x", Joined(a + b) + "y");
  }

  /** A line that starts with a plain letter holds one directive. */
  lemma OneDirective(x: string, rest: string)
    requires x == "x"
    ensures |TokensIn(x + rest)| == 1
  {
    assert SkipBlanks(x + rest) == x + rest;
  }

  lemma LastLine(y: string, logical: string)
    requires y == "y"
    ensures LexTokens([y], logical) == TokensIn(logical + y) && |TokensIn(y)| == 1
  {
    PlainLineEnds(y);
    LexCons(y, [], logical);
    assert [y] + [] == [y] && TokensIn(logical + y) + [] == TokensIn(logical + y);
    assert SkipBlanks(y) == y;
  }

  lemma LinesConcatStep(line: string, tail: string, rest: string)
    requires NEWLINE !in line && Lines(tail + rest) == Lines(tail) + Lines(rest)
    ensures Lines(line + [NEWLINE] + (tail + rest)) == Lines(line + [NEWLINE] + tail) + Lines(rest)
  {
    LineIsRead(line, tail);
    LineIsRead(line, tail + rest);
    Assoc([StripCr(line)], Lines(tail), Lines(rest));
  }

  lemma {:induction false} LinesConcat(pre: string, rest: string)
    requires pre == "" || pre[|pre| - 1] == NEWLINE
    ensures Lines(pre + rest) == Lines(pre) + Lines(rest)
    decreases |pre|
  {
    if pre == "" {
      assert pre + rest == rest;
    } else {
      var line, tail := FirstLine(pre);
      LinesConcat(tail, rest);
      LinesConcatStep(line, tail, rest);
      Assoc(line + [NEWLINE], tail, rest);
    }
  }

  lemma FirstLine(pre: string) returns (line: string, tail: string)
    requires pre != "" && pre[|pre| - 1] == NEWLINE
    ensures pre == line + [NEWLINE] + tail && NEWLINE !in line && (tail == "" || tail[|tail| - 1] == NEWLINE)
  {
    assert NEWLINE in pre;
    var k := IndexOf(pre, NEWLINE).value;
    line, tail := pre[..k], pre[k + 1..];
  }

  // ---- breaking a line of the text ----

  const RETURN := '\r'

  /** The tokens of a text in which `a` and `b` make up a line, broken and whole. */
  ghost predicate BreakHidesInText(pre: string, a: string, b: string, post: string)
  {
    TokensOf(Lexed(pre + (a + [BACKSLASH] + [NEWLINE] + (b + [NEWLINE] + post))))
      == TokensOf(Lexed(pre + (a + b + [NEWLINE] + post)))
  }

  predicate WholeLines(pre: string) { pre == "" || pre[|pre| - 1] == NEWLINE }

  predicate EndsInReturn(a: string) { a != "" && a[|a| - 1] == RETURN }

  lemma TextAsLines(pre: string, a: string, b: string, post: string)
    requires WholeLines(pre) && NEWLINE !in a && NEWLINE !in b
    ensures BreakHidesInText(pre, a, b, post) <==>
      LexTokens(Lines(pre) + ([a + [BACKSLASH]] + ([StripCr(b)] + Lines(post))), "")
        == LexTokens(Lines(pre) + ([StripCr(a + b)] + Lines(post)), "")
  {
    var broken, whole := a + [BACKSLASH] + [NEWLINE] + (b + [NEWLINE] + post), a + b + [NEWLINE] + post;
    LinesConcat(pre, broken);
    LinesConcat(pre, whole);
    LineIsRead(a + [BACKSLASH], b + [NEWLINE] + post);
    LineIsRead(b, post);
    LineIsRead(a + b, post);
    assert StripCr(a + [BACKSLASH]) == a + [BACKSLASH];
    NumbersForgotten(Lines(pre + broken), 0, "", 0);
    NumbersForgotten(Lines(pre + whole), 0, "", 0);
  }

  lemma StripOfConcat(a: string, b: string)
    ensures b != "" || !EndsInReturn(a) ==> StripCr(a + b) == a + StripCr(b)
    ensures TrimEnd(StripCr(b)) == "" <==> TrimEnd(b) == ""
  {
    if b != "" {
      if b[|b| - 1] == RETURN { assert (a + b)[..|a + b| - 1] == a + b[..|b| - 1]; }
    } else {
      assert a + b == a;
    }
  }

  lemma BreakingTextKeepsTokens(pre: string, a: string, b: string, post: string)
    requires WholeLines(pre) && NEWLINE !in a && NEWLINE !in b
    requires (TrimEnd(b) != "" || !Continues(a)) && (b != "" || !EndsInReturn(a))
    ensures BreakHidesInText(pre, a, b, post)
  {
    StripOfConcat(a, b);
    TextAsLines(pre, a, b, post);
    BreakingKeepsTokens(Lines(pre), a, StripCr(b), Lines(post), "");
  }

  /** A backslash and a newline put between two parts of a line are hidden, whatever surrounds the line,
      exactly when something other than white space follows or the part before does not itself
      continue, and they do not come between a carriage return and the end of its line. */
  lemma BreakingTextKeepsTokensIff(a: string, b: string)
    requires NEWLINE !in a && NEWLINE !in b
    ensures (forall pre: string, post: string :: WholeLines(pre) ==> BreakHidesInText(pre, a, b, post))
      <==> (TrimEnd(b) != "" || !Continues(a)) && (b != "" || !EndsInReturn(a))
  {
    if (TrimEnd(b) != "" || !Continues(a)) && (b != "" || !EndsInReturn(a)) {
      forall pre: string, post: string | WholeLines(pre)
        ensures BreakHidesInText(pre, a, b, post)
      {
        BreakingTextKeepsTokens(pre, a, b, post);
      }
    } else {
      BreakShowsInText(a, b, "x" + [BACKSLASH] + [NEWLINE], "y");
    }
  }

  lemma BreakShowsInText(a: string, b: string, pre: string, post: string)
    requires NEWLINE !in a && NEWLINE !in b && pre == "x" + [BACKSLASH] + [NEWLINE] && post == "y"
    requires (TrimEnd(b) == "" && Continues(a)) || (b == "" && EndsInReturn(a))
    ensures WholeLines(pre) && !BreakHidesInText(pre, a, b, post)
  {
    TextAsLines(pre, a, b, post);
    ContextLines(pre, post);
    BreakShowsInLines(a, b, Lines(pre), Lines(post));
  }

  lemma BreakShowsInLines(a: string, b: string, pre: seq<string>, post: seq<string>)
    requires pre == ["x" + [BACKSLASH]] && post == ["y"]
    requires (TrimEnd(b) == "" && Continues(a)) || (b == "" && EndsInReturn(a))
    ensures LexTokens(pre + ([a + [BACKSLASH]] + ([StripCr(b)] + post)), "")
      != LexTokens(pre + ([StripCr(a + b)] + post), "")
  {
    StripOfConcat(a, b);
    if b == "" && EndsInReturn(a) {
      assert a + b == a;
      ReturnShows(a, a[..|a| - 1], pre, post);
    } else {
      BreakShows(a, StripCr(b), pre, post);
    }
  }

  lemma ContextLines(pre: string, post: string)
    requires pre == "x" + [BACKSLASH] + [NEWLINE] && post == "y"
    ensures Lines(pre) == ["x" + [BACKSLASH]] && Lines(post) == ["y"]
  {
    assert pre + "" == pre;
    LineIsRead("x" + [BACKSLASH], "");
    assert StripCr("x" + [BACKSLASH]) == "x" + [BACKSLASH];
  }

  // ---- carriage returns stay in tokens ----

  function Returns(s: string): nat { if s == "" then 0 else (if s[0] == RETURN then 1 else 0) + Returns(s[1..]) }

  function ReturnsIn(ts: seq<string>): nat { if ts == [] then 0 else Returns(ts[0]) + ReturnsIn(ts[1..]) }

  lemma {:induction false} ReturnsConcat(a: string, b: string)
    ensures Returns(a + b) == Returns(a) + Returns(b)
    decreases |a|
  {
    if a == "" {
      assert a + b == b;
    } else {
      ReturnsConcat(a[1..], b);
      assert (a + b)[1..] == a[1..] + b;
    }
  }

  lemma ReturnsAhead(c: char, t: Token)
    ensures Returns(Ahead([c], t).read) == Returns([c]) + Returns(t.read)
  {
    ReturnsConcat([c], t.read);
  }

  lemma ReturnsFirst(s: string)
    requires s != ""
    ensures Returns(s) == Returns([s[0]]) + Returns(s[1..])
  {
  }

  lemma {:induction false} QuotedKeepsReturns(s: string)
    ensures Returns(Quoted(s).read) + Returns(Quoted(s).rest) == Returns(s)
    decreases |s|
  {
    if s != "" {
      ReturnsFirst(s);
      if s[0] == BACKSLASH && |s| > 1 && (s[1] == DQUOTE || s[1] == BACKSLASH) {
        assert s[1..][1..] == s[2..];
        ReturnsFirst(s[1..]);
        QuotedKeepsReturns(s[2..]);
        ReturnsAhead(s[1], Quoted(s[2..]));
      } else if s[0] != DQUOTE {
        QuotedKeepsReturns(s[1..]);
        ReturnsAhead(s[0], Quoted(s[1..]));
      }
    }
  }

  lemma {:induction false} BareKeepsReturns(s: string)
    ensures Returns(Bare(s).read) + Returns(Bare(s).rest) == Returns(s)
    decreases |s|
  {
    if s != "" && !Blank(s[0]) {
      BareKeepsReturns(s[1..]);
      ReturnsAhead(s[0], Bare(s[1..]));
    }
  }

  lemma {:induction false} SkipKeepsReturns(s: string)
    ensures Returns(SkipBlanks(s)) == Returns(s)
    decreases |s|
  {
    if s != "" && Blank(s[0]) { SkipKeepsReturns(s[1..]); }
  }

  lemma {:induction false} TokensKeepReturns(s: string)
    ensures ReturnsIn(Tokens(s)) == Returns(s)
    decreases |s|
  {
    var t := SkipBlanks(s);
    SkipKeepsReturns(s);
    if t != "" {
      if t[0] == DQUOTE { QuotedKeepsReturns(t[1..]); } else { BareKeepsReturns(t); }
      TokensKeepReturns(NextToken(t).rest);
      assert Tokens(s)[1..] == Tokens(NextToken(t).rest);
    }
  }

  /** The carriage return that ends a line is stripped; broken off, it stays. */
  lemma ReturnShows(a: string, bare: string, pre: seq<string>, post: seq<string>)
    requires a == bare + [RETURN] && pre == ["x" + [BACKSLASH]] && post == ["y"]
    ensures LexTokens(pre + ([a + [BACKSLASH]] + ([""] + post)), "") != LexTokens(pre + ([bare] + post), "")
  {
    var broken, whole := [a + [BACKSLASH]] + ([""] + post), [bare] + post;
    BrokenLineContinues("x");
    LexCons("x" + [BACKSLASH], broken, "");
    LexCons("x" + [BACKSLASH], whole, "");
    assert "" + "x" == "x";
    BrokenIsTokens(a, "x", post);
    LexCons(bare, post, "x");
    if Continues(bare) {
      BrokenEnds(a, "", "x", post);
      assert bare + "" == bare;
      WholeGoesOn(bare, "", "x", post);
    } else {
      OneMoreReturn("x", bare);
    }
  }

  lemma BrokenIsTokens(a: string, logical: string, post: seq<string>)
    requires logical == "x"
    ensures LexTokens([a + [BACKSLASH]] + ([""] + post), logical) == TokensIn(logical + a) + LexTokens(post, "")
  {
    BrokenLineContinues(a);
    LexCons(a + [BACKSLASH], [""] + post, logical);
    LexCons("", post, logical + a);
    assert logical + a + "" == logical + a;
  }

  lemma OneMoreReturn(x: string, bare: string)
    requires x == "x"
    ensures |TokensIn(x + (bare + [RETURN]))| == |TokensIn(x + bare)| == 1
    ensures TokensIn(x + (bare + [RETURN]))[0] != TokensIn(x + bare)[0]
  {
    OneDirective(x, bare);
    OneDirective(x, bare + [RETURN]);
    TokensKeepReturns(x + bare);
    TokensKeepReturns(x + (bare + [RETURN]));
    Assoc(x, bare, [RETURN]);
    ReturnsConcat(x + bare, [RETURN]);
  }

  /** The condition matters: broken before a blank rest, a line that ended in a backslash no longer
      takes in the next one. */
  lemma BlankRestMatters()
    ensures LexTokens(["x" + [BACKSLASH, BACKSLASH], "", "y"], "") == [["x" + [BACKSLASH]], ["y"]]
    ensures LexTokens(["x" + [BACKSLASH], "y"], "") == [["xy"]]
  {
    BrokenBeforeBlank("x" + [BACKSLASH], "y");
    Unbroken("x", "y");
    BareWord("xy");
    BareWord("y");
    BareWord("x" + [BACKSLASH]);
    assert "x" + [BACKSLASH, BACKSLASH] == "x" + [BACKSLASH] + [BACKSLASH] && "x" + "y" == "xy";
  }

  lemma PlainLineEnds(line: string)
    requires line != "" && !White(line[|line| - 1]) && line[|line| - 1] != BACKSLASH
    ensures !Continues(line)
  {
  }

  lemma BrokenBeforeBlank(a: string, next: string)
    requires next != "" && !White(next[|next| - 1]) && next[|next| - 1] != BACKSLASH
    ensures LexTokens([a + [BACKSLASH], "", next], "") == TokensIn(a) + TokensIn(next)
  {
    BrokenLineContinues(a);
    PlainLineEnds(next);
    LexCons(a + [BACKSLASH], ["", next], "");
    LexCons("", [next], a);
    LexCons(next, [], "");
    assert [a + [BACKSLASH]] + ["", next] == [a + [BACKSLASH], "", next] && [""] + [next] == ["", next]
      && [next] + [] == [next];
    assert "" + a == a && a + "" == a && "" + next == next && TokensIn(next) + [] == TokensIn(next);
  }

  lemma Unbroken(a: string, next: string)
    requires next != "" && !White(next[|next| - 1]) && next[|next| - 1] != BACKSLASH
    ensures LexTokens([a + [BACKSLASH], next], "") == TokensIn(a + next)
  {
    BrokenLineContinues(a);
    PlainLineEnds(next);
    LexCons(a + [BACKSLASH], [next], "");
    LexCons(next, [], a);
    assert [a + [BACKSLASH]] + [next] == [a + [BACKSLASH], next] && [next] + [] == [next];
    assert "" + a == a && TokensIn(a + next) + [] == TokensIn(a + next);
  }

  lemma {:induction false} BareIsAll(s: string)
    requires forall i :: 0 <= i < |s| ==> !Blank(s[i])
    ensures Bare(s) == Front(s, "")
    decreases |s|
  {
    if s != "" {
      BareIsAll(s[1..]);
      assert [s[0]] + s[1..] == s;
    }
  }

  lemma BareWord(s: string)
    requires s != "" && s[0] != DQUOTE && s[0] != '#' && forall i :: 0 <= i < |s| ==> !Blank(s[i])
    ensures TokensIn(s) == [[s]]
  {
    BareIsAll(s);
    assert SkipBlanks(s) == s && NextToken(s) == Front(s, "");
    assert Tokens("") == [];
    assert Tokens(s) == [s] + [] == [s];
  }
}
