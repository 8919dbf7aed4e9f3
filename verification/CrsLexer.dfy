/** The seclang lexer: physical lines joined at a trailing backslash, comments dropped, and the
    rest cut into quoted and bare tokens. */
module CrsLexer {
  import opened Seqs

  datatype DirectiveLine = DirectiveLine(lineNo: nat, tokens: seq<string>)

  const BACKSLASH := '\\'
  const DQUOTE := '"'
  const NEWLINE := '\n'

  predicate Blank(c: char) { c == ' ' || c == '\t' }

  /** `char::is_whitespace` */
  predicate White(c: char)
  {
    || '\t' <= c <= '\r' || c == ' ' || c == '\U{85}' || c == '\U{A0}' || c == '\U{1680}'
    || '\U{2000}' <= c <= '\U{200A}' || c == '\U{2028}' || c == '\U{2029}' || c == '\U{202F}'
    || c == '\U{205F}' || c == '\U{3000}'
  }

  // ---- one logical line ----

  function SkipBlanks(s: string): (r: string)
    ensures |r| <= |s| && (r == "" || !Blank(r[0]))
  {
    if s != "" && Blank(s[0]) then SkipBlanks(s[1..]) else s
  }

  /** A token and what is left after it. */
  type Token = Front<char, char>

  /** What follows an opening quote: `\"` and `\\` are unescaped, any other backslash stays. */
  function Quoted(s: string): (t: Token)
    ensures |t.rest| <= |s|
    decreases |s|
  {
    if s == "" then Front("", "")
    else if s[0] == BACKSLASH && |s| > 1 then
      if s[1] == DQUOTE || s[1] == BACKSLASH then Ahead([s[1]], Quoted(s[2..])) else Ahead([BACKSLASH], Quoted(s[1..]))
    else if s[0] == DQUOTE then Front("", s[1..])
    else Ahead([s[0]], Quoted(s[1..]))
  }

  function Bare(s: string): (t: Token)
    ensures |t.rest| <= |s|
    ensures s != "" && !Blank(s[0]) ==> |t.rest| < |s|
    decreases |s|
  {
    if s == "" || Blank(s[0]) then Front("", s) else Ahead([s[0]], Bare(s[1..]))
  }

  function NextToken(s: string): (t: Token)
    requires s != "" && !Blank(s[0])
    ensures |t.rest| < |s|
  {
    if s[0] == DQUOTE then Quoted(s[1..]) else Bare(s)
  }

  function Tokens(s: string): seq<string>
    decreases |s|
  {
    var t := SkipBlanks(s);
    if t == "" then [] else var n := NextToken(t); [n.read] + Tokens(n.rest)
  }

  /** No directive on a blank or comment line. */
  function Tokenized(line: string): (r: Option<seq<string>>)
    ensures r.Some? ==> |r.value| >= 1
  {
    var t := SkipBlanks(line);
    if t == "" || t[0] == '#' then None else Some(Tokens(line))
  }

  method SkipBlanksAt(line: string, start: nat) returns (i: nat)
    requires start <= |line|
    ensures start <= i <= |line| && line[i..] == SkipBlanks(line[start..])
  {
    i := start;
    while i < |line| && Blank(line[i])
      invariant start <= i <= |line|
      invariant SkipBlanks(line[i..]) == SkipBlanks(line[start..])
    {
      assert line[i..][1..] == line[i + 1..];
      i := i + 1;
    }
  }

  method ReadQuoted(line: string, start: nat) returns (tok: string, i: nat)
    requires start <= |line|
    ensures start <= i <= |line| && Front(tok, line[i..]) == Quoted(line[start..])
  {
    tok, i := "", start;
    var open := true;
    ghost var all := Quoted(line[start..]);
    while open && i < |line|
      invariant start <= i <= |line|
      invariant all == if open then Ahead(tok, Quoted(line[i..])) else Front(tok, line[i..])
      decreases open, |line| - i
    {
      ghost var here := line[i..];
      assert here[1..] == line[i + 1..];
      var c := line[i];
      if c == BACKSLASH && i + 1 < |line| {
        var next := line[i + 1];
        if next == DQUOTE || next == BACKSLASH {
          assert here[2..] == line[i + 2..];
          AheadTwice(tok, [next], Quoted(line[i + 2..]));
          tok, i := tok + [next], i + 2;
        } else {
          AheadTwice(tok, [BACKSLASH], Quoted(line[i + 1..]));
          tok, i := tok + [BACKSLASH], i + 1;
        }
      } else if c == DQUOTE {
        assert tok + "" == tok;
        open, i := false, i + 1;
      } else {
        AheadTwice(tok, [c], Quoted(line[i + 1..]));
        tok, i := tok + [c], i + 1;
      }
    }
    assert tok + "" == tok;
  }

  method ReadBare(line: string, start: nat) returns (tok: string, i: nat)
    requires start < |line| && !Blank(line[start])
    ensures start < i <= |line| && Front(tok, line[i..]) == Bare(line[start..])
  {
    tok, i := "", start;
    ghost var all := Bare(line[start..]);
    while i < |line| && !Blank(line[i])
      invariant start <= i <= |line| && (i == start ==> !Blank(line[i]))
      invariant all == Ahead(tok, Bare(line[i..]))
    {
      assert line[i..][1..] == line[i + 1..];
      AheadTwice(tok, [line[i]], Bare(line[i + 1..]));
      tok, i := tok + [line[i]], i + 1;
    }
    assert tok + "" == tok;
  }

  method TokenizeLogical(line: string, lineNo: nat) returns (r: Option<DirectiveLine>)
    ensures r == match Tokenized(line) case None => None case Some(ts) => Some(DirectiveLine(lineNo, ts))
  {
    var i := SkipBlanksAt(line, 0);
    assert line[0..] == line;
    if i >= |line| || line[i] == '#' { return None; }
    var tokens: seq<string> := [];
    SkipTwice(line);
    while i < |line|
      invariant i <= |line|
      invariant Tokens(line) == tokens + Tokens(line[i..])
      decreases |line| - i
    {
      var j := SkipBlanksAt(line, i);
      if j >= |line| {
        assert Tokens(line[i..]) == [];
        break;
      }
      var tok, next := ReadToken(line, j);
      assert Tokens(line[i..]) == [tok] + Tokens(line[next..]);
      Assoc(tokens, [tok], Tokens(line[next..]));
      tokens := tokens + [tok];
      i := next;
    }
    assert tokens + [] == tokens;
    r := Some(DirectiveLine(lineNo, tokens));
  }

  lemma SkipTwice(line: string)
    ensures Tokens(SkipBlanks(line)) == Tokens(line)
  {
    assert SkipBlanks(SkipBlanks(line)) == SkipBlanks(line);
  }

  method ReadToken(line: string, start: nat) returns (tok: string, i: nat)
    requires start < |line| && !Blank(line[start])
    ensures start < i <= |line| && Front(tok, line[i..]) == NextToken(line[start..])
  {
    assert line[start..][1..] == line[start + 1..];
    if line[start] == DQUOTE {
      tok, i := ReadQuoted(line, start + 1);
    } else {
      tok, i := ReadBare(line, start);
    }
  }

  // ---- physical lines ----

  function StripCr(line: string): string
  {
    if line != "" && line[|line| - 1] == '\r' then line[..|line| - 1] else line
  }

  /** `str::lines`: a carriage return goes only together with the newline after it. */
  function Lines(s: string): seq<string>
    decreases |s|
  {
    if s == "" then []
    else match IndexOf(s, NEWLINE)
      case None => [s]
      case Some(k) => [StripCr(s[..k])] + Lines(s[k + 1..])
  }

  function TrimEnd(s: string): (r: string)
    ensures r <= s && (r == "" || !White(r[|r| - 1]))
    decreases |s|
  {
    if s != "" && White(s[|s| - 1]) then TrimEnd(s[..|s| - 1]) else s
  }

  predicate Continues(line: string) { var t := TrimEnd(line); t != "" && t[|t| - 1] == BACKSLASH }

  /** A continued line without its backslash and what trails it. */
  function Joined(line: string): string
    requires Continues(line)
  {
    var t := TrimEnd(line); t[..|t| - 1]
  }

  function Directive(line: string, lineNo: nat): seq<DirectiveLine>
  {
    match Tokenized(line) case None => [] case Some(ts) => [DirectiveLine(lineNo, ts)]
  }

  /** Lexing from the `idx`-th line on, with `logical` collected since line `start`. */
  function LexLines(lines: seq<string>, idx: nat, logical: string, start: nat): seq<DirectiveLine>
    decreases |lines|
  {
    if lines == [] then (if logical == "" then [] else Directive(logical, start))
    else
      var from := if logical == "" then idx + 1 else start;
      if Continues(lines[0]) then LexLines(lines[1..], idx + 1, logical + Joined(lines[0]), from)
      else Directive(logical + lines[0], from) + LexLines(lines[1..], idx + 1, "", from)
  }

  function Lexed(input: string): seq<DirectiveLine> { LexLines(Lines(input), 0, "", 0) }

  method Lex(input: string) returns (out: seq<DirectiveLine>)
    ensures out == Lexed(input)
  {
    out := [];
    var logical, start := "", 0;
    var lines := Lines(input);
    for idx := 0 to |lines|
      invariant Lexed(input) == out + LexLines(lines[idx..], idx, logical, start)
    {
      assert lines[idx..][1..] == lines[idx + 1..];
      if logical == "" { start := idx + 1; }
      if Continues(lines[idx]) {
        logical := logical + Joined(lines[idx]);
      } else {
        logical := logical + lines[idx];
        var dl := TokenizeLogical(logical, start);
        Assoc(out, Directive(logical, start), LexLines(lines[idx + 1..], idx + 1, "", start));
        out := Emit(out, dl, logical, start);
        logical := "";
      }
    }
    if logical != "" {
      var dl := TokenizeLogical(logical, start);
      out := Emit(out, dl, logical, start);
    } else {
      assert out + [] == out;
    }
  }

  method Emit(prefix: seq<DirectiveLine>, dl: Option<DirectiveLine>, ghost line: string, ghost lineNo: nat)
    returns (out: seq<DirectiveLine>)
    requires dl == match Tokenized(line) case None => None case Some(ts) => Some(DirectiveLine(lineNo, ts))
    ensures out == prefix + Directive(line, lineNo)
  {
    if dl.Some? { out := prefix + [dl.value]; } else { out := prefix; }
  }

  /** Every directive has its keyword. */
  lemma {:induction false} DirectivesHaveTokens(lines: seq<string>, idx: nat, logical: string, start: nat)
    ensures forall d :: d in LexLines(lines, idx, logical, start) ==> |d.tokens| >= 1
    decreases |lines|
  {
    if lines != [] {
      var from := if logical == "" then idx + 1 else start;
      if Continues(lines[0]) {
        DirectivesHaveTokens(lines[1..], idx + 1, logical + Joined(lines[0]), from);
      } else {
        DirectivesHaveTokens(lines[1..], idx + 1, "", from);
      }
    }
  }
}
