/** The one-pass GraphQL lexer. `Lex` specifies it token by token on the bytes of the text. */
module Graphql {
  import opened Bits

  const NEWLINE: byte := 0x0A
  const QUOTE: byte := 0x22
  const HASH: byte := 0x23
  const OPEN_PAREN: byte := 0x28
  const CLOSE_PAREN: byte := 0x29
  const COMMA: byte := 0x2C
  const COLON: byte := 0x3A
  const AT: byte := 0x40
  const BACKSLASH: byte := 0x5C
  const OPEN_BRACE: byte := 0x7B
  const CLOSE_BRACE: byte := 0x7D

  const SCHEMA_NAME: seq<byte> := [0x5F, 0x5F, 0x73, 0x63, 0x68, 0x65, 0x6D, 0x61]  // __schema
  const TYPE_NAME: seq<byte> := [0x5F, 0x5F, 0x74, 0x79, 0x70, 0x65]                // __type

  datatype Stats = Stats(maxDepth: nat, aliases: nat, fields: nat, directives: nat, introspection: bool)

  datatype State = State(depth: nat, paren: nat, stats: Stats)

  const START := State(0, 0, Stats(0, 0, 0, 0, false))

  predicate NameStart(c: byte) { c == 0x5F || 0x41 <= c <= 0x5A || 0x61 <= c <= 0x7A }

  predicate NameByte(c: byte) { NameStart(c) || 0x30 <= c <= 0x39 }

  // ---- token lengths ----

  /** Bytes before the end of the line. */
  function LineLen(b: seq<byte>): (n: nat)
    ensures n <= |b|
  {
    if b == [] || b[0] == NEWLINE then 0 else 1 + LineLen(b[1..])
  }

  predicate Triple(b: seq<byte>) { |b| >= 3 && b[0] == QUOTE && b[1] == QUOTE && b[2] == QUOTE }

  /** Bytes of a string after its opening quote, closing quote included; may pass the end. */
  function StringLen(b: seq<byte>): (n: nat)
    ensures n >= 1
    decreases |b|
  {
    if b == [] || b[0] == QUOTE then 1
    else if b[0] == BACKSLASH then 2 + StringLen(if |b| >= 2 then b[2..] else [])
    else 1 + StringLen(b[1..])
  }

  /** Bytes of a block string after its opening quotes, closing quotes included. */
  function BlockLen(b: seq<byte>): (n: nat)
    ensures n <= |b|
    decreases |b|
  {
    if |b| < 3 then |b|
    else if Triple(b) then 3
    else if b[0] == BACKSLASH then 2 + BlockLen(b[2..])
    else 1 + BlockLen(b[1..])
  }

  function NameLen(b: seq<byte>): (n: nat)
    ensures n <= |b|
    ensures forall k :: 0 <= k < n ==> NameByte(b[k])
    ensures n < |b| ==> !NameByte(b[n])
  {
    if b == [] || !NameByte(b[0]) then 0 else 1 + NameLen(b[1..])
  }

  function TokenLen(b: seq<byte>): (n: nat)
    requires b != []
    ensures n >= 1
  {
    var c := b[0];
    if c == HASH then LineLen(b)
    else if Triple(b) then 3 + BlockLen(b[3..])
    else if c == QUOTE then 1 + StringLen(b[1..])
    else if NameStart(c) then NameLen(b)
    else 1
  }

  // ---- token effects ----

  /** `__schema` or `__type`; `__typename` is not introspection. */
  predicate Introspects(name: seq<byte>) { name == SCHEMA_NAME || name == TYPE_NAME }

  function CountName(name: seq<byte>, s: State): State
  {
    if s.paren == 0 && s.depth > 0 then
      s.(stats := s.stats.(fields := s.stats.fields + 1,
                           introspection := s.stats.introspection || Introspects(name)))
    else s
  }

  function OpenBrace(s: State): State
  {
    if s.paren == 0 then
      s.(depth := s.depth + 1, stats := s.stats.(maxDepth := Max(s.stats.maxDepth, s.depth + 1)))
    else s
  }

  function CloseBrace(s: State): State
  {
    if s.paren == 0 && s.depth > 0 then s.(depth := s.depth - 1) else s
  }

  function CountAlias(s: State): State
  {
    if s.paren == 0 then s.(stats := s.stats.(aliases := s.stats.aliases + 1)) else s
  }

  function CountDirective(s: State): State
  {
    s.(stats := s.stats.(directives := s.stats.directives + 1))
  }

  function Effect(b: seq<byte>, s: State): State
    requires b != []
  {
    var c := b[0];
    if c == OPEN_PAREN then s.(paren := s.paren + 1)
    else if c == CLOSE_PAREN then (if s.paren > 0 then s.(paren := s.paren - 1) else s)
    else if c == OPEN_BRACE then OpenBrace(s)
    else if c == CLOSE_BRACE then CloseBrace(s)
    else if c == COLON then CountAlias(s)
    else if c == AT then CountDirective(s)
    else if NameStart(c) then CountName(b[..NameLen(b)], s)
    else s
  }

  function Drop(b: seq<byte>, n: nat): (r: seq<byte>)
    ensures |r| == if n <= |b| then |b| - n else 0
  {
    if n <= |b| then b[n..] else []
  }

  function Lex(b: seq<byte>, s: State): State
    decreases |b|
  {
    if b == [] then s else Lex(Drop(b, TokenLen(b)), Effect(b, s))
  }

  // ---- bounds on any input ----

  function Total(s: State): nat
  {
    s.stats.maxDepth + s.stats.aliases + s.stats.fields + s.stats.directives
  }

  lemma EffectBound(b: seq<byte>, s: State)
    requires b != [] && s.depth <= s.stats.maxDepth
    ensures var t := Effect(b, s);
            t.depth <= t.stats.maxDepth && Total(t) + t.paren <= Total(s) + s.paren + 1
  {
  }

  // ---- the pass itself ----

  method SkipLine(b: seq<byte>, start: nat) returns (i: nat)
    requires start <= |b|
    ensures i == start + LineLen(b[start..])
  {
    i := start;
    while i < |b| && b[i] != NEWLINE
      invariant start <= i <= |b|
      invariant i + LineLen(b[i..]) == start + LineLen(b[start..])
    {
      assert b[i..][1..] == b[i + 1..];
      i := i + 1;
    }
  }

  method SkipBlock(b: seq<byte>, start: nat) returns (i: nat)
    requires start <= |b|
    ensures i == start + BlockLen(b[start..])
  {
    i := start;
    while i + 2 < |b| && !(b[i] == QUOTE && b[i + 1] == QUOTE && b[i + 2] == QUOTE)
      invariant start <= i <= |b|
      invariant i + BlockLen(b[i..]) == start + BlockLen(b[start..])
    {
      assert !Triple(b[i..]);
      if b[i] == BACKSLASH {
        assert b[i..][2..] == b[i + 2..];
        i := i + 1;
      } else {
        assert b[i..][1..] == b[i + 1..];
      }
      i := i + 1;
    }
    assert i + 2 < |b| ==> Triple(b[i..]);
    i := Min(i + 3, |b|);
  }

  lemma StringStep(b: seq<byte>, i: nat)
    requires i < |b| && b[i] != QUOTE
    ensures var n := if b[i] == BACKSLASH then 2 else 1;
            StringLen(Drop(b, i)) == n + StringLen(Drop(b, i + n))
  {
    var here := b[i..];
    if b[i] == BACKSLASH {
      assert Drop(b, i + 2) == if |here| >= 2 then here[2..] else [];
    } else {
      assert Drop(b, i + 1) == here[1..];
    }
  }

  method SkipString(b: seq<byte>, start: nat) returns (i: nat)
    requires start <= |b|
    ensures i == start + StringLen(b[start..])
  {
    i := start;
    ghost var end := start + StringLen(b[start..]);
    StringStarts(b, start);
    while i < |b| && b[i] != QUOTE
      invariant start <= i && i + StringLen(Drop(b, i)) == end
      decreases |b| - i
    {
      StringStep(b, i);
      if b[i] == BACKSLASH { i := i + 1; }
      i := i + 1;
    }
    StringEnds(b, i);
    i := i + 1;
  }

  lemma StringStarts(b: seq<byte>, start: nat)
    requires start <= |b|
    ensures Drop(b, start) == b[start..]
  {
  }

  lemma StringEnds(b: seq<byte>, i: nat)
    requires i >= |b| || b[i] == QUOTE
    ensures StringLen(Drop(b, i)) == 1
  {
  }

  method SkipName(b: seq<byte>, start: nat) returns (i: nat)
    requires start <= |b|
    ensures i == start + NameLen(b[start..])
  {
    i := start;
    while i < |b| && NameByte(b[i])
      invariant start <= i <= |b|
      invariant i + NameLen(b[i..]) == start + NameLen(b[start..])
    {
      assert b[i..][1..] == b[i + 1..];
      i := i + 1;
    }
  }

  /** One token from position `i`. */
  method LexToken(b: seq<byte>, i: nat, s: State) returns (next: nat, t: State)
    requires i < |b|
    ensures next == i + TokenLen(b[i..]) && t == Effect(b[i..], s)
  {
    var c := b[i];
    next, t := i + 1, s;
    if c == HASH {
      next := SkipLine(b, i);
    } else if c == QUOTE && i + 2 < |b| && b[i + 1] == QUOTE && b[i + 2] == QUOTE {
      assert b[i..][3..] == b[i + 3..];
      next := SkipBlock(b, i + 3);
    } else if c == QUOTE {
      assert b[i..][1..] == b[i + 1..];
      next := SkipString(b, i + 1);
    } else if c == OPEN_PAREN {
      t := s.(paren := s.paren + 1);
    } else if c == CLOSE_PAREN {
      t := s.(paren := if s.paren > 0 then s.paren - 1 else 0);
    } else if c == OPEN_BRACE {
      if s.paren == 0 {
        t := s.(depth := s.depth + 1);
        if t.depth > t.stats.maxDepth { t := t.(stats := t.stats.(maxDepth := t.depth)); }
      }
    } else if c == CLOSE_BRACE {
      if s.paren == 0 { t := s.(depth := if s.depth > 0 then s.depth - 1 else 0); }
    } else if c == COLON && s.paren == 0 {
      t := s.(stats := s.stats.(aliases := s.stats.aliases + 1));
    } else if c == AT {
      t := s.(stats := s.stats.(directives := s.stats.directives + 1));
    } else if NameStart(c) {
      next := SkipName(b, i);
      assert b[i..][..next - i] == b[i..next];
      if s.paren == 0 && s.depth > 0 {
        t := s.(stats := s.stats.(fields := s.stats.fields + 1));
        if Introspects(b[i..next]) {
          t := t.(stats := t.stats.(introspection := true));
        }
      }
    }
  }

  method GraphqlLex(b: seq<byte>) returns (stats: Stats)
    ensures stats == Lex(b, START).stats
  {
    var i, s := 0, START;
    assert b[0..] == b;
    while i < |b|
      invariant Lex(Drop(b, i), s) == Lex(b, START)
      invariant s.depth <= s.stats.maxDepth && Total(s) + s.paren <= i
      decreases |b| - i
    {
      ghost var here := b[i..];
      var next, t := LexToken(b, i, s);
      EffectBound(here, s);
      assert Drop(here, next - i) == Drop(b, next);
      i, s := next, t;
    }
    stats := s.stats;
  }

  lemma {:induction false} LexBound(b: seq<byte>, s: State)
    requires s.depth <= s.stats.maxDepth
    ensures Total(Lex(b, s)) + Lex(b, s).paren <= Total(s) + s.paren + |b|
    decreases |b|
  {
    if b != [] {
      EffectBound(b, s);
      LexBound(Drop(b, TokenLen(b)), Effect(b, s));
    }
  }

  /** Every count consumes a byte of its own: all counts together are at most the length, so
      the 32-bit counters of the pass cannot overflow on a text shorter than 2^32 bytes. */
  lemma CountsWithinLength(b: seq<byte>)
    ensures var st := Lex(b, START).stats;
            st.maxDepth + st.aliases + st.fields + st.directives <= |b|
  {
    LexBound(b, START);
  }
}
