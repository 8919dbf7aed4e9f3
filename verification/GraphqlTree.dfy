/** GraphQL documents as trees, their tokens, and the proof that the one-pass lexer measures the tree,
    whatever blanks, commas and comments stand between the tokens. */
module GraphqlTree {
  import opened Bits
  import opened Seqs
  import opened Graphql
  import opened GraphqlTokens

  // ---- trees ----

  datatype Value =
    | Variable(name: Name)
    | Word(word: Name)
    | Number(numeral: Numeral)
    | Text(text: StringText)
    | Block(block: BlockText)
    | List(items: seq<Value>)
    | Object(members: seq<Member>)

  /** An argument, or a field of an input object. */
  datatype Member = Member(name: Name, value: Value)

  datatype Directive = Directive(name: Name, arguments: seq<Member>)

  datatype Type = Named(name: Name) | ListOf(inner: Type) | NonNull(nullable: Type)

  datatype VariableDefinition = VariableDefinition(name: Name, kind: Type, default: Option<Value>,
                                                   directives: seq<Directive>)

  /** The condition of an inline fragment is empty, or `on` and a type. */
  datatype Selection =
    | Field(alias: Option<Name>, name: Name, arguments: seq<Member>, directives: seq<Directive>,
            selections: seq<Selection>)
    | Spread(name: Name, directives: seq<Directive>)
    | Inline(condition: seq<Name>, directives: seq<Directive>, selections: seq<Selection>)

  /** The head is empty, or an operation type with or without a name, or `fragment`, a name, `on` and a type. */
  datatype Definition = Definition(head: seq<Name>, variables: seq<VariableDefinition>, directives: seq<Directive>,
                                   selections: seq<Selection>)

  // ---- their tokens ----

  function Punct(c: Punctuator): Token { PunctToken(c) }

  function ValueTokens(v: Value): seq<Token>
    decreases v, 0
  {
    match v
    case Variable(name) => [Punct(0x24), NameToken(name)]
    case Word(word) => [NameToken(word)]
    case Number(numeral) => [NumeralToken(numeral)]
    case Text(text) => [StringToken(text)]
    case Block(block) => [BlockToken(block)]
    case List(items) => [Punct(0x5B)] + ItemTokens(items) + [Punct(0x5D)]
    case Object(members) => [Punct(OPEN_BRACE)] + MemberTokens(members) + [Punct(CLOSE_BRACE)]
  }

  function ItemTokens(items: seq<Value>): seq<Token>
    decreases items, 1
  {
    if items == [] then [] else ValueTokens(items[0]) + ItemTokens(items[1..])
  }

  function MemberTokens(members: seq<Member>): seq<Token>
    decreases members, 1
  {
    if members == [] then []
    else [NameToken(members[0].name), Punct(COLON)] + ValueTokens(members[0].value) + MemberTokens(members[1..])
  }

  function Parenthesized(ts: seq<Token>): seq<Token> { [Punct(OPEN_PAREN)] + ts + [Punct(CLOSE_PAREN)] }

  /** Without arguments there are no parentheses. */
  function ArgumentTokens(arguments: seq<Member>): seq<Token>
  {
    if arguments == [] then [] else Parenthesized(MemberTokens(arguments))
  }

  function DirectiveTokens(ds: seq<Directive>): seq<Token>
  {
    if ds == [] then []
    else [Punct(AT), NameToken(ds[0].name)] + (ArgumentTokens(ds[0].arguments) + DirectiveTokens(ds[1..]))
  }

  function TypeTokens(t: Type): seq<Token>
  {
    match t
    case Named(name) => [NameToken(name)]
    case ListOf(inner) => [Punct(0x5B)] + TypeTokens(inner) + [Punct(0x5D)]
    case NonNull(nullable) => TypeTokens(nullable) + [Punct(0x21)]
  }

  function DefaultTokens(value: Option<Value>): seq<Token>
  {
    match value case None => [] case Some(v) => [Punct(0x3D)] + ValueTokens(v)
  }

  /** `$name: Type = default` */
  function DeclarationTokens(d: VariableDefinition): seq<Token>
  {
    [Punct(0x24), NameToken(d.name), Punct(COLON)] + TypeTokens(d.kind) + DefaultTokens(d.default)
  }

  function VariablesTokens(ds: seq<VariableDefinition>): seq<Token>
  {
    if ds == [] then [] else DeclarationTokens(ds[0]) + (DirectiveTokens(ds[0].directives) + VariablesTokens(ds[1..]))
  }

  function OptionalVariables(ds: seq<VariableDefinition>): seq<Token>
  {
    if ds == [] then [] else Parenthesized(VariablesTokens(ds))
  }

  function NameTokens(names: seq<Name>): seq<Token>
  {
    if names == [] then [] else [NameToken(names[0])] + NameTokens(names[1..])
  }

  function AliasTokens(alias: Option<Name>): seq<Token>
  {
    match alias case None => [] case Some(name) => [NameToken(name), Punct(COLON)]
  }

  function Braced(selections: seq<Selection>): seq<Token>
    decreases selections, 2
  {
    [Punct(OPEN_BRACE)] + (SelectionsTokens(selections) + [Punct(CLOSE_BRACE)])
  }

  /** A field without a selection set has no braces. */
  function OptionalSet(selections: seq<Selection>): seq<Token>
    decreases selections, 3
  {
    if selections == [] then [] else Braced(selections)
  }

  function SelectionTokens(f: Selection): seq<Token>
    decreases f, 0
  {
    match f
    case Field(alias, name, arguments, directives, selections) =>
      AliasTokens(alias) + ([NameToken(name)]
        + (ArgumentTokens(arguments) + (DirectiveTokens(directives) + OptionalSet(selections))))
    case Spread(name, directives) => [DotsToken] + ([NameToken(name)] + DirectiveTokens(directives))
    case Inline(condition, directives, selections) =>
      [DotsToken] + (NameTokens(condition) + (DirectiveTokens(directives) + Braced(selections)))
  }

  function SelectionsTokens(fs: seq<Selection>): seq<Token>
    decreases fs, 1
  {
    if fs == [] then [] else SelectionTokens(fs[0]) + SelectionsTokens(fs[1..])
  }

  function DefinitionTokens(d: Definition): seq<Token>
  {
    NameTokens(d.head) + (OptionalVariables(d.variables) + (DirectiveTokens(d.directives) + Braced(d.selections)))
  }

  function DocumentTokens(defs: seq<Definition>): seq<Token>
  {
    if defs == [] then [] else DefinitionTokens(defs[0]) + DocumentTokens(defs[1..])
  }

  // ---- the measures of a tree ----

  datatype Measure = Measure(depth: nat, aliases: nat, names: nat, directives: nat, introspection: bool)

  const NOTHING := Measure(0, 0, 0, 0, false)

  function Plus(a: Measure, b: Measure): Measure
  {
    Measure(Max(a.depth, b.depth), a.aliases + b.aliases, a.names + b.names, a.directives + b.directives,
            a.introspection || b.introspection)
  }

  /** A name counts in a selection set, and nowhere else. */
  function NameMeasure(n: Name, counted: bool): Measure
  {
    if counted then Measure(0, 0, 1, 0, Introspects(n)) else NOTHING
  }

  function NamesMeasure(names: seq<Name>, counted: bool): Measure
  {
    if names == [] then NOTHING else Plus(NameMeasure(names[0], counted), NamesMeasure(names[1..], counted))
  }

  const ONE_ALIAS := Measure(0, 1, 0, 0, false)
  const ONE_DIRECTIVE := Measure(0, 0, 0, 1, false)

  function AliasMeasure(alias: Option<Name>): Measure
  {
    match alias case None => NOTHING case Some(name) => Plus(NameMeasure(name, true), ONE_ALIAS)
  }

  /** A directive counts wherever it stands. */
  function DirectivesMeasure(ds: seq<Directive>, counted: bool): Measure
  {
    if ds == [] then NOTHING
    else Plus(Plus(ONE_DIRECTIVE, NameMeasure(ds[0].name, counted)), DirectivesMeasure(ds[1..], counted))
  }

  function VariablesMeasure(ds: seq<VariableDefinition>): Measure
  {
    if ds == [] then NOTHING else Plus(DirectivesMeasure(ds[0].directives, false), VariablesMeasure(ds[1..]))
  }

  /** A braced selection set is one level deeper than what it holds. */
  function SetMeasure(fs: seq<Selection>): Measure
    decreases fs, 2
  {
    var inner := SelectionsMeasure(fs);
    inner.(depth := inner.depth + 1)
  }

  function OptionalMeasure(fs: seq<Selection>): Measure
    decreases fs, 3
  {
    if fs == [] then NOTHING else SetMeasure(fs)
  }

  function SelectionMeasure(f: Selection): Measure
    decreases f, 0
  {
    match f
    case Field(alias, name, _, directives, selections) =>
      Plus(AliasMeasure(alias),
           Plus(NameMeasure(name, true), Plus(DirectivesMeasure(directives, true), OptionalMeasure(selections))))
    case Spread(name, directives) => Plus(NameMeasure(name, true), DirectivesMeasure(directives, true))
    case Inline(condition, directives, selections) =>
      Plus(NamesMeasure(condition, true), Plus(DirectivesMeasure(directives, true), SetMeasure(selections)))
  }

  function SelectionsMeasure(fs: seq<Selection>): Measure
    decreases fs, 1
  {
    if fs == [] then NOTHING else Plus(SelectionMeasure(fs[0]), SelectionsMeasure(fs[1..]))
  }

  /** Names before a definition's first brace do not count; directives do. */
  function DefinitionMeasure(d: Definition): Measure
  {
    Plus(VariablesMeasure(d.variables), Plus(DirectivesMeasure(d.directives, false), SetMeasure(d.selections)))
  }

  function DocumentMeasure(defs: seq<Definition>): Measure
  {
    if defs == [] then NOTHING else Plus(DefinitionMeasure(defs[0]), DocumentMeasure(defs[1..]))
  }

  // ---- inside parentheses only directives count ----

  /** Opens and closes no parenthesis, and starts no directive. */
  predicate Quiet(t: Token)
  {
    !Ignored(t) && (t.PunctToken? ==> t.punct != OPEN_PAREN && t.punct != CLOSE_PAREN && t.punct != AT)
  }

  predicate AllQuiet(ts: seq<Token>) { forall k :: 0 <= k < |ts| ==> Quiet(ts[k]) }

  lemma {:induction false} NumeralIsQuiet(t: seq<byte>, s: State)
    requires s.paren > 0 && forall k :: 0 <= k < |t| ==> NumeralByte(t[k])
    ensures Lex(t, s) == s
    decreases |t|
  {
    if t != [] {
      if NameStart(t[0]) {
        ExponentIsQuiet(t, NameLen(t), s);
        NumeralIsQuiet(t[NameLen(t)..], s);
      } else {
        DigitIsQuiet(t[0], t[1..], s);
        assert t == [t[0]] + t[1..];
        NumeralIsQuiet(t[1..], s);
      }
    }
  }

  lemma ExponentIsQuiet(t: seq<byte>, n: nat, s: State)
    requires s.paren > 0 && t != [] && NameStart(t[0]) && n == NameLen(t)
    ensures n > 0 && Lex(t, s) == Lex(t[n..], s)
  {
    LexNameRun(t, n, s);
  }

  lemma DigitIsQuiet(c: byte, rest: seq<byte>, s: State)
    requires NumeralByte(c) && !NameStart(c)
    ensures Lex([c] + rest, s) == Lex(rest, s)
  {
    LexOne(c, rest, s);
  }

  lemma QuietToken(t: Token, s: State)
    requires Quiet(t) && s.paren > 0
    ensures CountToken(t, s) == s
  {
    if t.NumeralToken? { NumeralIsQuiet(t.numeral, s); }
  }

  lemma {:induction false} QuietTokens(ts: seq<Token>, s: State)
    requires AllQuiet(ts) && s.paren > 0
    ensures CountTokens(ts, s) == s
    decreases |ts|
  {
    if ts != [] {
      QuietToken(ts[0], s);
      QuietTokens(ts[1..], s);
    }
  }

  lemma {:induction false} ValueIsQuiet(v: Value)
    ensures AllQuiet(ValueTokens(v))
    decreases v, 0
  {
    match v
    case List(items) => ItemsAreQuiet(items);
    case Object(members) => MembersAreQuiet(members);
    case _ =>
  }

  lemma {:induction false} ItemsAreQuiet(items: seq<Value>)
    ensures AllQuiet(ItemTokens(items))
    decreases items, 1
  {
    if items != [] {
      ValueIsQuiet(items[0]);
      ItemsAreQuiet(items[1..]);
    }
  }

  lemma {:induction false} MembersAreQuiet(members: seq<Member>)
    ensures AllQuiet(MemberTokens(members))
    decreases members, 1
  {
    if members != [] {
      ValueIsQuiet(members[0].value);
      MembersAreQuiet(members[1..]);
    }
  }

  lemma {:induction false} TypeIsQuiet(t: Type)
    ensures AllQuiet(TypeTokens(t))
  {
    match t
    case Named(_) =>
    case ListOf(inner) => TypeIsQuiet(inner);
    case NonNull(nullable) => TypeIsQuiet(nullable);
  }

  lemma DeclarationIsQuiet(d: VariableDefinition)
    ensures AllQuiet(DeclarationTokens(d))
  {
    TypeIsQuiet(d.kind);
    if d.default.Some? { ValueIsQuiet(d.default.value); }
  }

  // ---- counting the tokens of a tree measures the tree ----

  /** The lexer state after a part measuring `m` that leaves the depth as it was. */
  function Add(m: Measure, s: State): State
  {
    s.(stats := Stats(Max(s.stats.maxDepth, if m.depth == 0 then 0 else s.depth + m.depth), s.stats.aliases + m.aliases,
                      s.stats.fields + m.names, s.stats.directives + m.directives,
                      s.stats.introspection || m.introspection))
  }

  lemma AddNothing(s: State)
    ensures Add(NOTHING, s) == s
  {
  }

  lemma AddTwice(a: Measure, b: Measure, s: State)
    ensures Add(b, Add(a, s)) == Add(Plus(a, b), s)
  {
  }

  predicate InSelection(s: State) { s.paren == 0 && s.depth > 0 }

  /** Tokens `a` measuring `m`, and then tokens `b` measuring `m'`. */
  lemma CountBoth(a: seq<Token>, b: seq<Token>, m: Measure, m': Measure, s: State)
    requires CountTokens(a, s) == Add(m, s) && CountTokens(b, Add(m, s)) == Add(m', Add(m, s))
    ensures CountTokens(a + b, s) == Add(Plus(m, m'), s)
  {
    CountConcat(a, b, s);
    AddTwice(m, m', s);
  }

  lemma CountOne(t: Token, s: State)
    ensures CountTokens([t], s) == CountToken(t, s)
  {
    assert [t][1..] == [];
  }

  lemma NameCounts(name: Name, s: State)
    ensures CountToken(NameToken(name), s) == Add(NameMeasure(name, InSelection(s)), s)
  {
  }

  lemma ColonCounts(s: State)
    requires s.paren == 0
    ensures CountToken(Punct(COLON), s) == Add(ONE_ALIAS, s)
  {
  }

  lemma AtCounts(s: State)
    ensures CountToken(Punct(AT), s) == Add(ONE_DIRECTIVE, s)
  {
  }

  lemma CountTwo(t: Token, u: Token, s: State)
    ensures CountTokens([t, u], s) == CountToken(u, CountToken(t, s))
  {
    assert [t] + [u] == [t, u];
    CountFirst(t, [u], s);
    CountOne(u, CountToken(t, s));
  }

  lemma CountName1(name: Name, s: State)
    ensures CountTokens([NameToken(name)], s) == Add(NameMeasure(name, InSelection(s)), s)
  {
    CountOne(NameToken(name), s);
    NameCounts(name, s);
  }

  lemma {:induction false} CountNames(names: seq<Name>, s: State)
    ensures CountTokens(NameTokens(names), s) == Add(NamesMeasure(names, InSelection(s)), s)
    decreases |names|
  {
    if names == [] {
      AddNothing(s);
    } else {
      var one := NameMeasure(names[0], InSelection(s));
      CountName1(names[0], s);
      CountNames(names[1..], Add(one, s));
      CountBoth([NameToken(names[0])], NameTokens(names[1..]), one, NamesMeasure(names[1..], InSelection(s)), s);
    }
  }

  lemma CountAliasOf(alias: Option<Name>, s: State)
    requires InSelection(s)
    ensures CountTokens(AliasTokens(alias), s) == Add(AliasMeasure(alias), s)
  {
    match alias
    case None => AddNothing(s);
    case Some(name) =>
      CountTwo(NameToken(name), Punct(COLON), s);
      NameCounts(name, s);
      ColonCounts(Add(NameMeasure(name, true), s));
      AddTwice(NameMeasure(name, true), ONE_ALIAS, s);
  }

  /** What stands in parentheses, counted there, leaves the same mark outside. */
  lemma CountParenthesized(ts: seq<Token>, m: Measure, s: State)
    requires var inside := s.(paren := s.paren + 1); CountTokens(ts, inside) == Add(m, inside)
    ensures CountTokens(Parenthesized(ts), s) == Add(m, s)
  {
    var inside := s.(paren := s.paren + 1);
    assert Parenthesized(ts) == [Punct(OPEN_PAREN)] + (ts + [Punct(CLOSE_PAREN)]);
    CountFirst(Punct(OPEN_PAREN), ts + [Punct(CLOSE_PAREN)], s);
    CountConcat(ts, [Punct(CLOSE_PAREN)], inside);
    CountOne(Punct(CLOSE_PAREN), Add(m, inside));
  }

  lemma CountArguments(arguments: seq<Member>, s: State)
    ensures CountTokens(ArgumentTokens(arguments), s) == s
  {
    if arguments != [] {
      var inside := s.(paren := s.paren + 1);
      MembersAreQuiet(arguments);
      QuietTokens(MemberTokens(arguments), inside);
      AddNothing(inside);
      CountParenthesized(MemberTokens(arguments), NOTHING, s);
      AddNothing(s);
    }
  }

  lemma {:induction false} CountDirectives(ds: seq<Directive>, s: State)
    ensures CountTokens(DirectiveTokens(ds), s) == Add(DirectivesMeasure(ds, InSelection(s)), s)
    decreases |ds|
  {
    if ds == [] {
      AddNothing(s);
    } else {
      var d, more := ds[0], DirectiveTokens(ds[1..]);
      var one := Plus(ONE_DIRECTIVE, NameMeasure(d.name, InSelection(s)));
      CountDirectiveHead(d.name, s);
      CountArguments(d.arguments, Add(one, s));
      CountConcat(ArgumentTokens(d.arguments), more, Add(one, s));
      CountDirectives(ds[1..], Add(one, s));
      CountBoth([Punct(AT), NameToken(d.name)], ArgumentTokens(d.arguments) + more, one,
                DirectivesMeasure(ds[1..], InSelection(s)), s);
    }
  }

  lemma CountDirectiveHead(name: Name, s: State)
    ensures CountTokens([Punct(AT), NameToken(name)], s)
      == Add(Plus(ONE_DIRECTIVE, NameMeasure(name, InSelection(s))), s)
  {
    CountTwo(Punct(AT), NameToken(name), s);
    AtCounts(s);
    NameCounts(name, Add(ONE_DIRECTIVE, s));
    AddTwice(ONE_DIRECTIVE, NameMeasure(name, InSelection(s)), s);
  }

  lemma {:induction false} CountVariables(ds: seq<VariableDefinition>, s: State)
    requires s.paren > 0
    ensures CountTokens(VariablesTokens(ds), s) == Add(VariablesMeasure(ds), s)
    decreases |ds|
  {
    if ds == [] {
      AddNothing(s);
    } else {
      var d, more := ds[0], VariablesTokens(ds[1..]);
      var m := DirectivesMeasure(d.directives, false);
      DeclarationIsQuiet(d);
      QuietTokens(DeclarationTokens(d), s);
      CountConcat(DeclarationTokens(d), DirectiveTokens(d.directives) + more, s);
      CountDirectives(d.directives, s);
      CountVariables(ds[1..], Add(m, s));
      CountBoth(DirectiveTokens(d.directives), more, m, VariablesMeasure(ds[1..]), s);
    }
  }

  lemma CountOptionalVariables(ds: seq<VariableDefinition>, s: State)
    ensures CountTokens(OptionalVariables(ds), s) == Add(VariablesMeasure(ds), s)
  {
    if ds == [] {
      AddNothing(s);
    } else {
      CountVariables(ds, s.(paren := s.paren + 1));
      CountParenthesized(VariablesTokens(ds), VariablesMeasure(ds), s);
    }
  }

  lemma {:induction false} CountSet(fs: seq<Selection>, s: State)
    requires s.paren == 0
    ensures CountTokens(Braced(fs), s) == Add(SetMeasure(fs), s)
    decreases fs, 2
  {
    var inside := OpenBrace(s);
    CountFirst(Punct(OPEN_BRACE), SelectionsTokens(fs) + [Punct(CLOSE_BRACE)], s);
    CountConcat(SelectionsTokens(fs), [Punct(CLOSE_BRACE)], inside);
    CountSelections(fs, inside);
    CountOne(Punct(CLOSE_BRACE), Add(SelectionsMeasure(fs), inside));
    OpenCounts(s);
    CloseCounts(SelectionsMeasure(fs), s);
  }

  lemma OpenCounts(s: State)
    requires s.paren == 0
    ensures CountToken(Punct(OPEN_BRACE), s) == OpenBrace(s) && InSelection(OpenBrace(s))
  {
  }

  lemma CloseCounts(inner: Measure, s: State)
    requires s.paren == 0
    ensures CountToken(Punct(CLOSE_BRACE), Add(inner, OpenBrace(s))) == Add(inner.(depth := inner.depth + 1), s)
  {
  }

  lemma {:induction false} CountOptionalSet(fs: seq<Selection>, s: State)
    requires s.paren == 0
    ensures CountTokens(OptionalSet(fs), s) == Add(OptionalMeasure(fs), s)
    decreases fs, 3
  {
    if fs == [] { AddNothing(s); } else { CountSet(fs, s); }
  }

  lemma {:induction false} CountSelections(fs: seq<Selection>, s: State)
    requires InSelection(s)
    ensures CountTokens(SelectionsTokens(fs), s) == Add(SelectionsMeasure(fs), s)
    decreases fs, 1
  {
    if fs == [] {
      AddNothing(s);
    } else {
      CountSelection(fs[0], s);
      CountSelections(fs[1..], Add(SelectionMeasure(fs[0]), s));
      CountBoth(SelectionTokens(fs[0]), SelectionsTokens(fs[1..]),
                SelectionMeasure(fs[0]), SelectionsMeasure(fs[1..]), s);
    }
  }

  lemma {:induction false} CountSelection(f: Selection, s: State)
    requires InSelection(s)
    ensures CountTokens(SelectionTokens(f), s) == Add(SelectionMeasure(f), s)
    decreases f, 0
  {
    match f
    case Field(_, _, _, _, _) => CountField(f, s);
    case Spread(_, _) => CountSpread(f, s);
    case Inline(_, _, _) => CountInline(f, s);
  }

  lemma CountSpread(f: Selection, s: State)
    requires f.Spread? && InSelection(s)
    ensures CountTokens(SelectionTokens(f), s) == Add(SelectionMeasure(f), s)
  {
    CountDots([NameToken(f.name)] + DirectiveTokens(f.directives), s);
    CountNamedDirectives(f.name, f.directives, s);
  }

  lemma CountNamedDirectives(name: Name, ds: seq<Directive>, s: State)
    requires InSelection(s)
    ensures CountTokens([NameToken(name)] + DirectiveTokens(ds), s)
      == Add(Plus(NameMeasure(name, true), DirectivesMeasure(ds, true)), s)
  {
    CountDirectives(ds, Add(NameMeasure(name, true), s));
    CountNamed(name, DirectiveTokens(ds), DirectivesMeasure(ds, true), s);
  }

  lemma CountDots(ts: seq<Token>, s: State)
    ensures CountTokens([DotsToken] + ts, s) == CountTokens(ts, s)
  {
    CountFirst(DotsToken, ts, s);
  }

  lemma CountNamed(name: Name, tail: seq<Token>, m: Measure, s: State)
    requires InSelection(s)
    requires var one := Add(NameMeasure(name, true), s); CountTokens(tail, one) == Add(m, one)
    ensures CountTokens([NameToken(name)] + tail, s) == Add(Plus(NameMeasure(name, true), m), s)
  {
    CountName1(name, s);
    CountBoth([NameToken(name)], tail, NameMeasure(name, true), m, s);
  }

  lemma {:induction false} CountInline(f: Selection, s: State)
    requires f.Inline? && InSelection(s)
    ensures CountTokens(SelectionTokens(f), s) == Add(SelectionMeasure(f), s)
    decreases f.selections, 4
  {
    CountDirectivesAndSet(f.directives, f.selections, Add(NamesMeasure(f.condition, true), s));
    CountNamesThen(f.condition, DirectiveTokens(f.directives) + Braced(f.selections),
                   Plus(DirectivesMeasure(f.directives, true), SetMeasure(f.selections)), s);
    CountDots(NameTokens(f.condition) + (DirectiveTokens(f.directives) + Braced(f.selections)), s);
  }

  lemma {:induction false} CountDirectivesAndSet(ds: seq<Directive>, fs: seq<Selection>, s: State)
    requires InSelection(s)
    ensures CountTokens(DirectiveTokens(ds) + Braced(fs), s)
      == Add(Plus(DirectivesMeasure(ds, true), SetMeasure(fs)), s)
    decreases fs, 3
  {
    CountSet(fs, Add(DirectivesMeasure(ds, true), s));
    CountTail(ds, Braced(fs), SetMeasure(fs), s);
  }

  /** Directives and then a selection set, if there is one. */
  lemma CountTail(ds: seq<Directive>, tail: seq<Token>, m: Measure, s: State)
    requires InSelection(s)
    requires var after := Add(DirectivesMeasure(ds, true), s); CountTokens(tail, after) == Add(m, after)
    ensures CountTokens(DirectiveTokens(ds) + tail, s) == Add(Plus(DirectivesMeasure(ds, true), m), s)
  {
    CountDirectives(ds, s);
    CountBoth(DirectiveTokens(ds), tail, DirectivesMeasure(ds, true), m, s);
  }

  lemma CountNamesThen(names: seq<Name>, tail: seq<Token>, m: Measure, s: State)
    requires InSelection(s)
    requires var after := Add(NamesMeasure(names, true), s); CountTokens(tail, after) == Add(m, after)
    ensures CountTokens(NameTokens(names) + tail, s) == Add(Plus(NamesMeasure(names, true), m), s)
  {
    CountNames(names, s);
    CountBoth(NameTokens(names), tail, NamesMeasure(names, true), m, s);
  }

  lemma {:induction false} CountDirectivesAndOptional(ds: seq<Directive>, fs: seq<Selection>, s: State)
    requires InSelection(s)
    ensures CountTokens(DirectiveTokens(ds) + OptionalSet(fs), s)
      == Add(Plus(DirectivesMeasure(ds, true), OptionalMeasure(fs)), s)
    decreases fs, 4
  {
    CountOptionalSet(fs, Add(DirectivesMeasure(ds, true), s));
    CountTail(ds, OptionalSet(fs), OptionalMeasure(fs), s);
  }

  lemma {:induction false} CountField(f: Selection, s: State)
    requires f.Field? && InSelection(s)
    ensures CountTokens(SelectionTokens(f), s) == Add(SelectionMeasure(f), s)
    decreases f.selections, 5
  {
    var ma, mn := AliasMeasure(f.alias), NameMeasure(f.name, true);
    var md, ms := DirectivesMeasure(f.directives, true), OptionalMeasure(f.selections);
    var s1 := Add(ma, s);
    var s2 := Add(mn, s1);
    var tail := DirectiveTokens(f.directives) + OptionalSet(f.selections);
    CountAliasOf(f.alias, s);
    CountArguments(f.arguments, s2);
    CountDirectivesAndOptional(f.directives, f.selections, s2);
    CountConcat(ArgumentTokens(f.arguments), tail, s2);
    CountNamed(f.name, ArgumentTokens(f.arguments) + tail, Plus(md, ms), s1);
    CountBoth(AliasTokens(f.alias), [NameToken(f.name)] + (ArgumentTokens(f.arguments) + tail), ma,
              Plus(mn, Plus(md, ms)), s);
  }

  lemma {:induction false} NamesOutside(names: seq<Name>, s: State)
    requires !InSelection(s)
    ensures Add(NamesMeasure(names, false), s) == s
    decreases |names|
  {
    if names != [] {
      NamesOutside(names[1..], s);
      AddTwice(NOTHING, NamesMeasure(names[1..], false), s);
      AddNothing(s);
    }
  }

  lemma CountDefinition(d: Definition, s: State)
    requires s.paren == 0 && s.depth == 0
    ensures CountTokens(DefinitionTokens(d), s) == Add(DefinitionMeasure(d), s)
  {
    var mv, md, ms := VariablesMeasure(d.variables), DirectivesMeasure(d.directives, false), SetMeasure(d.selections);
    var s1 := Add(mv, s);
    var tail := DirectiveTokens(d.directives) + Braced(d.selections);
    CountNames(d.head, s);
    NamesOutside(d.head, s);
    CountConcat(NameTokens(d.head), OptionalVariables(d.variables) + tail, s);
    CountOptionalVariables(d.variables, s);
    CountDirectives(d.directives, s1);
    CountSet(d.selections, Add(md, s1));
    CountBoth(DirectiveTokens(d.directives), Braced(d.selections), md, ms, s1);
    CountBoth(OptionalVariables(d.variables), tail, mv, Plus(md, ms), s);
  }

  lemma {:induction false} CountDocument(defs: seq<Definition>, s: State)
    requires s.paren == 0 && s.depth == 0
    ensures CountTokens(DocumentTokens(defs), s) == Add(DocumentMeasure(defs), s)
    decreases |defs|
  {
    if defs == [] {
      AddNothing(s);
    } else {
      CountDefinition(defs[0], s);
      CountDocument(defs[1..], Add(DefinitionMeasure(defs[0]), s));
      CountBoth(DefinitionTokens(defs[0]), DocumentTokens(defs[1..]),
                DefinitionMeasure(defs[0]), DocumentMeasure(defs[1..]), s);
    }
  }

  /** Lexing a document as it may be written, with any white space, commas and comments between its
      tokens and nothing where the grammar asks for nothing, yields the depth, alias, name and
      directive counts and the introspection flag of the tree. */
  lemma LexMeasuresDocument(defs: seq<Definition>, ts: seq<Token>)
    requires Significant(ts) == DocumentTokens(defs) && Separated(ts)
    ensures var st, m := Lex(PrintTokens(ts), START).stats, DocumentMeasure(defs);
            st == Stats(m.depth, m.aliases, m.names, m.directives, m.introspection)
  {
    LexPrintedTokens(ts, START);
    IgnoredTokensDoNotCount(ts, START);
    CountDocument(defs, START);
  }

  // ---- every document can be written ----

  predicate NoneIgnored(ts: seq<Token>) { forall k :: 0 <= k < |ts| ==> !Ignored(ts[k]) }

  lemma BothSignificant(a: seq<Token>, b: seq<Token>)
    requires NoneIgnored(a) && NoneIgnored(b)
    ensures NoneIgnored(a + b)
  {
  }

  lemma ArgumentsAreSignificant(arguments: seq<Member>)
    ensures NoneIgnored(ArgumentTokens(arguments))
  {
    MembersAreQuiet(arguments);
  }

  lemma {:induction false} DirectivesAreSignificant(ds: seq<Directive>)
    ensures NoneIgnored(DirectiveTokens(ds))
    decreases |ds|
  {
    if ds != [] {
      ArgumentsAreSignificant(ds[0].arguments);
      DirectivesAreSignificant(ds[1..]);
      BothSignificant(ArgumentTokens(ds[0].arguments), DirectiveTokens(ds[1..]));
    }
  }

  lemma {:induction false} VariablesAreSignificant(ds: seq<VariableDefinition>)
    ensures NoneIgnored(VariablesTokens(ds))
    decreases |ds|
  {
    if ds != [] {
      DeclarationIsQuiet(ds[0]);
      DirectivesAreSignificant(ds[0].directives);
      VariablesAreSignificant(ds[1..]);
      BothSignificant(DirectiveTokens(ds[0].directives), VariablesTokens(ds[1..]));
    }
  }

  lemma {:induction false} NamesAreSignificant(names: seq<Name>)
    ensures NoneIgnored(NameTokens(names))
    decreases |names|
  {
    if names != [] { NamesAreSignificant(names[1..]); }
  }

  lemma {:induction false} SetIsSignificant(fs: seq<Selection>)
    ensures NoneIgnored(Braced(fs))
    decreases fs, 2
  {
    SelectionsAreSignificant(fs);
  }

  lemma {:induction false} SelectionIsSignificant(f: Selection)
    ensures NoneIgnored(SelectionTokens(f))
    decreases f, 0
  {
    DirectivesAreSignificant(f.directives);
    match f
    case Field(alias, name, arguments, directives, selections) =>
      ArgumentsAreSignificant(arguments);
      SetIsSignificant(selections);
      BothSignificant(DirectiveTokens(directives), OptionalSet(selections));
      BothSignificant(ArgumentTokens(arguments), DirectiveTokens(directives) + OptionalSet(selections));
    case Spread(_, _) =>
    case Inline(condition, directives, selections) =>
      NamesAreSignificant(condition);
      SetIsSignificant(selections);
      BothSignificant(DirectiveTokens(directives), Braced(selections));
      BothSignificant(NameTokens(condition), DirectiveTokens(directives) + Braced(selections));
  }

  lemma {:induction false} SelectionsAreSignificant(fs: seq<Selection>)
    ensures NoneIgnored(SelectionsTokens(fs))
    decreases fs, 1
  {
    if fs != [] {
      SelectionIsSignificant(fs[0]);
      SelectionsAreSignificant(fs[1..]);
    }
  }

  lemma DefinitionIsSignificant(d: Definition)
    ensures NoneIgnored(DefinitionTokens(d))
  {
    NamesAreSignificant(d.head);
    VariablesAreSignificant(d.variables);
    DirectivesAreSignificant(d.directives);
    SetIsSignificant(d.selections);
    BothSignificant(DirectiveTokens(d.directives), Braced(d.selections));
    BothSignificant(OptionalVariables(d.variables), DirectiveTokens(d.directives) + Braced(d.selections));
  }

  lemma {:induction false} DocumentIsSignificant(defs: seq<Definition>)
    ensures NoneIgnored(DocumentTokens(defs))
    decreases |defs|
  {
    if defs != [] {
      DefinitionIsSignificant(defs[0]);
      DocumentIsSignificant(defs[1..]);
    }
  }

  /** No tree is out of the theorem's reach: with a space after each token any document is written. */
  lemma EveryDocumentIsWritten(defs: seq<Definition>)
    ensures var ts := Spaced(DocumentTokens(defs)); Significant(ts) == DocumentTokens(defs) && Separated(ts)
  {
    DocumentIsSignificant(defs);
    SpacedPrints(DocumentTokens(defs));
  }

  /** A field with nothing but its name. */
  predicate Bare(f: Selection)
  {
    f.Field? && f.alias.None? && f.arguments == [] && f.directives == [] && f.selections == []
  }

  lemma BareTokens(f: Selection)
    requires Bare(f)
    ensures SelectionTokens(f) == [NameToken(f.name)]
  {
    assert ArgumentTokens(f.arguments) == [] && DirectiveTokens(f.directives) == [] && OptionalSet(f.selections) == [];
  }

  lemma PlusNothing(m: Measure)
    ensures Plus(NOTHING, m) == m && Plus(m, NOTHING) == m
  {
  }

  lemma BareMeasure(f: Selection)
    requires Bare(f)
    ensures SelectionMeasure(f) == NameMeasure(f.name, true)
  {
    NothingElse(f);
    OnlyOne(AliasMeasure(f.alias), NameMeasure(f.name, true), DirectivesMeasure(f.directives, true),
            OptionalMeasure(f.selections));
  }

  lemma NothingElse(f: Selection)
    requires Bare(f)
    ensures AliasMeasure(f.alias) == NOTHING && DirectivesMeasure(f.directives, true) == NOTHING
      && OptionalMeasure(f.selections) == NOTHING
  {
  }

  lemma OnlyOne(a: Measure, b: Measure, c: Measure, d: Measure)
    requires a == NOTHING && c == NOTHING && d == NOTHING
    ensures Plus(a, Plus(b, Plus(c, d))) == b
  {
    PlusNothing(c);
    PlusNothing(b);
  }

  lemma OneSelection(fs: seq<Selection>)
    requires |fs| == 1 && Bare(fs[0])
    ensures Braced(fs) == [Punct(OPEN_BRACE)] + ([NameToken(fs[0].name)] + [Punct(CLOSE_BRACE)])
    ensures SetMeasure(fs) == NameMeasure(fs[0].name, true).(depth := 1)
  {
    BareTokens(fs[0]);
    BareMeasure(fs[0]);
    PlusNothing(NameMeasure(fs[0].name, true));
    NoMoreSelections(fs);
  }

  lemma NoMoreSelections(fs: seq<Selection>)
    requires |fs| == 1
    ensures SelectionsTokens(fs) == SelectionTokens(fs[0]) && SelectionsMeasure(fs) == SelectionMeasure(fs[0])
  {
    PlusNothing(SelectionMeasure(fs[0]));
    assert fs[1..] == [] && SelectionTokens(fs[0]) + [] == SelectionTokens(fs[0]);
  }

  lemma OneDefinition(defs: seq<Definition>)
    requires |defs| == 1 && defs[0].head == [] && defs[0].variables == [] && defs[0].directives == []
    ensures DocumentTokens(defs) == Braced(defs[0].selections)
      && DocumentMeasure(defs) == SetMeasure(defs[0].selections)
  {
    NoPreamble(defs[0]);
    LastDefinition(defs);
  }

  lemma NoPreamble(d: Definition)
    requires d.head == [] && d.variables == [] && d.directives == []
    ensures DefinitionTokens(d) == Braced(d.selections) && DefinitionMeasure(d) == SetMeasure(d.selections)
  {
    NoPreambleTokens(d);
    assert VariablesMeasure(d.variables) == NOTHING && DirectivesMeasure(d.directives, false) == NOTHING;
    PlusNothing(SetMeasure(d.selections));
  }

  lemma NoPreambleTokens(d: Definition)
    requires d.head == [] && d.variables == [] && d.directives == []
    ensures DefinitionTokens(d) == Braced(d.selections)
  {
    assert NameTokens(d.head) == [] && OptionalVariables(d.variables) == [] && DirectiveTokens(d.directives) == [];
  }

  lemma LastDefinition(defs: seq<Definition>)
    requires |defs| == 1
    ensures DocumentTokens(defs) == DefinitionTokens(defs[0]) && DocumentMeasure(defs) == DefinitionMeasure(defs[0])
  {
    PlusNothing(DefinitionMeasure(defs[0]));
    assert defs[1..] == [] && DefinitionTokens(defs[0]) + [] == DefinitionTokens(defs[0]);
  }

  predicate Shortest(defs: seq<Definition>, name: Name)
  {
    && |defs| == 1 && defs[0].head == [] && defs[0].variables == [] && defs[0].directives == []
    && |defs[0].selections| == 1 && Bare(defs[0].selections[0]) && defs[0].selections[0].name == name
  }

  lemma ShortestIs(defs: seq<Definition>, name: Name)
    requires Shortest(defs, name)
    ensures DocumentTokens(defs) == [Punct(OPEN_BRACE)] + ([NameToken(name)] + [Punct(CLOSE_BRACE)])
    ensures DocumentMeasure(defs) == Measure(1, 0, 1, 0, Introspects(name))
  {
    OneDefinition(defs);
    OneSelection(defs[0].selections);
  }

  /** Nor need anything stand between tokens: `{name}` is a document of one level and one name. */
  lemma ShortestDocument(defs: seq<Definition>, name: Name, ts: seq<Token>)
    requires Shortest(defs, name) && ts == [Punct(OPEN_BRACE)] + ([NameToken(name)] + [Punct(CLOSE_BRACE)])
    ensures Significant(ts) == DocumentTokens(defs) && Separated(ts)
      && PrintTokens(ts) == [OPEN_BRACE] + (name + [CLOSE_BRACE])
    ensures Lex(PrintTokens(ts), START).stats == Stats(1, 0, 1, 0, Introspects(name))
  {
    ShortestIs(defs, name);
    ThreeTokens(Punct(OPEN_BRACE), NameToken(name), Punct(CLOSE_BRACE));
    LexMeasuresDocument(defs, ts);
  }

  lemma ThreeTokens(open: Token, name: Token, close: Token)
    requires open.PunctToken? && name.NameToken? && close.PunctToken?
    ensures var ts := [open] + ([name] + [close]);
            && Significant(ts) == ts && Separated(ts)
            && PrintTokens(ts) == PrintToken(open) + (PrintToken(name) + PrintToken(close))
  {
    var two := [name] + [close];
    assert [close] + [] == [close] && PrintToken(close) + [] == PrintToken(close);
    FirstOfTokens(close, []);
    FirstOfTokens(name, [close]);
    FirstOfTokens(open, two);
    assert two[0] == name && two[1] == close;
  }

  lemma FirstOfTokens(t: Token, more: seq<Token>)
    requires !Ignored(t)
    ensures Significant([t] + more) == [t] + Significant(more)
      && PrintTokens([t] + more) == PrintToken(t) + PrintTokens(more)
  {
    assert ([t] + more)[1..] == more;
  }
}
