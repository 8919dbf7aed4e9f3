/** The structural GraphQL module: its decision on the operations of a request. */
module GraphqlModule {
  import opened Bits
  import opened Seqs
  import opened Graphql
  import opened GraphqlTokens
  import opened GraphqlTree

  datatype ModuleConfig = ModuleConfig(enabled: bool, maxBatch: u32, maxDepth: u32, maxAliases: u32, maxFields: u32,
                                       maxDirectives: u32, blockIntrospection: bool)

  datatype Verdict =
    | Allow | TooManyOperations | TooDeep | TooManyAliases | TooManyFields | TooManyDirectives | Introspection

  function OperationVerdict(st: Stats, cfg: ModuleConfig): Verdict
  {
    if st.maxDepth > cfg.maxDepth then TooDeep
    else if st.aliases > cfg.maxAliases then TooManyAliases
    else if st.fields > cfg.maxFields then TooManyFields
    else if st.directives > cfg.maxDirectives then TooManyDirectives
    else if cfg.blockIntrospection && st.introspection then Introspection
    else Allow
  }

  /** The verdict on the first operation that does not pass. */
  function FirstVerdict(ops: seq<seq<byte>>, cfg: ModuleConfig): Verdict
  {
    if ops == [] then Allow
    else
      var v := OperationVerdict(Lex(ops[0], START).stats, cfg);
      if v != Allow then v else FirstVerdict(ops[1..], cfg)
  }

  /** The number of operations is compared in 32 bits. */
  function Decide(ops: seq<seq<byte>>, cfg: ModuleConfig): Verdict
  {
    if !cfg.enabled || ops == [] then Allow
    else if |ops| % U32_MOD > cfg.maxBatch then TooManyOperations
    else FirstVerdict(ops, cfg)
  }

  method Inspect(ops: seq<seq<byte>>, cfg: ModuleConfig) returns (v: Verdict)
    ensures v == Decide(ops, cfg)
  {
    if !cfg.enabled || ops == [] { return Allow; }
    if |ops| % U32_MOD > cfg.maxBatch { return TooManyOperations; }
    for i := 0 to |ops|
      invariant FirstVerdict(ops[i..], cfg) == FirstVerdict(ops, cfg)
    {
      assert ops[i..][1..] == ops[i + 1..];
      var st := GraphqlLex(ops[i]);
      if st.maxDepth > cfg.maxDepth { return TooDeep; }
      if st.aliases > cfg.maxAliases { return TooManyAliases; }
      if st.fields > cfg.maxFields { return TooManyFields; }
      if st.directives > cfg.maxDirectives { return TooManyDirectives; }
      if cfg.blockIntrospection && st.introspection { return Introspection; }
    }
    assert ops[|ops|..] == [];
    return Allow;
  }

  // ---- the names that count ----

  /** The names in the selection sets of a tree, aliases, types and directives included, in order. */
  function SelectionNames(f: Selection): seq<Name>
    decreases f, 0
  {
    match f
    case Field(alias, name, _, directives, selections) =>
      (match alias case None => [] case Some(n) => [n]) + ([name] + (DirectiveNames(directives) + SetNames(selections)))
    case Spread(name, directives) => [name] + DirectiveNames(directives)
    case Inline(condition, directives, selections) => condition + (DirectiveNames(directives) + SetNames(selections))
  }

  function SetNames(fs: seq<Selection>): seq<Name>
    decreases fs, 1
  {
    if fs == [] then [] else SelectionNames(fs[0]) + SetNames(fs[1..])
  }

  function DirectiveNames(ds: seq<Directive>): seq<Name>
  {
    if ds == [] then [] else [ds[0].name] + DirectiveNames(ds[1..])
  }

  function NamesOf(defs: seq<Definition>): seq<Name>
  {
    if defs == [] then [] else SetNames(defs[0].selections) + NamesOf(defs[1..])
  }

  predicate Introspective(names: seq<Name>) { exists i :: 0 <= i < |names| && Introspects(names[i]) }

  /** The measure counts these names, and tells whether one of them starts introspection. */
  predicate Measures(m: Measure, names: seq<Name>)
  {
    m.names == |names| && (m.introspection <==> Introspective(names))
  }

  lemma IntrospectiveConcat(x: seq<Name>, y: seq<Name>)
    ensures Introspective(x + y) <==> Introspective(x) || Introspective(y)
  {
    if i :| 0 <= i < |x| && Introspects(x[i]) { assert Introspects((x + y)[i]); }
    if i :| 0 <= i < |y| && Introspects(y[i]) { assert Introspects((x + y)[|x| + i]); }
  }

  lemma PlusMeasures(a: Measure, b: Measure, x: seq<Name>, y: seq<Name>)
    requires Measures(a, x) && Measures(b, y)
    ensures Measures(Plus(a, b), x + y)
  {
    IntrospectiveConcat(x, y);
  }

  lemma NameMeasures(n: Name)
    ensures Measures(NameMeasure(n, true), [n])
  {
    assert [n][0] == n;
  }

  predicate Nameless(m: Measure) { m.names == 0 && !m.introspection }

  lemma NothingMeasures(m: Measure, none: seq<Name>)
    requires Nameless(m) && none == []
    ensures Measures(m, none)
  {
  }

  lemma {:induction false} DirectivesMeasured(ds: seq<Directive>)
    ensures Measures(DirectivesMeasure(ds, true), DirectiveNames(ds))
    decreases |ds|
  {
    if ds != [] {
      DirectivesMeasured(ds[1..]);
      OneDirective(ds[0].name, [], [ds[0].name]);
      PlusMeasures(Plus(ONE_DIRECTIVE, NameMeasure(ds[0].name, true)), DirectivesMeasure(ds[1..], true),
                   [ds[0].name], DirectiveNames(ds[1..]));
    }
  }

  lemma OneDirective(n: Name, none: seq<Name>, one: seq<Name>)
    requires none == [] && one == [n]
    ensures Measures(Plus(ONE_DIRECTIVE, NameMeasure(n, true)), one)
  {
    NameMeasures(n);
    NothingMeasures(ONE_DIRECTIVE, none);
    PlusMeasures(ONE_DIRECTIVE, NameMeasure(n, true), none, one);
    assert none + one == one;
  }

  lemma {:induction false} NamesMeasured(names: seq<Name>)
    ensures Measures(NamesMeasure(names, true), names)
    decreases |names|
  {
    if names != [] {
      NameMeasures(names[0]);
      NamesMeasured(names[1..]);
      PlusMeasures(NameMeasure(names[0], true), NamesMeasure(names[1..], true), [names[0]], names[1..]);
      assert names == [names[0]] + names[1..];
    }
  }

  lemma {:induction false} SelectionMeasured(f: Selection)
    ensures Measures(SelectionMeasure(f), SelectionNames(f))
    decreases f, 0
  {
    match f
    case Field(alias, name, _, directives, selections) =>
      var own := match alias case None => [] case Some(n) => [n];
      AliasMeasured(alias, own, []);
      NameMeasures(name);
      DirectivesMeasured(directives);
      SetMeasured(selections);
      FieldMeasured(f, AliasMeasure(alias), NameMeasure(name, true), own, [name]);
    case Spread(name, directives) =>
      NameMeasures(name);
      DirectivesMeasured(directives);
      PlusMeasures(NameMeasure(name, true), DirectivesMeasure(directives, true), [name], DirectiveNames(directives));
    case Inline(condition, directives, selections) =>
      NamesMeasured(condition);
      DirectivesMeasured(directives);
      SetMeasured(selections);
      PlusMeasures(DirectivesMeasure(directives, true), SetMeasure(selections), DirectiveNames(directives),
                   SetNames(selections));
      PlusMeasures(NamesMeasure(condition, true), Plus(DirectivesMeasure(directives, true), SetMeasure(selections)),
                   condition, DirectiveNames(directives) + SetNames(selections));
  }

  lemma FieldMeasured(f: Selection, alias: Measure, name: Measure, own: seq<Name>, one: seq<Name>)
    requires f.Field? && own == (match f.alias case None => [] case Some(n) => [n]) && one == [f.name]
    requires alias == AliasMeasure(f.alias) && name == NameMeasure(f.name, true)
    requires Measures(alias, own) && Measures(name, one)
    requires Measures(DirectivesMeasure(f.directives, true), DirectiveNames(f.directives))
    requires Measures(OptionalMeasure(f.selections), SetNames(f.selections))
    ensures Measures(SelectionMeasure(f), SelectionNames(f))
  {
    FourMeasured(alias, name, DirectivesMeasure(f.directives, true), OptionalMeasure(f.selections), own, one,
                 DirectiveNames(f.directives), SetNames(f.selections));
    FieldIs(f, own);
  }

  lemma FourMeasured(a: Measure, b: Measure, c: Measure, d: Measure, w: seq<Name>, x: seq<Name>, y: seq<Name>,
                     z: seq<Name>)
    requires Measures(a, w) && Measures(b, x) && Measures(c, y) && Measures(d, z)
    ensures Measures(Plus(a, Plus(b, Plus(c, d))), w + (x + (y + z)))
  {
    PlusMeasures(c, d, y, z);
    PlusMeasures(b, Plus(c, d), x, y + z);
    PlusMeasures(a, Plus(b, Plus(c, d)), w, x + (y + z));
  }

  lemma FieldIs(f: Selection, own: seq<Name>)
    requires f.Field? && own == match f.alias case None => [] case Some(n) => [n]
    ensures SelectionNames(f) == own + ([f.name] + (DirectiveNames(f.directives) + SetNames(f.selections)))
    ensures SelectionMeasure(f) ==
      Plus(AliasMeasure(f.alias),
           Plus(NameMeasure(f.name, true), Plus(DirectivesMeasure(f.directives, true), OptionalMeasure(f.selections))))
  {
  }

  lemma OneAlias(n: Name, none: seq<Name>, one: seq<Name>)
    requires none == [] && one == [n]
    ensures Measures(Plus(NameMeasure(n, true), ONE_ALIAS), one)
  {
    NameMeasures(n);
    NothingMeasures(ONE_ALIAS, none);
    PlusMeasures(NameMeasure(n, true), ONE_ALIAS, one, none);
    assert one + none == one;
  }

  lemma AliasMeasured(alias: Option<Name>, own: seq<Name>, none: seq<Name>)
    requires own == (match alias case None => none case Some(n) => [n]) && none == []
    ensures Measures(AliasMeasure(alias), own)
  {
    match alias
    case None => NothingMeasures(AliasMeasure(alias), own);
    case Some(n) => OneAlias(n, none, own);
  }

  lemma {:induction false} SetMeasured(fs: seq<Selection>)
    ensures Measures(SetMeasure(fs), SetNames(fs)) && Measures(OptionalMeasure(fs), SetNames(fs))
    ensures Measures(SelectionsMeasure(fs), SetNames(fs))
    decreases fs, 1
  {
    if fs != [] {
      SelectionMeasured(fs[0]);
      SetMeasured(fs[1..]);
      PlusMeasures(SelectionMeasure(fs[0]), SelectionsMeasure(fs[1..]), SelectionNames(fs[0]), SetNames(fs[1..]));
    }
  }

  lemma {:induction false} DocumentMeasured(defs: seq<Definition>)
    ensures Measures(DocumentMeasure(defs), NamesOf(defs))
    decreases |defs|
  {
    if defs != [] {
      DocumentMeasured(defs[1..]);
      DefinitionMeasured(defs[0], []);
      PlusMeasures(DefinitionMeasure(defs[0]), DocumentMeasure(defs[1..]), SetNames(defs[0].selections),
                   NamesOf(defs[1..]));
    }
  }

  lemma DefinitionMeasured(d: Definition, none: seq<Name>)
    requires none == []
    ensures Measures(DefinitionMeasure(d), SetNames(d.selections))
  {
    var mv, md, ms := VariablesMeasure(d.variables), DirectivesMeasure(d.directives, false), SetMeasure(d.selections);
    SetMeasured(d.selections);
    DirectivesHide(d.directives, false);
    VariablesHide(d.variables);
    NothingMeasures(md, none);
    NothingMeasures(mv, none);
    PlusMeasures(md, ms, none, SetNames(d.selections));
    PlusMeasures(mv, Plus(md, ms), none, none + SetNames(d.selections));
    assert none + (none + SetNames(d.selections)) == SetNames(d.selections);
  }

  lemma {:induction false} DirectivesHide(ds: seq<Directive>, counted: bool)
    requires !counted
    ensures Nameless(DirectivesMeasure(ds, counted))
    decreases |ds|
  {
    if ds == [] {
      NothingHides(ds, counted);
    } else {
      DirectivesHide(ds[1..], counted);
      DirectiveHides(ds, counted);
    }
  }

  lemma NothingHides(ds: seq<Directive>, counted: bool)
    requires ds == []
    ensures Nameless(DirectivesMeasure(ds, counted))
  {
  }

  lemma DirectiveHides(ds: seq<Directive>, counted: bool)
    requires ds != [] && !counted && Nameless(DirectivesMeasure(ds[1..], counted))
    ensures Nameless(DirectivesMeasure(ds, counted))
  {
    NothingNamed(ONE_DIRECTIVE, NameMeasure(ds[0].name, counted));
    NothingNamed(Plus(ONE_DIRECTIVE, NameMeasure(ds[0].name, counted)), DirectivesMeasure(ds[1..], counted));
  }

  lemma NothingNamed(a: Measure, b: Measure)
    requires Nameless(a) && Nameless(b)
    ensures Nameless(Plus(a, b))
  {
  }

  lemma {:induction false} VariablesHide(ds: seq<VariableDefinition>)
    ensures Nameless(VariablesMeasure(ds))
    decreases |ds|
  {
    if ds != [] {
      DirectivesHide(ds[0].directives, false);
      VariablesHide(ds[1..]);
      NothingNamed(DirectivesMeasure(ds[0].directives, false), VariablesMeasure(ds[1..]));
    }
  }

  function Bytes(s: string): (b: seq<byte>)
    requires forall i :: 0 <= i < |s| ==> s[i] < 128 as char
    ensures |b| == |s|
  {
    seq(|s|, i requires 0 <= i < |s| => s[i] as int)
  }

  /** What names are made of (section 2.1.9 of the GraphQL Specification). */
  lemma NameBytesAre(c: byte)
    ensures NameStart(c) <==> 'A' <= c as char <= 'Z' || 'a' <= c as char <= 'z' || c as char == '_'
    ensures NameByte(c) <==> NameStart(c) || '0' <= c as char <= '9'
  {
  }

  /** The two names that start introspection. */
  lemma IntrospectiveIff(names: seq<Name>)
    ensures Introspective(names) <==> Bytes("__schema") in names || Bytes("__type") in names
  {
    assert Bytes("__schema") == SCHEMA_NAME && Bytes("__type") == TYPE_NAME;
  }

  // ---- the decision ----

  predicate WithinLimits(st: Stats, cfg: ModuleConfig)
  {
    && st.maxDepth <= cfg.maxDepth && st.aliases <= cfg.maxAliases && st.fields <= cfg.maxFields
    && st.directives <= cfg.maxDirectives && !(cfg.blockIntrospection && st.introspection)
  }

  lemma {:induction false} AllPassIff(ops: seq<seq<byte>>, cfg: ModuleConfig)
    ensures FirstVerdict(ops, cfg) == Allow <==> AllWithin(ops, cfg)
    decreases |ops|
  {
    if ops != [] {
      AllPassIff(ops[1..], cfg);
      assert forall i :: 1 <= i < |ops| ==> ops[i] == ops[1..][i - 1];
    }
  }

  /** A tree within the limits: its selection depth, aliases, names and directives and, where introspection
      is blocked, no name that starts it. */
  predicate TreeWithin(defs: seq<Definition>, cfg: ModuleConfig)
  {
    var m, names := DocumentMeasure(defs), NamesOf(defs);
    && m.depth <= cfg.maxDepth && m.aliases <= cfg.maxAliases && |names| <= cfg.maxFields
    && m.directives <= cfg.maxDirectives
    && (cfg.blockIntrospection ==> Bytes("__schema") !in names && Bytes("__type") !in names)
  }

  /** A text of a document. */
  predicate IsText(op: seq<byte>, text: seq<Token>, defs: seq<Definition>)
  {
    Significant(text) == DocumentTokens(defs) && Separated(text) && op == PrintTokens(text)
  }

  lemma TreePasses(op: seq<byte>, text: seq<Token>, defs: seq<Definition>, cfg: ModuleConfig)
    requires IsText(op, text, defs)
    ensures WithinLimits(Lex(op, START).stats, cfg) <==> TreeWithin(defs, cfg)
  {
    LexMeasuresDocument(defs, text);
    DocumentMeasured(defs);
    IntrospectiveIff(NamesOf(defs));
    SameLimits(Lex(op, START).stats, DocumentMeasure(defs), NamesOf(defs), cfg);
  }

  lemma SameLimits(st: Stats, m: Measure, names: seq<Name>, cfg: ModuleConfig)
    requires st == Stats(m.depth, m.aliases, m.names, m.directives, m.introspection) && m.names == |names|
    requires m.introspection <==> Bytes("__schema") in names || Bytes("__type") in names
    ensures WithinLimits(st, cfg) <==>
      && m.depth <= cfg.maxDepth && m.aliases <= cfg.maxAliases && |names| <= cfg.maxFields
      && m.directives <= cfg.maxDirectives
      && (cfg.blockIntrospection ==> Bytes("__schema") !in names && Bytes("__type") !in names)
  {
  }

  lemma BatchDecides(ops: seq<seq<byte>>, cfg: ModuleConfig)
    requires cfg.enabled && ops != [] && |ops| <= U32_MAX
    ensures Decide(ops, cfg) == Allow <==> |ops| <= cfg.maxBatch && FirstVerdict(ops, cfg) == Allow
  {
    assert |ops| % U32_MOD == |ops|;
  }

  ghost predicate AllWithin(ops: seq<seq<byte>>, cfg: ModuleConfig)
  {
    forall i :: 0 <= i < |ops| ==> WithinLimits(Lex(ops[i], START).stats, cfg)
  }

  ghost predicate AllTreesWithin(docs: seq<seq<Definition>>, cfg: ModuleConfig)
  {
    forall i :: 0 <= i < |docs| ==> TreeWithin(docs[i], cfg)
  }

  ghost predicate AreTexts(ops: seq<seq<byte>>, texts: seq<seq<Token>>, docs: seq<seq<Definition>>)
  {
    |docs| == |texts| == |ops| && forall i :: 0 <= i < |docs| ==> IsText(ops[i], texts[i], docs[i])
  }

  lemma TreesPass(docs: seq<seq<Definition>>, texts: seq<seq<Token>>, ops: seq<seq<byte>>, cfg: ModuleConfig)
    requires AreTexts(ops, texts, docs)
    ensures AllWithin(ops, cfg) <==> AllTreesWithin(docs, cfg)
  {
    forall i | 0 <= i < |docs|
      ensures WithinLimits(Lex(ops[i], START).stats, cfg) <==> TreeWithin(docs[i], cfg)
    {
      TreePasses(ops[i], texts[i], docs[i], cfg);
    }
  }

  /** A batch of documents, each written in any way, passes exactly when there are no more of them than
      allowed and each tree is within the limits. */
  lemma DocumentsPassIff(docs: seq<seq<Definition>>, texts: seq<seq<Token>>, ops: seq<seq<byte>>, cfg: ModuleConfig)
    requires cfg.enabled && ops != [] && |ops| <= U32_MAX && AreTexts(ops, texts, docs)
    ensures Decide(ops, cfg) == Allow <==> |docs| <= cfg.maxBatch && AllTreesWithin(docs, cfg)
  {
    BatchDecides(ops, cfg);
    AllPassIff(ops, cfg);
    TreesPass(docs, texts, ops, cfg);
  }

  /** Only the number of operations wraps: 2^32 of them pass any limit on their number. */
  lemma BatchWraps(ops: seq<seq<byte>>, cfg: ModuleConfig)
    requires |ops| == 0x1_0000_0000 && cfg.enabled
    ensures Decide(ops, cfg) == FirstVerdict(ops, cfg)
  {
  }

  predicate Tells(v: Verdict, st: Stats, cfg: ModuleConfig)
  {
    match v
    case TooDeep => st.maxDepth > cfg.maxDepth
    case TooManyAliases => st.aliases > cfg.maxAliases
    case TooManyFields => st.fields > cfg.maxFields
    case TooManyDirectives => st.directives > cfg.maxDirectives
    case Introspection => cfg.blockIntrospection && st.introspection
    case _ => false
  }

  lemma OneTells(st: Stats, cfg: ModuleConfig)
    ensures var v := OperationVerdict(st, cfg); if v == Allow then WithinLimits(st, cfg) else Tells(v, st, cfg)
  {
  }

  /** A rejection tells the truth about the first operation that does not pass. */
  lemma {:induction false} VerdictIsTrue(ops: seq<seq<byte>>, cfg: ModuleConfig) returns (k: nat)
    requires FirstVerdict(ops, cfg) != Allow
    ensures k < |ops| && AllWithin(ops[..k], cfg) && Tells(FirstVerdict(ops, cfg), Lex(ops[k], START).stats, cfg)
    decreases |ops|
  {
    OneTells(Lex(ops[0], START).stats, cfg);
    if OperationVerdict(Lex(ops[0], START).stats, cfg) == Allow {
      var later := VerdictIsTrue(ops[1..], cfg);
      k := later + 1;
      FirstWithin(ops, later, cfg);
    } else {
      k := 0;
    }
  }

  lemma FirstWithin(ops: seq<seq<byte>>, k: nat, cfg: ModuleConfig)
    requires k < |ops| && WithinLimits(Lex(ops[0], START).stats, cfg) && AllWithin(ops[1..][..k], cfg)
    ensures AllWithin(ops[..k + 1], cfg)
  {
    var front, later := ops[..k + 1], ops[1..][..k];
    assert forall i :: 1 <= i < |front| ==> front[i] == later[i - 1];
  }
}
