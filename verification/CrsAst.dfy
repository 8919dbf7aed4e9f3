/** Rules of an imported ModSecurity rule set, as the parser leaves them to the evaluator. */
module CrsAst {
  import opened Seqs
  import opened Waf

  datatype Transform =
    | NoTransform
    | Lowercase | UrlDecode | UrlDecodeUni | HtmlEntityDecode | CompressWhitespace
    | RemoveWhitespace | RemoveNulls | NormalizePath | Base64Decode
    | UnsupportedTransform(name: string)

  datatype Operator =
    | Rx(pattern: string)
    | Pm(phrases: seq<string>)
    | PmFromFile(path: string)
    | ContainsOp(arg: string)
    | BeginsWith(arg: string)
    | EndsWithOp(arg: string)
    | Within(arg: string)
    | StrEq(arg: string)
    | UnsupportedOperator(name: string)

  datatype TargetKind =
    | Args | ArgsNames | ArgsGet | ArgsPost | RequestHeaders | RequestHeadersNames | RequestCookies
    | RequestCookiesNames | RequestUri | RequestUriRaw | RequestFilename | QueryString | RequestMethod
    | RequestProtocol | RequestLineTarget | RequestBody
    | UnsupportedTarget(name: string)

  datatype Variable = Variable(kind: TargetKind, selector: Option<string>, negated: bool, count: bool,
                               regexSelector: bool)

  datatype MatchUnit = MatchUnit(variables: seq<Variable>, operator: Operator, negated: bool,
                                 transforms: seq<Transform>)

  datatype CrsRule = CrsRule(id: nat, severity: Severity, head: MatchUnit, chain: seq<MatchUnit>, msg: Option<string>,
                             lineNo: nat)

  datatype Reason =
    | MalformedRule
    | NoId
    | LatePhase(phase: nat)
    | ActionUnsupported(action: string)
    | OperatorUnsupported(operator: string)
    | NoVariables
    | VariableUnsupported(variable: string)
    | CountUnsupported
    | RegexSelectorUnsupported
    | TransformUnsupported(transform: string)
    | InvalidRegex(pattern: string)
    | PhraseFileUnsupported

  datatype SkippedRule = SkippedRule(id: Option<nat>, lineNo: nat, reason: Reason)

  datatype Ruleset = Ruleset(rules: seq<CrsRule>, skipped: seq<SkippedRule>)

  /** `to_ascii_lowercase` */
  function LowerAscii(s: string): (r: string)
    ensures |r| == |s|
  {
    seq(|s|, i requires 0 <= i < |s| => if 'A' <= s[i] <= 'Z' then s[i] + 32 as char else s[i])
  }
}
