/**
 The data the rule engine works on: the link being rewritten, the page it sits
 on, and the rule configuration (rules, if/elseif/else branches, field tests and
 actions). PHP keeps all of these in loosely-shaped arrays; here every shape is a
 datatype, and every `type`, `field` and `operator` string the engine does not
 recognise is kept as an `Unknown…` variant so that its (no-op) handling stays
 visible.
 */
module LinkModel {
  import opened Wrappers
  import Urls

  /** Where the link is rendered: request path, page name and type, special-page flag, template. */
  datatype PageContext = PageContext(
    currentPath: string,
    pageName: string,
    pageType: string,
    isSpecialPage: bool,
    template: string)

  /**
   The anchor attributes the engine reads and writes. `rel` and `classes` (the `class` attribute) are token
   lists in insertion order (duplicates are removed only when rendering); `data`
   holds the `data-*` attributes. A `title` of `""` stands for an absent title:
   `add_title` only ever writes non-empty titles, so the two cannot be told apart.
   */
  datatype Attrs = Attrs(
    rel: seq<string>,
    target: string,
    classes: seq<string>,
    title: string,
    data: map<string, string>)

  /**
   The link being rewritten. `page` is absent when the monitor builds the link,
   in which case field lookups fall back to their defaults. `disabled` stands for
   the `disabled` key (absent and `false` behave alike; only `true` is ever
   written).
   */
  datatype Link = Link(
    url: string,
    text: string,
    host: string,
    page: Option<PageContext>,
    useRedirect: bool,
    disabled: bool,
    warningText: Option<string>,
    attrs: Attrs)

  /** The anchor attributes the monitor and the preview start from: all empty. */
  const EmptyAttrs: Attrs := Attrs([], "", [], "", map[])

  /** The value a field test looks at. */
  datatype Field =
    | Domain | Url | Rel | Path | Query
    | PagePath | PageType | PageName | IsSpecialPage
    | UnknownField(name: string)

  datatype Operator =
    | Contains | NotContains | Equals | NotEquals | StartsWith | EndsWith | Regex | Match
    | UnknownOperator(name: string)

  /** One `(field, operator, value)` test of a branch. */
  datatype ConditionRule = ConditionRule(field: Field, operator: Operator, value: string)

  /** The `type` of a branch. */
  datatype BranchKind = If | ElseIf | Else | UnknownKind(name: string)

  /**
   One action of a branch. Flags default to off and strings to empty, as an
   absent key reads in PHP; `Option` marks the keys whose absence selects a
   default value.
   */
  datatype Action =
    | AddRel(values: seq<string>)
    | AddUtm(enabled: bool, data: seq<(string, string)>)
    | TargetBlank(enabled: bool)
    | ForceHttps(enabled: bool)
    | AddClass(value: string)
    | AddTitle(value: string)
    | AddReferer(enabled: bool, value: string)
    | SvgSuffix(enabled: bool, suffixText: Option<string>, base64Code: Option<string>)
    | AddToBlacklist(enabled: bool, mode: Option<string>, warningText: Option<string>)
    | RemoveUtm(enabled: bool)
    | RemoveTracking(enabled: bool)
    | RemoveParams(enabled: bool, params: seq<string>)
    | AddCustomParams(enabled: bool, customParams: seq<Urls.CustomParam>)
    | EnableRedirect(enabled: bool)
    | UnknownAction(actionType: string)

  /** One if/elseif/else branch: its kind, its `and`/`or` logic (if given), its tests and its actions. */
  datatype Condition = Condition(
    kind: BranchKind,
    logic: Option<string>,
    rules: seq<ConditionRule>,
    actions: seq<Action>)

  /** A named, switchable rule: an ordered chain of branches. */
  datatype Rule = Rule(name: string, enable: bool, conditions: seq<Condition>)

  /**
   What a single field test returns. PHP's operators return booleans, except the
   `regex` operator and the regex branches of the `match` operator, which return
   `preg_match`'s integer (0 or 1) or `false` for an invalid pattern. Branch logic
   compares these by identity, so the three shapes are kept apart.
   */
  datatype OpResult = BTrue | BFalse | PInt(n: int)

  function FromBool(b: bool): (r: OpResult)
    ensures r == BTrue <==> b
    ensures r == BFalse <==> !b
  {
    if b then BTrue else BFalse
  }

  /** The outcome of running a PCRE pattern on a subject. */
  datatype PregOutcome = PregHit | PregMiss | PregError

  /**
   The regular-expression engine, supplied by the caller: `re(pattern, subject)`.
   PCRE itself is outside the model.
   */
  type Preg = (string, string) -> PregOutcome

  /** `@preg_match($pattern, $subject)`: 1 on a match, 0 on none, `false` for an invalid pattern. */
  function PregMatch(re: Preg, pattern: string, subject: string): (r: OpResult)
    ensures r == PInt(1) || r == PInt(0) || r == BFalse
    ensures r == BFalse <==> re(pattern, subject) == PregError
  {
    match re(pattern, subject)
    case PregHit => PInt(1)
    case PregMiss => PInt(0)
    case PregError => BFalse
  }
}
