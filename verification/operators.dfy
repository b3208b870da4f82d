/**
 The per-field operators of the rule engine (`evaluateDomainRule`,
 `evaluateStringRule`, `evaluateRelRule`, `evaluateBooleanRule`) and the glob
 matchers behind the `match` operator (`matchDomainPattern`, `matchPattern`).
 */
module Operators {
  import opened Wrappers
  import opened PhpStrings
  import opened LinkModel

  // ---------------------------------------------------------------------------
  // Glob patterns
  // ---------------------------------------------------------------------------

  /**
   A pattern holding `*` is quoted with `preg_quote`, each `\*` turned into `.*`,
   and run as `/^…$/i`. So every other character is a literal compared without
   ASCII case, and `*` stands for any run of characters other than a newline
   (PCRE's `.`). `GlobCore` is that match against the whole subject.
   */
  predicate GlobCore(p: string, s: string)
    decreases |p| + |s|
  {
    if |p| == 0 then |s| == 0
    else if p[0] == '*' then
      GlobCore(p[1..], s) || (|s| > 0 && s[0] != '\n' && GlobCore(p, s[1..]))
    else
      |s| > 0 && LowerChar(p[0]) == LowerChar(s[0]) && GlobCore(p[1..], s[1..])
  }

  /** PCRE's `$` also matches just before one final newline of the subject. */
  predicate GlobMatches(p: string, s: string) {
    GlobCore(p, s) || (|s| > 0 && s[|s| - 1] == '\n' && GlobCore(p, s[..|s| - 1]))
  }

  /**
   The result of running a quoted glob through the regex engine: 1 on a match, 0
   otherwise. The quoted pattern is always a valid regex; PCRE's backtracking
   limit, under which PHP answers `false`, is not modelled.
   */
  function StarPatternMatch(s: string, pattern: string): (r: OpResult)
    ensures r == PInt(1) <==> GlobMatches(pattern, s)
    ensures r == PInt(0) <==> !GlobMatches(pattern, s)
  {
    PInt(if GlobMatches(pattern, s) then 1 else 0)
  }

  /** A pattern without `*` matches exactly the subjects equal to it up to ASCII case. */
  lemma {:induction false} GlobLiteral(p: string, s: string)
    requires '*' !in p
    ensures GlobCore(p, s) <==> CaseEq(p, s)
    decreases |p|
  {
    if |p| > 0 && |s| > 0 {
      GlobLiteral(p[1..], s[1..]);
      assert Lower(p) == [LowerChar(p[0])] + Lower(p[1..]);
      assert Lower(s) == [LowerChar(s[0])] + Lower(s[1..]);
    }
  }

  /**
   `*` followed by a literal word matches a single-line subject exactly when the
   subject ends with the word, up to ASCII case: `*.pdf` matches `a.pdf`, not `a.pdfx`.
   */
  lemma {:induction false} GlobStarSuffix(w: string, s: string)
    requires '*' !in w
    requires '\n' !in s
    ensures GlobCore("*" + w, s) <==> HasSuffix(Lower(s), Lower(w))
    decreases |s|
  {
    var p := "*" + w;
    assert p[1..] == w;
    GlobLiteral(w, s);
    if |s| > 0 {
      GlobStarSuffix(w, s[1..]);
      assert Lower(s)[1..] == Lower(s[1..]);
      if |Lower(w)| < |Lower(s)| {
        assert Lower(s)[|s| - |w|..] == Lower(s[1..])[|s| - 1 - |w|..];
      }
    }
  }

  /** `*.pdf` accepts `a.PDF`: the glob ignores case. */
  lemma PdfGlobHit()
    ensures StarPatternMatch("a.PDF", "*.pdf") == PInt(1)
  {
    var s := "a.PDF";
    assert "*.pdf" == "*" + ".pdf";
    assert '\n' !in s;
    GlobStarSuffix(".pdf", s);
    assert HasSuffix(Lower(s), Lower(".pdf")) by {
      assert Lower(".pdf") == ".pdf";
      assert Lower(s)[1..] == ".pdf" by {
        assert Lower(s) == "a.pdf";
      }
    }
  }

  /** `*.pdf` rejects `a.pdfx`: the glob is anchored at the end. */
  lemma PdfGlobMiss()
    ensures StarPatternMatch("a.pdfx", "*.pdf") == PInt(0)
  {
    var s := "a.pdfx";
    assert "*.pdf" == "*" + ".pdf";
    assert '\n' !in s;
    GlobStarSuffix(".pdf", s);
    assert !HasSuffix(Lower(s), Lower(".pdf")) by {
      assert Lower(".pdf") == ".pdf";
      assert Lower(s) == s;
      assert s[2..] != ".pdf" by { assert s[2] == 'p'; }
    }
  }

  /** `$pattern[0] === '/' && substr($pattern, -1) === '/'`. */
  predicate IsDelimitedRegex(pattern: string) {
    |pattern| > 0 && pattern[0] == '/' && pattern[|pattern| - 1] == '/'
  }

  /**
   `matchPattern`: the empty pattern never matches and `*` always does; a
   `/…/` pattern is run as a regex; a pattern with `*` is a whole-subject glob;
   any other pattern is a case-insensitive substring.
   */
  function MatchPattern(s: string, pattern: string, re: Preg): (r: OpResult)
    ensures pattern == "" ==> r == BFalse
    ensures pattern == "*" ==> r == BTrue
    ensures pattern != "*" && IsDelimitedRegex(pattern) ==> r == PregMatch(re, pattern, s)
    ensures !IsDelimitedRegex(pattern) && pattern != "*" && '*' in pattern ==>
              (r == PInt(1) <==> GlobMatches(pattern, s)) && (r == PInt(0) <==> !GlobMatches(pattern, s))
    ensures pattern != "" && !IsDelimitedRegex(pattern) && '*' !in pattern ==>
              (r == BTrue <==> exists i :: 0 <= i <= |s| && OccursAt(Lower(s), Lower(pattern), i))
              && (r == BFalse <==> !exists i :: 0 <= i <= |s| && OccursAt(Lower(s), Lower(pattern), i))
  {
    ContainsCiIffOccurs(s, pattern);
    if pattern == "" then BFalse
    else if pattern == "*" then BTrue
    else if IsDelimitedRegex(pattern) then PregMatch(re, pattern, s)
    else if '*' in pattern then StarPatternMatch(s, pattern)
    else FromBool(ContainsCi(s, pattern))
  }

  /** `matchDomainPattern`: as `MatchPattern`, except that a plain pattern must equal the host up to case. */
  function MatchDomainPattern(host: string, pattern: string, re: Preg): (r: OpResult)
    ensures pattern == "" ==> r == BFalse
    ensures pattern == "*" ==> r == BTrue
    ensures pattern != "*" && IsDelimitedRegex(pattern) ==> r == PregMatch(re, pattern, host)
    ensures !IsDelimitedRegex(pattern) && pattern != "*" && '*' in pattern ==>
              (r == PInt(1) <==> GlobMatches(pattern, host)) && (r == PInt(0) <==> !GlobMatches(pattern, host))
    ensures pattern != "" && !IsDelimitedRegex(pattern) && '*' !in pattern ==>
              (r == BTrue <==> GlobCore(pattern, host)) && (r == BFalse <==> !GlobCore(pattern, host))
  {
    if pattern == "" then BFalse
    else if pattern == "*" then BTrue
    else if IsDelimitedRegex(pattern) then PregMatch(re, pattern, host)
    else if '*' in pattern then StarPatternMatch(host, pattern)
    else
      GlobLiteral(pattern, host);
      FromBool(CaseEq(host, pattern))
  }

  // ---------------------------------------------------------------------------
  // Operators per field kind
  // ---------------------------------------------------------------------------

  /** Operators that can answer with `preg_match`'s integer. */
  predicate IsRegexOperator(op: Operator) {
    op == Regex || op == Match
  }

  /**
   `evaluateDomainRule`: every comparison ignores ASCII case, `equals` included.
   An operator the engine does not know answers `false`.
   */
  function EvaluateDomainRule(host: string, op: Operator, value: string, re: Preg): (r: OpResult)
    ensures r.PInt? ==> IsRegexOperator(op)
    ensures op.UnknownOperator? ==> r == BFalse
    ensures op == Equals ==> (r == BTrue <==> CaseEq(host, value))
    ensures op == NotEquals ==> (r == BTrue <==> !CaseEq(host, value))
    ensures op == Contains ==> (r == BTrue <==> ContainsCi(host, value))
    ensures op == NotContains ==> (r == BTrue <==> !ContainsCi(host, value))
    ensures op == StartsWith ==> (r == BTrue <==> Lower(value) <= Lower(host))
    ensures op == EndsWith ==> (r == BTrue <==> HasSuffix(Lower(host), Lower(value)))
    ensures op == Regex ==> r == PregMatch(re, value, host)
    ensures op == Match ==> r == MatchDomainPattern(host, value, re)
    ensures !IsRegexOperator(op) ==> r != BTrue ==> r == BFalse
  {
    IndexOfZeroIsPrefix(Lower(host), Lower(value));
    match op
    case Match => MatchDomainPattern(host, value, re)
    case Contains => FromBool(ContainsCi(host, value))
    case NotContains => FromBool(!ContainsCi(host, value))
    case Equals => FromBool(CaseEq(host, value))
    case NotEquals => FromBool(!CaseEq(host, value))
    case StartsWith => FromBool(IndexOfCi(host, value) == Some(0))
    case EndsWith => FromBool(HasSuffix(Lower(host), Lower(value)))
    case Regex => PregMatch(re, value, host)
    case UnknownOperator(_) => BFalse
  }

  /**
   `evaluateStringRule`: `equals`/`not_equals` compare exactly (case matters),
   while `contains`, `not_contains`, `starts_with` and `ends_with` ignore ASCII case.
   */
  function EvaluateStringRule(s: string, op: Operator, value: string, re: Preg): (r: OpResult)
    ensures r.PInt? ==> IsRegexOperator(op)
    ensures op.UnknownOperator? ==> r == BFalse
    ensures op == Equals ==> (r == BTrue <==> s == value)
    ensures op == NotEquals ==> (r == BTrue <==> s != value)
    ensures op == Contains ==> (r == BTrue <==> ContainsCi(s, value))
    ensures op == NotContains ==> (r == BTrue <==> !ContainsCi(s, value))
    ensures op == StartsWith ==> (r == BTrue <==> Lower(value) <= Lower(s))
    ensures op == EndsWith ==> (r == BTrue <==> HasSuffix(Lower(s), Lower(value)))
    ensures op == Regex ==> r == PregMatch(re, value, s)
    ensures op == Match ==> r == MatchPattern(s, value, re)
    ensures !IsRegexOperator(op) ==> r != BTrue ==> r == BFalse
  {
    IndexOfZeroIsPrefix(Lower(s), Lower(value));
    match op
    case Contains => FromBool(ContainsCi(s, value))
    case NotContains => FromBool(!ContainsCi(s, value))
    case Equals => FromBool(s == value)
    case NotEquals => FromBool(s != value)
    case StartsWith => FromBool(IndexOfCi(s, value) == Some(0))
    case EndsWith => FromBool(HasSuffix(Lower(s), Lower(value)))
    case Regex => PregMatch(re, value, s)
    case Match => MatchPattern(s, value, re)
    case UnknownOperator(_) => BFalse
  }

  /** The string fields differ from the domain field only in how `equals` treats case. */
  lemma DomainEqualsIgnoresCase(host: string, value: string, re: Preg)
    requires host != value && CaseEq(host, value)
    ensures EvaluateDomainRule(host, Equals, value, re) == BTrue
    ensures EvaluateStringRule(host, Equals, value, re) == BFalse
  {
  }

  /** `evaluateRelRule`: membership of the token among the link's rel tokens; only two operators exist. */
  function EvaluateRelRule(rel: seq<string>, op: Operator, value: string): (r: OpResult)
    ensures r != BTrue ==> r == BFalse
    ensures r == BTrue <==> (op == Contains && value in rel) || (op == NotContains && value !in rel)
  {
    match op
    case Contains => FromBool(value in rel)
    case NotContains => FromBool(value !in rel)
    case _ => BFalse
  }

  /** The strings `evaluateBooleanRule` reads as true, compared after lower-casing. */
  predicate IsTruthyFlag(expected: string) {
    Lower(expected) in ["true", "1", "yes", "on"]
  }

  /**
   `evaluateBooleanRule`: the value is compared strictly with the flag the rule's
   text denotes; only `equals` and `not_equals` can hold.
   */
  function EvaluateBooleanRule(value: bool, op: Operator, expected: string): (r: OpResult)
    ensures r != BTrue ==> r == BFalse
    ensures r == BTrue ==> op == Equals || op == NotEquals
    ensures op == Equals ==> (r == BTrue <==> value == IsTruthyFlag(expected))
    ensures op == NotEquals ==> (r == BTrue <==> value != IsTruthyFlag(expected))
  {
    var expectedBool := IsTruthyFlag(expected);
    match op
    case Equals => FromBool(value == expectedBool)
    case NotEquals => FromBool(value != expectedBool)
    case _ => BFalse
  }

  /** Rule text is read without case: `Yes` and `ON` denote true, anything outside the four words false. */
  lemma BooleanFlagExamples()
    ensures IsTruthyFlag("Yes") && IsTruthyFlag("ON") && IsTruthyFlag("1")
    ensures !IsTruthyFlag("y") && !IsTruthyFlag("")
  {
    assert Lower("Yes") == "yes";
    assert Lower("ON") == "on";
    assert Lower("1") == "1";
    assert Lower("y") == "y";
  }
}
