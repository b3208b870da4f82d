/**
 Field lookup and branch logic (`evaluateConditionRules`): each test of a
 branch is evaluated on its field, and the results are combined by `and`/`or`
 logic that compares them by identity with `true`/`false`.
 */
module Conditions {
  import opened Wrappers
  import opened PhpStrings
  import opened LinkModel
  import opened Operators
  import Urls

  /** The page fields a link without page context falls back to (the `??` defaults). */
  function PagePathOf(link: Link): string {
    match link.page case Some(p) => p.currentPath case None => "/"
  }

  function PageTypeOf(link: Link): string {
    match link.page case Some(p) => p.pageType case None => "unknown"
  }

  function PageNameOf(link: Link): string {
    match link.page case Some(p) => p.pageName case None => ""
  }

  function IsSpecialPageOf(link: Link): bool {
    match link.page case Some(p) => p.isSpecialPage case None => false
  }

  /** One test of a branch: its field looked up on the link, then its operator applied. */
  function EvaluateRule(link: Link, rule: ConditionRule, re: Preg): (r: OpResult)
    ensures rule.field.UnknownField? ==> r == BFalse
    ensures r.PInt? ==> IsRegexOperator(rule.operator)
    ensures rule.field == Rel ==> (r == BTrue <==>
              (rule.operator == Contains && rule.value in link.attrs.rel)
              || (rule.operator == NotContains && rule.value !in link.attrs.rel))
    ensures rule.field == Domain && rule.operator == Equals ==> (r == BTrue <==> CaseEq(link.host, rule.value))
    ensures rule.field == Url && rule.operator == Equals ==> (r == BTrue <==> link.url == rule.value)
    ensures rule.field == IsSpecialPage ==> r != PInt(0) && r != PInt(1)
  {
    var op, v := rule.operator, rule.value;
    match rule.field
    case Domain => EvaluateDomainRule(link.host, op, v, re)
    case Url => EvaluateStringRule(link.url, op, v, re)
    case Rel => EvaluateRelRule(link.attrs.rel, op, v)
    case Path => EvaluateStringRule(Urls.PathField(link.url), op, v, re)
    case Query => EvaluateStringRule(Urls.QueryField(link.url), op, v, re)
    case PagePath => EvaluateStringRule(PagePathOf(link), op, v, re)
    case PageType => EvaluateStringRule(PageTypeOf(link), op, v, re)
    case PageName => EvaluateStringRule(PageNameOf(link), op, v, re)
    case IsSpecialPage => EvaluateBooleanRule(IsSpecialPageOf(link), op, v)
    case UnknownField(_) => BFalse
  }

  /**
   Which value each field tests: the host, the whole URL, its path or its
   query, the page context with its fallbacks when there is none, and the
   special-page flag.
   */
  lemma EvaluateRuleField(link: Link, rule: ConditionRule, re: Preg)
    ensures rule.field == Domain ==> EvaluateRule(link, rule, re) == EvaluateDomainRule(link.host, rule.operator, rule.value, re)
    ensures rule.field == Url ==> EvaluateRule(link, rule, re) == EvaluateStringRule(link.url, rule.operator, rule.value, re)
    ensures rule.field == Path ==> EvaluateRule(link, rule, re) == EvaluateStringRule(Urls.PathField(link.url), rule.operator, rule.value, re)
    ensures rule.field == Query ==> EvaluateRule(link, rule, re) == EvaluateStringRule(Urls.QueryField(link.url), rule.operator, rule.value, re)
    ensures rule.field == PagePath ==>
              EvaluateRule(link, rule, re) == EvaluateStringRule(if link.page.Some? then link.page.value.currentPath else "/", rule.operator, rule.value, re)
    ensures rule.field == PageType ==>
              EvaluateRule(link, rule, re) == EvaluateStringRule(if link.page.Some? then link.page.value.pageType else "unknown", rule.operator, rule.value, re)
    ensures rule.field == PageName ==>
              EvaluateRule(link, rule, re) == EvaluateStringRule(if link.page.Some? then link.page.value.pageName else "", rule.operator, rule.value, re)
    ensures rule.field == IsSpecialPage ==>
              EvaluateRule(link, rule, re) == EvaluateBooleanRule(link.page.Some? && link.page.value.isSpecialPage, rule.operator, rule.value)
  {
  }

  /** The list `$results` of `evaluateConditionRules`, one entry per test, in order. */
  function Results(link: Link, rules: seq<ConditionRule>, re: Preg): (r: seq<OpResult>)
    ensures |r| == |rules|
    ensures forall i :: 0 <= i < |rules| ==> r[i] == EvaluateRule(link, rules[i], re)
  {
    seq(|rules|, i requires 0 <= i < |rules| => EvaluateRule(link, rules[i], re))
  }

  /** Whether the branch logic, after lower-casing, is `or`; anything else is treated as `and`. */
  predicate IsOrLogic(logic: string) {
    Lower(logic) == "or"
  }

  /**
   `evaluateConditionRules`: no tests never match. Under `or` the branch matches
   iff some test returned exactly `true`; otherwise iff no test returned exactly
   `false` (`in_array(…, true)` is a strict comparison).
   */
  function EvaluateConditionRules(link: Link, rules: seq<ConditionRule>, logic: string, re: Preg): (r: bool)
    ensures |rules| == 0 ==> !r
    ensures |rules| > 0 && IsOrLogic(logic) ==>
              (r <==> exists i :: 0 <= i < |rules| && EvaluateRule(link, rules[i], re) == BTrue)
    ensures |rules| > 0 && !IsOrLogic(logic) ==>
              (r <==> forall i :: 0 <= i < |rules| ==> EvaluateRule(link, rules[i], re) != BFalse)
  {
    if |rules| == 0 then false
    else
      var results := Results(link, rules, re);
      if IsOrLogic(logic) then BTrue in results else BFalse !in results
  }

  /** An unrecognised field makes an `and` branch fail and never helps an `or` branch. */
  lemma UnknownFieldContributesFalse(link: Link, rules: seq<ConditionRule>, k: nat, logic: string, re: Preg)
    requires k < |rules| && rules[k].field.UnknownField?
    ensures !IsOrLogic(logic) ==> !EvaluateConditionRules(link, rules, logic, re)
    ensures IsOrLogic(logic) ==>
              (EvaluateConditionRules(link, rules, logic, re) <==>
                 exists i :: 0 <= i < |rules| && i != k && EvaluateRule(link, rules[i], re) == BTrue)
  {
  }

  /**
   Under `or`, a regex or glob hit (`preg_match` returning 1) is not `true`: a
   branch whose only test is a matching `regex` never matches.
   */
  lemma OrIgnoresRegexHit(link: Link, pattern: string, re: Preg)
    requires re(pattern, link.url) == PregHit
    ensures !EvaluateConditionRules(link, [ConditionRule(Url, Regex, pattern)], "or", re)
  {
    assert Lower("or") == "or";
  }

  /**
   Under `and`, a regex or glob miss (`preg_match` returning 0) is not `false`:
   a branch whose only test is a non-matching `regex` still matches. Only an
   invalid pattern makes it fail.
   */
  lemma AndIgnoresRegexMiss(link: Link, pattern: string, re: Preg)
    ensures (EvaluateConditionRules(link, [ConditionRule(Url, Regex, pattern)], "and", re)
             <==> re(pattern, link.url) != PregError)
  {
    assert !IsOrLogic("and") by { assert Lower("and") == "and"; }
    var rules := [ConditionRule(Url, Regex, pattern)];
    assert EvaluateRule(link, rules[0], re) == PregMatch(re, pattern, link.url);
    assert (forall i :: 0 <= i < |rules| ==> EvaluateRule(link, rules[i], re) != BFalse)
           <==> EvaluateRule(link, rules[0], re) != BFalse;
  }

  /** The logic word is read without case: `OR` behaves as `or`. */
  lemma LogicIgnoresCase(link: Link, rules: seq<ConditionRule>, re: Preg)
    ensures EvaluateConditionRules(link, rules, "OR", re) == EvaluateConditionRules(link, rules, "or", re)
  {
    assert Lower("OR") == "or" == Lower("or");
  }

  /** Domain `equals` ignores case: `Example.COM` equals `example.com`. */
  lemma DomainEqualsExample(link: Link, re: Preg)
    requires link.host == "Example.COM"
    ensures EvaluateConditionRules(link, [ConditionRule(Domain, Equals, "example.com")], "and", re)
  {
    assert Lower("Example.COM") == Lower("example.com");
    assert Lower("and") == "and";
  }

  /** The order of the tests does not matter: reversing them gives the same verdict. */
  lemma OrderIrrelevant(link: Link, rules: seq<ConditionRule>, logic: string, re: Preg)
    ensures EvaluateConditionRules(link, Reverse(rules), logic, re) == EvaluateConditionRules(link, rules, logic, re)
  {
    var a, b := Results(link, rules, re), Results(link, Reverse(rules), re);
    assert b == Reverse(a);
    ReverseSameElements(a);
  }

  lemma ReverseSameElements<T>(s: seq<T>)
    ensures forall x :: x in Reverse(s) <==> x in s
  {
    var r := Reverse(s);
    forall x | x in r ensures x in s {
      var i :| 0 <= i < |r| && r[i] == x;
      assert s[|s| - 1 - i] == x;
    }
    forall x | x in s ensures x in r {
      var i :| 0 <= i < |s| && s[i] == x;
      assert r[|s| - 1 - i] == x;
    }
  }

  function Reverse<T>(s: seq<T>): (r: seq<T>)
    ensures |r| == |s|
    ensures forall i :: 0 <= i < |s| ==> r[i] == s[|s| - 1 - i]
  {
    seq(|s|, i requires 0 <= i < |s| => s[|s| - 1 - i])
  }
}
