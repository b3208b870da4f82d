/**
 The rule pipeline: branch selection within one rule (`applyAdvancedRule`), the
 per-link loop over all rules, rendering of the rewritten anchor
 (`buildFinalLink`) and the rule preview (`checkLinkRules`).
 */
module Engine {
  import opened Wrappers
  import opened PhpStrings
  import opened LinkModel
  import opened Conditions
  import opened Actions
  import Urls

  // ---------------------------------------------------------------------------
  // Branch selection
  // ---------------------------------------------------------------------------

  /** Whether a branch's guard holds: `if`/`elseif` test their rules (logic `and` when unset), `else` always holds. */
  predicate BranchMatches(link: Link, c: Condition, re: Preg) {
    match c.kind
    case If => EvaluateConditionRules(link, c.rules, c.logic.GetOr("and"), re)
    case ElseIf => EvaluateConditionRules(link, c.rules, c.logic.GetOr("and"), re)
    case Else => true
    case UnknownKind(_) => false
  }

  /** A branch is taken only when its guard holds and it has actions to run. */
  predicate Fires(link: Link, c: Condition, re: Preg) {
    BranchMatches(link, c, re) && |c.actions| > 0
  }

  /**
   The branch loop: every guard is evaluated on the unchanged link, the first
   branch that fires runs its actions, and the loop stops there.
   */
  function ApplyBranches(link: Link, conds: seq<Condition>, re: Preg): (r: Link)
    ensures Accumulates(link, r)
    decreases |conds|
  {
    if |conds| == 0 then link
    else if Fires(link, conds[0], re) then ApplyActions(link, conds[0].actions)
    else ApplyBranches(link, conds[1..], re)
  }

  /** When no branch fires, the link is unchanged. */
  lemma {:induction false} ApplyBranchesNoneFires(link: Link, conds: seq<Condition>, re: Preg)
    requires forall j :: 0 <= j < |conds| ==> !Fires(link, conds[j], re)
    ensures ApplyBranches(link, conds, re) == link
    decreases |conds|
  {
    if |conds| > 0 {
      var tail := conds[1..];
      assert !Fires(link, conds[0], re);
      assert forall j :: 0 <= j < |tail| ==> tail[j] == conds[j + 1];
      ApplyBranchesNoneFires(link, tail, re);
    }
  }

  /** When branch `k` is the first that fires, exactly its actions are applied. */
  lemma {:induction false} ApplyBranchesFirstFires(link: Link, conds: seq<Condition>, re: Preg, k: nat)
    requires k < |conds| && Fires(link, conds[k], re)
    requires forall j :: 0 <= j < k ==> !Fires(link, conds[j], re)
    ensures ApplyBranches(link, conds, re) == ApplyActions(link, conds[k].actions)
    decreases k
  {
    if k > 0 {
      var tail := conds[1..];
      assert !Fires(link, conds[0], re);
      assert forall j :: 0 <= j < k - 1 ==> tail[j] == conds[j + 1];
      ApplyBranchesFirstFires(link, tail, re, k - 1);
    }
  }

  /** When no branch fires the link is unchanged; otherwise exactly the actions of the first branch that fires are applied. */
  lemma ApplyBranchesPicks(link: Link, conds: seq<Condition>, re: Preg)
    ensures (forall j :: 0 <= j < |conds| ==> !Fires(link, conds[j], re)) ==> ApplyBranches(link, conds, re) == link
    ensures forall k :: 0 <= k < |conds| && Fires(link, conds[k], re)
                        && (forall j :: 0 <= j < k ==> !Fires(link, conds[j], re))
                        ==> ApplyBranches(link, conds, re) == ApplyActions(link, conds[k].actions)
  {
    if forall j :: 0 <= j < |conds| ==> !Fires(link, conds[j], re) {
      ApplyBranchesNoneFires(link, conds, re);
    }
    forall k | 0 <= k < |conds| && Fires(link, conds[k], re) && (forall j :: 0 <= j < k ==> !Fires(link, conds[j], re))
      ensures ApplyBranches(link, conds, re) == ApplyActions(link, conds[k].actions)
    {
      ApplyBranchesFirstFires(link, conds, re, k);
    }
  }

  /**
   `applyAdvancedRule`: a rule without branches leaves the link alone; otherwise
   exactly the first branch that matches and has actions is applied, and when no
   branch does the link is unchanged.
   */
  function ApplyAdvancedRule(link: Link, rule: Rule, re: Preg): (r: Link)
    ensures |rule.conditions| == 0 ==> r == link
    ensures Accumulates(link, r)
  {
    if |rule.conditions| == 0 then link else ApplyBranches(link, rule.conditions, re)
  }

  /** Exactly the first branch that matches and has actions decides the result; when none does, the link is unchanged. */
  lemma ApplyAdvancedRuleBranch(link: Link, rule: Rule, re: Preg)
    ensures (forall j :: 0 <= j < |rule.conditions| ==> !Fires(link, rule.conditions[j], re))
            ==> ApplyAdvancedRule(link, rule, re) == link
    ensures forall k :: 0 <= k < |rule.conditions| && Fires(link, rule.conditions[k], re)
                        && (forall j :: 0 <= j < k ==> !Fires(link, rule.conditions[j], re))
                        ==> ApplyAdvancedRule(link, rule, re) == ApplyActions(link, rule.conditions[k].actions)
  {
    ApplyBranchesPicks(link, rule.conditions, re);
  }

  /** A branch of a kind other than if/elseif/else is never taken. */
  lemma UnknownKindNeverFires(link: Link, c: Condition, re: Preg)
    requires c.kind.UnknownKind?
    ensures !Fires(link, c, re)
  {
  }

  /**
   Empty-action branches fall through: when a matching `if` has no actions, a
   following `else` with actions is the branch that runs.
   */
  lemma EmptyActionsFallThrough(link: Link, first: Condition, otherwise: seq<Action>, re: Preg)
    requires first.kind == If && |first.actions| == 0
    requires |otherwise| > 0
    ensures ApplyAdvancedRule(link, Rule("r", true, [first, Condition(Else, None, [], otherwise)]), re)
            == ApplyActions(link, otherwise)
  {
    var conds := [first, Condition(Else, None, [], otherwise)];
    assert !Fires(link, conds[0], re) && Fires(link, conds[1], re);
    ApplyBranchesPicks(link, conds, re);
  }

  /**
   Branches after the first taken one are never looked at; branches before are
   only evaluated, never applied. Splitting the chain anywhere shows this.
   */
  lemma {:induction false} ApplyBranchesConcat(link: Link, xs: seq<Condition>, ys: seq<Condition>, re: Preg)
    ensures (exists i :: 0 <= i < |xs| && Fires(link, xs[i], re)) ==>
              ApplyBranches(link, xs + ys, re) == ApplyBranches(link, xs, re)
    ensures (forall i :: 0 <= i < |xs| ==> !Fires(link, xs[i], re)) ==>
              ApplyBranches(link, xs + ys, re) == ApplyBranches(link, ys, re)
    decreases |xs|
  {
    if |xs| == 0 {
      assert xs + ys == ys;
    } else {
      assert (xs + ys)[0] == xs[0];
      assert (xs + ys)[1..] == xs[1..] + ys;
      ApplyBranchesConcat(link, xs[1..], ys, re);
      assert forall i :: 1 <= i < |xs| ==> xs[i] == xs[1..][i - 1];
    }
  }

  // ---------------------------------------------------------------------------
  // The per-link loop
  // ---------------------------------------------------------------------------

  /**
   The loop over the rules in the content filter: enabled rules apply one after
   the other, each to the previous one's result, and the loop ends right after a
   rule leaves the link disabled. Disabled rules are skipped.
   */
  function ApplyRuleSet(link: Link, rules: seq<Rule>, re: Preg): (r: Link)
    ensures Accumulates(link, r)
    ensures (forall i :: 0 <= i < |rules| ==> !rules[i].enable) ==> r == link
    decreases |rules|
  {
    if |rules| == 0 then link
    else if !rules[0].enable then
      var r := ApplyRuleSet(link, rules[1..], re);
      assert forall i :: 1 <= i < |rules| ==> rules[i] == rules[1..][i - 1];
      r
    else
      var next := ApplyAdvancedRule(link, rules[0], re);
      if next.disabled then next
      else
        var r := ApplyRuleSet(next, rules[1..], re);
        AccumulatesTransitive(link, next, r);
        r
  }

  /** Every enabled rule in order, without stopping at a disabled link (the monitor's loop). */
  function ApplyEnabledRules(link: Link, rules: seq<Rule>, re: Preg): (r: Link)
    ensures Accumulates(link, r)
    decreases |rules|
  {
    if |rules| == 0 then link
    else
      var next := if rules[0].enable then ApplyAdvancedRule(link, rules[0], re) else link;
      var r := ApplyEnabledRules(next, rules[1..], re);
      AccumulatesTransitive(link, next, r);
      r
  }

  /**
   Running the rules in two parts: the second part runs on the first part's
   result, unless the first part disabled the link, in which case the second
   part never runs.
   */
  lemma {:induction false} ApplyRuleSetConcat(link: Link, xs: seq<Rule>, ys: seq<Rule>, re: Preg)
    requires !link.disabled
    ensures ApplyRuleSet(link, xs, re).disabled ==> ApplyRuleSet(link, xs + ys, re) == ApplyRuleSet(link, xs, re)
    ensures !ApplyRuleSet(link, xs, re).disabled ==>
              ApplyRuleSet(link, xs + ys, re) == ApplyRuleSet(ApplyRuleSet(link, xs, re), ys, re)
    decreases |xs|
  {
    if |xs| == 0 {
      assert xs + ys == ys;
    } else {
      assert (xs + ys)[0] == xs[0];
      assert (xs + ys)[1..] == xs[1..] + ys;
      if xs[0].enable {
        var next := ApplyAdvancedRule(link, xs[0], re);
        if !next.disabled {
          ApplyRuleSetConcat(next, xs[1..], ys, re);
        }
      } else {
        ApplyRuleSetConcat(link, xs[1..], ys, re);
      }
    }
  }

  /**
   Stopping early makes no difference unless the link ends up disabled: when
   the full pass over the enabled rules leaves the link enabled, the stopping
   loop computes the same link.
   */
  lemma {:induction false} StopOnlyMattersWhenDisabled(link: Link, rules: seq<Rule>, re: Preg)
    requires !ApplyEnabledRules(link, rules, re).disabled
    ensures ApplyRuleSet(link, rules, re) == ApplyEnabledRules(link, rules, re)
    decreases |rules|
  {
    if |rules| > 0 {
      var next := if rules[0].enable then ApplyAdvancedRule(link, rules[0], re) else link;
      assert !next.disabled by {
        assert Accumulates(next, ApplyEnabledRules(next, rules[1..], re));
      }
      StopOnlyMattersWhenDisabled(next, rules[1..], re);
    }
  }

  /** Both loops agree on whether the link ends up disabled. */
  lemma {:induction false} DisabledAgrees(link: Link, rules: seq<Rule>, re: Preg)
    ensures ApplyRuleSet(link, rules, re).disabled == ApplyEnabledRules(link, rules, re).disabled
    decreases |rules|
  {
    if |rules| > 0 {
      var next := if rules[0].enable then ApplyAdvancedRule(link, rules[0], re) else link;
      if next.disabled {
        assert Accumulates(next, ApplyEnabledRules(next, rules[1..], re));
        assert Accumulates(next, ApplyRuleSet(next, rules[1..], re));
      } else {
        DisabledAgrees(next, rules[1..], re);
      }
    }
  }

  // ---------------------------------------------------------------------------
  // Rendering
  // ---------------------------------------------------------------------------

  /**
   The rewritten anchor, attribute by attribute: an attribute is `None` when it
   is left out of the mark-up. `rel` and `class` are deduplicated token lists
   (joined with spaces in the mark-up); the other values are HTML-escaped.
   */
  datatype Anchor = Anchor(
    href: string,
    rel: seq<string>,
    target: Option<string>,
    classes: seq<string>,
    title: Option<string>,
    data: map<string, string>,
    text: string)

  /** The `data-*` attributes, each value escaped; every escaped value decodes back to the original. */
  function EscapeData(data: map<string, string>): (r: map<string, string>)
    ensures r.Keys == data.Keys
    ensures forall k :: k in r ==> MarkupFree(r[k]) && HtmlUnescape(r[k]) == data[k]
  {
    var r := map k | k in data :: HtmlEscape(data[k]);
    assert forall k :: k in r ==> HtmlUnescape(r[k]) == data[k] by {
      forall k | k in r
        ensures HtmlUnescape(r[k]) == data[k]
      {
        HtmlEscapeRoundTrip(data[k]);
      }
    }
    r
  }

  /**
   `buildFinalLink`: duplicates are dropped from rel and class (first occurrences
   kept, in order), empty (PHP-empty) target and title are left out, and every
   value written inside double quotes from the link's own strings is escaped, so
   it cannot end an attribute early, yet decodes back to the link's value. The
   link text is written as it is.
   */
  function BuildFinalLink(link: Link): (r: Anchor)
    ensures MarkupFree(r.href) && HtmlUnescape(r.href) == link.url
    ensures NoDuplicates(r.rel) && (forall t :: t in r.rel <==> t in link.attrs.rel)
    ensures InFirstOccurrenceOrder(r.rel, link.attrs.rel)
    ensures NoDuplicates(r.classes) && (forall t :: t in r.classes <==> t in link.attrs.classes)
    ensures InFirstOccurrenceOrder(r.classes, link.attrs.classes)
    ensures NoDuplicates(link.attrs.rel) ==> r.rel == link.attrs.rel
    ensures r.target.None? <==> PhpEmpty(link.attrs.target)
    ensures r.target.Some? ==> MarkupFree(r.target.value) && HtmlUnescape(r.target.value) == link.attrs.target
    ensures r.title.None? <==> PhpEmpty(link.attrs.title)
    ensures r.title.Some? ==> MarkupFree(r.title.value) && HtmlUnescape(r.title.value) == link.attrs.title
    ensures r.data.Keys == link.attrs.data.Keys
    ensures forall k :: k in r.data ==> MarkupFree(r.data[k]) && HtmlUnescape(r.data[k]) == link.attrs.data[k]
    ensures r.text == link.text
  {
    assert NoDuplicates(link.attrs.rel) ==> Dedup(link.attrs.rel) == link.attrs.rel by {
      if NoDuplicates(link.attrs.rel) { DedupOfDistinct(link.attrs.rel); }
    }
    DedupOrder(link.attrs.rel);
    DedupOrder(link.attrs.classes);
    HtmlEscapeRoundTrip(link.url);
    HtmlEscapeRoundTrip(link.attrs.target);
    HtmlEscapeRoundTrip(link.attrs.title);
    Anchor(
      HtmlEscape(link.url),
      Dedup(link.attrs.rel),
      if PhpEmpty(link.attrs.target) then None else Some(HtmlEscape(link.attrs.target)),
      Dedup(link.attrs.classes),
      if PhpEmpty(link.attrs.title) then None else Some(HtmlEscape(link.attrs.title)),
      EscapeData(link.attrs.data),
      link.text)
  }

  /** The redirect target: the configured address without trailing slashes, then `?url=` and the encoded link. */
  function RedirectUrl(redirect: string, url: string): string {
    RTrimSlash(redirect) + "?url=" + UrlEncode(url)
  }

  /**
   A redirect address without query or fragment carries the original link as its
   only query parameter, `url`, whatever characters the link contains.
   */
  lemma RedirectCarriesUrl(redirect: string, url: string)
    requires '?' !in redirect && '#' !in redirect
    ensures Urls.ParseQuery(Urls.QueryField(RedirectUrl(redirect, url))) == [Urls.Param("url", UrlEncode(url))]
  {
    var base := RTrimSlash(redirect);
    var enc := UrlEncode(url);
    var p := Urls.Param("url", enc);
    assert '#' !in enc && '&' !in enc by {
      assert !IsUrlEncodedChar('#') && !IsUrlEncodedChar('&');
    }
    assert '?' !in base && '#' !in base by {
      assert base == redirect[..|base|];
    }
    assert RedirectUrl(redirect, url) == base + "?" + Urls.RenderParam(p);
    Urls.SingleParamQuery(base, p);
  }

  /** What becomes of one anchor of the content: left as written, replaced by plain text, or rewritten. */
  datatype AnchorOutcome = Untouched | Suppressed(text: string) | Rendered(anchor: Anchor)

  /**
   The per-anchor callback of the content filter. Anchors without a host, or
   pointing at the site itself, are left as written. Otherwise the rules run on
   the link; a disabled link becomes its warning text (or its plain text), and
   any other link is rendered, through the redirect address when a rule asked for
   it and an address is configured.
   */
  function ProcessAnchor(href: string, text: string, host: Option<string>, siteHost: Option<string>,
                         page: PageContext, attrs: Attrs, redirect: string, rules: seq<Rule>, re: Preg): (r: AnchorOutcome)
    ensures (host.None? || PhpEmpty(host.value) || host == siteHost) <==> r == Untouched
    ensures r != Untouched ==>
              var out := ApplyRuleSet(Link(href, text, host.value, Some(page), false, false, None, attrs), rules, re);
              && (r.Suppressed? <==> out.disabled)
              && (r.Suppressed? ==> r.text == out.warningText.GetOr(out.text))
              && (r.Rendered? && (!out.useRedirect || PhpEmpty(redirect)) ==> r.anchor == BuildFinalLink(out))
              && (r.Rendered? && out.useRedirect && !PhpEmpty(redirect) ==>
                    r.anchor == BuildFinalLink(out.(url := RedirectUrl(redirect, out.url))))
  {
    if host.None? || PhpEmpty(host.value) || host == siteHost then Untouched
    else
      var link := Link(href, text, host.value, Some(page), false, false, None, attrs);
      var out := ApplyRuleSet(link, rules, re);
      if out.disabled then Suppressed(out.warningText.GetOr(out.text))
      else
        var url := if out.useRedirect && !PhpEmpty(redirect) then RedirectUrl(redirect, out.url) else out.url;
        Rendered(BuildFinalLink(out.(url := url)))
  }

  /** With no enabled rule an external anchor is rendered from its own attributes, unrewritten. */
  lemma NoRulesRendersAsIs(href: string, text: string, host: string, siteHost: Option<string>,
                           page: PageContext, attrs: Attrs, redirect: string, rules: seq<Rule>, re: Preg)
    requires !PhpEmpty(host) && Some(host) != siteHost
    requires forall i :: 0 <= i < |rules| ==> !rules[i].enable
    ensures ProcessAnchor(href, text, Some(host), siteHost, page, attrs, redirect, rules, re)
            == Rendered(BuildFinalLink(Link(href, text, host, Some(page), false, false, None, attrs)))
  {
  }

  // ---------------------------------------------------------------------------
  // Rule preview
  // ---------------------------------------------------------------------------

  /** The page context the preview assumes when none is given. */
  const DefaultPageContext: PageContext := PageContext("/", "", "unknown", false, "")

  /** The default context gives every page field the value a link without context falls back to. */
  lemma DefaultContextMatchesFallbacks(link: Link)
    ensures PagePathOf(link.(page := Some(DefaultPageContext))) == PagePathOf(link.(page := None))
    ensures PageTypeOf(link.(page := Some(DefaultPageContext))) == PageTypeOf(link.(page := None))
    ensures PageNameOf(link.(page := Some(DefaultPageContext))) == PageNameOf(link.(page := None))
    ensures IsSpecialPageOf(link.(page := Some(DefaultPageContext))) == IsSpecialPageOf(link.(page := None))
  {
  }

  /** The link the preview tests every rule on. */
  function PreviewLink(url: string, host: string, page: Option<PageContext>): Link {
    Link(url, "", host, Some(page.GetOr(DefaultPageContext)), false, false, None, EmptyAttrs)
  }

  /** Whether an enabled rule changes the preview link. */
  predicate ChangesLink(base: Link, rule: Rule, re: Preg) {
    rule.enable && ApplyAdvancedRule(base, rule, re) != base
  }

  /** For each rule, whether it changes `base` when applied to it alone. */
  function ChangeFlags(base: Link, rules: seq<Rule>, re: Preg): (r: seq<bool>)
    ensures |r| == |rules|
    ensures forall i :: 0 <= i < |rules| ==> r[i] == ChangesLink(base, rules[i], re)
  {
    seq(|rules|, i requires 0 <= i < |rules| => ChangesLink(base, rules[i], re))
  }

  function Names(rules: seq<Rule>): (r: seq<string>)
    ensures |r| == |rules|
    ensures forall i :: 0 <= i < |rules| ==> r[i] == rules[i].name
  {
    seq(|rules|, i requires 0 <= i < |rules| => rules[i].name)
  }

  /** The names whose flag is set, in order. */
  function Selected(names: seq<string>, flags: seq<bool>): (r: seq<string>)
    requires |names| == |flags|
    ensures |r| <= |names|
    decreases |names|
  {
    if |names| == 0 then []
    else
      var rest := Selected(names[1..], flags[1..]);
      if flags[0] then [names[0]] + rest else rest
  }

  /** A name is selected exactly when it stands at a flagged position. */
  lemma {:induction false} SelectedMembers(names: seq<string>, flags: seq<bool>, n: string)
    requires |names| == |flags|
    ensures n in Selected(names, flags) <==> exists i :: 0 <= i < |names| && names[i] == n && flags[i]
    decreases |names|
  {
    if |names| > 0 {
      SelectedMembers(names[1..], flags[1..], n);
      if exists i :: 1 <= i < |names| && names[i] == n && flags[i] {
        var i :| 1 <= i < |names| && names[i] == n && flags[i];
        assert names[1..][i - 1] == n && flags[1..][i - 1];
      }
    }
  }

  lemma {:induction false} SelectedConcat(xs: seq<string>, fx: seq<bool>, ys: seq<string>, fy: seq<bool>)
    requires |xs| == |fx| && |ys| == |fy|
    ensures Selected(xs + ys, fx + fy) == Selected(xs, fx) + Selected(ys, fy)
    decreases |xs|
  {
    if |xs| == 0 {
      assert xs + ys == ys && fx + fy == fy;
    } else {
      assert (xs + ys)[1..] == xs[1..] + ys && (fx + fy)[1..] == fx[1..] + fy;
      SelectedConcat(xs[1..], fx[1..], ys, fy);
    }
  }

  /**
   `checkLinkRules`: every enabled rule is applied on its own to the same fresh
   link, and the names of those that change it are listed in rule order.
   */
  function CheckLinkRules(url: string, host: string, page: Option<PageContext>, rules: seq<Rule>, re: Preg): (r: seq<string>)
    ensures |r| <= |rules|
    ensures forall n :: n in r <==>
              exists i :: 0 <= i < |rules| && rules[i].name == n && ChangesLink(PreviewLink(url, host, page), rules[i], re)
  {
    var base := PreviewLink(url, host, page);
    var names, flags := Names(rules), ChangeFlags(base, rules, re);
    var r := Selected(names, flags);
    assert forall n :: n in r <==> exists i :: 0 <= i < |rules| && rules[i].name == n && ChangesLink(base, rules[i], re) by {
      forall n
        ensures n in r <==> exists i :: 0 <= i < |rules| && rules[i].name == n && ChangesLink(base, rules[i], re)
      {
        SelectedMembers(names, flags, n);
      }
    }
    r
  }

  /**
   Rules do not influence each other in the preview: the names reported for a
   rule list are those for its first part followed by those for the rest.
   */
  lemma CheckLinkRulesConcat(url: string, host: string, page: Option<PageContext>, xs: seq<Rule>, ys: seq<Rule>, re: Preg)
    ensures CheckLinkRules(url, host, page, xs + ys, re)
            == CheckLinkRules(url, host, page, xs, re) + CheckLinkRules(url, host, page, ys, re)
  {
    var base := PreviewLink(url, host, page);
    assert Names(xs + ys) == Names(xs) + Names(ys);
    assert ChangeFlags(base, xs + ys, re) == ChangeFlags(base, xs, re) + ChangeFlags(base, ys, re) by {
      var whole, a, b := ChangeFlags(base, xs + ys, re), ChangeFlags(base, xs, re), ChangeFlags(base, ys, re);
      forall i | 0 <= i < |xs + ys|
        ensures whole[i] == (a + b)[i]
      {
        if i < |xs| {
          assert (xs + ys)[i] == xs[i];
        } else {
          assert (xs + ys)[i] == ys[i - |xs|];
        }
      }
    }
    SelectedConcat(Names(xs), ChangeFlags(base, xs, re), Names(ys), ChangeFlags(base, ys, re));
  }

  /** A rule that is switched off is never reported. */
  lemma DisabledRuleNotReported(url: string, host: string, page: Option<PageContext>, rule: Rule, re: Preg)
    requires !rule.enable
    ensures CheckLinkRules(url, host, page, [rule], re) == []
  {
  }
}
