/**
 The actions of a matched branch (`applyConditionActions` with its helpers
 `processSvgSuffix` and `processBlacklist`). Actions run in list order, each on
 the link the previous one produced.
 */
module Actions {
  import opened Wrappers
  import opened PhpStrings
  import opened LinkModel
  import Urls

  /** Appends each of `vs`, in order, that is not already present (`in_array` before `[] =`). */
  function AppendMissing(xs: seq<string>, vs: seq<string>): (r: seq<string>)
    ensures xs <= r
    ensures forall v :: v in vs ==> v in r
    ensures forall x :: x in r ==> x in xs || x in vs
    ensures NoDuplicates(xs) ==> NoDuplicates(r)
    ensures (forall v :: v in vs ==> v in xs) ==> r == xs
    decreases |vs|
  {
    if |vs| == 0 then xs
    else
      var next := if vs[0] in xs then xs else xs + [vs[0]];
      var r := AppendMissing(next, vs[1..]);
      assert vs[0] in next && next <= r;
      assert forall v :: v in vs ==> v == vs[0] || v in vs[1..];
      r
  }

  /** One step of `AppendMissing`: the first value is looked at, then the rest. */
  lemma AppendMissingStep(xs: seq<string>, vs: seq<string>)
    requires |vs| > 0
    ensures var next := if vs[0] in xs then xs else xs + [vs[0]];
      && AppendMissing(xs, vs) == AppendMissing(next, vs[1..])
      && |xs| <= |next| <= |AppendMissing(xs, vs)|
      && (vs[0] !in xs ==> AppendMissing(xs, vs)[|xs|..] == [vs[0]] + AppendMissing(xs, vs)[|next|..])
  {
    var next := if vs[0] in xs then xs else xs + [vs[0]];
    var r := AppendMissing(next, vs[1..]);
    assert AppendMissing(xs, vs) == r;
    if vs[0] !in xs {
      SliceAfterPrefix(xs, vs[0], r);
    }
  }

  /** A list that starts with `xs + [v]` continues after `xs` with `v` and then the rest. */
  lemma SliceAfterPrefix(xs: seq<string>, v: string, r: seq<string>)
    requires xs + [v] <= r
    ensures r[|xs|..] == [v] + r[|xs| + 1..]
  {
    var a, b := r[|xs|..], [v] + r[|xs| + 1..];
    assert r[|xs|] == (xs + [v])[|xs|] == v;
    forall k | 0 <= k < |a|
      ensures a[k] == b[k]
    {
      if k > 0 { assert b[k] == r[|xs| + 1..][k - 1] == r[|xs| + k]; }
    }
  }

  /** The values `AppendMissing` appends are exactly those of `vs` missing from `xs`. */
  lemma {:induction false} AppendMissingValues(xs: seq<string>, vs: seq<string>)
    ensures var r := AppendMissing(xs, vs);
      forall x :: x in r[|xs|..] <==> x in vs && x !in xs
    decreases |vs|
  {
    if |vs| > 0 {
      var next := if vs[0] in xs then xs else xs + [vs[0]];
      AppendMissingStep(xs, vs);
      AppendMissingValues(next, vs[1..]);
      assert forall x :: x in vs <==> x == vs[0] || x in vs[1..];
    }
  }

  /** `AppendMissing` appends each value once. */
  lemma {:induction false} AppendMissingOnce(xs: seq<string>, vs: seq<string>)
    ensures NoDuplicates(AppendMissing(xs, vs)[|xs|..])
    decreases |vs|
  {
    if |vs| > 0 {
      var next := if vs[0] in xs then xs else xs + [vs[0]];
      AppendMissingStep(xs, vs);
      AppendMissingOnce(next, vs[1..]);
      if vs[0] !in xs {
        var tail := AppendMissing(next, vs[1..])[|next|..];
        assert vs[0] !in tail by {
          AppendMissingValues(next, vs[1..]);
          assert vs[0] in next;
        }
        NoDuplicatesCons(vs[0], tail);
      }
    }
  }

  /** `AppendMissing` appends the values in the order of their first occurrence in `vs`. */
  lemma {:induction false} AppendMissingOrder(xs: seq<string>, vs: seq<string>)
    ensures InFirstOccurrenceOrder(AppendMissing(xs, vs)[|xs|..], vs)
    decreases |vs|
  {
    if |vs| > 0 {
      var v, rest := vs[0], vs[1..];
      var next := if v in xs then xs else xs + [v];
      AppendMissingStep(xs, vs);
      AppendMissingOrder(next, rest);
      AppendMissingValues(next, rest);
      var tail := AppendMissing(next, rest)[|next|..];
      assert forall x :: x in tail ==> x in rest && x != v;
      FirstOccurrenceOrderCons(vs, tail);
    }
  }

  /**
   What `AppendMissing` appends: every value of `vs` missing from `xs`, once,
   in the order in which the values first occur in `vs`.
   */
  lemma AppendMissingAppends(xs: seq<string>, vs: seq<string>)
    ensures var r := AppendMissing(xs, vs);
      && (forall x :: x in r[|xs|..] <==> x in vs && x !in xs)
      && NoDuplicates(r[|xs|..])
      && InFirstOccurrenceOrder(r[|xs|..], vs)
  {
    AppendMissingValues(xs, vs);
    AppendMissingOnce(xs, vs);
    AppendMissingOrder(xs, vs);
  }

  /** What no action undoes: rel and class tokens only accumulate, a disabled link stays disabled. */
  predicate Accumulates(before: Link, after: Link) {
    && before.attrs.rel <= after.attrs.rel
    && before.attrs.classes <= after.attrs.classes
    && (before.disabled ==> after.disabled)
    && (before.useRedirect ==> after.useRedirect)
    && after.host == before.host
    && after.page == before.page
  }

  lemma AccumulatesTransitive(a: Link, b: Link, c: Link)
    requires Accumulates(a, b) && Accumulates(b, c)
    ensures Accumulates(a, c)
  {
  }

  /** The warning shown in place of a link blacklisted in `warning` mode without its own text. */
  const DefaultWarningText: string := "[外链已屏蔽]"

  /** How many times `x` occurs in `s`. */
  function Count(s: seq<string>, x: string): nat {
    multiset(s)[x]
  }

  /**
   `processBlacklist`: `disable` (the default) and `warning` disable the link and
   make sure `blacklisted` is a rel token; `warning` also records the text shown
   instead. Any other mode changes nothing.
   */
  function ProcessBlacklist(link: Link, mode: Option<string>, warningText: Option<string>): (r: Link)
    ensures mode.GetOr("disable") in ["disable", "warning"] ==>
              && r.disabled
              && "blacklisted" in r.attrs.rel
              && (Count(link.attrs.rel, "blacklisted") <= 1 ==> Count(r.attrs.rel, "blacklisted") == 1)
              && r.attrs.rel == AppendMissing(link.attrs.rel, ["blacklisted"])
    ensures mode.GetOr("disable") == "warning" ==> r.warningText == Some(warningText.GetOr(DefaultWarningText))
    ensures mode.GetOr("disable") == "disable" ==> r.warningText == link.warningText
    ensures mode.GetOr("disable") !in ["disable", "warning"] ==> r == link
    ensures r == link.(disabled := r.disabled, warningText := r.warningText, attrs := link.attrs.(rel := r.attrs.rel))
    ensures Accumulates(link, r)
  {
    var m := mode.GetOr("disable");
    var rel := link.attrs.rel;
    var rel' := if "blacklisted" in rel then rel else rel + ["blacklisted"];
    assert rel' == AppendMissing(rel, ["blacklisted"]);
    assert Count(rel, "blacklisted") == 0 ==> Count(rel', "blacklisted") == 1;
    if m == "disable" then
      link.(disabled := true, attrs := link.attrs.(rel := rel'))
    else if m == "warning" then
      link.(warningText := Some(warningText.GetOr(DefaultWarningText)), disabled := true,
            attrs := link.attrs.(rel := rel'))
    else link
  }

  /** The opening tag of the suffix badge. */
  const SuffixOpen: string := " <span class=\"svg-suffix\" style=\"font-size:0.8em;color:#6b7280;\">"

  /** The opening tag of the code badge. */
  const CodeOpen: string :=
    " <code class=\"svg-base64\" style=\"font-size:0.7em;background:#f3f4f6;padding:2px 4px;border-radius:3px;color:#374151;\">"

  /**
   The mark-up appended to the link text by `svg_suffix`: the suffix badge with
   the escaped suffix text, then, only for a non-empty code, the code badge with
   the escaped code.
   */
  function SvgBadges(suffixText: string, base64Code: string): (r: string)
    ensures var suffix := SuffixOpen + HtmlEscape(suffixText) + "</span>";
      && suffix <= r
      && (PhpEmpty(base64Code) ==> r == suffix)
      && (!PhpEmpty(base64Code) ==> r[|suffix|..] == CodeOpen + HtmlEscape(base64Code) + "</code>")
  {
    var suffix := SuffixOpen + HtmlEscape(suffixText) + "</span>";
    suffix + if PhpEmpty(base64Code) then "" else CodeOpen + HtmlEscape(base64Code) + "</code>"
  }

  /**
   The suffix text appears in the badges only escaped, right after the suffix
   badge's opening tag; it cannot close the element or open a tag, and it decodes
   back to the suffix text. An empty code adds nothing after the suffix badge.
   */
  lemma SvgBadgesDecode(suffixText: string, base64Code: string)
    ensures var r := SvgBadges(suffixText, base64Code);
      r[..|SuffixOpen|] == SuffixOpen && EscapedAt(r, |SuffixOpen|, suffixText)
    ensures PhpEmpty(base64Code) ==>
              |SvgBadges(suffixText, base64Code)| == |SuffixOpen + HtmlEscape(suffixText) + "</span>"|
  {
    var r := SvgBadges(suffixText, base64Code);
    var tail := if PhpEmpty(base64Code) then "" else CodeOpen + HtmlEscape(base64Code) + "</code>";
    assert r == SuffixOpen + HtmlEscape(suffixText) + "</span>" + tail;
    EscapedSlice(r, SuffixOpen, suffixText, "</span>", tail, |SuffixOpen|);
  }

  /** Where the code starts in the badges: after the whole suffix badge and the code badge's opening tag. */
  function CodeOffset(suffixText: string): (c: nat)
    ensures c == |SuffixOpen| + |HtmlEscape(suffixText)| + |"</span>"| + |CodeOpen|
  {
    |SuffixOpen + HtmlEscape(suffixText) + "</span>" + CodeOpen|
  }

  /**
   A code other than empty or `"0"` appears in the badges only escaped, right
   after the code badge's opening tag; it cannot close the element or open a tag,
   and it decodes back to the code.
   */
  lemma SvgCodeDecode(suffixText: string, base64Code: string)
    requires !PhpEmpty(base64Code)
    ensures var r, c := SvgBadges(suffixText, base64Code), CodeOffset(suffixText);
      r[..c] == SuffixOpen + HtmlEscape(suffixText) + "</span>" + CodeOpen && EscapedAt(r, c, base64Code)
  {
    var r := SvgBadges(suffixText, base64Code);
    var suffix := SuffixOpen + HtmlEscape(suffixText) + "</span>";
    assert r == suffix + (CodeOpen + HtmlEscape(base64Code) + "</code>");
    EscapedSliceAfter(r, suffix, CodeOpen, base64Code, "</code>", CodeOffset(suffixText));
  }

  /**
   The field `s` appears escaped in `r` from offset `c` on: that slice holds no
   quote, `<` or `>`, so it can neither close an attribute or element nor open a
   tag, and it decodes back to `s`.
   */
  predicate EscapedAt(r: string, c: nat, s: string) {
    && c + |HtmlEscape(s)| <= |r|
    && MarkupFree(r[c..c + |HtmlEscape(s)|])
    && HtmlUnescape(r[c..c + |HtmlEscape(s)|]) == s
  }

  /** The same for an escaped field that follows a leading part and an opening text. */
  lemma EscapedSliceAfter(r: string, pre: string, open: string, s: string, close: string, c: nat)
    requires r == pre + (open + HtmlEscape(s) + close)
    requires c == |pre| + |open|
    ensures r[..c] == pre + open
    ensures EscapedAt(r, c, s)
  {
    assert r == pre + open + HtmlEscape(s) + close + [] by {
      AppendAssoc(pre, open + HtmlEscape(s), close);
      AppendAssoc(pre, open, HtmlEscape(s));
      var whole := pre + open + HtmlEscape(s) + close;
      assert whole + [] == whole;
    }
    EscapedSlice(r, pre + open, s, close, [], c);
  }

  /** An escaped field placed after an opening text sits at a known slice, cannot break out of it, and decodes back. */
  lemma EscapedSlice(r: string, open: string, s: string, close: string, rest: string, c: nat)
    requires r == open + HtmlEscape(s) + close + rest
    requires c == |open|
    ensures r[..c] == open
    ensures EscapedAt(r, c, s)
  {
    assert r[..c] == open && r[c..c + |HtmlEscape(s)|] == HtmlEscape(s) by {
      SliceOfConcat(open, HtmlEscape(s), close, rest);
    }
    EscapedDecodes(r[c..c + |HtmlEscape(s)|], s);
  }

  /** Any text equal to the escaped field is mark-up free and decodes back to the field. */
  lemma EscapedDecodes(x: string, s: string)
    requires x == HtmlEscape(s)
    ensures MarkupFree(x) && HtmlUnescape(x) == s
  {
    HtmlEscapeRoundTrip(s);
  }

  lemma AppendAssoc<T>(a: seq<T>, b: seq<T>, c: seq<T>)
    ensures a + (b + c) == a + b + c
  {
  }

  /** The first two parts of a four-part concatenation, recovered by slicing. */
  lemma SliceOfConcat<T>(a: seq<T>, b: seq<T>, c: seq<T>, d: seq<T>)
    ensures (a + b + c + d)[..|a|] == a
    ensures (a + b + c + d)[|a|..|a| + |b|] == b
  {
    var r := a + b + c + d;
    assert r[..|a|] == a;
    assert r[|a|..|a| + |b|] == b;
  }

  /**
   `processSvgSuffix`: for a URL containing `.svg` (any case), badges are appended
   to the text (suffix `[SVG]` and no code by default) and `svg-link` is made a
   class; nothing else changes, and any other link is left as it is.
   */
  function ProcessSvgSuffix(link: Link, suffixText: Option<string>, base64Code: Option<string>): (r: Link)
    ensures !ContainsCi(link.url, ".svg") ==> r == link
    ensures ContainsCi(link.url, ".svg") ==>
              && link.text <= r.text
              && r.text[|link.text|..] == SvgBadges(suffixText.GetOr("[SVG]"), base64Code.GetOr(""))
              && "svg-link" in r.attrs.classes
              && r.attrs.classes == AppendMissing(link.attrs.classes, ["svg-link"])
              && r == link.(text := r.text, attrs := link.attrs.(classes := r.attrs.classes))
    ensures Accumulates(link, r)
  {
    if ContainsCi(link.url, ".svg") then
      var text := link.text + SvgBadges(suffixText.GetOr("[SVG]"), base64Code.GetOr(""));
      assert text[|link.text|..] == SvgBadges(suffixText.GetOr("[SVG]"), base64Code.GetOr(""));
      link.(text := text, attrs := link.attrs.(classes := AppendMissing(link.attrs.classes, ["svg-link"])))
    else link
  }

  /**
   `preg_replace('/^http:/i', 'https:', $url)`: a leading `http:` in any case
   becomes `https:` and the rest of the URL is kept character for character; a
   URL that does not start so is returned as it is.
   */
  function UpgradeScheme(url: string): (r: string)
    ensures !(Lower("http:") <= Lower(url)) ==> r == url
    ensures Lower("http:") <= Lower(url) ==>
              && |r| == |url| + 1
              && "https:" <= r
              && r[6..] == url[5..]
  {
    if Lower("http:") <= Lower(url) then "https:" + url[5..] else url
  }

  /** `stripos($url, 'http://') === 0`. */
  predicate StartsWithHttp(url: string) {
    IndexOfCi(url, "http://") == Some(0)
  }

  lemma StartsWithHttpIsPrefix(url: string)
    ensures StartsWithHttp(url) <==> Lower("http://") <= Lower(url)
  {
    IndexOfZeroIsPrefix(Lower(url), Lower("http://"));
  }

  /** One action of a branch applied to the link. Actions whose switch or payload is empty do nothing. */
  function ApplyAction(link: Link, a: Action): (r: Link)
    ensures Accumulates(link, r)
    ensures a.UnknownAction? ==> r == link
    ensures r.host == link.host && r.page == link.page
  {
    match a
    case AddRel(values) =>
      if |values| > 0 then link.(attrs := link.attrs.(rel := AppendMissing(link.attrs.rel, values))) else link
    case AddUtm(enabled, data) =>
      var pairs := Urls.UtmPairs(data);
      if enabled && |data| > 0 && |pairs| > 0 then link.(url := Urls.AppendParam(link.url, Urls.Join(pairs, '&')))
      else link
    case TargetBlank(enabled) =>
      if enabled then link.(attrs := link.attrs.(target := "_blank")) else link
    case ForceHttps(enabled) =>
      StartsWithHttpIsPrefix(link.url);
      if enabled && StartsWithHttp(link.url) then link.(url := UpgradeScheme(link.url)) else link
    case AddClass(value) =>
      if !PhpEmpty(value) then link.(attrs := link.attrs.(classes := link.attrs.classes + [value])) else link
    case AddTitle(value) =>
      if !PhpEmpty(value) then link.(attrs := link.attrs.(title := value)) else link
    case AddReferer(enabled, value) =>
      if enabled && !PhpEmpty(value) then
        link.(attrs := link.attrs.(data := link.attrs.data["data-referer" := value],
                                   classes := AppendMissing(link.attrs.classes, ["js-referer"])))
      else link
    case SvgSuffix(enabled, suffixText, base64Code) =>
      if enabled then ProcessSvgSuffix(link, suffixText, base64Code) else link
    case AddToBlacklist(enabled, mode, warningText) =>
      if enabled then ProcessBlacklist(link, mode, warningText) else link
    case RemoveUtm(enabled) =>
      if enabled then link.(url := Urls.RemoveUtmParams(link.url)) else link
    case RemoveTracking(enabled) =>
      if enabled then link.(url := Urls.RemoveTrackingParams(link.url)) else link
    case RemoveParams(enabled, params) =>
      if enabled && |params| > 0 then link.(url := Urls.RemoveParams(link.url, params)) else link
    case AddCustomParams(enabled, params) =>
      if enabled && |params| > 0 then link.(url := Urls.AddCustomParams(link.url, params)) else link
    case EnableRedirect(enabled) =>
      if enabled then link.(useRedirect := true) else link
    case UnknownAction(_) => link
  }

  /** `applyConditionActions`: the actions in list order, each seeing the previous ones' changes. */
  function ApplyActions(link: Link, actions: seq<Action>): (r: Link)
    ensures Accumulates(link, r)
    ensures |actions| == 0 ==> r == link
    decreases |actions|
  {
    if |actions| == 0 then link
    else
      var next := ApplyAction(link, actions[0]);
      var r := ApplyActions(next, actions[1..]);
      AccumulatesTransitive(link, next, r);
      r
  }

  /** Running a list of actions is running its first part, then its second. */
  lemma {:induction false} ApplyActionsConcat(link: Link, xs: seq<Action>, ys: seq<Action>)
    ensures ApplyActions(link, xs + ys) == ApplyActions(ApplyActions(link, xs), ys)
    decreases |xs|
  {
    if |xs| == 0 {
      assert xs + ys == ys;
    } else {
      assert (xs + ys)[1..] == xs[1..] + ys;
      ApplyActionsConcat(ApplyAction(link, xs[0]), xs[1..], ys);
    }
  }

  // ---------------------------------------------------------------------------
  // Properties of individual actions
  // ---------------------------------------------------------------------------

  /**
   `add_rel` appends exactly the missing tokens: the old tokens stay first, every
   requested token is present afterwards, nothing else is added, and applying the
   action again changes nothing.
   */
  lemma AddRelSemantics(link: Link, values: seq<string>)
    requires |values| > 0
    ensures var r := ApplyAction(link, AddRel(values));
      && link.attrs.rel <= r.attrs.rel
      && (forall v :: v in values ==> v in r.attrs.rel)
      && (forall x :: x in r.attrs.rel ==> x in link.attrs.rel || x in values)
      && (NoDuplicates(link.attrs.rel) ==> NoDuplicates(r.attrs.rel))
      && ApplyAction(r, AddRel(values)) == r
    ensures var r, n := ApplyAction(link, AddRel(values)), |link.attrs.rel|;
      && r == link.(attrs := link.attrs.(rel := r.attrs.rel))
      && (forall x :: x in r.attrs.rel[n..] <==> x in values && x !in link.attrs.rel)
      && NoDuplicates(r.attrs.rel[n..])
      && InFirstOccurrenceOrder(r.attrs.rel[n..], values)
  {
    var r := ApplyAction(link, AddRel(values));
    assert r.attrs.rel == AppendMissing(link.attrs.rel, values);
    AppendMissingAppends(link.attrs.rel, values);
  }

  /** `target_blank` sets the target and touches nothing else (in particular, no rel token is added). */
  lemma TargetBlankOnlyTarget(link: Link)
    ensures var r := ApplyAction(link, TargetBlank(true));
      && r.attrs.target == "_blank"
      && r.(attrs := r.attrs.(target := link.attrs.target)) == link
  {
  }

  /**
   `force_https` rewrites only a URL starting with `http://` (any case), to
   `https:` followed by the rest of the URL; a second application changes nothing.
   */
  lemma ForceHttpsSemantics(link: Link)
    ensures var r := ApplyAction(link, ForceHttps(true));
      && (!(Lower("http://") <= Lower(link.url)) ==> r == link)
      && (Lower("http://") <= Lower(link.url) ==>
            && r.url == "https:" + link.url[5..]
            && r == link.(url := r.url))
      && ApplyAction(r, ForceHttps(true)) == r
  {
    StartsWithHttpIsPrefix(link.url);
    var r := ApplyAction(link, ForceHttps(true));
    StartsWithHttpIsPrefix(r.url);
    if Lower("http://") <= Lower(link.url) {
      assert Lower(r.url)[4] == 's';
      assert Lower("http://")[4] == ':';
    }
  }

  /** Both blacklist modes disable the link; `warning` without a text shows the default notice. */
  lemma BlacklistWarningDefault(link: Link)
    ensures var r := ApplyAction(link, AddToBlacklist(true, Some("warning"), None));
      r.disabled && r.warningText == Some(DefaultWarningText) && "blacklisted" in r.attrs.rel
  {
  }

  /**
   `add_class` appends the class as given, even when it is already there
   (duplicates are dropped only when the anchor is rendered), and changes
   nothing else; an empty class does nothing.
   */
  lemma AddClassSemantics(link: Link, value: string)
    ensures var r := ApplyAction(link, AddClass(value));
      && (PhpEmpty(value) ==> r == link)
      && (!PhpEmpty(value) ==> r.attrs.classes == link.attrs.classes + [value] && |r.attrs.classes| == |link.attrs.classes| + 1)
      && r.(attrs := r.attrs.(classes := link.attrs.classes)) == link
  {
  }

  /** `add_title` replaces the title and changes nothing else; an empty title does nothing. */
  lemma AddTitleSemantics(link: Link, value: string)
    ensures var r := ApplyAction(link, AddTitle(value));
      && r.attrs.title == (if PhpEmpty(value) then link.attrs.title else value)
      && r.(attrs := r.attrs.(title := link.attrs.title)) == link
  {
  }

  /**
   `add_referer` stores the value under `data-referer`, keeps every other data
   attribute, makes `js-referer` a class once, and changes nothing else.
   */
  lemma AddRefererSemantics(link: Link, value: string)
    requires !PhpEmpty(value)
    ensures var r := ApplyAction(link, AddReferer(true, value));
      && "data-referer" in r.attrs.data && r.attrs.data["data-referer"] == value
      && r.attrs.data.Keys == link.attrs.data.Keys + {"data-referer"}
      && (forall k :: k in link.attrs.data && k != "data-referer" ==> r.attrs.data[k] == link.attrs.data[k])
      && r.attrs.classes == AppendMissing(link.attrs.classes, ["js-referer"])
      && "js-referer" in r.attrs.classes
      && r.(attrs := r.attrs.(data := link.attrs.data, classes := link.attrs.classes)) == link
  {
  }

  /** A disabled or empty `add_referer` does nothing. */
  lemma AddRefererOff(link: Link, enabled: bool, value: string)
    requires !enabled || PhpEmpty(value)
    ensures ApplyAction(link, AddReferer(enabled, value)) == link
  {
  }

  /** `enable_redirect` only marks the link for the redirect address. */
  lemma EnableRedirectSemantics(link: Link)
    ensures var r := ApplyAction(link, EnableRedirect(true));
      r.useRedirect && r.(useRedirect := link.useRedirect) == link
  {
  }

  /** The actions that rewrite the URL change nothing but the URL. */
  lemma UrlActionsOnlyUrl(link: Link, a: Action)
    requires a.AddUtm? || a.ForceHttps? || a.RemoveUtm? || a.RemoveTracking? || a.RemoveParams? || a.AddCustomParams?
    ensures ApplyAction(link, a) == link.(url := ApplyAction(link, a).url)
  {
  }

  /** `remove_params` drops the named keys from the query; an empty list does nothing. */
  lemma RemoveParamsUrl(link: Link, names: seq<string>)
    ensures |names| == 0 ==> ApplyAction(link, RemoveParams(true, names)) == link
    ensures |names| > 0 ==>
              ApplyAction(link, RemoveParams(true, names)).url == Urls.RemoveParams(link.url, names)
    ensures forall k :: k in names && Urls.ParseUrl(link.url).query.Some? ==>
              !Urls.HasKey(Urls.ParseQuery(Urls.QueryField(ApplyAction(link, RemoveParams(true, names)).url)), k)
  {
    var r := ApplyAction(link, RemoveParams(true, names));
    assert r == if |names| > 0 then link.(url := Urls.RemoveParams(link.url, names)) else link;
    forall k | k in names && Urls.ParseUrl(link.url).query.Some?
      ensures !Urls.HasKey(Urls.ParseQuery(Urls.QueryField(r.url)), k)
    {
      Urls.RemovedKeysAbsent(link.url, names, k);
    }
  }

  /**
   `add_utm` on a URL without fragment, with parameter names free of `&` and
   `#`: when some value is truthy, the query reads as the old pairs with the
   `utm_` pairs collected after them; otherwise the link is unchanged.
   */
  lemma AddUtmParsed(link: Link, data: seq<(string, string)>)
    requires '#' !in link.url
    requires forall i :: 0 <= i < |data| ==> '&' !in data[i].0 && '#' !in data[i].0
    ensures var r := ApplyAction(link, AddUtm(true, data));
      && (Urls.UtmPairs(data) == [] ==> r == link)
      && (Urls.UtmPairs(data) != [] ==>
            Urls.ParseQuery(Urls.QueryField(r.url))
            == Urls.Collect(Urls.ParseQuery(Urls.QueryField(link.url)), Urls.UtmPairs(data)))
  {
    var pairs := Urls.UtmPairs(data);
    AddUtmUrl(link, data);
    if pairs != [] {
      var url := Urls.AppendParam(link.url, Urls.Join(pairs, '&'));
      assert Urls.ParseQuery(Urls.QueryField(url)) == Urls.Collect(Urls.ParseQuery(Urls.QueryField(link.url)), pairs) by {
        Urls.UtmPairsSegments(data);
        Urls.AppendedSegmentsParsed(link.url, pairs);
      }
      assert ApplyAction(link, AddUtm(true, data)).url == url;
    }
  }

  /** `add_utm` appends the `&`-joined pairs to the URL when there are any, and changes nothing else. */
  lemma AddUtmUrl(link: Link, data: seq<(string, string)>)
    ensures ApplyAction(link, AddUtm(true, data))
            == if Urls.UtmPairs(data) == [] then link
               else link.(url := Urls.AppendParam(link.url, Urls.Join(Urls.UtmPairs(data), '&')))
  {
    assert Urls.UtmPairs(data) != [] ==> |data| > 0;
  }

  /** An unknown blacklist mode leaves the link untouched. */
  lemma BlacklistUnknownModeNoOp(link: Link, mode: string)
    requires mode != "disable" && mode != "warning"
    ensures ApplyAction(link, AddToBlacklist(true, Some(mode), None)) == link
  {
  }

  /** `svg_suffix` on a URL without `.svg` leaves text and classes unchanged. */
  lemma SvgSuffixNeedsSvgUrl(link: Link, suffixText: Option<string>, base64Code: Option<string>)
    requires !ContainsCi(link.url, ".svg")
    ensures ApplyAction(link, SvgSuffix(true, suffixText, base64Code)) == link
  {
  }

  /** A usable `utm_source` entry of `add_custom_params` sets `utm_source` to the encoded value in the query of a URL without fragment, keeping the other pairs. */
  lemma CustomUtmSourcePresent(url: string, value: string)
    requires '#' !in url
    requires !PhpEmpty(value)
    ensures var u := Urls.AddCustomParams(url, [Urls.CustomParam(Some("utm_source"), Some(value))]);
      && Urls.ParseUrl(u).query.Some?
      && Urls.ParseQuery(Urls.QueryField(u)) == Urls.Put(Urls.ParseQuery(Urls.QueryField(url)), Urls.Param("utm_source", UrlEncode(value)))
      && Urls.HasKey(Urls.ParseQuery(Urls.QueryField(u)), "utm_source")
  {
    assert forall i :: 0 <= i < |"utm_source"| ==> IsUnreserved("utm_source"[i]);
    Urls.SingleCustomParamParsed(url, "utm_source", value);
  }

  /**
   Parameter removal goes by name, not by which action added the parameter: a
   `utm_source` added by `add_custom_params` to a URL without fragment is present
   in the query, and `remove_utm` then removes it.
   */
  lemma CustomUtmThenRemoveUtm(link: Link, value: string)
    requires '#' !in link.url
    requires !PhpEmpty(value)
    ensures var added := ApplyAction(link, AddCustomParams(true, [Urls.CustomParam(Some("utm_source"), Some(value))]));
      && Urls.HasKey(Urls.ParseQuery(Urls.QueryField(added.url)), "utm_source")
      && !Urls.HasKey(Urls.ParseQuery(Urls.QueryField(ApplyAction(added, RemoveUtm(true)).url)), "utm_source")
  {
    var ps := [Urls.CustomParam(Some("utm_source"), Some(value))];
    var added := ApplyAction(link, AddCustomParams(true, ps));
    CustomParamsUrl(link, ps);
    CustomUtmSourcePresent(link.url, value);
    RemoveUtmUrl(added);
    assert Urls.RemoveUtmParams(added.url) == Urls.RemoveParams(added.url, Urls.UtmKeys);
    Urls.RemovedKeysAbsent(added.url, Urls.UtmKeys, "utm_source");
  }

  lemma CustomParamsUrl(link: Link, ps: seq<Urls.CustomParam>)
    requires |ps| > 0
    ensures ApplyAction(link, AddCustomParams(true, ps)).url == Urls.AddCustomParams(link.url, ps)
  {
  }

  lemma RemoveUtmUrl(link: Link)
    ensures ApplyAction(link, RemoveUtm(true)).url == Urls.RemoveUtmParams(link.url)
  {
    var r := ApplyAction(link, RemoveUtm(true));
    assert r == link.(url := Urls.RemoveParams(link.url, Urls.UtmKeys));
  }

  lemma RemoveTrackingUrl(link: Link)
    ensures ApplyAction(link, RemoveTracking(true)).url == Urls.RemoveTrackingParams(link.url)
  {
    var r := ApplyAction(link, RemoveTracking(true));
    assert r == link.(url := Urls.RemoveParams(link.url, Urls.TrackingKeys));
  }

  /** `remove_tracking` leaves none of the tracking keys in a URL that has a query, and changes nothing but the URL. */
  lemma RemoveTrackingDropsKeys(link: Link, k: string)
    requires k in Urls.TrackingKeys
    requires Urls.ParseUrl(link.url).query.Some?
    ensures var r := ApplyAction(link, RemoveTracking(true));
            && r == link.(url := Urls.RemoveParams(link.url, Urls.TrackingKeys))
            && !Urls.HasKey(Urls.ParseQuery(Urls.QueryField(r.url)), k)
  {
    RemoveTrackingUrl(link);
    UrlActionsOnlyUrl(link, RemoveTracking(true));
    Urls.RemovedKeysAbsent(link.url, Urls.TrackingKeys, k);
  }
}
