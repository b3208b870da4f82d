/**
 The pure part of the admin link monitor: the status a link gets from running
 the rules on it (`checkLinkByRules`), the keyword and tab filters over the
 scanned links, and the pagination arithmetic.
 */
module Monitor {
  import opened Wrappers
  import opened PhpStrings
  import opened LinkModel
  import opened Engine
  import Urls

  // ---------------------------------------------------------------------------
  // Rule status of one link
  // ---------------------------------------------------------------------------

  /** The link the monitor runs the rules on: no text, no page context, empty attributes. */
  function MonitorLink(url: string, host: string): Link {
    Link(url, "", host, None, false, false, None, EmptyAttrs)
  }

  /**
   Whether the monitor records rule `i`: the rule is enabled and its result
   differs from the link that the rules before it produced.
   */
  predicate RecordedAt(link: Link, rules: seq<Rule>, re: Preg, i: nat)
    requires i < |rules|
  {
    var before := ApplyEnabledRules(link, rules[..i], re);
    rules[i].enable && ApplyAdvancedRule(before, rules[i], re) != before
  }

  /** `RecordedAt` for every rule, by position. */
  function RecordedFlags(link: Link, rules: seq<Rule>, re: Preg): (r: seq<bool>)
    ensures |r| == |rules|
    ensures forall i :: 0 <= i < |rules| ==> r[i] == RecordedAt(link, rules, re, i)
  {
    seq(|rules|, i requires 0 <= i < |rules| => RecordedAt(link, rules, re, i))
  }

  /** The rules before position `i` run from `link` give what the rules between 1 and `i` give from the link the first rule produced. */
  lemma ApplyEnabledPrefix(link: Link, rules: seq<Rule>, re: Preg, i: nat)
    requires 1 <= i <= |rules|
    ensures var next := if rules[0].enable then ApplyAdvancedRule(link, rules[0], re) else link;
      ApplyEnabledRules(link, rules[..i], re) == ApplyEnabledRules(next, rules[1..][..i - 1], re)
  {
    assert rules[..i][1..] == rules[1..][..i - 1];
    assert rules[..i][0] == rules[0];
  }

  /** Rule `i` of a list is recorded exactly when rule `i - 1` of its tail is, starting from the link the first rule produced. */
  lemma RecordedAtTail(link: Link, rules: seq<Rule>, re: Preg, i: nat)
    requires 1 <= i < |rules|
    ensures var next := if rules[0].enable then ApplyAdvancedRule(link, rules[0], re) else link;
      RecordedAt(link, rules, re, i) == RecordedAt(next, rules[1..], re, i - 1)
  {
    ApplyEnabledPrefix(link, rules, re, i);
    assert rules[i] == rules[1..][i - 1];
  }

  /** The first rule is recorded exactly when it is enabled and changes the link it is given. */
  lemma RecordedFlagsHead(link: Link, rules: seq<Rule>, re: Preg)
    requires |rules| > 0
    ensures RecordedFlags(link, rules, re)[0]
            == (rules[0].enable && ApplyAdvancedRule(link, rules[0], re) != link)
  {
    assert rules[..0] == [];
  }

  /** The flags after the first are the flags of the rest, taken from the link the first rule produced. */
  lemma RecordedFlagsTail(link: Link, rules: seq<Rule>, re: Preg)
    requires |rules| > 0
    ensures var next := if rules[0].enable then ApplyAdvancedRule(link, rules[0], re) else link;
      RecordedFlags(link, rules, re)[1..] == RecordedFlags(next, rules[1..], re)
  {
    var next := if rules[0].enable then ApplyAdvancedRule(link, rules[0], re) else link;
    var flags, rest := RecordedFlags(link, rules, re), RecordedFlags(next, rules[1..], re);
    forall i | 1 <= i < |rules|
      ensures flags[i] == rest[i - 1]
    {
      RecordedAtTail(link, rules, re, i);
    }
  }

  /**
   The monitor's loop: every enabled rule runs on the current link, the link is
   replaced by the result, and the rule's name is recorded when the result
   differs. Unlike the content filter, a disabled link does not stop the loop.
   */
  function RunRules(link: Link, rules: seq<Rule>, re: Preg): (r: (seq<string>, Link))
    ensures r.1 == ApplyEnabledRules(link, rules, re)
    ensures |r.0| <= |rules|
    decreases |rules|
  {
    if |rules| == 0 then ([], link)
    else
      var next := if rules[0].enable then ApplyAdvancedRule(link, rules[0], re) else link;
      var (names, final) := RunRules(next, rules[1..], re);
      if rules[0].enable && next != link then ([rules[0].name] + names, final) else (names, final)
  }

  /** The names the loop records are those of the rules at the positions `RecordedAt` holds for, in rule order. */
  lemma {:induction false} RunRulesRecorded(link: Link, rules: seq<Rule>, re: Preg)
    ensures RunRules(link, rules, re).0 == Selected(Names(rules), RecordedFlags(link, rules, re))
    decreases |rules|
  {
    if |rules| > 0 {
      var next := if rules[0].enable then ApplyAdvancedRule(link, rules[0], re) else link;
      var flags := RecordedFlags(link, rules, re);
      RunRulesRecorded(next, rules[1..], re);
      RecordedFlagsHead(link, rules, re);
      RecordedFlagsTail(link, rules, re);
      assert flags == [flags[0]] + flags[1..];
      assert Names(rules)[1..] == Names(rules[1..]);
    }
  }

  /**
   The monitor's loop over two lists of rules: the names recorded are those the
   first list records, followed by those the second records when it runs on the
   first list's result.
   */
  lemma {:induction false} RunRulesConcat(link: Link, xs: seq<Rule>, ys: seq<Rule>, re: Preg)
    ensures RunRules(link, xs + ys, re).0
            == RunRules(link, xs, re).0 + RunRules(ApplyEnabledRules(link, xs, re), ys, re).0
    decreases |xs|
  {
    if |xs| == 0 {
      assert xs + ys == ys;
    } else {
      var next := if xs[0].enable then ApplyAdvancedRule(link, xs[0], re) else link;
      var head := if xs[0].enable && next != link then [xs[0].name] else [];
      calc {
        RunRules(link, xs + ys, re).0;
      == { assert (xs + ys)[0] == xs[0]; assert (xs + ys)[1..] == xs[1..] + ys; }
        head + RunRules(next, xs[1..] + ys, re).0;
      == { RunRulesConcat(next, xs[1..], ys, re); }
        head + (RunRules(next, xs[1..], re).0 + RunRules(ApplyEnabledRules(next, xs[1..], re), ys, re).0);
      == { assert ApplyEnabledRules(link, xs, re) == ApplyEnabledRules(next, xs[1..], re); }
        head + (RunRules(next, xs[1..], re).0 + RunRules(ApplyEnabledRules(link, xs, re), ys, re).0);
      ==
        (head + RunRules(next, xs[1..], re).0) + RunRules(ApplyEnabledRules(link, xs, re), ys, re).0;
      == { assert RunRules(link, xs, re).0 == head + RunRules(next, xs[1..], re).0; }
        RunRules(link, xs, re).0 + RunRules(ApplyEnabledRules(link, xs, re), ys, re).0;
      }
    }
  }

  /** The query keys that mark a link as sponsored. */
  const SponsorKeys: seq<string> := ["utm_source", "aff", "ref", "affiliate", "partner"]

  /** Whether the scanned URL (before any rule) has a non-empty query naming one of the sponsor keys. */
  predicate IsSponsored(url: string) {
    var q := Urls.QueryField(url);
    !PhpEmpty(q) && exists k :: k in SponsorKeys && Urls.HasKey(Urls.ParseQuery(q), k)
  }

  /** The status tokens, before duplicates are dropped: the rel tokens, then one token per flag that is set. */
  function RawStatus(rel: seq<string>, targetBlank: bool, disabled: bool, sponsored: bool): seq<string> {
    rel
    + (if targetBlank then ["target_blank"] else [])
    + (if disabled then ["blacklisted"] else [])
    + (if sponsored then ["sponsored"] else [])
  }

  /** The status tokens of a final link, each reported once. */
  function StatusTokens(final: Link, sponsored: bool): (r: seq<string>)
    ensures NoDuplicates(r)
    ensures forall t :: t in r <==>
      || t in final.attrs.rel
      || (t == "target_blank" && Lower(final.attrs.target) == "_blank")
      || (t == "blacklisted" && final.disabled)
      || (t == "sponsored" && sponsored)
  {
    Dedup(RawStatus(final.attrs.rel, Lower(final.attrs.target) == "_blank", final.disabled, sponsored))
  }

  /** What `checkLinkByRules` reports: the rules that changed the link and its status tokens. */
  datatype LinkCheck = LinkCheck(appliedRules: seq<string>, status: seq<string>)

  /**
   `checkLinkByRules`: the status holds every rel token of the final link,
   `target_blank` exactly when its target is `_blank` in any case, `blacklisted`
   exactly when it is disabled, `sponsored` exactly when the scanned URL carries
   a sponsor key, and nothing else, without duplicates.
   */
  function CheckLinkByRules(url: string, host: string, rules: seq<Rule>, re: Preg): (r: LinkCheck)
    ensures NoDuplicates(r.status)
    ensures var final := ApplyEnabledRules(MonitorLink(url, host), rules, re);
      forall t :: t in r.status <==>
        || t in final.attrs.rel
        || (t == "target_blank" && Lower(final.attrs.target) == "_blank")
        || (t == "blacklisted" && final.disabled)
        || (t == "sponsored" && IsSponsored(url))
    ensures r.appliedRules == Selected(Names(rules), RecordedFlags(MonitorLink(url, host), rules, re))
    ensures |r.appliedRules| <= |rules|
  {
    var (names, final) := RunRules(MonitorLink(url, host), rules, re);
    RunRulesRecorded(MonitorLink(url, host), rules, re);
    LinkCheck(names, StatusTokens(final, IsSponsored(url)))
  }

  /** A rule's name is reported exactly when the rule stands at a position the monitor records. */
  lemma AppliedRulesMembers(url: string, host: string, rules: seq<Rule>, re: Preg, n: string)
    ensures n in CheckLinkByRules(url, host, rules, re).appliedRules <==>
              exists i :: 0 <= i < |rules| && rules[i].name == n && RecordedAt(MonitorLink(url, host), rules, re, i)
  {
    var flags := RecordedFlags(MonitorLink(url, host), rules, re);
    SelectedMembers(Names(rules), flags, n);
    assert forall i :: 0 <= i < |rules| ==> (Names(rules)[i] == n && flags[i] <==>
              rules[i].name == n && RecordedAt(MonitorLink(url, host), rules, re, i));
  }

  /**
   When the content filter's rule loop starts from the monitor's link (no page
   context, no attributes of its own), a link that loop would suppress is reported
   `blacklisted`, and for any other link the rel tokens reported are those the
   loop renders, with `blacklisted` reported only when it is one of them.
   */
  lemma MonitorAgreesWithFilter(url: string, host: string, rules: seq<Rule>, re: Preg)
    ensures var filtered := ApplyRuleSet(MonitorLink(url, host), rules, re);
      var status := CheckLinkByRules(url, host, rules, re).status;
      && (filtered.disabled ==> "blacklisted" in status)
      && (!filtered.disabled ==> forall t :: t in filtered.attrs.rel ==> t in status)
      && (!filtered.disabled ==> ("blacklisted" in status <==> "blacklisted" in filtered.attrs.rel))
  {
    StatusOfFinalLink(url, host, rules, re);
    FilterSeesFinalLink(MonitorLink(url, host), rules, re);
  }

  lemma StatusOfFinalLink(url: string, host: string, rules: seq<Rule>, re: Preg)
    ensures var final := ApplyEnabledRules(MonitorLink(url, host), rules, re);
      var status := CheckLinkByRules(url, host, rules, re).status;
      && (forall t :: t in final.attrs.rel ==> t in status)
      && ("blacklisted" in status <==> "blacklisted" in final.attrs.rel || final.disabled)
  {
    var final := ApplyEnabledRules(MonitorLink(url, host), rules, re);
    var blank, sponsored := Lower(final.attrs.target) == "_blank", IsSponsored(url);
    assert CheckLinkByRules(url, host, rules, re).status == StatusTokens(final, sponsored);
    RawStatusBlacklisted(final.attrs.rel, blank, final.disabled, sponsored);
  }

  lemma RawStatusBlacklisted(rel: seq<string>, targetBlank: bool, disabled: bool, sponsored: bool)
    ensures forall t :: t in rel ==> t in Dedup(RawStatus(rel, targetBlank, disabled, sponsored))
    ensures "blacklisted" in Dedup(RawStatus(rel, targetBlank, disabled, sponsored)) <==> "blacklisted" in rel || disabled
  {
  }

  /** The stopping loop ends disabled exactly when the full pass does, and otherwise computes the same link. */
  lemma FilterSeesFinalLink(link: Link, rules: seq<Rule>, re: Preg)
    ensures var final := ApplyEnabledRules(link, rules, re);
      var filtered := ApplyRuleSet(link, rules, re);
      && (filtered.disabled <==> final.disabled)
      && (!final.disabled ==> filtered == final)
  {
    DisabledAgrees(link, rules, re);
    if !ApplyEnabledRules(link, rules, re).disabled {
      StopOnlyMattersWhenDisabled(link, rules, re);
    }
  }

  /** The sponsor keys are plain names: non-empty and free of query separators. */
  lemma SponsorKeysAtomic(k: string, v: string)
    requires k in SponsorKeys
    requires '&' !in v && '#' !in v
    ensures Urls.AtomicParam(Urls.Param(k, v))
  {
    if k == "utm_source" {
      assert forall i :: 0 <= i < |k| ==> IsUnreserved(k[i]);
    } else if k == "aff" {
      assert forall i :: 0 <= i < |k| ==> IsUnreserved(k[i]);
    } else if k == "ref" {
      assert forall i :: 0 <= i < |k| ==> IsUnreserved(k[i]);
    } else if k == "affiliate" {
      assert forall i :: 0 <= i < |k| ==> IsUnreserved(k[i]);
    } else {
      assert forall i :: 0 <= i < |k| ==> IsUnreserved(k[i]);
    }
    assert !IsUnreserved('&') && !IsUnreserved('=') && !IsUnreserved('#');
  }

  /**
   A URL whose query is a single sponsor key (with a value free of `&` and `#`)
   is marked sponsored, whatever the key's value is.
   */
  lemma SponsorKeyMarksSponsored(base: string, k: string, v: string)
    requires '?' !in base && '#' !in base
    requires k in SponsorKeys
    requires '&' !in v && '#' !in v
    ensures IsSponsored(base + "?" + k + "=" + v)
  {
    var p := Urls.Param(k, v);
    SponsorKeysAtomic(k, v);
    var q := Urls.RenderParam(p);
    assert base + "?" + k + "=" + v == base + "?" + q;
    Urls.SingleParamQuery(base, p);
    assert Urls.ParseQuery(q)[0].key == k;
    assert q != "" && q != "0" by { assert q[|k|] == '='; }
  }

  // ---------------------------------------------------------------------------
  // Filters
  // ---------------------------------------------------------------------------

  /** One scanned link as the monitor lists it. */
  datatype ScannedLink = ScannedLink(url: string, host: string, title: string, appliedRules: seq<string>, status: seq<string>)

  /** Per-domain statistics: the domain and the number of links to it. */
  datatype DomainStat = DomainStat(domain: string, count: nat)

  /**
   `array_filter` followed by `array_values`: the elements that pass, each as
   often as in the input, in their original order.
   */
  function Filter<T(!new)>(s: seq<T>, keep: T -> bool): (r: seq<T>)
    ensures |r| <= |s|
    ensures forall x :: x in r <==> x in s && keep(x)
    ensures IsSubsequence(r, s)
    ensures forall x :: multiset(r)[x] == if keep(x) then multiset(s)[x] else 0
    decreases |s|
  {
    if |s| == 0 then []
    else
      var rest := Filter(s[1..], keep);
      assert s == [s[0]] + s[1..];
      assert forall x :: x in s <==> x == s[0] || x in s[1..];
      if keep(s[0]) then
        var r := [s[0]] + rest;
        assert r[1..] == rest;
        r
      else rest
  }

  /** Whether a (trimmed, non-empty) keyword occurs in the link's url, post title or host, ignoring case. */
  predicate MatchesKeyword(l: ScannedLink, keyword: string) {
    ContainsCi(l.url, keyword) || ContainsCi(l.title, keyword) || ContainsCi(l.host, keyword)
  }

  /**
   The keyword search: the keyword is trimmed first, and a PHP-empty keyword
   (including `"0"`) filters nothing; otherwise a link is kept exactly when the
   keyword occurs in its url, title or host.
   */
  function KeywordFilter(links: seq<ScannedLink>, rawKeyword: string): (r: seq<ScannedLink>)
    ensures PhpEmpty(Trim(rawKeyword)) ==> r == links
    ensures !PhpEmpty(Trim(rawKeyword)) ==>
              forall l :: l in r <==> l in links && MatchesKeyword(l, Trim(rawKeyword))
    ensures IsSubsequence(r, links)
    ensures !PhpEmpty(Trim(rawKeyword)) ==>
              forall l :: multiset(r)[l] == if MatchesKeyword(l, Trim(rawKeyword)) then multiset(links)[l] else 0
  {
    var kw := Trim(rawKeyword);
    SubsequenceOfItself(links);
    if PhpEmpty(kw) then links else Filter(links, l => MatchesKeyword(l, kw))
  }

  /** The same search over the domain statistics, by domain name only. */
  function DomainKeywordFilter(domains: seq<DomainStat>, rawKeyword: string): (r: seq<DomainStat>)
    ensures PhpEmpty(Trim(rawKeyword)) ==> r == domains
    ensures !PhpEmpty(Trim(rawKeyword)) ==>
              forall d :: d in r <==> d in domains && ContainsCi(d.domain, Trim(rawKeyword))
    ensures IsSubsequence(r, domains)
    ensures !PhpEmpty(Trim(rawKeyword)) ==>
              forall d :: multiset(r)[d] == if ContainsCi(d.domain, Trim(rawKeyword)) then multiset(domains)[d] else 0
  {
    var kw := Trim(rawKeyword);
    SubsequenceOfItself(domains);
    if PhpEmpty(kw) then domains else Filter(domains, (d: DomainStat) => ContainsCi(d.domain, kw))
  }

  predicate InBlacklistTab(l: ScannedLink) {
    "blacklisted" in l.status
  }

  predicate InWhitelistTab(l: ScannedLink) {
    |l.status| == 0 || ("nofollow" !in l.status && "blacklisted" !in l.status)
  }

  predicate InSponsorTab(l: ScannedLink) {
    "sponsored" in l.status
  }

  function BlacklistTab(links: seq<ScannedLink>): (r: seq<ScannedLink>)
    ensures forall l :: l in r <==> l in links && "blacklisted" in l.status
    ensures IsSubsequence(r, links)
    ensures forall l :: multiset(r)[l] == if "blacklisted" in l.status then multiset(links)[l] else 0
  {
    Filter(links, InBlacklistTab)
  }

  function WhitelistTab(links: seq<ScannedLink>): (r: seq<ScannedLink>)
    ensures forall l :: l in r <==> l in links && "nofollow" !in l.status && "blacklisted" !in l.status
    ensures IsSubsequence(r, links)
    ensures forall l :: multiset(r)[l] ==
              if "nofollow" !in l.status && "blacklisted" !in l.status then multiset(links)[l] else 0
  {
    Filter(links, InWhitelistTab)
  }

  function SponsorTab(links: seq<ScannedLink>): (r: seq<ScannedLink>)
    ensures forall l :: l in r <==> l in links && "sponsored" in l.status
    ensures IsSubsequence(r, links)
    ensures forall l :: multiset(r)[l] == if "sponsored" in l.status then multiset(links)[l] else 0
  {
    Filter(links, InSponsorTab)
  }

  /**
   The blacklist and whitelist tabs never share a link, and a link that is in
   neither carries `nofollow`.
   */
  lemma TabsPartition(links: seq<ScannedLink>, l: ScannedLink)
    requires l in links
    ensures !(l in BlacklistTab(links) && l in WhitelistTab(links))
    ensures l !in BlacklistTab(links) && l !in WhitelistTab(links) ==> "nofollow" in l.status
  {
  }

  // ---------------------------------------------------------------------------
  // Pagination
  // ---------------------------------------------------------------------------

  const PerPageOptions: seq<int> := [10, 20, 30, 50, 100]

  /** The page size: the requested limit when it is one of the offered sizes, otherwise 20. */
  function PerPage(limit: Option<int>): (r: int)
    ensures r in PerPageOptions
    ensures limit.Some? && limit.value in PerPageOptions ==> r == limit.value
    ensures (limit.None? || limit.value !in PerPageOptions) ==> r == 20
  {
    if limit.Some? && limit.value in PerPageOptions then limit.value else 20
  }

  /** The requested page number, at least 1 (absent means 1). */
  function PageNumber(page: Option<int>): (r: int)
    ensures r >= 1
    ensures page.Some? && page.value >= 1 ==> r == page.value
    ensures (page.None? || page.value < 1) ==> r == 1
  {
    var p := page.GetOr(1);
    if p < 1 then 1 else p
  }

  /** `max(1, ceil(total / perPage))`. */
  function TotalPages(total: nat, perPage: int): (r: int)
    requires perPage > 0
    ensures r >= 1
    ensures total == 0 ==> r == 1
    ensures total <= r * perPage
    ensures total > 0 ==> (r - 1) * perPage < total
  {
    var c := (total + perPage - 1) / perPage;
    if c < 1 then 1 else c
  }

  /** Where page `page` starts: `($page - 1) * $perPage`. */
  function PageOffset(page: int, perPage: int): (r: nat)
    requires page >= 1 && perPage > 0
  {
    (page - 1) * perPage
  }

  /** `array_slice($data, ($page - 1) * $perPage, $perPage)`: at most one page of items, from the page's offset on. */
  function PageSlice<T>(data: seq<T>, page: int, perPage: int): (r: seq<T>)
    requires page >= 1 && perPage > 0
    ensures |r| <= perPage
    ensures var off := PageOffset(page, perPage);
      && (off >= |data| ==> r == [])
      && (off < |data| ==> |r| == if off + perPage <= |data| then perPage else |data| - off)
      && forall i :: 0 <= i < |r| ==> off + i < |data| && r[i] == data[off + i]
  {
    var off := PageOffset(page, perPage);
    if off >= |data| then [] else if off + perPage <= |data| then data[off..off + perPage] else data[off..]
  }

  lemma MulMonotone(a: int, b: int, c: nat)
    requires a <= b
    ensures a * c <= b * c
  {
  }

  /** Item `i` sits on page `i / perPage + 1`, at position `i % perPage`. */
  lemma ItemPosition(i: nat, perPage: int)
    requires perPage > 0
    ensures PageOffset(i / perPage + 1, perPage) + i % perPage == i
    ensures 0 <= i % perPage < perPage
  {
    var q := i / perPage;
    assert PageOffset(q + 1, perPage) == q * perPage;
  }

  /** A page that starts before the end of the data is among the counted pages. */
  lemma StartedPageCounted(n: nat, perPage: int, page: int)
    requires perPage > 0 && page >= 1
    requires PageOffset(page, perPage) < n
    ensures page <= TotalPages(n, perPage)
  {
    var tp := TotalPages(n, perPage);
    assert (page - 1) * perPage < tp * perPage;
    MulCancel(page - 1, tp, perPage);
  }

  lemma MulCancel(a: int, b: int, c: nat)
    ensures a * c < b * c ==> a < b
  {
    if a >= b {
      MulMonotone(b, a, c);
    }
  }

  /** Every item lands on one of the pages `1..TotalPages`, at its position within the page. */
  lemma EveryItemOnOnePage<T>(data: seq<T>, perPage: int, i: nat)
    requires perPage > 0 && i < |data|
    ensures var page := i / perPage + 1;
      && 1 <= page <= TotalPages(|data|, perPage)
      && i % perPage < |PageSlice(data, page, perPage)|
      && PageSlice(data, page, perPage)[i % perPage] == data[i]
  {
    var page := i / perPage + 1;
    ItemPosition(i, perPage);
    StartedPageCounted(|data|, perPage, page);
    var slice := PageSlice(data, page, perPage);
    var off := PageOffset(page, perPage);
    assert off < |data|;
    assert i % perPage < |slice|;
  }

  /** The page links shown: from `max(1, page - 2)` to `min(totalPages, page + 2)`. */
  function PageWindow(page: int, totalPages: int): (r: seq<int>)
    ensures forall i :: i in r <==> (i >= 1 && i >= page - 2 && i <= totalPages && i <= page + 2)
    ensures forall k :: 0 < k < |r| ==> r[k] == r[k - 1] + 1
    ensures |r| <= 5
  {
    var lo := if page - 2 > 1 then page - 2 else 1;
    var hi := if page + 2 < totalPages then page + 2 else totalPages;
    if lo > hi then [] else Range(lo, hi)
  }

  function Range(lo: int, hi: int): (r: seq<int>)
    requires lo <= hi
    ensures |r| == hi - lo + 1
    ensures forall k :: 0 <= k < |r| ==> r[k] == lo + k
    ensures forall i :: i in r <==> lo <= i <= hi
  {
    var r := seq(hi - lo + 1, k => lo + k);
    assert forall i | lo <= i <= hi :: i in r by {
      forall i | lo <= i <= hi ensures i in r {
        assert r[i - lo] == i;
      }
    }
    r
  }

  /** The current page is shown in the window exactly when it is a real page. */
  lemma WindowHoldsCurrentPage(page: int, totalPages: int)
    requires page >= 1
    ensures page in PageWindow(page, totalPages) <==> page <= totalPages
  {
  }
}
