# LinkCare link-rewriting rule engine, modelled in Dafny

LinkCare is a Typecho blog plugin that rewrites the external links of a post
as the post is rendered. The administrator configures an ordered list of
named, switchable **rules**. Each rule is a chain of `if` / `elseif` / `else`
**branches**. A branch holds **tests** of the form (field, operator, value)
and a list of **actions**. The engine works on one link at a time:

- it runs the enabled rules in order;
- in each rule, the first branch whose tests match and which has actions fires;
- the fired branch's actions rewrite the link. They can add `rel` tokens or
  classes, set `target` or `title`, edit the query string, mark the link
  blacklisted, or route it through a redirect page;
- a link that a rule disables stops the loop and is replaced by a warning text.

The same engine also drives two other places:

- **The admin link monitor.** It reruns the rules on every scanned link and
  reports status tokens. It also filters the scanned links by keyword and by
  tab, and paginates them.
- **The rule editor's JSON import.** It checks an imported rule list and
  fills in its defaults.

The model has one module per part of the program:

| module | file | what it holds |
|---|---|---|
| `Wrappers` | `wrappers.dfy` | `Option` and `Result` |
| `PhpStrings` | `php_strings.dfy` | the PHP string builtins the engine relies on: `strtolower`, `stripos`, `empty`, `trim`, `rtrim`, `htmlspecialchars`, `urlencode`, `array_unique` |
| `Urls` | `urls.dfy` | URL splitting into base, query and fragment; query parsing and building; the parameter helpers `appendParam`, `removeCustomParams`, `addCustomParams` |
| `LinkModel` | `model.dfy` | the link, the page context, and the rule configuration as datatypes; operator results; the regular-expression oracle |
| `Operators` | `operators.dfy` | `matchPattern`, `matchDomainPattern`, including the exact `*` glob, and the four `evaluate…Rule` operator tables |
| `Conditions` | `conditions.dfy` | field lookup and `evaluateConditionRules` |
| `Actions` | `actions.dfy` | `applyConditionActions`, `processSvgSuffix`, `processBlacklist` |
| `Engine` | `engine.dfy` | `applyAdvancedRule`; the content filter's rule loop and per-anchor callback; `buildFinalLink`; `checkLinkRules` |
| `Monitor` | `monitor.dfy` | `checkLinkByRules`; the keyword and tab filters; pagination |
| `ImportRules` | `import_rules.dfy` | `importRules` and `validateImportedRules` of the rule editor, over a JSON value datatype |

Several PHP behaviours are modelled as written, and lemmas spell them out:

- **Strict identity in branch logic.** `in_array(true, $results, true)` only
  sees a literal `true`. `preg_match` returns `1` on a hit, and `1` is not
  `true`. So a `regex` hit never satisfies an `or` branch, and a `regex` miss
  (`0`) never fails an `and` branch.
- **`empty("0")` is true.** A `"0"` value is treated like an empty one wherever
  the source uses `empty()` or truthiness on a string.
- **No stop in the monitor.** The monitor keeps applying rules after a link
  is disabled; the content filter stops.

## Model

| member | source | states |
|---|---|---|
| Operators.GlobLiteral | Plugin.php:661 | a glob without `*` matches exactly the strings equal to it up to ASCII case |
| Operators.GlobStarSuffix | Plugin.php:674-676 | on a single-line subject, `*w` matches exactly the subjects ending in `w`, ignoring case |
| Operators.PdfGlobHit | Plugin.php:674-676 | `*.pdf` matches `a.PDF`: the glob ignores case |
| Operators.PdfGlobMiss | Plugin.php:674-676 | `*.pdf` does not match `a.pdfx`: the glob is anchored at the end |
| Operators.MatchPattern | Plugin.php:667-679 | an empty pattern never matches and `*` always does; a `/…/` pattern goes to the regex engine, whose hit, miss and error give 1, 0 and `false`; any other pattern containing `*` gives 1 exactly when the subject matches the glob (each `*` stands for any run of characters other than a newline) and 0 otherwise; any other pattern is a case-insensitive substring test |
| Operators.MatchDomainPattern | Plugin.php:653-665 | the same cases as `matchPattern`, except that a plain pattern must equal the host up to case |
| Operators.EvaluateDomainRule | Plugin.php:336-357 | per operator: equals and not-equals compare the host without case; contains, starts-with and ends-with also ignore case; `regex` is the regex engine's answer on the host and `match` is `matchDomainPattern`'s; only these two can yield an integer; an unknown operator yields `false` |
| Operators.EvaluateStringRule | Plugin.php:376-389 | per operator: equals and not-equals compare exactly; contains, starts-with and ends-with ignore case; `regex` is the regex engine's answer on the string and `match` is `matchPattern`'s; only these two can yield an integer; an unknown operator yields `false` |
| Operators.DomainEqualsIgnoresCase | Plugin.php:345-346 | two spellings that differ only in case are equal as domains but not as plain strings |
| Operators.EvaluateRelRule | Plugin.php:362-371 | the test is true exactly for `contains` with the token present or `not_contains` with it absent; every other case is `false` |
| Operators.EvaluateBooleanRule | Plugin.php:320-331 | the expected value counts as true exactly for `1`, `true`, `yes` or `on` in any case; equals and not-equals compare the flag with it; other operators are `false` |
| Operators.BooleanFlagExamples | Plugin.php:322 | `Yes`, `ON` and `1` count as true, while `y` and the empty string do not |
| Conditions.EvaluateRule | Plugin.php:266-307 | an unknown field yields `false`; `rel` is a token-membership test; domain equality ignores case while URL equality is exact; `is_special_page` never yields an integer, and only `regex` and `match` can |
| Conditions.EvaluateRuleField | Plugin.php:268-303 | each field is handed to its evaluator: the host to the domain evaluator; the URL, its `parse_url` path (or `/`), its query (or `""`), and the page path, type and name (falling back to `/`, `unknown` and `""` without page context) to the string evaluator; the special-page flag (`false` without context) to the boolean evaluator |
| Conditions.EvaluateConditionRules | Plugin.php:259-315 | no tests never match; under `or` (in any case) the branch matches iff some test returned exactly `true`; otherwise iff no test returned exactly `false` |
| Conditions.UnknownFieldContributesFalse | Plugin.php:266-307 | a test on an unknown field makes an `and` branch fail and is ignored by an `or` branch |
| Conditions.OrIgnoresRegexHit | Plugin.php:311-312 | a branch under `or` whose only test is a matching `regex` does not match, because 1 is not `true` |
| Conditions.AndIgnoresRegexMiss | Plugin.php:313-314 | a branch under `and` whose only test is a `regex` matches unless the pattern is invalid |
| Conditions.LogicIgnoresCase | Plugin.php:311 | the logic word `OR` behaves as `or` |
| Conditions.DomainEqualsExample | Plugin.php:270-271 | a host `Example.COM` satisfies the domain test equals `example.com` |
| Conditions.OrderIrrelevant | Plugin.php:310-314 | reversing the tests of a branch does not change its verdict |
| Actions.AppendMissing | Plugin.php:398-406 | appending tokens if absent keeps the old list as a prefix, adds every requested token and nothing else, keeps a duplicate-free list duplicate-free, and changes nothing when all are present |
| Actions.AppendMissingAppends | Plugin.php:398-406 | the appended part holds exactly the requested tokens that were absent, each once, in the order in which they are first requested |
| Actions.ProcessBlacklist | Plugin.php:533-556 | modes `disable` (the default) and `warning` disable the link and append `blacklisted` to the `rel` tokens unless present; `warning` sets the configured or default warning text, `disable` keeps the old one; any other mode leaves the link as it was; URL, text, target, title, classes, `data-*` values, the redirect flag and the other `rel` tokens never change |
| Actions.SvgBadgesDecode | Plugin.php:512-518 | the badges open with the suffix badge's opening tag, right after which the suffix text appears only escaped: that slice holds no quote, `<` or `>` and decodes back to the suffix text; a code that is empty or `"0"` adds nothing after the suffix badge |
| Actions.SvgCodeDecode | Plugin.php:512-518 | a code other than empty or `"0"` appears only escaped, right after the whole suffix badge and the code badge's opening tag: that slice holds no quote, `<` or `>` and decodes back to the code |
| Actions.ProcessSvgSuffix | Plugin.php:506-528 | a URL not containing `.svg` (in any case) is untouched; otherwise the text is extended by exactly the badge for the suffix text (default `[SVG]`) and the code (default empty), `svg-link` is appended to the classes unless present, and nothing else changes |
| Actions.UpgradeScheme | Plugin.php:428-432 | a URL that does not start with `http:` in any case is kept; otherwise the result starts with `https:`, is one character longer, and keeps everything after the old scheme's colon |
| Actions.StartsWithHttpIsPrefix | Plugin.php:430 | the `force_https` guard holds exactly when the lower-cased URL starts with `http://` |
| Actions.ApplyAction | Plugin.php:394-501 | every action only adds to the link (`rel` and class lists only grow, the disabled and redirect flags are never cleared) and keeps host and page; an unknown action type changes nothing |
| Actions.ApplyActions | Plugin.php:394-501 | a list of actions only adds to the link; the empty list changes nothing |
| Actions.ApplyActionsConcat | Plugin.php:396-500 | running two action lists one after the other equals running their concatenation |
| Actions.AddRelSemantics | Plugin.php:398-406 | `add_rel` changes only the `rel` tokens: the old ones stay first, after them come exactly the requested tokens that were absent, each once and in request order; a duplicate-free list stays duplicate-free, and a second run changes nothing |
| Actions.TargetBlankOnlyTarget | Plugin.php:422-426 | `target_blank` sets the target to `_blank` and changes nothing else |
| Actions.ForceHttpsSemantics | Plugin.php:428-432 | `force_https` upgrades an `http://` URL in any case, leaves any other URL alone, changes nothing but the URL, and is idempotent |
| Actions.AddClassSemantics | Plugin.php:434-438 | `add_class` appends its value to the classes, even when present, unless the value is empty or `"0"`; nothing else changes |
| Actions.AddTitleSemantics | Plugin.php:440-444 | `add_title` replaces the title with its value unless the value is empty or `"0"`; nothing else changes |
| Actions.AddRefererSemantics | Plugin.php:446-453 | an enabled `add_referer` with a value sets `data-referer` to it, keeps every other `data-*` value, appends the class `js-referer` unless present, and changes nothing else |
| Actions.AddRefererOff | Plugin.php:446-447 | a disabled `add_referer`, or one with an empty value, does nothing |
| Actions.EnableRedirectSemantics | Plugin.php:492-496 | `enable_redirect` sets the redirect flag and changes nothing else |
| Actions.UrlActionsOnlyUrl | Plugin.php:408-490 | `add_utm`, `force_https`, `remove_utm`, `remove_tracking`, `remove_params` and `add_custom_params` change nothing but the URL |
| Actions.AddUtmUrl | Plugin.php:408-420 | `add_utm` appends the `utm_` pairs of the truthy values, joined by `&`, and does nothing when there is none |
| Actions.AddUtmParsed | Plugin.php:408-420 | on a URL without fragment, the query after `add_utm` reads as the old pairs with the `utm_` pairs read after them |
| Actions.RemoveParamsUrl | Plugin.php:479-483 | `remove_params` removes the named keys through `removeCustomParams`, leaving none of them in the query, and does nothing for an empty list |
| Actions.RemoveUtmUrl | Plugin.php:467-471 | `remove_utm` removes the five standard UTM keys through `removeCustomParams` |
| Actions.RemoveTrackingDropsKeys | Plugin.php:473-477 | `remove_tracking` removes the nineteen tracking keys through `removeCustomParams`, so none of them is left in a query, and changes nothing but the URL |
| Actions.CustomParamsUrl | Plugin.php:485-489 | `add_custom_params` with entries rewrites the URL with `addCustomParams` |
| Actions.BlacklistWarningDefault | Plugin.php:540-546 | a blacklist action in `warning` mode with no text disables the link with the default warning text |
| Actions.BlacklistUnknownModeNoOp | Plugin.php:536-555 | a blacklist action with an unrecognised mode does nothing |
| Actions.SvgSuffixNeedsSvgUrl | Plugin.php:508-509 | the SVG suffix action does nothing to a URL without `.svg` |
| Actions.CustomUtmSourcePresent | Plugin.php:561-577 | adding the custom parameter `utm_source` with a non-empty value to a URL without fragment leaves a query whose pairs are the old ones with `utm_source` set to the encoded value |
| Actions.CustomUtmThenRemoveUtm | Plugin.php:467-489 | a `utm_source` added by `add_custom_params` is gone after `remove_utm` |
| Urls.SplitAtFirstUnique | Plugin.php:604-621 | splitting at the first separator recovers the part before it when that part has no separator |
| Urls.SplitJoin | Plugin.php:610-617 | splitting a separator-joined list of separator-free pieces gives the pieces back |
| Urls.SplitConcat | Plugin.php:610 | splitting distributes over a separator-joined concatenation |
| Urls.ComposeParse | Plugin.php:604-621 | a URL reassembled from its base, query and fragment is the URL itself |
| Urls.ParseCompose | Plugin.php:604-621 | parsing a reassembled URL gives back its well-formed parts |
| Urls.PathOf | Plugin.php:280 | the path is a non-empty tail of the URL base; a base without `://` has the path of a base without scheme; a protocol-relative base has a path exactly when a `/` follows its authority, and then the path starts there |
| Urls.AfterAuthority | Plugin.php:280 | the path of a base without a scheme: after `//authority` when the base starts with `//`, otherwise the whole non-empty base |
| Urls.AfterAuthorityPath | Plugin.php:280 | after `//authority`, the path is everything from the first `/` on |
| Urls.ProtocolRelativePath | Plugin.php:280 | the path field of `//host/p` is `/p` |
| Urls.FirstSlashStartsPath | Plugin.php:280 | in an authority without `/` followed by a path, the first `/` is where the path starts |
| Urls.SchemeSeparator | Plugin.php:280 | the first `://` of a URL whose scheme holds no `:` is the one right after the scheme |
| Urls.SchemePath | Plugin.php:280 | the path of `scheme://authority/p` is `/p` for any non-empty scheme without `/` or `:` and any authority without `/` |
| Urls.SchemeUrlPath | Plugin.php:280 | the path field of `http://host/p` without query or fragment is `/p` |
| Urls.Put | Plugin.php:610 | storing a query parameter makes its key present; a new key is appended at the end; other keys keep their presence; well-formedness is kept |
| Urls.PutInPlace | Plugin.php:610 | storing an existing key keeps the length and every key in place, and the new pair is among the pairs |
| Urls.PutReplaces | Plugin.php:610 | with distinct keys, storing an existing key replaces that pair with the new one, so the last value wins, and leaves every other pair in place |
| Urls.HasKeyCons | Plugin.php:610 | key presence in a parameter list with one more entry |
| Urls.ParseQueryWellFormed | Plugin.php:610 | a parsed query has distinct keys, and each key and value is free of `&`, `=`-in-key and `#` |
| Urls.ParseBuildQuery | Plugin.php:610-617 | parsing a query built from well-formed parameters gives back the same parameters in order |
| Urls.CollectConcat | Plugin.php:610 | parsing the segments of a query in two steps equals parsing them at once |
| Urls.CollectKeysFrom | Plugin.php:610 | every key of a parsed query comes from one of its segments |
| Urls.SingleParamQuery | Plugin.php:604-610 | a base without `?` or `#` followed by `?k=v` has exactly the pair `k=v` as its query |
| Urls.AppendParam | Plugin.php:701-704 | a parameter is appended after `&` when the URL already has a `?`, otherwise after `?` |
| Urls.ParseQueryAppend | Plugin.php:701-704 | a query extended by `&k=v` reads as the old pairs with `k` set to `v` |
| Urls.AppendParamParsed | Plugin.php:701-704 | after appending `k=v` to a URL without fragment, the query reads as the old pairs with `k` set to `v` |
| Urls.AppendedKeyPresent | Plugin.php:701-704 | after appending `k=v` to a URL without fragment, the query names `k` |
| Urls.AppendedSegmentsParsed | Plugin.php:701-704 | after appending `&`-joined segments to a URL without fragment, the query reads as the old pairs with the segments read after them |
| Urls.WithoutKeys | Plugin.php:611-613 | dropping the named keys keeps exactly the parameters whose key is not named, and keeps well-formedness |
| Urls.WithoutKeysKeeps | Plugin.php:611-613 | the kept parameters are a subsequence of the old ones, each kept as often as it occurred |
| Urls.RemoveParams | Plugin.php:604-621 | a URL without a query is returned unchanged; otherwise the named keys are dropped and the rest of the URL is kept |
| Urls.RemovedKeysAbsent | Plugin.php:604-621 | after removing parameters, none of the removed keys is left in the query |
| Urls.EncodedParams | Plugin.php:564-572 | no pair is produced exactly when no entry has a non-empty name and value; the pairs are separator-free |
| Urls.EncodedParamsMembers | Plugin.php:564-570 | the pairs are exactly `urlencode(name)=urlencode(value)` of the entries with a non-empty name and value |
| Urls.EncodedParamsConcat | Plugin.php:566-570 | the entries are encoded one by one, so the pairs keep the order of the entries |
| Urls.AddCustomParams | Plugin.php:561-577 | with no usable parameter the URL is unchanged; otherwise the encoded parameters are appended to it |
| Urls.SingleCustomParamParsed | Plugin.php:561-577 | adding one entry with a non-empty plain name and value to a URL without fragment leaves a query whose pairs are the old ones with that name set to the encoded value |
| Urls.AddCustomParamsParsed | Plugin.php:561-577 | on a URL without fragment, the query after `addCustomParams` reads as the old pairs with the encoded pairs read after them |
| Urls.AddCustomParamsKeys | Plugin.php:561-577 | on a URL without fragment, every usable entry's encoded name is a key of the resulting query |
| Urls.UtmPairs | Plugin.php:410-415 | the pairs are exactly `utm_<param>=urlencode(value)` for the entries with a truthy value |
| Urls.UtmPairsConcat | Plugin.php:411-415 | the entries are turned into pairs one by one, so the pairs keep the order of the entries |
| Urls.UtmPairsSegments | Plugin.php:413 | with parameter names free of `&` and `#`, no pair contains `&` or `#` |
| Engine.ApplyBranchesPicks | Plugin.php:238-253 | if no branch fires the link is unchanged; otherwise exactly the actions of the first firing branch are applied |
| Engine.ApplyAdvancedRule | Plugin.php:234-254 | a rule without branches does nothing, and a rule only adds to the link |
| Engine.ApplyAdvancedRuleBranch | Plugin.php:234-254 | if no branch of the rule fires the link is unchanged; otherwise the first branch that matches and has actions decides the result |
| Engine.UnknownKindNeverFires | Plugin.php:241-245 | a branch whose type is not `if`, `elseif` or `else` never fires |
| Engine.EmptyActionsFallThrough | Plugin.php:247-250 | a matching branch without actions does not stop the chain: a following `else` fires |
| Engine.ApplyBranchesConcat | Plugin.php:238-251 | a firing branch in the first part of a chain makes the rest irrelevant; otherwise the rest decides |
| Engine.ApplyRuleSet | Plugin.php:133-140 | the content filter's rule loop only adds to the link and changes nothing when every rule is switched off |
| Engine.ApplyEnabledRules | monitor.php:69-77 | the monitor's rule loop only adds to the link |
| Engine.ApplyRuleSetConcat | Plugin.php:133-140 | once a rule disables the link the later rules are skipped; otherwise they continue from the current link |
| Engine.StopOnlyMattersWhenDisabled | Plugin.php:136-138 | from the same starting link (its page context and attributes included), when no rule disables the link, the content filter's loop and the monitor's loop reach the same link |
| Engine.DisabledAgrees | Plugin.php:133-140 | from the same starting link (its page context and attributes included), the content filter's loop and the monitor's loop agree on whether the link ends disabled |
| Engine.EscapeData | Plugin.php:642-645 | every `data-*` key is kept and every value is escaped so that it holds no quote or angle bracket and decodes back to the original |
| Engine.BuildFinalLink | Plugin.php:626-648 | the rendered anchor lists each `rel` token and each class once, in order of first occurrence; target and title are omitted exactly when empty or `"0"`; href, target, title and `data-*` values hold no quote or angle bracket and decode back to the link's own values; the text is kept |
| Engine.RedirectCarriesUrl | Plugin.php:147-149 | for a redirect address without `?` or `#`, the redirect URL's query is exactly `url=` followed by the URL-encoded original |
| Engine.ProcessAnchor | Plugin.php:108-151 | anchors without a host or on the site host are left as written; a disabled link becomes its warning text or plain text; any other link is rendered, through the redirect only when a rule asked for it and an address is configured |
| Engine.NoRulesRendersAsIs | Plugin.php:133-151 | with no enabled rule an external anchor is rendered from its own attributes |
| Engine.DefaultContextMatchesFallbacks | Plugin.php:738-745 | the preview's default page context gives the same field values as the engine's fallbacks for a missing context |
| Engine.SelectedMembers | Plugin.php:756-764 | a name is reported exactly when some entry with that name is flagged |
| Engine.CheckLinkRules | Plugin.php:732-766 | a name is reported exactly when some enabled rule with that name changes the preview link on its own |
| Engine.CheckLinkRulesConcat | Plugin.php:756-764 | the report for two rule lists is the concatenation of their reports |
| Engine.DisabledRuleNotReported | Plugin.php:757 | a switched-off rule is never reported |
| Monitor.RecordedFlags | monitor.php:69-77 | rule `i` is flagged exactly when it is enabled and changes the link that the enabled rules before it produced |
| Monitor.RunRules | monitor.php:67-77 | the monitor's loop reaches the link of the non-stopping rule loop and records at most one name per rule |
| Monitor.RunRulesRecorded | monitor.php:69-77 | the recorded names are, in rule order, the names of exactly the flagged rules: the enabled ones that changed the running link |
| Monitor.RunRulesConcat | monitor.php:69-77 | the names recorded for two rule lists are those of the first list followed by those of the second, run on the link the first produced |
| Monitor.StatusTokens | monitor.php:80-106 | each status token is listed once, and the tokens are exactly the `rel` tokens, `target_blank` for a `_blank` target in any case, `blacklisted` for a disabled link, and `sponsored` when asked for |
| Monitor.CheckLinkByRules | monitor.php:55-108 | the applied rules are the names of the rules that changed the running link, in order; the status lists each token once and holds exactly the final link's `rel` tokens, `target_blank` for a `_blank` target in any case, `blacklisted` for a disabled link, and `sponsored` for a sponsor key in the original query |
| Monitor.AppliedRulesMembers | monitor.php:69-77 | a name is among the applied rules exactly when some enabled rule with that name changed the running link |
| Monitor.MonitorAgreesWithFilter | monitor.php:55-108 | when the content filter's rule loop starts from the monitor's link (no page context, no anchor attributes), a link it would suppress gets the `blacklisted` status; for a link it would render, every `rel` token of the rendered link is a status token, and `blacklisted` appears exactly when it is one of them |
| Monitor.SponsorKeysAtomic | monitor.php:96 | every sponsor key can be written as a query parameter |
| Monitor.SponsorKeyMarksSponsored | monitor.php:93-102 | a URL whose query names a sponsor key is reported as sponsored |
| Monitor.Filter | monitor.php:170-178 | the kept elements are exactly those that pass the test, in their old order and with their old multiplicity |
| Monitor.KeywordFilter | monitor.php:169-175 | an empty (after trimming) or `"0"` keyword keeps every link; otherwise exactly the links whose URL, title or host contain it, ignoring case, in their old order |
| Monitor.DomainKeywordFilter | monitor.php:176-178 | the same for domain statistics, matched on the domain |
| Monitor.BlacklistTab | monitor.php:182-184 | the blacklist tab holds exactly the links with status `blacklisted`, in their old order |
| Monitor.WhitelistTab | monitor.php:186-189 | the whitelist tab holds exactly the links with neither `nofollow` nor `blacklisted`, in their old order |
| Monitor.SponsorTab | monitor.php:191-193 | the sponsor tab holds exactly the links with status `sponsored`, in their old order |
| Monitor.TabsPartition | monitor.php:182-189 | no link is on both the blacklist and whitelist tabs, and a link on neither is `nofollow` |
| Monitor.PerPage | monitor.php:14-16 | the page size is the requested one when it is 10, 20, 30, 50 or 100, and 20 otherwise |
| Monitor.PageNumber | monitor.php:19 | the page number is the requested one, but at least 1 |
| Monitor.TotalPages | monitor.php:216-217 | no items make exactly one page; otherwise the pages hold every item and the last page is not empty |
| Monitor.PageSlice | monitor.php:218 | a page holds at most a page size of items, namely the items from the page's offset on, in order |
| Monitor.EveryItemOnOnePage | monitor.php:216-218 | every item appears on the page given by its index, at the position given by the remainder, and that page exists |
| Monitor.StartedPageCounted | monitor.php:216-218 | a page whose offset is inside the data is counted among the pages |
| Monitor.PageWindow | monitor.php:416 | the page links are the consecutive pages within two of the current page, between 1 and the last page: at most five |
| Monitor.WindowHoldsCurrentPage | monitor.php:416 | the current page is in its own window exactly when it does not exceed the page count |
| ImportRules.NormalizeCondition | assets/js/linkcare.js:560-564 | a condition that is `null` or a primitive throws a TypeError; an array is kept; an object that is `else` or has a truthy `logic` is kept, and any other object gains `logic: "and"` and no other key, keeping every other value |
| ImportRules.NormalizeConditions | assets/js/linkcare.js:560-564 | the conditions succeed exactly when each does, and each result is that condition's normal form |
| ImportRules.WithDefaults | assets/js/linkcare.js:547-553 | a rule gets a valid name (its own or the numbered default) and an `enable` flag (its own or `true`); every other key is kept |
| ImportRules.NormalizeRule | assets/js/linkcare.js:542-565 | a primitive rule is refused with its 1-based position; `null` throws a TypeError; an object rule succeeds exactly when its conditions do, keeps its other keys, gets a valid name and an `enable` flag, and its conditions become the normal forms of its `conditions` array (none when that is missing or not an array) |
| ImportRules.NormalizedConditionsNormal | assets/js/linkcare.js:560-564 | every normalized condition is an array or an object that is `else` or has a truthy `logic` |
| ImportRules.FirstErrorReported | assets/js/linkcare.js:542 | when the loop fails, the error reported is the first failing element's error |
| ImportRules.ValidateImportedRules | assets/js/linkcare.js:541-566 | validation succeeds exactly when every rule normalizes; it keeps the count and the order; on failure the error is the first failing rule's error |
| ImportRules.ImportRules | assets/js/linkcare.js:488-495 | anything but an array is refused as not an array; a success keeps the rule count; a refused rule position points at a primitive rule |
| ImportRules.NormalizeConditionIdempotent | assets/js/linkcare.js:559-564 | normalizing a normalized condition changes nothing |
| ImportRules.NormalRuleUnchanged | assets/js/linkcare.js:547-564 | a rule that already has a name, an `enable` key and normal conditions is left as it is |
| ImportRules.NormalizeRuleIdempotent | assets/js/linkcare.js:542-565 | normalizing a normalized rule changes nothing |
| ImportRules.ValidateIdempotent | assets/js/linkcare.js:541-566 | importing an already imported rule list changes nothing |
| ImportRules.ExplicitDisableKept | assets/js/linkcare.js:551-553 | a rule imported with `enable: false` stays switched off |
| PhpStrings.Lower | Plugin.php:352 | lower-casing maps each ASCII capital to its small letter, keeps the length and leaves no capital |
| PhpStrings.LowerIdempotent | Plugin.php:263 | lower-casing twice is lower-casing once |
| PhpStrings.IndexOf | Plugin.php:379 | the position found is the first occurrence of the needle; no position means no occurrence |
| PhpStrings.IndexOfZeroIsPrefix | Plugin.php:350 | the first occurrence is at 0 exactly when the needle is a prefix |
| PhpStrings.ContainsCiIffOccurs | Plugin.php:342 | `stripos` finds the needle exactly when the lower-cased needle occurs in the lower-cased haystack |
| PhpStrings.TrimLeft | monitor.php:18 | the result is the input without its leading whitespace: a suffix that starts with a non-blank, preceded only by blanks |
| PhpStrings.TrimRight | monitor.php:18 | the result is the input without its trailing whitespace: a prefix that ends with a non-blank, followed only by blanks |
| PhpStrings.Trim | monitor.php:18 | the trimmed keyword neither starts nor ends with whitespace and sits inside the input with only blanks around it |
| PhpStrings.TrimLocated | monitor.php:18 | the trimmed keyword is the input from the end of its leading blanks on, up to the start of its trailing blanks |
| PhpStrings.RTrimSlash | Plugin.php:148 | the result is a prefix that does not end in `/`, and only slashes were removed |
| PhpStrings.HtmlEscape | Plugin.php:634-647 | the escaped text contains no `<`, `>`, `"` or `'`, and text without special characters is unchanged |
| PhpStrings.HtmlEscapeRoundTrip | Plugin.php:634-647 | decoding the escaped text gives the text back |
| PhpStrings.UrlEncode | Plugin.php:148 | the encoded text consists only of letters, digits, `-`, `_`, `.`, `+` and `%`, so it holds no `&`, `=`, `?` or `#`; text made only of letters, digits, `-`, `_` and `.` is unchanged |
| PhpStrings.Dedup | Plugin.php:631 | `array_unique` leaves every element of the list exactly once and adds nothing |
| PhpStrings.DedupOrder | Plugin.php:631 | `array_unique` keeps the elements in the order of their first occurrence |
| PhpStrings.DedupOfDistinct | Plugin.php:631 | a list without duplicates is unchanged by `array_unique` |

## Left out

- Regular expressions: PCRE is not modelled. The `regex` operator and `/…/` patterns call a regex engine that the caller supplies, with hit, miss and error outcomes. The `*` glob is computed as the regular expression that `preg_quote` builds from it would match.
- MatchPattern and MatchDomainPattern: PCRE's backtracking and JIT limits are not modelled. On a long subject, a glob with many `*` can make `preg_match` give `false` in PHP, which fails an `and` branch; the model answers 0 there.
- Anchor parsing (`preg_replace_callback` over the post content, `parseRel`, `parseTarget`, `parseClass` and `parseTitle`, Plugin.php:106-131 and 681-699): the model starts from an already parsed href, text, host and attribute set.
- `getCurrentPageContext` (Plugin.php:160-229): it reads the Typecho request and archive. The page context is a parameter.
- Logging (`logActivity`), plugin activation and configuration, database and cache access, `getRules`' JSON decoding, the monitor's link scan and HTML output, the tab switch, the domain statistics aggregation, and `linkcare-redirect.php`: these are I/O or UI.
- `parse_url` is simplified to "base ? query # fragment", with the path taken after the authority of a `scheme://` or `//` base. `removeCustomParams` puts the base back verbatim, while PHP drops a `user:pass@` part and the `//` of a protocol-relative URL.
- PathOf: URLs that `parse_url` rejects as malformed (for which PHP's path field is `false`) are not singled out; the model still takes the text after the authority.
- `parse_str` is simplified. It splits on `&`, takes the key before the first `=`, and keeps the first position and the last value of a repeated key. It does no URL-decoding, no `[]` array keys and no name mangling. `http_build_query` is `k=v` joined by `&` with no further encoding.
- `in_array`'s loose comparison (numeric strings compared as numbers) is modelled as exact string equality.
- The monitor's status ignores the page context and the anchor's own `rel`, `target`, `class` and `title`, which the content filter uses. A rule that tests `page_type`, `page_path`, `rel` or similar can suppress a link on a page while the monitor does not report it `blacklisted`; the agreement between the two holds only from the same starting link.
- HtmlEscape: `htmlspecialchars` is modelled with PHP 8.1's default flags, which turn `'` into `&#039;`. Under PHP 8.0, whose default is `ENT_COMPAT`, single quotes pass through unescaped.
- `intval` on `limit` and `page` is not modelled: the monitor takes the already converted integers, or none.
- PageSlice: PHP's `($page - 1) * $perPage` overflows to a float once `page` exceeds `PHP_INT_MAX / perPage`, and `array_slice` then throws a TypeError on that offset. The model's integers are unbounded, so such a page gives an empty slice.
- Strings are Dafny strings, sequences of Unicode scalar values, while PHP strings are bytes. Input that is not valid UTF-8 is not represented, and lengths count characters, not bytes.
- The data of `add_utm` is taken as a sequence of key/value pairs. A PHP array cannot repeat a key, so the model assumes distinct keys and does not enforce it.
- The rendered anchor is kept as a structure, not a string. Attribute order, the spaces that join tokens, and the escaping of `rel` and `class` (which the source does not escape) are not modelled.
- JSON objects are maps, so their key order is not modelled. Properties that the import sets on arrays standing in for rules or conditions are dropped, as JSON serialization drops them.
- ImportRules.ErrorMessage: a JavaScript TypeError's message text is engine-specific, so only the messages LinkCare writes itself are given.
- The import's file dialog, confirmation dialog, saving and re-rendering are UI.
