/**
 URL and query-string handling used by the link actions.

 PHP's `parse_url`, `parse_str` and `http_build_query` are replaced by a
 simplified, total splitter: a URL is `base ? query # fragment`, where the
 fragment starts at the first `#` and the query at the first `?` before it;
 a query is a list of `key=value` pairs separated by `&`.
 */
module Urls {
  import opened Wrappers
  import opened PhpStrings

  // ---------------------------------------------------------------------------
  // Splitting at a separator
  // ---------------------------------------------------------------------------

  /** The text before the first `c` and, when `c` occurs, the text after it. */
  function SplitAtFirst(s: string, c: char): (r: (string, Option<string>))
    ensures r.1.None? ==> r.0 == s && c !in s
    ensures r.1.Some? ==> r.0 + [c] + r.1.value == s && c !in r.0
  {
    if c !in s then (s, None)
    else if s[0] == c then
      assert s == [] + [c] + s[1..];
      ("", Some(s[1..]))
    else
      var (b, a) := SplitAtFirst(s[1..], c);
      assert s == [s[0]] + s[1..];
      ([s[0]] + b, a)
  }

  /** Splitting `x + [c] + y` where `x` has no `c` gives back exactly `x` and `y`. */
  lemma {:induction false} SplitAtFirstUnique(x: string, c: char, y: string)
    requires c !in x
    ensures SplitAtFirst(x + [c] + y, c) == (x, Some(y))
  {
    var s := x + [c] + y;
    assert s[|x|] == c;
    if |x| == 0 {
      assert s[1..] == y;
    } else {
      assert s[1..] == x[1..] + [c] + y;
      SplitAtFirstUnique(x[1..], c, y);
      assert [s[0]] + x[1..] == x;
    }
  }

  /** `explode(c, s)`: the pieces between consecutive separators. */
  function Split(s: string, c: char): (r: seq<string>)
    ensures |r| >= 1
    ensures forall i :: 0 <= i < |r| ==> c !in r[i]
    ensures forall i, x :: 0 <= i < |r| && x in r[i] ==> x in s
    decreases |s|
  {
    var (b, a) := SplitAtFirst(s, c);
    match a
    case None => [b]
    case Some(rest) =>
      assert |rest| < |s|;
      [b] + Split(rest, c)
  }

  /** `implode(c, xs)`. */
  function Join(xs: seq<string>, c: char): (r: string)
    requires |xs| >= 1
  {
    if |xs| == 1 then xs[0] else xs[0] + [c] + Join(xs[1..], c)
  }

  /** Splitting a join at its separator recovers the pieces, when no piece holds the separator. */
  lemma {:induction false} SplitJoin(xs: seq<string>, c: char)
    requires |xs| >= 1
    requires forall i :: 0 <= i < |xs| ==> c !in xs[i]
    ensures Split(Join(xs, c), c) == xs
  {
    if |xs| == 1 {
    } else {
      SplitAtFirstUnique(xs[0], c, Join(xs[1..], c));
      SplitJoin(xs[1..], c);
    }
  }

  /** Splitting distributes over a separator placed between two strings. */
  lemma {:induction false} SplitConcat(a: string, c: char, b: string)
    ensures Split(a + [c] + b, c) == Split(a, c) + Split(b, c)
    decreases |a|
  {
    var (x, rest) := SplitAtFirst(a, c);
    match rest
    case None =>
      SplitAtFirstUnique(a, c, b);
    case Some(y) =>
      assert a + [c] + b == x + [c] + (y + [c] + b);
      SplitAtFirstUnique(x, c, y + [c] + b);
      SplitConcat(y, c, b);
  }

  // ---------------------------------------------------------------------------
  // URL parts
  // ---------------------------------------------------------------------------

  /** A URL split into the part before the query (scheme, authority, path), the query and the fragment. */
  datatype UrlParts = UrlParts(base: string, query: Option<string>, fragment: Option<string>)

  predicate WellFormedParts(p: UrlParts) {
    && '#' !in p.base && '?' !in p.base
    && (p.query.Some? ==> '#' !in p.query.value)
  }

  function ParseUrl(u: string): (p: UrlParts)
    ensures WellFormedParts(p)
  {
    var (pre, fragment) := SplitAtFirst(u, '#');
    var (base, query) := SplitAtFirst(pre, '?');
    UrlParts(base, query, fragment)
  }

  /** The URL text of its parts: base, then `?query`, then `#fragment`, each only when present. */
  function Compose(p: UrlParts): string {
    p.base
    + (match p.query case Some(q) => "?" + q case None => "")
    + (match p.fragment case Some(f) => "#" + f case None => "")
  }

  /** Splitting loses nothing. */
  lemma ComposeParse(u: string)
    ensures Compose(ParseUrl(u)) == u
  {
  }

  /** Parts that could have come from a split are recovered by splitting their composition. */
  lemma ParseCompose(p: UrlParts)
    requires WellFormedParts(p)
    ensures ParseUrl(Compose(p)) == p
  {
    var pre := p.base + (match p.query case Some(q) => "?" + q case None => "");
    assert '#' !in pre;
    if p.fragment.Some? {
      SplitAtFirstUnique(pre, '#', p.fragment.value);
      assert Compose(p) == pre + ['#'] + p.fragment.value;
    } else {
      assert Compose(p) == pre;
    }
    if p.query.Some? {
      SplitAtFirstUnique(p.base, '?', p.query.value);
      assert pre == p.base + ['?'] + p.query.value;
    }
  }

  /**
   The path of a URL base: after `scheme://authority` when the base starts with a
   scheme, after the `//authority` of a protocol-relative base, otherwise the
   whole base; absent when empty or when nothing follows the authority.
   */
  function PathOf(base: string): (r: Option<string>)
    ensures r.Some? ==> 0 < |r.value| <= |base| && r.value == base[|base| - |r.value|..]
    ensures IsProtocolRelative(base) ==> r == AfterAuthority(base)
    ensures IsProtocolRelative(base) ==>
              (r.Some? <==> '/' in base[2..]) && (r.Some? ==> r.value[0] == '/')
    ensures IndexOf(base, "://").None? ==> r == AfterAuthority(base)
  {
    match IndexOf(base, "://")
    case Some(i) =>
      assert IsProtocolRelative(base) && i > 0 ==> base[..i][0] == '/';
      if i > 0 && '/' !in base[..i] then
        var rest := base[i + 3..];
        match IndexOf(rest, "/")
        case Some(j) => Some(rest[j..])
        case None => None
      else AfterAuthority(base)
    case None => AfterAuthority(base)
  }

  /** A base that starts with `//`: an authority without a scheme. */
  predicate IsProtocolRelative(base: string) {
    |base| >= 2 && base[..2] == "//"
  }

  /** The path of a base without a scheme: after the authority when it starts with `//`, otherwise the whole base. */
  function AfterAuthority(base: string): (r: Option<string>)
    ensures r.Some? ==> 0 < |r.value| <= |base| && r.value == base[|base| - |r.value|..]
    ensures IsProtocolRelative(base) ==>
              (r.Some? <==> '/' in base[2..]) && (r.Some? ==> r.value[0] == '/')
    ensures !IsProtocolRelative(base) ==> (r.Some? <==> base != "") && (r.Some? ==> r.value == base)
  {
    if IsProtocolRelative(base) then
      var rest := base[2..];
      IndexOfChar(rest, '/');
      match IndexOf(rest, "/")
      case Some(j) =>
        assert rest[j] in rest;
        Some(rest[j..])
      case None => None
    else if base == "" then None else Some(base)
  }

  /** `parse_url($url, PHP_URL_PATH) ?? '/'`. */
  function PathField(url: string): string {
    PathOf(ParseUrl(url).base).GetOr("/")
  }

  /** In an authority followed by a path, the first `/` is the one that starts the path. */
  lemma FirstSlashStartsPath(authority: string, path: string)
    requires '/' !in authority
    requires |path| > 0 && path[0] == '/'
    ensures IndexOf(authority + path, "/") == Some(|authority|)
  {
    var rest := authority + path;
    IndexOfChar(rest, '/');
    assert rest[|authority|] == '/';
    var j := IndexOf(rest, "/").value;
    assert j == |authority| by {
      assert forall k :: 0 <= k < |authority| ==> rest[k] != '/';
      assert OccursAt(rest, "/", |authority|) by { assert rest[|authority|..|authority| + 1] == [rest[|authority|]]; }
    }
  }

  /** After `//authority`, the path starts at the first `/`. */
  lemma AfterAuthorityPath(authority: string, path: string)
    requires '/' !in authority
    requires |path| > 0 && path[0] == '/'
    ensures AfterAuthority("//" + authority + path) == Some(path)
  {
    var u := "//" + authority + path;
    assert IsProtocolRelative(u);
    var rest := u[2..];
    assert rest == authority + path;
    FirstSlashStartsPath(authority, path);
    IndexOfChar(rest, '/');
    assert rest[|authority|..] == path;
  }

  /** The first `://` of `scheme://…` is the one after the scheme when the scheme holds no `:`. */
  lemma SchemeSeparator(scheme: string, tail: string)
    requires ':' !in scheme
    ensures IndexOf(scheme + "://" + tail, "://") == Some(|scheme|)
  {
    var u := scheme + "://" + tail;
    assert OccursAt(u, "://", |scheme|) by { assert u[|scheme|..|scheme| + 3] == "://"; }
    assert forall k :: 0 <= k < |scheme| ==> !OccursAt(u, "://", k) by {
      forall k | 0 <= k < |scheme|
        ensures !OccursAt(u, "://", k)
      {
        assert u[k] == scheme[k] && scheme[k] in scheme;
        assert u[k..k + 3][0] == u[k] != ':';
      }
    }
  }

  /** Behind `scheme://authority`, the path is what follows the authority: `http://h/p` has the path `/p`. */
  lemma SchemePath(scheme: string, authority: string, path: string)
    requires scheme != "" && '/' !in scheme && ':' !in scheme
    requires '/' !in authority
    requires |path| > 0 && path[0] == '/'
    ensures PathOf(scheme + "://" + authority + path) == Some(path)
  {
    var u := scheme + "://" + authority + path;
    assert u == scheme + "://" + (authority + path);
    SchemeSeparator(scheme, authority + path);
    var i := |scheme|;
    assert u[..i] == scheme;
    var rest := u[i + 3..];
    assert rest == authority + path;
    FirstSlashStartsPath(authority, path);
    assert rest[|authority|..] == path;
    assert i > 0 && '/' !in u[..i];
  }

  /** Behind `scheme://authority`, without query or fragment, the path field is what follows the authority. */
  lemma SchemeUrlPath(scheme: string, authority: string, path: string)
    requires scheme != "" && '/' !in scheme && ':' !in scheme
    requires '/' !in authority
    requires |path| > 0 && path[0] == '/'
    requires '?' !in scheme + authority + path && '#' !in scheme + authority + path
    ensures PathField(scheme + "://" + authority + path) == path
  {
    var u := scheme + "://" + authority + path;
    assert '?' !in u && '#' !in u by {
      assert forall k :: 0 <= k < |u| ==> u[k] in scheme + authority + path || u[k] in "://";
    }
    ParseCompose(UrlParts(u, None, None));
    assert ParseUrl(u).base == u;
    SchemePath(scheme, authority, path);
  }

  /** A protocol-relative URL's path is what follows its authority: `//cdn.example/a.svg` has the path `/a.svg`. */
  lemma ProtocolRelativePath(authority: string, path: string)
    requires '/' !in authority
    requires |path| > 0 && path[0] == '/'
    requires '?' !in authority + path && '#' !in authority + path
    ensures PathField("//" + authority + path) == path
  {
    var u := "//" + authority + path;
    ParseCompose(UrlParts(u, None, None));
    assert ParseUrl(u).base == u;
    assert IsProtocolRelative(u);
    AfterAuthorityPath(authority, path);
  }

  /** `parse_url($url, PHP_URL_QUERY) ?? ''`. */
  function QueryField(url: string): string {
    ParseUrl(url).query.GetOr("")
  }

  // ---------------------------------------------------------------------------
  // Query strings
  // ---------------------------------------------------------------------------

  datatype Param = Param(key: string, value: string)

  function Keys(ps: seq<Param>): (r: seq<string>)
    ensures |r| == |ps|
    ensures forall i :: 0 <= i < |ps| ==> r[i] == ps[i].key
  {
    seq(|ps|, i requires 0 <= i < |ps| => ps[i].key)
  }

  predicate HasKey(ps: seq<Param>, k: string) {
    exists i :: 0 <= i < |ps| && ps[i].key == k
  }

  /** A pair whose text cannot be confused with the separators of a query. */
  predicate AtomicParam(p: Param) {
    && p.key != ""
    && '&' !in p.key && '=' !in p.key && '#' !in p.key
    && '&' !in p.value && '#' !in p.value
  }

  predicate DistinctKeys(ps: seq<Param>) {
    forall i, j :: 0 <= i < j < |ps| ==> ps[i].key != ps[j].key
  }

  /** A pair list as `parse_str` can produce it and `http_build_query` writes it back unambiguously. */
  predicate WellFormedParams(ps: seq<Param>) {
    DistinctKeys(ps) && forall i :: 0 <= i < |ps| ==> AtomicParam(ps[i])
  }

  lemma WellFormedCons(x: Param, rest: seq<Param>)
    ensures WellFormedParams([x] + rest) <==> AtomicParam(x) && !HasKey(rest, x.key) && WellFormedParams(rest)
  {
    var s := [x] + rest;
    assert forall i :: 0 <= i < |rest| ==> rest[i] == s[i + 1];
    if WellFormedParams(s) {
      assert AtomicParam(s[0]);
    }
  }

  /** One `key=value` segment; a segment without `=` has the empty value. */
  function ParseSegment(seg: string): (p: Param)
    ensures '=' !in p.key
    ensures forall x :: x in p.key ==> x in seg
    ensures forall x :: x in p.value ==> x in seg
  {
    var (k, v) := SplitAtFirst(seg, '=');
    Param(k, v.GetOr(""))
  }

  /** Array assignment `$a[k] = v`: an existing key keeps its position and takes the new value. */
  function Put(ps: seq<Param>, p: Param): (r: seq<Param>)
    ensures HasKey(r, p.key)
    ensures !HasKey(ps, p.key) ==> r == ps + [p]
    ensures forall k :: k != p.key ==> (HasKey(r, k) <==> HasKey(ps, k))
    ensures WellFormedParams(ps) && AtomicParam(p) ==> WellFormedParams(r)
  {
    if |ps| == 0 then
      assert [p][0].key == p.key;
      [p]
    else if ps[0].key == p.key then
      var r := [p] + ps[1..];
      HasKeyCons(ps[0], ps[1..]);
      HasKeyCons(p, ps[1..]);
      assert ps == [ps[0]] + ps[1..];
      WellFormedCons(ps[0], ps[1..]);
      WellFormedCons(p, ps[1..]);
      r
    else
      var rest := Put(ps[1..], p);
      var r := [ps[0]] + rest;
      HasKeyCons(ps[0], ps[1..]);
      HasKeyCons(ps[0], rest);
      assert ps == [ps[0]] + ps[1..];
      assert !HasKey(ps, p.key) ==> rest == ps[1..] + [p];
      WellFormedCons(ps[0], ps[1..]);
      WellFormedCons(ps[0], rest);
      r
  }

  /** With distinct keys, assigning an existing key replaces exactly that pair and leaves every other pair in place. */
  lemma PutReplaces(ps: seq<Param>, p: Param, i: nat)
    requires DistinctKeys(ps) && i < |ps| && ps[i].key == p.key
    ensures |Put(ps, p)| == |ps|
    ensures Put(ps, p)[i] == p
    ensures forall j :: 0 <= j < |ps| && j != i ==> Put(ps, p)[j] == ps[j]
  {
    PutInPlace(ps, p);
    var r := Put(ps, p);
    var k :| 0 <= k < |r| && r[k] == p;
    assert r[k].key == ps[k].key;
  }

  /** Assigning an existing key keeps the length and every key in place; each pair is either the old one or the new one, and the new one is among them. */
  lemma {:induction false} PutInPlace(ps: seq<Param>, p: Param)
    requires HasKey(ps, p.key)
    ensures |Put(ps, p)| == |ps| && p in Put(ps, p)
    ensures forall i :: 0 <= i < |ps| ==> Put(ps, p)[i].key == ps[i].key && (Put(ps, p)[i] == ps[i] || Put(ps, p)[i] == p)
    decreases |ps|
  {
    var r := Put(ps, p);
    if ps[0].key == p.key {
      assert r == [p] + ps[1..];
      assert |r| == |ps| && p in r by {
        assert r[0] == p;
      }
      assert forall i :: 0 <= i < |ps| ==> r[i].key == ps[i].key && (r[i] == ps[i] || r[i] == p) by {
        assert forall i :: 1 <= i < |ps| ==> r[i] == ps[i];
      }
    } else {
      assert HasKey(ps[1..], p.key) by {
        var k :| 0 <= k < |ps| && ps[k].key == p.key;
        assert ps[1..][k - 1].key == p.key;
      }
      var rest := Put(ps[1..], p);
      assert r == [ps[0]] + rest;
      PutInPlace(ps[1..], p);
      assert p in r by {
        assert p in rest;
      }
      forall i | 0 <= i < |ps|
        ensures r[i].key == ps[i].key && (r[i] == ps[i] || r[i] == p)
      {
        if i > 0 {
          assert r[i] == rest[i - 1];
          assert ps[i] == ps[1..][i - 1];
        }
      }
    }
  }

  lemma HasKeyCons(p: Param, ps: seq<Param>)
    ensures forall k :: HasKey([p] + ps, k) <==> (p.key == k || HasKey(ps, k))
  {
    forall k
      ensures HasKey([p] + ps, k) <==> (p.key == k || HasKey(ps, k))
    {
      if HasKey(ps, k) {
        var i :| 0 <= i < |ps| && ps[i].key == k;
        assert ([p] + ps)[i + 1].key == k;
      }
      if HasKey([p] + ps, k) && p.key != k {
        var i :| 0 <= i < |[p] + ps| && ([p] + ps)[i].key == k;
        assert ps[i - 1].key == k;
      }
      if p.key == k {
        assert ([p] + ps)[0].key == k;
      }
    }
  }

  /** The segment loop of `parse_str`, continuing from the pairs already collected. */
  function Collect(acc: seq<Param>, segs: seq<string>): seq<Param>
    decreases |segs|
  {
    if |segs| == 0 then acc
    else
      var p := ParseSegment(segs[0]);
      Collect(if p.key == "" then acc else Put(acc, p), segs[1..])
  }

  /** `parse_str($q, $arr)`: the pairs of a query, empty names skipped, repeated names collapsed. */
  function ParseQuery(q: string): seq<Param> {
    Collect([], Split(q, '&'))
  }

  function RenderParam(p: Param): string {
    p.key + "=" + p.value
  }

  function RenderParams(ps: seq<Param>): (r: seq<string>)
    ensures |r| == |ps|
    ensures forall i :: 0 <= i < |ps| ==> r[i] == RenderParam(ps[i])
  {
    seq(|ps|, i requires 0 <= i < |ps| => RenderParam(ps[i]))
  }

  /** `http_build_query($arr)`: `key=value` pairs joined by `&`, empty for no pairs. */
  function BuildQuery(ps: seq<Param>): (r: string)
    ensures |ps| > 0 ==> r != ""
  {
    if |ps| == 0 then "" else Join(RenderParams(ps), '&')
  }

  lemma {:induction false} CollectInvariant(acc: seq<Param>, segs: seq<string>)
    requires WellFormedParams(acc)
    requires forall i :: 0 <= i < |segs| ==> '&' !in segs[i] && '#' !in segs[i]
    ensures WellFormedParams(Collect(acc, segs))
    decreases |segs|
  {
    if |segs| > 0 {
      var p := ParseSegment(segs[0]);
      assert p.key != "" ==> AtomicParam(p);
      CollectInvariant(if p.key == "" then acc else Put(acc, p), segs[1..]);
    }
  }

  /** Whatever `parse_str` returns for a query taken from a URL is well formed. */
  lemma ParseQueryWellFormed(q: string)
    requires '#' !in q
    ensures WellFormedParams(ParseQuery(q))
  {
    CollectInvariant([], Split(q, '&'));
  }

  lemma {:induction false} CollectRendered(acc: seq<Param>, ps: seq<Param>)
    requires WellFormedParams(acc + ps)
    ensures Collect(acc, RenderParams(ps)) == acc + ps
    decreases |ps|
  {
    if |ps| > 0 {
      var p := ps[0];
      assert AtomicParam((acc + ps)[|acc|]);
      SplitAtFirstUnique(p.key, '=', p.value);
      assert ParseSegment(RenderParams(ps)[0]) == p;
      assert forall i :: 0 <= i < |acc| ==> acc[i].key == (acc + ps)[i].key != (acc + ps)[|acc|].key;
      assert !HasKey(acc, p.key);
      assert RenderParams(ps)[1..] == RenderParams(ps[1..]);
      assert acc + ps == (acc + [p]) + ps[1..];
      CollectRendered(acc + [p], ps[1..]);
    }
  }

  /** Round trip: building a well-formed pair list and parsing it back gives the same list. */
  lemma ParseBuildQuery(ps: seq<Param>)
    requires WellFormedParams(ps)
    ensures ParseQuery(BuildQuery(ps)) == ps
  {
    if |ps| > 0 {
      SplitJoin(RenderParams(ps), '&');
      assert [] + ps == ps;
      CollectRendered([], ps);
    }
  }

  /** A base without query or fragment, followed by one atomic parameter, carries exactly that parameter. */
  lemma SingleParamQuery(base: string, p: Param)
    requires '?' !in base && '#' !in base
    requires AtomicParam(p)
    ensures ParseUrl(base + "?" + RenderParam(p)).query == Some(RenderParam(p))
    ensures ParseQuery(QueryField(base + "?" + RenderParam(p))) == [p]
  {
    var q := RenderParam(p);
    var parts := UrlParts(base, Some(q), None);
    assert Compose(parts) == base + "?" + q;
    ParseCompose(parts);
    assert WellFormedParams([p]);
    assert BuildQuery([p]) == q;
    ParseBuildQuery([p]);
  }

  lemma {:induction false} CollectConcat(acc: seq<Param>, xs: seq<string>, ys: seq<string>)
    ensures Collect(acc, xs + ys) == Collect(Collect(acc, xs), ys)
    decreases |xs|
  {
    if |xs| == 0 {
      assert xs + ys == ys;
    } else {
      assert (xs + ys)[1..] == xs[1..] + ys;
      var p := ParseSegment(xs[0]);
      CollectConcat(if p.key == "" then acc else Put(acc, p), xs[1..], ys);
    }
  }

  lemma {:induction false} CollectKeepsKeys(acc: seq<Param>, segs: seq<string>, k: string)
    requires HasKey(acc, k)
    ensures HasKey(Collect(acc, segs), k)
    decreases |segs|
  {
    if |segs| > 0 {
      var p := ParseSegment(segs[0]);
      CollectKeepsKeys(if p.key == "" then acc else Put(acc, p), segs[1..], k);
    }
  }

  /** A key can only come out of `Collect` if it was collected already or is named by some segment. */
  lemma {:induction false} CollectKeysFrom(acc: seq<Param>, segs: seq<string>, k: string)
    requires HasKey(Collect(acc, segs), k)
    ensures HasKey(acc, k) || exists i :: 0 <= i < |segs| && ParseSegment(segs[i]).key == k
    decreases |segs|
  {
    if |segs| > 0 {
      var p := ParseSegment(segs[0]);
      var acc' := if p.key == "" then acc else Put(acc, p);
      CollectKeysFrom(acc', segs[1..], k);
      if HasKey(acc', k) {
        if !HasKey(acc, k) { assert ParseSegment(segs[0]).key == k; }
      } else {
        var i :| 0 <= i < |segs[1..]| && ParseSegment(segs[1..][i]).key == k;
        assert ParseSegment(segs[i + 1]).key == k;
      }
    }
  }

  // ---------------------------------------------------------------------------
  // Adding and removing parameters
  // ---------------------------------------------------------------------------

  /** `appendParam`: join with `&` when the URL already has a `?`, otherwise with `?`. */
  function AppendParam(url: string, paramStr: string): (r: string)
    ensures '?' in url ==> r == url + "&" + paramStr
    ensures '?' !in url ==> r == url + "?" + paramStr
  {
    IndexOfChar(url, '?');
    if IndexOf(url, "?").None? then url + "?" + paramStr else url + "&" + paramStr
  }

  /** A rendered atomic pair is one query segment, and parsing it gives the pair back. */
  lemma RenderedSegment(p: Param)
    requires AtomicParam(p)
    ensures Split(RenderParam(p), '&') == [RenderParam(p)]
    ensures ParseSegment(RenderParam(p)) == p
  {
    SplitAtFirstUnique(p.key, '=', p.value);
    SplitJoin([RenderParam(p)], '&');
  }

  /** Parsing a query with one more atomic pair after a `&` puts that pair into the parsed query. */
  lemma ParseQueryAppend(q: string, p: Param)
    requires AtomicParam(p)
    ensures ParseQuery(q + "&" + RenderParam(p)) == Put(ParseQuery(q), p)
  {
    var s := RenderParam(p);
    RenderedSegment(p);
    SplitConcat(q, '&', s);
    CollectConcat([], Split(q, '&'), [s]);
    var acc := Collect([], Split(q, '&'));
    assert Collect(acc, [s]) == Put(acc, p);
  }

  /** A pair appended to a fragment-less URL is put into its parsed query, whether or not it had one. */
  lemma AppendParamParsed(url: string, p: Param)
    requires '#' !in url
    requires AtomicParam(p)
    ensures ParseUrl(AppendParam(url, RenderParam(p))).query.Some?
    ensures ParseQuery(QueryField(AppendParam(url, RenderParam(p)))) == Put(ParseQuery(QueryField(url)), p)
  {
    var s := RenderParam(p);
    if '?' !in url {
      SingleParamQuery(url, p);
      assert ParseQuery(QueryField(url)) == [];
    } else {
      var (b, q) := SplitAtFirst(url, '?');
      var q0 := q.value;
      var r := url + "&" + s;
      assert r == b + ['?'] + (q0 + ['&'] + s);
      assert '#' !in s;
      SplitAtFirstUnique(b, '?', q0 + ['&'] + s);
      assert QueryField(url) == q0;
      assert QueryField(r) == q0 + "&" + s;
      ParseQueryAppend(q0, p);
    }
  }

  /** A pair appended to a fragment-less URL is found under its key when the query is parsed. */
  lemma AppendedKeyPresent(url: string, p: Param)
    requires '#' !in url
    requires p.key != "" && '&' !in p.key && '=' !in p.key && '#' !in p.key
    requires '&' !in p.value && '#' !in p.value
    ensures ParseUrl(AppendParam(url, RenderParam(p))).query.Some?
    ensures HasKey(ParseQuery(QueryField(AppendParam(url, RenderParam(p)))), p.key)
  {
    AppendParamParsed(url, p);
  }

  /** The pairs whose key is not among `names`, in their original order. */
  function WithoutKeys(ps: seq<Param>, names: seq<string>): (r: seq<Param>)
    ensures forall p :: p in r <==> p in ps && p.key !in names
    ensures WellFormedParams(ps) ==> WellFormedParams(r)
  {
    if |ps| == 0 then []
    else
      var rest := WithoutKeys(ps[1..], names);
      var r := if ps[0].key in names then rest else [ps[0]] + rest;
      assert ps == [ps[0]] + ps[1..];
      assert forall p :: p in ps <==> p == ps[0] || p in ps[1..];
      assert WellFormedParams(ps) ==> WellFormedParams(r) by {
        if WellFormedParams(ps) {
          WellFormedCons(ps[0], ps[1..]);
          if ps[0].key !in names {
            assert !HasKey(rest, ps[0].key) by {
              forall i | 0 <= i < |rest| ensures rest[i].key != ps[0].key {
                assert rest[i] in ps[1..];
              }
            }
            WellFormedCons(ps[0], rest);
          }
        }
      }
      r
  }

  /** Removing keys keeps the surviving pairs in their order and with their multiplicity, and drops every pair of a named key. */
  lemma {:induction false} WithoutKeysKeeps(ps: seq<Param>, names: seq<string>)
    ensures IsSubsequence(WithoutKeys(ps, names), ps)
    ensures forall p :: multiset(WithoutKeys(ps, names))[p] == if p.key in names then 0 else multiset(ps)[p]
    decreases |ps|
  {
    if |ps| > 0 {
      WithoutKeysKeeps(ps[1..], names);
      var rest := WithoutKeys(ps[1..], names);
      var r := WithoutKeys(ps, names);
      assert IsSubsequence(r, ps) by {
        if ps[0].key !in names {
          assert r == [ps[0]] + rest;
          assert r[0] == ps[0] && r[1..] == rest;
        } else {
          assert r == rest;
        }
      }
      assert forall p :: multiset(r)[p] == if p.key in names then 0 else multiset(ps)[p] by {
        assert ps == [ps[0]] + ps[1..];
        assert multiset(ps) == multiset([ps[0]]) + multiset(ps[1..]);
        if ps[0].key !in names {
          assert r == [ps[0]] + rest;
          assert multiset(r) == multiset([ps[0]]) + multiset(rest);
        } else {
          assert r == rest;
        }
      }
    }
  }

  /**
   `removeCustomParams`: a URL without a query is returned as is; otherwise the
   named keys are dropped from the parsed query, the base and fragment are kept,
   and `?` is written only when some pair remains.
   */
  function RemoveParams(url: string, names: seq<string>): (r: string)
    ensures ParseUrl(url).query.None? ==> r == url
    ensures ParseUrl(url).query.Some? ==>
              && ParseUrl(r).base == ParseUrl(url).base
              && ParseUrl(r).fragment == ParseUrl(url).fragment
              && ParseQuery(QueryField(r)) == WithoutKeys(ParseQuery(QueryField(url)), names)
              && (ParseUrl(r).query.Some? <==> WithoutKeys(ParseQuery(QueryField(url)), names) != [])
  {
    var p := ParseUrl(url);
    match p.query
    case None => url
    case Some(q) =>
      ParseQueryWellFormed(q);
      var kept := WithoutKeys(ParseQuery(q), names);
      var nq := BuildQuery(kept);
      var parts := UrlParts(p.base, if nq != "" then Some(nq) else None, p.fragment);
      assert WellFormedParts(parts) by {
        if nq != "" {
          assert forall i :: 0 <= i < |RenderParams(kept)| ==> '#' !in RenderParams(kept)[i];
          JoinAvoids(RenderParams(kept), '&', '#');
        }
      }
      ParseCompose(parts);
      ParseBuildQuery(kept);
      Compose(parts)
  }

  lemma {:induction false} JoinAvoids(xs: seq<string>, c: char, d: char)
    requires |xs| >= 1 && c != d
    requires forall i :: 0 <= i < |xs| ==> d !in xs[i]
    ensures d !in Join(xs, c)
  {
    if |xs| > 1 {
      JoinAvoids(xs[1..], c, d);
    }
  }

  /** After removal none of the named keys is left in the query. */
  lemma RemovedKeysAbsent(url: string, names: seq<string>, k: string)
    requires k in names
    requires ParseUrl(url).query.Some?
    ensures !HasKey(ParseQuery(QueryField(RemoveParams(url, names))), k)
  {
    var kept := WithoutKeys(ParseQuery(QueryField(url)), names);
    assert forall i :: 0 <= i < |kept| ==> kept[i] in kept;
  }

  /** The standard UTM parameters. */
  const UtmKeys: seq<string> := ["utm_source", "utm_medium", "utm_campaign", "utm_content", "utm_term"]

  /** The common tracking parameters. */
  const TrackingKeys: seq<string> := [
    "fbclid", "gclid", "msclkid", "dclid", "twclid", "igshid", "ttclid", "li_fat_id",
    "_hsmi", "_hsenc", "mc_cid", "mc_eid", "mkt_tok", "trk", "trkCampaign",
    "ir", "ref", "referer", "referrer"
  ]

  function RemoveUtmParams(url: string): string {
    RemoveParams(url, UtmKeys)
  }

  function RemoveTrackingParams(url: string): string {
    RemoveParams(url, TrackingKeys)
  }

  /** One entry of an `add_custom_params` action; either part may be missing. */
  datatype CustomParam = CustomParam(name: Option<string>, value: Option<string>)

  predicate IsUsableParam(p: CustomParam) {
    p.name.Some? && p.value.Some? && !PhpEmpty(p.name.value) && !PhpEmpty(p.value.value)
  }

  /** The pair a usable entry is sent as: both parts url-encoded. */
  function EncodeParam(p: CustomParam): Param
    requires IsUsableParam(p)
  {
    Param(UrlEncode(p.name.value), UrlEncode(p.value.value))
  }

  /** The `urlencode(name)=urlencode(value)` pairs of the usable entries, in order. */
  function EncodedParams(ps: seq<CustomParam>): (r: seq<Param>)
    ensures |r| <= |ps|
    ensures forall i :: 0 <= i < |r| ==>
              && '&' !in r[i].key && '=' !in r[i].key && '#' !in r[i].key
              && '&' !in r[i].value && '#' !in r[i].value
    ensures r == [] <==> forall i :: 0 <= i < |ps| ==> !IsUsableParam(ps[i])
  {
    if |ps| == 0 then []
    else
      var rest := EncodedParams(ps[1..]);
      if IsUsableParam(ps[0]) then
        var n := UrlEncode(ps[0].name.value);
        var v := UrlEncode(ps[0].value.value);
        assert '&' !in n && '=' !in n && '#' !in n && '&' !in v && '#' !in v by {
          assert !IsUrlEncodedChar('&') && !IsUrlEncodedChar('=') && !IsUrlEncodedChar('#');
        }
        [Param(n, v)] + rest
      else
        assert forall i :: 1 <= i < |ps| ==> ps[i] == ps[1..][i - 1];
        rest
  }

  /** A pair is sent exactly when it is the encoding of some usable entry. */
  lemma {:induction false} EncodedParamsMembers(ps: seq<CustomParam>, q: Param)
    ensures q in EncodedParams(ps) <==> exists i :: 0 <= i < |ps| && IsUsableParam(ps[i]) && q == EncodeParam(ps[i])
    decreases |ps|
  {
    if |ps| > 0 {
      var head := if IsUsableParam(ps[0]) then [EncodeParam(ps[0])] else [];
      assert EncodedParams(ps) == head + EncodedParams(ps[1..]);
      assert q in EncodedParams(ps) <==> q in head || q in EncodedParams(ps[1..]);
      EncodedParamsMembers(ps[1..], q);
      if exists i :: 1 <= i < |ps| && IsUsableParam(ps[i]) && q == EncodeParam(ps[i]) {
        var i :| 1 <= i < |ps| && IsUsableParam(ps[i]) && q == EncodeParam(ps[i]);
        assert ps[1..][i - 1] == ps[i];
      }
      if exists i :: 0 <= i < |ps[1..]| && IsUsableParam(ps[1..][i]) && q == EncodeParam(ps[1..][i]) {
        var i :| 0 <= i < |ps[1..]| && IsUsableParam(ps[1..][i]) && q == EncodeParam(ps[1..][i]);
        assert ps[i + 1] == ps[1..][i];
      }
    }
  }

  /** The encoding works entry by entry, so it keeps the order of the entries. */
  lemma {:induction false} EncodedParamsConcat(xs: seq<CustomParam>, ys: seq<CustomParam>)
    ensures EncodedParams(xs + ys) == EncodedParams(xs) + EncodedParams(ys)
    decreases |xs|
  {
    if |xs| == 0 {
      assert xs + ys == ys;
    } else {
      assert (xs + ys)[0] == xs[0];
      assert (xs + ys)[1..] == xs[1..] + ys;
      EncodedParamsConcat(xs[1..], ys);
    }
  }

  /** `addCustomParams`: usable entries are url-encoded and appended as one `&`-joined batch. */
  function AddCustomParams(url: string, ps: seq<CustomParam>): (r: string)
    ensures (forall i :: 0 <= i < |ps| ==> !IsUsableParam(ps[i])) ==> r == url
    ensures (exists i :: 0 <= i < |ps| && IsUsableParam(ps[i])) ==>
              r == AppendParam(url, BuildQuery(EncodedParams(ps)))
  {
    var encoded := EncodedParams(ps);
    if encoded == [] then url else AppendParam(url, BuildQuery(encoded))
  }

  /** A single usable entry whose name needs no encoding is appended as `name=urlencode(value)`. */
  lemma SingleCustomParam(url: string, name: string, value: string)
    requires !PhpEmpty(name) && forall i :: 0 <= i < |name| ==> IsUnreserved(name[i])
    requires !PhpEmpty(value)
    ensures AddCustomParams(url, [CustomParam(Some(name), Some(value))])
            == AppendParam(url, RenderParam(Param(name, UrlEncode(value))))
  {
    var ps := [CustomParam(Some(name), Some(value))];
    var p := Param(name, UrlEncode(value));
    assert IsUsableParam(ps[0]);
    assert EncodedParams(ps) == [p] by {
      assert EncodedParams(ps[1..]) == [];
    }
    assert BuildQuery([p]) == RenderParam(p);
  }

  /** On a URL without fragment, that single entry is put into the parsed query under its name. */
  lemma SingleCustomParamParsed(url: string, name: string, value: string)
    requires '#' !in url
    requires !PhpEmpty(name) && forall i :: 0 <= i < |name| ==> IsUnreserved(name[i])
    requires !PhpEmpty(value)
    ensures var u := AddCustomParams(url, [CustomParam(Some(name), Some(value))]);
      && ParseUrl(u).query.Some?
      && ParseQuery(QueryField(u)) == Put(ParseQuery(QueryField(url)), Param(name, UrlEncode(value)))
  {
    var p := Param(name, UrlEncode(value));
    SingleCustomParam(url, name, value);
    EncodedParamAtomic(name, value);
    AppendParamParsed(url, p);
  }

  /** A name of unreserved characters with an encoded value makes a pair that cannot split a query. */
  lemma EncodedParamAtomic(name: string, value: string)
    requires !PhpEmpty(name) && forall i :: 0 <= i < |name| ==> IsUnreserved(name[i])
    ensures AtomicParam(Param(name, UrlEncode(value)))
  {
    assert !IsUrlEncodedChar('&') && !IsUrlEncodedChar('#');
    assert !IsUnreserved('&') && !IsUnreserved('=') && !IsUnreserved('#');
  }

  /** The text `add_utm` sends for one entry: `utm_<param>=urlencode(value)`. */
  function UtmPair(entry: (string, string)): string {
    "utm_" + entry.0 + "=" + UrlEncode(entry.1)
  }

  /** The pairs for every truthy value of an `add_utm` action, in order. */
  function UtmPairs(data: seq<(string, string)>): (r: seq<string>)
    ensures |r| <= |data|
    ensures forall i :: 0 <= i < |data| && !PhpEmpty(data[i].1) ==> UtmPair(data[i]) in r
    ensures forall t :: t in r ==> exists i :: 0 <= i < |data| && !PhpEmpty(data[i].1) && t == UtmPair(data[i])
  {
    if |data| == 0 then []
    else
      var rest := UtmPairs(data[1..]);
      assert forall i :: 1 <= i < |data| ==> data[i] == data[1..][i - 1];
      if PhpEmpty(data[0].1) then rest else [UtmPair(data[0])] + rest
  }

  /** The pairs are produced entry by entry, so they keep the order of the entries. */
  lemma {:induction false} UtmPairsConcat(xs: seq<(string, string)>, ys: seq<(string, string)>)
    ensures UtmPairs(xs + ys) == UtmPairs(xs) + UtmPairs(ys)
    decreases |xs|
  {
    if |xs| == 0 {
      assert xs + ys == ys;
    } else {
      assert (xs + ys)[0] == xs[0];
      assert (xs + ys)[1..] == xs[1..] + ys;
      UtmPairsConcat(xs[1..], ys);
    }
  }

  /** A pair whose parameter name has no `&` or `#` has none either: the value is encoded. */
  lemma UtmPairSegment(entry: (string, string))
    requires '&' !in entry.0 && '#' !in entry.0
    ensures '&' !in UtmPair(entry) && '#' !in UtmPair(entry)
  {
    var v := UrlEncode(entry.1);
    assert '&' !in v && '#' !in v by {
      assert !IsUrlEncodedChar('&') && !IsUrlEncodedChar('#');
    }
  }

  /** With names free of `&` and `#`, every pair is one query segment. */
  lemma {:induction false} UtmPairsSegments(data: seq<(string, string)>)
    requires forall i :: 0 <= i < |data| ==> '&' !in data[i].0 && '#' !in data[i].0
    ensures forall j :: 0 <= j < |UtmPairs(data)| ==> '&' !in UtmPairs(data)[j] && '#' !in UtmPairs(data)[j]
    decreases |data|
  {
    if |data| > 0 {
      assert forall i :: 0 <= i < |data[1..]| ==> data[1..][i] == data[i + 1];
      UtmPairsSegments(data[1..]);
      UtmPairSegment(data[0]);
    }
  }

  // ---------------------------------------------------------------------------
  // Reading appended parameters back
  // ---------------------------------------------------------------------------

  /**
   Appending `&`-joined segments to a fragment-less URL and parsing its query
   gives the URL's own pairs with the segments collected after them, as if
   `parse_str` had read them in a second pass.
   */
  lemma AppendedSegmentsParsed(url: string, segs: seq<string>)
    requires '#' !in url
    requires |segs| >= 1
    requires forall i :: 0 <= i < |segs| ==> '&' !in segs[i] && '#' !in segs[i]
    ensures ParseQuery(QueryField(AppendParam(url, Join(segs, '&'))))
            == Collect(ParseQuery(QueryField(url)), segs)
  {
    var s := Join(segs, '&');
    JoinAvoids(segs, '&', '#');
    SplitJoin(segs, '&');
    QueryOfAppended(url, s);
    if ParseUrl(url).query.None? {
      assert QueryField(url) == "";
      assert Split("", '&') == [""];
      assert ParseQuery("") == [];
    } else {
      var q0 := QueryField(url);
      SplitConcat(q0, '&', s);
      CollectConcat([], Split(q0, '&'), segs);
    }
  }

  /** The query of a fragment-less URL after `appendParam`: the appended text, after the old query and `&` when there was one. */
  lemma QueryOfAppended(url: string, s: string)
    requires '#' !in url && '#' !in s
    ensures ParseUrl(url).query.None? ==> QueryField(AppendParam(url, s)) == s
    ensures ParseUrl(url).query.Some? ==> QueryField(AppendParam(url, s)) == QueryField(url) + "&" + s
  {
    var r := AppendParam(url, s);
    assert '#' !in r;
    assert SplitAtFirst(r, '#') == (r, None);
    assert SplitAtFirst(url, '#') == (url, None);
    var (b, q) := SplitAtFirst(url, '?');
    if q.None? {
      assert r == url + ['?'] + s;
      SplitAtFirstUnique(url, '?', s);
    } else {
      var q0 := q.value;
      assert url == b + ['?'] + q0;
      assert '?' in url by { assert url[|b|] == '?'; }
      assert r == b + ['?'] + (q0 + ['&'] + s);
      SplitAtFirstUnique(b, '?', q0 + ['&'] + s);
    }
  }

  /** A segment that names a key leaves that key in the collected pairs. */
  lemma {:induction false} CollectHasSegmentKey(acc: seq<Param>, segs: seq<string>, i: nat)
    requires i < |segs| && ParseSegment(segs[i]).key != ""
    ensures HasKey(Collect(acc, segs), ParseSegment(segs[i]).key)
    decreases |segs|
  {
    var p := ParseSegment(segs[0]);
    var acc' := if p.key == "" then acc else Put(acc, p);
    if i == 0 {
      CollectKeepsKeys(acc', segs[1..], p.key);
    } else {
      assert segs[1..][i - 1] == segs[i];
      CollectHasSegmentKey(acc', segs[1..], i - 1);
    }
  }

  /**
   After `add_custom_params`, the query of a fragment-less URL reads as its
   earlier pairs with the encoded pairs collected after them.
   */
  lemma AddCustomParamsParsed(url: string, ps: seq<CustomParam>)
    requires '#' !in url
    ensures ParseQuery(QueryField(AddCustomParams(url, ps)))
            == Collect(ParseQuery(QueryField(url)), RenderParams(EncodedParams(ps)))
  {
    var encoded := EncodedParams(ps);
    var segs := RenderParams(encoded);
    if encoded != [] {
      assert forall j :: 0 <= j < |segs| ==> '&' !in segs[j] && '#' !in segs[j];
      AppendedSegmentsParsed(url, segs);
    }
  }

  /** After `add_custom_params` on a fragment-less URL, every usable entry's encoded name is a key of the query. */
  lemma AddCustomParamsKeys(url: string, ps: seq<CustomParam>, i: nat)
    requires '#' !in url
    requires i < |ps| && IsUsableParam(ps[i])
    ensures HasKey(ParseQuery(QueryField(AddCustomParams(url, ps))), UrlEncode(ps[i].name.value))
  {
    var encoded := EncodedParams(ps);
    var segs := RenderParams(encoded);
    AddCustomParamsParsed(url, ps);
    var q := EncodeParam(ps[i]);
    EncodedParamsMembers(ps, q);
    var j :| 0 <= j < |encoded| && encoded[j] == q;
    assert '=' !in q.key;
    SplitAtFirstUnique(q.key, '=', q.value);
    assert ParseSegment(segs[j]) == q;
    UrlEncodeNonEmpty(ps[i].name.value);
    CollectHasSegmentKey(ParseQuery(QueryField(url)), segs, j);
  }
}
