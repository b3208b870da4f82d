/**
 The PHP string primitives the rule engine relies on, restated over `seq<char>`.

 Case-insensitive PHP functions (`stripos`, `strcasecmp`, `strtolower`) fold
 ASCII letters only, which is what PHP 8 does regardless of locale.
 */
module PhpStrings {
  import opened Wrappers

  // ---------------------------------------------------------------------------
  // ASCII case folding
  // ---------------------------------------------------------------------------

  function LowerChar(c: char): char {
    if 'A' <= c <= 'Z' then (c as int + 32) as char else c
  }

  /** `strtolower`: every ASCII capital replaced by its small letter, nothing else changed. */
  function Lower(s: string): (r: string)
    ensures |r| == |s|
    ensures forall i :: 0 <= i < |s| ==> r[i] == LowerChar(s[i])
    ensures forall i :: 0 <= i < |r| ==> !('A' <= r[i] <= 'Z')
  {
    seq(|s|, i requires 0 <= i < |s| => LowerChar(s[i]))
  }

  lemma LowerIdempotent(s: string)
    ensures Lower(Lower(s)) == Lower(s)
  {
  }

  /** `strcasecmp(a, b) === 0`. */
  predicate CaseEq(a: string, b: string) {
    Lower(a) == Lower(b)
  }

  // ---------------------------------------------------------------------------
  // Substring search
  // ---------------------------------------------------------------------------

  predicate OccursAt(h: string, n: string, i: nat) {
    i + |n| <= |h| && h[i..i + |n|] == n
  }

  /** First position at or after `from` where `n` occurs in `h`. */
  function IndexOfFrom(h: string, n: string, from: nat): (r: Option<nat>)
    requires from <= |h|
    ensures r.Some? ==> from <= r.value && OccursAt(h, n, r.value)
    ensures r.Some? ==> forall j :: from <= j < r.value ==> !OccursAt(h, n, j)
    ensures r.None? ==> forall j :: from <= j <= |h| ==> !OccursAt(h, n, j)
    decreases |h| - from
  {
    if OccursAt(h, n, from) then Some(from)
    else if from == |h| then None
    else IndexOfFrom(h, n, from + 1)
  }

  /** `strpos(h, n)`: the first occurrence of `n` in `h` (an empty needle occurs at 0, as in PHP 8). */
  function IndexOf(h: string, n: string): (r: Option<nat>)
    ensures r.Some? ==> OccursAt(h, n, r.value)
    ensures r.Some? ==> forall j :: 0 <= j < r.value ==> !OccursAt(h, n, j)
    ensures r.None? ==> forall j :: 0 <= j <= |h| ==> !OccursAt(h, n, j)
  {
    IndexOfFrom(h, n, 0)
  }

  /** For a one-character needle, `strpos` fails exactly when the character is absent, and otherwise points at it. */
  lemma IndexOfChar(h: string, c: char)
    ensures IndexOf(h, [c]).None? <==> c !in h
    ensures IndexOf(h, [c]).Some? ==> IndexOf(h, [c]).value < |h| && h[IndexOf(h, [c]).value] == c
  {
    var r := IndexOf(h, [c]);
    if r.None? {
      forall k | 0 <= k < |h|
        ensures h[k] != c
      {
        assert !OccursAt(h, [c], k);
        assert h[k..k + 1] == [h[k]];
      }
    } else {
      assert OccursAt(h, [c], r.value);
      assert h[r.value..r.value + 1] == [c];
      assert h[r.value] in h;
    }
  }

  /** `stripos(h, n)`: `strpos` after ASCII folding of both arguments. */
  function IndexOfCi(h: string, n: string): Option<nat> {
    IndexOf(Lower(h), Lower(n))
  }

  /** `stripos(h, n) !== false`. */
  predicate ContainsCi(h: string, n: string) {
    IndexOfCi(h, n).Some?
  }

  /** `stripos(h, n) === 0` holds exactly when `n` is a case-insensitive prefix of `h`. */
  lemma IndexOfZeroIsPrefix(h: string, n: string)
    ensures IndexOf(h, n) == Some(0) <==> n <= h
  {
    if n <= h {
      assert h[0..|n|] == n;
      assert OccursAt(h, n, 0);
    }
  }

  /** `stripos(h, n) !== false` holds exactly when the folded needle occurs somewhere in the folded haystack. */
  lemma ContainsCiIffOccurs(h: string, n: string)
    ensures ContainsCi(h, n) <==> exists i :: 0 <= i <= |h| && OccursAt(Lower(h), Lower(n), i)
  {
  }

  /** `str_ends_with(h, n)`. */
  predicate HasSuffix(h: string, n: string) {
    |n| <= |h| && h[|h| - |n|..] == n
  }

  // ---------------------------------------------------------------------------
  // PHP truthiness of strings
  // ---------------------------------------------------------------------------

  /** `empty($s)` for a string: both `""` and `"0"` count as empty. */
  predicate PhpEmpty(s: string) {
    s == "" || s == "0"
  }

  // ---------------------------------------------------------------------------
  // Trimming
  // ---------------------------------------------------------------------------

  /** The characters `trim` strips by default: space, tab, LF, CR, NUL and vertical tab. */
  predicate IsTrimSpace(c: char) {
    c == ' ' || c == '\t' || c == '\n' || c == '\r' || c == '\0' || c == '\U{B}'
  }

  function TrimLeft(s: string): (r: string)
    ensures |r| <= |s| && r == s[|s| - |r|..]
    ensures |r| > 0 ==> !IsTrimSpace(r[0])
    ensures forall i :: 0 <= i < |s| - |r| ==> IsTrimSpace(s[i])
  {
    if |s| > 0 && IsTrimSpace(s[0]) then
      var r := TrimLeft(s[1..]);
      assert s[1..][|s| - 1 - |r|..] == s[|s| - |r|..];
      assert forall i :: 1 <= i < |s| - |r| ==> s[i] == s[1..][i - 1];
      r
    else s
  }

  function TrimRight(s: string): (r: string)
    ensures |r| <= |s| && r == s[..|r|]
    ensures |r| > 0 ==> !IsTrimSpace(r[|r| - 1])
    ensures forall i :: |r| <= i < |s| ==> IsTrimSpace(s[i])
  {
    if |s| > 0 && IsTrimSpace(s[|s| - 1]) then TrimRight(s[..|s| - 1]) else s
  }

  /** `r` sits in `s` at offset `i`, and everything of `s` before and after it is blank. */
  predicate TrimmedAt(s: string, r: string, i: nat) {
    && i + |r| <= |s|
    && (forall k :: 0 <= k < |r| ==> r[k] == s[i + k])
    && (forall k :: 0 <= k < i ==> IsTrimSpace(s[k]))
    && (forall k :: i + |r| <= k < |s| ==> IsTrimSpace(s[k]))
  }

  /** `trim($s)`: the longest infix without leading or trailing blanks. */
  function Trim(s: string): (r: string)
    ensures |r| > 0 ==> !IsTrimSpace(r[0]) && !IsTrimSpace(r[|r| - 1])
    ensures |r| <= |s|
    ensures exists i :: TrimmedAt(s, r, i)
  {
    var left := TrimLeft(s);
    var r := TrimRight(left);
    TrimLocated(s);
    r
  }

  /** Where the trimmed text sits: right after the blanks `TrimLeft` skipped. */
  lemma TrimLocated(s: string)
    ensures TrimmedAt(s, TrimRight(TrimLeft(s)), |s| - |TrimLeft(s)|)
  {
    var left := TrimLeft(s);
    var r := TrimRight(left);
    TrimmedInfix(s, left, r);
  }

  /** Blanks stripped from the front, then from the back of what remained, leave an infix with blanks around it. */
  lemma TrimmedInfix(s: string, left: string, r: string)
    requires |left| <= |s| && left == s[|s| - |left|..]
    requires forall k :: 0 <= k < |s| - |left| ==> IsTrimSpace(s[k])
    requires |r| <= |left| && r == left[..|r|]
    requires forall k :: |r| <= k < |left| ==> IsTrimSpace(left[k])
    ensures TrimmedAt(s, r, |s| - |left|)
  {
    PrefixOfSuffix(s, left, r);
    BlankTailOfSuffix(s, left, |r|);
  }

  /** A prefix of a suffix of `s` sits in `s` where that suffix starts. */
  lemma PrefixOfSuffix<T>(s: seq<T>, left: seq<T>, r: seq<T>)
    requires |left| <= |s| && left == s[|s| - |left|..]
    requires |r| <= |left| && r == left[..|r|]
    ensures forall k :: 0 <= k < |r| ==> r[k] == s[|s| - |left| + k]
  {
    var i := |s| - |left|;
    forall k | 0 <= k < |r|
      ensures r[k] == s[i + k]
    {
      assert r[k] == left[k] && left[k] == s[i + k];
    }
  }

  /** Blanks at the end of a suffix of `s` are blanks at the end of `s`. */
  lemma BlankTailOfSuffix(s: string, left: string, n: nat)
    requires |left| <= |s| && left == s[|s| - |left|..]
    requires n <= |left|
    requires forall k :: n <= k < |left| ==> IsTrimSpace(left[k])
    ensures forall k :: |s| - |left| + n <= k < |s| ==> IsTrimSpace(s[k])
  {
    var i := |s| - |left|;
    forall k | i + n <= k < |s|
      ensures IsTrimSpace(s[k])
    {
      assert s[k] == left[k - i];
    }
  }

  /** `rtrim($s, '/')`: every trailing slash removed, the rest kept. */
  function RTrimSlash(s: string): (r: string)
    ensures |r| <= |s| && r == s[..|r|]
    ensures |r| > 0 ==> r[|r| - 1] != '/'
    ensures forall i :: |r| <= i < |s| ==> s[i] == '/'
  {
    if |s| > 0 && s[|s| - 1] == '/' then RTrimSlash(s[..|s| - 1]) else s
  }

  // ---------------------------------------------------------------------------
  // htmlspecialchars (ENT_QUOTES, PHP 8.1 default)
  // ---------------------------------------------------------------------------

  predicate IsHtmlSpecial(c: char) {
    c == '&' || c == '"' || c == '\'' || c == '<' || c == '>'
  }

  function EscapeChar(c: char): string {
    match c
    case '&' => "&amp;"
    case '"' => "&quot;"
    case '\'' => "&#039;"
    case '<' => "&lt;"
    case '>' => "&gt;"
    case _ => [c]
  }

  /** A value that can neither end a quoted attribute (either quote) nor open or close a tag. */
  predicate MarkupFree(s: string) {
    forall i :: 0 <= i < |s| ==> s[i] != '"' && s[i] != '\'' && s[i] != '<' && s[i] != '>'
  }

  /** `htmlspecialchars($s)`: the result cannot open a tag or close an attribute value. */
  function HtmlEscape(s: string): (r: string)
    ensures forall i :: 0 <= i < |r| ==> r[i] != '<' && r[i] != '>' && r[i] != '"' && r[i] != '\''
    ensures (forall i :: 0 <= i < |s| ==> !IsHtmlSpecial(s[i])) ==> r == s
  {
    if |s| == 0 then "" else EscapeChar(s[0]) + HtmlEscape(s[1..])
  }

  /**
   `htmlspecialchars_decode($s, ENT_QUOTES)`: the five entities `htmlspecialchars`
   writes are read back as their characters; anything else is kept.
   */
  function HtmlUnescape(s: string): string
    decreases |s|
  {
    if |s| == 0 then ""
    else if "&amp;" <= s then "&" + HtmlUnescape(s[5..])
    else if "&quot;" <= s then "\"" + HtmlUnescape(s[6..])
    else if "&#039;" <= s then "'" + HtmlUnescape(s[6..])
    else if "&lt;" <= s then "<" + HtmlUnescape(s[4..])
    else if "&gt;" <= s then ">" + HtmlUnescape(s[4..])
    else [s[0]] + HtmlUnescape(s[1..])
  }

  /** Decoding reads one escaped character back and continues after it. */
  lemma UnescapeEscapedChar(c: char, t: string)
    ensures HtmlUnescape(EscapeChar(c) + t) == [c] + HtmlUnescape(t)
  {
    var s := EscapeChar(c) + t;
    if !IsHtmlSpecial(c) {
      assert s[0] == c && s[1..] == t;
    } else if c == '&' {
      assert "&amp;" <= s && s[5..] == t;
    } else if c == '"' {
      assert !("&amp;" <= s) by { assert s[1] == 'q'; }
      assert "&quot;" <= s && s[6..] == t;
    } else if c == '\'' {
      assert !("&amp;" <= s) && !("&quot;" <= s) by { assert s[1] == '#'; }
      assert "&#039;" <= s && s[6..] == t;
    } else if c == '<' {
      assert !("&amp;" <= s) && !("&quot;" <= s) && !("&#039;" <= s) by { assert s[1] == 'l'; }
      assert "&lt;" <= s && s[4..] == t;
    } else {
      assert !("&amp;" <= s) && !("&quot;" <= s) && !("&#039;" <= s) && !("&lt;" <= s) by { assert s[1] == 'g'; }
      assert "&gt;" <= s && s[4..] == t;
    }
  }

  /** Round trip: decoding an escaped text gives the text back. */
  lemma {:induction false} HtmlEscapeRoundTrip(s: string)
    ensures HtmlUnescape(HtmlEscape(s)) == s
    decreases |s|
  {
    if |s| > 0 {
      UnescapeEscapedChar(s[0], HtmlEscape(s[1..]));
      HtmlEscapeRoundTrip(s[1..]);
      assert [s[0]] + s[1..] == s;
    }
  }

  // ---------------------------------------------------------------------------
  // urlencode
  // ---------------------------------------------------------------------------

  /** Characters `urlencode` leaves as they are. */
  predicate IsUnreserved(c: char) {
    ('a' <= c <= 'z') || ('A' <= c <= 'Z') || ('0' <= c <= '9') || c == '-' || c == '_' || c == '.'
  }

  /** Characters that can appear in the output of `urlencode`. */
  predicate IsUrlEncodedChar(c: char) {
    IsUnreserved(c) || c == '+' || c == '%'
  }

  /** The UTF-8 encoding of one Unicode scalar value (PHP strings hold UTF-8 bytes). */
  function Utf8(c: char): (r: seq<nat>)
    ensures 1 <= |r| <= 4
    ensures forall i :: 0 <= i < |r| ==> r[i] < 256
    ensures (c as int) < 0x80 ==> r == [c as int]
  {
    var n := c as int;
    if n < 0x80 then [n]
    else if n < 0x800 then [0xC0 + n / 64, 0x80 + n % 64]
    else if n < 0x10000 then [0xE0 + n / 4096, 0x80 + (n / 64) % 64, 0x80 + n % 64]
    else [0xF0 + n / 262144, 0x80 + (n / 4096) % 64, 0x80 + (n / 64) % 64, 0x80 + n % 64]
  }

  function HexDigit(d: nat): (r: char)
    requires d < 16
    ensures ('0' <= r <= '9') || ('A' <= r <= 'F')
  {
    if d < 10 then ('0' as int + d) as char else ('A' as int + d - 10) as char
  }

  function PercentBytes(bs: seq<nat>): (r: string)
    requires forall i :: 0 <= i < |bs| ==> bs[i] < 256
    ensures |r| == 3 * |bs|
    ensures forall i :: 0 <= i < |r| ==> IsUrlEncodedChar(r[i])
  {
    if |bs| == 0 then ""
    else ['%', HexDigit(bs[0] / 16), HexDigit(bs[0] % 16)] + PercentBytes(bs[1..])
  }

  function UrlEncodeChar(c: char): (r: string)
    ensures forall i :: 0 <= i < |r| ==> IsUrlEncodedChar(r[i])
    ensures IsUnreserved(c) ==> r == [c]
  {
    if IsUnreserved(c) then [c]
    else if c == ' ' then "+"
    else PercentBytes(Utf8(c))
  }

  /** `urlencode($s)`: the result never contains `&`, `=`, `?` or `#`, and unreserved text passes unchanged. */
  function UrlEncode(s: string): (r: string)
    ensures forall i :: 0 <= i < |r| ==> IsUrlEncodedChar(r[i])
    ensures (forall i :: 0 <= i < |s| ==> IsUnreserved(s[i])) ==> r == s
  {
    if |s| == 0 then "" else UrlEncodeChar(s[0]) + UrlEncode(s[1..])
  }

  /** Every character is encoded as at least one character, so nothing non-empty encodes to nothing. */
  lemma UrlEncodeNonEmpty(s: string)
    requires s != ""
    ensures UrlEncode(s) != ""
  {
    assert UrlEncode(s) == UrlEncodeChar(s[0]) + UrlEncode(s[1..]);
  }

  // ---------------------------------------------------------------------------
  // array_unique over a list of strings
  // ---------------------------------------------------------------------------

  predicate NoDuplicates<T(==)>(s: seq<T>) {
    forall i, j :: 0 <= i < j < |s| ==> s[i] != s[j]
  }

  /** Putting a value that does not occur in front of a list without duplicates keeps it without duplicates. */
  lemma NoDuplicatesCons<T>(x: T, s: seq<T>)
    requires NoDuplicates(s) && x !in s
    ensures NoDuplicates([x] + s)
  {
    var t := [x] + s;
    forall i, j | 0 <= i < j < |t|
      ensures t[i] != t[j]
    {
      assert t[j] == s[j - 1];
      if i > 0 { assert t[i] == s[i - 1]; }
    }
  }

  /** `r` is `s` with some elements left out and the others kept in their order. */
  predicate IsSubsequence<T(==)>(r: seq<T>, s: seq<T>)
    decreases |s|
  {
    if |r| == 0 then true
    else if |s| == 0 then false
    else (r[0] == s[0] && IsSubsequence(r[1..], s[1..])) || IsSubsequence(r, s[1..])
  }

  /** Leaving nothing out is a subsequence. */
  lemma {:induction false} SubsequenceOfItself<T>(s: seq<T>)
    ensures IsSubsequence(s, s)
    decreases |s|
  {
    if |s| > 0 {
      SubsequenceOfItself(s[1..]);
    }
  }

  /** The position of the first occurrence of `x` in `s`. */
  function FirstIndex<T(==)>(s: seq<T>, x: T): (r: nat)
    requires x in s
    ensures r < |s| && s[r] == x && x !in s[..r]
    decreases |s|
  {
    if s[0] == x then 0
    else
      var k := FirstIndex(s[1..], x);
      assert s[..k + 1] == [s[0]] + s[1..][..k];
      k + 1
  }

  /** The values of `a` all occur in `s`, and `a` lists them in the order of their first occurrence there. */
  predicate InFirstOccurrenceOrder<T(==)>(a: seq<T>, s: seq<T>) {
    forall i, j :: 0 <= i < j < |a| ==> a[i] in s && a[j] in s && FirstIndex(s, a[i]) < FirstIndex(s, a[j])
  }

  /** Past a different head, the first occurrence is one further than in the tail. */
  lemma FirstIndexTail<T>(s: seq<T>, x: T)
    requires |s| > 0 && x in s
    ensures x == s[0] ==> FirstIndex(s, x) == 0
    ensures x != s[0] ==> x in s[1..] && FirstIndex(s, x) == FirstIndex(s[1..], x) + 1
  {
  }

  /** Ordered values that avoid the head of `s` keep their order in `s`, and the head can go in front of them. */
  lemma FirstOccurrenceOrderCons<T>(s: seq<T>, a: seq<T>)
    requires |s| > 0
    requires forall x :: x in a ==> x in s[1..] && x != s[0]
    requires InFirstOccurrenceOrder(a, s[1..])
    ensures InFirstOccurrenceOrder(a, s)
    ensures InFirstOccurrenceOrder([s[0]] + a, s)
  {
    forall x | x in a
      ensures FirstIndex(s, x) == FirstIndex(s[1..], x) + 1
    {
      FirstIndexTail(s, x);
    }
    var b := [s[0]] + a;
    forall i, j | 0 <= i < j < |b|
      ensures b[i] in s && b[j] in s && FirstIndex(s, b[i]) < FirstIndex(s, b[j])
    {
      assert b[j] == a[j - 1] && b[j] in a;
      if i > 0 {
        assert b[i] == a[i - 1] && b[i] in a;
      }
    }
  }

  /** A position holding `x` with no `x` before it is the first occurrence. */
  lemma FirstIndexUnique<T>(s: seq<T>, x: T, k: nat)
    requires k < |s| && s[k] == x && x !in s[..k]
    ensures FirstIndex(s, x) == k
  {
  }

  /** Appending an element leaves the first occurrences already present where they were. */
  lemma FirstIndexSnoc<T>(p: seq<T>, y: T)
    ensures forall x :: x in p ==> FirstIndex(p + [y], x) == FirstIndex(p, x)
    ensures y !in p ==> FirstIndex(p + [y], y) == |p|
  {
    forall x | x in p
      ensures FirstIndex(p + [y], x) == FirstIndex(p, x)
    {
      var k := FirstIndex(p, x);
      assert (p + [y])[..k] == p[..k];
      FirstIndexUnique(p + [y], x, k);
    }
    if y !in p {
      assert (p + [y])[..|p|] == p;
      FirstIndexUnique(p + [y], y, |p|);
    }
  }

  /**
   `array_values(array_unique($s))`: each value once, at the place of its first
   occurrence, so the values come in the order in which they first appear.
   */
  function Dedup<T(==,!new)>(s: seq<T>): (r: seq<T>)
    ensures NoDuplicates(r)
    ensures forall x :: x in r <==> x in s
    ensures |r| <= |s|
  {
    if |s| == 0 then []
    else
      var p := s[..|s| - 1];
      var last := s[|s| - 1];
      var r' := Dedup(p);
      assert s == p + [last];
      if last in r' then r' else r' + [last]
  }

  /** An order in `p` is kept in `p + [y]`, and a `y` new to `p` can follow it. */
  lemma FirstOccurrenceOrderSnoc<T>(a: seq<T>, p: seq<T>, y: T)
    requires InFirstOccurrenceOrder(a, p)
    requires forall x :: x in a ==> x in p
    ensures InFirstOccurrenceOrder(a, p + [y])
    ensures y !in p ==> InFirstOccurrenceOrder(a + [y], p + [y])
  {
    FirstIndexSnoc(p, y);
    var s := p + [y];
    forall i, j | 0 <= i < j < |a|
      ensures a[i] in s && a[j] in s && FirstIndex(s, a[i]) < FirstIndex(s, a[j])
    {
      assert a[i] in p && a[j] in p;
    }
    if y !in p {
      var b := a + [y];
      forall i, j | 0 <= i < j < |b|
        ensures b[i] in s && b[j] in s && FirstIndex(s, b[i]) < FirstIndex(s, b[j])
      {
        assert b[i] == a[i] && a[i] in a && a[i] in p;
        if j < |a| {
          assert b[j] == a[j] && a[j] in a && a[j] in p;
        } else {
          assert b[j] == y;
          assert FirstIndex(p, a[i]) < |p|;
        }
      }
    }
  }

  /** `Dedup` keeps the values in the order of their first occurrence. */
  lemma {:induction false} DedupOrder<T(!new)>(s: seq<T>)
    ensures InFirstOccurrenceOrder(Dedup(s), s)
    decreases |s|
  {
    if |s| > 0 {
      var p := s[..|s| - 1];
      var last := s[|s| - 1];
      var r' := Dedup(p);
      DedupOrder(p);
      assert s == p + [last];
      FirstOccurrenceOrderSnoc(r', p, last);
      assert Dedup(s) == if last in r' then r' else r' + [last];
    }
  }

  /** A list without duplicates is left as it is by `Dedup`. */
  lemma {:induction false} DedupOfDistinct<T(!new)>(s: seq<T>)
    requires NoDuplicates(s)
    ensures Dedup(s) == s
  {
    if |s| > 0 {
      var p := s[..|s| - 1];
      assert NoDuplicates(p);
      DedupOfDistinct(p);
      assert s[|s| - 1] !in p;
      assert p + [s[|s| - 1]] == s;
    }
  }

  // ---------------------------------------------------------------------------
  // Decimal rendering of a natural number (for generated names)
  // ---------------------------------------------------------------------------

  function DigitValue(c: char): nat
    requires '0' <= c <= '9'
  {
    c as int - '0' as int
  }

  /** Value of a string of decimal digits. */
  function DecimalValue(s: string): nat
    requires forall i :: 0 <= i < |s| ==> '0' <= s[i] <= '9'
  {
    if |s| == 0 then 0 else DecimalValue(s[..|s| - 1]) * 10 + DigitValue(s[|s| - 1])
  }

  /** The decimal digits of `n`, as JavaScript's template literals print it. */
  function NatToString(n: nat): (r: string)
    ensures |r| >= 1
    ensures forall i :: 0 <= i < |r| ==> '0' <= r[i] <= '9'
    ensures DecimalValue(r) == n
  {
    var d := [('0' as int + n % 10) as char];
    if n < 10 then d
    else
      var r := NatToString(n / 10) + d;
      assert r[..|r| - 1] == NatToString(n / 10);
      r
  }
}
