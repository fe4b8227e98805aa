/** String primitives shared by the Python backend and the JavaScript webview:
    character classes, whitespace trimming, splitting, searching and decimal
    rendering. Strings are sequences of Unicode scalar values. */
module Text {

  // ---------------------------------------------------------------------------
  // Character classes
  // ---------------------------------------------------------------------------

  predicate IsAsciiLetter(c: char) { 'a' <= c <= 'z' || 'A' <= c <= 'Z' }

  predicate IsAsciiDigit(c: char) { '0' <= c <= '9' }

  predicate IsAsciiAlnum(c: char) { IsAsciiLetter(c) || IsAsciiDigit(c) }

  /** Characters for which Python's `str.isspace()` holds: the set `str.strip()`
      removes when called without arguments. */
  const PyWhitespace: set<char> :=
    {'\t', '\n', '\U{000B}', '\U{000C}', '\r', '\U{001C}', '\U{001D}', '\U{001E}', '\U{001F}',
     ' ', '\U{0085}', '\U{00A0}', '\U{1680}',
     '\U{2000}', '\U{2001}', '\U{2002}', '\U{2003}', '\U{2004}', '\U{2005}', '\U{2006}',
     '\U{2007}', '\U{2008}', '\U{2009}', '\U{200A}',
     '\U{2028}', '\U{2029}', '\U{202F}', '\U{205F}', '\U{3000}'}

  /** ECMAScript WhiteSpace and LineTerminator code points: the set
      `String.prototype.trim()` removes. */
  const JsWhitespace: set<char> :=
    {'\t', '\n', '\U{000B}', '\U{000C}', '\r', ' ', '\U{00A0}', '\U{1680}',
     '\U{2000}', '\U{2001}', '\U{2002}', '\U{2003}', '\U{2004}', '\U{2005}', '\U{2006}',
     '\U{2007}', '\U{2008}', '\U{2009}', '\U{200A}',
     '\U{2028}', '\U{2029}', '\U{202F}', '\U{205F}', '\U{3000}', '\U{FEFF}'}

  /** ECMAScript line terminators: what the regular-expression atom `.` refuses. */
  predicate IsLineTerminator(c: char) {
    c == '\n' || c == '\r' || c == '\U{2028}' || c == '\U{2029}'
  }

  /** Every character of `s` is in `ws`. */
  predicate AllIn(s: string, ws: set<char>) {
    forall k :: 0 <= k < |s| ==> s[k] in ws
  }

  // ---------------------------------------------------------------------------
  // Trimming
  // ---------------------------------------------------------------------------

  /** `s` without its leading characters from `ws`. */
  function TrimStart(s: string, ws: set<char>): (r: string)
    ensures |r| <= |s|
  {
    if |s| > 0 && s[0] in ws then TrimStart(s[1..], ws) else s
  }

  /** `TrimStart` keeps a suffix that does not start with a `ws` character and
      drops only `ws` characters. */
  lemma {:induction false} TrimStartFacts(s: string, ws: set<char>)
    ensures TrimStart(s, ws) == s[|s| - |TrimStart(s, ws)|..]
    ensures TrimStart(s, ws) == [] || TrimStart(s, ws)[0] !in ws
    ensures AllIn(s[..|s| - |TrimStart(s, ws)|], ws)
  {
    if |s| > 0 && s[0] in ws {
      var r := TrimStart(s[1..], ws);
      TrimStartFacts(s[1..], ws);
      assert s[1..][..|s| - 1 - |r|] == s[1..|s| - |r|];
    }
  }

  /** `s` without its trailing characters from `ws`. */
  function TrimEnd(s: string, ws: set<char>): (r: string)
    ensures |r| <= |s|
  {
    if |s| > 0 && s[|s| - 1] in ws then TrimEnd(s[..|s| - 1], ws) else s
  }

  /** `TrimEnd` keeps a prefix that does not end with a `ws` character and
      drops only `ws` characters. */
  lemma {:induction false} TrimEndFacts(s: string, ws: set<char>)
    ensures TrimEnd(s, ws) == s[..|TrimEnd(s, ws)|]
    ensures TrimEnd(s, ws) == [] || TrimEnd(s, ws)[|TrimEnd(s, ws)| - 1] !in ws
    ensures AllIn(s[|TrimEnd(s, ws)|..], ws)
  {
    if |s| > 0 && s[|s| - 1] in ws {
      var r := TrimEnd(s[..|s| - 1], ws);
      TrimEndFacts(s[..|s| - 1], ws);
      assert s[..|s| - 1][|r|..] + [s[|s| - 1]] == s[|r|..];
    }
  }

  /** `TrimStart` drops exactly a leading run of `ws` characters that is
      followed by a character outside `ws`. */
  lemma {:induction false} TrimStartPadded(pre: string, x: string, ws: set<char>)
    requires AllIn(pre, ws) && |x| > 0 && x[0] !in ws
    ensures TrimStart(pre + x, ws) == x
    decreases |pre|
  {
    if |pre| > 0 {
      assert (pre + x)[1..] == pre[1..] + x;
      TrimStartPadded(pre[1..], x, ws);
    } else {
      assert pre + x == x;
    }
  }

  /** `TrimEnd` drops exactly a trailing run of `ws` characters that follows
      a character outside `ws`. */
  lemma {:induction false} TrimEndPadded(x: string, post: string, ws: set<char>)
    requires AllIn(post, ws) && |x| > 0 && x[|x| - 1] !in ws
    ensures TrimEnd(x + post, ws) == x
    decreases |post|
  {
    if |post| > 0 {
      assert (x + post)[..|x + post| - 1] == x + post[..|post| - 1];
      TrimEndPadded(x, post[..|post| - 1], ws);
    } else {
      assert x + post == x;
    }
  }

  /** `s` without surrounding characters from `ws`: Python's `strip()` with
      `PyWhitespace`, JavaScript's `trim()` with `JsWhitespace`. It is empty
      exactly when `s` holds nothing but `ws` characters, and otherwise
      neither starts nor ends with one (`TrimIsInfix` says where it sits). */
  function Trim(s: string, ws: set<char>): (r: string)
    ensures r == [] <==> AllIn(s, ws)
    ensures r == [] || (r[0] !in ws && r[|r| - 1] !in ws)
  {
    var a := TrimStart(s, ws);
    var r := TrimEnd(a, ws);
    TrimStartFacts(s, ws);
    TrimEndFacts(a, ws);
    TrimPlacement(s, a, r, ws);
    TrimBlank(s, a, r, ws);
    if r == [] then r
    else
      assert r[0] == a[0];
      r
  }

  /** Trimming a text that neither starts nor ends with a `ws` character,
      padded on both sides with `ws` characters, gives back that text. */
  lemma TrimPadded(pre: string, x: string, post: string, ws: set<char>)
    requires AllIn(pre, ws) && AllIn(post, ws)
    requires |x| > 0 && x[0] !in ws && x[|x| - 1] !in ws
    ensures Trim(pre + x + post, ws) == x
  {
    assert pre + x + post == pre + (x + post);
    TrimStartPadded(pre, x + post, ws);
    TrimEndPadded(x, post, ws);
  }

  /** The trimmed string is the infix of `s` at the end of its leading
      whitespace, and only `ws` characters lie around it. */
  lemma TrimIsInfix(s: string, ws: set<char>)
    ensures TrimmedAt(s, ws, |s| - |TrimStart(s, ws)|, Trim(s, ws))
  {
    var a := TrimStart(s, ws);
    TrimStartFacts(s, ws);
    TrimEndFacts(a, ws);
    TrimPlacement(s, a, TrimEnd(a, ws), ws);
  }

  /** `r` sits at offset `i` of `s` and everything around it is in `ws`. */
  predicate TrimmedAt(s: string, ws: set<char>, i: int, r: string) {
    && 0 <= i && i + |r| <= |s|
    && s[i..i + |r|] == r
    && AllIn(s[..i], ws)
    && AllIn(s[i + |r|..], ws)
  }

  lemma TrimPlacement(s: string, a: string, r: string, ws: set<char>)
    requires |a| <= |s| && a == s[|s| - |a|..] && AllIn(s[..|s| - |a|], ws)
    requires |r| <= |a| && r == a[..|r|] && AllIn(a[|r|..], ws)
    ensures TrimmedAt(s, ws, |s| - |a|, r)
  {
  }

  lemma TrimBlank(s: string, a: string, r: string, ws: set<char>)
    requires |a| <= |s| && a == s[|s| - |a|..] && AllIn(s[..|s| - |a|], ws)
    requires a == [] || a[0] !in ws
    requires |r| <= |a| && r == a[..|r|] && AllIn(a[|r|..], ws)
    ensures r == [] <==> AllIn(s, ws)
  {
  }

  // ---------------------------------------------------------------------------
  // Prefixes, suffixes and searching
  // ---------------------------------------------------------------------------

  predicate StartsWith(s: string, p: string) { |p| <= |s| && s[..|p|] == p }

  predicate EndsWith(s: string, p: string) { |p| <= |s| && s[|s| - |p|..] == p }

  /** `p` occurs in `s` at offset `k`. */
  predicate OccursAt(s: string, p: string, k: int) {
    0 <= k && k + |p| <= |s| && s[k..k + |p|] == p
  }

  /** JavaScript's `s.indexOf(p)`: the first offset at which `p` occurs, or -1. */
  function IndexOf(s: string, p: string): (r: int)
    ensures r == -1 || OccursAt(s, p, r)
    ensures r == -1 <==> forall k :: 0 <= k <= |s| ==> !OccursAt(s, p, k)
    ensures forall k :: 0 <= k < r ==> !OccursAt(s, p, k)
  {
    IndexOfFrom(s, p, 0)
  }

  function IndexOfFrom(s: string, p: string, from: nat): (r: int)
    requires from <= |s|
    ensures r == -1 || (from <= r && OccursAt(s, p, r))
    ensures r == -1 <==> forall k :: from <= k <= |s| ==> !OccursAt(s, p, k)
    ensures forall k :: from <= k < r ==> !OccursAt(s, p, k)
    decreases |s| - from
  {
    if from + |p| > |s| then -1
    else if s[from..from + |p|] == p then from
    else if from == |s| then -1
    else IndexOfFrom(s, p, from + 1)
  }

  /** The last offset holding `c`, or -1 when `c` does not occur. */
  function LastIndexOf(s: string, c: char): (r: int)
    ensures -1 <= r < |s|
    ensures r >= 0 ==> s[r] == c
    ensures forall k :: r < k < |s| ==> s[k] != c
  {
    if |s| == 0 then -1
    else if s[|s| - 1] == c then |s| - 1
    else LastIndexOf(s[..|s| - 1], c)
  }

  /** The position of `c` with no `c` after it is the one `LastIndexOf` finds. */
  lemma LastIndexOfUnique(s: string, c: char, k: int)
    requires 0 <= k < |s| && s[k] == c
    requires forall m :: k < m < |s| ==> s[m] != c
    ensures LastIndexOf(s, c) == k
  {
  }

  // ---------------------------------------------------------------------------
  // Splitting and joining
  // ---------------------------------------------------------------------------

  /** `parts` glued together with `sep` between neighbours. */
  function Join(parts: seq<string>, sep: char): string
    requires |parts| >= 1
  {
    if |parts| == 1 then parts[0] else parts[0] + [sep] + Join(parts[1..], sep)
  }

  /** The first offset holding `c`, or -1 when `c` does not occur
      (JavaScript's `s.indexOf(c)` for a one-character string). */
  function IndexOfChar(s: string, c: char): (r: int)
    ensures -1 <= r < |s|
    ensures r >= 0 ==> s[r] == c
    ensures forall k :: 0 <= k < |s| && (r < 0 || k < r) ==> s[k] != c
  {
    if |s| == 0 then -1
    else if s[0] == c then 0
    else
      var r := IndexOfChar(s[1..], c);
      if r < 0 then -1 else r + 1
  }

  lemma IndexOfCharUnique(s: string, c: char, k: int)
    requires 0 <= k < |s| && s[k] == c
    requires forall m :: 0 <= m < k ==> s[m] != c
    ensures IndexOfChar(s, c) == k
  {
  }

  /** JavaScript's `s.split(sep)` for a one-character separator: at least one
      piece, none containing `sep`, and joining them back yields `s`. */
  function Split(s: string, sep: char): (r: seq<string>)
    ensures |r| >= 1
    ensures forall i :: 0 <= i < |r| ==> sep !in r[i]
    ensures Join(r, sep) == s
  {
    var k := IndexOfChar(s, sep);
    if k < 0 then [s]
    else
      var rest := Split(s[k + 1..], sep);
      SplitStep(s, sep, k, rest);
      [s[..k]] + rest
  }

  /** The piece before the first separator, followed by a split of the rest,
      is a split of the whole. */
  lemma SplitStep(s: string, sep: char, k: int, rest: seq<string>)
    requires 0 <= k < |s| && s[k] == sep
    requires forall m :: 0 <= m < k ==> s[m] != sep
    requires |rest| >= 1 && forall i :: 0 <= i < |rest| ==> sep !in rest[i]
    requires Join(rest, sep) == s[k + 1..]
    ensures forall i :: 0 <= i < |[s[..k]] + rest| ==> sep !in ([s[..k]] + rest)[i]
    ensures Join([s[..k]] + rest, sep) == s
  {
    var r := [s[..k]] + rest;
    assert r[1..] == rest;
    assert forall i :: 1 <= i < |r| ==> r[i] == rest[i - 1];
    assert forall m :: 0 <= m < k ==> s[..k][m] == s[m];
    assert s == s[..k] + [sep] + s[k + 1..];
  }

  /** Splitting undoes joining pieces that do not contain the separator. */
  lemma {:induction false} SplitJoin(parts: seq<string>, sep: char)
    requires |parts| >= 1
    requires forall i :: 0 <= i < |parts| ==> sep !in parts[i]
    ensures Split(Join(parts, sep), sep) == parts
  {
    if |parts| == 1 {
      assert Join(parts, sep) == parts[0];
    } else {
      SplitJoin(parts[1..], sep);
      SplitCons(parts[0], Join(parts[1..], sep), sep);
    }
  }

  /** A separator-free head followed by the separator splits off as one piece. */
  lemma SplitCons(h: string, t: string, sep: char)
    requires sep !in h
    ensures Split(h + [sep] + t, sep) == [h] + Split(t, sep)
  {
    var s := h + [sep] + t;
    assert forall m :: 0 <= m < |h| ==> s[m] == h[m];
    IndexOfCharUnique(s, sep, |h|);
    assert s[..|h|] == h;
    assert s[|h| + 1..] == t;
  }

  // ---------------------------------------------------------------------------
  // Decimal rendering (JavaScript template-literal interpolation of a number)
  // ---------------------------------------------------------------------------

  function DigitChar(d: nat): char
    requires d < 10
  {
    ['0', '1', '2', '3', '4', '5', '6', '7', '8', '9'][d]
  }

  function DigitValue(c: char): nat
    requires IsAsciiDigit(c)
  {
    (c as int - '0' as int) as nat
  }

  /** The number a string of decimal digits denotes. */
  function DecimalValue(s: string): nat
    requires forall k :: 0 <= k < |s| ==> IsAsciiDigit(s[k])
  {
    if s == [] then 0 else 10 * DecimalValue(s[..|s| - 1]) + DigitValue(s[|s| - 1])
  }

  /** The shortest decimal rendering of `n`: digits only, no leading zero,
      and reading it back gives `n`. */
  function NatToDecimal(n: nat): (r: string)
    ensures |r| >= 1
    ensures forall k :: 0 <= k < |r| ==> IsAsciiDigit(r[k])
    ensures r[0] == '0' ==> n == 0
    ensures |r| > 1 ==> r[0] != '0'
    ensures DecimalValue(r) == n
  {
    if n < 10 then [DigitChar(n)]
    else
      var r := NatToDecimal(n / 10) + [DigitChar(n % 10)];
      assert r[..|r| - 1] == NatToDecimal(n / 10);
      r
  }

  // ---------------------------------------------------------------------------
  // Case
  // ---------------------------------------------------------------------------

  function AsciiLowerChar(c: char): char {
    if 'A' <= c <= 'Z' then (c as int + 32) as char else c
  }

  /** Python's `str.lower()` restricted to ASCII letters. */
  function AsciiLower(s: string): (r: string)
    ensures |r| == |s|
    ensures forall k :: 0 <= k < |s| ==> r[k] == AsciiLowerChar(s[k])
    ensures forall k :: 0 <= k < |s| ==> !('A' <= r[k] <= 'Z')
    ensures forall k :: 0 <= k < |s| && !('A' <= s[k] <= 'Z') ==> r[k] == s[k]
    ensures forall k :: 0 <= k < |s| && 'A' <= s[k] <= 'Z' ==> r[k] as int - s[k] as int == 'a' as int - 'A' as int
  {
    seq(|s|, k requires 0 <= k < |s| => AsciiLowerChar(s[k]))
  }

  /** Lower-casing twice is lower-casing once. */
  lemma AsciiLowerIdempotent(s: string)
    ensures AsciiLower(AsciiLower(s)) == AsciiLower(s)
  {
  }
}
