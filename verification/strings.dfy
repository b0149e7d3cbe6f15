/** The handful of Python `str` operations the core relies on, stated over
    `string` (a sequence of Unicode scalar values). */
module Strings {
  import opened Wrappers

  /** Python's `str.isspace()` for a single character: the ASCII whitespace
      and separator controls plus the Unicode space separators. */
  predicate IsSpace(c: char) {
    var n := c as int;
    || n == 0x20
    || 0x09 <= n <= 0x0D
    || 0x1C <= n <= 0x1F
    || n == 0x85 || n == 0xA0 || n == 0x1680
    || 0x2000 <= n <= 0x200A
    || n == 0x2028 || n == 0x2029 || n == 0x202F || n == 0x205F || n == 0x3000
  }

  predicate AllSpace(s: string) {
    forall k :: 0 <= k < |s| ==> IsSpace(s[k])
  }

  /** Neither end of `s` is whitespace: the shape `str.strip()` produces. */
  predicate IsStripped(s: string) {
    |s| == 0 || (!IsSpace(s[0]) && !IsSpace(s[|s| - 1]))
  }

  /** Length of the longest all-whitespace prefix of `s`. */
  function LeadingSpaces(s: string): (n: nat)
    ensures n <= |s|
    ensures AllSpace(s[..n])
    ensures n < |s| ==> !IsSpace(s[n])
  {
    if |s| == 0 || !IsSpace(s[0]) then 0
    else
      var n' := LeadingSpaces(s[1..]);
      assert s[..n' + 1] == [s[0]] + s[1..][..n'];
      n' + 1
  }

  /** Length of the longest all-whitespace suffix of `s`. */
  function TrailingSpaces(s: string): (n: nat)
    ensures n <= |s|
    ensures AllSpace(s[|s| - n..])
    ensures n < |s| ==> !IsSpace(s[|s| - n - 1])
  {
    if |s| == 0 || !IsSpace(s[|s| - 1]) then 0
    else
      var init := s[..|s| - 1];
      var n' := TrailingSpaces(init);
      assert s[|s| - (n' + 1)..] == init[|init| - n'..] + [s[|s| - 1]];
      n' + 1
  }

  /** Python's `s.strip()`: `s` is the result surrounded by whitespace on both
      sides, and the result itself neither starts nor ends with whitespace. */
  function Strip(s: string): (r: string)
    ensures IsStripped(r)
    ensures LeadingSpaces(s) + |r| <= |s|
    ensures r == s[LeadingSpaces(s)..LeadingSpaces(s) + |r|]
    ensures AllSpace(s[..LeadingSpaces(s)]) && AllSpace(s[LeadingSpaces(s) + |r|..])
  {
    var i := LeadingSpaces(s);
    var t := s[i..];
    var j := TrailingSpaces(t);
    assert |t| - j < |t| ==> !IsSpace(t[|t| - j - 1]);
    assert t[|t| - j..] == s[i + (|t| - j)..];
    t[..|t| - j]
  }

  /** Stripping text that is already stripped changes nothing. */
  lemma StripStripped(s: string)
    requires IsStripped(s)
    ensures Strip(s) == s
  {
    assert LeadingSpaces(s) == 0;
    var t := s[0..];
    assert t == s;
    assert TrailingSpaces(t) == 0;
  }

  predicate IsAsciiUpper(c: char) {
    'A' <= c <= 'Z'
  }

  /** Case mapping of one character (ASCII letters only). */
  function LowerChar(c: char): (d: char)
    ensures !IsAsciiUpper(d)
    ensures IsAsciiUpper(c) ==> 'a' <= d <= 'z'
    ensures IsSpace(d) == IsSpace(c)
    ensures !IsAsciiUpper(c) ==> d == c
  {
    if IsAsciiUpper(c) then (c as int + 32) as char else c
  }

  /** Python's `s.lower()` restricted to the ASCII case mapping: each
      character goes through `LowerChar`, so the result is as long as `s`,
      has no upper-case ASCII letter, keeps whitespace where it was, and
      agrees with `s` wherever `s` had no upper-case letter. */
  function Lower(s: string): (r: string)
    ensures |r| == |s|
    ensures forall k :: 0 <= k < |s| ==> r[k] == LowerChar(s[k])
  {
    seq(|s|, k requires 0 <= k < |s| => LowerChar(s[k]))
  }

  /** Lower-casing text with no upper-case letter changes nothing. */
  lemma LowerIdentity(s: string)
    requires forall k :: 0 <= k < |s| ==> !IsAsciiUpper(s[k])
    ensures Lower(s) == s
  {
  }

  /** Lower-casing is idempotent. */
  lemma LowerIdempotent(s: string)
    ensures Lower(Lower(s)) == Lower(s)
  {
    LowerIdentity(Lower(s));
  }

  /** Lower-casing maps a non-letter `c` to itself and nothing else to it. */
  lemma LowerKeeps(s: string, c: char)
    requires !IsAsciiUpper(c) && !('a' <= c <= 'z')
    ensures c in Lower(s) <==> c in s
  {
    var r := Lower(s);
    if c in r {
      var k :| 0 <= k < |r| && r[k] == c;
      assert s[k] == c;
    }
    if c in s {
      var k :| 0 <= k < |s| && s[k] == c;
      assert r[k] == c;
    }
  }

  /** Lower-casing commutes with slicing. */
  lemma LowerSlice(s: string, i: int, j: int)
    requires 0 <= i <= j <= |s|
    ensures Lower(s[i..j]) == Lower(s)[i..j]
  {
  }

  /** Lower-casing moves no whitespace, so the whitespace prefix keeps its
      length. */
  lemma {:induction false} LeadingSpacesLower(s: string)
    ensures LeadingSpaces(Lower(s)) == LeadingSpaces(s)
  {
    var l := Lower(s);
    if |s| > 0 && IsSpace(s[0]) {
      assert IsSpace(l[0]);
      LowerSlice(s, 1, |s|);
      assert l[1..] == Lower(s[1..]);
      LeadingSpacesLower(s[1..]);
      assert LeadingSpaces(l) == LeadingSpaces(l[1..]) + 1;
    } else if |s| > 0 {
      assert !IsSpace(l[0]);
    }
  }

  /** The same for the whitespace suffix. */
  lemma {:induction false} TrailingSpacesLower(s: string)
    ensures TrailingSpaces(Lower(s)) == TrailingSpaces(s)
  {
    var l := Lower(s);
    var n := |s|;
    if n > 0 && IsSpace(s[n - 1]) {
      assert IsSpace(l[n - 1]);
      LowerSlice(s, 0, n - 1);
      assert l[..n - 1] == Lower(s[..n - 1]);
      TrailingSpacesLower(s[..n - 1]);
      assert TrailingSpaces(l) == TrailingSpaces(l[..n - 1]) + 1;
    } else if n > 0 {
      assert !IsSpace(l[n - 1]);
    }
  }

  /** Stripping and lower-casing commute. */
  lemma StripLower(s: string)
    ensures Strip(Lower(s)) == Lower(Strip(s))
  {
    var l := Lower(s);
    var i := LeadingSpaces(s);
    LeadingSpacesLower(s);
    var t := s[i..];
    LowerSlice(s, i, |s|);
    assert l[i..] == Lower(t);
    var j := TrailingSpaces(t);
    TrailingSpacesLower(t);
    LowerSlice(t, 0, |t| - j);
    assert Strip(s) == t[..|t| - j];
    assert Strip(l) == Lower(t)[..|t| - j];
  }

  /** `s.split(sep, 1)[0]`: the text before the first `sep`, or all of `s`
      when `sep` does not occur. */
  function BeforeFirst(s: string, sep: char): (r: string)
    ensures sep !in r
    ensures r <= s
    ensures |r| < |s| ==> s[|r|] == sep
  {
    if |s| == 0 || s[0] == sep then []
    else [s[0]] + BeforeFirst(s[1..], sep)
  }

  /** Without `sep`, the whole of `s` comes back. */
  lemma {:induction false} BeforeFirstAbsent(s: string, sep: char)
    requires sep !in s
    ensures BeforeFirst(s, sep) == s
  {
    if |s| > 0 {
      BeforeFirstAbsent(s[1..], sep);
      assert s == [s[0]] + s[1..];
    }
  }

  /** The text before the first `sep` of `head + [sep] + tail` is `head`
      when `head` has no `sep`. */
  lemma {:induction false} BeforeFirstConcat(head: string, sep: char, tail: string)
    requires sep !in head
    ensures BeforeFirst(head + [sep] + tail, sep) == head
  {
    var s := head + [sep] + tail;
    if |head| > 0 {
      assert s[0] == head[0];
      assert s[1..] == head[1..] + [sep] + tail;
      BeforeFirstConcat(head[1..], sep, tail);
      assert head == [head[0]] + head[1..];
    } else {
      assert s[0] == sep;
    }
  }

  /** `BeforeFirst` is the only prefix without `sep` that is followed by
      `sep` or by the end of `s`. */
  lemma BeforeFirstUnique(s: string, sep: char, n: int)
    requires 0 <= n <= |s|
    requires sep !in s[..n]
    requires n == |s| || s[n] == sep
    ensures BeforeFirst(s, sep) == s[..n]
  {
    var r := BeforeFirst(s, sep);
    assert |r| == n;
  }

  /** Lower-casing before or after cutting at a non-letter `sep` gives the
      same text. */
  lemma BeforeFirstLower(s: string, sep: char)
    requires !IsAsciiUpper(sep) && !('a' <= sep <= 'z')
    ensures BeforeFirst(Lower(s), sep) == Lower(BeforeFirst(s, sep))
  {
    var b := BeforeFirst(s, sep);
    var n := |b|;
    var l := Lower(s);
    assert b == s[..n];
    LowerSlice(s, 0, n);
    assert l[..n] == Lower(b);
    LowerKeeps(b, sep);
    if n < |s| {
      assert l[n] == LowerChar(s[n]);
    }
    BeforeFirstUnique(l, sep, n);
  }

  /** `pat` occurs in `s` starting at index `k`. */
  predicate OccursAt(s: string, pat: string, k: int) {
    0 <= k && k + |pat| <= |s| && s[k..k + |pat|] == pat
  }

  /** The first occurrence of `pat` in `s` at or after index `from`. */
  function FindFrom(s: string, pat: string, from: nat): (r: Option<nat>)
    ensures r.Some? ==> from <= r.value && OccursAt(s, pat, r.value)
    ensures r.Some? ==> forall k :: from <= k < r.value ==> !OccursAt(s, pat, k)
    ensures r.None? ==> forall k :: from <= k ==> !OccursAt(s, pat, k)
    decreases |s| - from
  {
    if from + |pat| > |s| then None
    else if s[from..from + |pat|] == pat then Some(from)
    else FindFrom(s, pat, from + 1)
  }

  /** `s.find(pat)` as an option: the least index where `pat` occurs. */
  function FindFirst(s: string, pat: string): (r: Option<nat>)
    ensures r.Some? ==> OccursAt(s, pat, r.value)
    ensures r.Some? ==> forall k :: 0 <= k < r.value ==> !OccursAt(s, pat, k)
    ensures r.None? <==> forall k :: !OccursAt(s, pat, k)
  {
    FindFrom(s, pat, 0)
  }

  predicate HasSuffix(s: string, suffix: string) {
    |suffix| <= |s| && s[|s| - |suffix|..] == suffix
  }

  /** Python's `<=` on strings: lexicographic by code point, a proper prefix
      ordering before its extensions. */
  predicate LexLe(a: string, b: string)
    decreases |a|
  {
    |a| == 0 || (|b| > 0 && (a[0] < b[0] || (a[0] == b[0] && LexLe(a[1..], b[1..]))))
  }

  lemma {:induction false} LexLeTotal(a: string, b: string)
    ensures LexLe(a, b) || LexLe(b, a)
    decreases |a|
  {
    if |a| > 0 && |b| > 0 && a[0] == b[0] {
      LexLeTotal(a[1..], b[1..]);
    }
  }

  lemma {:induction false} LexLeTransitive(a: string, b: string, c: string)
    requires LexLe(a, b) && LexLe(b, c)
    ensures LexLe(a, c)
    decreases |a|
  {
    if |a| > 0 && a[0] == b[0] && b[0] == c[0] {
      LexLeTransitive(a[1..], b[1..], c[1..]);
    }
  }
}
