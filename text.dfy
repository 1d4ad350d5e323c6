/** Python `str` operations used by the modelled code, read over ASCII:
    character classes, `strip`, `startswith`/`endswith`, `in`, `split`, `replace`,
    `lower` and `str(int)`. */
module Text {
  import opened Wrappers

  // ---------------------------------------------------------------------------
  // Character classes

  predicate IsDigit(c: char) { '0' <= c <= '9' }

  /** The ASCII characters for which Python's `str.isspace` holds; the same set is
      matched by `\s` in a `str` pattern and removed by `str.strip()`. */
  predicate IsSpace(c: char) {
    var n := c as int;
    n == 32 || 9 <= n <= 13 || 28 <= n <= 31
  }

  predicate IsAscii(c: char) { (c as int) < 128 }
  predicate IsUpper(c: char) { 'A' <= c <= 'Z' }
  predicate IsLower(c: char) { 'a' <= c <= 'z' }
  predicate IsAlpha(c: char) { IsUpper(c) || IsLower(c) }
  /** `str.isalnum` on one ASCII character. */
  predicate IsAlnum(c: char) { IsAlpha(c) || IsDigit(c) }
  /** The regular-expression class `\w`. */
  predicate IsWord(c: char) { IsAlnum(c) || c == '_' }

  predicate AllAscii(s: string) { forall i :: 0 <= i < |s| ==> IsAscii(s[i]) }
  predicate AllDigits(s: string) { forall i :: 0 <= i < |s| ==> IsDigit(s[i]) }

  /** No two adjacent whitespace characters. */
  predicate NoDoubleSpace(s: string) {
    forall i :: 0 <= i < |s| - 1 ==> !IsSpace(s[i]) || !IsSpace(s[i + 1])
  }

  /** No whitespace at either end. */
  predicate Trimmed(s: string) {
    s == [] || (!IsSpace(s[0]) && !IsSpace(s[|s| - 1]))
  }

  // ---------------------------------------------------------------------------
  // strip

  /** The first index at or after `i` that does not hold whitespace, or `|s|`
      (also the end of `\s*` matched from `i`). */
  function SpanSpaces(s: string, i: nat): (j: nat)
    requires i <= |s|
    decreases |s| - i
    ensures i <= j <= |s|
    ensures forall k :: i <= k < j ==> IsSpace(s[k])
    ensures j == |s| || !IsSpace(s[j])
  {
    if i < |s| && IsSpace(s[i]) then SpanSpaces(s, i + 1) else i
  }

  /** The smallest index `e`, between `lo` and `j`, after which `s[..j]` holds only
      whitespace. */
  function BackSpaces(s: string, lo: nat, j: nat): (e: nat)
    requires lo <= j <= |s|
    decreases j
    ensures lo <= e <= j
    ensures forall k :: e <= k < j ==> IsSpace(s[k])
    ensures e == lo || !IsSpace(s[e - 1])
  {
    if j > lo && IsSpace(s[j - 1]) then BackSpaces(s, lo, j - 1) else j
  }

  /** Where `str.strip()` starts and ends its result. */
  function StripLo(s: string): nat { SpanSpaces(s, 0) }
  function StripHi(s: string): (e: nat)
    ensures StripLo(s) <= e <= |s|
  {
    BackSpaces(s, StripLo(s), |s|)
  }

  /** `str.lstrip()`. */
  function LStrip(s: string): string { s[SpanSpaces(s, 0)..] }

  /** `str.strip()`: the slice of `s` between its leading and its trailing
      whitespace. */
  function Strip(s: string): (r: string)
    ensures Trimmed(r) && |r| <= |s|
  {
    var a, e := StripLo(s), StripHi(s);
    assert a < e ==> s[a..e][0] == s[a] && s[a..e][e - a - 1] == s[e - 1];
    s[a..e]
  }

  /** What strip removes is whitespace, and what it keeps is a slice. */
  lemma StripSlice(s: string)
    ensures Strip(s) == s[StripLo(s)..StripHi(s)]
    ensures forall k :: 0 <= k < StripLo(s) ==> IsSpace(s[k])
    ensures forall k :: StripHi(s) <= k < |s| ==> IsSpace(s[k])
  {
  }

  lemma StripChars(s: string, c: char)
    requires c in Strip(s)
    ensures c in s
  {
    var a := StripLo(s);
    var r := Strip(s);
    var k :| 0 <= k < |r| && r[k] == c;
    assert s[a + k] == c;
  }

  lemma StripKeepsNoDoubleSpace(s: string)
    requires NoDoubleSpace(s)
    ensures NoDoubleSpace(Strip(s))
  {
    var r := Strip(s);
    var a := StripLo(s);
    forall i | 0 <= i < |r| - 1
      ensures !IsSpace(r[i]) || !IsSpace(r[i + 1])
    {
      assert r[i] == s[a + i] && r[i + 1] == s[a + i + 1];
    }
  }

  lemma StripOfTrimmed(s: string)
    requires Trimmed(s)
    ensures Strip(s) == s
  {
    if s != [] {
      assert StripLo(s) == 0;
      assert StripHi(s) == |s|;
    }
  }

  // ---------------------------------------------------------------------------
  // Substrings

  predicate StartsWith(s: string, p: string) { |p| <= |s| && s[..|p|] == p }
  predicate EndsWith(s: string, p: string) { |p| <= |s| && s[|s| - |p|..] == p }

  /** `t` occurs in `s` starting at index `i`. */
  predicate OccursAt(s: string, t: string, i: nat) { i + |t| <= |s| && s[i..i + |t|] == t }

  /** `s.find(t, from)`: the first occurrence of `t` at or after `from`. */
  function FindFrom(s: string, t: string, from: nat): (r: Option<nat>)
    decreases |s| - from
    ensures r.Some? ==> from <= r.value && OccursAt(s, t, r.value)
    ensures r.Some? ==> forall j :: from <= j < r.value ==> !OccursAt(s, t, j)
    ensures r.None? ==> forall j :: from <= j ==> !OccursAt(s, t, j)
  {
    if from + |t| > |s| then None
    else if OccursAt(s, t, from) then Some(from)
    else FindFrom(s, t, from + 1)
  }

  /** Python's `t in s`. */
  predicate Contains(s: string, t: string) { FindFrom(s, t, 0).Some? }

  lemma ContainsAt(s: string, t: string, i: nat)
    requires OccursAt(s, t, i)
    ensures Contains(s, t)
  {
  }

  /** `s.split(sep)`: the pieces between the non-overlapping occurrences of `sep`,
      found left to right. */
  function SplitAll(s: string, sep: string): (r: seq<string>)
    requires |sep| > 0
    decreases |s|
    ensures |r| >= 1
  {
    match FindFrom(s, sep, 0)
    case None => [s]
    case Some(i) => [s[..i]] + SplitAll(s[i + |sep|..], sep)
  }

  /** `s.split(sep)[k]`, which raises IndexError when there are not enough pieces. */
  function SplitPiece(s: string, sep: string, k: nat): (r: Result<string>)
    requires |sep| > 0
  {
    var parts := SplitAll(s, sep);
    if k < |parts| then Ok(parts[k]) else Err(IndexError)
  }

  /** `s.split(sep, 1)[1]`: the text after the first occurrence of `sep`. */
  function After(s: string, sep: string): (r: Option<string>)
    ensures r.Some? ==> IsSuffixOf(r.value, s)
  {
    match FindFrom(s, sep, 0)
    case None => None
    case Some(i) => Some(s[i + |sep|..])
  }

  predicate IsSuffixOf(r: string, s: string) { |r| <= |s| && s[|s| - |r|..] == r }

  /** `s.replace(pat, rep)`: every non-overlapping occurrence, left to right. */
  function Replace(s: string, pat: string, rep: string): (r: string)
    requires |pat| > 0
    decreases |s|
  {
    if |s| < |pat| then s
    else if s[..|pat|] == pat then rep + Replace(s[|pat|..], pat, rep)
    else [s[0]] + Replace(s[1..], pat, rep)
  }

  // ---------------------------------------------------------------------------
  // Case and numbers

  function LowerChar(c: char): char {
    if IsUpper(c) then (c as int + 32) as char else c
  }

  /** `str.lower()` over ASCII. */
  function Lower(s: string): (r: string)
    ensures |r| == |s| && forall i :: 0 <= i < |s| ==> r[i] == LowerChar(s[i])
  {
    if s == [] then [] else [LowerChar(s[0])] + Lower(s[1..])
  }

  function DigitChar(d: nat): char
    requires d < 10
  {
    ('0' as int + d) as char
  }

  function DigitValue(c: char): nat
    requires IsDigit(c)
  {
    c as int - '0' as int
  }

  /** `str(n)` for a non-negative integer. */
  function NatToString(n: nat): (r: string)
    ensures |r| >= 1 && AllDigits(r)
    ensures n < 10 <==> |r| == 1
  {
    if n < 10 then [DigitChar(n)] else NatToString(n / 10) + [DigitChar(n % 10)]
  }

  /** The value of a string of decimal digits, as `int(s)` reads it. */
  function DigitsValue(s: string): nat
    requires AllDigits(s)
  {
    if s == [] then 0 else DigitsValue(s[..|s| - 1]) * 10 + DigitValue(s[|s| - 1])
  }
}
