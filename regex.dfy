/** The part of Python's `re` module that the modelled code relies on.

    Each regular expression of the source is written as a `Matcher`: the pattern
    tried at one position of the subject, returning where the match ends. The
    matchers resolve backtracking by hand (for every pattern here the first
    match the backtracking engine finds is the one the matcher describes), so
    `Search` is `re.search` (the leftmost position where the matcher succeeds)
    and `Sub` is `re.sub` (every non-overlapping match, left to right). None of
    the source's patterns can match the empty string. */
module Regex {
  import opened Wrappers
  import opened Text

  /** A pattern anchored at position `p` of `s`: the end of the match, if any. */
  type Matcher = (string, nat) -> Option<nat>

  /** `m` matches a non-empty slice `s[p..e]` of `s`. */
  predicate Hit(m: Matcher, s: string, p: nat) {
    m(s, p).Some? && p < m(s, p).value <= |s|
  }

  function HitEnd(m: Matcher, s: string, p: nat): (e: nat)
    requires Hit(m, s, p)
    ensures p < e <= |s|
  {
    m(s, p).value
  }

  /** `re.search` from position `p`: the leftmost match start. */
  function SearchFrom(s: string, m: Matcher, p: nat): (r: Option<nat>)
    decreases |s| - p
    ensures r.Some? ==> p <= r.value < |s| && Hit(m, s, r.value)
    ensures r.Some? ==> forall j :: p <= j < r.value ==> !Hit(m, s, j)
    ensures r.None? ==> forall j :: p <= j ==> !Hit(m, s, j)
  {
    if p >= |s| then None
    else if Hit(m, s, p) then Some(p)
    else SearchFrom(s, m, p + 1)
  }

  function Search(s: string, m: Matcher): Option<nat> {
    SearchFrom(s, m, 0)
  }

  /** `re.sub` on the rest of the subject from position `p`. */
  function SubFrom(s: string, m: Matcher, r: string, p: nat): string
    decreases |s| - p
  {
    if p >= |s| then []
    else if Hit(m, s, p) then r + SubFrom(s, m, r, HitEnd(m, s, p))
    else [s[p]] + SubFrom(s, m, r, p + 1)
  }

  /** `re.sub(pattern, r, s)`. */
  function Sub(s: string, m: Matcher, r: string): string {
    SubFrom(s, m, r, 0)
  }

  /** `re.sub` of a pattern that starts with `^`: it can only match at position 0. */
  function SubAnchored(s: string, m: Matcher, r: string): string {
    if Hit(m, s, 0) then r + s[HitEnd(m, s, 0)..] else s
  }

  // ---------------------------------------------------------------------------
  // Building blocks of the matchers

  /** The end of the run of digits (`\d*`, greedy) starting at `i`. */
  function SpanDigits(s: string, i: nat): (j: nat)
    requires i <= |s|
    decreases |s| - i
    ensures i <= j <= |s|
    ensures forall k :: i <= k < j ==> IsDigit(s[k])
    ensures j == |s| || !IsDigit(s[j])
  {
    if i < |s| && IsDigit(s[i]) then SpanDigits(s, i + 1) else i
  }

  /** `\d{n}` at position `i`. */
  predicate DigitsAt(s: string, i: nat, n: nat) {
    i + n <= |s| && forall k :: i <= k < i + n ==> IsDigit(s[k])
  }

  lemma DigitsAtSlice(s: string, i: nat, n: nat)
    requires DigitsAt(s, i, n)
    ensures AllDigits(s[i..i + n])
  {
    var t := s[i..i + n];
    forall k | 0 <= k < |t| ensures IsDigit(t[k]) {
      assert t[k] == s[i + k];
    }
  }

  /** `\b` at position `i`: word character on exactly one side. */
  predicate Boundary(s: string, i: nat)
    requires i <= |s|
  {
    (i > 0 && IsWord(s[i - 1])) != (i < |s| && IsWord(s[i]))
  }

  /** The first line feed at or after `i`, or `|s|`. */
  function LineEnd(s: string, i: nat): (k: nat)
    requires i <= |s|
    decreases |s| - i
    ensures i <= k <= |s|
    ensures forall j :: i <= j < k ==> s[j] != '\n'
    ensures k == |s| || s[k] == '\n'
  {
    if i == |s| || s[i] == '\n' then i else LineEnd(s, i + 1)
  }

  /** `.*$` at position `i` (no MULTILINE flag): `.` stops at a line feed and `$`
      matches at the end or just before a line feed that ends the subject. */
  function RestOfLine(s: string, i: nat): (r: Option<nat>)
    requires i <= |s|
    ensures r.Some? ==> i <= r.value <= |s|
    ensures '\n' !in s[i..] ==> r == Some(|s|)
  {
    var k := LineEnd(s, i);
    if k == |s| then Some(k)
    else if k == |s| - 1 then Some(k)
    else None
  }

  /** `$` at position `i`. */
  predicate AtEnd(s: string, i: nat) {
    i == |s| || (i + 1 == |s| && s[i] == '\n')
  }

  // ---------------------------------------------------------------------------
  // Properties of Sub

  /** The characters `Sub` emits come from the replacement or from positions where
      no match started: a character every one of whose occurrences starts a match,
      and which is not in the replacement, is gone. */
  lemma {:induction false} SubAvoids(s: string, m: Matcher, r: string, p: nat, c: char)
    requires c !in r
    requires forall j :: p <= j < |s| && s[j] == c ==> Hit(m, s, j)
    decreases |s| - p
    ensures c !in SubFrom(s, m, r, p)
  {
    if p < |s| {
      if Hit(m, s, p) {
        SubAvoids(s, m, r, HitEnd(m, s, p), c);
      } else {
        SubAvoids(s, m, r, p + 1, c);
      }
    }
  }

  lemma SubAvoidsAll(s: string, m: Matcher, r: string, c: char)
    requires c !in r
    requires forall j :: 0 <= j < |s| && s[j] == c ==> Hit(m, s, j)
    ensures c !in Sub(s, m, r)
  {
    SubAvoids(s, m, r, 0, c);
  }

  /** A character absent from the subject and from the replacement stays absent. */
  lemma SubKeepsAbsent(s: string, m: Matcher, r: string, c: char)
    requires c !in r && c !in s
    ensures c !in Sub(s, m, r)
  {
    SubAvoids(s, m, r, 0, c);
  }

  lemma SubAnchoredKeepsAbsent(s: string, m: Matcher, r: string, c: char)
    requires c !in r && c !in s
    ensures c !in SubAnchored(s, m, r)
  {
    if Hit(m, s, 0) {
      var e := HitEnd(m, s, 0);
      assert forall k :: 0 <= k < |s[e..]| ==> s[e..][k] == s[e + k];
    }
  }

  /** When every match runs to the end of the subject, `Sub` keeps the text before
      the first match and puts the replacement in place of the rest. */
  lemma {:induction false} SubCut(s: string, m: Matcher, r: string, p: nat)
    requires p <= |s|
    requires forall j :: p <= j < |s| && Hit(m, s, j) ==> HitEnd(m, s, j) == |s|
    decreases |s| - p
    ensures SearchFrom(s, m, p).None? ==> SubFrom(s, m, r, p) == s[p..]
    ensures SearchFrom(s, m, p).Some? ==>
              SubFrom(s, m, r, p) == s[p..SearchFrom(s, m, p).value] + r
  {
    if p < |s| {
      if Hit(m, s, p) {
        assert SubFrom(s, m, r, |s|) == [];
      } else {
        SubCut(s, m, r, p + 1);
        if SearchFrom(s, m, p).Some? {
          assert s[p..SearchFrom(s, m, p).value] == [s[p]] + s[p + 1..SearchFrom(s, m, p).value];
        } else {
          assert s[p..] == [s[p]] + s[p + 1..];
        }
      }
    }
  }
}
