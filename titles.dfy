/** The title helpers of Utils.py: `sanitize`, `is_title_a_year`,
    `extract_title_and_year` and `make_safe_filename`. */
module Titles {
  import opened Wrappers
  import opened Text
  import opened Regex
  import M3u

  /** `unidecode`, the transliteration to ASCII, which the model does not
      implement. */
  type Transliteration = string -> string

  // ---------------------------------------------------------------------------
  // Pattern pieces

  /** The end of the run of `[A-Z]` starting at `i`. */
  function SpanUpper(s: string, i: nat): (j: nat)
    requires i <= |s|
    decreases |s| - i
    ensures i <= j <= |s| && forall k :: i <= k < j ==> IsUpper(s[k])
  {
    if i < |s| && IsUpper(s[i]) then SpanUpper(s, i + 1) else i
  }

  /** The end of the run of `[A-Z0-9_]` starting at `i`. */
  function SpanCode(s: string, i: nat): (j: nat)
    requires i <= |s|
    decreases |s| - i
    ensures i <= j <= |s|
    ensures j == |s| || !(IsUpper(s[j]) || IsDigit(s[j]) || s[j] == '_')
  {
    if i < |s| && (IsUpper(s[i]) || IsDigit(s[i]) || s[i] == '_') then SpanCode(s, i + 1) else i
  }

  /** The end of `\d{1,2}` (greedy) at `i`; `i` when no digit is there. */
  function Digits12(s: string, i: nat): (j: nat)
    requires i <= |s|
    ensures i <= j <= i + 2 && j <= |s|
  {
    if i < |s| && IsDigit(s[i]) then
      if i + 1 < |s| && IsDigit(s[i + 1]) then i + 2 else i + 1
    else i
  }

  /** `\s*<sep>\s*` at `i`. */
  function SpaceSep(s: string, i: nat, sep: char): Option<nat>
    requires i <= |s|
  {
    var a := SpanSpaces(s, i);
    if a < |s| && s[a] == sep then Some(SpanSpaces(s, a + 1)) else None
  }

  /** `[A-Z]{2,3}\s*<sep>\s*` at `p`. Giving back the third letter never helps,
      since a letter is neither whitespace nor the separator. */
  function CodeSepM(sep: char): Matcher {
    (s: string, p: nat) =>
      if p > |s| then None
      else
        var u := SpanUpper(s, p);
        var k := if u - p >= 3 then p + 3 else u;
        if k - p >= 2 then SpaceSep(s, k, sep) else None
  }

  /** `<w>\s*[|]\s*` at `p`. */
  function WordBarM(w: string): Matcher {
    (s: string, p: nat) => if OccursAt(s, w, p) then SpaceSep(s, p + |w|, '|') else None
  }

  /** `\d+\.\s*` at `p`. */
  function NumberDotM(s: string, p: nat): Option<nat> {
    if p > |s| then None
    else
      var d := SpanDigits(s, p);
      if d > p && d < |s| && s[d] == '.' then Some(SpanSpaces(s, d + 1)) else None
  }

  /** `[A-Z0-9_]+:\s*` at `p`. */
  function ChannelM(s: string, p: nat): Option<nat> {
    if p > |s| then None
    else
      var c := SpanCode(s, p);
      if c > p && c < |s| && s[c] == ':' then Some(SpanSpaces(s, c + 1)) else None
  }

  /** `[0-9]+\s*[|]\s*` at `p`. */
  function NumberBarM(s: string, p: nat): Option<nat> {
    if p > |s| then None
    else
      var d := SpanDigits(s, p);
      if d > p then SpaceSep(s, d, '|') else None
  }

  /** `num":\s*\d+,\s*"name":\s*"` at `p`. */
  function JsonNameM(s: string, p: nat): Option<nat> {
    if !OccursAt(s, "num\":", p) then None
    else
      var a := SpanSpaces(s, p + 5);
      var d := SpanDigits(s, a);
      if !(d > a && d < |s| && s[d] == ',') then None
      else
        var b := SpanSpaces(s, d + 1);
        if !OccursAt(s, "\"name\":", b) then None
        else
          var c := SpanSpaces(s, b + 7);
          if c < |s| && s[c] == '"' then Some(c + 1) else None
  }

  /** The prefixes removed in turn, each anchored at the start. */
  const Prefixes: seq<Matcher> :=
    [CodeSepM('|'), CodeSepM('-'), WordBarM("VOD"), WordBarM("TV"), NumberDotM, ChannelM, NumberBarM, JsonNameM,
     CodeSepM(':')]

  /** `\s*\(<c0><c1>\)\s*` at `p`, ignoring the case of ASCII letters. */
  function CountryM(c0: char, c1: char): Matcher {
    (s: string, p: nat) =>
      if p > |s| then None
      else
        var a := SpanSpaces(s, p);
        if a + 4 <= |s| && s[a] == '(' && LowerChar(s[a + 1]) == LowerChar(c0) &&
           LowerChar(s[a + 2]) == LowerChar(c1) && s[a + 3] == ')'
        then Some(SpanSpaces(s, a + 4))
        else None
  }

  /** The country codes removed in turn. */
  const CountryCodes: seq<(char, char)> :=
    [('U', 'S'), ('G', 'B'), ('A', 'U'), ('T', 'R'), ('J', 'O'), ('C', 'A'), ('K', 'R'), ('E', 'S'), ('J', 'P'),
     ('Z', 'A'), ('I', 'T'), ('C', 'Z'), ('B', 'R'), ('A', 'E'), ('D', 'K')]

  /** `\s*S\d{1,2}(?:E\d{1,2})?\s*` at `p`, ignoring case. */
  function SeasonEpisodeM(s: string, p: nat): Option<nat> {
    if p > |s| then None
    else
      var a := SpanSpaces(s, p);
      if a < |s| && LowerChar(s[a]) == 's' && Digits12(s, a + 1) > a + 1 then
        var d := Digits12(s, a + 1);
        var e := if d < |s| && LowerChar(s[d]) == 'e' && Digits12(s, d + 1) > d + 1 then Digits12(s, d + 1) else d;
        Some(SpanSpaces(s, e))
      else None
  }

  /** `\s*E\d{1,2}\s*` at `p`, ignoring case. */
  function EpisodeM(s: string, p: nat): Option<nat> {
    if p > |s| then None
    else
      var a := SpanSpaces(s, p);
      if a < |s| && LowerChar(s[a]) == 'e' && Digits12(s, a + 1) > a + 1 then Some(SpanSpaces(s, Digits12(s, a + 1)))
      else None
  }

  /** `\s*\|.*$` at `p`. */
  function BarTailM(s: string, p: nat): Option<nat> {
    if p > |s| then None
    else
      var a := SpanSpaces(s, p);
      if a < |s| && s[a] == '|' then RestOfLine(s, a + 1) else None
  }

  /** `\s*-\s*.*$` at `p`. */
  function DashTailM(s: string, p: nat): Option<nat> {
    if p > |s| then None
    else
      var a := SpanSpaces(s, p);
      if a < |s| && s[a] == '-' then RestOfLine(s, SpanSpaces(s, a + 1)) else None
  }

  /** `\s*"$` at `p`. */
  function QuoteEndM(s: string, p: nat): Option<nat> {
    if p > |s| then None
    else
      var a := SpanSpaces(s, p);
      if a < |s| && s[a] == '"' && AtEnd(s, a + 1) then Some(a + 1) else None
  }

  /** `\s+` at `p`. */
  function SpacesM(s: string, p: nat): Option<nat> {
    if p < |s| && IsSpace(s[p]) then Some(SpanSpaces(s, p)) else None
  }

  /** `\s*\(\d{4}\)` at `p`. */
  function SpaceParenYearM(s: string, p: nat): Option<nat> {
    if p > |s| then None
    else
      var a := SpanSpaces(s, p);
      if M3u.ParenYearAt(s, a) then Some(a + 6) else None
  }

  /** `\b\d{4}\b` at `i`. */
  predicate YearWordAt(s: string, i: nat) {
    i + 4 <= |s| && Boundary(s, i) && DigitsAt(s, i, 4) && Boundary(s, i + 4)
  }

  function YearWordM(s: string, p: nat): Option<nat> {
    if YearWordAt(s, p) then Some(p + 4) else None
  }

  /** `\s*\b\d{4}\b` at `p`. */
  function SpaceYearWordM(s: string, p: nat): Option<nat> {
    if p > |s| then None
    else
      var a := SpanSpaces(s, p);
      if YearWordAt(s, a) then Some(a + 4) else None
  }

  // ---------------------------------------------------------------------------
  // The pipeline

  /** `title = re.sub(pattern, '', title).strip()`. */
  function Remove(t: string, m: Matcher): string {
    Strip(Sub(t, m, ""))
  }

  /** The same for each anchored pattern in turn. */
  function StripPrefixes(t: string, ms: seq<Matcher>): string
    decreases |ms|
  {
    if ms == [] then t else StripPrefixes(Strip(SubAnchored(t, ms[0], "")), ms[1..])
  }

  /** The same for the country code patterns in turn. */
  function StripCountries(t: string, codes: seq<(char, char)>): string
    decreases |codes|
  {
    if codes == [] then t else StripCountries(Remove(t, CountryM(codes[0].0, codes[0].1)), codes[1..])
  }

  /** The title after the `(YYYY)` year (when `year` says one was found), the
      prefixes, the country codes and the season and episode markers are
      removed. */
  function Unmarked(title: string, year: string): string {
    var t0 := if year != "" then Remove(title, SpaceParenYearM) else title;
    var t2 := StripCountries(StripPrefixes(t0, Prefixes), CountryCodes);
    Remove(Remove(t2, SeasonEpisodeM), EpisodeM)
  }

  /** The suffix loop: ` | ...`, ` - ...` and a trailing quote. */
  function StripSuffixes(t: string): string {
    Remove(Remove(Remove(t, BarTailM), DashTailM), QuoteEndM)
  }

  /** `re.sub(r'\s+', ' ', title).strip()`. */
  function Collapse(t: string): (r: string)
    ensures Trimmed(r)
  {
    Strip(Sub(t, SpacesM, " "))
  }

  /** `clean_title` before the search for a standalone year. */
  function CleanTitle(title: string, year: string): (c: string)
    ensures Trimmed(c)
  {
    Collapse(StripSuffixes(Unmarked(title, year)))
  }

  datatype TitleYear = TitleYear(title: string, year: string)

  /** The search for a standalone year when no `(YYYY)` was found: the first
      whole-word four-digit number, which is then removed from the title with
      every other one. */
  function FallbackYear(clean: string): (r: TitleYear)
    ensures r.year == "" || (|r.year| == 4 && AllDigits(r.year))
    ensures (forall p :: !YearWordAt(clean, p)) ==> r == TitleYear(clean, "")
    ensures forall p: nat :: YearWordAt(clean, p) && (forall q: nat :: q < p ==> !YearWordAt(clean, q)) ==>
              r == TitleYear(Remove(clean, SpaceYearWordM), clean[p..p + 4])
    ensures Trimmed(clean) ==> Trimmed(r.title)
    // no whole-word four-digit number is left in the title
    ensures forall p :: !YearWordAt(r.title, p)
  {
    assert forall j :: Hit(YearWordM, clean, j) <==> YearWordAt(clean, j);
    match Search(clean, YearWordM)
    case Some(p) =>
      DigitsAtSlice(clean, p, 4);
      NoYearWordLeft(clean);
      TitleYear(Remove(clean, SpaceYearWordM), clean[p..p + 4])
    case None => TitleYear(clean, "")
  }

  /** `\b\d{4}\b` at `i` of `t`, where `lw` says whether the text emitted
      before `t` ends in a word character. */
  predicate YearWordAfter(lw: bool, t: string, i: nat) {
    i + 4 <= |t| && (if i == 0 then lw else IsWord(t[i - 1])) != IsWord(t[i]) &&
    DigitsAt(t, i, 4) && Boundary(t, i + 4)
  }

  /** Removing `\s*\b\d{4}\b` everywhere, then stripping, leaves no whole-word
      four-digit number. */
  lemma NoYearWordLeft(s: string)
    ensures forall q :: !YearWordAt(Remove(s, SpaceYearWordM), q)
  {
    var t := Sub(s, SpaceYearWordM, "");
    NoYearWordFrom(s, 0, false);
    assert forall q :: YearWordAt(t, q) ==> YearWordAfter(false, t, q);
    StripKeepsNoYearWord(t);
  }

  /** A match of `\s*\b\d{4}\b` ends on a digit followed by a non-word
      character or the end. */
  lemma SpaceYearWordEnd(s: string, p: nat)
    requires Hit(SpaceYearWordM, s, p)
    ensures var e := HitEnd(SpaceYearWordM, s, p);
      IsDigit(s[e - 1]) && (e == |s| || !IsWord(s[e]))
  {
  }

  /** Where the text before `j` is a non-word character (or nothing), what the
      substitution emits from `j` starts with one too, or is empty. */
  lemma {:induction false} EmitsNonWordFirst(s: string, j: nat)
    requires j <= |s| && (j == |s| || !IsWord(s[j]))
    decreases |s| - j
    ensures var out := SubFrom(s, SpaceYearWordM, "", j); out == [] || !IsWord(out[0])
  {
    if j < |s| && Hit(SpaceYearWordM, s, j) {
      var e := HitEnd(SpaceYearWordM, s, j);
      SpaceYearWordEnd(s, j);
      EmitsNonWordFirst(s, e);
    }
  }

  /** No match starts inside a run of word characters, so after a word character
      the next one is copied and a non-word character (or nothing) comes next
      otherwise. */
  lemma AfterWord(s: string, j: nat)
    requires 0 < j <= |s| && IsWord(s[j - 1])
    ensures j < |s| && IsWord(s[j]) ==>
              SubFrom(s, SpaceYearWordM, "", j) == [s[j]] + SubFrom(s, SpaceYearWordM, "", j + 1)
    ensures !(j < |s| && IsWord(s[j])) ==>
              var out := SubFrom(s, SpaceYearWordM, "", j); out == [] || !IsWord(out[0])
  {
    if j < |s| && IsWord(s[j]) {
      assert !Hit(SpaceYearWordM, s, j);
    } else {
      EmitsNonWordFirst(s, j);
    }
  }

  /** `t` starts with `n` word characters. */
  predicate WordPrefix(t: string, n: nat) {
    n <= |t| && forall i :: 0 <= i < n ==> IsWord(t[i])
  }

  lemma WordPrefixTail(c: char, t: string, n: nat)
    requires n > 0 && WordPrefix([c] + t, n)
    ensures IsWord(c) && WordPrefix(t, n - 1)
  {
    assert ([c] + t)[0] == c;
    assert forall i :: 0 <= i < |t| ==> ([c] + t)[i + 1] == t[i];
  }

  lemma ConsSlice(s: string, j: nat, n: nat, rest: string, tail: string)
    requires 0 < n && j + n <= |s| && rest == s[j + 1..j + n] + tail
    ensures [s[j]] + rest == s[j..j + n] + tail
  {
    assert [s[j]] + s[j + 1..j + n] == s[j..j + n];
  }

  /** After a word character, `n` word characters emitted are `n` characters of
      the subject copied as they are. */
  lemma {:induction false} WordsKept(s: string, j: nat, n: nat)
    requires 0 < j <= |s| && IsWord(s[j - 1])
    requires WordPrefix(SubFrom(s, SpaceYearWordM, "", j), n)
    decreases n
    ensures j + n <= |s|
    ensures SubFrom(s, SpaceYearWordM, "", j) == s[j..j + n] + SubFrom(s, SpaceYearWordM, "", j + n)
  {
    var out := SubFrom(s, SpaceYearWordM, "", j);
    if n > 0 {
      AfterWord(s, j);
      assert out != [] && IsWord(out[0]);
      var rest := SubFrom(s, SpaceYearWordM, "", j + 1);
      assert out == [s[j]] + rest;
      WordPrefixTail(s[j], rest, n);
      WordsKept(s, j + 1, n - 1);
      ConsSlice(s, j, n, rest, SubFrom(s, SpaceYearWordM, "", j + n));
    } else {
      assert s[j..j] + out == out;
    }
  }

  /** No whole-word four-digit number is emitted from a position `p` the
      substitution reaches, when `lw` says whether the emitted text so far ends
      in a word character: such a word right after a word character, or
      starting right after a match, cannot begin there. */
  lemma {:induction false} NoYearWordFrom(s: string, p: nat, lw: bool)
    requires p <= |s|
    requires lw ==> 0 < p && IsWord(s[p - 1])
    requires !lw && 0 < p && IsWord(s[p - 1]) ==> p == |s| || !IsWord(s[p])
    decreases |s| - p
    ensures forall q :: !YearWordAfter(lw, SubFrom(s, SpaceYearWordM, "", p), q)
  {
    var out := SubFrom(s, SpaceYearWordM, "", p);
    if p < |s| {
      if Hit(SpaceYearWordM, s, p) {
        var e := HitEnd(SpaceYearWordM, s, p);
        SpaceYearWordEnd(s, p);
        NoYearWordFrom(s, e, lw);
        assert out == "" + SubFrom(s, SpaceYearWordM, "", e);
        assert out == SubFrom(s, SpaceYearWordM, "", e);
      } else {
        var rest := SubFrom(s, SpaceYearWordM, "", p + 1);
        assert out == [s[p]] + rest;
        NoYearWordFrom(s, p + 1, IsWord(s[p]));
        forall q: nat | YearWordAfter(lw, out, q)
          ensures false
        {
          if q > 0 {
            ShiftYearWord(lw, s[p], rest, q);
          } else {
            NoYearWordAtStart(s, p, lw);
          }
        }
      }
    }
  }

  /** A whole-word number past the first character of `[c] + t` is one of `t`. */
  lemma ShiftYearWord(lw: bool, c: char, t: string, q: nat)
    requires q > 0 && YearWordAfter(lw, [c] + t, q)
    ensures YearWordAfter(IsWord(c), t, q - 1)
  {
    var u := [c] + t;
    assert forall k :: 0 <= k < |t| ==> u[k + 1] == t[k];
    assert u[q - 1] == (if q == 1 then c else t[q - 2]);
  }

  /** The case of `NoYearWordFrom` where the word would start at `p` itself. */
  lemma NoYearWordAtStart(s: string, p: nat, lw: bool)
    requires p < |s| && !Hit(SpaceYearWordM, s, p)
    requires !lw && 0 < p && IsWord(s[p - 1]) ==> !IsWord(s[p])
    ensures !YearWordAfter(lw, SubFrom(s, SpaceYearWordM, "", p), 0)
  {
    var rest := SubFrom(s, SpaceYearWordM, "", p + 1);
    assert SubFrom(s, SpaceYearWordM, "", p) == [s[p]] + rest;
    if YearWordAfter(lw, [s[p]] + rest, 0) {
      YearWordHead(lw, s[p], rest);
      WordsKept(s, p + 1, 3);
      var tail := SubFrom(s, SpaceYearWordM, "", p + 4);
      YearWordSplit(lw, s[p], s[p + 1..p + 4], tail);
      AfterWord(s, p + 4);
      YearWordOfParts(s, p);
    }
  }

  /** A whole-word four-digit number at the start of `[c] + rest` starts with
      the digit `c`, after no word character, and goes on with three word
      characters. */
  lemma YearWordHead(lw: bool, c: char, rest: string)
    requires YearWordAfter(lw, [c] + rest, 0)
    ensures !lw && IsDigit(c) && WordPrefix(rest, 3)
  {
    var u := [c] + rest;
    assert u[0] == c;
    assert forall k :: 0 <= k < 3 ==> u[k + 1] == rest[k];
  }

  /** The same word, with the three characters after `c` split off as `mid`: they
      are digits, and a non-word character or nothing follows them. */
  lemma YearWordSplit(lw: bool, c: char, mid: string, tail: string)
    requires |mid| == 3 && YearWordAfter(lw, [c] + (mid + tail), 0)
    ensures AllDigits(mid) && (tail == [] || !IsWord(tail[0]))
  {
    var u := [c] + (mid + tail);
    assert forall k :: 0 <= k < 3 ==> u[k + 1] == mid[k];
    assert tail != [] ==> u[4] == tail[0];
  }

  /** A digit and three more after a non-word character (or the start), then a
      non-word character (or the end), make a whole-word four-digit number,
      where `\s*\b\d{4}\b` matches. */
  lemma YearWordOfParts(s: string, p: nat)
    requires p + 4 <= |s| && IsDigit(s[p]) && AllDigits(s[p + 1..p + 4])
    requires p == 0 || !IsWord(s[p - 1])
    requires p + 4 == |s| || !IsWord(s[p + 4])
    ensures YearWordAt(s, p) && Hit(SpaceYearWordM, s, p)
  {
    var mid := s[p + 1..p + 4];
    assert forall k :: p + 1 <= k < p + 4 ==> s[k] == mid[k - p - 1];
    assert DigitsAt(s, p, 4);
  }

  /** A whole-word four-digit number of the stripped text is one of the text:
      what strip removes is not a word character. */
  lemma StripYearWord(t: string, q: nat)
    requires YearWordAt(Strip(t), q)
    ensures YearWordAt(t, StripLo(t) + q)
  {
    var r := Strip(t);
    var a := StripLo(t);
    StripSlice(t);
    assert forall k :: 0 <= k < |r| ==> r[k] == t[a + k];
    assert q == 0 && a > 0 ==> IsSpace(t[a - 1]);
    assert q + 4 == |r| && a + q + 4 < |t| ==> IsSpace(t[a + q + 4]);
    assert DigitsAt(t, a + q, 4) && Boundary(t, a + q) && Boundary(t, a + q + 4);
  }

  /** Stripping keeps a text free of whole-word four-digit numbers. */
  lemma StripKeepsNoYearWord(t: string)
    requires forall q :: !YearWordAt(t, q)
    ensures forall q :: !YearWordAt(Strip(t), q)
  {
    forall q: nat | YearWordAt(Strip(t), q)
      ensures false
    {
      StripYearWord(t, q);
    }
  }

  /** `extract_title_and_year(title)`. */
  function ExtractTitleAndYear(title: string): (r: TitleYear)
    ensures r.year == "" || (|r.year| == 4 && AllDigits(r.year))
    ensures Trimmed(r.title)
  {
    var year := M3u.YearIn(title, "");
    var clean := CleanTitle(title, year);
    if year != "" then TitleYear(clean, year) else FallbackYear(clean)
  }

  // ---------------------------------------------------------------------------
  // Properties of extract_title_and_year

  /** The year is the first `(YYYY)` of the input when there is one, and the title
      is then the text cleaned with that year. */
  lemma YearFound(title: string, p: nat)
    requires M3u.ParenYearAt(title, p) && forall q: nat :: q < p ==> !M3u.ParenYearAt(title, q)
    ensures ExtractTitleAndYear(title) == TitleYear(CleanTitle(title, title[p + 1..p + 5]), title[p + 1..p + 5])
  {
    assert M3u.YearIn(title, "") == title[p + 1..p + 5];
  }

  /** Without a `(YYYY)`, both come from the standalone-year search over the
      cleaned text. */
  lemma YearNotFound(title: string)
    requires forall p :: !M3u.ParenYearAt(title, p)
    ensures ExtractTitleAndYear(title) == FallbackYear(CleanTitle(title, ""))
  {
    assert M3u.YearIn(title, "") == "";
  }

  /** `re.sub(r'\s+', ' ', ·)` leaves no two whitespace characters side by side
      (from position `p`, with `prev` telling whether the output so far ends in
      whitespace). */
  lemma {:induction false} CollapseFrom(s: string, p: nat, prev: bool)
    requires prev ==> p > 0 && p - 1 < |s| && IsSpace(s[p - 1]) && Hit(SpacesM, s, p - 1)
    requires prev ==> HitEnd(SpacesM, s, p - 1) == p
    decreases |s| - p
    ensures var out := SubFrom(s, SpacesM, " ", p);
      NoDoubleSpace(out) && (out != [] && IsSpace(out[0]) ==> p < |s| && Hit(SpacesM, s, p))
      && (prev && out != [] ==> !IsSpace(out[0]))
  {
    if p < |s| {
      if Hit(SpacesM, s, p) {
        var e := HitEnd(SpacesM, s, p);
        CollapseFrom(s, e, true);
        var rest := SubFrom(s, SpacesM, " ", e);
        assert SubFrom(s, SpacesM, " ", p) == " " + rest;
        if prev {
          assert false;
        }
      } else {
        CollapseFrom(s, p + 1, false);
      }
    }
  }

  /** Whitespace collapsing gives a text without runs of whitespace. */
  lemma CollapseNoDoubleSpace(s: string)
    ensures NoDoubleSpace(Sub(s, SpacesM, " "))
  {
    CollapseFrom(s, 0, false);
  }

  /** A matcher made of `\s*` followed by something that does not start with
      whitespace: a match at `i + 1` after a whitespace character is also one at
      `i`. */
  predicate SpaceLed(s: string, m: Matcher) {
    forall i :: 0 <= i < |s| - 1 && IsSpace(s[i]) && Hit(m, s, i + 1) ==> Hit(m, s, i)
  }

  /** Removing every match of a whitespace-led pattern keeps a text free of runs
      of whitespace (`prev`: the output so far ends in whitespace, namely
      `s[p - 1]`, which no match covered). */
  lemma {:induction false} RemoveSpaceLedFrom(s: string, m: Matcher, p: nat, prev: bool)
    requires NoDoubleSpace(s) && SpaceLed(s, m)
    requires prev ==> 0 < p <= |s| && IsSpace(s[p - 1]) && !Hit(m, s, p - 1)
    decreases |s| - p
    ensures var out := SubFrom(s, m, "", p);
      NoDoubleSpace(out) && (prev && out != [] ==> !IsSpace(out[0]))
  {
    if p < |s| {
      if Hit(m, s, p) {
        if prev {
          assert false;
        }
        RemoveSpaceLedFrom(s, m, HitEnd(m, s, p), false);
      } else {
        RemoveSpaceLedFrom(s, m, p + 1, IsSpace(s[p]));
        var rest := SubFrom(s, m, "", p + 1);
        assert SubFrom(s, m, "", p) == [s[p]] + rest;
        if prev {
          assert !IsSpace(s[p]);
        }
      }
    }
  }

  lemma SpaceYearWordLed(s: string)
    ensures SpaceLed(s, SpaceYearWordM)
  {
    forall i | 0 <= i < |s| - 1 && IsSpace(s[i]) && Hit(SpaceYearWordM, s, i + 1)
      ensures Hit(SpaceYearWordM, s, i)
    {
      assert SpanSpaces(s, i) == SpanSpaces(s, i + 1);
    }
  }

  /** The characters a step keeps come from its input. */
  lemma StripCountriesKeepsAbsent(t: string, codes: seq<(char, char)>, c: char)
    requires c !in t
    decreases |codes|
    ensures c !in StripCountries(t, codes)
  {
    if codes != [] {
      RemoveKeepsAbsent(t, CountryM(codes[0].0, codes[0].1), "", c);
      StripCountriesKeepsAbsent(Remove(t, CountryM(codes[0].0, codes[0].1)), codes[1..], c);
    }
  }

  lemma StripPrefixesKeepsAbsent(t: string, ms: seq<Matcher>, c: char)
    requires c !in t
    decreases |ms|
    ensures c !in StripPrefixes(t, ms)
  {
    if ms != [] {
      SubAnchoredKeepsAbsent(t, ms[0], "", c);
      if c in Strip(SubAnchored(t, ms[0], "")) {
        StripChars(SubAnchored(t, ms[0], ""), c);
      }
      StripPrefixesKeepsAbsent(Strip(SubAnchored(t, ms[0], "")), ms[1..], c);
    }
  }

  /** `Strip(Sub(t, m, r))` keeps a character absent from `t` and `r` absent. */
  lemma RemoveKeepsAbsent(t: string, m: Matcher, r: string, c: char)
    requires c !in t && c !in r
    ensures c !in Strip(Sub(t, m, r))
  {
    SubKeepsAbsent(t, m, r, c);
    if c in Strip(Sub(t, m, r)) {
      StripChars(Sub(t, m, r), c);
    }
  }

  /** A pattern that, at each occurrence of `c` in a single-line text, matches
      from there to the end: what its removal keeps has no `c`, and no line
      feed. */
  lemma CutRemoves(t: string, m: Matcher, c: char)
    requires '\n' !in t
    requires forall p :: Hit(m, t, p) ==> HitEnd(m, t, p) == |t|
    requires forall p :: 0 <= p < |t| && t[p] == c ==> Hit(m, t, p)
    ensures c !in Remove(t, m) && '\n' !in Remove(t, m)
  {
    M3u.CutAtFirst(t, m);
    var u := Sub(t, m, "");
    assert forall k :: 0 <= k < |u| ==> u[k] == t[k] && u[k] != c;
    if c in Strip(u) {
      StripChars(u, c);
    }
    if '\n' in Strip(u) {
      StripChars(u, '\n');
    }
  }

  lemma BarCut(t: string)
    requires '\n' !in t
    ensures '|' !in Remove(t, BarTailM) && '\n' !in Remove(t, BarTailM)
  {
    forall p | Hit(BarTailM, t, p) ensures HitEnd(BarTailM, t, p) == |t| {
    }
    CutRemoves(t, BarTailM, '|');
  }

  lemma DashCut(t: string)
    requires '\n' !in t
    ensures '-' !in Remove(t, DashTailM)
  {
    forall p | Hit(DashTailM, t, p) ensures HitEnd(DashTailM, t, p) == |t| {
    }
    CutRemoves(t, DashTailM, '-');
  }

  /** With a single-line text, the suffix loop leaves no `|` and no `-`. */
  lemma SuffixesRemove(t: string)
    requires '\n' !in t
    ensures var r := StripSuffixes(t); '|' !in r && '-' !in r
  {
    BarCut(t);
    var u := Remove(t, BarTailM);
    DashCut(u);
    RemoveKeepsAbsent(u, DashTailM, "", '|');
    var v := Remove(u, DashTailM);
    RemoveKeepsAbsent(v, QuoteEndM, "", '|');
    RemoveKeepsAbsent(v, QuoteEndM, "", '-');
  }

  /** The steps before the suffixes keep a single-line title on one line. */
  lemma UnmarkedSingleLine(title: string, year: string)
    requires '\n' !in title
    ensures '\n' !in Unmarked(title, year)
  {
    var t0 := if year != "" then Remove(title, SpaceParenYearM) else title;
    if year != "" {
      RemoveKeepsAbsent(title, SpaceParenYearM, "", '\n');
    }
    StripPrefixesKeepsAbsent(t0, Prefixes, '\n');
    var t1 := StripPrefixes(t0, Prefixes);
    StripCountriesKeepsAbsent(t1, CountryCodes, '\n');
    var t2 := StripCountries(t1, CountryCodes);
    RemoveKeepsAbsent(t2, SeasonEpisodeM, "", '\n');
    RemoveKeepsAbsent(Remove(t2, SeasonEpisodeM), EpisodeM, "", '\n');
  }

  /** Collapsing whitespace adds no `|` or `-` and leaves no runs of whitespace. */
  lemma CollapseShape(t: string)
    ensures NoDoubleSpace(Collapse(t))
    ensures '|' !in t ==> '|' !in Collapse(t)
    ensures '-' !in t ==> '-' !in Collapse(t)
  {
    CollapseNoDoubleSpace(t);
    StripKeepsNoDoubleSpace(Sub(t, SpacesM, " "));
    if '|' !in t {
      RemoveKeepsAbsent(t, SpacesM, " ", '|');
    }
    if '-' !in t {
      RemoveKeepsAbsent(t, SpacesM, " ", '-');
    }
  }

  /** The cleaned title of a single-line input has no `|`, no `-` and no runs of
      whitespace. */
  lemma CleanTitleShape(title: string, year: string)
    requires '\n' !in title
    ensures var c := CleanTitle(title, year); '|' !in c && '-' !in c && NoDoubleSpace(c)
  {
    UnmarkedSingleLine(title, year);
    SuffixesRemove(Unmarked(title, year));
    CollapseShape(StripSuffixes(Unmarked(title, year)));
  }

  /** Removing the standalone years keeps these properties. */
  lemma FallbackShape(clean: string)
    requires '|' !in clean && '-' !in clean && NoDoubleSpace(clean)
    ensures var r := FallbackYear(clean).title; '|' !in r && '-' !in r && NoDoubleSpace(r)
  {
    RemoveKeepsAbsent(clean, SpaceYearWordM, "", '|');
    RemoveKeepsAbsent(clean, SpaceYearWordM, "", '-');
    SpaceYearWordLed(clean);
    RemoveSpaceLedFrom(clean, SpaceYearWordM, 0, false);
    StripKeepsNoDoubleSpace(Sub(clean, SpaceYearWordM, ""));
  }

  /** The title `extract_title_and_year` returns for a single-line input has no
      `|`, no `-`, no whitespace at either end and no runs of whitespace. */
  lemma TitleShape(title: string)
    requires '\n' !in title
    ensures var r := ExtractTitleAndYear(title).title;
      '|' !in r && '-' !in r && Trimmed(r) && NoDoubleSpace(r)
  {
    var year := M3u.YearIn(title, "");
    CleanTitleShape(title, year);
    FallbackShape(CleanTitle(title, year));
  }

  // ---------------------------------------------------------------------------
  // is_title_a_year

  /** `^\((\d{4})\)$` at the start of `s`. */
  predicate WholeParenYear(s: string) {
    M3u.ParenYearAt(s, 0) && AtEnd(s, 6)
  }

  /** `is_title_a_year(title)`: the trimmed title, with `(YYYY)` unwrapped, is
      `\d{4}` up to `$`. */
  function IsTitleAYear(title: string): bool {
    var clean := Strip(title);
    var unwrapped := if WholeParenYear(clean) then clean[1..5] + clean[6..] else clean;
    DigitsAt(unwrapped, 0, 4) && AtEnd(unwrapped, 4)
  }

  /** A title is a year exactly when, trimmed, it is four digits or four digits in
      parentheses. */
  lemma IsTitleAYearIff(title: string)
    ensures IsTitleAYear(title) <==>
      var c := Strip(title);
      (|c| == 4 && AllDigits(c)) || (|c| == 6 && c[0] == '(' && AllDigits(c[1..5]) && c[5] == ')')
  {
    var c := Strip(title);
    if WholeParenYear(c) {
      assert |c| == 6;
      DigitsAtSlice(c, 1, 4);
      assert c[1..5] + c[6..] == c[1..5];
    } else {
      if |c| == 6 && c[0] == '(' && AllDigits(c[1..5]) && c[5] == ')' {
        assert forall k :: 1 <= k < 5 ==> c[1..5][k - 1] == c[k];
        assert WholeParenYear(c);
      }
    }
  }

  // ---------------------------------------------------------------------------
  // sanitize

  /** `[<>:"/\\|?*]`. */
  const IllegalChars: seq<char> := ['<', '>', ':', '"', '/', '\\', '|', '?', '*']

  function IllegalM(s: string, p: nat): Option<nat> {
    if p < |s| && s[p] in IllegalChars then Some(p + 1) else None
  }

  /** `sanitize(name)` as written: `unidecode` is not bound in the module (it is
      imported only inside `remove_non_ascii`), so the first line raises. */
  function SanitizeAsWritten(name: string): (r: Result<string>)
    ensures r.Err? && r.error == NameError
  {
    Err(NameError)
  }

  /** `sanitize(name)` with the transliteration bound. */
  function Sanitize(unidecode: Transliteration, name: string): string {
    var a := unidecode(name);
    var b := SubAnchored(a, NumberDotM, "");
    var c := Sub(b, IllegalM, "");
    M3u.AsciiOnly(Strip(Sub(c, SpacesM, " ")))
  }

  /** The result of `sanitize` is ASCII and holds no character illegal in a
      Windows file name; when the transliteration gives ASCII it is also trimmed
      and without runs of whitespace. */
  lemma SanitizeSafe(unidecode: Transliteration, name: string)
    ensures var r := Sanitize(unidecode, name);
      AllAscii(r) && (forall k :: 0 <= k < |r| ==> r[k] !in IllegalChars)
    ensures AllAscii(unidecode(name)) ==> var r := Sanitize(unidecode, name); Trimmed(r) && NoDoubleSpace(r)
  {
    var a := unidecode(name);
    var b := SubAnchored(a, NumberDotM, "");
    var c := Sub(b, IllegalM, "");
    var d := Strip(Sub(c, SpacesM, " "));
    forall k | 0 <= k < |IllegalChars| ensures IllegalChars[k] !in d {
      var x := IllegalChars[k];
      SubAvoidsAll(b, IllegalM, "", x);
      RemoveKeepsAbsent(c, SpacesM, " ", x);
    }
    CollapseNoDoubleSpace(c);
    StripKeepsNoDoubleSpace(Sub(c, SpacesM, " "));
    if AllAscii(a) {
      AsciiKept(a, b, c, d);
      M3u.AsciiOnlyOfAscii(d);
    }
  }

  lemma AsciiKept(a: string, b: string, c: string, d: string)
    requires AllAscii(a)
    requires b == SubAnchored(a, NumberDotM, "") && c == Sub(b, IllegalM, "") && d == Strip(Sub(c, SpacesM, " "))
    ensures AllAscii(d)
  {
    forall k | 0 <= k < |d| ensures IsAscii(d[k]) {
      var x := d[k];
      if !IsAscii(x) {
        assert x !in a;
        SubAnchoredKeepsAbsent(a, NumberDotM, "", x);
        SubKeepsAbsent(b, IllegalM, "", x);
        RemoveKeepsAbsent(c, SpacesM, " ", x);
        assert false;
      }
    }
  }

  /** `sanitize` substitutes no placeholder: a name made only of illegal
      characters comes back empty. */
  lemma SanitizeMayBeEmpty(unidecode: Transliteration)
    requires unidecode("<>") == "<>"
    ensures Sanitize(unidecode, "<>") == ""
  {
    assert SubAnchored("<>", NumberDotM, "") == "<>";
    assert Sub("<>", IllegalM, "") == "";
  }

  // ---------------------------------------------------------------------------
  // make_safe_filename

  function SafeChar(c: char): char { if IsAlnum(c) then c else '.' }

  /** Each character kept when alphanumeric, a dot otherwise. */
  function SafeChars(s: string): (r: string)
    ensures |r| == |s| && forall k :: 0 <= k < |s| ==> r[k] == SafeChar(s[k])
  {
    if s == [] then [] else [SafeChar(s[0])] + SafeChars(s[1..])
  }

  /** `s.rstrip(".")`. */
  function RStripDots(s: string): (r: string)
    ensures |r| <= |s| && r == s[..|r|] && (r == [] || r[|r| - 1] != '.')
    ensures forall k :: |r| <= k < |s| ==> s[k] == '.'
  {
    if s != [] && s[|s| - 1] == '.' then RStripDots(s[..|s| - 1]) else s
  }

  /** `make_safe_filename(s)`. */
  function MakeSafeFilename(s: string): string {
    RStripDots(SafeChars(s))
  }

  predicate SafeName(s: string) { forall k :: 0 <= k < |s| ==> IsAlnum(s[k]) || s[k] == '.' }

  /** The result holds only alphanumerics and dots, does not end in a dot, maps
      each kept position of the input, and only dots were dropped from its end. */
  lemma MakeSafeFilenameShape(s: string)
    ensures var r := MakeSafeFilename(s);
      SafeName(r) && (r == [] || r[|r| - 1] != '.') && |r| <= |s| &&
      (forall k :: 0 <= k < |r| ==> r[k] == SafeChar(s[k])) &&
      (forall k :: |r| <= k < |s| ==> !IsAlnum(s[k]) || s[k] == '.')
  {
    var t := SafeChars(s);
    var r := RStripDots(t);
    forall k | 0 <= k < |r| ensures r[k] == t[k] {
      assert r == t[..|r|];
    }
  }

  /** Applying `make_safe_filename` twice is applying it once. */
  lemma {:induction false} MakeSafeFilenameIdempotent(s: string)
    ensures MakeSafeFilename(MakeSafeFilename(s)) == MakeSafeFilename(s)
  {
    MakeSafeFilenameShape(s);
    var r := MakeSafeFilename(s);
    assert SafeChars(r) == r by {
      forall k | 0 <= k < |r| ensures SafeChars(r)[k] == r[k] {
      }
    }
    assert RStripDots(r) == r;
  }

  // ---------------------------------------------------------------------------
  // A worked example

  /** Every match of `m` in `s` starts, after optional whitespace, at one of
      `starts`. */
  predicate LedBy(m: Matcher, s: string, starts: set<nat>) {
    forall j :: 0 <= j < |s| && Hit(m, s, j) ==> SpanSpaces(s, j) < |s| && SpanSpaces(s, j) in starts
  }

  lemma NoHitBefore(s: string, m: Matcher, starts: set<nat>, p: nat, q: nat)
    requires p < q <= |s| && LedBy(m, s, starts)
    requires forall k :: p <= k < q ==> k !in starts
    requires q == |s| || !IsSpace(s[q - 1])
    ensures !Hit(m, s, p)
  {
  }

  lemma SubStep(s: string, m: Matcher, r: string, p: nat, q: nat)
    requires p < q <= |s| && !Hit(m, s, p)
    requires SubFrom(s, m, r, p + 1) == s[p + 1..q] + SubFrom(s, m, r, q)
    ensures SubFrom(s, m, r, p) == s[p..q] + SubFrom(s, m, r, q)
  {
    var rest := SubFrom(s, m, r, q);
    assert SubFrom(s, m, r, p) == [s[p]] + (s[p + 1..q] + rest);
    assert [s[p]] + (s[p + 1..q] + rest) == ([s[p]] + s[p + 1..q]) + rest;
    assert [s[p]] + s[p + 1..q] == s[p..q];
  }

  /** `re.sub` copies a stretch where no match starts that ends in a
      non-whitespace character (or at the end). */
  lemma {:induction false} SkipFree(s: string, m: Matcher, r: string, starts: set<nat>, p: nat, q: nat)
    requires p <= q <= |s| && LedBy(m, s, starts)
    requires forall k :: p <= k < q ==> k !in starts
    requires p == q || q == |s| || !IsSpace(s[q - 1])
    decreases q - p
    ensures SubFrom(s, m, r, p) == s[p..q] + SubFrom(s, m, r, q)
  {
    if p < q {
      NoHitBefore(s, m, starts, p, q);
      SkipFree(s, m, r, starts, p + 1, q);
      SubStep(s, m, r, p, q);
    }
  }

  lemma CountryLead(c0: char, c1: char, s: string, j: nat)
    requires Hit(CountryM(c0, c1), s, j)
    ensures SpanSpaces(s, j) < |s| && s[SpanSpaces(s, j)] == '('
  {
  }

  lemma SeasonLead(s: string, j: nat)
    requires Hit(SeasonEpisodeM, s, j)
    ensures SpanSpaces(s, j) + 1 < |s| && s[SpanSpaces(s, j)] in {'s', 'S'} && IsDigit(s[SpanSpaces(s, j) + 1])
  {
  }

  lemma EpisodeLead(s: string, j: nat)
    requires Hit(EpisodeM, s, j)
    ensures SpanSpaces(s, j) + 1 < |s| && s[SpanSpaces(s, j)] in {'e', 'E'} && IsDigit(s[SpanSpaces(s, j) + 1])
  {
  }

  /** Text without `(` is left alone by the country codes. */
  lemma {:induction false} CountriesIdle(t: string, codes: seq<(char, char)>)
    requires '(' !in t && Trimmed(t)
    decreases |codes|
    ensures StripCountries(t, codes) == t
  {
    if codes != [] {
      CountryIdle(t, codes[0].0, codes[0].1);
      CountriesIdle(t, codes[1..]);
    }
  }

  lemma CountryIdle(t: string, c0: char, c1: char)
    requires '(' !in t && Trimmed(t)
    ensures Remove(t, CountryM(c0, c1)) == t
  {
    var m := CountryM(c0, c1);
    forall j | 0 <= j < |t| ensures !Hit(m, t, j) {
      if Hit(m, t, j) {
        CountryLead(c0, c1, t, j);
      }
    }
    RemoveIdle(t, m);
  }

  lemma {:induction false} PrefixesIdle(t: string, ms: seq<Matcher>)
    requires Trimmed(t) && forall k :: 0 <= k < |ms| ==> !Hit(ms[k], t, 0)
    decreases |ms|
    ensures StripPrefixes(t, ms) == t
  {
    if ms != [] {
      StripOfTrimmed(t);
      PrefixesIdle(t, ms[1..]);
    }
  }

  lemma JsonNameLead(s: string, p: nat)
    requires Hit(JsonNameM, s, p)
    ensures s[p] == 'n'
  {
    assert s[p..p + 5][0] == 'n';
  }

  /** A text in which matches start only at `p` (whose whitespace ends at
      `a`) and the one there runs to `e`. */
  lemma SubOnce(s: string, m: Matcher, r: string, p: nat, a: nat, e: nat)
    requires p <= a < e <= |s| && LedBy(m, s, {a}) && m(s, p) == Some(e)
    requires p == 0 || !IsSpace(s[p - 1])
    ensures Sub(s, m, r) == s[..p] + r + s[e..]
  {
    SkipFree(s, m, r, {a}, 0, p);
    SkipFree(s, m, r, {a}, e, |s|);
    assert s[e..|s|] == s[e..];
  }

  lemma SistersNoSeparator()
    ensures var s := "1000-lb Sisters (US) S02 E01";
      !Hit(CodeSepM('|'), s, 0) && !Hit(CodeSepM('-'), s, 0) && !Hit(CodeSepM(':'), s, 0)
  {
  }

  lemma SistersNoWordBar()
    ensures var s := "1000-lb Sisters (US) S02 E01"; !Hit(WordBarM("VOD"), s, 0) && !Hit(WordBarM("TV"), s, 0)
  {
    var s := "1000-lb Sisters (US) S02 E01";
    assert s[0..3][0] == s[0] == '1';
    assert s[0..2][0] == s[0];
  }

  lemma SistersNoNumberDot()
    ensures !Hit(NumberDotM, "1000-lb Sisters (US) S02 E01", 0)
  {
    LeadingYearDash("1000-lb Sisters (US) S02 E01");
  }

  lemma SistersNoChannel()
    ensures !Hit(ChannelM, "1000-lb Sisters (US) S02 E01", 0)
  {
    assert SpanCode("1000-lb Sisters (US) S02 E01", 0) == 4;
  }

  lemma SistersNoNumberBar()
    ensures !Hit(NumberBarM, "1000-lb Sisters (US) S02 E01", 0)
  {
    var s := "1000-lb Sisters (US) S02 E01";
    LeadingYearDash(s);
    assert SpaceSep(s, 4, '|') == None;
  }

  /** Four digits and a dash open the title. */
  lemma LeadingYearDash(s: string)
    requires s == "1000-lb Sisters (US) S02 E01"
    ensures SpanDigits(s, 0) == 4 && SpanSpaces(s, 4) == 4 && s[4] == '-'
  {
    assert IsDigit(s[0]) && IsDigit(s[1]) && IsDigit(s[2]) && IsDigit(s[3]) && !IsDigit(s[4]);
    assert !IsSpace(s[4]);
  }

  lemma SistersPrefixes()
    ensures StripPrefixes("1000-lb Sisters (US) S02 E01", Prefixes) == "1000-lb Sisters (US) S02 E01"
  {
    var s := "1000-lb Sisters (US) S02 E01";
    forall k | 0 <= k < |Prefixes| ensures !Hit(Prefixes[k], s, 0) {
      SistersNoPrefix(k);
    }
    PrefixesIdle(s, Prefixes);
  }

  lemma SistersNoPrefix(k: nat)
    requires k < |Prefixes|
    ensures !Hit(Prefixes[k], "1000-lb Sisters (US) S02 E01", 0)
  {
    var s := "1000-lb Sisters (US) S02 E01";
    if k == 0 || k == 1 || k == 8 {
      SistersNoSeparator();
    } else if k == 2 || k == 3 {
      SistersNoWordBar();
    } else if k == 4 {
      SistersNoNumberDot();
    } else if k == 5 {
      SistersNoChannel();
    } else if k == 6 {
      SistersNoNumberBar();
    } else if Hit(JsonNameM, s, 0) {
      JsonNameLead(s, 0);
    }
  }

  lemma SistersParenOnly(a: nat)
    requires a < |"1000-lb Sisters (US) S02 E01"| && "1000-lb Sisters (US) S02 E01"[a] == '('
    ensures a == 16
  {
  }

  lemma SistersUsLed()
    ensures LedBy(CountryM('U', 'S'), "1000-lb Sisters (US) S02 E01", {16})
  {
    var s := "1000-lb Sisters (US) S02 E01";
    forall j | 0 <= j < |s| && Hit(CountryM('U', 'S'), s, j) ensures SpanSpaces(s, j) < |s| && SpanSpaces(s, j) in {16} {
      CountryLead('U', 'S', s, j);
      SistersParenOnly(SpanSpaces(s, j));
    }
  }

  lemma SistersUsAt()
    ensures CountryM('U', 'S')("1000-lb Sisters (US) S02 E01", 15) == Some(21)
  {
    var s := "1000-lb Sisters (US) S02 E01";
    assert SpanSpaces(s, 16) == 16;
    assert SpanSpaces(s, 15) == 16;
    assert SpanSpaces(s, 21) == 21;
    assert SpanSpaces(s, 20) == 21;
    assert s[16] == '(' && s[17] == 'U' && s[18] == 'S' && s[19] == ')';
    assert LowerChar('U') == 'u' && LowerChar('S') == 's';
  }

  lemma SistersCountry()
    ensures Sub("1000-lb Sisters (US) S02 E01", CountryM('U', 'S'), "") == "1000-lb SistersS02 E01"
  {
    SistersCountryCut();
    SistersCountryJoin();
  }

  lemma SistersCountryCut()
    ensures var s := "1000-lb Sisters (US) S02 E01"; Sub(s, CountryM('U', 'S'), "") == s[..15] + "" + s[21..]
  {
    SistersUsLed();
    SistersUsAt();
    SubOnce("1000-lb Sisters (US) S02 E01", CountryM('U', 'S'), "", 15, 16, 21);
  }

  lemma SistersCountryJoin()
    ensures var s := "1000-lb Sisters (US) S02 E01"; s[..15] + "" + s[21..] == "1000-lb SistersS02 E01"
  {
  }

  lemma SistersCountries()
    ensures StripCountries("1000-lb Sisters (US) S02 E01", CountryCodes) == "1000-lb SistersS02 E01"
  {
    var s := "1000-lb Sisters (US) S02 E01";
    var t := "1000-lb SistersS02 E01";
    SistersUsRemoved();
    SistersAfterUs();
    assert CountryCodes[0] == ('U', 'S');
    assert StripCountries(s, CountryCodes) == StripCountries(t, CountryCodes[1..]);
    CountriesIdle(t, CountryCodes[1..]);
  }

  lemma SistersUsRemoved()
    ensures Remove("1000-lb Sisters (US) S02 E01", CountryM('U', 'S')) == "1000-lb SistersS02 E01"
  {
    SistersCountry();
    SistersAfterUs();
    StripOfTrimmed("1000-lb SistersS02 E01");
  }

  lemma SistersAfterUs()
    ensures '(' !in "1000-lb SistersS02 E01" && Trimmed("1000-lb SistersS02 E01")
  {
  }

  /** In the text after the country code, only `S02` is an `s` followed by a digit. */
  lemma SistersSeasonOnly(a: nat)
    requires a + 1 < |"1000-lb SistersS02 E01"|
    requires "1000-lb SistersS02 E01"[a] in {'s', 'S'} && IsDigit("1000-lb SistersS02 E01"[a + 1])
    ensures a == 15
  {
    var s := "1000-lb SistersS02 E01";
    assert forall k :: 0 <= k < |s| && s[k] in {'s', 'S'} ==> k in {8, 10, 14, 15};
  }

  lemma SistersSeasonLed()
    ensures LedBy(SeasonEpisodeM, "1000-lb SistersS02 E01", {15})
  {
    var s := "1000-lb SistersS02 E01";
    forall j | 0 <= j < |s| && Hit(SeasonEpisodeM, s, j) ensures SpanSpaces(s, j) < |s| && SpanSpaces(s, j) in {15} {
      SeasonLead(s, j);
      SistersSeasonOnly(SpanSpaces(s, j));
    }
  }

  lemma SistersSeasonAt()
    ensures SeasonEpisodeM("1000-lb SistersS02 E01", 15) == Some(19)
  {
    var s := "1000-lb SistersS02 E01";
    assert SpanSpaces(s, 15) == 15 && Digits12(s, 16) == 18 && SpanSpaces(s, 18) == 19;
  }

  lemma SistersSeasonCut()
    ensures var s := "1000-lb SistersS02 E01"; Sub(s, SeasonEpisodeM, "") == s[..15] + s[19..]
  {
    SistersSeasonLed();
    SistersSeasonAt();
    SubOnce("1000-lb SistersS02 E01", SeasonEpisodeM, "", 15, 15, 19);
  }

  lemma SistersSeasonSub()
    ensures Sub("1000-lb SistersS02 E01", SeasonEpisodeM, "") == "1000-lb SistersE01"
  {
    SistersSeasonCut();
    SistersSeasonJoin();
  }

  lemma SistersSeasonJoin()
    ensures var s := "1000-lb SistersS02 E01"; s[..15] + s[19..] == "1000-lb SistersE01"
  {
  }

  lemma SistersSeason()
    ensures Remove("1000-lb SistersS02 E01", SeasonEpisodeM) == "1000-lb SistersE01"
  {
    SistersSeasonSub();
    StripOfTrimmed("1000-lb SistersE01");
  }

  /** In the text after the season marker, only `E01` is an `e` followed by a digit. */
  lemma SistersEpisodeOnly(a: nat)
    requires a + 1 < |"1000-lb SistersE01"|
    requires "1000-lb SistersE01"[a] in {'e', 'E'} && IsDigit("1000-lb SistersE01"[a + 1])
    ensures a == 15
  {
    var s := "1000-lb SistersE01";
    assert forall k :: 0 <= k < |s| && s[k] in {'e', 'E'} ==> k in {12, 15};
  }

  lemma SistersEpisodeLed()
    ensures LedBy(EpisodeM, "1000-lb SistersE01", {15})
  {
    var s := "1000-lb SistersE01";
    forall j | 0 <= j < |s| && Hit(EpisodeM, s, j) ensures SpanSpaces(s, j) < |s| && SpanSpaces(s, j) in {15} {
      EpisodeLead(s, j);
      SistersEpisodeOnly(SpanSpaces(s, j));
    }
  }

  lemma SistersEpisodeAt()
    ensures EpisodeM("1000-lb SistersE01", 15) == Some(18)
  {
    var s := "1000-lb SistersE01";
    assert SpanSpaces(s, 15) == 15 && Digits12(s, 16) == 18 && SpanSpaces(s, 18) == 18;
  }

  lemma SistersEpisodeCut()
    ensures var s := "1000-lb SistersE01"; Sub(s, EpisodeM, "") == s[..15] + s[18..]
  {
    SistersEpisodeLed();
    SistersEpisodeAt();
    SubOnce("1000-lb SistersE01", EpisodeM, "", 15, 15, 18);
  }

  lemma SistersEpisodeJoin()
    ensures var s := "1000-lb SistersE01"; s[..15] + s[18..] == "1000-lb Sisters"
  {
  }

  lemma SistersEpisode()
    ensures Remove("1000-lb SistersE01", EpisodeM) == "1000-lb Sisters"
  {
    SistersEpisodeCut();
    SistersEpisodeJoin();
    StripOfTrimmed("1000-lb Sisters");
  }

  lemma SistersUnmarked()
    ensures Unmarked("1000-lb Sisters (US) S02 E01", "") == "1000-lb Sisters"
  {
    SistersPrefixes();
    SistersCountries();
    SistersSeason();
    SistersEpisode();
  }

  /** A pattern that matches nowhere in a trimmed text removes nothing. */
  lemma RemoveIdle(t: string, m: Matcher)
    requires Trimmed(t) && forall j :: 0 <= j < |t| ==> !Hit(m, t, j)
    ensures Remove(t, m) == t
  {
    SkipFree(t, m, "", {}, 0, |t|);
    StripOfTrimmed(t);
  }

  lemma SistersBar()
    ensures Remove("1000-lb Sisters", BarTailM) == "1000-lb Sisters"
  {
    var s := "1000-lb Sisters";
    forall j | 0 <= j < |s| ensures !Hit(BarTailM, s, j) {
    }
    RemoveIdle(s, BarTailM);
  }

  lemma SistersDashLed()
    ensures LedBy(DashTailM, "1000-lb Sisters", {4})
  {
    var s := "1000-lb Sisters";
    forall j | 0 <= j < |s| && Hit(DashTailM, s, j) ensures SpanSpaces(s, j) < |s| && SpanSpaces(s, j) in {4} {
      DashLead(s, j);
      SistersDashOnly(SpanSpaces(s, j));
    }
  }

  lemma DashLead(s: string, j: nat)
    requires Hit(DashTailM, s, j)
    ensures SpanSpaces(s, j) < |s| && s[SpanSpaces(s, j)] == '-'
  {
  }

  lemma SistersDashOnly(a: nat)
    requires a < |"1000-lb Sisters"| && "1000-lb Sisters"[a] == '-'
    ensures a == 4
  {
    var s := "1000-lb Sisters";
    assert forall k :: 0 <= k < |s| && s[k] == '-' ==> k == 4;
  }

  lemma SistersDash()
    ensures Remove("1000-lb Sisters", DashTailM) == "1000"
  {
    SistersDashCut();
    SistersDashJoin();
    StripOfTrimmed("1000");
  }

  lemma SistersDashAt()
    ensures DashTailM("1000-lb Sisters", 4) == Some(15)
  {
    var s := "1000-lb Sisters";
    assert SpanSpaces(s, 4) == 4 && SpanSpaces(s, 5) == 5 && RestOfLine(s, 5) == Some(15);
  }

  lemma SistersDashCut()
    ensures var s := "1000-lb Sisters"; Sub(s, DashTailM, "") == s[..4] + "" + s[15..]
  {
    SistersDashLed();
    SistersDashAt();
    SubOnce("1000-lb Sisters", DashTailM, "", 4, 4, 15);
  }

  lemma SistersDashJoin()
    ensures var s := "1000-lb Sisters"; s[..4] + "" + s[15..] == "1000"
  {
  }

  lemma SistersSuffixes()
    ensures StripSuffixes("1000-lb Sisters") == "1000"
  {
    SistersBar();
    SistersDash();
    SistersQuoteEnd();
  }

  lemma SistersQuoteEnd()
    ensures Remove("1000", QuoteEndM) == "1000"
  {
    var s := "1000";
    forall j | 0 <= j < |s| ensures !Hit(QuoteEndM, s, j) {
      assert !IsSpace(s[j]) && s[j] != '"';
    }
    RemoveIdle(s, QuoteEndM);
  }

  lemma SistersCollapse()
    ensures Collapse("1000") == "1000"
  {
    RemoveIdle("1000", SpacesM);
  }

  lemma SistersNoParenYear()
    ensures M3u.YearIn("1000-lb Sisters (US) S02 E01", "") == ""
  {
    var s := "1000-lb Sisters (US) S02 E01";
    forall p: nat ensures !M3u.ParenYearAt(s, p) {
      if p + 6 <= |s| && s[p] == '(' {
        SistersParenOnly(p);
        assert s[17] == 'U';
      }
    }
  }


  lemma SistersFallback()
    ensures FallbackYear("1000") == TitleYear("", "1000")
  {
  }

  lemma SistersClean()
    ensures CleanTitle("1000-lb Sisters (US) S02 E01", "") == "1000"
  {
    SistersUnmarked();
    SistersSuffixes();
    SistersCollapse();
  }

  /** `extract_title_and_year("1000-lb Sisters (US) S02 E01")`: no `(YYYY)`, the
      suffix loop cuts at the hyphen, and the leftover number becomes the year. */
  lemma SistersExtracted()
    ensures ExtractTitleAndYear("1000-lb Sisters (US) S02 E01") == TitleYear("", "1000")
  {
    SistersNoParenYear();
    SistersClean();
    SistersFallback();
  }
}
