/** The playlist side of addon.py: reading an `#EXTINF` line (`extract_info`),
    making a name safe for the filesystem (`sanitize_filename`), the server
    domain the stream URLs are matched against (`get_server_domain`), and the
    paths of the `.strm` files built for a movie or an episode. */
module M3u {
  import opened Wrappers
  import opened Text
  import opened Regex
  import opened PosixPath

  /** `unicodedata.normalize('NFKD', ·)`, which the model does not implement. */
  type Normalizer = string -> string

  /** What `extract_info` returns. */
  datatype Info = Info(name: string, year: string, season: string, episode: string)

  // ---------------------------------------------------------------------------
  // The patterns of extract_info

  /** The end of the run of characters other than `"` starting at `i` (`[^"]*`). */
  function QuoteFree(s: string, i: nat): (j: nat)
    requires i <= |s|
    decreases |s| - i
    ensures i <= j <= |s|
    ensures forall k :: i <= k < j ==> s[k] != '"'
    ensures j == |s| || s[j] == '"'
  {
    if i < |s| && s[i] != '"' then QuoteFree(s, i + 1) else i
  }

  /** `"([^"]+)"` at `p`. */
  function QuotedM(s: string, p: nat): Option<nat> {
    if p < |s| && s[p] == '"' then
      var j := QuoteFree(s, p + 1);
      if j > p + 1 && j < |s| then Some(j + 1) else None
    else None
  }

  /** `tvg-name="([^"]+)"` at `p`. */
  function TvgNameM(s: string, p: nat): Option<nat> {
    if OccursAt(s, "tvg-name=", p) then QuotedM(s, p + 9) else None
  }

  /** `\(\d{4}\)` at `i`. */
  predicate ParenYearAt(s: string, i: nat) {
    i + 6 <= |s| && s[i] == '(' && DigitsAt(s, i + 1, 4) && s[i + 5] == ')'
  }

  function ParenYearM(s: string, p: nat): Option<nat> {
    if ParenYearAt(s, p) then Some(p + 6) else None
  }

  /** A letter and two digits at `p`. */
  predicate LetterDigitsAt(s: string, p: nat, c: char) {
    p < |s| && s[p] == c && DigitsAt(s, p + 1, 2)
  }

  /** The lazy group of `(.+?)(?:\s*\(\d{4}\))`: having consumed `s[..k]`, the
      smallest end `k' >= k` of the group that a year (after optional whitespace)
      follows. `.` does not match a line feed. */
  function YearCut(s: string, k: nat): (r: Option<nat>)
    requires 1 <= k <= |s|
    decreases |s| - k
    ensures r.Some? ==> k <= r.value <= |s| && ParenYearAt(s, SpanSpaces(s, r.value))
    ensures r.Some? ==> forall j :: k - 1 <= j < r.value ==> s[j] != '\n'
    ensures r.Some? ==> forall j :: k <= j < r.value ==> !ParenYearAt(s, SpanSpaces(s, j))
    ensures r.None? && (forall j :: k - 1 <= j < |s| ==> s[j] != '\n') ==>
              forall j :: k <= j <= |s| ==> !ParenYearAt(s, SpanSpaces(s, j))
  {
    if s[k - 1] == '\n' then None
    else if ParenYearAt(s, SpanSpaces(s, k)) then Some(k)
    else if k == |s| then None
    else YearCut(s, k + 1)
  }

  /** `(.+?)(?:\s*\(\d{4}\))` at `p`. */
  function NameYearM(s: string, p: nat): Option<nat> {
    if p < |s| then
      match YearCut(s, p + 1)
      case Some(k) => Some(SpanSpaces(s, k) + 6)
      case None => None
    else None
  }

  // ---------------------------------------------------------------------------
  // extract_info

  /** Group 1 of the first `tvg-name="..."`. */
  function TvgName(line: string): (r: Option<string>)
    ensures r.Some? ==> r.value != [] && '"' !in r.value
  {
    match Search(line, TvgNameM)
    case None => None
    case Some(p) =>
      Some(line[p + 10..QuoteFree(line, p + 10)])
  }

  /** The `tvg-name` value without a language prefix ("EN - "): the text after
      the first " - ", if there is one. */
  function DropLanguage(full: string): string {
    match After(full, " - ")
    case None => full
    case Some(rest) => rest
  }

  /** The name taken from a `tvg-name` value: everything before the year when a
      year follows, otherwise the whole value; then stripped. */
  function NameFromTvg(full: string): (r: string)
    ensures Trimmed(r)
  {
    var f := DropLanguage(full);
    match Search(f, NameYearM)
    case Some(p) => Strip(f[p..YearCut(f, p + 1).value])
    case None => Strip(f)
  }

  /** The first double-quoted text of the line, stripped. */
  function QuotedName(line: string): Option<string> {
    match Search(line, QuotedM)
    case None => None
    case Some(p) => Some(Strip(line[p + 1..HitEnd(QuotedM, line, p) - 1]))
  }

  /** The name `extract_info` returns; `ts` stands for `int(time.time())`. */
  function ExtractName(line: string, ts: nat): string {
    var tvg := match TvgName(line) case Some(full) => NameFromTvg(full) case None => [];
    if tvg != [] then tvg
    else match QuotedName(line)
      case Some(q) => q
      case None => "Unknown Title " + NatToString(ts)
  }

  /** Group 1 of the first `\((\d{4})\)`, or `default` when there is none. */
  function YearIn(line: string, default: string): (r: string)
    ensures (forall p :: !ParenYearAt(line, p)) ==> r == default
    ensures forall p :: ParenYearAt(line, p) && (forall q :: q < p ==> !ParenYearAt(line, q)) ==>
              r == line[p + 1..p + 5]
    ensures r == default || (|r| == 4 && AllDigits(r))
  {
    assert forall j :: Hit(ParenYearM, line, j) <==> ParenYearAt(line, j);
    match Search(line, ParenYearM)
    case Some(p) =>
      DigitsAtSlice(line, p + 1, 4);
      line[p + 1..p + 5]
    case None => default
  }

  /** `S(\d{2})` or `E(\d{2})`, the letter given. */
  function MarkerM(c: char): Matcher {
    (s: string, p: nat) => if LetterDigitsAt(s, p, c) then Some(p + 3) else None
  }

  /** Group 1 of the first `c(\d{2})`, or "01" when there is none. */
  function MarkerIn(line: string, c: char): (r: string)
    ensures |r| == 2 && AllDigits(r)
    ensures (forall p :: !LetterDigitsAt(line, p, c)) ==> r == "01"
    ensures forall p :: LetterDigitsAt(line, p, c) && (forall q :: q < p ==> !LetterDigitsAt(line, q, c)) ==>
              r == line[p + 1..p + 3]
  {
    assert forall j :: Hit(MarkerM(c), line, j) <==> LetterDigitsAt(line, j, c);
    match Search(line, MarkerM(c))
    case Some(p) =>
      DigitsAtSlice(line, p + 1, 2);
      line[p + 1..p + 3]
    case None => "01"
  }

  /** `extract_info(extinf_line)`. */
  function ExtractInfo(line: string, ts: nat): (r: Info)
    ensures |r.year| == 4 && AllDigits(r.year)
    ensures |r.season| == 2 && AllDigits(r.season)
    ensures |r.episode| == 2 && AllDigits(r.episode)
  {
    var year := YearIn(line, "0000");
    assert year == "0000" ==> AllDigits(year);
    Info(ExtractName(line, ts), year, MarkerIn(line, 'S'), MarkerIn(line, 'E'))
  }

  // ---------------------------------------------------------------------------
  // sanitize_filename

  const InvalidChars: seq<char> := ['/', '\\', ':', '*', '?', '"', '<', '>', '|']

  /** The characters of `s` below 128, in order. */
  function AsciiOnly(s: string): (r: string)
    ensures AllAscii(r) && |r| <= |s|
    ensures forall c :: c in r ==> c in s
  {
    if s == [] then []
    else (if IsAscii(s[0]) then [s[0]] else []) + AsciiOnly(s[1..])
  }

  lemma {:induction false} AsciiOnlyOfAscii(s: string)
    requires AllAscii(s)
    ensures AsciiOnly(s) == s
  {
    if s != [] {
      AsciiOnlyOfAscii(s[1..]);
      assert s == [s[0]] + s[1..];
    }
  }

  /** `^\s*\d+\.\s*` at `p`. */
  function LeadingNumberM(s: string, p: nat): Option<nat> {
    if p > |s| then None
    else
      var a := SpanSpaces(s, p);
      var b := SpanDigits(s, a);
      if b > a && b < |s| && s[b] == '.' then Some(SpanSpaces(s, b + 1)) else None
  }

  /** The loop over `invalid_chars`: `filename.replace(char, '-')` for each. */
  function ReplaceEach(s: string, chars: seq<char>): (r: string)
    decreases |chars|
    ensures |r| == |s|
    ensures forall i :: 0 <= i < |s| ==> r[i] == if s[i] in chars then '-' else s[i]
  {
    if chars == [] then s
    else
      var t := Replace(s, [chars[0]], "-");
      ReplaceOneChar(s, chars[0]);
      ReplaceEach(t, chars[1..])
  }

  /** `s.replace(c, '-')` for a single character `c` maps each position. */
  lemma {:induction false} ReplaceOneChar(s: string, c: char)
    decreases |s|
    ensures |Replace(s, [c], "-")| == |s|
    ensures forall i :: 0 <= i < |s| ==> Replace(s, [c], "-")[i] == if s[i] == c then '-' else s[i]
  {
    if |s| >= 1 {
      ReplaceOneChar(s[1..], c);
      var head: string := if s[0] == c then "-" else [s[0]];
      assert s[..1] == [s[0]];
      assert Replace(s, [c], "-") == head + Replace(s[1..], [c], "-");
    }
  }

  /** `sanitize_filename(filename)`. */
  function SanitizeFilename(nfkd: Normalizer, name: string): (r: string) {
    var a := AsciiOnly(nfkd(name));
    var b := SubAnchored(a, LeadingNumberM, "");
    Strip(ReplaceEach(b, InvalidChars))
  }

  lemma ReplaceEachKeeps(b: string, chars: seq<char>)
    requires forall k :: 0 <= k < |b| ==> b[k] !in chars
    ensures ReplaceEach(b, chars) == b
  {
  }

  /** After the replacement loop no listed character is left, and an ASCII text
      stays ASCII. */
  lemma ReplaceEachAvoids(b: string, chars: seq<char>)
    requires '-' !in chars
    ensures var t := ReplaceEach(b, chars);
      (forall k :: 0 <= k < |t| ==> t[k] !in chars) &&
      (AllAscii(b) ==> AllAscii(t))
  {
  }

  /** What strip keeps of an ASCII text free of the listed characters is also. */
  lemma StripAvoids(t: string, chars: seq<char>)
    requires AllAscii(t) && forall k :: 0 <= k < |t| ==> t[k] !in chars
    ensures var r := Strip(t); AllAscii(r) && forall k :: 0 <= k < |r| ==> r[k] !in chars
  {
    var r := Strip(t);
    var off := StripLo(t);
    forall k | 0 <= k < |r| ensures IsAscii(r[k]) && r[k] !in chars {
      assert r[k] == t[off + k];
    }
  }

  lemma SubAnchoredAscii(a: string, m: Matcher)
    requires AllAscii(a)
    ensures AllAscii(SubAnchored(a, m, ""))
  {
    if Hit(m, a, 0) {
      var e := HitEnd(m, a, 0);
      assert forall k :: 0 <= k < |a[e..]| ==> a[e..][k] == a[e + k];
    }
  }

  /** The output of sanitize_filename is ASCII, holds none of the characters a file
      name may not contain, and has no whitespace at either end. */
  lemma SanitizeFilenameSafe(nfkd: Normalizer, name: string)
    ensures var r := SanitizeFilename(nfkd, name);
      AllAscii(r) && Trimmed(r) && forall k :: 0 <= k < |r| ==> r[k] !in InvalidChars
  {
    var a := AsciiOnly(nfkd(name));
    SubAnchoredAscii(a, LeadingNumberM);
    var b := SubAnchored(a, LeadingNumberM, "");
    assert '-' !in InvalidChars;
    ReplaceEachAvoids(b, InvalidChars);
    StripAvoids(ReplaceEach(b, InvalidChars), InvalidChars);
  }

  /** `s` starts with whitespace `s[..a]`, digits `s[a..b]` and a dot at `b`. */
  predicate NumberedAt(s: string, a: nat, b: nat) {
    a < b < |s| && s[b] == '.' &&
    (forall k :: 0 <= k < a ==> IsSpace(s[k])) && (forall k :: a <= k < b ==> IsDigit(s[k]))
  }

  /** `re.sub(r'^\s*\d+\.\s*', '', s)`: a numbered text loses its numbering and
      the whitespace after it; any other text is left alone. */
  lemma LeadingNumberRemoved(s: string)
    ensures forall a: nat, b: nat :: NumberedAt(s, a, b) ==> SubAnchored(s, LeadingNumberM, "") == LStrip(s[b + 1..])
    ensures (forall a: nat, b: nat :: !NumberedAt(s, a, b)) ==> SubAnchored(s, LeadingNumberM, "") == s
  {
    var a := SpanSpaces(s, 0);
    var b := SpanDigits(s, a);
    forall a': nat, b': nat | NumberedAt(s, a', b') ensures a' == a && b' == b {
      NumberedUnique(s, a', b');
    }
    LeadingNumberAt(s);
    if NumberedAt(s, a, b) {
      SpanSpacesIsLStrip(s, b + 1);
    }
  }

  /** The anchored match is the numbering that starts the text, if any. */
  lemma LeadingNumberAt(s: string)
    ensures var a := SpanSpaces(s, 0); var b := SpanDigits(s, a);
      NumberedAt(s, a, b) ==> SubAnchored(s, LeadingNumberM, "") == s[SpanSpaces(s, b + 1)..]
    ensures var a := SpanSpaces(s, 0); var b := SpanDigits(s, a);
      !NumberedAt(s, a, b) ==> SubAnchored(s, LeadingNumberM, "") == s
  {
    LeadingNumberHit(s);
    var a := SpanSpaces(s, 0);
    var b := SpanDigits(s, a);
    if NumberedAt(s, a, b) {
      var e := SpanSpaces(s, b + 1);
      assert "" + s[e..] == s[e..];
    }
  }

  lemma LeadingNumberHit(s: string)
    ensures var a := SpanSpaces(s, 0); var b := SpanDigits(s, a);
      (Hit(LeadingNumberM, s, 0) <==> NumberedAt(s, a, b)) &&
      (NumberedAt(s, a, b) ==> HitEnd(LeadingNumberM, s, 0) == SpanSpaces(s, b + 1))
  {
  }

  /** The numbering of a text, when it has one, is the run of whitespace and then
      of digits from the start. */
  lemma NumberedUnique(s: string, a: nat, b: nat)
    requires NumberedAt(s, a, b)
    ensures a == SpanSpaces(s, 0) && b == SpanDigits(s, a)
  {
    var a0 := SpanSpaces(s, 0);
    assert !IsSpace(s[a]);
    if a0 < a { assert false; }
    assert a == a0;
    var b0 := SpanDigits(s, a);
    if b0 < b { assert false; }
    if b0 > b { assert false; }
  }

  /** Skipping the whitespace from `i` is what `lstrip` does to the rest. */
  lemma SpanSpacesIsLStrip(s: string, i: nat)
    requires i <= |s|
    ensures s[SpanSpaces(s, i)..] == LStrip(s[i..])
  {
    SpanShift(s, i, 0);
  }

  lemma {:induction false} SpanShift(s: string, i: nat, k: nat)
    requires i + k <= |s|
    decreases |s| - i - k
    ensures SpanSpaces(s[i..], k) + i == SpanSpaces(s, i + k)
  {
    if i + k < |s| && IsSpace(s[i + k]) {
      assert s[i..][k] == s[i + k];
      SpanShift(s, i, k + 1);
    } else if i + k < |s| {
      assert s[i..][k] == s[i + k];
    }
  }

  // ---------------------------------------------------------------------------
  // get_server_domain

  /** The module set-up: a server setting without `http://` gets it prepended. */
  function ServerUrl(setting: string): (r: string)
    ensures StartsWith(r, "http://")
    ensures StartsWith(setting, "http://") ==> r == setting
  {
    if StartsWith(setting, "http://") then setting else "http://" + setting
  }

  /** `get_server_domain()`: `SERVER.split('://')[1]` when the server holds `://`. */
  function GetServerDomain(server: string): (r: string)
    ensures !Contains(server, "://") ==> r == server
  {
    if Contains(server, "://") then SplitAll(server, "://")[1] else server
  }

  /** With exactly one `://`, the domain is everything after it. */
  lemma DomainAfterScheme(scheme: string, rest: string)
    requires forall j :: !OccursAt(scheme, "://", j)
    requires forall j :: !OccursAt(rest, "://", j)
    ensures GetServerDomain(scheme + "://" + rest) == rest
  {
    var s := scheme + "://" + rest;
    var n := |scheme|;
    assert OccursAt(s, "://", n) by { assert s[n..n + 3] == "://"; }
    assert FindFrom(s, "://", 0) == Some(n) by {
      forall j | 0 <= j < n ensures !OccursAt(s, "://", j) {
        if j + 3 <= n {
          assert scheme[j..j + 3] == s[j..j + 3];
          assert !OccursAt(scheme, "://", j);
        } else {
          assert s[j..j + 3][n - j] == s[n] == ':';
          assert "://"[n - j] == '/';
        }
      }
    }
    assert s[n + 3..] == rest;
    assert SplitAll(rest, "://") == [rest] by {
      assert FindFrom(rest, "://", 0).None?;
    }
  }

  /** The URL prefixes that classify a stream as a movie or as an episode. */
  predicate IsMovieUrl(url: string, domain: string) {
    StartsWith(url, "http://" + domain + ":80/movie/") || StartsWith(url, "https://" + domain + ":80/movie/")
  }

  predicate IsSeriesUrl(url: string, domain: string) {
    StartsWith(url, "http://" + domain + ":80/series/") || StartsWith(url, "https://" + domain + ":80/series/")
  }

  // ---------------------------------------------------------------------------
  // Paths

  /** The movie file name: the sanitised name, then the year unless it is "0000". */
  function MovieFileName(nfkd: Normalizer, info: Info): string {
    SanitizeFilename(nfkd, info.name) + (if info.year == "0000" then "" else " " + info.year) + ".strm"
  }

  function MoviePath(moviesDir: string, nfkd: Normalizer, info: Info): string {
    Join(moviesDir, MovieFileName(nfkd, info))
  }

  /** `\s+S\d+\s*E\d+.*$` at `p`. */
  function EpisodeTailM(s: string, p: nat): Option<nat> {
    if p > |s| then None
    else
      var a := SpanSpaces(s, p);
      if a == p || a >= |s| || s[a] != 'S' then None
      else
        var b := SpanDigits(s, a + 1);
        if b == a + 1 then None
        else
          var c := SpanSpaces(s, b);
          if c >= |s| || s[c] != 'E' then None
          else
            var d := SpanDigits(s, c + 1);
            if d == c + 1 then None else RestOfLine(s, d)
  }

  /** `\s*\(\d{4}\).*$` at `p`. */
  function YearTailM(s: string, p: nat): Option<nat> {
    if p > |s| then None
    else
      var a := SpanSpaces(s, p);
      if ParenYearAt(s, a) then RestOfLine(s, a + 6) else None
  }

  /** The folders and the file of an episode. */
  datatype EpisodeLocation = EpisodeLocation(show: string, showFolder: string, seasonFolder: string, path: string)

  /** The show name: season and episode markers dropped, then a year and what
      follows it. */
  function ShowName(name: string): string {
    Sub(Sub(name, EpisodeTailM, ""), YearTailM, "")
  }

  /** The year found in the name once the markers are dropped, or "". */
  function ShowYear(name: string): string {
    YearIn(Sub(name, EpisodeTailM, ""), "")
  }

  /** The episode's show folder, season folder (`Season <int(season)>`) and file. */
  function EpisodePaths(tvDir: string, nfkd: Normalizer, info: Info): (r: EpisodeLocation)
    requires AllDigits(info.season)
  {
    var show := ShowName(info.name);
    var year := ShowYear(info.name);
    var safe := SanitizeFilename(nfkd, show);
    var showFolder := Join(tvDir, safe + (if year != "" then " " + year else ""));
    var seasonFolder := Join(showFolder, "Season " + NatToString(DigitsValue(info.season)));
    var file := safe + " S" + info.season + "E" + info.episode + ".strm";
    EpisodeLocation(show, showFolder, seasonFolder, Join(seasonFolder, file))
  }

  // ---------------------------------------------------------------------------
  // Properties of extract_info

  predicate NoLineFeed(s: string) { forall k :: 0 <= k < |s| ==> s[k] != '\n' }

  lemma SuffixNoLineFeed(r: string, s: string)
    requires IsSuffixOf(r, s) && NoLineFeed(s)
    ensures NoLineFeed(r)
  {
    forall k | 0 <= k < |r| ensures r[k] != '\n' {
      assert r[k] == s[|s| - |r| + k];
    }
  }

  /** The first year after the opening character of a text without line feeds
      ends the lazy group that starts at 0: before it, there is no other year. */
  lemma {:induction false} YearCutAtFirst(f: string, y: nat)
    requires NoLineFeed(f) && 1 <= y && ParenYearAt(f, y)
    requires forall z: nat :: 1 <= z < y ==> !ParenYearAt(f, z)
    ensures Search(f, NameYearM) == Some(0)
    ensures YearCut(f, 1).Some? && YearCut(f, 1).value <= y && SpanSpaces(f, YearCut(f, 1).value) == y
  {
    assert SpanSpaces(f, y) == y;
    var c := YearCut(f, 1);
    if c.None? {
      assert false;
    }
    var k := c.value;
    var y0 := SpanSpaces(f, k);
    if y0 < y {
      assert false;
    }
    if y < k {
      assert false;
    }
    assert Hit(NameYearM, f, 0);
  }

  /** With no year after the opening character, nothing matches. */
  lemma NoYearNoCut(f: string)
    requires NoLineFeed(f)
    requires forall y: nat :: 1 <= y ==> !ParenYearAt(f, y)
    ensures Search(f, NameYearM).None?
  {
    forall p: nat | Hit(NameYearM, f, p) ensures false {
    }
  }

  /** With a `tvg-name`, the name is the text (after any language prefix) up to the
      first year that does not open it, with the whitespace before that year
      dropped; without such a year it is the whole text; either way stripped. */
  lemma NameBeforeFirstYear(full: string)
    requires NoLineFeed(full)
    ensures var f := DropLanguage(full);
      forall y: nat :: 1 <= y && ParenYearAt(f, y) && (forall z: nat :: 1 <= z < y ==> !ParenYearAt(f, z)) ==>
        exists k: nat :: 1 <= k <= y && SpanSpaces(f, k) == y && NameFromTvg(full) == Strip(f[..k])
    ensures var f := DropLanguage(full);
      (forall y: nat :: 1 <= y ==> !ParenYearAt(f, y)) ==> NameFromTvg(full) == Strip(f)
  {
    var f := DropLanguage(full);
    if After(full, " - ").Some? {
      SuffixNoLineFeed(f, full);
    }
    forall y: nat | 1 <= y && ParenYearAt(f, y) && (forall z: nat :: 1 <= z < y ==> !ParenYearAt(f, z))
      ensures exists k: nat :: 1 <= k <= y && SpanSpaces(f, k) == y && NameFromTvg(full) == Strip(f[..k])
    {
      YearCutAtFirst(f, y);
      assert f[..YearCut(f, 1).value] == f[0..YearCut(f, 1).value];
    }
    if forall y: nat :: 1 <= y ==> !ParenYearAt(f, y) {
      NoYearNoCut(f);
    }
  }

  /** A line without any double quote has no `tvg-name` and no quoted text, so the
      name is "Unknown Title <ts>". */
  lemma NoQuotesUnknownTitle(line: string, ts: nat)
    requires '"' !in line
    ensures ExtractName(line, ts) == "Unknown Title " + NatToString(ts)
  {
    forall p | 0 <= p ensures !Hit(TvgNameM, line, p) && !Hit(QuotedM, line, p) {
      if p + 9 < |line| { assert line[p + 9] in line; }
      if p < |line| { assert line[p] in line; }
    }
  }

  /** The name is trimmed, and it is empty only when `tvg-name` gives nothing and
      the first quoted text of the line is whitespace. */
  lemma ExtractNameTrimmed(line: string, ts: nat)
    ensures Trimmed(ExtractName(line, ts))
    ensures ExtractName(line, ts) == [] ==> QuotedName(line) == Some([])
  {
    var u := "Unknown Title " + NatToString(ts);
    var d := NatToString(ts);
    assert u[|u| - 1] == d[|d| - 1];
    assert IsDigit(d[|d| - 1]);
  }

  /** A double quote at `a`, the next double quote at `b`, and at least one
      character between them: `"([^"]+)"` matched at `a`. */
  predicate QuotedAt(s: string, a: nat, b: nat) {
    a + 1 < b < |s| && s[a] == '"' && s[b] == '"' && forall k :: a < k < b ==> s[k] != '"'
  }

  /** `tvg-name=` at `p`, followed by a quoted text closed at `b`. */
  predicate TvgAt(s: string, p: nat, b: nat) {
    OccursAt(s, "tvg-name=", p) && QuotedAt(s, p + 9, b)
  }

  lemma QuotedMAt(s: string, a: nat)
    ensures forall b: nat :: QuotedAt(s, a, b) ==> QuotedM(s, a) == Some(b + 1)
    ensures QuotedM(s, a).Some? ==> QuotedM(s, a).value >= 1 && QuotedAt(s, a, QuotedM(s, a).value - 1)
  {
    forall b: nat | QuotedAt(s, a, b) ensures QuotedM(s, a) == Some(b + 1) {
      var j := QuoteFree(s, a + 1);
      assert j <= b;
    }
  }

  /** The quoted fallback name is the stripped text of the leftmost `"…"` with at
      least one character inside; there is none exactly when no such text exists.
      An empty pair `""` does not count, so its second quote may open the text. */
  lemma QuotedNameFirst(line: string)
    ensures QuotedName(line).None? <==> forall a: nat, b: nat :: !QuotedAt(line, a, b)
    ensures QuotedName(line).Some? ==>
      exists a: nat, b: nat :: QuotedAt(line, a, b) && QuotedName(line).value == Strip(line[a + 1..b]) &&
        forall a': nat, b': nat :: QuotedAt(line, a', b') ==> a <= a'
  {
    forall a: nat, b: nat | QuotedAt(line, a, b) ensures Hit(QuotedM, line, a) {
      QuotedMAt(line, a);
    }
    match Search(line, QuotedM)
    case None =>
    case Some(a) =>
      QuotedMAt(line, a);
      var b := HitEnd(QuotedM, line, a) - 1;
      assert QuotedAt(line, a, b);
      assert QuotedName(line) == Some(Strip(line[a + 1..b]));
      assert forall a': nat, b': nat :: QuotedAt(line, a', b') ==> a <= a' by {
        forall a': nat, b': nat | QuotedAt(line, a', b') ensures a <= a' {
          assert Hit(QuotedM, line, a');
        }
      }
  }

  /** The `tvg-name` value is the text of the leftmost `tvg-name="…"` with at least
      one character inside; there is none exactly when no such text exists. */
  lemma TvgNameFirst(line: string)
    ensures TvgName(line).None? <==> forall p: nat, b: nat :: !TvgAt(line, p, b)
    ensures TvgName(line).Some? ==>
      exists p: nat, b: nat :: TvgAt(line, p, b) && TvgName(line).value == line[p + 10..b] &&
        forall p': nat, b': nat :: TvgAt(line, p', b') ==> p <= p'
  {
    forall p: nat, b: nat | TvgAt(line, p, b) ensures Hit(TvgNameM, line, p) {
      QuotedMAt(line, p + 9);
    }
    match Search(line, TvgNameM)
    case None =>
    case Some(p) =>
      QuotedMAt(line, p + 9);
      var b := QuotedM(line, p + 9).value - 1;
      assert TvgAt(line, p, b);
      assert QuoteFree(line, p + 10) == b;
  }

  // ---------------------------------------------------------------------------
  // Properties of the paths

  /** `re.sub` of a pattern that runs to the end of a text without line feeds
      keeps what comes before its first match. */
  lemma CutAtFirst(s: string, m: Matcher)
    requires forall p :: Hit(m, s, p) ==> HitEnd(m, s, p) == |s|
    ensures Search(s, m).None? ==> Sub(s, m, "") == s
    ensures Search(s, m).Some? ==> Sub(s, m, "") == s[..Search(s, m).value]
  {
    SubCut(s, m, "", 0);
  }

  /** The show name is the name cut before its first season/episode marker, and
      the result cut again before its first year. */
  lemma ShowNameCuts(name: string)
    requires NoLineFeed(name)
    ensures var c := Sub(name, EpisodeTailM, "");
      c == (match Search(name, EpisodeTailM) case Some(p) => name[..p] case None => name) &&
      ShowName(name) == (match Search(c, YearTailM) case Some(p) => c[..p] case None => c)
  {
    forall p | Hit(EpisodeTailM, name, p) ensures HitEnd(EpisodeTailM, name, p) == |name| {
    }
    CutAtFirst(name, EpisodeTailM);
    var c := Sub(name, EpisodeTailM, "");
    assert NoLineFeed(c) by {
      if Search(name, EpisodeTailM).Some? {
        var p := Search(name, EpisodeTailM).value;
        forall k | 0 <= k < |c| ensures c[k] != '\n' { assert c[k] == name[k]; }
      }
    }
    forall p | Hit(YearTailM, c, p) ensures HitEnd(YearTailM, c, p) == |c| {
    }
    CutAtFirst(c, YearTailM);
  }

  /** The season folder is `Season ` and the season number without zero padding. */
  lemma SeasonNotPadded(season: string)
    requires |season| == 2 && AllDigits(season)
    ensures season[0] == '0' ==> NatToString(DigitsValue(season)) == [season[1]]
    ensures season[0] != '0' ==> NatToString(DigitsValue(season)) == season
  {
    var d0, d1 := DigitValue(season[0]), DigitValue(season[1]);
    assert season[..1][..0] == [];
    assert DigitsValue(season[..1]) == d0;
    assert DigitsValue(season) == d0 * 10 + d1;
    assert DigitChar(d1) == season[1];
    if d0 != 0 {
      var v := d0 * 10 + d1;
      assert v / 10 == d0 && v % 10 == d1;
      assert DigitChar(d0) == season[0];
      assert season == [season[0], season[1]];
    }
  }

  /** A movie's file lies directly in the movies folder. */
  lemma MoviePathSplits(moviesDir: string, nfkd: Normalizer, info: Info)
    requires moviesDir == [] || moviesDir[|moviesDir| - 1] != '/'
    requires AllDigits(info.year)
    ensures EndsWith(MoviePath(moviesDir, nfkd, info), ".strm")
    ensures Dirname(MoviePath(moviesDir, nfkd, info)) == moviesDir
    ensures Basename(MoviePath(moviesDir, nfkd, info)) == MovieFileName(nfkd, info)
  {
    SanitizeHasNoSlash(nfkd, info.name);
    FileNameSplits(moviesDir, SanitizeFilename(nfkd, info.name), info.year);
  }

  lemma FileNameSplits(d: string, safe: string, year: string)
    requires d == [] || d[|d| - 1] != '/'
    requires '/' !in safe && AllDigits(year)
    ensures var n := safe + (if year == "0000" then "" else " " + year) + ".strm";
      EndsWith(Join(d, n), ".strm") && Dirname(Join(d, n)) == d && Basename(Join(d, n)) == n
  {
    var n := safe + (if year == "0000" then "" else " " + year) + ".strm";
    assert '/' !in year;
    assert n[|n| - 5..] == ".strm";
    JoinSplits(d, n);
  }

  lemma SanitizeHasNoSlash(nfkd: Normalizer, name: string)
    ensures '/' !in SanitizeFilename(nfkd, name)
  {
    SanitizeFilenameSafe(nfkd, name);
    var r := SanitizeFilename(nfkd, name);
    assert '/' in InvalidChars;
    forall k | 0 <= k < |r| ensures r[k] != '/' {
      assert r[k] !in InvalidChars;
    }
  }

  /** An episode's file lies in its season folder, which lies in its show folder,
      which lies in the TV folder (the last step needs a non-empty folder name). */
  lemma EpisodePathSplits(tvDir: string, nfkd: Normalizer, info: Info)
    requires tvDir == [] || tvDir[|tvDir| - 1] != '/'
    requires AllDigits(info.season) && AllDigits(info.episode)
    ensures var e := EpisodePaths(tvDir, nfkd, info);
      var safe := SanitizeFilename(nfkd, e.show);
      var folder := safe + (if ShowYear(info.name) != "" then " " + ShowYear(info.name) else "");
      Dirname(e.path) == e.seasonFolder &&
      Basename(e.path) == safe + " S" + info.season + "E" + info.episode + ".strm" &&
      Basename(e.seasonFolder) == "Season " + NatToString(DigitsValue(info.season)) &&
      (folder != [] ==> Dirname(e.seasonFolder) == e.showFolder && Dirname(e.showFolder) == tvDir &&
                        Basename(e.showFolder) == folder)
  {
    var show := ShowName(info.name);
    SanitizeHasNoSlash(nfkd, show);
    var year := ShowYear(info.name);
    var y := YearIn(Sub(info.name, EpisodeTailM, ""), "");
    assert year == y;
    assert '/' !in year;
    FolderSplits(tvDir, SanitizeFilename(nfkd, show), year, NatToString(DigitsValue(info.season)), info.season, info.episode);
  }

  lemma FolderSplits(tvDir: string, safe: string, year: string, n: string, season: string, episode: string)
    requires tvDir == [] || tvDir[|tvDir| - 1] != '/'
    requires '/' !in safe && '/' !in year && AllDigits(n) && AllDigits(season) && AllDigits(episode)
    ensures var folder := safe + (if year != "" then " " + year else "");
      var showFolder := Join(tvDir, folder);
      var seasonFolder := Join(showFolder, "Season " + n);
      var file := safe + " S" + season + "E" + episode + ".strm";
      Dirname(Join(seasonFolder, file)) == seasonFolder && Basename(Join(seasonFolder, file)) == file &&
      Basename(seasonFolder) == "Season " + n &&
      (folder != [] ==> Dirname(seasonFolder) == showFolder && Dirname(showFolder) == tvDir && Basename(showFolder) == folder)
  {
    var folder := safe + (if year != "" then " " + year else "");
    var showFolder := Join(tvDir, folder);
    var sn := "Season " + n;
    NoSlashIn(n);
    NoSlashIn(season);
    NoSlashIn(episode);
    var seasonFolder := Join(showFolder, sn);
    var file := safe + " S" + season + "E" + episode + ".strm";
    assert '/' !in sn;
    assert '/' !in file;
    SeasonFolderEnds(showFolder, sn);
    JoinSplits(seasonFolder, file);
    if folder != [] {
      assert '/' !in folder;
      JoinSplits(tvDir, folder);
      JoinEndsWith(tvDir, folder);
      JoinSplits(showFolder, sn);
    } else {
      BasenameOfJoin(showFolder, sn);
    }
  }

  lemma NoSlashIn(d: string)
    requires AllDigits(d)
    ensures '/' !in d
  {
  }

  /** A join onto a name ends with that name's last character. */
  lemma JoinEndsWith(a: string, b: string)
    requires b != [] && b[0] != '/'
    ensures var j := Join(a, b); j != [] && j[|j| - 1] == b[|b| - 1]
  {
  }

  lemma SeasonFolderEnds(showFolder: string, sn: string)
    requires |sn| > 0 && sn[0] == 'S' && '/' !in sn
    ensures var j := Join(showFolder, sn); j != [] && j[|j| - 1] != '/'
  {
    assert sn[|sn| - 1] in sn;
  }

  /** The base name of a join onto a name without `/` is that name. */
  lemma BasenameOfJoin(a: string, b: string)
    requires '/' !in b && b != []
    ensures Basename(Join(a, b)) == b
  {
    var j := Join(a, b);
    assert b[0] in b;
    if a == [] || a[|a| - 1] != '/' {
      JoinSplits(a, b);
    } else {
      assert j == a + b;
      forall k | |a| <= k < |j| ensures j[k] != '/' {
        assert j[k] == b[k - |a|];
      }
      LastSlashAt(j, |a|);
    }
  }
}
