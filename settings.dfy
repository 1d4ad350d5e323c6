/** The add-on's settings file access (`get_setting` and `set_setting` in
    kodi_stub.py): the settings XML is read as a list of lines (each keeping
    its line feed) and searched or rewritten line by line with substring tests
    and `str.split`. Opening, reading and writing the file are left to the
    caller: the functions take the lines and give back what would be written. */
module Settings {
  import opened Wrappers
  import opened Text

  // ---------------------------------------------------------------------------
  // Pieces of `str.split`

  /** `s.split(sep)[0]`: the text before the first `sep`, or all of `s`. */
  function Upto(s: string, sep: string): (r: string)
    requires |sep| > 0
    ensures StartsWith(s, r)
    ensures forall j :: 0 <= j < |r| ==> !OccursAt(s, sep, j)
    ensures r == s || OccursAt(s, sep, |r|)
  {
    match FindFrom(s, sep, 0)
    case None => assert SplitAll(s, sep)[0] == s; SplitAll(s, sep)[0]
    case Some(i) => assert SplitAll(s, sep)[0] == s[..i]; SplitAll(s, sep)[0]
  }

  /** `s.split(sep)[1]` is the text after the first `sep` up to the next one, and
      raises IndexError when there is no `sep`. */
  lemma SecondPiece(s: string, sep: string)
    requires |sep| > 0
    ensures SplitPiece(s, sep, 1).Err? <==> !Contains(s, sep)
    ensures SplitPiece(s, sep, 1).Ok? ==>
              var i := FindFrom(s, sep, 0).value; SplitPiece(s, sep, 1).value == Upto(s[i + |sep|..], sep)
  {
    match FindFrom(s, sep, 0)
    case None =>
    case Some(i) =>
      var rest := s[i + |sep|..];
      assert SplitAll(s, sep) == [s[..i]] + SplitAll(rest, sep);
      assert SplitAll(s, sep)[1] == SplitAll(rest, sep)[0];
      UptoIsFirst(rest, sep);
  }

  lemma UptoIsFirst(s: string, sep: string)
    requires |sep| > 0
    ensures Upto(s, sep) == SplitAll(s, sep)[0]
  {
  }

  // ---------------------------------------------------------------------------
  // get_setting

  /** What `get_setting` returns: `None`, a string, a boolean, an integer, or
      the float that `float` reads from a text (represented by the text). */
  datatype SettingValue = NoneValue | StrValue(s: string) | BoolValue(b: bool) | IntValue(i: int) | FloatValue(text: string)

  /** `line.split('>')[1].split('</')[0]`: the text after the first `>`, up to
      the next `>` or `</`. A line without `>` raises IndexError. */
  function ValueIn(line: string): (r: Result<string>)
    ensures r.Err? ==> r.error == IndexError
  {
    match SplitPiece(line, ">", 1)
    case Err(_) => Err(IndexError)
    case Ok(piece) => Ok(Upto(piece, "</"))
  }

  /** `Upto` applied to the tail of `s` from `o`, read in the positions of `s`. */
  lemma UptoAt(s: string, o: nat, sep: string)
    requires o <= |s| && |sep| > 0
    ensures var u := Upto(s[o..], sep);
            o + |u| <= |s| && u == s[o..o + |u|] &&
            (forall j :: o <= j < o + |u| ==> !OccursAt(s, sep, j)) &&
            (o + |u| == |s| || OccursAt(s, sep, o + |u|))
  {
    var t := s[o..];
    var u := Upto(t, sep);
    forall j | o <= j < o + |u| ensures !OccursAt(s, sep, j) {
      assert !OccursAt(t, sep, j - o);
      if j + |sep| <= |s| {
        assert s[j..j + |sep|] == t[j - o..j - o + |sep|];
      }
    }
    if u != t {
      assert s[o + |u|..o + |u| + |sep|] == t[|u|..|u| + |sep|];
    }
  }

  /** `v` is the text of `s` from `o` up to, not including, the next `>`, the
      next `</` or the end of `s`. */
  predicate ValueFrom(s: string, o: nat, v: string) {
    var e := o + |v|;
    e <= |s| && v == s[o..e] &&
    (forall j :: o <= j < e ==> s[j] != '>' && !OccursAt(s, "</", j)) &&
    (e == |s| || s[e] == '>' || OccursAt(s, "</", e))
  }

  /** A one-character pattern occurs exactly where that character stands. */
  lemma CharAt(s: string, c: char, j: nat)
    requires j < |s|
    ensures OccursAt(s, [c], j) <==> s[j] == c
  {
    assert s[j..j + 1] == [s[j]];
  }

  /** A `</` that starts before `f` lies inside `s[..f]` unless `s[f]` is `/`. */
  lemma CloseInside(s: string, f: nat, j: nat)
    requires j < f <= |s| && !OccursAt(s[..f], "</", j) && (f == |s| || s[f] == '>')
    ensures !OccursAt(s, "</", j)
  {
    if j + 2 <= f {
      assert s[..f][j..j + 2] == s[j..j + 2];
    }
  }

  lemma NestedUpto(s: string, o: nat)
    requires o <= |s|
    ensures ValueFrom(s, o, Upto(Upto(s[o..], ">"), "</"))
  {
    var piece := Upto(s[o..], ">");
    UptoAt(s, o, ">");
    var f := o + |piece|;
    if f < |s| {
      CharAt(s, '>', f);
    }
    var cut := s[..f];
    assert cut[o..] == piece;
    UptoAt(cut, o, "</");
    var v := Upto(piece, "</");
    var e := o + |v|;
    NestedInside(s, o, f, e);
    assert v == cut[o..e];
    assert cut[o..e] == s[o..e];
    if e < f {
      CloseAt(s, f, e);
    }
  }

  lemma CloseAt(s: string, f: nat, e: nat)
    requires e < f <= |s| && OccursAt(s[..f], "</", e)
    ensures OccursAt(s, "</", e)
  {
    assert s[..f][e..e + 2] == s[e..e + 2];
  }

  /** Before the end `e` of the inner cut there is neither `>` nor `</`. */
  lemma NestedInside(s: string, o: nat, f: nat, e: nat)
    requires o <= e <= f <= |s| && (f == |s| || s[f] == '>')
    requires forall j :: o <= j < f ==> !OccursAt(s, ">", j)
    requires forall j :: o <= j < e ==> !OccursAt(s[..f], "</", j)
    ensures forall j :: o <= j < e ==> s[j] != '>' && !OccursAt(s, "</", j)
  {
    forall j | o <= j < e ensures s[j] != '>' && !OccursAt(s, "</", j) {
      CharAt(s, '>', j);
      CloseInside(s, f, j);
    }
  }

  /** The value read from a line is exactly the text that follows its first `>`
      and stops at the next `>`, at the next `</` or at the end of the line; a
      line without `>` raises. */
  lemma ValueInMeaning(line: string)
    ensures ValueIn(line).Err? <==> !Contains(line, ">")
    ensures ValueIn(line).Ok? ==> ValueFrom(line, FindFrom(line, ">", 0).value + 1, ValueIn(line).value)
  {
    SecondPiece(line, ">");
    if Contains(line, ">") {
      var p := FindFrom(line, ">", 0).value;
      assert ValueIn(line) == Ok(Upto(Upto(line[p + 1..], ">"), "</"));
      NestedUpto(line, p + 1);
    }
  }

  /** The loop of `get_setting`: each line containing `key` overwrites the
      value found so far; the first such line without `>` raises. */
  function Found(lines: seq<string>, key: string): (r: Result<Option<string>>)
  {
    if lines == [] then Ok(None)
    else
      var prev := Found(Init(lines), key);
      if prev.Err? || !Contains(Last(lines), key) then prev
      else
        match ValueIn(Last(lines))
        case Ok(v) => Ok(Some(v))
        case Err(e) => Err(e)
  }

  /** `str(return_var)`. */
  function Shown(raw: Option<string>): string {
    if raw.None? then "None" else raw.value
  }

  /** `return_var` returned as it is. */
  function Raw(raw: Option<string>): SettingValue {
    if raw.None? then NoneValue else StrValue(raw.value)
  }

  /** `int(s)` for a string: surrounding whitespace, an optional sign, and decimal
      digits with single underscores between them. */
  predicate IntBody(b: string) {
    b != [] && IsDigit(b[0]) && IsDigit(b[|b| - 1]) &&
    (forall i :: 0 <= i < |b| ==> IsDigit(b[i]) || b[i] == '_') &&
    (forall i :: 0 < i < |b| && b[i] == '_' ==> b[i - 1] != '_')
  }

  /** The digits of a string, underscores dropped. */
  function DigitsOf(b: string): (r: string)
    ensures (forall i :: 0 <= i < |b| ==> IsDigit(b[i]) || b[i] == '_') ==> AllDigits(r)
  {
    if b == [] then [] else DigitsOf(Init(b)) + (if Last(b) == '_' then [] else [Last(b)])
  }

  function ParseInt(s: string): (r: Result<int>)
    ensures r.Err? ==> r.error == ValueError
  {
    var t := Strip(s);
    var signed := t != [] && (t[0] == '+' || t[0] == '-');
    var body := if signed then t[1..] else t;
    if !IntBody(body) then Err(ValueError)
    else
      var n: int := DigitsValue(DigitsOf(body));
      Ok(if signed && t[0] == '-' then -n else n)
  }

  /** `str(n)` for an integer. */
  function IntText(n: int): (r: string)
    ensures r != [] && IsDigit(r[|r| - 1])
  {
    if n < 0 then "-" + NatToString(-n) else NatToString(n)
  }

  lemma {:induction false} DigitsValueOfText(n: nat)
    ensures DigitsValue(NatToString(n)) == n
  {
    if n >= 10 {
      var s := NatToString(n / 10) + [DigitChar(n % 10)];
      assert s[..|s| - 1] == NatToString(n / 10);
      DigitsValueOfText(n / 10);
    }
  }

  lemma {:induction false} DigitsOfDigits(s: string)
    requires AllDigits(s)
    ensures DigitsOf(s) == s
  {
    if s != [] {
      assert AllDigits(Init(s)) && Last(s) != '_';
      DigitsOfDigits(Init(s));
      assert s == Init(s) + [Last(s)];
    }
  }

  /** `int(str(n)) == n`: the integer conversion reads back what `str` writes. */
  lemma IntRoundTrip(n: int)
    ensures ParseInt(IntText(n)) == Ok(n)
  {
    var t := IntText(n);
    var m: nat := if n < 0 then -n else n;
    assert t[0] == '-' || IsDigit(t[0]);
    StripOfTrimmed(t);
    assert n < 0 ==> t[1..] == NatToString(m);
    BodyOfText(m);
  }

  /** The digits `str` writes for a natural number read back as that number. */
  lemma BodyOfText(m: nat)
    ensures IntBody(NatToString(m)) && DigitsValue(DigitsOf(NatToString(m))) == m
  {
    DigitsOfDigits(NatToString(m));
    DigitsValueOfText(m);
  }

  /** The conversion by `var_type` at the end of `get_setting`. */
  function Convert(raw: Option<string>, varType: string): (r: Result<SettingValue>)
    ensures varType == "string" ==> r == Ok(StrValue(Shown(raw)))
    ensures varType == "bool" ==>
              r.Ok? && (r.value.BoolValue? <==> Lower(Shown(raw)) == "true" || Lower(Shown(raw)) == "false") &&
              (r.value.BoolValue? ==> r.value.b == (Lower(Shown(raw)) == "true")) &&
              (!r.value.BoolValue? ==> r.value == Raw(raw))
    ensures (varType == "int" || varType == "float") && raw.None? ==> r == Err(TypeError)
    ensures varType == "int" && raw.Some? ==> (r.Ok? <==> ParseInt(raw.value).Ok?)
    ensures r.Ok? && r.value.IntValue? ==> varType == "int" && raw.Some? && ParseInt(raw.value) == Ok(r.value.i)
    ensures r.Err? ==> varType in {"int", "float"}
    ensures varType !in {"string", "bool", "int", "float"} ==> r == Ok(Raw(raw))
  {
    if varType == "string" then Ok(StrValue(Shown(raw)))
    else if varType == "bool" then
      var low := Lower(Shown(raw));
      if low == "true" then Ok(BoolValue(true))
      else if low == "false" then Ok(BoolValue(false))
      else Ok(Raw(raw))
    else if varType == "int" then
      if raw.None? then Err(TypeError)
      else
        match ParseInt(raw.value)
        case Ok(n) => Ok(IntValue(n))
        case Err(e) => Err(e)
    else if varType == "float" then
      if raw.None? then Err(TypeError) else Ok(FloatValue(raw.value))
    else Ok(Raw(raw))
  }

  /** `get_setting(name, var_type=varType)` over the lines of the file. */
  function Setting(lines: seq<string>, name: string, varType: string): Result<SettingValue> {
    match Found(lines, name + "\"")
    case Ok(raw) => Convert(raw, varType)
    case Err(e) => Err(e)
  }

  lemma {:induction false} FoundErrSticks(lines: seq<string>, key: string, k: nat)
    requires k <= |lines| && Found(lines[..k], key).Err?
    decreases |lines|
    ensures Found(lines, key) == Found(lines[..k], key)
  {
    if k < |lines| {
      assert Init(lines)[..k] == lines[..k];
      FoundErrSticks(Init(lines), key, k);
    } else {
      assert lines[..k] == lines;
    }
  }

  /** `get_setting` raises exactly when a line holding the key has no `>`. */
  lemma {:induction false} FoundErr(lines: seq<string>, key: string)
    ensures Found(lines, key).Err? <==>
              exists i :: 0 <= i < |lines| && Contains(lines[i], key) && !Contains(lines[i], ">")
  {
    if lines != [] {
      var n := |lines| - 1;
      assert forall i :: 0 <= i < n ==> Init(lines)[i] == lines[i];
      FoundErr(Init(lines), key);
      ValueInMeaning(lines[n]);
    }
  }

  /** It finds nothing exactly when no line holds the key. */
  lemma {:induction false} FoundNone(lines: seq<string>, key: string)
    ensures Found(lines, key) == Ok(None) <==> forall i :: 0 <= i < |lines| ==> !Contains(lines[i], key)
  {
    if lines != [] {
      var n := |lines| - 1;
      assert forall i :: 0 <= i < n ==> Init(lines)[i] == lines[i];
      FoundNone(Init(lines), key);
    }
  }

  /** Otherwise it returns the value of the last line that holds the key. */
  lemma {:induction false} FoundLast(lines: seq<string>, key: string, i: nat)
    requires i < |lines| && Contains(lines[i], key)
    requires forall j :: i < j < |lines| ==> !Contains(lines[j], key)
    ensures Found(lines, key).Ok? ==> ValueIn(lines[i]).Ok? && Found(lines, key) == Ok(Some(ValueIn(lines[i]).value))
  {
    var n := |lines| - 1;
    if i < n {
      assert forall j :: i < j < n ==> Init(lines)[j] == lines[j];
      FoundLast(Init(lines), key, i);
    }
  }

  method GetSetting(name: string, lines: seq<string>, varType: string) returns (r: Result<SettingValue>)
    ensures r == Setting(lines, name, varType)
  {
    var key := name + "\"";
    var found: Option<string> := None;
    var i := 0;
    while i < |lines|
      invariant i <= |lines|
      invariant Found(lines[..i], key) == Ok(found)
    {
      assert Init(lines[..i + 1]) == lines[..i] && Last(lines[..i + 1]) == lines[i];
      if Contains(lines[i], key) {
        var v := ValueIn(lines[i]);
        if v.Err? {
          FoundErrSticks(lines, key, i + 1);
          return Err(v.error);
        }
        found := Some(v.value);
      }
      i := i + 1;
    }
    assert lines[..i] == lines;
    r := Convert(found, varType);
  }

  // ---------------------------------------------------------------------------
  // set_setting

  /** The pieces `set_setting` joins for a line containing the name: the text up
      to and including the first `"`, the name, the text from the second `"` up
      to the next `>`, the value, and what followed the first `<` after the
      second `"` (or a closing `</setting>` line end). A line with fewer than two
      `"` raises IndexError. */
  function Assemble(line: string, name: string, value: string): (r: Result<string>)
  {
    match After(line, "\"")
    case None => Err(IndexError)
    case Some(r1) =>
      match After(r1, "\"")
      case None => Err(IndexError)
      case Some(rest) =>
        var tail := match SplitPiece(rest, "<", 1) case Ok(x) => "<" + x case Err(_) => "</setting>\n";
        Ok(Upto(line, "\"") + "\"" + name + "\"" + Upto(rest, ">") + ">" + value + tail)
  }

  /** The two `replace` calls that turn a self-closing element into an opening tag. */
  function Tidy(s: string): string {
    Replace(Replace(s, "default=\"true\" />", "default=\"true\">"), " />", ">")
  }

  function Rewritten(line: string, name: string, value: string): Result<string> {
    match Assemble(line, name, value)
    case Ok(s) => Ok(Tidy(s))
    case Err(e) => Err(e)
  }

  /** The lines `set_setting` produces and its `update` flag. */
  datatype Edit = Edit(out: seq<string>, update: bool)

  /** What `set_setting` writes for one line: a line containing the name is
      rewritten, any other line is copied. */
  function LineAfter(line: string, name: string, value: string): Result<string> {
    if Contains(line, name) then Rewritten(line, name, value) else Ok(line)
  }

  /** The loop of `set_setting`: each line is replaced by its `LineAfter`, and
      `update` is set by a line that this changes. */
  function Edited(lines: seq<string>, name: string, value: string): Result<Edit> {
    if lines == [] then Ok(Edit([], false))
    else
      match Edited(Init(lines), name, value)
      case Err(e) => Err(e)
      case Ok(prev) =>
        match LineAfter(Last(lines), name, value)
        case Err(e) => Err(e)
        case Ok(s) => Ok(Edit(prev.out + [s], prev.update || s != Last(lines)))
  }

  function Concat(ls: seq<string>): string {
    if ls == [] then "" else Concat(Init(ls)) + Last(ls)
  }

  /** `set_setting(name, value)`: the new file contents when the file is
      rewritten, `None` when it is left alone. */
  function FileAfter(lines: seq<string>, name: string, value: string): Result<Option<string>> {
    match Edited(lines, name, value)
    case Err(e) => Err(e)
    case Ok(ed) => Ok(if ed.update then Some(Concat(ed.out)) else None)
  }

  lemma {:induction false} EditedErrSticks(lines: seq<string>, name: string, value: string, k: nat)
    requires k <= |lines| && Edited(lines[..k], name, value).Err?
    decreases |lines|
    ensures Edited(lines, name, value) == Edited(lines[..k], name, value)
  {
    if k < |lines| {
      assert Init(lines)[..k] == lines[..k];
      EditedErrSticks(Init(lines), name, value, k);
    } else {
      assert lines[..k] == lines;
    }
  }

  /** The first place a one-character pattern occurs. */
  lemma FirstChar(s: string, c: char, k: nat)
    requires k < |s| && s[k] == c && forall j :: 0 <= j < k ==> s[j] != c
    ensures FindFrom(s, [c], 0) == Some(k)
  {
    CharAt(s, c, k);
    var r := FindFrom(s, [c], 0);
    if r.Some? && r.value < k {
      CharAt(s, c, r.value);
    }
  }

  /** A line without a character has no one-character pattern of it. */
  lemma NoChar(s: string, c: char)
    requires forall j :: 0 <= j < |s| ==> s[j] != c
    ensures FindFrom(s, [c], 0) == None
  {
    var r := FindFrom(s, [c], 0);
    if r.Some? {
      CharAt(s, c, r.value);
    }
  }

  /** `After` on a one-character separator. */
  lemma AfterChar(s: string, c: char)
    ensures After(s, [c]).None? <==> forall j :: 0 <= j < |s| ==> s[j] != c
    ensures After(s, [c]).Some? ==>
              var k := |s| - |After(s, [c]).value| - 1;
              s[k] == c && (forall j :: 0 <= j < k ==> s[j] != c)
  {
    var r := FindFrom(s, [c], 0);
    if r.Some? {
      CharAt(s, c, r.value);
      forall j | 0 <= j < r.value ensures s[j] != c {
        CharAt(s, c, j);
      }
    } else {
      forall j | 0 <= j < |s| ensures s[j] != c {
        CharAt(s, c, j);
      }
    }
  }

  /** A line is rewritten unless it has fewer than two `"`: then IndexError. */
  lemma AssembleErr(line: string, name: string, value: string)
    ensures Assemble(line, name, value).Err? <==>
              forall i, j :: 0 <= i < j < |line| ==> !(line[i] == '"' && line[j] == '"')
    ensures Assemble(line, name, value).Err? ==> Assemble(line, name, value).error == IndexError
  {
    AfterChar(line, '"');
    var a := After(line, "\"");
    if a.Some? {
      var k := |line| - |a.value| - 1;
      assert a.value == line[k + 1..];
      AfterChar(a.value, '"');
      if After(a.value, "\"").Some? {
        var m := |a.value| - |After(a.value, "\"").value| - 1;
        assert line[k] == '"' && line[k + 1 + m] == '"';
      } else {
        forall i, j | 0 <= i < j < |line| ensures !(line[i] == '"' && line[j] == '"') {
        }
      }
    }
  }

  /** A rewritten line keeps the text up to its first `"` and puts the name in
      the first pair of quotes. */
  lemma AssembleHead(line: string, name: string, value: string)
    ensures Assemble(line, name, value).Ok? ==>
              var i := FindFrom(line, "\"", 0).value;
              StartsWith(Assemble(line, name, value).value, line[..i + 1] + name + "\"")
  {
    if Assemble(line, name, value).Ok? {
      var i := FindFrom(line, "\"", 0).value;
      UptoFirst(line, "\"");
      CharAt(line, '"', i);
      assert line[..i + 1] == Upto(line, "\"") + "\"";
      AssembleStart(line, name, value);
    }
  }

  lemma AssembleStart(line: string, name: string, value: string)
    requires Assemble(line, name, value).Ok?
    ensures StartsWith(Assemble(line, name, value).value, Upto(line, "\"") + "\"" + name + "\"")
  {
    var head := Upto(line, "\"") + "\"" + name + "\"";
    var rest := After(After(line, "\"").value, "\"").value;
    var tail := match SplitPiece(rest, "<", 1) case Ok(x) => "<" + x case Err(_) => "</setting>\n";
    var r := head + Upto(rest, ">") + ">" + value + tail;
    assert Assemble(line, name, value).value == r;
    assert r[..|head|] == head;
  }

  /** `s.split(sep)[0]` stops at the first `sep`. */
  lemma UptoFirst(s: string, sep: string)
    requires |sep| > 0 && Contains(s, sep)
    ensures Upto(s, sep) == s[..FindFrom(s, sep, 0).value]
  {
  }

  lemma PrefixOfJoin(a: string, b: string)
    ensures StartsWith(a + b, a)
  {
    assert (a + b)[..|a|] == a;
  }

  /** When no `<` follows the second `"`, a rewritten line ends with `>`, the
      value, `</setting>` and a line feed. */
  lemma AssembleTail(line: string, name: string, value: string)
    ensures Assemble(line, name, value).Ok? && !Contains(After(After(line, "\"").value, "\"").value, "<") ==>
              EndsWith(Assemble(line, name, value).value, ">" + value + "</setting>\n")
  {
    if Assemble(line, name, value).Ok? {
      var rest := After(After(line, "\"").value, "\"").value;
      if !Contains(rest, "<") {
        SecondPiece(rest, "<");
        var head := Upto(line, "\"") + "\"" + name + "\"" + Upto(rest, ">");
        var r := head + ">" + value + "</setting>\n";
        assert r == head + (">" + value + "</setting>\n");
      }
    }
  }

  /** `set_setting` raises exactly when a line holding the name has fewer than
      two `"`. */
  lemma {:induction false} EditedErr(lines: seq<string>, name: string, value: string)
    ensures Edited(lines, name, value).Err? <==>
              exists i :: 0 <= i < |lines| && Contains(lines[i], name) && Assemble(lines[i], name, value).Err?
  {
    if lines != [] {
      var n := |lines| - 1;
      assert forall i :: 0 <= i < n ==> Init(lines)[i] == lines[i];
      EditedErr(Init(lines), name, value);
    }
  }

  /** Otherwise each line is replaced by its `LineAfter`. */
  lemma {:induction false} EditedLines(lines: seq<string>, name: string, value: string)
    ensures Edited(lines, name, value).Ok? ==>
              var out := Edited(lines, name, value).value.out;
              |out| == |lines| && forall i :: 0 <= i < |lines| ==> LineAfter(lines[i], name, value) == Ok(out[i])
  {
    if lines != [] && Edited(lines, name, value).Ok? {
      EditedLines(Init(lines), name, value);
      var prev := Edited(Init(lines), name, value).value;
      var out := Edited(lines, name, value).value.out;
      var n := |lines| - 1;
      assert out == prev.out + [out[n]];
      forall i | 0 <= i < |lines| ensures LineAfter(lines[i], name, value) == Ok(out[i]) {
        if i < n {
          assert Init(lines)[i] == lines[i] && out[i] == prev.out[i];
        }
      }
    }
  }

  /** `update` is set exactly when some line changed. */
  lemma {:induction false} EditedUpdate(lines: seq<string>, name: string, value: string)
    ensures Edited(lines, name, value).Ok? ==>
              var ed := Edited(lines, name, value).value;
              |ed.out| == |lines| &&
              (ed.update <==> exists i :: 0 <= i < |lines| && ed.out[i] != lines[i])
  {
    if lines != [] && Edited(lines, name, value).Ok? {
      EditedUpdate(Init(lines), name, value);
      var prev := Edited(Init(lines), name, value).value;
      var s := LineAfter(Last(lines), name, value).value;
      var out := prev.out + [s];
      var n := |lines| - 1;
      assert Edited(lines, name, value).value == Edit(out, prev.update || s != Last(lines));
      assert forall i :: 0 <= i < n ==> out[i] == prev.out[i] && lines[i] == Init(lines)[i];
      assert out[n] == s && lines[n] == Last(lines);
    }
  }

  /** The file is written only when some line changed, and then with the new
      lines. */
  lemma FileWritten(lines: seq<string>, name: string, value: string)
    ensures FileAfter(lines, name, value).Ok? ==>
              var out := Edited(lines, name, value).value.out;
              |out| == |lines| &&
              (FileAfter(lines, name, value).value.None? <==> forall i :: 0 <= i < |lines| ==> out[i] == lines[i]) &&
              (FileAfter(lines, name, value).value.Some? ==> FileAfter(lines, name, value).value.value == Concat(out))
  {
    EditedUpdate(lines, name, value);
  }

  method SetSetting(name: string, value: string, lines: seq<string>) returns (r: Result<Option<string>>)
    ensures r == FileAfter(lines, name, value)
  {
    var content := "";
    var update := false;
    ghost var out: seq<string> := [];
    var i := 0;
    while i < |lines|
      invariant i <= |lines|
      invariant Edited(lines[..i], name, value) == Ok(Edit(out, update))
      invariant content == Concat(out)
    {
      assert Init(lines[..i + 1]) == lines[..i] && Last(lines[..i + 1]) == lines[i];
      var line := lines[i];
      if Contains(line, name) {
        var assembled := Assemble(line, name, value);
        if assembled.Err? {
          EditedErrSticks(lines, name, value, i + 1);
          return Err(assembled.error);
        }
        var settingLine := Replace(assembled.value, "default=\"true\" />", "default=\"true\">");
        settingLine := Replace(settingLine, " />", ">");
        assert Init(out + [settingLine]) == out;
        content := content + settingLine;
        out := out + [settingLine];
        if settingLine != line {
          update := true;
        }
      } else {
        assert Init(out + [line]) == out;
        content := content + line;
        out := out + [line];
      }
      i := i + 1;
    }
    assert lines[..i] == lines;
    r := if update then Ok(Some(content)) else Ok(None);
  }

  // ---------------------------------------------------------------------------
  // A setting line written and read back

  /** The line Kodi keeps for a setting: `<setting id="name">value</setting>`,
      after some indentation. */
  function SettingLine(indent: string, name: string, v: string): string {
    indent + "<setting id=\"" + name + "\">" + v + "</setting>\n"
  }

  predicate Lacks(s: string, c: char) { forall i :: 0 <= i < |s| ==> s[i] != c }

  /** Text that holds none of the characters that delimit a setting line. */
  predicate Plain(s: string) { Lacks(s, '"') && Lacks(s, '<') && Lacks(s, '>') }

  /** A setting line cut where its value starts. */
  lemma LineParts(indent: string, name: string, v: string)
    ensures SettingLine(indent, name, v) == (indent + "<setting id=\"" + name + "\">") + v + "</setting>\n"
    ensures SettingLine(indent, name, v) == (indent + "<setting id=") + ("\"" + name + "\">" + v + "</setting>\n")
  {
  }

  /** Two settings of the same length that both stop where `ValueFrom` says
      are the same. */
  lemma ValueFromUnique(s: string, o: nat, v: string, w: string)
    requires ValueFrom(s, o, v) && ValueFrom(s, o, w)
    ensures v == w
  {
  }

  /** Plain text followed by `</` is read as a value. */
  lemma ValueBeforeClose(pre: string, v: string, post: string)
    requires Plain(v) && StartsWith(post, "</")
    ensures ValueFrom(pre + v + post, |pre|, v)
  {
    var s := pre + v + post;
    var e := |pre| + |v|;
    assert s[|pre|..e] == v;
    forall j | |pre| <= j < e ensures s[j] != '>' && !OccursAt(s, "</", j) {
      assert s[j] == v[j - |pre|];
      assert s[j..j + 1] == [s[j]];
    }
    assert s[e..e + 2] == post[..2];
  }

  /** The first `>` of a setting line closes its opening tag. */
  lemma OpenTagEnd(indent: string, name: string, v: string)
    requires Plain(indent) && Plain(name)
    ensures var pre := indent + "<setting id=\"" + name + "\">";
            FindFrom(SettingLine(indent, name, v), ">", 0) == Some(|pre| - 1)
  {
    var pre := indent + "<setting id=\"" + name + "\">";
    var s := SettingLine(indent, name, v);
    LineParts(indent, name, v);
    var a := |indent|;
    var b := a + 13;
    assert forall j :: 0 <= j < a ==> s[j] == indent[j];
    assert forall j :: a <= j < b ==> s[j] == "<setting id=\""[j - a];
    assert forall j :: b <= j < b + |name| ==> s[j] == name[j - b];
    assert s[b + |name|] == '"' && s[b + |name| + 1] == '>';
    FirstChar(s, '>', |pre| - 1);
  }

  /** Reading a setting line gives its value. */
  lemma GetLine(indent: string, name: string, v: string)
    requires Plain(indent) && Plain(name) && Plain(v)
    ensures Contains(SettingLine(indent, name, v), name + "\"")
    ensures ValueIn(SettingLine(indent, name, v)) == Ok(v)
  {
    var s := SettingLine(indent, name, v);
    var pre := indent + "<setting id=\"" + name + "\">";
    LineParts(indent, name, v);
    var a := |indent| + 13;
    assert s[a..a + |name| + 1] == name + "\"";
    ContainsAt(s, name + "\"", a);
    OpenTagEnd(indent, name, v);
    ValueInMeaning(s);
    ValueBeforeClose(pre, v, "</setting>\n");
    ValueFromUnique(s, |pre|, ValueIn(s).value, v);
  }

  /** `Upto` on a one-character separator stops at its first occurrence. */
  lemma UptoChar(s: string, c: char, k: nat)
    requires k < |s| && s[k] == c && forall j :: 0 <= j < k ==> s[j] != c
    ensures Upto(s, [c]) == s[..k]
  {
    var r := Upto(s, [c]);
    CharAt(s, c, k);
    if |r| < k {
      CharAt(s, c, |r|);
    }
  }

  /** `Upto` on a separator the text lacks keeps all of it. */
  lemma UptoNone(s: string, c: char)
    requires Lacks(s, c)
    ensures Upto(s, [c]) == s
  {
    var r := Upto(s, [c]);
    if r != s {
      CharAt(s, c, |r|);
    }
  }

  /** A text with `a + b` in it has `a` in it. */
  lemma ContainsPrefix(s: string, a: string, b: string)
    requires Contains(s, a + b)
    ensures Contains(s, a)
  {
    var k := FindFrom(s, a + b, 0).value;
    assert s[k..k + |a|] == (a + b)[..|a|];
    ContainsAt(s, a, k);
  }

  /** `replace` leaves a text without the pattern as it is. */
  lemma {:induction false} ReplaceAbsent(s: string, pat: string, rep: string)
    requires |pat| > 0 && !Contains(s, pat)
    decreases |s|
    ensures Replace(s, pat, rep) == s
  {
    if |s| >= |pat| {
      var t := s[1..];
      if Contains(t, pat) {
        var j := FindFrom(t, pat, 0).value;
        assert t[j..j + |pat|] == pat;
        assert forall p :: j + 1 <= p < j + 1 + |pat| ==> s[p] == t[p - 1];
        assert s[j + 1..j + 1 + |pat|] == pat;
        ContainsAt(s, pat, j + 1);
      }
      ReplaceAbsent(t, pat, rep);
      assert s == [s[0]] + t;
    }
  }

  /** No `/` directly before a `>`: no self-closing tag. */
  predicate NoSelfClose(s: string) { forall i :: 0 < i < |s| && s[i] == '>' ==> s[i - 1] != '/' }

  lemma NoSelfCloseJoin(a: string, b: string)
    requires NoSelfClose(a) && NoSelfClose(b) && (b == [] || b[0] != '>')
    ensures NoSelfClose(a + b)
  {
    var s := a + b;
    forall i | 0 < i < |s| && s[i] == '>' ensures s[i - 1] != '/' {
      if i > |a| {
        assert s[i] == b[i - |a|] && s[i - 1] == b[i - 1 - |a|];
      } else if i < |a| {
        assert s[i] == a[i] && s[i - 1] == a[i - 1];
      }
    }
  }

  /** A pattern ending in `/>` is not in a text without self-closing tags. */
  lemma SelfCloseAbsent(s: string, pat: string)
    requires NoSelfClose(s) && |pat| >= 2 && pat[|pat| - 2] == '/' && pat[|pat| - 1] == '>'
    ensures !Contains(s, pat)
  {
  }

  /** A setting line is not self-closing, so tidying leaves it alone. */
  lemma TidyLine(indent: string, name: string, v: string)
    requires Plain(indent) && Plain(name) && Plain(v)
    ensures Tidy(SettingLine(indent, name, v)) == SettingLine(indent, name, v)
  {
    var s := SettingLine(indent, name, v);
    assert NoSelfClose("<setting id=\"") && NoSelfClose("\">") && NoSelfClose("</setting>\n");
    NoSelfCloseJoin(indent, "<setting id=\"");
    NoSelfCloseJoin(indent + "<setting id=\"", name);
    NoSelfCloseJoin(indent + "<setting id=\"" + name, "\">");
    NoSelfCloseJoin(indent + "<setting id=\"" + name + "\">", v);
    NoSelfCloseJoin(indent + "<setting id=\"" + name + "\">" + v, "</setting>\n");
    SelfCloseAbsent(s, "default=\"true\" />");
    ReplaceAbsent(s, "default=\"true\" />", "default=\"true\">");
    SelfCloseAbsent(s, " />");
    ReplaceAbsent(s, " />", ">");
  }

  /** What comes before the first `"` of a setting line. */
  lemma HeadOfLine(indent: string, name: string, v: string)
    requires Plain(indent)
    ensures var s := SettingLine(indent, name, v);
            var a := |indent| + 12;
            a < |s| && s[a] == '"' && (forall j :: 0 <= j < a ==> s[j] != '"') &&
            s[..a] == indent + "<setting id=" && s[a + 1..] == name + "\">" + v + "</setting>\n"
  {
    var s := SettingLine(indent, name, v);
    var a := indent + "<setting id=";
    var q := "\"" + name + "\">" + v + "</setting>\n";
    LineParts(indent, name, v);
    assert s == a + q;
    assert forall j :: 0 <= j < |indent| ==> s[j] == indent[j];
    assert forall j :: |indent| <= j < |a| ==> s[j] == "<setting id="[j - |indent|];
    assert s[|a|] == q[0];
    assert s[|a| + 1..] == q[1..];
  }

  /** The text after the second `"` of a setting line, and what comes before
      the first. */
  lemma QuotesOfLine(indent: string, name: string, v: string)
    requires Plain(indent) && Plain(name)
    ensures Upto(SettingLine(indent, name, v), "\"") == indent + "<setting id="
    ensures After(SettingLine(indent, name, v), "\"") == Some(name + "\">" + v + "</setting>\n")
    ensures After(name + "\">" + v + "</setting>\n", "\"") == Some(">" + v + "</setting>\n")
  {
    var s := SettingLine(indent, name, v);
    var a := |indent| + 12;
    HeadOfLine(indent, name, v);
    FirstChar(s, '"', a);
    UptoChar(s, '"', a);
    SecondQuoteOfLine(name, v);
  }

  lemma SecondQuoteOfLine(name: string, v: string)
    requires Plain(name)
    ensures After(name + "\">" + v + "</setting>\n", "\"") == Some(">" + v + "</setting>\n")
  {
    var r1 := name + "\">" + v + "</setting>\n";
    assert forall j :: 0 <= j < |name| ==> r1[j] == name[j];
    assert r1[|name|] == '"';
    FirstChar(r1, '"', |name|);
    assert r1[|name| + 1..] == ">" + v + "</setting>\n";
  }

  /** `s.split('<')[1]` when `<` occurs at `k` first and not after it. */
  lemma SecondOfLast(s: string, k: nat)
    requires k < |s| && s[k] == '<' && (forall j :: 0 <= j < k ==> s[j] != '<') && Lacks(s[k + 1..], '<')
    ensures SplitPiece(s, "<", 1) == Ok(s[k + 1..])
  {
    FirstChar(s, '<', k);
    SecondPiece(s, "<");
    UptoNone(s[k + 1..], '<');
  }

  /** The text between the first and the second `<` after the second `"`. */
  lemma TailOfLine(v: string)
    requires Plain(v)
    ensures SplitPiece(">" + v + "</setting>\n", "<", 1) == Ok("/setting>\n")
  {
    var rest := ">" + v + "</setting>\n";
    var k := 1 + |v|;
    assert forall j :: 1 <= j < k ==> rest[j] == v[j - 1];
    assert rest[k + 1..] == "/setting>\n";
    assert Lacks("/setting>\n", '<');
    SecondOfLast(rest, k);
  }

  lemma JoinLine(indent: string, name: string, value: string)
    ensures (indent + "<setting id=") + "\"" + name + "\"" + "" + ">" + value + ("<" + "/setting>\n") ==
            SettingLine(indent, name, value)
  {
  }

  /** `set_setting` rewrites a setting line to the same line with the new value. */
  lemma SetLine(indent: string, name: string, was: string, value: string)
    requires Plain(indent) && Plain(name) && Plain(was) && Plain(value)
    ensures LineAfter(SettingLine(indent, name, was), name, value) == Ok(SettingLine(indent, name, value))
  {
    var s := SettingLine(indent, name, was);
    GetLine(indent, name, was);
    ContainsPrefix(s, name, "\"");
    QuotesOfLine(indent, name, was);
    var rest := ">" + was + "</setting>\n";
    UptoChar(rest, '>', 0);
    TailOfLine(was);
    var head := indent + "<setting id=";
    assert Assemble(s, name, value) == Ok(head + "\"" + name + "\"" + "" + ">" + value + ("<" + "/setting>\n"));
    JoinLine(indent, name, value);
    TidyLine(indent, name, value);
  }

  /** A line that has the form of a setting line for `name`. */
  ghost predicate IsSettingLine(line: string, name: string) {
    exists indent, was :: Plain(indent) && Plain(was) && line == SettingLine(indent, name, was)
  }

  lemma FoundSnoc(prev: seq<string>, line: string, key: string)
    ensures !Contains(line, key) ==> Found(prev + [line], key) == Found(prev, key)
    ensures Contains(line, key) && Found(prev, key).Ok? && ValueIn(line).Ok? ==>
              Found(prev + [line], key) == Ok(Some(ValueIn(line).value))
  {
    assert Init(prev + [line]) == prev && Last(prev + [line]) == line;
  }

  lemma EditedSnoc(lines: seq<string>, name: string, value: string)
    requires lines != [] && Edited(Init(lines), name, value).Ok? && LineAfter(Last(lines), name, value).Ok?
    ensures Edited(lines, name, value) ==
            Ok(Edit(Edited(Init(lines), name, value).value.out + [LineAfter(Last(lines), name, value).value],
                    Edited(Init(lines), name, value).value.update || LineAfter(Last(lines), name, value).value != Last(lines)))
  {
  }

  /** Some line mentions `name`. */
  predicate Mentions(lines: seq<string>, name: string) {
    exists i :: 0 <= i < |lines| && Contains(lines[i], name)
  }

  lemma MentionsSnoc(lines: seq<string>, name: string)
    requires lines != []
    ensures Mentions(lines, name) <==> Mentions(Init(lines), name) || Contains(Last(lines), name)
  {
    if Mentions(lines, name) && !Contains(Last(lines), name) {
      var i :| 0 <= i < |lines| && Contains(lines[i], name);
      assert Init(lines)[i] == lines[i];
    }
    if Mentions(Init(lines), name) {
      var i :| 0 <= i < |lines| - 1 && Contains(Init(lines)[i], name);
      assert lines[i] == Init(lines)[i];
    }
  }

  /** The last line is a setting line for `name`: it is rewritten and read back. */
  lemma SetThenGetLast(lines: seq<string>, name: string, value: string)
    requires lines != [] && Plain(name) && Plain(value) && IsSettingLine(Last(lines), name)
    requires Edited(Init(lines), name, value).Ok? && Found(Edited(Init(lines), name, value).value.out, name + "\"").Ok?
    ensures Edited(lines, name, value).Ok?
    ensures Found(Edited(lines, name, value).value.out, name + "\"") == Ok(Some(value))
  {
    var prev := Edited(Init(lines), name, value).value.out;
    var indent, was :| Plain(indent) && Plain(was) && Last(lines) == SettingLine(indent, name, was);
    SetLine(indent, name, was, value);
    GetLine(indent, name, value);
    EditedSnoc(lines, name, value);
    FoundSnoc(prev, SettingLine(indent, name, value), name + "\"");
  }

  /** The last line does not mention `name`: it is kept and ignored. */
  lemma SetThenGetOther(lines: seq<string>, name: string, value: string)
    requires lines != [] && !Contains(Last(lines), name)
    requires Edited(Init(lines), name, value).Ok?
    ensures Edited(lines, name, value).Ok?
    ensures Found(Edited(lines, name, value).value.out, name + "\"") ==
            Found(Edited(Init(lines), name, value).value.out, name + "\"")
  {
    var line := Last(lines);
    if Contains(line, name + "\"") {
      ContainsPrefix(line, name, "\"");
    }
    EditedSnoc(lines, name, value);
    FoundSnoc(Edited(Init(lines), name, value).value.out, line, name + "\"");
  }

  /** Setting a value and reading it back: when every line mentioning the name
      is a setting line, `set_setting` succeeds and `get_setting` on the lines it
      writes finds the new value (or nothing when no line mentions the name). */
  lemma {:induction false} SetThenGet(lines: seq<string>, name: string, value: string)
    requires Plain(name) && Plain(value)
    requires forall i :: 0 <= i < |lines| && Contains(lines[i], name) ==> IsSettingLine(lines[i], name)
    ensures Edited(lines, name, value).Ok?
    ensures Found(Edited(lines, name, value).value.out, name + "\"") ==
            if Mentions(lines, name) then Ok(Some(value)) else Ok(None)
  {
    if lines != [] {
      var n := |lines| - 1;
      assert forall i :: 0 <= i < n ==> Init(lines)[i] == lines[i];
      SetThenGet(Init(lines), name, value);
      MentionsSnoc(lines, name);
      if Contains(Last(lines), name) {
        SetThenGetLast(lines, name, value);
      } else {
        SetThenGetOther(lines, name, value);
      }
    }
  }
}
