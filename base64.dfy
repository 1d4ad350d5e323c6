/** The cache's value codec (`encode_db` / `decode_db`, Utils.py): an ASCII string
    is encoded to bytes, the bytes to Base64 as defined in section 4 of RFC 4648
    (64-character alphabet, `=` padding), and the Base64 text back to a string. */
module Base64 {
  import opened Wrappers
  import opened Text

  type byte = x: int | 0 <= x < 256

  /** The value of a Base64 digit: `A`-`Z` are 0-25, `a`-`z` 26-51, `0`-`9` 52-61,
      `+` is 62 and `/` is 63 (table 1 of RFC 4648). */
  function EncodeChar(v: nat): (c: char)
    requires v < 64
  {
    if v < 26 then ('A' as int + v) as char
    else if v < 52 then ('a' as int + (v - 26)) as char
    else if v < 62 then ('0' as int + (v - 52)) as char
    else if v == 62 then '+'
    else '/'
  }

  /** Inverse of EncodeChar; None for a character outside the alphabet. */
  function DecodeChar(c: char): (r: Option<nat>)
    ensures r.Some? ==> r.value < 64 && EncodeChar(r.value) == c
  {
    if 'A' <= c <= 'Z' then Some(c as int - 'A' as int)
    else if 'a' <= c <= 'z' then Some(c as int - 'a' as int + 26)
    else if '0' <= c <= '9' then Some(c as int - '0' as int + 52)
    else if c == '+' then Some(62)
    else if c == '/' then Some(63)
    else None
  }

  predicate InAlphabet(c: char) { DecodeChar(c).Some? }

  lemma DecodeEncodeChar(v: nat)
    requires v < 64
    ensures DecodeChar(EncodeChar(v)) == Some(v)
  {
  }

  // ---------------------------------------------------------------------------
  // Bytes <-> Base64 text

  /** `base64.b64encode`: each 3 bytes become 4 digits; a final group of 1 or 2
      bytes is padded with `=` to 4 characters. */
  function EncodeBytes(b: seq<byte>): (r: string)
    decreases |b|
  {
    if |b| == 0 then []
    else if |b| == 1 then
      [EncodeChar(b[0] / 4), EncodeChar((b[0] % 4) * 16), '=', '=']
    else if |b| == 2 then
      [EncodeChar(b[0] / 4), EncodeChar((b[0] % 4) * 16 + b[1] / 16), EncodeChar((b[1] % 16) * 4), '=']
    else
      [EncodeChar(b[0] / 4), EncodeChar((b[0] % 4) * 16 + b[1] / 16),
       EncodeChar((b[1] % 16) * 4 + b[2] / 64), EncodeChar(b[2] % 64)]
      + EncodeBytes(b[3..])
  }

  /** Three bytes from four digit values (the low bits of a padded group are dropped,
      as `binascii` drops them). */
  function Byte0(c0: nat, c1: nat): byte requires c0 < 64 && c1 < 64 { c0 * 4 + c1 / 16 }
  function Byte1(c1: nat, c2: nat): byte requires c1 < 64 && c2 < 64 { (c1 % 16) * 16 + c2 / 4 }
  function Byte2(c2: nat, c3: nat): byte requires c2 < 64 && c3 < 64 { (c2 % 4) * 64 + c3 }

  /** `base64.b64decode` on canonical input: whole groups of four alphabet
      characters, the last of which may end in `=` or `==`. */
  function DecodeText(s: string): (r: Result<seq<byte>>)
    decreases |s|
  {
    if |s| == 0 then Ok([])
    else if |s| < 4 then Err(Base64Error)
    else
      var d0, d1, d2, d3 := DecodeChar(s[0]), DecodeChar(s[1]), DecodeChar(s[2]), DecodeChar(s[3]);
      if d0.None? || d1.None? then Err(Base64Error)
      else if |s| == 4 && s[2] == '=' && s[3] == '=' then
        Ok([Byte0(d0.value, d1.value)])
      else if |s| == 4 && d2.Some? && s[3] == '=' then
        Ok([Byte0(d0.value, d1.value), Byte1(d1.value, d2.value)])
      else if d2.None? || d3.None? then Err(Base64Error)
      else
        var rest :- DecodeText(s[4..]);
        Ok([Byte0(d0.value, d1.value), Byte1(d1.value, d2.value), Byte2(d2.value, d3.value)] + rest)
  }

  // ---------------------------------------------------------------------------
  // encode_db / decode_db

  function AsciiBytes(s: string): (b: seq<byte>)
    requires AllAscii(s)
    ensures |b| == |s|
  {
    if s == [] then [] else [s[0] as int as byte] + AsciiBytes(s[1..])
  }

  /** `bytes.decode("ascii")`. */
  function BytesToAscii(b: seq<byte>): (r: Result<string>)
  {
    if b == [] then Ok([])
    else if b[0] >= 128 then Err(UnicodeError)
    else
      var rest :- BytesToAscii(b[1..]);
      Ok([b[0] as char] + rest)
  }

  /** encode_db: `str.encode("ascii")` raises on a non-ASCII character. */
  function EncodeDb(s: string): (r: Result<string>)
    ensures r.Ok? <==> AllAscii(s)
  {
    if AllAscii(s) then Ok(EncodeBytes(AsciiBytes(s))) else Err(UnicodeError)
  }

  /** decode_db. */
  function DecodeDb(t: string): (r: Result<string>)
  {
    if !AllAscii(t) then Err(UnicodeError)
    else
      var b :- DecodeText(t);
      BytesToAscii(b)
  }

  // ---------------------------------------------------------------------------
  // Properties

  lemma GroupRoundTrip(b0: byte, b1: byte, b2: byte)
    ensures Byte0(b0 / 4, (b0 % 4) * 16 + b1 / 16) == b0
    ensures Byte1((b0 % 4) * 16 + b1 / 16, (b1 % 16) * 4 + b2 / 64) == b1
    ensures Byte2((b1 % 16) * 4 + b2 / 64, b2 % 64) == b2
  {
  }

  /** Decoding a group of four alphabet characters. */
  lemma DecodeGroup(s: string, c0: nat, c1: nat, c2: nat, c3: nat)
    requires |s| >= 4 && c0 < 64 && c1 < 64 && c2 < 64 && c3 < 64
    requires DecodeChar(s[0]) == Some(c0) && DecodeChar(s[1]) == Some(c1)
    requires DecodeChar(s[2]) == Some(c2) && DecodeChar(s[3]) == Some(c3)
    ensures DecodeText(s) ==
      match DecodeText(s[4..])
      case Ok(rest) => Ok([Byte0(c0, c1), Byte1(c1, c2), Byte2(c2, c3)] + rest)
      case Err(e) => Err(e)
  {
    assert s[2] != '=' && s[3] != '=';
  }

  /** The first four characters of the encoding of three or more bytes. */
  lemma EncodeHead(b: seq<byte>)
    requires |b| >= 3
    ensures var s := EncodeBytes(b);
      |s| >= 4 &&
      DecodeChar(s[0]) == Some(b[0] / 4) &&
      DecodeChar(s[1]) == Some((b[0] % 4) * 16 + b[1] / 16) &&
      DecodeChar(s[2]) == Some((b[1] % 16) * 4 + b[2] / 64) &&
      DecodeChar(s[3]) == Some(b[2] % 64) &&
      s[4..] == EncodeBytes(b[3..])
  {
    DecodeEncodeChar(b[0] / 4);
    DecodeEncodeChar((b[0] % 4) * 16 + b[1] / 16);
    DecodeEncodeChar((b[1] % 16) * 4 + b[2] / 64);
    DecodeEncodeChar(b[2] % 64);
  }

  lemma DecodeEncodeOne(b0: byte)
    ensures DecodeText(EncodeBytes([b0])) == Ok([b0])
  {
    var s := EncodeBytes([b0]);
    var c0, c1 := b0 / 4, (b0 % 4) * 16;
    assert s == [EncodeChar(c0), EncodeChar(c1), '=', '='];
    DecodeEncodeChar(c0);
    DecodeEncodeChar(c1);
    assert Byte0(c0, c1) == b0;
  }

  lemma DecodeEncodeTwo(b0: byte, b1: byte)
    ensures DecodeText(EncodeBytes([b0, b1])) == Ok([b0, b1])
  {
    var s := EncodeBytes([b0, b1]);
    var c0, c1, c2 := b0 / 4, (b0 % 4) * 16 + b1 / 16, (b1 % 16) * 4;
    assert s == [EncodeChar(c0), EncodeChar(c1), EncodeChar(c2), '='];
    DecodeEncodeChar(c0);
    DecodeEncodeChar(c1);
    DecodeEncodeChar(c2);
    GroupRoundTrip(b0, b1, 0);
    assert Byte0(c0, c1) == b0 && Byte1(c1, c2) == b1;
  }

  /** A text of one group of four digits followed by a tail that decodes. */
  lemma DecodeHeadGroup(s: string, b: seq<byte>)
    requires |b| >= 3 && |s| >= 4
    requires DecodeChar(s[0]) == Some(b[0] / 4)
    requires DecodeChar(s[1]) == Some((b[0] % 4) * 16 + b[1] / 16)
    requires DecodeChar(s[2]) == Some((b[1] % 16) * 4 + b[2] / 64)
    requires DecodeChar(s[3]) == Some(b[2] % 64)
    requires DecodeText(s[4..]) == Ok(b[3..])
    ensures DecodeText(s) == Ok(b)
  {
    var c0, c1, c2, c3 := b[0] / 4, (b[0] % 4) * 16 + b[1] / 16, (b[1] % 16) * 4 + b[2] / 64, b[2] % 64;
    DecodeGroup(s, c0, c1, c2, c3);
    GroupRoundTrip(b[0], b[1], b[2]);
    assert [Byte0(c0, c1), Byte1(c1, c2), Byte2(c2, c3)] == [b[0], b[1], b[2]];
    assert b == [b[0], b[1], b[2]] + b[3..];
  }

  /** Base64 decoding undoes Base64 encoding. */
  lemma {:induction false} DecodeEncodeBytes(b: seq<byte>)
    decreases |b|
    ensures DecodeText(EncodeBytes(b)) == Ok(b)
  {
    if |b| == 0 {
    } else if |b| == 1 {
      DecodeEncodeOne(b[0]);
      assert b == [b[0]];
    } else if |b| == 2 {
      DecodeEncodeTwo(b[0], b[1]);
      assert b == [b[0], b[1]];
    } else {
      DecodeEncodeBytes(b[3..]);
      EncodeHead(b);
      DecodeHeadGroup(EncodeBytes(b), b);
    }
  }

  /** Encoding 3k+j bytes gives 4 * ceil(n / 3) characters. */
  lemma {:induction false} EncodedLength(b: seq<byte>)
    decreases |b|
    ensures |EncodeBytes(b)| == 4 * ((|b| + 2) / 3)
  {
    if |b| >= 3 {
      EncodedLength(b[3..]);
      assert |b[3..]| == |b| - 3;
      assert (|b| + 2) / 3 == (|b| - 1) / 3 + 1;
    } else {
      assert (|b| + 2) / 3 == if |b| == 0 then 0 else 1;
    }
  }

  /** Every character is an alphabet character, except `=` padding in the last two
      positions: exactly one `=` after 2 leftover bytes, two after 1. */
  lemma EncodedAlphabet(b: seq<byte>)
    ensures var r := EncodeBytes(b);
      forall i :: 0 <= i < |r| ==> InAlphabet(r[i]) || (r[i] == '=' && i >= |r| - 2)
    ensures var r := EncodeBytes(b);
      |b| % 3 == 1 ==> r[|r| - 2..] == "=="
    ensures var r := EncodeBytes(b);
      |b| % 3 == 2 ==> r[|r| - 1] == '=' && InAlphabet(r[|r| - 2])
    ensures var r := EncodeBytes(b);
      |b| % 3 == 0 ==> forall i :: 0 <= i < |r| ==> InAlphabet(r[i])
  {
    EncodedDigits(b);
    EncodedPadding(b);
  }

  /** Alphabet characters throughout, `=` allowed only in the last two places. */
  predicate PaddedDigits(r: string) {
    forall i :: 0 <= i < |r| ==> InAlphabet(r[i]) || (r[i] == '=' && i >= |r| - 2)
  }

  predicate AlphabetOnly(r: string) {
    forall i :: 0 <= i < |r| ==> InAlphabet(r[i])
  }

  /** Four alphabet characters in front keep both properties. */
  lemma DigitsCons(r: string, t: string)
    requires |r| >= 4 && r[4..] == t && InAlphabet(r[0]) && InAlphabet(r[1]) && InAlphabet(r[2]) && InAlphabet(r[3])
    ensures PaddedDigits(t) ==> PaddedDigits(r)
    ensures AlphabetOnly(t) ==> AlphabetOnly(r)
  {
    assert forall i :: 4 <= i < |r| ==> r[i] == t[i - 4];
  }

  lemma {:induction false} EncodedDigits(b: seq<byte>)
    decreases |b|
    ensures PaddedDigits(EncodeBytes(b))
    ensures |b| % 3 == 0 ==> AlphabetOnly(EncodeBytes(b))
  {
    if |b| == 1 {
      DecodeEncodeChar(b[0] / 4);
      DecodeEncodeChar((b[0] % 4) * 16);
    } else if |b| == 2 {
      DecodeEncodeChar(b[0] / 4);
      DecodeEncodeChar((b[0] % 4) * 16 + b[1] / 16);
      DecodeEncodeChar((b[1] % 16) * 4);
    } else if |b| >= 3 {
      EncodeHead(b);
      EncodedDigits(b[3..]);
      DigitsCons(EncodeBytes(b), EncodeBytes(b[3..]));
      assert (|b| - 3) % 3 == |b| % 3;
    }
  }

  lemma {:induction false} EncodedPadding(b: seq<byte>)
    decreases |b|
    ensures var r := EncodeBytes(b);
      |b| % 3 == 1 ==> r[|r| - 2..] == "=="
    ensures var r := EncodeBytes(b);
      |b| % 3 == 2 ==> r[|r| - 1] == '=' && InAlphabet(r[|r| - 2])
  {
    if |b| == 2 {
      DecodeEncodeChar((b[1] % 16) * 4);
    } else if |b| >= 3 {
      var r := EncodeBytes(b);
      var t := EncodeBytes(b[3..]);
      EncodeHead(b);
      EncodedPadding(b[3..]);
      EncodedLength(b[3..]);
      assert (|b| - 3) % 3 == |b| % 3;
      if |b| % 3 != 0 {
        assert |t| >= 4;
        assert r[|r| - 2..] == t[|t| - 2..];
      }
    }
  }

  lemma {:induction false} AsciiBytesBelow128(s: string)
    requires AllAscii(s)
    ensures forall i :: 0 <= i < |s| ==> AsciiBytes(s)[i] == s[i] as int < 128
  {
    if s != [] {
      AsciiBytesBelow128(s[1..]);
    }
  }

  lemma {:induction false} BytesToAsciiRoundTrip(s: string)
    requires AllAscii(s)
    ensures BytesToAscii(AsciiBytes(s)) == Ok(s)
  {
    if s != [] {
      var b := AsciiBytes(s);
      BytesToAsciiRoundTrip(s[1..]);
      assert b[0] == s[0] as int < 128;
      assert b[1..] == AsciiBytes(s[1..]);
      assert s == [s[0]] + s[1..];
    }
  }

  lemma EncodedAscii(b: seq<byte>)
    ensures AllAscii(EncodeBytes(b))
  {
    var r := EncodeBytes(b);
    EncodedAlphabet(b);
    forall i | 0 <= i < |r| ensures IsAscii(r[i]) {
      if InAlphabet(r[i]) {
        AlphabetAscii(r[i]);
      } else {
        assert r[i] == '=';
      }
    }
  }

  lemma AlphabetAscii(c: char)
    requires InAlphabet(c)
    ensures IsAscii(c)
  {
  }

  /** decode_db(encode_db(s)) == s for every ASCII string. */
  lemma RoundTrip(s: string)
    requires AllAscii(s)
    ensures EncodeDb(s).Ok?
    ensures DecodeDb(EncodeDb(s).value) == Ok(s)
  {
    var b := AsciiBytes(s);
    EncodedAscii(b);
    DecodeEncodeBytes(b);
    BytesToAsciiRoundTrip(s);
  }

  /** The shape of encode_db's output. */
  lemma EncodeDbShape(s: string)
    requires AllAscii(s)
    ensures |EncodeDb(s).value| == 4 * ((|s| + 2) / 3)
    ensures forall i :: 0 <= i < |EncodeDb(s).value| ==>
              InAlphabet(EncodeDb(s).value[i]) || (EncodeDb(s).value[i] == '=' && i >= |EncodeDb(s).value| - 2)
  {
    EncodedLength(AsciiBytes(s));
    EncodedAlphabet(AsciiBytes(s));
  }
}
