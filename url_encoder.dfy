/** `java.net.URLEncoder.encode(s, UTF_8)`: the application/x-www-form-urlencoded
    serializer the signer applies to the URL, to every key and value, and to the
    joined parameter string. Characters `A-Z a-z 0-9 . - * _` are kept, a space
    becomes `+`, and every other character becomes the `%XX` escapes (upper-case
    hex) of its UTF-8 bytes. A surrogate pair is one character (four bytes); a
    lone surrogate cannot be written in UTF-8 and becomes the byte `?`. */
module UrlEncoder {
  import opened JavaText

  type Byte = b: int | 0 <= b < 0x100

  const SPACE: JChar := 0x20
  const PLUS: JChar := 0x2B
  const PERCENT: JChar := 0x25
  /** The byte the UTF-8 encoder writes in place of a lone surrogate (`?`). */
  const REPLACEMENT: Byte := 0x3F

  /** The characters `URLEncoder` leaves as they are. */
  predicate Unreserved(c: int) {
    (0x61 <= c <= 0x7A) || (0x41 <= c <= 0x5A) || (0x30 <= c <= 0x39)
    || c == 0x2E || c == 0x2D || c == 0x2A || c == 0x5F
  }

  /** The characters that can appear in an encoder output. */
  predicate FormChar(c: int) {
    Unreserved(c) || c == PLUS || c == PERCENT
  }

  /** An upper-case hexadecimal digit. */
  predicate IsHex(c: int) {
    (0x30 <= c <= 0x39) || (0x41 <= c <= 0x46)
  }

  function HexValue(c: int): (d: int)
    requires IsHex(c)
    ensures 0 <= d < 16
  {
    if c <= 0x39 then c - 0x30 else c - 0x41 + 10
  }

  /** The digit `Character.forDigit(d, 16)`, upper-cased. */
  function HexDigit(d: int): (c: JChar)
    requires 0 <= d < 16
    ensures Unreserved(c) && IsHex(c) && HexValue(c) == d
  {
    if d < 10 then 0x30 + d else 0x41 + (d - 10)
  }

  /** `%XX` for each byte, in order. */
  function Escape(bs: seq<Byte>): (r: JString)
    ensures |r| == 3 * |bs|
  {
    seq(3 * |bs|, i requires 0 <= i < 3 * |bs| =>
      var b := bs[i / 3];
      if i % 3 == 0 then PERCENT else if i % 3 == 1 then HexDigit(b / 16) else HexDigit(b % 16))
  }

  /** The UTF-8 bytes of code point `cp`. */
  function Utf8(cp: int): (bs: seq<Byte>)
    requires 0 <= cp < 0x110000
    ensures 1 <= |bs| <= 4
  {
    if cp < 0x80 then [cp]
    else if cp < 0x800 then [0xC0 + cp / 0x40, 0x80 + cp % 0x40]
    else if cp < 0x10000 then [0xE0 + cp / 0x40 / 0x40, 0x80 + cp / 0x40 % 0x40, 0x80 + cp % 0x40]
    else [0xF0 + cp / 0x40 / 0x40 / 0x40, 0x80 + cp / 0x40 / 0x40 % 0x40, 0x80 + cp / 0x40 % 0x40, 0x80 + cp % 0x40]
  }

  /** The code point a surrogate pair stands for. */
  function CodePoint(hi: int, lo: int): (cp: int)
    requires IsHighSurrogate(hi) && IsLowSurrogate(lo)
    ensures 0x10000 <= cp < 0x110000
  {
    0x10000 + (hi - 0xD800) * 0x400 + (lo - 0xDC00)
  }

  /** The UTF-16 code units of code point `cp`. */
  function Units(cp: int): (r: JString)
    requires 0 <= cp < 0x110000 && !IsSurrogate(cp)
    ensures WellFormed(r)
  {
    if cp < 0x10000 then [cp]
    else
      var hi, lo := 0xD800 + (cp - 0x10000) / 0x400, 0xDC00 + (cp - 0x10000) % 0x400;
      assert WellFormed([hi, lo][2..]);
      [hi, lo]
  }

  /** `URLEncoder.encode(s, UTF_8)`. Its output uses only unreserved
      characters, `+` and `%`: never `&`, `=` or `"`. */
  function Encode(s: JString): (r: JString)
    ensures forall i | 0 <= i < |r| :: FormChar(r[i])
    decreases |s|
  {
    if s == [] then []
    else if Unreserved(s[0]) then [s[0]] + Encode(s[1..])
    else if s[0] == SPACE then [PLUS] + Encode(s[1..])
    else if IsHighSurrogate(s[0]) && |s| >= 2 && IsLowSurrogate(s[1]) then
      Escape(Utf8(CodePoint(s[0], s[1]))) + Encode(s[2..])
    else if IsSurrogate(s[0]) then Escape([REPLACEMENT]) + Encode(s[1..])
    else Escape(Utf8(s[0])) + Encode(s[1..])
  }

  // ---------------------------------------------------------------------
  // The inverse: a strict decoder that accepts exactly the encoder outputs.

  /** The byte written as `%XX` at position `i` of `t`, if there is one. */
  function ByteAt(t: JString, i: nat): Option<Byte> {
    if i + 3 <= |t| && t[i] == PERCENT && IsHex(t[i + 1]) && IsHex(t[i + 2])
    then Some(16 * HexValue(t[i + 1]) + HexValue(t[i + 2]))
    else None
  }

  /** The payload bits of a UTF-8 continuation byte written at position `i`. */
  function ContinuationAt(t: JString, i: nat): (r: Option<int>)
    ensures r.Some? ==> 0 <= r.value < 0x40
  {
    match ByteAt(t, i)
    case Some(b) => if 0x80 <= b < 0xC0 then Some(b - 0x80) else None
    case None => None
  }

  /** Decodes the escaped UTF-8 sequence at the head of `t`: the code units of
      one character and the number of input units used. Overlong forms,
      surrogate code points and escapes of characters that are never escaped
      are refused. */
  function DecodeEscaped(t: JString): (r: Option<(JString, nat)>)
    ensures r.Some? ==> 3 <= r.value.1 <= |t|
  {
    match ByteAt(t, 0)
    case None => None
    case Some(b0) =>
      if b0 < 0x80 then
        if Unreserved(b0) || b0 == SPACE then None else Some(([b0], 3))
      else if 0xC0 <= b0 < 0xE0 then DecodeTwo(t, b0)
      else if 0xE0 <= b0 < 0xF0 then DecodeThree(t, b0)
      else if 0xF0 <= b0 < 0xF8 then DecodeFour(t, b0)
      else None
  }

  /** A two-byte sequence led by `b0`. */
  function DecodeTwo(t: JString, b0: int): (r: Option<(JString, nat)>)
    requires 0xC0 <= b0 < 0xE0
    ensures r.Some? ==> r.value.1 == 6 <= |t|
  {
    match ContinuationAt(t, 3)
    case Some(c1) =>
      var cp := (b0 - 0xC0) * 0x40 + c1;
      if cp < 0x80 then None else Some((Units(cp), 6))
    case None => None
  }

  /** A three-byte sequence led by `b0`. */
  function DecodeThree(t: JString, b0: int): (r: Option<(JString, nat)>)
    requires 0xE0 <= b0 < 0xF0
    ensures r.Some? ==> r.value.1 == 9 <= |t|
  {
    match (ContinuationAt(t, 3), ContinuationAt(t, 6))
    case (Some(c1), Some(c2)) =>
      var cp := (b0 - 0xE0) * 0x1000 + c1 * 0x40 + c2;
      if cp < 0x800 || IsSurrogate(cp) then None else Some((Units(cp), 9))
    case _ => None
  }

  /** A four-byte sequence led by `b0`: a character outside the BMP. */
  function DecodeFour(t: JString, b0: int): (r: Option<(JString, nat)>)
    requires 0xF0 <= b0 < 0xF8
    ensures r.Some? ==> r.value.1 == 12 <= |t|
  {
    match (ContinuationAt(t, 3), ContinuationAt(t, 6), ContinuationAt(t, 9))
    case (Some(c1), Some(c2), Some(c3)) =>
      var cp := (b0 - 0xF0) * 0x40000 + c1 * 0x1000 + c2 * 0x40 + c3;
      if cp < 0x10000 || cp >= 0x110000 then None else Some((Units(cp), 12))
    case _ => None
  }

  function Prepend(u: JString, r: Option<JString>): Option<JString> {
    match r
    case Some(s) => Some(u + s)
    case None => None
  }

  /** The string whose encoding is `t`, if `t` is an encoder output. */
  function Decode(t: JString): Option<JString>
    decreases |t|
  {
    if t == [] then Some([])
    else if Unreserved(t[0]) then Prepend([t[0]], Decode(t[1..]))
    else if t[0] == PLUS then Prepend([SPACE], Decode(t[1..]))
    else
      match DecodeEscaped(t)
      case Some((u, n)) => Prepend(u, Decode(t[n..]))
      case None => None
  }

  // ---------------------------------------------------------------------
  // Encoding then decoding, and decoding then encoding.

  lemma HexDigitOfValue(c: int)
    requires IsHex(c)
    ensures HexDigit(HexValue(c)) == c
  {
  }

  lemma ByteAtEscape(bs: seq<Byte>, rest: JString, k: nat)
    requires k < |bs|
    ensures ByteAt(Escape(bs) + rest, 3 * k) == Some(bs[k])
  {
    var t := Escape(bs) + rest;
    assert t[3 * k] == Escape(bs)[3 * k] == PERCENT;
    assert t[3 * k + 1] == Escape(bs)[3 * k + 1] == HexDigit(bs[k] / 16);
    assert t[3 * k + 2] == Escape(bs)[3 * k + 2] == HexDigit(bs[k] % 16);
  }

  /** A `%XX` that reads as byte `b` is exactly how the encoder writes `b`. */
  lemma ByteAtIsEscape(t: JString, i: nat, b: Byte)
    requires ByteAt(t, i) == Some(b)
    ensures t[i..i + 3] == Escape([b])
  {
    HexDigitOfValue(t[i + 1]);
    HexDigitOfValue(t[i + 2]);
    assert b / 16 == HexValue(t[i + 1]) && b % 16 == HexValue(t[i + 2]);
  }

  lemma DecodeEscapedOne(cp: int, rest: JString)
    requires 0 <= cp < 0x80 && !Unreserved(cp) && cp != SPACE
    ensures DecodeEscaped(Escape(Utf8(cp)) + rest) == Some((Units(cp), 3))
  {
    ByteAtEscape(Utf8(cp), rest, 0);
  }

  lemma DecodeEscapedTwo(cp: int, rest: JString)
    requires 0x80 <= cp < 0x800
    ensures DecodeEscaped(Escape(Utf8(cp)) + rest) == Some((Units(cp), 6))
  {
    var bs := Utf8(cp);
    var t := Escape(bs) + rest;
    ByteAtEscape(bs, rest, 0);
    ByteAtEscape(bs, rest, 1);
    assert ContinuationAt(t, 3) == Some(cp % 0x40);
    assert DecodeTwo(t, bs[0]) == Some((Units(cp), 6));
  }

  lemma DecodeEscapedThree(cp: int, rest: JString)
    requires 0x800 <= cp < 0x10000 && !IsSurrogate(cp)
    ensures DecodeEscaped(Escape(Utf8(cp)) + rest) == Some((Units(cp), 9))
  {
    var bs := Utf8(cp);
    var t := Escape(bs) + rest;
    ByteAtEscape(bs, rest, 0);
    ByteAtEscape(bs, rest, 1);
    ByteAtEscape(bs, rest, 2);
    assert ContinuationAt(t, 3) == Some(cp / 0x40 % 0x40);
    assert ContinuationAt(t, 6) == Some(cp % 0x40);
    assert DecodeThree(t, bs[0]) == Some((Units(cp), 9));
  }

  lemma DecodeEscapedFour(cp: int, rest: JString)
    requires 0x10000 <= cp < 0x110000
    ensures DecodeEscaped(Escape(Utf8(cp)) + rest) == Some((Units(cp), 12))
  {
    var bs := Utf8(cp);
    var t := Escape(bs) + rest;
    ByteAtEscape(bs, rest, 0);
    ByteAtEscape(bs, rest, 1);
    ByteAtEscape(bs, rest, 2);
    ByteAtEscape(bs, rest, 3);
    assert ContinuationAt(t, 3) == Some(cp / 0x40 / 0x40 % 0x40);
    assert ContinuationAt(t, 6) == Some(cp / 0x40 % 0x40);
    assert ContinuationAt(t, 9) == Some(cp % 0x40);
    assert DecodeFour(t, bs[0]) == Some((Units(cp), 12));
  }

  /** Decoding the escapes of one character's UTF-8 bytes gives back its code units. */
  lemma DecodeEscapedUtf8(cp: int, rest: JString)
    requires 0 <= cp < 0x110000 && !IsSurrogate(cp)
    requires cp < 0x80 ==> !Unreserved(cp) && cp != SPACE
    ensures DecodeEscaped(Escape(Utf8(cp)) + rest) == Some((Units(cp), 3 * |Utf8(cp)|))
  {
    if cp < 0x80 {
      DecodeEscapedOne(cp, rest);
    } else if cp < 0x800 {
      DecodeEscapedTwo(cp, rest);
    } else if cp < 0x10000 {
      DecodeEscapedThree(cp, rest);
    } else {
      DecodeEscapedFour(cp, rest);
    }
  }

  /** The surrogate pair of the code point of a surrogate pair is that pair. */
  lemma PairUnits(hi: int, lo: int)
    requires IsHighSurrogate(hi) && IsLowSurrogate(lo)
    ensures Units(CodePoint(hi, lo)) == [hi, lo]
  {
  }

  /** Well-formed strings survive encoding: decoding undoes `Encode`. */
  lemma {:induction false} DecodeEncode(s: JString)
    requires WellFormed(s)
    ensures Decode(Encode(s)) == Some(s)
    decreases |s|
  {
    if s != [] {
      var t := Encode(s);
      if Unreserved(s[0]) {
        DecodeEncode(s[1..]);
        assert t == [s[0]] + Encode(s[1..]);
        assert t[1..] == Encode(s[1..]);
        assert s == [s[0]] + s[1..];
      } else if s[0] == SPACE {
        DecodeEncode(s[1..]);
        assert t == [PLUS] + Encode(s[1..]);
        assert t[1..] == Encode(s[1..]);
        assert s == [SPACE] + s[1..];
      } else if IsHighSurrogate(s[0]) {
        var cp := CodePoint(s[0], s[1]);
        DecodeEscapedUtf8(cp, Encode(s[2..]));
        PairUnits(s[0], s[1]);
        DecodeEncode(s[2..]);
        assert t[12..] == Encode(s[2..]);
        assert s == [s[0], s[1]] + s[2..];
      } else {
        var n := 3 * |Utf8(s[0])|;
        DecodeEscapedUtf8(s[0], Encode(s[1..]));
        DecodeEncode(s[1..]);
        assert t[n..] == Encode(s[1..]);
        assert s == [s[0]] + s[1..];
      }
    }
  }

  /** A run of `%XX` escapes that reads as bytes `bs` is exactly `Escape(bs)`. */
  lemma EscapedPrefix(t: JString, bs: seq<Byte>)
    requires forall k | 0 <= k < |bs| :: ByteAt(t, 3 * k) == Some(bs[k])
    ensures 3 * |bs| <= |t| && t[..3 * |bs|] == Escape(bs)
  {
    if bs != [] {
      assert ByteAt(t, 3 * (|bs| - 1)).Some?;
    }
    forall i | 0 <= i < 3 * |bs|
      ensures t[i] == Escape(bs)[i]
    {
      var k := i / 3;
      assert ByteAt(t, 3 * k) == Some(bs[k]);
      ByteAtIsEscape(t, 3 * k, bs[k]);
      assert t[3 * k..3 * k + 3][i - 3 * k] == t[i];
    }
  }

  lemma EncodeDecodedTwo(t: JString, b0: int, rest: JString)
    requires ByteAt(t, 0) == Some(b0) && 0xC0 <= b0 < 0xE0 && DecodeTwo(t, b0).Some?
    ensures var (u, n) := DecodeTwo(t, b0).value;
      (WellFormed(rest) ==> WellFormed(u + rest)) && Encode(u + rest) == t[..n] + Encode(rest)
  {
    var (u, n) := DecodeTwo(t, b0).value;
    var c1 := ContinuationAt(t, 3).value;
    var cp := (b0 - 0xC0) * 0x40 + c1;
    var bs := [b0, 0x80 + c1];
    assert Utf8(cp) == bs;
    assert ByteAt(t, 3 * 1) == Some(bs[1]);
    EscapedPrefix(t, bs);
    assert (u + rest)[1..] == rest;
  }

  lemma EncodeDecodedThree(t: JString, b0: int, rest: JString)
    requires ByteAt(t, 0) == Some(b0) && 0xE0 <= b0 < 0xF0 && DecodeThree(t, b0).Some?
    ensures var (u, n) := DecodeThree(t, b0).value;
      (WellFormed(rest) ==> WellFormed(u + rest)) && Encode(u + rest) == t[..n] + Encode(rest)
  {
    var (u, n) := DecodeThree(t, b0).value;
    var c1, c2 := ContinuationAt(t, 3).value, ContinuationAt(t, 6).value;
    var cp := (b0 - 0xE0) * 0x1000 + c1 * 0x40 + c2;
    assert cp / 0x40 == (b0 - 0xE0) * 0x40 + c1;
    var bs := [b0, 0x80 + c1, 0x80 + c2];
    assert Utf8(cp) == bs;
    assert ByteAt(t, 3 * 1) == Some(bs[1]) && ByteAt(t, 3 * 2) == Some(bs[2]);
    EscapedPrefix(t, bs);
    assert (u + rest)[1..] == rest;
  }

  lemma Utf8OfFour(b0: int, c1: int, c2: int, c3: int)
    requires 0xF0 <= b0 < 0xF8 && 0 <= c1 < 0x40 && 0 <= c2 < 0x40 && 0 <= c3 < 0x40
    requires 0x10000 <= (b0 - 0xF0) * 0x40000 + c1 * 0x1000 + c2 * 0x40 + c3 < 0x110000
    ensures Utf8((b0 - 0xF0) * 0x40000 + c1 * 0x1000 + c2 * 0x40 + c3) == [b0, 0x80 + c1, 0x80 + c2, 0x80 + c3]
  {
    var cp := (b0 - 0xF0) * 0x40000 + c1 * 0x1000 + c2 * 0x40 + c3;
    assert cp / 0x40 == (b0 - 0xF0) * 0x1000 + c1 * 0x40 + c2;
    assert cp / 0x40 / 0x40 == (b0 - 0xF0) * 0x40 + c1;
  }

  /** The surrogate pair of a supplementary code point stands for that code point. */
  lemma CodePointOfUnits(cp: int)
    requires 0x10000 <= cp < 0x110000
    ensures |Units(cp)| == 2 && IsHighSurrogate(Units(cp)[0]) && IsLowSurrogate(Units(cp)[1])
    ensures CodePoint(Units(cp)[0], Units(cp)[1]) == cp
  {
  }

  lemma EncodeDecodedFour(t: JString, b0: int, rest: JString)
    requires ByteAt(t, 0) == Some(b0) && 0xF0 <= b0 < 0xF8 && DecodeFour(t, b0).Some?
    ensures var (u, n) := DecodeFour(t, b0).value;
      (WellFormed(rest) ==> WellFormed(u + rest)) && Encode(u + rest) == t[..n] + Encode(rest)
  {
    var (u, n) := DecodeFour(t, b0).value;
    var c1, c2, c3 := ContinuationAt(t, 3).value, ContinuationAt(t, 6).value, ContinuationAt(t, 9).value;
    var cp := (b0 - 0xF0) * 0x40000 + c1 * 0x1000 + c2 * 0x40 + c3;
    assert u == Units(cp);
    var bs := [b0, 0x80 + c1, 0x80 + c2, 0x80 + c3];
    Utf8OfFour(b0, c1, c2, c3);
    CodePointOfUnits(cp);
    assert ByteAt(t, 3 * 1) == Some(bs[1]) && ByteAt(t, 3 * 2) == Some(bs[2]) && ByteAt(t, 3 * 3) == Some(bs[3]);
    EscapedPrefix(t, bs);
    var s := u + rest;
    assert s[2..] == rest;
    assert Encode(s) == Escape(Utf8(CodePoint(s[0], s[1]))) + Encode(s[2..]);
  }

  /** What `DecodeEscaped` consumes is the encoder's rendering of what it produces. */
  lemma EncodeDecodedEscape(t: JString, rest: JString)
    requires DecodeEscaped(t).Some?
    ensures var (u, n) := DecodeEscaped(t).value;
      (WellFormed(rest) ==> WellFormed(u + rest)) && Encode(u + rest) == t[..n] + Encode(rest)
  {
    var b0 := ByteAt(t, 0).value;
    if b0 < 0x80 {
      ByteAtIsEscape(t, 0, b0);
      assert ([b0] + rest)[1..] == rest;
    } else if b0 < 0xE0 {
      EncodeDecodedTwo(t, b0, rest);
    } else if b0 < 0xF0 {
      EncodeDecodedThree(t, b0, rest);
    } else {
      EncodeDecodedFour(t, b0, rest);
    }
  }

  /** Whatever decodes was produced by the encoder, from a well-formed string. */
  lemma {:induction false} EncodeDecode(t: JString)
    requires Decode(t).Some?
    ensures WellFormed(Decode(t).value) && Encode(Decode(t).value) == t
    decreases |t|
  {
    if t != [] {
      if Unreserved(t[0]) || t[0] == PLUS {
        EncodeDecode(t[1..]);
        var s := Decode(t).value;
        assert s[1..] == Decode(t[1..]).value;
        assert t == [t[0]] + t[1..];
      } else {
        var (u, n) := DecodeEscaped(t).value;
        EncodeDecode(t[n..]);
        EncodeDecodedEscape(t, Decode(t[n..]).value);
        assert t == t[..n] + t[n..];
      }
    }
  }

  /** `Decode` is the exact inverse of `Encode` on well-formed strings: `t`
      decodes to `s` if and only if `s` is well formed and encodes to `t`. */
  lemma DecodeIffEncode(s: JString, t: JString)
    ensures Decode(t) == Some(s) <==> WellFormed(s) && Encode(s) == t
  {
    if WellFormed(s) && Encode(s) == t {
      DecodeEncode(s);
    }
    if Decode(t) == Some(s) {
      EncodeDecode(t);
    }
  }

  /** Different well-formed strings have different encodings. */
  lemma EncodeInjective(a: JString, b: JString)
    requires WellFormed(a) && WellFormed(b)
    requires Encode(a) == Encode(b)
    ensures a == b
  {
    DecodeEncode(a);
    DecodeEncode(b);
  }

  /** A lone surrogate and a question mark encode alike: on strings that are not
      well formed `Encode` loses information. */
  lemma LoneSurrogateEncodesAsQuestionMark()
    ensures Encode([0xD800]) == Encode(Lit("?")) == Lit("%3F")
  {
    assert Encode([0xD800]) == Escape([REPLACEMENT]) + Encode([]);
    assert Encode(Lit("?")) == Escape(Utf8(0x3F)) + Encode([]);
  }

  /** `Encode` leaves a string unchanged exactly when every character is unreserved. */
  lemma {:induction false} EncodeFixesExactlyUnreserved(s: JString)
    ensures Encode(s) == s <==> forall i | 0 <= i < |s| :: Unreserved(s[i])
    ensures |Encode(s)| >= |s|
    decreases |s|
  {
    if s != [] {
      var t := Encode(s);
      if Unreserved(s[0]) {
        EncodeFixesExactlyUnreserved(s[1..]);
        assert t == [s[0]] + Encode(s[1..]);
        assert s == [s[0]] + s[1..];
        assert (forall i | 0 <= i < |s| :: Unreserved(s[i])) <==> (forall i | 0 <= i < |s[1..]| :: Unreserved(s[1..][i]));
      } else if s[0] == SPACE {
        EncodeFixesExactlyUnreserved(s[1..]);
        assert t[0] == PLUS;
      } else if IsHighSurrogate(s[0]) && |s| >= 2 && IsLowSurrogate(s[1]) {
        EncodeFixesExactlyUnreserved(s[2..]);
        assert |t| == 12 + |Encode(s[2..])|;
      } else {
        EncodeFixesExactlyUnreserved(s[1..]);
        assert |t| >= 3 + |Encode(s[1..])|;
      }
    }
  }
}
