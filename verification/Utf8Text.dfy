/** UTF-8 (RFC 3629): the bytes of a string, and strict decoding. */
module Utf8Text {
  import opened Results
  import opened Widths

  function EncodeChar(c: char): (bytes: seq<u8>)
    ensures 1 <= |bytes| <= 4
    ensures (c as int) < 0x80 ==> bytes == [c as int]
    ensures (c as int) >= 0x80 ==> forall b :: b in bytes ==> b >= 0x80
  {
    var code := c as int;
    if code < 0x80 then [code]
    else if code < 0x800 then [0xC0 + code / 0x40, 0x80 + code % 0x40]
    else if code < 0x1_0000 then [0xE0 + code / 0x1000, 0x80 + code / 0x40 % 0x40, 0x80 + code % 0x40]
    else [0xF0 + code / 0x4_0000, 0x80 + code / 0x1000 % 0x40, 0x80 + code / 0x40 % 0x40, 0x80 + code % 0x40]
  }

  function Encode(text: string): seq<u8> {
    if text == "" then [] else EncodeChar(text[0]) + Encode(text[1..])
  }

  predicate IsContinuation(byte: u8) {
    0x80 <= byte < 0xC0
  }

  predicate IsScalar(code: int) {
    0 <= code < 0xD800 || 0xE000 <= code < 0x11_0000
  }

  /** The first character and its length; None for a malformed, overlong or surrogate sequence. */
  function DecodeFirst(bytes: seq<u8>): (first: Option<(char, nat)>)
    requires bytes != []
    ensures first.Some? ==> 0 < first.value.1 <= |bytes|
  {
    var b := bytes[0];
    if b < 0x80 then Some((b as char, 1))
    else if 0xC0 <= b < 0xE0 && |bytes| >= 2 && IsContinuation(bytes[1]) then
      var code := (b - 0xC0) as int * 0x40 + (bytes[1] - 0x80);
      if code >= 0x80 then Some((code as char, 2)) else None
    else if 0xE0 <= b < 0xF0 && |bytes| >= 3 && IsContinuation(bytes[1]) && IsContinuation(bytes[2]) then
      var code := (b as int - 0xE0) * 0x1000 + (bytes[1] as int - 0x80) * 0x40 + (bytes[2] - 0x80);
      if code >= 0x800 && IsScalar(code) then Some((code as char, 3)) else None
    else if 0xF0 <= b < 0xF8 && |bytes| >= 4
            && IsContinuation(bytes[1]) && IsContinuation(bytes[2]) && IsContinuation(bytes[3]) then
      var code := (b as int - 0xF0) * 0x4_0000 + (bytes[1] as int - 0x80) * 0x1000
                  + (bytes[2] as int - 0x80) * 0x40 + (bytes[3] - 0x80);
      if code >= 0x1_0000 && IsScalar(code) then Some((code as char, 4)) else None
    else None
  }

  /** String::from_utf8. */
  function Decode(bytes: seq<u8>): Option<string> {
    if bytes == [] then Some("")
    else
      match DecodeFirst(bytes)
      case None => None
      case Some((c, n)) =>
        match Decode(bytes[n..])
        case None => None
        case Some(rest) => Some([c] + rest)
  }

  lemma TwoDigits(code: int)
    requires 0 <= code < 0x1000
    ensures 0 <= code / 0x40 < 0x40 && 0 <= code % 0x40 < 0x40
    ensures code / 0x40 * 0x40 + code % 0x40 == code
  {
  }

  lemma Quotient(code: int)
    requires 0 <= code < 0x40_0000
    ensures code / 0x1000 == code / 0x40 / 0x40
  {
  }

  lemma ThreeDigits(code: int)
    requires 0 <= code < 0x4_0000
    ensures 0 <= code / 0x1000 < 0x40 && 0 <= code / 0x40 % 0x40 < 0x40 && 0 <= code % 0x40 < 0x40
    ensures code / 0x1000 * 0x1000 + code / 0x40 % 0x40 * 0x40 + code % 0x40 == code
  {
  }

  lemma FourDigits(code: int)
    requires 0 <= code < 0x20_0000
    ensures 0 <= code / 0x4_0000 < 8 && 0 <= code / 0x1000 % 0x40 < 0x40
    ensures 0 <= code / 0x40 % 0x40 < 0x40 && 0 <= code % 0x40 < 0x40
    ensures code / 0x4_0000 * 0x4_0000 + code / 0x1000 % 0x40 * 0x1000 + code / 0x40 % 0x40 * 0x40 + code % 0x40 == code
  {
    Quotient(code);
    var high := code / 0x1000;
    assert high / 0x40 * 0x40 + high % 0x40 == high;
    assert code / 0x4_0000 == high / 0x40;
    assert code / 0x40 == high * 0x40 + code / 0x40 % 0x40;
  }

  lemma DecodeFirstEncoded(c: char, rest: seq<u8>)
    ensures DecodeFirst(EncodeChar(c) + rest) == Some((c, |EncodeChar(c)|))
  {
    var code := c as int;
    var bytes := EncodeChar(c) + rest;
    if code < 0x80 {
      assert bytes[0] == code;
    } else if code < 0x800 {
      TwoDigits(code);
      DecodeTwo(c, bytes, code / 0x40, code % 0x40);
    } else if code < 0x1_0000 {
      ThreeDigits(code);
      DecodeThree(c, bytes, code / 0x1000, code / 0x40 % 0x40, code % 0x40);
    } else {
      FourDigits(code);
      DecodeFour(c, bytes, code / 0x4_0000, code / 0x1000 % 0x40, code / 0x40 % 0x40, code % 0x40);
    }
  }

  lemma DecodeTwo(c: char, bytes: seq<u8>, high: int, low: int)
    requires |bytes| >= 2 && 0 <= high < 0x20 && 0 <= low < 0x40 && bytes[..2] == [0xC0 + high, 0x80 + low]
    requires high * 0x40 + low == c as int && 0x80 <= c as int
    ensures DecodeFirst(bytes) == Some((c, 2))
  {
  }

  lemma DecodeThree(c: char, bytes: seq<u8>, high: int, middle: int, low: int)
    requires |bytes| >= 3 && 0 <= high < 0x10 && 0 <= middle < 0x40 && 0 <= low < 0x40
    requires bytes[..3] == [0xE0 + high, 0x80 + middle, 0x80 + low]
    requires high * 0x1000 + middle * 0x40 + low == c as int && 0x800 <= c as int
    ensures DecodeFirst(bytes) == Some((c, 3))
  {
  }

  lemma DecodeFour(c: char, bytes: seq<u8>, top: int, high: int, middle: int, low: int)
    requires |bytes| >= 4 && 0 <= top < 8 && 0 <= high < 0x40 && 0 <= middle < 0x40 && 0 <= low < 0x40
    requires bytes[..4] == [0xF0 + top, 0x80 + high, 0x80 + middle, 0x80 + low]
    requires top * 0x4_0000 + high * 0x1000 + middle * 0x40 + low == c as int && 0x1_0000 <= c as int
    ensures DecodeFirst(bytes) == Some((c, 4))
  {
  }

  lemma {:induction false} DecodeEncode(text: string)
    ensures Decode(Encode(text)) == Some(text)
  {
    if text != "" {
      DecodeEncode(text[1..]);
      var head := EncodeChar(text[0]);
      DecodeFirstEncoded(text[0], Encode(text[1..]));
      assert Encode(text)[|head|..] == Encode(text[1..]);
      assert [text[0]] + text[1..] == text;
    }
  }

  /** An ASCII byte in the encoding is that character in the text. */
  lemma {:induction false} AsciiBytes(text: string, c: char)
    requires (c as int) < 0x80 && c !in text
    ensures (c as int) !in Encode(text)
  {
    if text != "" {
      AsciiBytes(text[1..], c);
    }
  }
}
