/** Percent-encoding of paths in file URIs (section 2.1 of RFC 3986; crates/fsw-path/src/target.rs). */
module PercentCoding {
  import opened Results
  import opened Ascii
  import opened Widths
  import opened Utf8Text

  const HEX: string := "0123456789ABCDEF"

  /** The bytes a path keeps as they are. */
  predicate IsKept(byte: u8) {
    || 0x41 <= byte <= 0x5A || 0x61 <= byte <= 0x7A || 0x30 <= byte <= 0x39
    || byte == 0x2D || byte == 0x2E || byte == 0x5F || byte == 0x7E || byte == 0x2F || byte == 0x3A
  }

  function EncodeByte(byte: u8): (text: string)
    ensures |text| == if IsKept(byte) then 1 else 3
  {
    if IsKept(byte) then [byte as char] else ['%', HEX[byte / 16], HEX[byte % 16]]
  }

  function EncodeBytes(bytes: seq<u8>): string {
    if bytes == [] then "" else EncodeByte(bytes[0]) + EncodeBytes(bytes[1..])
  }

  /** hex_value. */
  function HexValue(c: char): Option<int> {
    if '0' <= c <= '9' then Some(c as int - '0' as int)
    else if 'a' <= c <= 'f' then Some(c as int - 'a' as int + 10)
    else if 'A' <= c <= 'F' then Some(c as int - 'A' as int + 10)
    else None
  }

  /** The byte after a `%`. */
  function HexPair(high: char, low: char): (byte: Option<u8>) {
    if HexValue(high).Some? && HexValue(low).Some?
    then Some(HexValue(high).value * 16 + HexValue(low).value)
    else None
  }

  /** The bytes a percent-encoded text stands for. */
  function DecodeText(text: string): Option<seq<u8>> {
    if text == "" then Some([])
    else if text[0] == '%' then
      if |text| < 3 || HexPair(text[1], text[2]).None? then None
      else
        match DecodeText(text[3..])
        case None => None
        case Some(rest) => Some([HexPair(text[1], text[2]).value] + rest)
    else
      match DecodeText(text[1..])
      case None => None
      case Some(rest) => Some(EncodeChar(text[0]) + rest)
  }

  /** Putting decoded bytes in front of what the rest decodes to. */
  function Prepended(front: seq<u8>, rest: Option<seq<u8>>): Option<seq<u8>> {
    match rest
    case None => None
    case Some(bytes) => Some(front + bytes)
  }

  lemma PrependedTwice(front: seq<u8>, middle: seq<u8>, rest: Option<seq<u8>>)
    ensures Prepended(front, Prepended(middle, rest)) == Prepended(front + middle, rest)
  {
    if rest.Some? {
      assert front + (middle + rest.value) == front + middle + rest.value;
    }
  }

  lemma DecodePlain(text: string, rest: string)
    requires text != "" && text[0] != '%' && rest == text[1..]
    ensures DecodeText(text) == Prepended(EncodeChar(text[0]), DecodeText(rest))
  {
  }

  lemma DecodeEscape(text: string, rest: string)
    requires |text| >= 3 && text[0] == '%' && HexPair(text[1], text[2]).Some? && rest == text[3..]
    ensures DecodeText(text) == Prepended([HexPair(text[1], text[2]).value], DecodeText(rest))
  {
  }

  /** percent_encode. */
  method PercentEncode(input: string) returns (encoded: string)
    ensures encoded == EncodeBytes(Encode(input))
  {
    encoded := "";
    var bytes := Encode(input);
    var i := 0;
    assert EncodeBytes(bytes[..0]) == "";
    while i < |bytes|
      invariant i <= |bytes|
      invariant encoded == EncodeBytes(bytes[..i])
    {
      var byte := bytes[i];
      EncodeSnoc(bytes[..i], byte);
      assert bytes[..i + 1] == bytes[..i] + [byte];
      if IsKept(byte) {
        encoded := encoded + [byte as char];
      } else {
        OneByOne(encoded, '%', HEX[byte / 16], HEX[byte % 16]);
        encoded := encoded + ['%'] + [HEX[byte / 16]] + [HEX[byte % 16]];
      }
      i := i + 1;
    }
    assert bytes[..i] == bytes;
  }

  lemma OneByOne(text: string, a: char, b: char, c: char)
    ensures text + [a] + [b] + [c] == text + [a, b, c]
  {
  }

  lemma Regroup(first: string, second: string, third: string)
    ensures first + (second + third) == first + second + third
  {
  }

  lemma {:induction false} EncodeSnoc(bytes: seq<u8>, last: u8)
    ensures EncodeBytes(bytes + [last]) == EncodeBytes(bytes) + EncodeByte(last)
  {
    if bytes == [] {
      assert EncodeBytes([]) == "";
    } else {
      EncodeSnoc(bytes[1..], last);
      assert (bytes + [last])[1..] == bytes[1..] + [last];
      Regroup(EncodeByte(bytes[0]), EncodeBytes(bytes[1..]), EncodeByte(last));
    }
  }

  /** What percent_decode gives: None stands for its one error. */
  function Decoded(text: string): Option<string> {
    match DecodeText(text)
    case None => None
    case Some(bytes) => Decode(bytes)
  }

  /** percent_decode. */
  method PercentDecode(input: string) returns (decoded: Option<string>)
    ensures decoded == Decoded(input)
  {
    var output: seq<u8> := [];
    var index := 0;
    assert input[0..] == input;
    assert Prepended([], DecodeText(input)) == DecodeText(input) by {
      if DecodeText(input).Some? {
        assert [] + DecodeText(input).value == DecodeText(input).value;
      }
    }
    while index < |input|
      invariant index <= |input|
      invariant DecodeText(input) == Prepended(output, DecodeText(input[index..]))
    {
      ghost var rest := input[index..];
      if input[index] == '%' {
        if index + 1 >= |input| || HexValue(input[index + 1]).None? {
          return None;
        }
        if index + 2 >= |input| || HexValue(input[index + 2]).None? {
          return None;
        }
        var byte := HexValue(input[index + 1]).value * 16 + HexValue(input[index + 2]).value;
        DecodeEscape(rest, input[index + 3..]);
        PrependedTwice(output, [byte], DecodeText(input[index + 3..]));
        output := output + [byte];
        index := index + 3;
      } else {
        DecodePlain(rest, input[index + 1..]);
        PrependedTwice(output, EncodeChar(input[index]), DecodeText(input[index + 1..]));
        output := output + EncodeChar(input[index]);
        index := index + 1;
      }
    }
    assert input[index..] == "";
    assert output + [] == output;
    return Decode(output);
  }

  lemma HexDigits(byte: u8)
    ensures HexPair(HEX[byte / 16], HEX[byte % 16]) == Some(byte)
    ensures HEX[byte / 16] != '%' && HEX[byte % 16] != '%'
  {
    HexDigit(byte / 16);
    HexDigit(byte % 16);
  }

  lemma HexDigit(value: nat)
    requires value < 16
    ensures HexValue(HEX[value]) == Some(value) && HEX[value] != '%'
  {
  }

  lemma DecodeEncodedByte(byte: u8, rest: string)
    ensures DecodeText(EncodeByte(byte) + rest) == Prepended([byte], DecodeText(rest))
  {
    var text := EncodeByte(byte) + rest;
    if IsKept(byte) {
      assert text[1..] == rest;
      DecodePlain(text, rest);
    } else {
      HexDigits(byte);
      assert text[3..] == rest;
      DecodeEscape(text, rest);
    }
  }

  /** Decoding inverts encoding for all bytes, whatever follows. */
  lemma {:induction false} DecodeEncodeBytes(bytes: seq<u8>, rest: string)
    ensures DecodeText(EncodeBytes(bytes) + rest) == Prepended(bytes, DecodeText(rest))
  {
    if bytes == [] {
      assert EncodeBytes(bytes) + rest == rest;
      if DecodeText(rest).Some? {
        assert bytes + DecodeText(rest).value == DecodeText(rest).value;
      }
    } else {
      var others := EncodeBytes(bytes[1..]) + rest;
      DecodeEncodeBytes(bytes[1..], rest);
      assert EncodeBytes(bytes) + rest == EncodeByte(bytes[0]) + others;
      DecodeEncodedByte(bytes[0], others);
      PrependedTwice([bytes[0]], bytes[1..], DecodeText(rest));
      assert [bytes[0]] + bytes[1..] == bytes;
    }
  }

  /** Decoding inverts encoding for every string. */
  lemma DecodeEncoded(text: string)
    ensures Decoded(EncodeBytes(Encode(text))) == Some(text)
  {
    DecodeEncodeBytes(Encode(text), "");
    assert EncodeBytes(Encode(text)) + "" == EncodeBytes(Encode(text));
    assert Encode(text) + [] == Encode(text);
    Utf8Text.DecodeEncode(text);
  }

  /** has_encoded_separator: `%2F` or `%5C`, in either case. */
  predicate HasEncodedSeparator(text: string) {
    exists i :: 0 <= i <= |text| - 3 && EncodedSeparatorAt(text, i)
  }

  predicate EncodedSeparatorAt(text: string, i: nat)
    requires i + 3 <= |text|
  {
    && text[i] == '%'
    && ((Upper(text[i + 1]) == '2' && Upper(text[i + 2]) == 'F') || (Upper(text[i + 1]) == '5' && Upper(text[i + 2]) == 'C'))
  }

  /** Encoded text without an encoded backslash holds no encoded separator: `/` is never encoded. */
  lemma {:induction false} NoEncodedSeparator(bytes: seq<u8>, i: nat)
    requires 0x5C !in bytes && i + 3 <= |EncodeBytes(bytes)|
    ensures !EncodedSeparatorAt(EncodeBytes(bytes), i)
  {
    var first := EncodeByte(bytes[0]);
    var text := EncodeBytes(bytes);
    var rest := EncodeBytes(bytes[1..]);
    assert text == first + rest;
    if i >= |first| {
      NoEncodedSeparator(bytes[1..], i - |first|);
      assert rest[i - |first|] == text[i] && rest[i - |first| + 1] == text[i + 1] && rest[i - |first| + 2] == text[i + 2];
    } else {
      HexDigits(bytes[0]);
      assert text[i] == first[i];
      if !IsKept(bytes[0]) && i == 0 {
        assert text[1] == HEX[bytes[0] / 16] && text[2] == HEX[bytes[0] % 16];
        EncodedByteIsNoSeparator(bytes[0]);
      }
    }
  }

  lemma EncodedByteIsNoSeparator(byte: u8)
    requires !IsKept(byte) && byte != 0x5C
    ensures !(HEX[byte / 16] == '2' && HEX[byte % 16] == 'F')
    ensures !(HEX[byte / 16] == '5' && HEX[byte % 16] == 'C')
    ensures Upper(HEX[byte / 16]) == HEX[byte / 16] && Upper(HEX[byte % 16]) == HEX[byte % 16]
  {
  }

  predicate IsUriChar(c: char) {
    IsAlphabetic(c) || '0' <= c <= '9' || c in "-._~/:%"
  }

  /** Encoding writes only unreserved characters, `/`, `:` and `%`. */
  lemma {:induction false} EncodedChars(bytes: seq<u8>)
    ensures forall i :: 0 <= i < |EncodeBytes(bytes)| ==> IsUriChar(EncodeBytes(bytes)[i])
    ensures 0x2F !in bytes ==> '/' !in EncodeBytes(bytes)
    ensures bytes != [] ==> EncodeBytes(bytes) != ""
  {
    if bytes != [] {
      EncodedChars(bytes[1..]);
      var value := bytes[0];
      if !IsKept(value) {
        HexDigitChar(value / 16);
        HexDigitChar(value % 16);
      }
    }
  }

  lemma HexDigitChar(value: nat)
    requires value < 16
    ensures IsUriChar(HEX[value]) && HEX[value] != '/'
  {
  }

  /** The characters written as they are: letters, digits and `-._~/:`. */
  lemma KeptIsUnreserved(byte: u8, c: char)
    requires c == byte as char
    ensures IsKept(byte) <==> 'A' <= c <= 'Z' || 'a' <= c <= 'z' || '0' <= c <= '9' || c in "-._~/:"
  {
  }

  /** The others as `%` and two upper-case digits of the byte. */
  lemma EncodedByteShape(byte: u8)
    ensures IsKept(byte) ==> EncodeByte(byte) == [byte as char]
    ensures !IsKept(byte) ==>
      var text := EncodeByte(byte);
      text[0] == '%' && HexPair(text[1], text[2]) == Some(byte) && IsUpperHex(text[1]) && IsUpperHex(text[2])
  {
    HexDigits(byte);
    UpperDigit(byte / 16);
    UpperDigit(byte % 16);
  }

  predicate IsUpperHex(c: char) {
    '0' <= c <= '9' || 'A' <= c <= 'F'
  }

  lemma UpperDigit(value: nat)
    requires value < 16
    ensures IsUpperHex(HEX[value])
  {
  }
}
