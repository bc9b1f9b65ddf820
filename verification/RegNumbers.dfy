/** Integers as `reg query` and `reg add` write them (crates/fsw-core/src/settings_write.rs). */
module RegNumbers {
  import opened Results
  import opened Numerals
  import opened RegText
  import opened Widths

  /** parse_reg_number. */
  function ParseRegNumber(text: string): Option<nat> {
    var trimmed := Trim(text);
    if "0x" <= trimmed || "0X" <= trimmed then ParseRadix(trimmed[2..], 16, U64_LIMIT)
    else ParseRadix(trimmed, 10, U64_LIMIT)
  }

  function HexText(value: nat): string {
    "0x" + Digits(value, 16)
  }

  lemma TrimWord(text: string)
    requires IsTrimmed(text)
    ensures Trim(text) == text
  {
  }

  lemma PrefixApart(text: string)
    requires |text| >= 2 ==> text[1] != 'x' && text[1] != 'X'
    ensures !("0x" <= text) && !("0X" <= text)
  {
  }

  lemma HexReturns(value: nat)
    requires value < U64_LIMIT
    ensures ParseRegNumber(HexText(value)) == Some(value)
  {
    var hex := HexText(value);
    var digits := Digits(value, 16);
    DigitsReturn(value, 16);
    DigitsArePlain(value, 16);
    assert hex[|hex| - 1] == digits[|digits| - 1];
    TrimWord(hex);
    assert hex[2..] == digits;
  }

  lemma DecimalReturns(value: nat)
    requires value < U64_LIMIT
    ensures ParseRegNumber(DecimalText(value)) == Some(value)
  {
    DigitsReturn(value, 10);
    DigitsArePlain(value, 10);
    TrimWord(DecimalText(value));
    PrefixApart(DecimalText(value));
  }

  /** Both ways a number is written read back as that number. */
  lemma NumbersReturn(value: nat)
    requires value < U64_LIMIT
    ensures ParseRegNumber(HexText(value)) == Some(value)
    ensures ParseRegNumber(DecimalText(value)) == Some(value)
  {
    HexReturns(value);
    DecimalReturns(value);
  }

  lemma HexBehind(prefix: string, text: string)
    requires prefix == "0x" || prefix == "0X"
    ensures ("0x" <= prefix + text || "0X" <= prefix + text) && (prefix + text)[2..] == text
  {
  }

  lemma DigitsAreLimited(value: nat, radix: nat)
    requires radix == 10 || radix == 16
    ensures ParseRadix(Digits(value, radix), radix, U64_LIMIT)
         == if value < 0x1_0000_0000_0000_0000 then Some(value) else None
  {
    DigitsReturn(value, radix);
    DigitsArePlain(value, radix);
  }

  /** Exactly the numbers below 2^64 are read, with either prefix, and white space around them is ignored. */
  lemma NumbersAreLimited(value: nat, prefix: string, text: string)
    requires prefix == "0x" || prefix == "0X"
    requires Trim(text) == prefix + Digits(value, 16) || Trim(text) == Digits(value, 10)
    ensures ParseRegNumber(text) == if value < 0x1_0000_0000_0000_0000 then Some(value) else None
  {
    if Trim(text) == prefix + Digits(value, 16) {
      HexBehind(prefix, Digits(value, 16));
      DigitsAreLimited(value, 16);
    } else {
      DigitsArePlain(value, 10);
      PrefixApart(Digits(value, 10));
      DigitsAreLimited(value, 10);
    }
  }

  datatype SettingValue =
    | Dword(number: nat)
    | Qword(number: nat)
    | Sz(text: string)
  {
    /** The number fits the width of its type. */
    predicate InRange() {
      match this
      case Dword(number) => number < 0x1_0000_0000
      case Qword(number) => number < U64_LIMIT
      case Sz(_) => true
    }

    /** SettingValue::matches_raw. */
    predicate MatchesRaw(raw: RawSetting) {
      match this
      case Dword(number) => raw.kind == "REG_DWORD" && ParseRegNumber(raw.data) == Some(number)
      case Qword(number) => raw.kind == "REG_QWORD" && ParseRegNumber(raw.data) == Some(number)
      case Sz(text) => raw.kind == "REG_SZ" && raw.data == text
    }

    /** The value as `reg query` prints it once it is stored. */
    function Rendered(): RawSetting {
      match this
      case Dword(number) => RawSetting("REG_DWORD", HexText(number))
      case Qword(number) => RawSetting("REG_QWORD", HexText(number))
      case Sz(text) => RawSetting("REG_SZ", text)
    }
  }

  /** A stored value is recognised as itself and as nothing else. */
  lemma RenderedMatches(stored: SettingValue, wanted: SettingValue)
    requires stored.InRange() && wanted.InRange()
    ensures wanted.MatchesRaw(stored.Rendered()) <==> wanted == stored
  {
    if !stored.Sz? {
      NumbersReturn(stored.number);
    }
  }

  /** Only a text with a line feed prints on more than one line. */
  lemma RenderedLine(value: SettingValue)
    ensures '\n' in value.Rendered().data <==> value.Sz? && '\n' in value.text
    ensures value.Rendered().kind in REG_TYPES
  {
    assert value.Rendered().kind == REG_TYPES[0] || value.Rendered().kind == REG_TYPES[1]
        || value.Rendered().kind == REG_TYPES[2];
    if !value.Sz? {
      DigitsArePlain(value.number, 16);
    }
  }
}
