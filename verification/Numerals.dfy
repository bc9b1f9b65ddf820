/** Unsigned numbers as digits, and reading them back. */
module Numerals {
  import opened Results

  function DigitOf(c: char): Option<nat> {
    if '0' <= c <= '9' then Some(c as int - '0' as int)
    else if 'a' <= c <= 'z' then Some(c as int - 'a' as int + 10)
    else if 'A' <= c <= 'Z' then Some(c as int - 'A' as int + 10)
    else None
  }

  /** One more digit; None for anything that is no digit of the radix. */
  function Extended(high: Option<nat>, last: char, radix: nat): Option<nat> {
    var low := DigitOf(last);
    if high.Some? && low.Some? && low.value < radix then Some(high.value * radix + low.value) else None
  }

  function Accumulated(digits: string, radix: nat): Option<nat> {
    if digits == "" then Some(0)
    else Extended(Accumulated(digits[..|digits| - 1], radix), digits[|digits| - 1], radix)
  }

  /** An unsigned from_str_radix: one `+` may lead, and the value must stay below the type's limit. */
  function ParseRadix(text: string, radix: nat, limit: nat): Option<nat> {
    var digits := if text != "" && text[0] == '+' then text[1..] else text;
    if digits == "" then None
    else
      match Accumulated(digits, radix)
      case Some(value) => if value < limit then Some(value) else None
      case None => None
  }

  /** The characters numbers are written with. */
  predicate IsDigitChar(c: char) {
    '0' <= c <= '9' || 'a' <= c <= 'f'
  }

  function DigitChar(digit: nat): (c: char)
    requires digit < 16
    ensures DigitOf(c) == Some(digit) && IsDigitChar(c)
  {
    if digit < 10 then ('0' as int + digit) as char else ('a' as int + digit - 10) as char
  }

  /** The digits of a number, without leading zeros. */
  function Digits(value: nat, radix: nat): (digits: string)
    requires 2 <= radix <= 16
    ensures digits != ""
    decreases value
  {
    if value < radix then [DigitChar(value)] else Digits(value / radix, radix) + [DigitChar(value % radix)]
  }

  lemma AccumulatedSnoc(text: string, front: string, last: char, radix: nat)
    requires text == front + [last]
    ensures Accumulated(text, radix) == Extended(Accumulated(front, radix), last, radix)
  {
  }

  lemma DivMod(value: nat, radix: nat)
    requires 2 <= radix <= value
    ensures value / radix < value && value % radix < radix
    ensures value / radix * radix + value % radix == value
  {
  }

  lemma DigitsStep(value: nat, radix: nat, high: nat, low: nat)
    requires 2 <= radix <= 16 && radix <= value && high == value / radix && low == value % radix
    ensures Digits(value, radix) == Digits(high, radix) + [DigitChar(low)]
  {
  }

  lemma {:induction false} DigitsReturn(value: nat, radix: nat)
    requires 2 <= radix <= 16
    ensures Accumulated(Digits(value, radix), radix) == Some(value)
    decreases value
  {
    if value < radix {
      OneDigit(value, radix);
    } else {
      var high, low := value / radix, value % radix;
      DivMod(value, radix);
      DigitsReturn(high, radix);
      DigitsStep(value, radix, high, low);
      AccumulatedSnoc(Digits(value, radix), Digits(high, radix), DigitChar(low), radix);
    }
  }

  lemma OneDigit(value: nat, radix: nat)
    requires value < radix <= 16 && 2 <= radix
    ensures Accumulated(Digits(value, radix), radix) == Some(value)
  {
  }

  lemma {:induction false} DigitsArePlain(value: nat, radix: nat)
    requires 2 <= radix <= 16
    ensures forall i :: 0 <= i < |Digits(value, radix)| ==>
      IsDigitChar(Digits(value, radix)[i])
    decreases value
  {
    if value >= radix {
      DigitsArePlain(value / radix, radix);
    }
  }

  function DecimalText(value: nat): string {
    Digits(value, 10)
  }

  lemma {:induction false} AccumulatedZeros(zeros: nat, digits: string, radix: nat)
    requires radix >= 2
    ensures Accumulated(Zeros(zeros) + digits, radix) == Accumulated(digits, radix)
    decreases |digits|
  {
    if digits == "" {
      assert Zeros(zeros) + digits == Zeros(zeros);
      ZerosAreNothing(zeros, radix);
    } else {
      var n := |digits| - 1;
      AccumulatedZeros(zeros, digits[..n], radix);
      AccumulatedSnoc(Zeros(zeros) + digits, Zeros(zeros) + digits[..n], digits[n], radix);
    }
  }

  function Zeros(count: nat): (zeros: string)
    ensures |zeros| == count && forall i :: 0 <= i < count ==> zeros[i] == '0'
  {
    if count == 0 then "" else Zeros(count - 1) + "0"
  }

  lemma {:induction false} ZerosAreNothing(count: nat, radix: nat)
    requires radix >= 2
    ensures Accumulated(Zeros(count), radix) == Some(0)
  {
    if count > 0 {
      ZerosAreNothing(count - 1, radix);
      assert Zeros(count)[..count - 1] == Zeros(count - 1);
    }
  }

  /** A number with leading zeros up to a width; longer numbers keep all their digits. */
  function Padded(value: nat, width: nat, radix: nat): string
    requires 2 <= radix <= 16
  {
    var digits := Digits(value, radix);
    Zeros(if |digits| < width then width - |digits| else 0) + digits
  }

  function Power(radix: nat, exponent: nat): nat {
    if exponent == 0 then 1 else radix * Power(radix, exponent - 1)
  }

  /** How many digits a number takes. */
  lemma {:induction false} DigitCount(value: nat, count: nat, radix: nat)
    requires count >= 1 && (radix == 10 || radix == 16)
    ensures value < Power(radix, count) <==> |Digits(value, radix)| <= count
    decreases value
  {
    if value < radix {
      PowerGrows(radix, count);
    } else if count == 1 {
      assert Power(radix, 1) == radix * Power(radix, 0);
    } else {
      DigitCount(value / radix, count - 1, radix);
      Quotient(value, Power(radix, count - 1), radix);
    }
  }

  lemma Quotient(value: nat, bound: nat, radix: nat)
    requires radix == 10 || radix == 16
    ensures value / radix < bound <==> value < radix * bound
  {
  }

  lemma {:induction false} PowerGrows(radix: nat, count: nat)
    requires radix == 10 || radix == 16
    ensures Power(radix, count) >= 1 && (count >= 1 ==> Power(radix, count) >= radix)
  {
    if count > 0 {
      PowerGrows(radix, count - 1);
    }
  }

  /** A padded number that fits its width fills it and stands for its value. */
  lemma PaddedValue(value: nat, width: nat, radix: nat)
    requires width >= 1 && (radix == 10 || radix == 16) && value < Power(radix, width)
    ensures |Padded(value, width, radix)| == width && Accumulated(Padded(value, width, radix), radix) == Some(value)
    ensures forall i :: 0 <= i < width ==> IsDigitChar(Padded(value, width, radix)[i])
  {
    var digits := Digits(value, radix);
    DigitCount(value, width, radix);
    var zeros := Zeros(width - |digits|);
    assert Padded(value, width, radix) == zeros + digits;
    DigitsReturn(value, radix);
    DigitsArePlain(value, radix);
    AccumulatedZeros(width - |digits|, digits, radix);
    PaddedChars(Padded(value, width, radix), Zeros(width - |digits|), digits);
  }

  lemma PaddedChars(text: string, zeros: string, digits: string)
    requires text == zeros + digits && forall i :: 0 <= i < |zeros| ==> zeros[i] == '0'
    requires forall i :: 0 <= i < |digits| ==> IsDigitChar(digits[i])
    ensures forall i :: 0 <= i < |text| ==> IsDigitChar(text[i])
  {
  }

  /** So it reads back. */
  lemma PaddedReturns(value: nat, width: nat, limit: nat)
    requires width >= 1 && value < Power(10, width) && value < limit
    ensures |Padded(value, width, 10)| == width && ParseRadix(Padded(value, width, 10), 10, limit) == Some(value)
  {
    PaddedValue(value, width, 10);
    NoSign(Padded(value, width, 10), limit);
  }

  lemma NoSign(text: string, limit: nat)
    requires text != "" && IsDigitChar(text[0])
    requires Accumulated(text, 10).Some? && Accumulated(text, 10).value < limit
    ensures ParseRadix(text, 10, limit) == Accumulated(text, 10)
  {
  }
}
