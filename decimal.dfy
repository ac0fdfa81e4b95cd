/**
 * Decimal text for integers: Rust's `to_string` on non-negative integers and
 * `str::parse::<i32>`, which accepts an optional sign followed by at least one
 * ASCII digit and nothing else, and rejects values outside the 32-bit range.
 */
module Decimal {
  import opened Wrappers

  const I32Min: int := -0x8000_0000
  const I32Max: int := 0x7FFF_FFFF

  predicate IsDigit(c: char) {
    '0' <= c <= '9'
  }

  predicate AllDigits(s: string) {
    forall i :: 0 <= i < |s| ==> IsDigit(s[i])
  }

  function DigitValue(c: char): nat
    requires IsDigit(c)
  {
    c as int - '0' as int
  }

  function DigitChar(d: nat): (c: char)
    requires d < 10
    ensures IsDigit(c) && DigitValue(c) == d
  {
    (d + '0' as int) as char
  }

  /** The number a string of digits denotes, most significant digit first. */
  function DigitsValue(s: string): nat
    requires AllDigits(s)
  {
    if s == [] then 0 else DigitsValue(s[..|s| - 1]) * 10 + DigitValue(s[|s| - 1])
  }

  /** `n.to_string()`: the shortest decimal text of `n`. */
  function NatToDecimal(n: nat): (s: string)
    ensures s != [] && AllDigits(s)
  {
    if n < 10 then [DigitChar(n)] else NatToDecimal(n / 10) + [DigitChar(n % 10)]
  }

  /** `v.to_string()` for a signed integer. */
  function IntToDecimal(v: int): string
  {
    if v < 0 then "-" + NatToDecimal(-v) else NatToDecimal(v)
  }

  lemma {:induction false} NatToDecimalValue(n: nat)
    ensures DigitsValue(NatToDecimal(n)) == n
  {
    var s := NatToDecimal(n);
    if n >= 10 {
      NatToDecimalValue(n / 10);
      assert s[..|s| - 1] == NatToDecimal(n / 10);
    }
  }

  /** An unsigned decimal number, as the kernel reads a rule's type tag. */
  function ParseNat(s: string): (r: Option<nat>)
    ensures r.Some? <==> s != [] && AllDigits(s)
  {
    if s != [] && AllDigits(s) then Some(DigitsValue(s)) else None
  }

  lemma NatRoundTrip(n: nat)
    ensures ParseNat(NatToDecimal(n)) == Some(n)
  {
    NatToDecimalValue(n);
  }

  predicate IsSign(c: char) {
    c == '-' || c == '+'
  }

  /** The text after an optional leading sign. */
  function Magnitude(s: string): (m: string)
    ensures |m| <= |s|
  {
    if s != [] && IsSign(s[0]) then s[1..] else s
  }

  /** The shape `parse::<i32>` accepts: an optional sign, then one or more ASCII digits and nothing else. */
  predicate IsI32Text(s: string) {
    Magnitude(s) != [] && AllDigits(Magnitude(s))
  }

  /** The integer such a text denotes, before any range check: its digits' value, negated after a minus sign. */
  function SignedValue(s: string): int
    requires IsI32Text(s)
  {
    var magnitude: int := DigitsValue(Magnitude(s));
    if s[0] == '-' then -magnitude else magnitude
  }

  /**
   * `str::parse::<i32>`: a text of the right shape is accepted exactly when
   * the value it denotes fits in 32 bits, and then yields that value; an
   * overflowing text is refused, never wrapped.
   */
  function ParseI32(s: string): (r: Option<int>)
    ensures r.Some? <==> IsI32Text(s) && I32Min <= SignedValue(s) <= I32Max
    ensures r.Some? ==> r.value == SignedValue(s)
    ensures r.Some? ==> I32Min <= r.value <= I32Max
    ensures r.Some? ==> |s| >= 1 && (IsDigit(s[0]) || (|s| >= 2 && IsSign(s[0])))
  {
    if s == [] then None
    else
      var digits := if s[0] == '-' || s[0] == '+' then s[1..] else s;
      if digits == [] || !AllDigits(digits) then None
      else
        var magnitude: int := DigitsValue(digits);
        var v: int := if s[0] == '-' then -magnitude else magnitude;
        if I32Min <= v <= I32Max then Some(v) else None
  }

  /** A leading plus sign and leading zeros are accepted, and the minimum is reachable. */
  lemma ParseI32Accepts()
    ensures ParseI32("+3") == Some(3)
    ensures ParseI32("007") == Some(7)
    ensures ParseI32("-2147483648") == Some(I32Min)
  {
    assert DigitsValue("3") == 3;
    assert DigitsValue("007") == 7 by {
      assert "007"[..2] == "00" && "00"[..1] == "0";
    }
    assert DigitsValue("2147483648") == 2147483648 by { TenDigits("2147483648"); }
  }

  /** A value one past either end of the range is refused, never wrapped. */
  lemma ParseI32RefusesOverflow()
    ensures ParseI32("2147483648") == None
    ensures ParseI32("-2147483649") == None
  {
    assert DigitsValue("2147483648") == 2147483648 by { TenDigits("2147483648"); }
    assert DigitsValue("2147483649") == 2147483649 by { TenDigits("2147483649"); }
  }

  /** Anything beside the sign and the digits, a lone sign, and the empty text are refused. */
  lemma ParseI32RefusesMalformed()
    ensures ParseI32("3x") == None
    ensures ParseI32(" 3") == None
    ensures ParseI32("-") == None
    ensures ParseI32("") == None
  {
    assert !AllDigits("3x") by { assert !IsDigit("3x"[1]); }
    assert !AllDigits(" 3") by { assert !IsDigit(" 3"[0]); }
  }

  /** One more digit: the value so far times ten, plus that digit. */
  lemma DigitsPrefix(s: string, k: nat)
    requires k < |s| && AllDigits(s)
    ensures AllDigits(s[..k]) && AllDigits(s[..k + 1])
    ensures DigitsValue(s[..k + 1]) == DigitsValue(s[..k]) * 10 + DigitValue(s[k])
  {
    assert s[..k + 1][..k] == s[..k];
  }

  /** The value of a ten-digit text, digit by digit. */
  lemma TenDigits(s: string)
    requires |s| == 10 && AllDigits(s)
    ensures DigitsValue(s) ==
      DigitValue(s[0]) * 1_000_000_000 + DigitValue(s[1]) * 100_000_000 + DigitValue(s[2]) * 10_000_000 +
      DigitValue(s[3]) * 1_000_000 + DigitValue(s[4]) * 100_000 + DigitValue(s[5]) * 10_000 +
      DigitValue(s[6]) * 1_000 + DigitValue(s[7]) * 100 + DigitValue(s[8]) * 10 + DigitValue(s[9])
  {
    assert s[..0] == [];
    DigitsPrefix(s, 0);
    DigitsPrefix(s, 1);
    DigitsPrefix(s, 2);
    DigitsPrefix(s, 3);
    DigitsPrefix(s, 4);
    DigitsPrefix(s, 5);
    DigitsPrefix(s, 6);
    DigitsPrefix(s, 7);
    DigitsPrefix(s, 8);
    DigitsPrefix(s, 9);
    assert s[..10] == s;
  }

  /** Every 32-bit integer survives formatting and parsing. */
  lemma {:induction false} ParseI32RoundTrip(v: int)
    requires I32Min <= v <= I32Max
    ensures ParseI32(IntToDecimal(v)) == Some(v)
  {
    var s := IntToDecimal(v);
    if v < 0 {
      NatToDecimalValue(-v);
      assert s[1..] == NatToDecimal(-v);
    } else {
      NatToDecimalValue(v);
    }
  }
}
