/**
 Decimal text for the numbers an invite shows: `ToString()` of a byte or a
 port, and `ushort.Parse` / `ushort.TryParse` with the default integer
 number style (surrounding white space and a leading sign allowed).
 */
module Decimal {
  import opened Prelude
  import opened Text

  function DigitChar(d: nat): (c: char)
    requires d < 10
    ensures IsAsciiDigit(c) && c as int - '0' as int == d
  {
    ('0' as int + d) as char
  }

  function DigitValue(c: char): nat
    requires IsAsciiDigit(c)
  {
    c as int - '0' as int
  }

  predicate AllDigits(s: string) {
    forall i | 0 <= i < |s| :: IsAsciiDigit(s[i])
  }

  /** The number a run of decimal digits denotes, most significant first. */
  function DigitsValue(s: string): nat
    requires AllDigits(s)
  {
    if |s| == 0 then 0 else 10 * DigitsValue(s[..|s| - 1]) + DigitValue(s[|s| - 1])
  }

  /** `ToString()` of a non-negative integer: its decimal digits with no leading zero. */
  function DecimalString(n: nat): (s: string)
    ensures |s| >= 1 && AllDigits(s)
    ensures s[0] == '0' ==> n == 0
    ensures n < 10 ==> |s| == 1
    ensures n < 100 ==> |s| <= 2
    ensures n < 1000 ==> |s| <= 3
    ensures n < 10000 ==> |s| <= 4
    ensures n < 100000 ==> |s| <= 5
  {
    if n < 10 then [DigitChar(n)] else DecimalString(n / 10) + [DigitChar(n % 10)]
  }

  /** Reading back the digits `ToString()` wrote gives the number. */
  lemma {:induction false} DigitsValueOfDecimalString(n: nat)
    ensures DigitsValue(DecimalString(n)) == n
  {
    if n >= 10 {
      var s := DecimalString(n);
      DigitsValueOfDecimalString(n / 10);
      assert s[..|s| - 1] == DecimalString(n / 10);
    }
  }

  /** Leading zeros do not change the value of a digit run. */
  lemma {:induction false} DigitsValueLeadingZero(s: string)
    requires AllDigits(s)
    ensures AllDigits("0" + s) && DigitsValue("0" + s) == DigitsValue(s)
  {
    if |s| > 0 {
      DigitsValueLeadingZero(s[..|s| - 1]);
      assert ("0" + s)[..|s|] == "0" + s[..|s| - 1];
    }
  }

  /** The white space `NumberStyles.AllowLeadingWhite` and `AllowTrailingWhite` accept. */
  predicate IsNumberWhite(c: char) {
    c == ' ' || '\t' <= c <= '\r'
  }

  function StripLeading(s: string): (r: string)
    ensures |r| <= |s| && r == s[|s| - |r|..]
    ensures |r| > 0 ==> !IsNumberWhite(r[0])
  {
    if |s| > 0 && IsNumberWhite(s[0]) then StripLeading(s[1..]) else s
  }

  function StripTrailing(s: string): (r: string)
    ensures |r| <= |s| && r == s[..|r|]
    ensures |r| > 0 ==> !IsNumberWhite(r[|r| - 1])
  {
    if |s| > 0 && IsNumberWhite(s[|s| - 1]) then StripTrailing(s[..|s| - 1]) else s
  }

  /** The sign and the digit text of a number, once the surrounding white space is stripped. */
  function SignAndDigits(s: string): (r: (bool, string)) {
    var t := StripTrailing(StripLeading(s));
    if |t| > 0 && (t[0] == '+' || t[0] == '-') then (t[0] == '-', t[1..]) else (false, t)
  }

  /**
   `ushort.Parse`: text that is not an optionally signed run of ASCII digits
   is a `FormatException`; a value above 65535, or a negative non-zero one,
   is an `OverflowException`. `ushort.TryParse` succeeds exactly when this
   returns a value.
   */
  function ParseUShort(s: string): (r: Result<Port>)
    ensures r.Ok? ==> AllDigits(SignAndDigits(s).1) && |SignAndDigits(s).1| > 0
    ensures r.Ok? ==> r.value == DigitsValue(SignAndDigits(s).1)
    ensures r.Err? ==> r.error == FormatException || r.error == OverflowException
  {
    var (negative, digits) := SignAndDigits(s);
    if |digits| == 0 || !AllDigits(digits) then Err(FormatException)
    else
      var v := DigitsValue(digits);
      if (negative && v != 0) || v > 0xFFFF then Err(OverflowException) else Ok(v)
  }

  lemma StripDigits(s: string)
    requires |s| > 0 && AllDigits(s)
    ensures SignAndDigits(s) == (false, s)
  {
    assert !IsNumberWhite(s[0]) && !IsNumberWhite(s[|s| - 1]);
  }

  /** A port's `ToString()` parses back to the port. */
  lemma ParseDecimalString(p: Port)
    ensures ParseUShort(DecimalString(p)) == Ok(p)
  {
    StripDigits(DecimalString(p));
    DigitsValueOfDecimalString(p);
  }

  /** Digits with a leading zero parse to the same value as without it. */
  lemma ParseLeadingZero(s: string)
    requires |s| > 0 && AllDigits(s)
    ensures ParseUShort("0" + s) == ParseUShort(s)
  {
    DigitsValueLeadingZero(s);
    StripDigits(s);
    StripDigits("0" + s);
  }

  /** A value with more than five digits and no leading zero is out of range. */
  lemma {:induction false} LongDigitsOverflow(s: string)
    requires AllDigits(s) && |s| >= 6 && s[0] != '0'
    ensures DigitsValue(s) > 0xFFFF
  {
    DigitsValueLowerBound(s);
    Pow10Monotone(5, |s| - 1);
    assert Pow10(5) == 100000;
  }

  lemma {:induction false} DigitsValueLowerBound(s: string)
    requires AllDigits(s) && |s| >= 1 && s[0] != '0'
    ensures DigitsValue(s) >= Pow10(|s| - 1)
  {
    if |s| > 1 {
      assert s[..|s| - 1][0] == s[0];
      DigitsValueLowerBound(s[..|s| - 1]);
    }
  }

  function Pow10(n: nat): (r: nat)
    ensures r >= 1
  {
    if n == 0 then 1 else 10 * Pow10(n - 1)
  }

  lemma {:induction false} Pow10Monotone(a: nat, b: nat)
    requires a <= b
    ensures Pow10(a) <= Pow10(b)
  {
    if a < b {
      Pow10Monotone(a, b - 1);
    }
  }
}
