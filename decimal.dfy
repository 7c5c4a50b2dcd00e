/** Decimal text of integers, as Go's `%d` verb prints them and as JavaScript's
    number-to-string conversion prints non-negative integers below 2^53,
    together with the parser that reads it back. */
module Decimal {

  function DigitChar(d: nat): (c: char)
    requires d < 10
  {
    "0123456789"[d]
  }

  predicate IsDigit(c: char) {
    '0' <= c <= '9'
  }

  function DigitValue(c: char): nat {
    if IsDigit(c) then (c as int) - ('0' as int) else 0
  }

  /** Digits of `n` with no leading zero (`"0"` for zero). */
  function FormatNat(n: nat): (s: string)
    ensures |s| >= 1
    ensures forall i :: 0 <= i < |s| ==> IsDigit(s[i])
    ensures s[0] == '0' ==> n == 0
    decreases n
  {
    if n < 10 then [DigitChar(n)] else FormatNat(n / 10) + [DigitChar(n % 10)]
  }

  /** The shape of `%d` text: an optional minus sign, then one or more
      digits, with a leading zero only in `"0"` itself. */
  predicate IsDecimalText(s: string) {
    var digits := if |s| > 0 && s[0] == '-' then s[1..] else s;
    && |digits| >= 1
    && (forall i :: 0 <= i < |digits| ==> IsDigit(digits[i]))
    && (digits[0] == '0' ==> s == "0")
  }

  /** `%d`: a leading minus sign for negative numbers, then the digits. */
  function FormatInt(n: int): (s: string)
    ensures IsDecimalText(s)
  {
    if n < 0 then
      var digits := FormatNat(-n);
      assert ("-" + digits)[1..] == digits;
      "-" + digits
    else
      var digits := FormatNat(n);
      assert digits[0] == '0' ==> digits == "0" by {
        if digits[0] == '0' {
          assert n == 0;
        }
      }
      digits
  }

  /** Reads a string of decimal digits, most significant first. */
  function ParseNat(s: string): nat
    decreases |s|
  {
    if s == [] then 0 else 10 * ParseNat(s[..|s| - 1]) + DigitValue(s[|s| - 1])
  }

  function ParseInt(s: string): int {
    if |s| > 0 && s[0] == '-' then 0 - ParseNat(s[1..]) else ParseNat(s)
  }

  lemma {:induction false} ParseFormatNat(n: nat)
    ensures ParseNat(FormatNat(n)) == n
    decreases n
  {
    if n >= 10 {
      ParseFormatNat(n / 10);
      var s := FormatNat(n);
      assert s[..|s| - 1] == FormatNat(n / 10);
    }
  }

  /** Parsing the text back gives the number, and the text starts with a
      minus sign exactly when the number is negative. */
  lemma ParseFormatInt(n: int)
    ensures ParseInt(FormatInt(n)) == n
    ensures FormatInt(n)[0] == '-' <==> n < 0
  {
    if n < 0 {
      var digits := FormatNat(-n);
      ParseFormatNat(-n);
      ParseSigned(digits);
      assert FormatInt(n) == "-" + digits;
    } else {
      var digits := FormatNat(n);
      ParseFormatNat(n);
      ParseUnsigned(digits);
      assert FormatInt(n) == digits;
    }
  }

  lemma ParseSigned(digits: string)
    ensures ParseInt("-" + digits) == 0 - ParseNat(digits)
  {
    assert ("-" + digits)[1..] == digits;
  }

  lemma ParseUnsigned(digits: string)
    requires |digits| > 0 && IsDigit(digits[0])
    ensures ParseInt(digits) == ParseNat(digits)
  {
  }

  /** Distinct numbers have distinct texts. */
  lemma FormatNatInjective(m: nat, n: nat)
    requires m != n
    ensures FormatNat(m) != FormatNat(n)
  {
    ParseFormatNat(m);
    ParseFormatNat(n);
  }

  /** Text of the `%d` shape is the `%d` text of the number it parses to:
      no other spelling of a number (`"07"`, `"-0"`) has that shape. */
  lemma DecimalTextUnique(s: string)
    requires IsDecimalText(s)
    ensures FormatInt(ParseInt(s)) == s
  {
    if s[0] == '-' {
      var digits := s[1..];
      assert s == "-" + digits;
      FormatParseNat(digits);
      ParseSigned(digits);
      ParseLeadingNonzero(digits);
    } else {
      FormatParseNat(s);
      ParseUnsigned(s);
    }
  }

  /** Digits without a superfluous leading zero are the text of their value. */
  lemma {:induction false} FormatParseNat(d: string)
    requires |d| >= 1 && forall i :: 0 <= i < |d| ==> IsDigit(d[i])
    requires d[0] == '0' ==> |d| == 1
    ensures FormatNat(ParseNat(d)) == d
    decreases |d|
  {
    var last := d[|d| - 1];
    var v := DigitValue(last);
    assert DigitChar(v) == last by {
      DigitRoundTrip(last);
    }
    if |d| == 1 {
      assert ParseNat(d[..0]) == 0;
      assert ParseNat(d) == v;
      assert FormatNat(v) == [DigitChar(v)];
    } else {
      var p := d[..|d| - 1];
      FormatParseNat(p);
      ParseLeadingNonzero(p);
      var n := ParseNat(d);
      assert n == 10 * ParseNat(p) + v;
      assert n / 10 == ParseNat(p) && n % 10 == v;
      assert d == p + [last];
    }
  }

  lemma DigitRoundTrip(c: char)
    requires IsDigit(c)
    ensures DigitChar(DigitValue(c)) == c
  {
    if c == '0' {} else if c == '1' {} else if c == '2' {} else if c == '3' {}
    else if c == '4' {} else if c == '5' {} else if c == '6' {} else if c == '7' {}
    else if c == '8' {} else {}
  }

  /** Digits that do not start with `0` have a positive value. */
  lemma {:induction false} ParseLeadingNonzero(d: string)
    requires |d| >= 1 && forall i :: 0 <= i < |d| ==> IsDigit(d[i])
    requires d[0] != '0'
    ensures ParseNat(d) >= 1
    decreases |d|
  {
    var p := d[..|d| - 1];
    if |d| == 1 {
      assert ParseNat(p) == 0;
    } else {
      ParseLeadingNonzero(p);
    }
  }
}
