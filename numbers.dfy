/**
 * Decimal text of Java integers: Integer.toString / Long.toString and
 * Integer.parseInt / Long.parseLong, with the 32- and 64-bit ranges written out.
 */
module Numbers {
  import opened Wrappers
  import opened Chars

  const INT_MIN: int := -0x8000_0000
  const INT_MAX: int := 0x7FFF_FFFF
  const LONG_MIN: int := -0x8000_0000_0000_0000
  const LONG_MAX: int := 0x7FFF_FFFF_FFFF_FFFF

  predicate IsInt(x: int) { INT_MIN <= x <= INT_MAX }
  predicate IsLong(x: int) { LONG_MIN <= x <= LONG_MAX }

  predicate AllDigits(s: string) { forall i :: 0 <= i < |s| ==> IsAsciiDigit(s[i]) }

  function DigitChar(d: nat): (c: char)
    requires d < 10
    ensures IsAsciiDigit(c) && c as int - '0' as int == d
  {
    ('0' as int + d) as char
  }

  /** The value of a run of decimal digits, most significant first. */
  function DigitsValue(s: string): nat
    requires AllDigits(s)
  {
    if s == [] then 0 else DigitsValue(s[..|s| - 1]) * 10 + (s[|s| - 1] as int - '0' as int)
  }

  /** The shortest decimal digits of n: never empty, no leading zero unless n is 0. */
  function NatToString(n: nat): (s: string)
    ensures |s| >= 1 && AllDigits(s)
    ensures s[0] == '0' ==> n == 0
  {
    if n < 10 then [DigitChar(n)] else NatToString(n / 10) + [DigitChar(n % 10)]
  }

  /** Integer.toString and Long.toString: a minus sign for negatives, then the digits. */
  function IntToString(x: int): (s: string)
    ensures |s| >= 1
    ensures s[0] == '-' <==> x < 0
  {
    if x < 0 then "-" + NatToString(-x) else NatToString(x)
  }

  lemma {:induction false} DigitsValueOfNatToString(n: nat)
    ensures DigitsValue(NatToString(n)) == n
  {
    if n >= 10 {
      var s := NatToString(n);
      assert s[..|s| - 1] == NatToString(n / 10);
      DigitsValueOfNatToString(n / 10);
    }
  }

  /**
   * Integer.parseInt / Long.parseLong with bounds lo..hi: an optional '+' or
   * '-', then at least one decimal digit, and a value inside the bounds;
   * anything else raises NumberFormatException.
   */
  function ParseSigned(s: string, lo: int, hi: int): (r: Outcome<int>)
    ensures r.Ok? ==> lo <= r.value <= hi
    ensures r.Ok? ==> |s| >= 1 && (r.value < 0 ==> s[0] == '-')
    ensures s == [] || s == "-" || s == "+" ==> r == Thrown(NumberFormat)
  {
    if |s| == 0 then Thrown(NumberFormat)
    else
      var negative := s[0] == '-';
      var digits := if s[0] == '-' || s[0] == '+' then s[1..] else s;
      if |digits| == 0 || !AllDigits(digits) then Thrown(NumberFormat)
      else
        var magnitude: int := DigitsValue(digits);
        var v := if negative then -magnitude else magnitude;
        if lo <= v <= hi then Ok(v) else Thrown(NumberFormat)
  }

  function ParseInt(s: string): (r: Outcome<int>)
    ensures r.Ok? ==> IsInt(r.value)
  {
    ParseSigned(s, INT_MIN, INT_MAX)
  }

  function ParseLong(s: string): (r: Outcome<int>)
    ensures r.Ok? ==> IsLong(r.value)
  {
    ParseSigned(s, LONG_MIN, LONG_MAX)
  }

  /** The digits of a non-negative number parse back to it. */
  lemma ParseSignedOfNatToString(n: nat, lo: int, hi: int)
    requires lo <= n <= hi
    ensures ParseSigned(NatToString(n), lo, hi) == Ok(n)
  {
    var s := NatToString(n);
    assert IsAsciiDigit(s[0]);
    DigitsValueOfNatToString(n);
  }

  /** A minus sign and the digits of -x parse back to the negative x. */
  lemma ParseSignedOfNegative(x: int, lo: int, hi: int)
    requires lo <= x <= hi && x < 0
    ensures ParseSigned(IntToString(x), lo, hi) == Ok(x)
  {
    var d := NatToString(-x);
    var s := IntToString(x);
    assert s == "-" + d;
    assert s[1..] == d;
    DigitsValueOfNatToString(-x);
    assert DigitsValue(d) == -x;
  }

  /** Decimal text parses back to the number it was printed from. */
  lemma ParseSignedOfIntToString(x: int, lo: int, hi: int)
    requires lo <= x <= hi
    ensures ParseSigned(IntToString(x), lo, hi) == Ok(x)
  {
    if x < 0 {
      ParseSignedOfNegative(x, lo, hi);
    } else {
      ParseSignedOfNatToString(x, lo, hi);
    }
  }

  lemma ParseIntOfIntToString(x: int)
    requires IsInt(x)
    ensures ParseInt(IntToString(x)) == Ok(x)
  {
    ParseSignedOfIntToString(x, INT_MIN, INT_MAX);
  }

  lemma ParseLongOfIntToString(x: int)
    requires IsLong(x)
    ensures ParseLong(IntToString(x)) == Ok(x)
  {
    ParseSignedOfIntToString(x, LONG_MIN, LONG_MAX);
  }
}
