/** Decimal text for 32-bit integers: .NET's `Int32.ToString()` (invariant culture)
    and `int.Parse`, the pair that carries the account id through the token's
    "AccountId" claim. */
module Decimal {
  import opened Wrappers

  const Int32Min: int := -0x8000_0000
  const Int32Max: int := 0x7fff_ffff

  predicate IsInt32(i: int) {
    Int32Min <= i <= Int32Max
  }

  predicate IsDigit(c: char) {
    '0' <= c <= '9'
  }

  predicate AllDigits(s: string) {
    forall i :: 0 <= i < |s| ==> IsDigit(s[i])
  }

  function DigitChar(d: nat): (c: char)
    requires d < 10
    ensures IsDigit(c)
  {
    (48 + d) as char
  }

  function DigitValue(c: char): (d: nat)
    requires IsDigit(c)
    ensures d < 10
    ensures DigitChar(d) == c
  {
    c as int - 48
  }

  /** Shortest decimal numeral of `n`: only digits, and no leading zero unless `n` is 0. */
  function NatToString(n: nat): (s: string)
    ensures s != [] && AllDigits(s)
    ensures s[0] == '0' ==> n == 0
    decreases n
  {
    if n < 10 then [DigitChar(n)] else NatToString(n / 10) + [DigitChar(n % 10)]
  }

  /** `i.ToString()`: a minus sign for negative numbers, then the numeral. */
  function IntToString(i: int): (s: string)
  {
    if i < 0 then "-" + NatToString(-i) else NatToString(i)
  }

  /** Value of a numeral, most significant digit first. */
  function DigitsToNat(s: string): nat
    requires AllDigits(s)
  {
    if s == [] then 0 else DigitsToNat(s[..|s| - 1]) * 10 + DigitValue(s[|s| - 1])
  }

  /** `int.Parse(s)` with its default number style, leading and trailing white space aside:
      an optional sign, then one or more digits; `None` where .NET throws
      (`FormatException` for anything else, `OverflowException` outside 32 bits). */
  function ParseInt32(s: string): (r: Option<int>)
    ensures r.Some? ==> IsInt32(r.value)
  {
    var signed := |s| > 0 && (s[0] == '-' || s[0] == '+');
    var digits := if signed then s[1..] else s;
    if digits == [] || !AllDigits(digits) then None
    else
      var v: int := if signed && s[0] == '-' then -(DigitsToNat(digits) as int) else DigitsToNat(digits);
      if IsInt32(v) then Some(v) else None
  }

  lemma {:induction false} NatToStringValue(n: nat)
    ensures DigitsToNat(NatToString(n)) == n
    decreases n
  {
    if n >= 10 {
      var s := NatToString(n);
      assert s[..|s| - 1] == NatToString(n / 10);
      NatToStringValue(n / 10);
    }
  }

  /** Printing and then parsing a 32-bit integer gives it back, so the account id
      written into a token is the id read out of it. */
  lemma ParseIntToString(i: int)
    requires IsInt32(i)
    ensures ParseInt32(IntToString(i)) == Some(i)
  {
    var s := IntToString(i);
    if i < 0 {
      var ds := NatToString(-i);
      assert s == "-" + ds;
      assert s[1..] == ds;
      NatToStringValue(-i);
      assert -(DigitsToNat(ds) as int) == i;
    } else {
      var ds := NatToString(i);
      assert s == ds;
      assert IsDigit(s[0]);
      NatToStringValue(i);
    }
  }

  /** The text "0" that stands in for a missing claim parses as account id 0. */
  lemma ParseZero()
    ensures ParseInt32("0") == Some(0)
  {
  }
}
