/** Java's decimal `int` conversions: `Integer.toString` and `Integer.parseInt`. */
module Decimal {
  import opened Base

  predicate IsDigit(c: char) {
    '0' <= c <= '9'
  }

  predicate AllDigits(s: string) {
    forall i :: 0 <= i < |s| ==> IsDigit(s[i])
  }

  function DigitChar(d: nat): (c: char)
    requires d < 10
    ensures IsDigit(c) && c as int - '0' as int == d
  {
    (d + '0' as int) as char
  }

  /** The value of a run of decimal digits, most significant first. */
  function DigitsValue(s: string): nat
    requires AllDigits(s)
    decreases |s|
  {
    if s == [] then 0 else DigitsValue(s[..|s| - 1]) * 10 + (s[|s| - 1] as int - '0' as int)
  }

  /** The decimal digits of `n`, without leading zeros. */
  function NatToString(n: nat): (r: string)
    ensures |r| >= 1 && AllDigits(r)
    decreases n
  {
    if n < 10 then [DigitChar(n)] else NatToString(n / 10) + [DigitChar(n % 10)]
  }

  /** `Integer.toString`: a minus sign for negative values, then the digits of the magnitude. */
  function IntToString(n: int): (r: string)
    ensures |r| >= 1 && (r[0] == '-' || IsDigit(r[0]))
    ensures forall i :: 1 <= i < |r| ==> IsDigit(r[i])
    ensures (r[0] == '-') <==> n < 0
  {
    if n < 0 then "-" + NatToString(-n) else NatToString(n)
  }

  /**
   * `Integer.parseInt(s)` in radix 10: an optional `-` or `+`, then at least one digit,
   * with the value inside the `int` range; anything else is a `NumberFormatException`,
   * modelled as `None`.
   */
  function ParseInt(s: string): (r: Option<Int32>)
    ensures r.Some? ==> s != [] && (s[0] == '-' || s[0] == '+' || IsDigit(s[0]))
    ensures r.Some? ==> |s| >= 1 && forall i :: 1 <= i < |s| ==> IsDigit(s[i])
    ensures r.Some? ==> IsDigit(s[|s| - 1])
    ensures r.Some? && s[0] == '-' ==> r.value <= 0
    ensures s != [] && AllDigits(s) && DigitsValue(s) <= MaxInt32 ==> r == Some(DigitsValue(s))
    ensures s != [] && AllDigits(s) && DigitsValue(s) > MaxInt32 ==> r.None?
    ensures |s| >= 2 && s[0] == '+' && AllDigits(s[1..]) ==>
              r == if DigitsValue(s[1..]) <= MaxInt32 then Some(DigitsValue(s[1..])) else None
    ensures |s| >= 2 && s[0] == '-' && AllDigits(s[1..]) ==>
              if DigitsValue(s[1..]) <= -MinInt32 then r.Some? && r.value + DigitsValue(s[1..]) == 0 else r.None?
  {
    if s == [] then None
    else
      var digits := if s[0] == '-' || s[0] == '+' then s[1..] else s;
      if digits == [] || !AllDigits(digits) then None
      else
        var magnitude: int := DigitsValue(digits);
        var v := if s[0] == '-' then -magnitude else magnitude;
        if MinInt32 <= v <= MaxInt32 then Some(v) else None
  }

  /** Reading back the digits of `n` gives `n`. */
  lemma {:induction false} NatToStringValue(n: nat)
    ensures DigitsValue(NatToString(n)) == n
    decreases n
  {
    if n >= 10 {
      var p := NatToString(n / 10);
      var s := p + [DigitChar(n % 10)];
      NatToStringValue(n / 10);
      assert s[..|s| - 1] == p;
      assert DigitsValue(s) == DigitsValue(p) * 10 + n % 10;
    }
  }

  /** `Integer.parseInt(Integer.toString(n)) == n` for every `int`. */
  lemma ParseIntToString(n: Int32)
    ensures ParseInt(IntToString(n)) == Some(n)
  {
    var m: int := n;
    if m < 0 {
      NatToStringValue(-m);
      assert IntToString(n)[1..] == NatToString(-m);
    } else {
      NatToStringValue(n);
    }
  }
}
