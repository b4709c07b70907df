/** Java's `Long.parseLong(String)` for radix 10, which turns the configured
    expiration window into a number, and the decimal rendering it inverts. */
module JavaLong {
  import opened Wrappers

  const LONG_MIN: int := -0x8000_0000_0000_0000
  const LONG_MAX: int := 0x7fff_ffff_ffff_ffff

  predicate IsDigit(c: char) {
    '0' <= c <= '9'
  }

  predicate AllDigits(s: string) {
    forall k :: 0 <= k < |s| ==> IsDigit(s[k])
  }

  /** The value of a string of decimal digits, read most significant digit first. */
  function DigitsValue(s: string): nat
    requires AllDigits(s)
  {
    if s == [] then 0
    else DigitsValue(s[..|s| - 1]) * 10 + (s[|s| - 1] as int - '0' as int)
  }

  /** `s` without its leading sign character, if it has one. */
  function Unsigned(s: string): (r: string)
    ensures |r| <= |s| && r == s[|s| - |r|..]
  {
    if s != [] && (s[0] == '-' || s[0] == '+') then s[1..] else s
  }

  /** `Long.parseLong(s)`: an optional `-` or `+`, then at least one digit, and a
      value within the 64-bit range; anything else throws
      `NumberFormatException`, modelled as `None`. */
  function ParseLong(s: string): (r: Option<int>)
    ensures r.Some? ==> LONG_MIN <= r.value <= LONG_MAX
    ensures r.Some? ==> s != [] && (IsDigit(s[0]) || s[0] == '-' || s[0] == '+')
    ensures r.Some? <==>
      (Unsigned(s) != [] && AllDigits(Unsigned(s)) &&
       DigitsValue(Unsigned(s)) <= (if s[0] == '-' then -LONG_MIN else LONG_MAX))
    ensures r.Some? ==> (if s[0] == '-' then -r.value else r.value) == DigitsValue(Unsigned(s))
  {
    if s == [] then None
    else
      var signed := s[0] == '-' || s[0] == '+';
      var digits := if signed then s[1..] else s;
      if digits == [] || !AllDigits(digits) then None
      else
        var v: int := if s[0] == '-' then 0 - DigitsValue(digits) else DigitsValue(digits);
        if LONG_MIN <= v <= LONG_MAX then Some(v) else None
  }

  /** The decimal rendering of a natural number, without leading zeros. */
  function DecimalText(n: nat): (r: string)
    ensures r != [] && AllDigits(r)
  {
    if n < 10 then ['0' + n as char]
    else DecimalText(n / 10) + ['0' + (n % 10) as char]
  }

  lemma {:induction false} DigitsValueOfDecimal(n: nat)
    ensures DigitsValue(DecimalText(n)) == n
  {
    if n >= 10 {
      var t := DecimalText(n);
      assert t[..|t| - 1] == DecimalText(n / 10);
      DigitsValueOfDecimal(n / 10);
    }
  }

  /** Parsing inverts rendering for every non-negative long. */
  lemma ParseDecimal(n: nat)
    requires n <= LONG_MAX
    ensures ParseLong(DecimalText(n)) == Some(n)
  {
    DigitsValueOfDecimal(n);
  }

  /** A decimal text beyond `Long.MAX_VALUE` does not parse. */
  lemma ParseTooLarge(n: nat)
    requires n > LONG_MAX
    ensures ParseLong(DecimalText(n)) == None
  {
    DigitsValueOfDecimal(n);
  }

  /** Parsing inverts rendering with a leading minus down to `Long.MIN_VALUE`. */
  lemma ParseNegativeDecimal(n: nat)
    requires n <= -LONG_MIN
    ensures ParseLong("-" + DecimalText(n)) == Some(0 - n)
  {
    DigitsValueOfDecimal(n);
    assert ("-" + DecimalText(n))[1..] == DecimalText(n);
  }
}
