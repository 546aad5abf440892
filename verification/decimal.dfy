/**
 * Decimal digit strings: their value, their rendering, and Rust's `str::parse::<i64>`.
 */
module Decimal {
  import opened Chars
  import opened Wrappers

  const I64Min: int := -0x8000_0000_0000_0000
  const I64Max: int := 0x7FFF_FFFF_FFFF_FFFF

  function Pow10(k: nat): (p: nat)
    ensures p >= 1
  {
    if k == 0 then 1 else 10 * Pow10(k - 1)
  }

  function DigitValue(c: char): (d: nat)
    requires IsDigit(c)
    ensures d < 10
  {
    (c as int) - ('0' as int)
  }

  function DigitChar(d: nat): (c: char)
    requires d < 10
    ensures IsDigit(c) && DigitValue(c) == d
  {
    (('0' as int) + d) as char
  }

  /** The value of a run of decimal digits, most significant first; leading zeros are allowed. */
  function DigitsValue(s: string): (n: nat)
    requires AllDigits(s)
    ensures n < Pow10(|s|)
  {
    if s == [] then 0 else DigitsValue(s[..|s| - 1]) * 10 + DigitValue(s[|s| - 1])
  }

  /** Decimal rendering without leading zeros, as `to_string` writes an unsigned integer. */
  function ShowNat(n: nat): (s: string)
    ensures |s| >= 1 && AllDigits(s)
    ensures |s| > 1 ==> s[0] != '0'
  {
    if n < 10 then [DigitChar(n)] else ShowNat(n / 10) + [DigitChar(n % 10)]
  }

  /** Decimal rendering zero-padded to exactly `width` digits. */
  function PadNat(n: nat, width: nat): (s: string)
    requires n < Pow10(width)
    ensures |s| == width && AllDigits(s)
  {
    if width == 0 then [] else PadNat(n / 10, width - 1) + [DigitChar(n % 10)]
  }

  lemma {:induction false} ShowNatValue(n: nat)
    ensures DigitsValue(ShowNat(n)) == n
  {
    var s := ShowNat(n);
    if n >= 10 {
      ShowNatValue(n / 10);
      assert s[..|s| - 1] == ShowNat(n / 10);
    }
  }

  lemma {:induction false} PadNatValue(n: nat, width: nat)
    requires n < Pow10(width)
    ensures DigitsValue(PadNat(n, width)) == n
  {
    if width > 0 {
      var s := PadNat(n, width);
      PadNatValue(n / 10, width - 1);
      assert s[..|s| - 1] == PadNat(n / 10, width - 1);
    }
  }

  /**
   * Rust's `str::parse::<i64>`: an optional `+` or `-`, then at least one ASCII digit,
   * with a value inside the i64 range; anything else is an error (None).
   */
  function ParseI64(s: string): (r: Option<int>)
    ensures r.Some? ==> I64Min <= r.value <= I64Max
    ensures r.Some? ==> |s| > 0
  {
    if |s| > 0 && (s[0] == '+' || s[0] == '-') then
      var digits := s[1..];
      if digits == [] || !AllDigits(digits) then None
      else
        var v: int := if s[0] == '-' then 0 - DigitsValue(digits) else DigitsValue(digits);
        if I64Min <= v <= I64Max then Some(v) else None
    else if s == [] || !AllDigits(s) then None
    else if DigitsValue(s) <= I64Max then Some(DigitsValue(s))
    else None
  }

  /** A non-negative value written by `to_string` parses back to itself. */
  lemma ParseShowNat(n: nat)
    requires n <= I64Max
    ensures ParseI64(ShowNat(n)) == Some(n)
  {
    ShowNatValue(n);
  }

  /** A negative value written with a leading minus sign parses back to itself. */
  lemma ParseNegative(n: nat)
    requires 0 < n <= -I64Min
    ensures ParseI64("-" + ShowNat(n)) == Some(-(n as int))
  {
    ShowNatValue(n);
    assert ("-" + ShowNat(n))[1..] == ShowNat(n);
  }

  /** Text that is not a number is rejected: the empty string, a lone sign, a non-digit. */
  lemma ParseRejects(s: string)
    requires s == [] || s == "+" || s == "-" || (s[0] != '+' && s[0] != '-' && exists k :: 0 <= k < |s| && !IsDigit(s[k]))
    ensures ParseI64(s) == None
  {
  }
}
