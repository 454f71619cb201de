/**
 * Decimal numerals: `i64::to_string` and `str::parse::<i64>`, which the
 * builder's literals (core/src/builder.rs `decimal`, `decimal_float`) and
 * the renderer's superscripts (src/display.rs `int_super`) rely on.
 */
module Numerals {
  import opened Wrappers
  import opened Nodes

  predicate IsDigit(c: char)
  {
    '0' <= c <= '9'
  }

  /** One or more decimal digits. */
  predicate IsDigits(ds: string)
  {
    |ds| > 0 && forall i | 0 <= i < |ds| :: IsDigit(ds[i])
  }

  function DigitChar(d: nat): (c: char)
    requires d < 10
    ensures IsDigit(c) && (c as int) - ('0' as int) == d
  {
    (('0' as int) + d) as char
  }

  /** The number a digit string spells, most significant digit first. */
  function DigitsValue(ds: string): nat
    requires forall i | 0 <= i < |ds| :: IsDigit(ds[i])
    decreases |ds|
  {
    if ds == [] then 0
    else
      assert IsDigit(ds[|ds| - 1]);
      DigitsValue(ds[..|ds| - 1]) * 10 + ((ds[|ds| - 1] as int) - ('0' as int))
  }

  /** `n.to_string()` for a natural number: no leading zeros. */
  function ShowNat(n: nat): (ds: string)
    ensures IsDigits(ds)
    decreases n
  {
    if n < 10 then [DigitChar(n)] else ShowNat(n / 10) + [DigitChar(n % 10)]
  }

  /** `i.to_string()`: a minus sign before the digits of a negative number. */
  function ShowInt(i: int): (s: string)
    ensures |s| > 0 && forall k | 0 <= k < |s| :: s[k] == '-' || IsDigit(s[k])
  {
    if i < 0 then ['-'] + ShowNat(-i) else ShowNat(i)
  }

  /** `str::parse::<i64>`: an optional `+` or `-`, then one or more digits,
      and a value that fits in 64 bits; anything else is an error. */
  function ParseI64(s: string): (r: Option<I64>)
    ensures r.Some? ==> |s| > 0
  {
    var neg := |s| > 0 && s[0] == '-';
    var ds := if |s| > 0 && (s[0] == '+' || s[0] == '-') then s[1..] else s;
    if !IsDigits(ds) then None
    else
      var v := if neg then -(DigitsValue(ds) as int) else DigitsValue(ds) as int;
      if -0x8000_0000_0000_0000 <= v < 0x8000_0000_0000_0000 then Some(v as I64) else None
  }

  lemma {:induction false} ShowNatValue(n: nat)
    ensures DigitsValue(ShowNat(n)) == n
    decreases n
  {
    var ds := ShowNat(n);
    if n >= 10 {
      ShowNatValue(n / 10);
      assert ds[..|ds| - 1] == ShowNat(n / 10);
    }
  }

  /** Parsing what `to_string` printed gives the number back. */
  lemma ParseShow(i: I64)
    ensures ParseI64(ShowInt(i)) == Some(i)
  {
    var n: nat := if i < 0 then -(i as int) else i as int;
    ShowNatValue(n);
    if i < 0 {
      assert ShowInt(i) == ['-'] + ShowNat(n);
      assert ShowInt(i)[1..] == ShowNat(n);
    }
  }

  /** An unsigned run of digits parses to the number it spells, when that
      fits in 64 bits. */
  lemma ParseDigits(ds: string)
    requires IsDigits(ds) && DigitsValue(ds) < 0x8000_0000_0000_0000
    ensures ParseI64(ds) == Some(DigitsValue(ds) as I64)
  {
    assert IsDigit(ds[0]);
  }
}
