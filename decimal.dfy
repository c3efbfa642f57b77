/** Decimal integer literals: an optional sign followed by ASCII digits.
    This is the reading of a string as an integer that both Python's
    `int(...)` and DuckDB's `TRY_CAST(... AS INTEGER)` are assumed to share. */
module Decimal {
  import opened Common

  predicate IsDigit(c: char) { '0' <= c <= '9' }

  /** Python's `str.isdigit()` restricted to ASCII: non-empty, digits only. */
  predicate IsDigits(s: string) {
    |s| > 0 && forall i :: 0 <= i < |s| ==> IsDigit(s[i])
  }

  function DigitValue(c: char): (v: nat)
    requires IsDigit(c)
    ensures v < 10
  {
    (c as int - '0' as int) as nat
  }

  /** Value of a digit string read in base 10 (most significant digit first). */
  function DigitsValue(s: string): (v: nat)
    requires forall i :: 0 <= i < |s| ==> IsDigit(s[i])
  {
    if |s| == 0 then 0 else DigitsValue(s[..|s| - 1]) * 10 + DigitValue(s[|s| - 1])
  }

  /** Leading zeros do not change the value. */
  lemma {:induction false} LeadingZero(s: string)
    requires forall i :: 0 <= i < |s| ==> IsDigit(s[i])
    ensures DigitsValue("0" + s) == DigitsValue(s)
  {
    if |s| > 0 {
      var t := "0" + s;
      assert t[..|t| - 1] == "0" + s[..|s| - 1];
      LeadingZero(s[..|s| - 1]);
    }
  }

  /** A string of n digits denotes a number below 10^n. */
  lemma {:induction false} DigitsValueBound(s: string)
    requires forall i :: 0 <= i < |s| ==> IsDigit(s[i])
    ensures DigitsValue(s) < Pow10(|s|)
  {
    if |s| > 0 { DigitsValueBound(s[..|s| - 1]); }
  }

  function Pow10(n: nat): (p: nat)
    ensures p >= 1
  {
    if n == 0 then 1 else 10 * Pow10(n - 1)
  }
  /** A longer digit count has a larger power of ten. */
  lemma {:induction false} Pow10Monotone(m: nat, n: nat)
    requires m <= n
    ensures Pow10(m) <= Pow10(n)
  {
    if m < n {
      Pow10Monotone(m, n - 1);
    }
  }

  lemma Pow10Nine()
    ensures Pow10(9) == 1_000_000_000
  {
    assert Pow10(3) == 1_000;
    assert Pow10(6) == 1_000_000;
  }


  /** An integer literal: an optional `+` or `-` followed by at least one
      digit. */
  predicate IsLiteral(s: string) {
    IsDigits(s) || (|s| > 0 && (s[0] == '+' || s[0] == '-') && IsDigits(s[1..]))
  }

  /** The value of an integer literal, `None` for any other text. */
  function ParseSigned(s: string): (r: Option<int>)
    ensures r.Some? <==> IsLiteral(s)
    ensures IsDigits(s) ==> r == Some(DigitsValue(s))
    ensures |s| > 0 && s[0] == '+' && IsDigits(s[1..]) ==> r == Some(DigitsValue(s[1..]))
    ensures |s| > 0 && s[0] == '-' && IsDigits(s[1..]) ==> r == Some(-(DigitsValue(s[1..]) as int))
  {
    if |s| > 0 && (s[0] == '+' || s[0] == '-') then
      if IsDigits(s[1..]) then
        var v: int := DigitsValue(s[1..]);
        Some(if s[0] == '-' then -v else v)
      else None
    else if IsDigits(s) then Some(DigitsValue(s))
    else None
  }

  function DigitChar(d: nat): (c: char)
    requires d < 10
    ensures IsDigit(c) && DigitValue(c) == d
  {
    ('0' as int + d) as char
  }

  /** The decimal digits of `n`, without leading zeros. */
  function Digits(n: nat): (s: string)
    ensures IsDigits(s)
  {
    if n < 10 then [DigitChar(n)] else Digits(n / 10) + [DigitChar(n % 10)]
  }

  /** Reading the digits of `n` gives back `n`. */
  lemma {:induction false} DigitsRoundTrip(n: nat)
    ensures DigitsValue(Digits(n)) == n
  {
    if n >= 10 {
      var s := Digits(n);
      assert s[..|s| - 1] == Digits(n / 10);
      DigitsRoundTrip(n / 10);
    } else {
      assert [DigitChar(n)][..0] == "";
    }
  }

  /** The text of an integer, with `-` for a negative one. */
  function Show(n: int): (s: string)
    ensures IsLiteral(s)
  {
    if n < 0 then "-" + Digits(-n) else Digits(n)
  }

  /** Parsing inverts `Show`: every integer is read back from its text. */
  lemma ParseShow(n: int)
    ensures ParseSigned(Show(n)) == Some(n)
  {
    if n < 0 {
      assert Show(n)[1..] == Digits(-n);
      DigitsRoundTrip(-n);
    } else {
      DigitsRoundTrip(n);
    }
  }
}
