/** Decimal numerals. */
module Decimals {

  predicate IsDigit(c: char) {
    '0' <= c <= '9'
  }

  predicate AllDigits(s: string) {
    forall i | 0 <= i < |s| :: IsDigit(s[i])
  }

  function Digit(c: char): (r: nat)
    ensures r <= 9
  {
    if IsDigit(c) then c as int - '0' as int else 0
  }

  function DigitChar(d: nat): (c: char)
    requires d <= 9
    ensures IsDigit(c) && Digit(c) == d
  {
    ('0' as int + d) as char
  }

  /** The number a run of digits spells. */
  function FromDecimal(s: string): nat {
    if s == [] then 0 else 10 * FromDecimal(s[..|s| - 1]) + Digit(s[|s| - 1])
  }

  function ToDecimal(n: nat): (s: string)
    ensures s != [] && AllDigits(s)
  {
    if n < 10 then [DigitChar(n)] else ToDecimal(n / 10) + [DigitChar(n % 10)]
  }

  /** A numeral without leading zeros. */
  predicate IsCanonical(s: string) {
    s != [] && AllDigits(s) && (s[0] == '0' ==> s == "0")
  }

  /** Writing and reading a number gives it back, and numbers are written without leading zeros. */
  lemma {:induction false} DecimalRoundTrip(n: nat)
    ensures FromDecimal(ToDecimal(n)) == n
    ensures IsCanonical(ToDecimal(n)) && (n > 0 ==> ToDecimal(n)[0] != '0')
  {
    var s := ToDecimal(n);
    if n >= 10 {
      DecimalRoundTrip(n / 10);
      assert s[..|s| - 1] == ToDecimal(n / 10);
    } else {
      assert s[..0] == [];
    }
  }

  lemma {:induction false} PositiveDecimal(s: string)
    requires s != [] && AllDigits(s) && s[0] != '0'
    ensures FromDecimal(s) > 0
  {
    if |s| > 1 {
      PositiveDecimal(s[..|s| - 1]);
    } else {
      assert s[..0] == [];
    }
  }

  lemma DigitCharOf(c: char)
    requires IsDigit(c)
    ensures DigitChar(Digit(c)) == c
  {
  }

  /** Reading a numeral without leading zeros and writing it gives it back. */
  lemma {:induction false} CanonicalRoundTrip(s: string)
    requires IsCanonical(s)
    ensures ToDecimal(FromDecimal(s)) == s
  {
    var before, last := s[..|s| - 1], s[|s| - 1];
    DigitCharOf(last);
    assert s == before + [last];
    if |s| == 1 {
      assert before == [] && FromDecimal(s) == Digit(last);
    } else {
      assert IsCanonical(before);
      PositiveDecimal(before);
      CanonicalRoundTrip(before);
      assert FromDecimal(s) / 10 == FromDecimal(before) && FromDecimal(s) % 10 == Digit(last);
    }
  }
}
