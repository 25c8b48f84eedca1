/**
 * Decimal strings of natural numbers, as `Number.prototype.toString` writes
 * them, and their reading back. The hour of a visitor is matched against a
 * target's hour labels through this string.
 */
module Decimal {

  predicate IsDigit(c: char)
  {
    '0' <= c <= '9'
  }

  function Digit(d: nat): (c: char)
    requires d < 10
  {
    (48 + d) as char
  }

  function DigitValue(c: char): nat
    requires IsDigit(c)
  {
    c as int - 48
  }

  predicate AllDigits(s: string)
  {
    forall i :: 0 <= i < |s| ==> IsDigit(s[i])
  }

  /** A non-empty digit string without a leading zero, except "0" itself. */
  predicate Canonical(s: string)
  {
    |s| >= 1 && AllDigits(s) && (s[0] == '0' ==> |s| == 1)
  }

  /** The decimal string of `n`, with no sign and no leading zero. */
  function DecimalString(n: nat): (s: string)
    ensures Canonical(s)
    ensures s[0] == '0' ==> n == 0
    ensures |s| == 1 <==> n < 10
    decreases n
  {
    if n < 10 then [Digit(n)] else DecimalString(n / 10) + [Digit(n % 10)]
  }

  /** The number a digit string denotes (the empty string denotes 0). */
  function ValueOf(s: string): nat
    requires AllDigits(s)
  {
    if s == [] then 0 else ValueOf(s[..|s| - 1]) * 10 + DigitValue(s[|s| - 1])
  }

  /** Reading back the decimal string of `n` gives `n`. */
  lemma {:induction false} ValueOfDecimalString(n: nat)
    ensures ValueOf(DecimalString(n)) == n
    decreases n
  {
    var s := DecimalString(n);
    if n < 10 {
      assert s[..0] == [];
    } else {
      var p := DecimalString(n / 10);
      assert s[..|s| - 1] == p;
      ValueOfDecimalString(n / 10);
    }
  }

  lemma {:induction false} ValueOfPositive(s: string)
    requires Canonical(s) && s[0] != '0'
    ensures ValueOf(s) >= 1
    decreases |s|
  {
    if |s| > 1 {
      var p := s[..|s| - 1];
      assert p[0] == s[0];
      ValueOfPositive(p);
    } else {
      assert s[..0] == [];
    }
  }

  /** Every canonical digit string is the decimal string of the number it denotes. */
  lemma {:induction false} DecimalStringOfValue(s: string)
    requires Canonical(s)
    ensures DecimalString(ValueOf(s)) == s
    decreases |s|
  {
    var d := DigitValue(s[|s| - 1]);
    assert Digit(d) == s[|s| - 1];
    if |s| == 1 {
      assert s[..0] == [];
      assert s == [s[0]];
    } else {
      var p := s[..|s| - 1];
      assert p[0] == s[0];
      ValueOfPositive(p);
      DecimalStringOfValue(p);
      var n := ValueOf(s);
      assert n == ValueOf(p) * 10 + d;
      assert n / 10 == ValueOf(p) && n % 10 == d;
      assert s == p + [s[|s| - 1]];
    }
  }

  /**
   * Matching the hour's decimal string against a list of labels is the same
   * as finding a canonical label that denotes that hour: "13" matches hour 13,
   * "013" and "1 3" never match anything.
   */
  lemma HourLabelMatch(h: nat, labels: seq<string>)
    ensures DecimalString(h) in labels <==>
            exists s :: s in labels && Canonical(s) && ValueOf(s) == h
  {
    if DecimalString(h) in labels {
      ValueOfDecimalString(h);
    }
    if s :| s in labels && Canonical(s) && ValueOf(s) == h {
      DecimalStringOfValue(s);
    }
  }
}
