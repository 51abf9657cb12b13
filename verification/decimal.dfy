/**
 Decimal text of integers, as Python's `str(int)` / f-string `{n}` writes it,
 together with the parser that reads it back.
 */
module Decimal {
  import opened Wrappers

  predicate IsDigit(c: char) {
    '0' <= c <= '9'
  }

  predicate AllDigits(s: string) {
    forall i :: 0 <= i < |s| ==> IsDigit(s[i])
  }

  function DigitChar(d: nat): (c: char)
    requires d < 10
    ensures IsDigit(c) && c as int - '0' as int == d
  {
    (d + '0' as int) as char
  }

  function DigitValue(c: char): nat
    requires IsDigit(c)
  {
    c as int - '0' as int
  }

  /** Decimal digits of `n`, most significant first, no leading zeros. */
  function NatToString(n: nat): (s: string)
    ensures |s| >= 1 && AllDigits(s)
    ensures n >= 10 ==> s[0] != '0'
    decreases n
  {
    if n < 10 then [DigitChar(n)]
    else NatToString(n / 10) + [DigitChar(n % 10)]
  }

  /** The number a non-empty string of decimal digits denotes. */
  function DigitsValue(s: string): nat
    requires AllDigits(s)
    decreases |s|
  {
    if |s| == 0 then 0
    else DigitsValue(s[..|s| - 1]) * 10 + DigitValue(s[|s| - 1])
  }

  /** Python's `str(i)`: an optional minus sign, then the digits of `|i|`. */
  function IntToString(i: int): (s: string)
    ensures i < 0 ==> |s| >= 2 && s[0] == '-' && AllDigits(s[1..])
    ensures i >= 0 ==> |s| >= 1 && AllDigits(s)
    ensures |s| >= 2 && IsDigit(s[0]) ==> s[0] != '0'
    ensures i < 0 ==> s[1] != '0'
  {
    if i < 0 then "-" + NatToString(-i) else NatToString(i)
  }

  /** A non-empty digit string without a leading zero, or the single digit `0`. */
  predicate IsCanonicalDigits(d: string) {
    |d| > 0 && AllDigits(d) && (|d| == 1 || d[0] != '0')
  }

  /**
   Reads back exactly the texts `IntToString` writes: an optional minus
   sign before canonical digits, with `-0` refused; `None` for anything else.
   */
  function ParseInt(s: string): Option<int> {
    if |s| > 0 && s[0] == '-' then
      var d := s[1..];
      if IsCanonicalDigits(d) && d[0] != '0' then Some(-(DigitsValue(d) as int)) else None
    else if IsCanonicalDigits(s) then Some(DigitsValue(s) as int)
    else None
  }

  /** Canonical digits with a non-zero lead denote a positive number. */
  lemma {:induction false} DigitsPositive(d: string)
    requires |d| > 0 && AllDigits(d) && d[0] != '0'
    ensures DigitsValue(d) >= 1
    decreases |d|
  {
    if |d| > 1 {
      var front := d[..|d| - 1];
      assert front[0] == d[0];
      DigitsPositive(front);
    }
  }

  /** Writing the value of canonical digits gives those digits back. */
  lemma {:induction false} CanonicalDigitsRoundTrip(d: string)
    requires IsCanonicalDigits(d)
    ensures NatToString(DigitsValue(d)) == d
    decreases |d|
  {
    var n := DigitsValue(d);
    if |d| == 1 {
      assert d[..|d| - 1] == [];
      assert DigitsValue(d[..|d| - 1]) == 0;
      assert n == DigitValue(d[0]);
      assert DigitChar(n) == d[0];
    } else {
      var front := d[..|d| - 1];
      assert front[0] == d[0];
      CanonicalDigitsRoundTrip(front);
      DigitsPositive(front);
      assert n / 10 == DigitsValue(front) && n % 10 == DigitValue(d[|d| - 1]);
      assert d == front + [d[|d| - 1]];
    }
  }

  /** The only text that parses to an integer is the text `IntToString` writes for it. */
  lemma ParseIntCanonical(s: string, i: int)
    requires ParseInt(s) == Some(i)
    ensures s == IntToString(i)
  {
    if s[0] == '-' {
      var d := s[1..];
      CanonicalDigitsRoundTrip(d);
      DigitsPositive(d);
      assert s == "-" + d;
    } else {
      CanonicalDigitsRoundTrip(s);
    }
  }

  lemma {:induction false} NatToStringRoundTrip(n: nat)
    ensures DigitsValue(NatToString(n)) == n
    decreases n
  {
    if n >= 10 {
      var s := NatToString(n / 10) + [DigitChar(n % 10)];
      assert s[..|s| - 1] == NatToString(n / 10);
      NatToStringRoundTrip(n / 10);
    }
  }

  /** Writing an integer and reading it back gives the same integer. */
  lemma IntToStringRoundTrip(i: int)
    ensures ParseInt(IntToString(i)) == Some(i)
  {
    if i < 0 {
      var d := NatToString(-i);
      assert IntToString(i) == "-" + d;
      assert d[0] == IntToString(i)[1];
      ParseNegative(d);
      NatToStringRoundTrip(-i);
    } else {
      var d := NatToString(i);
      assert IntToString(i) == d;
      ParseNonNegative(d);
      NatToStringRoundTrip(i);
    }
  }

  /** A minus sign followed by digits reads as the negated digit value. */
  lemma ParseNegative(d: string)
    requires IsCanonicalDigits(d) && d[0] != '0'
    ensures ParseInt("-" + d) == Some(-(DigitsValue(d) as int))
  {
    assert ("-" + d)[1..] == d;
  }

  /** Digits alone read as their value. */
  lemma ParseNonNegative(d: string)
    requires IsCanonicalDigits(d)
    ensures ParseInt(d) == Some(DigitsValue(d) as int)
  {
    assert IsDigit(d[0]);
  }

  /** The text of an integer never holds the character `c` when `c` is neither a digit nor `-`. */
  lemma IntToStringAvoids(i: int, c: char)
    requires !IsDigit(c) && c != '-'
    ensures forall k :: 0 <= k < |IntToString(i)| ==> IntToString(i)[k] != c
  {
    var s := IntToString(i);
    if i < 0 {
      forall k | 0 <= k < |s| ensures s[k] != c {
        if k > 0 {
          assert s[k] == NatToString(-i)[k - 1];
        }
      }
    }
  }
}
