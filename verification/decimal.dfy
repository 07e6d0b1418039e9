/** Go's `%d` verb on an `int` (used for the timeout error and the plain-text
    status line), together with the decimal reading that undoes it. */
module Decimal {
  import opened Wrappers

  predicate IsDigit(c: char) {
    '0' <= c <= '9'
  }

  predicate AllDigits(s: string) {
    forall i :: 0 <= i < |s| ==> IsDigit(s[i])
  }

  function DigitChar(d: nat): (c: char)
    requires d < 10
    ensures IsDigit(c)
  {
    ('0' as int + d) as char
  }

  function DigitValue(c: char): (d: nat)
    requires IsDigit(c)
    ensures d < 10 && DigitChar(d) == c
  {
    c as int - '0' as int
  }

  /** A run of decimal digits as `%d` writes one: non-empty and without
      leading zeros. */
  predicate Canonical(s: string) {
    s != [] && AllDigits(s) && (|s| > 1 ==> s[0] != '0')
  }

  /** The decimal digits of `n`, most significant first, without leading
      zeros. */
  function Digits(n: nat): (s: string)
    ensures Canonical(s)
    ensures s[0] == '0' <==> n == 0
  {
    if n < 10 then [DigitChar(n)] else Digits(n / 10) + [DigitChar(n % 10)]
  }

  /** `fmt.Sprintf("%d", n)`: a minus sign for negative numbers, then the
      digits of the magnitude. */
  function Format(n: int): (s: string)
    ensures s != []
    ensures n < 0 <==> s[0] == '-'
    ensures n >= 0 ==> Canonical(s)
    ensures n < 0 ==> Canonical(s[1..]) && s[1] != '0'
    ensures s[0] == '0' <==> n == 0
  {
    if n < 0 then
      var d := Digits(-n);
      assert ("-" + d)[1..] == d;
      "-" + d
    else Digits(n)
  }

  /** The value of a non-empty run of decimal digits. */
  function DigitsValue(s: string): nat
    requires s != [] && AllDigits(s)
  {
    if |s| == 1 then DigitValue(s[0])
    else DigitsValue(s[..|s| - 1]) * 10 + DigitValue(s[|s| - 1])
  }

  /** Reads an optionally signed decimal integer in the form `%d` writes:
      no leading zeros and no "-0"; `None` for anything else. */
  function Parse(s: string): Option<int> {
    var none: Option<int> := None;
    if s != [] && s[0] == '-' then
      if Canonical(s[1..]) && s[1] != '0' then
        var magnitude: int := DigitsValue(s[1..]);
        Some(-magnitude)
      else none
    else if Canonical(s) then Some(DigitsValue(s))
    else none
  }

  lemma {:induction false} DigitsRoundTrip(n: nat)
    ensures DigitsValue(Digits(n)) == n
  {
    if n >= 10 {
      var s := Digits(n);
      assert s[..|s| - 1] == Digits(n / 10);
      DigitsRoundTrip(n / 10);
    }
  }

  /** Reading back what `%d` printed gives the number printed. */
  lemma FormatRoundTrip(n: int)
    ensures Parse(Format(n)) == Some(n)
  {
    if n < 0 {
      var d := Digits(-n);
      assert Format(n) == "-" + d;
      assert ("-" + d)[1..] == d;
      DigitsRoundTrip(-n);
    } else {
      var d := Digits(n);
      assert IsDigit(d[0]);
      DigitsRoundTrip(n);
    }
  }

  /** A run of digits that does not start with '0' has a positive value. */
  lemma {:induction false} DigitsValuePositive(s: string)
    requires s != [] && AllDigits(s) && s[0] != '0'
    ensures DigitsValue(s) > 0
    decreases |s|
  {
    if |s| > 1 {
      var init := s[..|s| - 1];
      assert init[0] == s[0];
      DigitsValuePositive(init);
    }
  }

  /** A canonical run of digits is what `Digits` writes for its value. */
  lemma {:induction false} CanonicalDigits(s: string)
    requires Canonical(s)
    ensures Digits(DigitsValue(s)) == s
    decreases |s|
  {
    if |s| > 1 {
      var init := s[..|s| - 1];
      var last := s[|s| - 1];
      assert init[0] == s[0];
      assert AllDigits(init) by {
        assert forall i :: 0 <= i < |init| ==> init[i] == s[i];
      }
      DigitsValuePositive(init);
      CanonicalDigits(init);
      var n := DigitsValue(s);
      assert n == DigitsValue(init) * 10 + DigitValue(last);
      assert n / 10 == DigitsValue(init) && n % 10 == DigitValue(last);
      assert s == init + [last];
    }
  }

  /** The converse of `FormatRoundTrip`: the only text that reads as `n` is
      the text `%d` writes for `n`. */
  lemma ParseOnlyFormat(s: string, n: int)
    requires Parse(s) == Some(n)
    ensures s == Format(n)
  {
    if s != [] && s[0] == '-' {
      var d := s[1..];
      DigitsValuePositive(d);
      CanonicalDigits(d);
      assert s == "-" + d;
    } else {
      CanonicalDigits(s);
    }
  }

  /** Different numbers print differently. */
  lemma FormatInjective(a: int, b: int)
    requires Format(a) == Format(b)
    ensures a == b
  {
    FormatRoundTrip(a);
    FormatRoundTrip(b);
  }
}
