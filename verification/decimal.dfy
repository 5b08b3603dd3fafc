/** Decimal text of integers, as Python's `str(int)` writes it, and its reader. */
module Decimal {
  import opened Results

  predicate IsDigit(c: char) {
    '0' <= c <= '9'
  }

  function DigitChar(d: int): (c: char)
    requires 0 <= d < 10
    ensures IsDigit(c)
  {
    ['0', '1', '2', '3', '4', '5', '6', '7', '8', '9'][d]
  }

  function DigitValue(c: char): (d: nat)
    requires IsDigit(c)
    ensures d < 10
  {
    (c as int - '0' as int) as nat
  }

  /** The decimal digits of `n`, most significant first, no leading zeros. */
  function NatText(n: nat): (s: string)
    ensures |s| > 0 && forall i :: 0 <= i < |s| ==> IsDigit(s[i])
    ensures |s| > 1 ==> s[0] != '0'
  {
    if n < 10 then [DigitChar(n)] else NatText(n / 10) + [DigitChar(n % 10)]
  }

  /** `str(i)`: a minus sign for negative numbers, then the digits. The text
      reads back as `i`. */
  function IntText(i: int): (s: string)
    ensures |s| > 0
    ensures forall k :: 0 <= k < |s| ==> IsDigit(s[k]) || (k == 0 && s[k] == '-')
    ensures s[0] == '-' <==> i < 0
    ensures s[0] == '0' ==> s == "0"
    ensures i < 0 ==> |s| > 1 && s[1] != '0'
    ensures ParseInt(s) == Some(i)
  {
    if i < 0 then
      var s := "-" + NatText(-i);
      NatTextRoundTrip(-i);
      assert s[0] == '-' && s[1..] == NatText(-i) && s[1..] != "0";
      s
    else
      NatTextRoundTrip(i);
      NatText(i)
  }

  predicate AllDigits(s: string) {
    |s| > 0 && forall i :: 0 <= i < |s| ==> IsDigit(s[i])
  }

  /** The value of a non-empty digit string. */
  function ParseNat(s: string): nat
    requires AllDigits(s)
  {
    if |s| == 1 then DigitValue(s[0])
    else ParseNat(s[..|s| - 1]) * 10 + DigitValue(s[|s| - 1])
  }

  /** Digits without a leading zero, unless the number is zero itself. */
  predicate Canonical(s: string) {
    AllDigits(s) && (|s| > 1 ==> s[0] != '0')
  }

  /** Reads a decimal integer in the form `str` writes it: an optional minus
      sign, then digits without leading zeros, and no `-0`; `None` otherwise. */
  function ParseInt(s: string): Option<int> {
    if |s| > 1 && s[0] == '-' && Canonical(s[1..]) && s[1..] != "0" then Some(-(ParseNat(s[1..]) as int))
    else if Canonical(s) then Some(ParseNat(s))
    else None
  }

  lemma DigitRoundTrip(d: int)
    requires 0 <= d < 10
    ensures DigitValue(DigitChar(d)) == d
  {
  }

  lemma {:induction false} NatTextRoundTrip(n: nat)
    ensures ParseNat(NatText(n)) == n
    decreases n
  {
    DigitRoundTrip(n % 10);
    if n >= 10 {
      NatTextRoundTrip(n / 10);
      var s := NatText(n);
      assert s[..|s| - 1] == NatText(n / 10);
    }
  }

  /** Reading back what `str` wrote gives the integer. */
  lemma IntTextRoundTrip(i: int)
    ensures ParseInt(IntText(i)) == Some(i)
  {
    var s := IntText(i);
    if i < 0 {
      NatTextRoundTrip(-i);
      assert s[0] == '-' && s[1..] == NatText(-i);
    } else {
      NatTextRoundTrip(i);
      assert s == NatText(i) && IsDigit(s[0]);
    }
  }

  lemma DigitCharOfValue(c: char)
    requires IsDigit(c)
    ensures DigitChar(DigitValue(c)) == c
  {
  }

  /** A number written without a leading zero is at least 1 unless it is `0`. */
  lemma {:induction false} CanonicalPositive(s: string)
    requires Canonical(s) && s != "0"
    ensures ParseNat(s) >= 1
    decreases |s|
  {
    if |s| > 1 {
      var p := s[..|s| - 1];
      assert p[0] == s[0];
      CanonicalPositive(p);
    }
  }

  /** A canonical digit string is the text of the number it denotes. */
  lemma {:induction false} ParseNatExact(s: string)
    requires Canonical(s)
    ensures NatText(ParseNat(s)) == s
    decreases |s|
  {
    if |s| == 1 {
      DigitCharOfValue(s[0]);
    } else {
      var p, c := s[..|s| - 1], s[|s| - 1];
      assert p[0] == s[0];
      CanonicalPositive(p);
      ParseNatExact(p);
      DigitCharOfValue(c);
      var n := ParseNat(s);
      assert n / 10 == ParseNat(p) && n % 10 == DigitValue(c);
      assert s == p + [c];
    }
  }

  /** The reader accepts only what `str` writes: a text that reads as `i` is
      exactly the text of `i`. */
  lemma ParseIntExact(s: string, i: int)
    requires ParseInt(s) == Some(i)
    ensures s == IntText(i)
  {
    if |s| > 1 && s[0] == '-' && Canonical(s[1..]) && s[1..] != "0" {
      CanonicalPositive(s[1..]);
      ParseNatExact(s[1..]);
      assert s == "-" + s[1..];
    } else {
      ParseNatExact(s);
    }
  }
}
