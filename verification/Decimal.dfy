/** Decimal text of natural numbers, shared by the URL port, the version codec and the peer
    addresses. `Digits` is what std::to_string and the version printer produce; `Value` is what
    a digit loop accumulates. */
module Decimal {

  predicate IsDigit(c: char) {
    '0' <= c <= '9'
  }

  function DigitChar(d: nat): (c: char)
    requires d < 10
    ensures IsDigit(c)
  {
    '0' + d as char
  }

  function DigitValue(c: char): nat
    requires IsDigit(c)
  {
    c as int - '0' as int
  }

  function Digits(n: nat): (s: string)
    ensures |s| >= 1
  {
    if n < 10 then [DigitChar(n)] else Digits(n / 10) + [DigitChar(n % 10)]
  }

  ghost predicate AllDigits(s: string) {
    forall i :: 0 <= i < |s| ==> IsDigit(s[i])
  }

  function Value(s: string): nat
    requires AllDigits(s)
  {
    if s == "" then 0 else 10 * Value(s[..|s| - 1]) + DigitValue(s[|s| - 1])
  }

  /** Printing then reading gives the number back; the text is all digits and has no
      superfluous leading zero. */
  lemma {:induction false} DigitsRoundTrip(n: nat)
    ensures AllDigits(Digits(n)) && Value(Digits(n)) == n
    ensures Digits(n)[0] == '0' <==> n == 0
  {
    if n >= 10 {
      DigitsRoundTrip(n / 10);
      assert Digits(n)[..|Digits(n)| - 1] == Digits(n / 10);
    } else {
      assert Digits(n)[..0] == "";
    }
  }

  function Power10(k: nat): nat {
    if k == 0 then 1 else 10 * Power10(k - 1)
  }

  /** The number of digits is the position of n between two powers of ten. */
  lemma {:induction false} DigitCount(n: nat, k: nat)
    requires 1 <= k
    requires (k == 1 || Power10(k - 1) <= n) && n < Power10(k)
    ensures |Digits(n)| == k
  {
    if k > 1 {
      assert Power10(k) == 10 * Power10(k - 1);
      if k > 2 { assert Power10(k - 1) == 10 * Power10(k - 2); }
      else { assert Power10(1) == 10 * Power10(0); }
      DigitCount(n / 10, k - 1);
    } else {
      assert Power10(1) == 10 * Power10(0);
    }
  }

  /** How many digits a text starts with: how far a digit loop runs. */
  function DigitRun(s: string): (k: nat)
    ensures k <= |s| && AllDigits(s[..k])
    ensures k < |s| ==> !IsDigit(s[k])
  {
    if s != "" && IsDigit(s[0]) then
      assert s[..1 + DigitRun(s[1..])] == [s[0]] + s[1..][..DigitRun(s[1..])];
      1 + DigitRun(s[1..])
    else 0
  }

  lemma {:induction false} RunEnds(s: string, k: nat)
    requires k <= |s| && AllDigits(s[..k]) && (k < |s| ==> !IsDigit(s[k]))
    ensures DigitRun(s) == k
  {
    if k > 0 {
      assert s[..k][0] == s[0];
      assert s[1..][..k - 1] == s[..k][1..];
      RunEnds(s[1..], k - 1);
    }
  }

  /** std::to_string of an int. */
  function IntText(n: int): string {
    if n < 0 then "-" + Digits(-n) else Digits(n)
  }
}
