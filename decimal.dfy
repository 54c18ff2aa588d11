/**
 * Decimal text of unsigned and signed integers: what `std::to_string`
 * writes and what `std::from_chars` reads back. Lengths and counts are
 * `nat`, so the 64-bit range of `std::size_t` is not modelled here.
 */
module Decimal {

  predicate IsDigit(c: char) {
    '0' <= c <= '9'
  }

  predicate AllDigits(s: seq<char>) {
    forall i :: 0 <= i < |s| ==> IsDigit(s[i])
  }

  function DigitValue(c: char): (d: nat)
    requires IsDigit(c)
    ensures d < 10
  {
    c as int - '0' as int
  }

  function DigitChar(d: nat): (c: char)
    requires d < 10
    ensures IsDigit(c) && DigitValue(c) == d
  {
    ('0' as int + d) as char
  }

  /** The length of the longest run of decimal digits at the front of `s`:
      where `std::from_chars` stops reading. */
  function DigitRun(s: seq<char>): (k: nat)
    ensures k <= |s|
    ensures AllDigits(s[..k])
    ensures k < |s| ==> !IsDigit(s[k])
  {
    if |s| == 0 || !IsDigit(s[0]) then 0
    else
      var k := 1 + DigitRun(s[1..]);
      assert s[..k] == [s[0]] + s[1..][..k - 1];
      k
  }

  /** The number a run of decimal digits denotes (most significant first). */
  function Value(s: seq<char>): nat
    requires AllDigits(s)
  {
    if |s| == 0 then 0 else Value(s[..|s| - 1]) * 10 + DigitValue(s[|s| - 1])
  }

  /** `std::to_string` of an unsigned value: the canonical decimal form,
      non-empty, without leading zeros, denoting `n`. */
  function NatToString(n: nat): (s: seq<char>)
    ensures |s| > 0 && AllDigits(s)
    ensures Value(s) == n
    ensures s[0] == '0' ==> n == 0
    decreases n
  {
    if n < 10 then [DigitChar(n)]
    else
      var s := NatToString(n / 10) + [DigitChar(n % 10)];
      assert s[..|s| - 1] == NatToString(n / 10);
      s
  }

  /** The only text without a leading non-zero digit is "0" itself: no
      other run of zeros is ever written. */
  lemma {:induction false} NatToStringCanonical(n: nat)
    ensures NatToString(n)[0] == '0' <==> NatToString(n) == "0"
    ensures n == 0 <==> NatToString(n) == "0"
  {
    if n < 10 {
      assert NatToString(n) == [DigitChar(n)];
    } else {
      var s := NatToString(n);
      assert s[..|s| - 1] == NatToString(n / 10);
      NatToStringCanonical(n / 10);
    }
  }

  /** The digits of a signed decimal text: everything after a leading '-'. */
  function Magnitude(s: seq<char>): seq<char> {
    if |s| > 0 && s[0] == '-' then s[1..] else s
  }

  /** `std::to_string` of a `long long`: a '-' exactly for negative values,
      then the canonical digits of the magnitude. */
  function IntToString(n: int): (s: seq<char>)
    ensures |s| > 0
    ensures s[0] == '-' <==> n < 0
    ensures |Magnitude(s)| > 0 && AllDigits(Magnitude(s))
    ensures Value(Magnitude(s)) == if n < 0 then -n else n
    ensures Magnitude(s)[0] == '0' ==> Magnitude(s) == "0"
  {
    var m := if n < 0 then -n else n;
    var digits := NatToString(m);
    assert m == 0 ==> digits == "0";
    if n < 0 then ['-'] + digits else digits
  }

  /** A digit run followed by a non-digit (or nothing) is read up to its end. */
  lemma {:induction false} DigitRunOfDigitsThen(s: seq<char>, t: seq<char>)
    requires AllDigits(s)
    requires |t| == 0 || !IsDigit(t[0])
    ensures DigitRun(s + t) == |s|
  {
    if |s| > 0 {
      assert (s + t)[1..] == s[1..] + t;
      DigitRunOfDigitsThen(s[1..], t);
    } else {
      assert s + t == t;
    }
  }

  /** Reading back what `std::to_string` wrote yields the same number, and
      the text is exactly the digit run in front of any non-digit. */
  lemma {:induction false} DecimalRoundTrip(n: nat, t: seq<char>)
    requires |t| == 0 || !IsDigit(t[0])
    ensures DigitRun(NatToString(n) + t) == |NatToString(n)|
    ensures (NatToString(n) + t)[..|NatToString(n)|] == NatToString(n)
    ensures Value(NatToString(n)) == n
  {
    DigitRunOfDigitsThen(NatToString(n), t);
    assert (NatToString(n) + t)[..|NatToString(n)|] == NatToString(n);
  }
}
