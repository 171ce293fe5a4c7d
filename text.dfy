/**
 * Decimal digit strings and suffix scanning: what Python's `str()` prints
 * for a non-negative integer, its inverse, and the helpers the `__str__`
 * parsers below rely on.
 */
module Text {

  function Pow10(k: nat): (r: nat)
    ensures r >= 1
  {
    if k == 0 then 1 else 10 * Pow10(k - 1)
  }

  /** The number of digits `str(n)` prints: 0 has one digit. */
  function NumDigits(n: nat): (d: nat)
    ensures d >= 1
  {
    if n < 10 then 1 else 1 + NumDigits(n / 10)
  }

  /** A number has at most k digits exactly when it is below 10^k. */
  lemma {:induction false} NumDigitsBound(n: nat, k: nat)
    requires k >= 1
    ensures NumDigits(n) <= k <==> n < Pow10(k)
  {
    if n >= 10 {
      if k == 1 {
        assert Pow10(1) == 10;
      } else {
        NumDigitsBound(n / 10, k - 1);
        assert Pow10(k) == 10 * Pow10(k - 1);
      }
    } else {
      PowAtLeastTen(k);
    }
  }

  lemma {:induction false} PowAtLeastTen(k: nat)
    requires k >= 1
    ensures Pow10(k) >= 10
  {
    if k > 1 {
      PowAtLeastTen(k - 1);
    }
  }

  predicate IsDigit(c: char) {
    '0' <= c <= '9'
  }

  predicate IsDigits(s: string) {
    forall i | 0 <= i < |s| :: IsDigit(s[i])
  }

  function DigitChar(d: nat): (c: char)
    requires d < 10
    ensures IsDigit(c) && (c as int) - ('0' as int) == d
  {
    (('0' as int) + d) as char
  }

  /** `str(n)` for a non-negative integer: no sign, no leading zero. */
  function DigitString(n: nat): (s: string)
    ensures |s| == NumDigits(n)
    ensures IsDigits(s)
  {
    if n < 10 then [DigitChar(n)] else DigitString(n / 10) + [DigitChar(n % 10)]
  }

  /** `int(s)` for a string of decimal digits. */
  function ParseDigits(s: string): nat
    requires IsDigits(s)
  {
    if s == [] then 0
    else 10 * ParseDigits(s[..|s| - 1]) + ((s[|s| - 1] as int) - ('0' as int))
  }

  lemma {:induction false} DigitStringRoundTrip(n: nat)
    ensures ParseDigits(DigitString(n)) == n
  {
    var s := DigitString(n);
    if n >= 10 {
      DigitStringRoundTrip(n / 10);
      assert s[..|s| - 1] == DigitString(n / 10);
    }
  }

  /** The longest suffix of s whose characters all satisfy p. */
  function TrailingRun(s: string, p: char -> bool): (r: string)
    ensures |r| <= |s| && r == s[|s| - |r|..]
    ensures forall i | 0 <= i < |r| :: p(r[i])
  {
    if s == [] || !p(s[|s| - 1]) then []
    else
      var r' := TrailingRun(s[..|s| - 1], p);
      assert r' == s[|s| - 1 - |r'|..|s| - 1];
      r' + [s[|s| - 1]]
  }

  /** When a character failing p stands right before m, and every character of m satisfies p, the run is m. */
  lemma {:induction false} TrailingRunAfterStop(x: string, stop: char, m: string, p: char -> bool)
    requires !p(stop)
    requires forall i | 0 <= i < |m| :: p(m[i])
    ensures TrailingRun(x + [stop] + m, p) == m
  {
    var s := x + [stop] + m;
    if m == [] {
      assert s[|s| - 1] == stop;
    } else {
      var m' := m[..|m| - 1];
      TrailingRunAfterStop(x, stop, m', p);
      assert s[..|s| - 1] == x + [stop] + m';
      assert m == m' + [m[|m| - 1]];
    }
  }

  predicate StartsWith(s: string, prefix: string) {
    |prefix| <= |s| && s[..|prefix|] == prefix
  }

  predicate EndsWith(s: string, suffix: string) {
    |suffix| <= |s| && s[|s| - |suffix|..] == suffix
  }
}
