/** Decimal digit strings and the natural numbers they denote. */
module Digits {

  predicate IsDigit(c: char) {
    '0' <= c <= '9'
  }

  function DigitValue(c: char): (d: nat)
    requires IsDigit(c)
    ensures d < 10
  {
    c as int - '0' as int
  }

  function DigitChar(d: nat): (c: char)
    requires d < 10
    ensures IsDigit(c) && DigitValue(c) == d
  {
    (d + '0' as int) as char
  }

  predicate IsHex(c: char) {
    '0' <= c <= '9' || 'a' <= c <= 'f' || 'A' <= c <= 'F'
  }

  function HexValue(c: char): (d: nat)
    requires IsHex(c)
    ensures d < 16
  {
    if '0' <= c <= '9' then c as int - '0' as int
    else if 'a' <= c <= 'f' then c as int - 'a' as int + 10
    else c as int - 'A' as int + 10
  }

  predicate AllDigits(s: string) {
    forall i :: 0 <= i < |s| ==> IsDigit(s[i])
  }

  function Pow10(n: nat): (p: nat)
    ensures p >= 1
  {
    if n == 0 then 1 else 10 * Pow10(n - 1)
  }

  /** u moved up by z decimal places. */
  function Shift(u: nat, z: nat): (r: nat)
    ensures r == 0 <==> u == 0
  {
    if z == 0 then u else 10 * Shift(u, z - 1)
  }

  /** The number a digit string denotes; the empty string denotes 0. */
  function ValueOf(s: string): nat
    requires AllDigits(s)
  {
    if s == "" then 0 else ValueOf(s[..|s| - 1]) * 10 + DigitValue(s[|s| - 1])
  }

  /** The decimal digits of n without leading zeros, as BigInt.prototype.toString prints them. */
  function NatToString(n: nat): (s: string)
    ensures s != "" && AllDigits(s)
    ensures ValueOf(s) == n
    ensures s[0] == '0' ==> s == "0"
  {
    if n < 10 then [DigitChar(n)]
    else
      var front := NatToString(n / 10);
      var s := front + [DigitChar(n % 10)];
      assert s[..|s| - 1] == front;
      s
  }

  function Zeros(n: nat): (s: string)
    ensures |s| == n && AllDigits(s)
  {
    seq(n, _ => '0')
  }

  /** Shifting is multiplication by a power of ten. */
  lemma {:induction false} ShiftIsProduct(u: nat, z: nat)
    ensures Shift(u, z) == u * Pow10(z)
  {
    if z > 0 {
      ShiftIsProduct(u, z - 1);
      TimesTen(u, Pow10(z - 1));
    }
  }

  lemma TimesTen(a: nat, b: nat)
    ensures 10 * (a * b) == a * (10 * b)
  {
  }

  lemma {:induction false} ShiftTwice(u: nat, a: nat, b: nat)
    ensures Shift(Shift(u, a), b) == Shift(u, a + b)
  {
    if b > 0 { ShiftTwice(u, a, b - 1); }
  }

  lemma {:induction false} ShiftSum(u: nat, v: nat, z: nat)
    ensures Shift(u + v, z) == Shift(u, z) + Shift(v, z)
  {
    if z > 0 { ShiftSum(u, v, z - 1); }
  }

  lemma {:induction false} ShiftOrder(u: nat, v: nat, z: nat)
    ensures u < v <==> Shift(u, z) < Shift(v, z)
  {
    if z > 0 { ShiftOrder(u, v, z - 1); }
  }

  lemma {:induction false} ShiftPow(a: nat, b: nat)
    ensures Shift(Pow10(a), b) == Pow10(a + b)
  {
    if b > 0 { ShiftPow(a, b - 1); }
  }

  lemma {:induction false} PowGrows(a: nat, b: nat)
    ensures a < b <==> Pow10(a) < Pow10(b)
    ensures a <= b <==> Pow10(a) <= Pow10(b)
    decreases a + b
  {
    if a > 0 && b > 0 { PowGrows(a - 1, b - 1); }
  }

  lemma {:induction false} ValueOfConcat(a: string, b: string)
    requires AllDigits(a) && AllDigits(b)
    ensures AllDigits(a + b)
    ensures ValueOf(a + b) == Shift(ValueOf(a), |b|) + ValueOf(b)
  {
    assert AllDigits(a + b);
    if b == "" {
      assert a + b == a;
    } else {
      var front := b[..|b| - 1];
      ValueOfConcat(a, front);
      assert (a + b)[..|a + b| - 1] == a + front;
    }
  }

  lemma {:induction false} ValueOfZeros(n: nat)
    ensures ValueOf(Zeros(n)) == 0
  {
    if n > 0 {
      assert Zeros(n)[..n - 1] == Zeros(n - 1);
      ValueOfZeros(n - 1);
    }
  }

  /** Trailing zeros multiply, leading zeros change nothing. */
  lemma PadValue(s: string, n: nat)
    requires AllDigits(s)
    ensures AllDigits(s + Zeros(n)) && ValueOf(s + Zeros(n)) == Shift(ValueOf(s), n)
    ensures AllDigits(Zeros(n) + s) && ValueOf(Zeros(n) + s) == ValueOf(s)
  {
    ValueOfConcat(s, Zeros(n));
    ValueOfConcat(Zeros(n), s);
    ValueOfZeros(n);
  }

  /** A digit string is below 10 to its length, and at least 10 to one less unless it starts with 0. */
  lemma {:induction false} ValueBounds(s: string)
    requires AllDigits(s)
    ensures ValueOf(s) < Pow10(|s|)
    ensures s != "" && s[0] != '0' ==> Pow10(|s| - 1) <= ValueOf(s)
  {
    if s != "" {
      ValueBounds(s[..|s| - 1]);
      if |s| > 1 && s[0] != '0' {
        assert s[..|s| - 1][0] == s[0];
      }
    }
  }
}
