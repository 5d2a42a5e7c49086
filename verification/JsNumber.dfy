/**
 The JavaScript number operations the wallet relies on, over exact rationals:
 Number(text) by section 7.1.4.1 of ECMA-262, toFixed by section 21.1.3.3 and
 String(number) by section 6.1.6.1.20.
 */
module JsNumber {
  import opened Digits
  import opened DecimalText
  import opened Options

  datatype JsNumber = NaN | Infinite(negative: bool) | Finite(value: real) {
    /** The comparison with 0 in electron/src/app.js:40; false of NaN. */
    predicate NotPositive() {
      match this
      case NaN => false
      case Infinite(negative) => negative
      case Finite(value) => value <= 0.0
    }
  }

  /** White space and line terminators of ECMA-262, which trim and Number remove. */
  predicate IsSpace(c: char) {
    || '\U{0009}' <= c <= '\U{000D}' || c == ' ' || c == '\U{00A0}' || c == '\U{1680}'
    || '\U{2000}' <= c <= '\U{200A}' || c == '\U{2028}' || c == '\U{2029}'
    || c == '\U{202F}' || c == '\U{205F}' || c == '\U{3000}' || c == '\U{FEFF}'
  }

  function TrimStart(s: string): string {
    if s != "" && IsSpace(s[0]) then TrimStart(s[1..]) else s
  }

  function TrimEnd(s: string): string {
    if s != "" && IsSpace(s[|s| - 1]) then TrimEnd(s[..|s| - 1]) else s
  }

  function Trim(s: string): string {
    TrimEnd(TrimStart(s))
  }

  predicate AllInRadix(s: string, radix: nat) {
    forall i :: 0 <= i < |s| ==> IsHex(s[i]) && HexValue(s[i]) < radix
  }

  function RadixValue(s: string, radix: nat): nat
    requires AllInRadix(s, radix)
  {
    if s == "" then 0 else RadixValue(s[..|s| - 1], radix) * radix + HexValue(s[|s| - 1])
  }

  function RadixOf(prefix: char): nat {
    if prefix == 'x' || prefix == 'X' then 16
    else if prefix == 'o' || prefix == 'O' then 8
    else if prefix == 'b' || prefix == 'B' then 2
    else 0
  }

  function Scale(m: real, e: int): real {
    if e >= 0 then m * Pow10(e) as real else m / Pow10(-e) as real
  }

  /** The exponent part after the digits: empty, or e with a sign and digits. */
  function Exponent(s: string): Option<int> {
    if s == "" then Some(0)
    else if s[0] != 'e' && s[0] != 'E' then None
    else
      var signed := |s| > 1 && (s[1] == '+' || s[1] == '-');
      var digits := if signed then s[2..] else s[1..];
      if digits == "" || DigitRun(digits) != |digits| then None
      else
        assert digits[..|digits|] == digits;
        Some(if signed && s[1] == '-' then -(ValueOf(digits) as int) else ValueOf(digits))
  }

  function UnsignedDecimal(s: string): JsNumber {
    if s == "Infinity" then Infinite(false)
    else
      var n := DigitRun(s);
      var whole := s[..n];
      var pointed := n < |s| && s[n] == '.';
      var rest := if pointed then s[n + 1..] else s[n..];
      var m := if pointed then DigitRun(rest) else 0;
      var frac := rest[..m];
      var e := Exponent(rest[m..]);
      if (whole == "" && frac == "") || e.None? then NaN
      else
        assert AllDigits(frac);
        Finite(Scale(Written(whole, frac).units as real, e.value - m))
  }

  function Negate(x: JsNumber): JsNumber {
    match x
    case NaN => NaN
    case Infinite(negative) => Infinite(!negative)
    case Finite(value) => Finite(-value)
  }

  /** Number(text). */
  function NumberOf(text: string): JsNumber {
    var s := Trim(text);
    if s == "" then Finite(0.0)
    else if |s| > 1 && s[0] == '0' && RadixOf(s[1]) != 0 then
      if |s| > 2 && AllInRadix(s[2..], RadixOf(s[1]))
      then Finite(RadixValue(s[2..], RadixOf(s[1])) as real)
      else NaN
    else if s[0] == '-' then Negate(UnsignedDecimal(s[1..]))
    else if s[0] == '+' then UnsignedDecimal(s[1..])
    else UnsignedDecimal(s)
  }

  /** A text that neither starts nor ends with white space is its own trim. */
  lemma {:induction false} TrimPlain(raw: string, whole: string, frac: string)
    requires Denotes(raw, whole, frac)
    ensures Trim(raw) == raw
  {
    assert raw[0] == whole[0];
    assert raw[|raw| - 1] == if frac == "" then whole[|whole| - 1] else frac[|frac| - 1];
  }

  lemma {:induction false} UnsignedPlain(raw: string, whole: string, frac: string)
    requires Denotes(raw, whole, frac)
    ensures UnsignedDecimal(raw) == Finite(Scale(Written(whole, frac).units as real, -|frac|))
  {
    hide DigitRun, ValueOf, Scale, Written;
    PlainParts(raw, whole, frac);
    var n := |whole|;
    assert raw[0] == whole[0] && IsDigit(raw[0]);
    assert raw[..n] == whole;
    if frac == "" {
      var rest := raw[n..];
      assert rest == "" && rest[..0] == frac && rest[0..] == "";
    } else {
      var rest := raw[n + 1..];
      assert rest == frac;
      assert frac + "" == frac;
      DigitRunOf(frac, "");
      assert rest[..|frac|] == frac && rest[|frac|..] == "";
    }
  }

  /** A plain decimal text starts with a digit that begins no radix prefix. */
  lemma {:induction false} PlainHead(raw: string, whole: string, frac: string)
    requires Denotes(raw, whole, frac)
    ensures raw != "" && IsDigit(raw[0]) && (|raw| > 1 ==> RadixOf(raw[1]) == 0)
  {
    assert raw[0] == whole[0];
    if |raw| > 1 {
      assert raw[1] == if |whole| > 1 then whole[1] else '.';
    }
  }

  lemma {:induction false} UnscaledValue(d: Decimal)
    ensures Scale(d.units as real, 0 - d.places) == d.Value()
  {
  }

  /** On plain decimal texts Number gives exactly the decimal they denote. */
  lemma {:induction false} NumberOfPlain(raw: string, whole: string, frac: string)
    requires Denotes(raw, whole, frac)
    ensures NumberOf(raw) == Finite(Written(whole, frac).Value())
  {
    hide UnsignedDecimal, RadixValue, RadixOf, AllInRadix, Trim, Scale, Written, Decimal.Value;
    TrimPlain(raw, whole, frac);
    PlainHead(raw, whole, frac);
    UnsignedPlain(raw, whole, frac);
    UnscaledValue(Written(whole, frac));
  }

  /** The integer nearest to x * 10^places, the larger of two that are equally near. */
  function FixedUnits(x: real, places: nat): (n: nat)
    requires x >= 0.0
  {
    var scaled := x * Pow10(places) as real + 0.5;
    assert scaled >= 0.0;
    scaled.Floor
  }

  function Distance(n: int, y: real): real {
    if n as real < y then y - n as real else n as real - y
  }

  /** n is nearer to y than m, or as near and larger. */
  predicate Nearer(n: int, m: int, y: real) {
    Distance(n, y) < Distance(m, y) || (Distance(n, y) == Distance(m, y) && m < n)
  }

  lemma RoundedIsNearest(y: real, n: int, m: int)
    requires n as real <= y + 0.5 < n as real + 1.0
    ensures m == n || Nearer(n, m, y)
  {
    if m < n {
      assert m as real <= n as real - 1.0;
    } else if m > n {
      assert m as real >= n as real + 1.0;
    }
  }

  /** No integer is nearer to x * 10^places, and none larger is as near. */
  lemma {:induction false} FixedIsNearest(x: real, places: nat, y: real, m: int)
    requires x >= 0.0 && y == x * Pow10(places) as real
    ensures m == FixedUnits(x, places) || Nearer(FixedUnits(x, places), m, y)
  {
    var n := FixedUnits(x, places);
    assert n == (y + 0.5).Floor;
    hide *;
    RoundedIsNearest(y, n, m);
  }

  /** The digits of n with the point placed before the last `places` of them. */
  function FixedText(n: nat, places: nat): string {
    if places == 0 then NatToString(n)
    else
      var padded := Padded(n, places);
      padded[..|padded| - places] + "." + padded[|padded| - places..]
  }

  /** The digits of n, with leading zeros up to one more digit than there are places. */
  function Padded(n: nat, places: nat): (padded: string)
    ensures |padded| > places
  {
    var m := NatToString(n);
    if |m| <= places then Zeros(places + 1 - |m|) + m else m
  }

  lemma {:induction false} PaddedValue(n: nat, places: nat)
    ensures AllDigits(Padded(n, places)) && ValueOf(Padded(n, places)) == n
  {
    var m := NatToString(n);
    hide NatToString, ValueOf, Zeros;
    if |m| <= places { PadValue(m, places + 1 - |m|); }
  }

  /** x.toFixed(places) for 0 <= x < 10^21, the range in which it does not fall back to String(x). */
  function ToFixed(x: real, places: nat): string
    requires 0.0 <= x < Pow10(21) as real
  {
    FixedText(FixedUnits(x, places), places)
  }

  /** Cutting a long enough digit string in front of its last `places` digits. */
  lemma {:induction false} CutDenotes(padded: string, places: nat)
    requires AllDigits(padded) && 0 < places < |padded|
    ensures var cut := |padded| - places;
            && Denotes(padded[..cut] + "." + padded[cut..], padded[..cut], padded[cut..])
            && Written(padded[..cut], padded[cut..]).units == ValueOf(padded)
  {
    var cut := |padded| - places;
    assert padded[..cut] + padded[cut..] == padded;
  }

  /** The fixed-point text is a plain decimal denoting n / 10^places with exactly that many places. */
  lemma {:induction false} FixedTextDenotes(n: nat, places: nat) returns (whole: string, frac: string)
    ensures Denotes(FixedText(n, places), whole, frac)
    ensures Written(whole, frac) == Decimal(n, places)
  {
    hide NatToString, ValueOf, Padded;
    if places == 0 {
      whole, frac := NatToString(n), "";
      assert whole + frac == whole;
    } else {
      var padded := Padded(n, places);
      PaddedValue(n, places);
      CutDenotes(padded, places);
      whole, frac := padded[..|padded| - places], padded[|padded| - places..];
    }
  }

  /** The number that Number(x.toFixed(places)) yields. */
  function RoundTo(x: real, places: nat): (d: Decimal)
    requires 0.0 <= x < Pow10(21) as real
    ensures NumberOf(ToFixed(x, places)) == Finite(d.Value())
  {
    FixedReadsBack(FixedUnits(x, places), places);
    Decimal(FixedUnits(x, places), places)
  }

  lemma {:induction false} FixedReadsBack(n: nat, places: nat)
    ensures NumberOf(FixedText(n, places)) == Finite(Decimal(n, places).Value())
  {
    hide *;
    var whole, frac := FixedTextDenotes(n, places);
    NumberOfPlain(FixedText(n, places), whole, frac);
  }

  function Significand(u: nat): (s: nat)
    requires u > 0
    ensures s > 0 && s % 10 != 0
  {
    if u % 10 == 0 then Significand(u / 10) else u
  }

  function TrailingZeros(u: nat): (z: nat)
    requires u > 0
    ensures u == Shift(Significand(u), z)
  {
    if u % 10 == 0 then
      1 + TrailingZeros(u / 10)
    else 0
  }

  /** The exponent n of section 6.1.6.1.20: the value is 0.s * 10^n for the significant digits s. */
  function PrintExponent(d: Decimal): int
    requires d.units > 0
  {
    |NatToString(Significand(d.units))| + TrailingZeros(d.units) - d.places
  }

  /** The significant digits s laid out for the value 0.s * 10^n. */
  function Layout(s: string, n: int): string
    requires s != ""
  {
    var k := |s|;
    if k <= n <= 21 then s + Zeros(n - k)
    else if 0 < n <= 21 then s[..n] + "." + s[n..]
    else if -6 < n <= 0 then "0" + "." + (Zeros(-n) + s)
    else if k == 1 then s + ExponentText(n)
    else s[..1] + ("." + (s[1..] + ExponentText(n)))
  }

  /** The exponent part: the power of ten of the first digit, with its sign. */
  function ExponentText(n: int): string {
    if n > 0 then "e+" + NatToString(n - 1) else "e-" + NatToString(1 - n)
  }

  /** String(number) for the number d. */
  function NumberToString(d: Decimal): string {
    if d.units == 0 then "0" else Layout(NatToString(Significand(d.units)), PrintExponent(d))
  }

  /** String(number) depends on the number only: trailing zeros of the representation vanish. */
  lemma {:induction false} PrintRepresentation(d: Decimal, z: nat)
    ensures NumberToString(Decimal(Shift(d.units, z), d.places + z)) == NumberToString(d)
  {
    hide NumberToString;
    assert z == 0 ==> Decimal(Shift(d.units, z), d.places + z) == d;
    if z > 0 {
      PrintRepresentation(d, z - 1);
      PrintTenfold(Decimal(Shift(d.units, z - 1), d.places + z - 1));
    }
  }

  lemma {:induction false} PrintTenfold(d: Decimal)
    ensures NumberToString(Decimal(10 * d.units, d.places + 1)) == NumberToString(d)
  {
    hide NatToString, Layout, Significand, TrailingZeros;
    if d.units > 0 {
      Tenfold(d.units);
      assert PrintExponent(Decimal(10 * d.units, d.places + 1)) == PrintExponent(d);
    }
  }

  lemma {:induction false} Tenfold(u: nat)
    requires u > 0
    ensures Significand(10 * u) == Significand(u) && TrailingZeros(10 * u) == 1 + TrailingZeros(u)
  {
    assert 10 * u % 10 == 0 && 10 * u / 10 == u;
  }

  /** The range of values String prints without an exponent: from 10^-6 up to 10^21. */
  ghost predicate PrintsPlain(d: Decimal) {
    d.units == 0 || (Shift(d.units, 6) >= Pow10(d.places) && d.units < Pow10(d.places + 21))
  }

  lemma {:induction false} ScaledBounds(s: string, z: nat)
    requires AllDigits(s) && s != "" && s[0] != '0'
    ensures Pow10(|s| + z - 1) <= Shift(ValueOf(s), z) < Pow10(|s| + z)
  {
    ValueBounds(s);
    ShiftPow(|s|, z);
    ShiftPow(|s| - 1, z);
    ShiftOrder(ValueOf(s), Pow10(|s|), z);
    ShiftOrder(ValueOf(s), Pow10(|s| - 1), z);
  }

  /** The units lie between the powers of ten that their printed length names. */
  lemma {:induction false} UnitsBounds(u: nat)
    requires u > 0
    ensures var m := |NatToString(Significand(u))| + TrailingZeros(u); Pow10(m - 1) <= u < Pow10(m)
  {
    hide Shift, Pow10, NatToString, Significand;
    var s := NatToString(Significand(u));
    assert s != "0" by { assert ValueOf("0") == 0; }
    ScaledBounds(s, TrailingZeros(u));
  }

  lemma {:induction false} PrintRange(d: Decimal)
    requires d.units > 0
    ensures PrintsPlain(d) <==> -6 < PrintExponent(d) <= 21
  {
    hide Shift, Pow10, NatToString, Significand, TrailingZeros;
    var m := |NatToString(Significand(d.units))| + TrailingZeros(d.units);
    UnitsBounds(d.units);
    ShiftPow(m - 1, 6);
    ShiftPow(m, 6);
    ShiftOrder(d.units, Pow10(m - 1), 6);
    ShiftOrder(d.units, Pow10(m), 6);
    PowGrows(d.places, m + 5);
    PowGrows(m + 6, d.places);
    PowGrows(m, d.places + 21);
    PowGrows(d.places + 21, m - 1);
  }

  lemma {:induction false} WholeLayout(s: string, zeros: nat, places: nat)
    requires AllDigits(s) && s != ""
    ensures Denotes(s + Zeros(zeros), s + Zeros(zeros), "")
    ensures Shift(ValueOf(s), zeros + places) == Shift(Written(s + Zeros(zeros), "").units, places)
  {
    var whole := s + Zeros(zeros);
    assert whole + "" == whole;
    PadValue(s, zeros);
    ShiftTwice(ValueOf(s), zeros, places);
  }

  lemma {:induction false} SmallLayout(s: string, zeros: nat)
    requires AllDigits(s) && s != ""
    ensures Denotes("0" + "." + (Zeros(zeros) + s), "0", Zeros(zeros) + s)
    ensures Written("0", Zeros(zeros) + s).units == ValueOf(s)
  {
    var frac := Zeros(zeros) + s;
    assert "0" + frac == Zeros(1 + zeros) + s;
    PadValue(s, 1 + zeros);
  }

  /** A plain layout denotes the digits s followed by z zeros, moved down by `places`. */
  lemma {:induction false} LayoutDenotes(s: string, z: nat, places: nat) returns (whole: string, frac: string)
    requires AllDigits(s) && s != ""
    requires -6 < |s| + z - places <= 21
    ensures Denotes(Layout(s, |s| + z - places), whole, frac)
    ensures |frac| <= places
    ensures Shift(ValueOf(s), z) == Shift(Written(whole, frac).units, places - |frac|)
  {
    hide ValueOf, Shift, NatToString;
    var k, n := |s|, |s| + z - places;
    if k <= n {
      whole, frac := s + Zeros(n - k), "";
      WholeLayout(s, n - k, places);
      assert n - k + places == z;
    } else if 0 < n {
      whole, frac := s[..n], s[n..];
      assert whole + frac == s;
      assert places - |frac| == z;
    } else {
      whole, frac := "0", Zeros(-n) + s;
      SmallLayout(s, -n);
      assert places - |frac| == z;
    }
  }

  lemma ZeroText()
    ensures Denotes("0", "0", "") && Written("0", "").units == 0
  {
    assert "0" + "" == "0";
    assert ValueOf("0") == 0;
  }

  /** In the plain range the printed text denotes exactly d, with no more places than d has. */
  lemma {:induction false} PrintDenotes(d: Decimal) returns (whole: string, frac: string)
    requires PrintsPlain(d)
    ensures Denotes(NumberToString(d), whole, frac)
    ensures |frac| <= d.places
    ensures d.units == Shift(Written(whole, frac).units, d.places - |frac|)
  {
    hide NatToString, Significand, TrailingZeros, Layout, ValueOf, Shift, Pow10;
    if d.units == 0 {
      whole, frac := "0", "";
      ZeroText();
    } else {
      PrintRange(d);
      whole, frac := LayoutDenotes(NatToString(Significand(d.units)), TrailingZeros(d.units), d.places);
    }
  }

  /** Outside it the text carries an exponent, so it is no plain decimal. */
  lemma {:induction false} PrintExponentForm(d: Decimal)
    requires !PrintsPlain(d)
    ensures 'e' in NumberToString(d)
    ensures !IsPlain(NumberToString(d))
  {
    hide NatToString, Significand, TrailingZeros, Layout;
    PrintRange(d);
    LayoutHasE(NatToString(Significand(d.units)), PrintExponent(d));
    assert forall whole, frac :: Denotes(NumberToString(d), whole, frac) ==>
        forall c :: c in NumberToString(d) ==> c == '.' || IsDigit(c);
  }

  lemma {:induction false} LayoutHasE(s: string, n: int)
    requires s != "" && !(-6 < n <= 21)
    ensures 'e' in Layout(s, n)
  {
    ExponentReadsBack(n);
    hide ExponentText;
    var text := Layout(s, n);
    assert text[if |s| == 1 then 1 else |s| + 1] == ExponentText(n)[0];
  }

  lemma {:induction false} LayoutEnds(s: string, n: int)
    requires AllDigits(s) && s != "" && !(-6 < n <= 21)
    ensures var text := Layout(s, n); text != "" && text[0] == s[0] && IsDigit(text[|text| - 1])
  {
    ExponentEnds(n);
    hide ExponentText;
    var text, e := Layout(s, n), ExponentText(n);
    assert text[|text| - 1] == e[|e| - 1];
  }

  lemma {:induction false} ExponentEnds(n: int)
    ensures var e := ExponentText(n); e != "" && IsDigit(e[|e| - 1])
  {
    var digits := if n > 0 then NatToString(n - 1) else NatToString(1 - n);
    hide NatToString;
    var e := ExponentText(n);
    assert e[|e| - 1] == digits[|digits| - 1];
  }

  lemma {:induction false} ExponentTrim(d: Decimal)
    requires !PrintsPlain(d)
    ensures Trim(NumberToString(d)) == NumberToString(d)
  {
    hide NatToString, Significand, TrailingZeros, Layout;
    PrintRange(d);
    LayoutEnds(NatToString(Significand(d.units)), PrintExponent(d));
  }

  lemma AssociateReal(v: real, p: real, q: real)
    ensures v * (p * q) == v * p * q
  {
  }

  lemma CancelScale(u: real, p: real, q: real)
    requires p > 0.0
    ensures u * q == u / p * (p * q)
  {
    var v := u / p;
    assert v * p == u;
    AssociateReal(v, p, q);
  }

  lemma ScaledQuotient(u: nat, p: nat, q: nat, r: nat)
    requires p > 0 && r == p * q
    ensures (u * q) as real == u as real / p as real * r as real
  {
    ProductAsReal(p, q);
    ProductAsReal(u, q);
    CancelScale(u as real, p as real, q as real);
  }

  lemma ProductAsReal(a: nat, b: nat)
    ensures (a * b) as real == a as real * b as real
  {
  }


  // ----- Number undoes String on every decimal -----

  lemma {:induction false} ShiftedValue(v: nat, z: nat, places: nat)
    ensures Scale(v as real, z - places) == Decimal(Shift(v, z), places).Value()
  {
    hide Shift, Pow10;
    if z >= places {
      ShiftTwice(v, z - places, places);
      ShiftIsProduct(v, z - places);
      ShiftIsProduct(Shift(v, z - places), places);
      WholeQuotient(v, Pow10(z - places), Pow10(places));
    } else {
      ShiftPow(places - z, z);
      ShiftIsProduct(Pow10(places - z), z);
      ShiftIsProduct(v, z);
      CommonFactor(v, Pow10(places - z), Pow10(z));
    }
  }

  lemma WholeQuotient(v: nat, q: nat, p: nat)
    requires p > 0
    ensures v as real * q as real == (v * q * p) as real / p as real
  {
    ProductAsReal(v, q);
    ProductAsReal(v * q, p);
    Quotient((v * q) as real, p as real);
  }

  lemma CommonFactor(v: nat, p: nat, q: nat)
    requires p > 0 && q > 0
    ensures v as real / p as real == (v * q) as real / (p * q) as real
  {
    ProductAsReal(v, q);
    ProductAsReal(p, q);
    var x, a, b := v as real, p as real, q as real;
    CancelScale(x, a, b);
    Quotient(x / a, a * b);
  }

  lemma Quotient(r: real, p: real)
    requires p != 0.0
    ensures r * p / p == r
  {
  }

  /** The exponent part of a layout is read back. */
  lemma {:induction false} ExponentReadsBack(n: int)
    ensures ExponentText(n) != "" && ExponentText(n)[0] == 'e'
    ensures Exponent(ExponentText(n)) == Some(n - 1)
  {
    var digits := if n > 0 then NatToString(n - 1) else NatToString(1 - n);
    var text := ExponentText(n);
    hide NatToString, DigitRun, ValueOf;
    assert text[2..] == digits;
    assert digits + "" == digits;
    DigitRunOf(digits, "");
  }

  lemma {:induction false} ScientificReadsBack(whole: string, frac: string, e: string)
    requires AllDigits(whole) && AllDigits(frac) && whole != ""
    requires e != "" && e[0] == 'e' && Exponent(e).Some?
    ensures var text := if frac == "" then whole + e else whole + ("." + (frac + e));
            UnsignedDecimal(text) == Finite(Scale(Written(whole, frac).units as real, Exponent(e).value - |frac|))
  {
    hide DigitRun, Scale, Exponent, ValueOf;
    var n := |whole|;
    if frac == "" {
      var text := whole + e;
      DigitRunOf(whole, e);
      assert text[..n] == whole && text[n..] == e && e[..0] == "" && e[0..] == e;
      assert text[0] == whole[0] && IsDigit(text[0]);
    } else {
      var rest := frac + e;
      var text := whole + ("." + rest);
      DigitRunOf(whole, "." + rest);
      DigitRunOf(frac, e);
      assert text[..n] == whole && text[n] == '.' && text[n + 1..] == rest;
      assert rest[..|frac|] == frac && rest[|frac|..] == e;
      assert text[0] == whole[0] && IsDigit(text[0]);
    }
  }

  lemma {:induction false} LayoutReadsBack(s: string, n: int)
    requires AllDigits(s) && s != ""
    requires !(-6 < n <= 21)
    ensures UnsignedDecimal(Layout(s, n)) == Finite(Scale(ValueOf(s) as real, n - |s|))
  {
    hide ExponentText, Exponent, UnsignedDecimal, ValueOf, Scale;
    ExponentReadsBack(n);
    assert s[..1] + s[1..] == s;
    ScientificReadsBack(s[..1], s[1..], ExponentText(n));
    assert |s| == 1 ==> s[..1] == s;
  }

  lemma {:induction false} NumberOfHead(text: string)
    requires Trim(text) == text && text != "" && '1' <= text[0] <= '9'
    ensures NumberOf(text) == UnsignedDecimal(text)
  {
    hide UnsignedDecimal, TrimStart, TrimEnd;
  }

  lemma {:induction false} ExponentFormReadsBack(d: Decimal)
    requires !PrintsPlain(d)
    ensures NumberOf(NumberToString(d)) == Finite(d.Value())
  {
    hide NatToString, Significand, TrailingZeros, UnsignedDecimal, NumberOf, Trim, Scale, Layout;
    ExponentTrim(d);
    PrintRange(d);
    ExponentHead(d);
    NumberOfHead(NumberToString(d));
    LayoutReadsBack(NatToString(Significand(d.units)), PrintExponent(d));
    ShiftedValue(Significand(d.units), TrailingZeros(d.units), d.places);
  }

  /** Number(String(x)) is x, with and without exponent. */
  lemma {:induction false} NumberOfString(d: Decimal)
    ensures NumberOf(NumberToString(d)) == Finite(d.Value())
  {
    hide *;
    if PrintsPlain(d) {
      var whole, frac := PrintDenotes(d);
      NumberOfPlain(NumberToString(d), whole, frac);
      SameValue(Written(whole, frac), d);
    } else {
      ExponentFormReadsBack(d);
    }
  }

  lemma {:induction false} SameValue(a: Decimal, d: Decimal)
    requires a.places <= d.places && d.units == Shift(a.units, d.places - a.places)
    ensures a.Value() == d.Value()
  {
    ShiftedValue(a.units, d.places - a.places, d.places);
  }

  /** The text in exponent form starts with a digit other than 0. */
  lemma {:induction false} ExponentHead(d: Decimal)
    requires !PrintsPlain(d)
    ensures NumberToString(d) != "" && '1' <= NumberToString(d)[0] <= '9'
  {
    PrintRange(d);
    var s := NatToString(Significand(d.units));
    assert s != "0" by { assert ValueOf("0") == 0; }
    hide NatToString, Significand, TrailingZeros;
    assert NumberToString(d)[0] == s[0];
  }
}
