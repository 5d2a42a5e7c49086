/** decimalToAtomic: an amount text becomes an exact count of 10^-decimals units. */
module AtomicUnits {
  import opened Digits
  import opened DecimalText
  import opened JsNumber

  const CRYLO_DECIMALS: nat := 11
  const COIN: nat := 100_000_000_000

  datatype AmountError = NotPositive | Malformed | TooManyPlaces

  datatype Parsed = Ok(text: string) | Err(error: AmountError)

  function PadEnd(s: string, n: nat): string {
    if |s| >= n then s else s + Zeros(n - |s|)
  }

  /** The two BigInt terms of electron/src/app.js:49. */
  function Combine(whole: string, padded: string, decimals: nat): nat
    requires AllDigits(whole) && AllDigits(padded)
  {
    Shift(ValueOf(whole), decimals) + ValueOf(padded)
  }

  lemma SplitDigits(raw: string, decimals: nat)
    requires MatchesDecimal(raw)
    ensures AllDigits(WholePart(raw)) && AllDigits(PadEnd(FracPart(raw), decimals))
  {
    MatchesExactly(raw);
  }

  function DecimalToAtomic(amountText: string, decimals: nat): (r: Parsed)
    ensures r.Ok? ==> r.text != "" && AllDigits(r.text)
  {
    var raw := Trim(amountText);
    if raw == "" || NumberOf(raw).NotPositive() then Err(NotPositive)
    else if !MatchesDecimal(raw) then Err(Malformed)
    else
      var whole, frac := WholePart(raw), FracPart(raw);
      if |frac| > decimals then Err(TooManyPlaces)
      else
        SplitDigits(raw, decimals);
        Ok(NatToString(Combine(whole, PadEnd(frac, decimals), decimals)))
  }

  function CryloToAtomic(amountText: string): (r: Parsed)
    ensures r.Ok? ==> r.text != "" && AllDigits(r.text)
  {
    DecimalToAtomic(amountText, CRYLO_DECIMALS)
  }

  lemma {:induction false} PaddedSum(whole: string, frac: string, decimals: nat)
    requires AllDigits(whole) && AllDigits(frac) && |frac| <= decimals
    ensures AllDigits(PadEnd(frac, decimals))
    ensures Combine(whole, PadEnd(frac, decimals), decimals)
         == Shift(Written(whole, frac).units, decimals - |frac|)
  {
    var z := decimals - |frac|;
    assert PadEnd(frac, decimals) == frac + Zeros(z);
    PadValue(frac, z);
    ValueOfConcat(whole, frac);
    ShiftTwice(ValueOf(whole), |frac|, z);
    ShiftSum(Shift(ValueOf(whole), |frac|), ValueOf(frac), z);
  }

  /** A decimal is positive exactly when its units are. */
  lemma {:induction false} PositiveValue(d: Decimal)
    ensures d.Value() > 0.0 <==> d.units > 0
    ensures d.Value() >= 0.0
  {
  }

  /** What the parser answers on every plain decimal text, with the error it picks. */
  lemma {:induction false} ParsePlain(text: string, decimals: nat, whole: string, frac: string)
    requires Denotes(Trim(text), whole, frac)
    ensures DecimalToAtomic(text, decimals) ==
            var units := Written(whole, frac).units;
            if units == 0 then Err(NotPositive)
            else if |frac| > decimals then Err(TooManyPlaces)
            else Ok(NatToString(Shift(units, decimals - |frac|)))
  {
    var raw := Trim(text);
    NumberOfPlain(raw, whole, frac);
    PositiveValue(Written(whole, frac));
    PlainParts(raw, whole, frac);
    if |frac| <= decimals { PaddedSum(whole, frac, decimals); }
  }

  /** Every other text is refused, so acceptance is exactly: plain, positive and not too fine. */
  lemma {:induction false} AcceptsExactly(text: string, decimals: nat)
    ensures DecimalToAtomic(text, decimals).Ok? <==>
            exists whole, frac ::
              Denotes(Trim(text), whole, frac) && |frac| <= decimals && Written(whole, frac).units > 0
    ensures DecimalToAtomic(text, decimals) == Err(TooManyPlaces) <==>
            exists whole, frac ::
              Denotes(Trim(text), whole, frac) && |frac| > decimals && Written(whole, frac).units > 0
  {
    var raw := Trim(text);
    MatchesExactly(raw);
    forall whole, frac | Denotes(raw, whole, frac)
      ensures whole == WholePart(raw) && frac == FracPart(raw)
    {
      PlainParts(raw, whole, frac);
    }
    if IsPlain(raw) {
      ParsePlain(text, decimals, WholePart(raw), FracPart(raw));
    }
  }

  lemma {:induction false} RefusesOthers(text: string, decimals: nat)
    requires !IsPlain(Trim(text))
    ensures DecimalToAtomic(text, decimals).Err?
  {
    hide DecimalToAtomic;
    AcceptsExactly(text, decimals);
  }

  lemma {:induction false} AcceptedParts(text: string, decimals: nat) returns (whole: string, frac: string)
    ensures DecimalToAtomic(text, decimals).Ok? ==>
              Denotes(Trim(text), whole, frac) && Written(whole, frac).units > 0 && |frac| <= decimals
  {
    hide DecimalToAtomic;
    whole, frac := "", "";
    AcceptsExactly(text, decimals);
    if DecimalToAtomic(text, decimals).Ok? {
      whole, frac :| Denotes(Trim(text), whole, frac) && |frac| <= decimals && Written(whole, frac).units > 0;
    }
  }

  /** The accepted result is the number the text denotes, times 10^decimals, exactly. */
  lemma {:induction false} ParseValue(text: string, decimals: nat)
    ensures var r := DecimalToAtomic(text, decimals);
            r.Ok? ==>
              && NumberOf(Trim(text)).Finite?
              && ValueOf(r.text) as real == NumberOf(Trim(text)).value * Pow10(decimals) as real
  {
    hide *;
    if DecimalToAtomic(text, decimals).Ok? {
      var whole, frac := AcceptedParts(text, decimals);
      ParsePlain(text, decimals, whole, frac);
      NumberOfPlain(Trim(text), whole, frac);
      ScaleUp(Written(whole, frac), decimals);
    }
  }

  lemma {:induction false} ScaleUp(d: Decimal, decimals: nat)
    requires d.places <= decimals
    ensures Shift(d.units, decimals - d.places) as real == d.Value() * Pow10(decimals) as real
  {
    hide Shift, Pow10;
    var z := decimals - d.places;
    ShiftIsProduct(d.units, z);
    ShiftPow(d.places, z);
    ShiftIsProduct(Pow10(d.places), z);
    ScaledQuotient(d.units, Pow10(d.places), Pow10(z), Pow10(decimals));
  }

  lemma Larger(x: real, y: real, p: real)
    requires x < y && p > 0.0
    ensures x * p < y * p
  {
    DistributeReal(x, y - x, p);
    PositiveProduct(y - x, p);
    assert x + (y - x) == y;
  }

  lemma DistributeReal(x: real, z: real, p: real)
    ensures (x + z) * p == x * p + z * p
  {
  }

  lemma PositiveProduct(z: real, p: real)
    requires z > 0.0 && p > 0.0
    ensures z * p > 0.0
  {
  }

  lemma ScaledOrder(m: nat, n: nat, x: real, y: real, p: real)
    requires p > 0.0 && m as real == x * p && n as real == y * p
    ensures m < n <==> x < y
    ensures m == n <==> x == y
  {
    if x < y {
      Larger(x, y, p);
    } else if y < x {
      Larger(y, x, p);
    } else {
      assert x * p == y * p;
    }
  }

  /** Parsing keeps the order of the numbers, and equal results mean equal numbers. */
  lemma {:induction false} ParseMonotone(a: string, b: string, decimals: nat)
    ensures var r, s := DecimalToAtomic(a, decimals), DecimalToAtomic(b, decimals);
            r.Ok? && s.Ok? ==>
              && NumberOf(Trim(a)).Finite? && NumberOf(Trim(b)).Finite?
              && (ValueOf(r.text) < ValueOf(s.text) <==> NumberOf(Trim(a)).value < NumberOf(Trim(b)).value)
              && (r == s <==> NumberOf(Trim(a)).value == NumberOf(Trim(b)).value)
  {
    hide *;
    var r, s := DecimalToAtomic(a, decimals), DecimalToAtomic(b, decimals);
    ParseValue(a, decimals);
    ParseValue(b, decimals);
    if r.Ok? && s.Ok? {
      var x, y := NumberOf(Trim(a)).value, NumberOf(Trim(b)).value;
      ScaledOrder(ValueOf(r.text), ValueOf(s.text), x, y, Pow10(decimals) as real);
      CanonicalResult(a, decimals);
      CanonicalResult(b, decimals);
      assert ValueOf(r.text) == ValueOf(s.text) <==> r.text == s.text;
    }
  }

  lemma {:induction false} CanonicalResult(text: string, decimals: nat)
    ensures var r := DecimalToAtomic(text, decimals); r.Ok? ==> r.text == NatToString(ValueOf(r.text))
  {
  }

  /** Parsing undoes fixed-point printing: n / 10^places comes back as n * 10^(decimals - places). */
  lemma {:induction false} ParseFixed(n: nat, places: nat, decimals: nat)
    requires places <= decimals
    ensures DecimalToAtomic(FixedText(n, places), decimals) ==
            if n == 0 then Err(NotPositive) else Ok(NatToString(Shift(n, decimals - places)))
  {
    hide *;
    var whole, frac := FixedTextDenotes(n, places);
    TrimPlain(FixedText(n, places), whole, frac);
    ParsePlain(FixedText(n, places), decimals, whole, frac);
  }

  /** Parsing undoes String(number) exactly when the number is positive and prints without exponent. */
  lemma {:induction false} ParsePrinted(d: Decimal, decimals: nat)
    requires d.places <= decimals
    ensures DecimalToAtomic(NumberToString(d), decimals).Ok? <==> d.units > 0 && PrintsPlain(d)
    ensures d.units > 0 && PrintsPlain(d) ==>
              DecimalToAtomic(NumberToString(d), decimals) == Ok(NatToString(Shift(d.units, decimals - d.places)))
  {
    hide *;
    var text := NumberToString(d);
    if PrintsPlain(d) {
      var whole, frac := PrintDenotes(d);
      TrimPlain(text, whole, frac);
      ParsePlain(text, decimals, whole, frac);
      ShiftTwice(Written(whole, frac).units, d.places - |frac|, decimals - d.places);
    } else {
      PrintExponentForm(d);
      ExponentTrim(d);
      RefusesOthers(text, decimals);
    }
  }

  /** Number reads back the text of a natural number. */
  lemma {:induction false} NumberOfNat(n: nat)
    ensures NumberOf(NatToString(n)) == Finite(n as real)
  {
    var s := NatToString(n);
    assert s + "" == s;
    NumberOfPlain(s, s, "");
  }
}
