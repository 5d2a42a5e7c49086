/** The send-max amount and the gas top-up amount. */
module WalletAmounts {
  import opened Digits
  import opened DecimalText
  import opened JsNumber
  import opened AtomicUnits

  // ----- sendMax -----

  /** Math.round(0.02 * COIN). */
  const FEE: nat := 2_000_000_000

  function MaxAmount(balance: nat): nat {
    if balance >= FEE then balance - FEE else 0
  }

  /** The amount field after sendMax with this unlocked balance; no balance leaves the field alone. */
  function SendMaxText(balance: nat, field: string): string {
    if balance == 0 then field
    else
      var x := Decimal(MaxAmount(balance), CRYLO_DECIMALS);
      if x.Value() < Pow10(21) as real then
        assert x.Value() >= 0.0;
        ToFixed(x.Value(), 9)
      else NumberToString(x)
  }

  /** Nine places of a multiple of 10^-11 drop the last two digits, rounding half up. */
  lemma {:induction false} NinePlaces(n: nat)
    ensures Decimal(n, CRYLO_DECIMALS).Value() >= 0.0
    ensures FixedUnits(Decimal(n, CRYLO_DECIMALS).Value(), 9) == (n + 50) / 100
  {
    assert Pow10(11) == 100_000_000_000 && Pow10(9) == 1_000_000_000;
    var v := Decimal(n, CRYLO_DECIMALS).Value();
    assert v == n as real / 100_000_000_000.0;
    assert v * 1_000_000_000.0 == n as real / 100.0;
    var q := (n + 50) / 100;
    assert q as real <= n as real / 100.0 + 0.5 < q as real + 1.0;
  }

  lemma {:induction false} FixedRange(n: nat)
    ensures Decimal(n, CRYLO_DECIMALS).Value() < Pow10(21) as real <==> n < Pow10(32)
  {
    assert Pow10(11) == 100_000_000_000;
    ShiftPow(21, 11);
    ShiftIsProduct(Pow10(21), 11);
    hide Pow10, Shift;
    var v, p := Decimal(n, CRYLO_DECIMALS).Value(), Pow10(21);
    assert v * 100_000_000_000.0 == n as real;
    assert Pow10(32) == p * 100_000_000_000;
  }

  lemma {:induction false} SendMaxShape(balance: nat, field: string)
    requires balance > 0
    ensures SendMaxText(balance, field) ==
            var n := MaxAmount(balance);
            if n < Pow10(32) then FixedText((n + 50) / 100, 9) else NumberToString(Decimal(n, CRYLO_DECIMALS))
  {
    hide Pow10, FixedText, NumberToString, Decimal.Value, FixedUnits;
    FixedRange(MaxAmount(balance));
    NinePlaces(MaxAmount(balance));
  }

  lemma {:induction false} SendMaxParse(balance: nat, field: string)
    requires balance > 0
    ensures var r := CryloToAtomic(SendMaxText(balance, field));
            var n := MaxAmount(balance);
            && (n >= Pow10(32) || (n + 50) / 100 == 0 ==> r.Err?)
            && (n < Pow10(32) && (n + 50) / 100 > 0 ==> r == Ok(NatToString(Shift((n + 50) / 100, 2))))
  {
    var n := MaxAmount(balance);
    hide Pow10, FixedText, NumberToString, SendMaxText, MaxAmount, DecimalToAtomic, Shift, NatToString;
    SendMaxShape(balance, field);
    if n < Pow10(32) {
      ParseFixed((n + 50) / 100, 9, CRYLO_DECIMALS);
    } else {
      TooBig(n);
      ParsePrinted(Decimal(n, CRYLO_DECIMALS), CRYLO_DECIMALS);
    }
  }

  lemma {:induction false} TooBig(n: nat)
    requires n >= Pow10(32)
    ensures !PrintsPlain(Decimal(n, CRYLO_DECIMALS))
  {
    hide Pow10, Shift;
    PowGrows(0, 32);
  }

  /**
   Without a balance the field is left alone. Otherwise its text is accepted by cryloToAtomic exactly when the balance
   covers the fee of 0.02 CRYLO by at least 50 units and stays below 10^21 CRYLO plus the fee. The accepted amount is
   within 50 units of balance minus fee, and below the balance.
   */
  lemma {:induction false} SendMaxNeverOverspends(balance: nat, field: string)
    ensures balance == 0 ==> SendMaxText(balance, field) == field
    ensures balance > 0 ==>
              var r, fee := CryloToAtomic(SendMaxText(balance, field)), 2_000_000_000;
              && (r.Ok? <==> fee + 50 <= balance < fee + Pow10(32))
              && (r.Ok? ==>
                   && balance - fee - 50 < ValueOf(r.text) <= balance - fee + 50
                   && ValueOf(r.text) < balance
                   && ValueOf(r.text) % 100 == 0)
  {
    assert balance == 0 ==> SendMaxText(balance, field) == field;
    if balance > 0 { SendMaxAccepted(balance, field); }
  }

  lemma {:induction false} SendMaxAccepted(balance: nat, field: string)
    requires balance > 0
    ensures var r := CryloToAtomic(SendMaxText(balance, field));
            && (r.Ok? <==> FEE + 50 <= balance < FEE + Pow10(32))
            && (r.Ok? ==>
                 && balance - FEE - 50 < ValueOf(r.text) <= balance - FEE + 50
                 && ValueOf(r.text) < balance
                 && ValueOf(r.text) % 100 == 0)
  {
    hide Pow10, SendMaxText, CryloToAtomic, Shift, NatToString, ValueOf;
    SendMaxParse(balance, field);
    PowGrows(0, 32);
    Hundredfold((MaxAmount(balance) + 50) / 100);
  }

  lemma {:induction false} Hundredfold(q: nat)
    ensures Shift(q, 2) == 100 * q && Pow10(0) == 1
  {
    assert Shift(q, 2) == 10 * Shift(q, 1) && Shift(q, 1) == 10 * Shift(q, 0);
  }

  // ----- ensureNexusGasForAction -----

  datatype GasDecision = Enough | TopUp(wcrylo: Decimal)

  function Ceil(x: real): int {
    -((-x).Floor)
  }

  /** The amount of wCRYLO offered for a shortfall: shortfall plus 0.005, rounded up to five places. */
  function TopUpUnits(shortfall: real): (units: nat)
    requires shortfall > 0.0
    ensures units > 500
  {
    Ceil((shortfall + 0.005) * 100_000.0)
  }

  function NeededGas(estimated: real): real {
    if estimated == 0.0 then 0.03 else estimated
  }

  function EnsureGas(currentGas: real, estimated: real): GasDecision {
    if currentGas >= NeededGas(estimated) then Enough
    else TopUp(Decimal(TopUpUnits(NeededGas(estimated) - currentGas), 5))
  }

  /** At one wCRYLO for one gas, the top-up reaches the need plus 0.005 and overshoots by less than 10^-5. */
  lemma {:induction false} TopUpCovers(currentGas: real, estimated: real)
    ensures EnsureGas(currentGas, estimated).Enough? <==> currentGas >= NeededGas(estimated)
    ensures EnsureGas(currentGas, estimated).TopUp? ==>
              var w := EnsureGas(currentGas, estimated).wcrylo.Value();
              NeededGas(estimated) + 0.005 <= currentGas + w < NeededGas(estimated) + 0.005 + 0.00001
  {
    if currentGas < NeededGas(estimated) {
      assert Pow10(5) == 100_000;
    }
  }

  /**
   The text of the top-up is exact in every unit of at least five decimals, so in the 11-decimal unit of wCRYLO
   and the 18-decimal unit of gas, exactly when it is below 10^21; above, String prints an exponent.
   */
  lemma {:induction false} TopUpTextExact(currentGas: real, estimated: real, decimals: nat)
    requires EnsureGas(currentGas, estimated).TopUp? && decimals >= 5
    ensures var w := EnsureGas(currentGas, estimated).wcrylo;
            && w.places == 5
            && (DecimalToAtomic(NumberToString(w), decimals).Ok? <==> w.units < Pow10(26))
            && (w.units < Pow10(26) ==>
                  DecimalToAtomic(NumberToString(w), decimals) == Ok(NatToString(Shift(w.units, decimals - 5))))
  {
    hide *;
    var w := EnsureGas(currentGas, estimated).wcrylo;
    TopUpShape(currentGas, estimated);
    TopUpPlain(w);
    ParsePrinted(w, decimals);
  }

  lemma {:induction false} TopUpShape(currentGas: real, estimated: real)
    requires EnsureGas(currentGas, estimated).TopUp?
    ensures EnsureGas(currentGas, estimated).wcrylo.places == 5
    ensures EnsureGas(currentGas, estimated).wcrylo.units > 500
  {
  }

  lemma {:induction false} TopUpPlain(w: Decimal)
    requires w.places == 5 && w.units > 500
    ensures PrintsPlain(w) <==> w.units < Pow10(26)
  {
    assert Pow10(5) == 100_000;
    ShiftIsProduct(w.units, 6);
    assert Pow10(6) == 1_000_000;
  }

  const GAS_DECIMALS: nat := 18

  /** An amount of gas units as the number the wallet computes with. */
  function Gas(units: nat): real {
    Decimal(units, GAS_DECIMALS).Value()
  }

  /** 0.03 gas when nothing could be estimated. */
  function NeededUnits(estimated: nat): nat {
    if estimated == 0 then 30_000_000_000_000_000 else estimated
  }

  /**
   In the 18-decimal units of gas: too little gas is always topped up, and what there is and the units the text of the
   top-up is read as make the need and 5 * 10^15 more, with less than 10^13 to spare.
   */
  lemma {:induction false} TopUpInGasUnits(current: nat, estimated: nat)
    ensures EnsureGas(Gas(current), Gas(estimated)).TopUp? <==> current < NeededUnits(estimated)
    ensures current < NeededUnits(estimated) ==>
              var w := EnsureGas(Gas(current), Gas(estimated)).wcrylo;
              var margin := NeededUnits(estimated) + 5_000_000_000_000_000;
              && margin <= current + Shift(w.units, 13) < margin + 10_000_000_000_000
              && (w.units < Pow10(26) ==>
                    DecimalToAtomic(NumberToString(w), GAS_DECIMALS) == Ok(NatToString(Shift(w.units, 13))))
  {
    hide EnsureGas, Gas, NumberToString, DecimalToAtomic, Shift, NatToString, Pow10, NeededUnits, NeededGas;
    GasOrder(current, estimated);
    TopUpCovers(Gas(current), Gas(estimated));
    if current < NeededUnits(estimated) {
      var w := EnsureGas(Gas(current), Gas(estimated)).wcrylo;
      TopUpTextExact(Gas(current), Gas(estimated), GAS_DECIMALS);
      GasValue(current);
      GasValue(NeededUnits(estimated));
      TopUpValue(w);
      GasBounds(current, NeededUnits(estimated), w.units);
    }
  }

  lemma GasValue(units: nat)
    ensures Gas(units) == units as real / 1_000_000_000_000_000_000.0
  {
    assert Pow10(9) == 1_000_000_000;
    ShiftPow(9, 9);
    ShiftIsProduct(Pow10(9), 9);
  }

  lemma {:induction false} GasOrder(current: nat, estimated: nat)
    ensures NeededGas(Gas(estimated)) == Gas(NeededUnits(estimated))
    ensures Gas(current) < Gas(NeededUnits(estimated)) <==> current < NeededUnits(estimated)
  {
    GasValue(current);
    GasValue(estimated);
    GasValue(NeededUnits(estimated));
    hide Gas;
  }

  lemma {:induction false} TopUpValue(w: Decimal)
    requires w.places == 5
    ensures w.Value() == w.units as real / 100_000.0
    ensures Shift(w.units, 13) == w.units * 10_000_000_000_000
  {
    assert Pow10(5) == 100_000;
    ShiftIsProduct(w.units, 13);
    assert Pow10(13) == 10_000_000_000_000;
  }

  lemma {:induction false} GasBounds(current: nat, needed: nat, units: nat)
    requires var unit := 1_000_000_000_000_000_000.0;
             needed as real / unit + 0.005 <= current as real / unit + units as real / 100_000.0
             < needed as real / unit + 0.005 + 0.00001
    ensures var margin := needed + 5_000_000_000_000_000;
            margin <= current + units * 10_000_000_000_000 < margin + 10_000_000_000_000
  {
  }
}
