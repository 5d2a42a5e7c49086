/** Plain decimal texts such as 12 or 0.05, and the exact decimals they denote. */
module DecimalText {
  import opened Digits

  /** The exact rational units / 10^places. */
  datatype Decimal = Decimal(units: nat, places: nat) {
    function Value(): real {
      units as real / Pow10(places) as real
    }
  }

  /** The grammar: a non-empty whole part, then optionally a point and a non-empty fraction. */
  ghost predicate Denotes(raw: string, whole: string, frac: string): (d: bool)
    ensures d ==> AllDigits(whole) && AllDigits(frac)
  {
    && AllDigits(whole) && AllDigits(frac) && whole != ""
    && raw == if frac == "" then whole else whole + "." + frac
  }

  ghost predicate IsPlain(raw: string) {
    exists whole, frac :: Denotes(raw, whole, frac)
  }

  /** The decimal denoted by a whole part and a fraction. */
  function Written(whole: string, frac: string): (d: Decimal)
    requires AllDigits(whole) && AllDigits(frac)
    ensures d.places == |frac|
  {
    assert AllDigits(whole + frac);
    Decimal(ValueOf(whole + frac), |frac|)
  }

  /** The length of the longest digit prefix. */
  function DigitRun(s: string): (n: nat)
    ensures n <= |s| && AllDigits(s[..n])
    ensures n < |s| ==> !IsDigit(s[n])
  {
    if s == "" || !IsDigit(s[0]) then 0
    else
      var n := 1 + DigitRun(s[1..]);
      assert forall i :: 1 <= i < n ==> s[i] == s[1..][..n - 1][i - 1];
      n
  }

  /** The regular expression test at electron/src/app.js:41. */
  predicate MatchesDecimal(raw: string) {
    var n := DigitRun(raw);
    n > 0 && (n == |raw| || (raw[n] == '.' && n + 1 < |raw| && DigitRun(raw[n + 1..]) == |raw| - n - 1))
  }

  /** The index of the first point, or the length of the text. */
  function PointAt(raw: string): (n: nat)
    ensures n <= |raw|
    ensures '.' !in raw[..n]
    ensures n < |raw| ==> raw[n] == '.'
  {
    if raw == "" || raw[0] == '.' then 0
    else
      var n := 1 + PointAt(raw[1..]);
      assert raw[..n] == [raw[0]] + raw[1..][..n - 1];
      n
  }

  /** Splitting at the points: the first piece. */
  function WholePart(raw: string): string {
    raw[..PointAt(raw)]
  }

  /** The second piece, empty when there is no point. */
  function FracPart(raw: string): string {
    var n := PointAt(raw);
    if n == |raw| then ""
    else
      var rest := raw[n + 1..];
      rest[..PointAt(rest)]
  }

  lemma {:induction false} DigitRunOf(digits: string, rest: string)
    requires AllDigits(digits)
    requires rest != "" ==> !IsDigit(rest[0])
    ensures DigitRun(digits + rest) == |digits|
  {
    var s := digits + rest;
    var n := DigitRun(s);
    assert forall i :: 0 <= i < |digits| ==> s[i] == digits[i];
    assert forall i :: 0 <= i < n ==> s[i] == s[..n][i];
    assert rest != "" ==> s[|digits|] == rest[0];
  }

  lemma {:induction false} PointAtOf(digits: string, rest: string)
    requires AllDigits(digits)
    requires rest != "" ==> rest[0] == '.'
    ensures PointAt(digits + rest) == |digits|
  {
    var s := digits + rest;
    var n := PointAt(s);
    assert forall i :: 0 <= i < |digits| ==> s[i] == digits[i];
    assert forall i :: 0 <= i < n ==> s[i] == s[..n][i];
    assert rest != "" ==> s[|digits|] == rest[0];
  }

  /** The executable test accepts exactly the grammar. */
  lemma {:induction false} MatchesExactly(raw: string)
    ensures MatchesDecimal(raw) <==> IsPlain(raw)
    ensures MatchesDecimal(raw) ==> Denotes(raw, WholePart(raw), FracPart(raw))
  {
    if MatchesDecimal(raw) {
      var n := DigitRun(raw);
      var rest := raw[n..];
      assert raw == raw[..n] + rest;
      PointAtOf(raw[..n], rest);
      if n < |raw| {
        var frac := raw[n + 1..];
        assert frac[..|frac|] == frac;
        PointAtOf(frac, "");
        assert frac + "" == frac;
        assert raw == raw[..n] + "." + frac;
      }
      assert Denotes(raw, WholePart(raw), FracPart(raw));
    }
    forall whole, frac | Denotes(raw, whole, frac)
      ensures MatchesDecimal(raw)
    {
      PlainParts(raw, whole, frac);
    }
  }

  /** Each plain decimal text has one reading, and splitting finds it. */
  lemma {:induction false} PlainParts(raw: string, whole: string, frac: string)
    requires Denotes(raw, whole, frac)
    ensures MatchesDecimal(raw)
    ensures WholePart(raw) == whole && FracPart(raw) == frac
    ensures DigitRun(raw) == |whole|
  {
    var rest := if frac == "" then "" else "." + frac;
    assert raw == whole + rest;
    DigitRunOf(whole, rest);
    PointAtOf(whole, rest);
    if frac != "" {
      assert raw[|whole| + 1..] == frac;
      assert frac + "" == frac;
      DigitRunOf(frac, "");
      PointAtOf(frac, "");
    }
  }
}
