/**
 The texts that Number reads, written out as a grammar of their own: white space, signs, fractions, exponents, the three
 radix prefixes and Infinity. Every other text is NaN.
 */
module Numerals {
  import opened Digits
  import opened DecimalText
  import opened JsNumber
  import opened AtomicUnits
  import opened Options

  // ----- white space -----

  /** The white space and line terminators of sections 12.2 and 12.3 of ECMA-262. */
  const WHITE_SPACE: string :=
    "\t\n\U{000B}\U{000C}\r \U{00A0}\U{1680}\U{2000}\U{2001}\U{2002}\U{2003}\U{2004}\U{2005}\U{2006}\U{2007}"
    + "\U{2008}\U{2009}\U{200A}\U{2028}\U{2029}\U{202F}\U{205F}\U{3000}\U{FEFF}"

  lemma SpaceListed(c: char)
    ensures IsSpace(c) <==> c in WHITE_SPACE
  {
  }

  predicate Blank(s: string) {
    forall i :: 0 <= i < |s| ==> s[i] in WHITE_SPACE
  }

  /** No white space at either end. */
  predicate Tight(t: string) {
    t == "" || (t[0] !in WHITE_SPACE && t[|t| - 1] !in WHITE_SPACE)
  }

  lemma {:induction false} TrimStartOf(pre: string, t: string)
    requires Blank(pre) && (t == "" || t[0] !in WHITE_SPACE)
    ensures TrimStart(pre + t) == t
  {
    hide WHITE_SPACE, IsSpace;
    if pre == "" {
      assert pre + t == t;
      if t != "" { SpaceListed(t[0]); }
    } else {
      SpaceListed(pre[0]);
      assert (pre + t)[1..] == pre[1..] + t;
      TrimStartOf(pre[1..], t);
    }
  }

  lemma {:induction false} TrimEndOf(t: string, post: string)
    requires Blank(post) && (t == "" || t[|t| - 1] !in WHITE_SPACE)
    ensures TrimEnd(t + post) == t
  {
    hide WHITE_SPACE, IsSpace;
    if post == "" {
      assert t + post == t;
      if t != "" { SpaceListed(t[|t| - 1]); }
    } else {
      var n := |post| - 1;
      SpaceListed(post[n]);
      assert (t + post)[..|t| + n] == t + post[..n];
      TrimEndOf(t, post[..n]);
    }
  }

  /** Trim takes away exactly the white space around a text. */
  lemma {:induction false} TrimOf(pre: string, t: string, post: string)
    requires Blank(pre) && Blank(post) && Tight(t)
    ensures Trim(pre + (t + post)) == t
  {
    hide WHITE_SPACE, TrimStart, TrimEnd;
    if t == "" {
      assert pre + (t + post) == pre + post + "";
      TrimStartOf(pre + post, "");
      TrimEndOf("", "");
      assert "" + "" == "";
    } else {
      TrimStartOf(pre, t + post);
      TrimEndOf(t, post);
    }
  }

  lemma TrimTight(t: string)
    requires Tight(t)
    ensures Trim(t) == t
  {
    hide WHITE_SPACE, Trim, Tight;
    assert "" + (t + "") == t;
    TrimOf("", t, "");
  }

  /** White space around an amount changes nothing, for the parser and for Number. */
  lemma {:induction false} SpaceIgnored(pre: string, t: string, post: string, decimals: nat)
    requires Blank(pre) && Blank(post) && Tight(t)
    ensures DecimalToAtomic(pre + (t + post), decimals) == DecimalToAtomic(t, decimals)
    ensures NumberOf(pre + (t + post)) == NumberOf(t)
  {
    TrimOf(pre, t, post);
    TrimTight(t);
    hide Trim, UnsignedDecimal, RadixValue, MatchesDecimal, Combine, NatToString, WHITE_SPACE;
  }

  // ----- decimal numerals -----

  datatype ExponentPart = ExponentPart(letter: char, sign: string, digits: string) {
    predicate WellFormed() {
      (letter == 'e' || letter == 'E') && IsSign(sign) && digits != "" && AllDigits(digits)
    }

    function Text(): string {
      [letter] + (sign + digits)
    }

    function Power(): int
      requires WellFormed()
    {
      if sign == "-" then -(ValueOf(digits) as int) else ValueOf(digits)
    }
  }

  predicate IsSign(s: string) {
    s == "" || s == "+" || s == "-"
  }

  /** A decimal numeral: digits before or after an optional point, and an optional exponent. */
  datatype Numeral = Numeral(sign: string, whole: string, point: bool, frac: string, exponent: Option<ExponentPart>) {
    predicate WellFormed() {
      && IsSign(sign)
      && AllDigits(whole) && AllDigits(frac) && (whole != "" || frac != "") && (frac != "" ==> point)
      && (exponent.Some? ==> exponent.value.WellFormed())
    }

    function ExponentText(): string {
      if exponent.Some? then exponent.value.Text() else ""
    }

    function Unsigned(): string {
      whole + ((if point then "." + frac else "") + ExponentText())
    }

    function Text(): string {
      sign + Unsigned()
    }

    function Power(): int
      requires WellFormed()
    {
      if exponent.Some? then exponent.value.Power() else 0
    }

    /** The digits as one number, moved by the exponent less the digits after the point. */
    function Value(): real
      requires WellFormed()
    {
      var m := Scale(Written(whole, frac).units as real, Power() - |frac|);
      if sign == "-" then -m else m
    }
  }

  lemma {:induction false} ExponentOfPart(e: ExponentPart)
    requires e.WellFormed()
    ensures Exponent(e.Text()) == Some(e.Power())
  {
    hide ValueOf, DigitRun;
    var text := e.Text();
    assert text[0] == e.letter;
    assert e.digits + "" == e.digits;
    DigitRunOf(e.digits, "");
    if e.sign == "" {
      assert text[1..] == e.digits && text[1] == e.digits[0];
    } else {
      assert text[1] == e.sign[0] && text[2..] == e.digits;
    }
  }

  lemma {:induction false} ExponentOfNumeral(n: Numeral)
    requires n.WellFormed()
    ensures Exponent(n.ExponentText()) == Some(n.Power())
    ensures n.ExponentText() != "" ==> n.ExponentText()[0] == 'e' || n.ExponentText()[0] == 'E'
  {
    if n.exponent.Some? {
      hide Exponent, ExponentPart.Power;
      ExponentOfPart(n.exponent.value);
    }
  }

  lemma PointCut(whole: string, rest: string)
    ensures var s, k := whole + ("." + rest), |whole|;
            && k < |s| && s[..k] == whole && s[k] == '.' && s[k + 1..] == rest
            && s[0] == (if whole != "" then whole[0] else '.')
  {
  }

  lemma EndCut(frac: string, e: string)
    ensures var rest := frac + e; rest[..|frac|] == frac && rest[|frac|..] == e
  {
  }

  lemma NotInfinity(s: string)
    requires s != "" && s[0] != 'I'
    ensures s != "Infinity"
  {
  }

  lemma {:induction false} UnsignedPointed(whole: string, frac: string, e: string)
    requires AllDigits(whole) && AllDigits(frac) && (whole != "" || frac != "") && Exponent(e).Some?
    requires e != "" ==> !IsDigit(e[0])
    ensures UnsignedDecimal(whole + ("." + (frac + e)))
         == Finite(Scale(Written(whole, frac).units as real, Exponent(e).value - |frac|))
  {
    hide DigitRun, Scale, Exponent, ValueOf, Written;
    var rest := frac + e;
    var s := whole + ("." + rest);
    DigitRunOf(whole, "." + rest);
    DigitRunOf(frac, e);
    PointCut(whole, rest);
    EndCut(frac, e);
    NotInfinity(s);
  }

  lemma {:induction false} UnsignedWhole(whole: string, e: string)
    requires AllDigits(whole) && whole != "" && Exponent(e).Some?
    requires e != "" ==> e[0] == 'e' || e[0] == 'E'
    ensures UnsignedDecimal(whole + e) == Finite(Scale(Written(whole, "").units as real, Exponent(e).value))
  {
    hide DigitRun, Scale, Exponent, ValueOf, Written;
    var s, k := whole + e, |whole|;
    DigitRunOf(whole, e);
    assert s[..k] == whole && s[k..] == e && e[..0] == "" && e[0..] == e;
    assert s[0] == whole[0];
  }

  lemma {:induction false} UnsignedNumeral(n: Numeral)
    requires n.WellFormed()
    ensures UnsignedDecimal(n.Unsigned()) == Finite(Scale(Written(n.whole, n.frac).units as real, n.Power() - |n.frac|))
  {
    hide UnsignedDecimal, Scale, Exponent, Numeral.ExponentText, Numeral.Power, Written;
    var e := n.ExponentText();
    ExponentOfNumeral(n);
    if n.point {
      assert "." + n.frac + e == "." + (n.frac + e);
      UnsignedPointed(n.whole, n.frac, e);
    } else {
      assert "" + e == e;
      UnsignedWhole(n.whole, e);
    }
  }

  /** How a numeral starts and ends. */
  lemma {:induction false} NumeralEnds(n: Numeral)
    requires n.WellFormed()
    ensures var s := n.Unsigned();
            && s != "" && (IsDigit(s[0]) || s[0] == '.')
            && (IsDigit(s[|s| - 1]) || s[|s| - 1] == '.')
            && (|s| > 1 ==> RadixOf(s[1]) == 0 || s[0] != '0')
  {
    var s, e := n.Unsigned(), n.ExponentText();
    var mid := if n.point then "." + n.frac else "";
    ExponentOfNumeral(n);
    if n.exponent.Some? {
      var digits := n.exponent.value.digits;
      assert e[|e| - 1] == digits[|digits| - 1];
    }
    hide Numeral.ExponentText, Exponent;
    assert s == n.whole + (mid + e);
    assert s[0] == if n.whole != "" then n.whole[0] else '.';
    assert s[|s| - 1] == if e != "" then e[|e| - 1] else if mid != "" then mid[|mid| - 1] else n.whole[|n.whole| - 1];
    if |s| > 1 && n.whole != "" {
      assert s[1] == if |n.whole| > 1 then n.whole[1] else (mid + e)[0];
    }
  }

  lemma DigitsAreTight(c: char)
    requires IsDigit(c) || c == '.' || c == '+' || c == '-'
    ensures c !in WHITE_SPACE
  {
    hide WHITE_SPACE;
    SpaceListed(c);
  }

  lemma {:induction false} NumeralTight(n: Numeral)
    requires n.WellFormed()
    ensures Tight(n.Text())
  {
    hide WHITE_SPACE, Numeral.Unsigned;
    NumeralEnds(n);
    var t := n.Text();
    assert t[0] == if n.sign == "" then n.Unsigned()[0] else n.sign[0];
    assert t[|t| - 1] == n.Unsigned()[|n.Unsigned()| - 1];
    DigitsAreTight(t[0]);
    DigitsAreTight(t[|t| - 1]);
  }

  /** Number reads every numeral, with either sign, letter and missing parts, as exactly its value. */
  lemma {:induction false} NumberOfNumeral(n: Numeral)
    requires n.WellFormed()
    ensures NumberOf(n.Text()) == Finite(n.Value())
  {
    hide Trim, WHITE_SPACE, Tight, UnsignedDecimal, Scale, Written, RadixValue, RadixOf,
      Numeral.Unsigned, Numeral.Power;
    NumeralTight(n);
    TrimTight(n.Text());
    UnsignedNumeral(n);
    NumeralEnds(n);
    var t, s := n.Text(), n.Unsigned();
    if n.sign == "" {
      assert t == s;
    } else {
      assert t[0] == n.sign[0] && t[1..] == s;
    }
  }

  // ----- nothing else is a number -----

  lemma {:induction false} ExponentFrom(e: string) returns (p: ExponentPart)
    requires e != "" && Exponent(e).Some?
    ensures p.WellFormed() && p.Text() == e
  {
    hide ValueOf;
    var signed := |e| > 1 && (e[1] == '+' || e[1] == '-');
    var digits := if signed then e[2..] else e[1..];
    assert digits[..|digits|] == digits;
    p := ExponentPart(e[0], if signed then [e[1]] else "", digits);
  }

  lemma {:induction false} UnsignedParts(s: string) returns (whole: string, point: bool, frac: string, e: string)
    requires UnsignedDecimal(s).Finite?
    ensures AllDigits(whole) && AllDigits(frac) && (whole != "" || frac != "") && (frac != "" ==> point)
    ensures Exponent(e).Some? && s == whole + ((if point then "." + frac else "") + e)
  {
    hide ValueOf, Scale, Exponent, Written, DigitRun;
    var k := DigitRun(s);
    point := k < |s| && s[k] == '.';
    var rest := if point then s[k + 1..] else s[k..];
    var m := if point then DigitRun(rest) else 0;
    whole, frac, e := s[..k], rest[..m], rest[m..];
    Cut(s, k, point, m);
  }

  lemma Cut(s: string, k: nat, point: bool, m: nat)
    requires k <= |s| && (point ==> k < |s| && s[k] == '.' && m <= |s| - k - 1) && (!point ==> m == 0)
    ensures var rest := if point then s[k + 1..] else s[k..];
            s == s[..k] + ((if point then "." + rest[..m] else "") + rest[m..])
  {
    var rest := if point then s[k + 1..] else s[k..];
    if point {
      assert "." + rest[..m] + rest[m..] == "." + rest == s[k..];
    } else {
      assert "" + rest[m..] == rest;
    }
  }

  lemma {:induction false} NumeralFrom(s: string) returns (n: Numeral)
    requires UnsignedDecimal(s).Finite?
    ensures n.WellFormed() && n.sign == "" && n.Unsigned() == s
  {
    hide UnsignedDecimal, Exponent, ExponentPart.Text;
    var whole, point, frac, e := UnsignedParts(s);
    var exponent := None;
    if e != "" {
      var p := ExponentFrom(e);
      exponent := Some(p);
    }
    n := Numeral("", whole, point, frac, exponent);
  }

  ghost predicate IsNumeral(s: string) {
    exists n: Numeral :: n.WellFormed() && n.Text() == s
  }

  predicate IsInfinity(s: string) {
    s == "Infinity" || s == "+Infinity" || s == "-Infinity"
  }

  predicate Over(s: string, alphabet: string) {
    forall i :: 0 <= i < |s| ==> s[i] in alphabet
  }

  const LOWER: string := "0123456789abcdef"
  const UPPER: string := "0123456789ABCDEF"
  const OCTAL: string := "01234567"
  const BINARY: string := "01"

  /** A prefix 0x, 0o or 0b in either case, and at least one digit of that radix. */
  predicate IsRadix(s: string) {
    && |s| > 2 && s[0] == '0'
    && (|| (s[1] in "xX" && Over(s[2..], LOWER + UPPER))
        || (s[1] in "oO" && Over(s[2..], OCTAL))
        || (s[1] in "bB" && Over(s[2..], BINARY)))
  }

  lemma HexListed(c: char)
    ensures IsHex(c) <==> c in LOWER + UPPER
    ensures IsHex(c) && HexValue(c) < 8 <==> c in OCTAL
    ensures IsHex(c) && HexValue(c) < 2 <==> c in BINARY
  {
  }

  lemma HexAt(d: nat)
    requires d < 16
    ensures IsHex(LOWER[d]) && HexValue(LOWER[d]) == d
    ensures IsHex(UPPER[d]) && HexValue(UPPER[d]) == d
  {
  }

  lemma {:induction false} RadixListed(s: string)
    ensures IsRadix(s) <==> |s| > 2 && s[0] == '0' && RadixOf(s[1]) != 0 && AllInRadix(s[2..], RadixOf(s[1]))
  {
    hide LOWER, UPPER, OCTAL, BINARY;
    if |s| > 2 {
      var digits := s[2..];
      forall i | 0 <= i < |digits|
        ensures IsHex(digits[i]) <==> digits[i] in LOWER + UPPER
        ensures IsHex(digits[i]) && HexValue(digits[i]) < 8 <==> digits[i] in OCTAL
        ensures IsHex(digits[i]) && HexValue(digits[i]) < 2 <==> digits[i] in BINARY
      {
        HexListed(digits[i]);
      }
    }
  }

  lemma InfinityText(s: string)
    requires IsInfinity(s)
    ensures Tight(s) && NumberOf(s) == Infinite(s == "-Infinity")
  {
    assert Tight(s) by {
      SpaceListed(s[0]);
      SpaceListed('y');
      hide WHITE_SPACE;
    }
    hide WHITE_SPACE, Tight, Trim;
    TrimTight(s);
    assert "+Infinity"[1..] == "Infinity" && "-Infinity"[1..] == "Infinity";
  }

  /** The value of a finite number text comes from a numeral with or without sign. */
  lemma {:induction false} SignedFrom(s: string)
    requires s != "" && (s[0] == '+' || s[0] == '-')
    requires UnsignedDecimal(s[1..]).Finite?
    ensures IsNumeral(s)
  {
    hide UnsignedDecimal, Numeral.Unsigned;
    var n := NumeralFrom(s[1..]);
    var signed := n.(sign := [s[0]]);
    assert signed.Unsigned() == n.Unsigned() by { SameUnsigned(n, signed); }
    assert signed.WellFormed() && signed.Text() == s;
  }

  lemma SameUnsigned(n: Numeral, m: Numeral)
    requires m == n.(sign := m.sign)
    ensures m.Unsigned() == n.Unsigned()
  {
  }

  lemma {:induction false} UnsignedFrom(s: string)
    requires UnsignedDecimal(s).Finite?
    ensures IsNumeral(s)
  {
    hide UnsignedDecimal, Numeral.Unsigned;
    var n := NumeralFrom(s);
    assert n.Text() == s;
  }

  lemma {:induction false} TrimStartTight(s: string)
    ensures TrimStart(s) == "" || TrimStart(s)[0] !in WHITE_SPACE
  {
    hide WHITE_SPACE, IsSpace;
    if s != "" {
      SpaceListed(s[0]);
      TrimStartTight(s[1..]);
    }
  }

  lemma {:induction false} TrimEndTight(s: string)
    ensures TrimEnd(s) <= s
    ensures TrimEnd(s) == "" || TrimEnd(s)[|TrimEnd(s)| - 1] !in WHITE_SPACE
  {
    hide WHITE_SPACE, IsSpace;
    if s != "" {
      SpaceListed(s[|s| - 1]);
      TrimEndTight(s[..|s| - 1]);
    }
  }

  /** Nothing is left to trim, so Number sees the same text. */
  lemma {:induction false} TrimOnce(text: string)
    ensures Tight(Trim(text)) && Trim(Trim(text)) == Trim(text)
    ensures NumberOf(text) == NumberOf(Trim(text))
  {
    hide WHITE_SPACE, TrimStart, TrimEnd, UnsignedDecimal, RadixValue;
    TrimStartTight(text);
    TrimEndTight(TrimStart(text));
    TrimTight(Trim(text));
  }

  lemma {:induction false} NotInfinite(s: string)
    ensures UnsignedDecimal(s).Infinite? <==> s == "Infinity"
    ensures UnsignedDecimal(s).Infinite? ==> UnsignedDecimal(s) == Infinite(false)
  {
    hide DigitRun, Exponent, Scale, ValueOf;
  }

  lemma {:induction false} NumberIsListed(s: string)
    requires Trim(s) == s && s != "" && NumberOf(s) != NaN
    ensures IsInfinity(s) || IsRadix(s) || IsNumeral(s)
    ensures NumberOf(s).Infinite? ==> IsInfinity(s)
  {
    hide Trim, UnsignedDecimal, RadixValue, IsNumeral, IsRadix, AllInRadix;
    RadixListed(s);
    NotInfinite(s);
    NotInfinite(s[1..]);
    if |s| > 1 && s[0] == '0' && RadixOf(s[1]) != 0 {
    } else if s[0] == '-' || s[0] == '+' {
      assert s == [s[0]] + s[1..];
      if UnsignedDecimal(s[1..]).Finite? { SignedFrom(s); }
    } else if UnsignedDecimal(s).Finite? {
      UnsignedFrom(s);
    }
  }

  lemma {:induction false} ListedIsNumber(s: string)
    requires Trim(s) == s && (s == "" || IsInfinity(s) || IsRadix(s) || IsNumeral(s))
    ensures NumberOf(s) != NaN
    ensures IsInfinity(s) ==> NumberOf(s).Infinite?
    ensures s == "" ==> NumberOf(s) == Finite(0.0)
  {
    if IsInfinity(s) {
      InfinityText(s);
    } else if IsRadix(s) {
      hide Trim, UnsignedDecimal, RadixValue;
      RadixListed(s);
    } else if IsNumeral(s) {
      var n: Numeral :| n.WellFormed() && n.Text() == s;
      NumberOfNumeral(n);
    }
  }

  /** Number is NaN exactly on the texts that are none of these after trimming. */
  lemma {:induction false} NumberTextsExactly(text: string)
    ensures NumberOf(text) != NaN <==>
            var s := Trim(text); s == "" || IsInfinity(s) || IsRadix(s) || IsNumeral(s)
    ensures NumberOf(text).Infinite? <==> IsInfinity(Trim(text))
  {
    hide NumberOf, Trim, IsRadix, IsNumeral, IsInfinity;
    var s := Trim(text);
    TrimOnce(text);
    if s != "" && NumberOf(s) != NaN { NumberIsListed(s); }
    if s == "" || IsInfinity(s) || IsRadix(s) || IsNumeral(s) { ListedIsNumber(s); }
  }

  // ----- digits of another radix -----

  predicate IsBase(radix: nat) {
    radix == 16 || radix == 8 || radix == 2
  }

  lemma Divided(n: nat, radix: nat)
    requires IsBase(radix)
    ensures n >= radix ==> n / radix < n
    ensures n % radix < radix && n / radix * radix + n % radix == n
    ensures n < radix ==> n % radix == n
  {
    if radix == 16 {
    } else if radix == 8 {
    } else {
    }
  }

  function InRadix(n: nat, radix: nat, alphabet: string): string
    requires IsBase(radix) && radix <= |alphabet|
    decreases n
  {
    Divided(n, radix);
    if n < radix then [alphabet[n]] else InRadix(n / radix, radix, alphabet) + [alphabet[n % radix]]
  }

  lemma InRadixStep(n: nat, radix: nat, alphabet: string)
    requires IsBase(radix) && radix <= |alphabet|
    ensures n % radix < radix
    ensures n < radix ==> InRadix(n, radix, alphabet) == [alphabet[n]]
    ensures n >= radix ==> InRadix(n, radix, alphabet) == InRadix(n / radix, radix, alphabet) + [alphabet[n % radix]]
  {
    Divided(n, radix);
  }

  lemma {:induction false} RadixDigits(n: nat, radix: nat, alphabet: string)
    requires IsBase(radix) && (alphabet == LOWER || alphabet == UPPER)
    ensures |alphabet| == 16
    ensures var s := InRadix(n, radix, alphabet);
            s != "" && AllInRadix(s, radix) && RadixValue(s, radix) == n
    decreases n
  {
    hide LOWER, UPPER, HexValue, InRadix, RadixValue, AllInRadix;
    SixteenDigits();
    Divided(n, radix);
    InRadixStep(n, radix, alphabet);
    HexAt(n % radix);
    if n >= radix {
      RadixDigits(n / radix, radix, alphabet);
      RadixSnoc(InRadix(n / radix, radix, alphabet), alphabet[n % radix], radix);
    } else {
      NoRadixDigits(radix);
      RadixSnoc("", alphabet[n], radix);
      assert "" + [alphabet[n]] == [alphabet[n]];
    }
  }

  lemma NoRadixDigits(radix: nat)
    ensures AllInRadix("", radix) && RadixValue("", radix) == 0
  {
  }

  lemma RadixSnoc(front: string, last: char, radix: nat)
    requires AllInRadix(front, radix) && IsHex(last) && HexValue(last) < radix
    ensures AllInRadix(front + [last], radix)
    ensures RadixValue(front + [last], radix) == RadixValue(front, radix) * radix + HexValue(last)
  {
    var s := front + [last];
    assert s[..|s| - 1] == front;
  }

  lemma SixteenDigits()
    ensures |LOWER| == 16 && |UPPER| == 16
  {
  }

  /** Number reads the digits of n after 0x, 0o or 0b, in either case, as n. */
  lemma {:induction false} RadixReadsBack(n: nat, prefix: char, alphabet: string)
    requires prefix in "xXoObB" && (alphabet == LOWER || alphabet == UPPER)
    ensures |alphabet| == 16
    ensures var radix := if prefix in "xX" then 16 else if prefix in "oO" then 8 else 2;
            NumberOf(['0', prefix] + InRadix(n, radix, alphabet)) == Finite(n as real)
  {
    hide LOWER, UPPER, InRadix, RadixValue, AllInRadix, NumberOf;
    SixteenDigits();
    var radix := if prefix in "xX" then 16 else if prefix in "oO" then 8 else 2;
    RadixDigits(n, radix, alphabet);
    NumberOfRadix(prefix, InRadix(n, radix, alphabet));
  }

  lemma {:induction false} NumberOfRadix(prefix: char, digits: string)
    requires RadixOf(prefix) != 0 && digits != "" && AllInRadix(digits, RadixOf(prefix))
    ensures NumberOf(['0', prefix] + digits) == Finite(RadixValue(digits, RadixOf(prefix)) as real)
  {
    var text := ['0', prefix] + digits;
    assert text[2..] == digits;
    assert text[|text| - 1] == digits[|digits| - 1];
    HexIsTight(text[|text| - 1]);
    HexIsTight('0');
    hide RadixValue, Trim, WHITE_SPACE, UnsignedDecimal;
    TrimTight(text);
  }

  lemma HexIsTight(c: char)
    requires IsHex(c)
    ensures c !in WHITE_SPACE
  {
    hide WHITE_SPACE;
    SpaceListed(c);
  }

  // ----- the parser on every text -----

  /** The numerals of the plain form that the amount parser accepts. */
  predicate PlainForm(n: Numeral) {
    n.sign == "" && n.whole != "" && (n.point ==> n.frac != "") && n.exponent.None?
  }

  lemma PlainText(n: Numeral)
    requires n.WellFormed() && PlainForm(n)
    ensures n.Text() == if n.frac == "" then n.whole else n.whole + "." + n.frac
  {
    assert "" + n.Unsigned() == n.Unsigned();
    if n.point {
      assert n.Unsigned() == n.whole + ("." + n.frac + "") == n.whole + "." + n.frac;
    } else {
      assert n.Unsigned() == n.whole + ("" + "") == n.whole;
    }
  }

  lemma {:induction false} PlainDenotes(n: Numeral)
    requires n.WellFormed()
    ensures PlainForm(n) ==> Denotes(n.Text(), n.whole, n.frac)
    ensures !PlainForm(n) ==> !IsPlain(n.Text())
  {
    hide Numeral.Text, Numeral.Unsigned, IsPlain, OddAt;
    if PlainForm(n) {
      PlainText(n);
    } else {
      var i := OddCharacter(n);
      OddIsNotPlain(n.Text(), i);
    }
  }

  lemma {:induction false} OddIsNotPlain(t: string, i: nat)
    requires i < |t| && OddAt(t, i)
    ensures !IsPlain(t)
  {
    forall whole, frac | Denotes(t, whole, frac)
      ensures false
    {
      PlainCharacters(t, whole, frac);
    }
  }

  lemma PlainCharacters(t: string, whole: string, frac: string)
    requires Denotes(t, whole, frac)
    ensures t != "" && IsDigit(t[0]) && IsDigit(t[|t| - 1]) && forall i :: 0 <= i < |t| ==> IsDigit(t[i]) || t[i] == '.'
  {
    assert t[0] == whole[0];
    assert t[|t| - 1] == if frac == "" then whole[|whole| - 1] else frac[|frac| - 1];
  }

  /** A character that no plain decimal has at that place. */
  predicate OddAt(t: string, i: nat)
    requires i < |t|
  {
    !IsDigit(t[i]) && (t[i] != '.' || i == 0 || i == |t| - 1)
  }

  lemma {:induction false} OddUnsigned(whole: string, mid: string, e: string) returns (i: nat)
    requires mid != "" ==> mid[0] == '.'
    requires e != "" ==> e[0] == 'e' || e[0] == 'E'
    requires e != "" || (whole == "" && mid != "") || mid == "."
    ensures var t := whole + (mid + e); i < |t| && OddAt(t, i)
  {
    var t := whole + (mid + e);
    if e != "" {
      i := |whole| + |mid|;
      assert t[i] == e[0];
    } else if whole == "" {
      i := 0;
      assert t[i] == mid[0];
    } else {
      i := |whole|;
      assert t[i] == mid[0] && |t| == i + 1;
    }
  }

  lemma {:induction false} OddCharacter(n: Numeral) returns (i: nat)
    requires n.WellFormed() && !PlainForm(n)
    ensures i < |n.Text()| && OddAt(n.Text(), i)
  {
    var t := n.Text();
    if n.sign != "" {
      i := 0;
      assert t[0] == n.sign[0];
    } else {
      assert t == n.Unsigned();
      ExponentOfNumeral(n);
      assert n.exponent.Some? ==> n.ExponentText() != "";
      hide Exponent, Numeral.ExponentText, OddAt;
      i := OddUnsigned(n.whole, if n.point then "." + n.frac else "", n.ExponentText());
    }
  }

  /** A text that is no plain decimal is refused, as not positive or as malformed. */
  lemma {:induction false} ParseOther(text: string, decimals: nat)
    requires text != "" && Trim(text) == text && !IsPlain(text)
    ensures DecimalToAtomic(text, decimals) == Err(if NumberOf(text).NotPositive() then NotPositive else Malformed)
  {
    hide Trim, NumberOf, MatchesDecimal, IsPlain;
    MatchesExactly(text);
  }

  /** What the amount parser answers on every numeral, with the error it picks. */
  lemma {:induction false} ParseNumeral(n: Numeral, decimals: nat)
    requires n.WellFormed()
    ensures DecimalToAtomic(n.Text(), decimals) ==
            if n.Value() <= 0.0 then Err(NotPositive)
            else if !PlainForm(n) then Err(Malformed)
            else if |n.frac| > decimals then Err(TooManyPlaces)
            else Ok(NatToString(Shift(Written(n.whole, n.frac).units, decimals - |n.frac|)))
  {
    hide DecimalToAtomic, NumberOf, Trim, Numeral.Text, Numeral.Value, Written, NatToString, Shift, Decimal.Value,
      Tight, WHITE_SPACE, IsPlain, Denotes;
    var t := n.Text();
    NumeralTight(n);
    TrimTight(t);
    NumberOfNumeral(n);
    PlainDenotes(n);
    if PlainForm(n) {
      ParsePlain(t, decimals, n.whole, n.frac);
      NumberOfPlain(t, n.whole, n.frac);
      PositiveValue(Written(n.whole, n.frac));
    } else {
      TextNotEmpty(n);
      ParseOther(t, decimals);
    }
  }

  lemma TextNotEmpty(n: Numeral)
    requires n.WellFormed()
    ensures n.Text() != ""
  {
    hide Numeral.Unsigned;
    NumeralEnds(n);
  }

  /** And on every text that is not one: no answer is ever given. */
  lemma {:induction false} ParseOtherTexts(text: string, decimals: nat)
    requires !IsNumeral(Trim(text))
    ensures DecimalToAtomic(text, decimals) ==
            Err(if Trim(text) == "" || Trim(text) == "-Infinity" then NotPositive
                else if IsRadix(Trim(text)) && NumberOf(text) == Finite(0.0) then NotPositive
                else Malformed)
  {
    hide NumberOf, Trim, IsNumeral, IsRadix, MatchesDecimal, IsPlain;
    var s := Trim(text);
    TrimOnce(text);
    NumberTextsExactly(text);
    MatchesExactly(s);
    PlainIsNumeral(s);
    if IsInfinity(s) { InfinityText(s); }
    if s != "" && IsRadix(s) { RadixIsNatural(s); }
  }

  lemma {:induction false} PlainIsNumeral(s: string)
    ensures IsPlain(s) ==> IsNumeral(s)
  {
    if IsPlain(s) {
      var whole, frac :| Denotes(s, whole, frac);
      var n := Numeral("", whole, frac != "", frac, None);
      assert n.WellFormed() && PlainForm(n);
      PlainDenotes(n);
      assert n.Text() == s;
    }
  }

  lemma RadixIsNatural(s: string)
    requires IsRadix(s) && Trim(s) == s
    ensures NumberOf(s).Finite? && NumberOf(s).value >= 0.0
  {
    hide Trim, IsRadix, RadixValue, UnsignedDecimal;
    RadixListed(s);
  }
}
