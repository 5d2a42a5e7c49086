/**
 Adjacent C++ string literals, read by the rules of ISO C++17: lines that end in a backslash are spliced first
 (phase 2 of section 5.2), then escapes are read with maximal munch (section 5.13.3), and adjacent literals are
 concatenated after their escapes are decoded (phases 5 and 6).
 Bytes are characters below 256. Universal character names and literal prefixes are not covered.
 */
module CppLiteral {
  import opened Digits
  import opened Options
  import opened Sequences

  type Byte = c: char | c as int < 256

  predicate AllBytes(s: string) {
    forall i :: 0 <= i < |s| ==> s[i] as int < 256
  }

  function HexChar(d: nat): (c: char)
    requires d < 16
    ensures IsHex(c) && HexValue(c) == d
  {
    if d < 10 then ('0' as int + d) as char else ('a' as int + d - 10) as char
  }

  predicate IsOctal(c: char) {
    '0' <= c <= '7'
  }

  predicate IsBlank(c: char) {
    c == ' ' || c == '\n' || c == '\t' || c == '\r' || c == '\U{000B}' || c == '\U{000C}'
  }

  /** The character a simple escape stands for. */
  function SimpleEscape(c: char): Option<Byte> {
    match c
    case 'n' => Some('\n')
    case 't' => Some('\t')
    case 'r' => Some('\r')
    case 'a' => Some('\U{0007}')
    case 'b' => Some('\U{0008}')
    case 'v' => Some('\U{000B}')
    case 'f' => Some('\U{000C}')
    case '\\' => Some('\\')
    case '"' => Some('"')
    case '\'' => Some('\'')
    case '?' => Some('?')
    case _ => None
  }

  /** Where the lexer stands: between literals, inside one, or inside an escape sequence. */
  datatype Mode =
    | Between
    | Inside
    | Escaped
    | Hex(digits: nat, value: nat)
    | Octal(digits: nat, value: nat)

  /** The mode of a numeric escape, which ends without consuming the next character. */
  predicate Numeric(mode: Mode) {
    mode.Hex? || mode.Octal?
  }

  /**
   The bytes of the literals at the start of the text, appended to acc, and the text after them.
   A newline or the end of the text inside a literal, and a number above 255, are ill-formed.
   */
  function Lex(mode: Mode, acc: seq<Byte>, text: string): Option<(seq<Byte>, string)>
    decreases |text|, Numeric(mode)
  {
    if text == "" then (if mode.Between? then Some((acc, text)) else None)
    else
      var c, rest := text[0], text[1..];
      match mode
      case Between =>
        if IsBlank(c) then Lex(Between, acc, rest)
        else if c == '"' then Lex(Inside, acc, rest)
        else Some((acc, text))
      case Inside =>
        if c == '"' then Lex(Between, acc, rest)
        else if c == '\\' then Lex(Escaped, acc, rest)
        else if c == '\n' || c as int >= 256 then None
        else Lex(Inside, acc + [c], rest)
      case Escaped =>
        if c == 'x' then Lex(Hex(0, 0), acc, rest)
        else if IsOctal(c) then Lex(Octal(1, DigitValue(c)), acc, rest)
        else if SimpleEscape(c).Some? then Lex(Inside, acc + [SimpleEscape(c).value], rest)
        else None
      case Hex(digits, value) =>
        if IsHex(c) then Lex(Hex(digits + 1, value * 16 + HexValue(c)), acc, rest)
        else if digits == 0 || value >= 256 then None
        else Lex(Inside, acc + [value as char], text)
      case Octal(digits, value) =>
        if digits < 3 && IsOctal(c) then Lex(Octal(digits + 1, value * 8 + DigitValue(c)), acc, rest)
        else if value >= 256 then None
        else Lex(Inside, acc + [value as char], text)
  }

  // ----- line splicing -----

  /** The text without each backslash that ends a line and the newline after it. */
  function Splice(text: string): string {
    if text == "" then ""
    else if SplicesHere(text) then Splice(text[2..])
    else [text[0]] + Splice(text[1..])
  }

  /** No line break is spliced where the two texts meet. */
  predicate Apart(a: string, b: string) {
    a == "" || b == "" || a[|a| - 1] != '\\' || b[0] != '\n'
  }

  /** A line that ends in a backslash is spliced at the start of the text. */
  predicate SplicesHere(text: string) {
    |text| > 1 && text[0] == '\\' && text[1] == '\n'
  }

  lemma SpliceStep(text: string)
    ensures text == "" ==> Splice(text) == ""
    ensures SplicesHere(text) ==> Splice(text) == Splice(text[2..])
    ensures text != "" && !SplicesHere(text) ==> Splice(text) == [text[0]] + Splice(text[1..])
  {
  }

  lemma SpliceMeets(a: string, b: string)
    requires a != "" && Apart(a, b)
    ensures SplicesHere(a + b) <==> SplicesHere(a)
    ensures SplicesHere(a) ==> (a + b)[2..] == a[2..] + b
    ensures (a + b)[0] == a[0] && (a + b)[1..] == a[1..] + b
  {
  }

  lemma {:induction false} SpliceConcat(a: string, b: string)
    requires Apart(a, b)
    ensures Splice(a + b) == Splice(a) + Splice(b)
    decreases |a|
  {
    hide Splice;
    SpliceStep(a);
    SpliceStep(a + b);
    if a == "" {
      assert a + b == b;
    } else {
      SpliceMeets(a, b);
      hide SplicesHere;
      if SplicesHere(a) {
        SpliceConcat(a[2..], b);
      } else {
        SpliceConcat(a[1..], b);
        assert [a[0]] + (Splice(a[1..]) + Splice(b)) == [a[0]] + Splice(a[1..]) + Splice(b);
      }
    }
  }

  predicate NoBackslash(text: string) {
    forall i :: 0 <= i < |text| ==> text[i] != '\\'
  }

  lemma {:induction false} NothingToSplice(text: string)
    requires NoBackslash(text)
    ensures Splice(text) == text
  {
    if text != "" { NothingToSplice(text[1..]); }
  }

  /** Splicing either shortens a text or leaves it as it is. */
  lemma {:induction false} SpliceShortens(text: string)
    ensures AllBytes(text) ==> AllBytes(Splice(text))
    ensures |Splice(text)| <= |text|
    ensures |Splice(text)| == |text| ==> Splice(text) == text
    decreases |text|
  {
    if |text| > 1 && text[0] == '\\' && text[1] == '\n' {
      SpliceShortens(text[2..]);
    } else if text != "" {
      SpliceShortens(text[1..]);
    }
  }

  // ----- printing -----

  /** \x%02x of one byte. */
  function HexEscape(b: Byte): string {
    "\\x" + [HexChar(b as int / 16), HexChar(b as int % 16)]
  }

  /** What the loop at translations/generate_translations_header.c:56-64 has printed after these bytes. */
  function Printed(data: seq<Byte>): string {
    if data == [] then ""
    else
      var j := |data| - 1;
      Printed(data[..j]) + LineBreak(j) + HexEscape(data[j])
  }

  /** Every sixteenth byte starts a new literal on a new line. */
  function LineBreak(j: nat): string {
    if j % 16 != 0 then "" else if j > 0 then "\"\n  \"" else "\n  \""
  }

  method PrintBytes(data: seq<Byte>) returns (out: string)
    ensures out == Printed(data)
  {
    hide HexEscape;
    out := "";
    for j := 0 to |data|
      invariant out == Printed(data[..j])
    {
      assert data[..j + 1][..j] == data[..j];
      ghost var before := out;
      if j % 16 == 0 {
        if j > 0 {
          out := out + "\"";
        }
        out := out + "\n  \"";
      }
      assert out == before + LineBreak(j);
      out := out + HexEscape(data[j]);
    }
    assert data[..|data|] == data;
  }

  const HEX: string := "0123456789abcdef"

  lemma EscapeDigits(b: Byte)
    ensures HexEscape(b) == "\\x" + [HEX[b as int / 16], HEX[b as int % 16]]
  {
    HexCharListed(b as int / 16);
    HexCharListed(b as int % 16);
    hide HexChar, HEX;
  }

  lemma HexCharListed(d: nat)
    requires d < 16
    ensures |HEX| == 16 && HexChar(d) == HEX[d]
  {
  }

  function Escapes(data: seq<Byte>): string {
    if data == [] then "" else Escapes(data[..|data| - 1]) + HexEscape(data[|data| - 1])
  }

  /** Up to sixteen bytes make one literal on its own line. */
  lemma {:induction false} PrintedLine(data: seq<Byte>)
    requires 0 < |data| <= 16
    ensures Printed(data) == "\n  \"" + Escapes(data)
  {
    hide HexEscape;
    var j := |data| - 1;
    var front, last := data[..j], HexEscape(data[j]);
    if j == 0 {
      assert front == [];
      assert Printed(data) == "" + "\n  \"" + last;
    } else {
      PrintedLine(front);
      assert LineBreak(j) == "";
      assert Printed(front) + "" == Printed(front);
      Join("\n  \"", Escapes(front), last);
    }
  }

  /** After sixteen bytes the literal is closed and the rest is printed as if it stood alone. */
  lemma {:induction false} PrintedLines(line: seq<Byte>, rest: seq<Byte>)
    requires |line| == 16 && rest != []
    ensures Printed(line + rest) == Printed(line) + ("\"" + Printed(rest))
    decreases rest
  {
    hide HexEscape, Printed;
    var j := |rest| - 1;
    var front, last := rest[..j], HexEscape(rest[j]);
    PrintedLast(line + rest);
    PrintedLast(rest);
    assert (line + rest)[..16 + j] == line + front && (line + rest)[16 + j] == rest[j];
    if j == 0 {
      assert front == [] && line + front == line;
      PrintedEmpty();
      assert Printed(line) + "\"\n  \"" + last == Printed(line) + ("\"" + ("" + "\n  \"" + last));
    } else {
      PrintedLines(line, front);
      assert LineBreak(16 + j) == LineBreak(j);
      hide LineBreak;
      Join(Printed(line), "\"" + Printed(front), LineBreak(j));
      Join("\"", Printed(front), LineBreak(j));
      Join(Printed(line), "\"" + (Printed(front) + LineBreak(j)), last);
      Join("\"", Printed(front) + LineBreak(j), last);
    }
  }

  lemma {:induction false} PrintedIsNotSpliced(data: seq<Byte>)
    ensures Splice(Printed(data)) == Printed(data)
    ensures Apart(Printed(data), "\n")
  {
    hide Splice, HexEscape, Printed, LineBreak;
    if data == [] {
      PrintedEmpty();
    } else {
      var j := |data| - 1;
      var before, line, escape := Printed(data[..j]), LineBreak(j), HexEscape(data[j]);
      PrintedIsNotSpliced(data[..j]);
      LineBreakIsPlain(j);
      EscapeIsNotSpliced(data[j]);
      PrintedLast(data);
      SpliceConcat(before, line);
      SpliceConcat(before + line, escape);
    }
  }

  lemma PrintedEmpty()
    ensures Printed([]) == "" && Splice("") == ""
  {
  }

  lemma LineBreakIsPlain(j: nat)
    ensures Splice(LineBreak(j)) == LineBreak(j)
  {
    hide Splice;
    NothingToSplice(LineBreak(j));
  }

  lemma PrintedLast(data: seq<Byte>)
    requires data != []
    ensures var j := |data| - 1; Printed(data) == Printed(data[..j]) + LineBreak(j) + HexEscape(data[j])
  {
    hide HexEscape, LineBreak;
  }

  lemma EscapeIsNotSpliced(b: Byte)
    ensures Splice(HexEscape(b)) == HexEscape(b)
    ensures HexEscape(b)[0] == '\\' && |HexEscape(b)| == 4 && HexEscape(b)[3] != '\\'
  {
    var e := HexEscape(b);
    assert NoBackslash(e[1..]);
    NothingToSplice(e[1..]);
    assert e[1] == 'x';
  }

  // ----- reading back what was printed -----

  /** Inside a literal, or with the value of a two-digit escape still pending, the next escape is read whole. */
  lemma {:induction false} LexHexEscape(acc: seq<Byte>, b: Byte, rest: string)
    ensures Lex(Inside, acc, HexEscape(b) + rest) == Lex(Hex(2, b as int), acc, rest)
  {
    var text := HexEscape(b) + rest;
    var hi, lo := HexChar(b as int / 16), HexChar(b as int % 16);
    assert text[0] == '\\' && text[1..] == "x" + [hi, lo] + rest;
    assert text[1..][0] == 'x' && text[1..][1..] == [hi, lo] + rest;
    assert text[1..][1..][0] == hi && text[1..][1..][1..] == [lo] + rest;
    assert ([lo] + rest)[0] == lo && ([lo] + rest)[1..] == rest;
    assert Lex(Inside, acc, text) == Lex(Escaped, acc, text[1..]) == Lex(Hex(0, 0), acc, text[1..][1..]);
    assert Lex(Hex(0, 0), acc, [hi, lo] + rest) == Lex(Hex(1, b as int / 16), acc, [lo] + rest);
  }

  lemma {:induction false} LexPending(acc: seq<Byte>, b: Byte, text: string)
    requires text != "" && !IsHex(text[0])
    ensures Lex(Hex(2, b as int), acc, text) == Lex(Inside, acc + [b], text)
  {
  }

  lemma {:induction false} LexBlank(acc: seq<Byte>, c: char, rest: string)
    requires IsBlank(c)
    ensures Lex(Between, acc, [c] + rest) == Lex(Between, acc, rest)
  {
    assert ([c] + rest)[1..] == rest;
  }

  lemma {:induction false} LexQuote(acc: seq<Byte>, rest: string)
    ensures Lex(Between, acc, "\"" + rest) == Lex(Inside, acc, rest)
    ensures Lex(Inside, acc, "\"" + rest) == Lex(Between, acc, rest)
  {
    assert ("\"" + rest)[1..] == rest;
  }

  lemma {:induction false} LexOpening(acc: seq<Byte>, rest: string)
    ensures Lex(Between, acc, "\n  \"" + rest) == Lex(Inside, acc, rest)
  {
    var quoted := "\"" + rest;
    LexQuote(acc, rest);
    LexBlank(acc, ' ', quoted);
    LexBlank(acc, ' ', [' '] + quoted);
    LexBlank(acc, '\n', [' '] + ([' '] + quoted));
    assert "\n  \"" + rest == ['\n'] + ([' '] + ([' '] + quoted));
  }

  lemma {:induction false} LexLineBreak(acc: seq<Byte>, j: nat, rest: string)
    ensures j % 16 == 0 && j > 0 ==> Lex(Inside, acc, LineBreak(j) + rest) == Lex(Inside, acc, rest)
    ensures j == 0 ==> Lex(Between, acc, LineBreak(j) + rest) == Lex(Inside, acc, rest)
    ensures j % 16 != 0 ==> LineBreak(j) + rest == rest
  {
    hide Lex;
    LexOpening(acc, rest);
    LexQuote(acc, "\n  \"" + rest);
    assert j % 16 == 0 && j > 0 ==> LineBreak(j) + rest == "\"" + ("\n  \"" + rest);
  }

  /** After the loop the last byte is pending and all bytes before it are decoded. */
  lemma {:induction false} LexPrinted(data: seq<Byte>, rest: string)
    requires data != []
    ensures Lex(Between, [], Printed(data) + rest) == Lex(Hex(2, data[|data| - 1] as int), data[..|data| - 1], rest)
  {
    hide Lex, HexEscape, LineBreak, Printed;
    var j := |data| - 1;
    var front, b := data[..j], data[j];
    var tail := HexEscape(b) + rest;
    var next := LineBreak(j) + tail;
    PrintedSplit(data, rest);
    LexLineBreak(front, j, tail);
    LexHexEscape(front, b, rest);
    if j > 0 {
      LexPrinted(front, next);
      StartsEscapeOrQuote(j, b, rest);
      LexPending(front[..j - 1], front[j - 1], next);
      assert front[..j - 1] + [front[j - 1]] == front;
    } else {
      assert front == [];
    }
  }

  lemma {:induction false} PrintedSplit(data: seq<Byte>, rest: string)
    requires data != []
    ensures var j := |data| - 1;
            && Printed(data) + rest == Printed(data[..j]) + (LineBreak(j) + (HexEscape(data[j]) + rest))
            && (j == 0 ==> Printed(data) + rest == LineBreak(j) + (HexEscape(data[j]) + rest))
  {
    hide HexEscape, LineBreak;
    var j := |data| - 1;
    var a, b, c := Printed(data[..j]), LineBreak(j), HexEscape(data[j]);
    assert a + b + c + rest == a + (b + (c + rest));
    assert j == 0 ==> a == "";
  }

  lemma StartsEscapeOrQuote(j: nat, b: Byte, rest: string)
    requires j > 0
    ensures var next := LineBreak(j) + (HexEscape(b) + rest); next != "" && !IsHex(next[0])
  {
  }

  /** Closing the last literal yields exactly the bytes, and the text that follows. */
  lemma {:induction false} LexClosed(data: seq<Byte>, rest: string)
    requires data != []
    requires rest != "" && !IsBlank(rest[0]) && rest[0] != '"'
    ensures Lex(Between, [], Printed(data) + ("\"" + rest)) == Some((data, rest))
  {
    var close := "\"" + rest;
    LexPrinted(data, close);
    var j := |data| - 1;
    LexPending(data[..j], data[j], close);
    assert data[..j] + [data[j]] == data;
    LexQuote(data, rest);
  }

  // ----- names, which are printed without escapes -----

  /** No quote, backslash or newline, and bytes only. */
  predicate CleanName(name: string) {
    AllBytes(name) && '"' !in name && '\\' !in name && '\n' !in name
  }

  lemma {:induction false} LexClean(acc: seq<Byte>, name: string, rest: string)
    requires CleanName(name)
    ensures AllBytes(name) && Lex(Inside, acc, name + rest) == Lex(Inside, acc + name, rest)
    decreases name
  {
    if name == "" {
      assert name + rest == rest && acc + name == acc;
    } else {
      var text := name + rest;
      assert text[0] == name[0] && text[1..] == name[1..] + rest;
      assert name[0] in name && forall c :: c in name[1..] ==> c in name;
      LexClean(acc + [name[0]], name[1..], rest);
      assert acc + [name[0]] + name[1..] == acc + name;
    }
  }

  /** Characters still to come, at least, beyond one per byte: a closing quote, and the first digit of \x. */
  function Owed(mode: Mode): nat {
    match mode
    case Between => 0
    case Inside => 1
    case Escaped => 1
    case Hex(digits, _) => if digits == 0 then 1 else 0
    case Octal(_, _) => 0
  }

  /** A literal never holds more bytes than characters. */
  lemma {:induction false} LexShrinks(mode: Mode, acc: seq<Byte>, text: string)
    ensures var r := Lex(mode, acc, text);
            r.Some? ==>
              && |acc| <= |r.value.0|
              && |r.value.0| - |acc| + Owed(mode) <= |text| - |r.value.1|
              && (mode.Between? && |acc| < |r.value.0| ==> |r.value.0| - |acc| + 2 <= |text| - |r.value.1|)
    decreases |text|, Numeric(mode)
  {
    if text != "" {
      var c, rest := text[0], text[1..];
      match mode
      case Between =>
        if IsBlank(c) { LexShrinks(Between, acc, rest); }
        else if c == '"' { LexShrinks(Inside, acc, rest); }
      case Inside =>
        if c == '"' { LexShrinks(Between, acc, rest); }
        else if c == '\\' { LexShrinks(Escaped, acc, rest); }
        else if c != '\n' && c as int < 256 { LexShrinks(Inside, acc + [c], rest); }
      case Escaped =>
        if c == 'x' { LexShrinks(Hex(0, 0), acc, rest); }
        else if IsOctal(c) { LexShrinks(Octal(1, DigitValue(c)), acc, rest); }
        else if SimpleEscape(c).Some? { LexShrinks(Inside, acc + [SimpleEscape(c).value], rest); }
      case Hex(digits, value) =>
        if IsHex(c) { LexShrinks(Hex(digits + 1, value * 16 + HexValue(c)), acc, rest); }
        else if digits > 0 && value < 256 { LexShrinks(Inside, acc + [value as char], text); }
      case Octal(digits, value) =>
        if digits < 3 && IsOctal(c) { LexShrinks(Octal(digits + 1, value * 8 + DigitValue(c)), acc, rest); }
        else if value < 256 { LexShrinks(Inside, acc + [value as char], text); }
    }
  }

  /** What is left after the literals is the end of the text. */
  lemma {:induction false} LexLeavesSuffix(mode: Mode, acc: seq<Byte>, text: string)
    ensures var r := Lex(mode, acc, text);
            r.Some? ==> IsSuffix(r.value.1, text)
    decreases |text|, Numeric(mode)
  {
    if text != "" {
      var c, rest := text[0], text[1..];
      forall t | IsSuffix(t, rest)
        ensures IsSuffix(t, text)
      {
        SuffixOfRest(t, text);
      }
      match mode
      case Between =>
        if IsBlank(c) { LexLeavesSuffix(Between, acc, rest); }
        else if c == '"' { LexLeavesSuffix(Inside, acc, rest); }
      case Inside =>
        if c == '"' { LexLeavesSuffix(Between, acc, rest); }
        else if c == '\\' { LexLeavesSuffix(Escaped, acc, rest); }
        else if c != '\n' && c as int < 256 { LexLeavesSuffix(Inside, acc + [c], rest); }
      case Escaped =>
        if c == 'x' { LexLeavesSuffix(Hex(0, 0), acc, rest); }
        else if IsOctal(c) { LexLeavesSuffix(Octal(1, DigitValue(c)), acc, rest); }
        else if SimpleEscape(c).Some? { LexLeavesSuffix(Inside, acc + [SimpleEscape(c).value], rest); }
      case Hex(digits, value) =>
        if IsHex(c) { LexLeavesSuffix(Hex(digits + 1, value * 16 + HexValue(c)), acc, rest); }
        else if digits > 0 && value < 256 { LexLeavesSuffix(Inside, acc + [value as char], text); }
      case Octal(digits, value) =>
        if digits < 3 && IsOctal(c) { LexLeavesSuffix(Octal(digits + 1, value * 8 + DigitValue(c)), acc, rest); }
        else if value < 256 { LexLeavesSuffix(Inside, acc + [value as char], text); }
    }
  }

  predicate IsSuffix(t: string, text: string) {
    |t| <= |text| && t == text[|text| - |t|..]
  }

  lemma SuffixOfRest(t: string, text: string)
    requires text != "" && IsSuffix(t, text[1..])
    ensures IsSuffix(t, text)
  {
  }

  /** With as many bytes as characters before the final quote, every character stood for itself. */
  lemma {:induction false} LexTight(acc: seq<Byte>, text: string, n: nat)
    requires var r := Lex(Inside, acc, text);
             r.Some? && |r.value.0| - |acc| == n && |text| - |r.value.1| == n + 1
    ensures n < |text| && CleanName(text[..n])
    decreases text
  {
    var c, rest := text[0], text[1..];
    LexShrinks(Between, acc, rest);
    LexShrinks(Escaped, acc, rest);
    if c != '"' && c != '\\' {
      LexShrinks(Inside, acc + [c], rest);
      LexTight(acc + [c], rest, n - 1);
      assert text[..n] == [c] + rest[..n - 1];
    }
  }

  /** A literal that ends in a quote, a semicolon and a newline is never read past the quote. */
  lemma {:induction false} LexStopsAtQuote(mode: Mode, acc: seq<Byte>, name: string, rest: string)
    ensures var r := Lex(mode, acc, name + ("\"" + (";\n" + rest)));
            r.Some? ==> |r.value.1| >= |";\n" + rest|
    decreases |name|, Numeric(mode)
  {
    var tail := ";\n" + rest;
    var text := name + ("\"" + tail);
    if name == "" {
      assert text == "\"" + tail;
      LexAtQuote(mode, acc, rest);
    } else {
      var c, later := name[0], name[1..];
      assert text[0] == c && text[1..] == later + ("\"" + tail);
      match mode
      case Between =>
        if IsBlank(c) { LexStopsAtQuote(Between, acc, later, rest); }
        else if c == '"' { LexStopsAtQuote(Inside, acc, later, rest); }
      case Inside =>
        if c == '"' { LexStopsAtQuote(Between, acc, later, rest); }
        else if c == '\\' { LexStopsAtQuote(Escaped, acc, later, rest); }
        else if c != '\n' && c as int < 256 { LexStopsAtQuote(Inside, acc + [c], later, rest); }
      case Escaped =>
        if c == 'x' { LexStopsAtQuote(Hex(0, 0), acc, later, rest); }
        else if IsOctal(c) { LexStopsAtQuote(Octal(1, DigitValue(c)), acc, later, rest); }
        else if SimpleEscape(c).Some? { LexStopsAtQuote(Inside, acc + [SimpleEscape(c).value], later, rest); }
      case Hex(digits, value) =>
        if IsHex(c) { LexStopsAtQuote(Hex(digits + 1, value * 16 + HexValue(c)), acc, later, rest); }
        else if digits > 0 && value < 256 { LexStopsAtQuote(Inside, acc + [value as char], name, rest); }
      case Octal(digits, value) =>
        if digits < 3 && IsOctal(c) { LexStopsAtQuote(Octal(digits + 1, value * 8 + DigitValue(c)), acc, later, rest); }
        else if value < 256 { LexStopsAtQuote(Inside, acc + [value as char], name, rest); }
    }
  }

  lemma {:induction false} LexAtQuote(mode: Mode, acc: seq<Byte>, rest: string)
    ensures var r := Lex(mode, acc, "\"" + (";\n" + rest));
            r.Some? ==> |r.value.1| >= |";\n" + rest|
  {
    var tail := ";\n" + rest;
    var text := "\"" + tail;
    assert text[0] == '"' && text[1..] == tail;
    assert forall a :: Lex(Inside, a, tail) == None by {
      forall a: seq<Byte>
        ensures Lex(Inside, a, tail) == None
      {
        assert tail[0] == ';' && tail[1..][0] == '\n';
      }
    }
    match mode
    case Between =>
    case Inside => LexQuote(acc, tail);
    case Escaped =>
    case Hex(digits, value) => if value < 256 { LexQuote(acc + [value as char], tail); }
    case Octal(digits, value) => if value < 256 { LexQuote(acc + [value as char], tail); }
  }

  /** So whatever a printed name is read as, it is the name only if the name is clean. */
  lemma {:induction false} OnlyCleanNamesSurvive(name: seq<Byte>, rest: string)
    ensures var r := Lex(Inside, [], name + ("\"" + (";\n" + rest)));
            r.Some? && |name| <= |r.value.0| ==> CleanName(name)
  {
    var text := name + ("\"" + (";\n" + rest));
    var r := Lex(Inside, [], text);
    hide Lex;
    if r.Some? && |name| <= |r.value.0| {
      LexShrinks(Inside, [], text);
      LexStopsAtQuote(Inside, [], name, rest);
      LexTight([], text, |name|);
      assert text[..|name|] == name;
    }
  }

  /** A printed name reads back as itself exactly when it is clean. */
  lemma {:induction false} NameReadsBackExactly(name: seq<Byte>, rest: string)
    requires rest != "" && !IsBlank(rest[0]) && rest[0] != '"'
    ensures Lex(Inside, [], name + ("\"" + rest)) == Some((name, rest)) <==> CleanName(name)
  {
    var text := name + ("\"" + rest);
    if CleanName(name) {
      LexClean([], name, "\"" + rest);
      LexQuote(name, rest);
      assert [] + name == name;
    }
    if Lex(Inside, [], text) == Some((name, rest)) {
      LexTight([], text, |name|);
      assert text[..|name|] == name;
    }
  }

  /** An empty file prints no opening quote, so its text is ill-formed. */
  lemma {:induction false} EmptyDataIllFormed(rest: string)
    ensures Lex(Between, [], Printed([]) + ("\"" + (",\n" + rest))) == None
  {
    var tail := ",\n" + rest;
    assert Printed([]) + ("\"" + tail) == "\"" + tail;
    LexQuote([], tail);
    assert tail[0] == ',' && tail[1..][0] == '\n';
  }
}
