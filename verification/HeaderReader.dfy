/**
 A reader of the embedding header, written from the C++ it is meant to be and with its own texts: string variables with
 any identifier, a table of pointers to them, and the lookup function. Identifiers are maximal runs of their characters.
 What a row stands for follows from the declarations, the fields of the table and the fields the lookup uses.
 */
module HeaderReader {
  import opened Digits
  import opened DecimalText
  import opened CppLiteral
  import opened Options

  // ----- pieces -----

  function Strip(prefix: string, text: string): (r: Option<string>)
    ensures r.Some? ==> |r.value| == |text| - |prefix|
  {
    if prefix <= text then Some(text[|prefix|..]) else None
  }

  function ReadNumber(text: string): (r: Option<(nat, string)>)
    ensures r.Some? ==> |r.value.1| < |text|
  {
    var n := DigitRun(text);
    if n == 0 then None else Some((ValueOf(text[..n]), text[n..]))
  }

  predicate IsIdentChar(c: char) {
    'a' <= c <= 'z' || 'A' <= c <= 'Z' || '0' <= c <= '9' || c == '_'
  }

  /** The length of the longest prefix of identifier characters. */
  function IdentRun(text: string): (n: nat)
    ensures n <= |text| && forall i :: 0 <= i < n ==> IsIdentChar(text[i])
    ensures n < |text| ==> !IsIdentChar(text[n])
  {
    if text == "" || !IsIdentChar(text[0]) then 0
    else
      var n := 1 + IdentRun(text[1..]);
      assert forall i :: 1 <= i < n ==> text[i] == text[1..][i - 1];
      n
  }

  function ReadIdent(text: string): (r: Option<(string, string)>)
    ensures r.Some? ==> |r.value.1| < |text|
  {
    var n := IdentRun(text);
    if n == 0 || IsDigit(text[0]) then None else Some((text[..n], text[n..]))
  }

  /** Whether the first character that is not blank opens a string literal. */
  predicate OpensLiteral(text: string) {
    text != "" && (text[0] == '"' || (IsBlank(text[0]) && OpensLiteral(text[1..])))
  }

  function ReadLiterals(text: string): (r: Option<(seq<Byte>, string)>)
    ensures r.Some? ==> |r.value.1| <= |text|
  {
    LexShrinks(Between, [], text);
    if OpensLiteral(text) then Lex(Between, [], text) else None
  }

  // ----- declarations -----

  const VARIABLE: string := "static const std::string "
  const INITIAL: string := " = "
  const CONSTRUCTED: string := "std::string("

  /** A string built from a literal alone ends at its first NUL. */
  function UpToNul(bytes: seq<Byte>): seq<Byte> {
    if bytes == [] || bytes[0] == '\0' then [] else [bytes[0]] + UpToNul(bytes[1..])
  }

  function ReadFromLiteral(text: string): (r: Option<(seq<Byte>, string)>)
    ensures r.Some? ==> |r.value.1| <= |text|
  {
    var (bytes, t0) :- ReadLiterals(text);
    var t1 :- Strip(";\n", t0);
    Some((UpToNul(bytes), t1))
  }

  /** A literal with an explicit length, which may count the terminating NUL but nothing beyond it. */
  function ReadFromLength(text: string): (r: Option<(seq<Byte>, string)>)
    ensures r.Some? ==> |r.value.1| <= |text|
  {
    var (bytes, t0) :- ReadLiterals(text);
    var t1 :- Strip(",\n  ", t0);
    var (n, t2) :- ReadNumber(t1);
    var t3 :- Strip(");\n\n", t2);
    if n <= |bytes| + 1 then Some(((bytes + ['\0'])[..n], t3)) else None
  }

  function ReadInitial(text: string): (r: Option<(seq<Byte>, string)>)
    ensures r.Some? ==> |r.value.1| <= |text|
  {
    if CONSTRUCTED <= text then ReadFromLength(text[|CONSTRUCTED|..]) else ReadFromLiteral(text)
  }

  /** A variable and the bytes it holds. */
  type Variable = (string, seq<Byte>)

  function ReadDecl(text: string): (r: Option<(Variable, string)>)
    ensures r.Some? ==> |r.value.1| < |text|
  {
    var t0 :- Strip(VARIABLE, text);
    var (id, t1) :- ReadIdent(t0);
    var t2 :- Strip(INITIAL, t1);
    var (bytes, t3) :- ReadInitial(t2);
    Some(((id, bytes), t3))
  }

  function ReadDecls(text: string): Option<(seq<Variable>, string)>
    decreases |text|
  {
    if !(VARIABLE <= text) then Some(([], text))
    else
      var (decl, t0) :- ReadDecl(text);
      var (decls, t1) :- ReadDecls(t0);
      Some(([decl] + decls, t1))
  }

  /** The bytes held by a variable. */
  function Declared(decls: seq<Variable>, id: string): Option<seq<Byte>> {
    if decls == [] then None else if decls[0].0 == id then Some(decls[0].1) else Declared(decls[1..], id)
  }

  /** No variable is declared twice. */
  predicate Distinct(decls: seq<Variable>) {
    forall i, j :: 0 <= i < j < |decls| ==> decls[i].0 != decls[j].0
  }

  // ----- the table and the lookup -----

  const STRUCT: string := "static const struct embedded_file {\n"
  const FIELD: string := "  const std::string *"
  const FIELD_END: string := ";\n"
  const ROWS: string := "} embedded_files[] = {\n"
  const ROW: string := "  {&"
  const AND: string := ", &"
  const ROW_DONE: string := "},\n"
  const NULL_ROW: string := "  {NULL, NULL}\n};\n\n"
  const FUNCTION: string := "static bool find_embedded_file(" + "const std::string &name, " + "std::string &data) {\n"
  const LOOP: string := "  const struct embedded_file *p;\n" + "  for (p = embedded_files; " + "p->"
  const TEST: string := " != NULL; p++) {\n" + "    if (*p->"
  const FOUND: string := " == name) {\n" + "      data = *p->"
  const RETURN: string := ";\n" + "      return true;\n" + "    }\n  }\n  return false;\n}\n\n"
  const GUARD_END: string := "#endif /* TRANSLATION_FILES_H */\n"

  /** The two fields of the table's struct. */
  datatype Fields = Fields(first: string, second: string)

  /** The field whose null ends the lookup's loop, the one compared with the name, and the one given back. */
  datatype Lookup = Lookup(test: string, compare: string, result: string)

  type Row = (string, string)

  function ReadFields(text: string): Option<(Fields, string)> {
    var t0 :- Strip(STRUCT, text);
    var t1 :- Strip(FIELD, t0);
    var (first, t2) :- ReadIdent(t1);
    var t3 :- Strip(FIELD_END, t2);
    var t4 :- Strip(FIELD, t3);
    var (second, t5) :- ReadIdent(t4);
    var t6 :- Strip(FIELD_END, t5);
    var t7 :- Strip(ROWS, t6);
    Some((Fields(first, second), t7))
  }

  function ReadRow(text: string): (r: Option<(Row, string)>)
    ensures r.Some? ==> |r.value.1| < |text|
  {
    var t0 :- Strip(ROW, text);
    var (first, t1) :- ReadIdent(t0);
    var t2 :- Strip(AND, t1);
    var (second, t3) :- ReadIdent(t2);
    var t4 :- Strip(ROW_DONE, t3);
    Some(((first, second), t4))
  }

  function ReadRows(text: string): Option<(seq<Row>, string)>
    decreases |text|
  {
    if !(ROW <= text) then Some(([], text))
    else
      var (row, t0) :- ReadRow(text);
      var (rows, t1) :- ReadRows(t0);
      Some(([row] + rows, t1))
  }

  function ReadLookup(text: string): Option<(Lookup, string)> {
    var t0 :- Strip(FUNCTION, text);
    var t1 :- Strip(LOOP, t0);
    var (test, t2) :- ReadIdent(t1);
    var t3 :- Strip(TEST, t2);
    var (compare, t4) :- ReadIdent(t3);
    var t5 :- Strip(FOUND, t4);
    var (result, t6) :- ReadIdent(t5);
    var t7 :- Strip(RETURN, t6);
    Some((Lookup(test, compare, result), t7))
  }

  datatype Tail = Tail(fields: Fields, rows: seq<Row>, lookup: Lookup)

  /** Everything after the declarations. */
  function ReadTail(text: string): Option<Tail> {
    var (fields, t0) :- ReadFields(text);
    var (rows, t1) :- ReadRows(t0);
    var t2 :- Strip(NULL_ROW, t1);
    var (lookup, t3) :- ReadLookup(t2);
    if t3 == GUARD_END then Some(Tail(fields, rows, lookup)) else None
  }

  // ----- what the header means -----

  /** A file as the lookup sees it: what it compares the name with, and what it gives back. */
  datatype File = File(name: seq<Byte>, data: seq<Byte>)

  predicate IsField(fields: Fields, field: string) {
    field == fields.first || field == fields.second
  }

  /** The struct has two different fields, and the lookup uses only these. */
  predicate WellTyped(fields: Fields, lookup: Lookup) {
    && fields.first != fields.second
    && IsField(fields, lookup.test) && IsField(fields, lookup.compare) && IsField(fields, lookup.result)
  }

  /** The variable a field of a row points to. */
  function Column(fields: Fields, row: Row, field: string): string {
    if field == fields.first then row.0 else row.1
  }

  function Resolve(decls: seq<Variable>, fields: Fields, lookup: Lookup, rows: seq<Row>): Option<seq<File>>
    decreases rows
  {
    if rows == [] then Some([])
    else
      var name :- Declared(decls, Column(fields, rows[0], lookup.compare));
      var data :- Declared(decls, Column(fields, rows[0], lookup.result));
      var files :- Resolve(decls, fields, lookup, rows[1..]);
      Some([File(name, data)] + files)
  }

  const GUARD: string :=
    "#ifndef TRANSLATION_FILES_H\n" + "#define TRANSLATION_FILES_H\n\n" + "#include <string>\n\n"

  /** The text after line splicing. */
  function ReadSpliced(text: string): Option<seq<File>> {
    var t0 :- Strip(GUARD, text);
    var (decls, t1) :- ReadDecls(t0);
    var tail :- ReadTail(t1);
    if Distinct(decls) && WellTyped(tail.fields, tail.lookup)
    then Resolve(decls, tail.fields, tail.lookup, tail.rows)
    else None
  }

  /** The files of the table a header defines, in order, without the null row that ends it. */
  function ReadHeader(text: string): Option<seq<File>> {
    ReadSpliced(Splice(text))
  }

  // ----- reading back a piece -----

  lemma StripPrefix(prefix: string, rest: string)
    ensures Strip(prefix, prefix + rest) == Some(rest)
  {
  }

  lemma {:induction false} ReadNumberBack(k: nat, rest: string)
    requires rest != "" && !IsDigit(rest[0])
    ensures ReadNumber(NatToString(k) + rest) == Some((k, rest))
  {
    var digits := NatToString(k);
    hide NatToString, DigitRun;
    DigitRunOf(digits, rest);
    assert (digits + rest)[..|digits|] == digits && (digits + rest)[|digits|..] == rest;
  }

  predicate IsIdent(id: string) {
    id != "" && !IsDigit(id[0]) && forall i :: 0 <= i < |id| ==> IsIdentChar(id[i])
  }

  lemma {:induction false} ReadIdentBack(id: string, rest: string)
    requires IsIdent(id) && rest != "" && !IsIdentChar(rest[0])
    ensures ReadIdent(id + rest) == Some((id, rest))
  {
    hide IdentRun, IsIdentChar;
    var text := id + rest;
    var n := IdentRun(text);
    assert forall i :: 0 <= i < |id| ==> text[i] == id[i];
    assert text[|id|] == rest[0];
    assert text[..|id|] == id && text[|id|..] == rest;
  }

  // ----- what is left to read is always the end of the text -----

  lemma SuffixOfSuffix(a: string, b: string, text: string)
    requires IsSuffix(a, b) && IsSuffix(b, text)
    ensures IsSuffix(a, text)
  {
  }

  lemma WholeIsSuffix(text: string)
    ensures IsSuffix(text, text)
  {
  }

  lemma StripLeavesSuffix(prefix: string, text: string)
    ensures Strip(prefix, text).Some? ==> IsSuffix(Strip(prefix, text).value, text)
  {
  }

  lemma NumberLeavesSuffix(text: string)
    ensures ReadNumber(text).Some? ==> IsSuffix(ReadNumber(text).value.1, text)
  {
    hide DigitRun, ValueOf;
  }

  lemma IdentLeavesSuffix(text: string)
    ensures ReadIdent(text).Some? ==> IsSuffix(ReadIdent(text).value.1, text)
  {
    hide IdentRun;
  }

  lemma LiteralsLeaveSuffix(text: string)
    ensures ReadLiterals(text).Some? ==> IsSuffix(ReadLiterals(text).value.1, text)
  {
    hide OpensLiteral, Lex;
    LexLeavesSuffix(Between, [], text);
  }

  lemma LiteralInitialLeavesSuffix(text: string)
    ensures ReadFromLiteral(text).Some? ==> IsSuffix(ReadFromLiteral(text).value.1, text)
  {
    hide Strip, ReadLiterals, UpToNul, IsSuffix;
    if ReadFromLiteral(text).Some? {
      var t0 := ReadLiterals(text).value.1;
      LiteralsLeaveSuffix(text);
      StripLeavesSuffix(";\n", t0);
      SuffixOfSuffix(Strip(";\n", t0).value, t0, text);
    }
  }

  lemma LengthInitialLeavesSuffix(text: string)
    ensures ReadFromLength(text).Some? ==> IsSuffix(ReadFromLength(text).value.1, text)
  {
    hide Strip, ReadNumber, ReadLiterals, IsSuffix;
    if ReadFromLength(text).Some? {
      var t0 := ReadLiterals(text).value.1;
      var t1 := Strip(",\n  ", t0).value;
      var t2 := ReadNumber(t1).value.1;
      LiteralsLeaveSuffix(text);
      StripLeavesSuffix(",\n  ", t0);
      NumberLeavesSuffix(t1);
      StripLeavesSuffix(");\n\n", t2);
      SuffixOfSuffix(t1, t0, text);
      SuffixOfSuffix(t2, t1, text);
      SuffixOfSuffix(Strip(");\n\n", t2).value, t2, text);
    }
  }

  lemma InitialLeavesSuffix(text: string)
    ensures ReadInitial(text).Some? ==> IsSuffix(ReadInitial(text).value.1, text)
  {
    hide ReadFromLength, ReadFromLiteral, IsSuffix, CONSTRUCTED;
    LiteralInitialLeavesSuffix(text);
    if CONSTRUCTED <= text && ReadInitial(text).Some? {
      var rest := text[|CONSTRUCTED|..];
      LengthInitialLeavesSuffix(rest);
      DropIsSuffix(text, |CONSTRUCTED|);
      SuffixOfSuffix(ReadInitial(text).value.1, rest, text);
    }
  }

  lemma DropIsSuffix(text: string, n: nat)
    requires n <= |text|
    ensures IsSuffix(text[n..], text)
  {
  }

  lemma DeclLeavesSuffix(text: string)
    ensures ReadDecl(text).Some? ==> IsSuffix(ReadDecl(text).value.1, text)
  {
    hide Strip, ReadIdent, ReadInitial, VARIABLE, INITIAL, IsSuffix;
    if ReadDecl(text).Some? {
      var t0 := Strip(VARIABLE, text).value;
      var t1 := ReadIdent(t0).value.1;
      var t2 := Strip(INITIAL, t1).value;
      StripLeavesSuffix(VARIABLE, text);
      IdentLeavesSuffix(t0);
      StripLeavesSuffix(INITIAL, t1);
      InitialLeavesSuffix(t2);
      SuffixOfSuffix(t1, t0, text);
      SuffixOfSuffix(t2, t1, text);
      SuffixOfSuffix(ReadInitial(t2).value.1, t2, text);
    }
  }

  lemma {:induction false} DeclsLeaveSuffix(text: string)
    ensures ReadDecls(text).Some? ==> IsSuffix(ReadDecls(text).value.1, text)
    decreases |text|
  {
    hide ReadDecl, VARIABLE, IsSuffix;
    if !(VARIABLE <= text) {
      WholeIsSuffix(text);
    } else if ReadDecls(text).Some? {
      var t0 := ReadDecl(text).value.1;
      DeclLeavesSuffix(text);
      DeclsLeaveSuffix(t0);
      SuffixOfSuffix(ReadDecls(t0).value.1, t0, text);
    }
  }

  // ----- the number of rows fixes the number of lines -----

  function Newlines(text: string): nat {
    if text == "" then 0 else (if text[0] == '\n' then 1 else 0) + Newlines(text[1..])
  }

  lemma {:induction false} NewlinesConcat(a: string, b: string)
    ensures Newlines(a + b) == Newlines(a) + Newlines(b)
  {
    if a == "" {
      assert a + b == b;
    } else {
      assert (a + b)[1..] == a[1..] + b;
      NewlinesConcat(a[1..], b);
    }
  }

  lemma {:induction false} NewlineAt(text: string, i: nat)
    requires i < |text| && text[i] == '\n'
    ensures Newlines(text) > 0
  {
    if i > 0 { NewlineAt(text[1..], i - 1); }
  }

  lemma {:induction false} OneLine(id: string)
    requires forall i :: 0 <= i < |id| ==> IsIdentChar(id[i])
    ensures Newlines(id) == 0
  {
    if id != "" { OneLine(id[1..]); }
  }

  lemma StripLines(prefix: string, text: string)
    ensures Strip(prefix, text).Some? ==>
              prefix <= text && Newlines(text) == Newlines(prefix) + Newlines(Strip(prefix, text).value)
  {
    hide Newlines;
    if prefix <= text {
      assert text == prefix + text[|prefix|..];
      NewlinesConcat(prefix, text[|prefix|..]);
    }
  }

  lemma IdentLines(text: string)
    ensures ReadIdent(text).Some? ==> Newlines(text) == Newlines(ReadIdent(text).value.1)
  {
    var n := IdentRun(text);
    hide Newlines, IdentRun;
    assert text == text[..n] + text[n..];
    NewlinesConcat(text[..n], text[n..]);
    OneLine(text[..n]);
  }

  function FieldsLines(): nat {
    Newlines(STRUCT) + 2 * Newlines(FIELD) + 2 * Newlines(FIELD_END) + Newlines(ROWS)
  }

  lemma FieldsOnLines(text: string)
    ensures ReadFields(text).Some? ==>
              STRUCT <= text && Newlines(text) == FieldsLines() + Newlines(ReadFields(text).value.1)
  {
    hide Strip, ReadIdent, Newlines, STRUCT, FIELD, FIELD_END, ROWS;
    if ReadFields(text).Some? {
      var t0 := Strip(STRUCT, text).value;
      var t1 := Strip(FIELD, t0).value;
      var t2 := ReadIdent(t1).value.1;
      var t3 := Strip(FIELD_END, t2).value;
      var t4 := Strip(FIELD, t3).value;
      var t5 := ReadIdent(t4).value.1;
      var t6 := Strip(FIELD_END, t5).value;
      StripLines(STRUCT, text);
      StripLines(FIELD, t0);
      IdentLines(t1);
      StripLines(FIELD_END, t2);
      StripLines(FIELD, t3);
      IdentLines(t4);
      StripLines(FIELD_END, t5);
      StripLines(ROWS, t6);
    }
  }

  function RowsLines(n: nat): nat {
    if n == 0 then 0 else Newlines(ROW) + Newlines(AND) + Newlines(ROW_DONE) + RowsLines(n - 1)
  }

  lemma RowOnLines(text: string)
    ensures ReadRow(text).Some? ==>
              Newlines(text) == Newlines(ROW) + Newlines(AND) + Newlines(ROW_DONE) + Newlines(ReadRow(text).value.1)
  {
    hide Strip, ReadIdent, Newlines, ROW, AND, ROW_DONE;
    if ReadRow(text).Some? {
      var t0 := Strip(ROW, text).value;
      var t1 := ReadIdent(t0).value.1;
      var t2 := Strip(AND, t1).value;
      var t3 := ReadIdent(t2).value.1;
      StripLines(ROW, text);
      IdentLines(t0);
      StripLines(AND, t1);
      IdentLines(t2);
      StripLines(ROW_DONE, t3);
    }
  }

  lemma {:induction false} RowsOnLines(text: string)
    ensures ReadRows(text).Some? ==>
              Newlines(text) == RowsLines(|ReadRows(text).value.0|) + Newlines(ReadRows(text).value.1)
    decreases |text|
  {
    hide ReadRow, Newlines, ROW, AND, ROW_DONE;
    if ROW <= text && ReadRows(text).Some? {
      RowOnLines(text);
      RowsOnLines(ReadRow(text).value.1);
    }
  }

  function LookupLines(): nat {
    Newlines(FUNCTION) + Newlines(LOOP) + Newlines(TEST) + Newlines(FOUND) + Newlines(RETURN)
  }

  lemma LookupOnLines(text: string)
    ensures ReadLookup(text).Some? ==> Newlines(text) == LookupLines() + Newlines(ReadLookup(text).value.1)
  {
    hide Strip, ReadIdent, Newlines, FUNCTION, LOOP, TEST, FOUND, RETURN;
    if ReadLookup(text).Some? {
      var t0 := Strip(FUNCTION, text).value;
      var t1 := Strip(LOOP, t0).value;
      var t2 := ReadIdent(t1).value.1;
      var t3 := Strip(TEST, t2).value;
      var t4 := ReadIdent(t3).value.1;
      var t5 := Strip(FOUND, t4).value;
      var t6 := ReadIdent(t5).value.1;
      StripLines(FUNCTION, text);
      StripLines(LOOP, t0);
      IdentLines(t1);
      StripLines(TEST, t2);
      IdentLines(t3);
      StripLines(FOUND, t4);
      IdentLines(t5);
      StripLines(RETURN, t6);
    }
  }

  function TailLines(n: nat): nat {
    FieldsLines() + RowsLines(n) + Newlines(NULL_ROW) + LookupLines() + Newlines(GUARD_END)
  }

  /** The number of rows fixes the number of newlines of a text that reads as a table. */
  lemma TailOnLines(text: string)
    ensures ReadTail(text).Some? ==> STRUCT <= text && Newlines(text) == TailLines(|ReadTail(text).value.rows|)
  {
    hide Strip, ReadFields, ReadRows, ReadLookup, Newlines, FieldsLines, RowsLines, LookupLines,
      STRUCT, NULL_ROW, GUARD_END;
    if ReadTail(text).Some? {
      var t0 := ReadFields(text).value.1;
      var t1 := ReadRows(t0).value.1;
      var t2 := Strip(NULL_ROW, t1).value;
      FieldsOnLines(text);
      RowsOnLines(t0);
      StripLines(NULL_ROW, t1);
      LookupOnLines(t2);
    }
  }

  /** The first newline of a table. */
  const FIRST_LINE: nat := 35

  lemma FirstLine(text: string)
    requires STRUCT <= text
    ensures |text| > FIRST_LINE && text[FIRST_LINE] == '\n'
    ensures forall i :: 0 <= i < FIRST_LINE ==> text[i] != '\n'
  {
    assert |STRUCT| == 36 && STRUCT[35] == '\n';
    assert forall i :: 0 <= i < 35 ==> STRUCT[i] != '\n';
    hide STRUCT;
    assert forall i :: 0 <= i < |STRUCT| ==> text[i] == STRUCT[i];
  }

  /** Two ends of one text with the same newlines and the same first line are the same. */
  lemma {:induction false} SameEnd(a: string, b: string, text: string)
    requires IsSuffix(a, text) && IsSuffix(b, text) && |b| <= |a|
    requires STRUCT <= a && STRUCT <= b && Newlines(a) == Newlines(b)
    ensures a == b
  {
    hide Newlines, STRUCT;
    var d := |a| - |b|;
    assert a == a[..d] + b;
    NewlinesConcat(a[..d], b);
    if d <= FIRST_LINE < |a| {
      assert a[FIRST_LINE] == b[FIRST_LINE - d];
    }
    FirstLine(a);
    FirstLine(b);
    if FIRST_LINE < d {
      NewlineAt(a[..d], FIRST_LINE);
    }
  }

  /** Tables of equally many rows at the end of one text are the same text. */
  lemma {:induction false} OneTable(a: string, b: string, text: string)
    requires IsSuffix(a, text) && IsSuffix(b, text) && ReadTail(a).Some? && ReadTail(b).Some?
    requires |ReadTail(a).value.rows| == |ReadTail(b).value.rows|
    ensures a == b
  {
    hide ReadTail, Newlines, TailLines, STRUCT, IsSuffix;
    TailOnLines(a);
    TailOnLines(b);
    if |b| <= |a| { SameEnd(a, b, text); } else { SameEnd(b, a, text); }
  }

  // ----- resolving -----

  lemma {:induction false} ResolveLength(decls: seq<Variable>, fields: Fields, lookup: Lookup, rows: seq<Row>)
    ensures var r := Resolve(decls, fields, lookup, rows); r.Some? ==> |r.value| == |rows|
    decreases rows
  {
    hide Declared, Column;
    if rows != [] { ResolveLength(decls, fields, lookup, rows[1..]); }
  }
}
