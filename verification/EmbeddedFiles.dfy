/**
 The generator and the reader together: what the header gives back of the files that were embedded, and that a file
 given to the generator is found by the lookup it prints.
 */
module EmbeddedFiles {
  import opened Digits
  import opened CppLiteral
  import opened Options
  import opened Sequences
  import opened HeaderReader
  import opened TranslationHeader

  type File = HeaderReader.File

  // ----- the variables -----

  const NAME_STEM: string := "translation_file_name_"
  const DATA_STEM: string := "translation_file_data_"

  function NameId(k: nat): string {
    NAME_STEM + NatToString(k)
  }

  function DataId(k: nat): string {
    DATA_STEM + NatToString(k)
  }

  lemma StemsAreIdents()
    ensures IsIdent(NAME_STEM) && IsIdent(DATA_STEM) && |NAME_STEM| == |DATA_STEM| && NAME_STEM != DATA_STEM
  {
    assert NAME_STEM[17] == 'n' && DATA_STEM[17] == 'd';
  }

  lemma {:induction false} IdsAreIdents(k: nat)
    ensures IsIdent(NameId(k)) && IsIdent(DataId(k))
  {
    hide NAME_STEM, DATA_STEM, NatToString;
    StemsAreIdents();
    assert forall i :: 0 <= i < |NatToString(k)| ==> IsIdentChar(NatToString(k)[i]);
  }

  lemma {:induction false} IdsDiffer(a: nat, b: nat)
    ensures NameId(a) == NameId(b) <==> a == b
    ensures DataId(a) == DataId(b) <==> a == b
    ensures NameId(a) != DataId(b)
  {
    hide NAME_STEM, DATA_STEM, NatToString;
    StemsAreIdents();
    var n := |NAME_STEM|;
    assert NameId(a)[..n] == NAME_STEM && NameId(a)[n..] == NatToString(a);
    assert NameId(b)[n..] == NatToString(b);
    assert DataId(b)[..n] == DATA_STEM && DataId(b)[n..] == NatToString(b);
    assert DataId(a)[n..] == NatToString(a);
  }

  // ----- the printed texts are those the reader expects -----

  lemma DeclTexts()
    ensures NAME_DECL == VARIABLE + NAME_STEM && DATA_DECL == VARIABLE + DATA_STEM
  {
  }

  lemma RowTexts()
    ensures ROW_NAME == ROW + NAME_STEM && ROW_DATA == AND + DATA_STEM && ROW_END == ROW_DONE
  {
  }

  lemma FixedTexts()
    ensures PREAMBLE == GUARD && TABLE_CLOSE == NULL_ROW && EPILOGUE == GUARD_END
  {
  }

  const NAME: string := "name"
  const DATA: string := "data"

  lemma FieldsAreIdents()
    ensures IsIdent(NAME) && IsIdent(DATA) && NAME != DATA
  {
  }

  lemma TableText(rest: string)
    ensures TABLE_OPEN + rest
         == STRUCT + (FIELD + (NAME + (FIELD_END + (FIELD + (DATA + (FIELD_END + (ROWS + rest)))))))
  {
    assert "  const std::string *name;\n" == FIELD + NAME + FIELD_END;
    assert "  const std::string *data;\n" == FIELD + DATA + FIELD_END;
    assert TABLE_OPEN == STRUCT + ((FIELD + NAME + FIELD_END) + (FIELD + DATA + FIELD_END)) + ROWS;
    hide STRUCT, FIELD, NAME, DATA, FIELD_END, ROWS, TABLE_OPEN;
    Chain8(STRUCT, FIELD, NAME, FIELD_END, FIELD, DATA, FIELD_END, ROWS, rest);
  }

  lemma Chain8(a: string, b: string, c: string, d: string, e: string, f: string, g: string, h: string, rest: string)
    ensures a + ((b + c + d) + (e + f + g)) + h + rest == a + (b + (c + (d + (e + (f + (g + (h + rest)))))))
  {
    var t := g + (h + rest);
    Join(a + ((b + c + d) + (e + f + g)), h, rest);
    Join(a, (b + c + d) + (e + f + g), h + rest);
    Join(b + c + d, e + f + g, h + rest);
    Join(e + f, g, h + rest);
    Join(e, f, t);
    Join(b + c, d, e + (f + t));
    Join(b, c, d + (e + (f + t)));
  }

  lemma LoopText()
    ensures LOOKUP_OPEN == FUNCTION
    ensures LOOKUP_LOOP + "    if (*p->" == LOOP + (NAME + TEST)
  {
    assert "p->name != NULL; p++) {\n" == "p->" + NAME + " != NULL; p++) {\n";
    var a, b := "  const struct embedded_file *p;\n" + "  for (p = embedded_files; ", " != NULL; p++) {\n";
    var c := "    if (*p->";
    assert LOOKUP_LOOP == a + ("p->" + NAME + b);
    assert LOOP == a + "p->" && TEST == b + c;
    hide LOOKUP_LOOP, LOOP, TEST, NAME;
    Join(a, "p->" + NAME + b, c);
    Join("p->" + NAME, b, c);
    Join("p->", NAME, b + c);
    Join(a, "p->", NAME + (b + c));
  }

  lemma HitText()
    ensures LOOKUP_HIT + "    }\n  }\n  return false;\n}\n\n"
         == "    if (*p->" + (NAME + (FOUND + (DATA + RETURN)))
  {
    var a, b, c, d := "    if (*p->", " == name) {\n", "      data = *p->", ";\n";
    var e, last := "      return true;\n", "    }\n  }\n  return false;\n}\n\n";
    assert "    if (*p->name == name) {\n" == a + NAME + b;
    assert "      data = *p->data;\n" == c + DATA + d;
    assert LOOKUP_HIT == (a + NAME + b) + (c + DATA + d) + e;
    assert FOUND == b + c && RETURN == d + e + last;
    hide LOOKUP_HIT, FOUND, RETURN, NAME, DATA;
    Join(a + NAME + b + (c + DATA + d), e, last);
    Join(a + NAME + b, c + DATA + d, e + last);
    Join(c + DATA, d, e + last);
    Join(d, e, last);
    Join(c, DATA, RETURN);
    Join(a + NAME, b, c + (DATA + RETURN));
    Join(b, c, DATA + RETURN);
    Join(a, NAME, FOUND + (DATA + RETURN));
  }

  lemma LookupText(rest: string)
    ensures LOOKUP_CODE + rest
         == FUNCTION + (LOOP + (NAME + (TEST + (NAME + (FOUND + (DATA + (RETURN + rest)))))))
  {
    var c, last := "    if (*p->", "    }\n  }\n  return false;\n}\n\n";
    LoopText();
    HitText();
    assert LOOKUP_CODE == FUNCTION + LOOKUP_LOOP + LOOKUP_HIT + last;
    hide *;
    var x := NAME + (FOUND + (DATA + RETURN));
    Join(FUNCTION + LOOKUP_LOOP, LOOKUP_HIT, last);
    Join(FUNCTION, LOOKUP_LOOP, c + x);
    Join(LOOKUP_LOOP, c, x);
    assert LOOKUP_CODE == FUNCTION + ((LOOP + (NAME + TEST)) + x);
    Join(FUNCTION, LOOP + (NAME + TEST) + x, rest);
    Join(LOOP + (NAME + TEST), x, rest);
    Join(LOOP, NAME + TEST, x + rest);
    Join(NAME, TEST, x + rest);
    Join(NAME, FOUND + (DATA + RETURN), rest);
    Join(FOUND, DATA + RETURN, rest);
    Join(DATA, RETURN, rest);
  }

  // ----- reading back one piece of the header -----

  /** An identifier is read up to a text that starts with another character. */
  lemma IdentThen(id: string, next: string, rest: string)
    requires IsIdent(id) && next != "" && !IsIdentChar(next[0])
    ensures ReadIdent(id + (next + rest)) == Some((id, next + rest))
  {
    hide IsIdentChar;
    ReadIdentBack(id, next + rest);
  }

  lemma HeadsStop()
    ensures FIELD_END != "" && !IsIdentChar(FIELD_END[0]) && TEST != "" && !IsIdentChar(TEST[0])
    ensures FOUND != "" && !IsIdentChar(FOUND[0]) && RETURN != "" && !IsIdentChar(RETURN[0])
    ensures AND != "" && !IsIdentChar(AND[0]) && ROW_DONE != "" && !IsIdentChar(ROW_DONE[0])
    ensures INITIAL != "" && !IsIdentChar(INITIAL[0])
  {
    assert FIELD_END[0] == ';' && TEST[0] == ' ' && FOUND[0] == ' ' && RETURN[0] == ';';
    assert AND[0] == ',' && ROW_DONE[0] == '}' && INITIAL[0] == ' ';
  }

  lemma {:induction false} ReadFieldsBack(rest: string)
    ensures ReadFields(TABLE_OPEN + rest) == Some((Fields(NAME, DATA), rest))
  {
    hide Strip, ReadIdent, TABLE_OPEN, STRUCT, FIELD, FIELD_END, ROWS, NAME, DATA, TEST, FOUND, RETURN, AND, ROW_DONE,
      INITIAL, IsIdent, IsIdentChar;
    TableText(rest);
    FieldsAreIdents();
    HeadsStop();
    var t6 := ROWS + rest;
    var t4 := DATA + (FIELD_END + t6);
    var t1 := NAME + (FIELD_END + (FIELD + t4));
    StripPrefix(STRUCT, FIELD + t1);
    StripPrefix(FIELD, t1);
    IdentThen(NAME, FIELD_END, FIELD + t4);
    StripPrefix(FIELD_END, FIELD + t4);
    StripPrefix(FIELD, t4);
    IdentThen(DATA, FIELD_END, t6);
    StripPrefix(FIELD_END, t6);
    StripPrefix(ROWS, rest);
  }

  lemma {:induction false} ReadLookupBack(rest: string)
    ensures ReadLookup(LOOKUP_CODE + rest) == Some((Lookup(NAME, NAME, DATA), rest))
  {
    hide Strip, ReadIdent, LOOKUP_CODE, FUNCTION, LOOP, NAME, DATA, TEST, FOUND, RETURN, FIELD_END, AND, ROW_DONE,
      INITIAL, IsIdent, IsIdentChar;
    LookupText(rest);
    FieldsAreIdents();
    HeadsStop();
    var t5 := DATA + (RETURN + rest);
    var t3 := NAME + (FOUND + t5);
    var t1 := NAME + (TEST + t3);
    StripPrefix(FUNCTION, LOOP + t1);
    StripPrefix(LOOP, t1);
    IdentThen(NAME, TEST, t3);
    StripPrefix(TEST, t3);
    IdentThen(NAME, FOUND, t5);
    StripPrefix(FOUND, t5);
    IdentThen(DATA, RETURN, rest);
    StripPrefix(RETURN, rest);
  }

  lemma {:induction false} ReadRowBack(k: nat, rest: string)
    ensures ReadRow(RowText(k, rest)) == Some(((NameId(k), DataId(k)), rest))
    ensures ROW <= RowText(k, rest)
  {
    hide Strip, ReadIdent, NatToString, ROW_NAME, ROW_DATA, ROW_END, ROW, AND, ROW_DONE, NAME_STEM, DATA_STEM,
      FIELD_END, TEST, FOUND, RETURN, INITIAL, IsIdent, IsIdentChar;
    RowTexts();
    IdsAreIdents(k);
    HeadsStop();
    var t3 := ROW_DONE + rest;
    var t2 := DataId(k) + t3;
    var t1 := AND + t2;
    Join(AND, DATA_STEM, NatToString(k) + t3);
    Join(DATA_STEM, NatToString(k), t3);
    Join(ROW, NAME_STEM, NatToString(k) + t1);
    Join(NAME_STEM, NatToString(k), t1);
    assert RowText(k, rest) == ROW + (NameId(k) + t1);
    StripPrefix(ROW, NameId(k) + t1);
    IdentThen(NameId(k), AND, t2);
    StripPrefix(AND, t2);
    IdentThen(DataId(k), ROW_DONE, rest);
    StripPrefix(ROW_DONE, rest);
  }

  /** The rows of n files numbered from k. */
  function RowIds(k: nat, n: nat): (rows: seq<(string, string)>)
    ensures |rows| == n
    decreases n
  {
    if n == 0 then [] else [(NameId(k), DataId(k))] + RowIds(k + 1, n - 1)
  }

  lemma {:induction false} ReadRowsBack(k: nat, n: nat, rest: string)
    requires !(ROW <= rest)
    ensures ReadRows(RowsText(k, n, rest)) == Some((RowIds(k, n), rest))
    decreases n
  {
    hide ReadRow, RowText, ROW, NameId, DataId;
    if n > 0 {
      ReadRowsBack(k + 1, n - 1, rest);
      ReadRowBack(k, RowsText(k + 1, n - 1, rest));
    }
  }

  lemma Distinguished(rest: string)
    ensures !(VARIABLE <= TABLE_OPEN + rest)
    ensures !(ROW <= NULL_ROW + rest)
  {
    assert STRUCT_OPEN[15] == 'r' && VARIABLE[15] == 'd' && |STRUCT_OPEN| > 15;
    assert TABLE_OPEN[15] == STRUCT_OPEN[15];
    assert NULL_ROW[3] == 'N' && ROW[3] == '&';
    hide *;
    assert (TABLE_OPEN + rest)[15] == TABLE_OPEN[15];
    assert (NULL_ROW + rest)[3] == NULL_ROW[3];
  }

  /** What follows the declarations of n files. */
  function PrintedTail(n: nat): Tail {
    Tail(Fields(NAME, DATA), RowIds(1, n), Lookup(NAME, NAME, DATA))
  }

  lemma {:induction false} ReadTailBack(n: nat)
    ensures ReadTail(TailText(n)) == Some(PrintedTail(n))
    ensures !(VARIABLE <= TailText(n))
  {
    hide Strip, ReadFields, ReadRows, ReadLookup, RowsText, RowIds, TABLE_OPEN, TABLE_CLOSE, LOOKUP_CODE, EPILOGUE,
      VARIABLE, ROW, NULL_ROW, GUARD_END, NAME, DATA, PREAMBLE, GUARD;
    FixedTexts();
    var t2 := LOOKUP_CODE + EPILOGUE;
    var t1 := NULL_ROW + t2;
    var rows := RowsText(1, n, t1);
    Distinguished(t2);
    Distinguished(rows);
    ReadFieldsBack(rows);
    ReadRowsBack(1, n, t1);
    StripPrefix(NULL_ROW, t2);
    ReadLookupBack(EPILOGUE);
  }

  // ----- reading back the declarations -----

  /** The files the generator prints so that they can be read back. */
  predicate Embeddable(f: File) {
    PlainName(f.name) && f.data != []
  }

  lemma {:induction false} NoNul(bytes: seq<Byte>)
    requires '\0' !in bytes
    ensures UpToNul(bytes) == bytes
  {
    if bytes != [] {
      assert bytes[0] in bytes && forall c :: c in bytes[1..] ==> c in bytes;
      NoNul(bytes[1..]);
    }
  }

  lemma {:induction false} UpToNulShorter(bytes: seq<Byte>)
    ensures |UpToNul(bytes)| <= |bytes|
    ensures '\0' in bytes ==> |UpToNul(bytes)| < |bytes|
  {
    if bytes != [] { UpToNulShorter(bytes[1..]); }
  }

  /** A printed name is read as itself if it is plain, and otherwise as something shorter, if at all. */
  lemma {:induction false} NameInitial(name: seq<Byte>, rest: string)
    ensures var r := ReadInitial("\"" + (name + ("\"" + (";\n" + rest))));
            && (PlainName(name) ==> r == Some((name, rest)))
            && (!PlainName(name) && r.Some? ==> |r.value.0| < |name|)
  {
    hide Strip, UpToNul, Lex, OpensLiteral, CleanName, CONSTRUCTED;
    var t3 := ";\n" + rest;
    var text := "\"" + (name + ("\"" + t3));
    NotConstructed(text);
    assert OpensLiteral(text) by { QuoteOpens(text); }
    LexQuote([], name + ("\"" + t3));
    OnlyCleanNamesSurvive(name, rest);
    NameReadsBackExactly(name, t3);
    StripPrefix(";\n", rest);
    if '\0' !in name { NoNul(name); }
    var r := Lex(Between, [], text);
    if r.Some? { UpToNulShorter(r.value.0); }
  }

  lemma NotConstructed(text: string)
    requires text != "" && text[0] == '"'
    ensures !(CONSTRUCTED <= text)
  {
    assert CONSTRUCTED[0] == 's';
  }

  lemma QuoteOpens(text: string)
    requires text != "" && text[0] == '"'
    ensures OpensLiteral(text)
  {
  }

  lemma {:induction false} DeclOf(id: string, initial: string)
    requires IsIdent(id)
    ensures var r, i := ReadDecl(VARIABLE + (id + (INITIAL + initial))), ReadInitial(initial);
            r == if i.Some? then Some(((id, i.value.0), i.value.1)) else None
  {
    hide Strip, ReadIdent, ReadInitial, VARIABLE, INITIAL, FIELD_END, TEST, FOUND, RETURN, AND, ROW_DONE, IsIdent,
      IsIdentChar;
    HeadsStop();
    StripPrefix(VARIABLE, id + (INITIAL + initial));
    IdentThen(id, INITIAL, initial);
    StripPrefix(INITIAL, initial);
  }

  lemma {:induction false} ReadNameBack(k: nat, name: seq<Byte>, rest: string)
    ensures var r := ReadDecl(NameText(k, name, rest));
            && (PlainName(name) ==> r == Some(((NameId(k), name), rest)))
            && (!PlainName(name) && r.Some? ==> r.value.0.0 == NameId(k) && |r.value.0.1| < |name|)
    ensures VARIABLE <= NameText(k, name, rest)
  {
    var t := "\"" + (name + ("\"" + (";\n" + rest)));
    assert INITIAL == " = ";
    assert NameText(k, name, rest) == NAME_DECL + (NatToString(k) + (INITIAL + t));
    hide ReadDecl, ReadInitial, NameText, NatToString, NAME_DECL, DATA_DECL, VARIABLE, INITIAL, NAME_STEM, DATA_STEM,
      IsIdent, PlainName;
    DeclTexts();
    IdsAreIdents(k);
    Join(VARIABLE, NAME_STEM, NatToString(k) + (INITIAL + t));
    Join(NAME_STEM, NatToString(k), INITIAL + t);
    DeclOf(NameId(k), t);
    NameInitial(name, rest);
  }

  lemma {:induction false} PrintedOpens(data: seq<Byte>, rest: string)
    ensures OpensLiteral(Printed(data) + ("\"" + rest))
  {
    var text := Printed(data) + ("\"" + rest);
    if data == [] {
      assert text == "\"" + rest;
    } else {
      PrintedStart(data);
      assert text[..4] == Printed(data)[..4];
      OpensAfterIndent(text);
    }
  }

  lemma {:induction false} PrintedStart(data: seq<Byte>)
    requires data != []
    ensures |Printed(data)| >= 4 && Printed(data)[..4] == "\n  \""
  {
    hide HexEscape;
    var j := |data| - 1;
    if j == 0 {
      assert data[..0] == [];
      assert Printed(data) == "\n  \"" + HexEscape(data[0]);
    } else {
      PrintedStart(data[..j]);
      assert Printed(data[..j]) <= Printed(data);
    }
  }

  lemma {:induction false} OpensAfterIndent(text: string)
    requires |text| >= 4 && text[..4] == "\n  \""
    ensures OpensLiteral(text)
  {
    assert text[0] == text[..4][0] && text[1] == text[..4][1] && text[2] == text[..4][2] && text[3] == text[..4][3];
    assert OpensLiteral(text[1..][1..][1..]);
  }

  lemma {:induction false} DataInitial(data: seq<Byte>, rest: string)
    ensures var r := ReadFromLength(Printed(data) + ("\"" + (",\n  " + (NatToString(|data|) + (");\n\n" + rest)))));
            r == if data != [] then Some((data, rest)) else None
  {
    hide Strip, ReadNumber, NatToString, Lex, Printed, OpensLiteral;
    var t2 := ");\n\n" + rest;
    var t1 := NatToString(|data|) + t2;
    var t0 := ",\n  " + t1;
    PrintedOpens(data, t0);
    if data != [] {
      LexClosed(data, t0);
      StripPrefix(",\n  ", t1);
      ReadNumberBack(|data|, t2);
      StripPrefix(");\n\n", rest);
      assert (data + ['\0'])[..|data|] == data;
    } else {
      assert t0 == ",\n" + ("  " + t1);
      EmptyDataIllFormed("  " + t1);
    }
  }

  lemma {:induction false} ReadDataBack(k: nat, data: seq<Byte>, rest: string)
    ensures ReadDecl(DataText(k, data, rest)) == if data != [] then Some(((DataId(k), data), rest)) else None
    ensures VARIABLE <= DataText(k, data, rest)
  {
    var t := Printed(data) + ("\"" + (",\n  " + (NatToString(|data|) + (");\n\n" + rest))));
    assert INITIAL + CONSTRUCTED == " = std::string(";
    assert DataText(k, data, rest) == DATA_DECL + (NatToString(k) + (INITIAL + CONSTRUCTED + t));
    hide ReadDecl, ReadFromLength, ReadFromLiteral, DataText, NatToString, NAME_DECL, DATA_DECL, VARIABLE, INITIAL,
      CONSTRUCTED, NAME_STEM, DATA_STEM, IsIdent, Printed;
    DeclTexts();
    IdsAreIdents(k);
    Join(INITIAL, CONSTRUCTED, t);
    Join(VARIABLE, DATA_STEM, NatToString(k) + (INITIAL + (CONSTRUCTED + t)));
    Join(DATA_STEM, NatToString(k), INITIAL + (CONSTRUCTED + t));
    DeclOf(DataId(k), CONSTRUCTED + t);
    assert (CONSTRUCTED + t)[|CONSTRUCTED|..] == t;
    DataInitial(data, rest);
  }

  lemma DeclsStep(text: string)
    requires VARIABLE <= text
    ensures ReadDecl(text).None? ==> ReadDecls(text) == None
    ensures ReadDecl(text).Some? ==>
              var (decl, t) := ReadDecl(text).value;
              && |t| < |text|
              && ReadDecls(text) == match ReadDecls(t)
                                    case None => None
                                    case Some(later) => Some(([decl] + later.0, later.1))
  {
    hide ReadDecl, VARIABLE;
  }

  /** The variables of files numbered from k. */
  function DeclsOf(k: nat, files: seq<File>): seq<Variable>
    decreases files
  {
    if files == [] then []
    else [(NameId(k), files[0].name)] + ([(DataId(k), files[0].data)] + DeclsOf(k + 1, files[1..]))
  }

  /** Reading the declarations of one file and of what follows. */
  lemma {:induction false} FileStep(k: nat, f: File, later: string)
    ensures var r := ReadDecls(NameText(k, f.name, DataText(k, f.data, later)));
            && (Embeddable(f) ==>
                  r == match ReadDecls(later)
                       case None => None
                       case Some(rest) => Some(([(NameId(k), f.name)] + ([(DataId(k), f.data)] + rest.0), rest.1)))
            && (PlainName(f.name) && f.data == [] ==> r == None)
            && (!PlainName(f.name) && r.Some? ==>
                  r.value.0 != [] && r.value.0[0].0 == NameId(k) && |r.value.0[0].1| < |f.name|)
  {
    hide ReadDecl, ReadDecls, NameText, DataText, NameId, DataId, PlainName, VARIABLE;
    var data := DataText(k, f.data, later);
    ReadDataBack(k, f.data, later);
    ReadNameBack(k, f.name, data);
    DeclsStep(NameText(k, f.name, data));
    DeclsStep(data);
  }

  lemma {:induction false} ReadDeclsBack(k: nat, files: seq<File>, rest: string)
    requires forall i :: 0 <= i < |files| ==> Embeddable(files[i])
    requires !(VARIABLE <= rest)
    ensures ReadDecls(FilesText(k, files, rest)) == Some((DeclsOf(k, files), rest))
    decreases files
  {
    hide ReadDecl, NameText, DataText, VARIABLE, NameId, DataId, Embeddable;
    if files != [] {
      var later := files[1..];
      assert forall i :: 0 <= i < |later| ==> later[i] == files[i + 1];
      ReadDeclsBack(k + 1, later, rest);
      FileStep(k, files[0], FilesText(k + 1, later, rest));
    }
  }

  // ----- what the table gives back -----

  lemma {:induction false} DeclaredAt(k: nat, files: seq<File>, i: nat)
    requires i < |files|
    ensures Declared(DeclsOf(k, files), NameId(k + i)) == Some(files[i].name)
    ensures Declared(DeclsOf(k, files), DataId(k + i)) == Some(files[i].data)
    decreases files
  {
    hide NameId, DataId;
    var later := DeclsOf(k + 1, files[1..]);
    IdsDiffer(k, k + i);
    IdsDiffer(k + i, k);
    DeclaredTwo((NameId(k), files[0].name), (DataId(k), files[0].data), later, NameId(k + i));
    DeclaredTwo((NameId(k), files[0].name), (DataId(k), files[0].data), later, DataId(k + i));
    if i > 0 { DeclaredAt(k + 1, files[1..], i - 1); }
  }

  lemma DeclaredTwo(a: Variable, b: Variable, later: seq<Variable>, id: string)
    ensures Declared([a] + ([b] + later), id)
         == if a.0 == id then Some(a.1) else if b.0 == id then Some(b.1) else Declared(later, id)
  {
    assert ([a] + ([b] + later))[1..] == [b] + later && ([b] + later)[1..] == later;
  }

  /** A variable of a number from k on. */
  ghost predicate IdFrom(k: nat, id: string) {
    exists m :: k <= m && (id == NameId(m) || id == DataId(m))
  }

  ghost predicate AllFrom(k: nat, decls: seq<Variable>) {
    forall i :: 0 <= i < |decls| ==> IdFrom(k, decls[i].0)
  }

  lemma {:induction false} LaterIds(k: nat, id: string)
    requires IdFrom(k + 1, id)
    ensures IdFrom(k, id) && id != NameId(k) && id != DataId(k)
  {
    hide NameId, DataId;
    var m :| k + 1 <= m && (id == NameId(m) || id == DataId(m));
    IdsDiffer(m, k);
    IdsDiffer(k, m);
  }

  lemma OwnIds(k: nat)
    ensures IdFrom(k, NameId(k)) && IdFrom(k, DataId(k)) && NameId(k) != DataId(k)
  {
    hide NameId, DataId;
    IdsDiffer(k, k);
  }

  lemma DistinctTwo(a: Variable, b: Variable, later: seq<Variable>)
    requires Distinct(later) && a.0 != b.0
    requires forall i :: 0 <= i < |later| ==> later[i].0 != a.0 && later[i].0 != b.0
    ensures Distinct([a] + ([b] + later))
  {
  }

  lemma {:induction false} DeclsDistinct(k: nat, files: seq<File>)
    ensures Distinct(DeclsOf(k, files)) && AllFrom(k, DeclsOf(k, files))
    decreases files
  {
    hide NameId, DataId, IdFrom, Distinct;
    if files == [] {
      NoneDistinct();
    } else {
      var later := DeclsOf(k + 1, files[1..]);
      DeclsDistinct(k + 1, files[1..]);
      forall i | 0 <= i < |later|
        ensures IdFrom(k, later[i].0) && later[i].0 != NameId(k) && later[i].0 != DataId(k)
      {
        LaterIds(k, later[i].0);
      }
      OwnIds(k);
      DistinctTwo((NameId(k), files[0].name), (DataId(k), files[0].data), later);
    }
  }

  lemma NoneDistinct()
    ensures Distinct([])
  {
  }

  lemma RowIdsStep(k: nat, n: nat)
    requires n > 0
    ensures RowIds(k, n)[0] == (NameId(k), DataId(k)) && RowIds(k, n)[1..] == RowIds(k + 1, n - 1)
  {
    hide NameId, DataId;
  }

  /** What the printed table and lookup make of any declarations. */
  function Files(decls: seq<Variable>, rows: seq<(string, string)>): Option<seq<File>> {
    Resolve(decls, Fields(NAME, DATA), Lookup(NAME, NAME, DATA), rows)
  }

  lemma FilesStep(decls: seq<Variable>, k: nat, n: nat)
    requires n > 0
    ensures var name, data := Declared(decls, NameId(k)), Declared(decls, DataId(k));
            var later := Files(decls, RowIds(k + 1, n - 1));
            Files(decls, RowIds(k, n)) ==
            if name.Some? && data.Some? && later.Some?
            then Some([HeaderReader.File(name.value, data.value)] + later.value) else None
  {
    hide NameId, DataId, Declared, NAME, DATA, RowIds;
    RowIdsStep(k, n);
    FieldsAreIdents();
  }

  lemma {:induction false} FilesFrom(files: seq<File>, i: nat)
    requires i <= |files|
    ensures Files(DeclsOf(1, files), RowIds(1 + i, |files| - i)) == Some(files[i..])
    decreases |files| - i
  {
    hide Declared, DeclsOf, NameId, DataId;
    if i == |files| {
      assert files[i..] == [];
    } else {
      FilesFrom(files, i + 1);
      DeclaredAt(1, files, i);
      FilesStep(DeclsOf(1, files), 1 + i, |files| - i);
      assert files[i..] == [files[i]] + files[i + 1..];
    }
  }

  lemma {:induction false} FilesNames(decls: seq<Variable>, k: nat, n: nat, i: nat)
    requires i < n
    ensures var r := Files(decls, RowIds(k, n));
            r.Some? ==> i < |r.value| && Declared(decls, NameId(k + i)) == Some(r.value[i].name)
    decreases n
  {
    hide Declared, NameId, DataId, Files, RowIds;
    FilesStep(decls, k, n);
    if i > 0 { FilesNames(decls, k + 1, n - 1, i - 1); }
  }

  lemma PrintedTailTyped(n: nat)
    ensures var tail := PrintedTail(n); WellTyped(tail.fields, tail.lookup)
  {
    hide NAME, DATA, RowIds;
    FieldsAreIdents();
  }

  lemma {:induction false} EmbeddableReadBack(files: seq<File>)
    requires forall i :: 0 <= i < |files| ==> Embeddable(files[i])
    ensures ReadSpliced(Header(files)) == Some(files)
  {
    hide Strip, PREAMBLE, GUARD, TABLE_CLOSE, NULL_ROW, EPILOGUE, GUARD_END, ReadDecls, FilesText, ReadTail, TailText,
      DeclsOf, Embeddable, VARIABLE, Resolve, RowIds, NAME, DATA, WellTyped, Distinct;
    var rest := TailText(|files|);
    FixedTexts();
    StripPrefix(GUARD, FilesText(1, files, rest));
    ReadTailBack(|files|);
    PrintedTailTyped(|files|);
    ReadDeclsBack(1, files, rest);
    DeclsDistinct(1, files);
    FilesFrom(files, 0);
    assert files[0..] == files;
  }

  // ----- what cannot be embedded is lost -----

  /** After embeddable files, a name is declared no longer than it is, and shorter unless it is plain. */
  lemma {:induction false} FirstOtherLost(k: nat, files: seq<File>, i: nat, rest: string)
    requires i < |files| && forall j :: 0 <= j < i ==> Embeddable(files[j])
    ensures var r := ReadDecls(FilesText(k, files, rest));
            r.Some? ==>
              && Declared(r.value.0, NameId(k + i)).Some?
              && |Declared(r.value.0, NameId(k + i)).value| <= |files[i].name|
              && (!PlainName(files[i].name) ==> |Declared(r.value.0, NameId(k + i)).value| < |files[i].name|)
              && (PlainName(files[i].name) ==> files[i].data != [])
    decreases files
  {
    hide ReadDecls, NameText, DataText, PlainName, NameId, DataId, Declared;
    var f, later := files[0], files[1..];
    var laterText := FilesText(k + 1, later, rest);
    FileStep(k, f, laterText);
    IdsDiffer(k, k + i);
    IdsDiffer(k + i, k);
    var r, s := ReadDecls(FilesText(k, files, rest)), ReadDecls(laterText);
    if r.Some? {
      if Embeddable(f) {
        DeclaredTwo((NameId(k), f.name), (DataId(k), f.data), s.value.0, NameId(k + i));
      } else {
        DeclaredFirst(r.value.0);
      }
    }
    if i > 0 { FirstOtherLost(k + 1, later, i - 1, rest); }
  }

  lemma DeclaredFirst(decls: seq<Variable>)
    requires decls != []
    ensures Declared(decls, decls[0].0) == Some(decls[0].1)
  {
  }

  lemma {:induction false} FirstOther(files: seq<File>, i: nat) returns (first: nat)
    requires i < |files| && !Embeddable(files[i])
    ensures first <= i && !Embeddable(files[first])
    ensures forall j :: 0 <= j < first ==> Embeddable(files[j])
  {
    hide Embeddable;
    if j :| 0 <= j < i && !Embeddable(files[j]) {
      first := FirstOther(files, j);
    } else {
      first := i;
    }
  }

  lemma SuffixAfter(before: string, rest: string)
    ensures IsSuffix(rest, before + rest)
  {
  }

  lemma NameTextEnds(k: nat, name: string, rest: string)
    ensures IsSuffix(rest, NameText(k, name, rest))
  {
    hide NatToString, NameText, NAME_DECL, IsSuffix;
    NamePieces("", k, name, rest);
    assert "" + NameText(k, name, rest) == NameText(k, name, rest);
    SuffixAfter("" + NAME_DECL + NatToString(k) + " = " + "\"" + name + "\"" + ";\n", rest);
  }

  lemma DataTextEnds(k: nat, data: seq<Byte>, rest: string)
    ensures IsSuffix(rest, DataText(k, data, rest))
  {
    hide NatToString, DataText, DATA_DECL, IsSuffix, Printed;
    DataPieces("", k, data, rest);
    assert "" + DataText(k, data, rest) == DataText(k, data, rest);
    SuffixAfter("" + DATA_DECL + NatToString(k) + " = std::string(" + Printed(data)
                + "\"" + ",\n  " + NatToString(|data|) + ");\n\n", rest);
  }

  lemma {:induction false} FilesTextEnds(k: nat, files: seq<File>, rest: string)
    ensures IsSuffix(rest, FilesText(k, files, rest))
    decreases files
  {
    hide NameText, DataText, IsSuffix;
    if files == [] {
      WholeIsSuffix(rest);
    } else {
      var later := FilesText(k + 1, files[1..], rest);
      var data := DataText(k, files[0].data, later);
      FilesTextEnds(k + 1, files[1..], rest);
      DataTextEnds(k, files[0].data, later);
      NameTextEnds(k, files[0].name, data);
      SuffixOfSuffix(rest, later, data);
      SuffixOfSuffix(rest, data, NameText(k, files[0].name, data));
    }
  }

  /** Whatever the names do to the declarations, a table of n rows at the end of the header is the one printed there. */
  lemma {:induction false} TableAsPrinted(files: seq<File>, tail: string)
    requires IsSuffix(tail, FilesText(1, files, TailText(|files|)))
    requires ReadTail(tail).Some? && |ReadTail(tail).value.rows| == |files|
    ensures ReadTail(tail) == Some(PrintedTail(|files|))
  {
    hide ReadTail, TailText, FilesText, VARIABLE, IsSuffix, NAME, DATA;
    var printed := TailText(|files|);
    ReadTailBack(|files|);
    FilesTextEnds(1, files, printed);
    OneTable(tail, printed, FilesText(1, files, printed));
  }

  /** After embeddable files, a name in the table is no longer than printed, and shorter unless it is plain. */
  lemma {:induction false} OtherHeaderLost(files: seq<File>, i: nat)
    requires i < |files| && forall j :: 0 <= j < i ==> Embeddable(files[j])
    ensures var r := ReadSpliced(Header(files));
            r.Some? ==>
              && (PlainName(files[i].name) ==> files[i].data != [])
              && (|r.value| == |files| ==>
                    && |r.value[i].name| <= |files[i].name|
                    && (!PlainName(files[i].name) ==> |r.value[i].name| < |files[i].name|))
  {
    hide Strip, PREAMBLE, GUARD, TABLE_CLOSE, NULL_ROW, EPILOGUE, GUARD_END, ReadDecls, FilesText, ReadTail, TailText,
      Embeddable, PlainName, Declared, Resolve, RowIds, NAME, DATA, WellTyped, Distinct;
    var text := FilesText(1, files, TailText(|files|));
    FixedTexts();
    StripPrefix(GUARD, text);
    FirstOtherLost(1, files, i, TailText(|files|));
    var r := ReadSpliced(Header(files));
    if r.Some? && |r.value| == |files| {
      var (decls, end) := ReadDecls(text).value;
      var tail := ReadTail(end).value;
      DeclsLeaveSuffix(text);
      ResolveLength(decls, tail.fields, tail.lookup, tail.rows);
      TableAsPrinted(files, end);
      FilesNames(decls, 1, |files|, i);
    }
  }

  // ----- the exact theorems -----

  lemma SplicedEmbeddable(files: seq<File>, n: nat)
    requires n <= |files| && forall j :: 0 <= j < n ==> Embeddable(files[j])
    ensures forall j :: 0 <= j < n ==> SplicedNames(files)[j] == files[j]
  {
    hide PlainName, SplicedName;
  }

  /** The declarations read, with every name in its variable, exactly when all files are embeddable. */
  lemma {:induction false} NamesDeclaredExactly(files: seq<File>)
    ensures var r := ReadDecls(Splice(FilesText(1, files, TailText(|files|))));
            (r.Some? && forall i :: 0 <= i < |files| ==> Declared(r.value.0, NameId(1 + i)) == Some(files[i].name))
            <==> forall i :: 0 <= i < |files| ==> Embeddable(files[i])
  {
    hide Splice, ReadDecls, FilesText, TailText, PlainName, Declared, VARIABLE, SplicedName, SplicedNames, NameId,
      DeclsOf, PrintedTail, ReadTail;
    var rest := TailText(|files|);
    var spliced := SplicedNames(files);
    SpliceTail(|files|);
    SpliceFilesText(1, files, rest);
    var r := ReadDecls(FilesText(1, spliced, rest));
    if i :| 0 <= i < |files| && !Embeddable(files[i]) {
      var first := FirstOther(files, i);
      SplicedEmbeddable(files, first);
      FirstOtherLost(1, spliced, first, rest);
    } else {
      SplicedEmbeddable(files, |files|);
      assert spliced == files;
      ReadTailBack(|files|);
      ReadDeclsBack(1, files, rest);
      forall i | 0 <= i < |files|
        ensures Declared(r.value.0, NameId(1 + i)) == Some(files[i].name)
      {
        DeclaredAt(1, files, i);
      }
    }
  }

  /**
   Reading the generated header gives the files back, in order and with every byte, exactly when no file is empty
   and no name holds a quote, backslash, newline or NUL; with plain names and an empty file it is ill-formed.
   */
  lemma {:induction false} HeaderReadsBack(files: seq<File>)
    ensures ReadHeader(Header(files)) == Some(files) <==> forall i :: 0 <= i < |files| ==> Embeddable(files[i])
    ensures (forall i :: 0 <= i < |files| ==> PlainName(files[i].name)) ==>
              (exists i :: 0 <= i < |files| && files[i].data == []) ==> ReadHeader(Header(files)) == None
  {
    hide Splice, ReadSpliced, Header, PlainName, SplicedName, SplicedNames;
    SpliceHeader(files);
    if i :| 0 <= i < |files| && !Embeddable(files[i]) {
      var first := FirstOther(files, i);
      SplicedEmbeddable(files, first);
      OtherHeaderLost(SplicedNames(files), first);
    } else {
      SplicedEmbeddable(files, |files|);
      assert SplicedNames(files) == files;
      EmbeddableReadBack(files);
    }
  }

  // ----- the emitted lookup -----

  /** A row of the table; the null row ends it. */
  type TableRow = Option<File>

  /** The table with its null row. */
  function Table(files: seq<File>): (rows: seq<TableRow>)
    ensures |rows| == |files| + 1 && rows[|files|] == None
    ensures forall i :: 0 <= i < |files| ==> rows[i] == Some(files[i])
  {
    seq(|files|, i requires 0 <= i < |files| => Some(files[i])) + [None]
  }

  /** find_embedded_file: the data of the first file with that name, or false and the data argument as it was. */
  method FindEmbeddedFile(files: seq<File>, name: seq<Byte>, data: seq<Byte>) returns (found: bool, result: seq<Byte>)
    ensures found <==> exists i :: 0 <= i < |files| && files[i].name == name
    ensures found ==> exists i :: 0 <= i < |files| && files[i].name == name && files[i].data == result
                               && forall j :: 0 <= j < i ==> files[j].name != name
    ensures !found ==> result == data
  {
    var rows := Table(files);
    var p := 0;
    while rows[p] != None
      invariant 0 <= p <= |files|
      invariant forall j :: 0 <= j < p ==> files[j].name != name
      decreases |files| - p
    {
      if rows[p].value.name == name {
        return true, rows[p].value.data;
      }
      p := p + 1;
    }
    return false, data;
  }

  /**
   The purpose of the program: a file given to the generator is found under its name, byte for byte, by the lookup in
   the generated header. There is no header when a file does not open, and no lookup when the header cannot be read.
   */
  method EmbedAndFind(args: seq<Argument>, name: seq<Byte>) returns (found: Option<(bool, seq<Byte>)>)
    ensures (exists i :: 0 <= i < |args| && args[i].content.None?) ==> found == None
    ensures (forall i :: 0 <= i < |args| ==>
               args[i].content.Some? && Embeddable(HeaderReader.File(args[i].name, args[i].content.value))) ==>
              && found.Some?
              && (found.value.0 <==> exists i :: 0 <= i < |args| && args[i].name == name)
              && (found.value.0 ==>
                    exists i :: 0 <= i < |args| && args[i].name == name && args[i].content == Some(found.value.1)
                                && forall j :: 0 <= j < i ==> args[j].name != name)
  {
    hide PlainName, Header, ReadHeader;
    var ok, header := Generate(args);
    if !ok { return None; }
    OpenedFiles(args);
    HeaderReadsBack(Opened(args));
    var table := ReadHeader(header);
    if table == None { return None; }
    var hit, data := FindEmbeddedFile(table.value, name, []);
    ghost var all := forall i :: 0 <= i < |args| ==>
        args[i].content.Some? && Embeddable(HeaderReader.File(args[i].name, args[i].content.value));
    if all {
      assert table == Some(Opened(args));
      assert forall i :: 0 <= i < |args| ==> table.value[i].name == args[i].name;
    }
    return Some((hit, data));
  }
}
