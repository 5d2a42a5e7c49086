/**
 The generator of translation_files.h: it prints every file as a name string and a data string, and a table of
 both that ends in a null row.
 */
module TranslationHeader {
  import opened Digits
  import opened DecimalText
  import opened CppLiteral
  import opened Options
  import opened Sequences
  import Reader = HeaderReader

  type File = Reader.File

  const PREAMBLE: string :=
    "#ifndef TRANSLATION_FILES_H\n" + "#define TRANSLATION_FILES_H\n\n" + "#include <string>\n\n"
  const NAME_DECL: string := "static const std::string " + "translation_file_name_"
  const DATA_DECL: string := "static const std::string " + "translation_file_data_"
  const STRUCT_OPEN: string := "static const struct embedded_file {\n"
  const STRUCT_FIELDS: string := "  const std::string *name;\n" + "  const std::string *data;\n"
  const TABLE_OPEN: string := STRUCT_OPEN + STRUCT_FIELDS + "} embedded_files[] = {\n"
  const ROW_NAME: string := "  {&" + "translation_file_name_"
  const ROW_DATA: string := ", &" + "translation_file_data_"
  const ROW_END: string := "},\n"
  const TABLE_CLOSE: string := "  {NULL, NULL}\n};\n\n"
  const LOOKUP_OPEN: string :=
    "static bool find_embedded_file(" + "const std::string &name, " + "std::string &data) {\n"
  const LOOKUP_LOOP: string :=
    "  const struct embedded_file *p;\n" + "  for (p = embedded_files; " + "p->name != NULL; p++) {\n"
  const LOOKUP_HIT: string := "    if (*p->name == name) {\n" + "      data = *p->data;\n" + "      return true;\n"
  const LOOKUP_CODE: string := LOOKUP_OPEN + LOOKUP_LOOP + LOOKUP_HIT + "    }\n  }\n  return false;\n}\n\n"
  const EPILOGUE: string := "#endif /* TRANSLATION_FILES_H */\n"

  // ----- the generated text, each piece followed by the rest -----

  function NameText(k: nat, name: string, rest: string): string {
    NAME_DECL + (NatToString(k) + (" = " + ("\"" + (name + ("\"" + (";\n" + rest))))))
  }

  function DataText(k: nat, data: seq<Byte>, rest: string): string {
    DATA_DECL + (NatToString(k) + (" = std::string(" +
      (Printed(data) + ("\"" + (",\n  " + (NatToString(|data|) + (");\n\n" + rest)))))))
  }

  function FilesText(k: nat, files: seq<File>, rest: string): string
    decreases files
  {
    if files == [] then rest
    else NameText(k, files[0].name, DataText(k, files[0].data, FilesText(k + 1, files[1..], rest)))
  }

  function RowText(k: nat, rest: string): string {
    ROW_NAME + (NatToString(k) + (ROW_DATA + (NatToString(k) + (ROW_END + rest))))
  }

  function RowsText(k: nat, n: nat, rest: string): string
    decreases n
  {
    if n == 0 then rest else RowText(k, RowsText(k + 1, n - 1, rest))
  }

  function TailText(n: nat): string {
    TABLE_OPEN + RowsText(1, n, TABLE_CLOSE + (LOOKUP_CODE + EPILOGUE))
  }

  function Header(files: seq<File>): string {
    PREAMBLE + FilesText(1, files, TailText(|files|))
  }

  // ----- the generator -----

  /** An argument: the name, and the bytes of the file unless it cannot be opened. */
  datatype Argument = Argument(name: seq<Byte>, content: Option<seq<Byte>>)

  function Opened(args: seq<Argument>): (files: seq<File>)
    ensures |files| <= |args|
    ensures |files| == |args| <==> forall i :: 0 <= i < |args| ==> args[i].content.Some?
    decreases args
  {
    if args == [] || args[0].content.None? then []
    else [Reader.File(args[0].name, args[0].content.value)] + Opened(args[1..])
  }

  /** The output with every file opened, or what was written before the first that could not be. */
  method Generate(args: seq<Argument>) returns (ok: bool, out: string)
    ensures ok <==> forall i :: 0 <= i < |args| ==> args[i].content.Some?
    ensures out == if ok then Header(Opened(args)) else PREAMBLE + FilesText(1, Opened(args), "")
  {
    hide NatToString, Printed, NameText, DataText, RowsText, TailText,
      NAME_DECL, DATA_DECL, PREAMBLE, TABLE_OPEN, TABLE_CLOSE, LOOKUP_CODE, EPILOGUE;
    out := PREAMBLE;
    var i := 1;
    ghost var rest := if |Opened(args)| == |args| then TailText(|args|) else "";
    ghost var whole := PREAMBLE + FilesText(1, Opened(args), rest);
    assert args[0..] == args;
    while i <= |args|
      invariant 1 <= i <= |args| + 1
      invariant forall j :: 0 <= j < i - 1 ==> args[j].content.Some?
      invariant whole == out + FilesText(i, Opened(args[i - 1..]), rest)
      invariant |Opened(args[i - 1..])| == |args| - (i - 1) <==> |Opened(args)| == |args|
    {
      var arg := args[i - 1];
      if arg.content.None? {
        assert Opened(args[i - 1..]) == [];
        assert rest == "";
        assert out + "" == out;
        return false, out;
      }
      assert args[i - 1..][1..] == args[i..];
      ghost var later := FilesText(i + 1, Opened(args[i..]), rest);
      ghost var before := out;
      out := out + NAME_DECL + NatToString(i) + " = " + "\"" + arg.name + "\"" + ";\n";
      NamePieces(before, i, arg.name, DataText(i, arg.content.value, later));
      var literal := PrintBytes(arg.content.value);
      ghost var named := out;
      out := out + DATA_DECL + NatToString(i) + " = std::string(" + literal;
      out := out + "\"" + ",\n  " + NatToString(|arg.content.value|) + ");\n\n";
      DataPieces(named, i, arg.content.value, later);
      i := i + 1;
    }
    assert Opened(args[|args|..]) == [];
    ok := true;
    var rows := PrintRows(|args|);
    TailPieces(out, |args|);
    out := out + TABLE_OPEN + rows + TABLE_CLOSE + LOOKUP_CODE + EPILOGUE;
  }

  lemma Join4(out: string, a: string, b: string, c: string, d: string, rest: string)
    ensures out + a + b + c + d + rest == out + (a + (b + (c + (d + rest))))
  {
    Join(out + a + b + c, d, rest);
    Join(out + a + b, c, d + rest);
    Join(out + a, b, c + (d + rest));
    Join(out, a, b + (c + (d + rest)));
  }

  lemma NamePieces(out: string, k: nat, name: string, rest: string)
    ensures out + NAME_DECL + NatToString(k) + " = " + "\"" + name + "\"" + ";\n" + rest
         == out + NameText(k, name, rest)
  {
    hide NatToString, NAME_DECL;
    var quoted := name + ("\"" + (";\n" + rest));
    Join4(out + NAME_DECL + NatToString(k) + " = ", "\"", name, "\"", ";\n", rest);
    Join4(out, NAME_DECL, NatToString(k), " = ", "\"", quoted);
    Join(out + NAME_DECL + NatToString(k) + " = ", "\"", quoted);
  }

  lemma DataPieces(out: string, k: nat, data: seq<Byte>, rest: string)
    ensures out + DATA_DECL + NatToString(k) + " = std::string(" + Printed(data)
              + "\"" + ",\n  " + NatToString(|data|) + ");\n\n" + rest
         == out + DataText(k, data, rest)
  {
    hide NatToString, Printed, DATA_DECL;
    var before := out + DATA_DECL + NatToString(k) + " = std::string(" + Printed(data);
    Join4(before, "\"", ",\n  ", NatToString(|data|), ");\n\n", rest);
    Join4(out, DATA_DECL, NatToString(k), " = std::string(", Printed(data),
          "\"" + (",\n  " + (NatToString(|data|) + (");\n\n" + rest))));
  }

  lemma RowPieces(out: string, k: nat, rest: string)
    ensures out + ROW_NAME + NatToString(k) + ROW_DATA + NatToString(k) + ROW_END + rest == out + RowText(k, rest)
  {
    hide NatToString, ROW_NAME, ROW_DATA, ROW_END;
    Join(out + ROW_NAME + NatToString(k) + ROW_DATA + NatToString(k), ROW_END, rest);
    Join4(out, ROW_NAME, NatToString(k), ROW_DATA, NatToString(k), ROW_END + rest);
  }

  lemma TailPieces(out: string, n: nat)
    ensures out + TABLE_OPEN + RowsText(1, n, "") + TABLE_CLOSE + LOOKUP_CODE + EPILOGUE == out + TailText(n)
  {
    hide RowsText, TABLE_OPEN, TABLE_CLOSE, LOOKUP_CODE, EPILOGUE;
    RowsThenRest(1, n, TABLE_CLOSE + (LOOKUP_CODE + EPILOGUE));
    Join(out + TABLE_OPEN + RowsText(1, n, "") + TABLE_CLOSE, LOOKUP_CODE, EPILOGUE);
    Join(out + TABLE_OPEN + RowsText(1, n, ""), TABLE_CLOSE, LOOKUP_CODE + EPILOGUE);
    Join(out + TABLE_OPEN, RowsText(1, n, ""), TABLE_CLOSE + (LOOKUP_CODE + EPILOGUE));
    Join(out, TABLE_OPEN, RowsText(1, n, TABLE_CLOSE + (LOOKUP_CODE + EPILOGUE)));
  }

  method PrintRows(n: nat) returns (out: string)
    ensures out == RowsText(1, n, "")
  {
    hide NatToString, RowText, ROW_NAME, ROW_DATA, ROW_END;
    out := "";
    var i := 1;
    while i <= n
      invariant 1 <= i <= n + 1
      invariant out + RowsText(i, n - (i - 1), "") == RowsText(1, n, "")
    {
      RowPieces(out, i, RowsText(i + 1, n - i, ""));
      out := out + ROW_NAME + NatToString(i) + ROW_DATA + NatToString(i) + ROW_END;
      i := i + 1;
    }
    assert out + "" == out;
  }

  lemma {:induction false} RowsThenRest(k: nat, n: nat, rest: string)
    ensures RowsText(k, n, "") + rest == RowsText(k, n, rest)
    decreases n
  {
    hide NatToString, RowText, ROW_NAME, ROW_DATA, ROW_END;
    if n == 0 {
      assert "" + rest == rest;
    } else {
      RowsThenRest(k + 1, n - 1, rest);
      RowThenRest(k, RowsText(k + 1, n - 1, ""), rest);
    }
  }

  lemma RowThenRest(k: nat, inner: string, rest: string)
    ensures RowText(k, inner) + rest == RowText(k, inner + rest)
  {
    hide RowText;
    RowPieces("", k, inner);
    RowPieces("", k, inner + rest);
    assert "" + RowText(k, inner) == RowText(k, inner) && "" + RowText(k, inner + rest) == RowText(k, inner + rest);
    Join("" + ROW_NAME + NatToString(k) + ROW_DATA + NatToString(k) + ROW_END, inner, rest);
  }

  /** What was written when the first file failed to open: exactly the files before it. */
  lemma {:induction false} OpenedFiles(args: seq<Argument>)
    ensures var n := |Opened(args)|;
            && (n < |args| ==> args[n].content.None?)
            && forall i :: 0 <= i < n ==>
                 args[i].content.Some? && Opened(args)[i] == Reader.File(args[i].name, args[i].content.value)
  {
    if args != [] && args[0].content.Some? {
      OpenedFiles(args[1..]);
      assert forall i :: 0 < i < |args| ==> args[i] == args[1..][i - 1];
    }
  }

  // ----- line splicing changes names only -----

  /** A name without quote, backslash, newline or NUL. */
  predicate PlainName(name: seq<Byte>) {
    CleanName(name) && '\0' !in name
  }

  function SplicedName(f: File): (g: File)
    ensures g.data == f.data && |g.name| <= |f.name|
    ensures |g.name| == |f.name| ==> g == f
    ensures PlainName(f.name) ==> g == f
  {
    SpliceShortens(f.name);
    assert PlainName(f.name) ==> Splice(f.name) == f.name by {
      if PlainName(f.name) { NothingToSplice(f.name); }
    }
    Reader.File(Splice(f.name), f.data)
  }

  function SplicedNames(files: seq<File>): (r: seq<File>)
    ensures |r| == |files| && forall i :: 0 <= i < |files| ==> r[i] == SplicedName(files[i])
  {
    if files == [] then [] else [SplicedName(files[0])] + SplicedNames(files[1..])
  }

  lemma DeclsArePlain()
    ensures NoBackslash(NAME_DECL) && NoBackslash(DATA_DECL)
  {
  }

  lemma PreambleIsPlain()
    ensures NoBackslash(PREAMBLE)
  {
  }

  lemma RowIsPlain()
    ensures NoBackslash(ROW_NAME) && NoBackslash(ROW_DATA) && NoBackslash(ROW_END)
  {
  }

  lemma TableIsPlain()
    ensures NoBackslash(TABLE_OPEN)
  {
    StructIsPlain();
    assert NoBackslash("} embedded_files[] = {\n");
    hide STRUCT_OPEN, STRUCT_FIELDS;
  }

  lemma StructIsPlain()
    ensures NoBackslash(STRUCT_OPEN) && NoBackslash(STRUCT_FIELDS)
  {
  }

  lemma EndIsPlain()
    ensures NoBackslash(TABLE_CLOSE) && NoBackslash(EPILOGUE)
  {
  }

  lemma LookupIsPlain()
    ensures NoBackslash(LOOKUP_CODE)
  {
    LookupOpenIsPlain();
    LookupLoopIsPlain();
    LookupHitIsPlain();
    hide LOOKUP_OPEN, LOOKUP_LOOP, LOOKUP_HIT;
  }

  lemma LookupOpenIsPlain()
    ensures NoBackslash(LOOKUP_OPEN)
  {
  }

  lemma LookupLoopIsPlain()
    ensures NoBackslash(LOOKUP_LOOP)
  {
  }

  lemma LookupHitIsPlain()
    ensures NoBackslash(LOOKUP_HIT)
  {
  }

  lemma SplicePlain(plain: string, rest: string)
    requires NoBackslash(plain)
    ensures Splice(plain + rest) == plain + Splice(rest)
  {
    hide Splice;
    NothingToSplice(plain);
    SpliceConcat(plain, rest);
  }

  lemma {:induction false} NumberIsPlain(k: nat)
    ensures NoBackslash(NatToString(k))
  {
    var digits := NatToString(k);
    hide NatToString;
    assert AllDigits(digits);
  }

  lemma {:induction false} SpliceNameText(k: nat, f: File, rest: string)
    ensures Splice(NameText(k, f.name, rest)) == NameText(k, SplicedName(f).name, Splice(rest))
  {
    hide Splice, NatToString, NAME_DECL, DATA_DECL;
    DeclsArePlain();
    NumberIsPlain(k);
    var t3 := "\"" + (";\n" + rest);
    var t2 := f.name + t3;
    var t1 := "\"" + t2;
    SplicePlain(";\n", rest);
    SplicePlain("\"", ";\n" + rest);
    SpliceConcat(f.name, t3);
    SplicePlain("\"", t2);
    SplicePlain(" = ", t1);
    SplicePlain(NatToString(k), " = " + t1);
    SplicePlain(NAME_DECL, NatToString(k) + (" = " + t1));
  }

  lemma {:induction false} SpliceDataText(k: nat, data: seq<Byte>, rest: string)
    ensures Splice(DataText(k, data, rest)) == DataText(k, data, Splice(rest))
  {
    hide Splice, NatToString, NAME_DECL, DATA_DECL, Printed;
    DeclsArePlain();
    NumberIsPlain(k);
    NumberIsPlain(|data|);
    var t3 := ",\n  " + (NatToString(|data|) + (");\n\n" + rest));
    var t2 := "\"" + t3;
    var t1 := Printed(data) + t2;
    SplicePlain(");\n\n", rest);
    SplicePlain(NatToString(|data|), ");\n\n" + rest);
    SplicePlain(",\n  ", NatToString(|data|) + (");\n\n" + rest));
    SplicePlain("\"", t3);
    PrintedIsNotSpliced(data);
    SpliceConcat(Printed(data), t2);
    SplicePlain(" = std::string(", t1);
    SplicePlain(NatToString(k), " = std::string(" + t1);
    SplicePlain(DATA_DECL, NatToString(k) + (" = std::string(" + t1));
  }

  lemma {:induction false} SpliceFilesText(k: nat, files: seq<File>, rest: string)
    ensures Splice(FilesText(k, files, rest)) == FilesText(k, SplicedNames(files), Splice(rest))
    decreases files
  {
    hide Splice, NameText, DataText, SplicedName;
    if files != [] {
      var later := FilesText(k + 1, files[1..], rest);
      SpliceFilesText(k + 1, files[1..], rest);
      SpliceDataText(k, files[0].data, later);
      SpliceNameText(k, files[0], DataText(k, files[0].data, later));
      assert SplicedNames(files)[1..] == SplicedNames(files[1..]);
    }
  }

  lemma {:induction false} SpliceRows(k: nat, n: nat, rest: string)
    ensures Splice(RowsText(k, n, rest)) == RowsText(k, n, Splice(rest))
    decreases n
  {
    hide Splice, NatToString, ROW_NAME, ROW_DATA, ROW_END;
    if n > 0 {
      RowIsPlain();
      var later := RowsText(k + 1, n - 1, rest);
      SpliceRows(k + 1, n - 1, rest);
      NumberIsPlain(k);
      SplicePlain(ROW_END, later);
      SplicePlain(NatToString(k), ROW_END + later);
      SplicePlain(ROW_DATA, NatToString(k) + (ROW_END + later));
      SplicePlain(NatToString(k), ROW_DATA + (NatToString(k) + (ROW_END + later)));
      SplicePlain(ROW_NAME, NatToString(k) + (ROW_DATA + (NatToString(k) + (ROW_END + later))));
    }
  }

  lemma SpliceTail(n: nat)
    ensures Splice(TailText(n)) == TailText(n)
  {
    hide Splice, RowsText, TABLE_OPEN, TABLE_CLOSE, LOOKUP_CODE, EPILOGUE;
    TableIsPlain();
    LookupIsPlain();
    EndIsPlain();
    var end := TABLE_CLOSE + (LOOKUP_CODE + EPILOGUE);
    NothingToSplice(EPILOGUE);
    SplicePlain(LOOKUP_CODE, EPILOGUE);
    SplicePlain(TABLE_CLOSE, LOOKUP_CODE + EPILOGUE);
    SpliceRows(1, n, end);
    SplicePlain(TABLE_OPEN, RowsText(1, n, end));
  }

  lemma {:induction false} SpliceHeader(files: seq<File>)
    ensures Splice(Header(files)) == Header(SplicedNames(files))
  {
    hide Splice, PREAMBLE, FilesText, TailText, SplicedNames;
    PreambleIsPlain();
    SpliceTail(|files|);
    SpliceFilesText(1, files, TailText(|files|));
    SplicePlain(PREAMBLE, FilesText(1, files, TailText(|files|)));
  }
}
