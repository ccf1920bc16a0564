/** A reader of typed JSON Lines documents, and the proof that it undoes the printer. */
module JsonlReader {
  import opened Basics
  import opened Values
  import opened Jsonl
  import Numerals
  import Dates

  // The tokens of the format, byte by byte

  const NULL: Bytes := [110, 117, 108, 108]
  const INT64_NAME: Bytes := [105, 110, 116, 54, 52]
  const DOUBLE_NAME: Bytes := [100, 111, 117, 98, 108, 101]
  const DATE_NAME: Bytes := [100, 97, 116, 101]
  const STRING_NAME: Bytes := [115, 116, 114, 105, 110, 103]
  const TRUE_END: Bytes := [116, 114, 117, 101, 125]
  const FALSE_END: Bytes := [102, 97, 108, 115, 101, 125]
  const NAME: Bytes := [123, 34, 110, 97, 109, 101, 34, 58]
  const TYPE: Bytes := [44, 34, 116, 121, 112, 101, 34, 58]
  const NULLABLE: Bytes := [44, 34, 110, 117, 108, 108, 97, 98, 108, 101, 34, 58]
  const SCHEMA_FORMAT: Bytes := [123, 34, 102, 111, 114, 109, 97, 116, 34, 58, 34, 112, 105, 112, 101, 115, 113, 108]
  const SCHEMA_VERSION: Bytes := [45, 106, 115, 111, 110, 108, 34, 44, 34, 118, 101, 114, 115, 105, 111, 110]
  const SCHEMA_COLUMNS: Bytes := [34, 58, 49, 44, 34, 99, 111, 108, 117, 109, 110, 115, 34, 58, 91]
  const SCHEMA: Bytes := SCHEMA_FORMAT + SCHEMA_VERSION + SCHEMA_COLUMNS
  const ROW: Bytes := [123, 34, 114, 111, 119, 34, 58, 91]
  const COMPLETE_HEAD: Bytes := [123, 34, 99, 111, 109, 112, 108, 101, 116, 101, 34, 58]
  const COMPLETE_ROWS: Bytes := [116, 114, 117, 101, 44, 34, 114, 111, 119, 115, 34, 58]
  const COMPLETE: Bytes := COMPLETE_HEAD + COMPLETE_ROWS
  const CLOSE: Bytes := [93, 125]

  /** They are what the printer writes. */
  lemma Tokens()
    ensures Ascii("null") == NULL && NameHead() == NAME && TypeHead() == TYPE && NullableHead() == NULLABLE
    ensures RowHead() == ROW && Close() == CLOSE
    ensures PrintNullable(true) + [125] == TRUE_END && PrintNullable(false) + [125] == FALSE_END
    ensures TypeName(INT64) == INT64_NAME && TypeName(DOUBLE) == DOUBLE_NAME
    ensures TypeName(DATE) == DATE_NAME && TypeName(STRING) == STRING_NAME
  {
  }

  lemma SchemaToken()
    ensures SchemaHead() == SCHEMA
  {
    assert Ascii("{\"format\":\"pipesql") == SCHEMA_FORMAT;
    assert Ascii("-jsonl\",\"version") == SCHEMA_VERSION;
    assert Ascii("\":1,\"columns\":[") == SCHEMA_COLUMNS;
  }

  lemma CompleteToken()
    ensures CompleteHead() == COMPLETE
  {
    assert Ascii("{\"complete\":") == COMPLETE_HEAD;
    assert Ascii("true,\"rows\":") == COMPLETE_ROWS;
  }

  /** A parsed value and the input after it. */
  type Parsed<T> = Option<(T, Bytes)>

  function Expect(literal: Bytes, s: Bytes): Option<Bytes> {
    if literal <= s then Some(s[|literal|..]) else None
  }

  /** The escape after a backslash. `\u` is read for code points below 128, which are
      one byte; the printer writes no other. */
  function ReadEscape(s: Bytes): (r: Parsed<Byte>)
    ensures r.Some? ==> |r.value.1| < |s|
  {
    if s == [] then None
    else if s[0] == QUOTE || s[0] == BACKSLASH || s[0] == 47 then Some((s[0], s[1..]))
    else if s[0] == 98 then Some((8, s[1..]))
    else if s[0] == 102 then Some((12, s[1..]))
    else if s[0] == 110 then Some((10, s[1..]))
    else if s[0] == 114 then Some((13, s[1..]))
    else if s[0] == 116 then Some((9, s[1..]))
    else if s[0] == 117 && |s| >= 5 then
      match Numerals.ReadHex(s[1..5])
      case Some(code) => if code < 128 then Some((code, s[5..])) else None
      case None => None
    else None
  }

  /** String contents up to and including the closing quote. */
  function ReadChars(s: Bytes): (r: Parsed<Bytes>)
    ensures r.Some? ==> |r.value.1| < |s|
    decreases |s|
  {
    if s == [] then None
    else if s[0] == QUOTE then Some(([], s[1..]))
    else if s[0] == BACKSLASH then
      (match ReadEscape(s[1..])
       case None => None
       case Some((b, rest)) =>
         match ReadChars(rest)
         case None => None
         case Some((text, after)) => Some(([b] + text, after)))
    else if s[0] < 32 then None
    else
      match ReadChars(s[1..])
      case None => None
      case Some((text, after)) => Some(([s[0]] + text, after))
  }

  function ReadString(s: Bytes): (r: Parsed<Bytes>)
    ensures r.Some? ==> |r.value.1| < |s|
  {
    if s == [] || s[0] != QUOTE then None else ReadChars(s[1..])
  }

  function Interpret(kind: DataType, text: Bytes): Option<Value> {
    match kind
    case STRING => Some(Text(text))
    case INT64 => (match Numerals.ReadDecimal(text) case Some(i) => Some(Int64(i)) case None => None)
    case DOUBLE =>
      (match Numerals.ReadHex(text)
       case Some(bits) => if |text| == 16 then Some(Double(bits)) else None
       case None => None)
    case DATE => (match Dates.Parse(text) case Some(days) => Some(Date(days)) case None => None)
  }

  function ReadCell(kind: DataType, s: Bytes): (r: Parsed<Value>)
    ensures r.Some? ==> |r.value.1| < |s|
  {
    match Expect(NULL, s)
    case Some(rest) => Some((Null, rest))
    case None =>
      match ReadString(s)
      case None => None
      case Some((text, rest)) =>
        match Interpret(kind, text)
        case None => None
        case Some(v) => Some((v, rest))
  }

  function ReadCells(kinds: seq<DataType>, s: Bytes): Parsed<seq<Value>>
    decreases kinds
  {
    if kinds == [] then Some(([], s))
    else
      match ReadCell(kinds[0], s)
      case None => None
      case Some((v, rest)) =>
        if |kinds| == 1 then Some(([v], rest))
        else
          match Expect([44], rest)
          case None => None
          case Some(more) =>
            match ReadCells(kinds[1..], more)
            case None => None
            case Some((vs, after)) => Some(([v] + vs, after))
  }

  function ReadRow(kinds: seq<DataType>, line: Bytes): Option<seq<Value>> {
    match Expect(ROW, line)
    case None => None
    case Some(s) =>
      match ReadCells(kinds, s)
      case None => None
      case Some((row, rest)) => if rest == CLOSE then Some(row) else None
  }

  function ReadType(text: Bytes): Option<DataType> {
    if text == INT64_NAME then Some(INT64)
    else if text == DOUBLE_NAME then Some(DOUBLE)
    else if text == DATE_NAME then Some(DATE)
    else if text == STRING_NAME then Some(STRING)
    else None
  }

  function ReadName(s: Bytes): (r: Parsed<Option<Bytes>>)
    ensures r.Some? ==> |r.value.1| < |s|
  {
    match Expect(NULL, s)
    case Some(rest) => Some((None, rest))
    case None => match ReadString(s) case None => None case Some((name, rest)) => Some((Some(name), rest))
  }

  function ReadNullable(s: Bytes): (r: Parsed<bool>)
    ensures r.Some? ==> |r.value.1| < |s|
  {
    match Expect(TRUE_END, s)
    case Some(rest) => Some((true, rest))
    case None => match Expect(FALSE_END, s) case None => None case Some(rest) => Some((false, rest))
  }

  function ReadColumn(s: Bytes): (r: Parsed<Column>)
    ensures r.Some? ==> |r.value.1| < |s|
  {
    match Expect(NAME, s)
    case None => None
    case Some(s1) =>
      match ReadName(s1)
      case None => None
      case Some((name, s2)) =>
        match Expect(TYPE, s2)
        case None => None
        case Some(s3) =>
          match ReadString(s3)
          case None => None
          case Some((text, s4)) =>
            match (ReadType(text), Expect(NULLABLE, s4))
            case (Some(kind), Some(s5)) =>
              (match ReadNullable(s5)
               case None => None
               case Some((nullable, rest)) => Some((Column(name, kind, nullable), rest)))
            case _ => None
  }

  /** One or more columns separated by commas. */
  function ReadColumns(s: Bytes): Parsed<seq<Column>>
    decreases |s|
  {
    match ReadColumn(s)
    case None => None
    case Some((c, rest)) =>
      match Expect([44], rest)
      case None => Some(([c], rest))
      case Some(more) =>
        match ReadColumns(more)
        case None => None
        case Some((cs, after)) => Some(([c] + cs, after))
  }

  function ReadSchema(line: Bytes): Option<seq<Column>> {
    match Expect(SCHEMA, line)
    case None => None
    case Some(s) =>
      if s == CLOSE then Some([])
      else
        match ReadColumns(s)
        case None => None
        case Some((schema, rest)) => if rest == CLOSE then Some(schema) else None
  }

  function ReadComplete(line: Bytes): Option<nat> {
    match Expect(COMPLETE, line)
    case None => None
    case Some(s) => if s != [] && s[|s| - 1] == 125 then Numerals.Value(s[..|s| - 1]) else None
  }

  /** Complete lines, and what follows the last LF. */
  function Lines(s: Bytes): (seq<Bytes>, Bytes)
    decreases |s|
  {
    var i := FirstLf(s);
    if i == |s| then ([], s)
    else var (lines, rest) := Lines(s[i + 1..]); ([s[..i]] + lines, rest)
  }

  function FirstLf(s: Bytes): (i: nat)
    ensures i <= |s| && LF !in s[..i] && (i < |s| ==> s[i] == LF)
    decreases s
  {
    if s == [] then 0 else if s[0] == LF then 0 else 1 + FirstLf(s[1..])
  }

  function Kinds(schema: seq<Column>): (r: seq<DataType>)
    ensures |r| == |schema|
  {
    seq(|schema|, i requires 0 <= i < |schema| => schema[i].kind)
  }

  function ReadRows(kinds: seq<DataType>, lines: seq<Bytes>): Option<seq<seq<Value>>>
    decreases lines
  {
    if lines == [] then Some([])
    else
      match (ReadRow(kinds, lines[0]), ReadRows(kinds, lines[1..]))
      case (Some(row), Some(rows)) => Some([row] + rows)
      case _ => None
  }

  /** A whole document: a schema line, row lines, and a completion that counts them. */
  function ReadDocument(s: Bytes): Option<(seq<Column>, seq<seq<Value>>)> {
    var (lines, rest) := Lines(s);
    if rest != [] || |lines| < 2 then None
    else
      match (ReadSchema(lines[0]), ReadComplete(lines[|lines| - 1]))
      case (Some(schema), Some(count)) =>
        (match ReadRows(Kinds(schema), lines[1..|lines| - 1])
         case Some(rows) => if |rows| == count then Some((schema, rows)) else None
         case None => None)
      case _ => None
  }

  // Strings

  lemma ExpectLiteral(literal: Bytes, s: Bytes)
    ensures Expect(literal, literal + s) == Some(s)
  {
    assert (literal + s)[|literal|..] == s;
  }

  lemma ReadHexNext(s: Bytes, d: int)
    requires 0 <= d < 16 && Numerals.ReadHex(s).Some?
    ensures Numerals.ReadHex(s + [Numerals.HexDigit(d)]) == Some(16 * Numerals.ReadHex(s).value + d)
  {
    assert (s + [Numerals.HexDigit(d)])[..|s|] == s;
  }

  lemma ReadHexZeros()
    ensures Numerals.ReadHex([48, 48]) == Some(0)
  {
    ReadHexNext([], 0);
    ReadHexNext([48], 0);
    assert [] + [Numerals.HexDigit(0)] == [48] && [48] + [Numerals.HexDigit(0)] == [48, 48];
  }

  lemma ReadHexByte(b: Byte)
    requires b < 32
    ensures Numerals.ReadHex([48, 48, Numerals.HexDigit(b / 16), Numerals.HexDigit(b % 16)]) == Some(b)
  {
    hide Numerals.ReadHex, Numerals.HexDigit;
    var d, e := Numerals.HexDigit(b / 16), Numerals.HexDigit(b % 16);
    ReadHexZeros();
    ReadHexNext([48, 48], b / 16);
    assert [48, 48] + [d] == [48, 48, d];
    ReadHexNext([48, 48, d], b % 16);
    assert [48, 48, d] + [e] == [48, 48, d, e];
  }

  /** Reading the escape of a special byte gives back that byte and stops right after it. */
  lemma ReadEscapeOf(b: Byte, rest: Bytes)
    requires Special(b)
    ensures EscapeByte(b)[0] == BACKSLASH
    ensures ReadEscape(EscapeByte(b)[1..] + rest) == Some((b, rest))
  {
    var s := EscapeByte(b)[1..] + rest;
    if b < 32 {
      ReadHexByte(b);
      assert s[1..5] == [48, 48, Numerals.HexDigit(b / 16), Numerals.HexDigit(b % 16)];
      assert s[5..] == rest;
    } else {
      assert s[1..] == rest;
    }
  }

  lemma ReadOneChar(b: Byte, s: Bytes)
    ensures ReadChars(s).None? ==> ReadChars(EscapeByte(b) + s).None?
    ensures ReadChars(s).Some? ==>
      ReadChars(EscapeByte(b) + s) == Some(([b] + ReadChars(s).value.0, ReadChars(s).value.1))
  {
    var whole := EscapeByte(b) + s;
    if Special(b) {
      ReadEscapeOf(b, s);
      assert whole[1..] == EscapeByte(b)[1..] + s;
    } else {
      assert whole[1..] == s;
    }
  }

  /** A printed string is read back exactly, up to its own closing quote and no further,
      whatever text it carries and whatever follows. */
  lemma {:induction false} ReadCharsOf(text: Bytes, rest: Bytes)
    ensures ReadChars(Escape(text) + [QUOTE] + rest) == Some((text, rest))
    decreases text
  {
    if text == [] {
      assert Escape(text) + [QUOTE] + rest == [QUOTE] + rest;
      assert ([QUOTE] + rest)[1..] == rest;
    } else {
      ReadCharsOf(text[1..], rest);
      var tail := Escape(text[1..]) + [QUOTE] + rest;
      assert Escape(text) + [QUOTE] + rest == EscapeByte(text[0]) + tail;
      ReadOneChar(text[0], tail);
      assert [text[0]] + text[1..] == text;
    }
  }

  lemma StringRoundTrip(text: Bytes, rest: Bytes)
    ensures ReadString(PrintString(text) + rest) == Some((text, rest))
  {
    ReadCharsOf(text, rest);
    assert (PrintString(text) + rest)[1..] == Escape(text) + [QUOTE] + rest;
  }

  lemma {:induction false} PlainEscape(text: Bytes)
    requires forall i :: 0 <= i < |text| ==> !Special(text[i])
    ensures Escape(text) == text
    decreases text
  {
    if text != [] {
      PlainEscape(text[1..]);
      assert [text[0]] + text[1..] == text;
    }
  }

  // Cells

  lemma HexRange()
    ensures Numerals.Power(16, 16) == U64
  {
    assert Numerals.Power(16, 4) == 65536;
    assert Numerals.Power(16, 8) == 65536 * 65536;
    assert Numerals.Power(16, 12) == 65536 * 65536 * 65536;
  }

  /** What stands between a non-NULL scalar's quotes. */
  function Scalar(v: Value): Bytes
    requires Printable(v) && !v.Null?
  {
    match v
    case Int64(i) => Numerals.Decimal(i)
    case Double(bits) => Numerals.Hex(bits, 16)
    case Date(days) => Dates.Print(days)
    case Text(text) => text
  }

  lemma PrintScalar(v: Value)
    requires Printable(v) && !v.Null?
    ensures PrintValue(v) == PrintString(Scalar(v))
  {
    if !v.Text? { PlainEscape(Scalar(v)); }
  }

  lemma InterpretScalar(kind: DataType, v: Value)
    requires Holds(kind, v) && !v.Null?
    ensures Interpret(kind, Scalar(v)) == Some(v)
  {
    hide Numerals.ReadDecimal, Numerals.Decimal, Numerals.ReadHex, Numerals.Hex, Dates.Parse, Dates.Print;
    match v
    case Int64(i) => Numerals.ReadDecimalOfDecimal(i);
    case Double(bits) =>
      HexRange();
      Numerals.ReadHexOfHex(bits, 16);
    case Date(days) => Dates.ParsePrint(days);
    case Text(text) =>
  }

  lemma CellRoundTrip(kind: DataType, v: Value, rest: Bytes)
    requires Holds(kind, v)
    ensures ReadCell(kind, PrintValue(v) + rest) == Some((v, rest))
  {
    if v.Null? {
      ExpectLiteral(Ascii("null"), rest);
    } else {
      PrintScalar(v);
      InterpretScalar(kind, v);
      StringRoundTrip(Scalar(v), rest);
      assert (PrintValue(v) + rest)[0] == QUOTE && Ascii("null")[0] == 110;
    }
  }

  lemma {:induction false} JoinedFirst(parts: seq<Bytes>)
    requires |parts| > 1
    ensures Joined(parts) == parts[0] + [44] + Joined(parts[1..])
    decreases parts
  {
    var init := parts[..|parts| - 1];
    if |parts| > 2 {
      JoinedFirst(init);
      assert init[1..] == parts[1..][..|parts| - 2];
    } else {
      assert init == [parts[0]] && parts[1..] == [parts[1]];
    }
  }

  lemma TypedPrintable(kinds: seq<DataType>, row: seq<Value>)
    requires Typed(kinds, row)
    ensures PrintableRow(row)
  {
    forall i | 0 <= i < |row| ensures Printable(row[i]) { assert Holds(kinds[i], row[i]); }
  }

  lemma JoinedCells(row: seq<Value>, rest: Bytes)
    requires |row| > 1 && PrintableRow(row)
    ensures Joined(Cells(row)) + rest == PrintValue(row[0]) + ([44] + (Joined(Cells(row[1..])) + rest))
  {
    hide PrintValue, Joined;
    JoinedFirst(Cells(row));
    assert Cells(row)[1..] == Cells(row[1..]);
    hide Cells;
    Regroup(PrintValue(row[0]), [44], Joined(Cells(row[1..])), rest);
  }

  lemma Regroup(a: Bytes, b: Bytes, c: Bytes, d: Bytes)
    ensures a + b + c + d == a + (b + (c + d))
  {
  }

  lemma MoreCells(kinds: seq<DataType>, s: Bytes, v: Value, more: Bytes, vs: seq<Value>, rest: Bytes)
    requires |kinds| > 1
    requires ReadCell(kinds[0], s) == Some((v, [44] + more))
    requires ReadCells(kinds[1..], more) == Some((vs, rest))
    ensures ReadCells(kinds, s) == Some(([v] + vs, rest))
  {
    hide ReadCell;
    ExpectLiteral([44], more);
  }

  lemma {:induction false} CellsRoundTrip(kinds: seq<DataType>, row: seq<Value>, rest: Bytes)
    requires Typed(kinds, row)
    ensures PrintableRow(row) && ReadCells(kinds, Joined(Cells(row)) + rest) == Some((row, rest))
    decreases kinds
  {
    hide ReadCell, PrintValue;
    TypedPrintable(kinds, row);
    if kinds == [] {
      assert Joined(Cells(row)) + rest == rest;
    } else if |kinds| == 1 {
      CellRoundTrip(kinds[0], row[0], rest);
      assert row == [row[0]] && Cells(row) == [PrintValue(row[0])];
    } else {
      var more := Joined(Cells(row[1..])) + rest;
      JoinedCells(row, rest);
      CellRoundTrip(kinds[0], row[0], [44] + more);
      CellsRoundTrip(kinds[1..], row[1..], rest);
      MoreCells(kinds, Joined(Cells(row)) + rest, row[0], more, row[1..], rest);
      assert [row[0]] + row[1..] == row;
    }
  }

  lemma RowRoundTrip(kinds: seq<DataType>, row: seq<Value>)
    requires Typed(kinds, row)
    ensures PrintableRow(row) && ReadRow(kinds, RowLine(row)) == Some(row)
  {
    Tokens();
    hide RowHead, Close, ReadCells, Joined, Cells;
    TypedPrintable(kinds, row);
    CellsRoundTrip(kinds, row, Close());
    assert RowLine(row) == RowHead() + (Joined(Cells(row)) + Close());
    ExpectLiteral(RowHead(), Joined(Cells(row)) + Close());
  }

  // Schema and completion

  lemma NameRoundTrip(name: Option<Bytes>, rest: Bytes)
    ensures ReadName(PrintName(name) + rest) == Some((name, rest))
  {
    match name
    case None => ExpectLiteral(Ascii("null"), rest);
    case Some(text) =>
      StringRoundTrip(text, rest);
      assert (PrintString(text) + rest)[0] == QUOTE && Ascii("null")[0] == 110;
  }

  lemma NullableRoundTrip(nullable: bool, rest: Bytes)
    ensures ReadNullable(PrintNullable(nullable) + [125] + rest) == Some((nullable, rest))
  {
    var s := PrintNullable(nullable) + [125];
    ExpectLiteral(s, rest);
    assert Ascii("true")[0] == 116 && Ascii("false")[0] == 102;
    assert (s + rest)[0] == PrintNullable(nullable)[0];
  }

  lemma TypeRoundTrip(kind: DataType)
    ensures ReadType(TypeName(kind)) == Some(kind)
  {
    assert Ascii("double")[0] == 100 && Ascii("string")[0] == 115;
  }

  lemma ColumnRoundTrip(c: Column, rest: Bytes)
    ensures ReadColumn(PrintColumn(c) + rest) == Some((c, rest))
  {
    Tokens();
    hide NameHead, TypeHead, NullableHead, PrintName, PrintNullable, PrintString, TypeName, ReadName, ReadNullable,
      ReadString, ReadType, Expect;
    var s5 := PrintNullable(c.nullable) + [125] + rest;
    var s4 := NullableHead() + s5;
    var s3 := PrintString(TypeName(c.kind)) + s4;
    var s2 := TypeHead() + s3;
    var s1 := PrintName(c.name) + s2;
    assert PrintColumn(c) + rest == NameHead() + s1;
    ExpectLiteral(NameHead(), s1);
    NameRoundTrip(c.name, s2);
    ExpectLiteral(TypeHead(), s3);
    StringRoundTrip(TypeName(c.kind), s4);
    TypeRoundTrip(c.kind);
    ExpectLiteral(NullableHead(), s5);
    NullableRoundTrip(c.nullable, rest);
  }

  lemma JoinedColumns(schema: seq<Column>, rest: Bytes)
    requires |schema| > 1
    ensures Joined(Columns(schema)) + rest == PrintColumn(schema[0]) + ([44] + (Joined(Columns(schema[1..])) + rest))
  {
    hide PrintColumn;
    JoinedFirst(Columns(schema));
    assert Columns(schema)[1..] == Columns(schema[1..]);
  }

  lemma MoreColumns(s: Bytes, c: Column, more: Bytes, cs: seq<Column>, rest: Bytes)
    requires ReadColumn(s) == Some((c, [44] + more))
    requires ReadColumns(more) == Some((cs, rest))
    ensures ReadColumns(s) == Some(([c] + cs, rest))
  {
    hide ReadColumn;
    ExpectLiteral([44], more);
  }

  lemma {:induction false} ColumnsRoundTrip(schema: seq<Column>)
    requires schema != []
    ensures ReadColumns(Joined(Columns(schema)) + Close()) == Some((schema, Close()))
    decreases schema
  {
    hide ReadColumn, PrintColumn;
    var s := Joined(Columns(schema)) + Close();
    if |schema| == 1 {
      ColumnRoundTrip(schema[0], Close());
      assert schema == [schema[0]] && Columns(schema) == [PrintColumn(schema[0])];
      assert Close()[0] == 93;
    } else {
      var more := Joined(Columns(schema[1..])) + Close();
      JoinedColumns(schema, Close());
      ColumnRoundTrip(schema[0], [44] + more);
      ColumnsRoundTrip(schema[1..]);
      MoreColumns(s, schema[0], more, schema[1..], Close());
      assert [schema[0]] + schema[1..] == schema;
    }
  }

  lemma ColumnsLength(schema: seq<Column>)
    ensures Joined(Columns(schema)) == [] <==> schema == []
  {
    hide PrintColumn;
    if schema != [] { assert |Columns(schema)[|schema| - 1]| > 0; }
  }

  lemma SchemaRoundTrip(schema: seq<Column>)
    ensures ReadSchema(SchemaLine(schema)) == Some(schema)
  {
    var s := Joined(Columns(schema)) + Close();
    Tokens();
    SchemaToken();
    hide SchemaHead, Columns, ReadColumns, Joined;
    assert SchemaLine(schema) == SchemaHead() + s;
    ExpectLiteral(SchemaHead(), s);
    ColumnsLength(schema);
    if schema != [] { ColumnsRoundTrip(schema); }
  }

  lemma CompleteRoundTrip(rows: nat)
    ensures ReadComplete(CompleteLine(rows)) == Some(rows)
  {
    var s := Numerals.Digits(rows) + [125];
    assert CompleteLine(rows) == CompleteHead() + s;
    CompleteToken();
    hide CompleteHead;
    ExpectLiteral(CompleteHead(), s);
    assert s[..|s| - 1] == Numerals.Digits(rows);
    Numerals.ValueOfDigits(rows);
  }

  // Lines

  lemma FirstLfAt(line: Bytes, rest: Bytes)
    requires Clean(line)
    ensures FirstLf(line + [LF] + rest) == |line|
  {
    var s := line + [LF] + rest;
    assert s[|line|] == LF;
  }

  /** Splitting at LF recovers every terminated line and the unterminated tail. */
  lemma {:induction false} LinesOfTerminated(lines: seq<Bytes>, tail: Bytes)
    requires AllClean(lines) && Clean(tail)
    ensures Lines(Terminated(lines) + tail) == (lines, tail)
    decreases lines
  {
    if lines == [] {
      assert Terminated(lines) + tail == tail;
    } else {
      var s := Terminated(lines) + tail;
      var rest := Terminated(lines[1..]) + tail;
      assert s == lines[0] + [LF] + rest;
      FirstLfAt(lines[0], rest);
      assert s[..|lines[0]|] == lines[0] && s[|lines[0]| + 1..] == rest;
      LinesOfTerminated(lines[1..], tail);
      assert [lines[0]] + lines[1..] == lines;
    }
  }

  lemma {:induction false} RowsRoundTrip(kinds: seq<DataType>, rows: seq<seq<Value>>)
    requires forall i :: 0 <= i < |rows| ==> Typed(kinds, rows[i])
    ensures forall i :: 0 <= i < |rows| ==> PrintableRow(rows[i])
    ensures ReadRows(kinds, RowLines(rows)) == Some(rows)
    decreases rows
  {
    hide RowLine, ReadRow;
    forall i | 0 <= i < |rows| ensures PrintableRow(rows[i]) { TypedPrintable(kinds, rows[i]); }
    if rows != [] {
      RowRoundTrip(kinds, rows[0]);
      RowsRoundTrip(kinds, rows[1..]);
      assert RowLines(rows)[1..] == RowLines(rows[1..]);
      assert [rows[0]] + rows[1..] == rows;
    }
  }

  predicate TypedRows(schema: seq<Column>, rows: seq<seq<Value>>) {
    forall i :: 0 <= i < |rows| ==> Typed(Kinds(schema), rows[i])
  }

  lemma TypedRowsPrintable(schema: seq<Column>, rows: seq<seq<Value>>)
    requires TypedRows(schema, rows)
    ensures PrintableRows(rows)
  {
    forall i | 0 <= i < |rows| ensures PrintableRow(rows[i]) { TypedPrintable(Kinds(schema), rows[i]); }
  }

  /** The printed document reads back as exactly the schema and the rows it was made from. */
  lemma DocumentRoundTrip(schema: seq<Column>, rows: seq<seq<Value>>)
    requires TypedRows(schema, rows)
    ensures PrintableRows(rows) && ReadDocument(Document(schema, rows)) == Some((schema, rows))
  {
    hide SchemaLine, CompleteLine, ReadSchema, ReadComplete, ReadRow, Lines, Kinds;
    TypedRowsPrintable(schema, rows);
    var lines := DocumentLines(schema, rows);
    LinesOfTerminated(lines, []);
    assert Terminated(lines) + [] == Document(schema, rows);
    SchemaRoundTrip(schema);
    CompleteRoundTrip(|rows|);
    assert lines[1..|lines| - 1] == RowLines(rows);
    RowsRoundTrip(Kinds(schema), rows);
  }

  // Nothing but the completion line reads as completion

  lemma OnlyCompletionCompletes(line: Bytes, head: Bytes)
    requires head <= SchemaHead() + line || head <= RowHead() + line
    ensures ReadComplete(head).None?
  {
    CompleteToken();
    assert CompleteHead()[2] == 99 && SchemaHead()[2] == 102 && RowHead()[2] == 114;
  }

  /** Where a prefix of terminated lines was cut: after `k` whole lines, inside the next. */
  lemma {:induction false} Cut(lines: seq<Bytes>, prefix: Bytes) returns (k: nat, tail: Bytes)
    requires prefix <= Terminated(lines) && AllClean(lines)
    ensures k <= |lines| && prefix == Terminated(lines[..k]) + tail && Clean(tail)
    ensures if k < |lines| then tail <= lines[k] else tail == []
    decreases lines
  {
    if lines == [] {
      return 0, [];
    }
    if |prefix| <= |lines[0]| {
      k, tail := 0, prefix;
      assert Terminated(lines) == lines[0] + ([LF] + Terminated(lines[1..]));
    } else {
      var n := |lines[0]| + 1;
      assert Terminated(lines)[..n] == lines[0] + [LF] == prefix[..n];
      assert prefix[n..] <= Terminated(lines)[n..] == Terminated(lines[1..]);
      k, tail := Cut(lines[1..], prefix[n..]);
      assert lines[1..][..k] == lines[..k + 1][1..];
      k := k + 1;
      assert prefix == prefix[..n] + prefix[n..];
    }
  }

  predicate Completed(s: Bytes) {
    exists i :: 0 <= i < |Lines(s).0| && ReadComplete(Lines(s).0[i]).Some?
  }

  lemma EarlierLine(schema: seq<Column>, rows: seq<seq<Value>>, i: nat)
    requires PrintableRows(rows) && i <= |rows|
    ensures ReadComplete(DocumentLines(schema, rows)[i]).None?
  {
    hide SchemaHead, RowHead, Close, Joined, Columns, Cells, CompleteLine, ReadComplete;
    if i == 0 {
      var body := Joined(Columns(schema)) + Close();
      assert SchemaLine(schema) == SchemaHead() + body;
      OnlyCompletionCompletes(body, SchemaLine(schema));
    } else {
      var body := Joined(Cells(rows[i - 1])) + Close();
      assert RowLine(rows[i - 1]) == RowHead() + body;
      OnlyCompletionCompletes(body, RowLine(rows[i - 1]));
    }
  }

  lemma WholeCompletes(schema: seq<Column>, rows: seq<seq<Value>>)
    requires PrintableRows(rows)
    ensures Completed(Document(schema, rows))
  {
    var lines := DocumentLines(schema, rows);
    assert lines[|rows| + 1] == CompleteLine(|rows|);
    hide Terminated, ReadComplete, Lines, CompleteLine, DocumentLines;
    LinesOfTerminated(lines, []);
    assert Terminated(lines) + [] == Document(schema, rows);
    CompleteRoundTrip(|rows|);
    assert ReadComplete(Lines(Document(schema, rows)).0[|rows| + 1]).Some?;
  }

  lemma EarlierLines(schema: seq<Column>, rows: seq<seq<Value>>, k: nat, tail: Bytes)
    requires PrintableRows(rows) && k < |rows| + 2 && Clean(tail)
    ensures !Completed(Terminated(DocumentLines(schema, rows)[..k]) + tail)
  {
    hide Terminated, ReadComplete, Lines, DocumentLines;
    var lines := DocumentLines(schema, rows);
    LinesOfTerminated(lines[..k], tail);
    forall i | 0 <= i < k ensures ReadComplete(lines[..k][i]).None? {
      EarlierLine(schema, rows, i);
    }
  }

  /** However an export was cut short, and whatever its text values hold, a completion line
      is seen exactly when the whole document arrived. */
  lemma CompletedMeansWhole(schema: seq<Column>, rows: seq<seq<Value>>, prefix: Bytes)
    requires PrintableRows(rows) && prefix <= Document(schema, rows)
    ensures Completed(prefix) <==> prefix == Document(schema, rows)
  {
    hide Terminated, DocumentLines, Completed;
    var lines := DocumentLines(schema, rows);
    var k, tail := Cut(lines, prefix);
    WholeCompletes(schema, rows);
    if k == |lines| {
      assert lines[..k] == lines && prefix == Terminated(lines);
    } else {
      EarlierLines(schema, rows, k, tail);
    }
  }
}
