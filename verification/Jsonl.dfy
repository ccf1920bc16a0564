/** The typed JSON Lines document: how schema, rows and completion are printed.
    JSON strings follow section 7 of RFC 8259. */
module Jsonl {
  import opened Basics
  import opened Values
  import Numerals
  import Dates

  datatype Column = Column(name: Option<seq<Byte>>, kind: DataType, nullable: bool)

  type Bytes = seq<Byte>

  predicate Special(b: Byte) { b < 32 || b == QUOTE || b == BACKSLASH }

  /** One byte inside a string. A control byte always has the six-byte form. */
  function EscapeByte(b: Byte): (r: Bytes)
    ensures Clean(r)
    ensures |r| > 0
  {
    if b == QUOTE then [BACKSLASH, QUOTE]
    else if b == BACKSLASH then [BACKSLASH, BACKSLASH]
    else if b < 32 then [BACKSLASH, 117, 48, 48, Numerals.HexDigit(b / 16), Numerals.HexDigit(b % 16)]
    else [b]
  }

  function Escape(text: Bytes): (r: Bytes)
    ensures Clean(r)
    decreases text
  {
    if text == [] then [] else EscapeByte(text[0]) + Escape(text[1..])
  }

  function PrintString(text: Bytes): (r: Bytes)
    ensures Clean(r)
    ensures |r| >= 2
  {
    [QUOTE] + Escape(text) + [QUOTE]
  }

  function TypeName(kind: DataType): (r: Bytes)
    ensures forall i :: 0 <= i < |r| ==> r[i] >= 32 && !Special(r[i])
  {
    match kind
    case INT64 => Ascii("int64")
    case DOUBLE => Ascii("double")
    case DATE => Ascii("date")
    case STRING => Ascii("string")
  }

  predicate Printable(v: Value) {
    match v
    case Int64(i) => -I64 <= i < I64
    case Double(bits) => bits < U64
    case Date(days) => Dates.ValidDays(days)
    case _ => true
  }

  function PrintValue(v: Value): (r: Bytes)
    requires Printable(v)
    ensures Clean(r)
    ensures |r| > 0
  {
    match v
    case Null => Ascii("null")
    case Int64(i) => [QUOTE] + Numerals.Decimal(i) + [QUOTE]
    case Double(bits) => [QUOTE] + Numerals.Hex(bits, 16) + [QUOTE]
    case Date(days) => [QUOTE] + Dates.Print(days) + [QUOTE]
    case Text(bytes) => PrintString(bytes)
  }

  function PrintName(name: Option<Bytes>): (r: Bytes)
    ensures Clean(r)
  {
    match name
    case Some(text) => PrintString(text)
    case None => Ascii("null")
  }

  function PrintNullable(nullable: bool): (r: Bytes)
    ensures Clean(r)
  {
    if nullable then Ascii("true") else Ascii("false")
  }

  function NameHead(): (r: Bytes) ensures Clean(r) { Ascii("{\"name\":") }

  function TypeHead(): (r: Bytes) ensures Clean(r) { Ascii(",\"type\":") }

  function NullableHead(): (r: Bytes) ensures Clean(r) { Ascii(",\"nullable\":") }

  function PrintColumn(c: Column): (r: Bytes)
    ensures Clean(r) && |r| > 0
  {
    NameHead() + PrintName(c.name) + TypeHead() + PrintString(TypeName(c.kind))
    + NullableHead() + PrintNullable(c.nullable) + [125]
  }

  predicate AllClean(parts: seq<Bytes>) {
    forall i :: 0 <= i < |parts| ==> Clean(parts[i])
  }

  /** Parts separated by commas. */
  function Joined(parts: seq<Bytes>): (r: Bytes)
    ensures AllClean(parts) ==> Clean(r)
    decreases parts
  {
    if parts == [] then []
    else if |parts| == 1 then parts[0]
    else Joined(parts[..|parts| - 1]) + [44] + parts[|parts| - 1]
  }

  predicate PrintableRow(row: seq<Value>) {
    forall i :: 0 <= i < |row| ==> Printable(row[i])
  }

  function Cells(row: seq<Value>): (r: seq<Bytes>)
    requires PrintableRow(row)
    ensures |r| == |row| && AllClean(r)
  {
    seq(|row|, i requires 0 <= i < |row| => PrintValue(row[i]))
  }

  function Columns(schema: seq<Column>): (r: seq<Bytes>)
    ensures |r| == |schema| && AllClean(r)
  {
    seq(|schema|, i requires 0 <= i < |schema| => PrintColumn(schema[i]))
  }

  function SchemaHead(): (r: Bytes)
    ensures Clean(r)
  {
    Ascii("{\"format\":\"pipesql") + Ascii("-jsonl\",\"version") + Ascii("\":1,\"columns\":[")
  }

  function RowHead(): (r: Bytes) ensures Clean(r) { Ascii("{\"row\":[") }

  function CompleteHead(): (r: Bytes)
    ensures Clean(r)
  {
    Ascii("{\"complete\":") + Ascii("true,\"rows\":")
  }

  function Close(): (r: Bytes) ensures Clean(r) { Ascii("]}") }

  /** Lines without their LF. */
  function SchemaLine(schema: seq<Column>): (r: Bytes)
    ensures Clean(r)
  {
    SchemaHead() + Joined(Columns(schema)) + Close()
  }

  function RowLine(row: seq<Value>): (r: Bytes)
    requires PrintableRow(row)
    ensures Clean(r)
  {
    RowHead() + Joined(Cells(row)) + Close()
  }

  function CompleteLine(rows: nat): (r: Bytes)
    ensures Clean(r)
  {
    CompleteHead() + Numerals.Digits(rows) + Ascii("}")
  }

  predicate PrintableRows(rows: seq<seq<Value>>) {
    forall i :: 0 <= i < |rows| ==> PrintableRow(rows[i])
  }

  function RowLines(rows: seq<seq<Value>>): (r: seq<Bytes>)
    requires PrintableRows(rows)
    ensures |r| == |rows| && AllClean(r)
  {
    seq(|rows|, i requires 0 <= i < |rows| => RowLine(rows[i]))
  }

  /** Each line followed by LF. */
  function Terminated(lines: seq<Bytes>): Bytes
    decreases lines
  {
    if lines == [] then [] else lines[0] + [LF] + Terminated(lines[1..])
  }

  function DocumentLines(schema: seq<Column>, rows: seq<seq<Value>>): (r: seq<Bytes>)
    requires PrintableRows(rows)
    ensures |r| == |rows| + 2 && AllClean(r)
  {
    [SchemaLine(schema)] + RowLines(rows) + [CompleteLine(|rows|)]
  }

  /** The one canonical document of a finished query. */
  function Document(schema: seq<Column>, rows: seq<seq<Value>>): Bytes
    requires PrintableRows(rows)
  {
    Terminated(DocumentLines(schema, rows))
  }

  /** The document before its completion record. */
  function Body(schema: seq<Column>, rows: seq<seq<Value>>): Bytes
    requires PrintableRows(rows)
  {
    Terminated([SchemaLine(schema)] + RowLines(rows))
  }

  lemma TerminatedFirst(lines: seq<Bytes>)
    requires lines != []
    ensures Terminated(lines) == (lines[0] + [LF]) + Terminated(lines[1..])
  {
  }

  lemma Regroup(a: Bytes, b: Bytes, c: Bytes)
    ensures a + (b + c) == (a + b) + c
  {
  }

  lemma {:induction false} TerminatedConcat(a: seq<Bytes>, b: seq<Bytes>)
    ensures Terminated(a + b) == Terminated(a) + Terminated(b)
    decreases a
  {
    if a == [] {
      assert a + b == b && Terminated(a) == [];
    } else {
      hide Terminated;
      TerminatedConcat(a[1..], b);
      TerminatedFirst(a);
      TerminatedFirst(a + b);
      assert (a + b)[1..] == a[1..] + b && (a + b)[0] == a[0];
      Regroup(a[0] + [LF], Terminated(a[1..]), Terminated(b));
    }
  }

  lemma TerminatedOne(line: Bytes)
    ensures Terminated([line]) == line + [LF]
  {
  }

  lemma DocumentIsBodyAndCompletion(schema: seq<Column>, rows: seq<seq<Value>>)
    requires PrintableRows(rows)
    ensures Document(schema, rows) == Body(schema, rows) + CompleteLine(|rows|) + [LF]
  {
    hide Terminated;
    TerminatedConcat([SchemaLine(schema)] + RowLines(rows), [CompleteLine(|rows|)]);
    TerminatedOne(CompleteLine(|rows|));
  }

  lemma BodyConcat(schema: seq<Column>, rows: seq<seq<Value>>, more: seq<seq<Value>>)
    requires PrintableRows(rows) && PrintableRows(more)
    ensures PrintableRows(rows + more)
    ensures Body(schema, rows + more) == Body(schema, rows) + Terminated(RowLines(more))
  {
    hide Terminated, RowLine;
    assert RowLines(rows + more) == RowLines(rows) + RowLines(more);
    TerminatedConcat([SchemaLine(schema)] + RowLines(rows), RowLines(more));
    assert [SchemaLine(schema)] + RowLines(rows + more) == [SchemaLine(schema)] + RowLines(rows) + RowLines(more);
  }

  lemma BodyNext(schema: seq<Column>, rows: seq<seq<Value>>, row: seq<Value>)
    requires PrintableRows(rows) && PrintableRow(row)
    ensures PrintableRows(rows + [row])
    ensures Body(schema, rows + [row]) == Body(schema, rows) + (RowLine(row) + [LF])
  {
    hide Terminated, RowLine;
    BodyConcat(schema, rows, [row]);
    assert RowLines([row]) == [RowLine(row)];
    TerminatedOne(RowLine(row));
  }
}
