/** Packing typed CSV rows into bounded batches, with a row held over when it does not fit
    and a failure that is final. Records arrive already split, decoded and typed. */
module Csv {
  import opened Basics
  import opened Cancellation
  import opened Values
  import opened Input

  /** One record as the reader finds it: unreadable, readable but not a row of the schema,
      or a typed row whose text lies in the reader's own buffer. */
  datatype Record = Unreadable | Untyped | Good(cells: seq<Cell>, decoded: seq<Byte>)

  datatype Limits = Limits(rows: nat, batchRows: nat, batchText: nat)

  datatype Error = AlreadyFailed | Cancelled | Header | Unreadable | RowLimit | Untyped | RowTooLong

  datatype Next = Batch(batch: InputBatch) | End | Err(error: Error)

  function TextLength(cells: seq<Cell>): nat {
    if cells == [] then 0
    else
      var last := cells[|cells| - 1];
      TextLength(cells[..|cells| - 1]) + (if last.TextCell? && last.start <= last.end then last.end - last.start else 0)
  }

  function ValuesOf(cells: seq<Cell>, text: seq<Byte>): (r: seq<Value>)
    requires InBounds(cells, text)
    ensures |r| == |cells|
  {
    seq(|cells|, i requires 0 <= i < |cells| => Read(cells[i], text))
  }

  /** Every typed row has the schema's width and its text in its own buffer. */
  predicate WellTyped(records: seq<Record>, columns: nat) {
    forall i :: 0 <= i < |records| && records[i].Good? ==>
      |records[i].cells| == columns && InBounds(records[i].cells, records[i].decoded)
  }

  /** The values of consecutive typed rows, one after another. */
  function RowsOf(records: seq<Record>, columns: nat, start: nat, end: nat): (r: seq<Value>)
    requires WellTyped(records, columns) && start <= end <= |records|
    requires forall i :: start <= i < end ==> records[i].Good?
    decreases end - start
  {
    if start == end then []
    else RowsOf(records, columns, start, end - 1) + ValuesOf(records[end - 1].cells, records[end - 1].decoded)
  }

  lemma {:induction false} RowsOfLength(records: seq<Record>, columns: nat, start: nat, end: nat)
    requires WellTyped(records, columns) && start <= end <= |records|
    requires forall i :: start <= i < end ==> records[i].Good?
    ensures |RowsOf(records, columns, start, end)| == columns * (end - start)
    decreases end - start
  {
    if start < end {
      RowsOfLength(records, columns, start, end - 1);
      assert columns * (end - start) == columns * (end - 1 - start) + columns;
    }
  }

  lemma {:induction false} RowsOfConcat(records: seq<Record>, columns: nat, a: nat, b: nat, c: nat)
    requires WellTyped(records, columns) && a <= b <= c <= |records|
    requires forall i :: a <= i < c ==> records[i].Good?
    ensures RowsOf(records, columns, a, c) == RowsOf(records, columns, a, b) + RowsOf(records, columns, b, c)
    decreases c - b
  {
    if b < c { RowsOfConcat(records, columns, a, b, c - 1); }
  }

  /** Column `c` of the `i`-th of these rows, in the flat sequence. */
  lemma {:induction false} RowsOfAt(records: seq<Record>, columns: nat, start: nat, end: nat, i: nat, c: nat)
    requires WellTyped(records, columns) && start <= start + i < end <= |records| && c < columns
    requires forall k :: start <= k < end ==> records[k].Good?
    ensures i * columns + c < |RowsOf(records, columns, start, end)|
    ensures RowsOf(records, columns, start, end)[i * columns + c]
      == ValuesOf(records[start + i].cells, records[start + i].decoded)[c]
    decreases end - start
  {
    hide ValuesOf;
    RowsOfLength(records, columns, start, end - 1);
    if start + i == end - 1 {
      assert columns * i == i * columns;
    } else {
      RowsOfAt(records, columns, start, end - 1, i, c);
    }
  }

  /** Growing the text arena leaves cells already in it unchanged. */
  lemma ArenaGrows(cells: seq<Cell>, text: seq<Byte>, more: seq<Byte>)
    requires InBounds(cells, text)
    ensures InBounds(cells, text + more) && ValuesOf(cells, text + more) == ValuesOf(cells, text)
  {
    forall i | 0 <= i < |cells| ensures Read(cells[i], text + more) == Read(cells[i], text) {
      if cells[i].TextCell? {
        assert (text + more)[cells[i].start..cells[i].end] == text[cells[i].start..cells[i].end];
      }
    }
  }

  /** A cell whose text moves to the end of the arena reads as before. */
  function Relocate(cell: Cell, at: nat): Cell {
    if cell.TextCell? && cell.start <= cell.end then TextCell(at, at + (cell.end - cell.start)) else cell
  }

  function TextOf(cell: Cell, decoded: seq<Byte>): seq<Byte>
    requires cell.TextCell? ==> cell.start <= cell.end <= |decoded|
  {
    if cell.TextCell? then decoded[cell.start..cell.end] else []
  }

  lemma PushCell(cells: seq<Cell>, text: seq<Byte>, cell: Cell, decoded: seq<Byte>)
    requires InBounds(cells, text) && InBounds([cell], decoded)
    ensures cell.TextCell? ==> cell.start <= cell.end <= |decoded|
    ensures var grown, moved := text + TextOf(cell, decoded), cells + [Relocate(cell, |text|)];
            InBounds(moved, grown) && ValuesOf(moved, grown) == ValuesOf(cells, text) + [Read(cell, decoded)]
  {
    assert [cell][0] == cell;
    var more := TextOf(cell, decoded);
    ArenaGrows(cells, text, more);
    if cell.TextCell? {
      assert (text + more)[|text|..|text| + |more|] == more;
    }
  }

  class CsvDecoder {
    /** The reader: its header, its records and how many have been read. */
    const columns: nat
    const limits: Limits
    const goodHeader: bool
    const records: seq<Record>
    var at: nat
    var decoded: seq<Byte>
    var row: seq<Cell>
    var rowTextBytes: nat
    var cells: seq<Cell>
    var text: seq<Byte>
    var rows: nat
    var header: bool
    var pending: bool
    var finished: bool
    var failed: bool

    ghost predicate Valid()
      reads this
    {
      && columns > 0 && limits.batchRows > 0 && WellTyped(records, columns)
      && (!failed ==> Reading())
    }

    /** Every record read so far is a row already handed out, but for at most one held over. */
    ghost predicate Reading()
      reads `at, `rows, `pending, `finished, `header, `row, `decoded, `rowTextBytes
    {
      && at == rows + (if pending then 1 else 0) && at <= |records| && at <= limits.rows
      && (forall i :: 0 <= i < at ==> records[i].Good? && TextLength(records[i].cells) <= limits.batchText)
      && (pending ==> Held())
      && (finished ==> at == |records| && !pending)
      && (header ==> goodHeader) && (!header ==> at == 0 && !pending && !finished)
    }

    ghost predicate Held()
      reads `at, `row, `decoded, `rowTextBytes
    {
      && 0 < at <= |records| && records[at - 1].Good?
      && row == records[at - 1].cells && decoded == records[at - 1].decoded && rowTextBytes == TextLength(row)
    }

    constructor (columns: nat, limits: Limits, goodHeader: bool, records: seq<Record>)
      requires columns > 0 && limits.batchRows > 0 && WellTyped(records, columns)
      ensures Valid() && !failed && rows == 0
      ensures this.columns == columns && this.limits == limits && this.goodHeader == goodHeader
      ensures this.records == records
    {
      this.columns, this.limits, this.goodHeader, this.records := columns, limits, goodHeader, records;
      at, rows, rowTextBytes := 0, 0, 0;
      decoded, text, row, cells := [], [], [], [];
      header, pending, finished, failed := false, false, false, false;
    }

    /** The cells and text of a batch are exactly the rows from `from` up to now. */
    ghost predicate Packed(from: nat)
      requires WellTyped(records, columns)
      reads `rows, `cells, `text
    {
      && from <= rows <= |records| && (forall i :: from <= i < rows ==> records[i].Good?)
      && InBounds(cells, text) && ValuesOf(cells, text) == RowsOf(records, columns, from, rows)
      && |cells| == columns * (rows - from) && rows - from <= limits.batchRows && |text| <= limits.batchText
      && (cells == [] ==> text == [])
    }

    /** A batch stops short of its row limit only at the end of the input, or because the held
        row's text would not fit beside the rest. */
    ghost predicate StopsRightly(from: nat)
      reads `rows, `finished, `pending, `text, `rowTextBytes
    {
      rows - from < limits.batchRows ==>
        finished || (pending && |text| + rowTextBytes > limits.batchText)
    }

    /** What each error says about the input at the row it stopped at. */
    ghost predicate Explained(e: Error, token: Token)
      reads `rows, token
    {
      match e
      case AlreadyFailed => false
      case Cancelled => token.Requested()
      case Header => !goodHeader
      case Unreadable => rows < |records| && records[rows].Unreadable?
      case RowLimit => rows == limits.rows && rows < |records| && !records[rows].Unreadable?
      case Untyped => rows < limits.rows && rows < |records| && records[rows].Untyped?
      case RowTooLong =>
        && rows < limits.rows && rows < |records|
        && records[rows].Good? && TextLength(records[rows].cells) > limits.batchText
    }

    /** Read the next record into the row, unless one is held over. */
    method ReadRow(token: Token) returns (e: Option<Error>)
      requires Valid() && Reading() && header && !finished && !pending
      modifies `at, `decoded, `row, `rowTextBytes, `finished, token
      ensures token.found == (old(token.found) || e == Some(Cancelled))
      ensures old(token.Requested()) ==> e == Some(Cancelled)
      ensures e.None? ==> token.at == old(token.at) + 1
      ensures e.Some? ==> Explained(e.value, token)
      ensures e.None? && finished ==> Reading() && at == old(at) == |records|
      ensures e.None? && !finished ==> at == old(at) + 1 && at <= limits.rows && Held()
    {
      var cancelled := token.Check();
      if cancelled {
        return Some(Cancelled);
      }
      if at == |records| {
        finished := true;
        return None;
      }
      var record := records[at];
      at := at + 1;
      match record {
        case Unreadable => return Some(Error.Unreadable);
        case Untyped =>
          if rows == limits.rows {
            return Some(RowLimit);
          }
          return Some(Error.Untyped);
        case Good(typed, buffer) =>
          if rows == limits.rows {
            return Some(RowLimit);
          }
          row, decoded, rowTextBytes := typed, buffer, TextLength(typed);
          return None;
      }
    }

    /** Append the row's cells, moving their text into the batch. */
    method AppendCells()
      requires InBounds(cells, text) && InBounds(row, decoded)
      modifies `cells, `text
      ensures InBounds(cells, text) && ValuesOf(cells, text) == old(ValuesOf(cells, text)) + ValuesOf(row, decoded)
      ensures |cells| == |old(cells)| + |row| && |text| == |old(text)| + TextLength(row)
    {
      hide InBounds, ValuesOf, Relocate;
      ghost var before := ValuesOf(cells, text);
      var i := 0;
      while i < |row|
        invariant i <= |row| && InBounds(cells, text) && InBounds(row, decoded)
        invariant ValuesOf(cells, text) == before + ValuesOf(row, decoded)[..i]
        invariant |cells| == |old(cells)| + i && |text| == |old(text)| + TextLength(row[..i])
      {
        RowCell(row, decoded, i);
        PushCell(cells, text, row[i], decoded);
        cells, text := cells + [Relocate(row[i], |text|)], text + TextOf(row[i], decoded);
        i := i + 1;
      }
      assert row[..i] == row;
    }

    method AppendRow(ghost from: nat)
      requires WellTyped(records, columns) && Packed(from) && Held() && at == rows + 1 && columns > 0
      requires |text| + rowTextBytes <= limits.batchText && rows - from < limits.batchRows
      modifies `cells, `text, `rows
      ensures rows == old(rows) + 1 && Packed(from)
    {
      hide InBounds, ValuesOf, TextLength;
      HeldRow(records, columns, rows);
      AppendCells();
      rows := rows + 1;
      OneRowMore(columns, rows - 1 - from);
    }

    /** Take one more row into the batch, or say why not. */
    method TakeRow(ghost from: nat, token: Token) returns (e: Option<Error>, full: bool)
      requires Valid() && header && Reading() && !finished && Packed(from)
      requires rows - from < limits.batchRows && (pending ==> rows == from)
      modifies `at, `decoded, `row, `rowTextBytes, `cells, `text, `rows, `pending, `finished, token
      ensures e.Some? ==> Explained(e.value, token)
      ensures token.found == (old(token.found) || e == Some(Cancelled))
      ensures old(token.Requested()) && !old(pending) ==> e == Some(Cancelled)
      ensures e.None? ==> old(at) <= at && token.at >= old(token.at) + (at - old(at))
      ensures e.None? ==> Reading() && Packed(from) && header
      ensures e.None? && full ==>
        rows == old(rows) && (finished || (pending && |text| + rowTextBytes > limits.batchText))
      ensures e.None? && full && rows == from ==> finished
      ensures e.None? && !full ==> !finished && !pending && rows == old(rows) + 1
    {
      hide InBounds, ValuesOf, TextLength, RowsOf;
      full := false;
      if !pending {
        e := ReadRow(token);
        if e.Some? {
          return;
        }
        if finished {
          return None, true;
        }
      }
      if rowTextBytes > limits.batchText {
        return Some(RowTooLong), false;
      }
      if |text| + rowTextBytes > limits.batchText {
        EmptyPacked(from);
        pending := true;
        return None, true;
      }
      AppendRow(from);
      pending := false;
      e := None;
    }

    lemma EmptyPacked(from: nat)
      requires WellTyped(records, columns) && Packed(from) && columns > 0
      ensures rows == from ==> text == []
    {
    }

    method FillBatch(token: Token) returns (e: Option<Error>)
      requires Valid() && Reading()
      modifies `at, `decoded, `row, `rowTextBytes, `cells, `text, `rows, `header, `pending, `finished, token
      ensures e.Some? ==> Explained(e.value, token)
      ensures token.found == (old(token.found) || e == Some(Cancelled))
      ensures old(token.Requested()) ==> e == Some(Cancelled)
      ensures e.None? ==> old(at) <= at && token.at >= old(token.at) + 1 + (at - old(at))
      ensures e.None? ==> Reading() && old(rows) <= rows && Packed(old(rows)) && StopsRightly(old(rows))
      ensures e.None? && rows == old(rows) ==> finished && rows == |records|
      ensures e.None? ==> header
    {
      hide InBounds, ValuesOf, TextLength, RowsOf, WellTyped, CsvDecoder.Held, CsvDecoder.Packed, CsvDecoder.Explained;
      var cancelled := token.Check();
      if cancelled {
        RequestExplains(token);
        return Some(Cancelled);
      }
      cells, text := [], [];
      NothingPacked();
      if finished {
        return None;
      }
      if !header {
        if !goodHeader {
          HeaderExplains(token);
          return Some(Header);
        }
        header := true;
      }
      ghost var from := rows;
      var full := false;
      while !full && |cells| / columns < limits.batchRows
        invariant Valid() && header && Reading() && Packed(from) && from == old(rows) && rows - from <= limits.batchRows
        invariant !full ==> !finished && (pending ==> rows == from)
        invariant full ==> StopsRightly(from) && (rows == from ==> finished)
        invariant token.found == old(token.found) && old(at) <= at && token.at >= old(token.at) + 1 + (at - old(at))
        decreases limits.batchRows - (rows - from), if full then 0 else 1
      {
        PackedSize(from);
        e, full := TakeRow(from, token);
        if e.Some? {
          return;
        }
      }
      PackedSize(from);
      return None;
    }

    lemma HeaderExplains(token: Token)
      requires !goodHeader
      ensures Explained(Header, token)
    {
    }

    lemma PackedSize(from: nat)
      requires columns > 0 && WellTyped(records, columns) && Packed(from)
      ensures from <= rows && |cells| / columns == rows - from
    {
      RowsFilled(|cells|, columns, rows - from);
    }

    lemma NothingPacked()
      requires WellTyped(records, columns) && rows <= |records| && cells == [] && text == []
      ensures Packed(rows)
    {
      assert ValuesOf(cells, text) == [];
    }

    lemma RequestExplains(token: Token)
      requires token.Requested()
      ensures Explained(Cancelled, token)
    {
    }

    lemma SomePacked(from: nat)
      requires columns > 0 && WellTyped(records, columns) && Packed(from)
      ensures from <= rows && (cells == [] <==> rows == from)
    {
      NoRows(columns, rows - from);
    }

    lemma HeaderRead()
      requires Reading() && header
      ensures goodHeader
    {
    }

    /** The next batch of rows, the end, or an error after which every call fails. */
    method NextBatch(token: Token) returns (r: Next)
      requires Valid()
      modifies this, token
      ensures Valid() && (r.Err? <==> failed)
      ensures token.found == (old(token.found) || r == Err(Cancelled))
      ensures !old(failed) && old(token.Requested()) ==> r == Err(Cancelled)
      ensures !r.Err? ==> old(at) <= at && token.at >= old(token.at) + 2 + (at - old(at))
      ensures old(failed) ==> r == Err(AlreadyFailed)
      ensures !old(failed) && r.Err? ==> Explained(r.error, token)
      ensures !old(failed) && r.Batch? ==>
        && old(rows) < rows && Packed(old(rows)) && StopsRightly(old(rows))
        && r.batch == InputBatch(cells, text, columns)
      ensures !old(failed) && r.End? ==> rows == old(rows) == |records|
      ensures !old(failed) && !r.Err? ==> goodHeader
    {
      hide InBounds, ValuesOf, TextLength, RowsOf, WellTyped, CsvDecoder.StopsRightly, CsvDecoder.Explained,
           CsvDecoder.Packed, CsvDecoder.Reading;
      if failed {
        return Err(AlreadyFailed);
      }
      failed := true;
      var e := FillBatch(token);
      if e.Some? {
        return Err(e.value);
      }
      var cancelled := token.Check();
      if cancelled {
        RequestExplains(token);
        return Err(Cancelled);
      }
      HeaderRead();
      failed := false;
      SomePacked(old(rows));
      if cells == [] {
        return End;
      }
      return Batch(InputBatch(cells, text, columns));
    }
  }

  lemma RowCell(row: seq<Cell>, decoded: seq<Byte>, i: nat)
    requires i < |row| && InBounds(row, decoded)
    ensures InBounds([row[i]], decoded) && (row[i].TextCell? ==> row[i].start <= row[i].end <= |decoded|)
    ensures ValuesOf(row, decoded)[..i + 1] == ValuesOf(row, decoded)[..i] + [Read(row[i], decoded)]
    ensures TextLength(row[..i + 1]) == TextLength(row[..i]) + |TextOf(row[i], decoded)|
  {
    assert row[..i + 1][..i] == row[..i];
  }

  lemma HeldRow(records: seq<Record>, columns: nat, k: nat)
    requires WellTyped(records, columns) && k < |records| && records[k].Good?
    ensures |records[k].cells| == columns && InBounds(records[k].cells, records[k].decoded)
  {
  }

  lemma NoRows(columns: nat, rows: nat)
    requires columns > 0
    ensures columns * rows == 0 <==> rows == 0
  {
  }

  lemma OneRowMore(columns: nat, rows: nat)
    ensures columns * (rows + 1) == columns * rows + columns
  {
  }

  lemma RowsFilled(cells: nat, columns: nat, rows: nat)
    requires columns > 0 && cells == columns * rows
    ensures cells / columns == rows && cells % columns == 0
  {
    var q, r := cells / columns, cells % columns;
    AwayFromZero(columns, q - rows);
    assert columns * (q - rows) == columns * q - columns * rows;
  }

  lemma AwayFromZero(columns: int, d: int)
    requires columns > 0
    ensures d >= 1 ==> columns * d >= columns
    ensures d <= -1 ==> columns * d <= -columns
  {
  }
}
