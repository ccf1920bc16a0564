/** Decoded rows and their borrowed view: cells in row-major order, text by extent. */
module Input {
  import opened Basics
  import opened Values

  const MAX_COLUMNS: nat := 64

  datatype Cell =
    | NullCell
    | Int64Cell(integer: int)
    | DoubleCell(bits: nat)
    | DateCell(days: int)
    | TextCell(start: nat, end: nat)

  /** Text extents lie inside the decoder's text. */
  predicate InBounds(cells: seq<Cell>, text: seq<Byte>) {
    forall i :: 0 <= i < |cells| && cells[i].TextCell? ==> cells[i].start <= cells[i].end <= |text|
  }

  datatype InputBatch = InputBatch(cells: seq<Cell>, text: seq<Byte>, columns: nat) {
    predicate Valid() {
      columns > 0 && |cells| % columns == 0 && InBounds(cells, text)
    }

    function RowCount(): nat
      requires columns > 0
    {
      |cells| / columns
    }

    function TextBytes(row: nat, column: nat): Option<nat>
      requires Valid()
    {
      if row >= RowCount() || column >= columns then None
      else
        CellIndex(row, column, columns, |cells|);
        match cells[row * columns + column]
        case TextCell(start, end) => Some(end - start)
        case _ => None
    }

    /** `None` for a row or column out of range. */
    function Get(row: nat, column: nat): Option<Value>
      requires Valid()
    {
      if row >= RowCount() || column >= columns then None
      else
        CellIndex(row, column, columns, |cells|);
        Some(Read(cells[row * columns + column], text))
    }

    function At(row: nat, column: nat): Value
      requires Valid() && row < RowCount() && column < columns
    {
      Get(row, column).value
    }
  }

  function Read(cell: Cell, text: seq<Byte>): Value
    requires cell.TextCell? ==> cell.start <= cell.end <= |text|
  {
    match cell
    case NullCell => Null
    case Int64Cell(i) => Int64(i)
    case DoubleCell(bits) => Double(bits)
    case DateCell(days) => Date(days)
    case TextCell(start, end) => Text(text[start..end])
  }

  /** The cell a decoder makes of a value, its text starting at `at`. */
  function Made(value: Value, at: nat): Cell {
    match value
    case Null => NullCell
    case Int64(i) => Int64Cell(i)
    case Double(bits) => DoubleCell(bits)
    case Date(days) => DateCell(days)
    case Text(text) => TextCell(at, at + |text|)
  }

  /** It reads as that value, wherever its text lies in the decoder's text. */
  lemma MadeReads(value: Value, before: seq<Byte>, after: seq<Byte>)
    ensures var text := before + (if value.Text? then value.text else []) + after;
            var cell := Made(value, |before|);
            && (cell.TextCell? ==> cell.start <= cell.end <= |text|)
            && Read(cell, text) == value
  {
    if value.Text? {
      var text := before + value.text + after;
      assert text[|before|..|before| + |value.text|] == value.text;
    }
  }

  lemma CellIndex(row: nat, column: nat, columns: nat, cells: nat)
    requires column < columns && row < cells / columns
    ensures row * columns + column < cells
  {
    assert (row + 1) * columns <= (cells / columns) * columns <= cells;
  }

  /** The byte count of a text cell is the length of the text it reads as; no other cell has one. */
  lemma TextBytesIsLength(batch: InputBatch, row: nat, column: nat)
    requires batch.Valid()
    ensures batch.TextBytes(row, column) ==
      match batch.Get(row, column) { case Some(Text(text)) => Some(|text|) case _ => None }
  {
    if row < batch.RowCount() && column < batch.columns {
      CellIndex(row, column, batch.columns, |batch.cells|);
    }
  }
}
