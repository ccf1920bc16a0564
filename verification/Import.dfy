/** The CSV import loop: decode a batch, cut it into native units, lend each unit's columns.
    Everything the three stages hand over is, in order, exactly the typed rows of the input. */
module Import {
  import opened Basics
  import opened Cancellation
  import opened Values
  import opened Input
  import Csv
  import Partition
  import Columns = ImportColumns

  /** What one write lends to storage. */
  datatype Piece = Piece(inputs: seq<Columns.ColumnInput>, rows: nat)

  predicate Readable(piece: Piece) {
    forall c :: 0 <= c < |piece.inputs| ==>
      |piece.inputs[c].values.Slots()| == piece.rows <= 8 * |piece.inputs[c].validity|
  }

  /** One row of a piece, read back through its columns' slots and bits. */
  function RowBack(piece: Piece, i: nat): seq<Value>
    requires Readable(piece) && i < piece.rows
  {
    seq(|piece.inputs|, c requires 0 <= c < |piece.inputs| => Columns.ReadBack(piece.inputs[c], i))
  }

  function RowsBack(piece: Piece, n: nat): seq<Value>
    requires Readable(piece) && n <= piece.rows
  {
    if n == 0 then [] else RowsBack(piece, n - 1) + RowBack(piece, n - 1)
  }

  /** Every value of every piece, in order. */
  function Stored(pieces: seq<Piece>): seq<Value>
    requires forall p :: 0 <= p < |pieces| ==> Readable(pieces[p])
  {
    if pieces == [] then []
    else Stored(pieces[..|pieces| - 1]) + RowsBack(pieces[|pieces| - 1], pieces[|pieces| - 1].rows)
  }

  function TotalLength(strings: seq<seq<Byte>>): nat {
    if strings == [] then 0 else TotalLength(strings[..|strings| - 1]) + |strings[|strings| - 1]|
  }

  /** Native bytes of a STRING column: validity, one offset per row and one more, and text. */
  function NativeSize(input: Columns.ColumnInput): nat
    requires input.values.Strings?
  {
    |input.validity| + (|input.values.strings| + 1) * 4 + TotalLength(input.values.strings)
  }

  predicate WithinBound(piece: Piece, limit: nat) {
    forall c :: 0 <= c < |piece.inputs| && piece.inputs[c].values.Strings? ==> NativeSize(piece.inputs[c]) <= limit
  }

  lemma FaithfulReadable(piece: Piece, kinds: seq<DataType>, batch: InputBatch, from: nat, to: nat)
    requires batch.Valid() && |kinds| == batch.columns && from <= to <= batch.RowCount() && piece.rows == to - from
    requires Columns.AllFaithful(piece.inputs, kinds, batch, from, to)
    ensures Readable(piece)
  {
    hide Columns.ColumnValues.Slots, Columns.ReadBack;
    forall c | 0 <= c < |piece.inputs|
      ensures |piece.inputs[c].values.Slots()| == piece.rows <= 8 * |piece.inputs[c].validity|
    {
      assert Columns.Faithful(piece.inputs[c], kinds[c], batch, c, from, to);
    }
  }

  lemma FlatRow(batch: InputBatch, row: nat, c: nat)
    requires batch.Valid() && row < batch.RowCount() && c < batch.columns
    ensures row * batch.columns + c < |batch.cells|
    ensures Csv.ValuesOf(batch.cells, batch.text)[row * batch.columns + c] == batch.At(row, c)
  {
    CellIndex(row, c, batch.columns, |batch.cells|);
  }

  lemma RowStart(batch: InputBatch, row: nat)
    requires batch.Valid() && row <= batch.RowCount()
    ensures row * batch.columns <= |batch.cells|
  {
    assert row * batch.columns <= batch.RowCount() * batch.columns;
  }

  lemma NextRowStart(row: nat, columns: nat)
    ensures (row + 1) * columns == row * columns + columns
  {
  }

  lemma RowBackIsRow(piece: Piece, kinds: seq<DataType>, batch: InputBatch, from: nat, to: nat, i: nat)
    requires batch.Valid() && |kinds| == batch.columns && from <= to <= batch.RowCount() && piece.rows == to - from
    requires Columns.AllFaithful(piece.inputs, kinds, batch, from, to) && Readable(piece) && i < piece.rows
    ensures (from + i) * batch.columns + batch.columns <= |batch.cells|
    ensures RowBack(piece, i) ==
      Csv.ValuesOf(batch.cells, batch.text)[(from + i) * batch.columns..(from + i) * batch.columns + batch.columns]
  {
    hide InputBatch.RowCount, InputBatch.At, Csv.ValuesOf, Columns.ReadBack;
    RowStart(batch, from + i + 1);
    NextRowStart(from + i, batch.columns);
    var start := (from + i) * batch.columns;
    var flat := Csv.ValuesOf(batch.cells, batch.text);
    forall c | 0 <= c < |kinds| ensures RowBack(piece, i)[c] == flat[start..start + batch.columns][c] {
      FlatRow(batch, from + i, c);
      assert Columns.Faithful(piece.inputs[c], kinds[c], batch, c, from, to);
    }
  }

  lemma SliceGrows(s: seq<Value>, a: nat, b: nat, c: nat)
    requires a <= b <= c <= |s|
    ensures s[a..b] + s[b..c] == s[a..c]
  {
  }

  lemma StartsInOrder(from: nat, n: nat, columns: nat)
    ensures from * columns <= (from + n) * columns
  {
    NextRowsStart(from, n, columns);
  }

  lemma NextRowsStart(from: nat, n: nat, columns: nat)
    ensures (from + n) * columns == from * columns + n * columns
  {
  }

  lemma {:induction false} RowsBackAreRows(piece: Piece, kinds: seq<DataType>, batch: InputBatch,
                                           from: nat, to: nat, n: nat)
    requires batch.Valid() && |kinds| == batch.columns && from <= to <= batch.RowCount() && piece.rows == to - from
    requires Columns.AllFaithful(piece.inputs, kinds, batch, from, to) && Readable(piece) && n <= piece.rows
    ensures from * batch.columns <= (from + n) * batch.columns <= |batch.cells|
    ensures var flat := Csv.ValuesOf(batch.cells, batch.text);
            RowsBack(piece, n) == flat[from * batch.columns..(from + n) * batch.columns]
    decreases n
  {
    hide InputBatch.RowCount, Csv.ValuesOf, Columns.AllFaithful, RowBack;
    RowStart(batch, from + n);
    StartsInOrder(from, n, batch.columns);
    if n == 0 {
      assert RowsBack(piece, 0) == [];
    } else {
      var flat, middle := Csv.ValuesOf(batch.cells, batch.text), (from + n - 1) * batch.columns;
      RowsBackAreRows(piece, kinds, batch, from, to, n - 1);
      RowBackIsRow(piece, kinds, batch, from, to, n - 1);
      NextRowStart(from + n - 1, batch.columns);
      SliceGrows(flat, from * batch.columns, middle, middle + batch.columns);
    }
  }

  lemma LentCell(input: Columns.ColumnInput, batch: InputBatch, c: nat, from: nat, to: nat, i: nat)
    requires batch.Valid() && c < batch.columns && from <= to <= batch.RowCount() && i < to - from
    requires input.values.Strings? && input.values.Slots() == Columns.Chunk(batch, STRING, c, from, to)
    requires Columns.ColumnMatches(batch, STRING, c, from, to)
    ensures i < |input.values.strings|
    ensures |input.values.strings[i]| == batch.TextBytes(from + i, c).UnwrapOr(0)
  {
    assert |input.values.strings| == |input.values.Slots()| == to - from;
    assert input.values.Slots()[i] == Text(input.values.strings[i]) == Columns.Slot(STRING, batch.At(from + i, c));
    assert Columns.CellMatches(batch, STRING, c, from + i);
    TextBytesIsLength(batch, from + i, c);
  }

  lemma {:induction false} LentText(input: Columns.ColumnInput, batch: InputBatch, c: nat, from: nat, to: nat, n: nat)
    requires batch.Valid() && c < batch.columns && from <= to <= batch.RowCount() && n <= to - from
    requires input.values.Strings? && input.values.Slots() == Columns.Chunk(batch, STRING, c, from, to)
    requires Columns.ColumnMatches(batch, STRING, c, from, to)
    ensures |input.values.strings| == to - from
    ensures TotalLength(input.values.strings[..n]) == Partition.TextSum(batch, c, from, from + n)
    decreases n
  {
    assert |input.values.strings| == |input.values.Slots()|;
    hide InputBatch.Valid, InputBatch.RowCount, Columns.Chunk, Columns.ColumnMatches, Columns.ColumnValues.Slots;
    if n > 0 {
      LentText(input, batch, c, from, to, n - 1);
      LentCell(input, batch, c, from, to, n - 1);
      assert input.values.strings[..n][..n - 1] == input.values.strings[..n - 1];
    }
  }

  lemma LentWithinBound(piece: Piece, kinds: seq<DataType>, batch: InputBatch, from: nat, to: nat, limit: nat)
    requires batch.Valid() && |kinds| == batch.columns && from <= to <= batch.RowCount() && piece.rows == to - from
    requires Columns.AllFaithful(piece.inputs, kinds, batch, from, to) && Columns.AllMatch(batch, kinds, from, to)
    requires Partition.Fits(batch, kinds, limit, from, to)
    ensures WithinBound(piece, limit)
  {
    hide InputBatch.Valid, InputBatch.RowCount, Columns.Chunk, Columns.ColumnMatches, Columns.ColumnValues.Slots,
         TotalLength;
    forall c | 0 <= c < |piece.inputs| && piece.inputs[c].values.Strings? ensures NativeSize(piece.inputs[c]) <= limit {
      var input := piece.inputs[c];
      assert Columns.Faithful(input, kinds[c], batch, c, from, to) && kinds[c] == STRING;
      assert Columns.ColumnMatches(batch, kinds[c], c, from, to);
      LentText(input, batch, c, from, to, to - from);
      assert input.values.strings[..to - from] == input.values.strings;
      assert Partition.Size(batch, c, from, to) <= limit;
    }
  }

  // The import loop

  datatype Result = Imported | Cancelled | Refused(error: Csv.Error) | NoRows | Unfit

  predicate AllReadable(pieces: seq<Piece>) {
    forall p :: 0 <= p < |pieces| ==> Readable(pieces[p])
  }

  /** Rows typed for this schema. */
  predicate Conforming(records: seq<Csv.Record>, kinds: seq<DataType>) {
    && Csv.WellTyped(records, |kinds|)
    && forall i :: 0 <= i < |records| && records[i].Good? ==> RowConforms(records[i], kinds)
  }

  predicate RowConforms(record: Csv.Record, kinds: seq<DataType>)
    requires record.Good? && |record.cells| == |kinds| && InBounds(record.cells, record.decoded)
  {
    forall c :: 0 <= c < |kinds| ==> Columns.Matches(kinds[c], Csv.ValuesOf(record.cells, record.decoded)[c])
  }

  /** An input that can be imported: a good header, only typed rows, at least one, within limits. */
  predicate Importable(goodHeader: bool, records: seq<Csv.Record>, limits: Csv.Limits) {
    && goodHeader && 0 < |records| <= limits.rows
    && forall i :: 0 <= i < |records| ==> records[i].Good? && Csv.TextLength(records[i].cells) <= limits.batchText
  }

  lemma StoredOneMore(pieces: seq<Piece>, piece: Piece)
    requires AllReadable(pieces) && Readable(piece)
    ensures AllReadable(pieces + [piece]) && Stored(pieces + [piece]) == Stored(pieces) + RowsBack(piece, piece.rows)
  {
    assert (pieces + [piece])[..|pieces|] == pieces;
  }

  lemma MatchWithin(batch: InputBatch, kinds: seq<DataType>, from: nat, to: nat)
    requires batch.Valid() && |kinds| == batch.columns && from <= to <= batch.RowCount()
    requires Columns.AllMatch(batch, kinds, 0, batch.RowCount())
    ensures Columns.AllMatch(batch, kinds, from, to)
  {
    hide InputBatch.Valid, InputBatch.RowCount, Columns.CellMatches;
    forall c | 0 <= c < |kinds| ensures Columns.ColumnMatches(batch, kinds[c], c, from, to) {
      assert Columns.ColumnMatches(batch, kinds[c], c, 0, batch.RowCount());
    }
  }

  predicate AllWithin(pieces: seq<Piece>, limit: nat) {
    forall p :: 0 <= p < |pieces| ==> WithinBound(pieces[p], limit)
  }

  /** A lent unit adds exactly its rows to what is stored. */
  lemma UnitStored(out: seq<Piece>, piece: Piece, kinds: seq<DataType>, batch: InputBatch, from: nat, to: nat,
                   limit: nat)
    requires batch.Valid() && |kinds| == batch.columns && from <= to <= batch.RowCount() && piece.rows == to - from
    requires AllReadable(out) && AllWithin(out, limit)
    requires Columns.AllFaithful(piece.inputs, kinds, batch, from, to) && Columns.AllMatch(batch, kinds, from, to)
    requires Partition.Fits(batch, kinds, limit, from, to)
    ensures AllReadable(out + [piece]) && AllWithin(out + [piece], limit)
    ensures from * batch.columns <= to * batch.columns <= |batch.cells|
    ensures Stored(out + [piece]) ==
      Stored(out) + Csv.ValuesOf(batch.cells, batch.text)[from * batch.columns..to * batch.columns]
  {
    hide InputBatch.RowCount, Readable, WithinBound, RowsBack, Stored, Columns.AllFaithful, Columns.AllMatch,
         Csv.ValuesOf;
    FaithfulReadable(piece, kinds, batch, from, to);
    LentWithinBound(piece, kinds, batch, from, to, limit);
    StoredOneMore(out, piece);
    RowsBackAreRows(piece, kinds, batch, from, to, piece.rows);
  }

  lemma NoCutting(batch: InputBatch, kinds: seq<DataType>, limit: nat, row: nat)
    requires batch.Valid() && row < batch.RowCount() && !Partition.FitsAlone(batch, kinds, limit, row)
    ensures forall ends :: !Partition.Pieces(batch, kinds, limit, 0, ends)
  {
    forall ends ensures !Partition.Pieces(batch, kinds, limit, 0, ends) {
      if Partition.Pieces(batch, kinds, limit, 0, ends) {
        Partition.PiecesHoldEachRow(batch, kinds, limit, 0, ends, row);
      }
    }
  }

  predicate AllFitAlone(batch: InputBatch, kinds: seq<DataType>, limit: nat)
    requires batch.Valid()
  {
    forall row: nat :: row < batch.RowCount() ==> Partition.FitsAlone(batch, kinds, limit, row)
  }

  lemma PiecesFitAlone(batch: InputBatch, kinds: seq<DataType>, limit: nat, ends: seq<nat>)
    requires batch.Valid() && Partition.GreedyTo(batch, kinds, limit, 0, ends, batch.RowCount())
    ensures AllFitAlone(batch, kinds, limit)
  {
    Partition.GreedyToEnd(batch, kinds, limit, 0, ends);
    Partition.GreedyIsPieces(batch, kinds, limit, 0, ends);
    forall row: nat | row < batch.RowCount() ensures Partition.FitsAlone(batch, kinds, limit, row) {
      Partition.PiecesHoldEachRow(batch, kinds, limit, 0, ends, row);
    }
  }

  lemma FewestPieces(batch: InputBatch, kinds: seq<DataType>, limit: nat, ends: seq<nat>)
    requires batch.Valid() && Partition.GreedyTo(batch, kinds, limit, 0, ends, batch.RowCount())
    ensures forall other :: Partition.Pieces(batch, kinds, limit, 0, other) ==> |ends| <= |other|
  {
    Partition.GreedyToEnd(batch, kinds, limit, 0, ends);
    forall other | Partition.Pieces(batch, kinds, limit, 0, other) ensures |ends| <= |other| {
      Partition.GreedyStaysAhead(batch, kinds, limit, 0, ends, 0, other);
    }
  }

  /** Cut one batch and lend every unit of it: all its rows, in order, in the fewest units
      that respect the native bound. */
  method ImportBatch(columns: Columns.Columns, batch: InputBatch, limit: nat, pieces: seq<Piece>, token: Token)
    returns (r: Result, out: seq<Piece>)
    requires columns.Valid() && batch.Valid() && |columns.kinds| == batch.columns && batch.RowCount() <= columns.rows
    requires Columns.AllMatch(batch, columns.kinds, 0, batch.RowCount())
    requires AllReadable(pieces) && AllWithin(pieces, limit)
    modifies columns, columns.validity, token
    ensures columns.Valid() && (r.Imported? || r.Cancelled? || r.Unfit?)
    ensures r.Cancelled? ==> token.Requested()
    ensures token.found == (old(token.found) || r.Cancelled?)
    ensures batch.RowCount() > 0 && old(token.Requested()) ==> r.Cancelled?
    ensures r.Imported? ==> AllFitAlone(batch, columns.kinds, limit)
    ensures r.Imported? ==>
      && AllReadable(out) && AllWithin(out, limit)
      && Stored(out) == Stored(pieces) + Csv.ValuesOf(batch.cells, batch.text)
      && |pieces| <= |out|
      && forall ends :: Partition.Pieces(batch, columns.kinds, limit, 0, ends) ==> |out| - |pieces| <= |ends|
    ensures r.Unfit? ==>
      exists row: nat :: row < batch.RowCount() && !Partition.FitsAlone(batch, columns.kinds, limit, row)
    ensures r.Unfit? ==> forall ends :: !Partition.Pieces(batch, columns.kinds, limit, 0, ends)
  {
    hide InputBatch.RowCount, Readable, Stored, WithinBound, InBounds, Columns.AllFaithful, Columns.AllMatch,
         Partition.Longest, Partition.Fits;
    out := pieces;
    ghost var ends: seq<nat> := [];
    ghost var flat := Csv.ValuesOf(batch.cells, batch.text);
    var start := 0;
    RowStart(batch, 0);
    while start < batch.RowCount()
      invariant columns.Valid() && start <= batch.RowCount() && start * batch.columns <= |flat|
      invariant AllReadable(out) && AllWithin(out, limit) && |out| == |pieces| + |ends|
      invariant Stored(out) == Stored(pieces) + flat[..start * batch.columns]
      invariant Partition.GreedyTo(batch, columns.kinds, limit, 0, ends, start)
      invariant token.found == old(token.found) && (start > 0 ==> !old(token.Requested()))
      invariant start == 0 ==> token.at == old(token.at)
    {
      var next := Partition.NextEnd(batch, columns.kinds, limit, start, token);
      if next.Cancelled? {
        return Cancelled, out;
      }
      if next.Corrupt? {
        NoCutting(batch, columns.kinds, limit, start);
        return Unfit, out;
      }
      var end := next.end;
      Partition.LongestBounds(batch, columns.kinds, limit, start, end);
      MatchWithin(batch, columns.kinds, start, end);
      var written := columns.Write(batch, start, end, token);
      if written.Cancelled? {
        return Cancelled, out;
      }
      assert written.Lent?;
      var piece := Piece(written.inputs, end - start);
      UnitStored(out, piece, columns.kinds, batch, start, end, limit);
      Partition.GreedyThen(batch, columns.kinds, limit, 0, ends, start, end);
      assert flat[..end * batch.columns] == flat[..start * batch.columns]
        + flat[start * batch.columns..end * batch.columns];
      out, ends, start := out + [piece], ends + [end], end;
    }
    WholeBatch(batch);
    assert flat[..start * batch.columns] == flat;
    FewestPieces(batch, columns.kinds, limit, ends);
    PiecesFitAlone(batch, columns.kinds, limit, ends);
    return Imported, out;
  }

  lemma WholeBatch(batch: InputBatch)
    requires batch.Valid()
    ensures batch.RowCount() * batch.columns == |batch.cells|
    ensures |Csv.ValuesOf(batch.cells, batch.text)| == |batch.cells|
  {
  }

  /** A row whose every STRING column fits a unit of its own. */
  predicate RowFits(row: seq<Value>, kinds: seq<DataType>, limit: nat)
    requires |row| == |kinds|
  {
    forall c :: 0 <= c < |kinds| && kinds[c].STRING? ==> 9 + (if row[c].Text? then |row[c].text| else 0) <= limit
  }

  predicate RecordFits(record: Csv.Record, kinds: seq<DataType>, limit: nat) {
    record.Good? && |record.cells| == |kinds| && InBounds(record.cells, record.decoded)
    ==> RowFits(Csv.ValuesOf(record.cells, record.decoded), kinds, limit)
  }

  /** The rows of a batch are the records it was filled from. */
  predicate FilledFrom(batch: InputBatch, records: seq<Csv.Record>, from: nat)
    requires batch.Valid() && Csv.WellTyped(records, batch.columns)
  {
    && from + batch.RowCount() <= |records|
    && (forall i :: from <= i < from + batch.RowCount() ==> records[i].Good?)
    && Csv.ValuesOf(batch.cells, batch.text) == Csv.RowsOf(records, batch.columns, from, from + batch.RowCount())
  }

  lemma FilledCell(batch: InputBatch, records: seq<Csv.Record>, from: nat, row: nat, c: nat)
    requires batch.Valid() && Csv.WellTyped(records, batch.columns) && FilledFrom(batch, records, from)
    requires row < batch.RowCount() && c < batch.columns
    ensures batch.At(row, c) == Csv.ValuesOf(records[from + row].cells, records[from + row].decoded)[c]
  {
    hide InputBatch.RowCount, InputBatch.At, Csv.ValuesOf, Csv.RowsOf;
    FlatRow(batch, row, c);
    Csv.RowsOfAt(records, batch.columns, from, from + batch.RowCount(), row, c);
  }

  lemma FilledMatches(batch: InputBatch, kinds: seq<DataType>, records: seq<Csv.Record>, from: nat)
    requires batch.Valid() && |kinds| == batch.columns && Conforming(records, kinds) && FilledFrom(batch, records, from)
    ensures Columns.AllMatch(batch, kinds, 0, batch.RowCount())
  {
    hide InputBatch.RowCount, InputBatch.At, Csv.ValuesOf, Csv.RowsOf, Columns.Matches;
    forall c, row: nat | 0 <= c < |kinds| && row < batch.RowCount()
      ensures Columns.CellMatches(batch, kinds[c], c, row)
    {
      FilledCell(batch, records, from, row, c);
      assert RowConforms(records[from + row], kinds);
    }
  }

  /** A row fits a unit of its own exactly when its record does. */
  lemma FilledFits(batch: InputBatch, kinds: seq<DataType>, limit: nat, records: seq<Csv.Record>, from: nat, row: nat)
    requires batch.Valid() && |kinds| == batch.columns && Csv.WellTyped(records, |kinds|)
    requires FilledFrom(batch, records, from) && row < batch.RowCount()
    ensures Partition.FitsAlone(batch, kinds, limit, row) <==> RecordFits(records[from + row], kinds, limit)
  {
    hide InputBatch.RowCount, InputBatch.At, Csv.ValuesOf, Csv.RowsOf, Partition.Size;
    var values := Csv.ValuesOf(records[from + row].cells, records[from + row].decoded);
    forall c | 0 <= c < |kinds|
      ensures Partition.Size(batch, c, row, row + 1) == 9 + (if values[c].Text? then |values[c].text| else 0)
    {
      FilledCell(batch, records, from, row, c);
      RowSize(batch, c, row);
    }
  }

  lemma RowSize(batch: InputBatch, c: nat, row: nat)
    requires batch.Valid() && row < batch.RowCount() && c < batch.columns
    ensures Partition.Size(batch, c, row, row + 1)
      == 9 + (if batch.At(row, c).Text? then |batch.At(row, c).text| else 0)
  {
    TextBytesIsLength(batch, row, c);
    assert Partition.TextSum(batch, c, row, row) == 0;
  }

  predicate AllRecordsFit(records: seq<Csv.Record>, kinds: seq<DataType>, limit: nat, n: nat)
    requires n <= |records|
  {
    forall i :: 0 <= i < n ==> RecordFits(records[i], kinds, limit)
  }

  lemma BatchFits(batch: InputBatch, kinds: seq<DataType>, limit: nat, records: seq<Csv.Record>, from: nat)
    requires batch.Valid() && |kinds| == batch.columns && Csv.WellTyped(records, |kinds|)
    requires FilledFrom(batch, records, from) && AllRecordsFit(records, kinds, limit, from)
    ensures AllFitAlone(batch, kinds, limit) ==> AllRecordsFit(records, kinds, limit, from + batch.RowCount())
    ensures !AllFitAlone(batch, kinds, limit) ==> !AllRecordsFit(records, kinds, limit, |records|)
  {
    hide InputBatch.RowCount, RecordFits, Partition.FitsAlone, InBounds, Csv.ValuesOf, Csv.RowsOf;
    forall row: nat | row < batch.RowCount()
      ensures Partition.FitsAlone(batch, kinds, limit, row) <==> RecordFits(records[from + row], kinds, limit)
    {
      FilledFits(batch, kinds, limit, records, from, row);
    }
    if AllFitAlone(batch, kinds, limit) {
      forall i | from <= i < from + batch.RowCount() ensures RecordFits(records[i], kinds, limit) {
        assert Partition.FitsAlone(batch, kinds, limit, i - from);
      }
    } else {
      var row: nat :| row < batch.RowCount() && !Partition.FitsAlone(batch, kinds, limit, row);
      assert !RecordFits(records[from + row], kinds, limit);
    }
  }

  /** Import a whole CSV input. Unless cancellation is requested, it succeeds exactly when the
      input is importable and each row fits; then storage has been lent exactly the typed rows,
      in order. */
  method ImportCsv(decoder: Csv.CsvDecoder, columns: Columns.Columns, limit: nat, token: Token)
    returns (r: Result, pieces: seq<Piece>)
    requires decoder.Valid() && !decoder.failed && decoder.rows == 0 && columns.Valid()
    requires |columns.kinds| == decoder.columns && decoder.limits.batchRows <= columns.rows
    requires Conforming(decoder.records, columns.kinds)
    modifies decoder, columns, columns.validity, token
    ensures r.Imported? ==>
      && Importable(decoder.goodHeader, decoder.records, decoder.limits)
      && AllReadable(pieces) && AllWithin(pieces, limit)
      && Stored(pieces) == Csv.RowsOf(decoder.records, decoder.columns, 0, |decoder.records|)
    ensures r.Cancelled? || r == Refused(Csv.Cancelled) ==> token.Requested()
    ensures token.found == (old(token.found) || r.Cancelled? || r == Refused(Csv.Cancelled))
    ensures old(token.Requested()) ==> r == Refused(Csv.Cancelled)
    ensures !(r.Cancelled? || r == Refused(Csv.Cancelled)) ==>
      (r.Imported? <==>
        && Importable(decoder.goodHeader, decoder.records, decoder.limits)
        && AllRecordsFit(decoder.records, columns.kinds, limit, |decoder.records|))
  {
    hide Readable, Stored, WithinBound, InBounds, Csv.ValuesOf, Csv.RowsOf, RecordFits, Csv.TextLength,
         InputBatch.RowCount, Partition.FitsAlone, Partition.Pieces, Columns.AllMatch, AllFitAlone, AllRecordsFit;
    pieces := [];
    Nothing(decoder.records, decoder.columns, columns.kinds, limit);
    while true
      invariant decoder.Valid() && !decoder.failed && columns.Valid() && decoder.rows <= |decoder.records|
      invariant AllReadable(pieces) && AllWithin(pieces, limit)
      invariant forall i :: 0 <= i < decoder.rows ==> decoder.records[i].Good?
      invariant AllRecordsFit(decoder.records, columns.kinds, limit, decoder.rows)
      invariant Stored(pieces) == Csv.RowsOf(decoder.records, decoder.columns, 0, decoder.rows)
      invariant token.found == old(token.found)
      invariant if decoder.rows == 0 then token.at == old(token.at) else !old(token.Requested())
      decreases |decoder.records| - decoder.rows
    {
      ghost var from := decoder.rows;
      var next := decoder.NextBatch(token);
      if next.Err? {
        return Refused(next.error), pieces;
      }
      if next.End? {
        return if decoder.rows == 0 then NoRows else Imported, pieces;
      }
      BatchFilled(decoder, next.batch, from);
      FilledMatches(next.batch, columns.kinds, decoder.records, from);
      Csv.RowsOfConcat(decoder.records, decoder.columns, 0, from, decoder.rows);
      BatchFits(next.batch, columns.kinds, limit, decoder.records, from);
      r, pieces := ImportBatch(columns, next.batch, limit, pieces, token);
      if r.Unfit? {
        OneUnfit(next.batch, columns.kinds, limit);
      }
      if !r.Imported? {
        return;
      }
    }
  }

  lemma OneUnfit(batch: InputBatch, kinds: seq<DataType>, limit: nat)
    requires batch.Valid()
    requires exists row: nat :: row < batch.RowCount() && !Partition.FitsAlone(batch, kinds, limit, row)
    ensures !AllFitAlone(batch, kinds, limit)
  {
  }

  lemma Nothing(records: seq<Csv.Record>, columns: nat, kinds: seq<DataType>, limit: nat)
    requires Csv.WellTyped(records, columns)
    ensures Stored([]) == Csv.RowsOf(records, columns, 0, 0) == [] && AllRecordsFit(records, kinds, limit, 0)
  {
  }

  lemma BatchFilled(decoder: Csv.CsvDecoder, batch: InputBatch, from: nat)
    requires decoder.Valid() && decoder.Packed(from)
    requires batch == InputBatch(decoder.cells, decoder.text, decoder.columns)
    ensures batch.Valid() && batch.RowCount() == decoder.rows - from <= decoder.limits.batchRows
    ensures FilledFrom(batch, decoder.records, from)
  {
    hide Csv.ValuesOf, Csv.RowsOf;
    Csv.RowsFilled(|batch.cells|, decoder.columns, decoder.rows - from);
  }
}
