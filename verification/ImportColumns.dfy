/** Transposing decoded rows into packed vectors, one per type, and validity bitmaps. */
module ImportColumns {
  import opened Basics
  import opened Cancellation
  import opened Values
  import opened Input
  import Bitmaps

  datatype ColumnValues =
    Ints(ints: seq<int>) | Doubles(doubles: seq<nat>) | Dates(dates: seq<int>) | Strings(strings: seq<seq<Byte>>)
  {
    function Kind(): DataType {
      match this
      case Ints(_) => INT64
      case Doubles(_) => DOUBLE
      case Dates(_) => DATE
      case Strings(_) => STRING
    }

    /** Every slot as a value, NULL slots included. */
    function Slots(): (r: seq<Value>) {
      match this
      case Ints(s) => seq(|s|, i requires 0 <= i < |s| => Int64(s[i]))
      case Doubles(s) => seq(|s|, i requires 0 <= i < |s| => Double(s[i]))
      case Dates(s) => seq(|s|, i requires 0 <= i < |s| => Date(s[i]))
      case Strings(s) => seq(|s|, i requires 0 <= i < |s| => Text(s[i]))
    }
  }

  /** One column lent to a write: a slot per row, and a bit per row that is set when present. */
  datatype ColumnInput = ColumnInput(values: ColumnValues, validity: seq<bv8>)

  /** The column read back: row `i` through its bit and its slot. */
  function ReadBack(input: ColumnInput, i: nat): Value
    requires i < |input.values.Slots()| && i < 8 * |input.validity|
  {
    if Bitmaps.Test(input.validity[i / 8], i % 8) then input.values.Slots()[i] else Null
  }

  /** What is stored for a value; a NULL takes the type's zero. */
  function Slot(kind: DataType, v: Value): Value {
    if !v.Null? then v
    else
      match kind
      case INT64 => Int64(0)
      case DOUBLE => Double(0)
      case DATE => Date(0)
      case STRING => Text([])
  }

  /** The cell is NULL or of its column's declared type. */
  predicate Matches(kind: DataType, v: Value) {
    match v
    case Null => true
    case Int64(_) => kind == INT64
    case Double(_) => kind == DOUBLE
    case Date(_) => kind == DATE
    case Text(_) => kind == STRING
  }

  /** The slots of rows `from..to` of one column. */
  function Chunk(batch: InputBatch, kind: DataType, column: nat, from: nat, to: nat): (r: seq<Value>)
    requires batch.Valid() && column < batch.columns && from <= to <= batch.RowCount()
    ensures |r| == to - from
  {
    seq(to - from, i requires 0 <= i < to - from => Slot(kind, batch.At(from + i, column)))
  }

  /** The chunks of the first `c` columns that have this type, one after another. */
  function Packed(batch: InputBatch, kinds: seq<DataType>, kind: DataType, c: nat, from: nat, to: nat): (r: seq<Value>)
    requires batch.Valid() && |kinds| == batch.columns && c <= |kinds| && from <= to <= batch.RowCount()
    decreases c
  {
    if c == 0 then []
    else
      Packed(batch, kinds, kind, c - 1, from, to)
      + (if kinds[c - 1] == kind then Chunk(batch, kind, c - 1, from, to) else [])
  }

  function Count(kinds: seq<DataType>, kind: DataType, c: nat): nat
    requires c <= |kinds|
    decreases c
  {
    if c == 0 then 0 else Count(kinds, kind, c - 1) + (if kinds[c - 1] == kind then 1 else 0)
  }

  lemma {:induction false} PackedLength(batch: InputBatch, kinds: seq<DataType>, kind: DataType, c: nat, from: nat,
                                        to: nat)
    requires batch.Valid() && |kinds| == batch.columns && c <= |kinds| && from <= to <= batch.RowCount()
    ensures |Packed(batch, kinds, kind, c, from, to)| == Count(kinds, kind, c) * (to - from)
    decreases c
  {
    if c > 0 {
      PackedLength(batch, kinds, kind, c - 1, from, to);
      if kinds[c - 1] == kind { OneMore(Count(kinds, kind, c - 1), to - from); }
    }
  }

  lemma OneMore(columns: nat, rows: nat)
    ensures (columns + 1) * rows == columns * rows + rows
  {
  }

  /** A column's chunk starts where the earlier columns of its type end. */
  lemma {:induction false} PackedChunk(batch: InputBatch, kinds: seq<DataType>, column: nat, c: nat, from: nat, to: nat)
    requires batch.Valid() && |kinds| == batch.columns && column < c <= |kinds| && from <= to <= batch.RowCount()
    ensures var start := |Packed(batch, kinds, kinds[column], column, from, to)|;
            var all := Packed(batch, kinds, kinds[column], c, from, to);
            && start + (to - from) <= |all|
            && all[start..start + (to - from)] == Chunk(batch, kinds[column], column, from, to)
    decreases c
  {
    if column < c - 1 { PackedChunk(batch, kinds, column, c - 1, from, to); }
  }

  lemma ChunkNext(batch: InputBatch, kind: DataType, column: nat, from: nat, row: nat)
    requires batch.Valid() && column < batch.columns && from <= row < batch.RowCount()
    ensures Chunk(batch, kind, column, from, row + 1)
      == Chunk(batch, kind, column, from, row) + [Slot(kind, batch.At(row, column))]
  {
    hide Slot;
  }

  /** Bit `i` of column `j` once columns before `c`, and `o` rows of column `c`, are marked. */
  predicate Wanted(batch: InputBatch, c: nat, o: nat, from: nat, to: nat, j: nat, i: nat)
    requires batch.Valid() && j < batch.columns && from <= to <= batch.RowCount()
  {
    i < to - from && (j < c || (j == c && i < o)) && !batch.At(from + i, j).Null?
  }

  predicate Marked(bits: seq<bv8>, stride: nat, batch: InputBatch, c: nat, o: nat, from: nat, to: nat)
    requires batch.Valid() && from <= to <= batch.RowCount() && |bits| == batch.columns * stride
  {
    forall j: nat, i: nat :: j < batch.columns && i < 8 * stride ==>
      (ColumnFits(stride, j, batch.columns); Bitmaps.BitAt(bits, stride, j, i)) == Wanted(batch, c, o, from, to, j, i)
  }

  lemma ColumnFits(stride: nat, j: nat, columns: nat)
    requires j < columns
    ensures (j + 1) * stride <= columns * stride
  {
  }

  lemma MarkNext(bits: seq<bv8>, next: seq<bv8>, stride: nat, batch: InputBatch, c: nat, o: nat, from: nat, to: nat)
    requires batch.Valid() && c < batch.columns && from <= to <= batch.RowCount() && o < to - from <= 8 * stride
    requires |bits| == |next| == batch.columns * stride && c * stride + o / 8 < |bits|
    requires Marked(bits, stride, batch, c, o, from, to)
    requires next ==
      if batch.At(from + o, c).Null? then bits
      else bits[c * stride + o / 8 := Bitmaps.Set(bits[c * stride + o / 8], o % 8)]
    ensures Marked(next, stride, batch, c, o + 1, from, to)
  {
    hide Bitmaps.BitAt;
    forall j: nat, i: nat | j < batch.columns && i < 8 * stride
      ensures (ColumnFits(stride, j, batch.columns); Bitmaps.BitAt(next, stride, j, i))
        == Wanted(batch, c, o + 1, from, to, j, i)
    {
      ColumnFits(stride, j, batch.columns);
      ColumnFits(stride, c, batch.columns);
      Bitmaps.SetBitAt(bits, stride, c, o, j, i);
    }
  }

  lemma MarkColumn(bits: seq<bv8>, stride: nat, batch: InputBatch, c: nat, from: nat, to: nat)
    requires batch.Valid() && c < batch.columns && from <= to <= batch.RowCount()
    requires |bits| == batch.columns * stride
    requires Marked(bits, stride, batch, c, to - from, from, to)
    ensures Marked(bits, stride, batch, c + 1, 0, from, to)
  {
    hide Bitmaps.BitAt;
    forall j: nat, i: nat | j < batch.columns && i < 8 * stride
      ensures (ColumnFits(stride, j, batch.columns); Bitmaps.BitAt(bits, stride, j, i))
        == Wanted(batch, c + 1, 0, from, to, j, i)
    {
      ColumnFits(stride, j, batch.columns);
      assert Bitmaps.BitAt(bits, stride, j, i) == Wanted(batch, c, to - from, from, to, j, i);
    }
  }

  lemma MarkNone(bits: seq<bv8>, stride: nat, batch: InputBatch, from: nat, to: nat)
    requires batch.Valid() && from <= to <= batch.RowCount() && |bits| == batch.columns * stride
    requires forall k :: 0 <= k < |bits| ==> bits[k] == 0
    ensures Marked(bits, stride, batch, 0, 0, from, to)
  {
    hide Bitmaps.BitAt;
    forall j: nat, i: nat | j < batch.columns && i < 8 * stride
      ensures (ColumnFits(stride, j, batch.columns); !Bitmaps.BitAt(bits, stride, j, i))
    {
      ColumnFits(stride, j, batch.columns);
      Bitmaps.ClearAt(bits, stride, j, i);
    }
  }

  /** The slots `start..end` of a vector. */
  function Slice(values: ColumnValues, start: nat, end: nat): (r: ColumnValues)
    requires start <= end <= |values.Slots()|
    ensures r.Kind() == values.Kind() && r.Slots() == values.Slots()[start..end]
  {
    match values
    case Ints(s) => Ints(s[start..end])
    case Doubles(s) => Doubles(s[start..end])
    case Dates(s) => Dates(s[start..end])
    case Strings(s) => Strings(s[start..end])
  }

  /** The slot is 0, or the empty text. */
  predicate ZeroSlot(values: ColumnValues, i: nat)
    requires i < |values.Slots()|
  {
    match values
    case Ints(s) => s[i] == 0
    case Doubles(s) => s[i] == 0
    case Dates(s) => s[i] == 0
    case Strings(s) => s[i] == []
  }

  lemma NullSlot(values: ColumnValues, kind: DataType, i: nat)
    requires i < |values.Slots()| && values.Slots()[i] == Slot(kind, Null) && values.Kind() == kind
    ensures ZeroSlot(values, i)
  {
  }

  /** A lent column holds exactly the batch's cells: through its bits and slots it reads back
      as them, NULL slots hold the type's zero, and the bits past its rows are clear. */
  predicate Faithful(input: ColumnInput, kind: DataType, batch: InputBatch, column: nat, from: nat, to: nat)
    requires batch.Valid() && column < batch.columns && from <= to <= batch.RowCount()
  {
    && input.values.Kind() == kind && input.values.Slots() == Chunk(batch, kind, column, from, to)
    && |input.validity| == DivCeil(to - from, 8)
    && (forall i :: 0 <= i < to - from ==> ReadBack(input, i) == batch.At(from + i, column))
    && (forall i :: 0 <= i < to - from && batch.At(from + i, column).Null? ==> ZeroSlot(input.values, i))
    && (forall i :: to - from <= i < 8 * |input.validity| ==> !Bitmaps.Test(input.validity[i / 8], i % 8))
  }

  predicate CellMatches(batch: InputBatch, kind: DataType, c: nat, row: nat)
    requires batch.Valid() && c < batch.columns && row < batch.RowCount()
  {
    Matches(kind, batch.At(row, c))
  }

  predicate ColumnMatches(batch: InputBatch, kind: DataType, c: nat, from: nat, to: nat)
    requires batch.Valid() && c < batch.columns && from <= to <= batch.RowCount()
  {
    forall row: nat :: from <= row < to ==> CellMatches(batch, kind, c, row)
  }

  lemma LentBit(bits: seq<bv8>, stride: nat, batch: InputBatch, c: nat, from: nat, to: nat, i: nat)
    requires batch.Valid() && c < batch.columns && from <= to <= batch.RowCount() && to - from <= 8 * stride
    requires |bits| == batch.columns * stride && Marked(bits, stride, batch, batch.columns, 0, from, to)
    requires c * stride + DivCeil(to - from, 8) <= |bits| && i < 8 * DivCeil(to - from, 8)
    ensures i / 8 < DivCeil(to - from, 8)
    ensures Bitmaps.Test(bits[c * stride..c * stride + DivCeil(to - from, 8)][i / 8], i % 8)
      == (i < to - from && !batch.At(from + i, c).Null?)
  {
    hide Bitmaps.Test;
    ColumnFits(stride, c, batch.columns);
    Bitmaps.ByteInColumn(stride, c, i);
    assert Bitmaps.BitAt(bits, stride, c, i) == Wanted(batch, batch.columns, 0, from, to, c, i);
  }

  lemma LentIsFaithful(input: ColumnInput, kind: DataType, bits: seq<bv8>, stride: nat, batch: InputBatch, c: nat,
                       from: nat, to: nat)
    requires batch.Valid() && c < batch.columns && from <= to <= batch.RowCount() && to - from <= 8 * stride
    requires |bits| == batch.columns * stride && Marked(bits, stride, batch, batch.columns, 0, from, to)
    requires ColumnMatches(batch, kind, c, from, to)
    requires input.values.Kind() == kind && input.values.Slots() == Chunk(batch, kind, c, from, to)
    requires c * stride + DivCeil(to - from, 8) <= |bits|
    requires input.validity == bits[c * stride..c * stride + DivCeil(to - from, 8)]
    ensures Faithful(input, kind, batch, c, from, to)
  {
    hide Bitmaps.Test, Marked;
    forall i: nat | i < 8 * |input.validity|
      ensures Bitmaps.Test(input.validity[i / 8], i % 8) == (i < to - from && !batch.At(from + i, c).Null?)
    {
      LentBit(bits, stride, batch, c, from, to, i);
    }
    forall i | 0 <= i < to - from ensures ReadBack(input, i) == batch.At(from + i, c) {
      assert input.values.Slots()[i] == Slot(kind, batch.At(from + i, c));
      assert Bitmaps.Test(input.validity[i / 8], i % 8) == !batch.At(from + i, c).Null?;
    }
    forall i | 0 <= i < to - from && batch.At(from + i, c).Null? ensures ZeroSlot(input.values, i) {
      assert input.values.Slots()[i] == Slot(kind, batch.At(from + i, c));
      NullSlot(input.values, kind, i);
    }
  }

  datatype Written = Lent(inputs: seq<ColumnInput>) | Cancelled | Corrupt

  class Columns {
    const kinds: seq<DataType>
    const rows: nat
    const stride: nat
    var integers: seq<int>
    var doubles: seq<nat>
    var dates: seq<int>
    var strings: seq<seq<Byte>>
    const validity: array<bv8>
    var starts: seq<nat>

    predicate Valid()
      reads `starts
    {
      |kinds| <= MAX_COLUMNS && stride == DivCeil(rows, 8) && validity.Length == |kinds| * stride &&
        |starts| == MAX_COLUMNS
    }

    constructor (kinds: seq<DataType>, rows: nat)
      requires |kinds| <= MAX_COLUMNS
      ensures Valid() && this.kinds == kinds && this.rows == rows && fresh(validity)
    {
      this.kinds, this.rows, stride := kinds, rows, DivCeil(rows, 8);
      integers, doubles, dates, strings := [], [], [], [];
      validity := new bv8[|kinds| * DivCeil(rows, 8)](_ => 0);
      starts := seq(MAX_COLUMNS, _ => 0);
    }

    function Vector(kind: DataType): (r: ColumnValues)
      reads `integers, `doubles, `dates, `strings
      ensures r.Kind() == kind
    {
      match kind
      case INT64 => Ints(integers)
      case DOUBLE => Doubles(doubles)
      case DATE => Dates(dates)
      case STRING => Strings(strings)
    }

    /** Append one cell's slot to its type's vector, unless the cell is of another type. */
    method Push(kind: DataType, v: Value) returns (ok: bool)
      modifies `integers, `doubles, `dates, `strings
      ensures ok == Matches(kind, v)
      ensures forall k: DataType ::
        Vector(k).Slots() == old(Vector(k).Slots()) + (if ok && k == kind then [Slot(kind, v)] else [])
    {
      match (kind, v) {
        case (INT64, Int64(value)) => integers := integers + [value];
        case (DOUBLE, Double(value)) => doubles := doubles + [value];
        case (DATE, Date(value)) => dates := dates + [value];
        case (STRING, Text(value)) => strings := strings + [value];
        case (INT64, Null) => integers := integers + [0];
        case (DOUBLE, Null) => doubles := doubles + [0];
        case (DATE, Null) => dates := dates + [0];
        case (STRING, Null) => strings := strings + [[]];
        case _ => return false;
      }
      return true;
    }

    /** Every vector holds the packed slots of the first `c` columns. */
    predicate Holding(batch: InputBatch, c: nat, from: nat, to: nat)
      requires batch.Valid() && |kinds| == batch.columns && c <= |kinds| && from <= to <= batch.RowCount()
      reads `integers, `doubles, `dates, `strings
    {
      forall kind: DataType :: Vector(kind).Slots() == Packed(batch, kinds, kind, c, from, to)
    }

    /** Where each of the first `c` columns' slots start in its vector. */
    predicate Started(batch: InputBatch, c: nat, from: nat, to: nat)
      requires Valid() && batch.Valid() && |kinds| == batch.columns && c <= |kinds| && from <= to <= batch.RowCount()
      reads `starts
    {
      forall j :: 0 <= j < c ==> starts[j] == |Packed(batch, kinds, kinds[j], j, from, to)|
    }

    /** No vector holds more slots than `n` rows of the first `c` columns of its type. */
    ghost predicate Charged(c: nat, n: nat)
      requires c <= |kinds|
      reads `integers, `doubles, `dates, `strings
    {
      forall kind: DataType :: |Vector(kind).Slots()| <= Count(kinds, kind, c) * n
    }

    lemma HeldIsCharged(batch: InputBatch, c: nat, from: nat, to: nat)
      requires batch.Valid() && |kinds| == batch.columns && c <= |kinds| && from <= to <= batch.RowCount()
      requires Holding(batch, c, from, to)
      ensures Charged(c, to - from)
    {
      forall kind: DataType ensures |Vector(kind).Slots()| <= Count(kinds, kind, c) * (to - from) {
        PackedLength(batch, kinds, kind, c, from, to);
      }
    }

    lemma ChargedInAll(c: nat, n: nat)
      requires c <= |kinds| && n <= rows && Charged(c, n)
      ensures Charged(|kinds|, rows)
    {
      forall kind: DataType ensures |Vector(kind).Slots()| <= Count(kinds, kind, |kinds|) * rows {
        CountGrows(kinds, kind, c);
        WithinCapacity(Count(kinds, kind, c), n, Count(kinds, kind, |kinds|), rows);
      }
    }

    /** Set the row's bit unless its cell is NULL. */
    method MarkPresent(batch: InputBatch, column: nat, row: nat, from: nat, ghost to: nat)
      requires Valid() && batch.Valid() && |kinds| == batch.columns && column < |kinds|
      requires from <= row < to <= batch.RowCount() && to - from <= rows
      requires Marked(validity[..], stride, batch, column, row - from, from, to)
      modifies validity
      ensures Marked(validity[..], stride, batch, column, row + 1 - from, from, to)
    {
      hide Bitmaps.Set, Marked, InputBatch.Valid, InputBatch.At, InputBatch.RowCount;
      var output := row - from;
      ColumnFits(stride, column, |kinds|);
      Bitmaps.ByteInColumn(stride, column, output);
      ghost var before := validity[..];
      if !batch.At(row, column).Null? {
        validity[column * stride + output / 8] := Bitmaps.Set(validity[column * stride + output / 8], output % 8);
      }
      MarkNext(before, validity[..], stride, batch, column, output, from, to);
    }

    /** Append one column's slots and set its validity bits. */
    method PackColumn(batch: InputBatch, column: nat, from: nat, to: nat) returns (ok: bool)
      requires Valid() && batch.Valid() && |kinds| == batch.columns && column < |kinds|
      requires from <= to <= batch.RowCount() && to - from <= rows
      requires Holding(batch, column, from, to) && Marked(validity[..], stride, batch, column, 0, from, to)
      modifies `integers, `doubles, `dates, `strings, validity
      ensures ok == ColumnMatches(batch, kinds[column], column, from, to)
      ensures ok ==>
        Holding(batch, column + 1, from, to) && Marked(validity[..], stride, batch, column + 1, 0, from, to)
      ensures forall k: DataType ::
        |Vector(k).Slots()| <= |old(Vector(k).Slots())| + (if k == kinds[column] then to - from else 0)
    {
      hide Bitmaps.Set, Matches, Slot, Marked, Chunk, ColumnValues.Slots, InputBatch.Valid, InputBatch.At,
           InputBatch.RowCount, Vector;
      var kind := kinds[column];
      var row := from;
      while row < to
        invariant from <= row <= to
        invariant ColumnMatches(batch, kind, column, from, row)
        invariant forall k: DataType ::
          Vector(k).Slots() == old(Vector(k).Slots())
            + (if k == kind then Chunk(batch, kind, column, from, row) else [])
        invariant Marked(validity[..], stride, batch, column, row - from, from, to)
      {
        var value := batch.At(row, column);
        MarkPresent(batch, column, row, from, to);
        ok := Push(kind, value);
        if !ok {
          assert !CellMatches(batch, kind, column, row);
          return false;
        }
        ChunkNext(batch, kind, column, from, row);
        row := row + 1;
      }
      MarkColumn(validity[..], stride, batch, column, from, to);
      return true;
    }

    method Clear(batch: InputBatch, from: nat, to: nat)
      requires Valid() && batch.Valid() && |kinds| == batch.columns && from <= to <= batch.RowCount()
      modifies `integers, `doubles, `dates, `strings, validity
      ensures Holding(batch, 0, from, to) && Marked(validity[..], stride, batch, 0, 0, from, to)
    {
      integers, doubles, dates, strings := [], [], [], [];
      forall k | 0 <= k < validity.Length {
        validity[k] := 0;
      }
      hide Marked;
      MarkNone(validity[..], stride, batch, from, to);
    }

    lemma NothingStarted(batch: InputBatch, from: nat, to: nat)
      requires Valid() && batch.Valid() && |kinds| == batch.columns && from <= to <= batch.RowCount()
      ensures Started(batch, 0, from, to)
    {
    }

    /** Note where the column's slots start, then pack it. */
    method StartColumn(batch: InputBatch, column: nat, from: nat, to: nat) returns (ok: bool)
      requires Valid() && batch.Valid() && |kinds| == batch.columns && column < |kinds|
      requires from <= to <= batch.RowCount() && to - from <= rows
      requires Holding(batch, column, from, to) && Started(batch, column, from, to)
      requires Marked(validity[..], stride, batch, column, 0, from, to)
      modifies `integers, `doubles, `dates, `strings, `starts, validity
      ensures Valid()
      ensures ok == ColumnMatches(batch, kinds[column], column, from, to)
      ensures ok ==> Holding(batch, column + 1, from, to) && Started(batch, column + 1, from, to)
      ensures ok ==> Marked(validity[..], stride, batch, column + 1, 0, from, to)
      ensures Charged(column + 1, to - from)
    {
      hide Marked, ColumnMatches, Packed, ColumnValues.Slots, InputBatch.Valid, InputBatch.RowCount, Holding, Vector;
      HoldingLength(batch, column, from, to);
      starts := starts[column := |Vector(kinds[column]).Slots()|];
      HeldIsCharged(batch, column, from, to);
      ok := PackColumn(batch, column, from, to);
      forall kind: DataType ensures |Vector(kind).Slots()| <= Count(kinds, kind, column + 1) * (to - from) {
        OneMore(Count(kinds, kind, column), to - from);
      }
    }

    /** Every column in turn; stops at a cancellation or at the first cell of another type. */
    method PackAll(batch: InputBatch, from: nat, to: nat, token: Token) returns (ok: bool, cancelled: bool)
      requires Valid() && batch.Valid() && |kinds| == batch.columns
      requires from <= to <= batch.RowCount() && to - from <= rows
      modifies `integers, `doubles, `dates, `strings, `starts, validity, token
      ensures Valid()
      ensures cancelled ==> token.Requested()
      ensures token.found == (old(token.found) || cancelled) && (ok ==> token.at == old(token.at) + |kinds|)
      ensures kinds != [] && old(token.Requested()) ==> cancelled
      ensures ok ==> !cancelled && AllMatch(batch, kinds, from, to) && Holding(batch, |kinds|, from, to)
      ensures ok ==> Started(batch, |kinds|, from, to) && Marked(validity[..], stride, batch, |kinds|, 0, from, to)
      ensures !ok && !cancelled ==> !AllMatch(batch, kinds, from, to)
      ensures Charged(|kinds|, rows)
    {
      hide Marked, ColumnMatches, ColumnValues.Slots, InputBatch.Valid, InputBatch.RowCount, Holding, Started, Vector,
           Charged;
      Clear(batch, from, to);
      NothingStarted(batch, from, to);
      var column := 0;
      while column < |kinds|
        invariant column <= |kinds| && Valid() && Holding(batch, column, from, to) && Started(batch, column, from, to)
        invariant Marked(validity[..], stride, batch, column, 0, from, to)
        invariant forall c :: 0 <= c < column ==> ColumnMatches(batch, kinds[c], c, from, to)
        invariant token.found == old(token.found) && token.at == old(token.at) + column
        invariant column > 0 ==> !old(token.Requested())
      {
        cancelled := token.Check();
        if cancelled {
          HeldIsCharged(batch, column, from, to);
          ChargedInAll(column, to - from);
          return false, true;
        }
        ok := StartColumn(batch, column, from, to);
        if !ok {
          ChargedInAll(column + 1, to - from);
          return false, false;
        }
        column := column + 1;
      }
      HeldIsCharged(batch, |kinds|, from, to);
      ChargedInAll(|kinds|, to - from);
      return true, false;
    }

    lemma HoldingLength(batch: InputBatch, c: nat, from: nat, to: nat)
      requires batch.Valid() && |kinds| == batch.columns && c < |kinds| && from <= to <= batch.RowCount()
      requires Holding(batch, c, from, to)
      ensures |Vector(kinds[c]).Slots()| == |Packed(batch, kinds, kinds[c], c, from, to)|
    {
    }

    method LendAll(batch: InputBatch, from: nat, to: nat) returns (inputs: seq<ColumnInput>)
      requires Valid() && batch.Valid() && |kinds| == batch.columns
      requires from <= to <= batch.RowCount() && to - from <= rows
      requires Holding(batch, |kinds|, from, to) && Started(batch, |kinds|, from, to)
      requires Marked(validity[..], stride, batch, |kinds|, 0, from, to) && AllMatch(batch, kinds, from, to)
      ensures AllFaithful(inputs, kinds, batch, from, to)
    {
      hide Marked, Faithful, Holding, Started, AllMatch, InputBatch.Valid, InputBatch.RowCount;
      inputs := [];
      while |inputs| < |kinds|
        invariant |inputs| <= |kinds|
        invariant forall c :: 0 <= c < |inputs| ==> Faithful(inputs[c], kinds[c], batch, c, from, to)
      {
        var input := Lend(batch, |inputs|, from, to);
        inputs := inputs + [input];
      }
    }

    /** Lend rows `from..to` of the batch, a column at a time, or refuse them because some cell
        is not of its declared type. No vector outgrows what was charged for it. */
    method Write(batch: InputBatch, from: nat, to: nat, token: Token) returns (r: Written)
      requires Valid() && batch.Valid() && |kinds| == batch.columns
      requires from <= to <= batch.RowCount() && to - from <= rows
      modifies `integers, `doubles, `dates, `strings, `starts, validity, token
      ensures Valid()
      ensures r.Cancelled? ==> token.Requested()
      ensures token.found == (old(token.found) || r.Cancelled?)
      ensures kinds != [] && old(token.Requested()) ==> r.Cancelled?
      ensures r.Lent? ==> token.at == old(token.at) + |kinds|
      ensures r.Lent? ==> AllMatch(batch, kinds, from, to) && AllFaithful(r.inputs, kinds, batch, from, to)
      ensures forall kind: DataType :: |Vector(kind).Slots()| <= Count(kinds, kind, |kinds|) * rows
      ensures r.Corrupt? ==> !AllMatch(batch, kinds, from, to)
    {
      hide Marked, AllMatch, AllFaithful, Holding, Started, ColumnValues.Slots, InputBatch.Valid, InputBatch.RowCount,
           Vector;
      var ok, cancelled := PackAll(batch, from, to, token);
      if cancelled {
        return Cancelled;
      }
      if !ok {
        return Corrupt;
      }
      var inputs := LendAll(batch, from, to);
      return Lent(inputs);
    }

    /** One column's slots and bits. */
    method Lend(batch: InputBatch, c: nat, from: nat, to: nat) returns (input: ColumnInput)
      requires Valid() && batch.Valid() && |kinds| == batch.columns && c < |kinds|
      requires from <= to <= batch.RowCount() && to - from <= rows
      requires Holding(batch, |kinds|, from, to) && Started(batch, |kinds|, from, to)
      requires Marked(validity[..], stride, batch, |kinds|, 0, from, to) && AllMatch(batch, kinds, from, to)
      ensures Faithful(input, kinds[c], batch, c, from, to)
    {
      hide Marked, ColumnMatches, Faithful, Packed, Chunk, ColumnValues.Slots, InputBatch.Valid, InputBatch.RowCount,
           Vector, Slice;
      ghost var at := |Packed(batch, kinds, kinds[c], c, from, to)|;
      ColumnSlots(Vector(kinds[c]), batch, kinds, c, from, to);
      assert starts[c] == at;
      ColumnFits(stride, c, |kinds|);
      var n := DivCeil(to - from, 8);
      assert n <= stride;
      input := ColumnInput(Slice(Vector(kinds[c]), starts[c], starts[c] + (to - from)),
        validity[c * stride..c * stride + n]);
      assert input.validity == validity[..][c * stride..c * stride + n];
      LentIsFaithful(input, kinds[c], validity[..], stride, batch, c, from, to);
    }
  }

  predicate AllMatch(batch: InputBatch, kinds: seq<DataType>, from: nat, to: nat)
    requires batch.Valid() && |kinds| == batch.columns && from <= to <= batch.RowCount()
  {
    forall c :: 0 <= c < |kinds| ==> ColumnMatches(batch, kinds[c], c, from, to)
  }

  predicate AllFaithful(inputs: seq<ColumnInput>, kinds: seq<DataType>, batch: InputBatch, from: nat, to: nat)
    requires batch.Valid() && |kinds| == batch.columns && from <= to <= batch.RowCount()
  {
    |inputs| == |kinds| && forall c :: 0 <= c < |kinds| ==> Faithful(inputs[c], kinds[c], batch, c, from, to)
  }

  lemma ColumnSlots(values: ColumnValues, batch: InputBatch, kinds: seq<DataType>, c: nat, from: nat, to: nat)
    requires batch.Valid() && |kinds| == batch.columns && c < |kinds| && from <= to <= batch.RowCount()
    requires values.Slots() == Packed(batch, kinds, kinds[c], |kinds|, from, to)
    ensures var at := |Packed(batch, kinds, kinds[c], c, from, to)|;
            at + (to - from) <= |values.Slots()| &&
              Slice(values, at, at + (to - from)).Slots() == Chunk(batch, kinds[c], c, from, to)
  {
    hide Packed, Chunk, ColumnValues.Slots, InputBatch.Valid, InputBatch.RowCount;
    PackedChunk(batch, kinds, c, |kinds|, from, to);
  }

  lemma WithinCapacity(columns: nat, used: nat, all: nat, rows: nat)
    requires columns <= all && used <= rows
    ensures columns * used <= all * rows
  {
    assert columns * used <= columns * rows <= all * rows;
  }

  lemma {:induction false} CountGrows(kinds: seq<DataType>, kind: DataType, c: nat)
    requires c <= |kinds|
    ensures Count(kinds, kind, c) <= Count(kinds, kind, |kinds|)
    decreases |kinds| - c
  {
    if c < |kinds| { CountGrows(kinds, kind, c + 1); }
  }
}
