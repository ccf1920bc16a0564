/** Writing the join's generated tables: batches of identities, keys and values with validity
    bitmaps, which read back as the tables the join is defined on. */
module JoinTables {
  import opened Basics
  import opened Values
  import opened NumericJoin
  import Bitmaps
  import Columns = ImportColumns

  const BATCH: nat := 256

  datatype Written = Written(ids: Columns.ColumnInput, keys: Columns.ColumnInput, values: Columns.ColumnInput,
    size: nat)

  predicate Readable(b: Written) {
    && |b.ids.values.Slots()| == |b.keys.values.Slots()| == |b.values.values.Slots()| == b.size
    && |b.ids.validity| == |b.keys.validity| == |b.values.validity| == DivCeil(b.size, 8)
  }

  function RowBack(b: Written, i: nat): seq<Value>
    requires Readable(b) && i < b.size
  {
    [Columns.ReadBack(b.ids, i), Columns.ReadBack(b.keys, i), Columns.ReadBack(b.values, i)]
  }

  function Table(input: Input, facts: bool): seq<Record>
    requires input.keys > 0 && input.matches > 0
  {
    if facts then Facts(input, input.rows) else Dimensions(input, input.keys * input.matches)
  }

  function RecordRow(r: Record): seq<Value> {
    [Int64(r.id), AsValue(r.key), AsValue(r.value)]
  }

  lemma {:induction false} FactsAt(input: Input, count: nat, i: nat)
    requires input.keys > 0 && i < count
    ensures |Facts(input, count)| == count && Facts(input, count)[i] == Fact(input, count - 1 - i)
    decreases count
  {
    if count > 1 {
      FactsAt(input, count - 1, if i == 0 then 0 else i - 1);
    }
  }

  lemma {:induction false} DimensionsAt(input: Input, count: nat, i: nat)
    requires input.matches > 0 && i < count
    ensures |Dimensions(input, count)| == count && Dimensions(input, count)[i] == Dimension(input, i)
    decreases count
  {
    if count > 1 {
      DimensionsAt(input, count - 1, if i == count - 1 then 0 else i);
    }
  }

  function Count(input: Input, facts: bool): nat {
    if facts then input.rows else input.keys * input.matches
  }

  function Identity(input: Input, facts: bool, i: nat): nat
    requires i < Count(input, facts)
  {
    if facts then Count(input, facts) - 1 - i else i
  }

  function Identities(input: Input, facts: bool, start: nat, size: nat): (r: seq<nat>)
    requires start + size <= Count(input, facts)
    ensures |r| == size && forall i :: 0 <= i < size ==> r[i] == Identity(input, facts, start + i)
  {
    if size == 0 then [] else Identities(input, facts, start, size - 1) + [Identity(input, facts, start + size - 1)]
  }

  function Key(input: Input, facts: bool, id: nat): nat
    requires input.keys > 0 && input.matches > 0
  {
    if facts then id % input.keys else id / input.matches
  }

  predicate KeyPresent(facts: bool, id: nat, key: nat) {
    if facts then id % 13 != 0 else key % 11 != 0
  }

  predicate ValuePresent(facts: bool, id: nat) {
    id % (if facts then 7 else 5) != 0
  }

  function Payload(facts: bool, id: nat): int {
    if facts then id % 101 - 50 else id % 17 - 8
  }

  lemma TableAt(input: Input, facts: bool, i: nat)
    requires input.keys > 0 && input.matches > 0 && i < Count(input, facts)
    ensures |Table(input, facts)| == Count(input, facts)
    ensures var id := Identity(input, facts, i);
            Table(input, facts)[i] == Record(id,
              if KeyPresent(facts, id, Key(input, facts, id)) then Some(Key(input, facts, id)) else None,
              if ValuePresent(facts, id) then Some(Payload(facts, id)) else None)
  {
    if facts {
      FactsAt(input, input.rows, i);
    } else {
      DimensionsAt(input, input.keys * input.matches, i);
    }
  }

  /** Bits `0..n` are set where `wanted` says, and no other. */
  predicate Marked(bits: seq<bv8>, wanted: seq<bool>, n: nat)
    requires n <= |wanted| <= 8 * |bits|
  {
    forall i: nat :: i < 8 * |bits| ==> Bitmaps.Test(bits[i / 8], i % 8) == (i < n && wanted[i])
  }

  /** Storage refuses a bitmap in which an unused trailing bit is set. */
  predicate TrailingClear(bits: seq<bv8>, size: nat) {
    forall i: nat :: size <= i < 8 * |bits| ==> !Bitmaps.Test(bits[i / 8], i % 8)
  }

  /** Every bit of the bytes is set, so a trailing one is as soon as there is one. */
  lemma FullTrailing(bits: seq<bv8>, size: nat)
    requires |bits| == DivCeil(size, 8) && forall k :: 0 <= k < |bits| ==> bits[k] == 255
    ensures TrailingClear(bits, size) <==> size % 8 == 0
  {
    if size % 8 != 0 {
      FullByte(size % 8);
      assert size < 8 * |bits| && Bitmaps.Test(bits[size / 8], size % 8);
    }
  }

  lemma MarkedTrailing(bits: seq<bv8>, wanted: seq<bool>, n: nat)
    requires n <= |wanted| <= 8 * |bits| && Marked(bits, wanted, n)
    ensures TrailingClear(bits, |wanted|)
  {
  }

  lemma MarkNone(bits: seq<bv8>, wanted: seq<bool>)
    requires |wanted| <= 8 * |bits| && forall k :: 0 <= k < |bits| ==> bits[k] == 0
    ensures Marked(bits, wanted, 0)
  {
    hide Bitmaps.Test;
    forall i: nat | i < 8 * |bits| ensures !Bitmaps.Test(bits[i / 8], i % 8) { Bitmaps.ClearByte(i % 8); }
  }

  lemma MarkNext(bits: seq<bv8>, wanted: seq<bool>, n: nat)
    requires n < |wanted| <= 8 * |bits| && Marked(bits, wanted, n)
    ensures Marked(if wanted[n] then bits[n / 8 := Bitmaps.Set(bits[n / 8], n % 8)] else bits, wanted, n + 1)
  {
    hide Bitmaps.Test, Bitmaps.Set;
    forall i: nat | i < 8 * |bits| && i / 8 == n / 8
      ensures Bitmaps.Test(Bitmaps.Set(bits[n / 8], n % 8), i % 8) == (i == n || Bitmaps.Test(bits[n / 8], i % 8))
    {
      Bitmaps.SetThenTest(bits[n / 8], n % 8, i % 8);
    }
  }

  lemma FullByte(k: nat)
    requires k < 8
    ensures Bitmaps.Test(255, k)
  {
    Bitmaps.TestMask(255, k);
    hide Bitmaps.Test;
  }

  /** One batch of a table, from row `start`. Storage accepts its identity bitmap exactly when
      the size is a multiple of eight. */
  method WriteBatch(input: Input, facts: bool, start: nat, size: nat) returns (b: Written)
    requires input.keys > 0 && input.matches > 0 && start + size <= Count(input, facts)
    ensures Readable(b) && b.size == size && |Table(input, facts)| >= start + size
    ensures forall i: nat :: i < size ==> RowBack(b, i) == RecordRow(Table(input, facts)[start + i])
    ensures TrailingClear(b.ids.validity, size) <==> size % 8 == 0
    ensures TrailingClear(b.keys.validity, size) && TrailingClear(b.values.validity, size)
  {
    hide Bitmaps.Test, Bitmaps.Set, Table, RecordRow, TrailingClear;
    var ids := Identities(input, facts, start, size);
    var keys: seq<nat> := seq(size, i requires 0 <= i < size => Key(input, facts, ids[i]));
    var values := seq(size, i requires 0 <= i < size => Payload(facts, ids[i]));
    ghost var keyWanted := seq(size, i requires 0 <= i < size => KeyPresent(facts, ids[i], keys[i]));
    ghost var valueWanted := seq(size, i requires 0 <= i < size => ValuePresent(facts, ids[i]));
    var valid: seq<bv8> := seq(DivCeil(size, 8), _ => 255);
    var keyValid: seq<bv8> := seq(DivCeil(size, 8), _ => 0);
    var valueValid: seq<bv8> := seq(DivCeil(size, 8), _ => 0);
    MarkNone(keyValid, keyWanted);
    MarkNone(valueValid, valueWanted);
    var row := 0;
    while row < size
      invariant row <= size && |keyValid| == |valueValid| == DivCeil(size, 8)
      invariant Marked(keyValid, keyWanted, row) && Marked(valueValid, valueWanted, row)
    {
      MarkNext(keyValid, keyWanted, row);
      MarkNext(valueValid, valueWanted, row);
      if KeyPresent(facts, ids[row], keys[row]) {
        keyValid := keyValid[row / 8 := Bitmaps.Set(keyValid[row / 8], row % 8)];
      }
      if ValuePresent(facts, ids[row]) {
        valueValid := valueValid[row / 8 := Bitmaps.Set(valueValid[row / 8], row % 8)];
      }
      row := row + 1;
    }
    b := Written(Columns.ColumnInput(Columns.Ints(ids), valid), Columns.ColumnInput(Columns.Ints(keys), keyValid),
                 Columns.ColumnInput(Columns.Ints(values), valueValid), size);
    Size(input, facts);
    FullTrailing(valid, size);
    MarkedTrailing(keyValid, keyWanted, size);
    MarkedTrailing(valueValid, valueWanted, size);
    forall i: nat | i < size ensures RowBack(b, i) == RecordRow(Table(input, facts)[start + i]) {
      FullByte(i % 8);
      RowBackIs(input, facts, start, b, i);
    }
  }

  lemma Size(input: Input, facts: bool)
    requires input.keys > 0 && input.matches > 0
    ensures |Table(input, facts)| == Count(input, facts)
  {
    if Count(input, facts) > 0 { TableAt(input, facts, 0); }
  }

  lemma RowBackIs(input: Input, facts: bool, start: nat, b: Written, i: nat)
    requires input.keys > 0 && input.matches > 0 && start + b.size <= Count(input, facts) && i < b.size && Readable(b)
    requires b.ids.values.Ints? && b.keys.values.Ints? && b.values.values.Ints?
    requires var id := Identity(input, facts, start + i);
      && b.ids.values.ints[i] == id && b.keys.values.ints[i] == Key(input, facts, id) &&
        b.values.values.ints[i] == Payload(facts, id)
      && Bitmaps.Test(b.ids.validity[i / 8], i % 8)
      && Bitmaps.Test(b.keys.validity[i / 8], i % 8) == KeyPresent(facts, id, Key(input, facts, id))
      && Bitmaps.Test(b.values.validity[i / 8], i % 8) == ValuePresent(facts, id)
    ensures start + i < |Table(input, facts)| && RowBack(b, i) == RecordRow(Table(input, facts)[start + i])
  {
    hide Bitmaps.Test, Table, Identity, Key, Payload, KeyPresent, ValuePresent;
    TableAt(input, facts, start + i);
  }

  /** The rows of the written batches, in order. */
  function Stored(batches: seq<Written>): seq<seq<Value>>
    requires forall p :: 0 <= p < |batches| ==> Readable(batches[p])
  {
    if batches == [] then []
    else
      var last := batches[|batches| - 1];
      Stored(batches[..|batches| - 1]) + seq(last.size, i requires 0 <= i < last.size => RowBack(last, i))
  }

  function RecordRows(records: seq<Record>): (r: seq<seq<Value>>)
    ensures |r| == |records|
  {
    seq(|records|, i requires 0 <= i < |records| => RecordRow(records[i]))
  }

  /** A batch whose three bitmaps storage accepts. */
  predicate Accepted(b: Written) {
    && TrailingClear(b.ids.validity, b.size) && TrailingClear(b.keys.validity, b.size)
    && TrailingClear(b.values.validity, b.size)
  }

  predicate AllAccepted(batches: seq<Written>) {
    forall p :: 0 <= p < |batches| ==> Accepted(batches[p])
  }

  lemma NoneAccepted()
    ensures AllAccepted([])
  {
  }

  lemma AcceptedNext(batches: seq<Written>, b: Written)
    ensures AllAccepted(batches + [b]) <==> AllAccepted(batches) && Accepted(b)
  {
    hide Accepted;
    var all := batches + [b];
    assert all[|batches|] == b && forall p :: 0 <= p < |batches| ==> all[p] == batches[p];
  }

  /** Whole batches keep a multiple of eight, so only the last one can lose it. */
  lemma NextStart(start: nat, count: nat)
    requires start < count && start % 8 == 0
    ensures var size := Min(BATCH, count - start);
            && ((start + size) % 8 == 0 <==> size % 8 == 0)
            && ((start + size) % 8 == 0 || start + size == count)
  {
  }

  /** A whole table, in batches of at most 256 rows. Storage accepts all of them exactly when the
      table has a multiple of eight rows. */
  method WriteTable(input: Input, facts: bool) returns (batches: seq<Written>)
    requires input.keys > 0 && input.matches > 0
    ensures forall p :: 0 <= p < |batches| ==> Readable(batches[p]) && batches[p].size <= BATCH
    ensures Stored(batches) == RecordRows(Table(input, facts))
    ensures AllAccepted(batches) <==> Count(input, facts) % 8 == 0
  {
    hide Table, RowBack, RecordRow, Readable, TrailingClear, AllAccepted, Count;
    NoneAccepted();
    Size(input, facts);
    batches := [];
    var start := 0;
    while start < Count(input, facts)
      invariant start <= Count(input, facts)
      invariant forall p :: 0 <= p < |batches| ==> Readable(batches[p]) && batches[p].size <= BATCH
      invariant Stored(batches) == RecordRows(Table(input, facts))[..start]
      invariant AllAccepted(batches) <==> start % 8 == 0
      invariant start % 8 == 0 || start == Count(input, facts)
    {
      var size := Min(BATCH, Count(input, facts) - start);
      var b := WriteBatch(input, facts, start, size);
      assert (batches + [b])[..|batches|] == batches;
      NextStart(start, Count(input, facts));
      AcceptedNext(batches, b);
      batches := batches + [b];
      start := start + size;
    }
  }
}
