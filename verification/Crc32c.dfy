/** The CRC32C engine (Castagnoli polynomial, RFC 3720 section 12.1). */
module Castagnoli {
  import opened Indices
  import opened Words
  import opened Crc
  import opened Bursts
  import opened Hardware
  import opened Mirrors

  const POLY: bv32 := 0x82f6_3b78
  const GENERATOR: bv32 := 0x1edc_6f41

  /** Fill the eight tables in place, as the constant initialiser does. */
  method MakeTables() returns (t: array2<bv32>)
    ensures fresh(t) && Tables(POLY, t)
  {
    t := new bv32[8, 256]((i, j) => 0);
    FillFirst(t);
    var table := 1;
    while table < 8
      invariant 1 <= table <= 8
      invariant forall k :: 0 <= k < table ==> TableRow(POLY, t, k, 256)
    {
      FillNext(POLY, t, table);
      table := table + 1;
    }
  }

  method FillFirst(t: array2<bv32>)
    requires t.Length0 == 8 && t.Length1 == 256
    modifies t
    ensures TableRow(POLY, t, 0, 256)
  {
    hide Entry;
    var index := 0;
    while index < 256
      invariant 0 <= index <= 256
      invariant TableRow(POLY, t, 0, index)
    {
      var value := ClockIndex(index);
      t[0, index] := value;
      index := index + 1;
    }
  }

  /** The inner loop of the builder: clock one index through eight bits. */
  method ClockIndex(index: nat) returns (value: bv32)
    requires index < 256
    ensures value == Entry(POLY, 0, index as bv8)
  {
    value := index as bv32;
    ByteOfIndex(index);
    var bit := 0;
    while bit < 8
      invariant 0 <= bit <= 8
      invariant Steps(POLY, value, 8 - bit) == Entry(POLY, 0, index as bv8)
    {
      value := if Odd(value) then Xor(Half(value), 0x82f6_3b78) else Half(value);
      bit := bit + 1;
    }
  }

  class Crc32c {
    var state: bv32
    const tables: array2<bv32>

    ghost predicate Valid()
      reads this, tables
    {
      Tables(POLY, tables)
    }

    constructor (tables: array2<bv32>)
      requires Tables(POLY, tables)
      ensures Valid() && this.tables == tables && state == 0xffff_ffff
    {
      this.tables := tables;
      state := 0xffff_ffff;
    }

    /** Append bytes through the CRC instructions when the CPU has them, else the tables. */
    method Update(bytes: seq<bv8>, available: bool)
      requires Valid()
      modifies this`state
      ensures state == Fold(POLY, old(state), bytes)
    {
      if |bytes| == 0 {
        return;
      }
      if available {
        state := Accelerated(POLY, state, bytes);
        return;
      }
      UpdatePortable(bytes);
    }

    method UpdatePortable(bytes: seq<bv8>)
      requires Valid()
      modifies this`state
      ensures state == Fold(POLY, old(state), bytes)
    {
      var offset := 0;
      while |bytes| - offset >= 8
        invariant 0 <= offset <= |bytes|
        invariant Fold(POLY, state, bytes[offset..]) == Fold(POLY, old(state), bytes)
      {
        FoldSlice(POLY, state, bytes, offset, offset + 8);
        state := GroupStep(POLY, tables, state, bytes[offset..offset + 8]);
        offset := offset + 8;
      }
      while offset < |bytes|
        invariant 0 <= offset <= |bytes|
        invariant Fold(POLY, state, bytes[offset..]) == Fold(POLY, old(state), bytes)
      {
        FoldByte(POLY, state, bytes, offset);
        state := TailStep(POLY, tables, state, bytes[offset]);
        offset := offset + 1;
      }
    }

    method Finish() returns (r: bv32)
      ensures r == Xor(state, 0xffff_ffff)
    {
      r := Xor(state, 0xffff_ffff);
    }

    /** Feed chunks through either path, as the callers of `update` may. */
    method UpdateAll(chunks: seq<seq<bv8>>, available: seq<bool>)
      requires Valid() && |available| == |chunks|
      modifies this`state
      ensures state == Fold(POLY, old(state), Flatten(chunks))
    {
      var index := 0;
      while index < |chunks|
        invariant 0 <= index <= |chunks|
        invariant FoldChunks(POLY, state, chunks[index..]) == FoldChunks(POLY, old(state), chunks)
      {
        assert chunks[index..][1..] == chunks[index + 1..];
        Update(chunks[index], available[index]);
        index := index + 1;
      }
      FoldFlatten(POLY, old(state), chunks);
    }
  }

  /** `crc32c`: initial and final inversion around the fold. */
  function Checksum(bytes: seq<bv8>): bv32 {
    Xor(Fold(POLY, 0xffff_ffff, bytes), 0xffff_ffff)
  }

  method Compute(bytes: seq<bv8>, available: bool) returns (r: bv32)
    ensures r == Checksum(bytes)
  {
    var tables := MakeTables();
    var crc := new Crc32c(tables);
    crc.Update(bytes, available);
    r := crc.Finish();
  }

  lemma ReversePoly()
    ensures Reverse(POLY) == GENERATOR
  {}

  /** The checksum is the forward Castagnoli recurrence on bit-reversed bytes. */
  lemma ForwardChecksum(bytes: seq<bv8>)
    ensures Checksum(bytes) == Xor(Reverse(Forward(GENERATOR, 0xffff_ffff, bytes)), 0xffff_ffff)
  {
    ReversePoly();
    ReverseOnes();
    hide Reverse;
    Mirror(POLY, 0xffff_ffff, bytes);
  }

  lemma ReverseOnes()
    ensures Reverse(0xffff_ffff) == 0xffff_ffff
  {}

  /** Equal-length inputs whose differing bits all lie inside one window of 32
      consecutive bits never share a CRC32C. */
  lemma BurstsDetected(a: seq<bv8>, b: seq<bv8>, start: nat)
    requires |a| == |b| && a != b
    requires forall i :: 0 <= i < 8 * |a| && !(start <= i < start + 32) ==> BitsOf(a)[i] == BitsOf(b)[i]
    ensures Checksum(a) != Checksum(b)
  {
    BurstInBytes(POLY, 0xffff_ffff, a, b, start);
    if Checksum(a) == Checksum(b) {
      XorCancel(Fold(POLY, 0xffff_ffff, a), Fold(POLY, 0xffff_ffff, b), 0xffff_ffff);
    }
  }

  /** The byte-aligned case: differences inside four consecutive bytes. */
  lemma WindowsDetected(prefix: seq<bv8>, a: seq<bv8>, b: seq<bv8>, suffix: seq<bv8>)
    requires |a| == |b| <= 4 && a != b
    ensures Checksum(prefix + a + suffix) != Checksum(prefix + b + suffix)
  {
    FourByteWindow(POLY, 0xffff_ffff, prefix, a, b, suffix);
    if Checksum(prefix + a + suffix) == Checksum(prefix + b + suffix) {
      XorCancel(Fold(POLY, 0xffff_ffff, prefix + a + suffix), Fold(POLY, 0xffff_ffff, prefix + b + suffix),
        0xffff_ffff);
    }
  }

  /** Every message has exactly one four-byte continuation with a given checksum. */
  lemma OneContinuation(bytes: seq<bv8>, sum: bv32) returns (w: seq<bv8>)
    ensures |w| == 4 && Checksum(bytes + w) == sum
    ensures forall v :: |v| == 4 && Checksum(bytes + v) == sum ==> v == w
  {
    var target := Xor(sum, 0xffff_ffff);
    var c := Fold(POLY, 0xffff_ffff, bytes);
    w := ExactlyOneSuffix(POLY, c, target);
    FoldConcat(POLY, 0xffff_ffff, bytes, w);
    Inverted(sum);
    forall v | |v| == 4 && Checksum(bytes + v) == sum
      ensures v == w
    {
      FoldConcat(POLY, 0xffff_ffff, bytes, v);
      XorCancel(Fold(POLY, c, v), target, 0xffff_ffff);
    }
  }

  lemma Inverted(a: bv32)
    ensures Xor(Xor(a, 0xffff_ffff), 0xffff_ffff) == a
  {}
}
