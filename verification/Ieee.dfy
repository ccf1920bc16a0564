/** The IEEE CRC-32 engine (RFC 1952 section 8): the reflected form of the forward
    recurrence with polynomial 0x04c11db7. */
module Ieee {
  import opened Indices
  import opened Words
  import opened Crc
  import opened Hardware
  import opened Mirrors

  const POLY: bv32 := 0xedb8_8320

  const GENERATOR: bv32 := 0x04c1_1db7

  lemma ReversePoly()
    ensures Reverse(POLY) == GENERATOR
  {}

  // The engine

  /** The branch-free clock selects the polynomial with a wrapped negation. */
  lemma MaskedStep(c: bv32)
    ensures Xor(Half(c), 0xedb8_8320 & (0 - (c & 1))) == Step(POLY, c)
  {}

  method MakeTables() returns (t: array2<bv32>)
    ensures fresh(t) && Tables(POLY, t)
  {
    t := new bv32[8, 256]((i, j) => 0);
    FillFirst(t);
    var position := 1;
    while position < 8
      invariant 1 <= position <= 8
      invariant forall k :: 0 <= k < position ==> TableRow(POLY, t, k, 256)
    {
      FillNext(POLY, t, position);
      position := position + 1;
    }
  }

  method FillFirst(t: array2<bv32>)
    requires t.Length0 == 8 && t.Length1 == 256
    modifies t
    ensures TableRow(POLY, t, 0, 256)
  {
    hide Entry;
    var byte := 0;
    while byte < 256
      invariant 0 <= byte <= 256
      invariant TableRow(POLY, t, 0, byte)
    {
      var crc := ClockIndex(byte);
      t[0, byte] := crc;
      byte := byte + 1;
    }
  }

  method ClockIndex(byte: nat) returns (crc: bv32)
    requires byte < 256
    ensures crc == Entry(POLY, 0, byte as bv8)
  {
    crc := byte as bv32;
    ByteOfIndex(byte);
    var bit := 0;
    while bit < 8
      invariant 0 <= bit <= 8
      invariant Steps(POLY, crc, 8 - bit) == Entry(POLY, 0, byte as bv8)
    {
      crc := MaskedClock(crc);
      bit := bit + 1;
    }
  }

  method MaskedClock(c: bv32) returns (r: bv32)
    ensures r == Step(POLY, c)
  {
    MaskedStep(c);
    r := Xor(Half(c), 0xedb8_8320 & (0 - (c & 1)));
  }

  function Inverted(c: bv32): bv32 { !c }

  class Crc32 {
    var state: bv32
    const tables: array2<bv32>
    ghost var appended: seq<bv8>

    ghost predicate Valid()
      reads this, tables
    {
      Tables(POLY, tables)
    }

    /** The state is that of all bytes appended so far. */
    ghost predicate Current()
      reads this
    {
      state == Fold(POLY, 0xffff_ffff, appended)
    }

    constructor (tables: array2<bv32>)
      requires Tables(POLY, tables)
      ensures Valid() && Current() && appended == [] && this.tables == tables
    {
      this.tables := tables;
      state := 0xffff_ffff;
      appended := [];
    }

    /** The state after any update is the mirrored forward recurrence over the bytes. */
    method Update(bytes: seq<bv8>, available: bool)
      requires Valid() && Current()
      modifies this`state, this`appended
      ensures Current() && appended == old(appended) + bytes
      ensures state == Reverse(Forward(GENERATOR, Reverse(old(state)), bytes))
    {
      hide Reverse, Forward;
      Mirror(POLY, state, bytes);
      ReversePoly();
      FoldConcat(POLY, 0xffff_ffff, appended, bytes);
      appended := appended + bytes;
      if |bytes| == 0 {
        return;
      }
      if available {
        state := Accelerated(POLY, state, bytes);
        return;
      }
      UpdatePortable(bytes);
    }

    method UpdatePortable(bytes: seq<bv8>)
      requires Valid()
      modifies this`state
      ensures state == Fold(POLY, old(state), bytes)
    {
      var groups := |bytes| / 8;
      for group := 0 to groups
        invariant Fold(POLY, state, bytes[8 * group..]) == Fold(POLY, old(state), bytes)
      {
        FoldSlice(POLY, state, bytes, 8 * group, 8 * group + 8);
        state := GroupStep(POLY, tables, state, bytes[8 * group..8 * group + 8]);
      }
      for index := 8 * groups to |bytes|
        invariant Fold(POLY, state, bytes[index..]) == Fold(POLY, old(state), bytes)
      {
        FoldByte(POLY, state, bytes, index);
        state := TailStep(POLY, tables, state, bytes[index]);
      }
    }

    /** The CRC-32 of all bytes appended since the engine was made. */
    method Finish() returns (r: bv32)
      requires Current()
      ensures r == Checksum(appended) == Inverted(Reverse(Forward(GENERATOR, 0xffff_ffff, appended)))
    {
      hide Reverse, Forward, Fold, Inverted;
      ForwardChecksum(appended);
      r := Inverted(state);
    }
  }

  function Checksum(bytes: seq<bv8>): bv32 {
    Inverted(Fold(POLY, 0xffff_ffff, bytes))
  }

  lemma ReverseOnes()
    ensures Reverse(0xffff_ffff) == 0xffff_ffff
  {}

  /** The checksum is the forward recurrence on bit-reversed bytes, mirrored and inverted. */
  lemma ForwardChecksum(bytes: seq<bv8>)
    ensures Checksum(bytes) == Inverted(Reverse(Forward(GENERATOR, 0xffff_ffff, bytes)))
  {
    ReversePoly();
    ReverseOnes();
    hide Reverse, Forward;
    Mirror(POLY, 0xffff_ffff, bytes);
  }

  /** Chunks appended by any mixture of the two paths give the checksum of their concatenation. */
  method Compute(chunks: seq<seq<bv8>>, available: seq<bool>) returns (r: bv32)
    requires |available| == |chunks|
    ensures r == Checksum(Flatten(chunks))
  {
    hide Fold, Reverse, Forward, TableRow;
    var tables := MakeTables();
    var crc := new Crc32(tables);
    assert chunks[0..] == chunks;
    var index := 0;
    while index < |chunks|
      invariant 0 <= index <= |chunks|
      invariant crc.Valid() && crc.Current()
      invariant crc.appended + Flatten(chunks[index..]) == Flatten(chunks)
    {
      ghost var rest := Flatten(chunks[index + 1..]);
      assert chunks[index..][1..] == chunks[index + 1..];
      assert crc.appended + (chunks[index] + rest) == (crc.appended + chunks[index]) + rest;
      crc.Update(chunks[index], available[index]);
      index := index + 1;
    }
    assert chunks[index..] == [] && crc.appended + [] == crc.appended;
    r := crc.Finish();
  }
}
