/** The AArch64 path: CRC instructions consume an operand's bits least significant
    first, and `Accelerated` cuts the input into operands of eight, four, two and one
    bytes. Capability detection is an input of the callers. */
module Hardware {
  import opened Crc
  import opened Bursts

  /** The bits of an operand register, least significant first. */
  function OperandBits(v: bv64, n: nat): (r: seq<bool>)
    ensures |r| == n
    decreases n
  {
    if n == 0 then [] else [v & 1 == 1] + OperandBits(v >> 1, n - 1)
  }

  /** `__crc32cb/h/w/d` and `__crc32b/h/w/d`: n is 8, 16, 32 or 64. */
  function Instruction(poly: bv32, c: bv32, v: bv64, n: nat): bv32 {
    Feed(poly, c, OperandBits(v, n))
  }

  function At(bytes: seq<bv8>, i: nat): bv64 {
    if i < |bytes| then bytes[i] as bv64 else 0
  }

  /** `from_le_bytes` for one, two, four or eight bytes, zero-extended to a register. */
  function FromLeBytes64(bytes: seq<bv8>): bv64 {
    Wide(At(bytes, 0), At(bytes, 1), At(bytes, 2), At(bytes, 3), At(bytes, 4), At(bytes, 5), At(bytes, 6), At(bytes, 7))
  }

  function Wide(b0: bv64, b1: bv64, b2: bv64, b3: bv64, b4: bv64, b5: bv64, b6: bv64, b7: bv64): bv64 {
    b0 | (b1 << 8) | (b2 << 16) | (b3 << 24) | (b4 << 32) | (b5 << 40) | (b6 << 48) | (b7 << 56)
  }

  function Low64(v: bv64): bv8 { (v & 0xff) as bv8 }

  function Drop64(v: bv64): bv64 { v >> 8 }

  lemma WideLow(b0: bv8, b1: bv64, b2: bv64, b3: bv64, b4: bv64, b5: bv64, b6: bv64, b7: bv64)
    ensures Low64(Wide(b0 as bv64, b1, b2, b3, b4, b5, b6, b7)) == b0
  {}

  lemma WideDrop(b0: bv64, b1: bv64, b2: bv64, b3: bv64, b4: bv64, b5: bv64, b6: bv64, b7: bv64)
    requires b0 < 256 && b1 < 256 && b2 < 256 && b3 < 256 && b4 < 256 && b5 < 256 && b6 < 256 && b7 < 256
    ensures Drop64(Wide(b0, b1, b2, b3, b4, b5, b6, b7)) == Wide(b1, b2, b3, b4, b5, b6, b7, 0)
  {}

  function Half64(v: bv64): bv64 { v >> 1 }

  predicate Odd64(v: bv64) { v & 1 == 1 }

  lemma LowBits(v: bv64)
    ensures Odd64(v) == BitsOfByte(Low64(v))[0] && Odd64(Half64(v)) == BitsOfByte(Low64(v))[1]
    ensures Odd64(Half64(Half64(v))) == BitsOfByte(Low64(v))[2]
    ensures Odd64(Half64(Half64(Half64(v)))) == BitsOfByte(Low64(v))[3]
  {}

  lemma NextBits(v: bv64)
    ensures Odd64(Half64(Half64(Half64(Half64(v))))) == BitsOfByte(Low64(v))[4]
    ensures Odd64(Half64(Half64(Half64(Half64(Half64(v)))))) == BitsOfByte(Low64(v))[5]
    ensures Odd64(Half64(Half64(Half64(Half64(Half64(Half64(v))))))) == BitsOfByte(Low64(v))[6]
    ensures Odd64(Half64(Half64(Half64(Half64(Half64(Half64(Half64(v)))))))) == BitsOfByte(Low64(v))[7]
  {}

  lemma EightHalves(v: bv64)
    ensures Half64(Half64(Half64(Half64(Half64(Half64(Half64(Half64(v)))))))) == Drop64(v)
  {}

  lemma OneOperandBit(v: bv64, n: nat)
    requires n > 0
    ensures OperandBits(v, n) == [Odd64(v)] + OperandBits(Half64(v), n - 1)
  {}

  lemma FourOperandBits(v: bv64, n: nat)
    requires n >= 4
    ensures OperandBits(v, n) ==
      [Odd64(v), Odd64(Half64(v)), Odd64(Half64(Half64(v))), Odd64(Half64(Half64(Half64(v))))]
      + OperandBits(Half64(Half64(Half64(Half64(v)))), n - 4)
  {
    hide *;
    OneOperandBit(v, n);
    OneOperandBit(Half64(v), n - 1);
    OneOperandBit(Half64(Half64(v)), n - 2);
    OneOperandBit(Half64(Half64(Half64(v))), n - 3);
  }

  lemma EightOperandBits(v: bv64, n: nat)
    requires n >= 8
    ensures OperandBits(v, n) ==
      [Odd64(v), Odd64(Half64(v)), Odd64(Half64(Half64(v))), Odd64(Half64(Half64(Half64(v)))),
      Odd64(Half64(Half64(Half64(Half64(v))))), Odd64(Half64(Half64(Half64(Half64(Half64(v)))))),
      Odd64(Half64(Half64(Half64(Half64(Half64(Half64(v))))))),
      Odd64(Half64(Half64(Half64(Half64(Half64(Half64(Half64(v))))))))]
      + OperandBits(Half64(Half64(Half64(Half64(Half64(Half64(Half64(Half64(v)))))))), n - 8)
  {
    hide *;
    FourOperandBits(v, n);
    FourOperandBits(Half64(Half64(Half64(Half64(v)))), n - 4);
  }

  lemma ByteBits(b: bv8)
    ensures BitsOfByte(b) == [BitsOfByte(b)[0], BitsOfByte(b)[1], BitsOfByte(b)[2], BitsOfByte(b)[3],
      BitsOfByte(b)[4], BitsOfByte(b)[5], BitsOfByte(b)[6], BitsOfByte(b)[7]]
  {}

  lemma OperandByte(v: bv64, n: nat)
    requires n >= 8
    ensures OperandBits(v, n) == BitsOfByte(Low64(v)) + OperandBits(Drop64(v), n - 8)
  {
    hide *;
    EightOperandBits(v, n);
    LowBits(v);
    NextBits(v);
    EightHalves(v);
    ByteBits(Low64(v));
  }

  lemma AtSmall(bytes: seq<bv8>, i: nat)
    ensures At(bytes, i) < 256
  {}

  lemma AtTail(bytes: seq<bv8>, i: nat)
    requires 0 < |bytes|
    ensures At(bytes[1..], i) == At(bytes, i + 1)
  {}

  lemma WordHead(bytes: seq<bv8>)
    requires 0 < |bytes| <= 8
    ensures Low64(FromLeBytes64(bytes)) == bytes[0]
    ensures Drop64(FromLeBytes64(bytes)) == FromLeBytes64(bytes[1..])
  {
    hide Wide, Low64, Drop64;
    WideLow(bytes[0], At(bytes, 1), At(bytes, 2), At(bytes, 3), At(bytes, 4), At(bytes, 5), At(bytes, 6), At(bytes, 7));
    forall i: nat | i < 8 ensures At(bytes, i) < 256 && At(bytes[1..], i) == At(bytes, i + 1) {
      AtSmall(bytes, i);
      AtTail(bytes, i);
    }
    WideDrop(At(bytes, 0), At(bytes, 1), At(bytes, 2), At(bytes, 3), At(bytes, 4), At(bytes, 5), At(bytes, 6),
      At(bytes, 7));
  }

  /** The operand read from memory carries the bits of its bytes in order. */
  lemma {:induction false} OperandOfBytes(bytes: seq<bv8>)
    requires |bytes| <= 8
    ensures OperandBits(FromLeBytes64(bytes), 8 * |bytes|) == BitsOf(bytes)
    decreases bytes
  {
    if bytes != [] {
      hide FromLeBytes64, Low64, Drop64;
      WordHead(bytes);
      OperandByte(FromLeBytes64(bytes), 8 * |bytes|);
      OperandOfBytes(bytes[1..]);
    }
  }

  /** One instruction on an operand of n bytes folds those bytes. */
  lemma InstructionFolds(poly: bv32, c: bv32, bytes: seq<bv8>)
    requires |bytes| <= 8
    ensures Instruction(poly, c, FromLeBytes64(bytes), 8 * |bytes|) == Fold(poly, c, bytes)
  {
    hide FromLeBytes64;
    OperandOfBytes(bytes);
    FeedBytes(poly, c, bytes);
  }

  /** The 8/4/2/1 decomposition of both accelerated routines. */
  method Accelerated(poly: bv32, start: bv32, bytes: seq<bv8>) returns (state: bv32)
    ensures state == Fold(poly, start, bytes)
  {
    hide Instruction, FromLeBytes64;
    state := start;
    var words := |bytes| / 8;
    for index := 0 to words
      invariant Fold(poly, state, bytes[8 * index..]) == Fold(poly, start, bytes)
    {
      FoldSlice(poly, state, bytes, 8 * index, 8 * index + 8);
      InstructionFolds(poly, state, bytes[8 * index..8 * index + 8]);
      state := Instruction(poly, state, FromLeBytes64(bytes[8 * index..8 * index + 8]), 64);
    }
    state := AcceleratedTail(poly, state, bytes[8 * words..]);
  }

  method AcceleratedTail(poly: bv32, start: bv32, bytes: seq<bv8>) returns (state: bv32)
    requires |bytes| < 8
    ensures state == Fold(poly, start, bytes)
  {
    hide Instruction, FromLeBytes64;
    state := start;
    var tail := bytes;
    if |tail| >= 4 {
      FoldSlice(poly, state, tail, 0, 4);
      InstructionFolds(poly, state, tail[..4]);
      state := Instruction(poly, state, FromLeBytes64(tail[..4]), 32);
      tail := tail[4..];
    }
    if |tail| >= 2 {
      FoldSlice(poly, state, tail, 0, 2);
      InstructionFolds(poly, state, tail[..2]);
      state := Instruction(poly, state, FromLeBytes64(tail[..2]), 16);
      tail := tail[2..];
    }
    if |tail| > 0 {
      FoldSlice(poly, state, tail, 0, 1);
      InstructionFolds(poly, state, tail[..1]);
      state := Instruction(poly, state, FromLeBytes64(tail[..1]), 8);
    }
  }
}
