/** Byte values as table indices. */
module Indices {

  lemma ByteOfIndex(i: int)
    requires 0 <= i < 256
    ensures (i as bv8) as bv32 == i as bv32
  {}

  lemma IndexOfByte(b: bv8)
    ensures (b as int) as bv8 == b
  {}
}

/** Names for the word operations of the checksum engines. Every law is one fact
    about one operator, so that proofs above this module never reason about bits. */
module Words {

  function Xor(a: bv32, b: bv32): bv32 { a ^ b }

  function Half(a: bv32): bv32 { a >> 1 }

  predicate Odd(a: bv32) { a & 1 == 1 }

  function LowByte(a: bv32): bv8 { (a & 0xff) as bv8 }

  function DropByte(a: bv32): bv32 { a >> 8 }

  /** A byte placed in an otherwise clear word, at byte position 0, 1, 2 or 3. */
  function Byte0(b: bv8): bv32 { b as bv32 }

  function Byte1(b: bv8): bv32 { (b as bv32) << 8 }

  function Byte2(b: bv8): bv32 { (b as bv32) << 16 }

  function Byte3(b: bv8): bv32 { (b as bv32) << 24 }

  lemma XorAssoc(a: bv32, b: bv32, c: bv32)
    ensures Xor(Xor(a, b), c) == Xor(a, Xor(b, c))
  {}

  lemma XorComm(a: bv32, b: bv32)
    ensures Xor(a, b) == Xor(b, a)
  {}

  lemma XorSelf(a: bv32)
    ensures Xor(a, a) == 0
  {}

  lemma XorZero(a: bv32)
    ensures Xor(a, 0) == a
  {}

  lemma HalfXor(a: bv32, b: bv32)
    ensures Half(Xor(a, b)) == Xor(Half(a), Half(b))
  {}

  lemma OddXor(a: bv32, b: bv32)
    ensures Odd(Xor(a, b)) == (Odd(a) != Odd(b))
  {}

  /** Splitting a word into its low byte and the rest. */
  lemma SplitLow(a: bv32)
    ensures a == Xor(a & 0xffff_ff00, Byte0(LowByte(a)))
  {}

  lemma SplitLowRest(a: bv32)
    ensures DropByte(a & 0xffff_ff00) == DropByte(a)
  {}

  lemma SplitLowClear(a: bv32)
    ensures LowByte(a & 0xffff_ff00) == 0
  {}

  lemma HalfEight(a: bv32)
    ensures Half(Half(Half(Half(Half(Half(Half(Half(a)))))))) == DropByte(a)
  {}

  /** With a clear low byte, the first eight halvings only ever see even words. */
  lemma Even0(a: bv32)
    requires LowByte(a) == 0
    ensures !Odd(a)
  {}

  lemma Even1(a: bv32)
    requires LowByte(a) == 0
    ensures !Odd(Half(a))
  {}

  lemma Even2(a: bv32)
    requires LowByte(a) == 0
    ensures !Odd(Half(Half(a)))
  {}

  lemma Even3(a: bv32)
    requires LowByte(a) == 0
    ensures !Odd(Half(Half(Half(a))))
  {}

  lemma Even4(a: bv32)
    requires LowByte(a) == 0
    ensures !Odd(Half(Half(Half(Half(a)))))
  {}

  lemma Even5(a: bv32)
    requires LowByte(a) == 0
    ensures !Odd(Half(Half(Half(Half(Half(a))))))
  {}

  lemma Even6(a: bv32)
    requires LowByte(a) == 0
    ensures !Odd(Half(Half(Half(Half(Half(Half(a)))))))
  {}

  lemma Even7(a: bv32)
    requires LowByte(a) == 0
    ensures !Odd(Half(Half(Half(Half(Half(Half(Half(a))))))))
  {}

  /** `u32::from_le_bytes` on four bytes. */
  function FromLe(b0: bv8, b1: bv8, b2: bv8, b3: bv8): bv32 {
    (b0 as bv32) ^ ((b1 as bv32) << 8) ^ ((b2 as bv32) << 16) ^ ((b3 as bv32) << 24)
  }

  lemma FromLeXor(b0: bv8, b1: bv8, b2: bv8, b3: bv8)
    ensures FromLe(b0, b1, b2, b3) == Xor(Xor(Xor(Byte0(b0), Byte1(b1)), Byte2(b2)), Byte3(b3))
  {}

  /** `u32::to_le_bytes` is `LowByte` after zero to three `DropByte`s. */
  lemma FromLeBytes(a: bv32)
    ensures a == FromLe(LowByte(a), LowByte(DropByte(a)), LowByte(DropByte(DropByte(a))),
      LowByte(DropByte(DropByte(DropByte(a)))))
  {}

  lemma ByteMoves(b: bv8)
    ensures LowByte(Byte1(b)) == 0 && LowByte(Byte2(b)) == 0 && LowByte(Byte3(b)) == 0
    ensures DropByte(Byte1(b)) == Byte0(b) && DropByte(Byte2(b)) == Byte1(b) && DropByte(Byte3(b)) == Byte2(b)
  {}

  lemma LowXorByte(a: bv32, b: bv8)
    ensures LowByte(Xor(a, Byte0(b))) == LowByte(a) ^ b
  {}

  lemma DropXorByte(a: bv32, b: bv8)
    ensures DropByte(Xor(a, Byte0(b))) == DropByte(a)
  {}

  // Single bits and magnitude

  function Bit(b: bool): bv32 { if b then 1 else 0 }

  function Double(a: bv32): bv32 { a << 1 }

  predicate Top(a: bv32) { a >= 0x8000_0000 }

  lemma BitXor(a: bool, b: bool)
    ensures Xor(Bit(a), Bit(b)) == Bit(a != b)
  {}

  /** A word is its low bit plus an even rest that halves like the word. */
  lemma SplitBit(a: bv32)
    ensures a == Xor(Bit(Odd(a)), a & 0xffff_fffe)
  {}

  lemma SplitBitEven(a: bv32)
    ensures !Odd(a & 0xffff_fffe)
  {}

  lemma SplitBitHalf(a: bv32)
    ensures Half(a & 0xffff_fffe) == Half(a)
  {}

  lemma HalfNotTop(a: bv32)
    ensures !Top(Half(a))
  {}

  lemma TopXor(a: bv32, b: bv32)
    requires !Top(a) && Top(b)
    ensures Top(Xor(a, b))
  {}

  lemma DoubleHalf(a: bv32)
    requires !Top(a)
    ensures Half(Double(a)) == a
  {}

  lemma DoubleEven(a: bv32)
    ensures !Odd(Double(a))
  {}

  lemma HalfOne()
    ensures Half(1) == 0
  {}

  lemma DoubleOdd(a: bv32)
    ensures Odd(Xor(Double(a), 1))
  {}

  lemma TopCancel(a: bv32, b: bv32)
    requires Top(a) && Top(b)
    ensures !Top(Xor(a, b))
  {}

  lemma HalfZero(a: bv32)
    requires Half(a) == 0 && !Odd(a)
    ensures a == 0
  {}

  lemma HalfFlip(a: bv32, b: bool)
    ensures Half(Xor(a, Bit(b))) == Half(a)
  {}

  /** The top bit is the last to leave: 31 halvings of a word that has it are not zero. */
  lemma TopLast(a: bv32)
    requires Top(a)
    ensures Half(Half(Half(Half(Half(Half(Half(DropByte(DropByte(DropByte(a)))))))))) != 0
  {}
}
