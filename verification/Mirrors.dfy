/** The forward register of the published polynomials: shift left over bit-reversed
    bytes and state. The reflected engines are its mirror image. */
module Mirrors {
  import opened Words
  import opened Crc

  function Reverse(a: bv32): bv32 {
    var b := ((a >> 1) & 0x5555_5555) | ((a & 0x5555_5555) << 1);
    var c := ((b >> 2) & 0x3333_3333) | ((b & 0x3333_3333) << 2);
    var d := ((c >> 4) & 0x0f0f_0f0f) | ((c & 0x0f0f_0f0f) << 4);
    var e := ((d >> 8) & 0x00ff_00ff) | ((d & 0x00ff_00ff) << 8);
    (e >> 16) | (e << 16)
  }

  function ReverseByte(a: bv8): bv8 {
    var b := ((a >> 1) & 0x55) | ((a & 0x55) << 1);
    var c := ((b >> 2) & 0x33) | ((b & 0x33) << 2);
    (c >> 4) | (c << 4)
  }

  /** One clock of the forward register with generator polynomial `gen`. */
  function ForwardStep(gen: bv32, c: bv32): bv32 {
    if Top(c) then Xor(Double(c), gen) else Double(c)
  }

  function ForwardSteps(gen: bv32, c: bv32, n: nat): bv32
    decreases n
  {
    if n == 0 then c else ForwardSteps(gen, ForwardStep(gen, c), n - 1)
  }

  function ForwardByte(gen: bv32, c: bv32, b: bv8): bv32 {
    ForwardSteps(gen, Xor(c, Byte3(ReverseByte(b))), 8)
  }

  function Forward(gen: bv32, c: bv32, bytes: seq<bv8>): bv32
    decreases bytes
  {
    if bytes == [] then c else Forward(gen, ForwardByte(gen, c, bytes[0]), bytes[1..])
  }

  lemma ReverseTwice(a: bv32)
    ensures Reverse(Reverse(a)) == a
  {}

  lemma ReverseXor(a: bv32, b: bv32)
    ensures Reverse(Xor(a, b)) == Xor(Reverse(a), Reverse(b))
  {}

  lemma ReverseLowByte(b: bv8)
    ensures Reverse(Byte0(b)) == Byte3(ReverseByte(b))
  {}

  // The next two facts pin reversal down bit by bit: the low bit becomes the top bit,
  // and dropping the low bit drops the top bit.

  lemma ReverseOdd(a: bv32)
    ensures Odd(a) == Top(Reverse(a))
  {}

  lemma ReverseShift(a: bv32)
    ensures Reverse(a >> 1) == Reverse(a) << 1
  {}

  lemma ReverseHalf(a: bv32)
    ensures Reverse(Half(a)) == Double(Reverse(a))
  {
    hide Reverse;
    ReverseShift(a);
  }

  lemma ReverseStep(poly: bv32, c: bv32)
    ensures Reverse(Step(poly, c)) == ForwardStep(Reverse(poly), Reverse(c))
  {
    hide Reverse, Xor, Half, Odd, Top, Double;
    ReverseOdd(c);
    ReverseHalf(c);
    ReverseXor(Half(c), poly);
  }

  lemma {:induction false} ReverseSteps(poly: bv32, c: bv32, n: nat)
    ensures Reverse(Steps(poly, c, n)) == ForwardSteps(Reverse(poly), Reverse(c), n)
    decreases n
  {
    hide Reverse, Step, ForwardStep;
    if n > 0 {
      ReverseStep(poly, c);
      ReverseSteps(poly, Step(poly, c), n - 1);
    }
  }

  lemma ReverseByteStep(poly: bv32, c: bv32, b: bv8)
    ensures Reverse(ByteStep(poly, c, b)) == ForwardByte(Reverse(poly), Reverse(c), b)
  {
    hide Reverse, Steps, ForwardSteps, Xor, Byte0, Byte3, ReverseByte;
    ReverseSteps(poly, Xor(c, Byte0(b)), 8);
    ReverseXor(c, Byte0(b));
    ReverseLowByte(b);
  }

  /** The reflected fold is the forward recurrence seen in a mirror. */
  lemma {:induction false} Mirror(poly: bv32, c: bv32, bytes: seq<bv8>)
    ensures Fold(poly, c, bytes) == Reverse(Forward(Reverse(poly), Reverse(c), bytes))
    decreases bytes
  {
    hide Reverse, ByteStep, ForwardByte;
    if bytes == [] {
      ReverseTwice(c);
    } else {
      ReverseByteStep(poly, c, bytes[0]);
      Mirror(poly, ByteStep(poly, c, bytes[0]), bytes[1..]);
    }
  }
}
