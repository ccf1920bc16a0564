/** What a 32-bit CRC detects. The register is fed bit by bit; two inputs that
    differ only inside a window of 32 consecutive bits never end in the same state,
    and any state can be steered to any other by exactly one four-byte suffix. */
module Bursts {
  import opened Words
  import opened Crc

  /** The register absorbing single bits, least significant bit of each byte first. */
  function Feed(poly: bv32, c: bv32, bits: seq<bool>): bv32
    decreases bits
  {
    if bits == [] then c else Feed(poly, Step(poly, Xor(c, Bit(bits[0]))), bits[1..])
  }

  function BitsOfByte(b: bv8): (r: seq<bool>)
    ensures |r| == 8
  {
    [b & 1 != 0, b & 2 != 0, b & 4 != 0, b & 8 != 0, b & 16 != 0, b & 32 != 0, b & 64 != 0, b & 128 != 0]
  }

  function BitsOf(bytes: seq<bv8>): (r: seq<bool>)
    ensures |r| == 8 * |bytes|
  {
    if bytes == [] then [] else BitsOfByte(bytes[0]) + BitsOf(bytes[1..])
  }

  function Diff(a: seq<bool>, b: seq<bool>): (r: seq<bool>)
    requires |a| == |b|
    ensures |r| == |a|
  {
    seq(|a|, i requires 0 <= i < |a| => a[i] != b[i])
  }

  // Bits and bytes agree

  lemma AbsorbBit(poly: bv32, c: bv32, w: bv32, n: nat)
    requires n > 0
    ensures Steps(poly, Xor(c, w), n) == Steps(poly, Xor(Step(poly, Xor(c, Bit(Odd(w)))), Half(w)), n - 1)
  {
    var even := w & 0xffff_fffe;
    SplitBit(w);
    SplitBitEven(w);
    SplitBitHalf(w);
    XorAssoc(c, Bit(Odd(w)), even);
    StepLinear(poly, Xor(c, Bit(Odd(w))), even);
  }

  lemma BitsInByte(b: bv8)
    ensures Odd(Byte0(b)) == BitsOfByte(b)[0]
    ensures Odd(Half(Byte0(b))) == BitsOfByte(b)[1]
    ensures Odd(Half(Half(Byte0(b)))) == BitsOfByte(b)[2]
    ensures Odd(Half(Half(Half(Byte0(b))))) == BitsOfByte(b)[3]
  {}

  lemma MoreBitsInByte(b: bv8)
    ensures Odd(Half(Half(Half(Half(Byte0(b)))))) == BitsOfByte(b)[4]
    ensures Odd(Half(Half(Half(Half(Half(Byte0(b))))))) == BitsOfByte(b)[5]
    ensures Odd(Half(Half(Half(Half(Half(Half(Byte0(b)))))))) == BitsOfByte(b)[6]
    ensures Odd(Half(Half(Half(Half(Half(Half(Half(Byte0(b))))))))) == BitsOfByte(b)[7]
  {}

  lemma ByteGone(b: bv8)
    ensures DropByte(Byte0(b)) == 0
  {}

  /** Absorbing the first n bits of `w` one by one, the rest of `w` waiting above. */
  lemma {:induction false} FeedWord(poly: bv32, c: bv32, w: bv32, bits: seq<bool>)
    requires bits == WordBits(w, |bits|)
    ensures Steps(poly, Xor(c, w), |bits|) == Xor(Feed(poly, c, bits), Rest(w, |bits|))
    decreases bits
  {
    if bits != [] {
      AbsorbBit(poly, c, w, |bits|);
      FeedWord(poly, Step(poly, Xor(c, Bit(Odd(w)))), Half(w), bits[1..]);
    }
  }

  function WordBits(w: bv32, n: nat): (r: seq<bool>)
    ensures |r| == n
    decreases n
  {
    if n == 0 then [] else [Odd(w)] + WordBits(Half(w), n - 1)
  }

  function Rest(w: bv32, n: nat): bv32
    decreases n
  {
    if n == 0 then w else Rest(Half(w), n - 1)
  }

  lemma ByteWordBits(b: bv8)
    ensures WordBits(Byte0(b), 8) == BitsOfByte(b)
    ensures Rest(Byte0(b), 8) == 0
  {
    hide Half, Odd;
    BitsInByte(b);
    MoreBitsInByte(b);
    ByteGone(b);
    HalfEight(Byte0(b));
    WordBitsEight(Byte0(b));
  }

  lemma OneWordBit(w: bv32, n: nat)
    requires n > 0
    ensures WordBits(w, n) == [Odd(w)] + WordBits(Half(w), n - 1)
    ensures Rest(w, n) == Rest(Half(w), n - 1)
  {}

  lemma FourWordBits(w: bv32, n: nat)
    requires n >= 4
    ensures WordBits(w, n) == [Odd(w), Odd(Half(w)), Odd(Half(Half(w))), Odd(Half(Half(Half(w))))]
      + WordBits(Half(Half(Half(Half(w)))), n - 4)
    ensures Rest(w, n) == Rest(Half(Half(Half(Half(w)))), n - 4)
  {
    hide *;
    OneWordBit(w, n);
    OneWordBit(Half(w), n - 1);
    OneWordBit(Half(Half(w)), n - 2);
    OneWordBit(Half(Half(Half(w))), n - 3);
  }

  lemma WordBitsEight(w: bv32)
    ensures WordBits(w, 8) == [Odd(w), Odd(Half(w)), Odd(Half(Half(w))), Odd(Half(Half(Half(w)))),
      Odd(Half(Half(Half(Half(w))))), Odd(Half(Half(Half(Half(Half(w)))))),
      Odd(Half(Half(Half(Half(Half(Half(w))))))), Odd(Half(Half(Half(Half(Half(Half(Half(w))))))))]
    ensures Rest(w, 8) == Half(Half(Half(Half(Half(Half(Half(Half(w))))))))
  {
    hide *;
    var w4 := Half(Half(Half(Half(w))));
    FourWordBits(w, 8);
    FourWordBits(w4, 4);
    NoWordBits(Half(Half(Half(Half(w4)))));
  }

  lemma NoWordBits(w: bv32)
    ensures WordBits(w, 0) == [] && Rest(w, 0) == w
  {}

  /** The byte step is the register fed the byte's bits. */
  lemma FeedByte(poly: bv32, c: bv32, b: bv8)
    ensures Feed(poly, c, BitsOfByte(b)) == ByteStep(poly, c, b)
  {
    ByteWordBits(b);
    FeedWord(poly, c, Byte0(b), BitsOfByte(b));
    XorZero(Feed(poly, c, BitsOfByte(b)));
  }

  lemma {:induction false} FeedConcat(poly: bv32, c: bv32, a: seq<bool>, b: seq<bool>)
    ensures Feed(poly, c, a + b) == Feed(poly, Feed(poly, c, a), b)
    decreases a
  {
    if a == [] {
      assert a + b == b;
    } else {
      assert (a + b)[1..] == a[1..] + b;
      FeedConcat(poly, Step(poly, Xor(c, Bit(a[0]))), a[1..], b);
    }
  }

  /** The checksum of bytes is the register fed their bits. */
  lemma {:induction false} FeedBytes(poly: bv32, c: bv32, bytes: seq<bv8>)
    ensures Feed(poly, c, BitsOf(bytes)) == Fold(poly, c, bytes)
    decreases bytes
  {
    if bytes != [] {
      FeedConcat(poly, c, BitsOfByte(bytes[0]), BitsOf(bytes[1..]));
      FeedByte(poly, c, bytes[0]);
      FeedBytes(poly, ByteStep(poly, c, bytes[0]), bytes[1..]);
    }
  }

  // Differences

  lemma DiffTail(a: seq<bool>, b: seq<bool>)
    requires |a| == |b| > 0
    ensures Diff(a, b)[0] == (a[0] != b[0]) && Diff(a, b)[1..] == Diff(a[1..], b[1..])
  {}

  lemma FeedCons(poly: bv32, c: bv32, bits: seq<bool>)
    requires bits != []
    ensures Feed(poly, c, bits) == Feed(poly, Step(poly, Xor(c, Bit(bits[0]))), bits[1..])
  {}

  lemma FeedNil(poly: bv32, c: bv32)
    ensures Feed(poly, c, []) == c
  {}

  /** Linearity: the difference of two runs is the run of their difference. */
  lemma {:induction false} FeedLinear(poly: bv32, c: bv32, d: bv32, a: seq<bool>, b: seq<bool>)
    requires |a| == |b|
    ensures Feed(poly, Xor(c, d), Diff(a, b)) == Xor(Feed(poly, c, a), Feed(poly, d, b))
    decreases a
  {
    hide *;
    if a == [] {
      FeedNil(poly, c);
      FeedNil(poly, d);
      FeedNil(poly, Xor(c, d));
      assert Diff(a, b) == [];
    } else {
      var c', d' := Xor(c, Bit(a[0])), Xor(d, Bit(b[0]));
      XorRegroup(c, d, Bit(a[0]), Bit(b[0]));
      BitXor(a[0], b[0]);
      StepLinear(poly, c', d');
      DiffTail(a, b);
      FeedCons(poly, c, a);
      FeedCons(poly, d, b);
      FeedCons(poly, Xor(c, d), Diff(a, b));
      FeedLinear(poly, Step(poly, c'), Step(poly, d'), a[1..], b[1..]);
    }
  }

  lemma XorRegroup(a: bv32, b: bv32, c: bv32, d: bv32)
    ensures Xor(Xor(a, b), Xor(c, d)) == Xor(Xor(a, c), Xor(b, d))
  {
    hide Xor;
    XorAssoc(a, b, Xor(c, d));
    XorAssoc(b, c, d);
    XorComm(b, c);
    XorAssoc(c, b, d);
    XorAssoc(a, c, Xor(b, d));
  }

  lemma RestEight(w: bv32, n: nat)
    requires n >= 8
    ensures Rest(w, n) == Rest(DropByte(w), n - 8)
  {
    hide *;
    FourWordBits(w, n);
    FourWordBits(Half(Half(Half(Half(w)))), n - 4);
    HalfEight(w);
  }

  lemma TopRest(a: bv32)
    requires Top(a)
    ensures Rest(a, 31) != 0
  {
    hide *;
    var b := DropByte(DropByte(DropByte(a)));
    RestEight(a, 31);
    RestEight(DropByte(a), 23);
    RestEight(DropByte(DropByte(a)), 15);
    FourWordBits(b, 7);
    var c := Half(Half(Half(Half(b))));
    OneWordBit(c, 3);
    OneWordBit(Half(c), 2);
    OneWordBit(Half(Half(c)), 1);
    NoWordBits(Half(Half(Half(c))));
    TopLast(a);
  }

  lemma {:induction false} RestOfNothing(n: nat)
    ensures Rest(0, n) == 0
  {
    if n > 0 { RestOfNothing(n - 1); }
  }

  /** What survives n halvings survives fewer. */
  lemma {:induction false} RestFewer(w: bv32, n: nat, k: nat)
    requires Rest(w, n) != 0 && k <= n
    ensures Rest(w, k) != 0
    decreases k
  {
    if k == 0 {
      if w == 0 { RestOfNothing(n); }
    } else {
      RestFewer(Half(w), n - 1, k - 1);
    }
  }

  /** A difference that survives n halvings survives the absorption of n arbitrary bits. */
  lemma SurviveStep(poly: bv32, d: bv32, b: bool, n: nat)
    requires Top(poly) && 0 < n < 32 && Rest(d, n) != 0
    ensures Rest(Step(poly, Xor(d, Bit(b))), n - 1) != 0
  {
    hide *;
    var x := Xor(d, Bit(b));
    HalfFlip(d, b);
    OneWordBit(d, n);
    StepCases(poly, x);
    if Odd(x) {
      HalfNotTop(x);
      TopXor(Half(x), poly);
      TopRest(Xor(Half(x), poly));
      RestFewer(Xor(Half(x), poly), 31, n - 1);
    }
  }

  lemma StepCases(poly: bv32, c: bv32)
    ensures Step(poly, c) == if Odd(c) then Xor(Half(c), poly) else Half(c)
  {}

  lemma {:induction false} Survive(poly: bv32, d: bv32, bits: seq<bool>)
    requires Top(poly) && |bits| < 32 && Rest(d, |bits|) != 0
    ensures Feed(poly, d, bits) != 0
    decreases bits
  {
    hide *;
    if bits == [] {
      NoWordBits(d);
      FeedNil(poly, d);
    } else {
      SurviveStep(poly, d, bits[0], |bits|);
      FeedCons(poly, d, bits);
      Survive(poly, Step(poly, Xor(d, Bit(bits[0]))), bits[1..]);
    }
  }

  lemma FirstBit(poly: bv32)
    ensures Step(poly, Xor(0, Bit(false))) == 0
    ensures Step(poly, Xor(0, Bit(true))) == poly
  {}

  /** A nonzero difference of at most 32 bits leaves a nonzero register. */
  lemma {:induction false} WindowNonzero(poly: bv32, bits: seq<bool>)
    requires Top(poly) && |bits| <= 32 && true in bits
    ensures Feed(poly, 0, bits) != 0
    decreases bits
  {
    hide Xor, Bit, Step;
    FirstBit(poly);
    if bits[0] {
      TopRest(poly);
      RestFewer(poly, 31, |bits| - 1);
      Survive(poly, poly, bits[1..]);
    } else {
      WindowNonzero(poly, bits[1..]);
    }
  }

  lemma StepInjective(poly: bv32, a: bv32, b: bv32)
    requires Top(poly) && a != b
    ensures Step(poly, a) != Step(poly, b)
  {
    StepLinear(poly, a, b);
    StepNonzero(poly, Xor(a, b));
    if Xor(a, b) == 0 { XorZeroEqual(a, b); }
    XorSelf(Step(poly, a));
  }

  lemma XorZeroEqual(a: bv32, b: bv32)
    requires Xor(a, b) == 0
    ensures a == b
  {}

  lemma StepNonzero(poly: bv32, a: bv32)
    requires Top(poly) && a != 0
    ensures Step(poly, a) != 0
  {
    if Odd(a) {
      HalfNotTop(a);
      TopXor(Half(a), poly);
    } else if Half(a) == 0 {
      HalfZero(a);
    }
  }

  lemma {:induction false} FeedInjective(poly: bv32, a: bv32, b: bv32, bits: seq<bool>)
    requires Top(poly) && a != b
    ensures Feed(poly, a, bits) != Feed(poly, b, bits)
    decreases bits
  {
    if bits != [] {
      hide Xor, Bit, Step;
      if Xor(a, Bit(bits[0])) == Xor(b, Bit(bits[0])) {
        XorCancel(a, b, Bit(bits[0]));
      }
      StepInjective(poly, Xor(a, Bit(bits[0])), Xor(b, Bit(bits[0])));
      FeedInjective(poly, Step(poly, Xor(a, Bit(bits[0]))), Step(poly, Xor(b, Bit(bits[0]))), bits[1..]);
    }
  }

  lemma XorCancel(a: bv32, b: bv32, c: bv32)
    requires Xor(a, c) == Xor(b, c)
    ensures a == b
  {}

  /** Burst detection over bits: any two inputs that share a prefix and a suffix and
      differ in a middle part of at most 32 bits end in different states. */
  lemma BurstDetected(poly: bv32, c: bv32, prefix: seq<bool>, a: seq<bool>, b: seq<bool>, suffix: seq<bool>)
    requires Top(poly) && |a| == |b| <= 32 && a != b
    ensures Feed(poly, c, prefix + a + suffix) != Feed(poly, c, prefix + b + suffix)
  {
    hide Xor, Step;
    var s := Feed(poly, c, prefix);
    FeedConcat(poly, c, prefix + a, suffix);
    FeedConcat(poly, c, prefix + b, suffix);
    FeedConcat(poly, c, prefix, a);
    FeedConcat(poly, c, prefix, b);
    FeedLinear(poly, s, s, a, b);
    XorSelf(s);
    DiffTrue(a, b);
    WindowNonzero(poly, Diff(a, b));
    if Feed(poly, s, a) == Feed(poly, s, b) { XorSelf(Feed(poly, s, a)); }
    FeedInjective(poly, Feed(poly, s, a), Feed(poly, s, b), suffix);
  }

  lemma DiffTrue(a: seq<bool>, b: seq<bool>)
    requires |a| == |b| && a != b
    ensures true in Diff(a, b)
  {
    var i :| 0 <= i < |a| && a[i] != b[i];
    assert Diff(a, b)[i];
  }

  /** The same for byte strings: equal length, different, and all differing bits
      inside one window of 32 consecutive bits, wherever it starts within a byte. */
  lemma BurstInBytes(poly: bv32, c: bv32, a: seq<bv8>, b: seq<bv8>, start: nat)
    requires Top(poly) && |a| == |b| && a != b
    requires forall i :: 0 <= i < 8 * |a| && !(start <= i < start + 32) ==> BitsOf(a)[i] == BitsOf(b)[i]
    ensures Fold(poly, c, a) != Fold(poly, c, b)
  {
    var x, y := BitsOf(a), BitsOf(b);
    var n := |x|;
    var lo := if start < n then start else n;
    var hi := if start + 32 < n then start + 32 else n;
    assert x == x[..lo] + x[lo..hi] + x[hi..];
    assert y == x[..lo] + y[lo..hi] + x[hi..];
    BitsInjective(a, b);
    BurstDetected(poly, c, x[..lo], x[lo..hi], y[lo..hi], x[hi..]);
    FeedBytes(poly, c, a);
    FeedBytes(poly, c, b);
  }

  lemma {:induction false} BitsInjective(a: seq<bv8>, b: seq<bv8>)
    requires |a| == |b| && a != b
    ensures BitsOf(a) != BitsOf(b)
    decreases a
  {
    var x, y := BitsOf(a), BitsOf(b);
    assert x[..8] == BitsOfByte(a[0]) && y[..8] == BitsOfByte(b[0]);
    assert x[8..] == BitsOf(a[1..]) && y[8..] == BitsOf(b[1..]);
    if a[0] != b[0] {
      ByteBitsInjective(a[0], b[0]);
    } else {
      assert a == [a[0]] + a[1..] && b == [b[0]] + b[1..];
      BitsInjective(a[1..], b[1..]);
    }
  }

  lemma ByteBitsInjective(a: bv8, b: bv8)
    requires a != b
    ensures BitsOfByte(a) != BitsOfByte(b)
  {}

  lemma {:induction false} BitsConcat(a: seq<bv8>, b: seq<bv8>)
    ensures BitsOf(a + b) == BitsOf(a) + BitsOf(b)
    decreases a
  {
    if a == [] {
      assert a + b == b;
    } else {
      assert (a + b)[1..] == a[1..] + b;
      BitsConcat(a[1..], b);
    }
  }

  /** Inputs of equal length that differ only inside four consecutive bytes. */
  lemma FourByteWindow(poly: bv32, c: bv32, prefix: seq<bv8>, a: seq<bv8>, b: seq<bv8>, suffix: seq<bv8>)
    requires Top(poly) && |a| == |b| <= 4 && a != b
    ensures Fold(poly, c, prefix + a + suffix) != Fold(poly, c, prefix + b + suffix)
  {
    BitsConcat(prefix + a, suffix);
    BitsConcat(prefix + b, suffix);
    BitsConcat(prefix, a);
    BitsConcat(prefix, b);
    BitsInjective(a, b);
    BurstDetected(poly, c, BitsOf(prefix), BitsOf(a), BitsOf(b), BitsOf(suffix));
    FeedBytes(poly, c, prefix + a + suffix);
    FeedBytes(poly, c, prefix + b + suffix);
  }

  // Four bytes reach every state exactly once

  function Unstep(poly: bv32, c: bv32): bv32 {
    if Top(c) then Xor(Double(Xor(c, poly)), 1) else Double(c)
  }

  lemma StepUnstep(poly: bv32, c: bv32)
    requires Top(poly)
    ensures Step(poly, Unstep(poly, c)) == c
  {
    if Top(c) {
      var d := Xor(c, poly);
      TopCancel(c, poly);
      DoubleHalf(d);
      DoubleOdd(d);
      HalfXor(Double(d), 1);
      HalfOne();
      XorZero(d);
      XorAssoc(c, poly, poly);
      XorSelf(poly);
      XorZero(c);
    } else {
      DoubleHalf(c);
      DoubleEven(c);
    }
  }

  function Unsteps(poly: bv32, c: bv32, n: nat): bv32
    decreases n
  {
    if n == 0 then c else Unstep(poly, Unsteps(poly, c, n - 1))
  }

  lemma {:induction false} StepsUnsteps(poly: bv32, c: bv32, n: nat)
    requires Top(poly)
    ensures Steps(poly, Unsteps(poly, c, n), n) == c
    decreases n
  {
    if n > 0 {
      hide Unstep, Step;
      StepUnstep(poly, Unsteps(poly, c, n - 1));
      StepsUnsteps(poly, c, n - 1);
    }
  }

  /** From any state, exactly one four-byte input leads to a given state. */
  lemma ExactlyOneSuffix(poly: bv32, c: bv32, target: bv32) returns (w: seq<bv8>)
    requires Top(poly)
    ensures |w| == 4 && Fold(poly, c, w) == target
    ensures forall v :: |v| == 4 && Fold(poly, c, v) == target ==> v == w
  {
    hide Xor, Steps;
    var u := Unsteps(poly, target, 32);
    var word := Xor(c, u);
    var b0, b1, b2, b3 := LowByte(word), LowByte(DropByte(word)), LowByte(DropByte(DropByte(word))),
      LowByte(DropByte(DropByte(DropByte(word))));
    w := [b0, b1, b2, b3];
    FromLeBytes(word);
    FourBytes(poly, c, b0, b1, b2, b3);
    XorAssoc(c, c, u);
    XorSelf(c);
    XorComm(0, u);
    XorZero(u);
    StepsUnsteps(poly, target, 32);
    forall v | |v| == 4 && Fold(poly, c, v) == target
      ensures v == w
    {
      if v != w {
        assert [] + v + [] == v && [] + w + [] == w;
        FourByteWindow(poly, c, [], v, w, []);
      }
    }
  }
}
