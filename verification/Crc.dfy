/** The mathematics shared by both checksum engines: one reflected shift register
    stepped bit by bit, its linearity over XOR, and the table decomposition that
    slice-by-8 relies on. `poly` is the reflected polynomial. */
module Crc {
  import opened Indices
  import opened Words

  /** One clock of the reflected register. */
  function Step(poly: bv32, c: bv32): bv32 {
    if Odd(c) then Xor(Half(c), poly) else Half(c)
  }

  function Steps(poly: bv32, c: bv32, n: nat): bv32
    decreases n
  {
    if n == 0 then c else Steps(poly, Step(poly, c), n - 1)
  }

  /** The bit-at-a-time reference: absorb a byte into the low bits, clock eight times. */
  function ByteStep(poly: bv32, c: bv32, b: bv8): bv32 {
    Steps(poly, Xor(c, Byte0(b)), 8)
  }

  function Fold(poly: bv32, c: bv32, bytes: seq<bv8>): bv32
    decreases bytes
  {
    if bytes == [] then c else Fold(poly, ByteStep(poly, c, bytes[0]), bytes[1..])
  }

  function Flatten(chunks: seq<seq<bv8>>): seq<bv8> {
    if chunks == [] then [] else chunks[0] + Flatten(chunks[1..])
  }

  // Linearity and composition

  lemma StepLinear(poly: bv32, a: bv32, b: bv32)
    ensures Step(poly, Xor(a, b)) == Xor(Step(poly, a), Step(poly, b))
  {
    var x, y := Half(a), Half(b);
    OddXor(a, b);
    HalfXor(a, b);
    if Odd(a) {
      if Odd(b) {
        XorComm(y, poly);
        XorAssoc(x, poly, Xor(poly, y));
        XorAssoc(poly, poly, y);
        XorSelf(poly);
        XorComm(0, y);
        XorZero(y);
      } else {
        XorAssoc(x, poly, y);
        XorComm(poly, y);
        XorAssoc(x, y, poly);
      }
    } else if Odd(b) {
      XorAssoc(x, y, poly);
    }
  }

  lemma {:induction false} StepsLinear(poly: bv32, a: bv32, b: bv32, n: nat)
    ensures Steps(poly, Xor(a, b), n) == Xor(Steps(poly, a, n), Steps(poly, b, n))
    decreases n
  {
    if n > 0 {
      StepLinear(poly, a, b);
      StepsLinear(poly, Step(poly, a), Step(poly, b), n - 1);
    }
  }

  lemma {:induction false} StepsAdd(poly: bv32, c: bv32, m: nat, n: nat)
    ensures Steps(poly, c, m + n) == Steps(poly, Steps(poly, c, m), n)
    decreases m
  {
    if m > 0 { StepsAdd(poly, Step(poly, c), m - 1, n); }
  }

  lemma {:induction false} FoldConcat(poly: bv32, c: bv32, a: seq<bv8>, b: seq<bv8>)
    ensures Fold(poly, c, a + b) == Fold(poly, Fold(poly, c, a), b)
    decreases a
  {
    if a == [] {
      assert a + b == b;
    } else {
      assert (a + b)[1..] == a[1..] + b;
      FoldConcat(poly, ByteStep(poly, c, a[0]), a[1..], b);
    }
  }

  lemma EvenSteps(poly: bv32, c: bv32, n: nat)
    requires n > 0 && !Odd(c)
    ensures Steps(poly, c, n) == Steps(poly, Half(c), n - 1)
  {}

  /** Clocking eight times with a clear low byte is a plain shift. */
  lemma ShiftByte(poly: bv32, c: bv32)
    requires LowByte(c) == 0
    ensures Steps(poly, c, 8) == DropByte(c)
  {
    Even0(c); Even1(c); Even2(c); Even3(c); Even4(c); Even5(c); Even6(c); Even7(c);
    HalfEight(c);
    var c2 := Half(Half(c));
    var c4 := Half(Half(c2));
    var c6 := Half(Half(c4));
    EvenSteps(poly, c, 8);
    EvenSteps(poly, Half(c), 7);
    EvenSteps(poly, c2, 6);
    EvenSteps(poly, Half(c2), 5);
    EvenSteps(poly, c4, 4);
    EvenSteps(poly, Half(c4), 3);
    EvenSteps(poly, c6, 2);
    EvenSteps(poly, Half(c6), 1);
  }

  /** The table recurrence of both engines: advance a state through one zero byte. */
  lemma AdvanceByte(poly: bv32, c: bv32)
    ensures Steps(poly, c, 8) == Xor(DropByte(c), Steps(poly, Byte0(LowByte(c)), 8))
  {
    var high := c & 0xffff_ff00;
    SplitLow(c);
    SplitLowRest(c);
    SplitLowClear(c);
    StepsLinear(poly, high, Byte0(LowByte(c)), 8);
    ShiftByte(poly, high);
  }

  // Slice-by-8

  /** What entry `b` of table `k` must hold: the byte clocked through k + 1 bytes. */
  function Entry(poly: bv32, k: nat, b: bv8): bv32 {
    Steps(poly, Byte0(b), 8 * (k + 1))
  }

  /** The one-byte table step used for the tail of every input. */
  lemma TableByte(poly: bv32, c: bv32, b: bv8)
    ensures ByteStep(poly, c, b) == Xor(Entry(poly, 0, LowByte(c) ^ b), DropByte(c))
  {
    var x := Xor(c, Byte0(b));
    AdvanceByte(poly, x);
    LowXorByte(c, b);
    DropXorByte(c, b);
    XorComm(DropByte(x), Steps(poly, Byte0(LowByte(x)), 8));
  }

  lemma MoveBytes(poly: bv32, b: bv8)
    ensures Steps(poly, Byte1(b), 8) == Byte0(b)
    ensures Steps(poly, Byte2(b), 16) == Byte0(b)
    ensures Steps(poly, Byte3(b), 24) == Byte0(b)
  {
    ByteMoves(b);
    ShiftByte(poly, Byte1(b));
    ShiftByte(poly, Byte2(b));
    ShiftByte(poly, Byte3(b));
    StepsAdd(poly, Byte2(b), 8, 8);
    StepsAdd(poly, Byte3(b), 8, 16);
  }

  /** A byte entering at position i has i bytes less to travel. */
  lemma Arrive(poly: bv32, b: bv8, k: nat)
    requires k >= 3
    ensures Steps(poly, Byte0(b), 8 * (k + 1)) == Entry(poly, k, b)
    ensures Steps(poly, Byte1(b), 8 * (k + 1)) == Entry(poly, k - 1, b)
    ensures Steps(poly, Byte2(b), 8 * (k + 1)) == Entry(poly, k - 2, b)
    ensures Steps(poly, Byte3(b), 8 * (k + 1)) == Entry(poly, k - 3, b)
  {
    MoveBytes(poly, b);
    StepsAdd(poly, Byte1(b), 8, 8 * k);
    StepsAdd(poly, Byte2(b), 16, 8 * (k - 1));
    StepsAdd(poly, Byte3(b), 24, 8 * (k - 2));
  }

  /** Clocking a word through k + 1 bytes is the XOR of four table entries. */
  lemma Slice(poly: bv32, b0: bv8, b1: bv8, b2: bv8, b3: bv8, k: nat)
    requires k >= 3
    ensures Steps(poly, FromLe(b0, b1, b2, b3), 8 * (k + 1)) ==
            Xor(Xor(Xor(Entry(poly, k, b0), Entry(poly, k - 1, b1)), Entry(poly, k - 2, b2)), Entry(poly, k - 3, b3))
  {
    var n := 8 * (k + 1);
    var w2 := Xor(Byte0(b0), Byte1(b1));
    var w3 := Xor(w2, Byte2(b2));
    FromLeXor(b0, b1, b2, b3);
    StepsLinear(poly, w3, Byte3(b3), n);
    StepsLinear(poly, w2, Byte2(b2), n);
    StepsLinear(poly, Byte0(b0), Byte1(b1), n);
    Arrive(poly, b0, k);
    Arrive(poly, b1, k);
    Arrive(poly, b2, k);
    Arrive(poly, b3, k);
  }

  /** Absorbing one more byte: it may be XORed in early, at the position it would reach. */
  lemma Absorb(poly: bv32, c: bv32, v: bv32, n: nat, w: bv32, b: bv8)
    requires v == Steps(poly, c, n) && Steps(poly, w, n) == Byte0(b)
    ensures ByteStep(poly, v, b) == Steps(poly, Xor(c, w), n + 8)
  {
    StepsLinear(poly, c, w, n);
    StepsAdd(poly, Xor(c, w), n, 8);
  }

  /** Four bytes at once: XOR the little-endian word in, then clock 32 times. */
  lemma FourBytes(poly: bv32, c: bv32, b0: bv8, b1: bv8, b2: bv8, b3: bv8)
    ensures Fold(poly, c, [b0, b1, b2, b3]) == Steps(poly, Xor(c, FromLe(b0, b1, b2, b3)), 32)
  {
    var c0 := Xor(c, Byte0(b0));
    var c1 := Xor(c0, Byte1(b1));
    var c2 := Xor(c1, Byte2(b2));
    MoveBytes(poly, b1);
    MoveBytes(poly, b2);
    MoveBytes(poly, b3);
    var v1 := ByteStep(poly, c, b0);
    var v2 := ByteStep(poly, v1, b1);
    var v3 := ByteStep(poly, v2, b2);
    Absorb(poly, c0, v1, 8, Byte1(b1), b1);
    Absorb(poly, c1, v2, 16, Byte2(b2), b2);
    Absorb(poly, c2, v3, 24, Byte3(b3), b3);
    FoldFour(poly, c, b0, b1, b2, b3);
    FromLeXor(b0, b1, b2, b3);
    XorAssoc(c, Byte0(b0), Byte1(b1));
    XorAssoc(c, Xor(Byte0(b0), Byte1(b1)), Byte2(b2));
    XorAssoc(c, Xor(Xor(Byte0(b0), Byte1(b1)), Byte2(b2)), Byte3(b3));
  }

  lemma FoldSnoc(poly: bv32, c: bv32, bytes: seq<bv8>, b: bv8)
    ensures Fold(poly, c, bytes + [b]) == ByteStep(poly, Fold(poly, c, bytes), b)
  {
    FoldConcat(poly, c, bytes, [b]);
    assert [b][1..] == [];
  }

  lemma FoldFour(poly: bv32, c: bv32, b0: bv8, b1: bv8, b2: bv8, b3: bv8)
    ensures Fold(poly, c, [b0, b1, b2, b3]) ==
            ByteStep(poly, ByteStep(poly, ByteStep(poly, ByteStep(poly, c, b0), b1), b2), b3)
  {
    assert [] + [b0] == [b0] && [b0] + [b1] == [b0, b1];
    assert [b0, b1] + [b2] == [b0, b1, b2] && [b0, b1, b2] + [b3] == [b0, b1, b2, b3];
    FoldSnoc(poly, c, [], b0);
    FoldSnoc(poly, c, [b0], b1);
    FoldSnoc(poly, c, [b0, b1], b2);
    FoldSnoc(poly, c, [b0, b1, b2], b3);
  }

  /** The eight-table formula both engines use for a group of eight bytes. */
  function Group(poly: bv32, f0: bv8, f1: bv8, f2: bv8, f3: bv8, b4: bv8, b5: bv8, b6: bv8, b7: bv8): bv32 {
    Xor(Xor(Xor(Xor(Xor(Xor(Xor(
      Entry(poly, 7, f0), Entry(poly, 6, f1)), Entry(poly, 5, f2)), Entry(poly, 4, f3)),
      Entry(poly, 3, b4)), Entry(poly, 2, b5)), Entry(poly, 1, b6)), Entry(poly, 0, b7))
  }

  lemma GroupOfWords(poly: bv32, f0: bv8, f1: bv8, f2: bv8, f3: bv8, b4: bv8, b5: bv8, b6: bv8, b7: bv8)
    ensures Group(poly, f0, f1, f2, f3, b4, b5, b6, b7) ==
            Xor(Steps(poly, FromLe(f0, f1, f2, f3), 64), Steps(poly, FromLe(b4, b5, b6, b7), 32))
  {
    Slice(poly, f0, f1, f2, f3, 7);
    Slice(poly, b4, b5, b6, b7, 3);
    var t := Steps(poly, FromLe(f0, f1, f2, f3), 64);
    var e3, e2, e1, e0 := Entry(poly, 3, b4), Entry(poly, 2, b5), Entry(poly, 1, b6), Entry(poly, 0, b7);
    XorAssoc(t, Xor(Xor(e3, e2), e1), e0);
    XorAssoc(t, Xor(e3, e2), e1);
    XorAssoc(t, e3, e2);
  }

  lemma SplitEight(g: seq<bv8>)
    requires |g| == 8
    ensures g == [g[0], g[1], g[2], g[3]] + [g[4], g[5], g[6], g[7]]
  {}

  /** Eight bytes absorbed at once: the state meets only the first word. */
  lemma EightBytes(poly: bv32, c: bv32, g: seq<bv8>)
    requires |g| == 8
    ensures Fold(poly, c, g) ==
            Xor(Steps(poly, Xor(FromLe(g[0], g[1], g[2], g[3]), c), 64),
              Steps(poly, FromLe(g[4], g[5], g[6], g[7]), 32))
  {
    hide Steps, Xor, FromLe;
    var w, v := FromLe(g[0], g[1], g[2], g[3]), FromLe(g[4], g[5], g[6], g[7]);
    var half := Steps(poly, Xor(w, c), 32);
    SplitEight(g);
    FoldConcat(poly, c, [g[0], g[1], g[2], g[3]], [g[4], g[5], g[6], g[7]]);
    FourBytes(poly, c, g[0], g[1], g[2], g[3]);
    XorComm(c, w);
    FourBytes(poly, half, g[4], g[5], g[6], g[7]);
    StepsLinear(poly, half, v, 32);
    StepsAdd(poly, Xor(w, c), 32, 32);
  }

  /** One slice-by-8 round is the bit-at-a-time fold of its eight bytes. */
  lemma SliceByEight(poly: bv32, c: bv32, g: seq<bv8>)
    requires |g| == 8
    ensures var first := Xor(FromLe(g[0], g[1], g[2], g[3]), c);
            Fold(poly, c, g) == Group(poly, LowByte(first), LowByte(DropByte(first)),
              LowByte(DropByte(DropByte(first))), LowByte(DropByte(DropByte(DropByte(first)))), g[4], g[5], g[6], g[7])
  {
    var first := Xor(FromLe(g[0], g[1], g[2], g[3]), c);
    EightBytes(poly, c, g);
    FromLeBytes(first);
    GroupOfWords(poly, LowByte(first), LowByte(DropByte(first)), LowByte(DropByte(DropByte(first))),
      LowByte(DropByte(DropByte(DropByte(first)))), g[4], g[5], g[6], g[7]);
  }

  // Tables

  /** The contents both table builders must produce. */
  ghost predicate TableRow(poly: bv32, t: array2<bv32>, k: nat, n: nat)
    requires t.Length0 == 8 && t.Length1 == 256 && k < 8 && n <= 256
    reads t
  {
    forall i :: 0 <= i < n ==> t[k, i] == Entry(poly, k, i as bv8)
  }

  ghost predicate Tables(poly: bv32, t: array2<bv32>)
    reads t
  {
    t.Length0 == 8 && t.Length1 == 256 && forall k :: 0 <= k < 8 ==> TableRow(poly, t, k, 256)
  }

  lemma Lookup(poly: bv32, t: array2<bv32>, k: nat, b: bv8)
    requires Tables(poly, t) && k < 8
    ensures t[k, b as int] == Entry(poly, k, b)
  {
    IndexOfByte(b);
    assert TableRow(poly, t, k, 256);
  }

  /** Each table advances the one before it through one more zero byte. */
  lemma NextEntry(poly: bv32, k: nat, b: bv8)
    ensures var previous := Entry(poly, k, b);
            Entry(poly, k + 1, b) == Xor(DropByte(previous), Entry(poly, 0, LowByte(previous)))
  {
    StepsAdd(poly, Byte0(b), 8 * (k + 1), 8);
    AdvanceByte(poly, Entry(poly, k, b));
  }

  /** Entry `index` of table `k`, read off tables `k - 1` and 0. */
  method AdvanceEntry(poly: bv32, t: array2<bv32>, k: nat, index: nat) returns (r: bv32)
    requires t.Length0 == 8 && t.Length1 == 256 && 0 < k < 8 && index < 256
    requires TableRow(poly, t, k - 1, 256) && TableRow(poly, t, 0, 256)
    ensures r == Entry(poly, k, index as bv8)
  {
    hide Entry, Xor, DropByte, LowByte;
    var previous := t[k - 1, index];
    IndexOfByte(LowByte(previous));
    NextEntry(poly, k - 1, index as bv8);
    r := Xor(DropByte(previous), t[0, LowByte(previous) as int]);
  }

  /** Fill table `k` from table `k - 1`, leaving the earlier tables alone. */
  method FillNext(poly: bv32, t: array2<bv32>, k: nat)
    requires t.Length0 == 8 && t.Length1 == 256 && 0 < k < 8
    requires forall j :: 0 <= j < k ==> TableRow(poly, t, j, 256)
    modifies t
    ensures forall j :: 0 <= j <= k ==> TableRow(poly, t, j, 256)
  {
    hide Entry;
    var index := 0;
    while index < 256
      invariant 0 <= index <= 256
      invariant forall j :: 0 <= j < k ==> TableRow(poly, t, j, 256)
      invariant TableRow(poly, t, k, index)
    {
      var value := AdvanceEntry(poly, t, k, index);
      label L:
      t[k, index] := value;
      forall j | 0 <= j < k ensures TableRow(poly, t, j, 256) {
        assert old@L(TableRow(poly, t, j, 256));
      }
      index := index + 1;
    }
  }

  /** One slice-by-8 round over the tables: XOR the state into the first word, then
      one lookup per byte. */
  method GroupStep(poly: bv32, t: array2<bv32>, c: bv32, g: seq<bv8>) returns (r: bv32)
    requires Tables(poly, t) && |g| == 8
    ensures r == Fold(poly, c, g)
  {
    SliceByEight(poly, c, g);
    var first := Xor(FromLe(g[0], g[1], g[2], g[3]), c);
    var f0, f1 := LowByte(first), LowByte(DropByte(first));
    var f2, f3 := LowByte(DropByte(DropByte(first))), LowByte(DropByte(DropByte(DropByte(first))));
    r := Lookup8(poly, t, f0, f1, f2, f3, g[4], g[5], g[6], g[7]);
  }

  method Lookup8(poly: bv32, t: array2<bv32>, f0: bv8, f1: bv8, f2: bv8, f3: bv8,
                 b4: bv8, b5: bv8, b6: bv8, b7: bv8) returns (r: bv32)
    requires Tables(poly, t)
    ensures r == Group(poly, f0, f1, f2, f3, b4, b5, b6, b7)
  {
    Lookup(poly, t, 7, f0);
    Lookup(poly, t, 6, f1);
    Lookup(poly, t, 5, f2);
    Lookup(poly, t, 4, f3);
    Lookup(poly, t, 3, b4);
    Lookup(poly, t, 2, b5);
    Lookup(poly, t, 1, b6);
    Lookup(poly, t, 0, b7);
    r := Xor(Xor(Xor(Xor(Xor(Xor(Xor(
      t[7, f0 as int], t[6, f1 as int]), t[5, f2 as int]), t[4, f3 as int]),
      t[3, b4 as int]), t[2, b5 as int]), t[1, b6 as int]), t[0, b7 as int]);
  }

  /** The tail step over table 0. */
  method TailStep(poly: bv32, t: array2<bv32>, c: bv32, b: bv8) returns (r: bv32)
    requires Tables(poly, t)
    ensures r == ByteStep(poly, c, b)
  {
    var index := LowByte(c) ^ b;
    hide Xor, LowByte, DropByte;
    Lookup(poly, t, 0, index);
    TableByte(poly, c, b);
    r := Xor(t[0, index as int], DropByte(c));
  }

  /** A group in the middle of an input. */
  lemma FoldSlice(poly: bv32, c: bv32, bytes: seq<bv8>, offset: nat, end: nat)
    requires offset <= end <= |bytes|
    ensures Fold(poly, c, bytes[offset..]) == Fold(poly, Fold(poly, c, bytes[offset..end]), bytes[end..])
  {
    assert bytes[offset..] == bytes[offset..end] + bytes[end..];
    FoldConcat(poly, c, bytes[offset..end], bytes[end..]);
  }

  lemma FoldByte(poly: bv32, c: bv32, bytes: seq<bv8>, offset: nat)
    requires offset < |bytes|
    ensures Fold(poly, c, bytes[offset..]) == Fold(poly, ByteStep(poly, c, bytes[offset]), bytes[offset + 1..])
  {
    assert bytes[offset..][1..] == bytes[offset + 1..];
  }

  // Chunked input

  function FoldChunks(poly: bv32, c: bv32, chunks: seq<seq<bv8>>): bv32
    decreases chunks
  {
    if chunks == [] then c else FoldChunks(poly, Fold(poly, c, chunks[0]), chunks[1..])
  }

  /** Any split of the input gives the checksum of the concatenation. */
  lemma {:induction false} FoldFlatten(poly: bv32, c: bv32, chunks: seq<seq<bv8>>)
    ensures FoldChunks(poly, c, chunks) == Fold(poly, c, Flatten(chunks))
    decreases chunks
  {
    if chunks != [] {
      FoldConcat(poly, c, chunks[0], Flatten(chunks[1..]));
      FoldFlatten(poly, Fold(poly, c, chunks[0]), chunks[1..]);
    }
  }
}
