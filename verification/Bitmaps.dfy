/** Bitmaps in bytes, least significant bit first, several columns side by side. */
module Bitmaps {

  /** `1 << k`: see `MaskIsPower`. */
  function Mask(k: nat): bv8
    requires k < 8
  {
    match k
    case 0 => 1
    case 1 => 2
    case 2 => 4
    case 3 => 8
    case 4 => 16
    case 5 => 32
    case 6 => 64
    case _ => 128
  }

  function Power2(k: nat): (p: nat)
    ensures p > 0
  {
    if k == 0 then 1 else 2 * Power2(k - 1)
  }

  lemma MaskIsPower(k: nat)
    requires k < 8
    ensures Mask(k) as int == Power2(k)
  {
    assert Power2(4) == 16;
  }

  /** Bit `k` of the byte's binary numeral, the least significant being bit 0. */
  predicate Test(b: bv8, k: nat)
    requires k < 8
  {
    (b as int / Power2(k)) % 2 == 1
  }

  lemma Bit0(b: bv8)
    ensures b & 1 != 0 <==> b as int % 2 == 1
  {}

  lemma Bit1(b: bv8)
    ensures b & 2 != 0 <==> (b as int / 2) % 2 == 1
  {}

  lemma Bit2(b: bv8)
    ensures b & 4 != 0 <==> (b as int / 4) % 2 == 1
  {}

  lemma Bit3(b: bv8)
    ensures b & 8 != 0 <==> (b as int / 8) % 2 == 1
  {}

  lemma Bit4(b: bv8)
    ensures b & 16 != 0 <==> (b as int / 16) % 2 == 1
  {}

  lemma Bit5(b: bv8)
    ensures b & 32 != 0 <==> (b as int / 32) % 2 == 1
  {}

  lemma Bit6(b: bv8)
    ensures b & 64 != 0 <==> (b as int / 64) % 2 == 1
  {}

  lemma Bit7(b: bv8)
    ensures b & 128 != 0 <==> (b as int / 128) % 2 == 1
  {}

  /** Testing with the mask reads that bit. */
  lemma TestMask(b: bv8, k: nat)
    requires k < 8
    ensures Test(b, k) <==> b & Mask(k) != 0
  {
    MaskIsPower(k);
    hide Power2;
    match k
    case 0 => Bit0(b);
    case 1 => Bit1(b);
    case 2 => Bit2(b);
    case 3 => Bit3(b);
    case 4 => Bit4(b);
    case 5 => Bit5(b);
    case 6 => Bit6(b);
    case _ => Bit7(b);
  }

  function Set(b: bv8, k: nat): bv8
    requires k < 8
  {
    b | Mask(k)
  }

  lemma ClearByte(k: nat)
    requires k < 8
    ensures !Test(0, k)
  {
  }

  lemma MasksDiffer(k: nat, j: nat)
    requires k < 8 && j < 8 && j != k
    ensures Mask(k) & Mask(j) == 0
  {
  }

  lemma MaskSet(k: nat)
    requires k < 8
    ensures Mask(k) != 0
  {
  }

  lemma SetSame(b: bv8, m: bv8)
    requires m != 0
    ensures (b | m) & m != 0
  {
  }

  lemma SetOther(b: bv8, m: bv8, n: bv8)
    requires m & n == 0
    ensures (b | m) & n == b & n
  {
  }

  lemma TestAfterSet(b: bv8, k: nat)
    requires k < 8
    ensures Test(Set(b, k), k)
  {
    TestMask(Set(b, k), k);
    hide Mask, Test;
    MaskSet(k);
    SetSame(b, Mask(k));
  }

  lemma TestBesideSet(b: bv8, k: nat, j: nat)
    requires k < 8 && j < 8 && j != k
    ensures Test(Set(b, k), j) == Test(b, j)
  {
    TestMask(Set(b, k), j);
    TestMask(b, j);
    hide Mask, Test;
    MasksDiffer(k, j);
    SetOther(b, Mask(k), Mask(j));
  }

  lemma SetThenTest(b: bv8, k: nat, j: nat)
    requires k < 8 && j < 8
    ensures Test(Set(b, k), j) == (j == k || Test(b, j))
  {
    hide Set, Test;
    TestAfterSet(b, k);
    if j != k { TestBesideSet(b, k, j); }
  }

  /** Bit `i` of column `j` when every column has `stride` bytes. */
  predicate BitAt(bits: seq<bv8>, stride: nat, j: nat, i: nat)
    requires i < 8 * stride && (j + 1) * stride <= |bits|
  {
    ByteInColumn(stride, j, i);
    Test(bits[j * stride + i / 8], i % 8)
  }

  lemma ByteInColumn(stride: nat, j: nat, i: nat)
    requires i < 8 * stride
    ensures j * stride <= j * stride + i / 8 < (j + 1) * stride
  {
  }

  lemma ClearAt(bits: seq<bv8>, stride: nat, j: nat, i: nat)
    requires i < 8 * stride && (j + 1) * stride <= |bits| && forall k :: 0 <= k < |bits| ==> bits[k] == 0
    ensures !BitAt(bits, stride, j, i)
  {
    hide Test;
    ByteInColumn(stride, j, i);
    ClearByte(i % 8);
  }

  lemma ColumnsApart(stride: nat, j: nat, c: nat)
    ensures j < c ==> (j + 1) * stride <= c * stride
  {
  }

  lemma SameByte(stride: nat, j: nat, i: nat, c: nat, o: nat)
    requires i < stride && o < stride && j * stride + i == c * stride + o
    ensures j == c && i == o
  {
    ColumnsApart(stride, j, c);
    ColumnsApart(stride, c, j);
  }

  /** Setting one bit changes that bit of that column and no other. */
  lemma SetBitAt(bits: seq<bv8>, stride: nat, c: nat, o: nat, j: nat, i: nat)
    requires o < 8 * stride && (c + 1) * stride <= |bits|
    requires i < 8 * stride && (j + 1) * stride <= |bits|
    requires c * stride + o / 8 < |bits|
    ensures BitAt(bits[c * stride + o / 8 := Set(bits[c * stride + o / 8], o % 8)], stride, j, i)
      == ((j == c && i == o) || BitAt(bits, stride, j, i))
  {
    var at := c * stride + o / 8;
    var next := bits[at := Set(bits[at], o % 8)];
    BitAtByte(bits, stride, j, i);
    BitAtByte(next, stride, j, i);
    hide Set, Test, BitAt;
    if j * stride + i / 8 == at {
      SameByte(stride, j, i / 8, c, o / 8);
      SetThenTest(bits[at], o % 8, i % 8);
    }
  }

  lemma BitAtByte(bits: seq<bv8>, stride: nat, j: nat, i: nat)
    requires i < 8 * stride && (j + 1) * stride <= |bits|
    ensures j * stride + i / 8 < |bits| && BitAt(bits, stride, j, i) == Test(bits[j * stride + i / 8], i % 8)
  {
    ByteInColumn(stride, j, i);
    hide Test;
  }
}
