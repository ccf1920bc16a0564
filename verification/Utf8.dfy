/** UTF-8 (section 3 of RFC 3629): where the characters of a text begin. */
module Utf8 {
  import opened Basics

  /** The byte continues a character that an earlier byte has begun. */
  predicate Continues(b: Byte) { 0x80 <= b < 0xc0 }

  /** `str::is_char_boundary`. */
  predicate Boundary(bytes: seq<Byte>, i: nat) {
    i == 0 || i == |bytes| || (i < |bytes| && !Continues(bytes[i]))
  }

  /** Text begins with a whole character, as any `str` does. */
  predicate Begins(text: seq<Byte>) { text != [] ==> !Continues(text[0]) }

  /** Unicode scalar values: no surrogates. */
  predicate Scalar(c: nat) { c < 0xd800 || 0xe000 <= c < 0x11_0000 }

  /** One character, in one to four bytes. */
  function Character(c: nat): (r: seq<Byte>)
    requires Scalar(c)
    ensures |r| > 0
  {
    if c < 0x80 then [c]
    else if c < 0x800 then [0xc0 + c / 64, 0x80 + c % 64]
    else if c < 0x1_0000 then [0xe0 + c / 4096, 0x80 + c / 64 % 64, 0x80 + c % 64]
    else [0xf0 + c / 262144, 0x80 + c / 4096 % 64, 0x80 + c / 64 % 64, 0x80 + c % 64]
  }

  predicate Scalars(chars: seq<nat>) {
    forall i :: 0 <= i < |chars| ==> Scalar(chars[i])
  }

  function Characters(chars: seq<nat>): seq<Byte>
    requires Scalars(chars)
  {
    if chars == [] then [] else Character(chars[0]) + Characters(chars[1..])
  }

  lemma CharacterBytes(c: nat)
    requires Scalar(c)
    ensures var r := Character(c); !Continues(r[0]) && forall i :: 0 < i < |r| ==> Continues(r[i])
  {
  }

  /** The bytes of the first `k` characters. */
  function Extent(chars: seq<nat>, k: nat): nat
    requires Scalars(chars) && k <= |chars|
  {
    |Characters(chars[..k])|
  }

  lemma ExtentNext(chars: seq<nat>, k: nat)
    requires Scalars(chars) && 0 < k <= |chars|
    ensures Extent(chars, k) == |Character(chars[0])| + Extent(chars[1..], k - 1)
  {
    assert chars[..k][1..] == chars[1..][..k - 1];
  }

  lemma BeginsText(chars: seq<nat>)
    requires Scalars(chars)
    ensures Begins(Characters(chars))
  {
    if chars != [] { CharacterBytes(chars[0]); }
  }

  /** The boundaries of a text are exactly the places between its characters. */
  lemma {:induction false} BoundaryMeans(chars: seq<nat>, i: nat)
    requires Scalars(chars)
    ensures Boundary(Characters(chars), i) <==> exists k: nat :: k <= |chars| && Extent(chars, k) == i
    decreases chars
  {
    assert Extent(chars, 0) == 0;
    if chars != [] {
      var first, rest := Character(chars[0]), Characters(chars[1..]);
      CharacterBytes(chars[0]);
      BeginsText(chars[1..]);
      hide Character, Continues;
      forall k: nat | 0 < k <= |chars| ensures Extent(chars, k) == |first| + Extent(chars[1..], k - 1) {
        ExtentNext(chars, k);
      }
      if i >= |first| {
        BoundaryMeans(chars[1..], i - |first|);
        BoundaryShifts(first, rest, i - |first|);
        if k: nat :| k <= |chars[1..]| && Extent(chars[1..], k) == i - |first| {
          assert Extent(chars, k + 1) == i;
        }
        if k: nat :| k <= |chars| && Extent(chars, k) == i {
          assert k > 0 && Extent(chars[1..], k - 1) == i - |first|;
        }
      }
    }
  }

  lemma BoundaryShifts(first: seq<Byte>, rest: seq<Byte>, i: nat)
    requires first != [] && Begins(rest)
    ensures Boundary(first + rest, |first| + i) <==> Boundary(rest, i)
  {
  }
}
