/** Decimal and hexadecimal numerals as ASCII bytes, and reading them back. */
module Numerals {
  import opened Basics

  predicate IsDigit(b: Byte) { 48 <= b <= 57 }

  function Digits(n: nat): (r: seq<Byte>)
    ensures |r| > 0 && forall i :: 0 <= i < |r| ==> IsDigit(r[i])
    decreases n
  {
    if n < 10 then [48 + n] else Digits(n / 10) + [48 + n % 10]
  }

  /** Exactly `width` digits, leading zeros included. */
  function Padded(n: nat, width: nat): (r: seq<Byte>)
    ensures |r| == width && forall i :: 0 <= i < |r| ==> IsDigit(r[i])
    decreases width
  {
    if width == 0 then [] else Padded(n / 10, width - 1) + [48 + n % 10]
  }

  function Value(s: seq<Byte>): Option<nat>
    decreases s
  {
    if s == [] then Some(0)
    else
      var last := s[|s| - 1];
      match Value(s[..|s| - 1])
      case None => None
      case Some(v) => if IsDigit(last) then Some(10 * v + (last - 48)) else None
  }

  function Decimal(v: int): seq<Byte> {
    if v < 0 then [45] + Digits(-v) else Digits(v)
  }

  /** An optional minus sign and at least one digit. */
  function ReadDecimal(s: seq<Byte>): Option<int> {
    var negative := s != [] && s[0] == 45;
    var digits := if negative then s[1..] else s;
    if digits == [] || Value(digits).None? then None
    else
      var v: int := Value(digits).value;
      Some(if negative then -v else v)
  }

  function HexDigit(d: int): Byte
    requires 0 <= d < 16
  {
    if d < 10 then 48 + d else 87 + d
  }

  function ReadHexDigit(b: Byte): Option<int> {
    if IsDigit(b) then Some(b - 48) else if 97 <= b <= 102 then Some(b - 87) else None
  }

  /** `{:0width x}`: most significant digit first. */
  function Hex(n: nat, width: nat): (r: seq<Byte>)
    ensures |r| == width && forall i :: 0 <= i < |r| ==> IsDigit(r[i]) || 97 <= r[i] <= 102
    decreases width
  {
    if width == 0 then [] else Hex(n / 16, width - 1) + [HexDigit(n % 16)]
  }

  function ReadHex(s: seq<Byte>): Option<nat>
    decreases s
  {
    if s == [] then Some(0)
    else
      match (ReadHex(s[..|s| - 1]), ReadHexDigit(s[|s| - 1]))
      case (Some(v), Some(d)) => Some(16 * v + d)
      case _ => None
  }

  /** What the numerals look like. */
  lemma Examples()
    ensures Decimal(-1970) == Ascii("-1970") && Decimal(0) == Ascii("0")
    ensures Hex(0x1f, 4) == Ascii("001f") && Padded(7, 3) == Ascii("007")
  {
    assert Digits(1970) == [49, 57, 55, 48] by {
      assert Digits(19) == [49, 57];
      assert Digits(197) == [49, 57, 55];
    }
    assert Hex(1, 3) == [48, 48, 49] by { assert Hex(0, 2) == [48, 48]; }
    assert Padded(0, 2) == [48, 48];
  }

  function Power(base: nat, n: nat): nat
    decreases n
  {
    if n == 0 then 1 else base * Power(base, n - 1)
  }

  lemma {:induction false} ValueOfDigits(n: nat)
    ensures Value(Digits(n)) == Some(n)
    decreases n
  {
    if n >= 10 {
      ValueOfDigits(n / 10);
      assert Digits(n)[..|Digits(n)| - 1] == Digits(n / 10);
    } else {
      assert Value([48 + n][..0]) == Some(0);
    }
  }

  lemma {:induction false} ValueOfPadded(n: nat, width: nat)
    requires n < Power(10, width)
    ensures Value(Padded(n, width)) == Some(n)
    decreases width
  {
    if width > 0 {
      assert n / 10 < Power(10, width - 1);
      ValueOfPadded(n / 10, width - 1);
      assert Padded(n, width)[..width - 1] == Padded(n / 10, width - 1);
    }
  }

  /** A string of digits is the padded numeral of its value. */
  lemma {:induction false} PaddedOfValue(s: seq<Byte>)
    requires Value(s).Some?
    ensures Padded(Value(s).value, |s|) == s
    decreases s
  {
    if s != [] {
      var front := s[..|s| - 1];
      PaddedOfValue(front);
      assert Value(s).value / 10 == Value(front).value;
      assert s == front + [s[|s| - 1]];
    }
  }

  lemma {:induction false} ReadHexOfHex(n: nat, width: nat)
    requires n < Power(16, width)
    ensures ReadHex(Hex(n, width)) == Some(n)
    decreases width
  {
    if width > 0 {
      assert n / 16 < Power(16, width - 1);
      ReadHexOfHex(n / 16, width - 1);
      assert Hex(n, width)[..width - 1] == Hex(n / 16, width - 1);
    }
  }

  lemma ReadDecimalOfDecimal(v: int)
    ensures ReadDecimal(Decimal(v)) == Some(v)
  {
    var n := if v < 0 then -v else v;
    ValueOfDigits(n);
    var digits := Digits(n);
    assert IsDigit(digits[0]);
    hide Digits, Value;
    if v < 0 { assert Decimal(v)[1..] == digits; }
  }

  lemma {:induction false} DigitsLength(n: nat, width: nat)
    requires width > 0 && n < Power(10, width)
    ensures |Digits(n)| <= width
    decreases width
  {
    if n >= 10 {
      assert n / 10 < Power(10, width - 1);
      DigitsLength(n / 10, width - 1);
    }
  }
}
