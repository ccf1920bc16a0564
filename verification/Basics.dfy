/** Shared vocabulary: optional values, bytes, and ASCII literals as bytes. */
module Basics {

  datatype Option<+T> = None | Some(value: T) {
    function UnwrapOr(default: T): T {
      if Some? then value else default
    }
  }

  type Byte = b: int | 0 <= b < 256

  const LF: Byte := 10
  const QUOTE: Byte := 34
  const BACKSLASH: Byte := 92

  /** An ASCII literal as bytes; no literal here uses anything else. */
  function Ascii(s: string): (r: seq<Byte>)
    ensures |r| == |s|
    ensures forall i :: 0 <= i < |s| && s[i] < 128 as char ==> r[i] == s[i] as int
  {
    seq(|s|, i requires 0 <= i < |s| => if s[i] < 128 as char then s[i] as int else 63)
  }

  /** No control byte, hence no line break. */
  predicate Clean(s: seq<Byte>) {
    forall i :: 0 <= i < |s| ==> s[i] >= 32
  }

  function Min(a: nat, b: nat): nat { if a <= b then a else b }

  /** `a.div_ceil(b)`. */
  function DivCeil(a: nat, b: nat): nat
    requires b > 0
  {
    (a + b - 1) / b
  }
}
