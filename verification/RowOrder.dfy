/** The order of two-column rows: NULL before every value, keys before texts, texts by bytes. */
module RowOrder {
  import opened Basics

  datatype Row = Row(key: Option<int>, text: Option<seq<Byte>>)

  datatype Ordering = Less | Equal | Greater

  function CompareKeys(a: Option<int>, b: Option<int>): Ordering {
    match (a, b)
    case (None, None) => Equal
    case (None, Some(_)) => Less
    case (Some(_), None) => Greater
    case (Some(x), Some(y)) => if x < y then Less else if x == y then Equal else Greater
  }

  function CompareBytes(a: seq<Byte>, b: seq<Byte>): Ordering {
    if a == [] then (if b == [] then Equal else Less)
    else if b == [] then Greater
    else if a[0] < b[0] then Less
    else if a[0] > b[0] then Greater
    else CompareBytes(a[1..], b[1..])
  }

  function CompareTexts(a: Option<seq<Byte>>, b: Option<seq<Byte>>): Ordering {
    match (a, b)
    case (None, None) => Equal
    case (None, Some(_)) => Less
    case (Some(_), None) => Greater
    case (Some(x), Some(y)) => CompareBytes(x, y)
  }

  /** Keys first, then texts. */
  function Compare(a: Row, b: Row): Ordering {
    match CompareKeys(a.key, b.key)
    case Equal => CompareTexts(a.text, b.text)
    case other => other
  }

  predicate Below(a: Row, b: Row) { Compare(a, b).Less? }

  lemma {:induction false} BytesEqual(a: seq<Byte>, b: seq<Byte>)
    ensures CompareBytes(a, b).Equal? <==> a == b
    decreases a
  {
    if a != [] && b != [] {
      BytesEqual(a[1..], b[1..]);
      assert a == [a[0]] + a[1..] && b == [b[0]] + b[1..];
    }
  }

  /** Texts are ordered by their first differing byte, and a proper prefix comes first. */
  lemma {:induction false} BytesOrder(a: seq<Byte>, b: seq<Byte>)
    ensures CompareBytes(a, b).Less? <==> a < b || exists i: nat :: DiffersBelow(a, b, i)
    decreases a
  {
    if a != [] && b != [] {
      BytesOrder(a[1..], b[1..]);
      assert a == [a[0]] + a[1..] && b == [b[0]] + b[1..];
      if a[0] == b[0] {
        if i: nat :| DiffersBelow(a, b, i) {
          assert i > 0 && a[..i][1..] == a[1..][..i - 1] && b[..i][1..] == b[1..][..i - 1];
          assert DiffersBelow(a[1..], b[1..], i - 1);
        }
        if i: nat :| DiffersBelow(a[1..], b[1..], i) {
          assert a[..i + 1] == [a[0]] + a[1..][..i] && b[..i + 1] == [b[0]] + b[1..][..i];
          assert DiffersBelow(a, b, i + 1);
        }
      } else if a[0] < b[0] {
        assert DiffersBelow(a, b, 0);
      } else {
        forall i: nat ensures !DiffersBelow(a, b, i) {
          if DiffersBelow(a, b, i) { FirstOfBelow(a, b, i); }
        }
      }
    }
  }

  predicate DiffersBelow(a: seq<Byte>, b: seq<Byte>, i: nat) {
    i < |a| && i < |b| && a[..i] == b[..i] && a[i] < b[i]
  }

  lemma FirstOfBelow(a: seq<Byte>, b: seq<Byte>, i: nat)
    requires DiffersBelow(a, b, i)
    ensures a[0] <= b[0]
  {
    if i > 0 { assert a[..i][0] == b[..i][0]; }
  }

  predicate KeyBelow(a: Option<int>, b: Option<int>) {
    b.Some? && (a.None? || a.value < b.value)
  }

  /** Keys decide first, NULL below every key; then texts, NULL below every text. */
  lemma RowsOrder(a: Row, b: Row)
    ensures Below(a, b) <==>
      || KeyBelow(a.key, b.key)
      || (a.key == b.key && b.text.Some?
          && (a.text.None? || a.text.value < b.text.value
              || exists i: nat :: DiffersBelow(a.text.value, b.text.value, i)))
  {
    if a.text.Some? && b.text.Some? { BytesOrder(a.text.value, b.text.value); }
    hide CompareBytes, DiffersBelow;
  }

  lemma {:induction false} BytesFlip(a: seq<Byte>, b: seq<Byte>)
    ensures CompareBytes(a, b).Less? <==> CompareBytes(b, a).Greater?
    decreases a
  {
    if a != [] && b != [] { BytesFlip(a[1..], b[1..]); }
  }

  lemma {:induction false} BytesChain(a: seq<Byte>, b: seq<Byte>, c: seq<Byte>)
    requires CompareBytes(a, b).Less? && CompareBytes(b, c).Less?
    ensures CompareBytes(a, c).Less?
    decreases a
  {
    if a != [] && b != [] && c != [] && a[0] == b[0] == c[0] { BytesChain(a[1..], b[1..], c[1..]); }
  }

  /** Exactly one of below, equal and above holds of any two rows. */
  lemma Trichotomy(a: Row, b: Row)
    ensures Compare(a, b).Equal? <==> a == b
    ensures Compare(a, b).Greater? <==> Below(b, a)
  {
    hide CompareBytes;
    if a.text.Some? && b.text.Some? {
      BytesEqual(a.text.value, b.text.value);
      BytesFlip(b.text.value, a.text.value);
    }
  }

  lemma Transitive(a: Row, b: Row, c: Row)
    requires Below(a, b) && Below(b, c)
    ensures Below(a, c)
  {
    hide CompareBytes;
    if a.text.Some? && b.text.Some? && c.text.Some? && CompareTexts(a.text, b.text).Less? &&
       CompareTexts(b.text, c.text).Less?
    {
      BytesChain(a.text.value, b.text.value, c.text.value);
    }
  }
}
