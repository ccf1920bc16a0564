/** The join checker: it accepts a finished stream exactly when its rows are, in any order,
    the inner or left join of the generated tables under SQL NULL rules. */
module NumericJoin {
  import opened Basics
  import opened Values
  import opened Distinct
  import opened QueryRuns

  const WIDTH: nat := 4

  datatype Input = Input(rows: nat, keys: nat, matches: nat, left: bool)

  // The tables

  datatype Record = Record(id: nat, key: Option<int>, value: Option<int>)

  function Fact(input: Input, id: nat): Record
    requires input.keys > 0
  {
    Record(id, if id % 13 == 0 then None else Some(id % input.keys), if id % 7 == 0 then None else Some(id % 101 - 50))
  }

  function Dimension(input: Input, id: nat): Record
    requires input.matches > 0
  {
    Record(id, if id / input.matches % 11 == 0 then None else Some(id / input.matches),
           if id % 5 == 0 then None else Some(id % 17 - 8))
  }

  /** Fact identities are written in descending order. */
  function Facts(input: Input, count: nat): seq<Record>
    requires input.keys > 0
  {
    if count == 0 then [] else [Fact(input, count - 1)] + Facts(input, count - 1)
  }

  function Dimensions(input: Input, count: nat): seq<Record>
    requires input.matches > 0
  {
    if count == 0 then [] else Dimensions(input, count - 1) + [Dimension(input, count - 1)]
  }

  // The join

  function AsValue(v: Option<int>): Value {
    match v case Some(i) => Int64(i) case None => Null
  }

  function Paired(f: Record, d: Record): Row {
    [Int64(f.id), Int64(d.id), AsValue(f.value), AsValue(d.value)]
  }

  function Unpaired(f: Record): Row {
    [Int64(f.id), Null, AsValue(f.value), Null]
  }

  /** A NULL key equals nothing. */
  predicate KeysMeet(f: Record, d: Record) {
    f.key.Some? && d.key.Some? && f.key.value == d.key.value
  }

  function Partners(f: Record, dimensions: seq<Record>): seq<Row> {
    if dimensions == [] then []
    else
      var last := dimensions[|dimensions| - 1];
      Partners(f, dimensions[..|dimensions| - 1]) + (if KeysMeet(f, last) then [Paired(f, last)] else [])
  }

  function JoinOne(f: Record, dimensions: seq<Record>, left: bool): seq<Row> {
    var partners := Partners(f, dimensions);
    if partners == [] && left then [Unpaired(f)] else partners
  }

  function Join(facts: seq<Record>, dimensions: seq<Record>, left: bool): seq<Row> {
    if facts == [] then [] else JoinOne(facts[0], dimensions, left) + Join(facts[1..], dimensions, left)
  }

  function TrueJoin(input: Input): seq<Row>
    requires input.keys > 0 && input.matches > 0
  {
    Join(Facts(input, input.rows), Dimensions(input, input.keys * input.matches), input.left)
  }

  // What the checker expects

  predicate HasMatches(input: Input, left: nat)
    requires input.keys > 0
  {
    left % 13 != 0 && (left % input.keys) % 11 != 0
  }

  function LeftValue(id: nat): Value { if id % 7 == 0 then Null else Int64(id % 101 - 50) }

  function RightValue(id: nat): Value { if id % 5 == 0 then Null else Int64(id % 17 - 8) }

  /** The row a slot of a left identity stands for: one per match, and one more for no match. */
  function RowAt(input: Input, left: nat, slot: nat): Row
    requires input.keys > 0
  {
    if slot < input.matches then
      var right := left % input.keys * input.matches + slot;
      [Int64(left), Int64(right), LeftValue(left), RightValue(right)]
    else [Int64(left), Null, LeftValue(left), Null]
  }

  predicate Live(input: Input, left: nat, slot: nat)
    requires input.keys > 0
  {
    if HasMatches(input, left) then slot < input.matches else input.left && slot == input.matches
  }

  /** The rows of a left identity's first `n` slots. */
  function Slots(input: Input, left: nat, n: nat): seq<Row>
    requires input.keys > 0
  {
    seq(n, slot requires 0 <= slot => RowAt(input, left, slot))
  }

  function RowsOf(input: Input, left: nat): (r: seq<Row>)
    requires input.keys > 0
  {
    if HasMatches(input, left) then Slots(input, left, input.matches)
    else if input.left then [RowAt(input, left, input.matches)]
    else []
  }

  function Expected(input: Input, count: nat): seq<Row>
    requires input.keys > 0
  {
    if count == 0 then [] else Expected(input, count - 1) + RowsOf(input, count - 1)
  }

  // The expected rows are the join

  lemma SameKey(key: nat, matches: nat, right: nat)
    requires matches > 0
    ensures right / matches == key <==> key * matches <= right < key * matches + matches
  {
    var q, r := right / matches, right % matches;
    assert right == q * matches + r;
    Ordered(q, key, matches);
    Ordered(key, q, matches);
  }

  lemma Ordered(a: nat, b: nat, m: nat)
    ensures a < b ==> a * m + m <= b * m
  {
    Scaled(m, b - a - 1);
    assert b * m == a * m + m + (b - a - 1) * m;
  }

  lemma Scaled(m: nat, d: int)
    ensures d >= 0 ==> d * m >= 0
  {
  }

  /** A dimension meets a fact exactly when it is among the fact's `matches` dimensions. */
  lemma FactMeets(input: Input, left: nat, id: nat)
    requires input.keys > 0 && input.matches > 0
    ensures var base := left % input.keys * input.matches;
            && KeysMeet(Fact(input, left), Dimension(input, id))
              == (HasMatches(input, left) && base <= id < base + input.matches)
            && (base <= id < base + input.matches ==>
                 Paired(Fact(input, left), Dimension(input, id)) == RowAt(input, left, id - base))
  {
    SameKey(left % input.keys, input.matches, id);
  }

  lemma SlotsNext(input: Input, left: nat, n: nat)
    requires input.keys > 0
    ensures Slots(input, left, n + 1) == Slots(input, left, n) + [RowAt(input, left, n)] && Slots(input, left, 0) == []
  {
    hide RowAt;
  }

  /** Which of the first `n` dimensions meet a fact's key. */
  lemma {:induction false} PartnersOfFact(input: Input, left: nat, n: nat)
    requires input.keys > 0 && input.matches > 0
    ensures var base := left % input.keys * input.matches;
            var found := if !HasMatches(input, left) || n <= base then 0 else Min(n - base, input.matches);
            Partners(Fact(input, left), Dimensions(input, n)) == Slots(input, left, found)
    decreases n
  {
    hide Fact, Dimension, KeysMeet, Paired, Slots, RowAt, HasMatches;
    SlotsNext(input, left, 0);
    if n > 0 {
      PartnersOfFact(input, left, n - 1);
      FactMeets(input, left, n - 1);
      var d, base := Dimensions(input, n), left % input.keys * input.matches;
      assert d[..|d| - 1] == Dimensions(input, n - 1) && d[|d| - 1] == Dimension(input, n - 1);
      if base <= n - 1 { SlotsNext(input, left, n - 1 - base); }
    }
  }

  lemma AllKeysCovered(input: Input, left: nat)
    requires input.keys > 0 && input.matches > 0
    ensures left % input.keys * input.matches + input.matches <= input.keys * input.matches
  {
    Ordered(left % input.keys, input.keys, input.matches);
  }

  lemma JoinOfFact(input: Input, left: nat)
    requires input.keys > 0 && input.matches > 0
    ensures JoinOne(Fact(input, left), Dimensions(input, input.keys * input.matches), input.left) == RowsOf(input, left)
  {
    hide Slots, Partners, Dimensions, RowAt;
    PartnersOfFact(input, left, input.keys * input.matches);
    AllKeysCovered(input, left);
    NoSlots(input, left);
  }

  lemma NoSlots(input: Input, left: nat)
    requires input.keys > 0 && input.matches > 0
    ensures Slots(input, left, 0) == [] && Slots(input, left, input.matches) != []
    ensures RowAt(input, left, input.matches) == Unpaired(Fact(input, left))
  {
  }

  lemma {:induction false} JoinIsExpected(input: Input, count: nat)
    requires input.keys > 0 && input.matches > 0
    ensures multiset(Join(Facts(input, count), Dimensions(input, input.keys * input.matches), input.left))
      == multiset(Expected(input, count))
    decreases count
  {
    hide JoinOne, RowsOf, Fact, Dimensions;
    if count > 0 {
      JoinIsExpected(input, count - 1);
      JoinOfFact(input, count - 1);
      assert Facts(input, count)[1..] == Facts(input, count - 1);
    }
  }

  // Membership and repetition

  lemma {:induction false} ExpectedHas(input: Input, count: nat, row: Row)
    requires input.keys > 0
    ensures row in Expected(input, count) <==>
      exists left: nat, slot: nat :: left < count && Live(input, left, slot) && row == RowAt(input, left, slot)
    decreases count
  {
    if count > 0 {
      ExpectedHas(input, count - 1, row);
      RowsOfHas(input, count - 1, row);
    }
  }

  lemma RowsOfHas(input: Input, left: nat, row: Row)
    requires input.keys > 0
    ensures row in RowsOf(input, left) <==>
      exists slot: nat :: Live(input, left, slot) && row == RowAt(input, left, slot)
  {
    if HasMatches(input, left) {
      forall slot: nat | slot < input.matches ensures RowAt(input, left, slot) in RowsOf(input, left) {
        assert RowsOf(input, left)[slot] == RowAt(input, left, slot);
      }
    }
  }

  predicate NamesBelow(rows: seq<Row>, count: nat) {
    forall i :: 0 <= i < |rows| ==> |rows[i]| == 4 && rows[i][0].Int64? && rows[i][0].integer < count
  }

  lemma SlotsDistinct(input: Input, left: nat)
    requires input.keys > 0
    ensures NoRepeat(RowsOf(input, left))
    ensures forall i :: 0 <= i < |RowsOf(input, left)| ==>
      |RowsOf(input, left)[i]| == 4 && RowsOf(input, left)[i][0] == Int64(left)
  {
    hide LeftValue, RightValue;
    if HasMatches(input, left) {
      forall i, j | 0 <= i < j < input.matches ensures RowsOf(input, left)[i] != RowsOf(input, left)[j] {
        assert RowsOf(input, left)[i][1] != RowsOf(input, left)[j][1];
      }
    }
  }

  lemma {:induction false} ExpectedDistinct(input: Input, count: nat)
    requires input.keys > 0
    ensures NoRepeat(Expected(input, count)) && NamesBelow(Expected(input, count), count)
    decreases count
  {
    hide RowsOf;
    if count > 0 {
      ExpectedDistinct(input, count - 1);
      SlotsDistinct(input, count - 1);
    }
  }

  // The checker

  /** The slot a result row claims, or nothing if some part of it is wrong. */
  function Identify(input: Input, row: Row): Option<(nat, nat)>
    requires input.keys > 0 && input.matches > 0 && |row| == 4
  {
    if !row[0].Int64? || row[0].integer < 0 || row[0].integer >= input.rows then None
    else
      var left := row[0].integer;
      var matched := HasMatches(input, left);
      if row[1].Int64? && matched then
        if row[1].integer < 0 then None
        else
          var right := row[1].integer;
          if right / input.matches != left % input.keys ||
             row[2] != LeftValue(left) || row[3] != RightValue(right) then None
          else Some((left, right % input.matches))
      else if row[1].Null? && input.left && !matched then
        if row[2] != LeftValue(left) || row[3] != Null then None else Some((left, input.matches))
      else None
  }

  lemma Rebuild(right: nat, matches: nat)
    requires matches > 0
    ensures right / matches * matches + right % matches == right
  {
  }

  lemma Divided(key: nat, matches: nat, slot: nat)
    requires slot < matches
    ensures (key * matches + slot) / matches == key && (key * matches + slot) % matches == slot
  {
    SameKey(key, matches, key * matches + slot);
    Rebuild(key * matches + slot, matches);
  }

  /** A claimed slot is live and the row is the one it stands for. */
  lemma IdentifiedIsExpected(input: Input, row: Row)
    requires input.keys > 0 && input.matches > 0 && |row| == 4 && Identify(input, row).Some?
    ensures var (left, slot) := Identify(input, row).value;
            left < input.rows && Live(input, left, slot) && row == RowAt(input, left, slot)
  {
    hide LeftValue, RightValue, HasMatches;
    if row[1].Int64? { Rebuild(row[1].integer, input.matches); }
  }

  /** Every live slot is claimed by its row. */
  lemma ExpectedIsIdentified(input: Input, left: nat, slot: nat)
    requires input.keys > 0 && input.matches > 0 && left < input.rows && Live(input, left, slot)
    ensures |RowAt(input, left, slot)| == 4 && Identify(input, RowAt(input, left, slot)) == Some((left, slot))
  {
    hide LeftValue, RightValue;
    if slot < input.matches { Divided(left % input.keys, input.matches, slot); }
  }

  lemma IdentifiedOrStranger(input: Input, row: Row)
    requires input.keys > 0 && input.matches > 0 && |row| == 4
    ensures Identify(input, row).Some? <==> row in Expected(input, input.rows)
  {
    hide Identify, Live, RowAt, Expected;
    ExpectedHas(input, input.rows, row);
    if Identify(input, row).Some? {
      IdentifiedIsExpected(input, row);
      var (left, slot) := Identify(input, row).value;
      assert left < input.rows && Live(input, left, slot) && row == RowAt(input, left, slot);
    }
    if row in Expected(input, input.rows) {
      var left: nat, slot: nat :| left < input.rows && Live(input, left, slot) && row == RowAt(input, left, slot);
      ExpectedIsIdentified(input, left, slot);
    }
  }

  function Index(input: Input, left: nat, slot: nat): nat { left * (input.matches + 1) + slot }

  lemma IndexInTable(input: Input, left: nat, slot: nat)
    requires left < input.rows && slot <= input.matches
    ensures Index(input, left, slot) < input.rows * (input.matches + 1)
  {
    Ordered(left, input.rows, input.matches + 1);
  }

  lemma IndexInjective(input: Input, left: nat, slot: nat, other: nat, s: nat)
    requires slot <= input.matches && s <= input.matches && Index(input, left, slot) == Index(input, other, s)
    ensures left == other && slot == s
  {
    Ordered(left, other, input.matches + 1);
    Ordered(other, left, input.matches + 1);
  }

  /** A flag is set exactly when its slot's row has been accepted. */
  predicate Recorded(input: Input, seen: seq<bool>, done: seq<Row>)
    requires input.keys > 0
  {
    && |seen| == input.rows * (input.matches + 1)
    && forall left: nat, slot: nat :: left < input.rows && slot <= input.matches ==>
      (IndexInTable(input, left, slot); seen[Index(input, left, slot)])
        == (Live(input, left, slot) && RowAt(input, left, slot) in done)
  }

  lemma RecordNone(input: Input, seen: seq<bool>)
    requires input.keys > 0 && |seen| == input.rows * (input.matches + 1) && forall i :: 0 <= i < |seen| ==> !seen[i]
    ensures Recorded(input, seen, [])
  {
    hide Live, RowAt, Index;
    forall left: nat, slot: nat | left < input.rows && slot <= input.matches
      ensures (IndexInTable(input, left, slot); !seen[Index(input, left, slot)])
    {
      IndexInTable(input, left, slot);
    }
  }

  lemma RecordNext(input: Input, seen: seq<bool>, done: seq<Row>, left: nat, slot: nat)
    requires input.keys > 0 && input.matches > 0 && left < input.rows && Live(input, left, slot)
    requires Recorded(input, seen, done) && Index(input, left, slot) < |seen|
    ensures seen[Index(input, left, slot)] == (RowAt(input, left, slot) in done)
    ensures Recorded(input, seen[Index(input, left, slot) := true], done + [RowAt(input, left, slot)])
  {
    hide RowAt, Index, HasMatches;
    assert slot <= input.matches;
    var next := seen[Index(input, left, slot) := true];
    var row := RowAt(input, left, slot);
    forall l: nat, s: nat | l < input.rows && s <= input.matches
      ensures (IndexInTable(input, l, s); next[Index(input, l, s)])
        == (Live(input, l, s) && RowAt(input, l, s) in done + [row])
    {
      IndexInTable(input, l, s);
      SlotIsOwn(input, left, slot, l, s);
    }
  }

  lemma SlotIsOwn(input: Input, left: nat, slot: nat, l: nat, s: nat)
    requires input.keys > 0 && input.matches > 0 && left < input.rows && Live(input, left, slot)
    requires l < input.rows && s <= input.matches
    ensures Index(input, l, s) == Index(input, left, slot) ==> l == left && s == slot
    ensures Live(input, l, s) && RowAt(input, l, s) == RowAt(input, left, slot) ==> l == left && s == slot
  {
    hide RowAt, Index, Identify, HasMatches;
    if Index(input, l, s) == Index(input, left, slot) { IndexInjective(input, left, slot, l, s); }
    ExpectedIsIdentified(input, left, slot);
    if Live(input, l, s) { ExpectedIsIdentified(input, l, s); }
  }

  // Over a whole query

  /** `Input::expected_rows`. */
  method ExpectedRows(input: Input) returns (n: nat)
    requires input.keys > 0 && input.matches > 0
    ensures n == |TrueJoin(input)|
  {
    n := 0;
    var id := 0;
    while id < input.rows
      invariant id <= input.rows && n == |Expected(input, id)|
    {
      if HasMatches(input, id) {
        n := n + input.matches;
      } else if input.left {
        n := n + 1;
      }
      id := id + 1;
    }
    JoinIsExpected(input, input.rows);
    if n != |TrueJoin(input)| { LengthSeparates(TrueJoin(input), Expected(input, input.rows)); }
  }

  /** Check one batch: accept each row into its own unused slot, or stop at the first row that
      is wrong or repeated. */
  method CheckBatch(input: Input, rows: seq<Row>, seen: array<bool>, ghost done: seq<Row>) returns (ok: bool,
                    ghost at: nat)
    requires input.keys > 0 && input.matches > 0 && forall k :: 0 <= k < |rows| ==> |rows[k]| == 4
    requires Recorded(input, seen[..], done) && Accepted(input, done)
    modifies seen
    ensures ok ==> Recorded(input, seen[..], done + rows) && Accepted(input, done + rows)
    ensures !ok ==> at < |rows| && (rows[at] !in Expected(input, input.rows) || rows[at] in done + rows[..at])
  {
    hide Recorded, Identify, Expected, RowAt, Index, Live;
    at := 0;
    var i := 0;
    assert done + rows[..0] == done;
    while i < |rows|
      invariant i <= |rows| && Recorded(input, seen[..], done + rows[..i]) && Accepted(input, done + rows[..i])
    {
      var row := rows[i];
      var claim := Identify(input, row);
      IdentifiedOrStranger(input, row);
      if claim.None? {
        return false, i;
      }
      IdentifiedIsExpected(input, row);
      var (left, slot) := claim.value;
      SlotInTable(input, seen[..], done + rows[..i], left, slot);
      var index := Index(input, left, slot);
      RecordNext(input, seen[..], done + rows[..i], left, slot);
      if seen[index] {
        return false, i;
      }
      seen[index] := true;
      assert done + rows[..i] + [row] == done + rows[..i + 1];
      i := i + 1;
    }
    assert rows[..i] == rows;
    return true, 0;
  }

  lemma SlotInTable(input: Input, seen: seq<bool>, done: seq<Row>, left: nat, slot: nat)
    requires input.keys > 0 && Recorded(input, seen, done) && left < input.rows && Live(input, left, slot)
    ensures Index(input, left, slot) < |seen|
  {
    hide Index;
    IndexInTable(input, left, slot);
  }

  predicate Accepted(input: Input, done: seq<Row>)
    requires input.keys > 0
  {
    NoRepeat(done) && forall row :: row in done ==> row in Expected(input, input.rows)
  }

  /** Run the checker over a query. */
  method Execute(input: Input, run: seq<Step>) returns (accepted: bool)
    requires input.keys > 0 && input.matches > 0 && WellShaped(run)
    ensures accepted <==> Completes(run, WIDTH) && multiset(Emitted(run)) == multiset(TrueJoin(input))
  {
    hide Recorded, Accepted, TrueJoin, Emitted, Completes, Reached;
    ReachStart(run, WIDTH);
    var seen := new bool[input.rows * (input.matches + 1)](_ => false);
    var expected := ExpectedRows(input);
    var count := 0;
    var finished := false;
    ghost var done: seq<Row> := [];
    var i := 0;
    RecordNone(input, seen[..]);
    NoneAccepted(input);
    while i < |run| && !finished
      invariant i <= |run| && count == |done| && seen.Length == input.rows * (input.matches + 1)
      invariant Recorded(input, seen[..], done) && Accepted(input, done)
      invariant if finished then Completes(run, WIDTH) && Emitted(run) == done else Reached(run, WIDTH, i, done)
    {
      var step := run[i];
      ReachNext(run, WIDTH, i, done);
      match step {
        case Progress =>
        case Finished => finished := true;
        case Failed => return false;
        case Rows(width, rows) =>
          if width != WIDTH {
            return false;
          }
          var ok, at := CheckBatch(input, rows, seen, done);
          if !ok {
            BadRow(input, done, rows, at, Emitted(run[i + 1..]));
            return false;
          }
          count := count + |rows|;
          done := done + rows;
      }
      i := i + 1;
    }
    Verdict(input, done);
    if !finished {
      ReachEnd(run, WIDTH, done);
    }
    return finished && count == expected;
  }

  lemma NoneAccepted(input: Input)
    requires input.keys > 0
    ensures Accepted(input, [])
  {
  }

  lemma BadRow(input: Input, done: seq<Row>, rows: seq<Row>, at: nat, rest: seq<Row>)
    requires input.keys > 0 && input.matches > 0 && at < |rows|
    requires rows[at] !in Expected(input, input.rows) || rows[at] in done + rows[..at]
    ensures multiset(done + rows + rest) != multiset(TrueJoin(input))
  {
    hide Expected, Join, Facts, Dimensions;
    JoinIsExpected(input, input.rows);
    ExpectedDistinct(input, input.rows);
    var front, back := done + rows[..at], rows[at + 1..] + rest;
    assert done + rows + rest == front + [rows[at]] + back;
    if rows[at] in front {
      RepeatSeparates(front, rows[at], back, Expected(input, input.rows));
    } else {
      StrangerSeparates(front, rows[at], back, Expected(input, input.rows));
    }
  }

  /** Accepted rows are distinct expected rows, so their number alone decides. */
  lemma Verdict(input: Input, done: seq<Row>)
    requires input.keys > 0 && input.matches > 0 && Accepted(input, done)
    ensures multiset(done) == multiset(TrueJoin(input)) <==> |done| == |TrueJoin(input)|
  {
    hide Expected, Join, Facts, Dimensions;
    JoinIsExpected(input, input.rows);
    ExpectedDistinct(input, input.rows);
    var all := Expected(input, input.rows);
    if |TrueJoin(input)| != |all| { LengthSeparates(TrueJoin(input), all); }
    if |done| == |all| {
      Pigeonhole(done, all);
    } else {
      LengthSeparates(done, all);
    }
  }
}
