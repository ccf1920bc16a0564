/** The set-operation oracle and its checker: counted rows combine as multisets, and a finished
    stream is accepted exactly when its rows are that multiset. */
module SetOracle {
  import opened Basics
  import opened Values
  import opened RowOrder
  import opened QueryRuns

  type Rows = seq<RowOrder.Row>

  /** A sorted map from rows to how often they occur. */
  type Counts = seq<(RowOrder.Row, nat)>

  datatype Operation = Except | ExceptAll | Intersect | IntersectAll

  predicate Sorted(c: Counts) {
    forall i, j :: 0 <= i < j < |c| ==> Below(c[i].0, c[j].0)
  }

  predicate Positive(c: Counts) {
    forall i :: 0 <= i < |c| ==> c[i].1 > 0
  }

  function AsMultiset(c: Counts): multiset<RowOrder.Row> {
    if c == [] then multiset{} else AsMultiset(c[1..]) + multiset{}[c[0].0 := c[0].1]
  }

  function TotalOf(c: Counts): nat {
    if c == [] then 0 else c[0].1 + TotalOf(c[1..])
  }

  lemma {:induction false} Cardinality(c: Counts)
    ensures |AsMultiset(c)| == TotalOf(c)
    decreases c
  {
    if c != [] {
      Cardinality(c[1..]);
      assert |multiset{}[c[0].0 := c[0].1]| == c[0].1;
    }
  }

  /** In a sorted map, a row's count is its entry's, or zero. */
  lemma {:induction false} Absent(c: Counts, row: RowOrder.Row)
    requires forall i :: 0 <= i < |c| ==> c[i].0 != row
    ensures AsMultiset(c)[row] == 0
    decreases c
  {
    if c != [] { Absent(c[1..], row); }
  }

  lemma {:induction false} CountAt(c: Counts, i: nat)
    requires Sorted(c) && i < |c|
    ensures AsMultiset(c)[c[i].0] == c[i].1
    decreases c
  {
    if i == 0 {
      forall j | 0 < j < |c| ensures c[j].0 != c[0].0 { Trichotomy(c[0].0, c[j].0); }
      Absent(c[1..], c[0].0);
    } else {
      Trichotomy(c[0].0, c[i].0);
      CountAt(c[1..], i - 1);
    }
  }

  lemma SameCounts(a: multiset<RowOrder.Row>, b: multiset<RowOrder.Row>)
    requires forall row :: a[row] == b[row]
    ensures a == b
  {
  }

  // Counting

  /** `*counts.entry(row).or_insert(0) += 1` on a sorted map. */
  function Bump(c: Counts, row: RowOrder.Row): Counts {
    if c == [] then [(row, 1)]
    else
      match Compare(row, c[0].0)
      case Less => [(row, 1)] + c
      case Equal => [(row, c[0].1 + 1)] + c[1..]
      case Greater => [c[0]] + Bump(c[1..], row)
  }

  lemma {:induction false} BumpCounts(c: Counts, row: RowOrder.Row)
    ensures AsMultiset(Bump(c, row)) == AsMultiset(c) + multiset{row}
    decreases c
  {
    hide Compare;
    if c != [] {
      Trichotomy(row, c[0].0);
      BumpCounts(c[1..], row);
      var b := Bump(c, row);
      if Compare(row, c[0].0).Less? {
        assert b[1..] == c;
      } else if Compare(row, c[0].0).Equal? {
        assert b[1..] == c[1..];
      } else {
        assert b[1..] == Bump(c[1..], row);
      }
    }
  }

  /** Counting a row adds no other row to the map. */
  lemma {:induction false} BumpRows(c: Counts, row: RowOrder.Row, i: nat)
    requires i < |Bump(c, row)|
    ensures Bump(c, row)[i].0 == row || exists j :: 0 <= j < |c| && c[j].0 == Bump(c, row)[i].0
    decreases c
  {
    hide Compare;
    if c != [] && Compare(row, c[0].0).Greater? {
      if i > 0 {
        BumpRows(c[1..], row, i - 1);
        if Bump(c, row)[i].0 != row {
          var j :| 0 <= j < |c[1..]| && c[1..][j].0 == Bump(c[1..], row)[i - 1].0;
          assert c[j + 1].0 == Bump(c, row)[i].0;
        }
      }
    } else if c != [] && Compare(row, c[0].0).Less? {
      if i > 0 { assert c[i - 1].0 == Bump(c, row)[i].0; }
    }
  }

  lemma {:induction false} BumpSorted(c: Counts, row: RowOrder.Row)
    requires Sorted(c) && Positive(c)
    ensures Sorted(Bump(c, row)) && Positive(Bump(c, row))
    decreases c
  {
    hide Compare, Below;
    if c != [] {
      BumpSorted(c[1..], row);
      BumpAbove(c, row);
    }
  }

  /** Everything the map holds after counting is in its place relative to the first row. */
  lemma BumpAbove(c: Counts, row: RowOrder.Row)
    requires Sorted(c) && c != []
    ensures Compare(row, c[0].0).Less? ==> Below(row, c[0].0) && forall j :: 0 < j < |c| ==> Below(row, c[j].0)
    ensures Compare(row, c[0].0).Equal? ==> row == c[0].0
    ensures Compare(row, c[0].0).Greater? ==>
      forall i :: 0 <= i < |Bump(c[1..], row)| ==> Below(c[0].0, Bump(c[1..], row)[i].0)
  {
    Trichotomy(row, c[0].0);
    if Compare(row, c[0].0).Less? {
      forall j | 0 < j < |c| ensures Below(row, c[j].0) { Transitive(row, c[0].0, c[j].0); }
    }
    if Compare(row, c[0].0).Greater? {
      var b := Bump(c[1..], row);
      forall i | 0 <= i < |b| ensures Below(c[0].0, b[i].0) {
        BumpRows(c[1..], row, i);
        if b[i].0 != row {
          var j :| 0 <= j < |c[1..]| && c[1..][j].0 == b[i].0;
          assert Below(c[0].0, c[j + 1].0);
        }
      }
    }
  }

  lemma OneMore(input: Rows, i: nat)
    requires i < |input|
    ensures multiset(input[..i + 1]) == multiset(input[..i]) + multiset{input[i]}
  {
    assert input[..i + 1] == input[..i] + [input[i]];
  }

  method Count(input: Rows) returns (c: Counts)
    ensures Sorted(c) && Positive(c) && AsMultiset(c) == multiset(input)
  {
    c := [];
    assert AsMultiset(c) == multiset(input[..0]);
    hide Bump, Sorted, Positive, AsMultiset;
    var i := 0;
    while i < |input|
      invariant i <= |input| && Sorted(c) && Positive(c) && AsMultiset(c) == multiset(input[..i])
    {
      BumpSorted(c, input[i]);
      BumpCounts(c, input[i]);
      OneMore(input, i);
      c := Bump(c, input[i]);
      i := i + 1;
    }
    assert input[..i] == input;
  }

  // The operations

  function Copies(op: Operation, left: nat, right: nat): nat {
    match op
    case Except => if right == 0 then 1 else 0
    case ExceptAll => if left >= right then left - right else 0
    case Intersect => if right != 0 then 1 else 0
    case IntersectAll => if left <= right then left else right
  }

  function Lookup(c: Counts, row: RowOrder.Row): nat {
    if c == [] then 0 else if c[0].0 == row then c[0].1 else Lookup(c[1..], row)
  }

  lemma {:induction false} LookupCounts(c: Counts, row: RowOrder.Row)
    requires Sorted(c)
    ensures Lookup(c, row) == AsMultiset(c)[row]
    decreases c
  {
    if c != [] {
      if c[0].0 == row {
        CountAt(c, 0);
      } else {
        LookupCounts(c[1..], row);
      }
    }
  }

  function Combine(left: Counts, right: Counts, op: Operation): Counts {
    if left == [] then []
    else
      var copies := Copies(op, left[0].1, Lookup(right, left[0].0));
      (if copies != 0 then [(left[0].0, copies)] else []) + Combine(left[1..], right, op)
  }

  lemma {:induction false} CombineRows(left: Counts, right: Counts, op: Operation, i: nat)
    requires i < |Combine(left, right, op)|
    ensures Combine(left, right, op)[i].1 > 0
    ensures exists j :: 0 <= j < |left| && left[j].0 == Combine(left, right, op)[i].0
    decreases left
  {
    var kept := |Combine(left, right, op)| - |Combine(left[1..], right, op)|;
    if i >= kept {
      CombineRows(left[1..], right, op, i - kept);
      var j :| 0 <= j < |left[1..]| && left[1..][j].0 == Combine(left[1..], right, op)[i - kept].0;
      assert left[j + 1].0 == Combine(left, right, op)[i].0;
    }
  }

  lemma {:induction false} CombineSorted(left: Counts, right: Counts, op: Operation)
    requires Sorted(left)
    ensures Sorted(Combine(left, right, op)) && Positive(Combine(left, right, op))
    decreases left
  {
    if left != [] {
      var rest := Combine(left[1..], right, op);
      CombineSorted(left[1..], right, op);
      forall i | 0 <= i < |rest| ensures Below(left[0].0, rest[i].0) {
        CombineRows(left[1..], right, op, i);
        var j :| 0 <= j < |left[1..]| && left[1..][j].0 == rest[i].0;
        assert Below(left[0].0, left[j + 1].0);
      }
    }
  }

  /** Each row of the left input gets its copies; no other row appears. */
  lemma {:induction false} CombineCounts(left: Counts, right: Counts, op: Operation, row: RowOrder.Row)
    requires Sorted(left) && Positive(left) && Sorted(right)
    ensures AsMultiset(Combine(left, right, op))[row] ==
      if row in AsMultiset(left) then Copies(op, AsMultiset(left)[row], AsMultiset(right)[row]) else 0
    decreases left
  {
    if left != [] {
      hide Compare, Copies, Lookup;
      CombineCounts(left[1..], right, op, row);
      LookupCounts(right, left[0].0);
      CountAt(left, 0);
      var all, rest := Combine(left, right, op), Combine(left[1..], right, op);
      var copies := Copies(op, left[0].1, Lookup(right, left[0].0));
      if copies != 0 {
        assert all[1..] == rest;
      } else {
        assert all == rest;
      }
      if row == left[0].0 {
        forall j | 0 < j < |left| ensures left[j].0 != row { Trichotomy(left[0].0, left[j].0); }
        Absent(left[1..], row);
      }
    }
  }

  /** SQL's meaning: DISTINCT works on the sets of rows, ALL on the multisets. */
  function Meaning(op: Operation, left: multiset<RowOrder.Row>, right: multiset<RowOrder.Row>): multiset<RowOrder.Row> {
    match op
    case Except => multiset(Support(left) - Support(right))
    case ExceptAll => left - right
    case Intersect => multiset(Support(left) * Support(right))
    case IntersectAll => left * right
  }

  function Support(m: multiset<RowOrder.Row>): set<RowOrder.Row> { set row | row in m }

  lemma CombineMeans(left: Counts, right: Counts, op: Operation)
    requires Sorted(left) && Positive(left) && Sorted(right)
    ensures AsMultiset(Combine(left, right, op)) == Meaning(op, AsMultiset(left), AsMultiset(right))
  {
    hide Combine, AsMultiset, Sorted, Positive;
    var meaning := Meaning(op, AsMultiset(left), AsMultiset(right));
    forall row ensures AsMultiset(Combine(left, right, op))[row] == meaning[row] {
      CombineCounts(left, right, op, row);
    }
    SameCounts(AsMultiset(Combine(left, right, op)), meaning);
  }

  /** The oracle's own answers fit together: what EXCEPT ALL removes from the left input
      INTERSECT ALL keeps, the two DISTINCT operations divide its distinct rows, and an
      intersection does not depend on which input comes first. */
  lemma DifferenceAndIntersection(left: Counts, right: Counts)
    requires Sorted(left) && Positive(left) && Sorted(right) && Positive(right)
    ensures AsMultiset(Combine(left, right, ExceptAll)) + AsMultiset(Combine(left, right, IntersectAll))
      == AsMultiset(left)
    ensures AsMultiset(Combine(left, right, Except)) + AsMultiset(Combine(left, right, Intersect))
      == multiset(Support(AsMultiset(left)))
    ensures AsMultiset(Combine(left, right, IntersectAll)) == AsMultiset(Combine(right, left, IntersectAll))
    ensures AsMultiset(Combine(left, right, Intersect)) == AsMultiset(Combine(right, left, Intersect))
  {
    hide Combine, AsMultiset, Sorted, Positive;
    var all := AsMultiset(Combine(left, right, ExceptAll)) + AsMultiset(Combine(left, right, IntersectAll));
    var once := AsMultiset(Combine(left, right, Except)) + AsMultiset(Combine(left, right, Intersect));
    forall row ensures all[row] == AsMultiset(left)[row] && once[row] == multiset(Support(AsMultiset(left)))[row] {
      CombineCounts(left, right, ExceptAll, row);
      CombineCounts(left, right, IntersectAll, row);
      CombineCounts(left, right, Except, row);
      CombineCounts(left, right, Intersect, row);
    }
    SameCounts(all, AsMultiset(left));
    SameCounts(once, multiset(Support(AsMultiset(left))));
    forall op | op == Intersect || op == IntersectAll
      ensures AsMultiset(Combine(left, right, op)) == AsMultiset(Combine(right, left, op))
    {
      IntersectionSymmetric(left, right, op);
    }
  }

  lemma IntersectionSymmetric(left: Counts, right: Counts, op: Operation)
    requires Sorted(left) && Positive(left) && Sorted(right) && Positive(right)
    requires op == Intersect || op == IntersectAll
    ensures AsMultiset(Combine(left, right, op)) == AsMultiset(Combine(right, left, op))
  {
    hide Combine, AsMultiset, Sorted, Positive;
    forall row ensures AsMultiset(Combine(left, right, op))[row] == AsMultiset(Combine(right, left, op))[row] {
      CombineCounts(left, right, op, row);
      CombineCounts(right, left, op, row);
    }
    SameCounts(AsMultiset(Combine(left, right, op)), AsMultiset(Combine(right, left, op)));
  }

  datatype Expectation = Expectation(rows: Counts, total: nat)

  predicate Proper(e: Expectation) {
    Sorted(e.rows) && Positive(e.rows) && e.total == TotalOf(e.rows)
  }

  method ExpectedRows(left: Rows, right: Rows, op: Operation) returns (e: Expectation)
    ensures Proper(e) && AsMultiset(e.rows) == Meaning(op, multiset(left), multiset(right))
  {
    var rights := Count(right);
    var lefts := Count(left);
    CombineMeans(lefts, rights, op);
    CombineSorted(lefts, rights, op);
    var rows := Combine(lefts, rights, op);
    return Expectation(rows, TotalOf(rows));
  }

  // The checker

  const WIDTH: nat := 2

  /** A result row, if its columns have the expected types. */
  function Decode(row: QueryRuns.Row): Option<RowOrder.Row>
    requires |row| == WIDTH
  {
    if (row[0].Null? || row[0].Int64?) && (row[1].Null? || row[1].Text?) then
      Some(Row(if row[0].Null? then None else Some(row[0].integer), if row[1].Null? then None else Some(row[1].text)))
    else None
  }

  /** The result row that stands for an expected row: its key as INT64 or NULL, its text as STRING
      or NULL. */
  function Encoded(row: RowOrder.Row): QueryRuns.Row {
    [match row.key case Some(key) => Int64(key) case None => Null,
     match row.text case Some(text) => Text(text) case None => Null]
  }

  /** Decoding undoes exactly that, and refuses every other row of two columns. */
  lemma DecodeInverts(row: QueryRuns.Row, expected: RowOrder.Row)
    requires |row| == WIDTH
    ensures Decode(row) == Some(expected) <==> row == Encoded(expected)
  {
  }

  lemma EncodedDecodes(row: RowOrder.Row)
    ensures |Encoded(row)| == WIDTH && Decode(Encoded(row)) == Some(row)
  {
  }

  /** The result rows of a whole expectation. */
  function EncodedRows(c: Counts): multiset<QueryRuns.Row> {
    if c == [] then multiset{} else EncodedRows(c[1..]) + multiset{}[Encoded(c[0].0) := c[0].1]
  }

  lemma {:induction false} EncodedCount(c: Counts, row: RowOrder.Row)
    ensures EncodedRows(c)[Encoded(row)] == AsMultiset(c)[row]
    decreases c
  {
    if c != [] {
      EncodedCount(c[1..], row);
      EncodedDecodes(row);
      EncodedDecodes(c[0].0);
      hide Encoded, Decode;
    }
  }

  lemma {:induction false} OnlyEncoded(c: Counts, row: QueryRuns.Row)
    requires |row| != WIDTH || Decode(row).None?
    ensures EncodedRows(c)[row] == 0
    decreases c
  {
    if c != [] {
      OnlyEncoded(c[1..], row);
      EncodedDecodes(c[0].0);
      hide Encoded, Decode;
    }
  }

  predicate Decodable(rows: seq<QueryRuns.Row>) {
    forall i :: 0 <= i < |rows| ==> |rows[i]| == WIDTH && Decode(rows[i]).Some?
  }

  function Decoded(rows: seq<QueryRuns.Row>): Rows
    requires Decodable(rows)
  {
    seq(|rows|, i requires 0 <= i < |rows| => Decode(rows[i]).value)
  }

  /** Binary search by key, then by text. */
  method Search(c: Counts, row: RowOrder.Row) returns (found: Option<nat>)
    requires Sorted(c)
    ensures found.Some? ==> found.value < |c| && c[found.value].0 == row
    ensures found.None? ==> forall i :: 0 <= i < |c| ==> c[i].0 != row
  {
    var low, high := 0, |c|;
    while low < high
      invariant 0 <= low <= high <= |c|
      invariant forall i :: 0 <= i < low ==> Below(c[i].0, row)
      invariant forall i :: high <= i < |c| ==> Below(row, c[i].0)
    {
      var middle := (low + high) / 2;
      Trichotomy(c[middle].0, row);
      match Compare(c[middle].0, row) {
        case Less =>
          forall i | 0 <= i < middle ensures Below(c[i].0, row) { Transitive(c[i].0, c[middle].0, row); }
          low := middle + 1;
        case Greater =>
          forall i | middle < i < |c| ensures Below(row, c[i].0) { Transitive(row, c[middle].0, c[i].0); }
          high := middle;
        case Equal => return Some(middle);
      }
    }
    forall i | 0 <= i < |c| ensures c[i].0 != row {
      Trichotomy(c[i].0, row);
    }
    return None;
  }

  /** How often each expected row has been seen so far, never more than expected, and no other row. */
  predicate Tallied(e: Expectation, seen: seq<nat>, done: Rows) {
    && |seen| == |e.rows|
    && (forall i :: 0 <= i < |seen| ==> seen[i] == multiset(done)[e.rows[i].0] <= e.rows[i].1)
    && multiset(done) <= AsMultiset(e.rows)
  }

  lemma TallyNext(e: Expectation, seen: seq<nat>, done: Rows, at: nat)
    requires Proper(e) && Tallied(e, seen, done) && at < |seen|
    ensures seen[at] < e.rows[at].1 ==> Tallied(e, seen[at := seen[at] + 1], done + [e.rows[at].0])
    ensures seen[at] == e.rows[at].1 ==> !(multiset(done + [e.rows[at].0]) <= AsMultiset(e.rows))
  {
    hide AsMultiset;
    var row := e.rows[at].0;
    assert multiset(done + [row]) == multiset(done) + multiset{row};
    CountAt(e.rows, at);
    forall i | 0 <= i < |seen| && i != at ensures e.rows[i].0 != row {
      Trichotomy(e.rows[i].0, row);
      assert Below(e.rows[i].0, row) || Below(row, e.rows[i].0);
    }
  }

  /** With every count reached, nothing is missing; with one short, something is. */
  lemma TallyDone(e: Expectation, seen: seq<nat>, done: Rows)
    requires Proper(e) && Tallied(e, seen, done)
    ensures multiset(done) == AsMultiset(e.rows) <==>
      |done| == e.total && forall i :: 0 <= i < |seen| ==> seen[i] == e.rows[i].1
  {
    Cardinality(e.rows);
    assert |multiset(done)| == |done|;
    hide AsMultiset;
    if multiset(done) == AsMultiset(e.rows) {
      forall i | 0 <= i < |seen| ensures seen[i] == e.rows[i].1 { CountAt(e.rows, i); }
    }
    if forall i :: 0 <= i < |seen| ==> seen[i] == e.rows[i].1 {
      forall row ensures multiset(done)[row] == AsMultiset(e.rows)[row] {
        if i :| 0 <= i < |e.rows| && e.rows[i].0 == row {
          CountAt(e.rows, i);
        } else {
          Absent(e.rows, row);
        }
      }
      SameCounts(multiset(done), AsMultiset(e.rows));
    }
  }

  /** These rows cannot be part of the expected answer. */
  predicate Exceeds(e: Expectation, rows: seq<QueryRuns.Row>) {
    !Decodable(rows) || !(multiset(Decoded(rows)) <= AsMultiset(e.rows))
  }

  lemma DecodeNext(done: seq<QueryRuns.Row>, row: QueryRuns.Row)
    requires Decodable(done) && |row| == WIDTH
    ensures Decodable(done + [row]) <==> Decode(row).Some?
    ensures Decode(row).Some? ==> Decoded(done + [row]) == Decoded(done) + [Decode(row).value]
  {
    hide Decode;
    assert (done + [row])[|done|] == row;
  }

  lemma Unexpected(e: Expectation, done: Rows, row: RowOrder.Row)
    requires forall i :: 0 <= i < |e.rows| ==> e.rows[i].0 != row
    ensures !(multiset(done + [row]) <= AsMultiset(e.rows))
  {
    Absent(e.rows, row);
    hide AsMultiset;
    assert multiset(done + [row])[row] > 0;
  }

  /** Accept one row, or show that the rows so far already differ from every answer. */
  method CheckRow(e: Expectation, row: QueryRuns.Row, seen: array<nat>,
                  ghost done: seq<QueryRuns.Row>) returns (ok: bool)
    requires Proper(e) && |row| == WIDTH && Decodable(done) && Tallied(e, seen[..], Decoded(done))
    modifies seen
    ensures ok ==> Decodable(done + [row]) && Tallied(e, seen[..], Decoded(done + [row]))
    ensures !ok ==> Exceeds(e, done + [row])
  {
    hide Decode, Decodable, Decoded, AsMultiset;
    DecodeNext(done, row);
    var decoded := Decode(row);
    if decoded.None? {
      return false;
    }
    var found := Search(e.rows, decoded.value);
    if found.None? {
      Unexpected(e, Decoded(done), decoded.value);
      return false;
    }
    var index := found.value;
    TallyNext(e, seen[..], Decoded(done), index);
    ghost var before := seen[..];
    seen[index] := seen[index] + 1;
    assert seen[..] == before[index := before[index] + 1];
    return seen[index] <= e.rows[index].1;
  }

  method CheckBatch(e: Expectation, rows: seq<QueryRuns.Row>, seen: array<nat>, ghost done: seq<QueryRuns.Row>)
    returns (ok: bool, ghost at: nat)
    requires Proper(e) && forall k :: 0 <= k < |rows| ==> |rows[k]| == WIDTH
    requires Decodable(done) && Tallied(e, seen[..], Decoded(done))
    modifies seen
    ensures ok ==> Decodable(done + rows) && Tallied(e, seen[..], Decoded(done + rows))
    ensures !ok ==> at < |rows| && Exceeds(e, done + rows[..at + 1])
  {
    hide Tallied, Decodable, Decoded, Proper, Exceeds;
    at := 0;
    var i := 0;
    assert done + rows[..0] == done;
    while i < |rows|
      invariant i <= |rows| && Decodable(done + rows[..i]) && Tallied(e, seen[..], Decoded(done + rows[..i]))
    {
      assert done + rows[..i + 1] == done + rows[..i] + [rows[i]];
      ok := CheckRow(e, rows[i], seen, done + rows[..i]);
      if !ok {
        return false, i;
      }
      i := i + 1;
    }
    assert rows[..i] == rows;
    return true, 0;
  }

  /** The run's rows are exactly the expected answer, in any order. */
  predicate Answers(e: Expectation, rows: seq<QueryRuns.Row>) {
    Decodable(rows) && multiset(Decoded(rows)) == AsMultiset(e.rows)
  }

  lemma {:induction false} DecodedCount(rows: seq<QueryRuns.Row>, row: RowOrder.Row)
    requires Decodable(rows)
    ensures multiset(rows)[Encoded(row)] == multiset(Decoded(rows))[row]
    decreases rows
  {
    hide Encoded, Decode;
    if rows == [] {
      assert Decoded(rows) == [];
    } else {
      var front, last := rows[..|rows| - 1], rows[|rows| - 1];
      assert rows == front + [last];
      forall i | 0 <= i < |front| ensures |front[i]| == WIDTH && Decode(front[i]).Some? { assert front[i] == rows[i]; }
      DecodedCount(front, row);
      DecodeNext(front, last);
      DecodeInverts(last, row);
      assert |last| == WIDTH && Decode(last).Some?;
    }
  }

  /** An answer, in terms of the result rows themselves. */
  lemma AnswersEncoded(e: Expectation, rows: seq<QueryRuns.Row>)
    ensures Answers(e, rows) <==> multiset(rows) == EncodedRows(e.rows)
  {
    hide Encoded, Decode, EncodedRows, AsMultiset, Decoded;
    if Decodable(rows) {
      forall row: QueryRuns.Row | multiset(Decoded(rows)) == AsMultiset(e.rows)
        ensures multiset(rows)[row] == EncodedRows(e.rows)[row]
      {
        if |row| == WIDTH && Decode(row).Some? {
          DecodeInverts(row, Decode(row).value);
          DecodedCount(rows, Decode(row).value);
          EncodedCount(e.rows, Decode(row).value);
        } else {
          OnlyEncoded(e.rows, row);
        }
      }
      forall row: RowOrder.Row | multiset(rows) == EncodedRows(e.rows)
        ensures multiset(Decoded(rows))[row] == AsMultiset(e.rows)[row]
      {
        DecodedCount(rows, row);
        EncodedCount(e.rows, row);
      }
      SameRows(rows, e);
    } else {
      var i :| 0 <= i < |rows| && !(|rows[i]| == WIDTH && Decode(rows[i]).Some?);
      OnlyEncoded(e.rows, rows[i]);
      assert multiset(rows)[rows[i]] > 0;
    }
  }

  /** Equal counts make equal multisets. */
  lemma SameRows(rows: seq<QueryRuns.Row>, e: Expectation)
    requires Decodable(rows)
    ensures (forall row :: multiset(rows)[row] == EncodedRows(e.rows)[row]) ==> multiset(rows) == EncodedRows(e.rows)
    ensures (forall row :: multiset(Decoded(rows))[row] == AsMultiset(e.rows)[row]) ==>
      multiset(Decoded(rows)) == AsMultiset(e.rows)
  {
  }

  lemma ExceedsMore(e: Expectation, rows: seq<QueryRuns.Row>, more: seq<QueryRuns.Row>)
    requires Exceeds(e, rows)
    ensures !Answers(e, rows + more)
  {
    hide Decode;
    if Decodable(rows + more) {
      forall i | 0 <= i < |rows| ensures |rows[i]| == WIDTH && Decode(rows[i]).Some? {
        assert (rows + more)[i] == rows[i];
      }
      assert Decoded(rows + more) == Decoded(rows) + Decoded(rows + more)[|rows|..];
    }
  }

  /** Run the checker over a query: accepted exactly when it finishes and its rows are, in any
      order, the result rows of the expectation. */
  method Execute(e: Expectation, run: seq<Step>) returns (accepted: bool)
    requires Proper(e) && WellShaped(run)
    ensures accepted <==> Completes(run, WIDTH) && multiset(Emitted(run)) == EncodedRows(e.rows)
  {
    AnswersEncoded(e, Emitted(run));
    accepted := Judge(e, run);
  }

  method Judge(e: Expectation, run: seq<Step>) returns (accepted: bool)
    requires Proper(e) && WellShaped(run)
    ensures accepted <==> Completes(run, WIDTH) && Answers(e, Emitted(run))
  {
    hide Tallied, Decodable, Decoded, Proper, Exceeds, Answers, Emitted, Completes, Reached, AsMultiset;
    var seen := new nat[|e.rows|](_ => 0);
    var count := 0;
    var finished := false;
    ghost var done: seq<QueryRuns.Row> := [];
    var i := 0;
    ReachStart(run, WIDTH);
    NothingTallied(e, seen[..]);
    while i < |run| && !finished
      invariant i <= |run| && count == |done| && Decodable(done) && Tallied(e, seen[..], Decoded(done))
      invariant if finished then Completes(run, WIDTH) && Emitted(run) == done else Reached(run, WIDTH, i, done)
    {
      var step := run[i];
      ReachNext(run, WIDTH, i, done);
      match step {
        case Progress =>
        case Finished => finished := true;
        case Failed => return false;
        case Rows(width, rows) =>
          if width != WIDTH {
            return false;
          }
          var ok, at := CheckBatch(e, rows, seen, done);
          if !ok {
            assert done + rows + Emitted(run[i + 1..])
              == (done + rows[..at + 1]) + (rows[at + 1..] + Emitted(run[i + 1..]));
            ExceedsMore(e, done + rows[..at + 1], rows[at + 1..] + Emitted(run[i + 1..]));
            return false;
          }
          count := count + |rows|;
          done := done + rows;
      }
      i := i + 1;
    }
    Verdict(e, seen[..], done);
    if !finished {
      ReachEnd(run, WIDTH, done);
      return false;
    }
    if count != e.total {
      return false;
    }
    var all := AllCounted(e, seen);
    return all;
  }

  method AllCounted(e: Expectation, seen: array<nat>) returns (all: bool)
    requires seen.Length == |e.rows|
    ensures all <==> forall i :: 0 <= i < |seen[..]| ==> seen[..][i] == e.rows[i].1
  {
    var i := 0;
    while i < seen.Length
      invariant i <= seen.Length && forall k :: 0 <= k < i ==> seen[..][k] == e.rows[k].1
    {
      if seen[i] != e.rows[i].1 {
        assert seen[..][i] != e.rows[i].1;
        return false;
      }
      i := i + 1;
    }
    return true;
  }

  lemma NothingTallied(e: Expectation, seen: seq<nat>)
    requires |seen| == |e.rows| && forall i :: 0 <= i < |seen| ==> seen[i] == 0
    ensures Decodable([]) && Tallied(e, seen, Decoded([]))
  {
    assert Decoded([]) == [];
  }

  lemma Verdict(e: Expectation, seen: seq<nat>, done: seq<QueryRuns.Row>)
    requires Proper(e) && Decodable(done) && Tallied(e, seen, Decoded(done))
    ensures |seen| == |e.rows|
    ensures Answers(e, done) <==> |done| == e.total && forall i :: 0 <= i < |seen| ==> seen[i] == e.rows[i].1
  {
    TallyDone(e, seen, Decoded(done));
  }
}
