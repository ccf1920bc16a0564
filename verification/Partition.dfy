/** Cutting a decoded batch into native units so that every STRING column of every unit
    fits the native column bound. */
module Partition {
  import opened Basics
  import opened Cancellation
  import opened Values
  import opened Input

  function TextSum(batch: InputBatch, column: nat, start: nat, end: nat): nat
    requires batch.Valid() && start <= end
    decreases end - start
  {
    if start == end then 0
    else TextSum(batch, column, start, end - 1) + batch.TextBytes(end - 1, column).UnwrapOr(0)
  }

  /** Bytes a native STRING column needs for these rows: validity, offsets and text. */
  function Size(batch: InputBatch, column: nat, start: nat, end: nat): nat
    requires batch.Valid() && start <= end
  {
    DivCeil(end - start, 8) + (end - start + 1) * 4 + TextSum(batch, column, start, end)
  }

  /** Every STRING column of rows `start..end` is within the bound. */
  predicate Fits(batch: InputBatch, kinds: seq<DataType>, limit: nat, start: nat, end: nat)
    requires batch.Valid() && start <= end
  {
    forall c :: 0 <= c < |kinds| && kinds[c].STRING? ==> Size(batch, c, start, end) <= limit
  }

  predicate FitsAlone(batch: InputBatch, kinds: seq<DataType>, limit: nat, row: nat)
    requires batch.Valid()
  {
    Fits(batch, kinds, limit, row, row + 1)
  }

  lemma {:induction false} TextSumWithin(batch: InputBatch, column: nat, a: nat, b: nat, c: nat, d: nat)
    requires batch.Valid() && a <= b <= c <= d
    ensures TextSum(batch, column, b, c) <= TextSum(batch, column, a, d)
    decreases d - a
  {
    if c < d {
      TextSumWithin(batch, column, a, b, c, d - 1);
    } else if b < c {
      TextSumWithin(batch, column, a, b, c - 1, d - 1);
    }
  }

  /** Fewer rows never need more: what fits still fits when cut on either side. */
  lemma FitsWithin(batch: InputBatch, kinds: seq<DataType>, limit: nat, a: nat, b: nat, c: nat, d: nat)
    requires batch.Valid() && a <= b <= c <= d && Fits(batch, kinds, limit, a, d)
    ensures Fits(batch, kinds, limit, b, c)
  {
    forall k | 0 <= k < |kinds| && kinds[k].STRING? ensures Size(batch, k, b, c) <= limit {
      TextSumWithin(batch, k, a, b, c, d);
      assert Size(batch, k, a, d) <= limit;
    }
  }

  datatype End = Row(end: nat) | Cancelled | Corrupt

  /** As many rows as fit: they do, and one more would not. */
  predicate Longest(batch: InputBatch, kinds: seq<DataType>, limit: nat, start: nat, end: nat)
    requires batch.Valid()
  {
    && start < end <= batch.RowCount()
    && Fits(batch, kinds, limit, start, end)
    && (end < batch.RowCount() ==> !Fits(batch, kinds, limit, start, end + 1))
  }

  /** Add one row's text to the running sums, until a column outgrows the bound. */
  method AddRow(batch: InputBatch, kinds: seq<DataType>, limit: nat, start: nat, row: nat, text: array<nat>)
    returns (fits: bool)
    requires batch.Valid() && |kinds| == batch.columns <= text.Length && start <= row < batch.RowCount()
    requires forall c :: 0 <= c < |kinds| && kinds[c].STRING? ==> text[c] == TextSum(batch, c, start, row)
    modifies text
    ensures fits == Fits(batch, kinds, limit, start, row + 1)
    ensures fits ==> forall c :: 0 <= c < |kinds| && kinds[c].STRING? ==> text[c] == TextSum(batch, c, start, row + 1)
  {
    var rows := row - start + 1;
    var column := 0;
    while column < |kinds|
      invariant column <= |kinds|
      invariant forall c :: column <= c < |kinds| && kinds[c].STRING? ==> text[c] == TextSum(batch, c, start, row)
      invariant forall c :: 0 <= c < column && kinds[c].STRING? ==>
        text[c] == TextSum(batch, c, start, row + 1) && Size(batch, c, start, row + 1) <= limit
    {
      if kinds[column].STRING? {
        match batch.TextBytes(row, column) {
          case Some(bytes) => text[column] := text[column] + bytes;
          case None =>
        }
        var bytes := DivCeil(rows, 8) + (rows + 1) * 4 + text[column];
        assert bytes == Size(batch, column, start, row + 1);
        if bytes > limit {
          return false;
        }
      }
      column := column + 1;
    }
    return true;
  }

  /** The end of the longest piece from `start`, with one check for each row looked at. */
  method NextEnd(batch: InputBatch, kinds: seq<DataType>, limit: nat, start: nat, token: Token) returns (r: End)
    requires batch.Valid() && |kinds| == batch.columns <= MAX_COLUMNS
    modifies token
    ensures r.Cancelled? ==> token.Requested() && start < batch.RowCount()
    ensures token.found == (old(token.found) || r.Cancelled?)
    ensures start < batch.RowCount() && old(token.Requested()) ==> r.Cancelled?
    ensures r.Row? && start < batch.RowCount() ==>
      token.at == old(token.at) + (r.end - start) + (if r.end < batch.RowCount() then 1 else 0)
    ensures r.Row? && start < batch.RowCount() ==> Longest(batch, kinds, limit, start, r.end)
    ensures start >= batch.RowCount() ==> r == Row(batch.RowCount())
    ensures r.Corrupt? ==> start < batch.RowCount() && !FitsAlone(batch, kinds, limit, start)
  {
    hide Fits, TextSum, InputBatch.RowCount;
    var text := new nat[MAX_COLUMNS](_ => 0);
    NothingSummed(batch, start);
    var row := start;
    while row < batch.RowCount()
      invariant start <= row && (row > start ==> row <= batch.RowCount() && Fits(batch, kinds, limit, start, row))
      invariant forall c :: 0 <= c < |kinds| && kinds[c].STRING? ==> text[c] == TextSum(batch, c, start, row)
      invariant token.found == old(token.found) && token.at == old(token.at) + (row - start)
      invariant row > start ==> !old(token.Requested())
      decreases batch.RowCount() - row
    {
      var cancelled := token.Check();
      if cancelled {
        return Cancelled;
      }
      var fits := AddRow(batch, kinds, limit, start, row, text);
      if !fits {
        return if row == start then Corrupt else Row(row);
      }
      row := row + 1;
    }
    return Row(batch.RowCount());
  }

  lemma LongestBounds(batch: InputBatch, kinds: seq<DataType>, limit: nat, start: nat, end: nat)
    requires batch.Valid() && Longest(batch, kinds, limit, start, end)
    ensures start < end <= batch.RowCount() && Fits(batch, kinds, limit, start, end)
  {
  }

  lemma NothingSummed(batch: InputBatch, start: nat)
    requires batch.Valid()
    ensures forall c: nat :: c < batch.columns ==> TextSum(batch, c, start, start) == 0
  {
  }

  /** Consecutive pieces, named by their ends, from `start` to the last row. */
  predicate Pieces(batch: InputBatch, kinds: seq<DataType>, limit: nat, start: nat, ends: seq<nat>)
    requires batch.Valid()
    decreases ends
  {
    if ends == [] then start == batch.RowCount()
    else
      && start < ends[0] <= batch.RowCount()
      && Fits(batch, kinds, limit, start, ends[0])
      && Pieces(batch, kinds, limit, ends[0], ends[1..])
  }

  predicate Greedy(batch: InputBatch, kinds: seq<DataType>, limit: nat, start: nat, ends: seq<nat>)
    requires batch.Valid()
    decreases ends
  {
    if ends == [] then start == batch.RowCount()
    else Longest(batch, kinds, limit, start, ends[0]) && Greedy(batch, kinds, limit, ends[0], ends[1..])
  }

  lemma {:induction false} GreedyIsPieces(batch: InputBatch, kinds: seq<DataType>, limit: nat, start: nat,
                                          ends: seq<nat>)
    requires batch.Valid() && Greedy(batch, kinds, limit, start, ends)
    ensures Pieces(batch, kinds, limit, start, ends)
    decreases ends
  {
    if ends != [] { GreedyIsPieces(batch, kinds, limit, ends[0], ends[1..]); }
  }

  /** Whatever valid pieces reach from `behind`, greedy pieces from a row at least as far on
      are no more. */
  lemma {:induction false} GreedyStaysAhead(batch: InputBatch, kinds: seq<DataType>, limit: nat,
                                            ahead: nat, greedy: seq<nat>, behind: nat, other: seq<nat>)
    requires batch.Valid() && behind <= ahead
    requires Greedy(batch, kinds, limit, ahead, greedy) && Pieces(batch, kinds, limit, behind, other)
    ensures |greedy| <= |other|
    decreases other
  {
    if greedy != [] && other != [] {
      if other[0] <= ahead {
        GreedyStaysAhead(batch, kinds, limit, ahead, greedy, other[0], other[1..]);
      } else {
        FitsWithin(batch, kinds, limit, behind, ahead, other[0], other[0]);
        if greedy[0] < other[0] {
          FitsWithin(batch, kinds, limit, ahead, ahead, greedy[0] + 1, other[0]);
        }
        GreedyStaysAhead(batch, kinds, limit, greedy[0], greedy[1..], other[0], other[1..]);
      }
    }
  }

  lemma {:induction false} PiecesHoldEachRow(batch: InputBatch, kinds: seq<DataType>, limit: nat, start: nat,
                                             ends: seq<nat>, row: nat)
    requires batch.Valid() && Pieces(batch, kinds, limit, start, ends) && start <= row < batch.RowCount()
    ensures FitsAlone(batch, kinds, limit, row)
    decreases ends
  {
    if row < ends[0] {
      FitsWithin(batch, kinds, limit, start, row, row + 1, ends[0]);
    } else {
      PiecesHoldEachRow(batch, kinds, limit, ends[0], ends[1..], row);
    }
  }

  lemma {:induction false} GreedyThen(batch: InputBatch, kinds: seq<DataType>, limit: nat, start: nat,
                                      ends: seq<nat>, middle: nat, end: nat)
    requires batch.Valid() && GreedyTo(batch, kinds, limit, start, ends, middle)
    requires Longest(batch, kinds, limit, middle, end)
    ensures GreedyTo(batch, kinds, limit, start, ends + [end], end)
    decreases ends
  {
    if ends != [] {
      GreedyThen(batch, kinds, limit, ends[0], ends[1..], middle, end);
      assert (ends + [end])[1..] == ends[1..] + [end];
    }
  }

  /** Greedy pieces that have reached `reached` so far. */
  predicate GreedyTo(batch: InputBatch, kinds: seq<DataType>, limit: nat, start: nat, ends: seq<nat>, reached: nat)
    requires batch.Valid()
    decreases ends
  {
    if ends == [] then start == reached
    else Longest(batch, kinds, limit, start, ends[0]) && GreedyTo(batch, kinds, limit, ends[0], ends[1..], reached)
  }

  lemma {:induction false} GreedyToEnd(batch: InputBatch, kinds: seq<DataType>, limit: nat, start: nat, ends: seq<nat>)
    requires batch.Valid() && GreedyTo(batch, kinds, limit, start, ends, batch.RowCount())
    ensures Greedy(batch, kinds, limit, start, ends)
    decreases ends
  {
    if ends != [] { GreedyToEnd(batch, kinds, limit, ends[0], ends[1..]); }
  }

  datatype Cut = Cut(ends: seq<nat>) | Stopped | Unfit

  /** The importer's loop over one batch: the fewest pieces of any valid cutting, or the
      refusal of a batch that has no valid cutting at all. */
  method CutBatch(batch: InputBatch, kinds: seq<DataType>, limit: nat, token: Token) returns (r: Cut)
    requires batch.Valid() && |kinds| == batch.columns <= MAX_COLUMNS
    modifies token
    ensures r.Stopped? ==> token.Requested()
    ensures token.found == (old(token.found) || r.Stopped?)
    ensures batch.RowCount() > 0 && old(token.Requested()) ==> r.Stopped?
    ensures r.Cut? ==> Pieces(batch, kinds, limit, 0, r.ends)
    ensures r.Cut? ==> forall other :: Pieces(batch, kinds, limit, 0, other) ==> |r.ends| <= |other|
    ensures r.Unfit? ==> forall other :: !Pieces(batch, kinds, limit, 0, other)
  {
    var start := 0;
    var ends: seq<nat> := [];
    while start < batch.RowCount()
      invariant start <= batch.RowCount() && GreedyTo(batch, kinds, limit, 0, ends, start)
      invariant token.found == old(token.found) && (start > 0 ==> !old(token.Requested()))
      invariant start == 0 ==> token.at == old(token.at)
    {
      var next := NextEnd(batch, kinds, limit, start, token);
      match next {
        case Cancelled => return Stopped;
        case Corrupt =>
          forall other ensures !Pieces(batch, kinds, limit, 0, other) {
            if Pieces(batch, kinds, limit, 0, other) {
              PiecesHoldEachRow(batch, kinds, limit, 0, other, start);
            }
          }
          return Unfit;
        case Row(end) =>
          GreedyThen(batch, kinds, limit, 0, ends, start, end);
          ends := ends + [end];
          start := end;
      }
    }
    GreedyToEnd(batch, kinds, limit, 0, ends);
    GreedyIsPieces(batch, kinds, limit, 0, ends);
    forall other | Pieces(batch, kinds, limit, 0, other) ensures |ends| <= |other| {
      GreedyStaysAhead(batch, kinds, limit, 0, ends, 0, other);
    }
    return Cut(ends);
  }
}
