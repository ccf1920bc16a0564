/** A query run as a checker sees it: batches of rows until the first terminal step. */
module QueryRuns {
  import opened Values

  type Row = seq<Value>

  datatype Step = Progress | Rows(width: nat, rows: seq<Row>) | Finished | Failed

  predicate WellShaped(run: seq<Step>) {
    forall i :: 0 <= i < |run| && run[i].Rows? ==>
      forall k :: 0 <= k < |run[i].rows| ==> |run[i].rows[k]| == run[i].width
  }

  /** All rows before the run's first terminal step. */
  function Emitted(run: seq<Step>): seq<Row> {
    if run == [] then []
    else
      match run[0]
      case Progress => Emitted(run[1..])
      case Rows(_, rows) => rows + Emitted(run[1..])
      case _ => []
  }

  /** The run ends in Finished and every batch before that has this many columns. */
  predicate Completes(run: seq<Step>, width: nat) {
    && run != []
    && (run[0].Finished? ||
        (!run[0].Failed? && (run[0].Rows? ==> run[0].width == width) && Completes(run[1..], width)))
  }

  /** The first `i` steps, none of them terminal, have emitted `done`. */
  predicate Reached(run: seq<Step>, width: nat, i: nat, done: seq<Row>)
    requires i <= |run|
  {
    Emitted(run) == done + Emitted(run[i..]) && (Completes(run, width) <==> Completes(run[i..], width))
  }

  lemma ReachStart(run: seq<Step>, width: nat)
    ensures Reached(run, width, 0, [])
  {
    assert run[0..] == run;
  }

  lemma ReachNext(run: seq<Step>, width: nat, i: nat, done: seq<Row>)
    requires i < |run| && Reached(run, width, i, done)
    ensures run[i].Progress? ==> Reached(run, width, i + 1, done)
    ensures run[i].Rows? ==>
      && Emitted(run) == done + run[i].rows + Emitted(run[i + 1..])
      && if run[i].width == width then Reached(run, width, i + 1, done + run[i].rows) else !Completes(run, width)
    ensures run[i].Finished? ==> Completes(run, width) && Emitted(run) == done
    ensures run[i].Failed? ==> !Completes(run, width)
  {
    assert run[i..][1..] == run[i + 1..];
  }

  lemma ReachEnd(run: seq<Step>, width: nat, done: seq<Row>)
    requires Reached(run, width, |run|, done)
    ensures !Completes(run, width)
  {
  }
}
