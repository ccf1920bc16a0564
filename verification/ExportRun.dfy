/** A whole export: a query run, the encoder that prints it, and what the caller's writer
    holds however it ends. */
module ExportRun {
  import opened Basics
  import opened Values
  import opened Jsonl
  import opened Cancellation
  import opened Export
  import JsonlReader

  datatype Step = Progress | Rows(batch: seq<seq<Value>>) | Finished | Failed

  datatype Limits = Limits(rows: nat, bytes: nat)

  /** The rows handed out before the run's first terminal step. */
  function Produced(steps: seq<Step>): seq<seq<Value>> {
    if steps == [] then []
    else
      match steps[0]
      case Progress => Produced(steps[1..])
      case Rows(batch) => batch + Produced(steps[1..])
      case _ => []
  }

  /** The run's first terminal step is Finished. A run that breaks off has not finished. */
  predicate Finishes(steps: seq<Step>) {
    steps != [] && (steps[0].Finished? || (!steps[0].Failed? && Finishes(steps[1..])))
  }

  predicate PrintableSteps(steps: seq<Step>) {
    forall i :: 0 <= i < |steps| && steps[i].Rows? ==> PrintableRows(steps[i].batch)
  }

  lemma {:induction false} ProducedPrintable(steps: seq<Step>)
    requires PrintableSteps(steps)
    ensures PrintableRows(Produced(steps))
    decreases |steps|
  {
    if steps != [] { ProducedPrintable(steps[1..]); }
  }

  /** Where an export stopped: between write loops, inside the write loop of a full block, or
      in the final flush, with everything admitted. */
  datatype Stage = Between | InBlock | Flushing

  /** What a caller may rely on about the bytes `sent`, given the run, the bytes the limit let
      through, where the export stopped and its outcome. */
  predicate Reported(schema: seq<Column>, steps: seq<Step>, limits: Limits, sent: Bytes, admitted: Bytes, stage: Stage,
                     r: Outcome, rows: nat)
    requires PrintableSteps(steps)
  {
    ProducedPrintable(steps);
    var all := Produced(steps);
    && sent <= admitted <= Document(schema, all) && |admitted| <= limits.bytes
    && (!Finishes(steps) ==> admitted <= Body(schema, all))
    && (r.Done? ==> Finishes(steps) && sent == Document(schema, all) && rows == |all| <= limits.rows)
    && (r.QueryFailed? ==> !Finishes(steps) && admitted == Body(schema, all))
    && (r.RowLimit? ==> r.required == limits.rows + 1 <= |all| && r.required < U64)
    && (r.RowLimit? ==> admitted == Body(schema, all[..limits.rows]))
    && (r.ByteLimit? ==> limits.bytes < r.required <= |Document(schema, all)| && r.required < U64)
    && (r.Unsupported? ==> |Document(schema, all)| >= U64)
    && !r.Corrupt?
    && match stage
       case Between => |sent| == WholeBlocksOf(admitted) && !r.Done? && !r.Output?
       case InBlock => r.Output? || (r.Cancelled? && |sent| < WholeBlocksOf(admitted))
       case Flushing => admitted == Document(schema, all) && Finishes(steps) && (r.Done? || r.Cancelled? || r.Output?)
  }

  /** The bytes in the whole blocks of what was admitted. */
  function WholeBlocksOf(admitted: Bytes): nat { BUFFER * (|admitted| / BUFFER) }

  /** Before the final flush and without a writer error, exactly the whole blocks have been
      sent if and only if no cancellation was answered inside a write loop. */
  lemma WholeBlocksSent(schema: seq<Column>, steps: seq<Step>, limits: Limits, sent: Bytes, admitted: Bytes,
                        stage: Stage, r: Outcome, rows: nat)
    requires PrintableSteps(steps) && Reported(schema, steps, limits, sent, admitted, stage, r, rows)
    ensures !stage.Flushing? && !r.Output? ==>
      (|sent| == WholeBlocksOf(admitted) <==> !(r.Cancelled? && stage.InBlock?))
  {
  }

  /** A completion record reaches the writer only from a finished query, as the end of the
      whole document. */
  lemma CompletionOnlyAfterFinished(schema: seq<Column>, steps: seq<Step>, limits: Limits, sent: Bytes, admitted: Bytes,
                                    stage: Stage, r: Outcome, rows: nat)
    requires PrintableSteps(steps) && Reported(schema, steps, limits, sent, admitted, stage, r, rows)
    requires JsonlReader.Completed(sent)
    ensures Finishes(steps) && (ProducedPrintable(steps); sent == Document(schema, Produced(steps)))
  {
    ProducedPrintable(steps);
    JsonlReader.CompletedMeansWhole(schema, Produced(steps), sent);
    DocumentIsBodyAndCompletion(schema, Produced(steps));
  }

  /** A successful export reads back as the schema and exactly the rows the query produced. */
  lemma SuccessReadsBack(schema: seq<Column>, steps: seq<Step>, limits: Limits, sent: Bytes, admitted: Bytes,
                         stage: Stage, rows: nat)
    requires PrintableSteps(steps) && Reported(schema, steps, limits, sent, admitted, stage, Done, rows)
    requires JsonlReader.TypedRows(schema, Produced(steps))
    ensures JsonlReader.ReadDocument(sent) == Some((schema, Produced(steps)))
  {
    JsonlReader.DocumentRoundTrip(schema, Produced(steps));
  }

  /** `after` is part of `whole`, and a refusal of bytes is one `whole` really causes. */
  predicate PartOf(whole: Bytes, after: Bytes, limit: nat, r: Outcome) {
    && after <= whole
    && (r.ByteLimit? ==> limit < r.required <= |whole| && r.required < U64) && (r.Unsupported? ==> |whole| >= U64)
  }

  /** A document has at least a byte for each row. */
  lemma {:induction false} BodyLength(schema: seq<Column>, rows: seq<seq<Value>>)
    requires PrintableRows(rows)
    ensures |Body(schema, rows)| >= |rows|
    decreases rows
  {
    if rows != [] {
      var front, last := rows[..|rows| - 1], rows[|rows| - 1];
      BodyLength(schema, front);
      BodyNext(schema, front, last);
      assert rows == front + [last];
    }
  }

  lemma PartOfMore(piece: Bytes, whole: Bytes, after: Bytes, limit: nat, r: Outcome)
    requires PartOf(piece, after, limit, r) && piece <= whole
    ensures PartOf(whole, after, limit, r)
  {
  }

  lemma EmitsPart(before: Bytes, piece: Bytes, after: Bytes, limit: nat, r: Outcome)
    requires Emits(before, piece, after, limit, r)
    ensures PartOf(before + piece, after, limit, r)
  {
  }

  lemma BodyGrows(schema: seq<Column>, rows: seq<seq<Value>>, more: seq<seq<Value>>)
    requires PrintableRows(rows) && PrintableRows(more)
    ensures PrintableRows(rows + more) && Body(schema, rows) <= Body(schema, rows + more)
  {
    BodyConcat(schema, rows, more);
  }

  /** One batch of rows, each counted against the row limit before it is printed. */
  method ExportBatch(encoder: Encoder, ghost schema: seq<Column>, batch: seq<seq<Value>>, ghost done: seq<seq<Value>>,
                     count: nat, limit: nat)
    returns (r: Outcome, rows: nat)
    requires encoder.Ready() && PrintableRows(done) && PrintableRows(batch)
    requires encoder.admitted == Body(schema, done) && count == |done| <= limit < U64
    modifies encoder, encoder.buffer, encoder.sink, encoder.token
    ensures encoder.Sound(r) && PrintableRows(done + batch) && !r.Corrupt? && !r.QueryFailed?
    ensures PartOf(Body(schema, done + batch), encoder.admitted, encoder.limit, r)
    ensures r.Done? ==> encoder.admitted == Body(schema, done + batch) && rows == |done| + |batch| <= limit
    ensures r.RowLimit? ==>
      && |done| <= limit && r.required == limit + 1 <= |done| + |batch| && r.required < U64
      && PrintableRows((done + batch)[..limit]) && encoder.admitted == Body(schema, (done + batch)[..limit])
  {
    hide Body, RowLine, PrintableRow, PartOf;
    rows := count;
    var row := 0;
    ghost var whole := done + batch;
    BodyGrows(schema, done, batch);
    assert whole[..|done|] == done;
    while row < |batch|
      invariant row <= |batch| && rows == |done| + row <= limit
      invariant PrintableRows(whole) && PrintableRows(whole[..rows])
      invariant encoder.Ready() && encoder.admitted == Body(schema, whole[..rows])
    {
      var next := rows + 1;
      BodySplit(schema, whole, rows);
      if next >= U64 {
        RowsRefused(schema, whole, rows, encoder.limit, Unsupported);
        return Unsupported, rows;
      }
      if next > limit {
        RowsRefused(schema, whole, rows, encoder.limit, RowLimit(next));
        return RowLimit(next), rows;
      }
      BodySplit(schema, whole, next);
      RowStep(schema, whole, rows);
      assert whole[rows] == batch[row];
      r := encoder.Row(batch[row]);
      if !r.Done? {
        EmitsPart(Body(schema, whole[..rows]), RowLine(batch[row]) + [LF], encoder.admitted, encoder.limit, r);
        PartOfMore(Body(schema, whole[..next]), Body(schema, whole), encoder.admitted, encoder.limit, r);
        return;
      }
      rows := next;
      row := row + 1;
    }
    assert whole[..rows] == whole;
    WholeBody(schema, whole, encoder.limit, Done);
    return Done, rows;
  }

  /** Refusing a row leaves the rows before it, and a count past 64 bits means as many bytes. */
  lemma RowsRefused(schema: seq<Column>, rows: seq<seq<Value>>, k: nat, limit: nat, r: Outcome)
    requires PrintableRows(rows) && k < |rows| && (r.RowLimit? || (r.Unsupported? && k + 1 >= U64))
    ensures PrintableRows(rows[..k]) && PartOf(Body(schema, rows), Body(schema, rows[..k]), limit, r)
  {
    BodySplit(schema, rows, k);
    BodyLength(schema, rows);
  }

  lemma BodySplit(schema: seq<Column>, rows: seq<seq<Value>>, k: nat)
    requires PrintableRows(rows) && k <= |rows|
    ensures PrintableRows(rows[..k]) && Body(schema, rows[..k]) <= Body(schema, rows)
  {
    assert rows[..k] + rows[k..] == rows;
    BodyGrows(schema, rows[..k], rows[k..]);
  }

  lemma RowStep(schema: seq<Column>, rows: seq<seq<Value>>, k: nat)
    requires PrintableRows(rows) && k < |rows|
    ensures PrintableRows(rows[..k]) && PrintableRows(rows[..k + 1]) && PrintableRow(rows[k])
    ensures Body(schema, rows[..k + 1]) == Body(schema, rows[..k]) + (RowLine(rows[k]) + [LF])
  {
    assert rows[..k + 1] == rows[..k] + [rows[k]];
    BodyNext(schema, rows[..k], rows[k]);
  }

  /** Facts about the encoder's admitted bytes, passed on to what the writer holds. */
  lemma SentIsBounded(base: Bytes, accepted: Bytes, admitted: Bytes, whole: Bytes)
    requires base <= accepted <= base + admitted && admitted <= whole
    ensures accepted[|base|..] <= whole && |accepted| - |base| <= |admitted|
  {
    assert accepted == (base + admitted)[..|accepted|];
    assert accepted[|base|..] == admitted[..|accepted| - |base|];
  }

  lemma EmptyBody(schema: seq<Column>)
    ensures PrintableRows([]) && Body(schema, []) == SchemaLine(schema) + [LF]
  {
    hide SchemaLine;
    TerminatedOne(SchemaLine(schema));
    assert [SchemaLine(schema)] + RowLines([]) == [SchemaLine(schema)];
  }

  lemma BodyThenCompletion(schema: seq<Column>, rows: seq<seq<Value>>)
    requires PrintableRows(rows)
    ensures Document(schema, rows) == Body(schema, rows) + (CompleteLine(|rows|) + [LF])
  {
    hide Document, Body, CompleteLine;
    DocumentIsBodyAndCompletion(schema, rows);
  }

  /** What the admitted bytes are when the rows of a run have been printed, or printing stopped. */
  predicate Printed(schema: seq<Column>, steps: seq<Step>, limits: Limits, admitted: Bytes, r: Outcome, rows: nat)
    requires PrintableSteps(steps)
  {
    ProducedPrintable(steps);
    var all := Produced(steps);
    && PartOf(Body(schema, all), admitted, limits.bytes, r) && !r.Corrupt?
    && (r.Done? ==> Finishes(steps) && admitted == Body(schema, all) && rows == |all| <= limits.rows)
    && (r.QueryFailed? ==> !Finishes(steps) && admitted == Body(schema, all))
    && (r.RowLimit? ==> r.required == limits.rows + 1 <= |all| && r.required < U64)
    && (r.RowLimit? ==> admitted == Body(schema, all[..limits.rows]))
  }

  /** A batch that stops early stops the run inside its rows. */
  lemma BatchStops(schema: seq<Column>, steps: seq<Step>, limits: Limits, done: seq<seq<Value>>, rest: seq<seq<Value>>,
                   admitted: Bytes, r: Outcome, rows: nat)
    requires PrintableSteps(steps) && Produced(steps) == done + rest && PrintableRows(done)
    requires PartOf(Body(schema, done), admitted, limits.bytes, r)
    requires !r.Done? && !r.Corrupt? && !r.QueryFailed?
    requires r.RowLimit? ==>
      && r.required == limits.rows + 1 <= |done| && r.required < U64
      && PrintableRows(done[..limits.rows]) && admitted == Body(schema, done[..limits.rows])
    ensures Printed(schema, steps, limits, admitted, r, rows)
  {
    ProducedPrintable(steps);
    var all := Produced(steps);
    BodySplit(schema, all, |done|);
    assert all[..|done|] == done;
    hide Body;
    PartOfMore(Body(schema, done), Body(schema, all), admitted, limits.bytes, r);
    if r.RowLimit? { assert done[..limits.rows] == all[..limits.rows]; }
  }

  /** Print the rows of every step up to the terminal one. */
  method ExportSteps(encoder: Encoder, ghost schema: seq<Column>, steps: seq<Step>, limits: Limits)
    returns (r: Outcome, rows: nat)
    requires PrintableSteps(steps) && limits.rows < U64 && limits.bytes == encoder.limit
    requires encoder.Ready() && PrintableRows([]) && encoder.admitted == Body(schema, [])
    modifies encoder, encoder.buffer, encoder.sink, encoder.token
    ensures encoder.Sound(r) && Printed(schema, steps, limits, encoder.admitted, r, rows)
  {
    hide Body, PartOf;
    rows := 0;
    var next := 0;
    ghost var done: seq<seq<Value>> := [];
    ghost var all := Produced(steps);
    ProducedPrintable(steps);
    while next < |steps|
      invariant next <= |steps| && PrintableRows(done) && rows == |done| <= limits.rows
      invariant all == done + Produced(steps[next..]) && Finishes(steps) == Finishes(steps[next..])
      invariant encoder.Ready() && encoder.admitted == Body(schema, done)
    {
      var step := steps[next];
      ghost var rest := steps[next + 1..];
      assert steps[next..][1..] == rest;
      match step {
        case Progress =>
        case Finished =>
          assert done == all;
          WholeBody(schema, all, limits.bytes, Done);
          return Done, rows;
        case Failed =>
          assert done == all;
          WholeBody(schema, all, limits.bytes, QueryFailed);
          return QueryFailed, rows;
        case Rows(batch) =>
          assert all == done + batch + Produced(rest);
          r, rows := ExportBatch(encoder, schema, batch, done, rows, limits.rows);
          if !r.Done? {
            BatchStops(schema, steps, limits, done + batch, Produced(rest), encoder.admitted, r, rows);
            return;
          }
          done := done + batch;
      }
      next := next + 1;
    }
    assert done == all;
    WholeBody(schema, all, limits.bytes, QueryFailed);
    return QueryFailed, rows;
  }

  lemma WholeBody(schema: seq<Column>, rows: seq<seq<Value>>, limit: nat, r: Outcome)
    requires PrintableRows(rows) && !r.ByteLimit? && !r.Unsupported?
    ensures PartOf(Body(schema, rows), Body(schema, rows), limit, r)
  {
  }

  /** From what was admitted to what the writer holds, when the rows did not all get through. */
  lemma StoppedReport(schema: seq<Column>, steps: seq<Step>, limits: Limits, base: Bytes, accepted: Bytes,
                      admitted: Bytes, torn: bool, r: Outcome, rows: nat)
    requires PrintableSteps(steps) && Printed(schema, steps, limits, admitted, r, rows) && !r.Done?
    requires base <= accepted <= base + admitted && |admitted| <= limits.bytes
    requires Stops(base, accepted, admitted, torn, r)
    ensures Reported(schema, steps, limits, accepted[|base|..], admitted, if torn then InBlock else Between, r, rows)
  {
    ProducedPrintable(steps);
    var all := Produced(steps);
    BodyThenCompletion(schema, all);
    hide Body, Document, CompleteLine;
    SentIsBounded(base, accepted, admitted, Body(schema, all));
  }

  /** Where an encoder stopped, as its own promise puts it. */
  predicate Stops(base: Bytes, accepted: Bytes, admitted: Bytes, torn: bool, r: Outcome) {
    && |base| <= |accepted|
    && (!torn ==> |accepted| - |base| == WholeBlocksOf(admitted) && !r.Output?)
    && (torn ==> r.Output? || (r.Cancelled? && |accepted| - |base| < WholeBlocksOf(admitted)))
  }

  lemma SoundStops(encoder: Encoder, r: Outcome)
    requires encoder.Sound(r)
    ensures Stops(encoder.base, encoder.sink.accepted, encoder.admitted, encoder.torn, r)
  {
    assert |encoder.sink.accepted| - |encoder.base| <= |encoder.admitted|;
  }

  /** Every row is through, and printing the completion record stopped. */
  lemma CompletionStops(schema: seq<Column>, steps: seq<Step>, limits: Limits, base: Bytes, accepted: Bytes,
                        admitted: Bytes, torn: bool, r: Outcome, rows: nat)
    requires PrintableSteps(steps) && Finishes(steps) && rows == |Produced(steps)| <= limits.rows
    requires PrintableRows(Produced(steps)) && !r.Done?
    requires Emits(Body(schema, Produced(steps)), CompleteLine(rows) + [LF], admitted, limits.bytes, r)
    requires base <= accepted <= base + admitted && |admitted| <= limits.bytes
    requires Stops(base, accepted, admitted, torn, r)
    ensures Reported(schema, steps, limits, accepted[|base|..], admitted, if torn then InBlock else Between, r, rows)
  {
    var all := Produced(steps);
    BodyThenCompletion(schema, all);
    hide Body, Document, CompleteLine;
    EmitsPart(Body(schema, all), CompleteLine(rows) + [LF], admitted, limits.bytes, r);
    SentIsBounded(base, accepted, admitted, Document(schema, all));
  }

  /** The whole document was admitted, and the final flush was begun. */
  lemma FlushReport(schema: seq<Column>, steps: seq<Step>, limits: Limits, base: Bytes, accepted: Bytes,
                    admitted: Bytes, r: Outcome, rows: nat)
    requires PrintableSteps(steps) && Finishes(steps) && rows == |Produced(steps)| <= limits.rows
    requires PrintableRows(Produced(steps))
    requires admitted == Body(schema, Produced(steps)) + (CompleteLine(rows) + [LF])
    requires base <= accepted <= base + admitted && |admitted| <= limits.bytes
    requires r.Done? || r.Cancelled? || r.Output?
    requires r.Done? ==> accepted == base + admitted
    ensures Reported(schema, steps, limits, accepted[|base|..], admitted, Flushing, r, rows)
  {
    var all := Produced(steps);
    BodyThenCompletion(schema, all);
    hide Body, Document, CompleteLine;
    SentIsBounded(base, accepted, admitted, Document(schema, all));
    if r.Done? { assert (base + admitted)[|base|..] == admitted; }
  }

  /** Everything before the final flush: the schema, the query's rows and the completion. */
  method ExportDocument(encoder: Encoder, schema: seq<Column>, steps: seq<Step>, limits: Limits)
    returns (r: Outcome, rows: nat)
    requires encoder.Ready() && encoder.admitted == [] && encoder.limit == limits.bytes
    requires PrintableSteps(steps) && limits.rows < U64
    modifies encoder, encoder.buffer, encoder.sink, encoder.token
    ensures encoder.Sound(r) && (old(encoder.token.Requested()) ==> r.Cancelled?)
    ensures !r.Done? ==>
      Reported(schema, steps, limits, encoder.sink.accepted[|encoder.base|..], encoder.admitted,
               if encoder.torn then InBlock else Between, r, rows)
    ensures r.Done? ==>
      && Finishes(steps) && rows == |Produced(steps)| <= limits.rows && PrintableRows(Produced(steps))
      && encoder.admitted == Body(schema, Produced(steps)) + (CompleteLine(rows) + [LF])
  {
    hide Reported, Printed, Body, SchemaLine, CompleteLine, WholeBlocksOf, Stops, Obliging;
    SchemaFirst(schema);
    var cancelled := encoder.token.Check();
    r := if cancelled then Cancelled else Done;
    if r.Done? {
      r := encoder.Schema(schema);
    }
    if !r.Done? {
      SchemaStopped(schema, steps, limits, encoder.admitted, r);
      StoppedEncoder(encoder, schema, steps, limits, r, 0);
      return r, 0;
    }
    r, rows := ExportSteps(encoder, schema, steps, limits);
    if !r.Done? {
      StoppedEncoder(encoder, schema, steps, limits, r, rows);
      return;
    }
    AllPrinted(schema, steps, limits, encoder.admitted, rows);
    r := encoder.Complete(rows);
    if !r.Done? {
      SoundStops(encoder, r);
      CompletionStops(schema, steps, limits, encoder.base, encoder.sink.accepted, encoder.admitted, encoder.torn, r,
                      rows);
    }
  }

  lemma StoppedEncoder(encoder: Encoder, schema: seq<Column>, steps: seq<Step>, limits: Limits, r: Outcome, rows: nat)
    requires PrintableSteps(steps) && encoder.Sound(r) && encoder.limit == limits.bytes && !r.Done?
    requires Printed(schema, steps, limits, encoder.admitted, r, rows)
    ensures Reported(schema, steps, limits, encoder.sink.accepted[|encoder.base|..], encoder.admitted,
                     if encoder.torn then InBlock else Between, r, rows)
  {
    SoundStops(encoder, r);
    StoppedReport(schema, steps, limits, encoder.base, encoder.sink.accepted, encoder.admitted, encoder.torn, r, rows);
  }

  /** Stream the query's rows. The writer's replies, the answers of the cancellation checks and
      the result of the final flush are the caller's; the report holds for all of them. Of the
      stops before the final flush without an output error, exactly those inside a write loop
      leave the writer without all the whole blocks. */
  method ExportJsonl(sink: Sink, token: Token, schema: seq<Column>, steps: seq<Step>, limits: Limits)
    returns (r: Outcome, rows: nat, ghost admitted: Bytes, ghost stage: Stage)
    requires PrintableSteps(steps) && limits.rows < U64 && limits.bytes < U64
    modifies sink, token
    ensures old(sink.accepted) <= sink.accepted
    ensures Reported(schema, steps, limits, sink.accepted[|old(sink.accepted)|..], admitted, stage, r, rows)
    ensures r.Cancelled? ==> token.Requested()
    ensures token.found == (old(token.found) || r.Cancelled?)
    ensures old(token.Requested()) ==> r.Cancelled?
    ensures r.Done? ==> sink.flushes
    ensures stage.Flushing? ==>
      if sink.stops == old(sink.stops)
      then sink.accepted == old(sink.accepted) + admitted && (!r.Cancelled? ==> (r.Done? <==> sink.flushes))
      else sink.stops == old(sink.stops) + [r]
    ensures r.Output? ==> !Obliging(old(sink.script)) || !sink.flushes
    ensures stage.Between? ==> sink.stops == old(sink.stops)
    ensures stage.InBlock? ==> sink.stops == old(sink.stops) + [r]
    ensures !stage.Flushing? && !r.Output? ==>
      (|sink.accepted| - |old(sink.accepted)| == WholeBlocksOf(admitted) <==> sink.stops == old(sink.stops))
  {
    hide Reported, Printed, Body, CompleteLine, WholeBlocksOf, Obliging;
    var encoder := new Encoder(sink, token, limits.bytes);
    r, rows := ExportDocument(encoder, schema, steps, limits);
    if !r.Done? {
      stage := if encoder.torn then InBlock else Between;
      WholeBlocksSent(schema, steps, limits, sink.accepted[|encoder.base|..], encoder.admitted, stage, r, rows);
      return r, rows, encoder.admitted, stage;
    }
    r := encoder.FlushBuffer();
    if r.Done? {
      r := LastChecks(sink, token);
    }
    FlushReport(schema, steps, limits, encoder.base, sink.accepted, encoder.admitted, r, rows);
    return r, rows, encoder.admitted, Flushing;
  }

  /** With an obliging writer, no cancellation, a query that finishes and limits that cover its
      document, an export succeeds. */
  lemma SuccessIsCertain(schema: seq<Column>, steps: seq<Step>, limits: Limits, sent: Bytes, admitted: Bytes,
                         stage: Stage, r: Outcome, rows: nat)
    requires PrintableSteps(steps) && Reported(schema, steps, limits, sent, admitted, stage, r, rows)
    requires !r.Cancelled? && !r.Output? && limits.bytes < U64
    ensures r.Done? <==>
      && Finishes(steps) && |Produced(steps)| <= limits.rows
      && (ProducedPrintable(steps); |Document(schema, Produced(steps))| <= limits.bytes)
  {
  }

  lemma SchemaFirst(schema: seq<Column>)
    ensures PrintableRows([]) && Body(schema, []) == [] + (SchemaLine(schema) + [LF])
  {
    EmptyBody(schema);
  }

  lemma SchemaStopped(schema: seq<Column>, steps: seq<Step>, limits: Limits, admitted: Bytes, r: Outcome)
    requires PrintableSteps(steps) && !r.Done?
    requires Emits([], SchemaLine(schema) + [LF], admitted, limits.bytes, r)
    ensures Printed(schema, steps, limits, admitted, r, 0)
  {
    EmptyBody(schema);
    hide Body, SchemaLine;
    assert [] + (SchemaLine(schema) + [LF]) == SchemaLine(schema) + [LF];
    EmitsPart([], SchemaLine(schema) + [LF], admitted, limits.bytes, r);
    assert [] + Produced(steps) == Produced(steps);
    BatchStops(schema, steps, limits, [], Produced(steps), admitted, r, 0);
  }

  lemma AllPrinted(schema: seq<Column>, steps: seq<Step>, limits: Limits, admitted: Bytes, rows: nat)
    requires PrintableSteps(steps) && Printed(schema, steps, limits, admitted, Done, rows)
    ensures PrintableRows(Produced(steps)) && admitted == Body(schema, Produced(steps))
    ensures Finishes(steps) && rows == |Produced(steps)| <= limits.rows
  {
    ProducedPrintable(steps);
  }

  /** The end of an export whose last block is through: cancellation, the writer's flush, and
      cancellation again, in this order. */
  method LastChecks(sink: Sink, token: Token) returns (r: Outcome)
    modifies token
    ensures r == if old(token.Requested()) then Cancelled
                 else if !sink.flushes then Output
                 else if token.Requested() && token.at == old(token.at) + 1 then Cancelled
                 else Done
    ensures r.Done? ==> token.at == old(token.at) + 2
    ensures token.found == (old(token.found) || r.Cancelled?)
    ensures r.Cancelled? ==> token.Requested()
  {
    var cancelled := token.Check();
    if cancelled {
      return Cancelled;
    }
    if !sink.flushes {
      return Output;
    }
    cancelled := token.Check();
    return if cancelled then Cancelled else Done;
  }
}
