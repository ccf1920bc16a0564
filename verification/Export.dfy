/** Streaming a query as JSON Lines through a 1,024-byte buffer to a writer that may take
    any part of what it is offered, fail, or misreport. */
module Export {
  import opened Basics
  import opened Values
  import opened Jsonl
  import Numerals
  import opened Cancellation
  import JsonlReader

  const BUFFER: nat := 1024
  const SCALAR: nat := 64

  datatype Outcome =
    | Done
    | Cancelled
    | Unsupported
    | Corrupt
    | ByteLimit(required: nat)
    | RowLimit(required: nat)
    | QueryFailed
    | Output

  // The writer

  /** One answer of the writer: a failed write, a count larger than what was offered, or an
      ordinary count, which is cut to what was offered. A writer that breaks its contract may
      still have kept a prefix of what it was given. */
  datatype Reply = Fail(kept: nat) | Overcount(kept: nat) | Wrote(count: nat)

  datatype Drained = Drained(taken: nat, outcome: Outcome, script: seq<Reply>, answers: seq<bool>)

  /** What the write loop does with `bytes`, given the writer's replies and what the checks
      before each write find. A writer whose script has run out takes all it is offered. */
  function Drain(bytes: Bytes, script: seq<Reply>, answers: seq<bool>): (d: Drained)
    ensures d.taken <= |bytes|
    ensures d.outcome.Done? || d.outcome.Cancelled? || d.outcome.Output?
    ensures d.outcome.Done? ==> d.taken == |bytes|
    decreases |bytes|
  {
    if bytes == [] then Drained(0, Done, script, answers)
    else if answers != [] && answers[0] then Drained(0, Cancelled, script, answers)
    else if script == [] then Drained(|bytes|, Done, [], Tail(answers))
    else
      match script[0]
      case Fail(kept) => Drained(Min(kept, |bytes|), Output, script[1..], Tail(answers))
      case Overcount(kept) => Drained(Min(kept, |bytes|), Output, script[1..], Tail(answers))
      case Wrote(count) =>
        if count == 0 then Drained(0, Output, script[1..], Tail(answers))
        else
          var n := Min(count, |bytes|);
          var d := Drain(bytes[n..], script[1..], Tail(answers));
          d.(taken := n + d.taken)
  }

  /** A writer that never fails, misreports or stalls, however little it takes at a time. */
  predicate Obliging(script: seq<Reply>) {
    forall i :: 0 <= i < |script| ==> script[i].Wrote? && script[i].count > 0
  }

  /** The loop fails only for a failing reply, and stops for cancellation only when a check
      says so, always before the last byte. */
  lemma {:induction false} DrainCauses(bytes: Bytes, script: seq<Reply>, answers: seq<bool>)
    ensures var d := Drain(bytes, script, answers);
            && (d.outcome.Output? ==> !Obliging(script))
            && (d.outcome.Cancelled? ==> d.answers != [] && d.answers[0] && d.taken < |bytes|)
            && (Obliging(script) ==> Obliging(d.script))
            && (true !in answers ==> true !in d.answers)
    decreases |bytes|
  {
    if bytes != [] && !(answers != [] && answers[0]) && script != [] && script[0].Wrote? && script[0].count > 0 {
      DrainCauses(bytes[Min(script[0].count, |bytes|)..], script[1..], Tail(answers));
    }
  }

  /** An obliging writer and no cancellation: everything is taken. */
  lemma DrainSucceeds(bytes: Bytes, script: seq<Reply>, answers: seq<bool>)
    requires Obliging(script) && true !in answers
    ensures Drain(bytes, script, answers).outcome.Done?
  {
    DrainCauses(bytes, script, answers);
  }

  /** Success means that the replies used were all short writes without failure. */
  lemma {:induction false} DrainUsesShortWrites(bytes: Bytes, script: seq<Reply>, answers: seq<bool>)
    returns (used: nat)
    requires Drain(bytes, script, answers).outcome.Done?
    ensures used <= |script| && Drain(bytes, script, answers).script == script[used..] && Obliging(script[..used])
    decreases |bytes|
  {
    used := 0;
    if bytes != [] && script != [] {
      var rest := DrainUsesShortWrites(bytes[Min(script[0].count, |bytes|)..], script[1..], Tail(answers));
      used := rest + 1;
      assert script[1..][rest..] == script[used..];
      assert script[..used][1..] == script[1..][..rest];
    } else {
      assert script[0..] == script;
    }
  }

  /** A block is cut short by a cancellation found before its first write, or between two. */
  lemma CancelledInBlock(block: Bytes, script: seq<Reply>)
    requires |block| == BUFFER
    ensures Drain(block, script, [true]) == Drained(0, Cancelled, script, [true])
    ensures Drain(block, [Wrote(1)], [false, true]) == Drained(1, Cancelled, [], [true])
  {
    assert [false, true][1..] == [true] && [Wrote(1)][1..] == [];
    assert Drain(block[1..], [], [true]) == Drained(0, Cancelled, [], [true]);
  }

  /** The writer's next answer to `offered` bytes. */
  function NextReply(script: seq<Reply>, offered: nat): Reply {
    if script == [] then Wrote(offered) else script[0]
  }

  function RestOf(script: seq<Reply>): seq<Reply> {
    if script == [] then [] else script[1..]
  }

  function Kept(reply: Reply, offered: nat): (n: nat)
    ensures n <= offered
  {
    Min(if reply.Wrote? then reply.count else reply.kept, offered)
  }

  /** One turn of the loop. */
  lemma DrainTurn(bytes: Bytes, script: seq<Reply>, answers: seq<bool>)
    requires bytes != []
    ensures answers != [] && answers[0] ==> Drain(bytes, script, answers) == Drained(0, Cancelled, script, answers)
    ensures !(answers != [] && answers[0]) ==>
      var reply := NextReply(script, |bytes|);
      var kept := Kept(reply, |bytes|);
      var d := Drain(bytes[kept..], RestOf(script), Tail(answers));
      Drain(bytes, script, answers) ==
        if reply.Wrote? && reply.count > 0 then d.(taken := kept + d.taken)
        else Drained(kept, Output, RestOf(script), Tail(answers))
  {
    if script == [] { assert bytes[|bytes|..] == []; }
  }

  lemma DrainNothing(script: seq<Reply>, answers: seq<bool>)
    ensures Drain([], script, answers) == Drained(0, Done, script, answers)
  {
  }

  lemma Extended(before: Bytes, bytes: Bytes, taken: nat, more: nat)
    requires taken + more <= |bytes|
    ensures before + bytes[..taken] + bytes[taken..][..more] == before + bytes[..taken + more]
    ensures bytes[taken..][more..] == bytes[taken + more..]
  {
  }

  /** What becomes of bytes that wait in the buffer: each whole block is drained in turn, until one
      stops early or less than a block is left. */
  datatype Poured = Poured(sent: nat, outcome: Outcome, script: seq<Reply>, answers: seq<bool>)

  function Pour(all: Bytes, script: seq<Reply>, answers: seq<bool>): (p: Poured)
    ensures p.sent <= |all|
    decreases |all|
  {
    if |all| < BUFFER then Poured(0, Done, script, answers)
    else
      var d := Drain(all[..BUFFER], script, answers);
      if !d.outcome.Done? then Poured(d.taken, d.outcome, d.script, d.answers)
      else
        var p := Pour(all[BUFFER..], d.script, d.answers);
        p.(sent := BUFFER + p.sent)
  }

  function Ahead(sent: nat, p: Poured): Poured { p.(sent := sent + p.sent) }

  /** A full buffer is drained first. */
  lemma PourFull(full: Bytes, rest: Bytes, script: seq<Reply>, answers: seq<bool>)
    requires |full| == BUFFER
    ensures var d := Drain(full, script, answers);
            Pour(full + rest, script, answers) ==
              if d.outcome.Done? then Ahead(BUFFER, Pour(rest, d.script, d.answers))
              else Poured(d.taken, d.outcome, d.script, d.answers)
  {
    assert (full + rest)[..BUFFER] == full && (full + rest)[BUFFER..] == rest;
  }

  lemma AheadNothing(p: Poured)
    ensures Ahead(0, p) == p
  {
  }

  lemma AheadTwice(a: nat, b: nat, p: Poured)
    ensures Ahead(a, Ahead(b, p)) == Ahead(a + b, p)
  {
  }

  lemma AheadDone(a: nat, b: nat, r: Outcome, script: seq<Reply>, answers: seq<bool>)
    ensures Ahead(a, Poured(b, r, script, answers)) == Poured(a + b, r, script, answers)
  {
  }

  lemma PourLittle(all: Bytes, script: seq<Reply>, answers: seq<bool>)
    requires |all| < BUFFER
    ensures Pour(all, script, answers) == Poured(0, Done, script, answers)
  {
  }

  /** The caller's writer: everything it has accepted, and its replies to come. */
  class Sink {
    var accepted: Bytes
    var script: seq<Reply>
    /** Whether its own flush will succeed. */
    const flushes: bool
    /** How the write loops that stopped early ended, in order. */
    ghost var stops: seq<Outcome>

    constructor (script: seq<Reply>, flushes: bool)
      ensures accepted == [] && stops == [] && this.script == script && this.flushes == flushes
    {
      accepted, this.script, this.flushes, stops := [], script, flushes, [];
    }

    method WriteAll(bytes: Bytes, token: Token) returns (r: Outcome)
      modifies this, token
      ensures var d := Drain(bytes, old(script), old(token.Coming()));
              && r == d.outcome && script == d.script && token.Coming() == d.answers
              && accepted == old(accepted) + bytes[..d.taken]
      ensures r.Cancelled? ==> token.Requested()
      ensures token.found == (old(token.found) || r.Cancelled?)
      ensures stops == if r.Done? then old(stops) else old(stops) + [r]
    {
      hide Drain, Kept, NextReply, RestOf, Tail, Token.Coming;
      var rest := bytes;
      ghost var taken := 0;
      assert bytes[0..] == bytes;
      while rest != []
        invariant taken <= |bytes| && rest == bytes[taken..]
        invariant accepted == old(accepted) + bytes[..taken] && stops == old(stops) && token.found == old(token.found)
        invariant var d := Drain(rest, script, token.Coming());
                  Drain(bytes, old(script), old(token.Coming())) == d.(taken := taken + d.taken)
        decreases |rest|
      {
        DrainTurn(rest, script, token.Coming());
        var cancelled := token.Check();
        if cancelled {
          stops := stops + [Cancelled];
          return Cancelled;
        }
        var reply := NextReply(script, |rest|);
        var kept := Kept(reply, |rest|);
        script := RestOf(script);
        Extended(old(accepted), bytes, taken, kept);
        accepted := accepted + rest[..kept];
        taken := taken + kept;
        if !reply.Wrote? || reply.count == 0 {
          stops := stops + [Output];
          return Output;
        }
        KeepsSome(reply, |rest|);
        rest := rest[kept..];
      }
      DrainNothing(script, token.Coming());
      return Done;
    }
  }

  lemma KeepsSome(reply: Reply, offered: nat)
    requires reply.Wrote? && reply.count > 0 && offered > 0
    ensures Kept(reply, offered) > 0
  {
  }

  // The encoder

  /** The writer has gained a prefix of what was to be sent, and the rest is pending. */
  predicate Flowing(start: Bytes, accepted: Bytes, pending: Bytes, all: Bytes) {
    start <= accepted && accepted + pending == start + all
  }

  lemma FlowStarts(start: Bytes, all: Bytes)
    ensures Flowing(start, start, all, all)
  {
  }

  lemma FlowEnds(start: Bytes, accepted: Bytes, pending: Bytes, all: Bytes)
    requires Flowing(start, accepted, pending, all)
    ensures start <= accepted <= start + all && accepted + pending == start + all
  {
    assert accepted <= accepted + pending;
  }

  lemma FlowGoesOn(start: Bytes, accepted: Bytes, pending: Bytes, all: Bytes, after: Bytes, left: Bytes)
    requires Flowing(start, accepted, pending, all) && accepted <= after && after + left == accepted + pending
    ensures Flowing(start, after, left, all)
  {
  }

  lemma FlowStops(start: Bytes, accepted: Bytes, pending: Bytes, all: Bytes, after: Bytes)
    requires Flowing(start, accepted, pending, all) && accepted <= after <= accepted + pending
    ensures start <= after <= start + all
  {
  }

  /** From the bytes of one call to those of the whole export. */
  lemma Landed(base: Bytes, before: Bytes, waiting: Bytes, s: Bytes, admitted: Bytes, after: Bytes)
    requires base <= before <= after <= before + (waiting + s) && before + waiting + s == base + admitted
    ensures base <= after <= base + admitted && |admitted| == |before| - |base| + (|waiting| + |s|)
    ensures before + (waiting + s) == base + admitted
  {
    assert before + (waiting + s) == before + waiting + s;
  }

  /** Pouring sends whole blocks until it stops early, and stops only for a cause. */
  lemma {:induction false} PourFacts(all: Bytes, script: seq<Reply>, answers: seq<bool>)
    ensures var p := Pour(all, script, answers);
            && (p.outcome.Done? ==> p.sent == BUFFER * (|all| / BUFFER))
            && (p.outcome.Cancelled? ==> p.sent < BUFFER * (|all| / BUFFER))
            && (p.outcome.Output? ==> !Obliging(script)) && (Obliging(script) ==> Obliging(p.script))
    decreases |all|
  {
    hide Drain, Obliging;
    if |all| >= BUFFER {
      DrainCauses(all[..BUFFER], script, answers);
      var d := Drain(all[..BUFFER], script, answers);
      if d.outcome.Done? { PourFacts(all[BUFFER..], d.script, d.answers); }
    }
  }

  lemma BlocksMore(sent: nat, more: nat, all: nat)
    requires sent % BUFFER == 0
    ensures more == BUFFER * (all / BUFFER) ==> sent + more == BUFFER * ((sent + all) / BUFFER)
    ensures more < BUFFER * (all / BUFFER) ==> sent + more < BUFFER * ((sent + all) / BUFFER)
  {
    assert (sent + all) / BUFFER == sent / BUFFER + all / BUFFER;
  }

  /** What emitting `piece` after `before` may have admitted, given its outcome. */
  predicate Emits(before: Bytes, piece: Bytes, after: Bytes, limit: nat, r: Outcome) {
    && before <= after <= before + piece
    && (r.Done? ==> after == before + piece)
    && (r.ByteLimit? ==> limit < r.required <= |before| + |piece| && r.required < U64)
    && (r.Unsupported? ==> |before| + |piece| >= U64)
    && (r.Done? || r.Cancelled? || r.Unsupported? || r.ByteLimit? || r.Output?)
  }

  /** A failure inside one part of a larger piece is a failure of the piece. */
  lemma FailsWithin(before: Bytes, first: Bytes, part: Bytes, piece: Bytes, after: Bytes, limit: nat, r: Outcome)
    requires Emits(before + first, part, after, limit, r) && !r.Done?
    requires first + part <= piece
    ensures Emits(before, piece, after, limit, r)
  {
    assert before + first + part == before + (first + part);
    assert before + (first + part) <= before + piece;
  }

  lemma Associates(a: Bytes, b: Bytes, c: Bytes)
    ensures (a + b) + c == a + (b + c)
  {
  }

  lemma {:induction false} EscapeConcat(a: Bytes, b: Bytes)
    ensures Escape(a + b) == Escape(a) + Escape(b)
    decreases a
  {
    hide EscapeByte, Escape;
    if a == [] {
      EscapeNothing();
      assert a + b == b;
      EmptyPart(Escape(b));
    } else {
      EscapeConcat(a[1..], b);
      EscapeFirst(a);
      EscapeFirst(a + b);
      assert (a + b)[1..] == a[1..] + b && (a + b)[0] == a[0];
      Associates(EscapeByte(a[0]), Escape(a[1..]), Escape(b));
    }
  }

  lemma EscapeNothing()
    ensures Escape([]) == []
  {
  }

  lemma EscapeFirst(text: Bytes)
    requires text != []
    ensures Escape(text) == EscapeByte(text[0]) + Escape(text[1..])
  {
  }

  lemma EscapeOne(b: Byte)
    ensures Escape([b]) == EscapeByte(b)
  {
    assert Escape([b][1..]) == [];
  }

  /** Every scalar fits the formatting buffer. */
  lemma ScalarFits(v: Value)
    requires Printable(v) && !v.Null? && !v.Text?
    ensures |PrintValue(v)| <= SCALAR
  {
    if v.Int64? {
      assert Numerals.Power(10, 10) == 10_000_000_000;
      assert Numerals.Power(10, 20) == 10_000_000_000 * 10_000_000_000;
      Numerals.DigitsLength(if v.integer < 0 then -v.integer else v.integer, 20);
    }
  }

  lemma CountFits(rows: nat)
    requires rows < U64
    ensures |Numerals.Digits(rows)| <= SCALAR
  {
    assert Numerals.Power(10, 10) == 10_000_000_000;
    assert Numerals.Power(10, 20) == 10_000_000_000 * 10_000_000_000;
    Numerals.DigitsLength(rows, 20);
  }

  class Encoder {
    const sink: Sink
    const token: Token
    const buffer: array<Byte>
    const limit: nat
    var length: nat
    var bytes: nat
    /** The writer's contents before this export. */
    ghost const base: Bytes
    /** Everything the byte limit has let through, sent or still buffered. */
    ghost var admitted: Bytes
    /** A write loop has stopped early. */
    ghost var torn: bool
    /** The writer's early stops before this export. */
    ghost const stopsBefore: seq<Outcome>
    /** The writer was obliging from the start. */
    ghost const obliging: bool
    /** A check had found a request before this export. */
    ghost const foundBefore: bool

    /** Until a write loop stops early, exactly the whole blocks have been sent and the rest
        waits in the buffer. Whatever happens, the writer holds a prefix. */
    ghost predicate Valid()
      reads this, buffer, sink
    {
      && buffer.Length == BUFFER && length <= BUFFER
      && bytes == |admitted| <= limit < U64
      && base <= sink.accepted <= base + admitted
      && (obliging ==> Obliging(sink.script))
      && (!torn ==> length < BUFFER && sink.accepted + buffer[..length] == base + admitted && Aligned())
      && (!torn ==> sink.stops == stopsBefore)
    }

    /** Nothing has gone wrong so far. */
    ghost predicate Ready()
      reads this, buffer, sink, token
    {
      Valid() && !torn && token.found == foundBefore
    }

    ghost predicate Aligned()
      reads this, sink
    {
      |sink.accepted| - |base| == BUFFER * (|admitted| / BUFFER)
    }

    /** Fewer bytes than the whole blocks admitted have been sent. */
    ghost predicate Behind()
      reads this, sink
    {
      |sink.accepted| - |base| < BUFFER * (|admitted| / BUFFER)
    }

    constructor (sink: Sink, token: Token, limit: nat)
      requires limit < U64
      ensures Ready() && admitted == [] && base == sink.accepted && obliging == Obliging(sink.script)
      ensures stopsBefore == sink.stops
      ensures this.sink == sink && this.token == token && this.limit == limit && fresh(buffer)
    {
      this.sink, this.token, this.limit, obliging := sink, token, limit, Obliging(sink.script);
      buffer := new Byte[BUFFER];
      length, bytes := 0, 0;
      base, admitted, torn, stopsBefore, foundBefore := sink.accepted, [], false, sink.stops, token.found;
    }

    method FlushBuffer() returns (r: Outcome)
      requires buffer.Length == BUFFER && length <= BUFFER
      modifies `length, `torn, sink, token
      ensures r.Done? || r.Cancelled? || r.Output?
      ensures token.found == (old(token.found) || r.Cancelled?)
      ensures torn == (old(torn) || !r.Done?)
      ensures sink.stops == if r.Done? then old(sink.stops) else old(sink.stops) + [r]
      ensures old(sink.accepted) <= sink.accepted <= old(sink.accepted + buffer[..length])
      ensures r.Done? ==> length == 0 && sink.accepted == old(sink.accepted + buffer[..length])
      ensures !r.Done? ==> length == old(length)
      ensures Drained(|sink.accepted| - |old(sink.accepted)|, r, sink.script, token.Coming()) ==
              Drain(old(buffer[..length]), old(sink.script), old(token.Coming()))
      ensures r.Cancelled? ==> token.Requested() && |sink.accepted| < |old(sink.accepted)| + length
      ensures r.Output? ==> !Obliging(old(sink.script))
      ensures Obliging(old(sink.script)) ==> Obliging(sink.script)
    {
      DrainCauses(buffer[..length], sink.script, token.Coming());
      r := sink.WriteAll(buffer[..length], token);
      if !r.Done? {
        torn := true;
        return;
      }
      length := 0;
    }

    /** Copy as much of `rest` as the buffer has room for. */
    method Fill(rest: Bytes) returns (n: nat)
      requires buffer.Length == BUFFER && length < BUFFER && rest != []
      modifies `length, buffer
      ensures 0 < n <= |rest| && length == old(length) + n <= BUFFER
      ensures n < |rest| ==> length == BUFFER
      ensures buffer[..length] == old(buffer[..length]) + rest[..n]
    {
      n := Min(|rest|, BUFFER - length);
      forall i | 0 <= i < n {
        buffer[length + i] := rest[i];
      }
      length := length + n;
    }

    /** After any call: cancellation and output errors have their causes, and of the stops
        without an output error exactly a cancellation inside a write loop spoils the blocks. */
    ghost predicate Sound(r: Outcome)
      reads this, buffer, sink, token
    {
      && Valid() && (r.Done? ==> !torn) && token.found == (foundBefore || r.Cancelled?)
      && (torn ==> (r.Cancelled? || r.Output?) && sink.stops == stopsBefore + [r])
      && (r.Cancelled? ==> token.Requested() && (torn ==> Behind()))
      && (r.Output? ==> torn && !obliging)
    }

    /** Admit all of `s` or none of it, then buffer it and send every block it completes.
        Cancellation may be requested at any check; what the checks find and what the writer
        replies decide the outcome. */
    method Put(s: Bytes) returns (r: Outcome)
      requires Ready()
      modifies this, buffer, sink, token
      ensures old(token.Coming()) != [] && old(token.Coming())[0] ==> r == Cancelled && admitted == old(admitted)
      ensures !(old(token.Coming()) != [] && old(token.Coming())[0]) && |old(admitted)| + |s| <= limit ==>
        && admitted == old(admitted) + s && |sink.accepted| >= |old(sink.accepted)|
        && Poured(|sink.accepted| - |old(sink.accepted)|, r, sink.script, token.Coming()) ==
           Pour(old(buffer[..length]) + s, old(sink.script), Tail(old(token.Coming())))
      ensures Sound(r) && Emits(old(admitted), s, admitted, limit, r)
      ensures admitted == old(admitted) || admitted == old(admitted) + s
      ensures !(old(token.Coming()) != [] && old(token.Coming())[0]) && |old(admitted)| + |s| > limit ==>
        && admitted == old(admitted)
        && r == if |old(admitted)| + |s| >= U64 then Unsupported else ByteLimit(|old(admitted)| + |s|)
    {
      var cancelled := token.Check();
      if cancelled {
        return Cancelled;
      }
      var required := bytes + |s|;
      if required >= U64 {
        return Unsupported;
      }
      if required > limit {
        return ByteLimit(required);
      }
      bytes := required;
      admitted := admitted + s;
      r := Buffer(s);
    }

    /** Fill the buffer from `rest` and send it if that completes a block. */
    method Turn(rest: Bytes) returns (r: Outcome, n: nat)
      requires !torn && buffer.Length == BUFFER && length < BUFFER && rest != []
      modifies `length, `torn, buffer, sink, token
      ensures 0 < n <= |rest| && length <= BUFFER && torn == !r.Done? && (r.Done? || r.Cancelled? || r.Output?)
      ensures sink.stops == if r.Done? then old(sink.stops) else old(sink.stops) + [r]
      ensures token.found == (old(token.found) || r.Cancelled?)
      ensures old(sink.accepted) <= sink.accepted
      ensures r.Done? ==>
        && length < BUFFER
        && sink.accepted + (buffer[..length] + rest[n..]) == old(sink.accepted) + (old(buffer[..length]) + rest)
      ensures !r.Done? ==> sink.accepted <= old(sink.accepted) + (old(buffer[..length]) + rest)
      ensures r.Cancelled? ==> token.Requested()
      ensures Pour(old(buffer[..length]) + rest, old(sink.script), old(token.Coming())) ==
              var sent := |sink.accepted| - |old(sink.accepted)|;
              if r.Done? then Ahead(sent, Pour(buffer[..length] + rest[n..], sink.script, token.Coming()))
              else Poured(sent, r, sink.script, token.Coming())
    {
      hide *;
      ghost var kept, before := buffer[..length], sink.accepted;
      n := Fill(rest);
      ghost var full := buffer[..length];
      Refilled(before, kept, rest, n);
      if length < BUFFER {
        AheadNothing(Pour(kept + rest, sink.script, token.Coming()));
        return Done, n;
      }
      PourFull(full, rest[n..], sink.script, token.Coming());
      r := FlushBuffer();
      if r.Done? {
        assert buffer[..length] == [];
        BlockSent(before, full, rest[n..]);
      } else {
        PrefixOf(before, sink.accepted, full, rest[n..]);
      }
    }

    /** Buffer admitted bytes, sending every block they complete. */
    method Buffer(s: Bytes) returns (r: Outcome)
      requires !torn && buffer.Length == BUFFER && length < BUFFER && base <= sink.accepted
      requires sink.accepted + buffer[..length] + s == base + admitted
      requires (|sink.accepted| - |base|) % BUFFER == 0
      modifies `length, `torn, buffer, sink, token
      ensures token.found == (old(token.found) || r.Cancelled?)
      ensures r.Done? || r.Cancelled? || r.Output?
      ensures length <= BUFFER && base <= sink.accepted <= base + admitted && torn == !r.Done?
      ensures sink.stops == if r.Done? then old(sink.stops) else old(sink.stops) + [r]
      ensures r.Done? ==> length < BUFFER && sink.accepted + buffer[..length] == base + admitted && Aligned()
      ensures r.Cancelled? ==> token.Requested() && Behind()
      ensures r.Output? ==> !Obliging(old(sink.script))
      ensures Obliging(old(sink.script)) ==> Obliging(sink.script)
      ensures |sink.accepted| >= |old(sink.accepted)|
      ensures Poured(|sink.accepted| - |old(sink.accepted)|, r, sink.script, token.Coming()) ==
              Pour(old(buffer[..length]) + s, old(sink.script), old(token.Coming()))
    {
      hide Pour, Obliging, Drain, Tail, Min, Ahead, Flowing, Token.Requested;
      ghost var before, waiting, n := sink.accepted, buffer[..length], length;
      PourFacts(waiting + s, sink.script, token.Coming());
      r := PourAll(s);
      Landed(base, before, waiting, s, admitted, sink.accepted);
      BlocksMore(|before| - |base|, |sink.accepted| - |before|, n + |s|);
    }

    /** Turn by turn. What is sent is what pouring everything that waits would send. */
    method PourAll(s: Bytes) returns (r: Outcome)
      requires !torn && buffer.Length == BUFFER && length < BUFFER
      modifies `length, `torn, buffer, sink, token
      ensures token.found == (old(token.found) || r.Cancelled?)
      ensures r.Done? || r.Cancelled? || r.Output?
      ensures length <= BUFFER && torn == !r.Done?
      ensures sink.stops == if r.Done? then old(sink.stops) else old(sink.stops) + [r]
      ensures old(sink.accepted) <= sink.accepted <= old(sink.accepted) + (old(buffer[..length]) + s)
      ensures r.Done? ==>
        && length < BUFFER && sink.accepted + buffer[..length] == old(sink.accepted) + (old(buffer[..length]) + s)
      ensures r.Cancelled? ==> token.Requested()
      ensures Poured(|sink.accepted| - |old(sink.accepted)|, r, sink.script, token.Coming()) ==
              Pour(old(buffer[..length]) + s, old(sink.script), old(token.Coming()))
    {
      hide *;
      var rest := s;
      ghost var start, all, sent: nat := sink.accepted, buffer[..length] + s, 0;
      ghost var whole := Pour(all, sink.script, token.Coming());
      AheadNothing(whole);
      FlowStarts(start, all);
      while rest != []
        invariant !torn && length < BUFFER && sink.stops == old(sink.stops) && token.found == old(token.found)
        invariant Flowing(start, sink.accepted, buffer[..length] + rest, all) && |sink.accepted| == |start| + sent
        invariant whole == Ahead(sent, Pour(buffer[..length] + rest, sink.script, token.Coming()))
        decreases |rest|
      {
        ghost var before, pending := sink.accepted, buffer[..length] + rest;
        var n;
        r, n := Turn(rest);
        ghost var more: nat := |sink.accepted| - |before|;
        AheadTwice(sent, more, Pour(buffer[..length] + rest[n..], sink.script, token.Coming()));
        AheadDone(sent, more, r, sink.script, token.Coming());
        sent := sent + more;
        if !r.Done? {
          FlowStops(start, before, pending, all, sink.accepted);
          return;
        }
        FlowGoesOn(start, before, pending, all, sink.accepted, buffer[..length] + rest[n..]);
        rest := rest[n..];
      }
      assert buffer[..length] + rest == buffer[..length];
      FlowEnds(start, sink.accepted, buffer[..length], all);
      PourLittle(buffer[..length], sink.script, token.Coming());
      AheadDone(sent, 0, Done, sink.script, token.Coming());
      return Done;
    }

    /** Put the next part of a larger piece, of which `first` is already admitted. */
    method Part(part: Bytes, ghost before: Bytes, ghost first: Bytes, ghost piece: Bytes) returns (r: Outcome)
      requires Ready()
      requires admitted == before + first && first + part <= piece
      modifies this, buffer, sink, token
      ensures Sound(r) && (r.Done? ==> Ready())
      ensures !r.Done? || first + part == piece ==> Emits(before, piece, admitted, limit, r)
      ensures r.Done? ==> admitted == before + (first + part)
      ensures admitted == before + first || admitted == before + (first + part)
    {
      r := Put(part);
      Associates(before, first, part);
      if r.Done? {
        assert before + (first + part) <= before + piece;
      } else {
        FailsWithin(before, first, part, piece, admitted, limit, r);
      }
    }

    /** Print a scalar through the fixed formatting buffer. */
    method Formatted(s: Bytes) returns (r: Outcome)
      requires Ready()
      modifies this, buffer, sink, token
      ensures Sound(r)
      ensures r.Corrupt? <==> |s| > SCALAR
      ensures if r.Corrupt? then admitted == old(admitted) else Emits(old(admitted), s, admitted, limit, r)
    {
      if |s| > SCALAR {
        return Corrupt;
      }
      r := Put(s);
    }

    /** The run of plain bytes before a special byte, then its escape. */
    method Segment(text: Bytes, start: nat, index: nat, ghost before: Bytes) returns (r: Outcome)
      requires Ready() && start <= index < |text|
      requires forall i :: start <= i < index ==> !Special(text[i])
      requires admitted == before + Open(text, start)
      modifies this, buffer, sink, token
      ensures Sound(r) && (r.Done? ==> Ready())
      ensures r.Done? ==> admitted == before + Open(text, index + 1)
      ensures !r.Done? ==> Emits(before, PrintString(text), admitted, limit, r)
      ensures BetweenEscapes(before, text, admitted)
    {
      hide Open, PrintString, Escape, EscapeByte, BetweenEscapes, Emits;
      OpenPlain(text, start, index);
      Boundaries(before, text, start);
      Boundaries(before, text, index);
      r := Part(text[start..index], before, Open(text, start), PrintString(text));
      if !r.Done? {
        return;
      }
      OpenNext(text, index);
      Boundaries(before, text, index + 1);
      r := Part(EscapeByte(text[index]), before, Open(text, index), PrintString(text));
    }

    /** Print text as a JSON string, one run of plain bytes or one escape at a time. Whatever
        happens, no escape is admitted in part. */
    method String(text: Bytes) returns (r: Outcome)
      requires Ready()
      modifies this, buffer, sink, token
      ensures Sound(r) && Emits(old(admitted), PrintString(text), admitted, limit, r)
      ensures BetweenEscapes(old(admitted), text, admitted)
    {
      hide Open, PrintString, Escape, EscapeByte, BetweenEscapes, Emits, Encoder.Sound, Encoder.Ready, Encoder.Valid;
      ghost var before := admitted;
      Opened(text, 0);
      Boundaries(before, text, 0);
      r := Part([QUOTE], before, [], PrintString(text));
      if !r.Done? {
        return;
      }
      var start, index := 0, 0;
      while index < |text|
        invariant 0 <= start <= index <= |text|
        invariant Ready()
        invariant admitted == before + Open(text, start)
        invariant forall i :: start <= i < index ==> !Special(text[i])
      {
        if Special(text[index]) {
          r := Segment(text, start, index, before);
          if !r.Done? {
            return;
          }
          start := index + 1;
        }
        index := index + 1;
      }
      OpenPlain(text, start, |text|);
      Boundaries(before, text, start);
      Boundaries(before, text, |text|);
      r := Part(text[start..|text|], before, Open(text, start), PrintString(text));
      if !r.Done? {
        return;
      }
      r := Part([QUOTE], before, Open(text, |text|), PrintString(text));
    }

    /** One result cell. */
    method Cell(v: Value) returns (r: Outcome)
      requires Ready() && Printable(v)
      modifies this, buffer, sink, token
      ensures Sound(r) && Emits(old(admitted), PrintValue(v), admitted, limit, r)
    {
      match v {
        case Null => r := Put(Ascii("null"));
        case Text(text) => r := String(text);
        case _ =>
          ScalarFits(v);
          r := Formatted(PrintValue(v));
      }
    }

    method Name(name: Option<Bytes>) returns (r: Outcome)
      requires Ready()
      modifies this, buffer, sink, token
      ensures Sound(r) && Emits(old(admitted), PrintName(name), admitted, limit, r)
    {
      match name {
        case Some(text) => r := String(text);
        case None => r := Put(Ascii("null"));
      }
    }

    method Describe(c: Column) returns (r: Outcome)
      requires Ready()
      modifies this, buffer, sink, token
      ensures Sound(r) && Emits(old(admitted), PrintColumn(c), admitted, limit, r)
    {
      hide NameHead, PrintName, TypeHead, PrintString, TypeName, NullableHead, PrintNullable, PrintColumn, Emits;
      ghost var before, whole := admitted, PrintColumn(c);
      ghost var p1, p2, p3, p4, p5, p6 := ColumnPrefixes(c);
      r := Part(NameHead(), before, [], whole);
      if !r.Done? { return; }
      r := Name(c.name);
      Within(before, p1, PrintName(c.name), whole, admitted, limit, r);
      if !r.Done? { return; }
      r := Part(TypeHead(), before, p2, whole);
      if !r.Done? { return; }
      r := String(TypeName(c.kind));
      Within(before, p3, PrintString(TypeName(c.kind)), whole, admitted, limit, r);
      if !r.Done? { return; }
      r := Part(NullableHead(), before, p4, whole);
      if !r.Done? { return; }
      r := Part(PrintNullable(c.nullable), before, p5, whole);
      if !r.Done? { return; }
      r := Part([125], before, p6, whole);
    }

    /** The schema record and its line end. */
    method Schema(schema: seq<Column>) returns (r: Outcome)
      requires Ready()
      modifies this, buffer, sink, token
      ensures Sound(r) && Emits(old(admitted), SchemaLine(schema) + [LF], admitted, limit, r)
    {
      hide SchemaHead, Columns, PrintColumn, Joined, Close, SchemaLine, Emits;
      ghost var before, head, parts, whole := admitted, SchemaHead(), Columns(schema), SchemaLine(schema) + [LF];
      SchemaParts(schema);
      ListHead(head, parts, Close() + [LF]);
      r := Part(SchemaHead(), before, [], whole);
      if !r.Done? { return; }
      var index := 0;
      while index < |schema|
        invariant index <= |schema| && Ready()
        invariant admitted == before + (head + Joined(parts[..index]))
      {
        ListPart(head, parts, Close() + [LF], index);
        if index != 0 {
          ListSeparator(head, parts, Close() + [LF], index);
          r := Part([44], before, head + Joined(parts[..index]), whole);
          if !r.Done? { return; }
        }
        r := Describe(schema[index]);
        Within(before, Separated(head, parts, index), parts[index], whole, admitted, limit, r);
        if !r.Done? { return; }
        index := index + 1;
      }
      r := Part(Close() + [LF], before, head + Joined(parts), whole);
    }

    /** One row record and its line end. */
    method Row(row: seq<Value>) returns (r: Outcome)
      requires Ready() && PrintableRow(row)
      modifies this, buffer, sink, token
      ensures Sound(r) && Emits(old(admitted), RowLine(row) + [LF], admitted, limit, r)
    {
      hide RowHead, Cells, PrintValue, Joined, Close, RowLine, Emits;
      ghost var before, head, parts, whole := admitted, RowHead(), Cells(row), RowLine(row) + [LF];
      RowParts(row);
      ListHead(head, parts, Close() + [LF]);
      r := Part(RowHead(), before, [], whole);
      if !r.Done? { return; }
      var column := 0;
      while column < |row|
        invariant column <= |row| && Ready()
        invariant admitted == before + (head + Joined(parts[..column]))
      {
        ListPart(head, parts, Close() + [LF], column);
        if column != 0 {
          ListSeparator(head, parts, Close() + [LF], column);
          r := Part([44], before, head + Joined(parts[..column]), whole);
          if !r.Done? { return; }
        }
        r := Cell(row[column]);
        Within(before, Separated(head, parts, column), parts[column], whole, admitted, limit, r);
        if !r.Done? { return; }
        column := column + 1;
      }
      r := Part(Close() + [LF], before, head + Joined(parts), whole);
    }

    /** The completion record and its line end. */
    method Complete(rows: nat) returns (r: Outcome)
      requires Ready() && rows < U64
      modifies this, buffer, sink, token
      ensures Sound(r) && Emits(old(admitted), CompleteLine(rows) + [LF], admitted, limit, r)
    {
      hide CompleteHead, Emits, Numerals.Digits, CompleteLine;
      ghost var before, whole := admitted, CompleteLine(rows) + [LF];
      ghost var digits := CompleteHead() + Numerals.Digits(rows);
      CompleteParts(rows);
      r := Part(CompleteHead(), before, [], whole);
      if !r.Done? { return; }
      CountFits(rows);
      r := Formatted(Numerals.Digits(rows));
      Within(before, CompleteHead(), Numerals.Digits(rows), whole, admitted, limit, r);
      if !r.Done? { return; }
      r := Part([125, LF], before, digits, whole);
    }
  }

  lemma Within(before: Bytes, first: Bytes, part: Bytes, piece: Bytes, after: Bytes, limit: nat, r: Outcome)
    requires Emits(before + first, part, after, limit, r) && first + part <= piece
    ensures r.Done? ==> after == before + (first + part)
    ensures !r.Done? || first + part == piece ==> Emits(before, piece, after, limit, r)
  {
    Associates(before, first, part);
    if !r.Done? { FailsWithin(before, first, part, piece, after, limit, r); }
  }

  lemma ColumnPrefixes(c: Column) returns (p1: Bytes, p2: Bytes, p3: Bytes, p4: Bytes, p5: Bytes, p6: Bytes)
    ensures p1 == [] + NameHead() && p2 == p1 + PrintName(c.name) && p3 == p2 + TypeHead()
    ensures p4 == p3 + PrintString(TypeName(c.kind)) && p5 == p4 + NullableHead()
    ensures p6 == p5 + PrintNullable(c.nullable)
    ensures p1 <= p2 <= p3 <= p4 <= p5 <= p6 && p6 + [125] == PrintColumn(c)
    ensures p1 <= PrintColumn(c) && p2 <= PrintColumn(c) && p3 <= PrintColumn(c)
    ensures p4 <= PrintColumn(c) && p5 <= PrintColumn(c) && p6 <= PrintColumn(c)
  {
    hide NameHead, PrintName, TypeHead, PrintString, TypeName, NullableHead, PrintNullable;
    p1 := [] + NameHead();
    p2 := p1 + PrintName(c.name);
    p3 := p2 + TypeHead();
    p4 := p3 + PrintString(TypeName(c.kind));
    p5 := p4 + NullableHead();
    p6 := p5 + PrintNullable(c.nullable);
  }

  lemma CompleteParts(rows: nat)
    ensures var digits := CompleteHead() + Numerals.Digits(rows);
            CompleteHead() <= digits <= CompleteLine(rows) + [LF] == digits + [125, LF]
    ensures [] + CompleteHead() == CompleteHead()
  {
    hide CompleteHead, Numerals.Digits;
    assert Ascii("}") == [125];
    assert [125] + [LF] == [125, LF];
  }

  lemma SchemaParts(schema: seq<Column>)
    ensures SchemaLine(schema) + [LF] == SchemaHead() + Joined(Columns(schema)) + (Close() + [LF])
    ensures forall i :: 0 <= i < |schema| ==> Columns(schema)[i] == PrintColumn(schema[i])
  {
    hide SchemaHead, Joined, PrintColumn, Close;
  }

  lemma RowParts(row: seq<Value>)
    requires PrintableRow(row)
    ensures RowLine(row) + [LF] == RowHead() + Joined(Cells(row)) + (Close() + [LF])
    ensures forall i :: 0 <= i < |row| ==> Cells(row)[i] == PrintValue(row[i])
  {
    hide RowHead, Joined, PrintValue, Close;
  }

  /** A list's head and its first `k` parts, and the separator that part `k` needs. */
  function Separated(head: Bytes, parts: seq<Bytes>, k: nat): Bytes
    requires k <= |parts|
  {
    if k == 0 then head + Joined(parts[..k]) else head + Joined(parts[..k]) + [44]
  }

  lemma JoinedNext(parts: seq<Bytes>, k: nat)
    requires k < |parts|
    ensures Joined(parts[..k + 1]) == (if k == 0 then [] else Joined(parts[..k]) + [44]) + parts[k]
  {
    assert parts[..k + 1][..k] == parts[..k];
  }

  lemma {:induction false} JoinedGrows(parts: seq<Bytes>, k: nat)
    requires k <= |parts|
    ensures Joined(parts[..k]) <= Joined(parts)
    ensures 0 < k < |parts| ==> Joined(parts[..k]) + [44] <= Joined(parts)
    decreases |parts| - k
  {
    if k == |parts| {
      assert parts[..k] == parts;
    } else {
      JoinedGrows(parts, k + 1);
      JoinedNext(parts, k);
    }
  }

  lemma ListNext(head: Bytes, parts: seq<Bytes>, k: nat)
    requires k < |parts|
    ensures Separated(head, parts, k) + parts[k] == head + Joined(parts[..k + 1])
  {
    JoinedNext(parts, k);
    if k == 0 {
      assert Joined(parts[..0]) == [];
    } else {
      hide Joined;
      Associates(head, Joined(parts[..k]), [44]);
      Associates(head, Joined(parts[..k]) + [44], parts[k]);
    }
  }

  lemma ListHead(head: Bytes, parts: seq<Bytes>, tail: Bytes)
    ensures [] + head == head <= head + Joined(parts) + tail
    ensures head + Joined(parts[..0]) == head
    ensures parts[..|parts|] == parts
  {
    NothingJoined(parts);
    hide Joined;
    EmptyPart(head);
    Prefixed(head, [], Joined(parts), tail);
  }

  lemma EmptyPart(head: Bytes)
    ensures [] + head == head && head + [] == head
  {
  }

  lemma NothingJoined(parts: seq<Bytes>)
    ensures Joined(parts[..0]) == []
  {
  }

  lemma ListSeparator(head: Bytes, parts: seq<Bytes>, tail: Bytes, k: nat)
    requires 0 < k < |parts|
    ensures head + Joined(parts[..k]) + [44] == Separated(head, parts, k) <= head + Joined(parts) + tail
  {
    JoinedGrows(parts, k);
    hide Joined;
    Prefixed(head, Joined(parts[..k]) + [44], Joined(parts), tail);
    Associates(head, Joined(parts[..k]), [44]);
  }

  lemma ListPart(head: Bytes, parts: seq<Bytes>, tail: Bytes, k: nat)
    requires k < |parts|
    ensures Separated(head, parts, k) + parts[k] == head + Joined(parts[..k + 1]) <= head + Joined(parts) + tail
  {
    ListNext(head, parts, k);
    JoinedGrows(parts, k + 1);
    hide Joined, Separated;
    Prefixed(head, Joined(parts[..k + 1]), Joined(parts), tail);
  }

  lemma Prefixed(head: Bytes, a: Bytes, b: Bytes, tail: Bytes)
    requires a <= b
    ensures head + a <= head + b + tail
  {
  }

  lemma Refilled(before: Bytes, kept: Bytes, rest: Bytes, n: nat)
    requires n <= |rest|
    ensures (kept + rest[..n]) + rest[n..] == kept + rest
    ensures before + ((kept + rest[..n]) + rest[n..]) == before + (kept + rest)
  {
    assert rest == rest[..n] + rest[n..];
  }

  lemma BlockSent(before: Bytes, full: Bytes, rest: Bytes)
    ensures [] + rest == rest && (before + full) + rest == before + (full + rest)
  {
  }

  lemma PrefixOf(before: Bytes, after: Bytes, full: Bytes, rest: Bytes)
    requires after <= before + full
    ensures after <= before + (full + rest)
  {
    assert before + (full + rest) == before + full + rest;
  }

  /** A printed string up to its first `k` bytes of text. */
  function Open(text: Bytes, k: nat): Bytes
    requires k <= |text|
  {
    [QUOTE] + Escape(text[..k])
  }

  /** `after` extends `before` by nothing, by the whole string, or by the string up to
      the end of some byte's escape. */
  predicate BetweenEscapes(before: Bytes, text: Bytes, after: Bytes) {
    || after == before || after == before + PrintString(text)
    || exists k: nat :: k <= |text| && after == before + Open(text, k)
  }

  lemma Boundaries(before: Bytes, text: Bytes, k: nat)
    requires k <= |text|
    ensures BetweenEscapes(before, text, before) && BetweenEscapes(before, text, before + PrintString(text))
    ensures BetweenEscapes(before, text, before + Open(text, k))
    ensures Open(text, |text|) + [QUOTE] == PrintString(text)
    ensures before + [] == before
  {
    hide Escape;
    assert text[..|text|] == text;
  }

  lemma Bracketed(q: Bytes, a: Bytes, b: Bytes, c: Bytes)
    ensures q + (a + b) == (q + a) + b
    ensures (q + a) + b <= q + (a + b + c) + q
  {
  }

  lemma Opened(text: Bytes, k: nat)
    requires k <= |text|
    ensures Open(text, k) <= PrintString(text)
    ensures Open(text, 0) == [QUOTE] == [] + [QUOTE]
  {
    OpenBetween(text, k, k);
    assert text[k..k] == [] && Escape(text[..0]) == [];
  }

  lemma OpenBetween(text: Bytes, start: nat, index: nat)
    requires start <= index <= |text|
    ensures Open(text, index) == Open(text, start) + Escape(text[start..index])
    ensures Open(text, start) + Escape(text[start..index]) <= PrintString(text)
  {
    hide Escape;
    var a, b, c := text[..start], text[start..index], text[index..];
    EscapeConcat(a, b);
    EscapeConcat(a + b, c);
    assert a + b == text[..index] && a + b + c == text;
    Bracketed([QUOTE], Escape(a), Escape(b), Escape(c));
  }

  lemma OpenPlain(text: Bytes, start: nat, index: nat)
    requires start <= index <= |text| && forall i :: start <= i < index ==> !Special(text[i])
    ensures Open(text, index) == Open(text, start) + text[start..index]
    ensures Open(text, start) + text[start..index] <= PrintString(text)
  {
    hide Open, Escape, PrintString;
    JsonlReader.PlainEscape(text[start..index]);
    OpenBetween(text, start, index);
  }

  lemma OpenNext(text: Bytes, index: nat)
    requires index < |text|
    ensures Open(text, index + 1) == Open(text, index) + EscapeByte(text[index])
    ensures Open(text, index) + EscapeByte(text[index]) <= PrintString(text)
  {
    hide Open, Escape, PrintString, EscapeByte;
    EscapeOne(text[index]);
    OpenBetween(text, index, index + 1);
    assert text[index..index + 1] == [text[index]];
  }

  /** A block can be torn: everything is admitted, and a cancellation found before the block's first
      write, or between two short ones, leaves the writer with none of it, or with one byte. */
  method TornBlock(block: Bytes, between: bool) returns (r: Outcome, sent: Bytes, ghost admitted: Bytes)
    requires |block| == BUFFER
    ensures r == Cancelled && admitted == block
    ensures sent == if between then block[..1] else []
  {
    hide Drain, Pour, Tail, Token.Coming, Obliging;
    var later := if between then [false, true] else [true];
    var script := if between then [Wrote(1)] else [];
    var token := new Token([false] + later);
    var sink := new Sink(script, true);
    FirstAnswer(token, later);
    CancelledInBlock(block, []);
    var encoder := new Encoder(sink, token, BUFFER);
    assert encoder.buffer[..encoder.length] == [];
    PourFull(block, [], script, later);
    assert [] + block == block && block + [] == block;
    r := encoder.Put(block);
    sent, admitted := sink.accepted, encoder.admitted;
  }

  lemma FirstAnswer(token: Token, later: seq<bool>)
    requires token.at == 0 && token.answers == [false] + later
    ensures token.Coming() == [false] + later && Tail(token.Coming()) == later
  {
    assert token.answers[0..] == token.answers && ([false] + later)[1..] == later;
  }
}
