/** Columnar batches: one array per column, a validity bit per row, and an append-only text
    arena with a span per row. Every batch is a plain map from cells to values. */
module Batches {
  import opened Basics
  import opened Values
  import opened WordBits
  import opened Utf8

  const ROWS: nat := 256
  const WORDS: nat := 4

  datatype Span = Span(start: nat, end: nat)

  datatype Data =
    | Doubles(doubles: seq<nat>)
    | Ints(ints: seq<int>)
    | Keys(keys: seq<Byte>)
    | Texts(spans: seq<Span>, bytes: seq<Byte>, capacity: nat)
    | Dates(dates: seq<int>)

  datatype Column = Column(data: Data, valid: seq<bv64>)

  /** Printable ASCII but for the delimiter. */
  predicate IsKey(b: Byte) { 0x20 <= b <= 0x7e && b != 0x7c }

  predicate Shaped(column: Column) {
    && |column.valid| == WORDS
    && match column.data
       case Doubles(v) => |v| == ROWS
       case Ints(v) => |v| == ROWS
       case Keys(v) => |v| == ROWS
       case Texts(spans, bytes, capacity) => |spans| == ROWS && |bytes| <= capacity
       case Dates(v) => |v| == ROWS
  }

  function Kind(data: Data): DataType {
    match data
    case Doubles(_) => DOUBLE
    case Ints(_) => INT64
    case Keys(_) => STRING
    case Texts(_, _, _) => STRING
    case Dates(_) => DATE
  }

  predicate Present(column: Column, row: nat)
    requires Shaped(column) && row < ROWS
  {
    Has(column.valid[row / 64], row % 64)
  }

  // Text is UTF-8, and a slice of it must not cut a character

  /** Slicing the text by this span does not panic. */
  predicate Slices(bytes: seq<Byte>, span: Span) {
    span.start <= span.end <= |bytes| && Boundary(bytes, span.start) && Boundary(bytes, span.end)
  }

  predicate Proper(value: Value) { value.Text? ==> Begins(value.text) }

  lemma SlicesGrow(bytes: seq<Byte>, text: seq<Byte>, span: Span)
    requires Slices(bytes, span) && Begins(text)
    ensures Slices(bytes + text, span) && (bytes + text)[span.start..span.end] == bytes[span.start..span.end]
    ensures Slices(bytes + text, Span(|bytes|, |bytes| + |text|))
    ensures (bytes + text)[|bytes|..|bytes| + |text|] == text
  {
  }

  lemma EmptySlices(bytes: seq<Byte>)
    ensures Slices(bytes, Span(0, 0))
  {
  }

  /** The row's text can be read: its span lies in the arena and cuts no character. */
  predicate InArena(column: Column, row: nat)
    requires Shaped(column) && row < ROWS
  {
    column.data.Texts? ==> Slices(column.data.bytes, column.data.spans[row])
  }

  /** Every row that a reader may reach has readable text. */
  predicate Safe(column: Column)
    requires Shaped(column)
  {
    forall row: nat :: row < ROWS && Present(column, row) ==> InArena(column, row)
  }

  /** What the column's array has in a row, whatever the row's bit says. */
  function Held(column: Column, row: nat): Value
    requires Shaped(column) && row < ROWS && InArena(column, row)
  {
    match column.data
    case Doubles(v) => Double(v[row])
    case Ints(v) => Int64(v[row])
    case Keys(v) => Text([v[row]])
    case Texts(spans, bytes, _) => Text(bytes[spans[row].start..spans[row].end])
    case Dates(v) => Date(v[row])
  }

  /** What the column holds in a row; a cleared bit is NULL whatever the array says. */
  function Cell(column: Column, row: nat): Value
    requires Shaped(column) && Safe(column) && row < ROWS
  {
    if !Present(column, row) then Null
    else
      assert InArena(column, row);
      Held(column, row)
  }

  datatype Refusal = RowLimit | Missing | OutsideKeys | TypeDisagrees | TextFull(required: nat)

  /** Why a column refuses a value, if it does. */
  function Refuses(column: Column, value: Value): Option<Refusal> {
    match (column.data, value)
    case (_, Null) => None
    case (Doubles(_), Double(_)) => None
    case (Ints(_), Int64(_)) => None
    case (Keys(_), Text(text)) => if |text| == 1 && IsKey(text[0]) then None else Some(OutsideKeys)
    case (Texts(_, bytes, capacity), Text(text)) =>
      if |bytes| + |text| <= capacity then None else Some(TextFull(|bytes| + |text|))
    case (Dates(_), Date(_)) => None
    case _ => Some(TypeDisagrees)
  }

  /** The SQL type of a value that is not NULL. */
  function TypeOf(value: Value): Option<DataType> {
    match value
    case Null => None
    case Int64(_) => Some(INT64)
    case Double(_) => Some(DOUBLE)
    case Date(_) => Some(DATE)
    case Text(_) => Some(STRING)
  }

  /** A column holds values of its own type, whatever its rows hold. */
  lemma HeldType(column: Column, row: nat)
    requires Shaped(column) && row < ROWS && InArena(column, row)
    ensures TypeOf(Held(column, row)) == Some(Kind(column.data))
  {
  }

  /** NULL is always accepted. Another value is refused first for its type, then by a key column for
      not being one printable ASCII byte other than the delimiter, or by a text column for not
      fitting behind the text already there. */
  lemma RefusesExactly(column: Column, value: Value)
    ensures value.Null? ==> Refuses(column, value).None?
    ensures Refuses(column, value) == Some(TypeDisagrees) <==> !value.Null? && TypeOf(value) != Some(Kind(column.data))
    ensures value.Text? && column.data.Keys? ==>
      (Refuses(column, value).None? <==> exists b: Byte :: 32 <= b < 127 && b != 124 && value.text == [b])
      && (Refuses(column, value).Some? ==> Refuses(column, value) == Some(OutsideKeys))
    ensures value.Text? && column.data.Texts? ==>
      var required := |column.data.bytes| + |value.text|;
      Refuses(column, value) == if required <= column.data.capacity then None else Some(TextFull(required))
    ensures !value.Text? && TypeOf(value) == Some(Kind(column.data)) ==> Refuses(column, value).None?
  {
    if value.Text? && |value.text| == 1 { assert value.text == [value.text[0]]; }
  }

  /** The column after an accepted write. New text goes to the end of the arena, old text stays. */
  function Stored(column: Column, row: nat, value: Value): (r: Column)
    requires Shaped(column) && row < ROWS && Refuses(column, value).None?
    ensures Shaped(r)
  {
    if value.Null? then column.(valid := column.valid[row / 64 := Remove(column.valid[row / 64], row % 64)])
    else
      var data := match (column.data, value)
        case (Doubles(v), Double(bits)) => Doubles(v[row := bits])
        case (Ints(v), Int64(i)) => Ints(v[row := i])
        case (Keys(v), Text(text)) => Keys(v[row := text[0]])
        case (Texts(spans, bytes, capacity), Text(text)) =>
          Texts(spans[row := Span(|bytes|, |bytes| + |text|)], bytes + text, capacity)
        case (Dates(v), Date(days)) => Dates(v[row := days])
        case _ => column.data;
      Column(data, column.valid[row / 64 := Insert(column.valid[row / 64], row % 64)])
  }

  lemma StoredPresent(column: Column, row: nat, value: Value, r: nat)
    requires Shaped(column) && row < ROWS && r < ROWS && Refuses(column, value).None?
    ensures Present(Stored(column, row, value), r) == if r == row then !value.Null? else Present(column, r)
  {
    hide WordBits.Has, WordBits.Insert, WordBits.Remove, Refuses;
    if row / 64 == r / 64 {
      HasInsert(column.valid[row / 64], row % 64, r % 64);
      HasRemove(column.valid[row / 64], row % 64, r % 64);
    }
  }

  lemma StoredInArena(column: Column, row: nat, value: Value, r: nat)
    requires Shaped(column) && row < ROWS && r < ROWS && Refuses(column, value).None?
    requires Proper(value) && ((r == row && !value.Null?) || InArena(column, r))
    ensures InArena(Stored(column, row, value), r)
  {
    if column.data.Texts? && value.Text? {
      SlicesGrow(column.data.bytes, value.text, if r == row then Span(0, 0) else column.data.spans[r]);
    }
  }

  /** An accepted write changes the cell it names, and no other. */
  lemma StoredReads(column: Column, row: nat, value: Value)
    requires Shaped(column) && Safe(column) && row < ROWS && Refuses(column, value).None? && Proper(value)
    ensures Safe(Stored(column, row, value))
    ensures forall r: nat :: r < ROWS ==>
      Cell(Stored(column, row, value), r) == if r == row then value else Cell(column, r)
  {
    var next := Stored(column, row, value);
    hide Slices, Proper, Stored, Refuses, Present;
    forall r: nat | r < ROWS && Present(next, r) ensures InArena(next, r) {
      StoredPresent(column, row, value, r);
      StoredInArena(column, row, value, r);
    }
    forall r: nat | r < ROWS ensures Cell(next, r) == if r == row then value else Cell(column, r) {
      StoredPresent(column, row, value, r);
      StoredCell(column, row, value, r);
    }
  }

  lemma StoredCell(column: Column, row: nat, value: Value, r: nat)
    requires Shaped(column) && Safe(column) && row < ROWS && r < ROWS && Refuses(column, value).None?
    requires Proper(value) && Safe(Stored(column, row, value))
    requires Present(Stored(column, row, value), r) == if r == row then !value.Null? else Present(column, r)
    ensures Cell(Stored(column, row, value), r) == if r == row then value else Cell(column, r)
  {
    hide Present, Slices;
    if column.data.Texts? && value.Text? {
      if r == row {
        EmptySlices(column.data.bytes);
        SlicesGrow(column.data.bytes, value.text, Span(0, 0));
      } else if Present(column, r) {
        assert InArena(column, r);
        SlicesGrow(column.data.bytes, value.text, column.data.spans[r]);
      }
    }
  }

  /** Validity cleared and the text arena emptied; spans and arrays keep their old contents. */
  function Cleared(column: Column): (r: Column)
    requires Shaped(column)
    ensures Shaped(r)
  {
    Column(if column.data.Texts? then column.data.(bytes := []) else column.data, seq(WORDS, _ => 0))
  }

  lemma ClearedReads(column: Column)
    requires Shaped(column)
    ensures Safe(Cleared(column)) && forall r: nat :: r < ROWS ==> Cell(Cleared(column), r) == Null
  {
    hide WordBits.Has;
    forall r: nat | r < ROWS ensures !Present(Cleared(column), r) { HasNone(r % 64); }
  }

  /** Marked present throughout, as the lending of a value array begins. */
  function MarkedPresent(column: Column): (r: Column)
    requires Shaped(column)
    ensures Shaped(r)
  {
    column.(valid := seq(WORDS, _ => ALL))
  }

  lemma MarkedReads(column: Column, row: nat)
    requires Shaped(column) && row < ROWS
    ensures Present(MarkedPresent(column), row)
  {
    hide WordBits.Has;
    AllSet(ALL);
  }

  /** Marking a column present keeps its text safe exactly when every span can still be read, also
      those left behind by an emptied arena. The marking happens before a text column is refused, so the refused
      call relies on this too. */
  lemma MarkedSafe(column: Column)
    requires Shaped(column)
    ensures Safe(MarkedPresent(column)) <==> forall row: nat :: row < ROWS ==> InArena(column, row)
  {
    forall row: nat | row < ROWS ensures Present(MarkedPresent(column), row) { MarkedReads(column, row); }
    hide WordBits.Has, Present;
    var marked := MarkedPresent(column);
    if Safe(marked) {
      forall row: nat | row < ROWS ensures InArena(column, row) {
        assert InArena(marked, row);
      }
    }
    forall row: nat | row < ROWS ensures InArena(marked, row) == InArena(column, row) {}
  }

  /** Such a marking leaves every cell reading as before exactly when the column had no NULL. */
  lemma MarkedChanges(column: Column)
    requires Shaped(column) && Safe(column) && Safe(MarkedPresent(column))
    ensures (forall row: nat :: row < ROWS ==> Cell(MarkedPresent(column), row) == Cell(column, row)) <==>
      NoNulls(column, ROWS)
  {
    forall row: nat | row < ROWS ensures Present(MarkedPresent(column), row) { MarkedReads(column, row); }
    hide WordBits.Has, Present;
    forall row: nat | row < ROWS
      ensures Cell(MarkedPresent(column), row) == Cell(column, row) <==> Present(column, row)
    {
      if Present(column, row) { assert InArena(column, row); }
    }
  }

  /** One written row, then an emptied batch: its old span now points past the arena, and the
      refused lending would expose it. */
  lemma StaleSpanExposed()
    ensures var column := Column(Texts(seq(ROWS, _ => Span(0, 0)), [], 8), seq(WORDS, _ => 0));
            Refuses(column, Text([65, 66, 67])).None? &&
              !Safe(MarkedPresent(Cleared(Stored(column, 0, Text([65, 66, 67])))))
  {
    var column := Column(Texts(seq(ROWS, _ => Span(0, 0)), [], 8), seq(WORDS, _ => 0));
    var stale := Cleared(Stored(column, 0, Text([65, 66, 67])));
    MarkedSafe(stale);
    assert stale.data.spans[0] == Span(0, 3) && !InArena(stale, 0);
  }

  /** A span left behind may also lie inside the refilled arena and cut one of its characters:
      "ab" is written, the batch emptied, and one character of three bytes written elsewhere. */
  lemma CharacterCut()
    ensures var column := Column(Texts(seq(ROWS, _ => Span(0, 0)), [], 8), seq(WORDS, _ => 0));
            var snow := Text([0xe9, 0x9b, 0xaa]);
            && Refuses(column, Text([97, 98])).None? && Proper(Text([97, 98])) && Proper(snow)
            && var emptied := Cleared(Stored(column, 0, Text([97, 98])));
               Refuses(emptied, snow).None?
               && var cut := Stored(emptied, 1, snow);
                  cut.data.spans[0].end <= |cut.data.bytes| && !Safe(MarkedPresent(cut))
  {
    var column := Column(Texts(seq(ROWS, _ => Span(0, 0)), [], 8), seq(WORDS, _ => 0));
    var cut := Stored(Cleared(Stored(column, 0, Text([97, 98]))), 1, Text([0xe9, 0x9b, 0xaa]));
    MarkedSafe(cut);
    assert cut.data.spans[0] == Span(0, 2) && cut.data.bytes[2] == 0xaa && !InArena(cut, 0);
  }

  // Filling a lent array

  /** What a lent array can be filled with: values of its own type. */
  predicate Fits(data: Data, value: Value) {
    match data
    case Doubles(_) => value.Double?
    case Keys(_) => value.Text? && |value.text| == 1 && IsKey(value.text[0])
    case Dates(_) => value.Date?
    case _ => false
  }

  predicate Fillable(data: Data, values: seq<Value>) {
    |values| <= ROWS && forall i :: 0 <= i < |values| ==> Fits(data, values[i])
  }

  function BitsOf(values: seq<Value>): seq<nat>
    requires forall i :: 0 <= i < |values| ==> values[i].Double?
  {
    seq(|values|, i requires 0 <= i < |values| => values[i].bits)
  }

  function KeysOf(values: seq<Value>): seq<Byte>
    requires forall i :: 0 <= i < |values| ==> values[i].Text? && |values[i].text| == 1
  {
    seq(|values|, i requires 0 <= i < |values| => values[i].text[0])
  }

  function DaysOf(values: seq<Value>): seq<int>
    requires forall i :: 0 <= i < |values| ==> values[i].Date?
  {
    seq(|values|, i requires 0 <= i < |values| => values[i].days)
  }

  /** The first rows of the array replaced, as the borrower of the lent slice leaves them. */
  function Prefilled(column: Column, values: seq<Value>): (r: Column)
    requires Shaped(column) && Fillable(column.data, values)
    ensures Shaped(r)
  {
    Column(match column.data
           case Doubles(v) => Doubles(BitsOf(values) + v[|values|..])
           case Keys(v) => Keys(KeysOf(values) + v[|values|..])
           case Dates(v) => Dates(DaysOf(values) + v[|values|..])
           case data => data, column.valid)
  }

  lemma PrefilledReads(column: Column, values: seq<Value>)
    requires Shaped(column) && Safe(column) && Fillable(column.data, values) && NoNulls(column, |values|)
    ensures Safe(Prefilled(column, values))
    ensures forall row: nat :: row < ROWS ==>
      Cell(Prefilled(column, values), row) == if row < |values| then values[row] else Cell(column, row)
  {
    var next := Prefilled(column, values);
    assert next.valid == column.valid;
    forall row: nat | row < ROWS ensures Present(next, row) == Present(column, row) {}
    hide Present;
    forall row: nat | row < |values| ensures Fits(column.data, values[row]) {}
  }

  /** What marking exposes: the array as it is. */
  function Contents(column: Column): (r: seq<Value>)
    requires Shaped(column) && forall row: nat :: row < ROWS ==> InArena(column, row)
    ensures |r| == ROWS && forall row: nat :: row < ROWS ==> r[row] == Held(column, row)
  {
    seq(ROWS, row requires 0 <= row < ROWS => Held(column, row))
  }

  lemma MarkedContents(column: Column)
    requires Shaped(column) && forall row: nat :: row < ROWS ==> InArena(column, row)
    ensures Safe(MarkedPresent(column))
    ensures forall row: nat :: row < ROWS ==> Cell(MarkedPresent(column), row) == Contents(column)[row]
  {
    forall row: nat | row < ROWS ensures Present(MarkedPresent(column), row) { MarkedReads(column, row); }
    hide WordBits.Has, Present, Slices;
    forall row: nat | row < ROWS ensures InArena(MarkedPresent(column), row) == InArena(column, row) {}
  }

  // Whole words and single rows

  predicate NoNulls(column: Column, rows: nat)
    requires Shaped(column) && rows <= ROWS
  {
    forall row: nat :: row < rows ==> Present(column, row)
  }

  lemma WholeWord(column: Column, i: nat)
    requires Shaped(column) && i < WORDS
    ensures column.valid[i] == ALL <==> forall row: nat :: 64 * i <= row < 64 * i + 64 ==> Present(column, row)
  {
    hide WordBits.Has;
    AllSet(column.valid[i]);
    forall j: nat | j < 64 ensures Has(column.valid[i], j) == Present(column, 64 * i + j) {}
    if forall row: nat :: 64 * i <= row < 64 * i + 64 ==> Present(column, row) {
      forall j | 0 <= j < 64 ensures Has(column.valid[i], j) {
        assert Present(column, 64 * i + j);
      }
    }
  }

  lemma PartWord(column: Column, i: nat, r: nat)
    requires Shaped(column) && i < WORDS && r < 64
    ensures And(column.valid[i], WordBits.Below(One(Place(r)))) == WordBits.Below(One(Place(r)))
      <==> forall row: nat :: 64 * i <= row < 64 * i + r ==> Present(column, row)
  {
    hide WordBits.Has, WordBits.And, WordBits.Below, WordBits.One, WordBits.Place;
    LowCovered(column.valid[i], r);
    if forall row: nat :: 64 * i <= row < 64 * i + r ==> Present(column, row) {
      forall j | 0 <= j < r ensures Has(column.valid[i], j) {
        assert Present(column, 64 * i + j);
      }
    }
  }

  /** `Column::require_nonnull`: whole words against all ones, and the last word's low bits
      against a mask. It agrees with looking at every row. */
  method RequireNonnull(column: Column, rows: nat) returns (ok: bool)
    requires Shaped(column) && rows <= ROWS
    ensures ok == NoNulls(column, rows)
  {
    hide Present;
    var words, remainder := rows / 64, rows % 64;
    var i := 0;
    while i < words
      invariant i <= words && NoNulls(column, 64 * i)
    {
      WholeWord(column, i);
      if column.valid[i] != ALL {
        return false;
      }
      i := i + 1;
    }
    if remainder != 0 {
      PartWord(column, words, remainder);
      var mask := WordBits.Below(One(Place(remainder)));
      if And(column.valid[words], mask) != mask {
        return false;
      }
    }
    return true;
  }

  // The batch

  /** What happens to a batch: a write, an emptying, or an array whose first rows were all made
      present with these values, as a lending does. */
  datatype Event = Wrote(row: nat, column: nat, value: Value) | Emptied | Filled(column: nat, values: seq<Value>)

  /** The value last given to a cell since the batch was last emptied. */
  function LastWritten(history: seq<Event>, row: nat, column: nat): Value {
    if history == [] then Null
    else
      var front := history[..|history| - 1];
      match history[|history| - 1]
      case Emptied => Null
      case Wrote(r, c, value) => if r == row && c == column then value else LastWritten(front, row, column)
      case Filled(c, values) =>
        if c == column && row < |values| then values[row] else LastWritten(front, row, column)
  }

  /** The column reads back as the history says. */
  predicate Follows(column: Column, c: nat, history: seq<Event>)
    requires Shaped(column) && Safe(column)
  {
    forall r: nat :: r < ROWS ==> Cell(column, r) == LastWritten(history, r, c)
  }

  /** The text accepted by a column since the batch was last emptied. */
  function Arena(history: seq<Event>, column: nat): seq<Byte> {
    if history == [] then []
    else
      var front := history[..|history| - 1];
      match history[|history| - 1]
      case Emptied => []
      case Wrote(_, c, value) =>
        if c == column && value.Text? then Arena(front, column) + value.text else Arena(front, column)
      case Filled(_, _) => Arena(front, column)
  }

  /** Where the text last accepted for a cell went; emptying the batch does not forget it. */
  function LastSpan(history: seq<Event>, row: nat, column: nat): Span {
    if history == [] then Span(0, 0)
    else
      var front, last := history[..|history| - 1], history[|history| - 1];
      if last.Wrote? && last.row == row && last.column == column && last.value.Text?
      then Span(|Arena(front, column)|, |Arena(front, column)| + |last.value.text|)
      else LastSpan(front, row, column)
  }

  /** Spans and arena are where the history puts them. */
  predicate Placed(column: Column, c: nat, history: seq<Event>)
    requires Shaped(column)
  {
    column.data.Texts? ==>
      && column.data.bytes == Arena(history, c)
      && forall row: nat :: row < ROWS ==> column.data.spans[row] == LastSpan(history, row, c)
  }

  predicate Sound(column: Column, c: nat, history: seq<Event>) {
    Shaped(column) && Safe(column) && Follows(column, c, history) && Placed(column, c, history)
  }

  /** What one more event adds. */
  lemma HistoryNext(history: seq<Event>, e: Event, row: nat, c: nat)
    ensures var ours := e.Wrote? && e.column == c && e.value.Text?;
            && Arena(history + [e], c) ==
               (if e.Emptied? then [] else if ours then Arena(history, c) + e.value.text else Arena(history, c))
            && LastSpan(history + [e], row, c) ==
               if ours && e.row == row then Span(|Arena(history, c)|, |Arena(history, c)| + |e.value.text|)
               else LastSpan(history, row, c)
    ensures LastWritten(history + [e], row, c) ==
      if e.Emptied? then Null
      else if e.Wrote? && e.row == row && e.column == c then e.value
      else if e.Filled? && e.column == c && row < |e.values| then e.values[row]
      else LastWritten(history, row, c)
  {
    assert (history + [e])[..|history|] == history;
  }

  lemma PlacedWrite(column: Column, c: nat, history: seq<Event>, row: nat, value: Value)
    requires Shaped(column) && Placed(column, c, history) && row < ROWS && Refuses(column, value).None?
    ensures Placed(Stored(column, row, value), c, history + [Wrote(row, c, value)])
  {
    hide Arena, LastSpan, LastWritten, WordBits.Insert, WordBits.Remove;
    HistoryNext(history, Wrote(row, c, value), row, c);
    forall r: nat | r < ROWS
      ensures LastSpan(history + [Wrote(row, c, value)], r, c) ==
        if r == row && value.Text? then Span(|Arena(history, c)|, |Arena(history, c)| + |value.text|)
        else LastSpan(history, r, c)
    {
      HistoryNext(history, Wrote(row, c, value), r, c);
    }
  }

  /** Events of other columns, and fillings, move no text. */
  lemma PlacedOtherEvent(column: Column, next: Column, c: nat, history: seq<Event>, e: Event)
    requires Shaped(column) && Shaped(next) && Placed(column, c, history)
    requires e.Filled? || (e.Wrote? && e.column != c)
    requires column.data == next.data || (!column.data.Texts? && !next.data.Texts?)
    ensures Placed(next, c, history + [e])
  {
    hide Arena, LastSpan, LastWritten;
    HistoryNext(history, e, 0, c);
    forall r: nat | r < ROWS ensures LastSpan(history + [e], r, c) == LastSpan(history, r, c) {
      HistoryNext(history, e, r, c);
    }
  }

  lemma PlacedClear(column: Column, c: nat, history: seq<Event>)
    requires Shaped(column) && Placed(column, c, history)
    ensures Placed(Cleared(column), c, history + [Emptied])
  {
    hide Arena, LastSpan, LastWritten;
    HistoryNext(history, Emptied, 0, c);
    forall r: nat | r < ROWS ensures LastSpan(history + [Emptied], r, c) == LastSpan(history, r, c) {
      HistoryNext(history, Emptied, r, c);
    }
  }

  /** Whether marking a column present would be safe, by what has been written to it: it is not a
      text column, or where each row's last text went is, in the text written since the batch was
      last emptied, a stretch of whole characters. */
  predicate LendsSafely(kind: Data, c: nat, history: seq<Event>) {
    kind.Texts? ==> forall row: nat :: row < ROWS ==> Slices(Arena(history, c), LastSpan(history, row, c))
  }

  lemma LendingDecides(column: Column, c: nat, history: seq<Event>)
    requires Sound(column, c, history)
    ensures Safe(MarkedPresent(column)) <==> LendsSafely(column.data, c, history)
    ensures LendsSafely(column.data, c, history) <==> forall row: nat :: row < ROWS ==> InArena(column, row)
  {
    MarkedSafe(column);
    hide Safe, Follows, Slices, Arena, LastSpan;
    forall row: nat | row < ROWS && column.data.Texts?
      ensures InArena(column, row) <==> Slices(Arena(history, c), LastSpan(history, row, c)) {}
  }

  /** Both ways a lending can go wrong, by what was written: the last text of row 0 reaches past
      an emptied arena, or cuts a character of the text written after it. */
  lemma UnsafeHistories(kind: Data)
    requires kind.Texts?
    ensures !LendsSafely(kind, 0, [Wrote(0, 0, Text([97, 98]))] + [Emptied])
    ensures !LendsSafely(kind, 0, [Wrote(0, 0, Text([97, 98]))] + [Emptied] + [Wrote(1, 0, Text([0xe9, 0x9b, 0xaa]))])
  {
    var first := [Wrote(0, 0, Text([97, 98]))];
    HistoryNext([], first[0], 0, 0);
    assert [] + first == first;
    HistoryNext(first, Emptied, 0, 0);
    HistoryNext(first + [Emptied], Wrote(1, 0, Text([0xe9, 0x9b, 0xaa])), 0, 0);
    hide Arena, LastSpan;
    var none: seq<Byte> := [];
    assert none + [0xe9, 0x9b, 0xaa] == [0xe9, 0x9b, 0xaa];
    assert !Slices([0xe9, 0x9b, 0xaa], Span(0, 2));
  }

  predicate AllSound(columns: seq<Column>, history: seq<Event>) {
    forall c :: 0 <= c < |columns| ==> Sound(columns[c], c, history)
  }

  /** Spans and arenas are where the history puts them, whatever the validity bits say. */
  predicate AllPlaced(columns: seq<Column>, history: seq<Event>) {
    forall c :: 0 <= c < |columns| ==> Shaped(columns[c]) && Placed(columns[c], c, history)
  }

  lemma SoundIsPlaced(columns: seq<Column>, history: seq<Event>)
    requires AllSound(columns, history)
    ensures AllPlaced(columns, history)
  {
    hide Shaped, Safe, Follows, Placed;
    forall c | 0 <= c < |columns| ensures Shaped(columns[c]) && Placed(columns[c], c, history) {
      assert Sound(columns[c], c, history);
    }
  }

  lemma WriteKeepsSound(columns: seq<Column>, history: seq<Event>, row: nat, column: nat, value: Value)
    requires AllSound(columns, history) && row < ROWS && column < |columns|
    requires Shaped(columns[column]) && Refuses(columns[column], value).None? && Proper(value)
    ensures AllSound(columns[column := Stored(columns[column], row, value)], history + [Wrote(row, column, value)])
  {
    hide Shaped, Safe, Follows, Placed, Stored, Refuses;
    var next := columns[column := Stored(columns[column], row, value)];
    forall c | 0 <= c < |next| ensures Sound(next[c], c, history + [Wrote(row, column, value)]) {
      assert Sound(columns[c], c, history);
      if c == column {
        FollowsWrite(columns[c], c, history, row, value);
        PlacedWrite(columns[c], c, history, row, value);
      } else {
        FollowsOther(columns[c], c, history, Wrote(row, column, value));
        PlacedOtherEvent(columns[c], columns[c], c, history, Wrote(row, column, value));
      }
    }
  }

  lemma FollowsWrite(column: Column, c: nat, history: seq<Event>, row: nat, value: Value)
    requires Shaped(column) && Safe(column) && Follows(column, c, history)
    requires row < ROWS && Refuses(column, value).None? && Proper(value)
    ensures Safe(Stored(column, row, value))
    ensures Follows(Stored(column, row, value), c, history + [Wrote(row, c, value)])
  {
    hide Shaped, Safe, Cell, Refuses, Stored;
    StoredReads(column, row, value);
    var next := history + [Wrote(row, c, value)];
    assert next[..|next| - 1] == history;
  }

  lemma FollowsOther(column: Column, c: nat, history: seq<Event>, e: Event)
    requires Shaped(column) && Safe(column) && Follows(column, c, history) && !e.Emptied? && e.column != c
    ensures Follows(column, c, history + [e])
  {
    hide Shaped, Safe, Cell;
    assert (history + [e])[..|history|] == history;
  }

  /** Making the first rows of one column read as given keeps every column's account. */
  lemma FillKeepsSound(columns: seq<Column>, history: seq<Event>, column: nat, next: Column, values: seq<Value>)
    requires AllSound(columns, history) && column < |columns| && Shaped(columns[column]) && Shaped(next)
    requires Safe(columns[column]) && Safe(next)
    requires columns[column].data == next.data || (!columns[column].data.Texts? && !next.data.Texts?)
    requires forall row: nat :: row < ROWS ==>
      Cell(next, row) == if row < |values| then values[row] else Cell(columns[column], row)
    ensures AllSound(columns[column := next], history + [Filled(column, values)])
  {
    hide Shaped, Safe, Placed, Cell;
    var e := Filled(column, values);
    var changed := columns[column := next];
    forall c | 0 <= c < |changed| ensures Sound(changed[c], c, history + [e]) {
      assert Sound(columns[c], c, history);
      if c == column {
        assert (history + [e])[..|history|] == history;
        PlacedOtherEvent(columns[c], next, c, history, e);
      } else {
        FollowsOther(columns[c], c, history, e);
        PlacedOtherEvent(columns[c], columns[c], c, history, e);
      }
    }
  }

  lemma FollowsClear(column: Column, c: nat, history: seq<Event>)
    requires Shaped(column)
    ensures Safe(Cleared(column)) && Follows(Cleared(column), c, history + [Emptied])
  {
    ClearedReads(column);
    hide Shaped, Safe, Cell, Cleared;
  }

  /** Write a row of a column in place, text at the end of its arena. */
  method StoreCell(before: Column, row: nat, value: Value) returns (r: Option<Refusal>, after: Column)
    requires Shaped(before) && row < ROWS
    ensures r == Refuses(before, value)
    ensures after == if r.None? then Stored(before, row, value) else before
  {
    after := before;
    var word := before.valid[row / 64];
    if value.Null? {
      after := before.(valid := before.valid[row / 64 := Remove(word, row % 64)]);
      return None, after;
    }
    var data;
    match (before.data, value) {
      case (Doubles(v), Double(bits)) => data := Doubles(v[row := bits]);
      case (Ints(v), Int64(i)) => data := Ints(v[row := i]);
      case (Keys(v), Text(text)) =>
        if |text| != 1 || !IsKey(text[0]) {
          return Some(OutsideKeys), after;
        }
        data := Keys(v[row := text[0]]);
      case (Texts(spans, bytes, capacity), Text(text)) =>
        var start := |bytes|;
        var end := start + |text|;
        if end > capacity {
          return Some(TextFull(end)), after;
        }
        data := Texts(spans[row := Span(start, end)], bytes + text, capacity);
      case (Dates(v), Date(days)) => data := Dates(v[row := days]);
      case _ => return Some(TypeDisagrees), after;
    }
    after := Column(data, before.valid[row / 64 := Insert(word, row % 64)]);
    return None, after;
  }

  predicate IsNull(history: seq<Event>, row: nat, column: nat) { LastWritten(history, row, column) == Null }

  /** No NULL in the first `rows` rows of the column. */
  predicate AllWritten(history: seq<Event>, column: nat, rows: nat) {
    forall row: nat :: row < rows ==> !IsNull(history, row, column)
  }

  lemma PresentIsWritten(column: Column, c: nat, history: seq<Event>, row: nat)
    requires Sound(column, c, history) && row < ROWS
    ensures Present(column, row) <==> !IsNull(history, row, c)
  {
    hide Present;
    assert Cell(column, row) == LastWritten(history, row, c);
  }

  predicate AllSafe(columns: seq<Column>) {
    forall c :: 0 <= c < |columns| ==> Shaped(columns[c]) && Safe(columns[c])
  }

  lemma SoundIsSafe(columns: seq<Column>, history: seq<Event>)
    requires AllSound(columns, history)
    ensures AllSafe(columns)
    ensures forall c :: 0 <= c < |columns| ==> Sound(columns[c], c, history)
  {
    hide Shaped, Safe, Follows, Placed;
    forall c | 0 <= c < |columns| ensures Shaped(columns[c]) && Safe(columns[c]) {
      assert Sound(columns[c], c, history);
    }
  }

  lemma OneChanged(columns: seq<Column>, c: nat, column: Column)
    requires AllSafe(columns) && c < |columns| && Shaped(column)
    ensures AllSafe(columns[c := column]) <==> Safe(column)
  {
    hide Shaped, Safe;
    if AllSafe(columns[c := column]) { assert columns[c := column][c] == column; }
  }

  predicate Fresh(data: Data) {
    data.Texts? ==> data.bytes == [] && forall i :: 0 <= i < |data.spans| ==> data.spans[i] == Span(0, 0)
  }

  class Batch {
    var columns: seq<Column>
    var rows: nat
    ghost var history: seq<Event>

    /** Every cell reads back as what was last written to it. */
    ghost predicate Valid()
      reads this
    {
      rows <= ROWS && AllSound(columns, history)
    }

    /** What any batch satisfies, also one whose refused lending has exposed stale spans. */
    ghost predicate Formed()
      reads this
    {
      rows <= ROWS && AllPlaced(columns, history)
    }

    /** Fresh columns, all NULL, with empty arenas and zero spans. */
    constructor (data: seq<Data>)
      requires forall c :: 0 <= c < |data| ==> Shaped(Column(data[c], [0, 0, 0, 0])) && Fresh(data[c])
      ensures Valid() && rows == 0 && history == []
      ensures columns == seq(|data|, c requires 0 <= c < |data| => Column(data[c], [0, 0, 0, 0]))
    {
      columns := seq(|data|, c requires 0 <= c < |data| => Column(data[c], [0, 0, 0, 0]));
      rows, history := 0, [];
      new;
      forall c | 0 <= c < |columns| ensures Sound(columns[c], c, history) {
        hide WordBits.Has;
        forall r: nat | r < ROWS ensures !Present(columns[c], r) { HasNone(r % 64); }
      }
    }

    /** Write one cell, or refuse and change nothing. */
    method Set(row: nat, column: nat, value: Value) returns (r: Option<Refusal>)
      requires Valid() && Proper(value)
      modifies this
      ensures Valid() && rows == old(rows)
      ensures r == (if row >= ROWS then Some(RowLimit) else if column >= |old(columns)| then Some(Missing)
                    else Refuses(old(columns)[column], value))
      ensures r.None? ==>
        && Shaped(old(columns)[column])
        && columns == old(columns)[column := Stored(old(columns)[column], row, value)]
        && history == old(history) + [Wrote(row, column, value)]
      ensures r.Some? ==> columns == old(columns) && history == old(history)
    {
      if row >= ROWS {
        return Some(RowLimit);
      }
      if column >= |columns| {
        return Some(Missing);
      }
      assert Sound(columns[column], column, history);
      var before := columns[column];
      var after;
      r, after := StoreCell(before, row, value);
      if r.None? {
        WriteKeepsSound(columns, history, row, column, value);
        columns := columns[column := after];
        history := history + [Wrote(row, column, value)];
      }
    }

    /** Empty the batch and keep its buffers. Whatever its cells were, it is consistent again. */
    method Clear()
      requires Formed()
      modifies this
      ensures Valid() && rows == 0 && history == old(history) + [Emptied]
      ensures |columns| == |old(columns)|
      ensures forall c :: 0 <= c < |columns| ==> Shaped(old(columns)[c]) && columns[c] == Cleared(old(columns)[c])
    {
      hide Safe, Follows, Placed, Shaped;
      rows := 0;
      var c := 0;
      while c < |columns|
        invariant c <= |columns| == |old(columns)| && rows == 0 && history == old(history)
        invariant forall k :: 0 <= k < |columns| ==>
          Shaped(old(columns)[k]) && columns[k] == if k < c then Cleared(old(columns)[k]) else old(columns)[k]
      {
        columns := columns[c := Cleared(columns[c])];
        c := c + 1;
      }
      history := history + [Emptied];
      forall k | 0 <= k < |columns| ensures Sound(columns[k], k, history) {
        FollowsClear(old(columns)[k], k, old(history));
        PlacedClear(old(columns)[k], k, old(history));
      }
    }

    /** Let readers see the first `count` rows. */
    method Publish(count: nat)
      requires Valid() && count <= ROWS
      modifies `rows
      ensures Valid() && rows == count
    {
      rows := count;
    }

    /** A published cell is what was last written to it; there is nothing past the last
        published row or column. */
    method Get(row: nat, column: nat) returns (r: Option<Value>)
      requires Valid()
      ensures r == if row < rows && column < |columns| then Some(LastWritten(history, row, column)) else None
    {
      if row >= rows || column >= |columns| {
        return None;
      }
      assert Sound(columns[column], column, history);
      var c := columns[column];
      if And(c.valid[row / 64], One(Place(row % 64))) == 0 {
        assert !Present(c, row);
        return Some(Null);
      }
      assert Present(c, row) && InArena(c, row);
      match c.data {
        case Doubles(v) => return Some(Double(v[row]));
        case Ints(v) => return Some(Int64(v[row]));
        case Keys(v) => return Some(Text([v[row]]));
        case Texts(spans, bytes, _) => return Some(Text(bytes[spans[row].start..spans[row].end]));
        case Dates(v) => return Some(Date(v[row]));
      }
    }

    /** Lend the validity words of a column of the expected type; a required column must have
        no NULL among the published rows. */
    method Validity(index: nat, expected: DataType, nullable: bool) returns (r: Option<seq<bv64>>)
      requires Valid()
      ensures r.Some? <==>
        && index < |columns| && Kind(columns[index].data) == expected
        && (nullable || AllWritten(history, index, rows))
      ensures r.Some? ==>
        && |r.value| == WORDS
        && forall row: nat :: row < ROWS ==>
          (Has(r.value[row / 64], row % 64) <==> !IsNull(history, row, index))
    {
      if index >= |columns| {
        return None;
      }
      assert Sound(columns[index], index, history);
      var c := columns[index];
      hide WordBits.Has;
      if Kind(c.data) != expected {
        return None;
      }
      if !nullable {
        var row := 0;
        while row < rows
          invariant row <= rows
          invariant forall k: nat :: k < row ==> Present(c, k)
        {
          if !Has(c.valid[row / 64], row % 64) {
            PresentIsWritten(c, index, history, row);
            return None;
          }
          row := row + 1;
        }
      }
      forall row: nat | row < ROWS ensures Present(c, row) == !IsNull(history, row, index) {
        PresentIsWritten(c, index, history, row);
      }
      return Some(c.valid);
    }

    /** Lend the keys of a column with no NULL among the published rows. */
    method Strings(index: nat) returns (r: Option<seq<Byte>>)
      requires Valid()
      ensures r.Some? <==>
        && index < |columns| && columns[index].data.Keys?
        && AllWritten(history, index, rows)
      ensures r.Some? ==>
        && |r.value| == rows
        && forall row: nat :: row < rows ==> LastWritten(history, row, index) == Text([r.value[row]])
    {
      if index >= |columns| {
        return None;
      }
      assert Sound(columns[index], index, history);
      var c := columns[index];
      hide WordBits.Has;
      var ok := RequireNonnull(c, rows);
      if !ok {
        ghost var row: nat :| row < rows && !Present(c, row);
        PresentIsWritten(c, index, history, row);
        return None;
      }
      if !c.data.Keys? {
        return None;
      }
      forall row: nat | row < rows ensures LastWritten(history, row, index) == Text([c.data.keys[row]]) {
        assert Present(c, row) && Cell(c, row) == LastWritten(history, row, index);
      }
      return Some(c.data.keys[..rows]);
    }

    /** Mark a column present and lend its value array; INT64 and text columns are refused, but
        only after the marking. The batch stays consistent, with the array's old contents now
        its cells, exactly when what was written lets the column be marked. */
    method NonnullColumn(index: nat, count: nat) returns (ok: bool)
      requires Valid()
      modifies `columns, `history
      ensures ok <==>
        && count <= ROWS && index < |old(columns)|
        && !old(columns)[index].data.Ints? && !old(columns)[index].data.Texts?
      ensures (count > ROWS || index >= |old(columns)|) ==> columns == old(columns) && history == old(history)
      ensures index < |old(columns)| && !LendsSafely(old(columns)[index].data, index, old(history)) ==>
        history == old(history)
      ensures count <= ROWS && index < |old(columns)| ==>
        && Shaped(old(columns)[index])
        && columns == old(columns)[index := MarkedPresent(old(columns)[index])]
      ensures count <= ROWS && index < |old(columns)| && LendsSafely(old(columns)[index].data, index, old(history)) ==>
        && (forall row: nat :: row < ROWS ==> InArena(old(columns)[index], row))
        && history == old(history) + [Filled(index, Contents(old(columns)[index]))]
      ensures Formed()
      ensures Valid() <==>
        count > ROWS || index >= |columns| || LendsSafely(old(columns)[index].data, index, old(history))
      ensures Valid() <==> AllSafe(columns)
    {
      SoundIsSafe(columns, history);
      SoundIsPlaced(columns, history);
      if count > ROWS || index >= |columns| {
        return false;
      }
      var c := columns[index];
      columns := columns[index := MarkedPresent(c)];
      hide Shaped, Safe, LendsSafely, AllSafe, Follows, Placed, InArena, Cell, MarkedPresent;
      LendingDecides(c, index, history);
      OneChanged(old(columns), index, MarkedPresent(c));
      if LendsSafely(c.data, index, history) {
        MarkedContents(c);
        MarkedData(c);
        FillKeepsSound(old(columns), history, index, MarkedPresent(c), Contents(c));
        history := history + [Filled(index, Contents(c))];
        SoundIsPlaced(columns, history);
      } else {
        MarkedPlaced(c, index, history);
        assert !Sound(columns[index], index, history);
      }
      return !c.data.Ints? && !c.data.Texts?;
    }

    /** The end of a lending: the borrower leaves these values in the lent slice. */
    method EndLending(index: nat, values: seq<Value>)
      requires Valid() && index < |columns| && Shaped(columns[index])
      requires Fillable(columns[index].data, values) && NoNulls(columns[index], |values|)
      modifies `columns, `history
      ensures Valid() && history == old(history) + [Filled(index, values)]
      ensures columns == old(columns)[index := Prefilled(old(columns)[index], values)]
    {
      SoundIsSafe(columns, history);
      hide Shaped, Safe, Follows, Placed, Cell, NoNulls, Prefilled, Fillable;
      PrefilledReads(columns[index], values);
      PrefilledKind(columns[index], values);
      FillKeepsSound(columns, history, index, Prefilled(columns[index], values), values);
      columns := columns[index := Prefilled(columns[index], values)];
      history := history + [Filled(index, values)];
    }

    /** A producer borrows a column for its first rows and fills them: every one of them then
        reads as filled, and no other column has changed. */
    method FillColumn(index: nat, values: seq<Value>) returns (ok: bool)
      requires Valid()
      requires index < |columns| && !columns[index].data.Ints? && !columns[index].data.Texts? ==>
        forall i :: 0 <= i < |values| ==> Fits(columns[index].data, values[i])
      modifies `columns, `history
      ensures ok <==>
        && |values| <= ROWS && index < |old(columns)|
        && !old(columns)[index].data.Ints? && !old(columns)[index].data.Texts?
      ensures ok ==> Valid()
      ensures ok ==> forall row: nat :: row < |values| ==> LastWritten(history, row, index) == values[row]
      ensures forall row: nat, c: nat :: c != index ==>
        LastWritten(history, row, c) == LastWritten(old(history), row, c)
    {
      hide LastWritten, Slices, MarkedPresent;
      ok := NonnullColumn(index, |values|);
      forall row: nat, c: nat | c != index ensures LastWritten(history, row, c) == LastWritten(old(history), row, c) {
        if history != old(history) {
          HistoryNext(old(history), Filled(index, Contents(old(columns)[index])), row, c);
        }
      }
      if ok {
        ghost var marked := history;
        MarkedNoNulls(old(columns)[index], |values|);
        EndLending(index, values);
        forall row: nat, c: nat
          ensures LastWritten(history, row, c) ==
            if c == index && row < |values| then values[row] else LastWritten(marked, row, c)
        {
          HistoryNext(marked, Filled(index, values), row, c);
        }
      }
    }
  }

  lemma MarkedPlaced(column: Column, c: nat, history: seq<Event>)
    requires Shaped(column) && Placed(column, c, history)
    ensures Placed(MarkedPresent(column), c, history)
  {
  }

  lemma MarkedData(column: Column)
    requires Shaped(column)
    ensures MarkedPresent(column).data == column.data
  {
  }

  lemma MarkedNoNulls(column: Column, count: nat)
    requires Shaped(column) && count <= ROWS
    ensures NoNulls(MarkedPresent(column), count) && MarkedPresent(column).data == column.data
  {
    hide Present;
    forall row: nat | row < count ensures Present(MarkedPresent(column), row) { MarkedReads(column, row); }
  }

  lemma PrefilledKind(column: Column, values: seq<Value>)
    requires Shaped(column) && Fillable(column.data, values)
    ensures Prefilled(column, values).data == column.data || !column.data.Texts?
    ensures Prefilled(column, values).data.Texts? == column.data.Texts?
  {
  }
}
