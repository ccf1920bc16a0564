/** Capturing process arguments: from a chunked NUL-separated stream, or from pointers. */
module Arguments {
  import opened Basics

  type Bytes = seq<Byte>

  const MAX_ARGUMENTS: nat := 34
  const MAX_ARGUMENT_BYTES: nat := 4096
  const MAX_NATIVE_BYTES: nat := 4 * 1_048_576
  const CHUNK_BYTES: nat := 4096

  datatype Error = TooMany | TooLong | StreamTooLong | Unterminated | ReadFailed | NullVector | NullArgument

  datatype Result = Ok(values: seq<Bytes>) | Err(error: Error)

  // Splitting at NUL

  /** Terminated fields, and the bytes after the last NUL. */
  function Split(s: Bytes): (seq<Bytes>, Bytes)
    decreases s
  {
    if s == [] then ([], [])
    else
      var (fields, rest) := Split(s[..|s| - 1]);
      var b := s[|s| - 1];
      if b == 0 then (fields + [rest], []) else (fields, rest + [b])
  }

  lemma SplitNext(s: Bytes, b: Byte)
    ensures Split(s + [b]) == if b == 0 then (Split(s).0 + [Split(s).1], []) else (Split(s).0, Split(s).1 + [b])
  {
    assert (s + [b])[..|s|] == s;
  }

  function Terminate(fields: seq<Bytes>): Bytes {
    if fields == [] then [] else Terminate(fields[..|fields| - 1]) + fields[|fields| - 1] + [0]
  }

  predicate NulFree(fields: seq<Bytes>) {
    forall i :: 0 <= i < |fields| ==> 0 !in fields[i]
  }

  /** Splitting loses nothing, and its parts hold no NUL. */
  lemma {:induction false} SplitRejoins(s: Bytes)
    ensures Terminate(Split(s).0) + Split(s).1 == s && NulFree(Split(s).0) && 0 !in Split(s).1
    decreases s
  {
    if s != [] {
      var front, b := s[..|s| - 1], s[|s| - 1];
      SplitRejoins(front);
      var (fields, rest) := Split(front);
      assert s == front + [b];
      if b == 0 { assert (fields + [rest])[..|fields|] == fields; }
    }
  }

  lemma {:induction false} SplitField(s: Bytes, field: Bytes)
    requires Split(s).1 == [] && 0 !in field
    ensures Split(s + field) == (Split(s).0, field)
    decreases field
  {
    hide Split;
    if field == [] {
      assert s + field == s;
    } else {
      var front, b := field[..|field| - 1], field[|field| - 1];
      assert b in field && forall x :: x in front ==> x in field;
      SplitField(s, front);
      SplitNext(s + front, b);
      assert s + field == s + front + [b] && field == front + [b];
    }
  }

  /** Splitting inverts NUL-joining, whatever bytes the arguments hold. */
  lemma {:induction false} SplitInverts(fields: seq<Bytes>)
    requires NulFree(fields)
    ensures Split(Terminate(fields)) == (fields, [])
    decreases fields
  {
    if fields != [] {
      var front, last := fields[..|fields| - 1], fields[|fields| - 1];
      SplitInverts(front);
      SplitField(Terminate(front), last);
      SplitNext(Terminate(front) + last, 0);
      assert fields == front + [last];
    }
  }

  /** Later bytes only extend the last part or add fields. */
  lemma {:induction false} SplitGrows(s: Bytes, more: Bytes)
    ensures Split(s).0 <= Split(s + more).0
    ensures |Split(s + more).0| == |Split(s).0| ==> Split(s).1 <= Split(s + more).1
    ensures |Split(s + more).0| > |Split(s).0| ==> Split(s).1 <= Split(s + more).0[|Split(s).0|]
    decreases more
  {
    if more == [] {
      assert s + more == s;
    } else {
      var front, b := more[..|more| - 1], more[|more| - 1];
      SplitGrows(s, front);
      SplitNext(s + front, b);
      assert s + more == s + front + [b];
    }
  }

  // What either capture accepts

  /** The program name is dropped; at most 34 arguments, each after it at most 4,096 bytes. */
  predicate Allowed(arguments: seq<Bytes>) {
    |arguments| <= MAX_ARGUMENTS && forall i :: 1 <= i < |arguments| ==> |arguments[i]| <= MAX_ARGUMENT_BYTES
  }

  function Nameless(arguments: seq<Bytes>): seq<Bytes> {
    if arguments == [] then [] else [[]] + arguments[1..]
  }

  /** Capture from a whole stream. */
  function FromStream(s: Bytes): Option<seq<Bytes>> {
    var (fields, rest) := Split(s);
    if |s| <= MAX_NATIVE_BYTES && rest == [] && Allowed(fields) then Some(Nameless(fields)) else None
  }

  /** Capture from an argument list. */
  function FromList(arguments: seq<Bytes>): Option<seq<Bytes>> {
    if Allowed(arguments) then Some(Nameless(arguments)) else None
  }

  /** The two captures agree on every argument list that fits the stream bound. */
  lemma CapturesAgree(arguments: seq<Bytes>)
    requires NulFree(arguments) && |Terminate(arguments)| <= MAX_NATIVE_BYTES
    ensures FromStream(Terminate(arguments)) == FromList(arguments)
  {
    SplitInverts(arguments);
  }

  /** A prefix that no continuation can save. */
  predicate Doomed(s: Bytes) {
    var (fields, rest) := Split(s);
    || |s| > MAX_NATIVE_BYTES
    || |fields| > MAX_ARGUMENTS || (|fields| == MAX_ARGUMENTS && rest != [])
    || (fields != [] && |rest| > MAX_ARGUMENT_BYTES)
  }

  lemma DoomedStays(s: Bytes, more: Bytes)
    requires Doomed(s)
    ensures FromStream(s + more).None?
  {
    hide Split;
    SplitGrows(s, more);
  }

  // The stream

  /** A read returns some bytes, none at the end, or an error. */
  datatype Read = Chunk(bytes: Bytes) | Failed

  predicate Readable(input: seq<Read>) {
    forall i :: 0 <= i < |input| && input[i].Chunk? ==> |input[i].bytes| <= CHUNK_BYTES
  }

  /** Everything read before the end. */
  function Stream(input: seq<Read>): Bytes {
    if input == [] || input[0].Failed? || input[0].bytes == [] then [] else input[0].bytes + Stream(input[1..])
  }

  predicate Broken(input: seq<Read>) {
    input != [] && (input[0].Failed? || (input[0].bytes != [] && Broken(input[1..])))
  }

  /** Where the scan stands after the bytes `s`. */
  predicate Scanned(s: Bytes, values: seq<Bytes>, argument: seq<Byte>, terminated: bool) {
    var (fields, rest) := Split(s);
    && |s| <= MAX_NATIVE_BYTES && Allowed(fields) && values == Nameless(fields)
    && argument == (if fields == [] then [] else rest)
    && |argument| <= MAX_ARGUMENT_BYTES && (terminated <==> rest == []) && (|fields| == MAX_ARGUMENTS ==> rest == [])
  }

  /** One byte of the scan. */
  lemma ScanByte(s: Bytes, values: seq<Bytes>, argument: seq<Byte>, terminated: bool, b: Byte)
    requires Scanned(s, values, argument, terminated) && |s| < MAX_NATIVE_BYTES
    ensures |values| <= MAX_ARGUMENTS && (|values| == MAX_ARGUMENTS ==> Doomed(s + [b]))
    ensures |values| < MAX_ARGUMENTS && b == 0 ==> Scanned(s + [b], values + [argument], [], true)
    ensures 0 < |values| < MAX_ARGUMENTS && b != 0 ==>
      if |argument| == MAX_ARGUMENT_BYTES then Doomed(s + [b]) else Scanned(s + [b], values, argument + [b], false)
    ensures values == [] && b != 0 ==> Scanned(s + [b], values, argument, false)
  {
    SplitNext(s, b);
    hide Split;
  }

  /** Scan one chunk, keeping the unfinished argument in the buffer. */
  method ScanChunk(chunk: Bytes, before: seq<Bytes>, argument: array<Byte>, start: nat, ended: bool,
                   ghost s: Bytes, ghost rest: Bytes)
    returns (e: Option<Error>, values: seq<Bytes>, length: nat, terminated: bool)
    requires argument.Length == MAX_ARGUMENT_BYTES && start <= MAX_ARGUMENT_BYTES && |s| + |chunk| <= MAX_NATIVE_BYTES
    requires Scanned(s, before, argument[..start], ended)
    modifies argument
    ensures e.Some? ==> e.value != ReadFailed && FromStream(s + chunk + rest).None?
    ensures length <= MAX_ARGUMENT_BYTES && (e.None? ==> Scanned(s + chunk, values, argument[..length], terminated))
  {
    hide Scanned, Doomed, FromStream, Split;
    values, length, terminated := before, start, ended;
    var k := 0;
    assert s + chunk[..0] == s;
    while k < |chunk|
      invariant k <= |chunk| && length <= MAX_ARGUMENT_BYTES
      invariant Scanned(s + chunk[..k], values, argument[..length], terminated)
    {
      var byte := chunk[k];
      ghost var next := s + chunk[..k] + [byte];
      assert next + (chunk[k + 1..] + rest) == s + chunk + rest && next == s + chunk[..k + 1];
      ScanByte(s + chunk[..k], values, argument[..length], terminated, byte);
      if |values| == MAX_ARGUMENTS {
        DoomedStays(next, chunk[k + 1..] + rest);
        return Some(TooMany), values, length, terminated;
      }
      terminated := byte == 0;
      if terminated {
        values := values + [argument[..length]];
        length := 0;
        assert argument[..length] == [];
      } else if values != [] {
        if length == MAX_ARGUMENT_BYTES {
          DoomedStays(next, chunk[k + 1..] + rest);
          return Some(TooLong), values, length, terminated;
        }
        ghost var sofar := argument[..length];
        argument[length] := byte;
        length := length + 1;
        assert argument[..length] == sofar + [byte];
      }
      k := k + 1;
    }
    assert chunk[..k] == chunk;
    e := None;
  }

  method ReadArguments(input: seq<Read>) returns (r: Result)
    requires Readable(input)
    ensures r.Ok? ==> !Broken(input) && FromStream(Stream(input)) == Some(r.values)
    ensures r.Err? && r.error != ReadFailed ==> FromStream(Stream(input)).None?
    ensures r.Err? && r.error == ReadFailed ==> Broken(input)
  {
    hide Scanned, Doomed, FromStream, Split;
    var values: seq<Bytes> := [];
    var argument := new Byte[MAX_ARGUMENT_BYTES](_ => 0);
    var length := 0;
    var total := 0;
    var terminated := true;
    ghost var done: Bytes := [];
    ScanNothing();
    var i := 0;
    while i < |input| && input[i] != Chunk([])
      invariant i <= |input| && 0 <= length <= MAX_ARGUMENT_BYTES && total == |done|
      invariant Scanned(done, values, argument[..length], terminated)
      invariant Stream(input) == done + Stream(input[i..]) && (Broken(input) <==> Broken(input[i..]))
    {
      assert input[i..][1..] == input[i + 1..];
      if input[i].Failed? {
        return Err(ReadFailed);
      }
      var chunk := input[i].bytes;
      ghost var rest := Stream(input[i + 1..]);
      assert Stream(input) == done + chunk + rest;
      total := total + |chunk|;
      if total > MAX_NATIVE_BYTES {
        StreamOver(done + chunk, rest);
        return Err(StreamTooLong);
      }
      var e;
      e, values, length, terminated := ScanChunk(chunk, values, argument, length, terminated, done, rest);
      if e.Some? {
        return Err(e.value);
      }
      done := done + chunk;
      i := i + 1;
    }
    assert Stream(input[i..]) == [];
    assert done + [] == done;
    ScanEnds(done, values, argument[..length], terminated);
    if !terminated {
      return Err(Unterminated);
    }
    return Ok(values);
  }

  lemma ScanNothing()
    ensures Scanned([], [], [], true)
  {
  }

  lemma StreamOver(s: Bytes, rest: Bytes)
    requires |s| > MAX_NATIVE_BYTES
    ensures FromStream(s + rest).None?
  {
  }

  lemma ScanEnds(s: Bytes, values: seq<Bytes>, argument: seq<Byte>, terminated: bool)
    requires Scanned(s, values, argument, terminated)
    ensures FromStream(s) == if terminated then Some(values) else None
  {
    hide Split;
  }

  // Pointers

  /** The bytes a pointer may be read at: through its first NUL, or one byte past the limit. */
  predicate Extent(memory: Bytes) {
    0 in memory || |memory| > MAX_ARGUMENT_BYTES
  }

  /** The C string at the start of readable memory. */
  function CString(memory: Bytes): (s: Bytes)
    ensures s <= memory && 0 !in s && (s == memory || memory[|s|] == 0)
    decreases memory
  {
    if memory == [] || memory[0] == 0 then [] else [memory[0]] + CString(memory[1..])
  }

  type Vector = seq<Option<Bytes>>

  predicate ReadableVector(count: nat, argv: Option<Vector>) {
    count <= MAX_ARGUMENTS && argv.Some? ==>
      |argv.value| >= count && forall i :: 1 <= i < count && argv.value[i].Some? ==> Extent(argv.value[i].value)
  }

  /** The argument list a vector of non-null pointers stands for. */
  function Strings(count: nat, argv: Vector): seq<Bytes>
    requires count <= |argv|
  {
    seq(count, i requires 0 <= i < count => if argv[i].Some? then CString(argv[i].value) else [])
  }

  /** Pointers to NUL-terminated copies of these arguments. */
  function Pointers(arguments: seq<Bytes>): Vector {
    seq(|arguments|, i requires 0 <= i < |arguments| => Some(arguments[i] + [0]))
  }

  /** A NUL-terminated vector stands for the arguments it was made from. */
  lemma PointersRead(arguments: seq<Bytes>)
    requires NulFree(arguments)
    ensures ReadableVector(|arguments|, Some(Pointers(arguments)))
    ensures Strings(|arguments|, Pointers(arguments)) == arguments
  {
    forall i | 0 <= i < |arguments| ensures Extent(arguments[i] + [0]) && CString(arguments[i] + [0]) == arguments[i] {
      var memory := arguments[i] + [0];
      assert memory[|arguments[i]|] == 0;
      var text := CString(memory);
      assert text == memory[..|text|];
    }
  }

  method CopyNative(count: nat, argv: Option<Vector>) returns (r: Result)
    requires ReadableVector(count, argv)
    ensures r == Err(TooMany) <==> count > MAX_ARGUMENTS
    ensures r.Ok? ==> count == 0 || (argv.Some? && forall i :: 1 <= i < count ==> argv.value[i].Some?)
    ensures r.Ok? ==> if count == 0 then r.values == [] else FromList(Strings(count, argv.value)) == Some(r.values)
    ensures r == Err(TooLong) ==> argv.Some? && count <= |argv.value| && FromList(Strings(count, argv.value)).None?
    ensures r.Err? ==> r.error in {TooMany, TooLong, NullVector, NullArgument}
    ensures r == Err(NullVector) ==> count > 0 && argv.None?
    ensures r == Err(NullArgument) ==>
      argv.Some? && count <= |argv.value| && exists i :: 1 <= i < count && argv.value[i].None?
  {
    if count > MAX_ARGUMENTS {
      return Err(TooMany);
    }
    if count > 0 && argv.None? {
      return Err(NullVector);
    }
    if count == 0 {
      return Ok([]);
    }
    hide Strings, Nameless, FromList, CString;
    var values: seq<Bytes> := [[]];
    var index := 1;
    ghost var texts := Strings(count, argv.value);
    StringsAt(count, argv.value);
    NamelessFirst(texts);
    while index < count
      invariant 1 <= index <= count && values == Nameless(texts[..index])
      invariant forall i :: 1 <= i < index ==> argv.value[i].Some? && |texts[i]| <= MAX_ARGUMENT_BYTES
    {
      if argv.value[index].None? {
        return Err(NullArgument);
      }
      NamelessNext(texts, index);
      var copied := CopyString(argv.value[index].value);
      if copied.None? {
        LongArgument(texts, index);
        return Err(TooLong);
      }
      values := values + [copied.value];
      index := index + 1;
    }
    assert texts[..count] == texts;
    ShortArguments(texts);
    return Ok(values);
  }

  lemma StringsAt(count: nat, argv: Vector)
    requires count <= |argv|
    ensures |Strings(count, argv)| == count
    ensures forall i :: 0 <= i < count && argv[i].Some? ==> Strings(count, argv)[i] == CString(argv[i].value)
  {
  }

  lemma NamelessFirst(texts: seq<Bytes>)
    requires texts != []
    ensures Nameless(texts[..1]) == [[]]
  {
  }

  lemma NamelessNext(texts: seq<Bytes>, i: nat)
    requires 1 <= i < |texts|
    ensures Nameless(texts[..i + 1]) == Nameless(texts[..i]) + [texts[i]]
  {
  }

  lemma LongArgument(texts: seq<Bytes>, i: nat)
    requires 1 <= i < |texts| && |texts[i]| > MAX_ARGUMENT_BYTES
    ensures FromList(texts).None?
  {
  }

  lemma ShortArguments(texts: seq<Bytes>)
    requires |texts| <= MAX_ARGUMENTS && forall i :: 1 <= i < |texts| ==> |texts[i]| <= MAX_ARGUMENT_BYTES
    ensures FromList(texts) == Some(Nameless(texts))
  {
  }

  /** Scan to the NUL, giving up when the byte after the limit is not it. */
  method CopyString(pointer: Bytes) returns (r: Option<Bytes>)
    requires Extent(pointer)
    ensures r == if |CString(pointer)| <= MAX_ARGUMENT_BYTES then Some(CString(pointer)) else None
  {
    ghost var text := CString(pointer);
    var length := 0;
    while pointer[length] != 0
      invariant length <= |text| && length <= MAX_ARGUMENT_BYTES && length < |pointer|
      decreases MAX_ARGUMENT_BYTES - length
    {
      assert pointer[..|text|] == text;
      if length == MAX_ARGUMENT_BYTES {
        return None;
      }
      length := length + 1;
    }
    assert pointer[..length] == text;
    return Some(pointer[..length]);
  }
}
