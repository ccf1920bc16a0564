/** Reading directory names from getdents64 blocks through one fixed buffer. */
module Directories {
  import opened Basics

  type Bytes = seq<Byte>

  const BUFFER_BYTES: nat := 8192
  const MAX_RAW_ENTRIES: nat := 64
  const NAME: nat := 19
  const SLASH: Byte := 47
  const DOT: Byte := 46

  // One record: ino64, off64, reclen16, type8 and a NUL-terminated name

  /** A decoded record: its length, where its name ends, and whether its slot is vacant. */
  datatype Record = Record(length: nat, end: nat, vacant: bool)

  function Position(s: Bytes): (i: nat)
    ensures i <= |s| && (i < |s| ==> s[i] == 0) && forall k :: 0 <= k < i ==> s[k] != 0
  {
    if s == [] || s[0] == 0 then 0 else 1 + Position(s[1..])
  }

  /** A name with its NUL: not empty, and with no other NUL and no slash. */
  predicate ValidName(name: Bytes) {
    |name| >= 2 && name[|name| - 1] == 0 && forall i :: 0 <= i < |name| - 1 ==> name[i] != 0 && name[i] != SLASH
  }

  function Decode(bytes: Bytes): (r: Option<Record>)
    ensures r.Some? ==> NAME < r.value.end < r.value.length <= |bytes|
  {
    if |bytes| < NAME + 1 then None
    else
      var low: int, high: int := bytes[16], bytes[17];
      var length := low + 256 * high;
      if length < NAME + 1 || length % 8 != 0 || length > |bytes| then None
      else
        var nul := Position(bytes[NAME..length]);
        if nul == length - NAME then None
        else
          var end := NAME + nul + 1;
          if !ValidName(bytes[NAME..end]) then None
          else Some(Record(length, end - 1, forall i :: 0 <= i < 8 ==> bytes[i] == 0))
  }

  /** What a record tells a reader. */
  datatype Entry = Entry(name: Bytes, vacant: bool)

  predicate Live(e: Entry) { !e.vacant && e.name != [DOT] && e.name != [DOT, DOT] }

  function Round8(n: nat): nat { (n + 7) / 8 * 8 }

  /** The kernel's layout of an entry. */
  function Encode(inode: Bytes, offset: Bytes, kind: Byte, name: Bytes): Bytes
    requires |inode| == 8 && |offset| == 8 && Round8(NAME + |name| + 1) < 65536
  {
    var length := Round8(NAME + |name| + 1);
    inode + offset + [length % 256, length / 256, kind] + name + seq(length - NAME - |name|, _ => 0)
  }

  predicate PlainName(name: Bytes) {
    name != [] && forall i :: 0 <= i < |name| ==> name[i] != 0 && name[i] != SLASH
  }

  /** Where the parts of an encoded record lie. */
  lemma Layout(inode: Bytes, offset: Bytes, kind: Byte, name: Bytes, rest: Bytes)
    requires |inode| == 8 && |offset| == 8 && Round8(NAME + |name| + 1) < 65536
    ensures var length, bytes := Round8(NAME + |name| + 1), Encode(inode, offset, kind, name) + rest;
            && NAME + |name| < length <= |bytes| && length % 8 == 0
            && bytes[..8] == inode && bytes[16] == length % 256 && bytes[17] == length / 256
            && bytes[NAME..NAME + |name|] == name && bytes[NAME + |name|] == 0 && bytes[length..] == rest
  {
    var length := Round8(NAME + |name| + 1);
    var encoded := Encode(inode, offset, kind, name);
    assert |encoded| == length;
    assert encoded[NAME..NAME + |name|] == name;
  }

  lemma NameEnds(s: Bytes, name: Bytes)
    requires PlainName(name) && |name| < |s| && s[..|name|] == name && s[|name|] == 0
    ensures Position(s) == |name|
  {
    forall k | 0 <= k < |name| ensures s[k] != 0 { assert s[k] == s[..|name|][k]; }
  }

  lemma NameValid(name: Bytes)
    requires PlainName(name)
    ensures ValidName(name + [0])
  {
  }

  /** Decoding recovers the name and vacancy of any entry the kernel can lay out, and its
      length, whatever record follows. */
  lemma DecodeInverts(inode: Bytes, offset: Bytes, kind: Byte, name: Bytes, rest: Bytes)
    requires |inode| == 8 && |offset| == 8 && Round8(NAME + |name| + 1) < 65536 && PlainName(name)
    ensures var bytes := Encode(inode, offset, kind, name) + rest;
            var length := Round8(NAME + |name| + 1);
            && Decode(bytes) == Some(Record(length, NAME + |name|, forall i :: 0 <= i < 8 ==> inode[i] == 0))
            && bytes[NAME..NAME + |name|] == name && bytes[length..] == rest
  {
    var length := Round8(NAME + |name| + 1);
    var bytes := Encode(inode, offset, kind, name) + rest;
    Layout(inode, offset, kind, name, rest);
    hide Encode, PlainName, ValidName, Position, Round8;
    var tail := bytes[NAME..length];
    assert tail[..|name|] == bytes[NAME..NAME + |name|] && tail[|name|] == bytes[NAME + |name|];
    NameEnds(tail, name);
    NameValid(name);
    assert bytes[NAME..NAME + |name| + 1] == name + [0];
    assert forall i :: 0 <= i < 8 ==> bytes[i] == bytes[..8][i];
  }

  /** A well-formed record at the start of these bytes: a length of a multiple of eight that covers
      the header and lies within them, and after the 19 bytes of the header a name that is not
      empty, has no slash, and is ended by the first NUL. */
  predicate WellFormed(bytes: Bytes, r: Record) {
    && 24 <= r.length <= |bytes| && r.length % 8 == 0
    && r.length == (bytes[16] as int) + 256 * (bytes[17] as int)
    && 20 <= r.end < r.length && bytes[r.end] == 0
    && (forall i :: 19 <= i < r.end ==> bytes[i] != 0 && bytes[i] != 47)
    && (r.vacant <==> bytes[..8] == [0, 0, 0, 0, 0, 0, 0, 0])
  }

  /** Decoding finds exactly the well-formed records, and refuses everything else. */
  lemma DecodeExactly(bytes: Bytes, r: Record)
    ensures Decode(bytes) == Some(r) <==> WellFormed(bytes, r)
  {
    hide Position;
    if |bytes| >= NAME + 1 {
      var length := (bytes[16] as int) + 256 * (bytes[17] as int);
      Vacant8(bytes);
      if NAME + 1 <= length <= |bytes| {
        var field := bytes[NAME..length];
        var nul := Position(field);
        forall i | NAME <= i < length ensures bytes[i] == field[i - NAME] {}
        if NAME + nul < length { NameBytes(bytes, length, nul); }
      }
    }
  }

  lemma Vacant8(bytes: Bytes)
    requires |bytes| >= 8
    ensures (forall i :: 0 <= i < 8 ==> bytes[i] == 0) <==> bytes[..8] == [0, 0, 0, 0, 0, 0, 0, 0]
  {
    forall i | 0 <= i < 8 ensures bytes[..8][i] == bytes[i] {}
    if bytes[..8] == [0, 0, 0, 0, 0, 0, 0, 0] {
      forall i | 0 <= i < 8 ensures bytes[i] == 0 { assert [0, 0, 0, 0, 0, 0, 0, 0][i] == 0; }
    }
  }

  lemma NameBytes(bytes: Bytes, length: nat, nul: nat)
    requires NAME + nul < length <= |bytes| && bytes[NAME + nul] == 0
    requires forall i :: NAME <= i < NAME + nul ==> bytes[i] != 0
    ensures ValidName(bytes[NAME..NAME + nul + 1]) <==>
      nul > 0 && forall i :: NAME <= i < NAME + nul ==> bytes[i] != SLASH
  {
    var name := bytes[NAME..NAME + nul + 1];
    forall i | NAME <= i <= NAME + nul ensures bytes[i] == name[i - NAME] {}
  }

  /** The entries of a block, up to its end or its first malformed record. */
  function Entries(bytes: Bytes): (seq<Entry>, bool)
    decreases |bytes|
  {
    if bytes == [] then ([], true)
    else
      match Decode(bytes)
      case None => ([], false)
      case Some(record) =>
        var (rest, whole) := Entries(bytes[record.length..]);
        ([Entry(bytes[NAME..record.end], record.vacant)] + rest, whole)
  }

  lemma DecodeBounds(bytes: Bytes)
    ensures var r := Decode(bytes); r.Some? ==> NAME < r.value.end < r.value.length <= |bytes|
  {
  }

  /** An entry as the kernel lays it out. */
  datatype Raw = Raw(inode: Bytes, offset: Bytes, kind: Byte, name: Bytes) {
    predicate Fits() {
      |inode| == 8 && |offset| == 8 && Round8(NAME + |name| + 1) < 65536 && PlainName(name)
    }
  }

  predicate AllFit(raws: seq<Raw>) {
    forall i :: 0 <= i < |raws| ==> raws[i].Fits()
  }

  function Laid(raws: seq<Raw>): Bytes
    requires AllFit(raws)
  {
    if raws == [] then []
    else
      assert raws[0].Fits();
      Encode(raws[0].inode, raws[0].offset, raws[0].kind, raws[0].name) + Laid(raws[1..])
  }

  /** The names in use: those with an inode number, except the directory itself and its parent. */
  function Used(raws: seq<Raw>): seq<Bytes> {
    if raws == [] then []
    else
      (if raws[0].inode != [0, 0, 0, 0, 0, 0, 0, 0] && raws[0].name != [46] && raws[0].name != [46, 46]
       then [raws[0].name] else []) + Used(raws[1..])
  }

  /** The first entry of a block, and the others. */
  lemma LaidFirst(raw: Raw, rest: Bytes)
    requires raw.Fits()
    ensures Entries(Encode(raw.inode, raw.offset, raw.kind, raw.name) + rest) ==
      ([Entry(raw.name, raw.inode == [0, 0, 0, 0, 0, 0, 0, 0])] + Entries(rest).0, Entries(rest).1)
  {
    DecodeInverts(raw.inode, raw.offset, raw.kind, raw.name, rest);
    EncodeSome(raw, rest);
    Vacant(raw.inode);
    hide Encode, Decode, Round8, PlainName;
  }

  /** A block of laid-out entries is read as exactly those entries, and the live ones among them are
      the names in use, in order. */
  lemma {:induction false} LaidReads(raws: seq<Raw>)
    requires AllFit(raws)
    ensures Entries(Laid(raws)).1 && |Entries(Laid(raws)).0| == |raws|
    ensures LiveNames(Entries(Laid(raws)).0) == Used(raws)
    decreases raws
  {
    hide Encode, Raw.Fits, Entries, Decode;
    if raws == [] {
      NoEntries();
    } else {
      assert raws[0].Fits();
      forall i | 0 <= i < |raws[1..]| ensures raws[1..][i].Fits() { assert raws[1..][i] == raws[i + 1]; }
      LaidReads(raws[1..]);
      LaidFirst(raws[0], Laid(raws[1..]));
      assert Entries(Laid(raws)).0[1..] == Entries(Laid(raws[1..])).0;
    }
  }

  lemma NoEntries()
    ensures Entries([]) == ([], true)
  {
  }

  lemma EncodeSome(raw: Raw, rest: Bytes)
    requires raw.Fits()
    ensures Encode(raw.inode, raw.offset, raw.kind, raw.name) + rest != []
  {
  }

  lemma Vacant(inode: Bytes)
    requires |inode| == 8
    ensures (forall i :: 0 <= i < 8 ==> inode[i] == 0) <==> inode == [0, 0, 0, 0, 0, 0, 0, 0]
  {
  }

  // The directory

  /** A read fills the buffer with a block, an empty one at the end, or fails. */
  datatype Read = Block(bytes: Bytes) | Failed

  predicate Fits(source: seq<Read>) {
    forall i :: 0 <= i < |source| && source[i].Block? ==> |source[i].bytes| <= BUFFER_BYTES
  }

  /** All entries still to come, and whether the directory then ends or breaks. */
  function Rest(buffered: Bytes, source: seq<Read>): (seq<Entry>, bool) {
    var (entries, whole) := Entries(buffered);
    if !whole then (entries, false)
    else
      var (more, ends) := Blocks(source);
      (entries + more, ends)
  }

  function Blocks(source: seq<Read>): (seq<Entry>, bool) {
    if source == [] then ([], true)
    else
      match source[0]
      case Failed => ([], false)
      case Block(bytes) =>
        if bytes == [] then ([], true)
        else
          var (entries, whole) := Entries(bytes);
          if !whole then (entries, false) else var (more, ends) := Blocks(source[1..]); (entries + more, ends)
  }

  lemma NextBlock(source: seq<Read>)
    requires source != [] && source[0].Block? && source[0].bytes != []
    ensures Rest([], source) == Rest(source[0].bytes, source[1..])
  {
    var none: seq<Entry> := [];
    assert none + Blocks(source).0 == Blocks(source).0;
  }

  lemma Ending(source: seq<Read>)
    ensures source == [] || source[0] == Block([]) ==> Rest([], source) == ([], true)
    ensures source != [] && source[0].Failed? ==> Rest([], source) == ([], false)
  {
    var none: seq<Entry> := [];
    assert none + none == none;
  }

  lemma NextRecord(buffered: Bytes, source: seq<Read>)
    requires buffered != []
    ensures match Decode(buffered)
      case None => Rest(buffered, source) == ([], false)
      case Some(record) =>
        var (rest, ends) := Rest(buffered[record.length..], source);
        Rest(buffered, source) == ([Entry(buffered[NAME..record.end], record.vacant)] + rest, ends)
  {
    DecodeBounds(buffered);
    hide Decode, Blocks;
    var decoded := Decode(buffered);
    if decoded.Some? {
      var first := [Entry(buffered[NAME..decoded.value.end], decoded.value.vacant)];
      var rest := Entries(buffered[decoded.value.length..]).0;
      assert (first + rest) + Blocks(source).0 == first + (rest + Blocks(source).0);
    }
  }

  predicate Dead(entries: seq<Entry>, n: nat)
    requires n <= |entries|
  {
    forall i :: 0 <= i < n ==> !Live(entries[i])
  }

  function LiveNames(entries: seq<Entry>): seq<Bytes> {
    if entries == [] then [] else (if Live(entries[0]) then [entries[0].name] else []) + LiveNames(entries[1..])
  }

  lemma {:induction false} SkipDead(entries: seq<Entry>, n: nat)
    requires n <= |entries| && Dead(entries, n)
    ensures LiveNames(entries) == LiveNames(entries[n..])
    decreases n
  {
    if n == 0 {
      assert entries[0..] == entries;
    } else {
      SkipDead(entries[1..], n - 1);
      assert entries[1..][n - 1..] == entries[n..];
    }
  }

  datatype Next = Name(name: Bytes) | End | Err

  /** One call's answer, exactly: the first live entry if it is within the call's 65 records and
      the total allowance; the end if only dead entries remain and both suffice for them; and
      otherwise a refusal or a broken directory. */
  predicate Answers(r: Next, entries: seq<Entry>, ends: bool, allowed: nat, left: seq<Entry>, used: nat) {
    match r
    case Name(name) =>
      && 0 < used <= |entries| && used <= MAX_RAW_ENTRIES + 1 && used <= allowed
      && Dead(entries, used - 1) && Live(entries[used - 1]) && name == entries[used - 1].name && left == entries[used..]
    case End => ends && used == |entries| <= MAX_RAW_ENTRIES && used <= allowed && Dead(entries, used)
    case Err =>
      && used <= |entries| && used <= MAX_RAW_ENTRIES + 1 && used <= allowed && Dead(entries, used)
      && (used == MAX_RAW_ENTRIES + 1 || (used == allowed && used < |entries|) || (!ends && used == |entries|))
  }

  /** The three answers exclude each other, so each is given exactly when its condition holds. */
  lemma AnswersExclude(r: Next, s: Next, entries: seq<Entry>, ends: bool, allowed: nat, left: seq<Entry>,
                       rest: seq<Entry>, m: nat, n: nat)
    requires Answers(r, entries, ends, allowed, left, m) && Answers(s, entries, ends, allowed, rest, n)
    ensures r == s
  {
  }

  /** What one visit says about the entries before and after it. */
  predicate Visited(r: Option<Next>, before: (seq<Entry>, bool), after: (seq<Entry>, bool), full: bool) {
    match r
    case Some(End) => before == ([], true)
    case Some(Err) => before == ([], false) || (full && before != ([], true))
    case Some(Name(name)) => !full && before.0 != [] && Live(before.0[0]) && name == before.0[0].name &&
      after == (before.0[1..], before.1)
    case None => !full && before.0 != [] && !Live(before.0[0]) && after == (before.0[1..], before.1)
  }

  /** From one visit to the call's answer, or to the next visit. */
  lemma AnswerFrom(visit: Option<Next>, entries: seq<Entry>, ends: bool, used: nat, allowed: nat,
                   after: (seq<Entry>, bool))
    requires used <= |entries| && used <= MAX_RAW_ENTRIES && used <= allowed && Dead(entries, used)
    requires Visited(visit, (entries[used..], ends), after, used == allowed)
    ensures visit.Some? && visit.value.Name? ==>
      Answers(visit.value, entries, ends, allowed, after.0, used + 1) && after.1 == ends
    ensures visit.Some? && !visit.value.Name? ==> Answers(visit.value, entries, ends, allowed, after.0, used)
    ensures visit.None? ==>
      && used < |entries| && used < allowed && after == (entries[used + 1..], ends) && Dead(entries, used + 1)
  {
    hide Live;
    var rest := entries[used..];
    if used < |entries| { assert rest[1..] == entries[used + 1..] && rest[0] == entries[used]; }
  }

  lemma NothingVisited(entries: seq<Entry>)
    ensures entries[0..] == entries && Dead(entries, 0)
  {
  }

  lemma AnswerRefused(entries: seq<Entry>, ends: bool, used: nat, allowed: nat, left: seq<Entry>)
    requires used == MAX_RAW_ENTRIES + 1 <= |entries| && used <= allowed && Dead(entries, used)
    ensures Answers(Err, entries, ends, allowed, left, used)
  {
  }

  lemma SomethingLeft(buffered: Bytes, source: seq<Read>)
    requires buffered != []
    ensures Rest(buffered, source) != ([], true)
  {
    NextRecord(buffered, source);
  }

  lemma Within(s: Bytes, start: nat, end: nat, a: nat, b: nat)
    requires start <= end <= |s| && a <= b <= end - start
    ensures s[start..end][a..b] == s[start + a..start + b]
  {
    var left, right := s[start..end][a..b], s[start + a..start + b];
    assert |left| == |right| && forall i :: 0 <= i < |left| ==> left[i] == s[start + a + i] == right[i];
  }

  class Directory {
    const source: seq<Read>
    const rawLimit: nat
    const buffer: array<Byte>
    var read: nat
    var cursor: nat
    var end: nat
    var rawEntries: nat
    var done: bool

    ghost predicate Valid()
      reads this, buffer
    {
      && buffer.Length == BUFFER_BYTES && Fits(source) && read <= |source|
      && cursor <= end <= BUFFER_BYTES && rawEntries <= rawLimit
    }

    /** The entries the cursor has still to visit. */
    ghost function Remaining(): (seq<Entry>, bool)
      requires Valid()
      reads this, buffer
    {
      Rest(buffer[cursor..end], source[read..])
    }

    constructor (source: seq<Read>, rawLimit: nat)
      requires Fits(source) && rawLimit > 0
      ensures Valid() && !done && rawEntries == 0 && Remaining() == Blocks(source)
      ensures this.source == source && this.rawLimit == rawLimit && fresh(buffer)
    {
      this.source, this.rawLimit := source, rawLimit;
      buffer := new Byte[BUFFER_BYTES](_ => 0);
      read, cursor, end, rawEntries, done := 0, 0, 0, 0, false;
      new;
      assert buffer[0..0] == [] && source[0..] == source;
      ghost var none: seq<Entry> := [];
      assert none + Blocks(source).0 == Blocks(source).0;
    }

    /** Refill the empty buffer. */
    method Refill() returns (ok: bool)
      requires Valid() && cursor == end
      modifies `read, `cursor, `end, buffer
      ensures Valid() && old(read) <= read <= old(read) + 1
      ensures ok && end == 0 ==> old(Remaining()) == ([], true)
      ensures ok && end > 0 ==> cursor == 0 && Remaining() == old(Remaining())
      ensures !ok ==> old(Remaining()) == ([], false)
    {
      assert buffer[cursor..end] == [];
      Ending(source[read..]);
      cursor, end := 0, 0;
      if read == |source| {
        return true;
      }
      var block := source[read];
      assert source[read..][0] == block && source[read..][1..] == source[read + 1..];
      if block.Failed? {
        return false;
      }
      if block.bytes != [] {
        NextBlock(source[read..]);
      }
      forall i | 0 <= i < |block.bytes| {
        buffer[i] := block.bytes[i];
      }
      end := |block.bytes|;
      assert buffer[0..end] == block.bytes;
      read := read + 1;
      return true;
    }

    /** Examine one record of the filled buffer. */
    method Examine() returns (record: Option<Record>)
      requires Valid() && cursor < end && rawEntries < rawLimit
      modifies `cursor, `rawEntries
      ensures Valid()
      ensures record.None? ==> old(Remaining()) == ([], false) && cursor == old(cursor) && rawEntries == old(rawEntries)
      ensures record.Some? ==>
        && rawEntries == old(rawEntries) + 1 && old(cursor) + NAME < old(cursor) + record.value.end <= BUFFER_BYTES
        && var e := Entry(buffer[old(cursor) + NAME..old(cursor) + record.value.end], record.value.vacant);
           old(Remaining()) == ([e] + Remaining().0, Remaining().1)
    {
      hide Rest, Decode;
      var bytes := buffer[cursor..end];
      DecodeBounds(bytes);
      NextRecord(bytes, source[read..]);
      record := Decode(bytes);
      if record.Some? {
        ghost var start := cursor;
        var r := record.value;
        ghost var all := buffer[..];
        assert bytes == all[start..end] && bytes[r.length..] == bytes[r.length..end - start];
        Within(all, start, end, NAME, r.end);
        Within(all, start, end, r.length, end - start);
        assert buffer[start + NAME..start + r.end] == all[start + NAME..start + r.end];
        assert buffer[start + r.length..end] == all[start + r.length..end];
        cursor := cursor + r.length;
        rawEntries := rawEntries + 1;
      }
    }

    /** Refill if needed, then examine one record if the total limit allows another. */
    method Visit() returns (r: Option<Next>)
      requires Valid()
      modifies `read, `cursor, `end, `rawEntries, buffer
      ensures Valid() && read <= old(read) + 1
      ensures rawEntries == old(rawEntries) + (if r.None? || r.value.Name? then 1 else 0)
      ensures Visited(r, old(Remaining()), Remaining(), old(rawEntries) == rawLimit)
    {
      hide Rest;
      if cursor == end {
        var ok := Refill();
        if !ok {
          return Some(Err);
        }
        if end == 0 {
          return Some(End);
        }
      }
      if rawEntries == rawLimit {
        SomethingLeft(buffer[cursor..end], source[read..]);
        return Some(Err);
      }
      var start := cursor;
      var record := Examine();
      if record.None? {
        return Some(Err);
      }
      var name := buffer[start + NAME..start + record.value.end];
      if !record.value.vacant && name != [DOT] && name != [DOT, DOT] {
        return Some(Name(name));
      }
      return None;
    }

    /** One call's work: at most 65 records and 65 reads. */
    method Advance() returns (r: Next, ghost used: nat)
      requires Valid()
      modifies `read, `cursor, `end, `rawEntries, buffer
      ensures Valid() && read <= old(read) + MAX_RAW_ENTRIES + 1 && rawEntries == old(rawEntries) + used
      ensures Answers(r, old(Remaining().0), old(Remaining().1), rawLimit - old(rawEntries), Remaining().0, used)
      ensures r.Name? ==> Remaining().1 == old(Remaining().1)
    {
      hide Rest, Visited, Live, Answers, Dead;
      ghost var entries, ends, allowed := Remaining().0, Remaining().1, rawLimit - rawEntries;
      used := 0;
      NothingVisited(entries);
      for i := 0 to MAX_RAW_ENTRIES + 1
        invariant used == i <= |entries| && used <= allowed && Valid()
        invariant rawLimit - rawEntries == allowed - used && rawEntries == old(rawEntries) + used
        invariant read <= old(read) + used
        invariant Remaining() == (entries[used..], ends) && Dead(entries, used)
      {
        var visit := Visit();
        AnswerFrom(visit, entries, ends, used, allowed, Remaining());
        match visit {
          case None => used := used + 1;
          case Some(Name(name)) => return Name(name), used + 1;
          case Some(stop) => return stop, used;
        }
      }
      AnswerRefused(entries, ends, used, allowed, Remaining().0);
      return Err, used;
    }

    /** The next live name. The end and every error are final. */
    method NextName() returns (r: Next, ghost used: nat)
      requires Valid()
      modifies `read, `cursor, `end, `rawEntries, `done, buffer
      ensures Valid() && read <= old(read) + MAX_RAW_ENTRIES + 1 && rawEntries == old(rawEntries) + used
      ensures done == !r.Name?
      ensures old(done) ==> r == End && unchanged(`read, `cursor, `end, `rawEntries)
      ensures !old(done) ==>
        Answers(r, old(Remaining().0), old(Remaining().1), rawLimit - old(rawEntries), Remaining().0, used)
      ensures r.Name? ==> Remaining().1 == old(Remaining().1)
    {
      if done {
        return End, 0;
      }
      done := true;
      r, used := Advance();
      if r.Name? {
        done := false;
      }
    }

    /** Names until the end or a refusal: every live entry once, in order, or a prefix of them.
        The listing is complete exactly when the directory ends, the total limit covers its
        entries and no 65 of them in a row are to be skipped. */
    method List() returns (names: seq<Bytes>, complete: bool)
      requires Valid() && !done
      modifies this, buffer
      ensures Valid() && done
      ensures names <= LiveNames(old(Remaining().0)) && (complete ==> names == LiveNames(old(Remaining().0)))
      ensures complete <==> Listable(old(Remaining().0), old(Remaining().1), rawLimit - old(rawEntries))
    {
      hide Rest, Answers, LiveNames, Remaining, Listable, Covered;
      names, complete := [], false;
      ghost var all, ends, allowance := Remaining().0, Remaining().1, rawLimit - rawEntries;
      ghost var visited := 0;
      assert all[0..] == all;
      NothingCovered(all);
      while !done
        invariant Valid() && visited <= |all| && rawLimit - rawEntries == allowance - visited
        invariant !done ==> Remaining().0 == all[visited..] && Remaining().1 == ends && Covered(all, visited)
        invariant !done ==> names + LiveNames(all[visited..]) == LiveNames(all)
        invariant done ==> names <= LiveNames(all) && (complete <==> Listable(all, ends, allowance))
        invariant complete ==> done && names == LiveNames(all)
        decreases |all| - visited, !done
      {
        ghost var allowed := rawLimit - rawEntries;
        var next, used := NextName();
        AnswerNames(next, names, all, visited, ends, allowed, Remaining().0, used);
        AnswerCovers(next, all, visited, ends, allowed, Remaining().0, used);
        visited := visited + used;
        if next.Name? {
          names := names + [next.name];
        } else {
          complete := next.End?;
        }
      }
    }
  }

  /** As many entries to skip in a row as one call gives up on. */
  predicate DeadWindow(entries: seq<Entry>, i: nat) {
    i + MAX_RAW_ENTRIES < |entries| && forall j :: i <= j <= i + MAX_RAW_ENTRIES ==> !Live(entries[j])
  }

  predicate Listable(entries: seq<Entry>, ends: bool, allowance: int) {
    ends && |entries| <= allowance && forall i: nat :: i < |entries| ==> !DeadWindow(entries, i)
  }

  predicate LiveSoon(entries: seq<Entry>, i: nat) {
    exists j: nat :: i <= j < |entries| && j <= i + MAX_RAW_ENTRIES && Live(entries[j])
  }

  /** From each visited entry there is a live one among the 65 that start with it. */
  ghost predicate Covered(entries: seq<Entry>, visited: nat)
    requires visited <= |entries|
  {
    forall i: nat :: i < visited ==> LiveSoon(entries, i)
  }

  lemma SoonExcludes(entries: seq<Entry>, i: nat)
    requires LiveSoon(entries, i)
    ensures !DeadWindow(entries, i)
  {
  }

  lemma NothingCovered(entries: seq<Entry>)
    ensures Covered(entries, 0)
  {
  }

  /** What one answer says about whether the whole listing can complete. */
  lemma AnswerCovers(r: Next, all: seq<Entry>, visited: nat, ends: bool, allowed: nat, left: seq<Entry>, used: nat)
    requires visited <= |all| && Covered(all, visited) && Answers(r, all[visited..], ends, allowed, left, used)
    ensures used <= |all| - visited
    ensures r.Name? ==> Covered(all, visited + used)
    ensures r.End? ==> Listable(all, ends, visited + allowed)
    ensures r.Err? ==> !Listable(all, ends, visited + allowed)
  {
    hide Live;
    var rest := all[visited..];
    if r.Name? {
      assert rest[used - 1] == all[visited + used - 1];
      forall i: nat | visited <= i < visited + used ensures LiveSoon(all, i) {
        assert i <= visited + used - 1 <= i + MAX_RAW_ENTRIES;
      }
    }
    if r.End? {
      forall i: nat | i < visited ensures !DeadWindow(all, i) { SoonExcludes(all, i); }
    }
    if r.Err? && used == MAX_RAW_ENTRIES + 1 {
      forall j | visited <= j <= visited + MAX_RAW_ENTRIES ensures !Live(all[j]) {
        assert rest[j - visited] == all[j];
      }
      assert DeadWindow(all, visited);
    }
  }

  lemma FirstLive(entries: seq<Entry>, used: nat)
    requires 0 < used <= |entries| && Dead(entries, used - 1) && Live(entries[used - 1])
    ensures LiveNames(entries) == [entries[used - 1].name] + LiveNames(entries[used..])
  {
    hide Live;
    SkipDead(entries, used - 1);
    var rest := entries[used - 1..];
    assert rest[1..] == entries[used..] && rest[0] == entries[used - 1];
    assert LiveNames(rest) == [rest[0].name] + LiveNames(rest[1..]);
  }

  /** What one answer adds to the names listed so far. */
  lemma AnswerNames(r: Next, names: seq<Bytes>, all: seq<Entry>, visited: nat, ends: bool, allowed: nat,
                    left: seq<Entry>, used: nat)
    requires visited <= |all| && Answers(r, all[visited..], ends, allowed, left, used)
    requires names + LiveNames(all[visited..]) == LiveNames(all)
    ensures names <= LiveNames(all) && used <= |all| - visited
    ensures r.Name? ==>
      && 0 < used <= |all| - visited && left == all[visited + used..]
      && (names + [r.name]) + LiveNames(all[visited + used..]) == LiveNames(all)
    ensures r.End? ==> ends && used == |all| - visited <= allowed && names == LiveNames(all)
  {
    hide Live, LiveNames;
    var rest := all[visited..];
    if r.Name? {
      FirstLive(rest, used);
      assert rest[used..] == all[visited + used..];
    }
    if r.End? {
      SkipDead(rest, used);
      assert rest[used..] == [];
      NoNames();
    }
  }

  lemma NoNames()
    ensures LiveNames([]) == []
  {
  }
}
