/** Sets of query column identities as bits of 64-bit words. Identity 65 is bit 1 of word 1;
    identity 0 is reserved. The largest identity is a parameter. */
module ColumnSets {
  import opened WordBits

  predicate HasAt(words: seq<bv64>, k: nat) {
    k / 64 < |words| && Has(words[k / 64], k % 64)
  }

  /** The identities below `n` in these words. */
  function MembersBelow(words: seq<bv64>, n: nat): set<nat> {
    set k: nat | k < n && HasAt(words, k)
  }

  function Members(words: seq<bv64>): set<nat> {
    MembersBelow(words, 64 * |words|)
  }

  lemma MembersBelowNext(words: seq<bv64>, n: nat)
    ensures MembersBelow(words, n + 1) == MembersBelow(words, n) + (if HasAt(words, n) then {n} else {})
    ensures |MembersBelow(words, n + 1)| == |MembersBelow(words, n)| + (if HasAt(words, n) then 1 else 0)
  {
    assert MembersBelow(words, n + 1) == MembersBelow(words, n) + (if HasAt(words, n) then {n} else {});
  }

  /** `count_ones` of the low `n` bits. */
  function Ones(w: bv64, n: nat): nat
    requires n <= 64
  {
    if n == 0 then 0 else Ones(w, n - 1) + (if Has(w, n - 1) then 1 else 0)
  }

  lemma {:induction false} OnesCountMembers(words: seq<bv64>, i: nat, n: nat)
    requires i < |words| && n <= 64
    ensures |MembersBelow(words, 64 * i + n)| == |MembersBelow(words, 64 * i)| + Ones(words[i], n)
    decreases n
  {
    hide WordBits.Has;
    if n > 0 {
      OnesCountMembers(words, i, n - 1);
      MembersBelowNext(words, 64 * i + (n - 1));
      Position(i, n - 1);
    }
  }

  lemma Position(i: nat, j: nat)
    requires j < 64
    ensures (64 * i + j) / 64 == i && (64 * i + j) % 64 == j
  {
  }

  /** The lowest set bit, or 64. */
  function TrailingZeros(w: bv64, from: nat): (r: nat)
    requires from <= 64
    ensures from <= r <= 64
    ensures forall j :: from <= j < r ==> !Has(w, j)
    ensures r < 64 ==> Has(w, r)
    decreases 64 - from
  {
    if from == 64 || Has(w, from) then from else TrailingZeros(w, from + 1)
  }

  predicate Increasing(s: seq<nat>) {
    forall i, j :: 0 <= i < j < |s| ==> s[i] < s[j]
  }

  /** Members listed so far: exactly those below `n`, in increasing order. */
  ghost predicate Lists(s: seq<nat>, words: seq<bv64>, n: nat) {
    Increasing(s) && |s| == |MembersBelow(words, n)| && forall k: nat :: k in s <==> k < n && HasAt(words, k)
  }

  lemma Unite(a: seq<bv64>, b: seq<bv64>, c: seq<bv64>)
    requires |a| == |b| == |c| && forall k: nat :: HasAt(c, k) == (HasAt(a, k) || HasAt(b, k))
    ensures Members(c) == Members(a) + Members(b)
  {
    hide HasAt;
  }

  class ColumnSet {
    const words: array<bv64>
    /** MAX_QUERY_COLUMNS. */
    const max: nat

    /** Every member is a proper identity. */
    ghost predicate Valid()
      reads words
    {
      words.Length == max / 64 + 1 && forall k :: k in Members(words[..]) ==> 0 < k <= max
    }

    constructor (max: nat)
      ensures Valid() && this.max == max && Members(words[..]) == {} && fresh(words)
    {
      this.max := max;
      words := new bv64[max / 64 + 1](_ => 0);
      new;
      forall k: nat ensures !HasAt(words[..], k) {
        HasNone(k % 64);
      }
    }

    method Insert(id: nat)
      requires Valid() && 0 < id <= max
      modifies words
      ensures Valid() && Members(words[..]) == old(Members(words[..])) + {id}
    {
      ghost var before := words[..];
      words[id / 64] := WordBits.Insert(words[id / 64], id % 64);
      forall k: nat ensures HasAt(words[..], k) == (k == id || HasAt(before, k)) {
        hide WordBits.Has, WordBits.Insert;
        if k / 64 == id / 64 {
          HasInsert(before[id / 64], id % 64, k % 64);
        }
      }
      assert Members(words[..]) == Members(before) + {id};
    }

    method Contains(id: nat) returns (r: bool)
      requires Valid()
      ensures r == (id in Members(words[..]))
    {
      r := id > 0 && id <= max && And(words[id / 64], One(Place(id % 64))) != 0;
    }

    /** `self |= rhs`. */
    method OrAssign(rhs: ColumnSet)
      requires Valid() && rhs.Valid() && rhs.max == max
      modifies words
      ensures Valid() && Members(words[..]) == old(Members(words[..]) + Members(rhs.words[..]))
    {
      ghost var left, right := words[..], rhs.words[..];
      var i := 0;
      while i < words.Length
        invariant i <= words.Length
        invariant forall j :: 0 <= j < words.Length ==> words[j] == if j < i then Or(left[j], right[j]) else left[j]
        invariant forall j :: i <= j < words.Length ==> rhs.words[j] == right[j]
      {
        words[i] := Or(words[i], rhs.words[i]);
        i := i + 1;
      }
      forall k: nat ensures HasAt(words[..], k) == (HasAt(left, k) || HasAt(right, k)) {
        hide WordBits.Has, WordBits.Or;
        if k / 64 < |left| { HasOr(left[k / 64], right[k / 64], k % 64); }
      }
      Unite(left, right, words[..]);
    }

    /** `self & rhs`, on a copy. */
    method Intersect(rhs: ColumnSet) returns (r: ColumnSet)
      requires Valid() && rhs.Valid() && rhs.max == max
      ensures fresh(r) && fresh(r.words) && r.Valid() && r.max == max
      ensures Members(r.words[..]) == Members(words[..]) * Members(rhs.words[..])
    {
      r := new ColumnSet(max);
      var i := 0;
      while i < words.Length
        invariant i <= words.Length && fresh(r.words) && r.words.Length == words.Length
        invariant forall j :: 0 <= j < i ==> r.words[j] == And(words[j], rhs.words[j])
      {
        r.words[i] := And(words[i], rhs.words[i]);
        i := i + 1;
      }
      forall k: nat ensures HasAt(r.words[..], k) == (HasAt(words[..], k) && HasAt(rhs.words[..], k)) {
        hide WordBits.Has, WordBits.And;
        if k / 64 < words.Length { HasAnd(words[k / 64], rhs.words[k / 64], k % 64); }
      }
      assert Members(r.words[..]) == Members(words[..]) * Members(rhs.words[..]);
    }

    /** Add up the words' bit counts. */
    method Len() returns (n: nat)
      requires Valid()
      ensures n == |Members(words[..])|
    {
      n := 0;
      var i := 0;
      while i < words.Length
        invariant i <= words.Length && n == |MembersBelow(words[..], 64 * i)|
      {
        OnesCountMembers(words[..], i, 64);
        n := n + Ones(words[i], 64);
        i := i + 1;
      }
    }

    /** Word by word, take the lowest set bit and clear it until none is left. */
    method Iterate() returns (ids: seq<nat>)
      requires Valid()
      ensures Increasing(ids) && (forall k: nat :: k in ids <==> k in Members(words[..]))
      ensures |ids| == |Members(words[..])|
    {
      hide WordBits.Has, WordBits.LowestCleared, Left, Lists, Members;
      ids := [];
      var word := 0;
      NothingListed(words[..]);
      while word < words.Length
        invariant word <= words.Length && Lists(ids, words[..], 64 * word)
      {
        var bits := words[word];
        ghost var cursor := 0;
        WholeWord(bits);
        while bits != 0
          invariant cursor <= 64 && Lists(ids, words[..], 64 * word + cursor)
          invariant Left(bits, words[word], cursor)
          decreases 64 - cursor
        {
          var offset := TrailingZeros(bits, 0);
          NextMember(words[..], word, bits, cursor, ids);
          bits := LowestCleared(bits);
          ids := ids + [word * 64 + offset];
          cursor := offset + 1;
        }
        LastMember(words[..], word, bits, cursor, ids);
        word := word + 1;
      }
      Listed(ids, words[..]);
    }
  }

  /** What is left of a word once its bits below `cursor` are cleared. */
  predicate Left(bits: bv64, word: bv64, cursor: nat) {
    forall j :: 0 <= j < 64 ==> Has(bits, j) == (j >= cursor && Has(word, j))
  }

  lemma WholeWord(word: bv64)
    ensures Left(word, word, 0)
  {
  }

  lemma NothingListed(words: seq<bv64>)
    ensures Lists([], words, 0)
  {
    assert MembersBelow(words, 0) == {};
  }

  lemma Listed(ids: seq<nat>, words: seq<bv64>)
    requires Lists(ids, words, 64 * |words|)
    ensures Increasing(ids) && |ids| == |Members(words)| && forall k: nat :: k in ids <==> k in Members(words)
  {
  }

  lemma LowestIsNext(bits: bv64, word: bv64, cursor: nat)
    requires cursor <= 64 && bits != 0 && Left(bits, word, cursor)
    ensures var offset := TrailingZeros(bits, 0);
            && cursor <= offset < 64 && Has(word, offset) && (forall j :: cursor <= j < offset ==> !Has(word, j))
            && Left(LowestCleared(bits), word, offset + 1)
  {
    hide WordBits.Has, WordBits.LowestCleared, WordBits.Remove;
    var offset := TrailingZeros(bits, 0);
    if offset == 64 { NoneSet(bits); }
    assert Has(bits, offset);
    ClearLowest(bits, offset);
    forall j: nat | j < 64 ensures Has(LowestCleared(bits), j) == (j >= offset + 1 && Has(word, j)) {
      HasRemove(bits, offset, j);
    }
  }

  lemma IncreasingNext(s: seq<nat>, m: nat)
    requires Increasing(s) && forall k: nat :: k in s ==> k < m
    ensures Increasing(s + [m])
  {
    var next := s + [m];
    forall i, j | 0 <= i < j < |next| ensures next[i] < next[j] {
      assert next[i] in s;
    }
  }

  lemma AppendedIn(s: seq<nat>, m: nat, k: nat)
    ensures k in s + [m] <==> k in s || k == m
  {
  }

  lemma ListsNext(s: seq<nat>, words: seq<bv64>, n: nat, m: nat)
    requires Lists(s, words, n) && n <= m && HasAt(words, m) && forall k :: n <= k < m ==> !HasAt(words, k)
    ensures Lists(s + [m], words, m + 1)
  {
    hide HasAt, Increasing, MembersBelow;
    IncreasingNext(s, m);
    forall k: nat ensures k in s + [m] <==> k < m + 1 && HasAt(words, k) {
      AppendedIn(s, m, k);
    }
    MembersSkip(words, n, m);
    MembersBelowNext(words, m);
  }

  lemma NextMember(words: seq<bv64>, word: nat, bits: bv64, cursor: nat, ids: seq<nat>)
    requires word < |words| && cursor <= 64 && bits != 0 && Left(bits, words[word], cursor)
    requires Lists(ids, words, 64 * word + cursor)
    ensures var offset := TrailingZeros(bits, 0);
            && cursor <= offset < 64 && Left(LowestCleared(bits), words[word], offset + 1)
            && Lists(ids + [word * 64 + offset], words, 64 * word + (offset + 1))
  {
    hide WordBits.Has, WordBits.LowestCleared, Left, Lists;
    var offset := TrailingZeros(bits, 0);
    LowestIsNext(bits, words[word], cursor);
    NothingBetween(words, word, cursor, offset);
    Position(word, offset);
    ListsNext(ids, words, 64 * word + cursor, 64 * word + offset);
  }

  lemma NothingBetween(words: seq<bv64>, word: nat, cursor: nat, offset: nat)
    requires word < |words| && cursor <= offset <= 64
    requires forall j :: cursor <= j < offset ==> !Has(words[word], j)
    ensures forall k :: 64 * word + cursor <= k < 64 * word + offset ==> !HasAt(words, k)
  {
    hide WordBits.Has;
    forall k | 64 * word + cursor <= k < 64 * word + offset ensures !HasAt(words, k) {
      Position(word, k - 64 * word);
    }
  }

  lemma LastMember(words: seq<bv64>, word: nat, bits: bv64, cursor: nat, ids: seq<nat>)
    requires word < |words| && cursor <= 64 && bits == 0 && Left(bits, words[word], cursor)
    requires Lists(ids, words, 64 * word + cursor)
    ensures Lists(ids, words, 64 * (word + 1))
  {
    hide WordBits.Has;
    forall j | cursor <= j < 64 ensures !Has(words[word], j) {
      HasNone(j);
    }
    NothingBetween(words, word, cursor, 64);
    MembersSkip(words, 64 * word + cursor, 64 * (word + 1));
  }

  lemma MembersSkip(words: seq<bv64>, n: nat, m: nat)
    requires n <= m && forall k :: n <= k < m ==> !HasAt(words, k)
    ensures MembersBelow(words, n) == MembersBelow(words, m)
  {
    hide HasAt;
  }
}
