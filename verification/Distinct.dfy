/** Sequences without repetition, and counting them. */
module Distinct {

  predicate NoRepeat<T(==)>(s: seq<T>) {
    forall i, j :: 0 <= i < j < |s| ==> s[i] != s[j]
  }

  function Elements<T>(s: seq<T>): set<T> { set x | x in s }

  lemma {:induction false} ElementCount<T>(s: seq<T>)
    requires NoRepeat(s)
    ensures |Elements(s)| == |s|
    decreases s
  {
    if s != [] {
      var front, last := s[..|s| - 1], s[|s| - 1];
      ElementCount(front);
      assert Elements(s) == Elements(front) + {last};
    }
  }

  lemma {:induction false} CountInSequence<T>(s: seq<T>, x: T)
    requires NoRepeat(s)
    ensures multiset(s)[x] == if x in s then 1 else 0
    decreases s
  {
    if s != [] {
      var front, last := s[..|s| - 1], s[|s| - 1];
      CountInSequence(front, x);
      assert s == front + [last];
    }
  }

  lemma SubsetOfSameSize<T>(a: set<T>, b: set<T>)
    requires a <= b && |a| == |b|
    ensures a == b
  {
    assert b == a + (b - a);
  }

  /** Distinct members of a duplicate-free sequence, as many as it has, are all of it. */
  lemma Pigeonhole<T>(some: seq<T>, all: seq<T>)
    requires NoRepeat(some) && NoRepeat(all) && |some| == |all|
    requires forall x :: x in some ==> x in all
    ensures multiset(some) == multiset(all)
  {
    ElementCount(some);
    ElementCount(all);
    SubsetOfSameSize(Elements(some), Elements(all));
    forall x ensures multiset(some)[x] == multiset(all)[x] {
      assert x in some <==> x in Elements(some);
      assert x in all <==> x in Elements(all);
      CountInSequence(some, x);
      CountInSequence(all, x);
    }
  }

  /** A repeated element, or one from outside, shows that a sequence is not a permutation. */
  lemma RepeatSeparates<T>(front: seq<T>, x: T, back: seq<T>, all: seq<T>)
    requires x in front && NoRepeat(all)
    ensures multiset(front + [x] + back) != multiset(all)
  {
    CountInSequence(all, x);
    assert multiset(front)[x] >= 1;
    assert multiset(front + [x] + back) == multiset(front) + multiset{x} + multiset(back);
    assert multiset(front + [x] + back)[x] >= 2;
  }

  lemma StrangerSeparates<T>(front: seq<T>, x: T, back: seq<T>, all: seq<T>)
    requires x !in all
    ensures multiset(front + [x] + back) != multiset(all)
  {
    assert multiset(front + [x] + back) == multiset(front) + multiset{x} + multiset(back);
    assert x !in multiset(all);
  }

  lemma LengthSeparates<T>(some: seq<T>, all: seq<T>)
    requires |some| != |all|
    ensures multiset(some) != multiset(all)
  {
    assert |multiset(some)| == |some| && |multiset(all)| == |all|;
  }
}
