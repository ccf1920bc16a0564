/** Single bits of 64-bit words. Every law about bits is one fact about one operator, so
    that proofs above this module never reason about bit patterns. */
module WordBits {

  const ALL: bv64 := 0xffff_ffff_ffff_ffff

  /** A bit position as a shift amount. */
  function Place(k: nat): bv6
    requires k < 64
  {
    k as bv6
  }

  function One(p: bv6): bv64 { (1 as bv64) << p }

  function Or(a: bv64, b: bv64): bv64 { a | b }

  function And(a: bv64, b: bv64): bv64 { a & b }

  function Without(w: bv64, a: bv64): bv64 { w & !a }

  /** `w & (w - 1)`. */
  function LowestCleared(w: bv64): bv64 { w & (w - 1) }

  function Below(a: bv64): bv64 { a - 1 }

  predicate Has(w: bv64, k: nat)
    requires k < 64
  {
    And(w, One(Place(k))) != 0
  }

  function Insert(w: bv64, k: nat): bv64
    requires k < 64
  {
    Or(w, One(Place(k)))
  }

  function Remove(w: bv64, k: nat): bv64
    requires k < 64
  {
    Without(w, One(Place(k)))
  }

  // Places

  lemma PlaceBack(k: nat)
    requires k < 64
    ensures Place(k) as int == k
  {
  }

  lemma PlaceInjective(j: nat, k: nat)
    requires j < 64 && k < 64 && j != k
    ensures Place(j) != Place(k)
  {
    PlaceBack(j);
    PlaceBack(k);
    hide Place;
  }

  lemma PlaceOf(p: bv6)
    ensures p as int < 64 && Place(p as int) == p
  {
  }

  lemma PlaceCounts(p: bv6)
    requires p != 63
    ensures (p + 1) as int == p as int + 1
  {
  }

  lemma PlaceNext(k: nat)
    requires k < 63
    ensures Place(k) != 63 && Place(k + 1) == Place(k) + 1
  {
    PlaceBack(k);
    PlaceCounts(Place(k));
    PlaceOf(Place(k) + 1);
    hide Place;
  }

  // Words

  lemma OnesApart(p: bv6, q: bv6)
    requires p != q
    ensures And(One(p), One(q)) == 0
  {
  }

  lemma OneSet(p: bv6)
    ensures One(p) != 0
  {
  }

  lemma OrSame(w: bv64, a: bv64)
    ensures And(Or(w, a), a) == a
  {
  }

  lemma OrOther(w: bv64, a: bv64, b: bv64)
    requires And(a, b) == 0
    ensures And(Or(w, a), b) == And(w, b)
  {
  }

  lemma ClearSame(w: bv64, a: bv64)
    ensures And(Without(w, a), a) == 0
  {
  }

  lemma ClearOther(w: bv64, a: bv64, b: bv64)
    requires And(a, b) == 0
    ensures And(Without(w, a), b) == And(w, b)
  {
  }

  lemma LowNext(p: bv6)
    requires p != 63
    ensures Below(One(p + 1)) == Or(Below(One(p)), One(p))
  {
  }

  lemma LowFirst()
    ensures Below(One(0)) == 0
  {
  }

  lemma LowLast()
    ensures Or(Below(One(63)), One(63)) == ALL
  {
  }

  lemma AndAll(w: bv64)
    ensures And(w, ALL) == w
  {
  }

  lemma AndZero(w: bv64)
    ensures And(w, 0) == 0 && And(0, w) == 0
  {
  }

  lemma CoversBoth(w: bv64, a: bv64, b: bv64)
    requires And(w, a) == a && And(w, b) == b
    ensures And(w, Or(a, b)) == Or(a, b)
  {
  }

  lemma CoversFirst(w: bv64, a: bv64, b: bv64)
    requires And(w, Or(a, b)) == Or(a, b)
    ensures And(w, a) == a
  {
  }

  lemma CoversSecond(w: bv64, a: bv64, b: bv64)
    requires And(w, Or(a, b)) == Or(a, b)
    ensures And(w, b) == b
  {
  }

  lemma CoversOne(w: bv64, p: bv6)
    requires And(w, One(p)) != 0
    ensures And(w, One(p)) == One(p)
  {
  }

  lemma MeetsBoth(w: bv64, a: bv64, b: bv64)
    requires And(w, a) == 0 && And(w, b) == 0
    ensures And(w, Or(a, b)) == 0
  {
  }

  lemma Decompose(w: bv64, m: bv64)
    requires w & (m - 1) == 0 && w & m != 0 && m & (m - 1) == 0
    ensures LowestCleared(w) == Without(w, m)
  {
  }

  lemma LowestBit(w: bv64, p: bv6)
    requires And(w, Below(One(p))) == 0 && And(w, One(p)) != 0
    ensures LowestCleared(w) == Without(w, One(p))
  {
    Decompose(w, One(p));
  }

  lemma OrHitsFirst(a: bv64, b: bv64, m: bv64)
    requires And(a, m) == m
    ensures And(Or(a, b), m) == m
  {
  }

  lemma OrHitsSecond(a: bv64, b: bv64, m: bv64)
    requires And(b, m) == m
    ensures And(Or(a, b), m) == m
  {
  }

  lemma OrMisses(a: bv64, b: bv64, m: bv64)
    requires And(a, m) == 0 && And(b, m) == 0
    ensures And(Or(a, b), m) == 0
  {
  }

  lemma AndMeets(a: bv64, b: bv64, m: bv64)
    requires And(a, m) == m && And(b, m) == m
    ensures And(And(a, b), m) == m
  {
  }

  lemma AndMissesFirst(a: bv64, b: bv64, m: bv64)
    requires And(a, m) == 0
    ensures And(And(a, b), m) == 0
  {
  }

  lemma AndMissesSecond(a: bv64, b: bv64, m: bv64)
    requires And(b, m) == 0
    ensures And(And(a, b), m) == 0
  {
  }

  // Membership

  lemma HasInsert(w: bv64, k: nat, j: nat)
    requires k < 64 && j < 64
    ensures Has(Insert(w, k), j) == (j == k || Has(w, j))
  {
    hide Place, One, Or, And;
    if j == k {
      OrSame(w, One(Place(k)));
      OneSet(Place(k));
    } else {
      PlaceInjective(j, k);
      OnesApart(Place(k), Place(j));
      OrOther(w, One(Place(k)), One(Place(j)));
    }
  }

  lemma HasRemove(w: bv64, k: nat, j: nat)
    requires k < 64 && j < 64
    ensures Has(Remove(w, k), j) == (j != k && Has(w, j))
  {
    hide Place, One, Without, And;
    if j == k {
      ClearSame(w, One(Place(k)));
    } else {
      PlaceInjective(j, k);
      OnesApart(Place(k), Place(j));
      ClearOther(w, One(Place(k)), One(Place(j)));
    }
  }

  lemma HasOr(a: bv64, b: bv64, k: nat)
    requires k < 64
    ensures Has(Or(a, b), k) == (Has(a, k) || Has(b, k))
  {
    hide Place, One, Or, And;
    var m := One(Place(k));
    OneSet(Place(k));
    if Has(a, k) {
      CoversOne(a, Place(k));
      OrHitsFirst(a, b, m);
    } else if Has(b, k) {
      CoversOne(b, Place(k));
      OrHitsSecond(a, b, m);
    } else {
      OrMisses(a, b, m);
    }
  }

  lemma HasAnd(a: bv64, b: bv64, k: nat)
    requires k < 64
    ensures Has(And(a, b), k) == (Has(a, k) && Has(b, k))
  {
    hide Place, One, And;
    var m := One(Place(k));
    OneSet(Place(k));
    if Has(a, k) && Has(b, k) {
      CoversOne(a, Place(k));
      CoversOne(b, Place(k));
      AndMeets(a, b, m);
    } else if Has(a, k) {
      AndMissesSecond(a, b, m);
    } else {
      AndMissesFirst(a, b, m);
    }
  }

  lemma HasNone(k: nat)
    requires k < 64
    ensures !Has(0, k)
  {
    hide Place, One, And;
    AndZero(One(Place(k)));
  }

  /** The first `r` bits of a word are all set exactly when the word covers the low mask. */
  lemma {:induction false} LowCovered(w: bv64, r: nat)
    requires r < 64
    ensures And(w, Below(One(Place(r)))) == Below(One(Place(r))) <==> forall j :: 0 <= j < r ==> Has(w, j)
    decreases r
  {
    if r == 0 {
      assert Place(0) == 0;
      hide *;
      LowFirst();
      AndZero(w);
    } else {
      LowCovered(w, r - 1);
      PlaceNext(r - 1);
      LowNext(Place(r - 1));
      hide Place, One, Or, And, Below;
      CoversLow(w, r - 1);
    }
  }

  lemma CoversLow(w: bv64, r: nat)
    requires r < 64
    ensures var low, one := Below(One(Place(r))), One(Place(r));
            And(w, Or(low, one)) == Or(low, one) <==> And(w, low) == low && Has(w, r)
  {
    hide Place, One, Or, And, Below;
    var low, one := Below(One(Place(r))), One(Place(r));
    OneSet(Place(r));
    if And(w, Or(low, one)) == Or(low, one) {
      CoversFirst(w, low, one);
      CoversSecond(w, low, one);
    }
    if And(w, low) == low && Has(w, r) {
      CoversOne(w, Place(r));
      CoversBoth(w, low, one);
    }
  }

  lemma AllSet(w: bv64)
    ensures w == ALL <==> forall j :: 0 <= j < 64 ==> Has(w, j)
  {
    assert Place(63) == 63;
    hide Place, One, Or, And, Below;
    LowCovered(w, 63);
    CoversLow(w, 63);
    LowLast();
    AndAll(w);
  }

  /** No bit below `r` is set exactly when the word misses the low mask. */
  lemma {:induction false} LowMissed(w: bv64, r: nat)
    requires r < 64 && forall j :: 0 <= j < r ==> !Has(w, j)
    ensures And(w, Below(One(Place(r)))) == 0
    decreases r
  {
    if r == 0 {
      assert Place(0) == 0;
      hide *;
      LowFirst();
      AndZero(w);
    } else {
      LowMissed(w, r - 1);
      PlaceNext(r - 1);
      LowNext(Place(r - 1));
      hide Place, One, Or, And, Below;
      assert !Has(w, r - 1);
      MeetsBoth(w, Below(One(Place(r - 1))), One(Place(r - 1)));
    }
  }

  lemma NoneSet(w: bv64)
    requires forall j :: 0 <= j < 64 ==> !Has(w, j)
    ensures w == 0
  {
    assert Place(63) == 63;
    hide Place, One, Or, And, Below;
    LowMissed(w, 63);
    assert !Has(w, 63);
    MeetsBoth(w, Below(One(63)), One(63));
    LowLast();
    AndAll(w);
  }

  /** Clearing the lowest set bit removes exactly the least member. */
  lemma ClearLowest(w: bv64, k: nat)
    requires k < 64 && Has(w, k) && forall j :: 0 <= j < k ==> !Has(w, j)
    ensures LowestCleared(w) == Remove(w, k)
  {
    hide Place, One, And, Below, LowestCleared, Without;
    LowMissed(w, k);
    LowestBit(w, Place(k));
  }
}
