/** The shared memory account: pure admission arithmetic, the account under interference, and
    the reservation handles as objects. */
module Resources {

  /** Values of a u64 are below this. */
  const U64: nat := 0x1_0000_0000_0000_0000
  const ATTEMPTS: nat := 64
  const UNIT: nat := 16_384

  datatype Admission = Refuse(required: nat) | Try(next: nat)

  /** One round of `reserve`: checked addition, then the limit. */
  function Admit(limit: nat, current: nat, bytes: nat): Admission {
    if current + bytes >= U64 then Refuse(U64 - 1)
    else if current + bytes > limit then Refuse(current + bytes)
    else Try(current + bytes)
  }

  /** `fetch_sub` wraps. */
  function FetchSub(total: nat, bytes: nat): nat {
    (total - bytes) % U64
  }

  datatype Error = Corrupt | Resource(required: nat, limit: nat) | Contention

  datatype Result<T> = Ok(value: T) | Err(error: Error)

  /** `split`: what stays and what leaves. */
  function SplitAmount(have: nat, bytes: nat): Result<(nat, nat)> {
    if bytes > have then Err(Corrupt) else Ok((have - bytes, bytes))
  }

  /** `transfer_to` within one account: the amounts of source and destination. */
  function TransferAmount(from: nat, to: nat, bytes: nat): Result<(nat, nat)> {
    if bytes > from then Err(Corrupt)
    else if to + bytes >= U64 then Err(Corrupt)
    else Ok((from - bytes, to + bytes))
  }

  // Buffer sizes

  datatype Size = Overflow | Bytes(count: nat)

  /** `buffer_capacity`: clearing the low fourteen bits is rounding down to a unit. */
  function BufferCapacity(bytes: nat): Size {
    if bytes <= UNIT then Bytes(bytes)
    else
      var rounded := bytes + (UNIT - 1 + 32);
      if rounded >= U64 then Overflow else Bytes(rounded / UNIT * UNIT - 32)
  }

  predicate EndsBelowUnit(bytes: nat) { (bytes + 32) % UNIT == 0 }

  /** Capacities above one unit are the least that cover the request and end 32 bytes
      below a unit boundary; the only refusals are those the checked addition makes. */
  lemma CapacityIsLeast(bytes: nat)
    requires bytes < U64
    ensures BufferCapacity(bytes) == Overflow <==> bytes > U64 - 1 - (UNIT - 1 + 32)
    ensures BufferCapacity(bytes).Bytes? && bytes <= UNIT ==> BufferCapacity(bytes).count == bytes
    ensures BufferCapacity(bytes).Bytes? && bytes > UNIT ==>
              var c := BufferCapacity(bytes).count;
              bytes <= c && EndsBelowUnit(c) &&
              forall d: nat :: bytes <= d && EndsBelowUnit(d) ==> c <= d
  {
    if bytes > UNIT && bytes + (UNIT - 1 + 32) < U64 {
      var rounded := bytes + (UNIT - 1 + 32);
      var c := rounded / UNIT * UNIT - 32;
      assert (c + 32) / UNIT == rounded / UNIT;
      forall d: nat | bytes <= d && EndsBelowUnit(d)
        ensures c <= d
      {
        assert d + 32 == (d + 32) / UNIT * UNIT;
        assert (d + 32) / UNIT >= rounded / UNIT;
      }
    }
  }

  // The account and its handles

  /** The atomic total. `Interfere` stands for whatever other threads do between two
      atomic operations of this one; they too keep the total within the limit. */
  class MemoryAuthority {
    const limit: nat
    var reserved: nat
    /** The totals this thread has read, by a load or by an exchange that failed. */
    ghost var totals: seq<nat>
    /** The exchanges this thread has won: the total each found and the one it put there. */
    ghost var won: seq<(nat, nat)>

    ghost predicate Valid()
      reads this
    {
      limit < U64 && reserved <= limit
    }

    constructor (limit: nat)
      requires limit < U64
      ensures Valid() && this.limit == limit && reserved == 0
    {
      this.limit := limit;
      reserved, totals, won := 0, [], [];
    }

    method Load() returns (current: nat)
      requires Valid()
      modifies this`totals
      ensures current == reserved && totals == old(totals) + [current]
    {
      current := reserved;
      totals := totals + [current];
    }

    method Interfere()
      requires Valid()
      modifies this`reserved
      ensures Valid()
    {
      var other: nat := *;
      if other <= limit {
        reserved := other;
      }
    }

    /** A weak exchange: fails on a different value, and may fail on the same one. */
    method CompareExchangeWeak(current: nat, next: nat) returns (ok: bool, observed: nat)
      requires Valid() && next <= limit
      modifies this`reserved, this`totals, this`won
      ensures Valid() && observed == old(reserved)
      ensures ok ==> old(reserved) == current && reserved == next
      ensures ok ==> won == old(won) + [(current, next)] && totals == old(totals)
      ensures !ok ==> reserved == old(reserved) && won == old(won) && totals == old(totals) + [observed]
    {
      observed := reserved;
      var spurious: bool := *;
      ok := reserved == current && !spurious;
      if ok {
        reserved := next;
        won := won + [(current, next)];
      } else {
        totals := totals + [observed];
      }
    }

    /** `reserve`. `seen` lists every total this call read, in order: a grant adds the
        bytes to the last one, a refusal is the verdict on the last one, and contention
        means that all 64 exchanges after the first read failed. A grant wins one exchange, and a
        call that is refused has won none. */
    method Reserve(bytes: nat) returns (r: Result<nat>, ghost seen: seq<nat>)
      requires Valid() && bytes < U64
      modifies this`reserved, this`totals, this`won
      ensures totals == old(totals) + seen
      ensures Valid() && 1 <= |seen| <= ATTEMPTS + 1 && forall i :: 0 <= i < |seen| ==> seen[i] <= limit
      ensures won == if r.Ok? then old(won) + [(seen[|seen| - 1], seen[|seen| - 1] + bytes)] else old(won)
      ensures forall i :: 0 <= i < |seen| - 1 ==> Admit(limit, seen[i], bytes).Try?
      ensures r.Ok? ==> r.value == bytes && |seen| <= ATTEMPTS && reserved == seen[|seen| - 1] + bytes
      ensures r.Err? && r.error.Resource? ==>
                && |seen| <= ATTEMPTS && r.error.limit == limit
                && Admit(limit, seen[|seen| - 1], bytes) == Refuse(r.error.required)
      ensures r.Err? && r.error == Contention ==> |seen| == ATTEMPTS + 1
      ensures r.Err? ==> r.error != Corrupt
    {
      Interfere();
      var current := Load();
      seen := [current];
      for attempt := 0 to ATTEMPTS
        invariant Valid() && |seen| == attempt + 1 && seen[attempt] == current
        invariant totals == old(totals) + seen && won == old(won)
        invariant forall i :: 0 <= i < |seen| ==> seen[i] <= limit
        invariant forall i :: 0 <= i < attempt ==> Admit(limit, seen[i], bytes).Try?
      {
        if current + bytes >= U64 {
          return Err(Resource(U64 - 1, limit)), seen;
        }
        var next := current + bytes;
        if next > limit {
          return Err(Resource(next, limit)), seen;
        }
        Interfere();
        var ok, observed := CompareExchangeWeak(current, next);
        if ok {
          return Ok(bytes), seen;
        }
        current := observed;
        seen := seen + [current];
      }
      r := Err(Contention);
    }

    /** `release`: the wrapped subtraction, then the assertion on the old value. The
        assertion fails exactly when the total has wrapped, and the total then is off by 2^64. */
    method Release(bytes: nat) returns (held: bool)
      requires limit < U64 && reserved < U64 && bytes < U64
      modifies this`reserved
      ensures held <==> bytes <= old(reserved)
      ensures held <==> reserved == old(reserved) - bytes
      ensures !held ==> reserved == old(reserved) + (U64 - bytes)
    {
      var previous := reserved;
      reserved := FetchSub(reserved, bytes);
      held := previous >= bytes;
    }
  }

  class Reservation {
    const authority: MemoryAuthority
    var bytes: nat

    constructor (authority: MemoryAuthority, bytes: nat)
      ensures this.authority == authority && this.bytes == bytes
    {
      this.authority := authority;
      this.bytes := bytes;
    }

    /** Part moves to a new owner; the shared total is not touched. */
    method Split(amount: nat) returns (r: Result<Reservation>)
      modifies this`bytes
      ensures SplitAmount(old(bytes), amount).Err? ==> r == Err(Corrupt) && bytes == old(bytes)
      ensures SplitAmount(old(bytes), amount).Ok? ==>
                r.Ok? && fresh(r.value) && r.value.authority == authority &&
                (bytes, r.value.bytes) == SplitAmount(old(bytes), amount).value
      ensures r.Ok? <==> amount <= old(bytes)
      ensures r.Ok? ==> r.value.bytes == amount && bytes == old(bytes) - amount
    {
      if amount > bytes {
        return Err(Corrupt);
      }
      bytes := bytes - amount;
      var part := new Reservation(authority, amount);
      r := Ok(part);
    }

    /** Both amounts are validated before either changes. */
    method TransferTo(destination: Reservation, amount: nat) returns (r: Result<()>)
      requires destination != this && bytes < U64 && destination.bytes < U64
      modifies this`bytes, destination`bytes
      ensures r.Err? <==>
        authority != destination.authority || TransferAmount(old(bytes), old(destination.bytes), amount).Err?
      ensures r.Err? ==> bytes == old(bytes) && destination.bytes == old(destination.bytes)
      ensures r.Ok? ==> (bytes, destination.bytes) == TransferAmount(old(bytes), old(destination.bytes), amount).value
      ensures r.Ok? <==>
        authority == destination.authority && amount <= old(bytes) && old(destination.bytes) + amount < U64
      ensures r.Ok? ==> bytes == old(bytes) - amount && destination.bytes == old(destination.bytes) + amount
    {
      if authority != destination.authority {
        return Err(Corrupt);
      }
      if amount > bytes {
        return Err(Corrupt);
      }
      var combined := destination.bytes + amount;
      if combined >= U64 {
        return Err(Corrupt);
      }
      bytes := bytes - amount;
      destination.bytes := combined;
      r := Ok(());
    }

    /** Unused bytes go back to the account first, then the handle is lowered. A larger
        target panics. */
    method ShrinkTo(target: nat)
      requires target <= bytes <= authority.reserved < U64 && authority.limit < U64
      modifies this`bytes, authority`reserved
      ensures bytes == target && authority.reserved == old(authority.reserved) - (old(bytes) - target)
    {
      var unused := bytes - target;
      var held := authority.Release(unused);
      assert held;
      bytes := target;
    }

    method Drop()
      requires bytes <= authority.reserved < U64 && authority.limit < U64
      modifies authority`reserved
      ensures authority.reserved == old(authority.reserved) - bytes
    {
      var held := authority.Release(bytes);
      assert held;
    }
  }
}
