/** Every interleaving of threads over one memory account. Each step below is one
    atomic access, or work on a handle its thread owns exclusively. */
module Accounts {
  import opened Sums
  import opened Resources

  type Thread = nat
  type Id = nat

  /** A live handle; `returning` bytes are already back in the account while a shrink
      has not yet lowered the handle's own field. */
  datatype Handle = Handle(owner: Thread, bytes: nat, returning: nat)

  /** Where a thread is inside a call. A reserving thread remembers the total it last
      read, how many exchanges failed and how many of those spuriously; `start` and
      `seen` count the totals of the history at its first and at its latest read. A
      granted one has won its exchange but not yet built the handle. */
  datatype Phase =
    | Idle
    | Reserving(bytes: nat, current: nat, attempts: nat, spurious: nat, start: nat, seen: nat)
    | Granted(bytes: nat)
    | Shrinking(id: Id)
    | Panicked

  datatype Outcome =
    | Refused(bytes: nat, required: nat, start: nat, seen: nat, end: nat)
    | Contended(spurious: nat, start: nat, end: nat)
    | Failed

  datatype State = State(
    limit: nat,
    total: nat,
    handles: map<Id, Handle>,
    threads: map<Thread, Phase>,
    history: seq<nat>,
    outcomes: seq<Outcome>)

  function PhaseOf(s: State, t: Thread): Phase {
    if t in s.threads then s.threads[t] else Idle
  }

  function Init(limit: nat): State {
    State(limit, 0, map[], map[], [0], [])
  }

  datatype Step =
    | Load(t: Thread, bytes: nat)
    | Attempt(t: Thread, fails: bool)
    | Build(t: Thread, id: Id)
    | Split(t: Thread, id: Id, bytes: nat, part: Id)
    | Transfer(t: Thread, from: Id, to: Id, bytes: nat)
    | ShrinkRelease(t: Thread, id: Id, target: nat)
    | ShrinkStore(t: Thread)
    | Drop(t: Thread, id: Id)
    | Send(t: Thread, id: Id, receiver: Thread)

  predicate Owns(s: State, t: Thread, id: Id) {
    id in s.handles && s.handles[id].owner == t
  }

  /** What a caller must provide: an idle thread, handles it owns, fresh identities,
      u64 amounts, and a shrink target no larger than the handle. */
  predicate Enabled(s: State, step: Step) {
    match step
    case Load(t, bytes) => PhaseOf(s, t).Idle? && bytes < U64
    case Attempt(t, _) => PhaseOf(s, t).Reserving?
    case Build(t, id) => PhaseOf(s, t).Granted? && id !in s.handles
    case Split(t, id, bytes, part) => PhaseOf(s, t).Idle? && Owns(s, t, id) && part !in s.handles && bytes < U64
    case Transfer(t, from, to, bytes) =>
      PhaseOf(s, t).Idle? && Owns(s, t, from) && Owns(s, t, to) && from != to && bytes < U64
    case ShrinkRelease(t, id, target) => PhaseOf(s, t).Idle? && Owns(s, t, id) && target <= s.handles[id].bytes
    case ShrinkStore(t) => PhaseOf(s, t).Shrinking? && Owns(s, t, PhaseOf(s, t).id)
    case Drop(t, id) => PhaseOf(s, t).Idle? && Owns(s, t, id)
    case Send(t, id, _) => PhaseOf(s, t).Idle? && Owns(s, t, id)
  }

  function SetTotal(s: State, total: nat): State {
    s.(total := total, history := s.history + [total])
  }

  function AttemptStep(s: State, t: Thread, fails: bool): State
    requires PhaseOf(s, t).Reserving?
  {
    var r := PhaseOf(s, t);
    if r.attempts >= ATTEMPTS then
      s.(threads := s.threads[t := Idle], outcomes := s.outcomes + [Contended(r.spurious, r.start, |s.history|)])
    else
      match Admit(s.limit, r.current, r.bytes)
      case Refuse(required) =>
        s.(threads := s.threads[t := Idle],
           outcomes := s.outcomes + [Refused(r.bytes, required, r.start, r.seen, |s.history|)])
      case Try(next) =>
        if r.current == s.total && !fails then
          SetTotal(s, next).(threads := s.threads[t := Granted(r.bytes)])
        else
          s.(threads := s.threads[t := Reserving(r.bytes, s.total, r.attempts + 1,
               r.spurious + (if r.current == s.total then 1 else 0), r.start, |s.history|)])
  }

  function Apply(s: State, step: Step): State
    requires Enabled(s, step)
  {
    match step
    case Load(t, bytes) =>
      s.(threads := s.threads[t := Reserving(bytes, s.total, 0, 0, |s.history|, |s.history|)])
    case Attempt(t, fails) => AttemptStep(s, t, fails)
    case Build(t, id) =>
      s.(threads := s.threads[t := Idle], handles := s.handles[id := Handle(t, PhaseOf(s, t).bytes, 0)])
    case Split(t, id, bytes, part) =>
      (match SplitAmount(s.handles[id].bytes, bytes)
       case Err(_) => s.(outcomes := s.outcomes + [Failed])
       case Ok((kept, moved)) =>
         s.(handles := s.handles[id := s.handles[id].(bytes := kept)][part := Handle(t, moved, 0)]))
    case Transfer(t, from, to, bytes) =>
      (match TransferAmount(s.handles[from].bytes, s.handles[to].bytes, bytes)
       case Err(_) => s.(outcomes := s.outcomes + [Failed])
       case Ok((kept, combined)) =>
         s.(handles := s.handles[from := s.handles[from].(bytes := kept)][to := s.handles[to].(bytes := combined)]))
    case ShrinkRelease(t, id, target) =>
      var unused := s.handles[id].bytes - target;
      if s.total < unused then SetTotal(s, FetchSub(s.total, unused)).(threads := s.threads[t := Panicked])
      else SetTotal(s, FetchSub(s.total, unused)).(threads := s.threads[t := Shrinking(id)],
             handles := s.handles[id := s.handles[id].(returning := unused)])
    case ShrinkStore(t) =>
      var id := PhaseOf(s, t).id;
      s.(threads := s.threads[t := Idle],
         handles := s.handles[id := Handle(t, Charge(s.handles[id]), 0)])
    case Drop(t, id) =>
      var bytes := s.handles[id].bytes;
      if s.total < bytes then SetTotal(s, FetchSub(s.total, bytes)).(threads := s.threads[t := Panicked])
      else SetTotal(s, FetchSub(s.total, bytes)).(handles := s.handles - {id})
    case Send(t, id, receiver) =>
      s.(handles := s.handles[id := s.handles[id].(owner := receiver)])
  }

  // What every reachable state satisfies

  /** Bytes of the account a handle stands for. */
  function Charge(h: Handle): nat {
    if h.returning <= h.bytes then h.bytes - h.returning else 0
  }

  function Charges(handles: map<Id, Handle>): map<Id, nat> {
    map id | id in handles :: Charge(handles[id])
  }

  function GrantOf(l: Phase): nat { if l.Granted? then l.bytes else 0 }

  function Grants(threads: map<Thread, Phase>): map<Thread, nat> {
    map t | t in threads :: GrantOf(threads[t])
  }

  /** Conservation: the total is exactly what handles and granted calls stand for. */
  ghost predicate Balanced(s: State) {
    s.total == Sum(Charges(s.handles)) + Sum(Grants(s.threads))
  }

  ghost predicate HistoryOk(s: State) {
    |s.history| > 0 && s.history[|s.history| - 1] == s.total && s.limit < U64 &&
    forall k :: 0 <= k < |s.history| ==> s.history[k] <= s.limit
  }

  ghost predicate PhaseOk(s: State, t: Thread) {
    match PhaseOf(s, t)
    case Reserving(bytes, current, attempts, spurious, start, seen) =>
      bytes < U64 && attempts <= ATTEMPTS && 0 < start <= seen <= |s.history| && s.history[seen - 1] == current &&
      attempts <= spurious + (seen - start)
    case Shrinking(id) => Owns(s, t, id)
    case Panicked => false
    case _ => true
  }

  ghost predicate HandleOk(s: State, id: Id)
    requires id in s.handles
  {
    var h := s.handles[id];
    h.returning <= h.bytes && h.bytes < U64 &&
    (h.returning > 0 ==> PhaseOf(s, h.owner) == Shrinking(id))
  }

  /** A refusal is the verdict of the limit on a total the account held during the
      call; contention means 64 failed exchanges, each spurious or after an update. */
  ghost predicate OutcomeOk(limit: nat, history: seq<nat>, o: Outcome) {
    match o
    case Refused(bytes, required, start, seen, end) =>
      0 < start <= seen <= end <= |history| && Admit(limit, history[seen - 1], bytes) == Refuse(required)
    case Contended(spurious, start, end) =>
      0 < start <= end <= |history| && ATTEMPTS <= spurious + (end - start)
    case Failed => true
  }

  ghost predicate Inv(s: State) {
    && HistoryOk(s)
    && Balanced(s)
    && (forall t :: PhaseOk(s, t))
    && (forall id :: id in s.handles ==> HandleOk(s, id))
    && (forall i :: 0 <= i < |s.outcomes| ==> OutcomeOk(s.limit, s.history, s.outcomes[i]))
  }

  lemma InitInv(limit: nat)
    requires limit < U64
    ensures Inv(Init(limit))
  {}

  lemma ChargeAssign(handles: map<Id, Handle>, id: Id, h: Handle)
    ensures Sum(Charges(handles[id := h]))
      == Sum(Charges(handles)) - (if id in handles then Charge(handles[id]) else 0) + Charge(h)
  {
    assert Charges(handles[id := h]) == Charges(handles)[id := Charge(h)];
    Assign(Charges(handles), id, Charge(h));
  }

  lemma ChargeRemove(handles: map<Id, Handle>, id: Id)
    requires id in handles
    ensures Sum(Charges(handles - {id})) == Sum(Charges(handles)) - Charge(handles[id])
  {
    assert Charges(handles - {id}) == Charges(handles) - {id};
    Take(Charges(handles), id);
  }

  lemma GrantAssign(threads: map<Thread, Phase>, t: Thread, l: Phase)
    ensures Sum(Grants(threads[t := l]))
      == Sum(Grants(threads)) - (if t in threads then GrantOf(threads[t]) else 0) + GrantOf(l)
  {
    assert Grants(threads[t := l]) == Grants(threads)[t := GrantOf(l)];
    Assign(Grants(threads), t, GrantOf(l));
  }

  // Every step keeps the invariant

  lemma HandleCharged(s: State, id: Id)
    requires Inv(s) && id in s.handles
    ensures Charge(s.handles[id]) <= s.total
  {
    Bounded(Charges(s.handles), id);
  }

  lemma PairCharged(s: State, id: Id, other: Id)
    requires Inv(s) && id in s.handles && other in s.handles && id != other
    ensures Charge(s.handles[id]) + Charge(s.handles[other]) <= s.total
  {
    BoundedTwo(Charges(s.handles), id, other);
  }

  /** A handle of an idle thread has nothing in flight. */
  lemma IdleHandle(s: State, t: Thread, id: Id)
    requires Inv(s) && PhaseOf(s, t).Idle? && Owns(s, t, id)
    ensures s.handles[id].returning == 0 && s.handles[id].bytes <= s.total
  {
    assert HandleOk(s, id);
    HandleCharged(s, id);
  }

  lemma LoadInv(s: State, t: Thread, bytes: nat)
    requires Inv(s) && Enabled(s, Load(t, bytes))
    ensures Inv(Apply(s, Load(t, bytes)))
  {
    var n := Apply(s, Load(t, bytes));
    GrantAssign(s.threads, t, n.threads[t]);
    Others(s, n, t);
  }

  /** A change to one thread that leaves the handles alone keeps what is said about
      the handles and the other threads, as long as the history only grows. */
  lemma Others(s: State, n: State, t: Thread)
    requires Inv(s) && n.handles == s.handles && t in n.threads && n.threads == s.threads[t := n.threads[t]]
    requires s.history <= n.history && n.limit == s.limit
    requires !PhaseOf(s, t).Shrinking?
    ensures forall u :: u != t ==> PhaseOk(n, u)
    ensures forall id :: id in n.handles ==> HandleOk(n, id)
  {
    forall u | u != t ensures PhaseOk(n, u) { assert PhaseOk(s, u); }
    forall id | id in n.handles ensures HandleOk(n, id) { assert HandleOk(s, id); }
  }

  lemma OutcomesKept(s: State, n: State)
    requires Inv(s) && s.history <= n.history && n.limit == s.limit && s.outcomes <= n.outcomes
    ensures forall i :: 0 <= i < |s.outcomes| ==> OutcomeOk(n.limit, n.history, n.outcomes[i])
  {
    forall i | 0 <= i < |s.outcomes| ensures OutcomeOk(n.limit, n.history, n.outcomes[i]) {
      assert OutcomeOk(s.limit, s.history, s.outcomes[i]);
    }
  }

  /** Giving up: the outcome is justified by what the thread remembers. */
  lemma AttemptEnds(s: State, t: Thread, fails: bool)
    requires Inv(s) && Enabled(s, Attempt(t, fails))
    requires PhaseOf(s, t).attempts >= ATTEMPTS || Admit(s.limit, PhaseOf(s, t).current, PhaseOf(s, t).bytes).Refuse?
    ensures Inv(AttemptStep(s, t, fails))
  {
    var n := AttemptStep(s, t, fails);
    assert PhaseOk(s, t);
    GrantAssign(s.threads, t, Idle);
    Others(s, n, t);
    OutcomesKept(s, n);
  }

  lemma AttemptWins(s: State, t: Thread)
    requires Inv(s) && Enabled(s, Attempt(t, false))
    requires PhaseOf(s, t).attempts < ATTEMPTS && PhaseOf(s, t).current == s.total
    requires Admit(s.limit, PhaseOf(s, t).current, PhaseOf(s, t).bytes).Try?
    ensures Inv(AttemptStep(s, t, false))
  {
    var n := AttemptStep(s, t, false);
    GrantAssign(s.threads, t, Granted(PhaseOf(s, t).bytes));
    Others(s, n, t);
    OutcomesKept(s, n);
  }

  lemma AttemptRetries(s: State, t: Thread, fails: bool)
    requires Inv(s) && Enabled(s, Attempt(t, fails))
    requires PhaseOf(s, t).attempts < ATTEMPTS && (PhaseOf(s, t).current != s.total || fails)
    requires Admit(s.limit, PhaseOf(s, t).current, PhaseOf(s, t).bytes).Try?
    ensures Inv(AttemptStep(s, t, fails))
  {
    var n := AttemptStep(s, t, fails);
    assert PhaseOk(s, t);
    GrantAssign(s.threads, t, n.threads[t]);
    Others(s, n, t);
  }

  lemma AttemptInv(s: State, t: Thread, fails: bool)
    requires Inv(s) && Enabled(s, Attempt(t, fails))
    ensures Inv(Apply(s, Attempt(t, fails)))
  {
    var r := PhaseOf(s, t);
    if r.attempts >= ATTEMPTS || Admit(s.limit, r.current, r.bytes).Refuse? {
      AttemptEnds(s, t, fails);
    } else if r.current == s.total && !fails {
      AttemptWins(s, t);
    } else {
      AttemptRetries(s, t, fails);
    }
  }

  /** A change to one thread together with one of its handles. */
  lemma PairChanged(s: State, n: State, t: Thread, id: Id)
    requires Inv(s) && s.history <= n.history && n.limit == s.limit
    requires t in n.threads && n.threads == s.threads[t := n.threads[t]]
    requires id in n.handles && n.handles == s.handles[id := n.handles[id]]
    requires id in s.handles ==> s.handles[id].owner == t
    requires n.handles[id].owner == t && HandleOk(n, id) && PhaseOk(n, t)
    requires PhaseOf(s, t).Shrinking? ==> PhaseOf(s, t).id == id
    ensures forall u :: PhaseOk(n, u)
    ensures forall j :: j in n.handles ==> HandleOk(n, j)
  {
    forall u ensures PhaseOk(n, u) { assert PhaseOk(s, u); }
    forall j | j in n.handles ensures HandleOk(n, j) { if j != id { assert HandleOk(s, j); } }
  }

  lemma BuildInv(s: State, t: Thread, id: Id)
    requires Inv(s) && Enabled(s, Build(t, id))
    ensures Inv(Apply(s, Build(t, id)))
  {
    var n := Apply(s, Build(t, id));
    GrantAssign(s.threads, t, Idle);
    ChargeAssign(s.handles, id, n.handles[id]);
    Bounded(Grants(s.threads), t);
    PairChanged(s, n, t, id);
  }

  /** A change to handles of one idle thread keeps what is said about all threads. */
  lemma HandlesOnly(s: State, n: State, t: Thread, a: Id, b: Id)
    requires Inv(s) && PhaseOf(s, t).Idle?
    requires n.threads == s.threads && n.history == s.history && n.limit == s.limit && n.total == s.total
    requires a in n.handles && b in n.handles && n.handles == s.handles[a := n.handles[a]][b := n.handles[b]]
    requires a in s.handles ==> Owns(s, t, a)
    requires b in s.handles ==> Owns(s, t, b)
    requires n.handles[a].returning == 0 && n.handles[b].returning == 0
    requires n.handles[a].bytes < U64 && n.handles[b].bytes < U64
    ensures forall u :: PhaseOk(n, u)
    ensures forall j :: j in n.handles ==> HandleOk(n, j)
  {
    forall u ensures PhaseOk(n, u) { assert PhaseOk(s, u); }
    forall j | j in n.handles ensures HandleOk(n, j) { if j != a && j != b { assert HandleOk(s, j); } }
  }

  /** The part has the bytes asked for, and its source is left with the rest. */
  lemma SplitShape(s: State, t: Thread, id: Id, bytes: nat, part: Id)
    requires Enabled(s, Split(t, id, bytes, part))
    ensures var n := Apply(s, Split(t, id, bytes, part));
            var h := s.handles[id];
            if bytes <= h.bytes
            then n == s.(handles := s.handles[id := h.(bytes := h.bytes - bytes)][part := Handle(t, bytes, 0)])
            else n == s.(outcomes := s.outcomes + [Failed])
  {
  }

  lemma SplitInv(s: State, t: Thread, id: Id, bytes: nat, part: Id)
    requires Inv(s) && Enabled(s, Split(t, id, bytes, part))
    ensures Inv(Apply(s, Split(t, id, bytes, part)))
  {
    var n := Apply(s, Split(t, id, bytes, part));
    SplitShape(s, t, id, bytes, part);
    IdleHandle(s, t, id);
    OutcomesKept(s, n);
    hide Apply, OutcomeOk, Charges, Grants;
    if bytes <= s.handles[id].bytes {
      var middle := s.handles[id := n.handles[id]];
      ChargeAssign(s.handles, id, n.handles[id]);
      ChargeAssign(middle, part, n.handles[part]);
      HandlesOnly(s, n, t, id, part);
    } else {
      Untouched(s, n);
    }
  }

  lemma Untouched(s: State, n: State)
    requires Inv(s) && n == s.(outcomes := s.outcomes + [Failed])
    ensures Inv(n)
  {
    OutcomesKept(s, n);
    forall u ensures PhaseOk(n, u) { assert PhaseOk(s, u); }
    forall j | j in n.handles ensures HandleOk(n, j) { assert HandleOk(s, j); }
  }

  lemma TransferShape(s: State, t: Thread, from: Id, to: Id, bytes: nat)
    requires Inv(s) && Enabled(s, Transfer(t, from, to, bytes))
    ensures var n := Apply(s, Transfer(t, from, to, bytes));
            var a, b := s.handles[from].bytes, s.handles[to].bytes;
            if bytes <= a && b + bytes < U64
            then n == s.(handles := s.handles[from := Handle(t, a - bytes, 0)][to := Handle(t, b + bytes, 0)])
            else n == s.(outcomes := s.outcomes + [Failed])
  {
    IdleHandle(s, t, from);
    IdleHandle(s, t, to);
  }

  /** Moving bytes between two idle handles of one thread. */
  lemma MovedInv(s: State, t: Thread, from: Id, to: Id, kept: nat, combined: nat)
    requires Inv(s) && PhaseOf(s, t).Idle? && Owns(s, t, from) && Owns(s, t, to) && from != to
    requires kept + combined == s.handles[from].bytes + s.handles[to].bytes && kept < U64 && combined < U64
    ensures Inv(s.(handles := s.handles[from := Handle(t, kept, 0)][to := Handle(t, combined, 0)]))
  {
    IdleHandle(s, t, from);
    IdleHandle(s, t, to);
    hide HandleOk, PhaseOk, OutcomeOk, Charges, Grants;
    var middle := s.handles[from := Handle(t, kept, 0)];
    var n := s.(handles := middle[to := Handle(t, combined, 0)]);
    ChargeAssign(s.handles, from, Handle(t, kept, 0));
    ChargeAssign(middle, to, Handle(t, combined, 0));
    HandlesOnly(s, n, t, from, to);
    OutcomesKept(s, n);
  }

  lemma TransferInv(s: State, t: Thread, from: Id, to: Id, bytes: nat)
    requires Inv(s) && Enabled(s, Transfer(t, from, to, bytes))
    ensures Inv(Apply(s, Transfer(t, from, to, bytes)))
  {
    hide Apply, Inv;
    TransferShape(s, t, from, to, bytes);
    var a, b := s.handles[from].bytes, s.handles[to].bytes;
    AmountFits(s, from);
    if bytes <= a && b + bytes < U64 {
      MovedInv(s, t, from, to, a - bytes, b + bytes);
    } else {
      Untouched(s, Apply(s, Transfer(t, from, to, bytes)));
    }
  }

  lemma AmountFits(s: State, id: Id)
    requires Inv(s) && id in s.handles
    ensures s.handles[id].bytes < U64
  {
    assert HandleOk(s, id);
  }

  lemma FetchSubExact(total: nat, bytes: nat)
    requires bytes <= total < U64
    ensures FetchSub(total, bytes) == total - bytes
  {}

  lemma ShrinkReleaseShape(s: State, t: Thread, id: Id, target: nat)
    requires Inv(s) && Enabled(s, ShrinkRelease(t, id, target))
    ensures var unused := s.handles[id].bytes - target;
            unused <= s.total &&
            Apply(s, ShrinkRelease(t, id, target)) == SetTotal(s, s.total - unused).(
              threads := s.threads[t := Shrinking(id)],
              handles := s.handles[id := s.handles[id].(returning := unused)])
  {
    IdleHandle(s, t, id);
    FetchSubExact(s.total, s.handles[id].bytes - target);
  }

  lemma ShrinkReleaseInv(s: State, t: Thread, id: Id, target: nat)
    requires Inv(s) && Enabled(s, ShrinkRelease(t, id, target))
    ensures Inv(Apply(s, ShrinkRelease(t, id, target)))
  {
    hide Apply, FetchSub, OutcomeOk, Charges, Grants;
    var n := Apply(s, ShrinkRelease(t, id, target));
    ShrinkReleaseShape(s, t, id, target);
    IdleHandle(s, t, id);
    ChargeAssign(s.handles, id, n.handles[id]);
    GrantAssign(s.threads, t, Shrinking(id));
    PairChanged(s, n, t, id);
    OutcomesKept(s, n);
  }

  lemma ShrinkStoreInv(s: State, t: Thread)
    requires Inv(s) && Enabled(s, ShrinkStore(t))
    ensures Inv(Apply(s, ShrinkStore(t)))
  {
    var id := PhaseOf(s, t).id;
    var n := Apply(s, ShrinkStore(t));
    assert HandleOk(s, id);
    ChargeAssign(s.handles, id, n.handles[id]);
    GrantAssign(s.threads, t, Idle);
    PairChanged(s, n, t, id);
  }

  lemma DropShape(s: State, t: Thread, id: Id)
    requires Inv(s) && Enabled(s, Drop(t, id))
    ensures s.handles[id].bytes <= s.total
    ensures Apply(s, Drop(t, id)) == SetTotal(s, s.total - s.handles[id].bytes).(handles := s.handles - {id})
  {
    IdleHandle(s, t, id);
    FetchSubExact(s.total, s.handles[id].bytes);
  }

  lemma DropInv(s: State, t: Thread, id: Id)
    requires Inv(s) && Enabled(s, Drop(t, id))
    ensures Inv(Apply(s, Drop(t, id)))
  {
    hide Apply, FetchSub;
    var n := Apply(s, Drop(t, id));
    DropShape(s, t, id);
    IdleHandle(s, t, id);
    ChargeRemove(s.handles, id);
    forall u ensures PhaseOk(n, u) { assert PhaseOk(s, u); }
    forall j | j in n.handles ensures HandleOk(n, j) { assert HandleOk(s, j); }
    OutcomesKept(s, n);
  }

  lemma SendInv(s: State, t: Thread, id: Id, receiver: Thread)
    requires Inv(s) && Enabled(s, Send(t, id, receiver))
    ensures Inv(Apply(s, Send(t, id, receiver)))
  {
    var n := Apply(s, Send(t, id, receiver));
    IdleHandle(s, t, id);
    ChargeAssign(s.handles, id, n.handles[id]);
    forall u ensures PhaseOk(n, u) { assert PhaseOk(s, u); }
    forall j | j in n.handles ensures HandleOk(n, j) { assert HandleOk(s, j); }
  }

  /** An idle thread may do anything with the handles it owns, as long as what it makes is new,
      amounts are u64, and a shrink does not grow. */
  lemma OwnerMay(s: State, t: Thread, id: Id, other: Id, bytes: nat)
    requires PhaseOf(s, t).Idle? && Owns(s, t, id) && bytes < U64
    ensures Enabled(s, Load(t, bytes)) && Enabled(s, Drop(t, id))
    ensures forall receiver :: Enabled(s, Send(t, id, receiver))
    ensures Enabled(s, Split(t, id, bytes, other)) <==> other !in s.handles
    ensures Enabled(s, Transfer(t, id, other, bytes)) <==> Owns(s, t, other) && other != id
    ensures Enabled(s, ShrinkRelease(t, id, bytes)) <==> bytes <= s.handles[id].bytes
  {
  }

  /** A handle that is sent is its receiver's, and nothing else changes. */
  lemma SendShape(s: State, t: Thread, id: Id, receiver: Thread)
    requires Enabled(s, Send(t, id, receiver))
    ensures var n := Apply(s, Send(t, id, receiver));
            && Owns(n, receiver, id) && n == s.(handles := n.handles)
            && n.handles == s.handles[id := Handle(receiver, s.handles[id].bytes, s.handles[id].returning)]
  {
  }

  lemma ShrinkStoreShape(s: State, t: Thread)
    requires Enabled(s, ShrinkStore(t)) && HandleOk(s, PhaseOf(s, t).id)
    ensures var id := PhaseOf(s, t).id;
            Apply(s, ShrinkStore(t)) == s.(threads := s.threads[t := Idle],
              handles := s.handles[id := Handle(t, s.handles[id].bytes - s.handles[id].returning, 0)])
  {
  }

  /** A shrink that meets no interference gives back exactly what exceeds its target. */
  lemma SoloShrink(s: State, t: Thread, id: Id, target: nat)
    requires Inv(s) && Enabled(s, ShrinkRelease(t, id, target))
    ensures var n := Run(s, [ShrinkRelease(t, id, target)] + [ShrinkStore(t)]);
            && n.handles == s.handles[id := Handle(t, target, 0)] && n.outcomes == s.outcomes
            && n.total == s.total - (s.handles[id].bytes - target) && PhaseOf(n, t).Idle?
  {
    ShrinkReleaseShape(s, t, id, target);
    ShrinkReleaseInv(s, t, id, target);
    var middle := Apply(s, ShrinkRelease(t, id, target));
    assert HandleOk(middle, id);
    hide Run, Inv, FetchSub, Apply, HandleOk;
    RunConcat(s, [ShrinkRelease(t, id, target)], [ShrinkStore(t)]);
    OneStep(s, ShrinkRelease(t, id, target));
    OneStep(middle, ShrinkStore(t));
    ShrinkStoreShape(middle, t);
    assert middle.handles[id := Handle(t, target, 0)] == s.handles[id := Handle(t, target, 0)];
  }

  lemma StepInv(s: State, step: Step)
    requires Inv(s) && Enabled(s, step)
    ensures Inv(Apply(s, step))
  {
    match step
    case Load(t, bytes) => LoadInv(s, t, bytes);
    case Attempt(t, fails) => AttemptInv(s, t, fails);
    case Build(t, id) => BuildInv(s, t, id);
    case Split(t, id, bytes, part) => SplitInv(s, t, id, bytes, part);
    case Transfer(t, from, to, bytes) => TransferInv(s, t, from, to, bytes);
    case ShrinkRelease(t, id, target) => ShrinkReleaseInv(s, t, id, target);
    case ShrinkStore(t) => ShrinkStoreInv(s, t);
    case Drop(t, id) => DropInv(s, t, id);
    case Send(t, id, receiver) => SendInv(s, t, id, receiver);
  }

  /** Inside one account the destination's checked addition never overflows: the
      only transfer that fails is one larger than its source. */
  lemma TransferNeverOverflows(s: State, t: Thread, from: Id, to: Id, bytes: nat)
    requires Inv(s) && Enabled(s, Transfer(t, from, to, bytes))
    ensures TransferAmount(s.handles[from].bytes, s.handles[to].bytes, bytes).Err? <==> bytes > s.handles[from].bytes
  {
    IdleHandle(s, t, from);
    IdleHandle(s, t, to);
    PairCharged(s, from, to);
  }

  // Whole runs

  /** The state after a schedule; a step that is not enabled is not taken. */
  function Run(s: State, steps: seq<Step>): State
    decreases steps
  {
    if steps == [] then s
    else Run(if Enabled(s, steps[0]) then Apply(s, steps[0]) else s, steps[1..])
  }

  lemma {:induction false} RunInv(s: State, steps: seq<Step>)
    requires Inv(s)
    ensures Inv(Run(s, steps))
    decreases steps
  {
    if steps != [] {
      if Enabled(s, steps[0]) { StepInv(s, steps[0]); }
      RunInv(if Enabled(s, steps[0]) then Apply(s, steps[0]) else s, steps[1..]);
    }
  }

  /** Under every schedule the total stays within the limit and equals the charges of
      live handles plus calls that have won but not yet returned; no release underflows. */
  lemma Conservation(limit: nat, steps: seq<Step>)
    requires limit < U64
    ensures var s := Run(Init(limit), steps);
            s.total <= limit && s.limit == limit &&
            s.total == Sum(Charges(s.handles)) + Sum(Grants(s.threads)) &&
            forall t :: !PhaseOf(s, t).Panicked?
  {
    InitInv(limit);
    RunInv(Init(limit), steps);
    RunLimit(Init(limit), steps);
    var s := Run(Init(limit), steps);
    forall t ensures !PhaseOf(s, t).Panicked? { assert PhaseOk(s, t); }
  }

  lemma {:induction false} RunLimit(s: State, steps: seq<Step>)
    ensures Run(s, steps).limit == s.limit
    decreases steps
  {
    if steps != [] {
      RunLimit(if Enabled(s, steps[0]) then Apply(s, steps[0]) else s, steps[1..]);
    }
  }

  function Amounts(handles: map<Id, Handle>): map<Id, nat> {
    map id | id in handles :: handles[id].bytes
  }

  /** With every thread idle the total is the sum of the live reservations. */
  lemma QuiescentTotal(limit: nat, steps: seq<Step>)
    requires limit < U64
    requires forall t :: PhaseOf(Run(Init(limit), steps), t).Idle?
    ensures var s := Run(Init(limit), steps);
            s.total == Sum(Amounts(s.handles))
  {
    var s := Run(Init(limit), steps);
    InitInv(limit);
    RunInv(Init(limit), steps);
    forall id | id in s.handles ensures Charge(s.handles[id]) == s.handles[id].bytes {
      assert HandleOk(s, id);
      assert PhaseOf(s, s.handles[id].owner).Idle?;
    }
    assert Charges(s.handles) == Amounts(s.handles);
    forall t | t in s.threads ensures GrantOf(s.threads[t]) == 0 { assert PhaseOf(s, t).Idle?; }
    NoGrants(Grants(s.threads));
  }

  lemma {:induction false} NoGrants(m: map<Thread, nat>)
    requires forall t :: t in m ==> m[t] == 0
    ensures Sum(m) == 0
    decreases |m|
  {
    if m != map[] {
      var t := Pick(m);
      Smaller(m, t);
      NoGrants(m - {t});
      Take(m, t);
    }
  }

  /** Every refusal names a total that the account held while the call was running and
      that left no room; contention needs 64 failed exchanges, each one spurious or
      after another thread changed the total during the call. */
  lemma RefusalsJustified(limit: nat, steps: seq<Step>, i: nat)
    requires limit < U64 && i < |Run(Init(limit), steps).outcomes|
    ensures var s := Run(Init(limit), steps);
            match s.outcomes[i]
            case Refused(bytes, required, start, seen, end) =>
              0 < start <= seen <= end <= |s.history| && s.history[seen - 1] + bytes > limit &&
              required == if s.history[seen - 1] + bytes >= U64 then U64 - 1 else s.history[seen - 1] + bytes
            case Contended(spurious, start, end) =>
              0 < start <= end <= |s.history| && 64 <= spurious + (end - start)
            case Failed => true
  {
    InitInv(limit);
    RunInv(Init(limit), steps);
    RunLimit(Init(limit), steps);
    var s := Run(Init(limit), steps);
    assert OutcomeOk(s.limit, s.history, s.outcomes[i]);
  }

  /** The first exchange of an undisturbed call decides it. */
  lemma SoloAttempt(s: State, t: Thread, bytes: nat)
    requires Inv(s) && PhaseOf(s, t).Idle? && bytes < U64
    ensures var n := Run(Run(s, [Load(t, bytes)]), [Attempt(t, false)]);
            if s.total + bytes <= s.limit
            then n == SetTotal(s, s.total + bytes).(threads := s.threads[t := Granted(bytes)])
            else
              var required := if s.total + bytes >= U64 then U64 - 1 else s.total + bytes;
              var refused := Refused(bytes, required, |s.history|, |s.history|, |s.history|);
              n == s.(threads := s.threads[t := Idle], outcomes := s.outcomes + [refused])
  {
    hide Inv;
    var s1 := Apply(s, Load(t, bytes));
    assert s1.threads[t := Idle] == s.threads[t := Idle];
    assert s1.threads[t := Granted(bytes)] == s.threads[t := Granted(bytes)];
    assert Run(s, [Load(t, bytes)]) == s1;
    assert s.limit < U64 by { LimitFits(s); }
  }

  lemma LimitFits(s: State)
    requires Inv(s)
    ensures s.limit < U64
  {
  }

  lemma {:induction false} RunConcat(s: State, first: seq<Step>, rest: seq<Step>)
    ensures Run(s, first + rest) == Run(Run(s, first), rest)
    decreases first
  {
    if first == [] {
      assert first + rest == rest;
    } else {
      assert (first + rest)[1..] == first[1..] + rest;
      RunConcat(if Enabled(s, first[0]) then Apply(s, first[0]) else s, first[1..], rest);
    }
  }

  /** A call that meets neither interference nor a spurious failure is granted exactly when
      the bytes fit, and the grant charges exactly those bytes; otherwise it is refused with
      the total it would have needed, and nothing else changes. */
  lemma SoloReserve(s: State, t: Thread, bytes: nat, id: Id)
    requires Inv(s) && PhaseOf(s, t).Idle? && bytes < U64 && id !in s.handles
    ensures var n := Run(s, [Load(t, bytes), Attempt(t, false), Build(t, id)]);
            if s.total + bytes <= s.limit
            then n.handles == s.handles[id := Handle(t, bytes, 0)] && n.total == s.total + bytes &&
              n.outcomes == s.outcomes
            else
              && n.handles == s.handles && n.total == s.total
              && var required := if s.total + bytes >= U64 then U64 - 1 else s.total + bytes;
                 n.outcomes == s.outcomes + [Refused(bytes, required, |s.history|, |s.history|, |s.history|)]
  {
    hide Inv, AttemptStep;
    var a, b, c := Load(t, bytes), Attempt(t, false), Build(t, id);
    assert [a, b, c] == [a] + [b] + [c];
    RunConcat(s, [a] + [b], [c]);
    RunConcat(s, [a], [b]);
    SoloAttempt(s, t, bytes);
  }

  // Contention

  /** So many exchanges that fail although nobody interferes. */
  function Failing(t: Thread, n: nat): seq<Step> {
    if n == 0 then [] else [Attempt(t, true)] + Failing(t, n - 1)
  }

  lemma NextStep(s: State, step: Step, rest: seq<Step>)
    ensures Run(s, [step] + rest) == Run(if Enabled(s, step) then Apply(s, step) else s, rest)
  {
    assert ([step] + rest)[1..] == rest;
  }

  /** Up to 64 failures a call that fits goes on, having read the same total each time. */
  lemma {:induction false} KeepsTrying(s: State, t: Thread, n: nat)
    requires PhaseOf(s, t).Reserving? && PhaseOf(s, t).current == s.total && PhaseOf(s, t).seen == |s.history|
    requires PhaseOf(s, t).attempts + n <= ATTEMPTS && s.total + PhaseOf(s, t).bytes <= s.limit < U64
    ensures var r := PhaseOf(s, t);
            Run(s, Failing(t, n)) ==
            s.(threads := s.threads[t := r.(attempts := r.attempts + n, spurious := r.spurious + n)])
    decreases n
  {
    if n == 0 {
      assert s.threads[t := PhaseOf(s, t)] == s.threads;
    } else {
      hide Run;
      var next := Apply(s, Attempt(t, true));
      NextStep(s, Attempt(t, true), Failing(t, n - 1));
      KeepsTrying(next, t, n - 1);
      var last := PhaseOf(s, t).(attempts := PhaseOf(s, t).attempts + n, spurious := PhaseOf(s, t).spurious + n);
      assert next.threads[t := last] == s.threads[t := last];
    }
  }

  lemma {:induction false} IdleIgnores(s: State, t: Thread, n: nat)
    requires PhaseOf(s, t).Idle?
    ensures Run(s, Failing(t, n)) == s
    decreases n
  {
    if n > 0 {
      NextStep(s, Attempt(t, true), Failing(t, n - 1));
      IdleIgnores(s, t, n - 1);
    }
  }

  lemma {:induction false} FailingSplit(t: Thread, m: nat, n: nat)
    ensures Failing(t, m + n) == Failing(t, m) + Failing(t, n)
    decreases m
  {
    if m == 0 {
      assert [] + Failing(t, n) == Failing(t, n);
    } else {
      FailingSplit(t, m - 1, n);
      assert [Attempt(t, true)] + (Failing(t, m - 1) + Failing(t, n)) ==
        ([Attempt(t, true)] + Failing(t, m - 1)) + Failing(t, n);
    }
  }

  /** The state of a call after its load and so many failures. */
  function Tried(s: State, t: Thread, bytes: nat, n: nat): State {
    s.(threads := s.threads[t := Reserving(bytes, s.total, n, n, |s.history|, |s.history|)])
  }

  lemma FirstTries(s: State, t: Thread, bytes: nat, n: nat)
    requires PhaseOf(s, t).Idle? && s.total + bytes <= s.limit < U64 && n <= ATTEMPTS
    ensures Run(s, [Load(t, bytes)] + Failing(t, n)) == Tried(s, t, bytes, n)
  {
    hide Run, Failing;
    var loaded := Apply(s, Load(t, bytes));
    NextStep(s, Load(t, bytes), Failing(t, n));
    KeepsTrying(loaded, t, n);
    assert loaded.threads[t := PhaseOf(Tried(s, t, bytes, n), t)] == Tried(s, t, bytes, n).threads;
  }

  lemma AllTries(s: State, t: Thread, bytes: nat, n: nat)
    requires PhaseOf(s, t).Idle? && s.total + bytes <= s.limit < U64 && n >= ATTEMPTS
    ensures Run(s, [Load(t, bytes)] + Failing(t, n)) == Run(Tried(s, t, bytes, ATTEMPTS), Failing(t, n - ATTEMPTS))
  {
    FirstTries(s, t, bytes, ATTEMPTS);
    hide *;
    FailingSplit(t, ATTEMPTS, n - ATTEMPTS);
    var first, rest := Failing(t, ATTEMPTS), Failing(t, n - ATTEMPTS);
    assert [Load(t, bytes)] + (first + rest) == ([Load(t, bytes)] + first) + rest;
    RunConcat(s, [Load(t, bytes)] + first, rest);
  }

  lemma LaterWins(s: State, t: Thread, bytes: nat, n: nat)
    requires s.total + bytes <= s.limit < U64 && n < ATTEMPTS
    ensures Run(Tried(s, t, bytes, n), [Attempt(t, false)]) ==
            SetTotal(s, s.total + bytes).(threads := s.threads[t := Granted(bytes)])
  {
    OneStep(Tried(s, t, bytes, n), Attempt(t, false));
    hide Run;
    assert Tried(s, t, bytes, n).threads[t := Granted(bytes)] == s.threads[t := Granted(bytes)];
  }

  /** A call whose bytes fit and which meets only spurious failures is granted exactly when fewer
      than 64 of its exchanges fail; otherwise it is refused for contention, and that although
      the bytes fit. */
  lemma SpuriousReserve(s: State, t: Thread, bytes: nat, n: nat)
    requires Inv(s) && PhaseOf(s, t).Idle? && s.total + bytes <= s.limit
    ensures var h := |s.history|;
            Run(s, [Load(t, bytes)] + Failing(t, n) + [Attempt(t, false)]) ==
            if n < ATTEMPTS then SetTotal(s, s.total + bytes).(threads := s.threads[t := Granted(bytes)])
            else s.(threads := s.threads[t := Idle], outcomes := s.outcomes + [Contended(ATTEMPTS, h, h)])
  {
    LimitFits(s);
    hide Inv, Run, Failing, Enabled, SetTotal;
    RunConcat(s, [Load(t, bytes)] + Failing(t, n), [Attempt(t, false)]);
    if n < ATTEMPTS {
      FirstTries(s, t, bytes, n);
      LaterWins(s, t, bytes, n);
    } else {
      AllTries(s, t, bytes, n);
      GivesUp(s, Tried(s, t, bytes, ATTEMPTS), t, |s.history|, n - ATTEMPTS);
    }
  }

  lemma OneStep(s: State, step: Step)
    ensures Run(s, [step]) == if Enabled(s, step) then Apply(s, step) else s
  {
    NextStep(s, step, []);
    assert [step] + [] == [step];
  }

  /** The attempt after the last one refuses the call; what follows finds the thread idle. */
  lemma GivesUp(s: State, tried: State, t: Thread, h: nat, n: nat)
    requires PhaseOf(tried, t).Reserving? && PhaseOf(tried, t).attempts == PhaseOf(tried, t).spurious == ATTEMPTS
    requires PhaseOf(tried, t).start == h == |s.history|
    requires tried == s.(threads := s.threads[t := PhaseOf(tried, t)])
    ensures Run(Run(tried, Failing(t, n)), [Attempt(t, false)]) ==
            s.(threads := s.threads[t := Idle], outcomes := s.outcomes + [Contended(ATTEMPTS, h, h)])
  {
    hide Run;
    var refused := s.(threads := s.threads[t := Idle], outcomes := s.outcomes + [Contended(ATTEMPTS, h, h)]);
    assert tried.threads[t := Idle] == refused.threads;
    if n == 0 {
      NoSteps(tried);
      OneStep(tried, Attempt(t, false));
    } else {
      NextStep(tried, Attempt(t, true), Failing(t, n - 1));
      IdleIgnores(refused, t, n - 1);
      OneStep(refused, Attempt(t, false));
    }
  }

  lemma NoSteps(s: State)
    ensures Run(s, []) == s
  {
  }

  /** From an empty account: 64 spurious failures refuse bytes that the limit has room for. */
  lemma ContentionWithRoom(limit: nat, bytes: nat)
    requires bytes <= limit < U64
    ensures var s := Run(Init(limit), [Load(0, bytes)] + Failing(0, ATTEMPTS) + [Attempt(0, false)]);
            s.outcomes == [Contended(ATTEMPTS, 1, 1)] && s.total == 0 && s.total + bytes <= s.limit
  {
    InitInv(limit);
    SpuriousReserve(Init(limit), 0, bytes, ATTEMPTS);
  }

  // Without spurious failures

  predicate NoSpurious(step: Step) { step.Attempt? ==> !step.fails }

  /** Nobody remembers a spurious failure, and no contention was blamed on one. */
  ghost predicate Earnest(s: State) {
    && (forall t :: PhaseOf(s, t).Reserving? ==> PhaseOf(s, t).spurious == 0)
    && (forall i :: 0 <= i < |s.outcomes| && s.outcomes[i].Contended? ==> s.outcomes[i].spurious == 0)
  }

  lemma EarnestStep(s: State, step: Step)
    requires Earnest(s) && Enabled(s, step) && NoSpurious(step)
    ensures Earnest(Apply(s, step))
  {
    var n := Apply(s, step);
    forall t | PhaseOf(n, t).Reserving? ensures PhaseOf(n, t).spurious == 0 {
      if PhaseOf(s, t).Reserving? { assert PhaseOf(s, t).spurious == 0; }
    }
    forall i | 0 <= i < |n.outcomes| && n.outcomes[i].Contended? ensures n.outcomes[i].spurious == 0 {
      if i < |s.outcomes| { assert n.outcomes[i] == s.outcomes[i]; }
    }
  }

  lemma {:induction false} EarnestRun(s: State, steps: seq<Step>)
    requires Earnest(s) && forall i :: 0 <= i < |steps| ==> NoSpurious(steps[i])
    ensures Earnest(Run(s, steps))
    decreases steps
  {
    if steps != [] {
      assert NoSpurious(steps[0]);
      if Enabled(s, steps[0]) { EarnestStep(s, steps[0]); }
      EarnestRun(if Enabled(s, steps[0]) then Apply(s, steps[0]) else s, steps[1..]);
    }
  }

  /** If no exchange fails spuriously, a call is refused for contention only after at least 64
      changes of the total while it was running. */
  lemma ContentionNeedsChanges(limit: nat, steps: seq<Step>, i: nat)
    requires limit < U64 && forall k :: 0 <= k < |steps| ==> NoSpurious(steps[k])
    requires i < |Run(Init(limit), steps).outcomes| && Run(Init(limit), steps).outcomes[i].Contended?
    ensures Run(Init(limit), steps).outcomes[i].end - Run(Init(limit), steps).outcomes[i].start >= 64
  {
    RefusalsJustified(limit, steps, i);
    EarnestRun(Init(limit), steps);
  }
}
