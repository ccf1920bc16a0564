/** The poisoning mutex as atomic steps of many threads: native acquisition, the poison check,
    panics, guard drops, forgotten guards and the release of storage. */
module Mutexes {
  import opened Basics

  type Thread = nat
  type Id = nat

  /** A guard between native acquisition and native release. */
  datatype Phase =
    | Checking    // acquired, poison flag not yet read
    | Returned    // in its caller's hands
    | Refused     // found poison, about to be dropped
    | Unlocking   // dropped, native unlock still to come
    | Forgotten   // never to be dropped

  datatype Guard = Guard(thread: Thread, panickingOnEntry: bool, phase: Phase)

  datatype Storage = Live | Leaked | Destroyed

  datatype State = State(holder: Option<Id>, guards: map<Id, Guard>, panicking: set<Thread>, poisoned: bool,
    storage: Storage)

  datatype Step =
    | BeginPanic(t: Thread)
    | EndPanic(t: Thread)
    | Acquire(t: Thread, g: Id)   // native lock or try-lock succeeds
    | Busy(t: Thread)             // try-lock finds another holder
    | Check(g: Id)
    | Drop(g: Id)
    | Unlock(g: Id)
    | Forget(g: Id)
    | Release                     // the owner is dropped

  const START: State := State(None, map[], {}, false, Live)

  /** Dropping the owner needs exclusive access, which only forgotten guards survive. */
  predicate Unborrowed(s: State) {
    forall g :: g in s.guards ==> s.guards[g].phase.Forgotten?
  }

  predicate Enabled(s: State, step: Step) {
    match step
    case BeginPanic(t) => t !in s.panicking
    case EndPanic(t) => t in s.panicking
    case Acquire(t, g) => s.storage.Live? && s.holder.None? && g !in s.guards
    case Busy(t) => s.storage.Live? && s.holder.Some?
    case Check(g) => s.storage.Live? && g in s.guards && s.guards[g].phase.Checking?
    case Drop(g) => s.storage.Live? && g in s.guards && (s.guards[g].phase.Returned? || s.guards[g].phase.Refused?)
    case Unlock(g) => s.storage.Live? && g in s.guards && s.guards[g].phase.Unlocking?
    case Forget(g) => s.storage.Live? && g in s.guards && s.guards[g].phase.Returned?
    case Release => s.storage.Live? && Unborrowed(s)
  }

  function Apply(s: State, step: Step): State
    requires Enabled(s, step)
  {
    match step
    case BeginPanic(t) => s.(panicking := s.panicking + {t})
    case EndPanic(t) => s.(panicking := s.panicking - {t})
    case Acquire(t, g) => s.(holder := Some(g), guards := s.guards[g := Guard(t, t in s.panicking, Checking)])
    case Busy(t) => s
    case Check(g) => s.(guards := s.guards[g := s.guards[g].(phase := if s.poisoned then Refused else Returned)])
    case Drop(g) =>
      var guard := s.guards[g];
      s.(poisoned := s.poisoned || (!guard.panickingOnEntry && guard.thread in s.panicking),
         guards := s.guards[g := guard.(phase := Unlocking)])
    case Unlock(g) => s.(holder := None, guards := s.guards - {g})
    case Forget(g) => s.(guards := s.guards[g := s.guards[g].(phase := Forgotten)])
    case Release => s.(storage := if s.holder.Some? then Leaked else Destroyed)
  }

  /** A guard exists exactly while its owner holds the native lock. */
  predicate Inv(s: State) {
    && (forall g :: g in s.guards ==> s.holder == Some(g))
    && (s.holder.Some? ==> s.holder.value in s.guards)
    && (s.storage.Destroyed? ==> s.holder.None?)
    && (s.storage.Leaked? ==> s.holder.Some? && s.guards[s.holder.value].phase.Forgotten?)
  }

  lemma StepInv(s: State, step: Step)
    requires Inv(s) && Enabled(s, step)
    ensures Inv(Apply(s, step))
  {
  }

  // Runs

  predicate Run(s: State, steps: seq<Step>)
    decreases |steps|
  {
    steps == [] || (Enabled(s, steps[0]) && Run(Apply(s, steps[0]), steps[1..]))
  }

  function End(s: State, steps: seq<Step>): State
    requires Run(s, steps)
    decreases |steps|
  {
    if steps == [] then s else End(Apply(s, steps[0]), steps[1..])
  }

  /** The guard is in its caller's hands. */
  predicate InHand(s: State, g: Id) {
    g in s.guards && s.guards[g].phase.Returned?
  }

  /** The step hands a guard to its caller. */
  predicate Grants(s: State, step: Step) {
    step.Check? && Enabled(s, step) && InHand(Apply(s, step), step.g)
  }

  /** A guard reaches its caller only through its own check, and only past a clear poison flag;
      a check under poison refuses it. */
  lemma OnlyCheckReturns(s: State, step: Step, g: Id)
    requires Enabled(s, step)
    ensures InHand(Apply(s, step), g) && !InHand(s, g) ==> step == Check(g) && !s.poisoned
    ensures step == Check(g) ==>
      g in Apply(s, step).guards && Apply(s, step).guards[g].phase == if s.poisoned then Refused else Returned
    ensures Grants(s, step) <==> step.Check? && !s.poisoned
  {
  }

  predicate GrantsSomewhere(s: State, steps: seq<Step>)
    requires Run(s, steps)
    decreases |steps|
  {
    steps != [] && (Grants(s, steps[0]) || GrantsSomewhere(Apply(s, steps[0]), steps[1..]))
  }

  lemma {:induction false} RunInv(s: State, steps: seq<Step>)
    requires Inv(s) && Run(s, steps)
    ensures Inv(End(s, steps))
    decreases steps
  {
    if steps != [] {
      StepInv(s, steps[0]);
      RunInv(Apply(s, steps[0]), steps[1..]);
    }
  }

  /** In every interleaving at most one guard exists, and it holds the native lock. */
  lemma AtMostOneGuard(steps: seq<Step>, a: Id, b: Id)
    requires Run(START, steps)
    requires a in End(START, steps).guards && b in End(START, steps).guards
    ensures a == b && End(START, steps).holder == Some(a)
  {
    RunInv(START, steps);
  }

  /** While the storage lives, an attempt by any thread is decided by whether a guard exists: busy
      if one does, and an acquisition, with any fresh identity, if none does. */
  lemma AttemptDecides(s: State, t: Thread, g: Id)
    requires Inv(s) && s.storage.Live? && g !in s.guards
    ensures Enabled(s, Busy(t)) <==> exists h :: h in s.guards
    ensures Enabled(s, Acquire(t, g)) <==> !(exists h :: h in s.guards)
    ensures Enabled(s, Busy(t)) ==> Apply(s, Busy(t)) == s
  {
    if s.holder.Some? { assert s.holder.value in s.guards; }
  }

  /** What the holder of a guard may do with it. */
  lemma HolderMay(s: State, g: Id)
    requires s.storage.Live? && g in s.guards
    ensures Enabled(s, Check(g)) <==> s.guards[g].phase == Checking
    ensures Enabled(s, Drop(g)) <==> s.guards[g].phase in {Returned, Refused}
    ensures Enabled(s, Forget(g)) <==> s.guards[g].phase == Returned
    ensures Enabled(s, Unlock(g)) <==> s.guards[g].phase == Unlocking
  {
  }

  // Poison

  /** Once poisoned, for ever, and no step hands out a guard. */
  lemma {:induction false} PoisonIsFinal(s: State, steps: seq<Step>)
    requires s.poisoned && Run(s, steps)
    ensures End(s, steps).poisoned && !GrantsSomewhere(s, steps)
    decreases steps
  {
    if steps != [] { PoisonIsFinal(Apply(s, steps[0]), steps[1..]); }
  }

  /** However a run from a poisoned state goes on, the guards in their callers' hands at its end
      were in their hands at its start. */
  lemma {:induction false} PoisonedHandsOutNothing(s: State, steps: seq<Step>, g: Id)
    requires s.poisoned && Run(s, steps) && InHand(End(s, steps), g)
    ensures InHand(s, g)
    decreases steps
  {
    if steps != [] {
      OnlyCheckReturns(s, steps[0], g);
      PoisonedHandsOutNothing(Apply(s, steps[0]), steps[1..], g);
    }
  }

  lemma KeptStep(s: State, step: Step, g: Id)
    requires Enabled(s, step) && g in s.guards && step != Unlock(g)
    ensures g in Apply(s, step).guards && Apply(s, step).guards[g].thread == s.guards[g].thread
    ensures Apply(s, step).guards[g].panickingOnEntry == s.guards[g].panickingOnEntry
  {
  }

  /** Until its unlock a guard stays what it was when it was taken. */
  lemma {:induction false} KeptRun(s: State, steps: seq<Step>, g: Id)
    requires Run(s, steps) && g in s.guards && Unlock(g) !in steps
    ensures g in End(s, steps).guards && End(s, steps).guards[g].thread == s.guards[g].thread
    ensures End(s, steps).guards[g].panickingOnEntry == s.guards[g].panickingOnEntry
    decreases steps
  {
    if steps != [] {
      assert steps[0] in steps && forall step :: step in steps[1..] ==> step in steps;
      KeptStep(s, steps[0], g);
      KeptRun(Apply(s, steps[0]), steps[1..], g);
    }
  }

  /** From acquisition to drop, whatever happens in between: the drop poisons an unpoisoned mutex
      exactly when the acquiring thread is panicking at the drop and was not at the acquisition. */
  lemma PoisonedExactly(s: State, t: Thread, g: Id, steps: seq<Step>)
    requires Run(s, [Acquire(t, g)] + steps) && Unlock(g) !in steps
    requires Enabled(End(s, [Acquire(t, g)] + steps), Drop(g)) && !End(s, [Acquire(t, g)] + steps).poisoned
    ensures Apply(End(s, [Acquire(t, g)] + steps), Drop(g)).poisoned <==>
      t in End(s, [Acquire(t, g)] + steps).panicking && t !in s.panicking
  {
    assert ([Acquire(t, g)] + steps)[1..] == steps;
    KeptRun(Apply(s, Acquire(t, g)), steps, g);
  }

  // Panics under a held guard

  /** Its caller has the guard, or has forgotten it. */
  predicate Held(s: State, g: Id) {
    g in s.guards && (s.guards[g].phase.Returned? || s.guards[g].phase.Forgotten?)
  }

  lemma HeldStep(s: State, g: Id, step: Step)
    requires Inv(s) && Held(s, g) && Enabled(s, step) && step != Drop(g)
    ensures !Grants(s, step) && Held(Apply(s, step), g) && Apply(s, step).poisoned == s.poisoned
    ensures Apply(s, step).guards[g].thread == s.guards[g].thread
    ensures Apply(s, step).guards[g].panickingOnEntry == s.guards[g].panickingOnEntry
    ensures Apply(s, step).guards[g].phase.Returned? ==> s.guards[g].phase.Returned?
  {
  }

  /** As long as a guard is held, nothing is granted and nothing poisons. */
  lemma {:induction false} HeldRun(s: State, g: Id, steps: seq<Step>)
    requires Inv(s) && Held(s, g) && Run(s, steps) && Drop(g) !in steps
    ensures !GrantsSomewhere(s, steps) && Inv(End(s, steps)) && Held(End(s, steps), g)
    ensures End(s, steps).poisoned == s.poisoned && End(s, steps).guards[g].thread == s.guards[g].thread
    ensures End(s, steps).guards[g].panickingOnEntry == s.guards[g].panickingOnEntry
    decreases steps
  {
    if steps != [] {
      assert steps[0] in steps && forall step :: step in steps[1..] ==> step in steps;
      HeldStep(s, g, steps[0]);
      StepInv(s, steps[0]);
      HeldRun(Apply(s, steps[0]), g, steps[1..]);
    }
  }

  lemma {:induction false} RunConcat(s: State, a: seq<Step>, b: seq<Step>)
    requires Run(s, a)
    ensures Run(s, a + b) <==> Run(End(s, a), b)
    ensures Run(s, a + b) ==>
      && End(s, a + b) == End(End(s, a), b)
      && GrantsSomewhere(s, a + b) == (GrantsSomewhere(s, a) || GrantsSomewhere(End(s, a), b))
    decreases a
  {
    if a == [] {
      assert a + b == b;
    } else {
      assert (a + b)[1..] == a[1..] + b;
      RunConcat(Apply(s, a[0]), a[1..], b);
    }
  }

  /** The release and next acquisition after a drop: granted exactly when the drop left no poison. */
  lemma NextAcquisition(s: State, g: Id, t: Thread, h: Id)
    requires Inv(s) && Enabled(s, Drop(g)) && h != g
    ensures var steps := [Drop(g)] + ([Unlock(g)] + ([Acquire(t, h)] + [Check(h)]));
            Run(s, steps) && (GrantsSomewhere(s, steps) <==> !Apply(s, Drop(g)).poisoned)
  {
    var s1 := Apply(s, Drop(g));
    var s2 := Apply(s1, Unlock(g));
    var s3 := Apply(s2, Acquire(t, h));
    Nothing(Apply(s3, Check(h)));
    Prepend(s3, Check(h), []);
    Prepend(s2, Acquire(t, h), [Check(h)]);
    Prepend(s1, Unlock(g), [Acquire(t, h)] + [Check(h)]);
    Prepend(s, Drop(g), [Unlock(g)] + ([Acquire(t, h)] + [Check(h)]));
  }

  /** Some continuation hands out a guard. */
  ghost predicate MayGrant(s: State) {
    exists steps :: Run(s, steps) && GrantsSomewhere(s, steps)
  }

  /** Dropping a guard ends all later grants, whatever the threads do, exactly when its thread
      is then panicking and was not when it acquired the lock. */
  lemma DropDecides(s: State, g: Id)
    requires Inv(s) && !s.poisoned && Enabled(s, Drop(g))
    ensures MayGrant(Apply(s, Drop(g))) <==> !(s.guards[g].thread in s.panicking && !s.guards[g].panickingOnEntry)
  {
    var dropped := Apply(s, Drop(g));
    if dropped.poisoned {
      forall steps | Run(dropped, steps) ensures !GrantsSomewhere(dropped, steps) {
        PoisonIsFinal(dropped, steps);
      }
    } else {
      var rest := [Unlock(g)] + ([Acquire(0, g + 1)] + [Check(g + 1)]);
      NextAcquisition(s, g, 0, g + 1);
      assert ([Drop(g)] + rest)[1..] == rest;
      assert Run(dropped, rest) && GrantsSomewhere(dropped, rest);
    }
  }

  /** A panic has begun under this guard, which its caller holds. */
  predicate PanicUnder(s: State, g: Id) {
    Held(s, g) && !s.guards[g].panickingOnEntry && s.guards[g].thread in s.panicking
  }

  /** The run drops the guard while its thread is not panicking: what panic there was has been
      caught under the guard. */
  predicate DropsCalmly(s: State, g: Id, steps: seq<Step>)
    requires Run(s, steps)
    decreases |steps|
  {
    && steps != []
    && if steps[0] == Drop(g) then s.guards[g].thread !in s.panicking
      else DropsCalmly(Apply(s, steps[0]), g, steps[1..])
  }

  /** After a panic has begun under a held guard, a run grants a lock only if the guard is dropped
      calmly, however the threads interleave and however often the lock is released. */
  lemma {:induction false} GrantNeedsCalmDrop(s: State, g: Id, steps: seq<Step>)
    requires Inv(s) && Held(s, g) && !s.guards[g].panickingOnEntry && Run(s, steps) && GrantsSomewhere(s, steps)
    ensures DropsCalmly(s, g, steps)
    decreases steps
  {
    var next := Apply(s, steps[0]);
    StepInv(s, steps[0]);
    if steps[0] == Drop(g) {
      if next.poisoned { PoisonIsFinal(next, steps[1..]); }
    } else {
      HeldStep(s, g, steps[0]);
      GrantNeedsCalmDrop(next, g, steps[1..]);
    }
  }

  /** Exactly when a panic under a guard ends all grants: for any run that reaches the drop of a
      guard under which a panic began, some continuation grants a lock if and only if the thread
      is no longer panicking at the drop. */
  lemma PanicIsFinalExactly(s: State, g: Id, steps: seq<Step>)
    requires Inv(s) && !s.poisoned && PanicUnder(s, g) && Run(s, steps) && Drop(g) !in steps
    requires Enabled(End(s, steps), Drop(g))
    ensures !GrantsSomewhere(s, steps)
    ensures MayGrant(Apply(End(s, steps), Drop(g))) <==> s.guards[g].thread !in End(s, steps).panicking
  {
    HeldRun(s, g, steps);
    DropDecides(End(s, steps), g);
  }

  /** Thread 7 holds guard 0 and nothing else has happened. */
  const HELD: State := START.(holder := Some(0), guards := map[0 := Guard(7, false, Returned)])

  lemma HeldIsReached()
    ensures Run(START, [Acquire(7, 0)] + [Check(0)]) && End(START, [Acquire(7, 0)] + [Check(0)]) == HELD
  {
    var taken := Apply(START, Acquire(7, 0));
    assert Apply(taken, Check(0)) == HELD;
    Nothing(HELD);
    Prepend(taken, Check(0), []);
    Prepend(START, Acquire(7, 0), [Check(0)]);
  }

  lemma CaughtReturns()
    ensures Enabled(HELD, BeginPanic(7)) && PanicUnder(Apply(HELD, BeginPanic(7)), 0)
    ensures Enabled(Apply(HELD, BeginPanic(7)), EndPanic(7))
    ensures Apply(Apply(HELD, BeginPanic(7)), EndPanic(7)) == HELD && Inv(HELD) && Enabled(HELD, Drop(0))
    ensures !Apply(HELD, Drop(0)).poisoned
  {
  }

  /** One run from the start: a guard is granted, a panic begins and is caught under it, and the
      next acquisition is granted. */
  lemma CaughtPanicLeavesNoPoison()
    ensures var taken := [Acquire(7, 0)] + [Check(0)];
            var later := [BeginPanic(7)]
              + ([EndPanic(7)] + ([Drop(0)] + ([Unlock(0)] + ([Acquire(8, 1)] + [Check(1)]))));
            && Run(START, taken + later) && Run(START, taken) && End(START, taken) == HELD
            && PanicUnder(Apply(HELD, BeginPanic(7)), 0) && Run(HELD, later) && GrantsSomewhere(HELD, later)
  {
    HeldIsReached();
    CaughtReturns();
    NextAcquisition(HELD, 0, 8, 1);
    hide Run, End, GrantsSomewhere, Apply, Enabled, Grants, PanicUnder;
    var rest := [Drop(0)] + ([Unlock(0)] + ([Acquire(8, 1)] + [Check(1)]));
    Prepend(Apply(HELD, BeginPanic(7)), EndPanic(7), rest);
    Prepend(HELD, BeginPanic(7), [EndPanic(7)] + rest);
    RunConcat(START, [Acquire(7, 0)] + [Check(0)], [BeginPanic(7)] + ([EndPanic(7)] + rest));
  }

  lemma Nothing(s: State)
    ensures Run(s, []) && End(s, []) == s && !GrantsSomewhere(s, [])
  {
  }

  lemma Prepend(s: State, step: Step, rest: seq<Step>)
    requires Enabled(s, step) && Run(Apply(s, step), rest)
    ensures Run(s, [step] + rest) && End(s, [step] + rest) == End(Apply(s, step), rest)
    ensures GrantsSomewhere(s, [step] + rest) == (Grants(s, step) || GrantsSomewhere(Apply(s, step), rest))
  {
    assert ([step] + rest)[1..] == rest;
  }

  // Refusals

  lemma HolderStep(s: State, g: Id, step: Step)
    requires Inv(s) && g in s.guards && Enabled(s, step) && step != Unlock(g)
    ensures !step.Acquire? && g in Apply(s, step).guards
  {
  }

  /** Whoever has the native lock, a refused guard included, keeps every other acquisition out
      until its own unlock. */
  lemma {:induction false} HolderBlocks(s: State, g: Id, steps: seq<Step>)
    requires Inv(s) && g in s.guards && Run(s, steps) && Unlock(g) !in steps
    ensures (forall i :: 0 <= i < |steps| ==> !steps[i].Acquire?)
    ensures End(s, steps).holder == Some(g) && g in End(s, steps).guards
    decreases steps
  {
    if steps != [] {
      assert steps[0] in steps && forall step :: step in steps[1..] ==> step in steps;
      HolderStep(s, g, steps[0]);
      StepInv(s, steps[0]);
      HolderBlocks(Apply(s, steps[0]), g, steps[1..]);
    }
  }

  /** A refused guard cannot be returned or forgotten: it stays refused until its drop, is then
      only waiting to unlock, and its unlock frees the lock without having changed the poison. */
  lemma RefusedIsReleased(s: State, g: Id, step: Step)
    requires Inv(s) && g in s.guards && s.poisoned && Enabled(s, step)
    requires s.guards[g].phase.Refused? || s.guards[g].phase.Unlocking?
    ensures s.guards[g].phase.Refused? ==>
      step != Unlock(g) && g in Apply(s, step).guards
      && Apply(s, step).guards[g].phase == if step == Drop(g) then Unlocking else Refused
    ensures s.guards[g].phase.Unlocking? ==>
      if step == Unlock(g) then Apply(s, step).holder == None && Apply(s, step).guards == map[]
      else g in Apply(s, step).guards && Apply(s, step).guards[g].phase.Unlocking?
    ensures Apply(s, step).poisoned
  {
    if step == Unlock(g) { assert forall h :: h in s.guards ==> h == g; }
  }

  /** A refused acquisition gives the native lock back: checking, dropping and unlocking leave
      the state from before it. */
  lemma RefusalReleases(s: State, t: Thread, g: Id)
    requires Inv(s) && s.poisoned && Enabled(s, Acquire(t, g))
    ensures Run(s, [Acquire(t, g), Check(g), Drop(g), Unlock(g)])
    ensures var checked := Apply(Apply(s, Acquire(t, g)), Check(g));
            g in checked.guards && checked.guards[g] == Guard(t, t in s.panicking, Refused)
    ensures End(s, [Acquire(t, g), Check(g), Drop(g), Unlock(g)]) == s
  {
    var s1 := Apply(s, Acquire(t, g));
    var s2 := Apply(s1, Check(g));
    var s3 := Apply(s2, Drop(g));
    assert Apply(s3, Unlock(g)).guards == s.guards;
    assert Apply(s3, Unlock(g)) == s;
    hide Run, End, GrantsSomewhere;
    Nothing(s);
    Prepend(s3, Unlock(g), []);
    Prepend(s2, Drop(g), [Unlock(g)]);
    Prepend(s1, Check(g), [Drop(g), Unlock(g)]);
    Prepend(s, Acquire(t, g), [Check(g), Drop(g), Unlock(g)]);
    assert [Acquire(t, g)] + [Check(g), Drop(g), Unlock(g)] == [Acquire(t, g), Check(g), Drop(g), Unlock(g)];
    assert [Check(g)] + [Drop(g), Unlock(g)] == [Check(g), Drop(g), Unlock(g)];
    assert [Drop(g)] + [Unlock(g)] == [Drop(g), Unlock(g)] && [Unlock(g)] + [] == [Unlock(g)];
  }

  // Storage

  lemma ForgottenStep(s: State, g: Id, step: Step)
    requires Inv(s) && g in s.guards && s.guards[g].phase.Forgotten? && Enabled(s, step)
    ensures g in Apply(s, step).guards && Apply(s, step).guards[g].phase.Forgotten?
  {
  }

  /** A forgotten guard keeps the native lock held and its storage undestroyed for ever. */
  lemma {:induction false} ForgottenIsNeverDestroyed(s: State, g: Id, steps: seq<Step>)
    requires Inv(s) && g in s.guards && s.guards[g].phase.Forgotten? && Run(s, steps)
    ensures End(s, steps).holder == Some(g) && !End(s, steps).storage.Destroyed?
    decreases steps
  {
    if steps != [] {
      ForgottenStep(s, g, steps[0]);
      StepInv(s, steps[0]);
      ForgottenIsNeverDestroyed(Apply(s, steps[0]), g, steps[1..]);
    }
  }

  /** Storage is destroyed only when nobody holds the lock, and is leaked exactly when a guard
      was forgotten. */
  lemma ReleaseDecides(s: State)
    requires Inv(s) && Enabled(s, Release)
    ensures Apply(s, Release).storage.Leaked? <==> exists g :: g in s.guards && s.guards[g].phase.Forgotten?
    ensures Apply(s, Release).storage.Destroyed? <==> s.holder.None?
  {
    if s.holder.Some? { assert s.holder.value in s.guards; }
  }
}
