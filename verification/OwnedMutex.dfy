/**
 * The recursive or error-checking user-space mutex: a lock word with the owner in it and a bit for
 * sleepers. Every step is one atomic action of one thread.
 */
module OwnedMutex {
  const MUTEX_OWNED_SPIN: nat := 100
  /** The largest depth the 24 bits of the flags hold. */
  const MAX_DEPTH: nat := 0xff_ffff

  datatype Result = EOK | EBUSY | EDEADLK | EAGAIN | EPERM | ETIMEDOUT

  /** Where a thread is in pthread_mutex_lockOwned or pthread_mutex_unlockOwned. */
  datatype Pc =
    | Out(last: Result)             // in no call; what the last one returned
    | Lock(depth: nat, try: bool)   // has read the flags, about to exchange 0 for itself
    | Deepen                        // about to add to the depth
    | Spin(i: nat)                  // about to look at the word
    | SpinTake(i: nat)              // about to exchange 0 for itself
    | Load                          // slow path: about to load the word
    | Take                          // saw it free, about to exchange 0 for itself and the mark
    | Mark(v: nat)                  // saw it unmarked, about to mark it
    | Sleep(v: nat)                 // about to sleep unless the word has changed
    | Asleep
    | Unlock(depth: nat)            // has read the flags, about to look who owns it
    | Shallower                     // about to subtract from the depth
    | Release                       // about to exchange the word for 0
    | Wake                          // about to wake one sleeper

  /** `held` counts, for each thread, its locks less its unlocks. */
  datatype State = State(lock: nat, depth: nat, recursive: bool, pcs: seq<Pc>, held: seq<nat>)

  datatype Action =
    | CallLock(try: bool) | LockFirst | AddDepth | SpinLook | SpinExchange
    | SlowLoad | SlowTake | SlowMark | FutexWait | FutexFails | TimedOut | Interrupted
    | CallUnlock | UnlockCheck | SubDepth | Exchange | FutexWake(sleeper: nat) | FutexWakeNone

  function Self(t: nat): nat {
    2 * (t + 1)
  }

  predicate Marked(v: nat) {
    v % 2 == 1
  }

  /** The word without the mark. */
  function OwnerOf(v: nat): nat {
    v - v % 2
  }

  predicate Enabled(s: State, t: nat, a: Action) {
    t < |s.pcs| == |s.held| &&
    match a
    case CallLock(_) => s.pcs[t].Out?
    case LockFirst => s.pcs[t].Lock?
    case AddDepth => s.pcs[t].Deepen?
    case SpinLook => s.pcs[t].Spin?
    case SpinExchange => s.pcs[t].SpinTake?
    case SlowLoad => s.pcs[t].Load?
    case SlowTake => s.pcs[t].Take?
    case SlowMark => s.pcs[t].Mark?
    case FutexWait => s.pcs[t].Sleep?
    case FutexFails => s.pcs[t].Sleep?
    case TimedOut => s.pcs[t].Asleep? || s.pcs[t].Sleep?
    case Interrupted => s.pcs[t].Asleep?
    case CallUnlock => s.pcs[t].Out?
    case UnlockCheck => s.pcs[t].Unlock?
    case SubDepth => s.pcs[t].Shallower?
    case Exchange => s.pcs[t].Release?
    case FutexWake(u) => s.pcs[t].Wake? && u < |s.pcs| && s.pcs[u].Asleep?
    case FutexWakeNone => s.pcs[t].Wake? && forall u :: 0 <= u < |s.pcs| ==> !s.pcs[u].Asleep?
  }

  function At(s: State, t: nat, pc: Pc): State
    requires t < |s.pcs|
  {
    s.(pcs := s.pcs[t := pc])
  }

  function Acquire(s: State, t: nat, v: nat): State
    requires t < |s.pcs| == |s.held|
  {
    s.(lock := v, pcs := s.pcs[t := Out(EOK)], held := s.held[t := s.held[t] + 1])
  }

  function SpinOn(i: nat): Pc {
    if i + 1 < MUTEX_OWNED_SPIN then Spin(i + 1) else Load
  }

  function Do(s: State, t: nat, a: Action): (s': State)
    requires Enabled(s, t, a)
    ensures |s'.pcs| == |s'.held| == |s.pcs|
  {
    var pc := s.pcs[t];
    match a
    case CallLock(try) => At(s, t, Lock(s.depth, try))
    case LockFirst =>
      if s.lock == 0 then Acquire(s, t, Self(t))
      else if OwnerOf(s.lock) == Self(t) then
        if !s.recursive then At(s, t, Out(if pc.try then EBUSY else EDEADLK))
        else if pc.depth == MAX_DEPTH then At(s, t, Out(EAGAIN))
        else At(s, t, Deepen)
      else if pc.try then At(s, t, Out(EBUSY))
      else At(s, t, Spin(0))
    case AddDepth => s.(depth := s.depth + 1, pcs := s.pcs[t := Out(EOK)], held := s.held[t := s.held[t] + 1])
    case SpinLook => At(s, t, if s.lock == 0 then SpinTake(pc.i) else SpinOn(pc.i))
    case SpinExchange => if s.lock == 0 then Acquire(s, t, Self(t)) else At(s, t, SpinOn(pc.i))
    case SlowLoad => At(s, t, if s.lock == 0 then Take else if !Marked(s.lock) then Mark(s.lock) else Sleep(s.lock))
    case SlowTake =>
      // more threads may be asleep, so the unlock has to wake one
      if s.lock == 0 then Acquire(s, t, Self(t) + 1) else At(s, t, Load)
    case SlowMark => if s.lock == pc.v then s.(lock := pc.v + 1, pcs := s.pcs[t := Sleep(pc.v + 1)]) else At(s, t, Load)
    case FutexWait => At(s, t, if s.lock == pc.v then Asleep else Load)
    case FutexFails => At(s, t, Load)
    case TimedOut => At(s, t, Out(ETIMEDOUT))
    case Interrupted => At(s, t, Load)
    case CallUnlock => At(s, t, Unlock(s.depth))
    case UnlockCheck =>
      At(s, t, if OwnerOf(s.lock) != Self(t) then Out(EPERM)
               else if pc.depth != 0 then Shallower else Release)
    case SubDepth =>  // the depth and the count are never 0 here, see Placed
      s.(depth := if s.depth > 0 then s.depth - 1 else 0, pcs := s.pcs[t := Out(EOK)],
         held := s.held[t := if s.held[t] > 0 then s.held[t] - 1 else 0])
    case Exchange => s.(lock := 0, pcs := s.pcs[t := if Marked(s.lock) then Wake else Out(EOK)],
                        held := s.held[t := if s.held[t] > 0 then s.held[t] - 1 else 0])
    case FutexWake(u) => s.(pcs := s.pcs[t := Out(EOK)][u := Load])
    case FutexWakeNone => At(s, t, Out(EOK))
  }

  predicate Initial(s: State) {
    && s.lock == 0 && s.depth == 0 && |s.held| == |s.pcs|
    && (forall t :: 0 <= t < |s.pcs| ==> s.pcs[t].Out?) && (forall t :: 0 <= t < |s.held| ==> s.held[t] == 0)
  }

  ghost predicate Follows(s: State, s': State) {
    exists t: nat, a: Action :: Enabled(s, t, a) && Do(s, t, a) == s'
  }

  ghost predicate Run(run: seq<State>) {
    run != [] && Initial(run[0]) && forall i :: 0 <= i < |run| - 1 ==> Follows(run[i], run[i + 1])
  }

  // ----- What every step keeps -----

  predicate Owns(s: State, t: nat) {
    s.lock != 0 && OwnerOf(s.lock) == Self(t)
  }

  /** Is the thread where its ownership allows? */
  predicate Placed(s: State, t: nat)
    requires t < |s.pcs| == |s.held|
  {
    && (s.held[t] > 0 <==> Owns(s, t))
    && (Owns(s, t) ==> s.depth == s.held[t] - 1)
    && match s.pcs[t]
       case Out(_) => true
       case Lock(d, _) => Owns(s, t) ==> d == s.depth
       case Unlock(d) => Owns(s, t) ==> d == s.depth
       case Deepen => Owns(s, t) && s.recursive && s.depth < MAX_DEPTH
       case Shallower => Owns(s, t) && s.depth > 0
       case Release => Owns(s, t) && s.depth == 0
       case Mark(v) => !Owns(s, t) && v > 0 && !Marked(v)
       case Sleep(v) => !Owns(s, t) && Marked(v)
       case _ => !Owns(s, t)
  }

  /** Will someone look after the sleepers? */
  predicate Guarded(pc: Pc) {
    pc.Wake? || pc.Load? || pc.Take? || pc.Mark?
  }

  predicate SomeGuard(s: State) {
    exists g :: 0 <= g < |s.pcs| && Guarded(s.pcs[g])
  }

  ghost predicate Invariant(s: State) {
    && |s.pcs| == |s.held|
    && (s.lock == 0 ==> s.depth == 0)
    && (s.lock != 0 ==> exists t: nat :: t < |s.pcs| && Owns(s, t))
    && (s.depth <= MAX_DEPTH) && (!s.recursive ==> s.depth == 0)
    && (forall t: nat :: t < |s.pcs| ==> Placed(s, t))
    && (forall t: nat :: t < |s.pcs| && s.pcs[t].Asleep? ==> Marked(s.lock) || SomeGuard(s))
  }

  /** The thread that moves stays where its ownership allows. */
  lemma MoverPlaced(s: State, t: nat, a: Action)
    requires Invariant(s) && Enabled(s, t, a)
    ensures Placed(Do(s, t, a), t)
  {
    assert Placed(s, t);
  }

  /** Only an owner takes ownership away or changes the depth, and it is only woken that others move. */
  lemma OthersUntouched(s: State, t: nat, a: Action, u: nat)
    requires Invariant(s) && Enabled(s, t, a) && u < |s.pcs| && u != t
    ensures var s' := Do(s, t, a);
      && s'.held[u] == s.held[u] && (Owns(s', u) <==> Owns(s, u)) && (Owns(s, u) ==> s'.depth == s.depth)
      && (s'.pcs[u] == s.pcs[u] || (s.pcs[u].Asleep? && s'.pcs[u] == Load)) && s'.recursive == s.recursive
  {
    assert Placed(s, t);
  }

  /** So every other thread stays where its ownership allows, too. */
  lemma OthersPlaced(s: State, t: nat, a: Action, u: nat)
    requires Invariant(s) && Enabled(s, t, a) && u < |s.pcs| && u != t
    ensures Placed(Do(s, t, a), u)
  {
    hide Do, Owns;
    assert Placed(s, u);
    OthersUntouched(s, t, a, u);
  }

  lemma StepOwned(s: State, t: nat, a: Action)
    requires Invariant(s) && Enabled(s, t, a)
    ensures var s' := Do(s, t, a);
      && (s'.lock == 0 ==> s'.depth == 0) && s'.depth <= MAX_DEPTH && (!s'.recursive ==> s'.depth == 0)
      && (s'.lock != 0 ==> exists u: nat :: u < |s'.pcs| && Owns(s', u))
  {
    var s' := Do(s, t, a);
    assert Placed(s, t);
    if s'.lock != 0 {
      if s.lock != 0 {
        var o: nat :| o < |s.pcs| && Owns(s, o);
        assert Owns(s', o);
      } else {
        assert Owns(s', t);
      }
    }
  }

  /** Somebody still looks after the sleepers: the mark, a waker, or a thread awake on the slow path. */
  lemma StepGuards(s: State, t: nat, a: Action, u: nat)
    requires Invariant(s) && Enabled(s, t, a)
    requires u < |s.pcs| && Do(s, t, a).pcs[u].Asleep?
    ensures Marked(Do(s, t, a).lock) || SomeGuard(Do(s, t, a))
  {
    var s' := Do(s, t, a);
    assert Placed(s, t);
    if a.FutexWake? {
      assert Guarded(s'.pcs[a.sleeper]);
    } else if s.pcs[u].Asleep? && !Marked(s.lock) {
      var g :| 0 <= g < |s.pcs| && Guarded(s.pcs[g]);
      if g != t {
        assert Guarded(s'.pcs[g]);
      } else if Guarded(s'.pcs[t]) {
        assert SomeGuard(s');
      }
    } else if Guarded(s'.pcs[t]) {
      assert SomeGuard(s');
    }
  }

  lemma StepKeeps(s: State, t: nat, a: Action)
    requires Invariant(s) && Enabled(s, t, a)
    ensures Invariant(Do(s, t, a))
  {
    hide Do, Placed, SomeGuard;
    var s' := Do(s, t, a);
    StepOwned(s, t, a);
    forall u: nat | u < |s'.pcs|
      ensures Placed(s', u)
    {
      if u == t {
        MoverPlaced(s, t, a);
      } else {
        OthersPlaced(s, t, a, u);
      }
    }
    forall u: nat | u < |s'.pcs| && s'.pcs[u].Asleep?
      ensures Marked(s'.lock) || SomeGuard(s')
    {
      StepGuards(s, t, a, u);
    }
  }

  lemma {:induction false} RunKeeps(run: seq<State>, i: nat)
    requires Run(run) && i < |run|
    ensures Invariant(run[i])
  {
    if i > 0 {
      RunKeeps(run, i - 1);
      assert Follows(run[i - 1], run[i - 1 + 1]);
      var t: nat, a: Action :| Enabled(run[i - 1], t, a) && Do(run[i - 1], t, a) == run[i];
      StepKeeps(run[i - 1], t, a);
    }
  }

  /** In every interleaving at most one thread holds the mutex, as often as the depth says. */
  lemma MutualExclusion(run: seq<State>, i: nat, t: nat, u: nat)
    requires Run(run) && i < |run| && t < |run[i].pcs| && u < |run[i].pcs|
    ensures |run[i].held| == |run[i].pcs|
    ensures run[i].held[t] > 0 && run[i].held[u] > 0 ==> t == u
    ensures run[i].held[t] > 0 ==> run[i].depth == run[i].held[t] - 1 && OwnerOf(run[i].lock) == Self(t)
    ensures run[i].held[t] > 1 ==> run[i].recursive
  {
    RunKeeps(run, i);
    assert Placed(run[i], t) && Placed(run[i], u);
  }

  /**
   * In every interleaving, while a thread sleeps on the word, the mark is set, or a wake is about
   * to be made, or a thread awake on the slow path will set the mark again or take the mutex with it.
   */
  lemma NoLostWakeup(run: seq<State>, i: nat, t: nat)
    requires Run(run) && i < |run| && t < |run[i].pcs| && run[i].pcs[t].Asleep?
    ensures Marked(run[i].lock) || exists g :: 0 <= g < |run[i].pcs| && Guarded(run[i].pcs[g])
  {
    RunKeeps(run, i);
  }

  /** When the mutex is free and nobody is in a call, nobody is asleep either. */
  lemma FreeMeansAwake(run: seq<State>, i: nat)
    requires Run(run) && i < |run| && run[i].lock == 0
    requires forall t :: 0 <= t < |run[i].pcs| ==> run[i].pcs[t].Out? || run[i].pcs[t].Asleep?
    ensures forall t :: 0 <= t < |run[i].pcs| ==> run[i].pcs[t].Out?
  {
    RunKeeps(run, i);
    forall t | 0 <= t < |run[i].pcs|
      ensures run[i].pcs[t].Out?
    {
      if run[i].pcs[t].Asleep? {
        NoLostWakeup(run, i, t);
      }
    }
  }

  // ----- What a call comes to -----

  /** The states after some steps of one thread that nobody interrupts. */
  ghost predicate Alone(s: State, t: nat, steps: seq<Action>, s': State)
    decreases |steps|
  {
    if steps == [] then s' == s
    else Enabled(s, t, steps[0]) && Alone(Do(s, t, steps[0]), t, steps[1..], s')
  }

  lemma AloneFirst(s: State, t: nat, a: Action, steps: seq<Action>, s': State)
    requires Enabled(s, t, a) && Alone(Do(s, t, a), t, steps, s')
    ensures Alone(s, t, [a] + steps, s')
  {
    assert ([a] + steps)[1..] == steps;
  }

  lemma AloneNone(s: State, t: nat)
    ensures Alone(s, t, [], s)
  {
  }

  /** Free is what nobody holds. */
  lemma FreeExactly(s: State, t: nat)
    requires Invariant(s) && t < |s.pcs|
    ensures s.lock == 0 <==> forall u :: 0 <= u < |s.held| ==> s.held[u] == 0
    ensures s.held[t] > 0 ==> s.lock != 0 && OwnerOf(s.lock) == Self(t) && s.depth == s.held[t] - 1
    ensures s.held[t] == 0 && s.lock != 0 ==> OwnerOf(s.lock) != Self(t)
  {
    assert Placed(s, t);
    if s.lock != 0 {
      var o: nat :| o < |s.pcs| && Owns(s, o);
      assert Placed(s, o);
    } else {
      forall u | 0 <= u < |s.held|
        ensures s.held[u] == 0
      {
        assert Placed(s, u);
      }
    }
  }

  /** What a lock call returns at once, if it does: unless another thread holds the mutex and the call may wait. */
  function AtOnce(held: seq<nat>, t: nat, recursive: bool, try: bool): Result
    requires t < |held|
  {
    if held[t] == 0 then if forall u :: 0 <= u < |held| ==> held[u] == 0 then EOK else EBUSY
    else if !recursive then if try then EBUSY else EDEADLK
    else if held[t] > 0xff_ffff then EAGAIN else EOK
  }

  /**
   * A lock call that nobody interrupts, of a thread that may not wait or need not: it returns what it should, and the
   * thread holds the mutex once more if and only if that is EOK; nothing else has changed.
   */
  lemma LockAlone(s: State, t: nat, try: bool) returns (steps: seq<Action>, s': State)
    requires Invariant(s) && t < |s.pcs| && s.pcs[t].Out?
    requires try || s.held[t] > 0 || forall u :: 0 <= u < |s.held| ==> s.held[u] == 0
    ensures steps != [] && steps[0] == CallLock(try) && Alone(s, t, steps, s')
    ensures |s'.pcs| == |s'.held| == |s.pcs| == |s.held|
    ensures var r := AtOnce(s.held, t, s.recursive, try);
      && s'.pcs == s.pcs[t := Out(r)] && s'.held == (if r == EOK then s.held[t := s.held[t] + 1] else s.held)
      && (r != EOK ==> s'.lock == s.lock && s'.depth == s.depth)
      && (r == EOK ==> s'.lock != 0 && OwnerOf(s'.lock) == Self(t) && s'.depth == s.held[t])
  {
    FreeExactly(s, t);
    var s1 := Do(s, t, CallLock(try));
    var s2 := Do(s1, t, LockFirst);
    var rest: seq<Action> := if s2.pcs[t].Deepen? then [AddDepth] else [];
    s' := if s2.pcs[t].Deepen? then Do(s2, t, AddDepth) else s2;
    if s2.pcs[t].Deepen? {
      AloneFirst(s2, t, AddDepth, [], s');
      assert [AddDepth] + [] == [AddDepth];
    }
    AloneFirst(s1, t, LockFirst, rest, s');
    AloneFirst(s, t, CallLock(try), [LockFirst] + rest, s');
    steps := [CallLock(try)] + ([LockFirst] + rest);
  }

  /**
   * An unlock that nobody interrupts: EPERM for a thread that does not hold the mutex, and otherwise the thread holds it
   * once less, and the others as before; after the last unlock it is free, and a sleeper is awake if there is one.
   */
  lemma UnlockAlone(s: State, t: nat) returns (steps: seq<Action>, s': State)
    requires Invariant(s) && t < |s.pcs| && s.pcs[t].Out?
    ensures steps != [] && steps[0] == CallUnlock && Alone(s, t, steps, s')
    ensures |s'.pcs| == |s'.held| == |s.pcs| == |s.held|
    ensures s'.pcs[t] == Out(if s.held[t] == 0 then EPERM else EOK)
    ensures s'.held == s.held[t := if s.held[t] == 0 then 0 else s.held[t] - 1]
    ensures s.held[t] != 1 ==> s'.lock == s.lock && s'.pcs == s.pcs[t := s'.pcs[t]]
    ensures s.held[t] == 1 ==> s'.lock == 0 && s'.depth == 0
    ensures s.held[t] == 1 && (exists u :: 0 <= u < |s.pcs| && s.pcs[u].Asleep?) ==> SomeGuard(s')
  {
    FreeExactly(s, t);
    assert Placed(s, t);
    var s1 := Do(s, t, CallUnlock);
    var s2 := Do(s1, t, UnlockCheck);
    if s.held[t] == 0 {
      s' := s2;
      AloneFirst(s1, t, UnlockCheck, [], s');
      AloneFirst(s, t, CallUnlock, [UnlockCheck] + [], s');
      steps := [CallUnlock] + ([UnlockCheck] + []);
      assert s.held[t := 0] == s.held;
    } else if s.held[t] > 1 {
      s' := Do(s2, t, SubDepth);
      AloneFirst(s2, t, SubDepth, [], s');
      AloneFirst(s1, t, UnlockCheck, [SubDepth] + [], s');
      AloneFirst(s, t, CallUnlock, [UnlockCheck] + ([SubDepth] + []), s');
      steps := [CallUnlock] + ([UnlockCheck] + ([SubDepth] + []));
    } else {
      var rest;
      rest, s' := LastUnlock(s, s2, t);
      AloneFirst(s1, t, UnlockCheck, rest, s');
      AloneFirst(s, t, CallUnlock, [UnlockCheck] + rest, s');
      steps := [CallUnlock] + ([UnlockCheck] + rest);
    }
  }

  lemma LastUnlock(s: State, s2: State, t: nat) returns (rest: seq<Action>, s': State)
    requires Invariant(s) && t < |s.pcs| && s.pcs[t].Out? && s.held[t] == 1 && s2 == At(s, t, Release)
    ensures Alone(s2, t, rest, s') && s'.lock == 0 && s'.depth == s.depth == 0 && s'.held == s.held[t := 0]
    ensures |s'.pcs| == |s.pcs| && s'.pcs[t] == Out(EOK)
    ensures (exists u :: 0 <= u < |s.pcs| && s.pcs[u].Asleep?) ==> SomeGuard(s')
  {
    assert Placed(s, t);
    var s3 := Do(s2, t, Exchange);
    if !Marked(s.lock) {
      s' := s3;
      AloneFirst(s2, t, Exchange, [], s');
      rest := [Exchange] + [];
      if u :| 0 <= u < |s.pcs| && s.pcs[u].Asleep? {
        var g :| 0 <= g < |s.pcs| && Guarded(s.pcs[g]);
        assert Guarded(s'.pcs[g]);
      }
    } else {
      var a := FutexWakeNone;
      if u: nat :| u < |s3.pcs| && s3.pcs[u].Asleep? {
        a := FutexWake(u);
        assert Guarded(Do(s3, t, a).pcs[u]);
      } else {
        assert forall u :: 0 <= u < |s.pcs| && s.pcs[u].Asleep? ==> s3.pcs[u].Asleep?;
      }
      s' := Do(s3, t, a);
      AloneFirst(s3, t, a, [], s');
      AloneFirst(s2, t, Exchange, [a] + [], s');
      rest := [Exchange] + ([a] + []);
    }
  }

  /** A thread awake on the slow path takes a free mutex, and marks it, so that its unlock wakes the next sleeper. */
  lemma AwakeTakes(s: State, t: nat) returns (s': State)
    requires Invariant(s) && t < |s.pcs| && s.pcs[t].Load? && s.lock == 0
    ensures Alone(s, t, [SlowLoad, SlowTake], s') && |s'.pcs| == |s'.held| == |s.pcs|
    ensures s'.pcs == s.pcs[t := Out(EOK)] && s'.held == s.held[t := 1] && Owns(s', t) && Marked(s'.lock)
  {
    assert Placed(s, t);
    var s1 := Do(s, t, SlowLoad);
    s' := Do(s1, t, SlowTake);
    AloneFirst(s1, t, SlowTake, [], s');
    AloneFirst(s, t, SlowLoad, [SlowTake] + [], s');
    assert [SlowLoad] + ([SlowTake] + []) == [SlowLoad, SlowTake];
  }

  lemma Marking(v: nat)
    ensures !Marked(v) ==> Marked(v + 1) && OwnerOf(v + 1) == OwnerOf(v)
  {
  }

  /** On the slow path of a mutex that another thread holds, a thread falls asleep, and the mark is set. */
  lemma AwakeSleeps(s: State, t: nat) returns (steps: seq<Action>, s': State)
    requires Invariant(s) && t < |s.pcs| && s.pcs[t].Load? && s.lock != 0
    ensures Alone(s, t, steps, s') && |s'.pcs| == |s.pcs|
    ensures s'.pcs[t] == Asleep && Marked(s'.lock) && OwnerOf(s'.lock) == OwnerOf(s.lock) && s'.held == s.held
  {
    hide OwnerOf, Marked, Alone, Placed, SomeGuard;
    Marking(s.lock);
    var s1 := Do(s, t, SlowLoad);
    var s2 := if Marked(s.lock) then s1 else Do(s1, t, SlowMark);
    s' := Do(s2, t, FutexWait);
    AloneNone(s', t);
    AloneFirst(s2, t, FutexWait, [], s');
    steps := [FutexWait] + [];
    if !Marked(s.lock) {
      AloneFirst(s1, t, SlowMark, steps, s');
      steps := [SlowMark] + steps;
    }
    AloneFirst(s, t, SlowLoad, steps, s');
    steps := [SlowLoad] + steps;
  }

  /** Looking at a mutex that another thread holds ends after at most 100 looks. */
  lemma {:induction false} SpinEnds(s: State, t: nat) returns (steps: seq<Action>, s': State)
    requires Invariant(s) && t < |s.pcs| && s.pcs[t].Spin? && s.pcs[t].i < 100 && s.lock != 0
    ensures Alone(s, t, steps, s') && s' == At(s, t, Load) && |steps| == 100 - s.pcs[t].i
    decreases 100 - s.pcs[t].i
  {
    var s1 := Do(s, t, SpinLook);
    StepKeeps(s, t, SpinLook);
    if s1.pcs[t].Load? {
      steps, s' := [], s1;
    } else {
      steps, s' := SpinEnds(s1, t);
    }
    AloneFirst(s, t, SpinLook, steps, s');
    steps := [SpinLook] + steps;
    assert s1.pcs[t := Load] == s.pcs[t := Load];
  }
}
