/**
 * The condition variable: one futex word that counts the waiters in its low bits and the signals and
 * broadcasts in its high ones. Every step is one atomic action of one thread.
 */
module CondVar {
  import opened Threads

  const COND_WAITER: nat := 1
  const COND_WAITERS: nat := 0x4000     // the number of waiters is below this
  const COND_SEQ_ONE: nat := 0x1_0000   // one more in the sequence
  const WORD: nat := 0x1_0000_0000
  const SEQS: nat := 0x1_0000

  function WaitersOf(v: nat): nat {
    v % COND_WAITERS
  }

  function SeqOf(v: nat): nat {
    v / COND_SEQ_ONE
  }

  function AddFetch(v: nat, n: nat): nat {
    (v + n) % WORD
  }

  function SubFetch(v: nat, n: nat): nat
    requires n <= WORD
  {
    (v + (WORD - n)) % WORD
  }

  /** Where a thread is in pthread_cond_waitInternal or pthread_cond_wake; `since` is how many wakes it had seen. */
  datatype Pc =
    | Idle
    | Registered(v: nat, since: nat)  // counted in, still holding the mutex
    | Sleep(v: nat, since: nat)       // found the sequence unmoved, about to sleep unless the word has changed
    | Asleep(since: nat)
    | Reload(since: nat)              // about to look at the sequence again
    | Leave                           // out of the loop, about to count itself out
    | Waking(all: bool, turn: nat)    // advanced the sequence to `turn` and saw waiters, about to wake

  /**
   * The word, the threads, and those asleep in the order they fell asleep; how often the sequence was
   * advanced, and to where it was by the latest broadcast that has done its waking.
   */
  datatype State = State(word: nat, clock: nat, pcs: seq<Pc>, queue: seq<nat>, wakes: nat, covered: nat)

  datatype Action =
    | Register | UnlockMutex | UnlockFails | FutexWait | FutexFails | LoadAgain | GiveUp | CountOut
    | Advance(all: bool) | WakeOne(i: nat) | WakeAll | WakeNone

  predicate InLoop(pc: Pc) {
    pc.Registered? || pc.Sleep? || pc.Asleep? || pc.Reload?
  }

  predicate Enabled(s: State, t: nat, a: Action) {
    t < |s.pcs| &&
    match a
    case Register => s.pcs[t].Idle?
    case UnlockMutex => s.pcs[t].Registered?
    case UnlockFails => s.pcs[t].Registered?
    case FutexWait => s.pcs[t].Sleep?
    case FutexFails => s.pcs[t].Sleep?
    case LoadAgain => s.pcs[t].Reload?
    case GiveUp => s.pcs[t].Asleep? || s.pcs[t].Sleep?   // the time is over, or a signal came
    case CountOut => s.pcs[t].Leave?
    case Advance(_) => s.pcs[t].Idle?
    case WakeOne(i) => s.pcs[t].Waking? && !s.pcs[t].all && i < |s.queue| && s.queue[i] < |s.pcs| && s.pcs[s.queue[i]].Asleep?
    case WakeAll => s.pcs[t].Waking? && s.pcs[t].all
    case WakeNone => s.pcs[t].Waking? && !s.pcs[t].all && s.queue == []
  }

  function Without(queue: seq<nat>, t: nat): (r: seq<nat>)
  {
    if queue == [] then [] else (if queue[0] == t then [] else [queue[0]]) + Without(queue[1..], t)
  }

  /** Everybody asleep wakes up. */
  function Awoken(pcs: seq<Pc>): (r: seq<Pc>)
    ensures |r| == |pcs|
    ensures forall t :: 0 <= t < |pcs| ==> r[t] == if pcs[t].Asleep? then Reload(pcs[t].since) else pcs[t]
  {
    seq(|pcs|, t requires 0 <= t < |pcs| => if pcs[t].Asleep? then Reload(pcs[t].since) else pcs[t])
  }

  function Do(s: State, t: nat, a: Action): (s': State)
    requires Enabled(s, t, a)
    ensures |s'.pcs| == |s.pcs|
  {
    var pc := s.pcs[t];
    match a
    case Register =>
      var v := AddFetch(s.word, COND_WAITER);
      s.(word := v, pcs := s.pcs[t := Registered(v, s.wakes)])
    case UnlockMutex => s.(pcs := s.pcs[t := Sleep(pc.v, pc.since)])
    case UnlockFails => s.(pcs := s.pcs[t := Leave])
    case FutexWait =>
      if s.word == pc.v then s.(pcs := s.pcs[t := Asleep(pc.since)], queue := s.queue + [t])
      else s.(pcs := s.pcs[t := Reload(pc.since)])
    case FutexFails => s.(pcs := s.pcs[t := Reload(pc.since)])
    case LoadAgain =>
      s.(pcs := s.pcs[t := if SeqOf(s.word) == pc.since % SEQS then Sleep(s.word, pc.since) else Leave])
    case GiveUp => s.(pcs := s.pcs[t := Leave], queue := Without(s.queue, t))
    case CountOut => s.(word := SubFetch(s.word, COND_WAITER), pcs := s.pcs[t := Idle])
    case Advance(all) =>
      s.(word := AddFetch(s.word, COND_SEQ_ONE), wakes := s.wakes + 1,
         pcs := if WaitersOf(s.word) != 0 then s.pcs[t := Waking(all, s.wakes + 1)] else s.pcs)
    case WakeOne(i) =>
      s.(pcs := s.pcs[t := Idle][s.queue[i] := Reload(s.pcs[s.queue[i]].since)], queue := s.queue[..i] + s.queue[i + 1..])
    case WakeAll => s.(pcs := Awoken(s.pcs[t := Idle]), queue := [], covered := if s.covered < pc.turn then pc.turn else s.covered)
    case WakeNone => s.(pcs := s.pcs[t := Idle])
  }

  predicate Initial(s: State) {
    && s.clock < 4 && s.word == s.clock * COND_WAITERS && s.queue == [] && s.wakes == 0 && s.covered == 0
    && |s.pcs| < COND_WAITERS && forall t :: 0 <= t < |s.pcs| ==> s.pcs[t].Idle?
  }

  ghost predicate Follows(s: State, s': State) {
    exists t: nat, a: Action :: Enabled(s, t, a) && Do(s, t, a) == s'
  }

  /** Fewer wakes than the sequence has values since any waiter in its loop sampled it. */
  predicate Timely(s: State) {
    forall t :: 0 <= t < |s.pcs| && InLoop(s.pcs[t]) ==> s.wakes - s.pcs[t].since < SEQS
  }

  ghost predicate Run(run: seq<State>) {
    && run != [] && Initial(run[0]) && (forall i :: 0 <= i < |run| ==> Timely(run[i]))
    && forall i :: 0 <= i < |run| - 1 ==> Follows(run[i], run[i + 1])
  }

  // ----- The word -----

  function Inside(pc: Pc): nat {
    if InLoop(pc) || pc.Leave? then 1 else 0
  }

  function Packed(waiters: nat, clock: nat, wakes: nat): nat {
    waiters + clock * COND_WAITERS + (wakes % SEQS) * COND_SEQ_ONE
  }

  lemma PackedFields(waiters: nat, clock: nat, wakes: nat)
    requires waiters < COND_WAITERS && clock < 4
    ensures Packed(waiters, clock, wakes) < WORD
    ensures WaitersOf(Packed(waiters, clock, wakes)) == waiters && SeqOf(Packed(waiters, clock, wakes)) == wakes % SEQS
  {
    var q := wakes % SEQS;
    assert Packed(waiters, clock, wakes) == waiters + COND_WAITERS * (clock + 4 * q);
  }

  lemma PackedIn(waiters: nat, clock: nat, wakes: nat)
    requires waiters + 1 < COND_WAITERS && clock < 4
    ensures AddFetch(Packed(waiters, clock, wakes), COND_WAITER) == Packed(waiters + 1, clock, wakes)
  {
    PackedFields(waiters + 1, clock, wakes);
  }

  lemma PackedOut(waiters: nat, clock: nat, wakes: nat)
    requires 0 < waiters < COND_WAITERS && clock < 4
    ensures SubFetch(Packed(waiters, clock, wakes), COND_WAITER) == Packed(waiters - 1, clock, wakes)
  {
    PackedFields(waiters, clock, wakes);
  }

  lemma PackedOn(waiters: nat, clock: nat, wakes: nat)
    requires waiters < COND_WAITERS && clock < 4
    ensures AddFetch(Packed(waiters, clock, wakes), COND_SEQ_ONE) == Packed(waiters, clock, wakes + 1)
  {
    PackedFields(waiters, clock, wakes);
    var q := wakes % SEQS;
    assert (wakes + 1) % SEQS == if q + 1 == SEQS then 0 else q + 1;
  }

  // ----- What every step keeps -----

  function Since(pcs: seq<Pc>, t: nat): nat {
    if t < |pcs| && pcs[t].Asleep? then pcs[t].since else 0
  }

  predicate AllAsleep(pcs: seq<Pc>, queue: seq<nat>) {
    forall i :: 0 <= i < |queue| ==> queue[i] < |pcs| && pcs[queue[i]].Asleep?
  }

  predicate Distinct(queue: seq<nat>) {
    forall i, j :: 0 <= i < j < |queue| ==> queue[i] != queue[j]
  }

  predicate Aged(pcs: seq<Pc>, queue: seq<nat>) {
    forall i, j :: 0 <= i < j < |queue| ==> Since(pcs, queue[i]) <= Since(pcs, queue[j])
  }

  predicate Queued(pcs: seq<Pc>, queue: seq<nat>) {
    forall t :: 0 <= t < |pcs| && pcs[t].Asleep? ==> t in queue
  }

  /** Those asleep, each once, the longest asleep first and so the longest registered first. */
  predicate Ordered(s: State) {
    AllAsleep(s.pcs, s.queue) && Distinct(s.queue) && Aged(s.pcs, s.queue) && Queued(s.pcs, s.queue)
  }

  predicate Sampled(s: State, t: nat)
    requires t < |s.pcs|
  {
    match s.pcs[t]
    case Registered(v, since) => since <= s.wakes && SeqOf(v) == since % SEQS
    case Sleep(v, since) => since <= s.wakes && SeqOf(v) == since % SEQS
    case Asleep(since) => s.covered <= since <= s.wakes
    case Reload(since) => since <= s.wakes
    case Waking(_, turn) => turn <= s.wakes
    case _ => true
  }

  ghost predicate Invariant(s: State) {
    && s.clock < 4 && |s.pcs| < COND_WAITERS && s.covered <= s.wakes
    && s.word == Packed(Sum(s.pcs, Inside), s.clock, s.wakes)
    && Ordered(s)
    && forall t: nat :: t < |s.pcs| ==> Sampled(s, t)
  }

  lemma InsideFits(pcs: seq<Pc>)
    requires |pcs| < COND_WAITERS
    ensures Sum(pcs, Inside) < COND_WAITERS
  {
    SumAtMost(pcs, Inside);
  }

  /** The low field of the word always is the number of threads inside a wait. */
  lemma CountsWaiters(s: State)
    requires Invariant(s)
    ensures WaitersOf(s.word) == Sum(s.pcs, Inside) && SeqOf(s.word) == s.wakes % SEQS
  {
    InsideFits(s.pcs);
    PackedFields(Sum(s.pcs, Inside), s.clock, s.wakes);
  }

  /** A sequence that reads the same has not moved. */
  lemma SameSeq(s: State, since: nat)
    requires since <= s.wakes < since + SEQS && since % SEQS == s.wakes % SEQS
    ensures since == s.wakes
  {
  }

  lemma {:induction false} AwokenInside(pcs: seq<Pc>)
    ensures Sum(Awoken(pcs), Inside) == Sum(pcs, Inside)
  {
    if pcs != [] {
      assert Awoken(pcs)[1..] == Awoken(pcs[1..]);
      AwokenInside(pcs[1..]);
    }
  }

  /** The word after a step. */
  lemma StepWord(s: State, t: nat, a: Action)
    requires Invariant(s) && Enabled(s, t, a)
    ensures var s' := Do(s, t, a); s'.word == Packed(Sum(s'.pcs, Inside), s'.clock, s'.wakes)
  {
    hide Sum, Ordered, Sampled, Packed, AddFetch, SubFetch, Without;
    var s' := Do(s, t, a);
    CountsWaiters(s);
    InsideFits(s'.pcs);
    var n := Sum(s.pcs, Inside);
    match a {
      case WakeAll =>
        SumUpdate(s.pcs, t, Idle, Inside);
        AwokenInside(s.pcs[t := Idle]);
      case WakeOne(i) =>
        SumUpdate(s.pcs, t, Idle, Inside);
        SumUpdate(s.pcs[t := Idle], s.queue[i], s'.pcs[s.queue[i]], Inside);
      case Register =>
        SumUpdate(s.pcs, t, s'.pcs[t], Inside);
        PackedIn(n, s.clock, s.wakes);
      case CountOut =>
        SumUpdate(s.pcs, t, Idle, Inside);
        PackedOut(n, s.clock, s.wakes);
      case Advance(all) =>
        SumUpdate(s.pcs, t, s'.pcs[t], Inside);
        assert s.pcs[t := s.pcs[t]] == s.pcs;
        PackedOn(n, s.clock, s.wakes);
      case _ =>
        SumUpdate(s.pcs, t, s'.pcs[t], Inside);
    }
  }

  lemma {:induction false} WithoutIs(queue: seq<nat>, t: nat) returns (k: nat)
    requires forall i, j :: 0 <= i < j < |queue| ==> queue[i] != queue[j]
    ensures t !in queue ==> Without(queue, t) == queue
    ensures t in queue ==> k < |queue| && queue[k] == t && Without(queue, t) == queue[..k] + queue[k + 1..]
  {
    hide Without;
    k := 0;
    WithoutFirst(queue, t);
    if queue != [] {
      var h, rest := queue[0], queue[1..];
      assert queue == [h] + rest;
      k := WithoutIs(rest, t);
      if h == t {
        assert t !in rest;
        k := 0;
        assert queue[..0] + queue[1..] == rest;
      } else if t in rest {
        OneDown(h, rest, k);
        k := k + 1;
      }
    }
  }

  lemma WithoutFirst(queue: seq<nat>, t: nat)
    ensures Without([], t) == []
    ensures queue != [] ==>
      Without(queue, t) == (if queue[0] == t then Without(queue[1..], t) else [queue[0]] + Without(queue[1..], t))
  {
  }

  lemma OneDown(h: nat, rest: seq<nat>, k: nat)
    requires k < |rest|
    ensures ([h] + rest)[..k + 1] + ([h] + rest)[k + 2..] == [h] + (rest[..k] + rest[k + 1..])
    ensures ([h] + rest)[k + 1] == rest[k]
  {
  }

  /** Taking one out of the order. */
  lemma OrderedWithout(s: State, pcs': seq<Pc>, k: nat)
    requires Ordered(s) && k < |s.queue| && |pcs'| == |s.pcs|
    requires forall t :: 0 <= t < |s.pcs| && t != s.queue[k] && (s.pcs[t].Asleep? || pcs'[t].Asleep?) ==> pcs'[t] == s.pcs[t]
    requires !pcs'[s.queue[k]].Asleep?
    ensures var q := s.queue[..k] + s.queue[k + 1..];
      AllAsleep(pcs', q) && Distinct(q) && Aged(pcs', q) && Queued(pcs', q)
  {
    hide Distinct, Aged, Queued;
    var q := s.queue[..k] + s.queue[k + 1..];
    OthersRest(s.queue, k);
    forall i | 0 <= i < |q|
      ensures q[i] < |pcs'| && pcs'[q[i]].Asleep? && Since(pcs', q[i]) == Since(s.pcs, q[i])
    {
      assert q[i] == s.queue[Shifted(i, k)];
    }
    AgedRest(s.pcs, pcs', s.queue, k);
    QueuedRest(s.pcs, pcs', s.queue, k);
  }

  /** The order without its element `k`: at each place the one or the next, and never the one left out. */
  lemma OthersRest(queue: seq<nat>, k: nat)
    requires Distinct(queue) && k < |queue|
    ensures var q := queue[..k] + queue[k + 1..];
      && Distinct(q) && forall i :: 0 <= i < |q| ==> q[i] == queue[Shifted(i, k)] && q[i] != queue[k]
  {
    var q := queue[..k] + queue[k + 1..];
    forall i | 0 <= i < |q|
      ensures q[i] == queue[Shifted(i, k)] && q[i] != queue[k]
    {
      assert queue[Shifted(i, k)] != queue[k];
    }
    forall i, j | 0 <= i < j < |q|
      ensures q[i] != q[j]
    {
      assert queue[Shifted(i, k)] != queue[Shifted(j, k)];
    }
  }

  lemma AgedRest(pcs: seq<Pc>, pcs': seq<Pc>, queue: seq<nat>, k: nat)
    requires Aged(pcs, queue) && k < |queue|
    requires var q := queue[..k] + queue[k + 1..]; forall i :: 0 <= i < |q| ==> Since(pcs', q[i]) == Since(pcs, q[i])
    ensures Aged(pcs', queue[..k] + queue[k + 1..])
  {
    hide Since;
    var q := queue[..k] + queue[k + 1..];
    forall i, j | 0 <= i < j < |q|
      ensures Since(pcs', q[i]) <= Since(pcs', q[j])
    {
      assert q[i] == queue[Shifted(i, k)] && q[j] == queue[Shifted(j, k)];
    }
  }

  lemma QueuedRest(pcs: seq<Pc>, pcs': seq<Pc>, queue: seq<nat>, k: nat)
    requires Queued(pcs, queue) && k < |queue| && |pcs'| == |pcs|
    requires forall t :: 0 <= t < |pcs| && t != queue[k] && pcs'[t].Asleep? ==> pcs[t].Asleep?
    requires queue[k] < |pcs'| ==> !pcs'[queue[k]].Asleep?
    ensures Queued(pcs', queue[..k] + queue[k + 1..])
  {
    var q := queue[..k] + queue[k + 1..];
    forall t | 0 <= t < |pcs'| && pcs'[t].Asleep?
      ensures t in q
    {
      var i :| 0 <= i < |queue| && queue[i] == t;
      assert q[if i < k then i else i - 1] == t;
    }
  }

  function Shifted(i: nat, k: nat): nat {
    if i < k then i else i + 1
  }

  lemma StepOrdered(s: State, t: nat, a: Action)
    requires Invariant(s) && Timely(s) && Enabled(s, t, a)
    ensures Ordered(Do(s, t, a))
  {
    hide Sum, Packed, AddFetch, SubFetch, Without, Since, AllAsleep, Distinct, Aged, Queued;
    var s' := Do(s, t, a);
    assert Sampled(s, t);
    match a {
      case FutexWait =>
        if s.word == s.pcs[t].v {
          CountsWaiters(s);
          SameSeq(s, s.pcs[t].since);
          FallsAsleep(s, t);
        } else {
          AwakeOrdered(s, t, s'.pcs[t]);
        }
      case GiveUp =>
        SleepersOnce(s);
        var k := WithoutIs(s.queue, t);
        if t in s.queue {
          OrderedWithout(s, s'.pcs, k);
        } else {
          AwakeOrdered(s, t, Leave);
        }
      case WakeOne(i) => OrderedWithout(s, s'.pcs, i);
      case WakeAll => NoneOrdered(s');
      case _ =>
        AwakeOrdered(s, t, s'.pcs[t]);
        assert s.pcs[t := s.pcs[t]] == s.pcs;
    }
  }

  lemma SleepersOnce(s: State)
    requires Ordered(s)
    ensures forall i, j :: 0 <= i < j < |s.queue| ==> s.queue[i] != s.queue[j]
    ensures forall i :: 0 <= i < |s.queue| ==> s.queue[i] < |s.pcs| && s.pcs[s.queue[i]].Asleep?
    ensures forall t: nat :: t < |s.pcs| && s.pcs[t].Asleep? ==> t in s.queue
  {
  }

  lemma NoneOrdered(s: State)
    requires s.queue == [] && forall t :: 0 <= t < |s.pcs| ==> !s.pcs[t].Asleep?
    ensures Ordered(s)
  {
  }

  lemma AwakeOrdered(s: State, t: nat, pc: Pc)
    requires Ordered(s) && t < |s.pcs| && !s.pcs[t].Asleep? && !pc.Asleep?
    ensures Ordered(s.(pcs := s.pcs[t := pc]))
  {
    var pcs' := s.pcs[t := pc];
    forall i | 0 <= i < |s.queue|
      ensures s.queue[i] != t && Since(pcs', s.queue[i]) == Since(s.pcs, s.queue[i])
    {
    }
  }

  lemma FallsAsleep(s: State, t: nat)
    requires Ordered(s) && t < |s.pcs| && s.pcs[t].Sleep? && s.pcs[t].since == s.wakes
    requires forall u: nat :: u < |s.pcs| ==> Sampled(s, u)
    ensures var pcs', q := s.pcs[t := Asleep(s.wakes)], s.queue + [t];
      AllAsleep(pcs', q) && Distinct(q) && Aged(pcs', q) && Queued(pcs', q)
  {
    var pcs', q := s.pcs[t := Asleep(s.wakes)], s.queue + [t];
    forall i | 0 <= i < |s.queue|
      ensures q[i] == s.queue[i] != t && Since(pcs', q[i]) == Since(s.pcs, s.queue[i]) <= s.wakes
    {
      assert Sampled(s, s.queue[i]);
    }
    forall u | 0 <= u < |pcs'| && pcs'[u].Asleep?
      ensures u in q
    {
      if u == t {
        assert q[|q| - 1] == t;
      } else {
        assert u in s.queue;
      }
    }
  }

  lemma StepSampled(s: State, t: nat, a: Action, u: nat)
    requires Invariant(s) && Timely(s) && Enabled(s, t, a) && u < |s.pcs|
    ensures Sampled(Do(s, t, a), u)
  {
    hide Sum, Packed, AddFetch, SubFetch, Without, Ordered;
    var s' := Do(s, t, a);
    assert Sampled(s, t) && Sampled(s, u);
    CountsWaiters(s);
    match a {
      case FutexWait =>
        if s.word == s.pcs[t].v {
          SameSeq(s, s.pcs[t].since);
        }
      case Register =>
        StepWord(s, t, a);
        InsideFits(s'.pcs);
        PackedFields(Sum(s'.pcs, Inside), s'.clock, s'.wakes);
      case _ =>
    }
  }

  lemma StepKeeps(s: State, t: nat, a: Action)
    requires Invariant(s) && Timely(s) && Enabled(s, t, a)
    ensures Invariant(Do(s, t, a))
  {
    hide Sum, Packed, Ordered, Sampled;
    var s' := Do(s, t, a);
    StepWord(s, t, a);
    StepOrdered(s, t, a);
    forall u: nat | u < |s'.pcs|
      ensures Sampled(s', u)
    {
      StepSampled(s, t, a, u);
    }
    assert s'.covered <= s'.wakes by {
      assert Sampled(s, t) by { SampledAt(s, t); }
      CoveredFits(s, t, a);
    }
  }

  lemma SampledAt(s: State, t: nat)
    requires Invariant(s) && t < |s.pcs|
    ensures Sampled(s, t)
  {
  }

  lemma CoveredFits(s: State, t: nat, a: Action)
    requires s.covered <= s.wakes && Enabled(s, t, a) && Sampled(s, t)
    ensures Do(s, t, a).covered <= Do(s, t, a).wakes
  {
  }

  lemma InitialHolds(s: State)
    requires Initial(s)
    ensures Invariant(s)
  {
    SumZero(s.pcs, Inside);
  }

  /** In every interleaving the word counts the threads inside a wait, and those asleep are in order. */
  lemma {:induction false} RunKeeps(run: seq<State>, i: nat)
    requires Run(run) && i < |run|
    ensures Invariant(run[i])
  {
    if i == 0 {
      InitialHolds(run[0]);
    } else {
      RunKeeps(run, i - 1);
      assert Follows(run[i - 1], run[i - 1 + 1]);
      var t: nat, a: Action :| Enabled(run[i - 1], t, a) && Do(run[i - 1], t, a) == run[i];
      StepKeeps(run[i - 1], t, a);
    }
  }

  // ----- What a broadcast and a signal come to -----

  /** No thread that registered before a broadcast is asleep once the broadcast has done its waking. */
  lemma BroadcastWakes(run: seq<State>, i: nat, t: nat)
    requires Run(run) && i < |run| && t < |run[i].pcs|
    ensures run[i].pcs[t].Asleep? ==> run[i].covered <= run[i].pcs[t].since
  {
    RunKeeps(run, i);
    assert Sampled(run[i], t);
  }

  /**
   * Nor does it fall asleep again, and as soon as it looks at the word it leaves its loop: the
   * same goes for every thread that registered before any signal or broadcast.
   */
  lemma SeenMovedLeaves(run: seq<State>, i: nat, t: nat, a: Action)
    requires Run(run) && i < |run| && Enabled(run[i], t, a)
    requires InLoop(run[i].pcs[t]) && run[i].pcs[t].since < run[i].wakes
    ensures !Do(run[i], t, a).pcs[t].Asleep?
    ensures a.LoadAgain? ==> Do(run[i], t, a).pcs[t].Leave?
    ensures a.FutexWait? ==> Do(run[i], t, a).pcs[t].Reload?
  {
    var s := run[i];
    RunKeeps(run, i);
    CountsWaiters(s);
    assert Sampled(s, t) && Timely(s);
    if SeqOf(s.word) == s.pcs[t].since % SEQS {
      SameSeq(s, s.pcs[t].since);
    }
  }

  /** The threads asleep that registered before a wake. */
  ghost function OlderAsleep(pcs: seq<Pc>, turn: nat): set<nat> {
    set t | 0 <= t < |pcs| && pcs[t].Asleep? && pcs[t].since < turn
  }

  function Members(queue: seq<nat>): set<nat> {
    set t | t in queue
  }

  lemma {:induction false} MembersCount(queue: seq<nat>)
    requires Distinct(queue)
    ensures |Members(queue)| == |queue|
  {
    if queue != [] {
      var rest, last := queue[..|queue| - 1], queue[|queue| - 1];
      MembersCount(rest);
      assert Members(queue) == Members(rest) + {last};
      assert last !in rest;
    }
  }

  /** Those before `m` in the queue are the older ones, if `m` is where the younger ones begin. */
  lemma OlderCount(s: State, turn: nat, m: nat)
    requires Ordered(s) && m <= |s.queue|
    requires forall i :: 0 <= i < |s.queue| ==> (Since(s.pcs, s.queue[i]) < turn <==> i < m)
    ensures |OlderAsleep(s.pcs, turn)| == m
  {
    var front := s.queue[..m];
    forall t: nat
      ensures t in OlderAsleep(s.pcs, turn) <==> t in Members(front)
    {
      if t in OlderAsleep(s.pcs, turn) {
        assert t in s.queue;
        var i :| 0 <= i < |s.queue| && s.queue[i] == t;
        assert front[i] == t;
      }
      if t in Members(front) {
        var i :| 0 <= i < m && front[i] == t;
        assert s.queue[i] == t;
      }
    }
    assert OlderAsleep(s.pcs, turn) == Members(front);
    MembersCount(front);
  }

  /** Where the younger ones begin in the queue. */
  lemma {:induction false} Younger(s: State, turn: nat, n: nat) returns (m: nat)
    requires Ordered(s) && n <= |s.queue|
    ensures m <= n && forall i :: 0 <= i < n ==> (Since(s.pcs, s.queue[i]) < turn <==> i < m)
  {
    m := 0;
    if n > 0 {
      m := Younger(s, turn, n - 1);
      if m == n - 1 && Since(s.pcs, s.queue[n - 1]) < turn {
        m := n;
      } else {
        assert m < n - 1 ==> Since(s.pcs, s.queue[m]) <= Since(s.pcs, s.queue[n - 1]);
      }
    }
  }

  /**
   * Whichever of those asleep a signal wakes, counted from the longest asleep: it is one that registered
   * before the signal exactly if its number is below that of such threads asleep. So a signal that wakes
   * the longest asleep misses them only if there are none.
   */
  lemma SignalReleasesOlder(run: seq<State>, i: nat, t: nat, k: nat)
    requires Run(run) && i < |run| && Enabled(run[i], t, WakeOne(k))
    ensures var s := run[i]; var w := s.queue[k];
      && Do(s, t, WakeOne(k)).pcs[w] == Reload(s.pcs[w].since)
      && (s.pcs[w].since < s.pcs[t].turn <==> k < |OlderAsleep(s.pcs, s.pcs[t].turn)|)
  {
    var s := run[i];
    RunKeeps(run, i);
    var m := Younger(s, s.pcs[t].turn, |s.queue|);
    OlderCount(s, s.pcs[t].turn, m);
  }

  /** A waiter that is awake and has seen fewer wakes than there were. */
  predicate Released(s: State, w: nat) {
    w < |s.pcs| && InLoop(s.pcs[w]) && !s.pcs[w].Asleep? && s.pcs[w].since < s.wakes
  }

  /** A waiter that registered before the wake that `turn` stands for, and has not left its loop. */
  predicate Older(s: State, w: nat, turn: nat) {
    w < |s.pcs| && InLoop(s.pcs[w]) && s.pcs[w].since < turn
  }

  /** Once released, a waiter stays so or leaves its loop, whatever step is next. */
  lemma ReleasedStays(run: seq<State>, i: nat, w: nat, t: nat, a: Action)
    requires Run(run) && i < |run| && Released(run[i], w) && Enabled(run[i], t, a)
    ensures Released(Do(run[i], t, a), w) || Do(run[i], t, a).pcs[w].Leave?
    ensures t == w && a.LoadAgain? ==> Do(run[i], t, a).pcs[w].Leave?
  {
    hide Invariant, Timely, AddFetch, SubFetch, Without, Run;
    if t == w {
      SeenMovedLeaves(run, i, t, a);
    }
  }

  /**
   * A signal for which some waiter is older releases one that is: the longest asleep of them, if one is
   * asleep, and otherwise each of them is awake as it is.
   */
  lemma SignalReleases(run: seq<State>, i: nat, t: nat, a: Action, u: nat)
    requires Run(run) && i < |run| && Enabled(run[i], t, a) && (a == WakeOne(0) || a == WakeNone)
    requires Older(run[i], u, run[i].pcs[t].turn)
    ensures exists w :: Older(run[i], w, run[i].pcs[t].turn) && Released(Do(run[i], t, a), w)
  {
    var s := run[i];
    var turn, s' := s.pcs[t].turn, Do(s, t, a);
    RunKeeps(run, i);
    assert turn <= s.wakes by {
      SampledAt(s, t);
    }
    hide Invariant, Run;
    if v: nat :| v in OlderAsleep(s.pcs, turn) {
      AsleepQueued(run, i, v);
      SignalReleasesOlder(run, i, t, 0);
      var w := s.queue[0];
      assert |OlderAsleep(s.pcs, turn)| > 0;
      assert Older(s, w, turn) && Released(s', w);
    } else {
      assert !s.pcs[u].Asleep? by {
        assert u !in OlderAsleep(s.pcs, turn);
      }
      assert Released(s', u);
    }
  }

  lemma AsleepQueued(run: seq<State>, i: nat, v: nat)
    requires Run(run) && i < |run| && v < |run[i].pcs| && run[i].pcs[v].Asleep?
    ensures run[i].queue != []
  {
    RunKeeps(run, i);
    SleepersOnce(run[i]);
  }

  lemma Extend(run: seq<State>, t: nat, a: Action, expected: State) returns (longer: seq<State>)
    requires Run(run) && Enabled(run[|run| - 1], t, a) && Do(run[|run| - 1], t, a) == expected && Timely(expected)
    ensures Run(longer) && longer[|longer| - 1] == expected
  {
    longer := run + [expected];
    assert Follows(run[|run| - 1], expected);
    forall i | 0 <= i < |longer| - 1
      ensures Follows(longer[i], longer[i + 1])
    {
      if i < |run| - 1 {
        assert Follows(run[i], run[i + 1]);
      }
    }
  }

  lemma RunStarts(s: State)
    requires Initial(s)
    ensures Run([s])
  {
  }

  /** Thread 0 sleeps and thread 2 signals it. */
  lemma OneAsleep() returns (run: seq<State>)
    ensures Run(run)
    ensures run[|run| - 1] == State(0x1_0001, 0, [Asleep(0), Idle, Waking(false, 1)], [0], 1, 0)
  {
    hide Run, Ordered, Sampled;
    run := [State(0, 0, [Idle, Idle, Idle], [], 0, 0)];
    assert Run(run) by { RunStarts(run[0]); }
    run := Extend(run, 0, Register, State(1, 0, [Registered(1, 0), Idle, Idle], [], 0, 0));
    run := Extend(run, 0, UnlockMutex, State(1, 0, [Sleep(1, 0), Idle, Idle], [], 0, 0));
    run := Extend(run, 0, FutexWait, State(1, 0, [Asleep(0), Idle, Idle], [0], 0, 0));
    run := Extend(run, 2, Advance(false), State(0x1_0001, 0, [Asleep(0), Idle, Waking(false, 1)], [0], 1, 0));
  }

  /** Before the signal wakes anybody, thread 1 sleeps too. */
  lemma TwoAsleep() returns (run: seq<State>)
    ensures Run(run)
    ensures run[|run| - 1] == State(0x1_0002, 0, [Asleep(0), Asleep(1), Waking(false, 1)], [0, 1], 1, 0)
  {
    hide Run, Ordered, Sampled;
    run := OneAsleep();
    run := Extend(run, 1, Register, State(0x1_0002, 0, [Asleep(0), Registered(0x1_0002, 1), Waking(false, 1)], [0], 1, 0));
    run := Extend(run, 1, UnlockMutex, State(0x1_0002, 0, [Asleep(0), Sleep(0x1_0002, 1), Waking(false, 1)], [0], 1, 0));
    run := Extend(run, 1, FutexWait, State(0x1_0002, 0, [Asleep(0), Asleep(1), Waking(false, 1)], [0, 1], 1, 0));
  }

  /**
   * The order of waking matters: were the one that fell asleep last woken instead, the signal would be
   * lost. The run ends with nobody waking, and thread 0 asleep since before the signal.
   */
  lemma OrderMatters() returns (run: seq<State>)
    ensures Run(run)
    ensures run[|run| - 1] == State(0x1_0002, 0, [Asleep(0), Sleep(0x1_0002, 1), Idle], [0], 1, 0)
  {
    hide Run, Ordered, Sampled;
    run := TwoAsleep();
    assert [0, 1][..1] + [0, 1][2..] == [0];
    run := Extend(run, 2, WakeOne(1), State(0x1_0002, 0, [Asleep(0), Reload(1), Idle], [0], 1, 0));
    run := Extend(run, 1, LoadAgain, State(0x1_0002, 0, [Asleep(0), Sleep(0x1_0002, 1), Idle], [0], 1, 0));
  }

  // ----- What a call comes to -----

  /** The states after some steps of one thread that nobody interrupts. */
  ghost predicate Alone(s: State, t: nat, steps: seq<Action>, s': State)
    decreases |steps|
  {
    if steps == [] then s' == s
    else Enabled(s, t, steps[0]) && Alone(Do(s, t, steps[0]), t, steps[1..], s')
  }

  lemma AloneFirst(s: State, t: nat, a: Action, steps: seq<Action>, s': State)
    requires Enabled(s, t, a) && Alone(Do(s, t, a), t, steps, s')
    ensures Alone(s, t, [a] + steps, s')
  {
    assert ([a] + steps)[1..] == steps;
  }

  /** A signal or broadcast goes on to wake if and only if some thread is inside a wait, and moves the sequence in any case. */
  lemma AdvanceSteps(s: State, t: nat, all: bool)
    requires Invariant(s) && Enabled(s, t, Advance(all))
    ensures var s', some := Do(s, t, Advance(all)), exists u :: 0 <= u < |s.pcs| && Inside(s.pcs[u]) > 0;
      && s'.wakes == s.wakes + 1 && s'.queue == s.queue
      && s'.pcs == (if some then s.pcs[t := Waking(all, s.wakes + 1)] else s.pcs)
  {
    CountsWaiters(s);
    if Sum(s.pcs, Inside) > 0 {
      var u := SumWitness(s.pcs, Inside);
    } else {
      forall u | 0 <= u < |s.pcs|
        ensures Inside(s.pcs[u]) == 0
      {
        SumAtLeast(s.pcs, u, Inside);
      }
    }
  }

  /** A wait that nobody interrupts falls asleep behind those who sleep already, with the sequence of the moment. */
  lemma WaitAlone(s: State, t: nat) returns (s': State)
    requires Invariant(s) && t < |s.pcs| && s.pcs[t].Idle?
    ensures Alone(s, t, [Register, UnlockMutex, FutexWait], s')
    ensures s'.pcs == s.pcs[t := Asleep(s.wakes)] && s'.queue == s.queue + [t] && s'.wakes == s.wakes
    ensures Sum(s'.pcs, Inside) == Sum(s.pcs, Inside) + 1
  {
    var s1 := Do(s, t, Register);
    var s2 := Do(s1, t, UnlockMutex);
    s' := Do(s2, t, FutexWait);
    SumUpdate(s.pcs, t, Asleep(s.wakes), Inside);
    AloneFirst(s2, t, FutexWait, [], s');
    AloneFirst(s1, t, UnlockMutex, [FutexWait] + [], s');
    AloneFirst(s, t, Register, [UnlockMutex] + ([FutexWait] + []), s');
    assert [Register] + ([UnlockMutex] + ([FutexWait] + [])) == [Register, UnlockMutex, FutexWait];
  }

  lemma FirstInside(s: State)
    requires Ordered(s)
    ensures s.queue != [] ==> s.queue[0] < |s.pcs| && s.pcs[s.queue[0]].Asleep? && Inside(s.pcs[s.queue[0]]) > 0
  {
  }

  /** A signal that nobody interrupts wakes the longest asleep, if there is one, and no other. */
  lemma SignalAlone(s: State, t: nat) returns (steps: seq<Action>, s': State)
    requires Invariant(s) && t < |s.pcs| && s.pcs[t].Idle?
    ensures steps != [] && steps[0] == Advance(false) && Alone(s, t, steps, s') && s'.wakes == s.wakes + 1
    ensures s.queue == [] ==> s'.pcs == s.pcs
    ensures s.queue != [] ==>
      && s.queue[0] < |s.pcs| && s.pcs[s.queue[0]].Asleep?
      && s'.pcs == s.pcs[s.queue[0] := Reload(s.pcs[s.queue[0]].since)] && s'.queue == s.queue[1..]
  {
    AdvanceSteps(s, t, false);
    FirstInside(s);
    var s1 := Do(s, t, Advance(false));
    if s1.pcs[t].Idle? {
      s' := s1;
      AloneFirst(s, t, Advance(false), [], s');
      steps := [Advance(false)] + [];
    } else {
      var a := if s.queue == [] then WakeNone else WakeOne(0);
      s' := Do(s1, t, a);
      AloneFirst(s1, t, a, [], s');
      AloneFirst(s, t, Advance(false), [a] + [], s');
      steps := [Advance(false)] + ([a] + []);
      assert s1.pcs[t := Idle] == s.pcs;
    }
  }

  /** A broadcast that nobody interrupts wakes all that are asleep, and no other. */
  lemma BroadcastAlone(s: State, t: nat) returns (steps: seq<Action>, s': State)
    requires Invariant(s) && t < |s.pcs| && s.pcs[t].Idle?
    ensures steps != [] && steps[0] == Advance(true) && Alone(s, t, steps, s') && s'.wakes == s.wakes + 1
    ensures |s'.pcs| == |s.pcs| && forall u :: 0 <= u < |s.pcs| ==>
      s'.pcs[u] == if s.pcs[u].Asleep? then Reload(s.pcs[u].since) else s.pcs[u]
    ensures s'.queue == []
  {
    AdvanceSteps(s, t, true);
    FirstInside(s);
    var s1 := Do(s, t, Advance(true));
    if s1.pcs[t].Idle? {
      s' := s1;
      AloneFirst(s, t, Advance(true), [], s');
      steps := [Advance(true)] + [];
      forall u | 0 <= u < |s.pcs|
        ensures !s.pcs[u].Asleep?
      {
        assert Inside(s.pcs[u]) == 0;
      }
    } else {
      s' := Do(s1, t, WakeAll);
      AloneFirst(s1, t, WakeAll, [], s');
      AloneFirst(s, t, Advance(true), [WakeAll] + [], s');
      steps := [Advance(true)] + ([WakeAll] + []);
      assert s1.pcs[t := Idle] == s.pcs;
    }
  }

  /** A thread that was woken leaves, counted out, if the sequence has moved; after a stale wake it sleeps again. */
  lemma WokenAlone(s: State, t: nat) returns (steps: seq<Action>, s': State)
    requires Invariant(s) && Timely(s) && t < |s.pcs| && s.pcs[t].Reload?
    ensures steps != [] && steps[0] == LoadAgain && Alone(s, t, steps, s')
    ensures if s.pcs[t].since < s.wakes then s'.pcs == s.pcs[t := Idle] else s'.pcs == s.pcs[t := Asleep(s.wakes)]
    ensures s'.wakes == s.wakes
    ensures Sum(s'.pcs, Inside) == Sum(s.pcs, Inside) - if s.pcs[t].since < s.wakes then 1 else 0
  {
    CountsWaiters(s);
    assert Sampled(s, t);
    if s.pcs[t].since % SEQS == s.wakes % SEQS {
      SameSeq(s, s.pcs[t].since);
    }
    var s1 := Do(s, t, LoadAgain);
    var a := if s.pcs[t].since < s.wakes then CountOut else FutexWait;
    s' := Do(s1, t, a);
    SumUpdate(s.pcs, t, s'.pcs[t], Inside);
    AloneFirst(s1, t, a, [], s');
    AloneFirst(s, t, LoadAgain, [a] + [], s');
    steps := [LoadAgain] + ([a] + []);
  }
}
