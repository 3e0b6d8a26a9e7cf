/**
 * The unnamed semaphore: an atomic counter and a pipe of tokens. Every step below is one atomic
 * action of one thread; a run interleaves the steps of any number of threads in any order.
 */
module SemUnnamed {
  import opened Threads

  const SEM_VALUE_MAX: int := 0x7fff_ffff

  /** Where a thread is in _sem_unnamedPost, _sem_unnamedTake, sem_cancel or _sem_unnamedTryWait. */
  datatype Pc =
    | Idle
    | PostTry(seen: int)     // about to exchange `seen` for one more
    | PostWrite             // counted a waiter off: a token is on its way
    | Waiting               // in sem_token(), counted as a waiter
    | Cancelling            // gave up: about to load the value
    | CancelTry(seen: int)   // about to take itself off the count
    | Committed             // a post has sent a token: waits for it without limit
    | WaitTry(seen: int)     // in trywait, about to exchange `seen` for one less

  /** The counter, the tokens in the pipe, the threads, and what has happened so far. */
  datatype State = State(value: int, pipe: nat, pcs: seq<Pc>, initial: nat, posts: nat, taken: nat)

  datatype Action =
    | PostLoad | PostExchange | WriteToken | WriteInterrupted
    | TakeSub | ReadToken | GiveUp
    | CancelLoad | CancelExchange | ReadOwed
    | TryLoad | TryExchange

  /** Steps that depend on nothing but where the thread is, and reads that need a token. */
  predicate Enabled(s: State, t: nat, a: Action) {
    t < |s.pcs| &&
    match a
    case PostLoad => s.pcs[t].Idle?
    case PostExchange => s.pcs[t].PostTry?
    case WriteToken => s.pcs[t].PostWrite?
    case WriteInterrupted => s.pcs[t].PostWrite?
    case TakeSub => s.pcs[t].Idle?
    case ReadToken => s.pcs[t].Waiting? && s.pipe > 0
    case GiveUp => s.pcs[t].Waiting?
    case CancelLoad => s.pcs[t].Cancelling?
    case CancelExchange => s.pcs[t].CancelTry?
    case ReadOwed => s.pcs[t].Committed? && s.pipe > 0
    case TryLoad => s.pcs[t].Idle?
    case TryExchange => s.pcs[t].WaitTry?
  }

  /** The value that sem_cancel() and the exchange loops go on with. */
  function CancelOn(seen: int): Pc {
    if seen < 0 then CancelTry(seen) else Committed
  }

  function PostOn(seen: int): Pc {
    if seen == SEM_VALUE_MAX then Idle else PostTry(seen)  // EOVERFLOW
  }

  function TryOn(seen: int): Pc {
    if seen > 0 then WaitTry(seen) else Idle               // EAGAIN
  }

  function Do(s: State, t: nat, a: Action): (s': State)
    requires Enabled(s, t, a)
    ensures |s'.pcs| == |s.pcs|
  {
    var pc := s.pcs[t];
    match a
    case PostLoad => s.(pcs := s.pcs[t := PostOn(s.value)])
    case PostExchange =>
      if s.value == pc.seen then
        s.(value := s.value + 1, posts := s.posts + 1, pcs := s.pcs[t := if pc.seen < 0 then PostWrite else Idle])
      else s.(pcs := s.pcs[t := PostOn(s.value)])
    case WriteToken => s.(pipe := s.pipe + 1, pcs := s.pcs[t := Idle])
    case WriteInterrupted => s
    case TakeSub =>
      if s.value > 0 then s.(value := s.value - 1, taken := s.taken + 1)
      else s.(value := s.value - 1, pcs := s.pcs[t := Waiting])
    case ReadToken => s.(pipe := s.pipe - 1, taken := s.taken + 1, pcs := s.pcs[t := Idle])
    case GiveUp => s.(pcs := s.pcs[t := Cancelling])
    case CancelLoad => s.(pcs := s.pcs[t := CancelOn(s.value)])
    case CancelExchange =>
      if s.value == pc.seen then s.(value := s.value + 1, pcs := s.pcs[t := Idle])
      else s.(pcs := s.pcs[t := CancelOn(s.value)])
    case ReadOwed => s.(pipe := s.pipe - 1, taken := s.taken + 1, pcs := s.pcs[t := Idle])
    case TryLoad => s.(pcs := s.pcs[t := TryOn(s.value)])
    case TryExchange =>
      if s.value == pc.seen then s.(value := s.value - 1, taken := s.taken + 1, pcs := s.pcs[t := Idle])
      else s.(pcs := s.pcs[t := TryOn(s.value)])
  }

  predicate Initial(s: State) {
    && 0 <= s.value <= SEM_VALUE_MAX && s.initial == s.value && s.pipe == 0 && s.posts == 0 && s.taken == 0
    && forall t :: 0 <= t < |s.pcs| ==> s.pcs[t].Idle?
  }

  /** A run: each state but the first is what some thread's step makes of the one before. */
  ghost predicate Run(run: seq<State>) {
    run != [] && Initial(run[0]) && forall i :: 0 <= i < |run| - 1 ==> Follows(run[i], run[i + 1])
  }

  ghost predicate Follows(s: State, s': State) {
    exists t: nat, a: Action :: Enabled(s, t, a) && Do(s, t, a) == s'
  }

  // ----- What every step keeps -----

  /** A thread that the counter counts as waiting and no post has counted off. */
  function Waiter(pc: Pc): nat {
    if pc.Waiting? || pc.Cancelling? || pc.CancelTry? || pc.Committed? then 1 else 0
  }

  function InFlight(pc: Pc): nat {
    if pc.PostWrite? then 1 else 0
  }

  function Owed(pc: Pc): nat {
    if pc.Committed? then 1 else 0
  }

  function Waiters(s: State): nat {
    Sum(s.pcs, Waiter)
  }

  /** Tokens in the pipe or about to be written. */
  function Tokens(s: State): nat {
    s.pipe + Sum(s.pcs, InFlight)
  }

  function Positive(n: int): nat {
    if n > 0 then n else 0
  }

  /** The values in the exchange loops are ones the branch they are in was taken for. */
  predicate Sane(pc: Pc) {
    (pc.CancelTry? ==> pc.seen < 0) && (pc.WaitTry? ==> pc.seen > 0) && (pc.PostTry? ==> pc.seen < SEM_VALUE_MAX)
  }

  ghost predicate Invariant(s: State) {
    && s.value <= SEM_VALUE_MAX
    && Waiters(s) == Tokens(s) + Positive(-s.value)
    && s.initial + s.posts == s.taken + Positive(s.value) + Tokens(s)
    && forall t :: 0 <= t < |s.pcs| ==> Sane(s.pcs[t])
  }

  lemma InitialHolds(s: State)
    requires Initial(s)
    ensures Invariant(s)
  {
    SumZero(s.pcs, Waiter);
    SumZero(s.pcs, InFlight);
  }

  lemma StepKeeps(s: State, t: nat, a: Action)
    requires Invariant(s) && Enabled(s, t, a)
    ensures Invariant(Do(s, t, a))
  {
    hide Sum;
    var pc' := Do(s, t, a).pcs[t];
    SumUpdate(s.pcs, t, pc', Waiter);
    SumUpdate(s.pcs, t, pc', InFlight);
    assert s.pcs[t := s.pcs[t]] == s.pcs;
    assert Sane(s.pcs[t]);
  }

  /**
   * In every interleaving: the waiters not yet provided for are exactly as many as the counter is
   * below zero, and no unit is lost or duplicated.
   */
  lemma {:induction false} RunKeeps(run: seq<State>, i: nat)
    requires Run(run) && i < |run|
    ensures Invariant(run[i])
  {
    if i == 0 {
      InitialHolds(run[0]);
    } else {
      RunKeeps(run, i - 1);
      assert Follows(run[i - 1], run[i - 1 + 1]);
      var t: nat, a: Action :| Enabled(run[i - 1], t, a) && Do(run[i - 1], t, a) == run[i];
      StepKeeps(run[i - 1], t, a);
    }
  }

  /** A unit is acquired only against one that was there at first or was posted. */
  lemma NoUnitMade(run: seq<State>, i: nat)
    requires Run(run) && i < |run|
    ensures run[i].taken + Positive(run[i].value) <= run[i].initial + run[i].posts
    ensures run[i].value >= 0 && Tokens(run[i]) == 0 ==> run[i].taken + run[i].value == run[i].initial + run[i].posts
  {
    RunKeeps(run, i);
  }

  /** At the step in which a waiter commits to its token, there is one for it. */
  lemma CommitFindsToken(s: State, t: nat, a: Action)
    requires Invariant(s) && Enabled(s, t, a) && (a.CancelLoad? || a.CancelExchange?)
    requires Do(s, t, a).pcs[t].Committed?
    ensures var s' := Do(s, t, a); Tokens(s') == Waiters(s') >= 1
  {
    hide Sum;
    var s' := Do(s, t, a);
    StepKeeps(s, t, a);
    SumAtLeast(s'.pcs, t, Waiter);
  }

  // ----- What a call comes to -----

  /** The states after some steps of one thread that nobody interrupts. */
  ghost predicate Alone(s: State, t: nat, steps: seq<Action>, s': State)
    decreases |steps|
  {
    if steps == [] then s' == s
    else Enabled(s, t, steps[0]) && Alone(Do(s, t, steps[0]), t, steps[1..], s')
  }

  lemma AloneFirst(s: State, t: nat, a: Action, steps: seq<Action>, s': State)
    requires Enabled(s, t, a) && Alone(Do(s, t, a), t, steps, s')
    ensures Alone(s, t, [a] + steps, s')
  {
    assert ([a] + steps)[1..] == steps;
  }

  /**
   * A look at the value refuses the post if and only if the value is at its limit; an exchange counts the post if and
   * only if the value is still the one last seen, and is another look otherwise.
   */
  lemma PostSteps(s: State, t: nat, a: Action)
    requires Invariant(s) && Enabled(s, t, a) && (a.PostLoad? || a.PostExchange?)
    ensures var s', counts := Do(s, t, a), a.PostExchange? && s.value == s.pcs[t].seen;
      && (counts <==> s'.posts == s.posts + 1) && (!counts <==> s' == s.(pcs := s'.pcs))
      && (counts ==> s'.value == s.value + 1 && s'.pipe == s.pipe && s'.taken == s.taken && s.value < SEM_VALUE_MAX)
      && (s'.pcs[t].Idle? <==> if counts then s.value >= 0 else s.value == 0x7fff_ffff)
      && (!s'.pcs[t].Idle? ==> s'.pcs[t] == if counts then PostWrite else PostTry(s.value))
  {
    assert Sane(s.pcs[t]);
  }

  /**
   * A post that nobody interrupts: refused, and nothing has changed, if and only if the value is at its limit;
   * otherwise it is one post more, and one more is in the value, or, if someone was waiting, in the pipe as well.
   */
  lemma PostAlone(s: State, t: nat) returns (steps: seq<Action>, s': State)
    requires Invariant(s) && t < |s.pcs| && s.pcs[t].Idle?
    ensures steps != [] && steps[0].PostLoad? && Alone(s, t, steps, s') && s'.pcs == s.pcs
    ensures s' == s <==> s.value == 0x7fff_ffff
    ensures s.value < 0x7fff_ffff ==> s' == s.(value := s.value + 1, posts := s.posts + 1, pipe := s.pipe + if s.value < 0 then 1 else 0)
    ensures s.value < 0x7fff_ffff ==> Positive(s'.value) + Tokens(s') == Positive(s.value) + Tokens(s) + 1
  {
    hide Invariant;
    steps := if s.value == SEM_VALUE_MAX then [PostLoad]
             else if s.value < 0 then [PostLoad, PostExchange, WriteToken] else [PostLoad, PostExchange];
    var s1 := Do(s, t, PostLoad);
    if s.value == SEM_VALUE_MAX {
      s' := s1;
      AloneFirst(s, t, PostLoad, [], s');
      assert [PostLoad] + [] == [PostLoad] && s1.pcs == s.pcs;
    } else {
      var s2 := Do(s1, t, PostExchange);
      s' := if s.value < 0 then Do(s2, t, WriteToken) else s2;
      var rest: seq<Action> := if s.value < 0 then [WriteToken] else [];
      if s.value < 0 {
        AloneFirst(s2, t, WriteToken, [], s');
        assert [WriteToken] + [] == [WriteToken];
      }
      AloneFirst(s1, t, PostExchange, rest, s');
      AloneFirst(s, t, PostLoad, [PostExchange] + rest, s');
      assert steps == [PostLoad] + ([PostExchange] + rest) && s'.pcs == s.pcs;
    }
  }

  /** A wait without waiting: it fails if and only if there is no unit, and takes one otherwise. */
  lemma TrySteps(s: State, t: nat, a: Action)
    requires Invariant(s) && Enabled(s, t, a) && (a.TryLoad? || a.TryExchange?)
    ensures var s', takes := Do(s, t, a), a.TryExchange? && s.value == s.pcs[t].seen;
      && (takes <==> s'.taken == s.taken + 1) && (!takes <==> s' == s.(pcs := s'.pcs))
      && (takes ==> s'.value == s.value - 1 >= 0 && s'.pipe == s.pipe && s'.posts == s.posts && s'.pcs[t].Idle?)
      && (!takes ==> (s'.pcs[t].Idle? <==> s.value <= 0) && (s.value > 0 ==> s'.pcs[t] == WaitTry(s.value)))
  {
    assert Sane(s.pcs[t]);
  }

  lemma TryAlone(s: State, t: nat) returns (steps: seq<Action>, s': State)
    requires Invariant(s) && t < |s.pcs| && s.pcs[t].Idle?
    ensures steps != [] && steps[0].TryLoad? && Alone(s, t, steps, s') && s'.pcs == s.pcs
    ensures s' == if s.value > 0 then s.(value := s.value - 1, taken := s.taken + 1) else s
  {
    hide Invariant;
    steps := if s.value > 0 then [TryLoad, TryExchange] else [TryLoad];
    var s1 := Do(s, t, TryLoad);
    if s.value > 0 {
      s' := Do(s1, t, TryExchange);
      AloneFirst(s1, t, TryExchange, [], s');
      AloneFirst(s, t, TryLoad, [TryExchange] + [], s');
      assert steps == [TryLoad] + ([TryExchange] + []) && s'.pcs == s.pcs;
    } else {
      s' := s1;
      AloneFirst(s, t, TryLoad, [], s');
      assert steps == [TryLoad] + [] && s'.pcs == s.pcs;
    }
  }

  /** A wait takes a unit at once if there is one; otherwise it is counted as a waiter. */
  lemma TakeSteps(s: State, t: nat)
    requires Invariant(s) && Enabled(s, t, TakeSub)
    ensures var s' := Do(s, t, TakeSub);
      if s.value > 0 then s' == s.(value := s.value - 1, taken := s.taken + 1) && s'.pcs[t].Idle?
      else s'.value == s.value - 1 && s'.taken == s.taken && s'.pipe == s.pipe && s'.pcs[t].Waiting? && Waiters(s') == Waiters(s) + 1
  {
    SumUpdate(s.pcs, t, Waiting, Waiter);
  }

  /** A waiter that gives up and is not interrupted is off the count if it was still on it, and else waits for its token. */
  lemma CancelAlone(s: State, t: nat) returns (steps: seq<Action>, s': State)
    requires Invariant(s) && t < |s.pcs| && s.pcs[t].Cancelling?
    ensures steps != [] && steps[0].CancelLoad? && Alone(s, t, steps, s')
    ensures if s.value < 0 then s' == s.(value := s.value + 1, pcs := s.pcs[t := Idle]) else s' == s.(pcs := s.pcs[t := Committed])
    ensures s.value >= 0 ==> Tokens(s') > 0
  {
    steps := if s.value < 0 then [CancelLoad, CancelExchange] else [CancelLoad];
    var s1 := Do(s, t, CancelLoad);
    if s.value < 0 {
      s' := Do(s1, t, CancelExchange);
      AloneFirst(s1, t, CancelExchange, [], s');
      AloneFirst(s, t, CancelLoad, [CancelExchange] + [], s');
      assert steps == [CancelLoad] + ([CancelExchange] + []) && s'.pcs == s.pcs[t := Idle];
    } else {
      s' := s1;
      AloneFirst(s, t, CancelLoad, [], s');
      assert steps == [CancelLoad] + [];
      CommitFindsToken(s, t, CancelLoad);
    }
  }

  /** After a post that nobody interrupts no waiter is left without a token in the pipe, or one that is being written. */
  lemma PostReleases(s: State, t: nat, u: nat)
    requires Invariant(s) && t < |s.pcs| && s.pcs[t].Idle? && s.value < SEM_VALUE_MAX
    requires u < |s.pcs| && s.pcs[u].Waiting?
    ensures exists steps: seq<Action>, s': State :: steps != [] && steps[0].PostLoad? && Alone(s, t, steps, s') && Tokens(s') > 0
                             && (Enabled(s', u, ReadToken) || Sum(s'.pcs, InFlight) > 0)
  {
    var steps, s' := PostAlone(s, t);
    SumAtLeast(s.pcs, u, Waiter);
    assert Tokens(s') > 0;
  }

  // ----- A token for every committed waiter -----

  /** A waiter that has given up and is still counted. */
  function Leaving(pc: Pc): nat {
    if pc.Cancelling? || pc.CancelTry? then 1 else 0
  }

  /** For each waiter that waits without limit there is a token, in the pipe or about to be written. */
  predicate Provided(s: State) {
    Sum(s.pcs, Owed) <= Tokens(s)
  }

  /** What one thread's move changes in the counts. */
  lemma CountsAfter(s: State, t: nat, pc: Pc)
    requires t < |s.pcs|
    ensures var pcs := s.pcs[t := pc];
      && Sum(pcs, Waiter) == Sum(s.pcs, Waiter) - Waiter(s.pcs[t]) + Waiter(pc)
      && Sum(pcs, InFlight) == Sum(s.pcs, InFlight) - InFlight(s.pcs[t]) + InFlight(pc)
      && Sum(pcs, Owed) == Sum(s.pcs, Owed) - Owed(s.pcs[t]) + Owed(pc)
      && Sum(pcs, Leaving) == Sum(s.pcs, Leaving) - Leaving(s.pcs[t]) + Leaving(pc)
  {
    SumUpdate(s.pcs, t, pc, Waiter);
    SumUpdate(s.pcs, t, pc, InFlight);
    SumUpdate(s.pcs, t, pc, Owed);
    SumUpdate(s.pcs, t, pc, Leaving);
  }

  /** The one step that takes a token away from a committed waiter: another waiter's read of the last spare one. */
  lemma BreakingStep(s: State, t: nat, a: Action)
    requires Invariant(s) && Enabled(s, t, a) && Provided(s)
    ensures !Provided(Do(s, t, a)) <==> a.ReadToken? && Sum(s.pcs, Owed) == Tokens(s)
  {
    hide Sum;
    var s' := Do(s, t, a);
    CountsAfter(s, t, s'.pcs[t]);
    assert s.pcs[t := s.pcs[t]] == s.pcs;
    StepKeeps(s, t, a);
    SumMono(s'.pcs, Owed, Waiter);
  }

  /** A thread that finds no unit starts to wait while some committed waiter has yet to read its token. */
  ghost predicate Overtakes(s: State, s': State) {
    s.value <= 0 && Sum(s.pcs, Owed) > 0 && exists t: nat :: Enabled(s, t, TakeSub) && Do(s, t, TakeSub) == s'
  }

  /** The step from the state `i` of a run. */
  ghost predicate OvertakesAt(run: seq<State>, i: nat)
    requires i + 1 < |run|
  {
    Overtakes(run[i], run[i + 1])
  }

  /** Some committed waiter has yet to read, and the counter is below zero. */
  predicate AtRisk(s: State) {
    Sum(s.pcs, Owed) > 0 && s.value < 0
  }

  lemma RiskBegins(s: State, t: nat, a: Action)
    requires Invariant(s) && Enabled(s, t, a)
    ensures !AtRisk(s) && AtRisk(Do(s, t, a)) <==>
      !AtRisk(s) && a.TakeSub? && s.value <= 0 && Sum(s.pcs, Owed) > 0
  {
    hide Sum;
    CountsAfter(s, t, Do(s, t, a).pcs[t]);
    assert s.pcs[t := s.pcs[t]] == s.pcs;
    assert Sane(s.pcs[t]);
  }

  lemma {:induction false} NoRisk(run: seq<State>, i: nat)
    requires Run(run) && i < |run| && forall j :: 0 <= j < i ==> !OvertakesAt(run, j)
    ensures !AtRisk(run[i])
  {
    if i == 0 {
      SumZero(run[0].pcs, Owed);
    } else {
      NoRisk(run, i - 1);
      RunKeeps(run, i - 1);
      assert Follows(run[i - 1], run[i - 1 + 1]) && !OvertakesAt(run, i - 1);
      var t: nat, a: Action :| Enabled(run[i - 1], t, a) && Do(run[i - 1], t, a) == run[i];
      RiskBegins(run[i - 1], t, a);
    }
  }

  /** In a run in which nobody overtakes, there is a token for every committed waiter in every state. */
  lemma TokensForCommitted(run: seq<State>, i: nat)
    requires Run(run) && i < |run| && forall j :: 0 <= j < i ==> !OvertakesAt(run, j)
    ensures Provided(run[i])
  {
    NoRisk(run, i);
    RunKeeps(run, i);
    SumMono(run[i].pcs, Owed, Waiter);
  }

  /** What is left to do until a waiter's token is gone. */
  ghost predicate Ahead(s: State, s': State) {
    && AtRisk(s') && Sum(s'.pcs, Owed) == Sum(s.pcs, Owed) && s'.value == s.value
    && (Sum(s'.pcs, Leaving) < Sum(s.pcs, Leaving) ||
        (Sum(s'.pcs, Leaving) == Sum(s.pcs, Leaving) && (Tokens(s') < Tokens(s) ||
        (Tokens(s') == Tokens(s) && Sum(s'.pcs, InFlight) < Sum(s.pcs, InFlight)))))
  }

  /** A waiter that has given up takes itself off the count, and comes back to wait. */
  lemma Return(run: seq<State>, t: nat) returns (longer: seq<State>)
    requires Run(run) && AtRisk(run[|run| - 1]) && t < |run[|run| - 1].pcs| && Leaving(run[|run| - 1].pcs[t]) == 1
    ensures Run(longer) && run <= longer && Ahead(run[|run| - 1], longer[|longer| - 1])
  {
    hide Run, Sum;
    NotEmpty(run);
    var s := run[|run| - 1];
    var v := s.value;
    var tried, off, back := s.(pcs := s.pcs[t := CancelTry(v)]), s.(value := v + 1, pcs := s.pcs[t := Idle]), s.(pcs := s.pcs[t := Waiting]);
    longer := run;
    if s.pcs[t] != CancelTry(v) {
      longer := Extend(longer, t, if s.pcs[t].Cancelling? then CancelLoad else CancelExchange, tried);
    } else {
      assert tried == s;
    }
    longer := Extend(longer, t, CancelExchange, off);
    longer := Extend(longer, t, TakeSub, back);
    CountsAfter(s, t, Waiting);
  }

  /** A token is written, or read by a waiter that still heeds its deadline. */
  lemma Drain(run: seq<State>) returns (longer: seq<State>)
    requires Run(run) && AtRisk(run[|run| - 1]) && Provided(run[|run| - 1]) && Sum(run[|run| - 1].pcs, Leaving) == 0
    ensures Run(longer) && run <= longer && Ahead(run[|run| - 1], longer[|longer| - 1])
  {
    hide Run;
    NotEmpty(run);
    var s := run[|run| - 1];
    assert Invariant(s) by { RunKeeps(run, |run| - 1); }
    hide Sum;
    if s.pipe == 0 {
      var t := SumWitness(s.pcs, InFlight);
      longer := Extend(run, t, WriteToken, s.(pipe := 1, pcs := s.pcs[t := Idle]));
      CountsAfter(s, t, Idle);
    } else {
      var t := PlainWaiter(s);
      longer := Extend(run, t, ReadToken, s.(pipe := s.pipe - 1, taken := s.taken + 1, pcs := s.pcs[t := Idle]));
      CountsAfter(s, t, Idle);
    }
  }

  /** With the counter below zero some waiter is neither committed nor leaving, if nobody is leaving. */
  lemma PlainWaiter(s: State) returns (t: nat)
    requires Invariant(s) && s.value < 0 && Provided(s) && Sum(s.pcs, Leaving) == 0
    ensures t < |s.pcs| && s.pcs[t].Waiting?
  {
    SumSplit(s.pcs);
    t := SumWitness(s.pcs, Plain);
  }

  function Plain(pc: Pc): nat {
    if pc.Waiting? then 1 else 0
  }

  lemma {:induction false} SumSplit(pcs: seq<Pc>)
    ensures Sum(pcs, Waiter) == Sum(pcs, Plain) + Sum(pcs, Leaving) + Sum(pcs, Owed)
  {
    if pcs != [] {
      SumSplit(pcs[1..]);
    }
  }

  /** Once at risk, some continuation leaves more committed waiters than tokens. */
  lemma {:induction false} CanStarve(run: seq<State>) returns (longer: seq<State>)
    requires Run(run) && AtRisk(run[|run| - 1])
    ensures Run(longer) && run <= longer && !Provided(longer[|longer| - 1])
    decreases Sum(run[|run| - 1].pcs, Leaving), Tokens(run[|run| - 1]), Sum(run[|run| - 1].pcs, InFlight)
  {
    hide Run;
    NotEmpty(run);
    var s := run[|run| - 1];
    longer := run;
    if Provided(s) {
      if Sum(s.pcs, Leaving) > 0 {
        var t := SumWitness(s.pcs, Leaving);
        longer := Return(run, t);
      } else {
        longer := Drain(run);
      }
      longer := CanStarve(longer);
    }
  }

  /**
   * Of every run: as long as no step overtakes a committed waiter there is a token for each in every state;
   * as soon as one does, or the run is at risk at its end, some continuation leaves one without.
   */
  lemma OvertakenStarves(run: seq<State>)
    requires Run(run)
    ensures (forall j :: 0 <= j < |run| - 1 ==> !OvertakesAt(run, j)) ==> forall i :: 0 <= i < |run| ==> Provided(run[i])
    ensures (|run| > 1 && OvertakesAt(run, |run| - 2)) || AtRisk(run[|run| - 1]) ==>
      exists longer :: Run(longer) && run <= longer && !Provided(longer[|longer| - 1])
  {
    hide Run, Sum, AtRisk, Overtakes, Provided;
    NotEmpty(run);
    if forall j :: 0 <= j < |run| - 1 ==> !OvertakesAt(run, j) {
      forall i | 0 <= i < |run|
        ensures Provided(run[i])
      {
        TokensForCommitted(run, i);
      }
    }
    if (|run| > 1 && OvertakesAt(run, |run| - 2)) || AtRisk(run[|run| - 1]) {
      if |run| > 1 && OvertakesAt(run, |run| - 2) {
        OvertakingRisks(run[|run| - 2], run[|run| - 1]);
      }
      var longer := CanStarve(run);
    }
  }

  /** A single thread is never overtaken. */
  lemma AloneProvided(run: seq<State>, i: nat)
    requires Run(run) && i < |run| && |run[0].pcs| < 2
    ensures Provided(run[i])
  {
    forall j | 0 <= j < i
      ensures !OvertakesAt(run, j)
    {
      SameThreads(run, j);
      NoneOvertakes(run[j], run[j + 1]);
    }
    TokensForCommitted(run, i);
  }

  lemma NoneOvertakes(s: State, s': State)
    requires |s.pcs| < 2
    ensures !Overtakes(s, s')
  {
    if t: nat :| Enabled(s, t, TakeSub) {
      assert s.pcs == [Idle];
      SumZero(s.pcs, Owed);
    }
  }

  lemma {:induction false} SameThreads(run: seq<State>, i: nat)
    requires Run(run) && i < |run|
    ensures |run[i].pcs| == |run[0].pcs|
  {
    if i > 0 {
      SameThreads(run, i - 1);
      assert Follows(run[i - 1], run[i - 1 + 1]);
    }
  }

  /** The first thread takes all units there are. */
  lemma {:induction false} TakeAll(run: seq<State>) returns (longer: seq<State>)
    requires Run(run) && var s := run[|run| - 1]; s.value >= 0 && s.pcs != [] && s.pcs[0].Idle?
    ensures Run(longer) && run <= longer
    ensures var s, s' := run[|run| - 1], longer[|longer| - 1]; s' == s.(value := 0, taken := s.taken + s.value)
    decreases run[|run| - 1].value
  {
    hide Run;
    NotEmpty(run);
    var s := run[|run| - 1];
    longer := run;
    if s.value > 0 {
      longer := Extend(run, 0, TakeSub, s.(value := s.value - 1, taken := s.taken + 1));
      longer := TakeAll(longer);
    }
  }

  /** The first thread waits, the second posts for it, and then the first gives up and commits. */
  lemma Committing(run: seq<State>) returns (longer: seq<State>)
    requires Run(run) && var s := run[|run| - 1];
      s.value == 0 && s.pipe == 0 && |s.pcs| >= 2 && forall t :: 0 <= t < |s.pcs| ==> s.pcs[t].Idle?
    ensures Run(longer) && run <= longer
    ensures var s, s' := run[|run| - 1], longer[|longer| - 1];
      s' == s.(pipe := 1, posts := s.posts + 1, pcs := s.pcs[0 := Committed])
  {
    hide Run;
    NotEmpty(run);
    var s := run[|run| - 1];
    var waits := s.(value := -1, pcs := s.pcs[0 := Waiting]);
    longer := Extend(run, 0, TakeSub, waits);
    longer := Extend(longer, 1, PostLoad, waits.(pcs := waits.pcs[1 := PostTry(-1)]));
    var posted := s.(posts := s.posts + 1, pcs := s.pcs[0 := Waiting]);
    longer := Extend(longer, 1, PostExchange, posted.(pcs := posted.pcs[1 := PostWrite]));
    assert posted.pcs[1 := PostWrite][1 := Idle] == posted.pcs;
    longer := Extend(longer, 1, WriteToken, posted.(pipe := 1));
    longer := Extend(longer, 0, GiveUp, posted.(pipe := 1, pcs := posted.pcs[0 := Cancelling]));
    assert posted.pcs[0 := Cancelling][0 := Committed] == s.pcs[0 := Committed];
    longer := Extend(longer, 0, CancelLoad, posted.(pipe := 1, pcs := s.pcs[0 := Committed]));
  }

  /** With two threads a committed waiter can be left without a token, whatever the initial count. */
  lemma TwoCanStarve(start: State) returns (run: seq<State>)
    requires Initial(start) && |start.pcs| >= 2
    ensures Run(run) && run[0] == start && !Provided(run[|run| - 1])
  {
    hide Run, Sum;
    run := [start];
    RunStarts(start);
    run := TakeAll(run);
    run := Committing(run);
    var s := run[|run| - 1];
    run := Extend(run, 1, TakeSub, s.(value := -1, pcs := s.pcs[1 := Waiting]));
    SumAtLeast(s.pcs[1 := Waiting], 0, Owed);
    run := CanStarve(run);
  }

  /**
   * Whether a semaphore can leave a committed waiter without a token is settled by how many threads use it:
   * some run does exactly if they are two or more.
   */
  lemma StarvesExactly(start: State)
    requires Initial(start)
    ensures (exists run :: Run(run) && run[0] == start && !Provided(run[|run| - 1])) <==> |start.pcs| >= 2
  {
    hide Provided;
    if run :| Run(run) && run[0] == start && !Provided(run[|run| - 1]) {
      if |start.pcs| < 2 {
        AloneProvided(run, |run| - 1);
      }
    }
    if |start.pcs| >= 2 {
      var run := TwoCanStarve(start);
    }
  }

  lemma NotEmpty(run: seq<State>)
    requires Run(run)
    ensures run != []
  {
  }

  lemma OvertakingRisks(s: State, s': State)
    requires Overtakes(s, s')
    ensures AtRisk(s')
  {
    hide Sum;
    var t: nat :| Enabled(s, t, TakeSub) && Do(s, t, TakeSub) == s';
    CountsAfter(s, t, Waiting);
  }

  /** One step more. */
  lemma Extend(run: seq<State>, t: nat, a: Action, expected: State) returns (longer: seq<State>)
    requires Run(run) && Enabled(run[|run| - 1], t, a) && Do(run[|run| - 1], t, a) == expected
    ensures Run(longer) && longer[|longer| - 1] == expected && run <= longer
  {
    longer := run + [expected];
    assert Follows(run[|run| - 1], expected);
    forall i | 0 <= i < |longer| - 1
      ensures Follows(longer[i], longer[i + 1])
    {
      if i < |run| - 1 {
        assert Follows(run[i], run[i + 1]);
      }
    }
  }

  /** Thread 0 waits, thread 1 posts for it, and the deadline of thread 0 passes. */
  lemma TimedOutLate() returns (run: seq<State>)
    ensures Run(run) && run[|run| - 1] == State(0, 1, [Cancelling, Idle, Idle], 0, 1, 0)
  {
    hide Run;
    run := [State(0, 0, [Idle, Idle, Idle], 0, 0, 0)];
    assert Run(run) by { RunStarts(run[0]); }
    run := Extend(run, 0, TakeSub, State(-1, 0, [Waiting, Idle, Idle], 0, 0, 0));
    run := Extend(run, 1, PostLoad, State(-1, 0, [Waiting, PostTry(-1), Idle], 0, 0, 0));
    run := Extend(run, 1, PostExchange, State(0, 0, [Waiting, PostWrite, Idle], 0, 1, 0));
    run := Extend(run, 1, WriteToken, State(0, 1, [Waiting, Idle, Idle], 0, 1, 0));
    run := Extend(run, 0, GiveUp, State(0, 1, [Cancelling, Idle, Idle], 0, 1, 0));
  }

  lemma RunStarts(s: State)
    requires Initial(s)
    ensures Run([s])
  {
  }

  lemma NothingInFlight()
    ensures Sum([Committed, Idle, Idle], InFlight) == 0
  {
    SumZero([Committed, Idle, Idle], InFlight);
  }

  /**
   * It need not stay so: a later taker can read the token first. The run below ends with a
   * committed waiter, which heeds its deadline no more, and no token anywhere.
   */
  lemma CommittedCanStarve() returns (run: seq<State>)
    ensures Run(run)
    ensures var s := run[|run| - 1]; s.pcs != [] && s.pcs[0].Committed? && Tokens(s) == 0 && s.value == -1
  {
    hide Run, Sum;
    run := TimedOutLate();
    // thread 0 finds that it was posted for; thread 2 waits and reads the token
    run := Extend(run, 0, CancelLoad, State(0, 1, [Committed, Idle, Idle], 0, 1, 0));
    run := Extend(run, 2, TakeSub, State(-1, 1, [Committed, Idle, Waiting], 0, 1, 0));
    run := Extend(run, 2, ReadToken, State(-1, 0, [Committed, Idle, Idle], 0, 1, 1));
    NothingInFlight();
  }
}
