/**
 * The read-write lock: three counters changed under a kernel mutex, and two kernel condition variables.
 * A step is one stretch of one thread between taking that mutex and releasing or waiting on it.
 */
module RwLock {
  import opened Threads

  datatype Pc =
    | Idle
    | HoldRead
    | HoldWrite
    | ReadSleep    // waits on readCond
    | ReadWoken    // woken, about to take the mutex again
    | ReadTimed    // timed out, about to take the mutex again
    | WriteSleep
    | WriteWoken
    | WriteTimed

  datatype State = State(readActive: nat, writeActive: nat, writeWaiting: nat, pcs: seq<Pc>)

  /** `woken` is the waiting writer that a signal finds, if there is any. */
  datatype Action =
    | RdLock(block: bool) | ReadAgain | ReadTimeout | ReadFails | ReadSpurious
    | WrLock(block: bool) | WriteAgain | WriteTimeout | WriteFails | WriteSpurious
    | Unlock(woken: nat)

  predicate Enabled(s: State, t: nat, a: Action) {
    t < |s.pcs| &&
    match a
    case RdLock(_) => s.pcs[t].Idle?
    case ReadAgain => s.pcs[t].ReadWoken?
    case ReadTimeout => s.pcs[t].ReadSleep?
    case ReadFails => s.pcs[t].ReadTimed?
    case ReadSpurious => s.pcs[t].ReadSleep?
    case WrLock(_) => s.pcs[t].Idle?
    case WriteAgain => s.pcs[t].WriteWoken?
    case WriteTimeout => s.pcs[t].WriteSleep?
    case WriteFails => s.pcs[t].WriteTimed?
    case WriteSpurious => s.pcs[t].WriteSleep?
    case Unlock(u) =>
      (s.pcs[t].HoldRead? || s.pcs[t].HoldWrite?) && u < |s.pcs| &&
      (s.pcs[u].WriteSleep? || forall w :: 0 <= w < |s.pcs| ==> !s.pcs[w].WriteSleep?)
  }

  /** condBroadcast(readCond) */
  function Awoken(pcs: seq<Pc>): (r: seq<Pc>)
    ensures |r| == |pcs|
    ensures forall t :: 0 <= t < |pcs| ==> r[t] == if pcs[t].ReadSleep? then ReadWoken else pcs[t]
  {
    seq(|pcs|, t requires 0 <= t < |pcs| => if pcs[t].ReadSleep? then ReadWoken else pcs[t])
  }

  /** condSignal(writeCond) */
  function Signalled(pcs: seq<Pc>, u: nat): (r: seq<Pc>)
    requires u < |pcs|
    ensures |r| == |pcs|
  {
    if pcs[u].WriteSleep? then pcs[u := WriteWoken] else pcs
  }

  function Do(s: State, t: nat, a: Action): (s': State)
    requires Enabled(s, t, a)
    ensures |s'.pcs| == |s.pcs|
  {
    match a
    case RdLock(block) =>
      if s.writeActive > 0 || s.writeWaiting > 0 then s.(pcs := s.pcs[t := if block then ReadSleep else Idle])
      else s.(readActive := s.readActive + 1, pcs := s.pcs[t := HoldRead])
    case ReadAgain =>
      if s.writeActive > 0 || s.writeWaiting > 0 then s.(pcs := s.pcs[t := ReadSleep])
      else s.(readActive := s.readActive + 1, pcs := s.pcs[t := HoldRead])
    case ReadTimeout => s.(pcs := s.pcs[t := ReadTimed])
    case ReadFails => s.(pcs := s.pcs[t := Idle])
    case ReadSpurious => s.(pcs := s.pcs[t := ReadWoken])
    case WrLock(block) =>
      if s.readActive > 0 || s.writeActive > 0 then
        if block then s.(writeWaiting := s.writeWaiting + 1, pcs := s.pcs[t := WriteSleep]) else s
      else s.(writeActive := s.writeActive + 1, pcs := s.pcs[t := HoldWrite])
    case WriteAgain =>
      if s.readActive > 0 || s.writeActive > 0 then s.(pcs := s.pcs[t := WriteSleep])
      else s.(writeWaiting := Less(s.writeWaiting), writeActive := s.writeActive + 1, pcs := s.pcs[t := HoldWrite])
    case WriteTimeout => s.(pcs := s.pcs[t := WriteTimed])
    case WriteFails =>
      var waiting := Less(s.writeWaiting);
      var pcs := s.pcs[t := Idle];
      s.(writeWaiting := waiting, pcs := if waiting == 0 && s.writeActive == 0 then Awoken(pcs) else pcs)
    case WriteSpurious => s.(pcs := s.pcs[t := WriteWoken])
    case Unlock(u) =>
      var pcs := s.pcs[t := Idle];
      if s.writeActive > 0 then
        // only a writer can be the caller; writers before readers
        s.(writeActive := s.writeActive - 1, pcs := if s.writeWaiting > 0 then Signalled(pcs, u) else Awoken(pcs))
      else if s.readActive > 0 then
        s.(readActive := s.readActive - 1,
           pcs := if s.readActive == 1 && s.writeWaiting > 0 then Signalled(pcs, u) else pcs)
      else s  // EPERM
  }

  function Less(n: nat): nat {
    if n > 0 then n - 1 else 0
  }

  predicate Initial(s: State) {
    s.readActive == 0 && s.writeActive == 0 && s.writeWaiting == 0 && forall t :: 0 <= t < |s.pcs| ==> s.pcs[t].Idle?
  }

  ghost predicate Follows(s: State, s': State) {
    exists t: nat, a: Action :: Enabled(s, t, a) && Do(s, t, a) == s'
  }

  ghost predicate Run(run: seq<State>) {
    run != [] && Initial(run[0]) && forall i :: 0 <= i < |run| - 1 ==> Follows(run[i], run[i + 1])
  }

  // ----- What every step keeps -----

  function Reads(pc: Pc): nat {
    if pc.HoldRead? then 1 else 0
  }

  function Writes(pc: Pc): nat {
    if pc.HoldWrite? then 1 else 0
  }

  function WaitsToWrite(pc: Pc): nat {
    if pc.WriteSleep? || pc.WriteWoken? || pc.WriteTimed? then 1 else 0
  }

  ghost predicate Counts(s: State) {
    && s.readActive == Sum(s.pcs, Reads) && s.writeActive == Sum(s.pcs, Writes)
    && s.writeWaiting == Sum(s.pcs, WaitsToWrite)
  }

  predicate Excludes(s: State) {
    s.writeActive <= 1 && (s.writeActive > 0 ==> s.readActive == 0)
  }

  predicate Wakes(s: State) {
    && (ReadSleep in s.pcs ==> s.writeActive > 0 || s.writeWaiting > 0)
    && (WriteSleep in s.pcs && s.readActive == 0 && s.writeActive == 0 ==> WriteWoken in s.pcs)
  }

  ghost predicate Invariant(s: State) {
    Counts(s) && Excludes(s) && Wakes(s)
  }

  lemma {:induction false} AwokenCounts(pcs: seq<Pc>)
    ensures Sum(Awoken(pcs), Reads) == Sum(pcs, Reads)
    ensures Sum(Awoken(pcs), Writes) == Sum(pcs, Writes)
    ensures Sum(Awoken(pcs), WaitsToWrite) == Sum(pcs, WaitsToWrite)
  {
    if pcs != [] {
      assert Awoken(pcs)[1..] == Awoken(pcs[1..]);
      AwokenCounts(pcs[1..]);
    }
  }

  lemma SignalledCounts(pcs: seq<Pc>, u: nat)
    requires u < |pcs|
    ensures Sum(Signalled(pcs, u), Reads) == Sum(pcs, Reads)
    ensures Sum(Signalled(pcs, u), Writes) == Sum(pcs, Writes)
    ensures Sum(Signalled(pcs, u), WaitsToWrite) == Sum(pcs, WaitsToWrite)
  {
    if pcs[u].WriteSleep? {
      SumUpdate(pcs, u, WriteWoken, Reads);
      SumUpdate(pcs, u, WriteWoken, Writes);
      SumUpdate(pcs, u, WriteWoken, WaitsToWrite);
    }
  }

  lemma MoveCounts(pcs: seq<Pc>, t: nat, pc: Pc)
    requires t < |pcs|
    ensures Sum(pcs[t := pc], Reads) == Sum(pcs, Reads) - Reads(pcs[t]) + Reads(pc)
    ensures Sum(pcs[t := pc], Writes) == Sum(pcs, Writes) - Writes(pcs[t]) + Writes(pc)
    ensures Sum(pcs[t := pc], WaitsToWrite) == Sum(pcs, WaitsToWrite) - WaitsToWrite(pcs[t]) + WaitsToWrite(pc)
    ensures Reads(pcs[t]) <= Sum(pcs, Reads) && Writes(pcs[t]) <= Sum(pcs, Writes)
    ensures WaitsToWrite(pcs[t]) <= Sum(pcs, WaitsToWrite)
  {
    SumUpdate(pcs, t, pc, Reads);
    SumUpdate(pcs, t, pc, Writes);
    SumUpdate(pcs, t, pc, WaitsToWrite);
    SumAtLeast(pcs, t, Reads);
    SumAtLeast(pcs, t, Writes);
    SumAtLeast(pcs, t, WaitsToWrite);
  }

  /** The counters stay the numbers of readers, writers and waiting writers; readers and a writer never meet. */
  lemma StepCounts(s: State, t: nat, a: Action)
    requires Invariant(s) && Enabled(s, t, a)
    ensures Counts(Do(s, t, a)) && Excludes(Do(s, t, a))
  {
    hide Sum, Wakes;
    var pcs := s.pcs;
    MoveCounts(pcs, t, Idle);
    match a {
      case Unlock(u) =>
        AwokenCounts(pcs[t := Idle]);
        SignalledCounts(pcs[t := Idle], u);
      case WriteFails => AwokenCounts(pcs[t := Idle]);
      case _ =>
        MoveCounts(pcs, t, Do(s, t, a).pcs[t]);
        assert pcs[t := pcs[t]] == pcs;
    }
  }

  lemma UnlockWakes(s: State, t: nat, u: nat)
    requires Invariant(s) && Enabled(s, t, Unlock(u))
    ensures Wakes(Do(s, t, Unlock(u)))
  {
    hide Sum, Counts;
    var s' := Do(s, t, Unlock(u));
    CountsHere(s, t);
    if w :| 0 <= w < |s'.pcs| && s'.pcs[w] == WriteSleep {
      CountsHere(s, w);
      assert s.pcs[w].WriteSleep?;
      assert s.pcs[t := Idle][u].WriteSleep?;
      assert Signalled(s.pcs[t := Idle], u)[u].WriteWoken?;
    }
    if r :| 0 <= r < |s'.pcs| && s'.pcs[r] == ReadSleep {
      assert s.pcs[r].ReadSleep?;
    }
  }

  lemma StepWakesReaders(s: State, t: nat, a: Action)
    requires Invariant(s) && Enabled(s, t, a) && !a.Unlock?
    ensures var s' := Do(s, t, a); ReadSleep in s'.pcs ==> s'.writeActive > 0 || s'.writeWaiting > 0
  {
    hide Sum, Counts;
    var s' := Do(s, t, a);
    CountsHere(s, t);
    if r :| 0 <= r < |s'.pcs| && s'.pcs[r] == ReadSleep {
      assert r != t ==> s.pcs[r] == ReadSleep;
    }
  }

  lemma StepWakesWriters(s: State, t: nat, a: Action)
    requires Invariant(s) && Enabled(s, t, a) && !a.Unlock?
    ensures var s' := Do(s, t, a);
      WriteSleep in s'.pcs && s'.readActive == 0 && s'.writeActive == 0 ==> WriteWoken in s'.pcs
  {
    hide Sum, Counts;
    var s' := Do(s, t, a);
    CountsHere(s, t);
    if w :| 0 <= w < |s'.pcs| && s'.pcs[w] == WriteSleep {
      assert w != t ==> s.pcs[w] == WriteSleep;
      if k :| 0 <= k < |s.pcs| && s.pcs[k] == WriteWoken {
        assert k != t ==> s'.pcs[k] == WriteWoken;
      }
    }
  }

  /** A thread that waits to write is counted, and so is one that holds the lock. */
  lemma CountsHere(s: State, t: nat)
    requires Counts(s) && t < |s.pcs|
    ensures WaitsToWrite(s.pcs[t]) <= s.writeWaiting && Reads(s.pcs[t]) <= s.readActive && Writes(s.pcs[t]) <= s.writeActive
  {
    MoveCounts(s.pcs, t, Idle);
  }

  lemma {:induction false} RunKeeps(run: seq<State>, i: nat)
    requires Run(run) && i < |run|
    ensures Invariant(run[i])
  {
    if i == 0 {
      SumZero(run[0].pcs, Reads);
      SumZero(run[0].pcs, Writes);
      SumZero(run[0].pcs, WaitsToWrite);
    } else {
      RunKeeps(run, i - 1);
      assert Follows(run[i - 1], run[i - 1 + 1]);
      var t: nat, a: Action :| Enabled(run[i - 1], t, a) && Do(run[i - 1], t, a) == run[i];
      StepCounts(run[i - 1], t, a);
      if a.Unlock? {
        UnlockWakes(run[i - 1], t, a.woken);
      } else {
        StepWakesReaders(run[i - 1], t, a);
        StepWakesWriters(run[i - 1], t, a);
      }
    }
  }

  /** In every interleaving a thread that holds the lock for writing is the only one that holds it. */
  lemma Exclusion(run: seq<State>, i: nat, t: nat, u: nat)
    requires Run(run) && i < |run| && t < |run[i].pcs| && u < |run[i].pcs| && t != u
    requires run[i].pcs[t].HoldWrite?
    ensures !run[i].pcs[u].HoldWrite? && !run[i].pcs[u].HoldRead?
  {
    RunKeeps(run, i);
    var s := run[i];
    SumAtLeastTwo(s.pcs, if t < u then t else u, if t < u then u else t, Writes);
    SumAtLeast(s.pcs, u, Reads);
  }

  /** In every interleaving a reader sleeps only while some thread writes or waits to. */
  lemma ReadersWaitForWriters(run: seq<State>, i: nat, t: nat) returns (w: nat)
    requires Run(run) && i < |run| && t < |run[i].pcs| && run[i].pcs[t].ReadSleep?
    ensures w < |run[i].pcs| && (run[i].pcs[w].HoldWrite? || WaitsToWrite(run[i].pcs[w]) == 1)
  {
    RunKeeps(run, i);
    var s := run[i];
    assert ReadSleep in s.pcs;
    if s.writeActive > 0 {
      w := SumWitness(s.pcs, Writes);
    } else {
      w := SumWitness(s.pcs, WaitsToWrite);
    }
  }

  /** In every interleaving, if nobody holds the lock while a writer sleeps, some writer has been woken. */
  lemma FreeWakesWriter(run: seq<State>, i: nat, t: nat)
    requires Run(run) && i < |run| && t < |run[i].pcs| && run[i].pcs[t].WriteSleep?
    requires forall u :: 0 <= u < |run[i].pcs| ==> !run[i].pcs[u].HoldRead? && !run[i].pcs[u].HoldWrite?
    ensures exists u :: 0 <= u < |run[i].pcs| && run[i].pcs[u].WriteWoken?
  {
    RunKeeps(run, i);
    var s := run[i];
    SumZero(s.pcs, Reads);
    SumZero(s.pcs, Writes);
    assert s.pcs[t] in s.pcs;
  }

  // ----- What a call comes to -----

  predicate Writing(s: State) {
    exists u :: 0 <= u < |s.pcs| && s.pcs[u].HoldWrite?
  }

  predicate Reading(s: State) {
    exists u :: 0 <= u < |s.pcs| && s.pcs[u].HoldRead?
  }

  predicate WriterWaits(s: State) {
    exists u :: 0 <= u < |s.pcs| && (s.pcs[u].WriteSleep? || s.pcs[u].WriteWoken? || s.pcs[u].WriteTimed?)
  }

  /** What the counters tell about the threads. */
  lemma CountersTell(s: State)
    requires Counts(s)
    ensures (s.readActive > 0 <==> Reading(s)) && (s.writeActive > 0 <==> Writing(s)) && (s.writeWaiting > 0 <==> WriterWaits(s))
  {
    hide Sum;
    SomeExactly(s.pcs, Reads);
    SomeExactly(s.pcs, Writes);
    SomeExactly(s.pcs, WaitsToWrite);
    if s.readActive > 0 {
      var u := SumWitness(s.pcs, Reads);
      assert s.pcs[u].HoldRead?;
    }
    if s.writeActive > 0 {
      var u := SumWitness(s.pcs, Writes);
      assert s.pcs[u].HoldWrite?;
    }
    if s.writeWaiting > 0 {
      var u := SumWitness(s.pcs, WaitsToWrite);
      assert WaitsToWrite(s.pcs[u]) > 0;
    }
  }

  lemma SomeExactly(pcs: seq<Pc>, weight: Pc -> nat)
    ensures forall u :: 0 <= u < |pcs| ==> weight(pcs[u]) <= Sum(pcs, weight)
  {
    forall u | 0 <= u < |pcs|
      ensures weight(pcs[u]) <= Sum(pcs, weight)
    {
      SumAtLeast(pcs, u, weight);
    }
  }

  /**
   * A request to read is granted if and only if no thread writes and none waits to. Otherwise it fails if it may not
   * wait, and else the thread sleeps. Nothing changes for the other threads.
   */
  lemma ReadGranted(s: State, t: nat, a: Action)
    requires Invariant(s) && Enabled(s, t, a) && (a.RdLock? || a.ReadAgain?)
    ensures Do(s, t, a).pcs ==
      s.pcs[t := if !Writing(s) && !WriterWaits(s) then HoldRead else if a == RdLock(false) then Idle else ReadSleep]
  {
    CountersTell(s);
  }

  /** A request to write is granted if and only if no thread holds the lock. */
  lemma WriteGranted(s: State, t: nat, a: Action)
    requires Invariant(s) && Enabled(s, t, a) && (a.WrLock? || a.WriteAgain?)
    ensures Do(s, t, a).pcs ==
      s.pcs[t := if !Writing(s) && !Reading(s) then HoldWrite else if a == WrLock(false) then Idle else WriteSleep]
  {
    CountersTell(s);
    assert s.pcs[t := s.pcs[t]] == s.pcs;
  }

  /**
   * An unlock gives up what the thread held. When nobody holds the lock then, a sleeping writer is woken if some thread
   * waits to write, and else all readers; no other thread notices.
   */
  lemma UnlockReleases(s: State, t: nat, u: nat)
    requires Invariant(s) && Enabled(s, t, Unlock(u))
    ensures var s' := Do(s, t, Unlock(u));
      && s'.pcs[t] == Idle
      && (s.pcs[t].HoldWrite? ==> !Writing(s') && !Reading(s'))
      && forall w :: 0 <= w < |s.pcs| && w != t ==>
           s'.pcs[w] ==
             if Writing(s') || Reading(s') then s.pcs[w]
             else if WriterWaits(s) then if w == u && s.pcs[w].WriteSleep? then WriteWoken else s.pcs[w]
             else if s.pcs[w].ReadSleep? then ReadWoken else s.pcs[w]
  {
    hide Sum, Wakes;
    var s' := Do(s, t, Unlock(u));
    StepCounts(s, t, Unlock(u));
    CountsHere(s, t);
    CountersTell(s);
    CountersTell(s');
    if !Writing(s) && !WriterWaits(s) {
      NoReaderSleeps(s);
    }
  }

  lemma NoReaderSleeps(s: State)
    requires Invariant(s) && !Writing(s) && !WriterWaits(s)
    ensures ReadSleep !in s.pcs
  {
    CountersTell(s);
  }

  /** A writer that gives up waiting is out, and if none is left that writes or waits to, all readers are awake. */
  lemma WriteGivenUp(s: State, t: nat)
    requires Invariant(s) && Enabled(s, t, WriteFails)
    ensures var s' := Do(s, t, WriteFails);
      && s'.pcs[t] == Idle
      && forall w :: 0 <= w < |s.pcs| && w != t ==>
           s'.pcs[w] == if !Writing(s') && !WriterWaits(s') && s.pcs[w].ReadSleep? then ReadWoken else s.pcs[w]
  {
    hide Sum, Wakes;
    StepCounts(s, t, WriteFails);
    CountersTell(Do(s, t, WriteFails));
    CountsHere(s, t);
  }
}
