/** Counting threads by what they are doing. */
module Threads {
  /** The sum of `weight` over all threads. */
  function Sum<T>(pcs: seq<T>, weight: T -> nat): nat {
    if pcs == [] then 0 else weight(pcs[0]) + Sum(pcs[1..], weight)
  }

  /** When one thread moves on, the sum changes by what that thread counts. */
  lemma {:induction false} SumUpdate<T>(pcs: seq<T>, t: nat, pc: T, weight: T -> nat)
    requires t < |pcs|
    ensures Sum(pcs[t := pc], weight) == Sum(pcs, weight) - weight(pcs[t]) + weight(pc)
  {
    if t == 0 {
      assert pcs[0 := pc][1..] == pcs[1..];
    } else {
      SumUpdate(pcs[1..], t - 1, pc, weight);
      assert pcs[t := pc][1..] == pcs[1..][t - 1 := pc];
    }
  }

  /** A thread counts for no more than all do. */
  lemma {:induction false} SumAtLeast<T>(pcs: seq<T>, t: nat, weight: T -> nat)
    requires t < |pcs|
    ensures weight(pcs[t]) <= Sum(pcs, weight)
  {
    if t > 0 {
      SumAtLeast(pcs[1..], t - 1, weight);
    }
  }

  /** Two threads count for no more than all do. */
  lemma {:induction false} SumAtLeastTwo<T>(pcs: seq<T>, t: nat, u: nat, weight: T -> nat)
    requires t < u < |pcs|
    ensures weight(pcs[t]) + weight(pcs[u]) <= Sum(pcs, weight)
  {
    if t == 0 {
      SumAtLeast(pcs[1..], u - 1, weight);
    } else {
      SumAtLeastTwo(pcs[1..], t - 1, u - 1, weight);
    }
  }

  /** Where one weight is below another, so are the sums. */
  lemma {:induction false} SumMono<T>(pcs: seq<T>, less: T -> nat, more: T -> nat)
    requires forall t :: 0 <= t < |pcs| ==> less(pcs[t]) <= more(pcs[t])
    ensures Sum(pcs, less) <= Sum(pcs, more)
  {
    if pcs != [] {
      assert less(pcs[0]) <= more(pcs[0]);
      SumMono(pcs[1..], less, more);
    }
  }

  /** If the threads count for something, one of them does. */
  lemma {:induction false} SumWitness<T>(pcs: seq<T>, weight: T -> nat) returns (t: nat)
    requires Sum(pcs, weight) > 0
    ensures t < |pcs| && weight(pcs[t]) > 0
  {
    if weight(pcs[0]) > 0 {
      t := 0;
    } else {
      t := SumWitness(pcs[1..], weight);
      t := t + 1;
    }
  }

  lemma {:induction false} SumZero<T>(pcs: seq<T>, weight: T -> nat)
    requires forall t :: 0 <= t < |pcs| ==> weight(pcs[t]) == 0
    ensures Sum(pcs, weight) == 0
  {
    if pcs != [] {
      assert weight(pcs[0]) == 0;
      forall t | 0 <= t < |pcs[1..]|
        ensures weight(pcs[1..][t]) == 0
      {
        assert weight(pcs[t + 1]) == 0;
      }
      SumZero(pcs[1..], weight);
    }
  }

  /** Each thread counting at most one, all count at most as many as there are. */
  lemma {:induction false} SumAtMost<T>(pcs: seq<T>, weight: T -> nat)
    requires forall t :: 0 <= t < |pcs| ==> weight(pcs[t]) <= 1
    ensures Sum(pcs, weight) <= |pcs|
  {
    if pcs != [] {
      assert weight(pcs[0]) <= 1;
      forall t | 0 <= t < |pcs[1..]|
        ensures weight(pcs[1..][t]) <= 1
      {
        assert weight(pcs[t + 1]) <= 1;
      }
      SumAtMost(pcs[1..], weight);
    }
  }
}
