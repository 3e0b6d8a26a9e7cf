/** The circular doubly-linked rings of sys/list.c, over numbered nodes; node 0 is the null pointer. */
module Rings {
  predicate Distinct(s: seq<nat>) {
    forall i, j :: 0 <= i < j < |s| ==> s[i] != s[j]
  }

  function Succ(i: nat, n: nat): nat {
    if i + 1 < n then i + 1 else 0
  }

  /** The links lead around `s`, which starts at the head. */
  predicate Ring(next: seq<nat>, prev: seq<nat>, s: seq<nat>) {
    && Distinct(s) && |next| == |prev|
    && (forall i :: 0 <= i < |s| ==> 0 < s[i] < |next|)
    && forall i :: 0 <= i < |s| ==> next[s[i]] == s[Succ(i, |s|)] && prev[s[Succ(i, |s|)]] == s[i]
  }

  function Head(s: seq<nat>): nat {
    if s == [] then 0 else s[0]
  }

  function Without(s: seq<nat>, k: nat): seq<nat>
    requires k < |s|
  {
    s[..k] + s[k + 1..]
  }

  predicate SameLinks(next: seq<nat>, prev: seq<nat>, next': seq<nat>, prev': seq<nat>, s: seq<nat>)
    requires |next| == |prev|
  {
    |next'| == |prev'| == |next| && forall t :: 0 <= t < |next| && t !in s ==> next'[t] == next[t] && prev'[t] == prev[t]
  }

  /** Links elsewhere do not matter to a ring. */
  lemma RingFrame(next: seq<nat>, prev: seq<nat>, next': seq<nat>, prev': seq<nat>, s: seq<nat>, other: seq<nat>)
    requires Ring(next, prev, other) && SameLinks(next, prev, next', prev', s)
    requires forall i :: 0 <= i < |other| ==> other[i] !in s
    ensures Ring(next', prev', other)
  {
  }

  class Links {
    var next: seq<nat>
    var prev: seq<nat>

    constructor (n: nat)
      ensures |next| == |prev| == n
    {
      next, prev := seq(n, _ => 0), seq(n, _ => 0);
    }

    /** Adds `t` at the end of the ring, before its head. */
    method ListAdd(list: nat, t: nat, ghost s: seq<nat>) returns (list': nat)
      requires Ring(next, prev, s) && list == Head(s) && 0 < t < |next| && t !in s
      modifies this
      ensures Ring(next, prev, s + [t]) && list' == Head(s + [t])
      ensures SameLinks(old(next), old(prev), next, prev, s + [t])
    {
      if list == 0 {
        next, prev := next[t := t], prev[t := t];
        list' := t;
      } else {
        assert Succ(|s| - 1, |s|) == 0 && prev[s[0]] == s[|s| - 1];
        var last := prev[list];
        prev := prev[t := last];
        next := next[last := t];
        next := next[t := list];
        prev := prev[list := t];
        list' := list;
        Appended(old(next), old(prev), next, prev, s, t);
      }
    }

    /** Removes `t` from its ring; the head moves on if it is the one removed. */
    method ListRemove(list: nat, t: nat, ghost s: seq<nat>, ghost k: nat) returns (list': nat)
      requires Ring(next, prev, s) && k < |s| && s[k] == t && (list == Head(s) || list == t)
      modifies this
      ensures SameLinks(old(next), old(prev), next, prev, s)
      ensures Ring(next, prev, Without(s, k)) && next[t] == 0 && prev[t] == 0
      ensures list' == if |s| == 1 then 0 else if list == t then s[Succ(k, |s|)] else list
    {
      assert Succ(if k == 0 then |s| - 1 else k - 1, |s|) == k;
      var n, p := next[t], prev[t];
      list' := list;
      if n == t && p == t {
        list' := 0;
      } else {
        next := next[p := n];
        prev := prev[n := p];
        if t == list {
          list' := n;
        }
      }
      next, prev := next[t := 0], prev[t := 0];
      Removed(old(next), old(prev), next, prev, s, k);
    }
  }

  lemma Appended(next: seq<nat>, prev: seq<nat>, next': seq<nat>, prev': seq<nat>, s: seq<nat>, t: nat)
    requires Ring(next, prev, s) && s != [] && t !in s && 0 < t < |next|
    requires next' == next[s[|s| - 1] := t][t := s[0]] && prev' == prev[t := s[|s| - 1]][s[0] := t]
    ensures Ring(next', prev', s + [t])
  {
    var r := s + [t];
    forall i | 0 <= i < |r|
      ensures next'[r[i]] == r[Succ(i, |r|)] && prev'[r[Succ(i, |r|)]] == r[i]
    {
      if i + 1 < |s| {
        assert Succ(i, |s|) == i + 1;
      }
    }
  }

  /** The place in `s` of what is at `i` in `s` without its element `k`. */
  function Skip(i: nat, k: nat): nat {
    if i < k then i else i + 1
  }

  lemma WithoutAt(s: seq<nat>, k: nat)
    requires k < |s|
    ensures |Without(s, k)| == |s| - 1
    ensures forall i :: 0 <= i < |s| - 1 ==> Skip(i, k) < |s| && Without(s, k)[i] == s[Skip(i, k)]
  {
  }

  /** The next place but for the one left out. */
  lemma SkipSucc(i: nat, k: nat, n: nat)
    requires i < n - 1 && k < n
    ensures var i', j' := Skip(i, k), Skip(Succ(i, n - 1), k);
      && i' != k && j' != k && i' < n && j' < n
      && (if Succ(i', n) == k then j' == Succ(k, n) && i' == (if k == 0 then n - 1 else k - 1) else j' == Succ(i', n))
  {
  }

  /** The links after taking out the element `k`: those of its neighbours lead across it. */
  predicate TakenOut(next: seq<nat>, prev: seq<nat>, next': seq<nat>, prev': seq<nat>, s: seq<nat>, k: nat)
    requires Ring(next, prev, s) && k < |s|
  {
    var p, n := s[if k == 0 then |s| - 1 else k - 1], s[Succ(k, |s|)];
    && next' == (if |s| == 1 then next else next[p := n])[s[k] := 0]
    && prev' == (if |s| == 1 then prev else prev[n := p])[s[k] := 0]
  }

  lemma Removed(next: seq<nat>, prev: seq<nat>, next': seq<nat>, prev': seq<nat>, s: seq<nat>, k: nat)
    requires Ring(next, prev, s) && k < |s| && TakenOut(next, prev, next', prev', s, k)
    ensures Ring(next', prev', Without(s, k))
  {
    hide Without, Succ, TakenOut, Skip;
    var r := Without(s, k);
    WithoutAt(s, k);
    WithoutDistinct(s, k);
    SameLength(next, prev, next', prev', s, k);
    forall i | 0 <= i < |r|
      ensures Succ(i, |r|) < |r| && 0 < r[i] < |next| && r[Succ(i, |r|)] < |next|
      ensures next'[r[i]] == r[Succ(i, |r|)] && prev'[r[Succ(i, |r|)]] == r[i]
    {
      RemovedLink(next, prev, next', prev', s, k, i);
    }
  }

  lemma SameLength(next: seq<nat>, prev: seq<nat>, next': seq<nat>, prev': seq<nat>, s: seq<nat>, k: nat)
    requires Ring(next, prev, s) && k < |s| && TakenOut(next, prev, next', prev', s, k)
    ensures |next'| == |prev'| == |next|
  {
  }

  lemma RemovedLink(next: seq<nat>, prev: seq<nat>, next': seq<nat>, prev': seq<nat>, s: seq<nat>, k: nat, i: nat)
    requires Ring(next, prev, s) && k < |s| && TakenOut(next, prev, next', prev', s, k) && i < |s| - 1
    ensures var r := Without(s, k); var j := Succ(i, |s| - 1);
      && |r| == |s| - 1 && j < |r| && 0 < r[i] < |next| && r[j] < |next| && |next'| == |prev'| == |next|
      && next'[r[i]] == r[j] && prev'[r[j]] == r[i]
  {
    hide Without, Skip, Succ;
    WithoutAt(s, k);
    SuccBelow(i, |s| - 1);
    SkipSucc(i, k, |s|);
    LinkRemoved(next, prev, next', prev', s, k, Skip(i, k), Skip(Succ(i, |s| - 1), k));
  }

  /** One link after the removal: the old one, or that across the gap. */
  lemma LinkRemoved(next: seq<nat>, prev: seq<nat>, next': seq<nat>, prev': seq<nat>, s: seq<nat>, k: nat, i: nat, j: nat)
    requires Ring(next, prev, s) && k < |s| && i < |s| && j < |s| && i != k && j != k && |s| > 1
    requires if Succ(i, |s|) == k then j == Succ(k, |s|) && i == (if k == 0 then |s| - 1 else k - 1) else j == Succ(i, |s|)
    requires TakenOut(next, prev, next', prev', s, k)
    ensures |next'| == |prev'| == |next| && s[i] < |next| && s[j] < |next|
    ensures next'[s[i]] == s[j] && prev'[s[j]] == s[i]
  {
    var p := if k == 0 then |s| - 1 else k - 1;
    assert s[i] != s[k] && s[j] != s[k];
    if i != p {
      assert s[i] != s[p];
    }
    if j != Succ(k, |s|) {
      assert s[j] != s[Succ(k, |s|)];
    }
  }

  lemma WithoutDistinct(s: seq<nat>, k: nat)
    requires Distinct(s) && k < |s|
    ensures Distinct(Without(s, k))
  {
    WithoutAt(s, k);
  }

  lemma SuccBelow(i: nat, n: nat)
    requires i < n
    ensures Succ(i, n) < n
  {
  }
}
