/** The exit handlers of stdlib/atexit.c: nodes of slots, registered into from below and walked from above, by handlers
    that register and finalize themselves. */
module Atexit {
  const MAX: nat := 32   // slots of a node

  /** What was registered. A handle is 0 if there is none. */
  datatype Registration = Registration(isarg: bool, fn: nat, arg: int, handle: nat)

  /** What happens to a list, in order. A call is of the registration that is the event number `id`. */
  datatype Event =
    | Registered(what: Registration)
    | Called(id: nat, isarg: bool, fn: nat, arg: int)
    | Entered(handle: nat)   // a finalization begins
    | Left                   // the innermost one ends

  /** What a handler does when it runs; `memory` tells whether a node could be allocated. */
  datatype Act = Register(what: Registration, memory: bool) | Finalize(handle: nat)

  predicate Matches(handle: nat, filter: nat) {
    filter == 0 || handle == filter
  }

  // ----- Traces -----

  /** The handles of the finalizations under way, the innermost last. */
  function Stack(tr: seq<Event>): seq<nat> {
    if tr == [] then []
    else
      var s := Stack(tr[..|tr| - 1]);
      match tr[|tr| - 1]
      case Entered(h) => s + [h]
      case Left => if s == [] then [] else s[..|s| - 1]
      case _ => s
  }

  /** The innermost finalization under way is for `filter`. */
  predicate Serves(tr: seq<Event>, filter: nat) {
    Stack(tr) != [] && Stack(tr)[|Stack(tr)| - 1] == filter
  }

  predicate CalledIn(tr: seq<Event>, id: nat) {
    exists k :: 0 <= k < |tr| && tr[k].Called? && tr[k].id == id
  }

  /** Registered and not called yet. */
  predicate PendingIn(tr: seq<Event>, id: nat) {
    id < |tr| && tr[id].Registered? && !CalledIn(tr, id)
  }

  /** The call `c` after `tr` goes to the most recently registered pending function that the innermost finalization is for. */
  ghost predicate CallOk(tr: seq<Event>, c: Event)
    requires c.Called?
  {
    && Stack(tr) != [] && PendingIn(tr, c.id) && Of(c, tr[c.id].what)
    && var filter := Stack(tr)[|Stack(tr)| - 1];
      && Matches(tr[c.id].what.handle, filter)
      && forall i: nat :: i > c.id && PendingIn(tr, i) ==> !Matches(tr[i].what.handle, filter)
  }

  ghost predicate CallOkAt(tr: seq<Event>, k: nat)
    requires k < |tr|
  {
    tr[k].Called? ==> CallOk(tr[..k], tr[k])
  }

  ghost predicate Lawful(tr: seq<Event>) {
    forall k :: 0 <= k < |tr| ==> CallOkAt(tr, k)
  }

  predicate Of(c: Event, r: Registration)
    requires c.Called?
  {
    c.isarg == r.isarg && c.fn == r.fn && c.arg == r.arg
  }

  lemma LawfulAppend(tr: seq<Event>, e: Event)
    requires Lawful(tr) && (e.Called? ==> CallOk(tr, e))
    ensures Lawful(tr + [e])
  {
    hide CallOk;
    var tr' := tr + [e];
    forall k | 0 <= k < |tr'|
      ensures CallOkAt(tr', k)
    {
      assert tr'[..k] == tr[..k];
      if k < |tr| {
        assert CallOkAt(tr, k);
      } else {
        assert tr[..k] == tr;
      }
    }
  }

  lemma StackAppend(tr: seq<Event>, e: Event)
    ensures e.Registered? || e.Called? ==> Stack(tr + [e]) == Stack(tr)
    ensures e.Entered? ==> Stack(tr + [e]) == Stack(tr) + [e.handle]
    ensures e.Left? && Stack(tr) != [] ==> Stack(tr + [e]) == Stack(tr)[..|Stack(tr)| - 1]
  {
    assert (tr + [e])[..|tr|] == tr;
  }

  lemma PendingAppend(tr: seq<Event>, e: Event)
    ensures forall i: nat :: PendingIn(tr + [e], i) <==>
      (PendingIn(tr, i) && !(e.Called? && e.id == i)) || (i == |tr| && e.Registered? && !CalledIn(tr, i))
  {
    var tr' := tr + [e];
    forall i: nat
      ensures CalledIn(tr', i) <==> CalledIn(tr, i) || (e.Called? && e.id == i)
    {
      if CalledIn(tr, i) {
        var k :| 0 <= k < |tr| && tr[k].Called? && tr[k].id == i;
        assert tr'[k].Called? && tr'[k].id == i;
      }
      if e.Called? && e.id == i {
        assert tr'[|tr|].Called?;
      }
    }
  }

  /** Calls are of what was registered before. */
  lemma NotCalledYet(tr: seq<Event>, id: nat)
    requires Lawful(tr) && id >= |tr|
    ensures !CalledIn(tr, id)
  {
    forall k | 0 <= k < |tr| && tr[k].Called?
      ensures tr[k].id < k
    {
      assert CallOkAt(tr, k);
    }
  }

  /** All between two traces happens inside what was under way before. */
  ghost predicate Inside(tr: seq<Event>, tr': seq<Event>) {
    tr <= tr' && Stack(tr') == Stack(tr) && forall n :: |tr| <= n <= |tr'| ==> Stack(tr) <= Stack(tr'[..n])
  }

  lemma InsideSame(tr: seq<Event>)
    ensures Inside(tr, tr)
  {
    assert tr[..|tr|] == tr;
  }

  lemma InsideLonger(tr: seq<Event>, tr': seq<Event>)
    requires Inside(tr, tr')
    ensures |tr| <= |tr'|
  {
  }

  lemma InsideTrans(tr: seq<Event>, mid: seq<Event>, tr': seq<Event>)
    requires Inside(tr, mid) && Inside(mid, tr')
    ensures Inside(tr, tr')
  {
    hide Stack;
    forall n | |tr| <= n <= |tr'|
      ensures Stack(tr) <= Stack(tr'[..n])
    {
      if n <= |mid| {
        assert tr'[..n] == mid[..n];
      }
    }
  }

  lemma InsideOne(tr: seq<Event>, e: Event)
    requires e.Registered? || e.Called?
    ensures Inside(tr, tr + [e])
  {
    var tr' := tr + [e];
    StackAppend(tr, e);
    hide Stack;
    forall n | |tr| <= n <= |tr'|
      ensures Stack(tr) <= Stack(tr'[..n])
    {
      assert tr'[..n] == if n == |tr| then tr else tr';
    }
  }

  /** One whole finalization for `h` after `tr`. */
  ghost predicate Bracketed(tr: seq<Event>, h: nat, tr': seq<Event>) {
    tr' != [] && tr'[|tr'| - 1] == Left && Inside(tr + [Entered(h)], tr'[..|tr'| - 1])
  }

  lemma BracketedInside(tr: seq<Event>, h: nat, tr': seq<Event>)
    requires Bracketed(tr, h, tr')
    ensures Inside(tr, tr')
  {
    var begun, mid := tr + [Entered(h)], tr'[..|tr'| - 1];
    StackAppend(tr, Entered(h));
    StackAppend(mid, Left);
    assert tr' == mid + [Left];
    hide Stack;
    forall n | |tr| <= n <= |tr'|
      ensures Stack(tr) <= Stack(tr'[..n])
    {
      if n == |tr| {
        assert tr'[..n] == tr;
      } else if n < |tr'| {
        assert tr'[..n] == mid[..n];
      } else {
        assert tr'[..n] == tr';
      }
    }
  }

  /**
   * The calls a finalization makes itself, not those of one that a handler starts, go to functions of its handle, each
   * the last registered of those that are pending then, whatever was registered and called on the way.
   */
  lemma OwnCalls(tr: seq<Event>, h: nat, tr': seq<Event>, k: nat)
    requires Lawful(tr') && Bracketed(tr, h, tr') && |tr| < k < |tr'| && tr'[k].Called?
    requires |Stack(tr'[..k])| == |Stack(tr)| + 1
    ensures var id := tr'[k].id;
      && PendingIn(tr'[..k], id) && Matches(tr'[id].what.handle, h)
      && forall i: nat :: i > id && PendingIn(tr'[..k], i) ==> !Matches(tr'[i].what.handle, h)
  {
    StackAppend(tr, Entered(h));
    hide Stack;
    assert CallOkAt(tr', k);
    assert tr'[..|tr'| - 1][..k] == tr'[..k];
    assert Stack(tr'[..k]) == Stack(tr) + [h];
  }

  function Count(d: seq<nat>): nat {
    if d == [] then 0 else (if d[0] != 0 then 1 else 0) + Count(d[1..])
  }

  lemma {:induction false} CountCleared(d: seq<nat>, p: nat)
    requires p < |d| && d[p] != 0
    ensures Count(d[p := 0]) == Count(d) - 1
  {
    if p == 0 {
      assert d[p := 0][1..] == d[1..];
    } else {
      CountCleared(d[1..], p - 1);
      assert d[p := 0][1..] == d[1..][p - 1 := 0];
    }
  }

  /** The acts that handlers have yet to do. */
  function Acts(oracle: seq<seq<Act>>): nat {
    if oracle == [] then 0 else |oracle[0]| + Acts(oracle[1..])
  }

  /** Slots have only been cleared. */
  predicate Cleared(d: seq<nat>, d': seq<nat>) {
    |d'| == |d| && forall p :: 0 <= p < |d| ==> d'[p] == d[p] || d'[p] == 0
  }

  /** Whether a slot holds the registration `id`. */
  ghost predicate Holds(d: seq<nat>, ids: seq<nat>, id: nat)
    requires |d| == |ids|
  {
    exists p :: 0 <= p < |ids| && d[p] != 0 && ids[p] == id
  }

  lemma HoldsPut(d: seq<nat>, ids: seq<nat>, p: nat, fn: nat, id: nat)
    requires |d| == |ids| && p < |d| && d[p] == 0 && fn != 0
    ensures forall x: nat :: Holds(d[p := fn], ids[p := id], x) <==> Holds(d, ids, x) || x == id
  {
    var d', ids' := d[p := fn], ids[p := id];
    forall x: nat
      ensures Holds(d', ids', x) <==> Holds(d, ids, x) || x == id
    {
      if Holds(d, ids, x) {
        var q :| 0 <= q < |ids| && d[q] != 0 && ids[q] == x;
        assert d'[q] != 0 && ids'[q] == x;
      }
      if x == id {
        assert d'[p] != 0 && ids'[p] == x;
      }
      if Holds(d', ids', x) && x != id {
        var q :| 0 <= q < |ids'| && d'[q] != 0 && ids'[q] == x;
        assert d[q] != 0 && ids[q] == x;
      }
    }
  }

  lemma HoldsMore(d: seq<nat>, ids: seq<nat>, none: seq<nat>, more: seq<nat>)
    requires |d| == |ids| && |none| == |more| && forall p :: 0 <= p < |none| ==> none[p] == 0
    ensures forall x: nat :: Holds(d + none, ids + more, x) <==> Holds(d, ids, x)
  {
    forall x: nat
      ensures Holds(d + none, ids + more, x) <==> Holds(d, ids, x)
    {
      if Holds(d, ids, x) {
        var q :| 0 <= q < |ids| && d[q] != 0 && ids[q] == x;
        assert (d + none)[q] != 0 && (ids + more)[q] == x;
      }
    }
  }

  lemma HoldsCleared(d: seq<nat>, ids: seq<nat>, p: nat)
    requires |d| == |ids| && p < |d| && d[p] != 0
    requires forall q, r :: 0 <= q < r < |d| && d[q] != 0 && d[r] != 0 ==> ids[q] < ids[r]
    ensures forall x: nat :: Holds(d[p := 0], ids, x) <==> Holds(d, ids, x) && x != ids[p]
  {
    forall x: nat
      ensures Holds(d[p := 0], ids, x) <==> Holds(d, ids, x) && x != ids[p]
    {
      if Holds(d, ids, x) && x != ids[p] {
        var q :| 0 <= q < |ids| && d[q] != 0 && ids[q] == x;
        assert d[p := 0][q] != 0 && ids[q] == x;
      }
    }
  }

  /** The slots hold what is pending. */
  ghost predicate Conserved(d: seq<nat>, ids: seq<nat>, tr: seq<Event>)
    requires |d| == |ids|
  {
    forall id: nat :: Holds(d, ids, id) <==> PendingIn(tr, id)
  }

  /** What is pending is in the order of registration. */
  ghost predicate InOrder(d: seq<nat>, ids: seq<nat>, n: nat)
    requires |d| == |ids|
  {
    && (forall p :: 0 <= p < |d| && d[p] != 0 ==> ids[p] < n)
    && (forall p, q :: 0 <= p < q < |d| && d[p] != 0 && d[q] != 0 ==> ids[p] < ids[q])
  }

  function SlotHas(isarg: bool, fn: nat, arg: int, handle: nat): Registration {
    Registration(isarg, fn, if isarg then arg else 0, handle)
  }

  lemma ConservedPut(d: seq<nat>, ids: seq<nat>, tr: seq<Event>, p: nat, fn: nat, r: Registration)
    requires |d| == |ids| && p < |d| && d[p] == 0 && fn != 0 && Conserved(d, ids, tr) && Lawful(tr)
    ensures Conserved(d[p := fn], ids[p := |tr|], tr + [Registered(r)])
  {
    hide Holds, PendingIn, CalledIn;
    HoldsPut(d, ids, p, fn, |tr|);
    PendingAppend(tr, Registered(r));
    NotCalledYet(tr, |tr|);
  }

  /** The beginning and the end of a finalization are neither registrations nor calls. */
  lemma ConservedMark(d: seq<nat>, ids: seq<nat>, tr: seq<Event>, e: Event)
    requires |d| == |ids| && Conserved(d, ids, tr) && (e.Entered? || e.Left?)
    ensures Conserved(d, ids, tr + [e])
  {
    hide Holds, PendingIn;
    PendingAppend(tr, e);
  }

  lemma InOrderPut(d: seq<nat>, ids: seq<nat>, p: nat, fn: nat, n: nat)
    requires |d| == |ids| && p < |d| && InOrder(d, ids, n) && forall q :: p <= q < |d| ==> d[q] == 0
    ensures InOrder(d[p := fn], ids[p := n], n + 1)
  {
  }

  lemma ConservedMore(d: seq<nat>, ids: seq<nat>, none: seq<nat>, more: seq<nat>, tr: seq<Event>)
    requires |d| == |ids| && |none| == |more| && forall p :: 0 <= p < |none| ==> none[p] == 0
    requires Conserved(d, ids, tr)
    ensures Conserved(d + none, ids + more, tr)
  {
    hide Holds, PendingIn;
    HoldsMore(d, ids, none, more);
  }

  lemma InOrderMore(d: seq<nat>, ids: seq<nat>, none: seq<nat>, more: seq<nat>, n: nat)
    requires |d| == |ids| && |none| == |more| && forall p :: 0 <= p < |none| ==> none[p] == 0
    requires InOrder(d, ids, n)
    ensures InOrder(d + none, ids + more, n)
  {
  }

  lemma ConservedCall(d: seq<nat>, ids: seq<nat>, tr: seq<Event>, p: nat, c: Event)
    requires |d| == |ids| && p < |d| && d[p] != 0 && InOrder(d, ids, |tr|) && Conserved(d, ids, tr) && c.Called? && c.id == ids[p]
    ensures Conserved(d[p := 0], ids, tr + [c])
  {
    hide Holds, PendingIn;
    HoldsCleared(d, ids, p);
    PendingAppend(tr, c);
  }

  // ----- What handlers do, in the trace -----

  /** What the next handler that runs will do, and those after it. */
  function Head(oracle: seq<seq<Act>>): seq<Act> {
    if oracle == [] then [] else oracle[0]
  }

  function Tail(oracle: seq<seq<Act>>): (rest: seq<seq<Act>>)
    ensures |Head(oracle)| + Acts(rest) == Acts(oracle)
  {
    if oracle == [] then [] else oracle[1..]
  }

  /** A function is registered, unless it is null or there is no memory for it. */
  predicate Registers(what: Registration, memory: bool, tr: seq<Event>, tr': seq<Event>) {
    if what.fn == 0 then tr' == tr
    else tr' == tr + [Registered(Registration(what.isarg, what.fn, if what.isarg then what.arg else 0, what.handle))]
         || (!memory && tr' == tr)
  }

  /** From `tr` to `tr'` a handler does `acts`, and handlers called on the way what `oracle` says; `rest` is left of that. */
  ghost predicate Performs(acts: seq<Act>, oracle: seq<seq<Act>>, tr: seq<Event>, tr': seq<Event>, rest: seq<seq<Act>>)
    decreases |acts| + Acts(oracle), |tr'| - |tr|, 0
  {
    if acts == [] then tr' == tr && rest == oracle
    else
      match acts[0]
      case Register(what, memory) =>
        exists mid :: Registers(what, memory, tr, mid) && Performs(acts[1..], oracle, mid, tr', rest)
      case Finalize(h) =>
        exists mid, left :: Acts(left) <= Acts(oracle) && Works(oracle, tr + [Entered(h)], mid, left)
                         && Performs(acts[1..], left, mid + [Left], tr', rest)
  }

  /** From `tr` to `tr'` functions are called, each of which at once does what is next in `oracle`. */
  ghost predicate Works(oracle: seq<seq<Act>>, tr: seq<Event>, tr': seq<Event>, rest: seq<seq<Act>>)
    decreases Acts(oracle), |tr'| - |tr|, 1
  {
    || (tr' == tr && rest == oracle)
    || exists c, mid, left :: WorksFirst(oracle, tr, tr', c, mid, left) && Works(left, mid, tr', rest)
  }

  ghost predicate WorksFirst(oracle: seq<seq<Act>>, tr: seq<Event>, tr': seq<Event>, c: Event, mid: seq<Event>, left: seq<seq<Act>>)
    decreases Acts(oracle), |tr'| - |tr|, 0
  {
    && c.Called? && |tr| < |mid| <= |tr'| && Acts(left) <= Acts(oracle)
    && Performs(Head(oracle), Tail(oracle), tr + [c], mid, left)
  }

  lemma WorksNone(oracle: seq<seq<Act>>, tr: seq<Event>)
    ensures Works(oracle, tr, tr, oracle)
  {
  }

  lemma PerformsNothing(oracle: seq<seq<Act>>, tr: seq<Event>)
    ensures Performs([], oracle, tr, tr, oracle)
  {
  }

  lemma WorksCall(oracle: seq<seq<Act>>, tr: seq<Event>, c: Event, tr': seq<Event>, rest: seq<seq<Act>>)
    requires c.Called? && |tr| < |tr'| && Acts(rest) <= Acts(oracle)
    requires Performs(Head(oracle), Tail(oracle), tr + [c], tr', rest)
    ensures Works(oracle, tr, tr', rest)
  {
    hide Performs;
    WorksNone(rest, tr');
    assert WorksFirst(oracle, tr, tr', c, tr', rest);
  }

  lemma {:induction false} WorksTrans(oracle: seq<seq<Act>>, tr: seq<Event>, mid: seq<Event>, left: seq<seq<Act>>, tr': seq<Event>,
                                      rest: seq<seq<Act>>)
    requires Works(oracle, tr, mid, left) && Works(left, mid, tr', rest) && |mid| <= |tr'|
    ensures Works(oracle, tr, tr', rest)
    decreases Acts(oracle), |mid| - |tr|
  {
    hide Performs;
    if !(mid == tr && left == oracle) {
      var c, m, l :| WorksFirst(oracle, tr, mid, c, m, l) && Works(l, m, mid, left);
      WorksTrans(l, m, mid, left, tr', rest);
      assert WorksFirst(oracle, tr, tr', c, m, l);
    }
  }

  lemma PerformsRegister(acts: seq<Act>, oracle: seq<seq<Act>>, tr: seq<Event>, mid: seq<Event>, tr': seq<Event>,
                         rest: seq<seq<Act>>)
    requires acts != [] && acts[0].Register? && Registers(acts[0].what, acts[0].memory, tr, mid)
    requires Performs(acts[1..], oracle, mid, tr', rest)
    ensures Performs(acts, oracle, tr, tr', rest)
  {
    hide Registers;
  }

  lemma PerformsFinalize(acts: seq<Act>, oracle: seq<seq<Act>>, tr: seq<Event>, mid: seq<Event>, left: seq<seq<Act>>,
                         tr': seq<Event>, rest: seq<seq<Act>>)
    requires acts != [] && acts[0].Finalize? && Acts(left) <= Acts(oracle)
    requires Works(oracle, tr + [Entered(acts[0].handle)], mid, left) && Performs(acts[1..], left, mid + [Left], tr', rest)
    ensures Performs(acts, oracle, tr, tr', rest)
  {
    hide Works;
  }

  /** The nodes of a list one after another, the top one last. */
  class ExitList {
    const hasStatic: bool        // the lowest node is static
    var destructors: seq<nat>    // 0 is the null pointer
    var args: seq<int>
    var handles: seq<nat>
    var fntype: seq<bool>
    var usedCnt: nat             // slots used in the top node
    var modCnt: nat              // registrations and node releases
    ghost var ids: seq<nat>      // the number of the registration in a slot
    ghost var trace: seq<Event>

    constructor (static_: bool)
      ensures Valid() && trace == [] && usedCnt == 0 && |destructors| == if static_ then 32 else 0
    {
      hasStatic := static_;
      var n := if static_ then MAX else 0;
      destructors, args, handles, fntype := seq(n, _ => 0), seq(n, _ => 0), seq(n, _ => 0), seq(n, _ => false);
      usedCnt, modCnt := 0, 0;
      ids, trace := seq(n, _ => 0), [];
    }

    ghost predicate Shaped()
      reads this
    {
      && |destructors| % MAX == 0 && |args| == |handles| == |fntype| == |ids| == |destructors|
      && (|destructors| == 0 ==> !hasStatic)
    }

    /** The slots from `usedCnt` on in the top node are free. */
    ghost predicate TopFree()
      reads this
    {
      && usedCnt <= MAX && (|destructors| == 0 ==> usedCnt == 0)
      && forall p :: 0 <= p < |destructors| && p >= |destructors| - MAX + usedCnt ==> destructors[p] == 0
    }

    ghost predicate AsBooked()
      requires Shaped()
      reads this
    {
      forall p :: 0 <= p < |ids| && destructors[p] != 0 && ids[p] < |trace| ==>
        trace[ids[p]] == Registered(SlotHas(fntype[p], destructors[p], args[p], handles[p]))
    }

    ghost predicate Valid()
      reads this
    {
      Kept() && TopFree()
    }

    /** What holds even before the slots in use are counted again. */
    ghost predicate Kept()
      reads this
    {
      Shaped() && AsBooked() && InOrder(destructors, ids, |trace|) && Conserved(destructors, ids, trace) && Lawful(trace)
    }

    /** One more node, empty, on top. */
    method AddNode()
      requires Valid() && (|destructors| == 0 || usedCnt >= MAX)
      modifies this
      ensures Valid() && trace == old(trace) && modCnt == old(modCnt)
      ensures |destructors| == |old(destructors)| + MAX && usedCnt == 0 && Count(destructors) == old(Count(destructors))
    {
      hide Conserved, Lawful, Count, InOrder;
      ghost var none: seq<nat> := seq(MAX, _ => 0);
      ConservedMore(destructors, ids, none, none, trace);
      InOrderMore(destructors, ids, none, none, |trace|);
      CountMore(destructors, none);
      destructors, args, handles, fntype := destructors + seq(MAX, _ => 0), args + seq(MAX, _ => 0),
        handles + seq(MAX, _ => 0), fntype + seq(MAX, _ => false);
      assert destructors == old(destructors) + none;
      ids := ids + none;
      usedCnt := 0;
    }

    /** Registers a function; fails if a node is needed and there is no memory. */
    method Register(isarg: bool, fn: nat, arg: int, handle: nat, memory: bool) returns (r: int)
      requires Valid() && fn != 0
      modifies this
      ensures Valid() && modCnt >= old(modCnt) && (r == 0 || r == -1)
      ensures r == 0 ==>
        modCnt == old(modCnt) + 1 && trace == old(trace) + [Registered(Registration(isarg, fn, if isarg then arg else 0, handle))]
      ensures var full := |old(destructors)| == 0 || old(usedCnt) >= 32;
        (r == -1 <==> full && !memory) && (r == 0 ==> |destructors| == |old(destructors)| + if full then 32 else 0)
      ensures r == -1 ==> trace == old(trace) && modCnt == old(modCnt) && usedCnt == old(usedCnt)
      ensures r == -1 ==> destructors == old(destructors) && handles == old(handles)
    {
      hide Conserved, Lawful, Count, InOrder, AsBooked;
      if |destructors| == 0 || usedCnt >= MAX {
        if !memory {
          return -1;
        }
        AddNode();
      }
      ghost var p, what := |destructors| - MAX + usedCnt, SlotHas(isarg, fn, arg, handle);
      ConservedPut(destructors, ids, trace, p, fn, what);
      LawfulAppend(trace, Registered(what));
      InOrderPut(destructors, ids, p, fn, |trace|);
      Put(isarg, fn, arg, handle);
      r := 0;
    }

    /** The top node's next slot taken. */
    method Put(isarg: bool, fn: nat, arg: int, handle: nat)
      requires Shaped() && TopFree() && AsBooked() && InOrder(destructors, ids, |trace|)
      requires |destructors| > 0 && usedCnt < MAX && fn != 0
      modifies this
      ensures Shaped() && TopFree() && AsBooked() && modCnt == old(modCnt) + 1
      ensures trace == old(trace) + [Registered(SlotHas(isarg, fn, arg, handle))]
      ensures var p := old(|destructors| - MAX + usedCnt);
        0 <= p < |old(destructors)| && |destructors| == |old(destructors)| && destructors == old(destructors)[p := fn] && ids == old(ids)[p := |old(trace)|]
    {
      var p := |destructors| - MAX + usedCnt;
      if isarg {
        fntype, args := fntype[p := true], args[p := arg];
      } else {
        fntype, args := fntype[p := false], args[p := 0];
      }
      destructors, handles := destructors[p := fn], handles[p := handle];
      ids, trace := ids[p := |trace|], trace + [Registered(SlotHas(isarg, fn, arg, handle))];
      usedCnt := usedCnt + 1;
      modCnt := modCnt + 1;
    }

    // ----- Finalizing -----

    /** No pending function from the slot `c` on matches. */
    ghost predicate NoneFrom(filter: nat, c: int)
      requires Shaped()
      reads this
    {
      forall p :: 0 <= p < |destructors| && p >= c && destructors[p] != 0 ==> !Matches(handles[p], filter)
    }

    /** The slot is cleared before its function is called. */
    method MarkCalled(p: nat, filter: nat)
      requires Valid() && p < |destructors| && destructors[p] != 0 && Matches(handles[p], filter) && NoneFrom(filter, p + 1)
      requires Serves(trace, filter)
      modifies this
      ensures Valid() && NoneFrom(filter, p) && modCnt == old(modCnt) && handles == old(handles)
      ensures destructors == old(destructors)[p := 0] && Count(destructors) == old(Count(destructors)) - 1
      ensures |trace| == |old(trace)| + 1 && trace[..|old(trace)|] == old(trace) && trace[|old(trace)|].Called?
      ensures CallOk(old(trace), trace[|old(trace)|]) && Inside(old(trace), trace)
      ensures trace == old(trace) + [trace[|old(trace)|]]
    {
      hide Conserved, Lawful, CallOk, Serves, Inside;
      ghost var c := Called(ids[p], fntype[p], destructors[p], if fntype[p] then args[p] else 0);
      LatestAt(p, filter, c);
      ConservedCall(destructors, ids, trace, p, c);
      LawfulAppend(trace, c);
      InsideOne(trace, c);
      CountCleared(destructors, p);
      destructors := destructors[p := 0];
      trace := trace + [c];
    }

    /** What is pending, and in which slot. */
    lemma SlotOf(id: nat) returns (p: nat)
      requires Kept() && PendingIn(trace, id)
      ensures p < |destructors| && destructors[p] != 0 && ids[p] == id && trace[id].what.handle == handles[p]
    {
      assert Holds(destructors, ids, id);
      p :| p < |ids| && destructors[p] != 0 && ids[p] == id;
    }

    lemma LatestAt(p: nat, filter: nat, c: Event)
      requires Valid() && p < |destructors| && destructors[p] != 0 && Matches(handles[p], filter) && NoneFrom(filter, p + 1)
      requires c == Called(ids[p], fntype[p], destructors[p], if fntype[p] then args[p] else 0) && Serves(trace, filter)
      ensures CallOk(trace, c)
    {
      hide Stack, Lawful;
      assert Holds(destructors, ids, ids[p]);
      assert PendingIn(trace, c.id);
      forall i: nat | i > c.id && PendingIn(trace, i)
        ensures !Matches(trace[i].what.handle, filter)
      {
        var q := SlotOf(i);
        assert q > p;
      }
    }

    /** With no slot left that matches, no registration is left that does. */
    lemma NoneLeft(filter: nat)
      requires Kept() && NoneFrom(filter, 0)
      ensures forall i: nat :: PendingIn(trace, i) ==> !Matches(trace[i].what.handle, filter)
    {
      hide Conserved, Lawful;
      forall i: nat | PendingIn(trace, i)
        ensures !Matches(trace[i].what.handle, filter)
      {
        var p := SlotOf(i);
      }
    }

    /** Some slot of the top node is in use. */
    static predicate TopInUse(d: seq<nat>) {
      |d| >= 32 && exists p :: |d| - 32 <= p < |d| && d[p] != 0
    }

    /** Releases the empty nodes at the top, but not the static one, and finds the last slot in use. */
    method Release()
      requires Kept()
      modifies this
      ensures Valid() && trace == old(trace) && modCnt >= old(modCnt)
      ensures Count(destructors) == old(Count(destructors))
      ensures |destructors| <= |old(destructors)| && destructors == old(destructors)[..|destructors|]
      ensures |handles| <= |old(handles)| && handles == old(handles)[..|handles|]
      ensures 32 * (modCnt - old(modCnt)) == |old(destructors)| - |destructors|
      ensures |destructors| == (if hasStatic then 32 else 0) || TopInUse(destructors)
      ensures usedCnt > 0 ==> |destructors| >= 32 && destructors[|destructors| - 32 + usedCnt - 1] != 0
    {
      hide Conserved, Lawful, Count;
      assert destructors == destructors[..|destructors|] && handles == handles[..|handles|];
      var low := if hasStatic then MAX else 0;
      var more := true;
      while |destructors| != low && more
        invariant Kept() && trace == old(trace) && low <= |destructors| <= |old(destructors)|
        invariant modCnt >= old(modCnt) && Count(destructors) == old(Count(destructors))
        invariant destructors == old(destructors)[..|destructors|] && handles == old(handles)[..|destructors|]
        invariant MAX * (modCnt - old(modCnt)) == |old(destructors)| - |destructors|
        invariant !more ==> TopInUse(destructors)
        decreases |destructors|, more
      {
        var top := |destructors| - MAX;
        var i := 0;
        while i < MAX && destructors[top + i] == 0
          invariant 0 <= i <= MAX && forall j :: top <= j < top + i ==> destructors[j] == 0
        {
          i := i + 1;
        }
        if i == MAX {
          Pop(top);
        } else {
          more := false;
        }
      }
      FindUsed();
    }

    /** The slots of the top node up to the highest in use count as used. */
    method FindUsed()
      requires Kept()
      modifies `usedCnt
      ensures Valid() && (usedCnt > 0 ==> |destructors| >= 32 && destructors[|destructors| - 32 + usedCnt - 1] != 0)
    {
      hide Conserved, Lawful, Count, InOrder;
      if |destructors| == 0 {
        usedCnt := 0;
      } else {
        var top, i := |destructors| - MAX, MAX;
        while i > 0 && destructors[top + i - 1] == 0
          invariant 0 <= i <= MAX && forall j :: top + i <= j < |destructors| ==> destructors[j] == 0
        {
          i := i - 1;
        }
        usedCnt := i;
      }
    }

    /** The top node, which is empty, is released. */
    method Pop(top: nat)
      requires Kept()
      requires |destructors| == top + MAX && (hasStatic ==> top > 0) && forall j :: top <= j < |destructors| ==> destructors[j] == 0
      modifies this
      ensures Kept() && trace == old(trace) && modCnt == old(modCnt) + 1 && Count(destructors) == old(Count(destructors))
      ensures destructors == old(destructors)[..top] && handles == old(handles)[..top]
    {
      hide Conserved, Count, Lawful;
      ConservedLess(destructors, ids, top, trace);
      destructors, args, handles, fntype := destructors[..top], args[..top], handles[..top], fntype[..top];
      ids := ids[..top];
      modCnt := modCnt + 1;
    }

    /** One walk from the top node down. It has to start again if the list was changed while a function ran. */
    method Walk(filter: nat, oracle: seq<seq<Act>>) returns (rest: seq<seq<Act>>, restart: bool)
      requires Valid() && Serves(trace, filter)
      modifies this
      ensures Valid() && Inside(old(trace), trace) && modCnt >= old(modCnt)
      ensures !restart ==> modCnt == old(modCnt) && NoneFrom(filter, 0)
      ensures modCnt == old(modCnt) ==> Cleared(old(destructors), destructors) && handles == old(handles)
      ensures Acts(rest) <= Acts(oracle) && (Acts(rest) == Acts(oracle) ==> Count(destructors) <= old(Count(destructors)))
      ensures restart ==> Acts(rest) < Acts(oracle) || Count(destructors) < old(Count(destructors))
      ensures Works(oracle, old(trace), trace, rest)
      decreases Acts(oracle), Count(destructors), 1
    {
      hide Conserved, Lawful, Count, Acts, AsBooked, InOrder, Inside, Serves, CallOk, Bracketed, Works, Performs;
      rest, restart := oracle, false;
      InsideSame(trace);
      WorksNone(oracle, trace);
      var node, i, saved := |destructors| / MAX - 1, usedCnt, modCnt;
      while node >= 0 && !restart
        invariant Valid() && Inside(old(trace), trace) && modCnt >= old(modCnt) == saved
        invariant -1 <= node && 0 <= i <= MAX && MAX * node + i <= |old(destructors)|
        invariant !restart ==> modCnt == saved && NoneFrom(filter, if node >= 0 then MAX * node + i else 0)
        invariant modCnt == saved ==> Cleared(old(destructors), destructors) && handles == old(handles)
        invariant Acts(rest) <= Acts(oracle) && (Acts(rest) == Acts(oracle) ==> Count(destructors) <= old(Count(destructors)))
        invariant restart ==> Acts(rest) < Acts(oracle) || Count(destructors) < old(Count(destructors))
        invariant Works(oracle, old(trace), trace, rest)
        decreases node, !restart
      {
        while i > 0 && !restart
          invariant Valid() && Inside(old(trace), trace) && modCnt >= old(modCnt) == saved
          invariant 0 <= i <= MAX && MAX * node + i <= |old(destructors)|
          invariant !restart ==> modCnt == saved && NoneFrom(filter, MAX * node + i)
          invariant modCnt == saved ==> Cleared(old(destructors), destructors) && handles == old(handles)
          invariant Acts(rest) <= Acts(oracle) && (Acts(rest) == Acts(oracle) ==> Count(destructors) <= old(Count(destructors)))
          invariant restart ==> Acts(rest) < Acts(oracle) || Count(destructors) < old(Count(destructors))
          invariant Works(oracle, old(trace), trace, rest)
          decreases i, !restart
        {
          i := i - 1;
          var p := MAX * node + i;
          if destructors[p] != 0 && (filter == 0 || filter == handles[p]) {
            ghost var before, left := trace, rest;
            InsideServes(old(trace), trace, filter);
            rest := Call(p, filter, rest);
            InsideTrans(old(trace), before, trace);
            InsideLonger(before, trace);
            WorksTrans(oracle, old(trace), before, left, trace, rest);
            restart := modCnt != saved;
          }
        }
        if !restart {
          node := node - 1;
          i := MAX;
        }
      }
    }

    /** The function in a slot is called, and does what it likes. */
    method Call(p: nat, filter: nat, oracle: seq<seq<Act>>) returns (rest: seq<seq<Act>>)
      requires Valid() && p < |destructors| && destructors[p] != 0 && Matches(handles[p], filter) && NoneFrom(filter, p + 1)
      requires Serves(trace, filter)
      modifies this
      ensures Valid() && Inside(old(trace), trace) && modCnt >= old(modCnt)
      ensures modCnt == old(modCnt) ==> Cleared(old(destructors), destructors) && handles == old(handles) && NoneFrom(filter, p)
      ensures Acts(rest) <= Acts(oracle) && (Acts(rest) == Acts(oracle) ==> Count(destructors) < old(Count(destructors)))
      ensures Works(oracle, old(trace), trace, rest)
      decreases Acts(oracle), Count(destructors), 0
    {
      hide Conserved, Lawful, Count, Acts, AsBooked, InOrder, Inside, Serves, CallOk, Bracketed, Works, Performs;
      MarkCalled(p, filter);
      ghost var begun := trace;
      rest := Run(Head(oracle), Tail(oracle));
      InsideTrans(old(trace), begun, trace);
      InsideLonger(begun, trace);
      WorksCall(oracle, old(trace), begun[|old(trace)|], trace, rest);
    }

    /** A handler runs: it registers and finalizes as it likes. */
    method Run(acts: seq<Act>, oracle: seq<seq<Act>>) returns (rest: seq<seq<Act>>)
      requires Valid()
      modifies this
      ensures Valid() && Inside(old(trace), trace) && modCnt >= old(modCnt)
      ensures modCnt == old(modCnt) ==> Cleared(old(destructors), destructors) && handles == old(handles)
      ensures Acts(rest) <= |acts| + Acts(oracle)
      ensures Acts(rest) == |acts| + Acts(oracle) ==> Count(destructors) <= old(Count(destructors))
      ensures Performs(acts, oracle, old(trace), trace, rest)
      decreases |acts| + Acts(oracle), Count(destructors), 0
    {
      hide Conserved, Lawful, Count, Acts, AsBooked, InOrder, Inside, Serves, CallOk, Bracketed, Works, Performs;
      rest := oracle;
      InsideSame(trace);
      if acts == [] {
        PerformsNothing(oracle, trace);
        return;
      }
      match acts[0]
      case Register(what, memory) =>
        if what.fn != 0 {
          var r := Register(what.isarg, what.fn, what.arg, what.handle, memory);
          if r == 0 {
            InsideOne(old(trace), trace[|old(trace)|]);
          }
        }
        ghost var mid := trace;
        rest := Run(acts[1..], oracle);
        InsideTrans(old(trace), mid, trace);
        PerformsRegister(acts, oracle, old(trace), mid, trace, rest);
      case Finalize(handle) =>
        rest := Finalize(handle, oracle);
        BracketedInside(old(trace), handle, trace);
        ghost var mid, left := trace, rest;
        rest := Run(acts[1..], rest);
        InsideTrans(old(trace), mid, trace);
        PerformsFinalize(acts, oracle, old(trace), mid[..|mid| - 1], left, trace, rest);
    }

    /** Calls every pending function of a handle, or every one if that is null, the latest first; what they register on the
        way too. */
    method Finalize(handle: nat, oracle: seq<seq<Act>>) returns (rest: seq<seq<Act>>)
      requires Valid()
      modifies this
      ensures Valid() && Bracketed(old(trace), handle, trace) && modCnt >= old(modCnt)
      ensures forall i: nat :: PendingIn(trace, i) ==> !Matches(trace[i].what.handle, handle)
      ensures modCnt == old(modCnt) ==> Cleared(old(destructors), destructors) && handles == old(handles)
      ensures Acts(rest) <= Acts(oracle) && (Acts(rest) == Acts(oracle) ==> Count(destructors) <= old(Count(destructors)))
      ensures trace != [] && trace[|trace| - 1] == Left && trace == trace[..|trace| - 1] + [Left]
      ensures Works(oracle, old(trace) + [Entered(handle)], trace[..|trace| - 1], rest)
      decreases Acts(oracle), Count(destructors), 3
    {
      hide Conserved, Lawful, Count, Acts, AsBooked, InOrder, Inside, Serves, CallOk, Bracketed, PendingIn, Works, Performs;
      rest := oracle;
      Enter(handle);
      ghost var begun := trace;
      InsideSame(trace);
      WorksNone(oracle, trace);
      if |destructors| > 0 {
        var restart := true;
        while restart
          invariant Valid() && Inside(begun, trace) && modCnt >= old(modCnt)
          invariant !restart ==> NoneFrom(handle, 0)
          invariant modCnt == old(modCnt) ==> Cleared(old(destructors), destructors) && handles == old(handles)
          invariant Acts(rest) <= Acts(oracle) && (Acts(rest) == Acts(oracle) ==> Count(destructors) <= old(Count(destructors)))
          invariant Works(oracle, begun, trace, rest)
          decreases Acts(rest), Count(destructors), restart
        {
          ghost var before, left := trace, rest;
          InsideServes(begun, trace, handle);
          rest, restart := Walk(handle, rest);
          InsideTrans(begun, before, trace);
          InsideLonger(before, trace);
          WorksTrans(oracle, begun, before, left, trace, rest);
        }
        NoneLeft(handle);
        Release();
      } else {
        NoneLeft(handle);
      }
      ghost var done := trace;
      Leave(begun, handle, old(trace));
      assert trace[..|trace| - 1] == done;
    }

    /** A finalization begins. */
    ghost method Enter(handle: nat)
      requires Valid()
      modifies `trace
      ensures Valid() && trace == old(trace) + [Entered(handle)] && Serves(trace, handle)
    {
      hide Conserved, Lawful;
      ConservedMark(destructors, ids, trace, Entered(handle));
      LawfulAppend(trace, Entered(handle));
      StackAppend(trace, Entered(handle));
      trace := trace + [Entered(handle)];
    }

    /** A finalization ends. */
    ghost method Leave(begun: seq<Event>, handle: nat, start: seq<Event>)
      requires Valid() && Inside(begun, trace) && begun == start + [Entered(handle)]
      requires forall i: nat :: PendingIn(trace, i) ==> !Matches(trace[i].what.handle, handle)
      modifies `trace
      ensures Valid() && Bracketed(start, handle, trace) && trace == old(trace) + [Left]
      ensures forall i: nat :: PendingIn(trace, i) ==> !Matches(trace[i].what.handle, handle)
    {
      hide Conserved, Lawful, Inside, PendingIn;
      ConservedMark(destructors, ids, trace, Left);
      LawfulAppend(trace, Left);
      PendingAppend(trace, Left);
      assert (trace + [Left])[..|trace|] == trace;
      PendingIds(trace);
      trace := trace + [Left];
    }
  }

  lemma PendingIds(tr: seq<Event>)
    ensures forall i: nat :: PendingIn(tr, i) ==> i < |tr|
  {
  }

  lemma InsideServes(tr: seq<Event>, tr': seq<Event>, filter: nat)
    requires Inside(tr, tr') && Serves(tr, filter)
    ensures Serves(tr', filter)
  {
  }

  /** A function is called at most once, and after a finalization of everything each has been. */
  lemma AllCalled(list: ExitList)
    requires list.Valid()
    requires forall i: nat :: PendingIn(list.trace, i) ==> !Matches(list.trace[i].what.handle, 0)
    ensures forall i :: 0 <= i < |list.trace| && list.trace[i].Registered? ==> CalledIn(list.trace, i)
    ensures forall j, k :: 0 <= j < k < |list.trace| && list.trace[j].Called? && list.trace[k].Called? ==>
      list.trace[j].id != list.trace[k].id
  {
    hide Stack;
    var t := list.trace;
    forall i | 0 <= i < |t| && t[i].Registered?
      ensures CalledIn(t, i)
    {
      assert !PendingIn(t, i);
    }
    forall j, k | 0 <= j < k < |t| && t[j].Called? && t[k].Called?
      ensures t[j].id != t[k].id
    {
      assert CallOkAt(t, k);
      assert t[..k][j].Called? && t[..k][j].id == t[j].id;
    }
  }

  lemma ConservedLess(d: seq<nat>, ids: seq<nat>, top: nat, tr: seq<Event>)
    requires |d| == |ids| && top <= |d| && Conserved(d, ids, tr) && forall p :: top <= p < |d| ==> d[p] == 0
    ensures Conserved(d[..top], ids[..top], tr) && Count(d[..top]) == Count(d)
  {
    hide Holds, PendingIn;
    HoldsMore(d[..top], ids[..top], d[top..], ids[top..]);
    CountMore(d[..top], d[top..]);
    assert d == d[..top] + d[top..] && ids == ids[..top] + ids[top..];
  }

  lemma {:induction false} CountMore(d: seq<nat>, none: seq<nat>)
    requires forall p :: 0 <= p < |none| ==> none[p] == 0
    ensures Count(d + none) == Count(d)
  {
    if d == [] {
      NoneCounted(none);
      assert d + none == none;
    } else {
      CountMore(d[1..], none);
      assert (d + none)[1..] == d[1..] + none;
    }
  }

  lemma {:induction false} NoneCounted(none: seq<nat>)
    requires forall p :: 0 <= p < |none| ==> none[p] == 0
    ensures Count(none) == 0
  {
    if none != [] {
      NoneCounted(none[1..]);
    }
  }
}
