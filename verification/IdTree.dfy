/** The id allocator of posix/idtree.c: an augmented tree whose keys are the ids in use. */
module IdTree {
  import opened RbShape
  import opened RbColor
  import opened RbTree
  import S = RbSteps
  import G = Gaps

  const INT_MAX := 0x7FFF_FFFF

  /** Some node has the id. */
  ghost predicate Used(key: seq<int>, t: Tree, id: int) {
    exists n :: n in Nodes(t) && Key(key, n) == id
  }

  /** Every number between the bounds is an id in use. */
  ghost predicate Full(key: seq<int>, t: Tree, lo: int, hi: int) {
    forall c :: lo < c < hi ==> Used(key, t, c)
  }

  // ----- Where there is a gap -----

  lemma {:induction false} FewNodesLeaveGap(key: seq<int>, t: Tree, lo: int, hi: int)
    requires Ordered(key, t, lo, hi) && Sep(t) && |Nodes(t)| < hi - lo - 1
    ensures G.MaxGap(key, t, lo, hi) > 0
    decreases t
  {
    if t.Node? {
      var k := Key(key, t.n);
      assert Nodes(t) == Nodes(t.left) + {t.n} + Nodes(t.right);
      if |Nodes(t.left)| < k - lo - 1 {
        FewNodesLeaveGap(key, t.left, lo, k);
      } else {
        FewNodesLeaveGap(key, t.right, k, hi);
      }
    }
  }

  lemma {:induction false} NoGapIsFull(key: seq<int>, t: Tree, lo: int, hi: int)
    requires Ordered(key, t, lo, hi) && G.MaxGap(key, t, lo, hi) <= 0
    ensures Full(key, t, lo, hi)
    decreases t
  {
    if t.Node? {
      var k := Key(key, t.n);
      NoGapIsFull(key, t.left, lo, k);
      NoGapIsFull(key, t.right, k, hi);
      forall c | lo < c < hi
        ensures Used(key, t, c)
      {
        if c == k {
          assert t.n in Nodes(t);
        } else if c < k {
          assert Used(key, t.left, c);
        } else {
          assert Used(key, t.right, c);
        }
      }
    }
  }

  /** As many ids as numbers below a bound, all below it, are all of them. */
  lemma {:induction false} FullCount(key: seq<int>, t: Tree, lo: int, hi: int)
    requires Ordered(key, t, lo, hi) && Sep(t) && Full(key, t, lo, hi) && lo < hi
    ensures |Nodes(t)| == hi - lo - 1
    decreases t
  {
    if t.Leaf? {
      if hi - lo > 1 {
        assert Used(key, t, lo + 1);
      }
    } else {
      var k := Key(key, t.n);
      assert Nodes(t) == Nodes(t.left) + {t.n} + Nodes(t.right);
      OrderedBounds(key, t.left, lo, k);
      OrderedBounds(key, t.right, k, hi);
      forall c | lo < c < k
        ensures Used(key, t.left, c)
      {
        assert Used(key, t, c);
      }
      forall c | k < c < hi
        ensures Used(key, t.right, c)
      {
        assert Used(key, t, c);
      }
      FullCount(key, t.left, lo, k);
      FullCount(key, t.right, k, hi);
    }
  }

  // ----- The search -----

  /** What the search compares: towards the leftmost gap, and 0 at the node it is next to. */
  function GapCompare(tree: RbTree, n1: nat, n2: nat): int
    requires n1 < |tree.left| && n2 < |tree.left| && tree.Sized()
    reads tree
  {
    var toLeft := (tree.left[n1], 1);
    var toRight := (tree.right[n1], -1);
    var (child, ret) :=
      if tree.lgap[n1] > 0 && tree.rgap[n1] > 0 then (if tree.key[n2] > tree.key[n1] then toRight else toLeft)
      else if tree.lgap[n1] > 0 then toLeft
      else if tree.rgap[n1] > 0 then toRight
      else (0, 1);
    if child == 0 then 0 else ret
  }

  lemma UsedBelow(key: seq<int>, p: Path, s: Tree, part: Tree, lo: int, hi: int)
    requires Full(key, part, lo, hi) && Nodes(part) <= Nodes(s)
    ensures Full(key, Plug(p, s), lo, hi)
  {
    SepPlug(p, s);
    forall c | lo < c < hi
      ensures Used(key, Plug(p, s), c)
    {
      assert Used(key, part, c);
    }
  }

  lemma NodeIsUsed(key: seq<int>, p: Path, s: Tree)
    requires s.Node?
    ensures Used(key, Plug(p, s), Key(key, s.n))
  {
    SepPlug(p, s);
    assert s.n in Nodes(Plug(p, s));
  }

  /** Without a gap left of a node, every id up to it is in use. */
  lemma FullUpTo(key: seq<int>, p: Path, s: Tree, lo: int, hi: int)
    requires s.Node? && Ordered(key, s, Lo(key, p, lo), Hi(key, p, hi)) && Full(key, Plug(p, s), lo, Lo(key, p, lo) + 1)
    requires G.MaxGap(key, s.left, Lo(key, p, lo), Key(key, s.n)) <= 0
    ensures Full(key, Plug(p, s), lo, Key(key, s.n) + 1)
  {
    NoGapIsFull(key, s.left, Lo(key, p, lo), Key(key, s.n));
    UsedBelow(key, p, s, s.left, Lo(key, p, lo), Key(key, s.n));
    NodeIsUsed(key, p, s);
  }

  /** The node next to the leftmost gap: the gap is left of it, or else right of it. */
  ghost predicate NextToGap(tree: RbTree, t: Tree, p: Path, s: Tree)
    reads tree
  {
    && tree.Sized() && tree.At(p, s) && Plug(p, s) == t && s.Node? && 0 < s.n < |tree.left|
    && var key, k := tree.key, Key(tree.key, s.n);
    && Full(key, t, -1, Lo(key, p, -1) + 1)
    && if tree.lgap[s.n] > 0 then s.left.Leaf? && Lo(key, p, -1) + 1 < k
       else s.right.Leaf? && Full(key, t, -1, k + 1) && k + 1 < Hi(key, p, NO_ID)
  }

  method FindGap(tree: RbTree, n: nat, ghost t: Tree) returns (f: nat, ghost p: Path, ghost s: Tree)
    requires tree.Holds(t) && tree.augment && t.Node? && n < |tree.left| && tree.key[n] == 0
    requires |Nodes(t)| < NO_ID
    ensures NextToGap(tree, t, p, s) && s.n == f
  {
    hide Plug, G.MaxGap, Nodes, Full, Ordered, S.Around;
    var it := tree.root;
    p, s := Top, t;
    TopFull(tree.key, t);
    tree.AtParts(p, s);
    tree.WholeTree(t);
    tree.Children(p, s);
    FewNodesLeaveGap(tree.key, t, -1, NO_ID);
    while it != 0
      invariant tree.At(p, s) && Plug(p, s) == t && it == Root(s) && s.Node? && 0 < it < |tree.left|
      invariant Full(tree.key, t, -1, Lo(tree.key, p, -1) + 1)
      invariant G.MaxGap(tree.key, s, Lo(tree.key, p, -1), Hi(tree.key, p, NO_ID)) > 0
      decreases s
    {
      GapsAt(tree, t, p, s);
      GapParts(tree.key, s, Lo(tree.key, p, -1), Hi(tree.key, p, NO_ID));
      var c := GapCompare(tree, it, n);
      if tree.lgap[it] <= 0 {
        FullUpTo(tree.key, p, s, -1, NO_ID);
      }
      if c == 0 {
        break;
      }
      tree.AtParts(p, s);
      tree.AtLeft(p, s);
      tree.AtRight(p, s);
      if c > 0 {
        it := tree.left[it];
        p, s := InLeft(s.n, s.right, p), s.left;
      } else {
        it := tree.right[it];
        p, s := InRight(s.left, s.n, p), s.right;
      }
      tree.Children(p, s);
    }
    f := it;
  }

  lemma TopFull(key: seq<int>, t: Tree)
    ensures Full(key, t, -1, Lo(key, Top, -1) + 1)
  {
  }

  lemma GapParts(key: seq<int>, s: Tree, lo: int, hi: int)
    requires s.Node?
    ensures G.MaxGap(key, s, lo, hi)
         == G.Max(G.MaxGap(key, s.left, lo, Key(key, s.n)), G.MaxGap(key, s.right, Key(key, s.n), hi))
    ensures s.left.Leaf? ==> G.MaxGap(key, s.left, lo, Key(key, s.n)) == Key(key, s.n) - lo - 1
    ensures s.right.Leaf? ==> G.MaxGap(key, s.right, Key(key, s.n), hi) == hi - Key(key, s.n) - 1
  {
  }

  /** What the cached gaps of a node say. */
  lemma GapsAt(tree: RbTree, t: Tree, p: Path, s: Tree)
    requires tree.Holds(t) && tree.augment && tree.At(p, s) && Plug(p, s) == t && s.Node?
    ensures s.n < |tree.left| && Key(tree.key, s.n) >= 0
    ensures tree.lgap[s.n] == G.MaxGap(tree.key, s.left, Lo(tree.key, p, -1), Key(tree.key, s.n))
    ensures tree.rgap[s.n] == G.MaxGap(tree.key, s.right, Key(tree.key, s.n), Hi(tree.key, p, NO_ID))
    ensures tree.left[s.n] == Root(s.left) && tree.right[s.n] == Root(s.right)
    ensures (Root(s.left) == 0 <==> s.left.Leaf?) && (Root(s.right) == 0 <==> s.right.Leaf?)
    ensures Ordered(tree.key, s, Lo(tree.key, p, -1), Hi(tree.key, p, NO_ID))
  {
    tree.Children(p, s);
    tree.AtOrder(p, s);
    G.ExactPlug(tree.Cached(), tree.key, p, s, -1, NO_ID);
    OrderedBounds(tree.key, t, -1, NO_ID);
    SepPlug(p, s);
  }

  // ----- The allocator -----

  /** The tree holds the nodes with ids; there have never been more than `peak` of them, and all ids are below that. */
  ghost predicate Live(tree: RbTree, t: Tree, peak: nat)
    reads tree
  {
    && tree.augment && tree.Holds(t) && |Nodes(t)| <= peak <= INT_MAX
    && forall n :: n in Nodes(t) ==> 0 <= Key(tree.key, n) < peak
  }

  method SetId(tree: RbTree, n: nat, id: int, ghost t: Tree, ghost peak: nat)
    requires Live(tree, t, peak) && n < |tree.left| && n !in Nodes(t)
    modifies tree`key
    ensures Live(tree, t, peak) && tree.Sized() && |old(tree.key)| == |tree.key| && tree.key == old(tree.key)[n := id]
    ensures forall m :: m in Nodes(t) ==> Key(tree.key, m) == old(Key(tree.key, m))
  {
    hide S.Around, Ordered, G.Exact, RedBlack, Nodes;
    tree.SetKey(n, id, t);
  }

  /** An id between the bounds of an empty place is unused. */
  lemma HoleIsFree(key: seq<int>, q: Path, id: int)
    requires Ordered(key, Plug(q, Leaf), -1, NO_ID) && Lo(key, q, -1) < id < Hi(key, q, NO_ID)
    ensures !Used(key, Plug(q, Leaf), id)
  {
    OrderedPlug(key, q, Leaf, -1, NO_ID);
    SepPlug(q, Leaf);
    PathMisses(key, q, -1, NO_ID, id);
  }

  lemma PlaceBounds(key: seq<int>, p: Path, s: Tree)
    requires Ordered(key, Plug(p, s), -1, NO_ID) && s.Node?
    ensures -1 <= Lo(key, p, -1) < Key(key, s.n) < Hi(key, p, NO_ID) <= NO_ID && s.n in Nodes(Plug(p, s))
    ensures Plug(p, s) == Plug(InLeft(s.n, s.right, p), s.left) == Plug(InRight(s.left, s.n, p), s.right)
  {
    OrderedPlug(key, p, s, -1, NO_ID);
    LoBound(key, p);
    SepPlug(p, s);
  }

  /** The id beside the leftmost gap. */
  lemma BesideGap(tree: RbTree, t: Tree, p: Path, s: Tree, id: int)
    requires Ordered(tree.key, t, -1, NO_ID) && NextToGap(tree, t, p, s)
    requires id == if tree.lgap[s.n] > 0 then Key(tree.key, s.n) - 1 else Key(tree.key, s.n) + 1
    ensures 0 <= id < NO_ID && !Used(tree.key, t, id)
    ensures (exists n :: n in Nodes(t) && id < Key(tree.key, n)) || Full(tree.key, t, -1, id)
  {
    hide Full, Used, Ordered, Plug, Nodes, S.Around;
    PlaceBounds(tree.key, p, s);
    if tree.lgap[s.n] > 0 {
      HoleIsFree(tree.key, InLeft(s.n, s.right, p), id);
    } else {
      HoleIsFree(tree.key, InRight(s.left, s.n, p), id);
    }
  }

  lemma {:induction false} LoBound(key: seq<int>, p: Path)
    requires PathOrdered(key, p, -1, NO_ID)
    ensures Lo(key, p, -1) >= -1 && Hi(key, p, NO_ID) <= NO_ID
    decreases p
  {
    if !p.Top? {
      LoBound(key, p.up);
    }
  }

  lemma {:induction false} OrderedBelow(key: seq<int>, t: Tree, lo: int, hi: int, hi': int)
    requires Ordered(key, t, lo, hi) && forall n :: n in Nodes(t) ==> Key(key, n) < hi'
    ensures Ordered(key, t, lo, hi')
    decreases t
  {
    if t.Node? {
      assert t.n in Nodes(t);
      OrderedBelow(key, t.right, Key(key, t.n), hi, hi');
    }
  }

  /** An unused id with all below it used is the number of the others, or some other is larger. */
  lemma LargestIsCount(key: seq<int>, t: Tree, id: int)
    requires Ordered(key, t, -1, NO_ID) && Sep(t) && !Used(key, t, id) && id >= 0
    requires (exists n :: n in Nodes(t) && id < Key(key, n)) || Full(key, t, -1, id)
    ensures (exists n :: n in Nodes(t) && id < Key(key, n)) || id == |Nodes(t)|
  {
    if !(exists n :: n in Nodes(t) && id < Key(key, n)) {
      forall n | n in Nodes(t)
        ensures Key(key, n) < id
      {
        assert !Used(key, t, id);
      }
      OrderedBelow(key, t, -1, NO_ID, id);
      FullCount(key, t, -1, id);
    }
  }

  /** An id for the node `n`, whose own id is 0 for the time being. */
  method PickId(tree: RbTree, n: nat, ghost t: Tree, ghost peak: nat) returns (id: int)
    requires Live(tree, t, peak) && 0 < n < |tree.left| && |Nodes(t)| < INT_MAX && tree.key[n] == 0
    ensures 0 <= id <= INT_MAX && !Used(tree.key, t, id)
    ensures (exists m :: m in Nodes(t) && id < Key(tree.key, m)) || id == |Nodes(t)|
  {
    id := 0;
    tree.WholeTree(t);
    tree.AtParts(Top, t);
    if tree.root != 0 {
      var f;
      ghost var p, s;
      f, p, s := FindGap(tree, n, t);
      if tree.lgap[f] > 0 {
        id := tree.key[f] - 1;
      } else {
        id := tree.key[f] + 1;
      }
      BesideGap(tree, t, p, s, id);
      LargestIsCount(tree.key, t, id);
    }
  }

  lemma SameUse(key: seq<int>, key': seq<int>, t: Tree, id: int)
    requires forall n :: n in Nodes(t) ==> Key(key, n) == Key(key', n)
    ensures Used(key, t, id) <==> Used(key', t, id)
    ensures (exists n :: n in Nodes(t) && id < Key(key, n)) <==> (exists n :: n in Nodes(t) && id < Key(key', n))
  {
  }

  /**
   * Gives `n` an id that no other node has. An id larger than all others is the number of the others,
   * so all ids stay below the largest number of nodes there have been at one time.
   */
  method Alloc(tree: RbTree, n: nat, ghost t0: Tree, ghost peak: nat) returns (id: int, ghost t: Tree)
    requires Live(tree, t0, peak) && 0 < n < |tree.left| && n !in Nodes(t0) && |Nodes(t0)| < INT_MAX
    modifies tree
    ensures Live(tree, t, if peak < |Nodes(t)| then |Nodes(t)| else peak) && Nodes(t) == Nodes(t0) + {n} && |tree.left| == old(|tree.left|)
    ensures 0 <= id <= INT_MAX && tree.key == old(tree.key)[n := id] && !Used(old(tree.key), t0, id)
    ensures (exists m :: m in Nodes(t0) && id < Key(old(tree.key), m)) || id == |Nodes(t0)|
  {
    hide RbTree.Holds, Used, Nodes;
    SetId(tree, n, 0, t0, peak);
    id := PickId(tree, n, t0, peak);
    SameUse(old(tree.key), tree.key, t0, id);
    SetId(tree, n, id, t0, peak);
    var other;
    other, t := tree.Insert(n, t0);
    NobodyUses(old(tree.key), tree.key, t0, id);
  }

  lemma NobodyUses(key: seq<int>, key': seq<int>, t: Tree, id: int)
    requires !Used(key, t, id) && forall n :: n in Nodes(t) ==> Key(key, n) == Key(key', n)
    ensures forall n :: n in Nodes(t) ==> Key(key', n) != id
  {
  }

  /** Gives the id of `n` back. */
  method Release(tree: RbTree, n: nat, ghost t0: Tree, ghost peak: nat) returns (ghost t: Tree)
    requires Live(tree, t0, peak) && n in Nodes(t0)
    modifies tree
    ensures Live(tree, t, peak) && Nodes(t) == Nodes(t0) - {n} && tree.key == old(tree.key)
    ensures |tree.left| == old(|tree.left|)
  {
    t := tree.Remove(n, t0);
  }
}
