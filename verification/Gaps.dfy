/** The gaps between the ids in a tree, and the fields that cache them. */
module Gaps {
  import opened RbShape

  /** The cached gaps of all nodes: the largest below its left child, and below its right child. */
  datatype Gaps = Gaps(l: seq<int>, r: seq<int>)

  function Max(a: int, b: int): int {
    if a < b then b else a
  }

  function LGap(g: Gaps, n: nat): int {
    if n < |g.l| then g.l[n] else 0
  }

  function RGap(g: Gaps, n: nat): int {
    if n < |g.r| then g.r[n] else 0
  }

  function Largest(g: Gaps, n: nat): int {
    Max(LGap(g, n), RGap(g, n))
  }

  /** The largest run of unused numbers between the bounds. */
  function MaxGap(key: seq<int>, t: Tree, lo: int, hi: int): int {
    match t
    case Leaf => hi - lo - 1
    case Node(l, n, r) => Max(MaxGap(key, l, lo, Key(key, n)), MaxGap(key, r, Key(key, n), hi))
  }

  /** The numbers from `a` on, `k` of them, are all unused. */
  predicate Free(key: seq<int>, t: Tree, a: int, k: int) {
    forall n :: n in Nodes(t) ==> !(a <= Key(key, n) < a + k)
  }

  /** No run of unused numbers between the bounds is larger than MaxGap, and one is as large. */
  lemma {:induction false} MaxGapIsBound(key: seq<int>, t: Tree, lo: int, hi: int, a: int, k: nat)
    requires Ordered(key, t, lo, hi) && lo < a && a + k <= hi && Free(key, t, a, k)
    ensures k <= MaxGap(key, t, lo, hi)
    decreases t
  {
    if t.Node? {
      var x := Key(key, t.n);
      assert t.n in Nodes(t);
      if a + k <= x {
        assert Free(key, t.left, a, k);
        MaxGapIsBound(key, t.left, lo, x, a, k);
      } else if k > 0 {
        assert Free(key, t.right, a, k);
        MaxGapIsBound(key, t.right, x, hi, a, k);
      } else {
        MaxGapNonNegative(key, t, lo, hi);
      }
    }
  }

  lemma {:induction false} MaxGapNonNegative(key: seq<int>, t: Tree, lo: int, hi: int)
    requires Ordered(key, t, lo, hi) && lo < hi
    ensures MaxGap(key, t, lo, hi) >= 0
    decreases t
  {
    if t.Node? {
      MaxGapNonNegative(key, t.left, lo, Key(key, t.n));
    }
  }

  lemma {:induction false} MaxGapIsReached(key: seq<int>, t: Tree, lo: int, hi: int) returns (a: int)
    requires Ordered(key, t, lo, hi) && lo < hi
    ensures lo < a && a + MaxGap(key, t, lo, hi) <= hi && Free(key, t, a, MaxGap(key, t, lo, hi))
    decreases t
  {
    if t.Leaf? {
      a := lo + 1;
    } else {
      var x := Key(key, t.n);
      OrderedBounds(key, t.left, lo, x);
      OrderedBounds(key, t.right, x, hi);
      if MaxGap(key, t.left, lo, x) < MaxGap(key, t.right, x, hi) {
        a := MaxGapIsReached(key, t.right, x, hi);
      } else {
        a := MaxGapIsReached(key, t.left, lo, x);
      }
    }
  }

  // ----- Cached gaps -----

  predicate Exact(g: Gaps, key: seq<int>, t: Tree, lo: int, hi: int) {
    match t
    case Leaf => true
    case Node(l, n, r) =>
      LGap(g, n) == MaxGap(key, l, lo, Key(key, n)) && RGap(g, n) == MaxGap(key, r, Key(key, n), hi)
      && Exact(g, key, l, lo, Key(key, n)) && Exact(g, key, r, Key(key, n), hi)
  }

  /** Around a hole, the gaps away from the hole are exact. */
  predicate OffExact(g: Gaps, key: seq<int>, p: Path, lo: int, hi: int) {
    match p
    case Top => true
    case InLeft(n, r, up) =>
      RGap(g, n) == MaxGap(key, r, Key(key, n), Hi(key, up, hi))
      && Exact(g, key, r, Key(key, n), Hi(key, up, hi)) && OffExact(g, key, up, lo, hi)
    case InRight(l, n, up) =>
      LGap(g, n) == MaxGap(key, l, Lo(key, up, lo), Key(key, n))
      && Exact(g, key, l, Lo(key, up, lo), Key(key, n)) && OffExact(g, key, up, lo, hi)
  }

  /** Around a hole, the gaps towards it follow from `w`, the largest in the hole. */
  predicate On(g: Gaps, p: Path, w: int) {
    match p
    case Top => true
    case InLeft(n, _, up) => LGap(g, n) == w && On(g, up, Max(w, RGap(g, n)))
    case InRight(_, n, up) => RGap(g, n) == w && On(g, up, Max(w, LGap(g, n)))
  }

  lemma {:induction false} ExactPlug(g: Gaps, key: seq<int>, p: Path, t: Tree, lo: int, hi: int)
    ensures Exact(g, key, Plug(p, t), lo, hi)
       <==> Exact(g, key, t, Lo(key, p, lo), Hi(key, p, hi)) && OffExact(g, key, p, lo, hi)
            && On(g, p, MaxGap(key, t, Lo(key, p, lo), Hi(key, p, hi)))
    decreases p
  {
    match p
    case Top =>
    case InLeft(n, r, up) => ExactPlug(g, key, up, Node(t, n, r), lo, hi);
    case InRight(l, n, up) => ExactPlug(g, key, up, Node(l, n, t), lo, hi);
  }

  predicate SameGapAt(g: Gaps, g': Gaps, n: nat) {
    LGap(g, n) == LGap(g', n) && RGap(g, n) == RGap(g', n)
  }

  predicate SameGaps(g: Gaps, g': Gaps, s: set<nat>) {
    forall n :: n in s ==> SameGapAt(g, g', n)
  }

  /** The gaps away from the hole, and those not on its spine, are the same. */
  predicate SameOff(g: Gaps, g': Gaps, p: Path) {
    match p
    case Top => true
    case InLeft(n, r, up) => RGap(g, n) == RGap(g', n) && SameGaps(g, g', Nodes(r)) && SameOff(g, g', up)
    case InRight(l, n, up) => LGap(g, n) == LGap(g', n) && SameGaps(g, g', Nodes(l)) && SameOff(g, g', up)
  }

  lemma {:induction false} ExactFrame(g: Gaps, g': Gaps, key: seq<int>, t: Tree, lo: int, hi: int)
    requires Exact(g, key, t, lo, hi) && SameGaps(g, g', Nodes(t))
    ensures Exact(g', key, t, lo, hi)
    decreases t
  {
    if t.Node? {
      ExactFrame(g, g', key, t.left, lo, Key(key, t.n));
      ExactFrame(g, g', key, t.right, Key(key, t.n), hi);
      assert SameGapAt(g, g', t.n);
    }
  }

  lemma {:induction false} OffExactFrame(g: Gaps, g': Gaps, key: seq<int>, p: Path, lo: int, hi: int)
    requires OffExact(g, key, p, lo, hi) && SameOff(g, g', p)
    ensures OffExact(g', key, p, lo, hi)
    decreases p
  {
    match p
    case Top =>
    case InLeft(n, r, up) =>
      ExactFrame(g, g', key, r, Key(key, n), Hi(key, up, hi));
      OffExactFrame(g, g', key, up, lo, hi);
    case InRight(l, n, up) =>
      ExactFrame(g, g', key, l, Lo(key, up, lo), Key(key, n));
      OffExactFrame(g, g', key, up, lo, hi);
  }

  // ----- Recomputing them from a node upwards -----

  /** What climbing from a hole with largest gap `w` leaves. */
  function Climbed(g: Gaps, p: Path, w: int): Gaps
    decreases p
  {
    match p
    case Top => g
    case InLeft(n, _, up) =>
      if n < |g.l| then Climbed(g.(l := g.l[n := w]), up, Max(w, RGap(g, n))) else g
    case InRight(_, n, up) =>
      if n < |g.r| then Climbed(g.(r := g.r[n := w]), up, Max(w, LGap(g, n))) else g
  }

  predicate InBounds(g: Gaps, p: Path) {
    !p.Top? ==> p.n < |g.l| && p.n < |g.r| && InBounds(g, p.up)
  }

  lemma {:induction false} InBoundsFrame(g: Gaps, g': Gaps, p: Path)
    requires InBounds(g, p) && |g.l| == |g'.l| && |g.r| == |g'.r|
    ensures InBounds(g', p)
    decreases p
  {
    if !p.Top? {
      InBoundsFrame(g, g', p.up);
    }
  }

  lemma {:induction false} ClimbedFrame(g: Gaps, p: Path, w: int)
    requires InBounds(g, p)
    ensures var g' := Climbed(g, p, w); |g'.l| == |g.l| && |g'.r| == |g.r|
    ensures forall n :: n !in Spine(p) ==> SameGapAt(g, Climbed(g, p, w), n)
    decreases p
  {
    match p
    case Top =>
    case InLeft(n, _, up) =>
      var g1 := g.(l := g.l[n := w]);
      InBoundsFrame(g, g1, up);
      ClimbedFrame(g1, up, Max(w, RGap(g, n)));
      forall m | m !in Spine(p)
        ensures SameGapAt(g, Climbed(g, p, w), m)
      {
        assert SameGapAt(g, g1, m) && SameGapAt(g1, Climbed(g, p, w), m);
      }
    case InRight(_, n, up) =>
      var g1 := g.(r := g.r[n := w]);
      InBoundsFrame(g, g1, up);
      ClimbedFrame(g1, up, Max(w, LGap(g, n)));
      forall m | m !in Spine(p)
        ensures SameGapAt(g, Climbed(g, p, w), m)
      {
        assert SameGapAt(g, g1, m) && SameGapAt(g1, Climbed(g, p, w), m);
      }
  }

  lemma {:induction false} ClimbedExact(g: Gaps, p: Path, w: int)
    requires InBounds(g, p) && SepPath(p)
    ensures On(Climbed(g, p, w), p, w) && SameOff(g, Climbed(g, p, w), p)
    decreases p
  {
    match p
    case Top =>
    case InLeft(n, r, up) =>
      var g1 := g.(l := g.l[n := w]);
      var v := Max(w, RGap(g, n));
      var g' := Climbed(g1, up, v);
      InBoundsFrame(g, g1, up);
      ClimbedExact(g1, up, v);
      ClimbedFrame(g1, up, v);
      SpineNodes(up);
      assert SameGapAt(g1, g', n);
      SameOffThrough(g, g1, g', up, n);
      SameThrough(g, g1, g', r, up, n);
    case InRight(l, n, up) =>
      var g1 := g.(r := g.r[n := w]);
      var v := Max(w, LGap(g, n));
      var g' := Climbed(g1, up, v);
      InBoundsFrame(g, g1, up);
      ClimbedExact(g1, up, v);
      ClimbedFrame(g1, up, v);
      SpineNodes(up);
      assert SameGapAt(g1, g', n);
      SameOffThrough(g, g1, g', up, n);
      SameThrough(g, g1, g', l, up, n);
  }

  lemma SameThrough(g: Gaps, g1: Gaps, g': Gaps, t: Tree, up: Path, n: nat)
    requires forall m :: m != n ==> SameGapAt(g, g1, m)
    requires forall m :: m !in Spine(up) ==> SameGapAt(g1, g', m)
    requires n !in Nodes(t) && Nodes(t) !! PathNodes(up)
    ensures SameGaps(g, g', Nodes(t))
  {
    SpineNodes(up);
    forall m | m in Nodes(t)
      ensures SameGapAt(g, g', m)
    {
      assert SameGapAt(g, g1, m) && SameGapAt(g1, g', m);
    }
  }

  lemma {:induction false} SameOffThrough(g: Gaps, g1: Gaps, g': Gaps, p: Path, n: nat)
    requires n !in PathNodes(p) && SameOff(g1, g', p)
    requires forall m :: m != n ==> SameGapAt(g, g1, m)
    ensures SameOff(g, g', p)
    decreases p
  {
    if !p.Top? {
      SameOffThrough(g, g1, g', p.up, n);
      assert SameGapAt(g, g1, p.n);
      var t := if p.InLeft? then p.right else p.left;
      forall m | m in Nodes(t)
        ensures SameGapAt(g, g', m)
      {
        assert SameGapAt(g, g1, m) && SameGapAt(g1, g', m);
      }
    }
  }

  function NewLeft(g: Gaps, key: seq<int>, p: Path, t: Tree, lo: int): int
    requires t.Node?
  {
    if t.left.Leaf? then Key(key, t.n) - Lo(key, p, lo) - 1 else Largest(g, t.left.n)
  }

  function NewRight(g: Gaps, key: seq<int>, p: Path, t: Tree, hi: int): int
    requires t.Node?
  {
    if t.right.Leaf? then Hi(key, p, hi) - Key(key, t.n) - 1 else Largest(g, t.right.n)
  }

  /** The gaps recomputed at the root of `t` and from there upwards. */
  function Augmented(g: Gaps, key: seq<int>, p: Path, t: Tree, lo: int, hi: int): Gaps
    requires t.Node?
  {
    var l, r := NewLeft(g, key, p, t, lo), NewRight(g, key, p, t, hi);
    if t.n < |g.l| && t.n < |g.r| then Climbed(Gaps(g.l[t.n := l], g.r[t.n := r]), p, Max(l, r)) else g
  }

  predicate Placed(g: Gaps, p: Path, t: Tree) {
    t.Node? && t.n < |g.l| && t.n < |g.r| && InBounds(g, p) && SepPath(p) && Sep(t) && Nodes(t) !! PathNodes(p)
  }

  /** Recomputing changes the node itself and the gaps of its ancestors towards it. */
  lemma AugmentedFrame(g: Gaps, key: seq<int>, p: Path, t: Tree, lo: int, hi: int)
    requires Placed(g, p, t)
    ensures var g' := Augmented(g, key, p, t, lo, hi);
            && |g'.l| == |g.l| && |g'.r| == |g.r|
            && LGap(g', t.n) == NewLeft(g, key, p, t, lo) && RGap(g', t.n) == NewRight(g, key, p, t, hi)
            && SameOff(g, g', p) && On(g', p, Largest(g', t.n))
    ensures forall m :: m != t.n && m !in Spine(p) ==> SameGapAt(g, Augmented(g, key, p, t, lo, hi), m)
  {
    var l, r := NewLeft(g, key, p, t, lo), NewRight(g, key, p, t, hi);
    var g1 := Gaps(g.l[t.n := l], g.r[t.n := r]);
    var g' := Augmented(g, key, p, t, lo, hi);
    InBoundsFrame(g, g1, p);
    ClimbedFrame(g1, p, Max(l, r));
    ClimbedExact(g1, p, Max(l, r));
    SpineNodes(p);
    assert SameGapAt(g1, g', t.n);
    SameOffThrough(g, g1, g', p, t.n);
    forall m | m != t.n && m !in Spine(p)
      ensures SameGapAt(g, g', m)
    {
      assert SameGapAt(g, g1, m) && SameGapAt(g1, g', m);
    }
  }

  lemma LargestIsMaxGap(g: Gaps, key: seq<int>, t: Tree, lo: int, hi: int)
    requires t.Node? && Exact(g, key, t, lo, hi)
    ensures Largest(g, t.n) == MaxGap(key, t, lo, hi)
  {
  }

  lemma BelowUntouched(g: Gaps, g': Gaps, p: Path, t: Tree, s: Tree)
    requires t.Node? && t.n !in Nodes(s) && Nodes(s) !! PathNodes(p)
    requires forall m :: m != t.n && m !in Spine(p) ==> SameGapAt(g, g', m)
    ensures SameGaps(g, g', Nodes(s))
  {
    SpineNodes(p);
  }

  /** Where the children are exact, so are the node and all above it that was exact away from it. */
  lemma AugmentedExact(g: Gaps, key: seq<int>, p: Path, t: Tree, lo: int, hi: int)
    requires Placed(g, p, t)
    requires Exact(g, key, t.left, Lo(key, p, lo), Key(key, t.n))
    requires Exact(g, key, t.right, Key(key, t.n), Hi(key, p, hi))
    ensures var g' := Augmented(g, key, p, t, lo, hi);
            && Exact(g', key, t, Lo(key, p, lo), Hi(key, p, hi))
            && On(g', p, MaxGap(key, t, Lo(key, p, lo), Hi(key, p, hi)))
            && (OffExact(g, key, p, lo, hi) ==> Exact(g', key, Plug(p, t), lo, hi))
  {
    var g' := Augmented(g, key, p, t, lo, hi);
    AugmentedFrame(g, key, p, t, lo, hi);
    BelowUntouched(g, g', p, t, t.left);
    BelowUntouched(g, g', p, t, t.right);
    ExactFrame(g, g', key, t.left, Lo(key, p, lo), Key(key, t.n));
    ExactFrame(g, g', key, t.right, Key(key, t.n), Hi(key, p, hi));
    if t.left.Node? {
      LargestIsMaxGap(g, key, t.left, Lo(key, p, lo), Key(key, t.n));
    }
    if t.right.Node? {
      LargestIsMaxGap(g, key, t.right, Key(key, t.n), Hi(key, p, hi));
    }
    if OffExact(g, key, p, lo, hi) {
      OffExactFrame(g, g', key, p, lo, hi);
      ExactPlug(g', key, p, t, lo, hi);
    }
  }

  // ----- A subtree under a new neighbour -----

  /** What lies below the rightmost node is exact whatever comes after the subtree. */
  lemma {:induction false} MaxKidExact(g: Gaps, key: seq<int>, p: Path, t: Tree, lo: int, hi: int, hi0: int)
    requires t.Node? && Exact(g, key, t, Lo(key, p, lo), hi0)
    ensures Exact(g, key, MaxTree(t).left, Lo(key, MaxPath(p, t), lo), Key(key, MaxTree(t).n))
    decreases t
  {
    if t.right.Node? {
      MaxKidExact(g, key, InRight(t.left, t.n, p), t.right, lo, hi, hi0);
    }
  }

  lemma {:induction false} MinKidExact(g: Gaps, key: seq<int>, p: Path, t: Tree, lo: int, hi: int, lo0: int)
    requires t.Node? && Exact(g, key, t, lo0, Hi(key, p, hi))
    ensures Exact(g, key, MinTree(t).right, Key(key, MinTree(t).n), Hi(key, MinPath(p, t), hi))
    decreases t
  {
    if t.left.Node? {
      MinKidExact(g, key, InLeft(t.n, t.right, p), t.left, lo, hi, lo0);
    }
  }

  /** A subtree that was exact before another successor, recomputed from its rightmost node, is exact before this one. */
  lemma {:induction false} MaxClimb(g: Gaps, g': Gaps, key: seq<int>, p: Path, t: Tree, lo: int, hi: int, hi0: int)
    requires t.Node? && Exact(g, key, t, Lo(key, p, lo), hi0) && SameOff(g, g', MaxPath(p, t))
    requires var q, m := MaxPath(p, t), MaxTree(t);
      && Exact(g', key, m, Lo(key, q, lo), Hi(key, q, hi)) && On(g', q, MaxGap(key, m, Lo(key, q, lo), Hi(key, q, hi)))
    ensures Exact(g', key, t, Lo(key, p, lo), Hi(key, p, hi)) && SameOff(g, g', p)
    ensures On(g', p, MaxGap(key, t, Lo(key, p, lo), Hi(key, p, hi)))
    decreases t
  {
    if t.right.Node? {
      MaxClimb(g, g', key, InRight(t.left, t.n, p), t.right, lo, hi, hi0);
      ExactFrame(g, g', key, t.left, Lo(key, p, lo), Key(key, t.n));
    }
  }

  lemma {:induction false} MinClimb(g: Gaps, g': Gaps, key: seq<int>, p: Path, t: Tree, lo: int, hi: int, lo0: int)
    requires t.Node? && Exact(g, key, t, lo0, Hi(key, p, hi)) && SameOff(g, g', MinPath(p, t))
    requires var q, m := MinPath(p, t), MinTree(t);
      && Exact(g', key, m, Lo(key, q, lo), Hi(key, q, hi)) && On(g', q, MaxGap(key, m, Lo(key, q, lo), Hi(key, q, hi)))
    ensures Exact(g', key, t, Lo(key, p, lo), Hi(key, p, hi)) && SameOff(g, g', p)
    ensures On(g', p, MaxGap(key, t, Lo(key, p, lo), Hi(key, p, hi)))
    decreases t
  {
    if t.left.Node? {
      MinClimb(g, g', key, InLeft(t.n, t.right, p), t.left, lo, hi, lo0);
      ExactFrame(g, g', key, t.right, Key(key, t.n), Hi(key, p, hi));
    }
  }

  /** The two recomputations that follow a node taking the place of its predecessor in a tree. */
  lemma NewMiddle(g: Gaps, g1: Gaps, g': Gaps, key: seq<int>, p: Path, l: Tree, y: nat, r: Tree, lo: int, hi: int,
                  hi0: int, lo0: int)
    requires l.Node? && Exact(g, key, l, Lo(key, p, lo), hi0) && Exact(g, key, r, lo0, Hi(key, p, hi))
    requires OffExact(g, key, p, lo, hi)
    requires r.Leaf? ==> RGap(g, y) == Hi(key, p, hi) - Key(key, y) - 1
    requires var q, m := MaxPath(InLeft(y, r, p), l), MaxTree(l);
      && SameOff(g, g1, q) && Exact(g1, key, m, Lo(key, q, lo), Hi(key, q, hi))
      && On(g1, q, MaxGap(key, m, Lo(key, q, lo), Hi(key, q, hi)))
    requires if r.Leaf? then g' == g1 else
      var q, m := MinPath(InRight(l, y, p), r), MinTree(r);
      && SameOff(g1, g', q) && Exact(g', key, m, Lo(key, q, lo), Hi(key, q, hi))
      && On(g', q, MaxGap(key, m, Lo(key, q, lo), Hi(key, q, hi)))
    ensures Exact(g', key, Plug(p, Node(l, y, r)), lo, hi)
  {
    hide Exact, OffExact, On, SameOff, SameGaps, MaxGap, Plug, MaxPath, MaxTree, MinPath, MinTree;
    var a := MaxGap(key, l, Lo(key, p, lo), Key(key, y));
    var b := MaxGap(key, r, Key(key, y), Hi(key, p, hi));
    MaxClimb(g, g1, key, InLeft(y, r, p), l, lo, hi, hi0);
    OnLeft(g, g1, y, r, p, a);
    OffExactFrame(g, g1, key, p, lo, hi);
    if r.Node? {
      ExactFrame(g, g1, key, r, lo0, Hi(key, p, hi));
      MinClimb(g1, g', key, InRight(l, y, p), r, lo, hi, lo0);
      OnRight(g1, g', l, y, p, b);
      OffExactFrame(g1, g', key, p, lo, hi);
      ExactFrame(g1, g', key, l, Lo(key, p, lo), Key(key, y));
      assert Max(b, a) == Max(a, b);
    } else {
      LeafGap(g1, key, Key(key, y), Hi(key, p, hi));
    }
    ExactWhole(g', key, p, l, y, r, lo, hi);
  }

  /** What the cached gaps say about the node above a hole on its left, and what is the same away from the hole. */
  lemma OnLeft(g: Gaps, g': Gaps, y: nat, r: Tree, p: Path, w: int)
    requires On(g', InLeft(y, r, p), w) && SameOff(g, g', InLeft(y, r, p))
    ensures LGap(g', y) == w && On(g', p, Max(w, RGap(g', y)))
    ensures RGap(g, y) == RGap(g', y) && SameGaps(g, g', Nodes(r)) && SameOff(g, g', p)
  {
  }

  lemma OnRight(g: Gaps, g': Gaps, l: Tree, y: nat, p: Path, w: int)
    requires On(g', InRight(l, y, p), w) && SameOff(g, g', InRight(l, y, p))
    ensures RGap(g', y) == w && On(g', p, Max(w, LGap(g', y)))
    ensures LGap(g, y) == LGap(g', y) && SameGaps(g, g', Nodes(l)) && SameOff(g, g', p)
  {
  }

  lemma LeafGap(g: Gaps, key: seq<int>, lo: int, hi: int)
    ensures MaxGap(key, Leaf, lo, hi) == hi - lo - 1 && Exact(g, key, Leaf, lo, hi)
  {
  }

  /** A node with exact subtrees in a place that is exact otherwise. */
  lemma ExactWhole(g: Gaps, key: seq<int>, p: Path, l: Tree, y: nat, r: Tree, lo: int, hi: int)
    requires Exact(g, key, l, Lo(key, p, lo), Key(key, y)) && Exact(g, key, r, Key(key, y), Hi(key, p, hi))
    requires LGap(g, y) == MaxGap(key, l, Lo(key, p, lo), Key(key, y)) && RGap(g, y) == MaxGap(key, r, Key(key, y), Hi(key, p, hi))
    requires OffExact(g, key, p, lo, hi) && On(g, p, Max(LGap(g, y), RGap(g, y)))
    ensures Exact(g, key, Plug(p, Node(l, y, r)), lo, hi)
  {
    hide OffExact, On, Plug;
    ExactPlug(g, key, p, Node(l, y, r), lo, hi);
  }
}
