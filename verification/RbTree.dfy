/** The red-black tree of sys/rb.c, with the gap-keeping of posix/idtree.c as its augmentation. */
module RbTree {
  import opened RbShape
  import opened RbColor
  import opened RbLinks
  import opened RbSteps
  import G = Gaps

  const NO_ID := 0xFFFF_FFFF

  // ----- Keys -----

  lemma {:induction false} OtherKeys(key: seq<int>, key': seq<int>, t: Tree, lo: int, hi: int, g: G.Gaps)
    requires forall n :: n in Nodes(t) ==> Key(key, n) == Key(key', n)
    ensures Ordered(key, t, lo, hi) <==> Ordered(key', t, lo, hi)
    ensures G.MaxGap(key, t, lo, hi) == G.MaxGap(key', t, lo, hi)
    ensures G.Exact(g, key, t, lo, hi) <==> G.Exact(g, key', t, lo, hi)
    decreases t
  {
    if t.Node? {
      assert t.n in Nodes(t);
      OtherKeys(key, key', t.left, lo, Key(key, t.n), g);
      OtherKeys(key, key', t.right, Key(key, t.n), hi, g);
    }
  }

  lemma AroundOrdered(m: Ptrs, root: nat, key: seq<int>, lo: int, hi: int, t: Tree)
    requires Around(m, root, key, lo, hi, Top, t)
    ensures Ordered(key, t, lo, hi)
  {
  }

  lemma AroundKeys(m: Ptrs, root: nat, key: seq<int>, key': seq<int>, lo: int, hi: int, t: Tree)
    requires Around(m, root, key, lo, hi, Top, t) && Ordered(key', t, lo, hi)
    ensures Around(m, root, key', lo, hi, Top, t)
  {
  }

  lemma WholeAround(m: Ptrs, root: nat, key: seq<int>, lo: int, hi: int, t: Tree)
    requires Links(m, t, 0) && root == Root(t) && Sep(t) && Ordered(key, t, lo, hi)
    ensures Around(m, root, key, lo, hi, Top, t)
  {
  }

  lemma RenamedAt(p: Path, s: Tree, u: nat, v: nat)
    requires s.Node? && s.n == u && Sep(Plug(p, s)) && v !in Nodes(Plug(p, s)) && v != 0
    ensures u in Nodes(Plug(p, s)) && Renamed(Plug(p, s), u, v) == Plug(p, Node(s.left, v, s.right))
  {
    SepPlug(p, s);
    RenamedNodes(s.left, u, v);
    RenamedNodes(s.right, u, v);
    RenamedPlug(p, s, Node(s.left, v, s.right), u, v);
  }

  /** Nodes are numbered from 1; number 0 is the null pointer. */
  class RbTree {
    const augment: bool   // whether the gaps are kept
    const low: int        // every key is larger than this
    const high: int       // and smaller than this
    var root: nat
    var left: seq<nat>
    var right: seq<nat>
    var parent: seq<nat>
    var color: seq<Color>
    var key: seq<int>
    var lgap: seq<int>
    var rgap: seq<int>

    /** An empty tree for nodes below `n`. */
    constructor (augment: bool, low: int, high: int, n: nat)
      requires augment ==> low == -1 && high == NO_ID
      ensures Holds(Leaf) && |left| == n && this.augment == augment && this.low == low && this.high == high
    {
      this.augment, this.low, this.high := augment, low, high;
      root := 0;
      left, right, parent := seq(n, _ => 0), seq(n, _ => 0), seq(n, _ => 0);
      color, key := seq(n, _ => Black), seq(n, _ => 0);
      lgap, rgap := seq(n, _ => 0), seq(n, _ => 0);
      new;
      EmptyHolds();
    }

    lemma EmptyHolds()
      requires Sized() && root == 0
      ensures Holds(Leaf)
    {
      assert TreeOk(color, Leaf, 0);
    }

    function Mem(): Ptrs
      reads `left, `right, `parent
    {
      Ptrs(left, right, parent)
    }

    function Cached(): G.Gaps
      reads `lgap, `rgap
    {
      G.Gaps(lgap, rgap)
    }

    ghost predicate Sized()
      reads this
    {
      && |left| == |right| == |parent| == |color| == |key| == |lgap| == |rgap|
      && (augment ==> low == -1 && high == NO_ID)
    }

    /** The pointers spell `t` around and below the place `p`. */
    ghost predicate At(p: Path, t: Tree)
      reads `root, `left, `right, `parent, `key
    {
      Around(Mem(), root, key, low, high, p, t)
    }

    ghost predicate GapsExact(t: Tree)
      reads `key, `lgap, `rgap
    {
      augment ==> G.Exact(Cached(), key, t, low, high)
    }

    /** The fields hold the red-black search tree `t`. */
    ghost predicate Holds(t: Tree)
      reads this
    {
      Sized() && At(Top, t) && GapsExact(t) && RedBlack(color, t)
    }

    /** What is needed to recompute the gaps at a node and above it. */
    ghost predicate Seated(p: Path, t: Tree)
      reads `root, `left, `right, `parent, `key
    {
      && t.Node? && Has(Mem(), t.n, Root(t.left), Root(t.right), Above(p)) && PathLinks(Mem(), root, p, t.n)
      && Root(t.left) < |left| && Root(t.right) < |left|
      && Sep(t) && SepPath(p) && Nodes(t) !! PathNodes(p)
      && Lo(key, p, low) < Key(key, t.n) < Hi(key, p, high) && PathOrdered(key, p, low, high)
    }

    lemma SeatedParts(p: Path, t: Tree)
      requires Sized() && Seated(p, t)
      ensures t.Node? && t.n < |left| && t.n != 0 && t.n !in PathNodes(p) && PathLinks(Mem(), root, p, t.n) && SepPath(p)
      ensures parent[t.n] == Above(p) && left[t.n] == Root(t.left) && right[t.n] == Root(t.right)
      ensures left[t.n] < |left| && right[t.n] < |left| && left[t.n] != t.n && right[t.n] != t.n
      ensures left[t.n] == 0 <==> t.left.Leaf?
      ensures right[t.n] == 0 <==> t.right.Leaf?
    {
      SepZero(t);
      SepZero(t.left);
      SepZero(t.right);
    }

    /** Whether the climb has come from the left child. */
    lemma FromLeft(p: Path, n: nat)
      requires Sized() && PathLinks(Mem(), root, p, n) && SepPath(p) && n != 0 && n !in PathNodes(p)
      ensures p.Top? <==> Above(p) == 0
      ensures !p.Top? ==> p.n < |left| && p.n !in PathNodes(p.up) && SepPath(p.up) && PathLinks(Mem(), root, p.up, p.n)
      ensures !p.Top? ==> parent[p.n] == Above(p.up)
      ensures p.InLeft? ==> left[p.n] == n && right[p.n] != n
      ensures p.InRight? ==> right[p.n] == n && left[p.n] != n
    {
    }

    lemma {:induction false} PathInBounds(p: Path, n: nat)
      requires Sized() && PathLinks(Mem(), root, p, n)
      ensures G.InBounds(Cached(), p)
      decreases p
    {
      if !p.Top? {
        PathInBounds(p.up, p.n);
      }
    }

    /** The id next below the gap left of `n`. */
    method ClimbLeft(n: nat, ghost p: Path, ghost t: Tree) returns (a: nat)
      requires Sized() && Seated(p, t) && t.n == n
      ensures a < |key| && (p.Top? ==> a == n)
      ensures if key[n] <= key[a] then Lo(key, p, low) == low else Lo(key, p, low) == key[a]
    {
      a := n;
      var it: nat := n;
      ghost var u := p;
      SepZero(t);
      while parent[it] != 0
        invariant PathLinks(Mem(), root, u, it) && SepPath(u) && it != 0 && it !in PathNodes(u)
        invariant it < |left| && parent[it] == Above(u) && a == it && key[n] <= key[it]
        invariant Lo(key, u, low) == Lo(key, p, low) && PathOrdered(key, u, low, high)
        invariant key[n] < Hi(key, u, high) || it != n
        invariant Lo(key, u, low) < key[it] < Hi(key, u, high)
        decreases Depth(u)
      {
        FromLeft(u, it);
        a := parent[it];
        if right[a] == it {
          return;
        }
        it, u := a, u.up;
      }
      FromLeft(u, it);
    }

    method ClimbRight(n: nat, first: nat, ghost p: Path, ghost t: Tree) returns (a: nat)
      requires Sized() && Seated(p, t) && t.n == n
      requires first < |key| && (p.Top? ==> first == n)
      ensures a < |key|
      ensures if key[n] >= key[a] then Hi(key, p, high) == high else Hi(key, p, high) == key[a]
    {
      a := first;
      var it: nat := n;
      ghost var u := p;
      SepZero(t);
      while parent[it] != 0
        invariant PathLinks(Mem(), root, u, it) && SepPath(u) && it != 0 && it !in PathNodes(u)
        invariant it < |left| && parent[it] == Above(u) && key[n] >= key[it]
        invariant a < |key| && (u.Top? ==> a == it) && (it != n ==> a == it)
        invariant Hi(key, u, high) == Hi(key, p, high) && PathOrdered(key, u, low, high)
        invariant Lo(key, u, low) < key[it] < Hi(key, u, high)
        decreases Depth(u)
      {
        FromLeft(u, it);
        a := parent[it];
        if left[a] == it {
          return;
        }
        it, u := a, u.up;
      }
      FromLeft(u, it);
    }

    /** Every ancestor gets the larger gap of the child the climb comes from. */
    method Propagate(n: nat, ghost p: Path)
      requires Sized() && n < |left| && parent[n] == Above(p) && n != 0 && n !in PathNodes(p)
      requires PathLinks(Mem(), root, p, n) && SepPath(p)
      modifies `lgap, `rgap
      ensures Sized() && Cached() == G.Climbed(old(Cached()), p, G.Largest(old(Cached()), n))
    {
      hide PathLinks, SepPath, PathNodes;
      PathInBounds(p, n);
      ghost var g := Cached();
      ghost var w := G.Largest(g, n);
      var it: nat := n;
      ghost var u := p;
      while parent[it] != 0
        invariant Sized() && PathLinks(Mem(), root, u, it) && SepPath(u) && it != 0 && it !in PathNodes(u)
        invariant it < |left| && parent[it] == Above(u) && G.InBounds(Cached(), u)
        invariant G.Climbed(Cached(), u, G.Largest(Cached(), it)) == G.Climbed(g, p, w)
        decreases Depth(u)
      {
        FromLeft(u, it);
        var q := parent[it];
        ghost var g0 := Cached();
        if left[q] == it {
          lgap := lgap[q := G.Max(lgap[it], rgap[it])];
        } else {
          rgap := rgap[q := G.Max(lgap[it], rgap[it])];
        }
        G.InBoundsFrame(g0, Cached(), u.up);
        it, u := q, u.up;
      }
      FromLeft(u, it);
    }

    /** The gap on the left: up to the next smaller id, or what the left child has. */
    method LeftGap(n: nat, ghost p: Path, ghost t: Tree) returns (a: nat)
      requires augment && Sized() && Seated(p, t) && t.n == n
      modifies `lgap
      ensures Sized() && lgap == old(lgap)[n := G.NewLeft(old(Cached()), key, p, t, low)]
      ensures a < |key| && (p.Top? ==> a == n)
    {
      SeatedParts(p, t);
      a := n;
      if left[n] == 0 {
        a := ClimbLeft(n, p, t);
        lgap := lgap[n := if key[n] <= key[a] then key[n] else key[n] - key[a] - 1];
      } else {
        var l := left[n];
        lgap := lgap[n := G.Max(lgap[l], rgap[l])];
      }
    }

    method RightGap(n: nat, first: nat, ghost p: Path, ghost t: Tree)
      requires augment && Sized() && Seated(p, t) && t.n == n
      requires first < |key| && (p.Top? ==> first == n)
      modifies `rgap
      ensures Sized() && rgap == old(rgap)[n := G.NewRight(old(Cached()), key, p, t, high)]
    {
      SeatedParts(p, t);
      if right[n] == 0 {
        var a := ClimbRight(n, first, p, t);
        rgap := rgap[n := if key[n] >= key[a] then NO_ID - key[n] - 1 else key[a] - key[n] - 1];
      } else {
        var r := right[n];
        rgap := rgap[n := G.Max(lgap[r], rgap[r])];
      }
    }

    /** Recomputes the gaps of a node, and then those of its ancestors. */
    method Augment(n: nat, ghost p: Path, ghost t: Tree)
      requires Sized() && Seated(p, t) && t.n == n
      modifies `lgap, `rgap
      ensures Sized()
      ensures augment ==> Cached() == G.Augmented(old(Cached()), key, p, t, low, high)
      ensures !augment ==> Cached() == old(Cached())
    {
      hide PathLinks, SepPath, PathOrdered, Nodes, PathNodes, Sep, Lo, Hi, G.Climbed, Seated;
      if augment {
        SeatedParts(p, t);
        ghost var g := Cached();
        var a := LeftGap(n, p, t);
        assert G.NewRight(Cached(), key, p, t, high) == G.NewRight(g, key, p, t, high);
        RightGap(n, a, p, t);
        Propagate(n, p);
      }
    }

    /** The pointer writes of a left rotation at `x`. */
    method LinkLeft(x: nat, ghost p: Path, ghost t: Tree) returns (y: nat)
      requires Sized() && At(p, t) && t.Node? && t.n == x && t.right.Node?
      modifies `root, `left, `right, `parent
      ensures Sized() && |left| == old(|left|) && At(p, RotatedLeft(t)) && y == t.right.n
    {
      hide Links, PathLinks, Sep, SepPath, Nodes, PathNodes, Ordered, PathOrdered;
      ghost var m, r := Mem(), root;
      LeftParts(m, r, p, t);
      RotatedLeftOrdered(key, t, Lo(key, p, low), Hi(key, p, high));
      y := right[x];
      right := right[x := left[y]];
      if left[y] != 0 {
        parent := parent[left[y] := x];
      }
      parent := parent[y := parent[x]];
      if parent[x] == 0 {
        root := y;
      } else if x == left[parent[x]] {
        left := left[parent[x] := y];
      } else {
        right := right[parent[x] := y];
      }
      left := left[y := x];
      parent := parent[x := y];
      RotatedLeftLinks(m, Mem(), r, root, p, t);
    }

    method LinkRight(x: nat, ghost p: Path, ghost t: Tree) returns (y: nat)
      requires Sized() && At(p, t) && t.Node? && t.n == x && t.left.Node?
      modifies `root, `left, `right, `parent
      ensures Sized() && |left| == old(|left|) && At(p, RotatedRight(t)) && y == t.left.n
    {
      hide Links, PathLinks, Sep, SepPath, Nodes, PathNodes, Ordered, PathOrdered;
      ghost var m, r := Mem(), root;
      RightParts(m, r, p, t);
      RotatedRightOrdered(key, t, Lo(key, p, low), Hi(key, p, high));
      y := left[x];
      left := left[x := right[y]];
      if right[y] != 0 {
        parent := parent[right[y] := x];
      }
      parent := parent[y := parent[x]];
      if parent[x] == 0 {
        root := y;
      } else if x == right[parent[x]] {
        right := right[parent[x] := y];
      } else {
        left := left[parent[x] := y];
      }
      right := right[y := x];
      parent := parent[x := y];
      RotatedRightLinks(m, Mem(), r, root, p, t);
    }

    lemma SeatedIn(p: Path, t: Tree)
      requires Sized() && At(p, t) && t.Node?
      ensures Seated(p, t) && G.Placed(Cached(), p, t)
    {
      PathInBounds(p, t.n);
      assert Links(Mem(), t.left, t.n) && Links(Mem(), t.right, t.n);
    }

    /** A place inside a subtree is a place in the tree. */
    lemma AtLeft(p: Path, t: Tree)
      requires t.Node?
      ensures At(p, t) <==> At(InLeft(t.n, t.right, p), t.left)
      ensures Plug(p, t) == Plug(InLeft(t.n, t.right, p), t.left)
    {
      AroundPlug(Mem(), root, key, low, high, p, t);
      AroundPlug(Mem(), root, key, low, high, InLeft(t.n, t.right, p), t.left);
    }

    lemma AtRight(p: Path, t: Tree)
      requires t.Node?
      ensures At(p, t) <==> At(InRight(t.left, t.n, p), t.right)
      ensures Plug(p, t) == Plug(InRight(t.left, t.n, p), t.right)
    {
      AroundPlug(Mem(), root, key, low, high, p, t);
      AroundPlug(Mem(), root, key, low, high, InRight(t.left, t.n, p), t.right);
    }

    /** Recomputing at a node whose children are exact makes all exact that was exact away from it. */
    method AugmentAt(n: nat, ghost p: Path, ghost t: Tree)
      requires Sized() && At(p, t) && t.Node? && t.n == n
      requires augment ==> G.Exact(Cached(), key, t.left, Lo(key, p, low), Key(key, n))
      requires augment ==> G.Exact(Cached(), key, t.right, Key(key, n), Hi(key, p, high))
      modifies `lgap, `rgap
      ensures Sized() && At(p, t)
      ensures augment ==> G.Exact(Cached(), key, t, Lo(key, p, low), Hi(key, p, high))
      ensures augment ==> G.On(Cached(), p, G.MaxGap(key, t, Lo(key, p, low), Hi(key, p, high)))
      ensures augment ==> G.SameOff(old(Cached()), Cached(), p)
      ensures (augment ==> G.OffExact(old(Cached()), key, p, low, high)) ==> GapsExact(Plug(p, t))
    {
      hide Around, Seated, G.Exact, G.OffExact, G.Augmented, G.Placed;
      SeatedIn(p, t);
      ghost var g := Cached();
      Augment(n, p, t);
      if augment {
        G.AugmentedFrame(g, key, p, t, low, high);
        G.AugmentedExact(g, key, p, t, low, high);
      }
    }

    lemma Children(p: Path, t: Tree)
      requires Sized() && At(p, t) && t.Node?
      ensures t.n < |left| && left[t.n] == Root(t.left) && right[t.n] == Root(t.right)
      ensures t.n != 0 && (Root(t.left) == 0 <==> t.left.Leaf?) && (Root(t.right) == 0 <==> t.right.Leaf?)
    {
      SepZero(t);
      SepZero(t.left);
      SepZero(t.right);
    }

    lemma ExactHere(p: Path, t: Tree)
      requires augment && GapsExact(Plug(p, t)) && t.Node?
      ensures G.Exact(Cached(), key, t.left, Lo(key, p, low), Key(key, t.n))
      ensures G.Exact(Cached(), key, t.right, Key(key, t.n), Hi(key, p, high))
      ensures G.OffExact(Cached(), key, p, low, high)
    {
      G.ExactPlug(Cached(), key, p, t, low, high);
    }

    method RotateLeft(x: nat, ghost p: Path, ghost t: Tree)
      requires Sized() && At(p, t) && t.Node? && t.n == x && t.right.Node? && GapsExact(Plug(p, t))
      modifies `root, `left, `right, `parent, `lgap, `rgap
      ensures Sized() && |left| == old(|left|) && At(p, RotatedLeft(t)) && GapsExact(Plug(p, RotatedLeft(t)))
    {
      ghost var s := RotatedLeft(t);
      ghost var q, q' := InLeft(s.n, s.right, p), InRight(s.left, s.n, p);
      assert Plug(q, s.left) == Plug(p, s) == Plug(q', s.right);
      hide Around, Plug, G.Exact, G.OffExact, G.On, G.SameOff, GapsExact, G.MaxGap;
      if augment {
        assert G.Exact(Cached(), key, Plug(p, t), low, high) by { assert GapsExact(Plug(p, t)); }
        RotatedLeftGaps(Cached(), key, p, t, low, high);
      }
      var y := LinkLeft(x, p, t);
      Children(p, s);
      AtLeft(p, s);
      AugmentAt(left[y], q, s.left);
      AtLeft(p, s);
      if right[y] != 0 {
        if augment {
          ExactHere(q', s.right);
        }
        AtRight(p, s);
        AugmentAt(right[y], q', s.right);
        AtRight(p, s);
      }
    }

    method RotateRight(x: nat, ghost p: Path, ghost t: Tree)
      requires Sized() && At(p, t) && t.Node? && t.n == x && t.left.Node? && GapsExact(Plug(p, t))
      modifies `root, `left, `right, `parent, `lgap, `rgap
      ensures Sized() && |left| == old(|left|) && At(p, RotatedRight(t)) && GapsExact(Plug(p, RotatedRight(t)))
    {
      ghost var s := RotatedRight(t);
      ghost var q, q' := InLeft(s.n, s.right, p), InRight(s.left, s.n, p);
      assert Plug(q', s.right) == Plug(p, s);
      ghost var g := Cached();
      hide Around, Plug, G.Exact, G.OffExact, G.On, G.SameOff, GapsExact, G.MaxGap;
      if augment {
        assert G.Exact(g, key, Plug(p, t), low, high) by { assert GapsExact(Plug(p, t)); }
        RotatedRightGaps(g, key, p, t, low, high);
      }
      var y := LinkRight(x, p, t);
      Children(p, s);
      if left[y] != 0 {
        AtLeft(p, s);
        if augment {
          ExactParts(g, key, s.left, Lo(key, p, low), Key(key, y));
        }
        AugmentAt(left[y], q, s.left);
        AtLeft(p, s);
        if augment {
          RotatedRightHalf(g, Cached(), key, p, t, low, high);
        }
      }
      AtRight(p, s);
      AugmentAt(right[y], q', s.right);
      AtRight(p, s);
    }

    // ----- Insertion -----

    /** What the pointers say about a place. */
    lemma Family(p: Path, t: Tree)
      requires Sized() && At(p, t) && t.Node?
      ensures t.n < |left| && parent[t.n] == Above(p) && (Above(p) == 0 <==> p.Top?)
      ensures !p.Top? ==> p.n < |left| && p.n != t.n
      ensures p.InLeft? ==> left[p.n] == t.n && right[p.n] == Root(p.right) && right[p.n] != t.n
      ensures p.InRight? ==> right[p.n] == t.n && left[p.n] == Root(p.left) && left[p.n] != t.n
    {
      AboveInPath(p);
    }

    lemma AtPlug(p: Path, t: Tree)
      ensures At(p, t) <==> At(Top, Plug(p, t))
      ensures Sized() && At(p, t) && t.Node? ==> Sep(t) && root == Root(Plug(p, t)) && 0 < root < |left| && Plug(p, t).Node?
      ensures Plug(Top, Plug(p, t)) == Plug(p, t)
    {
      SepPlug(p, t);
      AroundPlug(Mem(), root, key, low, high, p, t);
      PlugNode(p, t);
    }

    /** A place together with its parent. */
    lemma AtJoined(p: Path, t: Tree)
      requires !p.Top?
      ensures At(p, t) <==> At(p.up, Joined(p, t))
      ensures Plug(p, t) == Plug(p.up, Joined(p, t))
    {
      AroundPlug(Mem(), root, key, low, high, p, t);
      AroundPlug(Mem(), root, key, low, high, p.up, Joined(p, t));
    }

    lemma SameNodes(p: Path, t: Tree, t': Tree)
      requires Nodes(t) == Nodes(t')
      ensures Nodes(Plug(p, t)) == Nodes(Plug(p, t'))
    {
      SepPlug(p, t);
      SepPlug(p, t');
    }

    /** Whether a node and its parent are children of different sides. */
    ghost function Bend(p: Path): nat {
      if p.Top? || p.up.Top? || (p.InLeft? <==> p.up.InLeft?) then 0 else 1
    }

    /** The loop invariant of InsertBalance. */
    ghost predicate Unsettled(p: Path, t: Tree, h: int, nodes: set<nat>)
      reads this
    {
      Sized() && At(p, t) && GapsExact(Plug(p, t)) && RedAt(color, p, t, h) && Nodes(Plug(p, t)) == nodes
    }

    /** What the loop body reads first. */
    lemma Grandparent(p: Path, t: Tree, h: int, nodes: set<nat>)
      requires Unsettled(p, t, h, nodes) && !p.Top? && Col(color, p.n) == Red
      ensures !p.up.Top? && t.n < |left| && p.n < |left| && p.up.n < |left| && t.n != 0 && p.n != 0 && p.up.n != 0
      ensures p.n != t.n && p.up.n != p.n && parent[t.n] == p.n && parent[p.n] == p.up.n
      ensures p.InLeft? <==> left[p.n] == t.n
      ensures p.InRight? <==> right[p.n] == t.n
      ensures p.up.InLeft? <==> left[p.up.n] == p.n
      ensures p.up.InLeft? ==> right[p.up.n] == Root(Beside(p.up))
      ensures p.up.InRight? ==> left[p.up.n] == Root(Beside(p.up))
      ensures Root(Beside(p.up)) < |left| && (Root(Beside(p.up)) == 0 <==> Beside(p.up).Leaf?)
      ensures ColorOf(color, Beside(p.up)) == if Root(Beside(p.up)) == 0 then Black else color[Root(Beside(p.up))]
      ensures Sep(t) && SepPath(p) && Nodes(t) !! PathNodes(p)
      ensures At(p.up, Joined(p, t)) && At(p.up.up, Joined(p.up, Joined(p, t)))
      ensures Plug(p, t) == Plug(p.up, Joined(p, t)) == Plug(p.up.up, Joined(p.up, Joined(p, t)))
    {
      GrandparentBlack(color, p, t, h);
      AtJoined(p, t);
      AtJoined(p.up, Joined(p, t));
      Family(p, t);
      Family(p.up, Joined(p, t));
      AboveInPath(p);
      SepZero(t);
      SepZero(Beside(p.up));
      assert Links(Mem(), Beside(p.up), p.up.n);
    }

    /** The parent is a left child. */
    method InsertStepLeft(z: nat, ghost p: Path, ghost s: Tree, ghost h: int, ghost nodes: set<nat>)
      returns (z': nat, ghost p': Path, ghost s': Tree, ghost h': int)
      requires Unsettled(p, s, h, nodes) && s.n == z && !p.Top? && Col(color, p.n) == Red && p.up.InLeft?
      modifies `root, `left, `right, `parent, `lgap, `rgap, `color
      ensures Unsettled(p', s', h', nodes) && s'.n == z' && |left| == old(|left|)
      ensures Depth(p') < Depth(p) || (Depth(p') == Depth(p) && Bend(p') < Bend(p))
    {
      hide At, Plug, GapsExact, TreeOk, PathOk, Nodes, PathNodes, Sep, SepPath;
      Grandparent(p, s, h, nodes);
      assert Depth(p) == 1 + Depth(p.up) && Depth(p.up) == 1 + Depth(p.up.up);
      var q := parent[z];
      var g := parent[q];
      var y := right[g];
      ghost var c := color;
      if y != 0 && color[y] == Red {
        color := color[q := Black];
        color := color[y := Black];
        color := color[g := Red];
        UncleRed(c, color, p, s, h);
        z', p', s', h' := g, p.up.up, Joined(p.up, Joined(p, s)), h + 1;
      } else if z == right[q] {
        z' := q;
        ghost var t := Joined(p, s);
        RotateLeft(z', p.up, t);
        RotatedNodes(t);
        SameNodes(p.up, t, RotatedLeft(t));
        Inner(color, p, s, h);
        AtLeft(p.up, RotatedLeft(t));
        p', s', h' := InLeft(s.n, s.right, p.up), Node(p.left, p.n, s.left), h;
      } else {
        color := color[q := Black];
        color := color[g := Red];
        ghost var t := Joined(p.up, Joined(p, s));
        Outer(c, color, p, s, h);
        RotateRight(g, p.up.up, t);
        RotatedNodes(t);
        SameNodes(p.up.up, t, RotatedRight(t));
        AtLeft(p.up.up, RotatedRight(t));
        z', p', s', h' := z, InLeft(p.n, Node(p.right, p.up.n, Beside(p.up)), p.up.up), s, h;
      }
    }

    /** The parent is a right child. */
    method InsertStepRight(z: nat, ghost p: Path, ghost s: Tree, ghost h: int, ghost nodes: set<nat>)
      returns (z': nat, ghost p': Path, ghost s': Tree, ghost h': int)
      requires Unsettled(p, s, h, nodes) && s.n == z && !p.Top? && Col(color, p.n) == Red && p.up.InRight?
      modifies `root, `left, `right, `parent, `lgap, `rgap, `color
      ensures Unsettled(p', s', h', nodes) && s'.n == z' && |left| == old(|left|)
      ensures Depth(p') < Depth(p) || (Depth(p') == Depth(p) && Bend(p') < Bend(p))
    {
      hide At, Plug, GapsExact, TreeOk, PathOk, Nodes, PathNodes, Sep, SepPath;
      Grandparent(p, s, h, nodes);
      var q := parent[z];
      var g := parent[q];
      var y := left[g];
      ghost var c := color;
      if y != 0 && color[y] == Red {
        color := color[q := Black];
        color := color[y := Black];
        color := color[g := Red];
        UncleRed(c, color, p, s, h);
        z', p', s', h' := g, p.up.up, Joined(p.up, Joined(p, s)), h + 1;
      } else if z == left[q] {
        z' := q;
        ghost var t := Joined(p, s);
        RotateRight(z', p.up, t);
        RotatedNodes(t);
        SameNodes(p.up, t, RotatedRight(t));
        Inner(color, p, s, h);
        AtRight(p.up, RotatedRight(t));
        p', s', h' := InRight(s.left, s.n, p.up), Node(s.right, p.n, p.right), h;
      } else {
        color := color[q := Black];
        color := color[g := Red];
        ghost var t := Joined(p.up, Joined(p, s));
        Outer(c, color, p, s, h);
        RotateLeft(g, p.up.up, t);
        RotatedNodes(t);
        SameNodes(p.up.up, t, RotatedLeft(t));
        AtRight(p.up.up, RotatedLeft(t));
        z', p', s', h' := z, InRight(Node(Beside(p.up), p.up.n, p.left), p.n, p.up.up), s, h;
      }
    }

    /** With a black parent, or none, painting the root black settles the colours. */
    lemma Settled(col: seq<Color>, p: Path, t: Tree, h: int)
      requires RedAt(col, p, t, h) && Sep(t) && (p.Top? || Col(col, p.n) == Black)
      requires Root(Plug(p, t)) < |col|
      ensures RedBlack(col[Root(Plug(p, t)) := Black], Plug(p, t))
    {
      if p.Top? {
        var col' := col[t.n := Black];
        TreeRepainted(col, col', t.left, h);
        TreeRepainted(col, col', t.right, h);
        NodeOk(col', t.left, t.n, t.right, h);
      } else {
        PlugRedBlack(col, p, t, h);
        PlugNode(p, t);
        assert col[Root(Plug(p, t)) := Black] == col;
      }
    }

    /** Restores the colours above a red node that is sound but for its parent perhaps being red. */
    method InsertBalance(node: nat, ghost p0: Path, ghost s0: Tree, ghost h0: int) returns (ghost t: Tree)
      requires Unsettled(p0, s0, h0, Nodes(Plug(p0, s0))) && s0.n == node
      modifies `root, `left, `right, `parent, `lgap, `rgap, `color
      ensures Holds(t) && |left| == old(|left|) && Nodes(t) == Nodes(Plug(p0, s0))
    {
      hide At, Plug, GapsExact, TreeOk, PathOk, Nodes, RedBlack;
      var z := node;
      ghost var p, s, h := p0, s0, h0;
      ghost var nodes := Nodes(Plug(p0, s0));
      Family(p, s);
      while parent[z] != 0 && color[parent[z]] == Red
        invariant Unsettled(p, s, h, nodes) && |left| == old(|left|)
        invariant s.n == z && z < |left| && parent[z] == Above(p) && (parent[z] == 0 <==> p.Top?)
        invariant parent[z] < |left|
        decreases Depth(p), Bend(p)
      {
        Grandparent(p, s, h, nodes);
        if parent[z] == left[parent[parent[z]]] {
          z, p, s, h := InsertStepLeft(z, p, s, h, nodes);
        } else {
          z, p, s, h := InsertStepRight(z, p, s, h, nodes);
        }
        Family(p, s);
      }
      t := Plug(p, s);
      AtPlug(p, s);
      Settled(color, p, s, h);
      color := color[root := Black];
    }

    lemma WholeTree(t: Tree)
      requires Sized() && At(Top, t)
      ensures root == Root(t) && (root == 0 <==> t.Leaf?) && Plug(Top, t) == t && 0 !in Nodes(t)
      ensures Lo(key, Top, low) == low && Hi(key, Top, high) == high && Ordered(key, t, low, high)
    {
      SepZero(t);
    }

    /** Writes the pointers that hang `z` below `y`, on the side that the last comparison said. */
    method Hang(z: nat, y: nat, c: int, ghost p: Path)
      requires Sized() && 0 < z < |left| && z !in PathNodes(p) && At(p, Leaf)
      requires Lo(key, p, low) < key[z] < Hi(key, p, high)
      requires y == Above(p) && (!p.Top? ==> c != 0 && (c > 0 <==> p.InLeft?))
      modifies `root, `left, `right, `parent
      ensures Sized() && |left| == old(|left|) && At(p, Node(Leaf, z, Leaf))
    {
      ghost var m, r := Mem(), root;
      AboveInPath(p);
      parent := parent[z := y];
      if y == 0 {
        root := z;
      } else if c > 0 {
        left := left[y := z];
      } else {
        right := right[y := z];
      }
      left := left[z := 0];
      right := right[z := 0];
      HungInLinks(m, Mem(), r, root, p, z);
    }

    lemma SingleNode(z: nat)
      ensures Nodes(Node(Leaf, z, Leaf)) == {z} && Nodes(Leaf) == {}
    {
    }

    lemma AtParts(p: Path, t: Tree)
      requires At(p, t)
      ensures Sep(t) && SepPath(p) && Nodes(t) !! PathNodes(p) && PathOrdered(key, p, low, high)
    {
    }

    /** A new red node in a hole of a red-black tree. */
    lemma HungUnsettled(col: seq<Color>, p: Path, z: nat) returns (h: int)
      requires RedBlack(col, Plug(p, Leaf)) && z !in PathNodes(p) && z < |col|
      ensures RedAt(col[z := Red], p, Node(Leaf, z, Leaf), h)
    {
      h := RedBlackInverse(col, p, Leaf);
      PathRepainted(col, col[z := Red], p, h);
      NodeOk(col[z := Red], Leaf, z, Leaf, h);
    }

    /** The second half of Insert: the node into its hole, and the colours and gaps restored. */
    method Place(z: nat, y: nat, c: int, ghost p: Path, ghost t0: Tree) returns (ghost t: Tree)
      requires Holds(t0) && 0 < z < |left| && z !in Nodes(t0) && At(p, Leaf) && Plug(p, Leaf) == t0
      requires Lo(key, p, low) < key[z] < Hi(key, p, high)
      requires y == Above(p) && (!p.Top? ==> c != 0 && (c > 0 <==> p.InLeft?))
      modifies `root, `left, `right, `parent, `lgap, `rgap, `color
      ensures Holds(t) && |left| == old(|left|) && Nodes(t) == Nodes(t0) + {z}
      ensures forall n :: n in Nodes(t0) ==> Key(key, n) != key[z]
    {
      hide At, Plug, RedBlack, Nodes, PathNodes, RedAt, G.OffExact, G.On;
      ghost var s := Node(Leaf, z, Leaf);
      SepPlug(p, Leaf);
      SepPlug(p, s);
      SingleNode(z);
      AtParts(p, Leaf);
      PathMisses(key, p, low, high, key[z]);
      ghost var h := HungUnsettled(color, p, z);
      if augment {
        G.ExactPlug(Cached(), key, p, Leaf, low, high);
      }
      Hang(z, y, c, p);
      color := color[z := Red];
      AugmentAt(z, p, s);
      t := InsertBalance(z, p, s, h);
    }

    /** The node with the wanted key, or null: there is none exactly if no node of the tree has it. */
    method Find(k: int, ghost t: Tree) returns (n: nat)
      requires Sized() && At(Top, t)
      ensures n != 0 ==> n in Nodes(t) && Key(key, n) == k
      ensures n == 0 ==> forall m :: m in Nodes(t) ==> Key(key, m) != k
    {
      var it: nat := root;
      ghost var p, s := Top, t;
      WholeTree(t);
      while it != 0
        invariant At(p, s) && Plug(p, s) == t && it == Root(s) && (it == 0 <==> s.Leaf?)
        invariant low < k < high ==> Lo(key, p, low) < k < Hi(key, p, high)
        decreases s
      {
        Children(p, s);
        AtLeft(p, s);
        AtRight(p, s);
        var c := key[it] - k;
        if c == 0 {
          SepPlug(p, s);
          return it;
        }
        if c > 0 {
          it := left[it];
          p, s := InLeft(s.n, s.right, p), s.left;
        } else {
          it := right[it];
          p, s := InRight(s.left, s.n, p), s.right;
        }
      }
      n := 0;
      OrderedBounds(key, t, low, high);
      if low < k < high {
        PathMisses(key, p, low, high, k);
        SepPlug(p, s);
      }
    }

    /**
     * Hangs `z` into the tree, unless a node with an equal key is there:
     * then that one is returned and nothing changes.
     */
    method Insert(z: nat, ghost t0: Tree) returns (other: nat, ghost t: Tree)
      requires Holds(t0) && 0 < z < |left| && z !in Nodes(t0) && low < key[z] < high
      modifies `root, `left, `right, `parent, `lgap, `rgap, `color
      ensures Holds(t) && |left| == old(|left|)
      ensures other != 0 ==> other in Nodes(t0) && Key(key, other) == key[z] && t == t0 && unchanged(this)
      ensures other == 0 ==> Nodes(t) == Nodes(t0) + {z} && forall n :: n in Nodes(t0) ==> Key(key, n) != key[z]
    {
      var y: nat, x: nat, c := 0, root, 0;
      ghost var p, s := Top, t0;
      WholeTree(t0);
      while x != 0
        invariant At(p, s) && Plug(p, s) == t0 && x == Root(s) && y == Above(p) && (x == 0 <==> s.Leaf?)
        invariant Lo(key, p, low) < key[z] < Hi(key, p, high)
        invariant !p.Top? ==> c != 0 && (c > 0 <==> p.InLeft?)
        invariant unchanged(this)
        decreases s
      {
        Children(p, s);
        y := x;
        c := key[y] - key[z];
        if c == 0 {
          SepPlug(p, s);
          return y, t0;
        }
        AtLeft(p, s);
        AtRight(p, s);
        if c > 0 {
          x := left[x];
          p, s := InLeft(s.n, s.right, p), s.left;
        } else {
          x := right[x];
          p, s := InRight(s.left, s.n, p), s.right;
        }
      }
      other := 0;
      t := Place(z, y, c, p, t0);
    }

    // ----- Removal -----

    /** The loop invariant of RemoveBalance. */
    ghost predicate Lacking(p: Path, t: Tree, h: int, nodes: set<nat>)
      reads this
    {
      Sized() && At(p, t) && GapsExact(Plug(p, t)) && Short(color, p, t, h) && Nodes(Plug(p, t)) == nodes
    }

    /** What the loop body reads about a place and its sibling. */
    lemma Sibling(p: Path, t: Tree)
      requires Sized() && At(p, t) && !p.Top? && Beside(p).Node?
      ensures var w := Beside(p);
        && p.n < |left| && w.n < |left| && p.n != 0 && w.n != 0 && w.n != Root(t) && p.n != w.n
        && (p.InLeft? ==> left[p.n] == Root(t) && right[p.n] == w.n)
        && (p.InRight? ==> right[p.n] == Root(t) && left[p.n] == w.n)
        && left[w.n] == Root(w.left) && right[w.n] == Root(w.right)
        && (left[w.n] == 0 <==> w.left.Leaf?) && (right[w.n] == 0 <==> w.right.Leaf?)
        && left[w.n] < |left| && right[w.n] < |left|
      ensures Sep(t) && SepPath(p) && Nodes(t) !! PathNodes(p)
      ensures At(p.up, Joined(p, t)) && Plug(p, t) == Plug(p.up, Joined(p, t))
    {
      AtJoined(p, t);
      AboveInPath(p);
      SepZero(t);
      var w := Beside(p);
      SepZero(w);
      SepZero(w.left);
      SepZero(w.right);
      assert Links(Mem(), w, p.n) && Links(Mem(), w.left, w.n) && Links(Mem(), w.right, w.n);
    }

    /** Whether a place needs no more balancing. */
    ghost predicate Done(col: seq<Color>, p: Path, t: Tree) {
      p.Top? || ColorOf(col, t) == Red
    }

    /** Whether the sibling is black with its outer child red. */
    ghost predicate Ready(col: seq<Color>, p: Path) {
      && !p.Top? && Beside(p).Node? && Col(col, Beside(p).n) == Black
      && ColorOf(col, if p.InLeft? then Beside(p).right else Beside(p).left) == Red
    }

    ghost predicate RedBeside(col: seq<Color>, p: Path) {
      !p.Top? && ColorOf(col, Beside(p)) == Red
    }

    /** Each round ends the balancing, or makes the next one end it, or climbs. */
    ghost predicate Progress(col: seq<Color>, p: Path, col': seq<Color>, p': Path, t': Tree) {
      Done(col', p', t') || (!Ready(col, p) && (Ready(col', p') || Depth(p') < Depth(p)))
    }

    lemma Sound(col: seq<Color>, t: Tree) returns (h: int)
      requires RedBlack(col, t)
      ensures Short(col, Top, t, h)
    {
      h :| TreeOk(col, t, h);
      NearlyBlack(col, t, h);
    }

    /** The parent's left child lacks a black node; a red sibling is first turned into a black one. */
    method BlackSiblingLeft(q: nat, ghost p: Path, ghost s: Tree, ghost h: int, ghost nodes: set<nat>)
      returns (w: nat, ghost p': Path)
      requires Lacking(p, s, h, nodes) && p.InLeft? && p.n == q && ColorOf(color, s) == Black
      modifies `root, `left, `right, `parent, `lgap, `rgap, `color
      ensures Lacking(p', s, h, nodes) && p'.InLeft? && p'.n == q && |left| == old(|left|)
      ensures ColorOf(color, s) == Black && Beside(p').Node? && Beside(p').n == w && Col(color, w) == Black
      ensures (p' == p && color == old(color)) || (Col(color, q) == Red && old(RedBeside(color, p)))
    {
      hide At, Plug, GapsExact, PathOk, TreeOk, Nodes, PathNodes, Sep, SepPath, Nearly;
      NearlyBlack(color, s, h);
      SiblingIsNode(color, p, s, h);
      Sibling(p, s);
      p' := p;
      w := right[q];
      if color[w] == Red {
        ghost var c, t := color, Joined(p, s);
        color := color[w := Black];
        color := color[q := Red];
        RedSibling(c, color, p, s, h);
        RotateLeft(q, p.up, t);
        RotatedNodes(t);
        SameNodes(p.up, t, RotatedLeft(t));
        p' := InLeft(p.n, Beside(p).left, InLeft(Beside(p).n, Beside(p).right, p.up));
        AtLeft(p.up, RotatedLeft(t));
        AtLeft(p'.up, RotatedLeft(t).left);
        NearlyBlack(color, s, h);
        SiblingIsNode(color, p', s, h);
        Sibling(p', s);
        w := right[q];
      }
    }

    /** The sibling is black and its left child alone is red. */
    method TurnInnerLeft(w: nat, ghost p: Path, ghost s: Tree, ghost h: int, ghost nodes: set<nat>) returns (ghost p': Path)
      requires Lacking(p, s, h, nodes) && p.InLeft? && ColorOf(color, s) == Black
      requires Beside(p).Node? && Beside(p).n == w && Col(color, w) == Black
      requires ColorOf(color, Beside(p).left) == Red && ColorOf(color, Beside(p).right) == Black
      modifies `root, `left, `right, `parent, `lgap, `rgap, `color
      ensures Lacking(p', s, h, nodes) && p'.InLeft? && p'.n == p.n && |left| == old(|left|)
      ensures Ready(color, p')
    {
      hide At, Plug, GapsExact, PathOk, TreeOk, Nodes, PathNodes, Sep, SepPath, Nearly;
      Sibling(p, s);
      NearlyBlack(color, s, h);
      ghost var c, t := color, Joined(p, s);
      color := color[left[w] := Black];
      color := color[w := Red];
      InnerNephewRed(c, color, p, s, h);
      ghost var b := InRight(s, p.n, p.up);
      AtRight(p.up, t);
      RotateRight(w, b, Beside(p));
      RotatedNodes(Beside(p));
      SameNodes(b, Beside(p), RotatedRight(Beside(p)));
      NearlyBlack(color, s, h);
      p' := InLeft(p.n, RotatedRight(Beside(p)), p.up);
      AtRight(p.up, Joined(p', s));
      AtLeft(p.up, Joined(p', s));
    }

    /** The sibling is black and its right child is red. */
    method TurnOuterLeft(w: nat, q: nat, ghost p: Path, ghost s: Tree, ghost h: int, ghost nodes: set<nat>)
      returns (ghost s': Tree, ghost h': int)
      requires Lacking(p, s, h, nodes) && p.InLeft? && p.n == q && ColorOf(color, s) == Black
      requires Beside(p).Node? && Beside(p).n == w && Col(color, w) == Black && ColorOf(color, Beside(p).right) == Red
      modifies `root, `left, `right, `parent, `lgap, `rgap, `color
      ensures Lacking(Top, s', h', nodes) && Root(s') == root && root != 0 && |left| == old(|left|)
    {
      hide At, Plug, GapsExact, PathOk, TreeOk, Nodes, PathNodes, Sep, SepPath, Nearly, RedBlack;
      Sibling(p, s);
      NearlyBlack(color, s, h);
      ghost var c, t := color, Joined(p, s);
      color := color[w := color[q]];
      color := color[q := Black];
      color := color[right[w] := Black];
      OuterNephewRed(c, color, p, s, h);
      RotateLeft(q, p.up, t);
      RotatedNodes(t);
      SameNodes(p.up, t, RotatedLeft(t));
      AtPlug(p.up, RotatedLeft(t));
      s' := Plug(p.up, RotatedLeft(t));
      h' := Sound(color, s');
    }

    /** The parent's left child lacks a black node. */
    method RemoveStepLeft(x: nat, q: nat, ghost p: Path, ghost s: Tree, ghost h: int, ghost nodes: set<nat>)
      returns (x': nat, ghost p': Path, ghost s': Tree, ghost h': int)
      requires Lacking(p, s, h, nodes) && p.InLeft? && p.n == q && Root(s) == x && ColorOf(color, s) == Black
      modifies `root, `left, `right, `parent, `lgap, `rgap, `color
      ensures Lacking(p', s', h', nodes) && Root(s') == x' && |left| == old(|left|)
      ensures x' == 0 ==> x == 0 && Above(p') == q
      ensures Progress(old(color), p, color, p', s')
    {
      hide At, Plug, GapsExact, PathOk, TreeOk, Nodes, PathNodes, Sep, SepPath, Nearly, RedBlack;
      var w;
      ghost var p1;
      w, p1 := BlackSiblingLeft(q, p, s, h, nodes);
      Sibling(p1, s);
      NearlyBlack(color, s, h);
      ghost var c, t := color, Joined(p1, s);
      if (left[w] == 0 || color[left[w]] == Black) && (right[w] == 0 || color[right[w]] == Black) {
        color := color[w := Red];
        BlackNephews(c, color, p1, s, h);
        x', p', s', h' := q, p1.up, t, h + Weight(Col(c, q));
      } else if right[w] == 0 || color[right[w]] == Black {
        x', s', h' := x, s, h;
        p' := TurnInnerLeft(w, p1, s, h, nodes);
      } else {
        p' := Top;
        s', h' := TurnOuterLeft(w, q, p1, s, h, nodes);
        x' := root;
      }
    }

    /** The parent's right child lacks a black node; a red sibling is first turned into a black one. */
    method BlackSiblingRight(q: nat, ghost p: Path, ghost s: Tree, ghost h: int, ghost nodes: set<nat>)
      returns (w: nat, ghost p': Path)
      requires Lacking(p, s, h, nodes) && p.InRight? && p.n == q && ColorOf(color, s) == Black
      modifies `root, `right, `left, `parent, `lgap, `rgap, `color
      ensures Lacking(p', s, h, nodes) && p'.InRight? && p'.n == q && |left| == old(|left|)
      ensures ColorOf(color, s) == Black && Beside(p').Node? && Beside(p').n == w && Col(color, w) == Black
      ensures (p' == p && color == old(color)) || (Col(color, q) == Red && old(RedBeside(color, p)))
    {
      hide At, Plug, GapsExact, PathOk, TreeOk, Nodes, PathNodes, Sep, SepPath, Nearly;
      NearlyBlack(color, s, h);
      SiblingIsNode(color, p, s, h);
      Sibling(p, s);
      p' := p;
      w := left[q];
      if color[w] == Red {
        ghost var c, t := color, Joined(p, s);
        color := color[w := Black];
        color := color[q := Red];
        RedSibling(c, color, p, s, h);
        RotateRight(q, p.up, t);
        RotatedNodes(t);
        SameNodes(p.up, t, RotatedRight(t));
        p' := InRight(Beside(p).right, p.n, InRight(Beside(p).left, Beside(p).n, p.up));
        AtRight(p.up, RotatedRight(t));
        AtRight(p'.up, RotatedRight(t).right);
        NearlyBlack(color, s, h);
        SiblingIsNode(color, p', s, h);
        Sibling(p', s);
        w := left[q];
      }
    }

    /** The sibling is black and its right child alone is red. */
    method TurnInnerRight(w: nat, ghost p: Path, ghost s: Tree, ghost h: int, ghost nodes: set<nat>) returns (ghost p': Path)
      requires Lacking(p, s, h, nodes) && p.InRight? && ColorOf(color, s) == Black
      requires Beside(p).Node? && Beside(p).n == w && Col(color, w) == Black
      requires ColorOf(color, Beside(p).right) == Red && ColorOf(color, Beside(p).left) == Black
      modifies `root, `right, `left, `parent, `lgap, `rgap, `color
      ensures Lacking(p', s, h, nodes) && p'.InRight? && p'.n == p.n && |left| == old(|left|)
      ensures Ready(color, p')
    {
      hide At, Plug, GapsExact, PathOk, TreeOk, Nodes, PathNodes, Sep, SepPath, Nearly;
      Sibling(p, s);
      NearlyBlack(color, s, h);
      ghost var c, t := color, Joined(p, s);
      color := color[right[w] := Black];
      color := color[w := Red];
      InnerNephewRed(c, color, p, s, h);
      ghost var b := InLeft(p.n, s, p.up);
      AtLeft(p.up, t);
      RotateLeft(w, b, Beside(p));
      RotatedNodes(Beside(p));
      SameNodes(b, Beside(p), RotatedLeft(Beside(p)));
      NearlyBlack(color, s, h);
      p' := InRight(RotatedLeft(Beside(p)), p.n, p.up);
      AtLeft(p.up, Joined(p', s));
      AtRight(p.up, Joined(p', s));
    }

    /** The sibling is black and its left child is red. */
    method TurnOuterRight(w: nat, q: nat, ghost p: Path, ghost s: Tree, ghost h: int, ghost nodes: set<nat>)
      returns (ghost s': Tree, ghost h': int)
      requires Lacking(p, s, h, nodes) && p.InRight? && p.n == q && ColorOf(color, s) == Black
      requires Beside(p).Node? && Beside(p).n == w && Col(color, w) == Black && ColorOf(color, Beside(p).left) == Red
      modifies `root, `right, `left, `parent, `lgap, `rgap, `color
      ensures Lacking(Top, s', h', nodes) && Root(s') == root && root != 0 && |left| == old(|left|)
    {
      hide At, Plug, GapsExact, PathOk, TreeOk, Nodes, PathNodes, Sep, SepPath, Nearly, RedBlack;
      Sibling(p, s);
      NearlyBlack(color, s, h);
      ghost var c, t := color, Joined(p, s);
      color := color[w := color[q]];
      color := color[q := Black];
      color := color[left[w] := Black];
      OuterNephewRed(c, color, p, s, h);
      RotateRight(q, p.up, t);
      RotatedNodes(t);
      SameNodes(p.up, t, RotatedRight(t));
      AtPlug(p.up, RotatedRight(t));
      s' := Plug(p.up, RotatedRight(t));
      h' := Sound(color, s');
    }

    /** The parent's right child lacks a black node. */
    method RemoveStepRight(x: nat, q: nat, ghost p: Path, ghost s: Tree, ghost h: int, ghost nodes: set<nat>)
      returns (x': nat, ghost p': Path, ghost s': Tree, ghost h': int)
      requires Lacking(p, s, h, nodes) && p.InRight? && p.n == q && Root(s) == x && ColorOf(color, s) == Black
      modifies `root, `right, `left, `parent, `lgap, `rgap, `color
      ensures Lacking(p', s', h', nodes) && Root(s') == x' && |left| == old(|left|)
      ensures x' == 0 ==> x == 0 && Above(p') == q
      ensures Progress(old(color), p, color, p', s')
    {
      hide At, Plug, GapsExact, PathOk, TreeOk, Nodes, PathNodes, Sep, SepPath, Nearly, RedBlack;
      var w;
      ghost var p1;
      w, p1 := BlackSiblingRight(q, p, s, h, nodes);
      Sibling(p1, s);
      NearlyBlack(color, s, h);
      ghost var c, t := color, Joined(p1, s);
      if (right[w] == 0 || color[right[w]] == Black) && (left[w] == 0 || color[left[w]] == Black) {
        color := color[w := Red];
        BlackNephews(c, color, p1, s, h);
        x', p', s', h' := q, p1.up, t, h + Weight(Col(c, q));
      } else if left[w] == 0 || color[left[w]] == Black {
        x', s', h' := x, s, h;
        p' := TurnInnerRight(w, p1, s, h, nodes);
      } else {
        p' := Top;
        s', h' := TurnOuterRight(w, q, p1, s, h, nodes);
        x' := root;
      }
    }

    /** What the pointers say about the root and about a place. */
    lemma RootParts(p: Path, t: Tree)
      requires Sized() && At(p, t)
      ensures p.Top? <==> root == Root(t)
      ensures t.Node? || !p.Top? ==> root != 0 && |left| > 0
      ensures t.Leaf? <==> Root(t) == 0
      ensures t.Node? ==> t.n < |left| && parent[t.n] == Above(p)
      ensures Sep(t) && SepPath(p) && Nodes(t) !! PathNodes(p)
    {
      SepZero(t);
      AboveInPath(p);
      if !p.Top? {
        RootInPath(p, Root(t));
      }
    }

    lemma {:induction false} RootInPath(p: Path, n: nat)
      requires PathLinks(Mem(), root, p, n) && !p.Top?
      ensures root in PathNodes(p)
      decreases p
    {
      if !p.up.Top? {
        RootInPath(p.up, p.n);
      }
    }

    lemma EmptyIsRedBlack(col: seq<Color>, p: Path, t: Tree)
      requires p.Top? && t.Leaf?
      ensures RedBlack(col, Plug(p, t))
    {
      assert TreeOk(col, Leaf, 0);
    }

    /** Makes up for one black node that the subtree at the place lacks; where that is empty, `up` is its parent. */
    method RemoveBalance(up: nat, node: nat, ghost p0: Path, ghost s0: Tree, ghost h0: int, ghost nodes: set<nat>)
      returns (ghost t: Tree)
      requires Lacking(p0, s0, h0, nodes) && Root(s0) == node && Above(p0) == up
      modifies `root, `left, `right, `parent, `lgap, `rgap, `color
      ensures Holds(t) && |left| == old(|left|) && Nodes(t) == nodes
    {
      hide At, Plug, GapsExact, PathOk, TreeOk, Nodes, PathNodes, Sep, SepPath, Nearly, RedBlack;
      AtPlug(p0, s0);
      RootParts(p0, s0);
      if root == 0 {
        t := Plug(p0, s0);
        EmptyIsRedBlack(color, p0, s0);
        return;
      }
      var x := node;
      ghost var p, s, h := p0, s0, h0;
      while x != root && (x == 0 || color[x] == Black)
        invariant Lacking(p, s, h, nodes) && Root(s) == x && (x == 0 ==> Above(p) == up) && |left| == old(|left|)
        invariant root != 0 && (x == root <==> p.Top?) && (x == 0 <==> s.Leaf?) && x < |left|
        invariant x != 0 ==> parent[x] == Above(p)
        decreases if Done(color, p, s) then 0 else 1, if Ready(color, p) then 0 else 1, Depth(p)
      {
        var q := if x == 0 then up else parent[x];
        SiblingIsNode(color, p, s, h);
        Sibling(p, s);
        if x == left[q] {
          x, p, s, h := RemoveStepLeft(x, q, p, s, h, nodes);
        } else {
          x, p, s, h := RemoveStepRight(x, q, p, s, h, nodes);
        }
        RootParts(p, s);
      }
      RootParts(p, s);
      AtPlug(p, s);
      Repaid(color, p, s, h);
      color := color[x := Black];
      t := Plug(p, s);
    }

    method Minimum(node: nat, ghost p: Path, ghost t: Tree) returns (x: nat)
      requires Sized() && (node == 0 || (At(p, t) && t.Node? && t.n == node))
      ensures x == if node == 0 then 0 else MinTree(t).n
      ensures node != 0 ==> At(MinPath(p, t), MinTree(t))
    {
      x := node;
      if x == 0 {
        return;
      }
      ghost var q, s := p, t;
      Children(q, s);
      while left[x] != 0
        invariant At(q, s) && s.Node? && s.n == x && x < |left| && (left[x] == 0 <==> s.left.Leaf?)
        invariant MinTree(s) == MinTree(t) && MinPath(q, s) == MinPath(p, t)
        decreases s
      {
        Children(q, s);
        AtLeft(q, s);
        x := left[x];
        q, s := InLeft(s.n, s.right, q), s.left;
        Children(q, s);
      }
    }

    method Maximum(node: nat, ghost p: Path, ghost t: Tree) returns (x: nat)
      requires Sized() && (node == 0 || (At(p, t) && t.Node? && t.n == node))
      ensures x == if node == 0 then 0 else MaxTree(t).n
      ensures node != 0 ==> At(MaxPath(p, t), MaxTree(t))
    {
      x := node;
      if x == 0 {
        return;
      }
      ghost var q, s := p, t;
      Children(q, s);
      while right[x] != 0
        invariant At(q, s) && s.Node? && s.n == x && x < |left| && (right[x] == 0 <==> s.right.Leaf?)
        invariant MaxTree(s) == MaxTree(t) && MaxPath(q, s) == MaxPath(p, t)
        decreases s
      {
        Children(q, s);
        AtRight(q, s);
        x := right[x];
        q, s := InRight(s.left, s.n, q), s.right;
        Children(q, s);
      }
    }

    /** The node `u` sits in the hole `p`, and the subtree `s` that is to take its place fits there. */
    ghost predicate Fits(u: nat, p: Path, s: Tree)
      reads `root, `left, `right, `parent, `key
    {
      && 0 < u < |left| && u < |parent| && parent[u] == Above(p) && PathLinks(Mem(), root, p, u)
      && SepPath(p) && u !in PathNodes(p) && u !in Nodes(s) && Sep(s) && Nodes(s) !! PathNodes(p)
      && Ordered(key, s, Lo(key, p, low), Hi(key, p, high)) && PathOrdered(key, p, low, high)
    }

    /** The children of the root of `t` are exact at the place `p`. */
    ghost predicate KidsExact(g: G.Gaps, p: Path, t: Tree)
      reads `key
    {
      t.Node? ==>
        && G.Exact(g, key, t.left, Lo(key, p, low), Key(key, t.n))
        && G.Exact(g, key, t.right, Key(key, t.n), Hi(key, p, high))
    }

    lemma SingleKids(g: G.Gaps, p: Path, t: Tree)
      requires t.Node? ==> t.left.Leaf? && t.right.Leaf?
      ensures KidsExact(g, p, t)
    {
    }

    lemma ParentSeated(p: Path, s: Tree)
      requires Sized() && !p.Top? && PathLinks(Mem(), root, p, Root(s)) && SepPath(p) && Sep(s)
      requires Nodes(s) !! PathNodes(p) && Root(s) < |left| && PathOrdered(key, p, low, high)
      ensures Seated(p.up, Joined(p, s)) && G.Placed(Cached(), p.up, Joined(p, s))
    {
      PathInBounds(p, Root(s));
      assert Links(Mem(), Beside(p), p.n);
    }

    /** The first half of Transplant: the parent, or the root pointer, leads to `v`. */
    method Adopt(u: nat, v: nat, ghost p: Path, ghost s: Tree, ghost w: nat)
      requires Sized() && Fits(u, p, s) && v == Root(s) && Links(Mem(), s, w)
      requires augment ==> G.OffExact(Cached(), key, p, low, high)
      modifies `root, `left, `right, `lgap, `rgap
      ensures Sized() && |left| == old(|left|) && PathLinks(Mem(), root, p, v) && Links(Mem(), s, w)
      ensures Elsewhere(old(Mem()), Mem(), {Above(p)})
      ensures augment ==> G.OffExact(Cached(), key, p, low, high)
      ensures augment ==> forall n :: n !in Spine(p) ==> G.SameGapAt(old(Cached()), Cached(), n)
      ensures s.Leaf? ==> GapsExact(Plug(p, s))
    {
      hide PathLinks, Links, Sep, SepPath, Nodes, PathNodes, Ordered, PathOrdered, G.Exact, G.OffExact, Spine;
      hide G.Augmented, G.Placed, Joined;
      ghost var m, r, g := Mem(), root, Cached();
      AdoptParts(u, p, s, w);
      if parent[u] != 0 {
        if u == left[parent[u]] {
          left := left[parent[u] := v];
        } else {
          right := right[parent[u] := v];
        }
        ChildLinks(m, Mem(), r, root, p, u, s, w);
        ParentSeated(p, s);
        Augment(parent[u], p.up, Joined(p, s));
        if augment {
          ParentAugmented(g, key, p, s, low, high);
        }
      } else {
        root := v;
        ChildLinks(m, Mem(), r, root, p, u, s, w);
        NothingToAugment(p, s);
      }
    }

    lemma NothingToAugment(p: Path, s: Tree)
      requires p.Top?
      ensures s.Leaf? ==> GapsExact(Plug(p, s))
    {
    }

    lemma KidsUntouched(g: G.Gaps, g1: G.Gaps, p: Path, s: Tree)
      requires KidsExact(g, p, s) && s.Node? && Sep(s) && Nodes(s) !! PathNodes(p)
      requires forall n :: n !in Spine(p) ==> G.SameGapAt(g, g1, n)
      ensures KidsExact(g1, p, s)
    {
      SpineNodes(p);
      G.ExactFrame(g, g1, key, s.left, Lo(key, p, low), Key(key, s.n));
      G.ExactFrame(g, g1, key, s.right, Key(key, s.n), Hi(key, p, high));
    }

    lemma AdoptParts(u: nat, p: Path, s: Tree, w: nat)
      requires Sized() && Fits(u, p, s) && Links(Mem(), s, w)
      ensures Root(s) < |left| && Above(p) < |left| && (Above(p) == 0 <==> p.Top?) && (Root(s) == 0 <==> s.Leaf?)
      ensures p.InLeft? ==> left[p.n] == u
      ensures p.InRight? ==> left[p.n] != u
      ensures !p.Top? ==> JoinedRoot(p, s) && Spine(p) == {p.n} + Spine(p.up)
    {
      AboveInPath(p);
      SepZero(s);
      if p.InRight? {
        assert p.left.Node? ==> p.left.n in PathNodes(p);
      }
    }

    ghost predicate JoinedRoot(p: Path, s: Tree)
      requires !p.Top?
    {
      Joined(p, s).Node? && Joined(p, s).n == p.n
    }

    /** Puts the subtree at `v` in the place of `u`; `u` keeps its own pointers. */
    method Transplant(u: nat, v: nat, ghost p: Path, ghost s: Tree, ghost w: nat)
      requires Sized() && Fits(u, p, s) && v == Root(s) && Links(Mem(), s, w)
      requires augment ==> G.OffExact(Cached(), key, p, low, high)
      modifies `root, `left, `right, `parent, `lgap, `rgap
      ensures Sized() && |left| == old(|left|) && At(p, s)
      ensures Elsewhere(old(Mem()), Mem(), {Above(p), v})
      ensures augment ==> G.OffExact(Cached(), key, p, low, high)
      ensures augment ==> forall n :: n !in Spine(p) && n != v ==> G.SameGapAt(old(Cached()), Cached(), n)
      ensures s.Leaf? || (augment ==> KidsExact(old(Cached()), p, s)) ==> GapsExact(Plug(p, s))
    {
      hide PathLinks, Links, Sep, SepPath, Nodes, PathNodes, Ordered, PathOrdered, G.Exact, G.OffExact, Spine, Plug;
      hide G.Augmented, G.Placed, Joined;
      ghost var m, g := Mem(), Cached();
      AdoptParts(u, p, s, w);
      Adopt(u, v, p, s, w);
      ghost var m1, g1 := Mem(), Cached();
      if v != 0 {
        parent := parent[v := parent[u]];
      }
      ParentLinks(m1, Mem(), root, p, s, w);
      if v != 0 {
        SeatedIn(p, s);
        Augment(v, p, s);
        if augment {
          G.AugmentedFrame(g1, key, p, s, low, high);
          G.OffExactFrame(g1, Cached(), key, p, low, high);
          forall n | n !in Spine(p) && n != v
            ensures G.SameGapAt(g, Cached(), n)
          {
            assert G.SameGapAt(g, g1, n) && G.SameGapAt(g1, Cached(), n);
          }
          if KidsExact(g, p, s) {
            KidsUntouched(g, g1, p, s);
            G.AugmentedExact(g1, key, p, s, low, high);
          }
        }
      }
    }

    /** A node with one child at most, and the subtree that takes its place. */
    lemma SpliceFits(p: Path, t: Tree)
      requires Sized() && At(p, t) && t.Node? && (t.left.Leaf? || t.right.Leaf?)
      ensures var s := if t.left.Leaf? then t.right else t.left;
        Fits(t.n, p, s) && Links(Mem(), s, t.n) && Nodes(Plug(p, s)) == Nodes(Plug(p, t)) - {t.n}
    {
      var s := if t.left.Leaf? then t.right else t.left;
      AboveInPath(p);
      SepZero(t);
      OrderedWider(key, s, if t.left.Leaf? then Key(key, t.n) else Lo(key, p, low),
                   if t.left.Leaf? then Hi(key, p, high) else Key(key, t.n), Lo(key, p, low), Hi(key, p, high));
      SepPlug(p, s);
      SepPlug(p, t);
    }

    lemma GapsAround(p: Path, t: Tree)
      requires augment && GapsExact(Plug(p, t))
      ensures G.OffExact(Cached(), key, p, low, high)
    {
      G.ExactPlug(Cached(), key, p, t, low, high);
    }

    /** Puts the one child of `z`, or nothing, in its place. */
    method Splice(z: nat, v: nat, ghost p: Path, ghost t: Tree)
      requires Sized() && At(p, t) && t.Node? && t.n == z && GapsExact(Plug(p, t)) && (t.left.Leaf? || t.right.Leaf?)
      requires var s := if t.left.Leaf? then t.right else t.left;
        v == Root(s) && (s.Node? ==> s.left.Leaf? && s.right.Leaf?)
      modifies `root, `left, `right, `parent, `lgap, `rgap
      ensures Sized() && |left| == old(|left|)
      ensures var s := if t.left.Leaf? then t.right else t.left;
        At(p, s) && GapsExact(Plug(p, s)) && Nodes(Plug(p, s)) == Nodes(Plug(p, t)) - {z}
    {
      ghost var s := if t.left.Leaf? then t.right else t.left;
      SpliceFits(p, t);
      if augment {
        GapsAround(p, t);
      }
      Transplant(z, v, p, s, z);
    }

    /** Where the successor of `z` hangs. */
    lemma SuccessorPlace(p: Path, l: Tree, z: nat, r: Tree)
      requires Sized() && At(p, Node(l, z, r)) && r.Node?
      ensures var q, m := MinPath(InRight(l, z, p), r), MinTree(r);
        && At(q, m) && Plug(q, m) == Plug(p, Node(l, z, r)) && Plug(q, m.right) == Plug(p, Node(l, z, MinRest(r)))
        && m.n < |left| && left[m.n] == 0 && right[m.n] == Root(m.right) && parent[m.n] == Above(q)
        && Root(m.right) != m.n && Above(q) != m.n && m.n != 0
    {
      hide Around, Nodes, PathNodes;
      var P := InRight(l, z, p);
      var q, m := MinPath(P, r), MinTree(r);
      AtRight(p, Node(l, z, r));
      MinPlug(P, r);
      MinRestPlug(P, r);
      AtRight(p, Node(l, z, MinRest(r)));
      AtPlug(P, r);
      AtPlug(q, m);
      RootParts(q, m);
      Children(q, m);
      Family(q, m);
      RootApart(m);
    }

    lemma RootApart(t: Tree)
      requires t.Node? && Sep(t)
      ensures Root(t.left) != t.n && Root(t.right) != t.n
    {
    }

    /** The successor of `z` is its right child. */
    lemma ChildIsSuccessor(p: Path, l: Tree, z: nat, r: Tree)
      requires Sized() && At(p, Node(l, z, r)) && r.Node? && r.left.Leaf?
      ensures Loose(Mem(), root, p, l, z, r.n, r.right, z)
    {
      assert Links(Mem(), r, z);
    }

    lemma ExactBelow(p: Path, l: Tree, z: nat, r: Tree)
      requires augment && GapsExact(Plug(p, Node(l, z, r)))
      ensures G.OffExact(Cached(), key, p, low, high) && G.Exact(Cached(), key, l, Lo(key, p, low), Key(key, z))
      ensures G.Exact(Cached(), key, r, Key(key, z), Hi(key, p, high))
      ensures r.Node? ==> G.Exact(Cached(), key, r.right, Key(key, r.n), Hi(key, p, high))
    {
      hide G.Exact, G.OffExact, G.On, G.MaxGap, Plug, Lo, Hi;
      G.ExactPlug(Cached(), key, p, Node(l, z, r), low, high);
      ExactParts(Cached(), key, Node(l, z, r), Lo(key, p, low), Hi(key, p, high));
      if r.Node? {
        ExactParts(Cached(), key, r, Key(key, z), Hi(key, p, high));
      }
    }

    /** The successor of `z` is further down: what is below it takes its place. */
    method PullSuccessor(z: nat, y: nat, ghost p: Path, ghost l: Tree, ghost r: Tree)
      requires Sized() && At(p, Node(l, z, r)) && r.Node? && r.left.Node? && GapsExact(Plug(p, Node(l, z, r)))
      requires y == MinTree(r).n && y < |left|
      requires var s := MinTree(r).right; s.Node? ==> s.left.Leaf? && s.right.Leaf?
      modifies `root, `left, `right, `parent, `lgap, `rgap
      ensures Sized() && |left| == old(|left|)
      ensures Loose(Mem(), root, p, l, z, y, MinRest(r), parent[y]) && GapsExact(Plug(p, Node(l, z, MinRest(r))))
    {
      hide Sep, SepPath, Nodes, PathNodes, Ordered, PathOrdered, G.Exact, G.OffExact, Around, Plug, Links, PathLinks;
      hide Fits, Loose;
      ghost var P, rest := InRight(l, z, p), MinRest(r);
      ghost var q, m := MinPath(P, r), MinTree(r);
      AtParts(p, Node(l, z, r));
      SuccessorPlace(p, l, z, r);
      SuccessorApart(p, l, z, r);
      Family(q, m);
      Children(q, m);
      SpliceFits(q, m);
      if augment {
        GapsAround(q, m);
      }
      SingleKids(Cached(), q, m.right);
      ghost var m0 := Mem();
      Transplant(y, right[y], q, m.right, y);
      assert SameAt(m0, Mem(), y) by { assert y !in {Above(q), Root(m.right)}; }
      AtPlug(q, m.right);
      AtPlug(p, Node(l, z, rest));
      Children(p, Node(l, z, rest));
      AtPointers(p, Node(l, z, rest));
      ghost var m1 := Mem();
      right := right[y := right[z]];
      parent := parent[right[y] := y];
      TakeRight(m1, Mem(), root, p, l, z, y, rest);
    }

    lemma AtPointers(p: Path, t: Tree)
      requires Sized() && At(p, t)
      ensures Links(Mem(), t, Above(p)) && PathLinks(Mem(), root, p, Root(t))
      ensures t.Node? ==> Root(t.left) < |left| && Root(t.right) < |left|
    {
      if t.Node? {
        assert Links(Mem(), t.left, t.n) && Links(Mem(), t.right, t.n);
      }
    }

    /** Takes the successor of `z` out of its place and gives it the rest of the right subtree of `z`. */
    method DetachSuccessor(z: nat, ghost p: Path, ghost l: Tree, ghost r: Tree)
      returns (y: nat, x: nat, up: nat, ghost lo: int)
      requires Sized() && At(p, Node(l, z, r)) && r.Node? && GapsExact(Plug(p, Node(l, z, r)))
      requires var s := MinTree(r).right; s.Node? ==> s.left.Leaf? && s.right.Leaf?
      modifies `root, `left, `right, `parent, `lgap, `rgap
      ensures Sized() && |left| == old(|left|) && y < |left|
      ensures y == MinTree(r).n && x == Root(MinTree(r).right) && up == Above(MinPath(InRight(l, y, p), r))
      ensures Loose(Mem(), root, p, l, z, y, MinRest(r), parent[y])
      ensures augment ==>
        && G.OffExact(Cached(), key, p, low, high) && G.Exact(Cached(), key, l, Lo(key, p, low), Key(key, z))
        && G.Exact(Cached(), key, MinRest(r), lo, Hi(key, p, high))
    {
      hide Sep, SepPath, Nodes, PathNodes, Ordered, PathOrdered, G.Exact, G.OffExact, Around, Plug, Elsewhere, Loose;
      hide GapsExact;
      ghost var t, P := Node(l, z, r), InRight(l, z, p);
      AtParts(p, t);
      SuccessorPlace(p, l, z, r);
      SuccessorAbove(p, l, z, r);
      Children(p, t);
      AtRight(p, t);
      y := Minimum(right[z], P, r);
      x := right[y];
      if parent[y] == z {
        up := y;
        lo := Key(key, y);
        ChildIsSuccessor(p, l, z, r);
        if augment {
          ExactBelow(p, l, z, r);
        }
      } else {
        up := parent[y];
        lo := Key(key, z);
        PullSuccessor(z, y, p, l, r);
        if augment {
          ExactBelow(p, l, z, MinRest(r));
        }
      }
    }

    lemma StillLinked(m: Ptrs, m': Ptrs, t: Tree, up: nat, s: set<nat>)
      requires Ok(m) && Links(m, t, up) && Elsewhere(m, m', s) && Nodes(t) !! s
      ensures Links(m', t, up)
    {
      ElsewhereSame(m, m', s, Nodes(t));
      LinksFrame(m, m', t, up);
    }

    lemma LinkedRoot(t: Tree, up: nat)
      requires Sized() && t.Node? && Links(Mem(), t, up)
      ensures t.n < |left|
    {
    }

    lemma DistinctSep(p: Path, l: Tree, z: nat, y: nat, rest: Tree)
      requires Distinct(p, l, z, y, rest)
      ensures Sep(Node(l, y, rest)) && SepPath(p) && Nodes(Node(l, y, rest)) !! PathNodes(p)
    {
    }

    /** Transplanting `y` leaves the gaps in the two subtrees alone. */
    lemma StillExact(g: G.Gaps, g': G.Gaps, p: Path, l: Tree, z: nat, y: nat, rest: Tree, lo: int)
      requires Distinct(p, l, z, y, rest) && forall n :: n !in Spine(p) && n != y ==> G.SameGapAt(g, g', n)
      requires G.Exact(g, key, l, Lo(key, p, low), Key(key, z)) && G.Exact(g, key, rest, lo, Hi(key, p, high))
      ensures G.Exact(g', key, l, Lo(key, p, low), Key(key, z)) && G.Exact(g', key, rest, lo, Hi(key, p, high))
    {
      SpineNodes(p);
      G.ExactFrame(g, g', key, l, Lo(key, p, low), Key(key, z));
      G.ExactFrame(g, g', key, rest, lo, Hi(key, p, high));
    }

    /** A node without children where all is exact. */
    lemma LoneGap(p: Path, y: nat)
      requires augment && GapsExact(Plug(p, Node(Leaf, y, Leaf)))
      ensures G.RGap(Cached(), y) == Hi(key, p, high) - Key(key, y) - 1
    {
      G.ExactPlug(Cached(), key, p, Node(Leaf, y, Leaf), low, high);
    }

    /** The detached successor fits where `z` is. */
    lemma LooseFits(p: Path, l: Tree, z: nat, y: nat, rest: Tree)
      requires Sized() && Distinct(p, l, z, y, rest) && y < |left| && Loose(Mem(), root, p, l, z, y, rest, parent[y])
      requires Ordered(key, Node(Leaf, y, rest), Lo(key, p, low), Hi(key, p, high)) && PathOrdered(key, p, low, high)
      ensures var s := Node(Leaf, y, rest);
        && Fits(z, p, s) && Links(Mem(), s, parent[y]) && z !in {Above(p), y} && Nodes(l) !! {Above(p), y}
        && left[z] == Root(l) && Links(Mem(), l, z) && Above(p) != y
    {
      AboveInPath(p);
      SepZero(l);
    }

    /** Puts the detached successor `y` in the place of `z`, with the left subtree and the colour of `z`. */
    method Succeed(z: nat, y: nat, ghost p: Path, ghost l: Tree, ghost rest: Tree, ghost lo: int)
      requires Sized() && Distinct(p, l, z, y, rest) && y < |left| && Loose(Mem(), root, p, l, z, y, rest, parent[y])
      requires l.Node? && PathOrdered(key, p, low, high) && Ordered(key, Node(l, y, rest), Lo(key, p, low), Hi(key, p, high))
      requires Ordered(key, Node(Leaf, y, rest), Lo(key, p, low), Hi(key, p, high))
      requires augment ==>
        && G.OffExact(Cached(), key, p, low, high) && G.Exact(Cached(), key, l, Lo(key, p, low), Key(key, z))
        && G.Exact(Cached(), key, rest, lo, Hi(key, p, high))
      modifies `root, `left, `right, `parent, `lgap, `rgap, `color
      ensures Sized() && |left| == old(|left|) && At(p, Node(l, y, rest)) && color == old(color[y := color[z]])
      ensures augment ==>
        && G.OffExact(Cached(), key, p, low, high) && G.Exact(Cached(), key, l, Lo(key, p, low), Key(key, z))
        && G.Exact(Cached(), key, rest, lo, Hi(key, p, high))
        && (rest.Leaf? ==> G.RGap(Cached(), y) == Hi(key, p, high) - Key(key, y) - 1)
    {
      hide Sep, SepPath, Nodes, PathNodes, Ordered, PathOrdered, G.Exact, G.OffExact, Plug, Links, PathLinks;
      hide Fits, Loose, Distinct;
      ghost var m, g, s := Mem(), Cached(), Node(Leaf, y, rest);
      LooseFits(p, l, z, y, rest);
      if rest.Leaf? {
        SingleKids(g, p, s);
      }
      Transplant(z, y, p, s, parent[y]);
      assert SameAt(m, Mem(), z);
      ghost var m1 := Mem();
      StillLinked(m, m1, l, z, {Above(p), y});
      AtPointers(p, s);
      LinkedRoot(l, z);
      if augment {
        StillExact(g, Cached(), p, l, z, y, rest, lo);
        if rest.Leaf? {
          LoneGap(p, y);
        }
      }
      left := left[y := left[z]];
      parent := parent[left[y] := y];
      color := color[y := color[z]];
      TakeLeft(m1, Mem(), root, p, l, z, y, rest);
      DistinctSep(p, l, z, y, rest);
    }

    /** The gaps next to a node that has just taken the place of another. */
    method Rejoin(y: nat, ghost p: Path, ghost l: Tree, ghost r: Tree, ghost lo: int, ghost hi: int)
      requires Sized() && At(p, Node(l, y, r)) && l.Node?
      requires augment ==>
        && G.OffExact(Cached(), key, p, low, high) && G.Exact(Cached(), key, l, Lo(key, p, low), hi)
        && G.Exact(Cached(), key, r, lo, Hi(key, p, high))
        && (r.Leaf? ==> G.RGap(Cached(), y) == Hi(key, p, high) - Key(key, y) - 1)
      modifies `lgap, `rgap
      ensures Sized() && At(p, Node(l, y, r)) && GapsExact(Plug(p, Node(l, y, r)))
    {
      hide Around, Plug, G.Exact, G.OffExact, G.On, G.SameOff, G.MaxGap;
      ghost var q, b := InLeft(y, r, p), InRight(l, y, p);
      ghost var g := Cached();
      Children(p, Node(l, y, r));
      AtLeft(p, Node(l, y, r));
      AtRight(p, Node(l, y, r));
      var t := Maximum(left[y], q, l);
      if augment {
        G.MaxKidExact(g, key, q, l, low, high, hi);
        MaxLeaf(g, l);
      }
      AugmentAt(t, MaxPath(q, l), MaxTree(l));
      ghost var g1 := Cached();
      if augment {
        G.MaxClimb(g, g1, key, q, l, low, high, hi);
        StillExactRight(g, g1, p, l, y, r, lo);
      }
      t := Minimum(right[y], b, r);
      if r.Node? {
        RootParts(MinPath(b, r), MinTree(r));
      }
      if t != 0 {
        if augment {
          G.MinKidExact(g1, key, b, r, low, high, lo);
          MinLeaf(g1, r);
        }
        AugmentAt(t, MinPath(b, r), MinTree(r));
      }
      if augment {
        G.NewMiddle(g, g1, Cached(), key, p, l, y, r, low, high, hi, lo);
      }
    }

    lemma MaxLeaf(g: G.Gaps, t: Tree)
      requires t.Node?
      ensures forall lo, hi :: G.Exact(g, key, MaxTree(t).right, lo, hi)
    {
    }

    lemma MinLeaf(g: G.Gaps, t: Tree)
      requires t.Node?
      ensures forall lo, hi :: G.Exact(g, key, MinTree(t).left, lo, hi)
    {
    }

    lemma StillExactRight(g: G.Gaps, g': G.Gaps, p: Path, l: Tree, y: nat, r: Tree, lo: int)
      requires G.SameOff(g, g', InLeft(y, r, p)) && G.Exact(g, key, r, lo, Hi(key, p, high))
      ensures G.Exact(g', key, r, lo, Hi(key, p, high))
    {
      G.ExactFrame(g, g', key, r, lo, Hi(key, p, high));
    }

    /** The part of Remove for a node with two children; what is left is one black node short if `c` is black. */
    method Replace(z: nat, ghost p: Path, ghost l: Tree, ghost r: Tree) returns (y: nat, c: Color, x: nat, up: nat)
      requires Sized() && At(p, Node(l, z, r)) && l.Node? && r.Node? && GapsExact(Plug(p, Node(l, z, r)))
      requires var s := MinTree(r).right; s.Node? ==> s.left.Leaf? && s.right.Leaf?
      modifies `root, `left, `right, `parent, `lgap, `rgap, `color
      ensures Sized() && |left| == old(|left|) && y == MinTree(r).n < |left|
      ensures color == old(color[y := color[z]]) && c == old(color[y]) && x == Root(MinTree(r).right)
      ensures var q := MinPath(InRight(l, y, p), r);
        At(q, MinTree(r).right) && GapsExact(Plug(q, MinTree(r).right)) && up == Above(q)
        && Nodes(Plug(q, MinTree(r).right)) == Nodes(Plug(p, Node(l, z, r))) - {z}
    {
      hide Around, Plug, G.Exact, G.OffExact, Loose, Distinct, Nodes, PathNodes, Sep, SepPath, Ordered, PathOrdered;
      ghost var lo, t, rest := 0, Node(l, z, r), MinRest(r);
      AtParts(p, t);
      SuccessorApart(p, l, z, r);
      AtOrder(p, t);
      SuccessorOrdered(key, l, z, r, Lo(key, p, low), Hi(key, p, high));
      SuccessorPlace(p, l, z, r);
      y, x, up, lo := DetachSuccessor(z, p, l, r);
      c := color[y];
      Succeed(z, y, p, l, rest, lo);
      Rejoin(y, p, l, rest, lo, Key(key, z));
      MinRestPlug(InRight(l, y, p), r);
      AtRight(p, Node(l, y, rest));
      AtPlug(InRight(l, y, p), rest);
      AtPlug(MinPath(InRight(l, y, p), r), MinTree(r).right);
    }

    lemma AtOrder(p: Path, t: Tree)
      requires Sized() && At(p, t)
      ensures Ordered(key, t, Lo(key, p, low), Hi(key, p, high)) && PathOrdered(key, p, low, high)
      ensures t.Node? ==> t.n < |left|
    {
    }

    /** Takes `z` out of the tree. */
    method Remove(z: nat, ghost t0: Tree) returns (ghost t: Tree)
      requires Holds(t0) && z in Nodes(t0)
      modifies `root, `left, `right, `parent, `lgap, `rgap, `color
      ensures Holds(t) && |left| == old(|left|) && Nodes(t) == Nodes(t0) - {z}
    {
      hide Around, Plug, Nodes, PathNodes, TreeOk, PathOk, RedBlack, Nearly, Sep, SepPath;
      ghost var p, s := Locate(Top, t0, z);
      WholeTree(t0);
      AtPlug(p, s);
      AtParts(p, s);
      Family(p, s);
      Children(p, s);
      ghost var h, q, k;
      var x: nat, c, up: nat := 0, color[z], parent[z];
      if left[z] == 0 {
        h := SpliceColors(color, p, s);
        q, k := p, s.right;
        x := right[z];
        Splice(z, right[z], p, s);
      } else if right[z] == 0 {
        h := SpliceColors(color, p, s);
        q, k := p, s.left;
        x := left[z];
        Splice(z, left[z], p, s);
      } else {
        SuccessorPlace(p, s.left, z, s.right);
        h := SuccessorColors(color, p, s.left, z, s.right, MinTree(s.right).n);
        var y;
        y, c, x, up := Replace(z, p, s.left, s.right);
        q, k := MinPath(InRight(s.left, y, p), s.right), MinTree(s.right).right;
      }
      if c == Black {
        t := RemoveBalance(up, x, q, k, h, Nodes(t0) - {z});
      } else {
        t := Plug(q, k);
        AtPlug(q, k);
      }
    }

    // ----- A node for another of the same key -----

    /** A key of a node that is not in the tree. */
    method SetKey(n: nat, k: int, ghost t: Tree)
      requires Holds(t) && n < |left| && n !in Nodes(t)
      modifies `key
      ensures Holds(t) && key == old(key)[n := k]
      ensures forall m :: m in Nodes(t) ==> Key(key, m) == old(Key(key, m))
    {
      hide Around, Ordered, G.Exact, RedBlack, Nodes;
      AroundOrdered(Mem(), root, key, low, high, t);
      key := key[n := k];
      OtherKeys(old(key), key, t, low, high, Cached());
      AroundKeys(Mem(), root, old(key), key, low, high, t);
    }

    /** The parent of a node, or the root pointer if it has none, leads to the node. */
    lemma Linked(t: Tree, n: nat)
      requires Holds(t) && n in Nodes(t)
      ensures root != 0 && n < |left| && parent[n] < |left|
      ensures if parent[n] == 0 then root == n else left[parent[n]] == n || right[parent[n]] == n
    {
      hide Around, RedBlack;
      var p, s := Locate(Top, t, n);
      WholeTree(t);
      AtPlug(p, s);
      Family(p, s);
    }

    /** The writes: `v` gets all that `u` has, and the parent and the children lead to it. */
    method Relink(u: nat, v: nat, ghost p: Path, ghost l: Tree, ghost r: Tree)
      requires Sized() && u < |left| && v < |left| && left[u] == Root(l) < |left| && right[u] == Root(r) < |left|
      requires parent[u] == Above(p) < |left| && (p.Top? <==> Above(p) == 0)
      requires (p.InLeft? ==> left[p.n] == u) && (p.InRight? ==> left[p.n] != u)
      requires u != v && v != Above(p) && v != Root(l) && v != Root(r)
      requires (l.Node? <==> Root(l) != 0) && (r.Node? <==> Root(r) != 0)
      modifies `root, `left, `right, `parent, `color
      ensures Sized() && |left| == old(|left|) && HandedOver(old(Mem()), Mem(), old(root), root, p, l, r, v)
      ensures color == old(color)[v := old(color)[u]]
    {
      left, right := left[v := left[u]], right[v := right[u]];
      parent, color := parent[v := parent[u]], color[v := color[u]];
      if parent[u] == 0 {
        root := v;
      } else if left[parent[u]] == u {
        left := left[parent[u] := v];
      } else {
        right := right[parent[u] := v];
      }
      assert left[v] == Root(l) && right[v] == Root(r);
      if left[v] != 0 {
        parent := parent[left[v] := v];
      }
      if right[v] != 0 {
        parent := parent[right[v] := v];
      }
    }

    /** Puts `v` in the place of `u`, with its links and its colour. */
    method HandOver(u: nat, v: nat, ghost t0: Tree) returns (ghost t: Tree)
      requires Holds(t0) && !augment && u in Nodes(t0) && v !in Nodes(t0) && 0 < v < |left| && key[v] == Key(key, u)
      modifies `root, `left, `right, `parent, `color
      ensures Holds(t) && |left| == old(|left|) && t == Renamed(t0, u, v)
      ensures Nodes(t) == Nodes(t0) - {u} + {v} && color == old(color)[v := old(Col(color, u))]
    {
      hide Around, Plug, Nodes, PathNodes, RedBlack, Sep, SepPath, Renamed, Links, PathLinks, HandedOver;
      ghost var p, s := Locate(Top, t0, u);
      WholeTree(t0);
      AtPlug(p, s);
      SepPlug(p, s);
      AtParts(p, s);
      AtPointers(p, s);
      Family(p, s);
      Children(p, s);
      HandedOverDistinct(p, s.left, u, s.right, v);
      ghost var m, r := Mem(), root;
      Relink(u, v, p, s.left, s.right);
      HandedOverLinks(m, Mem(), r, root, p, s.left, u, s.right, v);
      t := Renamed(t0, u, v);
      RenamedHolds(t0, p, s, u, v, old(color));
    }

    lemma RenamedHolds(t0: Tree, p: Path, s: Tree, u: nat, v: nat, col: seq<Color>)
      requires Sized() && !augment && s.Node? && s.n == u && t0 == Plug(p, s) && Sep(t0) && Ordered(key, t0, low, high)
      requires v !in Nodes(t0) && 0 < v < |col| && Key(key, v) == Key(key, u)
      requires Links(Mem(), Node(s.left, v, s.right), Above(p)) && PathLinks(Mem(), root, p, v)
      requires RedBlack(col, t0) && color == col[v := Col(col, u)]
      ensures Holds(Renamed(t0, u, v)) && Nodes(Renamed(t0, u, v)) == Nodes(t0) - {u} + {v}
    {
      hide Links, PathLinks, Ordered, TreeOk, Nodes, PathNodes, Sep, SepPath;
      var t := Renamed(t0, u, v);
      RenamedAt(p, s, u, v);
      RenamedNodes(t0, u, v);
      RenamedOrdered(key, t0, u, v, low, high);
      LinksPlug(Mem(), root, p, Node(s.left, v, s.right));
      var h :| TreeOk(col, t0, h);
      RenamedColors(col, t0, u, v, h);
      assert RedBlack(color, t);
      WholeAround(Mem(), root, key, low, high, t);
    }
  }
}
