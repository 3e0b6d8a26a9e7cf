/** The shapes of binary search trees over numbered nodes, and of trees with a hole in them. */
module RbShape {
  datatype Tree = Leaf | Node(left: Tree, n: nat, right: Tree)

  /** What is around a subtree, innermost first. */
  datatype Path =
    | Top
    | InLeft(n: nat, right: Tree, up: Path)   // the hole is the left child of n
    | InRight(left: Tree, n: nat, up: Path)   // the hole is the right child of n

  function Root(t: Tree): nat {
    if t.Leaf? then 0 else t.n
  }

  /** The parent of the hole. */
  function Above(p: Path): nat {
    if p.Top? then 0 else p.n
  }

  function Plug(p: Path, t: Tree): Tree {
    match p
    case Top => t
    case InLeft(n, r, up) => Plug(up, Node(t, n, r))
    case InRight(l, n, up) => Plug(up, Node(l, n, t))
  }

  lemma {:induction false} PlugNode(p: Path, t: Tree)
    ensures t.Node? || !p.Top? ==> Plug(p, t).Node?
    decreases p
  {
    match p
    case Top =>
    case InLeft(n, r, up) => PlugNode(up, Node(t, n, r));
    case InRight(l, n, up) => PlugNode(up, Node(l, n, t));
  }

  function Depth(p: Path): nat {
    if p.Top? then 0 else 1 + Depth(p.up)
  }

  // ----- Nodes -----

  function Nodes(t: Tree): set<nat> {
    match t
    case Leaf => {}
    case Node(l, n, r) => Nodes(l) + {n} + Nodes(r)
  }

  function PathNodes(p: Path): set<nat> {
    match p
    case Top => {}
    case InLeft(n, r, up) => {n} + Nodes(r) + PathNodes(up)
    case InRight(l, n, up) => Nodes(l) + {n} + PathNodes(up)
  }

  /** The nodes the hole hangs below. */
  function Spine(p: Path): set<nat> {
    if p.Top? then {} else {p.n} + Spine(p.up)
  }

  /** No node occurs twice, and none is the null pointer. */
  predicate Sep(t: Tree) {
    match t
    case Leaf => true
    case Node(l, n, r) =>
      n != 0 && n !in Nodes(l) && n !in Nodes(r) && Nodes(l) !! Nodes(r) && Sep(l) && Sep(r)
  }

  predicate SepPath(p: Path) {
    match p
    case Top => true
    case InLeft(n, r, up) =>
      n != 0 && n !in Nodes(r) && n !in PathNodes(up) && Nodes(r) !! PathNodes(up) && Sep(r) && SepPath(up)
    case InRight(l, n, up) =>
      n != 0 && n !in Nodes(l) && n !in PathNodes(up) && Nodes(l) !! PathNodes(up) && Sep(l) && SepPath(up)
  }

  lemma {:induction false} SepPlug(p: Path, t: Tree)
    ensures Sep(Plug(p, t)) <==> Sep(t) && SepPath(p) && Nodes(t) !! PathNodes(p)
    ensures Nodes(Plug(p, t)) == Nodes(t) + PathNodes(p)
    decreases p
  {
    match p
    case Top =>
    case InLeft(n, r, up) => SepPlug(up, Node(t, n, r));
    case InRight(l, n, up) => SepPlug(up, Node(l, n, t));
  }

  lemma {:induction false} SepZero(t: Tree)
    requires Sep(t)
    ensures 0 !in Nodes(t)
    decreases t
  {
    if t.Node? {
      SepZero(t.left);
      SepZero(t.right);
    }
  }

  lemma {:induction false} SpineNodes(p: Path)
    ensures Spine(p) <= PathNodes(p)
    decreases p
  {
    if !p.Top? {
      SpineNodes(p.up);
    }
  }

  // ----- Order -----

  function Key(key: seq<int>, n: nat): int {
    if n < |key| then key[n] else 0
  }

  /** Keys grow from left to right and stay between the bounds. */
  predicate Ordered(key: seq<int>, t: Tree, lo: int, hi: int) {
    match t
    case Leaf => true
    case Node(l, n, r) =>
      lo < Key(key, n) < hi && Ordered(key, l, lo, Key(key, n)) && Ordered(key, r, Key(key, n), hi)
  }

  /** The bounds at the hole, inside outer bounds. */
  function Lo(key: seq<int>, p: Path, lo: int): int {
    match p
    case Top => lo
    case InLeft(_, _, up) => Lo(key, up, lo)
    case InRight(_, n, _) => Key(key, n)
  }

  function Hi(key: seq<int>, p: Path, hi: int): int {
    match p
    case Top => hi
    case InLeft(n, _, _) => Key(key, n)
    case InRight(_, _, up) => Hi(key, up, hi)
  }

  predicate PathOrdered(key: seq<int>, p: Path, lo: int, hi: int) {
    match p
    case Top => true
    case InLeft(n, r, up) =>
      Lo(key, up, lo) < Key(key, n) < Hi(key, up, hi) && Ordered(key, r, Key(key, n), Hi(key, up, hi))
      && PathOrdered(key, up, lo, hi)
    case InRight(l, n, up) =>
      Lo(key, up, lo) < Key(key, n) < Hi(key, up, hi) && Ordered(key, l, Lo(key, up, lo), Key(key, n))
      && PathOrdered(key, up, lo, hi)
  }

  lemma {:induction false} OrderedPlug(key: seq<int>, p: Path, t: Tree, lo: int, hi: int)
    ensures Ordered(key, Plug(p, t), lo, hi)
       <==> Ordered(key, t, Lo(key, p, lo), Hi(key, p, hi)) && PathOrdered(key, p, lo, hi)
    decreases p
  {
    match p
    case Top =>
    case InLeft(n, r, up) => OrderedPlug(key, up, Node(t, n, r), lo, hi);
    case InRight(l, n, up) => OrderedPlug(key, up, Node(l, n, t), lo, hi);
  }

  /** A key that fits the hole is the key of no node around it. */
  lemma {:induction false} PathMisses(key: seq<int>, p: Path, lo: int, hi: int, k: int)
    requires PathOrdered(key, p, lo, hi) && Lo(key, p, lo) < k < Hi(key, p, hi)
    ensures forall n :: n in PathNodes(p) ==> Key(key, n) != k
    decreases p
  {
    if !p.Top? {
      PathMisses(key, p.up, lo, hi, k);
      if p.InLeft? {
        OrderedBounds(key, p.right, Key(key, p.n), Hi(key, p.up, hi));
      } else {
        OrderedBounds(key, p.left, Lo(key, p.up, lo), Key(key, p.n));
      }
    }
  }

  function InOrder(t: Tree): seq<nat> {
    match t
    case Leaf => []
    case Node(l, n, r) => InOrder(l) + [n] + InOrder(r)
  }

  lemma {:induction false} OrderedBounds(key: seq<int>, t: Tree, lo: int, hi: int)
    requires Ordered(key, t, lo, hi)
    ensures forall n :: n in Nodes(t) ==> lo < Key(key, n) < hi
    decreases t
  {
    if t.Node? {
      OrderedBounds(key, t.left, lo, Key(key, t.n));
      OrderedBounds(key, t.right, Key(key, t.n), hi);
    }
  }

  // ----- Rotation and the ends of a tree -----

  function RotatedLeft(t: Tree): Tree
    requires t.Node? && t.right.Node?
  {
    Node(Node(t.left, t.n, t.right.left), t.right.n, t.right.right)
  }

  function RotatedRight(t: Tree): Tree
    requires t.Node? && t.left.Node?
  {
    Node(t.left.left, t.left.n, Node(t.left.right, t.n, t.right))
  }

  lemma RotatedNodes(t: Tree)
    requires t.Node?
    ensures t.right.Node? ==> Nodes(RotatedLeft(t)) == Nodes(t)
    ensures t.left.Node? ==> Nodes(RotatedRight(t)) == Nodes(t)
  {
  }

  /** The place of the leftmost node of a tree under `p`. */
  function MinPath(p: Path, t: Tree): Path
    requires t.Node?
    decreases t
  {
    if t.left.Leaf? then p else MinPath(InLeft(t.n, t.right, p), t.left)
  }

  function MinTree(t: Tree): (m: Tree)
    requires t.Node?
    ensures m.Node? && m.left.Leaf?
  {
    if t.left.Leaf? then t else MinTree(t.left)
  }

  lemma {:induction false} MinPlug(p: Path, t: Tree)
    requires t.Node?
    ensures Plug(MinPath(p, t), MinTree(t)) == Plug(p, t)
    decreases t
  {
    if t.left.Node? {
      MinPlug(InLeft(t.n, t.right, p), t.left);
    }
  }

  /** Where the leftmost node is not the root, what it hangs below is in the tree. */
  lemma {:induction false} MinAbove(p: Path, p': Path, t: Tree)
    requires t.Node? && t.left.Node?
    ensures Above(MinPath(p, t)) == Above(MinPath(p', t)) && Above(MinPath(p, t)) in Nodes(t)
    ensures !MinPath(p, t).Top?
    decreases t
  {
    if t.left.left.Node? {
      MinAbove(InLeft(t.n, t.right, p), InLeft(t.n, t.right, p'), t.left);
    }
  }

  /** The tree without its leftmost node. */
  function MinRest(t: Tree): Tree
    requires t.Node?
    decreases t
  {
    if t.left.Leaf? then t.right else Node(MinRest(t.left), t.n, t.right)
  }

  lemma {:induction false} MinRestPlug(p: Path, t: Tree)
    requires t.Node?
    ensures Plug(MinPath(p, t), MinTree(t).right) == Plug(p, MinRest(t))
    decreases t
  {
    if t.left.Node? {
      MinRestPlug(InLeft(t.n, t.right, p), t.left);
    }
  }

  lemma {:induction false} MinRestNodes(t: Tree)
    requires t.Node? && Sep(t)
    ensures MinTree(t).n in Nodes(t) && Nodes(MinRest(t)) == Nodes(t) - {MinTree(t).n} && Sep(MinRest(t))
    decreases t
  {
    if t.left.Node? {
      MinRestNodes(t.left);
    }
  }

  lemma {:induction false} MinRestOrdered(key: seq<int>, t: Tree, lo: int, hi: int)
    requires t.Node? && Ordered(key, t, lo, hi)
    ensures var k := Key(key, MinTree(t).n); lo < k < hi && Ordered(key, MinRest(t), k, hi)
    decreases t
  {
    if t.left.Node? {
      MinRestOrdered(key, t.left, lo, Key(key, t.n));
    }
  }

  lemma {:induction false} OrderedWider(key: seq<int>, t: Tree, lo: int, hi: int, lo': int, hi': int)
    requires Ordered(key, t, lo, hi) && lo' <= lo && hi <= hi'
    ensures Ordered(key, t, lo', hi')
    decreases t
  {
    if t.Node? {
      OrderedWider(key, t.left, lo, Key(key, t.n), lo', Key(key, t.n));
      OrderedWider(key, t.right, Key(key, t.n), hi, Key(key, t.n), hi');
    }
  }

  function MaxPath(p: Path, t: Tree): Path
    requires t.Node?
    decreases t
  {
    if t.right.Leaf? then p else MaxPath(InRight(t.left, t.n, p), t.right)
  }

  function MaxTree(t: Tree): (m: Tree)
    requires t.Node?
    ensures m.Node? && m.right.Leaf?
  {
    if t.right.Leaf? then t else MaxTree(t.right)
  }

  /** Every node has a place. */
  lemma {:induction false} Locate(p: Path, t: Tree, n: nat) returns (p': Path, t': Tree)
    requires n in Nodes(t)
    ensures t'.Node? && t'.n == n && Plug(p', t') == Plug(p, t)
    decreases t
  {
    if t.n == n {
      p', t' := p, t;
    } else if n in Nodes(t.left) {
      p', t' := Locate(InLeft(t.n, t.right, p), t.left, n);
    } else {
      p', t' := Locate(InRight(t.left, t.n, p), t.right, n);
    }
  }

  // ----- A node for another -----

  /** The same tree with `v` where `u` is. */
  function Renamed(t: Tree, u: nat, v: nat): Tree {
    match t
    case Leaf => Leaf
    case Node(l, n, r) => Node(Renamed(l, u, v), if n == u then v else n, Renamed(r, u, v))
  }

  lemma {:induction false} RenamedNodes(t: Tree, u: nat, v: nat)
    requires Sep(t) && v !in Nodes(t) && v != 0
    ensures Sep(Renamed(t, u, v))
    ensures u in Nodes(t) ==> Nodes(Renamed(t, u, v)) == Nodes(t) - {u} + {v}
    ensures u !in Nodes(t) ==> Renamed(t, u, v) == t
    decreases t
  {
    if t.Node? {
      RenamedNodes(t.left, u, v);
      RenamedNodes(t.right, u, v);
    }
  }

  lemma {:induction false} RenamedOrdered(key: seq<int>, t: Tree, u: nat, v: nat, lo: int, hi: int)
    requires Ordered(key, t, lo, hi) && Key(key, u) == Key(key, v)
    ensures Ordered(key, Renamed(t, u, v), lo, hi)
    decreases t
  {
    if t.Node? {
      RenamedOrdered(key, t.left, u, v, lo, Key(key, t.n));
      RenamedOrdered(key, t.right, u, v, Key(key, t.n), hi);
    }
  }

  /** A place of `u` is a place of `v` in the tree that has it instead. */
  lemma {:induction false} RenamedPlug(p: Path, t: Tree, t': Tree, u: nat, v: nat)
    requires SepPath(p) && u !in PathNodes(p) && v !in PathNodes(p) && v != 0 && t' == Renamed(t, u, v)
    ensures Renamed(Plug(p, t), u, v) == Plug(p, t')
    decreases p
  {
    match p
    case Top =>
    case InLeft(n, r, up) =>
      RenamedNodes(r, u, v);
      RenamedPlug(up, Node(t, n, r), Node(t', n, r), u, v);
    case InRight(l, n, up) =>
      RenamedNodes(l, u, v);
      RenamedPlug(up, Node(l, n, t), Node(l, n, t'), u, v);
  }

  // ----- Height -----

  function Height(t: Tree): nat {
    match t
    case Leaf => 0
    case Node(l, _, r) => 1 + if Height(l) < Height(r) then Height(r) else Height(l)
  }

  lemma {:induction false} SepSize(t: Tree)
    requires Sep(t)
    ensures |InOrder(t)| == |Nodes(t)|
    decreases t
  {
    if t.Node? {
      SepSize(t.left);
      SepSize(t.right);
      assert |Nodes(t)| == |Nodes(t.left)| + |{t.n}| + |Nodes(t.right)| by {
        assert Nodes(t.left) !! {t.n};
        assert Nodes(t.left) + {t.n} !! Nodes(t.right);
      }
    }
  }
}
