/** The red-black properties of a tree whose nodes are coloured by a table. */
module RbColor {
  import opened RbShape

  datatype Color = Red | Black

  function Col(col: seq<Color>, n: nat): Color {
    if n < |col| then col[n] else Black
  }

  function Weight(c: Color): nat {
    if c == Black then 1 else 0
  }

  function ColorOf(col: seq<Color>, t: Tree): Color {
    if t.Leaf? then Black else Col(col, t.n)
  }

  function ColorAbove(col: seq<Color>, p: Path): Color {
    if p.Top? then Black else Col(col, p.n)
  }

  /** Every way down to a leaf passes `h` black nodes. */
  predicate Balanced(col: seq<Color>, t: Tree, h: int) {
    match t
    case Leaf => h == 0
    case Node(l, n, r) =>
      var k := h - Weight(Col(col, n));
      k >= 0 && Balanced(col, l, k) && Balanced(col, r, k)
  }

  /** No red node has a red child. */
  predicate NoRedRed(col: seq<Color>, t: Tree) {
    match t
    case Leaf => true
    case Node(l, n, r) =>
      (Col(col, n) == Red ==> ColorOf(col, l) == Black && ColorOf(col, r) == Black)
      && NoRedRed(col, l) && NoRedRed(col, r)
  }

  /** The same around a hole that wants `h` black nodes below it. */
  predicate PathBalanced(col: seq<Color>, p: Path, h: int) {
    match p
    case Top => true
    case InLeft(n, r, up) => Balanced(col, r, h) && PathBalanced(col, up, h + Weight(Col(col, n)))
    case InRight(l, n, up) => Balanced(col, l, h) && PathBalanced(col, up, h + Weight(Col(col, n)))
  }

  predicate PathNoRedRed(col: seq<Color>, p: Path) {
    match p
    case Top => true
    case InLeft(n, r, up) =>
      (Col(col, n) == Red ==> ColorOf(col, r) == Black && ColorAbove(col, up) == Black)
      && NoRedRed(col, r) && PathNoRedRed(col, up)
    case InRight(l, n, up) =>
      (Col(col, n) == Red ==> ColorOf(col, l) == Black && ColorAbove(col, up) == Black)
      && NoRedRed(col, l) && PathNoRedRed(col, up)
  }

  /** The root is black, unless it is in the hole. */
  predicate TopBlack(col: seq<Color>, p: Path) {
    !p.Top? ==> (p.up.Top? ==> Col(col, p.n) == Black) && TopBlack(col, p.up)
  }

  /** A hole that a subtree of black height `h` with a black root fits. */
  predicate PathOk(col: seq<Color>, p: Path, h: int) {
    PathBalanced(col, p, h) && PathNoRedRed(col, p) && TopBlack(col, p)
  }

  /** A subtree of black height `h`. */
  predicate TreeOk(col: seq<Color>, t: Tree, h: int) {
    Balanced(col, t, h) && NoRedRed(col, t)
  }

  ghost predicate RedBlack(col: seq<Color>, t: Tree) {
    ColorOf(col, t) == Black && exists h: int :: TreeOk(col, t, h)
  }

  lemma {:induction false} PlugBalanced(col: seq<Color>, p: Path, t: Tree, h: int) returns (k: int)
    requires Balanced(col, t, h) && PathBalanced(col, p, h)
    ensures Balanced(col, Plug(p, t), k)
    decreases p
  {
    match p
    case Top => k := h;
    case InLeft(n, r, up) => k := PlugBalanced(col, up, Node(t, n, r), h + Weight(Col(col, n)));
    case InRight(l, n, up) => k := PlugBalanced(col, up, Node(l, n, t), h + Weight(Col(col, n)));
  }

  lemma {:induction false} PlugNoRedRed(col: seq<Color>, p: Path, t: Tree)
    requires NoRedRed(col, t) && PathNoRedRed(col, p) && TopBlack(col, p)
    requires ColorOf(col, t) == Red ==> !p.Top? && ColorAbove(col, p) == Black
    ensures NoRedRed(col, Plug(p, t)) && ColorOf(col, Plug(p, t)) == Black
    decreases p
  {
    match p
    case Top =>
    case InLeft(n, r, up) => PlugNoRedRed(col, up, Node(t, n, r));
    case InRight(l, n, up) => PlugNoRedRed(col, up, Node(l, n, t));
  }

  /** A subtree that fits its hole makes a red-black tree. */
  lemma PlugRedBlack(col: seq<Color>, p: Path, t: Tree, h: int)
    requires TreeOk(col, t, h) && PathOk(col, p, h)
    requires ColorOf(col, t) == Red ==> !p.Top? && ColorAbove(col, p) == Black
    ensures RedBlack(col, Plug(p, t))
  {
    var k := PlugBalanced(col, p, t, h);
    PlugNoRedRed(col, p, t);
    assert TreeOk(col, Plug(p, t), k);
  }

  lemma {:induction false} PlugBalancedInverse(col: seq<Color>, p: Path, t: Tree, k: int) returns (h: int)
    requires Balanced(col, Plug(p, t), k)
    ensures Balanced(col, t, h) && PathBalanced(col, p, h)
    decreases p
  {
    match p
    case Top => h := k;
    case InLeft(n, r, up) =>
      h := PlugBalancedInverse(col, up, Node(t, n, r), k);
      h := h - Weight(Col(col, n));
    case InRight(l, n, up) =>
      h := PlugBalancedInverse(col, up, Node(l, n, t), k);
      h := h - Weight(Col(col, n));
  }

  lemma {:induction false} PlugNoRedRedInverse(col: seq<Color>, p: Path, t: Tree)
    requires NoRedRed(col, Plug(p, t)) && ColorOf(col, Plug(p, t)) == Black
    ensures NoRedRed(col, t) && PathNoRedRed(col, p) && TopBlack(col, p)
    ensures ColorOf(col, t) == Red ==> !p.Top? && ColorAbove(col, p) == Black
    decreases p
  {
    match p
    case Top =>
    case InLeft(n, r, up) => PlugNoRedRedInverse(col, up, Node(t, n, r));
    case InRight(l, n, up) => PlugNoRedRedInverse(col, up, Node(l, n, t));
  }

  /** And a red-black tree is one around each of its subtrees. */
  lemma RedBlackInverse(col: seq<Color>, p: Path, t: Tree) returns (h: int)
    requires RedBlack(col, Plug(p, t))
    ensures TreeOk(col, t, h) && PathOk(col, p, h)
    ensures ColorOf(col, t) == Red ==> !p.Top? && ColorAbove(col, p) == Black
  {
    var k: int :| TreeOk(col, Plug(p, t), k);
    h := PlugBalancedInverse(col, p, t, k);
    PlugNoRedRedInverse(col, p, t);
  }

  /** Painting other nodes changes nothing. */
  predicate SameColors(col: seq<Color>, col': seq<Color>, s: set<nat>) {
    forall n :: n in s ==> Col(col, n) == Col(col', n)
  }

  lemma {:induction false} TreeRepainted(col: seq<Color>, col': seq<Color>, t: Tree, h: int)
    requires SameColors(col, col', Nodes(t)) && TreeOk(col, t, h)
    ensures TreeOk(col', t, h) && ColorOf(col', t) == ColorOf(col, t)
    decreases t
  {
    if t.Node? {
      TreeRepainted(col, col', t.left, h - Weight(Col(col, t.n)));
      TreeRepainted(col, col', t.right, h - Weight(Col(col, t.n)));
    }
  }

  lemma {:induction false} PathRepainted(col: seq<Color>, col': seq<Color>, p: Path, h: int)
    requires SameColors(col, col', PathNodes(p)) && PathOk(col, p, h)
    ensures PathOk(col', p, h) && ColorAbove(col', p) == ColorAbove(col, p)
    decreases p
  {
    if !p.Top? {
      TreeRepainted(col, col', if p.InLeft? then p.right else p.left, h);
      PathRepainted(col, col', p.up, h + Weight(Col(col, p.n)));
    }
  }

  // ----- Height -----

  function Pow2(n: int): nat {
    if n <= 0 then 1 else 2 * Pow2(n - 1)
  }

  lemma {:induction false} BalancedSize(col: seq<Color>, t: Tree, h: int)
    requires TreeOk(col, t, h)
    ensures Pow2(h) <= |InOrder(t)| + 1
    ensures Height(t) <= 2 * h + if ColorOf(col, t) == Red then 1 else 0
    decreases t
  {
    if t.Node? {
      BalancedSize(col, t.left, h - Weight(Col(col, t.n)));
      BalancedSize(col, t.right, h - Weight(Col(col, t.n)));
      assert |InOrder(t)| == |InOrder(t.left)| + 1 + |InOrder(t.right)|;
    }
  }

  /** A red-black tree of n nodes is at most 2 log2(n + 1) high. */
  lemma RedBlackHeight(col: seq<Color>, t: Tree) returns (h: int)
    requires RedBlack(col, t)
    ensures Height(t) <= 2 * h && Pow2(h) <= |InOrder(t)| + 1
    ensures Sep(t) ==> Pow2(h) <= |Nodes(t)| + 1
  {
    if Sep(t) {
      SepSize(t);
    }
    h :| TreeOk(col, t, h);
    BalancedSize(col, t, h);
  }

  /** A node in the place of another, with its colour. */
  lemma {:induction false} RenamedColors(col: seq<Color>, t: Tree, u: nat, v: nat, h: int)
    requires TreeOk(col, t, h) && v !in Nodes(t) && v < |col|
    ensures var col', t' := col[v := Col(col, u)], Renamed(t, u, v); TreeOk(col', t', h) && ColorOf(col', t') == ColorOf(col, t)
    decreases t
  {
    if t.Node? {
      RenamedColors(col, t.left, u, v, h - Weight(Col(col, t.n)));
      RenamedColors(col, t.right, u, v, h - Weight(Col(col, t.n)));
    }
  }
}
