/** What one rotation or one repainting does to the shape, the pointers, the colours and the gaps. */
module RbSteps {
  import opened RbShape
  import opened RbColor
  import opened RbLinks
  import G = Gaps

  // ----- A subtree in its place -----

  /** The pointers, the keys and the root pointer around and below a place. */
  predicate Around(m: Ptrs, root: nat, key: seq<int>, lo: int, hi: int, p: Path, t: Tree) {
    && Links(m, t, Above(p)) && PathLinks(m, root, p, Root(t))
    && Sep(t) && SepPath(p) && Nodes(t) !! PathNodes(p)
    && Ordered(key, t, Lo(key, p, lo), Hi(key, p, hi)) && PathOrdered(key, p, lo, hi)
  }

  lemma AroundPlug(m: Ptrs, root: nat, key: seq<int>, lo: int, hi: int, p: Path, t: Tree)
    ensures Around(m, root, key, lo, hi, p, t) <==> Around(m, root, key, lo, hi, Top, Plug(p, t))
  {
    LinksPlug(m, root, p, t);
    SepPlug(p, t);
    OrderedPlug(key, p, t, lo, hi);
  }

  /** All pointers but those of the named nodes are the same. */
  ghost predicate Elsewhere(m: Ptrs, m': Ptrs, s: set<nat>)
    requires Ok(m)
  {
    forall n :: n !in s ==> SameAt(m, m', n)
  }

  /** The hole's parent, or the root pointer, leads to another child. */
  predicate Rerooted(m: Ptrs, m': Ptrs, root: nat, root': nat, p: Path, child: nat, child': nat) {
    if p.Top? then root' == child'
    else root' == root && if p.InLeft? then Has(m', p.n, child', Root(p.right), Above(p.up))
                          else Has(m', p.n, Root(p.left), child', Above(p.up))
  }

  lemma ElsewhereSame(m: Ptrs, m': Ptrs, s: set<nat>, q: set<nat>)
    requires Ok(m) && Elsewhere(m, m', s) && s !! q
    ensures Same(m, m', q)
  {
  }

  lemma {:induction false} AboveInPath(p: Path)
    ensures !p.Top? ==> p.n in PathNodes(p)
    ensures SepPath(p) ==> 0 !in PathNodes(p)
    decreases p
  {
    if !p.Top? {
      AboveInPath(p.up);
      if SepPath(p) {
        SepZero(if p.InLeft? then p.right else p.left);
      }
    }
  }

  /** What the pointers around a left rotation are, one by one. */
  lemma LeftParts(m: Ptrs, root: nat, p: Path, t: Tree)
    requires Ok(m) && Links(m, t, Above(p)) && PathLinks(m, root, p, Root(t))
    requires Sep(t) && SepPath(p) && Nodes(t) !! PathNodes(p)
    requires t.Node? && t.right.Node?
    ensures var x, y, b, c, q := t.n, t.right.n, t.right.left, t.right.right, Above(p);
      && Has(m, x, Root(t.left), y, q) && Has(m, y, Root(b), Root(c), x)
      && x != 0 && y != 0 && x != y && Root(b) != x && Root(b) != y && q != x && q != y
      && (b.Node? ==> b.n != 0 && b.n != q && Has(m, b.n, Root(b.left), Root(b.right), y))
      && (p.Top? <==> q == 0)
      && (p.InLeft? ==> Has(m, q, x, Root(p.right), Above(p.up)))
      && (p.InRight? ==> Has(m, q, Root(p.left), x, Above(p.up)) && Root(p.left) != x)
  {
    AboveInPath(p);
    SepZero(t);
    assert Links(m, t.right, t.n) && Links(m, t.right.left, t.right.n);
    if p.InRight? {
      SepZero(p.left);
      assert p.left.Node? ==> p.left.n in PathNodes(p);
    }
  }

  lemma RightParts(m: Ptrs, root: nat, p: Path, t: Tree)
    requires Ok(m) && Links(m, t, Above(p)) && PathLinks(m, root, p, Root(t))
    requires Sep(t) && SepPath(p) && Nodes(t) !! PathNodes(p)
    requires t.Node? && t.left.Node?
    ensures var x, y, b, a, q := t.n, t.left.n, t.left.right, t.left.left, Above(p);
      && Has(m, x, y, Root(t.right), q) && Has(m, y, Root(a), Root(b), x)
      && x != 0 && y != 0 && x != y && Root(b) != x && Root(b) != y && q != x && q != y
      && (b.Node? ==> b.n != 0 && b.n != q && Has(m, b.n, Root(b.left), Root(b.right), y))
      && (p.Top? <==> q == 0)
      && (p.InLeft? ==> Has(m, q, x, Root(p.right), Above(p.up)) && Root(p.right) != x)
      && (p.InRight? ==> Has(m, q, Root(p.left), x, Above(p.up)))
  {
    AboveInPath(p);
    SepZero(t);
    assert Links(m, t.left, t.n) && Links(m, t.left.right, t.left.n);
    if p.InLeft? {
      SepZero(p.right);
      assert p.right.Node? ==> p.right.n in PathNodes(p);
    }
  }

  lemma RotatedLeftOrdered(key: seq<int>, t: Tree, lo: int, hi: int)
    requires t.Node? && t.right.Node? && Ordered(key, t, lo, hi) && Sep(t)
    ensures Ordered(key, RotatedLeft(t), lo, hi) && Sep(RotatedLeft(t)) && Nodes(RotatedLeft(t)) == Nodes(t)
  {
  }

  lemma RotatedRightOrdered(key: seq<int>, t: Tree, lo: int, hi: int)
    requires t.Node? && t.left.Node? && Ordered(key, t, lo, hi) && Sep(t)
    ensures Ordered(key, RotatedRight(t), lo, hi) && Sep(RotatedRight(t)) && Nodes(RotatedRight(t)) == Nodes(t)
  {
  }

  /** The pointers after a left rotation at `t`, as the writes leave them. */
  predicate LeftWritten(m: Ptrs, m': Ptrs, root: nat, root': nat, p: Path, t: Tree)
    requires t.Node? && t.right.Node?
  {
    var x, y, b, q := t.n, t.right.n, t.right.left, Above(p);
    && Ok(m) && x < |m.left| && y < |m.left| && Root(b) < |m.left| && q < |m.left|
    && m'.left == (if p.InLeft? then m.left[q := y] else m.left)[y := x]
    && m'.right == (if p.InRight? then m.right[x := Root(b)][q := y] else m.right[x := Root(b)])
    && m'.parent == (if b.Node? then m.parent[b.n := x] else m.parent)[y := q][x := y]
    && root' == if p.Top? then y else root
  }

  predicate RightWritten(m: Ptrs, m': Ptrs, root: nat, root': nat, p: Path, t: Tree)
    requires t.Node? && t.left.Node?
  {
    var x, y, b, q := t.n, t.left.n, t.left.right, Above(p);
    && Ok(m) && x < |m.left| && y < |m.left| && Root(b) < |m.left| && q < |m.left|
    && m'.left == (if p.InLeft? then m.left[x := Root(b)][q := y] else m.left[x := Root(b)])
    && m'.right == (if p.InRight? then m.right[q := y] else m.right)[y := x]
    && m'.parent == (if b.Node? then m.parent[b.n := x] else m.parent)[y := q][x := y]
    && root' == if p.Top? then y else root
  }

  lemma SepParts(t: Tree)
    requires t.Node? && Sep(t)
    ensures Sep(t.left) && Sep(t.right)
  {
  }

  /** Nothing but the nodes whose pointers are written is shared with what is only moved. */
  predicate Apart(s: set<nat>, p: Path, a: Tree, b: Tree, c: Tree) {
    && s !! Nodes(a) && s !! Nodes(c)
    && s !! (if b.Node? then Nodes(b) - {b.n} else {}) && s !! (if p.Top? then {} else PathNodes(p) - {p.n})
  }

  lemma LeftApart(p: Path, t: Tree)
    requires Sep(t) && SepPath(p) && Nodes(t) !! PathNodes(p) && t.Node? && t.right.Node?
    ensures Apart({t.n, t.right.n, Root(t.right.left), Above(p)}, p, t.left, t.right.left, t.right.right)
  {
    AboveInPath(p);
    SepZero(t);
  }

  lemma RightApart(p: Path, t: Tree)
    requires Sep(t) && SepPath(p) && Nodes(t) !! PathNodes(p) && t.Node? && t.left.Node?
    ensures Apart({t.n, t.left.n, Root(t.left.right), Above(p)}, p, t.left.left, t.left.right, t.right)
  {
    AboveInPath(p);
    SepZero(t);
  }

  lemma FrameAround(m: Ptrs, m': Ptrs, s: set<nat>, p: Path, a: Tree, b: Tree, c: Tree)
    requires Ok(m) && Elsewhere(m, m', s) && Apart(s, p, a, b, c)
    ensures Same(m, m', Nodes(a)) && Same(m, m', Nodes(c))
    ensures b.Node? ==> Same(m, m', Nodes(b) - {b.n})
    ensures !p.Top? ==> Same(m, m', PathNodes(p) - {p.n})
  {
    hide Nodes, PathNodes;
    ElsewhereSame(m, m', s, Nodes(a));
    ElsewhereSame(m, m', s, Nodes(c));
    if b.Node? {
      ElsewhereSame(m, m', s, Nodes(b) - {b.n});
    }
    if !p.Top? {
      ElsewhereSame(m, m', s, PathNodes(p) - {p.n});
    }
  }

  lemma LeftWrittenHas(m: Ptrs, m': Ptrs, root: nat, root': nat, p: Path, t: Tree)
    requires Ok(m) && Links(m, t, Above(p)) && PathLinks(m, root, p, Root(t))
    requires Sep(t) && SepPath(p) && Nodes(t) !! PathNodes(p)
    requires t.Node? && t.right.Node? && LeftWritten(m, m', root, root', p, t)
    ensures var x, y, b := t.n, t.right.n, t.right.left;
      && Elsewhere(m, m', {x, y, Root(b), Above(p)})
      && Has(m', x, Root(t.left), Root(b), y) && Has(m', y, x, Root(t.right.right), Above(p))
      && (b.Node? ==> Has(m', b.n, Root(b.left), Root(b.right), x))
      && Rerooted(m, m', root, root', p, x, y)
  {
    hide Links, PathLinks, Sep, SepPath, Nodes, PathNodes;
    LeftParts(m, root, p, t);
  }

  lemma RotatedLeftLinks(m: Ptrs, m': Ptrs, root: nat, root': nat, p: Path, t: Tree)
    requires Ok(m) && Links(m, t, Above(p)) && PathLinks(m, root, p, Root(t))
    requires Sep(t) && SepPath(p) && Nodes(t) !! PathNodes(p)
    requires t.Node? && t.right.Node? && LeftWritten(m, m', root, root', p, t)
    ensures Links(m', RotatedLeft(t), Above(p)) && PathLinks(m', root', p, t.right.n)
  {
    var x, y, a, b, c := t.n, t.right.n, t.left, t.right.left, t.right.right;
    var s := {x, y, Root(b), Above(p)};
    SepParts(t);
    SepParts(t.right);
    hide Nodes, PathNodes, Sep, SepPath, Same, Elsewhere, LeftWritten, Rerooted;
    LeftWrittenHas(m, m', root, root', p, t);
    LeftApart(p, t);
    FrameAround(m, m', s, p, a, b, c);
    LinksFrame(m, m', a, x);
    LinksFrame(m, m', c, y);
    Reparented(m, m', b, y, x);
    Rechild(m, m', root, root', p, x, y);
  }

  lemma RightWrittenHas(m: Ptrs, m': Ptrs, root: nat, root': nat, p: Path, t: Tree)
    requires Ok(m) && Links(m, t, Above(p)) && PathLinks(m, root, p, Root(t))
    requires Sep(t) && SepPath(p) && Nodes(t) !! PathNodes(p)
    requires t.Node? && t.left.Node? && RightWritten(m, m', root, root', p, t)
    ensures var x, y, b := t.n, t.left.n, t.left.right;
      && Elsewhere(m, m', {x, y, Root(b), Above(p)})
      && Has(m', x, Root(b), Root(t.right), y) && Has(m', y, Root(t.left.left), x, Above(p))
      && (b.Node? ==> Has(m', b.n, Root(b.left), Root(b.right), x))
      && Rerooted(m, m', root, root', p, x, y)
  {
    hide Links, PathLinks, Sep, SepPath, Nodes, PathNodes;
    RightParts(m, root, p, t);
  }

  lemma RotatedRightLinks(m: Ptrs, m': Ptrs, root: nat, root': nat, p: Path, t: Tree)
    requires Ok(m) && Links(m, t, Above(p)) && PathLinks(m, root, p, Root(t))
    requires Sep(t) && SepPath(p) && Nodes(t) !! PathNodes(p)
    requires t.Node? && t.left.Node? && RightWritten(m, m', root, root', p, t)
    ensures Links(m', RotatedRight(t), Above(p)) && PathLinks(m', root', p, t.left.n)
  {
    var x, y, a, b, c := t.n, t.left.n, t.left.left, t.left.right, t.right;
    var s := {x, y, Root(b), Above(p)};
    SepParts(t);
    SepParts(t.left);
    hide Nodes, PathNodes, Sep, SepPath, Same, Elsewhere, RightWritten, Rerooted;
    RightWrittenHas(m, m', root, root', p, t);
    RightApart(p, t);
    FrameAround(m, m', s, p, a, b, c);
    LinksFrame(m, m', a, y);
    LinksFrame(m, m', c, x);
    Reparented(m, m', b, y, x);
    Rechild(m, m', root, root', p, x, y);
  }

  // ----- The gaps after a rotation -----

  lemma RotatedLeftGaps(g: G.Gaps, key: seq<int>, p: Path, t: Tree, lo: int, hi: int)
    requires t.Node? && t.right.Node? && G.Exact(g, key, Plug(p, t), lo, hi)
    ensures var x, y, a, b, c := t.n, t.right.n, t.left, t.right.left, t.right.right;
      && G.Exact(g, key, a, Lo(key, p, lo), Key(key, x)) && G.Exact(g, key, b, Key(key, x), Key(key, y))
      && G.OffExact(g, key, InLeft(y, c, p), lo, hi)
  {
    G.ExactPlug(g, key, p, t, lo, hi);
  }

  lemma RotatedRightGaps(g: G.Gaps, key: seq<int>, p: Path, t: Tree, lo: int, hi: int)
    requires t.Node? && t.left.Node? && G.Exact(g, key, Plug(p, t), lo, hi)
    ensures var x, y, a, b, c := t.n, t.left.n, t.left.left, t.left.right, t.right;
      && G.Exact(g, key, a, Lo(key, p, lo), Key(key, y))
      && G.Exact(g, key, b, Key(key, y), Key(key, x)) && G.Exact(g, key, c, Key(key, x), Hi(key, p, hi))
      && G.OffExact(g, key, InRight(a, y, p), lo, hi)
  {
    G.ExactPlug(g, key, p, t, lo, hi);
  }

  lemma ExactParts(g: G.Gaps, key: seq<int>, t: Tree, lo: int, hi: int)
    requires t.Node? && G.Exact(g, key, t, lo, hi)
    ensures G.Exact(g, key, t.left, lo, Key(key, t.n)) && G.Exact(g, key, t.right, Key(key, t.n), hi)
  {
  }

  /** A right rotation recomputes first at the node's left child, with the gaps right of it still stale. */
  lemma RotatedRightHalf(g: G.Gaps, g': G.Gaps, key: seq<int>, p: Path, t: Tree, lo: int, hi: int)
    requires t.Node? && t.left.Node? && G.Exact(g, key, Plug(p, t), lo, hi)
    requires var s, l := RotatedRight(t), Lo(key, p, lo);
      && G.Exact(g', key, s.left, l, Key(key, s.n))
      && G.On(g', InLeft(s.n, s.right, p), G.MaxGap(key, s.left, l, Key(key, s.n)))
      && G.SameOff(g, g', InLeft(s.n, s.right, p))
    ensures var x, y, a, b, c := t.n, t.left.n, t.left.left, t.left.right, t.right;
      && G.Exact(g', key, b, Key(key, y), Key(key, x)) && G.Exact(g', key, c, Key(key, x), Hi(key, p, hi))
      && G.OffExact(g', key, InRight(a, y, p), lo, hi)
  {
    var x, y, b, c := t.n, t.left.n, t.left.right, t.right;
    RotatedRightGaps(g, key, p, t, lo, hi);
    G.ExactFrame(g, g', key, b, Key(key, y), Key(key, x));
    G.ExactFrame(g, g', key, c, Key(key, x), Hi(key, p, hi));
    G.OffExactFrame(g, g', key, p, lo, hi);
  }

  // ----- The three steps of balancing an insertion -----

  /** The subtree beside the hole. */
  function Beside(p: Path): Tree
    requires !p.Top?
  {
    if p.InLeft? then p.right else p.left
  }

  /** A subtree together with its parent. */
  function Joined(p: Path, t: Tree): Tree
    requires !p.Top?
  {
    if p.InLeft? then Node(t, p.n, p.right) else Node(p.left, p.n, t)
  }

  /** A red node in a tree that is sound but for its parent perhaps being red too. */
  predicate RedAt(col: seq<Color>, p: Path, t: Tree, h: int) {
    t.Node? && Col(col, t.n) == Red && TreeOk(col, t, h) && PathOk(col, p, h)
  }

  lemma GrandparentBlack(col: seq<Color>, p: Path, t: Tree, h: int)
    requires RedAt(col, p, t, h) && !p.Top? && Col(col, p.n) == Red
    ensures !p.up.Top? && Col(col, p.up.n) == Black
    ensures TreeOk(col, Beside(p), h) && ColorOf(col, Beside(p)) == Black
    ensures TreeOk(col, Beside(p.up), h) && PathOk(col, p.up.up, h + 1)
  {
    assert PathOk(col, p.up, h);
  }

  lemma NodeOk(col: seq<Color>, l: Tree, n: nat, r: Tree, h: int)
    requires h >= 0 && TreeOk(col, l, h) && TreeOk(col, r, h)
    requires Col(col, n) == Red ==> ColorOf(col, l) == Black && ColorOf(col, r) == Black
    ensures TreeOk(col, Node(l, n, r), h + Weight(Col(col, n)))
  {
  }

  lemma NodeParts(col: seq<Color>, t: Tree, h: int)
    requires t.Node? && TreeOk(col, t, h)
    ensures h >= Weight(Col(col, t.n))
    ensures TreeOk(col, t.left, h - Weight(Col(col, t.n))) && TreeOk(col, t.right, h - Weight(Col(col, t.n)))
    ensures Col(col, t.n) == Red ==> ColorOf(col, t.left) == Black && ColorOf(col, t.right) == Black
  {
  }

  lemma PathParts(col: seq<Color>, p: Path, h: int)
    requires !p.Top? && PathOk(col, p, h)
    ensures TreeOk(col, Beside(p), h) && PathOk(col, p.up, h + Weight(Col(col, p.n)))
    ensures Col(col, p.n) == Red ==> ColorOf(col, Beside(p)) == Black && ColorAbove(col, p.up) == Black && !p.up.Top?
  {
  }

  lemma PathStep(col: seq<Color>, p: Path, h: int)
    requires !p.Top? && TreeOk(col, Beside(p), h) && PathOk(col, p.up, h + Weight(Col(col, p.n)))
    requires Col(col, p.n) == Red ==> ColorOf(col, Beside(p)) == Black && ColorAbove(col, p.up) == Black && !p.up.Top?
    ensures PathOk(col, p, h)
  {
  }

  /** The parent and the grandparent of a place are none of the other nodes around. */
  lemma FamilyApart(p: Path, t: Tree)
    requires Sep(t) && SepPath(p) && Nodes(t) !! PathNodes(p) && !p.Top? && !p.up.Top?
    ensures var s := {p.n, p.up.n};
      p.n != p.up.n && s !! Nodes(t) && s !! Nodes(Beside(p)) && s !! Nodes(Beside(p.up)) && s !! PathNodes(p.up.up)
    ensures var u := Beside(p.up);
      && Nodes(u) !! Nodes(t) && Nodes(u) !! Nodes(Beside(p)) && Nodes(u) !! PathNodes(p.up.up) && Sep(u)
  {
  }

  lemma UncleApart(u: Tree)
    requires u.Node? && Sep(u)
    ensures u.n in Nodes(u) && u.n !in Nodes(u.left) && u.n !in Nodes(u.right)
    ensures Nodes(u.left) <= Nodes(u) && Nodes(u.right) <= Nodes(u)
  {
  }

  lemma PaintedApart(col: seq<Color>, col': seq<Color>, s: set<nat>, q: set<nat>)
    requires forall n :: n !in s ==> Col(col, n) == Col(col', n)
    requires s !! q
    ensures SameColors(col, col', q)
  {
  }

  /** Red parent and red uncle: both become black, the grandparent red. */
  lemma UncleRed(col: seq<Color>, col': seq<Color>, p: Path, t: Tree, h: int)
    requires RedAt(col, p, t, h) && !p.Top? && Col(col, p.n) == Red && !p.up.Top?
    requires Sep(t) && SepPath(p) && Nodes(t) !! PathNodes(p)
    requires p.n < |col| && p.up.n < |col|
    requires var u := Beside(p.up);
      u.Node? && u.n < |col| && Col(col, u.n) == Red && col' == col[p.n := Black][u.n := Black][p.up.n := Red]
    ensures RedAt(col', p.up.up, Joined(p.up, Joined(p, t)), h + 1)
  {
    hide TreeOk, PathOk, Sep, SepPath, Nodes, PathNodes, SameColors;
    GrandparentBlack(col, p, t, h);
    FamilyApart(p, t);
    var u := Beside(p.up);
    UncleApart(u);
    var s := {p.n, p.up.n, u.n};
    PaintedApart(col, col', s, Nodes(t));
    PaintedApart(col, col', s, Nodes(Beside(p)));
    PaintedApart(col, col', s, Nodes(u.left));
    PaintedApart(col, col', s, Nodes(u.right));
    PaintedApart(col, col', s, PathNodes(p.up.up));
    NodeParts(col, u, h);
    NodeParts(col, t, h);
    TreeRepainted(col, col', t, h);
    TreeRepainted(col, col', Beside(p), h);
    TreeRepainted(col, col', u.left, h);
    TreeRepainted(col, col', u.right, h);
    PathRepainted(col, col', p.up.up, h + 1);
    NodeOk(col', u.left, u.n, u.right, h);
    if p.InLeft? {
      NodeOk(col', t, p.n, p.right, h);
    } else {
      NodeOk(col', p.left, p.n, t, h);
    }
    var j := Joined(p, t);
    if p.up.InLeft? {
      NodeOk(col', j, p.up.n, u, h + 1);
    } else {
      NodeOk(col', u, p.up.n, j, h + 1);
    }
  }

  /** Red parent, black uncle, node on the inner side: what a rotation of the parent gives. */
  lemma Inner(col: seq<Color>, p: Path, t: Tree, h: int)
    requires RedAt(col, p, t, h) && !p.Top? && Col(col, p.n) == Red && !p.up.Top?
    ensures p.InRight? ==> RedAt(col, InLeft(t.n, t.right, p.up), Node(p.left, p.n, t.left), h)
    ensures p.InLeft? ==> RedAt(col, InRight(t.left, t.n, p.up), Node(t.right, p.n, p.right), h)
  {
    GrandparentBlack(col, p, t, h);
  }

  /** Red parent, black uncle, node on the outer side: what painting and rotating the grandparent gives. */
  lemma Outer(col: seq<Color>, col': seq<Color>, p: Path, t: Tree, h: int)
    requires RedAt(col, p, t, h) && !p.Top? && Col(col, p.n) == Red && !p.up.Top?
    requires ColorOf(col, Beside(p.up)) == Black
    requires Sep(t) && SepPath(p) && Nodes(t) !! PathNodes(p)
    requires p.n < |col| && p.up.n < |col| && col' == col[p.n := Black][p.up.n := Red]
    ensures p.InLeft? ==> RedAt(col', InLeft(p.n, Node(p.right, p.up.n, Beside(p.up)), p.up.up), t, h)
    ensures p.InRight? ==> RedAt(col', InRight(Node(Beside(p.up), p.up.n, p.left), p.n, p.up.up), t, h)
  {
    hide TreeOk, PathOk, Sep, SepPath, Nodes, PathNodes, SameColors;
    GrandparentBlack(col, p, t, h);
    FamilyApart(p, t);
    var s := {p.n, p.up.n};
    PaintedApart(col, col', s, Nodes(t));
    PaintedApart(col, col', s, Nodes(Beside(p)));
    PaintedApart(col, col', s, Nodes(Beside(p.up)));
    PaintedApart(col, col', s, PathNodes(p.up.up));
    NodeParts(col, t, h);
    TreeRepainted(col, col', t, h);
    TreeRepainted(col, col', Beside(p), h);
    TreeRepainted(col, col', Beside(p.up), h);
    PathRepainted(col, col', p.up.up, h + 1);
    if p.InLeft? {
      NodeOk(col', p.right, p.up.n, Beside(p.up), h);
      PathStep(col', InLeft(p.n, Node(p.right, p.up.n, Beside(p.up)), p.up.up), h);
    } else {
      NodeOk(col', Beside(p.up), p.up.n, p.left, h);
      PathStep(col', InRight(Node(Beside(p.up), p.up.n, p.left), p.n, p.up.up), h);
    }
  }

  // ----- A node put in a hole -----

  /** The pointers after `z` is hung into the hole, as the writes leave them. */
  predicate HungIn(m: Ptrs, m': Ptrs, root: nat, root': nat, p: Path, z: nat) {
    && Ok(m) && z < |m.left| && Above(p) < |m.left|
    && m'.left == (if p.InLeft? then m.left[p.n := z] else m.left)[z := 0]
    && m'.right == (if p.InRight? then m.right[p.n := z] else m.right)[z := 0]
    && m'.parent == m.parent[z := Above(p)]
    && root' == if p.Top? then z else root
  }

  lemma HungInLinks(m: Ptrs, m': Ptrs, root: nat, root': nat, p: Path, z: nat)
    requires PathLinks(m, root, p, 0) && SepPath(p) && z !in PathNodes(p) && z != 0
    requires HungIn(m, m', root, root', p, z)
    ensures Links(m', Node(Leaf, z, Leaf), Above(p)) && PathLinks(m', root', p, z)
  {
    AboveInPath(p);
    assert Elsewhere(m, m', {z, Above(p)});
    if !p.Top? {
      ElsewhereSame(m, m', {z, Above(p)}, PathNodes(p) - {p.n});
    }
    Rechild(m, m', root, root', p, 0, z);
  }

  // ----- The four steps of balancing a removal -----

  /** A subtree of black height `h`, but for its root and its children perhaps all being red. */
  predicate Nearly(col: seq<Color>, t: Tree, h: int) {
    Balanced(col, t, h) && (t.Node? ==> NoRedRed(col, t.left) && NoRedRed(col, t.right))
  }

  /** A subtree in a hole that wants one black node more. */
  predicate Short(col: seq<Color>, p: Path, t: Tree, h: int) {
    Nearly(col, t, h) && PathOk(col, p, h + 1)
  }

  lemma NearlyBlack(col: seq<Color>, t: Tree, h: int)
    ensures TreeOk(col, t, h) ==> Nearly(col, t, h)
    ensures Nearly(col, t, h) && ColorOf(col, t) == Black ==> TreeOk(col, t, h)
    ensures Nearly(col, t, h) ==> h >= 0
  {
  }

  lemma SiblingIsNode(col: seq<Color>, p: Path, t: Tree, h: int)
    requires Short(col, p, t, h) && !p.Top?
    ensures Beside(p).Node?
  {
    NearlyBlack(col, t, h);
  }

  lemma SiblingApart(p: Path, t: Tree)
    requires Sep(t) && SepPath(p) && Nodes(t) !! PathNodes(p) && !p.Top? && Beside(p).Node?
    ensures var w := Beside(p); var s := {p.n, w.n};
      && p.n != w.n && s !! Nodes(t) && s !! Nodes(w.left) && s !! Nodes(w.right) && s !! PathNodes(p.up)
      && Nodes(w.left) !! Nodes(w.right) && Sep(w.left) && Sep(w.right)
      && Nodes(w.left) !! Nodes(t) && Nodes(w.right) !! Nodes(t)
      && Nodes(w.left) !! PathNodes(p.up) && Nodes(w.right) !! PathNodes(p.up)
  {
  }

  /** The subtrees around a place and its sibling keep their properties when only `s` is painted. */
  lemma SiblingRepainted(col: seq<Color>, col': seq<Color>, s: set<nat>, p: Path, t: Tree, h: int, ha: int, hb: int, hp: int)
    requires !p.Top? && Beside(p).Node?
    requires forall n :: n !in s ==> Col(col, n) == Col(col', n)
    requires TreeOk(col, t, h) && PathOk(col, p.up, hp)
    requires TreeOk(col, Beside(p).left, ha) && TreeOk(col, Beside(p).right, hb)
    requires s !! Nodes(t) && s !! PathNodes(p.up) && s !! Nodes(Beside(p).left) && s !! Nodes(Beside(p).right)
    ensures TreeOk(col', t, h) && ColorOf(col', t) == ColorOf(col, t)
    ensures PathOk(col', p.up, hp) && ColorAbove(col', p.up) == ColorAbove(col, p.up)
    ensures TreeOk(col', Beside(p).left, ha) && ColorOf(col', Beside(p).left) == ColorOf(col, Beside(p).left)
    ensures TreeOk(col', Beside(p).right, hb) && ColorOf(col', Beside(p).right) == ColorOf(col, Beside(p).right)
  {
    hide TreeOk, PathOk, Nodes, PathNodes;
    TreeRepainted(col, col', t, h);
    PathRepainted(col, col', p.up, hp);
    TreeRepainted(col, col', Beside(p).left, ha);
    TreeRepainted(col, col', Beside(p).right, hb);
  }

  /** Red sibling: painted black, its parent red, and the parent rotated. */
  lemma RedSibling(col: seq<Color>, col': seq<Color>, p: Path, t: Tree, h: int)
    requires TreeOk(col, t, h) && ColorOf(col, t) == Black && PathOk(col, p, h + 1)
    requires Sep(t) && SepPath(p) && Nodes(t) !! PathNodes(p)
    requires !p.Top? && Beside(p).Node? && Col(col, Beside(p).n) == Red
    requires p.n < |col| && Beside(p).n < |col| && col' == col[Beside(p).n := Black][p.n := Red]
    ensures TreeOk(col', t, h) && ColorOf(col', t) == Black
    ensures var w := Beside(p);
      && (p.InLeft? ==> PathOk(col', InLeft(p.n, w.left, InLeft(w.n, w.right, p.up)), h + 1)
                        && ColorOf(col', w.left) == Black)
      && (p.InRight? ==> PathOk(col', InRight(w.right, p.n, InRight(w.left, w.n, p.up)), h + 1)
                         && ColorOf(col', w.right) == Black)
  {
    hide TreeOk, PathOk, Nodes, PathNodes, Sep, SepPath;
    var w := Beside(p);
    PathParts(col, p, h + 1);
    NodeParts(col, w, h + 1);
    SiblingApart(p, t);
    SiblingRepainted(col, col', {p.n, w.n}, p, t, h, h + 1, h + 1, h + 2);
    if p.InLeft? {
      PathStep(col', InLeft(w.n, w.right, p.up), h + 1);
      PathStep(col', InLeft(p.n, w.left, InLeft(w.n, w.right, p.up)), h + 1);
    } else {
      PathStep(col', InRight(w.left, w.n, p.up), h + 1);
      PathStep(col', InRight(w.right, p.n, InRight(w.left, w.n, p.up)), h + 1);
    }
  }

  /** Black sibling with black children: painted red, and the lack moves to the parent. */
  lemma BlackNephews(col: seq<Color>, col': seq<Color>, p: Path, t: Tree, h: int)
    requires TreeOk(col, t, h) && ColorOf(col, t) == Black && PathOk(col, p, h + 1)
    requires Sep(t) && SepPath(p) && Nodes(t) !! PathNodes(p)
    requires !p.Top? && Beside(p).Node? && Col(col, Beside(p).n) == Black
    requires ColorOf(col, Beside(p).left) == Black && ColorOf(col, Beside(p).right) == Black
    requires Beside(p).n < |col| && col' == col[Beside(p).n := Red]
    ensures Short(col', p.up, Joined(p, t), h + Weight(Col(col, p.n)))
  {
    hide PathOk, Nodes, PathNodes, Sep, SepPath;
    var w := Beside(p);
    PathParts(col, p, h + 1);
    NodeParts(col, w, h + 1);
    SiblingApart(p, t);
    SiblingRepainted(col, col', {w.n}, p, t, h, h, h, h + 1 + Weight(Col(col, p.n)));
    NodeOk(col', w.left, w.n, w.right, h);
  }

  /** Black sibling with its inner child alone red: both painted, and the sibling rotated. */
  lemma InnerNephewRed(col: seq<Color>, col': seq<Color>, p: Path, t: Tree, h: int)
    requires TreeOk(col, t, h) && ColorOf(col, t) == Black && PathOk(col, p, h + 1)
    requires Sep(t) && SepPath(p) && Nodes(t) !! PathNodes(p)
    requires !p.Top? && Beside(p).Node? && Col(col, Beside(p).n) == Black && Beside(p).n < |col|
    requires var w := Beside(p); var i := if p.InLeft? then w.left else w.right;
      && i.Node? && i.n < |col| && Col(col, i.n) == Red
      && ColorOf(col, if p.InLeft? then w.right else w.left) == Black
      && col' == col[i.n := Black][w.n := Red]
    ensures TreeOk(col', t, h) && ColorOf(col', t) == Black
    ensures p.InLeft? ==> PathOk(col', InLeft(p.n, RotatedRight(Beside(p)), p.up), h + 1)
    ensures p.InRight? ==> PathOk(col', InRight(RotatedLeft(Beside(p)), p.n, p.up), h + 1)
    ensures Col(col', Beside(p).n) == Red
    ensures Col(col', if p.InLeft? then Beside(p).left.n else Beside(p).right.n) == Black
  {
    hide TreeOk, PathOk, Nodes, PathNodes, Sep, SepPath, SameColors;
    var w := Beside(p);
    PathParts(col, p, h + 1);
    NodeParts(col, w, h + 1);
    SiblingApart(p, t);
    var i := if p.InLeft? then w.left else w.right;
    var o := if p.InLeft? then w.right else w.left;
    UncleApart(i);
    NodeParts(col, i, h);
    var s := {w.n, i.n};
    PaintedApart(col, col', s, Nodes(t));
    PaintedApart(col, col', s, Nodes(o));
    PaintedApart(col, col', s, Nodes(i.left));
    PaintedApart(col, col', s, Nodes(i.right));
    PaintedApart(col, col', s, PathNodes(p.up));
    TreeRepainted(col, col', t, h);
    TreeRepainted(col, col', o, h);
    TreeRepainted(col, col', i.left, h);
    TreeRepainted(col, col', i.right, h);
    PathRepainted(col, col', p.up, h + 1 + Weight(Col(col, p.n)));
    if p.InLeft? {
      NodeOk(col', i.right, w.n, o, h);
      NodeOk(col', i.left, i.n, Node(i.right, w.n, o), h);
      PathStep(col', InLeft(p.n, RotatedRight(w), p.up), h + 1);
    } else {
      NodeOk(col', o, w.n, i.left, h);
      NodeOk(col', Node(o, w.n, i.left), i.n, i.right, h);
      PathStep(col', InRight(RotatedLeft(w), p.n, p.up), h + 1);
    }
  }

  /** The parts around a black sibling whose outer child is red stay sound when these three are painted. */
  lemma OuterParts(col: seq<Color>, col': seq<Color>, p: Path, t: Tree, h: int, i: Tree, o: Tree)
    requires TreeOk(col, t, h) && PathOk(col, p, h + 1) && Sep(t) && SepPath(p) && Nodes(t) !! PathNodes(p)
    requires !p.Top? && Beside(p).Node? && Col(col, Beside(p).n) == Black && Beside(p).n < |col| && p.n < |col|
    requires var w := Beside(p); i == (if p.InLeft? then w.left else w.right) && o == if p.InLeft? then w.right else w.left
    requires o.Node? && o.n < |col| && Col(col, o.n) == Red
    requires col' == col[Beside(p).n := Col(col, p.n)][p.n := Black][o.n := Black]
    ensures h >= 0 && TreeOk(col', t, h) && TreeOk(col', i, h) && TreeOk(col', o, h + 1) && ColorOf(col', o) == Black
    ensures Col(col', p.n) == Black && Col(col', Beside(p).n) == Col(col, p.n)
    ensures PathOk(col', p.up, h + 1 + Weight(Col(col, p.n)))
    ensures Col(col, p.n) == Red ==> ColorAbove(col', p.up) == Black && !p.up.Top?
  {
    hide TreeOk, PathOk, Nodes, PathNodes, Sep, SepPath, SameColors;
    var w := Beside(p);
    PathParts(col, p, h + 1);
    NodeParts(col, w, h + 1);
    SiblingApart(p, t);
    UncleApart(o);
    NodeParts(col, o, h);
    var s := {w.n, p.n, o.n};
    PaintedApart(col, col', s, Nodes(t));
    PaintedApart(col, col', s, Nodes(i));
    PaintedApart(col, col', s, Nodes(o.left));
    PaintedApart(col, col', s, Nodes(o.right));
    PaintedApart(col, col', s, PathNodes(p.up));
    TreeRepainted(col, col', t, h);
    TreeRepainted(col, col', i, h);
    TreeRepainted(col, col', o.left, h);
    TreeRepainted(col, col', o.right, h);
    PathRepainted(col, col', p.up, h + 1 + Weight(Col(col, p.n)));
    NodeOk(col', o.left, o.n, o.right, h);
  }

  /** Black sibling with its outer child red: all three painted, the parent rotated, and nothing lacks. */
  lemma OuterNephewRed(col: seq<Color>, col': seq<Color>, p: Path, t: Tree, h: int)
    requires TreeOk(col, t, h) && ColorOf(col, t) == Black && PathOk(col, p, h + 1)
    requires Sep(t) && SepPath(p) && Nodes(t) !! PathNodes(p)
    requires !p.Top? && Beside(p).Node? && Col(col, Beside(p).n) == Black && Beside(p).n < |col| && p.n < |col|
    requires var w := Beside(p); var o := if p.InLeft? then w.right else w.left;
      && o.Node? && o.n < |col| && Col(col, o.n) == Red
      && col' == col[w.n := Col(col, p.n)][p.n := Black][o.n := Black]
    ensures p.InLeft? ==> RedBlack(col', Plug(p.up, RotatedLeft(Joined(p, t))))
    ensures p.InRight? ==> RedBlack(col', Plug(p.up, RotatedRight(Joined(p, t))))
  {
    hide TreeOk, PathOk, Nodes, PathNodes, Sep, SepPath, Plug, RedBlack;
    var w, k := Beside(p), h + 1 + Weight(Col(col, p.n));
    var i, o := if p.InLeft? then w.left else w.right, if p.InLeft? then w.right else w.left;
    OuterParts(col, col', p, t, h, i, o);
    if p.InLeft? {
      NodeOk(col', t, p.n, i, h);
      NodeOk(col', Node(t, p.n, i), w.n, o, h + 1);
      PlugRedBlack(col', p.up, RotatedLeft(Joined(p, t)), k);
    } else {
      NodeOk(col', i, p.n, t, h);
      NodeOk(col', o, w.n, Node(i, p.n, t), h + 1);
      PlugRedBlack(col', p.up, RotatedRight(Joined(p, t)), k);
    }
  }

  /** At the root, or at a red node, painting the node black makes up for the lack. */
  lemma Repaid(col: seq<Color>, p: Path, t: Tree, h: int)
    requires Short(col, p, t, h) && t.Node? && t.n < |col|
    requires Sep(t) && SepPath(p) && Nodes(t) !! PathNodes(p)
    requires p.Top? || Col(col, t.n) == Red
    ensures RedBlack(col[t.n := Black], Plug(p, t))
  {
    var col' := col[t.n := Black];
    var k := h - Weight(Col(col, t.n));
    TreeRepainted(col, col', t.left, k);
    TreeRepainted(col, col', t.right, k);
    NodeOk(col', t.left, t.n, t.right, k);
    PathRepainted(col, col', p, h + 1);
    PlugRedBlack(col', p, t, k + 1);
  }

  // ----- Taking a node out -----

  /** A tree without black nodes is at most one node. */
  lemma ZeroTree(col: seq<Color>, t: Tree)
    requires TreeOk(col, t, 0)
    ensures t.Leaf? || (Col(col, t.n) == Red && t.left.Leaf? && t.right.Leaf?)
  {
    if t.Node? {
      NodeParts(col, t, 0);
      if t.left.Node? {
        NodeParts(col, t.left, 0);
      }
      if t.right.Node? {
        NodeParts(col, t.right, 0);
      }
    }
  }

  /** Removing a node with one child at most. */
  lemma SpliceColors(col: seq<Color>, p: Path, t: Tree) returns (h: int)
    requires t.Node? && RedBlack(col, Plug(p, t)) && (t.left.Leaf? || t.right.Leaf?)
    ensures var s := if t.left.Leaf? then t.right else t.left;
      && (s.Node? ==> s.left.Leaf? && s.right.Leaf?)
      && if Col(col, t.n) == Black then Short(col, p, s, h) else RedBlack(col, Plug(p, s))
  {
    var s := if t.left.Leaf? then t.right else t.left;
    var k := RedBlackInverse(col, p, t);
    NodeParts(col, t, k);
    h := k - Weight(Col(col, t.n));
    ZeroTree(col, s);
    NearlyBlack(col, s, h);
    if Col(col, t.n) == Red {
      PlugRedBlack(col, p, s, h);
    }
  }

  /** Whatever fits one hole fits the other. */
  ghost predicate Follows(col: seq<Color>, p: Path, col': seq<Color>, p': Path) {
    && (p.Top? <==> p'.Top?) && ColorAbove(col, p) == ColorAbove(col', p')
    && forall h: int :: PathOk(col, p, h) ==> PathOk(col', p', h)
  }

  lemma {:induction false} MinPathFollows(col: seq<Color>, col': seq<Color>, p: Path, p': Path, t: Tree, h: int)
    requires t.Node? && Sep(t) && Follows(col, p, col', p')
    requires forall n :: n != MinTree(t).n ==> Col(col, n) == Col(col', n)
    requires PathOk(col, MinPath(p, t), h)
    ensures PathOk(col', MinPath(p', t), h)
    ensures ColorAbove(col', MinPath(p', t)) == ColorAbove(col, MinPath(p, t))
    ensures MinPath(p', t).Top? <==> MinPath(p, t).Top?
    decreases t
  {
    if t.left.Node? {
      var q, q' := InLeft(t.n, t.right, p), InLeft(t.n, t.right, p');
      MinRestNodes(t.left);
      assert SameColors(col, col', Nodes(t.right));
      forall k: int | PathOk(col, q, k)
        ensures PathOk(col', q', k)
      {
        TreeRepainted(col, col', t.right, k);
        assert PathOk(col, p, k + Weight(Col(col, t.n)));
      }
      MinPathFollows(col, col', q, q', t.left, h);
    }
  }

  lemma SuccessorFollows(col: seq<Color>, col': seq<Color>, p: Path, l: Tree, z: nat, y: nat)
    requires y < |col| && col' == col[y := Col(col, z)] && y !in Nodes(l) && y !in PathNodes(p)
    ensures Follows(col, InRight(l, z, p), col', InRight(l, y, p))
  {
    var q, q' := InRight(l, z, p), InRight(l, y, p);
    forall k: int | PathOk(col, q, k)
      ensures PathOk(col', q', k)
    {
      PathParts(col, q, k);
      TreeRepainted(col, col', l, k);
      PathRepainted(col, col', p, k + Weight(Col(col, z)));
      PathStep(col', q', k);
    }
  }

  /** Removing a node with two children: its successor takes its place and its colour. */
  lemma SuccessorColors(col: seq<Color>, p: Path, l: Tree, z: nat, r: Tree, y: nat) returns (h: int)
    requires r.Node? && RedBlack(col, Plug(p, Node(l, z, r))) && Sep(Node(l, z, r)) && SepPath(p)
    requires Nodes(Node(l, z, r)) !! PathNodes(p) && y == MinTree(r).n < |col|
    ensures var s, col', q := MinTree(r).right, col[y := Col(col, z)], MinPath(InRight(l, y, p), r);
      && (s.Node? ==> s.left.Leaf? && s.right.Leaf?)
      && if Col(col, y) == Black then Short(col', q, s, h) else RedBlack(col', Plug(q, s))
  {
    var P := InRight(l, z, p);
    var q0, m := MinPath(P, r), MinTree(r);
    var s, col' := m.right, col[y := Col(col, z)];
    MinPlug(P, r);
    MinRestNodes(r);
    var k := RedBlackInverse(col, q0, m);
    NodeParts(col, m, k);
    h := k - Weight(Col(col, y));
    ZeroTree(col, s);
    SuccessorFollows(col, col', p, l, z, y);
    MinPathFollows(col, col', P, InRight(l, y, p), r, k);
    MinSep(r);
    TreeRepainted(col, col', s, h);
    NearlyBlack(col', s, h);
    if Col(col, y) == Red {
      PlugRedBlack(col', MinPath(InRight(l, y, p), r), s, h);
    }
  }

  lemma {:induction false} MinSep(t: Tree)
    requires t.Node? && Sep(t)
    ensures Sep(MinTree(t))
    decreases t
  {
    if t.left.Node? {
      MinSep(t.left);
    }
  }

  // ----- Putting a subtree in the place of a node -----

  /** The hole's parent leads to `v`; `v` still has another parent. */
  predicate ChildWritten(m: Ptrs, m': Ptrs, root: nat, root': nat, p: Path, v: nat) {
    && Ok(m) && Above(p) < |m.left|
    && m'.left == (if p.InLeft? then m.left[p.n := v] else m.left)
    && m'.right == (if p.InRight? then m.right[p.n := v] else m.right)
    && m'.parent == m.parent
    && root' == if p.Top? then v else root
  }

  lemma ChildLinks(m: Ptrs, m': Ptrs, root: nat, root': nat, p: Path, u: nat, s: Tree, w: nat)
    requires Ok(m) && PathLinks(m, root, p, u) && SepPath(p) && Links(m, s, w) && Nodes(s) !! PathNodes(p) && Sep(s)
    requires ChildWritten(m, m', root, root', p, Root(s))
    ensures PathLinks(m', root', p, Root(s)) && Links(m', s, w) && Ok(m') && Elsewhere(m, m', {Above(p)})
  {
    AboveInPath(p);
    SepZero(s);
    assert Elsewhere(m, m', {Above(p)});
    ElsewhereSame(m, m', {Above(p)}, Nodes(s));
    LinksFrame(m, m', s, w);
    if !p.Top? {
      ElsewhereSame(m, m', {Above(p)}, PathNodes(p) - {p.n});
    }
    Rechild(m, m', root, root', p, u, Root(s));
  }

  lemma ParentLinks(m: Ptrs, m': Ptrs, root: nat, p: Path, s: Tree, w: nat)
    requires Ok(m) && PathLinks(m, root, p, Root(s)) && Links(m, s, w) && Nodes(s) !! PathNodes(p) && Sep(s)
    requires if s.Leaf? then m' == m else s.n < |m.left| && m' == m.(parent := m.parent[s.n := Above(p)])
    ensures PathLinks(m', root, p, Root(s)) && Links(m', s, Above(p)) && Elsewhere(m, m', {Root(s)})
  {
    assert Elsewhere(m, m', {Root(s)});
    if s.Node? {
      ElsewhereSame(m, m', {s.n}, Nodes(s) - {s.n});
      ElsewhereSame(m, m', {s.n}, PathNodes(p));
      Reparented(m, m', s, w, Above(p));
      PathFrame(m, m', root, p, s.n);
    }
  }

  /** Recomputing at the parent of a hole keeps exact what was exact away from the hole. */
  lemma ParentAugmented(g: G.Gaps, key: seq<int>, p: Path, s: Tree, lo: int, hi: int)
    requires !p.Top? && G.Placed(g, p.up, Joined(p, s)) && G.OffExact(g, key, p, lo, hi)
    ensures var g' := G.Augmented(g, key, p.up, Joined(p, s), lo, hi);
      G.OffExact(g', key, p, lo, hi) && (s.Leaf? ==> G.Exact(g', key, Plug(p, s), lo, hi))
    ensures forall n :: n !in Spine(p) ==> G.SameGapAt(g, G.Augmented(g, key, p.up, Joined(p, s), lo, hi), n)
  {
    var t := Joined(p, s);
    var g' := G.Augmented(g, key, p.up, t, lo, hi);
    G.AugmentedFrame(g, key, p.up, t, lo, hi);
    G.BelowUntouched(g, g', p.up, t, Beside(p));
    G.OffExactFrame(g, g', key, p.up, lo, hi);
    if p.InLeft? {
      G.ExactFrame(g, g', key, p.right, Key(key, p.n), Hi(key, p.up, hi));
      if p.right.Node? {
        G.LargestIsMaxGap(g, key, p.right, Key(key, p.n), Hi(key, p.up, hi));
      }
    } else {
      G.ExactFrame(g, g', key, p.left, Lo(key, p.up, lo), Key(key, p.n));
      if p.left.Node? {
        G.LargestIsMaxGap(g, key, p.left, Lo(key, p.up, lo), Key(key, p.n));
      }
    }
    if s.Leaf? {
      G.AugmentedExact(g, key, p.up, t, lo, hi);
    }
  }

  // ----- The successor in the place of a node -----

  /** `z` in the hole with its left subtree, and `y`, taken out, with what will be on its right. */
  predicate Loose(m: Ptrs, root: nat, p: Path, l: Tree, z: nat, y: nat, rest: Tree, w: nat) {
    && Ok(m) && PathLinks(m, root, p, z) && Links(m, l, z) && Links(m, Node(Leaf, y, rest), w)
    && z < |m.left| && m.left[z] == Root(l) && m.parent[z] == Above(p)
  }

  /** All the nodes involved are different. */
  predicate Distinct(p: Path, l: Tree, z: nat, y: nat, rest: Tree) {
    && Sep(Node(l, z, rest)) && SepPath(p) && Nodes(Node(l, z, rest)) !! PathNodes(p)
    && y != 0 && y != z && y !in Nodes(l) && y !in Nodes(rest) && y !in PathNodes(p)
  }

  /** `y` gets the right subtree of `z`. */
  lemma TakeRight(m: Ptrs, m': Ptrs, root: nat, p: Path, l: Tree, z: nat, y: nat, rest: Tree)
    requires Ok(m) && Links(m, Node(l, z, rest), Above(p)) && PathLinks(m, root, p, z)
    requires Distinct(p, l, z, y, rest) && rest.Node? && y < |m.left| && m.left[y] == 0
    requires rest.n < |m.left| && m' == m.(right := m.right[y := rest.n], parent := m.parent[rest.n := y])
    ensures Loose(m', root, p, l, z, y, rest, m'.parent[y])
  {
    var s := {y, rest.n};
    assert Elsewhere(m, m', s);
    ElsewhereSame(m, m', s, Nodes(l));
    ElsewhereSame(m, m', s, PathNodes(p));
    ElsewhereSame(m, m', s, Nodes(rest) - {rest.n});
    LinksFrame(m, m', l, z);
    PathFrame(m, m', root, p, z);
    Reparented(m, m', rest, z, y);
  }

  /** `y`, now in the hole, gets the left subtree of `z`. */
  lemma TakeLeft(m: Ptrs, m': Ptrs, root: nat, p: Path, l: Tree, z: nat, y: nat, rest: Tree)
    requires Ok(m) && Links(m, Node(Leaf, y, rest), Above(p)) && PathLinks(m, root, p, y) && Links(m, l, z)
    requires Distinct(p, l, z, y, rest) && l.Node? && y < |m.left|
    requires l.n < |m.left| && m' == m.(left := m.left[y := l.n], parent := m.parent[l.n := y])
    ensures Links(m', Node(l, y, rest), Above(p)) && PathLinks(m', root, p, y)
  {
    var s := {y, l.n};
    assert Elsewhere(m, m', s);
    ElsewhereSame(m, m', s, Nodes(rest));
    ElsewhereSame(m, m', s, PathNodes(p));
    ElsewhereSame(m, m', s, Nodes(l) - {l.n});
    LinksFrame(m, m', rest, y);
    PathFrame(m, m', root, p, y);
    Reparented(m, m', l, z, y);
  }

  lemma SuccessorApart(p: Path, l: Tree, z: nat, r: Tree)
    requires Sep(Node(l, z, r)) && SepPath(p) && Nodes(Node(l, z, r)) !! PathNodes(p) && r.Node?
    ensures Distinct(p, l, z, MinTree(r).n, MinRest(r)) && MinTree(r).n in Nodes(r)
    ensures Nodes(Plug(p, Node(l, MinTree(r).n, MinRest(r)))) == Nodes(Plug(p, Node(l, z, r))) - {z}
  {
    MinRestNodes(r);
    SepZero(r);
    SepPlug(p, Node(l, z, r));
    SepPlug(p, Node(l, MinTree(r).n, MinRest(r)));
  }

  lemma SuccessorOrdered(key: seq<int>, l: Tree, z: nat, r: Tree, lo: int, hi: int)
    requires Ordered(key, Node(l, z, r), lo, hi) && r.Node?
    ensures Ordered(key, Node(l, MinTree(r).n, MinRest(r)), lo, hi)
    ensures Ordered(key, Node(Leaf, MinTree(r).n, MinRest(r)), lo, hi)
  {
    MinRestOrdered(key, r, Key(key, z), hi);
    OrderedWider(key, l, lo, Key(key, z), lo, Key(key, MinTree(r).n));
  }

  /** What the successor of `z` hangs below. */
  lemma SuccessorAbove(p: Path, l: Tree, z: nat, r: Tree)
    requires Sep(Node(l, z, r)) && r.Node?
    ensures var q, q' := MinPath(InRight(l, z, p), r), MinPath(InRight(l, MinTree(r).n, p), r);
      && (r.left.Leaf? ==> Above(q) == z && Above(q') == MinTree(r).n)
      && (r.left.Node? ==> Above(q) == Above(q') && Above(q) != z)
      && !q.Top? && !q'.Top?
  {
    hide Nodes;
    assert z !in Nodes(r);
    if r.left.Node? {
      MinAbove(InRight(l, z, p), InRight(l, MinTree(r).n, p), r);
      MinAbove(InRight(l, MinTree(r).n, p), InRight(l, z, p), r);
    }
  }

  // ----- A node for another -----

  /** The pointers after `v` has got those of `u`, its children's and its parent's now leading to it. */
  predicate HandedOver(m: Ptrs, m': Ptrs, root: nat, root': nat, p: Path, l: Tree, r: Tree, v: nat)
  {
    && Ok(m) && v < |m.left| && Above(p) < |m.left| && Root(l) < |m.left| && Root(r) < |m.left|
    && m'.left == (if p.InLeft? then m.left[v := Root(l)][p.n := v] else m.left[v := Root(l)])
    && m'.right == (if p.InRight? then m.right[v := Root(r)][p.n := v] else m.right[v := Root(r)])
    && (var up := m.parent[v := Above(p)];
        var ul := if l.Node? then up[l.n := v] else up;
        m'.parent == if r.Node? then ul[r.n := v] else ul)
    && root' == if p.Top? then v else root
  }

  lemma NodeSets(l: Tree, u: nat, r: Tree)
    requires Sep(Node(l, u, r))
    ensures Sep(l) && Sep(r) && Nodes(Node(l, u, r)) == Nodes(l) + {u} + Nodes(r) && Nodes(l) !! Nodes(r)
    ensures u != 0 && u !in Nodes(l) && u !in Nodes(r) && 0 !in Nodes(l) && 0 !in Nodes(r)
    ensures (if l.Node? then l.n in Nodes(l) else Nodes(l) == {}) && (if r.Node? then r.n in Nodes(r) else Nodes(r) == {})
  {
    SepZero(l);
    SepZero(r);
  }

  /** The nodes whose pointers are written. */
  ghost function Written(p: Path, l: Tree, r: Tree, v: nat): set<nat> {
    {v, Above(p), Root(l), Root(r)}
  }

  lemma HandedOverApart(p: Path, l: Tree, u: nat, r: Tree, v: nat)
    requires Sep(Node(l, u, r)) && SepPath(p) && Nodes(Node(l, u, r)) !! PathNodes(p)
    requires v != 0 && v !in Nodes(Node(l, u, r)) && v !in PathNodes(p)
    ensures l.Node? ==> Written(p, l, r, v) !! Nodes(l) - {l.n}
    ensures r.Node? ==> Written(p, l, r, v) !! Nodes(r) - {r.n}
    ensures !p.Top? ==> Written(p, l, r, v) !! PathNodes(p) - {p.n}
  {
    hide Nodes, PathNodes, Sep, SepPath;
    AboveInPath(p);
    NodeSets(l, u, r);
  }

  lemma LinksParts(m: Ptrs, l: Tree, u: nat, r: Tree, up: nat)
    requires Links(m, Node(l, u, r), up)
    ensures Links(m, l, u) && Links(m, r, u)
    ensures l.Node? ==> Has(m, l.n, Root(l.left), Root(l.right), u)
    ensures r.Node? ==> Has(m, r.n, Root(r.left), Root(r.right), u)
  {
    assert Links(m, l, u) && Links(m, r, u);
  }

  lemma HoleLinks(m: Ptrs, root: nat, p: Path, u: nat)
    requires PathLinks(m, root, p, u)
    ensures p.InLeft? ==> Has(m, p.n, u, Root(p.right), Above(p.up))
    ensures p.InRight? ==> Has(m, p.n, Root(p.left), u, Above(p.up))
  {
  }

  lemma HandedOverElsewhere(m: Ptrs, m': Ptrs, root: nat, root': nat, p: Path, l: Tree, r: Tree, v: nat)
    requires HandedOver(m, m', root, root', p, l, r, v)
    ensures Elsewhere(m, m', Written(p, l, r, v))
  {
  }

  /** The node above a hole is no node away from it. */
  lemma AboveApart(p: Path, n: nat)
    requires SepPath(p) && n !in PathNodes(p) && n != 0
    ensures Above(p) != n && (p.Top? <==> Above(p) == 0)
  {
    hide PathNodes, SepPath;
    AboveInPath(p);
  }

  lemma RootsDiffer(l: Tree, u: nat, r: Tree, v: nat)
    requires Sep(Node(l, u, r)) && v != 0 && v !in Nodes(Node(l, u, r))
    ensures u != v && v != Root(l) && v != Root(r) && (l.Node? <==> Root(l) != 0) && (r.Node? <==> Root(r) != 0)
    ensures Root(l) != 0 ==> Root(l) != Root(r) && Root(l) in Nodes(Node(l, u, r))
    ensures Root(r) != 0 ==> Root(r) in Nodes(Node(l, u, r))
  {
  }

  /** The nodes concerned are different from each other. */
  lemma HandedOverDistinct(p: Path, l: Tree, u: nat, r: Tree, v: nat)
    requires Sep(Node(l, u, r)) && SepPath(p) && Nodes(Node(l, u, r)) !! PathNodes(p)
    requires v != 0 && v !in Nodes(Node(l, u, r)) && v !in PathNodes(p)
    ensures u != v && v != Above(p) && v != Root(l) && v != Root(r) && (p.Top? <==> Above(p) == 0)
    ensures (l.Node? <==> Root(l) != 0) && (r.Node? <==> Root(r) != 0)
    ensures Root(l) != 0 ==> Root(l) != Above(p) && Root(l) != Root(r)
    ensures Root(r) != 0 ==> Root(r) != Above(p)
  {
    hide Nodes, PathNodes, Sep, SepPath;
    RootsDiffer(l, u, r, v);
    AboveApart(p, v);
    if Root(l) != 0 {
      AboveApart(p, Root(l));
    }
    if Root(r) != 0 {
      AboveApart(p, Root(r));
    }
  }

  /** Where what was written can be read again. */
  lemma HandedOverFields(m: Ptrs, m': Ptrs, root: nat, root': nat, p: Path, l: Tree, u: nat, r: Tree, v: nat)
    requires HandedOver(m, m', root, root', p, l, r, v)
    requires v != Above(p) && v != Root(l) && v != Root(r) && (p.Top? <==> Above(p) == 0)
    requires l.Node? ==> l.n != Above(p) && l.n != Root(r)
    requires r.Node? ==> r.n != Above(p)
    requires p.InLeft? ==> Has(m, p.n, u, Root(p.right), Above(p.up))
    requires p.InRight? ==> Has(m, p.n, Root(p.left), u, Above(p.up))
    ensures Has(m', v, Root(l), Root(r), Above(p)) && Rerooted(m, m', root, root', p, u, v)
    ensures l.Node? ==> m'.left[l.n] == m.left[l.n] && m'.right[l.n] == m.right[l.n] && m'.parent[l.n] == v
    ensures r.Node? ==> m'.left[r.n] == m.left[r.n] && m'.right[r.n] == m.right[r.n] && m'.parent[r.n] == v
    ensures Ok(m') && |m'.left| == |m.left|
  {
  }

  lemma KidHas(m: Ptrs, m': Ptrs, t: Tree, u: nat, v: nat)
    requires t.Node? && Has(m, t.n, Root(t.left), Root(t.right), u) && Ok(m') && |m'.left| == |m.left|
    requires m'.left[t.n] == m.left[t.n] && m'.right[t.n] == m.right[t.n] && m'.parent[t.n] == v
    ensures Has(m', t.n, Root(t.left), Root(t.right), v)
  {
  }

  lemma HandedOverHas(m: Ptrs, m': Ptrs, root: nat, root': nat, p: Path, l: Tree, u: nat, r: Tree, v: nat)
    requires Ok(m) && Links(m, Node(l, u, r), Above(p)) && PathLinks(m, root, p, u)
    requires Sep(Node(l, u, r)) && SepPath(p) && Nodes(Node(l, u, r)) !! PathNodes(p)
    requires v != 0 && v !in Nodes(Node(l, u, r)) && v !in PathNodes(p) && HandedOver(m, m', root, root', p, l, r, v)
    ensures Has(m', v, Root(l), Root(r), Above(p)) && Rerooted(m, m', root, root', p, u, v)
    ensures l.Node? ==> Has(m', l.n, Root(l.left), Root(l.right), v)
    ensures r.Node? ==> Has(m', r.n, Root(r.left), Root(r.right), v)
  {
    hide Nodes, PathNodes, Sep, SepPath, Links, PathLinks, HandedOver;
    HandedOverDistinct(p, l, u, r, v);
    LinksParts(m, l, u, r, Above(p));
    HoleLinks(m, root, p, u);
    HandedOverFields(m, m', root, root', p, l, u, r, v);
    if l.Node? {
      KidHas(m, m', l, u, v);
    }
    if r.Node? {
      KidHas(m, m', r, u, v);
    }
  }

  lemma HandedOverLinks(m: Ptrs, m': Ptrs, root: nat, root': nat, p: Path, l: Tree, u: nat, r: Tree, v: nat)
    requires Ok(m) && Links(m, Node(l, u, r), Above(p)) && PathLinks(m, root, p, u)
    requires Sep(Node(l, u, r)) && SepPath(p) && Nodes(Node(l, u, r)) !! PathNodes(p)
    requires v != 0 && v !in Nodes(Node(l, u, r)) && v !in PathNodes(p) && HandedOver(m, m', root, root', p, l, r, v)
    ensures Links(m', Node(l, v, r), Above(p)) && PathLinks(m', root', p, v)
  {
    HandedOverHas(m, m', root, root', p, l, u, r, v);
    HandedOverElsewhere(m, m', root, root', p, l, r, v);
    HandedOverApart(p, l, u, r, v);
    var s := Written(p, l, r, v);
    SepParts(Node(l, u, r));
    LinksParts(m, l, u, r, Above(p));
    hide Links, PathLinks, Sep, SepPath, Nodes, PathNodes, HandedOver, Written;
    if l.Node? {
      ElsewhereSame(m, m', s, Nodes(l) - {l.n});
    }
    Reparented(m, m', l, u, v);
    if r.Node? {
      ElsewhereSame(m, m', s, Nodes(r) - {r.n});
    }
    Reparented(m, m', r, u, v);
    if !p.Top? {
      ElsewhereSame(m, m', s, PathNodes(p) - {p.n});
    }
    Rechild(m, m', root, root', p, u, v);
    assert Links(m', Node(l, v, r), Above(p)) by { LinksNode(m', l, v, r, Above(p)); }
  }

  lemma LinksNode(m: Ptrs, l: Tree, n: nat, r: Tree, up: nat)
    requires Has(m, n, Root(l), Root(r), up) && Links(m, l, n) && Links(m, r, n)
    ensures Links(m, Node(l, n, r), up)
  {
  }
}
