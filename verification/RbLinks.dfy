/** Child and parent pointers that spell out a tree. */
module RbLinks {
  import opened RbShape

  /** The pointer fields of all nodes; node 0 is the null pointer. */
  datatype Ptrs = Ptrs(left: seq<nat>, right: seq<nat>, parent: seq<nat>)

  predicate Ok(m: Ptrs) {
    |m.left| == |m.right| == |m.parent|
  }

  predicate Has(m: Ptrs, n: nat, l: nat, r: nat, p: nat) {
    Ok(m) && n < |m.left| && m.left[n] == l && m.right[n] == r && m.parent[n] == p
  }

  predicate Links(m: Ptrs, t: Tree, up: nat) {
    match t
    case Leaf => true
    case Node(l, n, r) => Has(m, n, Root(l), Root(r), up) && Links(m, l, n) && Links(m, r, n)
  }

  /** The nodes around a hole in which `child` is the root. */
  predicate PathLinks(m: Ptrs, root: nat, p: Path, child: nat) {
    match p
    case Top => root == child
    case InLeft(n, r, up) => Has(m, n, child, Root(r), Above(up)) && Links(m, r, n) && PathLinks(m, root, up, n)
    case InRight(l, n, up) => Has(m, n, Root(l), child, Above(up)) && Links(m, l, n) && PathLinks(m, root, up, n)
  }

  lemma {:induction false} LinksPlug(m: Ptrs, root: nat, p: Path, t: Tree)
    ensures Links(m, Plug(p, t), 0) && root == Root(Plug(p, t))
       <==> Links(m, t, Above(p)) && PathLinks(m, root, p, Root(t))
    decreases p
  {
    match p
    case Top =>
    case InLeft(n, r, up) => LinksPlug(m, root, up, Node(t, n, r));
    case InRight(l, n, up) => LinksPlug(m, root, up, Node(l, n, t));
  }

  predicate SameAt(m: Ptrs, m': Ptrs, n: nat)
    requires Ok(m)
  {
    n < |m.left| ==> Has(m', n, m.left[n], m.right[n], m.parent[n])
  }

  /** The pointers of the nodes in `s` are the same. */
  predicate Same(m: Ptrs, m': Ptrs, s: set<nat>)
    requires Ok(m)
  {
    forall n :: n in s ==> SameAt(m, m', n)
  }

  lemma {:induction false} LinksFrame(m: Ptrs, m': Ptrs, t: Tree, up: nat)
    requires Ok(m) && Links(m, t, up) && Same(m, m', Nodes(t))
    ensures Links(m', t, up)
    decreases t
  {
    if t.Node? {
      LinksFrame(m, m', t.left, t.n);
      LinksFrame(m, m', t.right, t.n);
      assert SameAt(m, m', t.n);
    }
  }

  /** A subtree whose root alone has changed its parent. */
  lemma Reparented(m: Ptrs, m': Ptrs, t: Tree, up: nat, up': nat)
    requires Ok(m) && Links(m, t, up) && Sep(t)
    requires t.Node? ==> Same(m, m', Nodes(t) - {t.n}) && Has(m', t.n, Root(t.left), Root(t.right), up')
    ensures Links(m', t, up')
  {
    if t.Node? {
      LinksFrame(m, m', t.left, t.n);
      LinksFrame(m, m', t.right, t.n);
    }
  }

  lemma {:induction false} PathFrame(m: Ptrs, m': Ptrs, root: nat, p: Path, child: nat)
    requires Ok(m) && PathLinks(m, root, p, child) && Same(m, m', PathNodes(p))
    ensures PathLinks(m', root, p, child)
    decreases p
  {
    if !p.Top? {
      LinksFrame(m, m', if p.InLeft? then p.right else p.left, p.n);
      PathFrame(m, m', root, p.up, p.n);
      assert SameAt(m, m', p.n);
    }
  }

  /** A hole that has got another child. */
  lemma Rechild(m: Ptrs, m': Ptrs, root: nat, root': nat, p: Path, child: nat, child': nat)
    requires Ok(m) && PathLinks(m, root, p, child) && SepPath(p)
    requires if p.Top? then root' == child' else
             root' == root && Same(m, m', PathNodes(p) - {p.n})
             && Has(m', p.n, if p.InLeft? then child' else Root(p.left), if p.InLeft? then Root(p.right) else child', Above(p.up))
    ensures PathLinks(m', root', p, child')
  {
    if !p.Top? {
      LinksFrame(m, m', if p.InLeft? then p.right else p.left, p.n);
      PathFrame(m, m', root, p.up, p.n);
    }
  }
}
