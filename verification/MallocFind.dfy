/** The search of the allocator's large bins: a red-black tree of sizes, walked by malloc_find. */
module MallocFind {
  import opened RbShape
  import opened RbTree

  /** Equal sizes and sizes that only fit from here down stop the walk; a left child that fits continues it. */
  function Compare(tree: RbTree, n: nat, want: int): int
    requires tree.Sized() && n < |tree.left| && tree.left[n] < |tree.left|
    reads tree
  {
    if tree.key[n] == want then 0
    else if tree.key[n] > want then
      if tree.left[n] != 0 && tree.key[tree.left[n]] >= want then 1 else 0
    else -1
  }

  lemma AllSmaller(key: seq<int>, s: Tree, lo: int, hi: int, want: int)
    requires s.Node? && Ordered(key, s, lo, hi) && Key(key, s.n) < want
    ensures forall m :: m in Nodes(s.left) ==> Key(key, m) < want
  {
    OrderedBounds(key, s.left, lo, Key(key, s.n));
  }

  /** Finds a node of at least the wanted size exactly if the tree has one. */
  method FindFit(tree: RbTree, want: int, ghost t: Tree) returns (n: nat)
    requires tree.Sized() && tree.At(Top, t)
    ensures n != 0 ==> n in Nodes(t) && Key(tree.key, n) >= want
    ensures n != 0 && Key(tree.key, n) != want ==> n < |tree.left| && (tree.left[n] == 0 || Key(tree.key, tree.left[n]) < want)
    ensures n == 0 ==> forall m :: m in Nodes(t) ==> Key(tree.key, m) < want
  {
    n := tree.root;
    ghost var p, s := Top, t;
    tree.WholeTree(t);
    while n != 0
      invariant tree.At(p, s) && Plug(p, s) == t && n == Root(s) && (n == 0 <==> s.Leaf?)
      invariant (s.Node? && Key(tree.key, s.n) >= want) || forall m :: m in PathNodes(p) ==> Key(tree.key, m) < want
      decreases s
    {
      tree.Children(p, s);
      tree.AtPointers(p, s);
      tree.AtOrder(p, s);
      var c := Compare(tree, n, want);
      if c == 0 {
        SepPlug(p, s);
        return;
      }
      tree.AtLeft(p, s);
      tree.AtRight(p, s);
      if c > 0 {
        n := tree.left[n];
        p, s := InLeft(s.n, s.right, p), s.left;
      } else {
        AllSmaller(tree.key, s, Lo(tree.key, p, tree.low), Hi(tree.key, p, tree.high), want);
        n := tree.right[n];
        p, s := InRight(s.left, s.n, p), s.right;
      }
    }
    SepPlug(p, s);
  }
}
