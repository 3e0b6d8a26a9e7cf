/** The index of free chunks: small bins, large bins, rings of chunks of one size, and the two bitmaps. */
module Bins {
  import opened Rings
  import opened SizeClass
  import opened RbShape
  import opened RbTree
  import MallocFind

  const SMALL_MAX: nat := 30   // the largest size in a small bin, in words
  const BINS: nat := 32

  /** The bin of a large size. */
  function LargeBin(size: nat): nat {
    LargeIndex(8 * size)
  }

  // ----- Rings by size -----

  /** Each size has a ring, which is not empty. */
  predicate Linked(next: seq<nat>, prev: seq<nat>, rings: map<nat, seq<nat>>) {
    forall s :: s in rings ==> rings[s] != [] && Ring(next, prev, rings[s])
  }

  /** A ring has chunks of its size only. */
  predicate Sorted(rings: map<nat, seq<nat>>, free: map<nat, nat>) {
    forall s, i :: s in rings && 0 <= i < |rings[s]| ==> rings[s][i] in free && free[rings[s][i]] == s
  }

  /** Every free chunk is in the ring of its size. */
  predicate Complete(rings: map<nat, seq<nat>>, free: map<nat, nat>) {
    forall a :: a in free ==> free[a] in rings && a in rings[free[a]]
  }

  predicate RingsOk(next: seq<nat>, prev: seq<nat>, rings: map<nat, seq<nat>>, free: map<nat, nat>) {
    Linked(next, prev, rings) && Sorted(rings, free) && Complete(rings, free)
  }

  function RingOf(rings: map<nat, seq<nat>>, s: nat): seq<nat> {
    if s in rings then rings[s] else []
  }

  function Grown(rings: map<nat, seq<nat>>, s: nat, a: nat): map<nat, seq<nat>> {
    rings[s := RingOf(rings, s) + [a]]
  }

  function Shrunk(rings: map<nat, seq<nat>>, s: nat, k: nat): map<nat, seq<nat>>
    requires s in rings && k < |rings[s]|
  {
    if |rings[s]| == 1 then rings - {s} else rings[s := Without(rings[s], k)]
  }

  /** The ring of a size is without one of its chunks, and gone if that was the only one. */
  ghost predicate LeavesRing(rings: map<nat, seq<nat>>, rings': map<nat, seq<nat>>, s: nat, a: nat) {
    && s in rings
    && exists k: nat :: k < |rings[s]| && rings[s][k] == a
         && rings' == if |rings[s]| == 1 then rings - {s} else rings[s := rings[s][..k] + rings[s][k + 1..]]
  }

  /** Only the ring of one size is another. */
  ghost predicate SameBut(rings: map<nat, seq<nat>>, rings': map<nat, seq<nat>>, s: nat) {
    forall t :: t != s ==> (t in rings <==> t in rings') && RingOf(rings, t) == RingOf(rings', t)
  }

  lemma ChunkInRing(rings: map<nat, seq<nat>>, free: map<nat, nat>, a: nat)
    requires Sorted(rings, free) && a !in free
    ensures forall s, i :: s in rings && 0 <= i < |rings[s]| ==> rings[s][i] != a
  {
  }

  /** The chunks of another ring are other chunks. */
  lemma RingsApart(rings: map<nat, seq<nat>>, free: map<nat, nat>, s: nat, t: nat)
    requires Sorted(rings, free) && s in rings && t in rings && s != t
    ensures forall i :: 0 <= i < |rings[t]| ==> rings[t][i] !in rings[s]
  {
    forall i | 0 <= i < |rings[t]|
      ensures rings[t][i] !in rings[s]
    {
      assert free[rings[t][i]] == t;
    }
  }

  lemma RingsLinked(next: seq<nat>, prev: seq<nat>, next': seq<nat>, prev': seq<nat>, rings: map<nat, seq<nat>>,
                    rings': map<nat, seq<nat>>, s: nat, r: seq<nat>)
    requires Linked(next, prev, rings) && |next| == |prev| && SameBut(rings, rings', s) && SameLinks(next, prev, next', prev', r)
    requires s in rings' ==> rings'[s] != [] && Ring(next', prev', rings'[s])
    requires forall t, i :: t in rings && t != s && 0 <= i < |rings[t]| ==> rings[t][i] !in r
    ensures Linked(next', prev', rings')
  {
    hide Ring, SameLinks;
    forall t | t in rings'
      ensures rings'[t] != [] && Ring(next', prev', rings'[t])
    {
      if t != s {
        assert RingOf(rings, t) == RingOf(rings', t);
        RingFrame(next, prev, next', prev', r, rings[t]);
      }
    }
  }

  lemma GrownSorted(rings: map<nat, seq<nat>>, free: map<nat, nat>, a: nat, s: nat)
    requires Sorted(rings, free) && a !in free
    ensures Sorted(Grown(rings, s, a), free[a := s]) && SameBut(rings, Grown(rings, s, a), s)
    ensures forall t, i :: t in rings && t != s && 0 <= i < |rings[t]| ==> rings[t][i] !in RingOf(rings, s) + [a]
  {
    forall t, i | t in rings && t != s && 0 <= i < |rings[t]|
      ensures rings[t][i] !in RingOf(rings, s) + [a]
    {
      assert free[rings[t][i]] == t;
    }
    var rings' := Grown(rings, s, a);
    var free' := free[a := s];
    forall t, i | t in rings' && 0 <= i < |rings'[t]|
      ensures rings'[t][i] in free' && free'[rings'[t][i]] == t
    {
      if t != s || i < |rings'[t]| - 1 {
        assert rings'[t][i] == rings[t][i];
      }
    }
  }

  lemma GrownComplete(rings: map<nat, seq<nat>>, free: map<nat, nat>, a: nat, s: nat)
    requires Complete(rings, free) && a !in free
    ensures Complete(Grown(rings, s, a), free[a := s])
  {
    var rings' := Grown(rings, s, a);
    var free' := free[a := s];
    forall b | b in free'
      ensures free'[b] in rings' && b in rings'[free'[b]]
    {
      if b != a {
        assert b in rings[free[b]];
      } else {
        assert rings'[s][|rings'[s]| - 1] == a;
      }
    }
  }

  /** A chunk more at the end of the ring of its size. */
  lemma RingsGrow(next: seq<nat>, prev: seq<nat>, next': seq<nat>, prev': seq<nat>, rings: map<nat, seq<nat>>,
                  free: map<nat, nat>, a: nat, s: nat)
    requires RingsOk(next, prev, rings, free) && a !in free && |next| == |prev|
    requires var r := RingOf(rings, s) + [a]; Ring(next', prev', r) && SameLinks(next, prev, next', prev', r)
    ensures RingsOk(next', prev', Grown(rings, s, a), free[a := s])
  {
    hide Linked, Sorted, Complete, Ring, SameLinks;
    GrownSorted(rings, free, a, s);
    GrownComplete(rings, free, a, s);
    RingsLinked(next, prev, next', prev', rings, Grown(rings, s, a), s, RingOf(rings, s) + [a]);
  }

  lemma ShrunkSorted(rings: map<nat, seq<nat>>, free: map<nat, nat>, s: nat, k: nat)
    requires Sorted(rings, free) && s in rings && k < |rings[s]| && Distinct(rings[s])
    ensures Sorted(Shrunk(rings, s, k), free - {rings[s][k]}) && SameBut(rings, Shrunk(rings, s, k), s)
    ensures forall t, i :: t in rings && t != s && 0 <= i < |rings[t]| ==> rings[t][i] !in rings[s]
  {
    hide Without;
    WithoutAt(rings[s], k);
    var rings', a := Shrunk(rings, s, k), rings[s][k];
    forall t, i | t in rings && t != s && 0 <= i < |rings[t]|
      ensures rings[t][i] !in rings[s]
    {
      RingsApart(rings, free, s, t);
    }
    forall t, i | t in rings' && 0 <= i < |rings'[t]|
      ensures rings'[t][i] in free - {a} && free[rings'[t][i]] == t
    {
      if t == s {
        var i0 := Skip(i, k);
        assert rings'[t][i] == rings[s][i0] && rings[s][i0] in free;
      } else {
        assert free[rings[t][i]] == t;
      }
    }
  }

  lemma ShrunkComplete(rings: map<nat, seq<nat>>, free: map<nat, nat>, s: nat, k: nat)
    requires Complete(rings, free) && s in rings && k < |rings[s]|
    ensures Complete(Shrunk(rings, s, k), free - {rings[s][k]})
  {
    hide Without;
    WithoutAt(rings[s], k);
    var rings', free' := Shrunk(rings, s, k), free - {rings[s][k]};
    forall b | b in free'
      ensures free'[b] in rings' && b in rings'[free'[b]]
    {
      var i :| 0 <= i < |rings[free[b]]| && rings[free[b]][i] == b;
      if free[b] == s {
        assert Without(rings[s], k)[if i < k then i else i - 1] == b;
      }
    }
  }

  /** A chunk less in its ring. */
  lemma RingsShrink(next: seq<nat>, prev: seq<nat>, next': seq<nat>, prev': seq<nat>, rings: map<nat, seq<nat>>,
                    free: map<nat, nat>, s: nat, k: nat)
    requires RingsOk(next, prev, rings, free) && |next| == |prev| && s in rings && k < |rings[s]| && Distinct(rings[s])
    requires Ring(next', prev', Without(rings[s], k)) && SameLinks(next, prev, next', prev', rings[s])
    ensures RingsOk(next', prev', Shrunk(rings, s, k), free - {rings[s][k]})
  {
    hide Linked, Sorted, Complete, Ring, SameLinks, Without, Distinct;
    WithoutAt(rings[s], k);
    ShrunkSorted(rings, free, s, k);
    ShrunkComplete(rings, free, s, k);
    RingsLinked(next, prev, next', prev', rings, Shrunk(rings, s, k), s, rings[s]);
  }

  lemma RingParts(next: seq<nat>, prev: seq<nat>, rings: map<nat, seq<nat>>, free: map<nat, nat>, a: nat, s: nat)
    requires RingsOk(next, prev, rings, free) && |next| == |prev|
    ensures Ring(next, prev, RingOf(rings, s)) && (s in rings ==> rings[s] != [] && rings[s][0] != 0)
    ensures a !in free ==> a !in RingOf(rings, s)
  {
  }

  /** Where a chunk is in its ring. */
  lemma RingPlace(next: seq<nat>, prev: seq<nat>, rings: map<nat, seq<nat>>, free: map<nat, nat>, a: nat) returns (k: nat)
    requires RingsOk(next, prev, rings, free) && |next| == |prev| && a in free
    ensures free[a] in rings && var r := rings[free[a]];
      && k < |r| && r[k] == a && Ring(next, prev, r) && Distinct(r)
      && (forall i :: 0 <= i < |r| ==> 0 < r[i] < |next|) && next[a] == r[Succ(k, |r|)]
      && (forall t, i :: t in rings && t != free[a] && 0 <= i < |rings[t]| ==> rings[t][i] !in r)
  {
    var r := rings[free[a]];
    k :| 0 <= k < |r| && r[k] == a;
    forall t, i | t in rings && t != free[a] && 0 <= i < |rings[t]|
      ensures rings[t][i] !in r
    {
      RingsApart(rings, free, free[a], t);
    }
  }

  lemma WithoutHead(s: seq<nat>, k: nat)
    requires k < |s|
    ensures |s| > 1 ==> Without(s, k)[0] == s[if k == 0 then 1 else 0] && Succ(k, |s|) == (if k + 1 < |s| then k + 1 else 0)
  {
  }

  // ----- Small bins -----

  predicate SmallOk(sbins: seq<nat>, sbinmap: seq<bool>, rings: map<nat, seq<nat>>) {
    && |sbins| == |sbinmap| == BINS
    && forall i :: 0 <= i < BINS ==>
      && sbins[i] == (if i <= SMALL_MAX then Head(RingOf(rings, i)) else 0)
      && (sbinmap[i] <==> sbins[i] != 0)
  }

  lemma SmallGrows(sbins: seq<nat>, sbinmap: seq<bool>, rings: map<nat, seq<nat>>, s: nat, a: nat)
    requires SmallOk(sbins, sbinmap, rings) && a != 0
    requires s in rings ==> rings[s] != [] && rings[s][0] != 0
    ensures s <= SMALL_MAX ==>
      SmallOk(sbins[s := Head(RingOf(rings, s) + [a])], sbinmap[s := true], Grown(rings, s, a))
    ensures s > SMALL_MAX ==> SmallOk(sbins, sbinmap, Grown(rings, s, a))
  {
  }

  lemma SmallShrinks(sbins: seq<nat>, sbinmap: seq<bool>, rings: map<nat, seq<nat>>, s: nat, k: nat, head: nat)
    requires SmallOk(sbins, sbinmap, rings) && s in rings && k < |rings[s]|
    requires forall i :: 0 <= i < |rings[s]| ==> rings[s][i] != 0
    requires head == if |rings[s]| == 1 then 0 else Without(rings[s], k)[0]
    ensures s <= SMALL_MAX ==>
      SmallOk(sbins[s := head], if head == 0 then sbinmap[s := false] else sbinmap, Shrunk(rings, s, k))
    ensures s > SMALL_MAX ==> SmallOk(sbins, sbinmap, Shrunk(rings, s, k))
  {
  }

  lemma SmallParts(sbins: seq<nat>, sbinmap: seq<bool>, rings: map<nat, seq<nat>>, s: nat)
    requires SmallOk(sbins, sbinmap, rings)
    ensures |sbins| == |sbinmap| == BINS && (s <= SMALL_MAX ==> sbins[s] == Head(RingOf(rings, s)))
  {
  }

  // ----- Which chunks are nodes of a tree -----

  predicate LooseOk(loose: seq<bool>, rings: map<nat, seq<nat>>) {
    forall s, j :: s in rings && s > SMALL_MAX && 0 <= j < |rings[s]| && rings[s][j] < |loose| ==>
      (loose[rings[s][j]] <==> j > 0)
  }

  lemma LooseGrows(loose: seq<bool>, rings: map<nat, seq<nat>>, s: nat, a: nat)
    requires LooseOk(loose, rings) && a < |loose| && (s in rings ==> rings[s] != [])
    requires forall t, i :: t in rings && 0 <= i < |rings[t]| ==> rings[t][i] != a
    ensures s <= SMALL_MAX ==> LooseOk(loose, Grown(rings, s, a))
    ensures s > SMALL_MAX ==> LooseOk(loose[a := s in rings], Grown(rings, s, a))
  {
  }

  lemma LooseShrinks(loose: seq<bool>, rings: map<nat, seq<nat>>, s: nat, k: nat, next: nat)
    requires LooseOk(loose, rings) && s in rings && k < |rings[s]| && next < |loose| && Distinct(rings[s])
    requires forall t, i :: t in rings && t != s && 0 <= i < |rings[t]| ==> rings[t][i] !in rings[s]
    requires |rings[s]| > 1 ==> next == rings[s][Succ(k, |rings[s]|)]
    ensures s > SMALL_MAX && rings[s][k] < |loose| ==> (loose[rings[s][k]] <==> k > 0)
    ensures s <= SMALL_MAX || |rings[s]| == 1 || k > 0 ==> LooseOk(loose, Shrunk(rings, s, k))
    ensures s > SMALL_MAX && |rings[s]| > 1 && k == 0 ==> LooseOk(loose[next := false], Shrunk(rings, s, k))
  {
    var r := rings[s];
    var loose' := if s <= SMALL_MAX || |r| == 1 || k > 0 then loose else loose[next := false];
    var rings' := Shrunk(rings, s, k);
    forall t, j | t in rings' && t > SMALL_MAX && 0 <= j < |rings'[t]| && rings'[t][j] < |loose'|
      ensures loose'[rings'[t][j]] <==> j > 0
    {
      if t == s {
        var j0 := Skip(j, k);
        assert rings'[t][j] == r[j0];
        assert loose[r[j0]] <==> j0 > 0;
      } else {
        assert loose[rings[t][j]] <==> j > 0;
        assert rings[t][j] !in r;
      }
    }
  }

  // ----- The tree of a large bin -----

  /** Whether a size has a ring and belongs to a bin. */
  predicate InBin(rings: map<nat, seq<nat>>, s: int, i: nat) {
    s > SMALL_MAX && s in rings && LargeBin(s) == i
  }

  /** Every node is the head of the ring of its size, which belongs to the bin. */
  ghost predicate NodesAreHeads(key: seq<int>, t: Tree, rings: map<nat, seq<nat>>, i: nat) {
    forall m :: m in Nodes(t) ==> InBin(rings, Key(key, m), i) && Head(rings[Key(key, m)]) == m
  }

  /** Every ring of the bin has its head in the tree. */
  ghost predicate HeadsAreNodes(t: Tree, rings: map<nat, seq<nat>>, i: nat) {
    forall s :: InBin(rings, s, i) ==> Head(rings[s]) in Nodes(t)
  }

  /** The size of each chunk of the bin is its key, whether it is a node or not. */
  ghost predicate Keyed(key: seq<int>, rings: map<nat, seq<nat>>, i: nat) {
    forall s, j :: InBin(rings, s, i) && 0 <= j < |rings[s]| ==> Key(key, rings[s][j]) == s
  }

  ghost predicate Matches(key: seq<int>, t: Tree, rings: map<nat, seq<nat>>, i: nat) {
    NodesAreHeads(key, t, rings, i) && HeadsAreNodes(t, rings, i) && Keyed(key, rings, i)
  }

  lemma MatchesOther(key: seq<int>, t: Tree, rings: map<nat, seq<nat>>, rings': map<nat, seq<nat>>, s: nat, i: nat)
    requires Matches(key, t, rings, i) && SameBut(rings, rings', s) && (s <= SMALL_MAX || LargeBin(s) != i)
    ensures Matches(key, t, rings', i)
  {
    hide LargeBin;
    forall x: int
      ensures InBin(rings, x, i) <==> InBin(rings', x, i)
      ensures InBin(rings, x, i) ==> rings'[x] == rings[x]
    {
      if x >= 0 && x != s {
        assert RingOf(rings, x) == RingOf(rings', x);
      }
    }
  }

  /** The key of a chunk that is in no ring does not matter. */
  lemma MatchesKey(key: seq<int>, t: Tree, rings: map<nat, seq<nat>>, i: nat, a: nat, k: int)
    requires Matches(key, t, rings, i) && a < |key|
    requires forall s, j :: s in rings && 0 <= j < |rings[s]| ==> rings[s][j] != a
    requires forall s :: s in rings ==> rings[s] != []
    ensures Matches(key[a := k], t, rings, i) && a !in Nodes(t)
  {
    hide LargeBin;
    forall m | m in Nodes(t)
      ensures m != a
    {
      assert rings[Key(key, m)][0] == m;
    }
  }

  /** What an insertion finds is the head of the ring. */
  lemma FoundIsHead(key: seq<int>, t: Tree, rings: map<nat, seq<nat>>, i: nat, s: nat, exist: nat)
    requires Matches(key, t, rings, i) && s > SMALL_MAX && LargeBin(s) == i && (s in rings ==> rings[s] != [])
    requires exist != 0 ==> exist in Nodes(t) && Key(key, exist) == s
    requires exist == 0 ==> forall m :: m in Nodes(t) ==> Key(key, m) != s
    ensures (exist != 0 <==> s in rings) && exist == Head(RingOf(rings, s))
  {
    hide LargeBin;
    if s in rings {
      assert InBin(rings, s, i);
      assert Key(key, rings[s][0]) == s;
    }
  }

  /** A chunk of a size that is there: the tree stays. A chunk of a new size: the tree has it for a node. */
  lemma MatchesGrow(key: seq<int>, t: Tree, t': Tree, rings: map<nat, seq<nat>>, i: nat, s: nat, a: nat)
    requires Matches(key, t, rings, i) && s > SMALL_MAX && LargeBin(s) == i && Key(key, a) == s
    requires s in rings ==> rings[s] != []
    requires if s in rings then t' == t else Nodes(t') == Nodes(t) + {a}
    ensures Matches(key, t', Grown(rings, s, a), i)
  {
    hide LargeBin;
    var rings' := Grown(rings, s, a);
    forall x: int
      ensures x != s ==> (InBin(rings, x, i) <==> InBin(rings', x, i))
      ensures x != s && InBin(rings, x, i) ==> rings'[x] == rings[x]
    {
    }
    assert InBin(rings', s, i) && Head(rings'[s]) == if s in rings then rings[s][0] else a;
    forall m | m in Nodes(t')
      ensures InBin(rings', Key(key, m), i) && Head(rings'[Key(key, m)]) == m
    {
      if m in Nodes(t) {
        assert InBin(rings, Key(key, m), i);
      }
    }
    forall x, j | InBin(rings', x, i) && 0 <= j < |rings'[x]|
      ensures Key(key, rings'[x][j]) == x
    {
      if x != s || j < |rings'[x]| - 1 {
        assert InBin(rings, x, i) && rings'[x][j] == rings[x][j];
      }
    }
  }

  /** The node of a size is gone with its last chunk, handed over with its first, and stays otherwise. */
  ghost predicate NodesShrink(t: Tree, t': Tree, r: seq<nat>, k: nat)
    requires k < |r|
  {
    if |r| == 1 then Nodes(t') == Nodes(t) - {r[k]}
    else if k == 0 then Nodes(t') == Nodes(t) - {r[0]} + {r[1]}
    else t' == t
  }

  lemma MatchesShrink(key: seq<int>, t: Tree, t': Tree, rings: map<nat, seq<nat>>, i: nat, s: nat, k: nat)
    requires Matches(key, t, rings, i) && InBin(rings, s, i) && k < |rings[s]|
    requires forall x, j :: x in rings && x != s && 0 <= j < |rings[x]| ==> rings[x][j] !in rings[s]
    requires forall x :: x in rings ==> rings[x] != []
    requires NodesShrink(t, t', rings[s], k)
    ensures Matches(key, t', Shrunk(rings, s, k), i)
  {
    hide LargeBin;
    var r, rings' := rings[s], Shrunk(rings, s, k);
    WithoutHead(r, k);
    WithoutAt(r, k);
    hide Without;
    forall x: int
      ensures x != s ==> (InBin(rings, x, i) <==> InBin(rings', x, i))
      ensures x != s && InBin(rings, x, i) ==> rings'[x] == rings[x]
    {
    }
    forall m | m in Nodes(t')
      ensures InBin(rings', Key(key, m), i) && Head(rings'[Key(key, m)]) == m
    {
      if m in Nodes(t) {
        assert InBin(rings, Key(key, m), i) && rings[Key(key, m)][0] == m;
      } else {
        assert Key(key, r[1]) == s;
      }
    }
    forall x | InBin(rings', x, i)
      ensures Head(rings'[x]) in Nodes(t')
    {
      assert InBin(rings, x, i) && rings[x][0] in Nodes(t);
    }
    forall x, j | InBin(rings', x, i) && 0 <= j < |rings'[x]|
      ensures Key(key, rings'[x][j]) == x
    {
      if x == s {
        assert Key(key, r[Skip(j, k)]) == s;
      }
    }
  }

  /** One large bin: its tree holds a red-black tree of the heads of its rings, and its bit says whether there is any. */
  ghost predicate BinOk(tree: RbTree, t: Tree, n: nat, rings: map<nat, seq<nat>>, i: nat, bit: bool)
    reads tree
  {
    && !tree.augment && tree.low == -1 && tree.high == n + 1 && |tree.left| == n && tree.Holds(t)
    && Matches(tree.key, t, rings, i) && (bit <==> t.Node?)
  }

  predicate Different(lbins: seq<RbTree>) {
    forall i, j :: 0 <= i < j < |lbins| ==> lbins[i] != lbins[j]
  }

  ghost predicate LargeOk(lbins: seq<RbTree>, trees: seq<Tree>, lbinmap: seq<bool>, n: nat, rings: map<nat, seq<nat>>)
    reads lbins
  {
    && |lbins| == |trees| == |lbinmap| == BINS && Different(lbins)
    && forall i :: 0 <= i < BINS ==> BinOk(lbins[i], trees[i], n, rings, i, lbinmap[i])
  }

  lemma LargeOther(lbins: seq<RbTree>, trees: seq<Tree>, lbinmap: seq<bool>, n: nat, rings: map<nat, seq<nat>>,
                   rings': map<nat, seq<nat>>, s: nat)
    requires LargeOk(lbins, trees, lbinmap, n, rings) && SameBut(rings, rings', s) && s <= SMALL_MAX
    ensures LargeOk(lbins, trees, lbinmap, n, rings')
  {
    hide Matches, SameBut, RbTree.Holds;
    forall i | 0 <= i < BINS
      ensures BinOk(lbins[i], trees[i], n, rings', i, lbinmap[i])
    {
      assert BinOk(lbins[i], trees[i], n, rings, i, lbinmap[i]);
      MatchesOther(lbins[i].key, trees[i], rings, rings', s, i);
    }
  }

  lemma LargeAt(lbins: seq<RbTree>, trees: seq<Tree>, lbinmap: seq<bool>, n: nat, rings: map<nat, seq<nat>>,
                rings': map<nat, seq<nat>>, s: nat, i: nat, t: Tree, bit: bool)
    requires |lbins| == |trees| == |lbinmap| == BINS && Different(lbins) && i < BINS && SameBut(rings, rings', s)
    requires forall j :: 0 <= j < BINS && j != i ==> BinOk(lbins[j], trees[j], n, rings, j, lbinmap[j])
    requires LargeBin(s) == i && BinOk(lbins[i], t, n, rings', i, bit)
    ensures LargeOk(lbins, trees[i := t], lbinmap[i := bit], n, rings')
  {
    hide Matches, SameBut, RbTree.Holds, LargeBin, Different;
    forall j | 0 <= j < BINS && j != i
      ensures BinOk(lbins[j], trees[j], n, rings', j, lbinmap[j])
    {
      MatchesOther(lbins[j].key, trees[j], rings, rings', s, j);
    }
  }

  // ----- The bins -----

  function NextBit(bits: seq<bool>, i: nat): (r: nat)
    requires i <= |bits|
    ensures i <= r <= |bits| && (r < |bits| ==> bits[r]) && forall j :: i <= j < r ==> !bits[j]
    decreases |bits| - i
  {
    if i == |bits| || bits[i] then i else NextBit(bits, i + 1)
  }

  class Bins {
    const links: Links
    const lbins: seq<RbTree>     // the tree of each large bin; the size of a chunk is its key
    var sbins: seq<nat>
    var sbinmap: seq<bool>
    var lbinmap: seq<bool>
    var loose: seq<bool>            // a chunk of a ring that is not the tree's node
    ghost var trees: seq<Tree>
    ghost var rings: map<nat, seq<nat>>
    ghost var free: map<nat, nat>   // the sizes of the chunks held, by address

    ghost predicate Valid()
      reads this, links, lbins
    {
      && |links.next| == |links.prev| == |loose|
      && RingsOk(links.next, links.prev, rings, free) && SmallOk(sbins, sbinmap, rings)
      && LargeOk(lbins, trees, lbinmap, |loose|, rings) && LooseOk(loose, rings)
    }

    constructor (n: nat)
      ensures Valid() && fresh(links) && (forall i :: 0 <= i < |lbins| ==> fresh(lbins[i])) && free == map[] && |links.next| == n
    {
      var ts: seq<RbTree> := [];
      while |ts| < BINS
        invariant |ts| <= BINS && Different(ts) && forall i :: 0 <= i < |ts| ==> fresh(ts[i])
        invariant forall i :: 0 <= i < |ts| ==> BinOk(ts[i], Leaf, n, map[], i, false)
      {
        var tree := new RbTree(false, -1, n + 1, n);
        ts := ts + [tree];
      }
      links := new Links(n);
      lbins := ts;
      sbins, sbinmap := seq(BINS, _ => 0), seq(BINS, _ => false);
      lbinmap := seq(BINS, _ => false);
      loose := seq(n, _ => false);
      trees, rings, free := seq(BINS, _ => Leaf), map[], map[];
    }

    method AddSmall(a: nat, size: nat)
      requires Valid() && a !in free && 0 < a < |links.next| && size <= SMALL_MAX
      modifies this, links
      ensures Valid() && free == old(free)[a := size] && |links.next| == old(|links.next|)
      ensures rings == old(rings)[size := RingOf(old(rings), size) + [a]]
    {
      hide Linked, Sorted, Complete, SmallOk, LargeOk, LooseOk, LargeBin, Ring, SameLinks, SameBut;
      ghost var r := RingOf(rings, size);
      RingParts(links.next, links.prev, rings, free, a, size);
      SmallParts(sbins, sbinmap, rings, size);
      SmallGrows(sbins, sbinmap, rings, size, a);
      ChunkInRing(rings, free, a);
      LooseGrows(loose, rings, size, a);
      GrownSorted(rings, free, a, size);
      LargeOther(lbins, trees, lbinmap, |loose|, rings, Grown(rings, size, a), size);
      var head := links.ListAdd(sbins[size], a, r);
      sbins := sbins[size := head];
      sbinmap := sbinmap[size := true];
      RingsGrow(old(links.next), old(links.prev), links.next, links.prev, rings, free, a, size);
      rings := Grown(rings, size, a);
      free := free[a := size];
    }

    /** Puts a chunk into the tree of its bin, unless there is a node of its size. */
    method Hang(a: nat, size: nat, idx: nat) returns (exist: nat)
      requires Valid() && a !in free && 0 < a < |links.next| && SMALL_MAX < size <= |links.next| && idx == LargeBin(size) < BINS
      modifies `trees, lbins
      ensures |trees| == |lbinmap| == BINS && exist == Head(RingOf(rings, size)) && (exist != 0 <==> size in rings)
      ensures LargeOk(lbins, trees, lbinmap[idx := true], |loose|, Grown(rings, size, a))
    {
      hide Linked, Sorted, Complete, SmallOk, LooseOk, LargeBin, Ring, SameLinks, SameBut, Matches, RbTree.At, RbTree.GapsExact;
      var tree := lbins[idx];
      ghost var t0, t := trees[idx], Leaf;
      RingsNotEmpty(links.next, links.prev, rings, free);
      ChunkInRing(rings, free, a);
      GrownSorted(rings, free, a, size);
      assert BinOk(tree, t0, |loose|, rings, idx, lbinmap[idx]);
      MatchesKey(tree.key, t0, rings, idx, a, size);
      tree.SetKey(a, size, t0);
      exist, t := tree.Insert(a, t0);
      FoundIsHead(tree.key, t0, rings, idx, size, exist);
      MatchesGrow(tree.key, t0, t, rings, idx, size, a);
      assert (if exist == 0 then a else exist) in Nodes(t);
      LargeAt(lbins, trees, lbinmap, |loose|, rings, Grown(rings, size, a), size, idx, t, true);
      trees := trees[idx := t];
    }

    method AddLarge(a: nat, size: nat)
      requires Valid() && a !in free && 0 < a < |links.next| && SMALL_MAX < size <= |links.next|
      modifies this, links, lbins
      ensures Valid() && free == old(free)[a := size] && |links.next| == old(|links.next|)
      ensures rings == old(rings)[size := RingOf(old(rings), size) + [a]]
    {
      hide Linked, Sorted, Complete, SmallOk, LargeOk, LooseOk, LargeBin, Ring, SameLinks, SameBut;
      ghost var r := RingOf(rings, size);
      RingParts(links.next, links.prev, rings, free, a, size);
      SmallGrows(sbins, sbinmap, rings, size, a);
      ChunkInRing(rings, free, a);
      LooseGrows(loose, rings, size, a);
      LargeBound(size);
      var idx := LargeBin(size);
      var exist := Hang(a, size, idx);
      loose := loose[a := exist != 0];
      var head := links.ListAdd(exist, a, r);
      lbinmap := lbinmap[idx := true];
      RingsGrow(old(links.next), old(links.prev), links.next, links.prev, rings, free, a, size);
      rings := Grown(rings, size, a);
      free := free[a := size];
    }

    /** Puts a chunk into the bin of its size. */
    method Add(a: nat, size: nat)
      requires Valid() && a !in free && 0 < a < |links.next| && size <= |links.next|
      modifies this, links, lbins
      ensures Valid() && free == old(free)[a := size] && |links.next| == old(|links.next|)
      ensures rings == old(rings)[size := RingOf(old(rings), size) + [a]]
    {
      if size <= SMALL_MAX {
        AddSmall(a, size);
      } else {
        AddLarge(a, size);
      }
    }

    method RemoveSmall(a: nat, size: nat)
      requires Valid() && a in free && free[a] == size && size <= SMALL_MAX
      modifies this, links
      ensures Valid() && free == old(free) - {a} && |links.next| == old(|links.next|)
      ensures LeavesRing(old(rings), rings, size, a)
    {
      hide Linked, Sorted, Complete, SmallOk, LargeOk, LooseOk, LargeBin, Ring, SameLinks, SameBut;
      ghost var k := RingPlace(links.next, links.prev, rings, free, a);
      ghost var r := rings[size];
      SmallParts(sbins, sbinmap, rings, size);
      WithoutHead(r, k);
      LooseShrinks(loose, rings, size, k, links.next[a]);
      ShrunkSorted(rings, free, size, k);
      LargeOther(lbins, trees, lbinmap, |loose|, rings, Shrunk(rings, size, k), size);
      var head := links.ListRemove(sbins[size], a, r, k);
      SmallShrinks(sbins, sbinmap, rings, size, k, head);
      sbins := sbins[size := head];
      if head == 0 {
        sbinmap := sbinmap[size := false];
      }
      RingsShrink(old(links.next), old(links.prev), links.next, links.prev, rings, free, size, k);
      rings := Shrunk(rings, size, k);
      free := free - {a};
    }

    /** What the removal of a chunk from the tree rests on. */
    ghost predicate Hung(a: nat, size: nat, idx: nat, next: nat, k: nat)
      reads this, lbins
    {
      && LargeOk(lbins, trees, lbinmap, |loose|, rings) && LooseOk(loose, rings) && Sorted(rings, free)
      && size in rings && size > SMALL_MAX && LargeBin(size) == idx < BINS && (forall x :: x in rings ==> rings[x] != [])
      && var r := rings[size];
        && k < |r| && r[k] == a && Distinct(r) && (forall i :: 0 <= i < |r| ==> 0 < r[i] < |loose|)
        && next == if |r| == 1 then 0 else r[Succ(k, |r|)]
    }

    /** A chunk that is not loose is a node of the tree, and its successor in the ring is not. */
    lemma HungParts(a: nat, size: nat, idx: nat, next: nat, k: nat)
      requires Hung(a, size, idx, next, k)
      ensures |trees| == |lbins| == |lbinmap| == BINS && BinOk(lbins[idx], trees[idx], |loose|, rings, idx, lbinmap[idx])
      ensures (loose[a] <==> k > 0) && (next == 0 <==> |rings[size]| == 1) && next < |loose| && a < |loose|
      ensures k == 0 ==> a in Nodes(trees[idx])
      ensures k == 0 && next != 0 ==>
        next == rings[size][1] && next !in Nodes(trees[idx]) && Key(lbins[idx].key, a) == size == lbins[idx].key[next]
    {
      hide LargeBin, RbTree.At, RbTree.GapsExact, Different;
      var r, key := rings[size], lbins[idx].key;
      assert BinOk(lbins[idx], trees[idx], |loose|, rings, idx, lbinmap[idx]);
      assert InBin(rings, size, idx) && Key(key, r[0]) == size;
      if |r| > 1 {
        assert Key(key, r[1]) == size;
      }
    }

    /** Hands a node over to another chunk, if its parent, or the root pointer, leads to it. */
    static method Succeed(tree: RbTree, a: nat, next: nat, ghost t0: Tree) returns (linked: bool, ghost t: Tree)
      requires tree.Holds(t0) && !tree.augment && a in Nodes(t0) && next !in Nodes(t0) && 0 < next < |tree.left|
      requires tree.key[next] == Key(tree.key, a)
      modifies tree`root, tree`left, tree`right, tree`parent, tree`color
      ensures linked && tree.Holds(t) && |tree.left| == old(|tree.left|) && Nodes(t) == Nodes(t0) - {a} + {next}
    {
      hide RbTree.At, RbTree.GapsExact;
      tree.Linked(t0, a);
      var parent := tree.parent[a];
      linked :=
        if parent == 0 then tree.root == a
        else tree.root != 0 && (tree.left[parent] == a || tree.right[parent] == a);
      t := t0;
      if linked {
        t := tree.HandOver(a, next, t0);
      }
    }

    /**
     * Takes a chunk whose ring has lost it out of the tree, or hands its node over to the next of the ring.
     * A node to which nothing leads would be left alone; there is none.
     */
    method Unhang(a: nat, size: nat, idx: nat, next: nat, ghost k: nat) returns (removed: bool)
      requires Hung(a, size, idx, next, k)
      modifies `trees, `loose, `lbinmap, lbins
      ensures removed && |loose| == old(|loose|) && LooseOk(loose, Shrunk(rings, size, k))
      ensures LargeOk(lbins, trees, lbinmap, |loose|, Shrunk(rings, size, k))
    {
      hide Sorted, LooseOk, LargeBin, SameBut, Matches, RbTree.Holds, Distinct, Succ;
      ghost var r, t0, n := rings[size], trees[idx], |loose|;
      ghost var t := t0;
      HungParts(a, size, idx, next, k);
      ShrunkSorted(rings, free, size, k);
      LooseShrinks(loose, rings, size, k, next);
      var tree := lbins[idx];
      removed := true;
      if next == 0 {
        t := tree.Remove(a, t0);
        EmptyRoot(tree, t);
        if tree.root == 0 {
          lbinmap := lbinmap[idx := false];
        }
      } else if !loose[a] {
        removed, t := Succeed(tree, a, next, t0);
        assert next in Nodes(t);
        if removed {
          loose := loose[next := false];
        }
      }
      MatchesShrink(tree.key, t0, t, rings, idx, size, k);
      LargeAt(lbins, trees, lbinmap, n, rings, Shrunk(rings, size, k), size, idx, t, lbinmap[idx]);
      trees := trees[idx := t];
    }

    method RemoveLarge(a: nat, size: nat) returns (removed: bool)
      requires Valid() && a in free && free[a] == size && size > SMALL_MAX
      modifies this, links, lbins
      ensures removed && Valid() && free == old(free) - {a} && |links.next| == old(|links.next|)
      ensures LeavesRing(old(rings), rings, size, a)
    {
      hide Linked, Sorted, Complete, SmallOk, LargeOk, LooseOk, LargeBin, Ring, SameLinks, SameBut;
      ghost var k := RingPlace(links.next, links.prev, rings, free, a);
      ghost var r := rings[size];
      WithoutHead(r, k);
      SmallShrinks(sbins, sbinmap, rings, size, k, if |r| == 1 then 0 else Without(r, k)[0]);
      RingsNotEmpty(links.next, links.prev, rings, free);
      LargeBound(size);
      var idx := LargeBin(size);
      var next := links.ListRemove(a, a, r, k);
      removed := Unhang(a, size, idx, next, k);
      RingsShrink(old(links.next), old(links.prev), links.next, links.prev, rings, free, size, k);
      rings := Shrunk(rings, size, k);
      free := free - {a};
    }

    /** Takes a chunk out of its bin. */
    method Remove(a: nat, size: nat) returns (removed: bool)
      requires Valid() && a in free && free[a] == size
      modifies this, links, lbins
      ensures removed && Valid() && free == old(free) - {a} && |links.next| == old(|links.next|)
      ensures LeavesRing(old(rings), rings, size, a)
    {
      if size <= SMALL_MAX {
        RemoveSmall(a, size);
        removed := true;
      } else {
        removed := RemoveLarge(a, size);
      }
    }

    /** Forgets the chunks of a small bin, unless they are to be kept. */
    method DropSmall(idx: nat, keep: bool)
      requires Valid() && idx < BINS
      modifies this
      ensures keep ==> unchanged(this)
    {
      if !keep {
        sbins := sbins[idx := 0];
        sbinmap := sbinmap[idx := false];
      }
    }

    /** Forgets the tree of a large bin, unless it is to be kept. */
    method DropLarge(idx: nat, keep: bool)
      requires Valid() && idx < BINS
      modifies this, lbins
      ensures keep ==> unchanged(this) && unchanged(lbins)
    {
      if !keep {
        lbins[idx].root := 0;
        lbinmap := lbinmap[idx := false];
      }
    }

    /** Forgets the bin of a size, unless it is to be kept. */
    method Abandon(size: nat, keep: bool)
      requires Valid()
      modifies this, lbins
      ensures keep ==> unchanged(this) && unchanged(lbins)
    {
      LargeBound(size);
      if size <= SMALL_MAX {
        DropSmall(size, keep);
      } else {
        DropLarge(LargeBin(size), keep);
      }
    }

    /** The links of a chunk lead to chunks. */
    lemma Neighbours(a: nat)
      requires Valid() && a in free
      ensures a < |links.next| == |links.prev| && links.next[a] in free && links.prev[a] in free
    {
      hide LargeOk, LargeBin, LooseOk, SmallOk, Complete;
      var k := RingPlace(links.next, links.prev, rings, free, a);
      var r := rings[free[a]];
      var j := if k == 0 then |r| - 1 else k - 1;
      assert Succ(j, |r|) == k;
      assert rings[free[a]][j] in free && rings[free[a]][Succ(k, |r|)] in free;
    }

    /** The first chunk of the first small bin for at least the size; null if all small bins from there on are empty. */
    method FindSmall(size: nat) returns (chunk: nat, idx: nat)
      requires Valid() && size <= SMALL_MAX
      ensures idx < BINS
      ensures chunk != 0 ==> chunk in free && size <= free[chunk] <= SMALL_MAX
      ensures chunk != 0 ==> forall a :: a in free && free[a] >= size ==> free[a] >= free[chunk]
      ensures chunk != 0 ==> free[chunk] in rings && rings[free[chunk]] != [] && rings[free[chunk]][0] == chunk
      ensures chunk == 0 ==> forall a :: a in free && free[a] <= SMALL_MAX ==> free[a] < size
    {
      hide LargeOk, LargeBin, LooseOk;
      idx := NextBit(sbinmap, size);
      if idx < BINS {
        chunk := sbins[idx];
        forall a | a in free && free[a] >= size
          ensures free[a] >= free[chunk]
        {
          if free[a] <= SMALL_MAX {
            assert free[a] in rings && a in rings[free[a]] && 0 < rings[free[a]][0];
            assert sbinmap[free[a]];
          }
        }
      } else {
        chunk, idx := 0, size;
        forall a | a in free && free[a] <= SMALL_MAX
          ensures free[a] < size
        {
          assert free[a] in rings && a in rings[free[a]] && 0 < rings[free[a]][0];
          assert sbinmap[free[a]];
        }
      }
    }

    /** A node of the tree of a large bin is a free chunk of the size that is its key. */
    lemma NodeIsFree(i: nat, m: nat)
      requires Valid() && i < BINS && m in Nodes(trees[i])
      ensures m in free && free[m] > SMALL_MAX && Key(lbins[i].key, m) == free[m]
      ensures free[m] in rings && rings[free[m]] != [] && rings[free[m]][0] == m
    {
      hide LargeBin, RbTree.Holds, SmallOk, LooseOk, Complete, Different;
      assert BinOk(lbins[i], trees[i], |loose|, rings, i, lbinmap[i]);
      assert rings[Key(lbins[i].key, m)][0] == m;
    }

    lemma BinOfNode(i: nat, m: nat)
      requires Valid() && i < BINS && m in Nodes(trees[i])
      ensures m in free && LargeBin(free[m]) == i
    {
      hide LargeBin, RbTree.Holds, SmallOk, LooseOk, Complete, Different;
      NodeIsFree(i, m);
      assert BinOk(lbins[i], trees[i], |loose|, rings, i, lbinmap[i]);
      assert rings[Key(lbins[i].key, m)][0] == m;
    }

    /** A large free chunk is in a ring whose head is in the tree of the bin of its size. */
    lemma NodeOfSize(a: nat) returns (i: nat, m: nat)
      requires Valid() && a in free && free[a] > SMALL_MAX
      ensures i == LargeBin(free[a]) < BINS && lbinmap[i] && m in Nodes(trees[i]) && Key(lbins[i].key, m) == free[a]
    {
      hide LargeBin, RbTree.Holds, SmallOk, LooseOk, Linked, Different;
      LargeBound(free[a]);
      i, m := LargeBin(free[a]), Head(rings[free[a]]);
      assert BinOk(lbins[i], trees[i], |loose|, rings, i, lbinmap[i]);
      assert InBin(rings, free[a], i) && Key(lbins[i].key, rings[free[a]][0]) == free[a];
    }

    lemma BinParts(i: nat)
      requires Valid() && i < BINS
      ensures |lbins| == |trees| == |lbinmap| == BINS && BinOk(lbins[i], trees[i], |loose|, rings, i, lbinmap[i])
    {
      hide BinOk, SmallOk, LooseOk, RingsOk, Different;
    }

    /** Whether some large bin has a chunk. */
    method AnyLarge() returns (any: bool)
      requires Valid()
      ensures any <==> exists a :: a in free && free[a] > SMALL_MAX
    {
      hide Valid, RbTree.Holds, Matches, LargeBin;
      BinParts(0);
      any := NextBit(lbinmap, 0) < BINS;
      ghost var i := NextBit(lbinmap, 0);
      if any {
        BinParts(i);
        NodeIsFree(i, trees[i].n);
      } else {
        forall a | a in free
          ensures free[a] <= SMALL_MAX
        {
          if free[a] > SMALL_MAX {
            var j, m := NodeOfSize(a);
          }
        }
      }
    }

    /** If no node of an earlier bin is large enough, no chunk of an earlier bin is. */
    lemma NoneEarlier(size: nat, idx: nat, chunk: nat)
      requires Valid() && idx < BINS && chunk in Nodes(trees[idx]) && chunk in free
      requires forall i, m :: LargeBin(size) <= i < idx && m in Nodes(trees[i]) ==> Key(lbins[i].key, m) < size
      ensures forall a :: a in free && free[a] > SMALL_MAX && free[a] >= size ==> LargeBin(free[a]) >= LargeBin(free[chunk])
    {
      hide Valid, LargeBin;
      BinOfNode(idx, chunk);
      forall a | a in free && free[a] > SMALL_MAX && free[a] >= size
        ensures LargeBin(free[a]) >= LargeBin(free[chunk])
      {
        var i, m := NodeOfSize(a);
        BinOrder(size, free[a]);
      }
    }

    /** A chunk of at least the size from the first large bin that has one; null if there is none. */
    method FindLarge(size: nat) returns (chunk: nat, idx: nat)
      requires Valid()
      ensures chunk != 0 ==> idx < BINS
      ensures chunk != 0 ==> chunk in free && free[chunk] >= size && free[chunk] > SMALL_MAX
      ensures chunk != 0 ==> forall a :: a in free && free[a] > SMALL_MAX && free[a] >= size ==> LargeBin(free[a]) >= LargeBin(free[chunk])
      ensures chunk != 0 ==> free[chunk] in rings && rings[free[chunk]] != [] && rings[free[chunk]][0] == chunk
      ensures chunk == 0 ==> forall a :: a in free && free[a] > SMALL_MAX ==> free[a] < size
    {
      hide Valid, Matches, LargeBin;
      chunk := 0;
      LargeBound(size);
      BinParts(0);
      idx := LargeBin(size);
      while idx < BINS && NextBit(lbinmap, idx) < BINS
        invariant LargeBin(size) <= idx <= BINS && chunk == 0
        invariant forall i, m :: LargeBin(size) <= i < idx && m in Nodes(trees[i]) ==> Key(lbins[i].key, m) < size
        decreases BINS - idx
      {
        BinParts(idx);
        chunk := MallocFind.FindFit(lbins[idx], size, trees[idx]);
        if chunk != 0 {
          NodeIsFree(idx, chunk);
          NoneEarlier(size, idx, chunk);
          return;
        }
        idx := idx + 1;
      }
      forall a | a in free && free[a] > SMALL_MAX
        ensures free[a] < size
      {
        var i, m := NodeOfSize(a);
        BinOrder(size, free[a]);
      }
    }
  }

  lemma EmptyRoot(tree: RbTree, t: Tree)
    requires tree.Holds(t)
    ensures tree.root == 0 <==> t.Leaf?
  {
    tree.WholeTree(t);
  }

  lemma LargeBound(size: nat)
    ensures LargeBin(size) < BINS
  {
    IndexAtEnds(8 * size);
  }

  lemma BinOrder(size: nat, size': nat)
    ensures size <= size' ==> LargeBin(size) <= LargeBin(size')
  {
    if size <= size' {
      IndexMono(8 * size, 8 * size');
    }
  }

  lemma RingsNotEmpty(next: seq<nat>, prev: seq<nat>, rings: map<nat, seq<nat>>, free: map<nat, nat>)
    requires RingsOk(next, prev, rings, free)
    ensures forall s :: s in rings ==> rings[s] != []
  {
  }
}
