/** Heaps tiled by chunks, as the words of memory spell them. Addresses and sizes are in 8-byte words. */
module Chunks {
  datatype Chunk = Chunk(size: nat, used: bool)

  const OVERHEAD: nat := 2     // a chunk's size word and heap pointer
  const MIN_SIZE: nat := 5     // those, two links, and the footer
  const HEAP_HEADER: nat := 2  // a heap's size and its count of free bytes

  function Sum(cs: seq<Chunk>): nat {
    if cs == [] then 0 else cs[0].size + Sum(cs[1..])
  }

  /** The words of all free chunks. */
  function FreeSum(cs: seq<Chunk>): nat {
    if cs == [] then 0 else (if cs[0].used then 0 else cs[0].size) + FreeSum(cs[1..])
  }

  lemma {:induction false} SumAppend(x: seq<Chunk>, y: seq<Chunk>)
    ensures Sum(x + y) == Sum(x) + Sum(y) && FreeSum(x + y) == FreeSum(x) + FreeSum(y)
  {
    if x == [] {
      assert x + y == y;
    } else {
      SumAppend(x[1..], y);
      assert (x + y)[1..] == x[1..] + y;
    }
  }

  // ----- The words of a chunk -----

  /** A chunk's size in bytes with the flags CUSED and PUSED. */
  function Header(c: Chunk, pused: bool): int {
    8 * c.size + (if c.used then 2 else 0) + (if pused then 1 else 0)
  }

  function SizeOf(w: int): int {
    (w - w % 4) / 8
  }

  lemma SizePlus(w: int, n: int)
    ensures SizeOf(w + 8 * n) == SizeOf(w) + n
  {
    SizeParts(w, w / 8, w % 8);
    SizeParts(w + 8 * n, w / 8 + n, w % 8);
  }

  lemma SizeParts(w: int, q: int, r: nat)
    requires r < 8 && w == 8 * q + r
    ensures SizeOf(w) == q
  {
    if r < 4 {
      assert w == 4 * (2 * q) + r;
      assert w % 4 == r;
    } else {
      assert w == 4 * (2 * q + 1) + (r - 4);
      assert w % 4 == r - 4;
    }
  }

  predicate Cused(w: int) {
    w / 2 % 2 == 1
  }

  predicate Pused(w: int) {
    w % 2 == 1
  }

  lemma Fourth(n: nat, k: nat)
    requires k < 4
    ensures (4 * n + k) % 4 == k
  {
  }

  lemma Eighth(q: nat)
    ensures 8 * q / 8 == q
  {
  }

  lemma EightTimes(q: nat, k: nat)
    requires k < 4
    ensures (8 * q + k - (8 * q + k) % 4) / 8 == q
  {
    Fourth(2 * q, k);
    Eighth(q);
    assert 8 * q + k == 4 * (2 * q) + k;
  }

  lemma FlagsOf(q: nat, k: nat)
    requires k < 4
    ensures (8 * q + k) / 2 % 2 == k / 2 && (8 * q + k) % 2 == k % 2
  {
    var h := (8 * q + k) / 2;
    assert h == 4 * q + k / 2;
    TwiceMore(2 * q, k / 2);
    TwiceMore(4 * q, k);
  }

  lemma TwiceMore(q: nat, k: nat)
    ensures (2 * q + k) % 2 == k % 2
  {
  }

  lemma HeaderParts(c: Chunk, pused: bool)
    ensures SizeOf(Header(c, pused)) == c.size && (Cused(Header(c, pused)) <==> c.used) && (Pused(Header(c, pused)) <==> pused)
  {
    var k := Header(c, pused) - 8 * c.size;
    EightTimes(c.size, k);
    FlagsOf(c.size, k);
  }

  predicate Stands(mem: seq<int>, heap: nat, a: nat, c: Chunk, pused: bool) {
    && c.size >= MIN_SIZE && a + c.size <= |mem|
    && mem[a] == Header(c, pused) && mem[a + 1] == heap
    && (!c.used ==> mem[a + c.size - 1] == 8 * c.size)
  }

  /** From `a` on, the chunks `cs` follow one another; the flag says whether the one before is in use. */
  predicate Tiled(mem: seq<int>, heap: nat, a: nat, cs: seq<Chunk>, pused: bool)
    decreases cs
  {
    cs != [] ==> Stands(mem, heap, a, cs[0], pused) && Tiled(mem, heap, a + cs[0].size, cs[1..], cs[0].used)
  }

  function LastUsed(cs: seq<Chunk>, pused: bool): bool {
    if cs == [] then pused else cs[|cs| - 1].used
  }

  lemma {:induction false} TiledAppend(mem: seq<int>, heap: nat, a: nat, x: seq<Chunk>, y: seq<Chunk>, pused: bool)
    ensures Tiled(mem, heap, a, x + y, pused)
       <==> Tiled(mem, heap, a, x, pused) && Tiled(mem, heap, a + Sum(x), y, LastUsed(x, pused))
    decreases x
  {
    if x == [] {
      assert x + y == y;
    } else {
      assert (x + y)[0] == x[0] && (x + y)[1..] == x[1..] + y;
      TiledAppend(mem, heap, a + x[0].size, x[1..], y, x[0].used);
      assert LastUsed(x[1..], x[0].used) == LastUsed(x, pused);
    }
  }

  predicate SameWords(mem: seq<int>, mem': seq<int>, lo: nat, hi: nat) {
    |mem'| == |mem| && forall w :: lo <= w < hi && w < |mem| ==> mem'[w] == mem[w]
  }

  lemma {:induction false} TiledFrame(mem: seq<int>, mem': seq<int>, heap: nat, a: nat, cs: seq<Chunk>, pused: bool)
    requires Tiled(mem, heap, a, cs, pused) && SameWords(mem, mem', a, a + Sum(cs))
    ensures Tiled(mem', heap, a, cs, pused)
    decreases cs
  {
    if cs != [] {
      TiledFrame(mem, mem', heap, a + cs[0].size, cs[1..], cs[0].used);
    }
  }

  /** The first chunk's flag PUSED is all that depends on what is before. */
  lemma FlagChanged(mem: seq<int>, mem': seq<int>, heap: nat, a: nat, cs: seq<Chunk>, pused: bool, pused': bool)
    requires Tiled(mem, heap, a, cs, pused) && |mem'| == |mem|
    requires cs != [] ==> a < |mem| && mem'[a] == Header(cs[0], pused') && SameWords(mem, mem', a + 1, a + Sum(cs))
    ensures Tiled(mem', heap, a, cs, pused')
  {
    if cs != [] {
      TiledFrame(mem, mem', heap, a + cs[0].size, cs[1..], cs[0].used);
    }
  }

  // ----- Chunks by address -----

  function Blocks(a: nat, cs: seq<Chunk>): map<nat, Chunk>
    decreases cs
  {
    if cs == [] then map[] else map[a := cs[0]] + Blocks(a + cs[0].size, cs[1..])
  }

  predicate Sized(cs: seq<Chunk>) {
    forall i :: 0 <= i < |cs| ==> cs[i].size >= MIN_SIZE
  }

  lemma SizedSum(cs: seq<Chunk>)
    requires Sized(cs)
    ensures cs != [] ==> Sum(cs) >= MIN_SIZE
    ensures cs == [] ==> Sum(cs) == 0
  {
  }

  lemma {:induction false} TiledSized(mem: seq<int>, heap: nat, a: nat, cs: seq<Chunk>, pused: bool)
    requires Tiled(mem, heap, a, cs, pused)
    ensures Sized(cs) && (cs != [] ==> a + Sum(cs) <= |mem|)
    decreases cs
  {
    if cs != [] {
      TiledSized(mem, heap, a + cs[0].size, cs[1..], cs[0].used);
      forall i | 0 <= i < |cs|
        ensures cs[i].size >= MIN_SIZE
      {
        assert i > 0 ==> cs[i] == cs[1..][i - 1];
      }
    }
  }

  lemma {:induction false} BlocksInside(a: nat, cs: seq<Chunk>)
    requires Sized(cs)
    ensures forall b :: b in Blocks(a, cs) ==> a <= b && b + Blocks(a, cs)[b].size <= a + Sum(cs) && Blocks(a, cs)[b] in cs
    decreases cs
  {
    if cs != [] {
      BlocksInside(a + cs[0].size, cs[1..]);
    }
  }

  lemma {:induction false} BlocksAppend(a: nat, x: seq<Chunk>, y: seq<Chunk>)
    requires Sized(x) && Sized(y)
    ensures Blocks(a, x + y) == Blocks(a, x) + Blocks(a + Sum(x), y)
    decreases x
  {
    hide Blocks, Sum, Sized;
    if x == [] {
      assert x + y == y;
      NoBlocks(a, y);
    } else {
      var b := a + x[0].size;
      assert (x + y)[0] == x[0] && (x + y)[1..] == x[1..] + y;
      SizedAppend([x[0]], x[1..]);
      assert x == [x[0]] + x[1..];
      BlocksFirst(a, x);
      BlocksFirst(a, x + y);
      BlocksAppend(b, x[1..], y);
      MergeAssoc(map[a := x[0]], Blocks(b, x[1..]), Blocks(b + Sum(x[1..]), y));
    }
  }

  lemma NoBlocks(a: nat, y: seq<Chunk>)
    ensures Blocks(a, []) + Blocks(a, y) == Blocks(a, y) && Sum([]) == 0
  {
  }

  lemma BlocksFirst(a: nat, cs: seq<Chunk>)
    requires cs != []
    ensures Blocks(a, cs) == map[a := cs[0]] + Blocks(a + cs[0].size, cs[1..]) && Sum(cs) == cs[0].size + Sum(cs[1..])
  {
  }

  lemma MergeAssoc(m: map<nat, Chunk>, n: map<nat, Chunk>, k: map<nat, Chunk>)
    ensures m + (n + k) == m + n + k
  {
  }

  lemma SizedAppend(x: seq<Chunk>, y: seq<Chunk>)
    ensures Sized(x + y) <==> Sized(x) && Sized(y)
  {
    forall i | 0 <= i < |y|
      ensures y[i] == (x + y)[|x| + i]
    {
    }
    if Sized(x + y) {
      forall i | 0 <= i < |x|
        ensures x[i].size >= MIN_SIZE
      {
        assert x[i] == (x + y)[i];
      }
    }
  }

  lemma FirstSum(h: Chunk, t: seq<Chunk>)
    ensures Sum([h] + t) == h.size + Sum(t)
  {
    assert ([h] + t)[1..] == t;
  }

  /** The place of a block among the chunks. */
  lemma {:induction false} Locate(a: nat, cs: seq<Chunk>, b: nat) returns (pre: seq<Chunk>, post: seq<Chunk>)
    requires Sized(cs) && b in Blocks(a, cs)
    ensures cs == pre + [Blocks(a, cs)[b]] + post && b == a + Sum(pre)
    decreases cs
  {
    hide Sum, Sized, Blocks;
    EmptyBlocks(a);
    var h, t := cs[0], cs[1..];
    assert cs == [h] + t;
    SizedAppend([h], t);
    FirstSum(h, []);
    EmptySum();
    if b == a {
      LowestBlock(a, cs);
      pre, post := [], t;
      assert cs == [] + [h] + t;
    } else {
      LowestBlock(a, cs);
      pre, post := Locate(a + h.size, t, b);
      FirstSum(h, pre);
      Shift(h, pre, Blocks(a + h.size, t)[b], post);
      pre := [h] + pre;
    }
  }

  lemma EmptyBlocks(a: nat)
    ensures Blocks(a, []) == map[]
  {
  }

  lemma EmptySum()
    ensures Sum([]) == 0
  {
  }

  lemma Shift(h: Chunk, pre: seq<Chunk>, c: Chunk, post: seq<Chunk>)
    ensures [h] + (pre + [c] + post) == [h] + pre + [c] + post
  {
  }

  lemma LowestBlock(a: nat, cs: seq<Chunk>)
    requires Sized(cs) && cs != []
    ensures a in Blocks(a, cs) && Blocks(a, cs)[a] == cs[0]
    ensures forall b :: b in Blocks(a, cs) && b != a ==>
      b in Blocks(a + cs[0].size, cs[1..]) && Blocks(a, cs)[b] == Blocks(a + cs[0].size, cs[1..])[b]
  {
    assert cs == [cs[0]] + cs[1..];
    SizedAppend([cs[0]], cs[1..]);
    BlocksInside(a + cs[0].size, cs[1..]);
  }

  lemma Single(a: nat, c: Chunk)
    ensures Blocks(a, [c]) == map[a := c] && Sum([c]) == c.size
  {
  }

  /** No two blocks overlap. */
  lemma BlocksApart(a: nat, cs: seq<Chunk>, b: nat, c: nat)
    requires Sized(cs) && b in Blocks(a, cs) && c in Blocks(a, cs) && b < c
    ensures b + Blocks(a, cs)[b].size <= c
  {
    hide Blocks, Sum;
    var pre, post := Locate(a, cs, b);
    var d := Blocks(a, cs)[b];
    assert cs == (pre + [d]) + post;
    SizedAppend(pre + [d], post);
    SizedAppend(pre, [d]);
    Single(a + Sum(pre), d);
    BlocksAppend(a, pre + [d], post);
    BlocksAppend(a, pre, [d]);
    SumAppend(pre, [d]);
    BlocksInside(a, pre);
    BlocksInside(a + Sum(pre + [d]), post);
  }

  /** Which of the chunks a word is in. */
  lemma {:induction false} ChunkAt(cs: seq<Chunk>, w: nat) returns (i: nat)
    requires w < Sum(cs)
    ensures i < |cs| && Sum(cs[..i]) <= w < Sum(cs[..i]) + cs[i].size
  {
    if w < cs[0].size {
      i := 0;
    } else {
      i := ChunkAt(cs[1..], w - cs[0].size);
      assert cs[..i + 1] == [cs[0]] + cs[1..][..i];
      i := i + 1;
    }
  }

  // ----- Coalesced heaps -----

  /** No two neighbours are both free. */
  predicate Coalesced(cs: seq<Chunk>) {
    forall i {:trigger cs[i]} :: 0 <= i < |cs| - 1 ==> cs[i].used || cs[i + 1].used
  }

  lemma CoalescedAround(pre: seq<Chunk>, c: Chunk, post: seq<Chunk>)
    requires Coalesced(pre) && Coalesced(post)
    requires pre != [] ==> c.used || pre[|pre| - 1].used
    requires post != [] ==> c.used || post[0].used
    ensures Coalesced(pre + [c] + post)
  {
    var s := pre + [c] + post;
    forall i | 0 <= i < |s| - 1
      ensures s[i].used || s[i + 1].used
    {
      if i < |pre| - 1 {
        assert s[i] == pre[i] && s[i + 1] == pre[i + 1];
      } else if i > |pre| {
        assert s[i] == post[i - |pre| - 1] && s[i + 1] == post[i - |pre| - 1 + 1];
      }
    }
  }

  lemma CoalescedParts(pre: seq<Chunk>, mid: seq<Chunk>, post: seq<Chunk>)
    requires Coalesced(pre + mid + post)
    ensures Coalesced(pre) && Coalesced(mid) && Coalesced(post)
    ensures |mid| == 1 && pre != [] ==> mid[0].used || pre[|pre| - 1].used
    ensures |mid| == 1 && post != [] ==> mid[0].used || post[0].used
  {
    var s := pre + mid + post;
    forall i | 0 <= i < |pre| - 1
      ensures pre[i].used || pre[i + 1].used
    {
      assert s[i] == pre[i] && s[i + 1] == pre[i + 1];
    }
    forall i | 0 <= i < |mid| - 1
      ensures mid[i].used || mid[i + 1].used
    {
      assert s[|pre| + i] == mid[i] && s[|pre| + i + 1] == mid[i + 1];
    }
    forall i | 0 <= i < |post| - 1
      ensures post[i].used || post[i + 1].used
    {
      assert s[|pre| + |mid| + i] == post[i] && s[|pre| + |mid| + i + 1] == post[i + 1];
    }
    if |mid| == 1 {
      if pre != [] {
        assert s[|pre| - 1] == pre[|pre| - 1] && s[|pre| - 1 + 1] == mid[0];
      }
      if post != [] {
        assert s[|pre|] == mid[0] && s[|pre| + 1] == post[0];
      }
    }
  }

  lemma {:induction false} FreeAtMost(cs: seq<Chunk>)
    ensures FreeSum(cs) <= Sum(cs)
  {
    if cs != [] {
      FreeAtMost(cs[1..]);
    }
  }

  /** A coalesced heap of which every word is free is one chunk. */
  lemma FullyFree(cs: seq<Chunk>)
    requires cs != [] && Sized(cs) && Coalesced(cs) && FreeSum(cs) == Sum(cs)
    ensures cs == [Chunk(Sum(cs), false)]
  {
    FreeAtMost(cs[1..]);
    if |cs| > 1 {
      if cs[1].used {
        FreeLess(cs[1..]);
      }
    } else {
      assert cs == [cs[0]];
      assert Sum(cs[1..]) == 0;
    }
  }

  lemma FreeLess(cs: seq<Chunk>)
    requires cs != [] && cs[0].used && cs[0].size > 0
    ensures FreeSum(cs) < Sum(cs)
  {
    FreeAtMost(cs[1..]);
  }
}
