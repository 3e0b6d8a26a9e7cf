/** The allocator of stdlib/malloc_dl.c. Addresses and sizes of memory are in 8-byte words; 0 is the null pointer. */
module Malloc {
  import opened Chunks
  import opened Store
  import Bins
  import Classes = SizeClass

  const ADDRESSES: nat := 0x1000_0000_0000   // the words a canonical user address can name
  const RELEASED: nat := 8
  const RETAIN_MAX: nat := 64
  const RETAIN_BYTES: int := 16 * 1024 * 1024

  /** The bytes that free chunks offer. */
  ghost function Spare(m: map<nat, nat>): int
    decreases |m|
  {
    if m == map[] then 0 else var a :| a in m; 8 * m[a] - 8 * OVERHEAD + Spare(m - {a})
  }

  lemma {:induction false} SpareLess(m: map<nat, nat>, a: nat)
    requires a in m
    ensures Spare(m) == 8 * m[a] - 8 * OVERHEAD + Spare(m - {a})
    decreases |m|
  {
    var b :| b in m && Spare(m) == 8 * m[b] - 8 * OVERHEAD + Spare(m - {b});
    if b != a {
      SpareLess(m - {b}, a);
      SpareLess(m - {a}, b);
      assert m - {b} - {a} == m - {a} - {b};
    }
  }

  lemma SpareMore(m: map<nat, nat>, a: nat, size: nat)
    requires a !in m
    ensures Spare(m[a := size]) == Spare(m) + 8 * size - 8 * OVERHEAD
  {
    SpareLess(m[a := size], a);
    assert m[a := size] - {a} == m;
  }

  /** A heap handed back to the kernel: where it was, and its words; none if that is 0. */
  datatype Region = Region(base: nat, size: nat)

  predicate Overlap(r: Region, base: nat, size: nat) {
    r.size != 0 && base < r.base + r.size && r.base < base + size
  }

  // ----- Kept heaps -----

  /** The bytes of some heaps. */
  function Bytes(rs: seq<nat>, sizes: map<nat, nat>): int {
    if rs == [] then 0 else (if rs[0] in sizes then 8 * sizes[rs[0]] else 0) + Bytes(rs[1..], sizes)
  }

  function Sizes(heaps: map<nat, Heap>): map<nat, nat> {
    map b | b in heaps :: heaps[b].size
  }

  lemma {:induction false} BytesAppend(x: seq<nat>, y: seq<nat>, sizes: map<nat, nat>)
    ensures Bytes(x + y, sizes) == Bytes(x, sizes) + Bytes(y, sizes)
  {
    if x == [] {
      assert x + y == y;
    } else {
      BytesAppend(x[1..], y, sizes);
      assert (x + y)[1..] == x[1..] + y;
    }
  }

  lemma BytesWithout(rs: seq<nat>, i: nat, sizes: map<nat, nat>)
    requires i < |rs| && rs[i] in sizes
    ensures Bytes(rs[..i] + rs[i + 1..], sizes) == Bytes(rs, sizes) - 8 * sizes[rs[i]]
  {
    BytesAppend(rs[..i], rs[i + 1..], sizes);
    BytesAppend(rs[..i], rs[i..], sizes);
    assert rs[..i] + rs[i..] == rs && rs[i..][1..] == rs[i + 1..];
  }

  lemma {:induction false} BytesFrame(rs: seq<nat>, sizes: map<nat, nat>, sizes': map<nat, nat>)
    requires forall i :: 0 <= i < |rs| ==> rs[i] in sizes && rs[i] in sizes' && sizes'[rs[i]] == sizes[rs[i]]
    ensures Bytes(rs, sizes') == Bytes(rs, sizes)
  {
    if rs != [] {
      forall i | 0 <= i < |rs[1..]|
        ensures rs[1..][i] == rs[i + 1]
      {
      }
      BytesFrame(rs[1..], sizes, sizes');
    }
  }

  /** The list without one of its heaps. */
  function Without(rs: seq<nat>, b: nat): seq<nat> {
    if rs == [] then [] else (if rs[0] == b then [] else [rs[0]]) + Without(rs[1..], b)
  }

  lemma {:induction false} WithoutNone(rs: seq<nat>, b: nat)
    requires b !in rs
    ensures Without(rs, b) == rs
  {
    if rs != [] {
      WithoutNone(rs[1..], b);
    }
  }

  lemma {:induction false} WithoutAt(rs: seq<nat>, i: nat)
    requires i < |rs| && forall j, k :: 0 <= j < k < |rs| ==> rs[j] != rs[k]
    ensures Without(rs, rs[i]) == rs[..i] + rs[i + 1..]
  {
    if i == 0 {
      WithoutNone(rs[1..], rs[0]);
    } else {
      WithoutAt(rs[1..], i - 1);
      assert rs[..i] + rs[i + 1..] == [rs[0]] + (rs[1..][..i - 1] + rs[1..][i..]);
    }
  }

  /** A heap that is one free chunk. */
  predicate AllFree(h: Heap) {
    h.size >= HEAP_HEADER && h.cs == [Chunk(h.size - HEAP_HEADER, false)]
  }

  /** The kept heaps are different heaps without a block in use, and within the limits. */
  ghost predicate RetainedOk(rs: seq<nat>, bytes: int, heaps: map<nat, Heap>) {
    && |rs| <= RETAIN_MAX && bytes == Bytes(rs, Sizes(heaps)) <= RETAIN_BYTES
    && (forall i :: 0 <= i < |rs| ==> rs[i] in heaps && AllFree(heaps[rs[i]]))
    && (forall i, j :: 0 <= i < j < |rs| ==> rs[i] != rs[j])
  }

  /** All heaps are in the window from `lo` to `hi`, and none is in the list of those handed back. */
  ghost predicate WindowIs(rs: seq<Region>, lo: nat, hi: nat, hs: map<nat, Heap>, free: map<nat, nat>) {
    && |rs| == RELEASED
    && (forall c :: c in hs ==> 0 < lo <= c && c + hs[c].size <= hi)
    && (forall a :: a in free ==> lo <= a < hi)
    && (forall c, i :: c in hs && 0 <= i < RELEASED ==> !Overlap(rs[i], c, hs[c].size))
  }

  class Malloc {
    const bins: Bins.Bins
    var mem: seq<int>
    var freesz: int              // bytes that free chunks offer
    var mapsz: int               // bytes mapped
    var heapLo: nat              // the window of all heaps there have been
    var heapHi: nat
    var released: seq<Region>    // the last heaps handed back
    var relIdx: nat
    var maxalloc: int            // the largest block ever handed out, in bytes
    var retained: seq<nat>       // heaps without a block in use that are not given back, the first kept first
    var retainedsz: int          // their bytes
    ghost var heaps: map<nat, Heap>
    ghost var live: map<nat, nat>

    constructor (words: nat)
      requires words <= ADDRESSES
      ensures Valid() && RetainedOk(retained, retainedsz, heaps) && heaps == map[] && live == map[] && |mem| == words
      ensures fresh(bins) && fresh(bins.links) && forall i :: 0 <= i < |bins.lbins| ==> fresh(bins.lbins[i])
    {
      bins := new Bins.Bins(words);
      mem := seq(words, _ => 0);
      freesz, mapsz, heapLo, heapHi, relIdx := 0, 0, 0, 0, 0;
      maxalloc, retained, retainedsz := 0, [], 0;
      released := seq(RELEASED, _ => Region(0, 0));
      heaps, live := map[], map[];
    }

    ghost function State(): Store
      reads this, bins
    {
      Store(mem, heaps, bins.free, live)
    }

    /** The free chunks are indexed and counted. */
    ghost predicate Counted()
      reads `mem, `freesz, bins, bins.links, bins.lbins
    {
      bins.Valid() && |bins.links.next| == |mem| <= ADDRESSES && freesz == Spare(bins.free)
    }

    ghost predicate Windowed(hs: map<nat, Heap>, free: map<nat, nat>)
      reads `heapLo, `heapHi, `released
    {
      WindowIs(released, heapLo, heapHi, hs, free)
    }

    /** Everything but the chunks of the heap at `b`. */
    ghost predicate Sound(b: nat)
      reads this, bins, bins.links, bins.lbins
    {
      Counted() && Windowed(heaps, bins.free) && OkElse(State(), b)
    }

    lemma WindowedStill(hs: map<nat, Heap>, hs': map<nat, Heap>, free: map<nat, nat>, free': map<nat, nat>)
      requires Windowed(hs, free) && hs'.Keys == hs.Keys && forall c :: c in hs ==> hs'[c].size == hs[c].size
      requires forall a :: a in free' ==> a in free || heapLo <= a < heapHi
      ensures Windowed(hs', free')
    {
    }

    lemma WindowedFree()
      requires Windowed(heaps, bins.free)
      ensures forall a :: a in bins.free ==> heapLo <= a < heapHi
    {
    }

    predicate HeapSizeValid(heap: nat)
      reads this
    {
      && heap != 0 && heap % PAGE == 0 && (heapHi != 0 ==> heapLo <= heap < heapHi)
      && heap < |mem| && mem[heap] >= 8 * HEAP_HEADER && mem[heap] % (8 * PAGE) == 0
      && (heapHi != 0 ==> heap + mem[heap] / 8 <= heapHi)
    }

    predicate WasReleased(chunk: nat)
      reads this
    {
      exists i :: 0 <= i < |released| && released[i].size != 0
        && released[i].base <= chunk < released[i].base + released[i].size
    }

    /** Which test a chunk header fails; 0 if it passes all. */
    function ChunkValidWhy(chunk: nat, heap: nat): nat
      reads this
    {
      if chunk == 0 || chunk >= ADDRESSES then 1
      else if WasReleased(chunk) then 2
      else if heap == 0 || heap % PAGE != 0 then 3
      else if heapHi != 0 && !(heapLo <= heap < heapHi) then 4
      else if !HeapSizeValid(heap) then 5
      else if chunk < heap + HEAP_HEADER || chunk >= heap + mem[heap] / 8 then 6
      else if chunk >= |mem| || SizeOf(mem[chunk]) < MIN_SIZE then 7
      else if chunk + SizeOf(mem[chunk]) > heap + mem[heap] / 8 then 8
      else 0
    }

    /** Whether an address is inside the window of heaps. */
    predicate ChunkInWindow(p: nat)
      reads this
    {
      heapHi != 0 && heapLo <= p < heapHi
    }

    predicate LinkPlausible(chunk: nat, link: nat)
      reads this
    {
      link == 0 || link == chunk || heapHi == 0 || heapLo <= link < heapHi
    }

    /** A chunk of a heap passes all the tests. */
    lemma ChunkIsValid(b: nat, pre: seq<Chunk>, c: Chunk, post: seq<Chunk>)
      requires Sound(b) && b in heaps && heaps[b].cs == pre + [c] + post
      requires var a := First(b) + Sum(pre); a < |mem| && SizeOf(mem[a]) == c.size
      ensures ChunkValidWhy(First(b) + Sum(pre), b) == 0 && HeapSizeValid(b)
    {
      hide Tiled, Indexed, Apart, Blocks, Sum, FreeSum, Spare, Shaped, Sized, WasReleased, HeapSizeValid, Bins.Bins.Valid;
      var h := heaps[b];
      assert Shaped(mem, b, h);
      InHeap(mem, b, h, pre, c, post);
      NotReleased(b, First(b) + Sum(pre));
      HeapIsValid(b, h);
    }

    /** A chunk is behind the header of its heap and inside the heap. */
    static lemma InHeap(m: seq<int>, b: nat, h: Heap, pre: seq<Chunk>, c: Chunk, post: seq<Chunk>)
      requires Shaped(m, b, h) && h.cs == pre + [c] + post
      ensures c.size >= MIN_SIZE && First(b) + Sum(pre) + c.size <= b + h.size && b % PAGE == 0 && b > 0
    {
      hide Sum, FreeSum;
      SizedThree(pre, [c], post);
      Single(0, c);
      assert c in h.cs;
    }

    lemma HeapIsValid(b: nat, h: Heap)
      requires Windowed(heaps, bins.free) && b in heaps && heaps[b] == h && Shaped(mem, b, h)
      ensures HeapSizeValid(b) && mem[b] / 8 == h.size && (heapHi != 0 ==> heapLo <= b < heapHi)
    {
      hide Sum, Sized;
    }

    /** No address inside a heap is in a region handed back. */
    lemma NotReleased(b: nat, a: nat)
      requires WindowIs(released, heapLo, heapHi, heaps, bins.free) && b in heaps && b <= a < b + heaps[b].size
      ensures !WasReleased(a)
    {
      forall i | 0 <= i < RELEASED
        ensures !(released[i].size != 0 && released[i].base <= a < released[i].base + released[i].size)
      {
        assert !Overlap(released[i], b, heaps[b].size);
      }
    }

    // ----- Chunks and their neighbours -----

    predicate IsFirst(chunk: nat)
      requires chunk + 1 < |mem|
      reads this
    {
      mem[chunk + 1] + HEAP_HEADER == chunk
    }

    /** Nothing fits behind the chunk in the heap. */
    predicate IsLastIn(chunk: nat, heap: nat)
      requires chunk < |mem|
      reads this
    {
      !HeapSizeValid(heap) || chunk + SizeOf(mem[chunk]) + MIN_SIZE > heap + mem[heap] / 8
    }

    /** The chunk before a chunk that has not the flag PUSED, by its footer. */
    function ChunkPrev(chunk: nat): int
      requires 0 < chunk < |mem|
      reads this
    {
      if Pused(mem[chunk]) || mem[chunk - 1] / 8 == 0 then 0 else chunk - mem[chunk - 1] / 8
    }

    method SetFooter(chunk: nat)
      requires chunk < |mem| && 0 < SizeOf(mem[chunk]) && chunk + SizeOf(mem[chunk]) <= |mem|
      modifies `mem
      ensures mem == old(mem[chunk + SizeOf(mem[chunk]) - 1 := 8 * SizeOf(mem[chunk])])
    {
      var size := SizeOf(mem[chunk]);
      mem := mem[chunk + size - 1 := 8 * size];
    }

    method ChunkAdd(chunk: nat)
      requires bins.Valid() && |bins.links.next| == |mem| && 0 < chunk < |mem| && chunk !in bins.free
      requires 0 <= SizeOf(mem[chunk]) <= |mem| && freesz == Spare(bins.free)
      modifies `freesz, bins, bins.links, bins.lbins
      ensures bins.Valid() && |bins.links.next| == |mem|
      ensures bins.free == old(bins.free)[chunk := SizeOf(mem[chunk])] && freesz == Spare(bins.free)
    {
      var size := SizeOf(mem[chunk]);
      freesz := freesz + 8 * size - 8 * OVERHEAD;
      SpareMore(bins.free, chunk, size);
      bins.Add(chunk, size);
    }

    /** Takes a chunk out of its bin; were one of its links no plausible chunk, it would not. */
    method ChunkRemove(chunk: nat) returns (removed: bool)
      requires bins.Valid() && |bins.links.next| == |mem| && chunk < |mem| && chunk in bins.free
      requires SizeOf(mem[chunk]) == bins.free[chunk] && freesz == Spare(bins.free)
      requires forall a :: a in bins.free ==> heapLo <= a < heapHi
      modifies `freesz, bins, bins.links, bins.lbins
      ensures removed
      ensures bins.Valid() && |bins.links.next| == |mem|
      ensures bins.free == old(bins.free) - {chunk} && freesz == Spare(bins.free)
    {
      hide Bins.Bins.Valid, Spare;
      bins.Neighbours(chunk);
      removed := LinkPlausible(chunk, bins.links.next[chunk]) && LinkPlausible(chunk, bins.links.prev[chunk]);
      var size := SizeOf(mem[chunk]);
      bins.Abandon(size, removed);
      if !removed {
        return;
      }
      freesz := freesz - (8 * size - 8 * OVERHEAD);
      SpareLess(bins.free, chunk);
      removed := bins.Remove(chunk, size);
    }

    /** The first of two free chunks grows by the size of the second, and moves to the bin of its new size. */
    method Absorb(first: nat, second: nat)
      requires Counted() && first in bins.free && second in bins.free && first != second && 0 < first
      requires forall a :: a in bins.free ==> heapLo <= a < heapHi
      requires first < |mem| && second < |mem| && SizeOf(mem[first]) + SizeOf(mem[second]) <= |mem|
      requires SizeOf(mem[first]) == bins.free[first] && SizeOf(mem[second]) == bins.free[second]
      modifies `mem, `freesz, bins, bins.links, bins.lbins
      ensures Counted() && mem == old(mem[first := mem[first] + 8 * SizeOf(mem[second])])
      ensures bins.free == old((bins.free - {first, second})[first := SizeOf(mem[first]) + SizeOf(mem[second])])
    {
      hide Spare, Bins.Bins.Valid, SizeOf;
      SizePlus(mem[first], SizeOf(mem[second]));
      var removed := ChunkRemove(first);
      removed := ChunkRemove(second);
      mem := mem[first := mem[first] + 8 * SizeOf(mem[second])];
      ChunkAdd(first);
    }

    /** A chunk and the one after it, both free, become one, in the bin of its new size. */
    method Merge(first: nat, second: nat, ghost b: nat, ghost pre: seq<Chunk>, ghost d: Chunk, ghost c: Chunk,
                 ghost post: seq<Chunk>, ghost flag: bool)
      requires Sound(b) && b in heaps && heaps[b].cs == pre + [d, c] + post && !d.used && !c.used
      requires first == First(b) + Sum(pre) && second == first + d.size && second + c.size <= |mem|
      requires Tiled(mem, b, First(b), pre, true) && Tiled(mem, b, second + c.size, post, flag)
      requires d.size > 1 && c.size > 1 && mem[first] == Header(d, LastUsed(pre, true)) && mem[first + 1] == b
      requires SizeOf(mem[second]) == c.size
      modifies `mem, `freesz, `heaps, bins, bins.links, bins.lbins
      ensures Sound(b) && Focused(State(), b, pre, Chunk(d.size + c.size, false), post, flag, false)
      ensures heaps == old(heaps)[b := Heap(old(heaps[b].size), pre + [Chunk(d.size + c.size, false)] + post)]
      ensures FreeSum(heaps[b].cs) == old(FreeSum(heaps[b].cs)) && live == old(live)
      ensures SameBut(old(mem), mem, first, first + d.size + c.size)
    {
      hide Sized, Tiled, OkElse, RangeHolds, Blocks, Sum, FreeSum, Focused, Spare, Bins.Bins.Valid;
      ghost var st := State();
      WindowedFree();
      hide Windowed;
      MidHolds(st, b, pre, [d, c], post);
      TwoIndexed(bins.free, first, d, c, false);
      HeaderParts(d, LastUsed(pre, true));
      Absorb(first, second);
      HeaderParts(Chunk(d.size + c.size, false), LastUsed(pre, true));
      heaps := heaps[b := Heap(heaps[b].size, pre + [Chunk(d.size + c.size, false)] + post)];
      Merged(st, State(), b, pre, d, c, post, flag);
      WindowedStill(st.heaps, heaps, st.free, bins.free);
    }

    /** The free chunk at `a`, between the chunks `pre` and `post` of the heap at `b`, while neighbours are joined to it. */
    ghost predicate Joining(b: nat, pre: seq<Chunk>, c: Chunk, post: seq<Chunk>, flag: bool, foot: bool, a: nat)
      reads this, bins, bins.links, bins.lbins
    {
      Sound(b) && Focused(State(), b, pre, c, post, flag, foot) && !c.used && a == First(b) + Sum(pre)
    }

    /** What the words before and after a chunk say. */
    lemma Neighbourhood(b: nat, pre: seq<Chunk>, c: Chunk, post: seq<Chunk>, flag: bool, foot: bool)
      requires Sound(b) && Focused(State(), b, pre, c, post, flag, foot)
      ensures var a := First(b) + Sum(pre);
        && 0 < a && a + c.size <= |mem| && c.size >= MIN_SIZE && mem[a + 1] == b && mem[a] == Header(c, LastUsed(pre, true))
        && SizeOf(mem[a]) == c.size && (Pused(mem[a]) <==> LastUsed(pre, true)) && (Cused(mem[a]) <==> c.used)
        && HeapSizeValid(b) && ChunkValidWhy(a, b) == 0
        && (IsFirst(a) <==> pre == []) && (IsLastIn(a, b) <==> post == [])
    {
      hide OkElse, Windowed, Counted, Tiled, Sized, Sum, FreeSum, ChunkValidWhy, WasReleased;
      var a := First(b) + Sum(pre);
      HeaderParts(c, LastUsed(pre, true));
      ChunkIsValid(b, pre, c, post);
      HeapParts(State(), b);
      SizedThree(pre, [c], post);
      OneBlock(a, c);
      SizedSum(pre);
      SizedSum(post);
    }

    /** The last of some chunks. */
    lemma TiledLast(m: seq<int>, b: nat, a: nat, pre: seq<Chunk>)
      requires Tiled(m, b, a, pre, true) && pre != []
      ensures var front, d := pre[..|pre| - 1], pre[|pre| - 1];
        && Sum(pre) == Sum(front) + d.size && Tiled(m, b, a, front, true) && Stands(m, b, a + Sum(front), d, LastUsed(front, true))
    {
      hide Stands;
      var front, d := pre[..|pre| - 1], pre[|pre| - 1];
      assert pre == front + [d];
      SumAppend(front, [d]);
      OneBlock(0, d);
      TiledAppend(m, b, a, front, [d], true);
    }

    /** The chunk before a free chunk, if that is free too. */
    lemma Previous(b: nat, pre: seq<Chunk>, c: Chunk, post: seq<Chunk>, flag: bool, foot: bool, a: nat)
      requires Joining(b, pre, c, post, flag, foot, a) && pre != [] && !LastUsed(pre, true)
      ensures var front, d := pre[..|pre| - 1], pre[|pre| - 1];
        && pre == front + [d] && heaps[b].cs == front + [d, c] + post && !d.used && d.size >= MIN_SIZE
        && Sum(pre) == Sum(front) + d.size && ChunkPrev(a) == First(b) + Sum(front)
        && Tiled(mem, b, First(b), front, true) && mem[First(b) + Sum(front)] == Header(d, LastUsed(front, true))
        && mem[First(b) + Sum(front) + 1] == b && ChunkValidWhy(First(b) + Sum(front), b) == 0
        && Tiled(mem, b, a + c.size, post, flag) && a + c.size <= |mem| && c.size >= MIN_SIZE && SizeOf(mem[a]) == c.size
    {
      hide OkElse, Windowed, Counted, Sized, FreeSum, ChunkValidWhy, WasReleased, Tiled, Sum;
      var front, d := pre[..|pre| - 1], pre[|pre| - 1];
      assert pre == front + [d];
      Neighbourhood(b, pre, c, post, flag, foot);
      assert front + [d] + [c] + post == front + [d, c] + post;
      assert front + [d] + [c] + post == front + [d] + ([c] + post);
      TiledLast(mem, b, First(b), pre);
      HeaderParts(d, LastUsed(front, true));
      ChunkIsValid(b, front, d, [c] + post);
    }

    /** The chunk after a chunk. */
    lemma Following(b: nat, pre: seq<Chunk>, c: Chunk, post: seq<Chunk>, flag: bool, foot: bool, a: nat)
      requires Sound(b) && Focused(State(), b, pre, c, post, flag, foot) && a == First(b) + Sum(pre) && post != []
      ensures var d, back := post[0], post[1..];
        && post == [d] + back && heaps[b].cs == pre + [c, d] + back && d.size >= MIN_SIZE
        && a + c.size + d.size <= |mem| && Tiled(mem, b, First(b), pre, true)
        && mem[a + c.size] == Header(d, flag) && SizeOf(mem[a + c.size]) == d.size && (Cused(mem[a + c.size]) <==> d.used)
        && (Pused(mem[a + c.size]) <==> flag) && mem[a + c.size + 1] == b
        && ChunkValidWhy(a + c.size, b) == 0 && Tiled(mem, b, a + c.size + d.size, back, d.used)
    {
      hide OkElse, Windowed, Counted, Sized, FreeSum, ChunkValidWhy, WasReleased;
      var d, back := post[0], post[1..];
      assert post == [d] + back;
      Neighbourhood(b, pre, c, post, flag, foot);
      assert pre + [c] + post == pre + [c, d] + back;
      assert pre + [c] + post == (pre + [c]) + [d] + back;
      SumAppend(pre, [c]);
      OneBlock(0, c);
      assert Stands(mem, b, a + c.size, d, flag);
      HeaderParts(d, flag);
      ChunkIsValid(b, pre + [c], d, back);
    }

    /** Joins a free chunk with the free chunks before it. */
    method JoinPrevious(chunk: nat, ghost b: nat, ghost pre0: seq<Chunk>, ghost c0: Chunk, ghost post: seq<Chunk>, ghost flag: bool)
      returns (it: nat, ghost pre: seq<Chunk>, ghost c: Chunk)
      requires Joining(b, pre0, c0, post, flag, false, chunk) && Coalesced(pre0)
      modifies `mem, `freesz, `heaps, bins, bins.links, bins.lbins
      ensures Joining(b, pre, c, post, flag, false, it) && Coalesced(pre) && (pre != [] ==> LastUsed(pre, true))
      ensures heaps == old(heaps)[b := Heap(old(heaps[b].size), pre + [c] + post)]
      ensures FreeSum(heaps[b].cs) == old(FreeSum(heaps[b].cs)) && live == old(live)
      ensures SameBut(old(mem), mem, it, it + c.size) && it <= chunk && chunk + c0.size <= it + c.size
      ensures LastUsed(pre0, true) ==> it == chunk && pre == pre0
    {
      hide Sound, Parts, Sized, Tiled, Sum, FreeSum, Header, SizeOf, Cused, Pused, HeapSizeValid, ChunkValidWhy, IsFirst,
           IsLastIn, ChunkPrev;
      it, pre, c := chunk, pre0, c0;
      Neighbourhood(b, pre, c, post, flag, false);
      var heap := mem[chunk + 1];
      assert heaps == heaps[b := Heap(heaps[b].size, heaps[b].cs)];
      while !IsFirst(it) && !Pused(mem[it])
        invariant Joining(b, pre, c, post, flag, false, it) && Coalesced(pre)
        invariant heap == b && it + 1 < |mem| && (IsFirst(it) <==> pre == []) && (Pused(mem[it]) <==> LastUsed(pre, true))
        invariant heaps == old(heaps)[b := Heap(old(heaps[b].size), pre + [c] + post)]
        invariant FreeSum(heaps[b].cs) == old(FreeSum(heaps[b].cs)) && live == old(live)
        invariant SameBut(old(mem), mem, it, it + c.size) && it <= chunk && chunk + c0.size <= it + c.size
        invariant LastUsed(pre0, true) ==> it == chunk && pre == pre0
        decreases |pre|
      {
        Previous(b, pre, c, post, flag, false, it);
        var sibling := ChunkPrev(it);
        if sibling == 0 || ChunkValidWhy(sibling, heap) != 0 {
          break;
        }
        ghost var front, d := pre[..|pre| - 1], pre[|pre| - 1];
        Merge(sibling, it, b, front, d, c, post, flag);
        it, pre, c := sibling, front, Chunk(d.size + c.size, false);
        Neighbourhood(b, pre, c, post, flag, false);
      }
    }

    /** Joins a free chunk with the free chunks after it, in the heap that holds it. */
    method JoinFollowing(it: nat, heap: nat, ghost b: nat, ghost pre: seq<Chunk>, ghost c0: Chunk, ghost post0: seq<Chunk>,
                         ghost flag0: bool)
      returns (ghost c: Chunk, ghost post: seq<Chunk>, ghost flag: bool)
      requires Joining(b, pre, c0, post0, flag0, false, it) && Coalesced(post0) && heap == b
      modifies `mem, `freesz, `heaps, bins, bins.links, bins.lbins
      ensures Joining(b, pre, c, post, flag, false, it) && Coalesced(post) && (post != [] ==> post[0].used)
      ensures (flag == flag0 && post == post0) || !flag
      ensures heaps == old(heaps)[b := Heap(old(heaps[b].size), pre + [c] + post)]
      ensures FreeSum(heaps[b].cs) == old(FreeSum(heaps[b].cs)) && live == old(live)
      ensures SameBut(old(mem), mem, it, it + c.size) && c0.size <= c.size
    {
      hide Sound, Parts, Sized, Tiled, Sum, FreeSum, Header, SizeOf, Cused, Pused, HeapSizeValid, ChunkValidWhy, IsFirst,
           IsLastIn, ChunkPrev;
      c, post, flag := c0, post0, flag0;
      Neighbourhood(b, pre, c, post, flag, false);
      assert heaps == heaps[b := Heap(heaps[b].size, heaps[b].cs)];
      while !IsLastIn(it, heap)
        invariant Joining(b, pre, c, post, flag, false, it) && Coalesced(post)
        invariant it + 1 < |mem| && (IsLastIn(it, b) <==> post == []) && SizeOf(mem[it]) == c.size
        invariant heaps == old(heaps)[b := Heap(old(heaps[b].size), pre + [c] + post)]
        invariant FreeSum(heaps[b].cs) == old(FreeSum(heaps[b].cs)) && live == old(live)
        invariant (flag == flag0 && post == post0) || !flag
        invariant SameBut(old(mem), mem, it, it + c.size) && c0.size <= c.size
        decreases |post|
      {
        Following(b, pre, c, post, flag, false, it);
        var sibling := it + SizeOf(mem[it]);
        if ChunkValidWhy(sibling, heap) != 0 {
          break;
        }
        if Cused(mem[sibling]) {
          break;
        }
        ghost var d, back := post[0], post[1..];
        Neighbourhood(b, pre, c, post, flag, false);
        Merge(it, sibling, b, pre, c, d, back, false);
        c, post, flag := Chunk(c.size + d.size, false), back, false;
        Neighbourhood(b, pre, c, post, flag, false);
      }
    }

    /** Joins a free chunk with the free chunks before and after it. */
    method Join(chunk: nat, ghost b: nat, ghost pre0: seq<Chunk>, ghost c0: Chunk, ghost post0: seq<Chunk>, ghost flag0: bool)
      returns (it: nat, ghost pre: seq<Chunk>, ghost c: Chunk, ghost post: seq<Chunk>, ghost flag: bool)
      requires Joining(b, pre0, c0, post0, flag0, false, chunk) && Coalesced(pre0) && Coalesced(post0)
      modifies `mem, `freesz, `heaps, bins, bins.links, bins.lbins
      ensures Joining(b, pre, c, post, flag, true, it) && Coalesced(pre + [c] + post)
      ensures (flag == flag0 && post == post0) || !flag
      ensures heaps == old(heaps)[b := Heap(old(heaps[b].size), pre + [c] + post)]
      ensures FreeSum(heaps[b].cs) == old(FreeSum(heaps[b].cs)) && live == old(live)
      ensures SameBut(old(mem), mem, it, it + c.size) && it <= chunk && chunk + c0.size <= it + c.size
      ensures LastUsed(pre0, true) ==> it == chunk && pre == pre0
    {
      hide Parts, Sized, Tiled, Sum, FreeSum, Header, SizeOf, HeapSizeValid, ChunkValidWhy, IsFirst, IsLastIn, OkElse,
           Windowed, Bins.Bins.Valid;
      Neighbourhood(b, pre0, c0, post0, flag0, false);
      var heap := mem[chunk + 1];
      it, pre, c := JoinPrevious(chunk, b, pre0, c0, post0, flag0);
      c, post, flag := JoinFollowing(it, heap, b, pre, c, post0, flag0);
      Neighbourhood(b, pre, c, post, flag, false);
      ghost var st := State();
      SetFooter(it);
      FooterWritten(st, State(), b, pre, c, post, flag);
      CoalescedAround(pre, c, post);
    }

    // ----- Whole heaps -----

    /** The other heaps are coalesced, and count their free bytes. */
    ghost predicate Tidy(b: nat)
      reads `mem, `heaps
    {
      TidyIn(mem, heaps, b)
    }

    ghost predicate Valid()
      reads this, bins, bins.links, bins.lbins
    {
      Sound(0) && Tidy(0) && forall b :: b in heaps ==> Tiled(mem, b, First(b), heaps[b].cs, true)
    }

    lemma InWindow(b: nat, a: nat)
      requires Windowed(heaps, bins.free) && b in heaps && b <= a < b + heaps[b].size
      ensures heapLo <= a < heapHi
    {
    }

    /** The heap of a block in use, split at the block. */
    lemma FindLive(a: nat) returns (b: nat, pre: seq<Chunk>, c: Chunk, post: seq<Chunk>)
      requires Valid() && a in live
      ensures c == Chunk(live[a], true) && Sound(b) && Tidy(b) && Focused(State(), b, pre, c, post, true, true)
      ensures a == First(b) + Sum(pre) && a + 1 < |mem| && mem[a + 1] == b && b + 1 < |mem| && b > 0
      ensures Coalesced(pre) && Coalesced(post) && mem[b + 1] == 8 * FreeSum(heaps[b].cs)
    {
      hide Tiled, Sum, FreeSum, Sized, Windowed, Bins.Bins.Valid, Spare, Parts;
      b, pre, c, post := Find(State(), live, true, a);
      HeapParts(State(), b);
      CoalescedParts(pre, [c], post);
    }

    /** A heap coalesced and counted again. */
    lemma Settle(b: nat, pre: seq<Chunk>, c: Chunk, post: seq<Chunk>)
      requires Sound(b) && Tidy(b) && Focused(State(), b, pre, c, post, c.used, true) && Coalesced(pre + [c] + post)
      requires b + 1 < |mem| && mem[b + 1] == 8 * FreeSum(heaps[b].cs) && b > 0
      ensures Valid()
    {
      OkFocus(State(), b, pre, c, post);
    }

    /** Sets or clears the flag PUSED of the next chunk, if there is one. */
    method FlagNext(chunk: nat, flag: bool, ghost b: nat, ghost pre: seq<Chunk>, ghost c: Chunk, ghost post: seq<Chunk>,
                    ghost flag0: bool, ghost foot: bool)
      requires Parts(mem, b, pre, c, post, flag0, foot) && chunk == First(b) + Sum(pre)
      requires IsLastIn(chunk, b) <==> post == []
      modifies `mem
      ensures mem == FlagWritten(old(mem), chunk + c.size, post, flag) && Parts(mem, b, pre, c, post, flag, foot)
    {
      FlagParts(mem, b, pre, c, post, flag0, flag, foot);
      HeaderParts(c, LastUsed(pre, true));
      var heap := mem[chunk + 1];
      if !IsLastIn(chunk, heap) {
        var next := chunk + SizeOf(mem[chunk]);
        NextHeader(mem, b, next, post, flag0);
        mem := mem[next := mem[next] - mem[next] % 2 + if flag then 1 else 0];
      }
    }

    lemma NextHeader(m: seq<int>, b: nat, a: nat, post: seq<Chunk>, flag: bool)
      requires Tiled(m, b, a, post, flag) && post != []
      ensures a < |m| && m[a] == Header(post[0], flag) && forall f: bool :: m[a] - m[a] % 2 + (if f then 1 else 0) == Header(post[0], f)
    {
      assert Stands(m, b, a, post[0], flag);
      hide Tiled, Stands;
      FlagBit(post[0], flag);
    }

    lemma FlagBit(c: Chunk, flag: bool)
      ensures Header(c, flag) % 2 == if flag then 1 else 0
    {
      HeaderParts(c, flag);
    }

    lemma HeaderUnused(c: Chunk, pused: bool)
      requires c.used
      ensures Header(Chunk(c.size, false), pused) == Header(c, pused) - 2
    {
    }

    /** The words that make a chunk in use a free one. */
    method Unmark(chunk: nat, ghost b: nat, ghost pre: seq<Chunk>, ghost c: Chunk, ghost post: seq<Chunk>)
      requires Parts(mem, b, pre, c, post, true, true) && c.used && chunk == First(b) + Sum(pre) && b + 1 < |mem|
      requires IsLastIn(chunk, b) <==> post == []
      modifies `mem
      ensures Parts(mem, b, pre, Chunk(c.size, false), post, false, true)
      ensures |mem| == |old(mem)| && mem[b + 1] == old(mem)[b + 1] + 8 * c.size
      ensures Rest(old(mem), mem, b + 1, chunk, chunk + c.size + if post == [] then 0 else 1)
    {
      hide Tiled, Sum, Sized, SizeOf, Header;
      ghost var m, e := mem, Chunk(c.size, false);
      HeaderParts(c, LastUsed(pre, true));
      HeaderParts(e, LastUsed(pre, true));
      HeaderUnused(c, LastUsed(pre, true));
      var heap := mem[chunk + 1];
      mem := mem[chunk := mem[chunk] - 2];
      SetFooter(chunk);
      HeaderWritten(m, mem, b, pre, c, e, post, true, true);
      FlagNext(chunk, false, b, pre, e, post, true, true);
      HeapWordParts(mem, b, mem[heap + 1] + 8 * SizeOf(mem[chunk]), pre, e, post, false, true);
      mem := mem[heap + 1 := mem[heap + 1] + 8 * SizeOf(mem[chunk])];
    }

    /** A block in use becomes a free chunk: its words, the next chunk's flag, the count, and its bin. */
    method Unuse(chunk: nat, ghost b: nat, ghost pre: seq<Chunk>, ghost c: Chunk, ghost post: seq<Chunk>)
      requires Sound(b) && Tidy(b) && Focused(State(), b, pre, c, post, true, true) && c.used && chunk == First(b) + Sum(pre)
      requires b + 1 < |mem| && mem[b + 1] == 8 * FreeSum(heaps[b].cs) && b > 0
      modifies `mem, `freesz, `heaps, `live, bins, bins.links, bins.lbins
      ensures Sound(b) && Tidy(b) && Focused(State(), b, pre, Chunk(c.size, false), post, false, true)
      ensures heaps == old(heaps)[b := Heap(old(heaps[b].size), pre + [Chunk(c.size, false)] + post)]
      ensures live == old(live) - {chunk} && b + 1 < |mem| && mem[b + 1] == 8 * FreeSum(heaps[b].cs)
      ensures Rest(old(mem), mem, b + 1, chunk, chunk + c.size + 1)
    {
      hide Tiled, Sized, OkElse, RangeHolds, SameOutside, Blocks, Sum, FreeSum, Spare, Bins.Bins.Valid, Windowed, TidyIn, Parts,
           SizeOf, Header, HeapSizeValid, IsLastIn, Focused;
      ghost var st, e := State(), Chunk(c.size, false);
      OnePlace(st, b, pre, c, post, true, true);
      InWindow(b, chunk);
      Neighbourhood(b, pre, c, post, true, true);
      Unmark(chunk, b, pre, c, post);
      PartsHeader(mem, b, pre, e, post, false, true);
      ChunkAdd(chunk);
      heaps := heaps[b := Heap(heaps[b].size, pre + [e] + post)];
      live := live - {chunk};
      Unused(st, State(), b, pre, c, post);
      WindowedStill(st.heaps, heaps, st.free, bins.free);
    }

    /** A block in use becomes free and is joined with its neighbours. */
    method Return(chunk: nat, ghost b: nat, ghost pre0: seq<Chunk>, ghost c0: Chunk, ghost post0: seq<Chunk>)
      returns (ghost pre: seq<Chunk>, ghost c: Chunk, ghost post: seq<Chunk>)
      requires Sound(b) && Tidy(b) && Focused(State(), b, pre0, c0, post0, true, true) && c0.used && chunk == First(b) + Sum(pre0)
      requires b + 1 < |mem| && mem[b + 1] == 8 * FreeSum(heaps[b].cs) && b > 0 && Coalesced(pre0) && Coalesced(post0)
      modifies `mem, `freesz, `heaps, `live, bins, bins.links, bins.lbins
      ensures Valid() && live == old(live) - {chunk} && Kept(old(mem), mem, live)
      ensures b in heaps && heaps[b].cs == pre + [c] + post && !c.used && Coalesced(heaps[b].cs)
      ensures heaps == old(heaps)[b := Heap(old(heaps[b].size), pre + [c] + post)]
    {
      hide Tiled, Sized, OkElse, Sum, FreeSum, Spare, Bins.Bins.Valid, Windowed, TidyIn, Parts, Blocks, Counted;
      ghost var m := mem;
      Unuse(chunk, b, pre0, c0, post0);
      ghost var st := State();
      ghost var it, flag;
      JoiningUnfooted(b, pre0, Chunk(c0.size, false), post0, false, chunk);
      var i;
      i, pre, c, post, flag := Join(chunk, b, pre0, Chunk(c0.size, false), post0, false);
      it := i;
      AfterJoin(st, State(), b, pre, c, post, flag);
      RestThrough(m, st.mem, mem, b + 1, chunk, chunk + c0.size + 1, it, it + c.size);
      PayloadsKept(st.(mem := m), State(), b, pre, c, post, flag, true);
      OnePlace(State(), b, pre, c, post, flag, true);
      Settle(b, pre, c, post);
    }

    lemma JoiningUnfooted(b: nat, pre: seq<Chunk>, c: Chunk, post: seq<Chunk>, flag: bool, a: nat)
      requires Sound(b) && Focused(State(), b, pre, c, post, flag, true) && !c.used && a == First(b) + Sum(pre)
      ensures Joining(b, pre, c, post, flag, false, a)
    {
    }

    // ----- What is free is what lies between the blocks -----

    /** A free chunk reaches from a block, or the front of its heap, to the next block, or the heap's end. */
    lemma FreeIsGap(a: nat) returns (b: nat)
      requires Valid() && a in bins.free
      ensures b in heaps && First(b) <= a && a + bins.free[a] <= b + heaps[b].size
      ensures a == First(b) || exists x :: x in live && x + live[x] == a
      ensures a + bins.free[a] == b + heaps[b].size || a + bins.free[a] in live
    {
      hide Tiled, Sized, Sum, FreeSum, Spare, Bins.Bins.Valid, WindowIs, TidyIn, Blocks, OkElse, RangeHolds, Parts, Coalesced;
      var pre, c, post;
      b, pre, c, post := FindFree(a);
      OnePlace(State(), b, pre, c, post, false, true);
      HeapParts(State(), b);
      EmptySum();
      if pre != [] {
        var front, d := pre[..|pre| - 1], pre[|pre| - 1];
        assert pre == front + [d] && pre + [c] + post == front + [d] + ([c] + post);
        UsedIsLive(b, front, d, [c] + post);
        AfterOne(front, d);
      }
      if post != [] {
        assert pre + [c] + post == (pre + [c]) + [post[0]] + post[1..];
        UsedIsLive(b, pre + [c], post[0], post[1..]);
        AfterOne(pre, c);
      } else {
        SumAppend(pre, [c]);
        AfterOne(pre, c);
        assert pre + [c] + post == pre + [c];
      }
    }

    lemma UsedIsLive(b: nat, pre: seq<Chunk>, d: Chunk, post: seq<Chunk>)
      requires Valid() && b in heaps && heaps[b].cs == pre + [d] + post && d.used
      ensures var x := First(b) + Sum(pre); x in live && live[x] == d.size
    {
      hide Tiled, Sized, Sum, FreeSum, Spare, Bins.Bins.Valid, WindowIs, TidyIn, Blocks, OkElse, RangeHolds;
      OkFocus(State(), b, pre, d, post);
      MidHolds(State(), b, pre, [d], post);
      OneSizedIs(d);
      OneIndexed(live, First(b) + Sum(pre), d, true);
    }

    /** Every word of a heap behind its header is in a block or in a free chunk. */
    lemma WordOwned(b: nat, w: nat) returns (a: nat)
      requires Valid() && b in heaps && First(b) <= w < b + heaps[b].size
      ensures (a in live && a <= w < a + live[a]) || (a in bins.free && a <= w < a + bins.free[a])
    {
      hide Tiled, Sized, Sum, FreeSum, Spare, Bins.Bins.Valid, WindowIs, TidyIn, Blocks, OkElse, RangeHolds;
      HeapPartsOf(State(), 0, b);
      var cs := heaps[b].cs;
      var i := ChunkAt(cs, w - First(b));
      var pre, c, post := cs[..i], cs[i], cs[i + 1..];
      assert cs == pre + [c] + post;
      OkFocus(State(), b, pre, c, post);
      MidHolds(State(), b, pre, [c], post);
      OneSizedIs(c);
      a := First(b) + Sum(pre);
      OneIndexed(live, a, c, true);
      OneIndexed(bins.free, a, c, false);
    }

    // ----- Keeping free heaps -----

    method HeapUnretainAt(i: nat)
      requires i < |retained| && RetainedOk(retained, retainedsz, heaps)
      requires retained[i] < |mem| && mem[retained[i]] == 8 * heaps[retained[i]].size
      modifies `retained, `retainedsz
      ensures retained == old(retained[..i] + retained[i + 1..]) && RetainedOk(retained, retainedsz, heaps)
    {
      BytesWithout(retained, i, Sizes(heaps));
      retainedsz := retainedsz - mem[retained[i]];
      ghost var rs := retained;
      retained := retained[..i] + retained[i + 1..];
      forall j | 0 <= j < |retained|
        ensures retained[j] == rs[if j < i then j else j + 1]
      {
      }
    }

    /** Takes a heap that gets a block off the list of kept ones. */
    method HeapUnretain(heap: nat)
      requires RetainedOk(retained, retainedsz, heaps)
      requires forall b :: b in heaps ==> b < |mem| && mem[b] == 8 * heaps[b].size
      modifies `retained, `retainedsz
      ensures RetainedOk(retained, retainedsz, heaps) && heap !in retained && retained == Without(old(retained), heap)
    {
      var i := |retained|;
      while i > 0
        invariant 0 <= i <= |retained| && unchanged(this)
        invariant forall j :: i <= j < |retained| ==> retained[j] != heap
      {
        if retained[i - 1] == heap {
          ghost var rs := retained;
          HeapUnretainAt(i - 1);
          assert forall j :: 0 <= j < |retained| ==> retained[j] == rs[if j < i - 1 then j else j + 1];
          WithoutAt(rs, i - 1);
          return;
        }
        i := i - 1;
      }
      WithoutNone(retained, heap);
    }

    // ----- Taking a free chunk -----

    predicate CanSplit(chunk: nat, size: nat)
      requires chunk < |mem|
      reads this
    {
      size >= OVERHEAD && SizeOf(mem[chunk]) >= size + MIN_SIZE
    }

    /** How much of a free chunk of `whole` words a request for `size` takes. */
    function Taken(whole: nat, size: nat): (t: nat)
      requires whole >= size
      ensures size <= t <= whole && (t == whole || (t == size && size >= OVERHEAD && whole - t >= MIN_SIZE))
      ensures size >= OVERHEAD && whole >= size + MIN_SIZE ==> t == size
      ensures size >= OVERHEAD ==> t < size + MIN_SIZE
    {
      if size >= OVERHEAD && whole >= size + MIN_SIZE then size else whole
    }

    /**
     * Of the free chunk of `whole` words at `a` a block takes `t`, of which `n` are wanted: just these if a chunk
     * can be made of the others, which then are free behind the block; otherwise all.
     */
    static ghost predicate Cut(free: map<nat, nat>, free': map<nat, nat>, a: nat, whole: nat, n: nat, t: nat) {
      && a in free && free[a] == whole >= n
      && (whole - n >= MIN_SIZE ==> t == n && free' == (free - {a})[a + n := whole - n])
      && (whole - n < MIN_SIZE ==> t == whole && free' == free - {a})
    }

    /** The chunk keeps `size` words, and what is behind them becomes a free chunk of its own. */
    method Split(chunk: nat, size: nat, ghost whole: nat, ghost b: nat)
      requires Counted() && chunk in bins.free && bins.free[chunk] == whole && 0 < chunk && chunk + whole <= |mem|
      requires OVERHEAD <= size && size + MIN_SIZE <= whole && chunk + size !in bins.free
      requires mem[chunk] == Header(Chunk(whole, false), true) && mem[chunk + 1] == b
      requires forall a :: a in bins.free ==> heapLo <= a < heapHi
      modifies `mem, `freesz, bins, bins.links, bins.lbins
      ensures Counted() && bins.free == (old(bins.free) - {chunk})[chunk + size := whole - size]
      ensures SameBut(old(mem), mem, chunk, chunk + whole)
      ensures mem[chunk] == Header(Chunk(size, false), true) && mem[chunk + 1] == b
      ensures Stands(mem, b, chunk + size, Chunk(whole - size, false), false)
    {
      hide Spare, Bins.Bins.Valid, Header, SizeOf;
      HeaderParts(Chunk(whole, false), true);
      HeaderParts(Chunk(whole - size, false), false);
      HeaderParts(Chunk(size, false), true);
      var removed := ChunkRemove(chunk);
      var sibling := chunk + size;
      var rest := SizeOf(mem[chunk]) - size;
      HeaderIs(rest, size);
      mem := mem[sibling := 8 * rest];
      mem := mem[sibling + 1 := mem[chunk + 1]];
      SetFooter(sibling);
      mem := mem[chunk := 8 * size + 1];
      ChunkAdd(sibling);
    }

    lemma HeaderIs(rest: nat, size: nat)
      ensures Header(Chunk(rest, false), false) == 8 * rest && Header(Chunk(size, false), true) == 8 * size + 1
    {
    }

    /** The chunk leaves the bins; what a smaller request does not need goes back into them. */
    method Carve(chunk: nat, size: nat, ghost whole: nat, ghost b: nat)
      requires Counted() && chunk in bins.free && bins.free[chunk] == whole && 0 < chunk && chunk + whole <= |mem|
      requires size <= whole && whole >= MIN_SIZE && forall x :: chunk < x < chunk + whole ==> x !in bins.free
      requires mem[chunk] == Header(Chunk(whole, false), true) && mem[chunk + 1] == b
      requires forall a :: a in bins.free ==> heapLo <= a < heapHi
      modifies `mem, `freesz, bins, bins.links, bins.lbins
      ensures var t, c := Taken(whole, size), Chunk(whole, false);
        && Counted() && bins.free == LeftFree(old(bins.free), chunk, c, t)
        && SameBut(old(mem), mem, chunk, chunk + whole) && chunk + whole <= |mem|
        && mem[chunk] == Header(Chunk(t, false), true) && mem[chunk + 1] == b
        && (t < whole ==> Stands(mem, b, chunk + t, Chunk(whole - t, false), false))
    {
      hide Spare, Bins.Bins.Valid, Header, SizeOf, Stands;
      HeaderParts(Chunk(whole, false), true);
      if CanSplit(chunk, size) {
        Split(chunk, size, whole, b);
      } else {
        var removed := ChunkRemove(chunk);
      }
    }

    /** The words that mark a carved chunk as used. */
    method Claim(chunk: nat, ghost m: seq<int>, ghost b: nat, ghost c: Chunk, ghost post: seq<Chunk>, ghost t: nat)
      requires |m| == |mem| && b + 1 < chunk && c.size >= MIN_SIZE && chunk + c.size <= |mem| && mem[chunk + 1] == b
      requires mem[chunk] == Header(Chunk(t, false), true) && SameBut(m, mem, chunk, chunk + c.size)
      requires 1 < t <= c.size && (t == c.size || c.size - t >= MIN_SIZE) && Tiled(m, b, chunk + c.size, post, false)
      requires t < c.size ==> Stands(mem, b, chunk + t, Chunk(c.size - t, false), false)
      requires IsLastIn(chunk, b) <==> Left(c, t) + post == []
      modifies `mem
      ensures TakenBy(m, old(mem)[chunk := Header(Chunk(t, true), true)], mem, b, chunk, c, post, t)
      ensures |mem| == |m| && SizeOf(mem[chunk]) == t
    {
      hide Tiled, Sum, Sized, Stands;
      UsedHeader(t);
      HeaderParts(Chunk(t, false), true);
      HeaderParts(Chunk(t, true), true);
      ghost var m1 := mem[chunk := Header(Chunk(t, true), true)];
      StandsStill(mem, m1, b, chunk, c, t);
      LeftNext(m, m1, b, chunk, c, post, t);
      hide Header, SizeOf;
      var heap := mem[chunk + 1];
      mem := mem[heap + 1 := mem[heap + 1] - 8 * SizeOf(mem[chunk])];
      mem := mem[chunk := mem[chunk] + 2];
      MarkNext(chunk, t, b, c, post);
    }

    lemma StandsStill(m: seq<int>, m1: seq<int>, b: nat, a: nat, c: Chunk, t: nat)
      requires t < c.size ==> Stands(m, b, a + t, Chunk(c.size - t, false), false)
      requires SameBut(m, m1, a, a + 1) && t > 1
      ensures t < c.size ==> Stands(m1, b, a + t, Chunk(c.size - t, false), false)
    {
    }

    /** Takes `size` words, or a few more, of a free chunk out of the bins, and marks them as used. */
    method Take(chunk: nat, size: nat, ghost b: nat, ghost pre: seq<Chunk>, ghost c: Chunk, ghost post: seq<Chunk>)
      requires Sound(b) && Focused(State(), b, pre, c, post, false, true) && !c.used && chunk == First(b) + Sum(pre)
      requires LastUsed(pre, true) && 1 <= size <= c.size
      modifies `mem, `freesz, bins, bins.links, bins.lbins
      ensures var t := Taken(c.size, size);
        && Counted() && TakenFrom(old(mem), mem, b, pre, c, post, t) && bins.free == LeftFree(old(bins.free), chunk, c, t)
        && chunk < |mem| && SizeOf(mem[chunk]) == t
    {
      hide Tiled, Sized, OkElse, Sum, Spare, Bins.Bins.Valid, Header, RangeHolds, HeapSizeValid, IsLastIn, Stands, Windowed;
      ghost var m, t := mem, Taken(c.size, size);
      HeapParts(State(), b);
      OnePlace(State(), b, pre, c, post, false, true);
      Neighbourhood(b, pre, c, post, false, true);
      NoneInside(bins.free, chunk, c);
      WindowedFree();
      WindowedStill(heaps, heaps, bins.free, map[]);
      MidHolds(State(), b, pre, [c], post);
      OneBlock(chunk, c);
      Carve(chunk, size, c.size, b);
      ghost var m1 := mem[chunk := Header(Chunk(t, true), true)];
      LastStill(chunk, b, c, post, t);
      Claim(chunk, m, b, c, post, t);
      TakenWords(m, m1, mem, b, pre, c, post, t);
    }

    method AllocFrom(chunk: nat, size: nat, ghost b: nat, ghost pre: seq<Chunk>, ghost c: Chunk, ghost post: seq<Chunk>)
      returns (ptr: nat)
      requires Sound(b) && Focused(State(), b, pre, c, post, false, true) && !c.used && chunk == First(b) + Sum(pre)
      requires LastUsed(pre, true) && 1 <= size <= c.size && RetainedOk(retained, retainedsz, heaps)
      requires b + 1 < |mem| && mem[b + 1] == 8 * FreeSum(heaps[b].cs)
      modifies `mem, `freesz, `maxalloc, `retained, `retainedsz, bins, bins.links, bins.lbins
      ensures Counted() && ptr == chunk + OVERHEAD
      ensures var t := Taken(c.size, size);
        TakenFrom(old(mem), mem, b, pre, c, post, t) && bins.free == LeftFree(old(bins.free), chunk, c, t)
      ensures chunk in old(bins.free) && old(bins.free)[chunk] == c.size
      ensures size >= OVERHEAD && c.size >= size + MIN_SIZE ==>
        bins.free == (old(bins.free) - {chunk})[chunk + size := c.size - size]
      ensures RetainedOk(retained, retainedsz, heaps) && b !in retained && retained == Without(old(retained), b)
    {
      hide Tiled, Sized, OkElse, Sum, FreeSum, Spare, Bins.Bins.Valid, Header, HeapSizeValid, RetainedOk, IsLastIn, SizeOf, Windowed;
      OnePlace(State(), b, pre, c, post, false, true);
      Neighbourhood(b, pre, c, post, false, true);
      HeapWords(b);
      ptr := chunk + OVERHEAD;
      var heap := mem[chunk + 1];
      if Cused(mem[chunk]) {
        return;
      }
      NotRetained(b);
      if mem[heap + 1] == mem[heap] - 8 * HEAP_HEADER {
        HeapUnretain(heap);
      } else {
        WithoutNone(retained, b);
      }
      MidHolds(State(), b, pre, [c], post);
      OneIndexed(bins.free, chunk, c, false);
      Take(chunk, size, b, pre, c, post);
      var usable := 8 * SizeOf(mem[chunk]) - 8 * OVERHEAD;
      if maxalloc < usable {
        maxalloc := usable;
      }
    }

    /** Whether a carved chunk is the last of its heap. */
    lemma LastStill(chunk: nat, b: nat, c: Chunk, post: seq<Chunk>, t: nat)
      requires chunk + c.size <= |mem| && c.size > 0 && mem[chunk] == Header(Chunk(t, false), true)
      requires t <= c.size && (t < c.size ==> c.size - t >= MIN_SIZE)
      requires b in heaps && Shaped(mem, b, heaps[b]) && Windowed(heaps, map[])
      requires chunk + c.size + Sum(post) == b + heaps[b].size && Sized(post)
      ensures IsLastIn(chunk, b) <==> Left(c, t) + post == []
    {
      hide Sum, Sized;
      HeaderParts(Chunk(t, false), true);
      SizedSum(post);
    }

    lemma UsedHeader(t: nat)
      ensures Header(Chunk(t, true), true) == Header(Chunk(t, false), true) + 2
    {
    }

    lemma HeapWords(b: nat)
      requires OkElse(State(), b)
      ensures forall c :: c in heaps ==> c + 1 < |mem| && mem[c] == 8 * heaps[c].size
    {
      forall c | c in heaps
        ensures c + 1 < |mem| && mem[c] == 8 * heaps[c].size
      {
        assert Shaped(mem, c, heaps[c]);
      }
    }

    lemma NotRetained(b: nat)
      requires RetainedOk(retained, retainedsz, heaps) && b in heaps && b + 1 < |mem|
      requires mem[b + 1] == 8 * FreeSum(heaps[b].cs) && mem[b] == 8 * heaps[b].size
      ensures mem[b + 1] != mem[b] - 8 * HEAP_HEADER ==> b !in retained
    {
      if b in retained {
        assert AllFree(heaps[b]);
        OneBlock(0, heaps[b].cs[0]);
      }
    }

    /** Sets the flag PUSED of the chunk behind one of `t` words that was just taken, if there is one. */
    method MarkNext(chunk: nat, ghost t: nat, ghost b: nat, ghost c: Chunk, ghost post: seq<Chunk>)
      requires chunk + 1 < |mem| && mem[chunk + 1] == b && SizeOf(mem[chunk]) == t <= c.size
      requires Left(c, t) + post != [] ==> NextIs(mem, chunk + t, (Left(c, t) + post)[0])
      requires IsLastIn(chunk, b) <==> Left(c, t) + post == []
      modifies `mem
      ensures mem == FlagWritten(old(mem), chunk + t, Left(c, t) + post, true)
    {
      var heap := mem[chunk + 1];
      if !IsLastIn(chunk, heap) {
        var next := chunk + SizeOf(mem[chunk]);
        mem := mem[next := mem[next] - mem[next] % 2 + 1];
      }
    }

    lemma NoneInside(m: map<nat, nat>, a: nat, c: Chunk)
      requires RangeHolds(m, a, [c], false) && c.size > 0
      ensures forall x :: a < x < a + c.size ==> x !in m
    {
      OneBlock(a, c);
      forall x | a < x < a + c.size
        ensures x !in m
      {
        assert Holds(m, Blocks(a, [c]), false, x);
      }
    }

    /** The heap of a free chunk, split at the chunk. */
    lemma FindFree(a: nat) returns (b: nat, pre: seq<Chunk>, c: Chunk, post: seq<Chunk>)
      requires Valid() && a in bins.free
      ensures c == Chunk(bins.free[a], false) && Sound(b) && Tidy(b) && Focused(State(), b, pre, c, post, false, true)
      ensures a == First(b) + Sum(pre) && a + 1 < |mem| && mem[a + 1] == b && b + 1 < |mem| && b > 0
      ensures Coalesced(pre) && Coalesced(post) && mem[b + 1] == 8 * FreeSum(heaps[b].cs)
      ensures LastUsed(pre, true) && (post != [] ==> post[0].used)
    {
      hide Tiled, Sum, FreeSum, Sized, Windowed, Bins.Bins.Valid, Spare, Parts;
      b, pre, c, post := Find(State(), bins.free, false, a);
      HeapParts(State(), b);
      CoalescedParts(pre, [c], post);
    }

    lemma RetainedStill(hs: map<nat, Heap>, hs': map<nat, Heap>, b: nat)
      requires RetainedOk(retained, retainedsz, hs) && b !in retained
      requires hs'.Keys >= hs.Keys && forall c :: c in hs && c != b ==> hs'[c] == hs[c]
      ensures RetainedOk(retained, retainedsz, hs')
    {
      BytesFrame(retained, Sizes(hs), Sizes(hs'));
    }

    /** The heap of a block that was handed out is no longer in the list of kept heaps; the others are, as before. */
    static ghost predicate Unkept(rs: seq<nat>, rs': seq<nat>, hs: map<nat, Heap>, a: nat) {
      exists b :: b in hs && First(b) <= a < b + hs[b].size && rs' == Without(rs, b)
    }

    /** Hands out a free chunk, or as much of it as is wanted. */
    method Hand(chunk: nat, size: nat) returns (ptr: nat)
      requires Valid() && RetainedOk(retained, retainedsz, heaps)
      requires chunk in bins.free && MIN_SIZE <= size <= bins.free[chunk]
      modifies `mem, `freesz, `maxalloc, `retained, `retainedsz, `heaps, `live, bins, bins.links, bins.lbins
      ensures Valid() && RetainedOk(retained, retainedsz, heaps) && |mem| == old(|mem|) && heaps.Keys == old(heaps.Keys)
      ensures ptr == chunk + OVERHEAD && chunk !in old(live) && Kept(old(mem), mem, old(live))
      ensures chunk in live && live == old(live)[chunk := live[chunk]] && Unkept(old(retained), retained, heaps, chunk)
      ensures Cut(old(bins.free), bins.free, chunk, old(bins.free[chunk]), size, live[chunk])
      ensures size <= live[chunk] < size + MIN_SIZE
    {
      hide Tiled, Sized, OkElse, Sum, FreeSum, Spare, Bins.Bins.Valid, Windowed, TidyIn, Parts, Blocks, RetainedOk, Header,
           RangeHolds;
      ghost var b, pre, c, post := FindFree(chunk);
      ghost var st, hs, t := State(), heaps, Taken(c.size, size);
      OnePlace(st, b, pre, c, post, false, true);
      ptr := AllocFrom(chunk, size, b, pre, c, post);
      heaps := heaps[b := Heap(heaps[b].size, pre + [Chunk(t, true)] + (Left(c, t) + post))];
      live := live[chunk := t];
      TakenState(st, State(), b, pre, c, post, t);
      PayloadsStay(st, mem, b, pre, c, post, false, true);
      TakenCoalesced(pre, c, post, t);
      HandWindow(st, b, chunk, c, t);
      RetainedStill(hs, heaps, b);
      Settle(b, pre, Chunk(t, true), Left(c, t) + post);
    }

    lemma HandWindow(st: Store, b: nat, a: nat, c: Chunk, t: nat)
      requires Windowed(st.heaps, st.free) && b in st.heaps && b < a && a + c.size <= b + st.heaps[b].size && 0 < t
      requires heaps.Keys == st.heaps.Keys && forall c :: c in heaps ==> heaps[c].size == st.heaps[c].size
      requires bins.free == LeftFree(st.free, a, c, t)
      ensures Windowed(heaps, bins.free)
    {
    }

    // ----- Heaps from the kernel and back -----

    /** Forgets the handed-back regions that a new heap overlaps. */
    method ForgetReleased(base: nat, size: nat)
      requires |released| == RELEASED
      modifies `released
      ensures |released| == RELEASED && forall i :: 0 <= i < RELEASED ==> !Overlap(released[i], base, size)
      ensures forall i :: 0 <= i < RELEASED ==> released[i] == old(released)[i] || released[i].size == 0
    {
      for i := 0 to RELEASED
        invariant |released| == RELEASED && forall j :: 0 <= j < i ==> !Overlap(released[j], base, size)
        invariant forall j :: 0 <= j < RELEASED ==> released[j] == old(released)[j] || released[j].size == 0
      {
        if released[i].size != 0 {
          if base < released[i].base + released[i].size && released[i].base < base + size {
            released := released[i := Region(0, 0)];
          }
        }
      }
    }

    /** Makes the window hold a new heap, and the list of regions handed back not. */
    method Widen(heap: nat, size: nat)
      requires Windowed(heaps, bins.free) && (heapLo == 0 ==> bins.free == map[]) && heap > 0
      modifies `heapLo, `heapHi, `released
      ensures Windowed(heaps, bins.free) && 0 < heapLo <= heap && heap + size <= heapHi
      ensures forall i :: 0 <= i < RELEASED ==> !Overlap(released[i], heap, size)
    {
      ghost var rs := released;
      ForgetReleased(heap, size);
      forall c, i | c in heaps && 0 <= i < RELEASED
        ensures !Overlap(released[i], c, heaps[c].size)
      {
        assert !Overlap(rs[i], c, heaps[c].size);
      }
      if heapLo == 0 || heap < heapLo {
        heapLo := heap;
      }
      if heap + size > heapHi {
        heapHi := heap + size;
      }
    }

    /** The words of the heap mapped for a chunk of some bytes. */
    static function HeapWordsFor(bytes: nat): (r: nat)
      ensures r % PAGE == 0 && r > 0 && 8 * r >= bytes + 8 * HEAP_HEADER
      ensures r % 512 == 0 && bytes + 16 <= 8 * r < bytes + 16 + 4096
    {
      (bytes + 8 * HEAP_HEADER + 8 * PAGE - 1) / (8 * PAGE) * PAGE
    }

    /** The words of a new heap: its size, its count, and one free chunk. */
    method HeapInit(heap: nat, size: nat)
      requires size >= HEAP_HEADER + MIN_SIZE && heap + size <= |mem|
      modifies `mem
      ensures SameBut(old(mem), mem, heap, heap + size) && mem[heap] == 8 * size && mem[heap + 1] == 8 * (size - HEAP_HEADER)
      ensures Stands(mem, heap, heap + HEAP_HEADER, Chunk(size - HEAP_HEADER, false), true)
    {
      hide SizeOf;
      var chunk := heap + HEAP_HEADER;
      HeaderParts(Chunk(size - HEAP_HEADER, false), false);
      mem := mem[heap := 8 * size];
      mem := mem[heap + 1 := mem[heap] - 8 * HEAP_HEADER];
      mem := mem[chunk := mem[heap] - 8 * HEAP_HEADER];
      mem := mem[chunk + 1 := heap];
      SetFooter(chunk);
      mem := mem[chunk := mem[chunk] + 1];
    }

    /** A mapped region becomes a heap of one free chunk, in its bin. */
    method HeapPlace(heap: nat, size: nat)
      requires Counted() && Windowed(heaps, bins.free) && (heapLo == 0 ==> bins.free == map[])
      requires heap > 0 && size >= HEAP_HEADER + MIN_SIZE && heap + size <= |mem| && First(heap) !in bins.free
      modifies `mem, `freesz, `mapsz, `heapLo, `heapHi, `released, bins, bins.links, bins.lbins
      ensures Counted() && bins.free == old(bins.free)[First(heap) := size - HEAP_HEADER]
      ensures Windowed(heaps, old(bins.free)) && 0 < heapLo <= heap && heap + size <= heapHi
      ensures forall i :: 0 <= i < RELEASED ==> !Overlap(released[i], heap, size)
      ensures SameBut(old(mem), mem, heap, heap + size) && mem[heap] == 8 * size && mem[heap + 1] == 8 * (size - HEAP_HEADER)
      ensures Stands(mem, heap, First(heap), Chunk(size - HEAP_HEADER, false), true)
    {
      hide Spare, Bins.Bins.Valid, Windowed;
      Widen(heap, size);
      HeapInit(heap, size);
      HeaderParts(Chunk(size - HEAP_HEADER, false), true);
      mapsz := mapsz + 8 * size;
      ChunkAdd(First(heap));
    }

    /** Maps a heap for a chunk of some bytes; `at` is where the kernel puts it, null if it cannot. */
    method HeapAlloc(bytes: nat, at: nat) returns (heap: nat)
      requires Valid() && RetainedOk(retained, retainedsz, heaps)
      requires at != 0 ==> Fresh(mem, heaps, at, HeapWordsFor(bytes))
      modifies `mem, `freesz, `mapsz, `heapLo, `heapHi, `released, `heaps, bins, bins.links, bins.lbins
      ensures Valid() && RetainedOk(retained, retainedsz, heaps) && heap == at && |mem| == old(|mem|)
      ensures at == 0 ==> heaps == old(heaps) && mem == old(mem) && bins.free == old(bins.free)
      ensures at != 0 ==> var size := HeapWordsFor(bytes);
        && heaps == old(heaps)[at := Whole(size)] && bins.free == old(bins.free)[First(at) := size - HEAP_HEADER]
        && at !in retained && at !in old(heaps) && First(at) !in old(bins.free)
      ensures Kept(old(mem), mem, live)
    {
      hide Tiled, Sized, Sum, FreeSum, Spare, Bins.Bins.Valid, Blocks, RetainedOk, OkElse, Coalesced, Windowed, Stands, Fresh,
           TidyIn, HeapWordsFor, Whole;
      heap := at;
      if at != 0 {
        ghost var st := State();
        var size := HeapWordsFor(bytes);
        FreshParts(at, size);
        OkIndexed(st, 0);
        NoneFresh(st, at, size, st.free, false);
        NotMapped(at, size);
        NoHeapsNoChunks();
        HeapPlace(heap, size);
        heaps := heaps[at := Whole(size)];
        Mapped(st, State(), at, size);
        WholeTidy(st, at, size);
        RetainedStill(st.heaps, heaps, at);
        WindowGrows(st.heaps, st.free, at, size);
      }
    }

    lemma NoHeapsNoChunks()
      requires OkElse(State(), 0) && Windowed(heaps, bins.free)
      ensures heapLo == 0 ==> bins.free == map[]
    {
      forall a | a in bins.free
        ensures heapLo != 0
      {
        IndexedAt(mem, heaps, bins.free, false, a);
      }
    }

    lemma WindowGrows(hs: map<nat, Heap>, free: map<nat, nat>, at: nat, size: nat)
      requires Windowed(hs, free) && 0 < heapLo <= at && at + size <= heapHi && size > HEAP_HEADER
      requires forall i :: 0 <= i < RELEASED ==> !Overlap(released[i], at, size)
      requires heaps == hs[at := Whole(size)] && bins.free == free[First(at) := size - HEAP_HEADER]
      ensures Windowed(heaps, bins.free)
    {
    }

    lemma FreshParts(at: nat, size: nat)
      requires Fresh(mem, heaps, at, size)
      ensures at > 0 && at + size <= |mem| && size >= PAGE
    {
    }

    lemma NotMapped(at: nat, size: nat)
      requires Fresh(mem, heaps, at, size) && RetainedOk(retained, retainedsz, heaps) && OkElse(State(), 0)
      ensures at !in heaps && at !in retained
    {
      forall b | b in heaps
        ensures heaps[b].size > 0
      {
        assert Shaped(mem, b, heaps[b]);
      }
    }

    lemma WholeTidy(st: Store, at: nat, size: nat)
      requires TidyIn(st.mem, st.heaps, 0) && Ok(st) && Fresh(st.mem, st.heaps, at, size) && SameBut(st.mem, mem, at, at + size)
      requires size >= HEAP_HEADER && heaps == st.heaps[at := Whole(size)] && mem[at + 1] == 8 * (size - HEAP_HEADER)
      ensures TidyIn(mem, heaps, 0)
    {
      hide Tiled, Sum, FreeSum, Sized, Blocks, Indexed;
      OneBlock(0, Chunk(size - HEAP_HEADER, false));
      forall c | c in heaps && c != 0
        ensures c + 1 < |mem| && Coalesced(heaps[c].cs) && mem[c + 1] == 8 * FreeSum(heaps[c].cs)
      {
        if c != at {
          assert Shaped(st.mem, c, st.heaps[c]);
        }
      }
    }

    /** Hands an entirely free heap back to the kernel. */
    method HeapRelease(heap: nat) returns (gone: bool)
      requires Valid() && heap in heaps && AllFree(heaps[heap])
      modifies `freesz, `mapsz, `released, `relIdx, `heaps, bins, bins.links, bins.lbins
      ensures Valid() && gone && heaps == old(heaps) - {heap}
      ensures bins.free == old(bins.free) - {First(heap)}
      ensures |old(released)| == RELEASED && released == old(released)[old(relIdx) % RELEASED := Region(heap, old(heaps)[heap].size)]
      ensures relIdx == old(relIdx) + 1
    {
      hide Tiled, Sized, Sum, FreeSum, Spare, Bins.Bins.Valid, Blocks, Coalesced, WindowIs, TidyIn, OkElse;
      ghost var st := State();
      WholeIndexed(st, heap);
      WindowedFree();
      WindowedLen();
      gone := ChunkRemove(First(heap));
      if !gone {
        return;
      }
      var size := SizeOfHeap(heap);
      released := released[relIdx % RELEASED := Region(heap, size)];
      relIdx := relIdx + 1;
      mapsz := mapsz - mem[heap];
      heaps := heaps - {heap};
      Unmapped(st, State(), heap);
      ReleasedWindow(st, heap, old(released), old(relIdx) % RELEASED, size);
      TidyLess(st, heap);
    }

    function SizeOfHeap(heap: nat): (r: nat)
      requires heap < |mem| && mem[heap] >= 0
      reads this
    {
      mem[heap] / 8
    }

    lemma WindowedLen()
      requires Windowed(heaps, bins.free)
      ensures |released| == RELEASED
    {
    }

    /** The chunk of an entirely free heap. */
    lemma WholeIndexed(st: Store, b: nat)
      requires st == State() && Ok(st) && b in heaps && AllFree(heaps[b])
      ensures heaps[b] == Whole(heaps[b].size) && heaps[b].size > HEAP_HEADER
      ensures b > 0 && First(b) < |mem| && mem[b] == 8 * heaps[b].size && b < |mem|
      ensures First(b) in bins.free && bins.free[First(b)] == heaps[b].size - HEAP_HEADER
      ensures SizeOf(mem[First(b)]) == heaps[b].size - HEAP_HEADER
    {
      hide Tiled, Sum, Sized, Blocks, OkElse, FreeSum, RangeHolds;
      EmptySum();
      var c := Chunk(heaps[b].size - HEAP_HEADER, false);
      assert heaps[b].cs == [] + [c] + [];
      OkFocus(st, b, [], c, []);
      OnePlace(st, b, [], c, [], false, true);
      HeapParts(st, b);
      HeaderParts(c, true);
    }

    lemma ReleasedWindow(st: Store, heap: nat, was: seq<Region>, i: nat, size: nat)
      requires OkElse(st, 0) && heap in st.heaps && size == st.heaps[heap].size && i < RELEASED
      requires |was| == RELEASED && released == was[i := Region(heap, size)]
      requires WindowIs(was, heapLo, heapHi, st.heaps, st.free)
      requires heaps == st.heaps - {heap} && bins.free == st.free - {First(heap)}
      ensures Windowed(heaps, bins.free)
    {
      forall c, j | c in heaps && 0 <= j < RELEASED
        ensures !Overlap(released[j], c, heaps[c].size)
      {
        HeapsApart(st, 0, heap, c);
        assert !Overlap(was[j], c, st.heaps[c].size);
      }
    }

    lemma TidyLess(st: Store, heap: nat)
      requires TidyIn(st.mem, st.heaps, 0) && mem == st.mem && heaps == st.heaps - {heap}
      ensures TidyIn(mem, heaps, 0)
    {
    }

    lemma RetainedLess(hs: map<nat, Heap>, b: nat)
      requires RetainedOk(retained, retainedsz, hs) && b !in retained
      ensures RetainedOk(retained, retainedsz, hs - {b})
    {
      BytesFrame(retained, Sizes(hs), Sizes(hs - {b}));
    }

    lemma RetainedMore(heap: nat, bytes: int)
      requires RetainedOk(retained, retainedsz, heaps) && heap !in retained && heap in heaps && AllFree(heaps[heap])
      requires |retained| < RETAIN_MAX && bytes == 8 * heaps[heap].size && retainedsz + bytes <= RETAIN_BYTES
      ensures RetainedOk(retained + [heap], retainedsz + bytes, heaps)
    {
      BytesAppend(retained, [heap], Sizes(heaps));
      assert [heap][1..] == [];
      assert Bytes([heap][1..], Sizes(heaps)) == 0;
    }

    lemma KeptParts()
      requires RetainedOk(retained, retainedsz, heaps)
      ensures retained == [] ==> retainedsz == 0
    {
    }

    lemma OldestKept()
      requires OkElse(State(), 0) && RetainedOk(retained, retainedsz, heaps) && retained != []
      ensures var b := retained[0];
        b in heaps && AllFree(heaps[b]) && b < |mem| && mem[b] == 8 * heaps[b].size && b !in retained[..0] + retained[1..]
    {
      var b := retained[0];
      HeapPartsOf(State(), 0, b);
      forall i | 0 <= i < |retained[1..]|
        ensures retained[1..][i] != b
      {
        assert retained[1..][i] == retained[i + 1];
      }
      assert retained[..0] + retained[1..] == retained[1..];
    }

    /** The `k` oldest kept heaps have gone back, and one less would not have made room for another of so many bytes. */
    static ghost predicate Dropped(rs: seq<nat>, rs': seq<nat>, hs: map<nat, Heap>, keys: set<nat>, k: nat, bytes: int) {
      && k <= |rs| && rs' == rs[k..] && (forall b :: b in keys <==> b in hs && b !in rs[..k])
      && (k > 0 ==> |rs| - (k - 1) >= 64 || Bytes(rs[k - 1..], Sizes(hs)) + bytes > 16 * 1024 * 1024)
    }

    lemma DropOne(rs: seq<nat>, hs: map<nat, Heap>, keys: set<nat>, k: nat, bytes: int)
      requires Dropped(rs, retained, hs, keys, k, bytes) && keys == heaps.Keys && RetainedOk(retained, retainedsz, heaps)
      requires retained != [] && (|retained| >= RETAIN_MAX || retainedsz + bytes > RETAIN_BYTES)
      requires forall b :: b in heaps ==> b in hs && heaps[b].size == hs[b].size
      ensures Dropped(rs, retained[1..], hs, keys - {retained[0]}, k + 1, bytes)
    {
      BytesFrame(retained, Sizes(heaps), Sizes(hs));
      assert rs[..k + 1] == rs[..k] + [rs[k]] && rs[k] == retained[0] && rs[k + 1..] == retained[1..];
    }

    /** The oldest kept heaps go back until another heap is within the limits. */
    method MakeRoom(heap: nat) returns (ghost k: nat)
      requires Valid() && RetainedOk(retained, retainedsz, heaps) && heap in heaps && heap !in retained
      requires heap < |mem| && mem[heap] == 8 * heaps[heap].size <= RETAIN_BYTES
      modifies `freesz, `mapsz, `released, `relIdx, `retained, `retainedsz, `heaps, bins, bins.links, bins.lbins
      ensures Valid() && RetainedOk(retained, retainedsz, heaps) && heap !in retained
      ensures |retained| < RETAIN_MAX && retainedsz + mem[heap] <= RETAIN_BYTES && heap in heaps
      ensures heaps.Keys <= old(heaps.Keys) && forall b :: b in heaps ==> heaps[b] == old(heaps)[b]
      ensures Dropped(old(retained), retained, old(heaps), heaps.Keys, k, mem[heap])
    {
      hide Tiled, Sized, Sum, FreeSum, Spare, Bins.Bins.Valid, Blocks, Coalesced, WindowIs, TidyIn, OkElse, RetainedOk, Bytes,
           Dropped;
      KeptParts();
      k := 0;
      NoneDropped(retained, heaps, mem[heap]);
      while |retained| >= RETAIN_MAX || retainedsz + mem[heap] > RETAIN_BYTES
        invariant Valid() && RetainedOk(retained, retainedsz, heaps)
        invariant heap in heaps && heaps[heap] == old(heaps)[heap] && heap !in retained
        invariant retained == [] ==> retainedsz == 0
        invariant heaps.Keys <= old(heaps.Keys) && forall b :: b in heaps ==> heaps[b] == old(heaps)[b]
        invariant Dropped(old(retained), retained, old(heaps), heaps.Keys, k, mem[heap])
        decreases |retained|
      {
        OldestKept();
        DropOne(old(retained), old(heaps), heaps.Keys, k, mem[heap]);
        k := k + 1;
        var oldest := retained[0];
        assert retained[..0] + retained[1..] == retained[1..];
        HeapUnretainAt(0);
        RetainedLess(heaps, oldest);
        var gone := HeapRelease(oldest);
        KeptParts();
      }
    }

    static lemma NoneDropped(rs: seq<nat>, hs: map<nat, Heap>, bytes: int)
      ensures Dropped(rs, rs, hs, hs.Keys, 0, bytes)
    {
    }

    /**
     * What becomes of a heap that is entirely free: one over the limit goes back; any other is kept as the
     * latest, and of the others as many of the oldest go back as it takes.
     */
    static ghost predicate Retains(rs: seq<nat>, rs': seq<nat>, hs: map<nat, Heap>, keys: set<nat>, b: nat) {
      b in hs &&
      var bytes := 8 * hs[b].size;
      if bytes > 16 * 1024 * 1024 then rs' == rs && keys == hs.Keys - {b}
      else rs' != [] && rs'[|rs'| - 1] == b && DropsSome(rs, rs'[..|rs'| - 1], hs, keys, bytes)
    }

    static ghost predicate DropsSome(rs: seq<nat>, rs': seq<nat>, hs: map<nat, Heap>, keys: set<nat>, bytes: int) {
      exists k :: Dropped(rs, rs', hs, keys, k, bytes)
    }

    static lemma DropsAlike(rs: seq<nat>, rs': seq<nat>, hs: map<nat, Heap>, hs': map<nat, Heap>, keys: set<nat>, bytes: int)
      requires DropsSome(rs, rs', hs', keys, bytes) && hs'.Keys == hs.Keys && forall c :: c in hs ==> hs'[c].size == hs[c].size
      ensures DropsSome(rs, rs', hs, keys, bytes)
    {
      assert Sizes(hs') == Sizes(hs);
      var k :| Dropped(rs, rs', hs', keys, k, bytes);
      assert Dropped(rs, rs', hs, keys, k, bytes);
    }

    /** Keeps an entirely free heap for reuse; older ones make room for it. */
    method HeapRetain(heap: nat)
      requires Valid() && RetainedOk(retained, retainedsz, heaps)
      requires heap in heaps && AllFree(heaps[heap]) && heap !in retained
      modifies `freesz, `mapsz, `released, `relIdx, `retained, `retainedsz, `heaps, bins, bins.links, bins.lbins
      ensures Valid() && RetainedOk(retained, retainedsz, heaps)
      ensures heaps.Keys <= old(heaps.Keys) && forall b :: b in heaps ==> heaps[b] == old(heaps)[b]
      ensures Retains(old(retained), retained, old(heaps), heaps.Keys, heap)
    {
      hide Tiled, Sized, Sum, FreeSum, Spare, Bins.Bins.Valid, Blocks, Coalesced, WindowIs, TidyIn, OkElse, RetainedOk, Bytes,
           Dropped;
      WholeIndexed(State(), heap);
      if mem[heap] > RETAIN_BYTES {
        RetainedLess(heaps, heap);
        var gone := HeapRelease(heap);
        return;
      }
      ghost var k := MakeRoom(heap);
      RetainedMore(heap, mem[heap]);
      ghost var rs := retained;
      retained := retained + [heap];
      assert retained[..|retained| - 1] == rs;
      retainedsz := retainedsz + mem[heap];
    }

    // ----- free -----

    lemma LiveNotRetained(b: nat, pre: seq<Chunk>, c: Chunk, post: seq<Chunk>)
      requires b in heaps && heaps[b].cs == pre + [c] + post && c.used && RetainedOk(retained, retainedsz, heaps)
      ensures b !in retained
    {
      assert heaps[b].cs[|pre|] == c;
      assert !AllFree(heaps[b]);
    }

    lemma CountedHeap(b: nat)
      requires Valid() && b in heaps
      ensures b > 0 && b + HEAP_HEADER < |mem| && mem[b] == 8 * heaps[b].size && mem[b + 1] == 8 * FreeSum(heaps[b].cs)
      ensures mem[b + 1] == mem[b] - 8 * HEAP_HEADER <==> AllFree(heaps[b])
      ensures AllFree(heaps[b]) ==> SizeOf(mem[b + HEAP_HEADER]) == heaps[b].size - HEAP_HEADER
    {
      hide Tiled, Sum, FreeSum, Sized, Indexed;
      HeapPartsOf(State(), 0, b);
      SizedSum(heaps[b].cs);
      if AllFree(heaps[b]) {
        OneBlock(0, heaps[b].cs[0]);
      }
      if mem[b + 1] == mem[b] - 8 * HEAP_HEADER {
        FullyFree(heaps[b].cs);
        WholeIndexed(State(), b);
      }
    }

    /** Some block is in the heap at `b`. */
    static ghost predicate InUse(live: map<nat, nat>, b: nat, size: nat) {
      exists a :: a in live && First(b) <= a < b + size
    }

    /** What becomes of the heap of a block that was freed: nothing, unless that was the last of its blocks. */
    static ghost predicate Vacates(rs: seq<nat>, rs': seq<nat>, hs: map<nat, Heap>, keys: set<nat>, live: map<nat, nat>, b: nat) {
      && b in hs
      && (InUse(live, b, hs[b].size) ==> rs' == rs && keys == hs.Keys)
      && (!InUse(live, b, hs[b].size) ==> Retains(rs, rs', hs, keys, b))
    }

    lemma VacatesBy(rs: seq<nat>, hs: map<nat, Heap>, hs': map<nat, Heap>, live': map<nat, nat>, b: nat)
      requires b in hs && b in hs' && hs'.Keys == hs.Keys && forall c :: c in hs ==> hs'[c].size == hs[c].size
      requires InUse(live', b, hs[b].size) ==> retained == rs && heaps.Keys == hs'.Keys
      requires !InUse(live', b, hs[b].size) ==> Retains(rs, retained, hs', heaps.Keys, b)
      ensures Vacates(rs, retained, hs, heaps.Keys, live', b)
    {
      hide DropsSome;
      if !InUse(live', b, hs[b].size) && 8 * hs[b].size <= RETAIN_BYTES {
        DropsAlike(rs, retained[..|retained| - 1], hs, hs', heaps.Keys, 8 * hs[b].size);
      }
    }

    /** A heap is entirely free if and only if no block is in it. */
    lemma UsedExactly(b: nat)
      requires Valid() && b in heaps
      ensures AllFree(heaps[b]) <==> !InUse(live, b, heaps[b].size)
    {
      hide Tiled, Sum, FreeSum, Sized, Spare, Bins.Bins.Valid, WindowIs, Blocks, OkElse, RangeHolds, Local;
      HeapPartsOf(State(), 0, b);
      var h := heaps[b];
      if a :| a in live && First(b) <= a < b + h.size {
        LocalAt(live, b, h, true, a);
        if AllFree(h) {
          Single(First(b), h.cs[0]);
        }
      }
      if !AllFree(h) {
        var i := UsedChunk(h);
        var pre, c, post := h.cs[..i], h.cs[i], h.cs[i + 1..];
        assert h.cs == pre + [c] + post;
        OkFocus(State(), b, pre, c, post);
        OnePlace(State(), b, pre, c, post, true, true);
        MidHolds(State(), b, pre, [c], post);
        OneIndexed(live, First(b) + Sum(pre), c, true);
      }
    }

    static lemma UsedChunk(h: Heap) returns (i: nat)
      requires h.cs != [] && Sized(h.cs) && Coalesced(h.cs) && Sum(h.cs) + HEAP_HEADER == h.size && !AllFree(h)
      ensures i < |h.cs| && h.cs[i].used
    {
      i := if h.cs[0].used then 0 else 1;
      if |h.cs| == 1 {
        assert h.cs == [h.cs[0]];
        Single(0, h.cs[0]);
      }
    }

    /** Frees a block; null is fine. When that was the last block of its heap, the heap is kept or goes back to the kernel. */
    method Free(ptr: nat)
      requires Valid() && RetainedOk(retained, retainedsz, heaps)
      requires ptr != 0 ==> ptr >= OVERHEAD && ptr - OVERHEAD in live
      modifies `mem, `freesz, `mapsz, `released, `relIdx, `retained, `retainedsz, `heaps, `live, bins, bins.links, bins.lbins
      ensures Valid() && RetainedOk(retained, retainedsz, heaps)
      ensures live == if ptr == 0 then old(live) else old(live) - {ptr - OVERHEAD}
      ensures Kept(old(mem), mem, live) && heaps.Keys <= old(heaps.Keys)
      ensures ptr == 0 ==> heaps == old(heaps) && retained == old(retained) && bins.free == old(bins.free)
      ensures ptr != 0 ==> Vacates(old(retained), retained, old(heaps), heaps.Keys, live, Owner(old(mem), ptr - OVERHEAD))
    {
      hide Tiled, Sized, OkElse, Sum, FreeSum, Spare, Bins.Bins.Valid, Windowed, TidyIn, Parts, Blocks, RetainedOk, SizeOf,
           HeapSizeValid, ChunkValidWhy, Header, Coalesced, Vacates, InUse, Retains, AllFree;
      if ptr != 0 {
        var chunk := ptr - OVERHEAD;
        ghost var b, pre0, c0, post0 := FindLive(chunk);
        Neighbourhood(b, pre0, c0, post0, true, true);
        LiveNotRetained(b, pre0, c0, post0);
        var heap := mem[chunk + 1];
        if ChunkValidWhy(chunk, heap) != 0 {
          return;
        }
        if !Cused(mem[chunk]) {
          return;
        }
        ghost var hs, pre, c, post := heaps, pre0, c0, post0;
        pre, c, post := Return(chunk, b, pre0, c0, post0);
        RetainedStill(hs, heaps, b);
        CountedHeap(b);
        UsedExactly(b);
        ghost var hs1 := heaps;
        if mem[heap + 1] == mem[heap] - 8 * HEAP_HEADER {
          if SizeOf(mem[heap + HEAP_HEADER]) == mem[heap] / 8 - HEAP_HEADER {
            HeapRetain(heap);
          }
        }
        VacatesBy(old(retained), hs, hs1, live, b);
      }
    }

    // ----- malloc -----

    /** The words of the chunk for a request. */
    static function ChunkWords(size: nat): (n: nat)
      ensures n >= MIN_SIZE && 8 * n >= size + 8 * OVERHEAD
      ensures n >= 5 && 8 * n >= size + 16 && (n == 5 || 8 * n < size + 24)
    {
      ((if size + 8 * OVERHEAD < 8 * MIN_SIZE then 8 * MIN_SIZE else size + 8 * OVERHEAD) + 7) / 8
    }

    /** The bytes asked of a new heap for a chunk of `n` words. */
    static function HeapBytes(n: nat): (r: nat)
      ensures r >= 8 * n
    {
      if n <= Bins.SMALL_MAX then 8 * n
      else
        Classes.IndexAtEnds(8 * n);
        var last := Classes.Lookup()[Bins.LargeBin(n)];
        if last < 8 * n then 8 * n else last
    }

    /** A new heap is asked for just the chunk if that is small, or in the last bin; otherwise for the largest size of its bin. */
    static lemma HeapBytesExact(n: nat)
      ensures n <= Bins.SMALL_MAX || Bins.LargeBin(n) == 31 ==> HeapBytes(n) == 8 * n
      ensures n > Bins.SMALL_MAX && Bins.LargeBin(n) < 31 ==>
        Classes.LargeIndex(HeapBytes(n)) == Bins.LargeBin(n) < Classes.LargeIndex(HeapBytes(n) + 1)
    {
      hide Classes.LargeIndex;
      Classes.IndexAtEnds(8 * n);
      var i := Bins.LargeBin(n);
      if n > Bins.SMALL_MAX && i < 31 {
        var last := Classes.Lookup()[i];
        Classes.LookupExact(8 * n, i);
        Classes.LookupExact(last, i);
        Classes.LookupExact(last + 1, i);
        Classes.IndexMono(8 * n, last);
      }
    }

    /** No free chunk is large enough. */
    static ghost predicate NoneFits(free: map<nat, nat>, n: nat) {
      forall a :: a in free ==> free[a] < n
    }

    /** What handing out a block of `n` words, or a few more, does: the other blocks and their contents stay. */
    twostate predicate HandsOut(ptr: nat, n: nat)
      reads this, bins, bins.links, bins.lbins
    {
      && Valid() && RetainedOk(retained, retainedsz, heaps)
      && ptr >= OVERHEAD && ptr - OVERHEAD !in old(live) && Kept(old(mem), mem, old(live))
      && ptr - OVERHEAD in live && n <= live[ptr - OVERHEAD] < n + MIN_SIZE
      && live == old(live)[ptr - OVERHEAD := live[ptr - OVERHEAD]]
    }

    /** The block of `n` words comes from a chunk that was free, and what is left of that is free. */
    static ghost predicate FromFree(free: map<nat, nat>, free': map<nat, nat>, a: nat, n: nat, t: nat) {
      a in free && Cut(free, free', a, free[a], n, t)
    }

    /** The block of `n` words is the front of a new heap at `at`, and what is left of that is free. */
    static ghost predicate FromHeap(hs: set<nat>, hs': set<nat>, free: map<nat, nat>, free': map<nat, nat>, a: nat, n: nat, t: nat,
                                    at: nat)
    {
      var whole := HeapWordsFor(HeapBytes(n)) - HEAP_HEADER;
      && at !in hs && hs' == hs + {at} && a == First(at) && a !in free
      && Cut(free[a := whole], free', a, whole, n, t)
    }

    /** Where a block of `n` words comes from: a free chunk if there is one that fits, else a new heap. */
    static ghost predicate Served(hs: set<nat>, hs': set<nat>, free: map<nat, nat>, free': map<nat, nat>, a: nat, n: nat, t: nat,
                                  at: nat)
    {
      && (hs' == hs ==> Closest(free, a, n) && FromFree(free, free', a, n, t))
      && (hs' != hs ==> NoneFits(free, n) && FromHeap(hs, hs', free, free', a, n, t, at))
    }

    /** No free chunk of at least `n` words is in an earlier bin; small bins have one size each and come first. */
    static ghost predicate Closest(free: map<nat, nat>, a: nat, n: nat) {
      && a in free && free[a] >= n
      && (free[a] <= Bins.SMALL_MAX ==> forall x :: x in free && free[x] >= n ==> free[x] >= free[a])
      && (free[a] > Bins.SMALL_MAX ==> LargeClosest(free, a, n) && forall x :: x in free && free[x] <= Bins.SMALL_MAX ==> free[x] < n)
    }

    static ghost predicate NoLargeFits(free: map<nat, nat>, n: nat) {
      forall a :: a in free && free[a] > Bins.SMALL_MAX ==> free[a] < n
    }

    static ghost predicate LargeClosest(free: map<nat, nat>, a: nat, n: nat) {
      && a in free && free[a] >= n && free[a] > Bins.SMALL_MAX
      && forall x :: x in free && free[x] > Bins.SMALL_MAX && free[x] >= n ==> Bins.LargeBin(free[x]) >= Bins.LargeBin(free[a])
    }

    /** The same if only large chunks are looked at. */
    static ghost predicate LargeServed(hs: set<nat>, hs': set<nat>, free: map<nat, nat>, free': map<nat, nat>, a: nat, n: nat,
                                       t: nat, at: nat)
    {
      && (hs' == hs ==> LargeClosest(free, a, n) && FromFree(free, free', a, n, t))
      && (hs' != hs ==> NoLargeFits(free, n) && FromHeap(hs, hs', free, free', a, n, t, at))
    }

    method AllocLarge(n: nat, at: nat) returns (ptr: nat)
      requires Valid() && RetainedOk(retained, retainedsz, heaps) && n >= MIN_SIZE
      requires at != 0 ==> Fresh(mem, heaps, at, HeapWordsFor(HeapBytes(n)))
      modifies this, bins, bins.links, bins.lbins
      ensures ptr != 0 ==> HandsOut(ptr, n) && Unkept(old(retained), retained, heaps, ptr - OVERHEAD)
      ensures ptr == 0 ==> at == 0 && Valid() && RetainedOk(retained, retainedsz, heaps) && live == old(live) && mem == old(mem)
      ensures ptr == 0 ==> heaps == old(heaps) && bins.free == old(bins.free) && retained == old(retained)
      ensures ptr != 0 ==>
        LargeServed(old(heaps.Keys), heaps.Keys, old(bins.free), bins.free, ptr - OVERHEAD, n, live[ptr - OVERHEAD], at)
      ensures heaps.Keys != old(heaps.Keys) || ptr == 0 ==> NoLargeFits(old(bins.free), n)
    {
      hide Tiled, Sized, OkElse, Sum, FreeSum, Spare, Bins.Bins.Valid, Windowed, TidyIn, Parts, Blocks, RetainedOk, Coalesced,
           HeapWordsFor, HeapBytes, Fresh, ChunkValidWhy, HeapSizeValid, Unkept, Cut, Bins.LargeBin, FromHeap, Whole;
      var chunk, idx := bins.FindLarge(n);
      var found := chunk != 0;
      if found {
        FreeIsValid(chunk);
        found := ChunkInWindow(chunk) && ChunkValidWhy(chunk, mem[chunk + 1]) == 0;
        bins.DropLarge(idx, found);
      }
      if !found {
        var heap := HeapAlloc(HeapBytes(n), at);
        if heap == 0 {
          return 0;
        }
        chunk := First(heap);
      }
      ghost var hs, free := heaps, bins.free;
      ptr := Hand(chunk, n);
      if !found {
        HeapServes(old(heaps), hs, old(bins.free), free, bins.free, n, live[chunk], at);
      }
    }

    static lemma HeapServes(hs: map<nat, Heap>, hs': map<nat, Heap>, free: map<nat, nat>, free1: map<nat, nat>, free2: map<nat, nat>,
                            n: nat, t: nat, at: nat)
      requires at !in hs && First(at) !in free
      requires var size := HeapWordsFor(HeapBytes(n));
        && hs' == hs[at := Whole(size)] && free1 == free[First(at) := size - HEAP_HEADER]
        && Cut(free1, free2, First(at), size - HEAP_HEADER, n, t)
      ensures FromHeap(hs.Keys, hs'.Keys, free, free2, First(at), n, t, at)
    {
      hide Cut, HeapWordsFor, HeapBytes;
    }

    lemma FreeIsValid(a: nat)
      requires Valid() && a in bins.free
      ensures a + 1 < |mem| && mem[a + 1] >= 0 && ChunkInWindow(a) && ChunkValidWhy(a, mem[a + 1]) == 0
    {
      hide Tiled, Sized, OkElse, Sum, FreeSum, Spare, Bins.Bins.Valid, Windowed, TidyIn, Blocks, ChunkValidWhy, HeapSizeValid;
      WindowedFree();
      var b, pre, c, post := FindFree(a);
      Neighbourhood(b, pre, c, post, false, true);
    }

    /** The writes that cut the only chunk of a heap in two, and both parts into their bins. */
    method CutFirst(chunk: nat, n: nat, ghost whole: nat, ghost b: nat)
      requires Counted() && chunk in bins.free && bins.free[chunk] == whole && b < chunk && chunk + whole <= |mem|
      requires MIN_SIZE <= n && n + MIN_SIZE <= whole && forall x :: chunk < x < chunk + whole ==> x !in bins.free
      requires mem[chunk] == Header(Chunk(whole, false), true) && mem[chunk + 1] == b
      requires forall a :: a in bins.free ==> heapLo <= a < heapHi
      modifies `mem, `freesz, bins, bins.links, bins.lbins
      ensures Counted() && bins.free == old(bins.free)[chunk := n][chunk + n := whole - n]
      ensures SameBut(old(mem), mem, chunk, chunk + whole)
      ensures Stands(mem, b, chunk, Chunk(n, false), true) && Stands(mem, b, chunk + n, Chunk(whole - n, false), false)
    {
      hide Spare, Bins.Bins.Valid, Stands;
      Split(chunk, n, whole, b);
      ghost var m1 := mem;
      HeaderParts(Chunk(n, false), true);
      SetFooter(chunk);
      FirstStands(m1, mem, b, chunk, n, whole);
      ChunkAdd(chunk);
      SplitFree(old(bins.free), bins.free, chunk, n, whole);
    }

    /** The first chunk of a new heap, split to just the wanted size; both parts are in their bins. */
    method SplitFirst(chunk: nat, n: nat, ghost b: nat) returns (ghost rest: nat)
      requires Valid() && b in heaps && AllFree(heaps[b]) && chunk == First(b)
      requires MIN_SIZE <= n && n + MIN_SIZE + HEAP_HEADER <= heaps[b].size
      modifies `mem, `freesz, `heaps, bins, bins.links, bins.lbins
      ensures rest == old(heaps[b].size) - HEAP_HEADER - n
      ensures Sound(b) && Tidy(b) && Focused(State(), b, [], Chunk(n, false), [Chunk(rest, false)], false, true)
      ensures b + 1 < |mem| && mem[b + 1] == 8 * FreeSum(heaps[b].cs) && b > 0 && |mem| == old(|mem|)
      ensures heaps.Keys == old(heaps.Keys) && forall c :: c in heaps && c != b ==> heaps[c] == old(heaps)[c]
      ensures heaps[b].size == old(heaps[b].size)
      ensures Kept(old(mem), mem, live) && bins.free == old(bins.free)[chunk := n][chunk + n := rest]
      ensures chunk in old(bins.free) && old(bins.free)[chunk] == n + rest && chunk + n !in old(bins.free)
    {
      hide Tiled, Sized, OkElse, Sum, FreeSum, Spare, Bins.Bins.Valid, WindowIs, TidyIn, Blocks, Coalesced, RangeHolds, Stands;
      ghost var st, c := State(), Chunk(heaps[b].size - HEAP_HEADER, false);
      rest := c.size - n;
      WholeFocus(b);
      CountedHeap(b);
      OnePlace(st, b, [], c, [], false, true);
      EmptySum();
      NoneInside(bins.free, chunk, c);
      WindowedFree();
      CutFirst(chunk, n, c.size, b);
      heaps := heaps[b := Heap(heaps[b].size, [] + [Chunk(n, false)] + ([Chunk(rest, false)] + []))];
      SplitState(st, State(), b, [], c, [], n);
      assert [Chunk(rest, false)] + [] == [Chunk(rest, false)];
      PayloadsStay(st, mem, b, [], c, [], false, true);
      SplitWindow(st, b, chunk, n, c.size);
    }

    lemma WholeFocus(b: nat)
      requires Valid() && b in heaps && AllFree(heaps[b])
      ensures Sound(b) && Tidy(b)
      ensures Focused(State(), b, [], Chunk(heaps[b].size - HEAP_HEADER, false), [], false, true)
    {
      var c := Chunk(heaps[b].size - HEAP_HEADER, false);
      assert heaps[b].cs == [] + [c] + [];
      OkFocus(State(), b, [], c, []);
    }

    lemma FirstStands(m1: seq<int>, m2: seq<int>, b: nat, a: nat, n: nat, whole: nat)
      requires n >= MIN_SIZE && a + whole <= |m1| && n < whole && m1[a] == Header(Chunk(n, false), true) && m1[a + 1] == b
      requires Stands(m1, b, a + n, Chunk(whole - n, false), false) && m2 == m1[a + n - 1 := 8 * n]
      ensures Stands(m2, b, a, Chunk(n, false), true) && Stands(m2, b, a + n, Chunk(whole - n, false), false)
    {
    }

    lemma SplitFree(free: map<nat, nat>, free': map<nat, nat>, a: nat, n: nat, whole: nat)
      requires free' == (free - {a})[a + n := whole - n][a := n] && 0 < n < whole
      ensures free' == free[a := n][a + n := whole - n]
    {
    }

    lemma SplitWindow(st: Store, b: nat, a: nat, n: nat, whole: nat)
      requires Windowed(st.heaps, st.free) && b in st.heaps && b < a && 0 < n < whole && a + whole <= b + st.heaps[b].size
      requires heaps.Keys == st.heaps.Keys && forall c :: c in heaps ==> heaps[c].size == st.heaps[c].size
      requires bins.free == st.free[a := n][a + n := whole - n]
      ensures Windowed(heaps, bins.free)
    {
    }

    /** The first of the two free chunks that a new heap was cut into becomes a block. */
    method TakeFirst(chunk: nat, n: nat, ghost rest: nat, ghost b: nat) returns (ptr: nat)
      requires Sound(b) && Tidy(b) && Focused(State(), b, [], Chunk(n, false), [Chunk(rest, false)], false, true) && n >= MIN_SIZE
      requires RetainedOk(retained, retainedsz, heaps) && b !in retained && chunk == First(b)
      requires b + 1 < |mem| && mem[b + 1] == 8 * FreeSum(heaps[b].cs) && b > 0
      modifies `mem, `freesz, `maxalloc, `retained, `retainedsz, `heaps, `live, bins, bins.links, bins.lbins
      ensures Valid() && RetainedOk(retained, retainedsz, heaps) && retained == old(retained) && heaps.Keys == old(heaps.Keys)
      ensures ptr == chunk + OVERHEAD && chunk !in old(live) && live == old(live)[chunk := n] && Kept(old(mem), mem, old(live))
      ensures bins.free == old(bins.free) - {chunk} && b in heaps && heaps[b].size == old(heaps[b].size)
    {
      hide Tiled, Sized, OkElse, Sum, FreeSum, Spare, Bins.Bins.Valid, WindowIs, TidyIn, Blocks, RetainedOk, Header,
           RangeHolds, Parts, Cut;
      EmptySum();
      ghost var st, c, post := State(), Chunk(n, false), [Chunk(rest, false)];
      OnePlace(st, b, [], c, post, false, true);
      ghost var hs := heaps;
      WithoutNone(retained, b);
      ptr := AllocFrom(chunk, n, b, [], c, post);
      heaps := heaps[b := Heap(heaps[b].size, [] + [Chunk(n, true)] + (Left(c, n) + post))];
      live := live[chunk := n];
      TakenState(st, State(), b, [], c, post, n);
      PayloadsStay(st, mem, b, [], c, post, false, true);
      RestCoalesced(n, rest);
      HandWindow(st, b, chunk, c, n);
      RetainedStill(hs, heaps, b);
      Settle(b, [], Chunk(n, true), Left(c, n) + post);
    }

    /** A block of exactly `n` words from the front of a new heap. */
    method HandFirst(chunk: nat, n: nat, ghost b: nat) returns (ptr: nat)
      requires Valid() && RetainedOk(retained, retainedsz, heaps) && b in heaps && AllFree(heaps[b]) && chunk == First(b)
      requires MIN_SIZE <= n && n + MIN_SIZE + HEAP_HEADER <= heaps[b].size && b !in retained
      modifies `mem, `freesz, `maxalloc, `retained, `retainedsz, `heaps, `live, bins, bins.links, bins.lbins
      ensures Valid() && RetainedOk(retained, retainedsz, heaps) && retained == old(retained) && heaps.Keys == old(heaps.Keys)
      ensures ptr == chunk + OVERHEAD && chunk !in old(live) && live == old(live)[chunk := n] && Kept(old(mem), mem, old(live))
      ensures Cut(old(bins.free), bins.free, chunk, old(heaps[b].size) - HEAP_HEADER, n, n)
      ensures heaps[b].size == old(heaps[b].size)
    {
      hide Tiled, Sized, OkElse, Sum, FreeSum, Spare, Bins.Bins.Valid, WindowIs, TidyIn, Blocks, RetainedOk, Header,
           RangeHolds, Parts, Focused;
      ghost var hs := heaps;
      ghost var rest := SplitFirst(chunk, n, b);
      RetainedStill(hs, heaps, b);
      ptr := TakeFirst(chunk, n, rest, b);
    }

    lemma RestCoalesced(n: nat, rest: nat)
      ensures Coalesced([] + [Chunk(n, true)] + (Left(Chunk(n, false), n) + [Chunk(rest, false)]))
    {
    }

    /** Rounding up to whole pages makes room for any small chunk and a rest. */
    lemma SmallFits(n: nat)
      requires n <= Bins.SMALL_MAX
      ensures HeapWordsFor(8 * n) == PAGE && HeapBytes(n) == 8 * n
    {
    }

    /** A new heap for a small chunk, of which the block is the front. */
    method HandNew(n: nat, at: nat) returns (ptr: nat)
      requires Valid() && RetainedOk(retained, retainedsz, heaps) && MIN_SIZE <= n <= Bins.SMALL_MAX
      requires at != 0 ==> Fresh(mem, heaps, at, HeapWordsFor(HeapBytes(n)))
      modifies this, bins, bins.links, bins.lbins
      ensures ptr != 0 ==> HandsOut(ptr, n) && Unkept(old(retained), retained, heaps, ptr - OVERHEAD)
      ensures ptr == 0 ==> at == 0 && Valid() && RetainedOk(retained, retainedsz, heaps) && live == old(live) && mem == old(mem)
      ensures ptr == 0 ==> heaps == old(heaps) && bins.free == old(bins.free) && retained == old(retained)
      ensures ptr != 0 ==> heaps.Keys != old(heaps.Keys)
      ensures ptr != 0 ==>
        FromHeap(old(heaps.Keys), heaps.Keys, old(bins.free), bins.free, ptr - OVERHEAD, n, live[ptr - OVERHEAD], at)
    {
      hide Tiled, Sized, OkElse, Sum, FreeSum, Spare, Bins.Bins.Valid, Windowed, TidyIn, Parts, Blocks, RetainedOk, Coalesced,
           HeapWordsFor, HeapBytes, Fresh, Cut, FromHeap;
      SmallFits(n);
      var heap := HeapAlloc(8 * n, at);
      if heap == 0 {
        return 0;
      }
      var chunk := First(heap);
      ghost var hs, free := heaps, bins.free;
      WithoutNone(retained, heap);
      ptr := HandFirst(chunk, n, heap);
      HeapServes(old(heaps), hs, old(bins.free), free, bins.free, n, n, at);
    }

    method AllocSmall(n: nat, at: nat) returns (ptr: nat)
      requires Valid() && RetainedOk(retained, retainedsz, heaps) && MIN_SIZE <= n <= Bins.SMALL_MAX
      requires at != 0 ==> Fresh(mem, heaps, at, HeapWordsFor(HeapBytes(n)))
      modifies this, bins, bins.links, bins.lbins
      ensures ptr != 0 ==> HandsOut(ptr, n) && Unkept(old(retained), retained, heaps, ptr - OVERHEAD)
      ensures ptr == 0 ==> at == 0 && Valid() && RetainedOk(retained, retainedsz, heaps) && live == old(live) && mem == old(mem)
      ensures ptr == 0 ==> heaps == old(heaps) && bins.free == old(bins.free) && retained == old(retained)
      ensures ptr != 0 ==>
        Served(old(heaps.Keys), heaps.Keys, old(bins.free), bins.free, ptr - OVERHEAD, n, live[ptr - OVERHEAD], at)
      ensures heaps.Keys != old(heaps.Keys) || ptr == 0 ==> NoneFits(old(bins.free), n)
    {
      hide Tiled, Sized, OkElse, Sum, FreeSum, Spare, Bins.Bins.Valid, Windowed, TidyIn, Parts, Blocks, RetainedOk, Coalesced,
           HeapWordsFor, HeapBytes, Fresh, ChunkValidWhy, HeapSizeValid, Cut, FromHeap, Unkept, LargeServed;
      var chunk, idx := bins.FindSmall(n);
      if chunk == 0 {
        var any := bins.AnyLarge();
        if any {
          ptr := AllocLarge(n, at);
          LargeAfterSmall(old(bins.free), n);
          return;
        }
      }
      var found := chunk != 0;
      if found {
        FreeIsValid(chunk);
        found := ChunkInWindow(chunk) && ChunkValidWhy(chunk, mem[chunk + 1]) == 0;
        bins.DropSmall(idx, found);
      }
      if found {
        ptr := Hand(chunk, n);
      } else {
        ptr := HandNew(n, at);
      }
    }

    static lemma LargeAfterSmall(free: map<nat, nat>, n: nat)
      requires forall a :: a in free && free[a] <= Bins.SMALL_MAX ==> free[a] < n
      ensures NoLargeFits(free, n) ==> NoneFits(free, n)
      ensures forall hs, hs', free', a, t, at ::
        LargeServed(hs, hs', free, free', a, n, t, at) ==> Served(hs, hs', free, free', a, n, t, at)
    {
      hide FromFree, FromHeap;
    }

    /** Allocates a block of at least `size` bytes; `at` is where the kernel would map a heap for it, null if it could not. */
    method Alloc(size: nat, at: nat) returns (ptr: nat)
      requires Valid() && RetainedOk(retained, retainedsz, heaps)
      requires at != 0 ==> Fresh(mem, heaps, at, HeapWordsFor(HeapBytes(ChunkWords(if size == 0 then 1 else size))))
      modifies this, bins, bins.links, bins.lbins
      ensures ptr != 0 ==> HandsOut(ptr, ChunkWords(if size == 0 then 1 else size)) && Unkept(old(retained), retained, heaps, ptr - OVERHEAD)
      ensures ptr == 0 ==> at == 0 && Valid() && RetainedOk(retained, retainedsz, heaps) && live == old(live) && mem == old(mem)
      ensures ptr == 0 ==> heaps == old(heaps) && bins.free == old(bins.free) && retained == old(retained)
      ensures var n := ChunkWords(if size == 0 then 1 else size);
        && (ptr != 0 ==>
              Served(old(heaps.Keys), heaps.Keys, old(bins.free), bins.free, ptr - OVERHEAD, n, live[ptr - OVERHEAD], at))
        && (heaps.Keys != old(heaps.Keys) || ptr == 0 ==> NoneFits(old(bins.free), n))
    {
      hide Tiled, Sized, OkElse, Sum, FreeSum, Spare, Bins.Bins.Valid, WindowIs, TidyIn, Blocks, RetainedOk, Fresh, HeapWordsFor,
           HeapBytes, Kept, Served, LargeServed, Unkept, NoneFits, NoLargeFits, ChunkWords, Coalesced;
      var n := ChunkWords(if size == 0 then 1 else size);
      if n <= Bins.SMALL_MAX {
        ptr := AllocSmall(n, at);
      } else {
        ptr := AllocLarge(n, at);
        LargeAfterSmall(old(bins.free), n);
      }
    }

    // ----- realloc -----

    /** A chunk's size, heap and footer. */
    method InitChunk(chunk: nat, heap: int, size: nat)
      requires MIN_SIZE <= size && chunk + size <= |mem|
      modifies `mem
      ensures SameBut(old(mem), mem, chunk, chunk + size)
      ensures mem[chunk] == 8 * size && mem[chunk + 1] == heap && mem[chunk + size - 1] == 8 * size
    {
      hide SizeOf, Header;
      HeaderIs(size, 0);
      HeaderParts(Chunk(size, false), false);
      mem := mem[chunk := 8 * size];
      mem := mem[chunk + 1 := heap];
      SetFooter(chunk);
    }

    /** The words and the bin of what a block in use does not need. */
    method CutWords(chunk: nat, n: nat, ghost b: nat, ghost u: Chunk, ghost pused: bool)
      requires Counted() && u.used && b + 1 < chunk && chunk + u.size <= |mem| && MIN_SIZE <= n && n + MIN_SIZE <= u.size
      requires mem[chunk] == Header(u, pused) && mem[chunk + 1] == b && chunk + n !in bins.free
      modifies `mem, `freesz, bins, bins.links, bins.lbins
      ensures Counted() && bins.free == old(bins.free)[chunk + n := u.size - n] && |mem| == old(|mem|)
      ensures Beside(old(mem), mem, b, chunk, chunk + n, chunk + u.size) && mem[b + 1] == old(mem)[b + 1] + 8 * (u.size - n)
      ensures Stands(mem, b, chunk, Chunk(n, true), pused) && Stands(mem, b, chunk + n, Chunk(u.size - n, false), true)
    {
      hide Spare, Bins.Bins.Valid, Header, SizeOf, Stands;
      CutHeaders(mem[chunk], u, n, pused);
      var sibling := chunk + n;
      var rest := SizeOf(mem[chunk]) - n;
      InitChunk(sibling, mem[chunk + 1], rest);
      mem := mem[sibling := mem[sibling] + 1];
      ChunkAdd(sibling);
      var heap := mem[chunk + 1];
      mem := mem[heap + 1 := mem[heap + 1] + 8 * rest];
      mem := mem[chunk := 8 * n + 2 + mem[chunk] % 2];
      CutStands(mem, b, chunk, Chunk(n, true), Chunk(u.size - n, false), pused);
    }

    /** A block in use with room to spare keeps `n` words, and the others become a free chunk behind it. */
    method CutOff(chunk: nat, n: nat, ghost b: nat, ghost pre: seq<Chunk>, ghost u: Chunk, ghost post: seq<Chunk>)
      requires Sound(b) && Tidy(b) && Focused(State(), b, pre, u, post, true, true) && u.used && chunk == First(b) + Sum(pre)
      requires b + 1 < |mem| && mem[b + 1] == 8 * FreeSum(heaps[b].cs) && b > 0
      requires MIN_SIZE <= n && n + MIN_SIZE <= u.size
      modifies `mem, `freesz, `heaps, `live, bins, bins.links, bins.lbins
      ensures var d, e := Chunk(n, true), Chunk(u.size - n, false);
        && Sound(b) && Tidy(b) && Focused(State(), b, pre + [d], e, post, true, true)
        && heaps == old(heaps)[b := Heap(old(heaps[b].size), pre + [d] + [e] + post)]
      ensures live == old(live)[chunk := n] && b + 1 < |mem| && mem[b + 1] == 8 * FreeSum(heaps[b].cs)
      ensures Beside(old(mem), mem, b, chunk, chunk + n, chunk + u.size)
    {
      hide Tiled, Sized, OkElse, RangeHolds, SameOutside, Blocks, Sum, FreeSum, Spare, Bins.Bins.Valid, Windowed, TidyIn, Parts,
           HeapSizeValid, IsLastIn, Focused, Header, SizeOf, Stands, Beside, Counted;
      ghost var st, d, e := State(), Chunk(n, true), Chunk(u.size - n, false);
      OnePlace(st, b, pre, u, post, true, true);
      Neighbourhood(b, pre, u, post, true, true);
      NoneUsed(st.free, chunk, u);
      InWindow(b, chunk + n);
      CutWords(chunk, n, b, u, LastUsed(pre, true));
      heaps := heaps[b := Heap(heaps[b].size, pre + [d, e] + post)];
      live := live[chunk := n];
      CutState(st, b, pre, u, post, d, e);
      WindowedStill(st.heaps, heaps, st.free, bins.free);
    }

    lemma CutState(st: Store, b: nat, pre: seq<Chunk>, u: Chunk, post: seq<Chunk>, d: Chunk, e: Chunk)
      requires OkElse(st, b) && Focused(st, b, pre, u, post, true, true) && u.used && TidyIn(st.mem, st.heaps, b)
      requires b + 1 < |st.mem| && st.mem[b + 1] == 8 * FreeSum(st.heaps[b].cs)
      requires d.size + e.size == u.size && d.size >= MIN_SIZE && e.size >= MIN_SIZE && d.used && !e.used
      requires var a := First(b) + Sum(pre);
        && Beside(st.mem, mem, b, a, a + d.size, a + u.size) && mem[b + 1] == st.mem[b + 1] + 8 * e.size
        && Stands(mem, b, a, d, LastUsed(pre, true)) && Stands(mem, b, a + d.size, e, true)
        && heaps == st.heaps[b := Heap(st.heaps[b].size, pre + [d, e] + post)]
        && bins.free == st.free[a + d.size := e.size] && live == st.live[a := d.size]
      ensures OkElse(State(), b) && Tidy(b) && Focused(State(), b, pre + [d], e, post, true, true)
      ensures heaps == st.heaps[b := Heap(st.heaps[b].size, pre + [d] + [e] + post)]
      ensures mem[b + 1] == 8 * FreeSum(heaps[b].cs)
    {
      hide Tiled, Sized, OkElse, RangeHolds, SameOutside, Blocks, Sum, FreeSum, TidyIn, Parts, Focused, Header, Stands, Beside, Rest;
      var a := First(b) + Sum(pre);
      OnePlace(st, b, pre, u, post, true, true);
      BesideRest(st.mem, mem, b, a, a + d.size, a + u.size);
      PartedTiled(st.mem, mem, b, pre, u, post, d, e);
      RestWider(st.mem, mem, b + 1, a, a + u.size, a + u.size + if post == [] then 0 else 1);
      UsedSplit(st, State(), b, pre, u, post, d, e, true);
      assert pre + [d, e] + post == pre + [d] + [e] + post;
      FocusIs(State(), b, pre + [d], e, post, true, true);
    }

    lemma NoneUsed(m: map<nat, nat>, a: nat, u: Chunk)
      requires RangeHolds(m, a, [u], false) && u.used
      ensures forall x :: a <= x < a + u.size ==> x !in m
    {
      OneBlock(a, u);
      forall x | a <= x < a + u.size
        ensures x !in m
      {
        assert Holds(m, Blocks(a, [u]), false, x);
      }
    }

    lemma CutHeaders(w: int, u: Chunk, n: nat, pused: bool)
      requires w == Header(u, pused) && n <= u.size
      ensures 8 * n + 2 + w % 2 == Header(Chunk(n, true), pused) && 8 * (u.size - n) + 1 == Header(Chunk(u.size - n, false), true)
      ensures SizeOf(w) == u.size && SizeOf(8 * (u.size - n) + 1) == u.size - n
    {
      hide SizeOf;
      HeaderParts(u, pused);
      HeaderParts(Chunk(u.size - n, false), true);
      assert w % 2 == if pused then 1 else 0;
    }

    lemma CutStands(m: seq<int>, b: nat, a: nat, d: Chunk, e: Chunk, pused: bool)
      requires d.size >= MIN_SIZE && e.size >= MIN_SIZE && a + d.size + e.size <= |m| && d.used
      requires m[a] == Header(d, pused) && m[a + 1] == b && m[a + d.size] == Header(e, true) && m[a + d.size + 1] == b
      requires m[a + d.size + e.size - 1] == 8 * e.size
      ensures Stands(m, b, a, d, pused) && Stands(m, b, a + d.size, e, d.used)
    {
    }

    /** Clears the flag PUSED of the chunk behind a free one. */
    method Unflag(chunk: nat, ghost b: nat, ghost pre: seq<Chunk>, ghost c: Chunk, ghost post: seq<Chunk>, ghost flag: bool)
      requires Sound(b) && Tidy(b) && Focused(State(), b, pre, c, post, flag, true) && !c.used && chunk == First(b) + Sum(pre)
      modifies `mem
      ensures Sound(b) && Tidy(b) && Focused(State(), b, pre, c, post, false, true)
      ensures b + 1 < |mem| && mem[b + 1] == old(mem)[b + 1]
      ensures SameBut(old(mem), mem, chunk + c.size, chunk + c.size + 1)
    {
      hide Tiled, Sized, OkElse, Sum, FreeSum, Spare, Bins.Bins.Valid, Windowed, TidyIn, Parts, Blocks, HeapSizeValid,
           IsLastIn, Header, ChunkValidWhy, SizeOf;
      ghost var st := State();
      Neighbourhood(b, pre, c, post, flag, true);
      OnePlace(st, b, pre, c, post, flag, true);
      FlagNext(chunk, false, b, pre, c, post, flag, true);
      Flagged(st, State(), b, pre, c, post, flag);
    }

    /** What a block in use does not need goes to a free chunk behind it, which joins the free ones that follow. */
    method Shrink(chunk: nat, n: nat, ghost b: nat, ghost pre: seq<Chunk>, ghost u: Chunk, ghost post: seq<Chunk>)
      requires Sound(b) && Tidy(b) && Focused(State(), b, pre, u, post, true, true) && u.used && chunk == First(b) + Sum(pre)
      requires b + 1 < |mem| && mem[b + 1] == 8 * FreeSum(heaps[b].cs) && b > 0 && Coalesced(pre) && Coalesced(post)
      requires MIN_SIZE <= n && n + MIN_SIZE <= u.size
      modifies `mem, `freesz, `heaps, `live, bins, bins.links, bins.lbins
      ensures Valid() && live == old(live)[chunk := n] && Kept(old(mem), mem, live)
      ensures b in heaps && heaps == old(heaps)[b := Heap(old(heaps[b].size), heaps[b].cs)]
    {
      hide Tiled, Sized, OkElse, Sum, FreeSum, Spare, Bins.Bins.Valid, Windowed, TidyIn, Parts, Blocks, HeapSizeValid,
           IsLastIn, Header, ChunkValidWhy, SizeOf;
      ghost var m, d, e := mem, Chunk(n, true), Chunk(u.size - n, false);
      CutOff(chunk, n, b, pre, u, post);
      var sibling := chunk + n;
      ghost var st := State();
      AfterOne(pre, d);
      CoalescedAround(pre, d, []);
      assert pre + [d] + [] == pre + [d];
      JoiningUnfooted(b, pre + [d], e, post, true, sibling);
      ghost var it, front, c, back, flag := Join(sibling, b, pre + [d], e, post, true);
      AfterJoin(st, State(), b, front, c, back, flag);
      ghost var m2 := mem;
      Unflag(sibling, b, front, c, back, flag);
      BesideThrough(m, st.mem, m2, mem, b, chunk, chunk + n, chunk + u.size, chunk + n, chunk + n + c.size);
      HeadersKept(m, State(), b, front, c, back, false, true, chunk);
      Settle(b, front, c, back);
    }

    /** Takes words of the free chunk behind a block and adds them to the block's size. */
    method Extend(chunk: nat, next: nat, more: nat, ghost b: nat, ghost pre: seq<Chunk>, ghost c: Chunk, ghost post: seq<Chunk>)
      returns (ghost m1: seq<int>)
      requires Sound(b) && Focused(State(), b, pre, c, post, false, true) && !c.used && next == First(b) + Sum(pre)
      requires LastUsed(pre, true) && 1 <= more <= c.size && RetainedOk(retained, retainedsz, heaps)
      requires b + 1 < |mem| && mem[b + 1] == 8 * FreeSum(heaps[b].cs) && chunk < next
      modifies `mem, `freesz, `maxalloc, `retained, `retainedsz, bins, bins.links, bins.lbins
      ensures var t := Taken(c.size, more);
        && Counted() && TakenFrom(old(mem), m1, b, pre, c, post, t) && bins.free == LeftFree(old(bins.free), next, c, t)
        && chunk < |m1| && mem == m1[chunk := m1[chunk] + 8 * t]
      ensures RetainedOk(retained, retainedsz, heaps) && b !in retained
    {
      hide Tiled, Sized, OkElse, Sum, FreeSum, Spare, Bins.Bins.Valid, WindowIs, RetainedOk, Header, Left, LeftFree, SizeOf;
      HeaderParts(Chunk(Taken(c.size, more), true), true);
      var p := AllocFrom(next, more, b, pre, c, post);
      m1 := mem;
      mem := mem[chunk := mem[chunk] + 8 * SizeOf(mem[next])];
      var usable := 8 * SizeOf(mem[chunk]) - 8 * OVERHEAD;
      if maxalloc < usable {
        maxalloc := usable;
      }
    }

    /** A block in use grows over the free chunk behind it, or over as much of that as it wants. */
    method Grow(chunk: nat, next: nat, more: nat, ghost b: nat, ghost pre: seq<Chunk>, ghost u: Chunk, ghost c: Chunk,
                ghost post: seq<Chunk>)
      requires Sound(b) && Tidy(b) && Focused(State(), b, pre, u, [c] + post, true, true) && u.used && !c.used
      requires chunk == First(b) + Sum(pre) && next == chunk + u.size && 1 <= more <= c.size
      requires b + 1 < |mem| && mem[b + 1] == 8 * FreeSum(heaps[b].cs) && b > 0
      requires Coalesced(pre) && Coalesced([c] + post) && RetainedOk(retained, retainedsz, heaps)
      modifies `mem, `freesz, `maxalloc, `retained, `retainedsz, `heaps, `live, bins, bins.links, bins.lbins
      ensures Valid() && RetainedOk(retained, retainedsz, heaps)
      ensures live == old(live)[chunk := u.size + Taken(c.size, more)] && Kept(old(mem), mem, old(live))
      ensures heaps.Keys == old(heaps.Keys)
    {
      hide Tiled, Sized, OkElse, Sum, FreeSum, Spare, Bins.Bins.Valid, WindowIs, TidyIn, Parts, Blocks, RetainedOk, Header,
           RangeHolds, Coalesced, Left, LeftFree, Focused, SizeOf, TakenFrom;
      ghost var st, hs, t := State(), heaps, Taken(c.size, more);
      AfterOne(pre, u);
      GrownFocus(st, b, pre, u, c, post);
      assert pre + [u] + [c] + post == pre + [u, c] + post;
      FocusIs(st, b, pre + [u], c, post, false, true);
      ghost var m1 := Extend(chunk, next, more, b, pre + [u], c, post);
      heaps := heaps[b := Heap(heaps[b].size, pre + [Chunk(u.size + t, true)] + (Left(c, t) + post))];
      live := live[chunk := u.size + t];
      Grew(st, m1, b, pre, u, c, post, t);
      RetainedStill(hs, heaps, b);
      HandWindow(st, b, next, c, t);
      GrownCoalesced(pre, Chunk(u.size + t, true), c, post, t);
      Settle(b, pre, Chunk(u.size + t, true), Left(c, t) + post);
    }

    lemma Grew(st: Store, m1: seq<int>, b: nat, pre: seq<Chunk>, u: Chunk, c: Chunk, post: seq<Chunk>, t: nat)
      requires OkElse(st, b) && Focused(st, b, pre, u, [c] + post, true, true) && u.used && !c.used && 0 < t <= c.size
      requires Focused(st, b, pre + [u], c, post, false, true)
      requires TidyIn(st.mem, st.heaps, b) && b + 1 < |st.mem| && st.mem[b + 1] == 8 * FreeSum(st.heaps[b].cs)
      requires TakenFrom(st.mem, m1, b, pre + [u], c, post, t)
      requires var a := First(b) + Sum(pre);
        && a < |m1| && mem == m1[a := m1[a] + 8 * t]
        && heaps == st.heaps[b := Heap(st.heaps[b].size, pre + [Chunk(u.size + t, true)] + (Left(c, t) + post))]
        && bins.free == LeftFree(st.free, a + u.size, c, t) && live == st.live[a := u.size + t]
      ensures OkElse(State(), b) && Focused(State(), b, pre, Chunk(u.size + t, true), Left(c, t) + post, true, true)
      ensures Tidy(b) && mem[b + 1] == 8 * FreeSum(heaps[b].cs) && Kept(st.mem, mem, st.live)
    {
      hide Tiled, Sized, OkElse, Sum, FreeSum, TidyIn, Parts, Blocks, Header, RangeHolds, Left, LeftFree, Focused;
      var a := First(b) + Sum(pre);
      AfterOne(pre, u);
      OnePlace(st, b, pre, u, [c] + post, true, true);
      assert m1[a] == st.mem[a];
      GrownState(st, m1, State(), b, pre, u, c, post, t);
      PayloadsStay(st, m1, b, pre + [u], c, post, false, true);
      HeaderKept(st, b, m1, a, m1[a] + 8 * t);
    }

    /** Copies words to a place apart from theirs. */
    method Copy(target: nat, source: nat, words: nat)
      requires target + words <= |mem| && source + words <= |mem| && (target + words <= source || source + words <= target)
      modifies `mem
      ensures SameBut(old(mem), mem, target, target + words) && Carried(old(mem), mem, source, target, words)
    {
      for i := 0 to words
        invariant SameBut(old(mem), mem, target, target + words) && Carried(old(mem), mem, source, target, i)
      {
        mem := mem[target + i := mem[source + i]];
      }
    }

    /** Words written into a block in use leave everything in order. */
    lemma WrittenStill(st: Store, a: nat)
      requires Ok(st) && TidyIn(st.mem, st.heaps, 0) && a in st.live && State() == st.(mem := mem)
      requires SameBut(st.mem, mem, a + OVERHEAD, a + st.live[a]) && Windowed(heaps, bins.free)
      requires Counted()
      ensures Valid() && Kept(st.mem, mem, live - {a})
    {
      hide Tiled, Sized, Sum, FreeSum, Spare, Bins.Bins.Valid, WindowIs, OkElse, TidyIn;
      PayloadWritten(st, mem, a);
      OthersKept(st, mem, a);
    }

    /** A block has the words that are wanted, and fewer more than would make a chunk. */
    static predicate Near(size: nat, n: nat) {
      n <= size < n + MIN_SIZE
    }

    /** The block at `a` stays where it is if `n` words are wanted, with `behind` free words behind it. */
    static predicate InPlace(live: map<nat, nat>, live': map<nat, nat>, a: nat, behind: nat, n: nat) {
      && a in live && a in live' && live' == live[a := live'[a]]
      && var whole, size := live[a], live'[a];
        && (n <= whole ==> Near(size, n) && (size == n || size == whole))
        && (n > whole ==> size >= n && (size == n || size == whole + behind))
        && (n > whole + 1 ==> Near(size, n))
        && (n == whole + 1 ==> size == whole + behind)
    }

    static predicate Elsewhere(live: map<nat, nat>, ptr: nat, n: nat) {
      ptr >= OVERHEAD && ptr - OVERHEAD in live && Near(live[ptr - OVERHEAD], n)
    }

    /** Moves a block to a larger one and frees the old one. */
    method Move(ptr: nat, n: nat, at: nat) returns (res: nat)
      requires Valid() && RetainedOk(retained, retainedsz, heaps)
      requires ptr >= OVERHEAD && ptr - OVERHEAD in live && live[ptr - OVERHEAD] < n
      requires at != 0 ==> Fresh(mem, heaps, at, HeapWordsFor(HeapBytes(ChunkWords(8 * n))))
      modifies this, bins, bins.links, bins.lbins
      ensures Valid() && RetainedOk(retained, retainedsz, heaps)
      ensures res != 0 ==> res >= OVERHEAD && Resized(old(mem), mem, old(live), live, ptr - OVERHEAD, res - OVERHEAD, n)
      ensures res == 0 ==> at == 0 && live == old(live) && mem == old(mem)
      ensures !(heaps.Keys <= old(heaps.Keys)) || res == 0 ==> NoneFits(old(bins.free), ChunkWords(8 * n))
      ensures res != 0 ==> res != ptr && Elsewhere(live, res, ChunkWords(8 * n))
    {
      hide Tiled, Sized, Sum, FreeSum, Spare, Bins.Bins.Valid, WindowIs, TidyIn, Blocks, RetainedOk, HeapWordsFor, HeapBytes,
           Fresh, OkElse, Kept, Carried, NoneFits, Served, Unkept, Vacates, Owner, ChunkWords;
      ghost var was, live0, m0 := ptr - OVERHEAD, live, mem;
      LiveHeader(was);
      var chunksz := SizeOf(mem[ptr - OVERHEAD]);
      LiveSized(State(), 0, was);
      res := Alloc(8 * n, at);
      if res != 0 {
        ghost var a, st := res - OVERHEAD, State();
        KeptLength(m0, mem, live0);
        LiveSized(st, 0, was);
        LiveSized(st, 0, a);
        BothApart(was, a);
        Copy(res, ptr, chunksz - OVERHEAD);
        CopyInside(st.mem, mem, res, chunksz - OVERHEAD, a, live[a]);
        WrittenStill(st, a);
        ghost var m2 := mem;
        Free(ptr);
        MovedKept(m0, st.mem, m2, mem, live0, live, was, a, chunksz - OVERHEAD);
      }
    }

    lemma KeptLength(m: seq<int>, m': seq<int>, kept: map<nat, nat>)
      requires Kept(m, m', kept)
      ensures |m'| == |m|
    {
    }

    lemma LiveHeader(a: nat)
      requires Valid() && a in live
      ensures a < |mem| && SizeOf(mem[a]) == live[a]
    {
      hide Tiled, Sized, Sum, FreeSum, Spare, Bins.Bins.Valid, WindowIs, TidyIn, Blocks, OkElse, HeapSizeValid, ChunkValidWhy;
      var b, pre, c, post := FindLive(a);
      Neighbourhood(b, pre, c, post, true, true);
    }

    lemma BothApart(x: nat, y: nat)
      requires OkElse(State(), 0) && x in live && y in live && x != y
      ensures x + live[x] <= y || y + live[y] <= x
    {
      if x < y {
        LiveApart(State(), 0, x, y);
      } else {
        LiveApart(State(), 0, y, x);
      }
    }

    /** Resizes a block to at least `n` words: where it is, or by moving it. */
    method Resize(ptr: nat, n: nat, at: nat) returns (res: nat)
      requires Valid() && RetainedOk(retained, retainedsz, heaps) && n >= MIN_SIZE
      requires ptr >= OVERHEAD && ptr - OVERHEAD in live
      requires at != 0 ==> Fresh(mem, heaps, at, HeapWordsFor(HeapBytes(ChunkWords(8 * n))))
      modifies this, bins, bins.links, bins.lbins
      ensures Valid() && RetainedOk(retained, retainedsz, heaps)
      ensures res != 0 ==> res >= OVERHEAD && Resized(old(mem), mem, old(live), live, ptr - OVERHEAD, res - OVERHEAD, n)
      ensures var was, whole := ptr - OVERHEAD, old(live)[ptr - OVERHEAD];
        && (n <= whole ==> res == ptr && heaps.Keys == old(heaps.Keys) && InPlace(old(live), live, was, 0, n))
        && (n > whole && was + whole in old(bins.free) && old(bins.free)[was + whole] >= n - whole ==>
              res == ptr && InPlace(old(live), live, was, old(bins.free)[was + whole], n))
        && (n > whole && !(was + whole in old(bins.free) && old(bins.free)[was + whole] >= n - whole) && res != 0 ==>
              res != ptr && Elsewhere(live, res, ChunkWords(8 * n)))
      ensures res == 0 ==> at == 0 && live == old(live) && mem == old(mem)
      ensures !(heaps.Keys <= old(heaps.Keys)) ==> NoneFits(old(bins.free), ChunkWords(8 * n))
    {
      hide Tiled, Sized, Sum, FreeSum, Spare, Bins.Bins.Valid, WindowIs, TidyIn, Blocks, RetainedOk, HeapWordsFor, HeapBytes,
           Fresh, OkElse, Kept, Carried, NoneFits, Parts, Coalesced, HeapSizeValid, ChunkValidWhy, IsLastIn, Resized, Header,
           SizeOf, ChunkWords, Focused;
      res := 0;
      var chunk := ptr - OVERHEAD;
      ghost var b, pre, u, post := FindLive(chunk);
      Neighbourhood(b, pre, u, post, true, true);
      OnePlace(State(), b, pre, u, post, true, true);
      BehindIndexed(State(), b, pre, u, post);
      LiveNotRetained(b, pre, u, post);
      var heap := mem[chunk + 1];
      if ChunkValidWhy(chunk, heap) != 0 {
        return;
      }
      var chunksz := SizeOf(mem[chunk]);
      if n < chunksz && CanSplit(chunk, n) {
        ghost var hs := heaps;
        Shrink(chunk, n, b, pre, u, post);
        RetainedStill(hs, heaps, b);
        ResizedInPlace(old(mem), mem, old(live), live, chunk, n, n);
      } else if n > chunksz {
        var next := if IsLastIn(chunk, heap) then 0 else chunk + SizeOf(mem[chunk]);
        if next != 0 {
          Following(b, pre, u, post, true, true, chunk);
        }
        if next != 0 && !Cused(mem[next]) && SizeOf(mem[next]) >= n - chunksz {
          Grow(chunk, next, n - chunksz, b, pre, u, post[0], post[1..]);
          ResizedInPlace(old(mem), mem, old(live), live, chunk, live[chunk], n);
        } else {
          res := Move(ptr, n, at);
          return;
        }
      } else {
        KeptAll(mem, live);
        ResizedInPlace(mem, mem, live, live, chunk, chunksz, n);
      }
      res := ptr;
    }

    lemma KeptAll(m: seq<int>, kept: map<nat, nat>)
      ensures Kept(m, m, kept)
    {
    }

    /** The words of the block that a reallocation may have to allocate. */
    static function ReallocWords(ptr: nat, size: nat): nat {
      if ptr == 0 then ChunkWords(if size == 0 then 1 else size) else ChunkWords(8 * ChunkWords(size))
    }

    /** Resizes a block: where it is if it need not grow or the free chunk behind it is large enough, else by moving it. */
    method Realloc(ptr: nat, size: nat, at: nat) returns (res: nat)
      requires Valid() && RetainedOk(retained, retainedsz, heaps)
      requires ptr != 0 ==> ptr >= OVERHEAD && ptr - OVERHEAD in live
      requires at != 0 ==> Fresh(mem, heaps, at, HeapWordsFor(HeapBytes(ReallocWords(ptr, size))))
      modifies this, bins, bins.links, bins.lbins
      ensures Valid() && RetainedOk(retained, retainedsz, heaps)
      ensures ptr == 0 && res != 0 ==> HandsOut(res, ChunkWords(if size == 0 then 1 else size))
      ensures ptr != 0 && size == 0 ==> res == 0 && live == old(live) - {ptr - OVERHEAD} && Kept(old(mem), mem, live)
      ensures ptr != 0 && size != 0 && res != 0 ==>
        res >= OVERHEAD && Resized(old(mem), mem, old(live), live, ptr - OVERHEAD, res - OVERHEAD, ChunkWords(size))
      ensures ptr != 0 && size != 0 ==>
        var was, whole, n := ptr - OVERHEAD, old(live)[ptr - OVERHEAD], ChunkWords(size);
          && (n <= whole ==> res == ptr && heaps.Keys == old(heaps.Keys) && InPlace(old(live), live, was, 0, n))
          && (n > whole && was + whole in old(bins.free) && old(bins.free)[was + whole] >= n - whole ==>
                res == ptr && InPlace(old(live), live, was, old(bins.free)[was + whole], n))
          && (n > whole && !(was + whole in old(bins.free) && old(bins.free)[was + whole] >= n - whole) && res != 0 ==>
                res != ptr && Elsewhere(live, res, ChunkWords(8 * n)))
      ensures res == 0 && (ptr == 0 || size != 0) ==> at == 0 && live == old(live) && mem == old(mem)
      ensures !(heaps.Keys <= old(heaps.Keys)) ==> NoneFits(old(bins.free), ReallocWords(ptr, size))
    {
      hide Tiled, Sized, Sum, FreeSum, Spare, Bins.Bins.Valid, WindowIs, TidyIn, Blocks, RetainedOk, HeapWordsFor, HeapBytes,
           Fresh, OkElse, Kept, Carried, NoneFits, Resized, ChunkWords;
      if ptr == 0 {
        res := Alloc(size, at);
      } else if size == 0 {
        Free(ptr);
        res := 0;
      } else {
        var n := ChunkWords(size);
        res := Resize(ptr, n, at);
      }
    }

    // ----- Aligned blocks -----

    /** The words and the bin of the front of a block that is given up. */
    method LeadWords(chunk: nat, lead: nat, ghost b: nat, ghost u: Chunk, ghost pused: bool)
      requires Counted() && u.used && b + 1 < chunk && chunk + u.size <= |mem| && MIN_SIZE <= lead && lead + MIN_SIZE <= u.size
      requires mem[chunk] == Header(u, pused) && mem[chunk + 1] == b && chunk !in bins.free
      modifies `mem, `freesz, bins, bins.links, bins.lbins
      ensures Counted() && bins.free == old(bins.free)[chunk := lead] && |mem| == old(|mem|)
      ensures Rest(old(mem), mem, b + 1, chunk, chunk + lead + OVERHEAD) && mem[b + 1] == old(mem)[b + 1] + 8 * lead
      ensures Stands(mem, b, chunk, Chunk(lead, false), pused)
      ensures Stands(mem, b, chunk + lead, Chunk(u.size - lead, true), false)
    {
      hide Spare, Bins.Bins.Valid, Header, SizeOf, Stands;
      LeadHeaders(mem[chunk], u, lead, pused);
      var heap := mem[chunk + 1];
      var chunksz := SizeOf(mem[chunk]);
      var aligned := chunk + lead;
      mem := mem[aligned + 1 := heap];
      mem := mem[aligned := 8 * (chunksz - lead) + 2];
      mem := mem[chunk := 8 * lead + mem[chunk] % 2];
      SetFooter(chunk);
      mem := mem[heap + 1 := mem[heap + 1] + 8 * lead];
      ChunkAdd(chunk);
      LeadStands(mem, b, chunk, Chunk(lead, false), Chunk(u.size - lead, true), pused);
    }

    lemma LeadHeaders(w: int, u: Chunk, lead: nat, pused: bool)
      requires w == Header(u, pused) && lead <= u.size
      ensures SizeOf(w) == u.size && 8 * (u.size - lead) + 2 == Header(Chunk(u.size - lead, true), false)
      ensures 8 * lead + w % 2 == Header(Chunk(lead, false), pused) && SizeOf(8 * lead + w % 2) == lead
    {
      hide SizeOf;
      HeaderParts(u, pused);
      HeaderParts(Chunk(lead, false), pused);
      assert w % 2 == if pused then 1 else 0;
    }

    lemma LeadStands(m: seq<int>, b: nat, a: nat, d: Chunk, e: Chunk, pused: bool)
      requires d.size >= MIN_SIZE && e.size >= MIN_SIZE && a + d.size + e.size <= |m| && !d.used && e.used
      requires m[a] == Header(d, pused) && m[a + 1] == b && m[a + d.size] == Header(e, false) && m[a + d.size + 1] == b
      requires m[a + d.size - 1] == 8 * d.size
      ensures Stands(m, b, a, d, pused) && Stands(m, b, a + d.size, e, false)
    {
    }

    /** The front of a block in use becomes a free chunk, the rest stays a block. */
    method Part(chunk: nat, lead: nat, ghost b: nat, ghost pre: seq<Chunk>, ghost u: Chunk, ghost post: seq<Chunk>)
      requires Sound(b) && Tidy(b) && Focused(State(), b, pre, u, post, true, true) && u.used && chunk == First(b) + Sum(pre)
      requires b + 1 < |mem| && mem[b + 1] == 8 * FreeSum(heaps[b].cs) && b > 0
      requires MIN_SIZE <= lead && lead + MIN_SIZE <= u.size
      modifies `mem, `freesz, `heaps, `live, bins, bins.links, bins.lbins
      ensures var d, e := Chunk(lead, false), Chunk(u.size - lead, true);
        && Sound(b) && Tidy(b) && Focused(State(), b, pre, d, [e] + post, false, true)
        && heaps == old(heaps)[b := Heap(old(heaps[b].size), pre + [d] + ([e] + post))]
      ensures live == (old(live) - {chunk})[chunk + lead := u.size - lead]
      ensures b + 1 < |mem| && mem[b + 1] == 8 * FreeSum(heaps[b].cs)
      ensures Rest(old(mem), mem, b + 1, chunk, chunk + lead + OVERHEAD)
    {
      hide Tiled, Sized, OkElse, RangeHolds, SameOutside, Blocks, Sum, FreeSum, Spare, Bins.Bins.Valid, Windowed, TidyIn, Parts,
           HeapSizeValid, IsLastIn, Focused, Header, SizeOf, Stands, Counted;
      ghost var st, d, e := State(), Chunk(lead, false), Chunk(u.size - lead, true);
      OnePlace(st, b, pre, u, post, true, true);
      Neighbourhood(b, pre, u, post, true, true);
      InWindow(b, chunk);
      LeadWords(chunk, lead, b, u, LastUsed(pre, true));
      heaps := heaps[b := Heap(heaps[b].size, pre + [d, e] + post)];
      live := (live - {chunk})[chunk + lead := u.size - lead];
      LeadState(st, b, pre, u, post, d, e);
      WindowedStill(st.heaps, heaps, st.free, bins.free);
    }

    lemma LeadState(st: Store, b: nat, pre: seq<Chunk>, u: Chunk, post: seq<Chunk>, d: Chunk, e: Chunk)
      requires OkElse(st, b) && Focused(st, b, pre, u, post, true, true) && u.used && TidyIn(st.mem, st.heaps, b)
      requires b + 1 < |st.mem| && st.mem[b + 1] == 8 * FreeSum(st.heaps[b].cs)
      requires d.size + e.size == u.size && d.size >= MIN_SIZE && e.size >= MIN_SIZE && !d.used && e.used
      requires var a := First(b) + Sum(pre);
        && Rest(st.mem, mem, b + 1, a, a + d.size + OVERHEAD) && mem[b + 1] == st.mem[b + 1] + 8 * d.size
        && Stands(mem, b, a, d, LastUsed(pre, true)) && Stands(mem, b, a + d.size, e, false)
        && heaps == st.heaps[b := Heap(st.heaps[b].size, pre + [d, e] + post)]
        && bins.free == st.free[a := d.size] && live == (st.live - {a})[a + d.size := e.size]
      ensures OkElse(State(), b) && Tidy(b) && Focused(State(), b, pre, d, [e] + post, false, true)
      ensures heaps == st.heaps[b := Heap(st.heaps[b].size, pre + [d] + ([e] + post))]
      ensures mem[b + 1] == 8 * FreeSum(heaps[b].cs)
    {
      hide Tiled, Sized, OkElse, RangeHolds, SameOutside, Blocks, Sum, FreeSum, TidyIn, Parts, Focused, Header, Stands, Rest;
      var a := First(b) + Sum(pre);
      OnePlace(st, b, pre, u, post, true, true);
      RestWider(st.mem, mem, b + 1, a, a + d.size + OVERHEAD, a + u.size);
      PartedTiled(st.mem, mem, b, pre, u, post, d, e);
      RestWider(st.mem, mem, b + 1, a, a + u.size, a + u.size + if post == [] then 0 else 1);
      UsedSplit(st, State(), b, pre, u, post, d, e, true);
      assert pre + [d, e] + post == pre + [d] + ([e] + post);
      FocusIs(State(), b, pre, d, [e] + post, false, true);
    }

    /** The front of a block in use is freed. */
    method Lead(chunk: nat, lead: nat)
      requires Valid() && RetainedOk(retained, retainedsz, heaps) && chunk in live
      requires MIN_SIZE <= lead && lead + MIN_SIZE <= live[chunk]
      modifies `mem, `freesz, `heaps, `live, bins, bins.links, bins.lbins
      ensures Valid() && RetainedOk(retained, retainedsz, heaps) && heaps.Keys == old(heaps.Keys)
      ensures live == (old(live) - {chunk})[chunk + lead := old(live)[chunk] - lead] && Kept(old(mem), mem, live)
    {
      hide Tiled, Sized, OkElse, Sum, FreeSum, Spare, Bins.Bins.Valid, WindowIs, TidyIn, Parts, Blocks, HeapSizeValid,
           IsLastIn, Header, ChunkValidWhy, SizeOf, RetainedOk;
      ghost var b, pre, u, post := FindLive(chunk);
      LiveNotRetained(b, pre, u, post);
      ghost var m, hs, d, e := mem, heaps, Chunk(lead, false), Chunk(u.size - lead, true);
      Part(chunk, lead, b, pre, u, post);
      ghost var st := State();
      assert [] + [e] + post == [e] + post;
      CoalescedAround([], e, post);
      JoiningUnfooted(b, pre, d, [e] + post, false, chunk);
      ghost var it, front, c, back, flag := Join(chunk, b, pre, d, [e] + post, false);
      AfterJoin(st, State(), b, front, c, back, flag);
      LeadBeside(m, st.mem, mem, b, chunk, lead, it, it + c.size);
      HeadersKept(m, State(), b, front, c, back, false, true, chunk + lead);
      OnePlace(State(), b, front, c, back, flag, true);
      Settle(b, front, c, back);
      RetainedStill(hs, heaps, b);
    }

    lemma LeadBeside(m: seq<int>, m1: seq<int>, m2: seq<int>, b: nat, a: nat, lead: nat, lo: nat, hi: nat)
      requires Rest(m, m1, b + 1, a, a + lead + OVERHEAD) && SameBut(m1, m2, lo, hi) && lo <= a && a + lead <= hi
      ensures Beside(m, m2, b, a + lead, lo, hi + 1)
    {
    }

    static predicate PowerOfTwo(n: nat) {
      n == 1 || (n > 1 && n % 2 == 0 && PowerOfTwo(n / 2))
    }

    static lemma PowerSmall(n: nat)
      requires PowerOfTwo(n) && n <= 8
      ensures 8 % n == 0 && n > 0
    {
      if n > 1 {
        if n / 2 > 1 {
          assert PowerOfTwo(n / 2) && n / 2 % 2 == 0;
          assert n / 2 == 2 || n / 2 == 4;
        }
      }
    }

    static lemma PowerLarge(n: nat)
      requires PowerOfTwo(n) && n > 8
      ensures n % 8 == 0
    {
      assert PowerOfTwo(n / 2) && n / 2 % 2 == 0;
      assert PowerOfTwo(n / 2 / 2) && n / 2 / 2 % 2 == 0;
    }

    /** The words of the block allocated to find an aligned one in. */
    static function AlignedWords(alignment: nat, size: nat): nat {
      if alignment <= 8 then ChunkWords(if size == 0 then 1 else size)
      else ChunkWords(8 * ChunkWords(if size == 0 then 1 else size) + alignment + 8 * MIN_SIZE)
    }

    /** The first aligned address with room for a whole chunk before it. */
    static function NextAligned(ptr: nat, words: nat): (r: nat)
      requires words > 0
      ensures r % words == 0 && ptr + MIN_SIZE <= r < ptr + MIN_SIZE + words
    {
      var x := ptr + MIN_SIZE + words - 1;
      Rounded(x, words);
      x - x % words
    }

    static lemma Rounded(x: nat, n: nat)
      requires n > 0
      ensures (x - x % n) % n == 0
    {
      Multiple(x / n, n);
      assert x - x % n == x / n * n;
    }

    static lemma Multiple(k: nat, n: nat)
      requires n > 0
      ensures k * n % n == 0
    {
      var p := k * n;
      Quotient(p, n, p / n, p % n, k);
    }

    static lemma Quotient(p: nat, n: nat, q: int, r: int, k: int)
      requires p == k * n && p == n * q + r && 0 <= r < n
      ensures r == 0
    {
      var d := k - q;
      Products(d, n);
      assert d * n == r;
    }

    static lemma Products(d: int, n: int)
      requires n >= 0
      ensures d >= 1 ==> d * n >= n
      ensures d <= -1 ==> d * n <= -n
    {
    }

    /** Gives up the front of a block so that it begins at an aligned address. */
    method Slide(p: nat, words: nat, n: nat) returns (ptr: nat)
      requires Valid() && RetainedOk(retained, retainedsz, heaps) && words > 0 && n >= MIN_SIZE
      requires p >= OVERHEAD && p - OVERHEAD in live && live[p - OVERHEAD] >= n + words + MIN_SIZE
      modifies `mem, `freesz, `heaps, `live, bins, bins.links, bins.lbins
      ensures Valid() && RetainedOk(retained, retainedsz, heaps) && heaps.Keys == old(heaps.Keys)
      ensures ptr >= OVERHEAD && ptr % words == 0 && ptr - OVERHEAD in live && live[ptr - OVERHEAD] >= n
      ensures Slid(old(mem), mem, old(live), live, p - OVERHEAD, ptr - OVERHEAD)
    {
      hide Tiled, Sized, Sum, FreeSum, Spare, Bins.Bins.Valid, WindowIs, TidyIn, Blocks, RetainedOk, OkElse, Kept;
      ptr := p;
      KeptAll(mem, live);
      KeptLess(mem, mem, live, live - {p - OVERHEAD});
      if p % words != 0 {
        var chunk := p - OVERHEAD;
        var payload := NextAligned(p, words);
        var lead := payload - p;
        NoneWithin(chunk, lead);
        Lead(chunk, lead);
        KeptLess(old(mem), mem, live, old(live) - {chunk});
        ptr := payload;
      }
    }

    /** The block at `c` has become the one at `a`; the others have kept what they hold. */
    static ghost predicate Slid(m: seq<int>, m': seq<int>, live: map<nat, nat>, live': map<nat, nat>, c: nat, a: nat) {
      && c in live && a in live' && live' == (live - {c})[a := live'[a]] && (a == c || a !in live)
      && Kept(m, m', live - {c})
    }

    lemma KeptLess(m: seq<int>, m': seq<int>, more: map<nat, nat>, less: map<nat, nat>)
      requires Kept(m, m', more) && forall a :: a in less ==> a in more && more[a] == less[a]
      ensures Kept(m, m', less)
    {
    }

    static lemma SmallAligned(alignment: nat, ptr: nat)
      requires alignment > 0 && 8 % alignment == 0
      ensures 8 * ptr % alignment == 0
    {
      var k := 8 / alignment;
      assert 8 == k * alignment;
      assert 8 * ptr == (k * ptr) * alignment;
      Multiple(k * ptr, alignment);
    }

    static lemma AlignedPlace(alignment: nat, words: nat, ptr: nat)
      requires words > 0 && alignment == 8 * words && ptr % words == 0
      ensures 8 * ptr % alignment == 0
    {
      var k := ptr / words;
      assert ptr == k * words;
      assert 8 * ptr == k * alignment;
      Multiple(k, alignment);
    }

    lemma NoneWithin(chunk: nat, lead: nat)
      requires OkElse(State(), 0) && chunk in live && 0 < lead < live[chunk]
      ensures chunk + lead !in live
    {
      hide OkElse;
      if chunk + lead in live {
        LiveApart(State(), 0, chunk, chunk + lead);
        assert false;
      }
    }

    lemma AlignedKept(m0: seq<int>, m1: seq<int>, m2: seq<int>, m3: seq<int>, live0: map<nat, nat>, live1: map<nat, nat>,
                      live2: map<nat, nat>, live3: map<nat, nat>, c: nat, a: nat, n: nat)
      requires c !in live0 && c in live1 && live1 == live0[c := live1[c]] && Kept(m0, m1, live0)
      requires Slid(m1, m2, live1, live2, c, a) && Resized(m2, m3, live2, live3, a, a, n)
      ensures a !in live0 && Kept(m0, m3, live0) && a in live3 && live3[a] >= n && live3 == live0[a := live3[a]]
    {
      assert live1 - {c} == live0;
      assert live2 - {a} == live0;
    }

    /** A larger block, of which the front and the back are given up. */
    method AllocAligned(alignment: nat, bytes: nat, at: nat) returns (ptr: nat)
      requires Valid() && RetainedOk(retained, retainedsz, heaps) && alignment > 8 && alignment % 8 == 0 && bytes > 0
      requires at != 0 ==> Fresh(mem, heaps, at, HeapWordsFor(HeapBytes(AlignedWords(alignment, bytes))))
      modifies this, bins, bins.links, bins.lbins
      ensures ptr != 0 ==> HandsOut(ptr, ChunkWords(bytes)) && 8 * ptr % alignment == 0
      ensures ptr == 0 ==> at == 0 && Valid() && RetainedOk(retained, retainedsz, heaps) && live == old(live) && mem == old(mem)
      ensures !(heaps.Keys <= old(heaps.Keys)) || ptr == 0 ==> NoneFits(old(bins.free), AlignedWords(alignment, bytes))
    {
      hide Tiled, Sized, Sum, FreeSum, Spare, Bins.Bins.Valid, WindowIs, TidyIn, Blocks, RetainedOk, HeapWordsFor, HeapBytes,
           Fresh, Kept, NoneFits, Resized, ChunkWords, Slid, Valid, Taken;
      var need := 8 * ChunkWords(bytes);
      ptr := Alloc(need + alignment + 8 * MIN_SIZE, at);
      if ptr != 0 {
        ghost var live1, m1, c := live, mem, ptr - OVERHEAD;
        var words := alignment / 8;
        ptr := Slide(ptr, words, ChunkWords(bytes));
        ghost var m2, live2 := mem, live;
        AlignedPlace(alignment, words, ptr);
        var p := Realloc(ptr, bytes, 0);
        AlignedKept(old(mem), m1, m2, mem, old(live), live1, live2, live, c, ptr - OVERHEAD, ChunkWords(bytes));
        ptr := p;
      }
    }

    /** Allocates a block of at least `size` bytes whose address is a multiple of `alignment`. */
    method Aligned(alignment: nat, size: nat, at: nat) returns (ptr: nat)
      requires Valid() && RetainedOk(retained, retainedsz, heaps) && PowerOfTwo(alignment)
      requires at != 0 ==> Fresh(mem, heaps, at, HeapWordsFor(HeapBytes(AlignedWords(alignment, size))))
      modifies this, bins, bins.links, bins.lbins
      ensures ptr != 0 ==> HandsOut(ptr, ChunkWords(if size == 0 then 1 else size)) && 8 * ptr % alignment == 0
      ensures ptr == 0 ==> at == 0 && Valid() && RetainedOk(retained, retainedsz, heaps) && live == old(live) && mem == old(mem)
      ensures !(heaps.Keys <= old(heaps.Keys)) || ptr == 0 ==> NoneFits(old(bins.free), AlignedWords(alignment, size))
    {
      hide Tiled, Sized, Sum, FreeSum, Spare, Bins.Bins.Valid, WindowIs, TidyIn, Blocks, RetainedOk, HeapWordsFor, HeapBytes,
           Fresh, Kept, NoneFits, Resized, ChunkWords, Slid, Valid, Taken;
      var bytes := if size == 0 then 1 else size;
      if alignment <= 8 {
        PowerSmall(alignment);
        ptr := Alloc(bytes, at);
        SmallAligned(alignment, ptr);
      } else {
        PowerLarge(alignment);
        ptr := AllocAligned(alignment, bytes, at);
      }
    }
  }
}
