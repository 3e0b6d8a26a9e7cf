/** Memory, the heaps in it, and the two indexes of their chunks: the free ones and those in use. */
module Store {
  import opened Chunks

  /** A heap's size in words, and its chunks. */
  datatype Heap = Heap(size: nat, cs: seq<Chunk>)

  datatype Store = Store(mem: seq<int>, heaps: map<nat, Heap>, free: map<nat, nat>, live: map<nat, nat>)

  const PAGE: nat := 512   // words

  /** Where the chunks of the heap at `b` begin. */
  function First(b: nat): nat {
    b + HEAP_HEADER
  }

  predicate Shaped(mem: seq<int>, b: nat, h: Heap) {
    && b > 0 && b % PAGE == 0 && h.size % PAGE == 0 && h.size > 0 && b + h.size <= |mem|
    && h.cs != [] && Sized(h.cs) && Sum(h.cs) + HEAP_HEADER == h.size && mem[b] == 8 * h.size
  }

  predicate Apart(heaps: map<nat, Heap>) {
    forall b, c :: b in heaps && c in heaps && b < c ==> b + heaps[b].size <= c
  }

  function Owner(mem: seq<int>, a: nat): nat {
    if a + 1 < |mem| && mem[a + 1] >= 0 then mem[a + 1] else 0
  }

  predicate Holds(m: map<nat, nat>, blocks: map<nat, Chunk>, used: bool, a: nat) {
    && (a in m <==> a in blocks && blocks[a].used == used)
    && (a in m ==> m[a] == blocks[a].size)
  }

  /** Among the addresses of the heap, `m` has exactly the chunks that are in use, or those that are not. */
  ghost predicate Local(m: map<nat, nat>, b: nat, h: Heap, used: bool) {
    forall a :: First(b) <= a < b + h.size ==> Holds(m, Blocks(First(b), h.cs), used, a)
  }

  ghost predicate Indexed(mem: seq<int>, heaps: map<nat, Heap>, m: map<nat, nat>, used: bool) {
    && (forall b :: b in heaps ==> Local(m, b, heaps[b], used))
    && (forall a :: a in m ==> Owner(mem, a) in heaps && First(Owner(mem, a)) <= a < Owner(mem, a) + heaps[Owner(mem, a)].size)
  }

  /** All is well, but the words of the heap at `b` need not spell its chunks. */
  ghost predicate OkElse(st: Store, b: nat) {
    && (forall c :: c in st.heaps ==> Shaped(st.mem, c, st.heaps[c]))
    && (forall c :: c in st.heaps && c != b ==> Tiled(st.mem, c, First(c), st.heaps[c].cs, true))
    && Apart(st.heaps)
    && Indexed(st.mem, st.heaps, st.free, false) && Indexed(st.mem, st.heaps, st.live, true)
  }

  ghost predicate Ok(st: Store) {
    OkElse(st, 0) && forall b :: b in st.heaps ==> Tiled(st.mem, b, First(b), st.heaps[b].cs, true)
  }

  /** The heap at `b` consists of `pre`, the chunk `c`, and `post`. */
  ghost predicate Focused(st: Store, b: nat, pre: seq<Chunk>, c: Chunk, post: seq<Chunk>, flag: bool, foot: bool) {
    && b in st.heaps && st.heaps[b].cs == pre + [c] + post
    && Parts(st.mem, b, pre, c, post, flag, foot)
  }

  /** `flag` is the first chunk of `post`'s flag; `foot` says whether a free `c` has its footer. */
  predicate Parts(mem: seq<int>, b: nat, pre: seq<Chunk>, c: Chunk, post: seq<Chunk>, flag: bool, foot: bool) {
    var a := First(b) + Sum(pre);
    && Tiled(mem, b, First(b), pre, true)
    && c.size >= MIN_SIZE && a + c.size <= |mem|
    && mem[a] == Header(c, LastUsed(pre, true)) && mem[a + 1] == b
    && (foot && !c.used ==> mem[a + c.size - 1] == 8 * c.size)
    && Tiled(mem, b, a + c.size, post, flag)
  }

  lemma PartsTiled(mem: seq<int>, b: nat, pre: seq<Chunk>, c: Chunk, post: seq<Chunk>)
    ensures Tiled(mem, b, First(b), pre + [c] + post, true) <==> Parts(mem, b, pre, c, post, c.used, true)
  {
    var a := First(b) + Sum(pre);
    TiledAppend(mem, b, First(b), pre, [c] + post, true);
    TiledAppend(mem, b, a, [c], post, LastUsed(pre, true));
    Single(a, c);
    assert pre + [c] + post == pre + ([c] + post);
    assert [c][1..] == [];
  }

  lemma OkFocus(st: Store, b: nat, pre: seq<Chunk>, c: Chunk, post: seq<Chunk>)
    requires b in st.heaps && st.heaps[b].cs == pre + [c] + post
    ensures Ok(st) <==> OkElse(st, b) && Focused(st, b, pre, c, post, c.used, true)
  {
    PartsTiled(st.mem, b, pre, c, post);
    if Ok(st) {
      assert Shaped(st.mem, b, st.heaps[b]);
    }
  }

  /** Where a chunk of one of the indexes is. */
  lemma Find(st: Store, m: map<nat, nat>, used: bool, a: nat)
    returns (b: nat, pre: seq<Chunk>, c: Chunk, post: seq<Chunk>)
    requires Ok(st) && a in m && Indexed(st.mem, st.heaps, m, used)
    ensures c == Chunk(m[a], used) && OkElse(st, b) && Focused(st, b, pre, c, post, used, true)
    ensures a == First(b) + Sum(pre) && b == Owner(st.mem, a) && st.mem[a + 1] == b
  {
    b := Owner(st.mem, a);
    var h := st.heaps[b];
    assert Local(m, b, h, used) && Holds(m, Blocks(First(b), h.cs), used, a);
    pre, post := Locate(First(b), h.cs, a);
    c := Blocks(First(b), h.cs)[a];
    OkFocus(st, b, pre, c, post);
  }

  /** The memory is the same but for some words of one heap that are not its size. */
  predicate Within(mem: seq<int>, mem': seq<int>, b: nat, size: nat) {
    && |mem'| == |mem| && b + size <= |mem|
    && (forall w :: 0 <= w < |mem| && !(b < w < b + size) ==> mem'[w] == mem[w])
  }

  ghost predicate SameElsewhere(m: map<nat, nat>, m': map<nat, nat>, b: nat, size: nat) {
    forall a :: !(First(b) <= a < b + size) ==> (a in m <==> a in m') && (a in m ==> m'[a] == m[a])
  }

  predicate Covers(mem: seq<int>, b: nat, blocks: map<nat, Chunk>) {
    forall a :: a in blocks ==> a + 1 < |mem| && mem[a + 1] == b
  }

  /** One heap's chunks replaced by others, in the same words. */
  lemma Rebuilt(st: Store, st': Store, b: nat, cs: seq<Chunk>)
    requires OkElse(st, b) && b in st.heaps && Within(st.mem, st'.mem, b, st.heaps[b].size)
    requires st'.heaps == st.heaps[b := Heap(st.heaps[b].size, cs)]
    requires Shaped(st'.mem, b, st'.heaps[b]) && Covers(st'.mem, b, Blocks(First(b), cs))
    requires Local(st'.free, b, st'.heaps[b], false) && Local(st'.live, b, st'.heaps[b], true)
    requires SameElsewhere(st.free, st'.free, b, st.heaps[b].size)
    requires SameElsewhere(st.live, st'.live, b, st.heaps[b].size)
    ensures OkElse(st', b)
  {
    hide Blocks, Local, Covers, Tiled, Indexed;
    forall c | c in st'.heaps && c != b
      ensures Shaped(st'.mem, c, st'.heaps[c]) && Tiled(st'.mem, c, First(c), st'.heaps[c].cs, true)
    {
      assert Shaped(st.mem, c, st.heaps[c]) && Shaped(st.mem, b, st.heaps[b]);
      assert c < b || b < c;
      TiledFrame(st.mem, st'.mem, c, First(c), st.heaps[c].cs, true);
    }
    IndexRebuilt(st, st', b, cs, st.free, st'.free, false);
    IndexRebuilt(st, st', b, cs, st.live, st'.live, true);
  }

  lemma LocalElsewhere(m: map<nat, nat>, m': map<nat, nat>, b: nat, size: nat, c: nat, h: Heap, used: bool)
    requires Local(m, c, h, used) && SameElsewhere(m, m', b, size) && (c + h.size <= b || b + size <= c)
    ensures Local(m', c, h, used)
  {
    hide Blocks;
    forall a | First(c) <= a < c + h.size
      ensures Holds(m', Blocks(First(c), h.cs), used, a)
    {
      assert Holds(m, Blocks(First(c), h.cs), used, a);
    }
  }

  /** A chunk of another heap has kept its owner. */
  lemma OwnerElsewhere(mem: seq<int>, mem': seq<int>, m: map<nat, nat>, b: nat, size: nat, c: nat, h: Heap, used: bool, a: nat)
    requires Local(m, c, h, used) && Shaped(mem, c, h) && Within(mem, mem', b, size)
    requires c + h.size <= b || b + size <= c
    requires a in m && First(c) <= a < c + h.size
    ensures Owner(mem', a) == Owner(mem, a)
  {
    assert Holds(m, Blocks(First(c), h.cs), used, a);
    BlocksInside(First(c), h.cs);
    assert a + 1 < c + h.size;
  }

  lemma OwnerHere(mem: seq<int>, m: map<nat, nat>, b: nat, h: Heap, used: bool, a: nat)
    requires Local(m, b, h, used) && Covers(mem, b, Blocks(First(b), h.cs))
    requires a in m && First(b) <= a < b + h.size
    ensures Owner(mem, a) == b
  {
    assert Holds(m, Blocks(First(b), h.cs), used, a);
  }

  lemma IndexRebuilt(st: Store, st': Store, b: nat, cs: seq<Chunk>, m: map<nat, nat>, m': map<nat, nat>, used: bool)
    requires OkElse(st, b) && b in st.heaps && Within(st.mem, st'.mem, b, st.heaps[b].size)
    requires st'.heaps == st.heaps[b := Heap(st.heaps[b].size, cs)]
    requires Covers(st'.mem, b, Blocks(First(b), cs)) && Local(m', b, st'.heaps[b], used)
    requires SameElsewhere(m, m', b, st.heaps[b].size) && Indexed(st.mem, st.heaps, m, used)
    ensures Indexed(st'.mem, st'.heaps, m', used)
  {
    hide Blocks, Local, Shaped, Covers, Within, Owner, Tiled;
    var size := st.heaps[b].size;
    forall c | c in st'.heaps
      ensures Local(m', c, st'.heaps[c], used)
    {
      if c != b {
        assert Local(m, c, st.heaps[c], used);
        LocalElsewhere(m, m', b, size, c, st.heaps[c], used);
      }
    }
    forall a | a in m'
      ensures Owner(st'.mem, a) in st'.heaps
      ensures First(Owner(st'.mem, a)) <= a < Owner(st'.mem, a) + st'.heaps[Owner(st'.mem, a)].size
    {
      if First(b) <= a < b + size {
        OwnerHere(st'.mem, m', b, st'.heaps[b], used, a);
      } else {
        var c := Owner(st.mem, a);
        assert c in st.heaps && Local(m, c, st.heaps[c], used) && Shaped(st.mem, c, st.heaps[c]);
        OwnerElsewhere(st.mem, st'.mem, m, b, size, c, st.heaps[c], used, a);
      }
    }
  }

  // ----- Replacing some neighbouring chunks of a heap by others -----

  /** Among the addresses of the chunks `cs` from `a` on, `m` has exactly those of one kind. */
  ghost predicate RangeHolds(m: map<nat, nat>, a: nat, cs: seq<Chunk>, used: bool) {
    forall x :: a <= x < a + Sum(cs) ==> Holds(m, Blocks(a, cs), used, x)
  }

  lemma LocalIsRange(m: map<nat, nat>, b: nat, h: Heap, used: bool)
    requires Sum(h.cs) + HEAP_HEADER == h.size
    ensures Local(m, b, h, used) <==> RangeHolds(m, First(b), h.cs, used)
  {
  }

  lemma MergedHolds(m: map<nat, nat>, A: map<nat, Chunk>, B: map<nat, Chunk>, used: bool, a: nat, mid: nat, hi: nat)
    requires a <= mid <= hi
    requires (forall x :: x in A ==> a <= x < mid) && (forall x :: x in B ==> mid <= x < hi)
    ensures (forall x :: a <= x < hi ==> Holds(m, A + B, used, x))
       <==> (forall x :: a <= x < mid ==> Holds(m, A, used, x)) && (forall x :: mid <= x < hi ==> Holds(m, B, used, x))
  {
    forall x | a <= x < mid
      ensures Holds(m, A + B, used, x) <==> Holds(m, A, used, x)
    {
    }
    forall x | mid <= x < hi
      ensures Holds(m, A + B, used, x) <==> Holds(m, B, used, x)
    {
    }
  }

  lemma BlocksBetween(a: nat, cs: seq<Chunk>)
    requires Sized(cs)
    ensures forall x :: x in Blocks(a, cs) ==> a <= x < a + Sum(cs)
  {
    BlocksInside(a, cs);
  }

  lemma RangeAppend(m: map<nat, nat>, a: nat, x: seq<Chunk>, y: seq<Chunk>, used: bool)
    requires Sized(x) && Sized(y)
    ensures RangeHolds(m, a, x + y, used) <==> RangeHolds(m, a, x, used) && RangeHolds(m, a + Sum(x), y, used)
  {
    hide Blocks, Sum, Sized, Holds;
    BlocksAppend(a, x, y);
    BlocksBetween(a, x);
    BlocksBetween(a + Sum(x), y);
    SumAppend(x, y);
    MergedHolds(m, Blocks(a, x), Blocks(a + Sum(x), y), used, a, a + Sum(x), a + Sum(x + y));
  }

  lemma RangeElsewhere(m: map<nat, nat>, m': map<nat, nat>, a: nat, cs: seq<Chunk>, used: bool, lo: nat, hi: nat)
    requires RangeHolds(m, a, cs, used) && SameOutside(m, m', lo, hi) && (a + Sum(cs) <= lo || hi <= a)
    ensures RangeHolds(m', a, cs, used)
  {
    hide Blocks, Sum;
    forall x | a <= x < a + Sum(cs)
      ensures Holds(m', Blocks(a, cs), used, x)
    {
      assert Holds(m, Blocks(a, cs), used, x);
    }
  }

  ghost predicate SameOutside(m: map<nat, nat>, m': map<nat, nat>, lo: nat, hi: nat) {
    forall x :: !(lo <= x < hi) ==> (x in m <==> x in m') && (x in m ==> m'[x] == m[x])
  }

  lemma CoversAppend(mem: seq<int>, b: nat, a: nat, x: seq<Chunk>, y: seq<Chunk>)
    requires Sized(x) && Sized(y) && Covers(mem, b, Blocks(a, x)) && Covers(mem, b, Blocks(a + Sum(x), y))
    ensures Covers(mem, b, Blocks(a, x + y))
  {
    BlocksAppend(a, x, y);
  }

  /** The chunks `mid` of the heap at `b` become `mid'`. */
  ghost predicate Remakes(st: Store, st': Store, b: nat, pre: seq<Chunk>, mid: seq<Chunk>, mid': seq<Chunk>, post: seq<Chunk>) {
    && b in st.heaps && st.heaps[b].cs == pre + mid + post
    && st'.heaps == st.heaps[b := Heap(st.heaps[b].size, pre + mid' + post)]
    && Within(st.mem, st'.mem, b, st.heaps[b].size)
    && Sum(mid') == Sum(mid) && mid' != [] && Sized(mid')
    && var lo, hi := First(b) + Sum(pre), First(b) + Sum(pre) + Sum(mid);
      && SameOutside(st.free, st'.free, lo, hi) && SameOutside(st.live, st'.live, lo, hi)
      && RangeHolds(st'.free, lo, mid', false) && RangeHolds(st'.live, lo, mid', true)
      && Covers(st'.mem, b, Blocks(First(b), pre)) && Covers(st'.mem, b, Blocks(lo, mid'))
      && Covers(st'.mem, b, Blocks(hi, post))
  }

  lemma SizedThree(x: seq<Chunk>, y: seq<Chunk>, z: seq<Chunk>)
    ensures Sized(x + y + z) <==> Sized(x) && Sized(y) && Sized(z)
    ensures Sum(x + y + z) == Sum(x) + Sum(y) + Sum(z) && FreeSum(x + y + z) == FreeSum(x) + FreeSum(y) + FreeSum(z)
  {
    SizedAppend(x + y, z);
    SizedAppend(x, y);
    SumAppend(x + y, z);
    SumAppend(x, y);
  }

  lemma RangeRemade(m: map<nat, nat>, m': map<nat, nat>, b: nat, pre: seq<Chunk>, mid: seq<Chunk>, mid': seq<Chunk>,
                    post: seq<Chunk>, used: bool)
    requires Sized(pre) && Sized(mid) && Sized(mid') && Sized(post) && Sum(mid') == Sum(mid)
    requires RangeHolds(m, First(b), pre + mid + post, used)
    requires SameOutside(m, m', First(b) + Sum(pre), First(b) + Sum(pre) + Sum(mid))
    requires RangeHolds(m', First(b) + Sum(pre), mid', used)
    ensures RangeHolds(m', First(b), pre + mid' + post, used)
  {
    hide Blocks, RangeHolds, SameOutside, Sum, Sized;
    var lo, hi := First(b) + Sum(pre), First(b) + Sum(pre) + Sum(mid);
    SizedAppend(pre, mid);
    SizedAppend(pre, mid');
    SumAppend(pre, mid);
    SumAppend(pre, mid');
    RangeAppend(m, First(b), pre + mid, post, used);
    RangeAppend(m, First(b), pre, mid, used);
    RangeElsewhere(m, m', First(b), pre, used, lo, hi);
    RangeElsewhere(m, m', hi, post, used, lo, hi);
    RangeAppend(m', First(b), pre, mid', used);
    RangeAppend(m', First(b), pre + mid', post, used);
  }

  lemma Remade(st: Store, st': Store, b: nat, pre: seq<Chunk>, mid: seq<Chunk>, mid': seq<Chunk>, post: seq<Chunk>)
    requires OkElse(st, b) && Remakes(st, st', b, pre, mid, mid', post)
    ensures OkElse(st', b)
  {
    hide Blocks, Sum, Sized, RangeHolds, Covers, Local, Tiled, Holds;
    var h, cs' := st.heaps[b], pre + mid' + post;
    var h' := Heap(h.size, cs');
    assert Shaped(st.mem, b, h);
    SizedThree(pre, mid, post);
    SizedThree(pre, mid', post);
    var lo, hi := First(b) + Sum(pre), First(b) + Sum(pre) + Sum(mid);
    assert Local(st.free, b, h, false) && Local(st.live, b, h, true);
    LocalIsRange(st.free, b, h, false);
    LocalIsRange(st.live, b, h, true);
    RangeRemade(st.free, st'.free, b, pre, mid, mid', post, false);
    RangeRemade(st.live, st'.live, b, pre, mid, mid', post, true);
    LocalIsRange(st'.free, b, h', false);
    LocalIsRange(st'.live, b, h', true);
    SumAppend(pre, mid');
    SizedAppend(pre, mid');
    CoversAppend(st'.mem, b, First(b), pre, mid');
    CoversAppend(st'.mem, b, First(b), pre + mid', post);
    Rebuilt(st, st', b, cs');
  }

  lemma {:induction false} TiledCovers(mem: seq<int>, b: nat, a: nat, cs: seq<Chunk>, pused: bool)
    requires Tiled(mem, b, a, cs, pused)
    ensures Covers(mem, b, Blocks(a, cs))
    decreases cs
  {
    if cs != [] {
      TiledCovers(mem, b, a + cs[0].size, cs[1..], cs[0].used);
    }
  }

  lemma HeapParts(st: Store, b: nat)
    requires OkElse(st, b) && b in st.heaps
    ensures var h := st.heaps[b];
      && Shaped(st.mem, b, h) && h.cs != [] && Sized(h.cs) && Sum(h.cs) + HEAP_HEADER == h.size && b + h.size <= |st.mem|
      && Local(st.free, b, h, false) && Local(st.live, b, h, true)
  {
    hide Local, Sum, Sized, Tiled;
    assert Shaped(st.mem, b, st.heaps[b]);
  }

  lemma HeapPartsOf(st: Store, any: nat, b: nat)
    requires OkElse(st, any) && b in st.heaps
    ensures var h := st.heaps[b];
      && Shaped(st.mem, b, h) && Sized(h.cs) && Sum(h.cs) + HEAP_HEADER == h.size
      && Local(st.free, b, h, false) && Local(st.live, b, h, true)
  {
    hide Local, Sum, Sized, Tiled;
    assert Shaped(st.mem, b, st.heaps[b]);
  }

  /** What the indexes say about some neighbouring chunks of a heap. */
  lemma MidHolds(st: Store, b: nat, pre: seq<Chunk>, mid: seq<Chunk>, post: seq<Chunk>)
    requires OkElse(st, b) && b in st.heaps && st.heaps[b].cs == pre + mid + post
    ensures RangeHolds(st.free, First(b) + Sum(pre), mid, false) && RangeHolds(st.live, First(b) + Sum(pre), mid, true)
    ensures First(b) + Sum(pre) + Sum(mid) + Sum(post) == b + st.heaps[b].size
    ensures Sized(pre) && Sized(mid) && Sized(post)
  {
    hide Blocks, Sum, Sized, RangeHolds, Local, Tiled, Holds, OkElse, Shaped;
    var h := st.heaps[b];
    HeapParts(st, b);
    SizedThree(pre, mid, post);
    MidRange(st.free, b, h, pre, mid, post, false);
    MidRange(st.live, b, h, pre, mid, post, true);
  }

  lemma MidRange(m: map<nat, nat>, b: nat, h: Heap, pre: seq<Chunk>, mid: seq<Chunk>, post: seq<Chunk>, used: bool)
    requires Local(m, b, h, used) && h.cs == pre + mid + post && Sum(h.cs) + HEAP_HEADER == h.size
    requires Sized(pre) && Sized(mid) && Sized(post)
    ensures RangeHolds(m, First(b) + Sum(pre), mid, used)
  {
    hide Blocks, Sum, Sized, RangeHolds, Local, Holds;
    SizedAppend(pre, mid);
    LocalIsRange(m, b, h, used);
    RangeAppend(m, First(b), pre + mid, post, used);
    RangeAppend(m, First(b), pre, mid, used);
  }

  lemma TwoBlocks(a: nat, d: Chunk, c: Chunk)
    ensures Blocks(a, [d, c]) == map[a := d] + map[a + d.size := c] && Sum([d, c]) == d.size + c.size
    ensures FreeSum([d, c]) == (if d.used then 0 else d.size) + (if c.used then 0 else c.size)
  {
    assert [d, c][1..] == [c];
    OneBlock(a + d.size, c);
  }

  lemma OneBlock(a: nat, c: Chunk)
    ensures Blocks(a, [c]) == map[a := c] && Sum([c]) == c.size && FreeSum([c]) == if c.used then 0 else c.size
  {
    Single(a, c);
    assert [c][1..] == [];
    assert FreeSum([c][1..]) == 0;
  }

  /** Only words from `lo` to `hi` may differ. */
  predicate SameBut(mem: seq<int>, mem': seq<int>, lo: nat, hi: nat) {
    |mem'| == |mem| && forall w :: 0 <= w < |mem| && !(lo <= w < hi) ==> mem'[w] == mem[w]
  }

  /** Some neighbours become one chunk, whose words alone have changed. */
  lemma Refocused(st: Store, st': Store, b: nat, pre: seq<Chunk>, mid: seq<Chunk>, e: Chunk, post: seq<Chunk>, flag: bool)
    requires OkElse(st, b) && b in st.heaps && st.heaps[b].cs == pre + mid + post && Sum(mid) == e.size >= MIN_SIZE
    requires st'.heaps == st.heaps[b := Heap(st.heaps[b].size, pre + [e] + post)]
    requires var a := First(b) + Sum(pre);
      && SameBut(st.mem, st'.mem, a, a + e.size)
      && a + e.size <= |st.mem| && st'.mem[a] == Header(e, LastUsed(pre, true)) && st'.mem[a + 1] == b
      && Tiled(st.mem, b, First(b), pre, true) && Tiled(st.mem, b, a + e.size, post, flag)
      && SameOutside(st.free, st'.free, a, a + e.size) && SameOutside(st.live, st'.live, a, a + e.size)
      && RangeHolds(st'.free, a, [e], false) && RangeHolds(st'.live, a, [e], true)
    ensures OkElse(st', b) && Focused(st', b, pre, e, post, flag, false)
    ensures FreeSum(pre + [e] + post) == FreeSum(pre + mid + post) - FreeSum(mid) + FreeSum([e])
  {
    hide Sized, Tiled, OkElse, Local, RangeHolds, SameOutside, Covers, Blocks, Sum, FreeSum;
    var a := First(b) + Sum(pre);
    HeapParts(st, b);
    MidHolds(st, b, pre, mid, post);
    OneBlock(a, e);
    OneSized(e);
    SizedThree(pre, mid, post);
    SizedThree(pre, [e], post);
    TiledFrame(st.mem, st'.mem, b, First(b), pre, true);
    TiledFrame(st.mem, st'.mem, b, a + e.size, post, flag);
    TiledCovers(st'.mem, b, First(b), pre, true);
    TiledCovers(st'.mem, b, a + e.size, post, flag);
    CoversOne(st'.mem, b, a, e);
    Remade(st, st', b, pre, mid, [e], post);
  }

  lemma OneSized(e: Chunk)
    requires e.size >= MIN_SIZE
    ensures Sized([e])
  {
  }

  /** Two free neighbours become one; its footer is not written yet. */
  lemma Merged(st: Store, st': Store, b: nat, pre: seq<Chunk>, d: Chunk, c: Chunk, post: seq<Chunk>, flag: bool)
    requires OkElse(st, b) && b in st.heaps && st.heaps[b].cs == pre + [d, c] + post && !d.used && !c.used
    requires var a, e := First(b) + Sum(pre), Chunk(d.size + c.size, false);
      && a + e.size <= |st.mem| && e.size > 1 && st.mem[a + 1] == b && st'.mem == st.mem[a := Header(e, LastUsed(pre, true))]
      && Tiled(st.mem, b, First(b), pre, true) && Tiled(st.mem, b, a + e.size, post, flag)
      && st'.heaps == st.heaps[b := Heap(st.heaps[b].size, pre + [e] + post)]
      && st'.free == (st.free - {a, a + d.size})[a := e.size] && st'.live == st.live
    ensures OkElse(st', b) && Focused(st', b, pre, Chunk(d.size + c.size, false), post, flag, false)
    ensures FreeSum(pre + [Chunk(d.size + c.size, false)] + post) == FreeSum(pre + [d, c] + post)
  {
    hide Sized, Tiled, OkElse, RangeHolds, SameOutside, Blocks, Sum, FreeSum;
    var a, e := First(b) + Sum(pre), Chunk(d.size + c.size, false);
    MidHolds(st, b, pre, [d, c], post);
    TwoBlocks(a, d, c);
    OneBlock(a, e);
    BigEnough(d, c);
    TwoHolds(st.free, st'.free, a, d, c, false);
    TwoHolds(st.live, st'.live, a, d, c, true);
    Refocused(st, st', b, pre, [d, c], e, post, flag);
  }

  lemma CoversOne(mem: seq<int>, b: nat, a: nat, c: Chunk)
    requires a + 1 < |mem| && mem[a + 1] == b
    ensures Covers(mem, b, Blocks(a, [c]))
  {
    OneBlock(a, c);
  }

  lemma BigEnough(d: Chunk, c: Chunk)
    requires Sized([d, c])
    ensures Sized([Chunk(d.size + c.size, false)]) && d.size >= MIN_SIZE && c.size >= MIN_SIZE
  {
    assert [d, c][0].size >= MIN_SIZE && [d, c][1].size >= MIN_SIZE;
  }

  /** Two neighbours in the indexes. */
  lemma TwoIndexed(m: map<nat, nat>, a: nat, d: Chunk, c: Chunk, used: bool)
    requires RangeHolds(m, a, [d, c], used) && d.size > 0 && c.size > 0
    ensures (a in m <==> d.used == used) && (a in m ==> m[a] == d.size)
    ensures (a + d.size in m <==> c.used == used) && (a + d.size in m ==> m[a + d.size] == c.size)
  {
    TwoBlocks(a, d, c);
    assert Holds(m, Blocks(a, [d, c]), used, a) && Holds(m, Blocks(a, [d, c]), used, a + d.size);
  }

  lemma OneIndexed(m: map<nat, nat>, a: nat, c: Chunk, used: bool)
    requires RangeHolds(m, a, [c], used) && c.size > 0
    ensures (a in m <==> c.used == used) && (a in m ==> m[a] == c.size)
  {
    OneBlock(a, c);
    assert Holds(m, Blocks(a, [c]), used, a);
  }

  /** The index of two free neighbours, and that of the one they become. */
  lemma TwoHolds(m: map<nat, nat>, m': map<nat, nat>, a: nat, d: Chunk, c: Chunk, used: bool)
    requires RangeHolds(m, a, [d, c], used) && !d.used && !c.used && d.size > 0 && c.size > 0
    requires m' == if used then m else (m - {a, a + d.size})[a := d.size + c.size]
    ensures RangeHolds(m', a, [Chunk(d.size + c.size, false)], used) && SameOutside(m, m', a, a + d.size + c.size)
  {
    var e := Chunk(d.size + c.size, false);
    TwoBlocks(a, d, c);
    OneBlock(a, e);
    forall x | a <= x < a + Sum([e])
      ensures Holds(m', Blocks(a, [e]), used, x)
    {
      assert Holds(m, Blocks(a, [d, c]), used, x);
    }
  }

  /** The footer of a chunk written. */
  lemma FooterWritten(st: Store, st': Store, b: nat, pre: seq<Chunk>, c: Chunk, post: seq<Chunk>, flag: bool)
    requires OkElse(st, b) && Focused(st, b, pre, c, post, flag, false) && !c.used
    requires var a := First(b) + Sum(pre); st' == st.(mem := st.mem[a + c.size - 1 := 8 * c.size])
    ensures OkElse(st', b) && Focused(st', b, pre, c, post, flag, true)
  {
    hide Sized, Tiled, OkElse, RangeHolds, SameOutside, Blocks, Sum, FreeSum;
    MidHolds(st, b, pre, [c], post);
    OneBlock(First(b) + Sum(pre), c);
    SameEverywhere(st.free, First(b) + Sum(pre), First(b) + Sum(pre) + c.size);
    SameEverywhere(st.live, First(b) + Sum(pre), First(b) + Sum(pre) + c.size);
    assert st'.heaps == st.heaps[b := Heap(st.heaps[b].size, pre + [c] + post)];
    Refocused(st, st', b, pre, [c], c, post, flag);
  }

  lemma SameEverywhere(m: map<nat, nat>, lo: nat, hi: nat)
    ensures SameOutside(m, m, lo, hi)
  {
  }

  /** Some neighbours become one chunk, and words of the heap change so that they still spell it. */
  lemma Reshaped(st: Store, st': Store, b: nat, pre: seq<Chunk>, mid: seq<Chunk>, e: Chunk, post: seq<Chunk>, flag: bool, foot: bool)
    requires OkElse(st, b) && b in st.heaps && st.heaps[b].cs == pre + mid + post && Sum(mid) == e.size
    requires st'.heaps == st.heaps[b := Heap(st.heaps[b].size, pre + [e] + post)]
    requires Within(st.mem, st'.mem, b, st.heaps[b].size) && Parts(st'.mem, b, pre, e, post, flag, foot)
    requires var a := First(b) + Sum(pre);
      && SameOutside(st.free, st'.free, a, a + e.size) && SameOutside(st.live, st'.live, a, a + e.size)
      && RangeHolds(st'.free, a, [e], false) && RangeHolds(st'.live, a, [e], true)
    ensures OkElse(st', b) && Focused(st', b, pre, e, post, flag, foot)
    ensures FreeSum(pre + [e] + post) == FreeSum(pre + mid + post) - FreeSum(mid) + FreeSum([e])
  {
    hide Sized, Tiled, OkElse, Local, RangeHolds, SameOutside, Covers, Blocks, Sum, FreeSum;
    var a := First(b) + Sum(pre);
    OneBlock(a, e);
    OneSized(e);
    SizedThree(pre, mid, post);
    SizedThree(pre, [e], post);
    TiledCovers(st'.mem, b, First(b), pre, true);
    TiledCovers(st'.mem, b, a + e.size, post, flag);
    CoversOne(st'.mem, b, a, e);
    Remade(st, st', b, pre, mid, [e], post);
  }

  /** Words of a heap written so that they still spell the same chunks. */
  lemma Rewritten(st: Store, st': Store, b: nat, pre: seq<Chunk>, c: Chunk, post: seq<Chunk>, flag: bool, foot: bool)
    requires OkElse(st, b) && b in st.heaps && st.heaps[b].cs == pre + [c] + post && st' == st.(mem := st'.mem)
    requires Within(st.mem, st'.mem, b, st.heaps[b].size) && Parts(st'.mem, b, pre, c, post, flag, foot)
    ensures OkElse(st', b) && Focused(st', b, pre, c, post, flag, foot)
  {
    hide Sized, Tiled, OkElse, RangeHolds, SameOutside, Blocks, Sum, FreeSum, Parts;
    MidHolds(st, b, pre, [c], post);
    OneBlock(First(b) + Sum(pre), c);
    SameEverywhere(st.free, First(b) + Sum(pre), First(b) + Sum(pre) + c.size);
    SameEverywhere(st.live, First(b) + Sum(pre), First(b) + Sum(pre) + c.size);
    assert st'.heaps == st.heaps[b := Heap(st.heaps[b].size, pre + [c] + post)];
    Reshaped(st, st', b, pre, [c], c, post, flag, foot);
  }

  /** The flag PUSED of the chunk after `c` written. */
  function FlagWritten(mem: seq<int>, a: nat, post: seq<Chunk>, flag: bool): seq<int> {
    if post == [] || a >= |mem| then mem else mem[a := Header(post[0], flag)]
  }

  lemma FlagParts(mem: seq<int>, b: nat, pre: seq<Chunk>, c: Chunk, post: seq<Chunk>, flag: bool, flag': bool, foot: bool)
    requires Parts(mem, b, pre, c, post, flag, foot)
    ensures Parts(FlagWritten(mem, First(b) + Sum(pre) + c.size, post, flag'), b, pre, c, post, flag', foot)
  {
    hide Tiled, Sum, Sized, Header;
    var a := First(b) + Sum(pre);
    TiledSized(mem, b, a + c.size, post, flag);
    SizedSum(post);
    var mem' := FlagWritten(mem, a + c.size, post, flag');
    TiledFrame(mem, mem', b, First(b), pre, true);
    FlagChanged(mem, mem', b, a + c.size, post, flag, flag');
  }

  /** The header of `c` written anew, with its footer if that is asked for. */
  lemma HeaderWritten(mem: seq<int>, mem': seq<int>, b: nat, pre: seq<Chunk>, c: Chunk, e: Chunk, post: seq<Chunk>, flag: bool, foot: bool)
    requires Parts(mem, b, pre, c, post, flag, false) && e.size == c.size
    requires var a := First(b) + Sum(pre);
      && SameBut(mem, mem', a, a + c.size) && mem'[a] == Header(e, LastUsed(pre, true)) && mem'[a + 1] == b
      && (foot && !e.used ==> mem'[a + c.size - 1] == 8 * c.size)
    ensures Parts(mem', b, pre, e, post, flag, foot)
  {
    var a := First(b) + Sum(pre);
    TiledFrame(mem, mem', b, First(b), pre, true);
    TiledFrame(mem, mem', b, a + c.size, post, flag);
  }

  /** A word before the first chunk does not matter. */
  lemma HeapWordParts(mem: seq<int>, b: nat, x: int, pre: seq<Chunk>, c: Chunk, post: seq<Chunk>, flag: bool, foot: bool)
    requires Parts(mem, b, pre, c, post, flag, foot) && b + 1 < |mem|
    ensures Parts(mem[b + 1 := x], b, pre, c, post, flag, foot)
  {
    var a := First(b) + Sum(pre);
    TiledFrame(mem, mem[b + 1 := x], b, First(b), pre, true);
    TiledFrame(mem, mem[b + 1 := x], b, a + c.size, post, flag);
  }

  /** A chunk in use becomes free, and the other way round. */
  lemma OneHolds(m: map<nat, nat>, m': map<nat, nat>, a: nat, c: Chunk, used: bool)
    requires RangeHolds(m, a, [c], used) && c.size > 0
    requires m' == if c.used == used then m - {a} else m[a := c.size]
    ensures RangeHolds(m', a, [Chunk(c.size, !c.used)], used) && SameOutside(m, m', a, a + c.size)
  {
    var e := Chunk(c.size, !c.used);
    OneBlock(a, c);
    OneBlock(a, e);
    forall x | a <= x < a + Sum([e])
      ensures Holds(m', Blocks(a, [e]), used, x)
    {
      assert Holds(m, Blocks(a, [c]), used, x);
    }
  }

  /** Only `x` and the words from `lo` to `hi` may differ. */
  predicate Rest(mem: seq<int>, mem': seq<int>, x: nat, lo: nat, hi: nat) {
    |mem'| == |mem| && forall w :: 0 <= w < |mem| && w != x && !(lo <= w < hi) ==> mem'[w] == mem[w]
  }

  lemma RestWithin(mem: seq<int>, mem': seq<int>, b: nat, size: nat, lo: nat, hi: nat)
    requires Rest(mem, mem', b + 1, lo, hi) && b < lo && hi <= b + size <= |mem| && size > 1
    ensures Within(mem, mem', b, size)
  {
  }

  /** Where a chunk of a heap is, and what the indexes say of it. */
  lemma OnePlace(st: Store, b: nat, pre: seq<Chunk>, c: Chunk, post: seq<Chunk>, flag: bool, foot: bool)
    requires OkElse(st, b) && Focused(st, b, pre, c, post, flag, foot)
    ensures b in st.heaps
    ensures var a := First(b) + Sum(pre);
      && b > 0 && b < a && a + c.size + (if post == [] then 0 else 1) <= b + st.heaps[b].size <= |st.mem|
      && (a in st.free <==> !c.used) && (a in st.live <==> c.used)
      && (a in st.free ==> st.free[a] == c.size) && (a in st.live ==> st.live[a] == c.size)
      && RangeHolds(st.free, a, [c], false) && RangeHolds(st.live, a, [c], true)
    ensures c.size >= MIN_SIZE && st.heaps[b].size > 1 && st.heaps[b].cs == pre + [c] + post && Parts(st.mem, b, pre, c, post, flag, foot)
  {
    hide Tiled, OkElse, RangeHolds, Sized, Sum;
    MidHolds(st, b, pre, [c], post);
    HeapParts(st, b);
    OneBlock(First(b) + Sum(pre), c);
    SizedSum(post);
    OneIndexed(st.free, First(b) + Sum(pre), c, false);
    OneIndexed(st.live, First(b) + Sum(pre), c, true);
  }

  lemma PartsHeader(mem: seq<int>, b: nat, pre: seq<Chunk>, c: Chunk, post: seq<Chunk>, flag: bool, foot: bool)
    requires Parts(mem, b, pre, c, post, flag, foot)
    ensures var a := First(b) + Sum(pre); 0 < a && a + c.size <= |mem| && SizeOf(mem[a]) == c.size >= MIN_SIZE
  {
    HeaderParts(c, LastUsed(pre, true));
  }

  /** A chunk changes from one index to the other. */
  lemma Switched(st: Store, st': Store, b: nat, pre: seq<Chunk>, c: Chunk, post: seq<Chunk>, flag: bool, foot: bool)
    requires OkElse(st, b) && b in st.heaps && st.heaps[b].cs == pre + [c] + post && c.size >= MIN_SIZE
    requires var e := Chunk(c.size, !c.used);
      && st'.heaps == st.heaps[b := Heap(st.heaps[b].size, pre + [e] + post)]
      && Within(st.mem, st'.mem, b, st.heaps[b].size) && Parts(st'.mem, b, pre, e, post, flag, foot)
    requires var a := First(b) + Sum(pre);
      && st'.free == (if c.used then st.free[a := c.size] else st.free - {a})
      && st'.live == (if c.used then st.live - {a} else st.live[a := c.size])
    ensures OkElse(st', b) && Focused(st', b, pre, Chunk(c.size, !c.used), post, flag, foot)
    ensures FreeSum(pre + [Chunk(c.size, !c.used)] + post)
         == FreeSum(pre + [c] + post) + if c.used then c.size else -(c.size as int)
  {
    hide Tiled, OkElse, RangeHolds, Sized, Sum, Blocks, FreeSum, Parts, SameOutside;
    var a, e := First(b) + Sum(pre), Chunk(c.size, !c.used);
    MidHolds(st, b, pre, [c], post);
    OneBlock(a, c);
    OneBlock(a, e);
    OneHolds(st.free, st'.free, a, c, false);
    OneHolds(st.live, st'.live, a, c, true);
    Reshaped(st, st', b, pre, [c], e, post, flag, foot);
  }

  /** The other heaps are coalesced, and count their free bytes. */
  ghost predicate TidyIn(mem: seq<int>, heaps: map<nat, Heap>, b: nat) {
    forall c :: c in heaps && c != b ==> c + 1 < |mem| && Coalesced(heaps[c].cs) && mem[c + 1] == 8 * FreeSum(heaps[c].cs)
  }

  lemma TidyStill(st: Store, st': Store, b: nat)
    requires OkElse(st, b) && b in st.heaps && Within(st.mem, st'.mem, b, st.heaps[b].size)
    requires st'.heaps.Keys == st.heaps.Keys && forall c :: c in st.heaps && c != b ==> st'.heaps[c] == st.heaps[c]
    requires TidyIn(st.mem, st.heaps, b)
    ensures TidyIn(st'.mem, st'.heaps, b)
  {
    hide Tiled, Sum, FreeSum, Sized, Local;
    forall c | c in st'.heaps && c != b
      ensures c + 1 < |st'.mem| && st'.mem[c + 1] == st.mem[c + 1]
    {
      assert Shaped(st.mem, c, st.heaps[c]) && Shaped(st.mem, b, st.heaps[b]);
      assert c < b || b < c;
    }
  }

  /** A block in use has become a free chunk, and the heap counts it. */
  lemma Unused(st: Store, st': Store, b: nat, pre: seq<Chunk>, c: Chunk, post: seq<Chunk>)
    requires OkElse(st, b) && Focused(st, b, pre, c, post, true, true) && c.used && TidyIn(st.mem, st.heaps, b)
    requires b + 1 < |st.mem| && st.mem[b + 1] == 8 * FreeSum(st.heaps[b].cs)
    requires var a, e := First(b) + Sum(pre), Chunk(c.size, false);
      && Rest(st.mem, st'.mem, b + 1, a, a + c.size + if post == [] then 0 else 1)
      && Parts(st'.mem, b, pre, e, post, false, true) && st'.mem[b + 1] == st.mem[b + 1] + 8 * c.size
      && st'.heaps == st.heaps[b := Heap(st.heaps[b].size, pre + [e] + post)]
      && st'.free == st.free[a := c.size] && st'.live == st.live - {a}
    ensures OkElse(st', b) && Focused(st', b, pre, Chunk(c.size, false), post, false, true)
    ensures TidyIn(st'.mem, st'.heaps, b) && st'.mem[b + 1] == 8 * FreeSum(st'.heaps[b].cs)
  {
    hide Tiled, OkElse, RangeHolds, Sized, Sum, Blocks, FreeSum, Parts, SameOutside, TidyIn, Focused;
    var a := First(b) + Sum(pre);
    OnePlace(st, b, pre, c, post, true, true);
    PartsHeader(st.mem, b, pre, c, post, true, true);
    RestWithin(st.mem, st'.mem, b, st.heaps[b].size, a, a + c.size + if post == [] then 0 else 1);
    Switched(st, st', b, pre, c, post, false, true);
    TidyStill(st, st', b);
  }

  // ----- What the blocks in use hold -----

  /** The payloads of the blocks in use are the same. */
  ghost predicate Kept(mem: seq<int>, mem': seq<int>, live: map<nat, nat>) {
    |mem'| == |mem| && forall a, w :: a in live && a + OVERHEAD <= w < a + live[a] && w < |mem| ==> mem'[w] == mem[w]
  }

  /** No two blocks overlap, whatever index they are in. */
  lemma BlockApart(st: Store, b: nat, pre: seq<Chunk>, c: Chunk, post: seq<Chunk>, flag: bool, foot: bool, a: nat)
    requires OkElse(st, b) && Focused(st, b, pre, c, post, flag, foot) && a in st.live
    ensures var x := First(b) + Sum(pre);
      && (a != x ==> a + st.live[a] <= x || x + c.size <= a)
      && (First(b) <= a || a + st.live[a] <= b)
  {
    hide Tiled, Sized, Sum, OkElse, Blocks, Focused;
    var x, o := First(b) + Sum(pre), Owner(st.mem, a);
    OnePlace(st, b, pre, c, post, flag, foot);
    LiveInHeap(st, b, a);
    FocusIsBlock(st, b, pre, c, post, flag, foot);
    if o == b {
      if a < x {
        BlocksApart(First(b), st.heaps[b].cs, a, x);
      } else if x < a {
        BlocksApart(First(b), st.heaps[b].cs, x, a);
      }
    } else {
      HeapsApart(st, b, b, o);
    }
  }

  lemma HeapsApart(st: Store, any: nat, b: nat, o: nat)
    requires OkElse(st, any) && b in st.heaps && o in st.heaps && o != b
    ensures o + st.heaps[o].size <= b || b + st.heaps[b].size <= o
  {
    assert o < b || b < o;
  }

  lemma LiveInHeap(st: Store, b: nat, a: nat)
    requires OkElse(st, b) && a in st.live
    ensures var o := Owner(st.mem, a);
      && o in st.heaps && First(o) <= a && a + st.live[a] <= o + st.heaps[o].size && Sized(st.heaps[o].cs)
      && a in Blocks(First(o), st.heaps[o].cs) && Blocks(First(o), st.heaps[o].cs)[a] == Chunk(st.live[a], true)
  {
    hide Tiled, Sum, Blocks, Sized, Local;
    var o := Owner(st.mem, a);
    IndexedAt(st.mem, st.heaps, st.live, true, a);
    HeapPartsOf(st, b, o);
    LocalAt(st.live, o, st.heaps[o], true, a);
    BlocksInside(First(o), st.heaps[o].cs);
  }

  lemma IndexedAt(mem: seq<int>, heaps: map<nat, Heap>, m: map<nat, nat>, used: bool, a: nat)
    requires Indexed(mem, heaps, m, used) && a in m
    ensures Owner(mem, a) in heaps && First(Owner(mem, a)) <= a < Owner(mem, a) + heaps[Owner(mem, a)].size
  {
  }

  lemma LocalAt(m: map<nat, nat>, b: nat, h: Heap, used: bool, a: nat)
    requires Local(m, b, h, used) && a in m && First(b) <= a < b + h.size
    ensures a in Blocks(First(b), h.cs) && Blocks(First(b), h.cs)[a] == Chunk(m[a], used)
  {
    assert Holds(m, Blocks(First(b), h.cs), used, a);
  }

  lemma FocusIsBlock(st: Store, b: nat, pre: seq<Chunk>, c: Chunk, post: seq<Chunk>, flag: bool, foot: bool)
    requires OkElse(st, b) && Focused(st, b, pre, c, post, flag, foot)
    ensures var x := First(b) + Sum(pre);
      x in Blocks(First(b), st.heaps[b].cs) && Blocks(First(b), st.heaps[b].cs)[x] == c && Sized(st.heaps[b].cs)
  {
    hide Tiled, OkElse, Parts, Blocks, Sum, Sized;
    HeapParts(st, b);
    MidHolds(st, b, pre, [c], post);
    OneSizedIs(c);
    var x := First(b) + Sum(pre);
    SizedAppend(pre, [c]);
    BlocksAppend(First(b), pre + [c], post);
    BlocksAppend(First(b), pre, [c]);
    SumAppend(pre, [c]);
    OneBlock(x, c);
    BlocksBetween(x + c.size, post);
  }

  /** Writing in and just behind a free chunk, and the heap's count, leaves the payloads alone. */
  lemma PayloadsKept(st: Store, st': Store, b: nat, pre: seq<Chunk>, c: Chunk, post: seq<Chunk>, flag: bool, foot: bool)
    requires OkElse(st', b) && Focused(st', b, pre, c, post, flag, foot)
    requires Rest(st.mem, st'.mem, b + 1, First(b) + Sum(pre), First(b) + Sum(pre) + c.size + 1)
    ensures forall a, w :: a in st'.live && a != First(b) + Sum(pre) && a + OVERHEAD <= w < a + st'.live[a] && w < |st.mem| ==>
      st'.mem[w] == st.mem[w]
  {
    hide Tiled, Sized, Sum, OkElse, Focused;
    forall a, w | a in st'.live && a != First(b) + Sum(pre) && a + OVERHEAD <= w < a + st'.live[a] && w < |st.mem|
      ensures st'.mem[w] == st.mem[w]
    {
      BlockApart(st', b, pre, c, post, flag, foot, a);
    }
  }

  /** Joining free chunks leaves the other heaps and the heap's count as they are. */
  lemma AfterJoin(st: Store, st': Store, b: nat, pre: seq<Chunk>, c: Chunk, post: seq<Chunk>, flag: bool)
    requires OkElse(st, b) && b in st.heaps && TidyIn(st.mem, st.heaps, b)
    requires OkElse(st', b) && Focused(st', b, pre, c, post, flag, true)
    requires SameBut(st.mem, st'.mem, First(b) + Sum(pre), First(b) + Sum(pre) + c.size)
    requires st'.heaps == st.heaps[b := Heap(st.heaps[b].size, st'.heaps[b].cs)]
    requires b + 1 < |st.mem| && st.mem[b + 1] == 8 * FreeSum(st.heaps[b].cs)
    requires FreeSum(st'.heaps[b].cs) == FreeSum(st.heaps[b].cs)
    ensures TidyIn(st'.mem, st'.heaps, b) && st'.mem[b + 1] == 8 * FreeSum(st'.heaps[b].cs)
  {
    hide Tiled, OkElse, Sized, Sum, FreeSum, TidyIn, Focused;
    OnePlace(st', b, pre, c, post, flag, true);
    TidyStill(st, st', b);
  }

  lemma RestThrough(m: seq<int>, m1: seq<int>, m2: seq<int>, x: nat, lo: nat, hi: nat, lo': nat, hi': nat)
    requires Rest(m, m1, x, lo, hi) && SameBut(m1, m2, lo', hi') && lo' <= lo && hi <= hi' + 1
    ensures Rest(m, m2, x, lo', hi' + 1)
  {
  }

  // ----- A free chunk taken -----

  /** What is left of the free chunk `c` when `t` words of it are taken. */
  function Left(c: Chunk, t: nat): seq<Chunk> {
    if t < c.size then [Chunk(c.size - t, false)] else []
  }

  function LeftFree(free: map<nat, nat>, a: nat, c: Chunk, t: nat): map<nat, nat> {
    if t < c.size then (free - {a})[a + t := c.size - t] else free - {a}
  }

  /** The words after `t` words of the free chunk `c` were taken. */
  predicate TakenFrom(m: seq<int>, m': seq<int>, b: nat, pre: seq<Chunk>, c: Chunk, post: seq<Chunk>, t: nat) {
    var a := First(b) + Sum(pre);
    && t <= c.size && Rest(m, m', b + 1, a, a + c.size + if post == [] then 0 else 1)
    && a + 1 < |m| && m'[b + 1] == m[b + 1] - 8 * t && m'[a] == Header(Chunk(t, true), true) && m'[a + 1] == b
    && Tiled(m', b, First(b), pre, true) && Tiled(m', b, a + t, Left(c, t) + post, true)
  }

  /** The writes that take `t` words of the free chunk `c` at `a`. */
  predicate TakenBy(m: seq<int>, m1: seq<int>, m2: seq<int>, b: nat, a: nat, c: Chunk, post: seq<Chunk>, t: nat) {
    && c.size >= MIN_SIZE && t <= c.size && (t == c.size || (t > 1 && c.size - t >= MIN_SIZE))
    && b + 1 < a && a + c.size <= |m|
    && SameBut(m, m1, a, a + c.size) && m1[a + 1] == b && m1[a] == Header(Chunk(t, true), true)
    && (t < c.size ==> Stands(m1, b, a + t, Chunk(c.size - t, false), false))
    && m2 == FlagWritten(m1, a + t, Left(c, t) + post, true)[b + 1 := m1[b + 1] - 8 * t]
  }

  lemma TakenRest(m: seq<int>, m1: seq<int>, m2: seq<int>, b: nat, a: nat, c: Chunk, post: seq<Chunk>, t: nat)
    requires TakenBy(m, m1, m2, b, a, c, post, t) && c.size > 1
    ensures Rest(m, m2, b + 1, a, a + c.size + if post == [] then 0 else 1) && m2[b + 1] == m[b + 1] - 8 * t
    ensures t > 1 ==> m2[a] == Header(Chunk(t, true), true) && m2[a + 1] == b
  {
    hide Header, Stands;
  }

  lemma TakenLeft(m: seq<int>, m1: seq<int>, m2: seq<int>, b: nat, a: nat, c: Chunk, post: seq<Chunk>, t: nat)
    requires TakenBy(m, m1, m2, b, a, c, post, t) && Tiled(m, b, a + c.size, post, false)
    ensures Tiled(m2, b, a + t, Left(c, t) + post, true)
  {
    TiledSized(m, b, a + c.size, post, false);
    SizedSum(post);
    hide Tiled, Sum, Sized, Header, Stands;
    var l := Left(c, t);
    var m3 := FlagWritten(m1, a + t, l + post, true);
    TiledFrame(m, m1, b, a + c.size, post, false);
    LeftTiled(m1, b, a, c, post, t);
    LeftSum(c, post, t);
    FlagChanged(m1, m3, b, a + t, l + post, false, true);
    TiledFrame(m3, m2, b, a + t, l + post, true);
  }

  /** From the writes: the taken part's header, what is left, and the next chunk's flag. */
  lemma TakenWords(m: seq<int>, m1: seq<int>, m2: seq<int>, b: nat, pre: seq<Chunk>, c: Chunk, post: seq<Chunk>, t: nat)
    requires Parts(m, b, pre, c, post, false, true) && !c.used && t > 1
    requires TakenBy(m, m1, m2, b, First(b) + Sum(pre), c, post, t)
    ensures TakenFrom(m, m2, b, pre, c, post, t)
  {
    hide Tiled, Sum, Sized, Header, Stands;
    var a := First(b) + Sum(pre);
    TakenRest(m, m1, m2, b, a, c, post, t);
    TakenLeft(m, m1, m2, b, a, c, post, t);
    TiledFrame(m, m2, b, First(b), pre, true);
  }

  lemma LeftTiled(m: seq<int>, b: nat, a: nat, c: Chunk, post: seq<Chunk>, t: nat)
    requires t <= c.size && Tiled(m, b, a + c.size, post, false)
    requires t < c.size ==> Stands(m, b, a + t, Chunk(c.size - t, false), false)
    ensures Tiled(m, b, a + t, Left(c, t) + post, false)
  {
    if t < c.size {
      var l := Chunk(c.size - t, false);
      assert ([l] + post)[0] == l && ([l] + post)[1..] == post;
    } else {
      assert [] + post == post;
    }
  }

  lemma LeftSum(c: Chunk, post: seq<Chunk>, t: nat)
    requires t <= c.size
    ensures Sum(Left(c, t) + post) == c.size - t + Sum(post)
  {
    SumAppend(Left(c, t), post);
    OneBlock(0, Chunk(c.size - t, false));
  }

  /** Some chunk's header, whatever its flag PUSED. */
  predicate NextIs(m: seq<int>, a: nat, d: Chunk) {
    a < |m| && m[a] - m[a] % 2 + 1 == Header(d, true)
  }

  /** The header of what is left, or of the next chunk. */
  lemma LeftNext(m: seq<int>, m1: seq<int>, b: nat, a: nat, c: Chunk, post: seq<Chunk>, t: nat)
    requires SameBut(m, m1, a, a + c.size) && t <= c.size && Tiled(m, b, a + c.size, post, false)
    requires t < c.size ==> Stands(m1, b, a + t, Chunk(c.size - t, false), false)
    ensures Left(c, t) + post != [] ==> NextIs(m1, a + t, (Left(c, t) + post)[0])
  {
    hide Tiled, Sum, Sized, Header, Stands, NextIs, Left;
    TiledFrame(m, m1, b, a + c.size, post, false);
    LeftTiled(m1, b, a, c, post, t);
    if Left(c, t) + post != [] {
      FirstNext(m1, b, a + t, Left(c, t) + post, false);
    }
  }

  lemma FirstNext(m: seq<int>, b: nat, a: nat, cs: seq<Chunk>, flag: bool)
    requires Tiled(m, b, a, cs, flag) && cs != []
    ensures NextIs(m, a, cs[0])
  {
    hide Header;
    assert Stands(m, b, a, cs[0], flag);
    FlagSet(cs[0], flag);
  }

  lemma FlagSet(c: Chunk, flag: bool)
    ensures Header(c, flag) - Header(c, flag) % 2 + 1 == Header(c, true)
  {
    var half := 4 * c.size + if c.used then 1 else 0;
    assert Header(c, flag) == 2 * half + if flag then 1 else 0;
    Parity(half);
  }

  lemma Parity(x: int)
    ensures 2 * x % 2 == 0 && (2 * x + 1) % 2 == 1
  {
  }

  /** The indexes after `t` words of a free chunk were taken. */
  lemma TakenHolds(m: map<nat, nat>, m': map<nat, nat>, a: nat, c: Chunk, t: nat, used: bool)
    requires RangeHolds(m, a, [c], used) && !c.used && 0 < t <= c.size
    requires m' == if used then m[a := t] else LeftFree(m, a, c, t)
    ensures RangeHolds(m', a, [Chunk(t, true)] + Left(c, t), used) && SameOutside(m, m', a, a + c.size)
    ensures Sum([Chunk(t, true)] + Left(c, t)) == c.size
  {
    var u, l := Chunk(t, true), Left(c, t);
    OneBlock(a, c);
    OneBlock(a, u);
    if t < c.size {
      assert [u] + l == [u, Chunk(c.size - t, false)];
      TwoBlocks(a, u, Chunk(c.size - t, false));
    } else {
      assert [u] + l == [u];
    }
    forall x | a <= x < a + c.size
      ensures Holds(m', Blocks(a, [u] + l), used, x)
    {
      assert Holds(m, Blocks(a, [c]), used, x);
    }
  }

  lemma LeftSized(c: Chunk, t: nat)
    requires t >= MIN_SIZE && t <= c.size && (t < c.size ==> c.size - t >= MIN_SIZE)
    ensures Sized([Chunk(t, true)] + Left(c, t)) && FreeSum([Chunk(t, true)] + Left(c, t)) == c.size - t
  {
    if t < c.size {
      assert [Chunk(t, true)] + Left(c, t) == [Chunk(t, true), Chunk(c.size - t, false)];
      TwoBlocks(0, Chunk(t, true), Chunk(c.size - t, false));
    } else {
      assert [Chunk(t, true)] + Left(c, t) == [Chunk(t, true)];
      OneBlock(0, Chunk(t, true));
    }
  }

  /** Part of a free chunk, or all of it, has become a block in use. */
  lemma TakenState(st: Store, st': Store, b: nat, pre: seq<Chunk>, c: Chunk, post: seq<Chunk>, t: nat)
    requires OkElse(st, b) && Focused(st, b, pre, c, post, false, true) && !c.used && LastUsed(pre, true)
    requires TidyIn(st.mem, st.heaps, b) && b + 1 < |st.mem| && st.mem[b + 1] == 8 * FreeSum(st.heaps[b].cs)
    requires t >= MIN_SIZE && TakenFrom(st.mem, st'.mem, b, pre, c, post, t) && (t < c.size ==> c.size - t >= MIN_SIZE)
    requires var a := First(b) + Sum(pre);
      && st'.heaps == st.heaps[b := Heap(st.heaps[b].size, pre + [Chunk(t, true)] + (Left(c, t) + post))]
      && st'.free == LeftFree(st.free, a, c, t) && st'.live == st.live[a := t]
    ensures OkElse(st', b) && Focused(st', b, pre, Chunk(t, true), Left(c, t) + post, true, true)
    ensures TidyIn(st'.mem, st'.heaps, b) && st'.mem[b + 1] == 8 * FreeSum(st'.heaps[b].cs)
  {
    hide Tiled, OkElse, Sized, Sum, FreeSum, TidyIn, RangeHolds, SameOutside, Blocks, Covers, Header, Parts, Focused, Left;
    var a, mid := First(b) + Sum(pre), [Chunk(t, true)] + Left(c, t);
    OnePlace(st, b, pre, c, post, false, true);
    OneBlock(a, c);
    TakenHolds(st.free, st'.free, a, c, t, false);
    TakenHolds(st.live, st'.live, a, c, t, true);
    LeftSized(c, t);
    TakenTiled(st'.mem, b, pre, c, post, t);
    assert pre + [Chunk(t, true)] + (Left(c, t) + post) == pre + mid + post;
    SizedThree(pre, mid, post);
    SizedThree(pre, [c], post);
    RestWithin(st.mem, st'.mem, b, st.heaps[b].size, a, a + c.size + if post == [] then 0 else 1);
    Remade(st, st', b, pre, [c], mid, post);
    TidyStill(st, st', b);
    FocusIs(st', b, pre, Chunk(t, true), Left(c, t) + post, true, true);
  }

  lemma FocusIs(st: Store, b: nat, pre: seq<Chunk>, c: Chunk, post: seq<Chunk>, flag: bool, foot: bool)
    requires b in st.heaps && st.heaps[b].cs == pre + [c] + post && Parts(st.mem, b, pre, c, post, flag, foot)
    ensures Focused(st, b, pre, c, post, flag, foot)
  {
  }

  lemma TakenTiled(m: seq<int>, b: nat, pre: seq<Chunk>, c: Chunk, post: seq<Chunk>, t: nat)
    requires var a := First(b) + Sum(pre);
      && MIN_SIZE <= t <= c.size && a + c.size <= |m|
      && m[a] == Header(Chunk(t, true), true) && m[a + 1] == b && LastUsed(pre, true)
      && Tiled(m, b, First(b), pre, true) && Tiled(m, b, a + t, Left(c, t) + post, true)
    ensures Parts(m, b, pre, Chunk(t, true), Left(c, t) + post, true, true)
    ensures var a := First(b) + Sum(pre);
      && Covers(m, b, Blocks(First(b), pre)) && Covers(m, b, Blocks(a, [Chunk(t, true)] + Left(c, t)))
      && Covers(m, b, Blocks(a + c.size, post))
  {
    hide Tiled, Sized, Sum, Blocks, Covers, Header;
    var a, u, l := First(b) + Sum(pre), Chunk(t, true), Left(c, t);
    TiledCovers(m, b, First(b), pre, true);
    TiledAppend(m, b, a + t, l, post, true);
    OneBlock(a + t, Chunk(c.size - t, false));
    EmptySum();
    TiledCovers(m, b, a + t, l, true);
    TiledCovers(m, b, a + c.size, post, LastUsed(l, true));
    TiledSized(m, b, a + t, l, true);
    CoversOne(m, b, a, u);
    OneSized(u);
    OneBlock(a, u);
    CoversAppend(m, b, a, [u], l);
  }

  /** Writing in and just behind a chunk that was free leaves the payloads alone. */
  lemma PayloadsStay(st: Store, mem': seq<int>, b: nat, pre: seq<Chunk>, c: Chunk, post: seq<Chunk>, flag: bool, foot: bool)
    requires OkElse(st, b) && Focused(st, b, pre, c, post, flag, foot) && !c.used
    requires Rest(st.mem, mem', b + 1, First(b) + Sum(pre), First(b) + Sum(pre) + c.size + 1)
    ensures Kept(st.mem, mem', st.live)
  {
    hide Tiled, Sized, Sum, OkElse, Focused, RangeHolds;
    OnePlace(st, b, pre, c, post, flag, foot);
    forall a, w | a in st.live && a + OVERHEAD <= w < a + st.live[a] && w < |st.mem|
      ensures mem'[w] == st.mem[w]
    {
      BlockApart(st, b, pre, c, post, flag, foot, a);
    }
  }

  /** Every chunk in use after a coalesced heap's free chunk was taken is still between chunks that are not both free. */
  lemma TakenCoalesced(pre: seq<Chunk>, c: Chunk, post: seq<Chunk>, t: nat)
    requires Coalesced(pre) && Coalesced(post) && (post != [] ==> post[0].used)
    ensures Coalesced(pre + [Chunk(t, true)] + (Left(c, t) + post))
  {
    var l := Left(c, t);
    if l == [] {
      assert l + post == post;
    } else {
      assert l + post == [] + l + post;
      CoalescedAround([], l[0], post);
    }
    CoalescedAround(pre, Chunk(t, true), l + post);
  }

  // ----- Heaps that come and go -----

  /** Words no heap has. */
  predicate Fresh(mem: seq<int>, heaps: map<nat, Heap>, at: nat, size: nat) {
    && at > 0 && at % PAGE == 0 && size % PAGE == 0 && size > 0 && at + size <= |mem|
    && forall b :: b in heaps ==> b + heaps[b].size <= at || at + size <= b
  }

  /** A heap that is one free chunk of `size` words less its header. */
  function Whole(size: nat): Heap {
    Heap(size, if size >= HEAP_HEADER then [Chunk(size - HEAP_HEADER, false)] else [])
  }

  lemma LocalGrows(st: Store, hs: map<nat, Heap>, at: nat, size: nat, m: map<nat, nat>, m': map<nat, nat>, used: bool)
    requires OkElse(st, 0) && Fresh(st.mem, st.heaps, at, size) && Indexed(st.mem, st.heaps, m, used)
    requires hs == st.heaps[at := Whole(size)] && m' == if used then m else m[First(at) := size - HEAP_HEADER]
    ensures forall c :: c in hs ==> Local(m', c, hs[c], used)
  {
    hide Blocks, Local, Shaped, Tiled, Sum, Sized, Owner, OkElse;
    NoneFresh(st, at, size, m, used);
    forall c | c in hs
      ensures Local(m', c, hs[c], used)
    {
      if c != at {
        assert Local(m, c, st.heaps[c], used);
        LocalElsewhere(m, m', at, size, c, st.heaps[c], used);
      } else {
        WholeLocal(m', at, size, used);
      }
    }
  }

  lemma IndexGrows(st: Store, mem': seq<int>, hs: map<nat, Heap>, at: nat, size: nat, m: map<nat, nat>, m': map<nat, nat>, used: bool)
    requires OkElse(st, 0) && Fresh(st.mem, st.heaps, at, size) && SameBut(st.mem, mem', at, at + size)
    requires Indexed(st.mem, st.heaps, m, used) && m' == if used then m else m[First(at) := size - HEAP_HEADER]
    requires hs == st.heaps[at := Whole(size)] && mem'[First(at) + 1] == at
    ensures Indexed(mem', hs, m', used)
  {
    hide Local, Owner, OkElse;
    LocalGrows(st, hs, at, size, m, m', used);
    forall a | a in m'
      ensures Owner(mem', a) in hs && First(Owner(mem', a)) <= a < Owner(mem', a) + hs[Owner(mem', a)].size
    {
      if a == First(at) {
        OwnerIs(mem', a, at);
      } else {
        IndexedAt(st.mem, st.heaps, m, used, a);
        OwnerSame(st, mem', at, at + size, m, used, a);
      }
    }
  }

  lemma OwnerIs(mem: seq<int>, a: nat, b: nat)
    requires a + 1 < |mem| && mem[a + 1] == b
    ensures Owner(mem, a) == b
  {
  }

  /** The owner of a chunk outside the words that change. */
  lemma OwnerSame(st: Store, mem': seq<int>, lo: nat, hi: nat, m: map<nat, nat>, used: bool, a: nat)
    requires OkElse(st, 0) && Indexed(st.mem, st.heaps, m, used) && a in m && SameBut(st.mem, mem', lo, hi)
    requires var o := Owner(st.mem, a); o in st.heaps ==> o + st.heaps[o].size <= lo || hi <= o
    ensures Owner(mem', a) == Owner(st.mem, a)
  {
    hide Blocks, Tiled, Sum;
    var o := Owner(st.mem, a);
    IndexedAt(st.mem, st.heaps, m, used, a);
    HeapPartsOf(st, 0, o);
    LocalAt(m, o, st.heaps[o], used, a);
    BlocksInside(First(o), st.heaps[o].cs);
    assert a + 1 < o + st.heaps[o].size;
  }

  lemma NoneFresh(st: Store, at: nat, size: nat, m: map<nat, nat>, used: bool)
    requires OkElse(st, 0) && Fresh(st.mem, st.heaps, at, size) && Indexed(st.mem, st.heaps, m, used)
    ensures forall a :: a in m ==> !(at <= a < at + size)
  {
    forall a | a in m
      ensures !(at <= a < at + size)
    {
      IndexedAt(st.mem, st.heaps, m, used, a);
    }
  }

  lemma WholeLocal(m: map<nat, nat>, at: nat, size: nat, used: bool)
    requires size >= HEAP_HEADER + MIN_SIZE
    requires forall a :: a in m && First(at) <= a < at + size ==> !used && a == First(at)
    requires !used ==> First(at) in m && m[First(at)] == size - HEAP_HEADER
    ensures Local(m, at, Whole(size), used)
  {
    OneBlock(First(at), Chunk(size - HEAP_HEADER, false));
  }

  /** A new heap, one free chunk. */
  lemma Mapped(st: Store, st': Store, at: nat, size: nat)
    requires Ok(st) && Fresh(st.mem, st.heaps, at, size) && SameBut(st.mem, st'.mem, at, at + size)
    requires size >= HEAP_HEADER
    requires st'.mem[at] == 8 * size && Stands(st'.mem, at, First(at), Chunk(size - HEAP_HEADER, false), true)
    requires st'.heaps == st.heaps[at := Whole(size)] && st'.live == st.live
    requires st'.free == st.free[First(at) := size - HEAP_HEADER]
    ensures Ok(st') && Kept(st.mem, st'.mem, st.live)
  {
    hide Blocks, Local, Sum, Indexed, Shaped, Tiled, Owner, Stands, Sized, Apart, Fresh;
    ReadsOwner(st'.mem, at, Chunk(size - HEAP_HEADER, false));
    IndexGrows(st, st'.mem, st'.heaps, at, size, st.free, st'.free, false);
    IndexGrows(st, st'.mem, st'.heaps, at, size, st.live, st'.live, true);
    MappedShapes(st, st'.mem, st'.heaps, at, size);
    MappedKept(st, st'.mem, at, size);
  }

  lemma ReadsOwner(mem: seq<int>, at: nat, c: Chunk)
    requires Stands(mem, at, First(at), c, true)
    ensures First(at) + 1 < |mem| && mem[First(at) + 1] == at && c.size >= MIN_SIZE
  {
  }

  lemma MappedKept(st: Store, mem': seq<int>, at: nat, size: nat)
    requires OkElse(st, 0) && Fresh(st.mem, st.heaps, at, size) && SameBut(st.mem, mem', at, at + size)
    ensures Kept(st.mem, mem', st.live)
  {
    hide Blocks, Local, Sum, Indexed, Shaped, Tiled, Owner, Stands, Sized, OkElse;
    forall a, w | a in st.live && a + OVERHEAD <= w < a + st.live[a] && w < |st.mem|
      ensures mem'[w] == st.mem[w]
    {
      LiveInHeap(st, 0, a);
    }
  }

  lemma MappedShapes(st: Store, mem': seq<int>, hs: map<nat, Heap>, at: nat, size: nat)
    requires Ok(st) && Fresh(st.mem, st.heaps, at, size) && SameBut(st.mem, mem', at, at + size)
    requires mem'[at] == 8 * size && Stands(mem', at, First(at), Chunk(size - HEAP_HEADER, false), true)
    requires hs == st.heaps[at := Whole(size)]
    ensures forall b :: b in hs ==> Shaped(mem', b, hs[b])
    ensures forall b :: b in hs ==> Tiled(mem', b, First(b), hs[b].cs, true)
    ensures Apart(hs)
  {
    hide Blocks, Local, Sum, Indexed, Sized, Tiled, Stands;
    WholeShaped(mem', at, size);
    forall b | b in st.heaps
      ensures Shaped(mem', b, st.heaps[b]) && Tiled(mem', b, First(b), st.heaps[b].cs, true)
    {
      assert Shaped(st.mem, b, st.heaps[b]);
      TiledFrame(st.mem, mem', b, First(b), st.heaps[b].cs, true);
    }
  }

  lemma WholeShaped(mem: seq<int>, at: nat, size: nat)
    requires at > 0 && at % PAGE == 0 && size % PAGE == 0 && size >= HEAP_HEADER && at + size <= |mem|
    requires mem[at] == 8 * size && Stands(mem, at, First(at), Chunk(size - HEAP_HEADER, false), true)
    ensures Shaped(mem, at, Whole(size)) && Tiled(mem, at, First(at), Whole(size).cs, true)
  {
    var c := Chunk(size - HEAP_HEADER, false);
    OneBlock(First(at), c);
    OneSized(c);
    assert [c][1..] == [];
  }

  /** A heap that is one free chunk goes. */
  lemma Unmapped(st: Store, st': Store, b: nat)
    requires Ok(st) && b in st.heaps && st.heaps[b] == Whole(st.heaps[b].size) && st.heaps[b].size >= HEAP_HEADER
    requires st' == st.(heaps := st.heaps - {b}, free := st.free - {First(b)})
    ensures Ok(st')
  {
    hide Blocks, Tiled, Sum, Sized, Indexed;
    assert Shaped(st.mem, b, st.heaps[b]);
    UnmappedIndex(st, st'.heaps, b, st.free, st'.free, false);
    UnmappedIndex(st, st'.heaps, b, st.live, st'.live, true);
  }

  lemma OnlyFirst(st: Store, b: nat, m: map<nat, nat>, used: bool, a: nat)
    requires OkElse(st, 0) && b in st.heaps && Indexed(st.mem, st.heaps, m, used)
    requires st.heaps[b] == Whole(st.heaps[b].size) && st.heaps[b].size >= HEAP_HEADER
    requires a in m && Owner(st.mem, a) == b
    ensures !used && a == First(b)
  {
    hide Tiled, Sum, Sized, Local, OkElse, Owner;
    var h := st.heaps[b];
    IndexedAt(st.mem, st.heaps, m, used, a);
    LocalAt(m, b, h, used, a);
    OneBlock(First(b), Chunk(h.size - HEAP_HEADER, false));
  }

  lemma UnmappedIndex(st: Store, hs: map<nat, Heap>, b: nat, m: map<nat, nat>, m': map<nat, nat>, used: bool)
    requires OkElse(st, 0) && b in st.heaps && Indexed(st.mem, st.heaps, m, used) && hs == st.heaps - {b}
    requires st.heaps[b] == Whole(st.heaps[b].size) && st.heaps[b].size > HEAP_HEADER
    requires m' == if used then m else m - {First(b)}
    ensures Indexed(st.mem, hs, m', used)
  {
    hide Blocks, Tiled, Sum, Sized, Local, Owner, OkElse, SameElsewhere;
    var size := st.heaps[b].size;
    SameLocal(m, m', b, size);
    forall c | c in hs
      ensures Local(m', c, hs[c], used)
    {
      assert Local(m, c, st.heaps[c], used);
      HeapsApart(st, 0, b, c);
      LocalElsewhere(m, m', b, size, c, st.heaps[c], used);
    }
    forall a | a in m'
      ensures Owner(st.mem, a) in hs && First(Owner(st.mem, a)) <= a < Owner(st.mem, a) + hs[Owner(st.mem, a)].size
    {
      IndexedAt(st.mem, st.heaps, m, used, a);
      if Owner(st.mem, a) == b {
        OnlyFirst(st, b, m, used, a);
      }
    }
  }

  lemma SameLocal(m: map<nat, nat>, m': map<nat, nat>, b: nat, size: nat)
    requires m' == m || (m' == m - {First(b)} && size > HEAP_HEADER)
    ensures SameElsewhere(m, m', b, size)
  {
  }

  lemma OkIndexed(st: Store, b: nat)
    requires OkElse(st, b)
    ensures Indexed(st.mem, st.heaps, st.free, false) && Indexed(st.mem, st.heaps, st.live, true)
  {
  }

  // ----- A free chunk split in two -----

  lemma SplitHolds(m: map<nat, nat>, m': map<nat, nat>, a: nat, c: Chunk, n: nat, used: bool)
    requires RangeHolds(m, a, [c], used) && !c.used && 0 < n < c.size
    requires m' == if used then m else m[a := n][a + n := c.size - n]
    ensures RangeHolds(m', a, [Chunk(n, false), Chunk(c.size - n, false)], used) && SameOutside(m, m', a, a + c.size)
  {
    OneBlock(a, c);
    TwoBlocks(a, Chunk(n, false), Chunk(c.size - n, false));
    var blocks := Blocks(a, [Chunk(n, false), Chunk(c.size - n, false)]);
    forall x | a <= x < a + c.size
      ensures Holds(m', blocks, used, x)
    {
      assert Holds(m, Blocks(a, [c]), used, x);
    }
  }

  lemma TwoCovers(m: seq<int>, b: nat, a: nat, d: Chunk, c: Chunk)
    requires a + d.size + 1 < |m| && d.size > 0 && m[a + 1] == b && m[a + d.size + 1] == b
    ensures Covers(m, b, Blocks(a, [d, c]))
  {
    TwoBlocks(a, d, c);
  }

  lemma TwoSized(d: Chunk, c: Chunk)
    requires d.size >= MIN_SIZE && c.size >= MIN_SIZE
    ensures Sized([d, c])
  {
  }

  /** A free chunk has become two. */
  lemma SplitState(st: Store, st': Store, b: nat, pre: seq<Chunk>, c: Chunk, post: seq<Chunk>, n: nat)
    requires OkElse(st, b) && Focused(st, b, pre, c, post, false, true) && !c.used && TidyIn(st.mem, st.heaps, b)
    requires MIN_SIZE <= n && n + MIN_SIZE <= c.size
    requires var a, d, e := First(b) + Sum(pre), Chunk(n, false), Chunk(c.size - n, false);
      && SameBut(st.mem, st'.mem, a, a + c.size)
      && Stands(st'.mem, b, a, d, LastUsed(pre, true)) && Stands(st'.mem, b, a + n, e, false)
      && st'.heaps == st.heaps[b := Heap(st.heaps[b].size, pre + [d] + ([e] + post))]
      && st'.free == st.free[a := n][a + n := c.size - n] && st'.live == st.live
    ensures OkElse(st', b) && Focused(st', b, pre, Chunk(n, false), [Chunk(c.size - n, false)] + post, false, true)
    ensures TidyIn(st'.mem, st'.heaps, b) && FreeSum(st'.heaps[b].cs) == FreeSum(st.heaps[b].cs)
    ensures b + 1 < |st.mem| && st'.mem[b + 1] == st.mem[b + 1]
  {
    hide Tiled, OkElse, Sized, Sum, FreeSum, TidyIn, RangeHolds, SameOutside, Blocks, Covers, Header, Focused, Parts;
    var a, d, e := First(b) + Sum(pre), Chunk(n, false), Chunk(c.size - n, false);
    OnePlace(st, b, pre, c, post, false, true);
    OneBlock(a, c);
    TwoBlocks(a, d, e);
    SplitHolds(st.free, st'.free, a, c, n, false);
    SplitHolds(st.live, st'.live, a, c, n, true);
    SplitParts(st.mem, st'.mem, b, pre, c, post, n);
    TwoCovers(st'.mem, b, a, d, e);
    TwoSized(d, e);
    assert pre + [d] + ([e] + post) == pre + [d, e] + post;
    SizedThree(pre, [d, e], post);
    SizedThree(pre, [c], post);
    Remade(st, st', b, pre, [c], [d, e], post);
    TidyStill(st, st', b);
    FocusIs(st', b, pre, d, [e] + post, false, true);
  }

  lemma SplitParts(m: seq<int>, m': seq<int>, b: nat, pre: seq<Chunk>, c: Chunk, post: seq<Chunk>, n: nat)
    requires Parts(m, b, pre, c, post, false, true) && n < c.size
    requires var a, d, e := First(b) + Sum(pre), Chunk(n, false), Chunk(c.size - n, false);
      SameBut(m, m', a, a + c.size) && Stands(m', b, a, d, LastUsed(pre, true)) && Stands(m', b, a + n, e, false)
    ensures Parts(m', b, pre, Chunk(n, false), [Chunk(c.size - n, false)] + post, false, true)
    ensures Covers(m', b, Blocks(First(b), pre)) && Covers(m', b, Blocks(First(b) + Sum(pre) + c.size, post))
  {
    var a, e := First(b) + Sum(pre), Chunk(c.size - n, false);
    TiledFrame(m, m', b, First(b), pre, true);
    TiledFrame(m, m', b, a + c.size, post, false);
    TiledCovers(m', b, First(b), pre, true);
    TiledCovers(m', b, a + c.size, post, false);
    assert ([e] + post)[0] == e && ([e] + post)[1..] == post;
    hide Blocks, Sum;
  }

  // ----- A block in use split in two -----

  function PartFree(free: map<nat, nat>, a: nat, d: Chunk, e: Chunk): map<nat, nat> {
    if d.used then free[a + d.size := e.size] else free[a := d.size]
  }

  function PartLive(live: map<nat, nat>, a: nat, d: Chunk, e: Chunk): map<nat, nat> {
    if d.used then live[a := d.size] else (live - {a})[a + d.size := e.size]
  }

  lemma PartHolds(m: map<nat, nat>, m': map<nat, nat>, a: nat, u: Chunk, d: Chunk, e: Chunk, used: bool)
    requires RangeHolds(m, a, [u], used) && u.used && d.size + e.size == u.size && d.size > 0 && e.size > 0 && d.used != e.used
    requires m' == if used then PartLive(m, a, d, e) else PartFree(m, a, d, e)
    ensures RangeHolds(m', a, [d, e], used) && SameOutside(m, m', a, a + u.size)
  {
    OneBlock(a, u);
    TwoBlocks(a, d, e);
    var blocks := Blocks(a, [d, e]);
    forall x | a <= x < a + u.size
      ensures Holds(m', blocks, used, x)
    {
      assert Holds(m, Blocks(a, [u]), used, x);
    }
  }

  /** A block in use has become a smaller one and a free chunk, before it or after it. */
  lemma UsedSplit(st: Store, st': Store, b: nat, pre: seq<Chunk>, u: Chunk, post: seq<Chunk>, d: Chunk, e: Chunk, flag: bool)
    requires OkElse(st, b) && Focused(st, b, pre, u, post, true, true) && u.used && TidyIn(st.mem, st.heaps, b)
    requires d.size + e.size == u.size && d.size >= MIN_SIZE && e.size >= MIN_SIZE && d.used != e.used
    requires var a := First(b) + Sum(pre);
      && Rest(st.mem, st'.mem, b + 1, a, a + u.size + if post == [] then 0 else 1)
      && Tiled(st'.mem, b, First(b), pre, true) && Tiled(st'.mem, b, a + u.size, post, flag)
      && Stands(st'.mem, b, a, d, LastUsed(pre, true)) && Stands(st'.mem, b, a + d.size, e, d.used)
      && st'.heaps == st.heaps[b := Heap(st.heaps[b].size, pre + [d, e] + post)]
      && st'.free == PartFree(st.free, a, d, e) && st'.live == PartLive(st.live, a, d, e)
    ensures OkElse(st', b) && TidyIn(st'.mem, st'.heaps, b) && b in st'.heaps
    ensures FreeSum(st'.heaps[b].cs) == FreeSum(st.heaps[b].cs) + if d.used then e.size else d.size
  {
    hide Tiled, OkElse, Sized, Sum, FreeSum, TidyIn, RangeHolds, SameOutside, Blocks, Covers, Header, Focused, Parts,
         PartFree, PartLive;
    var a := First(b) + Sum(pre);
    OnePlace(st, b, pre, u, post, true, true);
    PartsHeader(st.mem, b, pre, u, post, true, true);
    OneBlock(a, u);
    TwoBlocks(a, d, e);
    PartHolds(st.free, st'.free, a, u, d, e, false);
    PartHolds(st.live, st'.live, a, u, d, e, true);
    TwoCovers(st'.mem, b, a, d, e);
    TwoSized(d, e);
    SizedThree(pre, [d, e], post);
    SizedThree(pre, [u], post);
    TiledCovers(st'.mem, b, First(b), pre, true);
    TiledCovers(st'.mem, b, a + u.size, post, flag);
    RestWithin(st.mem, st'.mem, b, st.heaps[b].size, a, a + u.size + if post == [] then 0 else 1);
    Remade(st, st', b, pre, [u], [d, e], post);
    TidyStill(st, st', b);
  }

  // ----- A block in use grown into the free chunk behind it -----

  /** The chunks after a block has grown over the front of the free chunk behind it. */
  function GrownOver(u: Chunk, c: Chunk, t: nat): seq<Chunk> {
    [Chunk(u.size + t, true)] + Left(c, t)
  }

  lemma GrownBlocks(a: nat, u: Chunk, c: Chunk, t: nat)
    requires u.used && !c.used && u.size > 0 && 0 < t <= c.size
    ensures Sum(GrownOver(u, c, t)) == u.size + c.size
    ensures var bs, r := Blocks(a, GrownOver(u, c, t)), a + u.size + t;
      && (t < c.size ==> bs == map[a := Chunk(u.size + t, true), r := Chunk(c.size - t, false)])
      && (t == c.size ==> bs == map[a := Chunk(u.size + t, true)])
  {
    var v := Chunk(u.size + t, true);
    if t < c.size {
      assert GrownOver(u, c, t) == [v, Chunk(c.size - t, false)];
      TwoBlocks(a, v, Chunk(c.size - t, false));
    } else {
      assert GrownOver(u, c, t) == [v];
      OneBlock(a, v);
    }
  }

  lemma GrownUsed(m: map<nat, nat>, a: nat, u: Chunk, c: Chunk, t: nat)
    requires RangeHolds(m, a, [u, c], true) && u.used && !c.used && u.size > 0 && 0 < t <= c.size
    ensures RangeHolds(m[a := u.size + t], a, GrownOver(u, c, t), true)
  {
    TwoBlocks(a, u, c);
    GrownBlocks(a, u, c, t);
    hide Blocks, Sum, GrownOver;
    var m', bs := m[a := u.size + t], Blocks(a, GrownOver(u, c, t));
    forall x | a <= x < a + u.size + c.size
      ensures Holds(m', bs, true, x)
    {
      assert Holds(m, Blocks(a, [u, c]), true, x);
    }
  }

  lemma LeftHolds(m: map<nat, nat>, a: nat, u: Chunk, c: Chunk, t: nat)
    requires RangeHolds(m, a, [u, c], false) && u.used && !c.used && u.size > 0 && 0 < t <= c.size
    ensures RangeHolds(LeftFree(m, a + u.size, c, t), a, GrownOver(u, c, t), false)
  {
    TwoBlocks(a, u, c);
    GrownBlocks(a, u, c, t);
    hide Blocks, Sum, GrownOver;
    var m', bs := LeftFree(m, a + u.size, c, t), Blocks(a, GrownOver(u, c, t));
    forall x | a <= x < a + u.size + c.size
      ensures Holds(m', bs, false, x)
    {
      assert Holds(m, Blocks(a, [u, c]), false, x);
    }
  }

  lemma GrownHolds(m: map<nat, nat>, m': map<nat, nat>, a: nat, u: Chunk, c: Chunk, t: nat, used: bool)
    requires RangeHolds(m, a, [u, c], used) && u.used && !c.used && u.size > 0 && 0 < t <= c.size
    requires m' == if used then m[a := u.size + t] else LeftFree(m, a + u.size, c, t)
    ensures RangeHolds(m', a, GrownOver(u, c, t), used) && SameOutside(m, m', a, a + u.size + c.size)
    ensures Sum(GrownOver(u, c, t)) == u.size + c.size
  {
    hide RangeHolds, GrownOver, Sum;
    GrownBlocks(a, u, c, t);
    if used {
      GrownUsed(m, a, u, c, t);
    } else {
      LeftHolds(m, a, u, c, t);
    }
  }

  /** The words after the free chunk `c` behind the block `u` was taken and `u` grew over what was taken. */
  predicate GrownBy(m: seq<int>, m1: seq<int>, m2: seq<int>, b: nat, pre: seq<Chunk>, u: Chunk, c: Chunk, post: seq<Chunk>, t: nat) {
    var a := First(b) + Sum(pre);
    && TakenFrom(m, m1, b, pre + [u], c, post, t) && a < |m| && m2 == m1[a := m[a] + 8 * t]
  }

  lemma GrownRest(m: seq<int>, m1: seq<int>, m2: seq<int>, b: nat, a: nat, w: nat, hi: nat, t: nat)
    requires b + 1 < a && w >= MIN_SIZE && a + w <= hi && a + w <= |m|
    requires Rest(m, m1, b + 1, a + w, hi) && m2 == m1[a := m[a] + 8 * t] && m1[b + 1] == m[b + 1] - 8 * t
    ensures Rest(m, m2, b + 1, a, hi) && m2[b + 1] == m[b + 1] - 8 * t && SameBut(m1, m2, a, a + 1)
    ensures SameWords(m, m2, b + 2, a) && m2[a] == m[a] + 8 * t && forall x :: a < x < a + w ==> m2[x] == m[x]
  {
  }

  lemma GrownHeader(u: Chunk, t: nat, pused: bool)
    requires u.used
    ensures Header(Chunk(u.size + t, true), pused) == Header(u, pused) + 8 * t
  {
  }

  lemma AfterOne(pre: seq<Chunk>, u: Chunk)
    ensures Sum(pre + [u]) == Sum(pre) + u.size && LastUsed(pre + [u], true) == u.used
  {
    SumAppend(pre, [u]);
    OneBlock(0, u);
  }

  /** The words around the block and the free chunk behind it. */
  lemma GrownPlace(m: seq<int>, b: nat, pre: seq<Chunk>, u: Chunk, c: Chunk, post: seq<Chunk>)
    requires Parts(m, b, pre, u, [c] + post, true, true)
    ensures var a := First(b) + Sum(pre);
      && a + u.size + c.size + (if post == [] then 0 else 1) <= |m| && u.size >= MIN_SIZE
      && m[a] == Header(u, LastUsed(pre, true)) && m[a + 1] == b && Tiled(m, b, First(b), pre, true)
  {
    hide Tiled, Sized, Header, Sum;
    TiledSized(m, b, First(b) + Sum(pre) + u.size, [c] + post, true);
    FirstSum(c, post);
    SizedAppend([c], post);
    SizedSum(post);
  }

  lemma PartsFrom(m: seq<int>, b: nat, pre: seq<Chunk>, c: Chunk, post: seq<Chunk>, flag: bool)
    requires var a := First(b) + Sum(pre);
      && c.used && c.size >= MIN_SIZE && a + c.size <= |m| && m[a] == Header(c, LastUsed(pre, true)) && m[a + 1] == b
      && Tiled(m, b, First(b), pre, true) && Tiled(m, b, a + c.size, post, flag)
    ensures Parts(m, b, pre, c, post, flag, true)
  {
  }

  lemma GrownParts(m: seq<int>, m1: seq<int>, m2: seq<int>, b: nat, pre: seq<Chunk>, u: Chunk, c: Chunk, post: seq<Chunk>, t: nat)
    requires Parts(m, b, pre, u, [c] + post, true, true) && u.used && !c.used && 0 < t <= c.size
    requires GrownBy(m, m1, m2, b, pre, u, c, post, t) && b + 1 < First(b) + Sum(pre)
    ensures Parts(m2, b, pre, Chunk(u.size + t, true), Left(c, t) + post, true, true)
    ensures var a := First(b) + Sum(pre);
      && Rest(m, m2, b + 1, a, a + u.size + c.size + if post == [] then 0 else 1)
      && (forall w :: a < w < a + u.size && w < |m| ==> m2[w] == m[w])
      && m2[b + 1] == m[b + 1] - 8 * t && SameBut(m1, m2, a, a + 1)
  {
    hide Tiled, Sum, Sized, Header, Rest, Left, SameBut, SameWords, Parts;
    var a := First(b) + Sum(pre);
    GrownPlace(m, b, pre, u, c, post);
    AfterOne(pre, u);
    GrownHeader(u, t, LastUsed(pre, true));
    GrownRest(m, m1, m2, b, a, u.size, a + u.size + c.size + if post == [] then 0 else 1, t);
    SameFrom(m1, m2, a, a + u.size + t, a + u.size + t + Sum(Left(c, t) + post));
    SameBefore(m, m2, b, a, pre);
    TiledFrame(m1, m2, b, a + u.size + t, Left(c, t) + post, true);
    PartsFrom(m2, b, pre, Chunk(u.size + t, true), Left(c, t) + post, true);
  }

  lemma SameBefore(m: seq<int>, m': seq<int>, b: nat, a: nat, pre: seq<Chunk>)
    requires SameWords(m, m', b + 2, a) && a == First(b) + Sum(pre) && Tiled(m, b, First(b), pre, true)
    ensures Tiled(m', b, First(b), pre, true)
  {
    TiledFrame(m, m', b, First(b), pre, true);
  }

  lemma SameFrom(m: seq<int>, m': seq<int>, a: nat, lo: nat, hi: nat)
    requires SameBut(m, m', a, a + 1) && a < lo
    ensures SameWords(m, m', lo, hi)
  {
  }

  lemma GrownHolding(st: Store, st': Store, b: nat, pre: seq<Chunk>, u: Chunk, c: Chunk, post: seq<Chunk>, t: nat)
    requires OkElse(st, b) && Focused(st, b, pre, u, [c] + post, true, true) && u.used && !c.used && 0 < t <= c.size
    requires var a := First(b) + Sum(pre);
      st'.free == LeftFree(st.free, a + u.size, c, t) && st'.live == st.live[a := u.size + t]
    ensures var a, mid := First(b) + Sum(pre), [Chunk(u.size + t, true)] + Left(c, t);
      && RangeHolds(st'.free, a, mid, false) && RangeHolds(st'.live, a, mid, true)
      && SameOutside(st.free, st'.free, a, a + u.size + c.size) && SameOutside(st.live, st'.live, a, a + u.size + c.size)
      && Sum(mid) == u.size + c.size && Sized(pre) && Sized(post) && u.size >= MIN_SIZE && c.size >= MIN_SIZE
  {
    hide Tiled, OkElse, Sized, Sum, FreeSum, RangeHolds, SameOutside, Blocks, Header, Parts, Left, LeftFree;
    var a := First(b) + Sum(pre);
    assert pre + [u] + ([c] + post) == pre + [u, c] + post;
    MidHolds(st, b, pre, [u, c], post);
    BigEnough(u, c);
    GrownHolds(st.free, st'.free, a, u, c, t, false);
    GrownHolds(st.live, st'.live, a, u, c, t, true);
  }

  lemma GrownTiled(m: seq<int>, b: nat, pre: seq<Chunk>, v: Chunk, l: seq<Chunk>, post: seq<Chunk>)
    requires Parts(m, b, pre, v, l + post, true, true)
    ensures var a := First(b) + Sum(pre);
      && Covers(m, b, Blocks(First(b), pre)) && Covers(m, b, Blocks(a, [v] + l))
      && Covers(m, b, Blocks(a + Sum([v] + l), post)) && Sized([v] + l)
  {
    hide Tiled, Sum, Blocks, Covers, Sized, Header;
    var a := First(b) + Sum(pre);
    TiledCovers(m, b, First(b), pre, true);
    TiledAppend(m, b, a + v.size, l, post, true);
    TiledCovers(m, b, a + v.size, l, true);
    TiledCovers(m, b, a + v.size + Sum(l), post, LastUsed(l, true));
    TiledSized(m, b, a + v.size, l, true);
    CoversOne(m, b, a, v);
    OneSized(v);
    OneBlock(a, v);
    SizedAppend([v], l);
    SumAppend([v], l);
    CoversAppend(m, b, a, [v], l);
  }

  lemma GrownFree(u: Chunk, c: Chunk, t: nat)
    requires u.used && !c.used && t <= c.size
    ensures FreeSum([Chunk(u.size + t, true)] + Left(c, t)) == c.size - t && FreeSum([u, c]) == c.size
  {
    TwoBlocks(0, u, c);
    if t < c.size {
      assert [Chunk(u.size + t, true)] + Left(c, t) == [Chunk(u.size + t, true), Chunk(c.size - t, false)];
      TwoBlocks(0, Chunk(u.size + t, true), Chunk(c.size - t, false));
    } else {
      assert [Chunk(u.size + t, true)] + Left(c, t) == [Chunk(u.size + t, true)];
      OneBlock(0, Chunk(u.size + t, true));
    }
  }

  /** A block in use has grown into the free chunk behind it. */
  lemma GrownState(st: Store, m1: seq<int>, st': Store, b: nat, pre: seq<Chunk>, u: Chunk, c: Chunk, post: seq<Chunk>, t: nat)
    requires OkElse(st, b) && Focused(st, b, pre, u, [c] + post, true, true) && u.used && !c.used && 0 < t <= c.size
    requires TidyIn(st.mem, st.heaps, b) && b + 1 < |st.mem| && st.mem[b + 1] == 8 * FreeSum(st.heaps[b].cs)
    requires GrownBy(st.mem, m1, st'.mem, b, pre, u, c, post, t)
    requires var a := First(b) + Sum(pre);
      && st'.heaps == st.heaps[b := Heap(st.heaps[b].size, pre + [Chunk(u.size + t, true)] + (Left(c, t) + post))]
      && st'.free == LeftFree(st.free, a + u.size, c, t) && st'.live == st.live[a := u.size + t]
    ensures OkElse(st', b) && Focused(st', b, pre, Chunk(u.size + t, true), Left(c, t) + post, true, true)
    ensures TidyIn(st'.mem, st'.heaps, b) && st'.mem[b + 1] == 8 * FreeSum(st'.heaps[b].cs)
  {
    hide Tiled, OkElse, Sized, Sum, FreeSum, TidyIn, RangeHolds, SameOutside, Blocks, Covers, Header, Parts, Focused, Left,
         LeftFree, GrownBy;
    var a, v, mid := First(b) + Sum(pre), Chunk(u.size + t, true), [Chunk(u.size + t, true)] + Left(c, t);
    GrownHolding(st, st', b, pre, u, c, post, t);
    GrownFocus(st, b, pre, u, c, post);
    GrownParts(st.mem, m1, st'.mem, b, pre, u, c, post, t);
    GrownTiled(st'.mem, b, pre, v, Left(c, t), post);
    GrownFree(u, c, t);
    assert pre + [v] + (Left(c, t) + post) == pre + mid + post;
    SizedThree(pre, mid, post);
    SizedThree(pre, [u, c], post);
    TwoBlocks(a, u, c);
    RestWithin(st.mem, st'.mem, b, st.heaps[b].size, a, a + u.size + c.size + if post == [] then 0 else 1);
    Remade(st, st', b, pre, [u, c], mid, post);
    TidyStill(st, st', b);
    FocusIs(st', b, pre, v, Left(c, t) + post, true, true);
  }

  lemma GrownFocus(st: Store, b: nat, pre: seq<Chunk>, u: Chunk, c: Chunk, post: seq<Chunk>)
    requires OkElse(st, b) && Focused(st, b, pre, u, [c] + post, true, true) && u.used
    ensures var a := First(b) + Sum(pre);
      && b in st.heaps && st.heaps[b].cs == pre + [u, c] + post && Parts(st.mem, b, pre, u, [c] + post, true, true)
      && b + 1 < a && a + u.size + c.size + (if post == [] then 0 else 1) <= b + st.heaps[b].size <= |st.mem|
      && st.heaps[b].size > 1 && c.size >= MIN_SIZE && u.size >= MIN_SIZE
      && Parts(st.mem, b, pre + [u], c, post, c.used, true)
  {
    hide OkElse, Sized, Sum, FreeSum, RangeHolds, Blocks, Header;
    assert pre + [u] + ([c] + post) == pre + [u, c] + post;
    MidHolds(st, b, pre, [u, c], post);
    HeapParts(st, b);
    BigEnough(u, c);
    TwoBlocks(0, u, c);
    SizedSum(post);
    AfterOne(pre, u);
    PartsTiled(st.mem, b, pre + [u], c, post);
    PartsTiled(st.mem, b, pre, u, [c] + post);
    assert pre + [u] + ([c] + post) == pre + [u] + [c] + post;
  }

  // ----- Blocks in use, and what is written in and around them -----

  /** No two blocks in use overlap. */
  lemma LiveApart(st: Store, any: nat, x: nat, y: nat)
    requires OkElse(st, any) && x in st.live && y in st.live && x < y
    ensures x + st.live[x] <= y
  {
    hide Tiled, Sized, Sum, Blocks, OkElse, Owner;
    LiveInHeap(st, any, x);
    LiveInHeap(st, any, y);
    var o, q := Owner(st.mem, x), Owner(st.mem, y);
    if o == q {
      BlocksApart(First(o), st.heaps[o].cs, x, y);
    } else {
      HeapsApart(st, any, o, q);
    }
  }

  /** A block in use begins with two words that are nobody's payload. */
  lemma LiveSized(st: Store, any: nat, x: nat)
    requires OkElse(st, any) && x in st.live
    ensures st.live[x] >= MIN_SIZE && x + st.live[x] <= |st.mem|
  {
    hide Tiled, Sum, OkElse, Owner;
    LiveInHeap(st, any, x);
    var o := Owner(st.mem, x);
    HeapPartsOf(st, any, o);
    BlocksInside(First(o), st.heaps[o].cs);
    hide Blocks, Sized;
    var i :| 0 <= i < |st.heaps[o].cs| && st.heaps[o].cs[i] == Chunk(st.live[x], true);
    SizedAt(st.heaps[o].cs, i);
  }

  lemma SizedAt(cs: seq<Chunk>, i: nat)
    requires Sized(cs) && i < |cs|
    ensures cs[i].size >= MIN_SIZE
  {
  }

  /** Only `b + 1`, the header of the block at `x`, and the words from `lo` to `hi` may differ. */
  predicate Beside(m: seq<int>, m': seq<int>, b: nat, x: nat, lo: nat, hi: nat) {
    |m'| == |m| && forall w :: 0 <= w < |m| && w != b + 1 && w != x && w != x + 1 && !(lo <= w < hi) ==> m'[w] == m[w]
  }

  /** Writing the count of a heap, a block's header, and in and just behind a free chunk leaves the payloads alone. */
  lemma HeadersKept(m: seq<int>, st': Store, b: nat, pre: seq<Chunk>, c: Chunk, post: seq<Chunk>, flag: bool, foot: bool, x: nat)
    requires OkElse(st', b) && Focused(st', b, pre, c, post, flag, foot) && !c.used && x in st'.live
    requires Beside(m, st'.mem, b, x, First(b) + Sum(pre), First(b) + Sum(pre) + c.size + 1)
    ensures Kept(m, st'.mem, st'.live)
  {
    hide Tiled, Sized, Sum, OkElse, Focused, RangeHolds;
    OnePlace(st', b, pre, c, post, flag, foot);
    LiveSized(st', b, x);
    forall a, w | a in st'.live && a + OVERHEAD <= w < a + st'.live[a] && w < |m|
      ensures st'.mem[w] == m[w]
    {
      BlockApart(st', b, pre, c, post, flag, foot, a);
      if a < x {
        LiveApart(st', b, a, x);
      } else if x < a {
        LiveApart(st', b, x, a);
      }
    }
  }

  /** What a block in use holds is nobody's business. */
  lemma PayloadWritten(st: Store, mem': seq<int>, a: nat)
    requires Ok(st) && a in st.live && TidyIn(st.mem, st.heaps, 0)
    requires SameBut(st.mem, mem', a + OVERHEAD, a + st.live[a])
    ensures Ok(st.(mem := mem')) && TidyIn(mem', st.heaps, 0)
  {
    hide Tiled, Sized, Sum, FreeSum, OkElse, Header, Coalesced, Indexed;
    OkIndexed(st, 0);
    NullIsNoHeap(st, 0);
    var b, pre, c, post := Find(st, st.live, true, a);
    OnePlace(st, b, pre, c, post, true, true);
    HeapPartsOf(st, b, b);
    var st' := st.(mem := mem');
    PayloadWithin(st.mem, mem', b, st.heaps[b].size, a, c.size);
    HeaderWritten(st.mem, mem', b, pre, c, c, post, true, true);
    Rewritten(st, st', b, pre, c, post, true, true);
    OkFocus(st', b, pre, c, post);
    TidyStill(st, st', b);
  }

  lemma NullIsNoHeap(st: Store, any: nat)
    requires OkElse(st, any)
    ensures 0 !in st.heaps
  {
    hide Tiled, Sized, Sum, Indexed;
    forall b | b in st.heaps
      ensures b > 0
    {
      assert Shaped(st.mem, b, st.heaps[b]);
    }
  }

  lemma PayloadWithin(m: seq<int>, m': seq<int>, b: nat, size: nat, a: nat, w: nat)
    requires SameBut(m, m', a + OVERHEAD, a + w) && b + 1 < a && w >= OVERHEAD && a + w <= b + size <= |m|
    ensures Within(m, m', b, size) && SameBut(m, m', a, a + w) && m'[a] == m[a] && a + 1 < |m| && m'[a + 1] == m[a + 1]
    ensures m'[b + 1] == m[b + 1]
  {
  }

  lemma PartedAround(m: seq<int>, m': seq<int>, b: nat, pre: seq<Chunk>, u: Chunk, post: seq<Chunk>)
    requires Parts(m, b, pre, u, post, true, true) && b + 1 < First(b) + Sum(pre)
    requires Rest(m, m', b + 1, First(b) + Sum(pre), First(b) + Sum(pre) + u.size)
    ensures Tiled(m', b, First(b), pre, true) && Tiled(m', b, First(b) + Sum(pre) + u.size, post, true) && |m'| == |m|
  {
    hide Sum, Sized, Header, Tiled;
    TiledFrame(m, m', b, First(b), pre, true);
    TiledFrame(m, m', b, First(b) + Sum(pre) + u.size, post, true);
  }

  /** The words of the two chunks that a block in use has become. */
  lemma PartedTiled(m: seq<int>, m': seq<int>, b: nat, pre: seq<Chunk>, u: Chunk, post: seq<Chunk>, d: Chunk, e: Chunk)
    requires Parts(m, b, pre, u, post, true, true) && d.size + e.size == u.size && b + 1 < First(b) + Sum(pre)
    requires var a := First(b) + Sum(pre);
      && Rest(m, m', b + 1, a, a + u.size)
      && Stands(m', b, a, d, LastUsed(pre, true)) && Stands(m', b, a + d.size, e, d.used)
    ensures Tiled(m', b, First(b), pre, true) && Tiled(m', b, First(b) + Sum(pre) + u.size, post, true)
    ensures Parts(m', b, pre + [d], e, post, true, true)
    ensures e.used ==> Parts(m', b, pre, d, [e] + post, d.used, true)
  {
    hide Sum, Sized, Header, Rest;
    PartedAround(m, m', b, pre, u, post);
    AfterOne(pre, d);
    TiledAppend(m', b, First(b), pre, [d], true);
    assert [d][1..] == [] && ([e] + post)[0] == e && ([e] + post)[1..] == post;
  }

  lemma RestWider(m: seq<int>, m': seq<int>, x: nat, lo: nat, hi: nat, hi': nat)
    requires Rest(m, m', x, lo, hi) && hi <= hi'
    ensures Rest(m, m', x, lo, hi')
  {
  }

  lemma BesideRest(m: seq<int>, m': seq<int>, b: nat, x: nat, lo: nat, hi: nat)
    requires Beside(m, m', b, x, lo, hi) && x + 1 < lo <= hi
    ensures Rest(m, m', b + 1, x, hi)
  {
  }

  /** The flag of the chunk behind a free one is cleared at last. */
  lemma Flagged(st: Store, st': Store, b: nat, pre: seq<Chunk>, c: Chunk, post: seq<Chunk>, flag: bool)
    requires OkElse(st, b) && Focused(st, b, pre, c, post, flag, true) && !c.used && TidyIn(st.mem, st.heaps, b)
    requires st' == st.(mem := FlagWritten(st.mem, First(b) + Sum(pre) + c.size, post, false))
    requires Parts(st'.mem, b, pre, c, post, false, true)
    ensures OkElse(st', b) && Focused(st', b, pre, c, post, false, true) && TidyIn(st'.mem, st'.heaps, b)
    ensures b + 1 < |st.mem| && st'.mem[b + 1] == st.mem[b + 1]
    ensures SameBut(st.mem, st'.mem, First(b) + Sum(pre) + c.size, First(b) + Sum(pre) + c.size + 1)
  {
    hide Tiled, OkElse, Sized, Sum, FreeSum, TidyIn, RangeHolds, Header, Parts, Focused;
    OnePlace(st, b, pre, c, post, flag, true);
    FlagWithin(st.mem, b, st.heaps[b].size, First(b) + Sum(pre) + c.size, post);
    Rewritten(st, st', b, pre, c, post, false, true);
    TidyStill(st, st', b);
  }

  lemma FlagWithin(m: seq<int>, b: nat, size: nat, x: nat, post: seq<Chunk>)
    requires b + 1 < x && x + (if post == [] then 0 else 1) <= b + size <= |m|
    ensures var m' := FlagWritten(m, x, post, false);
      Within(m, m', b, size) && SameBut(m, m', x, x + 1) && b + 1 < |m| && m'[b + 1] == m[b + 1]
  {
    hide Header;
  }

  lemma BesideThrough(m: seq<int>, m1: seq<int>, m2: seq<int>, m3: seq<int>, b: nat, x: nat, lo: nat, hi: nat, lo': nat, hi': nat)
    requires Beside(m, m1, b, x, lo, hi) && SameBut(m1, m2, lo', hi') && SameBut(m2, m3, hi', hi' + 1) && lo' <= lo && lo' <= hi' && hi <= hi'
    ensures Beside(m, m3, b, x, lo', hi' + 1)
  {
  }

  /** A block's header is nobody's payload. */
  lemma HeaderKept(st: Store, any: nat, m1: seq<int>, x: nat, y: int)
    requires OkElse(st, any) && x in st.live && Kept(st.mem, m1, st.live) && x < |m1|
    ensures Kept(st.mem, m1[x := y], st.live)
  {
    hide OkElse;
    forall a, w | a in st.live && a + OVERHEAD <= w < a + st.live[a] && w < |st.mem|
      ensures m1[x := y][w] == st.mem[w]
    {
      if a < x {
        LiveApart(st, any, a, x);
      }
    }
  }

  /** Writing what one block holds leaves what the others hold. */
  lemma OthersKept(st: Store, mem': seq<int>, a: nat)
    requires OkElse(st, 0) && a in st.live && SameBut(st.mem, mem', a + OVERHEAD, a + st.live[a])
    ensures Kept(st.mem, mem', st.live - {a})
  {
    hide OkElse;
    forall x, w | x in st.live - {a} && x + OVERHEAD <= w < x + st.live[x] && w < |st.mem|
      ensures mem'[w] == st.mem[w]
    {
      if a < x {
        LiveApart(st, 0, a, x);
      } else {
        LiveApart(st, 0, x, a);
      }
    }
  }

  lemma GrownCoalesced(pre: seq<Chunk>, v: Chunk, c: Chunk, post: seq<Chunk>, t: nat)
    requires Coalesced(pre) && Coalesced([c] + post) && !c.used && v.used
    ensures Coalesced(pre + [v] + (Left(c, t) + post))
  {
    var s, l := [c] + post, Left(c, t);
    assert s == [] + [c] + post;
    CoalescedParts([], [c], post);
    if l == [] {
      assert l + post == post;
    } else {
      assert l + post == [] + l + post;
      CoalescedAround([], l[0], post);
    }
    CoalescedAround(pre, v, l + post);
  }

  /** Words carried from one place of memory to another. */
  predicate Carried(m: seq<int>, m': seq<int>, source: nat, target: nat, words: nat) {
    && source + words <= |m| && target + words <= |m'|
    && forall x :: target <= x < target + words ==> m'[x] == m[x - target + source]
  }

  /** The block at `was` has become one of at least `n` words at `a`, which holds what the old one held. */
  ghost predicate Resized(m: seq<int>, m': seq<int>, live: map<nat, nat>, live': map<nat, nat>, was: nat, a: nat, n: nat) {
    && was in live && a in live' && live'[a] >= n && live' == (live - {was})[a := live'[a]] && (a == was || a !in live)
    && live[was] >= OVERHEAD && live'[a] >= OVERHEAD && Kept(m, m', live - {was})
    && Carried(m, m', was + OVERHEAD, a + OVERHEAD, (if live[was] < live'[a] then live[was] else live'[a]) - OVERHEAD)
  }

  lemma ResizedInPlace(m: seq<int>, m': seq<int>, live: map<nat, nat>, live': map<nat, nat>, a: nat, size: nat, n: nat)
    requires a in live && live[a] >= OVERHEAD && size >= OVERHEAD && size >= n && live' == live[a := size]
    requires a + live[a] <= |m| && Kept(m, m', if size < live[a] then live' else live)
    ensures Resized(m, m', live, live', a, a, n)
  {
    assert live' == (live - {a})[a := size];
    forall x, w | x in live - {a} && x + OVERHEAD <= w < x + live[x] && w < |m|
      ensures m'[w] == m[w]
    {
      assert x in live' && live'[x] == live[x];
    }
  }

  lemma CopyInside(m: seq<int>, m': seq<int>, target: nat, words: nat, a: nat, size: nat)
    requires SameBut(m, m', target, target + words) && target == a + OVERHEAD && words + OVERHEAD <= size
    ensures SameBut(m, m', a + OVERHEAD, a + size)
  {
  }

  /** Through allocating a block at `a`, copying words into it, and freeing the one at `was`. */
  lemma MovedKept(m0: seq<int>, m1: seq<int>, m2: seq<int>, m3: seq<int>, live0: map<nat, nat>, live3: map<nat, nat>,
                  was: nat, a: nat, words: nat)
    requires was in live0 && a !in live0 && a in live3 && live3 == (live0 - {was})[a := live3[a]]
    requires live0[was] == words + OVERHEAD < live3[a] && was + live0[was] <= |m0| && a + live3[a] <= |m0|
    requires Kept(m0, m1, live0) && Kept(m1, m2, live0[a := live3[a]] - {a}) && Kept(m2, m3, live3)
    requires Carried(m1, m2, was + OVERHEAD, a + OVERHEAD, words)
    ensures Kept(m0, m3, live0 - {was}) && Carried(m0, m3, was + OVERHEAD, a + OVERHEAD, words)
  {
    assert live0[a := live3[a]] - {a} == live0;
    forall x, w | x in live0 - {was} && x + OVERHEAD <= w < x + live0[x] && w < |m0|
      ensures m3[w] == m0[w]
    {
      assert x in live3 && live3[x] == live0[x];
      assert m1[w] == m0[w] && m2[w] == m1[w];
    }
    forall x | a + OVERHEAD <= x < a + OVERHEAD + words
      ensures m3[x] == m0[x - (a + OVERHEAD) + (was + OVERHEAD)]
    {
      assert m3[x] == m2[x];
      assert m1[x - a + was] == m0[x - a + was];
    }
  }

  lemma NotAtEnd(st: Store, b: nat, m: map<nat, nat>, used: bool, x: nat)
    requires OkElse(st, b) && b in st.heaps && Indexed(st.mem, st.heaps, m, used) && x in m
    ensures x != b + st.heaps[b].size
  {
    hide Tiled, Sized, Sum, Local, Owner;
    IndexedAt(st.mem, st.heaps, m, used, x);
    if Owner(st.mem, x) != b {
      HeapsApart(st, b, b, Owner(st.mem, x));
    }
  }

  /** No chunk begins where a heap ends. */
  lemma NoneAtEnd(st: Store, b: nat, m: map<nat, nat>, used: bool)
    requires OkElse(st, b) && b in st.heaps && Indexed(st.mem, st.heaps, m, used)
    ensures b + st.heaps[b].size !in m
  {
    hide OkElse, Indexed;
    forall x | x in m
      ensures x != b + st.heaps[b].size
    {
      NotAtEnd(st, b, m, used, x);
    }
  }

  /** What the index says of the place behind a chunk. */
  lemma BehindIndexed(st: Store, b: nat, pre: seq<Chunk>, u: Chunk, post: seq<Chunk>)
    requires OkElse(st, b) && b in st.heaps && st.heaps[b].cs == pre + [u] + post
    ensures var x := First(b) + Sum(pre) + u.size;
      && (x in st.free <==> post != [] && !post[0].used) && (x in st.free ==> st.free[x] == post[0].size)
  {
    hide Tiled, Sized, Sum, Blocks, OkElse, Indexed, RangeHolds;
    AfterOne(pre, u);
    OkIndexed(st, b);
    if post == [] {
      MidHolds(st, b, pre, [u], post);
      AfterOne([], u);
      EmptySum();
      assert [] + [u] == [u];
      NoneAtEnd(st, b, st.free, false);
    } else {
      assert pre + [u] + post == pre + [u] + [post[0]] + post[1..];
      MidHolds(st, b, pre + [u], [post[0]], post[1..]);
      OneSizedIs(post[0]);
      OneIndexed(st.free, First(b) + Sum(pre + [u]), post[0], false);
    }
  }

  lemma OneSizedIs(c: Chunk)
    requires Sized([c])
    ensures c.size >= MIN_SIZE
  {
    assert [c][0].size >= MIN_SIZE;
  }
}
