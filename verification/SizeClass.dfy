/** Which bin of large chunks a size belongs to. Sizes here are in bytes. */
module SizeClass {
  function Log2(x: nat): nat {
    if x < 2 then 0 else 1 + Log2(x / 2)
  }

  function Pow2(n: nat): (r: nat)
    ensures r >= 1
  {
    if n == 0 then 1 else 2 * Pow2(n - 1)
  }

  function LargeIndex(size: nat): nat {
    var x := size / 256;
    if x == 0 then 0
    else if x > 0xFFFF then 31
    else var k := Log2(x); 2 * k + size / Pow2(k + 7) % 2
  }

  lemma {:induction false} LogBounds(x: nat)
    requires x > 0
    ensures Pow2(Log2(x)) <= x < 2 * Pow2(Log2(x))
  {
    if x >= 2 {
      LogBounds(x / 2);
    }
  }

  lemma {:induction false} PowMono(m: nat, n: nat)
    requires m < n
    ensures 2 * Pow2(m) <= Pow2(n)
    decreases n
  {
    if m < n - 1 {
      PowMono(m, n - 1);
    }
  }

  lemma {:induction false} PowShift(k: nat)
    ensures Pow2(k + 7) == 128 * Pow2(k) && Pow2(k + 8) == 256 * Pow2(k)
  {
    if k > 0 {
      PowShift(k - 1);
    } else {
      PowValues();
    }
  }

  /** In its power of two a size falls into the lower or the upper half. */
  lemma HalfOf(size: nat)
    requires size >= 256
    ensures var k := Log2(size / 256); var h := Pow2(k + 7);
      && h > 0 && 2 * h <= size < 4 * h && size / h % 2 == (if size < 3 * h then 0 else 1)
  {
    hide Log2, Pow2;
    var x := size / 256;
    var k := Log2(x);
    LogBounds(x);
    PowShift(k);
    var h := Pow2(k + 7);
    assert h == 128 * Pow2(k);
    assert 256 * x <= size < 256 * (x + 1);
    assert x + 1 <= 2 * Pow2(k);
    assert h > 0 && 2 * h <= size < 4 * h;
    if size < 3 * h {
      DivIs(size, h, 2);
      assert size / h == 2;
    } else {
      DivIs(size, h, 3);
      assert size / h == 3;
    }
  }

  /** The bin of a size that is neither too small nor too large for the computation. */
  lemma IndexIs(size: nat)
    requires 256 <= size < 0x1000000
    ensures var k := Log2(size / 256); var h := Pow2(k + 7);
      k <= 15 && 2 * h <= size < 4 * h && LargeIndex(size) == 2 * k + (if size < 3 * h then 0 else 1)
  {
    hide Pow2, Log2;
    HalfOf(size);
    LogSmall(size / 256);
  }

  lemma IndexAtEnds(size: nat)
    ensures size < 256 ==> LargeIndex(size) == 0
    ensures size >= 0x1000000 ==> LargeIndex(size) == 31
    ensures LargeIndex(size) < 32
  {
    hide Pow2, Log2;
    if 256 <= size < 0x1000000 {
      IndexIs(size);
    }
  }

  lemma MulLess(x: nat, y: nat, h: nat)
    requires x * h < y * h
    ensures x < y
  {
    assert x >= y ==> (x - y) * h >= 0;
  }

  lemma DivIs(a: nat, h: nat, q: nat)
    requires h > 0 && q * h <= a < (q + 1) * h
    ensures a / h == q
  {
    var d := a / h;
    assert d * h <= a < (d + 1) * h;
    MulLess(d, q + 1, h);
    MulLess(q, d + 1, h);
  }

  lemma LogSmall(x: nat)
    requires 0 < x <= 0xFFFF
    ensures Log2(x) <= 15
  {
    LogBounds(x);
    PowValues();
    if Log2(x) > 15 {
      PowMono(15, Log2(x));
    }
  }

  /** The index as the code computes it, with 32 bits of the shifted size. */
  function TruncatedIndex(size: nat): nat {
    var x := size / 256 % 0x1_0000_0000;
    if x == 0 then 0
    else if x > 0xFFFF then 31
    else var k := Log2(x); 2 * k + size / Pow2(k + 7) % 2
  }

  lemma PowersUpTo22()
    ensures Pow2(14) == 0x4000 && Pow2(15) == 0x8000 && Pow2(22) == 0x40_0000
  {
    PowValues();
    PowShift(7);
    PowShift(14);
    PowShift(15);
  }

  /** A number with 16 bits, of which the first is set, has the logarithm 15, and only such a one. */
  lemma LogTop(x: nat)
    requires 0 < x <= 0xFFFF
    ensures x >= 0x8000 <==> Log2(x) == 15
  {
    hide Log2, Pow2;
    PowersUpTo22();
    LogSmall(x);
    LogBounds(x);
    if Log2(x) < 15 {
      PowMono(Log2(x), 15);
    }
  }

  /** The second of the 16 bits decides the lower bit of the index. */
  lemma SecondBit(size: nat)
    requires 0x8000 <= size / 256 % 0x1_0000_0000 <= 0xFFFF
    ensures size / 0x40_0000 % 2 == if size / 256 % 0x1_0000_0000 >= 0xC000 then 1 else 0
  {
    var q, x, low := size / 256 / 0x1_0000_0000, size / 256 % 0x1_0000_0000, size % 256;
    var e := if x >= 0xC000 then 1 else 0;
    BitOf(size, q, x, low, e);
  }

  lemma BitOf(size: nat, q: nat, x: nat, low: nat, e: nat)
    requires size == 256 * (0x1_0000_0000 * q + x) + low && low < 256 && e < 2
    requires 0x8000 + 0x4000 * e <= x < 0x8000 + 0x4000 * (e + 1)
    ensures size / 0x40_0000 % 2 == e
  {
    var m, r := 0x2_0000 * q + 1, 256 * (x - 0x8000 - 0x4000 * e) + low;
    Quotient(size, 2 * m + e, r);
    Parity(m, e);
  }

  lemma Parity(m: nat, e: nat)
    requires e < 2
    ensures (2 * m + e) % 2 == e
  {
  }

  lemma Quotient(a: nat, n: nat, r: nat)
    requires a == 0x40_0000 * n + r && r < 0x40_0000
    ensures a / 0x40_0000 == n
  {
  }

  /** The code's index is that of the table exactly for sizes below 2^40 and those that are large in their low bits too. */
  lemma TruncatedAgrees(size: nat)
    ensures TruncatedIndex(size) == LargeIndex(size) <==> size < 0x100_0000_0000 || size / 256 % 0x1_0000_0000 >= 0xC000
  {
    hide Log2, Pow2;
    var x := size / 256 % 0x1_0000_0000;
    if size < 0x100_0000_0000 {
      assert x == size / 256;
    } else {
      IndexAtEnds(size);
      if 0 < x <= 0xFFFF {
        LogSmall(x);
        LogTop(x);
        PowersUpTo22();
        if x >= 0x8000 {
          SecondBit(size);
        }
      }
    }
  }

  /** Larger sizes are in later bins. */
  lemma IndexMono(small: nat, large: nat)
    requires small <= large
    ensures LargeIndex(small) <= LargeIndex(large)
  {
    hide LargeIndex, Pow2, Log2;
    IndexAtEnds(small);
    IndexAtEnds(large);
    if 256 <= small && large < 0x1000000 {
      var k, l := Log2(small / 256), Log2(large / 256);
      IndexIs(small);
      IndexIs(large);
      if k > l {
        PowMono(l + 7, k + 7);
      }
    }
  }

  /** The last size of each bin but the last. */
  function Lookup(): (t: seq<nat>)
    ensures |t| == 32
  {
    [
      0x17f, 0x1ff, 0x2ff, 0x3ff, 0x5ff, 0x7ff, 0xbff, 0xfff,
      0x17ff, 0x1fff, 0x2fff, 0x3fff, 0x5fff, 0x7fff, 0xbfff, 0xffff,
      0x17fff, 0x1ffff, 0x2ffff, 0x3ffff, 0x5ffff, 0x7ffff, 0xbffff, 0xfffff,
      0x17ffff, 0x1fffff, 0x2fffff, 0x3fffff, 0x5fffff, 0x7fffff, 0xbfffff, 0x0]
  }

  lemma PowValues()
    ensures Pow2(7) == 0x80 && Pow2(8) == 0x100 && Pow2(9) == 0x200 && Pow2(10) == 0x400
    ensures Pow2(11) == 0x800 && Pow2(12) == 0x1000 && Pow2(13) == 0x2000 && Pow2(14) == 0x4000
    ensures Pow2(15) == 0x8000 && Pow2(16) == 0x10000 && Pow2(17) == 0x20000 && Pow2(18) == 0x40000
    ensures Pow2(19) == 0x80000 && Pow2(20) == 0x100000 && Pow2(21) == 0x200000 && Pow2(22) == 0x400000
  {
    assert Pow2(4) == 16 && Pow2(7) == 128 && Pow2(10) == 1024 && Pow2(13) == 0x2000;
    assert Pow2(16) == 0x10000 && Pow2(19) == 0x80000;
  }

  lemma LookupIs(k: nat)
    requires k < 16
    ensures Lookup()[2 * k] == 3 * Pow2(k + 7) - 1
    ensures k < 15 ==> Lookup()[2 * k + 1] == 4 * Pow2(k + 7) - 1
  {
    PowValues();
    hide Pow2;
    if k < 8 {
      if k < 4 {
        assert k == 0 || k == 1 || k == 2 || k == 3;
      } else {
        assert k == 4 || k == 5 || k == 6 || k == 7;
      }
    } else {
      if k < 12 {
        assert k == 8 || k == 9 || k == 10 || k == 11;
      } else {
        assert k == 12 || k == 13 || k == 14 || k == 15;
      }
    }
  }

  /** The table gives the last size of a bin: a size is in a bin up to `i` exactly if it is not larger than entry `i`. */
  lemma LookupExact(size: nat, i: nat)
    requires i < 31 && size < 0x1000000
    ensures LargeIndex(size) <= i <==> size <= Lookup()[i]
  {
    hide Pow2, Log2, Lookup, LargeIndex;
    var j := i / 2;
    IndexAtEnds(size);
    LookupIs(j);
    PowShift(j);
    assert Lookup()[i] == (if i % 2 == 0 then 3 * Pow2(j + 7) else 4 * Pow2(j + 7)) - 1;
    if size >= 256 {
      var k := Log2(size / 256);
      IndexIs(size);
      if k < j {
        PowMono(k + 7, j + 7);
      } else if k > j {
        PowMono(j + 7, k + 7);
      }
      CompareIndex(size, Pow2(k + 7), k, i, Pow2(j + 7));
    }
  }

  /** Comparing bins is comparing halves of powers of two. */
  lemma CompareIndex(size: nat, h: nat, k: nat, i: nat, g: nat)
    requires 2 * h <= size < 4 * h
    requires (k < i / 2 ==> 2 * h <= g) && (k > i / 2 ==> 2 * g <= h) && (k == i / 2 ==> h == g)
    ensures 2 * k + (if size < 3 * h then 0 else 1) <= i <==> size <= (if i % 2 == 0 then 3 * g else 4 * g) - 1
  {
  }
}
