/** The arbitrary-precision naturals of stdio/bignum.c: limbs of 32 bits, the least significant first. */
module Bignum {
  const BITS: nat := 32
  const BASE: nat := 0x1_0000_0000

  type Limb = x: nat | x < BASE

  function Value(ds: seq<Limb>): nat {
    if ds == [] then 0 else ds[0] + BASE * Value(ds[1..])
  }

  function Pow2(n: nat): (p: nat)
    ensures p > 0
  {
    if n == 0 then 1 else 2 * Pow2(n - 1)
  }

  /** What a limb in place `n` counts. */
  function Weight(n: nat): (w: nat)
    ensures w > 0
  {
    if n == 0 then 1 else BASE * Weight(n - 1)
  }

  lemma {:induction false} Pow2Sum(m: nat, n: nat)
    ensures Pow2(m + n) == Pow2(m) * Pow2(n)
  {
    if m > 0 {
      Pow2Sum(m - 1, n);
      assert Pow2(m + n) == 2 * Pow2(m - 1 + n);
      Associate(2, Pow2(m - 1), Pow2(n));
    }
  }

  lemma Associate(x: int, y: int, z: int)
    ensures x * (y * z) == x * y * z
  {
  }

  lemma Pow2Limb()
    ensures Pow2(BITS) == BASE
  {
    assert Pow2(8) == 0x100;
    Pow2Sum(8, 8);
    Pow2Sum(16, 16);
  }

  lemma {:induction false} WeightIsPow2(n: nat)
    ensures Weight(n) == Pow2(BITS * n)
  {
    if n > 0 {
      WeightIsPow2(n - 1);
      Pow2Limb();
      Pow2Sum(BITS, BITS * (n - 1));
      assert BITS * n == BITS + BITS * (n - 1);
    }
  }

  lemma {:induction false} ValueAppend(x: seq<Limb>, y: seq<Limb>)
    ensures Value(x + y) == Value(x) + Weight(|x|) * Value(y)
  {
    if x == [] {
      assert x + y == y;
    } else {
      ValueAppend(x[1..], y);
      assert (x + y)[1..] == x[1..] + y;
      Associate(BASE, Weight(|x| - 1), Value(y));
    }
  }

  lemma ValueLast(x: seq<Limb>, d: Limb)
    ensures Value(x + [d]) == Value(x) + Weight(|x|) * d
  {
    var top := [d];
    ValueAppend(x, top);
    ValueOne(d);
  }

  lemma ValueOne(d: Limb)
    ensures Value([d]) == d
  {
    var top := [d];
    assert top[1..] == [];
  }

  lemma ValueUpTo(ds: seq<Limb>, i: nat)
    requires i < |ds|
    ensures Value(ds[..i + 1]) == Value(ds[..i]) + Weight(i) * ds[i]
  {
    assert ds[..i + 1] == ds[..i] + [ds[i]];
    ValueLast(ds[..i], ds[i]);
  }

  lemma ValueFrom(ds: seq<Limb>, i: nat, n: nat)
    requires i < n <= |ds|
    ensures Value(ds[i..n]) == ds[i] + BASE * Value(ds[i + 1..n])
  {
    assert ds[i..n][1..] == ds[i + 1..n];
  }

  lemma {:induction false} ValueBound(ds: seq<Limb>)
    ensures Value(ds) < Weight(|ds|)
  {
    if ds != [] {
      ValueBound(ds[1..]);
    }
  }

  lemma {:induction false} ValueZero(ds: seq<Limb>)
    ensures Value(ds) == 0 <==> forall i :: 0 <= i < |ds| ==> ds[i] == 0
  {
    if ds != [] {
      ValueZero(ds[1..]);
      assert forall i :: 0 <= i < |ds[1..]| ==> ds[1..][i] == ds[i + 1];
    }
  }

  /** One limb of a product, from the lowest: what is done and what is carried count as the product so far. */
  lemma ProductStep(v: nat, w: nat, carry: nat, v0: nat, k: nat, d: nat, lo: nat, hi: nat)
    requires v + w * carry == v0 * k && lo + BASE * hi == d * k + carry
    ensures v + w * lo + BASE * w * hi == (v0 + w * d) * k
  {
    calc {
      v + w * lo + BASE * w * hi;
      v + w * (lo + BASE * hi);
      v + w * (d * k + carry);
      v + w * carry + w * d * k;
      (v0 + w * d) * k;
    }
  }

  /** One limb of a quotient, from the highest. */
  lemma QuotientStep(rest: nat, q: nat, k: nat, r: nat, d: nat, q0: nat, r0: nat)
    requires rest == q * k + r && BASE * r + d == q0 * k + r0
    ensures d + BASE * rest == (q0 + BASE * q) * k + r0
  {
    calc {
      d + BASE * rest;
      d + BASE * r + BASE * (q * k);
      q0 * k + r0 + BASE * q * k;
      (q0 + BASE * q) * k + r0;
    }
  }

  lemma Division(x: nat, k: nat, q: nat, r: nat)
    requires x == q * k + r && r < k
    ensures q == x / k && r == x % k
  {
    var q', r' := x / k, x % k;
    assert (q - q') * k == r' - r;
    Product(q - q', k);
  }

  lemma Product(d: int, k: nat)
    ensures d >= 1 ==> d * k >= k
    ensures d <= -1 ==> d * k <= -(k as int)
  {
  }

  lemma Monotone(x: nat, y: nat, k: nat)
    requires x <= y
    ensures x * k <= y * k
  {
    assert (y - x) * k >= 0;
  }

  lemma Quotients(x: nat, k: nat)
    requires k > 0
    ensures 0 <= x / k && x == x / k * k + x % k
  {
    var q := x / k;
    Product(q, k);
  }

  lemma Bounded(x: nat, k: nat, n: nat)
    requires x < k * n && k > 0
    ensures x / k < n
  {
    var q := x / k;
    assert q * k <= x;
    if q >= n {
      Monotone(n, q, k);
    }
  }

  /** The two parts of a shifted limb: `k` shifted in, `m` shifted out, and `k * m` is a whole limb. */
  lemma ShiftParts(shift: nat)
    requires shift <= BITS
    ensures Pow2(shift) * Pow2(BITS - shift) == BASE && Pow2(shift) <= BASE
  {
    Pow2Sum(shift, BITS - shift);
    Pow2Limb();
    var k, m := Pow2(shift), Pow2(BITS - shift);
    Monotone(1, m, k);
  }

  /** A limb shifted right, with what is carried from above. */
  lemma RightLimb(d: nat, k: nat, m: nat, rem: nat)
    requires k * m == BASE && d < BASE && rem < k
    ensures 0 <= d / k && 0 <= rem * m && d / k + rem * m < BASE && BASE * rem + d == (d / k + rem * m) * k + d % k
  {
    Quotients(d, k);
    NotNegative(rem, m);
    Bounded(d, k, m);
    Monotone(rem, k - 1, m);
    assert (k - 1) * m == BASE - m;
    assert rem * m * k == rem * (k * m);
    assert (d / k + rem * m) * k == d / k * k + rem * m * k;
  }

  /** A limb shifted left, with what is carried from below. */
  lemma LeftLimb(d: nat, k: nat, m: nat, carry: nat)
    requires k * m == BASE && d < BASE && carry < k
    ensures 0 <= d / m < k && d * k % BASE + carry < BASE && d * k % BASE + carry + BASE * (d / m) == d * k + carry
  {
    var q, r := d / m, d % m;
    Quotients(d, m);
    Bounded(d, m, k);
    LeftParts(d, k, m, q, r);
    Division(d * k, BASE, q, r * k);
  }

  lemma LeftParts(d: nat, k: nat, m: nat, q: nat, r: nat)
    requires k * m == BASE && d == q * m + r && r < m
    ensures d * k == q * BASE + r * k && r * k + k <= BASE
  {
    calc {
      d * k;
      (q * m + r) * k;
      q * m * k + r * k;
      q * (k * m) + r * k;
    }
    Steps(k, r, m);
  }

  /** Weights compared, and a limb more at some place. */
  lemma {:induction false} WeightGrows(i: nat, j: nat)
    requires i <= j
    ensures Weight(i) <= Weight(j)
  {
    if i < j {
      WeightGrows(i, j - 1);
      Monotone(1, BASE, Weight(j - 1));
    }
  }

  lemma ValueAt(ds: seq<Limb>, i: nat)
    requires i < |ds|
    ensures Value(ds) == Value(ds[..i]) + Weight(i) * ds[i] + Weight(i + 1) * Value(ds[i + 1..])
  {
    ValueUpTo(ds, i);
    ValueAppend(ds[..i + 1], ds[i + 1..]);
    assert ds == ds[..i + 1] + ds[i + 1..];
  }

  /** The highest limb in which two numbers of equal length differ decides. */
  lemma LargerAt(x: seq<Limb>, y: seq<Limb>, i: nat)
    requires |x| == |y| && i < |x| && x[i] > y[i] && x[i + 1..] == y[i + 1..]
    ensures Value(x) > Value(y)
  {
    hide Value, Weight;
    ValueAt(x, i);
    ValueAt(y, i);
    ValueBound(y[..i]);
    Steps(Weight(i), y[i], x[i]);
  }

  lemma Steps(w: nat, y: nat, x: nat)
    requires y < x
    ensures w * x >= w * y + w
  {
    var d := x - y - 1;
    NotNegative(w, d);
    Shares(w, y + 1, d);
    Shares(w, y, 1);
  }

  lemma Shares(w: nat, x: nat, y: nat)
    ensures w * (x + y) == w * x + w * y
  {
  }

  /** A limb that is not zero makes a number as large as its place. */
  lemma LargeAt(x: seq<Limb>, i: nat)
    requires i < |x| && x[i] > 0
    ensures Value(x) >= Weight(i)
  {
    hide Value, Weight;
    ValueAt(x, i);
    Steps(Weight(i), 0, x[i]);
    NotNegative(Weight(i + 1), Value(x[i + 1..]));
  }

  lemma NotNegative(x: nat, y: nat)
    ensures x * y >= 0
  {
  }

  lemma ZerosOnTop(x: seq<Limb>, n: nat)
    requires n <= |x| && forall i :: n <= i < |x| ==> x[i] == 0
    ensures Value(x) == Value(x[..n])
  {
    ValueAppend(x[..n], x[n..]);
    assert x == x[..n] + x[n..];
    ValueZero(x[n..]);
  }

  function Order(x: nat, y: nat): int {
    if x > y then 1 else if x < y then -1 else 0
  }

  method CompareLimbs(first: seq<Limb>, second: seq<Limb>) returns (c: int)
    requires |first| >= 1 && |second| >= 1
    ensures c == Order(Value(first), Value(second))
    decreases if |first| < |second| then 1 else 0
  {
    if |first| < |second| {
      c := CompareLimbs(second, first);
      return -c;
    }
    var i := |first| - 1;
    while i >= |second|
      invariant |second| - 1 <= i < |first| && forall j :: i < j < |first| ==> first[j] == 0
    {
      if first[i] != 0 {
        LargeAt(first, i);
        ValueBound(second);
        WeightGrows(|second|, i);
        return 1;
      }
      i := i - 1;
    }
    ghost var low := first[..|second|];
    ZerosOnTop(first, |second|);
    i := |second|;
    while i > 0
      invariant 0 <= i <= |second| && low[i..] == second[i..]
    {
      i := i - 1;
      if first[i] > second[i] {
        LargerAt(low, second, i);
        return 1;
      } else if first[i] < second[i] {
        LargerAt(second, low, i);
        return -1;
      }
      assert low[i..] == [low[i]] + low[i + 1..] && second[i..] == [second[i]] + second[i + 1..];
    }
    assert low == low[0..] && second == second[0..];
    c := 0;
  }

  /** A number without its lowest `n` bits. */
  function Halved(x: nat, n: nat): nat {
    Quotients(x, Pow2(n));
    x / Pow2(n)
  }

  lemma Halves(x: nat, m: nat, n: nat)
    ensures Halved(Halved(x, m), n) == Halved(x, m + n)
  {
    Pow2Sum(m, n);
    Divided(x, Pow2(m), Pow2(n));
  }

  lemma Doubles(x: nat, m: nat, n: nat)
    ensures x * Pow2(m) * Pow2(n) == x * Pow2(m + n)
  {
    Pow2Sum(m, n);
    Associate(x, Pow2(m), Pow2(n));
  }

  lemma Divided(x: nat, j: nat, k: nat)
    requires j > 0 && k > 0
    ensures j * k > 0 && x / j / k == x / (j * k)
  {
    var q, r := x / j, x % j;
    Nested(x, j, k, q, r, q / k, q % k);
    Division(x, j * k, q / k, q % k * j + r);
  }

  lemma Nested(x: nat, j: nat, k: nat, q: nat, r: nat, q': nat, r': nat)
    requires x == q * j + r && r < j && q == q' * k + r' && r' < k
    ensures x == q' * (j * k) + (r' * j + r) && r' * j + r < j * k
  {
    assert q * j == q' * k * j + r' * j;
    assert q' * k * j == q' * (j * k);
    Steps(j, r', k);
  }

  /** A number may have zero limbs on top; the limbs from `len` on are spare room. */
  class Bignum {
    var data: seq<Limb>
    var len: nat

    ghost predicate Valid()
      reads this
    {
      1 <= len <= |data|
    }

    ghost function Val(): nat
      requires Valid()
      reads this
    {
      Value(data[..len])
    }

    constructor (size: nat, val: Limb)
      requires size >= 1
      ensures Valid() && Val() == val && len == 1 && |data| == size
    {
      data := [val] + seq(size - 1, _ => 0 as Limb);
      len := 1;
      new;
      assert data[..len] == [val];
      ValueOne(val);
    }

    method Zero()
      requires Valid()
      modifies this
      ensures Valid() && Val() == 0 && len == 1 && |data| == old(|data|) && forall i :: 0 <= i < |data| ==> data[i] == 0
    {
      var i := 0;
      while i < |data|
        invariant 0 <= i <= |data| && |data| == old(|data|) && Valid()
        invariant forall j :: 0 <= j < i ==> data[j] == 0
      {
        data := data[i := 0];
        i := i + 1;
      }
      len := 1;
      ValueZero(data[..len]);
    }

    /** One more limb on top; the room doubles when it is used up. */
    method Push(val: Limb)
      requires Valid()
      modifies this
      ensures Valid() && Val() == old(Val()) + Weight(old(len)) * val && len == old(len) + 1
      ensures data[..old(len)] == old(data[..len]) && data[old(len)] == val
    {
      ValueLast(data[..len], val);
      if len >= |data| {
        data := data + seq(|data|, _ => 0 as Limb);
      }
      data := data[len := val];
      len := len + 1;
      assert data[..old(len)] == old(data[..len]);
      assert data[..len] == data[..old(len)] + [val];
    }

    method Mul(val: Limb)
      requires Valid()
      modifies this
      ensures Valid() && Val() == old(Val()) * val
    {
      var carry := MulLimbs(val);
      if carry > 0 {
        Push(carry);
      }
    }

    /** The limbs of the product as far as there is room, and the carry that is left. */
    method MulLimbs(val: Limb) returns (carry: Limb)
      requires Valid()
      modifies `data
      ensures Valid() && Val() + Weight(len) * carry == old(Val()) * val
    {
      hide Value, Weight;
      var i := 0;
      carry := 0;
      NoLimbs();
      assert data[..0] == [] && old(data)[..0] == [];
      while i < len
        invariant 0 <= i <= len && |data| == old(|data|) && data[i..] == old(data)[i..]
        invariant Value(data[..i]) + Weight(i) * carry == Value(old(data)[..i]) * val
      {
        Fits(data[i], val, carry);
        var temp: nat := data[i] * val + carry;
        ProductLimb(old(data), data, i, val, carry, temp % BASE, temp / BASE);
        data := data[i := temp % BASE];
        carry := temp / BASE;
        i := i + 1;
      }
      assert data[..len] == data[..i] && old(data)[..len] == old(data)[..i];
    }

    /** A limb times a limb and a carry is no more than two limbs. */
    static lemma Fits(d: Limb, val: Limb, carry: Limb)
      ensures d * val + carry < BASE * BASE && (d * val + carry) / BASE < BASE
    {
      Monotone(d, BASE - 1, val);
      Monotone(val, BASE - 1, BASE - 1);
    }

    method Div(divisor: Limb) returns (remainder: Limb)
      requires Valid() && divisor > 0
      modifies this
      ensures Valid() && Val() == old(Val()) / divisor && remainder == old(Val()) % divisor
      ensures len == old(len) && |data| == old(|data|)
    {
      var i, temp: nat := len, 0;
      while i > 0
        invariant 0 <= i <= len == old(len) && |data| == old(|data|) && data[..i] == old(data)[..i] && temp < divisor
        invariant Value(old(data)[i..len]) == Value(data[i..len]) * divisor + temp
      {
        i := i - 1;
        Smaller(temp, divisor, data[i]);
        ghost var r, ds := temp, data;
        temp := BASE * temp + data[i];
        QuotientLimb(old(data), ds, i, len, divisor, r, temp / divisor, temp % divisor);
        data := data[i := temp / divisor];
        temp := temp % divisor;
      }
      assert data[0..len] == data[..len] && old(data)[0..len] == old(data)[..len];
      Division(old(Val()), divisor, Val(), temp);
      remainder := temp;
    }

    static lemma QuotientLimb(ds0: seq<Limb>, ds: seq<Limb>, i: nat, n: nat, k: nat, temp: nat, q: Limb, r: nat)
      requires i < n <= |ds| == |ds0| && BASE * temp + ds0[i] == q * k + r
      requires Value(ds0[i + 1..n]) == Value(ds[i + 1..n]) * k + temp
      ensures Value(ds0[i..n]) == Value(ds[i := q][i..n]) * k + r
    {
      ValueFrom(ds0, i, n);
      ValueFrom(ds[i := q], i, n);
      assert ds[i := q][i + 1..n] == ds[i + 1..n];
      QuotientStep(Value(ds0[i + 1..n]), Value(ds[i + 1..n]), k, temp, ds0[i], q, r);
    }

    /** A remainder with a limb behind it, divided, is a limb. */
    static lemma Smaller(temp: nat, divisor: nat, d: Limb)
      requires temp < divisor
      ensures 0 <= (BASE * temp + d) / divisor < BASE
    {
      var x := BASE * temp + d;
      Monotone(temp + 1, divisor, BASE);
      assert x < divisor * BASE;
      Bounded(x, divisor, BASE);
    }

    method ShiftRightInternal(shift: nat)
      requires Valid() && 1 <= shift <= BITS
      modifies this
      ensures Valid() && Val() == Halved(old(Val()), shift) && len == old(len) && |data| == old(|data|)
    {
      hide Value, Pow2;
      var i, carry := len, 0;
      ghost var k, m, rem := Pow2(shift), Pow2(BITS - shift), 0;
      ShiftParts(shift);
      NoLimbs();
      assert old(data)[i..len] == [] && data[i..len] == [];
      while i > 0
        invariant 0 <= i <= len == old(len) && |data| == old(|data|) && data[..i] == old(data)[..i]
        invariant 0 <= rem < k && carry == rem * m
        invariant Value(old(data)[i..len]) == Value(data[i..len]) * k + rem
      {
        i := i - 1;
        var temp: nat := data[i];
        RightLimb(temp, k, m, rem);
        var limb: Limb := (if shift == BITS then 0 else temp / Pow2(shift)) + carry;
        AllOut(shift, temp);
        QuotientLimb(old(data), data, i, len, k, rem, limb, temp % k);
        data := data[i := limb];
        carry := temp % Pow2(shift) * Pow2(BITS - shift);
        rem := temp % k;
      }
      assert data[0..len] == data[..len] && old(data)[0..len] == old(data)[..len];
      Division(old(Val()), k, Val(), rem);
    }

    static lemma NoLimbs()
      ensures Value([]) == 0
    {
    }

    /** A limb shifted by its width is gone. */
    static lemma AllOut(shift: nat, d: Limb)
      ensures shift == BITS ==> d / Pow2(shift) == 0
    {
      if shift == BITS {
        Pow2Limb();
      }
    }

    method ShiftRight(shift: nat)
      requires Valid()
      modifies this
      ensures Valid() && Val() == Halved(old(Val()), shift) && len == old(len)
    {
      var left := shift;
      hide Pow2, Value, Halved;
      ByOne(Val());
      while left > BITS
        invariant 0 <= left <= shift && Valid() && Val() == Halved(old(Val()), shift - left) && len == old(len)
      {
        Halves(old(Val()), shift - left, BITS);
        ShiftRightInternal(BITS);
        left := left - BITS;
      }
      if left != 0 {
        Halves(old(Val()), shift - left, left);
        ShiftRightInternal(left);
      }
    }

    static lemma ByOne(x: nat)
      ensures Halved(x, 0) == x && x * Pow2(0) == x
    {
    }

    method ShiftLeftInternal(shift: nat)
      requires Valid() && 1 <= shift <= BITS
      modifies this
      ensures Valid() && Val() == old(Val()) * Pow2(shift)
    {
      hide Value, Weight, Pow2;
      var i, carry := 0, 0;
      ghost var k, m := Pow2(shift), Pow2(BITS - shift);
      ShiftParts(shift);
      NoLimbs();
      assert data[..0] == [] && old(data)[..0] == [];
      while i < len
        invariant 0 <= i <= len && len == old(len) && |data| == old(|data|) && data[i..] == old(data)[i..]
        invariant 0 <= carry < k && Value(data[..i]) + Weight(i) * carry == Value(old(data)[..i]) * k
      {
        var temp: nat := data[i];
        LeftLimb(temp, k, m, carry);
        WholeLimb(shift, temp);
        var limb: Limb := (if shift == BITS then 0 else temp * Pow2(shift) % BASE) + carry;
        ProductLimb(old(data), data, i, k, carry, limb, temp / m);
        data := data[i := limb];
        carry := temp / Pow2(BITS - shift);
        i := i + 1;
      }
      assert data[..len] == data[..i] && old(data)[..len] == old(data)[..i];
      if carry != 0 {
        Push(carry);
      }
    }

    static lemma ProductLimb(ds0: seq<Limb>, ds: seq<Limb>, i: nat, k: nat, carry: nat, lo: Limb, hi: nat)
      requires i < |ds| == |ds0| && lo + BASE * hi == ds0[i] * k + carry
      requires Value(ds[..i]) + Weight(i) * carry == Value(ds0[..i]) * k
      ensures Value(ds[i := lo][..i + 1]) + Weight(i + 1) * hi == Value(ds0[..i + 1]) * k
    {
      ProductStep(Value(ds[..i]), Weight(i), carry, Value(ds0[..i]), k, ds0[i], lo, hi);
      ValueUpTo(ds0, i);
      ValueUpTo(ds[i := lo], i);
      assert ds[i := lo][..i] == ds[..i];
    }

    static lemma WholeLimb(shift: nat, d: nat)
      ensures shift == BITS ==> d * Pow2(shift) % BASE == 0
    {
      if shift == BITS {
        Pow2Limb();
        Division(d * BASE, BASE, d, 0);
      }
    }

    method ShiftLeft(shift: nat)
      requires Valid() && shift >= 1
      modifies this
      ensures Valid() && Val() == old(Val()) * Pow2(shift)
    {
      var left := shift;
      while left > BITS
        invariant 1 <= left <= shift && Valid() && Val() == old(Val()) * Pow2(shift - left)
      {
        Doubles(old(Val()), shift - left, BITS);
        ShiftLeftInternal(BITS);
        left := left - BITS;
      }
      Doubles(old(Val()), shift - left, left);
      ShiftLeftInternal(left);
    }

    method Cmp(val: Limb) returns (c: int)
      requires Valid()
      ensures c == Order(Val(), val)
    {
      ValueOne(val);
      c := CompareLimbs(data[..len], [val]);
    }

    method Copy(source: Bignum)
      requires Valid() && source.Valid()
      modifies this
      ensures Valid() && Val() == old(source.Val()) && len == old(source.len)
    {
      if |data| < |source.data| {
        data := data + seq(|source.data| - |data|, _ => 0 as Limb);
      }
      var i := 0;
      while i < |source.data|
        invariant 0 <= i <= |source.data| <= |data| && source.data == old(source.data) && source.len == old(source.len)
        invariant data[..i] == source.data[..i]
      {
        data := data[i := source.data[i]];
        i := i + 1;
      }
      len := source.len;
      assert data[..len] == old(source.data)[..len];
    }
  }
}
