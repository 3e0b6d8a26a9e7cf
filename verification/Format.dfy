/** The exact conversion of doubles to decimal text, of stdio/format.c. */
module Format {
  import B = Bignum
  import opened Decimal

  function Reversed(s: string): (t: string)
    ensures |t| == |s| && forall i :: 0 <= i < |s| ==> t[i] == s[|s| - 1 - i]
  {
    if s == [] then [] else [s[|s| - 1]] + Reversed(s[..|s| - 1])
  }

  /** Room for characters, of which the first `len` are in use. */
  class Buffer {
    var data: string
    var len: nat

    ghost predicate Valid()
      reads this
    {
      len <= |data| && |data| > 0
    }

    ghost function Text(): string
      requires Valid()
      reads this
    {
      data[..len]
    }

    constructor (size: nat)
      requires size > 0
      ensures Valid() && Text() == []
    {
      data := seq(size, _ => '\0');
      len := 0;
    }

    method AddChar(c: char)
      requires Valid()
      modifies this
      ensures Valid() && Text() == old(Text()) + [c] && len == old(len) + 1
    {
      ghost var text := Text();
      if len >= |data| {
        data := data + seq(|data|, _ => '\0');
      }
      assert data[..len] == text;
      data := data[len := c];
      len := len + 1;
      assert data[..len] == data[..len - 1] + [c];
    }

    method Reverse(start: nat, end: nat)
      requires Valid() && start < end <= len
      modifies `data
      ensures Valid() && Text() == old(Text())[..start] + Reversed(old(Text())[start..end]) + old(Text())[end..]
    {
      hide Reversed;
      ghost var text := Text();
      var i, j := start, end - 1;
      while i < j
        invariant start <= i <= end && start - 1 <= j < end && i + j == start + end - 1 && |data| == old(|data|)
        invariant forall k :: 0 <= k < len ==>
          data[k] == text[if start <= k < i || j < k < end then start + end - 1 - k else k]
      {
        var tmp := data[i];
        data := data[i := data[j]];
        data := data[j := tmp];
        i, j := i + 1, j - 1;
      }
      InPlace(text, Text(), start, end, i, j);
    }

    static lemma InPlace(text: string, text': string, start: nat, end: nat, i: nat, j: int)
      requires start < end <= |text| == |text'| && start <= i <= end && start - 1 <= j < end && i >= j && i + j == start + end - 1
      requires forall k :: 0 <= k < |text| ==>
        text'[k] == text[if start <= k < i || j < k < end then start + end - 1 - k else k]
      ensures text' == text[..start] + Reversed(text[start..end]) + text[end..]
    {
      var part := text[start..end];
      var whole := text[..start] + Reversed(part) + text[end..];
      forall k | 0 <= k < |text|
        ensures text'[k] == whole[k]
      {
        if start <= k < end {
          assert whole[k] == Reversed(part)[k - start] == part[end - 1 - k];
        }
      }
    }

    /** Adds one to the last digit, with its carries; tells whether a null has become a digit. */
    method Carry() returns (grown: bool)
      requires Valid() && len > 0 && Text()[0] == '\0'
      modifies `data
      ensures Valid() && Text() == Bumped(old(Text())) && (grown <==> Grows(old(Text())))
    {
      hide Bumped, Grows;
      ghost var text := Text();
      var carrier, carry := len - 1, true;
      grown := false;
      assert text[..len] == text && data[len..len] == [] && Bumped(text) + [] == Bumped(text);
      while carry
        invariant |data| == old(|data|) && (carry ==> 0 <= carrier < len && Carrying(text, data, len, carrier) && !grown)
        invariant carry ==> (Grows(text) <==> Grows(text[..carrier + 1]))
        invariant !carry ==> Text() == Bumped(text) && (grown <==> Grows(text))
        decreases carry, carrier
      {
        CarryStep(text, data, len, carrier);
        if data[carrier] == '\0' {
          data := data[carrier := '1'];
          grown := true;
          carry := false;
        } else if data[carrier] == '9' {
          data := data[carrier := '0'];
          carrier := carrier - 1;
        } else if '0' <= data[carrier] <= '8' {
          data := data[carrier := (data[carrier] as int + 1) as char];
          carry := false;
        } else {
          carrier := carrier - 1;
        }
      }
    }

    /** One is still to be carried into the characters up to `carrier`. */
    static ghost predicate Carrying(text: string, data: string, len: nat, carrier: int) {
      && -1 <= carrier < len == |text| && len <= |data| && data[..carrier + 1] == text[..carrier + 1]
      && Bumped(text) == Bumped(text[..carrier + 1]) + data[carrier + 1..len]
    }

    static lemma CarryStep(text: string, data: string, len: nat, carrier: nat)
      requires Carrying(text, data, len, carrier) && carrier >= 0 && text[0] == '\0'
      ensures var c := text[carrier];
        && data[carrier] == c && (carrier == 0 ==> c == '\0')
        && (c == '\0' ==> data[carrier := '1'][..len] == Bumped(text) && Grows(text[..carrier + 1]))
        && (c == '9' ==> Carrying(text, data[carrier := '0'], len, carrier - 1))
        && ('0' <= c <= '8' ==> data[carrier := (c as int + 1) as char][..len] == Bumped(text) && !Grows(text[..carrier + 1]))
        && (c != '\0' && !IsDigit(c) ==> Carrying(text, data, len, carrier - 1))
        && (c == '9' || (c != '\0' && !IsDigit(c)) ==> (Grows(text[..carrier + 1]) <==> Grows(text[..carrier])))
    {
      hide Bumped, Grows;
      var c := text[carrier];
      assert data[..carrier + 1][carrier] == c;
      assert text[..carrier + 1] == text[..carrier] + [c];
      BumpedLast(text[..carrier], c);
      GrowsLast(text[..carrier], c);
      assert data[carrier..len] == [c] + data[carrier + 1..len];
      var front, back := text[..carrier], data[carrier + 1..len];
      assert data[..carrier] == front;
      Written(data, carrier, len, '1');
      Written(data, carrier, len, '0');
      if '0' <= c <= '8' {
        Written(data, carrier, len, (c as int + 1) as char);
      }
      assert Bumped(front) + ['0'] + back == Bumped(front) + (['0'] + back);
      assert Bumped(front) + [c] + back == Bumped(front) + ([c] + back);
    }

    static lemma Written(before: string, k: nat, len: nat, c: char)
      requires k < len <= |before|
      ensures before[k := c][..len] == before[..k] + [c] + before[k + 1..len]
      ensures before[k := c][k..len] == [c] + before[k + 1..len] && before[k := c][..k] == before[..k]
    {
    }

    /** Whether the last digit is odd, past what is no digit. */
    method LastOdd() returns (odd: bool)
      requires Valid()
      ensures odd <==> Number(Text()) % 2 == 1
    {
      hide Number;
      var k := len;
      odd := false;
      NoNumber();
      assert data[..len][..len] == data[..len];
      while k > 0
        invariant 0 <= k <= len && !odd && Number(data[..k]) == Number(Text())
      {
        var last := data[k - 1];
        assert data[..k] == data[..k - 1] + [last];
        LastParity(data[..k - 1], last);
        if '0' <= last <= '9' {
          if (last as int - '0' as int) % 2 != 0 {
            odd := true;
          }
          return;
        }
        k := k - 1;
      }
    }

    /** Drops the zeros at the end, and the point if nothing is left behind it. */
    method TrimZeros()
      requires Valid() && '.' in Text()
      modifies `len
      ensures Valid() && Text() == Trimmed(old(Text()))
    {
      hide Trimmed;
      ghost var text := Text();
      assert text[..len] == text;
      var last := len - 1;
      ghost var dot :| 0 <= dot < |text| && text[dot] == '.';
      while data[last] == '0'
        invariant dot <= last < |text| && WithoutZeros(text) == WithoutZeros(text[..last + 1])
        decreases last
      {
        assert text[..last + 1][..last] == text[..last];
        last := last - 1;
      }
      TrimmedAt(text, last);
      if data[last] == '.' {
        last := last - 1;
      }
      len := last + 1;
    }

    static lemma TrimmedAt(text: string, last: nat)
      requires last < |text| && text[last] != '0' && WithoutZeros(text) == WithoutZeros(text[..last + 1])
      ensures Trimmed(text) == if text[last] == '.' then text[..last] else text[..last + 1]
    {
      assert text[..last + 1][..last] == text[..last];
    }
  }

  // ----- Doubles as large numbers -----

  const MANTISSA_BITS: nat := 52

  /** A double's bits: the sign, the exponent of 11 bits, and the mantissa. */
  function ExponentField(bits: nat): (e: nat)
    ensures e < 2048
  {
    bits / 0x10_0000_0000_0000 % 2048
  }

  function MantissaField(bits: nat): (m: nat)
    ensures m < 0x10_0000_0000_0000
  {
    bits % 0x10_0000_0000_0000
  }

  /** The absolute value of a finite double is `Significand` times two to the power of `Binary` - 52. */
  function Significand(bits: nat): nat {
    MantissaField(bits) + if ExponentField(bits) == 0 then 0 else 0x10_0000_0000_0000
  }

  function Binary(bits: nat): int {
    if ExponentField(bits) == 0 then -1022 else ExponentField(bits) - 1023
  }

  /** The same value as a fraction. */
  function Numerator(bits: nat): nat {
    Significand(bits) * B.Pow2(if Binary(bits) > MANTISSA_BITS then Binary(bits) - MANTISSA_BITS else 0)
  }

  function Denominator(bits: nat): (d: nat)
    ensures d > 0
  {
    B.Pow2(if Binary(bits) > MANTISSA_BITS then 0 else MANTISSA_BITS - Binary(bits))
  }

  /** The number `num` with `firstIntegerBit` bits behind the binary point. */
  class BigDouble {
    const num: B.Bignum
    const helper1: B.Bignum
    var firstIntegerBit: nat

    ghost predicate Valid()
      reads this, num, helper1
    {
      num != helper1 && num.Valid() && helper1.Valid()
    }

    ghost function Unit(): (d: nat)
      reads `firstIntegerBit
      ensures d > 0
    {
      B.Pow2(firstIntegerBit)
    }

    /** The exact absolute value of a finite double. */
    constructor Load(bits: nat)
      ensures Valid() && fresh(num) && fresh(helper1)
      ensures num.Val() == Numerator(bits) && (Significand(bits) != 0 ==> Unit() == Denominator(bits))
    {
      num := new B.Bignum(4, 0);
      helper1 := new B.Bignum(4, 0);
      firstIntegerBit := 0;
      new;
      var exp := ExponentField(bits) - 1023;
      var isSubnormalOrZero := exp == -1023;
      var mantissa := MantissaField(bits);
      num.Zero();
      if isSubnormalOrZero && mantissa == 0 {
        return;
      }
      if !isSubnormalOrZero {
        mantissa := mantissa + 0x10_0000_0000_0000;
      }
      LoadMantissa(mantissa);
      if isSubnormalOrZero {
        exp := -1022;
      }
      ByOne(mantissa);
      if MANTISSA_BITS < exp {
        firstIntegerBit := 0;
        num.ShiftLeft(exp - MANTISSA_BITS);
      } else {
        firstIntegerBit := MANTISSA_BITS - exp;
      }
    }

    constructor Copy(source: BigDouble)
      requires source.Valid()
      ensures Valid() && fresh(num) && fresh(helper1) && num.Val() == source.num.Val() && Unit() == source.Unit()
    {
      num := new B.Bignum(4, 0);
      helper1 := new B.Bignum(4, 0);
      firstIntegerBit := source.firstIntegerBit;
      new;
      num.Copy(source.num);
    }

    /** A number of two limbs. */
    method LoadMantissa(mantissa: nat)
      requires Valid() && num.len == 1 && mantissa / B.BASE < B.BASE
      modifies num
      ensures Valid() && num.Val() == mantissa
    {
      hide B.Value, B.Weight;
      num.data := num.data[0 := mantissa % B.BASE];
      assert num.data[..num.len] == [mantissa % B.BASE];
      TwoLimbs(mantissa, num.data[..num.len]);
      num.Push(mantissa / B.BASE);
    }

    method IntegerPart()
      requires Valid()
      modifies helper1
      ensures Valid() && helper1.Val() == B.Halved(num.Val(), firstIntegerBit)
    {
      helper1.Copy(num);
      helper1.ShiftRight(firstIntegerBit);
    }

    method CutIntegerPart()
      requires Valid()
      modifies num
      ensures Valid() && num.Val() == old(num.Val()) % Unit()
    {
      var firstIntegerIndex, left := firstIntegerBit / B.BITS, firstIntegerBit % B.BITS;
      hide B.Pow2, B.Value;
      if firstIntegerIndex >= num.len {
        CutSmall(firstIntegerBit, num.data[..num.len]);
      }
      if firstIntegerIndex < num.len {
        CutLimb(num.data[..num.len], firstIntegerIndex, left, firstIntegerBit);
        num.data := num.data[firstIntegerIndex := num.data[firstIntegerIndex] % B.Pow2(left)];
        num.len := firstIntegerIndex + 1;
        assert num.data[..num.len] == old(num.data[..num.len])[..firstIntegerIndex] + [num.data[firstIntegerIndex]];
      }
    }

    /** The next decimal digit of a fraction, and what is left of that. */
    method NextDigit() returns (d: nat)
      requires Valid() && num.Val() < Unit()
      modifies num, helper1
      ensures Valid() && d < 10 && num.Val() < Unit() && 10 * old(num.Val()) == d * Unit() + num.Val()
    {
      hide B.Pow2, B.Value, B.Halved;
      num.Mul(10);
      d := TakeDigit();
    }

    /** The part in front of the binary point is one digit; it goes out. */
    method TakeDigit() returns (d: nat)
      requires Valid() && num.Val() < 10 * Unit()
      modifies num, helper1
      ensures Valid() && d < 10 && num.Val() < Unit() && old(num.Val()) == d * Unit() + num.Val()
    {
      hide B.Pow2, B.Value, B.Halved;
      DigitOut(num.Val(), firstIntegerBit);
      IntegerPart();
      LowLimb(helper1.data[..helper1.len]);
      d := helper1.data[0] % 10;
      CutIntegerPart();
    }
  }

  lemma DigitOut(v: nat, bit: nat)
    requires v < 10 * B.Pow2(bit)
    ensures B.Halved(v, bit) < 10 && v == B.Halved(v, bit) * B.Pow2(bit) + v % B.Pow2(bit) && v % B.Pow2(bit) < B.Pow2(bit)
  {
    var u := B.Pow2(bit);
    B.Quotients(v, u);
    B.Bounded(v, u, 10);
  }

  lemma ByOne(x: nat)
    ensures x * B.Pow2(0) == x
  {
  }

  lemma LowLimb(ds: seq<B.Limb>)
    requires |ds| > 0 && B.Value(ds) < B.BASE
    ensures ds[0] == B.Value(ds)
  {
  }

  lemma TwoLimbs(m: nat, ds: seq<B.Limb>)
    requires m / B.BASE < B.BASE && ds == [m % B.BASE]
    ensures B.Value(ds) + B.Weight(1) * (m / B.BASE) == m
  {
    B.ValueOne(m % B.BASE);
    assert B.Weight(1) == B.BASE * B.Weight(0) == B.BASE;
  }

  /** A number without limbs from the binary point up is a fraction. */
  lemma CutSmall(bit: nat, ds: seq<B.Limb>)
    requires bit / B.BITS >= |ds|
    ensures B.Value(ds) < B.Pow2(bit) && B.Value(ds) % B.Pow2(bit) == B.Value(ds)
  {
    hide B.Pow2, B.Value;
    B.ValueBound(ds);
    B.WeightIsPow2(|ds|);
    var more := bit - B.BITS * |ds|;
    B.Pow2Sum(B.BITS * |ds|, more);
    B.Monotone(1, B.Pow2(more), B.Weight(|ds|));
    Division(B.Value(ds), B.Pow2(bit), 0, B.Value(ds));
  }

  lemma CutLimb(ds: seq<B.Limb>, i: nat, left: nat, bit: nat)
    requires i < |ds| && left < B.BITS && bit == B.BITS * i + left
    ensures ds[i] % B.Pow2(left) < B.BASE
    ensures B.Value(ds[..i] + [ds[i] % B.Pow2(left)]) == B.Value(ds) % B.Pow2(bit)
  {
    hide B.Pow2, B.Value;
    var w, u, m, lo, d, hi := B.Weight(i), B.Pow2(left), B.Pow2(B.BITS - left), B.Value(ds[..i]), ds[i], B.Value(ds[i + 1..]);
    B.WeightIsPow2(i);
    B.Pow2Sum(B.BITS * i, left);
    B.ShiftParts(left);
    B.ValueAt(ds, i);
    B.ValueBound(ds[..i]);
    B.Quotients(d, u);
    var r: B.Limb := d % u;
    B.ValueLast(ds[..i], r);
    CutParts(w, u, m, lo, d, hi);
    B.NotNegative(m, hi);
    Division(B.Value(ds), w * u, d / u + m * hi, lo + w * r);
  }

  lemma CutParts(w: nat, u: nat, m: nat, lo: nat, d: nat, hi: nat)
    requires w > 0 && u > 0 && u * m == B.BASE && lo < w
    ensures lo + w * d + B.BASE * w * hi == (d / u + m * hi) * (w * u) + (lo + w * (d % u))
    ensures lo + w * (d % u) < w * u
  {
    var q, r := d / u, d % u;
    B.Quotients(d, u);
    calc {
      w * d + B.BASE * w * hi;
      w * (q * u + r) + u * m * w * hi;
      w * q * u + w * r + u * m * w * hi;
      q * (w * u) + w * r + (m * hi) * (w * u);
      (q + m * hi) * (w * u) + w * r;
    }
    B.Steps(w, r, u);
  }

  // ----- Digits into the buffer -----

  /** The digits of a whole number, found from the last to the first and then turned round. */
  method IntegerDigits(buff: Buffer, n: B.Bignum) returns (length: nat)
    requires buff.Valid() && n.Valid()
    modifies buff, n
    ensures buff.Valid() && n.Valid()
    ensures buff.Text() == old(buff.Text()) + Numeral(old(n.Val())) && length == |Numeral(old(n.Val()))|
  {
    hide B.Value, Numeral, Reversed;
    var start, more := buff.len, true;
    length := 0;
    ghost var text, whole := buff.Text(), n.Val();
    assert buff.Text() == text + [];
    NothingReversed(Numeral(whole));
    ghost var digits: string := [];
    while more
      invariant buff.Valid() && n.Valid() && buff.Text() == text + digits && |digits| == length && |text| == start
      invariant more ==> Numeral(whole) == Numeral(n.Val()) + Reversed(digits)
      invariant !more ==> Numeral(whole) == Reversed(digits) && length > 0
      decreases more, n.Val()
    {
      ghost var left, front := n.Val(), digits;
      var remainder := n.Div(10);
      buff.AddChar(Digit(remainder));
      length := length + 1;
      digits := digits + [Digit(remainder)];
      ReversedLast(front, Digit(remainder));
      OneDigit(left, Reversed(front));
      assert text + front + [Digit(remainder)] == text + digits;
      var c := n.Cmp(0);
      more := c != 0;
    }
    buff.Reverse(start, start + length);
    assert (text + digits)[..start] == text && (text + digits)[start..start + length] == digits;
    assert text + Reversed(digits) + [] == text + Reversed(digits);
  }

  lemma NothingReversed(s: string)
    ensures Reversed([]) == [] && s + Reversed([]) == s
  {
  }

  lemma ReversedLast(s: string, c: char)
    ensures Reversed(s + [c]) == [c] + Reversed(s)
  {
    assert (s + [c])[..|s|] == s;
  }

  lemma OneDigit(n: nat, s: string)
    ensures n >= 10 ==> Numeral(n) + s == Numeral(n / 10) + ([Digit(n % 10)] + s)
    ensures n < 10 ==> Numeral(n) + s == [Digit(n % 10)] + s && n / 10 == 0
  {
  }

  /** So many digits of a fraction. */
  method FractionDigits(buff: Buffer, bd: BigDouble, count: nat) returns (ghost f: nat)
    requires buff.Valid() && bd.Valid() && bd.num.Val() < bd.Unit()
    modifies buff, bd.num, bd.helper1
    ensures buff.Valid() && bd.Valid() && bd.num.Val() < bd.Unit() && f < Pow10(count)
    ensures old(bd.num.Val()) * Pow10(count) == f * bd.Unit() + bd.num.Val()
    ensures buff.Text() == old(buff.Text()) + Padded(f, count)
  {
    hide B.Value, B.Pow2, Padded, Digit;
    f := 0;
    ghost var text, r0, u := buff.Text(), bd.num.Val(), bd.Unit();
    NoDigits(text);
    for i := 0 to count
      invariant buff.Valid() && bd.Valid() && bd.num.Val() < u && f < Pow10(i)
      invariant r0 * Pow10(i) == f * u + bd.num.Val() && buff.Text() == text + Padded(f, i)
    {
      ghost var r := bd.num.Val();
      var d := bd.NextDigit();
      buff.AddChar(Digit(d));
      FractionStep(r0, Pow10(i), f, u, r, d, bd.num.Val());
      f := 10 * f + d;
      PaddedLast(text, f, i + 1);
    }
  }

  lemma NoDigits(s: string)
    ensures s + Padded(0, 0) == s
  {
  }

  lemma FractionStep(r0: nat, p: nat, f: nat, u: nat, r: nat, d: nat, r': nat)
    requires r0 * p == f * u + r && 10 * r == d * u + r' && d < 10
    ensures r0 * (10 * p) == (10 * f + d) * u + r' && (10 * f + d) / 10 == f && (10 * f + d) % 10 == d
  {
    assert r0 * (10 * p) == 10 * (r0 * p);
    assert (10 * f + d) * u == 10 * (f * u) + d * u;
  }

  /** The whole part goes to the helper, what is behind the binary point stays. */
  method TakeWhole(bd: BigDouble)
    requires bd.Valid()
    modifies bd.num, bd.helper1
    ensures bd.Valid() && bd.num.Val() < bd.Unit() && old(bd.num.Val()) == bd.helper1.Val() * bd.Unit() + bd.num.Val()
  {
    hide B.Value, B.Pow2;
    B.Quotients(bd.num.Val(), bd.Unit());
    bd.IntegerPart();
    bd.CutIntegerPart();
  }

  // ----- %f -----

  /** The digits of the whole part, the point, and so many decimals, cut off. */
  method Stage(buff: Buffer, bd: BigDouble, alternate: bool, precision: nat) returns (ghost whole: nat, ghost f: nat)
    requires buff.Valid() && buff.Text() == ['\0'] && bd.Valid()
    modifies buff, bd.num, bd.helper1
    ensures buff.Valid() && bd.Valid() && bd.num.Val() < bd.Unit() && f < Pow10(precision)
    ensures buff.Text() == Staged(whole, f, precision, alternate)
    ensures old(bd.num.Val()) * Pow10(precision) == (whole * Pow10(precision) + f) * bd.Unit() + bd.num.Val()
  {
    hide B.Value, B.Pow2, Padded, Digit, Numeral;
    ghost var n := bd.num.Val();
    TakeWhole(bd);
    whole := bd.helper1.Val();
    ghost var r0 := bd.num.Val();
    var length := IntegerDigits(buff, bd.helper1);
    if precision > 0 || alternate {
      buff.AddChar('.');
    }
    assert buff.Text() == ['\0'] + Numeral(whole) + Point(precision, alternate);
    f := FractionDigits(buff, bd, precision);
    Scaled(n, bd.Unit(), whole, r0, Pow10(precision), f, bd.num.Val());
  }

  lemma Scaled(n: nat, u: nat, whole: nat, r0: nat, p: nat, f: nat, rest: nat)
    requires n == whole * u + r0 && r0 * p == f * u + rest
    ensures n * p == (whole * p + f) * u + rest
  {
    assert n * p == whole * u * p + r0 * p;
    assert whole * u * p == whole * p * u;
    assert (whole * p + f) * u == whole * p * u + f * u;
  }

  /** Whether what is left rounds the number in the buffer up. */
  method RoundsUp(buff: Buffer, bd: BigDouble) returns (carry: bool)
    requires buff.Valid() && bd.Valid() && bd.num.Val() < bd.Unit()
    modifies bd.num, bd.helper1
    ensures bd.Valid()
    ensures var q := Number(buff.Text());
      HalfEven(q * bd.Unit() + old(bd.num.Val()), bd.Unit()) == if carry then q + 1 else q
  {
    hide B.Value, B.Pow2, HalfEven, Number;
    ghost var u, rest, q := bd.Unit(), bd.num.Val(), Number(buff.Text());
    var r := bd.NextDigit();
    EvenByDigit(q * u + rest, u, q, rest, r, bd.num.Val());
    carry := r > 5;
    if r == 5 {
      var c := bd.num.Cmp(0);
      if c != 0 {
        carry := true;
      } else {
        carry := buff.LastOdd();
      }
    }
  }

  /** The digits of a number in fixed form, rounded to `precision` decimals, of two equally near ones to the even one. */
  method DecimalForm(buff: Buffer, bd: BigDouble, noTrailingZeros: bool, alternate: bool, precision: nat)
    returns (startOffset: nat)
    requires buff.Valid() && buff.Text() == [] && bd.Valid()
    modifies buff, bd.num, bd.helper1
    ensures buff.Valid() && startOffset <= buff.len
    ensures var text := Fixed(HalfEven(old(bd.num.Val()) * Pow10(precision), bd.Unit()), precision, alternate);
      buff.Text()[startOffset..] == if precision > 0 && noTrailingZeros && !alternate then Trimmed(text) else text
  {
    hide B.Value, B.Pow2, Padded, Digit, Numeral, Bumped, Grows, Fixed, HalfEven, Trimmed, Number, Staged;
    buff.AddChar('\0');
    startOffset := 1;
    assert [] + ['\0'] == ['\0'];
    ghost var whole, f := Stage(buff, bd, alternate, precision);
    StagedReads(whole, f, precision, alternate);
    FixedParts(whole, f, precision, alternate);
    StagedBumped(whole, f, precision, alternate);
    StagedFirst(whole, f, precision, alternate);
    var carry := RoundsUp(buff, bd);
    if carry {
      var grown := buff.Carry();
      if grown {
        startOffset := 0;
      }
    }
    if (precision > 0 || alternate) && noTrailingZeros && !alternate {
      ghost var text := buff.Text();
      FixedPoint(HalfEven(old(bd.num.Val()) * Pow10(precision), bd.Unit()), precision, alternate);
      TrimmedBehind(text[..startOffset], text[startOffset..]);
      assert text == text[..startOffset] + text[startOffset..];
      buff.TrimZeros();
    }
  }

  // ----- %e -----

  /** The first digit of a fraction that is not zero, and how many places it is behind the point. */
  method FirstDigit(bd: BigDouble) returns (digit: nat, localexp: int)
    requires bd.Valid() && 0 < bd.num.Val() < bd.Unit()
    modifies bd.num, bd.helper1
    ensures bd.Valid() && bd.num.Val() < bd.Unit() && 1 <= digit < 10 && localexp < 0
    ensures Tenfold(old(bd.num.Val()), localexp) == digit * bd.Unit() + bd.num.Val()
  {
    hide B.Value, B.Pow2;
    ghost var n, u := bd.num.Val(), bd.Unit();
    localexp := 0;
    digit := 0;
    while digit == 0
      invariant bd.Valid() && bd.num.Val() < u && localexp <= 0 && digit < 10 && (digit != 0 ==> localexp < 0)
      invariant Tenfold(n, localexp) == digit * u + bd.num.Val() && (digit == 0 ==> bd.num.Val() > 0)
      decreases digit == 0, u - bd.num.Val()
    {
      ghost var r := bd.num.Val();
      digit := bd.NextDigit();
      TenTimes(n, localexp);
      localexp := localexp - 1;
    }
  }

  lemma TenTimes(n: nat, e: int)
    requires e <= 0
    ensures Tenfold(n, e - 1) == 10 * Tenfold(n, e)
  {
    assert Pow10(-e + 1) == 10 * Pow10(-e);
    Tens(n, Pow10(-e));
  }

  /** `p + 2` significant digits of a number, cut off, behind room for a carry and a point. */
  method SignificantDigits(buff: Buffer, bd: BigDouble, precision: nat) returns (localexp: int, ghost b: nat)
    requires buff.Valid() && buff.Text() == ['\0', '\0'] && bd.Valid() && bd.num.Val() > 0
    modifies buff, bd.num, bd.helper1
    ensures buff.Valid() && buff.Text() == ['\0', '\0'] + Padded(b, precision + 2)
    ensures Leads(old(bd.num.Val()), bd.Unit(), localexp)
    ensures CutOff(old(bd.num.Val()), bd.Unit(), precision, localexp, b)
  {
    hide B.Value, B.Pow2, Padded, Digit, Numeral, Leads, CutOff;
    ghost var n, u := bd.num.Val(), bd.Unit();
    TakeWhole(bd);
    ghost var whole, r0 := bd.helper1.Val(), bd.num.Val();
    var c := bd.helper1.Cmp(0);
    ghost var f;
    if c != 0 {
      localexp := IntegerDigits(buff, bd.helper1);
      localexp := localexp - 1;
      f := FractionDigits(buff, bd, precision + 1);
      ghost var text := buff.Text();
      b := WholeDigits(n, u, whole, r0, precision, f, bd.num.Val());
      buff.len := 2 + precision + 2;
      assert buff.Text() == text[..precision + 4];
      assert text == ['\0', '\0'] + (Numeral(whole) + Padded(f, precision + 1));
    } else {
      var digit;
      digit, localexp := FirstDigit(bd);
      buff.AddChar(Digit(digit));
      ghost var r := bd.num.Val();
      f := FractionDigits(buff, bd, precision + 1);
      b := PartDigits(n, u, localexp, digit, r, precision, f, bd.num.Val());
      assert buff.Text() == ['\0', '\0'] + ([Digit(digit)] + Padded(f, precision + 1));
      buff.len := 2 + precision + 2;
    }
  }

  /** `b` is the number's first `p + 2` digits. */
  predicate CutOff(n: nat, u: nat, p: nat, e: int, b: nat) {
    b * Tenth(u, e) <= Tenfold(n, e) * Pow10(p + 1) < b * Tenth(u, e) + Tenth(u, e)
  }

  lemma WholeDigits(n: nat, u: nat, whole: nat, r0: nat, p: nat, f: nat, rest: nat) returns (b: nat)
    requires u > 0 && n == whole * u + r0 && r0 < u && whole > 0 && f < Pow10(p + 1)
    requires r0 * Pow10(p + 1) == f * u + rest && rest < u
    ensures var l := |Numeral(whole)|;
      && Leads(n, u, l - 1) && CutOff(n, u, p, l - 1, b)
      && (Numeral(whole) + Padded(f, p + 1))[..p + 2] == Padded(b, p + 2)
  {
    hide Padded, Numeral, CutOff, Leads;
    var l, a := |Numeral(whole)|, whole * Pow10(p + 1) + f;
    NumeralPadded(whole);
    PaddedAppend(whole, l, f, p + 1);
    PaddedPrefix(a, p + 2, l - 1);
    b := a / Pow10(l - 1);
    Scaled(n, u, whole, r0, Pow10(p + 1), f, rest);
    WholeLeads(n, u, whole, r0, l - 1);
    CutFurther(n, u, p, a, rest, l - 1, b);
  }

  lemma WholeLeads(n: nat, u: nat, whole: nat, r0: nat, e: nat)
    requires n == whole * u + r0 && r0 < u && Pow10(e) <= whole < Pow10(e + 1)
    ensures Leads(n, u, e)
  {
    B.Monotone(Pow10(e), whole, u);
    B.Monotone(whole + 1, Pow10(e + 1), u);
    assert Pow10(e + 1) * u == 10 * (u * Pow10(e));
    assert Tenfold(n, e) == n;
  }

  lemma CutFurther(n: nat, u: nat, p: nat, a: nat, rest: nat, e: nat, b: nat)
    requires n * Pow10(p + 1) == a * u + rest && rest < u && b == a / Pow10(e)
    ensures CutOff(n, u, p, e, b)
  {
    Quotient(a, Pow10(e));
    var k := Pow10(e);
    B.Nested(n * Pow10(p + 1), u, k, a, rest, b, a % k);
    assert Tenfold(n, e) == n && Tenth(u, e) == u * k;
    assert Tenfold(n, e) * Pow10(p + 1) == b * Tenth(u, e) + (a % k * u + rest);
  }

  lemma PartDigits(n: nat, u: nat, e: int, digit: nat, r: nat, p: nat, f: nat, rest: nat) returns (b: nat)
    requires u > 0 && e < 0 && 1 <= digit < 10 && Tenfold(n, e) == digit * u + r && r < u
    requires r * Pow10(p + 1) == f * u + rest && rest < u && f < Pow10(p + 1)
    ensures Leads(n, u, e) && CutOff(n, u, p, e, b) && [Digit(digit)] + Padded(f, p + 1) == Padded(b, p + 2)
  {
    hide Padded, Tenfold, Tenth;
    b := digit * Pow10(p + 1) + f;
    PaddedAppend(digit, 1, f, p + 1);
    PaddedOne(digit);
    Scaled(Tenfold(n, e), u, digit, r, Pow10(p + 1), f, rest);
    OneTenth(u, e);
    B.Monotone(1, digit, u);
    B.Monotone(digit, 9, u);
  }

  lemma OneTenth(u: nat, e: int)
    requires e <= 0
    ensures Tenth(u, e) == u
  {
    assert Pow10(0) == 1;
  }

  lemma CutRange(n: nat, u: nat, p: nat, e: int, b: nat)
    requires u > 0 && Leads(n, u, e) && CutOff(n, u, p, e, b)
    ensures Pow10(p + 1) <= b < Pow10(p + 2)
  {
    hide Tenfold, Tenth;
    AtLeast(Tenfold(n, e), Tenth(u, e), Pow10(p + 1), b);
    Less(Tenfold(n, e), Tenth(u, e), Pow10(p + 1), b);
  }

  lemma AtLeast(x: nat, t: nat, w: nat, b: nat)
    requires t > 0 && t <= x && x * w < b * t + t
    ensures w <= b
  {
    B.Monotone(t, x, w);
    if b < w {
      B.Steps(t, b, w);
    }
  }

  lemma Less(x: nat, t: nat, w: nat, b: nat)
    requires w > 0 && x < 10 * t && b * t <= x * w
    ensures b < 10 * w
  {
    B.Steps(w, x, 10 * t);
    if b >= 10 * w {
      B.Monotone(10 * w, b, t);
    }
  }

  lemma CutRounds(n: nat, u: nat, p: nat, e: int, b: nat)
    requires u > 0 && CutOff(n, u, p, e, b)
    ensures HalfUp(Tenfold(n, e) * Pow10(p), Tenth(u, e)) == if b % 10 >= 5 then b / 10 + 1 else b / 10
  {
    hide Tenfold, Tenth, HalfUp;
    var x, t := Tenfold(n, e), Tenth(u, e);
    Tens(x, Pow10(p));
    UpByDigit(x * Pow10(p), t, b, x * Pow10(p + 1) - b * t);
  }

  /** The cut-off digits rounded by the last of them; a carry out of the first digit makes the number ten times as large. */
  method RoundMantissa(buff: Buffer, precision: nat, exp: int, ghost b: nat)
    returns (startOffset: nat, localexp: int, ghost m: nat)
    requires buff.Valid() && buff.Text() == ['\0', '\0'] + Padded(b, precision + 2)
    requires Pow10(precision + 1) <= b < Pow10(precision + 2)
    modifies buff
    ensures buff.Valid() && 1 <= startOffset <= 2 && buff.len == startOffset + precision + 1
    ensures buff.Text()[startOffset..] == Padded(m, precision + 1)
    ensures var q := if b % 10 >= 5 then b / 10 + 1 else b / 10;
      (m, localexp) == if q == Pow10(precision + 1) then (Pow10(precision), exp + 1) else (q, exp)
    ensures Pow10(precision) <= m < Pow10(precision + 1)
  {
    hide Padded, Bumped, Grows;
    startOffset, localexp, m := 2, exp, b / 10;
    ghost var front, p := ['\0', '\0'], precision;
    PaddedLast(front, b, p + 2);
    TenthOf(b, p);
    assert buff.data[startOffset + precision + 1] == buff.Text()[startOffset + precision + 1] == Digit(b % 10);
    var carry := buff.data[startOffset + precision + 1] as int - '0' as int >= 5;
    buff.len := buff.len - 1;
    assert buff.Text() == front + Padded(m, p + 1);
    if carry {
      BumpedPadded(front, m, p + 1);
      GrowsPadded(front, m, p + 1);
      NullsBumped();
      var grown := buff.Carry();
      m := m + 1;
      if grown {
        startOffset := 1;
        localexp := localexp + 1;
        ghost var text := buff.Text();
        buff.len := buff.len - 1;
        assert buff.Text() == text[..p + 2];
        OneAndZeros(p);
        m := Pow10(p);
      }
    }
  }

  lemma TenthOf(b: nat, p: nat)
    requires Pow10(p + 1) <= b < Pow10(p + 2)
    ensures Pow10(p) <= b / 10 < Pow10(p + 1)
  {
  }

  lemma NullsBumped()
    ensures Bumped(['\0', '\0']) == ['\0', '1'] && Grows(['\0', '\0'])
  {
    assert ['\0', '\0'] == ['\0'] + ['\0'] && ['\0'] + ['1'] == ['\0', '1'];
    BumpedLast(['\0'], '\0');
    GrowsLast(['\0'], '\0');
  }

  lemma OneAndZeros(p: nat)
    ensures (['\0', '1'] + Padded(0, p + 1))[..p + 2] == ['\0'] + Padded(Pow10(p), p + 1)
  {
    hide Padded;
    PaddedPrefix(0, p, 1);
    PaddedAppend(1, 1, 0, p);
    PaddedOne(1);
    assert 0 / Pow10(1) == 0;
  }

  /** What is left of a number from the last digit on. */
  function LowFirst(n: nat): string {
    if n == 0 then [] else [Digit(n % 10)] + LowFirst(n / 10)
  }

  /** The digits of a number, the last one first. */
  method LowDigits(buff: Buffer, n: nat)
    requires buff.Valid()
    modifies buff
    ensures buff.Valid() && buff.Text() == old(buff.Text()) + LowFirst(n)
  {
    hide Digit;
    var left := n;
    ghost var text, digits: string := buff.Text(), [];
    assert text + digits == text && digits + LowFirst(n) == LowFirst(n);
    while left != 0
      invariant buff.Valid() && buff.Text() == text + digits && LowFirst(n) == digits + LowFirst(left)
      decreases left
    {
      buff.AddChar(Digit(left % 10));
      LowStep(digits, left);
      assert text + digits + [Digit(left % 10)] == text + (digits + [Digit(left % 10)]);
      digits := digits + [Digit(left % 10)];
      left := left / 10;
    }
    assert digits + [] == digits;
  }

  lemma LowStep(digits: string, n: nat)
    requires n != 0
    ensures digits + LowFirst(n) == digits + [Digit(n % 10)] + LowFirst(n / 10)
  {
  }

  /** The digits of an exponent, at least two, the last one first. */
  function ExponentLowFirst(exp: nat): (s: string)
    ensures |s| > 0
  {
    [Digit(exp % 10)] + if exp / 10 == 0 then [Digit(0)] else LowFirst(exp / 10)
  }

  method ExponentDigits(buff: Buffer, exp: nat)
    requires buff.Valid()
    modifies buff
    ensures buff.Valid() && buff.Text() == old(buff.Text()) + ExponentLowFirst(exp)
    ensures buff.len == old(buff.len) + |ExponentLowFirst(exp)|
  {
    hide Digit, LowFirst;
    ghost var text := buff.Text();
    var localexp := exp;
    buff.AddChar(Digit(localexp % 10));
    localexp := localexp / 10;
    if localexp == 0 {
      buff.AddChar(Digit(0));
    } else {
      LowDigits(buff, localexp);
    }
    assert buff.Text() == text + ExponentLowFirst(exp);
  }

  /** An exponent of at least two digits. */
  method AddExponent(buff: Buffer, exp: nat)
    requires buff.Valid()
    modifies buff
    ensures buff.Valid() && buff.Text() == old(buff.Text()) + Exponent(exp)
  {
    hide Reversed, Exponent, ExponentLowFirst;
    var i := buff.len;
    ghost var text, digits := buff.Text(), ExponentLowFirst(exp);
    ExponentDigits(buff, exp);
    ExponentTurned(exp);
    buff.Reverse(i, buff.len);
    assert (text + digits)[..i] == text && (text + digits)[i..] == digits;
    assert text + Reversed(digits) + [] == text + Reversed(digits);
  }

  lemma ExponentTurned(x: nat)
    ensures Reversed(ExponentLowFirst(x)) == Exponent(x)
  {
    var rest := if x / 10 == 0 then [Digit(0)] else LowFirst(x / 10);
    ReversedFirst(Digit(x % 10), rest);
    if x / 10 == 0 {
      OneReversed(Digit(0));
    } else {
      LowReversed(x / 10);
    }
  }

  lemma {:induction false} LowReversed(n: nat)
    requires n > 0
    ensures Reversed(LowFirst(n)) == Numeral(n)
  {
    ReversedFirst(Digit(n % 10), LowFirst(n / 10));
    if n >= 10 {
      LowReversed(n / 10);
    }
  }

  lemma ReversedFirst(c: char, s: string)
    ensures Reversed([c] + s) == Reversed(s) + [c]
  {
    var t, u := Reversed([c] + s), Reversed(s) + [c];
    forall i | 0 <= i < |t|
      ensures t[i] == u[i]
    {
      assert t[i] == ([c] + s)[|s| - i];
    }
  }

  lemma OneReversed(c: char)
    ensures Reversed([c]) == [c]
  {
    assert [c][..0] == [];
  }

  /** The point after the first digit. */
  method InsertPoint(buff: Buffer, start: nat) returns (startOffset: nat)
    requires buff.Valid() && 1 <= start < buff.len
    modifies buff`data
    ensures buff.Valid() && startOffset == start - 1
    ensures var t := old(buff.Text())[start..]; buff.Text()[startOffset..] == t[..1] + "." + t[1..]
  {
    startOffset := start - 1;
    ghost var text := buff.Text();
    buff.data := buff.data[startOffset := buff.data[startOffset + 1]];
    buff.data := buff.data[startOffset + 1 := '.'];
    assert buff.Text()[startOffset..] == text[start..][..1] + "." + text[start..][1..];
  }

  /** The mantissa's text, from its digits. */
  method PointMantissa(buff: Buffer, start: nat, noTrailingZeros: bool, alternate: bool, precision: nat, ghost m: nat)
    returns (startOffset: nat)
    requires buff.Valid() && 1 <= start && buff.len == start + precision + 1 && buff.Text()[start..] == Padded(m, precision + 1)
    modifies buff
    ensures buff.Valid() && startOffset <= buff.len
    ensures var text := Mantissa(m, precision, alternate);
      buff.Text()[startOffset..] == if precision > 0 && noTrailingZeros && !alternate then Trimmed(text) else text
  {
    hide Padded, Trimmed;
    startOffset := start;
    ghost var s := Padded(m, precision + 1);
    assert s[..1] + "" + s[1..] == s;
    if precision > 0 || alternate {
      startOffset := InsertPoint(buff, start);
      if noTrailingZeros && !alternate {
        ghost var text := buff.Text();
        assert text[startOffset..][1] == '.';
        TrimmedBehind(text[..startOffset], text[startOffset..]);
        assert text == text[..startOffset] + text[startOffset..];
        buff.TrimZeros();
      }
    }
  }

  /** The digits of a number in scientific form, rounded to `precision + 1` significant ones, of two equally near numbers
      to the larger. */
  method ScientificForm(buff: Buffer, bd: BigDouble, noTrailingZeros: bool, alternate: bool, large: bool, precision: nat)
    returns (startOffset: nat, exp: int, ghost e: int, ghost m: nat)
    requires buff.Valid() && buff.Text() == [] && bd.Valid() && bd.num.Val() > 0
    modifies buff, bd.num, bd.helper1
    ensures buff.Valid() && startOffset <= buff.len
    ensures Leads(old(bd.num.Val()), bd.Unit(), e) && Pow10(precision) <= m < Pow10(precision + 1)
    ensures (m, exp) == Significant(old(bd.num.Val()), bd.Unit(), precision, e)
    ensures var mantissa := Mantissa(m, precision, alternate);
      buff.Text()[startOffset..] ==
        Scientific(if precision > 0 && noTrailingZeros && !alternate then Trimmed(mantissa) else mantissa, exp, large)
  {
    hide B.Value, B.Pow2, Padded, Leads, CutOff, Mantissa, Trimmed, Tenfold, Tenth, HalfUp, Pow10, Exponent;
    ghost var n, u := bd.num.Val(), bd.Unit();
    buff.AddChar('\0');
    buff.AddChar('\0');
    assert buff.Text() == ['\0', '\0'];
    ghost var b;
    exp, b := SignificantDigits(buff, bd, precision);
    e := exp;
    CutRange(n, u, precision, e, b);
    CutRounds(n, u, precision, e, b);
    startOffset, exp, m := RoundMantissa(buff, precision, exp, b);
    startOffset := PointMantissa(buff, startOffset, noTrailingZeros, alternate, precision, m);
    ghost var text := buff.Text();
    buff.AddChar(if large then 'E' else 'e');
    buff.AddChar(if exp >= 0 then '+' else '-');
    AddExponent(buff, if exp >= 0 then exp else -exp);
    Suffixed(text, startOffset, [if large then 'E' else 'e'], [if exp >= 0 then '+' else '-'], Exponent(if exp >= 0 then exp else -exp));
  }

  lemma Suffixed(text: string, start: nat, x: string, y: string, z: string)
    requires start <= |text|
    ensures (text + x + y + z)[start..] == text[start..] + x + y + z
  {
  }

  // ----- A double's text -----

  datatype Conversion = PlainFixed | Exponential | General

  predicate IsFinite(bits: nat) {
    ExponentField(bits) != 2047
  }

  /** A finite double in fixed form. */
  function FixedText(bits: nat, p: nat, alternate: bool): string {
    Fixed(HalfEven(Numerator(bits) * Pow10(p), Denominator(bits)), p, alternate)
  }

  predicate IsScientific(text: string, exp: int, bits: nat, p: nat, e: int, alternate: bool, trim: bool, large: bool) {
    && Leads(Numerator(bits), Denominator(bits), e)
    && var (m, exp') := Significant(Numerator(bits), Denominator(bits), p, e);
      && exp == exp' && Pow10(p) <= m < Pow10(p + 1)
      && var mantissa := Mantissa(m, p, alternate);
        text == Scientific(if trim && p > 0 && !alternate then Trimmed(mantissa) else mantissa, exp, large)
  }

  /** So many zeros. */
  method AddZeros(buff: Buffer, count: nat)
    requires buff.Valid()
    modifies buff
    ensures buff.Valid() && buff.Text() == old(buff.Text()) + Padded(0, count)
  {
    hide Padded;
    ghost var text := buff.Text();
    NoDigits(text);
    for i := 0 to count
      invariant buff.Valid() && buff.Text() == text + Padded(0, i)
    {
      PaddedLast(text, 0, i + 1);
      buff.AddChar('0');
    }
  }

  /** Zero has its text of its own. */
  method ZeroText(buff: Buffer, conversion: Conversion, alternate: bool, large: bool, precision: nat)
    requires buff.Valid() && buff.Text() == []
    modifies buff
    ensures buff.Valid()
    ensures conversion == PlainFixed ==> buff.Text() == Fixed(0, precision, alternate)
    ensures conversion == Exponential ==> buff.Text() == Scientific(Mantissa(0, precision, alternate), 0, large)
    ensures conversion == General ==>
      buff.Text() == if alternate then "0." + Padded(0, if precision > 0 then precision - 1 else 0) else "0"
  {
    hide Padded;
    var decimals := precision;
    ZeroFixed(precision, alternate);
    ZeroMantissa(precision, alternate);
    ZeroExponent(Mantissa(0, precision, alternate), large);
    buff.AddChar('0');
    assert buff.Text() == "0";
    if alternate || (conversion != General && precision > 0) {
      buff.AddChar('.');
      if conversion == General {
        decimals := if precision > 0 then precision - 1 else 0;
      }
      AddZeros(buff, decimals);
    } else {
      NoDigits("0");
      assert conversion != General ==> buff.Text() == "0" + "" + Padded(0, decimals);
    }
    if conversion == Exponential {
      buff.AddChar(if large then 'E' else 'e');
      buff.AddChar('+');
      buff.AddChar('0');
      buff.AddChar('0');
    }
  }

  lemma ZeroFixed(p: nat, point: bool)
    ensures Fixed(0, p, point) == "0" + Point(p, point) + Padded(0, p)
  {
    hide Padded;
    Division(0, Pow10(p), 0, 0);
  }

  lemma ZeroMantissa(p: nat, point: bool)
    ensures Mantissa(0, p, point) == "0" + Point(p, point) + Padded(0, p)
  {
    hide Padded;
    PaddedAppend(0, 1, 0, p);
    PaddedOne(0);
    var s := Padded(0, p + 1);
    assert s == "0" + Padded(0, p);
    assert s[..1] == "0" && s[1..] == Padded(0, p);
  }

  lemma ZeroExponent(s: string, large: bool)
    ensures Scientific(s, 0, large) == s + [if large then 'E' else 'e'] + ['+'] + ['0'] + ['0']
  {
    assert Exponent(0) == ['0'] + ['0'];
  }

  /** The digits of a double's absolute value for a conversion; the caller adds the sign and the padding. */
  method SprintfDouble(bits: nat, conversion: Conversion, alternate: bool, large: bool, precision: int)
    returns (text: string, ghost e: int, ghost exp: int)
    ensures var p := if precision >= 0 then precision else 6;
      && (!IsFinite(bits) ==>
            text == if MantissaField(bits) == 0 then (if large then "INF" else "inf") else (if large then "NAN" else "nan"))
      && (IsFinite(bits) && Significand(bits) == 0 && conversion == Exponential ==>
            text == Scientific(Mantissa(0, p, alternate), 0, large))
      && (IsFinite(bits) && Significand(bits) == 0 && conversion == General ==>
            text == if alternate then "0." + Padded(0, if p > 0 then p - 1 else 0) else "0")
      && (IsFinite(bits) && conversion == PlainFixed ==> text == FixedText(bits, p, alternate))
      && (IsFinite(bits) && Significand(bits) != 0 && conversion == Exponential ==>
            IsScientific(text, exp, bits, p, e, alternate, false, large))
      && (IsFinite(bits) && Significand(bits) != 0 && conversion == General ==>
            var prec := if p > 0 then p else 1;
              && Leads(Numerator(bits), Denominator(bits), e)
              && exp == Significant(Numerator(bits), Denominator(bits), prec - 1, e).1
              && if -4 <= exp < prec then
                   var fixed := FixedText(bits, prec - (exp + 1), alternate);
                     text == if prec > exp + 1 && !alternate then Trimmed(fixed) else fixed
                 else IsScientific(text, exp, bits, prec - 1, e, alternate, true, large))
  {
    hide B.Value, B.Pow2, Padded, Leads, Mantissa, Trimmed, Tenfold, Tenth, HalfUp, HalfEven, Pow10, Exponent, Fixed, Scientific,
         Significant, Numerator, Denominator;
    var p := if precision >= 0 then precision else 6;
    e, exp := 0, 0;
    var buff := new Buffer(2 * p + 6);
    if ExponentField(bits) == 0x7ff {
      text := if MantissaField(bits) == 0 then (if large then "INF" else "inf") else (if large then "NAN" else "nan");
      return;
    }
    NumeratorZero(bits);
    if bits % 0x8000_0000_0000_0000 == 0 {
      ZeroText(buff, conversion, alternate, large, p);
      text := buff.data[..buff.len];
      NothingRounded(p, Denominator(bits));
      return;
    }
    var bd := new BigDouble.Load(bits);
    var startOffset;
    if conversion == PlainFixed {
      startOffset := DecimalForm(buff, bd, false, alternate, p);
    } else if conversion == Exponential {
      ghost var m;
      startOffset, exp, e, m := ScientificForm(buff, bd, false, alternate, large, p);
    } else {
      var backup := new BigDouble.Copy(bd);
      var prec := if p > 0 then p else 1;
      ghost var m;
      var x;
      startOffset, x, e, m := ScientificForm(buff, backup, true, alternate, large, prec - 1);
      exp := x;
      if prec > x && x >= -4 {
        buff.len := 0;
        assert buff.Text() == [];
        startOffset := DecimalForm(buff, bd, true, alternate, prec - (x + 1));
      }
    }
    text := buff.data[startOffset..buff.len];
    assert text == buff.Text()[startOffset..];
  }

  /** Exactly the zeros have no significand. */
  lemma NumeratorZero(bits: nat)
    ensures Significand(bits) == 0 <==> Numerator(bits) == 0
    ensures bits % 0x8000_0000_0000_0000 == 0 ==> IsFinite(bits) && Significand(bits) == 0
    ensures Significand(bits) == 0 ==> bits % 0x8000_0000_0000_0000 == 0
  {
    var w := B.Pow2(if Binary(bits) > MANTISSA_BITS then Binary(bits) - MANTISSA_BITS else 0);
    Steps(Significand(bits), w);
    BitFields(bits);
  }

  lemma BitFields(bits: nat)
    ensures bits % 0x8000_0000_0000_0000 == ExponentField(bits) * 0x10_0000_0000_0000 + MantissaField(bits)
  {
    var high := bits / 0x10_0000_0000_0000;
    var r := ExponentField(bits) * 0x10_0000_0000_0000 + MantissaField(bits);
    assert bits == high / 2048 * 0x8000_0000_0000_0000 + r;
  }

  lemma NothingRounded(p: nat, d: nat)
    requires d > 0
    ensures HalfEven(0 * Pow10(p), d) == 0
  {
    Division(0, d, 0, 0);
  }

  // ----- What the texts say -----

  /** The fraction is the value that IEEE 754 gives the bits: (1.)mantissa times two to the exponent less 1075. */
  lemma DoubleExact(bits: nat)
    ensures var mantissa, exponent := bits % 0x10_0000_0000_0000, bits / 0x10_0000_0000_0000 % 0x800;
      var significand := if exponent == 0 then mantissa else mantissa + 0x10_0000_0000_0000;
        Numerator(bits) * B.Pow2(1075) == Denominator(bits) * (significand * B.Pow2(if exponent == 0 then 1 else exponent))
  {
    hide B.Pow2;
    var x := Binary(bits);
    var s, high := Significand(bits), B.Pow2(x + 1023);
    NoPower();
    if x > MANTISSA_BITS {
      B.Pow2Sum(x - MANTISSA_BITS, 1075);
      Regroup(s, B.Pow2(x - MANTISSA_BITS), B.Pow2(1075));
    } else {
      B.Pow2Sum(MANTISSA_BITS - x, x + 1023);
      Regroup(s, B.Pow2(MANTISSA_BITS - x), high);
    }
  }

  lemma NoPower()
    ensures B.Pow2(0) == 1
  {
  }

  lemma Regroup(s: nat, x: nat, y: nat)
    ensures s * x * y == s * (x * y) == x * (s * y)
  {
  }

  /**
   * The text of %f is a decimal notation with so many places for a number than which none is nearer to the double's
   * exact value; of two equally near ones, the even one.
   */
  lemma FixedMeans(bits: nat, p: nat, alternate: bool)
    ensures var s, n, d := FixedText(bits, p, alternate), Numerator(bits) * Pow10(p), Denominator(bits);
      && IsNotation(s) && Places(s) == p && ('.' in s <==> p > 0 || alternate) && (s[0] == '0' ==> IndexOf(s, '.') == 1)
      && var v := Number(s);
        2 * Distance(v * d, n) < d || (2 * Distance(v * d, n) == d && v % 2 == 0)
  {
    hide Fixed, Number, HalfEven, Numerator, Denominator, Pow10, Distance, IsNotation, IndexOf, Places;
    var n, d := Numerator(bits) * Pow10(p), Denominator(bits);
    var q := HalfEven(n, d);
    FixedNotation(q, p, alternate);
    NearestEven(n, d, q);
  }

  /**
   * The text of %e is a decimal notation with one digit before the point, a letter, a sign, and an exponent of two
   * digits at least. Together they denote a number than which none with so many digits is nearer to the double's exact
   * value; of two equally near ones the larger. Needless zeros stand at the end only if they are not to be trimmed.
   */
  lemma ScientificMeans(text: string, exp: int, bits: nat, p: nat, e: int, alternate: bool, trim: bool, large: bool)
    returns (t: string, m: nat)
    requires IsScientific(text, exp, bits, p, e, alternate, trim, large)
    ensures IsScientificNotation(text) && ReadExponent(text) == exp && text[MarkAt(text)] == (if large then 'E' else 'e')
    ensures t == text[..MarkAt(text)] && Places(t) <= p && Number(t) * Pow10(p - Places(t)) == m
    ensures IsNearest(Numerator(bits), Denominator(bits), p, e, m, exp)
    ensures if trim && p > 0 && !alternate then NoNeedlessZero(t) else Places(t) == p && ('.' in t <==> p > 0 || alternate)
  {
    hide Number, Mantissa, Trimmed, Scientific, Significant, Leads, Numerator, Denominator, Pow10, IsNotation, IndexOf, Places,
         IsScientificNotation, ReadExponent, MarkAt;
    m := Significant(Numerator(bits), Denominator(bits), p, e).0;
    PowerStep(p);
    SignificantNearest(Numerator(bits), Denominator(bits), p, e);
    MantissaNotation(m, p, alternate);
    var s := Mantissa(m, p, alternate);
    t := if trim && p > 0 && !alternate then Trimmed(s) else s;
    if trim && p > 0 && !alternate {
      TrimmedNotation(s);
      FrontLength(s, t);
    }
    ScientificReads(t, exp, large);
  }

  predicate NoNeedlessZero(t: string) {
    t != [] && if Places(t) > 0 then t[|t| - 1] != '0' else '.' !in t
  }

  /** `m` with its first digit counting 10^x is `p + 1` digits, and nearest to `n / u`, whose first digit counts 10^e. */
  predicate IsNearest(n: nat, u: nat, p: nat, e: int, m: nat, x: int) {
    && (x == e || (x == e + 1 && m == Pow10(p))) && Pow10(p) <= m < Pow10(p + 1)
    && var q, t := if x == e then m else 10 * m, Tenth(u, e);
      2 * (q * t) - t <= 2 * (Tenfold(n, e) * Pow10(p)) < 2 * (q * t) + t
  }

  lemma PowerStep(p: nat)
    ensures Pow10(p + 1) == 10 * Pow10(p) && Pow10(0) == 1
  {
  }

  lemma FrontLength(s: string, t: string)
    requires t[..IndexOf(t, '.')] == s[..IndexOf(s, '.')]
    ensures IndexOf(t, '.') == IndexOf(s, '.')
  {
    hide IndexOf;
    assert |t[..IndexOf(t, '.')]| == |s[..IndexOf(s, '.')]|;
  }
}
