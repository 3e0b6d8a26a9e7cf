/** Decimal text, and what rounding to it means. */
module Decimal {
  function Pow10(n: nat): (p: nat)
    ensures p > 0
  {
    if n == 0 then 1 else 10 * Pow10(n - 1)
  }

  function Digit(d: nat): char
    requires d < 10
  {
    ('0' as int + d) as char
  }

  predicate IsDigit(c: char) {
    '0' <= c <= '9'
  }

  /** A number as people write it. */
  function Numeral(n: nat): (s: string)
    ensures |s| > 0 && forall i :: 0 <= i < |s| ==> IsDigit(s[i])
  {
    if n < 10 then [Digit(n)] else Numeral(n / 10) + [Digit(n % 10)]
  }

  /** The last `p` digits of a number. */
  function Padded(n: nat, p: nat): (s: string)
    ensures |s| == p && forall i :: 0 <= i < |s| ==> IsDigit(s[i])
  {
    if p == 0 then "" else Padded(n / 10, p - 1) + [Digit(n % 10)]
  }

  /** A number of 10^-p's, with a point if it has a fraction or one is asked for. */
  function Fixed(q: nat, p: nat, point: bool): string {
    Quotient(q, Pow10(p));
    Numeral(q / Pow10(p)) + (if p > 0 || point then "." else "") + Padded(q % Pow10(p), p)
  }

  /** An exponent has two digits at least. */
  function Exponent(x: nat): string {
    if x < 10 then ['0', Digit(x)] else Numeral(x)
  }

  /** A mantissa of `p + 1` digits: the first, the point, the others. */
  function Mantissa(m: nat, p: nat, point: bool): string {
    var s := Padded(m, p + 1);
    s[..1] + (if p > 0 || point then "." else "") + s[1..]
  }

  function Scientific(mantissa: string, e: int, large: bool): string {
    mantissa + [if large then 'E' else 'e'] + [if e >= 0 then '+' else '-'] + Exponent(if e >= 0 then e else -e)
  }

  function WithoutZeros(s: string): (t: string)
    ensures |t| <= |s| && t == s[..|t|]
  {
    if s != [] && s[|s| - 1] == '0' then WithoutZeros(s[..|s| - 1]) else s
  }

  /** Without the zeros at the end, and the point if nothing is left behind it. */
  function Trimmed(s: string): string {
    var t := WithoutZeros(s);
    if t != [] && t[|t| - 1] == '.' then t[..|t| - 1] else t
  }

  // ----- Reading back -----

  function DigitValue(c: char): nat {
    if IsDigit(c) then c as int - '0' as int else 0
  }

  /** The number that digits denote, whatever else is between them. */
  function Number(s: string): nat {
    if s == [] then 0
    else if IsDigit(s[|s| - 1]) then 10 * Number(s[..|s| - 1]) + DigitValue(s[|s| - 1])
    else Number(s[..|s| - 1])
  }

  lemma NoNumber()
    ensures Number("") == 0
  {
  }

  /** The last digit tells whether a number is odd; what is no digit does not matter. */
  lemma LastParity(s: string, c: char)
    ensures if IsDigit(c) then Number(s + [c]) % 2 == DigitValue(c) % 2 else Number(s + [c]) == Number(s)
  {
    assert (s + [c])[..|s|] == s;
    if IsDigit(c) {
      var half := 5 * Number(s) + DigitValue(c) / 2;
      assert Number(s + [c]) == 2 * half + DigitValue(c) % 2;
      Odd(half, DigitValue(c) % 2);
    }
  }

  lemma Odd(half: nat, r: nat)
    requires r < 2
    ensures (2 * half + r) % 2 == r
  {
  }

  lemma {:induction false} NumeralReads(n: nat)
    ensures Number(Numeral(n)) == n
  {
    if n >= 10 {
      NumeralReads(n / 10);
      assert Numeral(n)[..|Numeral(n)| - 1] == Numeral(n / 10);
    } else {
      assert Numeral(n)[..0] == [];
    }
  }

  lemma {:induction false} NumberPadded(s: string, n: nat, p: nat)
    requires n < Pow10(p)
    ensures Number(s + Padded(n, p)) == Number(s) * Pow10(p) + n
  {
    if p == 0 {
      assert s + Padded(n, p) == s;
    } else {
      var t := s + Padded(n, p);
      NumberPadded(s, n / 10, p - 1);
      assert t[..|t| - 1] == s + Padded(n / 10, p - 1);
      assert t[|t| - 1] == Digit(n % 10);
      Tens(Number(s), Pow10(p - 1));
    }
  }

  lemma Tens(x: nat, y: nat)
    ensures 10 * (x * y) == x * (10 * y)
  {
  }

  /** The digits of the fixed form denote the number. */
  lemma FixedReads(q: nat, p: nat, point: bool)
    ensures Number(Fixed(q, p, point)) == q
  {
    var d := Pow10(p);
    Quotient(q, d);
    var whole := Numeral(q / d);
    var dotted := whole + if p > 0 || point then "." else "";
    NumeralReads(q / d);
    if p > 0 || point {
      assert dotted[..|dotted| - 1] == whole;
    } else {
      assert dotted == whole;
    }
    NumberPadded(dotted, q % d, p);
  }

  // ----- Rounding -----

  lemma Quotient(x: nat, k: nat)
    requires k > 0
    ensures 0 <= x / k && 0 <= x % k < k && x == x / k * k + x % k
  {
    var q := x / k;
    Times(q, k);
  }

  lemma Times(d: int, k: nat)
    ensures d >= 1 ==> d * k >= k
    ensures d <= -1 ==> d * k <= -(k as int)
    ensures d >= 0 ==> d * k >= 0
  {
  }

  lemma Division(x: nat, k: nat, q: nat, r: nat)
    requires x == q * k + r && r < k
    ensures q == x / k && r == x % k
  {
    Quotient(x, k);
    var q', r' := x / k, x % k;
    assert (q - q') * k == r' - r;
    Times(q - q', k);
    Times(q' - q, k);
  }

  /** `n / d` to the nearest whole number, and of two equally near ones the even one. */
  function HalfEven(n: nat, d: nat): nat
    requires d > 0
  {
    Quotient(n, d);
    var q, r := n / d, n % d;
    if 2 * r > d || (2 * r == d && q % 2 == 1) then q + 1 else q
  }

  function Distance(x: int, y: int): nat {
    if x >= y then x - y else y - x
  }

  /** Nothing is nearer, and if something is as near, the result is even: and that is so of the result only. */
  lemma NearestEven(n: nat, d: nat, q: nat)
    requires d > 0
    ensures q == HalfEven(n, d) <==> 2 * Distance(q * d, n) < d || (2 * Distance(q * d, n) == d && q % 2 == 0)
  {
    Quotient(n, d);
    var f, r := n / d, n % d;
    assert q * d - n == (q - f) * d - r;
    Far(q - f, d);
  }

  lemma Far(x: int, d: nat)
    ensures x == 0 ==> x * d == 0
    ensures x == 1 ==> x * d == d
    ensures x >= 2 ==> x * d >= 2 * d
    ensures x <= -1 ==> x * d <= -(d as int)
  {
  }

  /** `n / d` to the nearest whole number, and of two equally near ones the larger one. */
  function HalfUp(n: nat, d: nat): nat
    requires d > 0
  {
    Quotient(n, d);
    if 2 * (n % d) >= d then n / d + 1 else n / d
  }

  lemma NearestUp(n: nat, d: nat, q: nat)
    requires d > 0
    ensures q == HalfUp(n, d) <==> 2 * q * d - d <= 2 * n < 2 * q * d + d
  {
    Quotient(n, d);
    var f, r := n / d, n % d;
    assert q * d - n == (q - f) * d - r;
    Far(q - f, d);
    assert 2 * q * d == 2 * (q * d);
  }

  // ----- Adding one to the last digit -----

  /** One carried into the last digit; the characters that are no digits are passed over, a null becomes a digit. */
  function Bumped(s: string): (t: string)
    ensures |t| == |s|
  {
    if s == [] then []
    else
      var front, c := s[..|s| - 1], s[|s| - 1];
      if c == '\0' then front + ['1']
      else if c == '9' then Bumped(front) + ['0']
      else if '0' <= c <= '8' then front + [(c as int + 1) as char]
      else Bumped(front) + [c]
  }

  lemma BumpedLast(s: string, c: char)
    ensures Bumped(s + [c]) ==
      if c == '\0' then s + ['1']
      else if c == '9' then Bumped(s) + ['0']
      else if '0' <= c <= '8' then s + [(c as int + 1) as char]
      else Bumped(s) + [c]
  {
    assert (s + [c])[..|s|] == s;
  }

  lemma PaddedLast(s: string, n: nat, p: nat)
    requires p > 0
    ensures s + Padded(n, p) == s + Padded(n / 10, p - 1) + [Digit(n % 10)] && Pow10(p) == 10 * Pow10(p - 1)
  {
  }

  lemma NextDigit(n: nat)
    ensures n % 10 < 9 ==> (n + 1) / 10 == n / 10 && (n + 1) % 10 == n % 10 + 1
    ensures n % 10 == 9 ==> (n + 1) / 10 == n / 10 + 1 && (n + 1) % 10 == 0
  {
  }

  lemma BumpedDigit(s: string, d: nat)
    requires d < 10
    ensures Bumped(s + [Digit(d)]) == if d == 9 then Bumped(s) + [Digit(0)] else s + [Digit(d + 1)]
  {
    BumpedLast(s, Digit(d));
  }

  lemma NoneBumped(s: string)
    ensures Bumped(s) + Padded(0, 0) == Bumped(s) && s + Padded(0, 0) == s
  {
  }

  lemma {:induction false} BumpedPadded(s: string, n: nat, p: nat)
    requires n < Pow10(p)
    ensures Bumped(s + Padded(n, p)) == if n + 1 < Pow10(p) then s + Padded(n + 1, p) else Bumped(s) + Padded(0, p)
  {
    hide Bumped, Padded, Digit;
    if p == 0 {
      NoneBumped(s);
    } else {
      PaddedLast(s, n, p);
      PaddedLast(s, n + 1, p);
      BumpedDigit(s + Padded(n / 10, p - 1), n % 10);
      NextDigit(n);
      if n % 10 == 9 {
        BumpedPadded(s, n / 10, p - 1);
        PaddedLast(Bumped(s), 0, p);
      }
    }
  }

  /** Text with a null before it that a carry may turn into a digit. */
  function Leading(s: string): string {
    if s != [] && s[0] == '\0' then s[1..] else s
  }

  /** The null becomes a digit, or it does not. */
  lemma LeadingLonger(s: string, c: char)
    requires s != []
    ensures Leading(s + [c]) == Leading(s) + [c] && (s + [c])[0] == s[0]
  {
  }

  lemma NumeralLast(n: nat)
    requires n >= 10
    ensures ['\0'] + Numeral(n) == ['\0'] + Numeral(n / 10) + [Digit(n % 10)]
    ensures Numeral(n) == Numeral(n / 10) + [Digit(n % 10)]
  {
  }

  lemma BumpedOne(n: nat)
    requires n < 10
    ensures Leading(Bumped(['\0'] + Numeral(n))) == Numeral(n + 1)
    ensures Bumped(['\0'] + Numeral(n))[0] in {'\0', '1'}
  {
    assert ['\0'] + Numeral(n) == ['\0'] + [Digit(n)];
    BumpedLast(['\0'], Digit(n));
    BumpedLast([], '\0');
    assert [] + ['\0'] == ['\0'] && [] + ['1'] == ['1'];
    assert Numeral(1) == ['1'];
  }

  lemma {:induction false} BumpedNumeral(n: nat)
    ensures Leading(Bumped(['\0'] + Numeral(n))) == Numeral(n + 1)
    ensures Bumped(['\0'] + Numeral(n))[0] in {'\0', '1'}
  {
    hide Bumped, Numeral, Digit, Leading;
    if n < 10 {
      BumpedOne(n);
    } else {
      NumeralLast(n);
      NumeralLast(n + 1);
      NextDigit(n);
      BumpedDigit(['\0'] + Numeral(n / 10), n % 10);
      if n % 10 == 9 {
        BumpedNumeral(n / 10);
        LeadingLonger(Bumped(['\0'] + Numeral(n / 10)), Digit(0));
      } else {
        LeadingLonger(['\0'] + Numeral(n / 10), Digit(n % 10 + 1));
        LeadingNull(Numeral(n / 10));
      }
    }
  }

  lemma LeadingNull(s: string)
    ensures Leading(['\0'] + s) == s
  {
  }

  /** Whether the one carried turns a null into a digit. */
  predicate Grows(s: string) {
    if s == [] then false
    else
      var front, c := s[..|s| - 1], s[|s| - 1];
      c == '\0' || (!('0' <= c <= '8') && Grows(front))
  }

  lemma GrowsLast(s: string, c: char)
    ensures Grows(s + [c]) <==> c == '\0' || (!('0' <= c <= '8') && Grows(s))
  {
    assert (s + [c])[..|s|] == s;
  }

  lemma {:induction false} GrowsPadded(s: string, n: nat, p: nat)
    requires n < Pow10(p)
    ensures Grows(s + Padded(n, p)) <==> n + 1 == Pow10(p) && Grows(s)
  {
    hide Grows, Padded;
    if p == 0 {
      NoneBumped(s);
    } else {
      PaddedLast(s, n, p);
      GrowsLast(s + Padded(n / 10, p - 1), Digit(n % 10));
      NextDigit(n);
      if n % 10 == 9 {
        GrowsPadded(s, n / 10, p - 1);
      }
    }
  }

  lemma {:induction false} GrowsNumeral(n: nat)
    ensures Grows(['\0'] + Numeral(n)) <==> Bumped(['\0'] + Numeral(n))[0] == '1'
  {
    hide Bumped, Numeral, Grows;
    if n < 10 {
      GrowsOne(n);
    } else {
      NumeralLast(n);
      GrowsLast(['\0'] + Numeral(n / 10), Digit(n % 10));
      BumpedDigit(['\0'] + Numeral(n / 10), n % 10);
      if n % 10 == 9 {
        GrowsNumeral(n / 10);
        LeadingLonger(Bumped(['\0'] + Numeral(n / 10)), Digit(0));
      }
    }
  }

  lemma GrowsOne(n: nat)
    requires n < 10
    ensures Grows(['\0'] + Numeral(n)) <==> Bumped(['\0'] + Numeral(n))[0] == '1'
  {
    assert ['\0'] + Numeral(n) == ['\0'] + [Digit(n)];
    BumpedLast(['\0'], Digit(n));
    GrowsLast(['\0'], Digit(n));
    BumpedLast([], '\0');
    GrowsLast([], '\0');
    assert [] + ['\0'] == ['\0'] && [] + ['1'] == ['1'];
  }

  // ----- The fixed form -----

  function Point(p: nat, point: bool): string {
    if p > 0 || point then "." else ""
  }

  /** The digits as they stand in the buffer: room for a carry, the whole part, the point, the fraction. */
  function Staged(whole: nat, f: nat, p: nat, point: bool): string {
    ['\0'] + Numeral(whole) + Point(p, point) + Padded(f, p)
  }

  lemma FixedParts(whole: nat, f: nat, p: nat, point: bool)
    requires f < Pow10(p)
    ensures Fixed(whole * Pow10(p) + f, p, point) == Numeral(whole) + Point(p, point) + Padded(f, p)
    ensures Leading(Staged(whole, f, p, point)) == Fixed(whole * Pow10(p) + f, p, point)
  {
    hide Numeral, Padded;
    Division(whole * Pow10(p) + f, Pow10(p), whole, f);
    assert Staged(whole, f, p, point) == ['\0'] + (Numeral(whole) + Point(p, point) + Padded(f, p));
  }

  lemma {:induction false} NullReads(n: nat)
    ensures Number(['\0'] + Numeral(n)) == n
  {
    if n >= 10 {
      NullReads(n / 10);
      NumeralLast(n);
      var s := ['\0'] + Numeral(n);
      assert s[..|s| - 1] == ['\0'] + Numeral(n / 10) && s[|s| - 1] == Digit(n % 10);
    } else {
      var s := ['\0'] + Numeral(n);
      assert s == ['\0'] + [Digit(n)];
      assert s[..1] == ['\0'] && ['\0'][..0] == [];
    }
  }

  lemma StagedReads(whole: nat, f: nat, p: nat, point: bool)
    requires f < Pow10(p)
    ensures Number(Staged(whole, f, p, point)) == whole * Pow10(p) + f
  {
    hide Numeral, Padded;
    var head := ['\0'] + Numeral(whole);
    NullReads(whole);
    if Point(p, point) == "" {
      assert head + "" == head;
    } else {
      var s := head + ".";
      assert s[..|s| - 1] == head;
    }
    NumberPadded(head + Point(p, point), f, p);
  }

  /** One added to the last digit. */
  lemma StagedBumped(whole: nat, f: nat, p: nat, point: bool)
    requires f < Pow10(p)
    ensures var text := Bumped(Staged(whole, f, p, point));
      && text != [] && text[0] in {'\0', '1'} && Leading(text) == Fixed(whole * Pow10(p) + f + 1, p, point)
      && (Grows(Staged(whole, f, p, point)) <==> text[0] == '1')
  {
    hide Numeral, Padded, Bumped, Grows, Fixed;
    var head, dot := ['\0'] + Numeral(whole), Point(p, point);
    BumpedPadded(head + dot, f, p);
    GrowsPadded(head + dot, f, p);
    if f + 1 < Pow10(p) {
      FixedParts(whole, f + 1, p, point);
    } else {
      BumpedNumeral(whole);
      GrowsNumeral(whole);
      PassPoint(head, dot);
      FixedParts(whole + 1, 0, p, point);
      LeadingFirst(Bumped(head), dot + Padded(0, p));
      assert Bumped(head) + dot + Padded(0, p) == Bumped(head) + (dot + Padded(0, p));
      assert Numeral(whole + 1) + dot + Padded(0, p) == Numeral(whole + 1) + (dot + Padded(0, p));
      assert (whole + 1) * Pow10(p) == whole * Pow10(p) + f + 1;
    }
  }

  lemma LeadingFirst(s: string, t: string)
    requires s != []
    ensures Leading(s + t) == Leading(s) + t && (s + t)[0] == s[0]
  {
  }

  lemma PassPoint(s: string, dot: string)
    requires dot == "." || dot == ""
    ensures Bumped(s + dot) == Bumped(s) + dot && (Grows(s + dot) <==> Grows(s))
  {
    if dot == "" {
      assert s + dot == s && Bumped(s) + dot == Bumped(s);
    } else {
      BumpedLast(s, '.');
      GrowsLast(s, '.');
    }
  }

  /** The digit behind the last one, and what is left behind that, decide the rounding. */
  lemma EvenByDigit(n: nat, u: nat, q: nat, rest: nat, r: nat, t: nat)
    requires u > 0 && n == q * u + rest && rest < u && 10 * rest == r * u + t && t < u
    ensures HalfEven(n, u) == if r > 5 || (r == 5 && (t != 0 || q % 2 == 1)) then q + 1 else q
  {
    Division(n, u, q, rest);
    Far(r - 5, u);
    assert 10 * rest - 5 * u == (r - 5) * u + t;
  }

  lemma StagedFirst(whole: nat, f: nat, p: nat, point: bool)
    ensures var text := Staged(whole, f, p, point); text != [] && text[0] == '\0' && Leading(text) == text[1..]
  {
  }

  lemma FixedPoint(q: nat, p: nat, point: bool)
    requires p > 0 || point
    ensures '.' in Fixed(q, p, point)
  {
    Quotient(q, Pow10(p));
    var whole := Numeral(q / Pow10(p));
    assert Fixed(q, p, point)[|whole|] == '.';
  }

  lemma {:induction false} ZerosBehind(s: string, t: string)
    requires '.' in t
    ensures WithoutZeros(s + t) == s + WithoutZeros(t) && '.' in WithoutZeros(t)
  {
    var u := s + t;
    assert u[|u| - 1] == t[|t| - 1];
    if t[|t| - 1] == '0' {
      var i :| 0 <= i < |t| && t[i] == '.';
      assert t[..|t| - 1][i] == '.';
      ZerosBehind(s, t[..|t| - 1]);
      assert u[..|u| - 1] == s + t[..|t| - 1];
    }
  }

  /** What is before a point stays. */
  lemma TrimmedBehind(s: string, t: string)
    requires '.' in t
    ensures Trimmed(s + t) == s + Trimmed(t) && '.' in s + t
  {
    ZerosBehind(s, t);
    var w := WithoutZeros(t);
    assert (s + w)[|s + w| - 1] == w[|w| - 1];
    assert (s + w)[..|s + w| - 1] == s + w[..|w| - 1];
  }

  // ----- Significant digits -----

  /** `n / u` times ten to the power of -`e`, as a fraction. */
  function Tenfold(n: nat, e: int): nat {
    n * Pow10(if e < 0 then -e else 0)
  }

  function Tenth(u: nat, e: int): (d: nat)
    ensures u > 0 ==> d > 0
  {
    Steps(u, Pow10(if e > 0 then e else 0));
    u * Pow10(if e > 0 then e else 0)
  }

  lemma Steps(x: nat, y: nat)
    ensures x > 0 && y > 0 ==> x * y > 0
  {
    if x > 0 && y > 0 {
      Times(x, y);
    }
  }

  /** The first significant digit of `n / u` counts ten to the power of `e`. */
  predicate Leads(n: nat, u: nat, e: int) {
    Tenth(u, e) <= Tenfold(n, e) < 10 * Tenth(u, e)
  }

  /** The digits of `n / u` rounded to `p + 1` significant ones, and the power of ten of the first. */
  function Significant(n: nat, u: nat, p: nat, e: int): (nat, int)
    requires u > 0
  {
    var q := HalfUp(Tenfold(n, e) * Pow10(p), Tenth(u, e));
    if q == Pow10(p + 1) then (Pow10(p), e + 1) else (q, e)
  }

  lemma {:induction false} NumeralPadded(n: nat)
    ensures Numeral(n) == Padded(n, |Numeral(n)|) && n < Pow10(|Numeral(n)|)
    ensures n > 0 ==> Pow10(|Numeral(n)| - 1) <= n
  {
    if n >= 10 {
      NumeralPadded(n / 10);
      NumeralLast(n);
    } else {
      assert Padded(n, 1) == Padded(n / 10, 0) + [Digit(n)];
      assert Pow10(1) == 10 * Pow10(0);
    }
  }

  lemma AppendStep(x: nat, f: nat, m: nat)
    requires m > 0
    ensures (x * Pow10(m) + f) / 10 == x * Pow10(m - 1) + f / 10 && (x * Pow10(m) + f) % 10 == f % 10
  {
    var y := x * Pow10(m - 1);
    Tens(x, Pow10(m - 1));
    assert x * Pow10(m) + f == 10 * (y + f / 10) + f % 10;
  }

  lemma EmptyFirst(s: string)
    ensures [] + s == s
  {
  }

  lemma {:induction false} PaddedAppend(x: nat, l: nat, f: nat, m: nat)
    requires f < Pow10(m)
    ensures Padded(x, l) + Padded(f, m) == Padded(x * Pow10(m) + f, l + m)
  {
    hide Padded, Digit;
    if m == 0 {
      NoneBumped(Padded(x, l));
      assert x * 1 + f == x;
    } else {
      PaddedAppend(x, l, f / 10, m - 1);
      PaddedLast(Padded(x, l), f, m);
      AppendStep(x, f, m);
      var v := x * Pow10(m) + f;
      PaddedLast([], v, l + m);
      EmptyFirst(Padded(v, l + m));
      EmptyFirst(Padded(v / 10, l + m - 1));
    }
  }

  lemma {:induction false} PaddedPrefix(a: nat, k: nat, j: nat)
    ensures 0 <= a / Pow10(j) && Padded(a, k + j)[..k] == Padded(a / Pow10(j), k)
  {
    Quotient(a, Pow10(j));
    Division(a, Pow10(j), a / Pow10(j), a % Pow10(j));
    PaddedAppend(a / Pow10(j), k, a % Pow10(j), j);
  }

  /** A digit more than is wanted decides the rounding. */
  lemma UpByDigit(n: nat, d: nat, b: nat, s: nat)
    requires d > 0 && 10 * n == b * d + s && s < d
    ensures HalfUp(n, d) == if b % 10 >= 5 then b / 10 + 1 else b / 10
  {
    var c, g := b / 10, b % 10;
    var r := n - c * d;
    assert b * d == 10 * (c * d) + g * d;
    assert 10 * r == g * d + s;
    Far(g - 5, d);
    Far(g - 10, d);
    Times(g, d);
    assert g * d - 5 * d == (g - 5) * d && g * d - 10 * d == (g - 10) * d;
    Division(n, d, c, r);
  }

  /** Beyond the first significant digit there is nothing. */
  lemma NothingBeyond(n: nat, u: nat, e: int)
    requires u > 0 && Tenfold(n, e) < 10 * Tenth(u, e)
    ensures Tenfold(n, e + 1) < Tenth(u, e + 1)
  {
    if e >= 0 {
      Tens(u, Pow10(e));
      assert Tenth(u, e + 1) == 10 * Tenth(u, e) && Tenfold(n, e + 1) == Tenfold(n, e);
    } else {
      Tens(n, Pow10(-e - 1));
      assert Tenfold(n, e) == 10 * Tenfold(n, e + 1) && Tenth(u, e + 1) == Tenth(u, e);
    }
  }

  lemma {:induction false} LeadsOnce(n: nat, u: nat, e: int, e': int)
    requires u > 0 && Tenfold(n, e) < 10 * Tenth(u, e) && e < e'
    ensures !Leads(n, u, e')
    decreases e' - e
  {
    NothingBeyond(n, u, e);
    if e + 1 < e' {
      LeadsOnce(n, u, e + 1, e');
    }
  }

  /** A number has one first significant digit. */
  lemma LeadsUnique(n: nat, u: nat, e: int, e': int)
    requires u > 0 && Leads(n, u, e) && Leads(n, u, e')
    ensures e == e'
  {
    if e < e' {
      LeadsOnce(n, u, e, e');
    } else if e' < e {
      LeadsOnce(n, u, e', e);
    }
  }

  // ----- What a reader makes of the texts -----

  lemma DigitIs(d: nat)
    requires d < 10
    ensures Digit(d) == "0123456789"[d] && IsDigit(Digit(d)) && DigitValue(Digit(d)) == d
  {
    var s := "0123456789";
    assert s[0] == '0' && s[1] == '1' && s[2] == '2' && s[3] == '3' && s[4] == '4';
    assert s[5] == '5' && s[6] == '6' && s[7] == '7' && s[8] == '8' && s[9] == '9';
  }

  /** Where a character is first, or the end. */
  function IndexOf(s: string, c: char): (i: nat)
    ensures i <= |s| && (i < |s| ==> s[i] == c) && forall j :: 0 <= j < i ==> s[j] != c
  {
    if s == [] || s[0] == c then 0 else 1 + IndexOf(s[1..], c)
  }

  predicate AreDigits(s: string) {
    forall i :: 0 <= i < |s| ==> IsDigit(s[i])
  }

  /** Digits, and perhaps a point and more digits. */
  predicate IsNotation(s: string) {
    var i := IndexOf(s, '.');
    0 < i && AreDigits(s[..i]) && (i < |s| ==> AreDigits(s[i + 1..]))
  }

  /** How many digits stand behind the point. */
  function Places(s: string): nat {
    var i := IndexOf(s, '.');
    if i < |s| then |s| - i - 1 else 0
  }

  lemma IndexIs(s: string, c: char, i: nat)
    requires i < |s| && s[i] == c && forall j :: 0 <= j < i ==> s[j] != c
    ensures IndexOf(s, c) == i
  {
  }

  lemma IndexFirst(s: string, c: char)
    ensures var i := IndexOf(s, c); i <= |s| && (i < |s| ==> s[i] == c) && forall j :: 0 <= j < i ==> s[j] != c
  {
  }

  lemma NotIn(s: string, c: char)
    requires c !in s
    ensures IndexOf(s, c) == |s|
  {
  }

  /** Digits, a point if there is one, and digits. */
  lemma NotationOf(whole: string, f: string, p: nat, point: bool)
    requires whole != [] && AreDigits(whole) && AreDigits(f) && |f| == p
    ensures var s := whole + Point(p, point) + f;
      && IsNotation(s) && Places(s) == p && IndexOf(s, '.') == |whole| && ('.' in s <==> p > 0 || point)
  {
    var s := whole + Point(p, point) + f;
    if p > 0 || point {
      IndexIs(s, '.', |whole|);
      assert s[..|whole|] == whole && s[|whole| + 1..] == f;
    } else {
      assert s == whole;
      NotIn(s, '.');
      assert s[..|s|] == s;
    }
  }

  /** No zero in front, but the one of zero. */
  lemma {:induction false} NumeralShort(n: nat)
    ensures Numeral(n)[0] == '0' ==> n == 0 && |Numeral(n)| == 1
  {
    if n >= 10 {
      NumeralShort(n / 10);
    }
  }

  /** The fixed form is a notation with so many places for the number, without needless zeros in front. */
  lemma FixedNotation(q: nat, p: nat, point: bool)
    ensures var s := Fixed(q, p, point);
      && IsNotation(s) && Places(s) == p && Number(s) == q && ('.' in s <==> p > 0 || point)
      && (s[0] == '0' ==> IndexOf(s, '.') == 1)
  {
    hide Numeral, Padded;
    Quotient(q, Pow10(p));
    var whole := q / Pow10(p);
    FixedReads(q, p, point);
    NotationOf(Numeral(whole), Padded(q % Pow10(p), p), p, point);
    NumeralShort(whole);
  }

  /** A mantissa is a notation with one digit before the point. */
  lemma MantissaNotation(m: nat, p: nat, point: bool)
    requires m < Pow10(p + 1)
    ensures var s := Mantissa(m, p, point);
      && IsNotation(s) && Places(s) == p && Number(s) == m && ('.' in s <==> p > 0 || point) && IndexOf(s, '.') == 1
      && (m >= Pow10(p) ==> s[0] != '0')
  {
    hide Padded, Digit, Number, IndexOf, Places, IsNotation, Pow10;
    var d := Padded(m, p + 1);
    assert d == [d[0]] + d[1..] && d[..1] == [d[0]];
    NotationOf([d[0]], d[1..], p, point);
    MantissaParts(m, p);
    NumberParts(m / Pow10(p), m % Pow10(p), p, point);
    DigitIs(m / Pow10(p));
  }

  lemma MantissaParts(m: nat, p: nat)
    requires m < Pow10(p + 1)
    ensures 0 <= m / Pow10(p) < 10 && 0 <= m % Pow10(p) < Pow10(p) && m == m / Pow10(p) * Pow10(p) + m % Pow10(p)
    ensures Padded(m, p + 1) == [Digit(m / Pow10(p))] + Padded(m % Pow10(p), p)
    ensures m >= Pow10(p) ==> m / Pow10(p) > 0
  {
    var d := Pow10(p);
    assert Pow10(p + 1) == 10 * d;
    hide Padded, Digit, Pow10;
    Quotient(m, d);
    var q, r := m / d, m % d;
    FirstBound(m, d, q, r);
    PaddedAppend(q, 1, r, p);
    PaddedOne(q);
  }

  lemma FirstBound(m: nat, d: nat, q: nat, r: nat)
    requires m == q * d + r && r < d && m < 10 * d
    ensures q < 10 && (m >= d ==> q > 0)
  {
    Far(q - 10, d);
    assert q * d - 10 * d == (q - 10) * d;
    Times(q - 10, d);
  }

  lemma PaddedOne(d: nat)
    requires d < 10
    ensures Padded(d, 1) == [Digit(d)]
  {
    hide Digit;
    assert d / 10 == 0 && d % 10 == d && Padded(0, 0) == "";
    assert "" + [Digit(d)] == [Digit(d)];
  }

  lemma NumberParts(d: nat, f: nat, p: nat, point: bool)
    requires d < 10 && f < Pow10(p)
    ensures Number([Digit(d)] + Point(p, point) + Padded(f, p)) == d * Pow10(p) + f
  {
    hide Padded;
    var head := [Digit(d)];
    assert head[..0] == [] && Number(head) == d;
    var dotted := head + Point(p, point);
    if p > 0 || point {
      assert dotted[..|dotted| - 1] == head;
    } else {
      assert dotted == head;
    }
    NumberPadded(dotted, f, p);
  }

  /** Trimming leaves the number as it is, and no needless place. */
  lemma TrimmedNotation(s: string)
    requires IsNotation(s) && '.' in s
    ensures var t := Trimmed(s);
      && IsNotation(t) && Places(t) <= Places(s) && Number(s) == Number(t) * Pow10(Places(s) - Places(t))
      && t[..IndexOf(t, '.')] == s[..IndexOf(s, '.')]
      && (if Places(t) > 0 then t[|t| - 1] != '0' else '.' !in t)
  {
    hide Number, Pow10, IsNotation;
    var i, w := IndexOf(s, '.'), WithoutZeros(s);
    ZerosStop(s, i);
    ZerosNumber(s, i);
    ZerosEnd(s);
    NotationFront(s, |w|);
    if w[|w| - 1] == '.' {
      NotationWhole(s);
      OnePoint(s, |w| - 1);
      PointNumber(w);
      assert w[..|w| - 1] == s[..i];
    }
  }

  lemma OnePoint(s: string, j: nat)
    requires IsNotation(s) && j < |s| && s[j] == '.'
    ensures j == IndexOf(s, '.')
  {
    hide IndexOf, AreDigits;
    var i := IndexOf(s, '.');
    if i < |s| {
      forall k | i < k < |s|
        ensures s[k] != '.'
      {
        NoPoint(s[i + 1..], k - i - 1);
      }
    }
  }

  lemma NoPoint(s: string, k: nat)
    requires AreDigits(s) && k < |s|
    ensures s[k] != '.'
  {
  }

  lemma DigitsFront(s: string, n: nat)
    requires AreDigits(s) && n <= |s|
    ensures AreDigits(s[..n])
  {
  }

  lemma NotationFront(s: string, n: nat)
    requires IsNotation(s) && IndexOf(s, '.') < n <= |s|
    ensures IsNotation(s[..n]) && IndexOf(s[..n], '.') == IndexOf(s, '.') && s[..n][..IndexOf(s, '.')] == s[..IndexOf(s, '.')]
  {
    hide IndexOf, AreDigits;
    var i := IndexOf(s, '.');
    IndexFirst(s, '.');
    IndexIs(s[..n], '.', i);
    DigitsFront(s[i + 1..], n - i - 1);
    assert s[..n][..i] == s[..i] && s[..n][i + 1..] == s[i + 1..][..n - i - 1];
  }

  lemma NotationWhole(s: string)
    requires IsNotation(s)
    ensures var t := s[..IndexOf(s, '.')]; IsNotation(t) && IndexOf(t, '.') == |t| && '.' !in t && t[..|t|] == t
  {
    var t := s[..IndexOf(s, '.')];
    assert t[..|t|] == t;
    NotIn(t, '.');
  }

  /** The zeros end before the point. */
  lemma {:induction false} ZerosStop(s: string, i: nat)
    requires i < |s| && s[i] == '.'
    ensures i < |WithoutZeros(s)|
  {
    if s[|s| - 1] == '0' {
      ZerosStop(s[..|s| - 1], i);
    }
  }

  lemma {:induction false} ZerosEnd(s: string)
    ensures var t := WithoutZeros(s); t != [] ==> t[|t| - 1] != '0'
  {
    if s != [] && s[|s| - 1] == '0' {
      ZerosEnd(s[..|s| - 1]);
    }
  }

  lemma {:induction false} ZerosNumber(s: string, i: nat)
    requires i < |s| && s[i] == '.'
    ensures |WithoutZeros(s)| <= |s| && Number(s) == Number(WithoutZeros(s)) * Pow10(|s| - |WithoutZeros(s)|)
  {
    if s[|s| - 1] == '0' {
      var t := s[..|s| - 1];
      ZerosNumber(t, i);
      Tens(Number(WithoutZeros(s)), Pow10(|t| - |WithoutZeros(s)|));
    }
  }

  lemma PointNumber(s: string)
    requires s != [] && s[|s| - 1] == '.'
    ensures Number(s) == Number(s[..|s| - 1])
  {
  }

  // ----- Scientific notation -----

  /** Where the letter before the exponent is. */
  function MarkAt(s: string): nat {
    var i, j := IndexOf(s, 'e'), IndexOf(s, 'E');
    if i < j then i else j
  }

  /** A notation, a letter, a sign, and at least two digits; more than two only if they are needed. */
  predicate IsScientificNotation(s: string) {
    var i := MarkAt(s);
    && i + 3 < |s| && IsNotation(s[..i]) && IndexOf(s[..i], '.') == 1
    && s[i + 1] in {'+', '-'} && AreDigits(s[i + 2..]) && (i + 4 < |s| ==> s[i + 2] != '0')
  }

  /** The power of ten that the digits behind the sign name. */
  function ReadExponent(s: string): int
    requires IsScientificNotation(s)
  {
    var i := MarkAt(s);
    if s[i + 1] == '-' then 0 - Number(s[i + 2..]) else Number(s[i + 2..])
  }

  lemma ExponentDigits(x: nat)
    ensures var s := Exponent(x); |s| >= 2 && AreDigits(s) && Number(s) == x && (|s| > 2 ==> s[0] != '0')
  {
    NumeralReads(x);
    NumeralShort(x);
    if x < 10 {
      DigitIs(x);
      var s := Exponent(x);
      assert s[..1] == ['0'] && ['0'][..0] == [];
    }
  }

  /** A mantissa with an exponent reads as these: the number of the one, the power of the other. */
  lemma ScientificReads(mantissa: string, e: int, large: bool)
    requires IsNotation(mantissa) && IndexOf(mantissa, '.') == 1
    ensures var s := Scientific(mantissa, e, large);
      && IsScientificNotation(s) && s[..MarkAt(s)] == mantissa && ReadExponent(s) == e
      && s[MarkAt(s)] == (if large then 'E' else 'e') && (s[MarkAt(s) + 1] == '+' <==> e >= 0)
  {
    hide Exponent, Number;
    var s, i := Scientific(mantissa, e, large), |mantissa|;
    var x := Exponent(if e >= 0 then e else -e);
    ExponentDigits(if e >= 0 then e else -e);
    NotationPlain(mantissa);
    assert s[..i] == mantissa && s[i + 2..] == x;
    assert forall j :: 0 <= j < i ==> s[j] == mantissa[j];
    if large {
      IndexIs(s, 'E', i);
    } else {
      IndexIs(s, 'e', i);
    }
    assert MarkAt(s) == i;
  }

  lemma NotationPlain(s: string)
    requires IsNotation(s)
    ensures 'e' !in s && 'E' !in s
  {
    var i := IndexOf(s, '.');
    forall j | 0 <= j < |s|
      ensures IsDigit(s[j]) || s[j] == '.'
    {
      if j < i {
        assert s[j] == s[..i][j];
      } else if j > i {
        assert s[j] == s[i + 1..][j - i - 1];
      }
    }
  }

  /**
   * The significant digits of `n / u`, with the power of ten of the first, are so many, and there is no number
   * of as many digits, from that power on, which is nearer; a number half a step away is below.
   */
  lemma SignificantNearest(n: nat, u: nat, p: nat, e: int)
    requires u > 0 && Leads(n, u, e)
    ensures var (m, x) := Significant(n, u, p, e);
      && (x == e || (x == e + 1 && m == Pow10(p))) && Pow10(p) <= m < Pow10(p + 1)
      && var q, t := if x == e then m else 10 * m, Tenth(u, e);
        2 * (q * t) - t <= 2 * (Tenfold(n, e) * Pow10(p)) < 2 * (q * t) + t
  {
    hide Tenfold, Tenth;
    var a, t := Tenfold(n, e), Tenth(u, e);
    var q := HalfUp(a * Pow10(p), t);
    NearestUp(a * Pow10(p), t, q);
    Doubled(q, 0, t);
    SignificantRange(a, t, Pow10(p), q);
  }

  lemma SignificantRange(a: nat, t: nat, w: nat, q: nat)
    requires t > 0 && t <= a < 10 * t && w > 0 && 2 * (q * t) - t <= 2 * (a * w) < 2 * (q * t) + t
    ensures w <= q <= 10 * w
  {
    ScaledBounds(t, a, w);
    Doubled(q, w, t);
    Cancel(2 * w, 2 * q + 1, t);
    Cancel(2 * q - 1, 20 * w, t);
  }

  lemma ScaledBounds(t: nat, a: nat, w: nat)
    requires t <= a < 10 * t && w > 0
    ensures w * t <= a * w < 10 * (w * t)
  {
    Scale(t, a, w);
    Scale(a + 1, 10 * t, w);
  }

  lemma Doubled(q: nat, w: nat, t: nat)
    ensures (2 * q + 1) * t == 2 * (q * t) + t && (2 * q - 1) * t == 2 * (q * t) - t
    ensures 2 * w * t == 2 * (w * t) && 20 * w * t == 20 * (w * t)
  {
  }

  lemma Scale(x: nat, y: nat, k: nat)
    requires x <= y
    ensures x * k <= y * k
  {
  }

  lemma Cancel(x: int, y: int, t: nat)
    requires t > 0
    ensures x * t < y * t ==> x < y
  {
    var d := y - x;
    assert d * t == y * t - x * t;
    Times(d, t);
    Far(d, t);
  }
}
