/** Sets of words and the operations regular expressions denote. */
module Languages {
  import opened Bytes

  type Lang = iset<Word>

  ghost const EPSILON: Lang := iset{[]}

  ghost predicate Splits(a: Lang, b: Lang, w: Word, k: nat) {
    k <= |w| && w[..k] in a && w[k..] in b
  }

  ghost predicate InConcat(a: Lang, b: Lang, w: Word) {
    exists k: nat :: Splits(a, b, w, k)
  }

  ghost function Concat(a: Lang, b: Lang): Lang {
    iset w: Word | InConcat(a, b, w)
  }

  /** Exactly `n` words of `a`, one after another. */
  ghost function Power(a: Lang, n: nat): Lang {
    if n == 0 then EPSILON else Concat(a, Power(a, n - 1))
  }

  /** Between `lo` and `hi` words of `a`; no upper bound if `hi` is `None`. */
  ghost function Between(a: Lang, lo: nat, hi: Option<nat>): Lang {
    iset w: Word | InBetween(a, lo, hi, w)
  }

  ghost predicate InBetween(a: Lang, lo: nat, hi: Option<nat>, w: Word) {
    exists n: nat :: lo <= n && (hi.Some? ==> n <= hi.value) && w in Power(a, n)
  }

  ghost function PlusOf(a: Lang): Lang {
    Between(a, 1, None)
  }

  ghost function StarOf(a: Lang): Lang {
    Between(a, 0, None)
  }

  lemma ConcatIntro(a: Lang, b: Lang, u: Word, v: Word)
    requires u in a && v in b
    ensures u + v in Concat(a, b)
  {
    assert (u + v)[..|u|] == u && (u + v)[|u|..] == v;
    assert Splits(a, b, u + v, |u|);
    assert InConcat(a, b, u + v);
  }

  lemma ConcatElim(a: Lang, b: Lang, w: Word) returns (u: Word, v: Word)
    requires w in Concat(a, b)
    ensures w == u + v && u in a && v in b
  {
    assert InConcat(a, b, w);
    var k: nat :| Splits(a, b, w, k);
    u, v := w[..k], w[k..];
  }

  lemma ConcatUnitLeft(a: Lang)
    ensures Concat(EPSILON, a) == a
  {
    forall w
      ensures w in Concat(EPSILON, a) <==> w in a
    {
      if w in Concat(EPSILON, a) {
        var u, v := ConcatElim(EPSILON, a, w);
        assert u + v == v;
      }
      if w in a {
        assert [] + w == w;
        ConcatIntro(EPSILON, a, [], w);
      }
    }
  }

  lemma ConcatUnitRight(a: Lang)
    ensures Concat(a, EPSILON) == a
  {
    forall w
      ensures w in Concat(a, EPSILON) <==> w in a
    {
      if w in Concat(a, EPSILON) {
        var u, v := ConcatElim(a, EPSILON, w);
        assert u + v == u;
      }
      if w in a {
        assert w + [] == w;
        ConcatIntro(a, EPSILON, w, []);
      }
    }
  }

  lemma ConcatAssoc(a: Lang, b: Lang, c: Lang)
    ensures Concat(Concat(a, b), c) == Concat(a, Concat(b, c))
  {
    forall w | w in Concat(Concat(a, b), c)
      ensures w in Concat(a, Concat(b, c))
    {
      var uv, z := ConcatElim(Concat(a, b), c, w);
      var u, v := ConcatElim(a, b, uv);
      ConcatIntro(b, c, v, z);
      ConcatIntro(a, Concat(b, c), u, v + z);
      assert u + (v + z) == w;
    }
    forall w | w in Concat(a, Concat(b, c))
      ensures w in Concat(Concat(a, b), c)
    {
      var u, vz := ConcatElim(a, Concat(b, c), w);
      var v, z := ConcatElim(b, c, vz);
      ConcatIntro(a, b, u, v);
      ConcatIntro(Concat(a, b), c, u + v, z);
      assert (u + v) + z == w;
    }
  }

  lemma PowerOne(a: Lang)
    ensures Power(a, 1) == a
  {
    assert Power(a, 1) == Concat(a, Power(a, 0)) == Concat(a, EPSILON);
    ConcatUnitRight(a);
  }

  lemma BetweenIntro(a: Lang, lo: nat, hi: Option<nat>, n: nat, w: Word)
    requires lo <= n && (hi.Some? ==> n <= hi.value) && w in Power(a, n)
    ensures w in Between(a, lo, hi)
  {
    assert InBetween(a, lo, hi, w);
  }

  lemma BetweenElim(a: Lang, lo: nat, hi: Option<nat>, w: Word) returns (n: nat)
    requires w in Between(a, lo, hi)
    ensures lo <= n && (hi.Some? ==> n <= hi.value) && w in Power(a, n)
  {
    assert InBetween(a, lo, hi, w);
    n :| lo <= n && (hi.Some? ==> n <= hi.value) && w in Power(a, n);
  }

  lemma BetweenNone(a: Lang)
    ensures Between(a, 0, Some(0)) == EPSILON
  {
    forall w
      ensures w in Between(a, 0, Some(0)) <==> w in EPSILON
    {
      if w in EPSILON {
        BetweenIntro(a, 0, Some(0), 0, w);
      }
      if w in Between(a, 0, Some(0)) {
        var n := BetweenElim(a, 0, Some(0), w);
      }
    }
  }

  /** x{0,hi} is the empty word or x{1,hi}. */
  lemma BetweenZero(a: Lang, hi: Option<nat>)
    requires hi.Some? ==> hi.value >= 1
    ensures Between(a, 0, hi) == Between(a, 1, hi) + EPSILON
  {
    forall w | w in Between(a, 0, hi)
      ensures w in Between(a, 1, hi) + EPSILON
    {
      var n := BetweenElim(a, 0, hi, w);
    }
    forall w | w in Between(a, 1, hi) + EPSILON
      ensures w in Between(a, 0, hi)
    {
      if w in Between(a, 1, hi) {
        var n := BetweenElim(a, 1, hi, w);
        BetweenIntro(a, 0, hi, n, w);
      } else {
        BetweenIntro(a, 0, hi, 0, w);
      }
    }
  }

  lemma BetweenOne(a: Lang)
    ensures Between(a, 1, Some(1)) == a
  {
    PowerOne(a);
    forall w
      ensures w in Between(a, 1, Some(1)) <==> w in a
    {
      if w in a {
        BetweenIntro(a, 1, Some(1), 1, w);
      }
      if w in Between(a, 1, Some(1)) {
        var n := BetweenElim(a, 1, Some(1), w);
        assert n == 1;
      }
    }
  }

  function Less(hi: Option<nat>): Option<nat>
    requires hi.Some? ==> hi.value >= 1
  {
    if hi.None? then None else Some(hi.value - 1)
  }

  /** x{m,n} is x x{m-1,n-1}. */
  lemma BetweenPeel(a: Lang, lo: nat, hi: Option<nat>)
    requires lo >= 1 && (hi.Some? ==> hi.value >= 1)
    ensures Between(a, lo, hi) == Concat(a, Between(a, lo - 1, Less(hi)))
  {
    forall w | w in Between(a, lo, hi)
      ensures w in Concat(a, Between(a, lo - 1, Less(hi)))
    {
      var n := BetweenElim(a, lo, hi, w);
      var u, v := ConcatElim(a, Power(a, n - 1), w);
      BetweenIntro(a, lo - 1, Less(hi), n - 1, v);
      ConcatIntro(a, Between(a, lo - 1, Less(hi)), u, v);
    }
    forall w | w in Concat(a, Between(a, lo - 1, Less(hi)))
      ensures w in Between(a, lo, hi)
    {
      var u, v := ConcatElim(a, Between(a, lo - 1, Less(hi)), w);
      var n := BetweenElim(a, lo - 1, Less(hi), v);
      ConcatIntro(a, Power(a, n), u, v);
      BetweenIntro(a, lo, hi, n + 1, w);
    }
  }

  /** x{1,n} is x? x{1,n-1} once n is at least two. */
  lemma BetweenOptional(a: Lang, hi: nat)
    requires hi >= 2
    ensures Between(a, 1, Some(hi)) == Concat(a + EPSILON, Between(a, 1, Some(hi - 1)))
  {
    var shorter := Between(a, 1, Some(hi - 1));
    forall w | w in Between(a, 1, Some(hi))
      ensures w in Concat(a + EPSILON, shorter)
    {
      var n := BetweenElim(a, 1, Some(hi), w);
      if n == hi {
        var u, v := ConcatElim(a, Power(a, n - 1), w);
        BetweenIntro(a, 1, Some(hi - 1), n - 1, v);
        ConcatIntro(a + EPSILON, shorter, u, v);
      } else {
        BetweenIntro(a, 1, Some(hi - 1), n, w);
        ConcatIntro(a + EPSILON, shorter, [], w);
        assert [] + w == w;
      }
    }
    forall w | w in Concat(a + EPSILON, shorter)
      ensures w in Between(a, 1, Some(hi))
    {
      var u, v := ConcatElim(a + EPSILON, shorter, w);
      var n := BetweenElim(a, 1, Some(hi - 1), v);
      if u in a {
        ConcatIntro(a, Power(a, n), u, v);
        BetweenIntro(a, 1, Some(hi), n + 1, w);
      } else {
        assert w == v;
        BetweenIntro(a, 1, Some(hi), n, w);
      }
    }
  }

  /** One more word in front of any number of words. */
  lemma StarUnfold(a: Lang)
    ensures Concat(a, StarOf(a)) == PlusOf(a)
    ensures PlusOf(a) <= StarOf(a)
    ensures [] in StarOf(a)
  {
    BetweenPeel(a, 1, None);
    BetweenIntro(a, 0, None, 0, []);
  }
}
