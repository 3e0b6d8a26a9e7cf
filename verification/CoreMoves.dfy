/** The words leading through the code of an expression are exactly its language. */
module CoreMoves {
  import opened Bytes
  import opened Languages
  import opened Strip
  import opened Core

  // ----- Where the operators of a piece of code stand -----

  lemma AtBracketed(strip: seq<Sop>, lo: nat, open: Sop, code: seq<Sop>, close: Sop)
    requires At(strip, lo, [open] + code + [close])
    ensures strip[lo] == open && At(strip, lo + 1, code) && strip[lo + 1 + |code|] == close
  {
    AtSplit(strip, lo, [open] + code, [close]);
    AtSplit(strip, lo, [open], code);
    AtIndex(strip, lo, [open], 0);
    AtIndex(strip, lo + 1 + |code|, [close], 0);
  }

  lemma AtFront(strip: seq<Sop>, lo: nat, front: seq<Sop>, code: seq<Sop>, back: nat, n: nat)
    requires At(strip, lo, front + (code + [OOr1(back), OOr2(n)]))
    ensures lo + |front| + |code| + 2 <= |strip|
    ensures At(strip, lo, front) && At(strip, lo + |front|, code)
    ensures strip[lo + |front| + |code|] == OOr1(back) && strip[lo + |front| + |code| + 1] == OOr2(n)
  {
    var ends := [OOr1(back), OOr2(n)];
    AtSplit(strip, lo, front, code + ends);
    AtSplit(strip, lo + |front|, code, ends);
    AtIndex(strip, lo + |front| + |code|, ends, 0);
    AtIndex(strip, lo + |front| + |code|, ends, 1);
  }

  lemma AtEnd(strip: seq<Sop>, lo: nat, front: seq<Sop>, code: seq<Sop>, close: Sop)
    requires At(strip, lo, front + (code + [close]))
    ensures lo + |front| + |code| < |strip|
    ensures At(strip, lo, front) && At(strip, lo + |front|, code) && strip[lo + |front| + |code|] == close
  {
    AtSplit(strip, lo, front, code + [close]);
    AtSplit(strip, lo + |front|, code, [close]);
    AtIndex(strip, lo + |front| + |code|, [close], 0);
  }

  lemma AtOne(strip: seq<Sop>, lo: nat, op: Sop)
    requires At(strip, lo, Code(One(op)))
    ensures Len(One(op)) == 1 && lo < |strip| && strip[lo] == op
  {
    AtIndex(strip, lo, [op], 0);
  }

  lemma AtSeq(strip: seq<Sop>, lo: nat, l: Core, r: Core)
    requires At(strip, lo, Code(Seq(l, r)))
    ensures Len(Seq(l, r)) == Len(l) + Len(r)
    ensures At(strip, lo, Code(l)) && At(strip, lo + Len(l), Code(r))
  {
    AtSplit(strip, lo, Code(l), Code(r));
  }

  lemma AtPlus(strip: seq<Sop>, lo: nat, b: Core)
    requires At(strip, lo, Code(Plus(b)))
    ensures Len(Plus(b)) == Len(b) + 2 && lo + Len(b) + 2 <= |strip|
    ensures strip[lo].OPlusOpen? && At(strip, lo + 1, Code(b)) && strip[lo + 1 + Len(b)] == OPlusClose(Len(b) + 1)
  {
    AtBracketed(strip, lo, OPlusOpen(Len(b) + 1), Code(b), OPlusClose(Len(b) + 1));
  }

  lemma AtQuest(strip: seq<Sop>, lo: nat, b: Core)
    requires At(strip, lo, Code(Quest(b)))
    ensures Len(Quest(b)) == Len(b) + 2 && lo + Len(b) + 2 <= |strip|
    ensures strip[lo] == OQuestOpen(Len(b) + 1) && At(strip, lo + 1, Code(b)) && strip[lo + 1 + Len(b)].OQuestClose?
  {
    AtBracketed(strip, lo, OQuestOpen(Len(b) + 1), Code(b), OQuestClose(Len(b) + 1));
  }

  lemma AtParen(strip: seq<Sop>, lo: nat, no: nat, b: Core)
    requires At(strip, lo, Code(Paren(no, b)))
    ensures Len(Paren(no, b)) == Len(b) + 2 && lo + Len(b) + 2 <= |strip|
    ensures strip[lo].OLParen? && At(strip, lo + 1, Code(b)) && strip[lo + 1 + Len(b)].ORParen?
  {
    AtBracketed(strip, lo, OLParen(no), Code(b), ORParen(no));
  }

  lemma AtChoice(strip: seq<Sop>, lo: nat, a: Alts, l: Core)
    requires At(strip, lo, Code(Choice(a, l)))
    ensures Len(Choice(a, l)) == LenAlts(a) + Len(l) + 1 && lo + LenAlts(a) + Len(l) + 1 <= |strip|
    ensures At(strip, lo, CodeAlts(a, Len(l) + 1)) && At(strip, lo + LenAlts(a), Code(l))
    ensures strip[lo + LenAlts(a) + Len(l)].OChoiceClose?
  {
    hide At, Code, CodeAlts;
    CodeChoice(a, l);
    AtEnd(strip, lo, CodeAlts(a, Len(l) + 1), Code(l), OChoiceClose(Len(l) + 2));
  }

  lemma CodeChoice(a: Alts, l: Core)
    ensures Code(Choice(a, l)) == CodeAlts(a, Len(l) + 1) + (Code(l) + [OChoiceClose(Len(l) + 2)])
    ensures |CodeAlts(a, Len(l) + 1)| == LenAlts(a) && Len(Choice(a, l)) == LenAlts(a) + Len(l) + 1
  {
    hide CodeAlts;
    LenAltsAny(a, Len(l) + 1);
  }

  lemma AtFirst(strip: seq<Sop>, lo: nat, b: Core, n: nat)
    requires At(strip, lo, CodeAlts(First(b), n))
    ensures LenAlts(First(b)) == Len(b) + 3 && lo + Len(b) + 3 <= |strip|
    ensures strip[lo] == OChoiceOpen(Len(b) + 2) && At(strip, lo + 1, Code(b))
    ensures strip[lo + 1 + Len(b)].OOr1? && strip[lo + 2 + Len(b)] == OOr2(n)
  {
    hide Code, At;
    AtFront(strip, lo, [OChoiceOpen(Len(b) + 2)], Code(b), Len(b) + 1, n);
    AtIndex(strip, lo, [OChoiceOpen(Len(b) + 2)], 0);
  }

  lemma AtThen(strip: seq<Sop>, lo: nat, before: Alts, b: Core, n: nat)
    requires At(strip, lo, CodeAlts(Then(before, b), n))
    ensures LenAlts(Then(before, b)) == LenAlts(before) + Len(b) + 2 && lo + LenAlts(before) + Len(b) + 2 <= |strip|
    ensures At(strip, lo, CodeAlts(before, Len(b) + 2))
    ensures At(strip, lo + LenAlts(before), Code(b))
    ensures strip[lo + LenAlts(before) + Len(b)].OOr1? && strip[lo + LenAlts(before) + Len(b) + 1] == OOr2(n)
  {
    hide Code, CodeAlts, At;
    var front := CodeAlts(before, Len(b) + 2);
    CodeThen(before, b, n);
    LenAltsAny(before, Len(b) + 2);
    LenAltsAny(Then(before, b), n);
    AtFront(strip, lo, front, Code(b), Len(b) + 2, n);
  }

  lemma CodeThen(before: Alts, b: Core, n: nat)
    ensures CodeAlts(Then(before, b), n) == CodeAlts(before, Len(b) + 2) + (Code(b) + [OOr1(Len(b) + 2), OOr2(n)])
    ensures |CodeAlts(Then(before, b), n)| == |CodeAlts(before, Len(b) + 2)| + Len(b) + 2
  {
    hide Code;
  }

  // ----- The words that remain, case by case -----

  lemma RestSeq(l: Core, r: Core, sets: seq<set<byte>>, k: nat)
    requires k <= Len(l) + Len(r)
    ensures k <= Len(l) ==> Rest(Seq(l, r), sets, k) == Concat(Rest(l, sets, k), Words(r, sets))
    ensures k >= Len(l) ==> Rest(Seq(l, r), sets, k) == Rest(r, sets, k - Len(l))
  {
    hide Code, Words, Concat;
    assert Len(Seq(l, r)) == Len(l) + Len(r) by { LenSeq(l, r); }
    if k >= Len(l) {
      RestEnds(r, sets);
      if k == Len(l) {
        RestEnds(l, sets);
        ConcatUnitLeft(Words(r, sets));
      }
    }
  }

  lemma LenSeq(l: Core, r: Core)
    ensures Len(Seq(l, r)) == Len(l) + Len(r)
  {
  }

  lemma RestPlus(b: Core, sets: seq<set<byte>>, k: nat)
    requires k <= Len(b) + 2
    ensures k == 0 ==> Rest(Plus(b), sets, k) == PlusOf(Words(b, sets))
    ensures 0 < k < Len(b) + 2 ==> Rest(Plus(b), sets, k) == Concat(Rest(b, sets, k - 1), StarOf(Words(b, sets)))
    ensures k == Len(b) + 1 ==> Rest(Plus(b), sets, k) == StarOf(Words(b, sets))
    ensures k == Len(b) + 2 ==> Rest(Plus(b), sets, k) == EPSILON
  {
    assert Len(Plus(b)) == Len(b) + 2;
    if k == Len(b) + 1 {
      RestEnds(b, sets);
      ConcatUnitLeft(StarOf(Words(b, sets)));
    }
  }

  /** A bracketed body whose entry has language `all`: Quest and Paren. */
  lemma RestBracketed(e: Core, b: Core, sets: seq<set<byte>>, k: nat)
    requires e == Quest(b) || (e.Paren? && e.body == b)
    requires k <= Len(b) + 2
    ensures k == 0 ==> Rest(e, sets, k) == Words(e, sets)
    ensures 0 < k < Len(b) + 2 ==> Rest(e, sets, k) == Rest(b, sets, k - 1)
    ensures k > Len(b) ==> Rest(e, sets, k) == EPSILON
  {
    assert Len(e) == Len(b) + 2;
    RestEnds(b, sets);
  }

  lemma RestChoice(a: Alts, l: Core, sets: seq<set<byte>>, k: nat)
    requires k <= LenAlts(a) + Len(l) + 1
    ensures k < LenAlts(a) ==> Rest(Choice(a, l), sets, k) == RestAlts(a, sets, k, Words(l, sets))
    ensures LenAlts(a) <= k <= LenAlts(a) + Len(l) ==> Rest(Choice(a, l), sets, k) == Rest(l, sets, k - LenAlts(a))
    ensures k >= LenAlts(a) + Len(l) ==> Rest(Choice(a, l), sets, k) == EPSILON
  {
    hide Words, Rest, RestAlts, Code, CodeAlts;
    CodeChoice(a, l);
    RestChoiceIs(a, l, sets, k);
    RestEnds(l, sets);
  }

  lemma RestChoiceIs(a: Alts, l: Core, sets: seq<set<byte>>, k: nat)
    ensures Rest(Choice(a, l), sets, k) ==
      if k >= Len(Choice(a, l)) then EPSILON
      else if k < LenAlts(a) then RestAlts(a, sets, k, Words(l, sets)) else Rest(l, sets, k - LenAlts(a))
  {
    hide Words, RestAlts, Len, LenAlts;
  }

  lemma RestFirst(b: Core, sets: seq<set<byte>>, k: nat, after: Lang)
    requires k < Len(b) + 3
    ensures k == 0 ==> RestAlts(First(b), sets, k, after) == Words(b, sets) + after
    ensures 0 < k < Len(b) + 2 ==> RestAlts(First(b), sets, k, after) == Rest(b, sets, k - 1)
    ensures k == Len(b) + 1 ==> RestAlts(First(b), sets, k, after) == EPSILON
    ensures k == Len(b) + 2 ==> RestAlts(First(b), sets, k, after) == after
  {
    RestEnds(b, sets);
  }

  lemma RestThen(before: Alts, b: Core, sets: seq<set<byte>>, k: nat, after: Lang)
    requires k < LenAlts(before) + Len(b) + 2
    ensures k < LenAlts(before) ==> RestAlts(Then(before, b), sets, k, after) == RestAlts(before, sets, k, Words(b, sets) + after)
    ensures LenAlts(before) <= k <= LenAlts(before) + Len(b) ==>
      RestAlts(Then(before, b), sets, k, after) == Rest(b, sets, k - LenAlts(before))
    ensures k == LenAlts(before) + Len(b) ==> RestAlts(Then(before, b), sets, k, after) == EPSILON
    ensures k == LenAlts(before) + Len(b) + 1 ==> RestAlts(Then(before, b), sets, k, after) == after
  {
    hide Words, Code, Rest;
    RestEnds(b, sets);
  }

  // ----- No move spells a word outside the language -----

  /** A move spelling `u` that leaves the remainder `to` of a remainder `from`. */
  ghost predicate Keeps(from: Lang, u: Word, to: Lang) {
    forall v :: v in to ==> u + v in from
  }

  lemma KeepsConcat(from: Lang, u: Word, to: Lang, tail: Lang)
    requires Keeps(from, u, to)
    ensures Keeps(Concat(from, tail), u, Concat(to, tail))
  {
    forall v | v in Concat(to, tail)
      ensures u + v in Concat(from, tail)
    {
      var x, y := ConcatElim(to, tail, v);
      ConcatIntro(from, tail, u + x, y);
      assert (u + x) + y == u + v;
    }
  }

  lemma KeepsSubset(from: Lang, u: Word, to: Lang)
    requires to <= from && u == []
    ensures Keeps(from, u, to)
  {
    forall v | v in to
      ensures u + v in from
    {
      assert u + v == v;
    }
  }

  lemma KeepsOne(g: Guts, lo: nat, hi: nat, i: nat, u: Word, j: nat)
    requires Move(g, lo, hi, i, u, j) && Atomic(g.strip[i])
    ensures j == i + 1 && Keeps(Words(One(g.strip[i]), g.sets), u, EPSILON)
  {
    assert u == [u[0]];
    assert u + [] == u;
  }

  /** What the move out of an operator that reads nothing can be. */
  lemma EmptyMove(g: Guts, lo: nat, hi: nat, i: nat, u: Word, j: nat)
    requires Move(g, lo, hi, i, u, j) && !Consumes(g.strip[i])
    ensures u == [] && Empty(g.strip, i, j)
  {
  }

  lemma ChoiceEndStep(strip: seq<Sop>, p: nat)
    requires p < |strip|
    ensures strip[p].OChoiceClose? ==> ChoiceEnd(strip, p) == Some(p)
    ensures strip[p].OOr2? && strip[p].fwd > 0 ==> ChoiceEnd(strip, p) == ChoiceEnd(strip, p + strip[p].fwd)
  {
  }

  /** Every move out of the code of `e` stays within it or reaches its end, and keeps the remainder. */
  lemma {:induction false} MoveKeeps(g: Guts, lo: nat, hi: nat, base: nat, e: Core, i: nat, u: Word, j: nat)
    requires Plain(e) && At(g.strip, base, Code(e))
    requires base <= i < base + Len(e) && Move(g, lo, hi, i, u, j)
    ensures base <= j <= base + Len(e)
    ensures Keeps(Rest(e, g.sets, i - base), u, Rest(e, g.sets, j - base))
    decreases e, 1
  {
    match e
    case Nil => assert false;
    case One(op) =>
      AtOne(g.strip, base, op);
      RestEnds(e, g.sets);
      KeepsOne(g, lo, hi, i, u, j);
    case Seq(l, r) => SeqMove(g, lo, hi, base, l, r, i, u, j);
    case Plus(b) => PlusMove(g, lo, hi, base, b, i, u, j);
    case Quest(b) =>
      AtQuest(g.strip, base, b);
      BracketedMove(g, lo, hi, base, e, b, i, u, j);
    case Paren(no, b) =>
      AtParen(g.strip, base, no, b);
      BracketedMove(g, lo, hi, base, e, b, i, u, j);
    case Choice(a, l) => ChoiceMove(g, lo, hi, base, a, l, i, u, j);
  }

  lemma {:induction false} SeqMove(g: Guts, lo: nat, hi: nat, base: nat, l: Core, r: Core, i: nat, u: Word, j: nat)
    requires Plain(l) && Plain(r) && At(g.strip, base, Code(Seq(l, r)))
    requires base <= i < base + Len(Seq(l, r)) && Move(g, lo, hi, i, u, j)
    ensures base <= j <= base + Len(Seq(l, r))
    ensures Keeps(Rest(Seq(l, r), g.sets, i - base), u, Rest(Seq(l, r), g.sets, j - base))
    decreases Seq(l, r), 0
  {
    hide Code, At, Rest, Words, Keeps, Concat, Move;
    AtSeq(g.strip, base, l, r);
    RestSeq(l, r, g.sets, i - base);
    if i < base + Len(l) {
      MoveKeeps(g, lo, hi, base, l, i, u, j);
      KeepsConcat(Rest(l, g.sets, i - base), u, Rest(l, g.sets, j - base), Words(r, g.sets));
    } else {
      MoveKeeps(g, lo, hi, base + Len(l), r, i, u, j);
    }
    RestSeq(l, r, g.sets, j - base);
  }

  lemma {:induction false} PlusMove(g: Guts, lo: nat, hi: nat, base: nat, b: Core, i: nat, u: Word, j: nat)
    requires Plain(b) && At(g.strip, base, Code(Plus(b)))
    requires base <= i < base + Len(Plus(b)) && Move(g, lo, hi, i, u, j)
    ensures base <= j <= base + Len(Plus(b))
    ensures Keeps(Rest(Plus(b), g.sets, i - base), u, Rest(Plus(b), g.sets, j - base))
    decreases Plus(b), 0
  {
    hide Code, At, Rest, Words, Keeps, Concat, Move, PlusOf, StarOf;
    AtPlus(g.strip, base, b);
    var star := StarOf(Words(b, g.sets));
    StarUnfold(Words(b, g.sets));
    RestPlus(b, g.sets, i - base);
    if base < i <= base + Len(b) {
      MoveKeeps(g, lo, hi, base + 1, b, i, u, j);
      KeepsConcat(Rest(b, g.sets, i - base - 1), u, Rest(b, g.sets, j - base - 1), star);
      RestPlus(b, g.sets, j - base);
    } else {
      EmptyMove(g, lo, hi, i, u, j);
      RestPlus(b, g.sets, j - base);
      RestEnds(b, g.sets);
      KeepsSubset(Rest(Plus(b), g.sets, i - base), u, Rest(Plus(b), g.sets, j - base));
    }
  }

  lemma {:induction false} BracketedMove(g: Guts, lo: nat, hi: nat, base: nat, e: Core, b: Core, i: nat, u: Word, j: nat)
    requires Plain(b) && (e == Quest(b) || (e.Paren? && e.body == b)) && Len(e) == Len(b) + 2
    requires base + Len(e) <= |g.strip| && At(g.strip, base + 1, Code(b))
    requires e.Quest? ==> g.strip[base] == OQuestOpen(Len(b) + 1) && g.strip[base + 1 + Len(b)].OQuestClose?
    requires e.Paren? ==> g.strip[base].OLParen? && g.strip[base + 1 + Len(b)].ORParen?
    requires base <= i < base + Len(e) && Move(g, lo, hi, i, u, j)
    ensures base <= j <= base + Len(e)
    ensures Keeps(Rest(e, g.sets, i - base), u, Rest(e, g.sets, j - base))
    decreases e, 0
  {
    hide Code, At, Rest, Keeps, Concat, Move;
    RestBracketed(e, b, g.sets, i - base);
    RestEnds(b, g.sets);
    if base < i <= base + Len(b) {
      MoveKeeps(g, lo, hi, base + 1, b, i, u, j);
      RestBracketed(e, b, g.sets, j - base);
    } else {
      EmptyMove(g, lo, hi, i, u, j);
      RestBracketed(e, b, g.sets, j - base);
      KeepsSubset(Rest(e, g.sets, i - base), u, Rest(e, g.sets, j - base));
    }
  }

  lemma {:induction false} ChoiceMove(g: Guts, lo: nat, hi: nat, base: nat, a: Alts, l: Core, i: nat, u: Word, j: nat)
    requires PlainAlts(a) && Plain(l) && At(g.strip, base, Code(Choice(a, l)))
    requires base <= i < base + Len(Choice(a, l)) && Move(g, lo, hi, i, u, j)
    ensures base <= j <= base + Len(Choice(a, l))
    ensures Keeps(Rest(Choice(a, l), g.sets, i - base), u, Rest(Choice(a, l), g.sets, j - base))
    decreases Choice(a, l), 0
  {
    hide Code, CodeAlts, At, Rest, RestAlts, Words, Keeps, Concat, Move, ChoiceEnd;
    AtChoice(g.strip, base, a, l);
    RestEnds(l, g.sets);
    var next := base + LenAlts(a);
    var close := next + Len(l);
    RestChoice(a, l, g.sets, i - base);
    if i < next {
      ChoiceEndStep(g.strip, close);
      AltsMove(g, lo, hi, base, a, Len(l) + 1, close, Words(l, g.sets), i, u, j);
      RestChoice(a, l, g.sets, j - base);
      if j == next && i == next - 1 && u == [] {
        KeepsSubset(Words(l, g.sets), u, Words(l, g.sets));
      }
    } else if i < close {
      MoveKeeps(g, lo, hi, next, l, i, u, j);
      RestChoice(a, l, g.sets, j - base);
    } else {
      EmptyMove(g, lo, hi, i, u, j);
      RestChoice(a, l, g.sets, j - base);
      KeepsSubset(EPSILON, u, EPSILON);
    }
  }

  /** The same for the branches before the last one; `close` is where their choice ends. */
  lemma {:induction false} AltsMove(g: Guts, lo: nat, hi: nat, base: nat, a: Alts, n: nat, close: nat, after: Lang,
                                    i: nat, u: Word, j: nat)
    requires PlainAlts(a) && At(g.strip, base, CodeAlts(a, n)) && n > 0
    requires ChoiceEnd(g.strip, base + LenAlts(a) - 1 + n) == Some(close)
    requires base <= i < base + LenAlts(a) && Move(g, lo, hi, i, u, j)
    ensures
      || (base <= j < base + LenAlts(a)
          && Keeps(RestAlts(a, g.sets, i - base, after), u, RestAlts(a, g.sets, j - base, after)))
      || (i == base + LenAlts(a) - 1 && u == [] && j == i + 1)
      || (i == base + LenAlts(a) - 1 && u == [] && j == i + n && j < |g.strip| && !g.strip[j].OChoiceClose?)
      || (j == close && Keeps(RestAlts(a, g.sets, i - base, after), u, EPSILON))
    ensures RestAlts(a, g.sets, LenAlts(a) - 1, after) == after
    decreases a, 3
  {
    hide Code, CodeAlts, At, Rest, RestAlts, Words, Keeps, Concat, Move, ChoiceEnd;
    match a
    case First(b) => FirstMove(g, lo, hi, base, b, n, close, after, i, u, j);
    case Then(before, b) => ThenMove(g, lo, hi, base, before, b, n, close, after, i, u, j);
  }

  lemma {:induction false} FirstMove(g: Guts, lo: nat, hi: nat, base: nat, b: Core, n: nat, close: nat, after: Lang,
                                     i: nat, u: Word, j: nat)
    requires Plain(b) && At(g.strip, base, CodeAlts(First(b), n)) && n > 0
    requires ChoiceEnd(g.strip, base + LenAlts(First(b)) - 1 + n) == Some(close)
    requires base <= i < base + LenAlts(First(b)) && Move(g, lo, hi, i, u, j)
    ensures
      || (base <= j < base + LenAlts(First(b))
          && Keeps(RestAlts(First(b), g.sets, i - base, after), u, RestAlts(First(b), g.sets, j - base, after)))
      || (i == base + LenAlts(First(b)) - 1 && u == [] && j == i + 1)
      || (i == base + LenAlts(First(b)) - 1 && u == [] && j == i + n && j < |g.strip| && !g.strip[j].OChoiceClose?)
      || (j == close && Keeps(RestAlts(First(b), g.sets, i - base, after), u, EPSILON))
    ensures RestAlts(First(b), g.sets, LenAlts(First(b)) - 1, after) == after
    decreases First(b), 2
  {
    hide Code, CodeAlts, At, Rest, RestAlts, Words, Keeps, Concat, Move, ChoiceEnd;
    AtFirst(g.strip, base, b, n);
    RestEnds(b, g.sets);
    RestFirst(b, g.sets, i - base, after);
    RestFirst(b, g.sets, Len(b) + 2, after);
    var from := RestAlts(First(b), g.sets, i - base, after);
    if base < i <= base + Len(b) {
      MoveKeeps(g, lo, hi, base + 1, b, i, u, j);
      RestFirst(b, g.sets, j - base, after);
    } else {
      EmptyMove(g, lo, hi, i, u, j);
      if i == base {
        RestFirst(b, g.sets, j - base, after);
        KeepsSubset(from, u, RestAlts(First(b), g.sets, j - base, after));
      } else if i == base + Len(b) + 1 {
        ChoiceEndStep(g.strip, i + 1);
        KeepsSubset(EPSILON, u, EPSILON);
      }
    }
  }

  lemma {:induction false} ThenMove(g: Guts, lo: nat, hi: nat, base: nat, before: Alts, b: Core, n: nat, close: nat, after: Lang,
                                    i: nat, u: Word, j: nat)
    requires PlainAlts(before) && Plain(b) && At(g.strip, base, CodeAlts(Then(before, b), n)) && n > 0
    requires ChoiceEnd(g.strip, base + LenAlts(Then(before, b)) - 1 + n) == Some(close)
    requires base <= i < base + LenAlts(Then(before, b)) && Move(g, lo, hi, i, u, j)
    ensures
      || (base <= j < base + LenAlts(Then(before, b))
          && Keeps(RestAlts(Then(before, b), g.sets, i - base, after), u, RestAlts(Then(before, b), g.sets, j - base, after)))
      || (i == base + LenAlts(Then(before, b)) - 1 && u == [] && j == i + 1)
      || (i == base + LenAlts(Then(before, b)) - 1 && u == [] && j == i + n && j < |g.strip| && !g.strip[j].OChoiceClose?)
      || (j == close && Keeps(RestAlts(Then(before, b), g.sets, i - base, after), u, EPSILON))
    ensures RestAlts(Then(before, b), g.sets, LenAlts(Then(before, b)) - 1, after) == after
    decreases Then(before, b), 2
  {
    hide Code, CodeAlts, At, Rest, RestAlts, Words, Keeps, Concat, Move, ChoiceEnd;
    var sets := g.sets;
    AtThen(g.strip, base, before, b, n);
    RestEnds(b, sets);
    var mid := base + LenAlts(before);
    var after' := Words(b, sets) + after;
    RestThen(before, b, sets, i - base, after);
    RestThen(before, b, sets, LenAlts(before) + Len(b) + 1, after);
    ChoiceEndStep(g.strip, mid + Len(b) + 1);
    if i < mid {
      AltsMove(g, lo, hi, base, before, Len(b) + 2, close, after', i, u, j);
      if i == mid - 1 && u == [] && (j == i + 1 || j == i + Len(b) + 2) {
        RestThen(before, b, sets, j - base, after);
        KeepsSubset(after', u, RestAlts(Then(before, b), sets, j - base, after));
      } else if base <= j < mid {
        RestThen(before, b, sets, j - base, after);
      }
    } else if i < mid + Len(b) {
      MoveKeeps(g, lo, hi, mid, b, i, u, j);
      RestThen(before, b, sets, j - base, after);
    } else {
      EmptyMove(g, lo, hi, i, u, j);
      KeepsSubset(EPSILON, u, EPSILON);
    }
  }

  /** Soundness: a word leading through the code of `e` belongs to its language. */
  lemma {:induction false} PathSound(g: Guts, base: nat, e: Core, i: nat, w: Word, n: nat)
    requires Plain(e) && At(g.strip, base, Code(e)) && base <= i <= base + Len(e)
    requires Path(g, base, base + Len(e), i, w, base + Len(e), n)
    ensures w in Rest(e, g.sets, i - base)
    decreases n
  {
    hide Code, At, Rest, Words, Keeps, Move;
    RestEnds(e, g.sets);
    if n > 0 {
      var k, m := PathBegins(g, base, base + Len(e), i, w, base + Len(e), n);
      MoveKeeps(g, base, base + Len(e), base, e, i, w[..m], k);
      PathSound(g, base, e, k, w[m..], n - 1);
      KeepsAt(Rest(e, g.sets, i - base), w[..m], Rest(e, g.sets, k - base), w[m..]);
      assert w[..m] + w[m..] == w;
    }
  }

  /** A path that is not empty begins with a move. */
  lemma PathBegins(g: Guts, lo: nat, hi: nat, i: nat, w: Word, j: nat, n: nat) returns (k: nat, m: nat)
    requires n > 0 && Path(g, lo, hi, i, w, j, n)
    ensures i < hi && m <= |w| && Move(g, lo, hi, i, w[..m], k) && Path(g, lo, hi, k, w[m..], j, n - 1)
  {
    k, m :| m <= |w| && Move(g, lo, hi, i, w[..m], k) && Path(g, lo, hi, k, w[m..], j, n - 1);
  }

  lemma KeepsAt(from: Lang, u: Word, after: Lang, v: Word)
    requires Keeps(from, u, after) && v in after
    ensures u + v in from
  {
  }

  // ----- Every word of the language leads through the code -----

  lemma {:induction false} WordLeads(g: Guts, lo: nat, hi: nat, base: nat, e: Core, w: Word)
    requires Plain(e) && At(g.strip, base, Code(e)) && lo <= base && base + Len(e) <= hi <= |g.strip|
    requires w in Words(e, g.sets)
    ensures Leads(g, lo, hi, base, w, base + Len(e))
    decreases e, 1
  {
    hide Code, CodeAlts, At, Leads, Concat, PlusOf, ChoiceEnd;
    var sets := g.sets;
    match e
    case Nil =>
      assert Len(e) == 0 by { NilLen(); }
      LeadsNowhere(g, lo, hi, base);
    case One(op) =>
      AtOne(g.strip, base, op);
      LeadsMove(g, lo, hi, base, w, base + 1);
    case Seq(l, r) =>
      AtSeq(g.strip, base, l, r);
      var u, v := ConcatElim(Words(l, sets), Words(r, sets), w);
      WordLeads(g, lo, hi, base, l, u);
      WordLeads(g, lo, hi, base + Len(l), r, v);
      LeadsJoin(g, lo, hi, base, u, base + Len(l), v, base + Len(e));
    case Plus(b) =>
      AtPlus(g.strip, base, b);
      assert w in Between(Words(b, sets), 1, None) by { PlusIsBetween(Words(b, sets)); }
      var n := BetweenElim(Words(b, sets), 1, None, w);
      LoopLeads(g, lo, hi, base, b, w, n);
    case Quest(b) =>
      AtQuest(g.strip, base, b);
      var close := base + 1 + Len(b);
      if w in Words(b, sets) {
        WordLeads(g, lo, hi, base + 1, b, w);
        BracketLeads(g, lo, hi, base, w, close);
      } else {
        LeadsEmpty(g, lo, hi, base, close);
        LeadsEmpty(g, lo, hi, close, close + 1);
        LeadsTwice(g, lo, hi, base, close, close + 1);
      }
    case Paren(no, b) =>
      AtParen(g.strip, base, no, b);
      WordLeads(g, lo, hi, base + 1, b, w);
      BracketLeads(g, lo, hi, base, w, base + 1 + Len(b));
    case Choice(a, l) =>
      ChoiceLeads(g, lo, hi, base, a, l, w);
  }

  lemma NilLen()
    ensures Len(Nil) == 0
  {
  }

  lemma PlusIsBetween(a: Lang)
    ensures PlusOf(a) == Between(a, 1, None)
  {
  }

  lemma LeadsTwice(g: Guts, lo: nat, hi: nat, i: nat, k: nat, j: nat)
    requires Leads(g, lo, hi, i, [], k) && Leads(g, lo, hi, k, [], j)
    ensures Leads(g, lo, hi, i, [], j)
  {
    LeadsJoin(g, lo, hi, i, [], k, [], j);
    var w: Word := [];
    assert w + w == w;
  }

  lemma LeadsAfter(g: Guts, lo: nat, hi: nat, i: nat, k: nat, w: Word, j: nat)
    requires Leads(g, lo, hi, i, [], k) && Leads(g, lo, hi, k, w, j)
    ensures Leads(g, lo, hi, i, w, j)
  {
    LeadsJoin(g, lo, hi, i, [], k, w, j);
    assert [] + w == w;
  }

  lemma LeadsBefore(g: Guts, lo: nat, hi: nat, i: nat, w: Word, k: nat, j: nat)
    requires Leads(g, lo, hi, i, w, k) && Leads(g, lo, hi, k, [], j)
    ensures Leads(g, lo, hi, i, w, j)
  {
    LeadsJoin(g, lo, hi, i, w, k, [], j);
    assert w + [] == w;
  }

  /** Enter and leave a piece of code through operators that read nothing. */
  lemma BracketLeads(g: Guts, lo: nat, hi: nat, base: nat, w: Word, close: nat)
    requires lo <= base < close < hi <= |g.strip|
    requires Empty(g.strip, base, base + 1) && Empty(g.strip, close, close + 1)
    requires Leads(g, lo, hi, base + 1, w, close)
    ensures Leads(g, lo, hi, base, w, close + 1)
  {
    LeadsEmpty(g, lo, hi, base, base + 1);
    LeadsAfter(g, lo, hi, base, base + 1, w, close);
    LeadsEmpty(g, lo, hi, close, close + 1);
    LeadsBefore(g, lo, hi, base, w, close, close + 1);
  }

  lemma {:induction false} LoopLeads(g: Guts, lo: nat, hi: nat, base: nat, b: Core, w: Word, n: nat)
    requires Plain(b) && At(g.strip, base, Code(Plus(b))) && lo <= base && base + Len(b) + 2 <= hi <= |g.strip|
    requires n >= 1 && w in Power(Words(b, g.sets), n)
    ensures Leads(g, lo, hi, base, w, base + Len(b) + 2)
    decreases b, 2, n
  {
    hide Code, At, Leads, Concat, Words;
    AtPlus(g.strip, base, b);
    var close := base + 1 + Len(b);
    var u, v := ConcatElim(Words(b, g.sets), Power(Words(b, g.sets), n - 1), w);
    WordLeads(g, lo, hi, base + 1, b, u);
    LeadsEmpty(g, lo, hi, base, base + 1);
    LeadsAfter(g, lo, hi, base, base + 1, u, close);
    if n == 1 {
      LeadsEmpty(g, lo, hi, close, close + 1);
    } else {
      LeadsEmpty(g, lo, hi, close, base);
      LoopLeads(g, lo, hi, base, b, v, n - 1);
      LeadsAfter(g, lo, hi, close, base, v, close + 1);
    }
    LeadsJoin(g, lo, hi, base, u, close, v, close + 1);
  }

  lemma {:induction false} ChoiceLeads(g: Guts, lo: nat, hi: nat, base: nat, a: Alts, l: Core, w: Word)
    requires PlainAlts(a) && Plain(l) && At(g.strip, base, Code(Choice(a, l)))
    requires lo <= base && base + Len(Choice(a, l)) <= hi <= |g.strip|
    requires w in WordsAlts(a, g.sets) || w in Words(l, g.sets)
    ensures Leads(g, lo, hi, base, w, base + Len(Choice(a, l)))
    decreases Choice(a, l), 0
  {
    hide Code, CodeAlts, At, Leads, Words, WordsAlts, ChoiceEnd;
    AtChoice(g.strip, base, a, l);
    var next := base + LenAlts(a);
    var close := next + Len(l);
    if w in WordsAlts(a, g.sets) {
      ChoiceEndStep(g.strip, close);
      AltWordLeads(g, lo, hi, base, a, Len(l) + 1, close, w);
    } else {
      AltsLead(g, lo, hi, base, a, Len(l) + 1);
      LeadsEmpty(g, lo, hi, next - 1, next);
      LeadsTwice(g, lo, hi, base, next - 1, next);
      WordLeads(g, lo, hi, next, l, w);
      LeadsAfter(g, lo, hi, base, next, w, close);
    }
    LeadsEmpty(g, lo, hi, close, close + 1);
    LeadsBefore(g, lo, hi, base, w, close, close + 1);
  }

  /** The OCH_ marks, through the chain of OOR2, the branch after `a`. */
  lemma {:induction false} AltsLead(g: Guts, lo: nat, hi: nat, base: nat, a: Alts, n: nat)
    requires At(g.strip, base, CodeAlts(a, n)) && lo <= base && base + LenAlts(a) <= hi <= |g.strip|
    ensures LenAlts(a) > 0 && g.strip[base + LenAlts(a) - 1] == OOr2(n)
    ensures Leads(g, lo, hi, base, [], base + LenAlts(a) - 1)
    decreases a
  {
    hide Code, CodeAlts, At, Leads;
    match a
    case First(b) =>
      AtFirst(g.strip, base, b, n);
      LeadsEmpty(g, lo, hi, base, base + Len(b) + 2);
    case Then(before, b) =>
      AtThen(g.strip, base, before, b, n);
      AltsLead(g, lo, hi, base, before, Len(b) + 2);
      var mid := base + LenAlts(before);
      LeadsEmpty(g, lo, hi, mid - 1, mid + Len(b) + 1);
      LeadsTwice(g, lo, hi, base, mid - 1, mid + Len(b) + 1);
  }

  lemma {:induction false} AltWordLeads(g: Guts, lo: nat, hi: nat, base: nat, a: Alts, n: nat, close: nat, w: Word)
    requires PlainAlts(a) && At(g.strip, base, CodeAlts(a, n)) && n > 0
    requires lo <= base && base + LenAlts(a) <= hi <= |g.strip|
    requires ChoiceEnd(g.strip, base + LenAlts(a) - 1 + n) == Some(close)
    requires w in WordsAlts(a, g.sets)
    ensures Leads(g, lo, hi, base, w, close)
    decreases a, 0
  {
    hide Code, CodeAlts, At, Leads, Words, ChoiceEnd;
    match a
    case First(b) =>
      AtFirst(g.strip, base, b, n);
      WordLeads(g, lo, hi, base + 1, b, w);
      LeadsEmpty(g, lo, hi, base, base + 1);
      LeadsAfter(g, lo, hi, base, base + 1, w, base + 1 + Len(b));
      ChoiceEndStep(g.strip, base + 2 + Len(b));
      LeadsEmpty(g, lo, hi, base + 1 + Len(b), close);
      LeadsBefore(g, lo, hi, base, w, base + 1 + Len(b), close);
    case Then(before, b) =>
      AtThen(g.strip, base, before, b, n);
      var mid := base + LenAlts(before);
      ChoiceEndStep(g.strip, mid + Len(b) + 1);
      if w in WordsAlts(before, g.sets) {
        AltWordLeads(g, lo, hi, base, before, Len(b) + 2, close, w);
      } else {
        AltsLead(g, lo, hi, base, before, Len(b) + 2);
        LeadsEmpty(g, lo, hi, mid - 1, mid);
        LeadsTwice(g, lo, hi, base, mid - 1, mid);
        WordLeads(g, lo, hi, mid, b, w);
        LeadsAfter(g, lo, hi, base, mid, w, mid + Len(b));
        LeadsEmpty(g, lo, hi, mid + Len(b), close);
        LeadsBefore(g, lo, hi, base, w, mid + Len(b), close);
      }
  }

  /**
   * The words leading through the code of an expression are exactly its language,
   * wherever in a strip that code stands.
   */
  lemma CodeExact(g: Guts, base: nat, e: Core, w: Word)
    requires Plain(e) && At(g.strip, base, Code(e))
    ensures Leads(g, base, base + Len(e), base, w, base + Len(e)) <==> w in Words(e, g.sets)
  {
    if Leads(g, base, base + Len(e), base, w, base + Len(e)) {
      var n: nat :| Path(g, base, base + Len(e), base, w, base + Len(e), n);
      PathSound(g, base, e, base, w, n);
      RestEnds(e, g.sets);
    }
    if w in Words(e, g.sets) {
      WordLeads(g, base, base + Len(e), base, e, w);
    }
  }
}
