/** The code of an expression is fit to be stepped through. */
module Tame {
  import opened Bytes
  import opened Strip
  import opened Core
  import opened CoreMoves
  import opened Step

  /** A well linked operator that is no anchor. */
  predicate TameOp(strip: seq<Sop>, lo: nat, hi: nat, i: nat) {
    i < |strip| && LinkedOp(strip, lo, hi, i) && !strip[i].OBol? && !strip[i].OEol?
  }

  /** All offsets in lo..hi stay within it, and there are no anchors. */
  predicate TameStrip(strip: seq<Sop>, lo: nat, hi: nat) {
    lo <= hi < |strip| && forall i :: lo <= i < hi ==> TameOp(strip, lo, hi, i)
  }

  lemma TameIsLinked(strip: seq<Sop>, lo: nat, hi: nat)
    requires TameStrip(strip, lo, hi)
    ensures Linked(strip, lo, hi)
  {
    forall i | lo <= i < hi
      ensures LinkedOp(strip, lo, hi, i)
    {
      assert TameOp(strip, lo, hi, i);
    }
  }

  /** Are there no anchors in the expression? */
  predicate Unanchored(e: Core) {
    match e
    case Nil => true
    case One(op) => !op.OBol? && !op.OEol?
    case Seq(l, r) => Unanchored(l) && Unanchored(r)
    case Plus(b) => Unanchored(b)
    case Quest(b) => Unanchored(b)
    case Paren(_, b) => Unanchored(b)
    case Choice(a, l) => UnanchoredAlts(a) && Unanchored(l)
  }

  predicate UnanchoredAlts(a: Alts) {
    match a
    case First(b) => Unanchored(b)
    case Then(before, b) => UnanchoredAlts(before) && Unanchored(b)
  }

  lemma {:induction false} OpsTame(strip: seq<Sop>, lo: nat, hi: nat, base: nat, e: Core, i: nat)
    requires Plain(e) && Unanchored(e) && At(strip, base, Code(e)) && lo <= base <= i < base + Len(e) <= hi < |strip|
    ensures TameOp(strip, lo, hi, i)
    decreases e
  {
    hide Code, CodeAlts, At, ChoiceEnd;
    match e
    case Nil =>
      NilLen();
      assert false;
    case One(op) => AtOne(strip, base, op);
    case Seq(l, r) =>
      AtSeq(strip, base, l, r);
      if i < base + Len(l) {
        OpsTame(strip, lo, hi, base, l, i);
      } else {
        OpsTame(strip, lo, hi, base + Len(l), r, i);
      }
    case Plus(b) =>
      AtPlus(strip, base, b);
      if base < i <= base + Len(b) {
        OpsTame(strip, lo, hi, base + 1, b, i);
      }
    case Quest(b) =>
      AtQuest(strip, base, b);
      if base < i <= base + Len(b) {
        OpsTame(strip, lo, hi, base + 1, b, i);
      }
    case Paren(no, b) =>
      AtParen(strip, base, no, b);
      if base < i <= base + Len(b) {
        OpsTame(strip, lo, hi, base + 1, b, i);
      }
    case Choice(a, l) =>
      AtChoice(strip, base, a, l);
      var next := base + LenAlts(a);
      if i < next {
        ChoiceEndStep(strip, next + Len(l));
        AltsTame(strip, lo, hi, base, a, Len(l) + 1, next + Len(l), i);
      } else if i < next + Len(l) {
        OpsTame(strip, lo, hi, next, l, i);
      }
  }

  lemma {:induction false} AltsTame(strip: seq<Sop>, lo: nat, hi: nat, base: nat, a: Alts, n: nat, close: nat, i: nat)
    requires PlainAlts(a) && UnanchoredAlts(a) && At(strip, base, CodeAlts(a, n)) && n > 0
    requires lo <= base <= i < base + LenAlts(a) && base + LenAlts(a) - 1 + n <= close <= hi < |strip|
    requires ChoiceEnd(strip, base + LenAlts(a) - 1 + n) == Some(close)
    ensures TameOp(strip, lo, hi, i)
    decreases a
  {
    hide Code, CodeAlts, At, ChoiceEnd;
    match a
    case First(b) =>
      AtFirst(strip, base, b, n);
      if base < i <= base + Len(b) {
        OpsTame(strip, lo, hi, base + 1, b, i);
      } else {
        ChoiceEndStep(strip, base + Len(b) + 2);
      }
    case Then(before, b) =>
      AtThen(strip, base, before, b, n);
      var mid := base + LenAlts(before);
      ChoiceEndStep(strip, mid + Len(b) + 1);
      if i < mid {
        AltsTame(strip, lo, hi, base, before, Len(b) + 2, close, i);
      } else if i < mid + Len(b) {
        OpsTame(strip, lo, hi, mid, b, i);
      }
  }

  lemma CodeTame(strip: seq<Sop>, base: nat, e: Core)
    requires Plain(e) && Unanchored(e) && At(strip, base, Code(e)) && base + Len(e) < |strip|
    ensures TameStrip(strip, base, base + Len(e))
  {
    hide Code, At, TameOp;
    var hi := base + Len(e);
    forall i: nat | base <= i < hi
      ensures TameOp(strip, base, hi, i)
    {
      OpsTame(strip, base, hi, base, e, i);
    }
  }
}
