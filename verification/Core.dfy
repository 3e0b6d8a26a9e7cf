/**
 * The expressions the strip language can say, the strip code of each and its language.
 * The main results are that the words leading through the code of an expression are
 * exactly the words of its language, both directions.
 */
module Core {
  import opened Bytes
  import opened Languages
  import opened Strip

  datatype Core =
    | Nil
    | One(op: Sop)
    | Seq(left: Core, right: Core)
    | Plus(body: Core)
    | Quest(body: Core)
    | Paren(no: nat, body: Core)
    | Choice(alts: Alts, last: Core)

  /** All branches of a choice but the last, in order. */
  datatype Alts = First(branch: Core) | Then(before: Alts, branch: Core)

  /** Only characters and anchors stand alone. */
  predicate Plain(e: Core) {
    match e
    case Nil => true
    case One(op) => Atomic(op)
    case Seq(l, r) => Plain(l) && Plain(r)
    case Plus(b) => Plain(b)
    case Quest(b) => Plain(b)
    case Paren(_, b) => Plain(b)
    case Choice(a, l) => PlainAlts(a) && Plain(l)
  }

  predicate PlainAlts(a: Alts) {
    match a
    case First(b) => Plain(b)
    case Then(before, b) => PlainAlts(before) && Plain(b)
  }

  /** The strip code of an expression; every deviation from sequential flow is marked at both its ends. */
  function Code(e: Core): seq<Sop> {
    match e
    case Nil => []
    case One(op) => [op]
    case Seq(l, r) => Code(l) + Code(r)
    case Plus(b) => [OPlusOpen(|Code(b)| + 1)] + Code(b) + [OPlusClose(|Code(b)| + 1)]
    case Quest(b) => [OQuestOpen(|Code(b)| + 1)] + Code(b) + [OQuestClose(|Code(b)| + 1)]
    case Paren(no, b) => [OLParen(no)] + Code(b) + [ORParen(no)]
    case Choice(a, l) => CodeAlts(a, |Code(l)| + 1) + (Code(l) + [OChoiceClose(|Code(l)| + 2)])
  }

  /** The code of the branches up to and including the OOR2 that ends them, which points `n` ahead. */
  function CodeAlts(a: Alts, n: nat): (code: seq<Sop>)
    ensures |code| > 0 && code[|code| - 1] == OOr2(n)
    ensures code[0].OChoiceOpen?
  {
    match a
    case First(b) => [OChoiceOpen(|Code(b)| + 2)] + (Code(b) + [OOr1(|Code(b)| + 1), OOr2(n)])
    case Then(before, b) => CodeAlts(before, |Code(b)| + 2) + (Code(b) + [OOr1(|Code(b)| + 2), OOr2(n)])
  }

  function Len(e: Core): nat {
    |Code(e)|
  }

  function LenAlts(a: Alts): nat {
    |CodeAlts(a, 0)|
  }

  lemma {:induction false} LenAltsAny(a: Alts, n: nat)
    ensures |CodeAlts(a, n)| == LenAlts(a)
  {
    match a
    case First(b) =>
    case Then(before, b) => LenAltsAny(before, Len(b) + 2);
  }

  /** The language of an expression; `sets` are the character sets its operators refer to. */
  ghost function Words(e: Core, sets: seq<set<byte>>): Lang {
    match e
    case Nil => EPSILON
    case One(op) => iset c: byte | Eats(sets, op, c) :: [c]
    case Seq(l, r) => Concat(Words(l, sets), Words(r, sets))
    case Plus(b) => PlusOf(Words(b, sets))
    case Quest(b) => Words(b, sets) + EPSILON
    case Paren(_, b) => Words(b, sets)
    case Choice(a, l) => WordsAlts(a, sets) + Words(l, sets)
  }

  ghost function WordsAlts(a: Alts, sets: seq<set<byte>>): Lang {
    match a
    case First(b) => Words(b, sets)
    case Then(before, b) => WordsAlts(before, sets) + Words(b, sets)
  }

  /** The words that lead from offset `k` inside the code of `e` to its end. */
  ghost function Rest(e: Core, sets: seq<set<byte>>, k: nat): Lang
    decreases e
  {
    if k >= Len(e) then EPSILON
    else match e
      case Nil => EPSILON
      case One(op) => Words(e, sets)
      case Seq(l, r) =>
        if k < Len(l) then Concat(Rest(l, sets, k), Words(r, sets)) else Rest(r, sets, k - Len(l))
      case Plus(b) =>
        if k == 0 then Words(e, sets) else Concat(Rest(b, sets, k - 1), StarOf(Words(b, sets)))
      case Quest(b) =>
        if k == 0 then Words(e, sets) else Rest(b, sets, k - 1)
      case Paren(_, b) =>
        if k == 0 then Words(b, sets) else Rest(b, sets, k - 1)
      case Choice(a, l) =>
        if k < LenAlts(a) then RestAlts(a, sets, k, Words(l, sets)) else Rest(l, sets, k - LenAlts(a))
  }

  /** The same inside the branches `a`, when the branches after them have language `after`. */
  ghost function RestAlts(a: Alts, sets: seq<set<byte>>, k: nat, after: Lang): Lang
    decreases a
  {
    match a
    case First(b) =>
      if k == 0 then Words(b, sets) + after
      else if k <= Len(b) + 1 then Rest(b, sets, k - 1)
      else after
    case Then(before, b) =>
      if k < LenAlts(before) then RestAlts(before, sets, k, Words(b, sets) + after)
      else if k <= LenAlts(before) + Len(b) then Rest(b, sets, k - LenAlts(before))
      else after
  }

  lemma RestEnds(e: Core, sets: seq<set<byte>>)
    ensures Rest(e, sets, 0) == Words(e, sets)
    ensures Rest(e, sets, Len(e)) == EPSILON
    decreases e
  {
    match e
    case Nil =>
    case One(op) =>
    case Seq(l, r) =>
      RestEnds(l, sets);
      RestEnds(r, sets);
      if Len(l) == 0 {
        ConcatUnitLeft(Words(r, sets));
      }
    case Plus(b) =>
    case Quest(b) =>
    case Paren(_, b) =>
    case Choice(a, l) =>
      LenAltsAny(a, Len(l) + 1);
      RestAltsStart(a, sets, Words(l, sets));
  }

  lemma RestAltsStart(a: Alts, sets: seq<set<byte>>, after: Lang)
    ensures RestAlts(a, sets, 0, after) == WordsAlts(a, sets) + after
    decreases a
  {
    match a
    case First(b) =>
    case Then(before, b) => RestAltsStart(before, sets, Words(b, sets) + after);
  }
}
