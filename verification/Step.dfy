/** One step of the matcher: the states reachable after a character, closed under empty moves. */
module Step {
  import opened Bytes
  import opened Strip
  import opened States

  /** What step() is given instead of a character. */
  datatype Input = Ch(c: byte) | BOL | EOL | BOLEOL | NOTHING | BOW | EOW

  /** Does the operator let this code by? */
  predicate Fires(sets: seq<set<byte>>, op: Sop, code: Input) {
    match op
    case OBol => code == BOL || code == BOLEOL
    case OEol => code == EOL || code == BOLEOL
    case _ => code.Ch? && Eats(sets, op, code.c)
  }

  /** Every offset in lo..hi stays within it, and only O_PLUS leads back. */
  predicate Linked(strip: seq<Sop>, lo: nat, hi: nat) {
    lo <= hi < |strip| && forall i :: lo <= i < hi ==> LinkedOp(strip, lo, hi, i)
  }

  predicate LinkedOp(strip: seq<Sop>, lo: nat, hi: nat, i: nat)
    requires i < |strip|
  {
    match strip[i]
    case OPlusClose(n) => lo + n <= i && n > 0
    case OQuestOpen(n) => 0 < n && i + n <= hi
    case OChoiceOpen(n) => 0 < n && i + n <= hi
    case OOr2(n) => 0 < n && i + n <= hi
    case OOr1(_) => ChoiceEnd(strip, i + 1).Some? && ChoiceEnd(strip, i + 1).value <= hi
    case _ => true
  }

  /** Closed under empty moves out of lo..upto. */
  ghost predicate Closed(strip: seq<Sop>, lo: nat, upto: nat, v: Flags) {
    forall i: nat, j: nat :: lo <= i < upto && i < |v| && v[i] && Empty(strip, i, j) ==> j < |v| && v[j]
  }

  /** Every state of `bef` in lo..upto whose operator lets `code` by leads on. */
  ghost predicate Follows(g: Guts, lo: nat, upto: nat, bef: Flags, code: Input, v: Flags) {
    forall i: nat :: lo <= i < upto && i < |bef| && i < |g.strip| && bef[i] && Fires(g.sets, g.strip[i], code)
      ==> i + 1 < |v| && v[i + 1]
  }

  /** `v` holds what `aft` holds, what follows `bef`, and what empty moves reach from there. */
  ghost predicate Holds(g: Guts, lo: nat, hi: nat, bef: Flags, code: Input, aft: Flags, v: Flags) {
    Leq(aft, v) && Follows(g, lo, hi, bef, code, v) && Closed(g.strip, lo, hi, v)
  }

  /** `v` is within every set that holds that. */
  ghost predicate Least(g: Guts, lo: nat, hi: nat, bef: Flags, code: Input, aft: Flags, v: Flags) {
    forall t: Flags :: Holds(g, lo, hi, bef, code, aft, t) ==> Leq(v, t)
  }

  /** The exact result of a step. */
  ghost predicate Steps(g: Guts, lo: nat, hi: nat, bef: Flags, code: Input, aft: Flags, v: Flags) {
    Holds(g, lo, hi, bef, code, aft, v) && Least(g, lo, hi, bef, code, aft, v)
  }

  /** Two sets, perhaps held in different ways, with the same states up to `hi`. */
  predicate Alike(u: Flags, v: Flags, hi: nat) {
    hi < |u| && hi < |v| && u[..hi + 1] == v[..hi + 1]
  }

  lemma StepsWithin(g: Guts, lo: nat, hi: nat, bef: Flags, code: Input, aft: Flags, v: Flags, bef': Flags, aft': Flags, v': Flags)
    requires Linked(g.strip, lo, hi) && Alike(bef, bef', hi) && Alike(aft, aft', hi)
    requires Steps(g, lo, hi, bef, code, aft, v) && Steps(g, lo, hi, bef', code, aft', v')
    ensures |v| == |aft| && |v'| == |aft'| && forall i :: 0 <= i <= hi && v[i] ==> v'[i]
  {
    hide ChoiceEnd, Fires;
    var t := seq(|aft|, i requires 0 <= i < |aft| => i > hi || v'[i]);
    assert Leq(aft, t) by {
      forall i | 0 <= i < |aft| && aft[i]
        ensures t[i]
      {
        assert i <= hi ==> aft[..hi + 1][i] == aft'[..hi + 1][i];
      }
    }
    assert Follows(g, lo, hi, bef, code, t) by {
      forall i: nat | lo <= i < hi
        ensures bef[i] == bef'[i]
      {
        assert bef[..hi + 1][i] == bef'[..hi + 1][i];
      }
    }
    assert Closed(g.strip, lo, hi, t) by {
      forall i: nat, j: nat | lo <= i < hi && i < |t| && t[i] && Empty(g.strip, i, j)
        ensures j < |t| && t[j]
      {
        assert LinkedOp(g.strip, lo, hi, i) && v'[i];
      }
    }
    assert Holds(g, lo, hi, bef, code, aft, t);
  }

  /** A step comes to the same in both representations of the state set. */
  lemma StepsAlike(g: Guts, lo: nat, hi: nat, bef: Flags, code: Input, aft: Flags, v: Flags, bef': Flags, aft': Flags, v': Flags)
    requires Linked(g.strip, lo, hi) && Alike(bef, bef', hi) && Alike(aft, aft', hi)
    requires Steps(g, lo, hi, bef, code, aft, v) && Steps(g, lo, hi, bef', code, aft', v')
    ensures Alike(v, v', hi)
  {
    StepsWithin(g, lo, hi, bef, code, aft, v, bef', aft', v');
    StepsWithin(g, lo, hi, bef', code, aft', v', bef, aft, v);
  }

  /** What executing the operator at `pc` does to the set. */
  ghost predicate Visits(g: Guts, pc: nat, bef: Flags, code: Input, v: Flags, v': Flags)
    requires pc < |g.strip| && pc < |bef| && pc < |v|
  {
    |v'| == |v| &&
    forall k :: 0 <= k < |v| ==>
      (v'[k] <==> v[k] || (v[pc] && Empty(g.strip, pc, k)) || (k == pc + 1 && bef[pc] && Fires(g.sets, g.strip[pc], code)))
  }

  /** What the loop in step() has reached at `pc`. */
  ghost predicate Reached(g: Guts, lo: nat, hi: nat, bef: Flags, code: Input, aft: Flags, v: Flags, pc: nat) {
    && Leq(aft, v) && Follows(g, lo, pc, bef, code, v) && Closed(g.strip, lo, pc, v)
    && Least(g, lo, hi, bef, code, aft, v)
  }

  /** Visiting keeps the set within every closed one and never loses a state. */
  lemma VisitLeast(g: Guts, lo: nat, hi: nat, bef: Flags, code: Input, aft: Flags, v: Flags, pc: nat, v': Flags)
    requires Linked(g.strip, lo, hi) && lo <= pc < hi < |v| == |bef|
    requires Least(g, lo, hi, bef, code, aft, v) && Visits(g, pc, bef, code, v, v')
    ensures Least(g, lo, hi, bef, code, aft, v') && Leq(v, v')
  {
    forall t | Holds(g, lo, hi, bef, code, aft, t)
      ensures Leq(v', t)
    {
      assert Leq(v, t);
      assert v[pc] ==> t[pc];
    }
  }

  /** Did the visit find the start of a loop that was not in the set before? */
  predicate Rewinds(op: Sop, pc: nat, v: Flags, v': Flags) {
    op.OPlusClose? && op.back <= pc < |v| == |v'| && !v[pc - op.back] && v'[pc - op.back]
  }

  /** After a visit everything up to the operator is done, unless the visit found a new state further back. */
  lemma VisitAdvances(g: Guts, lo: nat, hi: nat, bef: Flags, code: Input, aft: Flags, v: Flags, pc: nat, v': Flags)
    requires Linked(g.strip, lo, hi) && lo <= pc < hi < |v| == |bef|
    requires Reached(g, lo, hi, bef, code, aft, v, pc) && Visits(g, pc, bef, code, v, v')
    ensures |v'| == |v| && Leq(v, v') && Leq(aft, v')
    ensures var op := g.strip[pc];
      if Rewinds(op, pc, v, v')
      then Reached(g, lo, hi, bef, code, aft, v', pc - op.back) && Missing(v') < Missing(v)
      else Reached(g, lo, hi, bef, code, aft, v', pc + 1) && Missing(v') <= Missing(v)
  {
    VisitLeast(g, lo, hi, bef, code, aft, v, pc, v');
    MissingMono(v, v');
    VisitTargets(g.strip, lo, hi, pc);
    var op := g.strip[pc];
    var done := if Rewinds(op, pc, v, v') then pc - op.back else pc + 1;
    forall i: nat, j: nat | lo <= i < done && i < |v'| && v'[i] && Empty(g.strip, i, j)
      ensures j < |v'| && v'[j]
    {
      if i < pc {
        assert v[i];
        assert v[j];
      } else {
        assert i == pc && v[pc];
      }
    }
    forall i: nat | lo <= i < done && i < |bef| && i < |g.strip| && bef[i] && Fires(g.sets, g.strip[i], code)
      ensures i + 1 < |v'| && v'[i + 1]
    {
      if i < pc {
        assert v[i + 1];
      }
    }
  }

  lemma VisitTargets(strip: seq<Sop>, lo: nat, hi: nat, pc: nat)
    requires Linked(strip, lo, hi) && lo <= pc < hi
    ensures forall j: nat :: Empty(strip, pc, j) ==> lo <= j <= hi
    ensures forall j: nat :: Empty(strip, pc, j) && j <= pc ==> strip[pc].OPlusClose? && j == pc - strip[pc].back
  {
    assert LinkedOp(strip, lo, hi, pc);
  }

  // ----- What the visits of each kind of operator come to -----

  function Fwd(v: Flags, pc: nat, n: nat): Flags
    requires pc + n < |v|
  {
    v[pc + n := v[pc + n] || v[pc]]
  }

  lemma VisitNone(g: Guts, pc: nat, bef: Flags, code: Input, v: Flags)
    requires pc < |g.strip| && pc < |bef| && pc < |v|
    requires g.strip[pc].OEnd? || Consumes(g.strip[pc]) || g.strip[pc].OBol? || g.strip[pc].OEol?
    requires !Fires(g.sets, g.strip[pc], code)
    ensures Visits(g, pc, bef, code, v, v)
  {
  }

  lemma VisitFires(g: Guts, pc: nat, bef: Flags, code: Input, v: Flags)
    requires pc < |g.strip| && pc < |bef| && pc + 1 < |v|
    requires Consumes(g.strip[pc]) || g.strip[pc].OBol? || g.strip[pc].OEol?
    requires Fires(g.sets, g.strip[pc], code)
    ensures Visits(g, pc, bef, code, v, v[pc + 1 := v[pc + 1] || bef[pc]])
  {
  }

  lemma VisitNext(g: Guts, pc: nat, bef: Flags, code: Input, v: Flags)
    requires pc < |g.strip| && pc < |bef| && pc + 1 < |v|
    requires var op := g.strip[pc]; op.OPlusOpen? || op.OQuestClose? || op.OLParen? || op.ORParen? || op.OChoiceClose?
    ensures Visits(g, pc, bef, code, v, Fwd(v, pc, 1))
  {
  }

  lemma VisitFork(g: Guts, pc: nat, bef: Flags, code: Input, v: Flags, n: nat)
    requires pc < |g.strip| && pc < |bef| && pc + 1 < |v| && 0 < n && pc + n < |v|
    requires g.strip[pc] == OQuestOpen(n) || g.strip[pc] == OChoiceOpen(n)
      || (g.strip[pc] == OOr2(n) && pc + n < |g.strip| && !g.strip[pc + n].OChoiceClose?)
    ensures Visits(g, pc, bef, code, v, Fwd(Fwd(v, pc, 1), pc, n))
    ensures !Rewinds(g.strip[pc], pc, v, Fwd(Fwd(v, pc, 1), pc, n))
  {
  }

  lemma VisitLastOr2(g: Guts, pc: nat, bef: Flags, code: Input, v: Flags, n: nat)
    requires pc < |g.strip| && pc < |bef| && pc + 1 < |v| && pc + n < |g.strip|
    requires g.strip[pc] == OOr2(n) && g.strip[pc + n].OChoiceClose?
    ensures Visits(g, pc, bef, code, v, Fwd(v, pc, 1)) && !Rewinds(g.strip[pc], pc, v, Fwd(v, pc, 1))
  {
  }

  lemma VisitLoop(g: Guts, pc: nat, bef: Flags, code: Input, v: Flags, n: nat)
    requires pc < |g.strip| && pc < |bef| && pc + 1 < |v| && n <= pc && g.strip[pc] == OPlusClose(n)
    ensures var v1 := Fwd(v, pc, 1); var v2 := v1[pc - n := v1[pc - n] || v1[pc]];
      Visits(g, pc, bef, code, v, v2) && (Rewinds(g.strip[pc], pc, v, v2) <==> !v1[pc - n] && v2[pc - n])
  {
  }

  lemma VisitOr1(g: Guts, pc: nat, bef: Flags, code: Input, v: Flags, look: nat)
    requires pc < |g.strip| && pc < |bef| && pc + look < |v|
    requires g.strip[pc].OOr1? && ChoiceEnd(g.strip, pc + 1) == Some(pc + look)
    ensures Visits(g, pc, bef, code, v, Fwd(v, pc, look)) && !Rewinds(g.strip[pc], pc, v, Fwd(v, pc, look))
    ensures !v[pc] ==> Fwd(v, pc, look) == v
  {
  }

  // ----- The array representation -----

  /** No state of the set is read and written in one visit unless nothing is read. */
  predicate Apart(g: Guts, start: nat, stop: nat, same: bool, code: Input) {
    same ==> forall i :: start <= i < stop && i < |g.strip| ==> !Fires(g.sets, g.strip[i], code)
  }

  method FwdLarge(dst: array<bool>, src: array<bool>, here: nat, n: nat)
    requires here < src.Length && here + n < dst.Length
    modifies dst
    ensures dst[..] == old(dst[..])[here + n := old(dst[here + n]) || old(src[here])]
    ensures dst == src ==> dst[..] == Fwd(old(dst[..]), here, n)
  {
    dst[here + n] := dst[here + n] || src[here];
  }

  /** Follow the OOR2 operators after the OOR1 at `pc`. */
  method Look(strip: seq<Sop>, pc: nat) returns (look: nat)
    requires pc < |strip| && ChoiceEnd(strip, pc + 1).Some?
    ensures ChoiceEnd(strip, pc + 1) == Some(pc + look)
  {
    look := 1;
    while !strip[pc + look].OChoiceClose?
      invariant ChoiceEnd(strip, pc + look) == ChoiceEnd(strip, pc + 1)
      invariant pc + look < |strip|
      decreases |strip| - look
    {
      look := look + strip[pc + look].fwd;
    }
  }

  lemma LinkedAt(strip: seq<Sop>, lo: nat, hi: nat, i: nat)
    requires Linked(strip, lo, hi) && lo <= i < hi
    ensures hi < |strip| && LinkedOp(strip, lo, hi, i)
    ensures match strip[i]
      case OPlusClose(n) => lo + n <= i && n > 0
      case OQuestOpen(n) => 0 < n && i + n <= hi
      case OChoiceOpen(n) => 0 < n && i + n <= hi
      case OOr2(n) => 0 < n && i + n <= hi
      case OOr1(_) => ChoiceEnd(strip, i + 1).Some? && ChoiceEnd(strip, i + 1).value <= hi
      case _ => true
  {
  }

  /** Operators that only lead on. */
  predicate JustEmpty(op: Sop) {
    op.OPlusOpen? || op.OQuestClose? || op.OLParen? || op.ORParen? || op.OChoiceClose?
  }

  lemma VisitPlain(g: Guts, start: nat, stop: nat, same: bool, pc: nat, b: Flags, code: Input, v: Flags)
    requires start <= pc < stop < |v| == |b| && pc < |g.strip| && Apart(g, start, stop, same, code)
    requires var op := g.strip[pc];
      !op.OPlusClose? && !op.OQuestOpen? && !op.OChoiceOpen? && !op.OOr1? && !op.OOr2?
    ensures !JustEmpty(g.strip[pc]) && same ==> !Fires(g.sets, g.strip[pc], code)
    ensures var v' := if JustEmpty(g.strip[pc]) then Fwd(v, pc, 1)
                      else if Fires(g.sets, g.strip[pc], code) then v[pc + 1 := v[pc + 1] || b[pc]] else v;
      Visits(g, pc, b, code, v, v') && !Rewinds(g.strip[pc], pc, v, v')
  {
    if JustEmpty(g.strip[pc]) {
      VisitNext(g, pc, b, code, v);
    } else if Fires(g.sets, g.strip[pc], code) {
      VisitFires(g, pc, b, code, v);
    } else {
      VisitNone(g, pc, b, code, v);
    }
  }

  method BackLarge(v: array<bool>, here: nat, n: nat)
    requires n <= here < v.Length
    modifies v
    ensures v[..] == old(v[..])[here - n := old(v[here - n]) || old(v[here])]
  {
    v[here - n] := v[here - n] || v[here];
  }

  method VisitLarge(g: Guts, start: nat, stop: nat, pc: nat, bef: array<bool>, code: Input, aft: array<bool>, ghost b: Flags)
    returns (again: bool)
    requires Linked(g.strip, start, stop) && start <= pc < stop < aft.Length == bef.Length == |b|
    requires bef != aft ==> bef[..] == b
    requires Apart(g, start, stop, bef == aft, code)
    modifies aft
    ensures Visits(g, pc, b, code, old(aft[..]), aft[..])
    ensures bef != aft ==> bef[..] == old(bef[..])
    ensures again == Rewinds(g.strip[pc], pc, old(aft[..]), aft[..])
  {
    hide *;
    LinkedAt(g.strip, start, stop, pc);
    ghost var v := aft[..];
    again := false;
    match g.strip[pc] {
      case OPlusClose(n) =>
        FwdLarge(aft, aft, pc, 1);
        var i := aft[pc - n];
        BackLarge(aft, pc, n);
        again := !i && aft[pc - n];
        VisitLoop(g, pc, b, code, v, n);
      case OQuestOpen(n) =>
        FwdLarge(aft, aft, pc, 1);
        FwdLarge(aft, aft, pc, n);
        VisitFork(g, pc, b, code, v, n);
      case OChoiceOpen(n) =>
        FwdLarge(aft, aft, pc, 1);
        FwdLarge(aft, aft, pc, n);
        VisitFork(g, pc, b, code, v, n);
      case OOr1(_) =>
        var look := Look(g.strip, pc);
        VisitOr1(g, pc, b, code, v, look);
        if aft[pc] {
          FwdLarge(aft, aft, pc, look);
        }
      case OOr2(n) =>
        FwdLarge(aft, aft, pc, 1);
        if !g.strip[pc + n].OChoiceClose? {
          FwdLarge(aft, aft, pc, n);
          VisitFork(g, pc, b, code, v, n);
        } else {
          VisitLastOr2(g, pc, b, code, v, n);
        }
      case _ =>
        if JustEmpty(g.strip[pc]) {
          FwdLarge(aft, aft, pc, 1);
        } else if Fires(g.sets, g.strip[pc], code) {
          FwdLarge(aft, bef, pc, 1);
        }
        VisitPlain(g, start, stop, bef == aft, pc, b, code, v);
    }
  }

  /** step() on arrays of bytes. */
  method StepLarge(g: Guts, start: nat, stop: nat, bef: array<bool>, code: Input, aft: array<bool>)
    requires Linked(g.strip, start, stop) && 1 <= start && stop < aft.Length == bef.Length
    requires Apart(g, start, stop, bef == aft, code)
    modifies aft
    ensures Steps(g, start, stop, old(bef[..]), code, old(aft[..]), aft[..])
  {
    hide Visits, Linked, Follows, Closed, Least, Reached, Rewinds, Leq, Apart, Steps;
    ghost var b, a := bef[..], aft[..];
    ReachedStart(g, start, stop, b, code, a);
    var pc := start;
    while pc != stop
      invariant start <= pc <= stop
      invariant bef != aft ==> bef[..] == b
      invariant Reached(g, start, stop, b, code, a, aft[..], pc)
      decreases Missing(aft[..]), stop - pc
    {
      ghost var v := aft[..];
      var again := VisitLarge(g, start, stop, pc, bef, code, aft, b);
      VisitAdvances(g, start, stop, b, code, a, v, pc, aft[..]);
      if again {                    // the loop begins once more
        RewindsBack(g.strip, start, stop, pc, v, aft[..]);
        pc := pc - (g.strip[pc].back + 1);
      }
      pc := pc + 1;
    }
    ReachedStop(g, start, stop, b, code, a, aft[..]);
  }

  lemma ReachedStart(g: Guts, lo: nat, hi: nat, bef: Flags, code: Input, aft: Flags)
    requires Linked(g.strip, lo, hi)
    ensures lo <= hi < |g.strip|
    ensures Reached(g, lo, hi, bef, code, aft, aft, lo)
  {
  }

  lemma ReachedStop(g: Guts, lo: nat, hi: nat, bef: Flags, code: Input, aft: Flags, v: Flags)
    requires Reached(g, lo, hi, bef, code, aft, v, hi)
    ensures Steps(g, lo, hi, bef, code, aft, v)
  {
  }

  lemma RewindsBack(strip: seq<Sop>, lo: nat, hi: nat, pc: nat, v: Flags, v': Flags)
    requires Linked(strip, lo, hi) && lo <= pc < hi && Rewinds(strip[pc], pc, v, v')
    ensures strip[pc].OPlusClose? && 0 < strip[pc].back && lo + strip[pc].back <= pc
  {
    assert LinkedOp(strip, lo, hi, pc);
  }

  // ----- The word representation -----

  method FwdSmall(dst: Flags, src: Flags, here: Flags, n: nat, ghost pc: nat) returns (r: Flags)
    requires IsWord(dst) && IsWord(src) && here == Bit(pc) && pc + n < WORD_BITS
    ensures IsWord(r) && r == dst[pc + n := dst[pc + n] || src[pc]]
    ensures dst == src ==> r == Fwd(dst, pc, n)
  {
    Forward(dst, src, pc, n);
    r := Or(dst, Shl(And(src, here), n));
  }

  method BackSmall(v: Flags, here: Flags, n: nat, ghost pc: nat) returns (r: Flags, before: bool, after: bool)
    requires IsWord(v) && here == Bit(pc) && n <= pc < WORD_BITS
    ensures IsWord(r) && r == v[pc - n := v[pc - n] || v[pc]]
    ensures before == v[pc - n] && after == r[pc - n]
  {
    Tested(v, pc, n);
    before := And(v, Shr(here, n)) != NoStates(WORD_BITS);
    Backward(v, v, pc, n);
    r := Or(v, Shr(And(v, here), n));
    Tested(r, pc, n);
    after := And(r, Shr(here, n)) != NoStates(WORD_BITS);
  }

  method VisitSmall(g: Guts, start: nat, stop: nat, pc: nat, here: Flags, bef: Flags, code: Input, v: Flags)
    returns (aft: Flags, again: bool)
    requires Linked(g.strip, start, stop) && start <= pc < stop < WORD_BITS && here == Bit(pc)
    requires IsWord(bef) && IsWord(v)
    ensures IsWord(aft) && Visits(g, pc, bef, code, v, aft)
    ensures again == Rewinds(g.strip[pc], pc, v, aft)
  {
    hide *;
    LinkedAt(g.strip, start, stop, pc);
    WordSize(v);
    WordSize(bef);
    aft, again := v, false;
    match g.strip[pc] {
      case OPlusClose(n) =>
        aft := FwdSmall(aft, aft, here, 1, pc);
        var before, after;
        aft, before, after := BackSmall(aft, here, n, pc);
        again := !before && after;
        VisitLoop(g, pc, bef, code, v, n);
      case OQuestOpen(n) =>
        aft := FwdSmall(aft, aft, here, 1, pc);
        WordSize(aft);
        aft := FwdSmall(aft, aft, here, n, pc);
        VisitFork(g, pc, bef, code, v, n);
      case OChoiceOpen(n) =>
        aft := FwdSmall(aft, aft, here, 1, pc);
        WordSize(aft);
        aft := FwdSmall(aft, aft, here, n, pc);
        VisitFork(g, pc, bef, code, v, n);
      case OOr1(_) =>
        var look := Look(g.strip, pc);
        VisitOr1(g, pc, bef, code, v, look);
        Tested(aft, pc, 0);
        ShiftByNone(here);
        if And(aft, here) != NoStates(WORD_BITS) {
          aft := FwdSmall(aft, aft, here, look, pc);
        }
      case OOr2(n) =>
        aft := FwdSmall(aft, aft, here, 1, pc);
        WordSize(aft);
        if !g.strip[pc + n].OChoiceClose? {
          aft := FwdSmall(aft, aft, here, n, pc);
          VisitFork(g, pc, bef, code, v, n);
        } else {
          VisitLastOr2(g, pc, bef, code, v, n);
        }
      case _ =>
        if JustEmpty(g.strip[pc]) {
          aft := FwdSmall(aft, aft, here, 1, pc);
        } else if Fires(g.sets, g.strip[pc], code) {
          aft := FwdSmall(aft, bef, here, 1, pc);
        }
        Apartness(g, start, stop, code);
        VisitPlain(g, start, stop, false, pc, bef, code, v);
    }
  }

  lemma WordSize(v: Flags)
    requires IsWord(v)
    ensures |v| == WORD_BITS == 64
  {
  }

  lemma ShiftByNone(v: Flags)
    requires IsWord(v)
    ensures Shr(v, 0) == v
  {
  }

  lemma Apartness(g: Guts, start: nat, stop: nat, code: Input)
    ensures Apart(g, start, stop, false, code)
  {
  }

  /** step() on machine words. */
  method StepSmall(g: Guts, start: nat, stop: nat, bef: Flags, code: Input, v: Flags) returns (aft: Flags)
    requires Linked(g.strip, start, stop) && 1 <= start && stop < WORD_BITS
    requires IsWord(bef) && IsWord(v)
    ensures IsWord(aft) && Steps(g, start, stop, bef, code, v, aft)
  {
    hide Visits, Linked, Follows, Closed, Least, Reached, Rewinds, Leq, Apart, Steps;
    ReachedStart(g, start, stop, bef, code, v);
    aft := v;
    var pc := start;
    var here := Bit(pc);
    while pc != stop
      invariant start <= pc <= stop && here == Bit(pc) && IsWord(aft)
      invariant Reached(g, start, stop, bef, code, v, aft, pc)
      decreases Missing(aft), stop - pc
    {
      ghost var u := aft;
      var again;
      aft, again := VisitSmall(g, start, stop, pc, here, bef, code, aft);
      VisitAdvances(g, start, stop, bef, code, v, u, pc, aft);
      if again {
        RewindsBack(g.strip, start, stop, pc, u, aft);
        pc := pc - (g.strip[pc].back + 1);
        here := Bit(pc);
      }
      ShiftedBit(pc);
      pc, here := pc + 1, Shl(here, 1);
    }
    ReachedStop(g, start, stop, bef, code, v, aft);
  }
}
