/** The compiler from patterns to strips, operator by operator. */
module Regcomp {
  import opened Bytes
  import opened Strip
  import opened Ere
  import C = Core
  import R = EreReads

  datatype RegError =
    | REG_EMPTY | REG_EPAREN | REG_BADRPT | REG_EESCAPE | REG_BADBR | REG_EBRACE | REG_EBRACK | REG_ASSERT

  /** Stands for "no upper bound" in a repetition count. */
  const INFINITY: nat := DUPMAX + 1

  function Bounded(to: nat): Option<nat> {
    if to == INFINITY then None else Some(to)
  }

  /** The operator with its operand replaced. */
  function WithOperand(op: Sop, n: nat): Sop {
    match op
    case OChoiceOpen(_) => OChoiceOpen(n)
    case OOr2(_) => OOr2(n)
    case _ => op
  }

  // ----- Equations between strips -----

  lemma Inserted(pre: seq<Sop>, body: seq<Sop>, op: Sop)
    ensures (pre + body)[..|pre|] + [op] + (pre + body)[|pre|..] == pre + ([op] + body)
  {
  }

  lemma Appended(pre: seq<Sop>, body: seq<Sop>, more: seq<Sop>)
    ensures (pre + body) + more == pre + (body + more)
  {
  }

  lemma OptionalCode(x: C.Core)
    ensures C.Code(C.Choice(C.First(x), C.Nil))
      == [OChoiceOpen(C.Len(x) + 2)] + (C.Code(x) + [OOr1(C.Len(x) + 1), OOr2(1)]) + [OChoiceClose(2)]
  {
    hide C.Code;
    assert C.Code(C.Nil) == [] by { NilCode(); }
    ChoiceCode(C.First(x), C.Nil);
    assert [] + [OChoiceClose(2)] == [OChoiceClose(2)];
  }

  lemma NilCode()
    ensures C.Code(C.Nil) == []
  {
  }

  lemma ChoiceCode(a: C.Alts, l: C.Core)
    ensures C.Code(C.Choice(a, l)) == C.CodeAlts(a, C.Len(l) + 1) + (C.Code(l) + [OChoiceClose(C.Len(l) + 2)])
  {
    hide C.CodeAlts;
  }

  lemma PlusCode(x: C.Core)
    ensures C.Code(C.Plus(x)) == [OPlusOpen(C.Len(x) + 1)] + C.Code(x) + [OPlusClose(C.Len(x) + 1)]
  {
  }

  lemma QuestCode(x: C.Core)
    ensures C.Code(C.Quest(x)) == [OQuestOpen(C.Len(x) + 1)] + C.Code(x) + [OQuestClose(C.Len(x) + 1)]
  {
  }

  lemma ParenCode(no: nat, x: C.Core)
    ensures C.Code(C.Paren(no, x)) == [OLParen(no)] + C.Code(x) + [ORParen(no)]
  {
  }

  lemma SeqCode(l: C.Core, r: C.Core)
    ensures C.Code(C.Seq(l, r)) == C.Code(l) + C.Code(r)
  {
  }

  lemma OneCode(op: Sop)
    ensures C.Code(C.One(op)) == [op]
  {
  }

  /** Pointing the last OOR2 elsewhere changes nothing else. */
  lemma AltsPatched(a: C.Alts, n: nat)
    ensures |C.CodeAlts(a, 0)| == |C.CodeAlts(a, n)| == C.LenAlts(a) > 1
    ensures C.CodeAlts(a, 0)[|C.CodeAlts(a, 0)| - 1 := OOr2(n)] == C.CodeAlts(a, n)
  {
    hide C.Code, C.Len;
    C.LenAltsAny(a, n);
    match a
    case First(b) => EndPatched([OChoiceOpen(C.Len(b) + 2)], C.Code(b), OOr1(C.Len(b) + 1), n);
    case Then(before, b) =>
      EndPatched(C.CodeAlts(before, C.Len(b) + 2), C.Code(b), OOr1(C.Len(b) + 2), n);
  }

  lemma EndPatched(front: seq<Sop>, code: seq<Sop>, or1: Sop, n: nat)
    ensures var s := front + (code + [or1, OOr2(0)]);
      s[|s| - 1 := OOr2(n)] == front + (code + [or1, OOr2(n)])
  {
  }

  /** Is `part` the text of `e`, and did compiling it append its code to `pre`? */
  ghost predicate Compiles(part: seq<Sym>, e: Ere, pre: seq<Sop>, strip: seq<Sop>, sets: seq<set<byte>>) {
    part == Text(e) && strip == pre + C.Code(Compiled(e)) && Numbered(e, sets)
  }

  // ----- The state of the parser -----

  class Parse {
    const text: seq<Sym>
    var next: nat                  // next symbol in the pattern
    var error: Option<RegError>
    var strip: seq<Sop>
    var nsub: nat                  // parentheses seen
    var sets: seq<set<byte>>

    constructor (text: seq<Sym>)
      ensures this.text == text && next == 0 && error == None && strip == [] && nsub == 0 && sets == []
    {
      this.text := text;
      next, error, strip, nsub, sets := 0, None, [], 0, [];
    }

    /** An error points the scanner at an empty string. */
    predicate More()
      reads this
    {
      error.None? && next < |text|
    }

    predicate See(c: byte)
      reads this
    {
      More() && text[next] == Raw(c)
    }

    /** What every parsing step keeps: it goes on in the text, keeps the earliest error and the sets. */
    twostate predicate Goes()
      reads this
    {
      && old(next) <= next <= |text|
      && (old(error).Some? ==> error == old(error))
      && old(sets) <= sets
    }

    /** There is an error exactly if what is read here has no end; else it ends where the parser is, and has code or not. */
    twostate predicate Ends(new r: Option<R.Read>, some: bool)
      reads this
    {
      old(error).None? ==> (if error.None? then r == Some(R.Read(next, some)) else r.None?)
    }

    method Seterr(e: RegError)
      modifies `error
      ensures error == if old(error).None? then Some(e) else old(error)
    {
      if error.None? {
        error := Some(e);
      }
    }

    method Require(condition: bool, e: RegError)
      modifies `error
      ensures error == if condition || old(error).Some? then old(error) else Some(e)
    {
      if !condition {
        Seterr(e);
      }
    }

    method Emit(op: Sop)
      modifies `strip
      ensures strip == if error.None? then old(strip) + [op] else old(strip)
    {
      if error.None? {
        strip := strip + [op];
      }
    }

    /** Put an operator in front of what starts at `pos`. */
    method Insert(op: Sop, pos: nat)
      requires error.None? ==> pos <= |strip|
      modifies `strip
      ensures strip == if error.None? then old(strip)[..pos] + [op] + old(strip)[pos..] else old(strip)
    {
      if error.None? {
        var sn := |strip|;
        Emit(op);
        strip := strip[..pos] + [op] + strip[pos..sn];
      }
    }

    /** Gives an operator that leads forward the distance, now that it is known. */
    method Dofwd(pos: nat, value: nat)
      requires error.None? ==> pos < |strip|
      modifies `strip
      ensures strip == if error.None? then old(strip)[pos := WithOperand(old(strip)[pos], value)] else old(strip)
    {
      if error.None? {
        strip := strip[pos := WithOperand(strip[pos], value)];
      }
    }

    /** Emit a duplicate of the operators from `start` to `finish`. */
    method Dupl(start: nat, finish: nat) returns (copy: nat)
      requires start <= finish <= |strip|
      modifies `strip
      ensures copy == old(|strip|) && strip == old(strip) + old(strip)[start..finish]
    {
      copy := |strip|;
      strip := strip + strip[start..finish];
    }

    /** Finish x into (x|), whose OCH_ already stands in front of it. */
    method CloseOptional(start: nat, ghost pre: seq<Sop>, ghost x: C.Core, ghost wrong: nat)
      requires error.None? && start == |pre| && strip == pre + ([OChoiceOpen(wrong)] + C.Code(x))
      modifies `strip
      ensures strip == pre + C.Code(C.Choice(C.First(x), C.Nil))
    {
      hide C.Code, C.CodeAlts;
      ghost var open, body := [OChoiceOpen(C.Len(x) + 2)], C.Code(x);
      Emit(OOr1(|strip| - start));
      Dofwd(start, |strip| - start);
      assert strip == pre + (open + (body + [OOr1(|body| + 1)]));
      Emit(OOr2(0));
      Dofwd(|strip| - 1, |strip| - (|strip| - 1));
      assert strip == pre + (open + (body + [OOr1(|body| + 1), OOr2(1)]));
      Emit(OChoiceClose(|strip| - (|strip| - 2)));
      OptionalCode(x);
    }

    /** Put a loop around what starts at `start`. */
    method Loop(start: nat, ghost pre: seq<Sop>, ghost x: C.Core)
      requires error.None? && start == |pre| && strip == pre + C.Code(x)
      modifies `strip
      ensures strip == pre + C.Code(C.Plus(x))
    {
      Insert(OPlusOpen(|strip| - start + 1), start);
      Inserted(pre, C.Code(x), OPlusOpen(C.Len(x) + 1));
      Emit(OPlusClose(|strip| - start));
      PlusCode(x);
    }

    /** Turns `x`, the end of the strip, into its repetition; larger counts come down to smaller ones. */
    method Repeat(start: nat, from: nat, to: nat, ghost pre: seq<Sop>, ghost x: C.Core)
      requires error.None? ==> start == |pre| && strip == pre + C.Code(x) && from <= to <= INFINITY
      modifies this
      ensures old(error).Some? ==> error == old(error)
      ensures error.None? ==> from < INFINITY && strip == pre + C.Code(Repeated(x, from, Bounded(to)))
      ensures next == old(next) && nsub == old(nsub) && sets == old(sets)
      ensures old(error).None? && from < INFINITY ==> error.None?
      decreases (if to != INFINITY then to else if from == 0 then 2 else from), (if from == 0 then 1 else 0)
    {
      hide C.Code, C.CodeAlts, Repeated;
      if error.Some? {
        return;
      }
      var finish := |strip|;
      if from == 0 && to == 0 {
        strip := strip[..|strip| - (finish - start)];
        RepeatedNever(x);
        assert strip == pre + [];
      } else if from == 0 {
        Insert(OChoiceOpen(|strip| - start + 1), start);
        Inserted(pre, C.Code(x), OChoiceOpen(finish - start + 1));
        ghost var open := [OChoiceOpen(finish - start + 1)];
        Appended(pre, open, C.Code(x));
        Repeat(start + 1, 1, to, pre + open, x);
        ghost var x' := Repeated(x, 1, Bounded(to));
        Appended(pre, open, C.Code(x'));
        CloseOptional(start, pre, x', finish - start + 1);
        RepeatedFromZero(x, Bounded(to));
      } else if from == 1 && to == 1 {
        RepeatedOnce(x);
      } else if from == 1 && to != INFINITY {
        Insert(OChoiceOpen(|strip| - start + 1), start);
        Inserted(pre, C.Code(x), OChoiceOpen(finish - start + 1));
        CloseOptional(start, pre, x, finish - start + 1);
        OptionalMiddle(pre, x);
        var copy := Dupl(start + 1, finish + 1);
        assert copy == finish + 4;
        ghost var optional, x' := C.Choice(C.First(x), C.Nil), Repeated(x, 1, Bounded(to - 1));
        Repeat(copy, 1, to - 1, pre + C.Code(optional), x);
        Appended(pre, C.Code(optional), C.Code(x'));
        SeqCode(optional, x');
        RepeatedFromOne(x, to);
      } else if from == 1 {
        Loop(start, pre, x);
        RepeatedForever(x);
      } else if from != INFINITY {
        var copy := Dupl(start, finish);
        LastPart(pre, C.Code(x));
        var to' := if to == INFINITY then to else to - 1;
        ghost var x' := Repeated(x, from - 1, Bounded(to'));
        Repeat(copy, from - 1, to', pre + C.Code(x), x);
        Appended(pre, C.Code(x), C.Code(x'));
        SeqCode(x, x');
        RepeatedMore(x, from, to);
      } else {
        Seterr(REG_ASSERT);
      }
    }

    // ----- Parsing -----

    /** At a bar: end the branch `code` with OOR1 and OOR2, and point the operator that ends `front` at the latter. */
    method Link(back: nat, fwd: nat, ghost pre: seq<Sop>, ghost front: seq<Sop>, ghost patched: seq<Sop>, ghost code: seq<Sop>)
      returns (prevback: nat, prevfwd: nat)
      requires error.None? && |front| > 0 && strip == pre + (front + code)
      requires fwd == |pre| + |front| - 1 && back <= fwd
      requires patched == front[|front| - 1 := WithOperand(front[|front| - 1], |code| + 2)]
      modifies `strip
      ensures strip == pre + (patched + (code + [OOr1(|pre| + |front| + |code| - back), OOr2(0)]))
      ensures prevfwd == |strip| - 1 && prevback == |strip| - 2
    {
      ghost var or1 := OOr1(|pre| + |front| + |code| - back);
      Emit(OOr1(|strip| - back));
      prevback := |strip| - 1;
      Longer(pre, front, code, [or1]);
      PatchedFront(pre, front, code + [or1], |code| + 2, patched);
      Dofwd(fwd, |strip| - fwd);
      prevfwd := |strip|;
      Emit(OOr2(0));
      Longer(pre, patched, code + [or1], [OOr2(0)]);
      assert code + [or1] + [OOr2(0)] == code + [or1, OOr2(0)];
    }

    /** At a bar after the branch `x` at `conc`, starting the choice if this is its first. */
    method Bar(first: bool, conc: nat, back: nat, fwd: nat, ghost pre: seq<Sop>, ghost a: C.Alts, ghost x: C.Core)
      returns (prevback: nat, prevfwd: nat)
      requires error.None?
      requires first ==> conc == |pre| && strip == pre + C.Code(x)
      requires !first ==> strip == pre + (C.CodeAlts(a, 0) + C.Code(x))
      requires !first ==> fwd == |pre| + C.LenAlts(a) - 1 && back == fwd - 1
      modifies `strip
      ensures strip == pre + C.CodeAlts(if first then C.First(x) else C.Then(a, x), 0)
      ensures prevfwd == |strip| - 1 && prevback == |strip| - 2
    {
      hide C.Code, C.CodeAlts;
      AltsCode(first, a, x);
      if first {
        Insert(OChoiceOpen(|strip| - conc + 1), conc);
        Inserted(pre, C.Code(x), OChoiceOpen(C.Len(x) + 1));
        prevback, prevfwd := Link(conc, conc, pre, [OChoiceOpen(C.Len(x) + 1)], [OChoiceOpen(C.Len(x) + 2)], C.Code(x));
      } else {
        AltsPatched(a, C.Len(x) + 2);
        AltsEnd(a);
        prevback, prevfwd := Link(back, fwd, pre, C.CodeAlts(a, 0), C.CodeAlts(a, C.Len(x) + 2), C.Code(x));
      }
    }

    /** Tail-end fixups of a choice whose last branch is `x`. */
    method EndChoice(back: nat, fwd: nat, ghost pre: seq<Sop>, ghost a: C.Alts, ghost x: C.Core)
      requires error.None? && strip == pre + (C.CodeAlts(a, 0) + C.Code(x))
      requires fwd == |pre| + C.LenAlts(a) - 1 && back == fwd - 1
      modifies `strip
      ensures strip == pre + C.Code(C.Choice(a, x))
    {
      hide C.Code, C.CodeAlts;
      AltsPatched(a, C.Len(x) + 1);
      AltsEnd(a);
      ghost var front, patched := C.CodeAlts(a, 0), C.CodeAlts(a, C.Len(x) + 1);
      PatchedFront(pre, front, C.Code(x), C.Len(x) + 1, patched);
      Dofwd(fwd, |strip| - fwd);
      Emit(OChoiceClose(|strip| - back));
      Longer(pre, patched, C.Code(x), [OChoiceClose(C.Len(x) + 2)]);
      ChoiceCode(a, x);
    }

    /** Concatenation and alternation, up to `stop` or the end of the pattern. */
    method PEre(stop: Option<byte>) returns (ghost e: Ere)
      requires next <= |text|
      modifies this
      ensures Goes()
      ensures error.None? ==> IsEre(e) && Compiles(text[old(next)..next], e, old(strip), strip, sets)
      ensures error.None? ==> next == |text| || (stop.Some? && text[next] == Raw(stop.value))
      ensures old(error).None? ==> R.EreEnd(text, old(next), stop) == if error.None? then Some(next) else None
      decreases |text| - next, 3
    {
      hide C.Code, C.CodeAlts, Text, IsBranch, IsEre, Compiled, Compiles, AltsSoFar, R.EreEnd, R.BranchEnd;
      ghost var pre, from := strip, next;
      ghost var alts: Branches := First(Dot);
      var prevback, prevfwd := 0, 0;
      var first := true;
      while true
        invariant from <= next <= |text| && old(sets) <= sets
        invariant old(error).Some? ==> error == old(error)
        invariant error.None? && first ==> strip == pre && next == from
        invariant error.None? && !first ==> AltsSoFar(text[from..next], alts, pre, strip, sets)
        invariant error.None? && !first ==> prevfwd == |strip| - 1 && prevback == |strip| - 2
        invariant old(error).None? ==> error.None? && R.EreEnd(text, from, stop) == R.EreEnd(text, next, stop)
        decreases |text| - next, error.None?
      {
        var conc := |strip|;
        R.EreStep(text, next, stop);
        ghost var begin, before, sets0 := next, strip, sets;
        ghost var branch := PBranch(stop);
        Require(|strip| != conc, REG_EMPTY);
        if !See(BAR) {
          if error.None? {
            if first {
              e := branch;
              BranchIsEre(branch);
            } else {
              e := Alt(alts, branch);
              AltsSoFarParts(text[from..begin], alts, pre, before, sets0, C.Code(Compiled(branch)));
              Unpack(text[begin..next], branch, before, strip, sets);
              EndChoice(prevback, prevfwd, pre, CompiledBranches(alts), Compiled(branch));
              LastAlt(text, from, begin, next, alts, branch, pre, strip, sets0, sets);
            }
          } else {
            e := branch;
          }
          break;
        }
        Unpack(text[begin..next], branch, before, strip, sets);
        if !first {
          AltsSoFarParts(text[from..begin], alts, pre, before, sets0, C.Code(Compiled(branch)));
        }
        next := next + 1;
        prevback, prevfwd := Bar(first, conc, prevback, prevfwd, pre, CompiledBranches(alts), Compiled(branch));
        NextAlt(text, from, begin, next, first, alts, branch, pre, strip, sets0, sets);
        alts := if first then First(branch) else Then(alts, branch);
        first := false;
      }
    }

    /** Concatenated expressions, up to a bar, `stop` or the end of the pattern. */
    method PBranch(stop: Option<byte>) returns (ghost e: Ere)
      requires next <= |text|
      modifies this
      ensures Goes()
      ensures error.None? && |strip| != old(|strip|) ==>
        old(next) < next && IsBranch(e) && Compiles(text[old(next)..next], e, old(strip), strip, sets)
      ensures error.None? && |strip| == old(|strip|) ==> strip == old(strip)
      ensures error.None? ==>
        next == |text| || text[next] == Raw(BAR) || (stop.Some? && text[next] == Raw(stop.value))
      ensures Ends(R.BranchEnd(text, old(next), stop, false), |strip| != old(|strip|))
      decreases |text| - next, 2
    {
      hide C.Code, Text, IsExp, IsBranch, Compiled, Compiles, EndsInBrace, R.ExpEnd, R.BranchEnd, R.Vanishes;
      e := Dot;
      ghost var pre, from := strip, next;
      ghost var some := false;
      while More() && text[next] != Raw(BAR) && !(stop.Some? && text[next] == Raw(stop.value))
        invariant from <= next <= |text| && old(sets) <= sets
        invariant old(error).Some? ==> error == old(error)
        invariant error.None? && !some ==> next == from && strip == pre
        invariant error.None? && some ==> from < next && IsBranch(e) && Compiles(text[from..next], e, pre, strip, sets)
        invariant error.None? && some && EndsInBrace(e) ==> !DigitAt(text, next)
        invariant old(error).None? ==>
          (R.BranchEnd(text, from, stop, false) == if error.None? then R.BranchEnd(text, next, stop, some && !R.Vanishes(e)) else None)
        decreases |text| - next
      {
        ghost var begin, before, sets0 := next, strip, sets;
        R.BranchUnfolds(text, next, stop, some && !R.Vanishes(e));
        ghost var exp := PEreExp();
        if error.None? {
          if some {
            CatVanishes(e, exp);
            LongerBranch(text, from, begin, next, e, exp, pre, before, strip, sets0, sets);
            e := Cat(e, exp);
          } else {
            ExpIsBranch(exp);
            e := exp;
          }
          some := true;
        }
      }
      if error.None? {
        R.BranchStops(text, next, stop, some && !R.Vanishes(e));
        if some {
          Unpack(text[from..next], e, pre, strip, sets);
          BranchCode(e);
          assert |strip| == |pre| + C.Len(Compiled(e));
        }
      }
    }

    /** An atom and the repetition symbol behind it, if any. */
    method PEreExp() returns (ghost e: Ere)
      requires More()
      modifies this
      ensures Goes() && old(next) < next
      ensures error.None? ==> IsExp(e) && Compiles(text[old(next)..next], e, old(strip), strip, sets)
      ensures error.None? && EndsInBrace(e) ==> !DigitAt(text, next)
      ensures Ends(R.ExpEnd(text, old(next)), !R.Vanishes(e))
      decreases |text| - next, 1
    {
      hide C.Code, Text, Compiled, Compiles, R.AtomEnd, R.BoundsEnd;
      var pos := |strip|;
      ghost var from, pre, sets0 := next, strip, sets;
      var wascaret := See(CARET);
      e := PAtom();
      if !(More() && R.StartsRepetition(text, next)) {
        if error.None? {
          AtomIsExp(e);
        }
        return;
      }
      if error.None? {
        AtomIsExp(e);
      }
      ghost var begin, atom := next, e;
      var c := text[next];
      next := next + 1;
      Require(!wascaret, REG_BADRPT);
      if error.Some? {
        return;
      }
      Unpack(text[from..begin], atom, pre, strip, sets);
      e := PRepetition(c, pos, pre, atom);
      if error.None? {
        ThreeParts(text, from, begin, next);
        Pack(text[from..next], e, pre, strip, sets);
      }
      if More() && R.StartsRepetition(text, next) {
        Seterr(REG_BADRPT);
      }
    }

    /** Repeat the atom at `pos` as the repetition symbol `c` says. */
    method PRepetition(c: Sym, pos: nat, ghost pre: seq<Sop>, ghost atom: Ere) returns (ghost e: Ere)
      requires next <= |text| && error.None? && c in {Raw(STAR), Raw(PLUS), Raw(QUEST), Raw(LBRACE)}
      requires pos == |pre| && strip == pre + C.Code(Compiled(atom))
      requires IsAtom(atom) && !atom.Bol? && Numbered(atom, sets)
      modifies this
      ensures Goes()
      ensures error.None? ==> IsExp(e) && !EndsInBrace(e) && Numbered(e, sets)
      ensures error.None? ==> Text(e) == Text(atom) + ([c] + text[old(next)..next])
      ensures error.None? ==> strip == pre + C.Code(Compiled(e))
      ensures Ends(if c == Raw(LBRACE) then R.BoundsEnd(text, old(next)) else Some(R.Read(old(next), true)), !R.Vanishes(e))
    {
      hide C.Code, Text, Compiled, C.CodeAlts, IsAtom, Chars, UpperText, Repeated, R.BoundsEnd;
      ghost var x := Compiled(atom);
      DupParts(atom);
      if c == Raw(STAR) {
        Loop(pos, pre, x);
        Insert(OQuestOpen(|strip| - pos + 1), pos);
        Inserted(pre, C.Code(C.Plus(x)), OQuestOpen(C.Len(C.Plus(x)) + 1));
        Emit(OQuestClose(|strip| - pos));
        QuestCode(C.Plus(x));
        e := Star(atom);
      } else if c == Raw(PLUS) {
        Loop(pos, pre, x);
        e := Plus(atom);
      } else if c == Raw(QUEST) {
        Insert(OChoiceOpen(|strip| - pos + 1), pos);
        Inserted(pre, C.Code(x), OChoiceOpen(C.Len(x) + 1));
        CloseOptional(pos, pre, x, C.Len(x) + 1);
        e := Opt(atom);
      } else {
        e := PBounds(pos, pre, atom);
        if error.None? {
          RepParts(atom, e.lo, e.hi);
        }
      }
    }

    /** The number of a bound. */
    method PCount() returns (count: nat, ghost ds: seq<byte>)
      requires next <= |text|
      modifies `next, `error
      ensures Goes()
      ensures error.None? ==> text[old(next)..next] == Chars(ds) && IsCount(ds) && count == Value(ds)
      ensures old(error).None? ==> R.CountEnd(text, old(next)) == if error.None? then Some((next, count)) else None
    {
      count, ds := 0, [];
      var ndigits := 0;
      while More() && DigitAt(text, next) && count <= DUPMAX
        invariant old(next) <= next <= |text| && error == old(error)
        invariant text[old(next)..next] == Chars(ds) && count == Value(ds) && ndigits == |ds| == next - old(next)
        invariant error.None? ==> R.CountFrom(text, old(next), 0) == R.CountFrom(text, next, count)
        invariant forall i :: 0 <= i < |ds| ==> IsDigit(ds[i])
        decreases |text| - next
      {
        ghost var more := ds + [text[next].c];
        assert more[..|more| - 1] == ds;
        count := count * 10 + DigitValue(text[next].c);
        ndigits := ndigits + 1;
        next := next + 1;
        ds := more;
      }
      Require(ndigits > 0 && count <= DUPMAX, REG_BADBR);
    }

    /** The upper bound of a repetition, whose lower bound is `count`. */
    method PUpper(count: nat) returns (count2: nat, ghost hi: Upper)
      requires next <= |text|
      modifies `next, `error
      ensures Goes()
      ensures error.None? ==> text[old(next)..next] == UpperText(hi) && (hi.UpTo? ==> IsCount(hi.digits))
      ensures error.None? ==>
        match hi
        case Exact => count2 == count
        case AtLeast => count2 == INFINITY
        case UpTo(ds) => count <= count2 == Value(ds)
      ensures Ends(R.UpperEnd(text, old(next), count), count2 > 0)
    {
      hide R.CountEnd, Value, Chars;
      ghost var from := next;
      if See(COMMA) {
        next := next + 1;
        if More() && DigitAt(text, next) {
          ghost var ds;
          count2, ds := PCount();
          Require(count <= count2, REG_BADBR);
          hi := Upper.UpTo(ds);
          assert error.None? ==> text[from..next] == [Raw(COMMA)] + text[from + 1..next];
        } else {
          count2, hi := INFINITY, AtLeast;
        }
      } else {
        count2, hi := count, Exact;
      }
    }

    /** The rest of a bounded repetition, after its left brace. */
    method PBounds(pos: nat, ghost pre: seq<Sop>, ghost atom: Ere) returns (ghost e: Ere)
      requires next <= |text| && error.None?
      requires pos == |pre| && strip == pre + C.Code(Compiled(atom))
      modifies this
      ensures Goes() && sets == old(sets)
      ensures error.None? ==> e.Rep? && e.body == atom && BoundsOk(e.lo, e.hi)
      ensures error.None? ==> text[old(next)..next] == Chars(e.lo) + UpperText(e.hi) + [Raw(RBRACE)]
      ensures error.None? ==> strip == pre + C.Code(Compiled(e))
      ensures Ends(R.BoundsEnd(text, old(next)), e.Rep? && HighBound(e.lo, e.hi) != Some(0))
    {
      hide C.Code, Compiled, Repeated, Chars, UpperText, IsCount, Value, R.CountEnd, R.UpperEnd;
      ghost var from := next;
      var count, count2: nat;
      ghost var lo, hi;
      count, lo := PCount();
      ghost var mid := next;
      count2, hi := PUpper(count);
      ghost var end := next;
      e := Rep(atom, lo, hi);
      if error.None? {
        CountIsSmall(lo);
        RepCompiled(atom, lo, hi, count2);
        assert text[from..end] == text[from..mid] + text[mid..end];
      }
      Repeat(pos, count, count2, pre, Compiled(atom));
      if See(RBRACE) {
        next := next + 1;
        assert text[from..next] == text[from..end] + [Raw(RBRACE)];
      } else {
        while More() && text[next] != Raw(RBRACE)
          invariant end <= next <= |text|
          modifies `next
          decreases |text| - next
        {
          next := next + 1;
        }
        Require(More(), REG_EBRACE);
        Seterr(REG_BADBR);
      }
    }

    /** How many characters a set has. */
    static method Nch(s: set<byte>) returns (n: nat)
      ensures n == |s|
    {
      n := 0;
      ghost var seen: set<byte> := {};
      for i := 0 to 256
        invariant seen == (set c | c in s && c as int < i) && n == |seen|
      {
        if (i as byte) in s {
          n := n + 1;
          seen := seen + {i as byte};
        }
      }
      assert seen == s;
    }

    /** The first character of a set. */
    static method Firstch(s: set<byte>) returns (c: byte)
      requires s != {}
      ensures c in s && forall d :: d in s ==> c <= d
    {
      ghost var d :| d in s;
      c := 0;
      while c !in s
        invariant forall d :: d in s ==> c <= d
        decreases d - c
      {
        c := c + 1;
      }
    }

    /** The number of a set, merging identical sets. */
    method Freezeset(s: set<byte>) returns (no: nat)
      modifies `sets
      ensures old(sets) <= sets && no < |sets| && sets[no] == s
      ensures sets == old(sets) || sets == old(sets) + [s]
      ensures s in old(sets) ==> sets == old(sets)
    {
      no := 0;
      while no < |sets| && sets[no] != s
        invariant no <= |sets| && s !in sets[..no]
        decreases |sets| - no
      {
        no := no + 1;
      }
      if no == |sets| {
        sets := sets + [s];
      }
    }

    /** A set in brackets. */
    method PBracket(s: set<byte>) returns (ghost e: Ere)
      requires error.None?
      modifies `strip, `sets
      ensures old(sets) <= sets
      ensures e.Brk? && e.s == s && Numbered(e, sets) && strip == old(strip) + C.Code(Compiled(e))
    {
      hide C.Code;
      var n := Nch(s);
      if n == 1 {
        var c := Firstch(s);
        OnlyIsOnly(s, c);
        Emit(OChar(c));
        OneCode(OChar(c));
        e := Brk(s, 0);
      } else {
        var no := Freezeset(s);
        Emit(OAnyOf(no));
        OneCode(OAnyOf(no));
        e := Brk(s, no);
      }
    }

    /** An atom: everything a repetition symbol can follow. */
    method PAtom() returns (ghost e: Ere)
      requires More()
      modifies this
      ensures Goes() && old(next) < next
      ensures error.None? ==> IsAtom(e) && Compiles(text[old(next)..next], e, old(strip), strip, sets)
      ensures error.None? ==> (e.Bol? <==> old(See(CARET)))
      ensures error.None? && EndsInBrace(e) ==> !DigitAt(text, next)
      ensures R.AtomEnd(text, old(next)) == if error.None? then Some(next) else None
      decreases |text| - next, 0
    {
      hide C.Code, R.ParenEnd;
      var c := text[next];
      ghost var from, pre := next, strip;
      next := next + 1;
      e := Dot;
      if c.Bracket? {
        e := PBracket(c.s);
        assert text[from..next] == [c];
      } else if c.c == LPAREN {
        e := PParen();
      } else if c.c == RPAREN {     // closes nothing
        Seterr(REG_EPAREN);
      } else if c.c == CARET {
        Emit(OBol);
        OneCode(OBol);
        e := Bol;
        assert text[from..next] == [c];
      } else if c.c == DOLLAR {
        Emit(OEol);
        OneCode(OEol);
        e := Eol;
        assert text[from..next] == [c];
      } else if c.c == BAR {
        Seterr(REG_EMPTY);
      } else if c.c == STAR || c.c == PLUS || c.c == QUEST {
        Seterr(REG_BADRPT);
      } else if c.c == DOT {
        Emit(OAny);
        OneCode(OAny);
        assert text[from..next] == [c];
      } else if c.c == LBRACKET {   // a bracket that no bracket closes
        Seterr(REG_EBRACK);
      } else if c.c == BACKSLASH {
        Require(More() && text[next].Raw?, REG_EESCAPE);
        if More() {
          Emit(OChar(text[next].c));
          OneCode(OChar(text[next].c));
          e := Esc(text[next].c);
          next := next + 1;
          assert text[from..next] == [c, text[from + 1]];
        }
      } else {
        if c.c == LBRACE {
          Require(!More() || !DigitAt(text, next), REG_BADRPT);
        }
        Emit(OChar(c.c));
        OneCode(OChar(c.c));
        e := Lit(c.c);
        assert text[from..next] == [c];
      }
    }

    /** A parenthesized expression, after its left parenthesis. */
    method PParen() returns (ghost e: Ere)
      requires 0 < next <= |text| && error.None? && text[next - 1] == Raw(LPAREN)
      modifies this
      ensures Goes()
      ensures error.None? ==> IsAtom(e) && (e.Empty? || e.Group?)
      ensures error.None? ==> Compiles(text[old(next) - 1..next], e, old(strip), strip, sets)
      ensures R.ParenEnd(text, old(next)) == if error.None? then Some(next) else None
      decreases |text| - next, 4
    {
      hide C.Code, Compiled, Compiles, Text, IsEre, Numbered, R.EreEnd, R.ParenEnd;
      ghost var from, pre := next, strip;
      R.ParenUnfolds(text, next);
      Require(More(), REG_EPAREN);
      nsub := nsub + 1;
      var subno := nsub;
      Emit(OLParen(subno));
      ghost var open, begin := strip, next;
      ghost var body := Dot;
      if !See(RPAREN) {
        body := PEre(Some(RPAREN));
        e := Group(subno, body);
      } else {
        e := Empty(subno);
      }
      ghost var end := next;
      Emit(ORParen(subno));
      Require(See(RPAREN), REG_EPAREN);
      if error.None? {
        next := next + 1;
        if e.Group? {
          GroupParts(text[begin..end], subno, body, pre, open, strip[..|strip| - 1], sets);
        } else {
          EmptyParts(subno, pre, sets);
        }
        BetweenParens(text, from, end);
      }
    }
  }

  /** The pattern is the text of an expression of the grammar in which no branch vanishes. */
  ghost predicate Accepted(pattern: seq<Sym>) {
    exists e :: IsEre(e) && Text(e) == pattern && R.Solid(e)
  }

  lemma AcceptedExactly(pattern: seq<Sym>)
    ensures Accepted(pattern) ==> R.EreEnd(pattern, 0, None) == Some(|pattern|)
  {
    hide R.EreEnd, R.Solid, IsEre, Text;
    if Accepted(pattern) {
      var e :| IsEre(e) && Text(e) == pattern && R.Solid(e);
      R.ReadsWhole(e);
    }
  }

  lemma ReadsText(pattern: seq<Sym>, e: Ere)
    requires IsEre(e) && pattern == Text(e) && R.EreEnd(pattern, 0, None).Some?
    ensures Accepted(pattern)
  {
    hide R.EreEnd;
    R.ReadsWhole(e);
  }

  /** In the grammar, and refused: nothing but an operand that is to be repeated no times. */
  lemma NoTimesRefused() returns (e: Ere)
    ensures IsEre(e) && Text(e) == Chars(['a' as byte, '{' as byte, '0' as byte, '}' as byte]) && !Accepted(Text(e))
  {
    e := Rep(Lit('a' as byte), ['0' as byte], Exact);
    assert IsCount(e.lo) && Value(e.lo) == 0 by {
      assert e.lo[..0] == [] && Value([]) == 0;
    }
    assert IsAtom(e.body) && !e.body.Bol?;
    assert IsExp(e) && R.Vanishes(e);
    assert IsBranch(e);
    assert Text(e) == Chars(['a' as byte, '{' as byte, '0' as byte, '}' as byte]);
    R.ReadsWhole(e);
    AcceptedExactly(Text(e));
  }

  datatype Outcome = Failed(error: RegError) | Done(g: Guts, firststate: nat, laststate: nat)

  /**
   * Compile a pattern: there is no error exactly if the pattern is the text of an extended regular
   * expression of the grammar none of whose branches vanishes, and then the strip is its code between
   * two end markers.
   */
  method Compile(pattern: seq<Sym>) returns (r: Outcome, ghost e: Ere)
    ensures r.Done? <==> Accepted(pattern)
    ensures r.Done? ==>
      && pattern == Text(e) && IsEre(e) && Numbered(e, r.g.sets)
      && r.g.strip == [OEnd] + C.Code(Compiled(e)) + [OEnd]
      && r.firststate == 0 && r.laststate == |r.g.strip| - 1
  {
    hide C.Code, Compiled;
    AcceptedExactly(pattern);
    hide Accepted;
    var p := new Parse(pattern);
    p.Emit(OEnd);
    e := p.PEre(None);
    if p.error.None? {
      assert pattern[0..p.next] == pattern;
      ReadsText(pattern, e);
      p.Emit(OEnd);
      r := Done(Guts(p.strip, p.sets), 0, |p.strip| - 1);
    } else {
      r := Failed(p.error.value);
    }
  }

  lemma ThreeParts(text: seq<Sym>, from: nat, begin: nat, next: nat)
    requires from <= begin < next <= |text|
    ensures text[from..next] == text[from..begin] + ([text[begin]] + text[begin + 1..next])
  {
  }

  // ----- Which expressions have code -----

  lemma {:induction false} RepeatedCode(x: C.Core, lo: nat, hi: Option<nat>)
    requires (hi.Some? ==> lo <= hi.value) && C.Len(x) > 0
    ensures C.Len(Repeated(x, lo, hi)) == 0 <==> hi == Some(0)
    decreases if hi.Some? then hi.value else if lo == 0 then 2 else lo, if lo == 0 then 1 else 0
  {
    if lo == 1 && hi.Some? && hi.value > 1 {
      RepeatedCode(x, 1, Some(hi.value - 1));
    } else if lo > 1 {
      RepeatedCode(x, lo - 1, if hi.Some? then Some(hi.value - 1) else None);
    }
  }

  lemma AtomCode(e: Ere)
    requires IsAtom(e)
    ensures C.Len(Compiled(e)) > 0 && !R.Vanishes(e)
  {
  }

  /** A branch has code unless all its operands are to be repeated no times. */
  lemma {:induction false} BranchCode(e: Ere)
    requires IsBranch(e)
    ensures C.Len(Compiled(e)) == 0 <==> R.Vanishes(e)
    decreases e
  {
    if e.Cat? {
      BranchCode(e.left);
      BranchCode(e.right);
    } else if e.Rep? {
      AtomCode(e.body);
      RepeatedCode(Compiled(e.body), Value(e.lo), HighBound(e.lo, e.hi));
    } else if !(e.Star? || e.Plus? || e.Opt?) {
      AtomCode(e);
    }
  }

  lemma CatVanishes(e: Ere, exp: Ere)
    ensures R.Vanishes(Cat(e, exp)) <==> R.Vanishes(e) && R.Vanishes(exp)
  {
  }

  // ----- What the parser's steps add up to -----

  lemma AltsEnd(a: C.Alts)
    ensures C.LenAlts(a) > 1 && C.CodeAlts(a, 0)[C.LenAlts(a) - 1] == OOr2(0)
  {
    AltsPatched(a, 0);
  }

  lemma AltsCode(first: bool, a: C.Alts, x: C.Core)
    ensures first ==>
      C.CodeAlts(C.First(x), 0) == [OChoiceOpen(C.Len(x) + 2)] + (C.Code(x) + [OOr1(C.Len(x) + 1), OOr2(0)])
    ensures !first ==>
      C.CodeAlts(C.Then(a, x), 0) == C.CodeAlts(a, C.Len(x) + 2) + (C.Code(x) + [OOr1(C.Len(x) + 2), OOr2(0)])
  {
    hide C.Code;
  }

  lemma PatchedFront(pre: seq<Sop>, front: seq<Sop>, code: seq<Sop>, n: nat, patched: seq<Sop>)
    requires |front| > 0 && patched == front[|front| - 1 := WithOperand(front[|front| - 1], n)]
    ensures var s := pre + (front + code);
      s[|pre| + |front| - 1] == front[|front| - 1]
      && s[|pre| + |front| - 1 := WithOperand(front[|front| - 1], n)] == pre + (patched + code)
  {
  }

  lemma Longer(pre: seq<Sop>, front: seq<Sop>, code: seq<Sop>, more: seq<Sop>)
    ensures pre + (front + code) + more == pre + (front + (code + more))
  {
  }

  /** The text and the strip after the bars seen so far. */
  ghost predicate AltsSoFar(part: seq<Sym>, alts: Branches, pre: seq<Sop>, strip: seq<Sop>, sets: seq<set<byte>>) {
    && part == BranchesText(alts) + [Raw(BAR)] && AreBranches(alts) && NumberedBranches(alts, sets)
    && strip == pre + C.CodeAlts(CompiledBranches(alts), 0)
  }

  lemma AltsSoFarParts(part: seq<Sym>, alts: Branches, pre: seq<Sop>, strip: seq<Sop>, sets: seq<set<byte>>, code: seq<Sop>)
    requires AltsSoFar(part, alts, pre, strip, sets)
    ensures part == BranchesText(alts) + [Raw(BAR)] && AreBranches(alts) && NumberedBranches(alts, sets)
    ensures |strip| == |pre| + C.LenAlts(CompiledBranches(alts))
    ensures strip + code == pre + (C.CodeAlts(CompiledBranches(alts), 0) + code)
  {
    hide C.CodeAlts, CompiledBranches;
    Appended(pre, C.CodeAlts(CompiledBranches(alts), 0), code);
    AltsEnd(CompiledBranches(alts));
    AltsPatched(CompiledBranches(alts), 0);
  }

  lemma Unpack(part: seq<Sym>, e: Ere, pre: seq<Sop>, strip: seq<Sop>, sets: seq<set<byte>>)
    requires Compiles(part, e, pre, strip, sets)
    ensures part == Text(e) && strip == pre + C.Code(Compiled(e)) && Numbered(e, sets)
  {
  }

  lemma Pack(part: seq<Sym>, e: Ere, pre: seq<Sop>, strip: seq<Sop>, sets: seq<set<byte>>)
    requires part == Text(e) && strip == pre + C.Code(Compiled(e)) && Numbered(e, sets)
    ensures Compiles(part, e, pre, strip, sets)
  {
  }

  lemma DupParts(e: Ere)
    ensures Text(Star(e)) == Text(e) + [Raw(STAR)]
    ensures Text(Plus(e)) == Text(e) + [Raw(PLUS)]
    ensures Text(Opt(e)) == Text(e) + [Raw(QUEST)]
    ensures Compiled(Star(e)) == C.Quest(C.Plus(Compiled(e)))
    ensures Compiled(Plus(e)) == C.Plus(Compiled(e))
    ensures Compiled(Opt(e)) == C.Choice(C.First(Compiled(e)), C.Nil)
  {
  }

  lemma RepParts(e: Ere, lo: seq<byte>, hi: Upper)
    ensures Text(Rep(e, lo, hi)) == Text(e) + ([Raw(LBRACE)] + (Chars(lo) + UpperText(hi) + [Raw(RBRACE)]))
  {
    hide Chars, UpperText;
    var a, b, c, d := [Raw(LBRACE)], Chars(lo), UpperText(hi), [Raw(RBRACE)];
    assert a + b + c + d == a + (b + c + d);
  }

  lemma BetweenParens(text: seq<Sym>, from: nat, end: nat)
    requires 0 < from <= end < |text| && text[from - 1] == Raw(LPAREN) && text[end] == Raw(RPAREN)
    ensures text[from - 1..end + 1] == [Raw(LPAREN)] + text[from..end] + [Raw(RPAREN)]
  {
  }

  lemma GroupParts(part: seq<Sym>, no: nat, e: Ere, pre: seq<Sop>, open: seq<Sop>, strip: seq<Sop>, sets: seq<set<byte>>)
    requires IsEre(e) && open == pre + [OLParen(no)] && Compiles(part, e, open, strip, sets)
    ensures IsAtom(Group(no, e))
    ensures Compiles([Raw(LPAREN)] + part + [Raw(RPAREN)], Group(no, e), pre, strip + [ORParen(no)], sets)
  {
    hide C.Code, IsEre;
    ParenCode(no, Compiled(e));
    var code := C.Code(Compiled(e));
    assert pre + [OLParen(no)] + code + [ORParen(no)] == pre + ([OLParen(no)] + code + [ORParen(no)]);
  }

  lemma EmptyParts(no: nat, pre: seq<Sop>, sets: seq<set<byte>>)
    ensures IsAtom(Empty(no))
    ensures Compiles([Raw(LPAREN)] + [] + [Raw(RPAREN)], Empty(no), pre, pre + [OLParen(no)] + [ORParen(no)], sets)
  {
    hide C.Code;
    ParenCode(no, C.Nil);
    NilCode();
    assert pre + [OLParen(no)] + [ORParen(no)] == pre + ([OLParen(no)] + [] + [ORParen(no)]);
  }

  lemma AtomIsExp(e: Ere)
    requires IsAtom(e)
    ensures IsExp(e)
  {
  }

  lemma AltIsNoExp(e: Ere)
    requires e.Alt?
    ensures !IsExp(e)
  {
  }

  lemma ExpIsBranch(e: Ere)
    requires IsExp(e)
    ensures IsBranch(e)
  {
  }

  lemma BranchIsEre(e: Ere)
    requires IsBranch(e)
    ensures IsEre(e)
  {
    if e.Alt? {
      AltIsNoExp(e);
    }
  }

  lemma LongerBranch(text: seq<Sym>, from: nat, begin: nat, end: nat, e: Ere, exp: Ere,
                     pre: seq<Sop>, before: seq<Sop>, strip: seq<Sop>, sets0: seq<set<byte>>, sets: seq<set<byte>>)
    requires from <= begin < end <= |text| && sets0 <= sets
    requires IsBranch(e) && Compiles(text[from..begin], e, pre, before, sets0)
    requires IsExp(exp) && Compiles(text[begin..end], exp, before, strip, sets)
    requires EndsInBrace(e) ==> !DigitAt(text, begin)
    ensures IsBranch(Cat(e, exp)) && Compiles(text[from..end], Cat(e, exp), pre, strip, sets)
    ensures EndsInBrace(Cat(e, exp)) ==> EndsInBrace(exp)
  {
    hide C.Code, Text, Compiled, IsExp, Compiles;
    Unpack(text[from..begin], e, pre, before, sets0);
    Unpack(text[begin..end], exp, before, strip, sets);
    NumberedMore(e, sets0, sets);
    assert text[from..end] == text[from..begin] + text[begin..end];
    assert text[begin..end][0] == text[begin];
    Appended(pre, C.Code(Compiled(e)), C.Code(Compiled(exp)));
    CatParts(e, exp);
    Pack(text[from..end], Cat(e, exp), pre, strip, sets);
  }

  lemma CatParts(l: Ere, r: Ere)
    ensures Text(Cat(l, r)) == Text(l) + Text(r)
    ensures C.Code(Compiled(Cat(l, r))) == C.Code(Compiled(l)) + C.Code(Compiled(r))
  {
    hide C.Code;
    SeqCode(Compiled(l), Compiled(r));
  }

  lemma UpToBar(text: seq<Sym>, from: nat, begin: nat, end: nat)
    requires from <= begin < end <= |text| && text[end - 1] == Raw(BAR)
    ensures text[from..end] == text[from..begin] + text[begin..end - 1] + [Raw(BAR)]
    ensures text[begin..end] == text[begin..end - 1] + [Raw(BAR)]
  {
  }

  lemma NextAlt(text: seq<Sym>, from: nat, begin: nat, end: nat, first: bool, alts: Branches, branch: Ere,
                pre: seq<Sop>, strip: seq<Sop>, sets0: seq<set<byte>>, sets: seq<set<byte>>)
    requires from <= begin < end <= |text| && sets0 <= sets && text[end - 1] == Raw(BAR)
    requires first ==> begin == from
    requires !first ==> text[from..begin] == BranchesText(alts) + [Raw(BAR)] && AreBranches(alts) && NumberedBranches(alts, sets0)
    requires IsBranch(branch) && text[begin..end - 1] == Text(branch) && Numbered(branch, sets)
    requires strip == pre + C.CodeAlts(if first then C.First(Compiled(branch)) else C.Then(CompiledBranches(alts), Compiled(branch)), 0)
    ensures AltsSoFar(text[from..end], if first then First(branch) else Then(alts, branch), pre, strip, sets)
  {
    hide C.CodeAlts, Text, Compiled, IsBranch;
    UpToBar(text, from, begin, end);
    if !first {
      NumberedBranchesMore(alts, sets0, sets);
    }
  }

  lemma LastAlt(text: seq<Sym>, from: nat, begin: nat, end: nat, alts: Branches, branch: Ere,
                pre: seq<Sop>, strip: seq<Sop>, sets0: seq<set<byte>>, sets: seq<set<byte>>)
    requires from <= begin <= end <= |text| && sets0 <= sets
    requires text[from..begin] == BranchesText(alts) + [Raw(BAR)] && AreBranches(alts) && NumberedBranches(alts, sets0)
    requires IsBranch(branch) && text[begin..end] == Text(branch) && Numbered(branch, sets)
    requires strip == pre + C.Code(C.Choice(CompiledBranches(alts), Compiled(branch)))
    ensures IsEre(Alt(alts, branch)) && Compiles(text[from..end], Alt(alts, branch), pre, strip, sets)
  {
    hide C.Code, IsBranch;
    NumberedBranchesMore(alts, sets0, sets);
    assert text[from..end] == text[from..begin] + text[begin..end];
  }

  lemma CountIsSmall(ds: seq<byte>)
    requires IsCount(ds)
    ensures Value(ds) <= DUPMAX
  {
  }

  lemma RepCompiled(e: Ere, lo: seq<byte>, hi: Upper, count2: nat)
    requires IsCount(lo) && (hi.UpTo? ==> IsCount(hi.digits))
    requires match hi
      case Exact => count2 == Value(lo)
      case AtLeast => count2 == INFINITY
      case UpTo(ds) => Value(lo) <= count2 == Value(ds)
    ensures Value(lo) <= count2 <= INFINITY && BoundsOk(lo, hi)
    ensures Compiled(Rep(e, lo, hi)) == Repeated(Compiled(e), Value(lo), Bounded(count2))
  {
    hide C.Code, Repeated, Value;
  }

  lemma LastPart(pre: seq<Sop>, body: seq<Sop>)
    ensures (pre + body)[|pre|..|pre + body|] == body
  {
  }

  lemma RepeatedNever(x: C.Core)
    ensures C.Code(Repeated(x, 0, Bounded(0))) == []
  {
    NilCode();
  }

  lemma RepeatedFromZero(x: C.Core, hi: Option<nat>)
    requires hi != Some(0)
    ensures Repeated(x, 0, hi) == C.Choice(C.First(Repeated(x, 1, hi)), C.Nil)
  {
  }

  lemma RepeatedOnce(x: C.Core)
    ensures Repeated(x, 1, Bounded(1)) == x
  {
  }

  lemma RepeatedFromOne(x: C.Core, to: nat)
    requires 1 < to < INFINITY
    ensures Repeated(x, 1, Bounded(to)) == C.Seq(C.Choice(C.First(x), C.Nil), Repeated(x, 1, Bounded(to - 1)))
  {
  }

  lemma RepeatedForever(x: C.Core)
    ensures Repeated(x, 1, Bounded(INFINITY)) == C.Plus(x)
  {
  }

  lemma RepeatedMore(x: C.Core, from: nat, to: nat)
    requires 1 < from <= to <= INFINITY && from < INFINITY
    ensures Repeated(x, from, Bounded(to))
      == C.Seq(x, Repeated(x, from - 1, Bounded(if to == INFINITY then to else to - 1)))
  {
  }

  lemma OptionalMiddle(pre: seq<Sop>, x: C.Core)
    ensures var s := pre + C.Code(C.Choice(C.First(x), C.Nil));
      && |s| == |pre| + C.Len(x) + 4
      && s[|pre| + 1..|pre| + 1 + C.Len(x)] == C.Code(x)
  {
    OptionalCode(x);
  }
}
