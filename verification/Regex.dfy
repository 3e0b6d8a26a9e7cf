/** regcomp() and regexec(): a pattern is compiled once and then looked for in texts. */
module Regex {
  import opened Bytes
  import opened Strip
  import opened Ere
  import opened Tame
  import opened BoyerMoore
  import C = Core
  import Moves = CoreMoves
  import States
  import Regcomp
  import Engine
  import Must

  /** The main compiled-expression structure. */
  class ReGuts {
    var g: Guts
    var firststate: nat               // where the strip begins
    var laststate: nat                // where it ends
    var nbol: nat
    var neol: nat
    var must: Option<Word>            // in every match
    var moffset: int                  // no further from the start of a match than this; -1 if not known
    var charjump: array?<nat>
    var matchjump: array?<nat>

    /** What regexec() relies on, for the expression `e` that was compiled. */
    ghost predicate Valid(e: Ere)
      reads this, charjump, matchjump
    {
      && g.strip == [OEnd] + C.Code(Compiled(e)) + [OEnd] && Numbered(e, g.sets)
      && firststate == 0 && laststate == |g.strip| - 1
      && (must.None? ==> moffset == -1)
      && (must.Some? ==> |must.value| > 0 && forall w :: w in C.Words(Compiled(e), g.sets) ==> Must.Contains(w, must.value, moffset))
      && ((charjump == null) == (matchjump == null))
      && (charjump != null && matchjump != null ==> must.Some? && Jumps(must.value, charjump, matchjump))
      && (charjump != null <==> must.Some? && |must.value| > 3)
    }

    constructor (g: Guts, laststate: nat, nbol: nat, neol: nat, ghost e: Ere)
      requires g.strip == [OEnd] + C.Code(Compiled(e)) + [OEnd] && Numbered(e, g.sets) && laststate == |g.strip| - 1
      ensures Valid(e)
    {
      this.g, this.firststate, this.laststate, this.nbol, this.neol := g, 0, laststate, nbol, neol;
      charjump, matchjump := null, null;
      new;
      StripParts(g.strip, e);
      CompiledPlain(e);
      var m, offset, bad := Must.FindMust(g.strip, Compiled(e), g.sets);
      must, moffset := m, offset;
      // short strings are looked for without tables
      if m.Some? && |m.value| > 3 {
        charjump := ComputeJumps(m.value);
        matchjump := ComputeMatchJumps(m.value);
      }
    }
  }

  /** Are these the jump tables of `must`? */
  ghost predicate Jumps(must: Word, charjump: array<nat>, matchjump: array<nat>)
    reads charjump, matchjump
  {
    && |must| > 1 && charjump.Length == 256 && CharJumps(must, charjump[..])
    && matchjump.Length == |must| && MatchJumps(must, matchjump[..])
  }

  lemma StripParts(strip: seq<Sop>, e: Ere)
    requires strip == [OEnd] + C.Code(Compiled(e)) + [OEnd]
    ensures At(strip, 1, C.Code(Compiled(e)) + [OEnd]) && At(strip, 1, C.Code(Compiled(e)))
    ensures 1 + C.Len(Compiled(e)) == |strip| - 1
  {
    hide C.Code;
    var code := C.Code(Compiled(e));
    forall i | 0 <= i < |code + [OEnd]|
      ensures (code + [OEnd])[i] == strip[1 + i]
    {
    }
    AtSplit(strip, 1, code, [OEnd]);
  }

  lemma {:induction false} RepeatedUnanchored(x: C.Core, lo: nat, hi: Option<nat>)
    requires (hi.Some? ==> lo <= hi.value) && Unanchored(x)
    ensures Unanchored(Repeated(x, lo, hi))
    decreases if hi.Some? then hi.value else if lo == 0 then 2 else lo, if lo == 0 then 1 else 0
  {
    if hi == Some(0) {
    } else if lo == 0 {
      RepeatedUnanchored(x, 1, hi);
      assert UnanchoredAlts(C.First(Repeated(x, 1, hi))) && Unanchored(C.Nil);
    } else if lo == 1 {
      if hi.Some? && hi.value > 1 {
        RepeatedUnanchored(x, 1, Some(hi.value - 1));
        assert UnanchoredAlts(C.First(x)) && Unanchored(C.Nil);
        assert Unanchored(C.Choice(C.First(x), C.Nil));
      }
    } else {
      RepeatedUnanchored(x, lo - 1, if hi.None? then None else Some(hi.value - 1));
    }
  }

  lemma {:induction false} CompiledUnanchored(e: Ere)
    requires AnchorFree(e)
    ensures Unanchored(Compiled(e))
    decreases e
  {
    match e
    case Group(_, b) => CompiledUnanchored(b);
    case Cat(l, r) => CompiledUnanchored(l); CompiledUnanchored(r);
    case Alt(a, l) => CompiledBranchesUnanchored(a); CompiledUnanchored(l);
    case Star(b) => CompiledUnanchored(b);
    case Plus(b) => CompiledUnanchored(b);
    case Opt(b) =>
      CompiledUnanchored(b);
      assert UnanchoredAlts(C.First(Compiled(b))) && Unanchored(C.Nil);
    case Rep(b, lo, hi) =>
      CompiledUnanchored(b);
      if BoundsOk(lo, hi) {
        RepeatedUnanchored(Compiled(b), Value(lo), HighBound(lo, hi));
      }
    case _ =>
  }

  lemma {:induction false} CompiledBranchesUnanchored(a: Branches)
    requires AnchorFreeBranches(a)
    ensures UnanchoredAlts(CompiledBranches(a))
    decreases a
  {
    match a
    case First(b) => CompiledUnanchored(b);
    case Then(before, b) => CompiledBranchesUnanchored(before); CompiledUnanchored(b);
  }

  /** regcomp() with REG_EXTENDED. */
  method Compile(pattern: seq<Sym>) returns (re: ReGuts?, error: Option<Regcomp.RegError>, ghost e: Ere)
    ensures error.None? <==> re != null
    ensures error.None? <==> Regcomp.Accepted(pattern)
    ensures re != null ==> fresh(re) && pattern == Text(e) && IsEre(e) && re.Valid(e)
  {
    hide C.Code, Compiled, Regcomp.Accepted;
    var r;
    r, e := Regcomp.Compile(pattern);
    match r
    case Failed(err) => re, error := null, Some(err);
    case Done(g, first, last) =>
      var nbol, neol := 0, 0;
      for i := 0 to |g.strip| {
        if g.strip[i].OBol? {
          nbol := nbol + 1;
        }
        if g.strip[i].OEol? {
          neol := neol + 1;
        }
      }
      error := None;
      re := new ReGuts(g, last, nbol, neol, e);
  }

  /** Does some part of the text belong to the language of the expression? */
  ghost predicate Matches(e: Ere, text: Word) {
    exists i: nat, j: nat :: i <= j <= |text| && text[i..j] in Denotes(e)
  }

  /** Is the strip the code of `e` between two end markers, the last at `last`? */
  ghost predicate Holds(g: Guts, e: Ere, last: nat) {
    && AnchorFree(e) && Numbered(e, g.sets)
    && g.strip == [OEnd] + C.Code(Compiled(e)) + [OEnd] && last + 1 == |g.strip|
  }

  /** A word leads through the strip exactly if the expression denotes it. */
  lemma LeadsExactly(g: Guts, e: Ere, last: nat, w: Word)
    requires Holds(g, e, last)
    ensures Leads(g, 1, last, 1, w, last) <==> w in Denotes(e)
  {
    hide C.Code, C.Words, Leads, Compiled, Denotes, AnchorFree, Numbered, At;
    StripParts(g.strip, e);
    CompiledExact(e, g.sets);
    CompiledPlain(e);
    Moves.CodeExact(g, 1, Compiled(e), w);
  }

  lemma InnerStands(text: Word, must: Word, i: nat, j: nat, k: nat)
    requires i <= j <= |text| && Must.OccursAt(text[i..j], must, k)
    ensures Stands(text, must, i + k)
  {
    var there := text[i + k..i + k + |must|];
    forall t | 0 <= t < |must|
      ensures there[t] == must[t]
    {
      assert text[i..j][k..k + |must|][t] == text[i..j][k + t] == text[i + (k + t)];
    }
  }

  /** The prescreen loses no match, and neither does starting no earlier than it says. */
  lemma StartSafe(text: Word, must: Word, moffset: int, dp: nat, i: nat, j: nat)
    requires i <= j <= |text| && Must.Contains(text[i..j], must, moffset)
    requires forall k: nat :: k < dp ==> !Stands(text, must, k)
    ensures moffset > -1 ==> dp - moffset <= i
  {
    var w := text[i..j];
    var k: nat :| Must.OccursAt(w, must, k) && (moffset > -1 ==> k <= moffset);
    InnerStands(text, must, i, j, k);
  }

  lemma MustStands(text: Word, must: Word, moffset: int, i: nat, j: nat)
    requires i <= j <= |text| && Must.Contains(text[i..j], must, moffset)
    ensures !Nowhere(text, must)
  {
    var w := text[i..j];
    var k: nat :| Must.OccursAt(w, must, k) && (moffset > -1 ==> k <= moffset);
    InnerStands(text, must, i, j, k);
  }

  lemma AcceptedContains(re: ReGuts, e: Ere, w: Word)
    requires re.Valid(e) && AnchorFree(e) && w in Denotes(e) && re.must.Some?
    ensures Must.Contains(w, re.must.value, re.moffset)
  {
    CompiledExact(e, re.g.sets);
  }

  /** The prescreen: where `must` stands first; no match at all if it does not. */
  method Prescreen(re: ReGuts, text: Word, ghost e: Ere) returns (dp: Option<nat>)
    requires re.Valid(e) && re.must.Some?
    ensures dp.Some? ==> FirstAt(text, re.must.value, dp.value)
    ensures dp.None? ==> Nowhere(text, re.must.value)
  {
    hide C.Code, Compiled;
    if re.charjump != null && re.matchjump != null {
      dp := SearchFast(text, re.must.value, re.charjump, re.matchjump);
    } else {
      dp := SearchSlow(text, re.must.value);
    }
  }

  /** The matching engine, for a caller that asks for no sub-matches, and for the whole match if `whole`. */
  method Matcher(re: ReGuts, large: bool, text: Word, notbol: bool, noteol: bool, whole: bool, ghost e: Ere)
    returns (found: bool, so: nat, eo: nat)
    requires re.Valid(e) && AnchorFree(e)
    requires !large ==> |re.g.strip| <= States.WORD_BITS
    ensures found <==> Matches(e, text)
    ensures found && whole ==> so <= eo <= |text| && text[so..eo] in Denotes(e)
    ensures found && whole ==> forall q: nat :: eo < q <= |text| ==> text[so..q] !in Denotes(e)
  {
    hide C.Code, Compiled, Leads, TameStrip, Denotes, Must.Contains, C.Words, FirstAt, Nowhere;
    so, eo := 0, 0;
    ghost var g := re.g;
    var gf, gl := re.firststate + 1, re.laststate;
    var start := 0;
    if re.must.Some? {
      var dp := Prescreen(re, text, e);
      NoneLost(re, e, text, dp);
      if dp.None? {
        return false, 0, 0;
      }
      // a match cannot begin earlier
      if re.moffset > -1 {
        start := if dp.value < re.moffset then 0 else dp.value - re.moffset;
      }
      FirstInside(text, re.must.value, dp.value);
    }
    StripParts(g.strip, e);
    CompiledPlain(e);
    CompiledUnanchored(e);
    CodeTame(g.strip, 1, Compiled(e));
    var f := Engine.Flavour(large, notbol, noteol, re.nbol, re.neol);
    var end, coldp := Engine.Fast(re.g, f, text, start, |text|, gf, gl);
    if end.None? {
      NoMatch(g, e, gl, text, start);
      return false, 0, 0;
    }
    found := true;
    EndsMatch(g, e, gl, text, start, end.value);
    if whole {
      so, eo := FindStart(re, f, text, gl, coldp, end.value, e);
      LongestFrom(g, e, gl, text, so, eo);
    }
  }

  /** Find where a match starts, from `coldp` on, and where the longest one from there ends. */
  method FindStart(re: ReGuts, f: Engine.Flavour, text: Word, gl: nat, coldp: nat, ghost end: nat, ghost e: Ere)
    returns (so: nat, eo: nat)
    requires TameStrip(re.g.strip, 1, gl) && gl < if f.large then |re.g.strip| else States.WORD_BITS
    requires coldp <= end <= |text| && Engine.MatchEnds(re.g, 1, gl, text, coldp, end)
    ensures so <= eo <= |text| && Leads(re.g, 1, gl, 1, text[so..eo], gl)
    ensures forall q: nat :: eo < q <= |text| ==> !Leads(re.g, 1, gl, 1, text[so..q], gl)
  {
    hide Leads, TameStrip, Engine.MatchEnds;
    ghost var match0 := MatchStart(re.g, gl, text, coldp, end);
    so := coldp;
    var endp := Engine.Slow(re.g, f, text, so, |text|, 1, gl);
    while endp.None?
      invariant so <= match0
      invariant endp.Some? ==> so <= endp.value <= |text| && Leads(re.g, 1, gl, 1, text[so..endp.value], gl)
      invariant forall q: nat ::
        so <= q <= |text| && (endp.Some? ==> endp.value < q) ==> !Leads(re.g, 1, gl, 1, text[so..q], gl)
      decreases match0 - so
    {
      assert so != match0;
      so := so + 1;
      endp := Engine.Slow(re.g, f, text, so, |text|, 1, gl);
    }
    eo := endp.value;
  }

  lemma FirstInside(text: Word, must: Word, k: nat)
    requires FirstAt(text, must, k)
    ensures k <= |text|
  {
  }

  /** What the prescreen settles: no match without `must`, and none that starts before the adjusted start. */
  lemma NoneLost(re: ReGuts, e: Ere, text: Word, dp: Option<nat>)
    requires re.Valid(e) && AnchorFree(e) && re.must.Some?
    requires dp.Some? ==> FirstAt(text, re.must.value, dp.value)
    requires dp.None? ==> Nowhere(text, re.must.value)
    ensures dp.None? ==> !Matches(e, text)
    ensures dp.Some? && re.moffset > -1 ==>
      forall i: nat, j: nat :: i <= j <= |text| && text[i..j] in Denotes(e) ==> dp.value - re.moffset <= i
  {
    hide Denotes, C.Code, Compiled;
    forall i: nat, j: nat | i <= j <= |text| && text[i..j] in Denotes(e)
      ensures dp.Some? && (re.moffset > -1 ==> dp.value - re.moffset <= i)
    {
      AcceptedContains(re, e, text[i..j]);
      MustStands(text, re.must.value, re.moffset, i, j);
      if dp.Some? {
        StartSafe(text, re.must.value, re.moffset, dp.value, i, j);
      }
    }
  }

  lemma NoMatch(g: Guts, e: Ere, last: nat, text: Word, start: nat)
    requires Holds(g, e, last) && start <= |text|
    requires forall q: nat :: start <= q <= |text| ==> !Engine.MatchEnds(g, 1, last, text, start, q)
    requires forall i: nat, j: nat :: i <= j <= |text| && text[i..j] in Denotes(e) ==> start <= i
    ensures !Matches(e, text)
  {
    hide Denotes, Holds, Leads, Engine.MatchEnds;
    forall i: nat, j: nat | i <= j <= |text|
      ensures text[i..j] !in Denotes(e)
    {
      LeadsExactly(g, e, last, text[i..j]);
      if text[i..j] in Denotes(e) {
        MatchEndsIntro(g, last, text, start, i, j);
      }
    }
  }

  lemma MatchEndsIntro(g: Guts, last: nat, text: Word, start: nat, i: nat, j: nat)
    requires start <= i <= j <= |text| && Leads(g, 1, last, 1, text[i..j], last)
    ensures Engine.MatchEnds(g, 1, last, text, start, j)
  {
    hide Leads;
  }

  lemma EndsMatch(g: Guts, e: Ere, last: nat, text: Word, start: nat, q: nat)
    requires Holds(g, e, last) && q <= |text| && Engine.MatchEnds(g, 1, last, text, start, q)
    ensures Matches(e, text)
  {
    hide Denotes, Holds, Leads;
    var s: nat :| start <= s <= q && Leads(g, 1, last, 1, text[s..q], last);
    LeadsExactly(g, e, last, text[s..q]);
  }

  lemma MatchStart(g: Guts, last: nat, text: Word, from: nat, q: nat) returns (s: nat)
    requires q <= |text| && Engine.MatchEnds(g, 1, last, text, from, q)
    ensures from <= s <= q && Leads(g, 1, last, 1, text[s..q], last)
  {
    hide Leads;
    s :| from <= s <= q && Leads(g, 1, last, 1, text[s..q], last);
  }

  lemma LongestFrom(g: Guts, e: Ere, last: nat, text: Word, so: nat, eo: nat)
    requires Holds(g, e, last) && so <= eo <= |text| && Leads(g, 1, last, 1, text[so..eo], last)
    requires forall q: nat :: eo < q <= |text| ==> !Leads(g, 1, last, 1, text[so..q], last)
    ensures text[so..eo] in Denotes(e) && forall q: nat :: eo < q <= |text| ==> text[so..q] !in Denotes(e)
  {
    hide Denotes, Holds, Leads;
    LeadsExactly(g, e, last, text[so..eo]);
    forall q: nat | eo < q <= |text|
      ensures text[so..q] !in Denotes(e)
    {
      LeadsExactly(g, e, last, text[so..q]);
    }
  }

  /** regexec(): choose the representation and run the matcher; `forceLarge` is REG_LARGE, which only debugging builds heed. */
  method Regexec(re: ReGuts, text: Word, notbol: bool, noteol: bool, forceLarge: bool, whole: bool, ghost e: Ere)
    returns (found: bool, so: nat, eo: nat)
    requires re.Valid(e) && AnchorFree(e)
    ensures found <==> Matches(e, text)
    ensures found && whole ==> so <= eo <= |text| && text[so..eo] in Denotes(e)
    ensures found && whole ==> forall q: nat :: eo < q <= |text| ==> text[so..q] !in Denotes(e)
  {
    if |re.g.strip| <= States.WORD_BITS && !forceLarge {
      found, so, eo := Matcher(re, false, text, notbol, noteol, whole, e);
    } else {
      found, so, eo := Matcher(re, true, text, notbol, noteol, whole, e);
    }
  }
}
