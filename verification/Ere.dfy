/**
 * Extended regular expressions as XBD section 9.4 writes them: their text, their grammar,
 * the language each denotes, and the strip expression each is compiled to.
 */
module Ere {
  import opened Bytes
  import opened Languages
  import opened Strip
  import C = Core

  /** One symbol of a pattern: a character, or a whole bracket expression with the set it denotes. */
  datatype Sym = Raw(c: byte) | Bracket(s: set<byte>)

  datatype Ere =
    | Lit(c: byte)
    | Esc(c: byte)                   // \c
    | Dot
    | Brk(s: set<byte>, no: nat)     // [...], which the compiler gave set number no
    | Bol
    | Eol
    | Empty(no: nat)                 // ()
    | Group(no: nat, body: Ere)
    | Cat(left: Ere, right: Ere)
    | Alt(branches: Branches, last: Ere)
    | Star(body: Ere)
    | Plus(body: Ere)
    | Opt(body: Ere)
    | Rep(body: Ere, lo: seq<byte>, hi: Upper)

  datatype Branches = First(branch: Ere) | Then(before: Branches, branch: Ere)

  /** The upper bound of {m}, {m,} and {m,n}. */
  datatype Upper = Exact | AtLeast | UpTo(digits: seq<byte>)

  const LPAREN: byte := '(' as byte
  const RPAREN: byte := ')' as byte
  const CARET: byte := '^' as byte
  const DOLLAR: byte := '$' as byte
  const BAR: byte := '|' as byte
  const STAR: byte := '*' as byte
  const PLUS: byte := '+' as byte
  const QUEST: byte := '?' as byte
  const DOT: byte := '.' as byte
  const LBRACKET: byte := '[' as byte
  const BACKSLASH: byte := '\\' as byte
  const LBRACE: byte := '{' as byte
  const RBRACE: byte := '}' as byte
  const COMMA: byte := ',' as byte

  /** The most repetitions a bound may ask for. */
  const DUPMAX: nat := 255

  predicate IsDigit(c: byte) {
    '0' as byte <= c <= '9' as byte
  }

  predicate DigitAt(text: seq<Sym>, i: nat) {
    i < |text| && text[i].Raw? && IsDigit(text[i].c)
  }

  /** The characters that do not stand for themselves. */
  predicate Special(c: byte) {
    c in {LPAREN, RPAREN, CARET, DOLLAR, BAR, STAR, PLUS, QUEST, DOT, LBRACKET, BACKSLASH}
  }

  // ----- The text of an expression -----

  function Chars(cs: seq<byte>): (r: seq<Sym>)
    ensures |r| == |cs| && forall i :: 0 <= i < |cs| ==> r[i] == Raw(cs[i])
  {
    seq(|cs|, i requires 0 <= i < |cs| => Raw(cs[i]))
  }

  function UpperText(hi: Upper): seq<Sym> {
    match hi
    case Exact => []
    case AtLeast => [Raw(COMMA)]
    case UpTo(ds) => [Raw(COMMA)] + Chars(ds)
  }

  function Text(e: Ere): seq<Sym> {
    match e
    case Lit(c) => [Raw(c)]
    case Esc(c) => [Raw(BACKSLASH), Raw(c)]
    case Dot => [Raw(DOT)]
    case Brk(s, _) => [Bracket(s)]
    case Bol => [Raw(CARET)]
    case Eol => [Raw(DOLLAR)]
    case Empty(_) => [Raw(LPAREN), Raw(RPAREN)]
    case Group(_, b) => [Raw(LPAREN)] + Text(b) + [Raw(RPAREN)]
    case Cat(l, r) => Text(l) + Text(r)
    case Alt(a, l) => BranchesText(a) + [Raw(BAR)] + Text(l)
    case Star(b) => Text(b) + [Raw(STAR)]
    case Plus(b) => Text(b) + [Raw(PLUS)]
    case Opt(b) => Text(b) + [Raw(QUEST)]
    case Rep(b, lo, hi) => Text(b) + ([Raw(LBRACE)] + Chars(lo) + UpperText(hi) + [Raw(RBRACE)])
  }

  function BranchesText(a: Branches): seq<Sym> {
    match a
    case First(b) => Text(b)
    case Then(before, b) => BranchesText(before) + [Raw(BAR)] + Text(b)
  }

  // ----- The grammar -----

  predicate IsAtom(e: Ere)
    decreases e, 0
  {
    match e
    case Lit(c) => !Special(c)
    case Group(_, b) => IsEre(b)
    case Esc(_) => true
    case Dot => true
    case Brk(_, _) => true
    case Bol => true
    case Eol => true
    case Empty(_) => true
    case _ => false
  }

  /** An atom with at most one repetition symbol; a caret takes none. */
  predicate IsExp(e: Ere)
    decreases e, 1
  {
    match e
    case Star(b) => IsAtom(b) && !b.Bol?
    case Plus(b) => IsAtom(b) && !b.Bol?
    case Opt(b) => IsAtom(b) && !b.Bol?
    case Rep(b, lo, hi) => IsAtom(b) && !b.Bol? && BoundsOk(lo, hi)
    case _ => IsAtom(e)
  }

  /** A left brace that stands for itself is not followed by a digit. */
  predicate IsBranch(e: Ere)
    decreases e, 2
  {
    match e
    case Cat(l, r) =>
      IsBranch(l) && IsExp(r) && !(EndsInBrace(l) && DigitAt(Text(r), 0))
    case _ => IsExp(e)
  }

  predicate EndsInBrace(e: Ere) {
    match e
    case Cat(_, r) => r == Lit(LBRACE)
    case _ => e == Lit(LBRACE)
  }

  predicate IsEre(e: Ere)
    decreases e, 3
  {
    match e
    case Alt(a, l) => AreBranches(a) && IsBranch(l)
    case _ => IsBranch(e)
  }

  predicate AreBranches(a: Branches)
    decreases a, 0
  {
    match a
    case First(b) => IsBranch(b)
    case Then(before, b) => AreBranches(before) && IsBranch(b)
  }

  function Value(ds: seq<byte>): nat {
    if ds == [] then 0 else 10 * Value(ds[..|ds| - 1]) + DigitValue(ds[|ds| - 1])
  }

  function DigitValue(c: byte): nat {
    if IsDigit(c) then c as int - '0' as int else 0
  }

  predicate IsCount(ds: seq<byte>) {
    ds != [] && (forall i :: 0 <= i < |ds| ==> IsDigit(ds[i])) && Value(ds) <= DUPMAX
  }

  predicate BoundsOk(lo: seq<byte>, hi: Upper) {
    IsCount(lo) && (hi.UpTo? ==> IsCount(hi.digits) && Value(lo) <= Value(hi.digits))
  }

  function HighBound(lo: seq<byte>, hi: Upper): Option<nat> {
    match hi
    case Exact => Some(Value(lo))
    case AtLeast => None
    case UpTo(ds) => Some(Value(ds))
  }

  // ----- The language -----

  /** The language of an expression without anchors, as XBD section 9.4 defines it. */
  ghost function Denotes(e: Ere): Lang {
    match e
    case Lit(c) => iset{[c]}
    case Esc(c) => iset{[c]}
    case Dot => iset c: byte | true :: [c]
    case Brk(s, _) => iset c: byte | c in s :: [c]
    case Bol => iset{}
    case Eol => iset{}
    case Empty(_) => EPSILON
    case Group(_, b) => Denotes(b)
    case Cat(l, r) => Concat(Denotes(l), Denotes(r))
    case Alt(a, l) => BranchesDenote(a) + Denotes(l)
    case Star(b) => StarOf(Denotes(b))
    case Plus(b) => PlusOf(Denotes(b))
    case Opt(b) => Denotes(b) + EPSILON
    case Rep(b, lo, hi) => Between(Denotes(b), Value(lo), HighBound(lo, hi))
  }

  ghost function BranchesDenote(a: Branches): Lang {
    match a
    case First(b) => Denotes(b)
    case Then(before, b) => BranchesDenote(before) + Denotes(b)
  }

  predicate AnchorFree(e: Ere) {
    match e
    case Bol => false
    case Eol => false
    case Group(_, b) => AnchorFree(b)
    case Cat(l, r) => AnchorFree(l) && AnchorFree(r)
    case Alt(a, l) => AnchorFreeBranches(a) && AnchorFree(l)
    case Star(b) => AnchorFree(b)
    case Plus(b) => AnchorFree(b)
    case Opt(b) => AnchorFree(b)
    case Rep(b, _, _) => AnchorFree(b)
    case _ => true
  }

  predicate AnchorFreeBranches(a: Branches) {
    match a
    case First(b) => AnchorFree(b)
    case Then(before, b) => AnchorFreeBranches(before) && AnchorFree(b)
  }

  /** Do the set numbers in `e` refer to its sets, and are its bounds in order? */
  ghost predicate Numbered(e: Ere, sets: seq<set<byte>>) {
    match e
    case Brk(s, no) => |s| != 1 ==> no < |sets| && sets[no] == s
    case Group(_, b) => Numbered(b, sets)
    case Cat(l, r) => Numbered(l, sets) && Numbered(r, sets)
    case Alt(a, l) => NumberedBranches(a, sets) && Numbered(l, sets)
    case Star(b) => Numbered(b, sets)
    case Plus(b) => Numbered(b, sets)
    case Opt(b) => Numbered(b, sets)
    case Rep(b, lo, hi) => Numbered(b, sets) && BoundsOk(lo, hi)
    case _ => true
  }

  ghost predicate NumberedBranches(a: Branches, sets: seq<set<byte>>) {
    match a
    case First(b) => Numbered(b, sets)
    case Then(before, b) => NumberedBranches(before, sets) && Numbered(b, sets)
  }

  lemma NumberedMore(e: Ere, sets: seq<set<byte>>, sets': seq<set<byte>>)
    requires Numbered(e, sets) && sets <= sets'
    ensures Numbered(e, sets')
    decreases e
  {
    match e
    case Group(_, b) => NumberedMore(b, sets, sets');
    case Cat(l, r) => NumberedMore(l, sets, sets'); NumberedMore(r, sets, sets');
    case Alt(a, l) => NumberedBranchesMore(a, sets, sets'); NumberedMore(l, sets, sets');
    case Star(b) => NumberedMore(b, sets, sets');
    case Plus(b) => NumberedMore(b, sets, sets');
    case Opt(b) => NumberedMore(b, sets, sets');
    case Rep(b, _, _) => NumberedMore(b, sets, sets');
    case _ =>
  }

  lemma NumberedBranchesMore(a: Branches, sets: seq<set<byte>>, sets': seq<set<byte>>)
    requires NumberedBranches(a, sets) && sets <= sets'
    ensures NumberedBranches(a, sets')
    decreases a
  {
    match a
    case First(b) => NumberedMore(b, sets, sets');
    case Then(before, b) => NumberedBranchesMore(before, sets, sets'); NumberedMore(b, sets, sets');
  }

  // ----- What an expression is compiled to -----

  ghost function Only(s: set<byte>): byte
    requires |s| == 1
  {
    var c :| c in s; c
  }

  lemma OnlyIsOnly(s: set<byte>, c: byte)
    requires |s| == 1 && c in s
    ensures Only(s) == c && s == {c}
  {
    assert |s - {c}| == 0;
    assert s - {c} == {};
  }

  /** x{lo,hi}, written out as repeat() does, with x? as (x|). */
  function Repeated(x: C.Core, lo: nat, hi: Option<nat>): C.Core
    requires hi.Some? ==> lo <= hi.value
    decreases if hi.Some? then hi.value else if lo == 0 then 2 else lo, if lo == 0 then 1 else 0
  {
    if hi == Some(0) then C.Nil
    else if lo == 0 then C.Choice(C.First(Repeated(x, 1, hi)), C.Nil)
    else if lo == 1 then
      if hi.None? then C.Plus(x)
      else if hi.value == 1 then x
      else C.Seq(C.Choice(C.First(x), C.Nil), Repeated(x, 1, Less(hi)))
    else C.Seq(x, Repeated(x, lo - 1, Less(hi)))
  }

  ghost function Compiled(e: Ere): C.Core {
    match e
    case Lit(c) => C.One(OChar(c))
    case Esc(c) => C.One(OChar(c))
    case Dot => C.One(OAny)
    case Brk(s, no) => if |s| == 1 then C.One(OChar(Only(s))) else C.One(OAnyOf(no))
    case Bol => C.One(OBol)
    case Eol => C.One(OEol)
    case Empty(no) => C.Paren(no, C.Nil)
    case Group(no, b) => C.Paren(no, Compiled(b))
    case Cat(l, r) => C.Seq(Compiled(l), Compiled(r))
    case Alt(a, l) => C.Choice(CompiledBranches(a), Compiled(l))
    case Star(b) => C.Quest(C.Plus(Compiled(b)))
    case Plus(b) => C.Plus(Compiled(b))
    case Opt(b) => C.Choice(C.First(Compiled(b)), C.Nil)
    case Rep(b, lo, hi) => if BoundsOk(lo, hi) then Repeated(Compiled(b), Value(lo), HighBound(lo, hi)) else C.Nil
  }

  ghost function CompiledBranches(a: Branches): C.Alts {
    match a
    case First(b) => C.First(Compiled(b))
    case Then(before, b) => C.Then(CompiledBranches(before), Compiled(b))
  }

  // ----- Compiling keeps the language -----

  lemma {:induction false} RepeatedExact(x: C.Core, lo: nat, hi: Option<nat>, sets: seq<set<byte>>)
    requires (hi.Some? ==> lo <= hi.value) && C.Plain(x)
    ensures C.Plain(Repeated(x, lo, hi))
    ensures C.Words(Repeated(x, lo, hi), sets) == Between(C.Words(x, sets), lo, hi)
    decreases if hi.Some? then hi.value else if lo == 0 then 2 else lo, if lo == 0 then 1 else 0
  {
    hide Between, Concat, C.Code;
    var a := C.Words(x, sets);
    if hi == Some(0) {
      BetweenNone(a);
    } else if lo == 0 {
      RepeatedExact(x, 1, hi, sets);
      OptionalExact(Repeated(x, 1, hi), sets);
      BetweenZero(a, hi);
    } else if lo == 1 {
      if hi == Some(1) {
        BetweenOne(a);
      } else if hi.Some? {
        RepeatedExact(x, 1, Less(hi), sets);
        OptionalExact(x, sets);
        SeqExact(C.Choice(C.First(x), C.Nil), Repeated(x, 1, Less(hi)), sets);
        BetweenOptional(a, hi.value);
      }
    } else {
      RepeatedExact(x, lo - 1, Less(hi), sets);
      SeqExact(x, Repeated(x, lo - 1, Less(hi)), sets);
      BetweenPeel(a, lo, hi);
    }
  }

  lemma OptionalExact(x: C.Core, sets: seq<set<byte>>)
    requires C.Plain(x)
    ensures C.Plain(C.Choice(C.First(x), C.Nil))
    ensures C.Words(C.Choice(C.First(x), C.Nil), sets) == C.Words(x, sets) + EPSILON
  {
    hide C.Code;
    assert C.PlainAlts(C.First(x)) && C.WordsAlts(C.First(x), sets) == C.Words(x, sets);
  }

  lemma SeqExact(l: C.Core, r: C.Core, sets: seq<set<byte>>)
    requires C.Plain(l) && C.Plain(r)
    ensures C.Plain(C.Seq(l, r))
    ensures C.Words(C.Seq(l, r), sets) == Concat(C.Words(l, sets), C.Words(r, sets))
  {
    hide C.Code, Concat;
  }

  lemma {:induction false} RepeatedPlain(x: C.Core, lo: nat, hi: Option<nat>)
    requires (hi.Some? ==> lo <= hi.value) && C.Plain(x)
    ensures C.Plain(Repeated(x, lo, hi))
  {
    RepeatedExact(x, lo, hi, []);
  }

  lemma {:induction false} CompiledPlain(e: Ere)
    ensures C.Plain(Compiled(e))
    decreases e
  {
    match e
    case Group(_, b) => CompiledPlain(b);
    case Cat(l, r) => CompiledPlain(l); CompiledPlain(r);
    case Alt(a, l) => CompiledBranchesPlain(a); CompiledPlain(l);
    case Star(b) => CompiledPlain(b);
    case Plus(b) => CompiledPlain(b);
    case Opt(b) => CompiledPlain(b); OptionalExact(Compiled(b), []);
    case Rep(b, lo, hi) =>
      CompiledPlain(b);
      if BoundsOk(lo, hi) {
        RepeatedPlain(Compiled(b), Value(lo), HighBound(lo, hi));
      }
    case _ =>
  }

  lemma {:induction false} CompiledBranchesPlain(a: Branches)
    ensures C.PlainAlts(CompiledBranches(a))
    decreases a
  {
    match a
    case First(b) => CompiledPlain(b);
    case Then(before, b) => CompiledBranchesPlain(before); CompiledPlain(b);
  }

  /** What an expression without anchors is compiled to has its language. */
  lemma {:induction false} CompiledExact(e: Ere, sets: seq<set<byte>>)
    requires AnchorFree(e) && Numbered(e, sets)
    ensures C.Words(Compiled(e), sets) == Denotes(e)
    decreases e
  {
    hide Between, Concat, C.Code, C.Plain;
    match e
    case Lit(c) => OneChar(c, sets);
    case Esc(c) => OneChar(c, sets);
    case Dot =>
      assert C.Words(C.One(OAny), sets) == (iset c: byte | true :: [c]);
    case Brk(s, no) =>
      if |s| == 1 {
        var c := Only(s);
        OnlyIsOnly(s, c);
        OneChar(c, sets);
        assert (iset d: byte | d in s :: [d]) == iset{[c]};
      } else {
        assert C.Words(C.One(OAnyOf(no)), sets) == (iset c: byte | c in s :: [c]);
      }
    case Empty(_) =>
    case Group(_, b) => CompiledExact(b, sets);
    case Cat(l, r) => CompiledExact(l, sets); CompiledExact(r, sets);
    case Alt(a, l) => CompiledBranchesExact(a, sets); CompiledExact(l, sets);
    case Star(b) =>
      CompiledExact(b, sets);
      BetweenZero(Denotes(b), None);
    case Plus(b) => CompiledExact(b, sets);
    case Opt(b) => CompiledExact(b, sets);
    case Rep(b, lo, hi) =>
      CompiledExact(b, sets);
      CompiledPlain(b);
      RepeatedExact(Compiled(b), Value(lo), HighBound(lo, hi), sets);
  }

  lemma {:induction false} CompiledBranchesExact(a: Branches, sets: seq<set<byte>>)
    requires AnchorFreeBranches(a) && NumberedBranches(a, sets)
    ensures C.WordsAlts(CompiledBranches(a), sets) == BranchesDenote(a)
    decreases a
  {
    match a
    case First(b) => CompiledExact(b, sets);
    case Then(before, b) => CompiledBranchesExact(before, sets); CompiledExact(b, sets);
  }

  lemma OneChar(c: byte, sets: seq<set<byte>>)
    ensures C.Words(C.One(OChar(c)), sets) == iset{[c]}
  {
    assert Eats(sets, OChar(c), c);
  }
}
