/** How far the parser of patterns gets: which texts of the grammar it accepts. */
module EreReads {
  import opened Bytes
  import opened Ere

  /** Does a repetition symbol stand here? */
  predicate StartsRepetition(text: seq<Sym>, i: nat) {
    i < |text| &&
    (text[i] in {Raw(STAR), Raw(PLUS), Raw(QUEST)} || (text[i] == Raw(LBRACE) && DigitAt(text, i + 1)))
  }

  // ----- The parser's way through a text -----

  /** Where something ends, and whether it has any code. */
  datatype Read = Read(next: nat, some: bool)

  function CountFrom(text: seq<Sym>, p: nat, count: nat): (r: (nat, nat))
    requires p <= |text|
    ensures p <= r.0 <= |text|
    decreases |text| - p
  {
    if DigitAt(text, p) && count <= DUPMAX then CountFrom(text, p + 1, count * 10 + DigitValue(text[p].c)) else (p, count)
  }

  /** A number of a bound: where it ends, and which it is. */
  function CountEnd(text: seq<Sym>, p: nat): (r: Option<(nat, nat)>)
    requires p <= |text|
    ensures r.Some? ==> p < r.value.0 <= |text| && r.value.1 <= DUPMAX
  {
    var (q, count) := CountFrom(text, p, 0);
    if q > p && count <= DUPMAX then Some((q, count)) else None
  }

  /** What follows the first number: where it ends, and whether nothing at all may be repeated. */
  function UpperEnd(text: seq<Sym>, p: nat, count: nat): (r: Option<Read>)
    requires p <= |text|
    ensures r.Some? ==> p <= r.value.next <= |text|
  {
    if p < |text| && text[p] == Raw(COMMA) then
      if DigitAt(text, p + 1) then
        match CountEnd(text, p + 1)
        case None => None
        case Some((q, top)) => if count <= top then Some(Read(q, top > 0)) else None
      else Some(Read(p + 1, true))
    else Some(Read(p, count > 0))
  }

  function BoundsEnd(text: seq<Sym>, p: nat): (r: Option<Read>)
    requires p <= |text|
    ensures r.Some? ==> p < r.value.next <= |text|
  {
    match CountEnd(text, p)
    case None => None
    case Some((q, count)) =>
      match UpperEnd(text, q, count)
      case None => None
      case Some(u) => if u.next < |text| && text[u.next] == Raw(RBRACE) then Some(Read(u.next + 1, u.some)) else None
  }

  function AtomEnd(text: seq<Sym>, p: nat): (r: Option<nat>)
    requires p < |text|
    ensures r.Some? ==> p < r.value <= |text|
    decreases |text| - p, 0
  {
    var c := text[p];
    if c.Bracket? then Some(p + 1)
    else if c.c == LPAREN then ParenEnd(text, p + 1)
    else if c.c in {CARET, DOLLAR, DOT} then Some(p + 1)
    else if c.c in {RPAREN, BAR, STAR, PLUS, QUEST, LBRACKET} then None
    else if c.c == BACKSLASH then if p + 1 < |text| && text[p + 1].Raw? then Some(p + 2) else None
    else if c.c == LBRACE && DigitAt(text, p + 1) then None
    else Some(p + 1)
  }

  function ParenEnd(text: seq<Sym>, p: nat): (r: Option<nat>)
    requires p <= |text|
    ensures r.Some? ==> p < r.value <= |text|
    decreases |text| - p, 4
  {
    if p == |text| then None
    else if text[p] == Raw(RPAREN) then Some(p + 1)
    else
      match EreEnd(text, p, Some(RPAREN))
      case None => None
      case Some(q) => if q < |text| && text[q] == Raw(RPAREN) then Some(q + 1) else None
  }

  /** An atom, and its repetition symbol if there is one. */
  function ExpEnd(text: seq<Sym>, p: nat): (r: Option<Read>)
    requires p < |text|
    ensures r.Some? ==> p < r.value.next <= |text|
    decreases |text| - p, 1
  {
    match AtomEnd(text, p)
    case None => None
    case Some(q) =>
      if !StartsRepetition(text, q) then Some(Read(q, true))
      else if text[p] == Raw(CARET) then None
      else
        match (if text[q] == Raw(LBRACE) then BoundsEnd(text, q + 1) else Some(Read(q + 1, true)))
        case None => None
        case Some(r) => if StartsRepetition(text, r.next) then None else Some(r)
  }

  predicate Stops(text: seq<Sym>, p: nat, stop: Option<byte>) {
    p >= |text| || text[p] == Raw(BAR) || (stop.Some? && text[p] == Raw(stop.value))
  }

  /** The rest of a branch, of which so far `some` had code or none. */
  function BranchEnd(text: seq<Sym>, p: nat, stop: Option<byte>, some: bool): (r: Option<Read>)
    requires p <= |text|
    ensures r.Some? ==> p <= r.value.next <= |text| && Stops(text, r.value.next, stop)
    ensures r.Some? && r.value.some && !some ==> p < r.value.next
    decreases |text| - p, 2
  {
    if Stops(text, p, stop) then Some(Read(p, some))
    else
      match ExpEnd(text, p)
      case None => None
      case Some(r) => BranchEnd(text, r.next, stop, some || r.some)
  }

  /** Branches with bars between them; each has to have some code. */
  function EreEnd(text: seq<Sym>, p: nat, stop: Option<byte>): (r: Option<nat>)
    requires p <= |text|
    ensures r.Some? ==> p < r.value <= |text|
    decreases |text| - p, 3
  {
    match BranchEnd(text, p, stop, false)
    case None => None
    case Some(r) =>
      if !r.some then None
      else if r.next < |text| && text[r.next] == Raw(BAR) then EreEnd(text, r.next + 1, stop)
      else Some(r.next)
  }

  // ----- Expressions without code -----

  /** Nothing but operands that are to be repeated no times. */
  predicate Vanishes(e: Ere) {
    match e
    case Cat(l, r) => Vanishes(l) && Vanishes(r)
    case Rep(_, lo, hi) => HighBound(lo, hi) == Some(0)
    case _ => false
  }

  /** No branch, here or in parentheses, vanishes. */
  predicate Solid(e: Ere)
    decreases e, 1
  {
    match e
    case Alt(a, l) => SolidBranches(a) && SolidInside(l) && !Vanishes(l)
    case _ => SolidInside(e) && !Vanishes(e)
  }

  predicate SolidBranches(a: Branches) {
    match a
    case First(b) => SolidInside(b) && !Vanishes(b)
    case Then(before, b) => SolidBranches(before) && SolidInside(b) && !Vanishes(b)
  }

  /** The parts in parentheses are solid. */
  predicate SolidInside(e: Ere)
    decreases e, 0
  {
    match e
    case Group(_, b) => Solid(b)
    case Cat(l, r) => SolidInside(l) && SolidInside(r)
    case Star(b) => SolidInside(b)
    case Plus(b) => SolidInside(b)
    case Opt(b) => SolidInside(b)
    case Rep(b, _, _) => SolidInside(b)
    case _ => true
  }

  // ----- A text of the grammar in its place -----

  /** `t` stands in the text at `p`. */
  predicate Here(text: seq<Sym>, p: nat, t: seq<Sym>) {
    p + |t| <= |text| && text[p..p + |t|] == t
  }

  lemma HereSplit(text: seq<Sym>, p: nat, t: seq<Sym>, u: seq<Sym>)
    requires Here(text, p, t + u)
    ensures Here(text, p, t) && Here(text, p + |t|, u)
  {
    assert text[p..p + |t|] == text[p..p + |t + u|][..|t|];
    assert text[p + |t|..p + |t| + |u|] == text[p..p + |t + u|][|t|..];
  }

  lemma HereAt(text: seq<Sym>, p: nat, t: seq<Sym>, i: nat)
    requires Here(text, p, t) && i < |t|
    ensures text[p + i] == t[i]
  {
    assert text[p..p + |t|][i] == t[i];
  }

  /** What may come behind an expression that is read to its end. */
  predicate Ended(text: seq<Sym>, q: nat, e: Ere) {
    !StartsRepetition(text, q) && (EndsInBrace(e) ==> !DigitAt(text, q))
  }

  /** How the text of an atom begins. */
  predicate Begins(c: Sym) {
    c.Raw? ==> c.c !in {RPAREN, BAR, STAR, PLUS, QUEST}
  }

  lemma {:induction false} EreBegins(e: Ere)
    requires IsEre(e) || IsBranch(e) || IsExp(e) || IsAtom(e)
    ensures Text(e) != [] && Begins(Text(e)[0])
    decreases e, 1
  {
    assert IsEre(e) && !e.Alt? ==> IsBranch(e);
    assert IsBranch(e) && !e.Cat? ==> IsExp(e);
    assert IsExp(e) && !(e.Star? || e.Plus? || e.Opt? || e.Rep?) ==> IsAtom(e);
    match e
    case Alt(a, l) => BranchesBegin(a);
    case Cat(l, r) => EreBegins(l);
    case Star(b) => EreBegins(b);
    case Plus(b) => EreBegins(b);
    case Opt(b) => EreBegins(b);
    case Rep(b, _, _) => EreBegins(b);
    case _ =>
  }

  lemma {:induction false} BranchesBegin(a: Branches)
    requires AreBranches(a)
    ensures BranchesText(a) != [] && Begins(BranchesText(a)[0])
    decreases a, 0
  {
    match a
    case First(b) => EreBegins(b);
    case Then(before, _) => BranchesBegin(before);
  }

  // ----- Bounds -----

  lemma {:induction false} CountRuns(text: seq<Sym>, p: nat, ds: seq<byte>, done: seq<byte>)
    requires Here(text, p, Chars(ds)) && !DigitAt(text, p + |ds|)
    requires (forall i :: 0 <= i < |done| ==> IsDigit(done[i])) && (forall i :: 0 <= i < |ds| ==> IsDigit(ds[i]))
    requires Value(done + ds) <= DUPMAX
    ensures CountFrom(text, p, Value(done)) == (p + |ds|, Value(done + ds))
    decreases |ds|
  {
    hide Value, Chars, Here;
    if ds == [] {
      assert done + ds == done;
    } else {
      var first, more := [ds[0]], ds[1..];
      assert ds == first + more && done + ds == (done + first) + more;
      ValueGrows(done + first, more);
      ValueGrows(done, first);
      ValueOne(done, ds[0]);
      assert Chars(ds) == Chars(first) + Chars(more) by { CharsSplit(first, more); }
      HereAt(text, p, Chars(ds), 0);
      HereSplit(text, p, Chars(first), Chars(more));
      CountRuns(text, p + 1, more, done + first);
    }
  }

  lemma CharsSplit(ds: seq<byte>, es: seq<byte>)
    ensures Chars(ds + es) == Chars(ds) + Chars(es)
  {
  }

  lemma ValueOne(ds: seq<byte>, c: byte)
    ensures Value(ds + [c]) == Value(ds) * 10 + DigitValue(c)
  {
    assert (ds + [c])[..|ds|] == ds;
  }

  lemma {:induction false} ValueGrows(ds: seq<byte>, es: seq<byte>)
    ensures Value(ds) <= Value(ds + es)
    decreases |es|
  {
    if es == [] {
      assert ds + es == ds;
    } else {
      ValueGrows(ds, es[..|es| - 1]);
      assert (ds + es)[..|ds + es| - 1] == ds + es[..|es| - 1];
    }
  }

  lemma CountReads(text: seq<Sym>, p: nat, ds: seq<byte>)
    requires Here(text, p, Chars(ds)) && !DigitAt(text, p + |ds|) && IsCount(ds)
    ensures CountEnd(text, p) == Some((p + |ds|, Value(ds)))
  {
    hide Chars, Here;
    assert [] + ds == ds;
    CountRuns(text, p, ds, []);
  }

  /** The bounds of a repetition are read, from behind the left brace. */
  lemma BoundsRead(text: seq<Sym>, p: nat, lo: seq<byte>, hi: Upper)
    requires BoundsOk(lo, hi) && Here(text, p, Chars(lo) + UpperText(hi) + [Raw(RBRACE)])
    ensures BoundsEnd(text, p) == Some(Read(p + |lo| + |UpperText(hi)| + 1, HighBound(lo, hi) != Some(0)))
  {
    hide CountEnd, IsCount, Value, Here, Chars;
    var q := p + |lo|;
    var u := q + |UpperText(hi)|;
    HereSplit(text, p, Chars(lo) + UpperText(hi), [Raw(RBRACE)]);
    HereSplit(text, p, Chars(lo), UpperText(hi));
    HereAt(text, u, [Raw(RBRACE)], 0);
    if !hi.Exact? {
      HereAt(text, q, UpperText(hi), 0);
    }
    CountReads(text, p, lo);
    match hi
    case Exact =>
    case AtLeast =>
    case UpTo(ds) =>
      HereSplit(text, q, [Raw(COMMA)], Chars(ds));
      CountFirst(ds);
      HereAt(text, q + 1, Chars(ds), 0);
      CountReads(text, q + 1, ds);
  }

  lemma CountFirst(ds: seq<byte>)
    requires IsCount(ds)
    ensures ds != [] && IsDigit(ds[0])
  {
  }

  // ----- The parser follows the grammar -----

  lemma Caret(e: Ere)
    requires IsAtom(e)
    ensures Text(e) != [] && (Text(e)[0] == Raw(CARET) <==> e.Bol?)
    ensures Text(e)[0] == Raw(LBRACE) <==> e == Lit(LBRACE)
  {
  }

  lemma GroupText(text: seq<Sym>, p: nat, no: nat, b: Ere)
    requires Here(text, p, Text(Group(no, b))) && IsEre(b)
    ensures p + |Text(b)| + 1 < |text| && text[p] == Raw(LPAREN) && Here(text, p + 1, Text(b))
    ensures text[p + 1 + |Text(b)|] == Raw(RPAREN) && text[p + 1] != Raw(RPAREN) && |Text(Group(no, b))| == |Text(b)| + 2
  {
    hide Here, Text;
    assert Text(Group(no, b)) == [Raw(LPAREN)] + Text(b) + [Raw(RPAREN)] by { GroupSpelled(no, b); }
    HereSplit(text, p, [Raw(LPAREN)] + Text(b), [Raw(RPAREN)]);
    HereSplit(text, p, [Raw(LPAREN)], Text(b));
    HereAt(text, p, [Raw(LPAREN)], 0);
    HereAt(text, p + 1 + |Text(b)|, [Raw(RPAREN)], 0);
    EreBegins(b);
    HereAt(text, p + 1, Text(b), 0);
    HereBounds(text, p + 1 + |Text(b)|, [Raw(RPAREN)]);
  }

  lemma GroupSpelled(no: nat, b: Ere)
    ensures Text(Group(no, b)) == [Raw(LPAREN)] + Text(b) + [Raw(RPAREN)]
  {
  }

  lemma HereBounds(text: seq<Sym>, p: nat, t: seq<Sym>)
    requires Here(text, p, t)
    ensures p + |t| <= |text|
  {
  }

  lemma {:induction false} AtomRuns(text: seq<Sym>, p: nat, e: Ere)
    requires IsAtom(e) && Here(text, p, Text(e)) && (e == Lit(LBRACE) ==> !DigitAt(text, p + 1))
    ensures p < |text| && AtomEnd(text, p) == if SolidInside(e) then Some(p + |Text(e)|) else None
    decreases e, 0
  {
    hide EreEnd, Solid;
    Caret(e);
    HereAt(text, p, Text(e), 0);
    match e
    case Group(no, b) =>
      GroupText(text, p, no, b);
      EreRuns(text, p + 1, b, Some(RPAREN));
    case Esc(c) => HereAt(text, p, Text(e), 1);
    case Empty(_) => HereAt(text, p, Text(e), 1);
    case _ =>
  }

  function Sign(e: Ere): byte {
    if e.Star? then STAR else if e.Plus? then PLUS else if e.Opt? then QUEST else LBRACE
  }

  /** What stands behind the repetition symbol. */
  function Inner(e: Ere): seq<Sym> {
    if e.Rep? then Chars(e.lo) + UpperText(e.hi) + [Raw(RBRACE)] else []
  }

  predicate Repeats(e: Ere) {
    e.Star? || e.Plus? || e.Opt? || e.Rep?
  }

  lemma RepeatSpelled(e: Ere)
    requires IsExp(e) && Repeats(e)
    ensures IsAtom(e.body) && !e.body.Bol? && Text(e) == Text(e.body) + ([Raw(Sign(e))] + Inner(e))
    ensures e.Rep? ==> BoundsOk(e.lo, e.hi) && |Inner(e)| == |e.lo| + |UpperText(e.hi)| + 1
    ensures e.Rep? ==> Inner(e)[0].Raw? && IsDigit(Inner(e)[0].c)
  {
    hide Value;
    if e.Rep? {
      CountFirst(e.lo);
    } else {
      assert [Raw(Sign(e))] + [] == [Raw(Sign(e))];
    }
  }

  /** An atom and its repetition symbol. */
  lemma ExpParts(text: seq<Sym>, p: nat, e: Ere)
    requires IsExp(e) && Here(text, p, Text(e)) && Repeats(e)
    ensures var q := p + |Text(e.body)|;
      && IsAtom(e.body) && !e.body.Bol? && Here(text, p, Text(e.body)) && q < |text| && text[q] == Raw(Sign(e))
      && (!e.Rep? ==> |Text(e)| == |Text(e.body)| + 1)
      && (e.Rep? ==> BoundsOk(e.lo, e.hi) && Here(text, q + 1, Inner(e)) && DigitAt(text, q + 1)
                     && |Text(e)| == |Text(e.body)| + 2 + |e.lo| + |UpperText(e.hi)|)
  {
    hide Here, IsAtom, IsExp, Text, BoundsOk, Inner, Sign, UpperText;
    RepeatSpelled(e);
    var q := p + |Text(e.body)|;
    HereSplit(text, p, Text(e.body), [Raw(Sign(e))] + Inner(e));
    HereSplit(text, q, [Raw(Sign(e))], Inner(e));
    HereAt(text, q, [Raw(Sign(e))], 0);
    HereBounds(text, q, [Raw(Sign(e))]);
    if e.Rep? {
      HereAt(text, q + 1, Inner(e), 0);
      HereBounds(text, q + 1, Inner(e));
    } else {
      NoInner(e);
    }
  }

  lemma NoInner(e: Ere)
    requires !e.Rep?
    ensures Inner(e) == []
  {
  }

  lemma ExpUnfolds(text: seq<Sym>, p: nat)
    requires p < |text|
    ensures ExpEnd(text, p) ==
      match AtomEnd(text, p)
      case None => None
      case Some(q) =>
        if !StartsRepetition(text, q) then Some(Read(q, true))
        else if text[p] == Raw(CARET) then None
        else
          match (if text[q] == Raw(LBRACE) then BoundsEnd(text, q + 1) else Some(Read(q + 1, true)))
          case None => None
          case Some(r) => if StartsRepetition(text, r.next) then None else Some(r)
  {
    hide AtomEnd, BoundsEnd;
  }

  lemma SignStarts(text: seq<Sym>, q: nat, e: Ere)
    requires Repeats(e) && q < |text| && text[q] == Raw(Sign(e)) && (e.Rep? ==> DigitAt(text, q + 1))
    ensures StartsRepetition(text, q) && (text[q] == Raw(LBRACE) <==> e.Rep?) && !DigitAt(text, q)
  {
  }

  lemma RepeatInside(e: Ere)
    requires Repeats(e)
    ensures SolidInside(e) == SolidInside(e.body)
    ensures Vanishes(e) <==> e.Rep? && HighBound(e.lo, e.hi) == Some(0)
  {
  }

  lemma {:induction false} ExpRuns(text: seq<Sym>, p: nat, e: Ere)
    requires IsExp(e) && Here(text, p, Text(e)) && Ended(text, p + |Text(e)|, e)
    ensures p < |text|
    ensures ExpEnd(text, p) == if SolidInside(e) then Some(Read(p + |Text(e)|, !Vanishes(e))) else None
    decreases e, 1
  {
    hide AtomEnd, BoundsEnd, ExpEnd, Here, Text, IsAtom, IsExp, SolidInside, Vanishes, StartsRepetition, DigitAt, Inner, Sign,
         BoundsOk, UpperText;
    if Repeats(e) {
      ExpParts(text, p, e);
      SignStarts(text, p + |Text(e.body)|, e);
      BraceLength(e.body);
      AtomRuns(text, p, e.body);
      RepeatRuns(text, p, e);
    } else {
      BraceLength(e);
      NotRepeated(e);
      AtomRuns(text, p, e);
      ExpUnfolds(text, p);
    }
  }

  lemma BraceLength(e: Ere)
    ensures e == Lit(LBRACE) ==> |Text(e)| == 1
  {
  }

  lemma NotRepeated(e: Ere)
    requires IsExp(e) && !Repeats(e)
    ensures IsAtom(e) && !Vanishes(e)
  {
  }

  /** An operand and its repetition symbol, of which the operand is read. */
  lemma RepeatRuns(text: seq<Sym>, p: nat, e: Ere)
    requires IsExp(e) && Repeats(e) && Here(text, p, Text(e)) && !StartsRepetition(text, p + |Text(e)|)
    requires p < |text| && AtomEnd(text, p) == if SolidInside(e.body) then Some(p + |Text(e.body)|) else None
    ensures ExpEnd(text, p) == if SolidInside(e) then Some(Read(p + |Text(e)|, !Vanishes(e))) else None
  {
    hide AtomEnd, BoundsEnd, ExpEnd, Here, Text, IsAtom, IsExp, SolidInside, Vanishes, StartsRepetition, DigitAt, Inner, Sign,
         BoundsOk, UpperText;
    var q := p + |Text(e.body)|;
    ExpParts(text, p, e);
    SignStarts(text, q, e);
    RepeatInside(e);
    Caret(e.body);
    HereAt(text, p, Text(e.body), 0);
    ExpUnfolds(text, p);
    if e.Rep? {
      BoundsHere(text, q + 1, e);
    }
  }

  lemma BoundsHere(text: seq<Sym>, p: nat, e: Ere)
    requires e.Rep? && BoundsOk(e.lo, e.hi) && Here(text, p, Inner(e))
    ensures BoundsEnd(text, p) == Some(Read(p + |e.lo| + |UpperText(e.hi)| + 1, HighBound(e.lo, e.hi) != Some(0)))
  {
    BoundsRead(text, p, e.lo, e.hi);
  }

  /** A brace at the front of an operand is not the beginning of bounds. */
  lemma BraceFirst(text: seq<Sym>, p: nat, e: Ere)
    requires IsExp(e) && Here(text, p, Text(e)) && Ended(text, p + |Text(e)|, e)
    ensures p < |text| && Text(e) != [] && Begins(text[p]) && text[p] == Text(e)[0] && !StartsRepetition(text, p)
  {
    hide Here, Text, IsExp, IsAtom, Inner, Sign, BoundsOk, UpperText, DigitAt;
    EreBegins(e);
    HereAt(text, p, Text(e), 0);
    HereBounds(text, p, Text(e));
    if Repeats(e) {
      ExpParts(text, p, e);
      SignStarts(text, p + |Text(e.body)|, e);
      Caret(e.body);
      BraceLength(e.body);
      HereAt(text, p, Text(e.body), 0);
    } else {
      NotRepeated(e);
      Caret(e);
      BraceLength(e);
    }
  }

  lemma BranchStep(text: seq<Sym>, p: nat, stop: Option<byte>, some: bool)
    requires p < |text| && Begins(text[p]) && (stop.Some? ==> stop.value == RPAREN)
    ensures BranchEnd(text, p, stop, some) ==
      match ExpEnd(text, p) case None => None case Some(r) => BranchEnd(text, r.next, stop, some || r.some)
  {
    hide ExpEnd;
  }

  /** Two parts of a branch. */
  lemma CatParts(text: seq<Sym>, p: nat, l: Ere, r: Ere)
    requires IsBranch(Cat(l, r)) && Here(text, p, Text(Cat(l, r))) && Ended(text, p + |Text(Cat(l, r))|, Cat(l, r))
    ensures var q := p + |Text(l)|;
      && IsBranch(l) && IsExp(r) && Here(text, p, Text(l)) && Here(text, q, Text(r)) && q + |Text(r)| == p + |Text(Cat(l, r))|
      && Ended(text, q + |Text(r)|, r) && Ended(text, q, l)
  {
    assert Text(Cat(l, r)) == Text(l) + Text(r);
    hide Here, Text, IsExp, StartsRepetition;
    HereSplit(text, p, Text(l), Text(r));
    BraceFirst(text, p + |Text(l)|, r);
  }

  lemma {:induction false} BranchRuns(text: seq<Sym>, p: nat, e: Ere, stop: Option<byte>, some: bool)
    requires IsBranch(e) && Here(text, p, Text(e)) && Ended(text, p + |Text(e)|, e) && (stop.Some? ==> stop.value == RPAREN)
    ensures p + |Text(e)| <= |text| && BranchEnd(text, p, stop, some) ==
      if SolidInside(e) then BranchEnd(text, p + |Text(e)|, stop, some || !Vanishes(e)) else None
    decreases e, 2
  {
    hide ExpEnd, BranchEnd, Here, StartsRepetition, Text, Begins, Ended, IsExp;
    HereBounds(text, p, Text(e));
    if e.Cat? {
      var q := p + |Text(e.left)|;
      CatParts(text, p, e.left, e.right);
      BraceFirst(text, q, e.right);
      BranchRuns(text, p, e.left, stop, some);
      BranchStep(text, q, stop, some || !Vanishes(e.left));
      ExpRuns(text, q, e.right);
    } else {
      BraceFirst(text, p, e);
      BranchStep(text, p, stop, some);
      ExpRuns(text, p, e);
    }
  }

  lemma BranchUnfolds(text: seq<Sym>, p: nat, stop: Option<byte>, some: bool)
    requires p < |text| && !Stops(text, p, stop)
    ensures BranchEnd(text, p, stop, some) ==
      match ExpEnd(text, p) case None => None case Some(r) => BranchEnd(text, r.next, stop, some || r.some)
  {
    hide ExpEnd;
  }

  lemma ParenUnfolds(text: seq<Sym>, p: nat)
    requires p <= |text|
    ensures ParenEnd(text, p) ==
      if p == |text| then None
      else if text[p] == Raw(RPAREN) then Some(p + 1)
      else
        match EreEnd(text, p, Some(RPAREN))
        case None => None
        case Some(q) => if q < |text| && text[q] == Raw(RPAREN) then Some(q + 1) else None
  {
    hide EreEnd;
  }

  lemma EreStep(text: seq<Sym>, p: nat, stop: Option<byte>)
    requires p <= |text|
    ensures EreEnd(text, p, stop) ==
      match BranchEnd(text, p, stop, false)
      case None => None
      case Some(r) =>
        if !r.some then None
        else if r.next < |text| && text[r.next] == Raw(BAR) then EreEnd(text, r.next + 1, stop)
        else Some(r.next)
  {
    hide BranchEnd;
  }

  lemma BranchStops(text: seq<Sym>, p: nat, stop: Option<byte>, some: bool)
    requires p <= |text| && Stops(text, p, stop)
    ensures BranchEnd(text, p, stop, some) == Some(Read(p, some))
  {
  }

  lemma NothingBehind(text: seq<Sym>, q: nat, e: Ere, stop: Option<byte>)
    requires q <= |text| && Stops(text, q, stop) && (stop.Some? ==> stop.value == RPAREN)
    ensures Ended(text, q, e)
  {
  }

  /** The last branch, or the only one. */
  lemma LastBranch(text: seq<Sym>, p: nat, b: Ere, stop: Option<byte>)
    requires IsBranch(b) && Here(text, p, Text(b)) && (stop.Some? ==> stop.value == RPAREN)
    requires p + |Text(b)| == |text| || (p + |Text(b)| < |text| && stop.Some? && text[p + |Text(b)|] == Raw(RPAREN))
    ensures EreEnd(text, p, stop) == if SolidInside(b) && !Vanishes(b) then Some(p + |Text(b)|) else None
    decreases b, 3
  {
    hide BranchEnd, EreEnd, Here, Text, Ended;
    NothingBehind(text, p + |Text(b)|, b, stop);
    BranchRuns(text, p, b, stop, false);
    EreStep(text, p, stop);
    BranchStops(text, p + |Text(b)|, stop, !Vanishes(b));
  }

  /** A branch with a bar behind it. */
  lemma OneBranch(text: seq<Sym>, p: nat, b: Ere, stop: Option<byte>)
    requires IsBranch(b) && Here(text, p, Text(b)) && (stop.Some? ==> stop.value == RPAREN)
    requires p + |Text(b)| < |text| && text[p + |Text(b)|] == Raw(BAR)
    ensures EreEnd(text, p, stop) == if SolidInside(b) && !Vanishes(b) then EreEnd(text, p + |Text(b)| + 1, stop) else None
    decreases b, 3
  {
    hide BranchEnd, EreEnd, Here, Text, Ended;
    NothingBehind(text, p + |Text(b)|, b, stop);
    BranchRuns(text, p, b, stop, false);
    EreStep(text, p, stop);
    BranchStops(text, p + |Text(b)|, stop, !Vanishes(b));
  }

  lemma {:induction false} BranchesRun(text: seq<Sym>, p: nat, a: Branches, stop: Option<byte>)
    requires AreBranches(a) && Here(text, p, BranchesText(a)) && (stop.Some? ==> stop.value == RPAREN)
    requires p + |BranchesText(a)| < |text| && text[p + |BranchesText(a)|] == Raw(BAR)
    ensures EreEnd(text, p, stop) == if SolidBranches(a) then EreEnd(text, p + |BranchesText(a)| + 1, stop) else None
    decreases a, 4
  {
    hide EreEnd, Here, Text, IsBranch;
    match a
    case First(b) => OneBranch(text, p, b, stop);
    case Then(before, b) =>
      var q := p + |BranchesText(before)|;
      HereSplit(text, p, BranchesText(before) + [Raw(BAR)], Text(b));
      HereSplit(text, p, BranchesText(before), [Raw(BAR)]);
      HereAt(text, q, [Raw(BAR)], 0);
      BranchesRun(text, p, before, stop);
      OneBranch(text, q + 1, b, stop);
  }

  /** A text of the grammar is read to its end, unless one of its branches vanishes. */
  lemma {:induction false} EreRuns(text: seq<Sym>, p: nat, e: Ere, stop: Option<byte>)
    requires IsEre(e) && Here(text, p, Text(e)) && (stop.Some? ==> stop.value == RPAREN)
    requires p + |Text(e)| == |text| || (p + |Text(e)| < |text| && stop.Some? && text[p + |Text(e)|] == Raw(RPAREN))
    ensures EreEnd(text, p, stop) == if Solid(e) then Some(p + |Text(e)|) else None
    decreases e, 5
  {
    hide EreEnd, Here, Text, IsBranch;
    if e.Alt? {
      var a, l := e.branches, e.last;
      var q := p + |BranchesText(a)|;
      AltSpelled(a, l);
      HereSplit(text, p, BranchesText(a) + [Raw(BAR)], Text(l));
      HereSplit(text, p, BranchesText(a), [Raw(BAR)]);
      HereAt(text, q, [Raw(BAR)], 0);
      HereBounds(text, q, [Raw(BAR)]);
      BranchesRun(text, p, a, stop);
      LastBranch(text, q + 1, l, stop);
    } else {
      LastBranch(text, p, e, stop);
    }
  }

  lemma AltSpelled(a: Branches, l: Ere)
    ensures Text(Alt(a, l)) == BranchesText(a) + [Raw(BAR)] + Text(l)
  {
  }

  /** The parser gets to the end of the text of an expression exactly if none of its branches vanishes. */
  lemma ReadsWhole(e: Ere)
    requires IsEre(e)
    ensures EreEnd(Text(e), 0, None) == if Solid(e) then Some(|Text(e)|) else None
  {
    hide EreEnd, Solid;
    assert Text(e)[0..|Text(e)|] == Text(e);
    EreRuns(Text(e), 0, e, None);
  }
}
