/** A pattern is the text of one expression: the grammar of extended regular expressions is unambiguous. */
module EreUnique {
  import opened Bytes
  import opened Languages
  import opened Ere

  // ----- Expressions without the numbers of their groups and sets -----

  function Bare(e: Ere): Ere {
    match e
    case Brk(s, _) => Brk(s, 0)
    case Empty(_) => Empty(0)
    case Group(_, b) => Group(0, Bare(b))
    case Cat(l, r) => Cat(Bare(l), Bare(r))
    case Alt(a, l) => Alt(BareBranches(a), Bare(l))
    case Star(b) => Star(Bare(b))
    case Plus(b) => Plus(Bare(b))
    case Opt(b) => Opt(Bare(b))
    case Rep(b, lo, hi) => Rep(Bare(b), lo, hi)
    case _ => e
  }

  function BareBranches(a: Branches): Branches {
    match a
    case First(b) => First(Bare(b))
    case Then(before, b) => Then(BareBranches(before), Bare(b))
  }

  lemma {:induction false} BareText(e: Ere)
    ensures Text(Bare(e)) == Text(e)
    decreases e
  {
    match e
    case Group(_, b) => BareText(b);
    case Cat(l, r) =>
      BareText(l);
      BareText(r);
    case Alt(a, l) =>
      BareTextBranches(a);
      BareText(l);
    case Star(b) => BareText(b);
    case Plus(b) => BareText(b);
    case Opt(b) => BareText(b);
    case Rep(b, lo, hi) => BareText(b);
    case _ =>
  }

  lemma {:induction false} BareTextBranches(a: Branches)
    ensures BranchesText(BareBranches(a)) == BranchesText(a)
    decreases a
  {
    match a
    case First(b) => BareText(b);
    case Then(before, b) =>
      BareTextBranches(before);
      BareText(b);
  }

  lemma {:induction false} BareDenotes(e: Ere)
    ensures Denotes(Bare(e)) == Denotes(e)
    decreases e
  {
    match e
    case Group(_, b) => BareDenotes(b);
    case Cat(l, r) =>
      BareDenotes(l);
      BareDenotes(r);
    case Alt(a, l) =>
      BareDenotesBranches(a);
      BareDenotes(l);
    case Star(b) => BareDenotes(b);
    case Plus(b) => BareDenotes(b);
    case Opt(b) => BareDenotes(b);
    case Rep(b, lo, hi) => BareDenotes(b);
    case _ =>
  }

  lemma {:induction false} BareDenotesBranches(a: Branches)
    ensures BranchesDenote(BareBranches(a)) == BranchesDenote(a)
    decreases a
  {
    match a
    case First(b) => BareDenotes(b);
    case Then(before, b) =>
      BareDenotesBranches(before);
      BareDenotes(b);
  }

  lemma {:induction false} BareSame(e: Ere)
    ensures (IsAtom(e) <==> IsAtom(Bare(e))) && (e.Bol? <==> Bare(e).Bol?) && (e == Lit(LBRACE) <==> Bare(e) == Lit(LBRACE))
    ensures (IsExp(e) <==> IsExp(Bare(e))) && (IsBranch(e) <==> IsBranch(Bare(e))) && (IsEre(e) <==> IsEre(Bare(e)))
    decreases e
  {
    hide Text;
    match e
    case Group(_, b) => BareSame(b);
    case Cat(l, r) =>
      BareText(r);
      BareSame(l);
      BareSame(r);
    case Alt(a, l) =>
      BareSameBranches(a);
      BareSame(l);
    case Star(b) => BareSame(b);
    case Plus(b) => BareSame(b);
    case Opt(b) => BareSame(b);
    case Rep(b, lo, hi) => BareSame(b);
    case _ =>
  }

  lemma {:induction false} BareSameBranches(a: Branches)
    ensures AreBranches(a) <==> AreBranches(BareBranches(a))
    decreases a
  {
    match a
    case First(b) => BareSame(b);
    case Then(before, b) =>
      BareSameBranches(before);
      BareSame(b);
  }

  predicate Unnumbered(e: Ere) {
    Bare(e) == e
  }

  lemma {:induction false} BareTwice(e: Ere)
    ensures Unnumbered(Bare(e))
    decreases e
  {
    match e
    case Group(_, b) => BareTwice(b);
    case Cat(l, r) =>
      BareTwice(l);
      BareTwice(r);
    case Alt(a, l) =>
      BareTwiceBranches(a);
      BareTwice(l);
    case Star(b) => BareTwice(b);
    case Plus(b) => BareTwice(b);
    case Opt(b) => BareTwice(b);
    case Rep(b, lo, hi) => BareTwice(b);
    case _ =>
  }

  lemma {:induction false} BareTwiceBranches(a: Branches)
    ensures BareBranches(BareBranches(a)) == BareBranches(a)
    decreases a
  {
    match a
    case First(b) => BareTwice(b);
    case Then(before, b) =>
      BareTwiceBranches(before);
      BareTwice(b);
  }

  // ----- Branches as sequences, from the left -----

  function Exps(b: Ere): (xs: seq<Ere>)
    ensures |xs| > 0
  {
    if b.Cat? then Exps(b.left) + [b.right] else [b]
  }

  function ExpsText(xs: seq<Ere>): seq<Sym> {
    if xs == [] then [] else Text(xs[0]) + ExpsText(xs[1..])
  }

  lemma {:induction false} ExpsTextAppend(xs: seq<Ere>, ys: seq<Ere>)
    ensures ExpsText(xs + ys) == ExpsText(xs) + ExpsText(ys)
  {
    hide Text, ExpsText;
    NoRow(ExpsText(ys));
    if xs == [] {
      assert xs + ys == ys;
    } else {
      ExpsTextAppend(xs[1..], ys);
      assert (xs + ys)[0] == xs[0] && (xs + ys)[1..] == xs[1..] + ys;
      ExpsFirst(xs + ys, []);
      ExpsFirst(xs, ExpsText(ys));
      assert ExpsText(xs + ys) + [] == ExpsText(xs + ys) && ExpsText(xs[1..] + ys) + [] == ExpsText(xs[1..] + ys);
    }
  }

  lemma ExpsFirst(xs: seq<Ere>, u: seq<Sym>)
    requires xs != []
    ensures ExpsText(xs) + u == Text(xs[0]) + (ExpsText(xs[1..]) + u)
  {
    hide Text;
  }

  /** Expressions that may stand one after another. */
  predicate InRow(xs: seq<Ere>) {
    && (forall i :: 0 <= i < |xs| ==> IsExp(xs[i]) && Unnumbered(xs[i]))
    && (forall i {:trigger xs[i]} :: 0 <= i < |xs| - 1 ==> !(xs[i] == Lit(LBRACE) && DigitAt(Text(xs[i + 1]), 0)))
  }

  lemma {:induction false} BranchInRow(b: Ere)
    requires IsBranch(b) && Unnumbered(b)
    ensures InRow(Exps(b)) && ExpsText(Exps(b)) == Text(b)
    ensures EndsInBrace(b) <==> Exps(b)[|Exps(b)| - 1] == Lit(LBRACE)
    decreases b
  {
    if b.Cat? {
      BranchInRow(b.left);
      ExpsTextAppend(Exps(b.left), [b.right]);
      OneExp(b.right);
    } else {
      OneExp(b);
    }
  }

  lemma OneExp(x: Ere)
    ensures ExpsText([x]) == Text(x)
  {
    assert ExpsText([x][1..]) == [];
    assert Text(x) + [] == Text(x);
  }

  lemma {:induction false} ExpsUnique(b: Ere, c: Ere)
    requires IsBranch(b) && IsBranch(c) && Exps(b) == Exps(c)
    ensures b == c
    decreases b
  {
    if b.Cat? && c.Cat? {
      var xs := Exps(b);
      assert Exps(b.left) == xs[..|xs| - 1] == Exps(c.left);
      ExpsUnique(b.left, c.left);
      assert b.right == xs[|xs| - 1] == c.right;
    } else if !b.Cat? && !c.Cat? {
      assert Exps(b)[0] == Exps(c)[0];
    }
  }

  // ----- What may follow -----

  predicate Starts(u: seq<Sym>, c: byte) {
    |u| > 0 && u[0] == Raw(c)
  }

  /** No repetition symbol is at the front. */
  predicate NoRepeat(u: seq<Sym>) {
    !Starts(u, STAR) && !Starts(u, PLUS) && !Starts(u, QUEST) && !(Starts(u, LBRACE) && DigitAt(u, 1))
  }

  /** The end of a branch. */
  predicate Stops(u: seq<Sym>) {
    u == [] || Starts(u, BAR) || Starts(u, RPAREN)
  }

  /** The first symbol of an atom. */
  lemma AtomFront(x: Ere)
    requires IsAtom(x)
    ensures Text(x) != []
    ensures var c := Text(x)[0];
      c != Raw(STAR) && c != Raw(PLUS) && c != Raw(QUEST) && c != Raw(BAR) && c != Raw(RPAREN)
    ensures Text(x)[0] == Raw(LBRACE) <==> x == Lit(LBRACE)
  {
  }

  function AtomOf(x: Ere): Ere {
    match x
    case Star(b) => b
    case Plus(b) => b
    case Opt(b) => b
    case Rep(b, _, _) => b
    case _ => x
  }

  function Suffix(x: Ere): seq<Sym> {
    match x
    case Star(_) => [Raw(STAR)]
    case Plus(_) => [Raw(PLUS)]
    case Opt(_) => [Raw(QUEST)]
    case Rep(_, lo, hi) => [Raw(LBRACE)] + Chars(lo) + UpperText(hi) + [Raw(RBRACE)]
    case _ => []
  }

  lemma ExpParts(x: Ere)
    requires IsExp(x)
    ensures IsAtom(AtomOf(x)) && Text(x) == Text(AtomOf(x)) + Suffix(x) && Text(x) != []
    ensures Text(x)[0] == Text(AtomOf(x))[0] && (Unnumbered(x) ==> Unnumbered(AtomOf(x)))
    ensures Suffix(x) == [] <==> x == AtomOf(x)
    ensures Suffix(x) != [] ==> !NoRepeat(Suffix(x))
  {
    AtomFront(AtomOf(x));
    if Suffix(x) == [] {
      assert Text(x) + [] == Text(x);
    }
  }

  // ----- One way to read -----

  lemma {:induction false} DigitsUnique(ds: seq<byte>, u: seq<Sym>, es: seq<byte>, v: seq<Sym>)
    requires (forall i :: 0 <= i < |ds| ==> IsDigit(ds[i])) && (forall i :: 0 <= i < |es| ==> IsDigit(es[i]))
    requires !DigitAt(u, 0) && !DigitAt(v, 0) && Chars(ds) + u == Chars(es) + v
    ensures ds == es && u == v
  {
    DigitFront(ds, u);
    DigitFront(es, v);
    if ds == [] {
      assert Chars(ds) + u == u && Chars([]) + v == v;
    } else {
      Behind([Raw(ds[0])], Chars(ds[1..]) + u, [Raw(es[0])], Chars(es[1..]) + v);
      DigitsUnique(ds[1..], u, es[1..], v);
    }
  }

  lemma DigitFront(ds: seq<byte>, u: seq<Sym>)
    requires (forall i :: 0 <= i < |ds| ==> IsDigit(ds[i])) && !DigitAt(u, 0)
    ensures DigitAt(Chars(ds) + u, 0) <==> ds != []
    ensures ds != [] ==> Chars(ds) + u == [Raw(ds[0])] + (Chars(ds[1..]) + u)
  {
    if ds == [] {
      assert Chars(ds) + u == u;
    }
  }

  /** The symbols behind the front ones are the same. */
  lemma Behind(a: seq<Sym>, u: seq<Sym>, b: seq<Sym>, v: seq<Sym>)
    requires a + u == b + v && |a| == |b|
    ensures a == b && u == v
  {
    var s, t := a + u, b + v;
    assert a == s[..|a|] && b == t[..|b|] && u == s[|a|..] && v == t[|b|..];
  }

  lemma UpperUnique(hi: Upper, u: seq<Sym>, hi': Upper, v: seq<Sym>)
    requires (hi.UpTo? ==> IsCount(hi.digits)) && (hi'.UpTo? ==> IsCount(hi'.digits))
    requires UpperText(hi) + [Raw(RBRACE)] + u == UpperText(hi') + [Raw(RBRACE)] + v
    ensures hi == hi' && u == v
  {
    UpperFront(hi, u);
    UpperFront(hi', v);
    hide UpperText;
    if hi.Exact? {
      Behind([Raw(RBRACE)], u, [Raw(RBRACE)], v);
    } else {
      var ds, es := UpperDigits(hi), UpperDigits(hi');
      Behind([Raw(COMMA)], Chars(ds) + ([Raw(RBRACE)] + u), [Raw(COMMA)], Chars(es) + ([Raw(RBRACE)] + v));
      DigitsUnique(ds, [Raw(RBRACE)] + u, es, [Raw(RBRACE)] + v);
      Behind([Raw(RBRACE)], u, [Raw(RBRACE)], v);
    }
  }

  function UpperDigits(hi: Upper): seq<byte> {
    if hi.UpTo? then hi.digits else []
  }

  lemma UpperFront(hi: Upper, u: seq<Sym>)
    requires hi.UpTo? ==> IsCount(hi.digits)
    ensures var s := UpperText(hi) + [Raw(RBRACE)] + u;
      if hi.Exact? then s == [Raw(RBRACE)] + u else s == [Raw(COMMA)] + (Chars(UpperDigits(hi)) + ([Raw(RBRACE)] + u))
    ensures (UpperText(hi) + [Raw(RBRACE)] + u)[0] == if hi.Exact? then Raw(RBRACE) else Raw(COMMA)
    ensures hi.UpTo? <==> UpperDigits(hi) != []
    ensures forall i :: 0 <= i < |UpperDigits(hi)| ==> IsDigit(UpperDigits(hi)[i])
  {
    var end := [Raw(RBRACE)];
    match hi
    case Exact =>
      assert [] + end + u == end + u;
    case AtLeast =>
      NoDigits(end + u);
      assert [Raw(COMMA)] + end + u == [Raw(COMMA)] + (end + u);
    case UpTo(ds) =>
      Regroup(Chars(ds), end, u);
  }

  lemma NoDigits(u: seq<Sym>)
    ensures Chars([]) + u == u
  {
  }

  lemma Regroup(x: seq<Sym>, y: seq<Sym>, z: seq<Sym>)
    ensures [Raw(COMMA)] + x + y + z == [Raw(COMMA)] + (x + (y + z))
  {
  }

  /** A repetition symbol or none is read in one way. */
  lemma SuffixUnique(x: Ere, u: seq<Sym>, y: Ere, v: seq<Sym>)
    requires IsExp(x) && IsExp(y) && AtomOf(x) == AtomOf(y) && NoRepeat(u) && NoRepeat(v)
    requires Suffix(x) + u == Suffix(y) + v
    ensures x == y && u == v
  {
    SuffixFront(x, u);
    SuffixFront(y, v);
    if x.Rep? {
      RepParts(x, u);
      RepParts(y, v);
      Behind([Raw(LBRACE)], Chars(x.lo) + (UpperText(x.hi) + [Raw(RBRACE)] + u),
             [Raw(LBRACE)], Chars(y.lo) + (UpperText(y.hi) + [Raw(RBRACE)] + v));
      DigitsUnique(x.lo, UpperText(x.hi) + [Raw(RBRACE)] + u, y.lo, UpperText(y.hi) + [Raw(RBRACE)] + v);
      UpperUnique(x.hi, u, y.hi, v);
    } else {
      Behind(Suffix(x), u, Suffix(y), v);
    }
  }

  lemma SuffixFront(x: Ere, u: seq<Sym>)
    requires IsExp(x) && NoRepeat(u)
    ensures var s := Suffix(x) + u;
      && (x.Star? <==> Starts(s, STAR)) && (x.Plus? <==> Starts(s, PLUS)) && (x.Opt? <==> Starts(s, QUEST))
      && (x.Rep? <==> Starts(s, LBRACE) && DigitAt(s, 1))
  {
    if x.Rep? {
      RepParts(x, u);
    } else if Suffix(x) == [] {
      assert Suffix(x) + u == u;
    }
  }

  lemma RepParts(x: Ere, u: seq<Sym>)
    requires IsExp(x) && x.Rep?
    ensures var s, rest := Suffix(x) + u, UpperText(x.hi) + [Raw(RBRACE)] + u;
      && s == [Raw(LBRACE)] + (Chars(x.lo) + rest) && !DigitAt(rest, 0) && DigitAt(s, 1)
      && x.lo != [] && forall i :: 0 <= i < |x.lo| ==> IsDigit(x.lo[i])
  {
    var rest := UpperText(x.hi) + [Raw(RBRACE)] + u;
    UpperFront(x.hi, u);
    hide UpperText;
    Braced(Chars(x.lo), UpperText(x.hi), u);
    DigitFront(x.lo, rest);
    var s := [Raw(LBRACE)] + (Chars(x.lo) + rest);
    assert s[1] == (Chars(x.lo) + rest)[0];
  }

  lemma Braced(x: seq<Sym>, y: seq<Sym>, z: seq<Sym>)
    ensures [Raw(LBRACE)] + x + y + [Raw(RBRACE)] + z == [Raw(LBRACE)] + (x + (y + [Raw(RBRACE)] + z))
  {
  }

  /** What begins with an expression does not begin with a repetition symbol. */
  lemma ExpFront(x: Ere, r: seq<Sym>)
    requires IsExp(x) && (x == Lit(LBRACE) ==> !DigitAt(r, 0))
    ensures NoRepeat(Text(x) + r) && Text(x) != [] && (Text(x) + r)[0] == Text(x)[0]
  {
    hide Text, Suffix, AtomOf, IsExp, IsAtom, DigitAt;
    var a := AtomOf(x);
    ExpParts(x);
    AtomFront(a);
    assert (Text(x) + r)[0] == Text(x)[0];
    if a == Lit(LBRACE) {
      assert Text(a) == [Raw(LBRACE)] by { BraceText(); }
      BehindBrace(Text(x), Suffix(x), r);
    }
  }

  lemma BraceText()
    ensures Text(Lit(LBRACE)) == [Raw(LBRACE)]
  {
  }

  /** A brace is followed by what is behind it: a repetition symbol, or else the rest. */
  lemma BehindBrace(t: seq<Sym>, suffix: seq<Sym>, r: seq<Sym>)
    requires t == [Raw(LBRACE)] + suffix && (suffix != [] ==> !NoRepeat(suffix)) && (suffix == [] ==> !DigitAt(r, 0))
    ensures !DigitAt(t + r, 1)
  {
    if suffix == [] {
      assert t + r == [Raw(LBRACE)] + r;
    } else {
      assert (t + r)[1] == suffix[0];
    }
  }

  lemma RowFront(xs: seq<Ere>, u: seq<Sym>)
    requires InRow(xs) && Stops(u)
    ensures NoRepeat(ExpsText(xs) + u)
  {
    hide InRow, Text, NoRepeat, IsExp, Bare, ExpsText, Stops;
    StopsPlain(u);
    NoRow(u);
    if xs != [] {
      InRowFirst(xs);
      ExpsFirst(xs, u);
      RowStart(xs[1..], u);
      ExpFront(xs[0], ExpsText(xs[1..]) + u);
    }
  }

  lemma StopsPlain(u: seq<Sym>)
    requires Stops(u)
    ensures NoRepeat(u) && !DigitAt(u, 0)
  {
  }

  lemma InRowFirst(xs: seq<Ere>)
    requires InRow(xs) && xs != []
    ensures InRow(xs[1..]) && IsExp(xs[0]) && Unnumbered(xs[0])
    ensures |xs| > 1 ==> !(xs[0] == Lit(LBRACE) && DigitAt(Text(xs[1..][0]), 0))
  {
    InRowRest(xs);
    if |xs| > 1 {
      assert xs[1..][0] == xs[0 + 1];
    }
  }

  lemma InRowRest(xs: seq<Ere>)
    requires InRow(xs) && xs != []
    ensures InRow(xs[1..])
  {
    var rest := xs[1..];
    forall i | 0 <= i < |rest|
      ensures rest[i] == xs[i + 1]
    {
    }
    forall i | 0 <= i < |rest| - 1
      ensures !(rest[i] == Lit(LBRACE) && DigitAt(Text(rest[i + 1]), 0))
    {
      assert rest[i] == xs[i + 1] && rest[i + 1] == xs[i + 1 + 1];
    }
  }

  /** The first symbol is that of the first expression. */
  lemma RowStart(xs: seq<Ere>, u: seq<Sym>)
    requires InRow(xs) && Stops(u)
    ensures DigitAt(ExpsText(xs) + u, 0) ==> xs != [] && DigitAt(Text(xs[0]), 0)
    ensures Stops(ExpsText(xs) + u) ==> xs == []
  {
    if xs == [] {
      assert ExpsText(xs) + u == u;
    } else {
      ExpParts(xs[0]);
      AtomFront(AtomOf(xs[0]));
      assert (ExpsText(xs) + u)[0] == Text(xs[0])[0];
    }
  }

  lemma AtomUnique(x: Ere, u: seq<Sym>, y: Ere, v: seq<Sym>)
    requires IsAtom(x) && IsAtom(y) && Unnumbered(x) && Unnumbered(y) && Text(x) + u == Text(y) + v
    ensures x == y && u == v
    decreases |Text(x)|, 1
  {
    AtomFront(x);
    AtomFront(y);
    var s, t := Text(x) + u, Text(y) + v;
    assert s[0] == Text(x)[0] && t[0] == Text(y)[0];
    if x.Group? || x.Empty? {
      GroupUnique(x, u, y, v);
    } else {
      assert x.Esc? ==> s[1] == Raw(x.c) && t[1] == s[1];
      Behind(Text(x), u, Text(y), v);
    }
  }

  lemma GroupUnique(x: Ere, u: seq<Sym>, y: Ere, v: seq<Sym>)
    requires (x.Group? || x.Empty?) && (y.Group? || y.Empty?) && Text(x) + u == Text(y) + v
    requires IsAtom(x) && IsAtom(y) && Unnumbered(x) && Unnumbered(y)
    ensures x == y && u == v
    decreases |Text(x)|, 0
  {
    GroupFront(x, u);
    GroupFront(y, v);
    var u', v' := [Raw(RPAREN)] + u, [Raw(RPAREN)] + v;
    var b, c := Inside(x), Inside(y);
    hide Text, IsAtom, Bare, Inside, Stops;
    Behind([Raw(LPAREN)], b + u', [Raw(LPAREN)], c + v');
    if x.Group? {
      EreUnique(x.body, u', y.body, v');
    }
    Behind([Raw(RPAREN)], u, [Raw(RPAREN)], v);
  }

  function Inside(x: Ere): seq<Sym> {
    if x.Group? then Text(x.body) else []
  }

  lemma GroupFront(x: Ere, u: seq<Sym>)
    requires (x.Group? || x.Empty?) && IsAtom(x) && Unnumbered(x)
    ensures var b, u' := Inside(x), [Raw(RPAREN)] + u;
      && Text(x) + u == [Raw(LPAREN)] + (b + u') && ((b + u')[0] == Raw(RPAREN) <==> x.Empty?)
      && (x.Empty? ==> b + u' == u' && x == Empty(0)) && Ends(u')
      && (x.Group? ==> b == Text(x.body) && |b| < |Text(x)| && IsEre(x.body) && Unnumbered(x.body) && x == Group(0, x.body))
  {
    hide IsExp, IsBranch;
    var b, u' := Inside(x), [Raw(RPAREN)] + u;
    if x.Group? {
      EreStarts(x.body);
      assert (b + u')[0] == b[0];
      assert Text(x) == [Raw(LPAREN)] + b + [Raw(RPAREN)];
    } else {
      assert b + u' == u';
    }
    InParens(b, u);
  }

  lemma InParens(b: seq<Sym>, u: seq<Sym>)
    ensures [Raw(LPAREN)] + b + [Raw(RPAREN)] + u == [Raw(LPAREN)] + (b + ([Raw(RPAREN)] + u))
    ensures [Raw(LPAREN), Raw(RPAREN)] + u == [Raw(LPAREN)] + ([Raw(RPAREN)] + u)
  {
  }

  lemma {:induction false} BranchStarts(b: Ere)
    requires IsBranch(b)
    ensures Text(b) != [] && !Stops(Text(b))
    decreases b
  {
    if b.Cat? {
      BranchStarts(b.left);
    } else {
      ExpParts(b);
      AtomFront(AtomOf(b));
    }
  }

  lemma EreStarts(e: Ere)
    requires IsEre(e)
    ensures Text(e) != [] && !Stops(Text(e))
  {
    if e.Alt? {
      BranchesStart(e.branches);
    } else {
      BranchStarts(e);
    }
  }

  lemma {:induction false} BranchesStart(a: Branches)
    requires AreBranches(a)
    ensures BranchesText(a) != [] && !Stops(BranchesText(a))
    decreases a
  {
    match a
    case First(b) => BranchStarts(b);
    case Then(before, b) => BranchesStart(before);
  }

  lemma Reassociate(a: seq<Sym>, b: seq<Sym>, c: seq<Sym>)
    ensures (a + b) + c == a + (b + c)
  {
  }

  lemma ExpUnique(x: Ere, u: seq<Sym>, y: Ere, v: seq<Sym>)
    requires IsExp(x) && IsExp(y) && Unnumbered(x) && Unnumbered(y) && NoRepeat(u) && NoRepeat(v) && Text(x) + u == Text(y) + v
    ensures x == y && u == v
    decreases |Text(x)|, 2
  {
    hide Text, Suffix, AtomOf, IsExp, IsAtom, NoRepeat, Bare;
    ExpParts(x);
    ExpParts(y);
    Reassociate(Text(AtomOf(x)), Suffix(x), u);
    Reassociate(Text(AtomOf(y)), Suffix(y), v);
    AtomUnique(AtomOf(x), Suffix(x) + u, AtomOf(y), Suffix(y) + v);
    SuffixUnique(x, u, y, v);
  }

  lemma NoRow(u: seq<Sym>)
    ensures ExpsText([]) + u == u
  {
  }

  lemma RowHead(xs: seq<Ere>, u: seq<Sym>)
    requires InRow(xs) && Stops(u) && xs != []
    ensures InRow(xs[1..]) && IsExp(xs[0]) && Unnumbered(xs[0]) && NoRepeat(ExpsText(xs[1..]) + u)
    ensures |Text(xs[0])| <= |ExpsText(xs)| && |ExpsText(xs[1..])| < |ExpsText(xs)|
  {
    InRowFirst(xs);
    RowFront(xs[1..], u);
    ExpParts(xs[0]);
  }

  lemma {:induction false} RowUnique(xs: seq<Ere>, u: seq<Sym>, ys: seq<Ere>, v: seq<Sym>)
    requires InRow(xs) && InRow(ys) && Stops(u) && Stops(v) && ExpsText(xs) + u == ExpsText(ys) + v
    ensures xs == ys && u == v
    decreases |ExpsText(xs)|, 4
  {
    RowStart(xs, u);
    RowStart(ys, v);
    NoRow(u);
    NoRow(v);
    if xs != [] {
      RowStep(xs, u, ys, v);
    }
  }

  lemma RowStep(xs: seq<Ere>, u: seq<Sym>, ys: seq<Ere>, v: seq<Sym>)
    requires InRow(xs) && InRow(ys) && Stops(u) && Stops(v) && ExpsText(xs) + u == ExpsText(ys) + v && xs != [] && ys != []
    ensures xs == ys && u == v
    decreases |ExpsText(xs)|, 3
  {
    hide InRow, Text, NoRepeat, Stops, IsExp, Bare, ExpsText;
    RowHead(xs, u);
    RowHead(ys, v);
    ExpsFirst(xs, u);
    ExpsFirst(ys, v);
    ExpUnique(xs[0], ExpsText(xs[1..]) + u, ys[0], ExpsText(ys[1..]) + v);
    RowUnique(xs[1..], u, ys[1..], v);
    assert xs == [xs[0]] + xs[1..] && ys == [ys[0]] + ys[1..];
  }

  // ----- Alternatives, from the left -----

  function Alts(e: Ere): seq<Ere> {
    if e.Alt? then AltsOf(e.branches) + [e.last] else [e]
  }

  function AltsOf(a: Branches): seq<Ere> {
    match a
    case First(b) => [b]
    case Then(before, b) => AltsOf(before) + [b]
  }

  function AltsText(bs: seq<Ere>): seq<Sym> {
    if bs == [] then [] else if |bs| == 1 then Text(bs[0]) else Text(bs[0]) + [Raw(BAR)] + AltsText(bs[1..])
  }

  lemma {:induction false} AltsTextMore(bs: seq<Ere>, b: Ere)
    requires bs != []
    ensures AltsText(bs + [b]) == AltsText(bs) + [Raw(BAR)] + Text(b)
  {
    hide Text;
    var all := bs + [b];
    if |bs| == 1 {
      assert all[1..] == [b];
    } else {
      AltsTextMore(bs[1..], b);
      assert all[1..] == bs[1..] + [b];
    }
  }

  predicate Branched(bs: seq<Ere>) {
    bs != [] && forall i :: 0 <= i < |bs| ==> IsBranch(bs[i]) && Unnumbered(bs[i])
  }

  lemma {:induction false} BranchesAlts(a: Branches)
    requires AreBranches(a) && BareBranches(a) == a
    ensures Branched(AltsOf(a)) && AltsText(AltsOf(a)) == BranchesText(a)
    decreases a
  {
    match a
    case First(b) =>
    case Then(before, b) =>
      BranchesAlts(before);
      AltsTextMore(AltsOf(before), b);
  }

  lemma EreAlts(e: Ere)
    requires IsEre(e) && Unnumbered(e)
    ensures Branched(Alts(e)) && AltsText(Alts(e)) == Text(e)
  {
    if e.Alt? {
      BranchesAlts(e.branches);
      AltsTextMore(AltsOf(e.branches), e.last);
    }
  }

  lemma {:induction false} AltsOfUnique(a: Branches, c: Branches)
    requires AltsOf(a) == AltsOf(c)
    ensures a == c
    decreases a
  {
    var bs := AltsOf(a);
    AltsOfSome(a);
    AltsOfSome(c);
    if a.Then? && c.Then? {
      assert AltsOf(a.before) == bs[..|bs| - 1] == AltsOf(c.before);
      AltsOfUnique(a.before, c.before);
      assert a.branch == bs[|bs| - 1] == c.branch;
    } else if a.First? && c.First? {
      assert bs[0] == a.branch && bs[0] == c.branch;
    }
  }

  lemma AltsOfSome(a: Branches)
    ensures AltsOf(a) != [] && (a.Then? ==> |AltsOf(a)| > 1)
  {
    if a.Then? {
      AltsOfSome(a.before);
    }
  }

  lemma AltsUnique(e: Ere, d: Ere)
    requires IsEre(e) && IsEre(d) && Alts(e) == Alts(d)
    ensures e == d
  {
    var bs := Alts(e);
    if e.Alt? {
      AltsOfSome(e.branches);
    }
    if d.Alt? {
      AltsOfSome(d.branches);
    }
    if e.Alt? && d.Alt? {
      assert AltsOf(e.branches) == bs[..|bs| - 1] == AltsOf(d.branches);
      AltsOfUnique(e.branches, d.branches);
      assert e.last == bs[|bs| - 1] == d.last;
    } else if !e.Alt? && !d.Alt? {
      assert bs[0] == e && bs[0] == d;
    }
  }

  predicate Ends(u: seq<Sym>) {
    u == [] || Starts(u, RPAREN)
  }

  /** What follows the first of some branches. */
  function AfterFirst(bs: seq<Ere>, u: seq<Sym>): seq<Sym>
    requires bs != []
  {
    if |bs| == 1 then u else [Raw(BAR)] + (AltsText(bs[1..]) + u)
  }

  lemma FirstBranch(bs: seq<Ere>, u: seq<Sym>)
    requires bs != [] && Ends(u)
    ensures AltsText(bs) + u == Text(bs[0]) + AfterFirst(bs, u) && Stops(AfterFirst(bs, u))
    ensures |bs| == 1 <==> Ends(AfterFirst(bs, u))
    ensures |bs| > 1 ==> |AltsText(bs[1..])| < |AltsText(bs)|
  {
    hide Text;
    if |bs| > 1 {
      BarBetween(Text(bs[0]), AltsText(bs[1..]), u);
    }
  }

  lemma BarBetween(x: seq<Sym>, y: seq<Sym>, z: seq<Sym>)
    ensures x + [Raw(BAR)] + y + z == x + ([Raw(BAR)] + (y + z))
    ensures |y| < |x + [Raw(BAR)] + y|
  {
  }

  lemma {:induction false} SomeUnique(bs: seq<Ere>, u: seq<Sym>, cs: seq<Ere>, v: seq<Sym>)
    requires Branched(bs) && Branched(cs) && Ends(u) && Ends(v) && AltsText(bs) + u == AltsText(cs) + v
    ensures bs == cs && u == v
    decreases |AltsText(bs)|, 5
  {
    FirstBranch(bs, u);
    FirstBranch(cs, v);
    BranchInRow(bs[0]);
    BranchInRow(cs[0]);
    RowUnique(Exps(bs[0]), AfterFirst(bs, u), Exps(cs[0]), AfterFirst(cs, v));
    ExpsUnique(bs[0], cs[0]);
    if |bs| > 1 {
      Behind([Raw(BAR)], AltsText(bs[1..]) + u, [Raw(BAR)], AltsText(cs[1..]) + v);
      SomeUnique(bs[1..], u, cs[1..], v);
      assert bs == [bs[0]] + bs[1..] && cs == [cs[0]] + cs[1..];
    } else {
      assert bs == [bs[0]] && cs == [cs[0]];
    }
  }

  lemma EreUnique(e: Ere, u: seq<Sym>, d: Ere, v: seq<Sym>)
    requires IsEre(e) && IsEre(d) && Unnumbered(e) && Unnumbered(d) && Ends(u) && Ends(v) && Text(e) + u == Text(d) + v
    ensures e == d && u == v
    decreases |Text(e)|, 6
  {
    EreAlts(e);
    EreAlts(d);
    SomeUnique(Alts(e), u, Alts(d), v);
    AltsUnique(e, d);
  }

  /** A pattern is the text of one expression but for the numbers, and so denotes one language. */
  lemma OneReading(e: Ere, d: Ere)
    requires IsEre(e) && IsEre(d) && Text(e) == Text(d)
    ensures Bare(e) == Bare(d) && Denotes(e) == Denotes(d)
  {
    hide Text, Bare, Denotes, IsEre;
    BareText(e);
    BareText(d);
    BareDenotes(e);
    BareDenotes(d);
    BareSame(e);
    BareSame(d);
    BareTwice(e);
    BareTwice(d);
    EreUnique(Bare(e), [], Bare(d), []);
  }
}
