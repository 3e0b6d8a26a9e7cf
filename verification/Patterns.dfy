/** What patterns mean, said of their characters and of numbers, whatever the grammar's own terms are. */
module Patterns {
  import opened Bytes
  import opened Languages
  import opened Ere
  import U = EreUnique
  import R = EreReads
  import Reg = Regcomp
  import D = Decimal

  predicate IsAscii(s: string) {
    forall i :: 0 <= i < |s| ==> s[i] as int < 128
  }

  function Encoded(s: string): (ds: seq<byte>)
    requires IsAscii(s)
    ensures |ds| == |s| && forall i :: 0 <= i < |s| ==> ds[i] as int == s[i] as int
  {
    seq(|s|, i requires 0 <= i < |s| => s[i] as byte)
  }

  /** A pattern without bracket expressions, as it is typed. */
  function Typed(s: string): seq<Sym>
    requires IsAscii(s)
  {
    Chars(Encoded(s))
  }

  // ----- Counts -----

  predicate AreDigits(s: string) {
    forall i :: 0 <= i < |s| ==> D.IsDigit(s[i])
  }

  /** The digits of a count denote the number that they are in decimal notation, zeros in front or not. */
  lemma {:induction false} CountIsNumber(s: string)
    requires IsAscii(s) && AreDigits(s)
    ensures Value(Encoded(s)) == D.Number(s) && forall i :: 0 <= i < |s| ==> IsDigit(Encoded(s)[i])
  {
    if s != [] {
      var front := s[..|s| - 1];
      CountIsNumber(front);
      assert Encoded(s)[..|s| - 1] == Encoded(front);
    }
  }

  lemma CountOk(s: string)
    requires IsAscii(s) && AreDigits(s) && s != []
    ensures IsCount(Encoded(s)) <==> D.Number(s) <= 255
  {
    CountIsNumber(s);
  }

  /** The bounds of a repetition, in numbers: as often as this, at least as often, or from one to the other. */
  datatype Bound = Times(n: nat) | AtLeast(n: nat) | FromTo(m: nat, n: nat)

  /** How a bound is typed. */
  function Braces(b: Bound): (s: string)
    ensures IsAscii(s) && |s| > 2
  {
    "{" + D.Numeral(Low(b)) + Behind(b) + "}"
  }

  /** What is behind the first number. */
  function Behind(b: Bound): (s: string)
    ensures IsAscii(s)
  {
    match b
    case Times(_) => ""
    case AtLeast(_) => ","
    case FromTo(_, n) => "," + D.Numeral(n)
  }

  function Low(b: Bound): nat {
    if b.FromTo? then b.m else b.n
  }

  function High(b: Bound): Option<nat> {
    if b.AtLeast? then None else Some(b.n)
  }

  /** No number is over the limit, and the bounds are in order. */
  predicate InRange(b: Bound) {
    Low(b) <= 255 && (b.FromTo? ==> b.m <= b.n <= 255)
  }

  function LowDigits(b: Bound): seq<byte> {
    Encoded(D.Numeral(Low(b)))
  }

  function HighDigits(b: Bound): Upper {
    match b
    case Times(_) => Exact
    case AtLeast(_) => Upper.AtLeast
    case FromTo(_, n) => UpTo(Encoded(D.Numeral(n)))
  }

  lemma TypedBounds(b: Bound)
    ensures Typed(Braces(b)) == [Raw(LBRACE)] + (Chars(LowDigits(b)) + UpperText(HighDigits(b)) + [Raw(RBRACE)])
  {
    hide D.Numeral, Typed, Chars, Behind, UpperText, HighDigits, IsAscii;
    TypedSigns();
    AsciiSigns();
    AsciiNumeral(Low(b));
    TypedIs(D.Numeral(Low(b)));
    TypedBehind(b);
    TypedThree("{", D.Numeral(Low(b)), Behind(b));
    TypedTwo("{" + D.Numeral(Low(b)) + Behind(b), "}");
    U.Reassociate([Raw(LBRACE)], Chars(LowDigits(b)), UpperText(HighDigits(b)));
    U.Reassociate([Raw(LBRACE)], Chars(LowDigits(b)) + UpperText(HighDigits(b)), [Raw(RBRACE)]);
  }

  lemma AsciiSigns()
    ensures IsAscii("{") && IsAscii("}") && IsAscii(",")
  {
  }

  lemma AsciiNumeral(n: nat)
    ensures IsAscii(D.Numeral(n))
  {
  }

  lemma TypedBehind(b: Bound)
    ensures Typed(Behind(b)) == UpperText(HighDigits(b))
  {
    hide D.Numeral, Typed, Chars, IsAscii;
    TypedSigns();
    AsciiSigns();
    match b
    case Times(_) => NothingTyped();
    case AtLeast(_) =>
    case FromTo(_, n) =>
      AsciiNumeral(n);
      TypedIs(D.Numeral(n));
      TypedTwo(",", D.Numeral(n));
  }

  lemma NothingTyped()
    ensures IsAscii("") && Typed("") == []
  {
  }

  lemma TypedIs(s: string)
    requires IsAscii(s)
    ensures Typed(s) == Chars(Encoded(s))
  {
  }

  lemma TypedTwo(s: string, t: string)
    requires IsAscii(s) && IsAscii(t)
    ensures IsAscii(s + t) && Typed(s + t) == Typed(s) + Typed(t)
  {
    assert Encoded(s + t) == Encoded(s) + Encoded(t);
    R.CharsSplit(Encoded(s), Encoded(t));
  }

  lemma TypedThree(s: string, t: string, u: string)
    requires IsAscii(s) && IsAscii(t) && IsAscii(u)
    ensures IsAscii(s + t + u) && Typed(s + t + u) == Typed(s) + Typed(t) + Typed(u)
  {
    hide Typed;
    TypedTwo(s, t);
    TypedTwo(s + t, u);
  }

  lemma TypedSigns()
    ensures Typed("{") == [Raw(LBRACE)] && Typed("}") == [Raw(RBRACE)] && Typed(",") == [Raw(COMMA)]
  {
  }

  lemma DigitsValue(n: nat)
    ensures Value(Encoded(D.Numeral(n))) == n && forall i :: 0 <= i < |D.Numeral(n)| ==> IsDigit(Encoded(D.Numeral(n))[i])
    ensures IsCount(Encoded(D.Numeral(n))) <==> n <= 255
  {
    hide D.Number, Value, D.Numeral;
    D.NumeralReads(n);
    CountIsNumber(D.Numeral(n));
    CountOk(D.Numeral(n));
  }

  lemma BoundsInRange(b: Bound)
    ensures BoundsOk(LowDigits(b), HighDigits(b)) <==> InRange(b)
    ensures Value(LowDigits(b)) == Low(b) && HighBound(LowDigits(b), HighDigits(b)) == High(b)
  {
    hide Value, D.Numeral, IsCount;
    DigitsValue(Low(b));
    DigitsValue(b.n);
  }

  /** An expression typed as an operand with a bound behind it. */
  predicate TypedRepetition(e: Ere, x: Ere, b: Bound) {
    IsEre(e) && IsAtom(x) && !x.Bol? && Text(e) == Text(x) + Typed(Braces(b))
  }

  lemma RepIs(x: Ere, lo: seq<byte>, hi: Upper)
    requires IsAtom(x) && !x.Bol? && BoundsOk(lo, hi)
    ensures IsEre(Rep(x, lo, hi)) && Text(Rep(x, lo, hi)) == Text(x) + ([Raw(LBRACE)] + (Chars(lo) + UpperText(hi) + [Raw(RBRACE)]))
  {
    hide IsAtom, BoundsOk;
    assert IsExp(Rep(x, lo, hi));
    assert IsBranch(Rep(x, lo, hi));
    U.Reassociate([Raw(LBRACE)], Chars(lo) + UpperText(hi), [Raw(RBRACE)]);
    U.Reassociate([Raw(LBRACE)], Chars(lo), UpperText(hi));
  }

  lemma Repetition(x: Ere, b: Bound) returns (r: Ere)
    requires IsAtom(x) && !x.Bol? && InRange(b)
    ensures TypedRepetition(r, x, b) && r == Rep(x, LowDigits(b), HighDigits(b))
  {
    hide Text, IsEre, IsAtom, Value, Typed, LowDigits, HighDigits, BoundsOk, Braces, InRange, Chars, UpperText;
    r := Rep(x, LowDigits(b), HighDigits(b));
    BoundsInRange(b);
    TypedBounds(b);
    RepIs(x, LowDigits(b), HighDigits(b));
  }

  /** Whatever expression is typed so: its words are as many words of the operand as the numbers say. */
  lemma BoundMeans(e: Ere, x: Ere, b: Bound)
    requires TypedRepetition(e, x, b) && InRange(b)
    ensures Denotes(e) == Between(Denotes(x), Low(b), High(b))
  {
    hide Text, IsEre, IsAtom, Value, LowDigits, HighDigits, BoundsOk, Braces, Typed, Between;
    var r := Repetition(x, b);
    BoundsInRange(b);
    U.OneReading(e, r);
  }

  // ----- Which bounds are refused -----

  /** A number over the limit is seen to be so, however many digits are left. */
  lemma {:induction false} CountOver(text: seq<Sym>, p: nat, ds: seq<byte>, done: seq<byte>)
    requires R.Here(text, p, Chars(ds)) && forall i :: 0 <= i < |ds| ==> IsDigit(ds[i])
    requires Value(done + ds) > DUPMAX
    ensures R.CountFrom(text, p, Value(done)).1 > DUPMAX
    decreases |ds|
  {
    hide Value, Chars, R.Here;
    R.HereBounds(text, p, Chars(ds));
    if ds == [] {
      assert done + ds == done;
    } else if Value(done) <= DUPMAX {
      var first, more := [ds[0]], ds[1..];
      assert ds == first + more && done + ds == (done + first) + more;
      R.ValueOne(done, ds[0]);
      assert Chars(ds) == Chars(first) + Chars(more) by { R.CharsSplit(first, more); }
      R.HereAt(text, p, Chars(ds), 0);
      R.HereSplit(text, p, Chars(first), Chars(more));
      CountOver(text, p + 1, more, done + first);
    }
  }

  lemma CountRead(text: seq<Sym>, p: nat, n: nat)
    requires R.Here(text, p, Chars(Encoded(D.Numeral(n)))) && !DigitAt(text, p + |D.Numeral(n)|)
    ensures DigitAt(text, p)
    ensures R.CountEnd(text, p) == if n <= 255 then Some((p + |D.Numeral(n)|, n)) else None
  {
    hide Value, Chars, R.Here, D.Numeral, R.CountFrom;
    var ds := Encoded(D.Numeral(n));
    DigitsValue(n);
    R.HereBounds(text, p, Chars(ds));
    R.HereAt(text, p, Chars(ds), 0);
    if n <= 255 {
      R.CountReads(text, p, ds);
    } else {
      assert [] + ds == ds;
      NoValue();
      CountOver(text, p, ds, []);
    }
  }

  lemma NoValue()
    ensures Value([]) == 0
  {
  }

  /** Bounds that are not in order, or over the limit, are not read. */
  lemma BoundsOut(text: seq<Sym>, p: nat, b: Bound)
    requires R.Here(text, p, Chars(LowDigits(b)) + UpperText(HighDigits(b)) + [Raw(RBRACE)]) && !InRange(b)
    ensures DigitAt(text, p) && R.BoundsEnd(text, p) == None
  {
    hide Chars, R.Here, D.Numeral, R.CountEnd;
    var lo, up := Chars(LowDigits(b)), UpperText(HighDigits(b));
    var q := p + |lo|;
    var u := q + |up|;
    R.HereSplit(text, p, lo + up, [Raw(RBRACE)]);
    R.HereSplit(text, p, lo, up);
    R.HereAt(text, u, [Raw(RBRACE)], 0);
    if !b.Times? {
      R.HereAt(text, q, up, 0);
    }
    CountRead(text, p, Low(b));
    if b.FromTo? && b.m <= 255 {
      R.HereSplit(text, q, [Raw(COMMA)], Chars(Encoded(D.Numeral(b.n))));
      CountRead(text, q + 1, b.n);
    }
  }

  /** No pattern is accepted that is an operand with such bounds. */
  lemma OutRefused(x: Ere, b: Bound)
    requires IsAtom(x) && !x.Bol? && !InRange(b)
    ensures R.EreEnd(Text(x) + Typed(Braces(b)), 0, None) == None
  {
    hide *;
    var braces := Chars(LowDigits(b)) + UpperText(HighDigits(b)) + [Raw(RBRACE)];
    var text := Text(x) + Typed(Braces(b));
    TypedBounds(b);
    assert text == Text(x) + ([Raw(LBRACE)] + braces);
    Stands(text, Text(x), [Raw(LBRACE)], braces);
    var q := |Text(x)|;
    BoundsOut(text, q + 1, b);
    OperandRead(text, x);
    R.ExpUnfolds(text, 0);
    R.BranchUnfolds(text, 0, None, false);
    R.EreStep(text, 0, None);
  }

  /** The parts of a text stand one after another. */
  lemma Stands(text: seq<Sym>, a: seq<Sym>, s: seq<Sym>, b: seq<Sym>)
    requires text == a + (s + b) && |s| == 1
    ensures R.Here(text, 0, a) && R.Here(text, |a| + 1, b) && |a| < |text| && text[|a|] == s[0]
  {
  }

  /** An operand is read at the front of a text, and a brace with a digit behind it begins a bound. */
  lemma OperandRead(text: seq<Sym>, x: Ere)
    requires IsAtom(x) && !x.Bol? && R.Here(text, 0, Text(x)) && DigitAt(text, |Text(x)| + 1) && text[|Text(x)|] == Raw(LBRACE)
    ensures !R.Stops(text, 0, None) && text[0] != Raw(CARET) && R.StartsRepetition(text, |Text(x)|)
    ensures R.AtomEnd(text, 0) == if R.SolidInside(x) then Some(|Text(x)|) else None
  {
    hide Text, IsAtom, R.AtomEnd, R.SolidInside;
    R.EreBegins(x);
    R.BraceLength(x);
    R.Caret(x);
    R.HereAt(text, 0, Text(x), 0);
    R.AtomRuns(text, 0, x);
  }

  /**
   * An operand with a bound behind it is an accepted pattern exactly if the operand is one, the numbers
   * are in order and none is over 255, and it is not to be repeated no times.
   */
  lemma BoundAccepted(x: Ere, b: Bound)
    requires IsAtom(x) && !x.Bol?
    ensures Reg.Accepted(Text(x) + Typed(Braces(b))) <==> R.SolidInside(x) && InRange(b) && High(b) != Some(0)
  {
    hide Text, IsEre, IsAtom, Value, Braces, Typed, LowDigits, HighDigits, BoundsOk, R.EreEnd, Reg.Accepted;
    var text := Text(x) + Typed(Braces(b));
    Reg.AcceptedExactly(text);
    if InRange(b) {
      var r := Repetition(x, b);
      BoundsInRange(b);
      R.ReadsWhole(r);
      if R.Solid(r) {
        Reg.ReadsText(text, r);
      }
    } else {
      OutRefused(x, b);
    }
  }

  // ----- The other symbols -----

  /** The characters that stand for themselves, an escaped one, and the one that stands for any. */
  lemma CharacterMeans(e: Ere, c: char)
    requires c as int < 128 && IsEre(e)
    ensures Text(e) == Typed([c]) && c !in "()^$|*+?.[\\" ==> Denotes(e) == iset{Encoded([c])}
    ensures Text(e) == Typed("\\" + [c]) ==> Denotes(e) == iset{Encoded([c])}
    ensures Text(e) == Typed(".") ==> Denotes(e) == iset w: Word | |w| == 1
  {
    var b := c as byte;
    assert Encoded([c]) == [b] && Encoded("\\" + [c]) == [BACKSLASH, b] && Encoded(".") == [DOT];
    if Text(e) == Typed([c]) && c !in "()^$|*+?.[\\" {
      PlainCharacter(c);
      SameMeaning(e, Lit(b));
    }
    if Text(e) == Typed("\\" + [c]) {
      SameMeaning(e, Esc(b));
    }
    if Text(e) == Typed(".") {
      SameMeaning(e, Dot);
      SingleWords();
    }
  }

  lemma PlainCharacter(c: char)
    requires c as int < 128 && c !in "()^$|*+?.[\\"
    ensures !Special(c as byte)
  {
    var s := "()^$|*+?.[\\";
    assert '(' in s && ')' in s && '^' in s && '$' in s && '|' in s && '*' in s && '+' in s && '?' in s;
    assert s[8] == '.' && s[9] == '[' && s[10] == '\\';
  }

  lemma SingleWords()
    ensures Denotes(Dot) == iset w: Word | |w| == 1
  {
    forall w: Word
      ensures w in Denotes(Dot) <==> |w| == 1
    {
      if |w| == 1 {
        assert w == [w[0]];
      }
    }
  }

  lemma SameMeaning(e: Ere, d: Ere)
    requires IsEre(e) && IsAtom(d) && Text(e) == Text(d)
    ensures Denotes(e) == Denotes(d)
  {
    hide Text, Denotes;
    assert IsBranch(d);
    U.OneReading(e, d);
  }

  /** An operand with a repetition symbol behind it: any number of its words, at least one, at most one. */
  lemma SymbolMeans(e: Ere, x: Ere)
    requires IsEre(e) && IsAtom(x) && !x.Bol?
    ensures Text(e) == Text(x) + Typed("*") ==> Denotes(e) == Between(Denotes(x), 0, None)
    ensures Text(e) == Text(x) + Typed("+") ==> Denotes(e) == Between(Denotes(x), 1, None)
    ensures Text(e) == Text(x) + Typed("?") ==> Denotes(e) == Between(Denotes(x), 0, Some(1))
  {
    hide IsEre, IsAtom, Text, Denotes, Between, Typed;
    Repeated(x);
    AtMostOne(Denotes(x));
    if Text(e) == Text(x) + Typed("*") {
      U.OneReading(e, Star(x));
    }
    if Text(e) == Text(x) + Typed("+") {
      U.OneReading(e, Plus(x));
    }
    if Text(e) == Text(x) + Typed("?") {
      U.OneReading(e, Opt(x));
    }
  }

  lemma Repeated(x: Ere)
    requires IsAtom(x) && !x.Bol?
    ensures IsEre(Star(x)) && Text(Star(x)) == Text(x) + Typed("*") && Denotes(Star(x)) == Between(Denotes(x), 0, None)
    ensures IsEre(Plus(x)) && Text(Plus(x)) == Text(x) + Typed("+") && Denotes(Plus(x)) == Between(Denotes(x), 1, None)
    ensures IsEre(Opt(x)) && Text(Opt(x)) == Text(x) + Typed("?") && Denotes(Opt(x)) == Denotes(x) + EPSILON
  {
    hide IsAtom, Between, Typed;
    TypedSymbols();
    assert IsExp(Star(x)) && IsExp(Plus(x)) && IsExp(Opt(x));
    assert IsBranch(Star(x)) && IsBranch(Plus(x)) && IsBranch(Opt(x));
  }

  lemma TypedSymbols()
    ensures Typed("*") == [Raw(STAR)] && Typed("+") == [Raw(PLUS)] && Typed("?") == [Raw(QUEST)]
  {
  }

  lemma AtMostOne(a: Lang)
    ensures a + EPSILON == Between(a, 0, Some(1))
  {
    hide Between;
    PowerOne(a);
    assert Power(a, 0) == EPSILON;
    forall w
      ensures w in a + EPSILON <==> w in Between(a, 0, Some(1))
    {
      if w in a {
        BetweenIntro(a, 0, Some(1), 1, w);
      }
      if w in EPSILON {
        BetweenIntro(a, 0, Some(1), 0, w);
      }
      if w in Between(a, 0, Some(1)) {
        var n := BetweenElim(a, 0, Some(1), w);
        assert n == 0 || n == 1;
      }
    }
  }

  /** Two parts one after another. */
  lemma PartsMean(e: Ere, a: Ere, b: Ere)
    requires IsEre(e) && IsBranch(Cat(a, b)) && Text(e) == Text(a) + Text(b)
    ensures Denotes(e) == iset u, v | u in Denotes(a) && v in Denotes(b) :: u + v
  {
    hide IsBranch, Concat;
    U.OneReading(e, Cat(a, b));
    Parts(Denotes(a), Denotes(b));
  }

  /** A bar between two parts. */
  lemma ChoiceMeans(e: Ere, a: Ere, b: Ere)
    requires IsEre(e) && IsEre(a) && IsBranch(b) && Text(e) == Text(a) + Typed("|") + Text(b)
    ensures Denotes(e) == Denotes(a) + Denotes(b)
  {
    hide IsEre, IsBranch, Text, Denotes;
    assert Encoded("|") == [BAR];
    var d := Either(a, b);
    U.OneReading(e, d);
  }

  /** Parentheses around a part. */
  lemma GroupMeans(e: Ere, a: Ere)
    requires IsEre(e) && IsEre(a) && Text(e) == Typed("(") + Text(a) + Typed(")")
    ensures Denotes(e) == Denotes(a)
  {
    hide IsEre, Typed;
    TypedParentheses();
    SameMeaning(e, Group(0, a));
  }

  lemma TypedParentheses()
    ensures Typed("(") == [Raw(LPAREN)] && Typed(")") == [Raw(RPAREN)]
  {
  }

  lemma Parts(a: Lang, b: Lang)
    ensures Concat(a, b) == iset u, v | u in a && v in b :: u + v
  {
    forall w
      ensures w in Concat(a, b) <==> exists u, v :: u in a && v in b && w == u + v
    {
      if w in Concat(a, b) {
        var u, v := ConcatElim(a, b, w);
      }
      if u, v :| u in a && v in b && w == u + v {
        ConcatIntro(a, b, u, v);
      }
    }
  }

  lemma Either(a: Ere, b: Ere) returns (d: Ere)
    requires IsEre(a) && IsBranch(b)
    ensures IsEre(d) && Text(d) == Text(a) + [Raw(BAR)] + Text(b) && Denotes(d) == Denotes(a) + Denotes(b)
  {
    hide IsBranch;
    if a.Alt? {
      d := Alt(Then(a.branches, a.last), b);
    } else {
      d := Alt(First(a), b);
    }
  }

  // ----- A pattern in full -----

  /** `a{2}` is accepted, and matches two of these and nothing else. */
  lemma Twice(e: Ere)
    requires IsEre(e) && Text(e) == Typed("a{2}")
    ensures Reg.Accepted(Typed("a{2}")) && Denotes(e) == iset{Encoded("aa")}
  {
    hide Reg.Accepted, IsEre, Between, Braces;
    var a := Lit('a' as byte);
    TypedTwice();
    BoundAccepted(a, Times(2));
    BoundMeans(e, a, Times(2));
    TwoLetters('a' as byte);
    assert Encoded("aa") == ['a' as byte, 'a' as byte];
  }

  lemma TypedTwice()
    ensures var a := Lit('a' as byte); IsAtom(a) && Typed("a{2}") == Text(a) + Typed(Braces(Times(2)))
  {
    PlainCharacter('a');
    assert D.Numeral(2) == "2" && Braces(Times(2)) == "{2}";
    assert Encoded("a{2}") == ['a' as byte] + Encoded("{2}");
  }

  lemma TwoLetters(c: byte)
    ensures Between(iset{[c]}, 2, Some(2)) == iset{[c, c]}
  {
    var a: Lang := iset{[c]};
    assert [c] + [c] == [c, c];
    PowerOne(a);
    assert Power(a, 2) == Concat(a, Power(a, 1));
    Parts(a, a);
    forall w
      ensures w in Between(a, 2, Some(2)) <==> w == [c, c]
    {
      if w in Between(a, 2, Some(2)) {
        var n := BetweenElim(a, 2, Some(2), w);
      }
      if w == [c, c] {
        ConcatIntro(a, a, [c], [c]);
        BetweenIntro(a, 2, Some(2), 2, w);
      }
    }
  }
}
