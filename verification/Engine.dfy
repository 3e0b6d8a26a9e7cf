/** The matching engine: stepping through a text with sets of states. */
module Engine {
  import opened Bytes
  import opened Strip
  import opened States
  import opened Step
  import opened Tame
  import opened Reach

  /** The flags and counters that decide which boundaries are looked for. */
  datatype Flavour = Flavour(large: bool, notbol: bool, noteol: bool, nbol: nat, neol: nat)

  predicate IsWordChar(c: Option<byte>) {
    c.Some? &&
    ('0' as byte <= c.value <= '9' as byte || 'A' as byte <= c.value <= 'Z' as byte ||
     'a' as byte <= c.value <= 'z' as byte || c.value == '_' as byte)
  }

  predicate Fits(large: bool, g: Guts, v: Flags) {
    |v| == if large then |g.strip| else WORD_BITS
  }

  /** step(), in the representation chosen; `same` if the two sets are one array. */
  method DoStep(g: Guts, large: bool, start: nat, stop: nat, bef: Flags, code: Input, v: Flags, same: bool) returns (aft: Flags)
    requires Linked(g.strip, start, stop) && 1 <= start && stop < |v|
    requires Fits(large, g, bef) && Fits(large, g, v)
    requires same ==> bef == v && Apart(g, start, stop, true, code)
    ensures Fits(large, g, aft) && Steps(g, start, stop, bef, code, v, aft)
  {
    if large {
      var a := new bool[|v|](i requires 0 <= i < |v| => v[i]);
      assert a[..] == v;
      if same {
        StepLarge(g, start, stop, a, code, a);
      } else {
        var b := new bool[|bef|](i requires 0 <= i < |bef| => bef[i]);
        assert b[..] == bef;
        Apartness(g, start, stop, code);
        StepLarge(g, start, stop, b, code, a);
      }
      aft := a[..];
      StepsSize(g, start, stop, bef, code, v, aft);
    } else {
      aft := StepSmall(g, start, stop, bef, code, v);
    }
  }

  lemma StepsSize(g: Guts, lo: nat, hi: nat, bef: Flags, code: Input, v: Flags, aft: Flags)
    requires Steps(g, lo, hi, bef, code, v, aft)
    ensures |aft| == |v|
  {
  }

  /** Nothing that is not a character, a line or a word boundary moves a closed set of a strip without anchors. */
  lemma NothingMoves(g: Guts, lo: nat, hi: nat, code: Input, v: Flags, v': Flags)
    requires TameStrip(g.strip, lo, hi) && !code.Ch? && Closed(g.strip, lo, hi, v)
    requires Steps(g, lo, hi, v, code, v, v')
    ensures v' == v
  {
    hide Closed, Empty;
    assert Holds(g, lo, hi, v, code, v, v) by {
      TameApart(g, lo, hi, code);
      FollowsNothing(g, lo, hi, code, v);
    }
  }

  lemma FollowsNothing(g: Guts, lo: nat, hi: nat, code: Input, v: Flags)
    requires hi <= |g.strip| && Apart(g, lo, hi, true, code)
    ensures Follows(g, lo, hi, v, code, v)
  {
  }

  lemma TameApart(g: Guts, lo: nat, hi: nat, code: Input)
    requires TameStrip(g.strip, lo, hi) && !code.Ch?
    ensures Apart(g, lo, hi, true, code)
  {
    forall i | lo <= i < hi && i < |g.strip|
      ensures !Fires(g.sets, g.strip[i], code)
    {
      assert TameOp(g.strip, lo, hi, i);
    }
  }

  lemma StepsClosed(g: Guts, lo: nat, hi: nat, bef: Flags, code: Input, v: Flags, aft: Flags)
    requires Steps(g, lo, hi, bef, code, v, aft)
    ensures Closed(g.strip, lo, hi, aft)
  {
  }

  /** The steps taken for the line and word boundaries between two characters. */
  method Boundaries(g: Guts, f: Flavour, start: nat, stop: nat, v: Flags, lastc: Option<byte>, c: Option<byte>) returns (st: Flags)
    requires TameStrip(g.strip, start, stop) && 1 <= start && stop < |v| && Fits(f.large, g, v)
    requires Closed(g.strip, start, stop, v)
    ensures st == v
  {
    hide Closed, TameStrip, Steps, Linked, Apart;
    TameIsLinked(g.strip, start, stop);
    st := v;
    // anchors that hold between the two characters
    var flagch := NOTHING;
    var i := 0;
    if lastc.None? && !f.notbol {
      flagch, i := BOL, f.nbol;
    }
    if c.None? && !f.noteol {
      flagch := if flagch == BOL then BOLEOL else EOL;
      i := i + f.neol;
    }
    while i > 0
      invariant st == v && (i > 0 ==> flagch in {BOL, EOL, BOLEOL})
    {
      TameApart(g, start, stop, flagch);
      st := DoStep(g, f.large, start, stop, st, flagch, st, true);
      NothingMoves(g, start, stop, flagch, v, st);
      i := i - 1;
    }
    if (flagch == BOL || (lastc.Some? && !IsWordChar(lastc))) && c.Some? && IsWordChar(c) {
      flagch := BOW;
    }
    if lastc.Some? && IsWordChar(lastc) && (flagch == EOL || (c.Some? && !IsWordChar(c))) {
      flagch := EOW;
    }
    if flagch == BOW || flagch == EOW {
      TameApart(g, start, stop, flagch);
      st := DoStep(g, f.large, start, stop, st, flagch, st, true);
      NothingMoves(g, start, stop, flagch, v, st);
    }
  }

  function CharAt(text: Word, p: int): Option<byte> {
    if 0 <= p < |text| then Some(text[p]) else None
  }

  /** The start state and what empty moves reach from it. */
  method Begin(g: Guts, large: bool, start: nat, stop: nat, n: nat) returns (st: Flags)
    requires TameStrip(g.strip, start, stop) && 1 <= start && stop < n
    requires n == if large then |g.strip| else WORD_BITS
    ensures |st| == n && Fits(large, g, st) && Closed(g.strip, start, stop, st)
    ensures forall j: nat :: (j < |st| && st[j]) <==> Leads(g, start, stop, start, [], j)
  {
    hide Closed, TameStrip, Steps, Linked, Apart, Leads;
    TameIsLinked(g.strip, start, stop);
    st := NoStates(n)[start := true];
    TameApart(g, start, stop, NOTHING);
    ghost var only := st;
    st := DoStep(g, large, start, stop, st, NOTHING, st, true);
    StepsClosed(g, start, stop, only, NOTHING, only, st);
    StartExact(g, start, stop, only, st);
  }

  /** Step through the text from `from` and find where the longest match from there ends. */
  method Slow(g: Guts, f: Flavour, text: Word, from: nat, upto: nat, startst: nat, stopst: nat) returns (matchp: Option<nat>)
    requires TameStrip(g.strip, startst, stopst) && 1 <= startst && from <= upto <= |text|
    requires stopst < if f.large then |g.strip| else WORD_BITS
    ensures matchp.Some? ==> from <= matchp.value <= upto && Leads(g, startst, stopst, startst, text[from..matchp.value], stopst)
    ensures forall q: nat ::
      from <= q <= upto && (matchp.Some? ==> matchp.value < q) ==> !Leads(g, startst, stopst, startst, text[from..q], stopst)
  {
    hide Closed, TameStrip, Steps, Linked, Apart, Leads, Exact, Seen;
    TameIsLinked(g.strip, startst, stopst);
    var size := if f.large then |g.strip| else WORD_BITS;
    var empty := NoStates(size);
    var st := Begin(g, f.large, startst, stopst, size);
    var p := from;
    var c := CharAt(text, from - 1);
    matchp := None;
    ExactStart(g, startst, stopst, text, from, false, st);
    while true
      invariant from <= p <= upto && Fits(f.large, g, st) && c == CharAt(text, p - 1)
      invariant Closed(g.strip, startst, stopst, st) && Exact(g, startst, stopst, text, from, false, p, st)
      invariant matchp.Some? ==> from <= matchp.value < p && Leads(g, startst, stopst, startst, text[from..matchp.value], stopst)
      invariant forall q: nat ::
        from <= q < p && (matchp.Some? ==> matchp.value < q) ==> !Leads(g, startst, stopst, startst, text[from..q], stopst)
      decreases upto - p
    {
      var lastc := c;
      c := CharAt(text, p);
      st := Boundaries(g, f, startst, stopst, st, lastc, c);
      ExactHere(g, startst, stopst, text, from, p, st);
      if st[stopst] {
        matchp := Some(p);
      }
      if st == empty || p == upto {
        if st == empty {
          EmptyForGood(g, startst, stopst, text, from, p, st);
        }
        break;
      }
      var tmp := st;
      st := DoStep(g, f.large, startst, stopst, tmp, Ch(text[p]), empty, false);
      StepsSize(g, startst, stopst, tmp, Ch(text[p]), empty, st);
      StepsClosed(g, startst, stopst, tmp, Ch(text[p]), empty, st);
      StepKeepsExact(g, startst, stopst, text, from, false, p, tmp, empty, st);
      p := p + 1;
    }
  }

  lemma ExactStart(g: Guts, lo: nat, hi: nat, text: Word, a: nat, many: bool, st: Flags)
    requires a <= |text| && hi < |st|
    requires forall j: nat :: (j < |st| && st[j]) <==> Leads(g, lo, hi, lo, [], j)
    ensures Exact(g, lo, hi, text, a, many, a, st)
  {
    hide Leads;
    assert text[a..a] == [];
    forall j: nat | j < |st|
      ensures st[j] <==> Seen(g, lo, hi, text, a, many, a, j)
    {
      if st[j] {
        SeenIntro(g, lo, hi, text, a, many, a, a, j);
      }
    }
  }

  lemma ExactHere(g: Guts, lo: nat, hi: nat, text: Word, a: nat, p: nat, st: Flags)
    requires a <= p <= |text| && Exact(g, lo, hi, text, a, false, p, st)
    ensures hi < |st| && (st[hi] <==> Leads(g, lo, hi, lo, text[a..p], hi))
  {
    hide Leads;
    if Leads(g, lo, hi, lo, text[a..p], hi) {
      SeenIntro(g, lo, hi, text, a, false, a, p, hi);
    }
  }

  /** Once no state is left, no longer word leads anywhere. */
  lemma EmptyForGood(g: Guts, lo: nat, hi: nat, text: Word, a: nat, p: nat, st: Flags)
    requires Linked(g.strip, lo, hi) && a <= p <= |text| && Exact(g, lo, hi, text, a, false, p, st) && st == NoStates(|st|)
    ensures forall q: nat :: p <= q <= |text| ==> !Leads(g, lo, hi, lo, text[a..q], hi)
  {
    forall q: nat | p <= q <= |text|
      ensures !Leads(g, lo, hi, lo, text[a..q], hi)
    {
      if Leads(g, lo, hi, lo, text[a..q], hi) {
        var n: nat :| Path(g, lo, hi, lo, text[a..q], hi, n);
        var k := PathPasses(g, lo, hi, lo, text[a..q], hi, n, p - a);
        assert text[a..q][..p - a] == text[a..p];
        LeadsStays(g, lo, hi, text[a..p], k);
        SeenIntro(g, lo, hi, text, a, false, a, p, k);
        assert false;
      }
    }
  }

  /** Does some part of the text from `from` on up to `q` match? */
  ghost predicate MatchEnds(g: Guts, lo: nat, hi: nat, text: Word, from: nat, q: nat)
    requires q <= |text|
  {
    exists s: nat :: from <= s <= q && Leads(g, lo, hi, lo, text[s..q], hi)
  }

  /** Step through the text at top speed; stop where the first match to end does. */
  method Fast(g: Guts, f: Flavour, text: Word, from: nat, upto: nat, startst: nat, stopst: nat)
    returns (end: Option<nat>, coldp: nat)
    requires TameStrip(g.strip, startst, stopst) && 1 <= startst && from <= upto <= |text|
    requires stopst < if f.large then |g.strip| else WORD_BITS
    ensures end.Some? ==> from <= end.value <= upto && MatchEnds(g, startst, stopst, text, from, end.value)
    ensures forall q: nat :: from <= q <= upto && (end.Some? ==> q < end.value) ==> !MatchEnds(g, startst, stopst, text, from, q)
    ensures from <= coldp <= upto && (end.Some? ==> coldp <= end.value && MatchEnds(g, startst, stopst, text, coldp, end.value))
  {
    hide Closed, TameStrip, Steps, Linked, Apart, Leads, Exact, Seen, MatchEnds;
    TameIsLinked(g.strip, startst, stopst);
    var size := if f.large then |g.strip| else WORD_BITS;
    var anew := Begin(g, f.large, startst, stopst, size);
    var st := anew;
    var p := from;
    var c := CharAt(text, from - 1);
    coldp := from;
    ExactStart(g, startst, stopst, text, from, true, st);
    while true
      invariant from <= p <= upto && Fits(f.large, g, st) && c == CharAt(text, p - 1) && from <= coldp <= p
      invariant Closed(g.strip, startst, stopst, st) && Exact(g, startst, stopst, text, from, true, p, st)
      invariant Exact(g, startst, stopst, text, coldp, true, p, st)
      invariant forall q: nat :: from <= q < p ==> !MatchEnds(g, startst, stopst, text, from, q)
      decreases upto - p
    {
      var lastc := c;
      c := CharAt(text, p);
      if st == anew {
        coldp := p;
        ExactStart(g, startst, stopst, text, p, true, st);
      }
      st := Boundaries(g, f, startst, stopst, st, lastc, c);
      ExactAnywhere(g, startst, stopst, text, from, p, st);
      ExactAnywhere(g, startst, stopst, text, coldp, p, st);
      if st[stopst] || p == upto {
        break;
      }
      var tmp := st;
      st := DoStep(g, f.large, startst, stopst, tmp, Ch(text[p]), anew, false);
      StepsSize(g, startst, stopst, tmp, Ch(text[p]), anew, st);
      StepsClosed(g, startst, stopst, tmp, Ch(text[p]), anew, st);
      StepKeepsExact(g, startst, stopst, text, from, true, p, tmp, anew, st);
      StepKeepsExact(g, startst, stopst, text, coldp, true, p, tmp, anew, st);
      p := p + 1;
    }
    end := if st[stopst] then Some(p) else None;
  }

  lemma ExactAnywhere(g: Guts, lo: nat, hi: nat, text: Word, a: nat, p: nat, st: Flags)
    requires a <= p <= |text| && Exact(g, lo, hi, text, a, true, p, st)
    ensures hi < |st| && (st[hi] <==> MatchEnds(g, lo, hi, text, a, p))
  {
    hide Leads;
    if MatchEnds(g, lo, hi, text, a, p) {
      var s: nat :| a <= s <= p && Leads(g, lo, hi, lo, text[s..p], hi);
      SeenIntro(g, lo, hi, text, a, true, s, p, hi);
    }
  }
}
