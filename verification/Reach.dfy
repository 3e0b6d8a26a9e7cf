/** What the state sets of the matcher stand for, and that a step keeps it. */
module Reach {
  import opened Bytes
  import opened Strip
  import opened States
  import opened Step
  import opened Tame

  /** The state `j` lies at the end of some word text[s..p], where s is `a` or, if `many`, anything from `a` on. */
  ghost predicate Seen(g: Guts, lo: nat, hi: nat, text: Word, a: nat, many: bool, p: nat, j: nat)
    requires p <= |text|
  {
    exists s: nat :: a <= s <= p && (many || s == a) && Leads(g, lo, hi, lo, text[s..p], j)
  }

  /** The set `v` is exactly those states. */
  ghost predicate Exact(g: Guts, lo: nat, hi: nat, text: Word, a: nat, many: bool, p: nat, v: Flags)
    requires p <= |text|
  {
    |v| > hi && forall j: nat :: j < |v| ==> (v[j] <==> Seen(g, lo, hi, text, a, many, p, j))
  }

  lemma SeenIntro(g: Guts, lo: nat, hi: nat, text: Word, a: nat, many: bool, s: nat, p: nat, j: nat)
    requires a <= s <= p <= |text| && (many || s == a) && Leads(g, lo, hi, lo, text[s..p], j)
    ensures Seen(g, lo, hi, text, a, many, p, j)
  {
  }

  /** A path spelling one character more ends with the move that reads it and empty moves. */
  lemma {:induction false} LastChar(g: Guts, lo: nat, hi: nat, i: nat, w: Word, j: nat, n: nat) returns (k: nat)
    requires w != [] && Path(g, lo, hi, i, w, j, n)
    ensures Leads(g, lo, hi, i, w[..|w| - 1], k) && lo <= k < hi <= |g.strip|
    ensures Eats(g.sets, g.strip[k], w[|w| - 1]) && Leads(g, lo, hi, k + 1, [], j)
    decreases n
  {
    hide Leads, Path, Move;
    var c := w[|w| - 1];
    if n == 0 {
      PathNowhere(g, lo, hi, i, w, j);
    }
    var h, m := PathFirst(g, lo, hi, i, w, j, n);
    if m == |w| {
      assert w[..m] == w && w[m..] == [];
      MoveReads(g, lo, hi, i, w, h);
      k := i;
      assert w[..|w| - 1] == [];
      LeadsNowhere(g, lo, hi, i);
      LeadsPath(g, lo, hi, h, [], j, n - 1);
    } else {
      k := LastChar(g, lo, hi, h, w[m..], j, n - 1);
      var u := w[m..];
      LeadsFirst(g, lo, hi, i, w[..m], h, u[..|u| - 1], k);
      assert w[..m] + u[..|u| - 1] == w[..|w| - 1];
      assert u[|u| - 1] == c;
    }
  }

  lemma MoveReads(g: Guts, lo: nat, hi: nat, i: nat, w: Word, h: nat)
    requires w != [] && Move(g, lo, hi, i, w, h)
    ensures |w| == 1 && lo <= i < hi <= |g.strip| && Eats(g.sets, g.strip[i], w[0]) && h == i + 1
  {
  }

  lemma LeadsPath(g: Guts, lo: nat, hi: nat, i: nat, w: Word, j: nat, n: nat)
    requires Path(g, lo, hi, i, w, j, n)
    ensures Leads(g, lo, hi, i, w, j)
  {
  }

  lemma ClosedMove(g: Guts, lo: nat, hi: nat, i: nat, w: Word, j: nat, v: Flags)
    requires Move(g, lo, hi, i, w, j) && w == [] && Closed(g.strip, lo, hi, v) && i < |v| && v[i]
    ensures j < |v| && v[j]
  {
    hide Empty;
  }

  /** A closed set holds all that empty moves reach from it. */
  lemma {:induction false} EmptyMoves(g: Guts, lo: nat, hi: nat, i: nat, w: Word, j: nat, n: nat, v: Flags)
    requires Path(g, lo, hi, i, w, j, n) && w == [] && Closed(g.strip, lo, hi, v) && i < |v| && v[i]
    ensures j < |v| && v[j]
    decreases n
  {
    hide Move, Closed;
    if n > 0 {
      var h: nat, m: nat :| m <= |w| && Move(g, lo, hi, i, w[..m], h) && Path(g, lo, hi, h, w[m..], j, n - 1);
      ClosedMove(g, lo, hi, i, w[..m], h, v);
      EmptyMoves(g, lo, hi, h, w[m..], j, n - 1, v);
    }
  }

  lemma MoveStays(g: Guts, lo: nat, hi: nat, i: nat, w: Word, j: nat)
    requires Linked(g.strip, lo, hi) && Move(g, lo, hi, i, w, j)
    ensures lo <= j <= hi
  {
    VisitTargets(g.strip, lo, hi, i);
  }

  /** Paths stay within lo..hi. */
  lemma {:induction false} PathStays(g: Guts, lo: nat, hi: nat, i: nat, w: Word, j: nat, n: nat)
    requires Linked(g.strip, lo, hi) && lo <= i <= hi && Path(g, lo, hi, i, w, j, n)
    ensures lo <= j <= hi
    decreases n
  {
    hide Linked, Move;
    if n > 0 {
      var h: nat, m: nat :| m <= |w| && Move(g, lo, hi, i, w[..m], h) && Path(g, lo, hi, h, w[m..], j, n - 1);
      MoveStays(g, lo, hi, i, w[..m], h);
      PathStays(g, lo, hi, h, w[m..], j, n - 1);
    }
  }

  lemma LeadsStays(g: Guts, lo: nat, hi: nat, w: Word, j: nat)
    requires Linked(g.strip, lo, hi) && Leads(g, lo, hi, lo, w, j)
    ensures lo <= j <= hi
  {
    var n: nat :| Path(g, lo, hi, lo, w, j, n);
    PathStays(g, lo, hi, lo, w, j, n);
  }

  /** A path passes some state after every part of its word. */
  lemma {:induction false} PathPasses(g: Guts, lo: nat, hi: nat, i: nat, w: Word, j: nat, n: nat, m: nat) returns (k: nat)
    requires Path(g, lo, hi, i, w, j, n) && m <= |w|
    ensures Leads(g, lo, hi, i, w[..m], k)
    decreases n
  {
    hide Leads, Move;
    if m == 0 {
      k := i;
      LeadsNowhere(g, lo, hi, i);
      assert w[..m] == [];
    } else {
      var h: nat, d: nat :| d <= |w| && Move(g, lo, hi, i, w[..d], h) && Path(g, lo, hi, h, w[d..], j, n - 1);
      if d > 0 {
        MoveReads(g, lo, hi, i, w[..d], h);
      }
      k := PathPasses(g, lo, hi, h, w[d..], j, n - 1, m - d);
      LeadsFirst(g, lo, hi, i, w[..d], h, w[d..][..m - d], k);
      assert w[..d] + w[d..][..m - d] == w[..m];
    }
  }

  /** The states seen so far, as flags. */
  ghost function SeenFlags(g: Guts, lo: nat, hi: nat, text: Word, a: nat, many: bool, p: nat, n: nat): (t: Flags)
    requires p <= |text|
    ensures |t| == n && forall j: nat :: j < n ==> (t[j] <==> Seen(g, lo, hi, text, a, many, p, j))
  {
    seq(n, j requires 0 <= j < n => Seen(g, lo, hi, text, a, many, p, j))
  }

  /** What is seen after one more character holds what the step has to hold. */
  lemma SeenHolds(g: Guts, lo: nat, hi: nat, text: Word, a: nat, many: bool, p: nat, bef: Flags, aft: Flags)
    requires Linked(g.strip, lo, hi) && a <= p < |text| && |bef| == |aft|
    requires Exact(g, lo, hi, text, a, many, p, bef)
    requires forall j: nat :: j < |aft| && aft[j] ==> many && Leads(g, lo, hi, lo, [], j)
    ensures Holds(g, lo, hi, bef, Ch(text[p]), aft, SeenFlags(g, lo, hi, text, a, many, p + 1, |aft|))
  {
    hide Leads, Seen, Empty;
    var t := SeenFlags(g, lo, hi, text, a, many, p + 1, |aft|);
    forall j: nat | j < |aft| && aft[j]
      ensures t[j]
    {
      assert text[p + 1..p + 1] == [];
      SeenIntro(g, lo, hi, text, a, many, p + 1, p + 1, j);
    }
    forall i: nat | lo <= i < hi && bef[i] && Fires(g.sets, g.strip[i], Ch(text[p]))
      ensures i + 1 < |t| && t[i + 1]
    {
      SeenMore(g, lo, hi, text, a, many, p, i);
    }
    forall i: nat, j: nat | lo <= i < hi && t[i] && Empty(g.strip, i, j)
      ensures j < |t| && t[j]
    {
      VisitTargets(g.strip, lo, hi, i);
      SeenEmpty(g, lo, hi, text, a, many, p + 1, i, j);
    }
  }

  lemma SeenMore(g: Guts, lo: nat, hi: nat, text: Word, a: nat, many: bool, p: nat, i: nat)
    requires a <= p < |text| && lo <= i < hi <= |g.strip|
    requires Seen(g, lo, hi, text, a, many, p, i) && Eats(g.sets, g.strip[i], text[p])
    ensures Seen(g, lo, hi, text, a, many, p + 1, i + 1)
  {
    hide Leads;
    var s: nat :| a <= s <= p && (many || s == a) && Leads(g, lo, hi, lo, text[s..p], i);
    LeadsMove(g, lo, hi, i, [text[p]], i + 1);
    LeadsJoin(g, lo, hi, lo, text[s..p], i, [text[p]], i + 1);
    assert text[s..p] + [text[p]] == text[s..p + 1];
    SeenIntro(g, lo, hi, text, a, many, s, p + 1, i + 1);
  }

  lemma SeenEmpty(g: Guts, lo: nat, hi: nat, text: Word, a: nat, many: bool, p: nat, i: nat, j: nat)
    requires p <= |text| && lo <= i < hi <= |g.strip|
    requires Seen(g, lo, hi, text, a, many, p, i) && Empty(g.strip, i, j)
    ensures Seen(g, lo, hi, text, a, many, p, j)
  {
    hide Leads, Empty;
    var s: nat :| a <= s <= p && (many || s == a) && Leads(g, lo, hi, lo, text[s..p], i);
    LeadsEmpty(g, lo, hi, i, j);
    LeadsJoin(g, lo, hi, lo, text[s..p], i, [], j);
    assert text[s..p] + [] == text[s..p];
    SeenIntro(g, lo, hi, text, a, many, s, p, j);
  }

  /** Whatever is seen after one more character is in every set the step holds. */
  lemma SeenIsHeld(g: Guts, lo: nat, hi: nat, text: Word, a: nat, many: bool, p: nat, bef: Flags, aft: Flags, v: Flags, j: nat)
    requires Linked(g.strip, lo, hi) && a <= p < |text|
    requires Exact(g, lo, hi, text, a, many, p, bef) && Holds(g, lo, hi, bef, Ch(text[p]), aft, v)
    requires forall k: nat :: many && Leads(g, lo, hi, lo, [], k) ==> k < |aft| && aft[k]
    requires Seen(g, lo, hi, text, a, many, p + 1, j)
    ensures j < |v| && v[j]
  {
    hide Empty, Path, Closed;
    var s: nat :| a <= s <= p + 1 && (many || s == a) && Leads(g, lo, hi, lo, text[s..p + 1], j);
    if s == p + 1 {
      assert text[s..p + 1] == [];
    } else {
      var w := text[s..p + 1];
      var n: nat :| Path(g, lo, hi, lo, w, j, n);
      var k := LastChar(g, lo, hi, lo, w, j, n);
      assert w[..|w| - 1] == text[s..p];
      SeenIntro(g, lo, hi, text, a, many, s, p, k);
      assert bef[k] && v[k + 1];
      var n': nat :| Path(g, lo, hi, k + 1, [], j, n');
      EmptyMoves(g, lo, hi, k + 1, [], j, n', v);
    }
  }

  /** A step on a character takes the exact set to the exact set after it. */
  lemma StepKeepsExact(g: Guts, lo: nat, hi: nat, text: Word, a: nat, many: bool, p: nat, bef: Flags, aft: Flags, v: Flags)
    requires Linked(g.strip, lo, hi) && a <= p < |text| && |bef| == |aft| == |v|
    requires Exact(g, lo, hi, text, a, many, p, bef)
    requires forall j: nat :: (j < |aft| && aft[j]) <==> (many && Leads(g, lo, hi, lo, [], j))
    requires Steps(g, lo, hi, bef, Ch(text[p]), aft, v)
    ensures Exact(g, lo, hi, text, a, many, p + 1, v)
  {
    hide Leads, Seen, Empty;
    SeenHolds(g, lo, hi, text, a, many, p, bef, aft);
    forall j: nat | j < |v|
      ensures v[j] <==> Seen(g, lo, hi, text, a, many, p + 1, j)
    {
      if Seen(g, lo, hi, text, a, many, p + 1, j) {
        SeenIsHeld(g, lo, hi, text, a, many, p, bef, aft, v, j);
      }
    }
  }

  /** The closure of the start state is exactly what the empty word leads to. */
  lemma StartExact(g: Guts, lo: nat, hi: nat, bef: Flags, v: Flags)
    requires Linked(g.strip, lo, hi) && hi < |v| == |bef|
    requires Steps(g, lo, hi, bef, NOTHING, NoStates(|bef|)[lo := true], v)
    ensures forall j: nat :: (j < |v| && v[j]) <==> Leads(g, lo, hi, lo, [], j)
  {
    hide Empty;
    var only := NoStates(|bef|)[lo := true];
    var t: Flags := seq(|v|, j requires 0 <= j < |v| => Leads(g, lo, hi, lo, [], j));
    assert Holds(g, lo, hi, bef, NOTHING, only, t) by {
      LeadsNowhere(g, lo, hi, lo);
      forall i: nat, j: nat | lo <= i < hi && t[i] && Empty(g.strip, i, j)
        ensures j < |t| && t[j]
      {
        VisitTargets(g.strip, lo, hi, i);
        LeadsEmpty(g, lo, hi, i, j);
        LeadsJoin(g, lo, hi, lo, [], i, [], j);
        var z: Word := [];
        assert z + z == z;
      }
    }
    forall j: nat
      ensures (j < |v| && v[j]) <==> Leads(g, lo, hi, lo, [], j)
    {
      if Leads(g, lo, hi, lo, [], j) {
        var n: nat :| Path(g, lo, hi, lo, [], j, n);
        assert v[lo];
        EmptyMoves(g, lo, hi, lo, [], j, n, v);
      }
    }
  }
}
