/**
 * The compiled form of a regular expression: a strip of operators with relative
 * offsets, and the moves between strip positions that the matcher makes.
 */
module Strip {
  import opened Bytes

  /** Strip operators; the operand is the set or paren number or an offset. */
  datatype Sop =
    | OEnd
    | OChar(c: byte)
    | OBol
    | OEol
    | OAny
    | OAnyOf(no: nat)
    | OPlusOpen(fwd: nat)     // OPLUS_
    | OPlusClose(back: nat)   // O_PLUS
    | OQuestOpen(fwd: nat)    // OQUEST_
    | OQuestClose(back: nat)  // O_QUEST
    | OLParen(no: nat)
    | ORParen(no: nat)
    | OChoiceOpen(fwd: nat)   // OCH_
    | OOr1(back: nat)
    | OOr2(fwd: nat)
    | OChoiceClose(back: nat) // O_CH

  /** What matching reads of a compiled expression: the strip and the character sets. */
  datatype Guts = Guts(strip: seq<Sop>, sets: seq<set<byte>>)

  predicate Consumes(op: Sop) {
    op.OChar? || op.OAny? || op.OAnyOf?
  }

  /** The operators that are a whole atom: characters and anchors. */
  predicate Atomic(op: Sop) {
    Consumes(op) || op.OBol? || op.OEol?
  }

  /** Does operator `op` let character `c` by? */
  predicate Eats(sets: seq<set<byte>>, op: Sop, c: byte) {
    match op
    case OChar(d) => c == d
    case OAny => true
    case OAnyOf(no) => no < |sets| && c in sets[no]
    case _ => false
  }

  /** Follow OOR2 operators from `p` to the O_CH that ends the choice. */
  function ChoiceEnd(strip: seq<Sop>, p: nat): (r: Option<nat>)
    decreases |strip| - p
    ensures r.Some? ==> p <= r.value < |strip| && strip[r.value].OChoiceClose?
  {
    if p >= |strip| then None
    else match strip[p]
      case OOr2(n) => if n == 0 then None else ChoiceEnd(strip, p + n)
      case OChoiceClose(_) => Some(p)
      case _ => None
  }

  /** May the matcher move from `i` to `j` without reading a character? */
  predicate Empty(strip: seq<Sop>, i: nat, j: nat) {
    i < |strip| &&
    match strip[i]
    case OPlusClose(n) => j == i + 1 || j == i - n
    case OQuestOpen(n) => j == i + 1 || j == i + n
    case OChoiceOpen(n) => j == i + 1 || j == i + n
    case OOr1(_) => ChoiceEnd(strip, i + 1) == Some(j)
    case OOr2(n) => j == i + 1 || (j == i + n < |strip| && !strip[j].OChoiceClose?)
    case OPlusOpen(_) => j == i + 1
    case OQuestClose(_) => j == i + 1
    case OLParen(_) => j == i + 1
    case ORParen(_) => j == i + 1
    case OChoiceClose(_) => j == i + 1
    case _ => false
  }

  /** One move out of `i` in lo..hi, spelling the empty word or one character. */
  ghost predicate Move(g: Guts, lo: nat, hi: nat, i: nat, w: Word, j: nat) {
    lo <= i < hi <= |g.strip| &&
    ((w == [] && Empty(g.strip, i, j)) ||
     (|w| == 1 && Eats(g.sets, g.strip[i], w[0]) && j == i + 1))
  }

  /** `n` moves out of positions in lo..hi lead from `i` to `j`, spelling `w`. */
  ghost predicate Path(g: Guts, lo: nat, hi: nat, i: nat, w: Word, j: nat, n: nat)
    decreases n
  {
    if n == 0 then i == j && w == []
    else exists k: nat, m: nat :: m <= |w| && Move(g, lo, hi, i, w[..m], k) && Path(g, lo, hi, k, w[m..], j, n - 1)
  }

  /** `w` leads from `i` to `j` along moves out of positions in lo..hi. */
  ghost predicate Leads(g: Guts, lo: nat, hi: nat, i: nat, w: Word, j: nat) {
    exists n: nat :: Path(g, lo, hi, i, w, j, n)
  }

  lemma LeadsNowhere(g: Guts, lo: nat, hi: nat, i: nat)
    ensures Leads(g, lo, hi, i, [], i)
  {
    assert Path(g, lo, hi, i, [], i, 0);
  }

  lemma LeadsFirst(g: Guts, lo: nat, hi: nat, i: nat, u: Word, k: nat, v: Word, j: nat)
    requires Move(g, lo, hi, i, u, k) && Leads(g, lo, hi, k, v, j)
    ensures Leads(g, lo, hi, i, u + v, j)
  {
    var n: nat :| Path(g, lo, hi, k, v, j, n);
    var w := u + v;
    assert w[..|u|] == u && w[|u|..] == v;
    assert Path(g, lo, hi, i, w, j, n + 1);
  }

  lemma LeadsMove(g: Guts, lo: nat, hi: nat, i: nat, u: Word, k: nat)
    requires Move(g, lo, hi, i, u, k)
    ensures Leads(g, lo, hi, i, u, k)
  {
    LeadsNowhere(g, lo, hi, k);
    LeadsFirst(g, lo, hi, i, u, k, [], k);
    assert u + [] == u;
  }

  lemma LeadsEmpty(g: Guts, lo: nat, hi: nat, i: nat, j: nat)
    requires lo <= i < hi <= |g.strip| && Empty(g.strip, i, j)
    ensures Leads(g, lo, hi, i, [], j)
  {
    assert Move(g, lo, hi, i, [], j);
    LeadsMove(g, lo, hi, i, [], j);
  }

  lemma PathNowhere(g: Guts, lo: nat, hi: nat, i: nat, w: Word, j: nat)
    requires Path(g, lo, hi, i, w, j, 0)
    ensures i == j && w == []
  {
  }

  lemma PathFirst(g: Guts, lo: nat, hi: nat, i: nat, w: Word, j: nat, n: nat) returns (k: nat, m: nat)
    requires Path(g, lo, hi, i, w, j, n) && n > 0
    ensures m <= |w| && Move(g, lo, hi, i, w[..m], k) && Path(g, lo, hi, k, w[m..], j, n - 1)
  {
    k, m :| m <= |w| && Move(g, lo, hi, i, w[..m], k) && Path(g, lo, hi, k, w[m..], j, n - 1);
  }

  lemma {:induction false} PathJoin(g: Guts, lo: nat, hi: nat, i: nat, u: Word, k: nat, v: Word, j: nat, n: nat)
    requires Path(g, lo, hi, i, u, k, n) && Leads(g, lo, hi, k, v, j)
    ensures Leads(g, lo, hi, i, u + v, j)
    decreases n
  {
    hide Path, Leads, Move;
    if n == 0 {
      PathNowhere(g, lo, hi, i, u, k);
      assert u + v == v;
    } else {
      var k', m := PathFirst(g, lo, hi, i, u, k, n);
      PathJoin(g, lo, hi, k', u[m..], k, v, j, n - 1);
      LeadsFirst(g, lo, hi, i, u[..m], k', u[m..] + v, j);
      assert u[..m] + (u[m..] + v) == u + v;
    }
  }

  lemma LeadsJoin(g: Guts, lo: nat, hi: nat, i: nat, u: Word, k: nat, v: Word, j: nat)
    requires Leads(g, lo, hi, i, u, k) && Leads(g, lo, hi, k, v, j)
    ensures Leads(g, lo, hi, i, u + v, j)
  {
    var n: nat :| Path(g, lo, hi, i, u, k, n);
    PathJoin(g, lo, hi, i, u, k, v, j, n);
  }

  /** Does `code` stand in the strip from position `lo` on? */
  ghost predicate At(strip: seq<Sop>, lo: nat, code: seq<Sop>) {
    lo + |code| <= |strip| && forall i :: 0 <= i < |code| ==> code[i] == strip[lo + i]
  }

  lemma AtIndex(strip: seq<Sop>, lo: nat, code: seq<Sop>, k: nat)
    requires At(strip, lo, code) && k < |code|
    ensures strip[lo + k] == code[k]
  {
  }

  lemma AtSplit(strip: seq<Sop>, lo: nat, a: seq<Sop>, b: seq<Sop>)
    requires At(strip, lo, a + b)
    ensures At(strip, lo, a) && At(strip, lo + |a|, b)
  {
    forall i | 0 <= i < |a|
      ensures a[i] == strip[lo + i]
    {
      assert (a + b)[i] == a[i];
    }
    forall i | 0 <= i < |b|
      ensures b[i] == strip[lo + |a| + i]
    {
      assert (a + b)[|a| + i] == b[i];
    }
  }
}
