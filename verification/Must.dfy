/**
 * The longest literal string every match must contain, and the latest point at which
 * it may start, read off the strip in one scan.
 */
module Must {
  import opened Bytes
  import opened Languages
  import opened Strip
  import opened Core
  import opened CoreMoves

  // ----- The longest word of an expression -----

  function Max(a: nat, b: nat): nat {
    if a < b then b else a
  }

  /** A bound on the length of the words of an expression; none if there is a loop in it. */
  function MaxLen(e: Core): Option<nat> {
    match e
    case Nil => Some(0)
    case One(op) => if Consumes(op) then Some(1) else None
    case Seq(l, r) => if MaxLen(l).None? || MaxLen(r).None? then None else Some(MaxLen(l).value + MaxLen(r).value)
    case Plus(_) => None
    case Quest(b) => MaxLen(b)
    case Paren(_, b) => MaxLen(b)
    case Choice(a, l) =>
      if MaxLenAlts(a).None? || MaxLen(l).None? then None else Some(Max(MaxLenAlts(a).value, MaxLen(l).value))
  }

  function MaxLenAlts(a: Alts): Option<nat> {
    match a
    case First(b) => MaxLen(b)
    case Then(before, b) =>
      if MaxLenAlts(before).None? || MaxLen(b).None? then None else Some(Max(MaxLenAlts(before).value, MaxLen(b).value))
  }

  lemma {:induction false} MaxLenBounds(e: Core, sets: seq<set<byte>>, w: Word)
    requires w in Words(e, sets) && MaxLen(e).Some?
    ensures |w| <= MaxLen(e).value
    decreases e
  {
    hide Concat;
    match e
    case Nil =>
    case One(_) =>
    case Seq(l, r) =>
      var u, v := ConcatElim(Words(l, sets), Words(r, sets), w);
      MaxLenBounds(l, sets, u);
      MaxLenBounds(r, sets, v);
    case Quest(b) =>
      if w in Words(b, sets) {
        MaxLenBounds(b, sets, w);
      }
    case Paren(_, b) => MaxLenBounds(b, sets, w);
    case Choice(a, l) =>
      if w in WordsAlts(a, sets) {
        MaxLenAltsBounds(a, sets, w);
      } else {
        MaxLenBounds(l, sets, w);
      }
  }

  lemma {:induction false} MaxLenAltsBounds(a: Alts, sets: seq<set<byte>>, w: Word)
    requires w in WordsAlts(a, sets) && MaxLenAlts(a).Some?
    ensures |w| <= MaxLenAlts(a).value
    decreases a
  {
    match a
    case First(b) => MaxLenBounds(b, sets, w);
    case Then(before, b) =>
      if w in WordsAlts(before, sets) {
        MaxLenAltsBounds(before, sets, w);
      } else {
        MaxLenBounds(b, sets, w);
      }
  }

  // ----- The characters in a row -----

  /** Of a pattern, from left to right: a character, what breaks a row of them, and an option or choice, which is passed over. */
  datatype Piece = Letter(c: byte) | Break(length: Option<nat>) | Skipped(length: Option<nat>)

  function Pieces(e: Core): seq<Piece> {
    match e
    case Nil => []
    case One(op) => if op.OChar? then [Letter(op.c)] else [Break(Some(if Consumes(op) then 1 else 0))]
    case Seq(l, r) => Pieces(l) + Pieces(r)
    case Plus(b) => Pieces(b) + [Break(None)]
    case Paren(_, b) => Pieces(b)
    case _ => [Skipped(MaxLen(e)), Break(Some(0))]
  }

  function Added(a: Option<nat>, b: Option<nat>): Option<nat> {
    if a.None? || b.None? then None else Some(a.value + b.value)
  }

  /** How many characters the pieces take at most; none if there is no limit. */
  function Total(l: seq<Piece>): Option<nat> {
    if l == [] then Some(0)
    else Added(Total(l[..|l| - 1]), if l[|l| - 1].Letter? then Some(1) else l[|l| - 1].length)
  }

  /** The characters in a row at the end. */
  function Row(l: seq<Piece>): (w: Word)
    ensures |w| <= |l|
  {
    if l == [] || !l[|l| - 1].Letter? then [] else Row(l[..|l| - 1]) + [l[|l| - 1].c]
  }

  /** The first of the longest rows that have ended, and how many characters come before it at most; an option that ends it
      counts with those. */
  function Best(l: seq<Piece>): (Word, Option<nat>) {
    if l == [] then ([], Some(0))
    else
      var front, last := l[..|l| - 1], l[|l| - 1];
      var row := Row(front);
      if last.Letter? || |row| <= |Best(front).0| then Best(front)
      else (row, Added(Total(front[..|front| - |row|]), if last.Skipped? then last.length else Some(0)))
  }

  /** The characters of `w` stand in a row at `i`. */
  predicate RowAt(l: seq<Piece>, i: nat, w: Word) {
    i + |w| <= |l| && forall k :: 0 <= k < |w| ==> l[i + k] == Letter(w[k])
  }

  lemma {:induction false} RowIs(l: seq<Piece>)
    ensures RowAt(l, |l| - |Row(l)|, Row(l)) && (|Row(l)| < |l| ==> !l[|l| - |Row(l)| - 1].Letter?)
  {
    if l != [] && l[|l| - 1].Letter? {
      RowIs(l[..|l| - 1]);
    }
  }

  predicate BreakBehind(l: seq<Piece>, i: nat) {
    exists k :: i <= k < |l| && !l[k].Letter?
  }

  /** A row without a break behind it is part of the one at the end. */
  lemma LastRow(l: seq<Piece>, j: nat, w: Word)
    requires RowAt(l, j, w)
    ensures BreakBehind(l, j + |w|) || j >= |l| - |Row(l)|
  {
    RowIs(l);
    var p := |l| - |Row(l)| - 1;
    forall k | j <= k < j + |w|
      ensures l[k].Letter?
    {
      assert l[j + (k - j)] == Letter(w[k - j]);
    }
    if j <= p {
      assert !l[p].Letter?;
    }
  }

  /** Where the best row begins. */
  function BestAt(l: seq<Piece>): nat {
    if l == [] then 0
    else
      var front := l[..|l| - 1];
      if l[|l| - 1].Letter? || |Row(front)| <= |Best(front).0| then BestAt(front) else |front| - |Row(front)|
  }

  /** The best row is one that ends, with as much before it. */
  lemma {:induction false} BestStands(l: seq<Piece>)
    ensures RowAt(l, BestAt(l), Best(l).0)
    ensures Best(l).0 != [] ==>
      var i := BestAt(l);
      && i + |Best(l).0| < |l|
      && var p := l[i + |Best(l).0|];
        !p.Letter? && Best(l).1 == Added(Total(l[..i]), if p.Skipped? then p.length else Some(0))
  {
    hide Total, Row, Best, BestAt;
    BestFolds(l);
    if l != [] {
      var front := l[..|l| - 1];
      BestStands(front);
      RowIs(front);
      assert l[..BestAt(l)] == front[..BestAt(l)];
    }
  }

  lemma BestFolds(l: seq<Piece>)
    ensures l == [] ==> Best(l) == ([], Some(0)) && BestAt(l) == 0
    ensures l != [] ==>
      var front, last := l[..|l| - 1], l[|l| - 1];
      if last.Letter? || |Row(front)| <= |Best(front).0| then Best(l) == Best(front) && BestAt(l) == BestAt(front)
      else
        && BestAt(l) == |front| - |Row(front)| && Best(l).0 == Row(front)
        && Best(l).1 == Added(Total(front[..|front| - |Row(front)|]), if last.Skipped? then last.length else Some(0))
  {
    hide Row, Total;
  }

  /** No row that ends is longer, or as long and before it. */
  lemma {:induction false} BestLongest(l: seq<Piece>, j: nat, w: Word)
    requires RowAt(l, j, w) && w != [] && BreakBehind(l, j + |w|)
    ensures |w| < |Best(l).0| || (|w| == |Best(l).0| && BestAt(l) <= j)
  {
    hide Total, Row, Best, BestAt;
    BestFolds(l);
    var front := l[..|l| - 1];
    RowIs(front);
    BestStands(front);
    var k :| j + |w| <= k < |l| && !l[k].Letter?;
    assert RowAt(front, j, w);
    LastRow(front, j, w);
    if BreakBehind(front, j + |w|) {
      BestLongest(front, j, w);
    } else {
      assert k == |l| - 1;
    }
  }

  // ----- What is left to scan -----

  /** Pieces of code still ahead of the scan. */
  datatype Item = Sub(e: Core) | EndParen(no: nat) | EndPlus(b: Core) | EndSkip(op: Sop) | EndBranch(back: nat, fwd: nat) | EndOr2(fwd: nat) | EndStop

  datatype Todo = Done | Next(item: Item, rest: Todo)

  function ItemCode(item: Item): seq<Sop> {
    match item
    case Sub(e) => Code(e)
    case EndParen(no) => [ORParen(no)]
    case EndPlus(b) => [OPlusClose(Len(b) + 1)]
    case EndSkip(op) => [op]
    case EndBranch(back, fwd) => [OOr1(back), OOr2(fwd)]
    case EndOr2(fwd) => [OOr2(fwd)]
    case EndStop => [OEnd]
  }

  function TodoCode(t: Todo): seq<Sop> {
    match t
    case Done => []
    case Next(item, rest) => ItemCode(item) + TodoCode(rest)
  }

  ghost function ItemWords(item: Item, sets: seq<set<byte>>): Lang {
    match item
    case Sub(e) => Words(e, sets)
    case EndPlus(b) => StarOf(Words(b, sets))
    case _ => EPSILON
  }

  ghost function TodoWords(t: Todo, sets: seq<set<byte>>): Lang {
    match t
    case Done => EPSILON
    case Next(item, rest) => Concat(ItemWords(item, sets), TodoWords(rest, sets))
  }

  predicate PlainItem(item: Item) {
    match item
    case Sub(e) => Plain(e)
    case EndSkip(op) => op.OQuestClose? || op.OChoiceClose?
    case _ => true
  }

  predicate PlainTodo(t: Todo) {
    match t
    case Done => true
    case Next(item, rest) => PlainItem(item) && PlainTodo(rest)
  }

  function Size(e: Core): nat {
    match e
    case Nil => 1
    case One(_) => 1
    case Seq(l, r) => 1 + Size(l) + Size(r)
    case Plus(b) => 1 + Size(b)
    case Quest(b) => 1 + Size(b)
    case Paren(_, b) => 1 + Size(b)
    case Choice(_, _) => 1
  }

  function TodoSize(t: Todo): nat {
    match t
    case Done => 0
    case Next(item, rest) => (if item.Sub? then Size(item.e) else 0) + TodoSize(rest)
  }

  /** Nothing at the front that stands for no operator or for two pieces. */
  predicate Opened(t: Todo) {
    t.Next? ==> !(t.item.Sub? && (t.item.e.Nil? || t.item.e.Seq?))
  }

  /**
   * What altoffset() finds in the rest of a choice, when no branch so far took more than `largest`
   * and the current one took `try` until here.
   */
  function AltMax(largest: nat, try: nat, t: Todo): Option<nat>
    decreases t
  {
    match t
    case Done => Some(Max(largest, try))
    case Next(item, rest) =>
      match item
      case Sub(e) => if MaxLen(e).None? then None else AltMax(largest, try + MaxLen(e).value, rest)
      case EndBranch(_, _) => AltMax(Max(largest, try), 0, rest)
      case EndPlus(_) => None
      case EndStop => None
      case _ => AltMax(largest, try, rest)
  }

  function ItemPieces(item: Item): seq<Piece> {
    match item
    case Sub(e) => Pieces(e)
    case EndParen(_) => []
    case EndSkip(_) => [Break(Some(0))]
    case EndStop => [Break(Some(0))]
    case _ => [Break(None)]
  }

  function TodoPieces(t: Todo): seq<Piece> {
    match t
    case Done => []
    case Next(item, rest) => ItemPieces(item) + TodoPieces(rest)
  }

  /** Two ways to say the same is left. */
  ghost predicate Same(t: Todo, t': Todo, sets: seq<set<byte>>, largest: nat, try: nat) {
    && PlainTodo(t') && TodoCode(t') == TodoCode(t) && TodoWords(t', sets) == TodoWords(t, sets)
    && AltMax(largest, try, t') == AltMax(largest, try, t) && TodoPieces(t') == TodoPieces(t)
    && (Straight(t) ==> Straight(t')) && (Ends(t) ==> Ends(t')) && (Stops(t) ==> Stops(t'))
  }

  /** Open up what is at the front. */
  lemma {:induction false} Open(t: Todo, sets: seq<set<byte>>, largest: nat, try: nat) returns (t': Todo)
    requires PlainTodo(t)
    ensures Opened(t') && Same(t, t', sets, largest, try)
    decreases TodoSize(t)
  {
    hide TodoCode, TodoWords, TodoPieces, PlainTodo, AltMax, Straight, Ends, Stops;
    if Opened(t) {
      t' := t;
    } else if t.item.e.Nil? {
      OpenNil(t.rest, sets, largest, try);
      t' := Open(t.rest, sets, largest, try);
    } else {
      var l, r, rest := t.item.e.left, t.item.e.right, t.rest;
      OpenSeq(l, r, rest, sets, largest, try);
      var inner := Next(Sub(r), rest);
      assert TodoSize(inner) == Size(r) + TodoSize(rest);
      t' := Open(Next(Sub(l), inner), sets, largest, try);
    }
  }

  lemma OpenNil(rest: Todo, sets: seq<set<byte>>, largest: nat, try: nat)
    requires PlainTodo(Next(Sub(Nil), rest))
    ensures Same(Next(Sub(Nil), rest), rest, sets, largest, try)
  {
    hide Code, Words, Concat;
    NilParts(sets);
    ConcatUnitLeft(TodoWords(rest, sets));
    assert [] + TodoCode(rest) == TodoCode(rest) && [] + TodoPieces(rest) == TodoPieces(rest);
    AltMaxSub(Nil, rest, largest, try);
  }

  lemma OpenSeq(l: Core, r: Core, rest: Todo, sets: seq<set<byte>>, largest: nat, try: nat)
    requires PlainTodo(Next(Sub(Seq(l, r)), rest))
    ensures Same(Next(Sub(Seq(l, r)), rest), Next(Sub(l), Next(Sub(r), rest)), sets, largest, try)
  {
    hide Code, Words, Concat, AltMax, TodoPieces;
    SeqParts(l, r, sets);
    ConcatAssoc(Words(l, sets), Words(r, sets), TodoWords(rest, sets));
    SeqAltMax(l, r, rest, largest, try);
    var inner := Next(Sub(r), rest);
    assert PlainTodo(inner) && TodoCode(inner) == Code(r) + TodoCode(rest);
    assert TodoWords(inner, sets) == Concat(Words(r, sets), TodoWords(rest, sets));
    assert Straight(rest) ==> Straight(inner);
    assert (Ends(rest) ==> Ends(inner)) && (Stops(rest) ==> Stops(inner));
    Grouped(Code(l), Code(r), TodoCode(rest));
    SeqPieces(l, r, rest);
  }

  lemma SeqPieces(l: Core, r: Core, rest: Todo)
    ensures TodoPieces(Next(Sub(Seq(l, r)), rest)) == TodoPieces(Next(Sub(l), Next(Sub(r), rest)))
  {
    assert Pieces(l) + Pieces(r) + TodoPieces(rest) == Pieces(l) + (Pieces(r) + TodoPieces(rest));
  }

  lemma Grouped(a: seq<Sop>, b: seq<Sop>, c: seq<Sop>)
    ensures a + b + c == a + (b + c)
  {
  }

  lemma SeqAltMax(l: Core, r: Core, rest: Todo, largest: nat, try: nat)
    ensures AltMax(largest, try, Next(Sub(Seq(l, r)), rest)) == AltMax(largest, try, Next(Sub(l), Next(Sub(r), rest)))
  {
    hide Code, AltMax, MaxLen;
    SeqMax(Seq(l, r));
    AltMaxSub(Seq(l, r), rest, largest, try);
    AltMaxSub(l, Next(Sub(r), rest), largest, try);
    if MaxLen(l).Some? {
      AltMaxSub(r, rest, largest, try + MaxLen(l).value);
    }
  }

  lemma SeqMax(e: Core)
    requires e.Seq?
    ensures MaxLen(e) ==
      if MaxLen(e.left).None? || MaxLen(e.right).None? then None else Some(MaxLen(e.left).value + MaxLen(e.right).value)
  {
    hide MaxLenAlts;
    match e
    case Seq(l, r) =>
  }

  lemma AltMaxSub(e: Core, rest: Todo, largest: nat, try: nat)
    ensures AltMax(largest, try, Next(Sub(e), rest))
      == if MaxLen(e).None? then None else AltMax(largest, try + MaxLen(e).value, rest)
  {
    hide MaxLen;
  }

  lemma NilParts(sets: seq<set<byte>>)
    ensures Code(Nil) == [] && Words(Nil, sets) == EPSILON
  {
  }

  lemma SeqParts(l: Core, r: Core, sets: seq<set<byte>>)
    ensures Code(Seq(l, r)) == Code(l) + Code(r)
    ensures Words(Seq(l, r), sets) == Concat(Words(l, sets), Words(r, sets))
  {
    hide Concat;
  }

  /** Only loops and parentheses around what is scanned. */
  predicate Straight(t: Todo) {
    match t
    case Done => true
    case Next(item, rest) => !item.EndBranch? && !item.EndOr2? && Straight(rest)
  }

  /** The end of an option or choice comes last, and only there. */
  predicate Ends(t: Todo) {
    t.Next? && if t.item.EndSkip? then t.rest.Done? else Ends(t.rest)
  }

  /** The end marker comes last, and only there. */
  predicate Stops(t: Todo) {
    t.Next? && if t.item.EndStop? then t.rest.Done? else Stops(t.rest)
  }

  // ----- Choices and options are skipped -----

  /** Follow OOR2 operators from `p` to an O_CH or O_QUEST. */
  function SkipEnd(strip: seq<Sop>, p: nat): (r: Option<nat>)
    decreases |strip| - p
    ensures r.Some? ==> p <= r.value < |strip| && (strip[r.value].OChoiceClose? || strip[r.value].OQuestClose?)
  {
    if p >= |strip| then None
    else match strip[p]
      case OOr2(n) => if n == 0 then None else SkipEnd(strip, p + n)
      case OChoiceClose(_) => Some(p)
      case OQuestClose(_) => Some(p)
      case _ => None
  }

  function OpenOffset(op: Sop): nat {
    match op
    case OQuestOpen(n) => n
    case OChoiceOpen(n) => n
    case OOr2(n) => n
    case _ => 0
  }

  /** Skip from the operator at `p` to the end of the option or choice it opens. */
  method Skip(strip: seq<Sop>, p: nat) returns (q: nat, bad: bool)
    requires p < |strip|
    ensures SkipEnd(strip, p + OpenOffset(strip[p])).Some? ==> !bad && SkipEnd(strip, p + OpenOffset(strip[p])) == Some(q)
  {
    q := p + OpenOffset(strip[p]);
    while q < |strip| && strip[q].OOr2? && strip[q].fwd > 0
      invariant SkipEnd(strip, q) == SkipEnd(strip, p + OpenOffset(strip[p]))
      decreases |strip| - q
    {
      q := q + strip[q].fwd;
    }
    bad := q >= |strip| || !(strip[q].OChoiceClose? || strip[q].OQuestClose?);
  }

  lemma SkipEndStep(strip: seq<Sop>, p: nat)
    requires p < |strip|
    ensures strip[p].OChoiceClose? || strip[p].OQuestClose? ==> SkipEnd(strip, p) == Some(p)
    ensures strip[p].OOr2? && strip[p].fwd > 0 ==> SkipEnd(strip, p) == SkipEnd(strip, p + strip[p].fwd)
  {
  }

  /** The chain from the start of the branches `a` leads where the last OOR2 of them points. */
  lemma {:induction false} AltsSkip(strip: seq<Sop>, base: nat, a: Alts, n: nat)
    requires At(strip, base, CodeAlts(a, n)) && n > 0
    ensures LenAlts(a) > 0 && base < |strip| && strip[base].OChoiceOpen?
    ensures SkipEnd(strip, base + OpenOffset(strip[base])) == SkipEnd(strip, base + LenAlts(a) - 1 + n)
    decreases a
  {
    hide Code, CodeAlts, At, SkipEnd;
    match a
    case First(b) =>
      AtFirst(strip, base, b, n);
      SkipEndStep(strip, base + Len(b) + 2);
    case Then(before, b) =>
      AtThen(strip, base, before, b, n);
      AltsSkip(strip, base, before, Len(b) + 2);
      SkipEndStep(strip, base + LenAlts(before) + Len(b) + 1);
  }

  /** Skipping an option or a choice ends at its last operator. */
  lemma SkipsTo(strip: seq<Sop>, base: nat, e: Core)
    requires (e.Quest? || e.Choice?) && At(strip, base, Code(e))
    ensures Len(e) > 1 && base + Len(e) <= |strip| && SkipEnd(strip, base + OpenOffset(strip[base])) == Some(base + Len(e) - 1)
    ensures strip[base] == (if e.Quest? then OQuestOpen(OpenOffset(strip[base])) else OChoiceOpen(OpenOffset(strip[base])))
    ensures strip[base + Len(e) - 1].OChoiceClose? || strip[base + Len(e) - 1].OQuestClose?
  {
    hide Code, CodeAlts, At, SkipEnd;
    if e.Quest? {
      AtQuest(strip, base, e.body);
      SkipEndStep(strip, base + Len(e.body) + 1);
    } else {
      AtChoice(strip, base, e.alts, e.last);
      AltsSkip(strip, base, e.alts, Len(e.last) + 1);
      SkipEndStep(strip, base + LenAlts(e.alts) + Len(e.last));
    }
  }

  // ----- The largest offset among the branches -----

  function AltsTodo(a: Alts, n: nat, rest: Todo): Todo {
    match a
    case First(b) => Next(Sub(b), Next(EndBranch(Len(b) + 1, n), rest))
    case Then(before, b) => AltsTodo(before, Len(b) + 2, Next(Sub(b), Next(EndBranch(Len(b) + 2, n), rest)))
  }

  lemma {:induction false} AltsTodoMax(a: Alts, n: nat, rest: Todo, largest: nat)
    requires PlainAlts(a) && PlainTodo(rest)
    ensures PlainTodo(AltsTodo(a, n, rest)) && (Ends(rest) ==> Ends(AltsTodo(a, n, rest)))
    ensures AltMax(largest, 0, AltsTodo(a, n, rest))
      == if MaxLenAlts(a).None? then None else AltMax(Max(largest, MaxLenAlts(a).value), 0, rest)
    decreases a
  {
    hide Code;
    match a
    case First(b) => BranchMax(b, n, Len(b) + 1, rest, largest);
    case Then(before, b) =>
      var rest' := Next(Sub(b), Next(EndBranch(Len(b) + 2, n), rest));
      assert PlainTodo(Next(EndBranch(Len(b) + 2, n), rest));
      assert Ends(rest) ==> Ends(Next(EndBranch(Len(b) + 2, n), rest));
      AltsTodoMax(before, Len(b) + 2, rest', largest);
      if MaxLenAlts(before).Some? {
        BranchMax(b, n, Len(b) + 2, rest, Max(largest, MaxLenAlts(before).value));
      }
  }

  lemma BranchMax(b: Core, n: nat, back: nat, rest: Todo, largest: nat)
    requires Plain(b) && PlainTodo(rest)
    ensures PlainTodo(Next(Sub(b), Next(EndBranch(back, n), rest)))
    ensures Ends(rest) ==> Ends(Next(Sub(b), Next(EndBranch(back, n), rest)))
    ensures AltMax(largest, 0, Next(Sub(b), Next(EndBranch(back, n), rest)))
      == if MaxLen(b).None? then None else AltMax(Max(largest, MaxLen(b).value), 0, rest)
  {
    assert PlainTodo(Next(EndBranch(back, n), rest));
    assert Ends(rest) ==> Ends(Next(EndBranch(back, n), rest));
    if MaxLen(b).Some? {
      assert AltMax(largest, 0 + MaxLen(b).value, Next(EndBranch(back, n), rest)) == AltMax(Max(largest, MaxLen(b).value), 0, rest);
    }
  }

  lemma {:induction false} AltsTodoCode(a: Alts, n: nat, rest: Todo)
    ensures CodeAlts(a, n)[0].OChoiceOpen?
    ensures CodeAlts(a, n) + TodoCode(rest) == [CodeAlts(a, n)[0]] + TodoCode(AltsTodo(a, n, rest))
    decreases a
  {
    hide Code;
    match a
    case First(b) =>
      var ends := [OOr1(Len(b) + 1), OOr2(n)];
      assert TodoCode(Next(EndBranch(Len(b) + 1, n), rest)) == ends + TodoCode(rest);
      FirstCode(OChoiceOpen(Len(b) + 2), Code(b), ends, TodoCode(rest));
    case Then(before, b) =>
      var ends := [OOr1(Len(b) + 2), OOr2(n)];
      var inner := Next(EndBranch(Len(b) + 2, n), rest);
      assert TodoCode(inner) == ends + TodoCode(rest);
      AltsTodoCode(before, Len(b) + 2, Next(Sub(b), inner));
      ThenCode(CodeAlts(before, Len(b) + 2), Code(b), ends, TodoCode(rest));
  }

  lemma FirstCode(open: Sop, code: seq<Sop>, ends: seq<Sop>, rest: seq<Sop>)
    ensures [open] + (code + ends) + rest == [open] + (code + (ends + rest))
  {
  }

  lemma ThenCode(front: seq<Sop>, code: seq<Sop>, ends: seq<Sop>, rest: seq<Sop>)
    ensures front + (code + ends) + rest == front + (code + (ends + rest))
    ensures front != [] ==> (front + (code + ends))[0] == front[0]
  {
  }

  /** What altoffset() reads inside an option or a choice. */
  function Inside(e: Core): Todo
    requires e.Quest? || e.Choice?
  {
    if e.Quest? then Next(Sub(e.body), Next(EndSkip(OQuestClose(Len(e.body) + 1)), Done))
    else AltsTodo(e.alts, Len(e.last) + 1, Next(Sub(e.last), Next(EndSkip(OChoiceClose(Len(e.last) + 2)), Done)))
  }

  lemma InsideQuest(e: Core)
    requires e.Quest? && Plain(e)
    ensures PlainTodo(Inside(e)) && Ends(Inside(e)) && AltMax(0, 0, Inside(e)) == MaxLen(e)
    ensures |Code(e)| > 0 && Code(e) == [Code(e)[0]] + TodoCode(Inside(e))
  {
    hide Code, CodeAlts;
    EndMax(e.body, EndSkip(OQuestClose(Len(e.body) + 1)));
    QuestParts(e.body);
  }

  lemma ChoiceMax(e: Core)
    requires e.Choice? && Plain(e)
    ensures PlainTodo(Inside(e)) && Ends(Inside(e)) && AltMax(0, 0, Inside(e)) == MaxLen(e)
  {
    hide Code, CodeAlts, TodoCode, AltsTodo, AltMax, Ends, PlainTodo, MaxLenAlts;
    var close := EndSkip(OChoiceClose(Len(e.last) + 2));
    EndMax(e.last, close);
    AltsTodoMax(e.alts, Len(e.last) + 1, Next(Sub(e.last), Next(close, Done)), 0);
  }

  lemma ChoiceInside(e: Core)
    requires e.Choice? && Plain(e)
    ensures |Code(e)| > 0 && Code(e) == [Code(e)[0]] + TodoCode(Inside(e))
  {
    hide Code, CodeAlts, TodoCode, AltsTodo, AltMax, Ends, PlainTodo, MaxLen, MaxLenAlts;
    var close := EndSkip(OChoiceClose(Len(e.last) + 2));
    EndMax(e.last, close);
    AltsTodoCode(e.alts, Len(e.last) + 1, Next(Sub(e.last), Next(close, Done)));
    ChoiceParts(e.alts, e.last);
  }

  lemma InsideParts(e: Core)
    requires (e.Quest? || e.Choice?) && Plain(e)
    ensures PlainTodo(Inside(e)) && Ends(Inside(e)) && AltMax(0, 0, Inside(e)) == MaxLen(e)
    ensures |Code(e)| > 0 && Code(e) == [Code(e)[0]] + TodoCode(Inside(e))
  {
    hide Code, CodeAlts, PlainTodo, Ends, AltMax, MaxLen, TodoCode, Inside;
    if e.Quest? {
      InsideQuest(e);
    } else {
      ChoiceMax(e);
      ChoiceInside(e);
    }
  }

  lemma CloseOnly(close: Item)
    requires close.EndSkip? && PlainItem(close)
    ensures var end := Next(close, Done); PlainTodo(end) && Ends(end) && TodoCode(end) == [close.op]
  {
    assert PlainTodo(Done) && TodoCode(Done) == [];
    assert TodoCode(Next(close, Done)) == [close.op] + TodoCode(Done);
  }

  lemma EndMax(e: Core, close: Item)
    requires Plain(e) && close.EndSkip? && PlainItem(close)
    ensures PlainTodo(Next(Sub(e), Next(close, Done))) && Ends(Next(Sub(e), Next(close, Done)))
    ensures TodoCode(Next(Sub(e), Next(close, Done))) == Code(e) + [close.op]
    ensures forall largest: nat ::
      AltMax(largest, 0, Next(Sub(e), Next(close, Done))) == if MaxLen(e).None? then None else Some(Max(largest, MaxLen(e).value))
  {
    hide Code;
    var end := Next(close, Done);
    CloseOnly(close);
    forall largest: nat
      ensures AltMax(largest, 0, Next(Sub(e), Next(close, Done))) == if MaxLen(e).None? then None else Some(Max(largest, MaxLen(e).value))
    {
      if MaxLen(e).Some? {
        assert AltMax(largest, 0 + MaxLen(e).value, Next(close, Done)) == AltMax(largest, MaxLen(e).value, Done);
      }
    }
  }

  lemma QuestParts(b: Core)
    ensures Code(Quest(b)) == [OQuestOpen(Len(b) + 1)] + (Code(b) + [OQuestClose(Len(b) + 1)])
  {
  }

  lemma ChoiceParts(a: Alts, l: Core)
    ensures Code(Choice(a, l)) == CodeAlts(a, Len(l) + 1) + (Code(l) + [OChoiceClose(Len(l) + 2)])
  {
    hide CodeAlts;
  }

  // ----- The front of what is left, as the scan reads it -----

  /** What is left after the first operator of `t`, when that operator is read. */
  function After(t: Todo): Todo
    requires t.Next? && Opened(t)
  {
    match t.item
    case Sub(e) =>
      (match e
       case Plus(b) => Next(Sub(b), Next(EndPlus(b), t.rest))
       case Paren(no, b) => Next(Sub(b), Next(EndParen(no), t.rest))
       case _ => t.rest)
    case EndBranch(_, fwd) => Next(EndOr2(fwd), t.rest)
    case _ => t.rest
  }

  /** How many operators that is: all of a skipped option or choice, else one. */
  function Width(t: Todo): nat
    requires t.Next?
  {
    if t.item.Sub? && (t.item.e.Quest? || t.item.e.Choice?) then Len(t.item.e) else 1
  }

  /** Does the operator belong to the item? */
  predicate Heads(op: Sop, item: Item) {
    match item
    case Sub(e) =>
      (match e
       case One(o) => op == o
       case Plus(_) => op.OPlusOpen?
       case Paren(_, _) => op.OLParen?
       case Quest(_) => op.OQuestOpen?
       case Choice(_, _) => op.OChoiceOpen?
       case _ => false)
    case EndParen(_) => op.ORParen?
    case EndPlus(_) => op.OPlusClose?
    case EndSkip(o) => op == o
    case EndBranch(_, _) => op.OOr1?
    case EndOr2(_) => op.OOr2?
    case EndStop => op.OEnd?
  }

  lemma AtAppend(strip: seq<Sop>, pos: nat, op: Sop, code: seq<Sop>)
    requires At(strip, pos, [op] + code)
    ensures pos < |strip| && strip[pos] == op && At(strip, pos + 1, code)
  {
    AtSplit(strip, pos, [op], code);
    AtIndex(strip, pos, [op], 0);
  }

  lemma Front(strip: seq<Sop>, pos: nat, t: Todo)
    requires t.Next? && Opened(t) && PlainTodo(t) && At(strip, pos, TodoCode(t))
    ensures pos < |strip| && Heads(strip[pos], t.item) && PlainTodo(After(t))
    ensures pos + Width(t) <= |strip| && At(strip, pos + Width(t), TodoCode(After(t)))
    ensures t.item.Sub? && (t.item.e.Quest? || t.item.e.Choice?) ==> At(strip, pos, Code(t.item.e))
    ensures t.item.Sub? ==> Plain(t.item.e)
    ensures t.item.Sub? && t.item.e.One? ==> Atomic(strip[pos])
    ensures t.item.EndSkip? ==> strip[pos].OQuestClose? || strip[pos].OChoiceClose?
    ensures Ends(t) && !t.item.EndSkip? ==> Ends(After(t))
    ensures Straight(t) ==> Straight(After(t))
  {
    hide Code, At, Words, Ends, Straight;
    FrontShape(t);
    var rest := t.rest;
    match t.item {
      case Sub(e) => FrontSub(strip, pos, e, rest);
      case EndBranch(back, fwd) =>
        assert [OOr1(back), OOr2(fwd)] + TodoCode(rest) == [OOr1(back)] + ([OOr2(fwd)] + TodoCode(rest));
        AtAppend(strip, pos, OOr1(back), [OOr2(fwd)] + TodoCode(rest));
      case EndParen(no) => AtAppend(strip, pos, ORParen(no), TodoCode(rest));
      case EndPlus(b) => AtAppend(strip, pos, OPlusClose(Len(b) + 1), TodoCode(rest));
      case EndSkip(op) => AtAppend(strip, pos, op, TodoCode(rest));
      case EndOr2(fwd) => AtAppend(strip, pos, OOr2(fwd), TodoCode(rest));
      case EndStop => AtAppend(strip, pos, OEnd, TodoCode(rest));
    }
  }

  lemma FrontShape(t: Todo)
    requires t.Next? && Opened(t)
    ensures Ends(t) && !t.item.EndSkip? ==> Ends(t.rest) && (!t.item.Sub? ==> Ends(After(t)))
    ensures Straight(t) ==> Straight(t.rest) && (!t.item.Sub? ==> Straight(After(t)))
  {
  }

  lemma FrontSub(strip: seq<Sop>, pos: nat, e: Core, rest: Todo)
    requires Plain(e) && PlainTodo(rest) && !e.Nil? && !e.Seq? && At(strip, pos, Code(e) + TodoCode(rest))
    ensures var t := Next(Sub(e), rest);
      && pos < |strip| && Heads(strip[pos], t.item) && PlainTodo(After(t))
      && pos + Width(t) <= |strip| && At(strip, pos + Width(t), TodoCode(After(t)))
      && (e.Quest? || e.Choice? ==> At(strip, pos, Code(e)))
      && (Ends(rest) ==> Ends(After(t))) && (Straight(rest) ==> Straight(After(t)))
  {
    hide Code, At, Words;
    match e {
      case One(op) =>
        OneParts(op);
        AtAppend(strip, pos, op, TodoCode(rest));
      case Plus(b) =>
        PlusParts(b, TodoCode(rest));
        InnerParts(b, EndPlus(b), OPlusClose(Len(b) + 1), rest);
        AtAppend(strip, pos, OPlusOpen(Len(b) + 1), Code(b) + ([OPlusClose(Len(b) + 1)] + TodoCode(rest)));
      case Paren(no, b) =>
        ParenParts(no, b, TodoCode(rest));
        InnerParts(b, EndParen(no), ORParen(no), rest);
        AtAppend(strip, pos, OLParen(no), Code(b) + ([ORParen(no)] + TodoCode(rest)));
      case Quest(_) => FrontSkipped(strip, pos, e, rest);
      case Choice(_, _) => FrontSkipped(strip, pos, e, rest);
    }
  }

  lemma InnerParts(b: Core, close: Item, op: Sop, rest: Todo)
    requires Plain(b) && PlainTodo(rest)
    requires (close.EndPlus? && op == OPlusClose(Len(close.b) + 1)) || (close.EndParen? && op == ORParen(close.no))
    ensures var t := Next(Sub(b), Next(close, rest));
      && PlainTodo(t) && TodoCode(t) == Code(b) + ([op] + TodoCode(rest))
      && (Ends(rest) ==> Ends(t)) && (Straight(rest) ==> Straight(t))
  {
    hide Code;
    var inner := Next(close, rest);
    assert PlainTodo(inner) && TodoCode(inner) == [op] + TodoCode(rest);
    assert (Ends(rest) ==> Ends(inner)) && (Straight(rest) ==> Straight(inner));
  }

  lemma FrontSkipped(strip: seq<Sop>, pos: nat, e: Core, rest: Todo)
    requires (e.Quest? || e.Choice?) && At(strip, pos, Code(e) + TodoCode(rest))
    ensures At(strip, pos, Code(e)) && pos + Len(e) <= |strip| && At(strip, pos + Len(e), TodoCode(rest))
    ensures pos < |strip| && (if e.Quest? then strip[pos].OQuestOpen? else strip[pos].OChoiceOpen?)
  {
    hide Code, At, TodoCode, SkipEnd;
    AtSplit(strip, pos, Code(e), TodoCode(rest));
    SkipsTo(strip, pos, e);
    AtFits(strip, pos + Len(e), TodoCode(rest));
  }

  lemma StopsHere(t: Todo)
    requires Stops(t) && Opened(t)
    ensures t.Next? && (t.item.EndStop? ==> t.rest.Done?)
    ensures !t.item.EndStop? ==> Stops(After(t)) && forall close :: Stops(Onward(t, close))
  {
    if !t.item.EndStop? {
      match t.item
      case Sub(e) =>
        if e.Plus? {
          assert Stops(Next(EndPlus(e.body), t.rest));
        } else if e.Paren? {
          assert Stops(Next(EndParen(e.no), t.rest));
        }
      case _ =>
    }
  }

  lemma StraightHere(t: Todo)
    requires Straight(t) && t.Next? && Opened(t)
    ensures !t.item.EndBranch? && !t.item.EndOr2? && forall close :: Straight(Onward(t, close))
  {
    match t.item
    case Sub(e) =>
      if e.Plus? {
        assert Straight(Next(EndPlus(e.body), t.rest));
      } else if e.Paren? {
        assert Straight(Next(EndParen(e.no), t.rest));
      }
    case _ =>
  }

  lemma EndsHere(t: Todo)
    requires Ends(t)
    ensures t.Next? && (t.item.EndSkip? ==> t.rest.Done?)
  {
  }

  lemma AtFits(strip: seq<Sop>, pos: nat, code: seq<Sop>)
    requires At(strip, pos, code)
    ensures pos <= |strip|
  {
  }

  lemma OneParts(op: Sop)
    ensures Code(One(op)) == [op]
  {
  }

  lemma PlusParts(b: Core, rest: seq<Sop>)
    ensures Code(Plus(b)) + rest == [OPlusOpen(Len(b) + 1)] + (Code(b) + ([OPlusClose(Len(b) + 1)] + rest))
  {
    assert Code(Plus(b)) == [OPlusOpen(Len(b) + 1)] + Code(b) + [OPlusClose(Len(b) + 1)];
    Regroup(OPlusOpen(Len(b) + 1), Code(b), OPlusClose(Len(b) + 1), rest);
  }

  lemma ParenParts(no: nat, b: Core, rest: seq<Sop>)
    ensures Code(Paren(no, b)) + rest == [OLParen(no)] + (Code(b) + ([ORParen(no)] + rest))
  {
    assert Code(Paren(no, b)) == [OLParen(no)] + Code(b) + [ORParen(no)];
    Regroup(OLParen(no), Code(b), ORParen(no), rest);
  }

  lemma Regroup(open: Sop, code: seq<Sop>, close: Sop, rest: seq<Sop>)
    ensures [open] + code + [close] + rest == [open] + (code + ([close] + rest))
  {
  }

  /** What counting on over the first item of `t` comes to. */
  lemma AltStep(largest: nat, try: nat, t: Todo)
    requires t.Next? && Opened(t)
    ensures match t.item
      case Sub(e) =>
        (match e
         case One(op) => AltMax(largest, try, t) == if Consumes(op) then AltMax(largest, try + 1, After(t)) else None
         case Plus(_) => AltMax(largest, try, t) == None
         case Paren(_, _) => AltMax(largest, try, t) == AltMax(largest, try, After(t))
         case _ => MaxLen(e).Some? ==> AltMax(largest, try, t) == AltMax(largest, try + MaxLen(e).value, After(t)))
      case EndBranch(_, _) => AltMax(largest, try, t) == AltMax(Max(largest, try), 0, After(t))
      case EndPlus(_) => AltMax(largest, try, t) == None
      case EndStop => AltMax(largest, try, t) == None
      case EndSkip(_) => t.rest.Done? ==> AltMax(largest, try, t) == Some(Max(largest, try))
      case _ => AltMax(largest, try, t) == AltMax(largest, try, After(t))
    ensures t.item.Sub? && MaxLen(t.item.e).None? ==> AltMax(largest, try, t) == None
  {
    hide Code;
    if t.item.Sub? {
      AltMaxSub(t.item.e, t.rest, largest, try);
      if t.item.e.Paren? {
        var no, b := t.item.e.no, t.item.e.body;
        AltMaxSub(b, Next(EndParen(no), t.rest), largest, try);
      }
    } else if t.item.EndBranch? {
      assert AltMax(Max(largest, try), 0, Next(EndOr2(t.item.fwd), t.rest)) == AltMax(Max(largest, try), 0, t.rest);
    }
  }

  /**
   * altoffset(): the biggest offset among the ways through the option or choice `e`, whose
   * first operator stands just before `scan`; -1 if there is a loop on one of them.
   */
  method AltOffset(strip: seq<Sop>, scan: nat, offset: int, ghost e: Core) returns (r: int)
    requires (e.Quest? || e.Choice?) && Plain(e)
    requires scan > 0 && At(strip, scan - 1, Code(e)) && offset >= -1
    ensures r == if offset == -1 || MaxLen(e).None? then -1 else offset + MaxLen(e).value
    decreases |strip| - scan
  {
    hide Code, TodoWords, At, AltMax, PlainTodo, SkipEnd, TodoCode, Ends, Straight, MaxLen, AltsTodo, CodeAlts, Plain, Inside;
    if offset == -1 {
      return -1;
    }
    var largest: nat, try: nat := 0, 0;
    ghost var t := Inside(e);
    InsideParts(e);
    AtAppend(strip, scan - 1, Code(e)[0], TodoCode(t));
    var pos := scan;
    while true
      invariant scan <= pos && At(strip, pos, TodoCode(t)) && PlainTodo(t) && Ends(t)
      invariant AltMax(largest, try, t) == MaxLen(e)
      decreases |strip| - pos
    {
      t := Open(t, [], largest, try);
      EndsHere(t);
      Front(strip, pos, t);
      AltStep(largest, try, t);
      if strip[pos].OQuestClose? || strip[pos].OChoiceClose? {
        break;
      }
      if strip[pos].OQuestOpen? || strip[pos].OChoiceOpen? {
        var larger := AltOffset(strip, pos + 1, try, t.item.e);
        if larger == -1 {
          return -1;
        }
        try := larger;
        SkipsTo(strip, pos, t.item.e);
        var close, bad := Skip(strip, pos);
        if bad {
          return -1;
        }
        // on to what comes after, so that the loop in altoffset() goes on
        pos := close;
      } else if strip[pos].OOr1? {
        largest, try := Max(largest, try), 0;
      } else if Consumes(strip[pos]) {
        try := try + 1;
      } else if !(strip[pos].OLParen? || strip[pos].ORParen? || strip[pos].OOr2?) {
        return -1;
      }
      pos := pos + 1;
      t := After(t);
    }
    return Max(largest, try) + offset;
  }

  // ----- The scan for the longest mandatory literal -----

  /** The characters of the OCHAR operators from `from` to `upto`. */
  function Run(strip: seq<Sop>, from: nat, upto: nat): Word
    requires from <= upto <= |strip|
    decreases upto - from
  {
    if from == upto then []
    else
      var before := Run(strip, from, upto - 1);
      match strip[upto - 1]
      case OChar(c) => before + [c]
      case _ => before
  }

  /** What findmust() keeps: the current sequence, the best one and the offsets. */
  datatype Scan = Scan(newlen: nat, newstart: nat, offset: int, mlen: nat, start: nat, moffset: int)

  /** End the current sequence. */
  function EndRun(s: Scan): Scan {
    if s.newlen > s.mlen then
      if s.offset > -1 then s.(start := s.newstart, mlen := s.newlen, moffset := s.moffset + s.offset, offset := s.newlen, newlen := 0)
      else s.(start := s.newstart, mlen := s.newlen, moffset := s.offset, newlen := 0)
    else if s.offset > -1 then s.(offset := s.offset + s.newlen, newlen := 0)
    else s.(newlen := 0)
  }

  ghost predicate Contains(u: Word, must: Word, moffset: int) {
    exists k: nat :: OccursAt(u, must, k) && (moffset > -1 ==> k <= moffset)
  }

  predicate OccursAt(u: Word, must: Word, k: nat) {
    k + |must| <= |u| && u[k..k + |must|] == must
  }

  /** What the scan knows of a word `u` that leads to where it is. */
  ghost predicate Tracks(s: Scan, run: Word, must: Word, u: Word) {
    && s.offset >= -1 && s.moffset >= -1 && |run| == s.newlen && |must| == s.mlen
    && s.newlen <= |u| && u[|u| - s.newlen..] == run
    && (s.mlen > 0 ==> Contains(u, must, s.moffset))
    && (s.offset > -1 ==> s.moffset > -1 && |u| <= s.moffset + s.offset + s.newlen)
  }

  /** The best sequence once the current one has ended. */
  function Better(s: Scan, run: Word, must: Word): Word {
    if s.newlen > s.mlen then run else must
  }

  lemma ContainsMore(u: Word, v: Word, must: Word, moffset: int)
    requires Contains(u, must, moffset)
    ensures Contains(u + v, must, moffset)
  {
    var k: nat :| OccursAt(u, must, k) && (moffset > -1 ==> k <= moffset);
    assert (u + v)[k..k + |must|] == u[k..k + |must|];
    assert OccursAt(u + v, must, k);
  }

  /** Ending the sequence, and then reading at most `more` characters. */
  lemma TrackEnd(s: Scan, run: Word, must: Word, u: Word, v: Word, more: int)
    requires Tracks(s, run, must, u) && more >= -1
    requires more > -1 ==> |v| <= more
    ensures var s' := EndRun(s.(offset := if s.offset == -1 || more == -1 then -1 else s.offset + more));
      Tracks(s', [], Better(s, run, must), u + v)
  {
    if s.newlen > s.mlen {
      var k := |u| - s.newlen;
      assert u[k..k + |run|] == run;
      assert OccursAt(u, run, k);
      var s' := EndRun(s.(offset := if s.offset == -1 || more == -1 then -1 else s.offset + more));
      assert Contains(u, run, s'.moffset);
      ContainsMore(u, v, run, s'.moffset);
    } else if s.mlen > 0 {
      ContainsMore(u, v, must, s.moffset);
    }
  }

  /** Ending the sequence and reading one character, whose count is added afterwards. */
  lemma TrackOne(s: Scan, run: Word, must: Word, u: Word, c: byte)
    requires Tracks(s, run, must, u)
    ensures var s' := EndRun(s);
      Tracks(if s'.offset > -1 then s'.(offset := s'.offset + 1) else s', [], Better(s, run, must), u + [c])
  {
    TrackEnd(s, run, must, u, [], 0);
    assert u + [] == u;
    var s' := EndRun(s);
    if s'.mlen > 0 {
      ContainsMore(u, [c], Better(s, run, must), s'.moffset);
    }
  }

  /** Giving up on offsets: anything may follow. */
  lemma TrackGiveUp(s: Scan, run: Word, must: Word, u: Word, v: Word)
    requires Tracks(s, run, must, u)
    ensures Tracks(EndRun(s).(offset := -1), [], Better(s, run, must), u + v)
  {
    TrackEnd(s, run, must, u, [], 0);
    assert u + [] == u;
    if EndRun(s).mlen > 0 {
      ContainsMore(u, v, Better(s, run, must), EndRun(s).moffset);
    }
  }

  lemma TrackChar(s: Scan, run: Word, must: Word, u: Word, c: byte, newstart: nat)
    requires Tracks(s, run, must, u)
    ensures Tracks(s.(newlen := s.newlen + 1, newstart := newstart), run + [c], must, u + [c])
  {
    if s.mlen > 0 {
      ContainsMore(u, [c], must, s.moffset);
    }
    var w := u + [c];
    assert w[|w| - (s.newlen + 1)..] == u[|u| - s.newlen..] + [c];
  }

  ghost predicate SplitAs(s: Scan, run: Word, must: Word, t: Todo, sets: seq<set<byte>>, w: Word, u: Word, v: Word) {
    w == u + v && Tracks(s, run, must, u) && v in TodoWords(t, sets)
  }

  /** The word splits into what was scanned and what is left. */
  ghost predicate Splitting(s: Scan, run: Word, must: Word, t: Todo, sets: seq<set<byte>>, w: Word) {
    exists u: Word, v: Word :: SplitAs(s, run, must, t, sets, w, u, v)
  }

  /** What findmust() has still to scan after the first operator of `t`, or after skipping to `close`. */
  function Onward(t: Todo, close: Sop): Todo
    requires t.Next? && Opened(t)
  {
    if t.item.Sub? && (t.item.e.Quest? || t.item.e.Choice?) then Next(EndSkip(close), t.rest) else After(t)
  }

  /** What findmust() keeps after the operator at the front of `t`, at `pos`. */
  function Scanned(s: Scan, t: Todo, pos: nat): Scan
    requires t.Next? && Opened(t)
  {
    match t.item
    case Sub(e) =>
      (match e
       case One(op) =>
         if op.OChar? then s.(newlen := s.newlen + 1, newstart := if s.newlen == 0 then pos else s.newstart)
         else var s' := EndRun(s); if Consumes(op) && s'.offset > -1 then s'.(offset := s'.offset + 1) else s'
       case Plus(_) => s
       case Paren(_, _) => s
       case _ => EndRun(s.(offset := if s.offset == -1 || MaxLen(e).None? then -1 else s.offset + MaxLen(e).value)))
    case EndParen(_) => s
    case EndSkip(_) => EndRun(s)
    case EndStop => EndRun(s)
    case _ => EndRun(s).(offset := -1)
  }

  function ScannedRun(run: Word, t: Todo): Word
    requires t.Next? && Opened(t)
  {
    match t.item
    case Sub(e) =>
      (match e
       case One(op) => if op.OChar? then run + [op.c] else []
       case Plus(_) => run
       case Paren(_, _) => run
       case _ => [])
    case EndParen(_) => run
    case _ => []
  }

  /** Is the current sequence untouched by the front of `t`? */
  predicate GoesOn(t: Todo)
    requires t.Next? && Opened(t)
  {
    match t.item
    case Sub(e) => (e.One? && e.op.OChar?) || e.Plus? || e.Paren?
    case EndParen(_) => true
    case _ => false
  }

  function ScannedMust(s: Scan, run: Word, must: Word, t: Todo): Word
    requires t.Next? && Opened(t)
  {
    if GoesOn(t) then must else Better(s, run, must)
  }

  lemma SplitIntro(s: Scan, run: Word, must: Word, t: Todo, sets: seq<set<byte>>, w: Word, u: Word, v: Word)
    requires SplitAs(s, run, must, t, sets, w, u, v)
    ensures Splitting(s, run, must, t, sets, w)
  {
  }

  /** One operator on, the word still splits. */
  lemma ScanSplits(s: Scan, run: Word, must: Word, t: Todo, sets: seq<set<byte>>, w: Word, pos: nat, close: Sop)
    requires t.Next? && Opened(t) && !t.item.EndBranch? && !t.item.EndOr2?
    requires t.item.Sub? ==> Plain(t.item.e)
    requires Splitting(s, run, must, t, sets, w)
    ensures Splitting(Scanned(s, t, pos), ScannedRun(run, t), ScannedMust(s, run, must, t), Onward(t, close), sets, w)
  {
    hide Tracks, Concat, Words, StarOf, PlusOf, EndRun, MaxLen;
    var u: Word, v: Word :| SplitAs(s, run, must, t, sets, w, u, v);
    var s', run', must', t' := Scanned(s, t, pos), ScannedRun(run, t), ScannedMust(s, run, must, t), Onward(t, close);
    var rest := TodoWords(t.rest, sets);
    var x, y := ConcatElim(ItemWords(t.item, sets), rest, v);
    assert w == (u + x) + y;
    match t.item {
      case Sub(e) =>
        match e {
          case One(op) =>
            var c := OneWord(op, sets, x);
            if op.OChar? {
              TrackChar(s, run, must, u, c, s'.newstart);
              SplitIntro(s', run', must', t', sets, w, u + x, y);
            } else if Consumes(op) {
              TrackOne(s, run, must, u, c);
              SplitIntro(s', run', must', t', sets, w, u + x, y);
            }
          case Plus(b) =>
            PlusOpens(b, t.rest, sets);
            SplitIntro(s', run', must', t', sets, w, u, v);
          case Paren(no, b) =>
            ParenOpens(no, b, t.rest, sets);
            SplitIntro(s', run', must', t', sets, w, u, v);
          case Quest(_) => SkipSplits(s, run, must, e, t.rest, close, sets, w, u, v);
          case Choice(_, _) => SkipSplits(s, run, must, e, t.rest, close, sets, w, u, v);
        }
      case EndPlus(b) =>
        TrackGiveUp(s, run, must, u, x);
        SplitIntro(s', run', must', t', sets, w, u + x, y);
      case EndParen(_) =>
        assert x == [] && v == y;
        SplitIntro(s', run', must', t', sets, w, u, v);
      case EndSkip(_) => StopSplits(s, run, must, t.rest, sets, w, u, y);
      case EndStop => StopSplits(s, run, must, t.rest, sets, w, u, y);
    }
  }

  lemma SkipSplits(s: Scan, run: Word, must: Word, e: Core, rest: Todo, close: Sop, sets: seq<set<byte>>, w: Word, u: Word, v: Word)
    requires Plain(e) && (e.Quest? || e.Choice?) && SplitAs(s, run, must, Next(Sub(e), rest), sets, w, u, v)
    ensures Splitting(Scanned(s, Next(Sub(e), rest), 0), [], Better(s, run, must), Next(EndSkip(close), rest), sets, w)
  {
    hide Tracks, Concat, Words, EndRun, MaxLen;
    var x, y := ConcatElim(Words(e, sets), TodoWords(rest, sets), v);
    if MaxLen(e).Some? {
      MaxLenBounds(e, sets, x);
    }
    TrackEnd(s, run, must, u, x, if MaxLen(e).None? then -1 else MaxLen(e).value);
    ConcatUnitLeft(TodoWords(rest, sets));
    assert w == (u + x) + y;
    SplitIntro(Scanned(s, Next(Sub(e), rest), 0), [], Better(s, run, must), Next(EndSkip(close), rest), sets, w, u + x, y);
  }

  lemma StopSplits(s: Scan, run: Word, must: Word, rest: Todo, sets: seq<set<byte>>, w: Word, u: Word, v: Word)
    requires SplitAs(s, run, must, rest, sets, w, u, v)
    ensures Splitting(EndRun(s), [], Better(s, run, must), rest, sets, w)
  {
    hide EndRun;
    TrackEnd(s, run, must, u, [], 0);
    assert u + [] == u && s.(offset := if s.offset == -1 then -1 else s.offset + 0) == s;
    SplitIntro(EndRun(s), [], Better(s, run, must), rest, sets, w, u, v);
  }

  lemma OneWord(op: Sop, sets: seq<set<byte>>, x: Word) returns (c: byte)
    requires x in Words(One(op), sets)
    ensures x == [c] && Eats(sets, op, c)
  {
    c := x[0];
  }

  lemma PlusOpens(b: Core, rest: Todo, sets: seq<set<byte>>)
    ensures TodoWords(Next(Sub(Plus(b)), rest), sets) == TodoWords(Next(Sub(b), Next(EndPlus(b), rest)), sets)
  {
    hide Concat, PlusOf, StarOf;
    var a := Words(b, sets);
    StarUnfold(a);
    ConcatAssoc(a, StarOf(a), TodoWords(rest, sets));
    assert TodoWords(Next(EndPlus(b), rest), sets) == Concat(StarOf(a), TodoWords(rest, sets));
  }

  lemma ParenOpens(no: nat, b: Core, rest: Todo, sets: seq<set<byte>>)
    ensures TodoWords(Next(Sub(Paren(no, b)), rest), sets) == TodoWords(Next(Sub(b), Next(EndParen(no), rest)), sets)
  {
    hide Concat;
    ConcatUnitLeft(TodoWords(rest, sets));
    assert TodoWords(Next(EndParen(no), rest), sets) == Concat(EPSILON, TodoWords(rest, sets));
  }

  // ----- The scan finds the best row -----

  /** The scan is behind the pieces `l`. */
  predicate Follows(s: Scan, run: Word, must: Word, l: seq<Piece>) {
    && run == Row(l) && must == Best(l).0 && |run| == s.newlen && |must| == s.mlen
    && s.offset >= -1 && s.moffset >= -1 && (s.offset > -1 ==> s.moffset > -1)
    && Total(l) == (if s.offset == -1 then None else Some(s.moffset + s.offset + s.newlen))
    && (s.mlen > 0 ==> Best(l).1 == if s.moffset == -1 then None else Some(s.moffset))
  }

  /** What the scan passes in one step. */
  function Passed(t: Todo): seq<Piece>
    requires t.Next? && Opened(t)
  {
    match t.item
    case Sub(e) =>
      (match e
       case One(_) => Pieces(e)
       case Plus(_) => []
       case Paren(_, _) => []
       case _ => [Skipped(MaxLen(e))])
    case _ => ItemPieces(t.item)
  }

  lemma PassedFirst(t: Todo, close: Sop)
    requires t.Next? && Opened(t) && !t.item.EndBranch?
    ensures TodoPieces(t) == Passed(t) + TodoPieces(Onward(t, close))
  {
    hide MaxLen;
    var rest := TodoPieces(t.rest);
    match t.item
    case Sub(e) =>
      match e {
        case One(_) =>
        case Plus(b) => assert Pieces(b) + [Break(None)] + rest == [] + (Pieces(b) + ([Break(None)] + rest));
        case Paren(_, b) => assert Pieces(b) + rest == [] + (Pieces(b) + ([] + rest));
        case Quest(_) => SkippedFirst(MaxLen(e), rest);
        case Choice(_, _) => SkippedFirst(MaxLen(e), rest);
      }
    case _ =>
  }

  lemma SkippedFirst(length: Option<nat>, rest: seq<Piece>)
    ensures [Skipped(length), Break(Some(0))] + rest == [Skipped(length)] + ([Break(Some(0))] + rest)
  {
  }

  /** One piece more. */
  lemma OnePiece(l: seq<Piece>, p: Piece)
    ensures Total(l + [p]) == Added(Total(l), if p.Letter? then Some(1) else p.length)
    ensures Row(l + [p]) == if p.Letter? then Row(l) + [p.c] else []
    ensures Best(l + [p]) ==
      if p.Letter? || |Row(l)| <= |Best(l).0| then Best(l)
      else (Row(l), Added(Total(l[..|l| - |Row(l)|]), if p.Skipped? then p.length else Some(0)))
  {
    assert (l + [p])[..|l|] == l;
  }

  /** The characters of the row at the end count one each. */
  lemma {:induction false} RowTotal(l: seq<Piece>)
    ensures Total(l) == Added(Total(l[..|l| - |Row(l)|]), Some(|Row(l)|))
  {
    if l != [] && l[|l| - 1].Letter? {
      var front := l[..|l| - 1];
      RowTotal(front);
      assert l[..|l| - |Row(l)|] == front[..|front| - |Row(front)|];
    } else {
      assert l[..|l|] == l;
    }
  }

  /** The end of a row at a piece that is no letter. */
  lemma RowEnds(s: Scan, run: Word, must: Word, l: seq<Piece>, p: Piece)
    requires Follows(s, run, must, l) && !p.Letter?
    ensures p.Skipped? ==>
      var s' := EndRun(s.(offset := if s.offset == -1 || p.length.None? then -1 else s.offset + p.length.value));
        Follows(s', [], Better(s, run, must), l + [p])
    ensures p.Break? ==>
      var s' := EndRun(s);
        Follows(if p.length.None? then s'.(offset := -1) else if s'.offset > -1 then s'.(offset := s'.offset + p.length.value) else s',
                [], Better(s, run, must), l + [p])
  {
    hide Total, Row, Best;
    OnePiece(l, p);
    RowTotal(l);
  }

  lemma FollowsOn(s: Scan, run: Word, must: Word, l: seq<Piece>, t: Todo, pos: nat)
    requires Follows(s, run, must, l) && t.Next? && Opened(t) && !t.item.EndBranch? && !t.item.EndOr2?
    requires t.item.Sub? && t.item.e.One? ==> Atomic(t.item.e.op)
    ensures Follows(Scanned(s, t, pos), ScannedRun(run, t), ScannedMust(s, run, must, t), l + Passed(t))
  {
    hide Total, Row, Best, MaxLen, EndRun, Better;
    assert l + [] == l;
    if Passed(t) != [] {
      var p := Passed(t)[0];
      assert Passed(t) == [p];
      OnePiece(l, p);
      if !p.Letter? {
        RowEnds(s, run, must, l, p);
        var s' := EndRun(s);
        assert s'.(offset := s'.offset + 0) == s';
      }
    }
  }

  /** The sequences kept are sequences of OCHAR operators in the strip. */
  predicate Runs(strip: seq<Sop>, pos: nat, s: Scan, run: Word, must: Word, mustEnd: nat) {
    && |run| == s.newlen && |must| == s.mlen
    && s.offset >= -1 && s.moffset >= -1 && (s.offset > -1 ==> s.moffset > -1)
    && (s.newlen > 0 ==> s.newstart <= pos <= |strip| && run == Run(strip, s.newstart, pos))
    && (s.mlen > 0 ==> s.start <= mustEnd <= |strip| && must == Run(strip, s.start, mustEnd))
  }

  lemma RunsOn(strip: seq<Sop>, pos: nat, s: Scan, run: Word, must: Word, mustEnd: nat, t: Todo, q: nat) returns (mustEnd': nat)
    requires t.Next? && Opened(t) && pos < |strip| && Heads(strip[pos], t.item)
    requires Runs(strip, pos, s, run, must, mustEnd) && (GoesOn(t) ==> q == pos + 1)
    ensures Runs(strip, q, Scanned(s, t, pos), ScannedRun(run, t), ScannedMust(s, run, must, t), mustEnd')
  {
    mustEnd' := if !GoesOn(t) && s.newlen > s.mlen then pos else mustEnd;
    if GoesOn(t) {
      if s.newlen > 0 {
        assert Run(strip, s.newstart, pos + 1) == if strip[pos].OChar? then run + [strip[pos].c] else run;
      } else {
        assert Run(strip, pos, pos + 1) == if strip[pos].OChar? then Run(strip, pos, pos) + [strip[pos].c] else Run(strip, pos, pos);
      }
    }
  }

  /** Collect the first `mlen` characters from `start` on. */
  method Collect(strip: seq<Sop>, start: nat, mlen: nat, ghost mustEnd: nat) returns (must: Word)
    requires start <= mustEnd <= |strip| && |Run(strip, start, mustEnd)| == mlen
    ensures must == Run(strip, start, mustEnd)
  {
    must := [];
    var scan := start;
    var i := mlen;
    RunGrows(strip, start, start, mustEnd);
    while i > 0
      invariant start <= scan <= mustEnd && must == Run(strip, start, scan) && i == mlen - |must| >= 0
      decreases i
    {
      while !strip[scan].OChar?
        invariant start <= scan < mustEnd && must == Run(strip, start, scan)
        decreases mustEnd - scan
      {
        scan := scan + 1;
        RunGrows(strip, start, scan, mustEnd);
      }
      must := must + [strip[scan].c];
      scan := scan + 1;
      RunGrows(strip, start, scan, mustEnd);
      i := i - 1;
    }
    RunGrows(strip, start, scan, mustEnd);
  }

  lemma {:induction false} RunGrows(strip: seq<Sop>, from: nat, mid: nat, upto: nat)
    requires from <= mid <= upto <= |strip|
    ensures |Run(strip, from, mid)| <= |Run(strip, from, upto)|
    ensures |Run(strip, from, mid)| == |Run(strip, from, upto)| ==> Run(strip, from, mid) == Run(strip, from, upto)
    decreases upto - mid
  {
    if mid < upto {
      RunGrows(strip, from, mid, upto - 1);
    }
  }

  lemma ScanStarts(strip: seq<Sop>, e: Core, sets: seq<set<byte>>)
    requires Plain(e) && At(strip, 1, Code(e) + [OEnd])
    ensures var t := StartTodo(e);
      && At(strip, 1, TodoCode(t)) && PlainTodo(t) && Straight(t) && Stops(t)
      && Runs(strip, 1, Scan(0, 0, 0, 0, 0, 0), [], [], 0)
      && forall w :: w in Words(e, sets) ==> Splitting(Scan(0, 0, 0, 0, 0, 0), [], [], t, sets, w)
  {
    hide Code, Words, At, Concat, Splitting;
    var t := StartTodo(e);
    StartParts(e, sets);
    forall w | w in Words(e, sets)
      ensures Splitting(Scan(0, 0, 0, 0, 0, 0), [], [], t, sets, w)
    {
      assert [] + w == w;
      SplitIntro(Scan(0, 0, 0, 0, 0, 0), [], [], t, sets, w, [], w);
    }
  }

  function StartTodo(e: Core): Todo {
    Next(Sub(e), Next(EndStop, Done))
  }

  lemma StartParts(e: Core, sets: seq<set<byte>>)
    requires Plain(e)
    ensures TodoCode(StartTodo(e)) == Code(e) + [OEnd] && TodoWords(StartTodo(e), sets) == Words(e, sets)
    ensures PlainTodo(StartTodo(e)) && Straight(StartTodo(e)) && Stops(StartTodo(e))
  {
    hide Code, Words, Concat;
    var end := Next(EndStop, Done);
    assert TodoCode(end) == [OEnd] + TodoCode(Done) == [OEnd];
    assert PlainTodo(end) && Straight(end) && Stops(end);
    assert TodoWords(end, sets) == Concat(EPSILON, TodoWords(Done, sets));
    ConcatUnitLeft(EPSILON);
    ConcatUnitRight(Words(e, sets));
  }

  lemma SameSplits(s: Scan, run: Word, must: Word, t: Todo, t': Todo, sets: seq<set<byte>>, w: Word)
    requires Same(t, t', sets, 0, 0) && Splitting(s, run, must, t, sets, w)
    ensures Splitting(s, run, must, t', sets, w)
  {
    hide TodoWords, Tracks;
    var u: Word, v: Word :| SplitAs(s, run, must, t, sets, w, u, v);
    SplitIntro(s, run, must, t', sets, w, u, v);
  }

  lemma AllSplit(words: Lang, s: Scan, run: Word, must: Word, t0: Todo, t: Todo, sets: seq<set<byte>>, pos: nat, close: Sop)
    requires Same(t0, t, sets, 0, 0) && t.Next? && Opened(t) && !t.item.EndBranch? && !t.item.EndOr2?
    requires t.item.Sub? ==> Plain(t.item.e)
    requires forall w :: w in words ==> Splitting(s, run, must, t0, sets, w)
    ensures forall w :: w in words ==>
      Splitting(Scanned(s, t, pos), ScannedRun(run, t), ScannedMust(s, run, must, t), Onward(t, close), sets, w)
  {
    hide Splitting, Scanned, ScannedRun, ScannedMust, Onward, Same, Plain;
    forall w | w in words
      ensures Splitting(Scanned(s, t, pos), ScannedRun(run, t), ScannedMust(s, run, must, t), Onward(t, close), sets, w)
    {
      SameSplits(s, run, must, t0, t, sets, w);
      ScanSplits(s, run, must, t, sets, w, pos, close);
    }
  }

  lemma SameParts(strip: seq<Sop>, pos: nat, t: Todo, t': Todo, sets: seq<set<byte>>)
    requires Same(t, t', sets, 0, 0) && At(strip, pos, TodoCode(t)) && Straight(t) && Stops(t)
    ensures At(strip, pos, TodoCode(t')) && PlainTodo(t') && Straight(t') && Stops(t')
  {
  }

  lemma OnwardAt(strip: seq<Sop>, pos: nat, t: Todo, q: nat)
    requires t.Next? && Opened(t) && PlainTodo(t)
    requires pos + Width(t) <= |strip| && At(strip, pos + Width(t), TodoCode(After(t))) && PlainTodo(After(t))
    requires if t.item.Sub? && (t.item.e.Quest? || t.item.e.Choice?)
             then 0 <= q == pos + Len(t.item.e) - 1 && (strip[q].OQuestClose? || strip[q].OChoiceClose?)
             else q == pos + 1
    ensures var close := if q < |strip| then strip[q] else OEnd;
      At(strip, q, TodoCode(Onward(t, close))) && PlainTodo(Onward(t, close))
  {
    hide Code;
    if t.item.Sub? && (t.item.e.Quest? || t.item.e.Choice?) {
      var rest := TodoCode(t.rest);
      assert At(strip, q + 1, rest);
      forall i | 0 <= i < |[strip[q]] + rest|
        ensures ([strip[q]] + rest)[i] == strip[q + i]
      {
        if i > 0 {
          assert ([strip[q]] + rest)[i] == rest[i - 1];
        }
      }
    }
  }

  lemma RunsParts(strip: seq<Sop>, pos: nat, s: Scan, run: Word, must: Word, mustEnd: nat)
    requires Runs(strip, pos, s, run, must, mustEnd)
    ensures s.offset >= -1 && s.moffset >= -1 && |must| == s.mlen
    ensures s.mlen > 0 ==> s.start <= mustEnd <= |strip| && must == Run(strip, s.start, mustEnd)
  {
  }

  lemma SplitEnds(s: Scan, run: Word, must: Word, sets: seq<set<byte>>, w: Word)
    requires Splitting(s, run, must, Done, sets, w) && s.mlen > 0
    ensures Contains(w, must, s.moffset)
  {
    var u: Word, v: Word :| SplitAs(s, run, must, Done, sets, w, u, v);
    assert w == u;
  }

  /** What findmust() does with one operator. */
  method ScanOp(strip: seq<Sop>, pos: nat, s: Scan, ghost t: Todo) returns (s': Scan, pos': nat, bad: bool)
    requires t.Next? && Opened(t) && pos < |strip| && Heads(strip[pos], t.item) && s.offset >= -1
    requires !t.item.EndBranch? && !t.item.EndOr2? && (t.item.Sub? ==> Plain(t.item.e))
    requires t.item.Sub? && t.item.e.One? ==> Atomic(strip[pos])
    requires t.item.EndSkip? ==> strip[pos].OQuestClose? || strip[pos].OChoiceClose?
    requires t.item.Sub? && (t.item.e.Quest? || t.item.e.Choice?) ==> At(strip, pos, Code(t.item.e))
    ensures !bad && s' == Scanned(s, t, pos) && pos' > pos
    ensures if t.item.Sub? && (t.item.e.Quest? || t.item.e.Choice?)
            then pos' == pos + Len(t.item.e) - 1 && pos' < |strip|
                 && (strip[pos'].OQuestClose? || strip[pos'].OChoiceClose?)
            else pos' == pos + 1
  {
    hide Code, At, MaxLen, Words, Plain;
    s', bad := s, false;
    var op := strip[pos];
    if op.OChar? {
      if s'.newlen == 0 {
        s' := s'.(newstart := pos);
      }
      s' := s'.(newlen := s'.newlen + 1);
      pos' := pos + 1;
    } else if op.OPlusOpen? || op.OLParen? || op.ORParen? {
      pos' := pos + 1;
    } else if op.OQuestOpen? || op.OChoiceOpen? {
      var offset := AltOffset(strip, pos + 1, s'.offset, t.item.e);
      s' := s'.(offset := offset);
      SkipsTo(strip, pos, t.item.e);
      pos', bad := Skip(strip, pos);
      if bad {
        return;
      }
      s' := EndRun(s');
    } else if op.OQuestClose? || op.OChoiceClose? || op.OBol? || op.OEol? || op.OEnd? {
      s' := EndRun(s');
      pos' := pos + 1;
    } else if op.OAny? || op.OAnyOf? {
      s' := EndRun(s');
      if s'.offset > -1 {
        s' := s'.(offset := s'.offset + 1);
      }
      pos' := pos + 1;
    } else {
      s' := EndRun(s').(offset := -1);
      pos' := pos + 1;
    }
  }

  lemma PiecesStart(e: Core)
    ensures TodoPieces(StartTodo(e)) == Pieces(e) + [Break(Some(0))] && Follows(Scan(0, 0, 0, 0, 0, 0), [], [], [])
  {
    hide Pieces;
    var end := Next(EndStop, Done);
    assert TodoPieces(end) == [Break(Some(0))] + [] == [Break(Some(0))];
  }

  lemma PiecesEnd(t: Todo)
    ensures t.Done? ==> TodoPieces(t) == []
  {
  }

  /** The pieces, one step on. */
  lemma PieceOn(s: Scan, run: Word, must: Word, l: seq<Piece>, t0: Todo, t: Todo, sets: seq<set<byte>>, pos: nat, close: Sop)
    returns (l': seq<Piece>)
    requires Same(t0, t, sets, 0, 0) && Follows(s, run, must, l)
    requires t.Next? && Opened(t) && !t.item.EndBranch? && !t.item.EndOr2?
    requires t.item.Sub? && t.item.e.One? ==> Atomic(t.item.e.op)
    ensures Follows(Scanned(s, t, pos), ScannedRun(run, t), ScannedMust(s, run, must, t), l')
    ensures l' + TodoPieces(Onward(t, close)) == l + TodoPieces(t0)
  {
    hide Follows, Scanned, ScannedRun, ScannedMust, Onward, TodoPieces, Passed, Same, Opened;
    SamePieces(t0, t, sets);
    PassedFirst(t, close);
    FollowsOn(s, run, must, l, t, pos);
    l' := l + Passed(t);
  }

  lemma SamePieces(t: Todo, t': Todo, sets: seq<set<byte>>)
    requires Same(t, t', sets, 0, 0)
    ensures TodoPieces(t') == TodoPieces(t)
  {
  }

  lemma FollowsParts(s: Scan, run: Word, must: Word, l: seq<Piece>)
    requires Follows(s, run, must, l)
    ensures must == Best(l).0 && |must| == s.mlen
    ensures s.mlen > 0 ==> Best(l).1 == if s.moffset == -1 then None else Some(s.moffset)
  {
  }

  /**
   * findmust(): every word of the language contains `must`, at an offset no greater than
   * `moffset` unless that is -1. It is the first of the longest rows of characters outside of
   * options and choices, and the offset is the most characters that come before it.
   */
  method FindMust(strip: seq<Sop>, ghost e: Core, ghost sets: seq<set<byte>>) returns (must: Option<Word>, moffset: int, bad: bool)
    requires Plain(e) && At(strip, 1, Code(e) + [OEnd])
    ensures !bad
    ensures must.None? ==> moffset == -1
    ensures must.Some? ==> |must.value| > 0 && forall w :: w in Words(e, sets) ==> Contains(w, must.value, moffset)
    ensures var best := Best(Pieces(e) + [Break(Some(0))]);
      if must.None? then best.0 == [] else must.value == best.0 && moffset == if best.1.None? then -1 else best.1.value
  {
    hide Code, TodoWords, TodoCode, At, AltMax, PlainTodo, SkipEnd, Straight, MaxLen, Words, Splitting, EndRun, Runs,
         ScannedRun, ScannedMust, Same, Stops, Plain, Contains, Run, StartTodo, Follows, TodoPieces, Passed, Pieces, Best, Row, Total;
    var s := Scan(0, 0, 0, 0, 0, 0);
    ghost var run: Word, best: Word, mustEnd := [], [], 0;
    ghost var t := StartTodo(e);
    ScanStarts(strip, e, sets);
    PiecesStart(e);
    ghost var done: seq<Piece> := [];
    assert done + TodoPieces(t) == TodoPieces(t);
    var pos := 1;
    while true
      invariant At(strip, pos, TodoCode(t)) && PlainTodo(t) && Straight(t) && Stops(t)
      invariant Runs(strip, pos, s, run, best, mustEnd)
      invariant forall w :: w in Words(e, sets) ==> Splitting(s, run, best, t, sets, w)
      invariant Follows(s, run, best, done) && done + TodoPieces(t) == Pieces(e) + [Break(Some(0))]
      decreases |strip| - pos
    {
      ghost var t0 := t;
      t := Open(t, sets, 0, 0);
      SameParts(strip, pos, t0, t, sets);
      StopsHere(t);
      Front(strip, pos, t);
      StraightHere(t);
      RunsParts(strip, pos, s, run, best, mustEnd);
      ghost var s0, at := s, pos;
      var op := strip[pos];
      s, pos, bad := ScanOp(strip, pos, s, t);
      if bad {
        return None, -1, true;
      }
      OnwardAt(strip, at, t, pos);
      ghost var close := if pos < |strip| then strip[pos] else OEnd;
      AllSplit(Words(e, sets), s0, run, best, t0, t, sets, at, close);
      mustEnd := RunsOn(strip, at, s0, run, best, mustEnd, t, pos);
      done := PieceOn(s0, run, best, done, t0, t, sets, at, close);
      run, best := ScannedRun(run, t), ScannedMust(s0, run, best, t);
      t := Onward(t, close);
      if op.OEnd? {
        break;
      }
    }
    bad := false;
    RunsParts(strip, pos, s, run, best, mustEnd);
    FollowsParts(s, run, best, done);
    PiecesEnd(t);
    assert done + [] == done;
    if s.mlen == 0 {
      return None, -1, false;
    }
    var chars := Collect(strip, s.start, s.mlen, mustEnd);
    must, moffset := Some(chars), s.moffset;
    forall w | w in Words(e, sets)
      ensures Contains(w, chars, moffset)
    {
      SplitEnds(s, run, best, sets, w);
    }
  }
}
