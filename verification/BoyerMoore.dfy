/** The jump tables for the mandatory literal, and the scan of a text that they drive. */
module BoyerMoore {
  import opened Bytes

  /** `must` stands in the text from `k` on. */
  predicate Stands(text: Word, must: Word, k: nat) {
    k + |must| <= |text| && text[k..k + |must|] == must
  }

  /** The first place where `must` stands. */
  ghost predicate FirstAt(text: Word, must: Word, k: nat) {
    Stands(text, must, k) && forall j: nat :: j < k ==> !Stands(text, must, j)
  }

  ghost predicate Nowhere(text: Word, must: Word) {
    forall j: nat :: !Stands(text, must, j)
  }

  /** Where `must` stands first from `k` on, when it stands nowhere before. */
  ghost function FirstFrom(text: Word, must: Word, k: nat): (r: Option<nat>)
    requires k <= |text| + 1 && forall j: nat :: j < k ==> !Stands(text, must, j)
    ensures r.Some? ==> FirstAt(text, must, r.value)
    ensures r.None? ==> Nowhere(text, must)
    decreases |text| + 1 - k
  {
    if k > |text| then None else if Stands(text, must, k) then Some(k) else FirstFrom(text, must, k + 1)
  }

  ghost function First(text: Word, must: Word): Option<nat> {
    FirstFrom(text, must, 0)
  }

  /** What a scan gives is settled by where the pattern stands. */
  lemma FirstIs(text: Word, must: Word, found: Option<nat>)
    requires found.Some? ==> FirstAt(text, must, found.value)
    requires found.None? ==> Nowhere(text, must)
    ensures found == First(text, must)
  {
  }

  // ----- The jump table of characters -----

  /** What the table of character jumps is: how far the last place of each character is from the end. */
  ghost predicate CharJumps(must: Word, jump: seq<nat>) {
    |jump| == 256 && forall c: byte :: CharJump(must, c, JumpOf(jump, c))
  }

  function JumpOf(jump: seq<nat>, c: byte): nat
    requires |jump| == 256
  {
    jump[c as int]
  }

  ghost predicate CharJump(must: Word, c: byte, n: nat) {
    && n <= |must|
    && (n < |must| ==> must[|must| - 1 - n] == c)
    && c !in must[|must| - n..]
  }

  /** The same for the first `upto` characters of the pattern. */
  ghost predicate CharJumpSoFar(must: Word, upto: nat, c: byte, n: nat)
    requires upto <= |must|
  {
    && |must| - upto <= n <= |must|
    && (n < |must| ==> must[|must| - 1 - n] == c)
    && c !in must[|must| - n..upto]
  }

  /** computejumps() */
  method ComputeJumps(must: Word) returns (charjump: array<nat>)
    ensures charjump.Length == 256 && CharJumps(must, charjump[..])
  {
    charjump := new nat[256];
    // for a character that does not occur: the whole pattern
    for ch := 0 to 256
      invariant forall i :: 0 <= i < ch ==> charjump[i] == |must|
    {
      charjump[ch] := |must|;
    }
    // for the others: up to their last place
    for mindex := 0 to |must|
      invariant forall c: byte :: CharJumpSoFar(must, mindex, c, JumpOf(charjump[..], c))
    {
      ghost var jump := charjump[..];
      charjump[must[mindex] as int] := |must| - mindex - 1;
      forall c: byte
        ensures CharJumpSoFar(must, mindex + 1, c, JumpOf(charjump[..], c))
      {
        assert CharJumpSoFar(must, mindex, c, JumpOf(jump, c));
      }
    }
    forall c: byte
      ensures CharJump(must, c, JumpOf(charjump[..], c))
    {
      assert CharJumpSoFar(must, |must|, c, JumpOf(charjump[..], c));
    }
  }

  // ----- The jump table of matched suffixes -----

  /** Is the character at `t` the one `d` before it? */
  predicate SameAt(must: Word, t: int, d: int) {
    0 <= t - d && 0 <= t < |must| && t - d < |must| && must[t] == must[t - d]
  }

  /** Does what stands after `i`, as far as that goes, agree with what follows `k`? */
  predicate Agree(must: Word, k: int, i: int) {
    -1 <= k < i <= |must| && AllSame(must, i, i - k)
  }

  predicate AllSame(must: Word, i: int, d: int) {
    forall t :: i < t < |must| ==> SameAt(must, t, d)
  }

  /** The next place after `k` from which the rest of `must` agrees with what follows `k`. */
  ghost predicate NextAgree(must: Word, k: int, i: int) {
    Agree(must, k, i) && forall j :: k < j < i ==> !Agree(must, k, j)
  }

  /**
   * Could an occurrence start `s` further on, when everything after `j` matched and the
   * character at `j` did not?
   */
  predicate Plausible(must: Word, j: nat, s: nat) {
    && 0 < s && j < |must|
    && (forall t :: j < t < |must| && s <= t ==> SameAt(must, t, s))
    && (s <= j ==> must[j - s] != must[j])
  }

  /** The entry is what takes the text's place from the character at `j` to the end of the pattern after a shift by `s`. */
  predicate Shifts(must: Word, jump: seq<nat>, j: nat, s: nat) {
    j < |must| == |jump| && jump[j] == s + |must| - 1 - j
  }

  /** The entry is for some shift that could lead to an occurrence. */
  ghost predicate Reached(must: Word, jump: seq<nat>, j: nat) {
    exists s: nat :: Plausible(must, j, s) && Shifts(must, jump, j, s)
  }

  /** Every entry is for the least shift that could lead to an occurrence, none of which is jumped over. */
  ghost predicate MatchJumps(must: Word, jump: seq<nat>) {
    && |jump| == |must|
    && (forall j: nat :: j < |must| ==> Reached(must, jump, j))
    && (forall j: nat, s: nat :: Plausible(must, j, s) ==> jump[j] <= s + |must| - 1 - j)
  }

  /** A shift within the pattern that the table already allows for. */
  ghost predicate Covered(must: Word, jump: seq<nat>, j: nat, k: nat) {
    k < j < |must| == |jump| && (Agree(must, k, j) && must[k] != must[j] ==> jump[j] <= |must| - k - 1)
  }

  lemma AgreeTrans(must: Word, k: int, i: int, j: int)
    requires Agree(must, k, i) && i < j
    ensures Agree(must, k, j) <==> Agree(must, i, j)
  {
    if j <= |must| {
      var d, d' := j - k, j - i;
      forall t | j < t < |must|
        ensures SameAt(must, t, d) <==> SameAt(must, t, d')
      {
        assert SameAt(must, t - d', i - k);
      }
    }
  }

  /** Agreement one further down: the characters before must agree as well. */
  lemma AgreeDown(must: Word, k: nat, i: nat)
    requires k < i <= |must|
    ensures Agree(must, k - 1, i - 1) <==> Agree(must, k, i) && (i == |must| || must[k] == must[i])
  {
    var d := i - k;
    assert (i - 1) - (k - 1) == d;
    if i < |must| {
      assert SameAt(must, i, d) <==> must[k] == must[i];
    }
    if Agree(must, k - 1, i - 1) {
      forall t | i < t < |must|
        ensures SameAt(must, t, d)
      {
        assert SameAt(must, t, (i - 1) - (k - 1));
      }
      if i < |must| {
        assert SameAt(must, i, (i - 1) - (k - 1));
      }
    }
  }

  /** All shifts of `k` within the pattern are covered. */
  ghost predicate Settled(must: Word, jump: seq<nat>, k: nat) {
    forall j: nat :: k < j < |must| ==> Covered(must, jump, j, k)
  }

  /** What the main loop of computematchjumps() has done when it comes to `mindex`. */
  ghost predicate Filled(must: Word, jump: seq<nat>, next: seq<nat>, mindex: int) {
    && |jump| == |next| == |must|
    && (forall j: nat :: j < |must| ==> |must| - j <= jump[j] <= 2 * |must| - j - 1)
    && (forall j: nat :: j < |must| ==> Reached(must, jump, j))
    && (forall k: nat :: mindex < k < |must| ==> NextAgree(must, k, next[k]))
    && (forall k: nat :: mindex < k < |must| ==> Settled(must, jump, k))
  }

  /** Every border of the pattern that starts after `j` is allowed for. */
  ghost predicate Bordered(must: Word, jump: seq<nat>, j: nat) {
    j < |jump| && forall i :: j <= i < |must| && Agree(must, -1, i) ==> jump[j] <= |must| + i - j
  }

  function Min(a: nat, b: nat): nat {
    if a < b then a else b
  }

  /** Where the chain for `mindex` stands at `suffix`: what it passed does not match there. */
  ghost predicate Passed(must: Word, jump: seq<nat>, mindex: nat, suffix: int) {
    && suffix <= |must| == |jump| && Agree(must, mindex, suffix)
    && forall j: nat :: mindex < j < suffix && Agree(must, mindex, j) ==>
         must[mindex] != must[j] && jump[j] <= |must| - mindex - 1
  }

  /** The rest of the chain needs no visit: what it would set is covered from the match. */
  lemma ChainSettles(must: Word, jump: seq<nat>, next: seq<nat>, mindex: nat, suffix: int)
    requires mindex < |must| && Filled(must, jump, next, mindex) && mindex < suffix <= |must| && Passed(must, jump, mindex, suffix)
    requires suffix == |must| || must[mindex] == must[suffix]
    ensures Settled(must, jump, mindex)
    ensures NextAgree(must, mindex - 1, suffix - 1)
  {
    hide Agree;
    forall j: nat | mindex < j < |must|
      ensures Covered(must, jump, j, mindex)
    {
      if Agree(must, mindex, j) && must[mindex] != must[j] && j > suffix {
        AgreeTrans(must, mindex, suffix, j);
        assert Settled(must, jump, suffix);
        assert Covered(must, jump, j, suffix);
      }
    }
    AgreeDown(must, mindex, suffix);
    var before := mindex - 1;
    forall j | before < j < suffix - 1
      ensures !Agree(must, before, j)
    {
      AgreeDown(must, mindex, j + 1);
    }
  }

  lemma CoveredLower(must: Word, jump: seq<nat>, jump': seq<nat>, k: nat)
    requires |jump'| == |jump| && (forall j: nat :: j < |jump| ==> jump'[j] <= jump[j])
    requires Settled(must, jump, k)
    ensures Settled(must, jump', k)
  {
    forall j: nat | k < j < |must|
      ensures Covered(must, jump', j, k)
    {
      assert Covered(must, jump, j, k);
    }
  }

  lemma BorderedLower(must: Word, jump: seq<nat>, jump': seq<nat>, j: nat)
    requires |jump'| == |jump| && j < |jump| && jump'[j] <= jump[j] && Bordered(must, jump, j)
    ensures Bordered(must, jump', j)
  {
  }

  /** Lowering one entry to what some shift takes that could lead to an occurrence. */
  lemma FilledLower(must: Word, jump: seq<nat>, next: seq<nat>, mindex: int, j: nat, s: nat)
    requires Filled(must, jump, next, mindex) && Plausible(must, j, s)
    ensures Filled(must, jump[j := Min(jump[j], s + |must| - 1 - j)], next, mindex)
  {
    hide NextAgree, Plausible;
    PlausibleMoves(must, j, s);
    var jump' := jump[j := Min(jump[j], s + |must| - 1 - j)];
    forall i: nat | i < |must|
      ensures Reached(must, jump', i)
    {
      assert Reached(must, jump, i);
      var r: nat :| Plausible(must, i, r) && Shifts(must, jump, i, r);
      var r' := if i == j && s < r then s else r;
      assert Plausible(must, i, r') && Shifts(must, jump', i, r');
    }
    forall k: nat | mindex < k < |must|
      ensures Settled(must, jump', k)
    {
      CoveredLower(must, jump, jump', k);
    }
  }

  lemma PlausibleMoves(must: Word, j: nat, s: nat)
    requires Plausible(must, j, s)
    ensures 0 < s && j < |must|
  {
  }

  /** The place of a character that another before it does not equal, when what follows them agrees. */
  lemma PlausibleWithin(must: Word, k: nat, j: nat)
    requires k < j < |must| && Agree(must, k, j) && must[k] != must[j]
    ensures Plausible(must, j, j - k)
  {
  }

  /** A place before a border, which leaves only what follows the border to agree. */
  lemma PlausibleBorder(must: Word, j: nat, i: nat)
    requires j <= i <= |must| && j < |must| && Agree(must, -1, i)
    ensures Plausible(must, j, i + 1)
  {
    var s := i + 1;
    assert AllSame(must, i, s);
  }

  /** The first part: where what follows each place occurs next, and the shifts within the pattern. */
  method ComputeSuffixes(must: Word, matchjump: array<nat>, pmatches: array<nat>) returns (suffix: nat)
    requires |must| > 0 && matchjump.Length == pmatches.Length == |must| && matchjump != pmatches
    modifies matchjump, pmatches
    ensures Filled(must, matchjump[..], pmatches[..], -1) && NextAgree(must, -1, suffix) && suffix < |must|
  {
    // shifts by the whole pattern
    for mindex := 0 to |must|
      invariant forall j :: 0 <= j < mindex ==> matchjump[j] == 2 * |must| - j - 1
    {
      matchjump[mindex] := 2 * |must| - mindex - 1;
    }
    FilledStart(must, matchjump[..], pmatches[..]);
    var mindex := |must| - 1;
    var s := |must|;
    while mindex >= 0
      invariant -1 <= mindex < |must| && mindex < s && Filled(must, matchjump[..], pmatches[..], mindex)
      invariant NextAgree(must, mindex, s)
    {
      s := FollowChain(must, matchjump, pmatches, mindex, s);
      mindex, s := mindex - 1, s - 1;
    }
    suffix := s;
    LastAgrees(must);
  }

  lemma FilledStart(must: Word, jump: seq<nat>, next: seq<nat>)
    requires |must| > 0 && |jump| == |next| == |must|
    requires forall j: nat :: j < |must| ==> jump[j] == 2 * |must| - j - 1
    ensures Filled(must, jump, next, |must| - 1) && NextAgree(must, |must| - 1, |must|)
  {
    forall j: nat | j < |must|
      ensures Reached(must, jump, j)
    {
      assert Plausible(must, j, |must|) && Shifts(must, jump, j, |must|);
    }
  }

  lemma LastAgrees(must: Word)
    requires |must| > 0
    ensures Agree(must, -1, |must| - 1)
  {
  }

  lemma FilledNext(must: Word, jump: seq<nat>, next: seq<nat>, mindex: nat, s: nat)
    requires mindex < |must| == |next| && Filled(must, jump, next, mindex)
    ensures Filled(must, jump, next[mindex := s], mindex)
  {
  }

  lemma FilledOn(must: Word, jump: seq<nat>, next: seq<nat>, mindex: nat)
    requires mindex < |must| && Filled(must, jump, next, mindex)
    requires NextAgree(must, mindex, next[mindex]) && Settled(must, jump, mindex)
    ensures Filled(must, jump, next, mindex - 1)
  {
  }

  /** Settle `mindex`: follow the places that agree with what follows it to the first whose character matches. */
  method FollowChain(must: Word, matchjump: array<nat>, pmatches: array<nat>, mindex: nat, from: nat) returns (s: nat)
    requires mindex < |must| == matchjump.Length == pmatches.Length && matchjump != pmatches && mindex < from
    requires Filled(must, matchjump[..], pmatches[..], mindex) && NextAgree(must, mindex, from)
    modifies matchjump, pmatches
    ensures Filled(must, matchjump[..], pmatches[..], mindex - 1)
    ensures mindex < s && NextAgree(must, mindex - 1, s - 1)
  {
    hide Filled, Agree, Settled;
    s := from;
    AgreeRange(must, mindex, s);
    FilledNext(must, matchjump[..], pmatches[..], mindex, s);
    ghost var next := pmatches[..][mindex := s];
    pmatches[mindex] := s;
    assert pmatches[..] == next;
    FilledSize(must, matchjump[..], next, mindex);
    assert Passed(must, matchjump[..], mindex, s);
    while s < |must| && must[mindex] != must[s]
      invariant mindex < s <= |must| && pmatches[..] == next
      invariant Filled(must, matchjump[..], next, mindex) && Passed(must, matchjump[..], mindex, s)
      decreases |must| - s
    {
      ghost var jump := matchjump[..];
      AgreePassed(must, jump, mindex, s);
      PlausibleWithin(must, mindex, s);
      FilledLower(must, jump, next, mindex, s, s - mindex);
      matchjump[s] := Min(matchjump[s], |must| - mindex - 1);
      assert matchjump[..] == jump[s := Min(jump[s], |must| - mindex - 1)];
      PassOn(must, jump, next, mindex, s);
      s := pmatches[s];
    }
    ChainSettles(must, matchjump[..], next, mindex, s);
    FilledOn(must, matchjump[..], next, mindex);
  }

  lemma AgreePassed(must: Word, jump: seq<nat>, mindex: nat, s: nat)
    requires Passed(must, jump, mindex, s)
    ensures Agree(must, mindex, s)
  {
  }

  lemma AgreeRange(must: Word, k: int, i: int)
    requires Agree(must, k, i)
    ensures -1 <= k < i <= |must|
  {
  }

  lemma FilledSize(must: Word, jump: seq<nat>, next: seq<nat>, mindex: int)
    requires Filled(must, jump, next, mindex)
    ensures |jump| == |next| == |must|
  {
  }

  lemma PassOn(must: Word, jump: seq<nat>, next: seq<nat>, mindex: nat, s: nat)
    requires mindex < s < |must| && Filled(must, jump, next, mindex) && Passed(must, jump, mindex, s)
    requires must[mindex] != must[s]
    ensures s < next[s] <= |must|
    ensures Passed(must, jump[s := Min(jump[s], |must| - mindex - 1)], mindex, next[s])
  {
    var jump' := jump[s := Min(jump[s], |must| - mindex - 1)];
    assert NextAgree(must, s, next[s]);
    AgreeTrans(must, mindex, s, next[s]);
    forall j: nat | mindex < j < next[s] && Agree(must, mindex, j)
      ensures must[mindex] != must[j] && jump'[j] <= |must| - mindex - 1
    {
      if j > s {
        AgreeTrans(must, mindex, s, j);
      }
    }
  }

  /** The second part: shifts after which a front of the pattern lies over an equal end of it. */
  method ComputeBorders(must: Word, matchjump: array<nat>, pmatches: array<nat>, first: nat)
    requires |must| > 0 && matchjump.Length == pmatches.Length == |must| && matchjump != pmatches
    requires Filled(must, matchjump[..], pmatches[..], -1) && NextAgree(must, -1, first) && first < |must|
    modifies matchjump
    ensures Filled(must, matchjump[..], pmatches[..], -1)
    ensures forall j: nat :: j < |must| ==> Bordered(must, matchjump[..], j)
  {
    ghost var next := pmatches[..];
    var suffix := first;
    for mindex := 0 to suffix + 1
      invariant pmatches[..] == next && Filled(must, matchjump[..], next, -1)
      invariant forall j: nat :: j < mindex ==> Bordered(must, matchjump[..], j)
    {
      LowerTo(must, matchjump, mindex, suffix, next);
    }
    assert NextAgree(must, suffix, next[suffix]);
    NextBorder(must, suffix, next[suffix]);
    var ssuffix := pmatches[suffix];
    while suffix < |must|
      invariant first <= suffix <= |must| && pmatches[..] == next && Filled(must, matchjump[..], next, -1)
      invariant forall j: nat :: j < suffix ==> Bordered(must, matchjump[..], j)
      invariant suffix < |must| ==> suffix <= ssuffix <= |must| && Agree(must, -1, ssuffix)
      invariant suffix == first ==> Bordered(must, matchjump[..], first)
      invariant suffix < |must| ==> forall i :: suffix <= i < ssuffix && i > first ==> !Agree(must, -1, i)
      decreases |must| - suffix
    {
      while suffix <= ssuffix && suffix < |must|
        invariant first <= suffix <= |must| && pmatches[..] == next && Filled(must, matchjump[..], next, -1)
        invariant suffix <= ssuffix + 1 && ssuffix <= |must| && Agree(must, -1, ssuffix)
        invariant forall j: nat :: j < suffix ==> Bordered(must, matchjump[..], j)
        invariant suffix == first ==> Bordered(must, matchjump[..], first)
        invariant forall i :: suffix <= i < ssuffix && i > first ==> !Agree(must, -1, i)
        decreases |must| - suffix
      {
        LowerTo(must, matchjump, suffix, ssuffix, next);
        suffix := suffix + 1;
      }
      if suffix < |must| {
        assert NextAgree(must, ssuffix, next[ssuffix]);
        NextBorder(must, ssuffix, next[ssuffix]);
        ssuffix := pmatches[ssuffix];
      }
    }
  }

  /** After the border `i`, the next one is the next agreement. */
  lemma NextBorder(must: Word, i: nat, i': int)
    requires Agree(must, -1, i) && NextAgree(must, i, i')
    ensures Agree(must, -1, i') && forall k :: i < k < i' ==> !Agree(must, -1, k)
  {
    AgreeTrans(must, -1, i, i');
    forall k | i < k < i'
      ensures !Agree(must, -1, k)
    {
      AgreeTrans(must, -1, i, k);
    }
  }

  /** Lower the entry at `j` to the border at `i`, when there is none in between. */
  method LowerTo(must: Word, matchjump: array<nat>, j: nat, i: nat, ghost next: seq<nat>)
    requires matchjump.Length == |must| && j < |must| && j <= i <= |must| && Agree(must, -1, i)
    requires Filled(must, matchjump[..], next, -1)
    requires (forall k :: j <= k < i ==> !Agree(must, -1, k)) || Bordered(must, matchjump[..], j)
    modifies matchjump
    ensures matchjump[..] == old(matchjump[..])[j := Min(old(matchjump[j]), |must| + i - j)]
    ensures Filled(must, matchjump[..], next, -1) && Bordered(must, matchjump[..], j)
    ensures forall k: nat :: old(Bordered(must, matchjump[..], k)) ==> Bordered(must, matchjump[..], k)
  {
    ghost var jump := matchjump[..];
    PlausibleBorder(must, j, i);
    FilledLower(must, jump, next, -1, j, i + 1);
    matchjump[j] := Min(matchjump[j], |must| + i - j);
    assert matchjump[..] == jump[j := Min(jump[j], |must| + i - j)];
    forall k: nat | Bordered(must, jump, k)
      ensures Bordered(must, matchjump[..], k)
    {
      BorderedLower(must, jump, matchjump[..], k);
    }
  }

  lemma FilledJumps(must: Word, jump: seq<nat>, next: seq<nat>)
    requires Filled(must, jump, next, -1) && forall j: nat :: j < |must| ==> Bordered(must, jump, j)
    ensures MatchJumps(must, jump)
  {
    forall j: nat, s: nat | Plausible(must, j, s)
      ensures jump[j] <= s + |must| - 1 - j
    {
      if s <= j {
        var k := j - s;
        assert j - k == s;
        assert Agree(must, k, j) by {
          assert AllSame(must, j, s);
        }
        assert Settled(must, jump, k);
        assert Covered(must, jump, j, k);
      } else if s <= |must| {
        assert Agree(must, -1, s - 1) by {
          assert AllSame(must, s - 1, s);
        }
        assert Bordered(must, jump, j);
      }
    }
  }

  /** computematchjumps() */
  method ComputeMatchJumps(must: Word) returns (matchjump: array<nat>)
    requires |must| > 0
    ensures matchjump.Length == |must| && MatchJumps(must, matchjump[..])
  {
    var pmatches := new nat[|must|];
    matchjump := new nat[|must|];
    var suffix := ComputeSuffixes(must, matchjump, pmatches);
    ComputeBorders(must, matchjump, pmatches, suffix);
    FilledJumps(must, matchjump[..], pmatches[..]);
  }

  // ----- The scan -----

  /** No occurrence ends before `dp`. */
  ghost predicate NoneBefore(text: Word, must: Word, dp: nat) {
    forall k: nat :: k + |must| - 1 < dp ==> !Stands(text, must, k)
  }

  /** A window ending at `dp` in which everything after `j` matches and the character at `j` does not. */
  ghost predicate MatchesAfter(text: Word, must: Word, w: nat, j: nat) {
    && j < |must| && w + |must| <= |text|
    && forall t: nat :: j < t < |must| ==> text[w + t] == must[t]
  }

  lemma StandsChar(text: Word, must: Word, k: nat, i: nat)
    requires Stands(text, must, k) && i < |must|
    ensures k + i < |text| && text[k + i] == must[i]
  {
    assert text[k..k + |must|][i] == text[k + i];
  }

  lemma NotAfter(must: Word, c: byte, n: nat, i: nat)
    requires CharJump(must, c, n) && i < |must|
    ensures must[i] == c ==> i + n < |must|
  {
    if i >= |must| - n {
      assert must[i] in must[|must| - n..] by {
        assert must[|must| - n..][i - (|must| - n)] == must[i];
      }
    }
  }

  /** Jumping by the character `text[at]` passes no occurrence that covers it or lies beyond. */
  lemma CharJumpSafe(text: Word, must: Word, at: nat, k: nat, n: nat)
    requires at < |text| && |must| > 0 && CharJump(must, text[at], n) && Stands(text, must, k)
    requires at < k + |must|
    ensures at + n <= k + |must| - 1
  {
    if k <= at {
      StandsChar(text, must, k, at - k);
      NotAfter(must, text[at], n, at - k);
    }
  }

  /** Jumping by the match table passes no occurrence that starts after the window. */
  lemma MatchJumpSafe(text: Word, must: Word, jump: seq<nat>, w: nat, j: nat, k: nat)
    requires MatchJumps(must, jump) && MatchesAfter(text, must, w, j) && text[w + j] != must[j]
    requires Stands(text, must, k) && w < k
    ensures w + j + jump[j] <= k + |must| - 1
  {
    var s := k - w;
    if s <= |must| {
      assert Plausible(must, j, s) by {
        forall t | j < t < |must| && s <= t
          ensures SameAt(must, t, s)
        {
          StandsChar(text, must, k, t - s);
        }
        if s <= j {
          StandsChar(text, must, k, j - s);
        }
      }
    } else {
      assert Plausible(must, j, |must|);
    }
  }

  /** Skip while the character under `dp` is not the last of the pattern. */
  method SkipFast(text: Word, must: Word, charjump: array<nat>, from: nat) returns (dp: nat)
    requires charjump.Length == 256 && CharJumps(must, charjump[..]) && |must| > 0
    requires |must| - 1 <= from && NoneBefore(text, must, from)
    ensures from <= dp && NoneBefore(text, must, dp)
    ensures dp < |text| ==> text[dp] == must[|must| - 1]
  {
    dp := from;
    while dp < |text| && charjump[text[dp] as int] > 0
      invariant from <= dp && NoneBefore(text, must, dp)
      decreases |text| - dp
    {
      var n := charjump[text[dp] as int];
      assert CharJump(must, text[dp], JumpOf(charjump[..], text[dp]));
      forall k: nat | k + |must| - 1 < dp + n
        ensures !Stands(text, must, k)
      {
        if Stands(text, must, k) {
          CharJumpSafe(text, must, dp, k, n);
        }
      }
      dp := dp + n;
    }
    if dp < |text| {
      assert CharJump(must, text[dp], JumpOf(charjump[..], text[dp]));
    }
  }

  /** Compare backwards from the end of the window that starts at `w`. */
  method Compare(text: Word, must: Word, w: nat) returns (pp: nat)
    requires |must| > 1 && w + |must| <= |text| && text[w + |must| - 1] == must[|must| - 1]
    ensures pp < |must| && MatchesAfter(text, must, w, pp)
    ensures text[w + pp] == must[pp] ==> pp == 0 && Stands(text, must, w)
  {
    pp := |must| - 2;
    while text[w + pp] == must[pp] && pp != 0
      invariant 0 <= pp < |must| && MatchesAfter(text, must, w, pp)
      decreases pp
    {
      pp := pp - 1;
    }
    if text[w + pp] == must[pp] {
      assert text[w..w + |must|] == must;
    }
  }

  /** The scan of matcher() with both tables: where `must` stands first, or that it stands nowhere. */
  method SearchFast(text: Word, must: Word, charjump: array<nat>, matchjump: array<nat>) returns (found: Option<nat>)
    requires |must| > 1
    requires charjump.Length == 256 && CharJumps(must, charjump[..])
    requires matchjump.Length == |must| && MatchJumps(must, matchjump[..])
    ensures found == First(text, must)
    ensures found.Some? ==> FirstAt(text, must, found.value)
    ensures found.None? ==> Nowhere(text, must)
  {
    hide CharJumps, MatchJumps, Stands, CharJump, MatchesAfter;
    var mustlast := |must| - 1;
    var dp := mustlast;
    var pp := mustlast;
    while dp < |text|
      invariant mustlast <= dp && pp == mustlast && NoneBefore(text, must, dp)
      decreases |text| - dp
    {
      // ends where the last character of the window may match
      dp := SkipFast(text, must, charjump, dp);
      if dp >= |text| {
        break;
      }
      // back from the end of the window
      var w := dp - mustlast;
      pp := Compare(text, must, w);
      dp := w + pp;
      if text[dp] == must[pp] {
        break;
      }
      // the longer of the two jumps
      var mj, cj := matchjump[pp], charjump[text[dp] as int];
      JumpSafe(text, must, charjump[..], matchjump[..], w, pp);
      dp := dp + if cj < mj then mj else cj;
      pp := mustlast;
    }
    if pp != 0 {
      NoneLeft(text, must, dp);
      FirstIs(text, must, None);
      return None;
    }
    FirstIs(text, must, Some(dp));
    return Some(dp);
  }

  lemma NoneLeft(text: Word, must: Word, dp: nat)
    requires |must| > 0 && NoneBefore(text, must, dp) && dp >= |text|
    ensures Nowhere(text, must)
  {
  }

  lemma Differs(text: Word, must: Word, w: nat, j: nat)
    requires j < |must| && w + j < |text| && text[w + j] != must[j]
    ensures !Stands(text, must, w)
  {
    assert w + |must| <= |text| ==> text[w..w + |must|][j] == text[w + j];
  }

  lemma JumpsOn(must: Word, jump: seq<nat>, j: nat)
    requires MatchJumps(must, jump) && j < |must|
    ensures |jump| == |must| && jump[j] >= |must| - j
  {
    assert Reached(must, jump, j);
  }

  lemma JumpSafe(text: Word, must: Word, charjump: seq<nat>, matchjump: seq<nat>, w: nat, j: nat)
    requires |must| > 1 && CharJumps(must, charjump) && MatchJumps(must, matchjump)
    requires NoneBefore(text, must, w + |must| - 1) && MatchesAfter(text, must, w, j) && text[w + j] != must[j]
    ensures |charjump| == 256 && |matchjump| == |must|
    ensures var n := if JumpOf(charjump, text[w + j]) < matchjump[j] then matchjump[j] else JumpOf(charjump, text[w + j]);
      w + |must| - 1 < w + j + n && NoneBefore(text, must, w + j + n)
  {
    hide Stands, Reached, Plausible, CharJump;
    JumpsOn(must, matchjump, j);
    var cj, mj := JumpOf(charjump, text[w + j]), matchjump[j];
    var n := if cj < mj then mj else cj;
    assert CharJump(must, text[w + j], cj);
    Differs(text, must, w, j);
    forall k: nat | Stands(text, must, k)
      ensures w + j + n <= k + |must| - 1
    {
      MatchJumpSafe(text, must, matchjump, w, j, k);
      CharJumpSafe(text, must, w + j, k, cj);
    }
  }

  /** The scan of matcher() without tables. */
  method SearchSlow(text: Word, must: Word) returns (found: Option<nat>)
    requires |must| > 0
    ensures found == First(text, must)
    ensures found.Some? ==> FirstAt(text, must, found.value)
    ensures found.None? ==> Nowhere(text, must)
  {
    var dp := 0;
    while dp < |text| && !(text[dp] == must[0] && |text| - dp >= |must| && text[dp..dp + |must|] == must)
      invariant dp <= |text| && forall k: nat :: k < dp ==> !Stands(text, must, k)
    {
      dp := dp + 1;
    }
    if dp == |text| {
      FirstIs(text, must, None);
      return None;
    }
    FirstIs(text, must, Some(dp));
    return Some(dp);
  }
}
