/**
 * Sets of strip positions as the matcher keeps them: flags, one for each position. The small
 * representation packs them into a machine word, the large one is an array of bytes.
 */
module States {
  type Flags = seq<bool>

  function NoStates(n: nat): (v: Flags)
    ensures |v| == n && forall i :: 0 <= i < n ==> !v[i]
  {
    seq(n, _ => false)
  }

  predicate Leq(u: Flags, v: Flags) {
    |u| == |v| && forall i :: 0 <= i < |u| && u[i] ==> v[i]
  }

  /** How many positions are not in the set. */
  function Missing(v: Flags): nat {
    if v == [] then 0 else (if v[0] then 0 else 1) + Missing(v[1..])
  }

  lemma {:induction false} MissingMono(u: Flags, v: Flags)
    requires Leq(u, v)
    ensures Missing(v) <= Missing(u)
    ensures u != v ==> Missing(v) < Missing(u)
  {
    if u != [] {
      MissingMono(u[1..], v[1..]);
      if u[0] == v[0] && u[1..] == v[1..] {
        assert u == [u[0]] + u[1..] && v == [v[0]] + v[1..];
      }
    }
  }

  // ----- The machine word -----

  /** The bits of a `long`, least significant first. */
  const WORD_BITS: nat := 64

  predicate IsWord(v: Flags) {
    |v| == WORD_BITS
  }

  function Or(u: Flags, v: Flags): (r: Flags)
    requires IsWord(u) && IsWord(v)
    ensures IsWord(r)
  {
    seq(WORD_BITS, i requires 0 <= i < WORD_BITS => u[i] || v[i])
  }

  function And(u: Flags, v: Flags): (r: Flags)
    requires IsWord(u) && IsWord(v)
    ensures IsWord(r)
  {
    seq(WORD_BITS, i requires 0 <= i < WORD_BITS => u[i] && v[i])
  }

  /** Shift towards the most significant bit; what is shifted out is lost. */
  function Shl(v: Flags, n: nat): (r: Flags)
    requires IsWord(v)
    ensures IsWord(r)
  {
    seq(WORD_BITS, i requires 0 <= i < WORD_BITS => i >= n && v[i - n])
  }

  function Shr(v: Flags, n: nat): (r: Flags)
    requires IsWord(v)
    ensures IsWord(r)
  {
    seq(WORD_BITS, i requires 0 <= i < WORD_BITS => i + n < WORD_BITS && v[i + n])
  }

  function Bit(n: nat): (r: Flags)
    ensures IsWord(r)
  {
    seq(WORD_BITS, i => i == n)
  }

  lemma ShiftedBit(n: nat)
    ensures Shl(Bit(n), 1) == Bit(n + 1)
  {
  }

  /** FWD: if `here` is in `src`, so is the position `n` further in the result. */
  lemma Forward(dst: Flags, src: Flags, pc: nat, n: nat)
    requires IsWord(dst) && IsWord(src) && pc + n < WORD_BITS
    ensures Or(dst, Shl(And(src, Bit(pc)), n)) == dst[pc + n := dst[pc + n] || src[pc]]
  {
  }

  /** BACK: the same, backwards. */
  lemma Backward(dst: Flags, src: Flags, pc: nat, n: nat)
    requires IsWord(dst) && IsWord(src) && n <= pc < WORD_BITS
    ensures Or(dst, Shr(And(src, Bit(pc)), n)) == dst[pc - n := dst[pc - n] || src[pc]]
  {
  }

  /** ISSTATEIN and ISSETBACK: is the position `n` before `here` in the set? */
  lemma Tested(v: Flags, pc: nat, n: nat)
    requires IsWord(v) && n <= pc < WORD_BITS
    ensures And(v, Shr(Bit(pc), n)) != NoStates(WORD_BITS) <==> v[pc - n]
  {
    if v[pc - n] {
      assert And(v, Shr(Bit(pc), n))[pc - n];
    } else {
      assert And(v, Shr(Bit(pc), n)) == NoStates(WORD_BITS);
    }
  }
}
