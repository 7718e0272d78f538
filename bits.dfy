/**
 * 64-bit words and their exclusive or. Python's `^` on integers below 2^64
 * acts bit by bit on their 64-bit binary expansions; a word here is that
 * expansion, least significant bit first, and `Value` turns it back into the
 * integer. The algebra the hasher relies on (associative, commutative, 0 is
 * the unit, every word is its own inverse) is proved once here.
 */
module Bits {

  /** A 64-bit word, bit i at index i. */
  type Word = w: seq<bool> | |w| == 64 witness seq(64, _ => false)

  /** The all-zero word, the integer 0. */
  function Zero(): Word
  {
    seq(64, _ => false)
  }

  /** `a ^ b`: bit i is set exactly when it is set in one operand but not both. */
  function Xor(a: Word, b: Word): (c: Word)
    ensures forall i | 0 <= i < 64 :: c[i] == (a[i] != b[i])
  {
    seq(64, i requires 0 <= i < 64 => a[i] != b[i])
  }

  lemma XorZero(a: Word)
    ensures Xor(a, Zero()) == a && Xor(Zero(), a) == a
  {
  }

  lemma XorSelf(a: Word)
    ensures Xor(a, a) == Zero()
  {
  }

  lemma XorComm(a: Word, b: Word)
    ensures Xor(a, b) == Xor(b, a)
  {
  }

  lemma XorAssoc(a: Word, b: Word, c: Word)
    ensures Xor(Xor(a, b), c) == Xor(a, Xor(b, c))
  {
  }

  /** Moving a term past another: (a ^ k) ^ b == (a ^ b) ^ k. */
  lemma XorSwap(a: Word, k: Word, b: Word)
    ensures Xor(Xor(a, k), b) == Xor(Xor(a, b), k)
  {
  }

  function Pow2(k: nat): (p: nat)
    ensures p >= 1
  {
    if k == 0 then 1 else 2 * Pow2(k - 1)
  }

  /** The integer a bit string denotes, least significant bit first. */
  function Value(w: seq<bool>): nat
  {
    if w == [] then 0 else (if w[0] then 1 else 0) + 2 * Value(w[1..])
  }

  /** A string of k bits denotes an integer below 2^k. */
  lemma {:induction false} ValueBound(w: seq<bool>)
    ensures Value(w) < Pow2(|w|)
  {
    if w != [] {
      ValueBound(w[1..]);
    }
  }

  /** The word denoting 1. */
  function One(): Word
  {
    seq(64, i => i == 0)
  }

  lemma {:induction false} ValueOfClear(w: seq<bool>)
    requires forall i | 0 <= i < |w| :: !w[i]
    ensures Value(w) == 0
  {
    if w != [] {
      ValueOfClear(w[1..]);
    }
  }

  lemma ValueOfZeroAndOne()
    ensures Value(Zero()) == 0 && Value(One()) == 1
  {
    ValueOfClear(Zero());
    ValueOfClear(One()[1..]);
  }
}
