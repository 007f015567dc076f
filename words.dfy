/**
 * 64-bit storage words of the bitmap and what it means for a bit of a word
 * to be set. A bit position is a 6-bit value (0..63), which is exactly the
 * range of `n % 64` that the bitmap uses as a shift amount.
 */
module Words {

  type Word = bv64

  /**
   * Bit position `k` (0..63) as a 6-bit shift amount whose value is `k`
   * (lemma BitPosValue); the recursive form keeps integer-to-bit-vector
   * conversions out of the proofs that use it.
   */
  function BitPos(k: nat): bv6
    requires k < 64
  {
    if k == 0 then 0 else BitPos(k - 1) + 1
  }

  lemma {:induction false} BitPosValue(k: nat)
    requires k < 64
    ensures BitPos(k) as int == k
  {
    if k > 0 {
      BitPosValue(k - 1);
    }
  }

  /** Distinct positions give distinct shift amounts. */
  lemma {:induction false} BitPosInjective(j: nat, k: nat)
    requires j < 64 && k < 64 && j != k
    ensures BitPos(j) != BitPos(k)
  {
    BitPosValue(j);
    BitPosValue(k);
  }

  /** The word with only bit `p` set: `1 << p`. */
  function Mask(p: bv6): Word
  {
    (1 as bv64) << p
  }

  /** `w` with bit `p` set: `w | (1 << p)`. */
  function SetBit(w: Word, p: bv6): Word
  {
    w | Mask(p)
  }

  /** Bit `p` of `w` is 1. */
  predicate Bit(w: Word, p: bv6)
  {
    w & Mask(p) != 0
  }

  /** Population count of the low `k` bits of `w`. */
  function PopCountBelow(w: Word, k: nat): (r: nat)
    requires k <= 64
    ensures r <= k
  {
    if k == 0 then 0
    else PopCountBelow(w, k - 1) + (if Bit(w, BitPos(k - 1)) then 1 else 0)
  }

  /** The number of one bits of `w`, as `bits.OnesCount64` computes it. */
  function PopCount(w: Word): (r: nat)
    ensures r <= 64
  {
    PopCountBelow(w, 64)
  }

  // Small bit-vector facts, kept separate so that each is cheap to prove.

  lemma MaskDisjoint(p: bv6, q: bv6)
    requires p != q
    ensures Mask(p) & Mask(q) == 0
  {
  }

  lemma MaskNonzero(p: bv6)
    ensures Mask(p) != 0
  {
  }

  lemma AndOverOr(w: Word, m: Word, k: Word)
    ensures (w | m) & k == (w & k) | (m & k)
  {
  }

  lemma OrZero(a: Word)
    ensures a | 0 == a
  {
  }

  lemma AndSelf(a: Word)
    ensures a & a == a
  {
  }

  lemma OrNonzero(a: Word, b: Word)
    requires b != 0
    ensures a | b != 0
  {
  }

  lemma OrDisjoint(w: Word, m: Word, k: Word)
    requires m & k == 0
    ensures (w | m) & k == w & k
  {
    AndOverOr(w, m, k);
    OrZero(w & k);
  }

  lemma OrCovers(w: Word, m: Word)
    requires m != 0
    ensures (w | m) & m != 0
  {
    AndOverOr(w, m, m);
    AndSelf(m);
    OrNonzero(w & m, m);
  }

  /** Setting bit `p` makes bit `p` one. */
  lemma BitOfSetSame(w: Word, p: bv6)
    ensures Bit(SetBit(w, p), p)
  {
    MaskNonzero(p);
    OrCovers(w, Mask(p));
  }

  /** Setting bit `p` leaves every other bit as it was. */
  lemma BitOfSetOther(w: Word, p: bv6, q: bv6)
    requires p != q
    ensures Bit(SetBit(w, p), q) == Bit(w, q)
  {
    var m, k := Mask(p), Mask(q);
    MaskDisjoint(p, q);
    OrDisjoint(w, m, k);
    assert SetBit(w, p) & k == w & k;
  }

  /** After `w | (1 << p)`, bit `q` is one exactly when `q == p` or it was one before. */
  lemma BitOfSet(w: Word, p: bv6, q: bv6)
    ensures Bit(SetBit(w, p), q) <==> (q == p || Bit(w, q))
  {
    if p == q {
      BitOfSetSame(w, p);
    } else {
      BitOfSetOther(w, p, q);
    }
  }

  /** A mask has a single bit, so it is either disjoint from `w` or contained in it. */
  lemma MaskContained(w: Word, p: bv6)
    requires w & Mask(p) != 0
    ensures w & Mask(p) == Mask(p)
  {
  }

  lemma OrAbsorb(w: Word, m: Word)
    requires w & m == m
    ensures w | m == w
  {
  }

  /** OR-ing in a bit that is already one changes nothing. */
  lemma SetPresentBit(w: Word, p: bv6)
    requires Bit(w, p)
    ensures SetBit(w, p) == w
  {
    MaskContained(w, p);
    OrAbsorb(w, Mask(p));
  }

  lemma OrTwice(w: Word, m: Word)
    ensures (w | m) | m == w | m
  {
  }

  lemma OrSwap(w: Word, a: Word, b: Word)
    ensures (w | a) | b == (w | b) | a
  {
  }

  /** Setting a bit twice is setting it once. */
  lemma SetBitTwice(w: Word, p: bv6)
    ensures SetBit(SetBit(w, p), p) == SetBit(w, p)
  {
    OrTwice(w, Mask(p));
  }

  /** Two bits can be set in either order. */
  lemma SetBitSwap(w: Word, p: bv6, q: bv6)
    ensures SetBit(SetBit(w, p), q) == SetBit(SetBit(w, q), p)
  {
    OrSwap(w, Mask(p), Mask(q));
  }

  lemma ZeroHasNoBit(p: bv6)
    ensures !Bit(0, p)
  {
  }
}
