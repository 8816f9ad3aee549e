/** Bit operations on a 32-bit register, and the laws the CRC proofs need of them. */
module Words {
  const ONE: bv32 := 1
  const TOP: bv32 := 0x8000_0000

  function Xor(a: bv32, b: bv32): bv32 { a ^ b }

  function Half(a: bv32): bv32 { a >> 1 }

  function Twice(a: bv32): bv32 { a << 1 }

  predicate Odd(a: bv32) { a & 1 == 1 }

  predicate HasTop(a: bv32) { a & TOP != 0 }

  /** Some bit of the mask is set in `a`. */
  predicate Meets(a: bv32, mask: bv32) { a & mask != 0 }

  /** The bits at position `k` and above. */
  function BitsFrom(k: nat): bv32
    decreases k
  {
    if k == 0 then 0xFFFF_FFFF else Twice(BitsFrom(k - 1))
  }

  lemma HalfXor(a: bv32, b: bv32)
    ensures Xor(Half(a), Half(b)) == Half(Xor(a, b))
    ensures Odd(Xor(a, b)) <==> Odd(a) != Odd(b)
  {
  }

  lemma XorCommutes(a: bv32, b: bv32)
    ensures Xor(a, b) == Xor(b, a)
  {
  }

  lemma XorAssociates(a: bv32, b: bv32, p: bv32)
    ensures Xor(a, Xor(b, p)) == Xor(Xor(a, b), p)
  {
  }

  lemma XorMoves(a: bv32, b: bv32, p: bv32)
    ensures Xor(Xor(a, p), b) == Xor(Xor(a, b), p)
  {
    hide Xor;
    XorAssociates(a, p, b);
    XorAssociates(a, b, p);
    XorCommutes(b, p);
  }

  lemma XorCancels(a: bv32, b: bv32, p: bv32)
    ensures Xor(Xor(a, p), Xor(b, p)) == Xor(a, b)
  {
    hide Xor;
    XorAssociates(Xor(a, p), b, p);
    XorMoves(a, b, p);
    XorAssociates(Xor(a, b), p, p);
    XorZero(p);
    XorZero(Xor(a, b));
  }

  lemma XorZero(a: bv32)
    ensures Xor(a, 0) == a && Xor(a, a) == 0
  {
  }

  lemma XorLaws(a: bv32, b: bv32, p: bv32)
    ensures Xor(a, b) == Xor(b, a)
    ensures Xor(a, Xor(b, p)) == Xor(Xor(a, b), p)
    ensures Xor(Xor(a, p), b) == Xor(Xor(a, b), p)
    ensures Xor(Xor(a, p), Xor(b, p)) == Xor(a, b)
    ensures Xor(a, 0) == a && Xor(a, a) == 0
  {
    hide Xor;
    XorCommutes(a, b);
    XorAssociates(a, b, p);
    XorMoves(a, b, p);
    XorCancels(a, b, p);
    XorZero(a);
  }

  lemma XorDifferent(a: bv32, b: bv32)
    ensures Xor(a, b) == 0 <==> a == b
  {
    hide Xor;
    XorZero(a);
    XorZero(b);
    XorAssociates(a, b, b);
    XorCommutes(0, b);
  }

  /** The lowest bit on its own. */
  lemma OddPart(a: bv32)
    ensures Odd(a) ==> !Odd(Xor(a, ONE)) && Half(Xor(a, ONE)) == Half(a)
    ensures Odd(ONE) && Half(ONE) == 0
  {
  }

  lemma BitsFromTop(k: nat)
    requires k <= 31
    ensures HasTop(BitsFrom(k))
  {
    assert BitsFrom(8) == 0xFFFF_FF00;
    assert BitsFrom(16) == 0xFFFF_0000;
    assert BitsFrom(24) == 0xFF00_0000;
    assert BitsFrom(31) == TOP;
    BitsFromNest(k, 31);
  }

  lemma {:induction false} BitsFromNest(j: nat, k: nat)
    requires j <= k
    ensures BitsFrom(k) & BitsFrom(j) == BitsFrom(k)
    decreases k
  {
    if j < k {
      BitsFromNest(j, k - 1);
      ShiftNests(k - 1);
      NestTransitive(BitsFrom(k), BitsFrom(k - 1), BitsFrom(j));
    }
  }

  lemma {:induction false} ShiftNests(k: nat)
    ensures Twice(BitsFrom(k)) & BitsFrom(k) == Twice(BitsFrom(k))
    decreases k
  {
    if k > 0 {
      ShiftNests(k - 1);
      ShiftNestsOnce(BitsFrom(k - 1));
    }
  }

  lemma ShiftNestsOnce(m: bv32)
    requires Twice(m) & m == Twice(m)
    ensures Twice(Twice(m)) & Twice(m) == Twice(Twice(m))
  {
  }

  lemma NestTransitive(a: bv32, b: bv32, c: bv32)
    requires a & b == a && b & c == b
    ensures a & c == a
  {
  }

  lemma HalfMeets(a: bv32, mask: bv32)
    requires Meets(a, Twice(mask))
    ensures Meets(Half(a), mask)
    ensures Meets(Xor(a, ONE), Twice(mask))
  {
  }

  lemma TopMeets(a: bv32, mask: bv32)
    requires HasTop(a) && HasTop(mask)
    ensures Meets(a, mask)
  {
  }

  lemma MeetsIsNonzero(a: bv32, mask: bv32)
    ensures Meets(a, mask) ==> a != 0
  {
  }
}
