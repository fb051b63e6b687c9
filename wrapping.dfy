/** Arithmetic modulo 2^BITS: wrapping an operand first does not change a wrapped
    sum, difference, product or negation. The wrapper classes compute on wrapped
    values word by word, and these facts carry their results back to the integers. */
module Wrapping {
  import opened Words
  import opened Limbs

  /** Congruent integers wrap to the same pattern. */
  lemma WrapOfMultiple(x: int, k: int)
    ensures Wrap(x + k * MODULUS) == Wrap(x)
  {
    ModAddMultiple(x, k, MODULUS);
  }

  /** An integer and its wrapped pattern differ by a multiple of 2^BITS. */
  lemma WrapSplit(x: int)
    ensures x == Wrap(x) + (x / MODULUS) * MODULUS
  {
  }

  lemma WrapAddLeft(x: int, y: int)
    ensures Wrap(Wrap(x) + y) == Wrap(x + y)
  {
    WrapSplit(x);
    WrapOfMultiple(Wrap(x) + y, x / MODULUS);
  }

  lemma WrapAdd(x: int, y: int)
    ensures Wrap(Wrap(x) + Wrap(y)) == Wrap(x + y)
  {
    WrapAddLeft(x, Wrap(y));
    WrapAddLeft(y, x);
  }

  lemma WrapNeg(x: int)
    ensures Wrap(-(Wrap(x) as int)) == Wrap(-x)
  {
    WrapSplit(x);
    WrapOfMultiple(-x, x / MODULUS);
    assert -(Wrap(x) as int) == -x + (x / MODULUS) * MODULUS;
  }

  lemma WrapMulLeft(x: int, y: int)
    ensures Wrap(Wrap(x) * y) == Wrap(x * y)
  {
    var k := x / MODULUS;
    WrapSplit(x);
    assert x * y == Wrap(x) * y + (k * y) * MODULUS;
    WrapOfMultiple(Wrap(x) * y, k * y);
  }

  lemma WrapMul(x: int, y: int)
    ensures Wrap(Wrap(x) * Wrap(y)) == Wrap(x * y)
  {
    WrapMulLeft(x, Wrap(y));
    WrapMulLeft(y, x);
  }

  /** A signed reading is the wrap of any congruent integer. */
  lemma SignedOfWrap(x: int)
    ensures Wrap(Signed(x)) == Wrap(x) && Signed(Signed(x)) == Signed(x)
  {
    WrapOfSigned(Wrap(x));
    WrapOfWrap(x);
  }

  lemma SignedCongruent(x: int, y: int)
    requires Wrap(x) == Wrap(y)
    ensures Signed(x) == Signed(y)
  {
  }

  /** Wrapping commutes with the signed reading under negation. */
  lemma SignedNeg(x: int)
    ensures Signed(-Signed(x)) == Signed(-x)
  {
    SignedOfWrap(x);
    WrapNeg(Signed(x));
    WrapNeg(x);
  }

  lemma SignedAdd(x: int, y: int)
    ensures Signed(Signed(x) + Signed(y)) == Signed(x + y)
  {
    SignedOfWrap(x);
    SignedOfWrap(y);
    WrapAdd(Signed(x), Signed(y));
    WrapAdd(x, y);
  }

  lemma SignedMul(x: int, y: int)
    ensures Signed(Signed(x) * Signed(y)) == Signed(x * y)
  {
    SignedOfWrap(x);
    SignedOfWrap(y);
    WrapMul(Signed(x), Signed(y));
    WrapMul(x, y);
  }
}
