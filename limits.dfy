/** `std::numeric_limits<Large_ap_int<bits>>` of limits.h, for the 80-bit
    `Large_ap_int` of large.h: `min()` is the sign bit alone, `lowest()` is
    `min()`, `max()` is its complement, arithmetic wraps around, and the digit
    counts follow from the width. */
module Limits {
  import opened Words
  import opened Limbs
  import opened Decimal
  import opened SignedValues
  import opened LegacyLarge

  /** `is_modulo` */
  const IS_MODULO: bool := true

  /** `digits`: the width itself, sign bit included. */
  const DIGITS: nat := BITS

  /** `digits10`: `digits * log10(2)`, truncated by the conversion to `int`. */
  const DIGITS10: nat := 24

  /** The truncation of `80 * log10(2)` is 24 exactly when 10^24 <= 2^80 < 10^25. */
  lemma Digits10Exact()
    ensures Pow10(DIGITS10) <= MODULUS < Pow10(DIGITS10 + 1)
  {
    assert Pow10(3) == 1000;
    Pow10Add(3, 3);
    Pow10Add(6, 6);
    Pow10Add(12, 12);
    assert Pow10(24) == 1_000_000_000_000_000_000_000_000;
    assert Pow10(25) == 10 * Pow10(24);
  }

  /** `min()`: `T{1} << (bits - 1)`, with the shift of large.h that leaves the
      padding as it falls (here nothing reaches it). */
  method Min() returns (r: LegacyInt)
    ensures r.Valid() && r.Value() == -(SIGN as int) && r.Pattern() == SIGN
  {
    r := new LegacyInt(1);
    ghost var one := r.v_.data[..];
    r.ShlAssignAsWritten(BITS - 1);
    SignPattern(one, r.v_.data[..]);
  }

  /** Whatever the padding, a pattern holding 1 shifted up by BITS - 1 is the
      sign bit alone. */
  lemma SignPattern(t: seq<Word>, s: seq<Word>)
    requires Sized(t) && Clean(t) && SVal(t) == 1
    requires Sized(s) && Val(s) == (Val(t) * Pow2(BITS - 1)) % STORE_MOD
    ensures Clean(s) && Val(s) == SIGN && SVal(s) == -(SIGN as int)
  {
    CleanPattern(t);
    ModSmall(1, MODULUS);
    assert Val(t) == 1;
    assert Pow2(BITS - 1) == SIGN by {
      PowerConstants();
    }
    ModSmall(SIGN, STORE_MOD);
    assert Val(s) == SIGN;
    CleanIsBounded(s);
    ModSmall(SIGN, MODULUS);
    assert Low(s) == SIGN;
  }

  /** `lowest()`: `min()`. */
  method Lowest() returns (r: LegacyInt)
    ensures r.Valid() && r.Value() == -(SIGN as int)
  {
    r := Min();
  }

  /** `max()`: `~min()`, every bit but the sign bit. */
  method Max() returns (r: LegacyInt)
    ensures r.Valid() && r.Value() == SIGN - 1
  {
    var m := Min();
    r := m.Complement();
  }

  /** Modulo arithmetic at the top of the range: the value after the maximum is
      the minimum, and the minimum is its own negation. */
  lemma WrapsAtLimits()
    ensures Signed((SIGN - 1) + 1) == -(SIGN as int)
    ensures Signed(-(-(SIGN as int))) == -(SIGN as int)
  {
    Constants();
    ModSmall(SIGN, MODULUS);
  }

  /** `max() + 1 == min()` */
  method MaxPlusOne() returns (r: LegacyInt)
    ensures r.Valid() && r.Value() == -(SIGN as int)
  {
    var m := Max();
    r := m.AddInt(1);
    WrapsAtLimits();
  }

  /** `-min() == min()` */
  method NegatedMin() returns (r: LegacyInt)
    ensures r.Valid() && r.Value() == -(SIGN as int)
  {
    var m := Min();
    r := m.Negate();
    WrapsAtLimits();
  }
}
