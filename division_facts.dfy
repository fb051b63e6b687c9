/** Facts on values behind the restoring long division of `Int_storage::udivmod`
    (int_storage.h) and of the older `Large_ap_int::udivmod` (large.h): how the
    leading-zero counts align the divisor with the numerator, and the invariant the
    subtract-and-halve loop keeps. */
module DivisionFacts {
  import opened Words
  import opened Limbs
  import opened LimbOps

  /** A numerator below 2^BITS lies between the powers of two its leading-zero
      count names. */
  lemma ClzBounds(v: nat)
    requires 0 < v < MODULUS
    ensures Clz(v) < BITS
    ensures Pow2(BITS - 1 - Clz(v)) <= v < Pow2(BITS - Clz(v))
  {
    PowerConstants();
    Log2Below(v, BITS);
  }

  /** A larger value has no more leading zeros. */
  lemma ClzMonotone(a: nat, b: nat)
    requires 0 < a <= b < MODULUS
    ensures Clz(b) <= Clz(a)
  {
    ClzBounds(a);
    ClzBounds(b);
    if Clz(b) > Clz(a) {
      Pow2Monotone(BITS - Clz(b), BITS - 1 - Clz(a));
    }
  }

  /** Below 2^(BITS-1) there is at least one leading zero. */
  lemma ClzOfUnsigned(v: nat)
    requires 0 < v < SIGN
    ensures 1 <= Clz(v)
  {
    PowerConstants();
    ClzBounds(v);
  }

  /** A divisor of at least 2 has at most BITS - 2 leading zeros. */
  lemma ClzOfTwoOrMore(d: nat)
    requires 2 <= d < MODULUS
    ensures Clz(d) <= BITS - 2
  {
    ClzBounds(d);
    assert Pow2(1) == 2;
  }

  lemma MulPow2Below(d: nat, a: nat, s: nat)
    requires d < Pow2(a)
    ensures d * Pow2(s) < Pow2(a + s)
  {
    Pow2Add(a, s);
    MulLe(d, Pow2(s), Pow2(a) - 1, Pow2(s));
  }

  lemma MulPow2Above(d: nat, a: nat, s: nat)
    requires Pow2(a) <= d
    ensures Pow2(a + s) <= d * Pow2(s)
  {
    Pow2Add(a, s);
    MulLe(Pow2(a), Pow2(s), d, Pow2(s));
  }

  /** The alignment step of `udivmod`: shifting the divisor by the difference of
      the leading-zero counts puts its top bit under the numerator's, so the shifted
      divisor fits the width and twice it exceeds the numerator. */
  lemma DivideStart(n: nat, d: nat, s0: int)
    requires 0 < d < n < MODULUS && s0 == Clz(d) - Clz(n)
    ensures 0 <= s0 < BITS
    ensures d * Pow2(s0) < Pow2(BITS - Clz(n)) <= MODULUS
    ensures n < d * Pow2(s0 + 1)
  {
    ClzMonotone(d, n);
    ClzBounds(d);
    ClzBounds(n);
    assert Pow2(BITS) == MODULUS by {
      PowerConstants();
    }
    AlignBounds(n, d, BITS - Clz(d), s0, BITS - Clz(n), BITS);
  }

  /** The arithmetic of the alignment: `d` has its top bit at `a - 1` and the
      numerator lies below 2^b, with `b == a + s0` at most the width `top`. */
  lemma AlignBounds(n: nat, d: nat, a: nat, s0: nat, b: nat, top: nat)
    requires 1 <= a && b == a + s0 && b <= top
    requires Pow2(a - 1) <= d < Pow2(a) && n < Pow2(b)
    ensures d * Pow2(s0) < Pow2(b) <= Pow2(top)
    ensures n < d * Pow2(s0 + 1)
  {
    MulPow2Below(d, a, s0);
    Pow2Monotone(b, top);
    MulPow2Above(d, a - 1, s0 + 1);
    assert a - 1 + (s0 + 1) == b;
  }

  /** The state of the division loop at the top of an iteration, with `shift` the
      current bit position, `s0` its first value, and `q`, `r`, `dv` the values of
      the quotient, the remainder and the shifted divisor. The quotient bits set so
      far lie above `shift`; the usual long-division equalities hold once the
      divisor is non-zero and the numerator's top bit is clear, because only then
      does the sign-filling `rshift(1)` halve the divisor. */
  predicate DivInv(logicalShift: bool, n: nat, d: nat, q: nat, r: nat, dv: nat, shift: int, s0: nat)
  {
    && -1 <= shift <= s0 < BITS
    && q % Pow2(shift + 1) == 0 && q + Pow2(shift + 1) <= Pow2(s0 + 1)
    && r <= n && 0 < n
    && (d == 0 ==> r == n && dv == 0 && q + Pow2(shift + 1) == Pow2(s0 + 1))
    && (0 < d && (logicalShift || n < SIGN) ==>
          && n == q * d + r && r < d * Pow2(shift + 1)
          && (shift >= 0 ==> dv == d * Pow2(shift) && (logicalShift || dv < SIGN)))
  }

  /** The state after the compare at bit `shift` (and the subtraction, if any),
      before `shift` steps down and the divisor is halved. */
  predicate DivAfter(logicalShift: bool, n: nat, d: nat, q: nat, r: nat, dv: nat, shift: nat, s0: nat)
  {
    && shift <= s0 < BITS
    && q % Pow2(shift) == 0 && q + Pow2(shift) <= Pow2(s0 + 1)
    && r <= n && 0 < n
    && (d == 0 ==> r == n && dv == 0 && q + Pow2(shift) == Pow2(s0 + 1))
    && (0 < d && (logicalShift || n < SIGN) ==>
          && n == q * d + r && r < d * Pow2(shift)
          && dv == d * Pow2(shift) && (logicalShift || dv < SIGN))
  }

  /** What the loop leaves behind. */
  predicate DivDone(logicalShift: bool, n: nat, d: nat, q: nat, r: nat, s0: nat)
  {
    && q < Pow2(s0 + 1) && r <= n
    && (d == 0 ==> r == n && q == Pow2(s0 + 1) - 1)
    && (0 < d && (logicalShift || n < SIGN) ==> n == q * d + r && r < d)
  }

  /** What `udivmod` promises: the two early exits, the division identity for a
      non-zero divisor and a numerator with its top bit clear, a quotient below the
      numerator for divisors from 2 on, and, for a zero divisor, the numerator back
      as the remainder under a quotient of ones from bit 0 up to the numerator's
      top bit and one bit more. */
  predicate UDivModSpec(logicalShift: bool, n: nat, d: nat, q: nat, r: nat)
  {
    && (n < d ==> q == 0 && r == n)
    && (n == d ==> q == 1 && r == 0)
    && (0 < d && (logicalShift || n < SIGN) ==> n == q * d + r && r < d)
    && (1 < d && 0 < n ==> q < n)
    && r <= n
    && (d == 0 && 0 < n < MODULUS ==> r == n && q == Pow2(BITS + 1 - Clz(n)) - 1)
  }

  /** The first early exit of `udivmod`: a numerator below the denominator. */
  lemma SpecBelow(logicalShift: bool, n: nat, d: nat)
    requires n < d
    ensures UDivModSpec(logicalShift, n, d, 0, n)
  {
  }

  /** The second early exit: equal operands. */
  lemma SpecEqual(logicalShift: bool, n: nat)
    ensures UDivModSpec(logicalShift, n, n, 1, 0)
  {
  }

  /** The shift that aligns the divisor is never negative. */
  lemma ShiftNonnegative(n: nat, d: nat)
    requires d < n < MODULUS
    ensures Clz(n) <= Clz(d)
  {
    if d > 0 {
      ClzMonotone(d, n);
    }
  }

  lemma DivInvStart(logicalShift: bool, n: nat, d: nat, dv: nat, s0: nat)
    requires d < n < MODULUS && s0 == Clz(d) - Clz(n)
    requires d == 0 ==> n < SIGN
    requires dv == d * Pow2(s0)
    ensures DivInv(logicalShift, n, d, 0, n, dv, s0, s0)
  {
    PowerConstants();
    if d == 0 {
      ClzOfUnsigned(n);
      ClzBounds(n);
    } else {
      DivideStart(n, d, s0);
      if n < SIGN {
        ClzOfUnsigned(n);
        Pow2Monotone(BITS - Clz(n), BITS - 1);
      }
    }
  }

  lemma ModZeroDown(q: nat, s: nat)
    requires q % Pow2(s + 1) == 0
    ensures q % Pow2(s) == 0
  {
    ModPow2Nested(q, s, s + 1);
  }

  /** The quotient bit at `shift` is still clear, so `set_bit` adds 2^shift. */
  lemma DivBitClear(q: nat, shift: nat)
    requires q % Pow2(shift + 1) == 0
    ensures !Bit(q, shift)
  {
    BitAsRemainder(q, shift);
  }

  lemma AddPow2Mod(q: nat, s: nat)
    requires q % Pow2(s) == 0
    ensures (q + Pow2(s)) % Pow2(s) == 0
  {
    ModAddMultiple(q, 1, Pow2(s));
  }

  /** The subtracting branch: the shifted divisor fits in the remainder. */
  lemma DivSubtracted(logicalShift: bool, n: nat, d: nat, q: nat, r: nat, dv: nat, shift: nat, s0: nat)
    requires DivInv(logicalShift, n, d, q, r, dv, shift, s0) && dv <= r
    ensures !Bit(q, shift)
    ensures DivAfter(logicalShift, n, d, q + Pow2(shift), r - dv, dv, shift, s0)
  {
    DivBitClear(q, shift);
    ModZeroDown(q, shift);
    AddPow2Mod(q, shift);
    assert Pow2(shift + 1) == 2 * Pow2(shift);
    if 0 < d && (logicalShift || n < SIGN) {
      SubtractStepArith(n, q, d, r, dv, Pow2(shift));
    }
  }

  lemma SubtractStepArith(n: int, q: int, d: int, r: int, dv: int, p: int)
    requires n == q * d + r && dv == d * p && r < d * (2 * p)
    ensures n == (q + p) * d + (r - dv) && r - dv < d * p
  {
  }

  /** The skipping branch: the shifted divisor exceeds the remainder. */
  lemma DivSkipped(logicalShift: bool, n: nat, d: nat, q: nat, r: nat, dv: nat, shift: nat, s0: nat)
    requires DivInv(logicalShift, n, d, q, r, dv, shift, s0) && r < dv
    ensures DivAfter(logicalShift, n, d, q, r, dv, shift, s0)
  {
    ModZeroDown(q, shift);
    assert Pow2(shift + 1) == 2 * Pow2(shift);
  }

  lemma HalfPow2Multiple(d: nat, s: nat)
    requires 0 < s
    ensures (d * Pow2(s)) / 2 == d * Pow2(s - 1)
  {
    assert d * Pow2(s) == 2 * (d * Pow2(s - 1));
  }

  /** `--shift; divisor.rshift(1)`: the halved divisor is the divisor for the next
      bit whenever the shift is logical or the top bit was clear. */
  lemma DivHalved(logicalShift: bool, n: nat, d: nat, q: nat, r: nat, dv: nat, shift: nat, s0: nat)
    requires DivAfter(logicalShift, n, d, q, r, dv, shift, s0)
    ensures DivInv(logicalShift, n, d, q, r, Halving(logicalShift, dv), shift - 1, s0)
  {
    if 0 < d && (logicalShift || n < SIGN) && shift > 0 {
      HalfPow2Multiple(d, shift);
    }
  }

  /** Leaving the loop, by running out of bits or because the remainder fell
      below the divisor. */
  lemma DivInvDone(logicalShift: bool, n: nat, d: nat, q: nat, r: nat, dv: nat, shift: int, s0: nat)
    requires DivInv(logicalShift, n, d, q, r, dv, shift, s0) && (shift == -1 || r < d)
    ensures DivDone(logicalShift, n, d, q, r, s0)
  {
  }

  /** Leaving the loop because the divisor matched the remainder exactly. */
  lemma DivAfterDone(logicalShift: bool, n: nat, d: nat, q: nat, dv: nat, shift: nat, s0: nat)
    requires DivAfter(logicalShift, n, d, q, 0, dv, shift, s0)
    ensures DivDone(logicalShift, n, d, q, 0, s0)
  {
  }

  /** The quotient is below a numerator that exceeds a divisor of at least two: the
      quotient has at most `s0 + 1` bits while the numerator has more. */
  lemma QuotientBelow(n: nat, d: nat, q: nat, s0: nat)
    requires 2 <= d < n < MODULUS && s0 == Clz(d) - Clz(n) && q < Pow2(s0 + 1)
    ensures q < n
  {
    DivideStart(n, d, s0);
    ClzOfTwoOrMore(d);
    ClzBounds(n);
    Pow2Monotone(s0 + 1, BITS - 1 - Clz(n));
  }

  lemma DivDoneSpec(logicalShift: bool, n: nat, d: nat, q: nat, r: nat, s0: nat)
    requires d < n < MODULUS && s0 == Clz(d) - Clz(n)
    requires DivDone(logicalShift, n, d, q, r, s0)
    ensures UDivModSpec(logicalShift, n, d, q, r)
  {
    if 1 < d {
      QuotientBelow(n, d, q, s0);
    }
  }

  // ---------------------------------------------------------------------
  // The loop on values
  // ---------------------------------------------------------------------

  /** The value a clean divisor holds after `rshift(1)`: the shift fills from the
      sign bit, so a divisor with its top bit set keeps it. */
  function Halve(dv: nat): (h: nat)
    ensures dv < SIGN ==> h == dv / 2
    ensures dv >= SIGN ==> h >= SIGN
  {
    if dv >= SIGN then dv / 2 + SIGN else dv / 2
  }

  /** The halving step with a logical shift, which is what long division needs,
      or with the sign-filling `rshift(1)` that `udivmod` calls. */
  function Halving(logicalShift: bool, dv: nat): (h: nat)
    ensures logicalShift || dv < SIGN ==> h == dv / 2
  {
    if logicalShift then dv / 2 else Halve(dv)
  }

  /** The value `set_bit(p)` leaves. */
  function WithBit(q: nat, p: nat): nat
  {
    if Bit(q, p) then q else q + Pow2(p)
  }

  /** The division loop of `udivmod` from bit `shift` down, on the values of the
      divisor `d`, the quotient `q`, the remainder `r` and the shifted divisor
      `dv`: the quotient and remainder it returns. */
  function DivLoop(logicalShift: bool, d: nat, q: nat, r: nat, dv: nat, shift: int): (res: (nat, nat))
    decreases shift + 1
  {
    if shift < 0 || r < d then (q, r)
    else if dv <= r then
      if dv == r then (WithBit(q, shift), 0)
      else DivLoop(logicalShift, d, WithBit(q, shift), r - dv, Halving(logicalShift, dv), shift - 1)
    else DivLoop(logicalShift, d, q, r, Halving(logicalShift, dv), shift - 1)
  }

  /** One pass of the loop with bits left and the remainder not below `d`, the
      bit set in the quotient being clear. */
  lemma DivLoopPass(logicalShift: bool, d: nat, q: nat, r: nat, dv: nat, shift: nat)
    requires r >= d && !Bit(q, shift)
    ensures dv == r ==> DivLoop(logicalShift, d, q, r, dv, shift) == (q + Pow2(shift), 0)
    ensures dv < r ==>
              DivLoop(logicalShift, d, q, r, dv, shift)
              == DivLoop(logicalShift, d, q + Pow2(shift), r - dv, Halving(logicalShift, dv), shift - 1)
    ensures dv > r ==>
              DivLoop(logicalShift, d, q, r, dv, shift)
              == DivLoop(logicalShift, d, q, r, Halving(logicalShift, dv), shift - 1)
  {
    assert WithBit(q, shift) == q + Pow2(shift);
  }

  /** The quotient and remainder `udivmod` returns for numerator `n` and
      denominator `d`, with the divisor halved by `Halving(logicalShift, _)`:
      `logicalShift == false` is the code as written. */
  function UDivModValues(logicalShift: bool, n: nat, d: nat): (res: (nat, nat))
    requires n < MODULUS && d < MODULUS
  {
    if n < d then (0, n)
    else if n == d then (1, 0)
    else
      ShiftNonnegative(n, d);
      var s0 := Clz(d) - Clz(n);
      DivLoop(logicalShift, d, 0, n, d * Pow2(s0), s0)
  }

  /** Each pass of the loop keeps `DivInv`, so the loop ends in `DivDone`. */
  lemma {:induction false} DivLoopDone(logicalShift: bool, n: nat, d: nat, q: nat, r: nat, dv: nat, shift: int, s0: nat)
    requires DivInv(logicalShift, n, d, q, r, dv, shift, s0)
    ensures var res := DivLoop(logicalShift, d, q, r, dv, shift);
            DivDone(logicalShift, n, d, res.0, res.1, s0)
    decreases shift + 1
  {
    var res := DivLoop(logicalShift, d, q, r, dv, shift);
    if shift < 0 || r < d {
      assert res == (q, r);
      DivInvDone(logicalShift, n, d, q, r, dv, shift, s0);
    } else if dv <= r {
      DivSubtracted(logicalShift, n, d, q, r, dv, shift, s0);
      DivLoopPass(logicalShift, d, q, r, dv, shift);
      var q' := q + Pow2(shift);
      if dv == r {
        assert res == (q', 0);
        DivAfterDone(logicalShift, n, d, q', dv, shift, s0);
      } else {
        var h := Halving(logicalShift, dv);
        assert res == DivLoop(logicalShift, d, q', r - dv, h, shift - 1);
        DivHalved(logicalShift, n, d, q', r - dv, dv, shift, s0);
        DivLoopDone(logicalShift, n, d, q', r - dv, h, shift - 1, s0);
      }
    } else {
      var h := Halving(logicalShift, dv);
      assert res == DivLoop(logicalShift, d, q, r, h, shift - 1);
      DivSkipped(logicalShift, n, d, q, r, dv, shift, s0);
      DivHalved(logicalShift, n, d, q, r, dv, shift, s0);
      DivLoopDone(logicalShift, n, d, q, r, h, shift - 1, s0);
    }
  }

  /** The loop meets the specification whenever the bounds check in `set_bit`
      passes, that is for a non-zero denominator or a numerator with its top bit
      clear; with a logical shift the division is exact for every numerator. */
  lemma UDivModCorrect(logicalShift: bool, n: nat, d: nat)
    requires n < MODULUS && d < MODULUS && (d != 0 || n < SIGN)
    ensures var res := UDivModValues(logicalShift, n, d);
            UDivModSpec(logicalShift, n, d, res.0, res.1)
  {
    if d < n {
      ShiftNonnegative(n, d);
      var s0: nat := Clz(d) - Clz(n);
      MulLe(d, Pow2(s0), d, Pow2(s0));
      var dv: nat := d * Pow2(s0);
      DivInvStart(logicalShift, n, d, dv, s0);
      DivLoopDone(logicalShift, n, d, 0, n, dv, s0, s0);
      var res := DivLoop(logicalShift, d, 0, n, dv, s0);
      assert res == UDivModValues(logicalShift, n, d);
      DivDoneSpec(logicalShift, n, d, res.0, res.1, s0);
    }
  }

  /** Once the remainder is 2^(BITS-1) and the divisor above it, the sign-filled
      divisor stays above it and nothing more is subtracted. */
  lemma {:induction false} NeverFits(d: nat, q: nat, dv: nat, shift: int)
    requires d <= SIGN && SIGN < dv
    ensures DivLoop(false, d, q, SIGN, dv, shift) == (q, SIGN)
    decreases shift + 1
  {
    if shift >= 0 {
      NeverFits(d, q, Halve(dv), shift - 1);
    }
  }

  /** The sign-filling `rshift(1)` breaks the division of 2^(BITS-1): by 3 it
      returns quotient 0 and the numerator itself as a remainder that is not below
      the divisor, where the logical halving gives the true quotient and remainder. */
  lemma SignFilledDivision()
    ensures UDivModValues(false, SIGN, 3) == (0, SIGN)
    ensures UDivModValues(true, SIGN, 3) == (SIGN / 3, SIGN % 3)
  {
    PowerConstants();
    Log2Unique(3, 1);
    Log2Unique(SIGN, BITS - 1);
    assert Clz(3) == BITS - 2 && Clz(SIGN) == 0;
    var s0 := BITS - 2;
    assert 3 * Pow2(s0) > SIGN by {
      assert Pow2(BITS - 1) == 2 * Pow2(s0);
    }
    NeverFits(3, 0, 3 * Pow2(s0), s0);
    UDivModCorrect(true, SIGN, 3);
    var res := UDivModValues(true, SIGN, 3);
    DivModUnique(SIGN, 3, res.0, res.1);
  }

  /** While the divisor stays below 2^(BITS-1) the sign-filling halving is a plain
      halving, so the loop computes what the logical one does. */
  lemma {:induction false} HalvingAgrees(n: nat, d: nat, q: nat, r: nat, dv: nat, shift: int, s0: nat)
    requires DivInv(false, n, d, q, r, dv, shift, s0) && n < SIGN
    ensures DivLoop(false, d, q, r, dv, shift) == DivLoop(true, d, q, r, dv, shift)
    decreases shift + 1
  {
    if shift >= 0 && r >= d {
      assert Halving(false, dv) == Halving(true, dv);
      if dv <= r {
        DivSubtracted(false, n, d, q, r, dv, shift, s0);
        DivLoopPass(false, d, q, r, dv, shift);
        DivLoopPass(true, d, q, r, dv, shift);
        if dv != r {
          DivHalved(false, n, d, q + Pow2(shift), r - dv, dv, shift, s0);
          HalvingAgrees(n, d, q + Pow2(shift), r - dv, Halving(false, dv), shift - 1, s0);
        }
      } else {
        DivSkipped(false, n, d, q, r, dv, shift, s0);
        DivHalved(false, n, d, q, r, dv, shift, s0);
        assert DivLoop(false, d, q, r, dv, shift) == DivLoop(false, d, q, r, Halving(false, dv), shift - 1);
        assert DivLoop(true, d, q, r, dv, shift) == DivLoop(true, d, q, r, Halving(true, dv), shift - 1);
        HalvingAgrees(n, d, q, r, Halving(false, dv), shift - 1, s0);
      }
    }
  }

  /** For a numerator below 2^(BITS-1) the division as written is the division
      with a logical halving. */
  lemma UnsignedHalvingAgrees(n: nat, d: nat)
    requires n < SIGN && d < MODULUS
    ensures UDivModValues(false, n, d) == UDivModValues(true, n, d)
  {
    if d < n {
      ShiftNonnegative(n, d);
      var s0: nat := Clz(d) - Clz(n);
      MulLe(d, Pow2(s0), d, Pow2(s0));
      var dv: nat := d * Pow2(s0);
      DivInvStart(false, n, d, dv, s0);
      HalvingAgrees(n, d, 0, n, dv, s0, s0);
      assert UDivModValues(false, n, d) == DivLoop(false, d, 0, n, dv, s0);
      assert UDivModValues(true, n, d) == DivLoop(true, d, 0, n, dv, s0);
    }
  }

  /** The division by ten of the stream operators, as written, leaves 2^(BITS-1)
      whole: quotient 0 and the numerator itself as the remainder. */
  lemma SignFilledByTen()
    ensures UDivModValues(false, SIGN, 10) == (0, SIGN)
  {
    PowerConstants();
    Log2Unique(10, 3);
    Log2Unique(SIGN, BITS - 1);
    assert Clz(10) == BITS - 4 && Clz(SIGN) == 0;
    var s0 := BITS - 4;
    assert 10 * Pow2(s0) > SIGN by {
      Pow2Add(3, s0);
      assert Pow2(3) == 8;
    }
    NeverFits(10, 0, 10 * Pow2(s0), s0);
  }
}
