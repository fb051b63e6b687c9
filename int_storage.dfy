/** `detail::Int_storage<80, uint64_t>` (int_storage.h): a little-endian array of
    `W` words whose padding bits above bit BITS - 1 are meant to stay zero. Each
    method runs the word loop of `WordLoops` on `data` and states the new words or
    the value they stand for. */
module IntStorage {
  import opened Words
  import opened Limbs
  import opened LimbOps
  import opened WordLoops
  import opened DivisionFacts

  class Storage {
    /** `data_` */
    const data: array<Word>

    ghost predicate Valid()
      reads this
    {
      data.Length == W
    }

    /** `Int_storage{w}`: the first word is `w`, the others are zero. */
    constructor (w: Word)
      ensures Valid() && fresh(data)
      ensures Val(data[..]) == w && Clean(data[..])
    {
      Dims();
      data := new Word[W](j => if j == 0 then w else 0);
      new;
      assert data[..] == [w, 0];
      ValOfTwo(data[..]);
    }

    /** The copy constructor. */
    constructor Copy(src: Storage)
      requires src.Valid()
      ensures Valid() && fresh(data) && data[..] == src.data[..]
    {
      var a := new Word[W];
      forall j | 0 <= j < W {
        a[j] := src.data[j];
      }
      data := a;
    }

    /** The copy assignment: the words of `src` replace these. */
    method Assign(src: Storage)
      requires Valid() && src.Valid()
      modifies data
      ensures data[..] == old(src.data[..])
    {
      forall j | 0 <= j < W {
        data[j] := src.data[j];
      }
    }

    /** `get_bit(p)` */
    function GetBit(p: nat): (b: bool)
      reads this, data
      requires Valid() && p < BITS
      ensures b == Bit(Val(data[..]), p)
    {
      BitAt(data, p)
    }

    /** `set_bit(p)`: bit p becomes one, every other bit is kept. */
    method SetBit(p: nat)
      requires Valid() && p < BITS
      modifies data
      ensures Val(data[..]) == if Bit(Val(old(data[..])), p) then Val(old(data[..])) else Val(old(data[..])) + Pow2(p)
      ensures forall q :: Bit(Val(data[..]), q) == (q == p || Bit(Val(old(data[..])), q))
      ensures Clean(old(data[..])) ==> Clean(data[..])
    {
      SetBitIn(data, p);
    }

    /** `clear_unused_bits` */
    method ClearUnusedBits()
      requires Valid()
      modifies data
      ensures data[..] == Cleared(old(data[..]))
    {
      ClearUnused(data);
    }

    /** `fill_unused_bits` */
    method FillUnusedBits()
      requires Valid()
      modifies data
      ensures data[..] == Filled(old(data[..]))
    {
      FillUnused(data);
    }

    /** `invert` */
    method Invert()
      requires Valid()
      modifies data
      ensures data[..] == Inverted(old(data[..]))
    {
      InvertIn(data);
    }

    /** `add(rhs)`: the carry loop, then the padding clear. The carry is the one out
        of the top word, so on clean operands it is always false. */
    method Add(rhs: Storage) returns (carry: bool)
      requires Valid() && rhs.Valid()
      modifies data
      ensures Clean(data[..])
      ensures Val(data[..]) == (Val(old(data[..])) + Val(old(rhs.data[..]))) % MODULUS
      ensures carry == (Val(old(data[..])) + Val(old(rhs.data[..])) >= STORE_MOD)
    {
      ghost var a, b := Val(data[..]), Val(rhs.data[..]);
      carry := AddWords(data, rhs.data);
      ghost var s := data[..];
      ClearUnused(data);
      ClearedValue(s);
      ValSizedBound(s);
      AddWrap(Val(s), a + b, carry);
    }

    /** `subtract(rhs)`: the borrow loop with no padding clear, so the words hold
        the difference modulo 2^(64 W), not 2^BITS. */
    method Subtract(rhs: Storage) returns (borrow: bool)
      requires Valid() && rhs.Valid()
      modifies data
      ensures Val(data[..]) == (Val(old(data[..])) - Val(old(rhs.data[..]))) % STORE_MOD
      ensures borrow == (Val(old(data[..])) < Val(old(rhs.data[..])))
    {
      ghost var a, b := data[..], rhs.data[..];
      borrow := SubWords(data, rhs.data);
      ValSizedBound(data[..]);
      ValSizedBound(a);
      ValSizedBound(b);
      SubWrap(Val(data[..]), Val(a) - Val(b), borrow);
    }

    /** `binary_and(rhs)` */
    method BinaryAnd(rhs: Storage)
      requires Valid() && rhs.Valid()
      modifies data
      ensures data[..] == AndWords(old(data[..]), old(rhs.data[..]))
    {
      AndIn(data, rhs.data);
    }

    /** `binary_or(rhs)` */
    method BinaryOr(rhs: Storage)
      requires Valid() && rhs.Valid()
      modifies data
      ensures data[..] == OrWords(old(data[..]), old(rhs.data[..]))
    {
      OrIn(data, rhs.data);
    }

    /** `binary_xor(rhs)` */
    method BinaryXor(rhs: Storage)
      requires Valid() && rhs.Valid()
      modifies data
      ensures data[..] == XorWords(old(data[..]), old(rhs.data[..]))
    {
      XorIn(data, rhs.data);
    }

    /** `lshift(n)`, which does not clear the padding afterwards. */
    method LShift(n: Word)
      requires Valid()
      modifies data
      ensures data[..] == LShifted(old(data[..]), n)
    {
      LShiftIn(data, n);
    }

    /** `rshift(n)`, with the vacated words of the non-filling branch zeroed and the
        intended top mask of the filling branch. */
    method RShift(n: Word)
      requires Valid()
      modifies data
      ensures data[..] == RShiftedFixed(old(data[..]), n)
    {
      RShiftIn(data, n);
    }

    /** `compare(rhs)`: the unsigned order of the word arrays. */
    method Compare(rhs: Storage) returns (r: int)
      requires Valid() && rhs.Valid()
      ensures r == Sign(Val(data[..]) - Val(rhs.data[..]))
    {
      r := CompareWords(data, rhs.data);
    }

    /** `mul(rhs)`: the in-place single-word product, then the padding clear. The
        returned carry is the word that falls off the top of the word array. */
    method Mul(rhs: Word) returns (carry: Word)
      requires Valid()
      modifies data
      ensures Clean(data[..])
      ensures Val(data[..]) == (Val(old(data[..])) * rhs) % MODULUS
      ensures carry == (Val(old(data[..])) * rhs) / STORE_MOD
    {
      ghost var a := Val(data[..]);
      carry := MulWords(data, data, rhs);
      ghost var s := data[..];
      ClearUnused(data);
      ClearedValue(s);
      ValSizedBound(s);
      MulWrap(Val(s), a * rhs, carry);
    }

    /** `count_leading_zeros()` of the BITS-bit value. The source loops forever when
        the last word is non-zero only in its padding, which clean storage rules out. */
    method CountLeadingZeros() returns (r: nat)
      requires Valid() && Clean(data[..])
      ensures r == Clz(Low(data[..]))
    {
      Dims();
      CleanLow(data[..]);
      r := LeadingZeros(data);
    }

    /** `udivmod(denum)`: restoring long division. The early exits return `(0, *this)`
        and `(1, 0)`; otherwise the divisor is aligned under the numerator and
        subtracted bit by bit, halved each pass. The source halves with the
        sign-filling `rshift(1)`, which never brings a divisor with the top bit set
        back down (`DivisionFacts.SignFilledDivision`); this method halves with a
        logical shift, so the division is exact for every non-zero divisor. The
        bounds check in `set_bit` demands a non-zero divisor or a numerator with its
        top bit clear. */
    method UDivMod(den: Storage) returns (quo: Storage, rem: Storage)
      requires Valid() && den.Valid() && Clean(data[..]) && Clean(den.data[..])
      requires Val(den.data[..]) != 0 || Val(data[..]) < SIGN
      ensures fresh(quo) && fresh(quo.data) && fresh(rem) && fresh(rem.data)
      ensures quo.Valid() && rem.Valid() && quo.data != rem.data
      ensures Clean(quo.data[..]) && Clean(rem.data[..])
      ensures Val(data[..]) < MODULUS && Val(den.data[..]) < MODULUS
      ensures (Val(quo.data[..]), Val(rem.data[..])) == UDivModValues(true, Val(data[..]), Val(den.data[..]))
      ensures UDivModSpec(true, Val(data[..]), Val(den.data[..]), Val(quo.data[..]), Val(rem.data[..]))
    {
      CleanIsBounded(data[..]);
      CleanIsBounded(den.data[..]);
      UDivModCorrect(true, Val(data[..]), Val(den.data[..]));
      var cmp := Compare(den);
      if cmp < 0 {
        quo := new Storage(0);
        rem := new Storage.Copy(this);
        return;
      }
      if cmp == 0 {
        quo := new Storage(1);
        rem := new Storage(0);
        return;
      }
      quo, rem := LongDivision(den);
    }

    /** The part of `udivmod` after the early exits, for a numerator above the
        denominator. */
    method LongDivision(den: Storage) returns (quo: Storage, rem: Storage)
      requires Valid() && den.Valid() && Clean(data[..]) && Clean(den.data[..])
      requires Val(den.data[..]) < Val(data[..])
      requires Val(den.data[..]) != 0 || Val(data[..]) < SIGN
      ensures fresh(quo) && fresh(quo.data) && fresh(rem) && fresh(rem.data)
      ensures quo.Valid() && rem.Valid() && quo.data != rem.data
      ensures Clean(quo.data[..]) && Clean(rem.data[..])
      ensures Val(data[..]) < MODULUS
      ensures (Val(quo.data[..]), Val(rem.data[..])) == UDivModValues(true, Val(data[..]), Val(den.data[..]))
    {
      var divisor, shift;
      quo, rem, divisor, shift := StartDivision(den);
      DivideLoop(rem, quo, divisor, den, shift);
    }

    /** The set-up of the long division: the copy of the denominator shifted left
        by the difference of the leading-zero counts, a zero quotient and the
        numerator as the remainder. */
    method StartDivision(den: Storage) returns (quo: Storage, rem: Storage, divisor: Storage, shift: int)
      requires Valid() && den.Valid() && Clean(data[..]) && Clean(den.data[..])
      requires Val(den.data[..]) < Val(data[..])
      requires Val(den.data[..]) != 0 || Val(data[..]) < SIGN
      ensures fresh(quo) && fresh(quo.data) && fresh(rem) && fresh(rem.data)
      ensures fresh(divisor) && fresh(divisor.data)
      ensures Division(rem, quo, divisor, den)
      ensures Val(data[..]) < MODULUS && Val(den.data[..]) < MODULUS
      ensures shift == Clz(Val(den.data[..])) - Clz(Val(data[..])) && 0 <= shift < BITS
      ensures Val(quo.data[..]) == 0 && Val(rem.data[..]) == Val(data[..])
      ensures Val(divisor.data[..]) == Val(den.data[..]) * Pow2(shift)
    {
      divisor := new Storage.Copy(den);
      var numZeros := CountLeadingZeros();
      var denZeros := den.CountLeadingZeros();
      ghost var s0 := Alignment(data[..], den.data[..], numZeros, denZeros);
      shift := denZeros - numZeros;
      quo := new Storage(0);
      rem := new Storage.Copy(this);
      ghost var d := divisor.data[..];
      assert Val(d) * Pow2(s0) < MODULUS && shift as Word == s0;
      divisor.LShift(shift as Word);
      ghost var t := divisor.data[..];
      assert t == LShifted(d, s0);
      AlignedDivisor(d, s0, t);
      assert Clean(rem.data[..]) && Clean(quo.data[..]);
    }
  }

  /** The shift that aligns the divisor, from the two leading-zero counts. */
  lemma Alignment(num: seq<Word>, den: seq<Word>, numZeros: nat, denZeros: nat) returns (s0: nat)
    requires Sized(num) && Sized(den) && Clean(num) && Clean(den) && Val(den) < Val(num)
    requires Val(den) != 0 || Val(num) < SIGN
    requires numZeros == Clz(Low(num)) && denZeros == Clz(Low(den))
    ensures s0 == denZeros - numZeros && s0 < BITS
    ensures Val(num) < MODULUS && Val(den) < MODULUS && s0 == Clz(Val(den)) - Clz(Val(num))
    ensures Val(den) * Pow2(s0) < MODULUS
  {
    CleanLow(num);
    CleanLow(den);
    CleanIsBounded(num);
    ShiftNonnegative(Val(num), Val(den));
    s0 := denZeros - numZeros;
    if Val(den) > 0 {
      DivideStart(Val(num), Val(den), s0);
    } else {
      ClzOfUnsigned(Val(num));
    }
  }

  /** The four storages of the division loop: separate, full-sized and clean. */
  ghost predicate Division(rem: Storage, quo: Storage, divisor: Storage, den: Storage)
    reads rem, quo, divisor, den, rem.data, quo.data, divisor.data, den.data
  {
    && rem.Valid() && quo.Valid() && divisor.Valid() && den.Valid()
    && rem.data != quo.data && rem.data != divisor.data && quo.data != divisor.data
    && den.data != rem.data && den.data != quo.data && den.data != divisor.data
    && Clean(rem.data[..]) && Clean(quo.data[..]) && Clean(divisor.data[..]) && Clean(den.data[..])
  }

  /** The loop of `udivmod`, from the aligned divisor down to bit 0 or a break: it
      leaves the quotient and remainder `DivLoop` names. */
  method DivideLoop(rem: Storage, quo: Storage, divisor: Storage, den: Storage, shift0: int)
    requires Division(rem, quo, divisor, den) && -1 <= shift0 < BITS
    modifies rem.data, quo.data, divisor.data
    ensures Clean(rem.data[..]) && Clean(quo.data[..])
    ensures (Val(quo.data[..]), Val(rem.data[..])) ==
            DivLoop(true, Val(den.data[..]), old(Val(quo.data[..])), old(Val(rem.data[..])), old(Val(divisor.data[..])), shift0)
  {
    ghost var res := DivLoop(true, Val(den.data[..]), Val(quo.data[..]), Val(rem.data[..]), Val(divisor.data[..]), shift0);
    var shift := shift0;
    while shift >= 0
      invariant Division(rem, quo, divisor, den) && -1 <= shift < BITS
      invariant DivLoop(true, Val(den.data[..]), Val(quo.data[..]), Val(rem.data[..]), Val(divisor.data[..]), shift) == res
      decreases shift + 1
    {
      var stop := DivideStep(rem, quo, divisor, den, shift);
      if stop {
        return;
      }
      shift := shift - 1;
    }
  }

  /** One pass of the division loop at bit `shift`: the break when the remainder
      is below the denominator, the subtraction and quotient bit when the divisor
      fits, the break on an exact match, and the halving of the divisor. */
  method DivideStep(rem: Storage, quo: Storage, divisor: Storage, den: Storage, shift: nat) returns (stop: bool)
    requires Division(rem, quo, divisor, den) && shift < BITS
    modifies rem.data, quo.data, divisor.data
    ensures Division(rem, quo, divisor, den)
    ensures var before := DivLoop(true, Val(den.data[..]), old(Val(quo.data[..])), old(Val(rem.data[..])), old(Val(divisor.data[..])), shift);
            if stop then (Val(quo.data[..]), Val(rem.data[..])) == before
            else DivLoop(true, Val(den.data[..]), Val(quo.data[..]), Val(rem.data[..]), Val(divisor.data[..]), shift - 1) == before
  {
    ghost var d, q, r, dv := Val(den.data[..]), Val(quo.data[..]), Val(rem.data[..]), Val(divisor.data[..]);
    var c := rem.Compare(den);
    if c < 0 {
      assert DivLoop(true, d, q, r, dv, shift) == (q, r);
      return true;
    }
    var comp := divisor.Compare(rem);
    if comp <= 0 {
      SubtractAt(rem, quo, divisor, shift);
      if comp == 0 {
        assert DivLoop(true, d, q, r, dv, shift) == (WithBit(q, shift), 0);
        return true;
      }
    }
    ghost var q', r' := Val(quo.data[..]), Val(rem.data[..]);
    assert DivLoop(true, d, q, r, dv, shift) == DivLoop(true, d, q', r', Halving(true, dv), shift - 1);
    HalveDivisor(divisor);
    stop := false;
  }

  /** The subtracting branch of the division loop: `remainder.subtract(divisor)`
      with the divisor no larger than the remainder, so no borrow and no padding,
      then `result.set_bit(shift)`. */
  method SubtractAt(rem: Storage, quo: Storage, divisor: Storage, shift: nat)
    requires rem.Valid() && quo.Valid() && divisor.Valid()
    requires rem.data != divisor.data && quo.data != divisor.data && rem.data != quo.data
    requires Clean(rem.data[..]) && Clean(quo.data[..]) && shift < BITS
    requires Val(divisor.data[..]) <= Val(rem.data[..])
    modifies rem.data, quo.data
    ensures Clean(rem.data[..]) && Clean(quo.data[..])
    ensures Val(rem.data[..]) == old(Val(rem.data[..])) - Val(divisor.data[..])
    ensures Val(quo.data[..]) == WithBit(old(Val(quo.data[..])), shift)
  {
    ghost var r, dv := Val(rem.data[..]), Val(divisor.data[..]);
    var _ := rem.Subtract(divisor);
    CleanIsBounded(old(rem.data[..]));
    ModSmall(r - dv, STORE_MOD);
    CleanIsBounded(rem.data[..]);
    quo.SetBit(shift);
  }

  /** `divisor.rshift(1)` in the division loop, followed by the clearing of the
      sign bit that the sign-filling shift copies in: a logical halving. */
  method HalveDivisor(divisor: Storage)
    requires divisor.Valid() && Clean(divisor.data[..])
    modifies divisor.data
    ensures Clean(divisor.data[..]) && Val(divisor.data[..]) == Halving(true, old(Val(divisor.data[..])))
  {
    ghost var s := divisor.data[..];
    ghost var dv := Val(s);
    CleanIsBounded(s);
    HalvedDivisor(s);
    divisor.RShift(1);
    ghost var h := divisor.data[..];
    assert h == RShiftedFixed(s, 1);
    assert Val(h) == Halve(dv);
    Dims();
    divisor.data[W - 1] := divisor.data[W - 1] % 0x8000;
    assert divisor.data[..] == h[W - 1 := h[W - 1] % 0x8000];
    SignCleared(h);
    LogicalHalf(dv, Val(h));
  }

  // ---------------------------------------------------------------------
  // Facts on words used above
  // ---------------------------------------------------------------------

  /** On clean operands the difference `subtract` leaves is clean exactly when
      there is no borrow: a borrow runs into the padding bits, which `subtract`
      never clears. */
  lemma DifferenceClean(a: nat, b: nat)
    requires a < MODULUS && b < MODULUS
    ensures (a - b) % STORE_MOD < MODULUS <==> a >= b
  {
    if a >= b {
      ModSmall(a - b, STORE_MOD);
    } else {
      ModAddMultiple(a - b, 1, STORE_MOD);
      ModSmall(a - b + STORE_MOD, STORE_MOD);
    }
  }

  /** 2^(64 W) is a multiple of 2^BITS. */
  lemma StoreMultiple()
    ensures STORE_MOD == 0x1_0000_0000_0000 * MODULUS
  {
  }

  lemma WrapOfStore(x: int)
    ensures (x % STORE_MOD) % MODULUS == Wrap(x)
  {
    StoreMultiple();
    var k := x / STORE_MOD;
    assert x % STORE_MOD == x + (-k * 0x1_0000_0000_0000) * MODULUS;
    ModAddMultiple(x, -k * 0x1_0000_0000_0000, MODULUS);
  }

  /** The carry out of the top word, and the sum reduced modulo the width. */
  lemma AddWrap(v: nat, x: nat, carry: bool)
    requires v < STORE_MOD && v + (if carry then STORE_MOD else 0) == x
    ensures carry == (x >= STORE_MOD) && v % MODULUS == x % MODULUS
  {
    StoreMultiple();
    if carry {
      ModAddMultiple(v, 0x1_0000_0000_0000, MODULUS);
    }
  }

  lemma SubWrap(v: nat, x: int, borrow: bool)
    requires v < STORE_MOD && -(STORE_MOD as int) < x < STORE_MOD
    requires v - (if borrow then STORE_MOD else 0) == x
    ensures borrow == (x < 0) && v == x % STORE_MOD
  {
    if borrow {
      ModAddMultiple(x, 1, STORE_MOD);
    }
    ModSmall(v, STORE_MOD);
  }

  lemma MulWrap(v: nat, x: nat, carry: Word)
    requires v < STORE_MOD && v + carry * STORE_MOD == x
    ensures carry == x / STORE_MOD && v % MODULUS == x % MODULUS
  {
    StoreMultiple();
    DivModUnique(x, STORE_MOD, carry, v);
    assert x == v + (carry * 0x1_0000_0000_0000) * MODULUS;
    ModAddMultiple(v, carry * 0x1_0000_0000_0000, MODULUS);
  }

  lemma CleanLow(s: seq<Word>)
    requires Sized(s) && Clean(s)
    ensures Low(s) == Val(s) && (s[W - 1] == 0 || s[W - 1] % LAST_MOD != 0)
  {
    Constants();
    CleanIsBounded(s);
    ModSmall(Val(s), MODULUS);
    ModSmall(s[W - 1], LAST_MOD);
  }

  /** Aligning the divisor: the left shift keeps the exact product, which is clean. */
  lemma AlignedDivisor(s: seq<Word>, shift: nat, t: seq<Word>)
    requires Sized(s) && Val(s) * Pow2(shift) < MODULUS && t == LShifted(s, shift)
    ensures Sized(t) && Val(t) == Val(s) * Pow2(shift) && Clean(t)
  {
    LShiftedValue(s, shift);
    FitsStore(Val(s), Pow2(shift));
    CleanIsBounded(t);
  }

  lemma FitsStore(a: nat, b: nat)
    requires a * b < MODULUS
    ensures (a * b) % STORE_MOD == a * b
  {
    var x := a * b;
    assert 0 <= x < STORE_MOD;
    ModSmall(x, STORE_MOD);
  }

  /** `rshift(1)` on a clean divisor leaves it clean with the value `Halve` names:
      half of it, plus the sign bit when that bit was set. */
  lemma HalvedDivisor(s: seq<Word>)
    requires Sized(s) && Clean(s)
    ensures Clean(RShiftedFixed(s, 1)) && Val(RShiftedFixed(s, 1)) == Halve(Val(s))
  {
    var t := RShiftedFixed(s, 1);
    RShiftedFixedSigned(s, 1);
    CleanLow(s);
    CleanLow(t);
    SignBit(s);
    assert Pow2(1) == 2;
    if Val(s) < SIGN {
      RShiftedFixedUnsigned(s, 1);
    } else {
      HalfOfNegative(Val(s), Val(t));
    }
  }

  /** Clearing bit LW - 1 of the last word reduces a clean value modulo 2^(BITS-1). */
  lemma SignCleared(s: seq<Word>)
    requires Sized(s) && Clean(s)
    ensures Clean(s[W - 1 := s[W - 1] % 0x8000])
    ensures Val(s[W - 1 := s[W - 1] % 0x8000]) == Val(s) % SIGN
  {
    Constants();
    var t := s[W - 1 := s[W - 1] % 0x8000];
    ValOfTwo(s);
    ValOfTwo(t);
    var k := s[1] / 0x8000;
    assert s[1] == k * 0x8000 + t[1];
    assert SIGN == BASE * 0x8000;
    assert Val(s) == k * SIGN + Val(t);
    DivModUnique(Val(s), SIGN, k, Val(t));
  }

  /** The sign-filled half with its sign bit cleared is the plain half. */
  lemma LogicalHalf(dv: nat, h: nat)
    requires dv < MODULUS && h == Halve(dv)
    ensures h % SIGN == dv / 2
  {
    if dv >= SIGN {
      ModAddMultiple(dv / 2, 1, SIGN);
    }
    ModSmall(dv / 2, SIGN);
  }

  /** The arithmetic halving of a BITS-bit pattern with its top bit set. */
  lemma HalfOfNegative(v: nat, h: nat)
    requires SIGN <= v < MODULUS && h < MODULUS && ToSigned(h) == ToSigned(v) / 2
    ensures h == v / 2 + SIGN
  {
    var k := v / 2;
    assert v - MODULUS == (k - SIGN) * 2 + v % 2;
    DivModUnique(v - MODULUS, 2, k - SIGN, v % 2);
  }
}
