/** The older self-contained `Large_ap_int<80>` of large.h, the one limits.h
    includes. It keeps the two's-complement layout of large_signed.h with the word
    loops written inline; those loops are the loops of int_storage.h, so the model
    runs them through `IntStorage.Storage` and `WordLoops`. What large.h does
    differently has its own code here: the single-word carry and borrow ripples of
    `+= std::int64_t` and `-= std::int64_t`, the word-against-`int64` compare, the
    Self `+=`/`-=` and `<<=` without a padding clear, and a long division that
    compares with the signed order. */
module LegacyLarge {
  import opened Words
  import opened Limbs
  import opened LimbOps
  import opened WordLoops
  import opened DivisionFacts
  import opened Wrapping
  import opened Decimal
  import opened IntStorage
  import opened SignedValues

  // ---------------------------------------------------------------------
  // Values of the division
  // ---------------------------------------------------------------------

  /** The values `udivmod` receives from `/=` and `%=`: after `*this = -*this` on a
      negative value every operand is non-negative, except the minimum, which is
      its own negation. */
  predicate IsMagnitude(x: int)
  {
    0 <= x < SIGN || x == -(SIGN as int)
  }

  lemma NegationMagnitude(x: int)
    requires InRange(x) && x < 0
    ensures IsMagnitude(Signed(-x))
    ensures x != -(SIGN as int) ==> Signed(-x) == -x
    ensures x == -(SIGN as int) ==> Signed(-x) == x
  {
    Constants();
    if x == -(SIGN as int) {
      ModSmall(SIGN, MODULUS);
    } else {
      SignedInRange(-x);
    }
  }

  /** The value an operand of `/=` or `%=` holds once negated when negative. */
  function MagnitudeOf(x: int): (m: int)
    requires InRange(x)
    ensures IsMagnitude(m)
    ensures x != -(SIGN as int) ==> m == Abs(x)
  {
    if x < 0 then NegationMagnitude(x); Signed(-x) else x
  }

  /** The quotient and remainder large.h's `udivmod` returns for the values `n` and
      `d`. The early exit `denum > *this` compares signed values. Past it a negative
      `d` is the minimum: equal to `n`, it is subtracted once; below a
      non-negative `n`, the shift by the difference of the leading-zero counts is
      negative and the loop never runs. Otherwise both are below 2^(BITS-1) and
      the loop is the one `DivisionFacts.UDivModValues` describes, with the
      sign-filling halving `>>= 1`. */
  function LegacyDivMod(n: int, d: int): (int, int)
    requires IsMagnitude(n) && IsMagnitude(d)
  {
    if d > n then (0, n)
    else if d < 0 then (if n == d then (1, 0) else (0, n))
    else
      var qr := UDivModValues(false, n, d);
      (Signed(qr.0), Signed(qr.1))
  }

  /** `if (neg) *this = -*this;`, the last step of `/=` and `%=`. */
  function Flip(neg: bool, v: int): int
  {
    if neg then Signed(-v) else v
  }

  /** `/=` as written on the values: the magnitudes go through `udivmod` and the
      quotient is negated when exactly one operand is negative. */
  function LegacyQuotient(x: int, y: int): int
    requires InRange(x) && InRange(y)
  {
    Flip(Opposite(x, y), LegacyDivMod(MagnitudeOf(x), MagnitudeOf(y)).0)
  }

  /** `%=` as written on the values. */
  function LegacyRemainder(x: int, y: int): int
    requires InRange(x) && InRange(y)
  {
    Flip(Opposite(x, y), LegacyDivMod(MagnitudeOf(x), MagnitudeOf(y)).1)
  }

  /** What `udivmod` promises for a non-negative numerator and a positive
      divisor: `q * d + r == n` with `0 <= r < d`. */
  lemma LegacyDivModExact(n: int, d: int)
    requires 0 <= n < SIGN && 0 < d < SIGN
    ensures var qr := LegacyDivMod(n, d);
      n == qr.0 * d + qr.1 && 0 <= qr.1 < d
  {
    Constants();
    if d <= n {
      UDivModCorrect(false, n, d);
      var qr := UDivModValues(false, n, d);
      if qr.0 > 0 {
        Words.MulAtLeast(d, qr.0);
      }
      SignedInRange(qr.0);
      SignedInRange(qr.1);
    }
  }

  /** Negating the signed reading of a magnitude is the signed reading of its
      negation. */
  lemma FlipAgrees(neg: bool, m: nat)
    ensures Flip(neg, Signed(m)) == Signed(WithSign(neg, m))
  {
    if neg {
      SignedNeg(m);
    } else {
      SignedOfWrap(m);
    }
  }

  /** For a dividend below 2^(BITS-1), the division as written and the unsigned
      one agree on the operands' magnitudes, read back as signed values. */
  lemma MagnitudesAgree(n: nat, y: int)
    requires n < SIGN && InRange(y)
    ensures var ref := UDivModValues(true, n, Abs(y));
      LegacyDivMod(n, MagnitudeOf(y)) == (Signed(ref.0), Signed(ref.1))
  {
    Constants();
    ModSmall(0, MODULUS);
    SignedInRange(n);
    if y != -(SIGN as int) {
      var d := Abs(y);
      if d <= n {
        UnsignedHalvingAgrees(n, d);
      }
    }
  }

  /** Away from the minimum dividend, the signed early exit and the sign-filling
      halving of large.h do no harm: its `/=` and `%=` agree with the corrected
      division. */
  lemma LegacyAgrees(x: int, y: int)
    requires InRange(x) && InRange(y) && x != -(SIGN as int)
    ensures LegacyQuotient(x, y) == Quotient(x, y)
    ensures LegacyRemainder(x, y) == Remainder(x, y)
  {
    var n := Abs(x);
    assert MagnitudeOf(x) == n;
    MagnitudesAgree(n, y);
    var ref := UDivModValues(true, n, Abs(y));
    FlipAgrees(Opposite(x, y), ref.0);
    FlipAgrees(Opposite(x, y), ref.1);
  }

  /** As written, the minimum divided by anything but itself gives 0 and leaves
      itself as the remainder: its negation is still the minimum, which
      `denum > *this` finds below every other divisor. */
  lemma MinimumDividend(y: int)
    requires InRange(y) && y != -(SIGN as int)
    ensures LegacyQuotient(-(SIGN as int), y) == 0
    ensures LegacyRemainder(-(SIGN as int), y) == -(SIGN as int)
  {
    NegationMagnitude(-(SIGN as int));
    assert MagnitudeOf(-(SIGN as int)) == -(SIGN as int);
    assert MagnitudeOf(y) >= 0;
    ModSmall(0, MODULUS);
  }

  /** `min / 1` and `min % 1` as written: 0 and the minimum. */
  lemma MinimumByOne()
    ensures LegacyQuotient(-(SIGN as int), 1) == 0
    ensures LegacyRemainder(-(SIGN as int), 1) == -(SIGN as int)
  {
    MinimumDividend(1);
  }

  /** `min / 1` and `min % 1` as intended: the minimum and 0. */
  lemma MinimumByOneCorrected()
    ensures Quotient(-(SIGN as int), 1) == -(SIGN as int)
    ensures Remainder(-(SIGN as int), 1) == 0
  {
    var x := -(SIGN as int);
    QuotientTruncates(x, 1);
    var n := Abs(x);
    assert n / 1 == n && n % 1 == 0;
    assert WithSign(true, n) == x;
    SignedInRange(x);
  }

  // ---------------------------------------------------------------------
  // Facts on words
  // ---------------------------------------------------------------------

  /** A single word below 2^64 in word 0, zero above: clean, and read as itself. */
  lemma WordValue(m: Word)
    ensures Clean([m, 0]) && Val([m, 0]) == m && SVal([m, 0]) == m
  {
    Constants();
    ValOfTwo([m, 0]);
    ModSmall(m, MODULUS);
  }

  /** A pattern offset by `x` and reduced modulo 2^BITS reads as the signed sum. */
  lemma OffsetValue(a: seq<Word>, c: seq<Word>, x: int)
    requires Val(c) == Wrap(Val(a) + x)
    ensures SVal(c) == Signed(SVal(a) + x)
  {
    SValWraps(a);
    SValWraps(c);
    WrapOfWrap(Val(a) + x);
    SignedAddLeft(Val(a), x);
  }

  /** A ripple result reduced modulo 2^(64 W), with the padding cleared, is the
      offset pattern: signed addition of `x` modulo 2^BITS. */
  lemma OffsetThroughStore(a: seq<Word>, t: seq<Word>, x: int)
    requires Sized(t) && Val(t) == (Val(a) + x) % STORE_MOD
    ensures Val(Cleared(t)) == (Val(a) + x) % MODULUS
    ensures SVal(Cleared(t)) == Signed(SVal(a) + x)
  {
    ClearedValue(t);
    WrapOfStore(Val(a) + x);
    OffsetValue(a, Cleared(t), x);
  }

  /** The signed reading of the Self `+=` and `-=` as written, whose carry or
      borrow stays in the padding bits: only the low BITS bits are read. */
  lemma StoreSumValue(a: seq<Word>, b: seq<Word>, c: seq<Word>)
    requires Low(c) == Wrap(Val(a) + Val(b))
    ensures SVal(c) == Signed(SVal(a) + SVal(b))
  {
    StoreSumOfValues(Val(a), Val(b), Low(c));
  }

  lemma StoreSumOfValues(va: int, vb: int, lc: nat)
    requires lc == Wrap(va + vb)
    ensures ToSigned(lc) == Signed(Signed(va) + Signed(vb))
  {
    SignedAdd(va, vb);
  }

  lemma StoreDifferenceValue(a: seq<Word>, b: seq<Word>, c: seq<Word>)
    requires Low(c) == Wrap(Val(a) - Val(b))
    ensures SVal(c) == Signed(SVal(a) - SVal(b))
  {
    StoreDifferenceOfValues(Val(a), Val(b), Low(c));
  }

  lemma StoreDifferenceOfValues(va: int, vb: int, lc: nat)
    requires lc == Wrap(va - vb)
    ensures ToSigned(lc) == Signed(Signed(va) - Signed(vb))
  {
    SignedSub(va, vb);
  }

  /** One word of the carry ripple: `v += r` overflows exactly when the new word is
      below `r`. */
  lemma RippleAddStep(s: seq<Word>, i: nat, rw: Word, x: Word)
    requires Sized(s) && i < W && x == WordAdd(s[i], rw) && (i > 0 ==> rw == 1)
    ensures Val(s[i := x]) + (if x < rw then WordPow(i + 1) else 0)
            == Val(s) + (if i == 0 then rw else WordPow(i))
  {
    Dims();
    ValOfTwo(s);
    ValOfTwo(s[i := x]);
    assert WordPow(1) == BASE && WordPow(2) == BASE * BASE;
    if s[i] + rw < BASE {
      ModSmall(s[i] + rw, BASE);
    } else {
      ModAddMultiple(s[i] + rw - BASE, 1, BASE);
      ModSmall(s[i] + rw - BASE, BASE);
    }
  }

  /** One word of the borrow ripple: `v -= r` borrows exactly when `r` exceeds the
      old word. */
  lemma RippleSubStep(s: seq<Word>, i: nat, rw: Word, x: Word)
    requires Sized(s) && i < W && x == WordSub(s[i], rw) && (i > 0 ==> rw == 1)
    ensures Val(s[i := x]) - (if rw > s[i] then WordPow(i + 1) else 0)
            == Val(s) - (if i == 0 then rw else WordPow(i))
  {
    Dims();
    ValOfTwo(s);
    ValOfTwo(s[i := x]);
    assert WordPow(1) == BASE && WordPow(2) == BASE * BASE;
    if rw <= s[i] {
      ModSmall(s[i] - rw, BASE);
    } else {
      ModAddMultiple(s[i] - rw + BASE, -1, BASE);
      ModSmall(s[i] - rw + BASE, BASE);
    }
  }

  /** `INT64_MIN` split as `max` and then 1: `+= min` is `-= max` then `-= 1`. */
  lemma MinimumSplit(x: int)
    ensures Signed(Signed(x - (INT64_LIMIT - 1)) - 1) == Signed(x + INT64_MIN)
    ensures Signed(Signed(x + (INT64_LIMIT - 1)) + 1) == Signed(x - INT64_MIN)
  {
    SignedAddLeft(x - (INT64_LIMIT - 1), -1);
    SignedAddLeft(x + (INT64_LIMIT - 1), 1);
  }

  /** `x & 0 == 0`, `x | 0 == x` and `x ^ 0 == x` on a word. */
  lemma WordZeroRules(x: Word)
    ensures WordAnd(x, 0) == 0 && WordOr(x, 0) == x && WordXor(x, 0) == x
  {
    Pow2Constants();
    AndZero(x, WORD_BITS);
    OrZero(x, WORD_BITS);
    XorZero(x, WORD_BITS);
  }

  /** How `compare(std::int64_t)` reads the words of a value with the sign of
      `rhs`: a negative value whose last word is not all ones lies below every
      `int64`; otherwise word 0 decides, against `Word(rhs)`. */
  lemma IntCompareCases(s: seq<Word>, rhs: int)
    requires Sized(s) && Clean(s) && IsInt64(rhs) && (SVal(s) < 0) == (rhs < 0)
    ensures SVal(s) < 0 && s[W - 1] != LAST_MOD - 1 ==> SVal(s) < rhs
    ensures SVal(s) < 0 && s[W - 1] == LAST_MOD - 1 ==> SVal(s) - rhs == s[0] - (rhs + BASE)
    ensures SVal(s) >= 0 && s[W - 1] != 0 ==> SVal(s) > rhs
    ensures SVal(s) >= 0 && s[W - 1] == 0 ==> SVal(s) == s[0]
  {
    Constants();
    ValOfTwo(s);
    CleanIsBounded(s);
    ModSmall(Val(s), MODULUS);
  }

  /** Below 2^(BITS-1), or both 2^(BITS-1): the operand pairs the signed compares
      of `udivmod` see, on which they agree with the unsigned order (on values
      that are never negative here). */
  predicate SameHalves(r: int, d: int, dv: int)
  {
    (r < SIGN && d < SIGN && dv < SIGN) || (r == SIGN && d == SIGN && dv == SIGN)
  }

  lemma HalvesCompare(a: seq<Word>, b: seq<Word>)
    requires Sized(a) && Sized(b) && Clean(a) && Clean(b)
    requires (Val(a) < SIGN) == (Val(b) < SIGN)
    ensures Sign(SVal(a) - SVal(b)) == Sign(Val(a) - Val(b))
  {
    CleanPattern(a);
    CleanPattern(b);
    SameSignCompare(a, b);
  }

  /** A shift by at least 128 bits leaves nothing. */
  lemma ShiftedOut(a: seq<Word>, n: nat)
    requires Sized(a) && n >= WORD_BITS * W
    ensures Sized(LShifted(a, n)) && Clean(LShifted(a, n)) && Val(LShifted(a, n)) == 0
  {
    Constants();
    var t := LShifted(a, n);
    assert Min(n / WORD_BITS, W) == W;
    assert t[0] == 0 && t[1] == 0;
    ValOfTwo(t);
  }

  /** Where the division loop of `udivmod` starts, past the early exit: the shift
      by the difference of the leading-zero counts, and the loop from there gives
      `LegacyDivMod`. A negative shift, for the minimum as divisor, skips the loop
      whatever the shifted divisor holds. */
  lemma LoopEntry(bigN: nat, bigD: nat, s0: int, dv: nat)
    requires bigN < MODULUS && bigD < MODULUS
    requires IsMagnitude(ToSigned(bigN)) && IsMagnitude(ToSigned(bigD)) && ToSigned(bigD) <= ToSigned(bigN)
    requires s0 == Clz(bigD) - Clz(bigN)
    requires s0 >= 0 ==> dv == bigD * Pow2(s0)
    ensures -(BITS as int) <= s0 < BITS
    ensures s0 >= 0 ==> SameHalves(bigN, bigD, dv)
    ensures var res := DivLoop(false, bigD, 0, bigN, dv, s0);
      LegacyDivMod(ToSigned(bigN), ToSigned(bigD)) == (Signed(res.0), Signed(res.1))
  {
    EntryShift(bigN, bigD, s0);
    if bigD == SIGN {
      MinimumDivisorEntry(bigN, s0, dv);
    } else {
      UnsignedOrder(bigN, bigD);
      UnsignedLoopEntry(bigN, bigD, s0, dv);
      assert ToSigned(bigN) == bigN && ToSigned(bigD) == bigD;
    }
  }

  /** Between plain values the loop from the entry shift is the division
      `UDivModValues` describes. */
  lemma UnsignedLoopEntry(bigN: nat, bigD: nat, s0: int, dv: nat)
    requires bigD <= bigN < SIGN && s0 == Clz(bigD) - Clz(bigN)
    requires s0 >= 0 ==> dv == bigD * Pow2(s0)
    ensures DivLoop(false, bigD, 0, bigN, dv, s0) == UDivModValues(false, bigN, bigD)
  {
    if bigD == bigN {
      assert s0 == 0 && Pow2(0) == 1 && dv == bigD;
      assert DivLoop(false, bigD, 0, bigN, dv, s0) == (WithBit(0, 0), 0);
      assert WithBit(0, 0) == 1;
    } else {
      ShiftNonnegative(bigN, bigD);
    }
  }

  /** The minimum as divisor: subtracted once from itself, and otherwise a
      negative shift. */
  lemma MinimumDivisorEntry(bigN: nat, s0: int, dv: nat)
    requires bigN < MODULUS && IsMagnitude(ToSigned(bigN))
    requires s0 == Clz(SIGN) - Clz(bigN)
    requires s0 >= 0 ==> dv == SIGN * Pow2(s0)
    ensures -(BITS as int) <= s0 < BITS
    ensures s0 >= 0 ==> SameHalves(bigN, SIGN, dv)
    ensures var res := DivLoop(false, SIGN, 0, bigN, dv, s0);
      LegacyDivMod(ToSigned(bigN), -(SIGN as int)) == (Signed(res.0), Signed(res.1))
  {
    ClzOfSign();
    ModSmall(0, MODULUS);
    if bigN == SIGN {
      assert s0 == 0 && dv == SIGN;
      ModSmall(1, MODULUS);
      assert DivLoop(false, SIGN, 0, bigN, dv, s0) == (1, 0);
    } else {
      assert bigN < SIGN;
      if bigN > 0 {
        ClzOfUnsigned(bigN);
      }
      SignedInRange(bigN);
    }
  }

  /** 2^(BITS-1) has no leading zero. */
  lemma ClzOfSign()
    ensures Clz(SIGN) == 0
  {
    Constants();
    PowerConstants();
    Log2Unique(SIGN, BITS - 1);
  }

  /** The shift `udivmod` starts from, and the divisor it aligns. */
  lemma EntryShift(bigN: nat, bigD: nat, s0: int)
    requires bigN < MODULUS && bigD < MODULUS
    requires IsMagnitude(ToSigned(bigN)) && IsMagnitude(ToSigned(bigD)) && ToSigned(bigD) <= ToSigned(bigN)
    requires s0 == Clz(bigD) - Clz(bigN)
    ensures -(BITS as int) <= s0 < BITS
    ensures s0 >= 0 ==> SameHalves(bigN, bigD, bigD * Pow2(s0))
  {
    if bigD == SIGN {
      MinimumEntryShift(bigN, s0);
    } else {
      UnsignedOrder(bigN, bigD);
      UnsignedEntryShift(bigN, bigD, s0);
    }
  }

  /** With the minimum as divisor the shift is negative unless the numerator is
      the minimum too. */
  lemma MinimumEntryShift(bigN: nat, s0: int)
    requires bigN < MODULUS && IsMagnitude(ToSigned(bigN))
    requires s0 == Clz(SIGN) - Clz(bigN)
    ensures -(BITS as int) <= s0 < BITS
    ensures s0 >= 0 ==> bigN == SIGN
  {
    ClzOfSign();
    if s0 >= 0 {
      TopBitSet(bigN);
      assert ToSigned(bigN) == bigN - MODULUS;
    }
  }

  /** No leading zeros means the sign bit is set. */
  lemma TopBitSet(v: nat)
    requires v < MODULUS && Clz(v) == 0
    ensures v >= SIGN
  {
    ClzBounds(v);
    assert Pow2(BITS - 1) == SIGN by {
      PowerConstants();
    }
  }

  /** A divisor other than the minimum, at most the numerator in the signed
      order, is a plain value at most the numerator. */
  lemma UnsignedOrder(bigN: nat, bigD: nat)
    requires bigN < MODULUS && bigD < MODULUS && bigD != SIGN
    requires IsMagnitude(ToSigned(bigN)) && IsMagnitude(ToSigned(bigD)) && ToSigned(bigD) <= ToSigned(bigN)
    ensures bigD <= bigN < SIGN
  {
  }

  /** Between plain values the shift is non-negative and the aligned divisor
      stays below the sign bit. */
  lemma UnsignedEntryShift(bigN: nat, bigD: nat, s0: int)
    requires bigD <= bigN < SIGN && s0 == Clz(bigD) - Clz(bigN)
    ensures 0 <= s0 < BITS && bigD * Pow2(s0) < SIGN
  {
    if bigD == 0 {
      if bigN > 0 {
        ClzOfUnsigned(bigN);
      }
      assert 0 <= s0 < BITS;
      assert bigD * Pow2(s0) == 0;
    } else if bigD == bigN {
      assert s0 == 0;
      assert Pow2(0) == 1;
    } else {
      DivideStart(bigN, bigD, s0);
      ClzOfUnsigned(bigN);
      MulLe(bigD, Pow2(s0), bigD, Pow2(s0));
      var dv: nat := bigD * Pow2(s0);
      AlignedBelowSign(dv, Clz(bigN));
    }
  }

  /** Below 2^(BITS - c) with at least one leading zero is below the sign bit. */
  lemma AlignedBelowSign(x: nat, c: nat)
    requires 1 <= c <= BITS && x < Pow2(BITS - c)
    ensures x < SIGN
  {
    PowerConstants();
    Pow2MonotoneTo(BITS - c, BITS - 1, SIGN);
  }

  lemma Pow2MonotoneTo(a: nat, b: nat, p: nat)
    requires a <= b && Pow2(b) == p
    ensures Pow2(a) <= p
  {
    Pow2Monotone(a, b);
  }

  // ---------------------------------------------------------------------
  // Word loops of large.h
  // ---------------------------------------------------------------------

  /** `for (i = 1; i < words_; ++i) v_[i] = 0;` of the `int64` constructor. */
  method ZeroUpper(d: array<Word>)
    requires d.Length == W
    modifies d
    ensures d[..] == [old(d[0]), 0]
  {
    Dims();
    for i := 1 to W
      invariant d[0] == old(d[0])
      invariant forall j :: 1 <= j < i ==> d[j] == 0
    {
      d[i] := 0;
    }
    assert d[..] == [old(d[0]), 0];
  }

  /** The carry ripple of `+= std::int64_t`: `v += rhs_w; if (v >= rhs_w) break;
      rhs_w = 1;` word by word, without the padding clear that follows. */
  method RippleAdd(d: array<Word>, w: Word)
    requires d.Length == W
    modifies d
    ensures Val(d[..]) == (old(Val(d[..])) + w) % STORE_MOD
  {
    ghost var a := Val(d[..]);
    var rw: Word := w;
    var i := 0;
    while i < W
      invariant 0 <= i <= W
      invariant i > 0 ==> rw == 1
      invariant Val(d[..]) + (if i == 0 then rw else WordPow(i)) == a + w
    {
      ghost var s := d[..];
      var x: Word := WordAdd(d[i], rw);
      d[i] := x;
      assert d[..] == s[i := x];
      RippleAddStep(s, i, rw, x);
      if x >= rw {
        ValSizedBound(d[..]);
        ModSmall(Val(d[..]), STORE_MOD);
        return;
      }
      rw := 1;
      i := i + 1;
    }
    WholePrefix(d[..]);
    ValSizedBound(d[..]);
    ModAddMultiple(Val(d[..]), 1, STORE_MOD);
    ModSmall(Val(d[..]), STORE_MOD);
  }

  /** The borrow ripple of `-= std::int64_t`: `tmp = v; v -= rhs_w; if (rhs_w <=
      tmp) break; rhs_w = 1;` word by word, without the padding clear that
      follows. */
  method RippleSub(d: array<Word>, w: Word)
    requires d.Length == W
    modifies d
    ensures Val(d[..]) == (old(Val(d[..])) - w) % STORE_MOD
  {
    ghost var a := Val(d[..]);
    var rw: Word := w;
    var i := 0;
    while i < W
      invariant 0 <= i <= W
      invariant i > 0 ==> rw == 1
      invariant Val(d[..]) - (if i == 0 then rw else WordPow(i)) == a - w
    {
      ghost var s := d[..];
      var tmp := d[i];
      var x: Word := WordSub(d[i], rw);
      d[i] := x;
      assert d[..] == s[i := x];
      RippleSubStep(s, i, rw, x);
      if rw <= tmp {
        ValSizedBound(d[..]);
        ModSmall(Val(d[..]), STORE_MOD);
        return;
      }
      rw := 1;
      i := i + 1;
    }
    WholePrefix(d[..]);
    ValSizedBound(d[..]);
    ModAddMultiple(Val(d[..]), -1, STORE_MOD);
    ModSmall(Val(d[..]), STORE_MOD);
  }

  /** `compare(const Large_ap_int&)`: a negative operand is the smaller when the
      signs differ; otherwise the words decide from the top. */
  method SignedCompare(a: Storage, b: Storage) returns (r: int)
    requires a.Valid() && b.Valid() && Clean(a.data[..]) && Clean(b.data[..])
    ensures r == Sign(SVal(a.data[..]) - SVal(b.data[..]))
  {
    NegativeBit(a.data[..]);
    NegativeBit(b.data[..]);
    var lNeg, rNeg := a.GetBit(BITS - 1), b.GetBit(BITS - 1);
    if lNeg != rNeg {
      r := if lNeg then -1 else 1;
      SignsDiffer(SVal(a.data[..]), SVal(b.data[..]), r);
      return;
    }
    r := a.Compare(b);
    SameSignCompare(a.data[..], b.data[..]);
  }

  /** The loop of large.h's `udivmod`, from bit `shift0` down: the compares are
      the signed ones, `remainder -= divisor` skips the padding clear and the
      divisor is halved by the sign-filling `>>= 1`. On the operands `/=` and
      `%=` hand it this is `DivLoop` with the sign-filling halving. */
  method LegacyDivideLoop(rem: Storage, quo: Storage, divisor: Storage, den: Storage, shift0: int)
    requires Division(rem, quo, divisor, den) && shift0 < BITS
    requires shift0 >= 0 ==> SameHalves(Val(rem.data[..]), Val(den.data[..]), Val(divisor.data[..]))
    modifies rem.data, quo.data, divisor.data
    ensures Clean(rem.data[..]) && Clean(quo.data[..])
    ensures (Val(quo.data[..]), Val(rem.data[..])) ==
            DivLoop(false, Val(den.data[..]), old(Val(quo.data[..])), old(Val(rem.data[..])), old(Val(divisor.data[..])), shift0)
  {
    ghost var res := DivLoop(false, Val(den.data[..]), Val(quo.data[..]), Val(rem.data[..]), Val(divisor.data[..]), shift0);
    var shift := shift0;
    while shift >= 0
      invariant Division(rem, quo, divisor, den) && shift < BITS
      invariant shift >= 0 ==> SameHalves(Val(rem.data[..]), Val(den.data[..]), Val(divisor.data[..]))
      invariant DivLoop(false, Val(den.data[..]), Val(quo.data[..]), Val(rem.data[..]), Val(divisor.data[..]), shift) == res
      decreases shift + 1
    {
      var stop := LegacyDivideStep(rem, quo, divisor, den, shift);
      if stop {
        return;
      }
      shift := shift - 1;
    }
  }

  /** One pass of the loop: `if (remainder < denum) break;`, the compare of the
      divisor with the remainder, the subtraction and quotient bit, the break on
      an exact match, and `divisor >>= 1`. */
  method LegacyDivideStep(rem: Storage, quo: Storage, divisor: Storage, den: Storage, shift: nat) returns (stop: bool)
    requires Division(rem, quo, divisor, den) && shift < BITS
    requires SameHalves(Val(rem.data[..]), Val(den.data[..]), Val(divisor.data[..]))
    modifies rem.data, quo.data, divisor.data
    ensures Division(rem, quo, divisor, den)
    ensures !stop ==> SameHalves(Val(rem.data[..]), Val(den.data[..]), Val(divisor.data[..]))
    ensures var before := DivLoop(false, Val(den.data[..]), old(Val(quo.data[..])), old(Val(rem.data[..])), old(Val(divisor.data[..])), shift);
            if stop then (Val(quo.data[..]), Val(rem.data[..])) == before
            else DivLoop(false, Val(den.data[..]), Val(quo.data[..]), Val(rem.data[..]), Val(divisor.data[..]), shift - 1) == before
  {
    ghost var d, q, r, dv := Val(den.data[..]), Val(quo.data[..]), Val(rem.data[..]), Val(divisor.data[..]);
    var c := HalvesCompared(rem, den);
    if c < 0 {
      assert DivLoop(false, d, q, r, dv, shift) == (q, r);
      return true;
    }
    var comp := HalvesCompared(divisor, rem);
    if comp <= 0 {
      SubtractAt(rem, quo, divisor, shift);
      if comp == 0 {
        assert DivLoop(false, d, q, r, dv, shift) == (WithBit(q, shift), 0);
        return true;
      }
    }
    ghost var q', r' := Val(quo.data[..]), Val(rem.data[..]);
    assert DivLoop(false, d, q, r, dv, shift) == DivLoop(false, d, q', r', Halving(false, dv), shift - 1);
    HalvesKept(r, d, dv, r');
    HalveAsWritten(divisor);
    stop := false;
  }

  /** The signed `compare` of two patterns on the same side of 2^(BITS-1)
      orders them as the unsigned compare would. */
  method HalvesCompared(a: Storage, b: Storage) returns (c: int)
    requires a.Valid() && b.Valid() && Clean(a.data[..]) && Clean(b.data[..])
    requires (Val(a.data[..]) < SIGN) == (Val(b.data[..]) < SIGN)
    ensures c == Sign(Val(a.data[..]) - Val(b.data[..]))
  {
    HalvesCompare(a.data[..], b.data[..]);
    c := SignedCompare(a, b);
  }

  /** A pass that goes on leaves every operand below 2^(BITS-1). */
  lemma HalvesKept(r: nat, d: nat, dv: nat, r': nat)
    requires SameHalves(r, d, dv) && r != SIGN && r' <= r
    ensures SameHalves(r', d, Halving(false, dv))
  {
  }

  /** `divisor >>= 1` in the loop of large.h: the sign-filling shift. */
  method HalveAsWritten(divisor: Storage)
    requires divisor.Valid() && Clean(divisor.data[..])
    modifies divisor.data
    ensures Clean(divisor.data[..]) && Val(divisor.data[..]) == Halving(false, old(Val(divisor.data[..])))
  {
    HalvedDivisor(divisor.data[..]);
    divisor.RShift(1);
  }

  class LegacyInt {
    /** `v_` */
    const v_: Storage

    ghost predicate Valid()
      reads v_, v_.data
    {
      v_.Valid() && Clean(v_.data[..])
    }

    /** The signed integer the words stand for. */
    ghost function Value(): (v: int)
      reads v_, v_.data
      ensures InRange(v)
    {
      SVal(v_.data[..])
    }

    /** The words read as an unsigned number below 2^BITS. */
    ghost function Pattern(): (n: nat)
      reads v_, v_.data
      requires Valid()
      ensures n < MODULUS
    {
      CleanIsBounded(v_.data[..]);
      Val(v_.data[..])
    }

    // -------------------------------------------------------------------
    // Construction
    // -------------------------------------------------------------------

    /** `Large_ap_int(Operand v)`: the magnitude in word 0, zeros above, negated for
        a negative `v`. For `INT64_MIN` the source's `-v` overflows; the word it
        is meant to store, 2^63, is what the model stores. */
    constructor (v: int)
      requires IsInt64(v)
      ensures Valid() && fresh(v_) && fresh(v_.data) && Value() == v
    {
      v_ := new Storage(0);
      new;
      if v < 0 {
        v_.data[0] := -v;
        ZeroUpper(v_.data);
        WordValue(-v);
        NegateSelf();
        SignedInRange(v);
      } else {
        v_.data[0] := v;
        ZeroUpper(v_.data);
        WordValue(v);
      }
    }

    /** The copy constructor. */
    constructor Copy(src: LegacyInt)
      requires src.Valid()
      ensures Valid() && fresh(v_) && fresh(v_.data) && v_.data[..] == src.v_.data[..]
    {
      v_ := new Storage.Copy(src.v_);
    }

    /** `Large_ap_int(std::string_view v)`: an optional `-`, then digits up to the
        first other character, each one as `*this *= 10; *this += d`; the result
        is negated for a leading `-`. */
    constructor FromString(v: string)
      ensures Valid() && fresh(v_) && fresh(v_.data) && Value() == ParseSigned(v)
    {
      v_ := new Storage(0);
      new;
      SignedInRange(0);
      if v == [] {
        return;
      }
      var neg := v[0] == '-';
      var start := if neg then 1 else 0;
      var i := ReadDigits(v, start);
      ghost var digits := v[start..i];
      assert (if neg then v[1..] else v) == v[start..];
      if neg {
        NegateSelf();
        SignedNeg(DecimalValue(digits));
      }
    }

    /** One pass of the string constructor's loop: `*this *= 10; *this += d`. */
    method PushDigit(d: nat)
      requires Valid() && d < 10
      modifies v_.data
      ensures Valid() && Value() == Signed(old(Value()) * 10 + d)
    {
      ghost var x := Value();
      MulAssignInt(10);
      ghost var y := Value();
      AddAssignInt(d);
      SignedAddLeft(x * 10, d);
      assert y == Signed(x * 10) && Value() == Signed(y + d);
    }

    /** The string constructor's loop: digits from `start` on, until the text ends
        or a character is not a digit. */
    method ReadDigits(v: string, start: nat) returns (i: nat)
      requires Valid() && Value() == 0 && start <= |v|
      modifies v_.data
      ensures Valid() && start <= i <= |v| && LeadingDigits(v[start..]) == v[start..i]
      ensures Value() == Signed(DecimalValue(v[start..i]))
    {
      i := start;
      assert v[start..i] == [];
      while i < |v| && IsDigit(v[i])
        invariant start <= i <= |v|
        invariant Valid() && AllDigits(v[start..i])
        invariant Value() == Signed(DecimalValue(v[start..i]))
        decreases |v| - i
      {
        ghost var before := Value();
        var d := DigitValue(v[i]);
        PushDigit(d);
        DigitRead(v, start, i, before, Value());
        i := i + 1;
      }
      LeadingDigitsFrom(v, start, i);
    }

    // -------------------------------------------------------------------
    // Sign and comparison
    // -------------------------------------------------------------------

    /** `is_negative()`: `get_bit(bits - 1)`. */
    method IsNegative() returns (b: bool)
      requires Valid()
      ensures b <==> Value() < 0
    {
      NegativeBit(v_.data[..]);
      b := v_.GetBit(BITS - 1);
    }

    /** `compare(const Large_ap_int&)` */
    method Compare(rhs: LegacyInt) returns (r: int)
      requires Valid() && rhs.Valid()
      ensures r == Sign(Value() - rhs.Value())
    {
      r := SignedCompare(v_, rhs.v_);
    }

    /** `compare(Operand rhs)`: on equal signs, a negative value must have its last
        word all ones and a non-negative one its upper words zero before word 0
        is compared with `Word(rhs)`. The loop over the middle words of the
        negative branch has no word to visit at two words. */
    method CompareInt(rhs: int) returns (r: int)
      requires Valid() && IsInt64(rhs)
      ensures r == Sign(Value() - rhs)
    {
      var lNeg := IsNegative();
      var rNeg := rhs < 0;
      if lNeg != rNeg {
        r := if lNeg then -1 else 1;
        SignsDiffer(Value(), rhs, r);
        return;
      }
      Dims();
      IntCompareCases(v_.data[..], rhs);
      if lNeg {
        if v_.data[W - 1] != LAST_MOD - 1 {
          r := -1;
          return;
        }
        var w: Word := rhs + BASE;
        r := if v_.data[0] == w then 0 else if v_.data[0] > w then 1 else -1;
      } else {
        var parts := W - 1;
        while parts > 0
          invariant 0 <= parts <= W - 1
          invariant forall j :: parts < j < W ==> v_.data[j] == 0
        {
          if v_.data[parts] != 0 {
            r := 1;
            return;
          }
          parts := parts - 1;
        }
        r := if v_.data[0] == rhs then 0 else if v_.data[0] > rhs then 1 else -1;
      }
    }

    // -------------------------------------------------------------------
    // Unary operators
    // -------------------------------------------------------------------

    /** Unary `+`: a copy. */
    method Plus() returns (r: LegacyInt)
      requires Valid()
      ensures fresh(r.v_.data) && r.Valid() && r.Value() == Value()
    {
      r := new LegacyInt.Copy(this);
    }

    /** `~`: every word inverted into a fresh value, then the padding cleared. */
    method Complement() returns (r: LegacyInt)
      requires Valid()
      ensures fresh(r.v_.data) && r.Valid() && r.Value() == -Value() - 1
    {
      r := new LegacyInt.Copy(this);
      InvertedValue(r.v_.data[..]);
      r.v_.Invert();
    }

    /** Unary `-`: `~x` then `++`; the most negative value is its own negation. */
    method Negate() returns (r: LegacyInt)
      requires Valid()
      ensures fresh(r.v_.data) && r.Valid() && r.Value() == Signed(-Value())
    {
      r := Complement();
      r.Increment();
    }

    /** `*this = -*this` */
    method NegateSelf()
      requires Valid()
      modifies v_.data
      ensures Valid() && Value() == Signed(-old(Value()))
    {
      var n := Negate();
      v_.Assign(n.v_);
    }

    /** Prefix `++`: `*this += 1`. */
    method Increment()
      requires Valid()
      modifies v_.data
      ensures Valid() && Value() == Signed(old(Value()) + 1)
    {
      AddAssignInt(1);
    }

    /** Postfix `++`: the old value is returned. */
    method PostIncrement() returns (tmp: LegacyInt)
      requires Valid()
      modifies v_.data
      ensures fresh(tmp.v_.data) && tmp.Valid() && tmp.Value() == old(Value())
      ensures Valid() && Value() == Signed(old(Value()) + 1)
    {
      tmp := new LegacyInt.Copy(this);
      AddAssignInt(1);
    }

    /** Prefix `--`: `*this -= 1`. */
    method Decrement()
      requires Valid()
      modifies v_.data
      ensures Valid() && Value() == Signed(old(Value()) - 1)
    {
      SubAssignInt(1);
    }

    /** Postfix `--`: the old value is returned. */
    method PostDecrement() returns (tmp: LegacyInt)
      requires Valid()
      modifies v_.data
      ensures fresh(tmp.v_.data) && tmp.Valid() && tmp.Value() == old(Value())
      ensures Valid() && Value() == Signed(old(Value()) - 1)
    {
      tmp := new LegacyInt.Copy(this);
      SubAssignInt(1);
    }

    // -------------------------------------------------------------------
    // Addition and subtraction
    // -------------------------------------------------------------------

    /** `+= Operand`: `INT64_MIN` as `-= max` then `-= 1`, a negative `rhs` as
        `-= -rhs`, and otherwise the single-word carry ripple. */
    method AddAssignInt(rhs: int)
      requires Valid() && IsInt64(rhs)
      modifies v_.data
      ensures Valid() && Value() == Signed(old(Value()) + rhs)
      decreases if rhs == INT64_MIN then 2 else if rhs < 0 then 1 else 0
    {
      if rhs == INT64_MIN {
        ghost var x := Value();
        SubAssignInt(INT64_LIMIT - 1);
        SubAssignInt(1);
        MinimumSplit(x);
        return;
      }
      if rhs < 0 {
        SubAssignInt(-rhs);
        return;
      }
      AddWord(rhs);
    }

    /** `-= Operand`: `INT64_MIN` as `+= max` then `+= 1`, a negative `rhs` as
        `+= -rhs`, and otherwise the single-word borrow ripple. */
    method SubAssignInt(rhs: int)
      requires Valid() && IsInt64(rhs)
      modifies v_.data
      ensures Valid() && Value() == Signed(old(Value()) - rhs)
      decreases if rhs == INT64_MIN then 2 else if rhs < 0 then 1 else 0
    {
      if rhs == INT64_MIN {
        ghost var x := Value();
        AddAssignInt(INT64_LIMIT - 1);
        AddAssignInt(1);
        MinimumSplit(x);
        return;
      }
      if rhs < 0 {
        AddAssignInt(-rhs);
        return;
      }
      SubWord(rhs);
    }

    /** The tail of `+= Operand` for a non-negative `rhs`: the carry ripple, then
        `clear_unused_bits()`. */
    method AddWord(w: Word)
      requires Valid()
      modifies v_.data
      ensures Valid() && Value() == Signed(old(Value()) + w)
      ensures Pattern() == (old(Pattern()) + w) % MODULUS
    {
      ghost var a := v_.data[..];
      RippleAdd(v_.data, w);
      OffsetThroughStore(a, v_.data[..], w);
      v_.ClearUnusedBits();
    }

    /** The tail of `-= Operand` for a non-negative `rhs`: the borrow ripple, then
        `clear_unused_bits()`. */
    method SubWord(w: Word)
      requires Valid()
      modifies v_.data
      ensures Valid() && Value() == Signed(old(Value()) - w)
      ensures Pattern() == (old(Pattern()) - w) % MODULUS
    {
      ghost var a := v_.data[..];
      RippleSub(v_.data, w);
      OffsetThroughStore(a, v_.data[..], -(w as int));
      v_.ClearUnusedBits();
    }

    /** `+= const Large_ap_int&` with the padding cleared, as `add` of
        int_storage.h does. As written the carry out of bit BITS - 1 stays in the
        padding (`AddAssignAsWritten`). */
    method AddAssign(rhs: LegacyInt)
      requires Valid() && rhs.Valid()
      modifies v_.data
      ensures Valid() && Value() == Signed(old(Value()) + old(rhs.Value()))
    {
      ghost var a, b := v_.data[..], rhs.v_.data[..];
      var carry := v_.Add(rhs.v_);
      SumValue(a, b, v_.data[..]);
    }

    /** `+= const Large_ap_int&` as written: the carry loop and nothing more. The
        signed reading is right, but the padding may hold the carry. */
    method AddAssignAsWritten(rhs: LegacyInt)
      requires Valid() && rhs.Valid()
      modifies v_.data
      ensures v_.Valid()
      ensures Val(v_.data[..]) == (old(Val(v_.data[..])) + old(Val(rhs.v_.data[..]))) % STORE_MOD
      ensures Value() == Signed(old(Value()) + old(rhs.Value()))
    {
      ghost var a, b := v_.data[..], rhs.v_.data[..];
      var carry := AddWords(v_.data, rhs.v_.data);
      ghost var c := v_.data[..];
      ValSizedBound(c);
      AddWrap(Val(c), Val(a) + Val(b), carry);
      if carry {
        ModAddMultiple(Val(c), 1, STORE_MOD);
      }
      ModSmall(Val(c), STORE_MOD);
      StoreSumValue(a, b, c);
    }

    /** `-= const Large_ap_int&` with the padding cleared. As written the borrow
        stays in the padding (`SubAssignAsWritten`). */
    method SubAssign(rhs: LegacyInt)
      requires Valid() && rhs.Valid()
      modifies v_.data
      ensures Valid() && Value() == Signed(old(Value()) - old(rhs.Value()))
    {
      ghost var a, b := v_.data[..], rhs.v_.data[..];
      var borrow := v_.Subtract(rhs.v_);
      ghost var d := v_.data[..];
      v_.ClearUnusedBits();
      ClearedValue(d);
      DifferenceValue(a, b, v_.data[..]);
    }

    /** `-= const Large_ap_int&` as written: the borrow loop and nothing more. */
    method SubAssignAsWritten(rhs: LegacyInt)
      requires Valid() && rhs.Valid()
      modifies v_.data
      ensures v_.Valid()
      ensures Val(v_.data[..]) == (old(Val(v_.data[..])) - old(Val(rhs.v_.data[..]))) % STORE_MOD
      ensures Value() == Signed(old(Value()) - old(rhs.Value()))
    {
      ghost var a, b := v_.data[..], rhs.v_.data[..];
      var borrow := v_.Subtract(rhs.v_);
      WrapOfStore(Val(a) - Val(b));
      StoreDifferenceValue(a, b, v_.data[..]);
    }

    /** Binary `+` */
    method Add(rhs: LegacyInt) returns (r: LegacyInt)
      requires Valid() && rhs.Valid()
      ensures fresh(r.v_.data) && r.Valid() && r.Value() == Signed(Value() + rhs.Value())
    {
      r := new LegacyInt.Copy(this);
      r.AddAssign(rhs);
      assert v_.data[..] == old(v_.data[..]) && rhs.v_.data[..] == old(rhs.v_.data[..]);
    }

    method AddInt(rhs: int) returns (r: LegacyInt)
      requires Valid() && IsInt64(rhs)
      ensures fresh(r.v_.data) && r.Valid() && r.Value() == Signed(Value() + rhs)
    {
      r := new LegacyInt.Copy(this);
      r.AddAssignInt(rhs);
    }

    /** Binary `-` */
    method Sub(rhs: LegacyInt) returns (r: LegacyInt)
      requires Valid() && rhs.Valid()
      ensures fresh(r.v_.data) && r.Valid() && r.Value() == Signed(Value() - rhs.Value())
    {
      r := new LegacyInt.Copy(this);
      r.SubAssign(rhs);
      assert v_.data[..] == old(v_.data[..]) && rhs.v_.data[..] == old(rhs.v_.data[..]);
    }

    method SubInt(rhs: int) returns (r: LegacyInt)
      requires Valid() && IsInt64(rhs)
      ensures fresh(r.v_.data) && r.Valid() && r.Value() == Signed(Value() - rhs)
    {
      r := new LegacyInt.Copy(this);
      r.SubAssignInt(rhs);
    }

    // -------------------------------------------------------------------
    // Multiplication
    // -------------------------------------------------------------------

    /** `unsigned_mul(rhs)`: a fresh value gets the word-by-word product of the
        pattern and `rhs`, its padding cleared; `*this` is unchanged. */
    method UnsignedMul(rhs: Word) returns (result: LegacyInt)
      requires Valid()
      ensures fresh(result.v_.data) && result.Valid()
      ensures result.Pattern() == (Pattern() * rhs) % MODULUS
    {
      result := new LegacyInt(0);
      ghost var a := Val(v_.data[..]);
      var carry := MulWords(v_.data, result.v_.data, rhs);
      ghost var s := result.v_.data[..];
      result.v_.ClearUnusedBits();
      ClearedValue(s);
      ValSizedBound(s);
      MulWrap(Val(s), a * rhs, carry);
    }

    /** `*= Operand`: the minimum is applied as `*2` then `*(min / 2)`; a negative
        factor negates `*this` first; the magnitude of `*this` then goes through
        `unsigned_mul` and the sign is put back. */
    method MulAssignInt(rhs: int)
      requires Valid() && IsInt64(rhs)
      modifies v_.data
      ensures Valid() && Value() == Signed(old(Value()) * rhs)
      decreases if rhs == INT64_MIN then 1 else 0
    {
      ghost var x0 := Value();
      if rhs == INT64_MIN {
        MulAssignInt(2);
        MulAssignInt(INT64_MIN / 2);
        MinimumProduct(x0);
        return;
      }
      var r := rhs;
      if r < 0 {
        NegateSelf();
        r := -r;
        NegatedProduct(x0, rhs);
      }
      MulMagnitude(r);
    }

    /** The tail of `*= Operand` once the factor is non-negative. */
    method MulMagnitude(r: Word)
      requires Valid()
      modifies v_.data
      ensures Valid() && Value() == Signed(old(Value()) * r)
    {
      ghost var x1 := Value();
      var neg := IsNegative();
      if neg {
        NegateSelf();
      }
      ghost var a := v_.data[..];
      ghost var v := Val(a);
      MagnitudeWrap(a, x1, neg);
      var p := UnsignedMul(r);
      v_.Assign(p.v_);
      ProductPattern(a, v_.data[..], r);
      ghost var m := Value();
      if neg {
        NegateSelf();
      }
      MagnitudeProduct(v, x1, r, neg, m, Value());
    }

    /** `*=`: `*this = *this * rhs`. */
    method MulAssign(rhs: LegacyInt)
      requires Valid() && rhs.Valid()
      modifies v_.data
      ensures Valid() && Value() == Signed(old(Value()) * old(rhs.Value()))
    {
      var p := Mul(rhs);
      v_.Assign(p.v_);
    }

    /** `* Operand` */
    method MulInt(rhs: int) returns (r: LegacyInt)
      requires Valid() && IsInt64(rhs)
      ensures fresh(r.v_.data) && r.Valid() && r.Value() == Signed(Value() * rhs)
    {
      r := new LegacyInt.Copy(this);
      r.MulAssignInt(rhs);
    }

    /** `a` and `b` of binary `*`: a copy, negated when negative, so that its words
        hold the magnitude. */
    method Magnitude() returns (a: LegacyInt, negative: bool)
      requires Valid()
      ensures fresh(a.v_.data) && a.Valid()
      ensures negative == (Value() < 0) && Val(a.v_.data[..]) == Abs(Value())
    {
      a := new LegacyInt.Copy(this);
      negative := a.IsNegative();
      if negative {
        a.NegateSelf();
      }
      MagnitudePattern(a.v_.data[..], Value());
    }

    /** `tmp` of binary `*`: `unsigned_mul(w)`, shifted up by `i` words. */
    method ShiftedProduct(w: Word, i: nat) returns (tmp: LegacyInt)
      requires Valid() && i < W
      ensures fresh(tmp.v_.data) && tmp.Valid()
      ensures Val(tmp.v_.data[..]) == Wrap(Wrap(Val(v_.data[..]) * w) * WordPow(i))
    {
      tmp := UnsignedMul(w);
      Dims();
      Pow2Constants();
      tmp.ShlAssign(WORD_BITS * i);
      assert WordPow(i) == Pow2(WORD_BITS * i) by {
        if i == 1 {
          assert WordPow(1) == BASE;
        }
      }
    }

    /** The loop of binary `*`: one shifted partial product per word of `b`,
        accumulated with `+=`, gives the product of the two patterns modulo
        2^BITS. */
    method MagnitudeTimes(b: LegacyInt) returns (result: LegacyInt)
      requires Valid() && b.Valid()
      ensures fresh(result.v_.data) && result.Valid()
      ensures Val(result.v_.data[..]) == Wrap(Val(v_.data[..]) * Val(b.v_.data[..]))
    {
      ghost var va, bw := Val(v_.data[..]), b.v_.data[..];
      result := new LegacyInt(0);
      Dims();
      assert Val(bw[..0]) == 0;
      for i := 0 to W
        invariant fresh(result.v_.data) && result.Valid()
        invariant Val(result.v_.data[..]) == Wrap(va * Val(bw[..i]))
      {
        ghost var acc := Val(result.v_.data[..]);
        var tmp := ShiftedProduct(b.v_.data[i], i);
        ghost var t := Val(tmp.v_.data[..]);
        result.AddAssignPattern(tmp);
        ValPrefix(bw, i);
        MulLoopStep(va, Val(bw[..i]), bw[i], WordPow(i), acc);
      }
      ValOfPrefixes(bw);
      WrapOfWrap(va * Val(bw));
    }

    /** `+=` on patterns: the clearing `AddAssign` read modulo 2^BITS. */
    method AddAssignPattern(rhs: LegacyInt)
      requires Valid() && rhs.Valid()
      modifies v_.data
      ensures Valid()
      ensures Val(v_.data[..]) == (old(Val(v_.data[..])) + old(Val(rhs.v_.data[..]))) % MODULUS
    {
      var carry := v_.Add(rhs.v_);
    }

    /** Binary `*`: schoolbook multiplication of the magnitudes, then the sign
        applied. */
    method Mul(rhs: LegacyInt) returns (result: LegacyInt)
      requires Valid() && rhs.Valid()
      ensures fresh(result.v_.data) && result.Valid()
      ensures result.Value() == Signed(Value() * rhs.Value())
    {
      ghost var x, y := Value(), rhs.Value();
      var neg := false;
      var a, negA := Magnitude();
      var b, negB := rhs.Magnitude();
      if negA {
        neg := !neg;
      }
      if negB {
        neg := !neg;
      }
      ghost var va, vb := Val(a.v_.data[..]), Val(b.v_.data[..]);
      result := a.MagnitudeTimes(b);
      ghost var p := Val(result.v_.data[..]);
      CleanPattern(result.v_.data[..]);
      if neg {
        result.NegateSelf();
      }
      ProductOfMagnitudes(va, vb, x, y, negA, negB, p, result.Value());
    }

    // -------------------------------------------------------------------
    // Division and remainder
    // -------------------------------------------------------------------

    /** `count_leading_zeros()`: the same loop as in int_storage.h. */
    method CountLeadingZeros() returns (r: nat)
      requires Valid()
      ensures r == Clz(Pattern())
    {
      CleanLow(v_.data[..]);
      r := v_.CountLeadingZeros();
    }

    /** `udivmod(denum)` as written, on the operands `/=` and `%=` give it:
        `(0, *this)` when `denum > *this` in the signed order, and otherwise the
        divisor shifted left by the difference of the leading-zero counts, taken
        as an unsigned shift count, and the loop. */
    method UDivMod(den: LegacyInt) returns (quo: LegacyInt, rem: LegacyInt)
      requires Valid() && den.Valid() && IsMagnitude(Value()) && IsMagnitude(den.Value())
      ensures fresh(quo.v_.data) && fresh(rem.v_.data) && quo.Valid() && rem.Valid()
      ensures (quo.Value(), rem.Value()) == LegacyDivMod(Value(), den.Value())
    {
      var gt := SignedCompare(den.v_, v_);
      if gt > 0 {
        quo := new LegacyInt(0);
        rem := new LegacyInt.Copy(this);
        return;
      }
      quo, rem := LongDivision(den);
    }

    /** `udivmod` past its early exit, `denum <= *this`. */
    method LongDivision(den: LegacyInt) returns (quo: LegacyInt, rem: LegacyInt)
      requires Valid() && den.Valid() && IsMagnitude(Value()) && IsMagnitude(den.Value())
      requires den.Value() <= Value()
      ensures fresh(quo.v_.data) && fresh(rem.v_.data) && quo.Valid() && rem.Valid()
      ensures (quo.Value(), rem.Value()) == LegacyDivMod(Value(), den.Value())
    {
      ghost var n, d := Pattern(), den.Pattern();
      CleanLow(v_.data[..]);
      CleanLow(den.v_.data[..]);
      var shift := ShiftOf(den);
      EntryShift(n, d, shift);
      var divisor := new LegacyInt.Copy(den);
      divisor.AlignTo(shift);
      LoopEntry(n, d, shift, divisor.Pattern());
      quo, rem := DivideFrom(den, divisor, shift);
      CleanPattern(quo.v_.data[..]);
      CleanPattern(rem.v_.data[..]);
    }

    /** `result{0}`, `remainder = *this` and the loop, from the aligned divisor. */
    method DivideFrom(den: LegacyInt, divisor: LegacyInt, shift: int) returns (quo: LegacyInt, rem: LegacyInt)
      requires Valid() && den.Valid() && divisor.Valid() && shift < BITS
      requires divisor.v_.data != den.v_.data && divisor.v_.data != v_.data
      requires shift >= 0 ==> SameHalves(Pattern(), den.Pattern(), divisor.Pattern())
      modifies divisor.v_.data
      ensures fresh(quo.v_.data) && fresh(rem.v_.data) && quo.Valid() && rem.Valid()
      ensures (quo.Pattern(), rem.Pattern()) == DivLoop(false, den.Pattern(), 0, Pattern(), old(divisor.Pattern()), shift)
    {
      quo := new LegacyInt(0);
      rem := new LegacyInt.Copy(this);
      ZeroPattern(quo.v_.data[..]);
      LegacyDivideLoop(rem.v_, quo.v_, divisor.v_, den.v_, shift);
    }

    /** `std::int64_t(den_leadind_z - num_leadind_z)` */
    method ShiftOf(den: LegacyInt) returns (shift: int)
      requires Valid() && den.Valid()
      ensures shift == Clz(den.Pattern()) - Clz(Pattern())
    {
      var numZeros := CountLeadingZeros();
      var denZeros := den.CountLeadingZeros();
      shift := denZeros as int - numZeros;
    }

    /** `divisor <<= shift` with the signed shift taken as an unsigned count: a
        negative shift clears the divisor. */
    method AlignTo(shift: int)
      requires Valid() && -(BITS as int) <= shift < BITS
      requires shift >= 0 ==> Pattern() * Pow2(shift) < MODULUS
      modifies v_.data
      ensures Valid() && (shift >= 0 ==> Pattern() == old(Pattern()) * Pow2(shift))
    {
      ghost var ds := v_.data[..];
      CleanLow(ds);
      Constants();
      if shift >= 0 {
        v_.LShift(shift);
        AlignedDivisor(ds, shift, v_.data[..]);
      } else {
        v_.LShift(shift + BASE);
        ShiftedOut(ds, shift + BASE);
      }
    }

    /** What `/=` and `%=` share as written once the divisor is copied and
        `*this` holds the dividend's magnitude: the copy is made non-negative,
        flipping `neg`, the operands go through `udivmod`, the quotient or the
        remainder replaces the words and is negated when `neg` is set. */
    method DivideAsWritten(rhsV: LegacyInt, neg: bool, remainder: bool)
      requires Valid() && rhsV.Valid() && rhsV.v_.data != v_.data && IsMagnitude(Value())
      modifies v_.data, rhsV.v_.data
      ensures Valid()
      ensures var qr := LegacyDivMod(old(Value()), MagnitudeOf(old(rhsV.Value())));
        Value() == Flip(neg != (old(rhsV.Value()) < 0), if remainder then qr.1 else qr.0)
    {
      var negR := rhsV.MakeDivisorNonNegative();
      var flip := neg != negR;
      ghost var m := DivideMagnitudesAsWritten(rhsV, remainder);
      if flip {
        NegateSelf();
      }
    }

    /** `if (rhs_v < 0) { neg = !neg; rhs_v = -rhs_v; }` */
    method MakeDivisorNonNegative() returns (neg: bool)
      requires Valid()
      modifies v_.data
      ensures Valid() && neg == (old(Value()) < 0) && Value() == MagnitudeOf(old(Value()))
    {
      var c := CompareInt(0);
      neg := c < 0;
      if neg {
        NegateSelf();
      }
    }

    /** `std::tie(*this, rem) = udivmod(rhs_v)` or `std::tie(div, *this) =
        udivmod(rhs_v)`. */
    method DivideMagnitudesAsWritten(den: LegacyInt, remainder: bool) returns (ghost m: int)
      requires Valid() && den.Valid() && den.v_.data != v_.data
      requires IsMagnitude(Value()) && IsMagnitude(den.Value())
      modifies v_.data
      ensures var qr := LegacyDivMod(old(Value()), den.Value());
        m == if remainder then qr.1 else qr.0
      ensures Valid() && Value() == m
    {
      var quo, rem := UDivMod(den);
      m := if remainder then rem.Value() else quo.Value();
      v_.Assign(if remainder then rem.v_ else quo.v_);
    }

    /** `if (is_negative()) { neg = !neg; *this = -*this; }` */
    method MakeNonNegative() returns (neg: bool)
      requires Valid()
      modifies v_.data
      ensures Valid() && neg == (old(Value()) < 0) && Value() == MagnitudeOf(old(Value()))
    {
      neg := false;
      var isNeg := IsNegative();
      if isNeg {
        neg := !neg;
        NegateSelf();
      }
    }

    /** `/=` as written: `*this` negated when negative, then `rhs` copied (so
        `x /= x` divides by the negated `x`), then `udivmod` with its signed early
        exit. It agrees with `DivAssign` except on the minimum dividend
        (`LegacyAgrees`, `MinimumDividend`). */
    method DivAssignAsWritten(rhs: LegacyInt)
      requires Valid() && rhs.Valid()
      modifies v_.data
      ensures Valid()
      ensures Value() == LegacyQuotient(old(Value()), if rhs.v_.data == v_.data then MagnitudeOf(old(Value())) else old(rhs.Value()))
    {
      ghost var x, y := Value(), rhs.Value();
      ghost var aliased := rhs.v_.data == v_.data;
      var neg := MakeNonNegative();
      var rhsV := new LegacyInt.Copy(rhs);
      assert rhsV.Value() == if aliased then MagnitudeOf(x) else y;
      DivideAsWritten(rhsV, neg, false);
    }

    /** `%=` as written. */
    method RemAssignAsWritten(rhs: LegacyInt)
      requires Valid() && rhs.Valid()
      modifies v_.data
      ensures Valid()
      ensures Value() == LegacyRemainder(old(Value()), if rhs.v_.data == v_.data then MagnitudeOf(old(Value())) else old(rhs.Value()))
    {
      ghost var x, y := Value(), rhs.Value();
      ghost var aliased := rhs.v_.data == v_.data;
      var neg := MakeNonNegative();
      var rhsV := new LegacyInt.Copy(rhs);
      assert rhsV.Value() == if aliased then MagnitudeOf(x) else y;
      DivideAsWritten(rhsV, neg, true);
    }

    /** What the corrected `/=` and `%=` share once `*this` holds the dividend's
        magnitude: the copy of the divisor is made non-negative, flipping `neg`,
        the magnitudes go through the unsigned long division of int_storage.h,
        and the result is negated when `neg` is set. */
    method DivideBy(rhsV: LegacyInt, neg: bool, remainder: bool, ghost x: int)
      requires Valid() && rhsV.Valid() && rhsV.v_.data != v_.data
      requires InRange(x) && neg == (x < 0) && Val(v_.data[..]) == Abs(x)
      requires rhsV.Value() != 0 || x != -(SIGN as int)
      modifies v_.data, rhsV.v_.data
      ensures Valid()
      ensures Value() == if remainder then Remainder(x, old(rhsV.Value())) else Quotient(x, old(rhsV.Value()))
    {
      ghost var y := rhsV.Value();
      var negated := rhsV.MakeMagnitude();
      assert Val(v_.data[..]) == Abs(x);
      DivideSigned(rhsV, neg != negated, remainder);
      DividedMagnitudes(x, y, neg, Value(), remainder);
    }

    /** The quotient or the remainder of the magnitudes, negated when `flip`
        is set. */
    method DivideSigned(den: LegacyInt, flip: bool, remainder: bool)
      requires Valid() && den.Valid() && den.v_.data != v_.data
      requires Val(v_.data[..]) <= SIGN && Val(den.v_.data[..]) <= SIGN
      requires Val(den.v_.data[..]) != 0 || Val(v_.data[..]) < SIGN
      modifies v_.data
      ensures Valid()
      ensures var qr := UDivModValues(true, old(Val(v_.data[..])), Val(den.v_.data[..]));
        Value() == Signed(WithSign(flip, if remainder then qr.1 else qr.0))
    {
      ghost var n0, d0 := Val(v_.data[..]), Val(den.v_.data[..]);
      ghost var m := DivideMagnitudes(den, remainder);
      assert Val(den.v_.data[..]) == d0;
      ghost var qr := UDivModValues(true, n0, d0);
      assert m == if remainder then qr.1 else qr.0;
      if flip {
        NegateSelf();
      }
      SignedWithSign(flip, m, Value());
    }

    /** `if (is_negative()) { neg = !neg; *this = -*this; }` with `neg` false
        before: the dividend's sign is taken off and reported. */
    method TakeSign() returns (neg: bool)
      requires Valid()
      modifies v_.data
      ensures Valid() && neg == (old(Value()) < 0)
      ensures Val(v_.data[..]) == Abs(old(Value()))
      ensures Value() == if neg then Signed(-old(Value())) else old(Value())
    {
      ghost var x := Value();
      neg := IsNegative();
      if neg {
        NegateSelf();
      }
      MagnitudePattern(v_.data[..], x);
    }

    /** The divisor's sign is taken off: `rhs_v.compare(0) < 0` negates it. */
    method MakeMagnitude() returns (negated: bool)
      requires Valid()
      modifies v_.data
      ensures Valid() && negated == (old(Value()) < 0)
      ensures Val(v_.data[..]) == Abs(old(Value()))
    {
      ghost var y := Value();
      var c := CompareInt(0);
      negated := c < 0;
      if negated {
        NegateSelf();
      }
      MagnitudePattern(v_.data[..], y);
    }

    /** The quotient or the remainder of the two patterns replaces the words. */
    method DivideMagnitudes(den: LegacyInt, remainder: bool) returns (ghost m: nat)
      requires Valid() && den.Valid() && den.v_.data != v_.data
      requires Val(v_.data[..]) <= SIGN && Val(den.v_.data[..]) <= SIGN
      requires Val(den.v_.data[..]) != 0 || Val(v_.data[..]) < SIGN
      modifies v_.data
      ensures var qr := UDivModValues(true, old(Val(v_.data[..])), Val(den.v_.data[..]));
        m == if remainder then qr.1 else qr.0
      ensures Valid() && Value() == Signed(m)
    {
      var quo, rem := v_.UDivMod(den.v_);
      v_.Assign(if remainder then rem else quo);
      m := Val(v_.data[..]);
      CleanPattern(v_.data[..]);
    }

    /** `/=` with the divisor copied before `*this` changes and the magnitudes
        compared without sign in the division, so that the minimum divides as
        any other value. The unsigned division demands a non-zero divisor unless
        the dividend's magnitude is below 2^(BITS-1). */
    method DivAssign(rhs: LegacyInt)
      requires Valid() && rhs.Valid()
      requires rhs.Value() != 0 || Value() != -(SIGN as int)
      modifies v_.data
      ensures Valid() && Value() == Quotient(old(Value()), old(rhs.Value()))
    {
      ghost var x := Value();
      var rhsV := new LegacyInt.Copy(rhs);
      var neg := TakeSign();
      DivideBy(rhsV, neg, false, x);
    }

    /** `/= Operand` */
    method DivAssignInt(rhs: int)
      requires Valid() && IsInt64(rhs)
      requires rhs != 0 || Value() != -(SIGN as int)
      modifies v_.data
      ensures Valid() && Value() == Quotient(old(Value()), rhs)
    {
      var t := new LegacyInt(rhs);
      DivAssign(t);
    }

    /** Binary `/` */
    method Div(rhs: LegacyInt) returns (r: LegacyInt)
      requires Valid() && rhs.Valid()
      requires rhs.Value() != 0 || Value() != -(SIGN as int)
      ensures fresh(r.v_.data) && r.Valid() && r.Value() == Quotient(Value(), rhs.Value())
    {
      r := new LegacyInt.Copy(this);
      r.DivAssign(rhs);
    }

    method DivInt(rhs: int) returns (r: LegacyInt)
      requires Valid() && IsInt64(rhs)
      requires rhs != 0 || Value() != -(SIGN as int)
      ensures fresh(r.v_.data) && r.Valid() && r.Value() == Quotient(Value(), rhs)
    {
      r := new LegacyInt.Copy(this);
      r.DivAssignInt(rhs);
    }

    /** `%=` with the unsigned division; the late copy of `rhs` is kept, since
        `x % x` and `x % -x` are both zero. */
    method RemAssign(rhs: LegacyInt)
      requires Valid() && rhs.Valid()
      requires rhs.Value() != 0 || Value() != -(SIGN as int)
      modifies v_.data
      ensures Valid() && Value() == Remainder(old(Value()), old(rhs.Value()))
    {
      ghost var x, y0 := Value(), rhs.Value();
      var neg := TakeSign();
      var rhsV := new LegacyInt.Copy(rhs);
      ghost var y := rhsV.Value();
      if rhs.v_.data == v_.data {
        assert y == if x < 0 then Signed(-x) else x;
        if x < 0 {
          AbsOfNegation(x);
        }
        AliasedRemainder(x);
      } else {
        assert y == y0;
      }
      DivideBy(rhsV, neg, true, x);
    }

    /** `%= Operand` */
    method RemAssignInt(rhs: int)
      requires Valid() && IsInt64(rhs)
      requires rhs != 0 || Value() != -(SIGN as int)
      modifies v_.data
      ensures Valid() && Value() == Remainder(old(Value()), rhs)
    {
      var t := new LegacyInt(rhs);
      RemAssign(t);
    }

    /** Binary `%` */
    method Rem(rhs: LegacyInt) returns (r: LegacyInt)
      requires Valid() && rhs.Valid()
      requires rhs.Value() != 0 || Value() != -(SIGN as int)
      ensures fresh(r.v_.data) && r.Valid() && r.Value() == Remainder(Value(), rhs.Value())
    {
      r := new LegacyInt.Copy(this);
      r.RemAssign(rhs);
    }

    method RemInt(rhs: int) returns (r: LegacyInt)
      requires Valid() && IsInt64(rhs)
      requires rhs != 0 || Value() != -(SIGN as int)
      ensures fresh(r.v_.data) && r.Valid() && r.Value() == Remainder(Value(), rhs)
    {
      r := new LegacyInt.Copy(this);
      r.RemAssignInt(rhs);
    }

    // -------------------------------------------------------------------
    // Bitwise operators
    // -------------------------------------------------------------------

    /** `&= Unsigned_operand`: word 0 ANDed with `rhs`, every other word zeroed, so
        the operand acts as zero-extended. */
    method AndAssignWord(rhs: Word)
      requires Valid()
      modifies v_.data
      ensures Valid() && v_.data[..] == AndWords(old(v_.data[..]), [rhs, 0])
      ensures Value() == WordAnd(old(v_.data[0]), rhs)
    {
      Dims();
      ghost var s := v_.data[..];
      v_.data[0] := WordAnd(v_.data[0], rhs);
      for i := 1 to W
        invariant v_.data[0] == WordAnd(s[0], rhs)
        invariant forall j :: 1 <= j < i ==> v_.data[j] == 0
      {
        v_.data[i] := 0;
      }
      WordZeroRules(s[1]);
      assert v_.data[..] == [WordAnd(s[0], rhs), 0];
      WordValue(WordAnd(s[0], rhs));
    }

    /** `|= Unsigned_operand`: only word 0 changes. */
    method OrAssignWord(rhs: Word)
      requires Valid()
      modifies v_.data
      ensures Valid() && v_.data[..] == OrWords(old(v_.data[..]), [rhs, 0])
    {
      Dims();
      ghost var s := v_.data[..];
      v_.data[0] := WordOr(v_.data[0], rhs);
      WordZeroRules(s[1]);
      assert v_.data[..] == OrWords(s, [rhs, 0]);
    }

    /** `^= Unsigned_operand`: word 0 XORed with `rhs`, the others with 0, then the
        padding cleared. */
    method XorAssignWord(rhs: Word)
      requires Valid()
      modifies v_.data
      ensures Valid() && v_.data[..] == XorWords(old(v_.data[..]), [rhs, 0])
    {
      Dims();
      ghost var s := v_.data[..];
      v_.data[0] := WordXor(v_.data[0], rhs);
      for i := 1 to W
        invariant v_.data[0] == WordXor(s[0], rhs)
        invariant forall j :: 1 <= j < W ==> v_.data[j] == s[j]
      {
        WordZeroRules(v_.data[i]);
        v_.data[i] := WordXor(v_.data[i], 0);
      }
      ghost var t := v_.data[..];
      WordZeroRules(s[1]);
      assert t[1] == WordXor(s[1], 0);
      assert t == XorWords(s, [rhs, 0]);
      CleanCleared(t);
      v_.ClearUnusedBits();
    }

    /** `&= const Large_ap_int&`: word-wise AND, which keeps the padding clear. */
    method AndAssign(rhs: LegacyInt)
      requires Valid() && rhs.Valid()
      modifies v_.data
      ensures Valid() && v_.data[..] == AndWords(old(v_.data[..]), old(rhs.v_.data[..]))
    {
      BitwiseClean(v_.data[..], rhs.v_.data[..]);
      v_.BinaryAnd(rhs.v_);
    }

    /** `|= const Large_ap_int&` */
    method OrAssign(rhs: LegacyInt)
      requires Valid() && rhs.Valid()
      modifies v_.data
      ensures Valid() && v_.data[..] == OrWords(old(v_.data[..]), old(rhs.v_.data[..]))
    {
      BitwiseClean(v_.data[..], rhs.v_.data[..]);
      v_.BinaryOr(rhs.v_);
    }

    /** `^= const Large_ap_int&` */
    method XorAssign(rhs: LegacyInt)
      requires Valid() && rhs.Valid()
      modifies v_.data
      ensures Valid() && v_.data[..] == XorWords(old(v_.data[..]), old(rhs.v_.data[..]))
    {
      BitwiseClean(v_.data[..], rhs.v_.data[..]);
      v_.BinaryXor(rhs.v_);
    }

    /** Binary `&` with a word */
    method AndWord(rhs: Word) returns (r: LegacyInt)
      requires Valid()
      ensures fresh(r.v_.data) && r.Valid() && r.v_.data[..] == AndWords(v_.data[..], [rhs, 0])
    {
      r := new LegacyInt.Copy(this);
      r.AndAssignWord(rhs);
    }

    /** Binary `|` with a word */
    method OrWord(rhs: Word) returns (r: LegacyInt)
      requires Valid()
      ensures fresh(r.v_.data) && r.Valid() && r.v_.data[..] == OrWords(v_.data[..], [rhs, 0])
    {
      r := new LegacyInt.Copy(this);
      r.OrAssignWord(rhs);
    }

    /** Binary `^` with a word */
    method XorWord(rhs: Word) returns (r: LegacyInt)
      requires Valid()
      ensures fresh(r.v_.data) && r.Valid() && r.v_.data[..] == XorWords(v_.data[..], [rhs, 0])
    {
      r := new LegacyInt.Copy(this);
      r.XorAssignWord(rhs);
    }

    /** Binary `&` */
    method And(rhs: LegacyInt) returns (r: LegacyInt)
      requires Valid() && rhs.Valid()
      ensures fresh(r.v_.data) && r.Valid() && r.v_.data[..] == AndWords(v_.data[..], rhs.v_.data[..])
    {
      r := new LegacyInt.Copy(this);
      r.AndAssign(rhs);
    }

    /** Binary `|` */
    method Or(rhs: LegacyInt) returns (r: LegacyInt)
      requires Valid() && rhs.Valid()
      ensures fresh(r.v_.data) && r.Valid() && r.v_.data[..] == OrWords(v_.data[..], rhs.v_.data[..])
    {
      r := new LegacyInt.Copy(this);
      r.OrAssign(rhs);
    }

    /** Binary `^` */
    method Xor(rhs: LegacyInt) returns (r: LegacyInt)
      requires Valid() && rhs.Valid()
      ensures fresh(r.v_.data) && r.Valid() && r.v_.data[..] == XorWords(v_.data[..], rhs.v_.data[..])
    {
      r := new LegacyInt.Copy(this);
      r.XorAssign(rhs);
    }

    // -------------------------------------------------------------------
    // Shifts
    // -------------------------------------------------------------------

    /** `<<=` with the padding cleared afterwards. As written the bits shifted past
        bit BITS - 1 stay (`ShlAssignAsWritten`). */
    method ShlAssign(n: Word)
      requires Valid()
      modifies v_.data
      ensures Valid()
      ensures Val(v_.data[..]) == Wrap(old(Val(v_.data[..])) * Pow2(n))
      ensures Value() == Signed(old(Value()) * Pow2(n))
    {
      ghost var a := v_.data[..];
      v_.LShift(n);
      ghost var t := v_.data[..];
      v_.ClearUnusedBits();
      LShiftedValue(a, n);
      ClearedValue(t);
      WrapOfStore(Val(a) * Pow2(n));
      ScaledValue(a, v_.data[..], Pow2(n));
    }

    /** `<<=` as written: `<<= 0` returns at once, any other count runs the word
        loop of `lshift` and leaves the padding as it falls. */
    method ShlAssignAsWritten(n: Word)
      requires Valid()
      modifies v_.data
      ensures v_.Valid() && v_.data[..] == LShifted(old(v_.data[..]), n)
      ensures Val(v_.data[..]) == (old(Val(v_.data[..])) * Pow2(n)) % STORE_MOD
    {
      LShiftedValue(v_.data[..], n);
      if n == 0 {
        return;
      }
      v_.LShift(n);
    }

    /** Binary `<<` */
    method Shl(n: Word) returns (r: LegacyInt)
      requires Valid()
      ensures fresh(r.v_.data) && r.Valid() && r.Value() == Signed(Value() * Pow2(n))
    {
      r := new LegacyInt.Copy(this);
      r.ShlAssign(n);
    }

    /** `>>=`: the arithmetic shift, rounding toward minus infinity, with the
        vacated words filled (as written they keep stale words,
        `LimbOps.RShiftedStale`). */
    method ShrAssign(n: Word)
      requires Valid()
      modifies v_.data
      ensures Valid() && Value() == old(Value()) / Pow2(n)
    {
      RShiftedFixedSigned(v_.data[..], n);
      v_.RShift(n);
    }

    /** Binary `>>` */
    method Shr(n: Word) returns (r: LegacyInt)
      requires Valid()
      ensures fresh(r.v_.data) && r.Valid() && r.Value() == Value() / Pow2(n)
    {
      r := new LegacyInt.Copy(this);
      r.ShrAssign(n);
    }
  }

  /** As written, the Self `+=` keeps the carry in the padding: `-1 + -1` leaves
      bit BITS set, which reads as -2 but compares above the clean -2. */
  lemma UnclearedSum()
    ensures var s := FromVal(((MODULUS - 1) + (MODULUS - 1)) % STORE_MOD);
      !Clean(s) && SVal(s) == -2 && Sign(Val(s) - Val(Cleared(s))) == 1
  {
    Constants();
    var x := (MODULUS - 1) + (MODULUS - 1);
    ModSmall(x, STORE_MOD);
    var s := FromVal(x);
    CleanIsBounded(s);
    ClearedValue(s);
    ModAddMultiple(MODULUS - 2, 1, MODULUS);
    ModSmall(MODULUS - 2, MODULUS);
  }

  /** As written, `*` accumulates with the `<<=` and the Self `+=` that keep the
      padding. For `2^40 * 2^74` (word 1 of `2^74` is `2^10`) the only non-zero
      partial product is `2^40 * 2^10 == 2^50`, shifted up by 64: the result
      holds bit 114 alone. It reads as 0, the
      product modulo 2^BITS, but compares above 0. */
  lemma UnclearedProduct()
    ensures (0x100_0000_0000 * 0x400) % MODULUS == 0x4_0000_0000_0000
    ensures Signed(0x100_0000_0000 * 0x400_0000_0000_0000_0000) == 0
    ensures var s := LShifted(FromVal(0x4_0000_0000_0000), 64);
      Val(s) == 0x4_0000_0000_0000_0000_0000_0000_0000
      && (0 + Val(s)) % STORE_MOD == Val(s)
      && !Clean(s) && Low(s) == 0 && SVal(s) == 0 && Sign(Val(s) - 0) == 1
  {
    Constants();
    Pow2Constants();
    var s := LShifted(FromVal(0x4_0000_0000_0000), 64);
    LShiftedValue(FromVal(0x4_0000_0000_0000), 64);
    CleanIsBounded(s);
  }

}
