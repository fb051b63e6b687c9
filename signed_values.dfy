/** What the operators of `Large_ap_int` (large_signed.h) compute, on the signed
    values the word arrays stand for: two's-complement arithmetic modulo 2^BITS,
    sign-magnitude division, the decimal text the constructor reads and the
    stream operator writes, and the facts that carry word-level results over to
    signed values. */
module SignedValues {
  import opened Words
  import opened Limbs
  import opened LimbOps
  import opened DivisionFacts
  import opened Wrapping
  import opened Decimal
  import opened IntStorage

  const INT64_MIN: int := -0x8000_0000_0000_0000
  const INT64_LIMIT: int := 0x8000_0000_0000_0000

  predicate IsInt64(v: int)
  {
    INT64_MIN <= v < INT64_LIMIT
  }

  /** The values a BITS-bit two's-complement number takes. */
  predicate InRange(x: int)
  {
    -(SIGN as int) <= x < SIGN
  }

  function Abs(x: int): nat
  {
    if x < 0 then -x else x
  }

  // ---------------------------------------------------------------------
  // Division
  // ---------------------------------------------------------------------

  /** `m` with the sign `neg` gives it. */
  function WithSign(neg: bool, m: nat): int
  {
    if neg then -(m as int) else m
  }

  /** Negating the signed reading of a magnitude reads the negated magnitude. */
  lemma SignedWithSign(neg: bool, m: nat, v: int)
    requires v == if neg then Signed(-Signed(m)) else Signed(m)
    ensures v == Signed(WithSign(neg, m))
  {
    if neg {
      SignedNeg(m);
    }
  }

  /** Whether exactly one operand is negative: the sign `/=` and `%=` give their
      results. */
  predicate Opposite(x: int, y: int)
  {
    (x < 0) != (y < 0)
  }

  /** `/=`: `udivmod` of the magnitudes, negated when exactly one operand is
      negative. */
  function Quotient(x: int, y: int): (q: int)
    requires InRange(x) && InRange(y)
    ensures InRange(q)
  {
    Signed(WithSign(Opposite(x, y), UDivModValues(true, Abs(x), Abs(y)).0))
  }

  /** `%=`: the remainder of the magnitudes, negated when exactly one operand is
      negative (the rule the code applies, not the sign of the dividend). */
  function Remainder(x: int, y: int): (r: int)
    requires InRange(x) && InRange(y)
    ensures InRange(r)
  {
    Signed(WithSign(Opposite(x, y), UDivModValues(true, Abs(x), Abs(y)).1))
  }

  /** Division truncates toward zero; only the most negative value divided by -1
      wraps around. The remainder is the magnitudes' remainder under the same sign
      as the quotient. */
  lemma QuotientTruncates(x: int, y: int)
    requires InRange(x) && InRange(y) && y != 0
    ensures Quotient(x, y) == Signed(WithSign(Opposite(x, y), Abs(x) / Abs(y)))
    ensures Remainder(x, y) == WithSign(Opposite(x, y), Abs(x) % Abs(y))
    ensures !(x == -(SIGN as int) && y == -1) ==> Quotient(x, y) == WithSign(Opposite(x, y), Abs(x) / Abs(y))
  {
    var n, d := Abs(x), Abs(y);
    UDivModCorrect(true, n, d);
    var qr := UDivModValues(true, n, d);
    DivModUnique(n, d, qr.0, qr.1);
    SignedInRange(WithSign(Opposite(x, y), qr.1));
    if !(x == -(SIGN as int) && y == -1) {
      QuotientFits(x, y);
      SignedInRange(WithSign(Opposite(x, y), qr.0));
    }
  }

  lemma QuotientFits(x: int, y: int)
    requires InRange(x) && InRange(y) && y != 0
    requires !(x == -(SIGN as int) && y == -1)
    ensures InRange(WithSign(Opposite(x, y), Abs(x) / Abs(y)))
  {
    var n, d := Abs(x), Abs(y);
    var q := n / d;
    DivNonneg(n, d);
    if d == 1 {
      assert q == n;
    } else {
      HalfBound(n, d);
    }
  }

  lemma HalfBound(n: nat, d: nat)
    requires 2 <= d
    ensures n / d <= n / 2
  {
    var q := n / d;
    DivNonneg(n, d);
    MulAtLeast(q, d);
    assert q * 2 <= n;
    DivModUnique(n, 2, n / 2, n % 2);
  }

  lemma MulAtLeast(q: nat, d: nat)
    requires 2 <= d
    ensures q * 2 <= q * d
  {
  }

  /** The remainder completes the division identity `x == q * y + r` exactly
      when the divisor is positive or the division is exact: for a negative
      divisor with a non-zero remainder the code's sign rule gives the remainder
      the sign opposite to the dividend's. */
  lemma RemainderIdentity(x: int, y: int)
    requires InRange(x) && InRange(y) && y != 0 && !(x == -(SIGN as int) && y == -1)
    ensures x == Quotient(x, y) * y + Remainder(x, y) <==> (y > 0 || Abs(x) % Abs(y) == 0)
  {
    var n, d := Abs(x), Abs(y);
    var opp := Opposite(x, y);
    UDivModCorrect(true, n, d);
    var qr := UDivModValues(true, n, d);
    DivModUnique(n, d, qr.0, qr.1);
    QuotientFits(x, y);
    SignedInRange(WithSign(opp, qr.0));
    SignedInRange(WithSign(opp, qr.1));
    IdentityCases(x, y, n, d, qr.0, qr.1);
  }

  lemma IdentityCases(x: int, y: int, n: nat, d: nat, q: nat, r: nat)
    requires n == Abs(x) && d == Abs(y) && 0 < d && n == q * d + r
    ensures x - WithSign(Opposite(x, y), q) * y == WithSign(x < 0, r)
  {
    var q': int := q;
    var d': int := d;
    if x < 0 && y < 0 {
      assert WithSign(Opposite(x, y), q) * y == q' * -d' == -(q * d);
    } else if x < 0 {
      assert WithSign(Opposite(x, y), q) * y == -q' * d' == -(q * d);
    } else if y < 0 {
      assert WithSign(Opposite(x, y), q) * y == -q' * -d' == q * d;
    } else {
      assert WithSign(Opposite(x, y), q) * y == q * d;
    }
  }

  /** `7 % -2` is -1 in the code; the division identity needs 1. */
  lemma RemainderSignExample()
    ensures Quotient(7, -2) == -3 && Remainder(7, -2) == -1
    ensures 7 != Quotient(7, -2) * -2 + Remainder(7, -2)
  {
    QuotientTruncates(7, -2);
  }

  /** `/=` over `udivmod` as written, with the sign-filling halving. */
  function QuotientAsWritten(x: int, y: int): (q: int)
    requires InRange(x) && InRange(y)
    ensures InRange(q)
  {
    Signed(WithSign(Opposite(x, y), UDivModValues(false, Abs(x), Abs(y)).0))
  }

  /** `%=` over `udivmod` as written. */
  function RemainderAsWritten(x: int, y: int): (r: int)
    requires InRange(x) && InRange(y)
    ensures InRange(r)
  {
    Signed(WithSign(Opposite(x, y), UDivModValues(false, Abs(x), Abs(y)).1))
  }

  /** Away from the minimum dividend, whose magnitude is 2^(BITS-1), the halving
      as written does no harm. */
  lemma AsWrittenAgrees(x: int, y: int)
    requires InRange(x) && InRange(y) && x != -(SIGN as int)
    ensures QuotientAsWritten(x, y) == Quotient(x, y)
    ensures RemainderAsWritten(x, y) == Remainder(x, y)
  {
    UnsignedHalvingAgrees(Abs(x), Abs(y));
  }

  /** As written, the minimum divided by 3 gives 0 and leaves itself as the
      remainder, where the truncating division gives -(2^(BITS-1) / 3) and -2. */
  lemma MinimumByThree()
    ensures QuotientAsWritten(-(SIGN as int), 3) == 0
    ensures RemainderAsWritten(-(SIGN as int), 3) == -(SIGN as int)
    ensures Quotient(-(SIGN as int), 3) == -((SIGN / 3) as int)
    ensures Remainder(-(SIGN as int), 3) == -2
  {
    Constants();
    SignFilledDivision();
    QuotientTruncates(-(SIGN as int), 3);
    ModSmall(0, MODULUS);
    ModSmall(SIGN, MODULUS);
    SignedInRange(-((SIGN / 3) as int));
  }

  /** What `x /= x` leaves as written: the divisor is copied after `*this` is
      negated, so a negative `x` is divided by its own negation. */
  function AliasedQuotient(x: int): (q: int)
    requires InRange(x)
    ensures InRange(q)
  {
    Quotient(x, if x < 0 then Signed(-x) else x)
  }

  lemma SelfDivision(x: int)
    requires InRange(x) && x != 0 && x != -(SIGN as int)
    ensures Quotient(x, x) == 1
    ensures AliasedQuotient(x) == if x < 0 then -1 else 1
  {
    QuotientTruncates(x, x);
    SignedInRange(-x);
    if x < 0 {
      QuotientTruncates(x, -x);
    }
  }

  // ---------------------------------------------------------------------
  // Decimal text
  // ---------------------------------------------------------------------

  /** The value `Large_ap_int(std::string_view)` builds: an optional `-`, then the
      leading run of digits accumulated as `x * 10 + d` modulo 2^BITS. */
  function ParseSigned(s: string): int
  {
    if s == [] then 0
    else
      var neg := s[0] == '-';
      var digits := LeadingDigits(if neg then s[1..] else s);
      Signed(WithSign(neg, DecimalValue(digits)))
  }

  /** The text `operator<<` writes: `-` for a negative value, then the digits of
      the magnitude; zero gives the empty text. */
  function RenderSigned(x: int): string
    requires InRange(x)
  {
    (if x < 0 then "-" else "") + RenderValue(Abs(x))
  }

  lemma RenderSignedDigits(x: int)
    requires InRange(x)
    ensures RenderSigned(x) == (if x < 0 then "-" else "") + Digits(Abs(x))
  {
    RenderedDigits(Abs(x));
  }

  /** The constructor reads back what the stream operator writes, for every value. */
  lemma ReadRenderedSigned(x: int)
    requires InRange(x)
    ensures ParseSigned(RenderSigned(x)) == x
  {
    var m := Abs(x);
    var t := RenderValue(m);
    ReadRendered(m);
    SignedInRange(x);
    var s := RenderSigned(x);
    if x < 0 {
      assert s == "-" + t && s[1..] == t;
      assert ParseSigned(s) == Signed(WithSign(true, DecimalValue(LeadingDigits(t))));
    } else if x > 0 {
      RenderedDigits(m);
      assert s == t && t != [] && IsDigit(t[0]);
      assert ParseSigned(s) == Signed(WithSign(false, DecimalValue(LeadingDigits(t))));
    } else {
      assert s == t == [];
    }
  }
  /** As written, the digits of the minimum come from `udivmod` by ten on its
      pattern 2^(BITS-1), which its negation leaves as it is: `operator<<` writes
      `-0`, and the constructor reads that back as 0. */
  lemma MinimumRendersNegativeZero()
    ensures "-" + RenderAsWritten(SIGN) == "-0"
    ensures ParseSigned("-" + RenderAsWritten(SIGN)) == 0
    ensures RenderSigned(-(SIGN as int)) != "-0"
  {
    RenderSignAsWritten();
    NegativeZero();
    var t := RenderValue(SIGN);
    assert RenderSigned(-(SIGN as int)) == "-" + t;
    assert ("-" + t)[1..] == t;
  }

  /** `-0` reads as 0. */
  lemma NegativeZero()
    ensures ParseSigned("-0") == 0
  {
    DecimalSnoc("", '0');
    assert "" + ['0'] == "0";
    ParseNegatedDigits("0");
    assert "-" + "0" == "-0";
    ModSmall(0, MODULUS);
  }



  /** The numbers the constructor tests read: a plain run of digits, a negated
      one and one with leading zeros. */
  lemma ParsePlain()
    ensures ParseSigned("1234") == 1234
  {
    ParseDigits("1234");
    DigitsOfExample();
    SignedInRange(1234);
  }

  lemma ParseNegated()
    ensures ParseSigned("-1234") == -1234
  {
    ParseNegatedDigits("1234");
    DigitsOfExample();
    SignedInRange(-1234);
  }

  lemma ParseLeadingZeros()
    ensures ParseSigned("00123") == 123 && ParseSigned("") == 0
  {
    DecimalSnoc("", '0');
    assert "" + ['0'] == "0";
    assert DecimalValue("0") == 0;
    DecimalSnoc("0", '0');
    assert "0" + ['0'] == "00";
    assert DecimalValue("00") == 0;
    DecimalSnoc("00", '1');
    assert "00" + ['1'] == "001";
    assert DecimalValue("001") == 1;
    DecimalSnoc("001", '2');
    assert "001" + ['2'] == "0012";
    assert DecimalValue("0012") == 12;
    DecimalSnoc("0012", '3');
    assert "0012" + ['3'] == "00123";
    assert DecimalValue("00123") == 123;
    ParseDigits("00123");
    SignedInRange(123);
    SignedInRange(0);
  }

  lemma DigitsOfExample()
    ensures AllDigits("1234") && DecimalValue("1234") == 1234
  {
    DecimalSnoc("", '1');
    assert "" + ['1'] == "1";
    DecimalSnoc("1", '2');
    assert "1" + ['2'] == "12";
    DecimalSnoc("12", '3');
    assert "12" + ['3'] == "123";
    DecimalSnoc("123", '4');
    assert "123" + ['4'] == "1234";
  }

  /** A run of digits alone is read whole, without a sign. */
  lemma ParseDigits(s: string)
    requires AllDigits(s)
    ensures ParseSigned(s) == Signed(DecimalValue(s))
  {
    LeadingOfDigits(s);
    if s != [] {
      assert IsDigit(s[0]);
    }
  }

  /** A `-` and then a run of digits is read as the negated run. */
  lemma ParseNegatedDigits(t: string)
    requires AllDigits(t)
    ensures ParseSigned("-" + t) == Signed(-(DecimalValue(t) as int))
  {
    var s := "-" + t;
    assert s[0] == '-' && s[1..] == t;
    ParseAfterMinus(s, t);
  }

  lemma ParseAfterMinus(s: string, t: string)
    requires |s| > 0 && s[0] == '-' && s[1..] == t && AllDigits(t)
    ensures ParseSigned(s) == Signed(-(DecimalValue(t) as int))
  {
    LeadingOfDigits(t);
  }

  // ---------------------------------------------------------------------
  // From words to signed values
  // ---------------------------------------------------------------------

  /** A clean array holds the BITS-bit pattern of its signed value. */
  lemma CleanPattern(s: seq<Word>)
    requires Sized(s) && Clean(s)
    ensures Val(s) == Wrap(SVal(s)) && SVal(s) == Signed(Val(s))
    ensures Val(s) >= SIGN <==> SVal(s) < 0
  {
    CleanIsBounded(s);
    ModSmall(Val(s), MODULUS);
    SValWraps(s);
  }

  /** With equal signs the unsigned order of the patterns is the signed order. */
  lemma SameSignCompare(a: seq<Word>, b: seq<Word>)
    requires Sized(a) && Sized(b) && Clean(a) && Clean(b)
    requires (SVal(a) < 0) == (SVal(b) < 0)
    ensures Sign(Val(a) - Val(b)) == Sign(SVal(a) - SVal(b))
  {
    CleanIsBounded(a);
    CleanIsBounded(b);
    ModSmall(Val(a), MODULUS);
    ModSmall(Val(b), MODULUS);
    assert SVal(a) == ToSigned(Val(a)) && SVal(b) == ToSigned(Val(b));
    assert Val(a) - Val(b) == SVal(a) - SVal(b);
  }

  /** With different signs the negative operand is the smaller. */
  lemma SignsDiffer(x: int, y: int, r: int)
    requires (x < 0) != (y < 0) && r == if x < 0 then -1 else 1
    ensures r == Sign(x - y)
  {
  }

  /** The words a negated clean value holds: its magnitude. */
  lemma MagnitudePattern(s: seq<Word>, x: int)
    requires Sized(s) && Clean(s)
    requires InRange(x) && SVal(s) == (if x < 0 then Signed(-x) else x)
    ensures Val(s) == Abs(x)
  {
    CleanPattern(s);
    if x < 0 {
      SignedOfWrap(-x);
      ModSmall(-x, MODULUS);
    } else {
      ModSmall(x, MODULUS);
    }
  }

  /** `data_.add` on the patterns is signed addition modulo 2^BITS. */
  lemma SumValue(a: seq<Word>, b: seq<Word>, c: seq<Word>)
    requires Sized(a) && Sized(b) && Sized(c)
    requires Val(c) == (Val(a) + Val(b)) % MODULUS
    ensures SVal(c) == Signed(SVal(a) + SVal(b))
  {
    SumOfValues(Val(a), Val(b), Val(c));
  }

  lemma SumOfValues(va: int, vb: int, vc: int)
    requires vc == (va + vb) % MODULUS
    ensures Signed(vc) == Signed(Signed(va) + Signed(vb))
  {
    WrapOfWrap(va + vb);
    SignedAdd(va, vb);
  }

  /** `data_.subtract` then `clear_unused_bits`: signed subtraction modulo 2^BITS. */
  lemma DifferenceValue(a: seq<Word>, b: seq<Word>, c: seq<Word>)
    requires Sized(a) && Sized(b) && Sized(c)
    requires Val(c) == ((Val(a) - Val(b)) % STORE_MOD) % MODULUS
    ensures SVal(c) == Signed(SVal(a) - SVal(b))
  {
    DifferenceOfValues(Val(a), Val(b), Val(c));
  }

  lemma DifferenceOfValues(va: int, vb: int, vc: int)
    requires vc == ((va - vb) % STORE_MOD) % MODULUS
    ensures Signed(vc) == Signed(Signed(va) - Signed(vb))
  {
    WrapOfStore(va - vb);
    WrapOfWrap(va - vb);
    SignedSub(va, vb);
  }

  lemma SignedSub(x: int, y: int)
    ensures Signed(Signed(x) - Signed(y)) == Signed(x - y)
  {
    SignedAdd(x, -y);
    SignedNeg(y);
    SignedAdd(Signed(x), -Signed(y));
    SignedOfWrap(x);
  }

  /** A pattern scaled and reduced modulo 2^BITS is the signed product. */
  lemma ScaledValue(a: seq<Word>, c: seq<Word>, m: int)
    requires Sized(a) && Sized(c) && Val(c) == Wrap(Val(a) * m)
    ensures SVal(c) == Signed(SVal(a) * m)
  {
    SValWraps(a);
    SValWraps(c);
    WrapOfWrap(Val(a) * m);
    SignedOfWrap(Val(a));
    WrapMulLeft(Val(a), m);
    WrapMulLeft(Signed(Val(a)), m);
  }

  /** A clean pattern is zero exactly when its signed value is. */
  lemma ZeroPattern(s: seq<Word>)
    requires Sized(s) && Clean(s)
    ensures Val(s) == 0 <==> SVal(s) == 0
  {
    CleanPattern(s);
    SignedInRange(0);
  }

  /** The pattern of an operand or of its negation. */
  lemma MagnitudeWrap(s: seq<Word>, x: int, neg: bool)
    requires Sized(s) && Clean(s) && SVal(s) == if neg then Signed(-x) else x
    ensures Wrap(Val(s)) == Wrap(if neg then -x else x)
  {
    CleanPattern(s);
    SignedOfWrap(-x);
    SignedOfWrap(x);
    SValWraps(s);
    WrapOfWrap(Val(s));
  }

  /** `data_.mul(r)` on a pattern: the signed reading of the wrapped product. */
  lemma ProductPattern(a: seq<Word>, c: seq<Word>, r: nat)
    requires Sized(a) && Sized(c) && Clean(c) && Val(c) == (Val(a) * r) % MODULUS
    ensures SVal(c) == Signed(Val(a) * r)
  {
    CleanPattern(c);
    WrapOfWrap(Val(a) * r);
  }

  /** `*= rhs` by magnitude: a pattern `v` of `x` or of `-x`, times `r`, negated
      back in the second case, is `x * r` modulo 2^BITS. */
  lemma MagnitudeProduct(v: nat, x: int, r: int, neg: bool, m: int, result: int)
    requires Wrap(v) == Wrap(if neg then -x else x)
    requires m == Signed(v * r) && result == if neg then Signed(-m) else m
    ensures result == Signed(x * r)
  {
    var t := if neg then -x else x;
    var p, q := v * r, x * r;
    ProductCongruent(v, t, r);
    if neg {
      assert t * r == -q;
      NegatedSigned(p, q);
    } else {
      SignedCongruent(p, q);
    }
  }

  lemma ProductCongruent(a: int, b: int, r: int)
    requires Wrap(a) == Wrap(b)
    ensures Wrap(a * r) == Wrap(b * r)
  {
    WrapMulLeft(a, r);
    WrapMulLeft(b, r);
  }

  /** A pattern congruent to `-q`, read and negated, reads as `q`. */
  lemma NegatedSigned(p: int, q: int)
    requires Wrap(p) == Wrap(-q)
    ensures Signed(-Signed(p)) == Signed(q)
  {
    SignedNeg(p);
    WrapNeg(p);
    WrapNeg(-q);
    SignedCongruent(-p, q);
  }


  /** The product of two magnitudes is the product, negated when the signs differ. */
  lemma AbsProduct(x: int, y: int)
    ensures Abs(x) * Abs(y) == if (x < 0) != (y < 0) then -(x * y) else x * y
  {
    if x < 0 {
      assert Abs(x) * Abs(y) == (-x) * Abs(y);
    }
  }

  /** `operator*`: the product of the two magnitudes' patterns, negated when exactly
      one operand was negative, is the signed product modulo 2^BITS. */
  lemma ProductOfMagnitudes(va: nat, vb: nat, x: int, y: int, negA: bool, negB: bool, p: nat, result: int)
    requires negA == (x < 0) && va == Abs(x)
    requires negB == (y < 0) && vb == Abs(y)
    requires p == Wrap(va * vb)
    requires result == if negA != negB then Signed(-Signed(p)) else Signed(p)
    ensures result == Signed(x * y)
  {
    var q := va * vb;
    var xy := x * y;
    var neg := negA != negB;
    AbsProduct(x, y);
    WrapOfWrap(q);
    if neg {
      SignedNeg(p);
      WrapNeg(q);
      assert Wrap(-(p as int)) == Wrap(xy);
    }
  }

  lemma SignedAddLeft(x: int, y: int)
    ensures Signed(Signed(x) + y) == Signed(x + y)
  {
    SignedOfWrap(x);
    WrapAddLeft(Signed(x), y);
    WrapAddLeft(x, y);
  }

  lemma SignedMulLeft(x: int, y: int)
    ensures Signed(Signed(x) * y) == Signed(x * y)
  {
    SignedOfWrap(x);
    WrapMulLeft(Signed(x), y);
    WrapMulLeft(x, y);
  }

  /** `*= min` as `*= 2` then `*= min / 2`. */
  lemma MinimumProduct(x: int)
    ensures Signed(Signed(x * 2) * (INT64_MIN / 2)) == Signed(x * INT64_MIN)
  {
    var h := INT64_MIN / 2;
    assert h == -0x4000_0000_0000_0000;
    SignedMulLeft(x * 2, h);
    assert x * 2 * h == x * (2 * h);
  }

  /** `*= rhs` for a negative `rhs` as `*this = -*this; rhs = -rhs`. */
  lemma NegatedProduct(x: int, y: int)
    ensures Signed(Signed(-x) * -y) == Signed(x * y)
  {
    SignedMulLeft(-x, -y);
    assert -x * -y == x * y;
  }

  /** One digit of the string constructor: `*this *= 10; *this += d` on the
      wrapped value is the wrapped `x * 10 + d`. */
  lemma DigitRead(v: string, start: nat, i: nat, before: int, after: int)
    requires start <= i < |v| && AllDigits(v[start..i]) && IsDigit(v[i])
    requires before == Signed(DecimalValue(v[start..i]))
    requires after == Signed(before * 10 + DigitValue(v[i]))
    ensures AllDigits(v[start..i + 1]) && after == Signed(DecimalValue(v[start..i + 1]))
  {
    DigitsStep(v, start, i);
    ParseStep(DecimalValue(v[start..i]), DigitValue(v[i]));
  }

  lemma ParseStep(x: int, d: int)
    ensures Signed(Signed(x) * 10 + d) == Signed(x * 10 + d)
  {
    SignedAddLeft(Signed(x) * 10, d);
    SignedMulLeft(x, 10);
    SignedAddLeft(x * 10, d);
  }

  /** `Large_ap_int(v)` for a negative `v`: the low word is `Word(v)`, the others
      all ones, then the padding is cleared. */
  lemma NegativeWords(v: int)
    requires INT64_MIN <= v < 0
    ensures Clean(Cleared([v + BASE, WORD_MAX])) && SVal(Cleared([v + BASE, WORD_MAX])) == v
  {
    Constants();
    var s: seq<Word> := [v + BASE, WORD_MAX];
    var c := Cleared(s);
    assert c == [v + BASE, LAST_MOD - 1];
    ValOfTwo(c);
    assert Val(c) == v + MODULUS;
    ModSmall(Val(c), MODULUS);
  }

  /** `Large_ap_int(v)` for `v >= 0`: the low word is `v`. */
  lemma SmallWords(v: nat)
    requires v < INT64_LIMIT
    ensures Clean([v, 0]) && SVal([v, 0]) == v
  {
    Constants();
    ValOfTwo([v, 0]);
    ModSmall(v, MODULUS);
  }

  /** `clear_unused_bits` leaves clean words alone. */
  lemma CleanCleared(s: seq<Word>)
    requires Sized(s) && Clean(s)
    ensures Cleared(s) == s
  {
    Constants();
    ModSmall(s[W - 1], LAST_MOD);
  }

  /** One pass of the loop of `operator*`: adding the shifted product of the next
      word extends the product by that word. */
  lemma MulLoopStep(va: nat, prefix: nat, w: nat, pw: nat, acc: nat)
    requires acc == Wrap(va * prefix)
    ensures Wrap(acc + Wrap(Wrap(va * w) * pw)) == Wrap(va * (prefix + pw * w))
  {
    var a, t := va * prefix, va * w;
    var u := t * pw;
    assert va * (prefix + pw * w) == a + u by {
      assert va * (pw * w) == t * pw;
    }
    WrapMulLeft(t, pw);
    WrapAdd(a, u);
  }

  /** The signed result of dividing the magnitudes, negated when exactly one
      operand is negative, is `Quotient` or `Remainder`. */
  lemma DividedMagnitudes(x: int, y: int, neg: bool, r: int, remainder: bool)
    requires InRange(x) && InRange(y) && neg == (x < 0)
    requires var qr := UDivModValues(true, Abs(x), Abs(y));
      r == Signed(WithSign(neg != (y < 0), if remainder then qr.1 else qr.0))
    ensures r == if remainder then Remainder(x, y) else Quotient(x, y)
  {
  }

  /** The magnitude of the negation of a negative value is its own. */
  lemma AbsOfNegation(x: int)
    requires InRange(x) && x < 0
    ensures Abs(Signed(-x)) == Abs(x)
  {
    if x == -(SIGN as int) {
      SignedInRange(x);
      WrapOfMultiple(-x, -1);
      assert -x + -1 * MODULUS == x;
    } else {
      SignedInRange(-x);
    }
  }

  /** `x %= x` as written divides `x` by its own negation when `x` is negative;
      the remainder is zero all the same. */
  lemma AliasedRemainder(x: int)
    requires InRange(x)
    ensures Remainder(x, if x < 0 then Signed(-x) else x) == Remainder(x, x) == 0
  {
    var y := if x < 0 then Signed(-x) else x;
    if x < 0 {
      AbsOfNegation(x);
    }
    UDivModCorrect(true, Abs(x), Abs(x));
    SignedInRange(0);
  }

  /** The sign of an AND, OR or XOR is that operation on the signs. */
  lemma BitwiseSigns(a: seq<Word>, b: seq<Word>)
    requires Sized(a) && Sized(b)
    ensures SVal(AndWords(a, b)) < 0 <==> SVal(a) < 0 && SVal(b) < 0
    ensures SVal(OrWords(a, b)) < 0 <==> SVal(a) < 0 || SVal(b) < 0
    ensures SVal(XorWords(a, b)) < 0 <==> (SVal(a) < 0) != (SVal(b) < 0)
  {
    Constants();
    SignBit(a);
    SignBit(b);
    SignBit(AndWords(a, b));
    SignBit(OrWords(a, b));
    SignBit(XorWords(a, b));
    BitwiseValueBits(a, b, BITS - 1);
  }

  /** As written, `-=` keeps the borrow in the padding: `1 - 2` (or `0 - 1`)
      leaves all 128 bits set. The signed reading is -1 and the unsigned one is
      the maximum 2^BITS - 1, but the word comparison the comparison operators
      end in sees it above its own clean form. */
  lemma UnclearedDifference()
    ensures var s := FromVal((1 - 2) % STORE_MOD);
      !Clean(s) && SVal(s) == -1 && Low(s) == MODULUS - 1 && Sign(Val(s) - Val(Cleared(s))) == 1
  {
    Constants();
    var s := FromVal((1 - 2) % STORE_MOD);
    assert (1 - 2) % STORE_MOD == STORE_MOD - 1;
    CleanIsBounded(s);
    ClearedValue(s);
    ModAddMultiple(MODULUS - 1, 0xFFFF_FFFF_FFFF, MODULUS);
    assert STORE_MOD - 1 == MODULUS - 1 + 0xFFFF_FFFF_FFFF * MODULUS;
    ModSmall(MODULUS - 1, MODULUS);
  }

  /** As written, `<<=` keeps the bits shifted past bit BITS - 1: `min << 1`
      (unsigned, `2^(BITS-1) << 1`) holds 2^BITS, which reads as 0 but compares
      above 0. */
  lemma UnclearedShift()
    ensures var s := LShifted(FromVal(SIGN), 1);
      Val(s) == MODULUS && !Clean(s) && Low(s) == 0 && SVal(s) == 0 && Sign(Val(s) - 0) == 1
  {
    Constants();
    var s := LShifted(FromVal(SIGN), 1);
    LShiftedValue(FromVal(SIGN), 1);
    assert Pow2(1) == 2;
    ModSmall(SIGN * 2, STORE_MOD);
    CleanIsBounded(s);
  }
}
