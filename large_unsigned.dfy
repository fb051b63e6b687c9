/** `Large_ap_uint<80>` (large_unsigned.h): an unsigned BITS-bit integer over the
    same `Int_storage`, with no sign logic. Every method keeps the padding bits
    clear (`Valid`) and states the value it leaves modulo 2^BITS. */
module LargeUnsigned {
  import opened Words
  import opened Limbs
  import opened LimbOps
  import opened DivisionFacts
  import opened Wrapping
  import opened Decimal
  import opened IntStorage
  import opened WordLoops
  import opened SignedValues

  // ---------------------------------------------------------------------
  // Values
  // ---------------------------------------------------------------------

  /** What the string constructor reads: the leading run of digits, modulo
      2^BITS; a sign is not accepted, so `"-1"` reads as 0. */
  function ParseUnsigned(s: string): (n: nat)
    ensures n < MODULUS
    ensures n == DecimalValue(LeadingDigits(s)) % MODULUS
  {
    Wrap(DecimalValue(LeadingDigits(s)))
  }

  /** One digit of the string constructor: `*this *= 10; *this += d` on the
      wrapped value is the wrapped `x * 10 + d`. */
  lemma ParseUnsignedStep(x: int, d: int)
    ensures Wrap(Wrap(x) * 10 + d) == Wrap(x * 10 + d)
  {
    WrapAddLeft(Wrap(x) * 10, d);
    WrapMulLeft(x, 10);
    WrapAddLeft(x * 10, d);
  }

  lemma DigitPushed(x: nat, t: nat, u: nat, d: nat)
    requires t == (x * 10) % MODULUS && u == (t + d) % MODULUS
    ensures u == (x * 10 + d) % MODULUS
  {
    var p := x * 10;
    WrapAddLeft(p, d);
  }

  /** The quotient and remainder `udivmod` returns to `/=` and `%=`: the integer
      quotient and remainder for a non-zero divisor; for a zero divisor, which the
      source does not guard against, the numerator as the remainder under a
      quotient of ones reaching one bit above the numerator's top bit, and
      `(1, 0)` for `0 / 0`. */
  lemma UnsignedQuotient(n: nat, d: nat)
    requires n < MODULUS && d < MODULUS && (d != 0 || n < SIGN)
    ensures var qr := UDivModValues(true, n, d);
      && (d != 0 ==> qr == (n / d, n % d))
      && (d == 0 ==> qr == if n == 0 then (1, 0) else (Pow2(BITS + 1 - Clz(n)) - 1, n))
  {
    UDivModCorrect(true, n, d);
    var qr := UDivModValues(true, n, d);
    if d != 0 {
      DivModUnique(n, d, qr.0, qr.1);
    }
  }

  /** The decimal text the stream operator writes is read back by the string
      constructor. */
  lemma ReadRenderedUnsigned(n: nat)
    requires n < MODULUS
    ensures ParseUnsigned(RenderValue(n)) == n
  {
    ReadRendered(n);
    ModSmall(n, MODULUS);
  }

  /** Canonical decimal text of a number below 2^BITS survives the string
      constructor followed by the stream operator. */
  lemma RenderParsed(s: string)
    requires Canonical(s) && DecimalValue(s) < MODULUS
    ensures RenderValue(ParseUnsigned(s)) == s
  {
    LeadingOfDigits(s);
    ModSmall(DecimalValue(s), MODULUS);
    RenderedDigits(DecimalValue(s));
    DigitsOfValue(s);
  }

  /** The stream test: `"92233720368547758071"` comes back unchanged. */
  lemma RenderParsedExample()
    ensures RenderValue(ParseUnsigned("92233720368547758071")) == "92233720368547758071"
  {
    var s := "92233720368547758071";
    assert Canonical(s);
    RenderParsedShort(s);
  }

  /** Canonical text of up to 24 digits stands for a number below 2^BITS, so it
      survives the round trip. */
  lemma RenderParsedShort(s: string)
    requires Canonical(s) && |s| <= 24
    ensures RenderValue(ParseUnsigned(s)) == s
  {
    DecimalBelow(s);
    Pow10Monotone(|s|, 24);
    Pow10Range();
    RenderParsed(s);
  }

  /** The constructor tests: `"1234"`, `"00123"` and the empty string. */
  lemma ParsePlainExample()
    ensures ParseUnsigned("1234") == 1234
  {
    assert Digits(1234) == "1234";
    ValueOfDigits(1234);
    LeadingOfDigits("1234");
    ModSmall(1234, MODULUS);
  }

  lemma ParseZerosExample()
    ensures ParseUnsigned("00123") == 123
  {
    assert Digits(123) == "123";
    ValueOfDigits(123);
    LeadingZeroValue("123");
    LeadingZeroValue("0123");
    assert "00123" == "0" + ("0" + "123");
    LeadingOfDigits("00123");
    ModSmall(123, MODULUS);
  }

  lemma ParseEmptyExample()
    ensures ParseUnsigned("") == 0 && ParseUnsigned("-1") == 0
  {
  }

  /** The sign-filling shift of `>>=`, with the vacated words zeroed: the result
      is the arithmetic shift of the two's-complement reading, and the unsigned
      shift only below 2^(BITS-1). */
  lemma SignFilledShift(s: seq<Word>, n: nat)
    requires Sized(s) && Clean(s)
    ensures Clean(RShiftedFixed(s, n))
    ensures Val(RShiftedFixed(s, n)) == Wrap(SVal(s) / Pow2(n))
    ensures Val(s) < SIGN ==> Val(RShiftedFixed(s, n)) == Val(s) / Pow2(n)
  {
    var r := RShiftedFixed(s, n);
    RShiftedFixedSigned(s, n);
    CleanPattern(s);
    CleanPattern(r);
    CleanIsBounded(s);
    ModSmall(Val(s), MODULUS);
    if Val(s) < SIGN {
      DivNonneg(Val(s), Pow2(n));
      ModSmall(Val(s) / Pow2(n), MODULUS);
    }
  }

  /** `>>=` as written calls `rshift` itself. With bit BITS - 1 set, or a shift
      below one word, that is the shift above; a value below 2^(BITS-1) shifted
      by a word or more keeps its vacated words (`RShiftedStale`). */
  lemma SignFilledShiftAsWritten(s: seq<Word>, n: nat)
    requires Sized(s) && Clean(s)
    ensures n < WORD_BITS || Val(s) >= SIGN ==>
      Clean(RShifted(s, n)) && Val(RShifted(s, n)) == Wrap(SVal(s) / Pow2(n))
    ensures n < WORD_BITS && Val(s) < SIGN ==> Val(RShifted(s, n)) == Val(s) / Pow2(n)
  {
    if n < WORD_BITS || Val(s) >= SIGN {
      CleanIsBounded(s);
      ModSmall(Val(s), MODULUS);
      SignBit(s);
      RShiftedAgrees(s, n);
      SignFilledShift(s, n);
    }
  }

  /** As written, `2^(BITS-1) >> 1` gives `2^(BITS-1) + 2^(BITS-2)`, not
      `2^(BITS-2)`. */
  lemma SignFilledShiftExample()
    ensures Val(RShifted(FromVal(SIGN), 1)) == SIGN + SIGN / 2
    ensures Val(RShiftedFixed(FromVal(SIGN), 1)) == SIGN + SIGN / 2
  {
    Constants();
    CleanIsBounded(FromVal(SIGN));
    SignFilledShift(FromVal(SIGN), 1);
    SignFilledShiftAsWritten(FromVal(SIGN), 1);
    assert Pow2(1) == 2;
    CleanLow(FromVal(SIGN));
    assert SVal(FromVal(SIGN)) / 2 == -(SIGN as int) / 2;
  }

  class LargeUint {
    /** `data_` */
    const data_: Storage

    ghost predicate Valid()
      reads data_, data_.data
    {
      data_.Valid() && Clean(data_.data[..])
    }

    /** The number the words stand for, below 2^BITS. */
    ghost function Value(): (v: nat)
      reads data_, data_.data
      requires Valid()
      ensures v < MODULUS
    {
      CleanIsBounded(data_.data[..]);
      Val(data_.data[..])
    }

    // -------------------------------------------------------------------
    // Construction
    // -------------------------------------------------------------------

    /** `Large_ap_uint(std::uint64_t v)`: `v` in the low word, zero above. */
    constructor (v: Word)
      ensures Valid() && fresh(data_) && fresh(data_.data) && Value() == v
    {
      data_ := new Storage(0);
      new;
      Dims();
      data_.data[0] := v;
      assert data_.data[..] == [v, 0];
      ValOfTwo(data_.data[..]);
      Constants();
    }

    /** The copy constructor. */
    constructor Copy(src: LargeUint)
      requires src.Valid()
      ensures Valid() && fresh(data_) && fresh(data_.data) && data_.data[..] == src.data_.data[..]
    {
      data_ := new Storage.Copy(src.data_);
    }

    /** `Large_ap_uint(std::string_view v)`: digits are accumulated as
        `*this * 10 + d` up to the first character that is not a digit. */
    constructor FromString(v: string)
      ensures Valid() && fresh(data_) && fresh(data_.data) && Value() == ParseUnsigned(v)
    {
      data_ := new Storage(0);
      new;
      if v == [] {
        return;
      }
      var i := ReadDigits(v);
      ghost var s := data_.data[..];
      data_.ClearUnusedBits();
      CleanCleared(s);
    }

    /** One pass of the string constructor's loop: `*this *= 10; *this += d`. */
    method PushDigit(d: nat)
      requires Valid() && d < 10
      modifies data_.data
      ensures Valid() && Value() == (old(Value()) * 10 + d) % MODULUS
    {
      ghost var x := Value();
      MulAssignInt(10);
      ghost var t := Value();
      AddAssignInt(d);
      DigitPushed(x, t, Value(), d);
    }

    /** The string constructor's loop. */
    method ReadDigits(v: string) returns (i: nat)
      requires Valid() && Value() == 0
      modifies data_.data
      ensures Valid() && i <= |v| && LeadingDigits(v) == v[..i]
      ensures Value() == Wrap(DecimalValue(v[..i]))
    {
      i := 0;
      assert v[..i] == [];
      while i < |v| && IsDigit(v[i])
        invariant i <= |v|
        invariant Valid() && AllDigits(v[..i])
        invariant Value() == Wrap(DecimalValue(v[..i]))
        decreases |v| - i
      {
        ghost var before := v[..i];
        PushDigit(DigitValue(v[i]));
        i := i + 1;
        assert v[..i][..|v[..i]| - 1] == before;
        ParseUnsignedStep(DecimalValue(before), DigitValue(v[i - 1]));
      }
      LeadingDigitsStop(v, i);
    }

    // -------------------------------------------------------------------
    // Comparison
    // -------------------------------------------------------------------

    /** `compare(rhs)`: the unsigned order of the words. */
    method Compare(rhs: LargeUint) returns (r: int)
      requires Valid() && rhs.Valid()
      ensures r == Sign(Value() - rhs.Value())
    {
      r := data_.Compare(rhs.data_);
    }

    /** `compare(std::uint64_t rhs)`: against `Large_ap_uint(rhs)`. */
    method CompareInt(rhs: Word) returns (r: int)
      requires Valid()
      ensures r == Sign(Value() - rhs)
    {
      var t := new LargeUint(rhs);
      r := data_.Compare(t.data_);
    }

    // -------------------------------------------------------------------
    // Unary operators
    // -------------------------------------------------------------------

    /** `~`: every bit flipped, so `2^BITS - 1 - x`; `~0` is the maximum. */
    method Complement() returns (r: LargeUint)
      requires Valid()
      ensures fresh(r.data_.data) && r.Valid() && r.Value() == MODULUS - 1 - Value()
    {
      r := new LargeUint.Copy(this);
      InvertedValue(r.data_.data[..]);
      CleanLow(r.data_.data[..]);
      r.data_.Invert();
    }

    /** Prefix `++`: `*this += 1`. */
    method Increment()
      requires Valid()
      modifies data_.data
      ensures Valid() && Value() == (old(Value()) + 1) % MODULUS
    {
      AddAssignInt(1);
    }

    /** Postfix `++`: the old value is returned. */
    method PostIncrement() returns (tmp: LargeUint)
      requires Valid()
      modifies data_.data
      ensures fresh(tmp.data_.data) && tmp.Valid() && tmp.Value() == old(Value())
      ensures Valid() && Value() == (old(Value()) + 1) % MODULUS
    {
      tmp := new LargeUint.Copy(this);
      AddAssignInt(1);
    }

    /** Prefix `--`: `*this -= 1`. */
    method Decrement()
      requires Valid()
      modifies data_.data
      ensures Valid() && Value() == (old(Value()) - 1) % MODULUS
    {
      SubAssignInt(1);
    }

    /** Postfix `--`: the old value is returned. */
    method PostDecrement() returns (tmp: LargeUint)
      requires Valid()
      modifies data_.data
      ensures fresh(tmp.data_.data) && tmp.Valid() && tmp.Value() == old(Value())
      ensures Valid() && Value() == (old(Value()) - 1) % MODULUS
    {
      tmp := new LargeUint.Copy(this);
      SubAssignInt(1);
    }

    // -------------------------------------------------------------------
    // Addition and subtraction
    // -------------------------------------------------------------------

    /** `+=`: `data_.add`, which wraps modulo 2^BITS. */
    method AddAssign(rhs: LargeUint)
      requires Valid() && rhs.Valid()
      modifies data_.data
      ensures Valid() && Value() == (old(Value()) + old(rhs.Value())) % MODULUS
    {
      var carry := data_.Add(rhs.data_);
    }

    /** `+= std::uint64_t`: `*this += Large_ap_uint(rhs)`. */
    method AddAssignInt(rhs: Word)
      requires Valid()
      modifies data_.data
      ensures Valid() && Value() == (old(Value()) + rhs) % MODULUS
    {
      var t := new LargeUint(rhs);
      AddAssign(t);
    }

    /** Binary `+` */
    method Add(rhs: LargeUint) returns (r: LargeUint)
      requires Valid() && rhs.Valid()
      ensures fresh(r.data_.data) && r.Valid() && r.Value() == (Value() + rhs.Value()) % MODULUS
    {
      r := new LargeUint.Copy(this);
      r.AddAssign(rhs);
    }

    method AddInt(rhs: Word) returns (r: LargeUint)
      requires Valid()
      ensures fresh(r.data_.data) && r.Valid() && r.Value() == (Value() + rhs) % MODULUS
    {
      r := new LargeUint.Copy(this);
      r.AddAssignInt(rhs);
    }

    /** `-=`: `data_.subtract`, with the padding cleared afterwards. As written the
        borrow is left in the padding bits (`SignedValues.UnclearedDifference`). */
    method SubAssign(rhs: LargeUint)
      requires Valid() && rhs.Valid()
      modifies data_.data
      ensures Valid() && Value() == (old(Value()) - old(rhs.Value())) % MODULUS
    {
      ghost var a, b := Value(), rhs.Value();
      var borrow := data_.Subtract(rhs.data_);
      ghost var d := data_.data[..];
      data_.ClearUnusedBits();
      ClearedValue(d);
      WrapOfStore(a as int - b);
    }

    /** `-= std::uint64_t`: `*this -= Large_ap_uint(rhs)`. */
    method SubAssignInt(rhs: Word)
      requires Valid()
      modifies data_.data
      ensures Valid() && Value() == (old(Value()) - rhs) % MODULUS
    {
      var t := new LargeUint(rhs);
      SubAssign(t);
    }

    /** Binary `-` */
    method Sub(rhs: LargeUint) returns (r: LargeUint)
      requires Valid() && rhs.Valid()
      ensures fresh(r.data_.data) && r.Valid() && r.Value() == (Value() - rhs.Value()) % MODULUS
    {
      r := new LargeUint.Copy(this);
      r.SubAssign(rhs);
      assert data_.data[..] == old(data_.data[..]) && rhs.data_.data[..] == old(rhs.data_.data[..]);
    }

    method SubInt(rhs: Word) returns (r: LargeUint)
      requires Valid()
      ensures fresh(r.data_.data) && r.Valid() && r.Value() == (Value() - rhs) % MODULUS
    {
      r := new LargeUint.Copy(this);
      r.SubAssignInt(rhs);
    }

    // -------------------------------------------------------------------
    // Multiplication
    // -------------------------------------------------------------------

    /** `*= std::uint64_t`: `data_.mul(rhs)`. */
    method MulAssignInt(rhs: Word)
      requires Valid()
      modifies data_.data
      ensures Valid() && Value() == (old(Value()) * rhs) % MODULUS
    {
      var carry := data_.Mul(rhs);
    }

    /** `*=`: `*this = *this * rhs`. */
    method MulAssign(rhs: LargeUint)
      requires Valid() && rhs.Valid()
      modifies data_.data
      ensures Valid() && Value() == (old(Value()) * old(rhs.Value())) % MODULUS
    {
      var p := Mul(rhs);
      data_.Assign(p.data_);
    }

    method MulInt(rhs: Word) returns (r: LargeUint)
      requires Valid()
      ensures fresh(r.data_.data) && r.Valid() && r.Value() == (Value() * rhs) % MODULUS
    {
      r := new LargeUint.Copy(this);
      r.MulAssignInt(rhs);
    }

    /** `tmp` of binary `*`: a copy times the word `w`, shifted up by `i` words. */
    method ShiftedProduct(w: Word, i: nat) returns (tmp: LargeUint)
      requires Valid() && i < W
      ensures fresh(tmp.data_.data) && tmp.Valid()
      ensures tmp.Value() == Wrap(Wrap(Value() * w) * WordPow(i))
    {
      tmp := new LargeUint.Copy(this);
      tmp.MulAssignInt(w);
      Dims();
      Pow2Constants();
      tmp.ShlAssign(WORD_BITS * i);
      assert WordPow(i) == Pow2(WORD_BITS * i) by {
        if i == 1 {
          assert WordPow(1) == BASE;
        }
      }
    }

    /** Binary `*`: one shifted partial product per word of `rhs`, accumulated
        with `+=`, gives the product modulo 2^BITS. */
    method Mul(rhs: LargeUint) returns (result: LargeUint)
      requires Valid() && rhs.Valid()
      ensures fresh(result.data_.data) && result.Valid()
      ensures result.Value() == (Value() * rhs.Value()) % MODULUS
    {
      ghost var va, bw := Value(), rhs.data_.data[..];
      result := new LargeUint(0);
      Dims();
      assert Val(bw[..0]) == 0;
      for i := 0 to W
        invariant fresh(result.data_.data) && result.Valid()
        invariant result.Value() == Wrap(va * Val(bw[..i]))
      {
        ghost var acc := result.Value();
        var tmp := ShiftedProduct(rhs.data_.data[i], i);
        result.AddAssign(tmp);
        ValPrefix(bw, i);
        MulLoopStep(va, Val(bw[..i]), bw[i], WordPow(i), acc);
      }
      ValOfPrefixes(bw);
    }

    // -------------------------------------------------------------------
    // Division and remainder
    // -------------------------------------------------------------------

    /** `/=`: the quotient of `data_.udivmod(rhs.data_)`. */
    method DivAssign(rhs: LargeUint)
      requires Valid() && rhs.Valid() && (rhs.Value() != 0 || Value() < SIGN)
      modifies data_.data
      ensures Valid()
      ensures old(rhs.Value()) != 0 ==> Value() == old(Value()) / old(rhs.Value())
      ensures old(rhs.Value()) == 0 ==>
        Value() == if old(Value()) == 0 then 1 else Pow2(BITS + 1 - Clz(old(Value()))) - 1
    {
      ghost var n, d := Value(), rhs.Value();
      var quo, rem := data_.UDivMod(rhs.data_);
      data_.Assign(quo);
      UnsignedQuotient(n, d);
    }

    /** `/= std::uint64_t`: `*this /= Large_ap_uint(rhs)`. */
    method DivAssignInt(rhs: Word)
      requires Valid() && (rhs != 0 || Value() < SIGN)
      modifies data_.data
      ensures Valid()
      ensures rhs != 0 ==> Value() == old(Value()) / rhs
    {
      var t := new LargeUint(rhs);
      DivAssign(t);
    }

    /** Binary `/` */
    method Div(rhs: LargeUint) returns (r: LargeUint)
      requires Valid() && rhs.Valid() && (rhs.Value() != 0 || Value() < SIGN)
      ensures fresh(r.data_.data) && r.Valid()
      ensures rhs.Value() != 0 ==> r.Value() == Value() / rhs.Value()
    {
      r := new LargeUint.Copy(this);
      r.DivAssign(rhs);
    }

    method DivInt(rhs: Word) returns (r: LargeUint)
      requires Valid() && (rhs != 0 || Value() < SIGN)
      ensures fresh(r.data_.data) && r.Valid()
      ensures rhs != 0 ==> r.Value() == Value() / rhs
    {
      r := new LargeUint.Copy(this);
      r.DivAssignInt(rhs);
    }

    /** `%=`: the remainder of `data_.udivmod(rhs.data_)`; a zero divisor leaves
        the value as it is. */
    method RemAssign(rhs: LargeUint)
      requires Valid() && rhs.Valid() && (rhs.Value() != 0 || Value() < SIGN)
      modifies data_.data
      ensures Valid()
      ensures Value() == if old(rhs.Value()) != 0 then old(Value()) % old(rhs.Value()) else old(Value())
    {
      ghost var n, d := Value(), rhs.Value();
      var quo, rem := data_.UDivMod(rhs.data_);
      data_.Assign(rem);
      UnsignedQuotient(n, d);
    }

    /** `%= std::uint64_t`: `*this %= Large_ap_uint(rhs)`. */
    method RemAssignInt(rhs: Word)
      requires Valid() && (rhs != 0 || Value() < SIGN)
      modifies data_.data
      ensures Valid() && Value() == if rhs != 0 then old(Value()) % rhs else old(Value())
    {
      var t := new LargeUint(rhs);
      RemAssign(t);
    }

    /** Binary `%` */
    method Rem(rhs: LargeUint) returns (r: LargeUint)
      requires Valid() && rhs.Valid() && (rhs.Value() != 0 || Value() < SIGN)
      ensures fresh(r.data_.data) && r.Valid()
      ensures r.Value() == if rhs.Value() != 0 then Value() % rhs.Value() else Value()
    {
      r := new LargeUint.Copy(this);
      r.RemAssign(rhs);
    }

    method RemInt(rhs: Word) returns (r: LargeUint)
      requires Valid() && (rhs != 0 || Value() < SIGN)
      ensures fresh(r.data_.data) && r.Valid()
      ensures r.Value() == if rhs != 0 then Value() % rhs else Value()
    {
      r := new LargeUint.Copy(this);
      r.RemAssignInt(rhs);
    }

    // -------------------------------------------------------------------
    // Bitwise operators and shifts
    // -------------------------------------------------------------------

    /** `&=`: word-wise AND, so bit by bit on the value. */
    method AndAssign(rhs: LargeUint)
      requires Valid() && rhs.Valid()
      modifies data_.data
      ensures Valid() && data_.data[..] == AndWords(old(data_.data[..]), old(rhs.data_.data[..]))
      ensures forall p :: 0 <= p < BITS ==>
        Bit(Value(), p) == (Bit(old(Value()), p) && Bit(old(rhs.Value()), p))
    {
      ghost var a, b := data_.data[..], rhs.data_.data[..];
      BitwiseClean(a, b);
      data_.BinaryAnd(rhs.data_);
      forall p | 0 <= p < BITS
        ensures Bit(Val(AndWords(a, b)), p) == (Bit(Val(a), p) && Bit(Val(b), p))
      {
        Dims();
        BitwiseValueBits(a, b, p);
      }
    }

    /** `|=` */
    method OrAssign(rhs: LargeUint)
      requires Valid() && rhs.Valid()
      modifies data_.data
      ensures Valid() && data_.data[..] == OrWords(old(data_.data[..]), old(rhs.data_.data[..]))
      ensures forall p :: 0 <= p < BITS ==>
        Bit(Value(), p) == (Bit(old(Value()), p) || Bit(old(rhs.Value()), p))
    {
      ghost var a, b := data_.data[..], rhs.data_.data[..];
      BitwiseClean(a, b);
      data_.BinaryOr(rhs.data_);
      forall p | 0 <= p < BITS
        ensures Bit(Val(OrWords(a, b)), p) == (Bit(Val(a), p) || Bit(Val(b), p))
      {
        Dims();
        BitwiseValueBits(a, b, p);
      }
    }

    /** `^=` */
    method XorAssign(rhs: LargeUint)
      requires Valid() && rhs.Valid()
      modifies data_.data
      ensures Valid() && data_.data[..] == XorWords(old(data_.data[..]), old(rhs.data_.data[..]))
      ensures forall p :: 0 <= p < BITS ==>
        Bit(Value(), p) == (Bit(old(Value()), p) != Bit(old(rhs.Value()), p))
    {
      ghost var a, b := data_.data[..], rhs.data_.data[..];
      BitwiseClean(a, b);
      data_.BinaryXor(rhs.data_);
      forall p | 0 <= p < BITS
        ensures Bit(Val(XorWords(a, b)), p) == (Bit(Val(a), p) != Bit(Val(b), p))
      {
        Dims();
        BitwiseValueBits(a, b, p);
      }
    }

    /** Binary `&` */
    method And(rhs: LargeUint) returns (r: LargeUint)
      requires Valid() && rhs.Valid()
      ensures fresh(r.data_.data) && r.Valid()
      ensures r.data_.data[..] == AndWords(data_.data[..], rhs.data_.data[..])
    {
      r := new LargeUint.Copy(this);
      r.AndAssign(rhs);
    }

    /** Binary `|` */
    method Or(rhs: LargeUint) returns (r: LargeUint)
      requires Valid() && rhs.Valid()
      ensures fresh(r.data_.data) && r.Valid()
      ensures r.data_.data[..] == OrWords(data_.data[..], rhs.data_.data[..])
    {
      r := new LargeUint.Copy(this);
      r.OrAssign(rhs);
    }

    /** Binary `^` */
    method Xor(rhs: LargeUint) returns (r: LargeUint)
      requires Valid() && rhs.Valid()
      ensures fresh(r.data_.data) && r.Valid()
      ensures r.data_.data[..] == XorWords(data_.data[..], rhs.data_.data[..])
    {
      r := new LargeUint.Copy(this);
      r.XorAssign(rhs);
    }

    /** `<<=`: `data_.lshift`, with the padding cleared afterwards. As written the
        bits shifted past bit BITS - 1 stay in the padding
        (`SignedValues.UnclearedShift`). */
    method ShlAssign(n: Word)
      requires Valid()
      modifies data_.data
      ensures Valid() && Value() == Wrap(old(Value()) * Pow2(n))
    {
      ghost var a := data_.data[..];
      data_.LShift(n);
      ghost var t := data_.data[..];
      data_.ClearUnusedBits();
      LShiftedValue(a, n);
      ClearedValue(t);
      WrapOfStore(Val(a) * Pow2(n));
    }

    /** Binary `<<` */
    method Shl(n: Word) returns (r: LargeUint)
      requires Valid()
      ensures fresh(r.data_.data) && r.Valid() && r.Value() == Wrap(Value() * Pow2(n))
    {
      r := new LargeUint.Copy(this);
      r.ShlAssign(n);
    }

    /** `>>=` as a logical shift: the words moved down and the vacated top words
        zeroed, the non-filling branch of `rshift`. As written it calls the
        sign-filling `rshift` (`SignFilledShiftAsWritten`). */
    method ShrAssign(n: Word)
      requires Valid()
      modifies data_.data
      ensures Valid() && Value() == old(Value()) / Pow2(n)
    {
      Dims();
      ghost var a := data_.data[..];
      var ws, bs := Min(n / WORD_BITS, W), n % WORD_BITS;
      MoveDown(data_.data, ws, bs);
      SetVacated(data_.data, ws, 0);
      assert data_.data[..] == RZeroed(a, ws, bs);
      RZeroedValue(a, n);
      CleanIsBounded(a);
      DivNonneg(Val(a), Pow2(n));
      CleanIsBounded(data_.data[..]);
    }

    /** Binary `>>` */
    method Shr(n: Word) returns (r: LargeUint)
      requires Valid()
      ensures fresh(r.data_.data) && r.Valid() && r.Value() == Value() / Pow2(n)
    {
      r := new LargeUint.Copy(this);
      r.ShrAssign(n);
    }

    // -------------------------------------------------------------------
    // Output
    // -------------------------------------------------------------------

    /** `operator<<(std::ostream&, const Large_ap_uint&)`: the digits collected by
        repeated `udivmod` by ten, reversed. */
    method ToString() returns (s: string)
      requires Valid()
      ensures s == RenderValue(Value())
    {
      var u := new LargeUint.Copy(this);
      var gen := u.DecimalDigits();
      s := Reverse(gen);
    }

    /** The loop of `operator<<`: while the value is not zero, `udivmod` by ten
        replaces the words with the quotient and the remainder's low word is
        written as a character; the characters come out least significant
        first. */
    method DecimalDigits() returns (gen: string)
      requires Valid()
      modifies data_.data
      ensures Reverse(gen) == RenderValue(old(Value()))
    {
      ghost var n0 := Value();
      gen := "";
      var ten := new LargeUint(10);
      ModSmall(10, MODULUS);
      var c := CompareInt(0);
      while c != 0
        invariant Valid() && ten.Valid() && ten.Value() == 10
        invariant c == Sign(Value())
        invariant RenderValue(n0) == RenderValue(Value()) + Reverse(gen)
        decreases Value()
      {
        gen, c := NextDigit(ten, gen);
      }
    }

    /** One pass of the loop of `operator<<`. */
    method NextDigit(ten: LargeUint, gen: string) returns (next: string, c: int)
      requires Valid() && ten.Valid() && ten.Value() == 10 && Value() != 0
      modifies data_.data
      ensures Valid() && Value() < old(Value()) && c == Sign(Value())
      ensures old(RenderValue(Value())) + Reverse(gen) == RenderValue(Value()) + Reverse(next)
    {
      var digit := DivideByTen(ten);
      ReverseSnoc(gen, digit);
      next := gen + [digit];
      c := CompareInt(0);
    }

    /** `udivmod(ten)`, the quotient assigned back and the remainder's low word
        as a character. */
    method DivideByTen(ten: LargeUint) returns (digit: char)
      requires Valid() && ten.Valid() && ten.Value() == 10 && Value() != 0
      modifies data_.data
      ensures Valid() && Value() < old(Value())
      ensures old(RenderValue(Value())) == RenderValue(Value()) + [digit]
    {
      ghost var n := Value();
      var quo, rem := data_.UDivMod(ten.data_);
      data_.Assign(quo);
      ValDivMod(rem.data[..]);
      digit := DigitByte(rem.data[0]);
      UDivModCorrect(true, n, 10);
    }
  }
}
