/** `Large_ap_int<80>` (large_signed.h): a signed BITS-bit integer held as the
    two's-complement pattern in an `Int_storage`. Every method keeps the padding
    bits clear (`Valid`) and states the signed value it leaves in terms of the
    value functions of `SignedValues`. */
module LargeSigned {
  import opened Words
  import opened Limbs
  import opened LimbOps
  import opened DivisionFacts
  import opened Wrapping
  import opened Decimal
  import opened IntStorage
  import opened SignedValues

  class LargeInt {
    /** `data_` */
    const data_: Storage

    ghost predicate Valid()
      reads data_, data_.data
    {
      data_.Valid() && Clean(data_.data[..])
    }

    /** The signed integer the words stand for. */
    ghost function Value(): (v: int)
      reads data_, data_.data
      ensures InRange(v)
    {
      SVal(data_.data[..])
    }

    /** The words read as an unsigned number below 2^BITS. */
    ghost function Pattern(): (n: nat)
      reads data_, data_.data
      requires Valid()
      ensures n < MODULUS
    {
      CleanIsBounded(data_.data[..]);
      Val(data_.data[..])
    }

    // -------------------------------------------------------------------
    // Construction
    // -------------------------------------------------------------------

    /** `Large_ap_int(std::int64_t v)`: `Word(v)` in the low word and, for a
        negative `v`, all ones above it before the padding is cleared. */
    constructor (v: int)
      requires IsInt64(v)
      ensures Valid() && fresh(data_) && fresh(data_.data) && Value() == v
    {
      data_ := new Storage(0);
      new;
      Dims();
      ValOfTwo(data_.data[..]);
      if v < 0 {
        data_.data[0] := v + BASE;
        for i := 1 to W
          invariant data_.data[0] == v + BASE
          invariant forall j :: 1 <= j < i ==> data_.data[j] == WORD_MAX
        {
          data_.data[i] := WORD_MAX;
        }
        assert data_.data[..] == [v + BASE, WORD_MAX];
        data_.ClearUnusedBits();
        NegativeWords(v);
      } else {
        data_.data[0] := v;
        assert data_.data[..] == [v, 0];
        SmallWords(v);
      }
    }

    /** The copy constructor. */
    constructor Copy(src: LargeInt)
      requires src.Valid()
      ensures Valid() && fresh(data_) && fresh(data_.data) && data_.data[..] == src.data_.data[..]
    {
      data_ := new Storage.Copy(src.data_);
    }

    /** `Large_ap_int(std::string_view v)`: an optional `-`, then digits up to
        the first other character, each one as `*this *= 10; *this += d`; the
        result is negated for a leading `-`. */
    constructor FromString(v: string)
      ensures Valid() && fresh(data_) && fresh(data_.data) && Value() == ParseSigned(v)
    {
      data_ := new Storage(0);
      new;
      SignedInRange(0);
      if v == [] {
        return;
      }
      var neg := v[0] == '-';
      var start := if neg then 1 else 0;
      var i := ReadDigits(v, start);
      ghost var digits := v[start..i];
      assert (if neg then v[1..] else v) == v[start..];
      if neg {
        NegateSelf();
        SignedNeg(DecimalValue(digits));
      }
      ghost var s := data_.data[..];
      data_.ClearUnusedBits();
      CleanCleared(s);
    }

    /** One pass of the string constructor's loop: `*this *= 10; *this += d`. */
    method PushDigit(d: nat)
      requires Valid() && d < 10
      modifies data_.data
      ensures Valid() && Value() == Signed(old(Value()) * 10 + d)
    {
      ghost var x := Value();
      MulAssignInt(10);
      ghost var y := Value();
      AddAssignInt(d);
      SignedAddLeft(x * 10, d);
      assert y == Signed(x * 10) && Value() == Signed(y + d);
    }

    /** The string constructor's loop: digits from `start` on, until the text
        ends or a character is not a digit. */
    method ReadDigits(v: string, start: nat) returns (i: nat)
      requires Valid() && Value() == 0 && start <= |v|
      modifies data_.data
      ensures Valid() && start <= i <= |v| && LeadingDigits(v[start..]) == v[start..i]
      ensures Value() == Signed(DecimalValue(v[start..i]))
    {
      i := start;
      assert v[start..i] == [];
      while i < |v| && IsDigit(v[i])
        invariant start <= i <= |v|
        invariant Valid() && AllDigits(v[start..i])
        invariant Value() == Signed(DecimalValue(v[start..i]))
        decreases |v| - i
      {
        ghost var before := Value();
        var d := DigitValue(v[i]);
        PushDigit(d);
        DigitRead(v, start, i, before, Value());
        i := i + 1;
      }
      LeadingDigitsFrom(v, start, i);
    }

    // -------------------------------------------------------------------
    // Sign and comparison
    // -------------------------------------------------------------------

    /** `is_negative()`: `get_bit(bits - 1)`. */
    method IsNegative() returns (b: bool)
      requires Valid()
      ensures b <==> Value() < 0
    {
      NegativeBit(data_.data[..]);
      b := data_.GetBit(BITS - 1);
    }

    /** `compare(rhs)`: a negative operand is the smaller when the signs differ;
        otherwise the unsigned order of the patterns decides. */
    method Compare(rhs: LargeInt) returns (r: int)
      requires Valid() && rhs.Valid()
      ensures r == Sign(Value() - rhs.Value())
    {
      var lNeg := IsNegative();
      var rNeg := rhs.IsNegative();
      if lNeg != rNeg {
        r := if lNeg then -1 else 1;
        SignsDiffer(Value(), rhs.Value(), r);
        return;
      }
      r := data_.Compare(rhs.data_);
      SameSignCompare(data_.data[..], rhs.data_.data[..]);
    }

    /** `compare(std::int64_t rhs)` */
    method CompareInt(rhs: int) returns (r: int)
      requires Valid() && IsInt64(rhs)
      ensures r == Sign(Value() - rhs)
    {
      var lNeg := IsNegative();
      var rNeg := rhs < 0;
      if lNeg != rNeg {
        r := if lNeg then -1 else 1;
        SignsDiffer(Value(), rhs, r);
        return;
      }
      var t := new LargeInt(rhs);
      r := data_.Compare(t.data_);
      SameSignCompare(data_.data[..], t.data_.data[..]);
    }

    // -------------------------------------------------------------------
    // Unary operators
    // -------------------------------------------------------------------

    /** Unary `+`: a copy. */
    method Plus() returns (r: LargeInt)
      requires Valid()
      ensures fresh(r.data_.data) && r.Valid() && r.Value() == Value()
    {
      r := new LargeInt.Copy(this);
    }

    /** `~`: the words inverted, so `-x - 1`. */
    method Complement() returns (r: LargeInt)
      requires Valid()
      ensures fresh(r.data_.data) && r.Valid() && r.Value() == -Value() - 1
    {
      r := new LargeInt.Copy(this);
      InvertedValue(r.data_.data[..]);
      r.data_.Invert();
    }

    /** Unary `-`: `~x` then `++`; the most negative value is its own negation. */
    method Negate() returns (r: LargeInt)
      requires Valid()
      ensures fresh(r.data_.data) && r.Valid() && r.Value() == Signed(-Value())
    {
      r := Complement();
      r.Increment();
    }

    /** `*this = -*this` */
    method NegateSelf()
      requires Valid()
      modifies data_.data
      ensures Valid() && Value() == Signed(-old(Value()))
    {
      var n := Negate();
      data_.Assign(n.data_);
    }

    /** Prefix `++`: `*this += 1`. */
    method Increment()
      requires Valid()
      modifies data_.data
      ensures Valid() && Value() == Signed(old(Value()) + 1)
    {
      AddAssignInt(1);
    }

    /** Postfix `++`: the old value is returned. */
    method PostIncrement() returns (tmp: LargeInt)
      requires Valid()
      modifies data_.data
      ensures fresh(tmp.data_.data) && tmp.Valid() && tmp.Value() == old(Value())
      ensures Valid() && Value() == Signed(old(Value()) + 1)
    {
      tmp := new LargeInt.Copy(this);
      AddAssignInt(1);
    }

    /** Prefix `--`: `*this -= 1`. */
    method Decrement()
      requires Valid()
      modifies data_.data
      ensures Valid() && Value() == Signed(old(Value()) - 1)
    {
      SubAssignInt(1);
    }

    /** Postfix `--`: the old value is returned. */
    method PostDecrement() returns (tmp: LargeInt)
      requires Valid()
      modifies data_.data
      ensures fresh(tmp.data_.data) && tmp.Valid() && tmp.Value() == old(Value())
      ensures Valid() && Value() == Signed(old(Value()) - 1)
    {
      tmp := new LargeInt.Copy(this);
      SubAssignInt(1);
    }

    // -------------------------------------------------------------------
    // Addition and subtraction
    // -------------------------------------------------------------------

    /** `+=`: `data_.add`, which wraps modulo 2^BITS. */
    method AddAssign(rhs: LargeInt)
      requires Valid() && rhs.Valid()
      modifies data_.data
      ensures Valid()
      ensures Val(data_.data[..]) == (old(Val(data_.data[..])) + old(Val(rhs.data_.data[..]))) % MODULUS
      ensures Value() == Signed(old(Value()) + old(rhs.Value()))
    {
      ghost var a, b := data_.data[..], rhs.data_.data[..];
      var carry := data_.Add(rhs.data_);
      SumValue(a, b, data_.data[..]);
    }

    /** `+= std::int64_t` */
    method AddAssignInt(rhs: int)
      requires Valid() && IsInt64(rhs)
      modifies data_.data
      ensures Valid() && Value() == Signed(old(Value()) + rhs)
    {
      var t := new LargeInt(rhs);
      AddAssign(t);
    }

    /** Binary `+` */
    method Add(rhs: LargeInt) returns (r: LargeInt)
      requires Valid() && rhs.Valid()
      ensures fresh(r.data_.data) && r.Valid() && r.Value() == Signed(Value() + rhs.Value())
    {
      r := new LargeInt.Copy(this);
      r.AddAssign(rhs);
    }

    method AddInt(rhs: int) returns (r: LargeInt)
      requires Valid() && IsInt64(rhs)
      ensures fresh(r.data_.data) && r.Valid() && r.Value() == Signed(Value() + rhs)
    {
      r := new LargeInt.Copy(this);
      r.AddAssignInt(rhs);
    }

    /** `-=`: `data_.subtract`, with the padding cleared afterwards. As written the
        borrow is left in the padding bits (`SignedValues.UnclearedDifference`). */
    method SubAssign(rhs: LargeInt)
      requires Valid() && rhs.Valid()
      modifies data_.data
      ensures Valid() && Value() == Signed(old(Value()) - old(rhs.Value()))
    {
      ghost var a, b := data_.data[..], rhs.data_.data[..];
      var borrow := data_.Subtract(rhs.data_);
      ghost var d := data_.data[..];
      data_.ClearUnusedBits();
      ClearedValue(d);
      DifferenceValue(a, b, data_.data[..]);
    }

    /** `-= std::int64_t` */
    method SubAssignInt(rhs: int)
      requires Valid() && IsInt64(rhs)
      modifies data_.data
      ensures Valid() && Value() == Signed(old(Value()) - rhs)
    {
      var t := new LargeInt(rhs);
      SubAssign(t);
    }

    /** Binary `-` */
    method Sub(rhs: LargeInt) returns (r: LargeInt)
      requires Valid() && rhs.Valid()
      ensures fresh(r.data_.data) && r.Valid() && r.Value() == Signed(Value() - rhs.Value())
    {
      r := new LargeInt.Copy(this);
      r.SubAssign(rhs);
      assert data_.data[..] == old(data_.data[..]) && rhs.data_.data[..] == old(rhs.data_.data[..]);
    }

    method SubInt(rhs: int) returns (r: LargeInt)
      requires Valid() && IsInt64(rhs)
      ensures fresh(r.data_.data) && r.Valid() && r.Value() == Signed(Value() - rhs)
    {
      r := new LargeInt.Copy(this);
      r.SubAssignInt(rhs);
    }
  
    // -------------------------------------------------------------------
    // Multiplication
    // -------------------------------------------------------------------

    /** `*= std::int64_t`: the minimum is applied as `*2` then `*(min / 2)`; a
        negative factor negates `*this` first; the magnitude of `*this` is then
        multiplied word by word and the sign put back. */
    method MulAssignInt(rhs: int)
      requires Valid() && IsInt64(rhs)
      modifies data_.data
      ensures Valid() && Value() == Signed(old(Value()) * rhs)
      decreases if rhs == INT64_MIN then 1 else 0
    {
      ghost var x0 := Value();
      if rhs == INT64_MIN {
        MulAssignInt(2);
        MulAssignInt(INT64_MIN / 2);
        MinimumProduct(x0);
        return;
      }
      var r := rhs;
      if r < 0 {
        NegateSelf();
        r := -r;
        NegatedProduct(x0, rhs);
      }
      MulMagnitude(r);
    }

    /** The tail of `*= std::int64_t` once the factor is non-negative: the
        magnitude of `*this` goes through `data_.mul` and the sign is put back. */
    method MulMagnitude(r: Word)
      requires Valid() && r < INT64_LIMIT
      modifies data_.data
      ensures Valid() && Value() == Signed(old(Value()) * r)
    {
      ghost var x1 := Value();
      var neg := IsNegative();
      if neg {
        NegateSelf();
      }
      ghost var v := Val(data_.data[..]);
      MagnitudeWrap(data_.data[..], x1, neg);
      MulWord(r);
      ghost var m := Value();
      if neg {
        NegateSelf();
      }
      MagnitudeProduct(v, x1, r, neg, m, Value());
    }

    /** `data_.mul(r)`, its carry dropped. */
    method MulWord(r: Word)
      requires Valid()
      modifies data_.data
      ensures Valid() && Value() == Signed(old(Val(data_.data[..])) * r)
    {
      ghost var a := data_.data[..];
      var carry := data_.Mul(r);
      ProductPattern(a, data_.data[..], r);
    }

    /** `*=`: `*this = *this * rhs`. */
    method MulAssign(rhs: LargeInt)
      requires Valid() && rhs.Valid()
      modifies data_.data
      ensures Valid() && Value() == Signed(old(Value()) * old(rhs.Value()))
    {
      var p := Mul(rhs);
      data_.Assign(p.data_);
    }

    /** `* std::int64_t` */
    method MulInt(rhs: int) returns (r: LargeInt)
      requires Valid() && IsInt64(rhs)
      ensures fresh(r.data_.data) && r.Valid() && r.Value() == Signed(Value() * rhs)
    {
      r := new LargeInt.Copy(this);
      r.MulAssignInt(rhs);
    }

    /** `a` and `b` of binary `*`: a copy, negated when negative, so that its
        words hold the magnitude. */
    method Magnitude() returns (a: LargeInt, negative: bool)
      requires Valid()
      ensures fresh(a.data_.data) && a.Valid()
      ensures negative == (Value() < 0) && Val(a.data_.data[..]) == Abs(Value())
    {
      a := new LargeInt.Copy(this);
      negative := a.IsNegative();
      if negative {
        a.NegateSelf();
      }
      MagnitudePattern(a.data_.data[..], Value());
    }

    /** `tmp` of binary `*`: a copy times the word `w`, shifted up by `i` words. */
    method ShiftedProduct(w: Word, i: nat) returns (tmp: LargeInt)
      requires Valid() && i < W
      ensures fresh(tmp.data_.data) && tmp.Valid()
      ensures Val(tmp.data_.data[..]) == Wrap(Wrap(Val(data_.data[..]) * w) * WordPow(i))
    {
      tmp := new LargeInt.Copy(this);
      var carry := tmp.data_.Mul(w);
      Dims();
      Pow2Constants();
      tmp.ShlAssign(WORD_BITS * i);
      assert WordPow(i) == Pow2(WORD_BITS * i) by {
        if i == 1 {
          assert WordPow(1) == BASE;
        }
      }
    }

    /** The loop of binary `*`: one shifted partial product per word of `b`,
        accumulated with `+=`, gives the product of the two patterns modulo
        2^BITS. */
    method MagnitudeTimes(b: LargeInt) returns (result: LargeInt)
      requires Valid() && b.Valid()
      ensures fresh(result.data_.data) && result.Valid()
      ensures Val(result.data_.data[..]) == Wrap(Val(data_.data[..]) * Val(b.data_.data[..]))
    {
      ghost var va, bw := Val(data_.data[..]), b.data_.data[..];
      result := new LargeInt(0);
      Dims();
      assert Val(bw[..0]) == 0;
      for i := 0 to W
        invariant fresh(result.data_.data) && result.Valid()
        invariant Val(result.data_.data[..]) == Wrap(va * Val(bw[..i]))
      {
        ghost var acc := Val(result.data_.data[..]);
        var tmp := ShiftedProduct(b.data_.data[i], i);
        result.AddAssign(tmp);
        ValPrefix(bw, i);
        MulLoopStep(va, Val(bw[..i]), bw[i], WordPow(i), acc);
      }
      ValOfPrefixes(bw);
      WrapOfWrap(va * Val(bw));
    }

    /** Binary `*`: schoolbook multiplication of the magnitudes, then the sign
        applied. */
    method Mul(rhs: LargeInt) returns (result: LargeInt)
      requires Valid() && rhs.Valid()
      ensures fresh(result.data_.data) && result.Valid()
      ensures result.Value() == Signed(Value() * rhs.Value())
    {
      ghost var x, y := Value(), rhs.Value();
      var neg := false;
      var a, negA := Magnitude();
      var b, negB := rhs.Magnitude();
      if negA {
        neg := !neg;
      }
      if negB {
        neg := !neg;
      }
      ghost var va, vb := Val(a.data_.data[..]), Val(b.data_.data[..]);
      result := a.MagnitudeTimes(b);
      ghost var p := Val(result.data_.data[..]);
      CleanPattern(result.data_.data[..]);
      if neg {
        result.NegateSelf();
      }
      ProductOfMagnitudes(va, vb, x, y, negA, negB, p, result.Value());
    }

    // -------------------------------------------------------------------
    // Division and remainder
    // -------------------------------------------------------------------

    /** What `/=` and `%=` share once `*this` holds the dividend's magnitude:
        the copy of the divisor is made non-negative, flipping `neg`, the
        magnitudes go through `udivmod`, the quotient or the remainder replaces
        the words, and the result is negated when `neg` is set. */
    method DivideBy(rhsV: LargeInt, neg: bool, remainder: bool, ghost x: int)
      requires Valid() && rhsV.Valid() && rhsV.data_.data != data_.data
      requires InRange(x) && neg == (x < 0) && Val(data_.data[..]) == Abs(x)
      requires rhsV.Value() != 0 || x != -(SIGN as int)
      modifies data_.data, rhsV.data_.data
      ensures Valid()
      ensures Value() == if remainder then Remainder(x, old(rhsV.Value())) else Quotient(x, old(rhsV.Value()))
    {
      ghost var y := rhsV.Value();
      var negated := rhsV.MakeMagnitude();
      assert Val(data_.data[..]) == Abs(x);
      DivideSigned(rhsV, neg != negated, remainder);
      DividedMagnitudes(x, y, neg, Value(), remainder);
    }

    /** The quotient or the remainder of the magnitudes, negated when `flip`
        is set. */
    method DivideSigned(den: LargeInt, flip: bool, remainder: bool)
      requires Valid() && den.Valid() && den.data_.data != data_.data
      requires Val(data_.data[..]) <= SIGN && Val(den.data_.data[..]) <= SIGN
      requires Val(den.data_.data[..]) != 0 || Val(data_.data[..]) < SIGN
      modifies data_.data
      ensures Valid()
      ensures var qr := UDivModValues(true, old(Val(data_.data[..])), Val(den.data_.data[..]));
        Value() == Signed(WithSign(flip, if remainder then qr.1 else qr.0))
    {
      ghost var n0, d0 := Val(data_.data[..]), Val(den.data_.data[..]);
      ghost var m := DivideMagnitudes(den, remainder);
      assert Val(den.data_.data[..]) == d0;
      ghost var qr := UDivModValues(true, n0, d0);
      assert m == if remainder then qr.1 else qr.0;
      if flip {
        NegateSelf();
      }
      SignedWithSign(flip, m, Value());
    }

    /** `if (is_negative()) { neg = !neg; *this = -*this; }` with `neg` false
        before: the dividend's sign is taken off and reported. */
    method TakeSign() returns (neg: bool)
      requires Valid()
      modifies data_.data
      ensures Valid() && neg == (old(Value()) < 0)
      ensures Val(data_.data[..]) == Abs(old(Value()))
      ensures Value() == if neg then Signed(-old(Value())) else old(Value())
    {
      ghost var x := Value();
      neg := IsNegative();
      if neg {
        NegateSelf();
      }
      MagnitudePattern(data_.data[..], x);
    }

    /** The divisor's sign is taken off: `rhs_v.compare(0) < 0` negates it. */
    method MakeMagnitude() returns (negated: bool)
      requires Valid()
      modifies data_.data
      ensures Valid() && negated == (old(Value()) < 0)
      ensures Val(data_.data[..]) == Abs(old(Value()))
    {
      ghost var y := Value();
      var c := CompareInt(0);
      negated := c < 0;
      if negated {
        NegateSelf();
      }
      MagnitudePattern(data_.data[..], y);
    }

    /** `std::tie(data_, rem) = data_.udivmod(rhs_v.data_)` or
        `std::tie(div, data_) = ...`: the quotient or the remainder of the two
        patterns replaces the words. */
    method DivideMagnitudes(den: LargeInt, remainder: bool) returns (ghost m: nat)
      requires Valid() && den.Valid() && den.data_.data != data_.data
      requires Val(data_.data[..]) <= SIGN && Val(den.data_.data[..]) <= SIGN
      requires Val(den.data_.data[..]) != 0 || Val(data_.data[..]) < SIGN
      modifies data_.data
      ensures var qr := UDivModValues(true, old(Val(data_.data[..])), Val(den.data_.data[..]));
        m == if remainder then qr.1 else qr.0
      ensures Valid() && Value() == Signed(m)
    {
      var quo, rem := data_.UDivMod(den.data_);
      data_.Assign(if remainder then rem else quo);
      m := Val(data_.data[..]);
      CleanPattern(data_.data[..]);
    }

    /** `/=`, with the divisor copied before `*this` changes. As written the copy
        is taken after `*this` is negated, so `x /= x` goes wrong for a negative
        `x` (`DivAssignAsWritten`). The bounds check in `udivmod` demands a
        non-zero divisor unless the dividend's magnitude is below 2^(BITS-1). */
    method DivAssign(rhs: LargeInt)
      requires Valid() && rhs.Valid()
      requires rhs.Value() != 0 || Value() != -(SIGN as int)
      modifies data_.data
      ensures Valid() && Value() == Quotient(old(Value()), old(rhs.Value()))
    {
      ghost var x := Value();
      var rhsV := new LargeInt.Copy(rhs);
      var neg := TakeSign();
      DivideBy(rhsV, neg, false, x);
    }

    /** `/=` as written: `rhs` is copied after `*this = -*this`, which changes
        `rhs` too when it is `*this`. */
    method DivAssignAsWritten(rhs: LargeInt)
      requires Valid() && rhs.Valid()
      requires rhs.Value() != 0 || Value() != -(SIGN as int)
      modifies data_.data
      ensures Valid()
      ensures Value() == if rhs.data_.data == data_.data then AliasedQuotient(old(Value()))
                         else Quotient(old(Value()), old(rhs.Value()))
    {
      ghost var x, y0 := Value(), rhs.Value();
      var neg := TakeSign();
      var rhsV := new LargeInt.Copy(rhs);
      ghost var y := rhsV.Value();
      assert rhs.data_.data == data_.data ==> y == if x < 0 then Signed(-x) else x;
      assert rhs.data_.data != data_.data ==> y == y0;
      DivideBy(rhsV, neg, false, x);
    }

    /** `/= std::int64_t` */
    method DivAssignInt(rhs: int)
      requires Valid() && IsInt64(rhs)
      requires rhs != 0 || Value() != -(SIGN as int)
      modifies data_.data
      ensures Valid() && Value() == Quotient(old(Value()), rhs)
    {
      var t := new LargeInt(rhs);
      DivAssign(t);
    }

    /** Binary `/`: a copy divided, so never aliased. */
    method Div(rhs: LargeInt) returns (r: LargeInt)
      requires Valid() && rhs.Valid()
      requires rhs.Value() != 0 || Value() != -(SIGN as int)
      ensures fresh(r.data_.data) && r.Valid() && r.Value() == Quotient(Value(), rhs.Value())
    {
      r := new LargeInt.Copy(this);
      r.DivAssign(rhs);
    }

    method DivInt(rhs: int) returns (r: LargeInt)
      requires Valid() && IsInt64(rhs)
      requires rhs != 0 || Value() != -(SIGN as int)
      ensures fresh(r.data_.data) && r.Valid() && r.Value() == Quotient(Value(), rhs)
    {
      r := new LargeInt.Copy(this);
      r.DivAssignInt(rhs);
    }

    /** `%=` as written: the same late copy as `/=`, which does no harm here,
        since `x % x` and `x % -x` are both zero. */
    method RemAssign(rhs: LargeInt)
      requires Valid() && rhs.Valid()
      requires rhs.Value() != 0 || Value() != -(SIGN as int)
      modifies data_.data
      ensures Valid() && Value() == Remainder(old(Value()), old(rhs.Value()))
    {
      ghost var x, y0 := Value(), rhs.Value();
      var neg := TakeSign();
      var rhsV := new LargeInt.Copy(rhs);
      ghost var y := rhsV.Value();
      if rhs.data_.data == data_.data {
        assert y == if x < 0 then Signed(-x) else x;
        if x < 0 {
          AbsOfNegation(x);
        }
        AliasedRemainder(x);
      } else {
        assert y == y0;
      }
      DivideBy(rhsV, neg, true, x);
    }

    /** `%= std::int64_t` */
    method RemAssignInt(rhs: int)
      requires Valid() && IsInt64(rhs)
      requires rhs != 0 || Value() != -(SIGN as int)
      modifies data_.data
      ensures Valid() && Value() == Remainder(old(Value()), rhs)
    {
      var t := new LargeInt(rhs);
      RemAssign(t);
    }

    /** Binary `%` */
    method Rem(rhs: LargeInt) returns (r: LargeInt)
      requires Valid() && rhs.Valid()
      requires rhs.Value() != 0 || Value() != -(SIGN as int)
      ensures fresh(r.data_.data) && r.Valid() && r.Value() == Remainder(Value(), rhs.Value())
    {
      r := new LargeInt.Copy(this);
      r.RemAssign(rhs);
    }

    method RemInt(rhs: int) returns (r: LargeInt)
      requires Valid() && IsInt64(rhs)
      requires rhs != 0 || Value() != -(SIGN as int)
      ensures fresh(r.data_.data) && r.Valid() && r.Value() == Remainder(Value(), rhs)
    {
      r := new LargeInt.Copy(this);
      r.RemAssignInt(rhs);
    }

    // -------------------------------------------------------------------
    // Bitwise operators and shifts
    // -------------------------------------------------------------------

    /** `&=`: word-wise AND; the padding stays clear. */
    method AndAssign(rhs: LargeInt)
      requires Valid() && rhs.Valid()
      modifies data_.data
      ensures Valid() && data_.data[..] == AndWords(old(data_.data[..]), old(rhs.data_.data[..]))
    {
      BitwiseClean(data_.data[..], rhs.data_.data[..]);
      data_.BinaryAnd(rhs.data_);
    }

    /** `|=` */
    method OrAssign(rhs: LargeInt)
      requires Valid() && rhs.Valid()
      modifies data_.data
      ensures Valid() && data_.data[..] == OrWords(old(data_.data[..]), old(rhs.data_.data[..]))
    {
      BitwiseClean(data_.data[..], rhs.data_.data[..]);
      data_.BinaryOr(rhs.data_);
    }

    /** `^=` */
    method XorAssign(rhs: LargeInt)
      requires Valid() && rhs.Valid()
      modifies data_.data
      ensures Valid() && data_.data[..] == XorWords(old(data_.data[..]), old(rhs.data_.data[..]))
    {
      BitwiseClean(data_.data[..], rhs.data_.data[..]);
      data_.BinaryXor(rhs.data_);
    }

    /** Binary `&` */
    method And(rhs: LargeInt) returns (r: LargeInt)
      requires Valid() && rhs.Valid()
      ensures fresh(r.data_.data) && r.Valid() && r.data_.data[..] == AndWords(data_.data[..], rhs.data_.data[..])
    {
      r := new LargeInt.Copy(this);
      r.AndAssign(rhs);
    }

    /** Binary `|` */
    method Or(rhs: LargeInt) returns (r: LargeInt)
      requires Valid() && rhs.Valid()
      ensures fresh(r.data_.data) && r.Valid() && r.data_.data[..] == OrWords(data_.data[..], rhs.data_.data[..])
    {
      r := new LargeInt.Copy(this);
      r.OrAssign(rhs);
    }

    /** Binary `^` */
    method Xor(rhs: LargeInt) returns (r: LargeInt)
      requires Valid() && rhs.Valid()
      ensures fresh(r.data_.data) && r.Valid() && r.data_.data[..] == XorWords(data_.data[..], rhs.data_.data[..])
    {
      r := new LargeInt.Copy(this);
      r.XorAssign(rhs);
    }

    /** `<<=`: `data_.lshift`, with the padding cleared afterwards; as written the
        bits shifted past bit BITS - 1 stay (`SignedValues.UnclearedShift`). */
    method ShlAssign(n: Word)
      requires Valid()
      modifies data_.data
      ensures Valid()
      ensures Val(data_.data[..]) == Wrap(old(Val(data_.data[..])) * Pow2(n))
      ensures Value() == Signed(old(Value()) * Pow2(n))
    {
      ghost var a := data_.data[..];
      data_.LShift(n);
      ghost var t := data_.data[..];
      data_.ClearUnusedBits();
      LShiftedValue(a, n);
      ClearedValue(t);
      WrapOfStore(Val(a) * Pow2(n));
      ScaledValue(a, data_.data[..], Pow2(n));
    }

    /** Binary `<<` */
    method Shl(n: Word) returns (r: LargeInt)
      requires Valid()
      ensures fresh(r.data_.data) && r.Valid() && r.Value() == Signed(Value() * Pow2(n))
    {
      r := new LargeInt.Copy(this);
      r.ShlAssign(n);
    }

    /** `>>=`: the arithmetic shift, rounding toward minus infinity. */
    method ShrAssign(n: Word)
      requires Valid()
      modifies data_.data
      ensures Valid() && Value() == old(Value()) / Pow2(n)
    {
      RShiftedFixedSigned(data_.data[..], n);
      data_.RShift(n);
    }

    /** Binary `>>` */
    method Shr(n: Word) returns (r: LargeInt)
      requires Valid()
      ensures fresh(r.data_.data) && r.Valid() && r.Value() == Value() / Pow2(n)
    {
      r := new LargeInt.Copy(this);
      r.ShrAssign(n);
    }

    // -------------------------------------------------------------------
    // Output
    // -------------------------------------------------------------------

    /** `operator<<(std::ostream&, const Large_ap_int&)`: `-` for a negative
        value, then the magnitude's digits, collected by repeated `udivmod` by
        ten and reversed. Zero writes no digit at all. */
    method ToString() returns (s: string)
      requires Valid()
      ensures s == RenderSigned(Value())
    {
      var u := new LargeInt.Copy(this);
      var prefix := "";
      var isNeg := IsNegative();
      if isNeg {
        prefix := "-";
        u.NegateSelf();
      }
      MagnitudePattern(u.data_.data[..], Value());
      var gen := u.DecimalDigits();
      s := prefix + Reverse(gen);
    }

    /** The loop of `operator<<`: while the value is not zero, `udivmod` by ten
        replaces the words with the quotient and the remainder's low word is
        written as a character; the characters come out least significant
        first. */
    method DecimalDigits() returns (gen: string)
      requires Valid()
      modifies data_.data
      ensures Reverse(gen) == RenderValue(old(Pattern()))
    {
      ghost var n0 := Pattern();
      gen := "";
      var ten := new LargeInt(10);
      CleanPattern(ten.data_.data[..]);
      SignedInRange(10);
      ModSmall(10, MODULUS);
      var c := CompareInt(0);
      ZeroPattern(data_.data[..]);
      while c != 0
        invariant Valid() && ten.Valid() && ten.Pattern() == 10
        invariant c == 0 <==> Pattern() == 0
        invariant RenderValue(n0) == RenderValue(Pattern()) + Reverse(gen)
        decreases Pattern()
      {
        gen, c := NextDigit(ten, gen);
      }
    }

    /** One pass of the loop of `operator<<`: the quotient by ten replaces the
        words, the remainder's character is appended, and the loop condition
        is evaluated again. */
    method NextDigit(ten: LargeInt, gen: string) returns (next: string, c: int)
      requires Valid() && ten.Valid() && ten.Pattern() == 10 && Pattern() != 0
      modifies data_.data
      ensures Valid() && Pattern() < old(Pattern())
      ensures c == 0 <==> Pattern() == 0
      ensures old(RenderValue(Pattern())) + Reverse(gen) == RenderValue(Pattern()) + Reverse(next)
    {
      var digit := DivideByTen(ten);
      ReverseSnoc(gen, digit);
      next := gen + [digit];
      c := CompareInt(0);
      ZeroPattern(data_.data[..]);
    }

    /** `udivmod(ten)`, the quotient assigned back and the remainder's low word
        as a character. */
    method DivideByTen(ten: LargeInt) returns (digit: char)
      requires Valid() && ten.Valid() && ten.Pattern() == 10 && Pattern() != 0
      modifies data_.data
      ensures Valid() && Pattern() < old(Pattern())
      ensures old(RenderValue(Pattern())) == RenderValue(Pattern()) + [digit]
    {
      ghost var n := Pattern();
      var quo, rem := data_.UDivMod(ten.data_);
      data_.Assign(quo);
      ValDivMod(rem.data[..]);
      digit := DigitByte(rem.data[0]);
      UDivModCorrect(true, n, 10);
    }
  }
}
