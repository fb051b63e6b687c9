/** What the word loops of `Int_storage` compute, as functions on word
    sequences, and what those results are worth under `Val` and `SVal`. The
    methods of `IntStorage.Storage` are proved to produce exactly these sequences. */
module LimbOps {
  import opened Words
  import opened Limbs

  function Min(a: nat, b: nat): nat
  {
    if a < b then a else b
  }

  // ---------------------------------------------------------------------
  // Bits of a two-word value
  // ---------------------------------------------------------------------

  lemma ValDivMod(s: seq<Word>)
    requires Sized(s)
    ensures Val(s) % BASE == s[0] && Val(s) / BASE == s[1]
  {
    Constants();
    ValOfTwo(s);
    DivModUnique(Val(s), BASE, s[1], s[0]);
  }

  /** Bit p of the value is bit `p % 64` of word `p / 64`. */
  lemma BitOfVal(s: seq<Word>, p: nat)
    requires Sized(s) && p < WORD_BITS * W
    ensures Bit(Val(s), p) == Bit(s[p / WORD_BITS], p % WORD_BITS)
  {
    Constants();
    Pow2Constants();
    ValDivMod(s);
    var v := Val(s);
    if p < WORD_BITS {
      assert p / WORD_BITS == 0 && p % WORD_BITS == p;
      BitOfRemainder(v, WORD_BITS, p);
      assert v % Pow2(WORD_BITS) == s[0];
    } else {
      assert p / WORD_BITS == 1 && p % WORD_BITS == p - WORD_BITS;
      BitShifted(v, WORD_BITS, p - WORD_BITS);
      assert v / Pow2(WORD_BITS) == s[1];
    }
  }

  /** Bit BITS - 1 of the value is the sign of the signed reading. */
  lemma NegativeBit(s: seq<Word>)
    requires Sized(s)
    ensures Bit(Val(s), BITS - 1) <==> SVal(s) < 0
  {
    SignBit(s);
  }

  /** The sign bit is bit LW - 1 of the last word, and it is set exactly when the
      low BITS bits read as a negative two's-complement number. */
  lemma SignBit(s: seq<Word>)
    requires Sized(s)
    ensures Bit(s[W - 1], LW - 1) <==> Low(s) >= SIGN
    ensures Bit(s[W - 1], LW - 1) <==> SVal(s) < 0
    ensures Bit(s[W - 1], LW - 1) == Bit(Val(s), BITS - 1)
  {
    Constants();
    ClearedValue(s);
    ValOfTwo(Cleared(s));
    BitAsRemainder(s[1], 15);
    BitOfVal(s, BITS - 1);
  }

  // ---------------------------------------------------------------------
  // Padding fill
  // ---------------------------------------------------------------------

  /** The array after `fill_unused_bits`. */
  function Filled(s: seq<Word>): (r: seq<Word>)
    requires Sized(s)
    ensures Sized(r)
  {
    Constants();
    s[W - 1 := s[W - 1] % LAST_MOD + (BASE - LAST_MOD)]
  }

  /** Filling keeps the low BITS bits and sets every padding bit: the whole array then
      holds the 128-bit two's complement of the signed value. */
  lemma FilledValue(s: seq<Word>)
    requires Sized(s)
    ensures Low(Filled(s)) == Low(s)
    ensures Val(Filled(s)) == Low(s) + (STORE_MOD - MODULUS)
    ensures Bit(s[W - 1], LW - 1) ==> Val(Filled(s)) == SVal(s) + STORE_MOD
  {
    Constants();
    var f := Filled(s);
    assert Cleared(f) == Cleared(s) by {
      ModAddMultiple(s[1] % LAST_MOD, 0xFFFF_FFFF_FFFF, LAST_MOD);
      ModSmall(s[1] % LAST_MOD, LAST_MOD);
      assert f[1] % LAST_MOD == s[1] % LAST_MOD;
    }
    ClearedValue(s);
    ClearedValue(f);
    assert Val(f) == Low(s) + (STORE_MOD - MODULUS) by {
      ValOfTwo(f);
      ValOfTwo(Cleared(s));
    }
    SignBit(s);
  }

  // ---------------------------------------------------------------------
  // Inversion
  // ---------------------------------------------------------------------

  /** The array after `invert`: every word complemented, then the padding cleared. */
  function Inverted(s: seq<Word>): (r: seq<Word>)
    requires Sized(s)
    ensures Sized(r) && Clean(r)
  {
    Cleared(seq(W, i requires 0 <= i < W => WordNot(s[i])))
  }

  /** Inversion is `2^BITS - 1 - x` on the low BITS bits, so `-x - 1` signed. */
  lemma InvertedValue(s: seq<Word>)
    requires Sized(s)
    ensures Val(Inverted(s)) == MODULUS - 1 - Low(s)
    ensures SVal(Inverted(s)) == -SVal(s) - 1
  {
    Constants();
    var n := seq(W, i requires 0 <= i < W => WordNot(s[i]));
    var c := Cleared(s);
    var q := s[1] / LAST_MOD;
    ClearedValue(s);
    assert Val(n) == (MODULUS - 1 - Val(c)) + (0xFFFF_FFFF_FFFF - q) * MODULUS by {
      ValOfTwo(s);
      ValOfTwo(n);
      ValOfTwo(c);
      assert s[1] == s[1] % LAST_MOD + q * LAST_MOD;
    }
    assert 0 <= 0xFFFF_FFFF_FFFF - q by {
      DivBelow(s[1], LAST_MOD, 0x1_0000_0000_0000);
    }
    ClearedValue(n);
    ModAddMultiple(MODULUS - 1 - Val(c), 0xFFFF_FFFF_FFFF - q, MODULUS);
    ModSmall(MODULUS - 1 - Val(c), MODULUS);
    assert Val(Inverted(s)) == MODULUS - 1 - Low(s);
    CleanIsBounded(Inverted(s));
    ModSmall(Val(Inverted(s)), MODULUS);
  }

  /** Inverting twice gives back a clean array. */
  lemma InvertedTwice(s: seq<Word>)
    requires Sized(s) && Clean(s)
    ensures Inverted(Inverted(s)) == s
  {
    InvertedValue(s);
    InvertedValue(Inverted(s));
    CleanIsBounded(s);
    ModSmall(Val(s), MODULUS);
    CleanIsBounded(Inverted(s));
    ModSmall(Val(Inverted(s)), MODULUS);
    ValInjective(Inverted(Inverted(s)), s);
  }

  // ---------------------------------------------------------------------
  // Bitwise operators
  // ---------------------------------------------------------------------

  /** Word i of the results of `binary_and`, `binary_or` and `binary_xor`. */
  function AndWords(a: seq<Word>, b: seq<Word>): (r: seq<Word>)
    requires Sized(a) && Sized(b)
    ensures Sized(r)
  {
    seq(W, i requires 0 <= i < W => WordAnd(a[i], b[i]))
  }

  function OrWords(a: seq<Word>, b: seq<Word>): (r: seq<Word>)
    requires Sized(a) && Sized(b)
    ensures Sized(r)
  {
    seq(W, i requires 0 <= i < W => WordOr(a[i], b[i]))
  }

  function XorWords(a: seq<Word>, b: seq<Word>): (r: seq<Word>)
    requires Sized(a) && Sized(b)
    ensures Sized(r)
  {
    seq(W, i requires 0 <= i < W => WordXor(a[i], b[i]))
  }

  /** AND, OR and XOR of arrays without padding bits set leave the padding clear. */
  lemma BitwiseClean(a: seq<Word>, b: seq<Word>)
    requires Sized(a) && Sized(b) && Clean(a) && Clean(b)
    ensures Clean(AndWords(a, b)) && Clean(OrWords(a, b)) && Clean(XorWords(a, b))
  {
    Constants();
    BitwiseBelow(a[W - 1], b[W - 1], LW, WORD_BITS);
    AndBelow(a[W - 1], b[W - 1], LW, WORD_BITS);
  }

  /** Word-wise bitwise operations act bit by bit on the whole value. */
  lemma BitwiseValueBits(a: seq<Word>, b: seq<Word>, p: nat)
    requires Sized(a) && Sized(b) && p < WORD_BITS * W
    ensures Bit(Val(AndWords(a, b)), p) == (Bit(Val(a), p) && Bit(Val(b), p))
    ensures Bit(Val(OrWords(a, b)), p) == (Bit(Val(a), p) || Bit(Val(b), p))
    ensures Bit(Val(XorWords(a, b)), p) == (Bit(Val(a), p) != Bit(Val(b), p))
  {
    BitOfVal(a, p);
    BitOfVal(b, p);
    BitOfVal(AndWords(a, b), p);
    BitOfVal(OrWords(a, b), p);
    BitOfVal(XorWords(a, b), p);
    WordBitwiseBits(a[p / WORD_BITS], b[p / WORD_BITS], p % WORD_BITS);
  }

  // ---------------------------------------------------------------------
  // Comparison
  // ---------------------------------------------------------------------

  function Sign(x: int): (r: int)
    ensures r == -1 || r == 0 || r == 1
  {
    if x > 0 then 1 else if x < 0 then -1 else 0
  }

  /** The most significant differing word decides the order of the values. */
  lemma CompareAtWord(a: seq<Word>, b: seq<Word>, p: nat)
    requires Sized(a) && Sized(b) && p < W && a[p] != b[p]
    requires forall j :: p < j < W ==> a[j] == b[j]
    ensures Sign(Val(a) - Val(b)) == if a[p] > b[p] then 1 else -1
  {
    Constants();
    ValOfTwo(a);
    ValOfTwo(b);
  }

  // ---------------------------------------------------------------------
  // Leading zeros
  // ---------------------------------------------------------------------

  /** The position of the most significant set bit. */
  function Log2(x: nat): (r: nat)
    requires x > 0
    ensures Pow2(r) <= x < Pow2(r + 1)
  {
    if x == 1 then 0 else 1 + Log2(x / 2)
  }

  lemma Log2Unique(x: nat, k: nat)
    requires Pow2(k) <= x < Pow2(k + 1)
    ensures Log2(x) == k
  {
    var l := Log2(x);
    if l < k {
      Pow2Monotone(l + 1, k);
    } else if l > k {
      Pow2Monotone(k + 1, l);
    }
  }

  lemma Log2Below(x: nat, k: nat)
    requires 0 < x < Pow2(k)
    ensures Log2(x) < k
  {
    if Log2(x) >= k {
      Pow2Monotone(k, Log2(x));
    }
  }

  /** The number of leading zero bits of a BITS-bit value. */
  function Clz(v: nat): (r: nat)
    requires v < MODULUS
    ensures r <= BITS
  {
    if v == 0 then BITS
    else
      PowerConstants();
      Log2Below(v, BITS);
      BITS - 1 - Log2(v)
  }

  /** Leading zeros of a value whose top word is non-zero, or whose top word is
      zero, in terms of the words. */
  lemma Log2OfTwo(lo: Word, hi: nat)
    requires 0 < hi
    ensures Log2(lo + BASE * hi) == WORD_BITS + Log2(hi)
  {
    var l := Log2(hi);
    var P := Pow2(l);
    Pow2Constants();
    Pow2Add(WORD_BITS, l);
    Pow2Add(WORD_BITS, l + 1);
    assert Pow2(WORD_BITS + l) == BASE * P;
    assert Pow2(WORD_BITS + l + 1) == BASE * (2 * P);
    MulLe(BASE, P, BASE, hi);
    MulLe(BASE, hi + 1, BASE, 2 * P);
    Log2Unique(lo + BASE * hi, WORD_BITS + l);
  }

  // ---------------------------------------------------------------------
  // Left shift
  // ---------------------------------------------------------------------

  /** Word j after the word-moving loop of `lshift`, for a shift by `ws` words and
      `bs` bits. The carry term from the word below is left out when `bs == 0`: the
      source shifts a word by 64 there, which C++ leaves undefined, and the intended
      carry-in is nothing. */
  function LShiftWord(a: seq<Word>, j: nat, ws: nat, bs: nat): Word
    requires Sized(a) && j < W && bs < WORD_BITS
  {
    if j < ws then 0
    else
      var x := WordShl(a[j - ws], bs);
      if j > ws && bs != 0 then WordOr(x, WordShr(a[j - ws - 1], WORD_BITS - bs)) else x
  }

  /** The array after `lshift(n)`. */
  function LShifted(a: seq<Word>, n: nat): (r: seq<Word>)
    requires Sized(a)
    ensures Sized(r)
  {
    if n == 0 then a
    else
      var ws, bs := Min(n / WORD_BITS, W), n % WORD_BITS;
      seq(W, j requires 0 <= j < W => LShiftWord(a, j, ws, bs))
  }

  lemma MulRearrange(x: int, y: int, z: int)
    ensures x * (y * z) == (x * z) * y
  {
  }

  lemma ScaledSplit(x: int, p: int, t: int)
    requires x >= 0 && p > 0 && t > 0
    ensures x * t == (x / p) * (p * t) + (x % p) * t
  {
    assert x == (x / p) * p + x % p;
    calc {
      x * t;
      ((x / p) * p + x % p) * t;
      (x / p) * (p * t) + (x % p) * t;
    }
  }

  /** A shift by fewer than 64 bits of a two-word value. */
  lemma LShiftBitsArith(v: int, a0: int, a1: int, t: int, p: int)
    requires t > 0 && p > 0 && t * p == BASE && 0 <= a0 < BASE && 0 <= a1 < BASE
    requires v == a0 + BASE * a1
    ensures (v * t) % STORE_MOD == (a0 % p) * t + BASE * ((a1 % p) * t + a0 / p)
  {
    ScaledSplit(a0, p, t);
    ScaledSplit(a1, p, t);
    var r := (a0 % p) * t + BASE * ((a1 % p) * t + a0 / p);
    assert (a0 + BASE * a1) * t == r + (BASE * BASE) * (a1 / p) by {
      assert (a0 + BASE * a1) * t == a0 * t + BASE * (a1 * t);
    }
    var lo, hi := (a0 % p) * t, (a1 % p) * t + a0 / p;
    ScaledBelow(a0 % p, p, t);
    ScaledBelow(a1 % p, p, t);
    DivBelow(a0, p, t);
    assert 0 <= lo < BASE && 0 <= hi < BASE;
    MulLe(BASE, hi, BASE, BASE - 1);
    DivModUnique((a0 + BASE * a1) * t, BASE * BASE, a1 / p, r);
  }

  /** A shift by one word and fewer than 64 more bits of a two-word value. */
  lemma LShiftWordArith(v: int, a0: int, a1: int, t: int, p: int)
    requires t > 0 && p > 0 && t * p == BASE && 0 <= a0 < BASE && 0 <= a1 < BASE
    requires v == a0 + BASE * a1
    ensures (v * (BASE * t)) % STORE_MOD == BASE * ((a0 % p) * t)
  {
    ScaledSplit(a0, p, t);
    var r := BASE * ((a0 % p) * t);
    assert (a0 + BASE * a1) * (BASE * t) == r + (BASE * BASE) * (a0 / p + a1 * t) by {
      assert (a0 + BASE * a1) * (BASE * t) == BASE * (a0 * t) + (BASE * BASE) * (a1 * t);
    }
    ScaledBelow(a0 % p, p, t);
    MulLe(BASE, (a0 % p) * t, BASE, BASE - 1);
    DivModUnique((a0 + BASE * a1) * (BASE * t), BASE * BASE, a0 / p + a1 * t, r);
  }

  /** `lshift(n)` multiplies by 2^n modulo 2^(64 W), the width of the whole array. */
  lemma LShiftedValue(a: seq<Word>, n: nat)
    requires Sized(a)
    ensures Val(LShifted(a, n)) == (Val(a) * Pow2(n)) % STORE_MOD
  {
    Constants();
    if n == 0 {
      ValSizedBound(a);
      ModSmall(Val(a), STORE_MOD);
    } else if n >= WORD_BITS * W {
      LShiftOut(a, n);
    } else if n < WORD_BITS {
      LShiftBits(a, n);
    } else {
      LShiftWordBits(a, n);
    }
  }

  lemma LShiftOut(a: seq<Word>, n: nat)
    requires Sized(a) && n >= WORD_BITS * W
    ensures Val(LShifted(a, n)) == (Val(a) * Pow2(n)) % STORE_MOD
  {
    Constants();
    var r := LShifted(a, n);
    assert r[0] == 0 && r[1] == 0;
    ValOfTwo(r);
    Pow2Add(WORD_BITS * W, n - WORD_BITS * W);
    var k := Val(a) * Pow2(n - WORD_BITS * W);
    MulRearrange(Val(a), STORE_MOD, Pow2(n - WORD_BITS * W));
    assert Val(a) * Pow2(n) == k * STORE_MOD;
    ModAddMultiple(0, k, STORE_MOD);
  }

  lemma LShiftBits(a: seq<Word>, n: nat)
    requires Sized(a) && 0 < n < WORD_BITS
    ensures Val(LShifted(a, n)) == (Val(a) * Pow2(n)) % STORE_MOD
  {
    Constants();
    var r := LShifted(a, n);
    var a0, a1 := a[0], a[1];
    var t, p := Pow2(n), Pow2(WORD_BITS - n);
    assert Val(r) == (a0 % p) * t + BASE * ((a1 % p) * t + a0 / p) by {
      LShiftBitsWords(a, n);
      ValOfTwo(r);
    }
    Pow2Split(n);
    ValOfTwo(a);
    LShiftBitsArith(Val(a), a0, a1, t, p);
  }

  lemma LShiftBitsWords(a: seq<Word>, n: nat)
    requires Sized(a) && 0 < n < WORD_BITS
    ensures var r, p, t := LShifted(a, n), Pow2(WORD_BITS - n), Pow2(n);
            && r[0] == (a[0] % p) * t
            && r[1] == (a[1] % p) * t + a[0] / p
  {
    Dims();
    var r := LShifted(a, n);
    ModSmall(n, WORD_BITS);
    assert r[0] == WordShl(a[0], n);
    assert r[1] == WordOr(WordShl(a[1], n), WordShr(a[0], WORD_BITS - n));
    ShlAsScaled(a[0], n);
    ShiftPair(a[1], a[0], n);
  }

  lemma LShiftWordBits(a: seq<Word>, n: nat)
    requires Sized(a) && WORD_BITS <= n < WORD_BITS * W
    ensures Val(LShifted(a, n)) == (Val(a) * Pow2(n)) % STORE_MOD
  {
    Dims();
    var r := LShifted(a, n);
    var a0, a1 := a[0], a[1];
    var bs := n - WORD_BITS;
    var t, p := Pow2(bs), Pow2(WORD_BITS - bs);
    assert r[0] == 0 && r[1] == (a0 % p) * t by {
      ModAddMultiple(bs, 1, WORD_BITS);
      ModSmall(bs, WORD_BITS);
      ShlAsScaled(a0, bs);
    }
    assert Val(r) == BASE * ((a0 % p) * t) by {
      ValOfTwo(r);
    }
    Pow2Split(bs);
    Pow2WordPlus(bs);
    ValOfTwo(a);
    LShiftWordArith(Val(a), a0, a1, t, p);
  }

  // ---------------------------------------------------------------------
  // Right shift
  // ---------------------------------------------------------------------

  /** Word j (for `j + ws < W`) after the word-moving loop of `rshift`. As in
      `LShiftWord`, there is no carry term when `bs == 0`. */
  function RShiftWord(a: seq<Word>, j: nat, ws: nat, bs: nat): Word
    requires Sized(a) && j + ws < W && bs < WORD_BITS
  {
    var x := WordShr(a[j + ws], bs);
    if j + ws + 1 < W && bs != 0 then WordOr(x, WordShl(a[j + ws + 1], WORD_BITS - bs)) else x
  }

  /** The array after the word-moving loop of `rshift`: the top `ws` words are not
      written. */
  function RMoved(a: seq<Word>, ws: nat, bs: nat): (r: seq<Word>)
    requires Sized(a) && bs < WORD_BITS
    ensures Sized(r)
  {
    seq(W, j requires 0 <= j < W => if j + ws < W then RShiftWord(a, j, ws, bs) else a[j])
  }

  /** The mask `~((1 << (64 - bs)) - 1)` that sets the top `bs` bits of a word. The
      source builds `1 << (64 - bs)` on `int`, which overflows for `bs <= 33`, and
      shifts by 64 when `bs == 0`; this is the intended word mask, 0 for `bs == 0`. */
  function TopMask(bs: nat): (m: Word)
    requires bs < WORD_BITS
    ensures m == BASE - Pow2(WORD_BITS - bs)
  {
    Pow2Constants();
    if bs == 0 then 0
    else
      Pow2Monotone(WORD_BITS - bs, WORD_BITS);
      assert WordShl(1, WORD_BITS - bs) == Pow2(WORD_BITS - bs) by {
        ModSmall(Pow2(WORD_BITS - bs), BASE);
      }
      WordNot(WordShl(1, WORD_BITS - bs) - 1)
  }

  /** The array after `rshift(n)` as the source writes it. When the sign bit is set
      the padding is filled first, the vacated top words are set to all ones, the
      top bits of the highest moved word are set by the mask, and the padding is
      cleared. When it is not set, the vacated top words keep their old contents. */
  function RShifted(a: seq<Word>, n: nat): (r: seq<Word>)
    requires Sized(a)
    ensures Sized(r)
  {
    Constants();
    var ws, bs := Min(n / WORD_BITS, W), n % WORD_BITS;
    if Bit(a[W - 1], LW - 1) then RFilled(a, ws, bs) else RMoved(a, ws, bs)
  }

  /** Word j of the sign-filling branch before the padding is cleared: the vacated
      top words are all ones and the highest moved word gets the top mask. */
  function FillWord(m: seq<Word>, j: nat, ws: nat, bs: nat): Word
    requires j < |m| && bs < WORD_BITS
  {
    if j + ws >= |m| then WORD_MAX
    else if j + ws + 1 == |m| then WordOr(m[j], TopMask(bs))
    else m[j]
  }

  /** The moved words `m` after the vacated words and the mask are set. */
  function FillTop(m: seq<Word>, ws: nat, bs: nat): (r: seq<Word>)
    requires Sized(m) && bs < WORD_BITS
    ensures Sized(r)
  {
    seq(W, j requires 0 <= j < W => FillWord(m, j, ws, bs))
  }

  /** The sign-filling branch of `rshift`, before the final `clear_unused_bits`. */
  function FillMoved(a: seq<Word>, ws: nat, bs: nat): (r: seq<Word>)
    requires Sized(a) && ws <= W && bs < WORD_BITS
    ensures Sized(r)
  {
    FillTop(RMoved(Filled(a), ws, bs), ws, bs)
  }

  /** The mask sets the top `bs` bits of a word whose top `bs` bits are clear. */
  lemma TopMaskOr(x: Word, bs: nat)
    requires bs < WORD_BITS && x < Pow2(WORD_BITS - bs)
    ensures WordOr(x, TopMask(bs)) == x + (BASE - Pow2(WORD_BITS - bs))
  {
    Pow2Constants();
    if bs == 0 {
      OrZero(x, WORD_BITS);
    } else {
      TopMaskOrBits(x, WORD_BITS - bs, TopMask(bs));
    }
  }

  lemma TopMaskOrBits(x: Word, k: nat, m: Word)
    requires 0 < k < WORD_BITS && x < Pow2(k) && m == BASE - Pow2(k)
    ensures WordOr(x, m) == x + (BASE - Pow2(k))
  {
    Pow2Constants();
    Pow2Monotone(k, WORD_BITS);
    OrTop(x, k, WORD_BITS, m);
  }

  /** OR with 2^n - 2^k of a number below 2^k adds the mask. */
  lemma OrTop(x: nat, k: nat, n: nat, m: int)
    requires 0 < k <= n && x < Pow2(k) && Pow2(k) <= Pow2(n) && m == Pow2(n) - Pow2(k)
    ensures BitOr(x, m, n) == x + m
  {
    OrHighMask(x, k, n);
    ModSmall(x, Pow2(k));
  }

  /** The sign-filling branch of `rshift`. */
  function RFilled(a: seq<Word>, ws: nat, bs: nat): (r: seq<Word>)
    requires Sized(a) && ws <= W && bs < WORD_BITS
    ensures Sized(r)
  {
    Cleared(FillMoved(a, ws, bs))
  }

  /** A right shift by fewer than 64 bits of a two-word value. */
  lemma RShiftBitsArith(v: int, a0: int, a1: int, t: int, p: int)
    requires t > 0 && p > 0 && t * p == BASE && 0 <= a0 < BASE && 0 <= a1 < BASE
    requires v == a0 + BASE * a1
    ensures (a1 % t) * p + a0 / t < BASE
    ensures v / t == ((a1 % t) * p + a0 / t) + BASE * (a1 / t)
  {
    var q := (a1 % t) * p + a0 / t + BASE * (a1 / t);
    assert a1 == (a1 / t) * t + a1 % t;
    assert a0 == (a0 / t) * t + a0 % t;
    assert a0 + BASE * a1 == q * t + a0 % t by {
      assert BASE * a1 == (a1 / t) * (BASE * t) + (a1 % t) * (p * t);
    }
    DivModUnique(a0 + BASE * a1, t, q, a0 % t);
    ScaledBelow(a1 % t, t, p);
    DivBelow(a0, t, p);
  }

  /** The moved words hold the value shifted right by `64 ws + bs`. */
  lemma RMovedValue(a: seq<Word>, n: nat)
    requires Sized(a)
    ensures Val(RMoved(a, Min(n / WORD_BITS, W), n % WORD_BITS)[..W - Min(n / WORD_BITS, W)])
         == Val(a) / Pow2(n)
  {
    Dims();
    if n >= WORD_BITS * W {
      RMovedOut(a, n);
    } else if n >= WORD_BITS {
      RMovedWordBits(a, n);
    } else {
      RMovedBits(a, n);
      assert RMoved(a, 0, n)[..W] == RMoved(a, 0, n);
    }
  }

  /** The words above the moved ones are left as they were. */
  lemma RMovedTop(a: seq<Word>, ws: nat, bs: nat)
    requires Sized(a) && bs < WORD_BITS && ws <= W
    ensures RMoved(a, ws, bs)[W - ws..] == a[W - ws..]
  {
  }

  lemma RMovedOut(a: seq<Word>, n: nat)
    requires Sized(a) && n >= WORD_BITS * W
    ensures Min(n / WORD_BITS, W) == W
    ensures Val(RMoved(a, W, n % WORD_BITS)[..0]) == Val(a) / Pow2(n)
  {
    Constants();
    ValSizedBound(a);
    Pow2Monotone(WORD_BITS * W, n);
    ModSmall(Val(a), Pow2(n));
  }

  lemma RMovedWordBits(a: seq<Word>, n: nat)
    requires Sized(a) && WORD_BITS <= n < WORD_BITS * W
    ensures Min(n / WORD_BITS, W) == 1
    ensures Val(RMoved(a, 1, n % WORD_BITS)[..1]) == Val(a) / Pow2(n)
  {
    Dims();
    var bs := n - WORD_BITS;
    assert n / WORD_BITS == 1 && n % WORD_BITS == bs by {
      ModAddMultiple(bs, 1, WORD_BITS);
      ModSmall(bs, WORD_BITS);
    }
    var r := RMoved(a, 1, bs);
    var t := Pow2(bs);
    assert Val(r[..1]) == a[1] / t by {
      assert r[0] == WordShr(a[1], bs);
      ValOfPrefixes(r);
    }
    Pow2WordPlus(bs);
    ValDivMod(a);
    DivideTwice(Val(a), BASE, t, Pow2(n), a[1]);
  }

  /** Dividing by a product is dividing by each factor in turn. */
  lemma DivideTwice(v: nat, b: nat, t: nat, p: nat, hi: nat)
    requires b > 0 && t > 0 && p == b * t && v / b == hi
    ensures v / p == hi / t
  {
    DivModProduct(v, b, t);
  }

  lemma RMovedBits(a: seq<Word>, n: nat)
    requires Sized(a) && n < WORD_BITS
    ensures Min(n / WORD_BITS, W) == 0 && n % WORD_BITS == n
    ensures Val(RMoved(a, 0, n)) == Val(a) / Pow2(n)
  {
    Dims();
    ModSmall(n, WORD_BITS);
    var r := RMoved(a, 0, n);
    if n == 0 {
      assert r[0] == a[0] && r[1] == a[1];
      assert r == a;
    } else {
      var a0, a1 := a[0], a[1];
      var t, p := Pow2(n), Pow2(WORD_BITS - n);
      assert r[0] == (a1 % t) * p + a0 / t && r[1] == a1 / t by {
        RMovedBitsWords(a, n);
      }
      Pow2Split(n);
      ValOfTwo(a);
      ValOfTwo(r);
      RShiftBitsArith(Val(a), a0, a1, t, p);
    }
  }

  lemma RMovedBitsWords(a: seq<Word>, n: nat)
    requires Sized(a) && 0 < n < WORD_BITS
    ensures var r, t, p := RMoved(a, 0, n), Pow2(n), Pow2(WORD_BITS - n);
            && r[0] == (a[1] % t) * p + a[0] / t
            && r[1] == a[1] / t
  {
    Dims();
    var r := RMoved(a, 0, n);
    assert r[0] == WordOr(WordShr(a[0], n), WordShl(a[1], WORD_BITS - n));
    assert r[1] == WordShr(a[1], n);
    ShiftPair(a[1], a[0], WORD_BITS - n);
    OrCommutes(WordShr(a[0], n), WordShl(a[1], WORD_BITS - n), WORD_BITS);
  }

  // ---------------------------------------------------------------------
  // What rshift computes
  // ---------------------------------------------------------------------

  /** Without the sign bit, the moved words are the value shifted right and the
      vacated top words keep their old contents. */
  lemma RShiftedUnsigned(a: seq<Word>, n: nat)
    requires Sized(a) && !Bit(a[W - 1], LW - 1)
    ensures var ws := Min(n / WORD_BITS, W);
            && Val(RShifted(a, n)[..W - ws]) == Val(a) / Pow2(n)
            && RShifted(a, n)[W - ws..] == a[W - ws..]
  {
    RMovedValue(a, n);
    RMovedTop(a, Min(n / WORD_BITS, W), n % WORD_BITS);
  }

  /** A shift by fewer than 64 bits without the sign bit is a plain division. */
  lemma RShiftedSmall(a: seq<Word>, n: nat)
    requires Sized(a) && !Bit(a[W - 1], LW - 1) && n < WORD_BITS
    ensures Val(RShifted(a, n)) == Val(a) / Pow2(n)
    ensures Clean(a) ==> Clean(RShifted(a, n))
  {
    Dims();
    RShiftedUnsigned(a, n);
    ModSmall(n, WORD_BITS);
    assert RShifted(a, n)[..W] == RShifted(a, n);
    if Clean(a) {
      CleanIsBounded(a);
      DivNonneg(Val(a), Pow2(n));
      CleanIsBounded(RShifted(a, n));
    }
  }

  /** The result of the sign-filling branch before the padding is cleared is the
      floor of the signed value over 2^n, as a 128-bit two's complement. */
  lemma FillMovedValue(a: seq<Word>, n: nat)
    requires Sized(a) && Bit(a[W - 1], LW - 1)
    ensures Val(FillMoved(a, Min(n / WORD_BITS, W), n % WORD_BITS)) == SVal(a) / Pow2(n) + STORE_MOD
  {
    Dims();
    FilledValue(a);
    if n >= WORD_BITS * W {
      FillMovedOut(a, n);
    } else if n >= WORD_BITS {
      FillMovedWordBits(a, n);
    } else {
      FillMovedBits(a, n);
    }
  }

  lemma FillMovedOut(a: seq<Word>, n: nat)
    requires Sized(a) && Bit(a[W - 1], LW - 1) && n >= WORD_BITS * W
    ensures Min(n / WORD_BITS, W) == W
    ensures Val(FillMoved(a, W, n % WORD_BITS)) == SVal(a) / Pow2(n) + STORE_MOD
  {
    Constants();
    var u := FillMoved(a, W, n % WORD_BITS);
    assert u[0] == WORD_MAX && u[1] == WORD_MAX;
    ValOfTwo(u);
    SignBit(a);
    Pow2Monotone(WORD_BITS * W, n);
    var S := SVal(a);
    DivModUnique(S, Pow2(n), -1, S + Pow2(n));
  }

  lemma FillMovedWordBits(a: seq<Word>, n: nat)
    requires Sized(a) && Bit(a[W - 1], LW - 1) && WORD_BITS <= n < WORD_BITS * W
    ensures Min(n / WORD_BITS, W) == 1
    ensures Val(FillMoved(a, 1, n % WORD_BITS)) == SVal(a) / Pow2(n) + STORE_MOD
  {
    Dims();
    var bs := n - WORD_BITS;
    assert n / WORD_BITS == 1 && n % WORD_BITS == bs by {
      ModAddMultiple(bs, 1, WORD_BITS);
      ModSmall(bs, WORD_BITS);
    }
    FillMovedWordValue(a, bs);
    FilledWordQuotient(a, bs);
  }

  lemma FillMovedWordValue(a: seq<Word>, bs: nat)
    requires Sized(a) && bs < WORD_BITS
    ensures Val(FillMoved(a, 1, bs)) == Filled(a)[1] / Pow2(bs) - Pow2(WORD_BITS - bs) + STORE_MOD
  {
    Dims();
    FillMovedWordBitsWords(a, bs);
    ValOfTwo(FillMoved(a, 1, bs));
  }

  lemma FilledWordQuotient(a: seq<Word>, bs: nat)
    requires Sized(a) && Bit(a[W - 1], LW - 1) && bs < WORD_BITS
    ensures SVal(a) / Pow2(WORD_BITS + bs) == Filled(a)[1] / Pow2(bs) - Pow2(WORD_BITS - bs)
  {
    Dims();
    var f := Filled(a);
    var t, p := Pow2(bs), Pow2(WORD_BITS - bs);
    Pow2Split(bs);
    Pow2WordPlus(bs);
    FilledValue(a);
    SignBit(a);
    ValDivMod(f);
    FillWordArith(SVal(a), Val(f), f[1], t, p);
  }

  lemma FillMovedWordBitsWords(a: seq<Word>, bs: nat)
    requires Sized(a) && bs < WORD_BITS
    ensures var u, t := FillMoved(a, 1, bs), Pow2(bs);
            u[0] == Filled(a)[1] / t + (BASE - Pow2(WORD_BITS - bs)) && u[1] == WORD_MAX
  {
    Dims();
    var f := Filled(a);
    var t, p := Pow2(bs), Pow2(WORD_BITS - bs);
    var m := RMoved(f, 1, bs);
    assert m[0] == f[1] / t;
    Pow2Split(bs);
    HighBelow(f[1], t, p);
    FillTopOne(m, bs);
  }

  lemma FillTopOne(m: seq<Word>, bs: nat)
    requires Sized(m) && bs < WORD_BITS && m[0] < Pow2(WORD_BITS - bs)
    ensures var u := FillTop(m, 1, bs);
            u[0] == m[0] + (BASE - Pow2(WORD_BITS - bs)) && u[1] == WORD_MAX
  {
    Dims();
    assert FillTop(m, 1, bs)[0] == WordOr(m[0], TopMask(bs));
    TopMaskOr(m[0], bs);
  }

  lemma FillTopNone(m: seq<Word>, bs: nat)
    requires Sized(m) && bs < WORD_BITS && m[1] < Pow2(WORD_BITS - bs)
    ensures var u := FillTop(m, 0, bs);
            u[0] == m[0] && u[1] == m[1] + (BASE - Pow2(WORD_BITS - bs))
  {
    Dims();
    assert FillTop(m, 0, bs)[1] == WordOr(m[1], TopMask(bs));
    TopMaskOr(m[1], bs);
  }

  lemma FillWordArith(S: int, v: int, f1: int, t: int, p: int)
    requires t > 0 && p > 0 && t * p == BASE && v == S + BASE * BASE && v >= 0 && v / BASE == f1
    ensures S / (BASE * t) == f1 / t - p
  {
    DivModProduct(v, BASE, t);
    assert BASE * BASE == p * (BASE * t);
    ModAddMultiple(S, p, BASE * t);
  }

  lemma FillMovedBits(a: seq<Word>, n: nat)
    requires Sized(a) && Bit(a[W - 1], LW - 1) && n < WORD_BITS
    ensures Min(n / WORD_BITS, W) == 0 && n % WORD_BITS == n
    ensures Val(FillMoved(a, 0, n)) == SVal(a) / Pow2(n) + STORE_MOD
  {
    Dims();
    ModSmall(n, WORD_BITS);
    var f := Filled(a);
    var m := RMoved(f, 0, n);
    var t, p := Pow2(n), Pow2(WORD_BITS - n);
    Pow2Split(n);
    var u := FillMoved(a, 0, n);
    assert Val(u) == Val(m) + BASE * (BASE - p) by {
      FillMovedBitsWords(a, n);
      ValOfTwo(u);
      ValOfTwo(m);
      FillBitsCombine(u[0], u[1], m[0], m[1], BASE - p);
    }
    var S := SVal(a);
    assert Val(m) + BASE * (BASE - p) == S / t + STORE_MOD by {
      RMovedBits(f, n);
      FilledValue(a);
      SignBit(a);
      FillBitsArith(S, Val(f), t, p);
    }
  }

  lemma FillMovedBitsWords(a: seq<Word>, n: nat)
    requires Sized(a) && n < WORD_BITS
    ensures var u, m := FillMoved(a, 0, n), RMoved(Filled(a), 0, n);
            u[0] == m[0] && u[1] == m[1] + (BASE - Pow2(WORD_BITS - n))
  {
    RMovedHighBelow(Filled(a), n);
    FillTopNone(RMoved(Filled(a), 0, n), n);
  }

  lemma FillBitsCombine(u0: int, u1: int, m0: int, m1: int, c: int)
    requires u0 == m0 && u1 == m1 + c
    ensures u0 + BASE * u1 == (m0 + BASE * m1) + BASE * c
  {
  }

  /** The top `n` bits of the highest moved word are clear. */
  lemma RMovedHighBelow(a: seq<Word>, n: nat)
    requires Sized(a) && n < WORD_BITS
    ensures RMoved(a, 0, n)[1] < Pow2(WORD_BITS - n)
  {
    Dims();
    var t, p := Pow2(n), Pow2(WORD_BITS - n);
    assert RMoved(a, 0, n)[1] == a[1] / t;
    Pow2Split(n);
    Pow2Constants();
    HighBelow(a[1], t, p);
  }

  lemma HighBelow(x: int, t: int, p: int)
    requires 0 <= x < BASE && t > 0 && p > 0 && t * p == BASE
    ensures x / t < p
  {
    DivBelow(x, t, p);
  }

  lemma FillBitsArith(S: int, v: int, t: int, p: int)
    requires t > 0 && p > 0 && t * p == BASE && v == S + BASE * BASE
    ensures v / t + BASE * (BASE - p) == S / t + BASE * BASE
  {
    assert BASE * BASE == (BASE * p) * t;
    ModAddMultiple(S, BASE * p, t);
  }

  /** Clearing the padding of a 128-bit two's complement of an in-range value. */
  lemma ClearSigned(u: seq<Word>, y: int)
    requires Sized(u) && -(SIGN as int) <= y < 0 && Val(u) == y + STORE_MOD
    ensures Clean(Cleared(u)) && SVal(Cleared(u)) == y
  {
    Constants();
    ClearedValue(u);
    ModAddMultiple(y, 0x1_0000_0000_0000, MODULUS);
    ModSmall(Val(Cleared(u)), MODULUS);
    SignedInRange(y);
  }

  lemma FloorOfNegative(S: int, d: int)
    requires S < 0 && d >= 1
    ensures S <= S / d < 0
  {
    var q, r := S / d, S % d;
    assert S == q * d + r && r < d;
    if q >= 0 {
      MulLe(0, 0, q, d);
    } else {
      var k := -(q + 1);
      MulLe(k, 1, k, d);
      assert k * d >= k;
      assert (q + 1) * d == -(k * d);
    }
  }

  /** With the sign bit set, `rshift(n)` is the arithmetic shift: the floor of the
      signed value over 2^n, with clean padding. */
  lemma RShiftedSigned(a: seq<Word>, n: nat)
    requires Sized(a) && Bit(a[W - 1], LW - 1)
    ensures Clean(RShifted(a, n)) && SVal(RShifted(a, n)) == SVal(a) / Pow2(n)
  {
    FillMovedValue(a, n);
    SignBit(a);
    FloorOfNegative(SVal(a), Pow2(n));
    ClearSigned(FillMoved(a, Min(n / WORD_BITS, W), n % WORD_BITS), SVal(a) / Pow2(n));
  }

  // ---------------------------------------------------------------------
  // The intended rshift
  // ---------------------------------------------------------------------

  /** The non-filling branch as intended: the vacated top words become zero. */
  function RZeroed(a: seq<Word>, ws: nat, bs: nat): (r: seq<Word>)
    requires Sized(a) && bs < WORD_BITS
    ensures Sized(r)
  {
    seq(W, j requires 0 <= j < W => if j + ws < W then RShiftWord(a, j, ws, bs) else 0)
  }

  /** `rshift(n)` with the vacated words of the non-filling branch zeroed. */
  function RShiftedFixed(a: seq<Word>, n: nat): (r: seq<Word>)
    requires Sized(a)
    ensures Sized(r)
  {
    Dims();
    var ws, bs := Min(n / WORD_BITS, W), n % WORD_BITS;
    if Bit(a[W - 1], LW - 1) then RFilled(a, ws, bs) else RZeroed(a, ws, bs)
  }

  /** As written, `rshift` leaves the vacated top words of the non-filling branch
      in place: `[0, 1] >> 64` gives `[1, 1]`, which is 2^64 + 1, not 1. */
  lemma RShiftedStale()
    ensures RShifted([0, 1], 64) == [1, 1]
    ensures Val([1, 1]) != Val([0, 1]) / Pow2(64)
  {
    var a: seq<Word> := [0, 1];
    assert RShifted(a, 64) == [1, 1] by {
      Dims();
      assert !Bit(a[W - 1], LW - 1) by {
        assert Bit(1, 15) == Bit(0, 14);
        BitByDivision(0, 14);
      }
      assert 64 / WORD_BITS == 1 && 64 % WORD_BITS == 0;
      var r := RMoved(a, 1, 0);
      assert r[0] == WordShr(1, 0) == 1;
      assert r == [1, 1];
    }
    assert Val([1, 1]) == BASE + 1 && Val(a) == BASE by {
      ValOfTwo(a);
      ValOfTwo([1, 1]);
    }
    Pow2Constants();
  }

  /** The two branches agree where nothing is vacated or the sign bit is set, so
      the single-bit shift of `udivmod` is unaffected. */
  lemma RShiftedAgrees(a: seq<Word>, n: nat)
    requires Sized(a) && (n < WORD_BITS || Bit(a[W - 1], LW - 1))
    ensures RShifted(a, n) == RShiftedFixed(a, n)
  {
    Dims();
    if !Bit(a[W - 1], LW - 1) {
      ModSmall(n, WORD_BITS);
      assert RShifted(a, n) == RMoved(a, 0, n % WORD_BITS);
      assert RShiftedFixed(a, n) == RZeroed(a, 0, n % WORD_BITS);
    }
  }

  /** Without the sign bit the intended `rshift(n)` is `floor(Val / 2^n)`. */
  lemma RZeroedValue(a: seq<Word>, n: nat)
    requires Sized(a)
    ensures Val(RZeroed(a, Min(n / WORD_BITS, W), n % WORD_BITS)) == Val(a) / Pow2(n)
  {
    Dims();
    var ws, bs := Min(n / WORD_BITS, W), n % WORD_BITS;
    var m, r := RMoved(a, ws, bs), RZeroed(a, ws, bs);
    RMovedValue(a, n);
    ValOfPrefixes(m);
    ValOfTwo(r);
    if ws == 0 {
      assert r == m;
      ValOfTwo(m);
    } else if ws == 1 {
      assert r[0] == m[0] && r[1] == 0;
    } else {
      assert r[0] == 0 && r[1] == 0;
    }
  }

  /** Without the sign bit: the quotient by 2^n, with clean padding when the
      input had it. */
  lemma RShiftedFixedUnsigned(a: seq<Word>, n: nat)
    requires Sized(a) && !Bit(a[W - 1], LW - 1)
    ensures Val(RShiftedFixed(a, n)) == Val(a) / Pow2(n)
    ensures Clean(a) ==> Clean(RShiftedFixed(a, n))
  {
    Dims();
    RZeroedValue(a, n);
    if Clean(a) {
      CleanIsBounded(a);
      DivNonneg(Val(a), Pow2(n));
      CleanIsBounded(RShiftedFixed(a, n));
    }
  }

  /** On clean words the intended `rshift(n)` is the arithmetic shift of the
      signed value in both branches. */
  lemma RShiftedFixedSigned(a: seq<Word>, n: nat)
    requires Sized(a) && Clean(a)
    ensures Clean(RShiftedFixed(a, n)) && SVal(RShiftedFixed(a, n)) == SVal(a) / Pow2(n)
  {
    Dims();
    if Bit(a[W - 1], LW - 1) {
      RShiftedSigned(a, n);
    } else {
      var r := RShiftedFixed(a, n);
      RShiftedFixedUnsigned(a, n);
      SignBit(a);
      CleanIsBounded(a);
      CleanIsBounded(r);
      ModSmall(Val(a), MODULUS);
      ModSmall(Val(r), MODULUS);
      DivNonneg(Val(a), Pow2(n));
    }
  }
}
