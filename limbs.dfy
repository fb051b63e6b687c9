/** The abstraction of a little-endian word array as an integer, and the
    fixed width the model is instantiated at.

    `Int_storage<bits, uint64_t>` keeps `words = 1 + (bits - 1) / 64` words, of
    which only the low `last_word_bits = (bits - 1) % 64 + 1` bits of the last one
    belong to the number; the bits above are padding. The model fixes `bits` at 80,
    the width the tests use, so `W == 2` and `LW == 16`. */
module Limbs {
  import opened Words

  const BITS: nat := 80
  /** `words` */
  const W: nat := 1 + (BITS - 1) / WORD_BITS
  /** `last_word_bits` */
  const LW: nat := (BITS - 1) % WORD_BITS + 1
  /** 2^BITS */
  const MODULUS: nat := 0x1_0000_0000_0000_0000_0000
  /** 2^(BITS - 1), the weight of the sign bit */
  const SIGN: nat := 0x8000_0000_0000_0000_0000
  /** 2^LW, the bound of the last word's used bits */
  const LAST_MOD: nat := 0x1_0000
  /** 2^(64 * W), the bound of the whole word array */
  const STORE_MOD: nat := 0x1_0000_0000_0000_0000_0000_0000_0000_0000

  lemma Constants()
    ensures W == 2 && LW == 16 && W >= 2
    ensures Pow2(LW) == LAST_MOD && Pow2(BITS) == MODULUS && Pow2(BITS - 1) == SIGN
    ensures Pow2(WORD_BITS * W) == STORE_MOD && WordPow(W) == STORE_MOD
    ensures MODULUS == LAST_MOD * BASE && MODULUS == 2 * SIGN && STORE_MOD == BASE * BASE
  {
    Pow2Constants();
    PowerConstants();
    assert WordPow(2) == BASE * WordPow(1);
  }

  /** The word count and last-word width at BITS == 80. */
  lemma Dims()
    ensures W == 2 && LW == 16
  {
  }

  lemma PowerConstants()
    ensures Pow2(16) == LAST_MOD && Pow2(80) == MODULUS && Pow2(79) == SIGN
    ensures Pow2(128) == STORE_MOD
  {
    Pow2Constants();
    Pow2Plus8(0);
    Pow2Plus8(8);
    Pow2Add(64, 16);
    Pow2Add(64, 64);
    assert Pow2(80) == 2 * Pow2(79);
  }

  /** 2^(64 i) as a product of word bases. */
  function WordPow(i: nat): (r: nat)
    ensures r >= 1
  {
    if i == 0 then 1 else BASE * WordPow(i - 1)
  }

  /** The unsigned value of a little-endian word array. */
  function Val(s: seq<Word>): nat
  {
    if |s| == 0 then 0 else Val(s[..|s| - 1]) + WordPow(|s| - 1) * s[|s| - 1]
  }

  /** The arrays the model works on: `W` words. */
  predicate Sized(s: seq<Word>)
  {
    |s| == W
  }

  /** With two words, the value is `s[0] + 2^64 s[1]`. */
  lemma ValOfTwo(s: seq<Word>)
    requires |s| == 2
    ensures Val(s) == s[0] + BASE * s[1]
  {
    assert s[..1][..0] == [];
    assert Val(s[..1]) == s[0];
    assert WordPow(1) == BASE;
  }

  lemma ValOfPrefixes(s: seq<Word>)
    requires |s| == 2
    ensures Val(s[..0]) == 0 && Val(s[..1]) == s[0] && Val(s[..2]) == Val(s)
  {
    assert s[..1][..0] == [];
    assert s[..2] == s;
  }

  /** Extending a prefix by one word adds that word at its weight. */
  lemma ValPrefix(s: seq<Word>, i: nat)
    requires i < |s|
    ensures Val(s[..i + 1]) == Val(s[..i]) + WordPow(i) * s[i]
  {
    assert s[..i + 1][..i] == s[..i];
  }

  lemma {:induction false} ValBound(s: seq<Word>)
    ensures Val(s) < WordPow(|s|)
    decreases |s|
  {
    if |s| > 0 {
      var n := |s| - 1;
      ValBound(s[..n]);
      MulLe(WordPow(n), s[n], WordPow(n), BASE - 1);
    }
  }

  /** A value below `STORE_MOD` and its two words. */
  function FromVal(v: nat): (s: seq<Word>)
    requires v < STORE_MOD
    ensures Sized(s) && Val(s) == v
  {
    Constants();
    var s := [v % BASE, v / BASE];
    ValOfTwo(s);
    s
  }

  lemma ValInjective(a: seq<Word>, b: seq<Word>)
    requires Sized(a) && Sized(b) && Val(a) == Val(b)
    ensures a == b
  {
    Constants();
    ValOfTwo(a);
    ValOfTwo(b);
    DivModUnique(Val(a), BASE, a[1], a[0]);
    DivModUnique(Val(b), BASE, b[1], b[0]);
  }

  lemma ValSizedBound(s: seq<Word>)
    requires Sized(s)
    ensures Val(s) < STORE_MOD
  {
    Constants();
    ValOfTwo(s);
  }

  // ---------------------------------------------------------------------
  // Padding
  // ---------------------------------------------------------------------

  /** The class invariant of `Int_storage`: no padding bit is set. */
  predicate Clean(s: seq<Word>)
    requires Sized(s)
  {
    Constants();
    s[W - 1] < LAST_MOD
  }

  lemma CleanIsBounded(s: seq<Word>)
    requires Sized(s)
    ensures Clean(s) <==> Val(s) < MODULUS
  {
    Constants();
    ValOfTwo(s);
  }

  /** The array after `clear_unused_bits`. */
  function Cleared(s: seq<Word>): (r: seq<Word>)
    requires Sized(s)
    ensures Sized(r) && Clean(r)
  {
    Constants();
    s[W - 1 := s[W - 1] % LAST_MOD]
  }

  /** Clearing the padding reduces the value modulo 2^BITS. */
  lemma ClearedValue(s: seq<Word>)
    requires Sized(s)
    ensures Val(Cleared(s)) == Val(s) % MODULUS
  {
    Constants();
    var r := Cleared(s);
    ValOfTwo(s);
    ValOfTwo(r);
    var q := s[1] / LAST_MOD;
    assert s[1] == q * LAST_MOD + s[1] % LAST_MOD;
    assert Val(s) == q * MODULUS + Val(r);
    DivModUnique(Val(s), MODULUS, q, Val(r));
  }

  /** The value modulo 2^BITS of a word array. */
  function Low(s: seq<Word>): nat
  {
    Val(s) % MODULUS
  }

  // ---------------------------------------------------------------------
  // Two's complement
  // ---------------------------------------------------------------------

  /** The signed integer that BITS bits `u` stand for in two's complement. */
  function ToSigned(u: nat): (r: int)
    requires u < MODULUS
    ensures -(SIGN as int) <= r < SIGN
  {
    if u >= SIGN then u - MODULUS else u
  }

  /** The BITS-bit pattern of an integer: wrap-around modulo 2^BITS. */
  function Wrap(x: int): (u: nat)
    ensures u < MODULUS
  {
    x % MODULUS
  }

  /** Signed arithmetic modulo 2^BITS, as a value in [-2^(BITS-1), 2^(BITS-1)). */
  function Signed(x: int): int
  {
    ToSigned(Wrap(x))
  }

  /** The signed value of a word array: its low BITS bits in two's complement. */
  function SVal(s: seq<Word>): int
  {
    ToSigned(Low(s))
  }

  /** A value in range needs no wrapping. */
  lemma SignedInRange(x: int)
    requires -(SIGN as int) <= x < SIGN
    ensures Signed(x) == x
  {
    if x < 0 {
      ModAddMultiple(x, 1, MODULUS);
      ModSmall(x + MODULUS, MODULUS);
    } else {
      ModSmall(x, MODULUS);
    }
  }

  /** Wrapping forgets multiples of the modulus. */
  lemma WrapCongruent(x: int, y: int)
    requires (x - y) % MODULUS == 0
    ensures Wrap(x) == Wrap(y)
  {
    var k := (x - y) / MODULUS;
    assert x == y + k * MODULUS;
    ModAddMultiple(y, k, MODULUS);
  }

  lemma WrapOfSigned(u: nat)
    requires u < MODULUS
    ensures Wrap(ToSigned(u)) == u
  {
    if u >= SIGN {
      ModAddMultiple(u, -1, MODULUS);
    }
    ModSmall(u, MODULUS);
  }

  /** The signed value stands for the unsigned one modulo 2^BITS. */
  lemma SValWraps(s: seq<Word>)
    ensures Wrap(SVal(s)) == Low(s) && SVal(s) == Signed(Val(s))
  {
    WrapOfSigned(Low(s));
  }

  lemma WrapOfWrap(x: int)
    ensures Wrap(Wrap(x)) == Wrap(x) && Signed(Wrap(x)) == Signed(x)
  {
    ModSmall(Wrap(x), MODULUS);
  }
}
