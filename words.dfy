/** 64-bit machine words as integers in [0, 2^64).

    The C++ source works on `std::uint64_t`; here every native wrap-around is
    written out as `% BASE`, and the bitwise operators `&`, `|`, `^` are defined
    one bit at a time, so that what they do to masks can be proved. */
module Words {

  const WORD_BITS: nat := 64
  const HALF_BITS: nat := 32
  const BASE: nat := 0x1_0000_0000_0000_0000
  const HALF: nat := 0x1_0000_0000
  const WORD_MAX: nat := 0xFFFF_FFFF_FFFF_FFFF

  /** One `uint64_t`. */
  type Word = x: int | 0 <= x < BASE

  // ---------------------------------------------------------------------
  // Powers of two and the division facts used throughout
  // ---------------------------------------------------------------------

  /** 2^n */
  function Pow2(n: nat): (r: nat)
    ensures r >= 1
  {
    if n == 0 then 1 else 2 * Pow2(n - 1)
  }

  lemma {:induction false} Pow2Add(a: nat, b: nat)
    ensures Pow2(a + b) == Pow2(a) * Pow2(b)
  {
    if a > 0 {
      Pow2Add(a - 1, b);
      assert Pow2(a + b) == 2 * Pow2(a - 1 + b);
    }
  }

  lemma {:induction false} Pow2Monotone(a: nat, b: nat)
    requires a <= b
    ensures Pow2(a) <= Pow2(b)
    ensures a < b ==> Pow2(a) < Pow2(b)
  {
    if a < b {
      Pow2Monotone(a, b - 1);
    }
  }

  /** Eight doublings multiply by 256. */
  lemma Pow2Plus8(n: nat)
    ensures Pow2(n + 8) == 256 * Pow2(n)
  {
    assert Pow2(n + 8) == 2 * Pow2(n + 7);
    assert Pow2(n + 7) == 2 * Pow2(n + 6);
    assert Pow2(n + 6) == 2 * Pow2(n + 5);
    assert Pow2(n + 5) == 2 * Pow2(n + 4);
    assert Pow2(n + 4) == 2 * Pow2(n + 3);
    assert Pow2(n + 3) == 2 * Pow2(n + 2);
    assert Pow2(n + 2) == 2 * Pow2(n + 1);
    assert Pow2(n + 1) == 2 * Pow2(n);
  }

  lemma Pow2Constants()
    ensures Pow2(HALF_BITS) == HALF && Pow2(WORD_BITS) == BASE
  {
    Pow2Plus8(0);
    assert Pow2(8) == 0x100;
    Pow2Plus8(8);
    assert Pow2(16) == 0x1_0000;
    Pow2Plus8(16);
    assert Pow2(24) == 0x100_0000;
    Pow2Plus8(24);
    assert Pow2(32) == 0x1_0000_0000;
    Pow2Plus8(32);
    assert Pow2(40) == 0x100_0000_0000;
    Pow2Plus8(40);
    assert Pow2(48) == 0x1_0000_0000_0000;
    Pow2Plus8(48);
    assert Pow2(56) == 0x100_0000_0000_0000;
    Pow2Plus8(56);
  }

  /** Quotient and remainder are determined by the division identity. */
  lemma DivModUnique(x: int, m: int, q: int, r: int)
    requires m > 0 && 0 <= r < m && x == q * m + r
    ensures x / m == q && x % m == r
  {
    var q', r' := x / m, x % m;
    assert x == q' * m + r';
    assert (q - q') * m == r' - r;
    if q > q' {
      MulAtLeast(q - q', m);
    } else if q < q' {
      MulAtLeast(q' - q, m);
    }
  }

  lemma MulAtLeast(k: int, m: int)
    requires k >= 1 && m > 0
    ensures k * m >= m
  {
  }

  /** Division of a non-negative number stays between 0 and the number. */
  lemma DivNonneg(x: int, d: int)
    requires x >= 0 && d > 0
    ensures 0 <= x / d <= x && 0 <= x % d < d
  {
    var q := x / d;
    assert x == q * d + x % d;
    if q < 0 {
      MulAtLeast(-q, d);
    } else if q > x {
      MulAtLeast(d, q);
    }
  }

  /** Adding a multiple of the modulus changes only the quotient. */
  lemma ModAddMultiple(a: int, k: int, m: int)
    requires m > 0
    ensures (a + k * m) % m == a % m && (a + k * m) / m == a / m + k
  {
    DivModUnique(a + k * m, m, a / m + k, a % m);
  }

  lemma ModSmall(a: int, m: int)
    requires 0 <= a < m
    ensures a % m == a && a / m == 0
  {
    DivModUnique(a, m, 0, a);
  }

  /** Splitting a division by a product into two divisions. */
  lemma DivModProduct(x: int, a: int, b: int)
    requires x >= 0 && a > 0 && b > 0
    ensures x / (a * b) == (x / a) / b
    ensures x % (a * b) == x % a + a * ((x / a) % b)
  {
    var q1, r1 := x / a, x % a;
    var q2, r2 := q1 / b, q1 % b;
    assert x == q1 * a + r1;
    assert q1 == q2 * b + r2;
    assert x == q2 * (a * b) + (a * r2 + r1) by {
      calc {
        x;
        q1 * a + r1;
        (q2 * b + r2) * a + r1;
        q2 * (a * b) + (a * r2 + r1);
      }
    }
    assert a * r2 + r1 < a * b by {
      assert r2 <= b - 1;
      assert a * r2 <= a * (b - 1);
    }
    DivModUnique(x, a * b, q2, a * r2 + r1);
  }

  /** A multiple keeps its factor through division and remainder. */
  lemma ModScale(x: int, c: int, m: int)
    requires x >= 0 && c > 0 && m > 0
    ensures (c * x) % (c * m) == c * (x % m)
    ensures (c * x) / (c * m) == x / m
  {
    var q, r := x / m, x % m;
    assert c * x == q * (c * m) + c * r;
    assert c * r < c * m;
    DivModUnique(c * x, c * m, q, c * r);
  }

  /** Reducing by 2^a after reducing by 2^b, for a <= b. */
  lemma ModPow2Nested(x: int, a: nat, b: nat)
    requires x >= 0 && a <= b
    ensures (x % Pow2(b)) % Pow2(a) == x % Pow2(a)
  {
    Pow2Add(a, b - a);
    DivModProduct(x, Pow2(a), Pow2(b - a));
    ModAddMultiple(x % Pow2(a), (x / Pow2(a)) % Pow2(b - a), Pow2(a));
    ModSmall(x % Pow2(a), Pow2(a));
  }

  /** Reducing by 2^a after reducing by the word base, for a <= 64. */
  lemma ModBaseNested(x: int, a: nat)
    requires x >= 0 && a <= WORD_BITS
    ensures (x % BASE) % Pow2(a) == x % Pow2(a)
  {
    Pow2Constants();
    ModPow2Nested(x, a, WORD_BITS);
  }

  /** The two lowest steps of a binary expansion. */
  lemma ModTwice(x: int, m: int)
    requires x >= 0 && m > 0
    ensures x % (2 * m) == x % 2 + 2 * ((x / 2) % m)
    ensures x / (2 * m) == (x / 2) / m
  {
    DivModProduct(x, 2, m);
  }

  lemma Pow2Halves(n: nat)
    requires n > 0
    ensures Pow2(n) % 2 == 0 && Pow2(n) / 2 == Pow2(n - 1)
  {
  }

  // ---------------------------------------------------------------------
  // Native word operators
  // ---------------------------------------------------------------------

  /** `a + b` on uint64_t. */
  function WordAdd(a: Word, b: Word): Word
  {
    (a + b) % BASE
  }

  /** `a - b` on uint64_t. */
  function WordSub(a: Word, b: Word): Word
  {
    (a - b) % BASE
  }

  /** `~a` on uint64_t. */
  function WordNot(a: Word): Word
  {
    WORD_MAX - a
  }

  /** `a << s` on uint64_t, for s < 64 (a shift by 64 or more is undefined in C++). */
  function WordShl(a: Word, s: nat): Word
    requires s < WORD_BITS
  {
    (a * Pow2(s)) % BASE
  }

  /** `a >> s` on uint64_t, for s < 64. */
  function WordShr(a: Word, s: nat): (r: Word)
    requires s < WORD_BITS
  {
    DivNonneg(a, Pow2(s));
    a / Pow2(s)
  }

  /** The carry rule of `add`: with carry-in the new word is `<= l`, without it `< l`,
      exactly when the true sum of the two words and the carry reaches 2^64. */
  lemma AddCarryRule(l: Word, r: Word, carryIn: bool)
    ensures var s := if carryIn then WordAdd(l, WordAdd(r, 1)) else WordAdd(l, r);
            var c := if carryIn then 1 else 0;
            && s == (l + r + c) % BASE
            && (if carryIn then s <= l else s < l) == (l + r + c >= BASE)
  {
  }

  /** The borrow rule of `subtract`: with borrow-in the new word is `>= l`, without it
      `> l`, exactly when the true difference is negative. */
  lemma SubBorrowRule(l: Word, r: Word, borrowIn: bool)
    ensures var s := if borrowIn then WordSub(l, WordAdd(r, 1)) else WordSub(l, r);
            var c := if borrowIn then 1 else 0;
            && s == (l - r - c) % BASE
            && (if borrowIn then s >= l else s > l) == (l - r - c < 0)
  {
  }

  // ---------------------------------------------------------------------
  // Bits and bitwise operators
  // ---------------------------------------------------------------------

  /** Bit j of x. */
  predicate Bit(x: int, j: nat)
    decreases x
  {
    if j == 0 then x % 2 == 1 else x > 0 && Bit(x / 2, j - 1)
  }

  /** The n low bits of x AND y. */
  function BitAnd(x: nat, y: nat, n: nat): (r: nat)
    ensures r < Pow2(n)
    decreases x + y
  {
    if n == 0 || x + y == 0 then 0
    else (if x % 2 == 1 && y % 2 == 1 then 1 else 0) + 2 * BitAnd(x / 2, y / 2, n - 1)
  }

  /** The n low bits of x OR y. */
  function BitOr(x: nat, y: nat, n: nat): (r: nat)
    ensures r < Pow2(n)
    decreases x + y
  {
    if n == 0 || x + y == 0 then 0
    else (if x % 2 == 1 || y % 2 == 1 then 1 else 0) + 2 * BitOr(x / 2, y / 2, n - 1)
  }

  /** The n low bits of x XOR y. */
  function BitXor(x: nat, y: nat, n: nat): (r: nat)
    ensures r < Pow2(n)
    decreases x + y
  {
    if n == 0 || x + y == 0 then 0
    else (if (x % 2 == 1) != (y % 2 == 1) then 1 else 0) + 2 * BitXor(x / 2, y / 2, n - 1)
  }

  /** `a & b` on uint64_t. */
  function WordAnd(a: Word, b: Word): Word
  {
    Pow2Constants();
    BitAnd(a, b, WORD_BITS)
  }

  /** `a | b` on uint64_t. */
  function WordOr(a: Word, b: Word): Word
  {
    Pow2Constants();
    BitOr(a, b, WORD_BITS)
  }

  /** `a ^ b` on uint64_t. */
  function WordXor(a: Word, b: Word): Word
  {
    Pow2Constants();
    BitXor(a, b, WORD_BITS)
  }

  lemma {:induction false} AndBits(x: nat, y: nat, n: nat, j: nat)
    requires j < n
    ensures Bit(BitAnd(x, y, n), j) == (Bit(x, j) && Bit(y, j))
    decreases j
  {
    if j > 0 {
      AndBits(x / 2, y / 2, n - 1, j - 1);
    }
  }

  lemma {:induction false} OrBits(x: nat, y: nat, n: nat, j: nat)
    requires j < n
    ensures Bit(BitOr(x, y, n), j) == (Bit(x, j) || Bit(y, j))
    decreases j
  {
    if j > 0 {
      OrBits(x / 2, y / 2, n - 1, j - 1);
    }
  }

  lemma {:induction false} XorBits(x: nat, y: nat, n: nat, j: nat)
    requires j < n
    ensures Bit(BitXor(x, y, n), j) == (Bit(x, j) != Bit(y, j))
    decreases j
  {
    if j > 0 {
      XorBits(x / 2, y / 2, n - 1, j - 1);
    }
  }

  /** Every bit of a word AND, OR or XOR is the Boolean operator applied to the
      operands' bits at that position. */
  lemma WordBitwiseBits(a: Word, b: Word, j: nat)
    requires j < WORD_BITS
    ensures Bit(WordAnd(a, b), j) == (Bit(a, j) && Bit(b, j))
    ensures Bit(WordOr(a, b), j) == (Bit(a, j) || Bit(b, j))
    ensures Bit(WordXor(a, b), j) == (Bit(a, j) != Bit(b, j))
  {
    AndBits(a, b, WORD_BITS, j);
    OrBits(a, b, WORD_BITS, j);
    XorBits(a, b, WORD_BITS, j);
  }

  lemma {:induction false} AndZero(x: nat, n: nat)
    ensures BitAnd(x, 0, n) == 0
    decreases n
  {
    if n > 0 {
      AndZero(x / 2, n - 1);
    }
  }

  lemma {:induction false} AndCommutes(x: nat, y: nat, n: nat)
    ensures BitAnd(x, y, n) == BitAnd(y, x, n)
    decreases n
  {
    if n > 0 {
      AndCommutes(x / 2, y / 2, n - 1);
    }
  }

  lemma {:induction false} OrCommutes(x: nat, y: nat, n: nat)
    ensures BitOr(x, y, n) == BitOr(y, x, n)
    decreases n
  {
    if n > 0 {
      OrCommutes(x / 2, y / 2, n - 1);
    }
  }

  lemma {:induction false} OrZero(x: nat, n: nat)
    requires x < Pow2(n)
    ensures BitOr(x, 0, n) == x
    decreases n
  {
    if n > 0 {
      OrZero(x / 2, n - 1);
    }
  }

  lemma {:induction false} XorZero(x: nat, n: nat)
    requires x < Pow2(n)
    ensures BitXor(x, 0, n) == x
    decreases n
  {
    if n > 0 {
      XorZero(x / 2, n - 1);
    }
  }

  /** AND with the mask 2^k - 1 keeps the k low bits. */
  lemma {:induction false} AndLowMask(x: nat, k: nat, n: nat)
    requires k <= n
    ensures BitAnd(x, Pow2(k) - 1, n) == x % Pow2(k)
    decreases n, 1
  {
    if k == 0 {
      AndLowMaskZero(x, n);
    } else {
      AndLowMaskStep(x, k, n);
    }
  }

  lemma AndLowMaskZero(x: nat, n: nat)
    ensures BitAnd(x, Pow2(0) - 1, n) == x % Pow2(0)
  {
    AndZero(x, n);
  }

  lemma {:induction false} AndLowMaskStep(x: nat, k: nat, n: nat)
    requires 0 < k <= n
    ensures BitAnd(x, Pow2(k) - 1, n) == x % Pow2(k)
    decreases n, 0
  {
    var m := Pow2(k - 1);
    var mask := Pow2(k) - 1;
    assert Pow2(k) == 2 * m;
    AndLowMask(x / 2, k - 1, n - 1);
    AndOddMask(x, m, mask, n);
    JoinLowBit(x, m, Pow2(k), BitAnd(x, mask, n), BitAnd(x / 2, m - 1, n - 1));
  }

  /** One bit of an AND with a mask whose lowest bit is set. */
  lemma AndOddMask(x: nat, m: nat, mask: nat, n: nat)
    requires n > 0 && m >= 1 && mask == 2 * m - 1
    ensures BitAnd(x, mask, n) == x % 2 + 2 * BitAnd(x / 2, m - 1, n - 1)
  {
    OddHalves(m, mask);
    AndStep(x, mask, n);
  }

  /** The low bit of x and the remainder of x / 2 make up the remainder of x. */
  lemma JoinLowBit(x: nat, m: nat, p: nat, r: int, lo: int)
    requires m > 0 && p == 2 * m
    requires r == x % 2 + 2 * lo && lo == (x / 2) % m
    ensures r == x % p
  {
    ModTwice(x, m);
  }

  /** One bit of BitAnd. */
  lemma AndStep(x: nat, y: nat, n: nat)
    requires n > 0
    ensures BitAnd(x, y, n) == (if x % 2 == 1 && y % 2 == 1 then 1 else 0) + 2 * BitAnd(x / 2, y / 2, n - 1)
  {
    if x + y == 0 {
      assert BitAnd(0, 0, n - 1) == 0;
    }
  }

  lemma EvenHalves(h: int, mask: int)
    requires h >= 0 && mask == 2 * h
    ensures mask % 2 == 0 && mask / 2 == h
  {
    DivModUnique(mask, 2, h, 0);
  }

  lemma OddHalves(m: int, mask: int)
    requires m >= 1 && mask == 2 * m - 1
    ensures mask % 2 == 1 && mask / 2 == m - 1
  {
    DivModUnique(mask, 2, m - 1, 1);
  }

  /** OR with the mask 2^n - 2^k sets every bit from k up to n. */
  lemma {:induction false} OrHighMask(x: nat, k: nat, n: nat)
    requires k <= n && x < Pow2(n)
    ensures Pow2(k) <= Pow2(n)
    ensures BitOr(x, Pow2(n) - Pow2(k), n) == x % Pow2(k) + Pow2(n) - Pow2(k)
  {
    Pow2Monotone(k, n);
    OrHighMaskAt(x, k, n, Pow2(n) - Pow2(k));
  }

  /** `OrHighMask` with the mask 2^n - 2^k given by name. */
  lemma {:induction false} OrHighMaskAt(x: nat, k: nat, n: nat, m: nat)
    requires k <= n && x < Pow2(n) && m == Pow2(n) - Pow2(k)
    ensures BitOr(x, m, n) == x % Pow2(k) + m
    decreases n
  {
    if n == 0 {
      assert x == 0 && m == 0;
    } else if k == 0 {
      OrAllOnes(x, n);
    } else {
      var h := Pow2(n - 1) - Pow2(k - 1);
      HighMaskHalves(k, n);
      HalfBelow(x, Pow2(n - 1));
      Pow2Monotone(k - 1, n - 1);
      OrHighMaskAt(x / 2, k - 1, n - 1, h);
      OrHighMaskStep(x, n, h, m, Pow2(k - 1), Pow2(k));
    }
  }

  lemma HalfBelow(x: nat, p: nat)
    requires x < 2 * p
    ensures x / 2 < p
  {
  }

  /** OR with 2^n - 1 sets all n bits. */
  lemma {:induction false} OrAllOnes(x: nat, n: nat)
    ensures BitOr(x, Pow2(n) - 1, n) == Pow2(n) - 1
    decreases n
  {
    if n > 0 {
      var p := Pow2(n - 1);
      OrAllOnes(x / 2, n - 1);
      var mask := Pow2(n) - 1;
      OddHalves(p, mask);
      OrStep(x, mask, n);
    }
  }

  /** One bit of BitOr. */
  lemma OrStep(x: nat, y: nat, n: nat)
    requires n > 0
    ensures BitOr(x, y, n) == (if x % 2 == 1 || y % 2 == 1 then 1 else 0) + 2 * BitOr(x / 2, y / 2, n - 1)
  {
    if x + y == 0 {
      assert BitOr(0, 0, n - 1) == 0;
    }
  }

  lemma HighMaskHalves(k: nat, n: nat)
    requires 0 < k <= n
    ensures Pow2(n) - Pow2(k) == 2 * (Pow2(n - 1) - Pow2(k - 1))
  {
  }

  /** One step of `OrHighMaskAt`: with the bits above bit 0 known, bit 0 of x
      joins them. */
  lemma OrHighMaskStep(x: nat, n: nat, h: nat, m: nat, p: nat, pk: nat)
    requires n > 0 && m == 2 * h && p > 0 && pk == 2 * p
    requires BitOr(x / 2, h, n - 1) == (x / 2) % p + h
    ensures BitOr(x, m, n) == x % pk + m
  {
    OrEvenMask(x, h, m, n);
    JoinHighMask(x, p, pk, h, m, BitOr(x, m, n), BitOr(x / 2, h, n - 1));
  }

  /** The arithmetic of one step of `OrHighMaskAt`: bit 0 of x, then the bits
      from 1 below k, then the mask bits from k up to n. */
  lemma JoinHighMask(x: nat, p: nat, pk: nat, h: int, m: int, r: int, lo: int)
    requires p > 0 && pk == 2 * p && m == 2 * h
    requires r == x % 2 + 2 * lo && lo == (x / 2) % p + h
    ensures r == x % pk + m
  {
    ModTwice(x, p);
  }

  /** One bit of an OR with a mask whose lowest bit is clear. */
  lemma OrEvenMask(x: nat, h: nat, mask: nat, n: nat)
    requires n > 0 && mask == 2 * h
    ensures BitOr(x, mask, n) == x % 2 + 2 * BitOr(x / 2, h, n - 1)
  {
    EvenHalves(h, mask);
    OrStep(x, mask, n);
  }

  /** OR of a value whose k low bits are clear with a value below 2^k is their sum. */
  lemma {:induction false} OrDisjoint(x: nat, y: nat, k: nat, n: nat)
    requires k <= n && x < Pow2(n) && x % Pow2(k) == 0 && y < Pow2(k)
    ensures BitOr(x, y, n) == x + y
    decreases k
  {
    if k == 0 {
      assert y == 0;
      OrZero(x, n);
    } else {
      ModTwice(x, Pow2(k - 1));
      assert x % 2 == 0 && (x / 2) % Pow2(k - 1) == 0;
      OrDisjoint(x / 2, y / 2, k - 1, n - 1);
    }
  }

  /** AND with the single-bit mask 2^j tests bit j. */
  lemma {:induction false} AndPow2(x: nat, j: nat, n: nat)
    requires j < n
    ensures BitAnd(x, Pow2(j), n) == if Bit(x, j) then Pow2(j) else 0
    decreases j, 1
  {
    if j == 0 {
      AndZero(x / 2, n - 1);
    } else {
      AndPow2Step(x, j, n);
    }
  }

  lemma {:induction false} AndPow2Step(x: nat, j: nat, n: nat)
    requires 0 < j < n
    ensures BitAnd(x, Pow2(j), n) == if Bit(x, j) then Pow2(j) else 0
    decreases j, 0
  {
    var m := Pow2(j);
    Pow2Halves(j);
    AndPow2(x / 2, j - 1, n - 1);
    assert BitAnd(x, m, n) == 2 * BitAnd(x / 2, m / 2, n - 1);
    assert Bit(x, j) == Bit(x / 2, j - 1);
  }

  /** OR with the single-bit mask 2^j sets bit j, adding 2^j when it was clear. */
  lemma {:induction false} OrPow2(x: nat, j: nat, n: nat)
    requires j < n && x < Pow2(n)
    ensures BitOr(x, Pow2(j), n) == if Bit(x, j) then x else x + Pow2(j)
    decreases j, 1
  {
    if j == 0 {
      OrZero(x / 2, n - 1);
    } else {
      OrPow2Step(x, j, n);
    }
  }

  lemma {:induction false} OrPow2Step(x: nat, j: nat, n: nat)
    requires 0 < j < n && x < Pow2(n)
    ensures BitOr(x, Pow2(j), n) == if Bit(x, j) then x else x + Pow2(j)
    decreases j, 0
  {
    var m := Pow2(j);
    Pow2Halves(j);
    OrPow2(x / 2, j - 1, n - 1);
    assert BitOr(x, m, n) == x % 2 + 2 * BitOr(x / 2, m / 2, n - 1);
    assert Bit(x, j) == Bit(x / 2, j - 1);
  }

  /** Bit j of x read by division: the remainder of x / 2^j modulo 2. */
  lemma {:induction false} BitByDivision(x: nat, j: nat)
    ensures Bit(x, j) == ((x / Pow2(j)) % 2 == 1)
    decreases j
  {
    if j > 0 {
      BitByDivision(x / 2, j - 1);
      ModTwice(x, Pow2(j - 1));
    }
  }

  /** Bit j of x is set exactly when the j+1 low bits of x reach 2^j. */
  lemma BitAsRemainder(x: nat, j: nat)
    ensures Bit(x, j) == (x % Pow2(j + 1) >= Pow2(j))
  {
    var p := Pow2(j);
    assert Pow2(j + 1) == 2 * p;
    BitByDivision(x, j);
    DivModProduct(x, p, 2);
    var lo, b := x % p, (x / p) % 2;
    if b == 1 {
      assert p * b == p;
    } else {
      assert p * b == 0;
    }
  }

  /** Bits of x at or above 2^j's position decide nothing below it. */
  lemma {:induction false} BitShifted(x: nat, a: nat, b: nat)
    ensures Bit(x, a + b) == Bit(x / Pow2(a), b)
    decreases a
  {
    if a > 0 {
      var m := Pow2(a - 1);
      assert Pow2(a) == 2 * m;
      BitShifted(x / 2, a - 1, b);
      ModTwice(x, m);
      assert Bit(x, a + b) == Bit(x / 2, (a - 1) + b);
    }
  }

  /** The bits of x below position k are the bits of x % 2^k. */
  lemma {:induction false} BitOfRemainder(x: nat, k: nat, j: nat)
    requires j < k
    ensures Bit(x % Pow2(k), j) == Bit(x, j)
    decreases j
  {
    var m := Pow2(k - 1);
    assert Pow2(k) == 2 * m;
    ModTwice(x, m);
    if j > 0 {
      BitOfRemainder(x / 2, k - 1, j - 1);
      assert (x % (2 * m)) / 2 == (x / 2) % m;
    } else {
      assert (x % (2 * m)) % 2 == x % 2;
    }
  }

  // ---------------------------------------------------------------------
  // Half words and the single-word multiply
  // ---------------------------------------------------------------------

  /** `low_half(v)`: `v & (~0 >> 32)`, the 32 low bits. */
  function LowHalf(v: Word): (r: Word)
    ensures r < HALF && r == v % HALF
  {
    Pow2Constants();
    HalfMask();
    AndLowMask(v, HALF_BITS, WORD_BITS);
    WordAnd(v, WordShr(WordNot(0), HALF_BITS))
  }

  /** The mask `~0 >> 32` is 2^32 - 1. */
  lemma HalfMask()
    ensures WordShr(WordNot(0), HALF_BITS) == Pow2(HALF_BITS) - 1
  {
    Pow2Constants();
    assert WORD_MAX == (HALF - 1) * HALF + (HALF - 1);
    DivModUnique(WORD_MAX, HALF, HALF - 1, HALF - 1);
  }

  /** `high_half(v)`: `v >> 32`, the 32 high bits. */
  function HighHalf(v: Word): (r: Word)
    ensures r < HALF && v == r * HALF + LowHalf(v)
  {
    Pow2Constants();
    WordShr(v, HALF_BITS)
  }

  /** `a * b` on uint64_t. */
  function WordMul(a: Word, b: Word): Word
  {
    (a * b) % BASE
  }

  lemma MulLe(a: int, b: int, c: int, d: int)
    requires 0 <= a <= c && 0 <= b <= d
    ensures 0 <= a * b <= c * d
  {
    assert a * b <= a * d;
    assert a * d <= c * d;
  }

  /** The product of two half words never wraps. */
  lemma HalfProduct(a: Word, b: Word)
    requires a < HALF && b < HALF
    ensures WordMul(a, b) == a * b && a * b <= (HALF - 1) * (HALF - 1)
  {
    MulLe(a, b, HALF - 1, HALF - 1);
    ModSmall(a * b, BASE);
  }

  /** `low += add; if it wrapped, ++high`, the carry step of `mul`. */
  function AddCarry(low: Word, add: Word, high: Word): (r: (Word, Word))
  {
    (WordAdd(low, add), if WordAdd(low, add) < low then WordAdd(high, 1) else high)
  }

  /** `high += high_half(mid); mid <<= 32; low += mid` with its carry, the
      step that adds one cross product `mid * 2^32` of `mul`. */
  function AddCross(low: Word, high: Word, mid: Word): (r: (Word, Word))
  {
    AddCarry(low, WordShl(mid, HALF_BITS), WordAdd(high, HighHalf(mid)))
  }

  /** One step of `Int_storage::mul` (and of `unsigned_mul`): the pair (low, high)
      of words that the source computes from the four half-word partial products
      for `src * rhs + carry`. The `src == 0 || rhs == 0` shortcut is the source's. */
  function MulWord(src: Word, rhs: Word, carry: Word): (Word, Word)
  {
    if src == 0 || rhs == 0 then (carry, 0)
    else
      var (low1, high1) := AddCross(WordMul(LowHalf(src), LowHalf(rhs)),
                                     WordMul(HighHalf(src), HighHalf(rhs)),
                                     WordMul(LowHalf(src), HighHalf(rhs)));
      var (low2, high2) := AddCross(low1, high1, WordMul(HighHalf(src), LowHalf(rhs)));
      AddCarry(low2, carry, high2)
  }

  /** The carry step is exact while the high word has room for the carry. */
  lemma AddCarryExact(low: Word, add: Word, high: Word)
    requires high < WORD_MAX
    ensures AddCarry(low, add, high).0 + AddCarry(low, add, high).1 * BASE == low + add + high * BASE
  {
  }

  /** Shifting a word left by 32 keeps its low half, moved up. */
  lemma ShlHalf(m: Word)
    ensures WordShl(m, HALF_BITS) == (m % HALF) * HALF
  {
    Pow2Constants();
    var h, l := m / HALF, m % HALF;
    assert m * Pow2(HALF_BITS) == m * HALF;
    assert m * HALF == h * BASE + l * HALF;
    assert l * HALF < BASE;
    ModAddMultiple(l * HALF, h, BASE);
    ModSmall(l * HALF, BASE);
  }

  /** The cross-product step is exact while the high word has room. */
  lemma AddCrossExact(low: Word, high: Word, mid: Word)
    requires high + HighHalf(mid) < WORD_MAX
    ensures AddCross(low, high, mid).0 + AddCross(low, high, mid).1 * BASE == low + high * BASE + mid * HALF
  {
    var sh := WordShl(mid, HALF_BITS);
    var hi := WordAdd(high, HighHalf(mid));
    assert sh == LowHalf(mid) * HALF by {
      ShlHalf(mid);
    }
    assert hi == high + HighHalf(mid) by {
      ModSmall(high + HighHalf(mid), BASE);
    }
    AddCarryExact(low, sh, hi);
    assert mid * HALF == HighHalf(mid) * BASE + LowHalf(mid) * HALF;
  }

  /** The schoolbook split of a 64 x 64 product into four 32 x 32 products. */
  lemma HalfDecomposition(src: Word, rhs: Word)
    ensures src * rhs == WordMul(LowHalf(src), LowHalf(rhs))
                         + (WordMul(LowHalf(src), HighHalf(rhs)) + WordMul(HighHalf(src), LowHalf(rhs))) * HALF
                         + WordMul(HighHalf(src), HighHalf(rhs)) * BASE
    ensures WordMul(HighHalf(src), HighHalf(rhs)) <= (HALF - 1) * (HALF - 1)
    ensures 0 <= src * rhs <= (BASE - 1) * (BASE - 1)
  {
    var a0, a1, b0, b1 := LowHalf(src), HighHalf(src), LowHalf(rhs), HighHalf(rhs);
    HalfProduct(a0, b0);
    HalfProduct(a1, b1);
    HalfProduct(a0, b1);
    HalfProduct(a1, b0);
    Expand(src, rhs, a0, a1, b0, b1);
    MulLe(src, rhs, BASE - 1, BASE - 1);
  }

  lemma Expand(x: int, y: int, a0: int, a1: int, b0: int, b1: int)
    requires x == a1 * HALF + a0 && y == b1 * HALF + b0
    ensures x * y == a0 * b0 + (a0 * b1 + a1 * b0) * HALF + a1 * b1 * BASE
  {
    assert HALF * HALF == BASE;
  }

  /** The words `MulWord` returns are the low and high word of the exact
      double-word result `src * rhs + carry`: none of the wrapping word
      additions inside it loses a carry. */
  lemma MulWordCorrect(src: Word, rhs: Word, carry: Word)
    ensures MulWord(src, rhs, carry).0 + MulWord(src, rhs, carry).1 * BASE == src * rhs + carry
  {
    if src != 0 && rhs != 0 {
      var a0, a1, b0, b1 := LowHalf(src), HighHalf(src), LowHalf(rhs), HighHalf(rhs);
      var p00, p01, p10, p11 := WordMul(a0, b0), WordMul(a0, b1), WordMul(a1, b0), WordMul(a1, b1);
      HalfDecomposition(src, rhs);
      var prod := src * rhs;
      MulSteps(p00, p01, p10, p11, carry, prod);
    }
  }

  /** The three carry steps of `MulWord`, given the four partial products. */
  lemma MulSteps(p00: Word, p01: Word, p10: Word, p11: Word, carry: Word, prod: int)
    requires prod == p00 + (p01 + p10) * HALF + p11 * BASE
    requires p11 <= (HALF - 1) * (HALF - 1) && prod <= (BASE - 1) * (BASE - 1)
    ensures var (low1, high1) := AddCross(p00, p11, p01);
            var (low2, high2) := AddCross(low1, high1, p10);
            AddCarry(low2, carry, high2).0 + AddCarry(low2, carry, high2).1 * BASE == prod + carry
  {
    AddCrossExact(p00, p11, p01);
    var (low1, high1) := AddCross(p00, p11, p01);
    assert low1 + high1 * BASE + p10 * HALF == prod;
    assert p10 * HALF == HighHalf(p10) * BASE + LowHalf(p10) * HALF;
    AddCrossExact(low1, high1, p10);
    var (low2, high2) := AddCross(low1, high1, p10);
    assert low2 + high2 * BASE == prod;
    AddCarryExact(low2, carry, high2);
  }

  lemma Pow2WordPlus(k: nat)
    ensures Pow2(WORD_BITS + k) == BASE * Pow2(k)
  {
    Pow2Constants();
    Pow2Add(WORD_BITS, k);
  }

  lemma Pow2Split(k: nat)
    requires k <= WORD_BITS
    ensures Pow2(k) * Pow2(WORD_BITS - k) == BASE
  {
    Pow2Constants();
    Pow2Add(k, WORD_BITS - k);
  }

  // ---------------------------------------------------------------------
  // Shifts on one word
  // ---------------------------------------------------------------------

  lemma DivBelow(x: int, p: int, t: int)
    requires 0 <= x < t * p && p > 0
    ensures 0 <= x / p < t
  {
    var q := x / p;
    assert q * p + x % p == x;
    if q >= t {
      MulLe(t, p, q, p);
    }
  }

  lemma ScaledBelow(m: int, p: int, t: int)
    requires 0 <= m < p && t > 0
    ensures 0 <= m * t <= t * p - t
  {
    MulLe(m, t, p - 1, t);
    assert (p - 1) * t == t * p - t;
  }

  /** The mask `~0 >> (64 - k)` has the k low bits set. */
  lemma ShrAllOnes(k: nat)
    requires 0 < k <= WORD_BITS
    ensures WordShr(WORD_MAX, WORD_BITS - k) == Pow2(k) - 1
  {
    var t, p := Pow2(k), Pow2(WORD_BITS - k);
    Pow2Constants();
    Pow2Split(k);
    OnesSplit(t, p);
    DivModUnique(WORD_MAX, p, t - 1, p - 1);
  }

  lemma OnesSplit(t: int, p: int)
    requires t * p == BASE
    ensures WORD_MAX == (t - 1) * p + (p - 1)
  {
    assert (t - 1) * p == t * p - p;
  }

  /** A left shift keeps the bits that fit: `x << s == (x mod 2^(64-s)) 2^s`. */
  lemma ShlAsScaled(x: Word, s: nat)
    requires s < WORD_BITS
    ensures WordShl(x, s) == (x % Pow2(WORD_BITS - s)) * Pow2(s)
  {
    var t, p := Pow2(s), Pow2(WORD_BITS - s);
    Pow2Constants();
    Pow2Add(s, WORD_BITS - s);
    assert t * p == BASE;
    ModScale(x, t, p);
    assert x * t == t * x;
  }

  /** `(hi << s) | (lo >> (64 - s))`, the word a two-word shift assembles, is the
      plain sum of its two disjoint parts. */
  lemma ShiftPair(hi: Word, lo: Word, s: nat)
    requires 0 < s < WORD_BITS
    ensures (hi % Pow2(WORD_BITS - s)) * Pow2(s) + lo / Pow2(WORD_BITS - s) < BASE
    ensures WordOr(WordShl(hi, s), WordShr(lo, WORD_BITS - s))
         == (hi % Pow2(WORD_BITS - s)) * Pow2(s) + lo / Pow2(WORD_BITS - s)
  {
    var t, p := Pow2(s), Pow2(WORD_BITS - s);
    Pow2Constants();
    Pow2Add(s, WORD_BITS - s);
    assert t * p == BASE;
    ShlAsScaled(hi, s);
    var m := hi % p;
    var x := WordShl(hi, s);
    assert x == m * t;
    ModAddMultiple(0, m, t);
    assert x % t == 0;
    DivBelow(lo, p, t);
    var y := WordShr(lo, WORD_BITS - s);
    assert y == lo / p && y < t;
    ScaledBelow(m, p, t);
    assert x <= BASE - t;
    OrDisjoint(x, y, s, WORD_BITS);
  }

  // ---------------------------------------------------------------------
  // Bounds and single bits
  // ---------------------------------------------------------------------

  /** Setting a clear bit p by adding 2^p changes bit p and no other bit. */
  lemma {:induction false} BitAddPow2(x: nat, p: nat, q: nat)
    requires !Bit(x, p)
    ensures Bit(x + Pow2(p), q) == (q == p || Bit(x, q))
    decreases p
  {
    if p == 0 {
      if q > 0 {
        assert (x + 1) / 2 == x / 2;
      }
    } else {
      var m := Pow2(p - 1);
      assert Pow2(p) == 2 * m;
      assert (x + 2 * m) % 2 == x % 2 && (x + 2 * m) / 2 == x / 2 + m;
      if q > 0 {
        BitAddPow2(x / 2, p - 1, q - 1);
      }
    }
  }

  /** The bits after setting bit p: bit p is one, every other bit is unchanged. */
  lemma SetBitBits(x: nat, p: nat, u: nat)
    requires u == if Bit(x, p) then x else x + Pow2(p)
    ensures forall q :: Bit(u, q) == (q == p || Bit(x, q))
  {
    forall q
      ensures Bit(u, q) == (q == p || Bit(x, q))
    {
      if !Bit(x, p) {
        BitAddPow2(x, p, q);
      }
    }
  }

  /** A value below 2^k has no bit at or above position k. */
  lemma {:induction false} BitAbove(x: nat, k: nat, q: nat)
    requires x < Pow2(k) && k <= q
    ensures !Bit(x, q)
    decreases k
  {
    if k == 0 {
      assert x == 0;
      BitByDivision(0, q);
    } else {
      HalfBelow(x, Pow2(k - 1));
      BitAbove(x / 2, k - 1, q - 1);
    }
  }

  /** OR and XOR of two values below 2^k stay below 2^k. */
  lemma {:induction false} BitwiseBelow(x: nat, y: nat, k: nat, n: nat)
    requires x < Pow2(k) && y < Pow2(k)
    ensures BitOr(x, y, n) < Pow2(k) && BitXor(x, y, n) < Pow2(k)
    decreases n
  {
    if n > 0 {
      if k == 0 {
        BitwiseBelow(0, 0, 0, n - 1);
      } else {
        HalfBelow(x, Pow2(k - 1));
        HalfBelow(y, Pow2(k - 1));
        BitwiseBelow(x / 2, y / 2, k - 1, n - 1);
      }
    }
  }

  /** AND with a value below 2^k stays below 2^k. */
  lemma {:induction false} AndBelow(x: nat, y: nat, k: nat, n: nat)
    requires x < Pow2(k)
    ensures BitAnd(x, y, n) < Pow2(k)
    decreases n
  {
    if n > 0 {
      if k == 0 {
        AndBelow(0, y / 2, 0, n - 1);
      } else {
        HalfBelow(x, Pow2(k - 1));
        AndBelow(x / 2, y / 2, k - 1, n - 1);
      }
    }
  }
}
