/** The word loops of `Int_storage` (int_storage.h), written over a word array so
    that both `Int_storage` and the self-contained `Large_ap_int` of large.h, which
    inlines the same loops over its own `v_`, run them. Each method is proved to
    compute the matching sequence function of `LimbOps`, or the value it stands for. */
module WordLoops {
  import opened Words
  import opened Limbs
  import opened LimbOps

  // ---------------------------------------------------------------------
  // Bit addressing
  // ---------------------------------------------------------------------

  /** `which_word(p)` */
  function WhichWord(p: nat): (w: nat)
    ensures p < BITS ==> w < W
  {
    p / WORD_BITS
  }

  /** `which_bit(p)`: the position splits into a word and a bit inside it. */
  function WhichBit(p: nat): (b: nat)
    ensures b < WORD_BITS && WhichWord(p) * WORD_BITS + b == p
  {
    p % WORD_BITS
  }

  /** `mask_bit(p)`: the single-bit word selecting bit `p` inside its word. */
  function MaskBit(p: nat): (m: Word)
    ensures m == Pow2(WhichBit(p))
  {
    var b := WhichBit(p);
    Pow2Constants();
    Pow2Monotone(b + 1, WORD_BITS);
    ModSmall(Pow2(b), BASE);
    WordShl(1, b)
  }

  /** `get_bit(p)`: `(mask_bit(p) & get_word(p)) != 0` is bit p of the value. */
  function BitAt(d: array<Word>, p: nat): (b: bool)
    reads d
    requires d.Length == W && p < BITS
    ensures b == Bit(Val(d[..]), p)
  {
    Dims();
    var j := WhichBit(p);
    AndCommutes(MaskBit(p), d[WhichWord(p)], WORD_BITS);
    AndPow2(d[WhichWord(p)], j, WORD_BITS);
    BitOfVal(d[..], p);
    WordAnd(MaskBit(p), d[WhichWord(p)]) != 0
  }

  /** Setting bit p adds 2^p exactly when the bit was clear. */
  lemma SetBitValue(s: seq<Word>, p: nat, x: Word)
    requires Sized(s) && p < BITS && x == WordOr(s[WhichWord(p)], MaskBit(p))
    ensures Val(s[WhichWord(p) := x]) == if Bit(Val(s), p) then Val(s) else Val(s) + Pow2(p)
  {
    Dims();
    var w, j := WhichWord(p), WhichBit(p);
    Pow2Constants();
    OrPow2(s[w], j, WORD_BITS);
    BitOfVal(s, p);
    if w == 0 {
      SetLowWord(s, p, x);
    } else {
      SetHighWord(s, p, j, x);
    }
  }

  /** Setting bit p of the low word. */
  lemma SetLowWord(s: seq<Word>, p: nat, x: Word)
    requires Sized(s) && p < WORD_BITS
    requires x == if Bit(s[0], p) then s[0] else s[0] + Pow2(p)
    requires Bit(Val(s), p) == Bit(s[0], p)
    ensures Val(s[0 := x]) == if Bit(Val(s), p) then Val(s) else Val(s) + Pow2(p)
  {
    var t := s[0 := x];
    ValOfTwo(s);
    ValOfTwo(t);
    assert t[0] == x && t[1] == s[1];
  }

  /** Setting bit j of the high word, bit 64 + j of the value. */
  lemma SetHighWord(s: seq<Word>, p: nat, j: nat, x: Word)
    requires Sized(s) && W == 2 && p == WORD_BITS + j
    requires x == if Bit(s[1], j) then s[1] else s[1] + Pow2(j)
    requires Bit(Val(s), p) == Bit(s[1], j)
    ensures Val(s[1 := x]) == if Bit(Val(s), p) then Val(s) else Val(s) + Pow2(p)
  {
    var t := s[1 := x];
    ValOfTwo(s);
    ValOfTwo(t);
    assert t[0] == s[0] && t[1] == x;
    Pow2WordPlus(j);
    HighWordSum(Val(s), Val(t), s[0], s[1], x, Pow2(j), Pow2(p), Bit(s[1], j));
  }

  /** Adding 2^j to the high word adds 2^(64 + j) to the value. */
  lemma HighWordSum(vs: int, vt: int, s0: int, s1: int, x: int, pj: int, pp: int, wasSet: bool)
    requires vs == s0 + BASE * s1 && vt == s0 + BASE * x && pp == BASE * pj
    requires x == if wasSet then s1 else s1 + pj
    ensures vt == if wasSet then vs else vs + pp
  {
    if !wasSet {
      assert BASE * x == BASE * s1 + BASE * pj;
    }
  }

  /** Setting a bit of the BITS low bits keeps the padding as it was when clean. */
  lemma SetBitClean(s: seq<Word>, p: nat, x: Word)
    requires Sized(s) && p < BITS && x == WordOr(s[WhichWord(p)], MaskBit(p))
    ensures Clean(s) ==> Clean(s[WhichWord(p) := x])
  {
    Constants();
    if Clean(s) && WhichWord(p) == W - 1 {
      Pow2Monotone(WhichBit(p) + 1, LW);
      BitwiseBelow(s[W - 1], MaskBit(p), LW, WORD_BITS);
    }
  }

  /** `set_bit(p)`: bit p becomes one and every other bit keeps its value. */
  method SetBitIn(d: array<Word>, p: nat)
    requires d.Length == W && p < BITS
    modifies d
    ensures Val(d[..]) == if Bit(Val(old(d[..])), p) then Val(old(d[..])) else Val(old(d[..])) + Pow2(p)
    ensures forall q :: Bit(Val(d[..]), q) == (q == p || Bit(Val(old(d[..])), q))
    ensures Clean(old(d[..])) ==> Clean(d[..])
  {
    ghost var s := d[..];
    var w := WhichWord(p);
    var x := WordOr(d[w], MaskBit(p));
    SetBitValue(s, p, x);
    SetBitClean(s, p, x);
    d[w] := x;
    assert d[..] == s[w := x];
    SetBitBits(Val(s), p, Val(d[..]));
  }

  // ---------------------------------------------------------------------
  // Padding
  // ---------------------------------------------------------------------

  /** The constant `word_max >> (bits_per_word - last_word_bits)`. */
  function PaddingMask(): (m: Word)
    ensures m == LAST_MOD - 1
  {
    Constants();
    ShrAllOnes(LW);
    WordShr(WORD_MAX, WORD_BITS - LW)
  }

  /** `clear_unused_bits`: `back() &= mask`. */
  method ClearUnused(d: array<Word>)
    requires d.Length == W
    modifies d
    ensures d[..] == Cleared(old(d[..]))
  {
    Constants();
    ghost var s := d[..];
    AndLowMask(d[W - 1], LW, WORD_BITS);
    d[W - 1] := WordAnd(d[W - 1], PaddingMask());
    assert d[..] == Cleared(s);
  }

  /** `fill_unused_bits`: `back() |= ~mask`. */
  method FillUnused(d: array<Word>)
    requires d.Length == W
    modifies d
    ensures d[..] == Filled(old(d[..]))
  {
    Constants();
    ghost var s := d[..];
    Pow2Constants();
    OrHighMask(d[W - 1], LW, WORD_BITS);
    d[W - 1] := WordOr(d[W - 1], WordNot(PaddingMask()));
    assert d[..] == Filled(s);
  }

  /** `invert`: every word complemented, then the padding cleared. */
  method InvertIn(d: array<Word>)
    requires d.Length == W
    modifies d
    ensures d[..] == Inverted(old(d[..]))
  {
    ghost var s := d[..];
    var i := 0;
    while i < W
      invariant 0 <= i <= W
      invariant forall j :: 0 <= j < i ==> d[j] == WordNot(s[j])
      invariant forall j :: i <= j < W ==> d[j] == s[j]
    {
      d[i] := WordNot(d[i]);
      i := i + 1;
    }
    ClearUnused(d);
    assert d[..] == Inverted(s);
  }

  // ---------------------------------------------------------------------
  // Carry and borrow loops
  // ---------------------------------------------------------------------

  /** Extending the processed prefix by one word. */
  lemma ValStep(s: seq<Word>, i: nat, t: seq<Word>)
    requires i < |s| && |t| == i + 1 && t[..i] == s[..i] && t[i] == s[i]
    ensures Val(t) == Val(s[..i]) + WordPow(i) * s[i]
  {
  }

  /** The carry rule gives the exact two-word sum of one step. */
  lemma CarryWord(l: Word, r: Word, carryIn: bool)
    ensures var s := if carryIn then WordAdd(l, WordAdd(r, 1)) else WordAdd(l, r);
            var c := if carryIn then 1 else 0;
            var cOut := if carryIn then s <= l else s < l;
            s + (if cOut then BASE else 0) == l + r + c
  {
    AddCarryRule(l, r, carryIn);
    var c := if carryIn then 1 else 0;
    if l + r + c >= BASE {
      ModAddMultiple(l + r + c - BASE, 1, BASE);
      ModSmall(l + r + c - BASE, BASE);
    } else {
      ModSmall(l + r + c, BASE);
    }
  }

  /** The borrow rule gives the exact difference of one step. */
  lemma BorrowWord(l: Word, r: Word, borrowIn: bool)
    ensures var s := if borrowIn then WordSub(l, WordAdd(r, 1)) else WordSub(l, r);
            var c := if borrowIn then 1 else 0;
            var bOut := if borrowIn then s >= l else s > l;
            s - (if bOut then BASE else 0) == l - r - c
  {
    SubBorrowRule(l, r, borrowIn);
    var c := if borrowIn then 1 else 0;
    if l - r - c < 0 {
      ModAddMultiple(l - r - c + BASE, -1, BASE);
      ModSmall(l - r - c + BASE, BASE);
    } else {
      ModSmall(l - r - c, BASE);
    }
  }

  lemma CarryStep(vd: int, va: int, vb: int, P: int, c: int, s: int, a: int, b: int, c2: int)
    requires vd + c * P == va + vb && s + c2 * BASE == a + b + c
    ensures (vd + P * s) + c2 * (BASE * P) == (va + P * a) + (vb + P * b)
  {
    assert P * s + c2 * (BASE * P) == P * (s + c2 * BASE);
    assert P * (a + b + c) == P * a + P * b + c * P;
  }

  lemma BorrowStep(vd: int, va: int, vb: int, P: int, c: int, s: int, a: int, b: int, c2: int)
    requires vd - c * P == va - vb && s - c2 * BASE == a - b - c
    ensures (vd + P * s) - c2 * (BASE * P) == (va + P * a) - (vb + P * b)
  {
    assert P * s - c2 * (BASE * P) == P * (s - c2 * BASE);
    assert P * (a - b - c) == P * a - P * b - c * P;
  }

  /** One step of the carry loop on the word sequences. */
  lemma AddStep(A: seq<Word>, B: seq<Word>, D: seq<Word>, i: nat, cIn: bool, cOut: bool)
    requires |A| == W && |B| == W && |D| == W && i < W
    requires Val(D[..i]) + (if cIn then WordPow(i) else 0) == Val(A[..i]) + Val(B[..i])
    requires D[i] == if cIn then WordAdd(A[i], WordAdd(B[i], 1)) else WordAdd(A[i], B[i])
    requires cOut == if cIn then D[i] <= A[i] else D[i] < A[i]
    ensures Val(D[..i + 1]) + (if cOut then WordPow(i + 1) else 0) == Val(A[..i + 1]) + Val(B[..i + 1])
  {
    CarryWord(A[i], B[i], cIn);
    ValStep(D, i, D[..i + 1]);
    ValStep(A, i, A[..i + 1]);
    ValStep(B, i, B[..i + 1]);
    CarryStep(Val(D[..i]), Val(A[..i]), Val(B[..i]), WordPow(i), if cIn then 1 else 0,
              D[i], A[i], B[i], if cOut then 1 else 0);
  }

  /** One step of the borrow loop on the word sequences. */
  lemma SubStep(A: seq<Word>, B: seq<Word>, D: seq<Word>, i: nat, cIn: bool, cOut: bool)
    requires |A| == W && |B| == W && |D| == W && i < W
    requires Val(D[..i]) - (if cIn then WordPow(i) else 0) == Val(A[..i]) - Val(B[..i])
    requires D[i] == if cIn then WordSub(A[i], WordAdd(B[i], 1)) else WordSub(A[i], B[i])
    requires cOut == if cIn then D[i] >= A[i] else D[i] > A[i]
    ensures Val(D[..i + 1]) - (if cOut then WordPow(i + 1) else 0) == Val(A[..i + 1]) - Val(B[..i + 1])
  {
    BorrowWord(A[i], B[i], cIn);
    ValStep(D, i, D[..i + 1]);
    ValStep(A, i, A[..i + 1]);
    ValStep(B, i, B[..i + 1]);
    BorrowStep(Val(D[..i]), Val(A[..i]), Val(B[..i]), WordPow(i), if cIn then 1 else 0,
               D[i], A[i], B[i], if cOut then 1 else 0);
  }

  lemma WholePrefix(s: seq<Word>)
    requires |s| == W
    ensures s[..W] == s && WordPow(W) == STORE_MOD
  {
    Constants();
  }

  /** The carry loop of `add` (and the Self `+=` of large.h), without the final
      padding clear: the words and the carry out hold the exact sum. `r` may be `d`. */
  method AddWords(d: array<Word>, r: array<Word>) returns (carry: bool)
    requires d.Length == W && r.Length == W
    modifies d
    ensures Val(d[..]) + (if carry then STORE_MOD else 0) == Val(old(d[..])) + Val(old(r[..]))
  {
    ghost var A, B := d[..], r[..];
    carry := false;
    var i := 0;
    while i < W
      invariant 0 <= i <= W
      invariant forall j :: i <= j < W ==> d[j] == A[j] && r[j] == B[j]
      invariant Val(d[..i]) + (if carry then WordPow(i) else 0) == Val(A[..i]) + Val(B[..i])
    {
      ghost var cIn := carry;
      var l := d[i];
      if carry {
        d[i] := WordAdd(l, WordAdd(r[i], 1));
        carry := d[i] <= l;
      } else {
        d[i] := WordAdd(l, r[i]);
        carry := d[i] < l;
      }
      AddStep(A, B, d[..], i, cIn, carry);
      i := i + 1;
    }
    WholePrefix(d[..]);
    WholePrefix(A);
    WholePrefix(B);
  }

  /** The borrow loop of `subtract` (and the Self `-=` of large.h): the words and
      the borrow out hold the exact difference. `r` may be `d`. */
  method SubWords(d: array<Word>, r: array<Word>) returns (borrow: bool)
    requires d.Length == W && r.Length == W
    modifies d
    ensures Val(d[..]) - (if borrow then STORE_MOD else 0) == Val(old(d[..])) - Val(old(r[..]))
  {
    ghost var A, B := d[..], r[..];
    borrow := false;
    var i := 0;
    while i < W
      invariant 0 <= i <= W
      invariant forall j :: i <= j < W ==> d[j] == A[j] && r[j] == B[j]
      invariant Val(d[..i]) - (if borrow then WordPow(i) else 0) == Val(A[..i]) - Val(B[..i])
    {
      ghost var cIn := borrow;
      var l := d[i];
      if borrow {
        d[i] := WordSub(l, WordAdd(r[i], 1));
        borrow := d[i] >= l;
      } else {
        d[i] := WordSub(l, r[i]);
        borrow := d[i] > l;
      }
      SubStep(A, B, d[..], i, cIn, borrow);
      i := i + 1;
    }
    WholePrefix(d[..]);
    WholePrefix(A);
    WholePrefix(B);
  }

  // ---------------------------------------------------------------------
  // Bitwise loops
  // ---------------------------------------------------------------------

  /** `binary_and`: `data_[i] &= rhs[i]` for every word. `r` may be `d`. */
  method AndIn(d: array<Word>, r: array<Word>)
    requires d.Length == W && r.Length == W
    modifies d
    ensures d[..] == AndWords(old(d[..]), old(r[..]))
  {
    ghost var A, B := d[..], r[..];
    var i := 0;
    while i < W
      invariant 0 <= i <= W
      invariant forall j :: 0 <= j < i ==> d[j] == WordAnd(A[j], B[j])
      invariant forall j :: i <= j < W ==> d[j] == A[j] && r[j] == B[j]
    {
      d[i] := WordAnd(d[i], r[i]);
      i := i + 1;
    }
  }

  /** `binary_or`: `data_[i] |= rhs[i]` for every word. */
  method OrIn(d: array<Word>, r: array<Word>)
    requires d.Length == W && r.Length == W
    modifies d
    ensures d[..] == OrWords(old(d[..]), old(r[..]))
  {
    ghost var A, B := d[..], r[..];
    var i := 0;
    while i < W
      invariant 0 <= i <= W
      invariant forall j :: 0 <= j < i ==> d[j] == WordOr(A[j], B[j])
      invariant forall j :: i <= j < W ==> d[j] == A[j] && r[j] == B[j]
    {
      d[i] := WordOr(d[i], r[i]);
      i := i + 1;
    }
  }

  /** `binary_xor`: `data_[i] ^= rhs[i]` for every word. */
  method XorIn(d: array<Word>, r: array<Word>)
    requires d.Length == W && r.Length == W
    modifies d
    ensures d[..] == XorWords(old(d[..]), old(r[..]))
  {
    ghost var A, B := d[..], r[..];
    var i := 0;
    while i < W
      invariant 0 <= i <= W
      invariant forall j :: 0 <= j < i ==> d[j] == WordXor(A[j], B[j])
      invariant forall j :: i <= j < W ==> d[j] == A[j] && r[j] == B[j]
    {
      d[i] := WordXor(d[i], r[i]);
      i := i + 1;
    }
  }

  // ---------------------------------------------------------------------
  // Shifts
  // ---------------------------------------------------------------------

  /** `lshift(n)`: the words move up from the top down, then the low `ws` words are
      zeroed. No padding clear. The carry-in from the word below is skipped when
      `bs == 0`, where the source would shift a word by 64. */
  method LShiftIn(d: array<Word>, n: Word)
    requires d.Length == W
    modifies d
    ensures d[..] == LShifted(old(d[..]), n)
  {
    if n == 0 {
      return;
    }
    ghost var A := d[..];
    var ws, bs := Min(n / WORD_BITS, W), n % WORD_BITS;
    MoveUp(d, ws, bs);
    ZeroBelow(d, ws);
    assert d[..] == LShifted(A, n);
  }

  /** The word-moving loop of `lshift`, from the top down: word j takes bits from
      words `j - ws` and `j - ws - 1`; the low `ws` words are left as they were. */
  method MoveUp(d: array<Word>, ws: nat, bs: nat)
    requires d.Length == W && ws <= W && bs < WORD_BITS
    modifies d
    ensures forall j :: ws <= j < W ==> d[j] == LShiftWord(old(d[..]), j, ws, bs)
    ensures forall j :: 0 <= j < ws ==> d[j] == old(d[j])
  {
    ghost var A := d[..];
    var w := W;
    while w > ws
      invariant ws <= w <= W
      invariant forall j :: w <= j < W ==> d[j] == LShiftWord(A, j, ws, bs)
      invariant forall j :: 0 <= j < w ==> d[j] == A[j]
    {
      w := w - 1;
      var x := WordShl(d[w - ws], bs);
      if w > ws && bs != 0 {
        x := WordOr(x, WordShr(d[w - ws - 1], WORD_BITS - bs));
      }
      assert x == LShiftWord(A, w, ws, bs);
      d[w] := x;
    }
  }

  /** The low `ws` words become zero. */
  method ZeroBelow(d: array<Word>, ws: nat)
    requires d.Length == W && ws <= W
    modifies d
    ensures forall j :: 0 <= j < W ==> d[j] == if j < ws then 0 else old(d[j])
  {
    var i := 0;
    while i < ws
      invariant 0 <= i <= ws
      invariant forall j :: 0 <= j < W ==> d[j] == if j < i then 0 else old(d[j])
    {
      d[i] := 0;
      i := i + 1;
    }
  }

  /** The word-moving loop of `rshift`: word j takes bits from words `j + ws` and
      `j + ws + 1`; the top `ws` words are left as they were. */
  method MoveDown(d: array<Word>, ws: nat, bs: nat)
    requires d.Length == W && ws <= W && bs < WORD_BITS
    modifies d
    ensures d[..] == RMoved(old(d[..]), ws, bs)
  {
    ghost var F := d[..];
    var w := 0;
    while w < W - ws
      invariant 0 <= w <= W - ws
      invariant forall j :: 0 <= j < w ==> d[j] == RShiftWord(F, j, ws, bs)
      invariant forall j :: w <= j < W ==> d[j] == F[j]
    {
      var x := WordShr(d[w + ws], bs);
      if w + ws + 1 < W && bs != 0 {
        x := WordOr(x, WordShl(d[w + ws + 1], WORD_BITS - bs));
      }
      assert x == RShiftWord(F, w, ws, bs);
      d[w] := x;
      w := w + 1;
    }
    assert d[..] == RMoved(F, ws, bs);
  }

  /** Sets the top `ws` words to `x`. */
  method SetVacated(d: array<Word>, ws: nat, x: Word)
    requires d.Length == W && ws <= W
    modifies d
    ensures forall j :: 0 <= j < W ==> d[j] == if j + ws >= W then x else old(d[j])
  {
    var w := W - ws;
    while w < W
      invariant W - ws <= w <= W
      invariant forall j :: 0 <= j < W ==> d[j] == if W - ws <= j < w then x else old(d[j])
    {
      d[w] := x;
      w := w + 1;
    }
  }

  /** The filling branch after the move: the vacated words become all ones and
      the highest moved word takes the top mask. */
  method FillVacated(d: array<Word>, ws: nat, bs: nat)
    requires d.Length == W && ws <= W && bs < WORD_BITS
    modifies d
    ensures d[..] == FillTop(old(d[..]), ws, bs)
  {
    ghost var M := d[..];
    SetVacated(d, ws, WORD_MAX);
    if ws < W {
      d[W - ws - 1] := WordOr(d[W - ws - 1], TopMask(bs));
    }
    assert d[..] == FillTop(M, ws, bs);
  }

  /** `rshift(n)` with the two defects of the source put right: the vacated top
      words of the non-filling branch are zeroed (the source leaves them stale),
      and the mask of the filling branch is the intended word mask, not OR-ed in
      at all when every word is vacated (the source indexes word -1 there). */
  method RShiftIn(d: array<Word>, n: Word)
    requires d.Length == W
    modifies d
    ensures d[..] == RShiftedFixed(old(d[..]), n)
  {
    Dims();
    ghost var A := d[..];
    var fillingOnes := BitAt(d, BITS - 1);
    assert fillingOnes == Bit(A[W - 1], LW - 1) by {
      BitOfVal(A, BITS - 1);
    }
    if fillingOnes {
      FillUnused(d);
    }
    var ws, bs := Min(n / WORD_BITS, W), n % WORD_BITS;
    MoveDown(d, ws, bs);
    if fillingOnes {
      FillVacated(d, ws, bs);
      ClearUnused(d);
    } else {
      ghost var M := d[..];
      SetVacated(d, ws, 0);
      assert d[..] == RZeroed(A, ws, bs);
    }
  }

  // ---------------------------------------------------------------------
  // Compare, multiply, leading zeros
  // ---------------------------------------------------------------------

  /** `compare`: scanning down from the top word, the first difference decides. */
  method CompareWords(a: array<Word>, b: array<Word>) returns (r: int)
    requires a.Length == W && b.Length == W
    ensures r == Sign(Val(a[..]) - Val(b[..]))
  {
    var parts := W;
    while parts > 0
      invariant 0 <= parts <= W
      invariant forall j :: parts <= j < W ==> a[j] == b[j]
    {
      parts := parts - 1;
      if a[parts] != b[parts] {
        CompareAtWord(a[..], b[..], parts);
        return if a[parts] > b[parts] then 1 else -1;
      }
    }
    assert a[..] == b[..];
    return 0;
  }

  lemma MulStep(vd: int, vs: int, P: int, c: int, low: int, high: int, x: int, rhs: int)
    requires vd + c * P == vs * rhs && low + high * BASE == x * rhs + c
    ensures (vd + P * low) + high * (BASE * P) == (vs + P * x) * rhs
  {
    assert P * low + high * (BASE * P) == P * (low + high * BASE);
    assert P * (x * rhs + c) == (P * x) * rhs + c * P;
  }

  /** One step of the multiplication loop on the word sequences. */
  lemma MulSeqStep(S: seq<Word>, D: seq<Word>, i: nat, rhs: Word, c: Word, cOut: Word)
    requires |S| == W && |D| == W && i < W
    requires Val(D[..i]) + c * WordPow(i) == Val(S[..i]) * rhs
    requires D[i] + cOut * BASE == S[i] * rhs + c
    ensures Val(D[..i + 1]) + cOut * WordPow(i + 1) == Val(S[..i + 1]) * rhs
  {
    ValStep(D, i, D[..i + 1]);
    ValStep(S, i, S[..i + 1]);
    MulStep(Val(D[..i]), Val(S[..i]), WordPow(i), c, D[i], cOut, S[i], rhs);
  }

  /** The word loop of `mul` and of large.h's `unsigned_mul`: `dst[i]` gets the low
      word of `src[i] * rhs + carry` and the high word carries on. `dst` may be `src`
      (`mul` works in place); the words and the carry out hold the exact product. */
  method MulWords(src: array<Word>, dst: array<Word>, rhs: Word) returns (carry: Word)
    requires src.Length == W && dst.Length == W
    modifies dst
    ensures Val(dst[..]) + carry * STORE_MOD == Val(old(src[..])) * rhs
  {
    ghost var S := src[..];
    carry := 0;
    var i := 0;
    while i < W
      invariant 0 <= i <= W
      invariant forall j :: i <= j < W ==> src[j] == S[j]
      invariant Val(dst[..i]) + carry * WordPow(i) == Val(S[..i]) * rhs
    {
      ghost var c := carry;
      var x := src[i];
      var (low, high) := MulWord(x, rhs, carry);
      MulWordCorrect(x, rhs, c);
      dst[i] := low;
      carry := high;
      MulSeqStep(S, dst[..], i, rhs, c, carry);
      i := i + 1;
    }
    WholePrefix(dst[..]);
    WholePrefix(S);
  }

  /** Doubling a word doubles its `top` low bits while they stay below 2^top. */
  lemma ShiftOneStep(cur: Word, top: nat, v: nat)
    requires 0 < top <= WORD_BITS && cur % Pow2(top) == v && 2 * v < Pow2(top)
    ensures WordShl(cur, 1) % Pow2(top) == 2 * v
  {
    var P := Pow2(top);
    assert WordShl(cur, 1) == (2 * cur) % BASE by {
      assert Pow2(1) == 2;
    }
    ModBaseNested(2 * cur, top);
    DoubleMod(cur, P, v);
  }

  lemma DoubleMod(x: int, P: int, v: int)
    requires P > 0 && x % P == v && 0 <= 2 * v < P
    ensures (2 * x) % P == 2 * v
  {
    var q := x / P;
    assert x == q * P + v;
    DivModUnique(2 * x, P, 2 * q, 2 * v);
  }

  /** The mask test of the leading-zero loop reads bit `top - 1`. */
  lemma TopBitTest(cur: Word, top: nat, mask: Word)
    requires 0 < top <= WORD_BITS && mask == Pow2(top - 1)
    ensures (WordAnd(cur, mask) != 0) == (cur % Pow2(top) >= Pow2(top - 1))
  {
    AndPow2(cur, top - 1, WORD_BITS);
    BitAsRemainder(cur, top - 1);
  }

  /** What the leading-zero loop keeps: after r shifts the `top` low bits of the
      word lie in `[2^(L+r), 2^(L+r+1))`, where L is the top set bit at the start. */
  predicate ClzInv(w: Word, top: nat, L: nat, r: nat)
    requires 0 < top <= WORD_BITS
  {
    L + r <= top - 1 && Pow2(L + r) <= w % Pow2(top) < Pow2(L + r + 1)
  }

  lemma ClzStart(x: Word, top: nat)
    requires 0 < top <= WORD_BITS && x % Pow2(top) != 0
    ensures ClzInv(x, top, Log2(x % Pow2(top)), 0)
  {
    Log2Below(x % Pow2(top), top);
  }

  lemma ClzStep(w: Word, top: nat, mask: Word, L: nat, r: nat)
    requires 0 < top <= WORD_BITS && mask == Pow2(top - 1)
    requires ClzInv(w, top, L, r) && WordAnd(w, mask) == 0
    ensures ClzInv(WordShl(w, 1), top, L, r + 1)
  {
    TopBitTest(w, top, mask);
    if L + r == top - 1 {
      assert false;
    }
    Pow2Monotone(L + r + 1, top - 1);
    ShiftOneStep(w, top, w % Pow2(top));
  }

  lemma ClzEnd(w: Word, top: nat, mask: Word, L: nat, r: nat)
    requires 0 < top <= WORD_BITS && mask == Pow2(top - 1)
    requires ClzInv(w, top, L, r) && WordAnd(w, mask) != 0
    ensures r == top - 1 - L
  {
    TopBitTest(w, top, mask);
    if L + r < top - 1 {
      Pow2Monotone(L + r + 1, top - 1);
    }
  }

  /** The inner loop of `count_leading_zeros`: shift the word left until bit
      `top - 1` is set, counting the shifts. It ends when the `top` low bits are
      not all zero. */
  method LeadingZerosIn(x: Word, top: nat) returns (r: nat)
    requires 0 < top <= WORD_BITS && x % Pow2(top) != 0
    ensures r == top - 1 - Log2(x % Pow2(top))
  {
    var mask := MaskBit(top - 1);
    assert mask == Pow2(top - 1) by {
      ModSmall(top - 1, WORD_BITS);
    }
    ghost var L := Log2(x % Pow2(top));
    var w := x;
    r := 0;
    ClzStart(x, top);
    while WordAnd(w, mask) == 0
      invariant ClzInv(w, top, L, r)
      decreases top - 1 - L - r
    {
      ClzStep(w, top, mask, L, r);
      r := r + 1;
      w := WordShl(w, 1);
    }
    ClzEnd(w, top, mask, L, r);
  }

  /** The leading zeros when the last word has a used bit set. */
  lemma ClzTopWord(s: seq<Word>)
    requires Sized(s) && s[W - 1] % LAST_MOD != 0
    ensures Clz(Low(s)) == LW - 1 - Log2(s[W - 1] % LAST_MOD)
  {
    Dims();
    LowOfTwo(s);
    Log2OfTwo(s[0], s[1] % LAST_MOD);
  }

  lemma LowOfTwo(s: seq<Word>)
    requires Sized(s)
    ensures Low(s) == s[0] + BASE * (s[W - 1] % LAST_MOD)
  {
    Constants();
    ClearedValue(s);
    ValOfTwo(Cleared(s));
  }

  /** The leading zeros when only the low word is non-zero. */
  lemma ClzLowWord(s: seq<Word>)
    requires Sized(s) && s[W - 1] == 0 && s[0] != 0
    ensures Clz(Low(s)) == LW + WORD_BITS - 1 - Log2(s[0])
  {
    Constants();
    ValOfTwo(s);
    ModSmall(Val(s), MODULUS);
  }

  lemma ClzZeroWords(s: seq<Word>)
    requires Sized(s) && s[W - 1] == 0 && s[0] == 0
    ensures Clz(Low(s)) == LW + WORD_BITS
  {
    Constants();
    ValOfTwo(s);
  }

  /** `count_leading_zeros` of the BITS-bit value. The source loops forever when the
      last word is non-zero only in its padding; the precondition excludes that. */
  method LeadingZeros(d: array<Word>) returns (r: nat)
    requires d.Length == W && (d[W - 1] == 0 || d[W - 1] % LAST_MOD != 0)
    ensures r == Clz(Low(d[..]))
  {
    Dims();
    r := 0;
    if d[W - 1] != 0 {
      PowerConstants();
      r := LeadingZerosIn(d[W - 1], LW);
      ClzTopWord(d[..]);
    } else {
      r := r + LW;
      var i: int := W - 2;
      while i >= 0
        invariant -1 <= i <= W - 2
        invariant i == -1 ==> d[0] == 0 && r == LW + WORD_BITS
        invariant i == 0 ==> r == LW
      {
        if d[i] == 0 {
          r := r + WORD_BITS;
        } else {
          Pow2Constants();
          ModSmall(d[i], BASE);
          var z := LeadingZerosIn(d[i], WORD_BITS);
          r := r + z;
          ClzLowWord(d[..]);
          return;
        }
        i := i - 1;
      }
      ClzZeroWords(d[..]);
    }
  }
}
