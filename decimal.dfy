/** Decimal text, as the string constructors read it and the stream operators
    write it: a leading run of digits, most significant first, and the digit
    sequence the repeated division by ten produces. */
module Decimal {
  import opened Words
  import opened Limbs
  import opened DivisionFacts

  predicate IsDigit(c: char)
  {
    '0' <= c <= '9'
  }

  predicate AllDigits(s: string)
  {
    forall i :: 0 <= i < |s| ==> IsDigit(s[i])
  }

  function DigitValue(c: char): (d: nat)
    requires IsDigit(c)
    ensures d < 10
  {
    c as int - '0' as int
  }

  function DigitChar(d: nat): (c: char)
    requires d < 10
    ensures IsDigit(c) && DigitValue(c) == d
  {
    (d + '0' as int) as char
  }

  /** Digits without a leading zero; zero itself is spelt with no digits. */
  predicate Canonical(s: string)
  {
    AllDigits(s) && (s == [] || s[0] != '0')
  }

  /** The number a run of digits spells, read most significant digit first. */
  function DecimalValue(s: string): nat
    requires AllDigits(s)
  {
    if s == [] then 0 else DecimalValue(s[..|s| - 1]) * 10 + DigitValue(s[|s| - 1])
  }

  /** Appending a digit scales the value by ten and adds the digit. */
  lemma DecimalSnoc(p: string, c: char)
    requires AllDigits(p) && IsDigit(c)
    ensures AllDigits(p + [c]) && DecimalValue(p + [c]) == DecimalValue(p) * 10 + DigitValue(c)
  {
    assert (p + [c])[..|p|] == p;
  }

  /** The longest prefix of `s` made of digits: where the constructors stop reading. */
  function LeadingDigits(s: string): (p: string)
    ensures AllDigits(p) && p <= s
    ensures |p| < |s| ==> !IsDigit(s[|p|])
  {
    if s == [] || !IsDigit(s[0]) then [] else [s[0]] + LeadingDigits(s[1..])
  }

  /** The canonical decimal spelling of `n`. */
  function Digits(n: nat): (s: string)
    ensures Canonical(s)
    ensures s == [] <==> n == 0
  {
    if n == 0 then [] else Digits(n / 10) + [DigitChar(n % 10)]
  }

  lemma {:induction false} ValueOfDigits(n: nat)
    ensures DecimalValue(Digits(n)) == n
  {
    if n > 0 {
      var s := Digits(n);
      assert s[..|s| - 1] == Digits(n / 10);
      ValueOfDigits(n / 10);
    }
  }

  lemma {:induction false} CanonicalPositive(s: string)
    requires Canonical(s) && s != []
    ensures DecimalValue(s) > 0
  {
    if |s| > 1 {
      CanonicalPositive(s[..|s| - 1]);
    }
  }

  /** Canonical digit runs and numbers correspond one to one. */
  lemma {:induction false} DigitsOfValue(s: string)
    requires Canonical(s)
    ensures Digits(DecimalValue(s)) == s
  {
    if s != [] {
      var p := s[..|s| - 1];
      var n := DecimalValue(s);
      CanonicalPositive(s);
      DivModUnique(n, 10, DecimalValue(p), DigitValue(s[|s| - 1]));
      DigitsOfValue(p);
      assert s == p + [s[|s| - 1]];
    }
  }

  lemma {:induction false} LeadingOfDigits(s: string)
    requires AllDigits(s)
    ensures LeadingDigits(s) == s
  {
    if s != [] {
      LeadingOfDigits(s[1..]);
      assert s == [s[0]] + s[1..];
    }
  }

  /** `char('0' + w)`: the character code wraps to eight bits. */
  function DigitByte(w: Word): (c: char)
    ensures w < 10 ==> c == DigitChar(w)
  {
    ((w + '0' as int) % 256) as char
  }

  /** The digits the stream operators write, most significant first: repeated
      `udivmod` by ten, each remainder's low word written as a character, until
      the quotient is zero. */
  function RenderValue(n: nat): (s: string)
    requires n < MODULUS
  {
    if n == 0 then []
    else
      UDivModCorrect(true, n, 10);
      var qr := UDivModValues(true, n, 10);
      RenderValue(qr.0) + [DigitByte(qr.1 % BASE)]
  }

  /** The division by ten is exact, so the digits are the decimal spelling,
      which the constructors read back. */
  lemma {:induction false} RenderedDigits(n: nat)
    requires n < MODULUS
    ensures RenderValue(n) == Digits(n)
  {
    if n > 0 {
      UDivModCorrect(true, n, 10);
      var qr := UDivModValues(true, n, 10);
      DivModUnique(n, 10, qr.0, qr.1);
      ModSmall(qr.1, BASE);
      RenderedDigits(qr.0);
    }
  }

  /** The same digit generation over `udivmod` as written, with the sign-filling
      halving. */
  function RenderAsWritten(n: nat): (s: string)
    requires n < MODULUS
  {
    if n == 0 then []
    else
      UDivModCorrect(false, n, 10);
      var qr := UDivModValues(false, n, 10);
      RenderAsWritten(qr.0) + [DigitByte(qr.1 % BASE)]
  }

  /** Below 2^(BITS-1) the digits as written are the decimal spelling. */
  lemma {:induction false} RenderAgrees(n: nat)
    requires n < SIGN
    ensures RenderAsWritten(n) == RenderValue(n)
  {
    Constants();
    if n > 0 {
      UnsignedHalvingAgrees(n, 10);
      UDivModCorrect(true, n, 10);
      RenderAgrees(UDivModValues(true, n, 10).0);
    }
  }

  /** As written, 2^(BITS-1) is rendered as the single digit `0`: the first
      division by ten returns quotient 0 and the whole number as the remainder,
      whose low word is 0. */
  lemma RenderSignAsWritten()
    ensures RenderAsWritten(SIGN) == "0"
    ensures RenderValue(SIGN) != "0"
  {
    Constants();
    SignFilledByTen();
    assert SIGN % BASE == 0;
    assert RenderAsWritten(0) == [];
    RenderedDigits(SIGN);
    assert Digits(SIGN)[0] != '0';
  }

  /** The constructors stop at the first character that is not a digit. */
  lemma {:induction false} LeadingDigitsStop(s: string, k: nat)
    requires k <= |s| && AllDigits(s[..k]) && (k == |s| || !IsDigit(s[k]))
    ensures LeadingDigits(s) == s[..k]
  {
    if k > 0 {
      assert s[1..][..k - 1] == s[1..k];
      assert AllDigits(s[1..][..k - 1]);
      LeadingDigitsStop(s[1..], k - 1);
      assert s[..k] == [s[0]] + s[1..k];
    }
  }

  /** Reading from `start`, the run of digits ends at `i`. */
  lemma LeadingDigitsFrom(v: string, start: nat, i: nat)
    requires start <= i <= |v| && AllDigits(v[start..i]) && (i == |v| || !IsDigit(v[i]))
    ensures LeadingDigits(v[start..]) == v[start..i]
  {
    assert v[start..][..i - start] == v[start..i];
    assert i - start == |v[start..]| || !IsDigit(v[start..][i - start]);
    LeadingDigitsStop(v[start..], i - start);
  }

  /** One more digit read: the run grows by it and its value by one decimal place. */
  lemma DigitsStep(v: string, start: nat, i: nat)
    requires start <= i < |v| && AllDigits(v[start..i]) && IsDigit(v[i])
    ensures AllDigits(v[start..i + 1])
    ensures DecimalValue(v[start..i + 1]) == DecimalValue(v[start..i]) * 10 + DigitValue(v[i])
  {
    var after := v[start..i + 1];
    assert after[..|after| - 1] == v[start..i] && after[|after| - 1] == v[i];
  }

  lemma ReadRendered(n: nat)
    requires n < MODULUS
    ensures AllDigits(RenderValue(n)) && LeadingDigits(RenderValue(n)) == RenderValue(n)
    ensures DecimalValue(LeadingDigits(RenderValue(n))) == n
  {
    RenderedDigits(n);
    LeadingOfDigits(Digits(n));
    ValueOfDigits(n);
  }

  function Pow10(k: nat): (r: nat)
    ensures r > 0
  {
    if k == 0 then 1 else 10 * Pow10(k - 1)
  }

  lemma {:induction false} Pow10Monotone(a: nat, b: nat)
    requires a <= b
    ensures Pow10(a) <= Pow10(b)
  {
    if a < b {
      Pow10Monotone(a, b - 1);
    }
  }

  lemma {:induction false} Pow10Add(a: nat, b: nat)
    ensures Pow10(a + b) == Pow10(a) * Pow10(b)
  {
    if b > 0 {
      Pow10Add(a, b - 1);
    }
  }

  /** 10^24 < 2^80: every run of at most 24 digits spells a number in range. */
  lemma Pow10Range()
    ensures Pow10(24) < MODULUS
  {
    assert Pow10(3) == 1000;
    Pow10Add(3, 3);
    Pow10Add(6, 6);
    Pow10Add(12, 12);
  }

  /** A leading zero does not change the number a run of digits spells. */
  lemma {:induction false} LeadingZeroValue(s: string)
    requires AllDigits(s)
    ensures AllDigits("0" + s) && DecimalValue("0" + s) == DecimalValue(s)
  {
    if s != [] {
      var p := s[..|s| - 1];
      assert ("0" + s)[..|"0" + s| - 1] == "0" + p;
      LeadingZeroValue(p);
    }
  }

  /** A run of `k` digits spells a number below 10^k. */
  lemma {:induction false} DecimalBelow(s: string)
    requires AllDigits(s)
    ensures DecimalValue(s) < Pow10(|s|)
  {
    if s != [] {
      DecimalBelow(s[..|s| - 1]);
    }
  }

  /** The reversal the stream operators apply to the collected digits. */
  function Reverse(s: string): (r: string)
    ensures |r| == |s|
    ensures forall i :: 0 <= i < |s| ==> r[i] == s[|s| - 1 - i]
  {
    if s == [] then [] else Reverse(s[1..]) + [s[0]]
  }

  lemma ReverseSnoc(s: string, c: char)
    ensures Reverse(s + [c]) == [c] + Reverse(s)
  {
  }
}
