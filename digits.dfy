/**
 * Decimal digit strings: characters '0'..'9', most significant digit first,
 * and the natural number such a string denotes.
 */
module Digits {

  predicate IsDigit(c: char) {
    '0' <= c <= '9'
  }

  predicate IsDigits(s: seq<char>) {
    forall i | 0 <= i < |s| :: IsDigit(s[i])
  }

  /** A digit string without redundant leading zeros; zero is exactly "0". */
  predicate IsNormalized(s: seq<char>) {
    IsDigits(s) && |s| > 0 && (|s| > 1 ==> s[0] != '0')
  }

  predicate AllZeros(s: seq<char>) {
    forall i | 0 <= i < |s| :: s[i] == '0'
  }

  function DigitValue(c: char): (d: nat)
    requires IsDigit(c)
    ensures d < 10
  {
    c as int - '0' as int
  }

  function DigitChar(d: nat): (c: char)
    requires d < 10
    ensures IsDigit(c) && DigitValue(c) == d
  {
    (d + '0' as int) as char
  }

  function Zeros(n: nat): (z: seq<char>)
    ensures |z| == n && IsDigits(z) && AllZeros(z)
  {
    seq(n, _ => '0')
  }

  function Pow10(n: nat): (p: nat)
    ensures p >= 1
  {
    if n == 0 then 1 else 10 * Pow10(n - 1)
  }

  function Max(a: int, b: int): int {
    if a >= b then a else b
  }

  /** Three-way comparison: 1, 0 or -1 as x is above, equal to or below y. */
  function Cmp(x: int, y: int): (c: int)
    ensures c == 1 <==> x > y
    ensures c == 0 <==> x == y
    ensures c == -1 <==> x < y
  {
    if x > y then 1 else if x < y then -1 else 0
  }

  /** The number a digit string denotes; the empty string denotes 0. */
  function Val(s: seq<char>): nat
    requires IsDigits(s)
  {
    if s == [] then 0 else Val(s[..|s| - 1]) * 10 + DigitValue(s[|s| - 1])
  }

  lemma {:induction false} Pow10Add(a: nat, b: nat)
    ensures Pow10(a + b) == Pow10(a) * Pow10(b)
  {
    if b > 0 {
      Pow10Add(a, b - 1);
      assert Pow10(a + b) == 10 * Pow10(a + b - 1);
    }
  }

  lemma Pow10Monotone(a: nat, b: nat)
    requires a <= b
    ensures Pow10(a) <= Pow10(b)
  {
    Pow10Add(a, b - a);
  }

  /** Appending t to s shifts s left by |t| places. */
  lemma {:induction false} ValConcat(s: seq<char>, t: seq<char>)
    requires IsDigits(s) && IsDigits(t)
    ensures IsDigits(s + t)
    ensures Val(s + t) == Val(s) * Pow10(|t|) + Val(t)
  {
    if t != [] {
      var t' := t[..|t| - 1];
      var st := s + t;
      assert st[..|st| - 1] == s + t';
      ValConcat(s, t');
      ShiftDigit(Val(s), Pow10(|t'|), Val(t'), DigitValue(t[|t| - 1]));
      assert Val(st) == Val(s + t') * 10 + DigitValue(t[|t| - 1]);
    } else {
      assert s + t == s;
    }
  }

  lemma ValSingle(c: char)
    requires IsDigit(c)
    ensures Val([c]) == DigitValue(c)
  {
    assert [c][..0] == [];
  }

  /** The value of s[..i+1] extends that of s[..i] by one digit. */
  lemma ValPrefixStep(s: seq<char>, i: nat)
    requires IsDigits(s) && i < |s|
    ensures Val(s[..i + 1]) == Val(s[..i]) * 10 + DigitValue(s[i])
  {
    assert s[..i + 1][..i] == s[..i];
  }

  /** The suffix s[i..] is its first digit in place |s|-i-1 plus the rest. */
  lemma ValSuffixStep(s: seq<char>, i: nat)
    requires IsDigits(s) && i < |s|
    ensures Val(s[i..]) == DigitValue(s[i]) * Pow10(|s| - i - 1) + Val(s[i + 1..])
  {
    assert s[i..] == [s[i]] + s[i + 1..];
    ValConcat([s[i]], s[i + 1..]);
    ValSingle(s[i]);
  }

  lemma {:induction false} ValAllZeros(s: seq<char>)
    requires IsDigits(s)
    ensures Val(s) == 0 <==> AllZeros(s)
  {
    if s != [] {
      ValAllZeros(s[..|s| - 1]);
      assert AllZeros(s) <==> AllZeros(s[..|s| - 1]) && s[|s| - 1] == '0';
    }
  }

  lemma {:induction false} ValBound(s: seq<char>)
    requires IsDigits(s)
    ensures Val(s) < Pow10(|s|)
  {
    if s != [] {
      ValBound(s[..|s| - 1]);
    }
  }

  /** Dropping a leading '0' of w, the suffix of t after some zeros, keeps its value. */
  lemma DropLeadingZero(t: seq<char>, w: seq<char>)
    requires |w| <= |t| && w == t[|t| - |w|..] && AllZeros(t[..|t| - |w|])
    requires |w| > 0 && w[0] == '0'
    ensures w[1..] == t[|t| - |w| + 1..] && AllZeros(t[..|t| - |w| + 1])
    ensures IsDigits(w) ==> Val(w[1..]) == Val(w)
  {
    assert t[..|t| - |w| + 1] == t[..|t| - |w|] + [w[0]];
    if IsDigits(w) {
      LeadingZeroValue(w);
    }
  }

  lemma LeadingZeroValue(w: seq<char>)
    requires IsDigits(w) && |w| > 0 && w[0] == '0'
    ensures Val(w[1..]) == Val(w)
  {
    ValSuffixStep(w, 0);
    assert w[0..] == w;
    assert DigitValue(w[0]) == 0;
  }

  lemma LeadingZerosVanish(n: nat, s: seq<char>)
    requires IsDigits(s)
    ensures IsDigits(Zeros(n) + s) && Val(Zeros(n) + s) == Val(s)
  {
    ValConcat(Zeros(n), s);
    ValAllZeros(Zeros(n));
  }

  lemma TrailingZerosScale(s: seq<char>, n: nat)
    requires IsDigits(s)
    ensures IsDigits(s + Zeros(n)) && Val(s + Zeros(n)) == Val(s) * Pow10(n)
  {
    ValConcat(s, Zeros(n));
    ValAllZeros(Zeros(n));
  }

  /** A string whose first digit is non-zero is at least 10^(|s|-1). */
  lemma LeadingDigitBound(s: seq<char>)
    requires IsDigits(s) && |s| > 0 && s[0] != '0'
    ensures Val(s) >= Pow10(|s| - 1)
  {
    ValSuffixStep(s, 0);
    assert s[0..] == s;
  }

  /** Among normalized strings, the longer one denotes the larger number. */
  lemma LongerIsLarger(a: seq<char>, b: seq<char>)
    requires IsNormalized(a) && IsNormalized(b) && |a| > |b|
    ensures Val(a) > Val(b)
  {
    LeadingDigitBound(a);
    ValBound(b);
    Pow10Monotone(|b|, |a| - 1);
  }

  lemma NormalizedZero(s: seq<char>)
    requires IsNormalized(s)
    ensures Val(s) == 0 <==> s == "0"
  {
    ValAllZeros(s);
    if |s| > 1 {
      assert s[0] != '0';
    }
  }

  /**
   * Two strings of equal length that agree on a prefix are ordered by the
   * first digit where they differ.
   */
  lemma FirstDifferenceDecides(a: seq<char>, b: seq<char>, i: nat)
    requires IsDigits(a) && IsDigits(b) && |a| == |b| && i < |a|
    requires a[..i] == b[..i] && DigitValue(a[i]) > DigitValue(b[i])
    ensures Val(a) > Val(b)
  {
    ValPrefixStep(a, i);
    ValPrefixStep(b, i);
    ValSplit(a, i + 1);
    ValSplit(b, i + 1);
    ValBound(b[i + 1..]);
    HigherPlaceDominates(Val(a[..i + 1]), Val(a[i + 1..]), Val(b[..i + 1]), Val(b[i + 1..]),
                         Pow10(|a| - i - 1), Val(a), Val(b));
  }

  /** A string is its prefix shifted past the suffix, plus the suffix. */
  lemma ValSplit(s: seq<char>, k: nat)
    requires IsDigits(s) && k <= |s|
    ensures Val(s) == Val(s[..k]) * Pow10(|s| - k) + Val(s[k..])
  {
    assert s == s[..k] + s[k..];
    ValConcat(s[..k], s[k..]);
  }

  lemma HigherPlaceDominates(ha: nat, la: nat, hb: nat, lb: nat, p: nat, x: int, y: int)
    requires ha > hb && lb < p
    requires x == ha * p + la && y == hb * p + lb
    ensures x > y
  {
    assert ha * p >= (hb + 1) * p;
  }

  // Arithmetic and sequence identities, stated on their own so that the
  // nonlinear arithmetic and the concatenations in the proofs above stay small.

  lemma ShiftDigit(x: int, p: int, y: int, d: int)
    ensures (x * p + y) * 10 + d == x * (p * 10) + (y * 10 + d)
  {
  }
}
