/**
 * The signed scaled decimal value (sign, digit string, number of fractional
 * digits), its constructors, its text parser and its text form.
 */
module FPValueCore {
  import opened Digits
  import opened Outcomes

  /** sign * vstr / 10^dp.  Values are never changed after construction. */
  datatype FPValue = FPValue(sign: int, vstr: seq<char>, dp: nat)

  /** What every value produced by the parser or the constructor satisfies. */
  predicate IsValue(v: FPValue) {
    (v.sign == 1 || v.sign == -1) && IsDigits(v.vstr) && v.dp <= |v.vstr|
  }

  /**
   * No trailing zero among the fractional digits, and no leading zero in the
   * integer part unless that part is a single digit.
   */
  predicate Trimmed(vstr: seq<char>, dp: nat) {
    && (dp == 0 || (|vstr| > 0 && vstr[|vstr| - 1] != '0'))
    && (|vstr| - dp <= 1 || vstr[0] != '0')
  }

  predicate IsZero(v: FPValue) {
    v.vstr == "0" && v.dp == 0
  }

  /** A value with at least one digit, trimmed, and no negative zero. */
  predicate Wf(v: FPValue) {
    IsValue(v) && |v.vstr| > 0 && Trimmed(v.vstr, v.dp) && (IsZero(v) ==> v.sign == 1)
  }

  /** The value the default constructor builds. */
  function Zero(): FPValue {
    FPValue(1, "0", 0)
  }

  /** |v| in units of 10^-k. */
  function Magnitude(v: FPValue, k: nat): nat
    requires IsDigits(v.vstr) && v.dp <= k
  {
    Val(v.vstr) * Pow10(k - v.dp)
  }

  /** v in units of 10^-k: the exact meaning of a value, with no real numbers. */
  function Units(v: FPValue, k: nat): int
    requires IsDigits(v.vstr) && v.dp <= k
  {
    Signed(v.sign, Magnitude(v, k))
  }

  /** m with the sign s applied. */
  function Signed(s: int, m: int): int {
    if s < 0 then -m else m
  }

  lemma UnitsRescale(v: FPValue, k1: nat, k2: nat)
    requires IsDigits(v.vstr) && v.dp <= k1 <= k2
    ensures Magnitude(v, k2) == Magnitude(v, k1) * Pow10(k2 - k1)
    ensures Units(v, k2) == Units(v, k1) * Pow10(k2 - k1)
  {
    Pow10Add(k1 - v.dp, k2 - k1);
    Rescale(Val(v.vstr), Pow10(k1 - v.dp), Pow10(k2 - k1));
    SignedScale(v.sign, Magnitude(v, k1), Pow10(k2 - k1));
  }

  /** For a well-formed value, being zero is exactly denoting zero. */
  lemma ZeroIffNoMagnitude(v: FPValue)
    requires Wf(v)
    ensures IsZero(v) <==> Val(v.vstr) == 0
  {
    ValAllZeros(v.vstr);
    if Val(v.vstr) == 0 {
      assert v.dp == 0;
      assert |v.vstr| == 1;
      assert v.vstr == [v.vstr[0]];
    } else if IsZero(v) {
      ValSingle('0');
    }
  }

  /**
   * Strips the zeros that change nothing: trailing fractional zeros (each one
   * lowers dp), then leading integer zeros, never the last integer digit.
   */
  method RemoveRedundantZeros(vstr: seq<char>, dp: nat) returns (w: seq<char>, e: nat)
    requires IsDigits(vstr) && dp <= |vstr|
    ensures IsDigits(w) && e <= dp && e <= |w| && Trimmed(w, e)
    ensures |w| + (dp - e) <= |vstr|
    ensures vstr == Zeros(|vstr| - |w| - (dp - e)) + w + Zeros(dp - e)
    ensures (|w| - e >= 1) == (|vstr| - dp >= 1)
    ensures Val(w) * Pow10(dp - e) == Val(vstr)
    ensures Trimmed(vstr, dp) ==> w == vstr && e == dp
  {
    var t, e1 := StripTrailingZeros(vstr, dp);
    w := StripLeadingZeros(t, e1);
    e := e1;
    StrippedLayout(vstr, dp, t, e, w);
  }

  /** Drops trailing zeros of the fraction, lowering dp by one for each. */
  method StripTrailingZeros(vstr: seq<char>, dp: nat) returns (w: seq<char>, e: nat)
    requires IsDigits(vstr) && dp <= |vstr|
    ensures IsDigits(w) && e <= dp && e <= |w| && vstr == w + Zeros(dp - e)
    ensures e == 0 || w[|w| - 1] != '0'
    ensures (dp == 0 || vstr[|vstr| - 1] != '0') ==> w == vstr && e == dp
  {
    w, e := vstr, dp;
    while e > 0 && w[|w| - 1] == '0'
      invariant e <= dp && e <= |w| && IsDigits(w)
      invariant vstr == w + Zeros(dp - e)
      invariant (dp == 0 || vstr[|vstr| - 1] != '0') ==> w == vstr && e == dp
    {
      ghost var k := dp - e;
      DropTrailingZero(w, k);
      w := w[..|w| - 1];
      e := e - 1;
      assert dp - e == k + 1;
    }
  }

  /**
   * Drops leading zeros of the integer part, looking at most |t| - e - 1
   * times, so the last integer digit always stays.
   */
  method StripLeadingZeros(t: seq<char>, e: nat) returns (w: seq<char>)
    requires e <= |t|
    ensures |w| <= |t| && w == t[|t| - |w|..] && AllZeros(t[..|t| - |w|])
    ensures e <= |w| && (|w| - e >= 1) == (|t| - e >= 1)
    ensures |w| - e <= 1 || w[0] != '0'
    ensures (|t| - e <= 1 || t[0] != '0') ==> w == t
  {
    w := t;
    var intLen := |t| - e;
    var i := 0;
    while i < intLen - 1
      invariant 0 <= i && (intLen >= 1 ==> i <= intLen - 1) && (intLen < 1 ==> i == 0)
      invariant |w| <= |t| && |t| - |w| <= i && w == t[|t| - |w|..]
      invariant AllZeros(t[..|t| - |w|])
      invariant |t| - |w| < i ==> w[0] != '0'
      invariant (|t| - e <= 1 || t[0] != '0') ==> w == t
    {
      if w[0] == '0' {
        DropLeadingZero(t, w);
        w := w[1..];
      }
      i := i + 1;
    }
  }

  lemma DropTrailingZero(w: seq<char>, n: nat)
    requires |w| > 0 && w[|w| - 1] == '0'
    ensures w + Zeros(n) == w[..|w| - 1] + Zeros(n + 1)
  {
    assert w == w[..|w| - 1] + ['0'];
    assert ['0'] + Zeros(n) == Zeros(n + 1);
  }

  /** The stripped digits sit between the removed leading and trailing zeros. */
  lemma StrippedLayout(vstr: seq<char>, dp: nat, t: seq<char>, e: nat, w: seq<char>)
    requires IsDigits(vstr) && e <= dp && vstr == t + Zeros(dp - e)
    requires |w| <= |t| && w == t[|t| - |w|..] && AllZeros(t[..|t| - |w|])
    ensures IsDigits(w) && |w| + (dp - e) <= |vstr|
    ensures vstr == Zeros(|vstr| - |w| - (dp - e)) + w + Zeros(dp - e)
    ensures Val(w) * Pow10(dp - e) == Val(vstr)
  {
    var k := |t| - |w|;
    assert forall j | 0 <= j < |t| :: t[j] == vstr[j];
    assert t[..k] == Zeros(k);
    assert t == t[..k] + w;
    LeadingZerosVanish(k, w);
    TrailingZerosScale(t, dp - e);
  }

  /**
   * The (sign, digits, dp) constructor: pads leading zeros until the digits
   * cover dp, strips redundant zeros and refuses negative zero.  Its checks
   * (non-zero sign, at least one digit, digits only) are its requires.
   */
  method Make(sign: int, vstr: seq<char>, dp: nat) returns (v: FPValue)
    requires sign != 0 && |vstr| > 0 && IsDigits(vstr)
    ensures IsValue(v) && Trimmed(v.vstr, v.dp) && v.dp <= dp
    ensures Units(v, dp) == Signed(sign, Val(vstr))
    ensures v.sign == if IsZero(v) then 1 else if sign > 0 then 1 else -1
    ensures |v.vstr| == 0 <==> Val(vstr) == 0 && |vstr| <= dp
    ensures (|v.vstr| - v.dp >= 1) == (|vstr| > dp)
    ensures |v.vstr| > 0 ==> Wf(v)
    ensures dp <= |vstr| && Trimmed(vstr, dp) ==> v.vstr == vstr && v.dp == dp
  {
    var s := if sign > 0 then 1 else -1;
    var w := vstr;
    var e: nat := dp;
    while e > |w|
      invariant |vstr| <= |w| <= Max(|vstr|, dp) && w == Zeros(|w| - |vstr|) + vstr
      invariant IsDigits(w)
      invariant dp <= |vstr| ==> w == vstr
      decreases e - |w|
    {
      PadZero(|w| - |vstr|, vstr);
      w := "0" + w;
    }
    ghost var padded := w;
    w, e := StripTrailingZeros(w, e);
    v := Settle(s, w, e);
    PaddedValue(vstr, dp, s, padded, w, e, v);
  }

  lemma PadZero(n: nat, s: seq<char>)
    ensures "0" + (Zeros(n) + s) == Zeros(n + 1) + s
  {
    assert "0" + Zeros(n) == Zeros(n + 1);
  }

  /** Rescaling the stripped value from e back to dp fractional digits. */
  lemma PaddedValue(vstr: seq<char>, dp: nat, s0: int, padded: seq<char>, w: seq<char>, e: nat,
                    v: FPValue)
    requires IsDigits(vstr) && |vstr| > 0
    requires |padded| == Max(|vstr|, dp) && padded == Zeros(|padded| - |vstr|) + vstr
    requires IsDigits(w) && e <= dp && e <= |w| && padded == w + Zeros(dp - e)
    requires IsDigits(v.vstr) && v.dp <= e
    requires Units(v, e) == Signed(s0, Val(w))
    requires |v.vstr| > 0 <==> e < |w| || Val(w) > 0
    ensures Units(v, dp) == Signed(s0, Val(vstr))
    ensures |v.vstr| == 0 <==> Val(vstr) == 0 && |vstr| <= dp
  {
    PaddedDigits(vstr, dp, padded, w, e);
    UnitsRescale(v, e, dp);
    ScaleSigned(Units(v, e), Units(v, dp), s0, Val(w), Val(vstr), Pow10(dp - e));
  }

  /** Padding and trailing zeros scale the digits by 10^(dp-e). */
  lemma PaddedDigits(vstr: seq<char>, dp: nat, padded: seq<char>, w: seq<char>, e: nat)
    requires IsDigits(vstr) && |vstr| > 0
    requires |padded| == Max(|vstr|, dp) && padded == Zeros(|padded| - |vstr|) + vstr
    requires IsDigits(w) && e <= dp && e <= |w| && padded == w + Zeros(dp - e)
    ensures Val(vstr) == Val(w) * Pow10(dp - e)
  {
    LeadingZerosVanish(|padded| - |vstr|, vstr);
    TrailingZerosScale(w, dp - e);
  }

  lemma ScaleSigned(ue: int, udp: int, s0: int, x: int, y: int, p: int)
    requires p >= 1 && x >= 0
    requires udp == ue * p && ue == Signed(s0, x) && y == x * p
    ensures udp == Signed(s0, y)
    ensures y == 0 <==> x == 0
  {
    if s0 < 0 {
      calc {
        udp;
        (-x) * p;
        -(x * p);
      }
    }
    if x > 0 {
      assert x * p >= 1 * p;
    }
  }

  /**
   * The ending both constructors share: RemoveRedundantZeros, then zero
   * written with a minus sign becomes positive zero.
   */
  method Settle(sign: int, vstr: seq<char>, dp: nat) returns (v: FPValue)
    requires (sign == 1 || sign == -1) && IsDigits(vstr) && dp <= |vstr|
    ensures IsValue(v) && Trimmed(v.vstr, v.dp) && v.dp <= dp
    ensures Units(v, dp) == Signed(sign, Val(vstr))
    ensures v.sign == if IsZero(v) then 1 else sign
    ensures |v.vstr| > 0 <==> dp < |vstr| || Val(vstr) > 0
    ensures (|v.vstr| - v.dp >= 1) == (|vstr| - dp >= 1)
    ensures |v.vstr| > 0 ==> Wf(v)
    ensures Trimmed(vstr, dp) ==> v.vstr == vstr && v.dp == dp
  {
    var w, e := RemoveRedundantZeros(vstr, dp);
    var s := sign;
    if w == "0" && e == 0 {
      s := 1;
    }
    v := FPValue(s, w, e);
    StrippedValue(vstr, dp, sign, v);
  }

  /** What RemoveRedundantZeros and the negative-zero rule give, as a value. */
  lemma StrippedValue(vstr: seq<char>, dp: nat, s0: int, v: FPValue)
    requires IsDigits(vstr) && dp <= |vstr| && (s0 == 1 || s0 == -1)
    requires IsDigits(v.vstr) && v.dp <= dp && v.dp <= |v.vstr| && Trimmed(v.vstr, v.dp)
    requires (|v.vstr| - v.dp >= 1) == (|vstr| - dp >= 1)
    requires Val(v.vstr) * Pow10(dp - v.dp) == Val(vstr)
    requires v.sign == if IsZero(v) then 1 else s0
    ensures IsValue(v)
    ensures Units(v, dp) == Signed(s0, Val(vstr))
    ensures |v.vstr| > 0 <==> dp < |vstr| || Val(vstr) > 0
    ensures |v.vstr| > 0 ==> Wf(v)
  {
    assert Magnitude(v, dp) == Val(vstr);
    ValAllZeros(v.vstr);
    if |v.vstr| > 0 && |vstr| - dp < 1 {
      assert Val(v.vstr) > 0;
      PositiveProduct(Val(v.vstr), Pow10(dp - v.dp));
    }
    if IsZero(v) {
      ValSingle('0');
    }
  }

  /** The value with the opposite sign; zero stays positive zero. */
  method Negate(v: FPValue) returns (r: FPValue)
    requires Wf(v)
    ensures Wf(r) && r.vstr == v.vstr && r.dp == v.dp
    ensures r.sign == if IsZero(v) then 1 else -v.sign
  {
    r := Make(if v.sign > 0 then -1 else 1, v.vstr, v.dp);
  }

  // Arithmetic and sequence identities, stated on their own so that the
  // nonlinear arithmetic and the concatenations in the proofs above stay small.

  lemma Rescale(x: int, p: int, q: int)
    ensures x * (p * q) == (x * p) * q
  {
  }

  lemma SignedScale(s: int, x: int, p: int)
    ensures Signed(s, x) * p == Signed(s, x * p)
  {
  }

  lemma PositiveProduct(a: nat, p: nat)
    requires a >= 1 && p >= 1
    ensures a * p >= 1
  {
  }
}
