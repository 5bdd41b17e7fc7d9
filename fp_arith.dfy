/**
 * Arithmetic on values: aligning two digit strings at the decimal point,
 * comparison, addition and subtraction with their sign dispatch,
 * multiplication by partial products, and the zero check of division.
 */
module FPValueArith {
  import opened Digits
  import opened Outcomes
  import IntString
  import opened FPValueCore
  import opened FPValueText

  // Aligning two digit strings.

  /** s with lead zeros in front and trail zeros behind. */
  function Aligned(s: seq<char>, lead: nat, trail: nat): seq<char> {
    Zeros(lead) + s + Zeros(trail)
  }

  /** Zeros in front change nothing; zeros behind multiply by ten each. */
  lemma AlignedValue(s: seq<char>, lead: nat, trail: nat)
    requires IsDigits(s)
    ensures IsDigits(Aligned(s, lead, trail))
    ensures Val(Aligned(s, lead, trail)) == Val(s) * Pow10(trail)
  {
    LeadingZerosVanish(lead, s);
    TrailingZerosScale(Zeros(lead) + s, trail);
  }

  lemma AppendZero(s: seq<char>, n: nat)
    ensures s + Zeros(n) + "0" == s + Zeros(n + 1)
  {
    assert Zeros(n) + "0" == Zeros(n + 1);
  }

  lemma PrependZero(s: seq<char>, lead: nat, trail: nat)
    ensures "0" + Aligned(s, lead, trail) == Aligned(s, lead + 1, trail)
  {
    assert "0" + Zeros(lead) == Zeros(lead + 1);
  }

  /**
   * Pads the string with fewer fractional digits with zeros at the end until
   * both have the same dp, then the shorter string with zeros in front
   * until both have the same length.
   */
  method AdjustValueStringLengths(s1: seq<char>, d1: nat, s2: seq<char>, d2: nat)
    returns (t1: seq<char>, e1: nat, t2: seq<char>, e2: nat)
    ensures e1 == Max(d1, d2) && e2 == e1
    ensures |t1| == |t2| == Max(|s1| + (e1 - d1), |s2| + (e2 - d2))
    ensures t1 == Aligned(s1, |t1| - |s1| - (e1 - d1), e1 - d1)
    ensures t2 == Aligned(s2, |t2| - |s2| - (e2 - d2), e2 - d2)
  {
    t1, e1 := PadFraction(s1, d1, d2);
    t2, e2 := PadFraction(s2, d2, e1);
    t1 := PadFront(s1, e1 - d1, t1, |t2|);
    t2 := PadFront(s2, e2 - d2, t2, |t1|);
  }

  /** One of the first two loops: zeros at the end while dp is below the other's. */
  method PadFraction(s: seq<char>, d: nat, other: nat) returns (t: seq<char>, e: nat)
    ensures e == Max(d, other) && t == Aligned(s, 0, e - d)
  {
    t, e := s, d;
    while e < other
      invariant d <= e <= Max(d, other)
      invariant t == s + Zeros(e - d)
    {
      AppendZero(s, e - d);
      t := t + "0";
      e := e + 1;
    }
  }

  /** One of the last two loops: zeros in front while the string is shorter than the other. */
  method PadFront(s: seq<char>, trail: nat, t: seq<char>, other: nat) returns (u: seq<char>)
    requires |s| + trail <= |t| && t == Aligned(s, |t| - |s| - trail, trail)
    ensures |u| == Max(|t|, other) && u == Aligned(s, |u| - |s| - trail, trail)
  {
    u := t;
    while |u| < other
      invariant |t| <= |u| <= Max(|t|, other)
      invariant u == Aligned(s, |u| - |s| - trail, trail)
    {
      PrependZero(s, |u| - |s| - trail, trail);
      u := "0" + u;
    }
  }

  // Comparison.

  /** The common scale of two values: the larger dp. */
  function Scale(a: FPValue, b: FPValue): nat {
    Max(a.dp, b.dp)
  }

  /** Compares |a| and |b| digit by digit once both are aligned. */
  method AbsCompare(a: FPValue, b: FPValue) returns (c: int)
    requires IsDigits(a.vstr) && IsDigits(b.vstr)
    ensures c == Cmp(Magnitude(a, Scale(a, b)), Magnitude(b, Scale(a, b)))
  {
    var t1, e1, t2, e2 := AdjustValueStringLengths(a.vstr, a.dp, b.vstr, b.dp);
    AlignedMagnitude(a, Scale(a, b), t1, |t1| - |a.vstr| - (e1 - a.dp));
    AlignedMagnitude(b, Scale(a, b), t2, |t2| - |b.vstr| - (e2 - b.dp));
    c := CompareAligned(t1, t2);
  }

  /** The loop of AbsCompare: the first differing digit decides. */
  method CompareAligned(t1: seq<char>, t2: seq<char>) returns (c: int)
    requires IsDigits(t1) && IsDigits(t2) && |t1| == |t2|
    ensures c == Cmp(Val(t1), Val(t2))
  {
    var i := 0;
    while i < |t1|
      invariant i <= |t1| && t1[..i] == t2[..i]
    {
      var v1 := DigitValue(t1[i]);
      var v2 := DigitValue(t2[i]);
      if v1 != v2 {
        if v1 > v2 {
          FirstDifferenceDecides(t1, t2, i);
          return 1;
        } else {
          FirstDifferenceDecides(t2, t1, i);
          return -1;
        }
      }
      assert t1[..i + 1] == t1[..i] + [t1[i]];
      assert t2[..i + 1] == t2[..i] + [t2[i]];
      i := i + 1;
    }
    assert t1 == t1[..i] && t2 == t2[..i];
    return 0;
  }

  /** An aligned string of v at scale k denotes |v| in units of 10^-k. */
  lemma AlignedMagnitude(v: FPValue, k: nat, t: seq<char>, lead: nat)
    requires IsDigits(v.vstr) && v.dp <= k && t == Aligned(v.vstr, lead, k - v.dp)
    ensures IsDigits(t) && Val(t) == Magnitude(v, k)
  {
    AlignedValue(v.vstr, lead, k - v.dp);
  }

  /** What Compare returns: the sign decides unless both agree, then |a| against |b|. */
  function Order(a: FPValue, b: FPValue): int
    requires IsValue(a) && IsValue(b)
  {
    if a.sign != b.sign then (if a.sign > 0 then 1 else -1)
    else Signed(a.sign, Cmp(Magnitude(a, Scale(a, b)), Magnitude(b, Scale(a, b))))
  }

  /** Compares two values: the positive one is above when the signs differ. */
  method Compare(a: FPValue, b: FPValue) returns (c: int)
    requires IsValue(a) && IsValue(b)
    ensures c == Order(a, b)
    ensures Wf(a) && Wf(b) ==> c == Cmp(Units(a, Scale(a, b)), Units(b, Scale(a, b)))
  {
    if a.sign != b.sign {
      c := if a.sign > 0 then 1 else -1;
    } else {
      var abs := AbsCompare(a, b);
      c := abs * a.sign;
    }
    if Wf(a) && Wf(b) {
      OrderIsNumeric(a, b);
    }
  }

  /** Swapping the operands negates the result. */
  lemma OrderAntisymmetric(a: FPValue, b: FPValue)
    requires IsValue(a) && IsValue(b)
    ensures Order(a, b) == -Order(b, a)
  {
    assert Scale(a, b) == Scale(b, a);
  }

  /** On values without negative zero, Order compares the numbers. */
  lemma OrderIsNumeric(a: FPValue, b: FPValue)
    requires Wf(a) && Wf(b)
    ensures Order(a, b) == Cmp(Units(a, Scale(a, b)), Units(b, Scale(a, b)))
  {
    var k := Scale(a, b);
    if a.sign != b.sign {
      var n := if a.sign < 0 then a else b;
      ZeroIffNoMagnitude(n);
      PositiveProduct(Val(n.vstr), Pow10(k - n.dp));
    }
  }

  // Addition and subtraction.

  /**
   * The carry loop of Add: two equal-length strings summed right to left;
   * a final carry becomes one more digit in front.
   */
  method AddAligned(x: seq<char>, y: seq<char>) returns (r: seq<char>)
    requires IsDigits(x) && IsDigits(y) && |x| == |y|
    ensures IsDigits(r) && |x| <= |r| <= |x| + 1
    ensures Val(r) == Val(x) + Val(y)
    ensures |r| == |x| + 1 <==> Val(x) + Val(y) >= Pow10(|x|)
  {
    var n := |x|;
    r := [];
    var overflow := 0;
    var i := 0;
    while i < n
      invariant 0 <= i <= n && IsDigits(r) && |r| == i && 0 <= overflow <= 1
      invariant Val(r) + (if overflow == 1 then Pow10(i) else 0) == Val(x[n - i..]) + Val(y[n - i..])
    {
      var v1 := DigitValue(x[n - i - 1]);
      var v2 := DigitValue(y[n - i - 1]);
      var v3 := v1 + v2 + overflow;
      ghost var c := overflow;
      overflow := v3 / 10;
      CarryStep(x, y, r, i, v3, c, overflow);
      r := [DigitChar(v3 % 10)] + r;
      i := i + 1;
    }
    SumCarryOut(x, y, r, overflow);
    if overflow > 0 {
      r := [DigitChar(overflow)] + r;
    }
  }

  /** After the last column, a carry of 1 goes in front as one more digit. */
  lemma SumCarryOut(x: seq<char>, y: seq<char>, r: seq<char>, c: int)
    requires IsDigits(x) && IsDigits(y) && IsDigits(r) && |x| == |y| && |r| == |x| && 0 <= c <= 1
    requires Val(r) + (if c == 1 then Pow10(|x|) else 0) == Val(x[|x| - |x|..]) + Val(y[|x| - |x|..])
    ensures c > 0 ==> IsDigits([DigitChar(c)] + r) && Val([DigitChar(c)] + r) == Val(x) + Val(y)
    ensures c == 0 ==> Val(r) == Val(x) + Val(y)
    ensures c > 0 <==> Val(x) + Val(y) >= Pow10(|x|)
  {
    assert x[|x| - |x|..] == x && y[|x| - |x|..] == y;
    ValBound(r);
    if c > 0 {
      FinalCarry(r, c);
    }
  }

  lemma CarryStep(x: seq<char>, y: seq<char>, r: seq<char>, i: nat, v3: nat, c: int, c': int)
    requires IsDigits(x) && IsDigits(y) && IsDigits(r) && |x| == |y| && i < |x| && |r| == i
    requires 0 <= c <= 1
    requires Val(r) + (if c == 1 then Pow10(i) else 0) == Val(x[|x| - i..]) + Val(y[|x| - i..])
    requires v3 == DigitValue(x[|x| - i - 1]) + DigitValue(y[|x| - i - 1]) + c && c' == v3 / 10
    ensures 0 <= c' <= 1 && IsDigits([DigitChar(v3 % 10)] + r)
    ensures Val([DigitChar(v3 % 10)] + r) + (if c' == 1 then Pow10(i + 1) else 0)
         == Val(x[|x| - (i + 1)..]) + Val(y[|x| - (i + 1)..])
  {
    var n := |x|;
    ValConcat([DigitChar(v3 % 10)], r);
    ValSingle(DigitChar(v3 % 10));
    ValSuffixStep(x, n - i - 1);
    ValSuffixStep(y, n - i - 1);
    assert x[n - i - 1 + 1..] == x[n - i..];
    assert y[n - i - 1 + 1..] == y[n - i..];
    CarryArithmetic(v3, DigitValue(x[n - i - 1]), DigitValue(y[n - i - 1]), c, c', Pow10(i),
      Val(r), Val(x[n - i..]), Val(y[n - i..]));
    assert Pow10(i + 1) == 10 * Pow10(i);
  }

  lemma CarryArithmetic(v3: int, d1: int, d2: int, c: int, c': int, p: int, r: int, xs: int, ys: int)
    requires 0 <= d1 < 10 && 0 <= d2 < 10 && 0 <= c <= 1
    requires v3 == d1 + d2 + c && c' == v3 / 10
    requires r + (if c == 1 then p else 0) == xs + ys
    ensures 0 <= c' <= 1
    ensures (v3 % 10) * p + r + (if c' == 1 then 10 * p else 0) == (d1 * p + xs) + (d2 * p + ys)
  {
    var m := v3 % 10;
    assert m == d1 + d2 + c - 10 * c';
    DistributeDigits(m, d1, d2, c, c', p);
  }

  /**
   * The common ending of Add and Sub: strip the redundant zeros of the
   * digit-wise result at scale k and build the value with the given sign.
   * A result that strips to no digits at all is zero (see SubCancelled for
   * what the constructor does with it instead).
   */
  method Finish(sign: int, result: seq<char>, k: nat) returns (r: FPValue)
    requires (sign == 1 || sign == -1) && IsDigits(result) && k <= |result|
    ensures Wf(r) && r.dp <= k
    ensures Units(r, k) == Signed(sign, Val(result))
  {
    var w, e := RemoveRedundantZeros(result, k);
    if |w| == 0 {
      ZeroUnits(Zero(), k);
      return Zero();
    }
    TrimmedDigits(w, e);
    r := Make(sign, w, e);
    FinishValue(sign, result, k, w, e, r);
  }

  /** A trimmed digit string of all-fraction digits ends in a non-zero digit. */
  lemma TrimmedDigits(w: seq<char>, e: nat)
    requires IsDigits(w) && e <= |w| && Trimmed(w, e) && |w| > 0
    ensures |w| > e || Val(w) > 0
  {
    if |w| == e {
      ValAllZeros(w);
    }
  }

  lemma FinishValue(sign: int, result: seq<char>, k: nat, w: seq<char>, e: nat, r: FPValue)
    requires IsDigits(result) && IsDigits(w) && e <= k && Val(w) * Pow10(k - e) == Val(result)
    requires IsDigits(r.vstr) && r.dp == e && Units(r, e) == Signed(sign, Val(w))
    ensures Units(r, k) == Signed(sign, Val(result))
  {
    UnitsRescale(r, e, k);
    SignedScale(sign, Val(w), Pow10(k - e));
  }

  /**
   * a + b.  A zero operand gives the other operand back; opposite signs go
   * to Sub; otherwise the aligned strings are added digit by digit.
   */
  method Add(a: FPValue, b: FPValue) returns (r: FPValue)
    requires Wf(a) && Wf(b)
    ensures Wf(r) && r.dp <= Scale(a, b)
    ensures Units(r, Scale(a, b)) == Units(a, Scale(a, b)) + Units(b, Scale(a, b))
    ensures IsZero(a) ==> r == b
    ensures !IsZero(a) && IsZero(b) ==> r == a
    decreases if a.sign == b.sign then 0 else 1
  {
    if IsZero(a) {
      ZeroUnits(a, Scale(a, b));
      return b;
    } else if IsZero(b) {
      ZeroUnits(b, Scale(a, b));
      return a;
    }
    if a.sign > 0 && b.sign < 0 {
      var nb := Negate(b);
      r := Sub(a, nb);
    } else if a.sign < 0 && b.sign > 0 {
      var na := Negate(a);
      r := Sub(b, na);
    } else {
      r := AddSameSign(a, b);
    }
  }

  /** The aligned path of Add: both operands non-zero with the same sign. */
  method AddSameSign(a: FPValue, b: FPValue) returns (r: FPValue)
    requires Wf(a) && Wf(b) && !IsZero(a) && a.sign == b.sign
    ensures Wf(r) && r.dp <= Scale(a, b)
    ensures Units(r, Scale(a, b)) == Units(a, Scale(a, b)) + Units(b, Scale(a, b))
  {
    var t1, e1, t2, e2 := AdjustValueStringLengths(a.vstr, a.dp, b.vstr, b.dp);
    AlignedMagnitude(a, e1, t1, |t1| - |a.vstr| - (e1 - a.dp));
    AlignedMagnitude(b, e1, t2, |t2| - |b.vstr| - (e2 - b.dp));
    var sum := AddAligned(t1, t2);
    ZeroIffNoMagnitude(a);
    PositiveProduct(Val(a.vstr), Pow10(e1 - a.dp));
    r := Finish(a.sign, sum, e1);
  }

  /**
   * m - s.  A zero minuend gives s negated, a zero subtrahend gives m back;
   * opposite signs go to Add; otherwise the smaller magnitude is subtracted
   * from the larger and the sign follows.
   */
  method Sub(m: FPValue, s: FPValue) returns (r: FPValue)
    requires Wf(m) && Wf(s)
    ensures Wf(r) && r.dp <= Scale(m, s)
    ensures Units(r, Scale(m, s)) == Units(m, Scale(m, s)) - Units(s, Scale(m, s))
    ensures IsZero(m) ==> r.vstr == s.vstr && r.dp == s.dp && r.sign == (if IsZero(s) then 1 else -s.sign)
    ensures !IsZero(m) && IsZero(s) ==> r == m
    ensures m == s ==> r == Zero()
    decreases if m.sign == s.sign then 0 else 1
  {
    if IsZero(m) {
      ZeroUnits(m, Scale(m, s));
      r := Negate(s);
    } else if IsZero(s) {
      ZeroUnits(s, Scale(m, s));
      r := m;
    } else if m.sign != s.sign {
      var ns := Negate(s);
      r := Add(m, ns);
    } else {
      r := SubSameSign(m, s);
    }
    if m == s {
      ZeroUnitsIsZero(r, Scale(m, s));
    }
  }

  /** The aligned path of Sub: both operands non-zero with the same sign. */
  method SubSameSign(m: FPValue, s: FPValue) returns (r: FPValue)
    requires Wf(m) && Wf(s) && !IsZero(m) && !IsZero(s) && m.sign == s.sign
    ensures Wf(r) && r.dp <= Scale(m, s)
    ensures Units(r, Scale(m, s)) == Units(m, Scale(m, s)) - Units(s, Scale(m, s))
  {
    var sign := m.sign;
    var v1, v2 := m, s;
    var c := AbsCompare(v1, v2);
    if c < 0 {
      sign := -sign;
      v1, v2 := s, m;
    }
    r := SubtractSmaller(sign, v1, v2);
    DifferenceSign(m.sign, sign, Magnitude(m, Scale(m, s)), Magnitude(s, Scale(m, s)),
                   Magnitude(v1, Scale(m, s)) - Magnitude(v2, Scale(m, s)), c < 0);
  }

  /** Sub's digit work once v1 is known to be the larger in magnitude. */
  method SubtractSmaller(sign: int, v1: FPValue, v2: FPValue) returns (r: FPValue)
    requires sign == 1 || sign == -1
    requires Wf(v1) && Wf(v2)
    requires Magnitude(v1, Scale(v1, v2)) >= Magnitude(v2, Scale(v1, v2))
    ensures Wf(r) && r.dp <= Scale(v1, v2)
    ensures Units(r, Scale(v1, v2)) == Signed(sign, Magnitude(v1, Scale(v1, v2)) - Magnitude(v2, Scale(v1, v2)))
  {
    var t1, e1, t2, e2 := AdjustValueStringLengths(v1.vstr, v1.dp, v2.vstr, v2.dp);
    AlignedMagnitude(v1, e1, t1, |t1| - |v1.vstr| - (e1 - v1.dp));
    AlignedMagnitude(v2, e1, t2, |t2| - |v2.vstr| - (e2 - v2.dp));
    var diff, underflow := IntString.SubtractAligned(t1, t2);
    r := Finish(sign, diff, e1);
  }

  /**
   * Sub as written, on a value v without an integer digit taken from itself:
   * the same-sign path aligns, subtracts and strips the difference down to
   * an empty digit string, which the (sign, digits, dp) constructor refuses
   * (its non-empty check is Make's requires).
   */
  method SubCancelled(v: FPValue) returns (w: seq<char>, e: nat)
    requires Wf(v) && |v.vstr| == v.dp
    ensures w == [] && e == 0
  {
    var t1, e1, t2, e2 := AdjustValueStringLengths(v.vstr, v.dp, v.vstr, v.dp);
    var diff, underflow := IntString.SubtractAligned(t1, t2);
    w, e := RemoveRedundantZeros(diff, e1);
    CancelledDigits(diff, e1, w, e);
  }

  /** What RemoveRedundantZeros leaves of an all-fraction difference worth nothing. */
  lemma CancelledDigits(diff: seq<char>, k: nat, w: seq<char>, e: nat)
    requires IsDigits(diff) && |diff| == k && Val(diff) == 0
    requires IsDigits(w) && e <= k && e <= |w| && Trimmed(w, e)
    requires (|w| - e >= 1) == (|diff| - k >= 1)
    requires Val(w) * Pow10(k - e) == Val(diff)
    ensures w == [] && e == 0
  {
    if Val(w) > 0 {
      PositiveProduct(Val(w), Pow10(k - e));
    }
    if |w| > 0 {
      TrimmedDigits(w, e);
    }
  }

  lemma DifferenceSign(s0: int, sign: int, mm: int, ms: int, d: int, swapped: bool)
    requires s0 == 1 || s0 == -1
    requires sign == (if swapped then -s0 else s0)
    requires d == (if swapped then ms - mm else mm - ms)
    ensures Signed(sign, d) == Signed(s0, mm) - Signed(s0, ms)
  {
  }

  /** A zero value is worth nothing at any scale. */
  lemma ZeroUnits(v: FPValue, k: nat)
    requires IsZero(v) && v.dp <= k
    ensures IsDigits(v.vstr) && Units(v, k) == 0
  {
    ValSingle('0');
  }

  /** A well-formed value worth nothing is the positive zero. */
  lemma ZeroUnitsIsZero(v: FPValue, k: nat)
    requires Wf(v) && v.dp <= k && Units(v, k) == 0
    ensures v == Zero()
  {
    if Val(v.vstr) != 0 {
      PositiveProduct(Val(v.vstr), Pow10(k - v.dp));
    }
    ZeroIffNoMagnitude(v);
  }

  // Multiplication.

  /** Row k of the long multiplication of x by y: x times the k-th digit of y from the right, shifted by k places. */
  ghost function RowValue(x: seq<char>, y: seq<char>, k: nat): nat
    requires IsDigits(x) && IsDigits(y) && k < |y|
  {
    Val(x) * DigitValue(y[|y| - k - 1]) * Pow10(k)
  }

  /**
   * One partial product: shift zeros first, then the digits of x times d
   * right to left with a carry, and a final carry digit in front.
   */
  method PartialProduct(x: seq<char>, d: nat, shift: nat) returns (row: seq<char>)
    requires IsDigits(x) && d < 10
    ensures IsDigits(row) && |row| >= |x| + shift
    ensures Val(row) == Val(x) * d * Pow10(shift)
  {
    row := [];
    for j := 0 to shift
      invariant row == Zeros(j)
    {
      assert Zeros(j) + "0" == Zeros(j + 1);
      row := row + "0";
    }
    row := PrependDigitProduct(x, d, row);
    ShiftedRow(row[..|row| - shift], row, shift, Val(x) * d);
  }

  /**
   * The inner loop of a partial product: the digits of x times d, right to
   * left with a carry, each put in front of the row; a last carry goes in
   * front too.  What ends up in front of tail is worth Val(x) * d.
   */
  method PrependDigitProduct(x: seq<char>, d: nat, tail: seq<char>) returns (row: seq<char>)
    requires IsDigits(x) && d < 10
    ensures |row| >= |x| + |tail| && row[|row| - |tail|..] == tail
    ensures IsDigits(row[..|row| - |tail|]) && Val(row[..|row| - |tail|]) == Val(x) * d
  {
    row := tail;
    var n := |x|;
    ghost var r := [];
    var overflow := 0;
    for j := 0 to n
      invariant IsDigits(r) && |r| == j && row == r + tail && 0 <= overflow <= 8
      invariant Val(r) + overflow * Pow10(j) == Val(x[n - j..]) * d
    {
      var v1 := DigitValue(x[n - j - 1]);
      var v3 := v1 * d + overflow;
      ghost var c := overflow;
      overflow := v3 / 10;
      v3 := v3 - overflow * 10;
      MultStep(x, r, j, d, c, overflow, v3);
      PrependOne(DigitChar(v3), r, tail);
      r := [DigitChar(v3)] + r;
      row := [DigitChar(v3)] + row;
    }
    CarryOut(x, r, overflow, d);
    if overflow > 0 {
      PrependOne(DigitChar(overflow), r, tail);
      r := [DigitChar(overflow)] + r;
      row := [DigitChar(overflow)] + row;
    }
    SplitRow(row, r, tail);
  }

  lemma ShiftedRow(r: seq<char>, row: seq<char>, shift: nat, prod: int)
    requires IsDigits(r) && row == r + Zeros(shift) && Val(r) == prod
    ensures IsDigits(row) && Val(row) == prod * Pow10(shift)
  {
    TrailingZerosScale(r, shift);
  }

  /** After the last digit, the carry (if any) goes in front of the row. */
  lemma CarryOut(x: seq<char>, r: seq<char>, c: int, d: nat)
    requires IsDigits(x) && IsDigits(r) && |r| == |x| && 0 <= c <= 8
    requires Val(r) + c * Pow10(|x|) == Val(x[|x| - |x|..]) * d
    ensures c > 0 ==> IsDigits([DigitChar(c)] + r) && Val([DigitChar(c)] + r) == Val(x) * d
    ensures c == 0 ==> Val(r) == Val(x) * d
  {
    assert x[|x| - |x|..] == x;
    if c > 0 {
      FinalCarry(r, c);
    } else {
      assert c * Pow10(|x|) == 0;
    }
  }

  /** A final carry c in front of r is worth c * 10^|r|. */
  lemma FinalCarry(r: seq<char>, c: nat)
    requires IsDigits(r) && c < 10
    ensures IsDigits([DigitChar(c)] + r) && Val([DigitChar(c)] + r) == Val(r) + c * Pow10(|r|)
  {
    ValConcat([DigitChar(c)], r);
    ValSingle(DigitChar(c));
  }

  /** One step of the inner loop keeps the row's value plus the carry in place. */
  lemma MultStep(x: seq<char>, r: seq<char>, j: nat, d: nat, c: int, c': int, e: int)
    requires IsDigits(x) && IsDigits(r) && j < |x| && |r| == j && d < 10 && 0 <= c <= 8
    requires Val(r) + c * Pow10(j) == Val(x[|x| - j..]) * d
    requires c' == (DigitValue(x[|x| - j - 1]) * d + c) / 10
    requires e == DigitValue(x[|x| - j - 1]) * d + c - c' * 10
    ensures 0 <= c' <= 8 && 0 <= e < 10
    ensures IsDigits([DigitChar(e)] + r)
    ensures Val([DigitChar(e)] + r) + c' * Pow10(j + 1) == Val(x[|x| - (j + 1)..]) * d
  {
    var n := |x|;
    var d1 := DigitValue(x[n - j - 1]);
    var v3 := d1 * d + c;
    DigitCarry(v3, d1, d, c, c');
    ValConcat([DigitChar(e)], r);
    ValSingle(DigitChar(e));
    ValSuffixStep(x, n - j - 1);
    assert x[n - j - 1 + 1..] == x[n - j..];
    MultArithmetic(v3, d1, d, c, c', Pow10(j), Val(r), Val(x[n - j..]));
  }

  /** A digit times a digit plus a carry up to 8 leaves a digit and a carry up to 8. */
  lemma DigitCarry(v3: int, d1: int, d: int, c: int, c': int)
    requires 0 <= d1 < 10 && 0 <= d < 10 && 0 <= c <= 8
    requires v3 == d1 * d + c && c' == v3 / 10
    ensures 0 <= v3 <= 89 && 0 <= c' <= 8 && 0 <= v3 - c' * 10 < 10
  {
    assert 0 <= d1 * d <= 9 * d <= 81;
  }

  lemma MultArithmetic(v3: int, d1: int, d: int, c: int, c': int, p: int, r: int, xs: int)
    requires v3 >= 0 && v3 == d1 * d + c && c' == v3 / 10
    requires r + c * p == xs * d
    ensures (v3 - c' * 10) * p + r + c' * (10 * p) == (d1 * p + xs) * d
  {
    calc {
      (v3 - c' * 10) * p + c' * (10 * p);
      v3 * p;
      (d1 * d + c) * p;
      d1 * p * d + c * p;
    }
  }

  /** The outer loop of Mult: one partial product per digit of y, least significant first. */
  method PartialProducts(x: seq<char>, y: seq<char>) returns (rows: seq<seq<char>>)
    requires IsDigits(x) && IsDigits(y) && |x| > 0
    ensures |rows| == |y|
    ensures forall k | 0 <= k < |y| :: IsDigits(rows[k]) && |rows[k]| > 0 && Val(rows[k]) == RowValue(x, y, k)
  {
    rows := [];
    var len2 := |y|;
    for i := 0 to len2
      invariant |rows| == i
      invariant forall k | 0 <= k < i :: IsDigits(rows[k]) && |rows[k]| > 0 && Val(rows[k]) == RowValue(x, y, k)
    {
      var row := PartialProduct(x, DigitValue(y[len2 - i - 1]), i);
      rows := rows + [row];
    }
  }

  /** A string of digits reads as a positive integer with no fraction. */
  lemma DigitTextReads(t: seq<char>)
    requires IsDigits(t)
    ensures AllAllowed(t) && ParsedSign(t) == 1
    ensures DigitsOf(t) == t && FracCount(t) == 0
  {
    DigitsOfDigits(t);
    FirstDotAt(t, |t|);
  }

  /**
   * The summing loop of Mult: each row, read back by the text constructor,
   * is added to a running total that starts at zero.
   */
  method SumRows(x: seq<char>, y: seq<char>, rows: seq<seq<char>>) returns (acc: FPValue)
    requires IsDigits(x) && IsDigits(y) && |rows| == |y|
    requires forall k | 0 <= k < |y| :: IsDigits(rows[k]) && |rows[k]| > 0 && Val(rows[k]) == RowValue(x, y, k)
    ensures Wf(acc) && acc.dp == 0 && acc.sign == 1
    ensures Val(acc.vstr) == Val(x) * Val(y)
  {
    acc := Zero();
    ValSingle('0');
    var len2 := |y|;
    for i := 0 to len2
      invariant Wf(acc) && acc.dp == 0 && acc.sign == 1
      invariant Val(acc.vstr) == Val(x) * Val(y[len2 - i..])
    {
      DigitTextReads(rows[i]);
      var p := Parse(rows[i]);
      var row := p.value;
      ghost var before := acc;
      acc := Add(acc, row);
      NonNegativeIsPositive(acc);
      AccumulateRow(x, y, i, before, row, acc);
    }
    assert y[0..] == y;
  }

  /** Adding row i to the running sum of the rows below it gives the sum through row i. */
  lemma AccumulateRow(x: seq<char>, y: seq<char>, i: nat, acc: FPValue, row: FPValue, next: FPValue)
    requires IsDigits(x) && IsDigits(y) && i < |y|
    requires IsDigits(acc.vstr) && acc.dp == 0 && acc.sign == 1
    requires Val(acc.vstr) == Val(x) * Val(y[|y| - i..])
    requires IsDigits(row.vstr) && row.dp == 0 && Units(row, 0) == Signed(1, RowValue(x, y, i))
    requires IsDigits(next.vstr) && next.dp == 0 && next.sign == 1
    requires Units(next, 0) == Units(acc, 0) + Units(row, 0)
    ensures Val(next.vstr) == Val(x) * Val(y[|y| - (i + 1)..])
  {
    ScaleNone(Val(acc.vstr), Pow10(0));
    ScaleNone(Val(next.vstr), Pow10(0));
    SumStep(x, y, i);
  }

  /** Adding row i extends the product by one more digit of y. */
  lemma SumStep(x: seq<char>, y: seq<char>, i: nat)
    requires IsDigits(x) && IsDigits(y) && i < |y|
    ensures Val(x) * Val(y[|y| - i..]) + RowValue(x, y, i) == Val(x) * Val(y[|y| - i - 1..])
  {
    ValSuffixStep(y, |y| - i - 1);
    assert y[|y| - i - 1 + 1..] == y[|y| - i..];
    Distribute(Val(x), DigitValue(y[|y| - i - 1]), Pow10(i), Val(y[|y| - i..]));
  }

  /** A well-formed value at scale 0 that is not below zero has sign 1. */
  lemma NonNegativeIsPositive(v: FPValue)
    requires Wf(v) && v.dp == 0 && Units(v, 0) >= 0
    ensures v.sign == 1
  {
    ZeroIffNoMagnitude(v);
  }

  /**
   * a * b.  A zero factor gives zero; otherwise the partial products of the
   * digit strings are summed and the result takes the product of the signs
   * and the sum of the scales.
   */
  method Mult(a: FPValue, b: FPValue) returns (r: FPValue)
    requires Wf(a) && Wf(b)
    ensures Wf(r) && r.dp <= a.dp + b.dp
    ensures Units(r, a.dp + b.dp) == Units(a, a.dp) * Units(b, b.dp)
    ensures IsZero(a) || IsZero(b) ==> r == Zero()
  {
    if IsZero(a) || IsZero(b) {
      ZeroFactor(a, b);
      return Zero();
    }
    var sign := a.sign * b.sign;
    var rows := PartialProducts(a.vstr, b.vstr);
    var total := SumRows(a.vstr, b.vstr, rows);
    ZeroIffNoMagnitude(a);
    ZeroIffNoMagnitude(b);
    PositiveProduct(Val(a.vstr), Val(b.vstr));
    r := Make(sign, total.vstr, a.dp + b.dp);
    ProductSign(a.sign, b.sign, Val(a.vstr), Val(b.vstr));
  }

  /** With a zero factor, the product is worth nothing. */
  lemma ZeroFactor(a: FPValue, b: FPValue)
    requires Wf(a) && Wf(b) && (IsZero(a) || IsZero(b))
    ensures Units(Zero(), a.dp + b.dp) == Units(a, a.dp) * Units(b, b.dp)
  {
    ValSingle('0');
  }

  lemma ProductSign(s1: int, s2: int, x: int, y: int)
    requires (s1 == 1 || s1 == -1) && (s2 == 1 || s2 == -1)
    ensures Signed(s1 * s2, x * y) == Signed(s1, x * 1) * Signed(s2, y * 1)
  {
  }

  // Division.

  /**
   * Division stops after the divisor check and the long division of the
   * aligned digit strings: a zero divisor, or one whose digits are all
   * zero, is a zero division, and every other division is not implemented.
   * decimalPlace is not used before that point.
   */
  method Div(dividend: FPValue, divisor: FPValue, decimalPlace: int) returns (r: Result<(FPValue, FPValue)>)
    requires IsValue(dividend) && IsValue(divisor)
    ensures r.Err?
    ensures r.error == if Val(divisor.vstr) == 0 then ZeroDivision else NotImplemented
  {
    if IsZero(divisor) {
      ValSingle('0');
      return Err(ZeroDivision);
    }
    var remain, remainDp, dor, dorDp := AdjustValueStringLengths(dividend.vstr, dividend.dp, divisor.vstr, divisor.dp);
    AlignedMagnitude(dividend, remainDp, remain, |remain| - |dividend.vstr| - (remainDp - dividend.dp));
    AlignedMagnitude(divisor, remainDp, dor, |dor| - |divisor.vstr| - (dorDp - divisor.dp));
    remain := IntString.Normalize(remain);
    dor := IntString.Normalize(dor);
    NormalizedZero(dor);
    if Val(divisor.vstr) != 0 {
      PositiveProduct(Val(divisor.vstr), Pow10(remainDp - divisor.dp));
    }
    var q := IntString.Div(remain, dor);
    if q.Err? {
      return Err(ZeroDivision);
    }
    return Err(NotImplemented);
  }

  // Arithmetic and sequence identities, stated on their own so that the
  // nonlinear arithmetic and the concatenations in the proofs above stay small.

  lemma DistributeDigits(m: int, d1: int, d2: int, c: int, c': int, p: int)
    requires m == d1 + d2 + c - 10 * c'
    ensures m * p == d1 * p + d2 * p + c * p - c' * (10 * p)
  {
  }

  lemma SplitRow(row: seq<char>, r: seq<char>, tail: seq<char>)
    requires row == r + tail
    ensures row[..|row| - |tail|] == r && row[|row| - |tail|..] == tail
  {
  }

  lemma PrependOne(ch: char, r: seq<char>, tail: seq<char>)
    ensures [ch] + (r + tail) == ([ch] + r) + tail
  {
  }

  lemma Distribute(x: int, d: int, p: int, rest: int)
    ensures x * rest + x * d * p == x * (d * p + rest)
  {
  }
}
