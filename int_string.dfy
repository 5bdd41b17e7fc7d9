/**
 * The unsigned digit-string engine: non-negative integers written as strings
 * of decimal digits, most significant first.
 */
module IntString {
  import opened Digits
  import opened Outcomes

  /** Strips leading zeros, keeping at least one digit; "" becomes "0". */
  method Normalize(s: seq<char>) returns (r: seq<char>)
    requires IsDigits(s)
    ensures IsNormalized(r) && Val(r) == Val(s)
    ensures s == [] ==> r == "0"
    ensures s != [] ==> |r| <= |s| && r == s[|s| - |r|..] && AllZeros(s[..|s| - |r|])
    ensures IsNormalized(s) ==> r == s
  {
    if |s| == 0 {
      return "0";
    }
    r := s;
    while |r| > 1 && r[0] == '0'
      invariant 0 < |r| <= |s| && r == s[|s| - |r|..]
      invariant AllZeros(s[..|s| - |r|])
      invariant Val(r) == Val(s)
      invariant IsNormalized(s) ==> r == s
    {
      DropLeadingZero(s, r);
      r := r[1..];
    }
  }

  /** Compares two normalized strings: 1, 0 or -1 as a is above, equal to or below b. */
  method Compare(a: seq<char>, b: seq<char>) returns (c: int)
    requires IsNormalized(a) && IsNormalized(b)
    ensures c == Cmp(Val(a), Val(b))
    ensures |a| != |b| ==> c == (if |a| > |b| then 1 else -1)
  {
    if |a| != |b| {
      if |a| > |b| {
        LongerIsLarger(a, b);
        return 1;
      } else {
        LongerIsLarger(b, a);
        return -1;
      }
    }
    var i := 0;
    while i < |a|
      invariant 0 <= i <= |a|
      invariant a[..i] == b[..i]
    {
      var v1 := DigitValue(a[i]);
      var v2 := DigitValue(b[i]);
      if v1 != v2 {
        if v1 > v2 {
          FirstDifferenceDecides(a, b, i);
          return 1;
        } else {
          FirstDifferenceDecides(b, a, i);
          return -1;
        }
      }
      assert a[..i + 1] == a[..i] + [a[i]];
      assert b[..i + 1] == b[..i] + [b[i]];
      i := i + 1;
    }
    assert a == a[..i] && b == b[..i];
    return 0;
  }

  /**
   * Digit-wise subtraction of two equal-length strings, right to left, with a
   * borrow flag.  The result has the operands' length; the final borrow is set
   * exactly when x denotes less than y.
   */
  method SubtractAligned(x: seq<char>, y: seq<char>) returns (r: seq<char>, borrow: bool)
    requires IsDigits(x) && IsDigits(y) && |x| == |y|
    ensures IsDigits(r) && |r| == |x|
    ensures Val(r) == Val(x) - Val(y) + (if borrow then Pow10(|x|) else 0)
    ensures borrow <==> Val(x) < Val(y)
  {
    var n := |x|;
    r := [];
    borrow := false;
    var i := 0;
    while i < n
      invariant 0 <= i <= n && IsDigits(r) && |r| == i
      invariant Val(r) == Val(x[n - i..]) - Val(y[n - i..]) + (if borrow then Pow10(i) else 0)
    {
      var v1: int := DigitValue(x[n - i - 1]);
      var v2: int := DigitValue(y[n - i - 1]);
      ghost var b := if borrow then 1 else 0;
      if borrow {
        v1 := v1 - 1;
      }
      var v3 := v1 - v2;
      borrow := v3 < 0;
      if borrow {
        v3 := v3 + 10;
      }
      ghost var b' := if borrow then 1 else 0;
      assert v3 == DigitValue(x[n - i - 1]) - b - DigitValue(y[n - i - 1]) + 10 * b';
      BorrowStep(x, y, r, i, v3, b, b');
      r := [DigitChar(v3)] + r;
      i := i + 1;
    }
    assert x[0..] == x && y[0..] == y;
    ValBound(r);
    ValBound(x);
    ValBound(y);
  }

  lemma BorrowStep(x: seq<char>, y: seq<char>, r: seq<char>, i: nat, v3: nat, b: int, b': int)
    requires IsDigits(x) && IsDigits(y) && IsDigits(r) && |x| == |y| && i < |x| && |r| == i
    requires v3 < 10
    requires Val(r) == Val(x[|x| - i..]) - Val(y[|x| - i..]) + b * Pow10(i)
    requires v3 == DigitValue(x[|x| - i - 1]) - b - DigitValue(y[|x| - i - 1]) + 10 * b'
    ensures IsDigits([DigitChar(v3)] + r)
    ensures Val([DigitChar(v3)] + r)
         == Val(x[|x| - i - 1..]) - Val(y[|x| - i - 1..]) + b' * Pow10(i + 1)
  {
    var n := |x|;
    ValConcat([DigitChar(v3)], r);
    ValSingle(DigitChar(v3));
    ValSuffixStep(x, n - i - 1);
    ValSuffixStep(y, n - i - 1);
    assert x[n - i - 1 + 1..] == x[n - i..];
    assert y[n - i - 1 + 1..] == y[n - i..];
    BorrowArithmetic(v3, DigitValue(x[n - i - 1]), DigitValue(y[n - i - 1]), b, b', Pow10(i),
      Val(r), Val(x[n - i..]), Val(y[n - i..]));
  }

  lemma BorrowArithmetic(v3: int, d1: int, d2: int, b: int, b': int, p: int, r: int, xs: int, ys: int)
    requires v3 == d1 - b - d2 + 10 * b'
    requires r == xs - ys + b * p
    ensures v3 * p + r == (d1 * p + xs) - (d2 * p + ys) + b' * (10 * p)
  {
    calc {
      v3 * p;
      (d1 - b - d2 + 10 * b') * p;
      d1 * p - d2 * p - b * p + b' * (10 * p);
    }
  }

  /**
   * Saturating subtraction: "0" when the minuend does not exceed the
   * subtrahend, otherwise their normalized difference.
   */
  method Sub(minuend: seq<char>, subtrahend: seq<char>) returns (r: seq<char>)
    requires IsNormalized(minuend) && IsNormalized(subtrahend)
    ensures IsNormalized(r)
    ensures Val(minuend) <= Val(subtrahend) ==> r == "0"
    ensures Val(minuend) > Val(subtrahend) ==> Val(r) == Val(minuend) - Val(subtrahend)
  {
    var c := Compare(minuend, subtrahend);
    if c <= 0 {
      return "0";
    }
    if |minuend| < |subtrahend| {
      LongerIsLarger(subtrahend, minuend);
    }
    var padded := subtrahend;
    var len := |minuend|;
    var lenDiff := len - |subtrahend|;
    for i := 0 to lenDiff
      invariant padded == Zeros(i) + subtrahend
    {
      assert "0" + padded == Zeros(i + 1) + subtrahend;
      padded := "0" + padded;
    }
    LeadingZerosVanish(lenDiff, subtrahend);
    var diff, borrow := SubtractAligned(minuend, padded);
    r := Normalize(diff);
  }

  /**
   * Long division: each dividend digit in turn is appended to the running
   * remainder, and the divisor is subtracted while it fits; the number of
   * subtractions is the next quotient digit.  Fails on a zero divisor.
   */
  method Div(dividend: seq<char>, divisor: seq<char>) returns (r: Result<(seq<char>, seq<char>)>)
    requires IsNormalized(dividend) && IsNormalized(divisor)
    ensures r.Err? <==> divisor == "0"
    ensures r.Err? ==> r.error == ZeroDivision
    ensures r.Ok? ==> IsNormalized(r.value.0) && IsNormalized(r.value.1)
    ensures r.Ok? ==> Val(r.value.0) * Val(divisor) + Val(r.value.1) == Val(dividend)
    ensures r.Ok? ==> Val(r.value.1) < Val(divisor)
  {
    if divisor == "0" {
      return Err(ZeroDivision);
    }
    NormalizedZero(divisor);
    ghost var d := Val(divisor);
    var quotient := "";
    var len := |dividend|;
    var pos := 0;
    var remain := "";
    while pos < len
      invariant 0 <= pos <= len && IsDigits(quotient) && |quotient| == pos
      invariant pos == 0 ==> remain == ""
      invariant pos > 0 ==> IsNormalized(remain)
      invariant IsDigits(remain)
      invariant Val(quotient) * d + Val(remain) == Val(dividend[..pos])
      invariant Val(remain) < d
    {
      ghost var before := Val(remain);
      ghost var prev := remain;
      remain := (if remain != "0" then remain else "") + dividend[pos..pos + 1];
      BringDownDigit(prev, dividend, pos, remain);
      ghost var current := Val(remain);
      var count;
      remain, count := SubtractWhileFits(remain, divisor);
      QuotientDigitBound(count, d, before, DigitValue(dividend[pos]), Val(remain));
      ghost var q := quotient;
      quotient := quotient + [DigitChar(count)];
      QuotientStep(q, count, quotient, dividend, pos, d, before, Val(remain));
      pos := pos + 1;
    }
    assert dividend[..len] == dividend;
    quotient := Normalize(quotient);
    return Ok((quotient, remain));
  }

  /** The inner loop of Div: subtracts the divisor while it still fits, counting. */
  method SubtractWhileFits(remain: seq<char>, divisor: seq<char>) returns (rest: seq<char>, count: nat)
    requires IsNormalized(remain) && IsNormalized(divisor) && Val(divisor) > 0
    ensures IsNormalized(rest) && Val(rest) < Val(divisor)
    ensures Val(rest) + Taken(count, Val(divisor)) == Val(remain)
  {
    rest := remain;
    count := 0;
    var c := Compare(rest, divisor);
    while c >= 0
      invariant IsNormalized(rest)
      invariant Val(rest) + Taken(count, Val(divisor)) == Val(remain)
      invariant c == Cmp(Val(rest), Val(divisor))
      decreases Val(rest)
    {
      rest := Sub(rest, divisor);
      count := count + 1;
      c := Compare(rest, divisor);
    }
  }

  /** What count subtractions of d take away, added up one subtraction at a time. */
  ghost function Taken(count: nat, d: nat): nat {
    if count == 0 then 0 else Taken(count - 1, d) + d
  }

  lemma {:induction false} TakenIsProduct(count: nat, d: nat)
    ensures Taken(count, d) == count * d
  {
    if count > 0 {
      TakenIsProduct(count - 1, d);
      assert (count - 1) * d + d == count * d;
    }
  }

  /** Bringing down the next dividend digit keeps the remainder normalized. */
  lemma BringDownDigit(prev: seq<char>, dividend: seq<char>, pos: nat, remain: seq<char>)
    requires IsDigits(dividend) && pos < |dividend|
    requires prev == "" || IsNormalized(prev)
    requires remain == (if prev != "0" then prev else "") + dividend[pos..pos + 1]
    ensures IsNormalized(remain)
    ensures Val(remain) == Val(prev) * 10 + DigitValue(dividend[pos])
  {
    var kept := if prev != "0" then prev else "";
    assert dividend[pos..pos + 1] == [dividend[pos]];
    KeptRemainder(prev, kept);
    AppendDigit(kept, dividend[pos]);
  }

  /** Dropping a remainder of "0" keeps its value and leaves no leading zero. */
  lemma KeptRemainder(prev: seq<char>, kept: seq<char>)
    requires prev == "" || IsNormalized(prev)
    requires kept == if prev != "0" then prev else ""
    ensures IsDigits(kept) && (kept == [] || kept[0] != '0') && Val(kept) == Val(prev)
  {
    if prev == "0" {
      ValSingle('0');
    }
  }

  lemma AppendDigit(kept: seq<char>, c: char)
    requires IsDigits(kept) && (kept == [] || kept[0] != '0') && IsDigit(c)
    ensures IsNormalized(kept + [c]) && Val(kept + [c]) == Val(kept) * 10 + DigitValue(c)
  {
    ValConcat(kept, [c]);
    ValSingle(c);
  }

  /** Appending the quotient digit keeps quotient * divisor + remainder equal to the consumed prefix. */
  lemma QuotientStep(q: seq<char>, count: nat, q': seq<char>, dividend: seq<char>, pos: nat,
                     d: nat, before: nat, rest: nat)
    requires IsDigits(q) && IsDigits(dividend) && pos < |dividend| && count < 10
    requires q' == q + [DigitChar(count)]
    requires Val(q) * d + before == Val(dividend[..pos])
    requires rest + Taken(count, d) == before * 10 + DigitValue(dividend[pos])
    ensures IsDigits(q') && Val(q') * d + rest == Val(dividend[..pos + 1])
  {
    TakenIsProduct(count, d);
    assert IsDigits(q') && Val(q') == Val(q) * 10 + count by {
      ValConcat(q, [DigitChar(count)]);
      ValSingle(DigitChar(count));
    }
    ValPrefixStep(dividend, pos);
    LongDivisionStep(Val(q), d, before, DigitValue(dividend[pos]), count, rest, Val(dividend[..pos]));
  }

  /** A quotient digit found by repeated subtraction is below ten. */
  lemma QuotientDigitBound(count: int, d: nat, before: nat, digit: nat, rest: nat)
    requires 0 < d && before < d && digit < 10 && 0 <= count
    requires rest + Taken(count, d) == before * 10 + digit
    ensures count < 10
  {
    TakenIsProduct(count, d);
    assert before * 10 + digit <= (d - 1) * 10 + 9;
    assert (count - 10) * d < 0;
  }

  lemma LongDivisionStep(q0: nat, d: nat, before: nat, digit: nat, count: nat, rest: nat, prefix: nat)
    requires q0 * d + before == prefix
    requires rest + count * d == before * 10 + digit
    ensures (q0 * 10 + count) * d + rest == prefix * 10 + digit
  {
  }
}
