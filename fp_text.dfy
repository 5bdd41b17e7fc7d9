/**
 * The text form of a value: the text constructor, which reads an optional
 * sign at index 0, digits and at most one '.', and to_s, which writes one.
 */
module FPValueText {
  import opened Digits
  import opened Outcomes
  import opened FPValueCore

  predicate IsSign(c: char) {
    c == '+' || c == '-'
  }

  /** Index of the first '.' at or after i, or |t| when there is none. */
  function DotFrom(t: string, i: nat): (k: nat)
    requires i <= |t|
    ensures i <= k <= |t|
    ensures forall j | i <= j < k :: t[j] != '.'
    ensures k < |t| ==> t[k] == '.'
    decreases |t| - i
  {
    if i == |t| then |t| else if t[i] == '.' then i else DotFrom(t, i + 1)
  }

  /** Index of the first '.', or |t| when there is none. */
  function FirstDot(t: string): (k: nat)
    ensures k <= |t|
    ensures forall j | 0 <= j < k :: t[j] != '.'
    ensures k < |t| ==> t[k] == '.'
  {
    DotFrom(t, 0)
  }

  /** Character i is acceptable: a digit, a leading sign, or the first '.'. */
  predicate Allowed(t: string, i: nat)
    requires i < |t|
  {
    IsDigit(t[i]) || (i == 0 && IsSign(t[i])) || (t[i] == '.' && i == FirstDot(t))
  }

  predicate AllAllowed(t: string) {
    forall i | 0 <= i < |t| :: Allowed(t, i)
  }

  /** The complaint about a character that is not allowed. */
  function FailureAt(t: string, i: nat): ParseFailure
    requires i < |t|
  {
    if t[i] == '.' then RedundantDot else UnknownCharacter(FirstDot(t) < i)
  }

  /** The digits among t[lo..hi], in order, with everything else dropped. */
  function DigitsIn(t: string, lo: nat, hi: nat): (d: seq<char>)
    requires lo <= hi <= |t|
    ensures IsDigits(d) && |d| <= hi - lo
    decreases hi - lo
  {
    if hi == lo then [] else DigitsIn(t, lo, hi - 1) + (if IsDigit(t[hi - 1]) then [t[hi - 1]] else [])
  }

  /** The digits of t, in order. */
  function DigitsOf(t: string): seq<char> {
    DigitsIn(t, 0, |t|)
  }

  /** Number of digits after the first '.'. */
  function FracCount(t: string): nat {
    |DigitsIn(t, FirstDot(t), |t|)|
  }

  function ParsedSign(t: string): int {
    if |t| > 0 && t[0] == '-' then -1 else 1
  }

  /**
   * The text constructor.  A sign is accepted only at index 0; each digit
   * after the '.' adds one to dp; a second '.' or any other character is an
   * error at its index.  Redundant zeros are stripped and "-0" becomes zero.
   * Text without digits ("", "+", ".") yields an empty digit string.
   */
  method Parse(text: string) returns (r: Result<FPValue>)
    ensures r.Ok? <==> AllAllowed(text)
    ensures r.Err? ==> && r.error.Malformed? && r.error.index < |text|
                       && !Allowed(text, r.error.index)
                       && (forall j | 0 <= j < r.error.index :: Allowed(text, j))
                       && r.error.failure == FailureAt(text, r.error.index)
    ensures r.Ok? ==> IsValue(r.value) && Trimmed(r.value.vstr, r.value.dp)
    ensures r.Ok? ==> r.value.dp <= FracCount(text)
    ensures r.Ok? ==> Units(r.value, FracCount(text)) == Signed(ParsedSign(text), Val(DigitsOf(text)))
    ensures r.Ok? ==> r.value.sign == if IsZero(r.value) then 1 else ParsedSign(text)
    ensures r.Ok? ==> (|r.value.vstr| > 0 <==> FracCount(text) < |DigitsOf(text)| || Val(DigitsOf(text)) > 0)
    ensures r.Ok? ==> ((|r.value.vstr| - r.value.dp >= 1) == (FracCount(text) < |DigitsOf(text)|))
    ensures r.Ok? && |r.value.vstr| > 0 ==> Wf(r.value)
    ensures r.Ok? && Trimmed(DigitsOf(text), FracCount(text))
            ==> r.value.vstr == DigitsOf(text) && r.value.dp == FracCount(text)
  {
    var sign := 1;
    var vstr := "";
    var dp := 0;
    var hasDot := false;
    var i := 0;
    while i < |text|
      invariant 0 <= i <= |text|
      invariant forall j | 0 <= j < i :: Allowed(text, j)
      invariant hasDot <==> FirstDot(text) < i
      invariant vstr == DigitsIn(text, 0, i)
      invariant dp == if hasDot then |DigitsIn(text, FirstDot(text), i)| else 0
      invariant dp <= |vstr|
      invariant sign == if i > 0 && text[0] == '-' then -1 else 1
    {
      var c := text[i];
      if i == 0 && (c == '+' || c == '-') {
        sign := if c == '+' then 1 else -1;
      } else if hasDot {
        if c == '.' {
          assert !Allowed(text, i);
          return Err(Malformed(RedundantDot, i));
        } else if IsDigit(c) {
          vstr := vstr + [c];
          dp := dp + 1;
        } else {
          assert !Allowed(text, i);
          return Err(Malformed(UnknownCharacter(true), i));
        }
      } else {
        if c == '.' {
          hasDot := true;
        } else if IsDigit(c) {
          vstr := vstr + [c];
        } else {
          assert !Allowed(text, i);
          return Err(Malformed(UnknownCharacter(false), i));
        }
      }
      i := i + 1;
    }
    var v := Settle(sign, vstr, dp);
    r := Ok(v);
  }

  function IntegerDigits(v: FPValue): seq<char>
    requires v.dp <= |v.vstr|
  {
    v.vstr[..|v.vstr| - v.dp]
  }

  function FractionDigits(v: FPValue): seq<char>
    requires v.dp <= |v.vstr|
  {
    v.vstr[|v.vstr| - v.dp..]
  }

  /** to_s shows the fraction only when one of its digits is not zero. */
  predicate ShowsFraction(v: FPValue)
    requires v.dp <= |v.vstr|
  {
    !AllZeros(FractionDigits(v))
  }

  /** "-" for a negative value, nothing otherwise. */
  function SignText(v: FPValue): string {
    if v.sign < 0 then "-" else ""
  }

  /** The digits before the '.': the integer digits, or "0" before a bare '.'. */
  function HeadDigits(v: FPValue): string
    requires v.dp <= |v.vstr|
  {
    (if ShowsFraction(v) && |IntegerDigits(v)| == 0 then "0" else "") + IntegerDigits(v)
  }

  /** The text up to the '.'. */
  function TextHead(v: FPValue): string
    requires v.dp <= |v.vstr|
  {
    SignText(v) + HeadDigits(v)
  }

  /** The text from the '.' on, empty when the fraction is not shown. */
  function TextTail(v: FPValue): string
    requires v.dp <= |v.vstr|
  {
    if ShowsFraction(v) then "." + FractionDigits(v) else ""
  }

  /**
   * The text form: "-" for negative values, the integer digits, and '.'
   * with the fractional digits unless those are all zero; "0" goes before a
   * leading '.'.
   */
  function Text(v: FPValue): string
    requires IsValue(v)
  {
    TextHead(v) + TextTail(v)
  }

  /** to_s: edits a copy of the digit string into the text form. */
  method ToS(v: FPValue) returns (s: string)
    requires IsValue(v)
    ensures s == Text(v)
  {
    var ret := v.vstr;
    var hasDecimalPoint := v.dp > 0;
    if hasDecimalPoint {
      hasDecimalPoint := false;
      var i := |ret| - v.dp;
      while i < |ret|
        invariant |ret| - v.dp <= i <= |ret|
        invariant forall j | |ret| - v.dp <= j < i :: ret[j] == '0'
      {
        if ret[i] != '0' {
          assert FractionDigits(v)[i - (|ret| - v.dp)] != '0';
          hasDecimalPoint := true;
          break;
        }
        i := i + 1;
      }
    }
    assert hasDecimalPoint == ShowsFraction(v) by {
      assert forall k | 0 <= k < v.dp :: FractionDigits(v)[k] == ret[|ret| - v.dp + k];
    }
    s := EditText(v, hasDecimalPoint);
  }

  /**
   * The edits of to_s once the scan is done: the '.' goes in or the zero
   * fraction is cut off, "0" goes before a leading '.', "-" in front.
   */
  method EditText(v: FPValue, hasDecimalPoint: bool) returns (s: string)
    requires IsValue(v) && hasDecimalPoint == ShowsFraction(v)
    ensures s == Text(v)
  {
    var ret := v.vstr;
    if hasDecimalPoint {
      ret := ret[..|ret| - v.dp] + "." + ret[|ret| - v.dp..];
    } else if v.dp > 0 {
      ret := ret[..|ret| - v.dp];
    }
    assert ret == IntegerDigits(v) + TextTail(v);
    s := EditFront(v.sign < 0, ret, IntegerDigits(v), TextTail(v));
    assert HeadDigits(v) == (if |TextTail(v)| > 0 && |IntegerDigits(v)| == 0 then "0" else "") + IntegerDigits(v);
  }

  /**
   * The front edits of to_s on ret, the integer digits i followed by the
   * tail: "0" goes before a '.' that would come first, then the sign.
   */
  method EditFront(negative: bool, ret: string, ghost i: string, ghost tail: string) returns (s: string)
    requires IsDigits(i) && ret == i + tail && (tail == [] || tail[0] == '.')
    ensures s == ((if negative then "-" else "") + ((if |tail| > 0 && |i| == 0 then "0" else "") + i)) + tail
  {
    s := ret;
    if |s| > 0 && s[0] == '.' {
      s := "0" + s;
    } else if |i| > 0 {
      assert IsDigit(s[0]);
    }
    ghost var head := (if |tail| > 0 && |i| == 0 then "0" else "") + i;
    assert s == head + tail;
    if negative {
      s := "-" + s;
    }
    Regroup(if negative then "-" else "", head, tail);
  }

  // What the text form denotes.

  lemma {:induction false} DigitsInSplit(t: string, lo: nat, mid: nat, hi: nat)
    requires lo <= mid <= hi <= |t|
    ensures DigitsIn(t, lo, hi) == DigitsIn(t, lo, mid) + DigitsIn(t, mid, hi)
    decreases hi
  {
    if hi > mid {
      DigitsInSplit(t, lo, mid, hi - 1);
    } else {
      assert DigitsIn(t, mid, hi) == [];
    }
  }

  lemma {:induction false} DigitsInShift(t: string, a: nat, b: nat, lo: nat, hi: nat)
    requires a <= b <= |t| && lo <= hi <= b - a
    ensures DigitsIn(t[a..b], lo, hi) == DigitsIn(t, a + lo, a + hi)
    decreases hi
  {
    if hi > lo {
      DigitsInShift(t, a, b, lo, hi - 1);
      var u, c := t[a..b], t[a + hi - 1];
      assert u[hi - 1] == c;
      var e := if IsDigit(c) then [c] else [];
      assert DigitsIn(u, lo, hi) == DigitsIn(u, lo, hi - 1) + e;
      assert DigitsIn(t, a + lo, a + hi) == DigitsIn(t, a + lo, a + hi - 1) + e;
    }
  }

  /** The digits of a concatenation are the digits of its parts. */
  lemma DigitsOfConcat(s: string, u: string)
    ensures DigitsOf(s + u) == DigitsOf(s) + DigitsOf(u)
  {
    var t := s + u;
    DigitsInSplit(t, 0, |s|, |t|);
    assert t[0..|s|] == s;
    assert t[|s|..|t|] == u;
    DigitsInShift(t, 0, |s|, 0, |s|);
    DigitsInShift(t, |s|, |t|, 0, |u|);
  }

  lemma {:induction false} DigitsInPrefix(s: string, k: nat)
    requires IsDigits(s) && k <= |s|
    ensures DigitsIn(s, 0, k) == s[..k]
  {
    if k > 0 {
      DigitsInPrefix(s, k - 1);
      assert s[..k] == s[..k - 1] + [s[k - 1]];
    }
  }

  lemma DigitsOfDigits(s: string)
    requires IsDigits(s)
    ensures DigitsOf(s) == s
  {
    DigitsInPrefix(s, |s|);
    assert s[..|s|] == s;
  }

  /** The first '.' is the index before which there is none and at which there is one, if any. */
  lemma FirstDotAt(t: string, k: nat)
    requires k <= |t| && (forall j | 0 <= j < k :: t[j] != '.') && (k < |t| ==> t[k] == '.')
    ensures FirstDot(t) == k
  {
  }

  /** A sign text followed by digits: only digits and a leading '-'. */
  lemma SignedDigits(sg: string, d: string)
    requires (sg == "" || sg == "-") && IsDigits(d)
    ensures forall j | 0 <= j < |sg + d| :: IsDigit((sg + d)[j]) || (j == 0 && (sg + d)[j] == '-')
    ensures DigitsOf(sg + d) == d
  {
    DigitsOfConcat(sg, d);
    DigitsOfDigits(d);
    assert DigitsOf(sg) == [];
  }

  lemma TextHeadDigits(v: FPValue)
    requires IsValue(v)
    ensures forall j | 0 <= j < |TextHead(v)| :: IsDigit(TextHead(v)[j]) || (j == 0 && TextHead(v)[j] == '-')
    ensures DigitsOf(TextHead(v)) == HeadDigits(v)
  {
    SignedDigits(SignText(v), HeadDigits(v));
  }

  /** The text starts with '-' exactly for a negative value, and never with '.'. */
  lemma TextFront(v: FPValue)
    requires IsValue(v)
    ensures v.sign < 0 <==> |Text(v)| > 0 && Text(v)[0] == '-'
    ensures |Text(v)| > 0 ==> Text(v)[0] != '.'
  {
    var h, t := TextHead(v), TextTail(v);
    if v.sign < 0 {
      assert h == "-" + HeadDigits(v);
    } else {
      assert h == HeadDigits(v);
    }
    if |h| > 0 {
      assert Text(v)[0] == h[0];
    } else {
      assert t == [];
    }
  }

  /** The sign read back from a sign text, digits and a tail that starts at a '.'. */
  lemma SignReadBack(sg: string, d: string, t: string)
    requires (sg == "" || sg == "-") && IsDigits(d) && (|t| > 0 ==> t[0] == '.')
    ensures ParsedSign(sg + d + t) == if sg == "-" then -1 else 1
  {
    var text := sg + d + t;
    if sg == "-" {
      assert text[0] == '-';
    } else if |d| > 0 {
      assert text[0] == d[0];
    } else if |t| > 0 {
      assert text[0] == t[0];
    }
  }

  lemma TextTailDigits(v: FPValue)
    requires IsValue(v)
    ensures DigitsOf(TextTail(v)) == if ShowsFraction(v) then FractionDigits(v) else []
  {
    if ShowsFraction(v) {
      DigitsOfConcat(".", FractionDigits(v));
      DigitsOfDigits(FractionDigits(v));
      assert DigitsOf(".") == [];
    }
  }

  /** A text made of a head without '.' and a tail that starts at a '.'. */
  lemma DotSplit(h: string, t: string)
    requires forall j | 0 <= j < |h| :: h[j] != '.'
    requires |t| > 0 ==> t[0] == '.'
    ensures FirstDot(h + t) == |h|
    ensures FracCount(h + t) == |DigitsOf(t)|
  {
    var ht := h + t;
    FirstDotAt(ht, |h|);
    assert ht[|h|..|ht|] == t;
    DigitsInShift(ht, |h|, |ht|, 0, |t|);
  }

  /** The only '.' of the text, if any, ends its head. */
  lemma TextDot(v: FPValue)
    requires IsValue(v)
    ensures FirstDot(Text(v)) == |TextHead(v)|
    ensures FracCount(Text(v)) == |DigitsOf(TextTail(v))|
  {
    TextHeadDigits(v);
    DotSplit(TextHead(v), TextTail(v));
  }

  /** Every character of the text is acceptable to the text constructor. */
  lemma TextAllowed(v: FPValue)
    requires IsValue(v)
    ensures AllAllowed(Text(v))
  {
    TextHeadDigits(v);
    TextDot(v);
    var h := TextHead(v);
    var t := TextTail(v);
    TailAllowed(h, t, FractionDigits(v));
  }

  lemma TailAllowed(h: string, t: string, f: string)
    requires forall j | 0 <= j < |h| :: IsDigit(h[j]) || (j == 0 && h[j] == '-')
    requires FirstDot(h + t) == |h|
    requires t == "" || (t == "." + f && IsDigits(f))
    ensures AllAllowed(h + t)
  {
    var ht := h + t;
    forall j | 0 <= j < |ht|
      ensures Allowed(ht, j)
    {
      if j < |h| {
        assert ht[j] == h[j];
      } else if j > |h| {
        assert ht[j] == f[j - |h| - 1];
      }
    }
  }

  lemma TextSign(v: FPValue)
    requires IsValue(v)
    ensures ParsedSign(Text(v)) == v.sign
  {
    SignReadBack(SignText(v), HeadDigits(v), TextTail(v));
  }

  /** The text's digits after its '.' are the shown fractional digits. */
  lemma TextFracCount(v: FPValue)
    requires IsValue(v)
    ensures FracCount(Text(v)) == if ShowsFraction(v) then v.dp else 0
  {
    TextDot(v);
    TextTailDigits(v);
  }

  /** The text's digits: the digits before its '.' and the shown fraction. */
  lemma TextDigits(v: FPValue)
    requires IsValue(v)
    ensures DigitsOf(Text(v)) == HeadDigits(v) + if ShowsFraction(v) then FractionDigits(v) else []
  {
    TextHeadDigits(v);
    TextTailDigits(v);
    DigitsOfConcat(TextHead(v), TextTail(v));
  }

  /**
   * The text form reads back as the same number: the digits of the text,
   * scaled by the fractional digits it does not show, are the value's digits.
   */
  lemma TextValue(v: FPValue)
    requires IsValue(v)
    ensures FracCount(Text(v)) <= v.dp
    ensures Val(DigitsOf(Text(v))) * Pow10(v.dp - FracCount(Text(v))) == Val(v.vstr)
  {
    TextFracCount(v);
    TextDigits(v);
    ReadBackValue(v, DigitsOf(Text(v)), FracCount(Text(v)));
  }

  lemma ReadBackValue(v: FPValue, d: string, fc: nat)
    requires IsValue(v)
    requires fc == if ShowsFraction(v) then v.dp else 0
    requires d == HeadDigits(v) + if ShowsFraction(v) then FractionDigits(v) else []
    ensures IsDigits(d) && fc <= v.dp
    ensures Val(d) * Pow10(v.dp - fc) == Val(v.vstr)
  {
    var i, f := IntegerDigits(v), FractionDigits(v);
    assert v.vstr == i + f;
    if ShowsFraction(v) {
      ShownValue(if |i| == 0 then "0" else "", i, f, d, v.dp - fc);
    } else {
      HiddenValue(i, f, d, v.dp - fc);
    }
  }

  /** A "0" in front of the digits changes nothing. */
  lemma ShownValue(z: string, i: string, f: string, d: string, n: int)
    requires (z == "" || z == "0") && IsDigits(i) && IsDigits(f)
    requires d == z + i + f && n == 0
    ensures IsDigits(d) && Val(d) * Pow10(n) == Val(i + f)
  {
    assert d == z + (i + f);
    assert Zeros(|z|) == z;
    LeadingZerosVanish(|z|, i + f);
    ScaleNone(Val(d), Pow10(n));
  }

  /** Zero fractional digits left unshown only scale the value. */
  lemma HiddenValue(i: string, f: string, d: string, n: int)
    requires IsDigits(i) && IsDigits(f) && AllZeros(f)
    requires d == i + [] && n == |f|
    ensures IsDigits(d) && Val(d) * Pow10(n) == Val(i + f)
  {
    assert i + [] == i;
    ValConcat(i, f);
    ValAllZeros(f);
  }

  /** What reading back the text of v gives: its digits, with "0" before a bare fraction. */
  function ReadDigits(v: FPValue): seq<char> {
    (if |v.vstr| == v.dp then "0" else "") + v.vstr
  }

  /** The text of a well-formed value holds its digits, trimmed, with v.dp after the '.'. */
  lemma TextExact(v: FPValue)
    requires Wf(v)
    ensures DigitsOf(Text(v)) == ReadDigits(v) && FracCount(Text(v)) == v.dp
    ensures IsDigits(ReadDigits(v)) && Trimmed(ReadDigits(v), v.dp)
    ensures Val(ReadDigits(v)) == Val(v.vstr)
  {
    TextDigits(v);
    TextFracCount(v);
    ShownIffFraction(v);
    ReadDigitsTrimmed(v);
    ShownDigits(v);
  }

  /** The digits to_s shows are the digits read back. */
  lemma ShownDigits(v: FPValue)
    requires Wf(v)
    ensures HeadDigits(v) + (if ShowsFraction(v) then FractionDigits(v) else []) == ReadDigits(v)
  {
    ShownIffFraction(v);
    var i, f := IntegerDigits(v), FractionDigits(v);
    if v.dp > 0 {
      assert v.vstr == i + f;
      Regroup(if |i| == 0 then "0" else "", i, f);
    } else {
      assert i == v.vstr;
    }
  }

  /** A trimmed value shows its fraction exactly when it has one. */
  lemma ShownIffFraction(v: FPValue)
    requires Wf(v)
    ensures ShowsFraction(v) <==> v.dp > 0
  {
    if v.dp > 0 {
      assert FractionDigits(v)[v.dp - 1] != '0';
    }
  }

  lemma ReadDigitsTrimmed(v: FPValue)
    requires Wf(v)
    ensures IsDigits(ReadDigits(v)) && Trimmed(ReadDigits(v), v.dp)
    ensures Val(ReadDigits(v)) == Val(v.vstr)
  {
    var z := if |v.vstr| == v.dp then "0" else "";
    assert Zeros(|z|) == z;
    LeadingZerosVanish(|z|, v.vstr);
  }

  /**
   * to_s followed by the text constructor gives back v, except that a value
   * without integer digits comes back with the "0" that to_s put before the
   * '.': the same number, not the same digit string.
   */
  method ReadBack(v: FPValue) returns (r: Result<FPValue>)
    requires Wf(v)
    ensures r == Ok(FPValue(v.sign, ReadDigits(v), v.dp))
    ensures r.Ok? && Units(r.value, v.dp) == Units(v, v.dp)
  {
    var s := ToS(v);
    TextAllowed(v);
    TextSign(v);
    TextExact(v);
    r := Parse(s);
  }

  // Arithmetic and sequence identities, stated on their own so that the
  // nonlinear arithmetic and the concatenations in the proofs above stay small.

  lemma Regroup(a: string, b: string, c: string)
    ensures a + (b + c) == (a + b) + c
  {
  }

  lemma ScaleNone(x: int, p: int)
    requires p == 1
    ensures x * p == x
  {
  }
}
