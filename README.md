# FPValue: decimal numbers held as digit strings

This project models the arithmetic core of `FPValue`, a decimal type that
stores a number as text, and proves what that arithmetic computes. A value
is a triple `(sign, vstr, dp)`:

- `sign` is 1 or -1;
- `vstr` is a string of decimal digits, most significant first;
- `dp` is how many of those digits lie after the decimal point.

The value denotes `sign * Val(vstr) / 10^dp`. Under it sits an unsigned
engine, `IntString_*`, that works on plain digit strings.

There are no real numbers anywhere. `Magnitude(v, k)` is `|v|` counted in
units of `10^-k`, and `Units(v, k)` is the same with the sign applied. Every
arithmetic contract is an exact integer equation at a common scale `k`.

Modules:

- `Digits` (digits.dfy): digit strings, `Val`, powers of ten, and the
  positional lemmas the loops rely on.
- `Outcomes` (outcomes.dfy): the errors the source throws (a malformed
  text, zero division, not implemented) as a `Result` datatype.
- `IntString` (int_string.dfy): normalisation, comparison, saturating
  subtraction with a borrow loop, and long division.
- `FPValueCore` (fp_value.dfy): the value datatype and its invariants.
  - `IsValue` holds for everything the constructors produce.
  - `Trimmed` means no trailing fractional zero and no redundant leading
    integer zero.
  - `Wf` is a trimmed value with at least one digit and no negative zero.
  - The module also holds `RemoveRedundantZeros`, the `(sign, vstr, dp)`
    constructor `Make` and `Negate`.
- `FPValueText` (fp_text.dfy): the text constructor `Parse` and `to_s`.
  - `Text` specifies `to_s`: an optional `-`, the integer digits (a `0` if
    there are none and a fraction follows), then a `.` and the fraction if
    any fractional digit is not zero.
  - Lemmas relate the text back to the value.
- `FPValueArith` (fp_arith.dfy): `AdjustValueStringLengths`, `AbsCompare`,
  `Compare`, `Add`, `Sub`, `Mult`, and `Div` up to the point where the
  source gives up.

Values are immutable in the source (every operation builds a new one), so
`FPValue` is a datatype. Each loop of the source is a method with the
invariants that prove it. A by-reference helper (`AdjustValueStringLengths`,
`RemoveRedundantZeros`) returns its new strings and scales as out-parameters.

The representation is not unique. The text `.5` gives `("5", 1)`, while `0.5`
gives `("05", 1)`. So results are stated by value (`Units`), and structure is
stated only where the source fixes it. The round trip `to_s` then parse
returns `ReadDigits(v)`: the digits with a `0` put in front when there is no
integer digit.

## Model

| member | source | states |
|---|---|---|
| Digits.LongerIsLarger | FPValueExp/IntStringHelper.cpp:23-26 | between normalized strings, the longer one denotes the larger number, which is why comparing lengths first is sound |
| Digits.FirstDifferenceDecides | FPValueExp/IntStringHelper.cpp:28-35 | for equal-length strings that agree up to index i, a larger digit at i means a larger number |
| IntString.Normalize | FPValueExp/IntStringHelper.cpp:5-15 | the result is normalized (non-empty, no leading '0' unless it is "0") and has the input's value; "" becomes "0"; only leading zeros are removed; a normalized input comes back unchanged, so normalizing twice changes nothing |
| IntString.Compare | FPValueExp/IntStringHelper.cpp:18-37 | returns exactly Cmp(Val(a), Val(b)): 1, 0 or -1 by numeric order (hence antisymmetric and 0 on equal inputs); strings of different length are decided by length |
| IntString.SubtractAligned | FPValueExp/IntStringHelper.cpp:55-72 | the borrow loop yields a string of the operands' length worth Val(x) - Val(y), plus 10^n when the final borrow is set; the final borrow is set exactly when x < y |
| IntString.Sub | FPValueExp/IntStringHelper.cpp:40-76 | saturating subtraction: "0" when the minuend does not exceed the subtrahend, otherwise a normalized string worth their difference |
| IntString.Div | FPValueExp/IntStringHelper.cpp:80-112 | a zero-division error exactly when the divisor is "0"; otherwise a normalized quotient q and remainder r with q * d + r = n and r < d |
| IntString.SubtractWhileFits | FPValueExp/IntStringHelper.cpp:97-102 | the repeated subtraction leaves a normalized remainder below the divisor, and count subtractions of the divisor make up the difference |
| IntString.BringDownDigit | FPValueExp/IntStringHelper.cpp:94 | appending the next dividend digit to the remainder (a remainder "0" is dropped first) keeps it normalized and multiplies it by ten plus that digit |
| IntString.QuotientDigitBound | FPValueExp/IntStringHelper.cpp:97-104 | since the remainder is below the divisor before the digit is brought down, sub_count is below ten, so each quotient character is a digit |
| IntString.QuotientStep | FPValueExp/IntStringHelper.cpp:104 | appending the quotient digit keeps quotient * divisor + remainder equal to the dividend prefix consumed so far |
| FPValueCore.RemoveRedundantZeros | FPValueExp/FPValue.cpp:42-61 | the result is trimmed, lowers dp by one per trailing zero removed, removes only zeros, keeps the value (Val(w) * 10^(dp-e) = Val(vstr)) and the presence of an integer digit, and leaves a trimmed input alone |
| FPValueCore.StripTrailingZeros | FPValueExp/FPValue.cpp:45-52 | drops fractional trailing zeros only, one dp per zero, until dp is 0 or the last digit is not '0' |
| FPValueCore.StripLeadingZeros | FPValueExp/FPValue.cpp:55-60 | drops only leading zeros of the integer part and never its last digit |
| FPValueCore.Make | FPValueExp/FPValue.cpp:368-403 | the (sign, vstr, dp) constructor: a trimmed value equal to sign * Val(vstr) at scale dp, with sign +-1 and positive zero; empty digits result exactly when vstr is all zeros and has no integer digit; an integer digit survives exactly when vstr has more digits than dp, so the last integer digit is never removed; a trimmed input is kept as is |
| FPValueCore.Settle | FPValueExp/FPValue.cpp:396-402 | the ending both constructors share keeps the value, gives zero the sign +1, and keeps an integer digit exactly when vstr has one |
| FPValueCore.ZeroIffNoMagnitude | FPValueExp/FPValue.cpp:411-414 | for a well-formed value, IsZero holds exactly when the value is zero |
| FPValueCore.Negate | FPValueExp/FPValue.cpp:417-420 | same digits and scale; the sign flips for non-zero values and zero stays positive |
| FPValueText.Parse | FPValueExp/FPValue.cpp:315-365 | accepts exactly the texts whose characters are digits, a sign at index 0 or the first '.'; the error gives the first bad index and its kind (a second '.', or an unknown character before or after the '.'); the value is sign * digits / 10^(digits after '.'), trimmed, with "-0" made positive zero; the digits come out empty exactly when the text has no integer digit and all its digits are zero ("", "+", ".", ".00"); the value keeps an integer digit exactly when the text has a digit before its '.' |
| FPValueText.ToS | FPValueExp/FPValue.cpp:423-449 | the scan and the edits produce Text(v) |
| FPValueText.EditText | FPValueExp/FPValue.cpp:436-446 | given whether a non-zero fractional digit exists, the edits produce Text(v) |
| FPValueText.EditFront | FPValueExp/FPValue.cpp:441-446 | a '0' goes before a leading '.', then a '-' for a negative value |
| FPValueText.TextFront | FPValueExp/FPValue.cpp:441-446 | the text starts with '-' exactly when the value is negative and never starts with '.' |
| FPValueText.TextAllowed | FPValueExp/FPValue.cpp:423-449 | every character of to_s's output is accepted by the text constructor |
| FPValueText.TextSign | FPValueExp/FPValue.cpp:444-446 | the text constructor reads back the value's sign |
| FPValueText.TextFracCount | FPValueExp/FPValue.cpp:427-440 | the text holds dp digits after its '.' when a fractional digit is non-zero, and no '.' at all otherwise |
| FPValueText.TextDigits | FPValueExp/FPValue.cpp:436-443 | the digits of the text are the integer digits (a '0' before a bare fraction) followed by the shown fraction |
| FPValueText.TextValue | FPValueExp/FPValue.cpp:423-449 | the text denotes the same number: its digits, scaled by the fractional zeros it leaves out, are worth Val(vstr) |
| FPValueText.ShownIffFraction | FPValueExp/FPValue.cpp:427-435 | for a well-formed value, the fraction is shown exactly when dp > 0 |
| FPValueText.TextExact | FPValueExp/FPValue.cpp:423-449 | for a well-formed value, the text holds the digits ReadDigits(v) with exactly dp after the '.', and those digits are trimmed and worth Val(vstr) |
| FPValueText.ReadBack | FPValueExp/FPValue.cpp:315-365 | parsing to_s(v) of a well-formed value succeeds with (sign, ReadDigits(v), dp), which is the same number as v |
| FPValueArith.AlignedValue | FPValueExp/FPValue.cpp:19-35 | zeros put in front keep a string's value, and zeros put behind multiply it by ten each |
| FPValueArith.AdjustValueStringLengths | FPValueExp/FPValue.cpp:19-35 | both scales become max(dp1, dp2) and both strings the same length; each string is its input with zeros in front and (new dp - old dp) zeros behind, so each pair keeps its number |
| FPValueArith.PadFraction | FPValueExp/FPValue.cpp:21-28 | appends zeros until dp reaches the other's |
| FPValueArith.PadFront | FPValueExp/FPValue.cpp:29-34 | prepends zeros until the string is as long as the other |
| FPValueArith.AlignedMagnitude | FPValueExp/FPValue.cpp:19-35 | an aligned string of v at the common scale denotes the magnitude of v at that scale |
| FPValueArith.AbsCompare | FPValueExp/FPValue.cpp:64-85 | returns Cmp of the magnitudes of a and b at the common scale |
| FPValueArith.CompareAligned | FPValueExp/FPValue.cpp:76-84 | the first differing digit of two aligned strings decides their order |
| FPValueArith.Compare | FPValueExp/FPValue.cpp:88-100 | returns Order(a, b): the positive operand is above when the signs differ, otherwise AbsCompare times the sign; on well-formed values this is the numeric order |
| FPValueArith.OrderAntisymmetric | FPValueExp/FPValue.cpp:88-100 | Compare(a, b) = -Compare(b, a) |
| FPValueArith.OrderIsNumeric | FPValueExp/FPValue.cpp:88-100 | on well-formed values, Order compares the two numbers |
| FPValueArith.AddAligned | FPValueExp/FPValue.cpp:131-147 | the carry loop gives a digit string worth Val(x) + Val(y); it is one digit longer exactly when the sum reaches 10^n |
| FPValueArith.CarryStep | FPValueExp/FPValue.cpp:135-144 | one column of the carry loop keeps the digits so far plus the carry equal to the sum of the suffixes |
| FPValueArith.Finish | FPValueExp/FPValue.cpp:150-155 | stripping the result and constructing with the sign gives a well-formed value equal to sign * Val(result) at the scale (zero for a result that strips to nothing, see Findings) |
| FPValueArith.Add | FPValueExp/FPValue.cpp:103-156 | a well-formed value equal to a + b at the common scale; a zero operand gives the other operand back unchanged |
| FPValueArith.AddSameSign | FPValueExp/FPValue.cpp:123-155 | for operands of one sign, the aligned sum has that sign and the sum's magnitude |
| FPValueArith.Sub | FPValueExp/FPValue.cpp:159-222 | a well-formed value equal to m - s at the common scale; a zero minuend gives s negated; a zero subtrahend gives m back; Sub(v, v) is positive zero |
| FPValueArith.SubSameSign | FPValueExp/FPValue.cpp:178-221 | for operands of one sign, the larger magnitude minus the smaller, with the sign flipped when the operands were swapped, equals m - s |
| FPValueArith.SubtractSmaller | FPValueExp/FPValue.cpp:189-221 | once v1 has the larger magnitude, the aligned borrow subtraction gives sign times the difference of the magnitudes |
| FPValueArith.SubCancelled | FPValueExp/FPValue.cpp:217-221 | as written, subtracting a value without integer digits from itself strips to an empty digit string with dp 0, which the constructor's assert refuses |
| FPValueArith.MultStep | FPValueExp/FPValue.cpp:246-252 | one digit times the multiplier digit plus a carry of at most 8 leaves a digit and a carry of at most 8, keeping row plus carry equal to the suffix times the digit |
| FPValueArith.PrependDigitProduct | FPValueExp/FPValue.cpp:244-255 | the row keeps its tail of shift zeros, and the digits put in front of it are worth Val(x) * d |
| FPValueArith.PartialProduct | FPValueExp/FPValue.cpp:239-256 | partial product i is worth Val(x) * digit * 10^shift |
| FPValueArith.PartialProducts | FPValueExp/FPValue.cpp:236-257 | row i is a non-empty digit string worth Val(vstr1) * (digit i of vstr2 from the right) * 10^i |
| FPValueArith.AccumulateRow | FPValueExp/FPValue.cpp:261-263 | adding row i to the sum of the rows below it gives x times the last i+1 digits of y |
| FPValueArith.SumRows | FPValueExp/FPValue.cpp:259-263 | reading each row back as text and adding it to a total that starts at zero gives a positive integer value worth Val(x) * Val(y) |
| FPValueArith.Mult | FPValueExp/FPValue.cpp:225-266 | a well-formed value equal to a * b at scale dp1 + dp2; the result has the product of the signs; a zero factor gives zero |
| FPValueArith.Div | FPValueExp/FPValue.cpp:274-299 | always an error: zero division when the divisor's digits are worth zero, and not implemented otherwise |

## Left out

- FPValueExp/FPMath.cpp is not part of this model. Its series loops run up to `INT_MAX`, stop on empirical counters, and call `IntString_Add`, `IntString_Fact` and a four-argument `Div`, none of which have bodies.
- `Pow` always throws and is not modelled.
- The members declared in FPValue.hpp without bodies are not modelled: `Round`, `IntegerPart`, `DecimalPart`, `FPValue(const char*)`, `c_str`, the operators and the `str_buffer` cache.
- FPValueArith.Sub and FPValueArith.Mult: the model assumes that `operator=` is a member-wise copy. FPValue.hpp:124 declares a user copy assignment without a body, and `Sub`'s swap (FPValue.cpp:184-185) and `Mult`'s running total (FPValue.cpp:260-262) assign with it. The model treats those assignments as plain copies of the value.
- The default constructor is `Zero()`. The copy constructor needs no model, because a datatype is a value.
- The debug `printf` tracing in `Add`, `Sub` and `Div` is not modelled.
- The texts of the exceptions are not modelled. A parse error carries its kind and index; zero division and "not implemented" are error values.
- FPValueExp/main.cpp is only a demo driver and is not modelled.
- FPValueArith.Div: the four-argument declaration in the header is not modelled. The model covers the zero-divisor check, the alignment, the normalisation and the call to `IntString_Div`. It does not model the quotient, because the source throws "not implemented" before using it. `decimalPlace` is unused.
- FPValueArith.Add, FPValueArith.Sub, FPValueArith.Mult and FPValueCore.Negate require well-formed operands. A text without digits ("", "+", ".") parses to a value with an empty digit string, and these operations are not modelled on such values. (Negate of one fails the constructor's assert.)
- FPValueArith.Compare: its numeric meaning is stated only for well-formed values. On other values it is stated as `Order`, the sign-first rule.
- FPValueText.ReadBack: the parsed value equals `v` in number and dp, and its digits are `ReadDigits(v)`. This differs from `v.vstr` by a leading "0" when `v` has no integer digit, since the representation is not unique.
- FPValueText.ToS: on a value with an empty digit string, the source reads `ret[0]` of an empty string, which is the terminating null. The model only tests the first character when there is one.
- FPValueCore.Make: the constructor's `assert`s (non-zero sign, at least one digit, digits only) are its requires, and `_dp >= 0` is the type `nat`.
- `dp`, lengths and loop counters are C++ `int`; here they are unbounded integers. Digit strings longer than `INT_MAX` are not modelled.

## Findings

| source | as written | input that shows it | evidently intended | confidence | as-written member | corrected member |
|---|---|---|---|---|---|---|
| FPValueExp/FPValue.cpp:217-221 | for two equal values whose digits are all fractional, Sub's difference strips to an empty digit string, and the (sign, vstr, dp) constructor's `assert(_vstr.length() > 0)` aborts; Add reaches it through opposite signs | `FPValue(".5")` minus `FPValue(".5")`, or `.05 + -.05` | the difference is zero, as for any other pair of equal values | not executed | FPValueArith.SubCancelled | FPValueArith.Sub |
