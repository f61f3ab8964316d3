# Lagrange polynomial calculator: a Dafny model

This project models the interpolation engine of a browser-based Lagrange
polynomial calculator (`script.js`). It proves properties of the model
with Dafny. Arithmetic is exact (`real`), not IEEE doubles. A polynomial is
a coefficient vector `seq<real>`, lowest degree first.

The model has four modules:

- **Poly** (`poly.dfy`) is the coefficient-vector algebra the engine uses:
  - the power-sum evaluation loop (`Eval`, `EvaluateLoop`) and Horner's form, which it is proved equal to;
  - one expansion step of a basis numerator, multiplying by (x − a) (`MulLinear`, `MulLinearLoop`);
  - slot-wise weighting by y/d (`Weigh`);
  - accumulation of one vector into another, extending it when it is shorter (`AddInto`), and of a whole list of vectors into n zero slots (`Sum`).
- **Lagrange** (`lagrange.dfy`) is the interpolator:
  - for every sample i, the numerator of the basis polynomial Lᵢ is built by multiplying [1] by (x − xⱼ) for every j ≠ i in increasing j, and the denominator is built as the product of (xᵢ − xⱼ);
  - the weighted numerators are added into n zero slots;
  - the loops of the program are methods proved equal to the functional definitions.
  - The main result: with pairwise-distinct x values, the coefficients evaluate to yₖ at every xₖ.
- **Format** (`format.dfy`) renders "P(x) = …" in plain text (`x^3`) and in math markup (`x^{3}`):
  - it walks the indices from n − 1 down to 0 and skips coefficients with magnitude below 1e-10;
  - it chooses the sign text and leaves out the numeral 1 in front of a power of x;
  - it renders "P(x) = 0" when nothing is left.
  - The three branches of the program that append `x` all do the same thing, and are one rule here.
  - Turning a magnitude into six-decimal text is the parameter `numeral`.
- **Calculator** (`calculator.dfy`) holds the two user actions and the stored polynomial (the "slot"):
  - computing reads the rows in order and rejects the first invalid row, then repeated x values, then fewer than two points; only then does it interpolate, store and render;
  - any failure clears the slot;
  - evaluating refuses when the slot is empty, then refuses an unreadable x, and otherwise evaluates the stored coefficients.

The formatter's own "// First term" comments (`script.js:133`,
`script.js:185`) describe the term that opens the output. The code,
however, treats the term at index n − 1 as first (`script.js:132`,
`script.js:184`), even when that coefficient is skipped as negligible.
`FormatPolynomial` follows the code, and it is what `Calculator.Calculate`
displays. `FormatCorrected` gives the leading-sign rule to the first term
emitted; `Calculator.CalculateCorrected` is the compute action that
displays it (see Findings).

## Model

| member | source | states |
|---|---|---|
| Poly.Eval | script.js:240-243 | The power sum Σ c[i]·x^i; at x = 0 it is the constant coefficient |
| Poly.EvalIsHorner | script.js:240-243 | The evaluation loop's power sum Σ c[i]·x^i equals Horner's nested form, for every vector and every x |
| Poly.EvaluateLoop | script.js:240-243 | The loop `result += c[i] * x^i` for i = 0, 1, … returns Horner's value of the coefficients |
| Poly.EvalExample | script.js:240-243 | The coefficients [0, 2] evaluated at x = 3 give 6 |
| Poly.MulLinear | script.js:95-99 | Multiplying by (x − a) adds one slot and keeps the leading coefficient |
| Poly.MulLinearLoop | script.js:95-100 | The array loop of one expansion step computes `MulLinear`: a zero array one slot longer, where slot k loses old[k]·xⱼ and slot k + 1 gains old[k] |
| Poly.EvalMulLinear | script.js:95-100 | After one expansion step, the value at every t is (t − xⱼ) times the old value |
| Poly.HornerMulLinear | script.js:95-100 | The same multiplication law, stated for Horner's form |
| Poly.Weigh | script.js:112 | Weighting by y/d keeps one slot per slot of the numerator |
| Poly.HornerWeigh | script.js:112 | Slot-wise y·p[k]/d evaluates to (y/d)·p(x) |
| Poly.AddInto | script.js:108-113 | The sum has as many slots as the longer operand, so the coefficients never grow when the added vector is no longer |
| Poly.EvalAddInto | script.js:108-113 | Adding a vector into the coefficients slot by slot, extending with zeros where needed, adds its value to theirs at every x |
| Poly.HornerAddInto | script.js:108-113 | The same additivity law, stated for Horner's form |
| Poly.EvalZeros | script.js:85 | The starting vector of n zeros evaluates to 0 everywhere |
| Poly.Sum | script.js:85-114 | Adding vectors none longer than n into n zero slots yields exactly n slots |
| Poly.HornerSumSingle | script.js:85-114 | If one added vector is worth y at t and every other is worth 0, the accumulated vector is worth y at t |
| Lagrange.DistinctIffNoCollapse | script.js:71-73 | Collecting the x values into a set keeps as many values as there are points exactly when no two points share an x |
| Lagrange.Numerator | script.js:89-100 | After the factors j < bound, the numerator of Lᵢ has one slot per factor taken plus one: its degree is the number of factors |
| Lagrange.NumeratorMonic | script.js:89-100 | The expanded numerator's leading coefficient is 1 at every stage |
| Lagrange.Denominator | script.js:89-103 | The running denominator is nonzero whenever xᵢ differs from every xⱼ multiplied in so far |
| Lagrange.NumeratorEval | script.js:89-105 | The expanded numerator of Lᵢ evaluates, at every t, to the product of (t − xⱼ) over the j ≠ i taken so far |
| Lagrange.NumeratorHorner | script.js:89-105 | The same product law, stated for Horner's form |
| Lagrange.DenominatorIsProduct | script.js:103 | The running denominator is the numerator's product of factors taken at t = xᵢ |
| Lagrange.DenominatorNonzero | script.js:103 | With pairwise-distinct x values, the completed denominator is nonzero |
| Lagrange.BasisAtNodes | script.js:89-105 | The completed numerator of Lᵢ vanishes at every other sample's x and equals the nonzero denominator at xᵢ |
| Lagrange.WeightedAtNodes | script.js:112 | The contribution yᵢ·numerator/denominator is worth yᵢ at xᵢ and 0 at every other sample's x |
| Lagrange.Interpolate | script.js:85-116 | The coefficient vector has exactly one slot per sample |
| Lagrange.AccumulationNeverExtends | script.js:108-111 | The branch that appends a slot is never taken: before sample i is added the vector has n slots, and sample i's contribution has n |
| Lagrange.InterpolateAtNode | script.js:87-116 | At every sample's x, the interpolated coefficients (Horner's form) give that sample's y |
| Lagrange.InterpolationExact | script.js:81-117 | With pairwise-distinct x values, evaluating the result at each xₖ gives yₖ |
| Lagrange.BasisLoop | script.js:89-105 | The loop over j, with factor j skipped when j = i, produces the numerator and denominator of Lᵢ |
| Lagrange.BasisFactor | script.js:93-104 | One pass of that loop multiplies in factor j, or leaves both values alone when j = i |
| Lagrange.AddWeightedLoop | script.js:108-113 | The accumulation loop, including its append branch, adds the slot-wise weighted numerator into the coefficients |
| Lagrange.LagrangeInterpolation | script.js:81-117 | The program's nested loops compute exactly the interpolating coefficient vector |
| Lagrange.TwoPointLinear | script.js:81-117 | The samples (0, 0) and (2, 4) give the coefficients [0, 2] |
| Lagrange.ThreePointQuadratic | script.js:81-117 | The samples (0, 1), (1, 2) and (2, 5) give the coefficients [1, 0, 1] |
| Lagrange.TwoPointConstant | script.js:81-117 | The samples (0, 1) and (1, 1) give the coefficients [1, 0], whose top slot is zero |
| Format.FormatPolynomial | script.js:120-169 | The output always opens with "P(x) = ", and is exactly "P(x) = 0" when every coefficient is negligible |
| Format.FormatCorrected | script.js:120-169 | The corrected formatter also always opens with "P(x) = ", and also renders an all-negligible vector as "P(x) = 0" |
| Format.Kept | script.js:124-127 | The rendered indices are non-negligible and strictly descending |
| Format.KeptExactly | script.js:124-127 | An index is rendered exactly when its coefficient's magnitude is at least 1e-10 |
| Format.KeptEmptyIff | script.js:127 | No term survives exactly when every coefficient is negligible |
| Format.FormatZeroIff | script.js:164-168 | The formatter outputs "P(x) = 0" exactly when every coefficient is negligible, or there is a single positive coefficient whose numeral reads "0" |
| Format.TermSignRule | script.js:132-144 | A term counted as first starts with "-" exactly when negative, and otherwise with a digit or x; any other term starts with " + " when positive and " - " otherwise |
| Format.TermNumeralRule | script.js:135-143 | Right after the sign comes x, with the numeral left out, exactly when the magnitude is 1 and the degree is positive |
| Format.TermDegreeZero | script.js:135-136 | A constant term ends with the numeral of its magnitude: nothing is appended after the numeral |
| Format.TermDegreeOne | script.js:147-155 | A degree-1 term ends with a bare x |
| Format.TermDegreeHigher | script.js:156-158 | Above degree 1 a term ends with x followed by the style's exponent |
| Format.StylesShareStem | script.js:184-212 | The markup term equals the plain term up to degree 1; above it both share the stem ending in x, followed by ^i in plain text and ^{i} in markup |
| Format.TermsShareStem | script.js:172-223 | Term by term, the markup rendering equals the plain one at kept degree 0 or 1; above it both are one stem ending in x, followed by ^i or ^{i} |
| Format.StylesAgreeUpToLinear | script.js:172-223 | A polynomial with no rendered term above degree 1 renders as the same text in both styles |
| Format.LeadingGapAsWritten | script.js:132 | As written, a negligible top coefficient with any other kept coefficient makes the output open "P(x) =  + " or "P(x) =  - " |
| Format.LeadingGapExample | script.js:132 | As written, the vector [1, 0] renders as "P(x) =  + " followed by the numeral of 1 |
| Format.CorrectedNoGap | script.js:132-144 | The corrected formatter always puts a '-', a digit or x right after "P(x) = " (the digit 0 when nothing is rendered) |
| Format.CorrectedMatchesProgramIff | script.js:120-169 | The corrected formatter prints exactly what the source prints unless the top coefficient is negligible and some other one is not |
| Format.LineRendering | script.js:120-169 | [0, 2] renders as "P(x) = ", the numeral of 2, then x |
| Format.QuadraticRendering | script.js:172-223 | [1, 0, 1] renders as "P(x) = x^2 + " and the numeral of 1 in plain text, and with x^{2} in markup |
| Calculator.ReadRowsOk | script.js:56-68 | Reading succeeds exactly when every row holds two numbers, and then yields one point per row, in order, with that row's numbers |
| Calculator.ReadRowsFirstInvalid | script.js:60-65 | Reading reports row k exactly when row k is the first row with an unreadable field |
| Calculator.ReadRowsOnlyInvalid | script.js:63-65 | Reading can fail only with an invalid-point error |
| Calculator.GetPoints | script.js:52-78 | A reading failure passes through; otherwise the points are returned exactly when no two share an x, and the duplicate error is given otherwise |
| Calculator.GetPointsLoop | script.js:52-78 | The reading loop with its early exit, followed by the set-size check, computes `GetPoints` |
| Calculator.Calculate | script.js:255-292 | The slot is empty exactly when an error is shown. On success the slot holds n coefficients, and the display shows degree n − 1, the point count and the source formatter's two renderings of the stored coefficients |
| Calculator.CalculatePolynomial | script.js:255-292 | The compute action with the program's loops produces the same outcome as `Calculate` |
| Calculator.CalculateSucceedsIff | script.js:255-265 | Computing succeeds exactly when every row holds two numbers, no x repeats and there are at least two rows |
| Calculator.CalculateReportsFirstInvalid | script.js:63-65 | The first invalid row is reported, by index, before any other check, and the slot is cleared |
| Calculator.CalculateReportsDuplicate | script.js:70-75 | Valid rows with a repeated x give the duplicate error and clear the slot |
| Calculator.CalculateReportsTooFew | script.js:259-261 | Valid rows, fewer than two, give the too-few error and clear the slot |
| Calculator.Evaluate | script.js:226-243 | An empty slot is reported first, then an unreadable x; otherwise the result is the Horner value of the stored coefficients |
| Calculator.EvaluatePolynomial | script.js:226-243 | The evaluate action with the power-sum loop produces the same result as `Evaluate` |
| Calculator.EvaluateAfterCalculate | script.js:264-265 | After a successful computation, evaluating at any row's x gives that row's y |
| Calculator.EvaluateAfterFailure | script.js:286-291 | After a failed computation, evaluation reports that there is no polynomial, whatever the input |
| Calculator.CalculateShowsNoGap | script.js:268-269 | When the stored top coefficient is rendered, both displayed texts continue "P(x) = " directly with a minus sign, a digit or x |
| Calculator.CalculateCorrected | script.js:255-292 | With the corrected formatter, the slot and the errors are those of `Calculate`, and both texts are the corrected renderings |
| Calculator.CalculateCorrectedShowsNoGap | script.js:268-269 | With the corrected formatter, every successful computation continues "P(x) = " with a minus sign, a digit or x |
| Calculator.FlatLineExample | script.js:268-269 | The rows (0, 1), (1, 1) store [1, 0], and the program displays "P(x) =  + " followed by the numeral of 1 |
| Calculator.LineExample | script.js:255-277 | The rows (0, 0), (2, 4) store [0, 2] and display "P(x) = ", the numeral of 2, then x |
| Calculator.QuadraticExample | script.js:255-277 | The rows (0, 1), (1, 2), (2, 5) store [1, 0, 1] and display x^2 + 1 (x^{2} in markup), the 1 as its numeral |
| Calculator.DuplicateExample | script.js:70-75 | The rows (1, 5), (1, 7) give the duplicate error and an empty slot |
| Calculator.SinglePointExample | script.js:259-261 | A single valid row gives the too-few error |
| Calculator.InvalidBeforeTooFewExample | script.js:63-65 | A single row with an unreadable y reports the invalid row rather than too few points |

## Left out

- Adding, removing and relabelling input rows (`script.js:7-49`): user-interface bookkeeping.
- `parseFloat` and `isNaN`: a field is already either `Number(v)` or `NotANumber`. How text becomes a number is not modelled. The error keeps the row's index, not the echoed field text.
- `toFixed(6)` followed by stripping trailing zeros: this is the parameter `numeral`. Lemmas about the first character of a term assume only that `numeral` gives nonempty text starting with a digit (`DigitLed`).
- HTML assembly, MathJax typesetting, event listeners and the text of the evaluation result (`script.js:245-251`, `script.js:271-284`, `script.js:296-312`): display glue. Only the numbers and strings handed to it are modelled.
- IEEE-754 rounding: all arithmetic is exact.
  - Exactness holds exactly here, but only approximately in the program.
  - The magnitude-1 test is exact.
  - A denominator that underflows to 0 is not modelled.
- Error messages are constructors of `Error`, not strings.
- Symmetry of the result under reordering the samples, and uniqueness of the interpolating polynomial, are not proved.
- Lagrange.Interpolate: requires pairwise-distinct x values. With a repeated x the program would divide by zero and produce non-finite coefficients. That input never reaches it, because the duplicate check runs first.

## Findings

| source | as written | input that shows it | evidently intended | confidence | as-written member | corrected member |
|---|---|---|---|---|---|---|
| script.js:132 | The first-term sign rule is chosen by `i === n - 1`, so when the top coefficient is skipped as negligible, the first term that is emitted still gets a joining " + " or " - " (the same at script.js:184) | coefficients [1, 0], which the rows (0, 1), (1, 1) produce (`Calculator.FlatLineExample`), render "P(x) =  + 1" | the first emitted term gets the leading-sign rule: "P(x) = 1" | high (not executed) | Format.LeadingGapExample | Format.CorrectedNoGap |
