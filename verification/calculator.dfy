/**
  The calculator's two actions and the state they share.

  Each input row holds an x and a y field. A field is already reduced to
  what the number reader makes of it: a number, or "not a number". The
  action that computes a polynomial reads the rows in order, rejects the
  first invalid one, rejects repeated x values, then rejects fewer than two
  points. Only then does it interpolate and render the result. The action
  that evaluates uses the stored coefficients. The stored polynomial (the
  slot) is replaced on success and cleared on every failure of the compute
  action.
 */
module Calculator {
  import opened Poly
  import opened Lagrange
  import opened Format

  /** What the number reader makes of one input field. */
  datatype Field = Number(value: real) | NotANumber

  datatype Row = Row(x: Field, y: Field)

  datatype Error =
    | InvalidPoint(row: nat)
    | DuplicateX
    | TooFewPoints
    | NoPolynomial
    | InvalidEvaluationInput

  datatype Result<T> = Ok(value: T) | Err(error: Error)

  /** The polynomial kept between the compute action and the evaluate action. */
  datatype Slot = Empty | Stored(coefficients: seq<real>)

  /** What a successful computation shows: the degree, both renderings and the number of points. */
  datatype Display = Display(degree: int, plain: string, markup: string, count: nat)

  datatype Outcome = Outcome(slot: Slot, shown: Result<Display>)

  predicate Valid(row: Row)
  {
    row.x.Number? && row.y.Number?
  }

  predicate AllValid(rows: seq<Row>)
  {
    forall i :: 0 <= i < |rows| ==> Valid(rows[i])
  }

  /** No two rows carry the same x value. */
  predicate DistinctX(rows: seq<Row>)
    requires AllValid(rows)
  {
    forall i, j :: 0 <= i < j < |rows| ==> rows[i].x.value != rows[j].x.value
  }

  function Sample(row: Row): Point
    requires Valid(row)
  {
    Point(row.x.value, row.y.value)
  }

  // ---------------------------------------------------------------------
  // Reading the rows

  /** Reads rows[k..] in order; the first invalid row is reported by its index. */
  function ReadFrom(rows: seq<Row>, k: nat): (r: Result<seq<Point>>)
    requires k <= |rows|
    ensures r.Ok? ==> |r.value| == |rows| - k
    decreases |rows| - k
  {
    if k == |rows| then Ok([])
    else if !Valid(rows[k]) then Err(InvalidPoint(k))
    else match ReadFrom(rows, k + 1)
      case Ok(ps) => Ok([Sample(rows[k])] + ps)
      case Err(e) => Err(e)
  }

  function ReadRows(rows: seq<Row>): Result<seq<Point>>
  {
    ReadFrom(rows, 0)
  }

  lemma {:induction false} ReadFromOk(rows: seq<Row>, k: nat)
    requires k <= |rows|
    ensures ReadFrom(rows, k).Ok? <==> forall i :: k <= i < |rows| ==> Valid(rows[i])
    decreases |rows| - k
  {
    if k < |rows| {
      ReadFromOk(rows, k + 1);
    }
  }

  lemma {:induction false} ReadFromAt(rows: seq<Row>, k: nat, i: nat)
    requires k <= i < |rows| && ReadFrom(rows, k).Ok?
    ensures Valid(rows[i])
    ensures ReadFrom(rows, k).value[i - k] == Sample(rows[i])
    decreases |rows| - k
  {
    if i > k {
      ReadFromAt(rows, k + 1, i);
    }
  }

  /** An error names row e exactly when row e is the first invalid row at or after k. */
  lemma {:induction false} ReadFromErr(rows: seq<Row>, k: nat, e: Error)
    requires k <= |rows|
    ensures ReadFrom(rows, k) == Err(e) <==>
      e.InvalidPoint? && k <= e.row < |rows| && !Valid(rows[e.row]) &&
      forall i :: k <= i < e.row ==> Valid(rows[i])
    decreases |rows| - k
  {
    if k < |rows| && Valid(rows[k]) {
      ReadFromErr(rows, k + 1, e);
    }
  }

  /**
    Reading succeeds exactly when every row is valid, and then yields one
    point per row, in row order, carrying that row's numbers.
   */
  lemma {:induction false} ReadRowsOk(rows: seq<Row>)
    ensures ReadRows(rows).Ok? <==> AllValid(rows)
    ensures ReadRows(rows).Ok? ==>
      && |ReadRows(rows).value| == |rows|
      && forall i :: 0 <= i < |rows| ==> ReadRows(rows).value[i] == Sample(rows[i])
  {
    ReadFromOk(rows, 0);
    if ReadRows(rows).Ok? {
      forall i | 0 <= i < |rows|
        ensures ReadRows(rows).value[i] == Sample(rows[i])
      {
        ReadFromAt(rows, 0, i);
      }
    }
  }

  /** Reading reports row k exactly when row k is the first invalid row. */
  lemma {:induction false} ReadRowsFirstInvalid(rows: seq<Row>, k: nat)
    ensures ReadRows(rows) == Err(InvalidPoint(k)) <==>
      k < |rows| && !Valid(rows[k]) && forall i :: 0 <= i < k ==> Valid(rows[i])
  {
    ReadFromErr(rows, 0, InvalidPoint(k));
  }

  /** The only error reading can give is an invalid row. */
  lemma {:induction false} ReadRowsOnlyInvalid(rows: seq<Row>, e: Error)
    requires ReadRows(rows) == Err(e)
    ensures e.InvalidPoint?
  {
    ReadFromErr(rows, 0, e);
  }

  /**
    Reads the points and then rejects a repeated x value: the count of
    distinct x values falls short of the number of points exactly when
    two points share an x.
   */
  function GetPoints(rows: seq<Row>): (r: Result<seq<Point>>)
    ensures ReadRows(rows).Err? ==> r == ReadRows(rows)
    ensures ReadRows(rows).Ok? ==>
      (r.Ok? <==> Distinct(ReadRows(rows).value)) &&
      (r.Ok? ==> r.value == ReadRows(rows).value) &&
      (r.Err? ==> r.error == DuplicateX)
  {
    match ReadRows(rows)
    case Err(e) => Err(e)
    case Ok(ps) =>
      DistinctIffNoCollapse(ps);
      if |XSet(ps)| != |ps| then Err(DuplicateX) else Ok(ps)
  }

  /** The loop that reads the rows, followed by the repeated-x check. */
  method GetPointsLoop(rows: seq<Row>) returns (r: Result<seq<Point>>)
    ensures r == GetPoints(rows)
  {
    var points: seq<Point> := [];
    var k := 0;
    while k < |rows|
      invariant 0 <= k <= |rows|
      invariant |points| == k
      invariant forall i :: 0 <= i < k ==> Valid(rows[i]) && points[i] == Sample(rows[i])
    {
      if !Valid(rows[k]) {
        ReadRowsFirstInvalid(rows, k);
        return Err(InvalidPoint(k));
      }
      points := points + [Sample(rows[k])];
      k := k + 1;
    }
    ReadRowsOk(rows);
    assert points == ReadRows(rows).value;
    if |XSet(points)| != |points| {
      return Err(DuplicateX);
    }
    return Ok(points);
  }

  // ---------------------------------------------------------------------
  // The compute action

  /**
    Reads the points, rejects fewer than two, interpolates, and stores and
    renders the coefficients; every failure leaves the slot empty.
   */
  function Calculate(rows: seq<Row>, numeral: real -> string): (o: Outcome)
    ensures o.shown.Err? <==> o.slot.Empty?
    ensures o.shown.Ok? ==>
      && |o.slot.coefficients| == |rows|
      && o.shown.value.count == |rows|
      && o.shown.value.degree == |rows| - 1
      && o.shown.value.plain == FormatPolynomial(o.slot.coefficients, Plain, numeral)
      && o.shown.value.markup == FormatPolynomial(o.slot.coefficients, Markup, numeral)
  {
    match GetPoints(rows)
    case Err(e) => Outcome(Empty, Err(e))
    case Ok(ps) =>
      ReadRowsOk(rows);
      if |ps| < 2 then Outcome(Empty, Err(TooFewPoints))
      else
        var c := Interpolate(ps);
        Outcome(Stored(c), Ok(Display(|c| - 1, FormatPolynomial(c, Plain, numeral), FormatPolynomial(c, Markup, numeral), |ps|)))
  }

  /** The compute action as the program runs it: the reading loop, then the interpolation loops. */
  method CalculatePolynomial(rows: seq<Row>, numeral: real -> string) returns (o: Outcome)
    ensures o == Calculate(rows, numeral)
  {
    var points := GetPointsLoop(rows);
    if points.Err? {
      return Outcome(Empty, Err(points.error));
    }
    ReadRowsOk(rows);
    if |points.value| < 2 {
      return Outcome(Empty, Err(TooFewPoints));
    }
    var c := LagrangeInterpolation(points.value);
    var plain := FormatPolynomial(c, Plain, numeral);
    var markup := FormatPolynomial(c, Markup, numeral);
    return Outcome(Stored(c), Ok(Display(|c| - 1, plain, markup, |points.value|)));
  }

  /**
    The compute action succeeds exactly when every row holds two numbers,
    no x value repeats and there are at least two rows.
   */
  lemma {:induction false} CalculateSucceedsIff(rows: seq<Row>, numeral: real -> string)
    ensures Calculate(rows, numeral).shown.Ok? <==> AllValid(rows) && DistinctX(rows) && |rows| >= 2
  {
    ReadRowsOk(rows);
    if AllValid(rows) {
      var ps := ReadRows(rows).value;
      if Distinct(ps) {
        forall i, j | 0 <= i < j < |rows|
          ensures rows[i].x.value != rows[j].x.value
        {
          assert ps[i].x != ps[j].x;
        }
      }
      if DistinctX(rows) {
        forall i, j | 0 <= i < j < |ps|
          ensures ps[i].x != ps[j].x
        {
          assert rows[i].x.value != rows[j].x.value;
        }
      }
    }
  }

  /** An invalid row is reported by the index of the first one, before any other check. */
  lemma {:induction false} CalculateReportsFirstInvalid(rows: seq<Row>, numeral: real -> string, k: nat)
    requires k < |rows| && !Valid(rows[k])
    requires forall i :: 0 <= i < k ==> Valid(rows[i])
    ensures Calculate(rows, numeral) == Outcome(Empty, Err(InvalidPoint(k)))
  {
    ReadRowsFirstInvalid(rows, k);
  }

  /** With every row valid, two rows sharing an x value give the duplicate error. */
  lemma {:induction false} CalculateReportsDuplicate(rows: seq<Row>, numeral: real -> string, i: nat, j: nat)
    requires AllValid(rows) && i < j < |rows| && rows[i].x.value == rows[j].x.value
    ensures Calculate(rows, numeral) == Outcome(Empty, Err(DuplicateX))
  {
    ReadRowsOk(rows);
    var ps := ReadRows(rows).value;
    assert ps[i].x == ps[j].x;
  }

  /** Valid rows with no repeated x but fewer than two of them give the too-few error. */
  lemma {:induction false} CalculateReportsTooFew(rows: seq<Row>, numeral: real -> string)
    requires AllValid(rows) && |rows| < 2
    ensures Calculate(rows, numeral) == Outcome(Empty, Err(TooFewPoints))
  {
    ReadRowsOk(rows);
  }

  // ---------------------------------------------------------------------
  // The evaluate action

  /**
    Evaluates the stored polynomial at x. A missing polynomial is reported
    before the input is looked at; an unreadable input is reported next.
   */
  function Evaluate(slot: Slot, x: Field): (r: Result<real>)
    ensures slot.Empty? ==> r == Err(NoPolynomial)
    ensures slot.Stored? && x.NotANumber? ==> r == Err(InvalidEvaluationInput)
    ensures r.Ok? <==> slot.Stored? && x.Number?
    ensures r.Ok? ==> r.value == Horner(slot.coefficients, x.value)
  {
    if slot.Empty? then Err(NoPolynomial)
    else if x.NotANumber? then Err(InvalidEvaluationInput)
    else
      EvalIsHorner(slot.coefficients, x.value);
      Ok(Eval(slot.coefficients, x.value))
  }

  /** The evaluate action as the program runs it, with the power-sum loop. */
  method EvaluatePolynomial(slot: Slot, x: Field) returns (r: Result<real>)
    ensures r == Evaluate(slot, x)
  {
    if slot.Empty? {
      return Err(NoPolynomial);
    }
    if x.NotANumber? {
      return Err(InvalidEvaluationInput);
    }
    var value := EvaluateLoop(slot.coefficients, x.value);
    EvalIsHorner(slot.coefficients, x.value);
    return Ok(value);
  }

  /** After a successful computation, evaluating at any row's x gives back that row's y. */
  lemma {:induction false} EvaluateAfterCalculate(rows: seq<Row>, numeral: real -> string, k: nat)
    requires Calculate(rows, numeral).shown.Ok? && k < |rows|
    ensures Valid(rows[k])
    ensures Evaluate(Calculate(rows, numeral).slot, rows[k].x) == Ok(rows[k].y.value)
  {
    ReadRowsOk(rows);
    var ps := ReadRows(rows).value;
    InterpolationExact(ps);
    assert ps[k] == Sample(rows[k]);
  }

  /** After a failed computation, evaluation reports that there is no polynomial, whatever the input. */
  lemma {:induction false} EvaluateAfterFailure(rows: seq<Row>, numeral: real -> string, x: Field)
    requires Calculate(rows, numeral).shown.Err?
    ensures Evaluate(Calculate(rows, numeral).slot, x) == Err(NoPolynomial)
  {
  }

  /**
    When the stored polynomial's top coefficient is rendered, both displayed
    texts continue "P(x) = " directly with a sign, a digit or x.
   */
  lemma {:induction false} CalculateShowsNoGap(rows: seq<Row>, numeral: real -> string)
    requires DigitLed(numeral) && Calculate(rows, numeral).shown.Ok?
    ensures var o := Calculate(rows, numeral);
      var d := o.shown.value;
      !Negligible(o.slot.coefficients[|rows| - 1]) ==>
      && |d.plain| > |Prefix| && d.plain[..|Prefix|] == Prefix && Opener(d.plain[|Prefix|])
      && |d.markup| > |Prefix| && d.markup[..|Prefix|] == Prefix && Opener(d.markup[|Prefix|])
  {
    var c := Calculate(rows, numeral).slot.coefficients;
    if !Negligible(c[|rows| - 1]) {
      CorrectedNoGap(c, Plain, numeral);
      CorrectedNoGap(c, Markup, numeral);
      SameWhenTopKept(c, Plain, numeral);
      SameWhenTopKept(c, Markup, numeral);
    }
  }

  /**
    The compute action with the corrected formatter: the same slot and the
    same errors, with both texts rendered by `FormatCorrected`.
   */
  function CalculateCorrected(rows: seq<Row>, numeral: real -> string): (o: Outcome)
    ensures o.slot == Calculate(rows, numeral).slot
    ensures o.shown.Err? <==> Calculate(rows, numeral).shown.Err?
    ensures o.shown.Err? ==> o.shown == Calculate(rows, numeral).shown
    ensures o.shown.Ok? ==>
      && o.slot.Stored?
      && o.shown.value.plain == FormatCorrected(o.slot.coefficients, Plain, numeral)
      && o.shown.value.markup == FormatCorrected(o.slot.coefficients, Markup, numeral)
  {
    var o := Calculate(rows, numeral);
    if o.shown.Err? then o
    else
      var c := o.slot.coefficients;
      Outcome(o.slot, Ok(o.shown.value.(plain := FormatCorrected(c, Plain, numeral), markup := FormatCorrected(c, Markup, numeral))))
  }

  /** With the corrected formatter, every successful computation continues "P(x) = " with a minus sign, a digit or x. */
  lemma {:induction false} CalculateCorrectedShowsNoGap(rows: seq<Row>, numeral: real -> string)
    requires DigitLed(numeral) && CalculateCorrected(rows, numeral).shown.Ok?
    ensures var d := CalculateCorrected(rows, numeral).shown.value;
      && |d.plain| > |Prefix| && d.plain[..|Prefix|] == Prefix && Opener(d.plain[|Prefix|])
      && |d.markup| > |Prefix| && d.markup[..|Prefix|] == Prefix && Opener(d.markup[|Prefix|])
  {
    var c := CalculateCorrected(rows, numeral).slot.coefficients;
    CorrectedNoGap(c, Plain, numeral);
    CorrectedNoGap(c, Markup, numeral);
  }

  // ---------------------------------------------------------------------
  // Examples

  /** The points (0, 0) and (2, 4) give the line 2x. */
  lemma {:induction false} LineExample(numeral: real -> string)
    ensures var o := Calculate([Row(Number(0.0), Number(0.0)), Row(Number(2.0), Number(4.0))], numeral);
      o.slot == Stored([0.0, 2.0]) && o.shown.Ok? && o.shown.value.plain == "P(x) = " + numeral(2.0) + "x"
  {
    var rows := [Row(Number(0.0), Number(0.0)), Row(Number(2.0), Number(4.0))];
    ReadRowsOk(rows);
    var ps := ReadRows(rows).value;
    assert ps == [Point(0.0, 0.0), Point(2.0, 4.0)];
    TwoPointLinear();
    LineRendering(numeral);
  }

  /** The points (0, 1), (1, 2) and (2, 5) give x^2 + 1. */
  lemma {:induction false} QuadraticExample(numeral: real -> string)
    ensures var o := Calculate([Row(Number(0.0), Number(1.0)), Row(Number(1.0), Number(2.0)), Row(Number(2.0), Number(5.0))], numeral);
      && o.slot == Stored([1.0, 0.0, 1.0]) && o.shown.Ok?
      && o.shown.value.plain == "P(x) = x^2 + " + numeral(1.0)
      && o.shown.value.markup == "P(x) = x^{2} + " + numeral(1.0)
  {
    var rows := [Row(Number(0.0), Number(1.0)), Row(Number(1.0), Number(2.0)), Row(Number(2.0), Number(5.0))];
    ReadRowsOk(rows);
    var ps := ReadRows(rows).value;
    assert ps == [Point(0.0, 1.0), Point(1.0, 2.0), Point(2.0, 5.0)];
    ThreePointQuadratic();
    QuadraticRendering(numeral);
  }

  lemma {:induction false} DuplicateExample(numeral: real -> string)
    ensures Calculate([Row(Number(1.0), Number(5.0)), Row(Number(1.0), Number(7.0))], numeral)
      == Outcome(Empty, Err(DuplicateX))
  {
    CalculateReportsDuplicate([Row(Number(1.0), Number(5.0)), Row(Number(1.0), Number(7.0))], numeral, 0, 1);
  }

  lemma {:induction false} SinglePointExample(numeral: real -> string)
    ensures Calculate([Row(Number(3.0), Number(4.0))], numeral) == Outcome(Empty, Err(TooFewPoints))
  {
    CalculateReportsTooFew([Row(Number(3.0), Number(4.0))], numeral);
  }

  lemma {:induction false} InvalidBeforeTooFewExample(numeral: real -> string)
    ensures Calculate([Row(Number(3.0), NotANumber)], numeral) == Outcome(Empty, Err(InvalidPoint(0)))
  {
    CalculateReportsFirstInvalid([Row(Number(3.0), NotANumber)], numeral, 0);
  }

  /**
    The samples (0, 1) and (1, 1) lie on the horizontal line y = 1. They
    store [1, 0], whose top coefficient is zero, so the program shows a
    blank and a joining sign after "P(x) = ".
   */
  lemma {:induction false} FlatLineExample(numeral: real -> string)
    ensures var o := Calculate([Row(Number(0.0), Number(1.0)), Row(Number(1.0), Number(1.0))], numeral);
      && o.slot == Stored([1.0, 0.0]) && o.shown.Ok?
      && o.shown.value.plain == "P(x) =  + " + numeral(1.0)
  {
    var rows := [Row(Number(0.0), Number(1.0)), Row(Number(1.0), Number(1.0))];
    ReadRowsOk(rows);
    var ps := ReadRows(rows).value;
    assert ps == [Point(0.0, 1.0), Point(1.0, 1.0)];
    TwoPointConstant();
    LeadingGapExample(numeral);
  }
}
