/**
  Rendering a coefficient vector as "P(x) = ..." text.

  Two renderings share one term-selection logic and differ only in how an
  exponent is written: plain text uses x^3, math markup uses x^{3}. Terms
  are visited from the highest index down to 0, coefficients whose magnitude
  is below 1e-10 are skipped, the magnitude 1 is not written in front of a
  power of x, and an all-skipped vector renders as "P(x) = 0".

  Turning a positive real into decimal text (six fixed decimals with the
  trailing zeros stripped) is a parameter `numeral` of the formatter.

  `FormatPolynomial` follows the program in deciding which term is "first"
  by its index (the top index n - 1); `FormatCorrected` decides it by
  being the first term emitted. They agree unless the top coefficient is
  negligible, in which case only the corrected form avoids output such as
  "P(x) =  + 1".
 */
module Format {

  /** Coefficients with magnitude strictly below this are not rendered. */
  const Threshold: real := 0.0000000001

  const Prefix: string := "P(x) = "

  datatype Style = Plain | Markup

  function Abs(r: real): (a: real)
    ensures 0.0 <= a && (a == r || a == -r)
  {
    if r < 0.0 then -r else r
  }

  predicate Negligible(r: real)
  {
    Abs(r) < Threshold
  }

  predicate AllNegligible(c: seq<real>)
  {
    forall i :: 0 <= i < |c| ==> Negligible(c[i])
  }

  function DigitChar(d: nat): (ch: char)
    requires d < 10
    ensures '0' <= ch <= '9'
  {
    "0123456789"[d]
  }

  /** Decimal text of a natural number, most significant digit first. */
  function Decimal(n: nat): (s: string)
    ensures |s| > 0
    ensures forall k :: 0 <= k < |s| ==> '0' <= s[k] <= '9'
  {
    if n < 10 then [DigitChar(n)] else Decimal(n / 10) + [DigitChar(n % 10)]
  }

  /** Exponent text: nothing up to degree 1, "^i" in plain text, "^{i}" in markup. */
  function Exponent(i: nat, style: Style): string
  {
    if i <= 1 then ""
    else match style
      case Plain => "^" + Decimal(i)
      case Markup => "^{" + Decimal(i) + "}"
  }

  /**
    The sign part: a leading term is prefixed "-" when negative and nothing
    otherwise; any other term is joined with " + " when positive and " - "
    otherwise.
   */
  function SignText(r: real, leading: bool): string
  {
    if leading then (if r < 0.0 then "-" else "")
    else if r > 0.0 then " + " else " - "
  }

  /** The numeral is left out for magnitude 1 in front of a power of x, never for the constant term. */
  function CoefficientText(r: real, i: nat, numeral: real -> string): string
  {
    if Abs(r) != 1.0 || i == 0 then numeral(Abs(r)) else ""
  }

  /**
    Every term of positive degree is written with x: the three branches of
    script.js:148-154 (and of script.js:202-208) all append "x", so they are
    one rule here.
   */
  function VariableText(i: nat, style: Style): string
  {
    if i > 0 then "x" + Exponent(i, style) else ""
  }

  function Term(r: real, i: nat, leading: bool, style: Style, numeral: real -> string): string
  {
    SignText(r, leading) + CoefficientText(r, i, numeral) + VariableText(i, style)
  }

  function Join(terms: seq<string>): (s: string)
    ensures |terms| > 0 ==> s == terms[0] + Join(terms[1..])
  {
    if |terms| == 0 then "" else terms[0] + Join(terms[1..])
  }

  /** The indices below `hi` whose coefficients are rendered, highest first. */
  function Kept(c: seq<real>, hi: nat): (ks: seq<nat>)
    requires hi <= |c|
    ensures forall m :: 0 <= m < |ks| ==> ks[m] < hi && !Negligible(c[ks[m]])
    ensures forall m, m' :: 0 <= m < m' < |ks| ==> ks[m] > ks[m']
  {
    if hi == 0 then []
    else if Negligible(c[hi - 1]) then Kept(c, hi - 1)
    else [hi - 1] + Kept(c, hi - 1)
  }

  /**
    The program's term list: one term per kept index, highest first, the
    term at the top index n - 1 counting as leading.
   */
  function Terms(c: seq<real>, style: Style, numeral: real -> string): (ts: seq<string>)
    ensures |ts| == |Kept(c, |c|)|
  {
    var ks := Kept(c, |c|);
    seq(|ks|, m requires 0 <= m < |ks| => Term(c[ks[m]], ks[m], ks[m] == |c| - 1, style, numeral))
  }

  /** The formatter as the program (script.js) writes it. */
  function FormatPolynomial(c: seq<real>, style: Style, numeral: real -> string): (s: string)
    ensures |s| >= |Prefix| && s[..|Prefix|] == Prefix
    ensures AllNegligible(c) ==> s == "P(x) = 0"
  {
    KeptEmptyIff(c, |c|);
    var terms := Terms(c, style, numeral);
    if |terms| == 0 then "P(x) = 0" else Prefix + Join(terms)
  }

  /** The corrected term list: as `Terms`, but the first emitted term counts as leading. */
  function TermsCorrected(c: seq<real>, style: Style, numeral: real -> string): (ts: seq<string>)
    ensures |ts| == |Kept(c, |c|)|
  {
    var ks := Kept(c, |c|);
    seq(|ks|, m requires 0 <= m < |ks| => Term(c[ks[m]], ks[m], m == 0, style, numeral))
  }

  /** The formatter with the leading term decided by emission order. */
  function FormatCorrected(c: seq<real>, style: Style, numeral: real -> string): (s: string)
    ensures |s| >= |Prefix| && s[..|Prefix|] == Prefix
    ensures AllNegligible(c) ==> s == "P(x) = 0"
  {
    KeptEmptyIff(c, |c|);
    var terms := TermsCorrected(c, style, numeral);
    if |terms| == 0 then "P(x) = 0" else Prefix + Join(terms)
  }

  // ---------------------------------------------------------------------
  // Term selection

  /** An index below `hi` is kept exactly when its coefficient is not negligible. */
  lemma {:induction false} KeptExactly(c: seq<real>, hi: nat, i: nat)
    requires i < hi <= |c|
    ensures i in Kept(c, hi) <==> !Negligible(c[i])
  {
    if i < hi - 1 {
      KeptExactly(c, hi - 1, i);
    }
  }

  /** After the highest kept index k come exactly the kept indices below k. */
  lemma {:induction false} KeptTail(c: seq<real>, hi: nat)
    requires hi <= |c| && |Kept(c, hi)| > 0
    ensures Kept(c, hi)[1..] == Kept(c, Kept(c, hi)[0])
  {
    if Negligible(c[hi - 1]) {
      KeptTail(c, hi - 1);
    }
  }

  /** Nothing is kept exactly when every coefficient is negligible. */
  lemma {:induction false} KeptEmptyIff(c: seq<real>, hi: nat)
    requires hi <= |c|
    ensures |Kept(c, hi)| == 0 <==> forall i :: 0 <= i < hi ==> Negligible(c[i])
  {
    if hi > 0 {
      KeptEmptyIff(c, hi - 1);
    }
  }

  /** The highest kept index is the top one exactly when the top coefficient is not negligible. */
  lemma {:induction false} KeptTop(c: seq<real>)
    requires |Kept(c, |c|)| > 0
    ensures Kept(c, |c|)[0] == |c| - 1 <==> !Negligible(c[|c| - 1])
  {
    if !Negligible(c[|c| - 1]) {
      assert Kept(c, |c|) == [|c| - 1] + Kept(c, |c| - 1);
    }
  }

  // ---------------------------------------------------------------------
  // What a single term looks like

  /** A numeral renderer whose text for a positive magnitude is nonempty and starts with a digit. */
  ghost predicate DigitLed(numeral: real -> string)
  {
    forall r :: 0.0 < r ==> |numeral(r)| > 0 && '0' <= numeral(r)[0] <= '9'
  }

  /** The characters that may open a rendered polynomial: a minus sign, a digit or x. */
  predicate Opener(ch: char)
  {
    ch == '-' || ch == 'x' || '0' <= ch <= '9'
  }

  /** Positions inside a three-part concatenation. */
  lemma {:induction false} ThreeParts(a: string, b: string, c: string)
    ensures var t := a + b + c;
      && |t| == |a| + |b| + |c|
      && (forall k :: 0 <= k < |a| ==> t[k] == a[k])
      && (forall k :: 0 <= k < |b| ==> t[|a| + k] == b[k])
      && t[|t| - |c|..] == c
  {
  }

  lemma {:induction false} Regroup(a: string, b: string, c: string, d: string)
    ensures a + b + (c + d) == (a + b + c) + d
  {
  }

  /**
    Where the sign ends: a leading term's sign is "" or "-" by the
    coefficient's sign, so the term opens with '-', a digit or x; any other
    term opens with " + " or " - ".
   */
  lemma {:induction false} TermSignRule(r: real, i: nat, leading: bool, style: Style, numeral: real -> string)
    requires !Negligible(r) && DigitLed(numeral)
    ensures var t := Term(r, i, leading, style, numeral);
      && |t| > 0
      && (leading ==> (t[0] == '-' <==> r < 0.0) && Opener(t[0]))
      && (!leading ==> |t| >= 3 && t[..3] == (if r > 0.0 then " + " else " - "))
  {
    var sign := SignText(r, leading);
    var coef := CoefficientText(r, i, numeral);
    var variable := VariableText(i, style);
    ThreeParts(sign, coef, variable);
    assert Abs(r) > 0.0;
    var first := if Abs(r) != 1.0 || i == 0 then numeral(Abs(r))[0] else 'x';
    if Abs(r) != 1.0 || i == 0 {
      assert coef == numeral(Abs(r)) && |coef| > 0 && coef[0] == first;
    } else {
      assert coef == "" && i > 0 && variable[0] == first;
    }
    assert (sign + coef + variable)[|sign|] == first;
  }

  /** Right after the sign comes 'x' exactly when the numeral is left out: magnitude 1 at positive degree. */
  lemma {:induction false} TermNumeralRule(r: real, i: nat, leading: bool, style: Style, numeral: real -> string)
    requires !Negligible(r) && DigitLed(numeral)
    ensures var t := Term(r, i, leading, style, numeral);
      var n := |SignText(r, leading)|;
      n < |t| && (t[n] == 'x' <==> Abs(r) == 1.0 && i > 0)
  {
    var sign := SignText(r, leading);
    var coef := CoefficientText(r, i, numeral);
    var variable := VariableText(i, style);
    ThreeParts(sign, coef, variable);
    assert Abs(r) > 0.0;
    if Abs(r) != 1.0 || i == 0 {
      assert coef == numeral(Abs(r)) && |coef| > 0 && '0' <= coef[0] <= '9';
      assert (sign + coef + variable)[|sign|] == coef[0];
    } else {
      assert coef == "" && variable[0] == 'x';
      assert (sign + coef + variable)[|sign|] == variable[0];
    }
  }

  /** A constant term ends with the numeral of its magnitude. */
  lemma {:induction false} TermDegreeZero(r: real, leading: bool, style: Style, numeral: real -> string)
    ensures var t := Term(r, 0, leading, style, numeral);
      |t| >= |numeral(Abs(r))| && t[|t| - |numeral(Abs(r))|..] == numeral(Abs(r))
  {
    var sign := SignText(r, leading);
    var coef := CoefficientText(r, 0, numeral);
    assert VariableText(0, style) == "";
    assert sign + coef + "" == sign + coef;
    assert (sign + coef)[|sign|..] == coef;
  }

  /** A degree-1 term ends with a bare x. */
  lemma {:induction false} TermDegreeOne(r: real, leading: bool, style: Style, numeral: real -> string)
    ensures var t := Term(r, 1, leading, style, numeral);
      |t| > 0 && t[|t| - 1] == 'x'
  {
    assert VariableText(1, style) == "x";
  }

  /** Above degree 1 a term ends with x followed by the style's exponent. */
  lemma {:induction false} TermDegreeHigher(r: real, i: nat, leading: bool, style: Style, numeral: real -> string)
    requires i > 1
    ensures var t := Term(r, i, leading, style, numeral);
      |t| > |Exponent(i, style)| && t[|t| - |Exponent(i, style)| - 1..] == "x" + Exponent(i, style)
  {
    var sign := SignText(r, leading);
    var coef := CoefficientText(r, i, numeral);
    var variable := VariableText(i, style);
    assert variable == "x" + Exponent(i, style);
    assert (sign + coef + variable)[|sign + coef|..] == variable;
  }

  /**
    The two renderings share everything but the exponent: up to degree 1
    they are identical, and above it both are the same stem ending in x,
    followed by ^i in plain text and by ^{i} in markup.
   */
  lemma {:induction false} StylesShareStem(r: real, i: nat, leading: bool, numeral: real -> string)
    ensures i <= 1 ==> Term(r, i, leading, Plain, numeral) == Term(r, i, leading, Markup, numeral)
    ensures i > 1 ==>
      var stem := SignText(r, leading) + CoefficientText(r, i, numeral) + "x";
      && Term(r, i, leading, Plain, numeral) == stem + ("^" + Decimal(i))
      && Term(r, i, leading, Markup, numeral) == stem + ("^{" + Decimal(i) + "}")
  {
    var sign := SignText(r, leading);
    var coef := CoefficientText(r, i, numeral);
    if i > 1 {
      assert VariableText(i, Plain) == "x" + ("^" + Decimal(i));
      assert VariableText(i, Markup) == "x" + ("^{" + Decimal(i) + "}");
      Regroup(sign, coef, "x", "^" + Decimal(i));
      Regroup(sign, coef, "x", "^{" + Decimal(i) + "}");
    }
  }

  /**
    The two renderings of a whole polynomial, term by term: at kept degree
    0 or 1 the plain and markup terms are the same text, and above it both
    are one stem ending in x, followed by ^i in plain text and ^{i} in markup.
   */
  lemma {:induction false} TermsShareStem(c: seq<real>, numeral: real -> string, m: nat)
    requires m < |Kept(c, |c|)|
    ensures var k := Kept(c, |c|)[m];
      var plain := Terms(c, Plain, numeral)[m];
      var markup := Terms(c, Markup, numeral)[m];
      && (k <= 1 ==> plain == markup)
      && (k > 1 ==>
        var stem := SignText(c[k], k == |c| - 1) + CoefficientText(c[k], k, numeral) + "x";
        plain == stem + ("^" + Decimal(k)) && markup == stem + ("^{" + Decimal(k) + "}"))
  {
    var k := Kept(c, |c|)[m];
    StylesShareStem(c[k], k, k == |c| - 1, numeral);
  }

  /** A polynomial with no rendered term above degree 1 gives the same text in both styles. */
  lemma {:induction false} StylesAgreeUpToLinear(c: seq<real>, numeral: real -> string)
    requires forall i :: 1 < i < |c| ==> Negligible(c[i])
    ensures FormatPolynomial(c, Plain, numeral) == FormatPolynomial(c, Markup, numeral)
  {
    var ks := Kept(c, |c|);
    forall m | 0 <= m < |ks|
      ensures Terms(c, Plain, numeral)[m] == Terms(c, Markup, numeral)[m]
    {
      TermsShareStem(c, numeral, m);
    }
  }

  // ---------------------------------------------------------------------
  // Whole-polynomial properties

  lemma {:induction false} JoinFirst(terms: seq<string>)
    requires |terms| > 0
    ensures |Join(terms)| >= |terms[0]| && Join(terms)[..|terms[0]|] == terms[0]
  {
  }

  lemma {:induction false} PrefixCancel(a: string, b: string)
    ensures Prefix + a == Prefix + b <==> a == b
  {
    if Prefix + a == Prefix + b {
      assert (Prefix + a)[|Prefix|..] == a;
      assert (Prefix + b)[|Prefix|..] == b;
    }
  }

  /**
    The program's formatter prints exactly "P(x) = 0" when every coefficient
    is negligible, and otherwise only for a single positive coefficient
    whose numeral text is "0" (a value too small for six decimals).
   */
  lemma {:induction false} FormatZeroIff(c: seq<real>, style: Style, numeral: real -> string)
    ensures FormatPolynomial(c, style, numeral) == "P(x) = 0" <==>
      AllNegligible(c) || (|c| == 1 && c[0] > 0.0 && numeral(c[0]) == "0")
  {
    var terms := Terms(c, style, numeral);
    var ks := Kept(c, |c|);
    KeptEmptyIff(c, |c|);
    if |terms| > 0 {
      var joined := Join(terms);
      assert FormatPolynomial(c, style, numeral) == Prefix + joined;
      assert "P(x) = 0" == Prefix + "0";
      PrefixCancel(joined, "0");
      var k := ks[0];
      assert terms[0] == Term(c[k], k, k == |c| - 1, style, numeral);
      assert joined == terms[0] + Join(terms[1..]);
      if k == 0 {
        KeptTail(c, |c|);
        assert |ks| == 1 && terms[1..] == [];
      }
      if joined == "0" {
        OnlyBareNumeralIsZero(c[k], k, k == |c| - 1, style, numeral, Join(terms[1..]));
      }
      if |c| == 1 && c[0] > 0.0 && numeral(c[0]) == "0" {
        assert k == 0 && Abs(c[0]) == c[0];
        assert Term(c[0], 0, true, style, numeral) == "" + "0" + "";
        assert joined == "0" + Join([]);
      }
    }
  }

  /** A rendered term, followed by anything, spells "0" only as the bare numeral of a positive leading constant. */
  lemma {:induction false} OnlyBareNumeralIsZero(r: real, k: nat, leading: bool, style: Style, numeral: real -> string, rest: string)
    requires !Negligible(r) && (k == 0 ==> rest == "")
    ensures Term(r, k, leading, style, numeral) + rest == "0" ==>
      leading && k == 0 && r > 0.0 && numeral(r) == "0" && rest == ""
  {
    var sign := SignText(r, leading);
    var coef := CoefficientText(r, k, numeral);
    var variable := VariableText(k, style);
    var s := sign + coef + variable + rest;
    assert s == Term(r, k, leading, style, numeral) + rest;
    if |sign| > 0 {
      assert s[0] == sign[0] != '0';
    } else if |coef| > 0 {
      assert leading && r > 0.0;
      if k == 0 {
        assert s == coef && coef == numeral(r);
      } else {
        assert |s| > |coef|;
      }
    } else if k > 0 {
      assert s[0] == variable[0] == 'x';
    } else {
      assert s == "";
    }
  }

  /**
    When the top coefficient is negligible but some other one is not, the
    program's formatter opens with a joining sign after a blank:
    "P(x) =  + ..." or "P(x) =  - ...".
   */
  lemma {:induction false} LeadingGapAsWritten(c: seq<real>, style: Style, numeral: real -> string)
    requires |c| >= 1 && Negligible(c[|c| - 1]) && !AllNegligible(c)
    ensures var out := FormatPolynomial(c, style, numeral);
      |out| >= 10 && (out[..10] == "P(x) =  + " || out[..10] == "P(x) =  - ")
  {
    var terms := Terms(c, style, numeral);
    var ks := Kept(c, |c|);
    KeptEmptyIff(c, |c|);
    KeptTop(c);
    var k := ks[0];
    assert terms[0] == Term(c[k], k, false, style, numeral);
    NonLeadingOpens(c[k], k, style, numeral);
    JoinOpens(terms, 3);
    PrefixOpens(Join(terms));
    assert FormatPolynomial(c, style, numeral) == Prefix + Join(terms);
  }

  /** A term that is not leading opens with its joining sign. */
  lemma {:induction false} NonLeadingOpens(r: real, k: nat, style: Style, numeral: real -> string)
    ensures var t := Term(r, k, false, style, numeral);
      |t| >= 3 && (t[..3] == " + " || t[..3] == " - ")
  {
    var sign := SignText(r, false);
    assert (sign + CoefficientText(r, k, numeral) + VariableText(k, style))[..3] == sign;
  }

  lemma {:induction false} JoinOpens(terms: seq<string>, n: nat)
    requires |terms| > 0 && |terms[0]| >= n
    ensures |Join(terms)| >= n && Join(terms)[..n] == terms[0][..n]
  {
    JoinFirst(terms);
  }

  lemma {:induction false} PrefixOpens(s: string)
    requires |s| >= 3
    ensures |Prefix + s| >= 10
    ensures s[..3] == " + " ==> (Prefix + s)[..10] == "P(x) =  + "
    ensures s[..3] == " - " ==> (Prefix + s)[..10] == "P(x) =  - "
  {
    assert (Prefix + s)[..10] == Prefix + s[..3];
  }

  /** The constant polynomial 1 stored as [1, 0] renders with a stray joining sign. */
  lemma {:induction false} LeadingGapExample(numeral: real -> string)
    ensures FormatPolynomial([1.0, 0.0], Plain, numeral) == "P(x) =  + " + numeral(1.0)
  {
    var c := [1.0, 0.0];
    assert !Negligible(c[0]) && Negligible(c[1]);
    assert Kept(c, 1) == [0] + Kept(c, 0);
    assert Kept(c, 2) == [0];
    assert Term(1.0, 0, false, Plain, numeral) == " + " + numeral(1.0) + "";
    assert " + " + numeral(1.0) + "" == " + " + numeral(1.0);
    assert Terms(c, Plain, numeral)[0] == Term(c[0], 0, false, Plain, numeral);
    assert Terms(c, Plain, numeral) == [" + " + numeral(1.0)];
    assert Join([" + " + numeral(1.0)]) == " + " + numeral(1.0) + Join([]);
  }

  /**
    The corrected formatter never leaves a blank right after "P(x) = ": the
    first rendered term starts with '-', a digit or x, and a vector with no
    rendered term gives the digit of "P(x) = 0".
   */
  lemma {:induction false} CorrectedNoGap(c: seq<real>, style: Style, numeral: real -> string)
    requires DigitLed(numeral)
    ensures var out := FormatCorrected(c, style, numeral);
      |out| > |Prefix| && out[..|Prefix|] == Prefix && Opener(out[|Prefix|])
  {
    var terms := TermsCorrected(c, style, numeral);
    var out := FormatCorrected(c, style, numeral);
    if |terms| == 0 {
      assert out == Prefix + "0";
    } else {
      var k := Kept(c, |c|)[0];
      assert terms[0] == Term(c[k], k, true, style, numeral);
      TermSignRule(c[k], k, true, style, numeral);
      JoinFirst(terms);
      assert out == Prefix + Join(terms);
      assert out[|Prefix|] == terms[0][0];
    }
  }

  /**
    The corrected formatter prints exactly what the program prints unless
    the top coefficient is negligible while some other one is not.
   */
  lemma {:induction false} CorrectedMatchesProgramIff(c: seq<real>, style: Style, numeral: real -> string)
    requires DigitLed(numeral)
    ensures FormatCorrected(c, style, numeral) == FormatPolynomial(c, style, numeral) <==>
      AllNegligible(c) || !Negligible(c[|c| - 1])
  {
    if AllNegligible(c) {
      SameWhenNothingKept(c, style, numeral);
    } else if !Negligible(c[|c| - 1]) {
      SameWhenTopKept(c, style, numeral);
    } else {
      DifferentOnGap(c, style, numeral);
    }
  }

  lemma {:induction false} SameWhenNothingKept(c: seq<real>, style: Style, numeral: real -> string)
    requires AllNegligible(c)
    ensures FormatCorrected(c, style, numeral) == FormatPolynomial(c, style, numeral) == "P(x) = 0"
  {
    KeptEmptyIff(c, |c|);
  }

  /** With the top coefficient kept, the first emitted term is exactly the one at the top index. */
  lemma {:induction false} SameWhenTopKept(c: seq<real>, style: Style, numeral: real -> string)
    requires |c| > 0 && !Negligible(c[|c| - 1])
    ensures TermsCorrected(c, style, numeral) == Terms(c, style, numeral)
  {
    var ks := Kept(c, |c|);
    assert ks == [|c| - 1] + Kept(c, |c| - 1);
    forall m | 0 <= m < |ks|
      ensures TermsCorrected(c, style, numeral)[m] == Terms(c, style, numeral)[m]
    {
      if m > 0 {
        assert ks[m] < ks[0];
      }
    }
  }

  lemma {:induction false} DifferentOnGap(c: seq<real>, style: Style, numeral: real -> string)
    requires DigitLed(numeral)
    requires |c| > 0 && Negligible(c[|c| - 1]) && !AllNegligible(c)
    ensures FormatCorrected(c, style, numeral) != FormatPolynomial(c, style, numeral)
  {
    LeadingGapAsWritten(c, style, numeral);
    CorrectedNoGap(c, style, numeral);
    var out := FormatPolynomial(c, style, numeral);
    var good := FormatCorrected(c, style, numeral);
    assert out[|Prefix|] == out[..10][|Prefix|] == ' ';
    assert !Opener(out[|Prefix|]) && Opener(good[|Prefix|]);
  }

  // ---------------------------------------------------------------------
  // Examples

  lemma {:induction false} LineRendering(numeral: real -> string)
    ensures FormatPolynomial([0.0, 2.0], Plain, numeral) == "P(x) = " + numeral(2.0) + "x"
  {
    var c := [0.0, 2.0];
    assert Negligible(c[0]) && !Negligible(c[1]);
    assert Kept(c, 1) == [];
    assert Kept(c, 2) == [1];
    assert Term(2.0, 1, true, Plain, numeral) == "" + numeral(2.0) + "x";
    assert "" + numeral(2.0) + "x" == numeral(2.0) + "x";
    assert Terms(c, Plain, numeral)[0] == Term(c[1], 1, true, Plain, numeral);
    assert Terms(c, Plain, numeral) == [numeral(2.0) + "x"];
    assert Join([numeral(2.0) + "x"]) == numeral(2.0) + "x" + Join([]);
  }

  lemma {:induction false} QuadraticKept()
    ensures Kept([1.0, 0.0, 1.0], 3) == [2, 0]
  {
    var c := [1.0, 0.0, 1.0];
    assert !Negligible(c[0]) && Negligible(c[1]) && !Negligible(c[2]);
    assert Kept(c, 1) == [0] + Kept(c, 0);
    assert Kept(c, 2) == [0];
  }

  lemma {:induction false} UnitTerms(style: Style, numeral: real -> string)
    ensures Term(1.0, 0, false, style, numeral) == " + " + numeral(1.0)
    ensures Term(1.0, 2, true, style, numeral) == VariableText(2, style)
  {
    assert Term(1.0, 0, false, style, numeral) == " + " + numeral(1.0) + "";
    assert " + " + numeral(1.0) + "" == " + " + numeral(1.0);
    assert Term(1.0, 2, true, style, numeral) == "" + "" + VariableText(2, style);
    assert "" + "" + VariableText(2, style) == VariableText(2, style);
  }

  lemma {:induction false} QuadraticTerms(style: Style, numeral: real -> string)
    ensures Terms([1.0, 0.0, 1.0], style, numeral) == [VariableText(2, style), " + " + numeral(1.0)]
  {
    var c := [1.0, 0.0, 1.0];
    QuadraticKept();
    UnitTerms(style, numeral);
    var ts := Terms(c, style, numeral);
    assert ts[0] == Term(c[2], 2, true, style, numeral);
    assert ts[1] == Term(c[0], 0, false, style, numeral);
  }

  lemma {:induction false} QuadraticIn(style: Style, numeral: real -> string)
    ensures FormatPolynomial([1.0, 0.0, 1.0], style, numeral) == Prefix + VariableText(2, style) + " + " + numeral(1.0)
  {
    QuadraticTerms(style, numeral);
    FormatTwoTerms([1.0, 0.0, 1.0], style, numeral, VariableText(2, style), " + " + numeral(1.0));
  }

  /** A polynomial with exactly two rendered terms prints them one after the other. */
  lemma {:induction false} FormatTwoTerms(c: seq<real>, style: Style, numeral: real -> string, a: string, b: string)
    requires Terms(c, style, numeral) == [a, b]
    ensures FormatPolynomial(c, style, numeral) == Prefix + a + b
  {
    assert Join([a, b]) == a + (b + Join([]));
  }

  lemma {:induction false} DecimalTwo()
    ensures Decimal(2) == "2"
  {
  }

  /** The text in front of the constant's numeral in the two renderings of x^2 + 1. */
  lemma {:induction false} QuadraticHead()
    ensures Prefix + VariableText(2, Plain) + " + " == "P(x) = x^2 + "
    ensures Prefix + VariableText(2, Markup) + " + " == "P(x) = x^{2} + "
  {
    SquareText();
  }

  lemma {:induction false} SquareText()
    ensures VariableText(2, Plain) == "x^2"
    ensures VariableText(2, Markup) == "x^{2}"
  {
    DecimalTwo();
  }

  lemma {:induction false} QuadraticRendering(numeral: real -> string)
    ensures FormatPolynomial([1.0, 0.0, 1.0], Plain, numeral) == "P(x) = x^2 + " + numeral(1.0)
    ensures FormatPolynomial([1.0, 0.0, 1.0], Markup, numeral) == "P(x) = x^{2} + " + numeral(1.0)
  {
    QuadraticPlain(numeral);
    QuadraticMarkup(numeral);
  }

  lemma {:induction false} QuadraticPlain(numeral: real -> string)
    ensures FormatPolynomial([1.0, 0.0, 1.0], Plain, numeral) == "P(x) = x^2 + " + numeral(1.0)
  {
    QuadraticIn(Plain, numeral);
    QuadraticHead();
  }

  lemma {:induction false} QuadraticMarkup(numeral: real -> string)
    ensures FormatPolynomial([1.0, 0.0, 1.0], Markup, numeral) == "P(x) = x^{2} + " + numeral(1.0)
  {
    QuadraticIn(Markup, numeral);
    QuadraticHead();
  }
}
