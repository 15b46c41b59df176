/** Solving scale and bias from (raw value, displayed value) samples: the least-squares line, over the reals. */
module Calibration {
  import opened Reals
  import opened Wrappers

  datatype Point = Point(x: real, y: real)

  datatype Fit = Fit(scale: real, bias: real, r2: real, n: nat)

  function Square(v: real): real {
    Times(v, v)
  }

  function SumX(s: seq<Point>): real {
    if s == [] then 0.0 else s[0].x + SumX(s[1..])
  }

  function SumY(s: seq<Point>): real {
    if s == [] then 0.0 else s[0].y + SumY(s[1..])
  }

  /** The sum of (x - mx)(x - mx). */
  function SpreadX(s: seq<Point>, mx: real): real {
    if s == [] then 0.0 else Square(s[0].x - mx) + SpreadX(s[1..], mx)
  }

  function SpreadXY(s: seq<Point>, mx: real, my: real): real {
    if s == [] then 0.0 else Times(s[0].x - mx, s[0].y - my) + SpreadXY(s[1..], mx, my)
  }

  function SpreadY(s: seq<Point>, my: real): real {
    if s == [] then 0.0 else Square(s[0].y - my) + SpreadY(s[1..], my)
  }

  /** The sum of squared errors of a line. */
  function Errors(s: seq<Point>, scale: real, bias: real): real {
    if s == [] then 0.0 else Square(s[0].y - (scale * s[0].x + bias)) + Errors(s[1..], scale, bias)
  }

  function RawValues(s: seq<Point>): set<real> {
    set i | 0 <= i < |s| :: s[i].x
  }

  /** The raw values then differ, so their spread is never zero (see NoneIffTooFewRawValues). */
  function SolveLinear(s: seq<Point>): Option<Fit> {
    var n := |s|;
    if n < 2 || |RawValues(s)| < 2 then None
    else
      var mx := SumX(s) / n as real;
      var my := SumY(s) / n as real;
      var sxx := SpreadX(s, mx);
      if sxx == 0.0 then None
      else
        var scale := SpreadXY(s, mx, my) / sxx;
        var bias := my - scale * mx;
        var ssRes := Errors(s, scale, bias);
        var spread := SpreadY(s, my);
        var ssTot := if spread == 0.0 then 0.000000000001 else spread;
        Some(Fit(scale, bias, 1.0 - ssRes / ssTot, n))
  }

  // ---- squares --------------------------------------------------------- //

  lemma PositiveTimes(a: real, b: real)
    requires a > 0.0 && b > 0.0
    ensures Times(a, b) > 0.0
  {
  }

  lemma NegatedTimes(a: real, b: real)
    ensures Times(-a, -b) == Times(a, b)
  {
  }

  lemma SquareOfZero(v: real)
    ensures v == 0.0 ==> Square(v) == 0.0
  {
  }

  lemma SquareSign(v: real)
    ensures Square(v) >= 0.0 && (Square(v) == 0.0 <==> v == 0.0)
  {
    hide Times;
    SquareOfZero(v);
    if v > 0.0 {
      PositiveTimes(v, v);
    } else if v < 0.0 {
      PositiveTimes(-v, -v);
      NegatedTimes(v, v);
    }
  }

  lemma {:induction false} SpreadXSign(s: seq<Point>, mx: real)
    ensures SpreadX(s, mx) >= 0.0
    ensures SpreadX(s, mx) == 0.0 <==> forall i | 0 <= i < |s| :: s[i].x == mx
  {
    hide Square;
    if s != [] {
      SquareSign(s[0].x - mx);
      SpreadXSign(s[1..], mx);
      assert forall i | 0 < i < |s| :: s[i] == s[1..][i - 1];
      assert forall i | 0 <= i < |s[1..]| :: s[1..][i] == s[i + 1];
    }
  }

  lemma {:induction false} SpreadYSign(s: seq<Point>, my: real)
    ensures SpreadY(s, my) >= 0.0
  {
    hide Square;
    if s != [] {
      SquareSign(s[0].y - my);
      SpreadYSign(s[1..], my);
    }
  }

  /** All samples lie on this line. */
  ghost predicate OnLine(s: seq<Point>, scale: real, bias: real) {
    forall i | 0 <= i < |s| :: s[i].y == scale * s[i].x + bias
  }

  lemma EmptyOnLine(scale: real, bias: real)
    ensures OnLine([], scale, bias)
  {
  }

  lemma OnLineSplits(s: seq<Point>, scale: real, bias: real)
    requires s != []
    ensures OnLine(s, scale, bias) <==> s[0].y - (scale * s[0].x + bias) == 0.0 && OnLine(s[1..], scale, bias)
  {
    var t := s[1..];
    forall i | 0 < i < |s| ensures s[i] == t[i - 1] {}
    if OnLine(s, scale, bias) {
      forall i | 0 <= i < |t| ensures t[i].y == scale * t[i].x + bias {
        assert t[i] == s[i + 1];
      }
    }
  }

  /** The errors of a line are never negative, and vanish exactly when the samples lie on it. */
  lemma {:induction false} ErrorsSign(s: seq<Point>, scale: real, bias: real)
    ensures Errors(s, scale, bias) >= 0.0
    ensures Errors(s, scale, bias) == 0.0 <==> OnLine(s, scale, bias)
  {
    hide Square, OnLine;
    if s == [] {
      EmptyOnLine(scale, bias);
    } else {
      SquareSign(s[0].y - (scale * s[0].x + bias));
      ErrorsSign(s[1..], scale, bias);
      OnLineSplits(s, scale, bias);
    }
  }

  // ---- when there is an answer ----------------------------------------- //

  ghost predicate TwoRawValues(s: seq<Point>) {
    exists i, j | 0 <= i < |s| && 0 <= j < |s| :: s[i].x != s[j].x
  }

  lemma TwoElements(r: set<real>, x: real, y: real)
    requires x in r && y in r && x != y
    ensures |r| >= 2
  {
    var rest := r - {x};
    assert y in rest;
    assert |r| == |rest| + 1;
  }

  lemma FewRawValues(s: seq<Point>)
    ensures |RawValues(s)| >= 2 <==> TwoRawValues(s)
  {
    if TwoRawValues(s) {
      var i, j :| 0 <= i < |s| && 0 <= j < |s| && s[i].x != s[j].x;
      TwoElements(RawValues(s), s[i].x, s[j].x);
    } else if s != [] {
      assert RawValues(s) == {s[0].x};
    } else {
      assert RawValues(s) == {};
    }
  }

  /** There is no answer exactly when fewer than two distinct raw values were sampled. */
  lemma NoneIffTooFewRawValues(s: seq<Point>)
    ensures SolveLinear(s).None? <==> !TwoRawValues(s)
  {
    hide RawValues, SpreadX, SpreadY, SpreadXY, Errors;
    FewRawValues(s);
    if TwoRawValues(s) {
      SpreadXSign(s, SumX(s) / |s| as real);
    }
  }

  // ---- the errors of any line, expanded -------------------------------- //

  lemma TimesDistributes(k: real, a: real, b: real)
    ensures Times(k, a + b) == Times(k, a) + Times(k, b)
    ensures Times(a + b, k) == Times(a, k) + Times(b, k)
  {
  }

  lemma TimesAssociates(a: real, b: real, c: real)
    ensures Times(Times(a, b), c) == Times(a, Times(b, c)) == Times(b, Times(a, c))
    ensures Times(a, b) == Times(b, a)
  {
    assert (a * b) * c == a * (b * c);
    assert (b * a) * c == b * (a * c);
  }

  lemma SquareOfDifference(v: real, w: real, d: real)
    ensures Square(v - w - d)
         == Square(v) + Square(w) + Square(d) - 2.0 * Times(w, v) - 2.0 * Times(d, v) + 2.0 * Times(w, d)
  {
  }

  lemma SquareOfProduct(a: real, u: real)
    ensures Square(Times(a, u)) == Times(Square(a), Square(u))
  {
    assert (a * u) * (a * u) == (a * a) * (u * u);
  }

  /** The offset of a line from the centre of the samples. */
  function OffCentre(mx: real, my: real, a: real, b: real): real {
    b - my + Times(a, mx)
  }

  /** One sample's contribution to the errors, expanded around the point (mx, my). */
  lemma ExpandOne(x: real, y: real, mx: real, my: real, a: real, b: real)
    ensures var d := OffCentre(mx, my, a, b);
            Square(y - (a * x + b))
            == Square(y - my) - 2.0 * Times(a, Times(x - mx, y - my)) + Times(Square(a), Square(x - mx)) + Square(d)
               - 2.0 * Times(d, y - my) + 2.0 * Times(Times(a, d), x - mx)
  {
    var d := OffCentre(mx, my, a, b);
    var u, v := x - mx, y - my;
    assert y - (a * x + b) == v - Times(a, u) - d by {
      assert a * x == a * u + a * mx;
    }
    hide Times, Square;
    SquareOfDifference(v, Times(a, u), d);
    SquareOfProduct(a, u);
    TimesAssociates(a, u, v);
    TimesAssociates(a, u, d);
    TimesAssociates(a, d, u);
    TimesAssociates(u, d, a);
    assert Times(Times(a, u), d) == Times(Times(a, d), u) by {
      TimesAssociates(a, u, d);
      TimesAssociates(a, d, u);
      TimesAssociates(u, d, 1.0);
    }
  }

  lemma {:induction false} ExpandErrors(s: seq<Point>, mx: real, my: real, a: real, b: real)
    ensures var d := OffCentre(mx, my, a, b);
            var n := |s| as real;
            Errors(s, a, b)
            == SpreadY(s, my) - 2.0 * Times(a, SpreadXY(s, mx, my)) + Times(Square(a), SpreadX(s, mx)) + Times(n, Square(d))
               - 2.0 * Times(d, SumY(s) - Times(n, my)) + 2.0 * Times(Times(a, d), SumX(s) - Times(n, mx))
  {
    hide Square, Times, OffCentre;
    var d := OffCentre(mx, my, a, b);
    if s == [] {
      assert |s| as real == 0.0;
      NothingToSum(a, d, mx, my);
    } else {
      var x, y, t := s[0].x, s[0].y, s[1..];
      var m := |t| as real;
      ExpandErrors(t, mx, my, a, b);
      ExpandOne(x, y, mx, my, a, b);
      TimesDistributes(a, Times(x - mx, y - my), SpreadXY(t, mx, my));
      TimesDistributes(Square(a), Square(x - mx), SpreadX(t, mx));
      assert |s| as real == 1.0 + m;
      OneMore(m, Square(d));
      OneMore(m, my);
      OneMore(m, mx);
      TimesDistributes(d, y - my, SumY(t) - Times(m, my));
      TimesDistributes(Times(a, d), x - mx, SumX(t) - Times(m, mx));
    }
  }

  lemma OneMore(m: real, k: real)
    ensures Times(1.0 + m, k) == k + Times(m, k)
  {
  }

  lemma NothingToSum(a: real, d: real, mx: real, my: real)
    ensures Times(a, 0.0) == Times(Square(a), 0.0) == Times(0.0, Square(d)) == 0.0
    ensures Times(d, 0.0 - Times(0.0, my)) == Times(Times(a, d), 0.0 - Times(0.0, mx)) == 0.0
  {
  }

  // ---- the least-squares line ------------------------------------------ //

  lemma TimesSign(a: real, b: real)
    requires a >= 0.0 && b > 0.0
    ensures Times(a, b) >= 0.0 && (Times(a, b) == 0.0 <==> a == 0.0)
  {
    if a > 0.0 {
      PositiveTimes(a, b);
    }
  }

  lemma TimesQuotient(n: real, v: real)
    requires n != 0.0
    ensures Times(n, v / n) == v && Times(v / n, n) == v
  {
  }

  lemma ZeroTimes(v: real)
    ensures Times(v, 0.0) == 0.0
  {
  }

  /** With sxx the spread of x and `best` the quotient, any slope costs its squared distance from `best` times sxx. */
  lemma SlopeCost(a: real, best: real, sxx: real, sxy: real)
    requires Times(best, sxx) == sxy
    ensures Times(Square(a), sxx) - 2.0 * Times(a, sxy) == Times(Square(a - best), sxx) - Times(best, sxy)
  {
    assert Square(a - best) == Square(a) - 2.0 * Times(a, best) + Square(best);
    assert Times(Square(best), sxx) == Times(best, sxy) by { TimesAssociates(best, best, sxx); }
    assert Times(Times(a, best), sxx) == Times(a, sxy) by { TimesAssociates(a, best, sxx); }
    hide Times, Square;
    SplitTimes(Square(a), Times(a, best), Square(best), sxx);
  }

  lemma SplitTimes(p: real, q: real, r: real, k: real)
    ensures Times(p - 2.0 * q + r, k) == Times(p, k) - 2.0 * Times(q, k) + Times(r, k)
  {
  }

  function MeanX(s: seq<Point>): real
    requires s != []
  {
    SumX(s) / |s| as real
  }

  function MeanY(s: seq<Point>): real
    requires s != []
  {
    SumY(s) / |s| as real
  }

  /** Around the centre of the samples the linear terms vanish. */
  lemma CentredErrors(s: seq<Point>, a: real, b: real)
    requires s != []
    ensures var mx, my := MeanX(s), MeanY(s);
            Errors(s, a, b) == SpreadY(s, my) - 2.0 * Times(a, SpreadXY(s, mx, my)) + Times(Square(a), SpreadX(s, mx))
                               + Times(|s| as real, Square(OffCentre(mx, my, a, b)))
  {
    hide Times, Square, OffCentre;
    var mx, my, d := MeanX(s), MeanY(s), OffCentre(MeanX(s), MeanY(s), a, b);
    ExpandErrors(s, mx, my, a, b);
    TimesQuotient(|s| as real, SumX(s));
    TimesQuotient(|s| as real, SumY(s));
    ZeroTimes(d);
    ZeroTimes(Times(a, d));
  }

  /** Any line costs the fit's errors plus two squares: one for its slope, one for its offset. */
  lemma ErrorsAboveFit(s: seq<Point>, a: real, b: real)
    requires TwoRawValues(s) && SolveLinear(s).Some?
    ensures var fit := SolveLinear(s).value;
            var mx, my := MeanX(s), MeanY(s);
            SpreadX(s, mx) > 0.0
            && Errors(s, a, b) == Errors(s, fit.scale, fit.bias) + Times(Square(a - fit.scale), SpreadX(s, mx))
                                  + Times(|s| as real, Square(OffCentre(mx, my, a, b)))
            && fit.bias == my - fit.scale * mx
  {
    hide RawValues, SpreadX, SpreadY, SpreadXY, Errors, SumX, SumY;
    var fit := SolveLinear(s).value;
    var mx, my := MeanX(s), MeanY(s);
    var sxx, sxy := SpreadX(s, mx), SpreadXY(s, mx, my);
    SpreadXSign(s, mx);
    assert OffCentre(mx, my, fit.scale, fit.bias) == 0.0;
    hide Times, Square, OffCentre;
    TimesQuotient(sxx, sxy);
    SlopeCost(a, fit.scale, sxx, sxy);
    SlopeCost(fit.scale, fit.scale, sxx, sxy);
    CentredErrors(s, a, b);
    CentredErrors(s, fit.scale, fit.bias);
    SquareSign(0.0);
    SquareSign(fit.scale - fit.scale);
    ZeroTimes(|s| as real);
    ZeroTimes(sxx);
    TimesAssociates(0.0, sxx, 1.0);
  }

  lemma OffsetOfLine(mx: real, my: real, a: real, b: real)
    ensures OffCentre(mx, my, a, b) == 0.0 <==> b == my - a * mx
  {
  }

  /** What choosing another line than the fit costs: nothing for its slope, or nothing for its offset, if they agree. */
  lemma ExtraCost(s: seq<Point>, a: real, b: real) returns (slope: real, offset: real)
    requires SolveLinear(s).Some?
    ensures var fit := SolveLinear(s).value;
            && Errors(s, a, b) == Errors(s, fit.scale, fit.bias) + slope + offset
            && slope >= 0.0 && offset >= 0.0
            && (slope == 0.0 <==> a == fit.scale)
            && (a == fit.scale ==> (offset == 0.0 <==> b == fit.bias))
  {
    NoneIffTooFewRawValues(s);
    ErrorsAboveFit(s, a, b);
    hide SolveLinear, Errors, Times, Square, OffCentre, MeanX, MeanY;
    var fit := SolveLinear(s).value;
    var sxx, n := SpreadX(s, MeanX(s)), |s| as real;
    var d := OffCentre(MeanX(s), MeanY(s), a, b);
    OffsetOfLine(MeanX(s), MeanY(s), a, b);
    slope, offset := Times(Square(a - fit.scale), sxx), Times(n, Square(d));
    SquareSign(a - fit.scale);
    SquareSign(d);
    TimesSign(Square(a - fit.scale), sxx);
    TimesSign(Square(d), n);
    TimesAssociates(Square(d), n, 1.0);
  }

  /** The fitted line has the least errors of all lines, and it is the only one that does. */
  lemma FitMinimisesErrors(s: seq<Point>, a: real, b: real)
    requires SolveLinear(s).Some?
    ensures var fit := SolveLinear(s).value;
            && Errors(s, fit.scale, fit.bias) <= Errors(s, a, b)
            && (Errors(s, fit.scale, fit.bias) == Errors(s, a, b) <==> a == fit.scale && b == fit.bias)
  {
    hide SolveLinear, Errors;
    var slope, offset := ExtraCost(s, a, b);
  }

  /** The fit is exact - scale and bias recovered, r2 equal to 1 - exactly when the samples lie on a line. */
  lemma FitRecoversLineIff(s: seq<Point>, a: real, b: real)
    requires SolveLinear(s).Some?
    ensures var fit := SolveLinear(s).value;
            && (OnLine(s, a, b) ==> fit.scale == a && fit.bias == b)
            && (fit.r2 == 1.0 <==> OnLine(s, fit.scale, fit.bias))
  {
    var fit := SolveLinear(s).value;
    ErrorsSign(s, a, b);
    ErrorsSign(s, fit.scale, fit.bias);
    FitMinimisesErrors(s, a, b);
    var total := QualityOf(s);
  }

  /** The fit's r2 is one minus a ratio of errors to a positive total no smaller than they are. */
  lemma QualityOf(s: seq<Point>) returns (total: real)
    requires SolveLinear(s).Some?
    ensures var fit := SolveLinear(s).value;
            && total > 0.0 && 0.0 <= Errors(s, fit.scale, fit.bias) <= total
            && fit.r2 == 1.0 - Errors(s, fit.scale, fit.bias) / total
            && 0.0 <= fit.r2 <= 1.0 && (fit.r2 == 1.0 <==> Errors(s, fit.scale, fit.bias) == 0.0)
  {
    hide RawValues, SpreadX, SpreadY, SpreadXY, Errors, SumX, SumY;
    var fit := SolveLinear(s).value;
    var spread := SpreadY(s, MeanY(s));
    total := if spread == 0.0 then 0.000000000001 else spread;
    var errors := Errors(s, fit.scale, fit.bias);
    assert fit.r2 == 1.0 - errors / total;
    hide SolveLinear, MeanY;
    SpreadYSign(s, MeanY(s));
    ErrorsSign(s, fit.scale, fit.bias);
    FitMinimisesErrors(s, 0.0, MeanY(s));
    FlatLineErrors(s, MeanY(s));
    RatioInUnit(errors, total);
  }

  lemma {:induction false} FlatLineErrors(s: seq<Point>, my: real)
    ensures Errors(s, 0.0, my) == SpreadY(s, my)
  {
    hide Square;
    if s != [] {
      FlatLineErrors(s[1..], my);
      assert 0.0 * s[0].x + my == my;
    }
  }

  lemma RatioInUnit(p: real, q: real)
    requires q > 0.0 && 0.0 <= p <= q
    ensures 0.0 <= p / q <= 1.0 && (p / q == 0.0 <==> p == 0.0)
  {
    var r := p / q;
    assert r * q == p;
  }

  /** 0 <= r2 <= 1 */
  lemma QualityInUnitInterval(s: seq<Point>)
    requires SolveLinear(s).Some?
    ensures 0.0 <= SolveLinear(s).value.r2 <= 1.0
  {
    var total := QualityOf(s);
  }

  ghost predicate TwoShownValues(s: seq<Point>) {
    exists i, j | 0 <= i < |s| && 0 <= j < |s| :: s[i].y != s[j].y
  }

  /** The flat line at the mean costs what the fit costs, plus what its slope explains. */
  lemma FlatLineCost(s: seq<Point>)
    requires SolveLinear(s).Some?
    ensures var fit := SolveLinear(s).value;
            SpreadX(s, MeanX(s)) > 0.0
            && Errors(s, 0.0, MeanY(s)) == Errors(s, fit.scale, fit.bias) + Times(Square(fit.scale), SpreadX(s, MeanX(s)))
  {
    NoneIffTooFewRawValues(s);
    var fit := SolveLinear(s).value;
    ErrorsAboveFit(s, 0.0, MeanY(s));
    assert OffCentre(MeanX(s), MeanY(s), 0.0, MeanY(s)) == 0.0 by { OffsetOfLine(MeanX(s), MeanY(s), 0.0, MeanY(s)); }
    hide SolveLinear, Errors, SpreadX, MeanX, MeanY, OffCentre;
    assert Square(0.0 - fit.scale) == Square(fit.scale) by { NegatedTimes(fit.scale, fit.scale); }
    assert Times(|s| as real, Square(0.0)) == 0.0 by { SquareSign(0.0); ZeroTimes(|s| as real); }
  }

  /** Of all flat lines the one at the mean costs least. */
  lemma MeanIsBestFlatLine(s: seq<Point>, c: real)
    requires s != []
    ensures Errors(s, 0.0, MeanY(s)) <= Errors(s, 0.0, c)
  {
    hide Errors, MeanX, MeanY, SpreadX, SpreadXY, SpreadY, Times, Square, OffCentre;
    var mx, my := MeanX(s), MeanY(s);
    CentredErrors(s, 0.0, my);
    CentredErrors(s, 0.0, c);
    OffsetOfLine(mx, my, 0.0, my);
    SquareSign(OffCentre(mx, my, 0.0, my));
    SquareSign(OffCentre(mx, my, 0.0, c));
    ZeroTimes(|s| as real);
    TimesSign(Square(OffCentre(mx, my, 0.0, c)), |s| as real);
    TimesAssociates(Square(OffCentre(mx, my, 0.0, c)), |s| as real, 1.0);
  }

  lemma FlatMeansEqual(s: seq<Point>, c: real)
    ensures OnLine(s, 0.0, c) ==> !TwoShownValues(s)
  {
  }

  lemma FlatErrorsSign(s: seq<Point>)
    requires s != []
    ensures Errors(s, 0.0, MeanY(s)) >= 0.0
    ensures Errors(s, 0.0, MeanY(s)) == 0.0 <==> !TwoShownValues(s)
  {
    var my := MeanY(s);
    hide MeanY;
    ErrorsSign(s, 0.0, my);
    FlatMeansEqual(s, my);
    if !TwoShownValues(s) {
      MeanIsBestFlatLine(s, s[0].y);
      ErrorsSign(s, 0.0, s[0].y);
      assert forall i | 0 <= i < |s| :: s[i].y == 0.0 * s[i].x + s[0].y;
    }
  }

  /**
   r2 is the share of the errors about the best flat line that the fit removes. It is 0 exactly if the fit is
   flat itself although the displayed values differ; if they do not differ, the fit is flat and r2 is 1.
   */
  lemma QualityIsExplainedShare(s: seq<Point>)
    requires SolveLinear(s).Some?
    ensures SolveLinear(s).value.n == |s|
    ensures TwoShownValues(s) ==>
              var fit := SolveLinear(s).value;
              && Errors(s, 0.0, MeanY(s)) > 0.0
              && fit.r2 == 1.0 - Errors(s, fit.scale, fit.bias) / Errors(s, 0.0, MeanY(s))
              && (fit.r2 == 0.0 <==> fit.scale == 0.0)
    ensures !TwoShownValues(s) ==> SolveLinear(s).value.scale == 0.0 && SolveLinear(s).value.r2 == 1.0
  {
    var fit := SolveLinear(s).value;
    var flat, errors := Errors(s, 0.0, MeanY(s)), Errors(s, fit.scale, fit.bias);
    FlatLineErrors(s, MeanY(s));
    FlatErrorsSign(s);
    FlatLineCost(s);
    var total := QualityOf(s);
    assert TwoShownValues(s) ==> fit.r2 == 1.0 - errors / flat;
    hide SolveLinear, Errors, MeanY, TwoShownValues, Times, Square;
    SquareSign(fit.scale);
    TimesSign(Square(fit.scale), SpreadX(s, MeanX(s)));
    ErrorsSign(s, fit.scale, fit.bias);
    if flat > 0.0 {
      ShareIsOne(errors, flat);
    }
  }

  lemma ShareIsOne(p: real, q: real)
    requires q > 0.0
    ensures p / q == 1.0 <==> p == q
  {
    var r := p / q;
    assert r * q == p;
  }
}
