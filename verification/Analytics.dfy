/** Growth projection: _ols in app/api/analytics.py, over the reals. */
module Analytics {

  function Sum(xs: seq<real>): real {
    if xs == [] then 0.0 else xs[0] + Sum(xs[1..])
  }

  function Dot(us: seq<real>, vs: seq<real>): real
    requires |us| == |vs|
  {
    if us == [] then 0.0 else us[0] * vs[0] + Dot(us[1..], vs[1..])
  }

  function Mean(xs: seq<real>): real
    requires xs != []
  {
    Sum(xs) / |xs| as real
  }

  /** x - m for every x. */
  function Centre(xs: seq<real>, m: real): (us: seq<real>)
    ensures |us| == |xs|
  {
    if xs == [] then [] else [xs[0] - m] + Centre(xs[1..], m)
  }

  /** y - (slope * x + intercept) for every point. */
  function Errors(xs: seq<real>, ys: seq<real>, slope: real, intercept: real): (es: seq<real>)
    requires |xs| == |ys|
    ensures |es| == |xs|
  {
    if xs == [] then [] else [ys[0] - (slope * xs[0] + intercept)] + Errors(xs[1..], ys[1..], slope, intercept)
  }

  /** The sum of squared residuals of a line. */
  function Residuals(xs: seq<real>, ys: seq<real>, slope: real, intercept: real): real
    requires |xs| == |ys|
  {
    var es := Errors(xs, ys, slope, intercept);
    Dot(es, es)
  }

  datatype Fit = Fit(slope: real, intercept: real, rSquared: real)

  function Ols(xs: seq<real>, ys: seq<real>): Fit
    requires |xs| == |ys|
  {
    if |xs| < 2 then Fit(0.0, if ys != [] then ys[0] else 0.0, 0.0) else
      var us, vs := Centre(xs, Mean(xs)), Centre(ys, Mean(ys));
      var ssXY, ssXX := Dot(us, vs), Dot(us, us);
      if ssXX == 0.0 then Fit(0.0, Mean(ys), 1.0) else
        var slope := ssXY / ssXX;
        var intercept := Mean(ys) - slope * Mean(xs);
        var ssRes, ssTot := Residuals(xs, ys, slope, intercept), Dot(vs, vs);
        Fit(slope, intercept, if ssTot > 0.0 then 1.0 - ssRes / ssTot else 1.0)
  }

  // ----- real arithmetic, a step at a time -----

  lemma PositiveProduct(x: real, y: real) returns (p: real)
    requires x > 0.0 && y > 0.0
    ensures p == x * y && p > 0.0
  {
    p := x * y;
  }

  lemma SquareSign(x: real) returns (q: real)
    ensures q == x * x && q >= 0.0
    ensures q == 0.0 ==> x == 0.0
  {
    q := x * x;
    if x > 0.0 {
      var p := PositiveProduct(x, x);
    } else if x < 0.0 {
      var p := PositiveProduct(-x, -x);
    }
  }

  lemma Associate(x: real, y: real, z: real)
    ensures (x * y) * z == x * (y * z)
  {
  }

  lemma Distribute(k: real, p: real, q: real)
    ensures k * (p + q) == k * p + k * q
    ensures (p + q) * k == p * k + q * k
  {
  }

  lemma QuotientTimes(p: real, q: real, r: real)
    requires q != 0.0 && r == p / q
    ensures r * q == p
  {
  }

  lemma QuotientInUnit(p: real, q: real)
    requires 0.0 <= p <= q && q > 0.0
    ensures 0.0 <= p / q <= 1.0
  {
  }

  lemma ZeroFactor(p: real, k: real)
    requires k != 0.0 && k * p == 0.0
    ensures p == 0.0
  {
  }

  lemma LineStep(p: real, u: real, q: real, z: real, uz: real, zs: real)
    ensures (p * u + q) * z + (p * uz + q * zs) == p * (u * z + uz) + q * (z + zs)
  {
    Distribute(z, p * u, q);
    Associate(p, u, z);
    Distribute(p, u * z, uz);
    Distribute(q, z, zs);
  }

  lemma PlusStep(u: real, v: real, z: real, uz: real, vz: real)
    ensures (u + v) * z + (uz + vz) == (u * z + uz) + (v * z + vz)
  {
    Distribute(z, u, v);
  }

  // ----- vectors -----

  function Plus(us: seq<real>, vs: seq<real>): (ws: seq<real>)
    requires |us| == |vs|
    ensures |ws| == |us|
  {
    if us == [] then [] else [us[0] + vs[0]] + Plus(us[1..], vs[1..])
  }

  lemma {:induction false} DotSymmetric(us: seq<real>, vs: seq<real>)
    requires |us| == |vs|
    ensures Dot(us, vs) == Dot(vs, us)
  {
    if us == [] {
    } else {
      DotSymmetric(us[1..], vs[1..]);
    }
  }

  lemma {:induction false} DotPlus(us: seq<real>, vs: seq<real>, zs: seq<real>)
    requires |us| == |vs| == |zs|
    ensures Dot(Plus(us, vs), zs) == Dot(us, zs) + Dot(vs, zs)
  {
    if us == [] {
    } else {
      DotPlus(us[1..], vs[1..], zs[1..]);
      PlusStep(us[0], vs[0], zs[0], Dot(us[1..], zs[1..]), Dot(vs[1..], zs[1..]));
    }
  }

  lemma {:induction false} SumPlus(us: seq<real>, vs: seq<real>)
    requires |us| == |vs|
    ensures Sum(Plus(us, vs)) == Sum(us) + Sum(vs)
  {
    if us == [] {
    } else {
      SumPlus(us[1..], vs[1..]);
    }
  }

  lemma {:induction false} SumCentre(xs: seq<real>, m: real)
    ensures Sum(Centre(xs, m)) == Sum(xs) - |xs| as real * m
  {
    if xs == [] {
    } else {
      SumCentre(xs[1..], m);
      Distribute(m, |xs[1..]| as real, 1.0);
    }
  }

  lemma CentreBalanced(xs: seq<real>)
    requires xs != []
    ensures Sum(Centre(xs, Mean(xs))) == 0.0
  {
    SumCentre(xs, Mean(xs));
    QuotientTimes(Sum(xs), |xs| as real, Mean(xs));
  }

  lemma {:induction false} DotNonNegative(us: seq<real>)
    ensures Dot(us, us) >= 0.0
  {
    if us == [] {
    } else {
      DotNonNegative(us[1..]);
      var q := SquareSign(us[0]);
    }
  }

  lemma {:induction false} DotZero(us: seq<real>, vs: seq<real>)
    requires |us| == |vs| && Dot(us, us) == 0.0
    ensures Dot(us, vs) == 0.0 && Sum(us) == 0.0
  {
    if us == [] {
    } else {
      DotNonNegative(us[1..]);
      var q := SquareSign(us[0]);
      DotZero(us[1..], vs[1..]);
    }
  }

  lemma DotZeroHead(us: seq<real>)
    requires us != [] && Dot(us, us) == 0.0
    ensures us[0] == 0.0
  {
    DotNonNegative(us[1..]);
    var q := SquareSign(us[0]);
  }

  /** Pythagoras. */
  lemma DotOfPlus(es: seq<real>, ds: seq<real>)
    requires |es| == |ds| && Dot(es, ds) == 0.0
    ensures Dot(Plus(es, ds), Plus(es, ds)) == Dot(es, es) + Dot(ds, ds)
  {
    var ws := Plus(es, ds);
    DotPlus(es, ds, ws);
    DotSymmetric(es, ws);
    DotSymmetric(ds, ws);
    DotPlus(es, ds, es);
    DotPlus(es, ds, ds);
    DotSymmetric(es, ds);
  }

  /** The vector p * us + q. */
  function Line(us: seq<real>, p: real, q: real): (ds: seq<real>)
    ensures |ds| == |us|
  {
    if us == [] then [] else [p * us[0] + q] + Line(us[1..], p, q)
  }

  lemma {:induction false} LineDot(us: seq<real>, p: real, q: real, zs: seq<real>)
    requires |us| == |zs|
    ensures Dot(Line(us, p, q), zs) == p * Dot(us, zs) + q * Sum(zs)
  {
    if us == [] {
    } else {
      LineDot(us[1..], p, q, zs[1..]);
      LineStep(p, us[0], q, zs[0], Dot(us[1..], zs[1..]), Sum(zs[1..]));
    }
  }

  lemma {:induction false} LineSum(us: seq<real>, p: real)
    ensures Sum(Line(us, p, 0.0)) == p * Sum(us)
  {
    if us == [] {
    } else {
      LineSum(us[1..], p);
      Distribute(p, us[0], Sum(us[1..]));
    }
  }

  // ----- errors of a line -----

  lemma TimesDifference(s: real, c: real, x: real, m: real)
    requires c == x - m
    ensures s * c == s * x - s * m
  {
    Distribute(s, x - m, m);
  }

  lemma PointHeight(x: real, y: real, s: real, t: real, mx: real, my: real, c: real)
    requires t == my - s * mx && c == x - mx
    ensures y - my == (y - (s * x + t)) + (s * c + 0.0)
  {
    TimesDifference(s, c, x, mx);
  }

  /** A line through the centre explains the centred ys up to its errors. */
  lemma {:induction false} CentredSplit(xs: seq<real>, ys: seq<real>, s: real, t: real, mx: real, my: real)
    requires |xs| == |ys| && t == my - s * mx
    ensures Centre(ys, my) == Plus(Errors(xs, ys, s, t), Line(Centre(xs, mx), s, 0.0))
  {
    if xs == [] {
    } else {
      var es, us := Errors(xs, ys, s, t), Centre(xs, mx);
      var ds := Line(us, s, 0.0);
      CentredSplit(xs[1..], ys[1..], s, t, mx, my);
      assert es[1..] == Errors(xs[1..], ys[1..], s, t) && us[1..] == Centre(xs[1..], mx);
      assert ds[1..] == Line(us[1..], s, 0.0);
      PointHeight(xs[0], ys[0], s, t, mx, my, us[0]);
      assert es[0] + ds[0] == ys[0] - my;
    }
  }

  lemma LinesDiffer(x: real, y: real, s: real, t: real, a: real, b: real, m: real, q: real, c: real)
    requires q == (s - a) * m + (t - b) && c == x - m
    ensures y - (a * x + b) == (y - (s * x + t)) + ((s - a) * c + q)
  {
    TimesDifference(s - a, c, x, m);
    assert (s - a) * x == s * x - a * x;
  }

  /** The errors of two lines differ by a line. */
  lemma {:induction false} ErrorsDiffer(xs: seq<real>, ys: seq<real>, s: real, t: real, a: real, b: real, m: real, q: real)
    requires |xs| == |ys| && q == (s - a) * m + (t - b)
    ensures Errors(xs, ys, a, b) == Plus(Errors(xs, ys, s, t), Line(Centre(xs, m), s - a, q))
  {
    if xs == [] {
    } else {
      var es, us, k := Errors(xs, ys, s, t), Centre(xs, m), s - a;
      var ds := Line(us, k, q);
      ErrorsDiffer(xs[1..], ys[1..], s, t, a, b, m, q);
      assert es[1..] == Errors(xs[1..], ys[1..], s, t) && us[1..] == Centre(xs[1..], m);
      assert ds[1..] == Line(us[1..], k, q);
      LinesDiffer(xs[0], ys[0], s, t, a, b, m, q, us[0]);
      assert es[0] + ds[0] == ys[0] - (a * xs[0] + b);
    }
  }

  /** The normal equations: the errors are orthogonal to both columns. */
  ghost predicate Normal(xs: seq<real>, ys: seq<real>, m: real, s: real, t: real)
    requires |xs| == |ys|
  {
    Sum(Errors(xs, ys, s, t)) == 0.0 && Dot(Centre(xs, m), Errors(xs, ys, s, t)) == 0.0
  }

  lemma SlopeEquation(xs: seq<real>, ys: seq<real>) returns (s: real)
    requires |xs| == |ys| >= 2
    ensures s == Ols(xs, ys).slope && Ols(xs, ys).intercept == Mean(ys) - s * Mean(xs)
    ensures s * Dot(Centre(xs, Mean(xs)), Centre(xs, Mean(xs))) == Dot(Centre(xs, Mean(xs)), Centre(ys, Mean(ys)))
  {
    var us, vs := Centre(xs, Mean(xs)), Centre(ys, Mean(ys));
    s := Ols(xs, ys).slope;
    if Dot(us, us) == 0.0 {
      DotZero(us, vs);
    } else {
      QuotientTimes(Dot(us, vs), Dot(us, us), s);
    }
  }

  lemma SlopeLine(us: seq<real>, vs: seq<real>, s: real)
    requires |us| == |vs| && Sum(us) == 0.0 && s * Dot(us, us) == Dot(us, vs)
    ensures Sum(Line(us, s, 0.0)) == 0.0 && Dot(Line(us, s, 0.0), us) == Dot(vs, us)
  {
    LineSum(us, s);
    LineDot(us, s, 0.0, us);
    DotSymmetric(us, vs);
  }

  /** m and n stand for the two means. */
  lemma LineIsNormal(xs: seq<real>, ys: seq<real>, m: real, n: real, s: real, t: real)
    requires |xs| == |ys| && t == n - s * m && Sum(Centre(ys, n)) == 0.0
    requires Sum(Line(Centre(xs, m), s, 0.0)) == 0.0
    requires Dot(Line(Centre(xs, m), s, 0.0), Centre(xs, m)) == Dot(Centre(ys, n), Centre(xs, m))
    ensures Normal(xs, ys, m, s, t)
  {
    var us, es := Centre(xs, m), Errors(xs, ys, s, t);
    CentredSplit(xs, ys, s, t, m, n);
    SumPlus(es, Line(us, s, 0.0));
    DotPlus(es, Line(us, s, 0.0), us);
    DotSymmetric(es, us);
  }

  lemma OlsIsNormal(xs: seq<real>, ys: seq<real>)
    requires |xs| == |ys| >= 2
    ensures Normal(xs, ys, Mean(xs), Ols(xs, ys).slope, Ols(xs, ys).intercept)
  {
    var s := SlopeEquation(xs, ys);
    CentreBalanced(xs);
    CentreBalanced(ys);
    SlopeLine(Centre(xs, Mean(xs)), Centre(ys, Mean(ys)), s);
    LineIsNormal(xs, ys, Mean(xs), Mean(ys), s, Ols(xs, ys).intercept);
  }

  lemma NormalOrthogonal(xs: seq<real>, ys: seq<real>, m: real, s: real, t: real, p: real, q: real)
    requires |xs| == |ys| && Normal(xs, ys, m, s, t)
    ensures Dot(Errors(xs, ys, s, t), Line(Centre(xs, m), p, q)) == 0.0
  {
    LineDot(Centre(xs, m), p, q, Errors(xs, ys, s, t));
    DotSymmetric(Errors(xs, ys, s, t), Line(Centre(xs, m), p, q));
  }

  /** Replacing a normal line by another adds the squared distance between the two. */
  lemma ResidualGap(xs: seq<real>, ys: seq<real>, m: real, s: real, t: real, a: real, b: real, q: real)
    requires |xs| == |ys| && Normal(xs, ys, m, s, t) && q == (s - a) * m + (t - b)
    ensures var ds := Line(Centre(xs, m), s - a, q);
            Residuals(xs, ys, a, b) == Residuals(xs, ys, s, t) + Dot(ds, ds)
  {
    ErrorsDiffer(xs, ys, s, t, a, b, m, q);
    NormalOrthogonal(xs, ys, m, s, t, s - a, q);
    DotOfPlus(Errors(xs, ys, s, t), Line(Centre(xs, m), s - a, q));
  }

  lemma ZeroLine(us: seq<real>, p: real, q: real)
    requires us != [] && Sum(us) == 0.0 && Dot(us, us) != 0.0
    requires Dot(Line(us, p, q), Line(us, p, q)) == 0.0
    ensures p == 0.0 && q == 0.0
  {
    DotZero(Line(us, p, q), us);
    LineDot(us, p, q, us);
    ZeroFactor(p, Dot(us, us));
    DotZeroHead(Line(us, p, q));
  }

  lemma NoShift(p: real, m: real, d: real, q: real)
    requires q == p * m + d && p == 0.0 && q == 0.0
    ensures d == 0.0
  {
  }

  lemma UniqueWhenNormal(xs: seq<real>, ys: seq<real>, m: real, s: real, t: real, a: real, b: real)
    requires |xs| == |ys| > 0 && Normal(xs, ys, m, s, t)
    requires Sum(Centre(xs, m)) == 0.0 && Dot(Centre(xs, m), Centre(xs, m)) != 0.0
    requires Residuals(xs, ys, s, t) == Residuals(xs, ys, a, b)
    ensures a == s && b == t
  {
    var q := (s - a) * m + (t - b);
    ResidualGap(xs, ys, m, s, t, a, b, q);
    ZeroLine(Centre(xs, m), s - a, q);
    NoShift(s - a, m, t - b, q);
  }

  lemma LeastWhenNormal(xs: seq<real>, ys: seq<real>, m: real, s: real, t: real, a: real, b: real)
    requires |xs| == |ys| && Normal(xs, ys, m, s, t)
    ensures Residuals(xs, ys, s, t) <= Residuals(xs, ys, a, b)
  {
    var q := (s - a) * m + (t - b);
    ResidualGap(xs, ys, m, s, t, a, b, q);
    DotNonNegative(Line(Centre(xs, m), s - a, q));
  }

  lemma ScaleTwice(s: real, k: real, x: real, y: real)
    requires x == s * k && y == s * x
    ensures y == s * s * k
  {
    Associate(s, s, k);
  }

  lemma FlatLine(us: seq<real>, s: real)
    ensures Dot(Line(us, s, 0.0), Line(us, s, 0.0)) == s * s * Dot(us, us)
  {
    var ds := Line(us, s, 0.0);
    LineDot(us, s, 0.0, ds);
    LineDot(us, s, 0.0, us);
    DotSymmetric(us, ds);
    ScaleTwice(s, Dot(us, us), Dot(us, ds), Dot(ds, ds));
  }

  lemma SplitWhenNormal(xs: seq<real>, ys: seq<real>, m: real, n: real, s: real, t: real)
    requires |xs| == |ys| && Normal(xs, ys, m, s, t) && t == n - s * m
    ensures var ds := Line(Centre(xs, m), s, 0.0);
            Dot(Centre(ys, n), Centre(ys, n)) == Residuals(xs, ys, s, t) + Dot(ds, ds)
  {
    CentredSplit(xs, ys, s, t, m, n);
    NormalOrthogonal(xs, ys, m, s, t, s, 0.0);
    DotOfPlus(Errors(xs, ys, s, t), Line(Centre(xs, m), s, 0.0));
  }

  lemma WeightedSquare(s: real, k: real)
    requires k >= 0.0
    ensures s * s * k >= 0.0
  {
    var q := SquareSign(s);
    if k > 0.0 && q > 0.0 {
      var p := PositiveProduct(q, k);
    }
  }

  lemma {:induction false} CentreAt(xs: seq<real>, m: real, i: nat)
    requires i < |xs|
    ensures Centre(xs, m)[i] == xs[i] - m
  {
    if i == 0 {
    } else {
      CentreAt(xs[1..], m, i - 1);
    }
  }

  lemma {:induction false} ZeroVector(us: seq<real>)
    ensures Dot(us, us) == 0.0 <==> forall i :: 0 <= i < |us| ==> us[i] == 0.0
  {
    if us == [] {
    } else {
      ZeroVector(us[1..]);
      DotNonNegative(us[1..]);
      var q := SquareSign(us[0]);
      assert us == [us[0]] + us[1..];
      assert us[0] == 0.0 ==> q == 0.0;
    }
  }

  lemma {:induction false} SumOfEqual(xs: seq<real>, c: real)
    requires forall i :: 0 <= i < |xs| ==> xs[i] == c
    ensures Sum(xs) == |xs| as real * c
  {
    if xs == [] {
    } else {
      SumOfEqual(xs[1..], c);
      Distribute(c, |xs[1..]| as real, 1.0);
    }
  }

  lemma QuotientOfProduct(k: real, c: real)
    requires k > 0.0
    ensures (k * c) / k == c
  {
  }

  lemma MeanOfEqual(xs: seq<real>, c: real)
    requires xs != [] && forall i :: 0 <= i < |xs| ==> xs[i] == c
    ensures Mean(xs) == c
  {
    SumOfEqual(xs, c);
    QuotientOfProduct(|xs| as real, c);
  }

  /** The equal-x branch is taken exactly when all x agree. */
  lemma FlatWhen(xs: seq<real>)
    requires xs != []
    ensures Dot(Centre(xs, Mean(xs)), Centre(xs, Mean(xs))) == 0.0 <==> forall i :: 0 <= i < |xs| ==> xs[i] == xs[0]
  {
    var us := Centre(xs, Mean(xs));
    ZeroVector(us);
    forall i | 0 <= i < |xs|
      ensures us[i] == xs[i] - Mean(xs)
    {
      CentreAt(xs, Mean(xs), i);
    }
    if forall i :: 0 <= i < |xs| ==> xs[i] == xs[0] {
      MeanOfEqual(xs, xs[0]);
    } else if Dot(us, us) == 0.0 {
      assert us[0] == 0.0;
    }
  }

  // ----- main results -----

  lemma ExactThroughOnePoint(xs: seq<real>, ys: seq<real>)
    requires |xs| == |ys| == 1
    ensures Residuals(xs, ys, Ols(xs, ys).slope, Ols(xs, ys).intercept) == 0.0
  {
    assert Errors(xs, ys, 0.0, ys[0]) == [0.0];
    assert Dot([0.0], [0.0]) == 0.0 * 0.0 + Dot([], []);
  }

  /** The fitted line minimises the sum of squared residuals among all lines. */
  lemma LeastSquares(xs: seq<real>, ys: seq<real>, a: real, b: real)
    requires |xs| == |ys|
    ensures Residuals(xs, ys, Ols(xs, ys).slope, Ols(xs, ys).intercept) <= Residuals(xs, ys, a, b)
  {
    if |xs| == 0 {
      assert Residuals(xs, ys, a, b) == 0.0;
    } else if |xs| == 1 {
      DotNonNegative(Errors(xs, ys, a, b));
      ExactThroughOnePoint(xs, ys);
    } else {
      OlsIsNormal(xs, ys);
      LeastWhenNormal(xs, ys, Mean(xs), Ols(xs, ys).slope, Ols(xs, ys).intercept, a, b);
    }
  }

  /** Unless all x agree, no other line does as well. */
  lemma LeastSquaresUnique(xs: seq<real>, ys: seq<real>, a: real, b: real)
    requires |xs| == |ys| >= 2 && exists i :: 0 <= i < |xs| && xs[i] != xs[0]
    ensures Residuals(xs, ys, Ols(xs, ys).slope, Ols(xs, ys).intercept) == Residuals(xs, ys, a, b)
       <==> a == Ols(xs, ys).slope && b == Ols(xs, ys).intercept
  {
    FlatWhen(xs);
    OlsIsNormal(xs, ys);
    if Residuals(xs, ys, Ols(xs, ys).slope, Ols(xs, ys).intercept) == Residuals(xs, ys, a, b) {
      CentreBalanced(xs);
      UniqueWhenNormal(xs, ys, Mean(xs), Ols(xs, ys).slope, Ols(xs, ys).intercept, a, b);
    }
  }

  /** The total variation splits into the residuals and slope^2 * ss_xx. */
  lemma VariationSplits(xs: seq<real>, ys: seq<real>) returns (fit: Fit, ssXX: real, ssTot: real)
    requires |xs| == |ys| >= 2
    ensures fit == Ols(xs, ys)
    ensures ssXX == Dot(Centre(xs, Mean(xs)), Centre(xs, Mean(xs))) && ssTot == Dot(Centre(ys, Mean(ys)), Centre(ys, Mean(ys)))
    ensures ssTot == Residuals(xs, ys, fit.slope, fit.intercept) + fit.slope * fit.slope * ssXX
  {
    fit := Ols(xs, ys);
    var s := SlopeEquation(xs, ys);
    var us, vs := Centre(xs, Mean(xs)), Centre(ys, Mean(ys));
    ssXX, ssTot := Dot(us, us), Dot(vs, vs);
    OlsIsNormal(xs, ys);
    SplitWhenNormal(xs, ys, Mean(xs), Mean(ys), s, fit.intercept);
    FlatLine(us, s);
  }

  lemma RSquaredParts(xs: seq<real>, ys: seq<real>) returns (fit: Fit, ssRes: real, ssXX: real, ssTot: real)
    requires |xs| == |ys| >= 2
    ensures fit == Ols(xs, ys) && ssRes == Residuals(xs, ys, fit.slope, fit.intercept)
    ensures ssXX == Dot(Centre(xs, Mean(xs)), Centre(xs, Mean(xs)))
    ensures 0.0 <= ssRes <= ssTot
    ensures ssXX == 0.0 ==> fit.rSquared == 1.0
    ensures ssXX != 0.0 ==> fit.rSquared == if ssTot > 0.0 then 1.0 - ssRes / ssTot else 1.0
  {
    fit, ssXX, ssTot := VariationSplits(xs, ys);
    ssRes := Residuals(xs, ys, fit.slope, fit.intercept);
    DotNonNegative(Centre(xs, Mean(xs)));
    DotNonNegative(Errors(xs, ys, fit.slope, fit.intercept));
    WeightedSquare(fit.slope, ssXX);
  }

  /** r_squared always lies between zero and one. */
  lemma RSquaredInUnit(xs: seq<real>, ys: seq<real>)
    requires |xs| == |ys|
    ensures 0.0 <= Ols(xs, ys).rSquared <= 1.0
  {
    if |xs| >= 2 {
      var fit, ssRes, ssXX, ssTot := RSquaredParts(xs, ys);
      if ssTot > 0.0 {
        QuotientInUnit(ssRes, ssTot);
      }
    }
  }

  lemma QuotientZero(p: real, q: real)
    requires q > 0.0
    ensures p / q == 0.0 <==> p == 0.0
  {
    QuotientTimes(p, q, p / q);
  }

  /** Unless all x agree, r_squared is the part of the total variation that the line explains. */
  lemma RSquaredExplains(xs: seq<real>, ys: seq<real>) returns (fit: Fit, ssXX: real, ssTot: real)
    requires |xs| == |ys| >= 2 && exists i :: 0 <= i < |xs| && xs[i] != xs[0]
    ensures fit == Ols(xs, ys)
    ensures ssXX == Dot(Centre(xs, Mean(xs)), Centre(xs, Mean(xs))) && ssTot == Dot(Centre(ys, Mean(ys)), Centre(ys, Mean(ys)))
    ensures fit.rSquared * ssTot == fit.slope * fit.slope * ssXX
    ensures ssTot == 0.0 ==> fit.rSquared == 1.0
  {
    FlatWhen(xs);
    fit, ssXX, ssTot := VariationSplits(xs, ys);
    var fit', ssRes, ssXX', ssTot' := RSquaredParts(xs, ys);
    if ssTot > 0.0 {
      QuotientTimes(ssRes, ssTot, ssRes / ssTot);
      Distribute(ssTot, 1.0, -(ssRes / ssTot));
    }
  }

  /** With fewer than two points the fit is the constant through the only one, or zero, and
      explains nothing. */
  lemma FewPoints(xs: seq<real>, ys: seq<real>)
    requires |xs| == |ys|
    ensures ys == [] ==> Ols(xs, ys) == Fit(0.0, 0.0, 0.0)
    ensures |ys| == 1 ==> Ols(xs, ys) == Fit(0.0, ys[0], 0.0)
  {
  }

  /** When all x agree the fit is the constant at the mean, and counts as perfect. */
  lemma FlatFit(xs: seq<real>, ys: seq<real>)
    requires |xs| == |ys| >= 2 && forall i :: 0 <= i < |xs| ==> xs[i] == xs[0]
    ensures Ols(xs, ys) == Fit(0.0, Mean(ys), 1.0)
  {
    FlatWhen(xs);
  }

  /** r_squared is one exactly for a line through every point, or when all x
      agree: there the code answers one however badly the line fits. */
  lemma PerfectFitWhen(xs: seq<real>, ys: seq<real>)
    requires |xs| == |ys| >= 2
    ensures Ols(xs, ys).rSquared == 1.0
       <==> Residuals(xs, ys, Ols(xs, ys).slope, Ols(xs, ys).intercept) == 0.0
            || forall i :: 0 <= i < |xs| ==> xs[i] == xs[0]
  {
    FlatWhen(xs);
    var fit, ssRes, ssXX, ssTot := RSquaredParts(xs, ys);
    if ssTot > 0.0 {
      QuotientZero(ssRes, ssTot);
    }
  }
}
