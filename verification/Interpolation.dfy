// Lagrange interpolation over GF(2^8) and the direct evaluation of the interpolant at zero.

module Interpolation {
  import opened Wrappers
  import opened Galois
  import opened Polynomials

  datatype Point = Point(x: GF256, y: GF256)

  // ZeroLog is the error of a division by a product that contains x = 0.
  datatype InterpolationError = NoCoordinates | DuplicateX | ZeroLog

  function Xs(coords: seq<Point>): seq<GF256> {
    seq(|coords|, i requires 0 <= i < |coords| => coords[i].x)
  }

  function Elements<T(==)>(values: seq<T>): set<T> {
    set v | v in values
  }

  // new Set(values).size !== values.length
  function HasDuplicates<T(==)>(values: seq<T>): bool {
    |Elements(values)| != |values|
  }

  // coordinates.filter((_, i) => i !== j)
  function Others(coords: seq<Point>, j: nat): (others: seq<Point>)
    requires j < |coords|
    ensures |others| == |coords| - 1
  {
    coords[..j] + coords[j + 1..]
  }

  predicate Avoids(points: seq<Point>, x: GF256) {
    forall i | 0 <= i < |points| :: points[i].x != x
  }

  // The product of (x + x_i) / (x_j + x_i) over the other coordinates.
  function LagrangeProduct(others: seq<Point>, xj: GF256): Polynomial
    requires Avoids(others, xj)
  {
    if |others| == 0 then OnePoly
    else
      var n := |others| - 1;
      var xi := others[n].x;
      AddCancel(xj, xi);
      LagrangeProduct(others[..n], xj).Times(MonicLinear(xi).DivideBy(Add(xj, xi)))
  }

  lemma OthersAvoid(coords: seq<Point>, j: nat)
    requires j < |coords| && Distinct(Xs(coords))
    ensures Avoids(Others(coords, j), coords[j].x)
  {
    assert forall i | 0 <= i < |coords| :: Xs(coords)[i] == coords[i].x;
  }

  // The sum of the first n basis polynomials, each scaled by its y.
  function InterpolateFirst(coords: seq<Point>, n: nat): Polynomial
    requires n <= |coords| && Distinct(Xs(coords))
  {
    if n == 0 then ZeroPoly
    else
      OthersAvoid(coords, n - 1);
      var basis := LagrangeProduct(Others(coords, n - 1), coords[n - 1].x);
      InterpolateFirst(coords, n - 1).Plus(basis.Scale(coords[n - 1].y))
  }

  function Interpolate(coords: seq<Point>): Result<Polynomial, InterpolationError> {
    if |coords| < 1 then Err(NoCoordinates)
    else if HasDuplicates(Xs(coords)) then Err(DuplicateX)
    else
      NoDuplicatesIsDistinct(Xs(coords));
      Ok(InterpolateFirst(coords, |coords|))
  }

  // The product of x_i - x_j over the other coordinates.
  function DiffProduct(others: seq<Point>, xj: GF256): GF256 {
    if |others| == 0 then One
    else Mul(DiffProduct(others[..|others| - 1], xj), Add(others[|others| - 1].x, xj))
  }

  function XProduct(coords: seq<Point>): GF256 {
    if |coords| == 0 then One
    else Mul(XProduct(coords[..|coords| - 1]), coords[|coords| - 1].x)
  }

  // The sum of y_j over its denominator for the first n coordinates; dividing by zero throws.
  function Quotient(coords: seq<Point>, n: nat): Result<GF256, InterpolationError>
    requires n <= |coords|
  {
    if n == 0 then Ok(Zero)
    else
      match Quotient(coords, n - 1)
      case Err(e) => Err(e)
      case Ok(sum) =>
        var p := coords[n - 1];
        var denominator := Mul(p.x, DiffProduct(Others(coords, n - 1), p.x));
        if denominator == Zero then Err(ZeroLog) else Ok(Add(sum, Div(p.y, denominator)))
  }

  // Polynomial.combine.
  function Combine(coords: seq<Point>): Result<GF256, InterpolationError> {
    if |coords| < 1 then Err(NoCoordinates)
    else if HasDuplicates(Xs(coords)) then Err(DuplicateX)
    else
      match Quotient(coords, |coords|)
      case Err(e) => Err(e)
      case Ok(quotient) => Ok(Mul(XProduct(coords), quotient))
  }

  // ---------- Duplicates ----------

  lemma ElementsOfPrefix<T>(values: seq<T>)
    requires |values| > 0
    ensures Elements(values) == Elements(values[..|values| - 1]) + {values[|values| - 1]}
  {
    var n := |values| - 1;
    assert values == values[..n] + [values[n]];
  }

  lemma {:induction false} DuplicatesIff<T>(values: seq<T>)
    ensures |Elements(values)| <= |values|
    ensures !HasDuplicates(values) <==> forall i, j | 0 <= i < j < |values| :: values[i] != values[j]
  {
    var n := |values|;
    if n > 0 {
      var front, last := values[..n - 1], values[n - 1];
      DuplicatesIff(front);
      ElementsOfPrefix(values);
      var s := Elements(front);
      if last in front {
        var i :| 0 <= i < |front| && front[i] == last;
        assert s + {last} == s;
        assert values[i] == values[n - 1];
      } else {
        assert |s + {last}| == |s| + 1;
        assert forall i | 0 <= i < n - 1 :: values[i] == front[i];
      }
    }
  }

  lemma NoDuplicatesIsDistinct(xs: seq<GF256>)
    ensures !HasDuplicates(xs) <==> Distinct(xs)
  {
    DuplicatesIff(xs);
  }

  // ---------- The basis polynomials ----------

  function Ratio(others: seq<Point>, xj: GF256, x: GF256): GF256 {
    if |others| == 0 then One
    else
      var n := |others| - 1;
      Mul(Ratio(others[..n], xj, x), Div(Add(x, others[n].x), Add(xj, others[n].x)))
  }

  lemma LinearEval(c: GF256, x: GF256)
    ensures MonicLinear(c).Evaluate(x) == Add(x, c)
    ensures |MonicLinear(c).coefficients| == 2
  {
    OneIsNotZero();
    assert [c, One][1..] == [One] && [One][1..] == [];
    assert Trim([c, One]) == [c, One];
    hide Add, Mul;
    assert Horner([One], x) == One by {
      assert Horner([], x) == Zero;
      MulZero(x);
      AddZero(One);
    }
    MulOne(x);
  }

  lemma ScaleLength(p: Polynomial, s: GF256)
    ensures |p.Scale(s).coefficients| <= |p.coefficients|
  {
    hide Mul, Trim;
    TrimKeepsCoefficients(Scaled(p.coefficients, s));
  }

  lemma FactorEval(xi: GF256, xj: GF256, x: GF256)
    requires xi != xj
    ensures Add(xj, xi) != Zero
    ensures MonicLinear(xi).DivideBy(Add(xj, xi)).Evaluate(x) == Div(Add(x, xi), Add(xj, xi))
    ensures |MonicLinear(xi).DivideBy(Add(xj, xi)).coefficients| <= 2
  {
    AddCancel(xj, xi);
    var s := Add(xj, xi);
    hide Add, Mul, Inverse, MonicLinear, Polynomial.Scale, Polynomial.Evaluate;
    LinearEval(xi, x);
    EvaluateScale(MonicLinear(xi), Div(One, s), x);
    MulOne(Inverse(s));
    ScaleLength(MonicLinear(xi), Div(One, s));
  }

  lemma TimesLength(p: Polynomial, q: Polynomial)
    ensures |p.Times(q).coefficients| <= p.Degree() + q.Degree() + 1
  {
    hide Trim, PartialConvolution;
    TrimKeepsCoefficients(seq(p.Degree() + q.Degree() + 1,
                              i requires i >= 0 => Convolution(p.coefficients, q.coefficients, i)));
  }

  lemma PlusLength(p: Polynomial, q: Polynomial)
    ensures |p.Plus(q).coefficients| <= (if p.Degree() > q.Degree() then p.Degree() else q.Degree()) + 1
  {
    hide Trim, Add;
    var degree := if p.Degree() > q.Degree() then p.Degree() else q.Degree();
    TrimKeepsCoefficients(seq(degree + 1, i requires i >= 0 => Add(p.Coefficient(i), q.Coefficient(i))));
  }

  lemma OneEval(x: GF256)
    ensures OnePoly.Evaluate(x) == One
  {
    hide Add, Mul;
    assert Horner([One], x) == One by {
      assert Horner([One][1..], x) == Zero;
      MulZero(x);
      AddZero(One);
    }
  }

  lemma {:induction false} LagrangeEval(others: seq<Point>, xj: GF256, x: GF256)
    requires Avoids(others, xj)
    ensures LagrangeProduct(others, xj).Evaluate(x) == Ratio(others, xj, x)
    ensures |LagrangeProduct(others, xj).coefficients| <= |others| + 1
  {
    hide Add, Mul, Div, Ratio, MonicLinear, Polynomial.Times, Polynomial.DivideBy, Polynomial.Evaluate;
    if |others| == 0 {
      OneEval(x);
      RatioStep(others, xj, x);
    } else {
      var n := |others| - 1;
      var xi := others[n].x;
      var rest := LagrangeProduct(others[..n], xj);
      LagrangeEval(others[..n], xj, x);
      FactorEval(xi, xj, x);
      var factor := MonicLinear(xi).DivideBy(Add(xj, xi));
      EvaluateTimes(rest, factor, x);
      TimesLength(rest, factor);
      RatioStep(others, xj, x);
    }
  }

  lemma RatioStep(others: seq<Point>, xj: GF256, x: GF256)
    ensures |others| == 0 ==> Ratio(others, xj, x) == One
    ensures |others| > 0 ==>
      var n := |others| - 1;
      Ratio(others, xj, x) == Mul(Ratio(others[..n], xj, x), Div(Add(x, others[n].x), Add(xj, others[n].x)))
  {
    hide Mul, Add, Div;
  }

  lemma {:induction false} RatioAtSelf(others: seq<Point>, xj: GF256)
    requires Avoids(others, xj)
    ensures Ratio(others, xj, xj) == One
  {
    if |others| > 0 {
      var n := |others| - 1;
      AddCancel(xj, others[n].x);
      hide Add, Mul, Inverse;
      RatioAtSelf(others[..n], xj);
      MulInverse(Add(xj, others[n].x));
      MulOne(One);
    }
  }

  lemma {:induction false} RatioAtOther(others: seq<Point>, xj: GF256, k: nat)
    requires k < |others|
    ensures Ratio(others, xj, others[k].x) == Zero
  {
    var n := |others| - 1;
    var x := others[k].x;
    AddZero(x);
    hide Add, Mul, Inverse;
    if k == n {
      MulZero(Inverse(Add(xj, x)));
      MulZero(Ratio(others[..n], xj, x));
    } else {
      RatioAtOther(others[..n], xj, k);
      MulZero(Div(Add(x, others[n].x), Add(xj, others[n].x)));
    }
  }

  // ---------- The interpolant ----------

  function ValueSum(coords: seq<Point>, n: nat, x: GF256): GF256
    requires n <= |coords|
  {
    if n == 0 then Zero
    else Add(ValueSum(coords, n - 1, x), Mul(Ratio(Others(coords, n - 1), coords[n - 1].x, x), coords[n - 1].y))
  }

  lemma {:induction false} InterpolateFirstEval(coords: seq<Point>, n: nat, x: GF256)
    requires n <= |coords| && Distinct(Xs(coords))
    ensures InterpolateFirst(coords, n).Evaluate(x) == ValueSum(coords, n, x)
    ensures |InterpolateFirst(coords, n).coefficients| <= |coords|
  {
    hide Add, Mul, Ratio, LagrangeProduct, Others, Avoids, Xs, Distinct,
         Polynomial.Plus, Polynomial.Scale;
    if n > 0 {
      var xj := coords[n - 1].x;
      OthersAvoid(coords, n - 1);
      InterpolateFirstEval(coords, n - 1, x);
      hide Polynomial.Evaluate;
      LagrangeEval(Others(coords, n - 1), xj, x);
      var basis := LagrangeProduct(Others(coords, n - 1), xj);
      EvaluateScale(basis, coords[n - 1].y, x);
      ScaleLength(basis, coords[n - 1].y);
      var rest := InterpolateFirst(coords, n - 1);
      EvaluatePlus(rest, basis.Scale(coords[n - 1].y), x);
      PlusLength(rest, basis.Scale(coords[n - 1].y));
    }
  }

  lemma {:induction false} ValueSumAtNode(coords: seq<Point>, n: nat, m: nat)
    requires n <= |coords| && m < |coords| && Distinct(Xs(coords))
    ensures ValueSum(coords, n, coords[m].x) == if m < n then coords[m].y else Zero
  {
    hide Add, Mul, Ratio, Xs, Distinct;
    if n > 0 {
      var j := n - 1;
      var x, y := coords[m].x, coords[j].y;
      ValueSumAtNode(coords, j, m);
      AddZero(y);
      if j == m {
        OthersAvoid(coords, j);
        RatioAtSelf(Others(coords, j), x);
        MulOne(y);
      } else {
        var k := if m < j then m else m - 1;
        assert Others(coords, j)[k] == coords[m];
        RatioAtOther(Others(coords, j), coords[j].x, k);
        MulZero(y);
        AddZero(ValueSum(coords, j, x));
      }
    }
  }

  ghost predicate PassesThrough(p: Polynomial, coords: seq<Point>) {
    forall k | 0 <= k < |coords| :: p.Evaluate(coords[k].x) == coords[k].y
  }

  // No leading zero, as the constructor leaves every polynomial.
  predicate Normalized(p: Polynomial) {
    |p.coefficients| > 0 ==> p.coefficients[|p.coefficients| - 1] != Zero
  }

  lemma TrimNormalizes(c: seq<GF256>)
    ensures Normalized(Make(c))
  {
    if |c| > 0 && c[|c| - 1] == Zero {
      TrimNormalizes(c[..|c| - 1]);
    }
  }

  lemma NormalizedEqual(p: Polynomial, q: Polynomial)
    requires Normalized(p) && Normalized(q)
    requires forall i: nat :: p.Coefficient(i) == q.Coefficient(i)
    ensures p == q
  {
    var a, b := p.coefficients, q.coefficients;
    assert |a| > 0 ==> p.Coefficient(|a| - 1) == q.Coefficient(|a| - 1);
    assert |b| > 0 ==> p.Coefficient(|b| - 1) == q.Coefficient(|b| - 1);
    forall i | 0 <= i < |a|
      ensures a[i] == b[i]
    {
      assert p.Coefficient(i) == q.Coefficient(i);
    }
  }

  lemma InterpolateNormalized(coords: seq<Point>, n: nat)
    requires n <= |coords| && Distinct(Xs(coords))
    ensures Normalized(InterpolateFirst(coords, n))
  {
    if n > 0 {
      OthersAvoid(coords, n - 1);
      hide Normalized, Polynomial.Plus, Polynomial.Scale, LagrangeProduct, Others, Distinct, Xs;
      PlusNormalized(InterpolateFirst(coords, n - 1),
                     LagrangeProduct(Others(coords, n - 1), coords[n - 1].x).Scale(coords[n - 1].y));
    }
  }

  lemma PlusNormalized(p: Polynomial, q: Polynomial)
    ensures Normalized(p.Plus(q))
  {
    hide Normalized, Add, Trim;
    var degree := if p.Degree() > q.Degree() then p.Degree() else q.Degree();
    TrimNormalizes(seq(degree + 1, i requires i >= 0 => Add(p.Coefficient(i), q.Coefficient(i))));
  }

  // interpolate fails exactly on no points or a repeated x; otherwise it is the one normalized
  // polynomial with at most as many coefficients as points that passes through all of them.
  lemma InterpolateUnique(coords: seq<Point>, q: Polynomial)
    requires |coords| > 0 && Distinct(Xs(coords))
    ensures Interpolate(coords).Ok?
    ensures var p := Interpolate(coords).value;
      Normalized(q) && |q.coefficients| <= |coords| && PassesThrough(q, coords) <==> q == p
  {
    NoDuplicatesIsDistinct(Xs(coords));
    var k := |coords|;
    var p := InterpolateFirst(coords, k);
    assert Interpolate(coords) == Ok(p);
    InterpolatePasses(coords);
    if Normalized(q) && |q.coefficients| <= k && PassesThrough(q, coords) {
      SamePolynomial(p, q, coords);
    }
  }

  lemma InterpolatePasses(coords: seq<Point>)
    requires Distinct(Xs(coords))
    ensures var p := InterpolateFirst(coords, |coords|);
      Normalized(p) && |p.coefficients| <= |coords| && PassesThrough(p, coords)
  {
    hide InterpolateFirst, ValueSum, Normalized, Distinct, Xs;
    var p := InterpolateFirst(coords, |coords|);
    InterpolateNormalized(coords, |coords|);
    InterpolateFirstEval(coords, |coords|, Zero);
    hide Polynomial.Evaluate;
    forall m | 0 <= m < |coords|
      ensures p.Evaluate(coords[m].x) == coords[m].y
    {
      InterpolateFirstEval(coords, |coords|, coords[m].x);
      ValueSumAtNode(coords, |coords|, m);
    }
  }

  lemma SamePolynomial(p: Polynomial, q: Polynomial, coords: seq<Point>)
    requires Distinct(Xs(coords))
    requires Normalized(p) && |p.coefficients| <= |coords| && PassesThrough(p, coords)
    requires Normalized(q) && |q.coefficients| <= |coords| && PassesThrough(q, coords)
    ensures p == q
  {
    hide Horner, Normalized, Distinct;
    forall k | 0 <= k < |coords|
      ensures Horner(p.coefficients, Xs(coords)[k]) == Horner(q.coefficients, Xs(coords)[k])
    {
      assert p.Evaluate(coords[k].x) == q.Evaluate(coords[k].x);
    }
    AgreeingPolynomialsEqual(p.coefficients, q.coefficients, Xs(coords));
    NormalizedEqual(p, q);
  }

  // ---------- combine equals the interpolant at zero ----------

  lemma {:induction false} XProductSplit(coords: seq<Point>, j: nat)
    requires j < |coords|
    ensures XProduct(coords) == Mul(coords[j].x, XProduct(Others(coords, j)))
  {
    hide Mul;
    var n := |coords| - 1;
    var front, xj, xn := coords[..n], coords[j].x, coords[n].x;
    if j == n {
      assert Others(coords, j) == front;
      MulComm(XProduct(front), xn);
    } else {
      XProductSplit(front, j);
      assert Others(coords, j)[..n - 1] == Others(front, j);
      MulAssoc(xj, XProduct(Others(front, j)), xn);
    }
  }

  lemma {:induction false} RatioAtZero(others: seq<Point>, xj: GF256)
    requires Avoids(others, xj)
    ensures DiffProduct(others, xj) != Zero
    ensures Mul(Ratio(others, xj, Zero), DiffProduct(others, xj)) == XProduct(others)
  {
    if |others| == 0 {
      OneIsNotZero();
      hide Mul;
      MulOne(One);
    } else {
      var n := |others| - 1;
      var xi := others[n].x;
      AddZero(xi);
      AddCancel(xj, xi);
      AddComm(xi, xj);
      hide Add, Mul, Div;
      var r, d, e := Ratio(others[..n], xj, Zero), DiffProduct(others[..n], xj), Add(xj, xi);
      RatioAtZero(others[..n], xj);
      MulNonZero(d, e);
      DivMul(xi, e);
      MulSwap(r, Div(xi, e), d, e);
    }
  }

  lemma MulSwap(a: GF256, b: GF256, c: GF256, d: GF256)
    ensures Mul(Mul(a, b), Mul(c, d)) == Mul(Mul(a, c), Mul(b, d))
  {
    hide Mul;
    MulAssoc(a, b, Mul(c, d));
    MulAssoc(b, c, d);
    MulComm(b, c);
    MulAssoc(c, b, d);
    MulAssoc(a, c, Mul(b, d));
  }

  // One term: the product of all x times y over its denominator is the basis value times y.
  lemma CombineTerm(x: GF256, y: GF256, r: GF256, d: GF256, n: GF256)
    requires x != Zero && d != Zero && Mul(r, d) == n
    ensures Mul(x, d) != Zero
    ensures Mul(Mul(x, n), Div(y, Mul(x, d))) == Mul(r, y)
  {
    hide Mul, Div;
    MulNonZero(x, d);
    var q := Div(y, Mul(x, d));
    DivMul(y, Mul(x, d));
    MulComm(r, d);
    MulAssoc(x, d, r);
    MulAssoc(Mul(x, d), r, q);
    MulComm(r, q);
    MulAssoc(Mul(x, d), q, r);
    MulComm(Mul(x, d), q);
    MulComm(y, r);
  }

  lemma {:induction false} QuotientIsValueSum(coords: seq<Point>, n: nat)
    requires n <= |coords| && Distinct(Xs(coords))
    requires Avoids(coords, Zero)
    ensures Quotient(coords, n).Ok?
    ensures Mul(XProduct(coords), Quotient(coords, n).value) == ValueSum(coords, n, Zero)
  {
    hide Add, Mul, Div, Xs, Distinct, Ratio, DiffProduct, XProduct;
    if n == 0 {
      MulZero(XProduct(coords));
    } else {
      var j := n - 1;
      var x, y, others := coords[j].x, coords[j].y, Others(coords, j);
      QuotientIsValueSum(coords, j);
      OthersAvoid(coords, j);
      RatioAtZero(others, x);
      XProductSplit(coords, j);
      CombineTerm(x, y, Ratio(others, x, Zero), DiffProduct(others, x), XProduct(others));
      MulAdd(Quotient(coords, j).value, Div(y, Mul(x, DiffProduct(others, x))), XProduct(coords));
    }
  }

  lemma {:induction false} QuotientOfZeroX(coords: seq<Point>, n: nat, k: nat)
    requires k < n <= |coords| && coords[k].x == Zero
    ensures Quotient(coords, n) == Err(ZeroLog)
  {
    hide Add, Mul, Div, DiffProduct;
    if k == n - 1 {
      MulZero(DiffProduct(Others(coords, k), Zero));
    } else {
      QuotientOfZeroX(coords, n - 1, k);
    }
    QuotientError(coords, n - 1);
  }

  lemma {:induction false} QuotientError(coords: seq<Point>, n: nat)
    requires n <= |coords|
    ensures Quotient(coords, n).Err? ==> Quotient(coords, n) == Err(ZeroLog)
  {
    hide Add, Mul, Div, DiffProduct;
    if n > 0 {
      QuotientError(coords, n - 1);
    }
  }

  // For distinct x, combine throws exactly when some x is zero, and otherwise returns the
  // value at zero of the interpolating polynomial.
  lemma CombineIsInterpolateAtZero(coords: seq<Point>)
    requires |coords| > 0 && Distinct(Xs(coords))
    ensures Interpolate(coords).Ok?
    ensures Combine(coords) ==
      if Avoids(coords, Zero) then Ok(Interpolate(coords).value.Evaluate(Zero)) else Err(ZeroLog)
  {
    hide Add, Mul, Quotient, ValueSum, Distinct, XProduct, InterpolateFirst, Polynomial.Evaluate;
    NoDuplicatesIsDistinct(Xs(coords));
    var n := |coords|;
    if Avoids(coords, Zero) {
      QuotientIsValueSum(coords, n);
      InterpolateFirstEval(coords, n, Zero);
    } else {
      var k: nat :| k < n && coords[k].x == Zero;
      QuotientOfZeroX(coords, n, k);
    }
  }
}
