// Polynomials over GF(2^8): the ring operations of the program, root counting,
// Lagrange interpolation and the faster evaluation of the interpolant at zero.

module Polynomials {
  import opened Wrappers
  import opened Galois

  // The coefficients in ascending order; the constructor drops leading zeros.
  datatype Polynomial = Polynomial(coefficients: seq<GF256>) {
    function Degree(): nat {
      if |coefficients| == 0 then 0 else |coefficients| - 1
    }

    function Coefficient(i: nat): GF256 {
      Coef(coefficients, i)
    }

    function Plus(other: Polynomial): Polynomial {
      var degree := if Degree() > other.Degree() then Degree() else other.Degree();
      Make(seq(degree + 1, i requires i >= 0 => Add(Coefficient(i), other.Coefficient(i))))
    }

    function Times(other: Polynomial): Polynomial {
      Make(seq(Degree() + other.Degree() + 1, i requires i >= 0 => Convolution(coefficients, other.coefficients, i)))
    }

    function Scale(s: GF256): Polynomial {
      Make(Scaled(coefficients, s))
    }

    // (1 / s) * this; the program's division throws for s = 0.
    function DivideBy(s: GF256): Polynomial
      requires s != Zero
    {
      Scale(Div(One, s))
    }

    function Evaluate(x: GF256): GF256 {
      Horner(coefficients, x)
    }
  }

  const ZeroPoly := Polynomial([])
  const OnePoly := Polynomial([One])

  function Coef(c: seq<GF256>, i: nat): GF256 {
    if i >= |c| then Zero else c[i]
  }

  function Scaled(c: seq<GF256>, s: GF256): seq<GF256> {
    seq(|c|, i requires 0 <= i < |c| => Mul(c[i], s))
  }

  function Trim(c: seq<GF256>): seq<GF256> {
    if |c| > 0 && c[|c| - 1] == Zero then Trim(c[..|c| - 1]) else c
  }

  function Make(c: seq<GF256>): Polynomial {
    Polynomial(Trim(c))
  }

  // x + c.
  function MonicLinear(c: GF256): Polynomial {
    Make([c, One])
  }

  // The first n products of the i-th coefficient of a * b.
  function PartialConvolution(a: seq<GF256>, b: seq<GF256>, i: nat, n: nat): GF256
    requires n <= i + 1
  {
    if n == 0 then Zero
    else Add(PartialConvolution(a, b, i, n - 1), Mul(Coef(a, n - 1), Coef(b, i - (n - 1))))
  }

  function Convolution(a: seq<GF256>, b: seq<GF256>, i: nat): GF256 {
    PartialConvolution(a, b, i, i + 1)
  }

  function Horner(c: seq<GF256>, x: GF256): GF256 {
    if |c| == 0 then Zero else Add(Mul(Horner(c[1..], x), x), c[0])
  }

  // ---------- The loops of the source ----------

  // The constructor.
  method NewPolynomial(coefficients: seq<GF256>) returns (p: Polynomial)
    ensures p == Make(coefficients)
    ensures |p.coefficients| > 0 ==> p.coefficients[|p.coefficients| - 1] != Zero
    ensures forall i: nat :: p.Coefficient(i) == Coef(coefficients, i)
  {
    var c := coefficients;
    while |c| > 0 && c[|c| - 1] == Zero
      invariant Trim(c) == Trim(coefficients)
      invariant forall i: nat :: Coef(c, i) == Coef(coefficients, i)
      decreases |c|
    {
      c := c[..|c| - 1];
    }
    p := Polynomial(c);
  }

  // The inner loop of mul: it skips the products beyond either degree.
  method MulCoefficient(p: Polynomial, q: Polynomial, i: nat) returns (sum: GF256)
    ensures sum == Convolution(p.coefficients, q.coefficients, i)
  {
    hide Add, Mul;
    sum := Zero;
    for j := 0 to i + 1
      invariant sum == PartialConvolution(p.coefficients, q.coefficients, i, j)
    {
      if j <= p.Degree() && i - j <= q.Degree() {
        sum := Add(sum, Mul(p.Coefficient(j), q.Coefficient(i - j)));
      } else {
        MulZero(p.Coefficient(j));
        MulZero(q.Coefficient(i - j));
        AddZero(sum);
      }
    }
  }

  // ---------- Evaluation is a ring homomorphism ----------

  function Tail(c: seq<GF256>): seq<GF256> {
    if |c| == 0 then [] else c[1..]
  }

  lemma TrimKeepsCoefficients(c: seq<GF256>)
    ensures forall i: nat :: Coef(Trim(c), i) == Coef(c, i)
    ensures |Trim(c)| <= |c|
  {
    hide Add, Mul;
  }

  lemma HornerStep(c: seq<GF256>, x: GF256)
    ensures Horner(c, x) == Add(Mul(Horner(Tail(c), x), x), Coef(c, 0))
  {
    hide Add, Mul;
    if |c| == 0 {
      MulZero(x);
      AddZero(Zero);
    }
  }

  // Evaluation depends on the coefficients only.
  lemma {:induction false} HornerExt(a: seq<GF256>, b: seq<GF256>, x: GF256)
    requires forall i: nat :: Coef(a, i) == Coef(b, i)
    ensures Horner(a, x) == Horner(b, x)
    decreases |a| + |b|
  {
    hide Add, Mul;
    if |a| + |b| > 0 {
      HornerStep(a, x);
      HornerStep(b, x);
      hide Horner;
      assert forall i: nat :: Coef(Tail(a), i) == Coef(a, i + 1) && Coef(Tail(b), i) == Coef(b, i + 1);
      HornerExt(Tail(a), Tail(b), x);
    }
  }

  lemma {:induction false} HornerAdd(a: seq<GF256>, b: seq<GF256>, c: seq<GF256>, x: GF256)
    requires forall i: nat :: Coef(c, i) == Add(Coef(a, i), Coef(b, i))
    ensures Horner(c, x) == Add(Horner(a, x), Horner(b, x))
    decreases |a| + |b| + |c|
  {
    hide Add, Mul;
    if |a| + |b| + |c| == 0 {
      AddZero(Zero);
    } else {
      HornerStep(a, x);
      HornerStep(b, x);
      HornerStep(c, x);
      hide Horner;
      forall i: nat
        ensures Coef(Tail(c), i) == Add(Coef(Tail(a), i), Coef(Tail(b), i))
      {
        assert Coef(c, i + 1) == Add(Coef(a, i + 1), Coef(b, i + 1));
      }
      HornerAdd(Tail(a), Tail(b), Tail(c), x);
      MulAdd(Horner(Tail(a), x), Horner(Tail(b), x), x);
      AddSwap(Mul(Horner(Tail(a), x), x), Mul(Horner(Tail(b), x), x), Coef(a, 0), Coef(b, 0));
    }
  }

  lemma {:induction false} HornerScale(a: seq<GF256>, s: GF256, c: seq<GF256>, x: GF256)
    requires forall i: nat :: Coef(c, i) == Mul(Coef(a, i), s)
    ensures Horner(c, x) == Mul(Horner(a, x), s)
    decreases |a| + |c|
  {
    hide Add, Mul;
    if |a| + |c| == 0 {
      MulZero(s);
    } else {
      HornerStep(a, x);
      HornerStep(c, x);
      hide Horner;
      forall i: nat
        ensures Coef(Tail(c), i) == Mul(Coef(Tail(a), i), s)
      {
        MulZero(s);
        assert Coef(c, i + 1) == Mul(Coef(a, i + 1), s);
      }
      HornerScale(Tail(a), s, Tail(c), x);
      var h := Horner(Tail(a), x);
      MulAdd(Mul(h, x), Coef(a, 0), s);
      MulAssoc(h, x, s);
      MulComm(x, s);
      MulAssoc(h, s, x);
    }
  }

  // The product by the first coefficient of a, plus x times the product by the rest.
  lemma {:induction false} PartialConvolutionFront(a: seq<GF256>, b: seq<GF256>, i: nat, n: nat)
    requires n <= i
    ensures PartialConvolution(a, b, i, n + 1)
         == Add(Mul(Coef(a, 0), Coef(b, i)),
                if i == 0 then Zero else PartialConvolution(Tail(a), b, i - 1, n))
  {
    hide Add, Mul;
    var first := Mul(Coef(a, 0), Coef(b, i));
    if n == 0 {
      AddZero(first);
    } else {
      PartialConvolutionFront(a, b, i, n - 1);
      assert Coef(a, n) == Coef(Tail(a), n - 1);
      AddAssoc(first, PartialConvolution(Tail(a), b, i - 1, n - 1), Mul(Coef(a, n), Coef(b, i - n)));
    }
  }

  lemma {:induction false} PartialConvolutionBeyond(a: seq<GF256>, b: seq<GF256>, i: nat, n: nat)
    requires n <= i + 1 && |a| + |b| <= i + 1
    ensures PartialConvolution(a, b, i, n) == Zero
  {
    hide Add, Mul;
    if n > 0 {
      PartialConvolutionBeyond(a, b, i, n - 1);
      MulZero(Coef(a, n - 1));
      MulZero(Coef(b, i - (n - 1)));
      AddZero(Zero);
    }
  }

  function ConvolutionSeq(a: seq<GF256>, b: seq<GF256>): seq<GF256> {
    seq(|a| + |b|, i requires i >= 0 => Convolution(a, b, i))
  }

  lemma ConvolutionSeqAt(a: seq<GF256>, b: seq<GF256>, i: nat)
    ensures Coef(ConvolutionSeq(a, b), i) == Convolution(a, b, i)
  {
    hide PartialConvolution, Add, Mul;
    if i >= |a| + |b| {
      PartialConvolutionBeyond(a, b, i, i + 1);
    }
  }

  lemma {:induction false} HornerProduct(a: seq<GF256>, b: seq<GF256>, x: GF256)
    ensures Horner(ConvolutionSeq(a, b), x) == Mul(Horner(a, x), Horner(b, x))
    decreases |a|
  {
    hide Add, Mul;
    var c := ConvolutionSeq(a, b);
    if |a| == 0 {
      forall i: nat
        ensures Coef(c, i) == Coef([], i)
      {
        ConvolutionSeqAt(a, b, i);
        PartialConvolutionEmpty(a, b, i, i + 1);
      }
      HornerExt(c, [], x);
      MulZero(Horner(b, x));
    } else {
      HornerProductStep(a, b, x);
      HornerProduct(Tail(a), b, x);
      HornerStep(a, x);
      hide Horner;
      var t, h := Horner(Tail(a), x), Horner(b, x);
      MulComm(a[0], h);
      MulAssoc(t, h, x);
      MulComm(h, x);
      MulAssoc(t, x, h);
      MulAdd(Mul(t, x), a[0], h);
      AddComm(Mul(a[0], h), Mul(Mul(t, h), x));
    }
  }

  lemma {:induction false} PartialConvolutionEmpty(a: seq<GF256>, b: seq<GF256>, i: nat, n: nat)
    requires n <= i + 1 && |a| == 0
    ensures PartialConvolution(a, b, i, n) == Zero
  {
    hide Add, Mul;
    if n > 0 {
      PartialConvolutionEmpty(a, b, i, n - 1);
      MulZero(Coef(b, i - (n - 1)));
      AddZero(Zero);
    }
  }

  lemma HornerProductStep(a: seq<GF256>, b: seq<GF256>, x: GF256)
    requires |a| > 0
    ensures Horner(ConvolutionSeq(a, b), x)
         == Add(Mul(Horner(b, x), a[0]), Mul(Horner(ConvolutionSeq(Tail(a), b), x), x))
  {
    hide Add, Mul, PartialConvolution;
    var first := Scaled(b, a[0]);
    var rest := ConvolutionSeq(Tail(a), b);
    var shifted := [Zero] + rest;
    forall i: nat
      ensures Coef(ConvolutionSeq(a, b), i) == Add(Coef(first, i), Coef(shifted, i))
    {
      ConvolutionSeqAt(a, b, i);
      PartialConvolutionFront(a, b, i, i);
      MulZero(a[0]);
      MulComm(a[0], Coef(b, i));
      if i > 0 {
        ConvolutionSeqAt(Tail(a), b, i - 1);
      }
    }
    hide ConvolutionSeq;
    HornerAdd(first, shifted, ConvolutionSeq(a, b), x);
    MulZero(a[0]);
    HornerScale(b, a[0], first, x);
    HornerStep(shifted, x);
    AddZero(Mul(Horner(rest, x), x));
  }

  // The three ring operations of the program and evaluation commute.
  lemma EvaluatePlus(p: Polynomial, q: Polynomial, x: GF256)
    ensures p.Plus(q).Evaluate(x) == Add(p.Evaluate(x), q.Evaluate(x))
  {
    hide Add, Mul, Horner, Trim;
    var degree := if p.Degree() > q.Degree() then p.Degree() else q.Degree();
    var c := seq(degree + 1, i requires i >= 0 => Add(p.Coefficient(i), q.Coefficient(i)));
    TrimKeepsCoefficients(c);
    AddZero(Zero);
    HornerExt(Trim(c), c, x);
    HornerAdd(p.coefficients, q.coefficients, c, x);
  }

  lemma EvaluateTimes(p: Polynomial, q: Polynomial, x: GF256)
    ensures p.Times(q).Evaluate(x) == Mul(p.Evaluate(x), q.Evaluate(x))
  {
    hide Add, Mul, Horner, Trim, PartialConvolution;
    var a, b := p.coefficients, q.coefficients;
    var c := seq(p.Degree() + q.Degree() + 1, i requires i >= 0 => Convolution(a, b, i));
    TrimKeepsCoefficients(c);
    forall i: nat
      ensures Coef(c, i) == Coef(ConvolutionSeq(a, b), i)
    {
      ConvolutionSeqAt(a, b, i);
      if i >= |c| {
        if |a| == 0 {
          PartialConvolutionEmpty(a, b, i, i + 1);
        } else {
          PartialConvolutionBeyond(a, b, i, i + 1);
        }
      }
    }
    HornerExt(Trim(c), c, x);
    HornerExt(c, ConvolutionSeq(a, b), x);
    HornerProduct(a, b, x);
  }

  lemma EvaluateScale(p: Polynomial, s: GF256, x: GF256)
    ensures p.Scale(s).Evaluate(x) == Mul(p.Evaluate(x), s)
  {
    hide Add, Mul, Horner, Trim;
    var a := p.coefficients;
    var c := Scaled(a, s);
    TrimKeepsCoefficients(c);
    MulZero(s);
    assert forall i: nat :: Coef(c, i) == Mul(Coef(a, i), s);
    HornerExt(Trim(c), c, x);
    HornerScale(a, s, c, x);
  }

  // ---------- Root counting ----------

  // The quotient of c by x + r.
  function Deflate(c: seq<GF256>, r: GF256): seq<GF256> {
    if |c| <= 1 then [] else [Horner(c[1..], r)] + Deflate(c[1..], r)
  }

  lemma DeflateRing(e: GF256, q: GF256, x: GF256, r: GF256, c0: GF256)
    ensures Add(Mul(Add(e, Mul(Add(x, r), q)), x), c0)
         == Add(Add(Mul(e, r), c0), Mul(Add(x, r), Add(Mul(q, x), e)))
  {
    hide Mul;
    hide Add;
    var d := Add(x, r);
    MulAdd(e, Mul(d, q), x);
    MulAssoc(d, q, x);
    MulAdd(Mul(q, x), e, d);
    MulAdd(x, r, e);
    MulComm(e, x);
    MulComm(e, r);
    DeflateSum(Mul(e, x), Mul(e, r), Mul(d, Mul(q, x)), c0);
  }

  lemma DeflateSum(ex: GF256, er: GF256, rest: GF256, c0: GF256)
    ensures Add(Add(ex, rest), c0) == Add(Add(er, c0), Add(rest, Add(ex, er)))
  {
  }

  lemma {:induction false} DeflateEval(c: seq<GF256>, r: GF256, x: GF256)
    ensures Horner(c, x) == Add(Horner(c, r), Mul(Add(x, r), Horner(Deflate(c, r), x)))
    decreases |c|
  {
    hide Add, Mul;
    MulZero(Add(x, r));
    if |c| == 0 {
      AddZero(Zero);
    } else if |c| == 1 {
      MulZero(x);
      MulZero(r);
      AddZero(c[0]);
    } else {
      var t := c[1..];
      DeflateEval(t, r, x);
      assert Deflate(c, r)[1..] == Deflate(t, r);
      DeflateRing(Horner(t, r), Horner(Deflate(t, r), x), x, r, c[0]);
    }
  }

  lemma {:induction false} DeflateLength(c: seq<GF256>, r: GF256)
    ensures |Deflate(c, r)| == if |c| == 0 then 0 else |c| - 1
    decreases |c|
  {
    hide Horner;
    if |c| > 1 {
      DeflateLength(c[1..], r);
    }
  }

  predicate AllZero(c: seq<GF256>) {
    forall i | 0 <= i < |c| :: c[i] == Zero
  }

  lemma {:induction false} DeflateZero(c: seq<GF256>, r: GF256)
    requires AllZero(Deflate(c, r)) && Horner(c, r) == Zero
    ensures AllZero(c)
    decreases |c|
  {
    hide Add, Mul;
    if |c| == 1 {
      MulZero(r);
      AddZero(c[0]);
    } else if |c| > 1 {
      var d := Deflate(c, r);
      DeflateLength(c, r);
      assert Deflate(c[1..], r) == d[1..];
      assert d[0] == Zero;
      DeflateZero(c[1..], r);
      MulZero(r);
      AddZero(c[0]);
      assert forall i | 0 < i < |c| :: c[i] == c[1..][i - 1];
    }
  }

  predicate Distinct(xs: seq<GF256>) {
    forall i, j | 0 <= i < j < |xs| :: xs[i] != xs[j]
  }

  // A polynomial with no more coefficients than distinct roots is zero.
  lemma {:induction false} RootBound(c: seq<GF256>, roots: seq<GF256>)
    requires Distinct(roots) && |c| <= |roots|
    requires forall k | 0 <= k < |roots| :: Horner(c, roots[k]) == Zero
    ensures AllZero(c)
    decreases |roots|
  {
    if |c| > 0 {
      var r, rest := roots[0], roots[1..];
      DeflateLength(c, r);
      forall k | 0 <= k < |rest|
        ensures Horner(Deflate(c, r), rest[k]) == Zero
      {
        hide Horner, Deflate, Add, Mul;
        assert rest[k] == roots[k + 1];
        DeflateEval(c, r, rest[k]);
        AddZero(Mul(Add(rest[k], r), Horner(Deflate(c, r), rest[k])));
        AddCancel(rest[k], r);
        MulNonZero(Add(rest[k], r), Horner(Deflate(c, r), rest[k]));
      }
      hide Horner, Deflate;
      RootBound(Deflate(c, r), rest);
      DeflateZero(c, r);
    }
  }

  // Two polynomials that agree on as many points as they have coefficients are equal.
  lemma AgreeingPolynomialsEqual(a: seq<GF256>, b: seq<GF256>, xs: seq<GF256>)
    requires Distinct(xs) && |a| <= |xs| && |b| <= |xs|
    requires forall k | 0 <= k < |xs| :: Horner(a, xs[k]) == Horner(b, xs[k])
    ensures forall i: nat :: Coef(a, i) == Coef(b, i)
  {
    hide Horner, Add, Mul;
    var n := if |a| > |b| then |a| else |b|;
    var c := seq(n, i requires i >= 0 => Add(Coef(a, i), Coef(b, i)));
    AddZero(Zero);
    assert forall i: nat :: Coef(c, i) == Add(Coef(a, i), Coef(b, i));
    forall k | 0 <= k < |xs|
      ensures Horner(c, xs[k]) == Zero
    {
      HornerAdd(a, b, c, xs[k]);
      AddZero(Horner(a, xs[k]));
    }
    RootBound(c, xs);
    forall i: nat
      ensures Coef(a, i) == Coef(b, i)
    {
      if i < n {
        assert c[i] == Zero;
        AddCancel(Coef(a, i), Coef(b, i));
      }
    }
  }
}
