// Residues modulo a prime: the scalars and, as exponents of a fixed generator, the elements
// of the prime-order groups the program computes in.

module Modular {
  // The residue of x; for q > 0 Dafny's % is never negative.
  function M(q: nat, x: int): (r: nat)
    requires q > 0
    ensures r < q
  {
    x % q
  }

  lemma MulBound(n: int, q: int)
    requires q > 0
    ensures n >= 1 ==> n * q >= q
    ensures n <= -1 ==> n * q <= -q
  {
  }

  // r is the residue of x when they differ by a multiple of q.
  lemma ResidueUnique(q: nat, x: int, k: int, r: int)
    requires q > 0 && x == k * q + r && 0 <= r < q
    ensures M(q, x) == r
  {
    var d := x / q;
    assert x == d * q + x % q;
    assert (k - d) * q == x % q - r;
    MulBound(k - d, q);
  }

  lemma Shift(q: nat, x: int, k: int)
    requires q > 0
    ensures M(q, x + k * q) == M(q, x)
  {
    var d := x / q;
    assert x == d * q + x % q;
    assert x + k * q == (d + k) * q + x % q;
    ResidueUnique(q, x + k * q, d + k, x % q);
  }

  lemma Canonical(q: nat, x: int)
    requires 0 <= x < q
    ensures M(q, x) == x
  {
    ResidueUnique(q, x, 0, x);
  }

  lemma Idempotent(q: nat, x: int)
    requires q > 0
    ensures M(q, M(q, x)) == M(q, x)
  {
    Canonical(q, M(q, x));
  }

  lemma AddM(q: nat, a: int, b: int)
    requires q > 0
    ensures M(q, M(q, a) + b) == M(q, a + b)
    ensures M(q, b + M(q, a)) == M(q, a + b)
  {
    var d := a / q;
    assert a == d * q + a % q;
    Shift(q, M(q, a) + b, d);
  }

  lemma SubM(q: nat, a: int, b: int)
    requires q > 0
    ensures M(q, a - M(q, b)) == M(q, a - b)
  {
    var d := b / q;
    assert b == d * q + b % q;
    assert a - M(q, b) == (a - b) + d * q;
    Shift(q, a - b, d);
  }

  lemma MulM(q: nat, a: int, b: int)
    requires q > 0
    ensures M(q, M(q, a) * b) == M(q, a * b)
    ensures M(q, b * M(q, a)) == M(q, a * b)
  {
    var d := a / q;
    var m := a % q;
    assert a == d * q + m;
    MulShift(q, d, m, b);
    Shift(q, m * b, d * b);
  }

  lemma MulShift(q: int, d: int, m: int, b: int)
    ensures (d * q + m) * b == m * b + (d * b) * q
    ensures m * b == b * m
  {
  }

  // Congruence is having the same residue.
  lemma DifferenceZero(q: nat, a: int, b: int)
    requires q > 0
    ensures M(q, a) == M(q, b) <==> M(q, a - b) == 0
  {
    if M(q, a) == M(q, b) {
      var r: int := M(q, b);
      SubM(q, a, b);
      AddM(q, a, 0 - r);
      Canonical(q, 0);
    }
    if M(q, a - b) == 0 {
      AddM(q, a - b, b);
    }
  }

  // ---------- Congruence ----------

  predicate Same(q: nat, a: int, b: int)
    requires q > 0
  {
    M(q, a) == M(q, b)
  }

  lemma SameM(q: nat, a: int)
    requires q > 0
    ensures Same(q, M(q, a), a)
  {
    Idempotent(q, a);
  }

  lemma SameAdd(q: nat, a: int, b: int, c: int, d: int)
    requires q > 0 && Same(q, a, b) && Same(q, c, d)
    ensures Same(q, a + c, b + d)
  {
    hide M;
    AddM(q, a, c);
    AddM(q, b, c);
    AddM(q, c, b);
    AddM(q, d, b);
  }

  lemma SameSub(q: nat, a: int, b: int, c: int, d: int)
    requires q > 0 && Same(q, a, b) && Same(q, c, d)
    ensures Same(q, a - c, b - d)
  {
    hide M;
    AddM(q, a, -c);
    AddM(q, b, -c);
    SubM(q, b, c);
    SubM(q, b, d);
  }

  lemma SameMul(q: nat, a: int, b: int, c: int, d: int)
    requires q > 0 && Same(q, a, b) && Same(q, c, d)
    ensures Same(q, a * c, b * d)
  {
    hide M;
    MulM(q, a, c);
    MulM(q, b, c);
    MulM(q, c, b);
    MulM(q, d, b);
    Commute(c, b);
    Commute(d, b);
  }

  // ---------- Primes and inverses ----------

  ghost predicate Divides(d: int, x: int) {
    exists k :: x == k * d
  }

  ghost predicate Prime(q: nat) {
    q > 1 && forall d: nat | 1 < d < q :: !Divides(d, q)
  }

  // Extended Euclid: the greatest common divisor with its Bezout coefficients.
  lemma {:induction false} Bezout(a: nat, b: nat) returns (g: nat, s: int, t: int)
    requires a > 0
    ensures g > 0 && Divides(g, a) && Divides(g, b) && g == s * a + t * b
    decreases b
  {
    if b == 0 {
      g, s, t := a, 1, 0;
      assert a == 1 * a && b == 0 * a;
    } else {
      var d, r := a / b, a % b;
      assert a == d * b + r;
      var s1, t1;
      g, s1, t1 := Bezout(b, r);
      var kb :| b == kb * g;
      var kr :| r == kr * g;
      BezoutStep(a, b, d, r, g, s1, t1, kb, kr);
      s, t := t1, s1 - d * t1;
    }
  }

  lemma BezoutStep(a: int, b: int, d: int, r: int, g: int, s1: int, t1: int, kb: int, kr: int)
    requires a == d * b + r && b == kb * g && r == kr * g && g == s1 * b + t1 * r
    ensures Divides(g, a) && g == t1 * a + (s1 - d * t1) * b
  {
    assert a == (d * kb + kr) * g by {
      assert d * (kb * g) == (d * kb) * g;
      assert (d * kb + kr) * g == (d * kb) * g + kr * g;
    }
    assert t1 * (d * b + r) == t1 * (d * b) + t1 * r;
    assert t1 * (d * b) == (d * t1) * b;
    assert (s1 - d * t1) * b == s1 * b - (d * t1) * b;
  }

  lemma DivisorBound(g: int, a: int)
    requires g > 0 && a > 0 && Divides(g, a)
    ensures g <= a
  {
    var k :| a == k * g;
    MulBound(k - 1, g);
    if k <= 0 {
      MulBound(-k, g);
      assert k * g == -(-k * g);
    }
  }

  lemma GcdOfPrime(q: nat, a: nat, g: int)
    requires Prime(q) && 0 < a < q && g > 0 && Divides(g, a) && Divides(g, q)
    ensures g == 1
  {
    DivisorBound(g, a);
  }

  lemma InverseExists(q: nat, a: nat) returns (x: nat)
    requires Prime(q) && 0 < a < q
    ensures 0 < x < q && M(q, a * x) == 1
  {
    var g, s, t := Bezout(a, q);
    GcdOfPrime(q, a, g);
    hide Prime, M;
    x := M(q, s);
    MulM(q, s, a);
    Commute(s, a);
    Shift(q, 1, -t);
    assert s * a == 1 + (-t) * q;
    Canonical(q, 1);
    Commute(a, x);
    if x == 0 {
      Canonical(q, 0);
    }
  }

  lemma Commute(a: int, b: int)
    ensures a * b == b * a
  {
  }

  lemma HasInverse(q: nat, a: nat)
    requires Prime(q) && 0 < a < q
    ensures exists x: nat :: 0 < x < q && M(q, a * x) == 1
  {
    var x := InverseExists(q, a);
  }

  // Fn.inv.
  ghost function Inv(q: nat, a: nat): (x: nat)
    requires Prime(q) && 0 < a < q
    ensures 0 < x < q && M(q, a * x) == 1
  {
    HasInverse(q, a);
    var x: nat :| 0 < x < q && M(q, a * x) == 1;
    x
  }

  // Multiplication by an invertible residue can be cancelled.
  lemma Cancel(q: nat, a: int, b: int, h: nat)
    requires Prime(q) && 0 < h < q && M(q, a * h) == M(q, b * h)
    ensures M(q, a) == M(q, b)
  {
    var k := Inv(q, h);
    CancelSide(q, a, h, k);
    CancelSide(q, b, h, k);
  }

  lemma CancelSide(q: nat, a: int, h: int, k: int)
    requires q > 0 && M(q, h * k) == 1
    ensures M(q, M(q, a * h) * k) == M(q, a)
  {
    MulM(q, a * h, k);
    assert (a * h) * k == (h * k) * a;
    MulM(q, h * k, a);
  }
}
