// The sigma protocols: equality of discrete logarithms, and consistency of an encrypted
// private key. Challenges are an arbitrary function of the transcript.

module Nizk {
  import opened Wrappers
  import opened Modular
  import opened Ristretto
  import opened ElGamal
  import DiscreteLog

  // fiatShamirChallenge over one proof's domain tag: any function of the hashed elements.
  type Challenge = seq<Element> -> nat

  // ---------- Equality of discrete logarithms ----------

  datatype DdhStatement = DdhStatement(g: Element, h: Element, xG: Element, xH: Element)

  datatype DdhProof = DdhProof(a: Element, b: Element, z: nat)

  function DdhChallenge(challenge: Challenge, s: DdhStatement, a: Element, b: Element): nat {
    challenge([s.g, s.h, s.xG, s.xH, a, b])
  }

  function ProveDdh(curve: Curve, challenge: Challenge, r: nat, x: nat, s: DdhStatement): DdhProof
    requires curve.q > 0
  {
    var a, b := Mul(curve, s.g, r), Mul(curve, s.h, r);
    var c := DdhChallenge(challenge, s, a, b);
    DdhProof(a, b, M(curve.q, r + c * x))
  }

  // isValidRelation: e1 = z * e3 - c * e2.
  predicate ValidRelation(curve: Curve, e1: Element, e2: Element, e3: Element, z: nat, c: nat)
    requires curve.q > 0
  {
    e1 == M(curve.q, Mul(curve, e3, z) - Mul(curve, e2, c))
  }

  predicate DdhAccepts(curve: Curve, c: nat, proof: DdhProof, s: DdhStatement)
    requires curve.q > 0
  {
    && ValidRelation(curve, proof.a, s.xG, s.g, proof.z, c)
    && ValidRelation(curve, proof.b, s.xH, s.h, proof.z, c)
  }

  predicate VerifyDdh(curve: Curve, challenge: Challenge, proof: DdhProof, s: DdhStatement)
    requires curve.q > 0
  {
    DdhAccepts(curve, DdhChallenge(challenge, s, proof.a, proof.b), proof, s)
  }

  ghost predicate DdhHolds(curve: Curve, x: int, s: DdhStatement)
    requires curve.q > 0
  {
    Same(curve.q, s.xG, x * s.g) && Same(curve.q, s.xH, x * s.h)
  }

  lemma RelationIs(curve: Curve, e1: Element, e2: Element, e3: Element, z: nat, c: nat)
    requires curve.q > 0 && e1 < curve.q
    ensures ValidRelation(curve, e1, e2, e3, z, c) <==> Same(curve.q, e1, z * e3 - c * e2)
  {
    hide M;
    var q := curve.q;
    SameM(q, z * e3);
    SameM(q, c * e2);
    SameSub(q, M(q, z * e3), z * e3, M(q, c * e2), c * e2);
    Canonical(q, e1);
  }

  // One relation of the honest prover holds exactly when the challenge vanishes or the
  // statement is true.
  lemma HonestRelation(curve: Curve, r: nat, x: nat, c: nat, e3: Element, e2: Element)
    requires curve.Valid()
    ensures ValidRelation(curve, Mul(curve, e3, r), e2, e3, M(curve.q, r + c * x), c)
      <==> Same(curve.q, c, 0) || Same(curve.q, e2, x * e3)
  {
    hide Prime, M;
    var q := curve.q;
    var e1, z := Mul(curve, e3, r), M(q, r + c * x);
    RelationIs(curve, e1, e2, e3, z, c);
    SameM(q, r * e3);
    SameM(q, r + c * x);
    SameMul(q, z, r + c * x, e3, e3);
    SameSub(q, z * e3, (r + c * x) * e3, c * e2, c * e2);
    HonestSum(r, x, c, e3, e2);
    var d := x * e3 - e2;
    assert Same(q, z * e3 - c * e2, r * e3 + c * d);
    DifferenceZero(q, r * e3 + c * d, r * e3);
    assert Same(q, e1, z * e3 - c * e2) <==> M(q, c * d) == 0;
    ProductZero(q, c, d);
    Canonical(q, 0);
    DifferenceZero(q, x * e3, e2);
  }

  lemma HonestSum(r: int, x: int, c: int, e3: int, e2: int)
    ensures (r + c * x) * e3 - c * e2 == r * e3 + c * (x * e3 - e2)
  {
    assert (c * x) * e3 == c * (x * e3);
  }

  lemma ProductZero(q: nat, c: int, d: int)
    requires Prime(q)
    ensures M(q, c * d) == 0 <==> M(q, c) == 0 || M(q, d) == 0
  {
    assert q > 1;
    hide M, Prime;
    Canonical(q, 0);
    if M(q, c) == 0 || M(q, d) == 0 {
      MulM(q, c, d);
      MulM(q, d, c);
      assert 0 * d == 0 && c * 0 == 0;
    }
    if M(q, c * d) == 0 && M(q, c) != 0 {
      MulM(q, c, d);
      Commute(M(q, c), d);
      assert 0 * M(q, c) == 0;
      Cancel(q, d, 0, M(q, c));
    }
  }

  // One relation of a proof made for one base and checked for another.
  lemma MixedRelation(curve: Curve, r: nat, x: nat, c: nat, d: nat, made: Element, base: Element, e2: Element)
    requires curve.Valid() && Same(curve.q, e2, x * base)
    ensures ValidRelation(curve, Mul(curve, made, r), e2, base, M(curve.q, r + c * x), d)
      <==> M(curve.q, r * (made - base) - (c - d) * (x * base)) == 0
  {
    hide Prime, M;
    var q := curve.q;
    var e1, z := Mul(curve, made, r), M(q, r + c * x);
    RelationIs(curve, e1, e2, base, z, d);
    SameM(q, r * made);
    SameM(q, r + c * x);
    SameMul(q, z, r + c * x, base, base);
    Reflexive(q, d);
    SameMul(q, d, d, e2, x * base);
    SameSub(q, z * base, (r + c * x) * base, d * e2, d * (x * base));
    MixedSum(r, x, c, d, made, base);
    DifferenceZero(q, r * made, (r + c * x) * base - d * (x * base));
  }

  lemma MixedSum(r: int, x: int, c: int, d: int, made: int, base: int)
    ensures r * made - ((r + c * x) * base - d * (x * base)) == r * (made - base) - (c - d) * (x * base)
  {
    assert (r + c * x) * base == r * base + c * (x * base) by {
      assert (c * x) * base == c * (x * base);
    }
    assert r * (made - base) == r * made - r * base;
    assert (c - d) * (x * base) == c * (x * base) - d * (x * base);
  }

  // A proof made for s and checked for a true statement u with the same first base and key is
  // accepted exactly when both challenges agree and the second bases agree or the mask vanishes.
  lemma TransplantedProof(curve: Curve, challenge: Challenge, r: nat, x: nat, s: DdhStatement, u: DdhStatement)
    requires curve.Valid() && u.g == s.g && u.xG == s.xG && DdhHolds(curve, x, u)
    requires !Same(curve.q, s.g, 0) && !Same(curve.q, x, 0)
    ensures var p := ProveDdh(curve, challenge, r, x, s);
      VerifyDdh(curve, challenge, p, u)
      <==> Same(curve.q, DdhChallenge(challenge, s, p.a, p.b), DdhChallenge(challenge, u, p.a, p.b))
           && (Same(curve.q, r, 0) || Same(curve.q, s.h, u.h))
  {
    hide Prime, M, ValidRelation, Mul;
    var q, p := curve.q, ProveDdh(curve, challenge, r, x, s);
    var c, d := DdhChallenge(challenge, s, p.a, p.b), DdhChallenge(challenge, u, p.a, p.b);
    hide DdhChallenge;
    MixedRelation(curve, r, x, c, d, s.g, s.g, u.xG);
    MixedRelation(curve, r, x, c, d, s.h, u.h, u.xH);
    KeyRelation(q, r, x, c, d, s.g);
    if Same(q, c, d) {
      BaseRelation(q, r, x, c, d, s.h, u.h);
    }
  }

  lemma KeyRelation(q: nat, r: nat, x: nat, c: nat, d: nat, g: Element)
    requires Prime(q) && !Same(q, g, 0) && !Same(q, x, 0)
    ensures M(q, r * (g - g) - (c - d) * (x * g)) == 0 <==> Same(q, c, d)
  {
    hide M, Prime;
    assert r * (g - g) - (c - d) * (x * g) == (d - c) * (x * g);
    ProductZero(q, d - c, x * g);
    ProductZero(q, x, g);
    DifferenceZero(q, d, c);
    DifferenceZero(q, x, 0);
    DifferenceZero(q, g, 0);
  }

  lemma BaseRelation(q: nat, r: nat, x: nat, c: nat, d: nat, made: Element, base: Element)
    requires Prime(q) && Same(q, c, d)
    ensures M(q, r * (made - base) - (c - d) * (x * base)) == 0 <==> Same(q, r, 0) || Same(q, made, base)
  {
    hide M, Prime;
    DifferenceZero(q, c, d);
    ProductZero(q, c - d, x * base);
    SubM(q, r * (made - base), (c - d) * (x * base));
    ProductZero(q, r, made - base);
    DifferenceZero(q, r, 0);
    DifferenceZero(q, made, base);
  }

  // The verifier accepts an honest proof for every true statement, and for a false one only
  // when the challenge vanishes.
  lemma DdhCompleteness(curve: Curve, challenge: Challenge, r: nat, x: nat, s: DdhStatement)
    requires curve.Valid()
    ensures var p := ProveDdh(curve, challenge, r, x, s);
      var c := DdhChallenge(challenge, s, p.a, p.b);
      VerifyDdh(curve, challenge, p, s) <==> (DdhHolds(curve, x, s) || Same(curve.q, c, 0))
  {
    hide Prime, M, ValidRelation, Mul;
    var c := DdhChallenge(challenge, s, Mul(curve, s.g, r), Mul(curve, s.h, r));
    HonestRelation(curve, r, x, c, s.g, s.xG);
    HonestRelation(curve, r, x, c, s.h, s.xH);
  }

  // The inverse of the difference of two challenges.
  ghost function Slope(curve: Curve, c: nat, d: nat): nat
    requires curve.Valid() && !Same(curve.q, c, d)
  {
    DifferenceZero(curve.q, c, d);
    Inv(curve.q, M(curve.q, c - d))
  }

  // The witness two transcripts with different challenges determine.
  ghost function Extract(curve: Curve, c: nat, d: nat, z: nat, w: nat): nat
    requires curve.Valid() && !Same(curve.q, c, d)
  {
    M(curve.q, Slope(curve, c, d) * (z - w))
  }

  // If e + c*y = z*x and e + d*y = w*x then y is the extracted witness times x.
  lemma ExtractOne(curve: Curve, c: nat, d: nat, e: int, y: int, zx: int, wx: int)
    requires curve.Valid() && !Same(curve.q, c, d)
    requires Same(curve.q, e + c * y, zx) && Same(curve.q, e + d * y, wx)
    ensures Same(curve.q, y, Slope(curve, c, d) * (zx - wx))
  {
    hide Prime, M;
    var q := curve.q;
    DifferenceZero(q, c, d);
    var t := M(q, c - d);
    var k := Inv(q, t);
    SameSub(q, e + c * y, zx, e + d * y, wx);
    assert (e + c * y) - (e + d * y) == (c - d) * y;
    SameM(q, c - d);
    SameMul(q, t, c - d, y, y);
    InverseSame(q, t);
    assert Same(q, zx - wx, t * y);
    InverseMoves(q, t, k, zx - wx, y);
  }

  lemma ExtractTimes(curve: Curve, c: nat, d: nat, z: nat, w: nat, e: int, y: int, x: int)
    requires curve.Valid() && !Same(curve.q, c, d)
    requires Same(curve.q, e + c * y, z * x) && Same(curve.q, e + d * y, w * x)
    ensures Same(curve.q, y, Extract(curve, c, d, z, w) * x)
  {
    hide Prime, M, Slope;
    var q := curve.q;
    ExtractOne(curve, c, d, e, y, z * x, w * x);
    var k := Slope(curve, c, d);
    assert k * (z * x - w * x) == (k * (z - w)) * x by {
      assert z * x - w * x == (z - w) * x;
      assert k * ((z - w) * x) == (k * (z - w)) * x;
    }
    SameM(q, k * (z - w));
    SameMul(q, M(q, k * (z - w)), k * (z - w), x, x);
  }

  lemma RelationSum(q: nat, e: int, c: int, y: int, zx: int)
    requires q > 0
    ensures Same(q, e, zx - c * y) <==> Same(q, e + c * y, zx)
  {
    hide M;
    if Same(q, e, zx - c * y) {
      SameAdd(q, e, zx - c * y, c * y, c * y);
    }
    if Same(q, e + c * y, zx) {
      SameSub(q, e + c * y, zx, c * y, c * y);
    }
  }

  // Two accepting transcripts with the same commitments and different challenges yield the
  // common discrete logarithm.
  lemma DdhSoundness(curve: Curve, c: nat, d: nat, p: DdhProof, o: DdhProof, s: DdhStatement)
    requires curve.Valid() && p.a == o.a < curve.q && p.b == o.b < curve.q && !Same(curve.q, c, d)
    requires DdhAccepts(curve, c, p, s) && DdhAccepts(curve, d, o, s)
    ensures DdhHolds(curve, Extract(curve, c, d, p.z, o.z), s)
  {
    hide Prime, M, ValidRelation, Extract;
    var q := curve.q;
    RelationIs(curve, p.a, s.xG, s.g, p.z, c);
    RelationIs(curve, o.a, s.xG, s.g, o.z, d);
    RelationIs(curve, p.b, s.xH, s.h, p.z, c);
    RelationIs(curve, o.b, s.xH, s.h, o.z, d);
    RelationSum(q, p.a, c, s.xG, p.z * s.g);
    RelationSum(q, o.a, d, s.xG, o.z * s.g);
    RelationSum(q, p.b, c, s.xH, p.z * s.h);
    RelationSum(q, o.b, d, s.xH, o.z * s.h);
    ExtractTimes(curve, c, d, p.z, o.z, p.a, s.xG, s.g);
    ExtractTimes(curve, c, d, p.z, o.z, p.b, s.xH, s.h);
  }

  // ---------- Limbs of a private key ----------

  function Pow32(i: nat): (p: nat)
    ensures p > 0
  {
    if i == 0 then 1 else TWO_32 * Pow32(i - 1)
  }

  // The 32 bits of a number that start at the bit worth p.
  function LimbOf(x: nat, p: nat): nat
    requires p > 0
  {
    (x / p) % TWO_32
  }

  // scalarToLimbs: the scalar shifted right by 32 i bits, masked to 32 bits.
  function ScalarToLimbs(scalar: nat): (limbs: seq<nat>)
    ensures |limbs| == 8
  {
    seq(8, i requires 0 <= i < 8 => LimbOf(scalar, Pow32(i)))
  }

  // Bitwise or.
  function Or(a: nat, b: nat): nat
    decreases a + b
  {
    if a == 0 then b
    else if b == 0 then a
    else (if a % 2 == 1 || b % 2 == 1 then 1 else 0) + 2 * Or(a / 2, b / 2)
  }

  // limbsToScalar over the first n limbs.
  function LimbsToScalar(limbs: seq<nat>, n: nat): nat
    requires n <= |limbs|
  {
    if n == 0 then 0 else Or(LimbsToScalar(limbs, n - 1), limbs[n - 1] * Pow32(n - 1))
  }

  // The integer the first n limbs stand for.
  function WeightedSum(z: seq<int>, n: nat): int
    requires n <= |z|
  {
    if n == 0 then 0 else WeightedSum(z, n - 1) + z[n - 1] * Pow32(n - 1)
  }

  lemma {:induction false} OrDisjoint(k: nat, a: nat, b: nat)
    requires a < DiscreteLog.Pow2(k)
    ensures Or(a, b * DiscreteLog.Pow2(k)) == a + b * DiscreteLog.Pow2(k)
    decreases k
  {
    var p := DiscreteLog.Pow2(k);
    if k > 0 && a > 0 && b > 0 {
      var h := DiscreteLog.Pow2(k - 1);
      OrHalves(b, h);
      OrDisjoint(k - 1, a / 2, b);
      assert a == 2 * (a / 2) + a % 2;
    }
  }

  lemma OrHalves(b: nat, h: nat)
    requires b > 0 && h > 0
    ensures b * (2 * h) > 0 && (b * (2 * h)) % 2 == 0 && (b * (2 * h)) / 2 == b * h
  {
    assert b * (2 * h) == 2 * (b * h);
    assert b * h > 0;
  }

  lemma {:induction false} Pow32IsPow2(i: nat)
    ensures Pow32(i) == DiscreteLog.Pow2(32 * i)
  {
    if i > 0 {
      Pow32IsPow2(i - 1);
      DiscreteLog.Pow2Of32();
      Pow2Sum(32, 32 * (i - 1));
    }
  }

  lemma {:induction false} Pow2Sum(a: nat, b: nat)
    ensures DiscreteLog.Pow2(a + b) == DiscreteLog.Pow2(a) * DiscreteLog.Pow2(b)
    decreases a
  {
    if a > 0 {
      Pow2Sum(a - 1, b);
      Doubled(DiscreteLog.Pow2(a - 1), DiscreteLog.Pow2(b));
      assert (a - 1) + b == a + b - 1;
    }
  }

  lemma Doubled(x: nat, y: nat)
    ensures (2 * x) * y == 2 * (x * y)
  {
  }

  lemma {:induction false} LimbsToScalarIsSum(limbs: seq<nat>, n: nat)
    requires n <= |limbs| && forall i | 0 <= i < |limbs| :: limbs[i] < TWO_32
    ensures LimbsToScalar(limbs, n) == WeightedSum(limbs, n)
    ensures 0 <= WeightedSum(limbs, n) < Pow32(n)
  {
    hide Or, DiscreteLog.Pow2;
    if n > 0 {
      LimbsToScalarIsSum(limbs, n - 1);
      Pow32IsPow2(n - 1);
      OrDisjoint(32 * (n - 1), LimbsToScalar(limbs, n - 1), limbs[n - 1]);
      LimbBound(limbs[n - 1], Pow32(n - 1));
    }
  }

  lemma LimbBound(limb: nat, p: nat)
    requires limb < TWO_32
    ensures limb * p + p <= TWO_32 * p
  {
    Monotone(limb + 1, TWO_32, p);
  }

  lemma Monotone(a: nat, b: nat, p: nat)
    requires a <= b
    ensures a * p <= b * p
  {
    assert b * p == a * p + (b - a) * p;
  }

  lemma {:induction false} ScalarLimbsSum(scalar: nat, n: nat)
    requires n <= 8
    ensures WeightedSum(ScalarToLimbs(scalar), n) == Below(scalar, Pow32(n))
  {
    if n == 0 {
      assert Below(scalar, 1) == 0;
    } else {
      ScalarLimbsSum(scalar, n - 1);
      hide LimbOf, Below;
      BelowStep(scalar, Pow32(n - 1));
    }
  }

  // What the limbs below a power of the base hold.
  function Below(x: nat, p: nat): int
    requires p > 0
  {
    x - p * (x / p)
  }

  lemma BelowStep(x: nat, p: nat)
    requires p > 0
    ensures Below(x, TWO_32 * p) == Below(x, p) + LimbOf(x, p) * p
  {
    QuotientStep(x, p);
    LastLimb(x / p, p);
  }

  lemma LastLimb(d: nat, p: nat)
    ensures p * d - (TWO_32 * p) * (d / TWO_32) == (d % TWO_32) * p
  {
    Distribute(p, d / TWO_32, d % TWO_32);
    assert d == TWO_32 * (d / TWO_32) + d % TWO_32;
  }

  lemma QuotientStep(x: nat, p: nat)
    requires p > 0
    ensures x / (TWO_32 * p) == (x / p) / TWO_32
  {
    var d := x / p;
    var e := d / TWO_32;
    var lo, hi := x % p, d % TWO_32;
    assert x == p * d + lo;
    assert d == TWO_32 * e + hi;
    QuotientUnique(x, TWO_32 * p, e, p * hi + lo) by {
      assert p * (TWO_32 * e + hi) == (TWO_32 * p) * e + p * hi;
      LimbBound(hi, p);
      Commute(p, hi);
    }
  }

  lemma QuotientUnique(x: nat, d: nat, e: nat, r: nat)
    requires x == d * e + r && r < d
    ensures x / d == e
  {
    ResidueUnique(d, x, e, r);
    var f := x / d;
    assert x == d * f + x % d;
    assert (e - f) * d == 0 by {
      assert d * f == d * e;
      assert (e - f) * d == d * e - d * f;
    }
    MulBound(e - f, d);
  }

  lemma Distribute(p: nat, e: nat, r: nat)
    ensures p * (TWO_32 * e + r) == (TWO_32 * p) * e + r * p
  {
  }

  lemma Pow32Of8()
    ensures Pow32(8) == 0x1_0000000000000000000000000000000000000000000000000000000000000000
  {
    assert Pow32(2) == TWO_64;
    assert Pow32(4) == 0x1_00000000000000000000000000000000;
    assert Pow32(6) == 0x1_000000000000000000000000000000000000000000000000;
  }

  // Splitting a 256-bit scalar and or-ing the shifted limbs restores it; wider scalars are
  // cut to 256 bits.
  lemma LimbsRoundTrip(scalar: nat)
    ensures LimbsToScalar(ScalarToLimbs(scalar), 8) == scalar % Pow32(8)
    ensures WeightedSum(ScalarToLimbs(scalar), 8) == scalar % Pow32(8)
    ensures forall i | 0 <= i < 8 :: ScalarToLimbs(scalar)[i] < TWO_32
  {
    hide Pow32, Or;
    LimbsToScalarIsSum(ScalarToLimbs(scalar), 8);
    ScalarLimbsSum(scalar, 8);
  }

  // ---------- Consistency of an encrypted private key ----------

  // One limb encrypted to every recipient: a shared commitment and a handle each.
  datatype MultiCiphertext = MultiCiphertext(commitment: Element, handles: seq<Element>)

  function EncryptToAll(curve: Curve, keys: seq<Element>, value: nat, blinding: nat): MultiCiphertext
    requires curve.q > 0
  {
    MultiCiphertext(Commit(curve, value, blinding),
      seq(|keys|, j requires 0 <= j < |keys| => Mul(curve, keys[j], blinding)))
  }

  datatype KeyStatement = KeyStatement(senderKey: Element, recipients: seq<Element>, ciphertexts: seq<MultiCiphertext>)

  // a1 is ordered by limb, then recipient.
  datatype KeyProof = KeyProof(a1: seq<Element>, a2: seq<Element>, a3: Element, z1: seq<nat>, z2: seq<nat>)

  type KeyChallenge = (KeyStatement, seq<Element>, seq<Element>, Element) -> nat

  // The lengths the verifier indexes with.
  predicate Shaped(s: KeyStatement, a1: seq<Element>, a2: seq<Element>) {
    && |s.ciphertexts| == |a2|
    && |a1| == |a2| * |s.recipients|
    && forall i | 0 <= i < |s.ciphertexts| :: |s.ciphertexts[i].handles| == |s.recipients|
  }

  lemma PairIndex(i: nat, j: nat, n: nat, m: nat)
    requires i < n && j < m
    ensures i * m + j < n * m
  {
    Monotone(i + 1, n, m);
  }

  // a1[i * m + j] + c * D_ij = z1_i * pk_j
  predicate HandleCheck(curve: Curve, c: nat, a: Element, handle: Element, key: Element, z1: nat)
    requires curve.q > 0
  {
    M(curve.q, a + Mul(curve, handle, c)) == Mul(curve, key, z1)
  }

  // a2_i + c * C_i = z1_i * G + z2_i * H
  predicate CommitCheck(curve: Curve, c: nat, a: Element, commitment: Element, z1: nat, z2: nat)
    requires curve.q > 0
  {
    M(curve.q, a + Mul(curve, commitment, c)) == M(curve.q, Mul(curve, 1, z1) + Mul(curve, curve.h, z2))
  }

  // (sum of z2_i * 2^(32 i)) * G = a3 + c * senderKey
  predicate KeyCheck(curve: Curve, c: nat, a3: Element, senderKey: Element, z2: seq<nat>)
    requires curve.q > 0
  {
    Mul(curve, 1, M(curve.q, WeightedSum(z2, |z2|))) == M(curve.q, a3 + Mul(curve, senderKey, c))
  }

  // The verifier finds every list element it asks for.
  predicate Indexable(s: KeyStatement, p: KeyProof) {
    && |p.a1| >= |p.a2| * |s.recipients|
    && |s.ciphertexts| >= |p.a2|
    && |p.z1| >= |p.a2| && |p.z2| >= |p.a2|
    && forall i | 0 <= i < |p.a2| :: |s.ciphertexts[i].handles| >= |s.recipients|
  }

  ghost predicate KeyAccepts(curve: Curve, c: nat, p: KeyProof, s: KeyStatement)
    requires curve.q > 0
  {
    && Indexable(s, p)
    && (forall i, j | 0 <= i < |p.a2| && 0 <= j < |s.recipients| ::
        HandleAccepts(curve, c, p, s, i, j))
    && (forall i | 0 <= i < |p.a2| :: CommitCheck(curve, c, p.a2[i], s.ciphertexts[i].commitment, p.z1[i], p.z2[i]))
    && KeyCheck(curve, c, p.a3, s.senderKey, p.z2[..|p.a2|])
  }

  ghost predicate HandleAccepts(curve: Curve, c: nat, p: KeyProof, s: KeyStatement, i: nat, j: nat)
    requires curve.q > 0 && Indexable(s, p) && i < |p.a2| && j < |s.recipients|
  {
    PairIndex(i, j, |p.a2|, |s.recipients|);
    HandleCheck(curve, c, p.a1[i * |s.recipients| + j], s.ciphertexts[i].handles[j], s.recipients[j], p.z1[i])
  }

  // The checks of one limb's handles; reading past the end of a list throws.
  method VerifyHandles(curve: Curve, c: nat, p: KeyProof, s: KeyStatement, i: nat) returns (r: Option<bool>)
    requires curve.q > 0 && i < |p.a2|
    ensures Indexable(s, p) ==>
      r == Some(forall j | 0 <= j < |s.recipients| :: HandleAccepts(curve, c, p, s, i, j))
    ensures r == Some(true) ==>
      && (|s.recipients| > 0 ==> |p.a1| >= (i + 1) * |s.recipients|)
      && (|s.recipients| > 0 ==> i < |s.ciphertexts| && |s.ciphertexts[i].handles| >= |s.recipients|)
  {
    hide HandleCheck, Indexable;
    var m := |s.recipients|;
    for j := 0 to m
      invariant j > 0 ==> |p.a1| >= i * m + j && i < |s.ciphertexts| && |s.ciphertexts[i].handles| >= j
      invariant Indexable(s, p) ==> forall l | 0 <= l < j :: HandleAccepts(curve, c, p, s, i, l)
    {
      if Indexable(s, p) {
        HandlePresent(s, p, i, j);
      }
      if i * m + j >= |p.a1| || i >= |s.ciphertexts| || j >= |s.ciphertexts[i].handles| || i >= |p.z1| {
        return None;
      }
      if !HandleCheck(curve, c, p.a1[i * m + j], s.ciphertexts[i].handles[j], s.recipients[j], p.z1[i]) {
        assert Indexable(s, p) ==> !HandleAccepts(curve, c, p, s, i, j);
        return Some(false);
      }
    }
    assert i * m + m == (i + 1) * m;
    return Some(true);
  }

  lemma HandlePresent(s: KeyStatement, p: KeyProof, i: nat, j: nat)
    requires Indexable(s, p) && i < |p.a2| && j < |s.recipients|
    ensures i * |s.recipients| + j < |p.a1|
    ensures i < |s.ciphertexts| && j < |s.ciphertexts[i].handles| && i < |p.z1|
  {
    PairIndex(i, j, |p.a2|, |s.recipients|);
  }

  // verify: all three families of checks, the last with its running sum and power of 2^32; it
  // throws only when a list is too short.
  method VerifyKey(curve: Curve, challenge: KeyChallenge, p: KeyProof, s: KeyStatement) returns (r: Option<bool>)
    requires curve.q > 0
    ensures r == Some(true) <==> KeyAccepts(curve, challenge(s, p.a1, p.a2, p.a3), p, s)
    ensures Indexable(s, p) ==> r.Some?
  {
    hide M, Mul, Pow32, CommitCheck, HandleCheck, HandleAccepts;
    var n, m := |p.a2|, |s.recipients|;
    var c := challenge(s, p.a1, p.a2, p.a3);
    for i := 0 to n
      invariant i > 0 && m > 0 ==> |p.a1| >= i * m && |s.ciphertexts| >= i
      invariant forall k | 0 <= k < i && k < |s.ciphertexts| && m > 0 :: |s.ciphertexts[k].handles| >= m
      invariant Indexable(s, p) ==> forall k, j | 0 <= k < i && 0 <= j < m :: HandleAccepts(curve, c, p, s, k, j)
    {
      var handles := VerifyHandles(curve, c, p, s, i);
      if handles != Some(true) {
        return handles;
      }
    }
    for i := 0 to n
      invariant i > 0 ==> |s.ciphertexts| >= i && |p.z1| >= i && |p.z2| >= i
      invariant Indexable(s, p) ==>
        forall k | 0 <= k < i :: CommitCheck(curve, c, p.a2[k], s.ciphertexts[k].commitment, p.z1[k], p.z2[k])
    {
      if i >= |s.ciphertexts| || i >= |p.z1| || i >= |p.z2| {
        return None;
      }
      if !CommitCheck(curve, c, p.a2[i], s.ciphertexts[i].commitment, p.z1[i], p.z2[i]) {
        return Some(false);
      }
    }
    assert Indexable(s, p);
    ghost var z := p.z2[..n];
    var exp, zSum := M(curve.q, 1), 0;
    SumStart(curve.q);
    for i := 0 to n
      invariant exp == M(curve.q, Pow32(i))
      invariant zSum == M(curve.q, WeightedSum(z, i))
    {
      SumStep(curve.q, WeightedSum(z, i), z[i], Pow32(i));
      zSum := M(curve.q, zSum + p.z2[i] * exp);
      exp := M(curve.q, exp * TWO_32);
      Pow32Next(i);
    }
    var lhs := Mul(curve, 1, zSum);
    var rhs := M(curve.q, p.a3 + Mul(curve, s.senderKey, c));
    return Some(lhs == rhs);
  }

  lemma SumStart(q: nat)
    requires q > 0
    ensures M(q, Pow32(0)) == M(q, 1) && M(q, 0) == 0
  {
    Canonical(q, 0);
  }

  lemma Pow32Next(i: nat)
    ensures Pow32(i + 1) == Pow32(i) * TWO_32
  {
  }

  lemma SumStep(q: nat, sum: int, z: int, p: int)
    requires q > 0
    ensures M(q, M(q, sum) + z * M(q, p)) == M(q, sum + z * p)
    ensures M(q, M(q, p) * TWO_32) == M(q, p * TWO_32)
  {
    hide M;
    MulM(q, p, z);
    AddM(q, sum, z * M(q, p));
    AddM(q, z * M(q, p), sum);
    AddM(q, z * p, sum);
    MulM(q, p, TWO_32);
  }

  // ---------- Completeness ----------

  // The masks a_i * pk_j of the first n limbs.
  function FlatMasks(curve: Curve, a: seq<nat>, keys: seq<Element>, n: nat): (masks: seq<Element>)
    requires curve.q > 0 && n <= |a|
    ensures |masks| == n * |keys|
  {
    if n == 0 then []
    else
      FlatMasks(curve, a, keys, n - 1) + seq(|keys|, j requires 0 <= j < |keys| => Mul(curve, keys[j], a[n - 1]))
  }

  lemma {:induction false} FlatMaskAt(curve: Curve, a: seq<nat>, keys: seq<Element>, n: nat, i: nat, j: nat)
    requires curve.q > 0 && i < n <= |a| && j < |keys|
    ensures i * |keys| + j < n * |keys|
    ensures FlatMasks(curve, a, keys, n)[i * |keys| + j] == Mul(curve, keys[j], a[i])
  {
    hide M, Mul;
    PairIndex(i, j, n, |keys|);
    if i < n - 1 {
      FlatMaskAt(curve, a, keys, n - 1, i, j);
    }
  }

  // bSum: the fold that reduces after every addition.
  function FoldSum(curve: Curve, b: seq<nat>, n: nat): nat
    requires curve.q > 0 && n <= |b|
  {
    if n == 0 then 0 else M(curve.q, FoldSum(curve, b, n - 1) + b[n - 1] * Pow32(n - 1))
  }

  lemma {:induction false} FoldSumIs(curve: Curve, b: seq<nat>, n: nat)
    requires curve.q > 0 && n <= |b|
    ensures FoldSum(curve, b, n) == M(curve.q, WeightedSum(b, n))
  {
    hide M, Pow32;
    if n == 0 {
      SumStart(curve.q);
    } else {
      FoldSumIs(curve, b, n - 1);
      AddM(curve.q, WeightedSum(b, n - 1), b[n - 1] * Pow32(n - 1));
    }
  }

  function ProveKey(curve: Curve, challenge: KeyChallenge, a: seq<nat>, b: seq<nat>, u: seq<nat>, r: seq<nat>,
                    s: KeyStatement): KeyProof
    requires curve.q > 0 && |a| == |b| == |u| == |r|
  {
    var q, n := curve.q, |u|;
    var a1 := FlatMasks(curve, a, s.recipients, n);
    var a2 := seq(n, i requires 0 <= i < n => M(q, Mul(curve, 1, a[i]) + Mul(curve, curve.h, b[i])));
    var a3 := Mul(curve, 1, FoldSum(curve, b, n));
    var c := challenge(s, a1, a2, a3);
    KeyProof(a1, a2, a3,
      seq(n, i requires 0 <= i < n => M(q, a[i] + c * r[i])),
      seq(n, i requires 0 <= i < n => M(q, b[i] + c * u[i])))
  }

  lemma HandleComplete(curve: Curve, c: nat, a: nat, r: nat, key: Element)
    requires curve.q > 0
    ensures HandleCheck(curve, c, Mul(curve, key, a), Mul(curve, key, r), key, M(curve.q, a + c * r))
  {
    hide M;
    var q := curve.q;
    SameM(q, a * key);
    SameM(q, r * key);
    SameMul(q, c, c, M(q, r * key), r * key);
    SameM(q, c * M(q, r * key));
    SameAdd(q, M(q, a * key), a * key, M(q, c * M(q, r * key)), c * (r * key));
    SameM(q, a + c * r);
    SameMul(q, M(q, a + c * r), a + c * r, key, key);
    assert (a + c * r) * key == a * key + c * (r * key);
  }

  lemma CommitComplete(curve: Curve, c: nat, a: nat, b: nat, u: nat, r: nat)
    requires curve.q > 0
    ensures CommitCheck(curve, c, M(curve.q, Mul(curve, 1, a) + Mul(curve, curve.h, b)), Commit(curve, u, r),
                        M(curve.q, a + c * r), M(curve.q, b + c * u))
  {
    hide M, Commit;
    var q, h := curve.q, curve.h;
    var z1, z2 := M(q, a + c * r), M(q, b + c * u);
    TwoBases(q, h, a, b);
    CommitIs(curve, u, r);
    SameMul(q, c, c, Commit(curve, u, r), u * h + r);
    SameM(q, c * Commit(curve, u, r));
    SameAdd(q, M(q, M(q, a * 1) + M(q, b * h)), a + b * h, M(q, c * Commit(curve, u, r)), c * (u * h + r));
    TwoBases(q, h, z1, z2);
    SameM(q, a + c * r);
    SameM(q, b + c * u);
    SameMul(q, z2, b + c * u, h, h);
    SameAdd(q, z1, a + c * r, z2 * h, (b + c * u) * h);
    CommitSum(a, b, c, u, r, h);
    Idempotent(q, M(q, z1 * 1) + M(q, z2 * h));
  }

  // x * G + y * H as an exponent.
  lemma TwoBases(q: nat, h: int, x: int, y: int)
    requires q > 0
    ensures Same(q, M(q, M(q, x * 1) + M(q, y * h)), x + y * h)
  {
    hide M;
    SameM(q, x * 1);
    SameM(q, y * h);
    SameAdd(q, M(q, x * 1), x, M(q, y * h), y * h);
    SameM(q, M(q, x * 1) + M(q, y * h));
  }

  lemma CommitSum(a: int, b: int, c: int, u: int, r: int, h: int)
    ensures (a + b * h) + c * (u * h + r) == (a + c * r) + (b + c * u) * h
  {
    assert c * (u * h + r) == (c * u) * h + c * r;
    assert (b + c * u) * h == b * h + (c * u) * h;
  }

  // y_i = a_i + c * u_i residue by residue gives the same combination of the sums.
  lemma {:induction false} SumLinear(q: nat, y: seq<int>, a: seq<int>, u: seq<int>, c: int, n: nat)
    requires q > 0 && |y| == |a| == |u| && n <= |y|
    requires forall i | 0 <= i < |y| :: Same(q, y[i], a[i] + c * u[i])
    ensures Same(q, WeightedSum(y, n), WeightedSum(a, n) + c * WeightedSum(u, n))
  {
    hide M, Pow32, Same;
    if n == 0 {
      assert c * 0 == 0;
      Reflexive(q, 0);
    } else {
      SumLinear(q, y, a, u, c, n - 1);
      var i, p := n - 1, Pow32(n - 1);
      Reflexive(q, p);
      SameMul(q, y[i], a[i] + c * u[i], p, p);
      SameAdd(q, WeightedSum(y, i), WeightedSum(a, i) + c * WeightedSum(u, i), y[i] * p, (a[i] + c * u[i]) * p);
      LinearStep(WeightedSum(a, i), WeightedSum(u, i), a[i], u[i], c, p);
    }
  }

  lemma Reflexive(q: nat, x: int)
    requires q > 0
    ensures Same(q, x, x)
  {
  }

  lemma LinearStep(sa: int, su: int, a: int, u: int, c: int, p: int)
    ensures (sa + c * su) + (a + c * u) * p == (sa + a * p) + c * (su + u * p)
  {
    assert (a + c * u) * p == a * p + c * (u * p);
    assert c * (su + u * p) == c * su + c * (u * p);
  }

  lemma KeySumComplete(curve: Curve, c: nat, z2: seq<nat>, b: seq<nat>, u: seq<nat>, senderKey: Element)
    requires curve.q > 0 && |z2| == |b| == |u|
    requires forall i | 0 <= i < |u| :: z2[i] == M(curve.q, b[i] + c * u[i])
    requires Same(curve.q, senderKey, WeightedSum(u, |u|))
    ensures KeyCheck(curve, c, Mul(curve, 1, FoldSum(curve, b, |b|)), senderKey, z2)
  {
    hide M, Pow32, WeightedSum, FoldSum;
    var q, n := curve.q, |u|;
    forall i | 0 <= i < n
      ensures Same(q, z2[i], b[i] + c * u[i])
    {
      SameM(q, b[i] + c * u[i]);
    }
    SumLinear(q, z2, b, u, c, n);
    FoldSumIs(curve, b, n);
    var sb, su, sz := WeightedSum(b, n), WeightedSum(u, n), WeightedSum(z2, n);
    SameM(q, sz);
    SameM(q, sb);
    SameM(q, M(q, sb) * 1);
    SameMul(q, c, c, senderKey, su);
    SameM(q, c * senderKey);
    SameAdd(q, M(q, M(q, sb) * 1), sb, M(q, c * senderKey), c * su);
    assert M(q, sz) * 1 == M(q, sz);
  }

  // Every honest proof is accepted, for all keys, recipients, masks and challenges: the folded
  // sum of the prover and the running sum of the verifier agree.
  lemma KeyCompleteness(curve: Curve, challenge: KeyChallenge, a: seq<nat>, b: seq<nat>, u: seq<nat>, r: seq<nat>,
                        s: KeyStatement)
    requires curve.q > 0 && |a| == |b| == |u| == |r| == |s.ciphertexts|
    requires forall i | 0 <= i < |u| :: s.ciphertexts[i] == EncryptToAll(curve, s.recipients, u[i], r[i])
    requires Same(curve.q, s.senderKey, WeightedSum(u, |u|))
    ensures var p := ProveKey(curve, challenge, a, b, u, r, s);
      && Shaped(s, p.a1, p.a2) && |p.z1| == |p.z2| == |p.a2|
      && KeyAccepts(curve, challenge(s, p.a1, p.a2, p.a3), p, s)
  {
    var p := ProveKey(curve, challenge, a, b, u, r, s);
    var n, m := |u|, |s.recipients|;
    var c := challenge(s, p.a1, p.a2, p.a3);
    hide M, Mul, Pow32, WeightedSum, FoldSum, Commit, FlatMasks, HandleCheck, CommitCheck, KeyCheck, HandleAccepts,
      Indexable, EncryptToAll;
    ProvedShape(curve, challenge, a, b, u, r, s);
    ShapedIndexable(s, p);
    forall i, j | 0 <= i < n && 0 <= j < m
      ensures HandleAccepts(curve, c, p, s, i, j)
    {
      ProvedHandle(curve, challenge, a, b, u, r, s, i, j);
    }
    forall i | 0 <= i < n
      ensures CommitCheck(curve, c, p.a2[i], s.ciphertexts[i].commitment, p.z1[i], p.z2[i])
    {
      assert s.ciphertexts[i].commitment == Commit(curve, u[i], r[i]) by {
        EncryptedCommitment(curve, s.recipients, u[i], r[i]);
      }
      CommitComplete(curve, c, a[i], b[i], u[i], r[i]);
    }
    KeySumComplete(curve, c, p.z2, b, u, s.senderKey);
  }

  lemma EncryptedCommitment(curve: Curve, keys: seq<Element>, value: nat, blinding: nat)
    requires curve.q > 0
    ensures EncryptToAll(curve, keys, value, blinding).commitment == Commit(curve, value, blinding)
    ensures |EncryptToAll(curve, keys, value, blinding).handles| == |keys|
  {
    hide Commit;
  }

  lemma ProvedShape(curve: Curve, challenge: KeyChallenge, a: seq<nat>, b: seq<nat>, u: seq<nat>, r: seq<nat>,
                    s: KeyStatement)
    requires curve.q > 0 && |a| == |b| == |u| == |r| == |s.ciphertexts|
    requires forall i | 0 <= i < |u| :: s.ciphertexts[i] == EncryptToAll(curve, s.recipients, u[i], r[i])
    ensures var p := ProveKey(curve, challenge, a, b, u, r, s);
      Shaped(s, p.a1, p.a2) && |p.z1| == |p.z2| == |p.a2|
  {
    hide M, Mul, FoldSum, Commit;
  }

  lemma ShapedIndexable(s: KeyStatement, p: KeyProof)
    requires Shaped(s, p.a1, p.a2) && |p.z1| == |p.z2| == |p.a2|
    ensures Indexable(s, p) && p.z2[..|p.a2|] == p.z2
  {
  }

  lemma ProvedHandle(curve: Curve, challenge: KeyChallenge, a: seq<nat>, b: seq<nat>, u: seq<nat>, r: seq<nat>,
                     s: KeyStatement, i: nat, j: nat)
    requires curve.q > 0 && |a| == |b| == |u| == |r| == |s.ciphertexts|
    requires i < |u| && j < |s.recipients|
    requires s.ciphertexts[i] == EncryptToAll(curve, s.recipients, u[i], r[i])
    requires Indexable(s, ProveKey(curve, challenge, a, b, u, r, s))
    ensures var p := ProveKey(curve, challenge, a, b, u, r, s);
      HandleAccepts(curve, challenge(s, p.a1, p.a2, p.a3), p, s, i, j)
  {
    hide M, Mul, FoldSum, Commit, FlatMasks, HandleCheck, Indexable;
    var p := ProveKey(curve, challenge, a, b, u, r, s);
    FlatMaskAt(curve, a, s.recipients, |u|, i, j);
    HandleComplete(curve, challenge(s, p.a1, p.a2, p.a3), a[i], r[i], s.recipients[j]);
  }

  // ---------- Special soundness ----------

  // The three relations the proof is about, for witnesses r and u.
  ghost predicate KeyRelations(curve: Curve, s: KeyStatement, r: seq<nat>, u: seq<nat>)
    requires curve.q > 0 && |r| == |u| == |s.ciphertexts|
    requires forall i | 0 <= i < |s.ciphertexts| :: |s.ciphertexts[i].handles| == |s.recipients|
  {
    && (forall i, j | 0 <= i < |r| && 0 <= j < |s.recipients| ::
        Same(curve.q, s.ciphertexts[i].handles[j], r[i] * s.recipients[j]))
    && (forall i | 0 <= i < |r| :: Same(curve.q, s.ciphertexts[i].commitment, r[i] + u[i] * curve.h))
    && Same(curve.q, s.senderKey, WeightedSum(u, |u|))
  }

  lemma HandleIs(curve: Curve, c: nat, a: Element, handle: Element, key: Element, z1: nat)
    requires curve.q > 0
    ensures HandleCheck(curve, c, a, handle, key, z1) <==> Same(curve.q, a + c * handle, z1 * key)
  {
    hide M;
    var q := curve.q;
    AddM(q, c * handle, a);
  }

  lemma CommitCheckIs(curve: Curve, c: nat, a: Element, commitment: Element, z1: nat, z2: nat)
    requires curve.q > 0
    ensures CommitCheck(curve, c, a, commitment, z1, z2) <==> Same(curve.q, a + c * commitment, z1 + z2 * curve.h)
  {
    hide M;
    var q := curve.q;
    AddM(q, c * commitment, a);
    TwoBases(q, curve.h, z1, z2);
    Idempotent(q, M(q, z1 * 1) + M(q, z2 * curve.h));
  }

  lemma KeyCheckIs(curve: Curve, c: nat, a3: Element, senderKey: Element, z2: seq<nat>)
    requires curve.q > 0
    ensures KeyCheck(curve, c, a3, senderKey, z2) <==> Same(curve.q, a3 + c * senderKey, WeightedSum(z2, |z2|))
  {
    hide M, WeightedSum;
    var q := curve.q;
    AddM(q, c * senderKey, a3);
    Idempotent(q, WeightedSum(z2, |z2|));
    assert M(q, WeightedSum(z2, |z2|)) * 1 == M(q, WeightedSum(z2, |z2|));
  }

  ghost function ExtractAll(curve: Curve, c: nat, d: nat, z: seq<nat>, w: seq<nat>): (x: seq<nat>)
    requires curve.Valid() && !Same(curve.q, c, d) && |z| == |w|
    ensures |x| == |z|
  {
    seq(|z|, i requires 0 <= i < |z| => Extract(curve, c, d, z[i], w[i]))
  }

  lemma CommitExtract(curve: Curve, c: nat, d: nat, e: int, y: int, z1: nat, w1: nat, z2: nat, w2: nat)
    requires curve.Valid() && !Same(curve.q, c, d)
    requires Same(curve.q, e + c * y, z1 + z2 * curve.h) && Same(curve.q, e + d * y, w1 + w2 * curve.h)
    ensures Same(curve.q, y, Extract(curve, c, d, z1, w1) + Extract(curve, c, d, z2, w2) * curve.h)
  {
    hide Prime, M, Slope;
    var q, h := curve.q, curve.h;
    ExtractOne(curve, c, d, e, y, z1 + z2 * h, w1 + w2 * h);
    var k := Slope(curve, c, d);
    SplitFactor(k, z1, w1, z2, w2, h);
    ResiduePair(q, k * (z1 - w1), k * (z2 - w2), h);
  }

  lemma ResiduePair(q: nat, a: int, b: int, h: int)
    requires q > 0
    ensures Same(q, M(q, a) + M(q, b) * h, a + b * h)
  {
    hide M;
    SameM(q, a);
    SameM(q, b);
    SameMul(q, M(q, b), b, h, h);
    SameAdd(q, M(q, a), a, M(q, b) * h, b * h);
  }

  lemma SplitFactor(k: int, z1: int, w1: int, z2: int, w2: int, h: int)
    ensures k * ((z1 + z2 * h) - (w1 + w2 * h)) == k * (z1 - w1) + (k * (z2 - w2)) * h
  {
    assert (z1 + z2 * h) - (w1 + w2 * h) == (z1 - w1) + (z2 - w2) * h;
    assert k * ((z2 - w2) * h) == (k * (z2 - w2)) * h;
  }

  lemma KeyExtract(curve: Curve, c: nat, d: nat, a3: Element, senderKey: Element, z: seq<nat>, w: seq<nat>)
    requires curve.Valid() && !Same(curve.q, c, d) && |z| == |w|
    requires KeyCheck(curve, c, a3, senderKey, z) && KeyCheck(curve, d, a3, senderKey, w)
    ensures Same(curve.q, senderKey, WeightedSum(ExtractAll(curve, c, d, z, w), |z|))
  {
    hide Prime, M, WeightedSum, KeyCheck, ExtractAll, Slope;
    KeyCheckIs(curve, c, a3, senderKey, z);
    KeyCheckIs(curve, d, a3, senderKey, w);
    ExtractOne(curve, c, d, a3, senderKey, WeightedSum(z, |z|), WeightedSum(w, |w|));
    ExtractSum(curve, c, d, z, w);
  }

  lemma ExtractSum(curve: Curve, c: nat, d: nat, z: seq<nat>, w: seq<nat>)
    requires curve.Valid() && !Same(curve.q, c, d) && |z| == |w|
    ensures Same(curve.q, WeightedSum(ExtractAll(curve, c, d, z, w), |z|),
                 Slope(curve, c, d) * (WeightedSum(z, |z|) - WeightedSum(w, |w|)))
  {
    hide Prime, M, WeightedSum, Same, Slope, ExtractAll;
    ExtractEach(curve, c, d, z, w);
    KeyExtractSum(curve.q, Slope(curve, c, d), ExtractAll(curve, c, d, z, w), z, w);
  }

  lemma ExtractEach(curve: Curve, c: nat, d: nat, z: seq<nat>, w: seq<nat>)
    requires curve.Valid() && !Same(curve.q, c, d) && |z| == |w|
    ensures forall i | 0 <= i < |z| ::
      Same(curve.q, ExtractAll(curve, c, d, z, w)[i], Slope(curve, c, d) * (z[i] as int - w[i] as int))
  {
    hide Prime, M, Inv, Same, Slope;
    var k: int := Slope(curve, c, d);
    forall i | 0 <= i < |z|
      ensures Same(curve.q, ExtractAll(curve, c, d, z, w)[i], k * (z[i] as int - w[i] as int))
    {
      Residue(curve.q, k, z[i], w[i]);
    }
  }

  lemma Residue(q: nat, k: int, z: int, w: int)
    requires q > 0
    ensures Same(q, M(q, k * (z - w)), k * (z - w))
  {
    SameM(q, k * (z - w));
  }

  function Differences(z: seq<int>, w: seq<int>): seq<int>
    requires |z| == |w|
  {
    seq(|z|, i requires 0 <= i < |z| => z[i] - w[i])
  }

  function Zeros(n: nat): seq<int> {
    seq(n, i => 0)
  }

  // x_i = 0 + k * (z_i - w_i), summed over all limbs.
  lemma KeyExtractSum(q: nat, k: int, x: seq<int>, z: seq<int>, w: seq<int>)
    requires q > 0 && |x| == |z| == |w|
    requires forall i | 0 <= i < |z| :: Same(q, x[i], k * (z[i] - w[i]))
    ensures Same(q, WeightedSum(x, |z|), k * (WeightedSum(z, |z|) - WeightedSum(w, |z|)))
  {
    hide Same, M, WeightedSum, Pow32;
    var n := |z|;
    SumLinear(q, x, Zeros(n), Differences(z, w), k, n);
    SumZeros(Zeros(n), n);
    SumDiff(z, w, Differences(z, w), n);
  }

  lemma {:induction false} SumZeros(zeros: seq<int>, n: nat)
    requires n <= |zeros| && forall i | 0 <= i < |zeros| :: zeros[i] == 0
    ensures WeightedSum(zeros, n) == 0
  {
    hide Pow32;
    if n > 0 {
      SumZeros(zeros, n - 1);
    }
  }

  lemma {:induction false} SumDiff(z: seq<int>, w: seq<int>, diff: seq<int>, n: nat)
    requires |z| == |w| == |diff| && n <= |z|
    requires forall i | 0 <= i < |z| :: diff[i] == z[i] - w[i]
    ensures WeightedSum(diff, n) == WeightedSum(z, n) - WeightedSum(w, n)
  {
    hide Pow32;
    if n > 0 {
      SumDiff(z, w, diff, n - 1);
      assert diff[n - 1] * Pow32(n - 1) == z[n - 1] * Pow32(n - 1) - w[n - 1] * Pow32(n - 1);
    }
  }

  // Two accepting transcripts with the same commitments and different challenges yield
  // witnesses for all three relations.
  lemma KeySoundness(curve: Curve, c: nat, d: nat, p: KeyProof, o: KeyProof, s: KeyStatement)
    requires curve.Valid() && !Same(curve.q, c, d)
    requires Shaped(s, p.a1, p.a2) && p.a1 == o.a1 && p.a2 == o.a2 && p.a3 == o.a3
    requires |p.z1| == |p.z2| == |p.a2| && |o.z1| == |o.z2| == |o.a2|
    requires KeyAccepts(curve, c, p, s) && KeyAccepts(curve, d, o, s)
    ensures KeyRelations(curve, s, ExtractAll(curve, c, d, p.z1, o.z1), ExtractAll(curve, c, d, p.z2, o.z2))
  {
    ShapedIndexable(s, p);
    ShapedIndexable(s, o);
    HandlesSound(curve, c, d, p, o, s);
    CommitsSound(curve, c, d, p, o, s);
    hide Prime, M, WeightedSum, KeyCheck, CommitCheck, HandleAccepts, ExtractAll, Same, Indexable;
    KeyExtract(curve, c, d, p.a3, s.senderKey, p.z2, o.z2);
  }

  // Every handle is its limb's blinding times the recipient's key.
  ghost predicate HandlesBlinded(curve: Curve, s: KeyStatement, r: seq<nat>)
    requires curve.q > 0
  {
    && |s.ciphertexts| >= |r|
    && (forall i | 0 <= i < |r| :: |s.ciphertexts[i].handles| >= |s.recipients|)
    && (forall i, j | 0 <= i < |r| && 0 <= j < |s.recipients| ::
        Same(curve.q, s.ciphertexts[i].handles[j], r[i] * s.recipients[j]))
  }

  lemma HandlesSound(curve: Curve, c: nat, d: nat, p: KeyProof, o: KeyProof, s: KeyStatement)
    requires curve.Valid() && !Same(curve.q, c, d)
    requires p.a1 == o.a1 && p.a2 == o.a2 && |p.z1| == |o.z1| == |p.a2|
    requires KeyAccepts(curve, c, p, s) && KeyAccepts(curve, d, o, s)
    ensures HandlesBlinded(curve, s, ExtractAll(curve, c, d, p.z1, o.z1))
  {
    assert Indexable(s, p) && Indexable(s, o);
    hide Prime, M, KeyCheck, CommitCheck, HandleAccepts, Extract, Same;
    var x := ExtractAll(curve, c, d, p.z1, o.z1);
    forall i, j | 0 <= i < |p.a2| && 0 <= j < |s.recipients|
      ensures Same(curve.q, s.ciphertexts[i].handles[j], x[i] * s.recipients[j])
    {
      var a := HandleChecks(curve, c, d, p, o, s, i, j);
      HandleSound(curve, c, d, a, s.ciphertexts[i].handles[j], s.recipients[j], p.z1[i], o.z1[i]);
    }
  }

  lemma HandleChecks(curve: Curve, c: nat, d: nat, p: KeyProof, o: KeyProof, s: KeyStatement, i: nat, j: nat)
    returns (a: Element)
    requires curve.q > 0 && Indexable(s, p) && Indexable(s, o) && p.a1 == o.a1 && p.a2 == o.a2
    requires i < |p.a2| && j < |s.recipients|
    requires HandleAccepts(curve, c, p, s, i, j) && HandleAccepts(curve, d, o, s, i, j)
    ensures HandleCheck(curve, c, a, s.ciphertexts[i].handles[j], s.recipients[j], p.z1[i])
    ensures HandleCheck(curve, d, a, s.ciphertexts[i].handles[j], s.recipients[j], o.z1[i])
  {
    hide HandleCheck;
    HandlePresent(s, p, i, j);
    a := p.a1[i * |s.recipients| + j];
  }

  lemma HandleSound(curve: Curve, c: nat, d: nat, a: Element, handle: Element, key: Element, z: nat, w: nat)
    requires curve.Valid() && !Same(curve.q, c, d)
    requires HandleCheck(curve, c, a, handle, key, z) && HandleCheck(curve, d, a, handle, key, w)
    ensures Same(curve.q, handle, Extract(curve, c, d, z, w) * key)
  {
    hide Prime, M, HandleCheck, Extract, Same;
    HandleIs(curve, c, a, handle, key, z);
    HandleIs(curve, d, a, handle, key, w);
    ExtractTimes(curve, c, d, z, w, a, handle, key);
  }

  lemma CommitsSound(curve: Curve, c: nat, d: nat, p: KeyProof, o: KeyProof, s: KeyStatement)
    requires curve.Valid() && !Same(curve.q, c, d)
    requires p.a2 == o.a2 && |p.z1| == |o.z1| == |p.z2| == |o.z2| == |p.a2|
    requires KeyAccepts(curve, c, p, s) && KeyAccepts(curve, d, o, s)
    ensures forall i | 0 <= i < |p.a2| ::
      Same(curve.q, s.ciphertexts[i].commitment,
           ExtractAll(curve, c, d, p.z1, o.z1)[i] + ExtractAll(curve, c, d, p.z2, o.z2)[i] * curve.h)
  {
    hide Prime, M, KeyCheck, CommitCheck, HandleAccepts, ExtractAll, Same;
    forall i | 0 <= i < |p.a2|
      ensures Same(curve.q, s.ciphertexts[i].commitment,
                   ExtractAll(curve, c, d, p.z1, o.z1)[i] + ExtractAll(curve, c, d, p.z2, o.z2)[i] * curve.h)
    {
      CommitSound(curve, c, d, p.a2[i], s.ciphertexts[i].commitment, p.z1, o.z1, p.z2, o.z2, i);
    }
  }

  lemma CommitSound(curve: Curve, c: nat, d: nat, a: Element, commitment: Element, z1: seq<nat>, w1: seq<nat>,
                    z2: seq<nat>, w2: seq<nat>, i: nat)
    requires curve.Valid() && !Same(curve.q, c, d) && i < |z1| == |w1| == |z2| == |w2|
    requires CommitCheck(curve, c, a, commitment, z1[i], z2[i]) && CommitCheck(curve, d, a, commitment, w1[i], w2[i])
    ensures Same(curve.q, commitment, ExtractAll(curve, c, d, z1, w1)[i] + ExtractAll(curve, c, d, z2, w2)[i] * curve.h)
  {
    hide Prime, M, CommitCheck, Extract, Same;
    CommitCheckIs(curve, c, a, commitment, z1[i], z2[i]);
    CommitCheckIs(curve, d, a, commitment, w1[i], w2[i]);
    CommitExtract(curve, c, d, a, commitment, z1[i], w1[i], z2[i], w2[i]);
  }

  // ---------- A well-formed ciphertext ----------

  datatype ElGamalProof = ElGamalProof(a: Element, b: Element, z1: nat, z2: nat)

  function ElGamalChallenge(challenge: Challenge, curve: Curve, e: Ciphertext, pk: Element, a: Element,
                            b: Element): nat {
    challenge([1, curve.h, pk, e.ciphertext, e.handle, a, b])
  }

  // ElGamalNizk.prove with its two random masks.
  function ProveElGamal(curve: Curve, challenge: Challenge, r1: nat, r2: nat, blinding: nat, amount: nat,
                        e: Ciphertext, pk: Element): ElGamalProof
    requires curve.q > 0
  {
    var a := Mul(curve, pk, r1);
    var b := M(curve.q, Mul(curve, 1, r1) + Mul(curve, curve.h, r2));
    var c := ElGamalChallenge(challenge, curve, e, pk, a, b);
    ElGamalProof(a, b, M(curve.q, r1 + c * blinding), M(curve.q, r2 + c * amount))
  }

  // The relations z1 * pk = a + c * D and z1 * G + z2 * H = b + c * C.
  predicate ElGamalAccepts(curve: Curve, c: nat, p: ElGamalProof, e: Ciphertext, pk: Element)
    requires curve.q > 0
  {
    && HandleCheck(curve, c, p.a, e.handle, pk, p.z1)
    && CommitCheck(curve, c, p.b, e.ciphertext, p.z1, p.z2)
  }

  // Every encryption has an accepted proof.
  lemma ElGamalCompleteness(curve: Curve, challenge: Challenge, r1: nat, r2: nat, blinding: nat, amount: nat,
                            pk: Element)
    requires curve.q > 0
    ensures var e := Encrypt(curve, pk, amount, blinding);
      var p := ProveElGamal(curve, challenge, r1, r2, blinding, amount, e, pk);
      ElGamalAccepts(curve, ElGamalChallenge(challenge, curve, e, pk, p.a, p.b), p, e, pk)
  {
    hide M, HandleCheck, CommitCheck, Commit, Mul, ElGamalChallenge;
    var e := Encrypt(curve, pk, amount, blinding);
    var p := ProveElGamal(curve, challenge, r1, r2, blinding, amount, e, pk);
    var c := ElGamalChallenge(challenge, curve, e, pk, p.a, p.b);
    HandleComplete(curve, c, r1, blinding, pk);
    CommitComplete(curve, c, r1, r2, amount, blinding);
  }

  // Two accepting transcripts with different challenges open the ciphertext: one blinding for
  // the handle and the commitment, and a value for the commitment.
  lemma ElGamalSoundness(curve: Curve, c: nat, d: nat, p: ElGamalProof, o: ElGamalProof, e: Ciphertext, pk: Element)
    requires curve.Valid() && !Same(curve.q, c, d) && p.a == o.a && p.b == o.b
    requires ElGamalAccepts(curve, c, p, e, pk) && ElGamalAccepts(curve, d, o, e, pk)
    ensures var r, m := Extract(curve, c, d, p.z1, o.z1), Extract(curve, c, d, p.z2, o.z2);
      Same(curve.q, e.handle, r * pk) && Same(curve.q, e.ciphertext, r + m * curve.h)
  {
    hide Prime, M, HandleCheck, CommitCheck, Extract, Same;
    HandleIs(curve, c, p.a, e.handle, pk, p.z1);
    HandleIs(curve, d, o.a, e.handle, pk, o.z1);
    ExtractTimes(curve, c, d, p.z1, o.z1, p.a, e.handle, pk);
    CommitCheckIs(curve, c, p.b, e.ciphertext, p.z1, p.z2);
    CommitCheckIs(curve, d, o.b, e.ciphertext, o.z1, o.z2);
    CommitExtract(curve, c, d, p.b, e.ciphertext, p.z1, o.z1, p.z2, o.z2);
  }
}
