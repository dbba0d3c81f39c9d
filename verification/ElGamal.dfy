// Twisted ElGamal over the ristretto group: ciphertexts, four-limb amounts, and what it means
// for a ciphertext to encrypt a value.

module ElGamal {
  import opened Modular
  import opened Ristretto
  import DiscreteLog

  datatype Ciphertext = Ciphertext(ciphertext: Element, handle: Element)

  datatype Amount = Amount(l0: Ciphertext, l1: Ciphertext, l2: Ciphertext, l3: Ciphertext)

  const TWO_16 := 0x1_0000
  const TWO_32 := 0x1_0000_0000
  const TWO_48 := 0x1_0000_0000_0000
  const TWO_64 := 0x1_0000_0000_0000_0000

  // mul: scalar * point. The base point G is the element 1.
  function Mul(curve: Curve, point: Element, scalar: nat): Element
    requires curve.q > 0
  {
    M(curve.q, scalar * point)
  }

  function PublicKey(curve: Curve, sk: nat): Element
    requires curve.q > 0
  {
    Mul(curve, 1, sk)
  }

  // PedersenCommitment: value * H + blinding * G.
  function Commit(curve: Curve, value: nat, blinding: nat): Element
    requires curve.q > 0
  {
    M(curve.q, Mul(curve, curve.h, value) + Mul(curve, 1, blinding))
  }

  function Encrypt(curve: Curve, pk: Element, value: nat, blinding: nat): Ciphertext
    requires curve.q > 0
  {
    Ciphertext(Commit(curve, value, blinding), Mul(curve, pk, blinding))
  }

  function Trivial(curve: Curve, value: nat): Ciphertext
    requires curve.q > 0
  {
    Ciphertext(Mul(curve, curve.h, value), 0)
  }

  function Plus(curve: Curve, a: Ciphertext, b: Ciphertext): Ciphertext
    requires curve.q > 0
  {
    Ciphertext(M(curve.q, a.ciphertext + b.ciphertext), M(curve.q, a.handle + b.handle))
  }

  function Minus(curve: Curve, a: Ciphertext, b: Ciphertext): Ciphertext
    requires curve.q > 0
  {
    Ciphertext(M(curve.q, a.ciphertext - b.ciphertext), M(curve.q, a.handle - b.handle))
  }

  // shiftLeft, with factor = 2^bits.
  function Shift(curve: Curve, a: Ciphertext, factor: nat): Ciphertext
    requires curve.q > 0
  {
    Ciphertext(Mul(curve, a.ciphertext, factor), Mul(curve, a.handle, factor))
  }

  function Collapse(curve: Curve, a: Amount): Ciphertext
    requires curve.q > 0
  {
    Plus(curve, a.l0, Plus(curve, Shift(curve, a.l1, TWO_16),
      Plus(curve, Shift(curve, a.l2, TWO_32), Shift(curve, a.l3, TWO_48))))
  }

  // The four u16 limbs of a value, masked like the source: bits from 64 up are dropped.
  function IntoLimbs(value: nat): (limbs: seq<nat>)
    ensures |limbs| == 4
    ensures forall i | 0 <= i < 4 :: limbs[i] < TWO_16
  {
    [value % TWO_16, (value / TWO_16) % TWO_16, (value / TWO_32) % TWO_16, (value / TWO_48) % TWO_16]
  }

  function FromLimbs(l: seq<nat>): nat
    requires |l| == 4
  {
    l[0] + TWO_16 * l[1] + TWO_32 * l[2] + TWO_48 * l[3]
  }

  // The limbs keep exactly the value modulo 2^64.
  lemma LimbsRoundTrip(value: nat)
    ensures FromLimbs(IntoLimbs(value)) == value % TWO_64
  {
    var a, b, c := value / TWO_16, value / TWO_32, value / TWO_48;
    assert b == a / TWO_16 && c == b / TWO_16;
    assert value == TWO_16 * a + value % TWO_16;
    assert a == TWO_16 * b + a % TWO_16;
    assert b == TWO_16 * c + b % TWO_16;
    assert c == TWO_16 * (c / TWO_16) + c % TWO_16;
    assert value == FromLimbs(IntoLimbs(value)) + TWO_64 * (c / TWO_16);
  }

  // collapseBlindings.
  function CollapseBlindings(curve: Curve, r: seq<nat>): nat
    requires curve.q > 0 && |r| == 4
  {
    var q := curve.q;
    var a0 := M(q, r[0]);
    var a1 := M(q, a0 + M(q, r[1] * TWO_16));
    var a2 := M(q, a1 + M(q, r[2] * TWO_32));
    M(q, a2 + M(q, r[3] * TWO_48))
  }

  // ---------- What a ciphertext encrypts ----------

  // The handle is sk times the commitment without its value part.
  ghost predicate Encrypts(curve: Curve, sk: nat, c: Ciphertext, value: int)
    requires curve.q > 0
  {
    Same(curve.q, c.handle, sk * (c.ciphertext - value * curve.h))
  }

  lemma CommitIs(curve: Curve, value: nat, blinding: nat)
    requires curve.q > 0
    ensures Same(curve.q, Commit(curve, value, blinding), value * curve.h + blinding)
  {
    hide M;
    var q := curve.q;
    SameM(q, value * curve.h);
    SameM(q, blinding * 1);
    SameAdd(q, M(q, value * curve.h), value * curve.h, M(q, blinding * 1), blinding);
    SameM(q, M(q, value * curve.h) + M(q, blinding * 1));
  }

  lemma EncryptEncrypts(curve: Curve, sk: nat, value: nat, blinding: nat)
    requires curve.q > 0
    ensures Encrypts(curve, sk, Encrypt(curve, PublicKey(curve, sk), value, blinding), value)
  {
    hide M;
    var q := curve.q;
    var c := Encrypt(curve, PublicKey(curve, sk), value, blinding);
    CommitIs(curve, value, blinding);
    hide Commit;
    SameSub(q, c.ciphertext, value * curve.h + blinding, value * curve.h, value * curve.h);
    SameMul(q, sk, sk, c.ciphertext - value * curve.h, blinding);
    var pk := M(q, sk * 1);
    SameM(q, sk * 1);
    SameM(q, blinding * pk);
    SameMul(q, blinding, blinding, pk, sk);
    Commute(blinding, sk);
  }

  lemma TrivialEncrypts(curve: Curve, sk: nat, value: nat)
    requires curve.q > 0
    ensures Encrypts(curve, sk, Trivial(curve, value), value)
  {
    hide M;
    var q := curve.q;
    var v := value * curve.h;
    SameM(q, v);
    SameSub(q, M(q, v), v, v, v);
    SameMul(q, sk, sk, M(q, v) - v, 0);
    assert sk * 0 == 0;
  }

  lemma PlusEncrypts(curve: Curve, sk: nat, a: Ciphertext, b: Ciphertext, m: int, n: int)
    requires curve.q > 0 && Encrypts(curve, sk, a, m) && Encrypts(curve, sk, b, n)
    ensures Encrypts(curve, sk, Plus(curve, a, b), m + n)
  {
    hide M;
    var q, h := curve.q, curve.h;
    var x, y := a.ciphertext - m * h, b.ciphertext - n * h;
    SameAdd(q, a.handle, sk * x, b.handle, sk * y);
    SameM(q, a.handle + b.handle);
    SameM(q, a.ciphertext + b.ciphertext);
    SameSub(q, M(q, a.ciphertext + b.ciphertext), a.ciphertext + b.ciphertext, (m + n) * h, (m + n) * h);
    Sums(sk, h, a.ciphertext, b.ciphertext, m, n);
    SameMul(q, sk, sk, M(q, a.ciphertext + b.ciphertext) - (m + n) * h, x + y);
  }

  lemma MinusEncrypts(curve: Curve, sk: nat, a: Ciphertext, b: Ciphertext, m: int, n: int)
    requires curve.q > 0 && Encrypts(curve, sk, a, m) && Encrypts(curve, sk, b, n)
    ensures Encrypts(curve, sk, Minus(curve, a, b), m - n)
  {
    hide M;
    var q, h := curve.q, curve.h;
    var x, y := a.ciphertext - m * h, b.ciphertext - n * h;
    SameSub(q, a.handle, sk * x, b.handle, sk * y);
    SameM(q, a.handle - b.handle);
    SameM(q, a.ciphertext - b.ciphertext);
    SameSub(q, M(q, a.ciphertext - b.ciphertext), a.ciphertext - b.ciphertext, (m - n) * h, (m - n) * h);
    Differences(sk, h, a.ciphertext, b.ciphertext, m, n);
    SameMul(q, sk, sk, M(q, a.ciphertext - b.ciphertext) - (m - n) * h, x - y);
  }

  lemma Sums(sk: int, h: int, a: int, b: int, m: int, n: int)
    ensures sk * (a - m * h) + sk * (b - n * h) == sk * ((a - m * h) + (b - n * h))
    ensures (a - m * h) + (b - n * h) == (a + b) - (m + n) * h
  {
  }

  lemma Differences(sk: int, h: int, a: int, b: int, m: int, n: int)
    ensures sk * (a - m * h) - sk * (b - n * h) == sk * ((a - m * h) - (b - n * h))
    ensures (a - m * h) - (b - n * h) == (a - b) - (m - n) * h
  {
  }

  lemma ShiftEncrypts(curve: Curve, sk: nat, a: Ciphertext, factor: nat, m: int)
    requires curve.q > 0 && Encrypts(curve, sk, a, m)
    ensures Encrypts(curve, sk, Shift(curve, a, factor), factor * m)
  {
    hide M;
    var q, h := curve.q, curve.h;
    var x := a.ciphertext - m * h;
    SameMul(q, factor, factor, a.handle, sk * x);
    SameM(q, factor * a.handle);
    SameM(q, factor * a.ciphertext);
    SameSub(q, M(q, factor * a.ciphertext), factor * a.ciphertext, (factor * m) * h, (factor * m) * h);
    Products(factor, sk, a.ciphertext, m, h);
    SameMul(q, sk, sk, M(q, factor * a.ciphertext) - (factor * m) * h, factor * x);
  }

  lemma Products(f: int, sk: int, a: int, m: int, h: int)
    ensures f * (sk * (a - m * h)) == sk * (f * (a - m * h))
    ensures f * (a - m * h) == f * a - (f * m) * h
  {
    assert f * (sk * (a - m * h)) == (f * sk) * (a - m * h);
    assert sk * (f * (a - m * h)) == (sk * f) * (a - m * h);
  }

  // If the limbs encrypt l0..l3, the collapsed ciphertext encrypts their combination.
  lemma CollapseEncrypts(curve: Curve, sk: nat, a: Amount, l: seq<nat>)
    requires curve.q > 0 && |l| == 4
    requires Encrypts(curve, sk, a.l0, l[0]) && Encrypts(curve, sk, a.l1, l[1])
    requires Encrypts(curve, sk, a.l2, l[2]) && Encrypts(curve, sk, a.l3, l[3])
    ensures Encrypts(curve, sk, Collapse(curve, a), FromLimbs(l))
  {
    hide Encrypts, Plus, Shift;
    ShiftEncrypts(curve, sk, a.l1, TWO_16, l[1]);
    ShiftEncrypts(curve, sk, a.l2, TWO_32, l[2]);
    ShiftEncrypts(curve, sk, a.l3, TWO_48, l[3]);
    var s1, s2, s3 := Shift(curve, a.l1, TWO_16), Shift(curve, a.l2, TWO_32), Shift(curve, a.l3, TWO_48);
    PlusEncrypts(curve, sk, s2, s3, TWO_32 * l[2], TWO_48 * l[3]);
    PlusEncrypts(curve, sk, s1, Plus(curve, s2, s3), TWO_16 * l[1], TWO_32 * l[2] + TWO_48 * l[3]);
    PlusEncrypts(curve, sk, a.l0, Plus(curve, s1, Plus(curve, s2, s3)), l[0],
                 TWO_16 * l[1] + (TWO_32 * l[2] + TWO_48 * l[3]));
  }

  // A ciphertext encrypts at most one residue: two values it encrypts are congruent.
  lemma EncryptsUnique(curve: Curve, sk: nat, c: Ciphertext, m: int, n: int)
    requires curve.Valid() && 0 < sk < curve.q
    requires Encrypts(curve, sk, c, m) && Encrypts(curve, sk, c, n)
    ensures Same(curve.q, m, n)
  {
    hide M, Prime;
    var q, h := curve.q, curve.h;
    var x, y := c.ciphertext - m * h, c.ciphertext - n * h;
    Commute(sk, x);
    Commute(sk, y);
    Cancel(q, x, y, sk);
    SameSub(q, c.ciphertext, c.ciphertext, x, y);
    assert c.ciphertext - x == m * h && c.ciphertext - y == n * h;
    Cancel(q, m, n, h);
  }

  // Decryption with the inverse key finds value exactly when the ciphertext encrypts it.
  lemma DecryptsIff(curve: Curve, sk: nat, c: Ciphertext, value: nat)
    requires curve.Valid() && 0 < sk < curve.q
    ensures Encrypts(curve, sk, c, value)
      <==> DiscreteLog.IsLog(curve, value, DiscreteLog.Masked(curve, c.ciphertext, c.handle, Inv(curve.q, sk)))
  {
    hide Prime, M;
    var q, h, k := curve.q, curve.h, Inv(curve.q, sk);
    var v, x := value * h, c.ciphertext - value * h;
    SameM(q, k * c.handle);
    SameSub(q, c.ciphertext, c.ciphertext, M(q, k * c.handle), k * c.handle);
    InverseSame(q, sk);
    assert Same(q, k * c.handle, x) <==> Same(q, c.handle, sk * x) by {
      InverseMoves(q, sk, k, c.handle, x);
    }
    if Same(q, k * c.handle, x) {
      SameSub(q, c.ciphertext, c.ciphertext, k * c.handle, x);
    }
    if Same(q, v, c.ciphertext - k * c.handle) {
      SameSub(q, c.ciphertext, c.ciphertext, v, c.ciphertext - k * c.handle);
    }
  }

  lemma InverseSame(q: nat, a: nat)
    requires Prime(q) && 0 < a < q
    ensures Same(q, a * Inv(q, a), 1)
  {
    Canonical(q, 1);
  }

  lemma InverseMoves(q: nat, a: int, k: int, x: int, y: int)
    requires q > 0 && Same(q, a * k, 1)
    ensures Same(q, k * x, y) <==> Same(q, x, a * y)
  {
    hide M;
    if Same(q, k * x, y) {
      SameMul(q, a, a, k * x, y);
      SameMul(q, a * k, 1, x, x);
      assert a * (k * x) == (a * k) * x;
    }
    if Same(q, x, a * y) {
      SameMul(q, k, k, x, a * y);
      SameMul(q, a * k, 1, y, y);
      assert k * (a * y) == (a * k) * y;
    }
  }
}
