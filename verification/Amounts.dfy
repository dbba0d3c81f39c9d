// Encrypted amounts: four 16-bit limbs under one key, the homomorphism that collapses them, and
// their decryption.

module Amounts {
  import opened Wrappers
  import opened Modular
  import opened Ristretto
  import opened ElGamal
  import opened Auditor
  import DiscreteLog

  // ---------- Encryption is a homomorphism ----------

  // The exponents of an encryption.
  lemma EncryptExact(curve: Curve, pk: Element, v: nat, r: nat)
    requires curve.q > 0
    ensures Encrypt(curve, pk, v, r) == Ciphertext(M(curve.q, v * curve.h + r), M(curve.q, r * pk))
  {
    hide M;
    var q := curve.q;
    CommitIs(curve, v, r);
    Idempotent(q, Mul(curve, curve.h, v) + Mul(curve, 1, r));
  }

  lemma EncryptSame(curve: Curve, pk: Element, v: nat, w: nat, r: nat, s: nat)
    requires curve.q > 0 && Same(curve.q, v, w) && Same(curve.q, r, s)
    ensures Encrypt(curve, pk, v, r) == Encrypt(curve, pk, w, s)
  {
    hide M, Encrypt;
    var q, h := curve.q, curve.h;
    EncryptExact(curve, pk, v, r);
    EncryptExact(curve, pk, w, s);
    SameMul(q, v, w, h, h);
    SameAdd(q, v * h, w * h, r, s);
    SameMul(q, r, s, pk, pk);
  }

  lemma PlusEncrypt(curve: Curve, pk: Element, v: nat, w: nat, r: nat, s: nat)
    requires curve.q > 0
    ensures Plus(curve, Encrypt(curve, pk, v, r), Encrypt(curve, pk, w, s)) == Encrypt(curve, pk, v + w, r + s)
  {
    hide M, Encrypt;
    var q, h := curve.q, curve.h;
    EncryptExact(curve, pk, v, r);
    EncryptExact(curve, pk, w, s);
    EncryptExact(curve, pk, v + w, r + s);
    SumM(q, v * h + r, w * h + s);
    SumM(q, r * pk, s * pk);
    assert (v + w) * h + (r + s) == (v * h + r) + (w * h + s);
    assert (r + s) * pk == r * pk + s * pk;
  }

  lemma SumM(q: nat, a: int, b: int)
    requires q > 0
    ensures M(q, M(q, a) + M(q, b)) == M(q, a + b)
  {
    hide M;
    AddM(q, a, M(q, b));
    AddM(q, b, a);
  }

  lemma ShiftEncrypt(curve: Curve, pk: Element, v: nat, r: nat, f: nat)
    requires curve.q > 0
    ensures ElGamal.Shift(curve, Encrypt(curve, pk, v, r), f) == Encrypt(curve, pk, f * v, f * r)
  {
    hide M, Encrypt, ElGamal.Shift;
    var q, h := curve.q, curve.h;
    EncryptExact(curve, pk, v, r);
    EncryptExact(curve, pk, f * v, f * r);
    ShiftExact(curve, v * h + r, r * pk, f);
    ShiftProducts(f, v, h, r, pk);
  }

  lemma ShiftExact(curve: Curve, x: int, y: int, f: nat)
    requires curve.q > 0
    ensures ElGamal.Shift(curve, Ciphertext(M(curve.q, x), M(curve.q, y)), f)
      == Ciphertext(M(curve.q, f * x), M(curve.q, f * y))
  {
    hide M;
    MulM(curve.q, x, f);
    MulM(curve.q, y, f);
    Commute(x, f);
    Commute(y, f);
  }

  lemma ShiftProducts(f: int, v: int, h: int, r: int, pk: int)
    ensures f * (v * h + r) == (f * v) * h + f * r
    ensures f * (r * pk) == (f * r) * pk
  {
    assert f * (v * h) == (f * v) * h;
  }

  // The four limbs of a value under one key.
  function EncryptLimbs(curve: Curve, pk: Element, value: nat, r: seq<nat>): Amount
    requires curve.q > 0 && |r| == 4
  {
    var l := IntoLimbs(value);
    Amount(Encrypt(curve, pk, l[0], r[0]), Encrypt(curve, pk, l[1], r[1]),
           Encrypt(curve, pk, l[2], r[2]), Encrypt(curve, pk, l[3], r[3]))
  }

  // The collapsed limbs are one encryption of the value modulo 2^64, under the collapsed blinding.
  lemma CollapseLimbs(curve: Curve, pk: Element, value: nat, r: seq<nat>)
    requires curve.q > 0 && |r| == 4
    ensures Collapse(curve, EncryptLimbs(curve, pk, value, r))
      == Encrypt(curve, pk, value % TWO_64, CollapseBlindings(curve, r))
  {
    hide M, Encrypt, Plus, ElGamal.Shift, IntoLimbs;
    var l := IntoLimbs(value);
    hide CollapseBlindings;
    ShiftEncrypt(curve, pk, l[1], r[1], TWO_16);
    ShiftEncrypt(curve, pk, l[2], r[2], TWO_32);
    ShiftEncrypt(curve, pk, l[3], r[3], TWO_48);
    var v3, r3 := TWO_48 * l[3], TWO_48 * r[3];
    var v2, r2 := TWO_32 * l[2], TWO_32 * r[2];
    var v1, r1 := TWO_16 * l[1], TWO_16 * r[1];
    PlusEncrypt(curve, pk, v2, v3, r2, r3);
    PlusEncrypt(curve, pk, v1, v2 + v3, r1, r2 + r3);
    PlusEncrypt(curve, pk, l[0], v1 + (v2 + v3), r[0], r1 + (r2 + r3));
    ElGamal.LimbsRoundTrip(value);
    assert l[0] + (v1 + (v2 + v3)) == value % TWO_64;
    CollapseBlindingsIs(curve, r);
    EncryptSame(curve, pk, value % TWO_64, value % TWO_64, r[0] + (r1 + (r2 + r3)), CollapseBlindings(curve, r));
  }

  // collapseBlindings is the blinding of the collapsed ciphertext.
  lemma CollapseBlindingsIs(curve: Curve, r: seq<nat>)
    requires curve.q > 0 && |r| == 4
    ensures Same(curve.q, r[0] + (TWO_16 * r[1] + (TWO_32 * r[2] + TWO_48 * r[3])), CollapseBlindings(curve, r))
  {
    hide M;
    var q := curve.q;
    BlindingStep(q, r[0], r[1] * TWO_16);
    BlindingStep(q, r[0] + r[1] * TWO_16, r[2] * TWO_32);
    BlindingStep(q, r[0] + r[1] * TWO_16 + r[2] * TWO_32, r[3] * TWO_48);
    Idempotent(q, r[0] + r[1] * TWO_16 + r[2] * TWO_32 + r[3] * TWO_48);
  }

  lemma BlindingStep(q: nat, a: int, b: int)
    requires q > 0
    ensures M(q, M(q, a) + M(q, b)) == M(q, a + b)
  {
    SumM(q, a, b);
  }

  // ---------- Decryption of an amount ----------

  // EncryptedAmount.decryptWithInverse: the four limbs in order.
  ghost function AmountValue(curve: Curve, bound: nat, sk: nat, a: Amount): (r: Result<nat, AuditError>)
    requires curve.q > 0
  {
    var d0 :- OrFailed(Decrypted(curve, bound, sk, a.l0));
    var d1 :- OrFailed(Decrypted(curve, bound, sk, a.l1));
    var d2 :- OrFailed(Decrypted(curve, bound, sk, a.l2));
    var d3 :- OrFailed(Decrypted(curve, bound, sk, a.l3));
    Ok(FromLimbs([d0, d1, d2, d3]))
  }

  // The representatives of one limb, as decoded.
  datatype LimbPoints = LimbPoints(ciphertext: Point, handle: Point)

  function LimbOf(p: LimbPoints): Ciphertext {
    Ciphertext(p.ciphertext.element, p.handle.element)
  }

  function AmountOf(p: seq<LimbPoints>): Amount
    requires |p| == 4
  {
    Amount(LimbOf(p[0]), LimbOf(p[1]), LimbOf(p[2]), LimbOf(p[3]))
  }

  method DecryptAmount(p: seq<LimbPoints>, ghost sk: nat, inverse: nat, table: DiscreteLog.DiscreteLogTable)
    returns (r: Result<nat, AuditError>)
    requires |p| == 4 && table.Valid() && 0 < sk < table.curve.q && inverse == Inv(table.curve.q, sk)
    modifies table`cache, table`order
    ensures table.Valid()
    ensures r == AmountValue(table.curve, table.tableSize * table.tableSize, sk, AmountOf(p))
  {
    hide Prime, Inv, Decrypted, FromLimbs;
    var d0 :- DecryptWithInverse(p[0].ciphertext, p[0].handle, sk, inverse, table);
    var d1 :- DecryptWithInverse(p[1].ciphertext, p[1].handle, sk, inverse, table);
    var d2 :- DecryptWithInverse(p[2].ciphertext, p[2].handle, sk, inverse, table);
    var d3 :- DecryptWithInverse(p[3].ciphertext, p[3].handle, sk, inverse, table);
    return Ok(FromLimbs([d0, d1, d2, d3]));
  }

  // A decrypted amount is what its collapsed ciphertext encrypts, whoever made the limbs.
  lemma DecryptedCollapses(curve: Curve, bound: nat, sk: nat, a: Amount)
    requires curve.q > 0 && AmountValue(curve, bound, sk, a).Ok?
    ensures Encrypts(curve, sk, Collapse(curve, a), AmountValue(curve, bound, sk, a).value)
  {
    hide Encrypts, Collapse, FromLimbs;
    var d0 := Decrypted(curve, bound, sk, a.l0).value;
    var d1 := Decrypted(curve, bound, sk, a.l1).value;
    var d2 := Decrypted(curve, bound, sk, a.l2).value;
    var d3 := Decrypted(curve, bound, sk, a.l3).value;
    CollapseEncrypts(curve, sk, a, [d0, d1, d2, d3]);
  }

  lemma AmountBound(curve: Curve, bound: nat, sk: nat, a: Amount)
    requires curve.q > 0 && AmountValue(curve, bound, sk, a).Ok? && bound <= TWO_64
    ensures AmountValue(curve, bound, sk, a).value < 0x2_0000_0000_0000_0000_0000_0000_0000
  {
    hide Encrypts;
  }

  // The owner decrypts freshly encrypted limbs to the value modulo 2^64.
  lemma LimbsDecrypt(curve: Curve, bound: nat, sk: nat, value: nat, r: seq<nat>)
    requires curve.Valid() && 0 < sk < curve.q && TWO_16 <= bound <= curve.q && |r| == 4
    ensures AmountValue(curve, bound, sk, EncryptLimbs(curve, PublicKey(curve, sk), value, r)) == Ok(value % TWO_64)
  {
    hide Prime, Encrypts, M, Decrypted, Encrypt, PublicKey, FromLimbs, IntoLimbs;
    var l := IntoLimbs(value);
    forall i | 0 <= i < 4
      ensures Decrypted(curve, bound, sk, Encrypt(curve, PublicKey(curve, sk), l[i], r[i])) == Some(l[i])
    {
      EncryptEncrypts(curve, sk, l[i], r[i]);
      DecryptedIs(curve, bound, sk, Encrypt(curve, PublicKey(curve, sk), l[i], r[i]), l[i]);
    }
    assert [l[0], l[1], l[2], l[3]] == l;
    ElGamal.LimbsRoundTrip(value);
  }
}
