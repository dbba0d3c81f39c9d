// What the challenges bind and what the proofs reveal: different statements or commitments are
// hashed differently, and an honest transcript can be made without the witness.

module Transcripts {
  import opened Modular
  import opened Ristretto
  import opened ElGamal
  import opened Nizk

  // ---------- Binding ----------

  // Some hash tells two inputs apart exactly when their statements or commitments differ.
  lemma DdhBinds(s: DdhStatement, a: Element, b: Element, t: DdhStatement, c: Element, d: Element)
    ensures (exists hash: Challenge :: DdhChallenge(hash, s, a, b) != DdhChallenge(hash, t, c, d))
      <==> s != t || a != c || b != d
  {
    var x, y := [s.g, s.h, s.xG, s.xH, a, b], [t.g, t.h, t.xG, t.xH, c, d];
    var hash: Challenge := i => if i == x then 1 else 0;
    assert x == y <==>
      x[0] == y[0] && x[1] == y[1] && x[2] == y[2] && x[3] == y[3] && x[4] == y[4] && x[5] == y[5];
    if x != y {
      assert DdhChallenge(hash, s, a, b) != DdhChallenge(hash, t, c, d);
    }
  }

  // The same for well-formed ciphertexts, whose bases are fixed.
  lemma ElGamalBinds(curve: Curve, e: Ciphertext, pk: Element, a: Element, b: Element, f: Ciphertext, key: Element,
                     c: Element, d: Element)
    ensures (exists hash: Challenge ::
              ElGamalChallenge(hash, curve, e, pk, a, b) != ElGamalChallenge(hash, curve, f, key, c, d))
      <==> e != f || pk != key || a != c || b != d
  {
    var x := [1, curve.h, pk, e.ciphertext, e.handle, a, b];
    var y := [1, curve.h, key, f.ciphertext, f.handle, c, d];
    var hash: Challenge := i => if i == x then 1 else 0;
    assert x == y <==> x[2] == y[2] && x[3] == y[3] && x[4] == y[4] && x[5] == y[5] && x[6] == y[6];
    if x != y {
      assert ElGamalChallenge(hash, curve, e, pk, a, b) != ElGamalChallenge(hash, curve, f, key, c, d);
    }
  }

  // ---------- Zero knowledge ----------

  // For a fixed challenge, the accepted transcripts of a true statement are exactly the honest ones,
  // each from one mask. So a transcript says nothing about the witness that its challenge, its
  // response and the statement do not.

  // A hash with one value.
  function Fixed(c: nat): Challenge {
    _ => c
  }

  function FixedKey(c: nat): KeyChallenge {
    (_, _, _, _) => c
  }

  ghost predicate Answers(q: nat, c: nat, x: nat, mask: nat, z: nat)
    requires q > 0
  {
    mask < q && M(q, mask + c * x) == z
  }

  // Exactly one mask leads to a response.
  lemma MaskFor(q: nat, c: nat, x: nat, z: nat) returns (mask: nat)
    requires z < q
    ensures Answers(q, c, x, mask, z)
    ensures forall o: nat | Answers(q, c, x, o, z) :: o == mask
  {
    hide M;
    mask := M(q, z - c * x);
    AddM(q, z - c * x, c * x);
    Canonical(q, z);
    forall o: nat | Answers(q, c, x, o, z)
      ensures o == mask
    {
      SameSub(q, o + c * x, mask + c * x, c * x, c * x);
      Canonical(q, o);
      Canonical(q, mask);
    }
  }

  // A commitment hides its value: under exactly one blinding it commits to any given one.
  lemma CommitHides(curve: Curve, value: nat, e: Element) returns (blinding: nat)
    requires e < curve.q
    ensures blinding < curve.q && Commit(curve, value, blinding) == e
    ensures forall o: nat | o < curve.q && Commit(curve, value, o) == e :: o == blinding
  {
    hide *;
    blinding := MaskFor(curve.q, value, curve.h, e);
    forall o: nat
      ensures Answers(curve.q, value, curve.h, o, e) <==> o < curve.q && Commit(curve, value, o) == e
    {
      CommitAnswers(curve, value, o, e);
    }
  }

  lemma CommitAnswers(curve: Curve, value: nat, blinding: nat, e: Element)
    requires e < curve.q
    ensures Answers(curve.q, value, curve.h, blinding, e)
      <==> blinding < curve.q && Commit(curve, value, blinding) == e
  {
    var sum := Mul(curve, curve.h, value) + Mul(curve, 1, blinding);
    assert Commit(curve, value, blinding) == M(curve.q, sum);
    hide M, Commit, Mul;
    CommitIs(curve, value, blinding);
    Idempotent(curve.q, sum);
  }

  // Challenge, response and public elements determine the commitment.
  lemma SameCommitment(curve: Curve, c: nat, a: Element, b: Element, image: Element, zx: int)
    requires curve.q > 0 && a < curve.q && b < curve.q
    requires Same(curve.q, a + c * image, zx) && Same(curve.q, b + c * image, zx)
    ensures a == b
  {
    hide M;
    SameSub(curve.q, a + c * image, b + c * image, c * image, c * image);
    Canonical(curve.q, a);
    Canonical(curve.q, b);
  }

  lemma DdhTranscript(curve: Curve, c: nat, x: nat, s: DdhStatement, p: DdhProof) returns (r: nat)
    requires curve.Valid() && DdhHolds(curve, x, s)
    requires p.a < curve.q && p.b < curve.q && p.z < curve.q && DdhAccepts(curve, c, p, s)
    ensures Answers(curve.q, c, x, r, p.z) && ProveDdh(curve, Fixed(c), r, x, s) == p
    ensures forall o: nat | o < curve.q && ProveDdh(curve, Fixed(c), o, x, s) == p :: o == r
  {
    r := MaskFor(curve.q, c, x, p.z);
    var h := ProveDdh(curve, Fixed(c), r, x, s);
    assert h.a < curve.q && h.b < curve.q;
    forall o: nat | o < curve.q && ProveDdh(curve, Fixed(c), o, x, s) == p
      ensures o == r
    {
      assert Answers(curve.q, c, x, o, p.z);
    }
    hide M, Prime, DdhHolds;
    DdhCompleteness(curve, Fixed(c), r, x, s);
    RelationIs(curve, p.a, s.xG, s.g, p.z, c);
    RelationIs(curve, h.a, s.xG, s.g, p.z, c);
    RelationIs(curve, p.b, s.xH, s.h, p.z, c);
    RelationIs(curve, h.b, s.xH, s.h, p.z, c);
    Canonical(curve.q, p.a);
    Canonical(curve.q, h.a);
    Canonical(curve.q, p.b);
    Canonical(curve.q, h.b);
  }

  lemma ElGamalTranscript(curve: Curve, c: nat, blinding: nat, amount: nat, pk: Element, p: ElGamalProof)
    returns (r1: nat, r2: nat)
    requires p.a < curve.q && p.b < curve.q && p.z1 < curve.q && p.z2 < curve.q
    requires ElGamalAccepts(curve, c, p, Encrypt(curve, pk, amount, blinding), pk)
    ensures Answers(curve.q, c, blinding, r1, p.z1) && Answers(curve.q, c, amount, r2, p.z2)
    ensures ProveElGamal(curve, Fixed(c), r1, r2, blinding, amount, Encrypt(curve, pk, amount, blinding), pk) == p
    ensures forall o1: nat, o2: nat | o1 < curve.q && o2 < curve.q
      && ProveElGamal(curve, Fixed(c), o1, o2, blinding, amount, Encrypt(curve, pk, amount, blinding), pk) == p
      :: o1 == r1 && o2 == r2
  {
    r1 := MaskFor(curve.q, c, blinding, p.z1);
    r2 := MaskFor(curve.q, c, amount, p.z2);
    var e := Encrypt(curve, pk, amount, blinding);
    var h := ProveElGamal(curve, Fixed(c), r1, r2, blinding, amount, e, pk);
    assert h.a < curve.q && h.b < curve.q;
    forall o1: nat, o2: nat | o1 < curve.q && o2 < curve.q
      && ProveElGamal(curve, Fixed(c), o1, o2, blinding, amount, e, pk) == p
      ensures o1 == r1 && o2 == r2
    {
      assert Answers(curve.q, c, blinding, o1, p.z1) && Answers(curve.q, c, amount, o2, p.z2);
    }
    hide M, Encrypt, Mul;
    ElGamalCompleteness(curve, Fixed(c), r1, r2, blinding, amount, pk);
    HandleIs(curve, c, p.a, e.handle, pk, p.z1);
    HandleIs(curve, c, h.a, e.handle, pk, p.z1);
    SameCommitment(curve, c, p.a, h.a, e.handle, p.z1 * pk);
    CommitCheckIs(curve, c, p.b, e.ciphertext, p.z1, p.z2);
    CommitCheckIs(curve, c, h.b, e.ciphertext, p.z1, p.z2);
    SameCommitment(curve, c, p.b, h.b, e.ciphertext, p.z1 + p.z2 * curve.h);
  }

  // ---------- The key-consistency proof ----------

  ghost predicate AllAnswer(q: nat, c: nat, xs: seq<nat>, masks: seq<nat>, zs: seq<nat>)
    requires q > 0 && |xs| == |masks| == |zs|
  {
    forall i | 0 <= i < |xs| :: Answers(q, c, xs[i], masks[i], zs[i])
  }

  lemma {:induction false} MasksFor(q: nat, c: nat, xs: seq<nat>, zs: seq<nat>) returns (masks: seq<nat>)
    requires q > 0 && |xs| == |zs| && forall i | 0 <= i < |zs| :: zs[i] < q
    ensures |masks| == |xs| && AllAnswer(q, c, xs, masks, zs)
    ensures forall o: seq<nat> | |o| == |xs| && AllAnswer(q, c, xs, o, zs) :: o == masks
  {
    hide Answers;
    if xs == [] {
      masks := [];
    } else {
      var n := |xs| - 1;
      var front := MasksFor(q, c, xs[..n], zs[..n]);
      var last := MaskFor(q, c, xs[n], zs[n]);
      masks := front + [last];
      forall o: seq<nat> | |o| == |xs| && AllAnswer(q, c, xs, o, zs)
        ensures o == masks
      {
        assert AllAnswer(q, c, xs[..n], o[..n], zs[..n]);
        assert Answers(q, c, xs[n], o[n], zs[n]);
        assert o == o[..n] + [o[n]];
      }
    }
  }

  // The elements and responses are the canonical ones.
  ghost predicate Reduced(q: nat, p: KeyProof) {
    && (forall i | 0 <= i < |p.a1| :: p.a1[i] < q) && (forall i | 0 <= i < |p.a2| :: p.a2[i] < q) && p.a3 < q
    && (forall i | 0 <= i < |p.z1| :: p.z1[i] < q) && (forall i | 0 <= i < |p.z2| :: p.z2[i] < q)
  }

  // The statement is true for the limbs u and the blindings r.
  ghost predicate KeyTrue(curve: Curve, s: KeyStatement, u: seq<nat>, r: seq<nat>)
    requires curve.q > 0
  {
    && |u| == |r| == |s.ciphertexts|
    && (forall i | 0 <= i < |u| :: s.ciphertexts[i] == EncryptToAll(curve, s.recipients, u[i], r[i]))
    && Same(curve.q, s.senderKey, WeightedSum(u, |u|))
  }

  ghost predicate KeyShape(s: KeyStatement, p: KeyProof) {
    Shaped(s, p.a1, p.a2) && |p.z1| == |p.z2| == |p.a2|
  }

  // Challenge and responses determine the commitments.
  lemma SameKeyProof(curve: Curve, c: nat, s: KeyStatement, p: KeyProof, o: KeyProof)
    requires curve.q > 0 && KeyShape(s, p) && KeyShape(s, o) && Reduced(curve.q, p) && Reduced(curve.q, o)
    requires KeyAccepts(curve, c, p, s) && KeyAccepts(curve, c, o, s) && p.z1 == o.z1 && p.z2 == o.z2
    ensures p == o
  {
    var m := |s.recipients|;
    hide M, HandleCheck, CommitCheck, KeyCheck, Indexable, HandleAccepts;
    forall k | 0 <= k < |p.a1|
      ensures p.a1[k] == o.a1[k]
    {
      var i, j := RowOf(k, |p.a2|, m);
      assert HandleAccepts(curve, c, p, s, i, j) && HandleAccepts(curve, c, o, s, i, j);
      SameHandle(curve, c, s, p, o, i, j);
    }
    forall i | 0 <= i < |p.a2|
      ensures p.a2[i] == o.a2[i]
    {
      CommitCheckIs(curve, c, p.a2[i], s.ciphertexts[i].commitment, p.z1[i], p.z2[i]);
      CommitCheckIs(curve, c, o.a2[i], s.ciphertexts[i].commitment, p.z1[i], p.z2[i]);
      SameCommitment(curve, c, p.a2[i], o.a2[i], s.ciphertexts[i].commitment, p.z1[i] + p.z2[i] * curve.h);
    }
    assert p.z2[..|p.a2|] == p.z2 == o.z2[..|o.a2|];
    SameLast(curve, c, p.a3, o.a3, s.senderKey, p.z2);
  }

  lemma RowOf(k: nat, n: nat, m: nat) returns (i: nat, j: nat)
    requires k < n * m
    ensures i < n && j < m && k == i * m + j
  {
    assert n * 0 == 0;
    assert m > 0;
    i, j := k / m, k % m;
    assert k == m * (k / m) + k % m;
    Commute(m, i);
    if i >= n {
      Monotone(n, i, m);
      assert false;
    }
  }

  lemma SameHandle(curve: Curve, c: nat, s: KeyStatement, p: KeyProof, o: KeyProof, i: nat, j: nat)
    requires curve.q > 0 && Indexable(s, p) && Indexable(s, o) && |p.a2| == |o.a2|
    requires i < |p.a2| && j < |s.recipients| && p.z1 == o.z1
    requires Reduced(curve.q, p) && Reduced(curve.q, o)
    requires HandleAccepts(curve, c, p, s, i, j) && HandleAccepts(curve, c, o, s, i, j)
    ensures i * |s.recipients| + j < |p.a1| && i * |s.recipients| + j < |o.a1|
    ensures p.a1[i * |s.recipients| + j] == o.a1[i * |s.recipients| + j]
  {
    hide M, HandleCheck;
    HandlePresent(s, p, i, j);
    HandlePresent(s, o, i, j);
    var k := i * |s.recipients| + j;
    var handle, key := s.ciphertexts[i].handles[j], s.recipients[j];
    HandleIs(curve, c, p.a1[k], handle, key, p.z1[i]);
    HandleIs(curve, c, o.a1[k], handle, key, p.z1[i]);
    SameCommitment(curve, c, p.a1[k], o.a1[k], handle, p.z1[i] * key);
  }

  lemma SameLast(curve: Curve, c: nat, a: Element, b: Element, senderKey: Element, z2: seq<nat>)
    requires curve.q > 0 && a < curve.q && b < curve.q
    requires KeyCheck(curve, c, a, senderKey, z2) && KeyCheck(curve, c, b, senderKey, z2)
    ensures a == b
  {
    hide M, WeightedSum;
    var q := curve.q;
    AddM(q, c * senderKey, a);
    AddM(q, c * senderKey, b);
    SameCommitment(curve, c, a, b, senderKey, a + c * senderKey);
  }

  lemma KeyTranscript(curve: Curve, c: nat, u: seq<nat>, r: seq<nat>, s: KeyStatement, p: KeyProof)
    returns (a: seq<nat>, b: seq<nat>)
    requires curve.q > 0 && KeyTrue(curve, s, u, r)
    requires KeyShape(s, p) && Reduced(curve.q, p) && KeyAccepts(curve, c, p, s)
    ensures |a| == |b| == |u| && AllAnswer(curve.q, c, r, a, p.z1) && AllAnswer(curve.q, c, u, b, p.z2)
    ensures ProveKey(curve, FixedKey(c), a, b, u, r, s) == p
    ensures forall o: seq<nat>, w: seq<nat> | |o| == |w| == |u| && Below(curve.q, o) && Below(curve.q, w)
      && ProveKey(curve, FixedKey(c), o, w, u, r, s) == p :: o == a && w == b
  {
    a := MasksFor(curve.q, c, r, p.z1);
    b := MasksFor(curve.q, c, u, p.z2);
    var challenge := FixedKey(c);
    var h := ProveKey(curve, challenge, a, b, u, r, s);
    ProvedReduced(curve, challenge, a, b, u, r, s);
    hide KeyAccepts, KeyTrue, Reduced, ProveKey, WeightedSum, M, EncryptToAll, AllAnswer, Below;
    KeyTrueIs(curve, s, u, r);
    KeyCompleteness(curve, challenge, a, b, u, r, s);
    ProvedAnswers(curve, c, a, b, u, r, s, p.z1, p.z2);
    SameKeyProof(curve, c, s, h, p);
    forall o: seq<nat>, w: seq<nat> | |o| == |w| == |u| && Below(curve.q, o) && Below(curve.q, w)
      && ProveKey(curve, challenge, o, w, u, r, s) == p
      ensures o == a && w == b
    {
      ProvedAnswers(curve, c, o, w, u, r, s, p.z1, p.z2);
    }
  }

  ghost predicate Below(q: nat, masks: seq<nat>) {
    forall i | 0 <= i < |masks| :: masks[i] < q
  }

  lemma KeyTrueIs(curve: Curve, s: KeyStatement, u: seq<nat>, r: seq<nat>)
    requires curve.q > 0 && KeyTrue(curve, s, u, r)
    ensures |u| == |r| == |s.ciphertexts|
    ensures forall i | 0 <= i < |u| :: s.ciphertexts[i] == EncryptToAll(curve, s.recipients, u[i], r[i])
    ensures Same(curve.q, s.senderKey, WeightedSum(u, |u|))
  {
  }

  // The honest responses are those the masks answer with.
  lemma ProvedAnswers(curve: Curve, c: nat, a: seq<nat>, b: seq<nat>, u: seq<nat>, r: seq<nat>, s: KeyStatement,
                      z1: seq<nat>, z2: seq<nat>)
    requires curve.q > 0 && |a| == |b| == |u| == |r| == |z1| == |z2|
    ensures var p := ProveKey(curve, FixedKey(c), a, b, u, r, s);
      (Below(curve.q, a) && Below(curve.q, b) && p.z1 == z1 && p.z2 == z2)
      <==> AllAnswer(curve.q, c, r, a, z1) && AllAnswer(curve.q, c, u, b, z2)
  {
    var p := ProveKey(curve, FixedKey(c), a, b, u, r, s);
    assert forall i | 0 <= i < |u| :: p.z1[i] == M(curve.q, a[i] + c * r[i]);
    assert forall i | 0 <= i < |u| :: p.z2[i] == M(curve.q, b[i] + c * u[i]);
    hide M, ProveKey;
    if AllAnswer(curve.q, c, r, a, z1) && AllAnswer(curve.q, c, u, b, z2) {
      forall i | 0 <= i < |u|
        ensures a[i] < curve.q && b[i] < curve.q && p.z1[i] == z1[i] && p.z2[i] == z2[i]
      {
        assert Answers(curve.q, c, r[i], a[i], z1[i]) && Answers(curve.q, c, u[i], b[i], z2[i]);
      }
    }
  }

  lemma {:induction false} FlatReduced(curve: Curve, a: seq<nat>, keys: seq<Element>, n: nat)
    requires curve.q > 0 && n <= |a|
    ensures forall k | 0 <= k < |FlatMasks(curve, a, keys, n)| :: FlatMasks(curve, a, keys, n)[k] < curve.q
  {
    if n > 0 {
      FlatReduced(curve, a, keys, n - 1);
    }
  }

  lemma ProvedReduced(curve: Curve, challenge: KeyChallenge, a: seq<nat>, b: seq<nat>, u: seq<nat>, r: seq<nat>,
                      s: KeyStatement)
    requires curve.q > 0 && |a| == |b| == |u| == |r|
    ensures Reduced(curve.q, ProveKey(curve, challenge, a, b, u, r, s))
  {
    FlatReduced(curve, a, s.recipients, |u|);
    hide FlatMasks, FoldSum;
  }
}
