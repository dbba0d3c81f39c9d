// Decryption of ciphertexts with a private key, and the auditor's recovery of a user's private
// key from its encrypted limbs.

module Auditor {
  import opened Wrappers
  import opened Modular
  import opened Ristretto
  import opened ElGamal
  import opened Nizk
  import DiscreteLog

  datatype AuditError = NoAuditors | UnknownVersion | IndexOutOfRange(limb: nat) | NoInverse | DecryptionFailed

  // The record an auditor holds for one version of the auditor list.
  datatype Entry = Entry(index: nat, privateKey: nat)

  // MultiRecipientEncryption as decoded: any representatives of the commitment and the handles.
  datatype Received = Received(commitment: Point, handles: seq<Point>)

  // ---------- What decryption means ----------

  // The value below bound a ciphertext encrypts under sk, if there is one.
  ghost function Decrypted(curve: Curve, bound: nat, sk: nat, c: Ciphertext): (r: Option<nat>)
    requires curve.q > 0
    ensures r.Some? ==> r.value < bound && Encrypts(curve, sk, c, r.value)
  {
    if m: nat :| m < bound && Encrypts(curve, sk, c, m) then Some(m) else None
  }

  lemma DecryptedIs(curve: Curve, bound: nat, sk: nat, c: Ciphertext, m: nat)
    requires curve.Valid() && 0 < sk < curve.q && bound <= curve.q && m < curve.q
    requires Encrypts(curve, sk, c, m)
    ensures Decrypted(curve, bound, sk, c) == if m < bound then Some(m) else None
  {
    hide Prime, Encrypts;
    var r := Decrypted(curve, bound, sk, c);
    if r.Some? {
      EncryptsUnique(curve, sk, c, m, r.value);
      SmallSame(curve.q, m, r.value);
    }
  }

  lemma SmallSame(q: nat, a: nat, b: nat)
    requires a < q && b < q && Same(q, a, b)
    ensures a == b
  {
    hide M;
    Canonical(q, a);
    Canonical(q, b);
  }

  // The scalar field's inversion, which throws on zero.
  ghost predicate Inverts(q: nat, invert: nat -> nat) {
    Prime(q) && forall a: nat | 0 < a < q :: invert(a) == Inv(q, a)
  }

  function OrFailed<T>(r: Option<T>): Result<T, AuditError> {
    if r.Some? then Ok(r.value) else Err(DecryptionFailed)
  }

  // Ciphertext.decryptWithInverse, in terms of what the ciphertext encrypts.
  method DecryptWithInverse(c: Point, handle: Point, ghost sk: nat, inverse: nat, table: DiscreteLog.DiscreteLogTable)
    returns (r: Result<nat, AuditError>)
    requires table.Valid() && 0 < sk < table.curve.q && inverse == Inv(table.curve.q, sk)
    modifies table`cache, table`order
    ensures table.Valid()
    ensures r == OrFailed(Decrypted(table.curve, table.tableSize * table.tableSize, sk,
                                    Ciphertext(c.element, handle.element)))
  {
    hide Prime, Encrypts, DiscreteLog.IsLog, DiscreteLog.Masked, Inv;
    ghost var bound := table.tableSize * table.tableSize;
    var found := DiscreteLog.DecryptWithInverse(c, handle, inverse, table);
    forall m: nat | m < bound
      ensures Encrypts(table.curve, sk, Ciphertext(c.element, handle.element), m) <==> found == Ok(m)
    {
      DecryptsIff(table.curve, sk, Ciphertext(c.element, handle.element), m);
    }
    match found
    case Ok(m) => r := Ok(m);
    case Err(_) => r := Err(DecryptionFailed);
  }

  // ---------- Recovering a private key ----------

  ghost function RecoveredLimb(curve: Curve, bound: nat, entry: Entry, i: nat, c: Received): Result<nat, AuditError>
    requires curve.q > 0
  {
    if entry.index >= |c.handles| then Err(IndexOutOfRange(i))
    else OrFailed(Decrypted(curve, bound, M(curve.q, entry.privateKey),
                            Ciphertext(c.commitment.element, c.handles[entry.index].element)))
  }

  // The first n limbs, or the error of the first limb that has one.
  ghost function RecoveredLimbs(curve: Curve, bound: nat, entry: Entry, cs: seq<Received>, n: nat)
    : (r: Result<seq<nat>, AuditError>)
    requires curve.q > 0 && n <= |cs|
    ensures r.Ok? ==> |r.value| == n
  {
    if n == 0 then Ok([])
    else
      var limbs :- RecoveredLimbs(curve, bound, entry, cs, n - 1);
      var limb :- RecoveredLimb(curve, bound, entry, n - 1, cs[n - 1]);
      Ok(limbs + [limb])
  }

  ghost function Recovered(curve: Curve, bound: nat, records: map<nat, Entry>, version: nat, cs: seq<Received>)
    : Result<nat, AuditError>
    requires curve.q > 0
  {
    if cs == [] then Err(NoAuditors)
    else if version !in records then Err(UnknownVersion)
    else if M(curve.q, records[version].privateKey) == 0 then Err(NoInverse)
    else
      var limbs :- RecoveredLimbs(curve, bound, records[version], cs, |cs|);
      Ok(LimbsToScalar(limbs, |limbs|))
  }

  // recoverPrivateKey.
  method RecoverPrivateKey(table: DiscreteLog.DiscreteLogTable, invert: nat -> nat, records: map<nat, Entry>,
                           version: nat, cs: seq<Received>)
    returns (r: Result<nat, AuditError>)
    requires table.Valid() && Inverts(table.curve.q, invert)
    modifies table`cache, table`order
    ensures table.Valid()
    ensures r == Recovered(table.curve, table.tableSize * table.tableSize, records, version, cs)
  {
    hide Prime, Inv, M, Decrypted, LimbsToScalar;
    if cs == [] {
      return Err(NoAuditors);
    }
    if version !in records {
      return Err(UnknownVersion);
    }
    var entry := records[version];
    var q := table.curve.q;
    var sk := M(q, entry.privateKey);
    if sk == 0 {
      return Err(NoInverse);
    }
    var inverse := invert(sk);
    ghost var curve, bound := table.curve, table.tableSize * table.tableSize;
    var limbs: seq<nat> := [];
    for i := 0 to |cs|
      invariant table.Valid()
      invariant RecoveredLimbs(curve, bound, entry, cs, i) == Ok(limbs)
    {
      if entry.index >= |cs[i].handles| {
        FirstError(curve, bound, entry, cs, i, |cs|);
        return Err(IndexOutOfRange(i));
      }
      var limb := DecryptWithInverse(cs[i].commitment, cs[i].handles[entry.index], sk, inverse, table);
      if limb.Err? {
        FirstError(curve, bound, entry, cs, i, |cs|);
        return Err(limb.error);
      }
      limbs := limbs + [limb.value];
    }
    return Ok(LimbsToScalar(limbs, |limbs|));
  }

  // An error at limb i is the error of the whole recovery.
  lemma {:induction false} FirstError(curve: Curve, bound: nat, entry: Entry, cs: seq<Received>, i: nat, n: nat)
    requires curve.q > 0 && i < n <= |cs|
    requires RecoveredLimbs(curve, bound, entry, cs, i).Ok? && RecoveredLimb(curve, bound, entry, i, cs[i]).Err?
    ensures RecoveredLimbs(curve, bound, entry, cs, n) == Err(RecoveredLimb(curve, bound, entry, i, cs[i]).error)
  {
    hide RecoveredLimb;
    if i < n - 1 {
      FirstError(curve, bound, entry, cs, i, n - 1);
    }
  }

  // ---------- Encrypting a private key to the auditors ----------

  // KeyEncryption.prove: the limbs of the key encrypted to every auditor, with the consistency
  // proof. masks and blindings are the random scalars; the range proof is not modelled.
  method Prove(curve: Curve, challenge: KeyChallenge, a: seq<nat>, b: seq<nat>, random: seq<nat>, sk: nat,
               pk: Element, auditors: seq<Element>)
    returns (cs: seq<MultiCiphertext>, proof: KeyProof)
    requires curve.q > 0 && |a| == |b| == |random| == 8
    ensures |cs| == 8
    ensures forall i | 0 <= i < 8 :: cs[i] == EncryptToAll(curve, auditors, ScalarToLimbs(sk)[i], random[i])
    ensures proof == ProveKey(curve, challenge, a, b, ScalarToLimbs(sk), random, KeyStatement(pk, auditors, cs))
  {
    hide EncryptToAll, ProveKey;
    var limbs := ScalarToLimbs(sk);
    var blindings: seq<nat> := [];
    cs := [];
    for i := 0 to |limbs|
      invariant |cs| == i && blindings == random[..i]
      invariant forall k | 0 <= k < i :: cs[k] == EncryptToAll(curve, auditors, limbs[k], random[k])
    {
      var r := random[i];
      blindings := blindings + [r];
      cs := cs + [EncryptToAll(curve, auditors, limbs[i], r)];
    }
    assert blindings == random;
    proof := ProveKey(curve, challenge, a, b, limbs, blindings, KeyStatement(pk, auditors, cs));
  }

  lemma KeyIsSum(curve: Curve, sk: nat)
    requires curve.q > 0 && sk < Pow32(8)
    ensures Same(curve.q, PublicKey(curve, sk), WeightedSum(ScalarToLimbs(sk), 8))
  {
    hide M, WeightedSum, Pow32, ScalarToLimbs;
    Nizk.LimbsRoundTrip(sk);
    SmallRemainder(sk, Pow32(8));
    SameM(curve.q, sk * 1);
  }

  lemma SmallRemainder(x: nat, p: nat)
    requires x < p
    ensures x % p == x
  {
  }

  // The proof is accepted for every private key of at most 256 bits, whatever the auditor list.
  lemma HonestProofAccepted(curve: Curve, challenge: KeyChallenge, a: seq<nat>, b: seq<nat>, random: seq<nat>,
                            sk: nat, auditors: seq<Element>, cs: seq<MultiCiphertext>)
    requires curve.q > 0 && |a| == |b| == |random| == |cs| == 8 && sk < Pow32(8)
    requires forall i | 0 <= i < 8 :: cs[i] == EncryptToAll(curve, auditors, ScalarToLimbs(sk)[i], random[i])
    ensures var s := KeyStatement(PublicKey(curve, sk), auditors, cs);
      var p := ProveKey(curve, challenge, a, b, ScalarToLimbs(sk), random, s);
      && Shaped(s, p.a1, p.a2) && |p.z1| == |p.z2| == |p.a2|
      && KeyAccepts(curve, challenge(s, p.a1, p.a2, p.a3), p, s)
  {
    hide M, EncryptToAll, ProveKey, WeightedSum, Pow32, KeyAccepts, ScalarToLimbs, PublicKey, Same;
    KeyIsSum(curve, sk);
    KeyCompleteness(curve, challenge, a, b, ScalarToLimbs(sk), random,
                    KeyStatement(PublicKey(curve, sk), auditors, cs));
  }

  // ---------- Recovery returns the key ----------

  // Any representatives of the group elements of an encryption.
  predicate Represents(c: Received, m: MultiCiphertext) {
    && c.commitment.element == m.commitment
    && |c.handles| == |m.handles|
    && forall j | 0 <= j < |c.handles| :: c.handles[j].element == m.handles[j]
  }

  lemma LimbRecovered(curve: Curve, bound: nat, entry: Entry, i: nat, c: Received, auditors: seq<Element>,
                      limb: nat, r: nat)
    requires curve.Valid() && bound <= curve.q && limb < TWO_32
    requires entry.index < |auditors| && M(curve.q, entry.privateKey) != 0
    requires auditors[entry.index] == PublicKey(curve, entry.privateKey)
    requires Represents(c, EncryptToAll(curve, auditors, limb, r))
    ensures RecoveredLimb(curve, bound, entry, i, c) == if limb < bound then Ok(limb) else Err(DecryptionFailed)
  {
    hide Prime, Decrypted, Encrypts;
    var q := curve.q;
    var sk := M(q, entry.privateKey);
    var e := Ciphertext(c.commitment.element, c.handles[entry.index].element);
    assert PublicKey(curve, sk) == PublicKey(curve, entry.privateKey) by {
      assert sk * 1 == sk && entry.privateKey * 1 == entry.privateKey;
      Idempotent(q, entry.privateKey);
    }
    hide M;
    EncryptEncrypts(curve, sk, limb, r);
    assert e == Encrypt(curve, PublicKey(curve, sk), limb, r);
    DecryptedIs(curve, bound, sk, e, limb);
  }

  lemma {:induction false} LimbsRecovered(curve: Curve, bound: nat, entry: Entry, cs: seq<Received>,
                                          auditors: seq<Element>, limbs: seq<nat>, random: seq<nat>, n: nat)
    requires curve.Valid() && bound <= curve.q && n <= |cs| == |limbs| == |random|
    requires entry.index < |auditors| && M(curve.q, entry.privateKey) != 0
    requires auditors[entry.index] == PublicKey(curve, entry.privateKey)
    requires forall i | 0 <= i < |cs| :: limbs[i] < TWO_32
    requires forall i | 0 <= i < |cs| :: Represents(cs[i], EncryptToAll(curve, auditors, limbs[i], random[i]))
    ensures RecoveredLimbs(curve, bound, entry, cs, n)
      == if (forall i | 0 <= i < n :: limbs[i] < bound) then Ok(limbs[..n]) else Err(DecryptionFailed)
  {
    hide RecoveredLimb, Represents, EncryptToAll, M, Prime, PublicKey;
    if n > 0 {
      LimbsRecovered(curve, bound, entry, cs, auditors, limbs, random, n - 1);
      LimbRecovered(curve, bound, entry, n - 1, cs[n - 1], auditors, limbs[n - 1], random[n - 1]);
      if forall i | 0 <= i < n - 1 :: limbs[i] < bound {
        assert limbs[..n] == limbs[..n - 1] + [limbs[n - 1]];
      }
    }
  }

  // For every private key, auditor list, blindings and auditor, recovery from the key's encrypted
  // limbs returns the low 256 bits of the key, and it fails exactly when some limb is not below
  // the square of the table size.
  lemma AuditorRecoversKey(curve: Curve, bound: nat, records: map<nat, Entry>, version: nat, cs: seq<Received>,
                           auditors: seq<Element>, sk: nat, random: seq<nat>)
    requires curve.Valid() && bound <= curve.q && |cs| == |random| == 8
    requires version in records && records[version].index < |auditors|
    requires M(curve.q, records[version].privateKey) != 0
    requires auditors[records[version].index] == PublicKey(curve, records[version].privateKey)
    requires forall i | 0 <= i < 8 ::
      Represents(cs[i], EncryptToAll(curve, auditors, ScalarToLimbs(sk)[i], random[i]))
    ensures Recovered(curve, bound, records, version, cs)
      == if (forall i | 0 <= i < 8 :: ScalarToLimbs(sk)[i] < bound) then Ok(sk % Pow32(8)) else Err(DecryptionFailed)
  {
    hide RecoveredLimbs, Represents, EncryptToAll, M, Prime, PublicKey, ScalarToLimbs, LimbsToScalar, Pow32;
    var limbs := ScalarToLimbs(sk);
    Nizk.LimbsRoundTrip(sk);
    LimbsRecovered(curve, bound, records[version], cs, auditors, limbs, random, 8);
    assert limbs[..8] == limbs;
  }

  // With a table of at least 2^16 baby steps every canonical key is recovered.
  lemma CanonicalKeyRecovered(curve: Curve, numBits: nat, records: map<nat, Entry>, version: nat, cs: seq<Received>,
                              auditors: seq<Element>, sk: nat, random: seq<nat>)
    requires curve.Valid() && 16 <= numBits <= 32 && sk < curve.q && |cs| == |random| == 8
    requires version in records && records[version].index < |auditors|
    requires M(curve.q, records[version].privateKey) != 0
    requires auditors[records[version].index] == PublicKey(curve, records[version].privateKey)
    requires forall i | 0 <= i < 8 ::
      Represents(cs[i], EncryptToAll(curve, auditors, ScalarToLimbs(sk)[i], random[i]))
    ensures Recovered(curve, DiscreteLog.Pow2(numBits) * DiscreteLog.Pow2(numBits), records, version, cs) == Ok(sk)
  {
    hide Recovered, Represents, EncryptToAll, M, Prime, PublicKey, ScalarToLimbs, Pow32, DiscreteLog.Pow2;
    var t := DiscreteLog.Pow2(numBits);
    DiscreteLog.TableSizeBound(numBits);
    BigTable(numBits);
    Nizk.LimbsRoundTrip(sk);
    Pow32Of8();
    SmallRemainder(sk, Pow32(8));
    AuditorRecoversKey(curve, t * t, records, version, cs, auditors, sk, random);
  }

  lemma BigTable(numBits: nat)
    requires numBits >= 16
    ensures DiscreteLog.Pow2(numBits) * DiscreteLog.Pow2(numBits) >= TWO_32
  {
    hide DiscreteLog.Pow2;
    Pow2Of16();
    DiscreteLog.Pow2Monotonic(16, numBits);
    DiscreteLog.ProductBound(TWO_16, DiscreteLog.Pow2(numBits));
    assert TWO_16 * TWO_16 == TWO_32;
  }

  lemma Pow2Of16()
    ensures DiscreteLog.Pow2(16) == TWO_16
  {
    assert DiscreteLog.Pow2(8) == 0x100;
  }
}
