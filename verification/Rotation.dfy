// Key rotation: re-keying a restated balance, alone and together with a batched transfer.

module Rotation {
  import opened Wrappers
  import opened Modular
  import opened Ristretto
  import opened ElGamal
  import opened Nizk
  import opened Auditor
  import opened Amounts
  import opened Transfer

  // The balance under the old key with fresh blindings, the same limbs under the new key, and the
  // two proofs.
  datatype KeyUpdate = KeyUpdate(restated: Amount, rekeyed: Amount, balanceProof: DdhProof, handleProof: DdhProof)

  // Each limb keeps its commitment; the handle becomes blinding * newPk.
  function Rekey(curve: Curve, newPk: Element, a: Amount, r: seq<nat>): Amount
    requires curve.q > 0 && |r| == 4
  {
    Amount(Ciphertext(a.l0.ciphertext, Mul(curve, newPk, r[0])), Ciphertext(a.l1.ciphertext, Mul(curve, newPk, r[1])),
           Ciphertext(a.l2.ciphertext, Mul(curve, newPk, r[2])), Ciphertext(a.l3.ciphertext, Mul(curve, newPk, r[3])))
  }

  // w * oldPk = newPk and w * oldHandle = newHandle.
  function HandleStatement(oldPk: Element, oldHandle: Element, newPk: Element, newHandle: Element): DdhStatement {
    DdhStatement(oldPk, oldHandle, newPk, newHandle)
  }

  // The restatement of value against the collapsed balance was, and its re-keying.
  function Restate(curve: Curve, challenge: Challenge, invert: nat -> nat, oldSk: nat, newSk: nat, value: nat,
                   was: Ciphertext, random: seq<nat>, mask1: nat, mask2: nat): KeyUpdate
    requires curve.q > 0 && |random| == 4
  {
    var oldPk, newPk := PublicKey(curve, oldSk), PublicKey(curve, newSk);
    var restated := EncryptLimbs(curve, oldPk, value, random);
    var c := Minus(curve, Collapse(curve, restated), was);
    var r := CollapseBlindings(curve, random);
    var w := M(curve.q, newSk * invert(oldSk));
    KeyUpdate(restated, Rekey(curve, newPk, restated, random),
              ProveDdh(curve, challenge, mask1, oldSk, ZeroStatement(oldPk, c)),
              ProveDdh(curve, challenge, mask2, w,
                       HandleStatement(oldPk, Mul(curve, oldPk, r), newPk, Mul(curve, newPk, r))))
  }

  // rotateKeyAndUnpauseAccount, up to the transaction it appends; the merge it emits depends on
  // pauseAndMerge only.
  function RotateKey(curve: Curve, challenge: Challenge, invert: nat -> nat, oldSk: nat, newSk: nat, b: TokenBalance,
                     pauseAndMerge: bool, acceptsDeposits: bool, random: seq<nat>, mask1: nat, mask2: nat)
    : Result<KeyUpdate, TransferError>
    requires curve.q > 0 && |random| == 4
  {
    if !pauseAndMerge && acceptsDeposits then Err(DepositsMustBePaused)
    else if HasPending(b) && !pauseAndMerge then Err(PendingDeposits)
    else
      Ok(Restate(curve, challenge, invert, oldSk, newSk, Spendable(b, HasPending(b)),
                 OldBalance(curve, b, HasPending(b)), random, mask1, mask2))
  }

  // Re-keying is encrypting the same limbs, with the same blindings, to the new key.
  lemma RekeyEncrypts(curve: Curve, oldPk: Element, newPk: Element, value: nat, r: seq<nat>)
    requires curve.q > 0 && |r| == 4
    ensures Rekey(curve, newPk, EncryptLimbs(curve, oldPk, value, r), r) == EncryptLimbs(curve, newPk, value, r)
  {
  }

  // The restated and the re-keyed balance have the same commitments and decrypt, each under its
  // own key, to the same value modulo 2^64.
  lemma RekeyPreservesBalance(curve: Curve, challenge: Challenge, invert: nat -> nat, bound: nat, oldSk: nat,
                              newSk: nat, value: nat, was: Ciphertext, random: seq<nat>, mask1: nat, mask2: nat)
    requires curve.Valid() && 0 < oldSk < curve.q && 0 < newSk < curve.q && |random| == 4
    requires TWO_16 <= bound <= TWO_64
    ensures var k := Restate(curve, challenge, invert, oldSk, newSk, value, was, random, mask1, mask2);
      && AmountValue(curve, bound, oldSk, k.restated) == Ok(value % TWO_64)
      && AmountValue(curve, bound, newSk, k.rekeyed) == Ok(value % TWO_64)
      && k.rekeyed.l0.ciphertext == k.restated.l0.ciphertext && k.rekeyed.l1.ciphertext == k.restated.l1.ciphertext
      && k.rekeyed.l2.ciphertext == k.restated.l2.ciphertext && k.rekeyed.l3.ciphertext == k.restated.l3.ciphertext
  {
    hide Prime, AmountValue, EncryptLimbs, PublicKey, ProveDdh, M;
    RekeyEncrypts(curve, PublicKey(curve, oldSk), PublicKey(curve, newSk), value, random);
    LimbsDecrypt(curve, bound, oldSk, value, random);
    LimbsDecrypt(curve, bound, newSk, value, random);
  }

  // w = newSk / oldSk takes the old key to the new one and the old handle to the new one.
  lemma WitnessHolds(curve: Curve, invert: nat -> nat, oldSk: nat, newSk: nat, r: nat)
    requires curve.Valid() && Inverts(curve.q, invert) && 0 < oldSk < curve.q
    ensures var oldPk, newPk := PublicKey(curve, oldSk), PublicKey(curve, newSk);
      DdhHolds(curve, M(curve.q, newSk * invert(oldSk)),
               HandleStatement(oldPk, Mul(curve, oldPk, r), newPk, Mul(curve, newPk, r)))
  {
    hide Prime, M, Inv;
    var q := curve.q;
    var k := invert(oldSk);
    var w, oldPk, newPk := M(q, newSk * k), PublicKey(curve, oldSk), PublicKey(curve, newSk);
    InverseSame(q, oldSk);
    SameM(q, oldSk * 1);
    SameM(q, newSk * 1);
    SameM(q, newSk * k);
    SameMul(q, w, newSk * k, oldPk, oldSk);
    SameMul(q, newSk, newSk, oldSk * k, 1);
    Rearrange(newSk, k, oldSk);
    assert Same(q, newPk, w * oldPk);
    SameM(q, r * newPk);
    SameM(q, r * oldPk);
    SameMul(q, r, r, newPk, w * oldPk);
    SameMul(q, w, w, M(q, r * oldPk), r * oldPk);
    Rearrange(r, w, oldPk);
  }

  lemma Rearrange(a: int, b: int, c: int)
    ensures (a * b) * c == a * (c * b)
    ensures a * (b * c) == b * (a * c)
  {
  }

  // The handle proof is accepted for the collapsed handles of the restated and the re-keyed
  // balance, for every pair of keys.
  lemma HandleProofAccepted(curve: Curve, challenge: Challenge, invert: nat -> nat, oldSk: nat, newSk: nat, value: nat,
                            was: Ciphertext, random: seq<nat>, mask1: nat, mask2: nat)
    requires curve.Valid() && Inverts(curve.q, invert) && 0 < oldSk < curve.q && |random| == 4
    ensures var k := Restate(curve, challenge, invert, oldSk, newSk, value, was, random, mask1, mask2);
      var s := HandleStatement(PublicKey(curve, oldSk), Collapse(curve, k.restated).handle,
                               PublicKey(curve, newSk), Collapse(curve, k.rekeyed).handle);
      VerifyDdh(curve, challenge, k.handleProof, s)
  {
    hide Prime, M, Collapse, EncryptLimbs, PublicKey, Commit, Mul, CollapseBlindings, VerifyDdh, DdhHolds, Rekey;
    var oldPk, newPk, r := PublicKey(curve, oldSk), PublicKey(curve, newSk), CollapseBlindings(curve, random);
    RekeyEncrypts(curve, oldPk, newPk, value, random);
    CollapseLimbs(curve, oldPk, value, random);
    CollapseLimbs(curve, newPk, value, random);
    WitnessHolds(curve, invert, oldSk, newSk, r);
    DdhCompleteness(curve, challenge, mask2, M(curve.q, newSk * invert(oldSk)),
                    HandleStatement(oldPk, Mul(curve, oldPk, r), newPk, Mul(curve, newPk, r)));
  }

  // The balance proof of a restatement of what was encrypts: accepted exactly when the value is
  // a u64 (or the challenge vanishes).
  lemma RestatementVerifies(curve: Curve, challenge: Challenge, invert: nat -> nat, oldSk: nat, newSk: nat, value: nat,
                            was: Ciphertext, random: seq<nat>, mask1: nat, mask2: nat)
    requires curve.Valid() && 0 < oldSk < curve.q && |random| == 4 && value < curve.q
    requires Encrypts(curve, oldSk, was, value)
    ensures var k := Restate(curve, challenge, invert, oldSk, newSk, value, was, random, mask1, mask2);
      var s := ZeroStatement(PublicKey(curve, oldSk), Minus(curve, Collapse(curve, k.restated), was));
      VerifyDdh(curve, challenge, k.balanceProof, s) <==> Excused(curve, challenge, s, k.balanceProof, value < TWO_64)
  {
    hide Prime, M, Collapse, EncryptLimbs, PublicKey, VerifyDdh, Encrypts, Minus, Rekey, CollapseBlindings, Excused,
      ProveDdh;
    var c := Collapse(curve, EncryptLimbs(curve, PublicKey(curve, oldSk), value, random));
    FreshEncrypts(curve, oldSk, value, random);
    MinusEncrypts(curve, oldSk, c, was, value % TWO_64, value);
    assert value % TWO_64 - value == 0 - Excess(value);
    ZeroProof(curve, challenge, mask1, oldSk, Minus(curve, c, was), Excess(value));
  }

  // A whole rotation: the error cases, what the balance becomes, and which proofs are accepted
  // against the balance the client read.
  lemma RotationPreservesBalance(curve: Curve, challenge: Challenge, invert: nat -> nat, bound: nat, oldSk: nat,
                                 newSk: nat, b: TokenBalance, pauseAndMerge: bool, accepts: bool, random: seq<nat>,
                                 mask1: nat, mask2: nat)
    requires curve.Valid() && Inverts(curve.q, invert) && 0 < oldSk < curve.q && 0 < newSk < curve.q
    requires |random| == 4 && bound <= TWO_64 && Reads(curve, bound, oldSk, b)
    ensures var r := RotateKey(curve, challenge, invert, oldSk, newSk, b, pauseAndMerge, accepts, random, mask1, mask2);
      && (r.Ok? <==> pauseAndMerge || !(accepts || HasPending(b)))
      && (r.Err? ==> r == Err(if accepts then DepositsMustBePaused else PendingDeposits))
      && (r.Ok? && bound >= TWO_16 ==>
          && AmountValue(curve, bound, newSk, r.value.rekeyed) == Ok(Total(b) % TWO_64)
          && AmountValue(curve, bound, oldSk, r.value.restated) == Ok(Total(b) % TWO_64))
      && (r.Ok? ==>
          VerifyDdh(curve, challenge, r.value.handleProof,
                    HandleStatement(PublicKey(curve, oldSk), Collapse(curve, r.value.restated).handle,
                                    PublicKey(curve, newSk), Collapse(curve, r.value.rekeyed).handle)))
      && (r.Ok? ==>
          var s := ZeroStatement(PublicKey(curve, oldSk),
                                 Minus(curve, Collapse(curve, r.value.restated), OldBalance(curve, b, HasPending(b))));
          VerifyDdh(curve, challenge, r.value.balanceProof, s)
          <==> Excused(curve, challenge, s, r.value.balanceProof, Total(b) < TWO_64))
  {
    hide Prime, Restate, AmountValue, Encrypts, VerifyDdh, Excused, Reads, PublicKey, Collapse, OldBalance, Minus,
      Inverts;
    var merged := HasPending(b);
    assert Spendable(b, merged) == Total(b);
    OldEncrypts(curve, bound, oldSk, b, merged);
    SpendableBound(curve, bound, oldSk, b, merged);
    if bound >= TWO_16 {
      RekeyPreservesBalance(curve, challenge, invert, bound, oldSk, newSk, Total(b), OldBalance(curve, b, merged),
                            random, mask1, mask2);
    }
    RestatementVerifies(curve, challenge, invert, oldSk, newSk, Total(b), OldBalance(curve, b, merged), random, mask1,
                        mask2);
    HandleProofAccepted(curve, challenge, invert, oldSk, newSk, Total(b), OldBalance(curve, b, merged), random, mask1,
                        mask2);
  }

  // ---------- The balance the chain compares with ----------

  // Group elements are residues.
  predicate Canonical(curve: Curve, c: Ciphertext) {
    c.ciphertext < curve.q && c.handle < curve.q
  }

  // With pauseAndMerge the chain merges every pending deposit before it checks the balance proof.
  // The old balance of the client's proof is that merged balance exactly when the client counted
  // the deposits or their collapsed ciphertext is trivial.
  lemma OldIsMergedIff(curve: Curve, b: TokenBalance)
    requires curve.q > 0
    ensures OldBalance(curve, b, HasPending(b)) == Merged(curve, b)
      <==> HasPending(b) || Collapse(curve, b.pending) == Ciphertext(0, 0)
  {
    if !HasPending(b) {
      CollapseCanonical(curve, b.active);
      CollapseCanonical(curve, b.pending);
      hide Collapse, M;
      var x, y := Collapse(curve, b.active), Collapse(curve, b.pending);
      TrivialZero(curve);
      PlusZero(curve.q, M(curve.q, x.ciphertext + y.ciphertext));
      PlusZero(curve.q, M(curve.q, x.handle + y.handle));
      AddsNothing(curve.q, x.ciphertext, y.ciphertext);
      AddsNothing(curve.q, x.handle, y.handle);
    }
  }

  lemma CollapseCanonical(curve: Curve, a: Amount)
    requires curve.q > 0
    ensures Canonical(curve, Collapse(curve, a))
  {
    hide ElGamal.Shift;
  }

  lemma TrivialZero(curve: Curve)
    requires curve.q > 0
    ensures Trivial(curve, 0) == Ciphertext(0, 0)
  {
    Modular.Canonical(curve.q, 0);
  }

  lemma PlusZero(q: nat, x: nat)
    requires x < q
    ensures M(q, x + 0) == x
  {
    Modular.Canonical(q, x);
  }

  lemma AddsNothing(q: nat, x: nat, y: nat)
    requires x < q && y < q
    ensures M(q, x + y) == x <==> y == 0
  {
    hide M;
    Modular.Canonical(q, x);
    Modular.Canonical(q, y);
    Modular.Canonical(q, 0);
    if M(q, x + y) == x {
      SameSub(q, x + y, x, x, x);
    }
  }

  // A ciphertext of zero whose commitment is zero is trivial.
  lemma TrivialIff(curve: Curve, sk: nat, c: Ciphertext)
    requires curve.q > 0 && Canonical(curve, c) && Encrypts(curve, sk, c, 0)
    ensures Same(curve.q, c.ciphertext, 0) <==> c == Ciphertext(0, 0)
  {
    hide M;
    assert sk * (c.ciphertext - 0 * curve.h) == sk * c.ciphertext;
    Modular.Canonical(curve.q, c.ciphertext);
    Modular.Canonical(curve.q, c.handle);
    Modular.Canonical(curve.q, 0);
    assert sk * 0 == 0;
  }

  // The client's statement and the chain's have the same base exactly when the pending
  // commitment is zero.
  lemma MergedBase(curve: Curve, c: Ciphertext, x: Ciphertext, y: Ciphertext)
    requires curve.q > 0
    ensures Same(curve.q, Minus(curve, c, x).ciphertext,
                 Minus(curve, c, Plus(curve, Plus(curve, x, y), Trivial(curve, 0))).ciphertext)
      <==> Same(curve.q, y.ciphertext, 0)
  {
    hide M;
    var q := curve.q;
    TrivialZero(curve);
    var xy := M(q, x.ciphertext + y.ciphertext);
    SameM(q, x.ciphertext + y.ciphertext);
    SameM(q, xy + 0);
    var w := M(q, xy + 0);
    SameM(q, c.ciphertext - x.ciphertext);
    SameM(q, c.ciphertext - w);
    Reflexive(q, c.ciphertext);
    SameSub(q, c.ciphertext, c.ciphertext, w, x.ciphertext + y.ciphertext);
    DifferenceZero(q, c.ciphertext - x.ciphertext, c.ciphertext - (x.ciphertext + y.ciphertext));
    DifferenceZero(q, y.ciphertext, 0);
  }

  // What a rotation that merges proves, and what the chain checks.
  function ClientStatement(curve: Curve, sk: nat, b: TokenBalance, k: KeyUpdate): DdhStatement
    requires curve.q > 0
  {
    ZeroStatement(PublicKey(curve, sk), Minus(curve, Collapse(curve, k.restated), OldBalance(curve, b, HasPending(b))))
  }

  function ChainStatement(curve: Curve, sk: nat, b: TokenBalance, k: KeyUpdate): DdhStatement
    requires curve.q > 0
  {
    ZeroStatement(PublicKey(curve, sk), Minus(curve, Collapse(curve, k.restated), Merged(curve, b)))
  }

  // The balance proof of a merging rotation is accepted against the merged balance exactly when
  // the deposits were counted, or the pending ciphertext is trivial, or, by accident, the mask is
  // zero and both challenges agree.
  lemma MergedProofAccepted(curve: Curve, challenge: Challenge, invert: nat -> nat, bound: nat, oldSk: nat, newSk: nat,
                            b: TokenBalance, accepts: bool, random: seq<nat>, mask1: nat, mask2: nat)
    requires curve.Valid() && 0 < oldSk < curve.q && |random| == 4
    requires bound <= TWO_64 && Reads(curve, bound, oldSk, b) && Total(b) < TWO_64
    ensures var r := RotateKey(curve, challenge, invert, oldSk, newSk, b, true, accepts, random, mask1, mask2);
      && r.Ok?
      && var s, u, p := ClientStatement(curve, oldSk, b, r.value), ChainStatement(curve, oldSk, b, r.value),
           r.value.balanceProof;
         VerifyDdh(curve, challenge, p, u)
         <==> HasPending(b) || Collapse(curve, b.pending) == Ciphertext(0, 0)
              || (Same(curve.q, mask1, 0)
                  && Same(curve.q, DdhChallenge(challenge, s, p.a, p.b), DdhChallenge(challenge, u, p.a, p.b)))
  {
    hide *;
    var k := RotatedMaterial(curve, challenge, invert, oldSk, newSk, b, accepts, random, mask1, mask2);
    var s, u := ClientStatement(curve, oldSk, b, k), ChainStatement(curve, oldSk, b, k);
    ChainStatementHolds(curve, bound, oldSk, b, k, random);
    StatementBases(curve, oldSk, b, k);
    NotZero(curve.q, oldSk);
    TransplantedProof(curve, challenge, mask1, oldSk, s, u);
    OldIsMergedIff(curve, b);
    ReflexiveChallenge(curve, challenge, s, k.balanceProof);
    if !HasPending(b) {
      PendingBase(curve, bound, oldSk, b, k);
    }
  }

  lemma ReflexiveChallenge(curve: Curve, challenge: Challenge, s: DdhStatement, p: DdhProof)
    requires curve.Valid()
    ensures curve.q > 1
    ensures Same(curve.q, DdhChallenge(challenge, s, p.a, p.b), DdhChallenge(challenge, s, p.a, p.b))
    ensures Same(curve.q, s.h, s.h)
  {
  }

  lemma RotatedMaterial(curve: Curve, challenge: Challenge, invert: nat -> nat, oldSk: nat, newSk: nat, b: TokenBalance,
                        accepts: bool, random: seq<nat>, mask1: nat, mask2: nat) returns (k: KeyUpdate)
    requires curve.q > 0 && |random| == 4
    ensures RotateKey(curve, challenge, invert, oldSk, newSk, b, true, accepts, random, mask1, mask2) == Ok(k)
    ensures k.restated == EncryptLimbs(curve, PublicKey(curve, oldSk), Total(b), random)
    ensures k.balanceProof == ProveDdh(curve, challenge, mask1, oldSk, ClientStatement(curve, oldSk, b, k))
  {
    hide M, Collapse, OldBalance, Minus, EncryptLimbs, Rekey, CollapseBlindings, ProveDdh, ZeroStatement, Mul;
    assert Spendable(b, HasPending(b)) == Total(b);
    k := RotateKey(curve, challenge, invert, oldSk, newSk, b, true, accepts, random, mask1, mask2).value;
  }

  lemma NotZero(q: nat, x: nat)
    requires 0 < x < q
    ensures !Same(q, x, 0) && (q > 1 ==> !Same(q, 1, 0))
  {
    Modular.Canonical(q, x);
    Modular.Canonical(q, 0);
    Modular.Canonical(q, 1);
  }

  lemma StatementBases(curve: Curve, sk: nat, b: TokenBalance, k: KeyUpdate)
    requires curve.q > 0
    ensures var s, u := ClientStatement(curve, sk, b, k), ChainStatement(curve, sk, b, k);
      && s.g == u.g == 1 && s.xG == u.xG
      && (OldBalance(curve, b, HasPending(b)) == Merged(curve, b) ==> s == u)
  {
    hide M, Collapse, Minus, Merged, OldBalance;
  }

  lemma ChainStatementHolds(curve: Curve, bound: nat, sk: nat, b: TokenBalance, k: KeyUpdate, random: seq<nat>)
    requires curve.Valid() && |random| == 4 && Reads(curve, bound, sk, b) && Total(b) < TWO_64
    requires k.restated == EncryptLimbs(curve, PublicKey(curve, sk), Total(b), random)
    ensures DdhHolds(curve, sk, ChainStatement(curve, sk, b, k))
  {
    hide Prime, M, Collapse, Minus, Merged, Encrypts, EncryptLimbs, PublicKey, Reads, DdhHolds;
    OldEncrypts(curve, bound, sk, b, true);
    FreshEncrypts(curve, sk, Total(b), random);
    var c := Collapse(curve, k.restated);
    MinusEncrypts(curve, sk, c, Merged(curve, b), Total(b), Total(b));
    assert (Total(b) as int) - Total(b) == 0;
    ZeroIff(curve, sk, Minus(curve, c, Merged(curve, b)));
  }

  lemma PendingBase(curve: Curve, bound: nat, sk: nat, b: TokenBalance, k: KeyUpdate)
    requires curve.Valid() && Reads(curve, bound, sk, b) && !HasPending(b)
    ensures Same(curve.q, ClientStatement(curve, sk, b, k).h, ChainStatement(curve, sk, b, k).h)
      <==> Collapse(curve, b.pending) == Ciphertext(0, 0)
  {
    hide Prime, M, Collapse, Encrypts, PublicKey, AmountValue;
    DecryptedCollapses(curve, bound, sk, b.pending);
    CollapseCanonical(curve, b.pending);
    TrivialIff(curve, sk, Collapse(curve, b.pending));
    hide Minus, Plus, Trivial;
    MergedBase(curve, Collapse(curve, k.restated), Collapse(curve, b.active), Collapse(curve, b.pending));
  }

  // A pending balance can hold zero and still be non-trivial: limbs of zero with blinding 1.
  lemma ZeroPendingNotMerged(curve: Curve, bound: nat, sk: nat, active: Amount)
    requires curve.Valid() && 0 < sk < curve.q && TWO_16 <= bound <= TWO_64 && AmountValue(curve, bound, sk, active).Ok?
    ensures var pending := EncryptLimbs(curve, PublicKey(curve, sk), 0, [1, 0, 0, 0]);
      var b := TokenBalance(active, AmountValue(curve, bound, sk, active).value, pending, 0, 0);
      && Reads(curve, bound, sk, b) && !HasPending(b)
      && OldBalance(curve, b, HasPending(b)) != Merged(curve, b)
  {
    hide Prime, AmountValue, PublicKey, Merged, OldBalance, Collapse, EncryptLimbs;
    var pending := EncryptLimbs(curve, PublicKey(curve, sk), 0, [1, 0, 0, 0]);
    var b := TokenBalance(active, AmountValue(curve, bound, sk, active).value, pending, 0, 0);
    LimbsDecrypt(curve, bound, sk, 0, [1, 0, 0, 0]);
    UnitBlinding(curve, PublicKey(curve, sk));
    OldIsMergedIff(curve, b);
  }

  lemma UnitBlinding(curve: Curve, pk: Element)
    requires curve.Valid()
    ensures Collapse(curve, EncryptLimbs(curve, pk, 0, [1, 0, 0, 0])).ciphertext == 1
  {
    hide Prime, M, Encrypt, Collapse, EncryptLimbs, CollapseBlindings;
    var q := curve.q;
    var r := [1, 0, 0, 0];
    CollapseLimbs(curve, pk, 0, r);
    CollapseBlindingsIs(curve, r);
    Reflexive(q, 0);
    EncryptSame(curve, pk, 0, 0, 1, CollapseBlindings(curve, r));
    EncryptExact(curve, pk, 0, 1);
    assert 0 * curve.h == 0;
    Modular.Canonical(q, 1);
  }

  // ---------- Rotation together with a transfer ----------

  datatype RotatedBatch = RotatedBatch(prepared: seq<Prepared>, totalSender: Ciphertext, consistencyProof: ElGamalProof,
                                       newBalance: Amount, transferProof: DdhProof, keyUpdate: KeyUpdate)

  datatype KeyRandomness = KeyRandomness(limbs: seq<nat>, mask1: nat, mask2: nat)

  // rotateKeyAndTransferBatch, up to the transaction it appends: the whole balance is merged, the
  // transfer debits it, and what is left is restated and re-keyed.
  function RotateAndTransfer(curve: Curve, elgamal: Challenge, ddh: Challenge, invert: nat -> nat, sender: nat,
                             oldSk: nat, newSk: nat, b: TokenBalance, recipients: seq<Recipient>, random: Randomness,
                             keyRandom: KeyRandomness): Result<RotatedBatch, TransferError>
    requires curve.q > 0 && Enough(random, |recipients|) && |keyRandom.limbs| == 4
  {
    var amount := TotalAmount(recipients, |recipients|);
    if Rejection(sender, recipients).Some? then Err(Rejection(sender, recipients).value)
    else if amount > Total(b) then Err(InsufficientBalance(amount, Total(b), true))
    else
      var oldPk := PublicKey(curve, oldSk);
      var prepared := PrepareAll(curve, oldPk, recipients, random.limbs);
      var total :- TotalSender(curve, elgamal, oldPk, recipients, random);
      var newBalance := EncryptLimbs(curve, oldPk, Total(b) - amount, random.balance);
      var c := Change(curve, newBalance, Merged(curve, b), total.0);
      var keyUpdate := Restate(curve, ddh, invert, oldSk, newSk, Total(b) - amount, Collapse(curve, newBalance),
                               keyRandom.limbs, keyRandom.mask1, keyRandom.mask2);
      Ok(RotatedBatch(prepared, total.0, total.1, newBalance,
                      ProveDdh(curve, ddh, random.mask, oldSk, ZeroStatement(oldPk, c)), keyUpdate))
  }

  lemma RotatedParts(curve: Curve, elgamal: Challenge, ddh: Challenge, invert: nat -> nat, sender: nat, oldSk: nat,
                     newSk: nat, b: TokenBalance, recipients: seq<Recipient>, random: Randomness,
                     keyRandom: KeyRandomness)
    requires curve.q > 0 && Enough(random, |recipients|) && |keyRandom.limbs| == 4
    requires RotateAndTransfer(curve, elgamal, ddh, invert, sender, oldSk, newSk, b, recipients, random, keyRandom).Ok?
    ensures var t := RotateAndTransfer(curve, elgamal, ddh, invert, sender, oldSk, newSk, b, recipients, random,
                                       keyRandom).value;
      var amount := TotalAmount(recipients, |recipients|);
      var pk := PublicKey(curve, oldSk);
      && amount <= Total(b)
      && t.prepared == PrepareAll(curve, pk, recipients, random.limbs)
      && TotalSender(curve, elgamal, pk, recipients, random) == Ok((t.totalSender, t.consistencyProof))
      && t.newBalance == EncryptLimbs(curve, pk, Total(b) - amount, random.balance)
      && t.transferProof == ProveDdh(curve, ddh, random.mask, oldSk,
           ZeroStatement(pk, Change(curve, t.newBalance, Merged(curve, b), t.totalSender)))
      && t.keyUpdate == Restate(curve, ddh, invert, oldSk, newSk, Total(b) - amount, Collapse(curve, t.newBalance),
           keyRandom.limbs, keyRandom.mask1, keyRandom.mask2)
  {
    hide PrepareAll, EncryptLimbs, TotalAmount, ProveDdh, Change, PublicKey, Restate, Merged, Collapse, Rejection,
      TotalSender;
  }

  // A rotation with a transfer of a balance that was read is refused exactly like a transfer of
  // the whole merged balance.
  lemma RotateAndTransferSucceedsIff(curve: Curve, elgamal: Challenge, ddh: Challenge, invert: nat -> nat, bound: nat,
                                     sender: nat, oldSk: nat, newSk: nat, b: TokenBalance, recipients: seq<Recipient>,
                                     random: Randomness, keyRandom: KeyRandomness)
    requires curve.Valid() && bound <= TWO_64 && Reads(curve, bound, oldSk, b)
    requires Enough(random, |recipients|) && |keyRandom.limbs| == 4
    ensures var r := RotateAndTransfer(curve, elgamal, ddh, invert, sender, oldSk, newSk, b, recipients, random,
                                       keyRandom);
      var amount := TotalAmount(recipients, |recipients|);
      && (r.Ok? <==>
          && 1 <= |recipients| <= 7
          && (forall i | 0 <= i < |recipients| ::
              recipients[i].address != sender && recipients[i].acceptsDeposits && !recipients[i].isFrozen)
          && amount <= Total(b))
      && (Rejection(sender, recipients).Some? ==> r == Err(Rejection(sender, recipients).value))
      && (Rejection(sender, recipients).None? && amount > Total(b) ==>
          r == Err(InsufficientBalance(amount, Total(b), true)))
  {
    hide Prime, Reads, AmountValue, PrepareAll, EncryptLimbs, Encrypt, TotalAmount, TotalBlinding, ProveElGamal,
      ProveDdh, Change, PublicKey, Rejection, Restate, Merged, Collapse, Curve.Valid;
    SpendableBound(curve, bound, oldSk, b, true);
    RejectionIff(sender, recipients);
  }

  // It delivers every amount under the old key, as a transfer does.
  lemma RotatedDelivers(curve: Curve, elgamal: Challenge, ddh: Challenge, invert: nat -> nat, bound: nat, sender: nat,
                        oldSk: nat, newSk: nat, b: TokenBalance, recipients: seq<Recipient>, random: Randomness,
                        keyRandom: KeyRandomness, keys: seq<nat>)
    requires curve.Valid() && 0 < oldSk < curve.q && TWO_16 <= bound <= curve.q
    requires Enough(random, |recipients|) && |keyRandom.limbs| == 4 && KeysOf(curve, keys, recipients)
    requires RotateAndTransfer(curve, elgamal, ddh, invert, sender, oldSk, newSk, b, recipients, random, keyRandom).Ok?
    ensures var t := RotateAndTransfer(curve, elgamal, ddh, invert, sender, oldSk, newSk, b, recipients, random,
                                       keyRandom).value;
      Delivers(curve, bound, oldSk, recipients, keys, t.prepared, t.totalSender)
  {
    hide Prime, RotateAndTransfer, PrepareAll, TotalSender, PublicKey, Delivers, Curve.Valid, KeysOf, Restate, Change,
      Merged, Collapse, EncryptLimbs, ProveDdh;
    RotatedParts(curve, elgamal, ddh, invert, sender, oldSk, newSk, b, recipients, random, keyRandom);
    PreparedDelivers(curve, elgamal, bound, oldSk, recipients, random, keys);
  }

  // What the receivers decrypt from the batch and the balance under the new key add up to the
  // merged balance, exactly when every amount and the remainder are u64s.
  lemma RotatedValueConserved(curve: Curve, elgamal: Challenge, ddh: Challenge, invert: nat -> nat, bound: nat,
                              sender: nat, oldSk: nat, newSk: nat, b: TokenBalance, recipients: seq<Recipient>,
                              random: Randomness, keyRandom: KeyRandomness, keys: seq<nat>)
    requires curve.Valid() && 0 < oldSk < curve.q && 0 < newSk < curve.q && TWO_16 <= bound <= TWO_64
    requires Enough(random, |recipients|) && |keyRandom.limbs| == 4 && KeysOf(curve, keys, recipients)
    requires RotateAndTransfer(curve, elgamal, ddh, invert, sender, oldSk, newSk, b, recipients, random, keyRandom).Ok?
    ensures var t := RotateAndTransfer(curve, elgamal, ddh, invert, sender, oldSk, newSk, b, recipients, random,
                                       keyRandom).value;
      var kept, n := AmountValue(curve, bound, newSk, t.keyUpdate.rekeyed), |recipients|;
      && |t.prepared| == n && kept.Ok?
      && (DecryptedTotal(curve, bound, keys, t.prepared, n) + kept.value == Total(b)
          <==> AllU64(recipients, n) && Total(b) - TotalAmount(recipients, n) < TWO_64)
  {
    hide Prime, RotateAndTransfer, Restate, AmountValue, AllU64, TotalAmount, ReceivedTotal, PublicKey, TotalSender,
      EncryptLimbs, Merged, Collapse, Change, ProveDdh, DecryptedTotal, SumCommitments, SumSender, PrepareAll;
    RotatedParts(curve, elgamal, ddh, invert, sender, oldSk, newSk, b, recipients, random, keyRandom);
    RotatedDelivers(curve, elgamal, ddh, invert, bound, sender, oldSk, newSk, b, recipients, random, keyRandom, keys);
    var t := RotateAndTransfer(curve, elgamal, ddh, invert, sender, oldSk, newSk, b, recipients, random,
                               keyRandom).value;
    DeliveredTotal(curve, bound, keys, t.prepared, recipients, |recipients|);
    var left := Total(b) - TotalAmount(recipients, |recipients|);
    RekeyPreservesBalance(curve, ddh, invert, bound, oldSk, newSk, left, Collapse(curve, t.newBalance), keyRandom.limbs,
                          keyRandom.mask1, keyRandom.mask2);
    ReceivedIff(recipients, |recipients|);
    var e := Excess(left);
  }

  // The restatement after a transfer compares limbs of one value, so its proof is always accepted;
  // the transfer's own proof is accepted exactly when the remainder is a u64.
  lemma RotatedProofs(curve: Curve, elgamal: Challenge, ddh: Challenge, invert: nat -> nat, bound: nat, sender: nat,
                      oldSk: nat, newSk: nat, b: TokenBalance, recipients: seq<Recipient>, random: Randomness,
                      keyRandom: KeyRandomness)
    requires curve.Valid() && Inverts(curve.q, invert) && 0 < oldSk < curve.q && bound <= TWO_64
    requires Enough(random, |recipients|) && |keyRandom.limbs| == 4 && Reads(curve, bound, oldSk, b)
    requires RotateAndTransfer(curve, elgamal, ddh, invert, sender, oldSk, newSk, b, recipients, random, keyRandom).Ok?
    ensures var t := RotateAndTransfer(curve, elgamal, ddh, invert, sender, oldSk, newSk, b, recipients, random,
                                       keyRandom).value;
      var pk := PublicKey(curve, oldSk);
      var s := ZeroStatement(pk, Change(curve, t.newBalance, Merged(curve, b), t.totalSender));
      && (VerifyDdh(curve, ddh, t.transferProof, s)
          <==> Excused(curve, ddh, s, t.transferProof, Total(b) - TotalAmount(recipients, |recipients|) < TWO_64))
      && ElGamalAccepts(curve, ElGamalChallenge(elgamal, curve, t.totalSender, pk, t.consistencyProof.a,
                                                t.consistencyProof.b), t.consistencyProof, t.totalSender, pk)
      && VerifyDdh(curve, ddh, t.keyUpdate.balanceProof,
           ZeroStatement(pk, Minus(curve, Collapse(curve, t.keyUpdate.restated), Collapse(curve, t.newBalance))))
      && VerifyDdh(curve, ddh, t.keyUpdate.handleProof,
           HandleStatement(pk, Collapse(curve, t.keyUpdate.restated).handle,
                           PublicKey(curve, newSk), Collapse(curve, t.keyUpdate.rekeyed).handle))
  {
    hide Prime, RotateAndTransfer, AmountValue, TotalAmount, PublicKey, TotalSender, EncryptLimbs, Merged, Collapse,
      Change, ProveDdh, Reads, Encrypts, VerifyDdh, Excused, Minus, Restate, Inverts, ElGamalAccepts;
    RotatedParts(curve, elgamal, ddh, invert, sender, oldSk, newSk, b, recipients, random, keyRandom);
    var t := RotateAndTransfer(curve, elgamal, ddh, invert, sender, oldSk, newSk, b, recipients, random,
                               keyRandom).value;
    var amount := TotalAmount(recipients, |recipients|);
    OldEncrypts(curve, bound, oldSk, b, true);
    SpendableBound(curve, bound, oldSk, b, true);
    TotalEncrypts(curve, elgamal, oldSk, recipients, random);
    TotalAccepted(curve, elgamal, oldSk, recipients, random);
    ChangeEncrypts(curve, oldSk, Merged(curve, b), t.totalSender, Total(b), amount, random.balance);
    ZeroProof(curve, ddh, random.mask, oldSk, Change(curve, t.newBalance, Merged(curve, b), t.totalSender),
              Excess(Total(b) - amount));
    RestatementOfLimbs(curve, ddh, invert, oldSk, newSk, Total(b) - amount, random.balance, keyRandom.limbs,
                       keyRandom.mask1, keyRandom.mask2);
    HandleProofAccepted(curve, ddh, invert, oldSk, newSk, Total(b) - amount, Collapse(curve, t.newBalance),
                        keyRandom.limbs, keyRandom.mask1, keyRandom.mask2);
  }

  // Restating limbs of a value by other limbs of the same value always changes nothing.
  lemma RestatementOfLimbs(curve: Curve, challenge: Challenge, invert: nat -> nat, oldSk: nat, newSk: nat, value: nat,
                           r: seq<nat>, random: seq<nat>, mask1: nat, mask2: nat)
    requires curve.Valid() && 0 < oldSk < curve.q && |r| == |random| == 4
    ensures var was := Collapse(curve, EncryptLimbs(curve, PublicKey(curve, oldSk), value, r));
      var k := Restate(curve, challenge, invert, oldSk, newSk, value, was, random, mask1, mask2);
      VerifyDdh(curve, challenge, k.balanceProof,
                ZeroStatement(PublicKey(curve, oldSk), Minus(curve, Collapse(curve, k.restated), was)))
  {
    hide Prime, M, Collapse, EncryptLimbs, PublicKey, VerifyDdh, Encrypts, Minus, Rekey, CollapseBlindings, Excused,
      ProveDdh;
    var pk := PublicKey(curve, oldSk);
    var was := Collapse(curve, EncryptLimbs(curve, pk, value, r));
    var c := Collapse(curve, EncryptLimbs(curve, pk, value, random));
    FreshEncrypts(curve, oldSk, value, r);
    FreshEncrypts(curve, oldSk, value, random);
    MinusEncrypts(curve, oldSk, c, was, value % TWO_64, value % TWO_64);
    ZeroProof(curve, challenge, mask1, oldSk, Minus(curve, c, was), 0);
    IsExcused(curve, challenge, ZeroStatement(pk, Minus(curve, c, was)),
              ProveDdh(curve, challenge, mask1, oldSk, ZeroStatement(pk, Minus(curve, c, was))));
  }

  lemma IsExcused(curve: Curve, challenge: Challenge, s: DdhStatement, p: DdhProof)
    requires curve.q > 0
    ensures Excused(curve, challenge, s, p, true)
  {
  }
}
