// Confidential transfers and key rotation: the encrypted amounts and proofs the client builds,
// and the conservation laws they obey.

module Transfer {
  import opened Wrappers
  import opened Modular
  import opened Ristretto
  import opened ElGamal
  import opened Nizk
  import opened Auditor
  import opened Amounts
  import DiscreteLog

  const MAX_BATCH_RECIPIENTS := 7

  datatype TransferError =
    | InvalidBatchSize
    | TransferToSelf
    | ReceiversRefuse(addresses: seq<nat>)
    | InvalidScalar
    | InsufficientBalance(requested: nat, available: nat, merged: bool)
    | DepositsMustBePaused
    | PendingDeposits

  // The result of getBalance: each encrypted amount with its decryption, and the public deposits.
  datatype TokenBalance = TokenBalance(active: Amount, activeAmount: nat, pending: Amount, pendingAmount: nat,
                                       pendingPublic: nat)

  ghost predicate Reads(curve: Curve, bound: nat, sk: nat, b: TokenBalance)
    requires curve.q > 0
  {
    && AmountValue(curve, bound, sk, b.active) == Ok(b.activeAmount)
    && AmountValue(curve, bound, sk, b.pending) == Ok(b.pendingAmount)
    && b.pendingPublic < TWO_64
  }

  // getBalance on a fetched account.
  method GetBalance(table: DiscreteLog.DiscreteLogTable, invert: nat -> nat, sk: nat, active: seq<LimbPoints>,
                    pending: seq<LimbPoints>, pendingPublic: nat)
    returns (r: Result<TokenBalance, AuditError>)
    requires table.Valid() && Inverts(table.curve.q, invert) && 0 < sk < table.curve.q
    requires |active| == |pending| == 4 && pendingPublic < TWO_64
    modifies table`cache, table`order
    ensures table.Valid()
    ensures var bound := table.tableSize * table.tableSize;
      r.Ok? <==> (AmountValue(table.curve, bound, sk, AmountOf(active)).Ok?
                  && AmountValue(table.curve, bound, sk, AmountOf(pending)).Ok?)
    ensures r.Ok? ==> Reads(table.curve, table.tableSize * table.tableSize, sk, r.value)
    ensures r.Ok? ==> r.value.active == AmountOf(active) && r.value.pending == AmountOf(pending)
    ensures r.Ok? ==> r.value.pendingPublic == pendingPublic
  {
    hide Prime, Inv, AmountValue, AmountOf;
    var inverse := invert(sk);
    var activeAmount :- DecryptAmount(active, sk, inverse, table);
    var pendingAmount :- DecryptAmount(pending, sk, inverse, table);
    return Ok(TokenBalance(AmountOf(active), activeAmount, AmountOf(pending), pendingAmount, pendingPublic));
  }

  // ---------- The balance update ----------

  predicate HasPending(b: TokenBalance) {
    b.pendingAmount > 0 || b.pendingPublic > 0
  }

  function Total(b: TokenBalance): nat {
    b.activeAmount + b.pendingAmount + b.pendingPublic
  }

  // The active balance after the chain has merged every pending deposit.
  function Merged(curve: Curve, b: TokenBalance): Ciphertext
    requires curve.q > 0
  {
    Plus(curve, Plus(curve, Collapse(curve, b.active), Collapse(curve, b.pending)), Trivial(curve, b.pendingPublic))
  }

  function Spendable(b: TokenBalance, merged: bool): nat {
    if merged then Total(b) else b.activeAmount
  }

  function OldBalance(curve: Curve, b: TokenBalance, merged: bool): Ciphertext
    requires curve.q > 0
  {
    if merged then Merged(curve, b) else Collapse(curve, b.active)
  }

  // proveIsZero's statement: handle = sk * commitment and pk = sk * G.
  function ZeroStatement(pk: Element, c: Ciphertext): DdhStatement {
    DdhStatement(1, c.ciphertext, pk, c.handle)
  }

  // new - old + diff.
  function Change(curve: Curve, newBalance: Amount, was: Ciphertext, diff: Ciphertext): Ciphertext
    requires curve.q > 0
  {
    Plus(curve, Minus(curve, Collapse(curve, newBalance), was), diff)
  }

  datatype BalanceUpdate = BalanceUpdate(shouldMerge: bool, newBalance: Amount, balanceProof: DdhProof)

  // #createBalanceUpdate; random blinds the new limbs and mask is the proof's random scalar.
  function CreateBalanceUpdate(curve: Curve, challenge: Challenge, sk: nat, b: TokenBalance, amount: nat, merge: bool,
                               diff: Ciphertext, random: seq<nat>, mask: nat): Result<BalanceUpdate, TransferError>
    requires curve.q > 0 && |random| == 4
  {
    var shouldMerge := merge && HasPending(b);
    var spendable := Spendable(b, shouldMerge);
    if amount > spendable then Err(InsufficientBalance(amount, spendable, shouldMerge))
    else
      var pk := PublicKey(curve, sk);
      var newBalance := EncryptLimbs(curve, pk, spendable - amount, random);
      var c := Change(curve, newBalance, OldBalance(curve, b, shouldMerge), diff);
      Ok(BalanceUpdate(shouldMerge, newBalance, ProveDdh(curve, challenge, mask, sk, ZeroStatement(pk, c))))
  }

  // The zero statement is what encrypting zero means.
  lemma ZeroIff(curve: Curve, sk: nat, c: Ciphertext)
    requires curve.q > 0
    ensures DdhHolds(curve, sk, ZeroStatement(PublicKey(curve, sk), c)) <==> Encrypts(curve, sk, c, 0)
  {
    hide M;
    SameM(curve.q, sk * 1);
    assert sk * (c.ciphertext - 0 * curve.h) == sk * c.ciphertext;
  }

  // A ciphertext that encrypts -excess encrypts zero exactly when excess is zero.
  lemma ExcessIff(curve: Curve, sk: nat, c: Ciphertext, excess: nat)
    requires curve.Valid() && 0 < sk < curve.q && excess < curve.q && Encrypts(curve, sk, c, 0 - excess)
    ensures Encrypts(curve, sk, c, 0) <==> excess == 0
  {
    hide Prime, M, Encrypts;
    if Encrypts(curve, sk, c, 0) {
      EncryptsUnique(curve, sk, c, 0, 0 - excess);
      SameSub(curve.q, 0, 0 - excess, 0 - excess, 0 - excess);
      SmallSame(curve.q, excess, 0);
    }
  }

  // proveDecryption's statement: handle = sk * (commitment - value * H).
  function DecryptionStatement(curve: Curve, pk: Element, c: Ciphertext, value: nat): DdhStatement
    requires curve.q > 0
  {
    DdhStatement(1, M(curve.q, c.ciphertext - Mul(curve, curve.h, value)), pk, c.handle)
  }

  lemma DecryptionIff(curve: Curve, sk: nat, c: Ciphertext, value: nat)
    requires curve.q > 0
    ensures DdhHolds(curve, sk, DecryptionStatement(curve, PublicKey(curve, sk), c, value))
      <==> Encrypts(curve, sk, c, value)
  {
    hide M;
    var q, v := curve.q, value * curve.h;
    SameM(q, sk * 1);
    SameM(q, v);
    SameM(q, c.ciphertext - M(q, v));
    SameSub(q, c.ciphertext, c.ciphertext, M(q, v), v);
    SameMul(q, sk, sk, M(q, c.ciphertext - M(q, v)), c.ciphertext - v);
  }

  // An honest decryption proof is accepted exactly when the ciphertext encrypts the claimed value
  // (or the challenge vanishes).
  lemma DecryptionProof(curve: Curve, challenge: Challenge, mask: nat, sk: nat, c: Ciphertext, value: nat)
    requires curve.Valid()
    ensures var s := DecryptionStatement(curve, PublicKey(curve, sk), c, value);
      var p := ProveDdh(curve, challenge, mask, sk, s);
      VerifyDdh(curve, challenge, p, s) <==> Excused(curve, challenge, s, p, Encrypts(curve, sk, c, value))
  {
    hide Prime, Encrypts, VerifyDdh, DdhHolds, Same, DdhChallenge;
    DecryptionIff(curve, sk, c, value);
    DdhCompleteness(curve, challenge, mask, sk, DecryptionStatement(curve, PublicKey(curve, sk), c, value));
  }

  // Both forms of the old balance encrypt what the client can spend.
  lemma OldEncrypts(curve: Curve, bound: nat, sk: nat, b: TokenBalance, merged: bool)
    requires curve.q > 0 && Reads(curve, bound, sk, b)
    ensures Encrypts(curve, sk, OldBalance(curve, b, merged), Spendable(b, merged))
  {
    hide AmountValue, Encrypts, Plus, Trivial, Collapse;
    DecryptedCollapses(curve, bound, sk, b.active);
    DecryptedCollapses(curve, bound, sk, b.pending);
    TrivialEncrypts(curve, sk, b.pendingPublic);
    var x, y := Collapse(curve, b.active), Collapse(curve, b.pending);
    PlusEncrypts(curve, sk, x, y, b.activeAmount, b.pendingAmount);
    PlusEncrypts(curve, sk, Plus(curve, x, y), Trivial(curve, b.pendingPublic),
                 b.activeAmount + b.pendingAmount, b.pendingPublic);
  }

  lemma SpendableBound(curve: Curve, bound: nat, sk: nat, b: TokenBalance, merged: bool)
    requires curve.Valid() && bound <= TWO_64 && Reads(curve, bound, sk, b)
    ensures Spendable(b, merged) < curve.q
  {
    hide AmountValue, Prime;
    AmountBound(curve, bound, sk, b.active);
    AmountBound(curve, bound, sk, b.pending);
  }

  // What is lost when a value is cut to four limbs.
  function Excess(value: nat): (e: nat)
    ensures e <= value && value - e == value % TWO_64
    ensures e == 0 <==> value < TWO_64
  {
    value - value % TWO_64
  }

  lemma FreshEncrypts(curve: Curve, sk: nat, value: nat, r: seq<nat>)
    requires curve.q > 0 && |r| == 4
    ensures Encrypts(curve, sk, Collapse(curve, EncryptLimbs(curve, PublicKey(curve, sk), value, r)), value % TWO_64)
  {
    hide Encrypts, Collapse, EncryptLimbs, Encrypt, CollapseBlindings;
    CollapseLimbs(curve, PublicKey(curve, sk), value, r);
    EncryptEncrypts(curve, sk, value % TWO_64, CollapseBlindings(curve, r));
  }

  // new - old + diff encrypts minus the value the limbs of the new balance lost.
  lemma ChangeEncrypts(curve: Curve, sk: nat, was: Ciphertext, diff: Ciphertext, spendable: nat, amount: nat,
                       r: seq<nat>)
    requires curve.q > 0 && |r| == 4 && amount <= spendable
    requires Encrypts(curve, sk, was, spendable) && Encrypts(curve, sk, diff, amount)
    ensures var newBalance := EncryptLimbs(curve, PublicKey(curve, sk), spendable - amount, r);
      Encrypts(curve, sk, Change(curve, newBalance, was, diff), 0 - Excess(spendable - amount))
  {
    hide Encrypts, Collapse, EncryptLimbs, Plus, Minus, Excess;
    var c := Collapse(curve, EncryptLimbs(curve, PublicKey(curve, sk), spendable - amount, r));
    FreshEncrypts(curve, sk, spendable - amount, r);
    var v := (spendable - amount) % TWO_64;
    MinusEncrypts(curve, sk, c, was, v, spendable);
    PlusEncrypts(curve, sk, Minus(curve, c, was), diff, v - spendable, amount);
    assert v - spendable + amount == 0 - Excess(spendable - amount);
  }

  // A statement that holds, or a vanishing challenge that excuses a false one.
  ghost predicate Excused(curve: Curve, challenge: Challenge, s: DdhStatement, p: DdhProof, holds: bool)
    requires curve.q > 0
  {
    holds || Same(curve.q, DdhChallenge(challenge, s, p.a, p.b), 0)
  }

  // Acceptance of a zero proof for a ciphertext that encrypts -excess.
  lemma ZeroProof(curve: Curve, challenge: Challenge, mask: nat, sk: nat, c: Ciphertext, excess: nat)
    requires curve.Valid() && 0 < sk < curve.q && excess < curve.q && Encrypts(curve, sk, c, 0 - excess)
    ensures var s := ZeroStatement(PublicKey(curve, sk), c);
      var p := ProveDdh(curve, challenge, mask, sk, s);
      VerifyDdh(curve, challenge, p, s) <==> Excused(curve, challenge, s, p, excess == 0)
  {
    hide Prime, Encrypts, VerifyDdh, DdhHolds, Same, DdhChallenge;
    ExcessIff(curve, sk, c, excess);
    ZeroIff(curve, sk, c);
    DdhCompleteness(curve, challenge, mask, sk, ZeroStatement(PublicKey(curve, sk), c));
  }

  // The balance proof is accepted against the balance the chain holds exactly when what remains
  // is a u64 (or the challenge vanishes), and with a table for all limbs the owner decrypts the new
  // balance to what remains, modulo 2^64.
  lemma UpdateVerifies(curve: Curve, challenge: Challenge, bound: nat, sk: nat, b: TokenBalance, amount: nat,
                       merge: bool, diff: Ciphertext, random: seq<nat>, mask: nat)
    requires curve.Valid() && 0 < sk < curve.q && |random| == 4 && bound <= TWO_64
    requires Reads(curve, bound, sk, b) && Encrypts(curve, sk, diff, amount)
    requires amount <= Spendable(b, merge && HasPending(b))
    ensures var spendable := Spendable(b, merge && HasPending(b));
      var r := CreateBalanceUpdate(curve, challenge, sk, b, amount, merge, diff, random, mask);
      && r.Ok? && r.value.shouldMerge == (merge && HasPending(b))
      && (bound >= TWO_16 ==> AmountValue(curve, bound, sk, r.value.newBalance) == Ok((spendable - amount) % TWO_64))
      && var s := ZeroStatement(PublicKey(curve, sk),
           Change(curve, r.value.newBalance, OldBalance(curve, b, r.value.shouldMerge), diff));
         VerifyDdh(curve, challenge, r.value.balanceProof, s)
         <==> Excused(curve, challenge, s, r.value.balanceProof, spendable - amount < TWO_64)
  {
    hide Prime, Encrypts, VerifyDdh, DdhHolds, Excused, AmountValue, Change, OldBalance, EncryptLimbs, Reads,
      PublicKey, ProveDdh;
    var merged := merge && HasPending(b);
    var spendable := Spendable(b, merged);
    var was := OldBalance(curve, b, merged);
    OldEncrypts(curve, bound, sk, b, merged);
    SpendableBound(curve, bound, sk, b, merged);
    ChangeEncrypts(curve, sk, was, diff, spendable, amount, random);
    if bound >= TWO_16 {
      LimbsDecrypt(curve, bound, sk, spendable - amount, random);
    }
    ZeroProof(curve, challenge, mask, sk,
              Change(curve, EncryptLimbs(curve, PublicKey(curve, sk), spendable - amount, random), was, diff),
              Excess(spendable - amount));
  }

  // ---------- Batched transfers ----------

  datatype Recipient = Recipient(address: nat, pk: Element, acceptsDeposits: bool, isFrozen: bool, amount: nat)

  // One amount under the receiver's key, and re-keyed to the sender.
  datatype Prepared = Prepared(receiver: Amount, sender: Amount)

  // The random scalars: limb blindings of each amount, of the new balance, and proof masks.
  datatype Randomness = Randomness(limbs: seq<seq<nat>>, balance: seq<nat>, r1: nat, r2: nat, mask: nat)

  ghost predicate Enough(random: Randomness, n: nat) {
    && |random.limbs| == n && |random.balance| == 4
    && forall i | 0 <= i < n :: |random.limbs[i]| == 4
  }

  datatype Batch = Batch(prepared: seq<Prepared>, totalSender: Ciphertext, consistencyProof: ElGamalProof,
                         update: BalanceUpdate)

  function Refusing(recipients: seq<Recipient>): (r: seq<nat>)
    ensures forall a ::
      a in r <==> exists i :: 0 <= i < |recipients| && recipients[i].address == a && Refuses(recipients[i])
  {
    if recipients == [] then []
    else
      var rest := Refusing(recipients[..|recipients| - 1]);
      var last := recipients[|recipients| - 1];
      if Refuses(last) then rest + [last.address] else rest
  }

  predicate Refuses(r: Recipient) {
    !r.acceptsDeposits || r.isFrozen
  }

  lemma {:induction false} NoneRefuses(recipients: seq<Recipient>)
    ensures Refusing(recipients) == [] <==> forall i | 0 <= i < |recipients| :: !Refuses(recipients[i])
  {
    if recipients != [] {
      NoneRefuses(recipients[..|recipients| - 1]);
    }
  }

  function Prepare(curve: Curve, senderPk: Element, recipient: Recipient, r: seq<nat>): Prepared
    requires curve.q > 0 && |r| == 4
  {
    Prepared(EncryptLimbs(curve, recipient.pk, recipient.amount, r), EncryptLimbs(curve, senderPk, recipient.amount, r))
  }

  function PrepareAll(curve: Curve, senderPk: Element, recipients: seq<Recipient>,
                      limbs: seq<seq<nat>>): (p: seq<Prepared>)
    requires curve.q > 0 && |limbs| == |recipients| && forall i | 0 <= i < |limbs| :: |limbs[i]| == 4
    ensures |p| == |recipients|
    ensures forall i | 0 <= i < |p| :: p[i] == Prepare(curve, senderPk, recipients[i], limbs[i])
  {
    seq(|recipients|, i requires 0 <= i < |recipients| => Prepare(curve, senderPk, recipients[i], limbs[i]))
  }

  function TotalAmount(recipients: seq<Recipient>, n: nat): nat
    requires n <= |recipients|
  {
    if n == 0 then 0 else TotalAmount(recipients, n - 1) + recipients[n - 1].amount
  }

  // addScalars over the collapsed blindings.
  function TotalBlinding(curve: Curve, limbs: seq<seq<nat>>, n: nat): nat
    requires curve.q > 0 && n <= |limbs| && forall i | 0 <= i < |limbs| :: |limbs[i]| == 4
  {
    if n == 0 then 0 else M(curve.q, TotalBlinding(curve, limbs, n - 1) + CollapseBlindings(curve, limbs[n - 1]))
  }

  // The checks before anything is encrypted.
  function Rejection(sender: nat, recipients: seq<Recipient>): Option<TransferError> {
    if |recipients| == 0 || |recipients| > MAX_BATCH_RECIPIENTS then Some(InvalidBatchSize)
    else if exists i :: 0 <= i < |recipients| && recipients[i].address == sender then Some(TransferToSelf)
    else if Refusing(recipients) != [] then Some(ReceiversRefuse(Refusing(recipients)))
    else None
  }

  // The total under the sender's key and its consistency proof; multiplying a point by a scalar
  // outside the field throws.
  function TotalSender(curve: Curve, challenge: Challenge, pk: Element, recipients: seq<Recipient>, random: Randomness)
    : Result<(Ciphertext, ElGamalProof), TransferError>
    requires curve.q > 0 && Enough(random, |recipients|)
  {
    var n := |recipients|;
    var amount, blinding := TotalAmount(recipients, n), TotalBlinding(curve, random.limbs, n);
    if amount >= curve.q then Err(InvalidScalar)
    else
      var e := Encrypt(curve, pk, amount, blinding);
      Ok((e, ProveElGamal(curve, challenge, random.r1, random.r2, blinding, amount, e, pk)))
  }

  // transferBatch, up to the transaction it appends.
  function TransferBatch(curve: Curve, elgamal: Challenge, ddh: Challenge, sender: nat, sk: nat, b: TokenBalance,
                         recipients: seq<Recipient>, merge: bool, random: Randomness): Result<Batch, TransferError>
    requires curve.q > 0 && Enough(random, |recipients|)
  {
    if Rejection(sender, recipients).Some? then Err(Rejection(sender, recipients).value)
    else
      var pk := PublicKey(curve, sk);
      var prepared := PrepareAll(curve, pk, recipients, random.limbs);
      var total :- TotalSender(curve, elgamal, pk, recipients, random);
      var update :- CreateBalanceUpdate(curve, ddh, sk, b, TotalAmount(recipients, |recipients|), merge, total.0,
                                        random.balance, random.mask);
      Ok(Batch(prepared, total.0, total.1, update))
  }

  // The checks pass exactly for one to seven recipients, none of them the sender and all accepting
  // deposits and not frozen; otherwise the first of these in this order is reported.
  lemma RejectionIff(sender: nat, recipients: seq<Recipient>)
    ensures Rejection(sender, recipients).None?
      <==> && 1 <= |recipients| <= 7
           && forall i | 0 <= i < |recipients| ::
             recipients[i].address != sender && recipients[i].acceptsDeposits && !recipients[i].isFrozen
    ensures Rejection(sender, recipients) == Some(InvalidBatchSize) <==> !(1 <= |recipients| <= 7)
    ensures Rejection(sender, recipients) == Some(TransferToSelf)
      <==> 1 <= |recipients| <= 7 && exists i :: 0 <= i < |recipients| && recipients[i].address == sender
    ensures Rejection(sender, recipients).Some? && Rejection(sender, recipients).value.ReceiversRefuse? ==>
      forall a :: a in Rejection(sender, recipients).value.addresses
        <==> exists i | 0 <= i < |recipients| ::
          recipients[i].address == a && !(recipients[i].acceptsDeposits && !recipients[i].isFrozen)
  {
    hide Refusing;
    NoneRefuses(recipients);
  }

  // A transfer of a balance that was read is refused exactly for too many or no recipients, a
  // recipient who is the sender, refuses deposits or is frozen, or more than can be spent, which
  // is reported with the amounts.
  lemma TransferSucceedsIff(curve: Curve, elgamal: Challenge, ddh: Challenge, bound: nat, sender: nat, sk: nat,
                            b: TokenBalance, recipients: seq<Recipient>, merge: bool, random: Randomness)
    requires curve.Valid() && bound <= TWO_64 && Reads(curve, bound, sk, b) && Enough(random, |recipients|)
    ensures TransferBatch(curve, elgamal, ddh, sender, sk, b, recipients, merge, random).Ok?
      <==> && 1 <= |recipients| <= 7
           && (forall i | 0 <= i < |recipients| ::
               recipients[i].address != sender && recipients[i].acceptsDeposits && !recipients[i].isFrozen)
           && TotalAmount(recipients, |recipients|) <= Spendable(b, merge && HasPending(b))
    ensures Rejection(sender, recipients).Some? ==>
      TransferBatch(curve, elgamal, ddh, sender, sk, b, recipients, merge, random)
        == Err(Rejection(sender, recipients).value)
    ensures Rejection(sender, recipients).None? ==>
      var amount, merged := TotalAmount(recipients, |recipients|), merge && HasPending(b);
      Spendable(b, merged) < amount ==>
        TransferBatch(curve, elgamal, ddh, sender, sk, b, recipients, merge, random)
          == Err(if amount < curve.q then InsufficientBalance(amount, Spendable(b, merged), merged) else InvalidScalar)
  {
    hide Prime, Reads, AmountValue, PrepareAll, EncryptLimbs, Encrypt, TotalAmount, TotalBlinding, ProveElGamal,
      ProveDdh, Change, PublicKey, Refusing, Refuses, Curve.Valid, Rejection;
    SpendableBound(curve, bound, sk, b, merge && HasPending(b));
    RejectionIff(sender, recipients);
  }

  // ---------- Conservation ----------

  // The chain's sums over the batch: of the receivers' commitments, and of the sender's copies.
  function SumCommitments(curve: Curve, p: seq<Prepared>, n: nat): Element
    requires curve.q > 0 && n <= |p|
  {
    if n == 0 then 0 else M(curve.q, SumCommitments(curve, p, n - 1) + Collapse(curve, p[n - 1].receiver).ciphertext)
  }

  function SumSender(curve: Curve, p: seq<Prepared>, n: nat): Ciphertext
    requires curve.q > 0 && n <= |p|
  {
    if n == 0 then Ciphertext(0, 0) else Plus(curve, SumSender(curve, p, n - 1), Collapse(curve, p[n - 1].sender))
  }

  // What the receivers can decrypt, in total.
  function ReceivedTotal(recipients: seq<Recipient>, n: nat): nat
    requires n <= |recipients|
  {
    if n == 0 then 0 else ReceivedTotal(recipients, n - 1) + recipients[n - 1].amount % TWO_64
  }

  predicate AllU64(recipients: seq<Recipient>, n: nat)
    requires n <= |recipients|
  {
    forall i | 0 <= i < n :: recipients[i].amount < TWO_64
  }

  lemma {:induction false} ReceivedIff(recipients: seq<Recipient>, n: nat)
    requires n <= |recipients|
    ensures ReceivedTotal(recipients, n) <= TotalAmount(recipients, n)
    ensures ReceivedTotal(recipients, n) == TotalAmount(recipients, n) <==> AllU64(recipients, n)
  {
    if n > 0 {
      ReceivedIff(recipients, n - 1);
      var e := Excess(recipients[n - 1].amount);
    }
  }

  // A commitment does not depend on the key.
  lemma SameCommitment(curve: Curve, pk: Element, recipient: Recipient, r: seq<nat>)
    requires curve.q > 0 && |r| == 4
    ensures var p := Prepare(curve, pk, recipient, r);
      && Collapse(curve, p.receiver).ciphertext == Collapse(curve, p.sender).ciphertext
      && Collapse(curve, p.sender) == Encrypt(curve, pk, recipient.amount % TWO_64, CollapseBlindings(curve, r))
  {
    hide Collapse, EncryptLimbs, Commit, CollapseBlindings;
    CollapseLimbs(curve, pk, recipient.amount, r);
    CollapseLimbs(curve, recipient.pk, recipient.amount, r);
  }

  lemma EncryptZero(curve: Curve, pk: Element)
    requires curve.q > 0
    ensures Encrypt(curve, pk, 0, 0) == Ciphertext(0, 0)
  {
    hide M, Encrypt;
    EncryptExact(curve, pk, 0, 0);
    Canonical(curve.q, 0);
    assert 0 * curve.h == 0 && 0 * pk == 0;
  }

  lemma {:induction false} SumIs(curve: Curve, pk: Element, recipients: seq<Recipient>, limbs: seq<seq<nat>>, n: nat)
    requires curve.q > 0 && n <= |recipients| == |limbs| && forall i | 0 <= i < |limbs| :: |limbs[i]| == 4
    ensures var p := PrepareAll(curve, pk, recipients, limbs);
      && SumSender(curve, p, n) == Encrypt(curve, pk, ReceivedTotal(recipients, n), TotalBlinding(curve, limbs, n))
      && SumCommitments(curve, p, n) == SumSender(curve, p, n).ciphertext
  {
    hide M, Encrypt, Collapse, CollapseBlindings, Prepare, PrepareAll;
    if n == 0 {
      EncryptZero(curve, pk);
    } else {
      var i, q := n - 1, curve.q;
      SumIs(curve, pk, recipients, limbs, i);
      SameCommitment(curve, pk, recipients[i], limbs[i]);
      var v, w := ReceivedTotal(recipients, i), recipients[i].amount % TWO_64;
      var r, t := TotalBlinding(curve, limbs, i), CollapseBlindings(curve, limbs[i]);
      PlusEncrypt(curve, pk, v, w, r, t);
      Idempotent(q, r + t);
      Reflexive(q, v + w);
      EncryptSame(curve, pk, v + w, v + w, r + t, M(q, r + t));
    }
  }

  // Commitments with one blinding are equal only for congruent values.
  lemma CommitInjective(curve: Curve, v: nat, w: nat, r: nat)
    requires curve.Valid() && v < curve.q && w < curve.q && Commit(curve, v, r) == Commit(curve, w, r)
    ensures v == w
  {
    hide Prime, M, Commit;
    var q, h := curve.q, curve.h;
    CommitIs(curve, v, r);
    CommitIs(curve, w, r);
    SameSub(q, v * h + r, w * h + r, r, r);
    Cancel(q, v, w, h);
    SmallSame(q, v, w);
  }

  // The commitment of the sender's total is the sum of the receivers' commitments, and the total
  // is the sum of the sender's copies, exactly when every amount is a u64.
  lemma CommitmentsConserved(curve: Curve, elgamal: Challenge, sk: nat, recipients: seq<Recipient>, random: Randomness)
    requires curve.Valid() && Enough(random, |recipients|)
    requires TotalSender(curve, elgamal, PublicKey(curve, sk), recipients, random).Ok?
    ensures var pk := PublicKey(curve, sk);
      var total := TotalSender(curve, elgamal, pk, recipients, random).value.0;
      var p := PrepareAll(curve, pk, recipients, random.limbs);
      && (total.ciphertext == SumCommitments(curve, p, |p|) <==> AllU64(recipients, |p|))
      && (total == SumSender(curve, p, |p|) <==> AllU64(recipients, |p|))
  {
    hide Prime, Commit, SumCommitments, SumSender, TotalAmount, ReceivedTotal, TotalBlinding, PrepareAll, AllU64,
      ProveElGamal, PublicKey;
    var n := |recipients|;
    SumIs(curve, PublicKey(curve, sk), recipients, random.limbs, n);
    ReceivedIff(recipients, n);
    var v, w, r := TotalAmount(recipients, n), ReceivedTotal(recipients, n), TotalBlinding(curve, random.limbs, n);
    if Commit(curve, v, r) == Commit(curve, w, r) {
      CommitInjective(curve, v, w, r);
    }
  }

  // Receiver i decrypts its amount modulo 2^64.
  lemma ReceiverDecrypts(curve: Curve, bound: nat, pk: Element, recipient: Recipient, r: seq<nat>, receiverSk: nat)
    requires curve.Valid() && 0 < receiverSk < curve.q && TWO_16 <= bound <= curve.q && |r| == 4
    requires recipient.pk == PublicKey(curve, receiverSk)
    ensures AmountValue(curve, bound, receiverSk, Prepare(curve, pk, recipient, r).receiver)
         == Ok(recipient.amount % TWO_64)
  {
    hide Prime, AmountValue, EncryptLimbs, PublicKey;
    LimbsDecrypt(curve, bound, receiverSk, recipient.amount, r);
  }

  // The recipients' private keys.
  ghost predicate KeysOf(curve: Curve, keys: seq<nat>, recipients: seq<Recipient>)
    requires curve.q > 0
  {
    && |keys| == |recipients|
    && forall i | 0 <= i < |keys| :: 0 < keys[i] < curve.q && recipients[i].pk == PublicKey(curve, keys[i])
  }

  // What the recipients decrypt from a batch with their keys, in total; nothing for an amount that
  // does not decrypt.
  ghost function DecryptedTotal(curve: Curve, bound: nat, keys: seq<nat>, prepared: seq<Prepared>, n: nat): nat
    requires curve.q > 0 && n <= |keys| && n <= |prepared|
  {
    if n == 0 then 0
    else
      var value := AmountValue(curve, bound, keys[n - 1], prepared[n - 1].receiver);
      DecryptedTotal(curve, bound, keys, prepared, n - 1) + if value.Ok? then value.value else 0
  }

  // What a batch holds: for every recipient its amount modulo 2^64, once under the recipient's key
  // and once under the sender's, and a total whose commitment is the sum of theirs exactly when
  // every amount is a u64.
  ghost predicate Delivers(curve: Curve, bound: nat, sk: nat, recipients: seq<Recipient>, keys: seq<nat>,
                           prepared: seq<Prepared>, total: Ciphertext)
    requires curve.q > 0 && KeysOf(curve, keys, recipients)
  {
    var n := |recipients|;
    && |prepared| == n
    && (forall i | 0 <= i < n ::
        && AmountValue(curve, bound, keys[i], prepared[i].receiver) == Ok(recipients[i].amount % TWO_64)
        && AmountValue(curve, bound, sk, prepared[i].sender) == Ok(recipients[i].amount % TWO_64))
    && (total.ciphertext == SumCommitments(curve, prepared, n) <==> AllU64(recipients, n))
    && (total == SumSender(curve, prepared, n) <==> AllU64(recipients, n))
  }

  lemma PreparedDelivers(curve: Curve, elgamal: Challenge, bound: nat, sk: nat, recipients: seq<Recipient>,
                         random: Randomness, keys: seq<nat>)
    requires curve.Valid() && 0 < sk < curve.q && TWO_16 <= bound <= curve.q && Enough(random, |recipients|)
    requires KeysOf(curve, keys, recipients)
    requires TotalSender(curve, elgamal, PublicKey(curve, sk), recipients, random).Ok?
    ensures Delivers(curve, bound, sk, recipients, keys,
                     PrepareAll(curve, PublicKey(curve, sk), recipients, random.limbs),
                     TotalSender(curve, elgamal, PublicKey(curve, sk), recipients, random).value.0)
  {
    hide Prime, AmountValue, PublicKey, TotalSender, SumCommitments, SumSender, AllU64, Prepare, Curve.Valid;
    var pk := PublicKey(curve, sk);
    CommitmentsConserved(curve, elgamal, sk, recipients, random);
    var p := PrepareAll(curve, pk, recipients, random.limbs);
    hide PrepareAll;
    forall i | 0 <= i < |recipients|
      ensures AmountValue(curve, bound, keys[i], p[i].receiver) == Ok(recipients[i].amount % TWO_64)
      ensures AmountValue(curve, bound, sk, p[i].sender) == Ok(recipients[i].amount % TWO_64)
    {
      ReceiverDecrypts(curve, bound, pk, recipients[i], random.limbs[i], keys[i]);
      SenderDecrypts(curve, bound, sk, recipients[i], random.limbs[i]);
    }
  }

  lemma SenderDecrypts(curve: Curve, bound: nat, sk: nat, recipient: Recipient, r: seq<nat>)
    requires curve.Valid() && 0 < sk < curve.q && TWO_16 <= bound <= curve.q && |r| == 4
    ensures AmountValue(curve, bound, sk, Prepare(curve, PublicKey(curve, sk), recipient, r).sender)
         == Ok(recipient.amount % TWO_64)
  {
    hide Prime, AmountValue, EncryptLimbs, PublicKey;
    LimbsDecrypt(curve, bound, sk, recipient.amount, r);
  }

  lemma {:induction false} DeliveredTotal(curve: Curve, bound: nat, keys: seq<nat>, prepared: seq<Prepared>,
                                          recipients: seq<Recipient>, n: nat)
    requires curve.q > 0 && n <= |recipients| == |keys| == |prepared|
    requires forall i | 0 <= i < n ::
      AmountValue(curve, bound, keys[i], prepared[i].receiver) == Ok(recipients[i].amount % TWO_64)
    ensures DecryptedTotal(curve, bound, keys, prepared, n) == ReceivedTotal(recipients, n)
  {
    hide AmountValue;
    if n > 0 {
      DeliveredTotal(curve, bound, keys, prepared, recipients, n - 1);
    }
  }

  lemma BatchParts(curve: Curve, elgamal: Challenge, ddh: Challenge, sender: nat, sk: nat, b: TokenBalance,
                   recipients: seq<Recipient>, merge: bool, random: Randomness)
    requires curve.q > 0 && Enough(random, |recipients|)
    requires TransferBatch(curve, elgamal, ddh, sender, sk, b, recipients, merge, random).Ok?
    ensures var t := TransferBatch(curve, elgamal, ddh, sender, sk, b, recipients, merge, random).value;
      && TotalAmount(recipients, |recipients|) < curve.q
      && TotalAmount(recipients, |recipients|) <= Spendable(b, merge && HasPending(b))
      && t.prepared == PrepareAll(curve, PublicKey(curve, sk), recipients, random.limbs)
      && TotalSender(curve, elgamal, PublicKey(curve, sk), recipients, random)
           == Ok((t.totalSender, t.consistencyProof))
      && CreateBalanceUpdate(curve, ddh, sk, b, TotalAmount(recipients, |recipients|), merge, t.totalSender,
                             random.balance, random.mask) == Ok(t.update)
  {
    hide Prepare, PrepareAll, EncryptLimbs, Encrypt, TotalAmount, TotalBlinding, ProveElGamal, ProveDdh, Change,
      PublicKey;
  }

  // A transfer delivers every amount.
  lemma TransferDelivers(curve: Curve, elgamal: Challenge, ddh: Challenge, bound: nat, sender: nat, sk: nat,
                         b: TokenBalance, recipients: seq<Recipient>, merge: bool, random: Randomness, keys: seq<nat>)
    requires curve.Valid() && 0 < sk < curve.q && TWO_16 <= bound <= curve.q && Enough(random, |recipients|)
    requires KeysOf(curve, keys, recipients)
    requires TransferBatch(curve, elgamal, ddh, sender, sk, b, recipients, merge, random).Ok?
    ensures var t := TransferBatch(curve, elgamal, ddh, sender, sk, b, recipients, merge, random).value;
      Delivers(curve, bound, sk, recipients, keys, t.prepared, t.totalSender)
  {
    hide Prime, TransferBatch, PrepareAll, TotalSender, PublicKey, Delivers, CreateBalanceUpdate, Curve.Valid, KeysOf;
    BatchParts(curve, elgamal, ddh, sender, sk, b, recipients, merge, random);
    PreparedDelivers(curve, elgamal, bound, sk, recipients, random, keys);
  }

  // What the receivers decrypt from the batch plus what the sender can decrypt afterwards is what
  // the sender could spend, exactly when every amount and the remainder are u64s.
  lemma ValueConserved(curve: Curve, elgamal: Challenge, ddh: Challenge, bound: nat, sender: nat, sk: nat,
                       b: TokenBalance, recipients: seq<Recipient>, merge: bool, random: Randomness, keys: seq<nat>)
    requires curve.Valid() && 0 < sk < curve.q && TWO_16 <= bound <= TWO_64 && Enough(random, |recipients|)
    requires Reads(curve, bound, sk, b) && KeysOf(curve, keys, recipients)
    requires TransferBatch(curve, elgamal, ddh, sender, sk, b, recipients, merge, random).Ok?
    ensures var t := TransferBatch(curve, elgamal, ddh, sender, sk, b, recipients, merge, random).value;
      var spendable, n := Spendable(b, t.update.shouldMerge), |recipients|;
      var kept := AmountValue(curve, bound, sk, t.update.newBalance);
      && |t.prepared| == n && kept.Ok?
      && (DecryptedTotal(curve, bound, keys, t.prepared, n) + kept.value == spendable
          <==> AllU64(recipients, n) && spendable - TotalAmount(recipients, n) < TWO_64)
  {
    hide Prime, TransferBatch, PrepareAll, TotalSender, CreateBalanceUpdate, AmountValue, Reads, Encrypts, VerifyDdh,
      AllU64, TotalAmount, ReceivedTotal, PublicKey, DecryptedTotal, SumCommitments, SumSender;
    BatchParts(curve, elgamal, ddh, sender, sk, b, recipients, merge, random);
    var t := TransferBatch(curve, elgamal, ddh, sender, sk, b, recipients, merge, random).value;
    TotalEncrypts(curve, elgamal, sk, recipients, random);
    var n := |recipients|;
    TransferDelivers(curve, elgamal, ddh, bound, sender, sk, b, recipients, merge, random, keys);
    DeliveredTotal(curve, bound, keys, t.prepared, recipients, n);
    UpdateVerifies(curve, ddh, bound, sk, b, TotalAmount(recipients, n), merge, t.totalSender, random.balance,
                   random.mask);
    ReceivedIff(recipients, n);
    var e := Excess(Spendable(b, t.update.shouldMerge) - TotalAmount(recipients, n));
  }

  lemma TotalEncrypts(curve: Curve, elgamal: Challenge, sk: nat, recipients: seq<Recipient>, random: Randomness)
    requires curve.q > 0 && Enough(random, |recipients|)
    requires TotalSender(curve, elgamal, PublicKey(curve, sk), recipients, random).Ok?
    ensures Encrypts(curve, sk, TotalSender(curve, elgamal, PublicKey(curve, sk), recipients, random).value.0,
                     TotalAmount(recipients, |recipients|))
  {
    hide Encrypts, Encrypt, ProveElGamal, TotalAmount, TotalBlinding;
    EncryptEncrypts(curve, sk, TotalAmount(recipients, |recipients|), TotalBlinding(curve, random.limbs, |recipients|));
  }

  lemma TotalAccepted(curve: Curve, elgamal: Challenge, sk: nat, recipients: seq<Recipient>, random: Randomness)
    requires curve.q > 0 && Enough(random, |recipients|)
    requires TotalSender(curve, elgamal, PublicKey(curve, sk), recipients, random).Ok?
    ensures var pk := PublicKey(curve, sk);
      var total := TotalSender(curve, elgamal, pk, recipients, random).value;
      ElGamalAccepts(curve, ElGamalChallenge(elgamal, curve, total.0, pk, total.1.a, total.1.b), total.1, total.0, pk)
  {
    hide Encrypt, ProveElGamal, TotalAmount, TotalBlinding, ElGamalAccepts, PublicKey;
    ElGamalCompleteness(curve, elgamal, random.r1, random.r2, TotalBlinding(curve, random.limbs, |recipients|),
                        TotalAmount(recipients, |recipients|), PublicKey(curve, sk));
  }

  // The total's consistency proof is accepted, and the balance proof is accepted exactly when the
  // remainder is a u64 (or the challenge vanishes).
  lemma TransferProofs(curve: Curve, elgamal: Challenge, ddh: Challenge, bound: nat, sender: nat, sk: nat,
                       b: TokenBalance, recipients: seq<Recipient>, merge: bool, random: Randomness)
    requires curve.Valid() && 0 < sk < curve.q && bound <= TWO_64 && Enough(random, |recipients|)
    requires Reads(curve, bound, sk, b)
    requires TransferBatch(curve, elgamal, ddh, sender, sk, b, recipients, merge, random).Ok?
    ensures var t := TransferBatch(curve, elgamal, ddh, sender, sk, b, recipients, merge, random).value;
      var pk, spendable := PublicKey(curve, sk), Spendable(b, t.update.shouldMerge);
      var s := ZeroStatement(pk, Change(curve, t.update.newBalance, OldBalance(curve, b, t.update.shouldMerge),
                                        t.totalSender));
      && TotalAmount(recipients, |recipients|) <= spendable
      && ElGamalAccepts(curve, ElGamalChallenge(elgamal, curve, t.totalSender, pk, t.consistencyProof.a,
                                                t.consistencyProof.b), t.consistencyProof, t.totalSender, pk)
      && (VerifyDdh(curve, ddh, t.update.balanceProof, s)
          <==> Excused(curve, ddh, s, t.update.balanceProof,
                       spendable - TotalAmount(recipients, |recipients|) < TWO_64))
  {
    hide Prime, TransferBatch, PrepareAll, CreateBalanceUpdate, AmountValue, Reads, Encrypts, VerifyDdh,
      TotalAmount, TotalBlinding, PublicKey, Change, OldBalance, Excused, ElGamalAccepts, Encrypt, ProveElGamal;
    BatchParts(curve, elgamal, ddh, sender, sk, b, recipients, merge, random);
    var t := TransferBatch(curve, elgamal, ddh, sender, sk, b, recipients, merge, random).value;
    TotalEncrypts(curve, elgamal, sk, recipients, random);
    var n := |recipients|;
    UpdateVerifies(curve, ddh, bound, sk, b, TotalAmount(recipients, n), merge, t.totalSender, random.balance,
                   random.mask);
    TotalAccepted(curve, elgamal, sk, recipients, random);
  }
}
