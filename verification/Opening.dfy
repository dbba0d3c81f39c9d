// What opens an encrypted object: the hashes its parts are masked with, and the keys that give
// those hashes back.

module Opening {
  import opened Wrappers
  import opened Bytes
  import opened Modular
  import opened Ibe
  import opened Envelope
  import Shamir
  import Dem

  // ---------- Masks ----------

  predicate Masked(a: bv8, k: bv8, y: bv8) {
    y == a ^ k
  }

  lemma XorBytes(a: bv8, k: bv8, l: bv8, y: bv8, z: bv8)
    requires Masked(a, k, y) && Masked(y, l, z)
    ensures z == a <==> k == l
  {
    XorBack(a, k);
    XorBack(y, l);
    if z == a {
      assert l == z ^ y == a ^ y == y ^ a == k;
    }
  }

  lemma XorBack(x: bv8, y: bv8)
    ensures (x ^ y) ^ y == x && (x ^ y) ^ x == y && x ^ y == y ^ x
  {
  }

  lemma XorAt(a: bytes, b: bytes, i: nat)
    requires i < |a| == |b|
    ensures |Xor(a, b)| == |a| && Masked(a[i], b[i], Xor(a, b)[i])
  {
  }

  lemma MaskByte(share: bytes, k: bytes, l: bytes, i: nat)
    requires i < |share| == |k| == |l| && |Xor(share, k)| == |share|
    ensures |Xor(Xor(share, k), l)| == |share|
    ensures Xor(Xor(share, k), l)[i] == share[i] <==> k[i] == l[i]
  {
    hide *;
    XorAt(share, k, i);
    XorAt(Xor(share, k), l, i);
    XorBytes(share[i], k[i], l[i], Xor(share, k)[i], Xor(Xor(share, k), l)[i]);
  }

  // A mask is taken off by itself only.
  lemma OnlyMask(share: bytes, k: bytes, l: bytes)
    requires |share| == |k| == |l|
    ensures Xor(Xor(share, k), l) == share <==> k == l
  {
    hide Xor;
    XorLength(share, k);
    XorLength(Xor(share, k), l);
    var x := Xor(Xor(share, k), l);
    forall i | 0 <= i < |share|
      ensures x[i] == share[i] <==> k[i] == l[i]
    {
      MaskByte(share, k, l, i);
    }
    if x == share {
      assert forall i | 0 <= i < |k| :: k[i] == l[i];
    }
  }

  // An attempt to open a masked share with a pairing value, for one nonce, ID and service.
  datatype Attempt = Attempt(element: GT, nonce: G2, id: bytes, service: Service)

  // What the mask of an attempt depends on.
  function MaskOf(s: Suite, a: Attempt): bytes {
    s.kdfHash(a.element, a.nonce, s.hashToG1(a.id), a.service.objectId, a.service.index)
  }

  predicate WellSized(a: Attempt) {
    |a.service.objectId| == ADDRESS_LENGTH && 0 <= a.service.index <= MAX_U8
  }

  // Which attempts throw, and with what.
  lemma UnmaskFails(s: Suite, a: Attempt, masked: bytes)
    requires s.Valid()
    ensures UnmaskShare(s, a.element, a.nonce, a.id, a.service, masked) ==
      if !(0 <= a.service.index <= 255) then Err(InvalidIndex)
      else if |a.service.objectId| != 32 then Err(InvalidObjectId)
      else if |masked| != 32 then Err(InvalidLengths)
      else Ok(Shamir.Share(a.service.index, Xor(masked, MaskOf(s, a))))
  {
    hide Xor;
  }

  // A share that was masked for one attempt opens to its bytes in another exactly when the hash is
  // the same at both.
  lemma OpensIff(s: Suite, sealed: Attempt, opening: Attempt, share: bytes)
    requires s.Valid() && WellSized(opening) && |share| == KEY_LENGTH
    ensures UnmaskShare(s, opening.element, opening.nonce, opening.id, opening.service, Xor(share, MaskOf(s, sealed)))
        == Ok(Shamir.Share(opening.service.index, share))
      <==> MaskOf(s, opening) == MaskOf(s, sealed)
  {
    var k, l := MaskOf(s, sealed), MaskOf(s, opening);
    assert |k| == KEY_LENGTH && |l| == KEY_LENGTH;
    UnmaskFails(s, opening, Xor(share, k));
    XorLength(share, k);
    hide Xor, MaskOf, UnmaskShare;
    OnlyMask(share, k, l);
  }

  // ---------- User keys ----------

  // A user key passes verification exactly when it is the identity's point times the server's
  // secret, publicKey = secret * G.
  lemma VerifyIff(s: Suite, key: G1, id: bytes, publicKey: G2)
    requires s.order > 0
    ensures VerifyUserSecretKey(s, key, id, publicKey) <==> Same(s.order, key, s.hashToG1(id) * publicKey)
  {
    hide M;
    assert key * GENERATOR == key;
  }

  // The nonce is the scalar times the generator.
  lemma NonceIs(s: Suite, r: nat)
    requires r < s.order
    ensures Nonce(s, r) == r
  {
    Canonical(s.order, r);
    assert GENERATOR * r == r;
  }

  // Pairing a key with the nonce gives the encapsulated value for verified keys only.
  lemma DecapIff(s: Suite, key: G1, id: bytes, publicKey: G2, r: nat)
    requires Prime(s.order) && 0 < r < s.order
    ensures s.order > 0
    ensures s.Pairing(key, Nonce(s, r)) == EncapKey(s, publicKey, id, r) <==> VerifyUserSecretKey(s, key, id, publicKey)
  {
    var q, h := s.order, s.hashToG1(id);
    assert q > 1;
    NonceIs(s, r);
    VerifyIff(s, key, id, publicKey);
    if VerifyUserSecretKey(s, key, id, publicKey) {
      DecapEncap(s, key, id, publicKey, r, Nonce(s, r));
    }
    if s.Pairing(key, Nonce(s, r)) == EncapKey(s, publicKey, id, r) {
      EncapIs(q, h, r, publicKey);
      hide M, Prime;
      Cancel(q, key, h * publicKey, r);
    }
  }

  lemma EncapIs(q: nat, h: nat, r: nat, publicKey: nat)
    requires q > 0
    ensures M(q, M(q, h * r) * publicKey) == M(q, (h * publicKey) * r)
  {
    hide M;
    MulM(q, h * r, publicKey);
    assert (h * r) * publicKey == (h * publicKey) * r;
  }

  // The hash tells pairing values apart, its other arguments fixed.
  ghost predicate TellsElements(s: Suite, nonce: G2, id: bytes, service: Service) {
    forall e: GT, f: GT | e < s.order && f < s.order && e != f ::
      MaskOf(s, Attempt(e, nonce, id, service)) != MaskOf(s, Attempt(f, nonce, id, service))
  }

  // The share of a server opens with exactly the user keys that pass verification for it.
  lemma OnlyVerifiedKeysOpen(s: Suite, r: nat, fullId: bytes, publicKey: G2, objectId: bytes, share: Shamir.Share,
                             key: G1)
    requires s.Valid() && Prime(s.order) && 0 < r < s.order
    requires |objectId| == ADDRESS_LENGTH && 0 <= share.index <= MAX_U8 && |share.share| == KEY_LENGTH
    requires TellsElements(s, Nonce(s, r), fullId, Service(objectId, share.index))
    ensures var masked := MaskShare(s, r, fullId, publicKey, objectId, share.index, share.share);
      && masked.Ok?
      && (UnmaskShare(s, s.Pairing(key, Nonce(s, r)), Nonce(s, r), fullId, Service(objectId, share.index), masked.value)
            == Ok(share)
          <==> VerifyUserSecretKey(s, key, fullId, publicKey))
  {
    var nonce, service := Nonce(s, r), Service(objectId, share.index);
    var e, f := EncapKey(s, publicKey, fullId, r), s.Pairing(key, nonce);
    var sealed, opening := Attempt(e, nonce, fullId, service), Attempt(f, nonce, fullId, service);
    MaskIs(s, r, fullId, publicKey, objectId, share);
    assert e < s.order && f < s.order;
    DecapIff(s, key, fullId, publicKey, r);
    hide Xor, MaskOf, UnmaskShare, EncapKey, VerifyUserSecretKey, MaskShare, Nonce;
    OpensIff(s, sealed, opening, share.share);
    assert e != f ==> MaskOf(s, sealed) != MaskOf(s, opening);
  }

  lemma MaskIs(s: Suite, r: nat, fullId: bytes, publicKey: G2, objectId: bytes, share: Shamir.Share)
    requires s.Valid() && |objectId| == ADDRESS_LENGTH && 0 <= share.index <= MAX_U8 && |share.share| == KEY_LENGTH
    ensures MaskShare(s, r, fullId, publicKey, objectId, share.index, share.share)
         == Ok(Xor(share.share, MaskOf(s, Attempt(EncapKey(s, publicKey, fullId, r), Nonce(s, r), fullId,
                                                  Service(objectId, share.index)))))
  {
    hide Xor, EncapKey, Nonce;
  }

  // A share masked under one index, or for one server, opens under another exactly when the hash
  // does not tell them apart.
  lemma OtherServiceOpensIff(s: Suite, r: nat, fullId: bytes, publicKey: G2, objectId: bytes, share: Shamir.Share,
                             key: G1, other: Service)
    requires s.Valid() && VerifyUserSecretKey(s, key, fullId, publicKey)
    requires |objectId| == ADDRESS_LENGTH && 0 <= share.index <= MAX_U8 && |share.share| == KEY_LENGTH
    requires |other.objectId| == ADDRESS_LENGTH && 0 <= other.index <= MAX_U8
    ensures var masked := MaskShare(s, r, fullId, publicKey, objectId, share.index, share.share);
      var element := s.Pairing(key, Nonce(s, r));
      && masked.Ok?
      && (UnmaskShare(s, element, Nonce(s, r), fullId, other, masked.value)
            == Ok(Shamir.Share(other.index, share.share))
          <==> s.kdfHash(element, Nonce(s, r), s.hashToG1(fullId), other.objectId, other.index)
               == s.kdfHash(element, Nonce(s, r), s.hashToG1(fullId), objectId, share.index))
  {
    var nonce := Nonce(s, r);
    DecapEncap(s, key, fullId, publicKey, r, nonce);
    MaskIs(s, r, fullId, publicKey, objectId, share);
    var element := s.Pairing(key, nonce);
    var sealed, opening := Attempt(element, nonce, fullId, Service(objectId, share.index)),
      Attempt(element, nonce, fullId, other);
    assert MaskOf(s, sealed) == s.kdfHash(element, nonce, s.hashToG1(fullId), objectId, share.index);
    hide Xor, UnmaskShare, EncapKey, VerifyUserSecretKey, MaskShare, Nonce;
    OpensIff(s, sealed, opening, share.share);
  }

  // ---------- Derived keys ----------

  // When a key can be derived, and from what.
  lemma DeriveIs(s: Suite, purpose: Purpose, baseKey: bytes, encryptedShares: seq<bytes>, threshold: int,
                 keyServers: seq<bytes>)
    ensures DeriveKey(s, purpose, baseKey, encryptedShares, threshold, keyServers)
      == if 1 <= threshold <= 255 && |encryptedShares| == |keyServers| && |baseKey| == 32
            && (forall i | 0 <= i < |keyServers| :: |keyServers[i]| == 32 && |encryptedShares[i]| == 32)
         then Ok(s.deriveHash(purpose, baseKey, threshold, encryptedShares, keyServers))
         else Err(InvalidDerivation)
  {
  }

  // ---------- The object ----------

  // Everything encrypt puts into the object, down to the hashes: each share is masked with the hash
  // of the pairing value for its server, the nonce, the hashed full ID, the server and the index;
  // the randomness and the message are masked under two purposes of a key derived from the base key,
  // the threshold, the masked shares and the servers.
  lemma EncryptOutput(s: Suite, keyServers: seq<KeyServer>, threshold: int, packageId: bytes, id: bytes,
                      msg: bytes, aad: bytes, baseKey: bytes, coefficients: seq<bytes>, r: nat)
    requires s.Valid() && |baseKey| == KEY_LENGTH
    requires threshold >= 1 ==> Shamir.Drawn(coefficients, baseKey, threshold)
    requires Encrypt(s, keyServers, threshold, packageId, id, msg, aad, baseKey, coefficients, r).Ok?
    ensures Shamir.Split(baseKey, threshold, |keyServers|, coefficients).Ok?
    ensures var obj := Encrypt(s, keyServers, threshold, packageId, id, msg, aad, baseKey, coefficients, r).value;
      var shares := Shamir.Split(baseKey, threshold, |keyServers|, coefficients).value;
      var point, servers := s.hashToG1(packageId + id), ObjectIds(keyServers);
      && obj.packageId == packageId && obj.id == id && obj.threshold == threshold
      && obj.nonce == s.encodeG2(s.Multiply(GENERATOR, r))
      && |shares| == |keyServers| == |obj.services| == |obj.encryptedShares|
      && (forall i | 0 <= i < |shares| :: obj.services[i] == Service(keyServers[i].objectId, i + 1))
      && (forall i | 0 <= i < |shares| ::
          obj.encryptedShares[i]
            == Xor(shares[i].share,
                   s.kdfHash(s.Pairing(s.Multiply(point, r), keyServers[i].publicKey), s.Multiply(GENERATOR, r), point,
                             keyServers[i].objectId, i + 1)))
      && obj.encryptedRandomness
          == Xor(s.deriveHash(EncryptedRandomness, baseKey, threshold, obj.encryptedShares, servers), BigEndian(r, 32))
      && obj.ciphertext
          == Dem.Encrypt(s.hmac, s.deriveHash(DemKey, baseKey, threshold, obj.encryptedShares, servers), msg, aad)
  {
    EncryptSeals(s, keyServers, threshold, packageId, id, msg, aad, baseKey, coefficients, r);
    EncryptKeepsIds(s, keyServers, threshold, packageId, id, msg, aad, baseKey, coefficients, r);
    SplitFacts(baseKey, threshold, |keyServers|, coefficients);
    var obj := Encrypt(s, keyServers, threshold, packageId, id, msg, aad, baseKey, coefficients, r).value;
    var shares := Shamir.Split(baseKey, threshold, |keyServers|, coefficients).value;
    var servers := ObjectIds(keyServers);
    DeriveIs(s, EncryptedRandomness, baseKey, obj.encryptedShares, obj.threshold, servers);
    DeriveIs(s, DemKey, baseKey, obj.encryptedShares, obj.threshold, servers);
    hide Envelope.Encrypt, Shamir.Split, Shamir.ShareAt, DeriveKey, Dem.Encrypt, Xor, BigEndian, Unmasks, ObjectIds;
    forall i | 0 <= i < |shares|
      ensures obj.encryptedShares[i]
           == Xor(shares[i].share,
                  MaskOf(s, Attempt(EncapKey(s, keyServers[i].publicKey, packageId + id, r), Nonce(s, r),
                                    packageId + id, Service(keyServers[i].objectId, i + 1))))
    {
      SealedMask(s, r, packageId + id, keyServers[i], shares[i], obj.encryptedShares[i]);
    }
  }

  lemma EncryptKeepsIds(s: Suite, keyServers: seq<KeyServer>, threshold: int, packageId: bytes, id: bytes,
                        msg: bytes, aad: bytes, baseKey: bytes, coefficients: seq<bytes>, r: nat)
    requires s.order > 0
    requires threshold >= 1 ==> Shamir.Drawn(coefficients, baseKey, threshold)
    requires Encrypt(s, keyServers, threshold, packageId, id, msg, aad, baseKey, coefficients, r).Ok?
    ensures var obj := Encrypt(s, keyServers, threshold, packageId, id, msg, aad, baseKey, coefficients, r).value;
      obj.packageId == packageId && obj.id == id
  {
    hide Shamir.Split, EncryptShares, DeriveKey, Dem.Encrypt, Nonce, CheckedXor, BigEndian, ObjectIds;
  }

  lemma SealedMask(s: Suite, r: nat, fullId: bytes, server: KeyServer, share: Shamir.Share, encrypted: bytes)
    requires s.Valid() && Unmasks(s, r, fullId, server, share, encrypted) && |share.share| == KEY_LENGTH
    ensures encrypted == Xor(share.share, MaskOf(s, Attempt(EncapKey(s, server.publicKey, fullId, r), Nonce(s, r),
                                                            fullId, Service(server.objectId, share.index))))
  {
    var a := Attempt(EncapKey(s, server.publicKey, fullId, r), Nonce(s, r), fullId,
                     Service(server.objectId, share.index));
    UnmaskFails(s, a, encrypted);
    var k := MaskOf(s, a);
    assert |k| == KEY_LENGTH;
    hide Xor, MaskOf, UnmaskShare, EncapKey, Nonce;
    assert share.share == Xor(encrypted, k);
    XorTwice(encrypted, k);
  }

  // The masked randomness opens with exactly the derivations at which the hash is the one used: in
  // particular not with the key of the message, when the hash tells the two purposes apart there.
  lemma RandomnessOpensIff(s: Suite, keyServers: seq<KeyServer>, threshold: int, packageId: bytes, id: bytes,
                           msg: bytes, aad: bytes, baseKey: bytes, coefficients: seq<bytes>, r: nat, other: bytes)
    requires s.Valid() && |baseKey| == KEY_LENGTH && |other| == KEY_LENGTH
    requires threshold >= 1 ==> Shamir.Drawn(coefficients, baseKey, threshold)
    requires Encrypt(s, keyServers, threshold, packageId, id, msg, aad, baseKey, coefficients, r).Ok?
    ensures var obj := Encrypt(s, keyServers, threshold, packageId, id, msg, aad, baseKey, coefficients, r).value;
      CheckedXor(obj.encryptedRandomness, other) == Ok(BigEndian(r, 32))
      <==> other == s.deriveHash(EncryptedRandomness, baseKey, threshold, obj.encryptedShares, ObjectIds(keyServers))
  {
    EncryptOutput(s, keyServers, threshold, packageId, id, msg, aad, baseKey, coefficients, r);
    var obj := Encrypt(s, keyServers, threshold, packageId, id, msg, aad, baseKey, coefficients, r).value;
    var k := s.deriveHash(EncryptedRandomness, baseKey, threshold, obj.encryptedShares, ObjectIds(keyServers));
    assert |k| == KEY_LENGTH;
    hide Xor, Envelope.Encrypt, BigEndian, ObjectIds, Shamir.Split;
    var randomness := BigEndian(r, 32);
    XorSides(k, randomness);
    XorLength(randomness, k);
    OnlyMask(randomness, k, other);
  }

  lemma XorSides(a: bytes, b: bytes)
    requires |a| == |b|
    ensures Xor(a, b) == Xor(b, a)
  {
    hide Xor;
    XorLength(a, b);
    XorLength(b, a);
    forall i | 0 <= i < |a|
      ensures Xor(a, b)[i] == Xor(b, a)[i]
    {
      XorAt(a, b, i);
      XorAt(b, a, i);
      XorBack(a[i], b[i]);
    }
  }

  // What opens the object's message: the decryption of its kind under the derived message key.
  function OpenMessage(s: Suite, key: bytes, c: Dem.Ciphertext): Result<bytes, Dem.DemError> {
    match c
    case Aes256Gcm(blob, aad) => s.aesDecrypt(key, blob, aad)
    case Hmac256Ctr(_, _, _) => Dem.Decrypt(s.hmac, key, c)
  }

  // The bytes are the scalar in the allowed byte orders.
  predicate Encodes(randomness: bytes, r: nat, checkLE: bool) {
    randomness == BigEndian(r, 32) || (checkLE && randomness == LittleEndian(r, 32))
  }

  // Whatever the object, a decryption that succeeds has found a base key under which the masked
  // randomness encodes the scalar of the object's nonce and the message opens.
  lemma DecryptOutput(s: Suite, obj: EncryptedObject, keys: KeyStore, publicKeys: Option<seq<G2>>, checkLE: bool,
                      msg: bytes) returns (baseKey: bytes, r: nat)
    requires s.Valid() && Decrypt(s, obj, keys, publicKeys, checkLE) == Ok(msg)
    ensures 0 < r < s.order && s.decodeG2(obj.nonce) == Some(r) && |baseKey| == 32
    ensures var servers := ServiceIds(obj.services);
      && Encodes(Xor(obj.encryptedRandomness, s.deriveHash(EncryptedRandomness, baseKey, obj.threshold,
                                                           obj.encryptedShares, servers)), r, checkLE)
      && OpenMessage(s, s.deriveHash(DemKey, baseKey, obj.threshold, obj.encryptedShares, servers), obj.ciphertext)
         == Ok(msg)
  {
    hide InKeystore, DecryptShares, Shamir.Combine, Finish;
    var fullId := obj.packageId + obj.id;
    var nonce := s.decodeG2(obj.nonce).value;
    var indices := InKeystore(obj.services, keys, fullId, |obj.services|);
    var shares := DecryptShares(s, obj, keys, fullId, nonce, indices).value;
    baseKey := Shamir.Combine(shares).value;
    r := FinishOutput(s, obj, publicKeys, checkLE, nonce, fullId, shares, baseKey, msg);
  }

  lemma FinishOutput(s: Suite, obj: EncryptedObject, publicKeys: Option<seq<G2>>, checkLE: bool, nonce: G2,
                     fullId: bytes, shares: seq<Shamir.Share>, baseKey: bytes, msg: bytes) returns (r: nat)
    requires s.Valid() && |obj.encryptedShares| == |obj.services|
    requires Finish(s, obj, publicKeys, checkLE, nonce, fullId, shares, baseKey) == Ok(msg)
    ensures 0 < r < s.order && nonce == r && |baseKey| == 32
    ensures var servers := ServiceIds(obj.services);
      && Encodes(Xor(obj.encryptedRandomness, s.deriveHash(EncryptedRandomness, baseKey, obj.threshold,
                                                           obj.encryptedShares, servers)), r, checkLE)
      && OpenMessage(s, s.deriveHash(DemKey, baseKey, obj.threshold, obj.encryptedShares, servers), obj.ciphertext)
         == Ok(msg)
  {
    var servers := ServiceIds(obj.services);
    DeriveIs(s, EncryptedRandomness, baseKey, obj.encryptedShares, obj.threshold, servers);
    DeriveIs(s, DemKey, baseKey, obj.encryptedShares, obj.threshold, servers);
    var key := s.deriveHash(EncryptedRandomness, baseKey, obj.threshold, obj.encryptedShares, servers);
    hide DeriveKey, VerifyNonce, VerifyNonceWithLE, CheckConsistency, ServiceIds, Xor, BigEndian, LittleEndian;
    r := NonceOpened(s, nonce, Xor(obj.encryptedRandomness, key), checkLE);
  }

  // A nonce that verifies is the scalar its randomness encodes.
  lemma NonceOpened(s: Suite, nonce: G2, randomness: bytes, checkLE: bool) returns (r: nat)
    requires s.Valid()
    requires Ok(true)
      == if checkLE then VerifyNonceWithLE(s, nonce, randomness) else VerifyNonce(s, nonce, randomness, true)
    ensures 0 < r < s.order && nonce == r && Encodes(randomness, r, checkLE)
  {
    hide BigEndian, LittleEndian, FromBigEndian, FromLittleEndian, Nonce;
    BigEndianBack(randomness);
    LittleEndianBack(randomness);
    r := if checkLE && VerifyNonce(s, nonce, randomness, false) == Ok(true) then FromLittleEndian(randomness)
         else FromBigEndian(randomness);
    NonceIs(s, r);
  }

  // Which randomness is refused outright: of the wrong length, zero, or not below the order.
  lemma RandomnessRefused(s: Suite, nonce: G2, randomness: bytes, bigEndian: bool)
    requires s.order > 0
    ensures var n := if bigEndian then FromBigEndian(randomness) else FromLittleEndian(randomness);
      VerifyNonce(s, nonce, randomness, bigEndian)
      == if |randomness| != 32 || n == 0 || n >= s.order then Err(InvalidRandomness) else Ok(nonce == n)
  {
    var n := if bigEndian then FromBigEndian(randomness) else FromLittleEndian(randomness);
    hide FromBigEndian, FromLittleEndian;
    if n < s.order {
      NonceIs(s, n);
    }
  }
}
