// The threshold encryption envelope: Boneh-Franklin key encapsulation of Shamir shares to a
// list of key servers, and decryption with any threshold of user keys.

module Ibe {
  import opened Wrappers
  import opened Bytes
  import opened Modular
  import Shamir
  import Dem

  const MAX_U8 := 255
  const KEY_LENGTH := 32
  const ADDRESS_LENGTH := 32
  const SCALAR_SIZE := 32

  // The pairing groups have one prime order; an element is its exponent to the fixed generator.
  type G1 = nat
  type G2 = nat
  type GT = nat

  // What the program takes from its cryptographic libraries.
  datatype Suite = Suite(
    order: nat,
    hashToG1: bytes -> G1,
    kdfHash: (GT, G2, G1, bytes, int) -> bytes,
    deriveHash: (Purpose, bytes, int, seq<bytes>, seq<bytes>) -> bytes,
    hmac: Dem.Prf,
    aesDecrypt: (bytes, bytes, bytes) -> Result<bytes, Dem.DemError>,
    encodeG2: G2 -> bytes,
    decodeG2: bytes -> Option<G2>)
  {
    // Hashes return 32 bytes, scalars fit in 32 bytes, and point encodings can be read back.
    ghost predicate Valid() {
      && 1 < order <= Pow256(SCALAR_SIZE)
      && (forall e, n, id, o, i :: |kdfHash(e, n, id, o, i)| == KEY_LENGTH)
      && (forall p, b, t, s, k :: |deriveHash(p, b, t, s, k)| == KEY_LENGTH)
      && (forall p: G2 :: decodeG2(encodeG2(p)) == Some(p))
    }

    function Pairing(a: G1, b: G2): GT
      requires order > 0
    {
      M(order, a * b)
    }

    // Scalar multiplication, in G1 or G2.
    function Multiply(point: nat, scalar: nat): nat
      requires order > 0
    {
      M(order, point * scalar)
    }
  }

  const GENERATOR: G2 := 1

  datatype Purpose = EncryptedRandomness | DemKey

  datatype Error =
    | UserError
    | ShamirFailure(shamir: Shamir.ShamirError)
    | InvalidLengths
    | InvalidIndex
    | InvalidObjectId
    | InvalidDerivation
    | NotEnoughShares
    | InvalidCiphertext
    | InvalidPoint
    | InvalidRandomness
    | InvalidNonce
    | InconsistentShares
    | DemFailure(dem: Dem.DemError)

  function CheckedXor(a: bytes, b: bytes): Result<bytes, Error> {
    if |a| != |b| then Err(InvalidLengths) else Ok(Xor(a, b))
  }

  function Kdf(s: Suite, element: GT, nonce: G2, id: bytes, objectId: bytes, index: int): Result<bytes, Error> {
    if index < 0 || index > MAX_U8 then Err(InvalidIndex)
    else if |objectId| != ADDRESS_LENGTH then Err(InvalidObjectId)
    else Ok(s.kdfHash(element, nonce, s.hashToG1(id), objectId, index))
  }

  function DeriveKey(s: Suite, purpose: Purpose, baseKey: bytes, encryptedShares: seq<bytes>,
                     threshold: int, keyServers: seq<bytes>): Result<bytes, Error> {
    if threshold <= 0 || threshold > MAX_U8 then Err(InvalidDerivation)
    else if |encryptedShares| != |keyServers| then Err(InvalidDerivation)
    else if exists i | 0 <= i < |keyServers| :: |keyServers[i]| != ADDRESS_LENGTH then Err(InvalidDerivation)
    else if exists i | 0 <= i < |encryptedShares| :: |encryptedShares[i]| != KEY_LENGTH then Err(InvalidDerivation)
    else if |baseKey| != KEY_LENGTH then Err(InvalidDerivation)
    else Ok(s.deriveHash(purpose, baseKey, threshold, encryptedShares, keyServers))
  }

  predicate VerifyUserSecretKey(s: Suite, key: G1, id: bytes, publicKey: G2)
    requires s.order > 0
  {
    s.Pairing(key, GENERATOR) == s.Pairing(s.hashToG1(id), publicKey)
  }

  // The key encapsulated to one server: e(r * H(id), pk).
  function EncapKey(s: Suite, publicKey: G2, id: bytes, r: nat): GT
    requires s.order > 0
  {
    s.Pairing(s.Multiply(s.hashToG1(id), r), publicKey)
  }

  function Nonce(s: Suite, r: nat): G2
    requires s.order > 0
  {
    s.Multiply(GENERATOR, r)
  }

  // Scalar.fromBytes and fromBytesLE; multiplying by a zero scalar throws as well.
  function DecodeScalar(s: Suite, randomness: bytes, bigEndian: bool): Option<nat> {
    if |randomness| != SCALAR_SIZE then None
    else
      var n := if bigEndian then FromBigEndian(randomness) else FromLittleEndian(randomness);
      if 0 < n < s.order then Some(n) else None
  }

  function VerifyNonce(s: Suite, nonce: G2, randomness: bytes, bigEndian: bool): Result<bool, Error>
    requires s.order > 0
  {
    match DecodeScalar(s, randomness, bigEndian)
    case None => Err(InvalidRandomness)
    case Some(r) => Ok(Nonce(s, r) == nonce)
  }

  function VerifyNonceWithLE(s: Suite, nonce: G2, randomness: bytes): Result<bool, Error>
    requires s.order > 0
  {
    if VerifyNonce(s, nonce, randomness, false) == Ok(true) then Ok(true)
    else VerifyNonce(s, nonce, randomness, true)
  }

  // ---------- Encapsulation and decapsulation agree ----------

  // A verified user key pairs with the nonce to the key encapsulated with the same randomness.
  lemma DecapEncap(s: Suite, key: G1, id: bytes, publicKey: G2, r: nat, nonce: G2)
    requires s.order > 0 && VerifyUserSecretKey(s, key, id, publicKey)
    requires nonce == Nonce(s, r)
    ensures s.Pairing(key, nonce) == EncapKey(s, publicKey, id, r)
  {
    hide M;
    var q, h := s.order, s.hashToG1(id);
    assert M(q, key) == M(q, h * publicKey) && nonce == M(q, r);
    assert EncapKey(s, publicKey, id, r) == M(q, M(q, h * r) * publicKey);
    MulM(q, r, key);
    assert key * nonce == nonce * key;
    MulM(q, key, r);
    MulM(q, h * publicKey, r);
    MulM(q, h * r, publicKey);
    assert (h * publicKey) * r == (h * r) * publicKey;
    assert key * r == r * key;
  }

  lemma ScalarRoundTrip(s: Suite, r: nat)
    requires s.Valid() && 0 < r < s.order
    ensures DecodeScalar(s, BigEndian(r, SCALAR_SIZE), true) == Some(r)
  {
    hide Pow256;
    BigEndianRoundTrip(r, SCALAR_SIZE);
  }

  // Two scalars that verify against one nonce are the same.
  lemma NonceInjective(s: Suite, r: nat, t: nat)
    requires s.order > 0 && r < s.order && t < s.order && Nonce(s, r) == Nonce(s, t)
    ensures r == t
  {
    Canonical(s.order, r);
    Canonical(s.order, t);
  }

  // With the other encoding allowed, exactly two byte strings open a nonce: the scalar in either
  // byte order.
  lemma TwoRandomnessValues(s: Suite, r: nat, randomness: bytes)
    requires s.Valid() && 0 < r < s.order
    ensures VerifyNonceWithLE(s, Nonce(s, r), randomness) == Ok(true)
      <==> randomness == BigEndian(r, SCALAR_SIZE) || randomness == LittleEndian(r, SCALAR_SIZE)
    ensures VerifyNonce(s, Nonce(s, r), randomness, true) == Ok(true) <==> randomness == BigEndian(r, SCALAR_SIZE)
  {
    hide Suite.Valid, Nonce, BigEndian, LittleEndian, FromBigEndian, FromLittleEndian;
    OneEncoding(s, r, randomness, true);
    OneEncoding(s, r, randomness, false);
  }

  lemma OneEncoding(s: Suite, r: nat, randomness: bytes, bigEndian: bool)
    requires s.Valid() && 0 < r < s.order
    ensures s.order > 0
    ensures VerifyNonce(s, Nonce(s, r), randomness, bigEndian) == Ok(true)
      <==> randomness == if bigEndian then BigEndian(r, SCALAR_SIZE) else LittleEndian(r, SCALAR_SIZE)
  {
    assert r < Pow256(SCALAR_SIZE);
    hide Nonce, BigEndian, LittleEndian, FromBigEndian, FromLittleEndian, Pow256;
    BigEndianRoundTrip(r, SCALAR_SIZE);
    LittleEndianRoundTrip(r, SCALAR_SIZE);
    BigEndianBack(randomness);
    LittleEndianBack(randomness);
    var decoded := DecodeScalar(s, randomness, bigEndian);
    if decoded.Some? && Nonce(s, decoded.value) == Nonce(s, r) {
      NonceInjective(s, decoded.value, r);
    }
  }

  // They differ already for the scalar one.
  lemma TwoEncodingsDiffer()
    ensures BigEndian(1, SCALAR_SIZE) != LittleEndian(1, SCALAR_SIZE)
  {
    hide BigEndian, LittleEndian;
    FirstBytes(1, SCALAR_SIZE);
  }
}

module Envelope {
  import opened Wrappers
  import opened Bytes
  import opened Ibe
  import Shamir
  import Dem
  import Galois
  import Polynomials
  import Interpolation

  datatype KeyServer = KeyServer(objectId: bytes, publicKey: G2)

  datatype Service = Service(objectId: bytes, index: int)

  datatype EncryptedObject = EncryptedObject(
    packageId: bytes,
    id: bytes,
    services: seq<Service>,
    threshold: int,
    nonce: bytes,
    encryptedShares: seq<bytes>,
    encryptedRandomness: bytes,
    ciphertext: Dem.Ciphertext)

  // The keys of a client's cache, by full ID and object ID of the server.
  type KeyStore = map<(bytes, bytes), G1>

  function CreateFullId(packageId: bytes, id: bytes): Result<bytes, Error> {
    if |packageId| != ADDRESS_LENGTH then Err(UserError) else Ok(packageId + id)
  }

  function ObjectIds(keyServers: seq<KeyServer>): seq<bytes> {
    seq(|keyServers|, i requires 0 <= i < |keyServers| => keyServers[i].objectId)
  }

  function ServiceIds(services: seq<Service>): seq<bytes> {
    seq(|services|, i requires 0 <= i < |services| => services[i].objectId)
  }

  function PublicKeys(keyServers: seq<KeyServer>): seq<G2> {
    seq(|keyServers|, i requires 0 <= i < |keyServers| => keyServers[i].publicKey)
  }

  // ---------- Encryption ----------

  // One share masked with the key derived for its server and index.
  function MaskShare(s: Suite, r: nat, fullId: bytes, publicKey: G2, objectId: bytes, index: int, share: bytes)
    : Result<bytes, Error>
    requires s.order > 0
  {
    var key :- Kdf(s, EncapKey(s, publicKey, fullId, r), Nonce(s, r), fullId, objectId, index);
    CheckedXor(share, key)
  }

  // The first n shares masked for their servers.
  function EncryptShares(s: Suite, r: nat, fullId: bytes, keyServers: seq<KeyServer>, shares: seq<Shamir.Share>, n: nat)
    : Result<seq<bytes>, Error>
    requires s.order > 0 && n <= |shares| == |keyServers|
  {
    if n == 0 then Ok([])
    else
      var front :- EncryptShares(s, r, fullId, keyServers, shares, n - 1);
      var p, share := keyServers[n - 1], shares[n - 1];
      var masked :- MaskShare(s, r, fullId, p.publicKey, p.objectId, share.index, share.share);
      Ok(front + [masked])
  }

  // encrypt with Hmac256Ctr; baseKey, coefficients and r are the random draws.
  function Encrypt(s: Suite, keyServers: seq<KeyServer>, threshold: int, packageId: bytes, id: bytes,
                   msg: bytes, aad: bytes, baseKey: bytes, coefficients: seq<bytes>, r: nat)
    : (result: Result<EncryptedObject, Error>)
    requires s.order > 0
    requires threshold >= 1 ==> Shamir.Drawn(coefficients, baseKey, threshold)
    ensures result.Ok? ==> |result.value.services| == |keyServers|
  {
    var n := |keyServers|;
    if threshold <= 0 || threshold >= MAX_U8 || n < threshold || n >= MAX_U8 then Err(UserError)
    else
      var split := Shamir.Split(baseKey, threshold, n, coefficients);
      if split.Err? then Err(ShamirFailure(split.error))
      else
        var shares := split.value;
        var fullId :- CreateFullId(packageId, id);
        var encryptedShares :- EncryptShares(s, r, fullId, keyServers, shares, n);
        var randomnessKey :- DeriveKey(s, EncryptedRandomness, baseKey, encryptedShares, threshold,
                                       ObjectIds(keyServers));
        var encryptedRandomness :- CheckedXor(randomnessKey, BigEndian(r, SCALAR_SIZE));
        var demKey :- DeriveKey(s, DemKey, baseKey, encryptedShares, threshold, ObjectIds(keyServers));
        Ok(EncryptedObject(
          packageId, id,
          seq(n, i requires 0 <= i < n => Service(keyServers[i].objectId, shares[i].index)),
          threshold, s.encodeG2(Nonce(s, r)), encryptedShares, encryptedRandomness,
          Dem.Encrypt(s.hmac, demKey, msg, aad)))
  }

  // ---------- Decryption ----------

  // The first n services whose key is in the keystore.
  function InKeystore(services: seq<Service>, keys: KeyStore, fullId: bytes, n: nat): (indices: seq<nat>)
    requires n <= |services|
    ensures forall k | 0 <= k < |indices| ::
      indices[k] < n && (fullId, services[indices[k]].objectId) in keys
    ensures forall i | 0 <= i < n && (fullId, services[i].objectId) in keys :: i in indices
    ensures forall j, k | 0 <= j < k < |indices| :: indices[j] < indices[k]
  {
    if n == 0 then []
    else
      InKeystore(services, keys, fullId, n - 1)
        + if (fullId, services[n - 1].objectId) in keys then [n - 1] else []
  }

  // Both share decryptions: the mask is the key derived from a pairing value.
  function UnmaskShare(s: Suite, element: GT, nonce: G2, fullId: bytes, service: Service, encrypted: bytes)
    : Result<Shamir.Share, Error>
  {
    var key :- Kdf(s, element, nonce, fullId, service.objectId, service.index);
    var share :- CheckedXor(encrypted, key);
    Ok(Shamir.Share(service.index, share))
  }

  function DecryptShares(s: Suite, obj: EncryptedObject, keys: KeyStore, fullId: bytes, nonce: G2, indices: seq<nat>)
    : Result<seq<Shamir.Share>, Error>
    requires s.order > 0 && |obj.encryptedShares| == |obj.services|
    requires forall k | 0 <= k < |indices| ::
      indices[k] < |obj.services| && (fullId, obj.services[indices[k]].objectId) in keys
  {
    if |indices| == 0 then Ok([])
    else
      var last := |indices| - 1;
      var front :- DecryptShares(s, obj, keys, fullId, nonce, indices[..last]);
      var i := indices[last];
      var key := keys[(fullId, obj.services[i].objectId)];
      var share :- UnmaskShare(s, s.Pairing(key, nonce), nonce, fullId, obj.services[i], obj.encryptedShares[i]);
      Ok(front + [share])
  }

  // decryptAllSharesUsingRandomness for the first n services.
  function DecryptAllShares(s: Suite, r: nat, obj: EncryptedObject, publicKeys: seq<G2>, nonce: G2, fullId: bytes,
                            n: nat)
    : Result<seq<Shamir.Share>, Error>
    requires s.order > 0 && n <= |obj.services| == |obj.encryptedShares| == |publicKeys|
  {
    if n == 0 then Ok([])
    else
      var front :- DecryptAllShares(s, r, obj, publicKeys, nonce, fullId, n - 1);
      var share :- UnmaskShare(s, EncapKey(s, publicKeys[n - 1], fullId, r), nonce, fullId,
                               obj.services[n - 1], obj.encryptedShares[n - 1]);
      Ok(front + [share])
  }

  // polynomial(index) is the given share; an index outside the field throws.
  predicate OnPolynomials(polynomials: seq<Polynomials.Polynomial>, share: Shamir.Share) {
    && 0 <= share.index < Shamir.GF256_SIZE
    && Shamir.EvaluateAll(polynomials, Shamir.IndexElement(share.index)) == share.share
  }

  predicate AllOnPolynomials(polynomials: seq<Polynomials.Polynomial>, all: seq<Shamir.Share>) {
    forall k | 0 <= k < |all| :: OnPolynomials(polynomials, all[k])
  }

  function CheckConsistency(s: Suite, obj: EncryptedObject, publicKeys: seq<G2>, nonce: G2, fullId: bytes,
                            shares: seq<Shamir.Share>, randomness: bytes): Result<bool, Error>
    requires s.order > 0 && |obj.encryptedShares| == |obj.services|
  {
    var polynomials := Shamir.Interpolate(shares);
    if polynomials.Err? then Err(ShamirFailure(polynomials.error))
    else if |publicKeys| != |obj.services| then Err(InvalidLengths)
    else
      match DecodeScalar(s, randomness, true)
      case None => Err(InvalidRandomness)
      case Some(r) =>
        var all :- DecryptAllShares(s, r, obj, publicKeys, nonce, fullId, |obj.services|);
        if AllOnPolynomials(polynomials.value, all) then Ok(true) else Err(InconsistentShares)
  }

  function DecryptDem(s: Suite, demKey: bytes, ciphertext: Dem.Ciphertext): Result<bytes, Error> {
    var plain := match ciphertext
      case Aes256Gcm(blob, aad) =>
        if |demKey| != 32 then Err(Dem.WrongKeyLength) else s.aesDecrypt(demKey, blob, aad)
      case Hmac256Ctr(_, _, _) => Dem.Decrypt(s.hmac, demKey, ciphertext);
    match plain
    case Err(e) => Err(DemFailure(e))
    case Ok(msg) => Ok(msg)
  }

  // Everything after the shares are decrypted and combined.
  function Finish(s: Suite, obj: EncryptedObject, publicKeys: Option<seq<G2>>, checkLE: bool, nonce: G2,
                  fullId: bytes, shares: seq<Shamir.Share>, baseKey: bytes): Result<bytes, Error>
    requires s.order > 0 && |obj.encryptedShares| == |obj.services|
  {
    var ids := ServiceIds(obj.services);
    var randomnessKey :- DeriveKey(s, EncryptedRandomness, baseKey, obj.encryptedShares, obj.threshold, ids);
    var randomness :- CheckedXor(obj.encryptedRandomness, randomnessKey);
    var verified :- if checkLE then VerifyNonceWithLE(s, nonce, randomness)
                    else VerifyNonce(s, nonce, randomness, true);
    if !verified then Err(InvalidNonce)
    else
      var _ :- if publicKeys.None? then Ok(true)
               else CheckConsistency(s, obj, publicKeys.value, nonce, fullId, shares, randomness);
      var demKey :- DeriveKey(s, DemKey, baseKey, obj.encryptedShares, obj.threshold, ids);
      DecryptDem(s, demKey, obj.ciphertext)
  }

  function Decrypt(s: Suite, obj: EncryptedObject, keys: KeyStore, publicKeys: Option<seq<G2>>, checkLE: bool)
    : Result<bytes, Error>
    requires s.order > 0
  {
    var fullId :- CreateFullId(obj.packageId, obj.id);
    var indices := InKeystore(obj.services, keys, fullId, |obj.services|);
    if |indices| < obj.threshold then Err(NotEnoughShares)
    else if |obj.encryptedShares| != |obj.services| then Err(InvalidCiphertext)
    else
      match s.decodeG2(obj.nonce)
      case None => Err(InvalidPoint)
      case Some(nonce) =>
        var shares :- DecryptShares(s, obj, keys, fullId, nonce, indices);
        var combined := Shamir.Combine(shares);
        if combined.Err? then Err(ShamirFailure(combined.error))
        else Finish(s, obj, publicKeys, checkLE, nonce, fullId, shares, combined.value)
  }

  // ---------- Masking and unmasking ----------

  lemma XorBack(share: bytes, key: bytes)
    requires |share| == |key|
    ensures CheckedXor(Xor(share, key), key) == Ok(share)
  {
    XorTwice(share, key);
  }

  // A share is masked exactly when its identifiers and length are valid; unmasking with the same
  // key gives it back.
  lemma MaskShareFacts(s: Suite, r: nat, fullId: bytes, publicKey: G2, objectId: bytes, share: Shamir.Share)
    requires s.Valid() && 0 <= share.index <= MAX_U8 && |share.share| == KEY_LENGTH
    ensures var m := MaskShare(s, r, fullId, publicKey, objectId, share.index, share.share);
      && (m.Ok? <==> |objectId| == ADDRESS_LENGTH)
      && (m.Ok? ==> |m.value| == KEY_LENGTH)
      && (m.Ok? ==>
        UnmaskShare(s, EncapKey(s, publicKey, fullId, r), Nonce(s, r), fullId,
                       Service(objectId, share.index), m.value) == Ok(share))
  {
    hide Xor;
    var key := s.kdfHash(EncapKey(s, publicKey, fullId, r), Nonce(s, r), s.hashToG1(fullId), objectId, share.index);
    hide EncapKey, Nonce;
    XorBack(share.share, key);
    assert |Xor(share.share, key)| == |share.share| by {
      XorLength(share.share, key);
    }
  }

  lemma XorLength(a: bytes, b: bytes)
    ensures |Xor(a, b)| == |a|
  {
  }

  predicate ValidShares(shares: seq<Shamir.Share>) {
    forall i | 0 <= i < |shares| :: 0 <= shares[i].index <= MAX_U8 && |shares[i].share| == KEY_LENGTH
  }

  ghost predicate Unmasks(s: Suite, r: nat, fullId: bytes, server: KeyServer, share: Shamir.Share, encrypted: bytes)
    requires s.order > 0
  {
    && |encrypted| == KEY_LENGTH
    && UnmaskShare(s, EncapKey(s, server.publicKey, fullId, r), Nonce(s, r), fullId,
                   Service(server.objectId, share.index), encrypted) == Ok(share)
  }

  lemma {:induction false} EncryptSharesFacts(s: Suite, r: nat, fullId: bytes, keyServers: seq<KeyServer>,
                                              shares: seq<Shamir.Share>, n: nat)
    requires s.Valid() && n <= |shares| == |keyServers| && ValidShares(shares)
    ensures EncryptShares(s, r, fullId, keyServers, shares, n).Ok?
      <==> forall i | 0 <= i < n :: |keyServers[i].objectId| == ADDRESS_LENGTH
    ensures EncryptShares(s, r, fullId, keyServers, shares, n).Ok? ==>
      var e := EncryptShares(s, r, fullId, keyServers, shares, n).value;
      |e| == n && forall i | 0 <= i < n :: Unmasks(s, r, fullId, keyServers[i], shares[i], e[i])
  {
    hide MaskShare, UnmaskShare, EncapKey, Nonce, Suite.Valid;
    if n > 0 {
      EncryptSharesFacts(s, r, fullId, keyServers, shares, n - 1);
      MaskShareFacts(s, r, fullId, keyServers[n - 1].publicKey, keyServers[n - 1].objectId, shares[n - 1]);
    }
  }

  lemma {:induction false} DecryptAllSharesAt(s: Suite, r: nat, obj: EncryptedObject, publicKeys: seq<G2>,
                                              nonce: G2, fullId: bytes, n: nat)
    requires s.order > 0 && n <= |obj.services| == |obj.encryptedShares| == |publicKeys|
    ensures DecryptAllShares(s, r, obj, publicKeys, nonce, fullId, n).Ok? ==>
      var all := DecryptAllShares(s, r, obj, publicKeys, nonce, fullId, n).value;
      |all| == n && forall i | 0 <= i < n ::
        UnmaskShare(s, EncapKey(s, publicKeys[i], fullId, r), nonce, fullId, obj.services[i], obj.encryptedShares[i])
          == Ok(all[i])
  {
    hide UnmaskShare, EncapKey;
    if n > 0 {
      DecryptAllSharesAt(s, r, obj, publicKeys, nonce, fullId, n - 1);
    }
  }

  lemma {:induction false} DecryptAllSharesIs(s: Suite, r: nat, obj: EncryptedObject, publicKeys: seq<G2>,
                                              nonce: G2, fullId: bytes, all: seq<Shamir.Share>, n: nat)
    requires s.order > 0 && n <= |all| == |obj.services| == |obj.encryptedShares| == |publicKeys|
    requires forall i | 0 <= i < n ::
      UnmaskShare(s, EncapKey(s, publicKeys[i], fullId, r), nonce, fullId, obj.services[i], obj.encryptedShares[i])
        == Ok(all[i])
    ensures DecryptAllShares(s, r, obj, publicKeys, nonce, fullId, n) == Ok(all[..n])
  {
    hide UnmaskShare, EncapKey;
    if n > 0 {
      DecryptAllSharesIs(s, r, obj, publicKeys, nonce, fullId, all, n - 1);
      assert all[..n] == all[..n - 1] + [all[n - 1]];
    }
  }

  // Every cached key of a service of the object is a valid user key under its public key.
  ghost predicate KeysVerified(s: Suite, services: seq<Service>, keys: KeyStore, fullId: bytes, publicKeys: seq<G2>)
    requires s.order > 0 && |publicKeys| == |services|
  {
    forall i | 0 <= i < |services| && (fullId, services[i].objectId) in keys ::
      VerifyUserSecretKey(s, keys[(fullId, services[i].objectId)], fullId, publicKeys[i])
  }

  function Pick<T>(all: seq<T>, indices: seq<nat>): seq<T>
    requires forall k | 0 <= k < |indices| :: indices[k] < |all|
  {
    seq(|indices|, k requires 0 <= k < |indices| => all[indices[k]])
  }

  // Decrypting with verified user keys gives the shares the encryption randomness gives.
  lemma {:induction false} DecryptSharesArePicked(s: Suite, obj: EncryptedObject, keys: KeyStore, publicKeys: seq<G2>,
                                                  fullId: bytes, nonce: G2, r: nat, all: seq<Shamir.Share>,
                                                  indices: seq<nat>)
    requires s.order > 0 && |all| == |obj.services| == |obj.encryptedShares| == |publicKeys|
    requires KeysVerified(s, obj.services, keys, fullId, publicKeys) && nonce == Nonce(s, r)
    requires forall i | 0 <= i < |all| ::
      UnmaskShare(s, EncapKey(s, publicKeys[i], fullId, r), nonce, fullId, obj.services[i], obj.encryptedShares[i])
        == Ok(all[i])
    requires forall k | 0 <= k < |indices| ::
      indices[k] < |obj.services| && (fullId, obj.services[indices[k]].objectId) in keys
    ensures DecryptShares(s, obj, keys, fullId, nonce, indices) == Ok(Pick(all, indices))
  {
    hide UnmaskShare, EncapKey, Nonce, VerifyUserSecretKey;
    if |indices| > 0 {
      var last := |indices| - 1;
      DecryptSharesArePicked(s, obj, keys, publicKeys, fullId, nonce, r, all, indices[..last]);
      var i := indices[last];
      DecapEncap(s, keys[(fullId, obj.services[i].objectId)], fullId, publicKeys[i], r, nonce);
      assert Pick(all, indices) == Pick(all, indices[..last]) + [all[i]];
    }
  }

  // ---------- What encryption produces ----------

  predicate ValidThreshold(threshold: int, n: nat) {
    1 <= threshold < MAX_U8 && threshold <= n < MAX_U8
  }

  predicate ValidIds(packageId: bytes, keyServers: seq<KeyServer>) {
    && |packageId| == ADDRESS_LENGTH
    && forall i | 0 <= i < |keyServers| :: |keyServers[i].objectId| == ADDRESS_LENGTH
  }

  lemma SplitFacts(baseKey: bytes, threshold: int, n: nat, coefficients: seq<bytes>)
    requires ValidThreshold(threshold, n) && Shamir.Drawn(coefficients, baseKey, threshold)
    requires |baseKey| == KEY_LENGTH
    ensures Shamir.Split(baseKey, threshold, n, coefficients).Ok?
    ensures var shares := Shamir.Split(baseKey, threshold, n, coefficients).value;
      && |shares| == n
      && ValidShares(shares)
      && forall i | 0 <= i < n :: shares[i] == Shamir.ShareAt(baseKey, coefficients, i + 1) && shares[i].index == i + 1
  {
    hide Shamir.ShareAt;
    var shares := Shamir.Split(baseKey, threshold, n, coefficients).value;
    forall i | 0 <= i < n
      ensures shares[i].index == i + 1 && |shares[i].share| == KEY_LENGTH
    {
      Shamir.ShareAtIndex(baseKey, coefficients, i + 1);
    }
  }

  // The object encrypt builds from its inputs and random draws.
  ghost predicate Sealed(s: Suite, obj: EncryptedObject, keyServers: seq<KeyServer>, shares: seq<Shamir.Share>,
                         fullId: bytes, baseKey: bytes, r: nat, msg: bytes, aad: bytes)
    requires s.order > 0 && |shares| == |keyServers|
  {
    var ids := ObjectIds(keyServers);
    var randomnessKey := DeriveKey(s, EncryptedRandomness, baseKey, obj.encryptedShares, obj.threshold, ids);
    var demKey := DeriveKey(s, DemKey, baseKey, obj.encryptedShares, obj.threshold, ids);
    && CreateFullId(obj.packageId, obj.id) == Ok(fullId)
    && |obj.services| == |obj.encryptedShares| == |keyServers|
    && (forall i | 0 <= i < |keyServers| :: obj.services[i] == Service(keyServers[i].objectId, shares[i].index))
    && (forall i | 0 <= i < |keyServers| :: Unmasks(s, r, fullId, keyServers[i], shares[i], obj.encryptedShares[i]))
    && obj.nonce == s.encodeG2(Nonce(s, r))
    && randomnessKey.Ok? && |randomnessKey.value| == KEY_LENGTH
    && obj.encryptedRandomness == Xor(randomnessKey.value, BigEndian(r, SCALAR_SIZE))
    && demKey.Ok? && |demKey.value| == KEY_LENGTH
    && obj.ciphertext == Dem.Encrypt(s.hmac, demKey.value, msg, aad)
  }

  // encrypt fails exactly on an invalid threshold or identifier.
  lemma EncryptSeals(s: Suite, keyServers: seq<KeyServer>, threshold: int, packageId: bytes, id: bytes,
                     msg: bytes, aad: bytes, baseKey: bytes, coefficients: seq<bytes>, r: nat)
    requires s.Valid() && |baseKey| == KEY_LENGTH
    requires threshold >= 1 ==> Shamir.Drawn(coefficients, baseKey, threshold)
    ensures var e := Encrypt(s, keyServers, threshold, packageId, id, msg, aad, baseKey, coefficients, r);
      && (e.Ok? <==> ValidThreshold(threshold, |keyServers|) && ValidIds(packageId, keyServers))
      && (e.Ok? ==>
        var shares := Shamir.Split(baseKey, threshold, |keyServers|, coefficients).value;
        && |shares| == |keyServers|
        && e.value.threshold == threshold
        && Sealed(s, e.value, keyServers, shares, packageId + id, baseKey, r, msg, aad))
  {
    if ValidThreshold(threshold, |keyServers|) && |packageId| == ADDRESS_LENGTH {
      SplitFacts(baseKey, threshold, |keyServers|, coefficients);
      hide Shamir.Split, Unmasks, EncryptShares, BigEndian, EncapKey, Nonce, Dem.Encrypt, Xor;
      var shares := Shamir.Split(baseKey, threshold, |keyServers|, coefficients).value;
      var fullId := packageId + id;
      EncryptSharesFacts(s, r, fullId, keyServers, shares, |keyServers|);
      var e := EncryptShares(s, r, fullId, keyServers, shares, |keyServers|);
      if e.Ok? {
        forall i | 0 <= i < |e.value|
          ensures |e.value[i]| == KEY_LENGTH
        {
          UnmasksLength(s, r, fullId, keyServers[i], shares[i], e.value[i]);
        }
      }
    }
  }

  lemma UnmasksLength(s: Suite, r: nat, fullId: bytes, server: KeyServer, share: Shamir.Share, encrypted: bytes)
    requires s.order > 0 && Unmasks(s, r, fullId, server, share, encrypted)
    ensures |encrypted| == KEY_LENGTH
  {
  }

  // ---------- Decryption undoes encryption ----------

  lemma SealedUnmasks(s: Suite, obj: EncryptedObject, keyServers: seq<KeyServer>, shares: seq<Shamir.Share>,
                      fullId: bytes, baseKey: bytes, r: nat, msg: bytes, aad: bytes)
    requires s.order > 0 && |shares| == |keyServers|
    requires Sealed(s, obj, keyServers, shares, fullId, baseKey, r, msg, aad)
    ensures |obj.services| == |obj.encryptedShares| == |keyServers|
    ensures forall i | 0 <= i < |shares| ::
      UnmaskShare(s, EncapKey(s, PublicKeys(keyServers)[i], fullId, r), Nonce(s, r), fullId,
                  obj.services[i], obj.encryptedShares[i]) == Ok(shares[i])
    ensures ServiceIds(obj.services) == ObjectIds(keyServers)
  {
    hide UnmaskShare, EncapKey, Nonce, DeriveKey, Dem.Encrypt, BigEndian, Xor;
    forall i | 0 <= i < |shares|
      ensures UnmaskShare(s, EncapKey(s, PublicKeys(keyServers)[i], fullId, r), Nonce(s, r), fullId,
                          obj.services[i], obj.encryptedShares[i]) == Ok(shares[i])
    {
      assert Unmasks(s, r, fullId, keyServers[i], shares[i], obj.encryptedShares[i]);
    }
  }

  lemma PickedAreChosen(baseKey: bytes, threshold: int, n: nat, coefficients: seq<bytes>, indices: seq<nat>)
    requires ValidThreshold(threshold, n) && Shamir.Drawn(coefficients, baseKey, threshold)
    requires |baseKey| == KEY_LENGTH && |indices| >= threshold
    requires forall k | 0 <= k < |indices| :: indices[k] < n
    requires forall j, k | 0 <= j < k < |indices| :: indices[j] < indices[k]
    ensures var shares := Shamir.Split(baseKey, threshold, n, coefficients).value;
      |shares| == n && Shamir.Chosen(Pick(shares, indices), shares)
  {
    SplitFacts(baseKey, threshold, n, coefficients);
    hide Shamir.Split, Shamir.ShareAt, Interpolation.HasDuplicates;
    var shares := Shamir.Split(baseKey, threshold, n, coefficients).value;
    var chosen := Pick(shares, indices);
    forall k | 0 <= k < |chosen|
      ensures chosen[k] in shares
    {
      assert chosen[k] == shares[indices[k]];
    }
    Interpolation.DuplicatesIff(Shamir.Indices(chosen));
    forall j, k | 0 <= j < k < |indices|
      ensures Shamir.Indices(chosen)[j] != Shamir.Indices(chosen)[k]
    {
      assert chosen[j] == shares[indices[j]] && chosen[k] == shares[indices[k]];
    }
  }

  lemma RandomnessBack(s: Suite, r: nat, key: bytes)
    requires s.Valid() && 0 < r < s.order && |key| == KEY_LENGTH
    ensures CheckedXor(Xor(key, BigEndian(r, SCALAR_SIZE)), key) == Ok(BigEndian(r, SCALAR_SIZE))
    ensures VerifyNonce(s, Nonce(s, r), BigEndian(r, SCALAR_SIZE), true) == Ok(true)
    ensures VerifyNonceWithLE(s, Nonce(s, r), BigEndian(r, SCALAR_SIZE)) == Ok(true)
  {
    ScalarRoundTrip(s, r);
    hide BigEndian, FromBigEndian, FromLittleEndian, Nonce;
    var b := BigEndian(r, SCALAR_SIZE);
    assert Xor(Xor(key, b), key) == b by {
      XorCommutes(key, b);
      XorTwice(b, key);
    }
    XorLength(key, b);
    hide Xor;
  }

  lemma XorCommutes(a: bytes, b: bytes)
    requires |a| == |b|
    ensures Xor(a, b) == Xor(b, a)
  {
  }

  lemma ConsistencyHolds(s: Suite, obj: EncryptedObject, keyServers: seq<KeyServer>, fullId: bytes, r: nat,
                         baseKey: bytes, threshold: int, coefficients: seq<bytes>, chosen: seq<Shamir.Share>)
    requires s.Valid() && 0 < r < s.order
    requires ValidThreshold(threshold, |keyServers|) && Shamir.Drawn(coefficients, baseKey, threshold)
    requires |baseKey| == KEY_LENGTH
    requires |obj.services| == |obj.encryptedShares| == |keyServers|
    requires var shares := Shamir.Split(baseKey, threshold, |keyServers|, coefficients).value;
      && |shares| == |keyServers|
      && (forall i | 0 <= i < |shares| ::
        UnmaskShare(s, EncapKey(s, PublicKeys(keyServers)[i], fullId, r), Nonce(s, r), fullId,
                    obj.services[i], obj.encryptedShares[i]) == Ok(shares[i]))
      && Shamir.Chosen(chosen, shares)
    requires |chosen| >= threshold
    ensures CheckConsistency(s, obj, PublicKeys(keyServers), Nonce(s, r), fullId, chosen, BigEndian(r, SCALAR_SIZE))
         == Ok(true)
  {
    SplitFacts(baseKey, threshold, |keyServers|, coefficients);
    ScalarRoundTrip(s, r);
    hide Shamir.Split, Shamir.ShareAt, Shamir.Chosen, Shamir.Interpolate, Shamir.EvaluateAll, Shamir.IndexElement,
         UnmaskShare, EncapKey, Nonce, DecodeScalar, BigEndian;
    var n := |keyServers|;
    var shares := Shamir.Split(baseKey, threshold, n, coefficients).value;
    DecryptAllSharesIs(s, r, obj, PublicKeys(keyServers), Nonce(s, r), fullId, shares, n);
    assert shares[..n] == shares;
    SplitOnPolynomials(baseKey, threshold, n, coefficients, chosen);
    hide AllOnPolynomials, DecryptAllShares, Suite.Valid, PublicKeys;
  }

  // Every share of a split lies on the polynomials interpolated from the chosen ones.
  lemma SplitOnPolynomials(baseKey: bytes, threshold: int, n: nat, coefficients: seq<bytes>, chosen: seq<Shamir.Share>)
    requires ValidThreshold(threshold, n) && Shamir.Drawn(coefficients, baseKey, threshold) && |baseKey| == KEY_LENGTH
    requires Shamir.Split(baseKey, threshold, n, coefficients).Ok?
    requires Shamir.Chosen(chosen, Shamir.Split(baseKey, threshold, n, coefficients).value) && |chosen| >= threshold
    ensures Shamir.Interpolate(chosen).Ok?
    ensures AllOnPolynomials(Shamir.Interpolate(chosen).value, Shamir.Split(baseKey, threshold, n, coefficients).value)
  {
    SplitFacts(baseKey, threshold, n, coefficients);
    hide Shamir.Split, Shamir.ShareAt, Shamir.Chosen, Shamir.Interpolate, Shamir.EvaluateAll, Shamir.IndexElement;
    var shares := Shamir.Split(baseKey, threshold, n, coefficients).value;
    Shamir.InterpolateAfterSplit(baseKey, threshold, n, coefficients, chosen, 0);
    var polynomials := Shamir.Interpolate(chosen).value;
    forall k | 0 <= k < |shares|
      ensures OnPolynomials(polynomials, shares[k])
    {
      Shamir.InterpolateAfterSplit(baseKey, threshold, n, coefficients, chosen, k + 1);
    }
  }

  lemma FinishSucceeds(s: Suite, obj: EncryptedObject, publicKeys: Option<seq<G2>>, checkLE: bool, fullId: bytes,
                       shares: seq<Shamir.Share>, baseKey: bytes, keyServers: seq<KeyServer>, all: seq<Shamir.Share>,
                       r: nat, msg: bytes, aad: bytes)
    requires s.Valid() && 0 < r < s.order && |all| == |keyServers|
    requires Sealed(s, obj, keyServers, all, fullId, baseKey, r, msg, aad)
    requires |obj.services| == |obj.encryptedShares|
    requires publicKeys.Some? ==>
      CheckConsistency(s, obj, publicKeys.value, Nonce(s, r), fullId, shares, BigEndian(r, SCALAR_SIZE)) == Ok(true)
    ensures Finish(s, obj, publicKeys, checkLE, Nonce(s, r), fullId, shares, baseKey) == Ok(msg)
  {
    SealedUnmasks(s, obj, keyServers, all, fullId, baseKey, r, msg, aad);
    var ids := ObjectIds(keyServers);
    hide DeriveKey, UnmaskShare, EncapKey, Nonce, BigEndian, Xor, CheckConsistency, VerifyNonce, VerifyNonceWithLE,
         ServiceIds, ObjectIds, Dem.Encrypt, CheckedXor, Unmasks;
    var randomnessKey := DeriveKey(s, EncryptedRandomness, baseKey, obj.encryptedShares, obj.threshold, ids);
    var demKey := DeriveKey(s, DemKey, baseKey, obj.encryptedShares, obj.threshold, ids);
    RandomnessBack(s, r, randomnessKey.value);
    DemBack(s, demKey.value, msg, aad);
  }

  lemma DemBack(s: Suite, demKey: bytes, msg: bytes, aad: bytes)
    requires |demKey| == KEY_LENGTH
    ensures DecryptDem(s, demKey, Dem.Encrypt(s.hmac, demKey, msg, aad)) == Ok(msg)
  {
    Dem.DecryptIff(s.hmac, demKey, Dem.Encrypt(s.hmac, demKey, msg, aad), msg);
    hide Dem.CtrMode, Dem.ComputeMac, Dem.Decrypt;
  }

  // Whatever the message, key servers (repeats included), threshold and random draws: an
  // encrypted object decrypts to the message with every keystore whose keys are verified and
  // cover at least threshold services, with or without the share check, in both encodings.
  lemma DecryptAfterEncrypt(s: Suite, keyServers: seq<KeyServer>, threshold: int, packageId: bytes, id: bytes,
                            msg: bytes, aad: bytes, baseKey: bytes, coefficients: seq<bytes>, r: nat,
                            obj: EncryptedObject, keys: KeyStore, checkShares: bool, checkLE: bool)
    requires s.Valid() && |baseKey| == KEY_LENGTH && 0 < r < s.order
    requires threshold >= 1 ==> Shamir.Drawn(coefficients, baseKey, threshold)
    requires Encrypt(s, keyServers, threshold, packageId, id, msg, aad, baseKey, coefficients, r) == Ok(obj)
    requires KeysVerified(s, obj.services, keys, packageId + id, PublicKeys(keyServers))
    requires |InKeystore(obj.services, keys, packageId + id, |obj.services|)| >= threshold
    ensures Decrypt(s, obj, keys, if checkShares then Some(PublicKeys(keyServers)) else None, checkLE) == Ok(msg)
  {
    EncryptSeals(s, keyServers, threshold, packageId, id, msg, aad, baseKey, coefficients, r);
    hide Encrypt;
    var n, fullId := |keyServers|, packageId + id;
    var shares := Shamir.Split(baseKey, threshold, n, coefficients).value;
    var publicKeys := PublicKeys(keyServers);
    SealedUnmasks(s, obj, keyServers, shares, fullId, baseKey, r, msg, aad);
    var indices := InKeystore(obj.services, keys, fullId, n);
    PickedAreChosen(baseKey, threshold, n, coefficients, indices);
    SealedNonce(s, obj, keyServers, shares, fullId, baseKey, r, msg, aad);
    hide Shamir.Split, Shamir.Chosen, Shamir.Combine, UnmaskShare, EncapKey, Nonce, InKeystore, KeysVerified, Finish,
         CheckConsistency, BigEndian, PublicKeys, Sealed, Suite.Valid;
    DecryptSharesArePicked(s, obj, keys, publicKeys, fullId, Nonce(s, r), r, shares, indices);
    var chosen := Pick(shares, indices);
    Shamir.CombineAfterSplit(baseKey, threshold, n, coefficients, chosen);
    ConsistencyHolds(s, obj, keyServers, fullId, r, baseKey, threshold, coefficients, chosen);
    FinishSucceeds(s, obj, if checkShares then Some(publicKeys) else None, checkLE, fullId, chosen, baseKey,
                   keyServers, shares, r, msg, aad);
    hide DecryptShares, Pick;
  }

  lemma SealedNonce(s: Suite, obj: EncryptedObject, keyServers: seq<KeyServer>, shares: seq<Shamir.Share>,
                    fullId: bytes, baseKey: bytes, r: nat, msg: bytes, aad: bytes)
    requires s.Valid() && |shares| == |keyServers|
    requires Sealed(s, obj, keyServers, shares, fullId, baseKey, r, msg, aad)
    ensures CreateFullId(obj.packageId, obj.id) == Ok(fullId) && s.decodeG2(obj.nonce) == Some(Nonce(s, r))
  {
    hide DeriveKey, Unmasks, EncapKey, Dem.Encrypt;
  }

  // ---------- Checked decryptions agree ----------

  // What a checked decryption has established, for the randomness r it recovered.
  ghost predicate CheckedRun(s: Suite, obj: EncryptedObject, publicKeys: seq<G2>, fullId: bytes, nonce: G2, r: nat,
                             shares: seq<Shamir.Share>, all: seq<Shamir.Share>, msg: bytes)
    requires s.order > 0 && |publicKeys| == |obj.services| == |obj.encryptedShares|
  {
    && Shamir.Combine(shares).Ok?
    && 0 < r < s.order && Nonce(s, r) == nonce
    && DecryptAllShares(s, r, obj, publicKeys, nonce, fullId, |obj.services|) == Ok(all)
    && Shamir.Interpolate(shares).Ok?
    && Shamir.AllOn(Shamir.Interpolate(shares).value, all)
    && Plain(s, obj, Shamir.Combine(shares).value) == Ok(msg)
  }

  // The message, once the base key is known.
  function Plain(s: Suite, obj: EncryptedObject, baseKey: bytes): Result<bytes, Error> {
    var demKey :- DeriveKey(s, DemKey, baseKey, obj.encryptedShares, obj.threshold, ServiceIds(obj.services));
    DecryptDem(s, demKey, obj.ciphertext)
  }

  lemma ConsistencyFacts(s: Suite, obj: EncryptedObject, publicKeys: seq<G2>, nonce: G2, fullId: bytes,
                         shares: seq<Shamir.Share>, randomness: bytes) returns (r: nat, all: seq<Shamir.Share>)
    requires s.order > 0 && |publicKeys| == |obj.services| == |obj.encryptedShares|
    requires CheckConsistency(s, obj, publicKeys, nonce, fullId, shares, randomness).Ok?
    ensures DecodeScalar(s, randomness, true) == Some(r)
    ensures DecryptAllShares(s, r, obj, publicKeys, nonce, fullId, |obj.services|) == Ok(all)
    ensures Shamir.Interpolate(shares).Ok? && Shamir.AllOn(Shamir.Interpolate(shares).value, all)
  {
    hide Shamir.Interpolate, DecryptAllShares, Shamir.EvaluateAll, DecodeScalar;
    r := DecodeScalar(s, randomness, true).value;
    all := DecryptAllShares(s, r, obj, publicKeys, nonce, fullId, |obj.services|).value;
    var polynomials := Shamir.Interpolate(shares).value;
    assert AllOnPolynomials(polynomials, all);
    assert forall k | 0 <= k < |all| :: OnPolynomials(polynomials, all[k]);
  }

  lemma FinishChecked(s: Suite, obj: EncryptedObject, publicKeys: seq<G2>, nonce: G2, fullId: bytes,
                      shares: seq<Shamir.Share>, msg: bytes) returns (r: nat, all: seq<Shamir.Share>)
    requires s.order > 0 && |publicKeys| == |obj.services| == |obj.encryptedShares|
    requires Shamir.Combine(shares).Ok?
    requires Finish(s, obj, Some(publicKeys), false, nonce, fullId, shares, Shamir.Combine(shares).value) == Ok(msg)
    ensures CheckedRun(s, obj, publicKeys, fullId, nonce, r, shares, all, msg)
  {
    hide DeriveKey, DecryptDem, Nonce, Shamir.Combine, Shamir.Interpolate, DecryptAllShares, Shamir.AllOn,
         FromBigEndian, Xor, CheckConsistency;
    var baseKey := Shamir.Combine(shares).value;
    var randomnessKey := DeriveKey(s, EncryptedRandomness, baseKey, obj.encryptedShares, obj.threshold,
                                   ServiceIds(obj.services));
    var randomness := CheckedXor(obj.encryptedRandomness, randomnessKey.value).value;
    r, all := ConsistencyFacts(s, obj, publicKeys, nonce, fullId, shares, randomness);
  }

  // The shares a checked decryption combined are among those its randomness gives.
  lemma DecryptChecked(s: Suite, obj: EncryptedObject, keys: KeyStore, publicKeys: seq<G2>, msg: bytes)
    returns (fullId: bytes, nonce: G2, r: nat, indices: seq<nat>, all: seq<Shamir.Share>)
    requires s.Valid() && |publicKeys| == |obj.services|
    requires KeysVerified(s, obj.services, keys, obj.packageId + obj.id, publicKeys)
    requires Decrypt(s, obj, keys, Some(publicKeys), false) == Ok(msg)
    ensures fullId == obj.packageId + obj.id && s.decodeG2(obj.nonce) == Some(nonce)
    ensures |obj.services| == |obj.encryptedShares| == |all|
    ensures forall k | 0 <= k < |indices| :: indices[k] < |all|
    ensures CheckedRun(s, obj, publicKeys, fullId, nonce, r, Pick(all, indices), all, msg)
  {
    hide DecryptShares, Shamir.Combine, Finish, CheckedRun, KeysVerified, Nonce, DecryptAllShares;
    fullId := obj.packageId + obj.id;
    indices := InKeystore(obj.services, keys, fullId, |obj.services|);
    nonce := s.decodeG2(obj.nonce).value;
    var shares := DecryptShares(s, obj, keys, fullId, nonce, indices).value;
    r, all := FinishChecked(s, obj, publicKeys, nonce, fullId, shares, msg);
    hide Decrypt, InKeystore;
    RunFacts(s, obj, publicKeys, fullId, nonce, r, shares, all, msg);
    DecryptAllSharesAt(s, r, obj, publicKeys, nonce, fullId, |obj.services|);
    hide UnmaskShare, EncapKey;
    DecryptSharesArePicked(s, obj, keys, publicKeys, fullId, nonce, r, all, indices);
  }

  lemma RunFacts(s: Suite, obj: EncryptedObject, publicKeys: seq<G2>, fullId: bytes, nonce: G2, r: nat,
                 shares: seq<Shamir.Share>, all: seq<Shamir.Share>, msg: bytes)
    requires s.order > 0 && |publicKeys| == |obj.services| == |obj.encryptedShares|
    requires CheckedRun(s, obj, publicKeys, fullId, nonce, r, shares, all, msg)
    ensures nonce == Nonce(s, r)
    ensures DecryptAllShares(s, r, obj, publicKeys, nonce, fullId, |obj.services|) == Ok(all)
  {
  }

  // Allowing the other encoding of the nonce changes nothing where the big-endian one is accepted.
  lemma OtherEncodingOnlyAdds(s: Suite, obj: EncryptedObject, keys: KeyStore, publicKeys: Option<seq<G2>>)
    requires s.order > 0 && Decrypt(s, obj, keys, publicKeys, false).Ok?
    ensures Decrypt(s, obj, keys, publicKeys, true) == Decrypt(s, obj, keys, publicKeys, false)
  {
    hide InKeystore, DecryptShares, Shamir.Combine, Finish;
    var fullId := obj.packageId + obj.id;
    var nonce := s.decodeG2(obj.nonce).value;
    var indices := InKeystore(obj.services, keys, fullId, |obj.services|);
    var shares := DecryptShares(s, obj, keys, fullId, nonce, indices).value;
    FinishEither(s, obj, publicKeys, nonce, fullId, shares, Shamir.Combine(shares).value);
  }

  lemma FinishEither(s: Suite, obj: EncryptedObject, publicKeys: Option<seq<G2>>, nonce: G2, fullId: bytes,
                     shares: seq<Shamir.Share>, baseKey: bytes)
    requires s.order > 0 && |obj.encryptedShares| == |obj.services|
    requires Finish(s, obj, publicKeys, false, nonce, fullId, shares, baseKey).Ok?
    ensures Finish(s, obj, publicKeys, true, nonce, fullId, shares, baseKey)
         == Finish(s, obj, publicKeys, false, nonce, fullId, shares, baseKey)
  {
    hide DeriveKey, CheckedXor, VerifyNonce, CheckConsistency, DecryptDem, ServiceIds;
  }

  // Even for an object its encryptor built to mislead: any two keystores of verified keys with
  // which the checked decryption succeeds give the same message.
  lemma CheckedDecryptionsAgree(s: Suite, obj: EncryptedObject, keysA: KeyStore, keysB: KeyStore,
                                publicKeys: seq<G2>, a: bytes, b: bytes)
    requires s.Valid() && |publicKeys| == |obj.services|
    requires KeysVerified(s, obj.services, keysA, obj.packageId + obj.id, publicKeys)
    requires KeysVerified(s, obj.services, keysB, obj.packageId + obj.id, publicKeys)
    requires Decrypt(s, obj, keysA, Some(publicKeys), false) == Ok(a)
    requires Decrypt(s, obj, keysB, Some(publicKeys), false) == Ok(b)
    ensures a == b
  {
    hide Decrypt, KeysVerified, CheckedRun;
    var fullId, nonce, r, indicesA, all := DecryptChecked(s, obj, keysA, publicKeys, a);
    var fullIdB, nonceB, rB, indicesB, allB := DecryptChecked(s, obj, keysB, publicKeys, b);
    RunsAgree(s, obj, publicKeys, fullId, nonce, r, indicesA, all, a, rB, indicesB, allB, b);
  }

  lemma RunsAgree(s: Suite, obj: EncryptedObject, publicKeys: seq<G2>, fullId: bytes, nonce: G2,
                  r: nat, indices: seq<nat>, all: seq<Shamir.Share>, a: bytes,
                  rB: nat, indicesB: seq<nat>, allB: seq<Shamir.Share>, b: bytes)
    requires s.order > 0 && |publicKeys| == |obj.services| == |obj.encryptedShares|
    requires forall k | 0 <= k < |indices| :: indices[k] < |all|
    requires forall k | 0 <= k < |indicesB| :: indicesB[k] < |allB|
    requires CheckedRun(s, obj, publicKeys, fullId, nonce, r, Pick(all, indices), all, a)
    requires CheckedRun(s, obj, publicKeys, fullId, nonce, rB, Pick(allB, indicesB), allB, b)
    ensures a == b
  {
    NonceInjective(s, r, rB);
    hide Nonce, DecryptAllShares, Shamir.Combine, Shamir.Interpolate, Shamir.AllOn, Plain;
    assert all == allB;
    Shamir.ConsistentCombine(all, Pick(all, indices), Pick(all, indicesB));
  }
}
