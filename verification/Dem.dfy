// Byte strings and the authenticated counter mode the data is encrypted with.

module Bytes {
  type bytes = seq<bv8>

  // xorUnchecked: a missing byte of b counts as zero.
  function Xor(a: bytes, b: bytes): bytes {
    seq(|a|, i requires 0 <= i < |a| => if i < |b| then a[i] ^ b[i] else a[i])
  }

  lemma XorTwice(a: bytes, b: bytes)
    ensures Xor(Xor(a, b), b) == a
    ensures |a| == |b| ==> Xor(b, Xor(b, a)) == a
  {
  }

  function Pow256(k: nat): nat {
    if k == 0 then 1 else 256 * Pow256(k - 1)
  }

  function LittleEndian(n: nat, size: nat): (b: bytes)
    ensures |b| == size
  {
    if size == 0 then [] else [(n % 256) as bv8] + LittleEndian(n / 256, size - 1)
  }

  function FromLittleEndian(b: bytes): nat {
    if |b| == 0 then 0 else b[0] as nat + 256 * FromLittleEndian(b[1..])
  }

  function BigEndian(n: nat, size: nat): (b: bytes)
    ensures |b| == size
  {
    if size == 0 then [] else BigEndian(n / 256, size - 1) + [(n % 256) as bv8]
  }

  function FromBigEndian(b: bytes): nat {
    if |b| == 0 then 0 else 256 * FromBigEndian(b[..|b| - 1]) + b[|b| - 1] as nat
  }

  lemma ByteOf(n: nat)
    ensures ((n % 256) as bv8) as nat == n % 256
  {
    var m := n % 256;
    assert m % 256 == m;
  }

  lemma {:induction false} LittleEndianRoundTrip(n: nat, size: nat)
    requires n < Pow256(size)
    ensures FromLittleEndian(LittleEndian(n, size)) == n
  {
    if size > 0 {
      LittleEndianRoundTrip(n / 256, size - 1);
      ByteOf(n);
      assert LittleEndian(n, size)[1..] == LittleEndian(n / 256, size - 1);
    }
  }

  lemma {:induction false} BigEndianRoundTrip(n: nat, size: nat)
    requires n < Pow256(size)
    ensures FromBigEndian(BigEndian(n, size)) == n
  {
    if size > 0 {
      BigEndianRoundTrip(n / 256, size - 1);
      ByteOf(n);
      assert BigEndian(n, size)[..size - 1] == BigEndian(n / 256, size - 1);
    }
  }

  // The last digit of a number that ends in a byte.
  lemma LastByte(x: bv8, high: nat)
    ensures var n := x as nat + 256 * high; (n % 256) as bv8 == x && n / 256 == high
  {
    var low := x as nat;
    var n := low + 256 * high;
    assert low < 256;
    assert n % 256 == low && n / 256 == high;
  }

  // A number of a given size has one encoding.
  lemma {:induction false} LittleEndianBack(b: bytes)
    ensures LittleEndian(FromLittleEndian(b), |b|) == b
  {
    if b != [] {
      LittleEndianBack(b[1..]);
      FromLittleEndianOf(b);
      hide *;
      var high := FromLittleEndian(b[1..]);
      var value := b[0] as nat + 256 * high;
      LittleEndianOf(b[0], high, |b|);
      assert FromLittleEndian(b) == value;
      assert LittleEndian(value, |b|) == [b[0]] + b[1..] == b;
    }
  }

  lemma LittleEndianOf(x: bv8, high: nat, size: nat)
    requires size > 0
    ensures LittleEndian(x as nat + 256 * high, size) == [x] + LittleEndian(high, size - 1)
  {
    LastByte(x, high);
  }

  lemma FromLittleEndianOf(b: bytes)
    requires b != []
    ensures FromLittleEndian(b) == b[0] as nat + 256 * FromLittleEndian(b[1..])
  {
  }

  lemma {:induction false} BigEndianBack(b: bytes)
    ensures BigEndian(FromBigEndian(b), |b|) == b
  {
    if b != [] {
      var n := |b| - 1;
      BigEndianBack(b[..n]);
      FromBigEndianOf(b);
      hide *;
      var high := FromBigEndian(b[..n]);
      var value := b[n] as nat + 256 * high;
      BigEndianOf(b[n], high, |b|);
      assert FromBigEndian(b) == value;
      assert BigEndian(value, |b|) == b[..n] + [b[n]] == b;
    }
  }

  lemma BigEndianOf(x: bv8, high: nat, size: nat)
    requires size > 0
    ensures BigEndian(x as nat + 256 * high, size) == BigEndian(high, size - 1) + [x]
  {
    LastByte(x, high);
  }

  lemma FromBigEndianOf(b: bytes)
    requires b != []
    ensures FromBigEndian(b) == b[|b| - 1] as nat + 256 * FromBigEndian(b[..|b| - 1])
  {
  }

  // The first byte of a number below 256 is zero in one order and the number in the other.
  lemma FirstBytes(n: nat, size: nat)
    requires 0 < n < 256 && size > 1
    ensures BigEndian(n, size)[0] == 0 && LittleEndian(n, size)[0] != 0
  {
    ByteOf(n);
    BigEndianZero(size - 1);
    hide FromBigEndian, FromLittleEndian;
    assert BigEndian(n, size)[0] == BigEndian(0, size - 1)[0];
  }

  lemma {:induction false} BigEndianZero(size: nat)
    requires size > 0
    ensures BigEndian(0, size)[0] == 0
  {
    if size > 1 {
      BigEndianZero(size - 1);
    }
  }
}

module Dem {
  import opened Wrappers
  import opened Bytes

  const BLOCK_SIZE := 32

  // "HMAC-CTR-ENC" and "HMAC-CTR-MAC"
  const ENCRYPTION_KEY_TAG: bytes := [0x48, 0x4d, 0x41, 0x43, 0x2d, 0x43, 0x54, 0x52, 0x2d, 0x45, 0x4e, 0x43]
  const MAC_KEY_TAG: bytes := [0x48, 0x4d, 0x41, 0x43, 0x2d, 0x43, 0x54, 0x52, 0x2d, 0x4d, 0x41, 0x43]

  // HMAC-SHA3-256 stays uninterpreted: any function of a key and an input to 32 bytes.
  type Prf = (bytes, bytes) -> bytes

  datatype Ciphertext =
    | Aes256Gcm(blob: bytes, aad: bytes)
    | Hmac256Ctr(blob: bytes, aad: bytes, mac: bytes)

  datatype DemError = WrongCiphertextKind | WrongKeyLength | InvalidMac

  function CtrInput(i: nat): bytes {
    ENCRYPTION_KEY_TAG + LittleEndian(i, 8)
  }

  function MacInput(aad: bytes, ciphertext: bytes): bytes {
    MAC_KEY_TAG + LittleEndian(|aad|, 8) + aad + ciphertext
  }

  function CtrMode(hmac: Prf, key: bytes, msg: bytes): bytes {
    seq(|msg|, k requires 0 <= k < |msg| =>
      var mask := hmac(key, CtrInput(k / BLOCK_SIZE));
      if k % BLOCK_SIZE < |mask| then msg[k] ^ mask[k % BLOCK_SIZE] else msg[k])
  }

  function ComputeMac(hmac: Prf, key: bytes, aad: bytes, ciphertext: bytes): bytes {
    hmac(key, MacInput(aad, ciphertext))
  }

  function Encrypt(hmac: Prf, key: bytes, msg: bytes, aad: bytes): Ciphertext {
    var blob := CtrMode(hmac, key, msg);
    Hmac256Ctr(blob, aad, ComputeMac(hmac, key, aad, blob))
  }

  function Decrypt(hmac: Prf, key: bytes, ciphertext: Ciphertext): Result<bytes, DemError> {
    match ciphertext
    case Aes256Gcm(_, _) => Err(WrongCiphertextKind)
    case Hmac256Ctr(blob, aad, mac) =>
      if |key| != 32 then Err(WrongKeyLength)
      else if ComputeMac(hmac, key, aad, blob) != mac then Err(InvalidMac)
      else Ok(CtrMode(hmac, key, blob))
  }

  // The block loop: block i is masked with the i-th output of the keyed hash.
  method EncryptInCtrMode(hmac: Prf, key: bytes, msg: bytes) returns (result: array<bv8>)
    ensures fresh(result)
    ensures result[..] == CtrMode(hmac, key, msg)
    ensures result.Length == |msg| && forall k | 0 <= k < |msg| ::
      result[k] == MaskedByte(msg[k], hmac(key, ENCRYPTION_KEY_TAG + LittleEndian(k / 32, 8)), k % 32)
  {
    result := new bv8[|msg|];
    var i := 0;
    while i * BLOCK_SIZE < |msg|
      invariant 0 <= i && (i > 0 ==> (i - 1) * BLOCK_SIZE < |msg|)
      invariant forall k | 0 <= k < i * BLOCK_SIZE && k < |msg| :: result[k] == CtrMode(hmac, key, msg)[k]
      decreases |msg| - i * BLOCK_SIZE
    {
      hide CtrInput, CtrMode;
      var end := if (i + 1) * BLOCK_SIZE < |msg| then (i + 1) * BLOCK_SIZE else |msg|;
      var block := msg[i * BLOCK_SIZE..end];
      var mask := hmac(key, CtrInput(i));
      var encryptedBlock := Xor(block, mask);
      forall k | 0 <= k < |block| {
        result[i * BLOCK_SIZE + k] := encryptedBlock[k];
      }
      forall k | i * BLOCK_SIZE <= k < end
        ensures result[k] == CtrMode(hmac, key, msg)[k]
      {
        var c := k - i * BLOCK_SIZE;
        CtrModeAt(hmac, key, msg, i, c);
        assert result[i * BLOCK_SIZE + c] == encryptedBlock[c];
      }
      i := i + 1;
    }
    hide CtrInput, CtrMode;
    forall k | 0 <= k < |msg|
      ensures result[k] == MaskedByte(msg[k], hmac(key, ENCRYPTION_KEY_TAG + LittleEndian(k / 32, 8)), k % 32)
    {
      CtrModeByte(hmac, key, msg, k);
    }
  }

  // A byte masked with the c-th byte of a block's mask; a missing byte of the mask counts as zero.
  function MaskedByte(b: bv8, mask: bytes, c: nat): bv8 {
    if c < |mask| then b ^ mask[c] else b
  }

  lemma CtrModeByte(hmac: Prf, key: bytes, msg: bytes, k: nat)
    requires k < |msg|
    ensures CtrMode(hmac, key, msg)[k]
         == MaskedByte(msg[k], hmac(key, ENCRYPTION_KEY_TAG + LittleEndian(k / 32, 8)), k % 32)
  {
    assert CtrInput(k / 32) == ENCRYPTION_KEY_TAG + LittleEndian(k / 32, 8);
    hide LittleEndian, CtrInput;
    CtrModeAt(hmac, key, msg, k / 32, k % 32);
  }

  lemma BlockOf(i: nat, c: nat)
    requires c < 32
    ensures (i * BLOCK_SIZE + c) / BLOCK_SIZE == i && (i * BLOCK_SIZE + c) % BLOCK_SIZE == c
  {
  }

  lemma CtrModeAt(hmac: Prf, key: bytes, msg: bytes, i: nat, c: nat)
    requires c < 32 && i * BLOCK_SIZE + c < |msg|
    ensures var k, mask := i * BLOCK_SIZE + c, hmac(key, CtrInput(i));
      CtrMode(hmac, key, msg)[k] == if c < |mask| then msg[k] ^ mask[c] else msg[k]
  {
    BlockOf(i, c);
    hide CtrInput;
  }

  // The same pass decrypts.
  lemma CtrModeTwice(hmac: Prf, key: bytes, msg: bytes)
    ensures CtrMode(hmac, key, CtrMode(hmac, key, msg)) == msg
  {
  }

  // A ciphertext decrypts to msg exactly when it is what encrypting msg with its own
  // associated data produces.
  lemma DecryptIff(hmac: Prf, key: bytes, ciphertext: Ciphertext, msg: bytes)
    ensures Decrypt(hmac, key, ciphertext) == Ok(msg)
      <==> |key| == 32 && ciphertext == Encrypt(hmac, key, msg, ciphertext.aad)
  {
    hide CtrMode, MacInput;
    CtrModeTwice(hmac, key, msg);
    CtrModeTwice(hmac, key, ciphertext.blob);
  }

  // Different associated data or ciphertexts are authenticated by different hash inputs.
  lemma MacInputInjective(a: bytes, b: bytes, c: bytes, d: bytes)
    requires |a| < Pow256(8) && |c| < Pow256(8)
    requires MacInput(a, b) == MacInput(c, d)
    ensures a == c && b == d
  {
    hide Pow256, LittleEndian;
    var x, y := LittleEndian(|a|, 8), LittleEndian(|c|, 8);
    assert x == MacInput(a, b)[12..20] == y;
    LittleEndianRoundTrip(|a|, 8);
    LittleEndianRoundTrip(|c|, 8);
    assert a == MacInput(a, b)[20..20 + |a|];
    assert c == MacInput(c, d)[20..20 + |c|];
    assert b == MacInput(a, b)[20 + |a|..];
    assert d == MacInput(c, d)[20 + |c|..];
  }

  // A ciphertext is accepted exactly when the key has 32 bytes and the MAC is the keyed hash of the
  // length of the associated data, the associated data and the masked message.
  lemma AcceptedIff(hmac: Prf, key: bytes, blob: bytes, aad: bytes, mac: bytes)
    ensures Decrypt(hmac, key, Hmac256Ctr(blob, aad, mac)).Ok?
      <==> |key| == 32 && mac == hmac(key, MAC_KEY_TAG + LittleEndian(|aad|, 8) + aad + blob)
    ensures Decrypt(hmac, key, Hmac256Ctr(blob, aad, mac))
      == if |key| != 32 then Err(WrongKeyLength)
         else if mac != hmac(key, MAC_KEY_TAG + LittleEndian(|aad|, 8) + aad + blob) then Err(InvalidMac)
         else Ok(CtrMode(hmac, key, blob))
  {
    assert MacInput(aad, blob) == MAC_KEY_TAG + LittleEndian(|aad|, 8) + aad + blob;
    hide CtrMode, LittleEndian, MacInput;
  }

  // Two accepted ciphertexts with one MAC but different associated data or masked messages are a
  // collision of the keyed hash.
  lemma TamperedIsCollision(hmac: Prf, key: bytes, c: Ciphertext, d: Ciphertext)
    requires c.Hmac256Ctr? && d.Hmac256Ctr? && |c.aad| < Pow256(8) && |d.aad| < Pow256(8)
    requires Decrypt(hmac, key, c).Ok? && Decrypt(hmac, key, d).Ok? && c.mac == d.mac
    requires c.aad != d.aad || c.blob != d.blob
    ensures exists x, y :: x != y && hmac(key, x) == hmac(key, y)
  {
    hide CtrMode, MacInput, Pow256;
    var x, y := MacInput(c.aad, c.blob), MacInput(d.aad, d.blob);
    if x == y {
      MacInputInjective(c.aad, c.blob, d.aad, d.blob);
    }
    assert hmac(key, x) == hmac(key, y);
  }

  // No counter block is ever hashed as a MAC, and different counters give different inputs.
  lemma InputsSeparated(i: nat, j: nat, aad: bytes, ciphertext: bytes)
    requires i < Pow256(8) && j < Pow256(8)
    ensures CtrInput(i) != MacInput(aad, ciphertext)
    ensures CtrInput(i) == CtrInput(j) ==> i == j
  {
    hide Pow256, LittleEndian;
    assert CtrInput(i)[9] == 0x45 && MacInput(aad, ciphertext)[9] == 0x4d;
    LittleEndianRoundTrip(i, 8);
    LittleEndianRoundTrip(j, 8);
    assert LittleEndian(i, 8) == CtrInput(i)[12..];
    assert LittleEndian(j, 8) == CtrInput(j)[12..];
  }
}
