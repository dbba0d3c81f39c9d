// The cursor-based little-endian reader.

module Reading {
  import opened Wrappers
  import opened Uleb
  import opened Writing

  datatype ReadError = OutOfBounds | BadUleb(cause: UlebError) | InvalidLength | UnknownVariant

  function FromLittle(b: bytes): nat {
    if b == [] then 0 else b[0] + 256 * FromLittle(b[1..])
  }

  lemma {:induction false} LittleRoundTrip(n: nat, size: nat)
    requires n < Pow256(size)
    ensures FromLittle(Little(n, size)) == n
    decreases size
  {
    if size > 0 {
      LittleRoundTrip(n / 256, size - 1);
      assert Little(n, size)[1..] == Little(n / 256, size - 1);
    }
  }

  lemma {:induction false} FromLittleBound(b: bytes)
    ensures FromLittle(b) < Pow256(|b|)
  {
    if b != [] {
      FromLittleBound(b[1..]);
    }
  }

  // ---------- Hexadecimal strings, as the wide readers join their halves ----------

  function Pow16(k: nat): nat {
    if k == 0 then 1 else 16 * Pow16(k - 1)
  }

  // toString(16).
  function HexDigits(n: nat): (s: seq<nat>)
    ensures |s| > 0
  {
    if n < 16 then [n] else HexDigits(n / 16) + [n % 16]
  }

  // padStart(width, '0').
  function PadStart(s: seq<nat>, width: nat): seq<nat> {
    if |s| >= width then s else seq(width - |s|, i => 0) + s
  }

  // BigInt('0x' + s).
  function FromHex(s: seq<nat>): nat {
    if s == [] then 0 else FromHex(s[..|s| - 1]) * 16 + s[|s| - 1]
  }

  lemma {:induction false} FromHexDigits(n: nat)
    ensures FromHex(HexDigits(n)) == n
  {
    if n >= 16 {
      FromHexDigits(n / 16);
      assert HexDigits(n)[..|HexDigits(n)| - 1] == HexDigits(n / 16);
    } else {
      assert [n][..0] == [];
    }
  }

  lemma {:induction false} HexLength(n: nat, width: nat)
    requires width > 0 && n < Pow16(width)
    ensures |HexDigits(n)| <= width
  {
    if n >= 16 {
      HexLength(n / 16, width - 1);
    }
  }

  lemma {:induction false} FromHexConcat(a: seq<nat>, b: seq<nat>)
    ensures FromHex(a + b) == FromHex(a) * Pow16(|b|) + FromHex(b)
  {
    if b == [] {
      assert a + b == a;
    } else {
      var front := b[..|b| - 1];
      FromHexConcat(a, front);
      assert (a + b)[..|a + b| - 1] == a + front;
      ConcatStep(FromHex(a), Pow16(|front|), FromHex(front), b[|b| - 1]);
    }
  }

  lemma ConcatStep(a: nat, p: nat, f: nat, d: nat)
    ensures (a * p + f) * 16 + d == a * (16 * p) + (f * 16 + d)
  {
    assert (a * p) * 16 == a * (16 * p);
  }

  lemma {:induction false} FromHexZeros(k: nat)
    ensures FromHex(seq(k, i => 0)) == 0
  {
    if k > 0 {
      FromHexZeros(k - 1);
      assert seq(k, i => 0)[..k - 1] == seq(k - 1, i => 0);
    }
  }

  // Joining the digits of two halves, the low one padded, is adding them at their places.
  lemma JoinHalves(high: nat, low: nat, width: nat)
    requires width > 0 && low < Pow16(width)
    ensures FromHex(HexDigits(high) + PadStart(HexDigits(low), width)) == low + Pow16(width) * high
  {
    hide Pow16, HexDigits, FromHex;
    var d := HexDigits(low);
    HexLength(low, width);
    var zeros := seq(width - |d|, i => 0);
    assert PadStart(d, width) == zeros + d;
    FromHexConcat(zeros, d);
    FromHexZeros(width - |d|);
    FromHexDigits(low);
    FromHexDigits(high);
    FromHexConcat(HexDigits(high), zeros + d);
    assert 0 * Pow16(|d|) == 0;
    TimesCommute(high, Pow16(width));
  }

  lemma TimesCommute(a: nat, b: nat)
    ensures a * b == b * a
  {
  }

  // ---------- Halves of a little-endian integer ----------

  lemma {:induction false} FromLittleConcat(a: bytes, b: bytes)
    ensures FromLittle(a + b) == FromLittle(a) + Pow256(|a|) * FromLittle(b)
  {
    if a == [] {
      assert a + b == b;
    } else {
      FromLittleConcat(a[1..], b);
      assert (a + b)[1..] == a[1..] + b;
      LittleStepUp(a[0], FromLittle(a[1..]), Pow256(|a| - 1), FromLittle(b));
    }
  }

  lemma LittleStepUp(d: nat, f: nat, p: nat, g: nat)
    ensures d + 256 * (f + p * g) == d + 256 * f + (256 * p) * g
  {
    assert 256 * (p * g) == (256 * p) * g;
  }

  lemma {:induction false} Pow16IsPow256(k: nat)
    ensures Pow16(2 * k) == Pow256(k)
  {
    if k > 0 {
      Pow16IsPow256(k - 1);
      assert Pow16(2 * k - 1) == 16 * Pow16(2 * (k - 1));
    }
  }

  // The number a wide reader builds from two reads of half the width.
  function Joined(low: nat, high: nat, half: nat): nat {
    FromHex(HexDigits(high) + PadStart(HexDigits(low), 2 * half))
  }

  lemma JoinedIs(a: bytes, b: bytes)
    requires |a| > 0
    ensures Joined(FromLittle(a), FromLittle(b), |a|) == FromLittle(a + b)
  {
    hide Pow16, Pow256, FromLittle, FromHex;
    FromLittleBound(a);
    Pow16IsPow256(|a|);
    JoinHalves(FromLittle(b), FromLittle(a), 2 * |a|);
    FromLittleConcat(a, b);
  }

  // ---------- The reader ----------

  class BcsReader {
    // The underlying buffer and the view on it.
    const buffer: bytes
    const byteOffset: nat
    const byteLength: nat
    var bytePosition: nat

    ghost predicate Valid() {
      byteOffset + byteLength <= |buffer|
    }

    // The view reaches the end of the buffer and the cursor is inside.
    ghost predicate Whole()
      reads this
    {
      byteOffset + byteLength == |buffer| && bytePosition <= byteLength
    }

    // What is left to read.
    ghost function Rest(): bytes
      requires Whole()
      reads this
    {
      buffer[byteOffset + bytePosition..]
    }

    constructor (buffer: bytes, byteOffset: nat, byteLength: nat)
      requires byteOffset + byteLength <= |buffer|
      ensures Valid() && bytePosition == 0
      ensures this.buffer == buffer && this.byteOffset == byteOffset && this.byteLength == byteLength
    {
      this.buffer := buffer;
      this.byteOffset := byteOffset;
      this.byteLength := byteLength;
      bytePosition := 0;
    }

    // The DataView getters are bounded by the view.
    method GetUint(width: nat) returns (r: Result<nat, ReadError>)
      requires Valid()
      modifies `bytePosition
      ensures r.Ok? <==> old(bytePosition) + width <= byteLength
      ensures r.Ok? ==> bytePosition == old(bytePosition) + width
      ensures r.Ok? ==>
        r.value == FromLittle(buffer[byteOffset + old(bytePosition)..byteOffset + old(bytePosition) + width])
      ensures r.Err? ==> r == Err(OutOfBounds) && bytePosition == old(bytePosition)
    {
      if bytePosition + width > byteLength {
        return Err(OutOfBounds);
      }
      var start := byteOffset + bytePosition;
      bytePosition := bytePosition + width;
      return Ok(FromLittle(buffer[start..start + width]));
    }

    method Read8() returns (r: Result<nat, ReadError>)
      requires Valid()
      modifies `bytePosition
      ensures r.Ok? <==> old(bytePosition) + 1 <= byteLength
      ensures r.Ok? ==> bytePosition == old(bytePosition) + 1 && r.value == buffer[byteOffset + old(bytePosition)]
      ensures r.Err? ==> r == Err(OutOfBounds)
    {
      r := GetUint(1);
    }

    method Read16() returns (r: Result<nat, ReadError>)
      requires Valid()
      modifies `bytePosition
      ensures r.Ok? <==> old(bytePosition) + 2 <= byteLength
      ensures r.Ok? ==> bytePosition == old(bytePosition) + 2
      ensures r.Ok? ==>
        r.value == FromLittle(buffer[byteOffset + old(bytePosition)..byteOffset + old(bytePosition) + 2])
      ensures r.Err? ==> r == Err(OutOfBounds)
    {
      r := GetUint(2);
    }

    method Read32() returns (r: Result<nat, ReadError>)
      requires Valid()
      modifies `bytePosition
      ensures r.Ok? <==> old(bytePosition) + 4 <= byteLength
      ensures r.Ok? ==> bytePosition == old(bytePosition) + 4
      ensures r.Ok? ==>
        r.value == FromLittle(buffer[byteOffset + old(bytePosition)..byteOffset + old(bytePosition) + 4])
      ensures r.Err? ==> r == Err(OutOfBounds)
    {
      r := GetUint(4);
    }

    method Read64() returns (r: Result<nat, ReadError>)
      requires Valid()
      modifies `bytePosition
      ensures r.Ok? <==> old(bytePosition) + 8 <= byteLength
      ensures r.Ok? ==> bytePosition == old(bytePosition) + 8
      ensures r.Ok? ==>
        r.value == FromLittle(buffer[byteOffset + old(bytePosition)..byteOffset + old(bytePosition) + 8])
      ensures r.Err? ==> r == Err(OutOfBounds)
    {
      hide FromLittle, Joined;
      var value1 :- Read32();
      var value2 :- Read32();
      Halves(old(bytePosition), 4);
      return Ok(Joined(value1, value2, 4));
    }

    method Read128() returns (r: Result<nat, ReadError>)
      requires Valid()
      modifies `bytePosition
      ensures r.Ok? <==> old(bytePosition) + 16 <= byteLength
      ensures r.Ok? ==> bytePosition == old(bytePosition) + 16
      ensures r.Ok? ==>
        r.value == FromLittle(buffer[byteOffset + old(bytePosition)..byteOffset + old(bytePosition) + 16])
      ensures r.Err? ==> r == Err(OutOfBounds)
    {
      hide FromLittle, Joined;
      var value1 :- Read64();
      var value2 :- Read64();
      Halves(old(bytePosition), 8);
      return Ok(Joined(value1, value2, 8));
    }

    method Read256() returns (r: Result<nat, ReadError>)
      requires Valid()
      modifies `bytePosition
      ensures r.Ok? <==> old(bytePosition) + 32 <= byteLength
      ensures r.Ok? ==> bytePosition == old(bytePosition) + 32
      ensures r.Ok? ==>
        r.value == FromLittle(buffer[byteOffset + old(bytePosition)..byteOffset + old(bytePosition) + 32])
      ensures r.Err? ==> r == Err(OutOfBounds)
    {
      hide FromLittle, Joined;
      var value1 :- Read128();
      var value2 :- Read128();
      Halves(old(bytePosition), 16);
      return Ok(Joined(value1, value2, 16));
    }

    // The two halves at a position join to the number of both.
    lemma Halves(position: nat, half: nat)
      requires Valid() && half > 0 && position + 2 * half <= byteLength
      ensures var start := byteOffset + position;
        Joined(FromLittle(buffer[start..start + half]), FromLittle(buffer[start + half..start + 2 * half]), half)
        == FromLittle(buffer[start..start + 2 * half])
    {
      hide FromLittle, Joined;
      var start := byteOffset + position;
      var a, b := buffer[start..start + half], buffer[start + half..start + 2 * half];
      assert buffer[start..start + 2 * half] == a + b;
      JoinedIs(a, b);
    }

    // The byte view is made on the underlying buffer, so it may reach past the end of the view.
    method ReadBytes(num: nat) returns (r: Result<bytes, ReadError>)
      requires Valid()
      modifies `bytePosition
      ensures r.Ok? <==> byteOffset + old(bytePosition) + num <= |buffer|
      ensures r.Ok? ==> bytePosition == old(bytePosition) + num
      ensures r.Ok? ==> r.value == buffer[byteOffset + old(bytePosition)..byteOffset + old(bytePosition) + num]
      ensures r.Err? ==> r == Err(OutOfBounds)
    {
      var start := bytePosition + byteOffset;
      if start + num > |buffer| {
        return Err(OutOfBounds);
      }
      bytePosition := bytePosition + num;
      return Ok(buffer[start..start + num]);
    }

    // Decodes from the underlying buffer as well.
    method ReadULEB() returns (r: Result<nat, ReadError>)
      requires Valid()
      modifies `bytePosition
      ensures byteOffset + old(bytePosition) > |buffer| ==> r == Err(OutOfBounds)
      ensures byteOffset + old(bytePosition) <= |buffer| ==>
        match Decoding(buffer[byteOffset + old(bytePosition)..])
        case None => r == Err(BadUleb(BufferOverflow))
        case Some(d) =>
          if d.0 > MAX_SAFE_INTEGER then r == Err(BadUleb(ExceedsMaxSafeInteger))
          else r == Ok(d.0) && bytePosition == old(bytePosition) + d.1
    {
      var start := bytePosition + byteOffset;
      if start > |buffer| {
        return Err(OutOfBounds);
      }
      var decoded := UlebDecode(buffer[start..]);
      if decoded.Err? {
        return Err(BadUleb(decoded.error));
      }
      bytePosition := bytePosition + decoded.value.1;
      return Ok(decoded.value.0);
    }
  }
}
