// ULEB128 integers (section 7.6 of DWARF Version 5), as lengths and enum indices are written.

module Uleb {
  import opened Wrappers

  type byte = n: nat | n < 256
  type bytes = seq<byte>

  // Number.MAX_SAFE_INTEGER.
  const MAX_SAFE_INTEGER := 0x1F_FFFF_FFFF_FFFF

  datatype UlebError = BufferOverflow | ExceedsMaxSafeInteger

  // Seven bits a byte, low bits first, the top bit set on all bytes but the last.
  function Encoding(n: nat): (b: bytes)
    ensures |b| > 0
  {
    if n < 128 then [n] else [128 + n % 128] + Encoding(n / 128)
  }

  lemma EncodingStep(n: nat)
    ensures n < 128 ==> Encoding(n) == [n]
    ensures n >= 128 ==> Encoding(n) == [128 + n % 128] + Encoding(n / 128)
  {
  }

  // ulebEncode; a negative number never enters the loop.
  method UlebEncode(num: int) returns (arr: bytes)
    ensures num >= 0 ==> arr == Encoding(num)
    ensures num < 0 ==> arr == []
  {
    var bigNum := num;
    arr := [];
    if bigNum == 0 {
      return [0];
    }
    hide Encoding;
    while bigNum > 0
      invariant num < 0 ==> bigNum == num && arr == []
      invariant num >= 0 ==> bigNum >= 0 && arr + (if bigNum > 0 then Encoding(bigNum) else []) == Encoding(num)
    {
      ghost var before := arr + Encoding(bigNum);
      EncodingStep(bigNum);
      var low := bigNum % 128;
      bigNum := bigNum / 128;
      var flag := if bigNum > 0 then 128 else 0;
      assert before == arr + [flag + low] + (if bigNum > 0 then Encoding(bigNum) else []);
      arr := arr + [flag + low];
    }
  }

  // The number at the head of the bytes and how many bytes it takes; nothing when they run out.
  function Decoding(arr: bytes): (r: Option<(nat, nat)>)
    ensures r.Some? ==> 0 < r.value.1 <= |arr|
  {
    if arr == [] then None
    else if arr[0] < 128 then Some((arr[0], 1))
    else match Decoding(arr[1..])
      case None => None
      case Some(tail) => Some((arr[0] - 128 + 128 * tail.0, tail.1 + 1))
  }

  function Pow128(k: nat): nat {
    if k == 0 then 1 else 128 * Pow128(k - 1)
  }

  function Times(p: nat, x: nat): nat {
    p * x
  }

  // The numbers the loop has seen so far, put before the rest.
  function Prepend(total: nat, len: nat, rest: Option<(nat, nat)>): Option<(nat, nat)> {
    match rest
    case None => None
    case Some(tail) => Some((total + Times(Pow128(len), tail.0), len + tail.1))
  }

  lemma PrependStep(total: nat, len: nat, arr: bytes)
    requires arr != [] && arr[0] >= 128
    ensures Prepend(total, len, Decoding(arr))
         == Prepend(total + Times(Pow128(len), arr[0] - 128), len + 1, Decoding(arr[1..]))
  {
    hide Times;
    match Decoding(arr[1..])
    case None =>
    case Some(tail) =>
      Distribute(Pow128(len), arr[0] - 128, tail.0);
  }

  lemma Distribute(p: nat, low: nat, high: nat)
    ensures Times(p, low + 128 * high) == Times(p, low) + Times(128 * p, high)
  {
  }

  lemma PrependNothing(arr: bytes)
    ensures Prepend(0, 0, Decoding(arr)) == Decoding(arr)
  {
  }

  lemma PrependLast(total: nat, len: nat, arr: bytes)
    requires arr != [] && arr[0] < 128
    ensures Prepend(total, len, Decoding(arr)) == Some((total + Times(Pow128(len), arr[0]), len + 1))
  {
  }

  // ulebDecode.
  method UlebDecode(arr: bytes) returns (r: Result<(nat, nat), UlebError>)
    ensures match Decoding(arr)
      case None => r == Err(BufferOverflow)
      case Some(d) => r == if d.0 > MAX_SAFE_INTEGER then Err(ExceedsMaxSafeInteger) else Ok(d)
  {
    hide Times, Prepend;
    var total: nat, len: nat := 0, 0;
    // 2^shift
    var unit: nat := 1;
    PrependNothing(arr);
    assert arr[0..] == arr;
    while true
      invariant len <= |arr| && unit == Pow128(len)
      invariant Decoding(arr) == Prepend(total, len, Decoding(arr[len..]))
      decreases |arr| - len
    {
      if len >= |arr| {
        assert arr[len..] == [];
        PrependEmpty(total, len);
        return Err(BufferOverflow);
      }
      hide Decoding;
      var rest := arr[len..];
      var b := arr[len];
      assert rest[0] == b && rest[1..] == arr[len + 1..];
      len := len + 1;
      total := total + Times(unit, b % 128);
      if b < 128 {
        PrependLast(total - Times(unit, b), len - 1, rest);
        break;
      }
      PrependStep(total - Times(unit, b - 128), len - 1, rest);
      unit := unit * 128;
    }
    if total > MAX_SAFE_INTEGER {
      return Err(ExceedsMaxSafeInteger);
    }
    return Ok((total, len));
  }

  lemma PrependEmpty(total: nat, len: nat)
    ensures Prepend(total, len, Decoding([])) == None
  {
  }

  // Reading back a written number gives it and leaves whatever follows.
  lemma {:induction false} UlebRoundTrip(n: nat, suffix: bytes)
    ensures Decoding(Encoding(n) + suffix) == Some((n, |Encoding(n)|))
  {
    if n >= 128 {
      UlebRoundTrip(n / 128, suffix);
      var b := Encoding(n) + suffix;
      assert b[1..] == Encoding(n / 128) + suffix;
    }
  }

  // The number without its i lowest groups of seven bits.
  function Groups(n: nat, i: nat): nat {
    if i == 0 then n else Groups(n / 128, i - 1)
  }

  // What is written, byte by byte: byte i holds the i-th group, with the top bit set unless it is the
  // last, and the last of several is not zero.
  lemma {:induction false} EncodingDigits(n: nat, i: nat)
    requires i < |Encoding(n)|
    ensures i < |Encoding(n)| - 1 ==> Encoding(n)[i] == 128 + Groups(n, i) % 128
    ensures i == |Encoding(n)| - 1 ==> Encoding(n)[i] == Groups(n, i) && (i > 0 ==> Groups(n, i) > 0)
    decreases i
  {
    if i > 0 {
      EncodingDigits(n / 128, i - 1);
    }
  }

  // The decoder also takes longer encodings: the bytes it read are the encoding of their value
  // exactly when the last of several bytes is not zero.
  lemma {:induction false} MinimalIff(arr: bytes)
    requires Decoding(arr).Some?
    ensures var d := Decoding(arr).value;
      Encoding(d.0) == arr[..d.1] <==> d.1 == 1 || arr[d.1 - 1] != 0
  {
    var d := Decoding(arr).value;
    if arr[0] < 128 {
      assert arr[..1] == [arr[0]];
    } else {
      var t := Decoding(arr[1..]).value;
      MinimalIff(arr[1..]);
      assert arr[..d.1] == [arr[0]] + arr[1..][..t.1];
      assert arr[1..][t.1 - 1] == arr[d.1 - 1];
      ValueZeroIff(arr[1..]);
    }
  }

  lemma {:induction false} ValueZeroIff(arr: bytes)
    requires Decoding(arr).Some?
    ensures var d := Decoding(arr).value;
      && (d.0 == 0 ==> arr[d.1 - 1] == 0)
      && (d.1 == 1 ==> d.0 == arr[0])
      && (arr[d.1 - 1] != 0 ==> d.0 > 0)
  {
    if arr[0] >= 128 {
      ValueZeroIff(arr[1..]);
      var d := Decoding(arr).value;
      assert arr[1..][d.1 - 2] == arr[d.1 - 1];
    }
  }
}
