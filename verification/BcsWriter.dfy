// The growable little-endian writer.

module Writing {
  import opened Wrappers
  import opened Uleb

  datatype WriteError = BufferFull | InvalidValue

  function Pow256(k: nat): (p: nat)
    ensures p > 0
  {
    if k == 0 then 1 else 256 * Pow256(k - 1)
  }

  // The low size bytes of n, lowest first.
  function Little(n: nat, size: nat): (b: bytes)
    ensures |b| == size
    decreases size
  {
    if size == 0 then [] else [n % 256] + Little(n / 256, size - 1)
  }

  // The number without its i lowest bytes.
  function Upper(n: nat, i: nat): nat {
    if i == 0 then n else Upper(n / 256, i - 1)
  }

  // Byte i of a little-endian number.
  lemma {:induction false} LittleAt(n: nat, size: nat, i: nat)
    requires i < size
    ensures Little(n, size)[i] == Upper(n, i) % 256
  {
    if i > 0 {
      LittleAt(n / 256, size - 1, i - 1);
    }
  }

  function Zeros(size: nat): (b: bytes)
    ensures |b| == size
  {
    seq(size, i => 0)
  }

  lemma {:induction false} LittleZero(size: nat)
    ensures Little(0, size) == Zeros(size)
  {
    if size > 0 {
      LittleZero(size - 1);
    }
  }

  lemma LittleStep(n: nat, size: nat)
    requires size > 0
    ensures Little(n, size) == [n % 256] + Little(n / 256, size - 1)
  {
  }

  // toLittleEndian: the loop divides until nothing is left; writes past the end of a typed array
  // are dropped and a negative number never enters the loop.
  method ToLittleEndian(n: int, size: nat) returns (result: array<byte>)
    ensures fresh(result) && result.Length == size
    ensures n >= 0 ==> result[..] == Little(n, size)
    ensures n < 0 ==> result[..] == Zeros(size)
  {
    hide Little;
    result := new byte[size](i => 0);
    var bigint, i := n, 0;
    while bigint > 0
      invariant i >= 0 && (n < 0 ==> bigint == n && i == 0)
      invariant n >= 0 ==> bigint >= 0
      invariant n >= 0 && i <= size ==> result[..i] + Little(bigint, size - i) == Little(n, size)
      invariant i > size ==> result[..] == Little(n, size)
      invariant forall k | i <= k < size :: result[k] == 0
      decreases bigint
    {
      if i < size {
        LittleStep(bigint, size - i);
        result[i] := bigint % 256;
        assert result[..i + 1] == result[..i] + [bigint % 256];
      } else if i == size {
        LittleNothing(bigint);
      }
      bigint := bigint / 256;
      i := i + 1;
    }
    if n >= 0 && i <= size {
      LittleZero(size - i);
      assert result[..] == result[..i] + Zeros(size - i);
    }
  }

  lemma LittleNothing(n: nat)
    ensures Little(n, 0) == []
  {
  }

  // ---------- The writer ----------

  class BcsWriter {
    var dataView: array<byte>
    var bytePosition: nat
    var size: nat
    // None is Infinity.
    const maxSize: Option<nat>
    const allocateSize: nat

    ghost predicate Valid()
      reads this
    {
      dataView.Length == size && bytePosition <= size
    }

    // What toBytes returns.
    ghost function Contents(): bytes
      requires Valid()
      reads this, dataView
    {
      dataView[..bytePosition]
    }

    // The size the buffer can reach: the larger of its present and its maximal size.
    ghost predicate Room(n: nat)
      reads this
    {
      bytePosition + n <= size || maxSize.None? || bytePosition + n <= maxSize.value
    }

    // The position up to which Room allows writing; it never changes.
    ghost function Limit(): Option<nat>
      reads this
    {
      if maxSize.None? then None else Some(if maxSize.value < size then size else maxSize.value)
    }

    constructor (initialSize: nat := 1024, maxSize: Option<nat> := None, allocateSize: nat := 1024)
      ensures Valid() && Contents() == [] && fresh(dataView)
      ensures size == initialSize && this.maxSize == maxSize && this.allocateSize == allocateSize
    {
      size := initialSize;
      this.maxSize := maxSize;
      this.allocateSize := allocateSize;
      dataView := new byte[initialSize](i => 0);
      bytePosition := 0;
    }

    // Grows by at least the required and the allocation size, cut at the maximum; a grow step
    // keeps every written byte, and only a lack of room throws.
    method EnsureSizeOrGrow(n: nat) returns (r: Outcome<WriteError>)
      requires Valid()
      modifies `dataView, `size
      ensures Valid() && Limit() == old(Limit()) && Contents() == old(Contents())
      ensures r == if old(Room(n)) then Pass else Fail(BufferFull)
      ensures r.Pass? ==> bytePosition + n <= size
      ensures dataView == old(dataView) || fresh(dataView)
      ensures r.Fail? ==> dataView == old(dataView) && size == old(size)
    {
      var requiredSize := bytePosition + n;
      if requiredSize > size {
        var grown := if size + requiredSize > size + allocateSize then size + requiredSize else size + allocateSize;
        var nextSize := if maxSize.Some? && maxSize.value < grown then maxSize.value else grown;
        if requiredSize > nextSize {
          return Fail(BufferFull);
        }
        var nextBuffer := new byte[nextSize](i => 0);
        for i := 0 to size
          invariant size <= nextSize && dataView.Length == size == old(size) && dataView == old(dataView)
          invariant nextBuffer[..i] == dataView[..i]
          invariant dataView[..] == old(dataView[..])
        {
          nextBuffer[i] := dataView[i];
        }
        assert nextBuffer[..bytePosition] == nextBuffer[..size][..bytePosition];
        size := nextSize;
        dataView := nextBuffer;
      }
      return Pass;
    }

    // setUint8 keeps the low byte.
    method Write8(value: nat) returns (r: Outcome<WriteError>)
      requires Valid()
      modifies this, dataView
      ensures Valid() && Limit() == old(Limit()) && (dataView == old(dataView) || fresh(dataView))
      ensures r == if old(Room(1)) then Pass else Fail(BufferFull)
      ensures Contents() == if r.Pass? then old(Contents()) + [value % 256] else old(Contents())
    {
      r := EnsureSizeOrGrow(1);
      if r.Fail? {
        return;
      }
      dataView[bytePosition] := value % 256;
      bytePosition := bytePosition + 1;
      return Pass;
    }

    method WriteBytes(bs: bytes) returns (r: Outcome<WriteError>)
      requires Valid()
      modifies this, dataView
      ensures Valid() && Limit() == old(Limit()) && (dataView == old(dataView) || fresh(dataView))
      ensures r == if old(Room(|bs|)) then Pass else Fail(BufferFull)
      ensures Contents() == if r.Pass? then old(Contents()) + bs else old(Contents())
    {
      r := EnsureSizeOrGrow(|bs|);
      if r.Fail? {
        return;
      }
      for i := 0 to |bs|
        invariant Valid() && bytePosition == old(bytePosition) && bytePosition + |bs| <= size
        invariant dataView == old(dataView) || fresh(dataView)
        invariant Limit() == old(Limit())
        invariant dataView[..bytePosition + i] == old(Contents()) + bs[..i]
      {
        dataView[bytePosition + i] := bs[i];
        assert dataView[..bytePosition + i + 1] == dataView[..bytePosition + i] + [bs[i]];
      }
      bytePosition := bytePosition + |bs|;
      assert bs[..|bs|] == bs;
      return Pass;
    }

    // setUint16, little-endian: the low two bytes.
    method Write16(value: nat) returns (r: Outcome<WriteError>)
      requires Valid()
      modifies this, dataView
      ensures Valid() && Limit() == old(Limit()) && (dataView == old(dataView) || fresh(dataView))
      ensures r == if old(Room(2)) then Pass else Fail(BufferFull)
      ensures Contents() == if r.Pass? then old(Contents()) + Little(value, 2) else old(Contents())
    {
      r := SetUint(value, 2);
    }

    // setUint32, little-endian: the low four bytes.
    method Write32(value: nat) returns (r: Outcome<WriteError>)
      requires Valid()
      modifies this, dataView
      ensures Valid() && Limit() == old(Limit()) && (dataView == old(dataView) || fresh(dataView))
      ensures r == if old(Room(4)) then Pass else Fail(BufferFull)
      ensures Contents() == if r.Pass? then old(Contents()) + Little(value, 4) else old(Contents())
    {
      r := SetUint(value, 4);
    }

    // The DataView setters: all bytes or none.
    method SetUint(value: nat, width: nat) returns (r: Outcome<WriteError>)
      requires Valid()
      modifies this, dataView
      ensures Valid() && Limit() == old(Limit()) && (dataView == old(dataView) || fresh(dataView))
      ensures r == if old(Room(width)) then Pass else Fail(BufferFull)
      ensures Contents() == if r.Pass? then old(Contents()) + Little(value, width) else old(Contents())
    {
      r := WriteBytes(Little(value, width));
    }

    // forEach write8: the bytes before the one without room stay written.
    method WriteEach(bs: bytes) returns (r: Outcome<WriteError>)
      requires Valid()
      modifies this, dataView
      ensures Valid() && Limit() == old(Limit()) && (dataView == old(dataView) || fresh(dataView))
      ensures r == if old(Room(|bs|)) then Pass else Fail(BufferFull)
      ensures r.Pass? ==> Contents() == old(Contents()) + bs
      ensures r.Fail? ==> old(Contents()) <= Contents()
    {
      for i := 0 to |bs|
        invariant Valid() && Limit() == old(Limit()) && (dataView == old(dataView) || fresh(dataView))
        invariant bytePosition == old(bytePosition) + i
        invariant Contents() == old(Contents()) + bs[..i]
        invariant i > 0 ==> bytePosition <= size && old(Room(i))
      {
        :- Write8(bs[i]);
      }
      assert bs[..|bs|] == bs;
      return Pass;
    }

    // write64, write128 and write256, by width.
    method WriteBig(value: int, width: nat) returns (r: Outcome<WriteError>)
      requires Valid()
      modifies this, dataView
      ensures Valid() && Limit() == old(Limit()) && (dataView == old(dataView) || fresh(dataView))
      ensures r == if old(Room(width)) then Pass else Fail(BufferFull)
      ensures r.Pass? ==> Contents() == old(Contents()) + if value >= 0 then Little(value, width) else Zeros(width)
    {
      var b := ToLittleEndian(value, width);
      r := WriteEach(b[..]);
    }

    method WriteULEB(value: nat) returns (r: Outcome<WriteError>)
      requires Valid()
      modifies this, dataView
      ensures Valid() && Limit() == old(Limit()) && (dataView == old(dataView) || fresh(dataView))
      ensures r == if old(Room(|Encoding(value)|)) then Pass else Fail(BufferFull)
      ensures r.Pass? ==> Contents() == old(Contents()) + Encoding(value)
    {
      var b := UlebEncode(value);
      r := WriteEach(b);
    }

    method ToBytes() returns (b: bytes)
      requires Valid()
      ensures b == Contents()
    {
      b := dataView[..bytePosition];
    }
  }
}
