// Which byte strings the codec writes back: those it read are written again unless they pad a
// length, spell a Boolean otherwise, hold a null payload or list map keys out of order.

module BcsBytes {
  import opened Wrappers
  import opened Uleb
  import opened Writing
  import opened Reading
  import opened Bcs
  import opened BcsOrder

  // ---------- Strict byte strings ----------

  // The number at the head of the bytes is not padded.
  ghost predicate MinimalUleb(bs: bytes) {
    && Decoding(bs).Some?
    && var len := Decoding(bs).value.1; len == 1 || bs[len - 1] != 0
  }

  predicate StartsWithUleb(t: Schema) {
    t.Uleb128? || t.ByteVector? || t.Text? || t.Vector? || t.Enum? || t.OptionOf? || t.MapOf?
  }

  ghost predicate StrictHead(t: Schema, bs: bytes) {
    && (StartsWithUleb(t) ==> MinimalUleb(bs))
    && (t.Bool? ==> bs != [] && bs[0] < 2)
  }

  // The bytes that reading used up.
  function Used(bs: bytes, rest: bytes): bytes {
    if |rest| <= |bs| then bs[..|bs| - |rest|] else []
  }

  // The bytes of each part.
  function Chunks(ghost bound: Schema, ts: seq<Schema>, bs: bytes): seq<bytes>
    requires forall i | 0 <= i < |ts| :: ts[i] < bound
  {
    if ts == [] || Decode(ts[0], bs).Err? then []
    else
      var rest := Decode(ts[0], bs).value.1;
      [Used(bs, rest)] + Chunks(bound, ts[1..], rest)
  }

  // A key is written after the keys before it, or is an object key with the same bytes.
  ghost predicate KeyAfter(a: bytes, b: bytes, key: Value) {
    Precedes(a, b) || (a == b && !IsPrimitive(key))
  }

  ghost predicate KeysInOrder(chunks: seq<bytes>, vals: seq<Value>) {
    && |chunks| == |vals|
    && forall i, j | 0 <= i < j && 2 * j < |vals| :: KeyAfter(chunks[2 * i], chunks[2 * j], vals[2 * j])
  }

  // On every level: no padded number, Booleans 0 or 1, no null payload, map keys in order.
  ghost predicate Strict(t: Schema, bs: bytes)
    decreases t, 1, 0
  {
    var h := ReadHead(t, bs);
    && h.Ok? && StrictHead(t, bs)
    && var ts := PartTypes(t, h.value.0);
       var parts := DecodeAll(t, ts, h.value.1);
       && parts.Ok?
       && StrictAll(t, ts, h.value.1)
       && (t.Enum? || t.OptionOf? ==> forall v | v in parts.value.0 :: !v.VNull?)
       && (t.MapOf? ==> KeysInOrder(Chunks(t, ts, h.value.1), parts.value.0))
  }

  ghost predicate StrictAll(bound: Schema, ts: seq<Schema>, bs: bytes)
    requires forall i | 0 <= i < |ts| :: ts[i] < bound
    decreases bound, 0, |ts|
  {
    ts == [] || (Strict(ts[0], bs) && Decode(ts[0], bs).Ok? && StrictAll(bound, ts[1..], Decode(ts[0], bs).value.1))
  }

  // ---------- Strict bytes are written back ----------

  lemma UlebWritten(bs: bytes)
    requires MinimalUleb(bs) && TakeUleb(bs).Ok?
    ensures Encoding(TakeUleb(bs).value.0) + TakeUleb(bs).value.1 == bs
  {
    MinimalIff(bs);
  }

  lemma {:induction false} LittleWritten(b: bytes)
    ensures Little(FromLittle(b), |b|) == b
  {
    if b != [] {
      LittleWritten(b[1..]);
      LowByte(b[0], FromLittle(b[1..]));
      LittleStep(FromLittle(b), |b|);
      assert FromLittle(b) == b[0] + 256 * FromLittle(b[1..]);
      hide *;
      assert b == [b[0]] + b[1..];
    }
  }

  lemma LowByte(low: byte, high: nat)
    ensures (low + 256 * high) % 256 == low && (low + 256 * high) / 256 == high
  {
  }

  // The header of a value that has the head read is what was read.
  lemma HeadWritten(t: Schema, bs: bytes, v: Value)
    requires ReadHead(t, bs).Ok? && StrictHead(t, bs)
    requires Shape(t, v) && HeadOf(t, v) == ReadHead(t, bs).value.0 && (t.UInt? ==> v.VInt?)
    ensures Header(t, v) + ReadHead(t, bs).value.1 == bs
  {
    hide MinimalUleb, Encoding, Decoding, TakeUleb, FromLittle, Little;
    if StartsWithUleb(t) {
      UlebTaking(t, bs);
      UlebWritten(bs);
    }
    if t.UInt? {
      LittleWritten(bs[..t.size]);
    }
  }

  lemma UlebTaking(t: Schema, bs: bytes)
    requires StartsWithUleb(t) && ReadHead(t, bs).Ok?
    ensures TakeUleb(bs).Ok?
  {
  }

  function Zip(ts: seq<Schema>, vals: seq<Value>): (ps: seq<Piece>)
    requires |ts| == |vals|
    ensures |ps| == |ts|
  {
    seq(|ts|, i requires 0 <= i < |ts| => (ts[i], vals[i]))
  }

  ghost predicate NoNull(t: Schema, vals: seq<Value>) {
    t.Enum? || t.OptionOf? ==> forall v | v in vals :: !v.VNull?
  }

  // A value that is put together from what was read has that head, and its parts are those read.
  lemma Assembled(t: Schema, bs: bytes, vals: seq<Value>)
    requires WellFormed(t) && ReadHead(t, bs).Ok?
    requires |vals| == |PartTypes(t, ReadHead(t, bs).value.0)| && NoNull(t, vals)
    requires t.MapOf? ==> DistinctKeys(Pairs(vals))
    ensures var h := ReadHead(t, bs).value.0; var v := Assemble(t, h, vals);
      && Shape(t, v) && HeadOf(t, v) == h && (t.UInt? ==> v.VInt?)
      && Parts(t, v) == Zip(PartTypes(t, h), vals)
  {
    hide Decoding, TakeUleb, Pow256, FromLittle, BuildMap, Pairs, DistinctKeys;
    var h := ReadHead(t, bs).value.0;
    if t.UInt? {
      FromLittleBound(bs[..t.size]);
    } else if t.Struct? {
      forall i | 0 <= i < |vals|
        ensures Field(Record(t.members, vals), t.members[i].name) == vals[i]
      {
        RecordAt(t.members, vals, i);
      }
    } else if t.Enum? {
      VariantUnique(t.variants, h.n);
    } else if t.MapOf? {
      BuildPairs(vals);
      InterleavedPairs(t.key, t.value, vals);
    }
  }

  // Accepted parts with the bytes they are written as.
  ghost predicate Written(bound: Schema, ps: seq<Piece>, chunks: seq<bytes>) {
    && |chunks| == |ps|
    && forall i | 0 <= i < |ps| ::
      ps[i].0 < bound && Accepts(ps[i].0, ps[i].1) && chunks[i] == Encode(ps[i].0, ps[i].1)
  }

  // Strict bytes are read as an accepted value, and writing it gives them again.
  lemma {:induction false} StrictWritten(t: Schema, bs: bytes)
    requires WellFormed(t) && Strict(t, bs)
    ensures Decode(t, bs).Ok?
    ensures var r := Decode(t, bs).value; Accepts(t, r.0) && Encode(t, r.0) + r.1 == bs
    decreases t, 1, 0
  {
    hide *;
    StrictIs(t, bs);
    var h := ReadHead(t, bs).value;
    var ts := PartTypes(t, h.0);
    TypesWellFormed(t, h.0);
    StrictAllWritten(t, ts, h.1);
    var parts := DecodeAll(t, ts, h.1).value;
    Rebuilt(t, bs, parts.0, Chunks(t, ts, h.1), parts.1);
    DecodeIs(t, bs);
  }

  lemma StrictIs(t: Schema, bs: bytes)
    requires Strict(t, bs)
    ensures var h := ReadHead(t, bs);
      && h.Ok? && StrictHead(t, bs)
      && var ts := PartTypes(t, h.value.0);
         var parts := DecodeAll(t, ts, h.value.1);
         && parts.Ok? && StrictAll(t, ts, h.value.1) && NoNull(t, parts.value.0)
         && (t.MapOf? ==> KeysInOrder(Chunks(t, ts, h.value.1), parts.value.0))
  {
    hide ReadHead, StrictHead, PartTypes, DecodeAll, StrictAll, Chunks, KeysInOrder;
  }

  lemma DecodeIs(t: Schema, bs: bytes)
    requires ReadHead(t, bs).Ok?
    requires var h := ReadHead(t, bs).value; DecodeAll(t, PartTypes(t, h.0), h.1).Ok?
    ensures var h := ReadHead(t, bs).value;
      var parts := DecodeAll(t, PartTypes(t, h.0), h.1).value;
      Decode(t, bs) == Ok((Assemble(t, h.0, parts.0), parts.1))
  {
    hide ReadHead, PartTypes, DecodeAll, Assemble;
  }

  lemma Regroup(a: bytes, b: bytes, c: bytes)
    ensures a + b + c == a + (b + c)
  {
  }

  lemma {:induction false} StrictAllWritten(bound: Schema, ts: seq<Schema>, bs: bytes)
    requires forall i | 0 <= i < |ts| :: ts[i] < bound && WellFormed(ts[i])
    requires StrictAll(bound, ts, bs)
    ensures DecodeAll(bound, ts, bs).Ok?
    ensures var r := DecodeAll(bound, ts, bs).value; var ps := Zip(ts, r.0);
      && Written(bound, ps, Chunks(bound, ts, bs))
      && EncodeAll(bound, ps) + r.1 == bs
    decreases bound, 0, |ts|
  {
    hide Strict, Decode, Encode, Accepts, WellFormed;
    if ts == [] {
      assert EncodeAll(bound, []) + bs == bs;
    } else {
      StrictWritten(ts[0], bs);
      var first := Decode(ts[0], bs).value;
      StrictAllWritten(bound, ts[1..], first.1);
      hide StrictAll;
      var rest := DecodeAll(bound, ts[1..], first.1).value;
      assert DecodeAll(bound, ts, bs).value == ([first.0] + rest.0, rest.1);
      assert Used(bs, first.1) == Encode(ts[0], first.0);
      assert Chunks(bound, ts, bs) == [Encode(ts[0], first.0)] + Chunks(bound, ts[1..], first.1);
      assert Zip(ts, [first.0] + rest.0) == [(ts[0], first.0)] + Zip(ts[1..], rest.0);
      hide DecodeAll, Chunks, Zip, Used;
      WrittenNext(bound, (ts[0], first.0), Zip(ts[1..], rest.0), Chunks(bound, ts[1..], first.1));
      Regroup(Encode(ts[0], first.0), EncodeAll(bound, Zip(ts[1..], rest.0)), rest.1);
    }
  }

  lemma WrittenNext(bound: Schema, p: Piece, ps: seq<Piece>, chunks: seq<bytes>)
    requires p.0 < bound && Accepts(p.0, p.1) && Written(bound, ps, chunks)
    ensures Written(bound, [p] + ps, [Encode(p.0, p.1)] + chunks)
    ensures EncodeAll(bound, [p] + ps) == Encode(p.0, p.1) + EncodeAll(bound, ps)
  {
    hide Accepts, Encode;
    assert ([p] + ps)[1..] == ps;
  }

  // The value put together from strict parts is written as the bytes read.
  lemma Rebuilt(t: Schema, bs: bytes, vals: seq<Value>, chunks: seq<bytes>, rest: bytes)
    requires WellFormed(t) && ReadHead(t, bs).Ok? && StrictHead(t, bs) && NoNull(t, vals)
    requires |vals| == |PartTypes(t, ReadHead(t, bs).value.0)|
    requires Written(t, Zip(PartTypes(t, ReadHead(t, bs).value.0), vals), chunks)
    requires EncodeAll(t, Zip(PartTypes(t, ReadHead(t, bs).value.0), vals)) + rest == ReadHead(t, bs).value.1
    requires t.MapOf? ==> KeysInOrder(chunks, vals)
    ensures var v := Assemble(t, ReadHead(t, bs).value.0, vals); Accepts(t, v) && Encode(t, v) + rest == bs
  {
    var h := ReadHead(t, bs).value;
    var v, ps := Assemble(t, h.0, vals), Zip(PartTypes(t, h.0), vals);
    hide *;
    if t.MapOf? {
      MapPieces(t, h.0, vals);
      KeysApart(t, ps, chunks, vals);
    }
    Assembled(t, bs, vals);
    HeadWritten(t, bs, v);
    WrittenAccepted(t, ps, chunks);
    PartsAccepted(t, v);
    if t.MapOf? {
      MapStays(t, v, chunks, vals);
    } else {
      OrderedIsParts(t, v);
    }
    EncodeIs(t, v);
    Regroup(Header(t, v), EncodeAll(t, ps), rest);
  }

  lemma WrittenAt(bound: Schema, ps: seq<Piece>, chunks: seq<bytes>, i: nat)
    requires Written(bound, ps, chunks) && i < |ps|
    ensures Accepts(ps[i].0, ps[i].1) && i < |chunks| && chunks[i] == Encode(ps[i].0, ps[i].1)
  {
    hide Accepts, Encode;
  }

  lemma WrittenAccepted(bound: Schema, ps: seq<Piece>, chunks: seq<bytes>)
    requires Written(bound, ps, chunks)
    ensures forall i | 0 <= i < |ps| :: Accepts(ps[i].0, ps[i].1)
  {
    hide Accepts, Encode;
  }

  lemma TypesWellFormed(t: Schema, h: Head)
    requires WellFormed(t) && ValidHead(t, h)
    ensures forall i | 0 <= i < |PartTypes(t, h)| :: WellFormed(PartTypes(t, h)[i])
  {
  }

  lemma MapPieces(t: Schema, h: Head, vals: seq<Value>)
    requires t.MapOf? && ValidHead(t, h) && |vals| == |PartTypes(t, h)|
    ensures |vals| % 2 == 0
    ensures var ps := Zip(PartTypes(t, h), vals);
      forall i | 0 <= i < |ps| :: ps[i] == (if i % 2 == 0 then t.key else t.value, vals[i])
  {
    MapPartTypes(t, h);
    hide PartTypes;
  }

  // Keys whose bytes are in order are different where they are primitive.
  lemma KeysApart(t: Schema, ps: seq<Piece>, chunks: seq<bytes>, vals: seq<Value>)
    requires t.MapOf? && |ps| == |vals| && |vals| % 2 == 0
    requires forall i | 0 <= i < |ps| :: ps[i] == (if i % 2 == 0 then t.key else t.value, vals[i])
    requires Written(t, ps, chunks) && KeysInOrder(chunks, vals)
    ensures DistinctKeys(Pairs(vals))
  {
    hide Accepts, Encode, KeyAfter;
    var pairs := Pairs(vals);
    forall i, j | 0 <= i < j < |pairs| && IsPrimitive(pairs[j].0)
      ensures pairs[i].0 != pairs[j].0
    {
      assert KeyAfter(chunks[2 * i], chunks[2 * j], vals[2 * j]);
      PrimitiveAfter(chunks[2 * i], chunks[2 * j], vals[2 * j]);
      assert ps[2 * i] == (t.key, vals[2 * i]) && ps[2 * j] == (t.key, vals[2 * j]);
    }
  }

  lemma PrimitiveAfter(a: bytes, b: bytes, key: Value)
    requires KeyAfter(a, b, key)
    ensures IsPrimitive(key) ==> a != b
    ensures !LexLess(b, a)
  {
    LexPointwise(a, b);
    LexTotal(a, b);
  }

  // A map whose keys are in order is written as it stands.
  lemma MapStays(t: Schema, v: Value, chunks: seq<bytes>, vals: seq<Value>)
    requires t.MapOf? && Accepts(t, v) && Written(t, Parts(t, v), chunks) && KeysInOrder(chunks, vals)
    ensures Ordered(t, v) == Parts(t, v)
  {
    assert Shape(t, v);
    MapPartsAre(t, v);
    var es := Keyed(t, v);
    hide Accepts, Encode, KeyAfter, Keyed, Parts, LexLess, SortEntries, Ordered;
    forall i, j | 0 <= i < j < |es|
      ensures !LexLess(es[j].keyBytes, es[i].keyBytes)
    {
      KeyChunk(t, v, chunks, i);
      KeyChunk(t, v, chunks, j);
      assert KeyAfter(chunks[2 * i], chunks[2 * j], vals[2 * j]);
      PrimitiveAfter(chunks[2 * i], chunks[2 * j], vals[2 * j]);
    }
    hide Written, KeysInOrder;
    OrderedCanonical(t, v);
  }

  lemma KeyChunk(t: Schema, v: Value, chunks: seq<bytes>, i: nat)
    requires t.MapOf? && Accepts(t, v) && Written(t, Parts(t, v), chunks) && i < |v.entries|
    ensures 2 * i < |chunks| && chunks[2 * i] == Keyed(t, v)[i].keyBytes
  {
    hide *;
    ShapeIs(t, v);
    MapPartsAre(t, v);
    KeyedBytes(t, v, i);
    WrittenAt(t, Parts(t, v), chunks, 2 * i);
    assert Parts(t, v)[2 * i] == (t.key, v.entries[i].0);
  }

  // ---------- Bytes that are written back are strict ----------

  lemma {:induction false} TrueFits(t: Schema)
    requires Accepts(t, VBool(true))
    ensures Fits(t, VBool(true))
    decreases t
  {
    if t.OptionOf? {
      assert Parts(t, VBool(true)) == [(t.inner, VBool(true))];
      assert Parts(t, VBool(true))[0] == (t.inner, VBool(true));
      TrueFits(t.inner);
    }
  }

  lemma {:induction false} DecodedAt(bound: Schema, ts: seq<Schema>, bs: bytes, i: nat) returns (at: bytes)
    requires forall k | 0 <= k < |ts| :: ts[k] < bound
    requires DecodeAll(bound, ts, bs).Ok? && i < |ts|
    ensures Decode(ts[i], at).Ok? && Decode(ts[i], at).value.0 == DecodeAll(bound, ts, bs).value.0[i]
    decreases |ts|
  {
    hide Decode;
    if i == 0 {
      at := bs;
    } else {
      at := DecodedAt(bound, ts[1..], Decode(ts[0], bs).value.1, i - 1);
    }
  }

  // The lengths of what was read fit.
  lemma {:induction false} DecodedFits(t: Schema, bs: bytes)
    requires WellFormed(t) && Decode(t, bs).Ok? && Accepts(t, Decode(t, bs).value.0)
    ensures Fits(t, Decode(t, bs).value.0)
    decreases t
  {
    var h := ReadHead(t, bs).value;
    var ts := PartTypes(t, h.0);
    var vals := DecodeAll(t, ts, h.1).value.0;
    var v := Assemble(t, h.0, vals);
    assert Shape(t, v);
    hide WellFormed, Accepts, Assemble, DecodeAll, PartTypes, ReadHead, Decode, Parts, Shape;
    LengthsFit(t, bs, vals);
    TypesWellFormed(t, h.0);
    forall j | 0 <= j < |Parts(t, v)|
      ensures Fits(Parts(t, v)[j].0, Parts(t, v)[j].1)
    {
      PartAccepted(t, v, j);
      if Parts(t, v)[j].1 == VBool(true) {
        TrueFits(Parts(t, v)[j].0);
      } else {
        var i := AssembledPart(t, h.0, vals, j);
        var at := DecodedAt(t, ts, h.1, i);
        DecodedFits(ts[i], at);
      }
    }
  }

  lemma LengthsFit(t: Schema, bs: bytes, vals: seq<Value>)
    requires ReadHead(t, bs).Ok? && |vals| == |PartTypes(t, ReadHead(t, bs).value.0)|
    requires Shape(t, Assemble(t, ReadHead(t, bs).value.0, vals))
    ensures var v := Assemble(t, ReadHead(t, bs).value.0, vals);
      && (t.Uleb128? ==> 0 <= v.n <= MAX_SAFE_INTEGER)
      && (t.ByteVector? ==> |v.data| <= MAX_SAFE_INTEGER)
      && (t.Text? ==> |v.utf8| <= MAX_SAFE_INTEGER)
      && (t.Vector? ==> |v.items| <= MAX_ARRAY_LENGTH)
      && (t.MapOf? ==> |v.entries| <= MAX_SAFE_INTEGER)
  {
    hide Decoding, BuildMap;
    if t.MapOf? {
      BuildPairs(vals);
    }
  }

  lemma EncodingMinimal(n: nat, rest: bytes)
    ensures MinimalUleb(Encoding(n) + rest)
  {
    hide Encoding, Decoding;
    UlebRoundTrip(n, rest);
    MinimalIff(Encoding(n) + rest);
    assert (Encoding(n) + rest)[..|Encoding(n)|] == Encoding(n);
  }

  lemma HeaderStrict(t: Schema, v: Value, rest: bytes)
    requires Shape(t, v) && (t.Uleb128? ==> v.n >= 0)
    ensures StrictHead(t, Header(t, v) + rest)
  {
    hide MinimalUleb, Encoding, Little;
    match t
    case Uleb128 => EncodingMinimal(v.n, rest);
    case ByteVector =>
      EncodingMinimal(|v.data|, v.data + rest);
      Regroup(Encoding(|v.data|), v.data, rest);
    case Text =>
      EncodingMinimal(|v.utf8|, v.utf8 + rest);
      Regroup(Encoding(|v.utf8|), v.utf8, rest);
    case Vector(_) => EncodingMinimal(|v.items|, rest);
    case Enum(vs) => EncodingMinimal(VariantIndex(vs, v.tag).value, rest);
    case OptionOf(_) => EncodingMinimal(if v.VNull? then 0 else 1, rest);
    case MapOf(_, _) => EncodingMinimal(|v.entries|, rest);
    case _ =>
  }

  // A part that fits and is canonical.
  ghost predicate CanonicalPiece(bound: Schema, p: Piece) {
    p.0 < bound && WellFormed(p.0) && Accepts(p.0, p.1) && Fits(p.0, p.1) && IsCanonical(p.0, p.1)
  }

  // A canonical value that fits is written strictly.
  lemma {:induction false} CanonicalStrict(t: Schema, v: Value, suffix: bytes)
    requires WellFormed(t) && Accepts(t, v) && Fits(t, v) && IsCanonical(t, v)
    ensures Strict(t, Encode(t, v) + suffix)
    decreases t, 1, 0
  {
    hide *;
    CanonicalParts(t, v);
    var ps := Parts(t, v);
    var body := EncodeAll(t, ps);
    EncodeIs(t, v);
    Regroup(Header(t, v), body, suffix);
    HeadRoundTrip(t, v, body + suffix);
    HeaderStrict(t, v, body + suffix);
    CanonicalStrictAll(t, ps, suffix);
    if t.MapOf? {
      CanonicalKeys(t, v, Chunks(t, TypesOf(ps), body + suffix));
    }
    StrictHolds(t, Encode(t, v) + suffix, HeadOf(t, v), body + suffix, ValuesOf(ps), suffix);
  }

  lemma StrictHolds(t: Schema, bs: bytes, h: Head, tail: bytes, vals: seq<Value>, rest: bytes)
    requires ReadHead(t, bs) == Ok((h, tail)) && StrictHead(t, bs)
    requires DecodeAll(t, PartTypes(t, h), tail) == Ok((vals, rest)) && StrictAll(t, PartTypes(t, h), tail)
    requires NoNull(t, vals) && (t.MapOf? ==> KeysInOrder(Chunks(t, PartTypes(t, h), tail), vals))
    ensures Strict(t, bs)
  {
    hide ReadHead, StrictHead, PartTypes, DecodeAll, StrictAll, Chunks, KeysInOrder;
  }

  lemma CanonicalParts(t: Schema, v: Value)
    requires WellFormed(t) && Accepts(t, v) && Fits(t, v) && IsCanonical(t, v)
    ensures Shape(t, v) && Ordered(t, v) == Parts(t, v)
    ensures TypesOf(Parts(t, v)) == PartTypes(t, HeadOf(t, v))
    ensures forall i | 0 <= i < |Parts(t, v)| :: CanonicalPiece(t, Parts(t, v)[i])
    ensures NoNull(t, ValuesOf(Parts(t, v))) && (t.Uleb128? ==> v.n >= 0)
  {
    hide *;
    ShapeIs(t, v);
    CanonicalLocally(t, v);
    OrderedTypes(t, v);
    if t.MapOf? {
      OrderedCanonical(t, v);
    } else {
      OrderedIsParts(t, v);
    }
    forall i | 0 <= i < |Parts(t, v)|
      ensures CanonicalPiece(t, Parts(t, v)[i])
    {
      CanonicalPart(t, v, i);
    }
  }

  lemma ShapeIs(t: Schema, v: Value)
    requires Accepts(t, v)
    ensures Shape(t, v)
  {
  }

  lemma CanonicalLocally(t: Schema, v: Value)
    requires Accepts(t, v) && Fits(t, v) && IsCanonical(t, v)
    ensures t.MapOf? ==> DistinctKeys(v.entries) && IsSorted(Keyed(t, v))
    ensures NoNull(t, ValuesOf(Parts(t, v))) && (t.Uleb128? ==> v.n >= 0)
  {
    assert Shape(t, v) && LocalCanonical(t, v);
    hide Accepts, IsCanonical, Keyed, IsSorted, DistinctKeys;
  }

  lemma CanonicalPart(t: Schema, v: Value, i: nat)
    requires WellFormed(t) && Accepts(t, v) && Fits(t, v) && IsCanonical(t, v) && i < |Parts(t, v)|
    ensures CanonicalPiece(t, Parts(t, v)[i])
  {
    PartsWellFormed(t, v, i);
    hide WellFormed, Parts, LocalCanonical;
  }

  lemma {:induction false} CanonicalStrictAll(bound: Schema, ps: seq<Piece>, suffix: bytes)
    requires forall i | 0 <= i < |ps| :: CanonicalPiece(bound, ps[i])
    requires forall i | 0 <= i < |ps| :: ps[i].0 < bound && Accepts(ps[i].0, ps[i].1)
    ensures var ts, bs := TypesOf(ps), EncodeAll(bound, ps) + suffix;
      && (forall i | 0 <= i < |ts| :: ts[i] < bound)
      && StrictAll(bound, ts, bs)
      && DecodeAll(bound, ts, bs) == Ok((ValuesOf(ps), suffix))
      && Written(bound, ps, Chunks(bound, ts, bs))
    decreases bound, 0, |ps|
  {
    hide WellFormed, Accepts, Fits, IsCanonical, Encode, Decode, Strict, Canon;
    if ps == [] {
      assert EncodeAll(bound, ps) + suffix == suffix;
    } else {
      var p, rest := ps[0], EncodeAll(bound, ps[1..]) + suffix;
      assert CanonicalPiece(bound, p);
      CanonicalStrictAll(bound, ps[1..], suffix);
      CanonicalStrict(p.0, p.1, rest);
      RoundTrip(p.0, p.1, rest);
      CanonicalRestored(p.0, p.1);
      Regroup(Encode(p.0, p.1), EncodeAll(bound, ps[1..]), suffix);
      ConsParts(p, ps[1..]);
      UsedUp(Encode(p.0, p.1), rest);
      assert ps == [p] + ps[1..];
      hide *;
      WrittenNext(bound, p, ps[1..], Chunks(bound, TypesOf(ps[1..]), rest));
      StrictStep(bound, p.0, TypesOf(ps[1..]), Encode(p.0, p.1) + rest, p.1, rest, ValuesOf(ps[1..]), suffix);
    }
  }

  lemma ConsParts(p: Piece, ps: seq<Piece>)
    ensures TypesOf([p] + ps) == [p.0] + TypesOf(ps) && ValuesOf([p] + ps) == [p.1] + ValuesOf(ps)
  {
  }

  lemma UsedUp(chunk: bytes, rest: bytes)
    ensures Used(chunk + rest, rest) == chunk
  {
  }

  // Reading one more part in front.
  lemma StrictStep(bound: Schema, t: Schema, ts: seq<Schema>, bs: bytes, v: Value, rest: bytes, vals: seq<Value>,
                   suffix: bytes)
    requires t < bound && forall i | 0 <= i < |ts| :: ts[i] < bound
    requires Strict(t, bs) && Decode(t, bs) == Ok((v, rest))
    requires StrictAll(bound, ts, rest) && DecodeAll(bound, ts, rest) == Ok((vals, suffix))
    ensures StrictAll(bound, [t] + ts, bs)
    ensures DecodeAll(bound, [t] + ts, bs) == Ok(([v] + vals, suffix))
    ensures Chunks(bound, [t] + ts, bs) == [Used(bs, rest)] + Chunks(bound, ts, rest)
  {
    hide Strict, Decode, Used;
    assert ([t] + ts)[1..] == ts;
  }

  // The keys of a canonical map are in order.
  lemma CanonicalKeys(t: Schema, v: Value, chunks: seq<bytes>)
    requires t.MapOf? && WellFormed(t) && Accepts(t, v) && Fits(t, v) && IsCanonical(t, v)
    requires Written(t, Parts(t, v), chunks)
    ensures KeysInOrder(chunks, ValuesOf(Parts(t, v)))
  {
    hide *;
    ShapeIs(t, v);
    CanonicalLocally(t, v);
    MapPartsAre(t, v);
    WrittenLength(t, Parts(t, v), chunks);
    forall i, j | 0 <= i < j && 2 * j < |Parts(t, v)|
      ensures KeyAfter(chunks[2 * i], chunks[2 * j], ValuesOf(Parts(t, v))[2 * j])
    {
      KeyChunk(t, v, chunks, i);
      KeyChunk(t, v, chunks, j);
      CanonicalKey(t, v, i, j);
      ValueAt(Parts(t, v), 2 * j);
    }
    InOrderHolds(chunks, ValuesOf(Parts(t, v)));
  }

  lemma WrittenLength(bound: Schema, ps: seq<Piece>, chunks: seq<bytes>)
    requires Written(bound, ps, chunks)
    ensures |chunks| == |ps|
  {
  }

  lemma ValueAt(ps: seq<Piece>, i: nat)
    requires i < |ps|
    ensures ValuesOf(ps)[i] == ps[i].1
  {
  }

  lemma InOrderHolds(chunks: seq<bytes>, vals: seq<Value>)
    requires |chunks| == |vals|
    requires forall i, j | 0 <= i < j && 2 * j < |vals| :: KeyAfter(chunks[2 * i], chunks[2 * j], vals[2 * j])
    ensures KeysInOrder(chunks, vals)
  {
  }

  lemma CanonicalKey(t: Schema, v: Value, i: nat, j: nat)
    requires t.MapOf? && WellFormed(t) && Accepts(t, v) && Fits(t, v) && IsCanonical(t, v) && i < j < |v.entries|
    ensures KeyAfter(Keyed(t, v)[i].keyBytes, Keyed(t, v)[j].keyBytes, v.entries[j].0)
  {
    hide *;
    ShapeIs(t, v);
    MapPartsAre(t, v);
    CanonicalLocally(t, v);
    KeyPiece(t, v, i);
    KeyPiece(t, v, j);
    KeyedBytes(t, v, i);
    KeyedBytes(t, v, j);
    var a, b := v.entries[i].0, v.entries[j].0;
    NotBefore(Keyed(t, v), i, j);
    DistinctAt(v.entries, i, j);
    if Encode(t.key, a) == Encode(t.key, b) {
      EncodeInjective(t.key, a, b, [], []);
      CanonicalRestored(t.key, a);
      CanonicalRestored(t.key, b);
    }
    AfterHolds(Encode(t.key, a), Encode(t.key, b), b);
  }

  lemma KeyPiece(t: Schema, v: Value, i: nat)
    requires t.MapOf? && WellFormed(t) && Accepts(t, v) && Fits(t, v) && IsCanonical(t, v) && i < |v.entries|
    ensures WellFormed(t.key) && Accepts(t.key, v.entries[i].0)
    ensures Fits(t.key, v.entries[i].0) && IsCanonical(t.key, v.entries[i].0)
  {
    MapPartsAre(t, v);
    hide Fits, IsCanonical, WellFormed, Accepts, Parts;
    CanonicalPart(t, v, 2 * i);
  }

  lemma NotBefore(es: seq<Entry>, i: nat, j: nat)
    requires IsSorted(es) && i < j < |es|
    ensures !LexLess(es[j].keyBytes, es[i].keyBytes)
  {
  }

  lemma DistinctAt(entries: seq<(Value, Value)>, i: nat, j: nat)
    requires DistinctKeys(entries) && i < j < |entries|
    ensures IsPrimitive(entries[j].0) ==> entries[i].0 != entries[j].0
  {
  }

  lemma AfterHolds(a: bytes, b: bytes, key: Value)
    requires !LexLess(b, a) && (IsPrimitive(key) ==> a != b)
    ensures KeyAfter(a, b, key)
  {
    LexPointwise(a, b);
    LexTotal(a, b);
  }

  // The codec writes back exactly the strict byte strings.
  lemma WrittenBackIff(t: Schema, bs: bytes)
    requires WellFormed(t)
    ensures Strict(t, bs) <==>
      && Decode(t, bs).Ok?
      && Accepts(t, Decode(t, bs).value.0)
      && Encode(t, Decode(t, bs).value.0) + Decode(t, bs).value.1 == bs
  {
    hide *;
    if Strict(t, bs) {
      StrictWritten(t, bs);
    } else if Decode(t, bs).Ok? {
      var r := Decode(t, bs).value;
      if Accepts(t, r.0) && Encode(t, r.0) + r.1 == bs {
        DecodedFits(t, bs);
        RoundTrip(t, r.0, r.1);
        RestoredCanonical(t, r.0);
        CanonicalStrict(t, r.0, r.1);
      }
    }
  }
}
