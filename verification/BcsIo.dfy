// The write, read, serialize and parse paths of every type, over the writer and the reader.

module BcsIo {
  import opened Wrappers
  import opened Uleb
  import opened Writing
  import opened Reading
  import opened Bcs
  import opened BcsMaps
  import opened BcsOrder

  ghost predicate AllAccepted(ps: seq<Piece>) {
    forall i | 0 <= i < |ps| :: Accepts(ps[i].0, ps[i].1)
  }

  ghost predicate AllBelow(bound: Schema, ps: seq<Piece>) {
    forall i | 0 <= i < |ps| :: ps[i].0 < bound && WellFormed(ps[i].0)
  }

  // ---------- Writing ----------

  lemma EncodeSplit(bound: Schema, ps: seq<Piece>, i: nat)
    requires AllBelow(bound, ps) && AllAccepted(ps) && i < |ps|
    ensures AllBelow(bound, ps[..i]) && AllAccepted(ps[..i]) && AllBelow(bound, ps[i + 1..]) && AllAccepted(ps[i + 1..])
    ensures EncodeAll(bound, ps)
      == EncodeAll(bound, ps[..i]) + Encode(ps[i].0, ps[i].1) + EncodeAll(bound, ps[i + 1..])
  {
    hide Accepts, WellFormed, Encode, EncodeAll;
    EncodeAllConcat(bound, ps[..i], ps[i..]);
    assert ps == ps[..i] + ps[i..];
    EncodeHead(bound, ps[i..]);
    assert ps[i..][1..] == ps[i + 1..];
  }

  lemma EncodeHead(bound: Schema, ps: seq<Piece>)
    requires AllBelow(bound, ps) && AllAccepted(ps) && ps != []
    ensures AllBelow(bound, ps[1..]) && AllAccepted(ps[1..])
    ensures EncodeAll(bound, ps) == Encode(ps[0].0, ps[0].1) + EncodeAll(bound, ps[1..])
  {
    hide Accepts, WellFormed, Encode;
  }

  // The whole serialisation of an accepted value.
  lemma EncodeIs(t: Schema, v: Value)
    requires Accepts(t, v)
    ensures Encode(t, v) == Header(t, v) + EncodeAll(t, Ordered(t, v))
  {
  }

  lemma EncodeNext(bound: Schema, ps: seq<Piece>, i: nat)
    requires AllBelow(bound, ps) && i < |ps| && AllAccepted(ps[..i + 1])
    ensures AllAccepted(ps[..i])
    ensures EncodeAll(bound, ps[..i + 1]) == EncodeAll(bound, ps[..i]) + Encode(ps[i].0, ps[i].1)
  {
    hide Accepts, WellFormed, Encode;
    var front := ps[..i + 1];
    assert front[..i] == ps[..i] && front[i] == ps[i] && front[i + 1..] == [];
    EncodeSplit(bound, front, i);
  }

  // One part after another.
  method WriteParts(ghost bound: Schema, ps: seq<Piece>, w: BcsWriter) returns (r: Outcome<WriteError>)
    requires w.Valid() && AllBelow(bound, ps)
    modifies w, w.dataView
    ensures w.Valid() && w.Limit() == old(w.Limit()) && (w.dataView == old(w.dataView) || fresh(w.dataView))
    ensures r.Pass? <==> AllAccepted(ps) && old(w.Room(|EncodeAll(bound, ps)|))
    ensures r.Pass? ==> w.Contents() == old(w.Contents()) + EncodeAll(bound, ps)
    ensures r == Fail(InvalidValue) ==> !AllAccepted(ps)
    decreases bound, 0
  {
    hide Accepts, WellFormed, Encode, EncodeAll;
    EncodeNothing(bound);
    for i := 0 to |ps|
      invariant w.Valid() && w.Limit() == old(w.Limit()) && (w.dataView == old(w.dataView) || fresh(w.dataView))
      invariant AllAccepted(ps[..i])
      invariant w.Contents() == old(w.Contents()) + EncodeAll(bound, ps[..i])
    {
      r := Write(ps[i].0, ps[i].1, w);
      if r.Fail? {
        if AllAccepted(ps) {
          EncodeSplit(bound, ps, i);
          assert |EncodeAll(bound, ps)| >= |EncodeAll(bound, ps[..i])| + |Encode(ps[i].0, ps[i].1)|;
        }
        return;
      }
      assert ps[..i + 1] == ps[..i] + [ps[i]];
      EncodeNext(bound, ps, i);
    }
    assert ps[..|ps|] == ps;
    return Pass;
  }

  lemma EncodeNothing(bound: Schema)
    ensures EncodeAll(bound, []) == []
  {
  }

  // The write method of the type's width.
  method WriteUInt(size: nat, n: nat, w: BcsWriter) returns (r: Outcome<WriteError>)
    requires w.Valid() && size in {1, 2, 4, 8, 16, 32} && n < Pow256(size)
    modifies w, w.dataView
    ensures w.Valid() && w.Limit() == old(w.Limit()) && (w.dataView == old(w.dataView) || fresh(w.dataView))
    ensures r == if old(w.Room(size)) then Pass else Fail(BufferFull)
    ensures r.Pass? ==> w.Contents() == old(w.Contents()) + Little(n, size)
  {
    hide Little, Pow256;
    if size == 1 {
      LittleOne(n);
      r := w.Write8(n);
    } else if size == 2 {
      r := w.Write16(n);
    } else if size == 4 {
      r := w.Write32(n);
    } else {
      r := w.WriteBig(n, size);
    }
  }

  // A length and that many bytes.
  method WriteSized(b: bytes, each: bool, w: BcsWriter) returns (r: Outcome<WriteError>)
    requires w.Valid()
    modifies w, w.dataView
    ensures w.Valid() && w.Limit() == old(w.Limit()) && (w.dataView == old(w.dataView) || fresh(w.dataView))
    ensures r == if old(w.Room(|Encoding(|b|)| + |b|)) then Pass else Fail(BufferFull)
    ensures r.Pass? ==> w.Contents() == old(w.Contents()) + (Encoding(|b|) + b)
  {
    hide Encoding;
    :- w.WriteULEB(|b|);
    if each {
      r := w.WriteEach(b);
    } else {
      r := w.WriteBytes(b);
    }
  }

  // The header of each type.
  method WriteHeader(t: Schema, v: Value, w: BcsWriter) returns (r: Outcome<WriteError>)
    requires w.Valid() && WellFormed(t) && Shape(t, v)
    modifies w, w.dataView
    ensures w.Valid() && w.Limit() == old(w.Limit()) && (w.dataView == old(w.dataView) || fresh(w.dataView))
    ensures r == if old(w.Room(|Header(t, v)|)) then Pass else Fail(BufferFull)
    ensures r.Pass? ==> w.Contents() == old(w.Contents()) + Header(t, v)
  {
    hide Encoding, Little, Pow256;
    match t
    case UInt(size) =>
      LittleZero(size);
      r := WriteUInt(size, if v.VNull? then 0 else v.n, w);
    case Bool => r := w.Write8(if v.b then 1 else 0);
    case Uleb128 =>
      var b := UlebEncode(v.n);
      r := w.WriteEach(b);
    case FixedBytes(_) => r := w.WriteBytes(v.data);
    case ByteVector => r := WriteSized(v.data, false, w);
    case Text => r := WriteSized(v.utf8, true, w);
    case Vector(_) => r := w.WriteULEB(|v.items|);
    case Enum(vs) => r := w.WriteULEB(VariantIndex(vs, v.tag).value);
    case OptionOf(_) => r := w.WriteULEB(if v.VNull? then 0 else 1);
    case MapOf(_, _) => r := w.WriteULEB(|v.entries|);
    case _ =>
      assert w.Contents() == w.Contents() + [];
      r := Pass;
  }

  lemma LittleOne(n: nat)
    requires n < Pow256(1)
    ensures Little(n, 1) == [n % 256]
  {
    assert Little(n / 256, 0) == [];
  }

  lemma PartsBelow(t: Schema, v: Value)
    requires WellFormed(t) && Shape(t, v)
    ensures AllBelow(t, Parts(t, v))
    ensures Accepts(t, v) <==> AllAccepted(Parts(t, v))
  {
    forall i | 0 <= i < |Parts(t, v)|
      ensures WellFormed(Parts(t, v)[i].0)
    {
      PartsWellFormed(t, v, i);
    }
  }

  // write: validates one level, then writes the header and the parts.
  method Write(t: Schema, v: Value, w: BcsWriter) returns (r: Outcome<WriteError>)
    requires w.Valid() && WellFormed(t)
    modifies w, w.dataView
    ensures w.Valid() && w.Limit() == old(w.Limit()) && (w.dataView == old(w.dataView) || fresh(w.dataView))
    ensures r.Pass? <==> Accepts(t, v) && old(w.Room(|Encode(t, v)|))
    ensures r.Pass? ==> w.Contents() == old(w.Contents()) + Encode(t, v)
    ensures r == Fail(InvalidValue) ==> !Accepts(t, v)
    decreases t, 2, 0
  {
    if !Shape(t, v) {
      return Fail(InvalidValue);
    }
    hide Shape, Accepts, WellFormed, Encode;
    if t.MapOf? {
      r := WriteMap(t, v, w);
    } else {
      r := WritePlain(t, v, w);
    }
  }

  // The header and the parts of a value that is not a map.
  method WritePlain(t: Schema, v: Value, w: BcsWriter) returns (r: Outcome<WriteError>)
    requires w.Valid() && !t.MapOf? && WellFormed(t) && Shape(t, v)
    modifies w, w.dataView
    ensures w.Valid() && w.Limit() == old(w.Limit()) && (w.dataView == old(w.dataView) || fresh(w.dataView))
    ensures r.Pass? <==> Accepts(t, v) && old(w.Room(|Encode(t, v)|))
    ensures r.Pass? ==> w.Contents() == old(w.Contents()) + Encode(t, v)
    ensures r == Fail(InvalidValue) ==> !Accepts(t, v)
    decreases t, 1
  {
    hide Shape, Accepts, WellFormed, Header, Parts, Ordered, EncodeAll, Encode, AllAccepted, AllBelow;
    PartsBelow(t, v);
    if Accepts(t, v) {
      OrderedIsParts(t, v);
      EncodeIs(t, v);
    }
    :- WriteHeader(t, v, w);
    r := WriteParts(t, Parts(t, v), w);
  }

  // ---------- Maps ----------

  ghost predicate EntriesOf(k: Schema, entries: seq<(Value, Value)>, es: seq<Entry>) {
    && |es| == |entries|
    && forall i | 0 <= i < |es| ::
      Accepts(k, entries[i].0) && es[i] == Entry(Encode(k, entries[i].0), entries[i].0, entries[i].1)
  }

  // Each key is serialized by itself, into a writer of its own.
  method SerializeKeys(k: Schema, entries: seq<(Value, Value)>) returns (r: Result<seq<Entry>, WriteError>)
    requires WellFormed(k)
    ensures r.Ok? <==> forall i | 0 <= i < |entries| :: Accepts(k, entries[i].0)
    ensures r.Ok? ==> EntriesOf(k, entries, r.value)
    ensures r.Err? ==> r == Err(InvalidValue)
    decreases k, 3
  {
    hide Accepts, WellFormed, Encode;
    var es: seq<Entry> := [];
    for i := 0 to |entries|
      invariant EntriesOf(k, entries[..i], es)
    {
      var bytes := SerializeDefault(k, entries[i].0);
      if bytes.Err? {
        return Err(InvalidValue);
      }
      es := es + [Entry(bytes.value, entries[i].0, entries[i].1)];
      assert entries[..i + 1] == entries[..i] + [entries[i]];
    }
    assert entries[..|entries|] == entries;
    return Ok(es);
  }

  // The loops of serializedSize: the sum of the parts, or nothing at the first unknown part.
  method SizeOf(t: Schema, v: Value) returns (n: Option<nat>)
    requires Accepts(t, v)
    ensures n == SerializedSize(t, v)
    decreases t
  {
    if !t.Tuple? && !t.Struct? {
      return SerializedSize(t, v);
    }
    var ps := Parts(t, v);
    var total: nat := 0;
    assert SerializedSize(t, v) == SizeOfAll(t, ps);
    hide Accepts, SerializedSize, Parts;
    for i := 0 to |ps|
      invariant SizeOfAll(t, ps[..i]) == Some(total)
    {
      var size := SizeOf(ps[i].0, ps[i].1);
      SizeStep(t, ps, i);
      if size.None? {
        SizeUnknown(t, ps, i + 1);
        return None;
      }
      total := total + size.value;
    }
    assert ps[..|ps|] == ps;
    return Some(total);
  }

  lemma SizeStep(bound: Schema, ps: seq<Piece>, i: nat)
    requires i < |ps| && forall k | 0 <= k < |ps| :: ps[k].0 < bound && Accepts(ps[k].0, ps[k].1)
    ensures SizeOfAll(bound, ps[..i + 1]) ==
      match (SizeOfAll(bound, ps[..i]), SerializedSize(ps[i].0, ps[i].1))
      case (Some(front), Some(size)) => Some(front + size)
      case _ => None
  {
    hide Accepts, SerializedSize;
    assert ps[..i + 1][..i] == ps[..i];
  }

  lemma {:induction false} SizeUnknown(bound: Schema, ps: seq<Piece>, i: nat)
    requires i <= |ps| && forall k | 0 <= k < |ps| :: ps[k].0 < bound && Accepts(ps[k].0, ps[k].1)
    requires SizeOfAll(bound, ps[..i]).None?
    ensures SizeOfAll(bound, ps).None?
    decreases |ps| - i
  {
    hide Accepts, SerializedSize, SizeOfAll;
    if i < |ps| {
      SizeStep(bound, ps, i);
      SizeUnknown(bound, ps, i + 1);
    } else {
      assert ps[..i] == ps;
    }
  }

  // The size given to a new writer; a value that is not accepted is refused by the write itself.
  method InitialSize(t: Schema, v: Value) returns (n: nat)
    ensures n == if Accepts(t, v) && SerializedSize(t, v).Some? then SerializedSize(t, v).value else 1024
  {
    hide Accepts, SerializedSize;
    n := 1024;
    if Accepts(t, v) {
      var size := SizeOf(t, v);
      if size.Some? {
        n := size.value;
      }
    }
  }

  // keyType.serialize(key).toBytes(), with the default options.
  method SerializeDefault(t: Schema, v: Value) returns (r: Result<bytes, WriteError>)
    requires WellFormed(t)
    ensures r == if Accepts(t, v) then Ok(Encode(t, v)) else Err(InvalidValue)
    decreases t, 2, 1
  {
    hide Accepts, WellFormed, Encode;
    var initialSize := InitialSize(t, v);
    var writer := new BcsWriter(initialSize);
    var done := Write(t, v, writer);
    if done.Fail? {
      assert !Accepts(t, v);
      return Err(InvalidValue);
    }
    var b := writer.ToBytes();
    assert b == [] + Encode(t, v) == Encode(t, v);
    return Ok(b);
  }

  // The pieces of sorted entries.
  ghost function EntryPieces(t: Schema, es: seq<Entry>): seq<Piece>
    requires t.MapOf?
  {
    Interleave(t.key, t.value, Unkeyed(es))
  }

  lemma EntryPiecesAt(t: Schema, es: seq<Entry>, i: nat)
    requires t.MapOf? && WellFormed(t) && i < |es|
    ensures var ps := EntryPieces(t, es);
      && |ps| == 2 * |es|
      && ps[2 * i] == (t.key, es[i].key) && ps[2 * i + 1] == (t.value, es[i].value)
      && AllBelow(t, ps)
  {
  }

  method WriteEntry(t: Schema, e: Entry, w: BcsWriter) returns (r: Outcome<WriteError>)
    requires w.Valid() && WellFormed(t)
    modifies w, w.dataView
    ensures w.Valid() && w.Limit() == old(w.Limit()) && (w.dataView == old(w.dataView) || fresh(w.dataView))
    ensures r.Pass? <==> Accepts(t, e.value) && old(w.Room(|e.keyBytes| + |Encode(t, e.value)|))
    ensures r.Pass? ==> w.Contents() == old(w.Contents()) + (e.keyBytes + Encode(t, e.value))
    ensures r == Fail(InvalidValue) ==> !Accepts(t, e.value)
    decreases t, 4
  {
    hide Accepts, WellFormed, Encode;
    :- w.WriteBytes(e.keyBytes);
    r := Write(t, e.value, w);
  }

  // The entry loop of a map: the key's bytes, then the value.
  method WriteEntries(t: Schema, es: seq<Entry>, w: BcsWriter) returns (r: Outcome<WriteError>)
    requires w.Valid() && t.MapOf? && WellFormed(t)
    requires forall i | 0 <= i < |es| :: Accepts(t.key, es[i].key) && es[i].keyBytes == Encode(t.key, es[i].key)
    requires AllBelow(t, EntryPieces(t, es))
    modifies w, w.dataView
    ensures w.Valid() && w.Limit() == old(w.Limit()) && (w.dataView == old(w.dataView) || fresh(w.dataView))
    ensures r.Pass? <==> AllAccepted(EntryPieces(t, es)) && old(w.Room(|EncodeAll(t, EntryPieces(t, es))|))
    ensures r.Pass? ==> w.Contents() == old(w.Contents()) + EncodeAll(t, EntryPieces(t, es))
    ensures r == Fail(InvalidValue) ==> !AllAccepted(EntryPieces(t, es))
    decreases t, 0
  {
    hide Accepts, WellFormed, Encode, EncodeAll, EntryPieces;
    ghost var ps := EntryPieces(t, es);
    WellFormedMap(t);
    EncodeNothing(t);
    EntryLength(t, es);
    for i := 0 to |es|
      invariant w.Valid() && w.Limit() == old(w.Limit()) && (w.dataView == old(w.dataView) || fresh(w.dataView))
      invariant AllAccepted(ps[..2 * i])
      invariant w.Contents() == old(w.Contents()) + EncodeAll(t, ps[..2 * i])
    {
      EntryStep(t, es, i);
      r := WriteEntry(t.value, es[i], w);
      if r.Fail? {
        return;
      }
    }
    assert ps[..2 * |es|] == ps;
    return Pass;
  }

  // The bytes up to the end of entry i, and the room all entries need.
  lemma EntryStep(t: Schema, es: seq<Entry>, i: nat)
    requires t.MapOf? && WellFormed(t) && i < |es| && AllBelow(t, EntryPieces(t, es))
    requires |EntryPieces(t, es)| == 2 * |es| && AllAccepted(EntryPieces(t, es)[..2 * i])
    requires Accepts(t.key, es[i].key) && es[i].keyBytes == Encode(t.key, es[i].key)
    ensures Accepts(t.value, es[i].value) ==> AllAccepted(EntryPieces(t, es)[..2 * i + 2])
    ensures var ps := EntryPieces(t, es);
      Accepts(t.value, es[i].value) ==>
      EncodeAll(t, ps[..2 * i + 2]) == EncodeAll(t, ps[..2 * i]) + (es[i].keyBytes + Encode(t.value, es[i].value))
    ensures AllAccepted(EntryPieces(t, es)) ==> Accepts(t.value, es[i].value)
    ensures var ps := EntryPieces(t, es);
      AllAccepted(ps) ==>
      |EncodeAll(t, ps)| >= |EncodeAll(t, ps[..2 * i])| + |es[i].keyBytes| + |Encode(t.value, es[i].value)|
  {
    hide Accepts, WellFormed, Encode, EncodeAll, EntryPieces;
    var ps := EntryPieces(t, es);
    EntryPiecesAt(t, es, i);
    assert ps[..2 * i + 1] == ps[..2 * i] + [ps[2 * i]];
    EncodeNext(t, ps, 2 * i);
    assert ps[..2 * i + 2] == ps[..2 * i + 1] + [ps[2 * i + 1]];
    if Accepts(t.value, es[i].value) {
      EncodeNext(t, ps, 2 * i + 1);
    }
    RoomNeeded(t, ps, 2 * i + 1);
  }

  lemma EntryLength(t: Schema, es: seq<Entry>)
    requires t.MapOf?
    ensures |EntryPieces(t, es)| == 2 * |es|
  {
  }

  // All parts take at least the room of the first i and the next.
  lemma RoomNeeded(bound: Schema, ps: seq<Piece>, i: nat)
    requires AllBelow(bound, ps) && i < |ps|
    ensures AllAccepted(ps) ==> AllAccepted(ps[..i]) && Accepts(ps[i].0, ps[i].1)
    ensures AllAccepted(ps) ==>
      |EncodeAll(bound, ps)| >= |EncodeAll(bound, ps[..i])| + |Encode(ps[i].0, ps[i].1)|
  {
    hide Accepts, WellFormed, Encode, EncodeAll;
    if AllAccepted(ps) {
      EncodeSplit(bound, ps, i);
    }
  }

  method WriteMap(t: Schema, v: Value, w: BcsWriter) returns (r: Outcome<WriteError>)
    requires w.Valid() && t.MapOf? && WellFormed(t) && Shape(t, v)
    modifies w, w.dataView
    ensures w.Valid() && w.Limit() == old(w.Limit()) && (w.dataView == old(w.dataView) || fresh(w.dataView))
    ensures r.Pass? <==> Accepts(t, v) && old(w.Room(|Encode(t, v)|))
    ensures r.Pass? ==> w.Contents() == old(w.Contents()) + Encode(t, v)
    ensures r == Fail(InvalidValue) ==> !Accepts(t, v)
    decreases t, 1
  {
    hide Accepts, WellFormed, Encode, EncodeAll, EntryPieces, SortEntries, Header;
    var entries := v.entries;
    WellFormedMap(t);
    var keyed := SerializeKeys(t.key, entries);
    if Accepts(t, v) {
      EntriesAccepted(t, v);
    }
    if keyed.Err? {
      return Fail(InvalidValue);
    }
    var es := SortEntries(keyed.value);
    SortedKeys(t, entries, keyed.value);
    MapAcceptedIff(t, v, keyed.value);
    if Accepts(t, v) {
      EncodeIs(t, v);
    }
    hide AllAccepted, AllBelow, Ordered, EntriesOf;
    :- WriteHeader(t, v, w);
    r := WriteEntries(t, es, w);
  }

  lemma WellFormedMap(t: Schema)
    requires t.MapOf? && WellFormed(t)
    ensures WellFormed(t.key) && WellFormed(t.value)
  {
  }

  lemma SortedKeys(t: Schema, entries: seq<(Value, Value)>, es: seq<Entry>)
    requires t.MapOf? && WellFormed(t) && EntriesOf(t.key, entries, es)
    ensures forall i | 0 <= i < |SortEntries(es)| ::
      Accepts(t.key, SortEntries(es)[i].key) && SortEntries(es)[i].keyBytes == Encode(t.key, SortEntries(es)[i].key)
    ensures AllBelow(t, EntryPieces(t, SortEntries(es)))
  {
    var sorted := SortEntries(es);
    EntriesBelow(t, sorted);
    hide Accepts, Encode, SortEntries, EntryPieces, WellFormed;
    forall i | 0 <= i < |sorted|
      ensures Accepts(t.key, sorted[i].key) && sorted[i].keyBytes == Encode(t.key, sorted[i].key)
    {
      var k := SortedFrom(es, sorted[i]);
    }
  }

  lemma EntriesBelow(t: Schema, es: seq<Entry>)
    requires t.MapOf? && WellFormed(t)
    ensures AllBelow(t, EntryPieces(t, es))
  {
  }

  // A map is accepted when its sorted pieces are, and they are what is written.
  lemma MapAcceptedIff(t: Schema, v: Value, es: seq<Entry>)
    requires t.MapOf? && WellFormed(t) && Shape(t, v) && EntriesOf(t.key, v.entries, es)
    ensures Accepts(t, v) <==> AllAccepted(EntryPieces(t, SortEntries(es)))
    ensures Accepts(t, v) ==> Ordered(t, v) == EntryPieces(t, SortEntries(es))
  {
    hide Shape, WellFormed, EntryPieces, SortEntries, Ordered, Accepts, AllAccepted;
    if Accepts(t, v) {
      OrderedEntries(t, v, es);
    }
    if AllAccepted(EntryPieces(t, SortEntries(es))) {
      ValuesAccepted(t, v, es);
    }
  }

  lemma OrderedEntries(t: Schema, v: Value, es: seq<Entry>)
    requires t.MapOf? && Accepts(t, v) && EntriesOf(t.key, v.entries, es)
    ensures Ordered(t, v) == EntryPieces(t, SortEntries(es)) && AllAccepted(Ordered(t, v))
  {
    EntriesAccepted(t, v);
    hide Accepts, Encode, SortEntries;
    assert es == Keyed(t, v);
  }

  lemma ValuesAccepted(t: Schema, v: Value, es: seq<Entry>)
    requires t.MapOf? && WellFormed(t) && Shape(t, v) && EntriesOf(t.key, v.entries, es)
    requires AllAccepted(EntryPieces(t, SortEntries(es)))
    ensures Accepts(t, v)
  {
    var ps := Parts(t, v);
    forall i | 0 <= i < |ps|
      ensures Accepts(ps[i].0, ps[i].1)
    {
      hide Accepts, Encode;
      var e := es[i / 2];
      SameMembers(es, e);
      assert e in es;
      var k :| 0 <= k < |SortEntries(es)| && SortEntries(es)[k] == e;
      EntryPiecesAt(t, SortEntries(es), k);
    }
  }

  // ---------- serialize ----------

  datatype WriterOptions = WriterOptions(initialSize: Option<nat>, maxSize: Option<nat>, allocateSize: Option<nat>)

  // The size of the first buffer.
  ghost function InitialOf(t: Schema, v: Value, options: WriterOptions): nat
    requires Accepts(t, v)
  {
    if options.initialSize.Some? then options.initialSize.value
    else if SerializedSize(t, v).Some? then SerializedSize(t, v).value
    else 1024
  }

  // Whether n bytes have room in a buffer that starts at initialSize and may grow to maxSize.
  predicate CanHold(initialSize: nat, maxSize: Option<nat>, n: nat) {
    n <= initialSize || maxSize.None? || n <= maxSize.value
  }

  ghost predicate RoomUnder(t: Schema, v: Value, options: WriterOptions)
    requires Accepts(t, v)
  {
    t.Text? || t.Uleb128? || CanHold(InitialOf(t, v, options), options.maxSize, |Encode(t, v)|)
  }

  // The writing part of serialize.
  method SerializeWith(t: Schema, v: Value, initialSize: nat, maxSize: Option<nat>, allocateSize: nat)
    returns (r: Result<bytes, WriteError>)
    requires WellFormed(t)
    ensures r.Ok? <==> Accepts(t, v) && CanHold(initialSize, maxSize, |Encode(t, v)|)
    ensures r.Ok? ==> r.value == Encode(t, v)
    ensures r == Err(InvalidValue) ==> !Accepts(t, v)
  {
    hide Accepts, WellFormed, Encode;
    var writer := new BcsWriter(initialSize, maxSize, allocateSize);
    var done := Write(t, v, writer);
    if done.Fail? {
      return Err(done.error);
    }
    var b := writer.ToBytes();
    assert b == [] + Encode(t, v) == Encode(t, v);
    return Ok(b);
  }

  // serialize: the same bytes as write, whatever the initial and allocation sizes. Text and ULEB
  // types build their bytes without a writer, so no option limits them.
  method Serialize(t: Schema, v: Value, options: WriterOptions) returns (r: Result<bytes, WriteError>)
    requires WellFormed(t)
    ensures r.Ok? <==> Accepts(t, v) && RoomUnder(t, v, options)
    ensures r.Ok? ==> r.value == Encode(t, v)
    ensures r == Err(InvalidValue) ==> !Accepts(t, v)
  {
    if !Shape(t, v) {
      return Err(InvalidValue);
    }
    if t.Text? || t.Uleb128? {
      var b := SerializeLeaf(t, v);
      return Ok(b);
    }
    hide Shape, Accepts, WellFormed, Encode, SerializedSize, CanHold;
    var initialSize := InitialSize(t, v);
    if options.initialSize.Some? {
      initialSize := options.initialSize.value;
    }
    var allocateSize := if options.allocateSize.Some? then options.allocateSize.value else 1024;
    r := SerializeWith(t, v, initialSize, options.maxSize, allocateSize);
  }

  // The serialize of text and ULEB types.
  method SerializeLeaf(t: Schema, v: Value) returns (b: bytes)
    requires Shape(t, v) && (t.Text? || t.Uleb128?)
    ensures Accepts(t, v) && b == Encode(t, v)
  {
    LeafEncoding(t, v);
    hide Accepts, Encode, Encoding;
    var size := UlebEncode(if t.Text? then |v.utf8| else v.n);
    b := size + if t.Text? then v.utf8 else [];
  }

  lemma LeafEncoding(t: Schema, v: Value)
    requires Shape(t, v) && (t.Text? || t.Uleb128?)
    ensures Accepts(t, v)
    ensures t.Text? ==> Encode(t, v) == Encoding(|v.utf8|) + v.utf8
    ensures t.Uleb128? ==> Encode(t, v) == if v.n < 0 then [] else Encoding(v.n)
  {
    hide Encoding;
    assert Parts(t, v) == [];
    assert Header(t, v) + [] == Header(t, v);
  }

  // ---------- Reading ----------

  // The result of a whole decoding once the first values are known.
  ghost function Resume(vals: seq<Value>, rest: Result<(seq<Value>, bytes), ReadError>)
    : Result<(seq<Value>, bytes), ReadError>
  {
    match rest
    case Ok(tail) => Ok((vals + tail.0, tail.1))
    case Err(e) => Err(e)
  }

  ghost predicate TypesBelow(bound: Schema, ts: seq<Schema>) {
    forall i | 0 <= i < |ts| :: ts[i] < bound && WellFormed(ts[i])
  }

  // What a read of the next value leaves.
  ghost predicate Took<T>(res: Result<T, ReadError>, r: BcsReader, spec: Result<(T, bytes), ReadError>)
    reads r
  {
    match spec
    case Err(e) => res == Err(e)
    case Ok(x) => res == Ok(x.0) && r.Whole() && r.Rest() == x.1
  }

  // A ULEB length or index.
  method ReadLength(r: BcsReader) returns (res: Result<nat, ReadError>)
    requires r.Valid() && r.Whole()
    modifies r`bytePosition
    ensures Took(res, r, TakeUleb(old(r.Rest())))
  {
    ghost var start := r.byteOffset + r.bytePosition;
    res := r.ReadULEB();
    if res.Ok? {
      assert r.buffer[start..][r.byteOffset + r.bytePosition - start..] == r.Rest();
    }
  }

  method ReadSized(r: BcsReader, n: nat) returns (res: Result<bytes, ReadError>)
    requires r.Valid() && r.Whole()
    modifies r`bytePosition
    ensures Took(res, r, TakeBytes(old(r.Rest()), n))
  {
    ghost var start := r.byteOffset + r.bytePosition;
    res := r.ReadBytes(n);
    if res.Ok? {
      assert r.buffer[start..][..n] == r.buffer[start..start + n];
      assert r.buffer[start..][n..] == r.buffer[start + n..];
    }
  }

  function Number(x: Result<(bytes, bytes), ReadError>): Result<(nat, bytes), ReadError> {
    match x
    case Ok(b) => Ok((FromLittle(b.0), b.1))
    case Err(e) => Err(e)
  }

  // The read method of the type's width.
  method ReadUInt(r: BcsReader, size: nat) returns (res: Result<nat, ReadError>)
    requires r.Valid() && r.Whole() && size in {1, 2, 4, 8, 16, 32}
    modifies r`bytePosition
    ensures Took(res, r, Number(TakeBytes(old(r.Rest()), size)))
  {
    hide FromLittle;
    ghost var start, all := r.byteOffset + r.bytePosition, r.Rest();
    if start + size <= |r.buffer| {
      assert all[..size] == r.buffer[start..start + size];
      assert all[size..] == r.buffer[start + size..];
      LittleSingle(all[..1]);
    }
    if size == 1 {
      res := r.Read8();
    } else if size == 2 {
      res := r.Read16();
    } else if size == 4 {
      res := r.Read32();
    } else if size == 8 {
      res := r.Read64();
    } else if size == 16 {
      res := r.Read128();
    } else {
      res := r.Read256();
    }
  }

  lemma LittleSingle(b: bytes)
    requires |b| == 1
    ensures FromLittle(b) == b[0]
  {
  }

  // The head of each type.
  method ReadHeader(t: Schema, r: BcsReader) returns (res: Result<Head, ReadError>)
    requires r.Valid() && r.Whole() && WellFormed(t)
    modifies r`bytePosition
    ensures Took(res, r, ReadHead(t, old(r.Rest())))
  {
    hide FromLittle, TakeUleb, TakeBytes;
    match t
    case UInt(size) =>
      var x :- ReadUInt(r, size);
      res := Ok(Leaf(VInt(x)));
    case Bool =>
      var x :- ReadSized(r, 1);
      res := Ok(Leaf(VBool(x == [1])));
    case Uleb128 =>
      var x :- ReadLength(r);
      res := Ok(Leaf(VInt(x)));
    case FixedBytes(size) =>
      var x :- ReadSized(r, size);
      res := Ok(Leaf(VBytes(x)));
    case ByteVector =>
      var n :- ReadLength(r);
      var x :- ReadSized(r, n);
      res := Ok(Leaf(VBytes(x)));
    case Text =>
      var n :- ReadLength(r);
      var x :- ReadSized(r, n);
      res := Ok(Leaf(VText(x)));
    case FixedArray(size, _) => res := Ok(Count(size));
    case Vector(_) =>
      var n :- ReadLength(r);
      res := if n > MAX_ARRAY_LENGTH then Err(InvalidLength) else Ok(Count(n));
    case Tuple(ts) => res := Ok(Count(|ts|));
    case Struct(ms) => res := Ok(Count(|ms|));
    case Enum(vs) =>
      var n :- ReadLength(r);
      res := if n >= |vs| then Err(UnknownVariant) else Ok(Count(n));
    case OptionOf(_) =>
      var n :- ReadLength(r);
      res := if n >= 2 then Err(UnknownVariant) else Ok(Count(n));
    case MapOf(_, _) =>
      var n :- ReadLength(r);
      res := Ok(Count(n));
  }

  // One part after another.
  method ReadParts(ghost bound: Schema, ts: seq<Schema>, r: BcsReader) returns (res: Result<seq<Value>, ReadError>)
    requires r.Valid() && r.Whole() && TypesBelow(bound, ts)
    modifies r`bytePosition
    ensures Took(res, r, DecodeAll(bound, ts, old(r.Rest())))
    decreases bound, 0
  {
    hide WellFormed, Decode, DecodeAll;
    var vals: seq<Value> := [];
    ghost var whole := DecodeAll(bound, ts, r.Rest());
    assert ts[0..] == ts;
    ResumeNothing(whole);
    for i := 0 to |ts|
      invariant r.Whole() && |vals| == i
      invariant whole == Resume(vals, DecodeAll(bound, ts[i..], r.Rest()))
    {
      DecodeStep(bound, ts[i..], r.Rest(), vals);
      var v :- Read(ts[i], r);
      assert ts[i..][1..] == ts[i + 1..];
      vals := vals + [v];
    }
    assert ts[|ts|..] == [];
    DecodeNothing(bound, r.Rest());
    assert vals + [] == vals;
    return Ok(vals);
  }

  lemma ResumeNothing(rest: Result<(seq<Value>, bytes), ReadError>)
    ensures Resume([], rest) == rest
  {
    if rest.Ok? {
      assert [] + rest.value.0 == rest.value.0;
    }
  }

  lemma DecodeNothing(bound: Schema, bs: bytes)
    ensures DecodeAll(bound, [], bs) == Ok(([], bs))
  {
  }

  lemma DecodeStep(bound: Schema, ts: seq<Schema>, bs: bytes, vals: seq<Value>)
    requires ts != [] && TypesBelow(bound, ts)
    ensures TypesBelow(bound, ts[1..])
    ensures match Decode(ts[0], bs)
      case Err(e) => Resume(vals, DecodeAll(bound, ts, bs)) == Err(e)
      case Ok(x) => Resume(vals, DecodeAll(bound, ts, bs)) == Resume(vals + [x.0], DecodeAll(bound, ts[1..], x.1))
  {
    hide Decode, WellFormed;
    if Decode(ts[0], bs).Ok? {
      var x := Decode(ts[0], bs).value;
      var rest := DecodeAll(bound, ts[1..], x.1);
      if rest.Ok? {
        assert vals + ([x.0] + rest.value.0) == vals + [x.0] + rest.value.0;
      }
    }
  }

  lemma PartTypesBelow(t: Schema, h: Head)
    requires WellFormed(t) && ValidHead(t, h)
    ensures TypesBelow(t, PartTypes(t, h))
  {
  }

  lemma AssembleMap(t: Schema, h: Head)
    requires t.MapOf? && ValidHead(t, h)
    ensures forall vals: seq<Value> | |vals| == |PartTypes(t, h)| :: Assemble(t, h, vals) == VMap(BuildMap(vals))
  {
  }

  // read: the value at the cursor, which moves to its end.
  method Read(t: Schema, r: BcsReader) returns (res: Result<Value, ReadError>)
    requires r.Valid() && r.Whole() && WellFormed(t)
    modifies r`bytePosition
    ensures Took(res, r, Decode(t, old(r.Rest())))
    decreases t, 1
  {
    hide WellFormed, ReadHead, DecodeAll, PartTypes, Assemble;
    var h :- ReadHeader(t, r);
    PartTypesBelow(t, h);
    if t.MapOf? {
      AssembleMap(t, h);
      var entries :- ReadEntries(t, h.n, r);
      return Ok(VMap(entries));
    }
    var vals :- ReadParts(t, PartTypes(t, h), r);
    return Ok(Assemble(t, h, vals));
  }

  // The loop of a map: key, value, Map.set.
  method ReadEntries(t: Schema, n: nat, r: BcsReader) returns (res: Result<seq<(Value, Value)>, ReadError>)
    requires r.Valid() && r.Whole() && t.MapOf? && WellFormed(t)
    modifies r`bytePosition
    ensures match DecodeAll(t, PartTypes(t, Count(n)), old(r.Rest()))
      case Err(e) => res == Err(e)
      case Ok(x) => res == Ok(BuildMap(x.0)) && r.Whole() && r.Rest() == x.1
    decreases t, 0
  {
    hide WellFormed, Decode, DecodeAll, BuildMap, PartTypes;
    ghost var ts := PartTypes(t, Count(n));
    ghost var whole := DecodeAll(t, ts, r.Rest());
    ghost var vals: seq<Value> := [];
    var entries: seq<(Value, Value)> := [];
    WellFormedMap(t);
    MapTypes(t, n);
    assert ts[0..] == ts;
    ResumeNothing(whole);
    for i := 0 to n
      invariant r.Whole() && |vals| == 2 * i && entries == BuildMap(vals)
      invariant whole == Resume(vals, DecodeAll(t, ts[2 * i..], r.Rest()))
    {
      TailTypes(t, ts, 2 * i);
      DecodeStep(t, ts[2 * i..], r.Rest(), vals);
      var k :- Read(t.key, r);
      DecodeStep(t, ts[2 * i + 1..], r.Rest(), vals + [k]);
      var v :- Read(t.value, r);
      BuildLast(vals, (k, v));
      entries := MapSet(entries, k, v);
      assert vals + [k] + [v] == vals + [k, v];
      vals := vals + [k, v];
    }
    assert ts[2 * n..] == [];
    DecodeNothing(t, r.Rest());
    assert vals + [] == vals;
    return Ok(entries);
  }

  lemma MapTypes(t: Schema, n: nat)
    requires t.MapOf? && WellFormed(t)
    ensures var ts := PartTypes(t, Count(n));
      |ts| == 2 * n && TypesBelow(t, ts) && forall i | 0 <= i < |ts| :: ts[i] == if i % 2 == 0 then t.key else t.value
    ensures BuildMap([]) == []
  {
  }

  lemma TailTypes(t: Schema, ts: seq<Schema>, i: nat)
    requires t.MapOf? && i % 2 == 0 && i + 1 < |ts| && TypesBelow(t, ts)
    requires forall k | 0 <= k < |ts| :: ts[k] == if k % 2 == 0 then t.key else t.value
    ensures TypesBelow(t, ts[i..]) && ts[i..][0] == t.key && ts[i..][1..] == ts[i + 1..]
    ensures TypesBelow(t, ts[i + 1..]) && ts[i + 1..][0] == t.value && ts[i + 1..][1..] == ts[i + 2..]
  {
  }

  // ---------- parse ----------

  // parse: bytes after the value are ignored.
  method Parse(t: Schema, data: bytes) returns (res: Result<Value, ReadError>)
    requires WellFormed(t)
    ensures match Decode(t, data)
      case Err(e) => res == Err(e)
      case Ok(x) => res == Ok(x.0)
  {
    hide WellFormed, Decode;
    var reader := new BcsReader(data, 0, |data|);
    assert reader.Rest() == data;
    res := Read(t, reader);
  }

  // Parsing what was serialized gives the value with its maps sorted exactly when it is canonical
  // but for the order of map entries, and the value itself exactly when it is canonical.
  lemma ParseSerialized(t: Schema, v: Value)
    requires WellFormed(t) && Accepts(t, v) && Fits(t, v)
    ensures Decode(t, Encode(t, v)) == Ok((Canon(t, v), []))
    ensures Canon(t, v) == SortedMaps(t, v) <==> IsRestorable(t, v)
    ensures Canon(t, v) == v <==> IsCanonical(t, v)
  {
    hide WellFormed, Accepts, Fits, Encode, Decode, Canon, IsCanonical, IsRestorable, SortedMaps;
    RoundTrip(t, v, []);
    assert Encode(t, v) + [] == Encode(t, v);
    RestoredIff(t, v);
    if IsCanonical(t, v) {
      CanonicalRestored(t, v);
    }
    if Canon(t, v) == v {
      RestoredCanonical(t, v);
    }
  }

  // A null payload of an enum variant is read back as true.
  lemma NullPayloadLost(name: string, inner: Schema)
    ensures var t := Enum([Variant(name, Some(OptionOf(inner)))]);
      var v := VEnum(name, VNull);
      Accepts(t, v) && Canon(t, v) == VEnum(name, VBool(true)) && Encode(t, v) == [0, 0]
  {
    var t := Enum([Variant(name, Some(OptionOf(inner)))]);
    var v := VEnum(name, VNull);
    assert Parts(OptionOf(inner), VNull) == [];
    assert Accepts(OptionOf(inner), VNull);
    assert [Variant(name, Some(OptionOf(inner)))][..0] == [];
    assert VariantIndex(t.variants, name) == Some(0);
    assert Parts(t, v) == [(OptionOf(inner), VNull)];
    assert Accepts(t, v);
    NullOption(inner);
    OnePart(t, (OptionOf(inner), VNull));
  }

  lemma NullOption(inner: Schema)
    ensures Accepts(OptionOf(inner), VNull)
    ensures Encode(OptionOf(inner), VNull) == [0] && Canon(OptionOf(inner), VNull) == VNull
  {
    assert Parts(OptionOf(inner), VNull) == [];
  }

  lemma OnePart(bound: Schema, p: Piece)
    requires p.0 < bound && Accepts(p.0, p.1)
    ensures EncodeAll(bound, [p]) == Encode(p.0, p.1) && CanonAll(bound, [p]) == [Canon(p.0, p.1)]
  {
    hide Encode, Canon, Accepts;
    assert [p][1..] == [];
  }
}
