// The bytes of every type, spelled out.

module BcsFormat {
  import opened Wrappers
  import opened Uleb
  import opened Writing
  import opened Bcs
  import opened BcsOrder

  // ---------- What is accepted ----------

  // Integers in range, and null for those of at most four bytes; byte strings of the fixed size.
  lemma LeafAccepted(t: Schema, v: Value)
    requires IsLeaf(t)
    ensures t.UInt? ==> (Accepts(t, v) <==> (v.VInt? && 0 <= v.n < Pow256(t.size)) || (v.VNull? && t.size <= 4))
    ensures t.Bool? ==> (Accepts(t, v) <==> v.VBool?)
    ensures t.Uleb128? ==> (Accepts(t, v) <==> v.VInt?)
    ensures t.FixedBytes? ==> (Accepts(t, v) <==> v.VBytes? && |v.data| == t.size)
    ensures t.ByteVector? ==> (Accepts(t, v) <==> v.VBytes?)
    ensures t.Text? ==> (Accepts(t, v) <==> v.VText?)
  {
    if Shape(t, v) {
      assert Parts(t, v) == [];
    }
  }

  // As many elements as the type fixes and every declared field; a missing field is null.
  lemma PartsAcceptedIff(t: Schema, v: Value)
    ensures t.FixedArray? ==> (Accepts(t, v) <==>
      v.VSeq? && |v.items| == t.size && forall i | 0 <= i < |v.items| :: Accepts(t.element, v.items[i]))
    ensures t.Vector? ==> (Accepts(t, v) <==>
      v.VSeq? && forall i | 0 <= i < |v.items| :: Accepts(t.element, v.items[i]))
    ensures t.Tuple? ==> (Accepts(t, v) <==>
      v.VSeq? && |v.items| == |t.fields| && forall i | 0 <= i < |v.items| :: Accepts(t.fields[i], v.items[i]))
    ensures t.Struct? ==> (Accepts(t, v) <==>
      v.VRecord? && forall i | 0 <= i < |t.members| :: Accepts(t.members[i].schema, Field(v.fields, t.members[i].name)))
    ensures t.OptionOf? ==> (Accepts(t, v) <==> v.VNull? || Accepts(t.inner, v))
    ensures t.MapOf? ==> (Accepts(t, v) <==>
      v.VMap? && forall e | e in v.entries :: Accepts(t.key, e.0) && Accepts(t.value, e.1))
  {
    AcceptsIs(t, v);
    hide Accepts;
    if Shape(t, v) {
      if t.MapOf? {
        MapPartsAre(t, v);
        hide Parts;
        EntriesAcceptedIff(t.key, t.value, v.entries);
      } else if t.OptionOf? && !v.VNull? {
        assert Parts(t, v) == [(t.inner, v)];
        assert Parts(t, v)[0] == (t.inner, v);
      } else if t.FixedArray? || t.Vector? || t.Tuple? || t.Struct? {
        var ps := Parts(t, v);
        if forall i | 0 <= i < |ps| :: Accepts(ps[i].0, ps[i].1) {
          forall i | 0 <= i < |ps|
            ensures t.FixedArray? || t.Vector? ==> Accepts(t.element, v.items[i])
            ensures t.Tuple? ==> Accepts(t.fields[i], v.items[i])
            ensures t.Struct? ==> Accepts(t.members[i].schema, Field(v.fields, t.members[i].name))
          {
            assert ps[i] == Item(t, v, i);
          }
        }
      }
    }
  }

  lemma AcceptsIs(t: Schema, v: Value)
    ensures Accepts(t, v) <==>
      Shape(t, v) && forall i | 0 <= i < |Parts(t, v)| :: Accepts(Parts(t, v)[i].0, Parts(t, v)[i].1)
  {
  }

  lemma EntriesAcceptedIff(k: Schema, w: Schema, entries: seq<(Value, Value)>)
    ensures (forall i | 0 <= i < |Interleave(k, w, entries)| ::
              Accepts(Interleave(k, w, entries)[i].0, Interleave(k, w, entries)[i].1))
      <==> forall e | e in entries :: Accepts(k, e.0) && Accepts(w, e.1)
  {
    hide Accepts;
    var ps := Interleave(k, w, entries);
    if forall i | 0 <= i < |ps| :: Accepts(ps[i].0, ps[i].1) {
      forall e | e in entries
        ensures Accepts(k, e.0) && Accepts(w, e.1)
      {
        var i :| 0 <= i < |entries| && entries[i] == e;
        assert ps[2 * i] == (k, e.0) && ps[2 * i + 1] == (w, e.1);
      }
    }
  }

  // A variant of the type, with its payload accepted.
  lemma VariantAccepted(t: Schema, v: Value)
    requires t.Enum? && WellFormed(t)
    ensures Accepts(t, v) <==> v.VEnum? && exists i | 0 <= i < |t.variants| :: TakesVariant(t.variants[i], v)
  {
    AcceptsIs(t, v);
    hide Accepts, VariantIndex;
    if v.VEnum? && VariantIndex(t.variants, v.tag).Some? {
      var i := VariantIndex(t.variants, v.tag).value;
      var payload := t.variants[i].payload;
      if payload.Some? {
        assert Parts(t, v) == [(payload.value, v.payload)];
        assert Parts(t, v)[0] == (payload.value, v.payload);
      } else {
        assert Parts(t, v) == [];
      }
      assert Accepts(t, v) <==> TakesVariant(t.variants[i], v);
    }
  }

  ghost predicate TakesVariant(variant: Variant, v: Value)
    requires v.VEnum?
  {
    variant.name == v.tag && (variant.payload.Some? ==> Accepts(variant.payload.value, v.payload))
  }

  // ---------- What is written ----------

  // Integers are little-endian, Booleans 0 or 1; byte strings and text follow their length, unless it
  // is fixed.
  lemma LeafFormat(t: Schema, v: Value)
    requires Accepts(t, v) && IsLeaf(t)
    ensures t.UInt? ==> |Encode(t, v)| == t.size
    ensures t.UInt? ==> forall i | 0 <= i < t.size :: Encode(t, v)[i] == if v.VNull? then 0 else Upper(v.n, i) % 256
    ensures t.Bool? ==> Encode(t, v) == [if v.b then 1 else 0]
    ensures t.Uleb128? && v.n >= 0 ==> Encode(t, v) == Encoding(v.n)
    ensures t.FixedBytes? ==> Encode(t, v) == v.data
    ensures t.ByteVector? ==> Encode(t, v) == Encoding(|v.data|) + v.data
    ensures t.Text? ==> Encode(t, v) == Encoding(|v.utf8|) + v.utf8
  {
    assert Shape(t, v) && Parts(t, v) == [];
    OrderedIsParts(t, v);
    EncodeIs(t, v);
    assert Encode(t, v) == Header(t, v);
    hide Accepts, Encode, Encoding, Little, Ordered;
    if t.UInt? && v.VInt? {
      forall i | 0 <= i < t.size
        ensures Encode(t, v)[i] == Upper(v.n, i) % 256
      {
        LittleAt(v.n, t.size, i);
      }
    }
  }

  // An absent option is 0, a present one 1 and its value; a variant is its index and its payload.
  lemma ChoiceFormat(t: Schema, v: Value)
    requires Accepts(t, v) && (t.OptionOf? || t.Enum?)
    ensures t.OptionOf? && v.VNull? ==> Encode(t, v) == [0]
    ensures t.OptionOf? && !v.VNull? ==> Accepts(t.inner, v) && Encode(t, v) == [1] + Encode(t.inner, v)
    ensures t.Enum? ==> exists i | 0 <= i < |t.variants| ::
      t.variants[i].name == v.tag && VariantFormat(t, v, i)
  {
    assert Shape(t, v);
    var ps := Parts(t, v);
    assert forall i | 0 <= i < |ps| :: Accepts(ps[i].0, ps[i].1);
    OrderedIsParts(t, v);
    EncodeIs(t, v);
    hide Accepts, Encode, Ordered, VariantIndex;
    if ps != [] {
      assert ps == [ps[0]];
      OnePart(t, ps[0]);
    }
    if t.Enum? {
      assert VariantFormat(t, v, VariantIndex(t.variants, v.tag).value);
    } else {
      EncodingStep(if v.VNull? then 0 else 1);
    }
  }

  ghost predicate VariantFormat(t: Schema, v: Value, i: nat)
    requires t.Enum? && v.VEnum? && i < |t.variants| && Accepts(t, v)
  {
    match t.variants[i].payload
    case None => Encode(t, v) == Encoding(i)
    case Some(p) => Accepts(p, v.payload) && Encode(t, v) == Encoding(i) + Encode(p, v.payload)
  }

  lemma OnePart(t: Schema, p: Piece)
    requires p.0 < t && Accepts(p.0, p.1)
    ensures EncodeAll(t, [p]) == Encode(p.0, p.1)
  {
    hide Accepts, Encode;
    assert [p][1..] == [];
  }

  function Joined(chunks: seq<bytes>): bytes {
    if chunks == [] then [] else chunks[0] + Joined(chunks[1..])
  }

  lemma {:induction false} JoinedParts(bound: Schema, ps: seq<Piece>) returns (chunks: seq<bytes>)
    requires forall i | 0 <= i < |ps| :: ps[i].0 < bound && Accepts(ps[i].0, ps[i].1)
    ensures |chunks| == |ps| && forall i | 0 <= i < |ps| :: chunks[i] == Encode(ps[i].0, ps[i].1)
    ensures EncodeAll(bound, ps) == Joined(chunks)
    decreases |ps|
  {
    hide Accepts, Encode;
    if ps == [] {
      chunks := [];
    } else {
      var rest := JoinedParts(bound, ps[1..]);
      chunks := [Encode(ps[0].0, ps[0].1)] + rest;
    }
  }

  // Element i of a sequence, tuple or struct, with its type.
  function Item(t: Schema, v: Value, i: nat): Piece
    requires Shape(t, v) && (t.FixedArray? || t.Vector? || t.Tuple? || t.Struct?) && i < |Parts(t, v)|
  {
    if t.FixedArray? then (t.element, v.items[i])
    else if t.Vector? then (t.element, v.items[i])
    else if t.Tuple? then (t.fields[i], v.items[i])
    else (t.members[i].schema, Field(v.fields, t.members[i].name))
  }

  // Elements follow one another; a vector starts with their number.
  lemma SequenceFormat(t: Schema, v: Value) returns (chunks: seq<bytes>)
    requires Accepts(t, v) && (t.FixedArray? || t.Vector? || t.Tuple? || t.Struct?)
    ensures Shape(t, v)
    ensures |chunks| == |Parts(t, v)|
      == if t.Struct? then |t.members| else |v.items|
    ensures forall i | 0 <= i < |chunks| :: var p := Item(t, v, i); Accepts(p.0, p.1) && chunks[i] == Encode(p.0, p.1)
    ensures Encode(t, v) == (if t.Vector? then Encoding(|v.items|) else []) + Joined(chunks)
  {
    assert Shape(t, v);
    var ps := Parts(t, v);
    assert forall i | 0 <= i < |ps| :: ps[i].0 < t && Accepts(ps[i].0, ps[i].1);
    assert forall i | 0 <= i < |ps| :: ps[i] == Item(t, v, i);
    OrderedIsParts(t, v);
    EncodeIs(t, v);
    hide Accepts, Encode, Ordered, Parts, Encoding, Item, Shape;
    chunks := JoinedParts(t, ps);
    assert Header(t, v) == if t.Vector? then Encoding(|v.items|) else [];
  }

  // A map is its number of entries and then every key and its value, in the order of the keys' bytes.
  lemma MapFormat(t: Schema, v: Value) returns (es: seq<Entry>, chunks: seq<bytes>)
    requires Accepts(t, v) && t.MapOf?
    ensures v.VMap? && |es| == |v.entries| && |chunks| == 2 * |es|
    ensures multiset(es) == multiset(Keyed(t, v))
    ensures forall i, j | 0 <= i < j < |es| :: !Precedes(es[j].keyBytes, es[i].keyBytes)
    ensures forall i | 0 <= i < |es| :: EntryWritten(t, es[i], chunks[2 * i], chunks[2 * i + 1])
    ensures Encode(t, v) == Encoding(|es|) + Joined(chunks)
  {
    hide *;
    MapHeader(t, v);
    es := InOrder(t, v);
    InOrderAccepted(t, v);
    EncodeIs(t, v);
    OrderedIs(t, v);
    chunks := JoinedParts(t, Ordered(t, v));
    forall i | 0 <= i < |es|
      ensures EntryWritten(t, es[i], chunks[2 * i], chunks[2 * i + 1])
    {
      OrderedAt(t, v, i);
      EntryHolds(t, es[i]);
    }
    forall i, j | 0 <= i < j < |es|
      ensures !Precedes(es[j].keyBytes, es[i].keyBytes)
    {
      SortedPlaces(es, i, j);
    }
  }

  // The key's bytes and the value's.
  ghost predicate EntryWritten(t: Schema, e: Entry, key: bytes, value: bytes)
    requires t.MapOf?
  {
    && Accepts(t.key, e.key) && Encode(t.key, e.key) == e.keyBytes == key
    && Accepts(t.value, e.value) && Encode(t.value, e.value) == value
  }

  lemma EntryHolds(t: Schema, e: Entry)
    requires t.MapOf? && EntryAccepted(t, e)
    ensures Accepts(t.key, e.key) && Accepts(t.value, e.value)
    ensures EntryWritten(t, e, Encode(t.key, e.key), Encode(t.value, e.value))
  {
    hide Accepts, Encode;
  }

  lemma MapHeader(t: Schema, v: Value)
    requires Accepts(t, v) && t.MapOf?
    ensures Shape(t, v) && v.VMap? && Header(t, v) == Encoding(|v.entries|)
    ensures multiset(InOrder(t, v)) == multiset(Keyed(t, v))
    ensures |Ordered(t, v)| == 2 * |v.entries|
  {
    assert Shape(t, v);
    MapPartsAre(t, v);
    hide Accepts, Encode, Ordered, Parts, Keyed, SortEntries, Encoding;
  }

  lemma SortedPlaces(es: seq<Entry>, i: nat, j: nat)
    requires IsSorted(es) && i < j < |es|
    ensures !Precedes(es[j].keyBytes, es[i].keyBytes)
  {
    LexPointwise(es[j].keyBytes, es[i].keyBytes);
    hide LexLess, Precedes;
  }
}
