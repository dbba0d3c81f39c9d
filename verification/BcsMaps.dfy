// Canonical maps and precomputed sizes.

module BcsMaps {
  import opened Wrappers
  import opened Uleb
  import opened Writing
  import opened Bcs
  import opened BcsOrder

  // ---------- Maps ----------

  ghost predicate IsStrict(es: seq<Entry>) {
    forall i, j | 0 <= i < j < |es| :: LexLess(es[i].keyBytes, es[j].keyBytes)
  }

  ghost predicate DistinctBytes(es: seq<Entry>) {
    forall i, j | 0 <= i < j < |es| :: es[i].keyBytes != es[j].keyBytes
  }

  lemma SortedDistinctStrict(es: seq<Entry>)
    requires IsSorted(es) && DistinctBytes(es)
    ensures IsStrict(es)
  {
    hide LexLess;
    forall i, j | 0 <= i < j < |es|
      ensures LexLess(es[i].keyBytes, es[j].keyBytes)
    {
      LexTotal(es[i].keyBytes, es[j].keyBytes);
    }
  }

  lemma {:induction false} InsertDistinct(sorted: seq<Entry>, e: Entry)
    requires DistinctBytes(sorted) && forall x | x in sorted :: x.keyBytes != e.keyBytes
    ensures DistinctBytes(InsertEntry(sorted, e))
  {
    hide LexLess;
    var n := |sorted|;
    if n > 0 && LexLess(e.keyBytes, sorted[n - 1].keyBytes) {
      var front, last := sorted[..n - 1], sorted[n - 1];
      InsertDistinct(front, e);
      var r := InsertEntry(front, e);
      forall i | 0 <= i < |r|
        ensures r[i].keyBytes != last.keyBytes
      {
        assert r[i] in multiset(r);
        assert r[i] == e || r[i] in front;
      }
    }
  }

  lemma {:induction false} SortDistinct(es: seq<Entry>)
    requires DistinctBytes(es)
    ensures DistinctBytes(SortEntries(es))
  {
    var n := |es|;
    if n > 0 {
      var front := es[..n - 1];
      SortDistinct(front);
      forall x | x in SortEntries(front)
        ensures x.keyBytes != es[n - 1].keyBytes
      {
        var k := SortedFrom(front, x);
      }
      InsertDistinct(SortEntries(front), es[n - 1]);
    }
  }

  // Entries with different key bytes are written in strictly increasing order of those bytes.
  lemma SortIsStrict(es: seq<Entry>)
    requires DistinctBytes(es)
    ensures IsStrict(SortEntries(es))
    ensures forall i, j | 0 <= i < j < |es| :: Precedes(SortEntries(es)[i].keyBytes, SortEntries(es)[j].keyBytes)
  {
    SortDistinct(es);
    SortIsSorted(es);
    SortedDistinctStrict(SortEntries(es));
    hide LexLess, Precedes, SortEntries;
    forall i, j | 0 <= i < j < |es|
      ensures Precedes(SortEntries(es)[i].keyBytes, SortEntries(es)[j].keyBytes)
    {
      LexPointwise(SortEntries(es)[i].keyBytes, SortEntries(es)[j].keyBytes);
    }
  }

  lemma LastMember(a: seq<Entry>, b: seq<Entry>)
    requires IsStrict(a) && IsStrict(b) && a != [] && b != []
    requires forall e :: e in a <==> e in b
    ensures a[|a| - 1] == b[|b| - 1]
  {
    hide LexLess;
    var x, y := a[|a| - 1], b[|b| - 1];
    assert x in a && y in b;
    var i :| 0 <= i < |b| && b[i] == x;
    var j :| 0 <= j < |a| && a[j] == y;
    if i < |b| - 1 && j < |a| - 1 {
      LexTotal(x.keyBytes, y.keyBytes);
    }
  }

  // A strictly increasing sequence is determined by its members.
  lemma {:induction false} StrictUnique(a: seq<Entry>, b: seq<Entry>)
    requires IsStrict(a) && IsStrict(b)
    requires forall e :: e in a <==> e in b
    ensures a == b
    decreases |a|
  {
    assert a != [] ==> a[0] in b;
    assert b != [] ==> b[0] in a;
    if a != [] {
      LastMember(a, b);
      var x := a[|a| - 1];
      FrontMembers(a);
      FrontMembers(b);
      hide IsStrict;
      var af, bf := a[..|a| - 1], b[..|b| - 1];
      forall e
        ensures e in af <==> e in bf
      {
        assert e in af <==> e in a && e != x;
        assert e in bf <==> e in b && e != x;
      }
      StrictUnique(af, bf);
      assert a == a[..|a| - 1] + [x] && b == b[..|b| - 1] + [x];
    }
  }

  lemma FrontMembers(a: seq<Entry>)
    requires IsStrict(a) && a != []
    ensures forall e :: e in a[..|a| - 1] <==> e in a && e != a[|a| - 1]
    ensures IsStrict(a[..|a| - 1])
  {
    hide LexLess;
    var x := a[|a| - 1];
    forall e
      ensures e in a[..|a| - 1] <==> e in a && e != x
    {
      if e in a[..|a| - 1] {
        var i :| 0 <= i < |a| - 1 && a[..|a| - 1][i] == e;
        assert a[i] == e;
        LexTotal(e.keyBytes, x.keyBytes);
      }
      if e in a && e != x {
        var i :| 0 <= i < |a| && a[i] == e;
        assert a[..|a| - 1][i] == e;
      }
    }
  }

  lemma KeyedMembers(t: Schema, v: Value, w: Value)
    requires t.MapOf? && Accepts(t, v) && Accepts(t, w)
    requires forall e :: e in v.entries ==> e in w.entries
    ensures forall e :: e in Keyed(t, v) ==> e in Keyed(t, w)
  {
    EntriesAccepted(t, v);
    EntriesAccepted(t, w);
    hide Accepts, Encode;
    forall e | e in Keyed(t, v)
      ensures e in Keyed(t, w)
    {
      var i :| 0 <= i < |v.entries| && Keyed(t, v)[i] == e;
      assert v.entries[i] in v.entries;
      var j :| 0 <= j < |w.entries| && w.entries[j] == v.entries[i];
      assert Keyed(t, w)[j] == e;
    }
  }

  // Two insertion orders of the same entries have the same sorted entries.
  lemma SameSorted(t: Schema, v: Value, w: Value)
    requires t.MapOf? && Accepts(t, v) && Accepts(t, w)
    requires multiset(v.entries) == multiset(w.entries)
    requires DistinctBytes(Keyed(t, v)) && DistinctBytes(Keyed(t, w))
    ensures SortEntries(Keyed(t, v)) == SortEntries(Keyed(t, w))
  {
    forall e
      ensures e in v.entries <==> e in w.entries
    {
      assert e in v.entries <==> e in multiset(v.entries);
      assert e in w.entries <==> e in multiset(w.entries);
    }
    KeyedMembers(t, v, w);
    KeyedMembers(t, w, v);
    var es, fs := Keyed(t, v), Keyed(t, w);
    SortIsStrict(es);
    SortIsStrict(fs);
    hide Keyed, Accepts, DistinctBytes, IsStrict;
    forall e
      ensures e in SortEntries(es) <==> e in SortEntries(fs)
    {
      SameMembers(es, e);
      SameMembers(fs, e);
    }
    StrictUnique(SortEntries(es), SortEntries(fs));
  }

  lemma SameMembers(es: seq<Entry>, e: Entry)
    ensures e in SortEntries(es) <==> e in es
  {
    assert e in SortEntries(es) <==> e in multiset(SortEntries(es));
    assert e in es <==> e in multiset(es);
  }

  // Keys that are canonical but for the order of their own maps.
  ghost predicate KeysRestorable(t: Schema, entries: seq<(Value, Value)>)
    requires t.MapOf?
  {
    forall i | 0 <= i < |entries| ::
      Accepts(t.key, entries[i].0) && Fits(t.key, entries[i].0) && IsRestorable(t.key, entries[i].0)
  }

  // Keys that differ in more than the order of their own maps.
  ghost predicate KeysDiffer(t: Schema, entries: seq<(Value, Value)>)
    requires t.MapOf? && KeysRestorable(t, entries)
  {
    forall i, j | 0 <= i < j < |entries| ::
      SortedMaps(t.key, entries[i].0) != SortedMaps(t.key, entries[j].0)
  }

  // Different keys have different bytes.
  lemma KeysDistinct(t: Schema, v: Value)
    requires t.MapOf? && WellFormed(t.key) && Accepts(t, v)
    requires KeysRestorable(t, v.entries) && KeysDiffer(t, v.entries)
    ensures DistinctBytes(Keyed(t, v))
  {
    var k, es, entries := t.key, Keyed(t, v), v.entries;
    hide WellFormed, Accepts, Fits, IsRestorable, Encode, Canon, SortedMaps;
    forall i, j | 0 <= i < j < |es|
      ensures es[i].keyBytes != es[j].keyBytes
    {
      var x, y := entries[i].0, entries[j].0;
      RestoredIff(k, x);
      RestoredIff(k, y);
      if Encode(k, x) == Encode(k, y) {
        EncodeInjective(k, x, y, [], []);
      }
    }
  }

  // Canonical keys that differ at all differ in this sense.
  lemma CanonicalKeysDiffer(t: Schema, entries: seq<(Value, Value)>)
    requires t.MapOf? && WellFormed(t.key)
    requires forall i | 0 <= i < |entries| ::
      Accepts(t.key, entries[i].0) && Fits(t.key, entries[i].0) && IsCanonical(t.key, entries[i].0)
    requires forall i, j | 0 <= i < j < |entries| :: entries[i].0 != entries[j].0
    ensures KeysRestorable(t, entries) && KeysDiffer(t, entries)
  {
    hide WellFormed, Accepts, Fits, IsCanonical, IsRestorable, SortedMaps;
    forall i | 0 <= i < |entries|
      ensures IsRestorable(t.key, entries[i].0) && SortedMaps(t.key, entries[i].0) == entries[i].0
    {
      CanonicalRestorable(t.key, entries[i].0);
      CanonicalSorted(t.key, entries[i].0);
    }
  }

  // The bytes of a map do not depend on the order its entries were inserted in.
  lemma MapOrderIrrelevant(t: Schema, v: Value, w: Value)
    requires t.MapOf? && Accepts(t, v) && Accepts(t, w)
    requires multiset(v.entries) == multiset(w.entries)
    requires DistinctBytes(Keyed(t, v)) && DistinctBytes(Keyed(t, w))
    ensures Encode(t, v) == Encode(t, w)
  {
    SameSorted(t, v, w);
    assert |v.entries| == |multiset(v.entries)| == |multiset(w.entries)| == |w.entries|;
    hide Accepts, Keyed, EncodeAll, SortEntries, Interleave;
  }

  // Two insertion orders of a map with different keys write the same bytes.
  lemma InsertionOrderIrrelevant(t: Schema, v: Value, w: Value)
    requires t.MapOf? && WellFormed(t.key) && Accepts(t, v) && Accepts(t, w)
    requires KeysRestorable(t, v.entries) && KeysDiffer(t, v.entries)
    requires multiset(v.entries) == multiset(w.entries)
    ensures Encode(t, v) == Encode(t, w)
  {
    hide *;
    KeysDistinct(t, v);
    PermutedBytes(t, v, w);
    MapOrderIrrelevant(t, v, w);
  }

  // Permuting the entries keeps their keys' bytes distinct.
  lemma PermutedBytes(t: Schema, v: Value, w: Value)
    requires t.MapOf? && Accepts(t, v) && Accepts(t, w)
    requires multiset(v.entries) == multiset(w.entries) && DistinctBytes(Keyed(t, v))
    ensures DistinctBytes(Keyed(t, w))
  {
    assert v.VMap? && w.VMap?;
    hide *;
    var es, fs := Keyed(t, v), Keyed(t, w);
    forall i, j | 0 <= i < j < |fs|
      ensures fs[i].keyBytes != fs[j].keyBytes
    {
      var x, y := w.entries[i], w.entries[j];
      assert x in multiset(w.entries) && y in multiset(w.entries);
      var p := Place(v.entries, x);
      var q := Place(v.entries, y);
      if x == y {
        CountedTwice(w.entries, i, j);
        p, q := TwoPlaces(v.entries, x);
      }
      BytesAt(t, v, w, p, i);
      BytesAt(t, v, w, q, j);
      BytesDiffer(es, p, q);
    }
    DistinctBytesIs(fs);
  }

  lemma BytesAt(t: Schema, v: Value, w: Value, i: nat, j: nat)
    requires t.MapOf? && Accepts(t, v) && Accepts(t, w)
    requires i < |v.entries| && j < |w.entries| && v.entries[i] == w.entries[j]
    ensures Keyed(t, v)[i].keyBytes == Keyed(t, w)[j].keyBytes
  {
    hide *;
    KeyedBytes(t, v, i);
    KeyedBytes(t, w, j);
  }

  lemma BytesDiffer(es: seq<Entry>, p: nat, q: nat)
    requires DistinctBytes(es) && p < |es| && q < |es| && p != q
    ensures es[p].keyBytes != es[q].keyBytes
  {
  }

  lemma DistinctBytesIs(es: seq<Entry>)
    requires forall i, j | 0 <= i < j < |es| :: es[i].keyBytes != es[j].keyBytes
    ensures DistinctBytes(es)
  {
  }

  // ---------- serializedSize ----------

  function SerializedSize(t: Schema, v: Value): Option<nat>
    requires Accepts(t, v)
    decreases t, 1, 0
  {
    match t
    case UInt(size) => Some(size)
    case Bool => Some(1)
    case FixedBytes(size) => Some(size)
    case ByteVector => Some(|Encoding(|v.data|)| + |v.data|)
    case Tuple(_) => SizeOfAll(t, Parts(t, v))
    case Struct(_) => SizeOfAll(t, Parts(t, v))
    case _ => None
  }

  // The sum of the parts' sizes, or nothing if one is unknown.
  function SizeOfAll(ghost bound: Schema, ps: seq<Piece>): Option<nat>
    requires forall i | 0 <= i < |ps| :: ps[i].0 < bound && Accepts(ps[i].0, ps[i].1)
    decreases bound, 0, |ps|
  {
    if ps == [] then Some(0)
    else
      var last := |ps| - 1;
      match (SizeOfAll(bound, ps[..last]), SerializedSize(ps[last].0, ps[last].1))
      case (Some(front), Some(size)) => Some(front + size)
      case _ => None
  }

  // A size that is known in advance is the length of the output.
  lemma {:induction false} SizeIsLength(t: Schema, v: Value)
    requires Accepts(t, v) && SerializedSize(t, v).Some?
    ensures SerializedSize(t, v).value == |Encode(t, v)|
    decreases t, 1, 0
  {
    assert Shape(t, v);
    assert !t.MapOf?;
    OrderedIsParts(t, v);
    hide Accepts, Encoding, Little;
    if t.Tuple? || t.Struct? {
      SizesAreLengths(t, Parts(t, v));
    }
  }

  lemma {:induction false} SizesAreLengths(bound: Schema, ps: seq<Piece>)
    requires forall i | 0 <= i < |ps| :: ps[i].0 < bound && Accepts(ps[i].0, ps[i].1)
    requires SizeOfAll(bound, ps).Some?
    ensures SizeOfAll(bound, ps).value == |EncodeAll(bound, ps)|
    decreases bound, 0, |ps|
  {
    hide Accepts, Encode, SerializedSize;
    if ps != [] {
      var last := |ps| - 1;
      SizesAreLengths(bound, ps[..last]);
      SizeIsLength(ps[last].0, ps[last].1);
      EncodeAllConcat(bound, ps[..last], ps[last..]);
      assert ps == ps[..last] + ps[last..];
    }
  }

  lemma {:induction false} EncodeAllConcat(bound: Schema, ps: seq<Piece>, qs: seq<Piece>)
    requires forall i | 0 <= i < |ps| :: ps[i].0 < bound && Accepts(ps[i].0, ps[i].1)
    requires forall i | 0 <= i < |qs| :: qs[i].0 < bound && Accepts(qs[i].0, qs[i].1)
    ensures EncodeAll(bound, ps + qs) == EncodeAll(bound, ps) + EncodeAll(bound, qs)
    decreases |ps|
  {
    hide Accepts, Encode;
    if ps == [] {
      assert ps + qs == qs;
    } else {
      EncodeAllConcat(bound, ps[1..], qs);
      assert (ps + qs)[1..] == ps[1..] + qs;
    }
  }
}
