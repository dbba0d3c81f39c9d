// Map order: which values are read back as written up to the order of their map entries, and
// which exactly.

module BcsOrder {
  import opened Wrappers
  import opened Uleb
  import opened Writing
  import opened Reading
  import opened Bcs

  // ---------- Sorting every map of a value ----------

  // The values of a map's parts, two and two.
  function Pairs(vals: seq<Value>): (r: seq<(Value, Value)>)
    ensures |r| == |vals| / 2
  {
    seq(|vals| / 2, i requires 0 <= i < |vals| / 2 => (vals[2 * i], vals[2 * i + 1]))
  }

  // A record whose declared fields have new values; a missing field stays missing.
  function Replaced(fields: map<string, Value>, ms: seq<Member>, vals: seq<Value>): (r: map<string, Value>)
    requires |ms| == |vals|
    ensures r.Keys == fields.Keys
  {
    if ms == [] then fields
    else
      var last := |ms| - 1;
      var rest := Replaced(fields, ms[..last], vals[..last]);
      if ms[last].name in fields then rest[ms[last].name := vals[last]] else rest
  }

  // The value with other parts.
  function WithParts(t: Schema, v: Value, vals: seq<Value>): Value
    requires Shape(t, v) && |vals| == |Parts(t, v)|
  {
    match t
    case FixedArray(_, _) => VSeq(vals)
    case Vector(_) => VSeq(vals)
    case Tuple(_) => VSeq(vals)
    case Struct(ms) => VRecord(Replaced(v.fields, ms, vals))
    case Enum(_) => VEnum(v.tag, if vals == [] then v.payload else vals[0])
    case OptionOf(_) => if vals == [] then v else vals[0]
    case MapOf(_, _) => VMap(Pairs(vals))
    case _ => v
  }

  // The value with the entries of every map, at every depth, in the order of their keys' bytes,
  // and nothing else changed.
  function SortedMaps(t: Schema, v: Value): Value
    requires Accepts(t, v)
    decreases t, 1, 0
  {
    WithParts(t, v, SortedAll(t, Ordered(t, v)))
  }

  function SortedAll(ghost bound: Schema, ps: seq<Piece>): (vals: seq<Value>)
    requires forall i | 0 <= i < |ps| :: ps[i].0 < bound && Accepts(ps[i].0, ps[i].1)
    ensures |vals| == |ps|
    decreases bound, 0, |ps|
  {
    if ps == [] then [] else [SortedMaps(ps[0].0, ps[0].1)] + SortedAll(bound, ps[1..])
  }

  // Canonical but for the order of map entries, at every depth.
  ghost predicate IsRestorable(t: Schema, v: Value)
    requires Accepts(t, v)
    decreases t
  {
    && LocalRestorable(t, v)
    && forall i | 0 <= i < |Parts(t, v)| :: IsRestorable(Parts(t, v)[i].0, Parts(t, v)[i].1)
  }

  lemma {:induction false} SortedAllAt(bound: Schema, ps: seq<Piece>, i: nat)
    requires forall k | 0 <= k < |ps| :: ps[k].0 < bound && Accepts(ps[k].0, ps[k].1)
    requires i < |ps|
    ensures SortedAll(bound, ps)[i] == SortedMaps(ps[i].0, ps[i].1)
    decreases i
  {
    hide SortedMaps, Accepts;
    if i > 0 {
      SortedAllAt(bound, ps[1..], i - 1);
    }
  }

  // Values that JavaScript compares by value hold no map.
  lemma {:induction false} SortedPrimitive(t: Schema, v: Value)
    requires Accepts(t, v)
    ensures IsPrimitive(SortedMaps(t, v)) <==> IsPrimitive(v)
    ensures IsPrimitive(v) ==> SortedMaps(t, v) == v
    decreases t
  {
    if t.OptionOf? {
      OptionOrdered(t, v);
      OptionSorted(t, v);
      hide Accepts, SortedMaps, Ordered;
      if !v.VNull? {
        SortedPrimitive(t.inner, v);
      }
    } else {
      assert Shape(t, v);
      hide Accepts, Ordered, Encode, SortedAll;
    }
  }

  lemma OptionSorted(t: Schema, v: Value)
    requires t.OptionOf? && Accepts(t, v)
    ensures !v.VNull? ==> Accepts(t.inner, v)
    ensures SortedMaps(t, v) == if v.VNull? then v else SortedMaps(t.inner, v)
  {
    assert Shape(t, v);
    OptionOrdered(t, v);
    hide Accepts, Ordered, Encode;
    if !v.VNull? {
      SortedAllAt(t, [(t.inner, v)], 0);
    }
  }

  lemma OptionOrdered(t: Schema, v: Value)
    requires t.OptionOf? && Accepts(t, v)
    ensures Ordered(t, v) == if v.VNull? then [] else [(t.inner, v)]
    ensures !v.VNull? ==> Accepts(t.inner, v)
  {
    OrderedIsParts(t, v);
    assert !v.VNull? ==> Parts(t, v)[0] == (t.inner, v);
  }

  // ---------- Maps from their parts ----------

  lemma PairsFront(vals: seq<Value>)
    requires |vals| % 2 == 0 && vals != []
    ensures Pairs(vals) == Pairs(vals[..|vals| - 2]) + [(vals[|vals| - 2], vals[|vals| - 1])]
  {
  }

  // Every pair makes an entry exactly when no primitive key comes twice; then the map is the pairs.
  lemma {:induction false} BuildPairs(vals: seq<Value>)
    requires |vals| % 2 == 0
    ensures |BuildMap(vals)| <= |vals| / 2
    ensures |BuildMap(vals)| == |vals| / 2 <==> DistinctKeys(Pairs(vals))
    ensures DistinctKeys(Pairs(vals)) ==> BuildMap(vals) == Pairs(vals)
  {
    if vals != [] {
      var front, k, v := vals[..|vals| - 2], vals[|vals| - 2], vals[|vals| - 1];
      BuildPairs(front);
      PairsFront(vals);
      DistinctSnoc(Pairs(front), k, v);
      hide DistinctKeys, Pairs;
      assert BuildMap(vals) == MapSet(BuildMap(front), k, v);
    }
  }

  lemma DistinctSnoc(entries: seq<(Value, Value)>, k: Value, v: Value)
    ensures DistinctKeys(entries + [(k, v)])
      <==> DistinctKeys(entries) && (IsPrimitive(k) ==> FindKey(entries, k).None?)
  {
    var all := entries + [(k, v)];
    assert forall i | 0 <= i < |entries| :: all[i] == entries[i];
    assert all[|entries|] == (k, v);
  }

  // What is read is a map without a primitive key twice.
  lemma {:induction false} BuildDistinct(vals: seq<Value>)
    ensures DistinctKeys(BuildMap(vals))
    decreases |vals|
  {
    if |vals| >= 2 {
      var front, k, v := vals[..|vals| - 2], vals[|vals| - 2], vals[|vals| - 1];
      BuildDistinct(front);
      DistinctSnoc(BuildMap(front), k, v);
      SetDistinct(BuildMap(front), k, v);
    }
  }

  lemma SetDistinct(entries: seq<(Value, Value)>, k: Value, v: Value)
    requires DistinctKeys(entries)
    ensures DistinctKeys(MapSet(entries, k, v))
  {
    DistinctSnoc(entries, k, v);
  }

  // ---------- The entries of a sorted map ----------

  ghost predicate DistinctEntries(es: seq<Entry>) {
    forall i, j | 0 <= i < j < |es| :: IsPrimitive(es[j].key) ==> es[i].key != es[j].key
  }

  lemma Place<T>(es: seq<T>, e: T) returns (i: nat)
    requires e in multiset(es)
    ensures i < |es| && es[i] == e
  {
    i :| 0 <= i < |es| && es[i] == e;
  }

  lemma {:induction false} TwoPlaces<T>(es: seq<T>, e: T) returns (i: nat, j: nat)
    requires multiset(es)[e] >= 2
    ensures i < j < |es| && es[i] == e && es[j] == e
  {
    var front, last := es[..|es| - 1], es[|es| - 1];
    assert es == front + [last];
    if last == e {
      i := Place(front, e);
      j := |es| - 1;
    } else {
      i, j := TwoPlaces(front, e);
    }
  }

  lemma CountedTwice<T>(es: seq<T>, i: nat, j: nat)
    requires i < j < |es| && es[i] == es[j]
    ensures multiset(es)[es[i]] >= 2
  {
    assert es == es[..j] + es[j..];
    assert es[..j][i] == es[i] && es[j..][0] == es[j];
    assert es[i] in multiset(es[..j]) && es[i] in multiset(es[j..]);
  }

  lemma DifferentPlaces(es: seq<Entry>, x: Entry, y: Entry)
    requires DistinctEntries(es) && x in multiset(es) && y in multiset(es)
    requires x != y && IsPrimitive(x.key) && IsPrimitive(y.key)
    ensures x.key != y.key
  {
    hide IsPrimitive;
    var i := Place(es, x);
    var j := Place(es, y);
  }

  lemma DistinctPermuted(a: seq<Entry>, b: seq<Entry>)
    requires multiset(a) == multiset(b) && DistinctEntries(a)
    ensures DistinctEntries(b)
  {
    forall i, j | 0 <= i < j < |b| && IsPrimitive(b[j].key)
      ensures b[i].key != b[j].key
    {
      if b[i] == b[j] {
        CountedTwice(b, i, j);
        var p, q := TwoPlaces(a, b[i]);
      } else if b[i].key == b[j].key {
        DifferentPlaces(a, b[i], b[j]);
      }
    }
  }

  // The entries in the order they are written.
  function InOrder(t: Schema, v: Value): seq<Entry>
    requires t.MapOf? && Accepts(t, v)
  {
    SortEntries(Keyed(t, v))
  }

  ghost predicate EntryAccepted(t: Schema, e: Entry)
    requires t.MapOf?
  {
    Accepts(t.key, e.key) && Accepts(t.value, e.value) && e.keyBytes == Encode(t.key, e.key)
  }

  lemma InOrderAccepted(t: Schema, v: Value)
    requires t.MapOf? && Accepts(t, v)
    ensures |InOrder(t, v)| == |v.entries|
    ensures forall i | 0 <= i < |v.entries| :: EntryAccepted(t, InOrder(t, v)[i])
    ensures IsSorted(InOrder(t, v))
  {
    SortedAccepts(t, v);
    SortIsSorted(Keyed(t, v));
    var es := InOrder(t, v);
    hide Accepts, Encode, SortEntries, Keyed, IsSorted;
    forall i | 0 <= i < |es|
      ensures EntryAccepted(t, es[i])
    {
      assert es[i] in es;
    }
  }

  lemma OrderedIs(t: Schema, v: Value)
    requires t.MapOf? && Accepts(t, v)
    ensures Ordered(t, v) == Interleave(t.key, t.value, Unkeyed(InOrder(t, v)))
  {
    hide Accepts, Encode, SortEntries, Keyed, Interleave, Unkeyed, Ordered;
    MapOrderedAre(t, v);
  }

  // Where the key and the value of an entry are written.
  lemma OrderedAt(t: Schema, v: Value, i: nat)
    requires t.MapOf? && Accepts(t, v) && i < |InOrder(t, v)|
    ensures |Ordered(t, v)| == 2 * |InOrder(t, v)| > 2 * i + 1
    ensures Ordered(t, v)[2 * i] == (t.key, InOrder(t, v)[i].key)
    ensures Ordered(t, v)[2 * i + 1] == (t.value, InOrder(t, v)[i].value)
  {
    hide *;
    OrderedIs(t, v);
    InterleavedEntry(t.key, t.value, InOrder(t, v), i);
  }

  lemma InterleavedEntry(k: Schema, w: Schema, es: seq<Entry>, i: nat)
    requires i < |es|
    ensures |Interleave(k, w, Unkeyed(es))| == 2 * |es|
    ensures Interleave(k, w, Unkeyed(es))[2 * i] == (k, es[i].key)
    ensures Interleave(k, w, Unkeyed(es))[2 * i + 1] == (w, es[i].value)
  {
    assert (2 * i) / 2 == i && (2 * i + 1) / 2 == i;
  }

  // A map's pairs are the sorted keys and values of the entries in order.
  lemma SortedPairs(t: Schema, v: Value)
    requires t.MapOf? && Accepts(t, v)
    ensures var pairs := Pairs(SortedAll(t, Ordered(t, v)));
      && |pairs| == |InOrder(t, v)| == |v.entries|
      && (forall i | 0 <= i < |pairs| :: EntryAccepted(t, InOrder(t, v)[i]))
      && (forall i | 0 <= i < |pairs| ::
          pairs[i] == (SortedMaps(t.key, InOrder(t, v)[i].key), SortedMaps(t.value, InOrder(t, v)[i].value)))
  {
    InOrderAccepted(t, v);
    var es, ps := InOrder(t, v), Ordered(t, v);
    hide Accepts, Ordered, SortedMaps, SortedAll, InOrder, IsSorted, Encode, Pairs;
    forall i | 0 <= i < |es|
      ensures Pairs(SortedAll(t, ps))[i] == (SortedMaps(t.key, es[i].key), SortedMaps(t.value, es[i].value))
    {
      OrderedAt(t, v, i);
      SortedPairAt(t, ps, i);
    }
  }

  lemma SortedPairAt(bound: Schema, ps: seq<Piece>, i: nat)
    requires forall k | 0 <= k < |ps| :: ps[k].0 < bound && Accepts(ps[k].0, ps[k].1)
    requires 2 * i + 1 < |ps|
    ensures Pairs(SortedAll(bound, ps))[i]
         == (SortedMaps(ps[2 * i].0, ps[2 * i].1), SortedMaps(ps[2 * i + 1].0, ps[2 * i + 1].1))
  {
    hide Accepts, SortedMaps, SortedAll;
    SortedAllAt(bound, ps, 2 * i);
    SortedAllAt(bound, ps, 2 * i + 1);
  }

  // Sorting keeps primitive keys distinct or not.
  lemma DistinctSorted(t: Schema, v: Value)
    requires t.MapOf? && Accepts(t, v)
    ensures DistinctKeys(v.entries) <==> DistinctKeys(Pairs(SortedAll(t, Ordered(t, v))))
  {
    var es, sorted, pairs := Keyed(t, v), InOrder(t, v), Pairs(SortedAll(t, Ordered(t, v)));
    assert multiset(sorted) == multiset(es);
    KeyedDistinct(t, v);
    SortedPairs(t, v);
    hide Accepts, Ordered, SortedMaps, SortedAll, InOrder, Encode, Pairs, Keyed, DistinctEntries, DistinctKeys;
    if DistinctEntries(es) {
      DistinctPermuted(es, sorted);
    }
    if DistinctEntries(sorted) {
      DistinctPermuted(sorted, es);
    }
    PairsDistinct(t, sorted, pairs);
  }

  lemma KeyedDistinct(t: Schema, v: Value)
    requires t.MapOf? && Accepts(t, v)
    ensures DistinctKeys(v.entries) <==> DistinctEntries(Keyed(t, v))
  {
    var es := Keyed(t, v);
    assert forall i | 0 <= i < |es| :: es[i].key == v.entries[i].0;
    hide Keyed, Accepts, Encode;
  }

  lemma PairsDistinct(t: Schema, es: seq<Entry>, pairs: seq<(Value, Value)>)
    requires t.MapOf? && |es| == |pairs|
    requires forall i | 0 <= i < |es| :: Accepts(t.key, es[i].key) && pairs[i].0 == SortedMaps(t.key, es[i].key)
    ensures DistinctEntries(es) <==> DistinctKeys(pairs)
  {
    hide Accepts, SortedMaps, IsPrimitive;
    forall i | 0 <= i < |es|
      ensures IsPrimitive(pairs[i].0) <==> IsPrimitive(es[i].key)
      ensures IsPrimitive(es[i].key) ==> pairs[i].0 == es[i].key
    {
      SortedPrimitive(t.key, es[i].key);
    }
  }

  // ---------- Read back up to map order ----------

  lemma PairsInjective(a: seq<Value>, b: seq<Value>)
    requires |a| == |b| && |a| % 2 == 0 && Pairs(a) == Pairs(b)
    ensures a == b
  {
    forall i | 0 <= i < |a|
      ensures a[i] == b[i]
    {
      assert Pairs(a)[i / 2] == Pairs(b)[i / 2];
    }
  }

  lemma AssembleMap(t: Schema, v: Value, canon: seq<Value>, sorted: seq<Value>)
    requires t.MapOf? && Shape(t, v) && |canon| == |sorted| == |Parts(t, v)|
    requires DistinctKeys(v.entries) <==> DistinctKeys(Pairs(sorted))
    ensures Assemble(t, HeadOf(t, v), canon) == WithParts(t, v, sorted) <==> LocalRestorable(t, v) && canon == sorted
  {
    hide *;
    MapAssembled(t, v, canon);
    MapWithParts(t, v, sorted);
    PairsIff(canon, sorted);
  }

  lemma MapAssembled(t: Schema, v: Value, canon: seq<Value>)
    requires t.MapOf? && Shape(t, v) && |canon| == |Parts(t, v)|
    ensures |canon| == |PartTypes(t, HeadOf(t, v))|
    ensures Assemble(t, HeadOf(t, v), canon) == VMap(BuildMap(canon))
  {
    hide BuildMap;
  }

  lemma MapWithParts(t: Schema, v: Value, sorted: seq<Value>)
    requires t.MapOf? && Shape(t, v) && |sorted| == |Parts(t, v)|
    ensures WithParts(t, v, sorted) == VMap(Pairs(sorted)) && |sorted| % 2 == 0
    ensures LocalRestorable(t, v) <==> DistinctKeys(v.entries)
  {
    hide Pairs, DistinctKeys;
  }

  lemma PairsIff(canon: seq<Value>, sorted: seq<Value>)
    requires |canon| == |sorted| && |canon| % 2 == 0
    ensures BuildMap(canon) == Pairs(sorted) <==> DistinctKeys(Pairs(sorted)) && canon == sorted
  {
    BuildPairs(canon);
    BuildPairs(sorted);
    hide DistinctKeys, BuildMap;
    if BuildMap(canon) == Pairs(sorted) {
      hide Pairs;
      PairsInjective(canon, sorted);
    }
  }

  lemma {:induction false} ReplacedAt(fields: map<string, Value>, ms: seq<Member>, vals: seq<Value>, i: nat)
    requires |ms| == |vals| && i < |ms|
    requires forall j, k | 0 <= j < k < |ms| :: ms[j].name != ms[k].name
    ensures Field(Replaced(fields, ms, vals), ms[i].name) == if ms[i].name in fields then vals[i] else VNull
  {
    if i < |ms| - 1 {
      ReplacedAt(fields, ms[..|ms| - 1], vals[..|vals| - 1], i);
    }
  }

  lemma AssembleRecord(t: Schema, v: Value, canon: seq<Value>, sorted: seq<Value>)
    requires t.Struct? && WellFormed(t) && Shape(t, v) && |canon| == |sorted| == |Parts(t, v)|
    ensures Assemble(t, HeadOf(t, v), canon) == WithParts(t, v, sorted) <==> LocalRestorable(t, v) && canon == sorted
  {
    var ms, replaced := t.members, Replaced(v.fields, t.members, sorted);
    RecordOfFields(ms, replaced, canon);
    forall i | 0 <= i < |ms|
      ensures Field(replaced, ms[i].name) == if ms[i].name in v.fields then sorted[i] else VNull
    {
      ReplacedAt(v.fields, ms, sorted, i);
    }
    hide Replaced, Record;
  }

  // What is read and what is sorted from the same parts: null and true payloads, missing and
  // surplus fields and repeated keys tell them apart, and nothing else.
  lemma AssembleIff(t: Schema, v: Value, canon: seq<Value>, sorted: seq<Value>)
    requires WellFormed(t) && Shape(t, v) && |canon| == |sorted| == |Parts(t, v)|
    requires !t.MapOf? ==> forall i | 0 <= i < |canon| ::
      (canon[i].VNull? ==> Parts(t, v)[i].1.VNull?) && (sorted[i].VNull? <==> Parts(t, v)[i].1.VNull?)
    requires t.MapOf? ==> (DistinctKeys(v.entries) <==> DistinctKeys(Pairs(sorted)))
    ensures |canon| == |PartTypes(t, HeadOf(t, v))|
    ensures Assemble(t, HeadOf(t, v), canon) == WithParts(t, v, sorted) <==> LocalRestorable(t, v) && canon == sorted
  {
    hide WellFormed, DistinctKeys, Pairs, BuildMap, VariantIndex;
    if t.MapOf? {
      AssembleMap(t, v, canon, sorted);
    } else if t.Struct? {
      AssembleRecord(t, v, canon, sorted);
    }
  }

  ghost predicate AllRestorable(ps: seq<Piece>)
    requires forall i | 0 <= i < |ps| :: Accepts(ps[i].0, ps[i].1)
  {
    forall i | 0 <= i < |ps| :: IsRestorable(ps[i].0, ps[i].1)
  }

  // The parts in writing order are the parts.
  lemma OrderedRestorable(t: Schema, v: Value)
    requires Accepts(t, v)
    ensures AllRestorable(Ordered(t, v)) <==> AllRestorable(Parts(t, v))
  {
    var ps, qs := Ordered(t, v), Parts(t, v);
    hide Ordered, Parts, IsRestorable;
    if AllRestorable(qs) {
      forall i | 0 <= i < |ps|
        ensures IsRestorable(ps[i].0, ps[i].1)
      {
        OrderedMembers(t, v, i);
      }
    }
    if AllRestorable(ps) {
      forall i | 0 <= i < |qs|
        ensures IsRestorable(qs[i].0, qs[i].1)
      {
        PartsMembers(t, v, i);
      }
    }
  }

  lemma PartsMembers(t: Schema, v: Value, i: nat)
    requires Accepts(t, v) && i < |Parts(t, v)|
    ensures exists j :: 0 <= j < |Ordered(t, v)| && Ordered(t, v)[j] == Parts(t, v)[i]
  {
    if t.MapOf? {
      EntryMembers(t, v, i);
    } else {
      OrderedIsParts(t, v);
      hide Ordered, Parts, Accepts;
      assert Ordered(t, v)[i] == Parts(t, v)[i];
    }
  }

  lemma EntryMembers(t: Schema, v: Value, i: nat)
    requires t.MapOf? && Accepts(t, v) && i < |Parts(t, v)|
    ensures exists j :: 0 <= j < |Ordered(t, v)| && Ordered(t, v)[j] == Parts(t, v)[i]
  {
    var es, k := Keyed(t, v), i / 2;
    PartEntry(t, v, i);
    assert multiset(InOrder(t, v)) == multiset(es);
    hide *;
    assert es[k] in multiset(es);
    var j := Place(InOrder(t, v), es[k]);
    OrderedAt(t, v, j);
    FoundPiece(Ordered(t, v), j, (t.key, es[k].key), (t.value, es[k].value), Parts(t, v)[i]);
  }

  lemma FoundPiece(ps: seq<Piece>, j: nat, a: Piece, b: Piece, x: Piece)
    requires 2 * j + 1 < |ps| && ps[2 * j] == a && ps[2 * j + 1] == b && (x == a || x == b)
    ensures exists n :: 0 <= n < |ps| && ps[n] == x
  {
  }

  lemma PartEntry(t: Schema, v: Value, i: nat)
    requires t.MapOf? && Accepts(t, v) && i < |Parts(t, v)|
    ensures i / 2 < |Keyed(t, v)|
    ensures Parts(t, v)[i]
         == if i % 2 == 0 then (t.key, Keyed(t, v)[i / 2].key) else (t.value, Keyed(t, v)[i / 2].value)
  {
    assert Parts(t, v) == Interleave(t.key, t.value, v.entries);
    hide Accepts, Parts, Encode;
  }

  // Written and read back, a value comes back with its maps sorted and otherwise unchanged,
  // exactly when it is canonical but for the order of map entries.
  lemma {:induction false} RestoredIff(t: Schema, v: Value)
    requires WellFormed(t) && Accepts(t, v)
    ensures Canon(t, v) == SortedMaps(t, v) <==> IsRestorable(t, v)
    decreases t, 1, 0
  {
    assert Shape(t, v);
    var ps := Ordered(t, v);
    forall i | 0 <= i < |ps|
      ensures WellFormed(ps[i].0)
    {
      PieceWellFormed(t, v, i);
    }
    hide WellFormed, Accepts, LocalRestorable, CanonAll, SortedAll, Assemble, WithParts, HeadOf, PartTypes, Parts,
      Ordered, Shape, Encode, IsRestorable, DistinctKeys, Pairs, AllRestorable;
    RestoredAllIff(t, ps);
    OrderedRestorable(t, v);
    RestorableIs(t, v);
    AssembledIff(t, v);
  }

  lemma AssembledIff(t: Schema, v: Value)
    requires WellFormed(t) && Accepts(t, v)
    ensures var canon, sorted := CanonAll(t, Ordered(t, v)), SortedAll(t, Ordered(t, v));
      && |canon| == |PartTypes(t, HeadOf(t, v))|
      && (Assemble(t, HeadOf(t, v), canon) == WithParts(t, v, sorted) <==> LocalRestorable(t, v) && canon == sorted)
  {
    assert Shape(t, v);
    hide WellFormed, Accepts, LocalRestorable, CanonAll, SortedAll, Assemble, WithParts, HeadOf, PartTypes, Parts,
      Ordered, Shape, Encode, DistinctKeys, Pairs;
    var ps := Ordered(t, v);
    if t.MapOf? {
      DistinctSorted(t, v);
    } else {
      OrderedIsParts(t, v);
      forall i | 0 <= i < |ps|
        ensures CanonAll(t, ps)[i].VNull? ==> ps[i].1.VNull?
        ensures SortedAll(t, ps)[i].VNull? <==> ps[i].1.VNull?
      {
        PieceNull(t, ps, i);
      }
    }
    AssembleIff(t, v, CanonAll(t, ps), SortedAll(t, ps));
  }

  lemma {:induction false} RestoredAllIff(bound: Schema, ps: seq<Piece>)
    requires forall i | 0 <= i < |ps| :: ps[i].0 < bound && Accepts(ps[i].0, ps[i].1)
    requires forall i | 0 <= i < |ps| :: WellFormed(ps[i].0)
    ensures CanonAll(bound, ps) == SortedAll(bound, ps) <==> AllRestorable(ps)
    decreases bound, 0, |ps|
  {
    hide WellFormed, Accepts, Canon, SortedMaps, IsRestorable;
    if ps != [] {
      RestoredIff(ps[0].0, ps[0].1);
      RestoredAllIff(bound, ps[1..]);
      assert ps == [ps[0]] + ps[1..];
      ListsEqual(Canon(ps[0].0, ps[0].1), SortedMaps(ps[0].0, ps[0].1), CanonAll(bound, ps[1..]),
                 SortedAll(bound, ps[1..]));
    }
  }

  lemma ListsEqual(a: Value, b: Value, s: seq<Value>, u: seq<Value>)
    ensures [a] + s == [b] + u <==> a == b && s == u
  {
    if [a] + s == [b] + u {
      assert a == ([a] + s)[0] && b == ([b] + u)[0];
      assert s == ([a] + s)[1..] && u == ([b] + u)[1..];
    }
  }

  lemma RestorableIs(t: Schema, v: Value)
    requires Accepts(t, v)
    ensures IsRestorable(t, v) <==> LocalRestorable(t, v) && AllRestorable(Parts(t, v))
  {
  }

  lemma PieceWellFormed(t: Schema, v: Value, i: nat)
    requires WellFormed(t) && Accepts(t, v) && i < |Ordered(t, v)|
    ensures WellFormed(Ordered(t, v)[i].0)
  {
    hide Ordered, WellFormed, Parts;
    OrderedMembers(t, v, i);
    var j :| 0 <= j < |Parts(t, v)| && Parts(t, v)[j] == Ordered(t, v)[i];
    PartsWellFormed(t, v, j);
  }

  lemma PieceNull(bound: Schema, ps: seq<Piece>, i: nat)
    requires forall k | 0 <= k < |ps| :: ps[k].0 < bound && Accepts(ps[k].0, ps[k].1)
    requires i < |ps|
    ensures CanonAll(bound, ps)[i] == Canon(ps[i].0, ps[i].1)
    ensures SortedAll(bound, ps)[i] == SortedMaps(ps[i].0, ps[i].1)
    ensures Canon(ps[i].0, ps[i].1).VNull? ==> ps[i].1.VNull?
    ensures SortedMaps(ps[i].0, ps[i].1).VNull? <==> ps[i].1.VNull?
  {
    hide Canon, SortedMaps, CanonAll, SortedAll, Accepts;
    CanonAllAt(bound, ps, i);
    SortedAllAt(bound, ps, i);
    SortedPrimitive(ps[i].0, ps[i].1);
    if Canon(ps[i].0, ps[i].1).VNull? {
      CanonNull(ps[i].0, ps[i].1);
    }
  }

  // ---------- A map read back is the same mapping ----------

  // The entries of a map with their own maps sorted, in the order they were inserted.
  function Images(t: Schema, es: seq<Entry>): (r: seq<(Value, Value)>)
    requires t.MapOf? && forall i | 0 <= i < |es| :: Accepts(t.key, es[i].key) && Accepts(t.value, es[i].value)
    ensures |r| == |es|
    ensures forall i | 0 <= i < |es| :: r[i] == (SortedMaps(t.key, es[i].key), SortedMaps(t.value, es[i].value))
  {
    seq(|es|, i requires 0 <= i < |es| => (SortedMaps(t.key, es[i].key), SortedMaps(t.value, es[i].value)))
  }

  ghost predicate AllAccepted(t: Schema, es: seq<Entry>)
    requires t.MapOf?
  {
    forall i | 0 <= i < |es| :: Accepts(t.key, es[i].key) && Accepts(t.value, es[i].value)
  }

  lemma RemoveAt<T>(s: seq<T>, i: nat)
    requires i < |s|
    ensures multiset(s[..i] + s[i + 1..]) + multiset{s[i]} == multiset(s)
  {
    assert s == s[..i] + [s[i]] + s[i + 1..];
  }

  lemma {:induction false} ImagesPermuted(t: Schema, a: seq<Entry>, b: seq<Entry>)
    requires t.MapOf? && AllAccepted(t, a) && AllAccepted(t, b) && multiset(a) == multiset(b)
    ensures multiset(Images(t, a)) == multiset(Images(t, b))
    decreases |a|
  {
    if a == [] {
      assert |b| == |multiset(b)| == 0;
      assert Images(t, a) == Images(t, b) == [];
    } else {
      var n := |a| - 1;
      assert a[n] in multiset(a);
      var j := Place(b, a[n]);
      RemoveAt(a, n);
      RemoveAt(b, j);
      var c, d := a[..n] + a[n + 1..], b[..j] + b[j + 1..];
      assert multiset(c) == multiset(d) by {
        Cancel(multiset(c), multiset(d), a[n]);
      }
      ImagesWithout(t, a, n);
      ImagesWithout(t, b, j);
      ImagesPermuted(t, c, d);
    }
  }

  lemma Cancel<T>(a: multiset<T>, b: multiset<T>, x: T)
    requires a + multiset{x} == b + multiset{x}
    ensures a == b
  {
    forall k
      ensures a[k] == b[k]
    {
      assert (a + multiset{x})[k] == (b + multiset{x})[k];
    }
  }

  lemma ImagesWithout(t: Schema, es: seq<Entry>, i: nat)
    requires t.MapOf? && AllAccepted(t, es) && i < |es|
    ensures AllAccepted(t, es[..i] + es[i + 1..])
    ensures multiset(Images(t, es))
         == multiset(Images(t, es[..i] + es[i + 1..]))
            + multiset{(SortedMaps(t.key, es[i].key), SortedMaps(t.value, es[i].value))}
  {
    hide Accepts, SortedMaps;
    var r := Images(t, es);
    RemoveAt(r, i);
    assert Images(t, es[..i] + es[i + 1..]) == r[..i] + r[i + 1..];
  }

  // The entries of a sorted map are its entries with their own maps sorted, permuted.
  lemma SortedEntries(t: Schema, v: Value)
    requires t.MapOf? && Accepts(t, v)
    ensures AllAccepted(t, Keyed(t, v)) && SortedMaps(t, v).VMap?
    ensures multiset(SortedMaps(t, v).entries) == multiset(Images(t, Keyed(t, v)))
  {
    var es, sorted := Keyed(t, v), InOrder(t, v);
    MapSorted(t, v);
    assert multiset(sorted) == multiset(es);
    KeyedAccepted(t, v);
    hide *;
    ImagesPermuted(t, sorted, es);
  }

  lemma KeyedAccepted(t: Schema, v: Value)
    requires t.MapOf? && Accepts(t, v)
    ensures AllAccepted(t, Keyed(t, v))
  {
    EntriesAccepted(t, v);
    hide Accepts, Encode;
  }

  lemma MapSorted(t: Schema, v: Value)
    requires t.MapOf? && Accepts(t, v)
    ensures AllAccepted(t, InOrder(t, v)) && SortedMaps(t, v) == VMap(Images(t, InOrder(t, v)))
  {
    hide *;
    SortedPairs(t, v);
    SortedIs(t, v);
    EntriesOf(t, InOrder(t, v));
    PairsAreImages(t, InOrder(t, v), Pairs(SortedAll(t, Ordered(t, v))));
  }

  lemma SortedIs(t: Schema, v: Value)
    requires t.MapOf? && Accepts(t, v)
    ensures SortedMaps(t, v) == VMap(Pairs(SortedAll(t, Ordered(t, v))))
  {
    assert Shape(t, v);
    hide Accepts, Ordered, SortedAll, Parts, Pairs;
  }

  lemma EntriesOf(t: Schema, es: seq<Entry>)
    requires t.MapOf? && forall i | 0 <= i < |es| :: EntryAccepted(t, es[i])
    ensures AllAccepted(t, es)
  {
    hide Accepts, Encode;
  }

  lemma PairsAreImages(t: Schema, es: seq<Entry>, pairs: seq<(Value, Value)>)
    requires t.MapOf? && |pairs| == |es| && AllAccepted(t, es)
    requires forall i | 0 <= i < |es| :: pairs[i] == (SortedMaps(t.key, es[i].key), SortedMaps(t.value, es[i].value))
    ensures pairs == Images(t, es)
  {
    hide Accepts, SortedMaps, Encode;
  }

  // ---------- Sorting keeps the bytes ----------

  // The same head and the new parts.
  lemma NewParts(t: Schema, v: Value, vals: seq<Value>)
    requires WellFormed(t) && Shape(t, v) && !t.MapOf? && |vals| == |Parts(t, v)|
    requires forall i | 0 <= i < |vals| :: vals[i].VNull? <==> Parts(t, v)[i].1.VNull?
    ensures var w := WithParts(t, v, vals);
      && Shape(t, w) && Header(t, w) == Header(t, v) && |Parts(t, w)| == |vals|
      && forall i | 0 <= i < |vals| :: Parts(t, w)[i] == (Parts(t, v)[i].0, vals[i])
  {
    hide WellFormed, Encoding, Little, Replaced;
    if t.Struct? {
      NewFields(t, v, vals);
    }
  }

  lemma NewFields(t: Schema, v: Value, vals: seq<Value>)
    requires t.Struct? && WellFormed(t) && Shape(t, v) && |vals| == |Parts(t, v)|
    requires forall i | 0 <= i < |vals| :: vals[i].VNull? <==> Parts(t, v)[i].1.VNull?
    ensures forall i | 0 <= i < |vals| :: Field(Replaced(v.fields, t.members, vals), t.members[i].name) == vals[i]
  {
    hide Replaced;
    forall i | 0 <= i < |vals|
      ensures Field(Replaced(v.fields, t.members, vals), t.members[i].name) == vals[i]
    {
      ReplacedAt(v.fields, t.members, vals, i);
    }
  }

  // Parts with their maps sorted.
  function SortedPieces(ghost bound: Schema, ps: seq<Piece>): (r: seq<Piece>)
    requires forall i | 0 <= i < |ps| :: ps[i].0 < bound && Accepts(ps[i].0, ps[i].1)
    ensures |r| == |ps|
    ensures forall i | 0 <= i < |ps| :: r[i] == (ps[i].0, SortedAll(bound, ps)[i])
  {
    seq(|ps|, i requires 0 <= i < |ps| => (ps[i].0, SortedAll(bound, ps)[i]))
  }

  // A value with its maps sorted is accepted and has the same bytes.
  lemma {:induction false} SortedSame(t: Schema, v: Value)
    requires WellFormed(t) && Accepts(t, v)
    ensures Accepts(t, SortedMaps(t, v)) && Encode(t, SortedMaps(t, v)) == Encode(t, v)
    ensures t.MapOf? ==> IsSorted(Keyed(t, SortedMaps(t, v)))
    decreases t, 1, 0
  {
    hide *;
    var ps := Ordered(t, v);
    forall i | 0 <= i < |ps|
      ensures WellFormed(ps[i].0)
    {
      PieceWellFormed(t, v, i);
    }
    SortedSameAll(t, ps);
    if t.MapOf? {
      SortedKeysSame(t, v);
      SortedMapOrdered(t, v);
    } else {
      SortedOrdered(t, v);
    }
    EncodeIs(t, v);
    EncodeIs(t, SortedMaps(t, v));
  }

  // The keys keep their bytes.
  ghost predicate KeysSame(t: Schema, es: seq<Entry>)
    requires t.MapOf? && AllAccepted(t, es)
  {
    forall i | 0 <= i < |es| ::
      Accepts(t.key, SortedMaps(t.key, es[i].key)) && Encode(t.key, SortedMaps(t.key, es[i].key)) == es[i].keyBytes
  }

  lemma {:induction false} SortedKeysSame(t: Schema, v: Value)
    requires WellFormed(t) && Accepts(t, v) && t.MapOf?
    ensures AllAccepted(t, InOrder(t, v)) && KeysSame(t, InOrder(t, v))
    decreases t, 0, 0
  {
    hide *;
    InOrderAccepted(t, v);
    KeyWellFormed(t);
    var es := InOrder(t, v);
    EntriesOf(t, es);
    forall i | 0 <= i < |es|
      ensures KeySame(t, es[i])
    {
      EntryIs(t, es[i]);
      SortedSame(t.key, es[i].key);
      KeySameIs(t, es[i]);
    }
    KeysSameIs(t, es);
  }

  ghost predicate KeySame(t: Schema, e: Entry)
    requires t.MapOf?
  {
    && Accepts(t.key, e.key) && Accepts(t.key, SortedMaps(t.key, e.key))
    && Encode(t.key, SortedMaps(t.key, e.key)) == e.keyBytes
  }

  lemma EntryIs(t: Schema, e: Entry)
    requires t.MapOf? && EntryAccepted(t, e)
    ensures Accepts(t.key, e.key) && e.keyBytes == Encode(t.key, e.key)
  {
  }

  lemma KeySameIs(t: Schema, e: Entry)
    requires t.MapOf? && Accepts(t.key, e.key) && Accepts(t.key, SortedMaps(t.key, e.key))
    requires Encode(t.key, SortedMaps(t.key, e.key)) == e.keyBytes
    ensures KeySame(t, e)
  {
    hide Accepts, Encode, SortedMaps;
  }

  lemma KeysSameIs(t: Schema, es: seq<Entry>)
    requires t.MapOf? && AllAccepted(t, es) && forall i | 0 <= i < |es| :: KeySame(t, es[i])
    ensures KeysSame(t, es)
  {
    hide Accepts, Encode, SortedMaps;
  }

  lemma SortedOrdered(t: Schema, v: Value)
    requires WellFormed(t) && Accepts(t, v) && !t.MapOf?
    requires var ps := SortedPieces(t, Ordered(t, v)); forall i | 0 <= i < |ps| :: Accepts(ps[i].0, ps[i].1)
    ensures var w := SortedMaps(t, v);
      && Accepts(t, w) && Header(t, w) == Header(t, v)
      && Ordered(t, w) == SortedPieces(t, Ordered(t, v))
  {
    var w := SortedMaps(t, v);
    SortedParts(t, v);
    hide Accepts, Ordered, SortedPieces, SortedMaps, Parts, Header;
    PartsAccepted(t, w);
    OrderedIsParts(t, w);
  }

  lemma SortedMapOrdered(t: Schema, v: Value)
    requires Accepts(t, v) && t.MapOf?
    requires AllAccepted(t, InOrder(t, v)) && KeysSame(t, InOrder(t, v))
    requires var ps := SortedPieces(t, Ordered(t, v)); forall i | 0 <= i < |ps| :: Accepts(ps[i].0, ps[i].1)
    ensures var w := SortedMaps(t, v);
      && Accepts(t, w) && Header(t, w) == Header(t, v) && IsSorted(Keyed(t, w))
      && Ordered(t, w) == SortedPieces(t, Ordered(t, v))
  {
    var w := SortedMaps(t, v);
    SortedMapParts(t, v);
    hide Accepts, Ordered, SortedPieces, SortedMaps, Parts, Header, Keyed, IsSorted, AllAccepted, KeysSame;
    PartsAccepted(t, w);
    SortedMapKeyed(t, v);
    OrderedCanonical(t, w);
  }

  lemma KeyWellFormed(t: Schema)
    requires t.MapOf? && WellFormed(t)
    ensures WellFormed(t.key) && WellFormed(t.value)
  {
  }

  lemma PartsAccepted(t: Schema, v: Value)
    requires Shape(t, v) && forall i | 0 <= i < |Parts(t, v)| :: Accepts(Parts(t, v)[i].0, Parts(t, v)[i].1)
    ensures Accepts(t, v)
  {
  }

  lemma EncodeIs(t: Schema, v: Value)
    requires Accepts(t, v)
    ensures Encode(t, v) == Header(t, v) + EncodeAll(t, Ordered(t, v))
  {
  }

  lemma SortedParts(t: Schema, v: Value)
    requires WellFormed(t) && Accepts(t, v) && !t.MapOf?
    ensures var w := SortedMaps(t, v);
      Shape(t, w) && Header(t, w) == Header(t, v) && Parts(t, w) == SortedPieces(t, Ordered(t, v))
  {
    assert Shape(t, v);
    hide WellFormed, Accepts, Ordered, SortedAll, Shape, Parts, WithParts, Header;
    OrderedIsParts(t, v);
    var ps := Ordered(t, v);
    forall i | 0 <= i < |ps|
      ensures SortedAll(t, ps)[i].VNull? <==> ps[i].1.VNull?
    {
      PieceNull(t, ps, i);
    }
    NewParts(t, v, SortedAll(t, ps));
  }

  lemma SortedMapParts(t: Schema, v: Value)
    requires Accepts(t, v) && t.MapOf?
    ensures var w := SortedMaps(t, v);
      Shape(t, w) && Header(t, w) == Header(t, v) && Parts(t, w) == SortedPieces(t, Ordered(t, v))
  {
    MapSorted(t, v);
    InOrderAccepted(t, v);
    var ps, w, es := Ordered(t, v), SortedMaps(t, v), InOrder(t, v);
    assert Shape(t, w) && Header(t, w) == Encoding(|es|) == Header(t, v);
    assert Parts(t, w) == Interleave(t.key, t.value, w.entries);
    OrderedLength(t, v);
    hide Accepts, Ordered, SortedMaps, Encode, InOrder, SortedPieces, Parts, IsSorted, EntryAccepted, Header,
      Interleave;
    forall i | 0 <= i < |es|
      ensures ps[2 * i] == (t.key, es[i].key) && ps[2 * i + 1] == (t.value, es[i].value)
    {
      OrderedAt(t, v, i);
    }
    InterleavedPieces(t, ps, es);
  }

  lemma OrderedLength(t: Schema, v: Value)
    requires t.MapOf? && Accepts(t, v)
    ensures |Ordered(t, v)| == 2 * |InOrder(t, v)|
  {
    OrderedIs(t, v);
    hide Accepts, Ordered, InOrder;
  }

  lemma InterleavedPieces(t: Schema, ps: seq<Piece>, es: seq<Entry>)
    requires t.MapOf? && AllAccepted(t, es)
    requires forall i | 0 <= i < |ps| :: ps[i].0 < t && Accepts(ps[i].0, ps[i].1)
    requires |ps| == 2 * |es|
    requires forall i | 0 <= i < |es| :: ps[2 * i] == (t.key, es[i].key) && ps[2 * i + 1] == (t.value, es[i].value)
    ensures Interleave(t.key, t.value, Images(t, es)) == SortedPieces(t, ps)
  {
    hide Accepts, SortedMaps, SortedAll, Interleave, SortedPieces, Images;
    forall i | 0 <= i < |ps|
      ensures Interleave(t.key, t.value, Images(t, es))[i] == SortedPieces(t, ps)[i]
    {
      SortedAllAt(t, ps, i);
      assert ps[2 * (i / 2)] == (t.key, es[i / 2].key) && ps[2 * (i / 2) + 1] == (t.value, es[i / 2].value);
    }
  }

  lemma KeyedBytes(t: Schema, v: Value, i: nat)
    requires t.MapOf? && Accepts(t, v) && i < |v.entries|
    ensures Accepts(t.key, v.entries[i].0) && Keyed(t, v)[i].keyBytes == Encode(t.key, v.entries[i].0)
  {
    var es := Keyed(t, v);
    hide Accepts, Encode, Keyed;
    assert es[i].key == v.entries[i].0;
  }

  lemma SortedMapKeyed(t: Schema, v: Value)
    requires t.MapOf? && Accepts(t, v) && Accepts(t, SortedMaps(t, v))
    requires AllAccepted(t, InOrder(t, v)) && KeysSame(t, InOrder(t, v))
    ensures IsSorted(Keyed(t, SortedMaps(t, v)))
  {
    MapSorted(t, v);
    InOrderAccepted(t, v);
    var es, w := InOrder(t, v), SortedMaps(t, v);
    assert |Keyed(t, w)| == |es|;
    hide Accepts, SortedMaps, Encode, InOrder, Keyed, LexLess, EntryAccepted;
    forall i | 0 <= i < |es|
      ensures Keyed(t, w)[i].keyBytes == es[i].keyBytes
    {
      KeyedBytes(t, w, i);
    }
    SortedByBytes(es, Keyed(t, w));
  }

  lemma SortedByBytes(a: seq<Entry>, b: seq<Entry>)
    requires |a| == |b| && IsSorted(a) && forall i | 0 <= i < |a| :: b[i].keyBytes == a[i].keyBytes
    ensures IsSorted(b)
  {
    hide LexLess;
  }

  lemma {:induction false} SortedSameAll(bound: Schema, ps: seq<Piece>)
    requires forall i | 0 <= i < |ps| :: ps[i].0 < bound && Accepts(ps[i].0, ps[i].1)
    requires forall i | 0 <= i < |ps| :: WellFormed(ps[i].0)
    ensures var qs := SortedPieces(bound, ps);
      && (forall i | 0 <= i < |qs| :: qs[i].0 < bound && Accepts(qs[i].0, qs[i].1))
      && EncodeAll(bound, qs) == EncodeAll(bound, ps)
    decreases bound, 0, |ps|
  {
    hide WellFormed, Accepts, Encode, SortedMaps;
    if ps != [] {
      SortedSame(ps[0].0, ps[0].1);
      SortedSameAll(bound, ps[1..]);
      PiecesStep(bound, ps);
      hide SortedPieces;
    }
  }

  lemma PiecesStep(bound: Schema, ps: seq<Piece>)
    requires forall i | 0 <= i < |ps| :: ps[i].0 < bound && Accepts(ps[i].0, ps[i].1)
    requires ps != []
    ensures SortedPieces(bound, ps) == [(ps[0].0, SortedMaps(ps[0].0, ps[0].1))] + SortedPieces(bound, ps[1..])
  {
    hide Accepts, SortedMaps;
  }

  // ---------- Read back exactly ----------

  lemma {:induction false} TrueRestorable(t: Schema)
    requires Accepts(t, VBool(true))
    ensures IsRestorable(t, VBool(true))
    decreases t
  {
    if t.OptionOf? {
      assert Parts(t, VBool(true)) == [(t.inner, VBool(true))];
      assert Parts(t, VBool(true))[0] == (t.inner, VBool(true));
      TrueRestorable(t.inner);
    }
  }

  // Where the keys and values of a map that was read come from.
  lemma {:induction false} BuiltFrom(vals: seq<Value>, j: nat) returns (a: nat, b: nat)
    requires |vals| % 2 == 0 && j < |BuildMap(vals)|
    ensures 2 * a < |vals| && BuildMap(vals)[j].0 == vals[2 * a]
    ensures 2 * b + 1 < |vals| && BuildMap(vals)[j].1 == vals[2 * b + 1]
    decreases |vals|
  {
    var n := |vals| - 2;
    var front := BuildMap(vals[..n]);
    a, b := n / 2, n / 2;
    if j < |front| && BuildMap(vals)[j] == front[j] {
      a, b := BuiltFrom(vals[..n], j);
    }
  }

  // A repeated primitive key has the last value read for it.
  lemma {:induction false} LastValueWins(vals: seq<Value>, j: nat) returns (b: nat)
    requires |vals| % 2 == 0 && j < |BuildMap(vals)| && IsPrimitive(BuildMap(vals)[j].0)
    ensures 2 * b + 1 < |vals| && BuildMap(vals)[j] == (vals[2 * b], vals[2 * b + 1])
    ensures forall c | b < c && 2 * c < |vals| :: vals[2 * c] != BuildMap(vals)[j].0
    decreases |vals|
  {
    var n := |vals| - 2;
    var front, k := BuildMap(vals[..n]), vals[n];
    BuildDistinct(vals[..n]);
    if BuildMap(vals)[j].0 == k {
      b := n / 2;
      SetValue(front, k, vals[n + 1], j);
    } else {
      SetOther(front, k, vals[n + 1], j);
      b := LastValueWins(vals[..n], j);
    }
  }

  lemma SetValue(entries: seq<(Value, Value)>, k: Value, v: Value, j: nat)
    requires DistinctKeys(entries) && IsPrimitive(k)
    requires j < |MapSet(entries, k, v)| && MapSet(entries, k, v)[j].0 == k
    ensures MapSet(entries, k, v)[j].1 == v
  {
  }

  lemma SetOther(entries: seq<(Value, Value)>, k: Value, v: Value, j: nat)
    requires j < |MapSet(entries, k, v)| && MapSet(entries, k, v)[j].0 != k
    ensures j < |entries| && MapSet(entries, k, v)[j] == entries[j]
  {
  }

  // Every key that is read is in the map.
  lemma {:induction false} KeyKept(vals: seq<Value>, c: nat) returns (j: nat)
    requires |vals| % 2 == 0 && 2 * c < |vals|
    ensures j < |BuildMap(vals)| && BuildMap(vals)[j].0 == vals[2 * c]
    decreases |vals|
  {
    var n := |vals| - 2;
    var front, k := BuildMap(vals[..n]), vals[n];
    if 2 * c == n {
      j := if IsPrimitive(k) && FindKey(front, k).Some? then FindKey(front, k).value else |front|;
    } else {
      j := KeyKept(vals[..n], c);
    }
  }

  // A part of the value that is read is the canonical value of a part that was written, or true.
  ghost predicate PartFrom(t: Schema, v: Value, p: Piece)
    requires Accepts(t, v)
  {
    p.1 == VBool(true)
    || exists i :: 0 <= i < |Ordered(t, v)| && p == (Ordered(t, v)[i].0, CanonAll(t, Ordered(t, v))[i])
  }

  lemma CanonParts(t: Schema, v: Value, j: nat)
    requires WellFormed(t) && Accepts(t, v) && Shape(t, Canon(t, v)) && j < |Parts(t, Canon(t, v))|
    ensures PartFrom(t, v, Parts(t, Canon(t, v))[j])
  {
    OrderedTypes(t, v);
    var ps, h, p := Ordered(t, v), HeadOf(t, v), Parts(t, Canon(t, v))[j];
    assert Canon(t, v) == Assemble(t, h, CanonAll(t, ps));
    hide WellFormed, Accepts, Canon, Parts, Ordered, CanonAll, HeadOf, Assemble, Shape, PartTypes;
    if p.1 != VBool(true) {
      var i := AssembledPart(t, h, CanonAll(t, ps), j);
      assert TypesOf(ps)[i] == ps[i].0;
    }
  }

  lemma AssembledPart(t: Schema, h: Head, vals: seq<Value>, j: nat) returns (i: nat)
    requires WellFormed(t) && ValidHead(t, h) && |vals| == |PartTypes(t, h)|
    requires Shape(t, Assemble(t, h, vals)) && j < |Parts(t, Assemble(t, h, vals))|
    requires Parts(t, Assemble(t, h, vals))[j].1 != VBool(true)
    ensures i < |vals| && Parts(t, Assemble(t, h, vals))[j] == (PartTypes(t, h)[i], vals[i])
  {
    match t
    case Struct(ms) =>
      RecordAt(ms, vals, j);
      i := j;
    case Enum(vs) =>
      VariantUnique(vs, h.n);
      i := 0;
    case MapOf(k, w) =>
      i := MapPart(t, h, vals, j);
    case _ =>
      i := j;
  }

  lemma MapPart(t: Schema, h: Head, vals: seq<Value>, j: nat) returns (i: nat)
    requires t.MapOf? && ValidHead(t, h) && |vals| == |PartTypes(t, h)|
    requires j < |Parts(t, Assemble(t, h, vals))|
    ensures i < |vals| && Parts(t, Assemble(t, h, vals))[j] == (PartTypes(t, h)[i], vals[i])
  {
    hide *;
    MapFacts(t, h, vals);
    i := MapPartFrom(t.key, t.value, vals, PartTypes(t, h), j);
  }

  lemma MapFacts(t: Schema, h: Head, vals: seq<Value>)
    requires t.MapOf? && ValidHead(t, h) && |vals| == |PartTypes(t, h)|
    ensures Shape(t, Assemble(t, h, vals)) && |vals| % 2 == 0
    ensures Parts(t, Assemble(t, h, vals)) == Interleave(t.key, t.value, BuildMap(vals))
    ensures forall k | 0 <= k < |vals| :: PartTypes(t, h)[k] == if k % 2 == 0 then t.key else t.value
  {
    MapPartTypes(t, h);
    assert Assemble(t, h, vals) == VMap(BuildMap(vals));
    hide BuildMap, PartTypes, Assemble;
  }

  lemma MapPartTypes(t: Schema, h: Head)
    requires t.MapOf? && ValidHead(t, h)
    ensures |PartTypes(t, h)| % 2 == 0
    ensures forall k | 0 <= k < |PartTypes(t, h)| :: PartTypes(t, h)[k] == if k % 2 == 0 then t.key else t.value
  {
  }

  lemma MapPartFrom(k: Schema, w: Schema, vals: seq<Value>, ts: seq<Schema>, j: nat) returns (i: nat)
    requires |vals| % 2 == 0 && |ts| == |vals| && j < 2 * |BuildMap(vals)|
    requires forall n | 0 <= n < |vals| :: ts[n] == if n % 2 == 0 then k else w
    ensures i < |vals| && Interleave(k, w, BuildMap(vals))[j] == (ts[i], vals[i])
  {
    hide BuildMap, Interleave;
    var a, b := BuiltFrom(vals, j / 2);
    i := if j % 2 == 0 then 2 * a else 2 * b + 1;
  }

  lemma {:induction false} VariantUnique(vs: seq<Variant>, i: nat)
    requires i < |vs| && forall j, k | 0 <= j < k < |vs| :: vs[j].name != vs[k].name
    ensures VariantIndex(vs, vs[i].name) == Some(i)
  {
    var found := VariantIndex(vs, vs[i].name);
    hide VariantIndex;
    assert found.Some?;
  }

  lemma {:induction false} CanonRestorable(t: Schema, v: Value)
    requires WellFormed(t) && Accepts(t, v) && Accepts(t, Canon(t, v))
    ensures IsRestorable(t, Canon(t, v))
    decreases t
  {
    var c := Canon(t, v);
    CanonLocal(t, v);
    assert Shape(t, c);
    hide Accepts, Canon, Parts, WellFormed, LocalRestorable, Ordered, CanonAll;
    forall j | 0 <= j < |Parts(t, c)|
      ensures IsRestorable(Parts(t, c)[j].0, Parts(t, c)[j].1)
    {
      CanonParts(t, v, j);
      var p := Parts(t, c)[j];
      assert Accepts(p.0, p.1) by {
        PartAccepted(t, c, j);
      }
      if p.1 == VBool(true) {
        TrueRestorable(p.0);
      } else {
        var i :| 0 <= i < |Ordered(t, v)| && p == (Ordered(t, v)[i].0, CanonAll(t, Ordered(t, v))[i]);
        CanonAllAt(t, Ordered(t, v), i);
        PieceWellFormed(t, v, i);
        CanonRestorable(Ordered(t, v)[i].0, Ordered(t, v)[i].1);
      }
    }
  }

  lemma PartAccepted(t: Schema, v: Value, j: nat)
    requires Accepts(t, v) && j < |Parts(t, v)|
    ensures Accepts(Parts(t, v)[j].0, Parts(t, v)[j].1)
  {
  }

  lemma CanonLocal(t: Schema, v: Value)
    requires WellFormed(t) && Accepts(t, v) && Shape(t, Canon(t, v))
    ensures LocalRestorable(t, Canon(t, v))
  {
    OrderedTypes(t, v);
    var ps, h := Ordered(t, v), HeadOf(t, v);
    assert t.UInt? ==> h.value.VInt?;
    assert Canon(t, v) == Assemble(t, h, CanonAll(t, ps));
    hide *;
    AssembledLocal(t, h, CanonAll(t, ps));
  }

  lemma AssembledLocal(t: Schema, h: Head, vals: seq<Value>)
    requires WellFormed(t) && ValidHead(t, h) && |vals| == |PartTypes(t, h)| && (t.UInt? ==> h.value.VInt?)
    requires Shape(t, Assemble(t, h, vals))
    ensures LocalRestorable(t, Assemble(t, h, vals))
  {
    match t
    case Struct(ms) => RecordKeys(ms, vals);
    case Enum(vs) => VariantUnique(vs, h.n);
    case MapOf(_, _) => BuildDistinct(vals);
    case _ =>
  }

  lemma WithPartsFixed(t: Schema, v: Value, vals: seq<Value>)
    requires WellFormed(t) && Shape(t, v) && |vals| == |Parts(t, v)| && WithParts(t, v, vals) == v
    requires forall i | 0 <= i < |vals| :: vals[i].VNull? <==> Parts(t, v)[i].1.VNull?
    ensures forall i | 0 <= i < |vals| :: vals[i] == Parts(t, v)[i].1
  {
    hide WellFormed, Replaced, Pairs, VariantIndex;
    if t.Struct? {
      NewFields(t, v, vals);
    } else if t.MapOf? {
      MapPartsFixed(t, v, vals);
    }
  }

  lemma MapPartsFixed(t: Schema, v: Value, vals: seq<Value>)
    requires t.MapOf? && Shape(t, v) && |vals| == |Parts(t, v)| && WithParts(t, v, vals) == v
    ensures forall i | 0 <= i < |vals| :: vals[i] == Parts(t, v)[i].1
  {
    hide *;
    MapPartsAre(t, v);
    MapWithParts(t, v, vals);
    InterleavedPairs(t.key, t.value, vals);
  }

  lemma InterleavedPairs(k: Schema, w: Schema, vals: seq<Value>)
    requires |vals| % 2 == 0
    ensures |Interleave(k, w, Pairs(vals))| == |vals|
    ensures forall i | 0 <= i < |vals| :: Interleave(k, w, Pairs(vals))[i].1 == vals[i]
  {
    hide Interleave;
    forall i | 0 <= i < |vals|
      ensures Interleave(k, w, Pairs(vals))[i].1 == vals[i]
    {
      assert Pairs(vals)[i / 2] == (vals[2 * (i / 2)], vals[2 * (i / 2) + 1]);
    }
  }

  // A value whose maps are sorted already and that is restorable is canonical.
  lemma {:induction false} SortedCanonical(t: Schema, v: Value)
    requires WellFormed(t) && Accepts(t, v) && IsRestorable(t, v) && SortedMaps(t, v) == v
    ensures IsCanonical(t, v)
    decreases t
  {
    var ps := Parts(t, v);
    SortedSame(t, v);
    assert LocalCanonical(t, v);
    hide WellFormed, Accepts, Canon, Parts, LocalCanonical, Ordered, Keyed, Encode, SortedMaps;
    if t.MapOf? {
      OrderedCanonical(t, v);
    } else {
      OrderedIsParts(t, v);
    }
    FixedParts(t, v);
    forall i | 0 <= i < |ps|
      ensures IsCanonical(ps[i].0, ps[i].1)
    {
      PartsWellFormed(t, v, i);
      SortedCanonical(ps[i].0, ps[i].1);
    }
  }

  lemma FixedParts(t: Schema, v: Value)
    requires WellFormed(t) && Accepts(t, v) && Ordered(t, v) == Parts(t, v) && SortedMaps(t, v) == v
    ensures forall i | 0 <= i < |Parts(t, v)| :: SortedMaps(Parts(t, v)[i].0, Parts(t, v)[i].1) == Parts(t, v)[i].1
  {
    assert Shape(t, v);
    var ps := Ordered(t, v);
    var vals := SortedAll(t, ps);
    assert WithParts(t, v, vals) == v;
    hide WellFormed, Accepts, Parts, Ordered, Encode, SortedMaps, WithParts, SortedAll, Shape;
    forall i | 0 <= i < |ps|
      ensures vals[i].VNull? <==> ps[i].1.VNull?
      ensures vals[i] == SortedMaps(ps[i].0, ps[i].1)
    {
      PieceNull(t, ps, i);
    }
    WithPartsFixed(t, v, vals);
  }

  // A value is read back unchanged only if it is canonical.
  lemma RestoredCanonical(t: Schema, v: Value)
    requires WellFormed(t) && Accepts(t, v) && Canon(t, v) == v
    ensures IsCanonical(t, v)
  {
    hide WellFormed, Accepts, Canon, IsRestorable, IsCanonical, SortedMaps;
    CanonRestorable(t, v);
    RestoredIff(t, v);
    SortedCanonical(t, v);
  }

  lemma {:induction false} CanonicalRestorable(t: Schema, v: Value)
    requires WellFormed(t) && Accepts(t, v) && IsCanonical(t, v)
    ensures IsRestorable(t, v)
    decreases t
  {
    assert Shape(t, v);
    assert forall i | 0 <= i < |Parts(t, v)| :: Accepts(Parts(t, v)[i].0, Parts(t, v)[i].1);
    hide WellFormed, Accepts, LocalRestorable, Parts, Keyed, IsSorted;
    forall i | 0 <= i < |Parts(t, v)|
      ensures IsRestorable(Parts(t, v)[i].0, Parts(t, v)[i].1)
    {
      PartsWellFormed(t, v, i);
      CanonicalRestorable(Parts(t, v)[i].0, Parts(t, v)[i].1);
    }
  }

  lemma CanonicalSorted(t: Schema, v: Value)
    requires WellFormed(t) && Accepts(t, v) && IsCanonical(t, v)
    ensures SortedMaps(t, v) == v
  {
    hide WellFormed, Accepts, Canon, IsRestorable, IsCanonical, SortedMaps;
    CanonicalRestorable(t, v);
    CanonicalRestored(t, v);
    RestoredIff(t, v);
  }

  // A map that is read back has the entries that were inserted, with their own maps sorted, in the
  // order of their keys' bytes, and writes the same bytes again.
  lemma MapReadBack(t: Schema, v: Value)
    requires t.MapOf? && WellFormed(t) && Accepts(t, v) && IsRestorable(t, v)
    ensures AllAccepted(t, Keyed(t, v))
    ensures var w := Canon(t, v);
      && Accepts(t, w) && Encode(t, w) == Encode(t, v) && IsSorted(Keyed(t, w))
      && multiset(w.entries) == multiset(Images(t, Keyed(t, v)))
  {
    hide WellFormed, Accepts, Canon, IsRestorable, SortedMaps, Encode, Keyed, IsSorted, Images, AllAccepted;
    RestoredIff(t, v);
    SortedEntries(t, v);
    SortedSame(t, v);
  }

  // With canonical keys and values and no primitive key twice, the map read back is the same
  // mapping, whatever the insertion order.
  lemma SameMapping(t: Schema, v: Value)
    requires t.MapOf? && WellFormed(t) && Accepts(t, v) && DistinctKeys(v.entries)
    requires forall i | 0 <= i < |v.entries| ::
      && Accepts(t.key, v.entries[i].0) && IsCanonical(t.key, v.entries[i].0)
      && Accepts(t.value, v.entries[i].1) && IsCanonical(t.value, v.entries[i].1)
    ensures Canon(t, v).VMap? && multiset(Canon(t, v).entries) == multiset(v.entries)
  {
    assert Parts(t, v) == Interleave(t.key, t.value, v.entries);
    KeyWellFormed(t);
    hide WellFormed, Accepts, Canon, IsRestorable, IsCanonical, SortedMaps, Encode, Keyed, Interleave, DistinctKeys;
    forall i | 0 <= i < |v.entries|
      ensures IsRestorable(t.key, v.entries[i].0) && SortedMaps(t.key, v.entries[i].0) == v.entries[i].0
      ensures IsRestorable(t.value, v.entries[i].1) && SortedMaps(t.value, v.entries[i].1) == v.entries[i].1
    {
      CanonicalRestorable(t.key, v.entries[i].0);
      CanonicalSorted(t.key, v.entries[i].0);
      CanonicalRestorable(t.value, v.entries[i].1);
      CanonicalSorted(t.value, v.entries[i].1);
    }
    RestorableIs(t, v);
    assert IsRestorable(t, v);
    MapReadBack(t, v);
    assert Images(t, Keyed(t, v)) == v.entries;
  }
}
