// BCS schemas and values: what is written, what is read back, and when that is the same value.

module Bcs {
  import opened Wrappers
  import opened Uleb
  import opened Writing
  import opened Reading

  // UInt has 1, 2, 4, 8, 16 or 32 bytes. Text stands for its UTF-8 bytes.
  datatype Schema =
    | UInt(size: nat)
    | Bool
    | Uleb128
    | FixedBytes(size: nat)
    | ByteVector
    | Text
    | FixedArray(size: nat, element: Schema)
    | Vector(element: Schema)
    | Tuple(fields: seq<Schema>)
    | Struct(members: seq<Member>)
    | Enum(variants: seq<Variant>)
    | OptionOf(inner: Schema)
    | MapOf(key: Schema, value: Schema)

  datatype Member = Member(name: string, schema: Schema)

  // A variant with no payload is the source's null.
  datatype Variant = Variant(name: string, payload: Option<Schema>)

  // VNull is null and undefined; a map lists its entries in insertion order.
  datatype Value =
    | VNull
    | VInt(n: int)
    | VBool(b: bool)
    | VBytes(data: bytes)
    | VText(utf8: bytes)
    | VSeq(items: seq<Value>)
    | VRecord(fields: map<string, Value>)
    | VEnum(tag: string, payload: Value)
    | VMap(entries: seq<(Value, Value)>)

  type Piece = (Schema, Value)

  const MAX_ARRAY_LENGTH := 0xFFFF_FFFF

  ghost predicate WellFormed(t: Schema) {
    match t
    case UInt(size) => size in {1, 2, 4, 8, 16, 32}
    case FixedArray(size, e) => size <= MAX_ARRAY_LENGTH && WellFormed(e)
    case Vector(e) => WellFormed(e)
    case Tuple(ts) => forall i | 0 <= i < |ts| :: WellFormed(ts[i])
    case Struct(ms) =>
      && (forall i, j | 0 <= i < j < |ms| :: ms[i].name != ms[j].name)
      && (forall i | 0 <= i < |ms| :: WellFormed(ms[i].schema))
    case Enum(vs) =>
      && |vs| <= MAX_SAFE_INTEGER
      && (forall i, j | 0 <= i < j < |vs| :: vs[i].name != vs[j].name)
      && (forall i | 0 <= i < |vs| && vs[i].payload.Some? :: WellFormed(vs[i].payload.value))
    case OptionOf(e) => WellFormed(e)
    case MapOf(k, v) => WellFormed(k) && WellFormed(v)
    case _ => true
  }

  // ---------- What validate accepts ----------

  // A missing field is undefined.
  function Field(fields: map<string, Value>, name: string): Value {
    if name in fields then fields[name] else VNull
  }

  function VariantIndex(vs: seq<Variant>, tag: string): (i: Option<nat>)
    ensures i.Some? ==> i.value < |vs| && vs[i.value].name == tag
    ensures i.None? ==> forall k | 0 <= k < |vs| :: vs[k].name != tag
  {
    if vs == [] then None
    else
      var front := VariantIndex(vs[..|vs| - 1], tag);
      if front.Some? then front else if vs[|vs| - 1].name == tag then Some(|vs| - 1) else None
  }

  // The checks on one level. The small integer types take null and undefined, which fail none of
  // their comparisons; an enum input is one tag with its payload.
  predicate Shape(t: Schema, v: Value) {
    match t
    case UInt(size) => (v.VInt? && 0 <= v.n < Pow256(size)) || (v.VNull? && size <= 4)
    case Bool => v.VBool?
    case Uleb128 => v.VInt?
    case FixedBytes(size) => v.VBytes? && |v.data| == size
    case ByteVector => v.VBytes?
    case Text => v.VText?
    case FixedArray(size, _) => v.VSeq? && |v.items| == size
    case Vector(_) => v.VSeq?
    case Tuple(ts) => v.VSeq? && |v.items| == |ts|
    case Struct(_) => v.VRecord?
    case Enum(vs) => v.VEnum? && VariantIndex(vs, v.tag).Some?
    case OptionOf(_) => true
    case MapOf(_, _) => v.VMap?
  }

  function Interleave(k: Schema, w: Schema, entries: seq<(Value, Value)>): (ps: seq<Piece>)
    ensures |ps| == 2 * |entries|
    ensures forall i | 0 <= i < |ps| :: ps[i] == if i % 2 == 0 then (k, entries[i / 2].0) else (w, entries[i / 2].1)
  {
    seq(2 * |entries|, i requires 0 <= i < 2 * |entries| =>
      if i % 2 == 0 then (k, entries[i / 2].0) else (w, entries[i / 2].1))
  }

  // The values inside a value, with the schemas they are written by.
  function Parts(t: Schema, v: Value): (ps: seq<Piece>)
    requires Shape(t, v)
    ensures forall i | 0 <= i < |ps| :: ps[i].0 < t
  {
    match t
    case FixedArray(_, e) => seq(|v.items|, i requires 0 <= i < |v.items| => (e, v.items[i]))
    case Vector(e) => seq(|v.items|, i requires 0 <= i < |v.items| => (e, v.items[i]))
    case Tuple(ts) => seq(|ts|, i requires 0 <= i < |ts| => (ts[i], v.items[i]))
    case Struct(ms) => seq(|ms|, i requires 0 <= i < |ms| => (ms[i].schema, Field(v.fields, ms[i].name)))
    case Enum(vs) =>
      var payload := vs[VariantIndex(vs, v.tag).value].payload;
      if payload.Some? then [(payload.value, v.payload)] else []
    case OptionOf(e) => if v.VNull? then [] else [(e, v)]
    case MapOf(k, w) => Interleave(k, w, v.entries)
    case _ => []
  }

  predicate Accepts(t: Schema, v: Value)
    decreases t
  {
    Shape(t, v) && forall i | 0 <= i < |Parts(t, v)| :: Accepts(Parts(t, v)[i].0, Parts(t, v)[i].1)
  }

  // ---------- The order of map keys ----------

  predicate LexLess(a: bytes, b: bytes) {
    b != [] && (a == [] || a[0] < b[0] || (a[0] == b[0] && LexLess(a[1..], b[1..])))
  }

  // The byte strings agree before k, and there a ends or has the smaller byte.
  ghost predicate DecidedAt(a: bytes, b: bytes, k: nat) {
    k <= |a| && k < |b| && a[..k] == b[..k] && (k == |a| || a[k] < b[k])
  }

  // Lexicographic order, byte by byte.
  ghost predicate Precedes(a: bytes, b: bytes) {
    exists k: nat :: DecidedAt(a, b, k)
  }

  lemma DecidedTail(a: bytes, b: bytes, k: nat)
    requires a != [] && b != [] && a[0] == b[0]
    ensures DecidedAt(a[1..], b[1..], k) <==> DecidedAt(a, b, k + 1)
  {
    if k <= |a| - 1 && k <= |b| - 1 {
      assert a[..k + 1] == [a[0]] + a[1..][..k] && b[..k + 1] == [b[0]] + b[1..][..k];
    }
  }

  lemma {:induction false} LexPointwise(a: bytes, b: bytes)
    ensures LexLess(a, b) <==> Precedes(a, b)
    decreases |a|
  {
    if b != [] {
      if a == [] || a[0] < b[0] {
        assert DecidedAt(a, b, 0);
      } else if a[0] == b[0] {
        SameFirst(a, b);
      } else {
        forall k: nat
          ensures !DecidedAt(a, b, k)
        {
          if k > 0 && k <= |a| && k < |b| {
            assert a[..k][0] == a[0] && b[..k][0] == b[0];
          }
        }
      }
    }
  }

  lemma {:induction false} SameFirst(a: bytes, b: bytes)
    requires a != [] && b != [] && a[0] == b[0]
    ensures LexLess(a, b) <==> Precedes(a, b)
    decreases |a|, 0
  {
    LexPointwise(a[1..], b[1..]);
    hide DecidedAt;
    if k: nat :| DecidedAt(a[1..], b[1..], k) {
      DecidedTail(a, b, k);
    }
    if k: nat :| DecidedAt(a, b, k) {
      FirstDecides(a, b, k);
      DecidedTail(a, b, k - 1);
    }
  }

  lemma FirstDecides(a: bytes, b: bytes, k: nat)
    requires a != [] && b != [] && a[0] == b[0] && DecidedAt(a, b, k)
    ensures k > 0
  {
  }

  // The bytes from index i on decide.
  lemma {:induction false} LexSkip(a: bytes, b: bytes, i: nat)
    requires i <= |a| && i <= |b| && a[..i] == b[..i]
    ensures LexLess(a, b) <==> LexLess(a[i..], b[i..])
    decreases i
  {
    if i == 0 {
      assert a[0..] == a && b[0..] == b;
    } else {
      assert a[0] == a[..i][0] == b[..i][0] == b[0];
      assert a[1..][..i - 1] == a[..i][1..] && b[1..][..i - 1] == b[..i][1..];
      LexSkip(a[1..], b[1..], i - 1);
      assert a[1..][i - 1..] == a[i..] && b[1..][i - 1..] == b[i..];
    }
  }

  // compareBcsBytes: the difference of the first bytes that differ, else of the lengths.
  method CompareBcsBytes(a: bytes, b: bytes) returns (c: int)
    ensures c < 0 <==> Precedes(a, b)
    ensures c > 0 <==> Precedes(b, a)
    ensures c == 0 <==> a == b
  {
    hide Precedes;
    LexPointwise(a, b);
    LexPointwise(b, a);
    var i := 0;
    while i < (if |a| < |b| then |a| else |b|)
      invariant 0 <= i <= |a| && i <= |b| && a[..i] == b[..i]
    {
      if a[i] != b[i] {
        LexSkip(a, b, i);
        LexSkip(b, a, i);
        return a[i] as int - b[i] as int;
      }
      i := i + 1;
    }
    LexSkip(a, b, i);
    LexSkip(b, a, i);
    assert |a| == |b| ==> a == a[..i] && b == b[..i];
    return |a| - |b|;
  }

  // A strict total order.
  lemma {:induction false} LexTotal(a: bytes, b: bytes)
    ensures LexLess(a, b) || LexLess(b, a) || a == b
    ensures !(LexLess(a, b) && LexLess(b, a)) && !(a == b && LexLess(a, b))
    decreases |a|
  {
    if a != [] && b != [] {
      LexTotal(a[1..], b[1..]);
      assert a == [a[0]] + a[1..] && b == [b[0]] + b[1..];
    }
  }

  lemma {:induction false} LexTransitive(a: bytes, b: bytes, c: bytes)
    requires LexLess(a, b) && LexLess(b, c)
    ensures LexLess(a, c)
    decreases |b|
  {
    if a != [] && a[0] == b[0] && b[0] == c[0] {
      LexTransitive(a[1..], b[1..], c[1..]);
    }
  }

  // A map entry with the serialisation of its key.
  datatype Entry = Entry(keyBytes: bytes, key: Value, value: Value)

  // A stable sort: an entry goes after the entries whose key is not greater.
  function InsertEntry(sorted: seq<Entry>, e: Entry): (r: seq<Entry>)
    ensures multiset(r) == multiset(sorted) + multiset{e}
    ensures |r| == |sorted| + 1
  {
    var n := |sorted|;
    if n == 0 || !LexLess(e.keyBytes, sorted[n - 1].keyBytes) then sorted + [e]
    else
      assert sorted == sorted[..n - 1] + [sorted[n - 1]];
      InsertEntry(sorted[..n - 1], e) + [sorted[n - 1]]
  }

  function SortEntries(es: seq<Entry>): (r: seq<Entry>)
    ensures multiset(r) == multiset(es)
    ensures |r| == |es|
  {
    var n := |es|;
    if n == 0 then []
    else
      assert es == es[..n - 1] + [es[n - 1]];
      InsertEntry(SortEntries(es[..n - 1]), es[n - 1])
  }

  ghost predicate IsSorted(es: seq<Entry>) {
    forall i, j | 0 <= i < j < |es| :: !LexLess(es[j].keyBytes, es[i].keyBytes)
  }

  lemma {:induction false} InsertSorted(sorted: seq<Entry>, e: Entry)
    requires IsSorted(sorted)
    ensures IsSorted(InsertEntry(sorted, e))
  {
    hide LexLess;
    var n := |sorted|;
    if n > 0 && LexLess(e.keyBytes, sorted[n - 1].keyBytes) {
      var front, last := sorted[..n - 1], sorted[n - 1];
      InsertSorted(front, e);
      var r := InsertEntry(front, e);
      forall i | 0 <= i < |r|
        ensures !LexLess(last.keyBytes, r[i].keyBytes)
      {
        assert r[i] in multiset(r);
        assert r[i] == e || r[i] in front;
        LexTotal(e.keyBytes, last.keyBytes);
      }
    } else {
      forall i | 0 <= i < n
        ensures !LexLess(e.keyBytes, sorted[i].keyBytes)
      {
        NotGreater(sorted, e, i);
      }
    }
  }

  lemma NotGreater(sorted: seq<Entry>, e: Entry, i: nat)
    requires IsSorted(sorted) && i < |sorted| && !LexLess(e.keyBytes, sorted[|sorted| - 1].keyBytes)
    ensures !LexLess(e.keyBytes, sorted[i].keyBytes)
  {
    hide LexLess;
    var last := sorted[|sorted| - 1].keyBytes;
    if LexLess(e.keyBytes, sorted[i].keyBytes) {
      LexTotal(sorted[i].keyBytes, last);
      if LexLess(sorted[i].keyBytes, last) {
        LexTransitive(e.keyBytes, sorted[i].keyBytes, last);
      }
    }
  }

  lemma {:induction false} SortIsSorted(es: seq<Entry>)
    ensures IsSorted(SortEntries(es))
  {
    if es != [] {
      SortIsSorted(es[..|es| - 1]);
      InsertSorted(SortEntries(es[..|es| - 1]), es[|es| - 1]);
    }
  }

  // ---------- What is written ----------

  // The bytes of a value before those of its parts.
  function Header(t: Schema, v: Value): bytes
    requires Shape(t, v)
  {
    match t
    case UInt(size) => if v.VInt? then Little(v.n, size) else Zeros(size)
    case Bool => [if v.b then 1 else 0]
    case Uleb128 => if v.n < 0 then [] else Encoding(v.n)
    case FixedBytes(_) => v.data
    case ByteVector => Encoding(|v.data|) + v.data
    case Text => Encoding(|v.utf8|) + v.utf8
    case Vector(_) => Encoding(|v.items|)
    case Enum(vs) => Encoding(VariantIndex(vs, v.tag).value)
    case OptionOf(_) => Encoding(if v.VNull? then 0 else 1)
    case MapOf(_, _) => Encoding(|v.entries|)
    case _ => []
  }

  // Parts in the order they are written: map entries are sorted by the bytes of their keys.
  function Ordered(t: Schema, v: Value): (ps: seq<Piece>)
    requires Accepts(t, v)
    ensures |ps| == |Parts(t, v)|
    ensures forall i | 0 <= i < |ps| :: ps[i].0 < t && Accepts(ps[i].0, ps[i].1)
    decreases t, 1, 0
  {
    if t.MapOf? then
      SortedAccepts(t, v);
      PiecesAccepted(t, SortEntries(Keyed(t, v)));
      Interleave(t.key, t.value, Unkeyed(SortEntries(Keyed(t, v))))
    else Parts(t, v)
  }

  function Unkeyed(es: seq<Entry>): (r: seq<(Value, Value)>)
    ensures |r| == |es|
  {
    seq(|es|, i requires 0 <= i < |es| => (es[i].key, es[i].value))
  }

  lemma PiecesAccepted(t: Schema, es: seq<Entry>)
    requires t.MapOf? && forall e | e in es :: Accepts(t.key, e.key) && Accepts(t.value, e.value)
    ensures var ps := Interleave(t.key, t.value, Unkeyed(es));
      forall i | 0 <= i < |ps| :: ps[i].0 < t && Accepts(ps[i].0, ps[i].1)
  {
    hide Accepts;
    var ps := Interleave(t.key, t.value, Unkeyed(es));
    forall i | 0 <= i < |ps|
      ensures ps[i].0 < t && Accepts(ps[i].0, ps[i].1)
    {
      assert es[i / 2] in es;
    }
  }

  // The entries of a map with their serialized keys.
  function Keyed(t: Schema, v: Value): (es: seq<Entry>)
    requires t.MapOf? && Accepts(t, v)
    ensures |es| == |v.entries|
    ensures forall i | 0 <= i < |es| ::
      Accepts(t.key, v.entries[i].0) && es[i] == Entry(Encode(t.key, v.entries[i].0), v.entries[i].0, v.entries[i].1)
    decreases t, 0, 0
  {
    EntriesAccepted(t, v);
    seq(|v.entries|, i requires 0 <= i < |v.entries| =>
      Entry(Encode(t.key, v.entries[i].0), v.entries[i].0, v.entries[i].1))
  }

  lemma EntriesAccepted(t: Schema, v: Value)
    requires t.MapOf? && Accepts(t, v)
    ensures forall i | 0 <= i < |v.entries| :: Accepts(t.key, v.entries[i].0) && Accepts(t.value, v.entries[i].1)
  {
    var ps := Parts(t, v);
    assert forall i | 0 <= i < |ps| :: Accepts(ps[i].0, ps[i].1);
    assert ps == Interleave(t.key, t.value, v.entries);
    hide *;
    PairsAccepted(t.key, t.value, v.entries);
  }

  lemma PairsAccepted(k: Schema, w: Schema, entries: seq<(Value, Value)>)
    requires var ps := Interleave(k, w, entries); forall i | 0 <= i < |ps| :: Accepts(ps[i].0, ps[i].1)
    ensures forall i | 0 <= i < |entries| :: Accepts(k, entries[i].0) && Accepts(w, entries[i].1)
  {
    hide Accepts;
    var ps := Interleave(k, w, entries);
    forall i | 0 <= i < |entries|
      ensures Accepts(k, entries[i].0) && Accepts(w, entries[i].1)
    {
      assert ps[2 * i] == (k, entries[i].0) && ps[2 * i + 1] == (w, entries[i].1);
    }
  }

  lemma SortedAccepts(t: Schema, v: Value)
    requires t.MapOf? && Accepts(t, v)
    ensures forall e | e in SortEntries(Keyed(t, v)) :: Accepts(t.key, e.key) && Accepts(t.value, e.value)
    ensures forall e | e in SortEntries(Keyed(t, v)) :: e.keyBytes == Encode(t.key, e.key)
    decreases t, 0, 1
  {
    EntriesAccepted(t, v);
    var es := Keyed(t, v);
    hide Accepts, Encode, Keyed, SortEntries;
    forall e | e in SortEntries(es)
      ensures Accepts(t.key, e.key) && Accepts(t.value, e.value) && e.keyBytes == Encode(t.key, e.key)
    {
      var i := SortedFrom(es, e);
    }
  }

  lemma SortedFrom(es: seq<Entry>, e: Entry) returns (k: nat)
    requires e in SortEntries(es)
    ensures k < |es| && es[k] == e
  {
    hide SortEntries;
    assert e in multiset(SortEntries(es));
    assert e in multiset(es);
    k :| 0 <= k < |es| && es[k] == e;
  }

  // The serialisation of an accepted value.
  function Encode(t: Schema, v: Value): bytes
    requires Accepts(t, v)
    decreases t, 2, 0
  {
    Header(t, v) + EncodeAll(t, Ordered(t, v))
  }

  function EncodeAll(ghost bound: Schema, ps: seq<Piece>): bytes
    requires forall i | 0 <= i < |ps| :: ps[i].0 < bound && Accepts(ps[i].0, ps[i].1)
    decreases bound, 0, |ps|
  {
    if ps == [] then [] else Encode(ps[0].0, ps[0].1) + EncodeAll(bound, ps[1..])
  }

  // ---------- What is read ----------

  // What a type reads before its parts: a whole leaf, or a count or index that fixes the parts.
  datatype Head = Leaf(value: Value) | Count(n: nat)

  predicate IsLeaf(t: Schema) {
    t.UInt? || t.Bool? || t.Uleb128? || t.FixedBytes? || t.ByteVector? || t.Text?
  }

  predicate ValidHead(t: Schema, h: Head) {
    && (IsLeaf(t) <==> h.Leaf?)
    && (t.Enum? ==> h.n < |t.variants|)
    && (t.OptionOf? ==> h.n < 2)
  }

  function TakeUleb(bs: bytes): (r: Result<(nat, bytes), ReadError>) {
    match Decoding(bs)
    case None => Err(BadUleb(BufferOverflow))
    case Some(d) => if d.0 > MAX_SAFE_INTEGER then Err(BadUleb(ExceedsMaxSafeInteger)) else Ok((d.0, bs[d.1..]))
  }

  function TakeBytes(bs: bytes, n: nat): Result<(bytes, bytes), ReadError> {
    if n > |bs| then Err(OutOfBounds) else Ok((bs[..n], bs[n..]))
  }

  function ReadHead(t: Schema, bs: bytes): (r: Result<(Head, bytes), ReadError>)
    ensures r.Ok? ==> ValidHead(t, r.value.0)
  {
    match t
    case UInt(size) => var x :- TakeBytes(bs, size); Ok((Leaf(VInt(FromLittle(x.0))), x.1))
    case Bool => var x :- TakeBytes(bs, 1); Ok((Leaf(VBool(x.0 == [1])), x.1))
    case Uleb128 => var x :- TakeUleb(bs); Ok((Leaf(VInt(x.0)), x.1))
    case FixedBytes(size) => var x :- TakeBytes(bs, size); Ok((Leaf(VBytes(x.0)), x.1))
    case ByteVector => var l :- TakeUleb(bs); var x :- TakeBytes(l.1, l.0); Ok((Leaf(VBytes(x.0)), x.1))
    case Text => var l :- TakeUleb(bs); var x :- TakeBytes(l.1, l.0); Ok((Leaf(VText(x.0)), x.1))
    case FixedArray(size, _) => Ok((Count(size), bs))
    case Vector(_) =>
      var l :- TakeUleb(bs);
      if l.0 > MAX_ARRAY_LENGTH then Err(InvalidLength) else Ok((Count(l.0), l.1))
    case Tuple(ts) => Ok((Count(|ts|), bs))
    case Struct(ms) => Ok((Count(|ms|), bs))
    case Enum(vs) => var l :- TakeUleb(bs); if l.0 >= |vs| then Err(UnknownVariant) else Ok((Count(l.0), l.1))
    case OptionOf(_) => var l :- TakeUleb(bs); if l.0 >= 2 then Err(UnknownVariant) else Ok((Count(l.0), l.1))
    case MapOf(_, _) => var l :- TakeUleb(bs); Ok((Count(l.0), l.1))
  }

  function PartTypes(t: Schema, h: Head): (ts: seq<Schema>)
    requires ValidHead(t, h)
    ensures forall i | 0 <= i < |ts| :: ts[i] < t
  {
    match t
    case FixedArray(size, e) => seq(h.n, i => e)
    case Vector(e) => seq(h.n, i => e)
    case Tuple(ts) => ts
    case Struct(ms) => seq(|ms|, i requires 0 <= i < |ms| => ms[i].schema)
    case Enum(vs) => if vs[h.n].payload.Some? then [vs[h.n].payload.value] else []
    case OptionOf(e) => if h.n == 0 then [] else [e]
    case MapOf(k, w) => seq(2 * h.n, i => if i % 2 == 0 then k else w)
    case _ => []
  }

  // x ?? true
  function OrTrue(v: Value): Value {
    if v.VNull? then VBool(true) else v
  }

  function Record(ms: seq<Member>, vals: seq<Value>): map<string, Value>
    requires |ms| == |vals|
  {
    if ms == [] then map[] else Record(ms[..|ms| - 1], vals[..|vals| - 1])[ms[|ms| - 1].name := vals[|vals| - 1]]
  }

  // Keys that JavaScript compares by value.
  predicate IsPrimitive(v: Value) {
    v.VNull? || v.VInt? || v.VBool? || v.VText?
  }

  function FindKey(entries: seq<(Value, Value)>, k: Value): (i: Option<nat>)
    ensures i.Some? ==> i.value < |entries| && entries[i.value].0 == k
    ensures i.None? ==> forall j | 0 <= j < |entries| :: entries[j].0 != k
  {
    if entries == [] then None
    else if entries[|entries| - 1].0 == k then Some(|entries| - 1)
    else FindKey(entries[..|entries| - 1], k)
  }

  // Map.set: a primitive key that is present keeps its place; an object key is always new.
  function MapSet(entries: seq<(Value, Value)>, k: Value, v: Value): seq<(Value, Value)> {
    if IsPrimitive(k) && FindKey(entries, k).Some? then entries[FindKey(entries, k).value := (k, v)]
    else entries + [(k, v)]
  }

  // A map from its keys and values in turn.
  function BuildMap(vals: seq<Value>): seq<(Value, Value)> {
    if |vals| < 2 then [] else MapSet(BuildMap(vals[..|vals| - 2]), vals[|vals| - 2], vals[|vals| - 1])
  }

  // The value from its head and its parts.
  function Assemble(t: Schema, h: Head, vals: seq<Value>): Value
    requires ValidHead(t, h) && |vals| == |PartTypes(t, h)|
  {
    match t
    case FixedArray(_, _) => VSeq(vals)
    case Vector(_) => VSeq(vals)
    case Tuple(_) => VSeq(vals)
    case Struct(ms) => VRecord(Record(ms, vals))
    case Enum(vs) => VEnum(vs[h.n].name, if vals == [] then VBool(true) else OrTrue(vals[0]))
    case OptionOf(_) => if vals == [] then VNull else OrTrue(vals[0])
    case MapOf(_, _) => VMap(BuildMap(vals))
    case _ => h.value
  }

  // The value at the head of the bytes, and the bytes after it.
  function Decode(t: Schema, bs: bytes): Result<(Value, bytes), ReadError>
    decreases t, 1, 0
  {
    var h :- ReadHead(t, bs);
    var parts :- DecodeAll(t, PartTypes(t, h.0), h.1);
    Ok((Assemble(t, h.0, parts.0), parts.1))
  }

  function DecodeAll(ghost bound: Schema, ts: seq<Schema>, bs: bytes): (r: Result<(seq<Value>, bytes), ReadError>)
    requires forall i | 0 <= i < |ts| :: ts[i] < bound
    ensures r.Ok? ==> |r.value.0| == |ts|
    decreases bound, 0, |ts|
  {
    if ts == [] then Ok(([], bs))
    else
      var first :- Decode(ts[0], bs);
      var rest :- DecodeAll(bound, ts[1..], first.1);
      Ok(([first.0] + rest.0, rest.1))
  }

  // ---------- Round trip ----------

  // The lengths and indices the reader can take back.
  ghost predicate Fits(t: Schema, v: Value)
    requires Accepts(t, v)
    decreases t
  {
    && (t.Uleb128? ==> 0 <= v.n <= MAX_SAFE_INTEGER)
    && (t.ByteVector? ==> |v.data| <= MAX_SAFE_INTEGER)
    && (t.Text? ==> |v.utf8| <= MAX_SAFE_INTEGER)
    && (t.Vector? ==> |v.items| <= MAX_ARRAY_LENGTH)
    && (t.MapOf? ==> |v.entries| <= MAX_SAFE_INTEGER)
    && forall i | 0 <= i < |Parts(t, v)| :: Fits(Parts(t, v)[i].0, Parts(t, v)[i].1)
  }

  function HeadOf(t: Schema, v: Value): (h: Head)
    requires Shape(t, v)
    ensures ValidHead(t, h)
  {
    match t
    case UInt(_) => Leaf(if v.VNull? then VInt(0) else v)
    case FixedArray(size, _) => Count(size)
    case Vector(_) => Count(|v.items|)
    case Tuple(ts) => Count(|ts|)
    case Struct(ms) => Count(|ms|)
    case Enum(vs) => Count(VariantIndex(vs, v.tag).value)
    case OptionOf(_) => Count(if v.VNull? then 0 else 1)
    case MapOf(_, _) => Count(|v.entries|)
    case _ => Leaf(v)
  }

  function TypesOf(ps: seq<Piece>): seq<Schema> {
    seq(|ps|, i requires 0 <= i < |ps| => ps[i].0)
  }

  lemma OrderedTypes(t: Schema, v: Value)
    requires Accepts(t, v)
    ensures TypesOf(Ordered(t, v)) == PartTypes(t, HeadOf(t, v))
  {
    assert Shape(t, v);
    hide Accepts, Encode, Shape;
    if !t.MapOf? {
      PartsTypes(t, v);
    }
  }

  lemma PartsTypes(t: Schema, v: Value)
    requires Shape(t, v) && !t.MapOf?
    ensures TypesOf(Parts(t, v)) == PartTypes(t, HeadOf(t, v))
  {
    var a, b := TypesOf(Parts(t, v)), PartTypes(t, HeadOf(t, v));
    assert |a| == |b|;
    assert forall i | 0 <= i < |a| :: a[i] == b[i];
  }

  // The value the reader returns for what was written.
  function Canon(t: Schema, v: Value): Value
    requires Accepts(t, v)
    decreases t, 1, 0
  {
    OrderedTypes(t, v);
    Assemble(t, HeadOf(t, v), CanonAll(t, Ordered(t, v)))
  }

  function CanonAll(ghost bound: Schema, ps: seq<Piece>): (vals: seq<Value>)
    requires forall i | 0 <= i < |ps| :: ps[i].0 < bound && Accepts(ps[i].0, ps[i].1)
    ensures |vals| == |ps|
    decreases bound, 0, |ps|
  {
    if ps == [] then [] else [Canon(ps[0].0, ps[0].1)] + CanonAll(bound, ps[1..])
  }

  lemma UlebTaken(n: nat, rest: bytes)
    requires n <= MAX_SAFE_INTEGER
    ensures TakeUleb(Encoding(n) + rest) == Ok((n, rest))
  {
    UlebRoundTrip(n, rest);
  }

  lemma BytesTaken(b: bytes, rest: bytes)
    ensures TakeBytes(b + rest, |b|) == Ok((b, rest))
  {
  }

  lemma SizedTaken(b: bytes, rest: bytes)
    requires |b| <= MAX_SAFE_INTEGER
    ensures TakeUleb(Encoding(|b|) + b + rest) == Ok((|b|, b + rest))
    ensures TakeBytes(b + rest, |b|) == Ok((b, rest))
  {
    hide Encoding, TakeUleb, TakeBytes;
    assert Encoding(|b|) + b + rest == Encoding(|b|) + (b + rest);
    UlebTaken(|b|, b + rest);
    BytesTaken(b, rest);
  }

  lemma {:induction false} ZerosValue(size: nat)
    ensures FromLittle(Zeros(size)) == 0
  {
    if size > 0 {
      ZerosValue(size - 1);
      assert Zeros(size)[1..] == Zeros(size - 1);
    }
  }

  // The header is read back as the head of the value.
  lemma HeadRoundTrip(t: Schema, v: Value, rest: bytes)
    requires WellFormed(t) && Accepts(t, v) && Fits(t, v)
    ensures ReadHead(t, Header(t, v) + rest) == Ok((HeadOf(t, v), rest))
  {
    assert Shape(t, v);
    hide Accepts, Encoding, Decoding, TakeUleb, TakeBytes, FromLittle, Little, Pow256;
    match t
    case UInt(size) =>
      var b := Header(t, v);
      BytesTaken(b, rest);
      if v.VInt? {
        LittleRoundTrip(v.n, size);
      } else {
        ZerosValue(size);
      }
    case Bool => BytesTaken([if v.b then 1 else 0], rest);
    case Uleb128 => UlebTaken(v.n, rest);
    case FixedBytes(_) => BytesTaken(v.data, rest);
    case ByteVector => SizedTaken(v.data, rest);
    case Text => SizedTaken(v.utf8, rest);
    case Vector(_) => UlebTaken(|v.items|, rest);
    case Enum(vs) => UlebTaken(VariantIndex(vs, v.tag).value, rest);
    case OptionOf(_) => UlebTaken(if v.VNull? then 0 else 1, rest);
    case MapOf(_, _) => UlebTaken(|v.entries|, rest);
    case _ => assert Header(t, v) + rest == rest;
  }

  // A map's parts are written in another order, but they are the same parts.
  lemma OrderedMembers(t: Schema, v: Value, i: nat)
    requires Accepts(t, v) && i < |Ordered(t, v)|
    ensures exists j :: 0 <= j < |Parts(t, v)| && Parts(t, v)[j] == Ordered(t, v)[i]
  {
    if t.MapOf? {
      MapMembers(t, v, i);
    } else {
      assert Parts(t, v)[i] == Ordered(t, v)[i];
    }
  }

  lemma MapMembers(t: Schema, v: Value, i: nat)
    requires t.MapOf? && Accepts(t, v) && i < |Ordered(t, v)|
    ensures exists j :: 0 <= j < |Parts(t, v)| && Parts(t, v)[j] == Ordered(t, v)[i]
  {
    hide SortEntries, Encode;
    var sorted := SortEntries(Keyed(t, v));
    var e := sorted[i / 2];
    var k := SortedFrom(Keyed(t, v), e);
    assert e.key == v.entries[k].0 && e.value == v.entries[k].1;
    hide Accepts, Keyed;
    assert Unkeyed(sorted)[i / 2] == v.entries[k];
    MapPiece(t, v, i, k);
  }

  lemma MapPiece(t: Schema, v: Value, i: nat, k: nat)
    requires t.MapOf? && Accepts(t, v) && i < |Ordered(t, v)| && k < |v.entries|
    requires Unkeyed(SortEntries(Keyed(t, v)))[i / 2] == v.entries[k]
    ensures 2 * k + i % 2 < |Parts(t, v)| && Parts(t, v)[2 * k + i % 2] == Ordered(t, v)[i]
  {
    var entries := Unkeyed(SortEntries(Keyed(t, v)));
    assert Ordered(t, v) == Interleave(t.key, t.value, entries);
    assert Parts(t, v) == Interleave(t.key, t.value, v.entries);
    hide *;
    InterleaveAt(t.key, t.value, entries, v.entries, i, k);
  }

  lemma InterleaveAt(k: Schema, w: Schema, a: seq<(Value, Value)>, b: seq<(Value, Value)>, i: nat, j: nat)
    requires i < 2 * |a| && j < |b| && a[i / 2] == b[j]
    ensures Interleave(k, w, a)[i] == Interleave(k, w, b)[2 * j + i % 2]
  {
  }

  lemma PartsWellFormed(t: Schema, v: Value, i: nat)
    requires WellFormed(t) && Shape(t, v) && i < |Parts(t, v)|
    ensures WellFormed(Parts(t, v)[i].0)
  {
  }

  // For every schema, accepted value and suffix, reading what was written returns the canonical
  // value and leaves exactly the suffix.
  lemma {:induction false} RoundTrip(t: Schema, v: Value, suffix: bytes)
    requires WellFormed(t) && Accepts(t, v) && Fits(t, v)
    ensures Decode(t, Encode(t, v) + suffix) == Ok((Canon(t, v), suffix))
    decreases t, 1, 0
  {
    hide WellFormed, Header, ReadHead, HeadOf, Assemble, PartTypes, EncodeAll, DecodeAll, CanonAll, Ordered, Parts;
    var ps := Ordered(t, v);
    var body := EncodeAll(t, ps);
    HeadRoundTrip(t, v, body + suffix);
    assert Encode(t, v) + suffix == Header(t, v) + (body + suffix);
    OrderedTypes(t, v);
    forall i | 0 <= i < |ps|
      ensures WellFormed(ps[i].0) && Fits(ps[i].0, ps[i].1)
    {
      OrderedMembers(t, v, i);
      var j :| 0 <= j < |Parts(t, v)| && Parts(t, v)[j] == ps[i];
      PartsWellFormed(t, v, j);
    }
    RoundTripAll(t, ps, suffix);
  }

  lemma {:induction false} RoundTripAll(bound: Schema, ps: seq<Piece>, suffix: bytes)
    requires forall i | 0 <= i < |ps| :: ps[i].0 < bound && Accepts(ps[i].0, ps[i].1)
    requires forall i | 0 <= i < |ps| :: WellFormed(ps[i].0) && Fits(ps[i].0, ps[i].1)
    ensures forall i | 0 <= i < |ps| :: TypesOf(ps)[i] < bound
    ensures DecodeAll(bound, TypesOf(ps), EncodeAll(bound, ps) + suffix) == Ok((CanonAll(bound, ps), suffix))
    decreases bound, 0, |ps|
  {
    hide WellFormed, Accepts, Fits, Encode, Decode, Canon;
    if ps == [] {
      assert EncodeAll(bound, ps) + suffix == suffix;
    } else {
      var rest := EncodeAll(bound, ps[1..]) + suffix;
      RoundTrip(ps[0].0, ps[0].1, rest);
      RoundTripAll(bound, ps[1..], suffix);
      assert EncodeAll(bound, ps) + suffix == Encode(ps[0].0, ps[0].1) + rest;
      assert TypesOf(ps)[1..] == TypesOf(ps[1..]);
    }
  }

  // ---------- Injectivity ----------

  // No encoding is a prefix of another: what is written determines the canonical value.
  lemma EncodeInjective(t: Schema, v: Value, w: Value, s: bytes, u: bytes)
    requires WellFormed(t) && Accepts(t, v) && Fits(t, v) && Accepts(t, w) && Fits(t, w)
    requires Encode(t, v) + s == Encode(t, w) + u
    ensures Canon(t, v) == Canon(t, w) && s == u
  {
    hide WellFormed, Accepts, Fits, Encode, Canon, Decode;
    RoundTrip(t, v, s);
    RoundTrip(t, w, u);
  }

  // ---------- When the value read is the value written ----------

  // On one level: no null small integer, exactly the declared fields, no null enum payload (and
  // true for a variant without one), no primitive map key twice.
  ghost predicate LocalRestorable(t: Schema, v: Value)
    requires Shape(t, v)
  {
    match t
    case UInt(_) => v.VInt?
    case Struct(ms) => v.fields.Keys == (set i | 0 <= i < |ms| :: ms[i].name)
    case Enum(vs) =>
      if vs[VariantIndex(vs, v.tag).value].payload.Some? then !v.payload.VNull? else v.payload == VBool(true)
    case MapOf(_, _) => DistinctKeys(v.entries)
    case _ => true
  }

  // Map entries are moreover in the order of their keys' bytes.
  ghost predicate LocalCanonical(t: Schema, v: Value)
    requires Accepts(t, v)
  {
    LocalRestorable(t, v) && (t.MapOf? ==> IsSorted(Keyed(t, v)))
  }

  ghost predicate DistinctKeys(entries: seq<(Value, Value)>) {
    forall i, j | 0 <= i < j < |entries| :: IsPrimitive(entries[j].0) ==> entries[i].0 != entries[j].0
  }

  ghost predicate IsCanonical(t: Schema, v: Value)
    requires Accepts(t, v)
    decreases t
  {
    && LocalCanonical(t, v)
    && forall i | 0 <= i < |Parts(t, v)| :: IsCanonical(Parts(t, v)[i].0, Parts(t, v)[i].1)
  }

  function ValuesOf(ps: seq<Piece>): (r: seq<Value>)
    ensures |r| == |ps|
  {
    seq(|ps|, i requires 0 <= i < |ps| => ps[i].1)
  }

  lemma RecordKeys(ms: seq<Member>, vals: seq<Value>)
    requires |ms| == |vals|
    ensures Record(ms, vals).Keys == (set i | 0 <= i < |ms| :: ms[i].name)
  {
    if ms != [] {
      var m := ms[..|ms| - 1];
      RecordKeys(m, vals[..|vals| - 1]);
      assert forall i | 0 <= i < |m| :: m[i] == ms[i];
    }
  }

  lemma {:induction false} RecordAt(ms: seq<Member>, vals: seq<Value>, i: nat)
    requires |ms| == |vals| && i < |ms|
    requires forall j, k | 0 <= j < k < |ms| :: ms[j].name != ms[k].name
    ensures ms[i].name in Record(ms, vals) && Record(ms, vals)[ms[i].name] == vals[i]
  {
    if i < |ms| - 1 {
      RecordAt(ms[..|ms| - 1], vals[..|vals| - 1], i);
    }
  }

  // A record is restored from its fields exactly when it has no others.
  lemma RecordOfFields(ms: seq<Member>, fields: map<string, Value>, vals: seq<Value>)
    requires |ms| == |vals| && forall j, k | 0 <= j < k < |ms| :: ms[j].name != ms[k].name
    ensures Record(ms, vals) == fields <==>
      && fields.Keys == (set i | 0 <= i < |ms| :: ms[i].name)
      && forall i | 0 <= i < |ms| :: vals[i] == Field(fields, ms[i].name)
  {
    RecordKeys(ms, vals);
    forall i | 0 <= i < |ms|
      ensures ms[i].name in Record(ms, vals) && Record(ms, vals)[ms[i].name] == vals[i]
    {
      RecordAt(ms, vals, i);
    }
  }

  lemma {:induction false} CanonAllAt(bound: Schema, ps: seq<Piece>, i: nat)
    requires forall k | 0 <= k < |ps| :: ps[k].0 < bound && Accepts(ps[k].0, ps[k].1)
    requires i < |ps|
    ensures CanonAll(bound, ps)[i] == Canon(ps[i].0, ps[i].1)
    decreases i
  {
    hide Canon, Accepts;
    if i > 0 {
      CanonAllAt(bound, ps[1..], i - 1);
    }
  }

  // Only an absent option is read as null.
  lemma CanonNull(t: Schema, v: Value)
    requires Accepts(t, v) && Canon(t, v).VNull?
    ensures v.VNull?
  {
    assert Shape(t, v);
    hide Accepts, Encode;
    OrderedTypes(t, v);
  }

  lemma {:induction false} SortSorted(es: seq<Entry>)
    requires IsSorted(es)
    ensures SortEntries(es) == es
  {
    hide LexLess, InsertEntry;
    var n := |es|;
    if n > 0 {
      var front := es[..n - 1];
      SortedFront(es);
      hide IsSorted;
      SortSorted(front);
      InsertLast(front, es[n - 1]);
      assert es == front + [es[n - 1]];
    }
  }

  lemma SortedFront(es: seq<Entry>)
    requires IsSorted(es) && es != []
    ensures IsSorted(es[..|es| - 1])
    ensures |es| > 1 ==> !LexLess(es[|es| - 1].keyBytes, es[..|es| - 1][|es| - 2].keyBytes)
  {
    hide LexLess;
    var front := es[..|es| - 1];
    assert forall i | 0 <= i < |front| :: front[i] == es[i];
  }

  lemma InsertLast(sorted: seq<Entry>, e: Entry)
    requires sorted == [] || !LexLess(e.keyBytes, sorted[|sorted| - 1].keyBytes)
    ensures InsertEntry(sorted, e) == sorted + [e]
  {
  }

  lemma {:induction false} BuildEntries(k: Schema, w: Schema, entries: seq<(Value, Value)>)
    requires DistinctKeys(entries)
    ensures BuildMap(ValuesOf(Interleave(k, w, entries))) == entries
  {
    var n := |entries|;
    if n > 0 {
      var front, last := entries[..n - 1], entries[n - 1];
      assert forall j | 0 <= j < |front| :: front[j] == entries[j];
      BuildEntries(k, w, front);
      hide DistinctKeys;
      InterleaveLast(k, w, front, last);
      assert entries == front + [last];
      hide Interleave, ValuesOf, BuildMap, MapSet;
      BuildLast(ValuesOf(Interleave(k, w, front)), last);
      SetNew(entries);
    }
  }

  // Setting the last of distinct keys appends it.
  lemma SetNew(entries: seq<(Value, Value)>)
    requires DistinctKeys(entries) && entries != []
    ensures var n := |entries| - 1;
      MapSet(entries[..n], entries[n].0, entries[n].1) == entries[..n] + [entries[n]]
  {
    var n := |entries| - 1;
    var found := FindKey(entries[..n], entries[n].0);
    assert found.Some? ==> entries[..n][found.value] == entries[found.value];
  }

  lemma InterleaveLast(k: Schema, w: Schema, front: seq<(Value, Value)>, last: (Value, Value))
    ensures ValuesOf(Interleave(k, w, front + [last])) == ValuesOf(Interleave(k, w, front)) + [last.0, last.1]
  {
    var a, b := ValuesOf(Interleave(k, w, front + [last])), ValuesOf(Interleave(k, w, front)) + [last.0, last.1];
    forall i | 0 <= i < |a|
      ensures a[i] == b[i]
    {
      if i < 2 * |front| {
        assert (front + [last])[i / 2] == front[i / 2];
      } else {
        assert i / 2 == |front|;
      }
    }
  }

  lemma BuildLast(vals: seq<Value>, last: (Value, Value))
    ensures BuildMap(vals + [last.0, last.1]) == MapSet(BuildMap(vals), last.0, last.1)
  {
    var all := vals + [last.0, last.1];
    assert all[..|all| - 2] == vals;
  }

  lemma MapPartsAre(t: Schema, v: Value)
    requires t.MapOf? && Shape(t, v)
    ensures v.VMap? && Parts(t, v) == Interleave(t.key, t.value, v.entries)
  {
  }

  lemma MapOrderedAre(t: Schema, v: Value)
    requires t.MapOf? && Accepts(t, v)
    ensures Shape(t, v) && Ordered(t, v) == Interleave(t.key, t.value, Unkeyed(SortEntries(Keyed(t, v))))
  {
    hide Encode, SortEntries, Keyed, Interleave, Unkeyed, Parts;
  }

  lemma OrderedCanonical(t: Schema, v: Value)
    requires t.MapOf? && Accepts(t, v) && IsSorted(Keyed(t, v))
    ensures Ordered(t, v) == Parts(t, v)
  {
    hide *;
    SortSorted(Keyed(t, v));
    MapOrderedAre(t, v);
    MapPartsAre(t, v);
    KeyedEntries(t, v);
  }

  lemma KeyedEntries(t: Schema, v: Value)
    requires t.MapOf? && Accepts(t, v)
    ensures Unkeyed(Keyed(t, v)) == v.entries
  {
    assert Shape(t, v) && v.VMap?;
    hide Accepts, Encode, Keyed;
    assert forall i | 0 <= i < |v.entries| :: Keyed(t, v)[i].key == v.entries[i].0;
  }

  // The head and the parts of a canonical value assemble to it.
  lemma AssembleParts(t: Schema, v: Value)
    requires WellFormed(t) && Accepts(t, v) && LocalCanonical(t, v)
    ensures |ValuesOf(Parts(t, v))| == |PartTypes(t, HeadOf(t, v))|
    ensures Assemble(t, HeadOf(t, v), ValuesOf(Parts(t, v))) == v
  {
    assert Shape(t, v);
    hide Accepts, Keyed;
    var vals := ValuesOf(Parts(t, v));
    match t
    case FixedArray(_, _) => assert vals == v.items;
    case Vector(_) => assert vals == v.items;
    case Tuple(_) => assert vals == v.items;
    case Struct(ms) => RecordOfFields(ms, v.fields, vals);
    case MapOf(k, w) => BuildEntries(k, w, v.entries);
    case _ =>
  }

  lemma CanonicalOrdered(t: Schema, v: Value)
    requires Accepts(t, v) && LocalCanonical(t, v)
    ensures Ordered(t, v) == Parts(t, v)
  {
    hide Accepts, Ordered, Parts, Keyed, IsSorted, LocalRestorable;
    if t.MapOf? {
      OrderedCanonical(t, v);
    } else {
      OrderedIsParts(t, v);
    }
  }

  // A canonical value is read back as it was written.
  lemma {:induction false} CanonicalRestored(t: Schema, v: Value)
    requires WellFormed(t) && Accepts(t, v) && IsCanonical(t, v)
    ensures Canon(t, v) == v
    decreases t
  {
    assert Shape(t, v) && LocalCanonical(t, v);
    hide WellFormed, Accepts, LocalCanonical, CanonAll, Assemble, HeadOf, PartTypes, Parts, Ordered, Shape;
    var ps := Parts(t, v);
    CanonicalOrdered(t, v);
    var vals := CanonAll(t, ps);
    forall i | 0 <= i < |ps|
      ensures vals[i] == ps[i].1
    {
      PartsWellFormed(t, v, i);
      CanonicalRestored(ps[i].0, ps[i].1);
      CanonAllAt(t, ps, i);
    }
    assert vals == ValuesOf(ps);
    AssembleParts(t, v);
  }

  lemma OrderedIsParts(t: Schema, v: Value)
    requires Accepts(t, v) && !t.MapOf?
    ensures Ordered(t, v) == Parts(t, v)
  {
  }
}
