// The ristretto255 group: elements as residues, their Edwards representatives, and the
// discrete-log table that decrypts small values.

module Ristretto {
  import opened Modular

  // An element is its exponent to the base point G, a residue modulo the group order.
  type Element = nat

  // A representative on the Edwards curve: an element and one of the four torsion shifts.
  datatype Point = Point(element: Element, torsion: nat)

  // q is the group order, h the exponent of H, hTorsion the shift of H's representative, and
  // xOf the affine x-coordinate of each representative.
  datatype Curve = Curve(q: nat, h: Element, hTorsion: nat, xOf: (Element, nat) -> nat) {
    ghost predicate Valid() {
      && Prime(q)
      && 0x1000000000000000000000000000000000000000000000000000000000000000 < q
      && q < 0x2000000000000000000000000000000000000000000000000000000000000000
      && 0 < h < q
      && hTorsion < 4
    }

    function H(): Point {
      Point(h, hTorsion)
    }

    function X(p: Point): nat {
      xOf(p.element, p.torsion)
    }

    function Plus(a: Point, b: Point): Point
      requires q > 0
    {
      Point(M(q, a.element + b.element), (a.torsion + b.torsion) % 4)
    }

    function Minus(a: Point, b: Point): Point
      requires q > 0
    {
      Point(M(q, a.element - b.element), (a.torsion - b.torsion) % 4)
    }

    function Times(p: Point, s: nat): Point
      requires q > 0
    {
      Point(M(q, s * p.element), (s * p.torsion) % 4)
    }
  }

  const Identity := Point(0, 0)

  predicate SameElement(a: Point, b: Point) {
    a.element == b.element
  }
}

module DiscreteLog {
  import opened Wrappers
  import opened Modular
  import opened Ristretto

  const CHUNK := 4096
  const MAX_CACHE_SIZE := 1024
  const KEY_SPAN := 0x1_0000_0000

  datatype LogError = NumBitsTooLarge | DecryptionFailed | InvalidScalar

  function Pow2(n: nat): (p: nat)
    ensures p > 0
  {
    if n == 0 then 1 else 2 * Pow2(n - 1)
  }

  lemma {:induction false} Pow2Monotonic(m: nat, n: nat)
    requires m <= n
    ensures Pow2(m) <= Pow2(n)
    decreases n
  {
    if m < n {
      Pow2Monotonic(m, n - 1);
    }
  }

  lemma TableSizeBound(numBits: nat)
    requires numBits <= 32
    ensures Pow2(numBits) <= KEY_SPAN
    ensures Pow2(numBits) * Pow2(numBits) <= KEY_SPAN * KEY_SPAN
  {
    Pow2Monotonic(numBits, 32);
    Pow2Of32();
    hide Pow2;
    ProductBound(Pow2(numBits), KEY_SPAN);
  }

  lemma ProductBound(a: nat, b: nat)
    requires a <= b
    ensures a * a <= b * b
  {
    assert a * a <= a * b <= b * b;
  }

  lemma Pow2Of32()
    ensures Pow2(32) == KEY_SPAN
  {
    assert Pow2(8) == 0x100;
    assert Pow2(16) == 0x1_0000;
    assert Pow2(24) == 0x100_0000;
  }

  // The low 32 bits of an x-coordinate.
  function Key(x: nat): (k: nat)
    ensures k < KEY_SPAN
  {
    x % KEY_SPAN
  }

  // The representative computeTableEntries reaches after i additions of H.
  function Walk(curve: Curve, i: nat): Point
    requires curve.q > 0
  {
    Point(M(curve.q, i * curve.h), (i * curve.hTorsion) % 4)
  }

  lemma WalkStep(curve: Curve, i: nat)
    requires curve.q > 0
    ensures curve.Plus(Walk(curve, i), curve.H()) == Walk(curve, i + 1)
    ensures Walk(curve, 0) == Identity
  {
    AddM(curve.q, i * curve.h, curve.h);
    assert i * curve.h + curve.h == (i + 1) * curve.h;
    assert i * curve.hTorsion + curve.hTorsion == (i + 1) * curve.hTorsion;
    Canonical(curve.q, 0);
    assert 0 * curve.h == 0 && 0 * curve.hTorsion == 0;
    TorsionStep(i * curve.hTorsion, curve.hTorsion);
  }

  lemma TorsionStep(a: nat, b: nat)
    ensures ((a % 4) + b) % 4 == (a + b) % 4
  {
  }

  // Entry i is the truncated x-coordinate of i * H.
  ghost predicate IsTable(curve: Curve, entries: seq<nat>)
    requires curve.q > 0
  {
    forall i | 0 <= i < |entries| :: entries[i] == Key(curve.X(Walk(curve, i)))
  }

  // The chunked walk; the division of the projective coordinates is inside xOf.
  method ComputeTableEntries(curve: Curve, numBits: nat) returns (entries: array<nat>)
    requires curve.q > 0
    ensures fresh(entries) && entries.Length == Pow2(numBits)
    ensures IsTable(curve, entries[..])
  {
    hide Pow2, Key, Walk, Curve.Plus, Curve.X;
    var tableSize := Pow2(numBits);
    entries := new nat[tableSize];
    var xs := new nat[CHUNK];
    var point := Identity;
    WalkStep(curve, 0);
    var base := 0;
    while base < tableSize
      invariant 0 <= base
      invariant base <= tableSize ==> point == Walk(curve, base)
      invariant forall i | 0 <= i < base && i < tableSize :: entries[i] == Key(curve.X(Walk(curve, i)))
      decreases tableSize - base
    {
      var len := if CHUNK < tableSize - base then CHUNK else tableSize - base;
      for k := 0 to len
        invariant point == Walk(curve, base + k)
        invariant forall c | 0 <= c < k :: xs[c] == curve.X(Walk(curve, base + c))
        invariant forall i | 0 <= i < base :: entries[i] == Key(curve.X(Walk(curve, i)))
      {
        xs[k] := curve.X(point);
        WalkStep(curve, base + k);
        point := curve.Plus(point, curve.H());
      }
      for k := 0 to len
        invariant forall i | 0 <= i < base + k :: entries[i] == Key(curve.X(Walk(curve, i)))
        invariant forall c | 0 <= c < len :: xs[c] == curve.X(Walk(curve, base + c))
      {
        entries[base + k] := Key(xs[k]);
      }
      base := base + CHUNK;
    }
  }

  // ---------- Sorting the baby steps by key ----------

  predicate InRange(values: seq<nat>, n: nat) {
    forall j | 0 <= j < |values| :: values[j] < n
  }

  predicate SortedBy(entries: seq<nat>, values: seq<nat>)
    requires InRange(values, |entries|)
  {
    forall j, k | 0 <= j < k < |values| :: entries[values[j]] <= entries[values[k]]
  }

  // A stable sort: v goes after the values with the same key.
  function Insert(entries: seq<nat>, sorted: seq<nat>, v: nat): (r: seq<nat>)
    requires v < |entries| && InRange(sorted, |entries|)
    ensures InRange(r, |entries|)
    ensures multiset(r) == multiset(sorted) + multiset{v}
  {
    var n := |sorted|;
    if n == 0 || entries[sorted[n - 1]] <= entries[v] then sorted + [v]
    else
      assert sorted == sorted[..n - 1] + [sorted[n - 1]];
      Insert(entries, sorted[..n - 1], v) + [sorted[n - 1]]
  }

  lemma {:induction false} InsertSorted(entries: seq<nat>, sorted: seq<nat>, v: nat)
    requires v < |entries| && InRange(sorted, |entries|) && SortedBy(entries, sorted)
    ensures SortedBy(entries, Insert(entries, sorted, v))
  {
    var n := |sorted|;
    if n > 0 && entries[sorted[n - 1]] > entries[v] {
      var front, last := sorted[..n - 1], sorted[n - 1];
      InsertSorted(entries, front, v);
      var r := Insert(entries, front, v);
      forall j | 0 <= j < |r|
        ensures entries[r[j]] <= entries[last]
      {
        assert r[j] in multiset(r);
        assert r[j] == v || r[j] in front;
      }
    }
  }

  function SortIndices(entries: seq<nat>, values: seq<nat>): (r: seq<nat>)
    requires InRange(values, |entries|)
    ensures InRange(r, |entries|) && SortedBy(entries, r)
    ensures multiset(r) == multiset(values)
  {
    var n := |values|;
    if n == 0 then []
    else
      assert values == values[..n - 1] + [values[n - 1]];
      var front := SortIndices(entries, values[..n - 1]);
      InsertSorted(entries, front, values[n - 1]);
      Insert(entries, front, values[n - 1])
  }

  // ---------- Discrete logarithms below the table size ----------

  // m is a discrete logarithm of e to the base H.
  predicate IsLog(curve: Curve, m: nat, e: Element)
    requires curve.q > 0
  {
    M(curve.q, m * curve.h) == e
  }

  lemma LogUnique(curve: Curve, m: nat, n: nat, e: Element)
    requires curve.Valid() && m < curve.q && n < curve.q
    requires IsLog(curve, m, e) && IsLog(curve, n, e)
    ensures m == n
  {
    hide Prime, M;
    Cancel(curve.q, m, n, curve.h);
    Canonical(curve.q, m);
    Canonical(curve.q, n);
  }

  // The Edwards x-coordinates of the four representatives of p's element, in the source's order.
  function CosetX(curve: Curve, p: Point): seq<nat> {
    [curve.xOf(p.element, p.torsion),
     curve.xOf(p.element, (p.torsion + 2) % 4),
     curve.xOf(p.element, (p.torsion + 1) % 4),
     curve.xOf(p.element, (p.torsion + 3) % 4)]
  }

  // Whatever representative the table was built from, its x-coordinate is in the coset.
  lemma CosetCovers(curve: Curve, p: Point, m: nat)
    requires curve.q > 0 && IsLog(curve, m, p.element) && p.torsion < 4
    ensures curve.X(Walk(curve, m)) in CosetX(curve, p)
  {
    var t := (m * curve.hTorsion) % 4;
    var d := (t - p.torsion) % 4;
    assert t == (p.torsion + d) % 4;
    var c := CosetX(curve, p);
    if d == 0 {
      assert c[0] == curve.X(Walk(curve, m));
    } else if d == 1 {
      assert c[2] == curve.X(Walk(curve, m));
    } else if d == 2 {
      assert c[1] == curve.X(Walk(curve, m));
    } else {
      assert c[3] == curve.X(Walk(curve, m));
    }
  }

  // ---------- The table and its cache ----------

  datatype Hit = Hit(value: nat, cached: bool)

  // The keys that survive the eviction before an insertion.
  function Kept(order: seq<nat>): seq<nat> {
    if |order| >= MAX_CACHE_SIZE then order[1..] else order
  }

  function OrderAfter(order: seq<nat>, key: nat): seq<nat> {
    if key in Kept(order) then Kept(order) else Kept(order) + [key]
  }

  function CacheAfter(cache: map<nat, nat>, order: seq<nat>, key: nat, value: nat): map<nat, nat> {
    (if |order| >= MAX_CACHE_SIZE then cache - {order[0]} else cache)[key := value]
  }

  // The order lists the cached keys once each, at most MAX_CACHE_SIZE of them.
  ghost predicate IsCache(cache: map<nat, nat>, order: seq<nat>, bound: nat) {
    && |order| <= MAX_CACHE_SIZE
    && (forall i, j | 0 <= i < j < |order| :: order[i] != order[j])
    && (forall k :: k in cache <==> k in order)
    && (forall k | k in cache :: cache[k] < bound)
  }

  lemma KeptMembers(order: seq<nat>)
    requires forall i, j | 0 <= i < j < |order| :: order[i] != order[j]
    ensures forall i, j | 0 <= i < j < |Kept(order)| :: Kept(order)[i] != Kept(order)[j]
    ensures |order| < MAX_CACHE_SIZE ==> Kept(order) == order
    ensures |order| >= MAX_CACHE_SIZE ==> forall k :: k in Kept(order) <==> k in order && k != order[0]
  {
    if |order| >= MAX_CACHE_SIZE {
      forall k
        ensures k in Kept(order) <==> k in order && k != order[0]
      {
        if k in order {
          var i :| 0 <= i < |order| && order[i] == k;
          if i > 0 {
            assert order[1..][i - 1] == k;
          }
        }
      }
    }
  }

  lemma CacheStep(cache: map<nat, nat>, order: seq<nat>, bound: nat, key: nat, value: nat)
    requires IsCache(cache, order, bound) && value < bound
    ensures IsCache(CacheAfter(cache, order, key, value), OrderAfter(order, key), bound)
  {
    KeptMembers(order);
    hide Kept;
  }

  // Only the oldest key of a full cache goes, and all others keep their values.
  lemma Evicted(cache: map<nat, nat>, order: seq<nat>, key: nat, value: nat)
    ensures var after := CacheAfter(cache, order, key, value);
      && key in after && after[key] == value
      && (forall k | k != key :: (k in after <==> k in cache && (|order| >= MAX_CACHE_SIZE ==> k != order[0])))
      && (forall k | k in after && k != key :: k in cache && after[k] == cache[k])
    ensures var kept := if |order| >= MAX_CACHE_SIZE then order[1..] else order;
      OrderAfter(order, key) == kept + if key in kept then [] else [key]
  {
  }

  class DiscreteLogTable {
    const curve: Curve
    const numBits: nat
    const tableSize: nat
    const giantStep: Point
    const keys: seq<nat>
    const values: seq<nat>
    // The map with its insertion order, oldest key first.
    var cache: map<nat, nat>
    var order: seq<nat>

    // The sorted table lists every baby step under its key; cached values are baby steps.
    ghost predicate Valid()
      reads this
    {
      && TableValid()
      && CacheValid()
    }

    ghost predicate TableValid() {
      && curve.Valid()
      && numBits <= 32
      && tableSize == Pow2(numBits)
      && giantStep == curve.Times(curve.H(), tableSize)
      && |keys| == |values| == tableSize
      && (forall j, k | 0 <= j < k < |keys| :: keys[j] <= keys[k])
      && (forall j | 0 <= j < |values| :: values[j] < tableSize)
      && (forall j | 0 <= j < |values| :: keys[j] == Key(curve.X(Walk(curve, values[j]))))
      && (forall m: nat | m < tableSize :: m in values)
    }

    ghost predicate CacheValid()
      reads this
    {
      IsCache(cache, order, tableSize)
    }

    // fromEntries: sorts the baby-step indices by their key.
    constructor FromEntries(curve: Curve, numBits: nat, entries: seq<nat>)
      requires curve.Valid() && numBits <= 32
      requires |entries| == Pow2(numBits) && IsTable(curve, entries)
      ensures Valid() && this.curve == curve && this.numBits == numBits
      ensures cache == map[] && order == []
    {
      hide Pow2, Walk, Key, Curve.X, Prime;
      var n := |entries|;
      var unsorted: seq<nat> := [];
      for i := 0 to n
        invariant |unsorted| == i
        invariant forall j | 0 <= j < i :: unsorted[j] == j
      {
        unsorted := unsorted + [i];
      }
      var sorted := SortIndices(entries, unsorted);
      assert |sorted| == n by {
        assert |multiset(sorted)| == |multiset(unsorted)|;
      }
      var ks: seq<nat> := [];
      for j := 0 to n
        invariant |ks| == j
        invariant forall i | 0 <= i < j :: ks[i] == entries[sorted[i]]
      {
        ks := ks + [entries[sorted[j]]];
      }
      forall m: nat | m < n
        ensures m in sorted
      {
        assert unsorted[m] == m;
        assert m in multiset(unsorted);
        assert m in multiset(sorted);
      }
      this.curve := curve;
      this.numBits := numBits;
      this.tableSize := n;
      this.giantStep := curve.Times(curve.H(), n);
      this.keys := ks;
      this.values := sorted;
      this.cache := map[];
      this.order := [];
    }

    // Index of the first key that is at least target.
    method LowerBound(target: nat) returns (lo: nat)
      requires TableValid()
      ensures lo <= |keys|
      ensures forall j | 0 <= j < lo :: keys[j] < target
      ensures forall j | lo <= j < |keys| :: target <= keys[j]
    {
      hide Curve.Valid, Pow2, Walk, Key, Curve.X;
      lo := 0;
      var hi := |keys|;
      while lo < hi
        invariant lo <= hi <= |keys|
        invariant forall j | 0 <= j < lo :: keys[j] < target
        invariant forall j | hi <= j < |keys| :: target <= keys[j]
      {
        var mid := (lo + hi) / 2;
        if keys[mid] < target {
          lo := mid + 1;
        } else {
          hi := mid;
        }
      }
    }

    // The scan of the run of entries that share the target key.
    method ScanRun(target: nat, point: Point) returns (found: Option<nat>)
      requires TableValid()
      ensures found.Some? ==> found.value < tableSize && IsLog(curve, found.value, point.element)
      ensures found.None? ==>
        forall j | 0 <= j < |keys| && keys[j] == target :: !IsLog(curve, values[j], point.element)
    {
      hide Curve.Valid, Pow2, Walk, Key, Curve.X, IsLog;
      var j := LowerBound(target);
      while j < |keys| && keys[j] == target
        invariant j <= |keys|
        invariant forall i | 0 <= i < j && keys[i] == target :: !IsLog(curve, values[i], point.element)
      {
        var value := values[j];
        TimesH(value);
        if SameElement(curve.Times(curve.H(), value), point) {
          return Some(value);
        }
        j := j + 1;
      }
      return None;
    }

    lemma TimesH(value: nat)
      requires curve.q > 0
      ensures forall p: Point :: SameElement(curve.Times(curve.H(), value), p) <==> IsLog(curve, value, p.element)
    {
    }

    // Cache.set after evicting the oldest key of a full cache; setting a present key keeps
    // its place in the order.
    method Remember(cacheKey: nat, value: nat)
      requires CacheValid() && value < tableSize
      modifies this`cache, this`order
      ensures CacheValid()
      ensures order == OrderAfter(old(order), cacheKey)
      ensures cache == CacheAfter(old(cache), old(order), cacheKey, value)
      ensures cacheKey in cache && cache[cacheKey] == value
      ensures forall k | k != cacheKey ::
        (k in cache <==> k in old(cache) && (|old(order)| >= MAX_CACHE_SIZE ==> k != old(order)[0]))
      ensures forall k | k in cache && k != cacheKey :: k in old(cache) && cache[k] == old(cache)[k]
      ensures var kept := if |old(order)| >= MAX_CACHE_SIZE then old(order)[1..] else old(order);
        order == kept + if cacheKey in kept then [] else [cacheKey]
    {
      CacheStep(cache, order, tableSize, cacheKey, value);
      KeptMembers(order);
      if |order| >= MAX_CACHE_SIZE {
        var oldest := order[0];
        cache := cache - {oldest};
        order := order[1..];
      }
      if cacheKey !in cache {
        order := order + [cacheKey];
      }
      cache := cache[cacheKey := value];
      Evicted(old(cache), old(order), cacheKey, value);
      hide *;
    }

    // lookup: the one baby step of the point's element, whatever the cache holds and whichever
    // truncated keys collide; nothing when there is none.
    method Lookup(point: Point) returns (hit: Option<Hit>)
      requires Valid() && point.torsion < 4
      modifies this`cache, this`order
      ensures Valid()
      ensures hit.Some? ==> hit.value.value < tableSize && IsLog(curve, hit.value.value, point.element)
      ensures hit.None? ==> forall m: nat | m < tableSize :: !IsLog(curve, m, point.element)
      ensures hit.None? || hit.value.cached ==> cache == old(cache) && order == old(order)
      ensures hit.Some? && !hit.value.cached ==>
        var key := Key(curve.X(point));
        cache == CacheAfter(old(cache), old(order), key, hit.value.value) && order == OrderAfter(old(order), key)
    {
      hide Curve.Valid, Pow2, Walk, Key, Curve.X, IsLog, TableValid, CosetX;
      var cacheKey := Key(curve.X(point));
      CurveOrder();
      if cacheKey in cache {
        var cached := cache[cacheKey];
        TimesH(cached);
        if SameElement(curve.Times(curve.H(), cached), point) {
          return Some(Hit(cached, true));
        }
      }
      var xs := CosetX(curve, point);
      var i := 0;
      while i < |xs|
        invariant i <= |xs|
        invariant cache == old(cache) && order == old(order)
        invariant forall c | 0 <= c < i :: NotUnder(Key(xs[c]), point)
      {
        var found := ScanRun(Key(xs[i]), point);
        if found.Some? {
          Remember(cacheKey, found.value);
          return Some(Hit(found.value, false));
        }
        i := i + 1;
      }
      NoStep(point);
      return None;
    }

    // No table entry under the key is a logarithm of the point.
    ghost predicate NotUnder(key: nat, point: Point)
    {
      |keys| == |values| && curve.q > 0
      && forall j | 0 <= j < |keys| && keys[j] == key :: !IsLog(curve, values[j], point.element)
    }

    lemma CurveOrder()
      requires TableValid()
      ensures curve.q > 0 && |keys| == |values|
    {
    }

    // Every baby step is listed under one of the keys of its coset.
    lemma StepListed(point: Point, m: nat)
      requires TableValid() && point.torsion < 4 && m < tableSize && curve.q > 0 && IsLog(curve, m, point.element)
      ensures exists c :: 0 <= c < |CosetX(curve, point)| && !NotUnder(Key(CosetX(curve, point)[c]), point)
    {
      hide Curve.Valid, Pow2, Walk, Key, Curve.X, IsLog, CosetX;
      CosetCovers(curve, point, m);
      assert m in values;
      var c :| 0 <= c < |CosetX(curve, point)| && CosetX(curve, point)[c] == curve.X(Walk(curve, m));
      var j :| 0 <= j < |values| && values[j] == m;
      assert keys[j] == Key(CosetX(curve, point)[c]);
      assert !NotUnder(Key(CosetX(curve, point)[c]), point);
    }

    lemma NoStep(point: Point)
      requires TableValid() && point.torsion < 4
      requires forall c | 0 <= c < |CosetX(curve, point)| :: NotUnder(Key(CosetX(curve, point)[c]), point)
      ensures forall m: nat | m < tableSize :: !IsLog(curve, m, point.element)
    {
      hide Curve.Valid, Pow2, Walk, Key, Curve.X, IsLog, CosetX, NotUnder;
      forall m: nat | m < tableSize
        ensures !IsLog(curve, m, point.element)
      {
        if IsLog(curve, m, point.element) {
          StepListed(point, m);
        }
      }
    }
  }

  // ---------- Giant steps ----------

  // The element a ciphertext hides once the masking part of its handle is removed.
  function Masked(curve: Curve, ciphertext: Element, handle: Element, inverse: nat): Element
    requires curve.q > 0
  {
    M(curve.q, ciphertext - M(curve.q, inverse * handle))
  }

  lemma GiantStep(curve: Curve, target: int, g: nat, t: nat, m: nat)
    requires curve.q > 0
    ensures M(curve.q, M(curve.q, target - g * t * curve.h) - M(curve.q, t * curve.h))
         == M(curve.q, target - (g + 1) * t * curve.h)
    ensures IsLog(curve, m, M(curve.q, target - g * t * curve.h)) <==> IsLog(curve, g * t + m, M(curve.q, target))
  {
    hide M;
    var q, h := curve.q, curve.h;
    var done := g * t * h;
    StepProducts(g, t, h, m);
    SubM(q, M(q, target - done), t * h);
    AddM(q, target - done, -(t * h));
    DifferenceZero(q, m * h, target - done);
    DifferenceZero(q, (g * t + m) * h, target);
    assert m * h - (target - done) == (g * t + m) * h - target;
    assert target - (g + 1) * t * h == target - done - t * h;
  }

  lemma StepProducts(g: nat, t: nat, h: nat, m: nat)
    ensures (g + 1) * t * h == g * t * h + t * h
    ensures (g * t + m) * h == g * t * h + m * h
  {
    assert (g + 1) * t == g * t + t;
    assert (g * t + t) * h == g * t * h + t * h;
  }

  // decryptWithInverse: m exactly when the unmasked element is m * H with m below the square of
  // the table size, and an error when there is no such m, in every state of the cache.
  method DecryptWithInverse(ciphertext: Point, handle: Point, inverse: nat, table: DiscreteLogTable)
    returns (r: Result<nat, LogError>)
    requires table.Valid() && inverse < table.curve.q
    modifies table`cache, table`order
    ensures table.Valid()
    ensures var e := Masked(table.curve, ciphertext.element, handle.element, inverse);
      var bound := table.tableSize * table.tableSize;
      && (forall m: nat | m < bound :: IsLog(table.curve, m, e) <==> r == Ok(m))
      && (r.Ok? ==> r.value < bound)
      && (r.Err? ==> r == Err(DecryptionFailed))
  {
    hide Curve.Valid, IsLog, M, Pow2, Walk, Key;
    var curve, t := table.curve, table.tableSize;
    SizeFacts(table);
    var point := curve.Minus(ciphertext, curve.Times(handle, inverse));
    ghost var e := Masked(curve, ciphertext.element, handle.element, inverse);
    ghost var target := ciphertext.element - M(curve.q, inverse * handle.element);
    assert 0 * t * curve.h == 0;
    assert point.element == e == M(curve.q, target);
    var g := 0;
    while g < t
      invariant 0 <= g <= t && table.Valid() && point.torsion < 4
      invariant point.element == M(curve.q, target - g * t * curve.h)
      invariant forall m: nat | m < g * t :: !IsLog(curve, m, e)
    {
      var hit := table.Lookup(point);
      if hit.Some? {
        var result := g * t + hit.value.value;
        HitIsLog(table, target, g, hit.value.value);
        return Ok(result);
      }
      forall m: nat | m < (g + 1) * t
        ensures !IsLog(curve, m, e)
      {
        if m >= g * t {
          var low := m - g * t;
          assert (g + 1) * t == g * t + t;
          GiantStep(curve, target, g, t, low);
        }
      }
      GiantStep(curve, target, g, t, 0);
      point := curve.Minus(point, table.giantStep);
      g := g + 1;
    }
    return Err(DecryptionFailed);
  }

  // What lookup finds after g giant steps is the only logarithm in range.
  lemma HitIsLog(table: DiscreteLogTable, target: int, g: nat, v: nat)
    requires table.TableValid() && table.curve.q > 0 && g < table.tableSize && v < table.tableSize
    requires IsLog(table.curve, v, M(table.curve.q, target - g * table.tableSize * table.curve.h))
    ensures IsLog(table.curve, g * table.tableSize + v, M(table.curve.q, target))
    ensures g * table.tableSize + v < table.tableSize * table.tableSize
    ensures forall m: nat | m < table.tableSize * table.tableSize && IsLog(table.curve, m, M(table.curve.q, target)) ::
      m == g * table.tableSize + v
  {
    hide *;
    var t := table.tableSize;
    MulBound(t - g, t);
    Square(t, g);
    GiantStep(table.curve, target, g, t, v);
    SizeFacts(table);
    OnlyLog(table.curve, t * t, g * t + v, M(table.curve.q, target));
  }

  // There is one logarithm below a bound within the order.
  lemma OnlyLog(curve: Curve, bound: nat, result: nat, e: Element)
    requires curve.Valid() && bound <= curve.q && result < bound && IsLog(curve, result, e)
    ensures forall m: nat | m < bound && IsLog(curve, m, e) :: m == result
  {
    hide Curve.Valid, IsLog;
    forall m: nat | m < bound && IsLog(curve, m, e)
      ensures m == result
    {
      LogUnique(curve, m, result, e);
    }
  }

  lemma Square(t: nat, g: nat)
    ensures t * t == g * t + (t - g) * t
  {
  }

  lemma SizeFacts(table: DiscreteLogTable)
    requires table.TableValid()
    ensures table.curve.Valid() && table.curve.q > 0
    ensures table.giantStep.element == M(table.curve.q, table.tableSize * table.curve.h)
    ensures table.tableSize * table.tableSize < table.curve.q
  {
    hide Prime, M;
    TableSizeBound(table.numBits);
  }
}
