// Renaming identifiers in a compiled module: the pool is renamed and sorted, and the tables that
// index it are updated.

module Reindex {
  import opened Wrappers
  import opened Uleb
  import opened Bcs

  // An identifier is its ASCII bytes, ordered lexicographically.
  type Identifier = bytes

  type Updates = map<Identifier, Identifier>

  datatype UpdateError = InvalidIdentifier(name: Identifier)

  // ---------- Renaming ----------

  // Each update is used for the first identifier it names only.
  function Rename(pool: seq<Identifier>, updates: Updates): (r: seq<Identifier>)
    ensures |r| == |pool|
  {
    if pool == [] then []
    else if pool[0] in updates then [updates[pool[0]]] + Rename(pool[1..], updates - {pool[0]})
    else [pool[0]] + Rename(pool[1..], updates)
  }

  // The first new name that is not a valid identifier.
  function FirstInvalid(pool: seq<Identifier>, updates: Updates, isValid: Identifier -> bool): Option<Identifier> {
    if pool == [] then None
    else if pool[0] in updates then
      if !isValid(updates[pool[0]]) then Some(updates[pool[0]])
      else FirstInvalid(pool[1..], updates - {pool[0]}, isValid)
    else FirstInvalid(pool[1..], updates, isValid)
  }

  lemma RenameStep(pool: seq<Identifier>, updates: Updates, isValid: Identifier -> bool)
    requires pool != []
    ensures pool[0] in updates ==>
      Rename(pool, updates) == [updates[pool[0]]] + Rename(pool[1..], updates - {pool[0]})
    ensures pool[0] in updates && isValid(updates[pool[0]]) ==>
      FirstInvalid(pool, updates, isValid) == FirstInvalid(pool[1..], updates - {pool[0]}, isValid)
    ensures pool[0] in updates && !isValid(updates[pool[0]]) ==>
      FirstInvalid(pool, updates, isValid) == Some(updates[pool[0]])
    ensures pool[0] !in updates ==> Rename(pool, updates) == [pool[0]] + Rename(pool[1..], updates)
    ensures pool[0] !in updates ==> FirstInvalid(pool, updates, isValid) == FirstInvalid(pool[1..], updates, isValid)
  {
  }

  lemma RenameNothing(pool: seq<Identifier>, updates: Updates, isValid: Identifier -> bool)
    requires pool == []
    ensures Rename(pool, updates) == [] && FirstInvalid(pool, updates, isValid) == None
  {
  }

  // The first occurrence of every identifier is renamed, and only by its own update.
  lemma {:induction false} RenameEach(pool: seq<Identifier>, updates: Updates, i: nat)
    requires i < |pool|
    ensures Rename(pool, updates)[i]
      == if pool[i] in updates && pool[i] !in pool[..i] then updates[pool[i]] else pool[i]
    decreases i
  {
    if i > 0 {
      var rest := if pool[0] in updates then updates - {pool[0]} else updates;
      RenameEach(pool[1..], rest, i - 1);
      assert pool[..i] == [pool[0]] + pool[1..][..i - 1];
    }
  }

  // The update of the i-th identifier is not a valid identifier.
  ghost predicate Rejects(pool: seq<Identifier>, updates: Updates, isValid: Identifier -> bool, i: nat) {
    i < |pool| && pool[i] in updates && !isValid(updates[pool[i]])
  }

  ghost predicate FirstRejected(pool: seq<Identifier>, updates: Updates, isValid: Identifier -> bool, i: nat)
    ensures FirstRejected(pool, updates, isValid, i) ==> i < |pool| && pool[i] in updates
  {
    Rejects(pool, updates, isValid, i) && forall j | 0 <= j < i :: !Rejects(pool, updates, isValid, j)
  }

  // The error names the first invalid update of the pool, and there is one unless all are valid.
  lemma {:induction false} FirstInvalidIs(pool: seq<Identifier>, updates: Updates, isValid: Identifier -> bool)
    ensures FirstInvalid(pool, updates, isValid).None? <==> forall i: nat :: !Rejects(pool, updates, isValid, i)
    ensures FirstInvalid(pool, updates, isValid).Some? ==>
      exists i: nat | FirstRejected(pool, updates, isValid, i) ::
        FirstInvalid(pool, updates, isValid) == Some(updates[pool[i]])
    decreases |pool|
  {
    if pool != [] {
      var rest := if pool[0] in updates then updates - {pool[0]} else updates;
      FirstInvalidIs(pool[1..], rest, isValid);
      if Rejects(pool, updates, isValid, 0) {
        assert FirstInvalid(pool, updates, isValid) == Some(updates[pool[0]]);
      } else {
        assert FirstInvalid(pool, updates, isValid) == FirstInvalid(pool[1..], rest, isValid);
        hide FirstInvalid, Rejects;
        forall i: nat
          ensures Rejects(pool, updates, isValid, i) ==> i > 0 && Rejects(pool[1..], rest, isValid, i - 1)
        {
          if i > 0 {
            RejectsTail(pool, updates, isValid, i - 1);
          }
        }
        if FirstInvalid(pool, updates, isValid).Some? {
          var k: nat :| FirstRejected(pool[1..], rest, isValid, k)
            && FirstInvalid(pool[1..], rest, isValid) == Some(rest[pool[1..][k]]);
          RejectsTail(pool, updates, isValid, k);
          assert FirstRejected(pool, updates, isValid, k + 1);
        }
      }
    }
  }

  lemma RejectsTail(pool: seq<Identifier>, updates: Updates, isValid: Identifier -> bool, i: nat)
    requires pool != [] && !Rejects(pool, updates, isValid, 0)
    ensures var rest := if pool[0] in updates then updates - {pool[0]} else updates;
      Rejects(pool[1..], rest, isValid, i) <==> Rejects(pool, updates, isValid, i + 1)
  {
  }

  // ---------- Sorting ----------

  predicate AtMost(a: Identifier, b: Identifier) {
    !LexLess(b, a)
  }

  function InsertName(sorted: seq<Identifier>, x: Identifier): (r: seq<Identifier>)
    ensures |r| == |sorted| + 1 && multiset(r) == multiset(sorted) + multiset{x}
  {
    var n := |sorted|;
    if n == 0 || AtMost(sorted[n - 1], x) then sorted + [x]
    else
      assert sorted == sorted[..n - 1] + [sorted[n - 1]];
      InsertName(sorted[..n - 1], x) + [sorted[n - 1]]
  }

  // identifiers.sort(), which is stable.
  function SortNames(names: seq<Identifier>): (r: seq<Identifier>)
    ensures |r| == |names| && multiset(r) == multiset(names)
  {
    var n := |names|;
    if n == 0 then []
    else
      assert names == names[..n - 1] + [names[n - 1]];
      InsertName(SortNames(names[..n - 1]), names[n - 1])
  }

  ghost predicate InPool(indexes: seq<nat>, n: nat) {
    forall i | 0 <= i < |indexes| :: indexes[i] < n
  }

  function InsertIndex(names: seq<Identifier>, sorted: seq<nat>, x: nat): (r: seq<nat>)
    requires InPool(sorted, |names|) && x < |names|
    ensures |r| == |sorted| + 1 && InPool(r, |names|) && multiset(r) == multiset(sorted) + multiset{x}
  {
    var n := |sorted|;
    if n == 0 || AtMost(names[sorted[n - 1]], names[x]) then sorted + [x]
    else
      assert sorted == sorted[..n - 1] + [sorted[n - 1]];
      InsertIndex(names, sorted[..n - 1], x) + [sorted[n - 1]]
  }

  // indexes.sort_by_key over 0..n, which is stable too.
  function SortIndexes(names: seq<Identifier>, n: nat): (r: seq<nat>)
    requires n <= |names|
    ensures |r| == n && InPool(r, |names|)
  {
    if n == 0 then [] else InsertIndex(names, SortIndexes(names, n - 1), n - 1)
  }

  function NamesAt(names: seq<Identifier>, indexes: seq<nat>): (r: seq<Identifier>)
    requires InPool(indexes, |names|)
    ensures |r| == |indexes|
  {
    seq(|indexes|, i requires 0 <= i < |indexes| => names[indexes[i]])
  }

  lemma {:induction false} InsertAgrees(names: seq<Identifier>, sorted: seq<nat>, x: nat)
    requires InPool(sorted, |names|) && x < |names|
    ensures NamesAt(names, InsertIndex(names, sorted, x)) == InsertName(NamesAt(names, sorted), names[x])
  {
    hide AtMost;
    var n := |sorted|;
    if n > 0 && !AtMost(names[sorted[n - 1]], names[x]) {
      var front := sorted[..n - 1];
      InsertAgrees(names, front, x);
      NamesSnoc(names, front, sorted[n - 1]);
      assert sorted == front + [sorted[n - 1]];
      NamesSnoc(names, InsertIndex(names, front, x), sorted[n - 1]);
      assert NamesAt(names, sorted)[..n - 1] == NamesAt(names, front);
    } else {
      NamesSnoc(names, sorted, x);
    }
  }

  lemma NamesNone(names: seq<Identifier>)
    ensures NamesAt(names, []) == []
  {
  }

  lemma NamesSnoc(names: seq<Identifier>, indexes: seq<nat>, x: nat)
    requires InPool(indexes, |names|) && x < |names|
    ensures NamesAt(names, indexes + [x]) == NamesAt(names, indexes) + [names[x]]
  {
  }

  // The sorted indexes name the sorted pool.
  lemma {:induction false} SortsAgree(names: seq<Identifier>, n: nat)
    requires n <= |names|
    ensures NamesAt(names, SortIndexes(names, n)) == SortNames(names[..n])
  {
    hide InsertIndex, InsertName, NamesAt;
    if n == 0 {
      NamesNone(names);
    } else {
      SortsAgree(names, n - 1);
      InsertAgrees(names, SortIndexes(names, n - 1), n - 1);
      var front := names[..n];
      assert front[..n - 1] == names[..n - 1] && front[n - 1] == names[n - 1];
    }
  }

  lemma {:induction false} IndexesCover(names: seq<Identifier>, n: nat, a: nat)
    requires a < n <= |names|
    ensures a in SortIndexes(names, n)
  {
    hide InsertIndex;
    var prev, x: nat := SortIndexes(names, n - 1), n - 1;
    if a < n - 1 {
      IndexesCover(names, n - 1, a);
    }
    Joined(SortIndexes(names, n), prev, x, a);
  }

  lemma Joined(all: seq<nat>, prev: seq<nat>, x: nat, a: nat)
    requires multiset(all) == multiset(prev) + multiset{x} && (a in prev || a == x)
    ensures a in all
  {
    assert a in prev ==> a in multiset(prev);
    assert a in multiset(all);
  }

  ghost predicate IsSortedPool(names: seq<Identifier>) {
    forall i, j | 0 <= i < j < |names| :: AtMost(names[i], names[j])
  }

  lemma {:induction false} InsertKeepsOrder(sorted: seq<Identifier>, x: Identifier)
    requires IsSortedPool(sorted)
    ensures IsSortedPool(InsertName(sorted, x))
  {
    hide LexLess;
    var n := |sorted|;
    if n > 0 && !AtMost(sorted[n - 1], x) {
      var front, last := sorted[..n - 1], sorted[n - 1];
      InsertKeepsOrder(front, x);
      var r := InsertName(front, x);
      LexTotal(x, last);
      forall i | 0 <= i < |r|
        ensures AtMost(r[i], last)
      {
        assert r[i] in multiset(r);
        assert r[i] == x || r[i] in front;
      }
    } else if n > 0 {
      forall i | 0 <= i < n
        ensures AtMost(sorted[i], x)
      {
        AtMostTransitive(sorted[i], sorted[n - 1], x);
      }
    }
  }

  lemma AtMostTransitive(a: Identifier, b: Identifier, c: Identifier)
    requires (a == b || AtMost(a, b)) && AtMost(b, c)
    ensures AtMost(a, c)
  {
    hide LexLess;
    LexTotal(a, b);
    LexTotal(b, c);
    if LexLess(c, a) {
      if LexLess(a, b) {
        LexTransitive(c, a, b);
      }
    }
  }

  lemma {:induction false} SortNamesSorted(names: seq<Identifier>)
    ensures IsSortedPool(SortNames(names))
    ensures forall i, j | 0 <= i < j < |names| :: !Precedes(SortNames(names)[j], SortNames(names)[i])
  {
    if names != [] {
      SortNamesSorted(names[..|names| - 1]);
      InsertKeepsOrder(SortNames(names[..|names| - 1]), names[|names| - 1]);
    }
    hide LexLess, Precedes, SortNames;
    forall i, j | 0 <= i < j < |names|
      ensures !Precedes(SortNames(names)[j], SortNames(names)[i])
    {
      LexPointwise(SortNames(names)[j], SortNames(names)[i]);
      assert AtMost(SortNames(names)[i], SortNames(names)[j]);
    }
  }

  // ---------- New indices ----------

  // The position of the first x equal to a.
  function Position(indexes: seq<nat>, a: nat): (p: nat)
    requires a in indexes
    ensures p < |indexes| && indexes[p] == a
  {
    if indexes[0] == a then 0 else 1 + Position(indexes[1..], a)
  }

  // find_pos after renaming to names.
  function FindPos(names: seq<Identifier>, a: nat): (p: nat)
    requires a < |names|
    ensures p < |names|
  {
    IndexesCover(names, |names|, a);
    Position(SortIndexes(names, |names|), a)
  }

  // Every updated index resolves to the renamed form of what it named before, even when renaming
  // makes identifiers equal.
  lemma IndexPreserved(names: seq<Identifier>, a: nat)
    requires a < |names|
    ensures SortNames(names)[FindPos(names, a)] == names[a]
  {
    hide SortNames, SortIndexes, Position;
    IndexesCover(names, |names|, a);
    SortsAgree(names, |names|);
    assert names[..|names|] == names;
    var indexes := SortIndexes(names, |names|);
    assert NamesAt(names, indexes)[Position(indexes, a)] == names[indexes[Position(indexes, a)]];
  }

  // ---------- Indices that are not updated ----------

  predicate Under(x: Identifier, v: Identifier, strict: bool) {
    LexLess(x, v) || (!strict && x == v)
  }

  // How many names are below v, or below or equal to it.
  function CountUnder(names: seq<Identifier>, v: Identifier, strict: bool): nat {
    if names == [] then 0
    else CountUnder(names[..|names| - 1], v, strict) + if Under(names[|names| - 1], v, strict) then 1 else 0
  }

  lemma {:induction false} CountInsert(sorted: seq<Identifier>, x: Identifier, v: Identifier, strict: bool)
    ensures CountUnder(InsertName(sorted, x), v, strict)
      == CountUnder(sorted, v, strict) + if Under(x, v, strict) then 1 else 0
  {
    hide Under, AtMost;
    var n := |sorted|;
    if n > 0 && !AtMost(sorted[n - 1], x) {
      CountInsert(sorted[..n - 1], x, v, strict);
      var r := InsertName(sorted[..n - 1], x);
      assert (r + [sorted[n - 1]])[..|r|] == r;
    } else {
      assert (sorted + [x])[..n] == sorted;
    }
  }

  lemma {:induction false} CountSort(names: seq<Identifier>, v: Identifier, strict: bool)
    ensures CountUnder(SortNames(names), v, strict) == CountUnder(names, v, strict)
  {
    hide Under, InsertName;
    if names != [] {
      CountSort(names[..|names| - 1], v, strict);
      CountInsert(SortNames(names[..|names| - 1]), names[|names| - 1], v, strict);
    }
  }

  lemma {:induction false} CountAll(names: seq<Identifier>, v: Identifier, strict: bool)
    ensures CountUnder(names, v, strict) <= |names|
    ensures (forall i | 0 <= i < |names| :: Under(names[i], v, strict)) ==> CountUnder(names, v, strict) == |names|
  {
    hide Under;
    if names != [] {
      CountAll(names[..|names| - 1], v, strict);
    }
  }

  lemma UnderDown(a: Identifier, b: Identifier, v: Identifier, strict: bool)
    requires AtMost(a, b) && Under(b, v, strict)
    ensures Under(a, v, strict)
  {
    hide LexLess;
    LexTotal(a, b);
    if LexLess(a, b) && LexLess(b, v) {
      LexTransitive(a, b, v);
    }
  }

  // In a sorted pool the names under v come first.
  lemma {:induction false} CountPrefix(names: seq<Identifier>, v: Identifier, strict: bool, a: nat)
    requires IsSortedPool(names) && a < |names|
    ensures a < CountUnder(names, v, strict) <==> Under(names[a], v, strict)
  {
    hide Under, AtMost;
    var n := |names| - 1;
    var front := names[..n];
    if Under(names[n], v, strict) {
      forall i | 0 <= i < |names|
        ensures Under(names[i], v, strict)
      {
        if i < n {
          UnderDown(names[i], names[n], v, strict);
        }
      }
      CountAll(names, v, strict);
    } else {
      assert forall i | 0 <= i < n :: front[i] == names[i];
      CountAll(front, v, strict);
      if a < n {
        CountPrefix(front, v, strict, a);
      }
    }
  }

  // An index left as it is still resolves to the renamed form of what it named before, exactly
  // when it lies in the range that name takes in the sorted pool.
  lemma StaleIndexIff(names: seq<Identifier>, a: nat)
    requires a < |names|
    ensures SortNames(names)[a] == names[a]
      <==> CountUnder(names, names[a], true) <= a < CountUnder(names, names[a], false)
  {
    hide LexLess, IsSortedPool, CountUnder;
    var v, p := names[a], SortNames(names);
    SortNamesSorted(names);
    CountSort(names, v, true);
    CountSort(names, v, false);
    CountPrefix(p, v, true, a);
    CountPrefix(p, v, false, a);
    LexTotal(p[a], v);
  }

  // Renaming the first of two names past the second leaves an index that is not updated at the
  // other name.
  lemma StaleIndexLost(x: Identifier, y: Identifier, z: Identifier)
    requires LexLess(x, y) && LexLess(y, z)
    ensures var names := Rename([x, y], map[x := z]);
      names == [z, y] && SortNames(names) == [y, z] && SortNames(names)[0] != names[0]
  {
    hide LexLess, Rename, SortNames;
    LexTotal(x, y);
    LexTotal(y, z);
    RenameFirst(x, y, z);
    SortTwo(z, y);
  }

  lemma RenameFirst(x: Identifier, y: Identifier, z: Identifier)
    requires x != y
    ensures Rename([x, y], map[x := z]) == [z, y]
  {
    var updates: Updates := map[x := z];
    assert [x, y][1..] == [y] && [y][1..] == [];
    assert updates - {x} == map[];
    assert Rename([y], map[]) == [y];
  }

  lemma SortTwo(z: Identifier, y: Identifier)
    requires LexLess(y, z)
    ensures SortNames([z, y]) == [y, z]
  {
    hide LexLess;
    assert [z, y][..1] == [z] && [z][..0] == [];
    assert SortNames([z]) == [z];
    assert InsertName([], y) == [y];
  }

  // The range that the name at index a takes in the sorted pool.
  predicate InNameRange(names: seq<Identifier>, a: nat)
    requires a < |names|
  {
    CountUnder(names, names[a], true) <= a < CountUnder(names, names[a], false)
  }

  // Indices that are left as they are, into the new pool: each still resolves to the renamed form
  // of what it named before exactly when it lies in that name's range.
  ghost predicate LeftAsIs(names: seq<Identifier>, pool: seq<Identifier>, indices: seq<nat>) {
    && |pool| == |names|
    && forall i | 0 <= i < |indices| ::
        indices[i] < |names| && (pool[indices[i]] == names[indices[i]] <==> InNameRange(names, indices[i]))
  }

  lemma StaleIndices(names: seq<Identifier>, indices: seq<nat>)
    requires forall i | 0 <= i < |indices| :: indices[i] < |names|
    ensures LeftAsIs(names, SortNames(names), indices)
  {
    hide CountUnder, SortNames;
    forall i | 0 <= i < |indices|
      ensures SortNames(names)[indices[i]] == names[indices[i]] <==> InNameRange(names, indices[i])
    {
      StaleIndexIff(names, indices[i]);
    }
  }

  // ---------- The module ----------

  // A struct definition's field names by index, or none for a native struct.
  datatype StructDef = Native | Declared(fields: seq<nat>)

  // The names of an enum's variants and of their fields, by index.
  datatype EnumDef = EnumDef(variants: seq<nat>, fields: seq<nat>)

  function MapFields(names: seq<Identifier>, def: StructDef): StructDef
    requires FieldsInPool(def, |names|)
  {
    match def
    case Native => Native
    case Declared(fields) => Declared(seq(|fields|, i requires 0 <= i < |fields| => FindPos(names, fields[i])))
  }

  predicate FieldsInPool(def: StructDef, n: nat) {
    def.Declared? ==> forall i | 0 <= i < |def.fields| :: def.fields[i] < n
  }

  class CompiledModule {
    const identifiers: array<Identifier>
    const moduleHandles: array<nat>
    const datatypeHandles: array<nat>
    const functionHandles: array<nat>
    const structDefs: array<StructDef>
    const enumDefs: array<EnumDef>
    const friendDecls: array<nat>

    // Deserialization has checked every index, and the tables are separate.
    ghost predicate Valid()
      reads identifiers, moduleHandles, datatypeHandles, functionHandles, structDefs, enumDefs, friendDecls
    {
      && identifiers.Length <= 0xFFFF
      && moduleHandles != datatypeHandles && moduleHandles != functionHandles && datatypeHandles != functionHandles
      && friendDecls != moduleHandles && friendDecls != datatypeHandles && friendDecls != functionHandles
      && InPool(friendDecls[..], identifiers.Length)
      && (forall i | 0 <= i < enumDefs.Length ::
          InPool(enumDefs[i].variants, identifiers.Length) && InPool(enumDefs[i].fields, identifiers.Length))
      && (forall i | 0 <= i < moduleHandles.Length :: moduleHandles[i] < identifiers.Length)
      && (forall i | 0 <= i < datatypeHandles.Length :: datatypeHandles[i] < identifiers.Length)
      && (forall i | 0 <= i < functionHandles.Length :: functionHandles[i] < identifiers.Length)
      && (forall i | 0 <= i < structDefs.Length :: FieldsInPool(structDefs[i], identifiers.Length))
    }

    constructor (identifiers: array<Identifier>, moduleHandles: array<nat>, datatypeHandles: array<nat>,
                 functionHandles: array<nat>, structDefs: array<StructDef>, enumDefs: array<EnumDef>,
                 friendDecls: array<nat>)
      ensures this.identifiers == identifiers && this.moduleHandles == moduleHandles
      ensures this.datatypeHandles == datatypeHandles && this.functionHandles == functionHandles
      ensures this.structDefs == structDefs && this.enumDefs == enumDefs && this.friendDecls == friendDecls
    {
      this.identifiers, this.moduleHandles, this.datatypeHandles := identifiers, moduleHandles, datatypeHandles;
      this.functionHandles, this.structDefs := functionHandles, structDefs;
      this.enumDefs, this.friendDecls := enumDefs, friendDecls;
    }

    // The renaming loop; an invalid new name ends it with an error.
    method RenameIdentifiers(updates: Updates, isValid: Identifier -> bool) returns (r: Outcome<UpdateError>)
      modifies identifiers
      ensures match FirstInvalid(old(identifiers[..]), updates, isValid)
        case Some(name) => r == Fail(InvalidIdentifier(name))
        case None => r == Pass && identifiers[..] == Rename(old(identifiers[..]), updates)
    {
      hide Rename, FirstInvalid;
      ghost var pool := identifiers[..];
      var remaining := updates;
      assert pool[0..] == pool;
      for i := 0 to identifiers.Length
        invariant identifiers[i..] == pool[i..]
        invariant Rename(pool, updates) == identifiers[..i] + Rename(pool[i..], remaining)
        invariant FirstInvalid(pool, updates, isValid) == FirstInvalid(pool[i..], remaining, isValid)
      {
        var name := identifiers[i];
        ghost var rest, before := pool[i..], identifiers[..i];
        assert rest[0] == identifiers[i..][0] == name && rest[1..] == pool[i + 1..];
        RenameStep(rest, remaining, isValid);
        if name in remaining {
          var next := remaining[name];
          remaining := remaining - {name};
          if !isValid(next) {
            return Fail(InvalidIdentifier(next));
          }
          identifiers[i] := next;
        }
        assert identifiers[..i + 1] == before + [identifiers[i]];
        assert identifiers[i + 1..] == identifiers[i..][1..];
      }
      RenameNothing(pool[identifiers.Length..], remaining, isValid);
      assert identifiers[..identifiers.Length] == identifiers[..];
      return Pass;
    }

    // The re-indexing loop of one handle table.
    method UpdateHandles(names: seq<Identifier>, handles: array<nat>)
      requires forall i | 0 <= i < handles.Length :: handles[i] < |names|
      modifies handles
      ensures forall i | 0 <= i < handles.Length ::
        old(handles[i]) < |names| && handles[i] == FindPos(names, old(handles[i]))
    {
      hide FindPos;
      for i := 0 to handles.Length
        invariant forall k | 0 <= k < handles.Length :: old(handles[k]) < |names|
        invariant forall k | 0 <= k < i :: handles[k] == FindPos(names, old(handles[k]))
        invariant forall k | i <= k < handles.Length :: handles[k] == old(handles[k])
      {
        handles[i] := FindPos(names, handles[i]);
      }
    }

    method UpdateStructs(names: seq<Identifier>)
      requires forall i | 0 <= i < structDefs.Length :: FieldsInPool(structDefs[i], |names|)
      modifies structDefs
      ensures forall i | 0 <= i < structDefs.Length ::
        FieldsInPool(old(structDefs[i]), |names|) && structDefs[i] == MapFields(names, old(structDefs[i]))
    {
      hide MapFields, FieldsInPool;
      for i := 0 to structDefs.Length
        invariant forall k | 0 <= k < structDefs.Length :: FieldsInPool(old(structDefs[k]), |names|)
        invariant forall k | 0 <= k < i :: structDefs[k] == MapFields(names, old(structDefs[k]))
        invariant forall k | i <= k < structDefs.Length :: structDefs[k] == old(structDefs[k])
      {
        structDefs[i] := MapFields(names, structDefs[i]);
      }
    }

    // identifiers.sort().
    method SortIdentifiers()
      modifies identifiers
      ensures identifiers[..] == SortNames(old(identifiers[..]))
    {
      hide SortNames;
      var sorted := SortNames(identifiers[..]);
      forall i | 0 <= i < identifiers.Length {
        identifiers[i] := sorted[i];
      }
      assert identifiers[..] == sorted;
    }

    // update_identifiers: the enum definitions and the friend declarations are not touched.
    method UpdateIdentifiers(updates: Updates, isValid: Identifier -> bool) returns (r: Outcome<UpdateError>)
      requires Valid()
      modifies identifiers, moduleHandles, datatypeHandles, functionHandles, structDefs
      ensures r.Pass? <==> forall i: nat :: !Rejects(old(identifiers[..]), updates, isValid, i)
      ensures r.Fail? ==>
        exists i: nat | FirstRejected(old(identifiers[..]), updates, isValid, i) ::
          r.error == InvalidIdentifier(updates[old(identifiers[..])[i]])
      ensures r.Pass? ==> identifiers[..] == SortNames(Rename(old(identifiers[..]), updates))
      ensures r.Pass? ==> Reindexed(Rename(old(identifiers[..]), updates), old(moduleHandles[..]), moduleHandles[..])
      ensures r.Pass? ==>
        Reindexed(Rename(old(identifiers[..]), updates), old(datatypeHandles[..]), datatypeHandles[..])
      ensures r.Pass? ==>
        Reindexed(Rename(old(identifiers[..]), updates), old(functionHandles[..]), functionHandles[..])
      ensures r.Pass? ==> ReindexedStructs(Rename(old(identifiers[..]), updates), old(structDefs[..]), structDefs[..])
      ensures enumDefs[..] == old(enumDefs[..]) && friendDecls[..] == old(friendDecls[..])
      ensures r.Pass? ==> LeftAsIs(Rename(old(identifiers[..]), updates), identifiers[..], friendDecls[..])
      ensures r.Pass? ==> forall i | 0 <= i < enumDefs.Length ::
        && LeftAsIs(Rename(old(identifiers[..]), updates), identifiers[..], enumDefs[i].variants)
        && LeftAsIs(Rename(old(identifiers[..]), updates), identifiers[..], enumDefs[i].fields)
    {
      hide Rename, FirstInvalid, SortNames, FindPos, MapFields, FieldsInPool, LeftAsIs, Rejects, FirstRejected;
      FirstInvalidIs(identifiers[..], updates, isValid);
      :- RenameIdentifiers(updates, isValid);
      var names := identifiers[..];
      SortIdentifiers();
      UpdateHandles(names, moduleHandles);
      UpdateHandles(names, datatypeHandles);
      UpdateHandles(names, functionHandles);
      UpdateStructs(names);
      StaleIndices(names, friendDecls[..]);
      forall i | 0 <= i < enumDefs.Length
        ensures LeftAsIs(names, identifiers[..], enumDefs[i].variants)
        ensures LeftAsIs(names, identifiers[..], enumDefs[i].fields)
      {
        StaleIndices(names, enumDefs[i].variants);
        StaleIndices(names, enumDefs[i].fields);
      }
      return Pass;
    }
  }

  // Every index of a table is replaced by the new position of its identifier.
  ghost predicate Reindexed(names: seq<Identifier>, before: seq<nat>, after: seq<nat>) {
    && |after| == |before|
    && forall i | 0 <= i < |before| :: before[i] < |names| && after[i] == FindPos(names, before[i])
  }

  ghost predicate ReindexedStructs(names: seq<Identifier>, before: seq<StructDef>, after: seq<StructDef>) {
    && |after| == |before|
    && forall i | 0 <= i < |before| :: FieldsInPool(before[i], |names|) && after[i] == MapFields(names, before[i])
  }

  // So every entry of a re-indexed table names what it named, renamed; and the pool is a sorted
  // permutation of the renamed pool.
  lemma NamesPreserved(pool: seq<Identifier>, updates: Updates, before: seq<nat>, after: seq<nat>, i: nat)
    requires Reindexed(Rename(pool, updates), before, after) && i < |before|
    ensures after[i] < |pool| && before[i] < |pool|
    ensures SortNames(Rename(pool, updates))[after[i]] == Rename(pool, updates)[before[i]]
    ensures IsSortedPool(SortNames(Rename(pool, updates)))
    ensures multiset(SortNames(Rename(pool, updates))) == multiset(Rename(pool, updates))
  {
    hide Rename, SortNames, FindPos, IsSortedPool;
    IndexPreserved(Rename(pool, updates), before[i]);
    SortNamesSorted(Rename(pool, updates));
  }

  lemma FieldNamesPreserved(pool: seq<Identifier>, updates: Updates, before: seq<StructDef>, after: seq<StructDef>,
                            i: nat, k: nat)
    requires ReindexedStructs(Rename(pool, updates), before, after)
    requires i < |before| && before[i].Declared? && k < |before[i].fields|
    ensures after[i].Declared? && |after[i].fields| == |before[i].fields|
    ensures before[i].fields[k] < |pool| && after[i].fields[k] < |pool|
    ensures SortNames(Rename(pool, updates))[after[i].fields[k]] == Rename(pool, updates)[before[i].fields[k]]
  {
    hide Rename, SortNames, FindPos;
    IndexPreserved(Rename(pool, updates), before[i].fields[k]);
  }
}
