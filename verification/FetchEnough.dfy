// When a fetch that returns leaves enough shares to decrypt.

module FetchEnough {
  import opened Wrappers
  import opened Bytes
  import opened Modular
  import opened Ibe
  import opened Envelope
  import opened FetchKeys

  // A call of fetchKeys that starts from the cache `before` and returns with `cache`: at once when
  // the cache has enough, else after every request has settled with the threshold reached.
  ghost predicate Returns(cfg: Config, before: KeyStore, fullIds: seq<bytes>, threshold: int, events: seq<Event>,
                          cache: KeyStore)
    requires cfg.Valid()
  {
    && AllVerified(cfg, before)
    && 1 <= threshold <= cfg.TotalWeight(ObjectIds(cfg.servers))
    && var start := Start(cfg, before, fullIds);
      if start.completedWeight >= threshold then events == [] && cache == before
      else
        var end := Run(cfg, before, fullIds, threshold, start, events);
        end.Some? && end.value.0 == cache && end.value.1.pending == [] && end.value.1.completedWeight >= threshold
  }

  // Whatever the cache, the requested IDs and the run, a return leaves decryption enough shares.
  ghost predicate Suffices(cfg: Config, obj: EncryptedObject, publicKeys: Option<seq<G2>>, checkLE: bool)
    requires cfg.Valid()
  {
    forall before: KeyStore, fullIds: seq<bytes>, events: seq<Event>, cache: KeyStore |
      obj.packageId + obj.id in fullIds && Returns(cfg, before, fullIds, obj.threshold, events, cache) ::
      Decrypt(cfg.suite, obj, cache, publicKeys, checkLE) != Err(NotEnoughShares)
  }

  // Configured servers whose weight reaches the threshold although the object has fewer shares for
  // them.
  ghost predicate Overweight(cfg: Config, services: seq<bytes>, threshold: int, chosen: seq<bytes>) {
    && Distinct(chosen)
    && (forall id | id in chosen :: id in cfg.weights)
    && cfg.TotalWeight(chosen) >= threshold
    && Occurrences(chosen, services) < threshold
  }

  // ---------- Enough, unless some servers are overweight ----------

  // The servers a returned call has counted.
  ghost predicate Counted(cfg: Config, fullIds: seq<bytes>, threshold: int, cache: KeyStore, call: Call)
    requires cfg.suite.order > 0
  {
    && Accounted(cfg, call)
    && (forall id | id in call.counted :: HasAll(cache, fullIds, id))
    && call.completedWeight >= threshold
  }

  lemma ReturnCounts(cfg: Config, before: KeyStore, fullIds: seq<bytes>, threshold: int, events: seq<Event>,
                     cache: KeyStore) returns (call: Call)
    requires cfg.Valid() && cfg.suite.order > 0 && Returns(cfg, before, fullIds, threshold, events, cache)
    ensures Counted(cfg, fullIds, threshold, cache, call)
  {
    hide AllVerified, Accounted, HasAll, Run, Cached, Config.TotalWeight, Config.Valid;
    call := Start(cfg, before, fullIds);
    if call.completedWeight >= threshold {
      StartAccounted(cfg, before, fullIds);
    } else {
      StartInv(cfg, before, fullIds, threshold);
      RunInv(cfg, before, fullIds, threshold, call, events);
      call := Run(cfg, before, fullIds, threshold, call, events).value.1;
    }
  }

  lemma CountedAreConfigured(cfg: Config, call: Call)
    requires cfg.Valid() && Accounted(cfg, call)
    ensures forall id | id in call.counted :: id in cfg.weights
  {
    forall id | id in call.counted
      ensures id in cfg.weights
    {
      assert id in multiset(call.counted);
      assert id in Listed(call);
      assert id in multiset(ObjectIds(cfg.servers));
    }
  }

  // The counted servers' shares are in the keystore.
  lemma CountedShares(obj: EncryptedObject, cache: KeyStore, fullIds: seq<bytes>, counted: seq<bytes>)
    requires Distinct(counted) && obj.packageId + obj.id in fullIds
    requires forall id | id in counted :: HasAll(cache, fullIds, id)
    ensures |InKeystore(obj.services, cache, obj.packageId + obj.id, |obj.services|)|
      >= Occurrences(counted, ServiceIds(obj.services))
  {
    var fullId, n := obj.packageId + obj.id, |obj.services|;
    var k :| 0 <= k < |fullIds| && fullIds[k] == fullId;
    forall id | id in counted
      ensures (fullId, id) in cache
    {
      assert HasAll(cache, fullIds, id);
    }
    hide HasAll, Distinct, InKeystore, Occurrences;
    KeystoreCovers(obj.services, cache, fullId, counted, n);
    assert ServiceIds(obj.services)[..n] == ServiceIds(obj.services);
  }

  // Once the threshold is counted, at whatever moment, decryption has enough shares.
  lemma CountedEnough(cfg: Config, obj: EncryptedObject, publicKeys: Option<seq<G2>>, checkLE: bool,
                      fullIds: seq<bytes>, cache: KeyStore, call: Call)
    requires cfg.Valid() && cfg.suite.order > 0 && obj.packageId + obj.id in fullIds
    requires Counted(cfg, fullIds, obj.threshold, cache, call)
    requires forall chosen :: !Overweight(cfg, ServiceIds(obj.services), obj.threshold, chosen)
    ensures Decrypt(cfg.suite, obj, cache, publicKeys, checkLE) != Err(NotEnoughShares)
  {
    hide Accounted, HasAll, Distinct, InKeystore, Occurrences, Config.TotalWeight, Decrypt, Config.Valid;
    CountedDistinct(cfg, call);
    CountedAreConfigured(cfg, call);
    CompletedWeightIs(cfg, call);
    assert !Overweight(cfg, ServiceIds(obj.services), obj.threshold, call.counted);
    CountedShares(obj, cache, fullIds, call.counted);
    NotEnoughIff(cfg.suite, obj, cache, publicKeys, checkLE);
  }

  lemma ValidOrder(cfg: Config)
    requires cfg.Valid()
    ensures cfg.suite.order > 0
  {
  }

  // ---------- Overweight servers leave too few shares ----------

  // The key a server derives for a full ID.
  function UserKey(suite: Suite, fullId: bytes, publicKey: G2): G1
    requires suite.order > 0
  {
    suite.Multiply(suite.hashToG1(fullId), publicKey)
  }

  // A server has a key that the client accepts.
  lemma UserKeyVerifies(suite: Suite, fullId: bytes, publicKey: G2)
    requires suite.order > 0
    ensures VerifyUserSecretKey(suite, UserKey(suite, fullId, publicKey), fullId, publicKey)
  {
    hide M;
    assert M(suite.order, suite.hashToG1(fullId) * publicKey) * GENERATOR == UserKey(suite, fullId, publicKey);
    Idempotent(suite.order, suite.hashToG1(fullId) * publicKey);
  }

  // The cache with the keys of the chosen servers and nothing else.
  ghost function CacheOf(cfg: Config, fullId: bytes, chosen: seq<bytes>): (cache: KeyStore)
    requires cfg.Valid()
  {
    map j | 0 <= j < |cfg.servers| && cfg.servers[j].objectId in chosen ::
      (fullId, cfg.servers[j].objectId) := UserKey(cfg.suite, fullId, cfg.servers[j].publicKey)
  }

  lemma CacheOfKeys(cfg: Config, fullId: bytes, chosen: seq<bytes>, id: bytes)
    requires cfg.Valid() && forall id | id in chosen :: id in cfg.weights
    ensures (fullId, id) in CacheOf(cfg, fullId, chosen) <==> id in chosen
  {
    if id in chosen {
      assert id in ObjectIds(cfg.servers);
      var j :| 0 <= j < |cfg.servers| && ObjectIds(cfg.servers)[j] == id;
      assert cfg.servers[j].objectId == id;
    }
  }

  lemma CacheOfVerified(cfg: Config, fullId: bytes, chosen: seq<bytes>)
    requires cfg.Valid()
    ensures AllVerified(cfg, CacheOf(cfg, fullId, chosen))
  {
    hide VerifyUserSecretKey, UserKey;
    var cache := CacheOf(cfg, fullId, chosen);
    forall k | k in cache
      ensures exists j | 0 <= j < |cfg.servers| && cfg.servers[j].objectId == k.1 ::
        VerifyUserSecretKey(cfg.suite, cache[k], k.0, cfg.servers[j].publicKey)
    {
      var j :| 0 <= j < |cfg.servers| && cfg.servers[j].objectId in chosen && k == (fullId, cfg.servers[j].objectId);
      UserKeyVerifies(cfg.suite, fullId, cfg.servers[j].publicKey);
      assert cache[k] == UserKey(cfg.suite, fullId, cfg.servers[j].publicKey);
    }
  }

  lemma {:induction false} CachedMembers(cfg: Config, cache: KeyStore, fullIds: seq<bytes>, n: nat, id: bytes)
    requires n <= |cfg.servers|
    ensures id in Cached(cfg, cache, fullIds, n, true)
      <==> id in ObjectIds(cfg.servers)[..n] && HasAll(cache, fullIds, id)
  {
    if n > 0 {
      CachedMembers(cfg, cache, fullIds, n - 1, id);
      CachedStep(cfg, cache, fullIds, n);
      hide *;
      var front, x := ObjectIds(cfg.servers)[..n - 1], cfg.servers[n - 1].objectId;
      assert id in front + [x] <==> id in front || id == x;
    }
  }

  // Lists without repetition that have the same members are permutations of one another.
  lemma SameMultiset(a: seq<bytes>, b: seq<bytes>)
    requires Distinct(a) && Distinct(b) && forall x :: x in a <==> x in b
    ensures multiset(a) == multiset(b)
  {
    forall x
      ensures multiset(a)[x] == multiset(b)[x]
    {
      assert x in a <==> x in multiset(a);
      assert x in b <==> x in multiset(b);
    }
  }

  lemma CancelOne(a: multiset<bytes>, b: multiset<bytes>, x: bytes)
    requires a + multiset{x} <= b + multiset{x}
    ensures a <= b
  {
    forall k
      ensures a[k] <= b[k]
    {
      assert (a + multiset{x})[k] <= (b + multiset{x})[k];
    }
  }

  lemma LastMultiset(cfg: Config, a: seq<bytes>)
    requires a != []
    ensures multiset(a) == multiset(a[..|a| - 1]) + multiset{a[|a| - 1]}
    ensures cfg.TotalWeight(a) == cfg.TotalWeight(a[..|a| - 1]) + cfg.Weight(a[|a| - 1])
  {
    assert a == a[..|a| - 1] + [a[|a| - 1]];
  }

  lemma {:induction false} PermutedWeight(cfg: Config, a: seq<bytes>, b: seq<bytes>)
    requires multiset(a) == multiset(b)
    ensures cfg.TotalWeight(a) == cfg.TotalWeight(b)
    decreases |a|
  {
    if a == [] {
      assert |b| == |multiset(b)| == 0;
    } else {
      var last := |a| - 1;
      assert a[last] in multiset(a);
      assert a[last] in multiset(b);
      var i :| 0 <= i < |b| && b[i] == a[last];
      WeightWithout(cfg, b, i);
      hide Config.TotalWeight, Without;
      LastMultiset(cfg, a);
      CancelOne(multiset(a[..last]), multiset(Without(b, i)), a[last]);
      CancelOne(multiset(Without(b, i)), multiset(a[..last]), a[last]);
      PermutedWeight(cfg, a[..last], Without(b, i));
    }
  }

  lemma {:induction false} KeystoreExact(services: seq<Service>, cache: KeyStore, fullId: bytes, ids: seq<bytes>,
                                         n: nat)
    requires n <= |services| && Distinct(ids) && forall id :: id in ids <==> (fullId, id) in cache
    ensures |InKeystore(services, cache, fullId, n)| == Occurrences(ids, ServiceIds(services)[..n])
  {
    var all := ServiceIds(services);
    if n == 0 {
      assert all[..0] == [];
      OccurrencesEmpty(ids);
    } else {
      var x := services[n - 1].objectId;
      assert all[..n] == all[..n - 1] + [x];
      hide ServiceIds, Occurrences;
      KeystoreExact(services, cache, fullId, ids, n - 1);
      OccurrencesSnoc(ids, all[..n - 1], x);
      MemberCount(ids, x);
    }
  }

  lemma MemberCount(ids: seq<bytes>, x: bytes)
    requires Distinct(ids)
    ensures multiset(ids)[x] == if x in ids then 1 else 0
  {
    assert x in ids <==> x in multiset(ids);
  }

  // The call that finds the keys of the chosen servers in its cache counts their weight.
  lemma StartCounts(cfg: Config, fullId: bytes, chosen: seq<bytes>)
    requires cfg.Valid() && Distinct(chosen) && forall id | id in chosen :: id in cfg.weights
    ensures var start := Start(cfg, CacheOf(cfg, fullId, chosen), [fullId]);
      start.completedWeight == cfg.TotalWeight(chosen) <= cfg.TotalWeight(ObjectIds(cfg.servers))
  {
    var cache := CacheOf(cfg, fullId, chosen);
    var start := Start(cfg, cache, [fullId]);
    hide CacheOf, Cached, HasAll, Config.TotalWeight, Distinct;
    forall id
      ensures id in start.counted <==> id in chosen
    {
      ChosenCached(cfg, fullId, chosen, id);
    }
    StartAccounted(cfg, cache, [fullId]);
    CountedDistinct(cfg, start);
    hide ObjectIds, Config.Valid;
    SameMultiset(start.counted, chosen);
    PermutedWeight(cfg, start.counted, chosen);
    StartReachable(cfg, cache, [fullId]);
    WeightNonNegative(cfg, start.pending);
  }

  lemma ChosenCached(cfg: Config, fullId: bytes, chosen: seq<bytes>, id: bytes)
    requires cfg.Valid() && forall id | id in chosen :: id in cfg.weights
    ensures id in Cached(cfg, CacheOf(cfg, fullId, chosen), [fullId], |cfg.servers|, true) <==> id in chosen
  {
    var cache, ids := CacheOf(cfg, fullId, chosen), ObjectIds(cfg.servers);
    CachedMembers(cfg, cache, [fullId], |cfg.servers|, id);
    assert ids[..|cfg.servers|] == ids;
    assert id in chosen ==> id in ids;
    hide CacheOf, Cached, HasAll, ObjectIds, Config.Valid;
    OneId(cache, fullId, id);
    CacheOfKeys(cfg, fullId, chosen, id);
  }

  lemma OverweightFails(cfg: Config, obj: EncryptedObject, publicKeys: Option<seq<G2>>, checkLE: bool,
                        chosen: seq<bytes>)
    requires cfg.Valid() && |obj.packageId| == ADDRESS_LENGTH
    requires Overweight(cfg, ServiceIds(obj.services), obj.threshold, chosen)
    ensures var fullId := obj.packageId + obj.id;
      var cache := CacheOf(cfg, fullId, chosen);
      && Returns(cfg, cache, [fullId], obj.threshold, [], cache)
      && Decrypt(cfg.suite, obj, cache, publicKeys, checkLE) == Err(NotEnoughShares)
  {
    var fullId, n := obj.packageId + obj.id, |obj.services|;
    var cache := CacheOf(cfg, fullId, chosen);
    hide CacheOf, Cached, AllVerified, InKeystore, Occurrences, Config.TotalWeight, Config.Valid, Distinct, Decrypt,
      Start, ObjectIds;
    StartCounts(cfg, fullId, chosen);
    CacheOfVerified(cfg, fullId, chosen);
    assert Returns(cfg, cache, [fullId], obj.threshold, [], cache);
    forall id
      ensures id in chosen <==> (fullId, id) in cache
    {
      CacheOfKeys(cfg, fullId, chosen, id);
    }
    KeystoreExact(obj.services, cache, fullId, chosen, n);
    assert ServiceIds(obj.services)[..n] == ServiceIds(obj.services);
    ValidOrder(cfg);
    NotEnoughIff(cfg.suite, obj, cache, publicKeys, checkLE);
  }

  // ---------- The exact condition ----------

  // Every fetch that returns leaves enough shares, exactly when no choice of configured servers
  // reaches the threshold in weight with fewer shares in the object. (With a malformed package ID
  // decryption fails for another reason.)
  lemma SufficesIff(cfg: Config, obj: EncryptedObject, publicKeys: Option<seq<G2>>, checkLE: bool)
    requires cfg.Valid()
    ensures Suffices(cfg, obj, publicKeys, checkLE)
      <==> |obj.packageId| != ADDRESS_LENGTH
           || forall chosen :: !Overweight(cfg, ServiceIds(obj.services), obj.threshold, chosen)
  {
    hide Returns, Decrypt, Overweight, Config.Valid, Counted;
    var services, fullId := ServiceIds(obj.services), obj.packageId + obj.id;
    ValidOrder(cfg);
    if |obj.packageId| != ADDRESS_LENGTH {
      forall cache: KeyStore
        ensures Decrypt(cfg.suite, obj, cache, publicKeys, checkLE) != Err(NotEnoughShares)
      {
        NotEnoughIff(cfg.suite, obj, cache, publicKeys, checkLE);
      }
    } else if chosen :| Overweight(cfg, services, obj.threshold, chosen) {
      OverweightFails(cfg, obj, publicKeys, checkLE, chosen);
      assert fullId in [fullId];
    } else {
      forall before: KeyStore, fullIds: seq<bytes>, events: seq<Event>, cache: KeyStore |
        fullId in fullIds && Returns(cfg, before, fullIds, obj.threshold, events, cache)
        ensures Decrypt(cfg.suite, obj, cache, publicKeys, checkLE) != Err(NotEnoughShares)
      {
        var call := ReturnCounts(cfg, before, fullIds, obj.threshold, events, cache);
        CountedEnough(cfg, obj, publicKeys, checkLE, fullIds, cache, call);
      }
    }
  }

  // ---------- For an object whose services are accepted ----------

  // The servers that occur in the object and have weight, and those that do not occur.
  function Present(cfg: Config, services: seq<bytes>, ids: seq<bytes>): (r: seq<bytes>)
    ensures forall id | id in r :: id in ids && id in services && cfg.Weight(id) > 0
  {
    if ids == [] then []
    else
      var last := ids[|ids| - 1];
      Present(cfg, services, ids[..|ids| - 1]) + if last in services && cfg.Weight(last) > 0 then [last] else []
  }

  function Absent(services: seq<bytes>, ids: seq<bytes>): (r: seq<bytes>)
    ensures forall id :: id in r <==> id in ids && id !in services
  {
    if ids == [] then []
    else
      var last := ids[|ids| - 1];
      Absent(services, ids[..|ids| - 1]) + if last !in services then [last] else []
  }

  // The weight of the configured servers that the object does not name.
  function AbsentWeight(cfg: Config, services: seq<bytes>): nat {
    cfg.TotalWeight(Absent(services, ObjectIds(cfg.servers)))
  }

  lemma {:induction false} Parted(cfg: Config, services: seq<bytes>, ids: seq<bytes>)
    ensures cfg.TotalWeight(ids)
         == cfg.TotalWeight(Present(cfg, services, ids)) + cfg.TotalWeight(Absent(services, ids))
    ensures Occurrences(Present(cfg, services, ids), services) <= Occurrences(ids, services)
  {
    if ids != [] {
      var front, last := ids[..|ids| - 1], ids[|ids| - 1];
      Parted(cfg, services, front);
      var p, a := Present(cfg, services, front), Absent(services, front);
      PartedLast(cfg, services, ids);
      hide *;
      WeightSnoc(cfg, p, last);
      WeightSnoc(cfg, a, last);
      WeightSnoc(cfg, front, last);
      SnocOccurrences(p, services, last);
      SnocOccurrences(front, services, last);
      NotCounted(cfg, services, last);
    }
  }

  lemma NotCounted(cfg: Config, services: seq<bytes>, id: bytes)
    ensures cfg.Weight(id) >= 0
    ensures id !in services ==> multiset(services)[id] == 0
  {
    assert id in services <==> id in multiset(services);
  }

  lemma PartedLast(cfg: Config, services: seq<bytes>, ids: seq<bytes>)
    requires ids != []
    ensures var front, last := ids[..|ids| - 1], ids[|ids| - 1];
      var p, a := Present(cfg, services, front), Absent(services, front);
      && ids == front + [last]
      && Present(cfg, services, ids) == (if last in services && cfg.Weight(last) > 0 then p + [last] else p)
      && Absent(services, ids) == (if last !in services then a + [last] else a)
  {
  }

  lemma {:induction false} PartedMembers(cfg: Config, services: seq<bytes>, ids: seq<bytes>)
    ensures multiset(Present(cfg, services, ids)) <= multiset(ids)
    ensures multiset(Absent(services, ids)) <= multiset(ids)
  {
    if ids != [] {
      PartedMembers(cfg, services, ids[..|ids| - 1]);
      LastMultiset(cfg, ids);
    }
  }

  lemma SnocOccurrences(ids: seq<bytes>, services: seq<bytes>, id: bytes)
    ensures Occurrences(ids + [id], services) == Occurrences(ids, services) + multiset(services)[id]
  {
    assert (ids + [id])[..|ids|] == ids;
  }

  lemma {:induction false} ConcatOccurrences(a: seq<bytes>, b: seq<bytes>, services: seq<bytes>)
    ensures Occurrences(a + b, services) == Occurrences(a, services) + Occurrences(b, services)
  {
    if b == [] {
      assert a + b == a;
    } else {
      ConcatOccurrences(a, b[..|b| - 1], services);
      assert (a + b)[..|a + b| - 1] == a + b[..|b| - 1];
    }
  }

  lemma {:induction false} AbsentOccurrences(ids: seq<bytes>, services: seq<bytes>)
    requires forall id | id in ids :: id !in services
    ensures Occurrences(ids, services) == 0
  {
    if ids != [] {
      AbsentOccurrences(ids[..|ids| - 1], services);
      var last := ids[|ids| - 1];
      assert last in ids;
      assert last in services <==> last in multiset(services);
    }
  }

  // Servers with weight that occur have as many shares as they weigh.
  lemma {:induction false} PresentOccurrences(cfg: Config, ids: seq<bytes>, services: seq<bytes>, threshold: int)
    requires ServicesAccepted(cfg, services, threshold)
    requires forall id | id in ids :: id in services && cfg.Weight(id) > 0
    ensures Occurrences(ids, services) == cfg.TotalWeight(ids)
  {
    if ids != [] {
      var last := ids[|ids| - 1];
      PresentOccurrences(cfg, ids[..|ids| - 1], services, threshold);
      assert last in ids;
      var i :| 0 <= i < |services| && services[i] == last;
    }
  }

  lemma {:induction false} SubsetWeight(cfg: Config, a: seq<bytes>, b: seq<bytes>)
    requires multiset(a) <= multiset(b)
    ensures cfg.TotalWeight(a) <= cfg.TotalWeight(b)
    decreases |a|
  {
    if a == [] {
      WeightNonNegative(cfg, b);
    } else {
      var last := |a| - 1;
      assert a[last] in multiset(a);
      assert a[last] in multiset(b);
      var i :| 0 <= i < |b| && b[i] == a[last];
      WeightWithout(cfg, b, i);
      hide Config.TotalWeight, Without;
      LastMultiset(cfg, a);
      CancelOne(multiset(a[..last]), multiset(Without(b, i)), a[last]);
      SubsetWeight(cfg, a[..last], Without(b, i));
    }
  }

  // A choice of weighted servers in the object that misses the threshold, but not together with
  // the absent servers.
  ghost predicate Bridged(cfg: Config, services: seq<bytes>, threshold: int, present: seq<bytes>) {
    && Distinct(present)
    && (forall id | id in present :: id in services && cfg.Weight(id) > 0)
    && cfg.TotalWeight(present) < threshold <= cfg.TotalWeight(present) + AbsentWeight(cfg, services)
  }

  lemma OverweightBridged(cfg: Config, services: seq<bytes>, threshold: int, chosen: seq<bytes>)
    requires cfg.Valid() && ServicesAccepted(cfg, services, threshold)
    requires Overweight(cfg, services, threshold, chosen)
    ensures Bridged(cfg, services, threshold, Present(cfg, services, chosen))
  {
    var present, absent := Present(cfg, services, chosen), Absent(services, chosen);
    Parted(cfg, services, chosen);
    PartedMembers(cfg, services, chosen);
    PresentOccurrences(cfg, present, services, threshold);
    AbsentWithin(cfg, services, chosen);
    hide Config.TotalWeight, Occurrences, Config.Valid, ServicesAccepted, Present, Absent, AbsentWeight, Config.Weight;
    assert AbsentWeight(cfg, services) >= cfg.TotalWeight(absent);
    forall x
      ensures multiset(present)[x] <= 1
    {
      assert multiset(present)[x] <= multiset(chosen)[x];
    }
  }

  lemma AbsentWithin(cfg: Config, services: seq<bytes>, chosen: seq<bytes>)
    requires cfg.Valid() && Distinct(chosen) && forall id | id in chosen :: id in cfg.weights
    ensures cfg.TotalWeight(Absent(services, chosen)) <= AbsentWeight(cfg, services)
  {
    var ids := ObjectIds(cfg.servers);
    var a, b := Absent(services, chosen), Absent(services, ids);
    PartedMembers(cfg, services, chosen);
    forall x
      ensures multiset(a)[x] <= multiset(b)[x]
    {
      assert multiset(a)[x] <= multiset(chosen)[x] <= 1;
      if x in multiset(a) {
        assert x in a && x in chosen && x in ids;
        assert x in b;
      }
    }
    SubsetWeight(cfg, a, b);
  }

  lemma BridgedOverweight(cfg: Config, services: seq<bytes>, threshold: int, present: seq<bytes>)
    requires cfg.Valid() && ServicesAccepted(cfg, services, threshold)
    requires Bridged(cfg, services, threshold, present)
    ensures Overweight(cfg, services, threshold, present + Absent(services, ObjectIds(cfg.servers)))
  {
    var absent := Absent(services, ObjectIds(cfg.servers));
    BridgedServers(cfg, services, present);
    PresentOccurrences(cfg, present, services, threshold);
    hide Config.TotalWeight, Occurrences, Absent, ServicesAccepted, Config.Weight, Config.Valid, Distinct;
    WeightConcat(cfg, present, absent);
    ConcatOccurrences(present, absent, services);
    AbsentOccurrences(absent, services);
  }

  lemma BridgedServers(cfg: Config, services: seq<bytes>, present: seq<bytes>)
    requires cfg.Valid() && Distinct(present)
    requires forall id | id in present :: id in services && cfg.Weight(id) > 0
    ensures var chosen := present + Absent(services, ObjectIds(cfg.servers));
      Distinct(chosen) && forall id | id in chosen :: id in cfg.weights
  {
    var ids := ObjectIds(cfg.servers);
    var absent := Absent(services, ids);
    PartedMembers(cfg, services, ids);
    forall x
      ensures multiset(present + absent)[x] <= 1
    {
      DistinctCount(ids, x);
      assert multiset(absent)[x] <= multiset(ids)[x] <= 1;
      assert x in multiset(present) ==> x in present;
      assert x in multiset(absent) ==> x in absent;
      assert multiset(present + absent)[x] == multiset(present)[x] + multiset(absent)[x];
    }
  }

  // For accepted services: exactly when no choice of servers in the object has a weight below the
  // threshold that the absent servers lift to it.
  lemma AcceptedSufficesIff(cfg: Config, obj: EncryptedObject, publicKeys: Option<seq<G2>>, checkLE: bool)
    requires cfg.Valid() && ServicesAccepted(cfg, ServiceIds(obj.services), obj.threshold)
    ensures Suffices(cfg, obj, publicKeys, checkLE)
      <==> |obj.packageId| != ADDRESS_LENGTH
           || forall present :: !Bridged(cfg, ServiceIds(obj.services), obj.threshold, present)
  {
    var services, threshold := ServiceIds(obj.services), obj.threshold;
    hide Suffices, Overweight, Bridged, ServicesAccepted, Config.Valid, ServiceIds, Present, Absent;
    SufficesIff(cfg, obj, publicKeys, checkLE);
    if chosen :| Overweight(cfg, services, threshold, chosen) {
      OverweightBridged(cfg, services, threshold, chosen);
    }
    if present :| Bridged(cfg, services, threshold, present) {
      BridgedOverweight(cfg, services, threshold, present);
    }
  }

  // After a return for one full ID, the servers with a cached key weigh the threshold: this is the
  // state in which getDerivedKeys collects keys.
  lemma ReturnedWeight(cfg: Config, before: KeyStore, fullId: bytes, threshold: int, events: seq<Event>,
                       cache: KeyStore)
    requires cfg.Valid() && Returns(cfg, before, [fullId], threshold, events, cache)
    ensures 1 <= threshold <= cfg.TotalWeight(Cached(cfg, cache, [fullId], |cfg.servers|, true))
  {
    var ids, cached := ObjectIds(cfg.servers), Cached(cfg, cache, [fullId], |cfg.servers|, true);
    ValidOrder(cfg);
    var call := ReturnCounts(cfg, before, [fullId], threshold, events, cache);
    hide Returns, Cached, HasAll, Config.TotalWeight;
    CountedDistinct(cfg, call);
    CountedAreConfigured(cfg, call);
    CompletedWeightIs(cfg, call);
    hide Accounted, Distinct;
    forall x | x in call.counted
      ensures x in cached
    {
      CachedMembers(cfg, cache, [fullId], |cfg.servers|, x);
      assert ids[..|cfg.servers|] == ids;
    }
    DistinctWithin(call.counted, cached);
    SubsetWeight(cfg, call.counted, cached);
  }

  lemma DistinctWithin(a: seq<bytes>, b: seq<bytes>)
    requires Distinct(a) && forall x | x in a :: x in b
    ensures multiset(a) <= multiset(b)
  {
    forall x
      ensures multiset(a)[x] <= multiset(b)[x]
    {
      assert x in a <==> x in multiset(a);
      assert x in b <==> x in multiset(b);
    }
  }

  // If every weighted server occurs in the object, every return leaves enough shares.
  lemma FetchedEnough(cfg: Config, obj: EncryptedObject, publicKeys: Option<seq<G2>>, checkLE: bool)
    requires cfg.Valid() && ServicesAccepted(cfg, ServiceIds(obj.services), obj.threshold)
    requires forall id | id in cfg.weights && cfg.Weight(id) > 0 :: id in ServiceIds(obj.services)
    ensures Suffices(cfg, obj, publicKeys, checkLE)
  {
    var services := ServiceIds(obj.services);
    NoWeight(cfg, Absent(services, ObjectIds(cfg.servers)));
    hide Suffices, ServicesAccepted, Config.Valid, Config.Weight, Config.TotalWeight, Absent, Distinct;
    AcceptedSufficesIff(cfg, obj, publicKeys, checkLE);
  }

  lemma {:induction false} NoWeight(cfg: Config, ids: seq<bytes>)
    requires forall id | id in ids :: cfg.Weight(id) == 0
    ensures cfg.TotalWeight(ids) == 0
  {
    if ids != [] {
      NoWeight(cfg, ids[..|ids| - 1]);
    }
  }

  // If the absent servers alone weigh the threshold, some return leaves too few.
  lemma AbsentReach(cfg: Config, obj: EncryptedObject, publicKeys: Option<seq<G2>>, checkLE: bool)
    requires cfg.Valid() && ServicesAccepted(cfg, ServiceIds(obj.services), obj.threshold)
    requires |obj.packageId| == ADDRESS_LENGTH && 1 <= obj.threshold <= AbsentWeight(cfg, ServiceIds(obj.services))
    ensures !Suffices(cfg, obj, publicKeys, checkLE)
  {
    assert Bridged(cfg, ServiceIds(obj.services), obj.threshold, []);
    hide Suffices, ServicesAccepted, Config.Valid, Bridged, AbsentWeight;
    AcceptedSufficesIff(cfg, obj, publicKeys, checkLE);
  }

  // One server a of weight 1 whose key is cached and an object sealed to another server: the
  // call returns at once and decryption lacks shares, although the object's services are accepted.
  lemma AbsentServerCounts(suite: Suite, a: bytes, other: bytes, pk: G2, key: G1, packageId: bytes, id: bytes,
                           obj: EncryptedObject, publicKeys: Option<seq<G2>>, checkLE: bool)
    requires suite.order > 0 && a != other && |packageId| == ADDRESS_LENGTH
    requires obj.packageId == packageId && obj.id == id && obj.threshold == 1 && obj.services == [Service(other, 1)]
    requires VerifyUserSecretKey(suite, key, packageId + id, pk)
    ensures var cfg := Config(suite, map[a := 1], [KeyServer(a, pk)]);
      var cache: KeyStore := map[(packageId + id, a) := key];
      && cfg.Valid() && AllVerified(cfg, cache)
      && ServicesAccepted(cfg, ServiceIds(obj.services), 1)
      && Start(cfg, cache, [packageId + id]).completedWeight >= 1
      && Decrypt(suite, obj, cache, publicKeys, checkLE) == Err(NotEnoughShares)
  {
    hide VerifyUserSecretKey, Decrypt;
    var cfg := Config(suite, map[a := 1], [KeyServer(a, pk)]);
    var fullId := packageId + id;
    var cache: KeyStore := map[(fullId, a) := key];
    assert ObjectIds(cfg.servers) == [a];
    WeightSingle(cfg, a);
    assert ServiceIds(obj.services) == [other];
    assert cfg.Weight(other) == 0;
    assert Cached(cfg, cache, [fullId], 0, true) == [];
    assert HasAll(cache, [fullId], a);
    assert Cached(cfg, cache, [fullId], 1, true) == [] + [a] == [a];
    assert InKeystore(obj.services, cache, fullId, 0) == [];
    assert InKeystore(obj.services, cache, fullId, 1) == [];
    NotEnoughIff(suite, obj, cache, publicKeys, checkLE);
    assert cfg.servers[0].objectId == a;
  }
}
