// The client's three calls together: what it encrypts to its weighted key servers it decrypts after
// every fetch of keys that returns.

module EndToEnd {
  import opened Wrappers
  import opened Bytes
  import Shamir
  import Opening
  import opened Ibe
  import opened Envelope
  import opened FetchKeys
  import opened FetchEnough

  // The first n configured servers, each as often as it weighs.
  function WeightedServers(cfg: Config, n: nat): seq<KeyServer>
    requires n <= |cfg.servers|
  {
    if n == 0 then []
    else
      var server := cfg.servers[n - 1];
      WeightedServers(cfg, n - 1) + seq(cfg.Weight(server.objectId), _ => server)
  }

  // #getWeightedKeyServers.
  method GetWeightedKeyServers(cfg: Config) returns (keyServersWithMultiplicity: seq<KeyServer>)
    ensures keyServersWithMultiplicity == WeightedServers(cfg, |cfg.servers|)
  {
    keyServersWithMultiplicity := [];
    for n := 0 to |cfg.servers|
      invariant keyServersWithMultiplicity == WeightedServers(cfg, n)
    {
      var server := cfg.servers[n];
      for i := 0 to cfg.Weight(server.objectId)
        invariant keyServersWithMultiplicity == WeightedServers(cfg, n) + seq(i, _ => server)
      {
        keyServersWithMultiplicity := keyServersWithMultiplicity + [server];
      }
    }
  }

  lemma {:induction false} Repeated(server: KeyServer, n: nat, id: bytes)
    ensures multiset(ObjectIds(seq(n, _ => server)))[id] == if id == server.objectId then n else 0
  {
    var ids := ObjectIds(seq(n, _ => server));
    if n > 0 {
      Repeated(server, n - 1, id);
      assert ids == ObjectIds(seq(n - 1, _ => server)) + [server.objectId];
    }
  }

  lemma IdsConcat(a: seq<KeyServer>, b: seq<KeyServer>)
    ensures ObjectIds(a + b) == ObjectIds(a) + ObjectIds(b)
  {
  }

  // Every server is listed as often as it weighs, and nothing else is.
  lemma {:induction false} WeightedCount(cfg: Config, n: nat, id: bytes)
    requires cfg.Valid() && n <= |cfg.servers|
    ensures multiset(ObjectIds(WeightedServers(cfg, n)))[id]
      == if id in ObjectIds(cfg.servers[..n]) then cfg.Weight(id) else 0
  {
    hide Config.Weight;
    if n > 0 {
      var server := cfg.servers[n - 1];
      var w := cfg.Weight(server.objectId);
      WeightedCount(cfg, n - 1, id);
      Repeated(server, w, id);
      IdsConcat(WeightedServers(cfg, n - 1), seq(w, _ => server));
      assert cfg.servers[..n] == cfg.servers[..n - 1] + [server];
      IdsConcat(cfg.servers[..n - 1], [server]);
      assert ObjectIds([server]) == [server.objectId];
    }
  }

  // The client accepts the services it encrypts to, up to its total weight.
  lemma WeightedAccepted(cfg: Config, threshold: int)
    requires cfg.Valid()
    ensures ServicesAccepted(cfg, ObjectIds(WeightedServers(cfg, |cfg.servers|)), threshold)
      <==> threshold <= cfg.TotalWeight(ObjectIds(cfg.servers))
  {
    var ids := ObjectIds(WeightedServers(cfg, |cfg.servers|));
    assert cfg.servers[..|cfg.servers|] == cfg.servers;
    hide WeightedServers, Config.Weight, Config.TotalWeight;
    forall i | 0 <= i < |ids|
      ensures cfg.Weight(ids[i]) == multiset(ids)[ids[i]]
    {
      assert ids[i] in multiset(ids);
      WeightedCount(cfg, |cfg.servers|, ids[i]);
    }
  }

  lemma {:induction false} WeightedFrom(cfg: Config, n: nat, i: nat) returns (j: nat)
    requires n <= |cfg.servers| && i < |WeightedServers(cfg, n)|
    ensures j < n && WeightedServers(cfg, n)[i] == cfg.servers[j]
  {
    if i < |WeightedServers(cfg, n - 1)| {
      j := WeightedFrom(cfg, n - 1, i);
    } else {
      j := n - 1;
    }
  }

  // So servers have as many shares as they weigh.
  lemma {:induction false} WeightedOccurrences(cfg: Config, ids: seq<bytes>, services: seq<bytes>)
    requires forall id | id in ids :: multiset(services)[id] == cfg.Weight(id)
    ensures Occurrences(ids, services) == cfg.TotalWeight(ids)
  {
    if ids != [] {
      var last := ids[|ids| - 1];
      assert last in ids;
      assert forall id | id in ids[..|ids| - 1] :: id in ids;
      WeightedOccurrences(cfg, ids[..|ids| - 1], services);
    }
  }

  // The keys a returned call leaves passed verification.
  lemma ReturnVerified(cfg: Config, before: KeyStore, fullIds: seq<bytes>, threshold: int, events: seq<Event>,
                       cache: KeyStore)
    requires cfg.Valid() && Returns(cfg, before, fullIds, threshold, events, cache)
    ensures cfg.suite.order > 0 && AllVerified(cfg, cache)
  {
    ValidOrder(cfg);
    hide AllVerified, Accounted, HasAll, Run, Cached, Config.TotalWeight, Config.Valid;
    var start := Start(cfg, before, fullIds);
    if start.completedWeight < threshold {
      StartInv(cfg, before, fullIds, threshold);
      RunInv(cfg, before, fullIds, threshold, start, events);
    }
  }

  lemma KeysOfServers(cfg: Config, services: seq<Service>, cache: KeyStore, fullId: bytes)
    requires cfg.Valid() && cfg.suite.order > 0 && AllVerified(cfg, cache)
    requires ServiceIds(services) == ObjectIds(WeightedServers(cfg, |cfg.servers|))
    ensures |PublicKeys(WeightedServers(cfg, |cfg.servers|))| == |services|
    ensures KeysVerified(cfg.suite, services, cache, fullId, PublicKeys(WeightedServers(cfg, |cfg.servers|)))
  {
    var list := WeightedServers(cfg, |cfg.servers|);
    assert |ServiceIds(services)| == |ObjectIds(list)|;
    hide WeightedServers, VerifyUserSecretKey;
    forall i | 0 <= i < |services| && (fullId, services[i].objectId) in cache
      ensures VerifyUserSecretKey(cfg.suite, cache[(fullId, services[i].objectId)], fullId, PublicKeys(list)[i])
    {
      assert ServiceIds(services)[i] == ObjectIds(list)[i];
      var j := WeightedFrom(cfg, |cfg.servers|, i);
      var k :| 0 <= k < |cfg.servers| && cfg.servers[k].objectId == services[i].objectId
        && VerifyUserSecretKey(cfg.suite, cache[(fullId, services[i].objectId)], fullId, cfg.servers[k].publicKey);
      assert k == j;
    }
  }

  // Whatever the weights, the threshold, the message and the random draws: an object that is
  // encrypted to the client's key servers decrypts to the message after every fetch for its ID and
  // threshold that returns, in whatever order the servers answered and whichever failed.
  lemma EncryptFetchDecrypt(cfg: Config, threshold: int, packageId: bytes, id: bytes, msg: bytes, aad: bytes,
                            baseKey: bytes, coefficients: seq<bytes>, r: nat, obj: EncryptedObject,
                            before: KeyStore, fullIds: seq<bytes>, events: seq<Event>, cache: KeyStore,
                            checkShares: bool, checkLE: bool)
    requires cfg.Valid() && cfg.suite.Valid() && |baseKey| == KEY_LENGTH && 0 < r < cfg.suite.order
    requires threshold >= 1 ==> Shamir.Drawn(coefficients, baseKey, threshold)
    requires Encrypt(cfg.suite, WeightedServers(cfg, |cfg.servers|), threshold, packageId, id, msg, aad, baseKey,
                     coefficients, r) == Ok(obj)
    requires packageId + id in fullIds && Returns(cfg, before, fullIds, threshold, events, cache)
    ensures Decrypt(cfg.suite, obj, cache,
                    if checkShares then Some(PublicKeys(WeightedServers(cfg, |cfg.servers|))) else None, checkLE)
      == Ok(msg)
  {
    hide *;
    var list, fullId := WeightedServers(cfg, |cfg.servers|), packageId + id;
    ServicesAre(cfg.suite, list, threshold, packageId, id, msg, aad, baseKey, coefficients, r, obj);
    ReturnVerified(cfg, before, fullIds, threshold, events, cache);
    KeysOfServers(cfg, obj.services, cache, fullId);
    var call := ReturnCounts(cfg, before, fullIds, threshold, events, cache);
    EnoughShares(cfg, obj, fullIds, threshold, cache, call);
    DecryptAfterEncrypt(cfg.suite, list, threshold, packageId, id, msg, aad, baseKey, coefficients, r, obj, cache,
                        checkShares, checkLE);
  }

  // An encrypted object names its servers in order, its package and its ID.
  lemma ServicesAre(s: Suite, keyServers: seq<KeyServer>, threshold: int, packageId: bytes, id: bytes, msg: bytes,
                    aad: bytes, baseKey: bytes, coefficients: seq<bytes>, r: nat, obj: EncryptedObject)
    requires s.Valid() && |baseKey| == KEY_LENGTH
    requires threshold >= 1 ==> Shamir.Drawn(coefficients, baseKey, threshold)
    requires Encrypt(s, keyServers, threshold, packageId, id, msg, aad, baseKey, coefficients, r) == Ok(obj)
    ensures ServiceIds(obj.services) == ObjectIds(keyServers) && obj.packageId == packageId && obj.id == id
  {
    EncryptSeals(s, keyServers, threshold, packageId, id, msg, aad, baseKey, coefficients, r);
    Opening.EncryptKeepsIds(s, keyServers, threshold, packageId, id, msg, aad, baseKey, coefficients, r);
    hide Encrypt, Unmasks, Shamir.Split, BigEndian, Nonce, DeriveKey, Suite.Valid;
  }

  lemma EnoughShares(cfg: Config, obj: EncryptedObject, fullIds: seq<bytes>, threshold: int, cache: KeyStore,
                     call: Call)
    requires cfg.Valid() && cfg.suite.order > 0 && obj.packageId + obj.id in fullIds
    requires Counted(cfg, fullIds, threshold, cache, call)
    requires ServiceIds(obj.services) == ObjectIds(WeightedServers(cfg, |cfg.servers|))
    ensures |InKeystore(obj.services, cache, obj.packageId + obj.id, |obj.services|)| >= threshold
  {
    CountedDistinct(cfg, call);
    CountedAreConfigured(cfg, call);
    CompletedWeightIs(cfg, call);
    CountedShares(obj, cache, fullIds, call.counted);
    assert cfg.servers[..|cfg.servers|] == cfg.servers;
    hide Accounted, HasAll, Distinct, InKeystore, Occurrences, Config.TotalWeight, Config.Weight;
    forall id | id in call.counted
      ensures multiset(ServiceIds(obj.services))[id] == cfg.Weight(id)
    {
      WeightedCount(cfg, |cfg.servers|, id);
    }
    WeightedOccurrences(cfg, call.counted, ServiceIds(obj.services));
  }
}
