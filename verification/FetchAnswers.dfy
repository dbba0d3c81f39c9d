// Which answers of key servers are counted, and that answering servers complete a fetch.

module FetchAnswers {
  import opened Wrappers
  import opened Bytes
  import opened Ibe
  import opened Envelope
  import opened FetchKeys
  import opened FetchEnough

  // ---------- What the loop over received keys stores ----------

  // The i-th received key is for the full ID and passes verification for the server.
  ghost predicate ValidAt(suite: Suite, server: KeyServer, keys: seq<Received>, fullId: bytes, i: nat)
    requires suite.order > 0
  {
    && i < |keys| && keys[i].fullId == fullId && keys[i].key.Some?
    && VerifyUserSecretKey(suite, keys[i].key.value, fullId, server.publicKey)
  }

  // The last of the first n received keys that is valid for the full ID.
  ghost predicate LastValid(suite: Suite, server: KeyServer, keys: seq<Received>, fullId: bytes, n: nat, i: nat)
    requires suite.order > 0
  {
    && i < n && ValidAt(suite, server, keys, fullId, i)
    && forall j | i < j < n :: !ValidAt(suite, server, keys, fullId, j)
  }

  // How many keys the loop handles: it throws at the first one that cannot be decoded.
  ghost predicate Handled(keys: seq<Received>, n: nat) {
    n <= |keys| && (forall i | 0 <= i < n :: keys[i].key.Some?) && (n < |keys| ==> keys[n].key.None?)
  }

  ghost predicate NoneValid(suite: Suite, server: KeyServer, keys: seq<Received>, fullId: bytes, n: nat)
    requires suite.order > 0
  {
    forall j | 0 <= j < n :: !ValidAt(suite, server, keys, fullId, j)
  }

  // The cache entry of one full ID and server after the loop has handled n keys of a server.
  ghost predicate StoredAt(suite: Suite, before: KeyStore, server: KeyServer, keys: seq<Received>, n: nat,
                           after: KeyStore, f: bytes, id: bytes)
    requires suite.order > 0
  {
    && (id != server.objectId || NoneValid(suite, server, keys, f, n) ==>
        && ((f, id) in after <==> (f, id) in before)
        && ((f, id) in before ==> after[(f, id)] == before[(f, id)]))
    && (id == server.objectId ==>
        forall i: nat | LastValid(suite, server, keys, f, n, i) :: Holds(after, f, id, keys, i))
  }

  // The cache entry is the i-th received key.
  ghost predicate Holds(cache: KeyStore, f: bytes, id: bytes, keys: seq<Received>, i: nat) {
    i < |keys| && (f, id) in cache && keys[i].key == Some(cache[(f, id)])
  }

  ghost predicate Stored(suite: Suite, before: KeyStore, server: KeyServer, keys: seq<Received>, n: nat,
                         after: KeyStore)
    requires suite.order > 0
  {
    forall f: bytes, id: bytes :: StoredAt(suite, before, server, keys, n, after, f, id)
  }

  // The loop throws exactly when some key cannot be decoded. Of the keys before that, it stores for
  // every full ID the last one that is valid, and changes nothing else.
  lemma {:induction false} AddKeysExact(suite: Suite, cache: KeyStore, server: KeyServer, keys: seq<Received>)
    returns (n: nat)
    requires suite.order > 0
    ensures Handled(keys, n)
    ensures AddKeys(suite, cache, server, keys).1 <==> forall i | 0 <= i < |keys| :: keys[i].key.Some?
    ensures Stored(suite, cache, server, keys, n, AddKeys(suite, cache, server, keys).0)
    decreases |keys|
  {
    hide VerifyUserSecretKey, Stored;
    if keys == [] || keys[0].key.None? {
      n := 0;
      NothingStored(suite, cache, server, keys);
    } else {
      var key := keys[0].key.value;
      var next := if VerifyUserSecretKey(suite, key, keys[0].fullId, server.publicKey)
        then cache[(keys[0].fullId, server.objectId) := key] else cache;
      var m := AddKeysExact(suite, next, server, keys[1..]);
      n := m + 1;
      HandledNext(keys, m);
      StoredNext(suite, cache, server, keys, m, next, AddKeys(suite, next, server, keys[1..]).0);
    }
  }

  lemma NothingStored(suite: Suite, cache: KeyStore, server: KeyServer, keys: seq<Received>)
    requires suite.order > 0
    ensures Stored(suite, cache, server, keys, 0, cache)
  {
  }

  lemma HandledNext(keys: seq<Received>, m: nat)
    requires keys != [] && keys[0].key.Some? && Handled(keys[1..], m)
    ensures Handled(keys, m + 1)
    ensures (forall i | 0 <= i < |keys| :: keys[i].key.Some?)
      <==> forall i | 0 <= i < |keys[1..]| :: keys[1..][i].key.Some?
  {
    var rest := keys[1..];
    forall i | 0 <= i < m + 1
      ensures keys[i].key.Some?
    {
      if i > 0 {
        assert rest[i - 1] == keys[i];
      }
    }
    if forall i | 0 <= i < |rest| :: rest[i].key.Some? {
      forall i | 0 <= i < |keys|
        ensures keys[i].key.Some?
      {
        if i > 0 {
          assert rest[i - 1] == keys[i];
        }
      }
    }
  }

  lemma ShiftedValid(suite: Suite, server: KeyServer, keys: seq<Received>, fullId: bytes, i: nat)
    requires suite.order > 0 && keys != []
    ensures ValidAt(suite, server, keys[1..], fullId, i) <==> ValidAt(suite, server, keys, fullId, i + 1)
  {
  }

  // The last valid key of the rest is that of all; without one there, it can be the first.
  lemma LastNext(suite: Suite, server: KeyServer, keys: seq<Received>, fullId: bytes, m: nat, i: nat)
    requires suite.order > 0 && keys != [] && LastValid(suite, server, keys, fullId, m + 1, i)
    ensures i > 0 ==> LastValid(suite, server, keys[1..], fullId, m, i - 1)
    ensures i == 0 ==> ValidAt(suite, server, keys, fullId, 0) && NoneValid(suite, server, keys[1..], fullId, m)
  {
    hide ValidAt;
    forall j: nat
      ensures ValidAt(suite, server, keys[1..], fullId, j) <==> ValidAt(suite, server, keys, fullId, j + 1)
    {
      ShiftedValid(suite, server, keys, fullId, j);
    }
  }

  lemma NoneNext(suite: Suite, server: KeyServer, keys: seq<Received>, fullId: bytes, m: nat)
    requires suite.order > 0 && keys != [] && NoneValid(suite, server, keys, fullId, m + 1)
    ensures !ValidAt(suite, server, keys, fullId, 0) && NoneValid(suite, server, keys[1..], fullId, m)
  {
    hide ValidAt;
    forall j | 0 <= j < m
      ensures !ValidAt(suite, server, keys[1..], fullId, j)
    {
      ShiftedValid(suite, server, keys, fullId, j);
    }
  }

  lemma StoredNext(suite: Suite, cache: KeyStore, server: KeyServer, keys: seq<Received>, m: nat, next: KeyStore,
                   after: KeyStore)
    requires suite.order > 0 && keys != [] && keys[0].key.Some?
    requires next == (if ValidAt(suite, server, keys, keys[0].fullId, 0)
                      then cache[(keys[0].fullId, server.objectId) := keys[0].key.value] else cache)
    requires Stored(suite, next, server, keys[1..], m, after)
    ensures Stored(suite, cache, server, keys, m + 1, after)
  {
    hide StoredAt, VerifyUserSecretKey;
    var n := m + 1;
    forall f: bytes, id: bytes
      ensures StoredAt(suite, cache, server, keys, n, after, f, id)
    {
      assert StoredAt(suite, next, server, keys[1..], m, after, f, id);
      StoredAtNext(suite, cache, server, keys, m, next, after, f, id);
    }
  }

  lemma StoredAtNext(suite: Suite, cache: KeyStore, server: KeyServer, keys: seq<Received>, m: nat, next: KeyStore,
                     after: KeyStore, f: bytes, id: bytes)
    requires suite.order > 0 && keys != [] && keys[0].key.Some?
    requires next == (if ValidAt(suite, server, keys, keys[0].fullId, 0)
                      then cache[(keys[0].fullId, server.objectId) := keys[0].key.value] else cache)
    requires StoredAt(suite, next, server, keys[1..], m, after, f, id)
    ensures StoredAt(suite, cache, server, keys, m + 1, after, f, id)
  {
    hide VerifyUserSecretKey, NoneValid, LastValid;
    if id == server.objectId {
      if NoneValid(suite, server, keys, f, m + 1) {
        NoneNext(suite, server, keys, f, m);
        assert (f, id) in next <==> (f, id) in cache;
        assert (f, id) in cache ==> next[(f, id)] == cache[(f, id)];
      }
      forall i: nat | LastValid(suite, server, keys, f, m + 1, i)
        ensures Holds(after, f, id, keys, i)
      {
        LastNext(suite, server, keys, f, m, i);
        LastIndex(suite, server, keys, f, m + 1, i);
        assert f == keys[i].fullId;
        if i > 0 {
          LastIndex(suite, server, keys[1..], f, m, i - 1);
          assert keys[1..][i - 1] == keys[i];
        } else {
          assert (f, id) in next && next[(f, id)] == keys[0].key.value;
        }
      }
    }
  }

  lemma LastIndex(suite: Suite, server: KeyServer, keys: seq<Received>, fullId: bytes, n: nat, i: nat)
    requires suite.order > 0 && LastValid(suite, server, keys, fullId, n, i)
    ensures i < |keys| && keys[i].key.Some? && keys[i].fullId == fullId
  {
  }

  // ---------- Which settlements count a server ----------

  ghost predicate Decodes(keys: seq<Received>) {
    forall i | 0 <= i < |keys| :: keys[i].key.Some?
  }

  // Some received key is valid for the full ID.
  ghost predicate Brings(suite: Suite, server: KeyServer, keys: seq<Received>, fullId: bytes)
    requires suite.order > 0
  {
    exists i: nat :: ValidAt(suite, server, keys, fullId, i)
  }

  // The server answers with keys that all decode, and with the cache has one for every full ID.
  ghost predicate Answers(suite: Suite, cache: KeyStore, fullIds: seq<bytes>, server: KeyServer, response: Response)
    requires suite.order > 0
  {
    && response.Answered? && Decodes(response.keys)
    && forall k | 0 <= k < |fullIds| ::
      (fullIds[k], server.objectId) in cache || Brings(suite, server, response.keys, fullIds[k])
  }

  lemma {:induction false} LastExists(suite: Suite, server: KeyServer, keys: seq<Received>, fullId: bytes, n: nat)
    returns (i: nat)
    requires suite.order > 0 && !NoneValid(suite, server, keys, fullId, n)
    ensures LastValid(suite, server, keys, fullId, n, i)
  {
    hide ValidAt;
    if ValidAt(suite, server, keys, fullId, n - 1) {
      i := n - 1;
    } else {
      i := LastExists(suite, server, keys, fullId, n - 1);
    }
  }

  // After an answer that decodes, the cache has exactly the keys it had and those the answer brings.
  lemma AddedIff(suite: Suite, cache: KeyStore, server: KeyServer, keys: seq<Received>, f: bytes)
    requires suite.order > 0 && Decodes(keys)
    ensures (f, server.objectId) in AddKeys(suite, cache, server, keys).0
      <==> (f, server.objectId) in cache || Brings(suite, server, keys, f)
  {
    var n := AddKeysExact(suite, cache, server, keys);
    var after := AddKeys(suite, cache, server, keys).0;
    assert n == |keys|;
    assert StoredAt(suite, cache, server, keys, n, after, f, server.objectId);
    hide AddKeys, VerifyUserSecretKey;
    if NoneValid(suite, server, keys, f, n) {
      assert !Brings(suite, server, keys, f);
    } else {
      var i := LastExists(suite, server, keys, f, n);
      assert ValidAt(suite, server, keys, f, i);
      assert Holds(after, f, server.objectId, keys, i);
    }
  }

  // A settlement counts the server exactly when it answers for every full ID; otherwise the server
  // fails. The cache gets what the loop over its keys stores, and only a rejection or an answer that
  // cannot be decoded, while no signal has fired, is reported.
  lemma CountedIff(cfg: Config, cache: KeyStore, fullIds: seq<bytes>, threshold: int, call: Call, i: nat,
                   server: KeyServer, response: Response)
    requires cfg.suite.order > 0 && i < |call.pending|
    ensures var next := Settle(cfg, cache, fullIds, threshold, call, i, server, response);
      var counts := Answers(cfg.suite, cache, fullIds, server, response);
      && next.1.counted == call.counted + (if counts then [server.objectId] else [])
      && next.1.failed == call.failed + (if counts then [] else [server.objectId])
      && next.1.pending == call.pending[..i] + call.pending[i + 1..]
      && next.1.completedWeight == call.completedWeight + (if counts then cfg.Weight(server.objectId) else 0)
      && next.1.remainingWeight == call.remainingWeight - cfg.Weight(server.objectId)
      && next.1.errors == call.errors + (
        if call.abort != Running then []
        else if response.Rejected? then [response.kind]
        else if Decodes(response.keys) then [] else [0])
      && next.0 == if response.Rejected? then cache else AddKeys(cfg.suite, cache, server, response.keys).0
  {
    hide VerifyUserSecretKey, AddKeys, Config.Weight;
    if response.Answered? {
      var n := AddKeysExact(cfg.suite, cache, server, response.keys);
      if Decodes(response.keys) {
        var id := server.objectId;
        forall k | 0 <= k < |fullIds|
          ensures (fullIds[k], id) in AddKeys(cfg.suite, cache, server, response.keys).0
            <==> (fullIds[k], id) in cache || Brings(cfg.suite, server, response.keys, fullIds[k])
        {
          AddedIff(cfg.suite, cache, server, response.keys, fullIds[k]);
        }
      }
    }
    hide Stored, Brings, Handled;
  }

  // ---------- Runs in which everyone answers ----------

  // A settlement answers for every full ID by itself.
  ghost predicate Complete(cfg: Config, fullIds: seq<bytes>, e: Event)
    requires cfg.suite.order > 0
  {
    e.Settled? ==> e.j < |cfg.servers| && Answers(cfg.suite, map[], fullIds, cfg.servers[e.j], e.response)
  }

  lemma MoreAnswers(suite: Suite, cache: KeyStore, fullIds: seq<bytes>, server: KeyServer, response: Response)
    requires suite.order > 0 && Answers(suite, map[], fullIds, server, response)
    ensures Answers(suite, cache, fullIds, server, response)
  {
  }

  // If every server that settles answers for every full ID, none fails, and the weight of the
  // counted and the unsettled servers stays what it was.
  lemma {:induction false} CompleteRun(cfg: Config, cache: KeyStore, fullIds: seq<bytes>, threshold: int, call: Call,
                                       events: seq<Event>)
    requires cfg.suite.order > 0 && Run(cfg, cache, fullIds, threshold, call, events).Some?
    requires forall e | e in events :: Complete(cfg, fullIds, e)
    ensures var end := Run(cfg, cache, fullIds, threshold, call, events).value.1;
      && end.completedWeight + end.remainingWeight == call.completedWeight + call.remainingWeight
      && end.failed == call.failed && end.errors == call.errors
    decreases |events|
  {
    if events != [] {
      var e := events[0];
      var next := Step(cfg, cache, fullIds, threshold, call, e);
      assert Complete(cfg, fullIds, e);
      if e.Settled? {
        MoreAnswers(cfg.suite, cache, fullIds, cfg.servers[e.j], e.response);
        CountedIff(cfg, cache, fullIds, threshold, call, e.i, cfg.servers[e.j], e.response);
      }
      hide Settle, Complete, Answers, CanStep;
      CompleteRun(cfg, next.0, fullIds, threshold, next.1, events[1..]);
    }
  }

  // So when everyone has answered, the call has the weight of all servers and reaches the threshold
  // exactly when they do.
  lemma EveryoneAnswers(cfg: Config, before: KeyStore, fullIds: seq<bytes>, threshold: int, events: seq<Event>)
    requires cfg.Valid() && AllVerified(cfg, before)
    requires 1 <= threshold && Start(cfg, before, fullIds).completedWeight < threshold
    requires Run(cfg, before, fullIds, threshold, Start(cfg, before, fullIds), events).Some?
    requires forall e | e in events :: Complete(cfg, fullIds, e)
    requires Run(cfg, before, fullIds, threshold, Start(cfg, before, fullIds), events).value.1.pending == []
    ensures var end := Run(cfg, before, fullIds, threshold, Start(cfg, before, fullIds), events).value;
      && end.1.failed == [] && end.1.errors == []
      && (Returns(cfg, before, fullIds, threshold, events, end.0)
          <==> threshold <= cfg.TotalWeight(ObjectIds(cfg.servers)))
      && (threshold <= cfg.TotalWeight(ObjectIds(cfg.servers)) ==>
          end.1.completedWeight == cfg.TotalWeight(ObjectIds(cfg.servers)))
  {
    hide AllVerified, Run, Cached, HasAll, Config.TotalWeight, Complete, Accounted;
    var start := Start(cfg, before, fullIds);
    var end := Run(cfg, before, fullIds, threshold, start, events).value;
    CompleteRun(cfg, before, fullIds, threshold, start, events);
    StartReachable(cfg, before, fullIds);
    if threshold <= cfg.TotalWeight(ObjectIds(cfg.servers)) {
      StartInv(cfg, before, fullIds, threshold);
      RunInv(cfg, before, fullIds, threshold, start, events);
      RemainingNone(cfg, end.1);
    }
  }

  lemma RemainingNone(cfg: Config, call: Call)
    requires Accounted(cfg, call) && call.pending == []
    ensures call.remainingWeight == 0
  {
    WeightEmpty(cfg);
  }
}
