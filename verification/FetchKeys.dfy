// The key-fetch protocol: weighted servers answer in any order, and the client's cache of
// verified keys feeds decryption.

module FetchKeys {
  import opened Wrappers
  import opened Bytes
  import Dem
  import Shamir
  import opened Ibe
  import opened Envelope

  datatype FetchError = InvalidThreshold | MajorityError(kind: Option<nat>)

  // Why a call's abort signal fired.
  datatype Abort = Running | Reached | TooManyFailed

  // The weights are the client's server configs; the servers are the loaded ones, in map order.
  datatype Config = Config(suite: Suite, weights: map<bytes, nat>, servers: seq<KeyServer>) {
    ghost predicate Valid() {
      && suite.order > 0
      && (forall i, j | 0 <= i < j < |servers| :: servers[i].objectId != servers[j].objectId)
      && (forall id :: id in weights <==> id in ObjectIds(servers))
    }

    // #weight: zero for servers that are not configured.
    function Weight(id: bytes): nat {
      if id in weights then weights[id] else 0
    }

    function TotalWeight(ids: seq<bytes>): nat {
      if ids == [] then 0 else TotalWeight(ids[..|ids| - 1]) + Weight(ids[|ids| - 1])
    }
  }

  // A key as received; None when its bytes are not a point, which throws.
  datatype Received = Received(fullId: bytes, key: Option<G1>)

  // How one request ends.
  datatype Response = Rejected(kind: nat) | Answered(keys: seq<Received>)

  const DECODE_ERROR := 0

  // One call of fetchKeys. counted and pending list the completed and the unsettled servers,
  // failed those that settled without completing.
  datatype Call = Call(counted: seq<bytes>, pending: seq<bytes>, failed: seq<bytes>,
                       completedWeight: nat, remainingWeight: int, abort: Abort, errors: seq<nat>)

  predicate HasAll(cache: KeyStore, fullIds: seq<bytes>, id: bytes) {
    forall i | 0 <= i < |fullIds| :: (fullIds[i], id) in cache
  }

  // The servers split by whether the cache already has all their keys.
  function Cached(cfg: Config, cache: KeyStore, fullIds: seq<bytes>, n: nat, has: bool): (ids: seq<bytes>)
    requires n <= |cfg.servers|
    ensures forall id | id in ids :: HasAll(cache, fullIds, id) == has
  {
    if n == 0 then []
    else
      var id := cfg.servers[n - 1].objectId;
      Cached(cfg, cache, fullIds, n - 1, has) + if HasAll(cache, fullIds, id) == has then [id] else []
  }

  function Start(cfg: Config, cache: KeyStore, fullIds: seq<bytes>): Call {
    var counted := Cached(cfg, cache, fullIds, |cfg.servers|, true);
    var pending := Cached(cfg, cache, fullIds, |cfg.servers|, false);
    Call(counted, pending, [], cfg.TotalWeight(counted), cfg.TotalWeight(pending), Running, [])
  }

  // The loop over received keys: an invalid key is skipped, an undecodable one throws and keeps
  // what was cached before it.
  function AddKeys(suite: Suite, cache: KeyStore, server: KeyServer, keys: seq<Received>): (r: (KeyStore, bool))
    requires suite.order > 0
    decreases |keys|
  {
    if keys == [] then (cache, true)
    else if keys[0].key.None? then (cache, false)
    else
      var key := keys[0].key.value;
      var next := if VerifyUserSecretKey(suite, key, keys[0].fullId, server.publicKey)
        then cache[(keys[0].fullId, server.objectId) := key] else cache;
      AddKeys(suite, next, server, keys[1..])
  }

  function Without(ids: seq<bytes>, i: nat): seq<bytes>
    requires i < |ids|
  {
    ids[..i] + ids[i + 1..]
  }

  // The abort after a settlement; an abort that has fired stays.
  function AbortAfter(abort: Abort, counted: bool, completed: int, remaining: int, threshold: int): Abort {
    if abort != Running then abort
    else if counted && completed >= threshold then Reached
    else if remaining < threshold - completed then TooManyFailed
    else Running
  }

  // The settlement of the i-th pending server, as one atomic step.
  function Settle(cfg: Config, cache: KeyStore, fullIds: seq<bytes>, threshold: int, call: Call, i: nat,
                  server: KeyServer, response: Response): (KeyStore, Call)
    requires cfg.suite.order > 0 && i < |call.pending|
  {
    var w := cfg.Weight(server.objectId);
    var remaining := call.remainingWeight - w;
    var pending := Without(call.pending, i);
    var added := if response.Answered? then AddKeys(cfg.suite, cache, server, response.keys) else (cache, false);
    if added.1 && HasAll(added.0, fullIds, server.objectId) then
      var completed := call.completedWeight + w;
      (added.0, Call(call.counted + [server.objectId], pending, call.failed, completed, remaining,
                     AbortAfter(call.abort, true, completed, remaining, threshold), call.errors))
    else
      var errors := if added.1 || call.abort != Running then call.errors
        else call.errors + [if response.Rejected? then response.kind else DECODE_ERROR];
      (added.0, Call(call.counted, pending, call.failed + [server.objectId], call.completedWeight, remaining,
                     AbortAfter(call.abort, false, call.completedWeight, remaining, threshold), errors))
  }

  // ---------- What every step keeps ----------

  // Every cached key is a key of a loaded server that passed verification.
  ghost predicate AllVerified(cfg: Config, cache: KeyStore)
    requires cfg.suite.order > 0
  {
    forall k | k in cache ::
      exists j :: 0 <= j < |cfg.servers| && cfg.servers[j].objectId == k.1
        && VerifyUserSecretKey(cfg.suite, cache[k], k.0, cfg.servers[j].publicKey)
  }

  // The cache only grows: keys are replaced but never dropped.
  ghost predicate Grows(before: KeyStore, after: KeyStore) {
    forall k | k in before :: k in after
  }

  ghost predicate Inv(cfg: Config, cache: KeyStore, fullIds: seq<bytes>, threshold: int, call: Call) {
    && cfg.Valid()
    && AllVerified(cfg, cache)
    && Accounted(cfg, call)
    && (forall id | id in call.counted :: HasAll(cache, fullIds, id))
    && AbortExact(threshold, call)
  }

  // Every server is counted, pending or failed, and the weights are those of the counted and the
  // pending ones.
  ghost predicate Accounted(cfg: Config, call: Call) {
    && Weighed(cfg, call)
    && Listed(call) == multiset(ObjectIds(cfg.servers))
  }

  ghost predicate Weighed(cfg: Config, call: Call) {
    call.completedWeight == cfg.TotalWeight(call.counted) && call.remainingWeight == cfg.TotalWeight(call.pending)
  }

  ghost function Listed(call: Call): multiset<bytes> {
    multiset(call.counted) + multiset(call.pending) + multiset(call.failed)
  }

  // The signal has fired exactly when the threshold is reached, or can no longer be reached.
  ghost predicate AbortExact(threshold: int, call: Call) {
    && call.remainingWeight >= 0
    && (call.abort == Reached <==> call.completedWeight >= threshold)
    && (call.abort == TooManyFailed <==> call.completedWeight + call.remainingWeight < threshold)
  }

  lemma {:induction false} WeightConcat(cfg: Config, a: seq<bytes>, b: seq<bytes>)
    ensures cfg.TotalWeight(a + b) == cfg.TotalWeight(a) + cfg.TotalWeight(b)
  {
    if b == [] {
      assert a + b == a;
    } else {
      WeightConcat(cfg, a, b[..|b| - 1]);
      assert (a + b)[..|a + b| - 1] == a + b[..|b| - 1];
    }
  }

  lemma WeightSingle(cfg: Config, id: bytes)
    ensures cfg.TotalWeight([id]) == cfg.Weight(id)
  {
    assert [id][..0] == [];
  }

  lemma WeightWithout(cfg: Config, ids: seq<bytes>, i: nat)
    requires i < |ids|
    ensures cfg.TotalWeight(Without(ids, i)) == cfg.TotalWeight(ids) - cfg.Weight(ids[i])
    ensures multiset(Without(ids, i)) + multiset{ids[i]} == multiset(ids)
  {
    hide Config.TotalWeight, Config.Weight;
    WeightConcat(cfg, ids[..i], ids[i + 1..]);
    WeightConcat(cfg, ids[..i], [ids[i]]);
    WeightConcat(cfg, ids[..i] + [ids[i]], ids[i + 1..]);
    WeightSingle(cfg, ids[i]);
    Reassembled(ids, i);
  }

  lemma Reassembled(ids: seq<bytes>, i: nat)
    requires i < |ids|
    ensures ids == ids[..i] + [ids[i]] + ids[i + 1..]
    ensures multiset(Without(ids, i)) + multiset{ids[i]} == multiset(ids)
  {
    assert ids == ids[..i] + [ids[i]] + ids[i + 1..];
  }

  lemma Moved(counted: seq<bytes>, pending: seq<bytes>, failed: seq<bytes>, i: nat)
    requires i < |pending|
    ensures multiset(counted + [pending[i]]) + multiset(Without(pending, i)) + multiset(failed)
      == multiset(counted) + multiset(pending) + multiset(failed)
    ensures multiset(counted) + multiset(Without(pending, i)) + multiset(failed + [pending[i]])
      == multiset(counted) + multiset(pending) + multiset(failed)
  {
    Reassembled(pending, i);
    hide Without;
    assert multiset(counted + [pending[i]]) == multiset(counted) + multiset{pending[i]};
    assert multiset(failed + [pending[i]]) == multiset(failed) + multiset{pending[i]};
  }

  lemma {:induction false} AddKeysVerified(cfg: Config, cache: KeyStore, j: nat, keys: seq<Received>)
    requires cfg.Valid() && AllVerified(cfg, cache) && j < |cfg.servers|
    ensures AllVerified(cfg, AddKeys(cfg.suite, cache, cfg.servers[j], keys).0)
    ensures Grows(cache, AddKeys(cfg.suite, cache, cfg.servers[j], keys).0)
    decreases |keys|
  {
    hide VerifyUserSecretKey;
    if keys != [] && keys[0].key.Some? {
      var server, key := cfg.servers[j], keys[0].key.value;
      var next := if VerifyUserSecretKey(cfg.suite, key, keys[0].fullId, server.publicKey)
        then cache[(keys[0].fullId, server.objectId) := key] else cache;
      NextVerified(cfg, cache, j, keys[0].fullId, key);
      AddKeysVerified(cfg, next, j, keys[1..]);
    }
  }

  lemma NextVerified(cfg: Config, cache: KeyStore, j: nat, fullId: bytes, key: G1)
    requires cfg.Valid() && AllVerified(cfg, cache) && j < |cfg.servers|
    ensures VerifyUserSecretKey(cfg.suite, key, fullId, cfg.servers[j].publicKey) ==>
      AllVerified(cfg, cache[(fullId, cfg.servers[j].objectId) := key])
  {
    hide VerifyUserSecretKey;
  }

  lemma {:induction false} CachedPartition(cfg: Config, cache: KeyStore, fullIds: seq<bytes>, n: nat)
    requires n <= |cfg.servers|
    ensures multiset(Cached(cfg, cache, fullIds, n, true)) + multiset(Cached(cfg, cache, fullIds, n, false))
      == multiset(ObjectIds(cfg.servers)[..n])
    ensures cfg.TotalWeight(Cached(cfg, cache, fullIds, n, true))
          + cfg.TotalWeight(Cached(cfg, cache, fullIds, n, false))
      == cfg.TotalWeight(ObjectIds(cfg.servers)[..n])
  {
    if n == 0 {
      assert ObjectIds(cfg.servers)[..0] == [];
    } else {
      CachedPartition(cfg, cache, fullIds, n - 1);
      var t, f := Cached(cfg, cache, fullIds, n - 1, true), Cached(cfg, cache, fullIds, n - 1, false);
      var ids := ObjectIds(cfg.servers)[..n - 1];
      hide *;
      CachedStep(cfg, cache, fullIds, n);
      JoinOne(cfg, t, f, ids, cfg.servers[n - 1].objectId, HasAll(cache, fullIds, cfg.servers[n - 1].objectId));
    }
  }

  // Joining a server to one list and to the whole.
  lemma JoinOne(cfg: Config, t: seq<bytes>, f: seq<bytes>, ids: seq<bytes>, id: bytes, has: bool)
    requires multiset(t) + multiset(f) == multiset(ids)
    requires cfg.TotalWeight(t) + cfg.TotalWeight(f) == cfg.TotalWeight(ids)
    ensures multiset(if has then t + [id] else t) + multiset(if has then f else f + [id]) == multiset(ids + [id])
    ensures cfg.TotalWeight(if has then t + [id] else t) + cfg.TotalWeight(if has then f else f + [id])
      == cfg.TotalWeight(ids + [id])
  {
    WeightSnoc(cfg, t, id);
    WeightSnoc(cfg, f, id);
    WeightSnoc(cfg, ids, id);
    hide *;
  }

  // The n-th server joins one of the two lists.
  lemma CachedStep(cfg: Config, cache: KeyStore, fullIds: seq<bytes>, n: nat)
    requires 0 < n <= |cfg.servers|
    ensures var id, has := cfg.servers[n - 1].objectId, HasAll(cache, fullIds, cfg.servers[n - 1].objectId);
      var t, f := Cached(cfg, cache, fullIds, n - 1, true), Cached(cfg, cache, fullIds, n - 1, false);
      && Cached(cfg, cache, fullIds, n, true) == (if has then t + [id] else t)
      && Cached(cfg, cache, fullIds, n, false) == (if has then f else f + [id])
      && ObjectIds(cfg.servers)[..n] == ObjectIds(cfg.servers)[..n - 1] + [id]
  {
    hide HasAll;
  }

  lemma WeightSnoc(cfg: Config, ids: seq<bytes>, id: bytes)
    ensures cfg.TotalWeight(ids + [id]) == cfg.TotalWeight(ids) + cfg.Weight(id)
  {
    assert (ids + [id])[..|ids|] == ids;
  }

  // A started call satisfies the invariant unless the cache already answers it.
  lemma StartInv(cfg: Config, cache: KeyStore, fullIds: seq<bytes>, threshold: int)
    requires cfg.Valid() && AllVerified(cfg, cache)
    requires threshold <= cfg.TotalWeight(ObjectIds(cfg.servers))
    requires Start(cfg, cache, fullIds).completedWeight < threshold
    ensures Inv(cfg, cache, fullIds, threshold, Start(cfg, cache, fullIds))
  {
    StartAccounted(cfg, cache, fullIds);
    WeightNonNegative(cfg, Start(cfg, cache, fullIds).pending);
    StartReachable(cfg, cache, fullIds);
    hide HasAll, AllVerified, Cached, ObjectIds, Config.TotalWeight, Config.Valid, Accounted;
    var call := Start(cfg, cache, fullIds);
    assert call.completedWeight + call.remainingWeight == cfg.TotalWeight(ObjectIds(cfg.servers));
    assert AbortExact(threshold, call);
  }

  lemma StartReachable(cfg: Config, cache: KeyStore, fullIds: seq<bytes>)
    ensures var call := Start(cfg, cache, fullIds);
      call.completedWeight + call.remainingWeight == cfg.TotalWeight(ObjectIds(cfg.servers))
  {
    CachedPartition(cfg, cache, fullIds, |cfg.servers|);
    assert ObjectIds(cfg.servers)[..|cfg.servers|] == ObjectIds(cfg.servers);
  }

  lemma StartAccounted(cfg: Config, cache: KeyStore, fullIds: seq<bytes>)
    ensures Accounted(cfg, Start(cfg, cache, fullIds))
  {
    CachedPartition(cfg, cache, fullIds, |cfg.servers|);
    var ids := ObjectIds(cfg.servers);
    assert ids[..|cfg.servers|] == ids;
    hide HasAll, Cached, ObjectIds, Config.TotalWeight;
    var t, f := Cached(cfg, cache, fullIds, |cfg.servers|, true), Cached(cfg, cache, fullIds, |cfg.servers|, false);
    assert multiset(t) + multiset(f) + multiset([]) == multiset(t) + multiset(f);
  }

  // A settlement of any pending server with any response, at any time, keeps the invariant.
  lemma SettleInv(cfg: Config, cache: KeyStore, fullIds: seq<bytes>, threshold: int, call: Call, i: nat, j: nat,
                  response: Response)
    requires Inv(cfg, cache, fullIds, threshold, call)
    requires i < |call.pending| && j < |cfg.servers| && cfg.servers[j].objectId == call.pending[i]
    ensures var next := Settle(cfg, cache, fullIds, threshold, call, i, cfg.servers[j], response);
      Inv(cfg, next.0, fullIds, threshold, next.1) && Grows(cache, next.0)
  {
    hide AllVerified, AddKeys, VerifyUserSecretKey, HasAll, Accounted, AbortExact, Without, Moves;
    if response.Answered? {
      AddKeysVerified(cfg, cache, j, response.keys);
    }
    var next := Settle(cfg, cache, fullIds, threshold, call, i, cfg.servers[j], response);
    SettleMoves(cfg, cache, fullIds, threshold, call, i, cfg.servers[j], response);
    var completed := Moves(cfg, threshold, call, i, next.1, true);
    MovesAccounted(cfg, threshold, call, i, next.1, completed);
    MovesAbort(cfg, threshold, call, i, next.1, completed);
    forall id | id in next.1.counted
      ensures HasAll(next.0, fullIds, id)
    {
      if id in call.counted {
        GrowsHas(cache, next.0, fullIds, id);
      }
    }
  }

  lemma GrowsHas(cache: KeyStore, next: KeyStore, fullIds: seq<bytes>, id: bytes)
    requires Grows(cache, next) && HasAll(cache, fullIds, id)
    ensures HasAll(next, fullIds, id)
  {
  }

  // What a settlement does to the counters: completed says whether the server is counted.
  ghost predicate Moves(cfg: Config, threshold: int, call: Call, i: nat, next: Call, completed: bool)
    requires i < |call.pending|
  {
    var id := call.pending[i];
    && next.pending == Without(call.pending, i)
    && next.counted == (if completed then call.counted + [id] else call.counted)
    && next.failed == (if completed then call.failed else call.failed + [id])
    && next.completedWeight == (if completed then call.completedWeight + cfg.Weight(id) else call.completedWeight)
    && next.remainingWeight == call.remainingWeight - cfg.Weight(id)
    && next.abort == AbortAfter(call.abort, completed, next.completedWeight, next.remainingWeight, threshold)
  }

  lemma SettleMoves(cfg: Config, cache: KeyStore, fullIds: seq<bytes>, threshold: int, call: Call, i: nat,
                    server: KeyServer, response: Response)
    requires cfg.suite.order > 0 && i < |call.pending| && server.objectId == call.pending[i]
    ensures var next := Settle(cfg, cache, fullIds, threshold, call, i, server, response).1;
      Moves(cfg, threshold, call, i, next, true) || Moves(cfg, threshold, call, i, next, false)
  {
    hide AddKeys, HasAll, Without, VerifyUserSecretKey, AbortAfter, Config.Weight;
  }

  lemma MovesAccounted(cfg: Config, threshold: int, call: Call, i: nat, next: Call, completed: bool)
    requires Accounted(cfg, call) && i < |call.pending| && Moves(cfg, threshold, call, i, next, completed)
    ensures Accounted(cfg, next)
  {
    hide Without, Config.TotalWeight, AbortAfter, Config.Weight, ObjectIds, Moves, Weighed, Listed;
    MovesWeighed(cfg, threshold, call, i, next, completed);
    MovesListed(cfg, threshold, call, i, next, completed);
  }

  lemma MovesWeighed(cfg: Config, threshold: int, call: Call, i: nat, next: Call, completed: bool)
    requires Weighed(cfg, call) && i < |call.pending| && Moves(cfg, threshold, call, i, next, completed)
    ensures Weighed(cfg, next)
  {
    WeightWithout(cfg, call.pending, i);
    WeightSnoc(cfg, call.counted, call.pending[i]);
    hide Without, Config.TotalWeight, AbortAfter, Config.Weight;
  }

  lemma MovesListed(cfg: Config, threshold: int, call: Call, i: nat, next: Call, completed: bool)
    requires i < |call.pending| && Moves(cfg, threshold, call, i, next, completed)
    ensures Listed(next) == Listed(call)
  {
    Moved(call.counted, call.pending, call.failed, i);
    hide Without, AbortAfter, Config.Weight;
  }

  lemma MovesAbort(cfg: Config, threshold: int, call: Call, i: nat, next: Call, completed: bool)
    requires Accounted(cfg, call) && AbortExact(threshold, call)
    requires i < |call.pending| && Moves(cfg, threshold, call, i, next, completed)
    ensures AbortExact(threshold, next)
  {
    WeightWithout(cfg, call.pending, i);
    WeightNonNegative(cfg, Without(call.pending, i));
    var w := cfg.Weight(call.pending[i]);
    assert w <= call.remainingWeight;
    hide Without, Config.TotalWeight, Config.Weight, AbortAfter, Accounted;
    AbortStep(threshold, call.abort, call.completedWeight, call.remainingWeight, w, completed);
  }

  // One settlement of weight w keeps the signal exact.
  lemma AbortStep(threshold: int, abort: Abort, completed: nat, remaining: int, w: nat, counted: bool)
    requires w <= remaining
    requires abort == Reached <==> completed >= threshold
    requires abort == TooManyFailed <==> completed + remaining < threshold
    ensures var done := if counted then completed + w else completed;
      var next := AbortAfter(abort, counted, done, remaining - w, threshold);
      && (next == Reached <==> done >= threshold)
      && (next == TooManyFailed <==> done + (remaining - w) < threshold)
  {
  }

  // Other calls and steps may add verified keys in between.
  lemma EnvironmentInv(cfg: Config, cache: KeyStore, other: KeyStore, fullIds: seq<bytes>, threshold: int, call: Call)
    requires Inv(cfg, cache, fullIds, threshold, call) && AllVerified(cfg, other) && Grows(cache, other)
    ensures Inv(cfg, other, fullIds, threshold, call)
  {
    hide AllVerified, Accounted, AbortExact, HasAll;
    forall id | id in call.counted
      ensures HasAll(other, fullIds, id)
    {
      GrowsHas(cache, other, fullIds, id);
    }
  }

  // ---------- Whole runs ----------

  // A step of a run: a settlement, or keys cached by another call in between.
  datatype Event = Settled(i: nat, j: nat, response: Response) | Environment(cache: KeyStore)

  ghost predicate CanStep(cfg: Config, cache: KeyStore, call: Call, e: Event)
    requires cfg.suite.order > 0
  {
    match e
    case Settled(i, j, _) => i < |call.pending| && j < |cfg.servers| && cfg.servers[j].objectId == call.pending[i]
    case Environment(other) => AllVerified(cfg, other) && Grows(cache, other)
  }

  function Step(cfg: Config, cache: KeyStore, fullIds: seq<bytes>, threshold: int, call: Call, e: Event)
    : (KeyStore, Call)
    requires cfg.suite.order > 0 && (e.Settled? ==> e.i < |call.pending| && e.j < |cfg.servers|)
  {
    match e
    case Settled(i, j, response) => Settle(cfg, cache, fullIds, threshold, call, i, cfg.servers[j], response)
    case Environment(other) => (other, call)
  }

  // The state after the events, if each can happen when its turn comes.
  ghost function Run(cfg: Config, cache: KeyStore, fullIds: seq<bytes>, threshold: int, call: Call, events: seq<Event>)
    : Option<(KeyStore, Call)>
    requires cfg.suite.order > 0
    decreases |events|
  {
    if events == [] then Some((cache, call))
    else if !CanStep(cfg, cache, call, events[0]) then None
    else
      var next := Step(cfg, cache, fullIds, threshold, call, events[0]);
      Run(cfg, next.0, fullIds, threshold, next.1, events[1..])
  }

  // Every run, whatever the order of settlements and whatever other calls cache in between, keeps
  // the invariant; what can still be reached never grows.
  lemma {:induction false} RunInv(cfg: Config, cache: KeyStore, fullIds: seq<bytes>, threshold: int, call: Call,
                                  events: seq<Event>)
    requires Inv(cfg, cache, fullIds, threshold, call)
    requires Run(cfg, cache, fullIds, threshold, call, events).Some?
    ensures var end := Run(cfg, cache, fullIds, threshold, call, events).value;
      && Inv(cfg, end.0, fullIds, threshold, end.1)
      && Grows(cache, end.0)
      && end.1.completedWeight >= call.completedWeight
      && end.1.completedWeight + end.1.remainingWeight <= call.completedWeight + call.remainingWeight
    decreases |events|
  {
    if events != [] {
      var e := events[0];
      var next := Step(cfg, cache, fullIds, threshold, call, e);
      StepInv(cfg, cache, fullIds, threshold, call, e);
      hide Inv, Step, CanStep;
      RunInv(cfg, next.0, fullIds, threshold, next.1, events[1..]);
    }
  }

  lemma StepInv(cfg: Config, cache: KeyStore, fullIds: seq<bytes>, threshold: int, call: Call, e: Event)
    requires Inv(cfg, cache, fullIds, threshold, call) && CanStep(cfg, cache, call, e)
    ensures var next := Step(cfg, cache, fullIds, threshold, call, e);
      && Inv(cfg, next.0, fullIds, threshold, next.1)
      && Grows(cache, next.0)
      && next.1.completedWeight >= call.completedWeight
      && next.1.completedWeight + next.1.remainingWeight <= call.completedWeight + call.remainingWeight
  {
    hide AllVerified, HasAll, Config.TotalWeight, AddKeys, Accounted, Without;
    match e
    case Settled(i, j, response) => SettleInv(cfg, cache, fullIds, threshold, call, i, j, response);
    case Environment(other) => EnvironmentInv(cfg, cache, other, fullIds, threshold, call);
  }

  // The failure abort fires exactly when the threshold is out of reach, and then no continuation
  // of the call reaches it.
  lemma FailureAbortIsFinal(cfg: Config, cache: KeyStore, fullIds: seq<bytes>, threshold: int, call: Call,
                            events: seq<Event>)
    requires Inv(cfg, cache, fullIds, threshold, call)
    requires Run(cfg, cache, fullIds, threshold, call, events).Some?
    ensures var end := Run(cfg, cache, fullIds, threshold, call, events).value.1;
      call.abort == TooManyFailed ==> end.abort == TooManyFailed && end.completedWeight < threshold
  {
    hide AllVerified, HasAll, Run, Grows;
    RunInv(cfg, cache, fullIds, threshold, call, events);
    var end := Run(cfg, cache, fullIds, threshold, call, events).value.1;
    WeightNonNegative(cfg, end.pending);
  }

  lemma WeightNonNegative(cfg: Config, ids: seq<bytes>)
    ensures cfg.TotalWeight(ids) >= 0
  {
  }

  // ---------- Enough shares to decrypt ----------

  // #validateEncryptionServices: the configured servers among the object's have the configured
  // multiplicity, and the threshold is within the total weight.
  predicate ServicesAccepted(cfg: Config, services: seq<bytes>, threshold: int) {
    && (forall i | 0 <= i < |services| ::
        cfg.Weight(services[i]) > 0 ==> cfg.Weight(services[i]) == multiset(services)[services[i]])
    && threshold <= cfg.TotalWeight(ObjectIds(cfg.servers))
  }

  // The shares of an object that belong to the given servers.
  function Occurrences(ids: seq<bytes>, services: seq<bytes>): nat {
    if ids == [] then 0 else Occurrences(ids[..|ids| - 1], services) + multiset(services)[ids[|ids| - 1]]
  }

  lemma {:induction false} OccurrencesEmpty(ids: seq<bytes>)
    ensures Occurrences(ids, []) == 0
  {
    if ids != [] {
      OccurrencesEmpty(ids[..|ids| - 1]);
    }
  }

  lemma {:induction false} OccurrencesSnoc(ids: seq<bytes>, services: seq<bytes>, x: bytes)
    ensures Occurrences(ids, services + [x]) == Occurrences(ids, services) + multiset(ids)[x]
  {
    if ids != [] {
      OccurrencesSnoc(ids[..|ids| - 1], services, x);
      assert ids == ids[..|ids| - 1] + [ids[|ids| - 1]];
    }
  }

  ghost predicate Distinct(ids: seq<bytes>) {
    forall x :: multiset(ids)[x] <= 1
  }

  // The keystore holds at least the shares of the servers it has keys for.
  lemma {:induction false} KeystoreCovers(services: seq<Service>, cache: KeyStore, fullId: bytes, ids: seq<bytes>,
                                          n: nat)
    requires n <= |services| && Distinct(ids) && forall id | id in ids :: (fullId, id) in cache
    ensures |InKeystore(services, cache, fullId, n)| >= Occurrences(ids, ServiceIds(services)[..n])
  {
    var all := ServiceIds(services);
    if n == 0 {
      assert all[..0] == [];
      OccurrencesEmpty(ids);
    } else {
      var x := services[n - 1].objectId;
      KeystoreCovers(services, cache, fullId, ids, n - 1);
      assert all[..n] == all[..n - 1] + [x];
      OccurrencesSnoc(ids, all[..n - 1], x);
      assert x in ids <==> multiset(ids)[x] > 0;
    }
  }

  lemma CountedDistinct(cfg: Config, call: Call)
    requires cfg.Valid() && Accounted(cfg, call)
    ensures Distinct(call.counted)
  {
    var ids := ObjectIds(cfg.servers);
    forall x
      ensures multiset(call.counted)[x] <= 1
    {
      DistinctCount(ids, x);
    }
  }

  lemma {:induction false} DistinctCount(ids: seq<bytes>, x: bytes)
    requires forall i, j | 0 <= i < j < |ids| :: ids[i] != ids[j]
    ensures multiset(ids)[x] <= 1
  {
    if ids != [] {
      var front := ids[..|ids| - 1];
      DistinctCount(front, x);
      assert ids == front + [ids[|ids| - 1]];
      if ids[|ids| - 1] == x {
        assert x !in front;
      }
    }
  }

  lemma CompletedWeightIs(cfg: Config, call: Call)
    requires Accounted(cfg, call)
    ensures call.completedWeight == cfg.TotalWeight(call.counted)
  {
  }

  // Decryption lacks shares exactly when the keystore covers fewer than the threshold.
  lemma NotEnoughIff(suite: Suite, obj: EncryptedObject, cache: KeyStore, publicKeys: Option<seq<G2>>, checkLE: bool)
    requires suite.order > 0
    ensures Decrypt(suite, obj, cache, publicKeys, checkLE) == Err(NotEnoughShares)
      <==> |obj.packageId| == ADDRESS_LENGTH
           && |InKeystore(obj.services, cache, obj.packageId + obj.id, |obj.services|)| < obj.threshold
  {
    hide InKeystore, DecryptShares, Finish, Shamir.Combine;
    var fullId := obj.packageId + obj.id;
    if CreateFullId(obj.packageId, obj.id).Ok? && |obj.encryptedShares| == |obj.services|
      && suite.decodeG2(obj.nonce).Some? {
      var nonce := suite.decodeG2(obj.nonce).value;
      var indices := InKeystore(obj.services, cache, fullId, |obj.services|);
      SharesNotMissing(suite, obj, cache, fullId, nonce, indices);
      var shares := DecryptShares(suite, obj, cache, fullId, nonce, indices);
      if shares.Ok? && Shamir.Combine(shares.value).Ok? {
        FinishNotMissing(suite, obj, publicKeys, checkLE, nonce, fullId, shares.value,
                         Shamir.Combine(shares.value).value);
      }
    }
  }

  lemma {:induction false} SharesNotMissing(suite: Suite, obj: EncryptedObject, cache: KeyStore, fullId: bytes,
                                            nonce: G2, indices: seq<nat>)
    requires suite.order > 0 && |obj.encryptedShares| == |obj.services|
    requires forall k | 0 <= k < |indices| ::
      indices[k] < |obj.services| && (fullId, obj.services[indices[k]].objectId) in cache
    ensures DecryptShares(suite, obj, cache, fullId, nonce, indices) != Err(NotEnoughShares)
  {
    hide UnmaskShare, Suite.Pairing;
    if |indices| > 0 {
      var last := |indices| - 1;
      SharesNotMissing(suite, obj, cache, fullId, nonce, indices[..last]);
      var i := indices[last];
      var element := suite.Pairing(cache[(fullId, obj.services[i].objectId)], nonce);
      UnmaskNotMissing(suite, element, nonce, fullId, obj.services[i], obj.encryptedShares[i]);
    }
  }

  lemma UnmaskNotMissing(suite: Suite, element: GT, nonce: G2, fullId: bytes, service: Service, encrypted: bytes)
    ensures UnmaskShare(suite, element, nonce, fullId, service, encrypted) != Err(NotEnoughShares)
  {
    hide Xor;
  }

  lemma {:induction false} AllSharesNotMissing(suite: Suite, r: nat, obj: EncryptedObject, publicKeys: seq<G2>,
                                               nonce: G2, fullId: bytes, n: nat)
    requires suite.order > 0 && n <= |obj.services| == |obj.encryptedShares| == |publicKeys|
    ensures DecryptAllShares(suite, r, obj, publicKeys, nonce, fullId, n) != Err(NotEnoughShares)
  {
    hide UnmaskShare, EncapKey;
    if n > 0 {
      AllSharesNotMissing(suite, r, obj, publicKeys, nonce, fullId, n - 1);
      UnmaskNotMissing(suite, EncapKey(suite, publicKeys[n - 1], fullId, r), nonce, fullId, obj.services[n - 1],
                       obj.encryptedShares[n - 1]);
    }
  }

  lemma ConsistencyNotMissing(suite: Suite, obj: EncryptedObject, publicKeys: seq<G2>, nonce: G2, fullId: bytes,
                              shares: seq<Shamir.Share>, randomness: bytes)
    requires suite.order > 0 && |obj.encryptedShares| == |obj.services|
    ensures CheckConsistency(suite, obj, publicKeys, nonce, fullId, shares, randomness) != Err(NotEnoughShares)
  {
    hide DecryptAllShares, AllOnPolynomials, Shamir.Interpolate, DecodeScalar;
    if |publicKeys| == |obj.services| && DecodeScalar(suite, randomness, true).Some? {
      AllSharesNotMissing(suite, DecodeScalar(suite, randomness, true).value, obj, publicKeys, nonce, fullId,
                          |obj.services|);
    }
  }

  lemma FinishNotMissing(suite: Suite, obj: EncryptedObject, publicKeys: Option<seq<G2>>, checkLE: bool, nonce: G2,
                         fullId: bytes, shares: seq<Shamir.Share>, baseKey: bytes)
    requires suite.order > 0 && |obj.encryptedShares| == |obj.services|
    ensures Finish(suite, obj, publicKeys, checkLE, nonce, fullId, shares, baseKey) != Err(NotEnoughShares)
  {
    hide CheckConsistency, DecodeScalar, Xor, Nonce, Dem.Decrypt;
    var ids := ServiceIds(obj.services);
    var key := DeriveKey(suite, EncryptedRandomness, baseKey, obj.encryptedShares, obj.threshold, ids);
    if publicKeys.Some? && key.Ok? && CheckedXor(obj.encryptedRandomness, key.value).Ok? {
      ConsistencyNotMissing(suite, obj, publicKeys.value, nonce, fullId, shares,
                            CheckedXor(obj.encryptedRandomness, key.value).value);
    }
  }

  // ---------- The client and one call ----------

  lemma OneId(cache: KeyStore, fullId: bytes, id: bytes)
    ensures HasAll(cache, [fullId], id) <==> (fullId, id) in cache
  {
    assert [fullId][0] == fullId;
  }

  class MyDataClient {
    const cfg: Config
    var cachedKeys: KeyStore

    ghost predicate Valid()
      reads this
    {
      cfg.Valid() && AllVerified(cfg, cachedKeys)
    }

    constructor (cfg: Config)
      requires cfg.Valid()
      ensures Valid() && this.cfg == cfg && cachedKeys == map[]
    {
      this.cfg := cfg;
      cachedKeys := map[];
    }

    // The end of getDerivedKeys: cached keys of the servers in order, until their weight reaches
    // the threshold.
    method GetDerivedKeys(fullId: bytes, threshold: int) returns (derived: map<bytes, G1>)
      requires Valid()
      ensures var cached := Cached(cfg, cachedKeys, [fullId], |cfg.servers|, true);
        && Shortest(cfg, cached, threshold, |derived|)
        && derived == KeysFor(cachedKeys, fullId, cached[..|derived|])
        && (1 <= threshold <= cfg.TotalWeight(cached) ==>
            (|derived| == threshold <==> ExactPrefix(cfg, cached, threshold)))
    {
      hide Cached, HasAll, Config.TotalWeight, AllVerified, Config.Valid, KeysFor, Shortest, ExactPrefix;
      derived := map[];
      ghost var cached := Cached(cfg, cachedKeys, [fullId], |cfg.servers|, true);
      ghost var kept: seq<bytes> := [];
      var weight: nat := 0;
      CachedNone(cfg, cachedKeys, [fullId]);
      KeysForNone(cachedKeys, fullId);
      for i := 0 to |cfg.servers|
        invariant kept == Cached(cfg, cachedKeys, [fullId], i, true)
        invariant weight == cfg.TotalWeight(kept) && Unreached(cfg, kept, threshold)
        invariant derived == KeysFor(cachedKeys, fullId, kept)
      {
        var id := cfg.servers[i].objectId;
        OneId(cachedKeys, fullId, id);
        CachedStep(cfg, cachedKeys, [fullId], i + 1);
        if (fullId, id) in cachedKeys {
          WeightSnoc(cfg, kept, id);
          KeysForSnoc(cachedKeys, fullId, kept, id);
          derived := derived[id := cachedKeys[(fullId, id)]];
          ghost var front := kept;
          kept := kept + [id];
          weight := weight + cfg.Weight(id);
          if weight >= threshold {
            StoppedShortest(cfg, cachedKeys, fullId, threshold, i + 1, front, id);
            DerivedCount(cfg, cached, threshold, |derived|);
            return;
          }
          UnreachedSnoc(cfg, front, id, threshold);
        }
      }
      AllShortest(cfg, cachedKeys, fullId, threshold);
      DerivedCount(cfg, cached, threshold, |derived|);
    }
  }

  // The first m of the cached servers are the fewest, but at least one, that weigh the threshold,
  // or all there are.
  ghost predicate Shortest(cfg: Config, cached: seq<bytes>, threshold: int, m: nat) {
    && m <= |cached|
    && Unreached(cfg, cached[..if m == 0 then 0 else m - 1], threshold)
    && (m == |cached| || (m > 0 && cfg.TotalWeight(cached[..m]) >= threshold))
  }

  // No non-empty prefix weighs the threshold.
  ghost predicate Unreached(cfg: Config, ids: seq<bytes>, threshold: int) {
    forall k | 0 < k <= |ids| :: cfg.TotalWeight(ids[..k]) < threshold
  }

  lemma UnreachedSnoc(cfg: Config, ids: seq<bytes>, id: bytes, threshold: int)
    requires Unreached(cfg, ids, threshold) && cfg.TotalWeight(ids + [id]) < threshold
    ensures Unreached(cfg, ids + [id], threshold)
  {
    hide Config.TotalWeight;
    forall k | 0 < k <= |ids + [id]|
      ensures cfg.TotalWeight((ids + [id])[..k]) < threshold
    {
      if k <= |ids| {
        assert (ids + [id])[..k] == ids[..k];
      } else {
        assert (ids + [id])[..k] == ids + [id];
      }
    }
  }

  // The cached servers among the first n begin those among all.
  lemma {:induction false} CachedPrefix(cfg: Config, cache: KeyStore, fullIds: seq<bytes>, n: nat, m: nat)
    requires n <= m <= |cfg.servers|
    ensures Cached(cfg, cache, fullIds, n, true) <= Cached(cfg, cache, fullIds, m, true)
    decreases m
  {
    hide HasAll;
    if n < m {
      CachedPrefix(cfg, cache, fullIds, n, m - 1);
      CachedStep(cfg, cache, fullIds, m);
    }
  }

  lemma CachedOnce(cfg: Config, cache: KeyStore, fullIds: seq<bytes>, n: nat)
    requires cfg.Valid() && n <= |cfg.servers|
    ensures Distinct(Cached(cfg, cache, fullIds, n, true))
  {
    CachedPartition(cfg, cache, fullIds, n);
    var ids, c := ObjectIds(cfg.servers), Cached(cfg, cache, fullIds, n, true);
    forall i, j | 0 <= i < j < |ids[..n]|
      ensures ids[..n][i] != ids[..n][j]
    {
    }
    hide Cached, HasAll, Config.TotalWeight, ObjectIds, Config.Valid;
    SublistDistinct(c, ids[..n]);
  }

  lemma SublistDistinct(a: seq<bytes>, b: seq<bytes>)
    requires multiset(a) <= multiset(b) && forall i, j | 0 <= i < j < |b| :: b[i] != b[j]
    ensures Distinct(a)
  {
    forall x
      ensures multiset(a)[x] <= 1
    {
      DistinctCount(b, x);
      assert multiset(a)[x] <= multiset(b)[x];
    }
  }

  // One key for each server.
  lemma {:induction false} KeysForSize(cache: KeyStore, fullId: bytes, ids: seq<bytes>)
    requires Distinct(ids) && forall id | id in ids :: (fullId, id) in cache
    ensures |KeysFor(cache, fullId, ids)| == |ids|
  {
    if ids == [] {
      KeysForNone(cache, fullId);
    } else {
      var front, last := ids[..|ids| - 1], ids[|ids| - 1];
      assert ids == front + [last];
      forall x
        ensures multiset(front)[x] <= 1 && (x == last ==> x !in front)
      {
        assert multiset(ids)[x] == multiset(front)[x] + multiset{last}[x];
        assert x in front <==> x in multiset(front);
      }
      KeysForSize(cache, fullId, front);
      KeysForSnoc(cache, fullId, front, last);
      hide Distinct;
      assert last !in KeysFor(cache, fullId, front);
    }
  }

  lemma CachedSize(cfg: Config, cache: KeyStore, fullId: bytes, n: nat)
    requires cfg.Valid() && n <= |cfg.servers|
    ensures var ids := Cached(cfg, cache, [fullId], n, true);
      |KeysFor(cache, fullId, ids)| == |ids|
  {
    CachedOnce(cfg, cache, [fullId], n);
    var ids := Cached(cfg, cache, [fullId], n, true);
    forall id | id in ids
      ensures (fullId, id) in cache
    {
      OneId(cache, fullId, id);
    }
    KeysForSize(cache, fullId, ids);
  }

  lemma StoppedShortest(cfg: Config, cache: KeyStore, fullId: bytes, threshold: int, n: nat, front: seq<bytes>,
                        id: bytes)
    requires cfg.Valid() && n <= |cfg.servers|
    requires Cached(cfg, cache, [fullId], n, true) == front + [id]
    requires Unreached(cfg, front, threshold) && cfg.TotalWeight(front + [id]) >= threshold
    ensures var cached := Cached(cfg, cache, [fullId], |cfg.servers|, true);
      var size := |KeysFor(cache, fullId, front + [id])|;
      Shortest(cfg, cached, threshold, size) && cached[..size] == front + [id]
  {
    hide Config.TotalWeight, HasAll, Config.Valid, Unreached, KeysFor;
    CachedSize(cfg, cache, fullId, n);
    CachedPrefix(cfg, cache, [fullId], n, |cfg.servers|);
    hide Cached;
    var cached := Cached(cfg, cache, [fullId], |cfg.servers|, true);
    assert cached[..|front| + 1] == front + [id];
    assert cached[..|front|] == front;
  }

  lemma AllShortest(cfg: Config, cache: KeyStore, fullId: bytes, threshold: int)
    requires cfg.Valid() && Unreached(cfg, Cached(cfg, cache, [fullId], |cfg.servers|, true), threshold)
    ensures var cached := Cached(cfg, cache, [fullId], |cfg.servers|, true);
      var size := |KeysFor(cache, fullId, cached)|;
      Shortest(cfg, cached, threshold, size) && cached[..size] == cached
  {
    hide Config.TotalWeight, HasAll, Config.Valid, KeysFor;
    CachedSize(cfg, cache, fullId, |cfg.servers|);
    hide Cached;
    var cached := Cached(cfg, cache, [fullId], |cfg.servers|, true);
    if cached != [] {
      UnreachedFront(cfg, cached, threshold);
    }
  }

  lemma UnreachedFront(cfg: Config, ids: seq<bytes>, threshold: int)
    requires Unreached(cfg, ids, threshold) && ids != []
    ensures Unreached(cfg, ids[..|ids| - 1], threshold)
  {
    hide Config.TotalWeight;
    var front := ids[..|ids| - 1];
    forall k | 0 < k <= |front|
      ensures cfg.TotalWeight(front[..k]) < threshold
    {
      assert front[..k] == ids[..k];
    }
  }

  // ---------- How many keys are derived ----------

  lemma {:induction false} PrefixWeight(cfg: Config, ids: seq<bytes>, j: nat, k: nat)
    requires j <= k <= |ids|
    ensures cfg.TotalWeight(ids[..j]) <= cfg.TotalWeight(ids[..k])
    decreases k
  {
    if j < k {
      PrefixWeight(cfg, ids, j, k - 1);
      WeightSnoc(cfg, ids[..k - 1], ids[k - 1]);
      assert ids[..k] == ids[..k - 1] + [ids[k - 1]];
    }
  }

  // A prefix shorter than the shortest does not weigh the threshold, a longer one does.
  lemma ShortestAt(cfg: Config, cached: seq<bytes>, threshold: int, m: nat, k: nat)
    requires Shortest(cfg, cached, threshold, m) && k <= |cached|
    requires threshold >= 1 && cfg.TotalWeight(cached) >= threshold
    ensures m <= k <==> cfg.TotalWeight(cached[..k]) >= threshold
  {
    hide Config.TotalWeight;
    assert cached[..|cached|] == cached;
    assert cfg.TotalWeight([]) == 0 by {
      WeightEmpty(cfg);
    }
    assert cached[..0] == [];
    if m <= k {
      PrefixWeight(cfg, cached, m, k);
    } else if k > 0 {
      assert cached[..m - 1][..k] == cached[..k];
    }
  }

  lemma WeightEmpty(cfg: Config)
    ensures cfg.TotalWeight([]) == 0
  {
  }

  // After a fetch whose cached servers weigh the threshold, there are exactly threshold keys, as
  // the documentation promises, exactly when that many servers and not fewer weigh it; the other
  // two clauses say when there are fewer and when there are more.
  lemma DerivedCount(cfg: Config, cached: seq<bytes>, threshold: int, m: nat)
    requires Shortest(cfg, cached, threshold, m)
    ensures 1 <= threshold <= cfg.TotalWeight(cached) ==>
      && (m == threshold <==> ExactPrefix(cfg, cached, threshold))
      && (m < threshold <==> |cached| < threshold || cfg.TotalWeight(cached[..threshold - 1]) >= threshold)
      && (m > threshold <==> |cached| > threshold && cfg.TotalWeight(cached[..threshold]) < threshold)
  {
    hide Config.TotalWeight;
    assert m <= |cached|;
    if 1 <= threshold <= cfg.TotalWeight(cached) && |cached| >= threshold {
      ShortestAt(cfg, cached, threshold, m, threshold);
      ShortestAt(cfg, cached, threshold, m, threshold - 1);
    }
  }

  // The first servers, as many as the threshold and not fewer, weigh it.
  ghost predicate ExactPrefix(cfg: Config, cached: seq<bytes>, threshold: int) {
    && 1 <= threshold <= |cached|
    && cfg.TotalWeight(cached[..threshold]) >= threshold
    && cfg.TotalWeight(cached[..threshold - 1]) < threshold
  }

  lemma {:induction false} UnitWeight(cfg: Config, ids: seq<bytes>)
    requires forall id | id in ids :: cfg.Weight(id) == 1
    ensures cfg.TotalWeight(ids) == |ids|
  {
    if ids != [] {
      assert ids[|ids| - 1] in ids;
      UnitWeight(cfg, ids[..|ids| - 1]);
    }
  }

  // With all weights one there are exactly threshold keys.
  lemma UnitWeightsExact(cfg: Config, cached: seq<bytes>, threshold: int, m: nat)
    requires Shortest(cfg, cached, threshold, m)
    requires threshold >= 1 && cfg.TotalWeight(cached) >= threshold
    requires forall id | id in cached :: cfg.Weight(id) == 1
    ensures m == threshold
  {
    UnitWeight(cfg, cached);
    UnitWeight(cfg, cached[..threshold]);
    UnitWeight(cfg, cached[..threshold - 1]);
    hide Config.TotalWeight, Shortest;
    DerivedCount(cfg, cached, threshold, m);
  }

  lemma {:induction false} LightWeight(cfg: Config, ids: seq<bytes>)
    requires forall id | id in ids :: cfg.Weight(id) <= 1
    ensures cfg.TotalWeight(ids) <= |ids|
    ensures (exists id :: id in ids && cfg.Weight(id) == 0) ==> cfg.TotalWeight(ids) < |ids|
  {
    if ids != [] {
      assert ids == ids[..|ids| - 1] + [ids[|ids| - 1]];
      assert ids[|ids| - 1] in ids;
      LightWeight(cfg, ids[..|ids| - 1]);
    }
  }

  // A server of weight zero among the first ones, with no weight above one, gives more keys.
  lemma ZeroWeightGivesMore(cfg: Config, cached: seq<bytes>, threshold: int, m: nat)
    requires Shortest(cfg, cached, threshold, m)
    requires threshold >= 1 && cfg.TotalWeight(cached) >= threshold
    requires forall id | id in cached :: cfg.Weight(id) <= 1
    requires exists i :: 0 <= i < |cached| && i < threshold && cfg.Weight(cached[i]) == 0
    ensures m > threshold
  {
    LightWeight(cfg, cached);
    var i :| 0 <= i < |cached| && i < threshold && cfg.Weight(cached[i]) == 0;
    assert cached[..threshold][i] in cached[..threshold];
    LightWeight(cfg, cached[..threshold]);
    hide Config.TotalWeight, Shortest;
    DerivedCount(cfg, cached, threshold, m);
  }

  // A first server that weighs a threshold of two or more gives one key.
  lemma HeavyServerGivesOne(cfg: Config, cached: seq<bytes>, threshold: int, m: nat)
    requires Shortest(cfg, cached, threshold, m)
    requires threshold >= 2 && cached != [] && cfg.Weight(cached[0]) >= threshold
    ensures m == 1 && m < threshold
  {
    assert cached[..1] == [cached[0]];
    WeightSingle(cfg, cached[0]);
    PrefixWeight(cfg, cached, 1, |cached|);
    assert cached[..|cached|] == cached && cached[..0] == [];
    WeightEmpty(cfg);
    hide Config.TotalWeight, Shortest;
    ShortestAt(cfg, cached, threshold, m, 1);
    ShortestAt(cfg, cached, threshold, m, 0);
  }

  // The cached keys of some servers for one full ID.
  function KeysFor(cache: KeyStore, fullId: bytes, ids: seq<bytes>): (keys: map<bytes, G1>)
    ensures forall id :: id in keys <==> id in ids && (fullId, id) in cache
    ensures forall id | id in keys :: keys[id] == cache[(fullId, id)]
  {
    map id | id in ids && (fullId, id) in cache :: cache[(fullId, id)]
  }

  lemma KeysForNone(cache: KeyStore, fullId: bytes)
    ensures KeysFor(cache, fullId, []) == map[]
  {
  }

  lemma KeysForSnoc(cache: KeyStore, fullId: bytes, ids: seq<bytes>, id: bytes)
    requires (fullId, id) in cache
    ensures KeysFor(cache, fullId, ids + [id]) == KeysFor(cache, fullId, ids)[id := cache[(fullId, id)]]
  {
  }

  lemma CachedNone(cfg: Config, cache: KeyStore, fullIds: seq<bytes>)
    ensures Cached(cfg, cache, fullIds, 0, true) == Cached(cfg, cache, fullIds, 0, false) == []
    ensures cfg.TotalWeight([]) == 0
  {
  }

  // The documentation promises exactly threshold keys; a single server of weight two answers a
  // threshold of two with one key.
  lemma FewerKeysThanThreshold(suite: Suite, a: bytes, pk: G2, fullId: bytes, key: G1)
    ensures var cfg := Config(suite, map[a := 2], [KeyServer(a, pk)]);
      var cache: KeyStore := map[(fullId, a) := key];
      var ids := Cached(cfg, cache, [fullId], 1, true);
      && cfg.TotalWeight(ids) == 2
      && (forall m :: Shortest(cfg, ids, 2, m) ==> m == 1)
      && KeysFor(cache, fullId, ids[..1]) == map[a := key]
  {
    var cfg := Config(suite, map[a := 2], [KeyServer(a, pk)]);
    var cache: KeyStore := map[(fullId, a) := key];
    OneId(cache, fullId, a);
    hide HasAll, Shortest;
    assert Cached(cfg, cache, [fullId], 0, true) == [];
    assert Cached(cfg, cache, [fullId], 1, true) == [] + [a] == [a];
    hide Cached;
    WeightSingle(cfg, a);
    assert cfg.Weight(a) == 2;
    hide Config.TotalWeight, Config.Weight;
    assert KeysFor(cache, fullId, [a]) == map[a := key];
    hide KeysFor;
    assert [a][..1] == [a];
    forall m | Shortest(cfg, [a], 2, m)
      ensures m == 1
    {
      HeavyServerGivesOne(cfg, [a], 2, m);
    }
  }

  class FetchKeysCall {
    const client: MyDataClient
    const fullIds: seq<bytes>
    const threshold: int
    var remainingKeyServers: seq<bytes>
    var completedWeight: nat
    var remainingKeyServersWeight: int
    var abort: Abort
    var errors: seq<nat>
    ghost var counted: seq<bytes>
    ghost var failed: seq<bytes>

    ghost function State(): Call
      reads this
    {
      Call(counted, remainingKeyServers, failed, completedWeight, remainingKeyServersWeight, abort, errors)
    }

    // The loop that counts the servers the cache already answers for.
    constructor (client: MyDataClient, fullIds: seq<bytes>, threshold: int)
      requires client.Valid()
      ensures this.client == client && this.fullIds == fullIds && this.threshold == threshold
      ensures State() == Start(client.cfg, client.cachedKeys, fullIds)
    {
      hide Cached, HasAll, Config.TotalWeight, AllVerified, Config.Valid;
      var cfg, cache := client.cfg, client.cachedKeys;
      var done: seq<bytes>, remaining: seq<bytes> := [], [];
      var completed: nat, weight: nat := 0, 0;
      CachedNone(cfg, cache, fullIds);
      for i := 0 to |cfg.servers|
        invariant done == Cached(cfg, cache, fullIds, i, true) && completed == cfg.TotalWeight(done)
        invariant remaining == Cached(cfg, cache, fullIds, i, false) && weight == cfg.TotalWeight(remaining)
      {
        var objectId := cfg.servers[i].objectId;
        CachedStep(cfg, cache, fullIds, i + 1);
        if HasAll(cache, fullIds, objectId) {
          WeightSnoc(cfg, done, objectId);
          completed := completed + cfg.Weight(objectId);
          done := done + [objectId];
        } else {
          WeightSnoc(cfg, remaining, objectId);
          remaining := remaining + [objectId];
          weight := weight + cfg.Weight(objectId);
        }
      }
      this.client, this.fullIds, this.threshold := client, fullIds, threshold;
      completedWeight, remainingKeyServersWeight, abort, errors := completed, weight, Running, [];
      remainingKeyServers, counted, failed := remaining, done, [];
    }

    // The loop over a server's keys; false when it throws.
    method CacheKeys(server: KeyServer, keys: seq<Received>) returns (done: bool)
      requires client.cfg.suite.order > 0
      modifies client`cachedKeys
      ensures (client.cachedKeys, done) == AddKeys(client.cfg.suite, old(client.cachedKeys), server, keys)
    {
      hide VerifyUserSecretKey;
      assert keys[0..] == keys;
      for i := 0 to |keys|
        invariant AddKeys(client.cfg.suite, old(client.cachedKeys), server, keys)
          == AddKeys(client.cfg.suite, client.cachedKeys, server, keys[i..])
      {
        var rest := keys[i..];
        assert rest[0] == keys[i] && rest[1..] == keys[i + 1..];
        if keys[i].key.None? {
          return false;
        }
        var key := keys[i].key.value;
        if VerifyUserSecretKey(client.cfg.suite, key, keys[i].fullId, server.publicKey) {
          client.cachedKeys := client.cachedKeys[(keys[i].fullId, server.objectId) := key];
        }
      }
      return true;
    }

    // What one handler does when its request has settled.
    method Settled(i: nat, server: KeyServer, response: Response)
      requires client.cfg.suite.order > 0 && i < |remainingKeyServers|
      modifies this, client`cachedKeys
      ensures (client.cachedKeys, State())
        == Settle(client.cfg, old(client.cachedKeys), fullIds, threshold, old(State()), i, server, response)
    {
      hide VerifyUserSecretKey, AddKeys, HasAll;
      var w := client.cfg.Weight(server.objectId);
      var added := false;
      if response.Answered? {
        added := CacheKeys(server, response.keys);
      }
      if added && HasAll(client.cachedKeys, fullIds, server.objectId) {
        completedWeight := completedWeight + w;
        counted := counted + [server.objectId];
        if completedWeight >= threshold && abort == Running {
          abort := Reached;
        }
      } else {
        if !added && abort == Running {
          errors := errors + [if response.Rejected? then response.kind else DECODE_ERROR];
        }
        failed := failed + [server.objectId];
      }
      remainingKeyServers := Without(remainingKeyServers, i);
      remainingKeyServersWeight := remainingKeyServersWeight - w;
      if remainingKeyServersWeight < threshold - completedWeight && abort == Running {
        abort := TooManyFailed;
      }
    }

    // What follows once every request has settled.
    method Finish() returns (r: Outcome<FetchError>)
      ensures r.Pass? <==> completedWeight >= threshold
      ensures r.Fail? && errors == [] ==> r.error == MajorityError(None)
      ensures r.Fail? && errors != [] ==> exists e :: r.error == MajorityError(Some(e)) && IsMajority(errors, e)
    {
      if completedWeight < threshold {
        var e := ToMajorityError(errors);
        return Fail(MajorityError(e));
      }
      return Pass;
    }
  }

  // The start of fetchKeys: the threshold check, and an early return when the cache has enough.
  method Begin(client: MyDataClient, fullIds: seq<bytes>, threshold: int)
    returns (r: Result<Option<FetchKeysCall>, FetchError>)
    requires client.Valid()
    ensures r.Ok? <==> 1 <= threshold <= client.cfg.TotalWeight(ObjectIds(client.cfg.servers))
    ensures r.Err? ==> r == Err(InvalidThreshold)
    ensures r.Ok? ==> (r.value.None? <==> Start(client.cfg, client.cachedKeys, fullIds).completedWeight >= threshold)
    ensures r.Ok? && r.value.Some? ==> fresh(r.value.value) && r.value.value.client == client
    ensures r.Ok? && r.value.Some? ==> Inv(client.cfg, client.cachedKeys, fullIds, threshold, r.value.value.State())
  {
    hide Cached, AllVerified, HasAll, Config.TotalWeight, Inv;
    var total := client.cfg.TotalWeight(ObjectIds(client.cfg.servers));
    if threshold > total || threshold < 1 {
      return Err(InvalidThreshold);
    }
    var call := new FetchKeysCall(client, fullIds, threshold);
    if call.completedWeight >= threshold {
      return Ok(None);
    }
    StartInv(client.cfg, client.cachedKeys, fullIds, threshold);
    return Ok(Some(call));
  }

  // No kind of error is more frequent.
  ghost predicate IsMajority(errors: seq<nat>, e: nat) {
    e in errors && forall k :: multiset(errors)[k] <= multiset(errors)[e]
  }

  // After i errors the kind has all its occurrences, and every other kind has fewer.
  ghost predicate FirstToReach(errors: seq<nat>, kind: nat, i: nat) {
    && i <= |errors| && multiset(errors[..i])[kind] == multiset(errors)[kind]
    && forall k | k != kind :: multiset(errors[..i])[k] < multiset(errors)[kind]
  }

  // toMajorityError: nothing when there are no errors.
  method ToMajorityError(errors: seq<nat>) returns (majority: Option<nat>)
    ensures errors == [] ==> majority == None
    ensures errors != [] ==> majority.Some? && IsMajority(errors, majority.value)
    ensures errors != [] ==> exists i: nat :: FirstToReach(errors, majority.value, i)
  {
    if errors == [] {
      return None;
    }
    var maxCount := 0;
    var majorityError := errors[0];
    var counts: map<nat, nat> := map[];
    ghost var at: nat := 0;
    for i := 0 to |errors|
      invariant forall k :: (if k in counts then counts[k] else 0) == multiset(errors[..i])[k]
      invariant maxCount == multiset(errors[..i])[majorityError]
      invariant forall k :: multiset(errors[..i])[k] <= maxCount
      invariant majorityError in errors
      invariant at <= i && (i > 0 ==> at > 0)
      invariant at > 0 ==> multiset(errors[..at])[majorityError] == maxCount
      invariant at > 0 ==> forall k | k != majorityError :: multiset(errors[..at])[k] < maxCount
    {
      var e := errors[i];
      assert errors[..i + 1] == errors[..i] + [e];
      var newCount := (if e in counts then counts[e] else 0) + 1;
      counts := counts[e := newCount];
      if newCount > maxCount {
        maxCount := newCount;
        majorityError := e;
        at := i + 1;
      }
    }
    assert errors[..|errors|] == errors;
    assert FirstToReach(errors, majorityError, at);
    return Some(majorityError);
  }
}
