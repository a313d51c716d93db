/**
  The gRPC service of pkg/server/server.go. AES-GCM is an abstract authenticated cipher (NIST
  SP 800-38D, section 7); keys, random bytes, the peer address, clock readings and how each
  persist ends are inputs. `Unseal` is written as one uninterrupted call; what may happen
  between its two store operations is the subject of module UnsealProtocol.
 */
module Servers {
  import opened Options
  import opened Wire
  import opened Lease
  import opened Durability
  import opened UnsealProtocol
  import opened StoreEffects
  import opened LeaseStores

  const PASSPHRASE_SIZE: nat := 32
  const KEY_SIZE: nat := 32
  const BLOCK_SIZE: nat := 16
  const NONCE_SIZE: nat := 12

  datatype Aead = Aead(seal: (bytes, bytes, bytes) -> bytes, open: (bytes, bytes, bytes) -> Option<bytes>)

  /** Opening undoes sealing under the same key and nonce, and a sealed text is one tag longer. */
  ghost predicate Lawful(a: Aead) {
    && (forall key, nonce, text :: a.open(key, nonce, a.seal(key, nonce, text)) == Some(text))
    && (forall key, nonce, text :: |a.seal(key, nonce, text)| == |text| + BLOCK_SIZE)
    && (forall key, nonce, sealed :: a.open(key, nonce, sealed).Some? ==>
          |sealed| == |a.open(key, nonce, sealed).value| + BLOCK_SIZE)
  }

  datatype RpcError =
    | Cancelled
    | InvalidArgument
    | PermissionDenied
    | Unauthenticated
    | FailedPrecondition
    | Internal
    | BadKey
    | NoRandomness

  datatype Result<T> = Ok(value: T) | Err(error: RpcError)

  /** One reading of the random source, as far as anyone reads; `None` if it fails. */
  type Randomness = Option<nat -> byte>

  function Draw(source: nat -> byte, n: nat): (r: bytes)
    ensures |r| == n
  {
    seq(n, i requires 0 <= i < n => source(i))
  }

  /** The node's key, or a random one if there is none; then the cipher's own check. */
  function PickKey(key: Option<bytes>, randomKey: Randomness): Result<bytes> {
    match key
    case Some(k) => if |k| == 16 || |k| == 24 || |k| == 32 then Ok(k) else Err(BadKey)
    case None => if randomKey.None? then Err(NoRandomness) else Ok(Draw(randomKey.value, KEY_SIZE))
  }

  function Seal(a: Aead, uuid: string, data: bytes, key: Option<bytes>, randomKey: Randomness, nonce: Randomness): Result<bytes> {
    if uuid == "" then Err(InvalidArgument)
    else
      match PickKey(key, randomKey)
      case Err(e) => Err(e)
      case Ok(k) =>
        if nonce.None? then Err(NoRandomness)
        else if |data| != PASSPHRASE_SIZE then Err(InvalidArgument)
        else Ok(Draw(nonce.value, NONCE_SIZE) + a.seal(k, Draw(nonce.value, NONCE_SIZE), data))
  }

  /** The middle of Unseal; `Ok(None)` is data that does not authenticate. */
  function Decrypt(a: Aead, data: bytes, key: Option<bytes>, randomKey: Randomness): Result<Option<bytes>> {
    match PickKey(key, randomKey)
    case Err(e) => Err(e)
    case Ok(k) =>
      if |data| != BLOCK_SIZE + PASSPHRASE_SIZE + NONCE_SIZE then Err(InvalidArgument)
      else Ok(a.open(k, data[..NONCE_SIZE], data[NONCE_SIZE..]))
  }

  /** Everything one Unseal call reads from outside the lease store. */
  datatype UnsealCall = UnsealCall(
    uuid: string,
    data: bytes,
    cancelled: bool,
    key: Option<bytes>,
    randomKey: Randomness,
    randomData: Randomness,
    peer: Option<string>,
    validateAt: Time,
    bootstrapAt: Time)

  /** The data authenticates, and comes from a known peer. */
  predicate Authentic(a: Aead, call: UnsealCall) {
    && Decrypt(a, call.data, call.key, call.randomKey).Ok?
    && Decrypt(a, call.data, call.key, call.randomKey).value.Some?
    && call.peer.Some?
  }

  /** Whether the call reaches Bootstrap: let in, and authentic. */
  predicate Bootstraps(a: Aead, nodes: Nodes, call: UnsealCall) {
    LetsIn(Answer(nodes, call.uuid, call.validateAt)) && Authentic(a, call)
  }

  /** The store operations the call performs. */
  function UnsealOps(a: Aead, enabled: bool, lease: Duration, nodes: Nodes, call: UnsealCall): seq<Op> {
    if call.cancelled || call.uuid == "" || !enabled then []
    else if Bootstraps(a, nodes, call)
    then [Validate(call.uuid, call.validateAt), Bootstrap(call.uuid, call.peer.value, call.bootstrapAt, lease)]
    else [Validate(call.uuid, call.validateAt)]
  }

  /** validateLease, from the verdict and the error of persisting an expiry. */
  function LeaseRefusal(verdict: Verdict, persist: Option<LeaseError>): Option<RpcError> {
    match verdict
    case Admitted => None
    case NotRegistered => None
    case DeniedBlocked => Some(PermissionDenied)
    case DeniedExpired => Some(if persist.Some? then Internal else PermissionDenied)
  }

  /** Unseal once the lease is settled. */
  function Released(a: Aead, enabled: bool, path: string, call: UnsealCall, fate: Fate): Result<bytes> {
    match Decrypt(a, call.data, call.key, call.randomKey)
    case Err(e) => Err(e)
    case Ok(None) => if call.randomData.Some? then Ok(Draw(call.randomData.value, PASSPHRASE_SIZE)) else Err(NoRandomness)
    case Ok(Some(text)) =>
      if enabled && call.peer == None then Err(Unauthenticated)
      else if enabled && PersistError(path, fate).Some? then Err(Internal)
      else Ok(text)
  }

  function UnsealResult(a: Aead, enabled: bool, path: string, nodes: Nodes, call: UnsealCall, fate1: Fate, fate2: Fate)
    : Result<bytes>
  {
    if call.cancelled then Err(Cancelled)
    else if call.uuid == "" then Err(InvalidArgument)
    else
      var refusal := LeaseRefusal(Answer(nodes, call.uuid, call.validateAt), PersistError(path, fate1));
      if enabled && refusal.Some? then Err(refusal.value) else Released(a, enabled, path, call, fate2)
  }

  /** Every successful response is as long as a passphrase. */
  lemma UnsealResponseSize(a: Aead, enabled: bool, path: string, nodes: Nodes, call: UnsealCall, fate1: Fate, fate2: Fate)
    requires Lawful(a) && UnsealResult(a, enabled, path, nodes, call, fate1, fate2).Ok?
    ensures |UnsealResult(a, enabled, path, nodes, call, fate1, fate2).value| == PASSPHRASE_SIZE
  {
  }

  // ---------- The answers, spelled out ----------

  /**
    Seal, for the key `k` it uses (the node's, or else the first 32 bytes of the random source) and
    the first 12 bytes `n` of the source of nonces: the answer is `n` followed by the passphrase
    sealed under `k` and `n`, or the error of the first check that fails.
   */
  lemma SealExactly(a: Aead, uuid: string, data: bytes, key: Option<bytes>, randomKey: Randomness, nonce: Randomness,
                    k: bytes, n: bytes)
    requires Lawful(a)
    requires if key.Some? then key.value == k
             else randomKey.Some? && |k| == 32 && forall i :: 0 <= i < 32 ==> k[i] == randomKey.value(i)
    requires nonce.Some? && |n| == 12 && forall i :: 0 <= i < 12 ==> n[i] == nonce.value(i)
    ensures Seal(a, uuid, data, key, randomKey, nonce) ==
            if uuid == "" then Err(InvalidArgument)
            else if |k| != 16 && |k| != 24 && |k| != 32 then Err(BadKey)
            else if |data| != 32 then Err(InvalidArgument)
            else Ok(n + a.seal(k, n, data))
    ensures uuid != "" && (|k| == 16 || |k| == 24 || |k| == 32) && |data| == 32 ==> |n + a.seal(k, n, data)| == 60
  {
    assert n == Draw(nonce.value, NONCE_SIZE);
    if key.None? {
      assert k == Draw(randomKey.value, KEY_SIZE);
    }
  }

  /** Where the random source fails, so does Seal, and so does Unseal on the way to its key. */
  lemma SealNeedsRandomness(a: Aead, uuid: string, data: bytes, key: Option<bytes>, randomKey: Randomness, nonce: Randomness)
    ensures uuid != "" && key.None? && randomKey.None? ==> Seal(a, uuid, data, key, randomKey, nonce) == Err(NoRandomness)
    ensures nonce.None? ==> Seal(a, uuid, data, key, randomKey, nonce).Err?
  {
  }

  /** The lease decides first: who is refused, how, and that nobody refused is given anything. */
  lemma LeaseDecides(a: Aead, enabled: bool, path: string, nodes: Nodes, call: UnsealCall, fate1: Fate, fate2: Fate)
    ensures var r, u := UnsealResult(a, enabled, path, nodes, call, fate1, fate2), call.uuid;
            && (call.cancelled ==> r == Err(Cancelled))
            && (!call.cancelled && u == "" ==> r == Err(InvalidArgument))
            && (!call.cancelled && u != "" && enabled && u in nodes ==>
                  && (nodes[u].status == Blocked ==> r == Err(PermissionDenied))
                  && (nodes[u].status != Blocked
                      && (nodes[u].status == Expired || (nodes[u].leaseUntil != UNSET && call.validateAt > nodes[u].leaseUntil)) ==>
                        r == Err(if path == "" || fate1 == Completes then PermissionDenied else Internal)))
            && (r.Ok? ==> !call.cancelled && u != "")
            && (r.Ok? && enabled && u in nodes ==>
                  && nodes[u].status != Blocked && nodes[u].status != Expired
                  && (nodes[u].leaseUntil == UNSET || call.validateAt <= nodes[u].leaseUntil))
  {
    hide Released;
  }

  /**
    Then the data decides, for the key `k` in use: what opens is given out, to a known peer and once
    the lease is saved if there are leases; what does not open is answered by 32 random bytes.
   */
  lemma DataDecides(a: Aead, enabled: bool, path: string, nodes: Nodes,
                    call: UnsealCall, fate1: Fate, fate2: Fate, k: bytes)
    requires !call.cancelled && call.uuid != ""
    requires enabled && call.uuid in nodes ==>
               && nodes[call.uuid].status != Blocked && nodes[call.uuid].status != Expired
               && (nodes[call.uuid].leaseUntil == UNSET || call.validateAt <= nodes[call.uuid].leaseUntil)
    requires if call.key.Some? then call.key.value == k
             else call.randomKey.Some? && |k| == 32 && forall i :: 0 <= i < 32 ==> k[i] == call.randomKey.value(i)
    ensures var r := UnsealResult(a, enabled, path, nodes, call, fate1, fate2);
            if |k| != 16 && |k| != 24 && |k| != 32 then r == Err(BadKey)
            else if |call.data| != 60 then r == Err(InvalidArgument)
            else
              match a.open(k, call.data[..12], call.data[12..])
              case None =>
                if call.randomData.None? then r == Err(NoRandomness)
                else r.Ok? && |r.value| == 32 && forall i :: 0 <= i < 32 ==> r.value[i] == call.randomData.value(i)
              case Some(text) =>
                r == if enabled && call.peer == None then Err(Unauthenticated)
                     else if enabled && path != "" && fate2 != Completes then Err(Internal)
                     else Ok(text)
  {
    PersistErrorExactly(path, fate2);
    if call.key.None? {
      assert k == Draw(call.randomKey.value, KEY_SIZE);
    }
  }

  /** The store operations: Validate of a complete call, and Bootstrap of that node and peer exactly if the data opened. */
  lemma OperationsDecided(a: Aead, enabled: bool, lease: Duration, nodes: Nodes, call: UnsealCall, k: bytes)
    requires if call.key.Some? then call.key.value == k
             else call.randomKey.Some? && |k| == 32 && forall i :: 0 <= i < 32 ==> k[i] == call.randomKey.value(i)
    ensures UnsealOps(a, enabled, lease, nodes, call) ==
            if call.cancelled || call.uuid == "" || !enabled then []
            else
              [Validate(call.uuid, call.validateAt)] +
              if && (call.uuid in nodes ==>
                       && nodes[call.uuid].status != Blocked && nodes[call.uuid].status != Expired
                       && (nodes[call.uuid].leaseUntil == UNSET || call.validateAt <= nodes[call.uuid].leaseUntil))
                 && (|k| == 16 || |k| == 24 || |k| == 32) && |call.data| == 60
                 && a.open(k, call.data[..12], call.data[12..]).Some? && call.peer.Some?
              then [Bootstrap(call.uuid, call.peer.value, call.bootstrapAt, lease)] else []
  {
    if call.key.None? {
      assert k == Draw(call.randomKey.value, KEY_SIZE);
    }
  }

  /** What an answer says about the store and the data, for a node that has a key. */
  lemma UnsealAnswer(a: Aead, enabled: bool, lease: Duration, path: string, nodes: Nodes,
                     call: UnsealCall, fate1: Fate, fate2: Fate)
    ensures var r := UnsealResult(a, enabled, path, nodes, call, fate1, fate2);
            && (enabled && !call.cancelled && call.uuid != "" && call.uuid in nodes ==>
                  var stored := nodes[call.uuid];
                  && (stored.status == Blocked ==> r == Err(PermissionDenied))
                  && (stored.status != Blocked
                      && (stored.status == Expired || (stored.leaseUntil != UNSET && call.validateAt > stored.leaseUntil)) ==>
                        r == Err(if path == "" || fate1 == Completes then PermissionDenied else Internal))
                  && (r.Ok? ==> stored.status != Blocked && stored.status != Expired
                                && (stored.leaseUntil == UNSET || call.validateAt <= stored.leaseUntil)))
            && (r.Ok? && call.key.Some? ==>
                  && |call.data| == 60
                  && match a.open(call.key.value, call.data[..12], call.data[12..])
                     case Some(text) =>
                       && r.value == text
                       && (enabled ==>
                             && call.peer.Some?
                             && UnsealOps(a, enabled, lease, nodes, call) ==
                                [Validate(call.uuid, call.validateAt)]
                                + [Bootstrap(call.uuid, call.peer.value, call.bootstrapAt, lease)])
                     case None =>
                       && call.randomData.Some? && |r.value| == 32
                       && (forall i :: 0 <= i < 32 ==> r.value[i] == call.randomData.value(i))
                       && (enabled ==> UnsealOps(a, enabled, lease, nodes, call) == [Validate(call.uuid, call.validateAt)]))
  {
    hide UnsealResult, UnsealOps;
    LeaseDecides(a, enabled, path, nodes, call, fate1, fate2);
    if UnsealResult(a, enabled, path, nodes, call, fate1, fate2).Ok? && call.key.Some? {
      DataDecides(a, enabled, path, nodes, call, fate1, fate2, call.key.value);
      OperationsDecided(a, enabled, lease, nodes, call, call.key.value);
    }
  }

  /** Without a key and without randomness there is no answer and no Bootstrap. */
  lemma NoKeyNoAnswer(a: Aead, enabled: bool, lease: Duration, path: string, nodes: Nodes,
                      call: UnsealCall, fate1: Fate, fate2: Fate)
    requires call.key.None? && call.randomKey.None?
    ensures UnsealResult(a, enabled, path, nodes, call, fate1, fate2).Err?
    ensures |UnsealOps(a, enabled, lease, nodes, call)| <= 1
    ensures UnsealOps(a, enabled, lease, nodes, call) ==
            if call.cancelled || call.uuid == "" || !enabled then [] else [Validate(call.uuid, call.validateAt)]
  {
  }

  /**
    Whatever passphrase was sealed under a key is unsealed under it, for every nonce; under any other
    key that the cipher tells apart there, the answer is random bytes.
   */
  lemma SealThenUnseal(a: Aead, enabled: bool, path: string, nodes: Nodes, call: UnsealCall, fate1: Fate, fate2: Fate,
                       sealUuid: string, passphrase: bytes, key: bytes, randomKey: Randomness, nonce: Randomness)
    requires Lawful(a)
    requires Seal(a, sealUuid, passphrase, Some(key), randomKey, nonce) == Ok(call.data)
    requires call.key.Some? && (|call.key.value| == 16 || |call.key.value| == 24 || |call.key.value| == 32)
    requires call.key.value != key ==> a.open(call.key.value, call.data[..12], a.seal(key, call.data[..12], passphrase)) == None
    requires !call.cancelled && call.uuid != ""
    requires enabled ==> call.peer.Some? && (path == "" || fate2 == Completes)
    requires enabled && call.uuid in nodes ==>
               && nodes[call.uuid].status != Blocked && nodes[call.uuid].status != Expired
               && (nodes[call.uuid].leaseUntil == UNSET || call.validateAt <= nodes[call.uuid].leaseUntil)
    ensures var r := UnsealResult(a, enabled, path, nodes, call, fate1, fate2);
            if call.key.value == key then r == Ok(passphrase)
            else if call.randomData.None? then r == Err(NoRandomness)
            else r.Ok? && |r.value| == 32 && forall i :: 0 <= i < 32 ==> r.value[i] == call.randomData.value(i)
  {
    hide UnsealResult;
    var drawn := Draw(nonce.value, NONCE_SIZE);
    var sealed := a.seal(key, drawn, passphrase);
    assert call.data == drawn + sealed;
    assert call.data[..12] == drawn && call.data[12..] == sealed;
    DataDecides(a, enabled, path, nodes, call, fate1, fate2, call.key.value);
  }

  /** An uninterrupted Unseal is a Begin followed by a Commit or nothing, in the protocol's terms. */
  lemma UnsealIsBeginThenCommit(a: Aead, lease: Duration, s: State, id: nat, call: UnsealCall) returns (evs: seq<Event>)
    requires id !in s.inFlight && call.uuid != "" && !call.cancelled
    ensures CanRun(s, evs) && 1 <= |evs| <= 2 && evs[0] == Begin(id, call.uuid, call.validateAt)
    ensures |evs| == 2 <==> Bootstraps(a, s.nodes, call)
    ensures Exec(s, evs).nodes == Replay(s.nodes, UnsealOps(a, true, lease, s.nodes, call))
  {
    hide Apply, Replay, Exec, CanRun, Answer, Decrypt;
    var begin := Begin(id, call.uuid, call.validateAt);
    NothingRun(s);
    EmptyReplay(s.nodes);
    var ops := UnsealOps(a, true, lease, s.nodes, call);
    var validate := Validate(call.uuid, call.validateAt);
    CanRunSnoc(s, [], begin);
    ReplaySnoc(s.nodes, [], validate);
    evs := [] + [begin];
    if Bootstraps(a, s.nodes, call) {
      var boot := Bootstrap(call.uuid, call.peer.value, call.bootstrapAt, lease);
      var commit := Commit(id, call.peer.value, call.bootstrapAt, lease);
      CanRunSnoc(s, evs, commit);
      ReplaySnoc(s.nodes, [] + [validate], boot);
      assert ops == [] + [validate] + [boot];
      evs := evs + [commit];
    } else {
      assert ops == [] + [validate];
    }
  }

  class Server {
    const store: LeaseStore
    const enabled: bool
    const lease: Duration
    const aead: Aead

    constructor (store: LeaseStore, hasStore: bool, lease: Duration, aead: Aead)
      ensures this.store == store && this.lease == lease && this.aead == aead
      ensures enabled == (hasStore && lease > 0)
    {
      this.store, this.lease, this.aead, this.enabled := store, lease, aead, hasStore && lease > 0;
    }

    method ValidateLease(uuid: string, now: Time, fate: Fate) returns (refusal: Option<RpcError>)
      requires store.Valid()
      modifies store`nodes, store`history, store.disk
      modifies store.metrics`activeLeases, store.metrics`expiredLeases, store.metrics`storeErrors
      ensures store.Valid()
      ensures !enabled ==> refusal == None && store.DidNothing()
      ensures enabled ==>
                && store.Did(Op.Validate(uuid, now), fate)
                && refusal == LeaseRefusal(Answer(old(store.nodes), uuid, now), PersistError(store.path, fate))
      ensures enabled ==>
                refusal ==
                if uuid !in old(store.nodes) then None
                else
                  var r := old(store.nodes)[uuid];
                  if r.status == Blocked then Some(PermissionDenied)
                  else if r.status == Expired || (r.leaseUntil != UNSET && now > r.leaseUntil) then
                    Some(if store.path == "" || fate == Completes then PermissionDenied else Internal)
                  else None
    {
      PersistErrorExactly(store.path, fate);
      if !enabled {
        return None;
      }
      var _, err := store.Validate(uuid, now, fate);
      match err
      case None => return None;
      case Some(LeaseBlocked) => return Some(PermissionDenied);
      case Some(LeaseNotFound) => return None;
      case Some(LeaseExpired) => return Some(PermissionDenied);
      case Some(_) => return Some(Internal);
    }

    /** From the key on: decrypt and, for authentic data of a known peer, renew the lease. */
    method Release(call: UnsealCall, fate: Fate) returns (r: Result<bytes>)
      requires store.Valid()
      modifies store`nodes, store`history, store.disk
      modifies store.metrics`activeLeases, store.metrics`expiredLeases, store.metrics`storeErrors
      ensures store.Valid() && r == Released(aead, enabled, store.path, call, fate)
      ensures if enabled && Authentic(aead, call)
              then store.Did(Op.Bootstrap(call.uuid, call.peer.value, call.bootstrapAt, lease), fate)
              else store.DidNothing()
    {
      hide Apply, Replay, Effect, PossibleRun, Decrypt, PersistError;
      var decrypted := Decrypt(aead, call.data, call.key, call.randomKey);
      if decrypted.Err? {
        return Err(decrypted.error);
      }
      if decrypted.value == None {
        return if call.randomData.Some? then Ok(Draw(call.randomData.value, PASSPHRASE_SIZE)) else Err(NoRandomness);
      }
      if enabled {
        if call.peer == None {
          return Err(Unauthenticated);
        }
        var _, err := store.Bootstrap(call.uuid, call.peer.value, call.bootstrapAt, lease, fate);
        if err.Some? {
          return Err(Internal);
        }
      }
      return Ok(decrypted.value.value);
    }

    /** The checks and the two store operations of Unseal, in order. */
    method Proceed(call: UnsealCall, fate1: Fate, fate2: Fate) returns (r: Result<bytes>)
      requires store.Valid()
      modifies store`nodes, store`history, store.disk
      modifies store.metrics`activeLeases, store.metrics`expiredLeases, store.metrics`storeErrors
      ensures store.Valid()
      ensures var ops := UnsealOps(aead, enabled, lease, old(store.nodes), call);
              && store.history == old(store.history) + ops
              && store.Seen() == Effects(store.path, store.metrics.enabled, old(store.Seen()), ops, [fate1, fate2][..|ops|])
      ensures r == UnsealResult(aead, enabled, store.path, old(store.nodes), call, fate1, fate2)
    {
      hide Apply, Replay, Answer, Effect, Effects, PossibleRun, Decrypt, PersistError, Authentic, Released;
      ghost var history, ops := store.history, UnsealOps(aead, enabled, lease, store.nodes, call);
      UpToTwoEffects(store.path, store.metrics.enabled, store.Seen(), ops, fate1, fate2);
      if call.cancelled {
        return Err(Cancelled);
      }
      if call.uuid == "" {
        return Err(InvalidArgument);
      }
      var refusal := ValidateLease(call.uuid, call.validateAt, fate1);
      if refusal.Some? {
        return Err(refusal.value);
      }
      r := Release(call, fate2);
      assert store.history == history + ops;
    }

    method Unseal(call: UnsealCall, fate1: Fate, fate2: Fate) returns (r: Result<bytes>)
      requires store.Valid()
      modifies store`nodes, store`history, store.disk
      modifies store.metrics`activeLeases, store.metrics`expiredLeases, store.metrics`storeErrors
      ensures store.Valid()
      ensures var ops := UnsealOps(aead, enabled, lease, old(store.nodes), call);
              && store.history == old(store.history) + ops
              && store.Seen() == Effects(store.path, store.metrics.enabled, old(store.Seen()), ops, [fate1, fate2][..|ops|])
      ensures r == UnsealResult(aead, enabled, store.path, old(store.nodes), call, fate1, fate2)
      ensures enabled && !call.cancelled && call.uuid != "" && call.uuid in old(store.nodes) ==>
                var stored := old(store.nodes)[call.uuid];
                && (stored.status == Blocked ==> r == Err(PermissionDenied))
                && (stored.status != Blocked
                    && (stored.status == Expired || (stored.leaseUntil != UNSET && call.validateAt > stored.leaseUntil)) ==>
                      r == Err(if store.path == "" || fate1 == Completes then PermissionDenied else Internal))
                && (r.Ok? ==> stored.status != Blocked && stored.status != Expired
                              && (stored.leaseUntil == UNSET || call.validateAt <= stored.leaseUntil))
      ensures r.Ok? && call.key.Some? ==>
                && |call.data| == 60
                && match aead.open(call.key.value, call.data[..12], call.data[12..])
                   case Some(text) =>
                     && r.value == text
                     && (enabled ==>
                           && call.peer.Some?
                           && store.history == old(store.history)
                                + [Op.Validate(call.uuid, call.validateAt)]
                                + [Op.Bootstrap(call.uuid, call.peer.value, call.bootstrapAt, lease)])
                   case None =>
                     && call.randomData.Some? && |r.value| == 32
                     && (forall i :: 0 <= i < 32 ==> r.value[i] == call.randomData.value(i))
                     && (enabled ==> store.history == old(store.history) + [Op.Validate(call.uuid, call.validateAt)])
    {
      hide UnsealResult, UnsealOps, Effects;
      UnsealAnswer(aead, enabled, lease, store.path, store.nodes, call, fate1, fate2);
      r := Proceed(call, fate1, fate2);
    }

    method Heartbeat(peer: Option<string>, now: Time, fate: Fate)
      returns (err: Option<RpcError>, ghost found: Option<string>)
      requires store.Valid()
      modifies store`nodes, store`history, store.disk
      modifies store.metrics`activeLeases, store.metrics`expiredLeases, store.metrics`storeErrors
      ensures store.Valid()
      ensures !enabled ==> err == Some(FailedPrecondition)
      ensures enabled && peer == None ==> err == Some(Unauthenticated)
      ensures !enabled || peer == None ==> store.DidNothing()
      ensures enabled && peer.Some? ==>
                && Resolves(old(store.nodes), peer.value, found)
                && store.Did(Op.HeartbeatIP(peer.value, found, now, lease), fate)
                && err ==
                   match found
                   case None => Some(PermissionDenied)
                   case Some(u) =>
                     var r := old(store.nodes)[u];
                     if r.status == Blocked then Some(PermissionDenied)
                     else if store.path != "" && fate != Completes then Some(Internal)
                     else if r.status == Expired || (r.leaseUntil != UNSET && now > r.leaseUntil) then Some(PermissionDenied)
                     else None
    {
      PersistErrorExactly(store.path, fate);
      found := None;
      if !enabled {
        return Some(FailedPrecondition), found;
      }
      if peer == None {
        return Some(Unauthenticated), found;
      }
      var uuid, record, e;
      uuid, record, e, found := store.HeartbeatByIP(peer.value, now, lease, fate);
      match e
      case None => return None, found;
      case Some(LeaseBlocked) => return Some(PermissionDenied), found;
      case Some(LeaseExpired) => return Some(PermissionDenied), found;
      case Some(NodeIPNotFound) => return Some(PermissionDenied), found;
      case Some(_) => return Some(Internal), found;
    }
  }
}
