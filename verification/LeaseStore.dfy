/**
  The lease store of pkg/server/lease_store.go as an object. A loop over the Go map becomes
  a loop that takes any remaining key; a method is one critical section of the mutex. The
  clock readings, and how each persist ends, are parameters.

  Every store object replays its own call history (`Valid`), so the theorems about runs are
  theorems about it; and each call does to map, files, gauges and error counter exactly what
  `Effect` says of its operation (`Did`).
 */
module LeaseStores {
  import opened Options
  import opened Lease
  import opened Durability
  import opened StoreEffects

  /** A nil `*Metrics` of the source, on which every update is a no-op, is one that is not enabled. */
  class Metrics {
    const enabled: bool
    var activeLeases: int
    var expiredLeases: int
    var heartbeatTimeouts: int
    var storeErrors: multiset<string>

    constructor (enabled: bool)
      ensures this.enabled == enabled
      ensures activeLeases == expiredLeases == heartbeatTimeouts == 0 && storeErrors == multiset{}
    {
      this.enabled := enabled;
      activeLeases, expiredLeases, heartbeatTimeouts, storeErrors := 0, 0, 0, multiset{};
    }
  }

  class Disk {
    var files: Files

    constructor (files: Files)
      ensures this.files == files
    {
      this.files := files;
    }
  }

  lemma TallyStep(nodes: Nodes, keys: set<string>, u: string, now: Time)
    requires u in nodes && u !in keys
    ensures |Tally(nodes, keys + {u}, now)| ==
            |Tally(nodes, keys, now)| + if nodes[u].status == Blocked || CountsExpired(nodes[u], now) then 1 else 0
  {
    if nodes[u].status == Blocked || CountsExpired(nodes[u], now) {
      assert Tally(nodes, keys + {u}, now) == Tally(nodes, keys, now) + {u};
    } else {
      assert Tally(nodes, keys + {u}, now) == Tally(nodes, keys, now);
    }
  }

  /** A list without duplicates is as long as the set of its elements. */
  lemma {:induction false} DistinctCount(s: seq<string>, elements: set<string>)
    requires forall i, j :: 0 <= i < j < |s| ==> s[i] != s[j]
    requires forall u :: u in s <==> u in elements
    ensures |s| == |elements|
    decreases |s|
  {
    if s == [] {
      assert elements == {};
    } else {
      var init, last := s[..|s| - 1], s[|s| - 1];
      assert last in s;
      forall u ensures u in init <==> u in elements - {last} {
        if u in init {
          var i :| 0 <= i < |init| && init[i] == u;
          assert s[i] == u;
        }
      }
      DistinctCount(init, elements - {last});
    }
  }

  /** The same operation, except that a lookup may have come upon another node. */
  predicate SameCall(a: Op, b: Op) {
    a == b || (a.HeartbeatIP? && b.HeartbeatIP? && b == a.(found := b.found))
  }

  class LeaseStore {
    var nodes: Nodes
    const metrics: Metrics
    const path: string
    const disk: Disk

    ghost var start: Nodes        // the map as loaded
    ghost var history: seq<Op>    // the operations performed since

    ghost predicate Valid()
      reads this
    {
      nodes == Replay(start, history) && PossibleRun(start, history)
    }

    ghost function Seen(): View
      reads this, disk, metrics
    {
      View(nodes, disk.files, metrics.activeLeases, metrics.expiredLeases, metrics.storeErrors)
    }

    /** The store performed exactly `op`, and its persist, if any, ended as `fate`. */
    twostate predicate Did(op: Op, fate: Fate)
      reads this, disk, metrics
    {
      && Seen() == Effect(path, metrics.enabled, old(Seen()), op, fate)
      && history == old(history) + [op] && start == old(start)
    }

    /** Nothing the store owns was touched. */
    twostate predicate DidNothing()
      reads this, disk, metrics
    {
      Seen() == old(Seen()) && history == old(history) && start == old(start)
    }

    /** What the two say of each field. */
    twostate lemma DidExactly(op: Op, fate: Fate)
      requires Did(op, fate)
      ensures history == old(history) + [op] && start == old(start)
      ensures var before := View(old(nodes), old(disk.files), old(metrics.activeLeases), old(metrics.expiredLeases),
                                 old(metrics.storeErrors));
              var after := Effect(path, metrics.enabled, before, op, fate);
              && nodes == after.nodes == Apply(old(nodes), op) && disk.files == after.files
              && metrics.activeLeases == after.active && metrics.expiredLeases == after.expired
              && metrics.storeErrors == after.errors
    {
    }

    twostate lemma DidNothingExactly()
      requires DidNothing()
      ensures nodes == old(nodes) && disk.files == old(disk.files) && history == old(history) && start == old(start)
      ensures metrics.activeLeases == old(metrics.activeLeases) && metrics.expiredLeases == old(metrics.expiredLeases)
      ensures metrics.storeErrors == old(metrics.storeErrors)
    {
    }

    constructor Loaded(path: string, metrics: Metrics, disk: Disk, nodes: Nodes)
      ensures Valid()
      ensures this.path == path && this.metrics == metrics && this.disk == disk && this.nodes == nodes
      ensures start == nodes && history == []
    {
      this.path, this.metrics, this.disk, this.nodes := path, metrics, disk, nodes;
      start, history := nodes, [];
    }

    /** NewFileLeaseStore; `readable` is false when reading the file fails other than by its absence. */
    static method Open(path: string, metrics: Metrics, disk: Disk, readable: bool, now: Time)
      returns (store: LeaseStore?, err: Option<LeaseError>)
      modifies metrics`activeLeases, metrics`expiredLeases, metrics`storeErrors
      ensures store == null <==> err.Some?
      ensures store != null ==>
                && fresh(store) && store.Valid() && store.history == []
                && store.path == path && store.metrics == metrics && store.disk == disk
                && Some(store.nodes) == (if path == "" then Some(map[]) else Reload(disk.files.main))
                && store.nodes == (if path != "" && disk.files.main.Image? then disk.files.main.nodes else map[])
      ensures err == if path == "" || disk.files.main == Absent then None
                     else if !readable then Some(StoreFailure("read"))
                     else if disk.files.main == Garbled then Some(StoreFailure("decode"))
                     else None
      ensures metrics.storeErrors ==
              old(metrics.storeErrors)
              + if metrics.enabled && err.Some? then multiset{if readable then "decode" else "read"} else multiset{}
      ensures store != null && (metrics.enabled ==> old(metrics.activeLeases) == old(metrics.expiredLeases) == 0)
              ==> metrics.enabled ==> Balanced(store.Seen())
    {
      err := None;
      if path == "" {
        store := new LeaseStore.Loaded(path, metrics, disk, map[]);
        store.UpdateLeaseMetrics(now);
        return;
      }
      var file := disk.files.main;
      if file == Absent {
        store := new LeaseStore.Loaded(path, metrics, disk, map[]);
        return;
      }
      if !readable {
        CountStoreError(metrics, "read");
        return null, Some(StoreFailure("read"));
      }
      if file == Empty {
        store := new LeaseStore.Loaded(path, metrics, disk, map[]);
        return;
      }
      if file == Garbled {
        CountStoreError(metrics, "decode");
        return null, Some(StoreFailure("decode"));
      }
      store := new LeaseStore.Loaded(path, metrics, disk, file.nodes);
      store.UpdateLeaseMetrics(now);
    }

    static method CountStoreError(metrics: Metrics, stage: string)
      modifies metrics`storeErrors
      ensures metrics.storeErrors == old(metrics.storeErrors) + if metrics.enabled then multiset{stage} else multiset{}
    {
      if metrics.enabled {
        metrics.storeErrors := metrics.storeErrors + multiset{stage};
      }
    }

    // ---------- Metrics and persistence ----------

    method UpdateLeaseMetrics(now: Time)
      modifies metrics`activeLeases, metrics`expiredLeases
      ensures !metrics.enabled ==> Seen() == old(Seen())
      ensures metrics.enabled ==>
                && metrics.expiredLeases == |GaugeExpired(nodes, now)|
                && metrics.activeLeases + metrics.expiredLeases == |nodes|
    {
      if !metrics.enabled {
        return;
      }
      var active, expired := 0, 0;
      var remaining := nodes.Keys;
      ghost var counted := {};
      while remaining != {}
        invariant counted !! remaining && counted + remaining == nodes.Keys
        invariant expired == |Tally(nodes, counted, now)|
        invariant active + expired == |counted|
      {
        var u :| u in remaining;
        TallyStep(nodes, counted, u, now);
        if nodes[u].status == Blocked || nodes[u].status == Expired || IsExpired(nodes[u], now) {
          expired := expired + 1;
        } else {
          active := active + 1;
        }
        remaining, counted := remaining - {u}, counted + {u};
      }
      assert counted == nodes.Keys;
      metrics.activeLeases, metrics.expiredLeases := active, expired;
    }

    method Persist(fate: Fate) returns (err: Option<LeaseError>)
      modifies disk, metrics`storeErrors
      ensures err == PersistError(path, fate)
      ensures disk.files == FilesAfter(path, old(disk.files), nodes, fate)
      ensures metrics.storeErrors ==
              old(metrics.storeErrors) + if metrics.enabled && err.Some? then multiset{err.value.stage} else multiset{}
      ensures metrics.storeErrors == ErrorsAfter(path, metrics.enabled, old(metrics.storeErrors), fate)
    {
      if path == "" {
        return None;
      }
      if fate.MkdirFails? {
        CountStoreError(metrics, "mkdir");
        return Some(StoreFailure("mkdir"));
      }
      if fate.EncodeFails? {
        CountStoreError(metrics, "encode");
        return Some(StoreFailure("encode"));
      }
      if fate.WriteFails? {
        disk.files := disk.files.(tmp := fate.left);
        CountStoreError(metrics, "write");
        return Some(StoreFailure("write"));
      }
      disk.files := disk.files.(tmp := Image(nodes));
      if fate.RenameFails? {
        CountStoreError(metrics, "rename");
        return Some(StoreFailure("rename"));
      }
      disk.files := Files(disk.files.tmp, Absent);
      return None;
    }

    /** Appends `op` to the history once the map has been rewritten accordingly. */
    ghost method Record(before: Nodes, op: Op)
      requires before == Replay(start, history) && PossibleRun(start, history)
      requires Possible(before, op) && nodes == Apply(before, op)
      modifies this`history
      ensures Valid() && history == old(history) + [op]
    {
      hide Apply, Replay, Possible;
      ReplaySnoc(start, history, op);
      PossibleSnoc(start, history, op);
      history := history + [op];
    }

    /** An operation that returns without persisting. */
    ghost method Pass(op: Op, fate: Fate)
      requires Valid() && Possible(nodes, op) && !Persists(nodes, op)
      modifies this`history
      ensures Valid() && Did(op, fate)
    {
      hide Apply, Persists;
      UnpersistedChangesNothing(nodes, op);
      Record(nodes, op);
    }

    /** The common tail of the operations, once the map is rewritten: refresh the gauges, persist. */
    method Finish(now: Time, fate: Fate, ghost before: Nodes, ghost op: Op) returns (err: Option<LeaseError>)
      requires before == Replay(start, history) && PossibleRun(start, history)
      requires Possible(before, op) && nodes == Apply(before, op)
      requires Persists(before, op) && !op.SetMaintenance? && now == op.now
      modifies this`history, disk, metrics`activeLeases, metrics`expiredLeases, metrics`storeErrors
      ensures Valid() && history == old(history) + [op]
      ensures Seen() == Effect(path, metrics.enabled, old(Seen()).(nodes := before), op, fate)
      ensures err == PersistError(path, fate)
    {
      hide Apply, Replay, Persists, Possible, PossibleRun, GaugeExpired;
      Record(before, op);
      UpdateLeaseMetrics(now);
      err := Persist(fate);
    }

    /** Write one record, then `Finish`. */
    method Put(uuid: string, record: LeaseRecord, now: Time, fate: Fate, ghost op: Op) returns (err: Option<LeaseError>)
      requires Valid() && Possible(nodes, op) && nodes[uuid := record] == Apply(nodes, op)
      requires Persists(nodes, op) && !op.SetMaintenance? && now == op.now
      modifies this`nodes, this`history, disk, metrics`activeLeases, metrics`expiredLeases, metrics`storeErrors
      ensures Valid() && Did(op, fate) && nodes == old(nodes)[uuid := record]
      ensures err == PersistError(path, fate)
    {
      hide Apply, Replay, Persists, Possible, PossibleRun, GaugeExpired;
      ghost var before := nodes;
      nodes := nodes[uuid := record];
      err := Finish(now, fate, before, op);
    }

    /** The same without a refresh of the gauges. */
    method PutQuietly(uuid: string, record: LeaseRecord, fate: Fate, ghost op: Op) returns (err: Option<LeaseError>)
      requires Valid() && Possible(nodes, op) && nodes[uuid := record] == Apply(nodes, op)
      requires Persists(nodes, op) && op.SetMaintenance?
      modifies this`nodes, this`history, disk, metrics`storeErrors
      ensures Valid() && Did(op, fate) && nodes == old(nodes)[uuid := record]
      ensures err == PersistError(path, fate)
    {
      hide Apply, Replay, Persists, Possible, PossibleRun, GaugeExpired;
      ghost var before := nodes;
      nodes := nodes[uuid := record];
      Record(before, op);
      err := Persist(fate);
    }

    // ---------- Operations ----------

    /** The record Bootstrap installs. */
    method BootRecord(uuid: string, ip: string, now: Time, lease: Duration) returns (record: LeaseRecord)
      ensures record == Bootstrapped(Get(nodes, uuid), ip, now, lease)
    {
      record := ActiveLease(now, lease);
      record := record.(lastUnsealAt := now, lastUnsealIP := ip, nodeIP := ip);
      if uuid in nodes {
        record := record.(firstSeen := nodes[uuid].firstSeen, hostname := nodes[uuid].hostname);
      } else {
        record := record.(firstSeen := now);
      }
    }

    method Bootstrap(uuid: string, ip: string, now: Time, lease: Duration, fate: Fate)
      returns (record: LeaseRecord, err: Option<LeaseError>)
      requires Valid()
      modifies this`nodes, this`history, disk, metrics`activeLeases, metrics`expiredLeases, metrics`storeErrors
      ensures Valid() && Did(Op.Bootstrap(uuid, ip, now, lease), fate)
      ensures record == nodes[uuid] && err == PersistError(path, fate)
    {
      ghost var before, op := nodes, Op.Bootstrap(uuid, ip, now, lease);
      record := BootRecord(uuid, ip, now, lease);
      DisplaceOthers(uuid, ip);
      nodes := nodes[uuid := record];
      assert nodes == Apply(before, op);
      err := Finish(now, fate, before, op);
    }

    /** The loop of Bootstrap: it rewrites the map it iterates over. */
    method DisplaceOthers(uuid: string, ip: string)
      modifies this`nodes
      ensures nodes == DisplacedOthers(old(nodes), uuid, ip)
    {
      var remaining := nodes.Keys;
      while remaining != {}
        invariant nodes.Keys == old(nodes).Keys && remaining <= nodes.Keys
        invariant forall u :: u in nodes ==>
                    nodes[u] == if u == uuid || u in remaining then old(nodes)[u] else Displaced(old(nodes)[u], ip)
      {
        var u :| u in remaining;
        remaining := remaining - {u};
        var existing := nodes[u];
        if u == uuid || existing.lastUnsealIP != ip {
          continue;
        }
        existing := existing.(lastUnsealIP := "");
        nodes := nodes[u := existing];
      }
    }

    /** Any holder of the address, whichever the iteration meets first. */
    method RecordByIP(ip: string) returns (uuid: string, record: LeaseRecord, ok: bool)
      ensures ok ==> Holds(nodes, uuid, ip) && record == nodes[uuid]
      ensures !ok ==> uuid == "" && record == ZERO_RECORD
      ensures Resolves(nodes, ip, if ok then Some(uuid) else None)
    {
      var remaining := nodes.Keys;
      while remaining != {}
        invariant remaining <= nodes.Keys
        invariant forall u :: u in nodes && u !in remaining ==> !Holds(nodes, u, ip)
      {
        var u :| u in remaining;
        remaining := remaining - {u};
        if nodes[u].lastUnsealIP == ip {
          return u, nodes[u], true;
        }
      }
      return "", ZERO_RECORD, false;
    }

    method HeartbeatByIP(ip: string, now: Time, lease: Duration, fate: Fate)
      returns (uuid: string, record: LeaseRecord, err: Option<LeaseError>, ghost found: Option<string>)
      requires Valid()
      modifies this`nodes, this`history, disk, metrics`activeLeases, metrics`expiredLeases, metrics`storeErrors
      ensures Resolves(old(nodes), ip, found)
      ensures Valid() && Did(Op.HeartbeatIP(ip, found, now, lease), fate)
      ensures found == None ==> uuid == "" && record == ZERO_RECORD && err == Some(NodeIPNotFound)
      ensures found.Some? ==>
                var r := old(nodes)[found.value];
                if r.status == Blocked then
                  uuid == found.value && record == r && err == Some(LeaseBlocked)
                else if CountsExpired(r, now) then
                  if PersistError(path, fate).Some?
                  then uuid == "" && record == ZERO_RECORD && err == PersistError(path, fate)
                  else uuid == found.value && record == nodes[found.value] && err == Some(LeaseExpired)
                else
                  uuid == found.value && record == nodes[found.value] && err == PersistError(path, fate)
    {
      var ok;
      uuid, record, ok := RecordByIP(ip);
      found := if ok then Some(uuid) else None;
      ghost var op := Op.HeartbeatIP(ip, found, now, lease);
      if !ok {
        Pass(op, fate);
        return "", ZERO_RECORD, Some(NodeIPNotFound), found;
      }
      if record.status == Blocked {
        Pass(op, fate);
        return uuid, record, Some(LeaseBlocked), found;
      }
      if IsExpired(record, now) || record.status == Expired {
        record := record.(status := Expired);
        err := Put(uuid, record, now, fate, op);
        if err.Some? {
          return "", ZERO_RECORD, err, found;
        }
        return uuid, record, Some(LeaseExpired), found;
      }
      record := record.(lastHeartbeatAt := now, leaseUntil := now + lease, status := Active);
      err := Put(uuid, record, now, fate, op);
    }

    method Validate(uuid: string, now: Time, fate: Fate) returns (record: LeaseRecord, err: Option<LeaseError>)
      requires Valid()
      modifies this`nodes, this`history, disk, metrics`activeLeases, metrics`expiredLeases, metrics`storeErrors
      ensures Valid() && Did(Op.Validate(uuid, now), fate)
      ensures err == Some(LeaseNotFound) <==> uuid !in old(nodes)
      ensures err == Some(LeaseBlocked) <==> uuid in old(nodes) && old(nodes)[uuid].status == Blocked
      ensures err == None <==>
              && uuid in old(nodes) && old(nodes)[uuid].status != Blocked && old(nodes)[uuid].status != Expired
              && (old(nodes)[uuid].leaseUntil == UNSET || now <= old(nodes)[uuid].leaseUntil)
      ensures match Answer(old(nodes), uuid, now)
              case NotRegistered => record == ZERO_RECORD && err == Some(LeaseNotFound)
              case DeniedBlocked => record == nodes[uuid] && err == Some(LeaseBlocked)
              case DeniedExpired =>
                if PersistError(path, fate).Some?
                then record == ZERO_RECORD && err == PersistError(path, fate)
                else record == nodes[uuid] && err == Some(LeaseExpired)
              case Admitted => record == nodes[uuid] && err == None
    {
      ghost var op := Op.Validate(uuid, now);
      if uuid !in nodes {
        Pass(op, fate);
        return ZERO_RECORD, Some(LeaseNotFound);
      }
      record := nodes[uuid];
      if record.status == Blocked {
        Pass(op, fate);
        return record, Some(LeaseBlocked);
      }
      if IsExpired(record, now) || record.status == Expired {
        record := record.(status := Expired);
        err := Put(uuid, record, now, fate, op);
        if err.Some? {
          return ZERO_RECORD, err;
        }
        return record, Some(LeaseExpired);
      }
      Pass(op, fate);
      return record, None;
    }

    method HeartbeatByUUID(uuid: string, ip: string, hostname: string, now: Time, lease: Duration, fate: Fate)
      returns (record: LeaseRecord, err: Option<LeaseError>)
      requires Valid()
      modifies this`nodes, this`history, disk, metrics`activeLeases, metrics`expiredLeases, metrics`storeErrors
      ensures Valid() && Did(Op.HeartbeatUUID(uuid, ip, hostname, now, lease), fate)
      ensures record == nodes[uuid]
      ensures err == if uuid in old(nodes) && old(nodes)[uuid].status == Blocked
                     then Some(LeaseBlocked) else PersistError(path, fate)
    {
      ghost var before := nodes;
      ghost var op := Op.HeartbeatUUID(uuid, ip, hostname, now, lease);
      if uuid !in nodes {
        record := ZERO_RECORD.(firstSeen := now, nodeIP := ip, hostname := hostname, lastHeartbeatAt := now,
                               leaseUntil := now + lease, status := Active);
        err := Put(uuid, record, now, fate, op);
        return;
      }
      record := nodes[uuid];
      if record.status == Blocked {
        Pass(op, fate);
        return record, Some(LeaseBlocked);
      }
      record := record.(lastHeartbeatAt := now, leaseUntil := now + lease, nodeIP := ip);
      if hostname != "" {
        record := record.(hostname := hostname);
      }
      record := record.(status := Active);
      assert record == BeatByUUID(Some(before[uuid]), ip, hostname, now, lease);
      err := Put(uuid, record, now, fate, op);
    }

    method Unblock(uuid: string, now: Time, lease: Duration, fate: Fate)
      returns (record: LeaseRecord, err: Option<LeaseError>)
      requires Valid()
      modifies this`nodes, this`history, disk, metrics`activeLeases, metrics`expiredLeases, metrics`storeErrors
      ensures Valid() && Did(Op.Unblock(uuid, now, lease), fate)
      ensures if uuid in old(nodes)
              then record == nodes[uuid] && err == PersistError(path, fate)
              else record == ZERO_RECORD && err == Some(LeaseNotFound)
    {
      ghost var op := Op.Unblock(uuid, now, lease);
      if uuid !in nodes {
        Pass(op, fate);
        return ZERO_RECORD, Some(LeaseNotFound);
      }
      record := nodes[uuid];
      record := record.(status := Active, blockedAt := UNSET, blockReason := "");
      record := record.(lastHeartbeatAt := now, leaseUntil := now + lease);
      err := Put(uuid, record, now, fate, op);
    }

    /** Does not touch the gauges. */
    method SetMaintenance(uuid: string, enabled: bool, now: Time, lease: Duration, fate: Fate)
      returns (record: LeaseRecord, err: Option<LeaseError>)
      requires Valid()
      modifies this`nodes, this`history, disk, metrics`storeErrors
      ensures Valid() && Did(Op.SetMaintenance(uuid, enabled, now, lease), fate)
      ensures if uuid in old(nodes)
              then record == nodes[uuid] && err == PersistError(path, fate)
              else record == ZERO_RECORD && err == Some(LeaseNotFound)
    {
      ghost var before := nodes;
      ghost var op := Op.SetMaintenance(uuid, enabled, now, lease);
      if uuid !in nodes {
        Pass(op, fate);
        return ZERO_RECORD, Some(LeaseNotFound);
      }
      record := nodes[uuid];
      record := record.(maintenance := enabled);
      if enabled {
        record := record.(maintenanceAt := now);
      } else {
        record := record.(maintenanceAt := UNSET, lastHeartbeatAt := now, leaseUntil := now + lease);
      }
      assert record == WithMaintenance(before[uuid], enabled, now, lease);
      err := PutQuietly(uuid, record, fate, op);
    }

    /** Blocks every overdue node; a persist error is dropped. */
    method BlockExpiredNodes(now: Time, timeout: Duration, fate: Fate) returns (blocked: seq<string>)
      requires Valid()
      modifies this`nodes, this`history, disk, metrics`activeLeases, metrics`expiredLeases, metrics`storeErrors
      ensures Valid() && Did(Op.Check(now, timeout), fate)
      ensures forall i, j :: 0 <= i < j < |blocked| ==> blocked[i] != blocked[j]
      ensures forall u :: u in blocked <==> u in OverdueNodes(old(nodes), now, timeout)
      ensures |blocked| == |OverdueNodes(old(nodes), now, timeout)|
    {
      ghost var before := nodes;
      ghost var op := Op.Check(now, timeout);
      blocked := BlockLoop(now, timeout);
      assert nodes == Apply(before, op);
      if |blocked| > 0 {
        assert blocked[0] in OverdueNodes(before, now, timeout);
        var _ := Finish(now, fate, before, op);
      } else {
        assert OverdueNodes(before, now, timeout) == {};
        Record(before, op);
      }
    }

    /** The loop of BlockExpiredNodes: it rewrites the map it iterates over. */
    method BlockLoop(now: Time, timeout: Duration) returns (blocked: seq<string>)
      modifies this`nodes
      ensures nodes == map u | u in old(nodes) :: Checked(old(nodes)[u], now, timeout)
      ensures |nodes| == |old(nodes)|
      ensures forall i, j :: 0 <= i < j < |blocked| ==> blocked[i] != blocked[j]
      ensures forall u :: u in blocked <==> u in OverdueNodes(old(nodes), now, timeout)
      ensures |blocked| == |OverdueNodes(old(nodes), now, timeout)|
    {
      blocked := [];
      var remaining := nodes.Keys;
      ghost var overdue := OverdueNodes(nodes, now, timeout);
      while remaining != {}
        invariant nodes.Keys == old(nodes).Keys && remaining <= nodes.Keys
        invariant forall u :: u in nodes ==>
                    nodes[u] == if u in remaining then old(nodes)[u] else Checked(old(nodes)[u], now, timeout)
        invariant forall i, j :: 0 <= i < j < |blocked| ==> blocked[i] != blocked[j]
        invariant forall u :: u in blocked <==> u in overdue && u !in remaining
      {
        var u :| u in remaining;
        remaining := remaining - {u};
        var record := nodes[u];
        if record.status != Active || record.maintenance || record.lastHeartbeatAt == UNSET
           || Sub(now, record.lastHeartbeatAt) <= timeout {
          continue;
        }
        record := record.(status := Blocked, blockedAt := now, blockReason := HEARTBEAT_TIMEOUT);
        nodes := nodes[u := record];
        blocked := blocked + [u];
      }
      DistinctCount(blocked, overdue);
      assert |nodes| == |nodes.Keys| && |old(nodes)| == |old(nodes).Keys|;
    }

    /** Any operation but a check, through its method. The node a lookup finds is the store's own choice. */
    method Perform(call: Op, fate: Fate) returns (ghost done: Op)
      requires Valid() && !call.Check?
      modifies this`nodes, this`history, disk, metrics`activeLeases, metrics`expiredLeases, metrics`storeErrors
      ensures Valid() && Did(done, fate) && SameCall(call, done)
    {
      hide Effect, Apply, Replay;
      done := call;
      match call
      case Bootstrap(uuid, ip, now, lease) => var _, _ := Bootstrap(uuid, ip, now, lease, fate);
      case HeartbeatIP(ip, _, now, lease) =>
        ghost var found;
        var uuid, record, err;
        uuid, record, err, found := HeartbeatByIP(ip, now, lease, fate);
        done := Op.HeartbeatIP(ip, found, now, lease);
      case Validate(uuid, now) => var _, _ := Validate(uuid, now, fate);
      case HeartbeatUUID(uuid, ip, hostname, now, lease) =>
        var _, _ := HeartbeatByUUID(uuid, ip, hostname, now, lease, fate);
      case Unblock(uuid, now, lease) => var _, _ := Unblock(uuid, now, lease, fate);
      case SetMaintenance(uuid, enabled, now, lease) => var _, _ := SetMaintenance(uuid, enabled, now, lease, fate);
    }

    /** The holder of the address, or failing that any node that reported it in a heartbeat. */
    method LookupByIP(ip: string) returns (uuid: string, record: LeaseRecord, err: Option<LeaseError>)
      ensures Identifies(nodes, ip, if err == None then Some(uuid) else None)
      ensures err == None ==> uuid in nodes && record == nodes[uuid]
      ensures err.Some? ==> err == Some(NodeIPNotFound) && uuid == "" && record == ZERO_RECORD
    {
      var ok;
      uuid, record, ok := RecordByIP(ip);
      if ok {
        return uuid, record, None;
      }
      var remaining := nodes.Keys;
      while remaining != {}
        invariant remaining <= nodes.Keys
        invariant forall u :: u in nodes && u !in remaining ==> nodes[u].nodeIP != ip
      {
        var u :| u in remaining;
        remaining := remaining - {u};
        if nodes[u].nodeIP == ip {
          return u, nodes[u], None;
        }
      }
      return "", ZERO_RECORD, Some(NodeIPNotFound);
    }
  }
}
