/**
  What holds over whole runs of the lease store: every theorem here is about an
  arbitrary sequence of operations, in any order and interleaving, applied to the
  node map. Where a theorem needs the clock readings to be non-decreasing in lock
  order, `Monotone` is an explicit hypothesis.
 */
module LeaseRuns {
  import opened Options
  import opened Lease

  function Max(a: int, b: int): int {
    if a > b then a else b
  }

  // ---------- The record invariant ----------

  /** How the fields of one record depend on each other. */
  ghost predicate WellKept(r: LeaseRecord, lease: Duration) {
    && r.lastHeartbeatAt > UNSET
    && r.leaseUntil > UNSET
    && r.leaseUntil == r.lastHeartbeatAt + lease
    && r.firstSeen > UNSET
    && !r.status.Other?
    && (r.status == Blocked <==> r.blockedAt != UNSET)
    && (r.status == Blocked <==> r.blockReason != "")
    && (r.maintenance <==> r.maintenanceAt != UNSET)
  }

  lemma StepKeepsRecord(u: string, r: Option<LeaseRecord>, op: Op, lease: Duration)
    requires r.Some? ==> WellKept(r.value, lease)
    requires op.now > UNSET && lease > 0 && (!op.Validate? && !op.Check? ==> op.lease == lease)
    ensures StepNode(u, r, op).Some? ==> WellKept(StepNode(u, r, op).value, lease)
  {
  }

  /** Every record of every reachable map is well kept. */
  lemma {:induction false} RecordInvariant(ops: seq<Op>, lease: Duration, u: string)
    requires Started(ops) && LeaseIs(ops, lease) && lease > 0
    ensures u in Replay(map[], ops) ==> WellKept(Replay(map[], ops)[u], lease)
    decreases |ops|
  {
    if ops == [] {
    } else {
      var init, last := ops[..|ops| - 1], ops[|ops| - 1];
      RecordInvariant(init, lease, u);
      ApplyIsLocal(Replay(map[], init), last, u);
      StepKeepsRecord(u, Get(Replay(map[], init), u), last, lease);
    }
  }

  lemma StepKeepsNode(nodes: Nodes, op: Op, u: string)
    requires u in nodes
    ensures u in Apply(nodes, op) && Apply(nodes, op)[u].firstSeen == nodes[u].firstSeen
  {
  }

  /** No operation removes a node or changes when it was first seen. */
  lemma {:induction false} NodesAreKept(nodes: Nodes, ops: seq<Op>, i: nat, u: string)
    requires i <= |ops| && u in Replay(nodes, ops[..i])
    ensures u in Replay(nodes, ops)
    ensures Replay(nodes, ops)[u].firstSeen == Replay(nodes, ops[..i])[u].firstSeen
    decreases |ops|
  {
    if i == |ops| {
      assert ops[..i] == ops;
    } else {
      var init, last := ops[..|ops| - 1], ops[|ops| - 1];
      assert init[..i] == ops[..i];
      NodesAreKept(nodes, init, i, u);
      StepKeepsNode(Replay(nodes, init), last, u);
    }
  }

  // ---------- The admission bound ----------

  /** With the timeout inside the duration range, saturation is invisible. */
  lemma OverdueIsSilence(r: LeaseRecord, now: Time, timeout: Duration)
    requires timeout < MAX_DURATION
    ensures Overdue(r, now, timeout) <==>
            r.status == Active && !r.maintenance && r.lastHeartbeatAt != UNSET && now - r.lastHeartbeatAt > timeout
  {
  }

  /** If active outside maintenance, heard of at `since` or later. */
  predicate Vouched(r: Option<LeaseRecord>, since: Time) {
    r.Some? && r.value.status == Active && !r.value.maintenance ==> r.value.lastHeartbeatAt >= since
  }

  lemma VouchedStep(u: string, r: Option<LeaseRecord>, op: Op, since: Time)
    requires Vouched(r, since) && since <= op.now
    ensures Vouched(StepNode(u, r, op), since)
  {
  }

  lemma CheckVouches(u: string, r: Option<LeaseRecord>, op: Op)
    requires op.Check? && op.timeout < MAX_DURATION
    requires r.Some? ==> r.value.lastHeartbeatAt > UNSET
    ensures Vouched(StepNode(u, r, op), op.now - Max(op.timeout, 0))
  {
  }

  /**
    After any check, an active node outside maintenance has been heard of since
    (that check's time - timeout), however many operations came later.
   */
  lemma {:induction false} HeardSinceCheck(ops: seq<Op>, lease: Duration, timeout: Duration, k: nat, u: string)
    requires Started(ops) && LeaseIs(ops, lease) && lease > 0
    requires Monotone(ops) && TimeoutIs(ops, timeout) && timeout < MAX_DURATION
    requires k < |ops| && ops[k].Check?
    ensures var nodes := Replay(map[], ops);
            u in nodes && nodes[u].status == Active && !nodes[u].maintenance ==>
              nodes[u].lastHeartbeatAt >= ops[k].now - Max(timeout, 0)
    decreases |ops|
  {
    hide Apply, StepNode;
    var init, last := ops[..|ops| - 1], ops[|ops| - 1];
    var r := Get(Replay(map[], init), u);
    ApplyIsLocal(Replay(map[], init), last, u);
    if k == |ops| - 1 {
      RecordInvariant(init, lease, u);
      CheckVouches(u, r, last);
    } else {
      HeardSinceCheck(init, lease, timeout, k, u);
      assert init[k] == ops[k] && ops[k].now <= last.now;
      VouchedStep(u, r, last, ops[k].now - Max(timeout, 0));
    }
  }

  /**
    Admission over whole runs: a registered node that Validate admits has been heard of
    within the lease duration and, outside maintenance, within the heartbeat timeout
    plus the time since any check (in particular the latest).
   */
  lemma AdmissionBound(ops: seq<Op>, lease: Duration, timeout: Duration, u: string, now: Time)
    requires Started(ops) && LeaseIs(ops, lease) && lease > 0
    requires u in Replay(map[], ops) && Answer(Replay(map[], ops), u, now) == Admitted
    ensures now - Replay(map[], ops)[u].lastHeartbeatAt <= lease
    ensures Monotone(ops) && TimeoutIs(ops, timeout) && timeout < MAX_DURATION
            && !Replay(map[], ops)[u].maintenance ==>
              forall k :: 0 <= k < |ops| && ops[k].Check? ==>
                now - Replay(map[], ops)[u].lastHeartbeatAt <= Max(timeout, 0) + (now - ops[k].now)
  {
    RecordInvariant(ops, lease, u);
    if Monotone(ops) && TimeoutIs(ops, timeout) && timeout < MAX_DURATION {
      forall k | 0 <= k < |ops| && ops[k].Check?
        ensures !Replay(map[], ops)[u].maintenance ==>
                  now - Replay(map[], ops)[u].lastHeartbeatAt <= Max(timeout, 0) + (now - ops[k].now)
      {
        HeardSinceCheck(ops, lease, timeout, k, u);
      }
    }
  }

  // ---------- The address index ----------

  /** The node whose Bootstrap was the latest on `ip`. */
  ghost function LatestOn(ops: seq<Op>, ip: string): Option<string> {
    if ops == [] then None
    else
      var last := ops[|ops| - 1];
      if last.Bootstrap? && last.ip == ip then Some(last.uuid) else LatestOn(ops[..|ops| - 1], ip)
  }

  /** The address of the latest Bootstrap of `u`. */
  ghost function LatestOf(ops: seq<Op>, u: string): Option<string> {
    if ops == [] then None
    else
      var last := ops[|ops| - 1];
      if last.Bootstrap? && last.uuid == u then Some(last.ip) else LatestOf(ops[..|ops| - 1], u)
  }

  predicate HoldsIn(r: Option<LeaseRecord>, ip: string) {
    r.Some? && r.value.lastUnsealIP == ip
  }

  lemma HoldStep(u: string, r: Option<LeaseRecord>, op: Op, ip: string)
    requires ip != ""
    ensures HoldsIn(StepNode(u, r, op), ip) <==>
            if op.Bootstrap? && op.uuid == u then op.ip == ip
            else HoldsIn(r, ip) && !(op.Bootstrap? && op.ip == ip)
  {
  }

  /** The address held by a node is exactly what the history of Bootstraps says. */
  lemma {:induction false} AddressIndexIsHistory(ops: seq<Op>, u: string, ip: string)
    requires ip != ""
    ensures Holds(Replay(map[], ops), u, ip) <==> LatestOn(ops, ip) == Some(u) && LatestOf(ops, u) == Some(ip)
    decreases |ops|
  {
    hide Apply, StepNode;
    if ops == [] {
    } else {
      var init, last := ops[..|ops| - 1], ops[|ops| - 1];
      AddressIndexIsHistory(init, u, ip);
      ApplyIsLocal(Replay(map[], init), last, u);
      HoldStep(u, Get(Replay(map[], init), u), last, ip);
    }
  }

  // ---------- The stored Expired tag and the clock ----------

  /** The answer of Validate if it looked at the clock and not at the Expired tag. */
  function ClockAnswer(r: LeaseRecord, now: Time): Verdict {
    if r.status == Blocked then DeniedBlocked
    else if IsExpired(r, now) then DeniedExpired
    else Admitted
  }

  /**
    Maintenance was switched off on `u` while `u` was tagged expired, and no Bootstrap,
    Unblock or heartbeat by UUID of `u` came after.
   */
  ghost predicate TagIsStale(ops: seq<Op>, u: string) {
    ops != [] &&
    var init, last := ops[..|ops| - 1], ops[|ops| - 1];
    if last.SetMaintenance? && last.uuid == u && !last.enabled then
      u in Replay(map[], init) && Replay(map[], init)[u].status == Expired
    else if (last.Bootstrap? || last.Unblock? || last.HeartbeatUUID?) && last.uuid == u then
      false
    else
      TagIsStale(init, u)
  }

  /** How one operation moves a record in or out of Expired. */
  lemma ExpiredStep(u: string, r: Option<LeaseRecord>, op: Op)
    ensures var r' := StepNode(u, r, op);
            r'.Some? && r'.value.status == Expired ==>
              && (IsExpired(r'.value, op.now) || (r.Some? && r.value.status == Expired))
              && (r.Some? && r.value.status == Expired && !(op.SetMaintenance? && op.uuid == u && !op.enabled) ==>
                    r'.value.leaseUntil == r.value.leaseUntil)
              && !((op.Bootstrap? || op.Unblock? || op.HeartbeatUUID?) && op.uuid == u)
    ensures r.Some? && r.value.status == Expired
            && !((op.Bootstrap? || op.Unblock? || op.HeartbeatUUID?) && op.uuid == u)
            ==> StepNode(u, r, op).Some? && StepNode(u, r, op).value.status == Expired
  {
  }

  lemma {:induction false} ExpiredTagInvariant(ops: seq<Op>, u: string)
    requires Monotone(ops)
    ensures TagIsStale(ops, u) ==> u in Replay(map[], ops) && Replay(map[], ops)[u].status == Expired
    ensures !TagIsStale(ops, u) && u in Replay(map[], ops) && Replay(map[], ops)[u].status == Expired ==>
              ops != [] && IsExpired(Replay(map[], ops)[u], ops[|ops| - 1].now)
    decreases |ops|
  {
    if ops == [] {
    } else {
      var init, last := ops[..|ops| - 1], ops[|ops| - 1];
      ExpiredTagInvariant(init, u);
      ApplyIsLocal(Replay(map[], init), last, u);
      ExpiredStep(u, Get(Replay(map[], init), u), last);
      if init != [] {
        assert init[|init| - 1].now <= last.now;
      }
    }
  }

  /**
    With non-decreasing time, Validate answers from (blocked?, now, leaseUntil) alone,
    except exactly when the tag is stale and the lease it hides has not run out.
   */
  lemma ValidateIgnoresTag(ops: seq<Op>, u: string, now: Time)
    requires Monotone(ops) && u in Replay(map[], ops)
    requires ops != [] ==> ops[|ops| - 1].now <= now
    ensures var r := Replay(map[], ops)[u];
            Answer(Replay(map[], ops), u, now) == ClockAnswer(r, now)
            <==> !(TagIsStale(ops, u) && !IsExpired(r, now))
  {
    ExpiredTagInvariant(ops, u);
  }

  /** The exception is reachable: a lease renewed by leaving maintenance is still refused. */
  lemma StaleTagWitness() returns (ops: seq<Op>, now: Time)
    ensures PossibleRun(map[], ops) && Monotone(ops) && Started(ops) && LeaseIs(ops, 10)
    ensures TagIsStale(ops, "a") && ops[|ops| - 1].now <= now
    ensures Answer(Replay(map[], ops), "a", now) == DeniedExpired
    ensures ClockAnswer(Replay(map[], ops)["a"], now) == Admitted
  {
    var boot, seen, back := Bootstrap("a", "10.0.0.1", 1, 10), Validate("a", 20), SetMaintenance("a", false, 30, 10);
    ops, now := [] + [boot] + [seen] + [back], 31;
    ReplaySnoc(map[], [], boot);
    ReplaySnoc(map[], [] + [boot], seen);
    ReplaySnoc(map[], [] + [boot] + [seen], back);
    assert ops[..2] == [] + [boot] + [seen];
    hide Apply, Replay;
    EmptyReplay(map[]);
    var booted := Replay(map[], [] + [boot]);
    ApplyIsLocal(map[], boot, "a");
    ApplyIsLocal(booted, seen, "a");
    ApplyIsLocal(Apply(booted, seen), back, "a");
  }

  // ---------- No false blocking ----------

  /** When `u` last sent a heartbeat by UUID; `start` if it has not in this run. */
  ghost function LastBeat(ops: seq<Op>, u: string, start: Time): Time {
    if ops == [] then start
    else
      var last := ops[|ops| - 1];
      if last.HeartbeatUUID? && last.uuid == u then last.now else LastBeat(ops[..|ops| - 1], u, start)
  }

  /** No operation of the run finds `u` silent for longer than `bound`. */
  ghost predicate Punctual(ops: seq<Op>, u: string, start: Time, bound: int) {
    forall i :: 0 <= i < |ops| ==> start <= ops[i].now && ops[i].now - LastBeat(ops[..i], u, start) <= bound
  }

  ghost predicate Alive(r: LeaseRecord, since: Time, lease: Duration) {
    r.status == Active && r.lastHeartbeatAt >= since && r.leaseUntil == r.lastHeartbeatAt + lease
  }

  /** An alive record heard of at most min(timeout, lease) ago survives any operation. */
  lemma AliveStep(u: string, r: LeaseRecord, op: Op, since: Time, lease: Duration, timeout: Duration)
    requires Alive(r, since, lease) && since <= op.now
    requires op.now - since <= lease && op.now - since <= timeout
    requires !op.Validate? && !op.Check? ==> op.lease == lease
    requires op.Check? ==> op.timeout == timeout
    ensures StepNode(u, Some(r), op).Some?
    ensures Alive(StepNode(u, Some(r), op).value, if op.HeartbeatUUID? && op.uuid == u then op.now else since, lease)
    ensures op.Check? ==> !Overdue(r, op.now, op.timeout)
    ensures !CountsExpired(r, op.now)
  {
    assert !CountsExpired(r, op.now);
    assert op.Check? ==> !Overdue(r, op.now, op.timeout);
  }

  lemma {:induction false} LastBeatIsPast(ops: seq<Op>, u: string, start: Time, now: Time)
    requires start <= now && forall i :: 0 <= i < |ops| ==> ops[i].now <= now
    ensures LastBeat(ops, u, start) <= now
    decreases |ops|
  {
    if ops == [] {
    } else {
      LastBeatIsPast(ops[..|ops| - 1], u, start, now);
    }
  }

  /** The hypotheses of `NoFalseBlocking`. */
  ghost predicate Steady(nodes: Nodes, ops: seq<Op>, u: string, lease: Duration, timeout: Duration) {
    && u in nodes && Alive(nodes[u], nodes[u].lastHeartbeatAt, lease)
    && LeaseIs(ops, lease) && TimeoutIs(ops, timeout) && Monotone(ops)
    && Punctual(ops, u, nodes[u].lastHeartbeatAt, lease)
    && Punctual(ops, u, nodes[u].lastHeartbeatAt, timeout)
  }

  lemma SteadyStep(nodes: Nodes, ops: seq<Op>, u: string, lease: Duration, timeout: Duration, i: nat)
    requires Steady(nodes, ops, u, lease, timeout) && i < |ops|
    requires u in Replay(nodes, ops[..i])
    requires Alive(Replay(nodes, ops[..i])[u], LastBeat(ops[..i], u, nodes[u].lastHeartbeatAt), lease)
    ensures u in Replay(nodes, ops[..i + 1])
    ensures Alive(Replay(nodes, ops[..i + 1])[u], LastBeat(ops[..i + 1], u, nodes[u].lastHeartbeatAt), lease)
    ensures Answer(Replay(nodes, ops[..i]), u, ops[i].now) == Admitted
    ensures ops[i].Check? ==> !Overdue(Replay(nodes, ops[..i])[u], ops[i].now, ops[i].timeout)
  {
    var at, start := Replay(nodes, ops[..i]), nodes[u].lastHeartbeatAt;
    assert start <= ops[i].now;
    LastBeatIsPast(ops[..i], u, start, ops[i].now);
    AliveStep(u, at[u], ops[i], LastBeat(ops[..i], u, start), lease, timeout);
    ApplyIsLocal(at, ops[i], u);
    assert ops[..i + 1][..i] == ops[..i];
  }

  lemma {:induction false} SteadyStaysAlive(nodes: Nodes, ops: seq<Op>, u: string, lease: Duration, timeout: Duration, i: nat)
    requires Steady(nodes, ops, u, lease, timeout) && i <= |ops|
    ensures u in Replay(nodes, ops[..i])
    ensures Alive(Replay(nodes, ops[..i])[u], LastBeat(ops[..i], u, nodes[u].lastHeartbeatAt), lease)
  {
    if i == 0 {
      assert ops[..i] == [];
    } else {
      SteadyStaysAlive(nodes, ops, u, lease, timeout, i - 1);
      SteadyStep(nodes, ops, u, lease, timeout, i - 1);
    }
  }

  /**
    A node that starts active and is never silent for longer than the lease duration
    or the heartbeat timeout stays active through any interleaving of any operations on
    any nodes (its own included): at every point Validate would admit it, and no check
    returns it.
   */
  lemma NoFalseBlocking(nodes: Nodes, ops: seq<Op>, u: string, lease: Duration, timeout: Duration)
    requires Steady(nodes, ops, u, lease, timeout)
    ensures forall i :: 0 <= i <= |ops| ==>
              var at := Replay(nodes, ops[..i]);
              && u in at && at[u].status == Active
              && (i < |ops| ==> Answer(at, u, ops[i].now) == Admitted)
              && (i < |ops| && ops[i].Check? ==> u !in OverdueNodes(at, ops[i].now, ops[i].timeout))
  {
    forall i | 0 <= i <= |ops|
      ensures var at := Replay(nodes, ops[..i]);
              && u in at && at[u].status == Active
              && (i < |ops| ==> Answer(at, u, ops[i].now) == Admitted)
              && (i < |ops| && ops[i].Check? ==> u !in OverdueNodes(at, ops[i].now, ops[i].timeout))
    {
      SteadyStaysAlive(nodes, ops, u, lease, timeout, i);
      if i < |ops| {
        SteadyStep(nodes, ops, u, lease, timeout, i);
      }
    }
  }

  // ---------- Checks ----------

  /** A check repeated at the same time finds nothing and changes nothing. */
  lemma CheckIsIdempotent(nodes: Nodes, now: Time, timeout: Duration)
    ensures OverdueNodes(Apply(nodes, Check(now, timeout)), now, timeout) == {}
    ensures Apply(Apply(nodes, Check(now, timeout)), Check(now, timeout)) == Apply(nodes, Check(now, timeout))
  {
  }

  /** The nodes that are blocked after a step and were not before. */
  ghost function BecameBlocked(before: Nodes, after: Nodes): set<string> {
    set u | u in after && after[u].status == Blocked && !(u in before && before[u].status == Blocked)
  }

  /** Only checks block, and they block exactly the overdue nodes. */
  lemma OnlyChecksBlock(nodes: Nodes, op: Op)
    ensures BecameBlocked(nodes, Apply(nodes, op)) ==
            if op.Check? then OverdueNodes(nodes, op.now, op.timeout) else {}
  {
  }

  /** The timeout counter: each check adds the length of the list it returned. */
  ghost function TimeoutCounter(nodes: Nodes, ops: seq<Op>): nat {
    if ops == [] then 0
    else
      var init, last := ops[..|ops| - 1], ops[|ops| - 1];
      TimeoutCounter(nodes, init)
        + if last.Check? then |OverdueNodes(Replay(nodes, init), last.now, last.timeout)| else 0
  }

  lemma TimeoutCounterSnoc(nodes: Nodes, ops: seq<Op>, op: Op)
    ensures TimeoutCounter(nodes, ops + [op]) ==
            TimeoutCounter(nodes, ops) + if op.Check? then |OverdueNodes(Replay(nodes, ops), op.now, op.timeout)| else 0
  {
    assert (ops + [op])[..|ops|] == ops;
  }

  /** How many times any node became blocked, by whatever step. */
  ghost function Blockings(nodes: Nodes, ops: seq<Op>): nat {
    if ops == [] then 0
    else
      var init := ops[..|ops| - 1];
      Blockings(nodes, init) + |BecameBlocked(Replay(nodes, init), Replay(nodes, ops))|
  }

  /** The counter counts every blocking of the run, once each. */
  lemma {:induction false} CounterCountsBlockings(nodes: Nodes, ops: seq<Op>)
    ensures TimeoutCounter(nodes, ops) == Blockings(nodes, ops)
    decreases |ops|
  {
    if ops == [] {
    } else {
      var init, last := ops[..|ops| - 1], ops[|ops| - 1];
      CounterCountsBlockings(nodes, init);
      OnlyChecksBlock(Replay(nodes, init), last);
    }
  }
}
