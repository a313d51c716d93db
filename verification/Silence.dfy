/**
  When a node was last heard of, from the history alone, and what that makes a check do. The
  documentation says that a node silent for longer than the timeout becomes blocked; this is
  the place where it is settled exactly when it does.
 */
module Silence {
  import opened Options
  import opened Lease
  import opened LeaseRuns
  import opened Durability

  // ---------- The latest refresh ----------

  /** The operation finds the record `r` of `u` in a state that it refreshes. */
  predicate RefreshesRecord(u: string, r: Option<LeaseRecord>, op: Op) {
    match op
    case Bootstrap(v, _, _, _) => v == u
    case HeartbeatIP(_, found, now, _) =>
      found == Some(u) && r.Some? && r.value.status != Blocked && !CountsExpired(r.value, now)
    case HeartbeatUUID(v, _, _, _, _) => v == u && (r.Some? ==> r.value.status != Blocked)
    case Unblock(v, _, _) => v == u && r.Some?
    case SetMaintenance(v, enabled, _, _) => v == u && !enabled && r.Some?
    case Validate(_, _) => false
    case Check(_, _) => false
  }

  /** The reading of the latest operation that refreshed `u`; what was stored at the start if there is none. */
  ghost function LastRefresh(nodes: Nodes, ops: seq<Op>, u: string): Time {
    if ops == [] then (if u in nodes then nodes[u].lastHeartbeatAt else UNSET)
    else
      var init, last := ops[..|ops| - 1], ops[|ops| - 1];
      if RefreshesRecord(u, Get(Replay(nodes, init), u), last) then last.now else LastRefresh(nodes, init, u)
  }

  /** `u` was put into maintenance, and neither taken out of it nor booted since. */
  ghost predicate InMaintenance(nodes: Nodes, ops: seq<Op>, u: string) {
    if ops == [] then u in nodes && nodes[u].maintenance
    else
      var init, last := ops[..|ops| - 1], ops[|ops| - 1];
      if last.Bootstrap? && last.uuid == u then false
      else if last.SetMaintenance? && last.uuid == u then u in Replay(nodes, init) && last.enabled
      else InMaintenance(nodes, init, u)
  }

  lemma RefreshStep(u: string, r: Option<LeaseRecord>, op: Op)
    ensures var r' := StepNode(u, r, op);
            && (r.Some? ==> r'.Some?)
            && (RefreshesRecord(u, r, op) ==> r'.Some? && r'.value.lastHeartbeatAt == op.now)
            && (!RefreshesRecord(u, r, op) && r'.Some? ==>
                  r.Some? && r'.value.lastHeartbeatAt == r.value.lastHeartbeatAt)
            && (r'.Some? ==>
                  r'.value.maintenance ==
                  if op.Bootstrap? && op.uuid == u then false
                  else if op.SetMaintenance? && op.uuid == u then op.enabled
                  else r.Some? && r.value.maintenance)
  {
  }

  lemma {:induction false} NeverInMaintenance(nodes: Nodes, ops: seq<Op>, u: string)
    requires u !in Replay(nodes, ops)
    ensures !InMaintenance(nodes, ops, u)
    decreases |ops|
  {
    hide Apply, StepNode;
    if ops == [] {
    } else {
      var init, last := ops[..|ops| - 1], ops[|ops| - 1];
      ApplyIsLocal(Replay(nodes, init), last, u);
      RefreshStep(u, Get(Replay(nodes, init), u), last);
      NeverInMaintenance(nodes, init, u);
    }
  }

  /** What the store keeps of a node's last sign of life and its maintenance is exactly its history. */
  lemma {:induction false} StoredTimeIsLastRefresh(nodes: Nodes, ops: seq<Op>, u: string)
    requires u in Replay(nodes, ops)
    ensures Replay(nodes, ops)[u].lastHeartbeatAt == LastRefresh(nodes, ops, u)
    ensures Replay(nodes, ops)[u].maintenance <==> InMaintenance(nodes, ops, u)
    decreases |ops|
  {
    hide Apply, StepNode;
    if ops == [] {
    } else {
      var init, last := ops[..|ops| - 1], ops[|ops| - 1];
      ApplyIsLocal(Replay(nodes, init), last, u);
      RefreshStep(u, Get(Replay(nodes, init), u), last);
      if u in Replay(nodes, init) {
        StoredTimeIsLastRefresh(nodes, init, u);
      } else {
        NeverInMaintenance(nodes, init, u);
      }
    }
  }

  /**
    Exactly when a check blocks a node, for every run with crashes and failures: it is active and
    not in maintenance, and its latest refresh that has survived is further back than the timeout.
   */
  lemma {:induction false} CheckBlocksExactly(m: Machine, es: seq<Micro>, u: string, now: Time, timeout: Duration)
    requires Booted(m) && CanLive(m, es) && timeout < MAX_DURATION
    ensures var at, seen := Live(m, es).mem, History(es).seen;
            u in OverdueNodes(at, now, timeout) <==>
              && u in at && at[u].status == Active && !InMaintenance(m.mem, seen, u)
              && LastRefresh(m.mem, seen, u) != UNSET && now - LastRefresh(m.mem, seen, u) > timeout
  {
    hide Live, Replay, CanLive, LastRefresh, InMaintenance, Apply;
    CrashRefinement(m, es);
    if u in Live(m, es).mem {
      StoredTimeIsLastRefresh(m.mem, History(es).seen, u);
      OverdueIsSilence(Live(m, es).mem[u], now, timeout);
    }
  }

  // ---------- Silent nodes that no check blocks ----------

  /** Validate or a heartbeat over gRPC looks at the lease of `u`. */
  predicate LooksAt(op: Op, u: string) {
    (op.Validate? && op.uuid == u) || (op.HeartbeatIP? && op.found == Some(u))
  }

  predicate Renews(op: Op, u: string) {
    (op.Bootstrap? || op.Unblock? || op.HeartbeatUUID?) && op.uuid == u
  }

  /**
    Validate or a heartbeat over gRPC came upon `u`, not blocked, after its lease had run out, and no
    Bootstrap, Unblock or heartbeat by UUID of it came since.
   */
  ghost predicate ExpiryNoticed(ops: seq<Op>, u: string, lease: Duration) {
    ops != [] &&
    var init, last := ops[..|ops| - 1], ops[|ops| - 1];
    if Renews(last, u) then false
    else if LooksAt(last, u) && RunOut(Replay(map[], init), u, LastRefresh(map[], init, u) + lease, last.now) then true
    else ExpiryNoticed(init, u, lease)
  }

  predicate RunOut(nodes: Nodes, u: string, until: Time, now: Time) {
    u in nodes && nodes[u].status != Blocked && now > until
  }

  lemma NoticeStep(u: string, r: Option<LeaseRecord>, op: Op, lease: Duration)
    requires r.Some? ==> WellKept(r.value, lease)
    ensures var r' := StepNode(u, r, op);
            r'.Some? && r'.value.status == Expired <==>
              && !Renews(op, u) && r.Some?
              && (|| r.value.status == Expired
                  || (LooksAt(op, u) && r.value.status != Blocked && op.now > r.value.lastHeartbeatAt + lease))
  {
  }

  /** The stored tag is exactly that history. */
  lemma {:induction false} ExpiredIsNoticed(ops: seq<Op>, u: string, lease: Duration)
    requires Started(ops) && LeaseIs(ops, lease) && lease > 0
    ensures u in Replay(map[], ops) && Replay(map[], ops)[u].status == Expired <==> ExpiryNoticed(ops, u, lease)
    decreases |ops|
  {
    hide Apply, StepNode, WellKept, LastRefresh;
    if ops == [] {
    } else {
      var init, last := ops[..|ops| - 1], ops[|ops| - 1];
      ExpiredIsNoticed(init, u, lease);
      RecordInvariant(init, lease, u);
      ApplyIsLocal(Replay(map[], init), last, u);
      NoticeStep(u, Get(Replay(map[], init), u), last, lease);
      if u in Replay(map[], init) {
        StoredTimeIsLastRefresh(map[], init, u);
      }
    }
  }

  /**
    The documented rule is that silence beyond the timeout blocks. Over all runs it does so, for a
    node that is not blocked yet, if and only if the node is not in maintenance and nobody has
    noticed that its lease ran out.
   */
  lemma {:induction false} SilenceBlocksExactly(ops: seq<Op>, lease: Duration, u: string, now: Time, timeout: Duration)
    requires Started(ops) && LeaseIs(ops, lease) && lease > 0 && timeout < MAX_DURATION
    requires u in Replay(map[], ops) && now - LastRefresh(map[], ops, u) > timeout
    ensures u in Apply(Replay(map[], ops), Check(now, timeout))
    ensures Apply(Replay(map[], ops), Check(now, timeout))[u].status == Blocked <==>
            || Replay(map[], ops)[u].status == Blocked
            || (!InMaintenance(map[], ops, u) && !ExpiryNoticed(ops, u, lease))
  {
    hide Replay, LastRefresh, InMaintenance, ExpiryNoticed, Apply;
    RecordInvariant(ops, lease, u);
    StoredTimeIsLastRefresh(map[], ops, u);
    ExpiredIsNoticed(ops, u, lease);
    var r := Replay(map[], ops)[u];
    OverdueIsSilence(r, now, timeout);
    ApplyIsLocal(Replay(map[], ops), Check(now, timeout), u);
  }

  /** With a lease shorter than the timeout, a node escapes every check and comes back without an admin. */
  lemma ExpiredEscapesWitness() returns (ops: seq<Op>, check: Op, beat: Op)
    ensures PossibleRun(map[], ops) && Started(ops) && LeaseIs(ops, 60) && check == Check(100_000, 120)
    ensures beat.HeartbeatUUID? && beat.uuid == "a" && beat.now == 200_000 && beat.lease == 60
    ensures var at := Apply(Replay(map[], ops), check);
            && "a" in at && at["a"].lastHeartbeatAt == 1 && at["a"].status == Expired
            && Answer(Apply(at, beat), "a", 200_001) == Admitted
  {
    hide Apply, Replay;
    var first, look := HeartbeatUUID("a", "10.0.0.1", "", 1, 60), Validate("a", 70);
    ops := [] + [first] + [look];
    check, beat := Check(100_000, 120), HeartbeatUUID("a", "10.0.0.1", "", 200_000, 60);
    EmptyReplay(map[]);
    ReplaySnoc(map[], [], first);
    ReplaySnoc(map[], [] + [first], look);
    var beaten := Apply(map[], first);
    ApplyIsLocal(map[], first, "a");
    ApplyIsLocal(beaten, look, "a");
    ApplyIsLocal(Apply(beaten, look), check, "a");
    ApplyIsLocal(Apply(Apply(beaten, look), check), beat, "a");
  }
}
