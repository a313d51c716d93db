/**
  Unseal as a protocol step: it consults the lease store twice (Validate, then Bootstrap)
  with the mutex released in between, so any number of Unseals, heartbeats, admin calls
  and checks may interleave with the two halves of one Unseal.
 */
module UnsealProtocol {
  import opened Options
  import opened Lease
  import opened LeaseRuns

  /** The node map, and the node of every Unseal that passed Validate and has not finished. */
  datatype State = State(nodes: Nodes, inFlight: map<nat, string>)

  datatype Event =
    | Begin(id: nat, uuid: string, now: Time)                      // Unseal: the Validate half
    | Commit(id: nat, ip: string, now: Time, lease: Duration)      // Unseal: decrypted, the Bootstrap half
    | Drop(id: nat)                                                // Unseal: refused after Validate
    | Request(op: Op)                                              // any other caller of the store

  const START: State := State(map[], map[])

  /** validateLease: an unregistered node is let in, as its first Unseal registers it. */
  predicate LetsIn(answer: Verdict) {
    answer == Admitted || answer == NotRegistered
  }

  ghost predicate Enabled(s: State, e: Event) {
    match e
    case Begin(id, uuid, _) => id !in s.inFlight && uuid != ""
    case Commit(id, _, _, _) => id in s.inFlight
    case Drop(id) => id in s.inFlight
    case Request(op) => !op.Bootstrap? && !op.Validate? && Possible(s.nodes, op)
  }

  /** The store operation an event performs, if any. */
  function StoreOp(s: State, e: Event): Option<Op> {
    match e
    case Begin(_, uuid, now) => Some(Validate(uuid, now))
    case Commit(id, ip, now, lease) =>
      if id in s.inFlight then Some(Bootstrap(s.inFlight[id], ip, now, lease)) else None
    case Drop(_) => None
    case Request(op) => Some(op)
  }

  function Next(s: State, e: Event): State {
    var nodes' := match StoreOp(s, e) case Some(op) => Apply(s.nodes, op) case None => s.nodes;
    match e
    case Begin(id, uuid, now) =>
      State(nodes', if LetsIn(Answer(s.nodes, uuid, now)) then s.inFlight[id := uuid] else s.inFlight)
    case Commit(id, _, _, _) => State(nodes', s.inFlight - {id})
    case Drop(id) => State(nodes', s.inFlight - {id})
    case Request(_) => State(nodes', s.inFlight)
  }

  /** Whom Begin lets in: an unknown node, or one neither blocked, tagged expired nor past its lease. */
  lemma BeginExactly(s: State, id: nat, u: string, now: Time)
    requires id !in s.inFlight
    ensures id in Next(s, Begin(id, u, now)).inFlight <==>
            (u in s.nodes ==>
               && s.nodes[u].status != Blocked && s.nodes[u].status != Expired
               && (s.nodes[u].leaseUntil == UNSET || now <= s.nodes[u].leaseUntil))
    ensures Next(s, Begin(id, u, now)).nodes == Apply(s.nodes, Validate(u, now))
  {
  }

  ghost function Exec(s: State, evs: seq<Event>): State {
    if evs == [] then s else Next(Exec(s, evs[..|evs| - 1]), evs[|evs| - 1])
  }

  ghost predicate CanRun(s: State, evs: seq<Event>) {
    forall i :: 0 <= i < |evs| ==> Enabled(Exec(s, evs[..i]), evs[i])
  }

  lemma CanRunPrefix(s: State, evs: seq<Event>)
    requires CanRun(s, evs) && evs != []
    ensures CanRun(s, evs[..|evs| - 1]) && Enabled(Exec(s, evs[..|evs| - 1]), evs[|evs| - 1])
  {
    var init := evs[..|evs| - 1];
    forall i | 0 <= i < |init| ensures Enabled(Exec(s, init[..i]), init[i]) {
      assert init[..i] == evs[..i];
    }
  }

  // ---------- Protocol runs are runs of the store ----------

  ghost function OpsOf(s: State, evs: seq<Event>): seq<Op> {
    if evs == [] then []
    else
      var init, last := evs[..|evs| - 1], evs[|evs| - 1];
      match StoreOp(Exec(s, init), last)
      case Some(op) => OpsOf(s, init) + [op]
      case None => OpsOf(s, init)
  }

  /** Whatever interleaves, the node map is the replay of the operations performed. */
  lemma {:induction false} ProtocolRefinesStore(s: State, evs: seq<Event>)
    requires CanRun(s, evs)
    ensures Exec(s, evs).nodes == Replay(s.nodes, OpsOf(s, evs))
    ensures PossibleRun(s.nodes, OpsOf(s, evs))
    decreases |evs|
  {
    hide Apply, Replay, Possible, PossibleRun, CanRun;
    EmptyReplay(s.nodes);
    if evs == [] {
      NothingPossible(s.nodes);
    } else {
      var init, last := evs[..|evs| - 1], evs[|evs| - 1];
      CanRunPrefix(s, evs);
      ProtocolRefinesStore(s, init);
      var step := StoreOp(Exec(s, init), last);
      if step.Some? {
        EventIsPossible(Exec(s, init), last);
        ReplaySnoc(s.nodes, OpsOf(s, init), step.value);
        PossibleSnoc(s.nodes, OpsOf(s, init), step.value);
      }
    }
  }

  lemma EventIsPossible(s: State, e: Event)
    requires Enabled(s, e)
    ensures StoreOp(s, e).Some? ==> Possible(s.nodes, StoreOp(s, e).value)
  {
  }

  /**
    Every Unseal that is let in, anywhere in any interleaving, is for a node that is either
    unregistered or was heard of recently enough by both deadlines.
   */
  lemma UnsealAdmissionBound(evs: seq<Event>, id: nat, u: string, now: Time, lease: Duration, timeout: Duration)
    requires CanRun(START, evs + [Begin(id, u, now)])
    requires var ops := OpsOf(START, evs); Started(ops) && LeaseIs(ops, lease) && lease > 0
    requires id in Exec(START, evs + [Begin(id, u, now)]).inFlight
    ensures var nodes, ops := Exec(START, evs).nodes, OpsOf(START, evs);
            u in nodes ==>
              && now - nodes[u].lastHeartbeatAt <= lease
              && (Monotone(ops) && TimeoutIs(ops, timeout) && timeout < MAX_DURATION && !nodes[u].maintenance ==>
                    forall k :: 0 <= k < |ops| && ops[k].Check? ==>
                      now - nodes[u].lastHeartbeatAt <= Max(timeout, 0) + (now - ops[k].now))
  {
    var all := evs + [Begin(id, u, now)];
    assert all[..|all| - 1] == evs;
    CanRunPrefix(START, all);
    ProtocolRefinesStore(START, evs);
    if u in Exec(START, evs).nodes {
      AdmissionBound(OpsOf(START, evs), lease, timeout, u, now);
    }
  }

  // ---------- What leaves Blocked ----------

  predicate IsBlocked(nodes: Nodes, u: string) {
    u in nodes && nodes[u].status == Blocked
  }

  /** `u` is blocked, since the same time and for the same reason as before. */
  predicate StillBlocked(before: Nodes, after: Nodes, u: string) {
    && IsBlocked(before, u) && IsBlocked(after, u)
    && after[u].blockedAt == before[u].blockedAt
    && after[u].blockReason == before[u].blockReason
  }

  /** Of all operations, only Unblock and Bootstrap of the node itself leave Blocked. */
  lemma BlockedLeftOnlyBy(nodes: Nodes, op: Op, u: string)
    requires IsBlocked(nodes, u)
    ensures if (op.Unblock? || op.Bootstrap?) && op.uuid == u
            then Apply(nodes, op)[u].status == Active
            else StillBlocked(nodes, Apply(nodes, op), u)
  {
  }

  predicate IsUnblockOf(e: Event, u: string) {
    e.Request? && e.op.Unblock? && e.op.uuid == u
  }

  ghost predicate Unblocks(evs: seq<Event>, u: string) {
    exists i :: 0 <= i < |evs| && IsUnblockOf(evs[i], u)
  }

  ghost predicate UnsealPending(s: State, u: string) {
    exists id :: id in s.inFlight && s.inFlight[id] == u
  }

  lemma StepStaysBlocked(s: State, e: Event, u: string)
    requires IsBlocked(s.nodes, u) && !UnsealPending(s, u)
    requires Enabled(s, e) && !IsUnblockOf(e, u)
    ensures StillBlocked(s.nodes, Next(s, e).nodes, u) && !UnsealPending(Next(s, e), u)
  {
  }

  lemma CanRunSnoc(s: State, evs: seq<Event>, e: Event)
    requires CanRun(s, evs) && Enabled(Exec(s, evs), e)
    ensures CanRun(s, evs + [e]) && Exec(s, evs + [e]) == Next(Exec(s, evs), e)
  {
    var all := evs + [e];
    assert all[..|evs|] == evs;
    forall i | 0 <= i < |all| ensures Enabled(Exec(s, all[..i]), all[i]) {
      if i < |evs| {
        assert all[..i] == evs[..i];
      }
    }
  }

  const REGISTERED: LeaseRecord := Bootstrapped(None, "10.0.0.1", 2, 100)

  lemma WitnessSteps()
    ensures Next(START, Begin(0, "a", 1)) == State(map[], map[0 := "a"])
    ensures Next(State(map[], map[0 := "a"]), Commit(0, "10.0.0.1", 2, 100)) == State(map["a" := REGISTERED], map[])
    ensures Next(State(map["a" := REGISTERED], map[]), Begin(1, "a", 50)) == State(map["a" := REGISTERED], map[1 := "a"])
  {
    assert Apply(map[], Bootstrap("a", "10.0.0.1", 2, 100)) == map["a" := REGISTERED];
    assert Apply(map["a" := REGISTERED], Validate("a", 50)) == map["a" := REGISTERED];
  }

  lemma NothingRun(s: State)
    ensures CanRun(s, []) && Exec(s, []) == s
  {
  }

  /** Node "a" registers by a first Unseal and begins a second one. */
  lemma WitnessPrefix() returns (evs: seq<Event>)
    ensures CanRun(START, evs) && forall i :: 0 <= i < |evs| ==> !evs[i].Request?
    ensures Exec(START, evs) == State(map["a" := REGISTERED], map[1 := "a"])
  {
    hide CanRun, Exec, Next;
    var e1, e2, e3 := Begin(0, "a", 1), Commit(0, "10.0.0.1", 2, 100), Begin(1, "a", 50);
    WitnessSteps();
    NothingRun(START);
    CanRunSnoc(START, [], e1);
    CanRunSnoc(START, [] + [e1], e2);
    CanRunSnoc(START, [] + [e1] + [e2], e3);
    evs := [] + [e1] + [e2] + [e3];
  }

  /** The race is reachable: a check between the halves of an Unseal is undone by its Bootstrap. */
  lemma RaceWitness() returns (evs: seq<Event>, check: Event, commit: Event)
    ensures CanRun(START, evs + [check] + [commit]) && !Unblocks(evs + [check] + [commit], "a")
    ensures IsBlocked(Exec(START, evs + [check]).nodes, "a")
    ensures !IsBlocked(Exec(START, evs + [check] + [commit]).nodes, "a")
  {
    hide Exec, CanRun;
    evs := WitnessPrefix();
    check, commit := Request(Check(60, 30)), Commit(1, "10.0.0.1", 61, 100);
    var s := Exec(START, evs);
    CanRunSnoc(START, evs, check);
    ApplyIsLocal(s.nodes, check.op, "a");
    CanRunSnoc(START, evs + [check], commit);
    BlockedLeftOnlyBy(Exec(START, evs + [check]).nodes, Bootstrap("a", "10.0.0.1", 61, 100), "a");
    var all := evs + [check] + [commit];
    forall i | 0 <= i < |all| ensures !IsUnblockOf(all[i], "a") {
      if i < |evs| {
        assert all[i] == evs[i];
      }
    }
  }
}
