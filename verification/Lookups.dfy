/**
  Lookups by address. The map is iterated in any order, so a lookup is a relation: whether it
  has one outcome, and which, is settled here from the history of the store alone.
 */
module Lookups {
  import opened Options
  import opened Lease
  import opened LeaseRuns

  ghost predicate LookupIsDeterministic(nodes: Nodes, ip: string) {
    forall f, f' :: Resolves(nodes, ip, f) && Resolves(nodes, ip, f') ==> f == f'
  }

  ghost predicate IdentifyIsDeterministic(nodes: Nodes, ip: string) {
    forall f, f' :: Identifies(nodes, ip, f) && Identifies(nodes, ip, f') ==> f == f'
  }

  ghost predicate AtMostOneHolder(nodes: Nodes, ip: string) {
    forall u, v :: Holds(nodes, u, ip) && Holds(nodes, v, ip) ==> u == v
  }

  ghost predicate AtMostOneReporter(nodes: Nodes, ip: string) {
    forall u, v :: Reports(nodes, u, ip) && Reports(nodes, v, ip) ==> u == v
  }

  /** A lookup has the same outcome in every iteration order exactly if no two nodes hold the address. */
  lemma LookupExactly(nodes: Nodes, ip: string)
    ensures LookupIsDeterministic(nodes, ip) <==> AtMostOneHolder(nodes, ip)
  {
    forall u, v | LookupIsDeterministic(nodes, ip) && Holds(nodes, u, ip) && Holds(nodes, v, ip)
      ensures u == v
    {
      assert Resolves(nodes, ip, Some(u)) && Resolves(nodes, ip, Some(v));
    }
  }

  /** An identification, exactly if one node holds the address, or none does and at most one gave it. */
  lemma IdentifyExactly(nodes: Nodes, ip: string)
    ensures IdentifyIsDeterministic(nodes, ip) <==>
            if exists u :: Holds(nodes, u, ip) then AtMostOneHolder(nodes, ip) else AtMostOneReporter(nodes, ip)
  {
    forall u, v | IdentifyIsDeterministic(nodes, ip) && Holds(nodes, u, ip) && Holds(nodes, v, ip)
      ensures u == v
    {
      assert Identifies(nodes, ip, Some(u)) && Identifies(nodes, ip, Some(v));
    }
    if !exists u :: Holds(nodes, u, ip) {
      forall u, v | IdentifyIsDeterministic(nodes, ip) && Reports(nodes, u, ip) && Reports(nodes, v, ip)
        ensures u == v
      {
        assert Identifies(nodes, ip, Some(u)) && Identifies(nodes, ip, Some(v));
      }
    }
  }

  // ---------- What the history says ----------

  predicate Registers(op: Op, u: string) {
    (op.Bootstrap? || op.HeartbeatUUID?) && op.uuid == u
  }

  /** A Bootstrap or a heartbeat by UUID of `u` has occurred. */
  ghost predicate Registered(ops: seq<Op>, u: string) {
    exists i :: 0 <= i < |ops| && Registers(ops[i], u)
  }

  lemma RegisterStep(u: string, r: Option<LeaseRecord>, op: Op)
    ensures StepNode(u, r, op).Some? <==> r.Some? || Registers(op, u)
  {
  }

  lemma {:induction false} RegisteredIsHistory(ops: seq<Op>, u: string)
    ensures u in Replay(map[], ops) <==> Registered(ops, u)
    decreases |ops|
  {
    hide Apply, StepNode, Registers;
    if ops == [] {
    } else {
      var init, last := ops[..|ops| - 1], ops[|ops| - 1];
      RegisteredIsHistory(init, u);
      ApplyIsLocal(Replay(map[], init), last, u);
      RegisterStep(u, Get(Replay(map[], init), u), last);
      assert Registers(last, u) ==> Registers(ops[|ops| - 1], u);
      forall i | 0 <= i < |init| ensures init[i] == ops[i] {}
    }
  }

  /** The address of the latest Bootstrap of `u`, if no other node has booted on it since; else none. */
  ghost function HeldAddress(ops: seq<Op>, u: string): string {
    match LatestOf(ops, u)
    case Some(ip) => if LatestOn(ops, ip) == Some(u) then ip else ""
    case None => ""
  }

  /** Who holds any address, the empty one included. */
  lemma HolderIsHistory(ops: seq<Op>, u: string, ip: string)
    ensures Holds(Replay(map[], ops), u, ip) <==> Registered(ops, u) && HeldAddress(ops, u) == ip
  {
    hide Replay, Registered, LatestOf, LatestOn;
    RegisteredIsHistory(ops, u);
    if u in Replay(map[], ops) {
      var held := Replay(map[], ops)[u].lastUnsealIP;
      if held != "" {
        AddressIndexIsHistory(ops, u, held);
      }
      if HeldAddress(ops, u) != "" {
        AddressIndexIsHistory(ops, u, HeldAddress(ops, u));
      }
    }
  }

  /** The address `u` last gave: by booting, or by a heartbeat that was not refused as blocked. */
  ghost function ReportedAddress(ops: seq<Op>, u: string): string {
    if ops == [] then ""
    else
      var init, last := ops[..|ops| - 1], ops[|ops| - 1];
      if last.Bootstrap? && last.uuid == u then last.ip
      else if last.HeartbeatUUID? && last.uuid == u && !IsBlockedIn(init, u) then last.ip
      else ReportedAddress(init, u)
  }

  ghost predicate IsBlockedIn(ops: seq<Op>, u: string) {
    u in Replay(map[], ops) && Replay(map[], ops)[u].status == Blocked
  }

  lemma ReportStep(u: string, r: Option<LeaseRecord>, op: Op)
    ensures var r' := StepNode(u, r, op);
            r'.Some? ==>
              r'.value.nodeIP ==
              if op.Bootstrap? && op.uuid == u then op.ip
              else if op.HeartbeatUUID? && op.uuid == u && !(r.Some? && r.value.status == Blocked) then op.ip
              else if r.Some? then r.value.nodeIP else ""
    ensures r.Some? ==> StepNode(u, r, op).Some?
  {
  }

  lemma {:induction false} ReporterIsHistory(ops: seq<Op>, u: string, ip: string)
    ensures Reports(Replay(map[], ops), u, ip) <==> Registered(ops, u) && ReportedAddress(ops, u) == ip
    decreases |ops|
  {
    RegisteredIsHistory(ops, u);
    hide Registered, Apply, StepNode;
    if ops == [] {
    } else {
      var init, last := ops[..|ops| - 1], ops[|ops| - 1];
      RegisteredIsHistory(init, u);
      ReporterIsHistory(init, u, ReportedAddress(init, u));
      ApplyIsLocal(Replay(map[], init), last, u);
      ReportStep(u, Get(Replay(map[], init), u), last);
      if !Registered(init, u) {
        NeverReported(init, u);
      }
    }
  }

  lemma {:induction false} NeverReported(ops: seq<Op>, u: string)
    requires !Registered(ops, u)
    ensures ReportedAddress(ops, u) == ""
    decreases |ops|
  {
    if ops == [] {
    } else {
      var init, last := ops[..|ops| - 1], ops[|ops| - 1];
      forall i | 0 <= i < |init| ensures init[i] == ops[i] {}
      NeverReported(init, u);
    }
  }

  // ---------- Lookups from the history ----------

  ghost predicate HeldBy(ops: seq<Op>, u: string, ip: string) {
    Registered(ops, u) && HeldAddress(ops, u) == ip
  }

  ghost predicate GivenBy(ops: seq<Op>, u: string, ip: string) {
    Registered(ops, u) && ReportedAddress(ops, u) == ip
  }

  lemma AddressesAreHistory(ops: seq<Op>, ip: string)
    ensures forall u :: Holds(Replay(map[], ops), u, ip) <==> HeldBy(ops, u, ip)
    ensures forall u :: Reports(Replay(map[], ops), u, ip) <==> GivenBy(ops, u, ip)
  {
    hide Replay, Holds, Reports, Registered, HeldAddress, ReportedAddress;
    forall u ensures Holds(Replay(map[], ops), u, ip) <==> HeldBy(ops, u, ip) {
      HolderIsHistory(ops, u, ip);
    }
    forall u ensures Reports(Replay(map[], ops), u, ip) <==> GivenBy(ops, u, ip) {
      ReporterIsHistory(ops, u, ip);
    }
  }

  /** The lookup behind a gRPC heartbeat, for every address and every run. */
  lemma LookupByHistory(ops: seq<Op>, ip: string)
    ensures LookupIsDeterministic(Replay(map[], ops), ip) <==>
            forall u, v :: HeldBy(ops, u, ip) && HeldBy(ops, v, ip) ==> u == v
    ensures ip != "" ==> LookupIsDeterministic(Replay(map[], ops), ip)
  {
    hide Replay, HeldBy, GivenBy, LookupIsDeterministic, Holds, Reports;
    AddressesAreHistory(ops, ip);
    LookupExactly(Replay(map[], ops), ip);
    if ip != "" {
      forall u, v | Holds(Replay(map[], ops), u, ip) && Holds(Replay(map[], ops), v, ip)
        ensures u == v
      {
        AddressIndexIsHistory(ops, u, ip);
        AddressIndexIsHistory(ops, v, ip);
      }
    }
  }

  /** The identification behind POST /node/identify. */
  lemma IdentifyByHistory(ops: seq<Op>, ip: string)
    ensures IdentifyIsDeterministic(Replay(map[], ops), ip) <==>
            if exists u :: HeldBy(ops, u, ip)
            then forall u, v :: HeldBy(ops, u, ip) && HeldBy(ops, v, ip) ==> u == v
            else forall u, v :: GivenBy(ops, u, ip) && GivenBy(ops, v, ip) ==> u == v
  {
    hide Replay, HeldBy, GivenBy, IdentifyIsDeterministic, Holds, Reports;
    AddressesAreHistory(ops, ip);
    IdentifyExactly(Replay(map[], ops), ip);
  }

  /** What a lookup of a non-empty address finds. */
  ghost function HolderOf(ops: seq<Op>, ip: string): Option<string> {
    match LatestOn(ops, ip)
    case Some(u) => if LatestOf(ops, u) == Some(ip) then Some(u) else None
    case None => None
  }

  lemma LookupFinds(ops: seq<Op>, ip: string, found: Option<string>)
    requires ip != ""
    ensures Resolves(Replay(map[], ops), ip, found) <==> found == HolderOf(ops, ip)
  {
    hide Replay, LatestOn, LatestOf, Holds;
    forall u ensures Holds(Replay(map[], ops), u, ip) <==> HolderOf(ops, ip) == Some(u) {
      AddressIndexIsHistory(ops, u, ip);
    }
    assert forall u :: Holds(Replay(map[], ops), u, ip) ==> u in Replay(map[], ops) by {
      HoldersAreNodes(Replay(map[], ops), ip);
    }
  }

  lemma HoldersAreNodes(nodes: Nodes, ip: string)
    ensures forall u :: Holds(nodes, u, ip) ==> u in nodes
  {
  }

  /**
    Ambiguity is reachable by two HTTP heartbeats that give one address: no node holds it, and
    identifying it may answer either node. (A lookup of the empty address may find either, too.)
   */
  lemma AmbiguityWitness() returns (ops: seq<Op>)
    ensures PossibleRun(map[], ops) && forall i :: 0 <= i < |ops| ==> ops[i].HeartbeatUUID? && ops[i].ip == "10.0.0.9"
    ensures Identifies(Replay(map[], ops), "10.0.0.9", Some("a")) && Identifies(Replay(map[], ops), "10.0.0.9", Some("b"))
    ensures Resolves(Replay(map[], ops), "", Some("a")) && Resolves(Replay(map[], ops), "", Some("b"))
  {
    hide Replay;
    var first, second := HeartbeatUUID("a", "10.0.0.9", "", 1, 10), HeartbeatUUID("b", "10.0.0.9", "", 2, 10);
    ops := [] + [first] + [second];
    EmptyReplay(map[]);
    ReplaySnoc(map[], [], first);
    ReplaySnoc(map[], [] + [first], second);
    var a, b := BeatByUUID(None, "10.0.0.9", "", 1, 10), BeatByUUID(None, "10.0.0.9", "", 2, 10);
    assert Replay(map[], [] + [first]) == map["a" := a];
    assert Replay(map[], ops) == map["a" := a]["b" := b];
    assert forall u :: !Holds(Replay(map[], ops), u, "10.0.0.9");
  }
}
