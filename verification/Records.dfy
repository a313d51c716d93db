/**
  The whole record of a node from the history: together with Lookups (both addresses), Silence
  (heartbeat time, maintenance flag, expired tag) and the record invariant of LeaseRuns (end of
  the lease), every field of every record is what the operations of the run say, and nothing else.
 */
module Records {
  import opened Options
  import opened Lease
  import opened LeaseRuns
  import opened Lookups
  import opened Silence

  // ---------- Fields that only one kind of operation writes ----------

  /** The reading of the operation that registered `u`. */
  ghost function FirstSeenAt(ops: seq<Op>, u: string): Time {
    if ops == [] then UNSET
    else
      var init, last := ops[..|ops| - 1], ops[|ops| - 1];
      if Registers(last, u) && !Registered(init, u) then last.now else FirstSeenAt(init, u)
  }

  /** The reading of the latest Bootstrap of `u`. */
  ghost function LastUnsealAt(ops: seq<Op>, u: string): Time {
    if ops == [] then UNSET
    else
      var init, last := ops[..|ops| - 1], ops[|ops| - 1];
      if last.Bootstrap? && last.uuid == u then last.now else LastUnsealAt(init, u)
  }

  /** The latest non-empty host name of a heartbeat by UUID that was not refused as blocked. */
  ghost function HostnameOf(ops: seq<Op>, u: string): string {
    if ops == [] then ""
    else
      var init, last := ops[..|ops| - 1], ops[|ops| - 1];
      if last.HeartbeatUUID? && last.uuid == u && last.hostname != "" && !IsBlockedIn(init, u) then last.hostname
      else HostnameOf(init, u)
  }

  /** When `u` was last put into maintenance, if it has neither been taken out of it nor booted since. */
  ghost function MaintenanceSince(ops: seq<Op>, u: string): Time {
    if ops == [] then UNSET
    else
      var init, last := ops[..|ops| - 1], ops[|ops| - 1];
      if last.Bootstrap? && last.uuid == u then UNSET
      else if last.SetMaintenance? && last.uuid == u && Registered(init, u) then (if last.enabled then last.now else UNSET)
      else MaintenanceSince(init, u)
  }

  lemma FieldStep(u: string, r: Option<LeaseRecord>, op: Op)
    requires StepNode(u, r, op).Some?
    ensures var r' := StepNode(u, r, op).value;
            && r'.firstSeen == (if r.Some? then r.value.firstSeen else op.now)
            && r'.lastUnsealAt ==
               (if op.Bootstrap? && op.uuid == u then op.now else if r.Some? then r.value.lastUnsealAt else UNSET)
            && r'.hostname ==
               (if op.HeartbeatUUID? && op.uuid == u && op.hostname != "" && !(r.Some? && r.value.status == Blocked)
                then op.hostname else if r.Some? then r.value.hostname else "")
            && r'.maintenanceAt ==
               (if op.Bootstrap? && op.uuid == u then UNSET
                else if op.SetMaintenance? && op.uuid == u then (if op.enabled then op.now else UNSET)
                else if r.Some? then r.value.maintenanceAt else UNSET)
  {
  }

  lemma {:induction false} NothingBeforeRegistration(ops: seq<Op>, u: string)
    requires !Registered(ops, u)
    ensures LastUnsealAt(ops, u) == UNSET && HostnameOf(ops, u) == "" && MaintenanceSince(ops, u) == UNSET
    decreases |ops|
  {
    if ops == [] {
    } else {
      var init, last := ops[..|ops| - 1], ops[|ops| - 1];
      assert !Registers(last, u);
      forall i | 0 <= i < |init| ensures init[i] == ops[i] {}
      NothingBeforeRegistration(init, u);
    }
  }

  /** First-seen, last-unseal and maintenance times and the host name are exactly that history. */
  lemma {:induction false} FieldsAreHistory(ops: seq<Op>, u: string)
    requires u in Replay(map[], ops)
    ensures var r := Replay(map[], ops)[u];
            && r.firstSeen == FirstSeenAt(ops, u)
            && r.lastUnsealAt == LastUnsealAt(ops, u)
            && r.hostname == HostnameOf(ops, u)
            && r.maintenanceAt == MaintenanceSince(ops, u)
    decreases |ops|
  {
    hide Apply, StepNode, Registered, Registers;
    if ops == [] {
    } else {
      var init, last := ops[..|ops| - 1], ops[|ops| - 1];
      var r := Get(Replay(map[], init), u);
      ApplyIsLocal(Replay(map[], init), last, u);
      FieldStep(u, r, last);
      RegisterStep(u, r, last);
      RegisteredIsHistory(init, u);
      if u in Replay(map[], init) {
        FieldsAreHistory(init, u);
      } else {
        NothingBeforeRegistration(init, u);
        NotActedOn(u, last);
      }
    }
  }

  /** An operation that registers a node is no SetMaintenance. */
  lemma NotActedOn(u: string, op: Op)
    ensures Registers(op, u) ==> !op.SetMaintenance?
  {
  }

  // ---------- The block ----------

  /** The check finds `u` silent for too long, from the history. */
  ghost predicate FoundSilent(ops: seq<Op>, u: string, lease: Duration, check: Op) {
    && check.Check? && Registered(ops, u)
    && !ExpiryNoticed(ops, u, lease) && !InMaintenance(map[], ops, u)
    && check.now - LastRefresh(map[], ops, u) > check.timeout
  }

  /** The reading of the check that blocked `u`, if it has neither been unblocked nor booted since. */
  ghost function BlockedSince(ops: seq<Op>, u: string, lease: Duration): Option<Time> {
    if ops == [] then None
    else
      var init, last := ops[..|ops| - 1], ops[|ops| - 1];
      if (last.Bootstrap? || last.Unblock?) && last.uuid == u then None
      else
        var before := BlockedSince(init, u, lease);
        if before == None && FoundSilent(init, u, lease, last) then Some(last.now) else before
  }

  ghost predicate TimeoutsFit(ops: seq<Op>) {
    forall i :: 0 <= i < |ops| && ops[i].Check? ==> ops[i].timeout < MAX_DURATION
  }

  /** How the block of a record changes in one step. */
  lemma BlockStep(u: string, r: Option<LeaseRecord>, op: Op)
    requires StepNode(u, r, op).Some?
    requires r.Some? && r.value.status != Blocked ==> r.value.blockedAt == UNSET && r.value.blockReason == ""
    ensures var r' := StepNode(u, r, op).value;
            if (op.Bootstrap? || op.Unblock?) && op.uuid == u then
              r'.status != Blocked && r'.blockedAt == UNSET && r'.blockReason == ""
            else if r.Some? && r.value.status == Blocked then
              r'.status == Blocked && r'.blockedAt == r.value.blockedAt && r'.blockReason == r.value.blockReason
            else if op.Check? && r.Some? && Overdue(r.value, op.now, op.timeout) then
              r'.status == Blocked && r'.blockedAt == op.now && r'.blockReason == "heartbeat_timeout"
            else
              r'.status != Blocked && r'.blockedAt == UNSET && r'.blockReason == ""
  {
  }

  lemma {:induction false} NotBlockedBeforeRegistration(ops: seq<Op>, u: string, lease: Duration)
    requires !Registered(ops, u)
    ensures BlockedSince(ops, u, lease) == None
    decreases |ops|
  {
    hide ExpiryNoticed, InMaintenance, LastRefresh;
    if ops == [] {
    } else {
      var init := ops[..|ops| - 1];
      forall i | 0 <= i < |init| ensures init[i] == ops[i] {}
      NotBlockedBeforeRegistration(init, u, lease);
    }
  }

  /** Blocked, since when and why are exactly the history: a check found the node silent and nobody released it. */
  lemma {:induction false} BlockIsHistory(ops: seq<Op>, u: string, lease: Duration)
    requires Started(ops) && LeaseIs(ops, lease) && lease > 0 && TimeoutsFit(ops) && u in Replay(map[], ops)
    ensures var r, since := Replay(map[], ops)[u], BlockedSince(ops, u, lease);
            && (r.status == Blocked <==> since.Some?)
            && r.blockedAt == (if since.Some? then since.value else UNSET)
            && r.blockReason == (if since.Some? then "heartbeat_timeout" else "")
    decreases |ops|
  {
    hide Apply, StepNode, Registered, Registers, ExpiryNoticed, InMaintenance, LastRefresh, Overdue;
    if ops == [] {
    } else {
      var init, last := ops[..|ops| - 1], ops[|ops| - 1];
      var r := Get(Replay(map[], init), u);
      ApplyIsLocal(Replay(map[], init), last, u);
      RegisteredIsHistory(init, u);
      if u in Replay(map[], init) {
        BlockIsHistory(init, u, lease);
        OverdueIsFoundSilent(init, u, lease, last);
      } else {
        NotBlockedBeforeRegistration(init, u, lease);
      }
      BlockStep(u, r, last);
    }
  }

  lemma {:induction false} OverdueIsFoundSilent(ops: seq<Op>, u: string, lease: Duration, check: Op)
    requires Started(ops) && LeaseIs(ops, lease) && lease > 0 && u in Replay(map[], ops)
    requires check.Check? ==> check.timeout < MAX_DURATION
    ensures check.Check? && Replay(map[], ops)[u].status != Blocked ==>
              (Overdue(Replay(map[], ops)[u], check.now, check.timeout) <==> FoundSilent(ops, u, lease, check))
  {
    hide Replay, Registered, ExpiryNoticed, InMaintenance, LastRefresh;
    RegisteredIsHistory(ops, u);
    RecordInvariant(ops, lease, u);
    StoredTimeIsLastRefresh(map[], ops, u);
    ExpiredIsNoticed(ops, u, lease);
    if check.Check? {
      OverdueIsSilence(Replay(map[], ops)[u], check.now, check.timeout);
    }
  }

  /** Blocked if a check found it silent, else expired if its expiry was noticed, else active. */
  lemma StatusIsHistory(ops: seq<Op>, u: string, lease: Duration)
    requires Started(ops) && LeaseIs(ops, lease) && lease > 0 && TimeoutsFit(ops) && u in Replay(map[], ops)
    ensures Replay(map[], ops)[u].status ==
            if BlockedSince(ops, u, lease).Some? then Blocked
            else if ExpiryNoticed(ops, u, lease) then Expired
            else Active
  {
    hide Replay, ExpiryNoticed, BlockedSince;
    BlockIsHistory(ops, u, lease);
    ExpiredIsNoticed(ops, u, lease);
    RecordInvariant(ops, lease, u);
  }

  /** Every field of every record of every run, from the history alone. */
  lemma RecordIsHistory(ops: seq<Op>, u: string, lease: Duration)
    requires Started(ops) && LeaseIs(ops, lease) && lease > 0 && TimeoutsFit(ops)
    ensures u in Replay(map[], ops) <==> Registered(ops, u)
    ensures Registered(ops, u) ==>
              var since := BlockedSince(ops, u, lease);
              Replay(map[], ops)[u] == LeaseRecord(
                lastHeartbeatAt := LastRefresh(map[], ops, u),
                leaseUntil := LastRefresh(map[], ops, u) + lease,
                lastUnsealAt := LastUnsealAt(ops, u),
                firstSeen := FirstSeenAt(ops, u),
                blockedAt := if since.Some? then since.value else UNSET,
                maintenanceAt := MaintenanceSince(ops, u),
                lastUnsealIP := HeldAddress(ops, u),
                status := if since.Some? then Blocked else if ExpiryNoticed(ops, u, lease) then Expired else Active,
                nodeIP := ReportedAddress(ops, u),
                hostname := HostnameOf(ops, u),
                blockReason := if since.Some? then "heartbeat_timeout" else "",
                maintenance := InMaintenance(map[], ops, u))
  {
    hide Replay, Registered, ExpiryNoticed, InMaintenance, LastRefresh, LastUnsealAt, FirstSeenAt, MaintenanceSince,
         HeldAddress, ReportedAddress, HostnameOf, BlockedSince;
    RegisteredIsHistory(ops, u);
    if Registered(ops, u) {
      RecordInvariant(ops, lease, u);
      StoredTimeIsLastRefresh(map[], ops, u);
      FieldsAreHistory(ops, u);
      BlockIsHistory(ops, u, lease);
      StatusIsHistory(ops, u, lease);
      HolderIsHistory(ops, u, HeldAddress(ops, u));
      ReporterIsHistory(ops, u, ReportedAddress(ops, u));
    }
  }
}
