/**
  Lease records, the operations on the node map of pkg/server/lease_store.go as
  functions of the map, and the view of each operation from a single node.

  Times are integers (nanoseconds); 0 is the zero `time.Time`, the "unset" sentinel.
  Every operation carries its own clock reading: the source reads the clock before
  it takes the mutex, so nothing here orders the readings of successive operations.
 */
module Lease {
  import opened Options

  // ---------- Times and durations ----------

  type Time = int

  const UNSET: Time := 0

  const SECOND: int := 1_000_000_000

  const MIN_DURATION: int := -0x8000_0000_0000_0000
  const MAX_DURATION: int := 0x7fff_ffff_ffff_ffff

  type Duration = d: int | MIN_DURATION <= d <= MAX_DURATION

  /** `time.Time.Sub`: the difference saturates at the range of a 64-bit duration. */
  function Sub(a: Time, b: Time): Duration {
    if a - b < MIN_DURATION then MIN_DURATION
    else if a - b > MAX_DURATION then MAX_DURATION
    else a - b
  }

  // ---------- Records ----------

  /** `Other` is any status text a hand-written state file could hold. */
  datatype Status = Active | Expired | Blocked | Other(text: string)

  datatype LeaseRecord = LeaseRecord(
    lastHeartbeatAt: Time,
    leaseUntil: Time,
    lastUnsealAt: Time,
    firstSeen: Time,
    blockedAt: Time,
    maintenanceAt: Time,
    lastUnsealIP: string,
    status: Status,
    nodeIP: string,
    hostname: string,
    blockReason: string,
    maintenance: bool)

  const HEARTBEAT_TIMEOUT: string := "heartbeat_timeout"

  /** The zero value of the record type, returned next to some errors. */
  const ZERO_RECORD: LeaseRecord :=
    LeaseRecord(UNSET, UNSET, UNSET, UNSET, UNSET, UNSET, "", Other(""), "", "", "", false)

  predicate IsExpired(r: LeaseRecord, now: Time) {
    r.leaseUntil != UNSET && now > r.leaseUntil
  }

  /** The test shared by Validate and HeartbeatByIP: the clock or the stored tag says expired. */
  predicate CountsExpired(r: LeaseRecord, now: Time) {
    IsExpired(r, now) || r.status == Expired
  }

  function ActiveLease(now: Time, lease: Duration): LeaseRecord {
    ZERO_RECORD.(lastHeartbeatAt := now, leaseUntil := now + lease, status := Active)
  }

  /** The four tests of the dead-man's switch, in the order of the source. */
  predicate Overdue(r: LeaseRecord, now: Time, timeout: Duration) {
    && r.status == Active
    && !r.maintenance
    && r.lastHeartbeatAt != UNSET
    && Sub(now, r.lastHeartbeatAt) > timeout
  }

  // ---------- What each operation does to one record ----------

  function Bootstrapped(existing: Option<LeaseRecord>, ip: string, now: Time, lease: Duration): LeaseRecord {
    var renewed := ActiveLease(now, lease).(lastUnsealAt := now, lastUnsealIP := ip, nodeIP := ip);
    match existing
    case Some(r) => renewed.(firstSeen := r.firstSeen, hostname := r.hostname)
    case None => renewed.(firstSeen := now)
  }

  /** A Bootstrap of another node on the same address takes the address away. */
  function Displaced(r: LeaseRecord, ip: string): LeaseRecord {
    if r.lastUnsealIP == ip then r.(lastUnsealIP := "") else r
  }

  function Validated(r: LeaseRecord, now: Time): LeaseRecord {
    if r.status == Blocked then r
    else if CountsExpired(r, now) then r.(status := Expired)
    else r
  }

  function BeatByIP(r: LeaseRecord, now: Time, lease: Duration): LeaseRecord {
    if r.status == Blocked then r
    else if CountsExpired(r, now) then r.(status := Expired)
    else r.(lastHeartbeatAt := now, leaseUntil := now + lease, status := Active)
  }

  function BeatByUUID(existing: Option<LeaseRecord>, ip: string, hostname: string, now: Time, lease: Duration): LeaseRecord {
    match existing
    case None =>
      ActiveLease(now, lease).(firstSeen := now, nodeIP := ip, hostname := hostname)
    case Some(r) =>
      if r.status == Blocked then r
      else
        r.(lastHeartbeatAt := now, leaseUntil := now + lease, nodeIP := ip,
           hostname := if hostname != "" then hostname else r.hostname,
           status := Active)
  }

  function Unblocked(r: LeaseRecord, now: Time, lease: Duration): LeaseRecord {
    r.(status := Active, blockedAt := UNSET, blockReason := "", lastHeartbeatAt := now, leaseUntil := now + lease)
  }

  function WithMaintenance(r: LeaseRecord, enabled: bool, now: Time, lease: Duration): LeaseRecord {
    if enabled then r.(maintenance := true, maintenanceAt := now)
    else r.(maintenance := false, maintenanceAt := UNSET, lastHeartbeatAt := now, leaseUntil := now + lease)
  }

  function Checked(r: LeaseRecord, now: Time, timeout: Duration): LeaseRecord {
    if Overdue(r, now, timeout)
    then r.(status := Blocked, blockedAt := now, blockReason := HEARTBEAT_TIMEOUT)
    else r
  }

  // ---------- Operations on the node map ----------

  type Nodes = map<string, LeaseRecord>

  /**
    One atomic (mutex-protected) operation with everything it read from outside:
    its arguments, its clock reading and, for the lookup by address, the node the
    map iteration came upon first.
   */
  datatype Op =
    | Bootstrap(uuid: string, ip: string, now: Time, lease: Duration)
    | HeartbeatIP(ip: string, found: Option<string>, now: Time, lease: Duration)
    | Validate(uuid: string, now: Time)
    | HeartbeatUUID(uuid: string, ip: string, hostname: string, now: Time, lease: Duration)
    | Unblock(uuid: string, now: Time, lease: Duration)
    | SetMaintenance(uuid: string, enabled: bool, now: Time, lease: Duration)
    | Check(now: Time, timeout: Duration)

  function Get(nodes: Nodes, u: string): Option<LeaseRecord> {
    if u in nodes then Some(nodes[u]) else None
  }

  predicate Holds(nodes: Nodes, u: string, ip: string) {
    u in nodes && nodes[u].lastUnsealIP == ip
  }

  /** A lookup may come upon any holder of the address, and fails only if there is none. */
  ghost predicate Resolves(nodes: Nodes, ip: string, found: Option<string>) {
    match found
    case Some(u) => Holds(nodes, u, ip)
    case None => forall u :: u in nodes ==> !Holds(nodes, u, ip)
  }

  /** `u` last gave `ip` as its address. */
  predicate Reports(nodes: Nodes, u: string, ip: string) {
    u in nodes && nodes[u].nodeIP == ip
  }

  /** An identification comes upon any holder or, if there is none, upon any node that gave the address. */
  ghost predicate Identifies(nodes: Nodes, ip: string, found: Option<string>) {
    if exists v :: Holds(nodes, v, ip) then
      found.Some? && Holds(nodes, found.value, ip)
    else
      match found
      case Some(u) => Reports(nodes, u, ip)
      case None => forall u :: !Reports(nodes, u, ip)
  }

  ghost predicate Possible(nodes: Nodes, op: Op) {
    op.HeartbeatIP? ==> Resolves(nodes, op.ip, op.found)
  }

  function OverdueNodes(nodes: Nodes, now: Time, timeout: Duration): set<string> {
    set u | u in nodes && Overdue(nodes[u], now, timeout)
  }

  /** Every node but `v` gives up the address. */
  function DisplacedOthers(nodes: Nodes, v: string, ip: string): Nodes {
    map u | u in nodes :: if u == v then nodes[u] else Displaced(nodes[u], ip)
  }

  /** The map after an operation. The result does not depend on any iteration order. */
  function Apply(nodes: Nodes, op: Op): Nodes {
    match op
    case Bootstrap(v, ip, now, lease) =>
      DisplacedOthers(nodes, v, ip)[v := Bootstrapped(Get(nodes, v), ip, now, lease)]
    case HeartbeatIP(_, found, now, lease) =>
      if found.Some? && found.value in nodes
      then nodes[found.value := BeatByIP(nodes[found.value], now, lease)]
      else nodes
    case Validate(v, now) =>
      if v in nodes then nodes[v := Validated(nodes[v], now)] else nodes
    case HeartbeatUUID(v, ip, hostname, now, lease) =>
      nodes[v := BeatByUUID(Get(nodes, v), ip, hostname, now, lease)]
    case Unblock(v, now, lease) =>
      if v in nodes then nodes[v := Unblocked(nodes[v], now, lease)] else nodes
    case SetMaintenance(v, enabled, now, lease) =>
      if v in nodes then nodes[v := WithMaintenance(nodes[v], enabled, now, lease)] else nodes
    case Check(now, timeout) =>
      map u | u in nodes :: Checked(nodes[u], now, timeout)
  }

  /** The answer of Validate, before any persistence error. */
  datatype Verdict = NotRegistered | DeniedBlocked | DeniedExpired | Admitted

  function Answer(nodes: Nodes, u: string, now: Time): Verdict {
    if u !in nodes then NotRegistered
    else if nodes[u].status == Blocked then DeniedBlocked
    else if CountsExpired(nodes[u], now) then DeniedExpired
    else Admitted
  }

  /** Whether the operation reaches `persistLocked`. */
  predicate Persists(nodes: Nodes, op: Op) {
    match op
    case Bootstrap(_, _, _, _) => true
    case HeartbeatIP(_, found, _, _) =>
      found.Some? && found.value in nodes && nodes[found.value].status != Blocked
    case Validate(v, now) => Answer(nodes, v, now) == DeniedExpired
    case HeartbeatUUID(v, _, _, _, _) => v in nodes ==> nodes[v].status != Blocked
    case Unblock(v, _, _) => v in nodes
    case SetMaintenance(v, _, _, _) => v in nodes
    case Check(now, timeout) => OverdueNodes(nodes, now, timeout) != {}
  }

  /** An operation that does not persist has changed nothing that would need it. */
  lemma UnpersistedChangesNothing(nodes: Nodes, op: Op)
    requires !Persists(nodes, op)
    ensures Apply(nodes, op) == nodes
  {
    if op.Check? {
      forall u | u in nodes ensures Checked(nodes[u], op.now, op.timeout) == nodes[u] {
        assert u !in OverdueNodes(nodes, op.now, op.timeout);
      }
    }
  }

  // ---------- The view from one node ----------

  /** What an operation does to node `u`, given only what the map holds for `u`. */
  function StepNode(u: string, r: Option<LeaseRecord>, op: Op): Option<LeaseRecord> {
    match op
    case Bootstrap(v, ip, now, lease) =>
      if u == v then Some(Bootstrapped(r, ip, now, lease))
      else if r.Some? then Some(Displaced(r.value, ip))
      else None
    case HeartbeatIP(_, found, now, lease) =>
      if found == Some(u) && r.Some? then Some(BeatByIP(r.value, now, lease)) else r
    case Validate(v, now) =>
      if u == v && r.Some? then Some(Validated(r.value, now)) else r
    case HeartbeatUUID(v, ip, hostname, now, lease) =>
      if u == v then Some(BeatByUUID(r, ip, hostname, now, lease)) else r
    case Unblock(v, now, lease) =>
      if u == v && r.Some? then Some(Unblocked(r.value, now, lease)) else r
    case SetMaintenance(v, enabled, now, lease) =>
      if u == v && r.Some? then Some(WithMaintenance(r.value, enabled, now, lease)) else r
    case Check(now, timeout) =>
      if r.Some? then Some(Checked(r.value, now, timeout)) else r
  }

  /** Nodes do not influence each other except through `Displaced`. */
  lemma ApplyIsLocal(nodes: Nodes, op: Op, u: string)
    ensures Get(Apply(nodes, op), u) == StepNode(u, Get(nodes, u), op)
  {
  }

  // ---------- Runs ----------

  /** The map after a sequence of operations. */
  ghost function Replay(nodes: Nodes, ops: seq<Op>): Nodes {
    if ops == [] then nodes
    else Apply(Replay(nodes, ops[..|ops| - 1]), ops[|ops| - 1])
  }

  /** Every lookup of the run names a node it could have come upon. */
  ghost predicate PossibleRun(nodes: Nodes, ops: seq<Op>) {
    forall i :: 0 <= i < |ops| ==> Possible(Replay(nodes, ops[..i]), ops[i])
  }

  lemma EmptyReplay(nodes: Nodes)
    ensures Replay(nodes, []) == nodes
  {
  }

  lemma ReplaySnoc(nodes: Nodes, ops: seq<Op>, op: Op)
    ensures Replay(nodes, ops + [op]) == Apply(Replay(nodes, ops), op)
  {
    assert (ops + [op])[..|ops|] == ops;
  }

  lemma NothingPossible(nodes: Nodes)
    ensures PossibleRun(nodes, [])
  {
  }

  lemma PossibleSnoc(nodes: Nodes, ops: seq<Op>, op: Op)
    requires PossibleRun(nodes, ops) && Possible(Replay(nodes, ops), op)
    ensures PossibleRun(nodes, ops + [op])
  {
    hide Replay, Possible;
    forall i | 0 <= i <= |ops| ensures Possible(Replay(nodes, (ops + [op])[..i]), (ops + [op])[i]) {
      assert (ops + [op])[..i] == ops[..i];
      assert i == |ops| ==> ops[..i] == ops;
    }
  }

  lemma PossiblePrefix(nodes: Nodes, ops: seq<Op>, prefix: seq<Op>)
    requires PossibleRun(nodes, ops) && prefix <= ops
    ensures PossibleRun(nodes, prefix)
  {
    hide Replay, Possible;
    forall i | 0 <= i < |prefix| ensures Possible(Replay(nodes, prefix[..i]), prefix[i]) {
      assert prefix[..i] == ops[..i];
    }
  }

  ghost predicate Monotone(ops: seq<Op>) {
    forall i, j :: 0 <= i < j < |ops| ==> ops[i].now <= ops[j].now
  }

  /** Every clock reading is after the zero time. */
  ghost predicate Started(ops: seq<Op>) {
    forall i :: 0 <= i < |ops| ==> ops[i].now > UNSET
  }

  /** Every operation uses the lease duration of one configuration. */
  ghost predicate LeaseIs(ops: seq<Op>, lease: Duration) {
    forall i :: 0 <= i < |ops| && !ops[i].Validate? && !ops[i].Check? ==> ops[i].lease == lease
  }

  ghost predicate TimeoutIs(ops: seq<Op>, timeout: Duration) {
    forall i :: 0 <= i < |ops| && ops[i].Check? ==> ops[i].timeout == timeout
  }
}
