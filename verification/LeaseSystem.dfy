/**
  The whole lease system: the clients of UnsealProtocol and the process and files of
  Durability in one machine. A client event takes the mutex (no persist is under way) and is a
  call of the store; its persist then moves one file-system step at a time, may fail at any
  of them, and a crash forgets memory and every Unseal in progress. A store without a path is
  the one whose persists all give up: a crash leaves it empty.
 */
module LeaseSystem {
  import opened Options
  import opened Lease
  import opened LeaseRuns
  import opened UnsealProtocol
  import opened Durability
  import opened CrashRuns

  datatype System = System(m: Machine, inFlight: map<nat, string>)

  datatype Act = Client(event: Event) | Disk(step: Micro)

  /** What the clients see. */
  function Front(s: System): State {
    State(s.m.mem, s.inFlight)
  }

  ghost predicate CanAct(s: System, a: Act) {
    match a
    case Client(e) => (e.Drop? || s.m.phase == Idle) && Enabled(Front(s), e)
    case Disk(e) => !e.Call? && Allowed(s.m, e)
  }

  /** The step of the process an act is, if any. */
  function MicroOf(s: System, a: Act): Option<Micro> {
    match a
    case Client(e) => (match StoreOp(Front(s), e) case Some(op) => Some(Call(op)) case None => None)
    case Disk(e) => Some(e)
  }

  function Perform(s: System, a: Act): System {
    var m' := match MicroOf(s, a) case Some(e) => Tick(s.m, e) case None => s.m;
    match a
    case Client(e) => System(m', Next(Front(s), e).inFlight)
    case Disk(e) => System(m', if e.Crash? then map[] else s.inFlight)
  }

  ghost function Go(s: System, acts: seq<Act>): System {
    if acts == [] then s else Perform(Go(s, acts[..|acts| - 1]), acts[|acts| - 1])
  }

  ghost predicate CanGo(s: System, acts: seq<Act>) {
    forall i :: 0 <= i < |acts| ==> CanAct(Go(s, acts[..i]), acts[i])
  }

  lemma CanGoPrefix(s: System, acts: seq<Act>, i: nat)
    requires CanGo(s, acts) && i <= |acts|
    ensures CanGo(s, acts[..i])
  {
    var init := acts[..i];
    forall j | 0 <= j < i ensures CanAct(Go(s, init[..j]), init[j]) {
      assert init[..j] == acts[..j];
    }
  }

  lemma CanGoSnoc(s: System, acts: seq<Act>, a: Act)
    requires CanGo(s, acts) && CanAct(Go(s, acts), a)
    ensures CanGo(s, acts + [a]) && Go(s, acts + [a]) == Perform(Go(s, acts), a)
  {
    var all := acts + [a];
    assert all[..|acts|] == acts;
    forall i | 0 <= i < |all| ensures CanAct(Go(s, all[..i]), all[i]) {
      if i < |acts| {
        assert all[..i] == acts[..i];
      }
    }
  }

  lemma GoNext(s: System, acts: seq<Act>, i: nat)
    requires i < |acts|
    ensures Go(s, acts[..i + 1]) == Perform(Go(s, acts[..i]), acts[i])
  {
    assert acts[..i + 1][..i] == acts[..i];
  }

  /** With the mutex free, every call of the store but the two halves of Unseal is open to its clients. */
  lemma CallsAreOpen(s: System, op: Op)
    requires s.m.phase == Idle && Possible(s.m.mem, op) && !op.Bootstrap? && !op.Validate?
    ensures CanAct(s, Client(Request(op)))
    ensures var after := Perform(s, Client(Request(op)));
            && after.m.mem == Apply(s.m.mem, op) && after.m.files == s.m.files && after.inFlight == s.inFlight
            && after.m.phase == if Persists(s.m.mem, op) then Dirty else Idle
  {
  }

  // ---------- A run of the system is a run of the process ----------

  ghost function MicrosOf(s: System, acts: seq<Act>): seq<Micro> {
    if acts == [] then []
    else
      var init, last := acts[..|acts| - 1], acts[|acts| - 1];
      match MicroOf(Go(s, init), last)
      case Some(e) => MicrosOf(s, init) + [e]
      case None => MicrosOf(s, init)
  }

  /** So crash refinement, and every theorem of Durability, is about the system too. */
  lemma {:induction false} SystemRefinesProcess(s: System, acts: seq<Act>)
    requires CanGo(s, acts)
    ensures CanLive(s.m, MicrosOf(s, acts)) && Live(s.m, MicrosOf(s, acts)) == Go(s, acts).m
    decreases |acts|
  {
    hide Tick, Next, Enabled, Allowed, Possible;
    if acts == [] {
    } else {
      var init, last := acts[..|acts| - 1], acts[|acts| - 1];
      CanGoPrefix(s, acts, |acts| - 1);
      SystemRefinesProcess(s, init);
      var e := MicroOf(Go(s, init), last);
      if e.Some? {
        ActIsAllowed(Go(s, init), last);
        CanLiveSnoc(s.m, MicrosOf(s, init), e.value);
      }
    }
  }

  lemma ActIsAllowed(s: System, a: Act)
    requires CanAct(s, a)
    ensures MicroOf(s, a).Some? ==> Allowed(s.m, MicroOf(s, a).value)
    ensures MicroOf(s, a) == None ==> Perform(s, a).m == s.m
  {
  }

  /** The state file loads and a written temporary file is whole, wherever a run has led. */
  lemma ReachableIsSound(s: System, acts: seq<Act>)
    requires Booted(s.m) && CanGo(s, acts)
    ensures Sound(Go(s, acts).m)
  {
    SystemRefinesProcess(s, acts);
    CrashRefinement(s.m, MicrosOf(s, acts));
  }

  // ---------- A run of the protocol is a run of the system ----------

  ghost function ClientsOf(acts: seq<Act>): seq<Event> {
    if acts == [] then []
    else
      var init, last := ClientsOf(acts[..|acts| - 1]), acts[|acts| - 1];
      if last.Client? then init + [last.event] else init
  }

  lemma ClientsSnoc(acts: seq<Act>, a: Act)
    ensures ClientsOf(acts + [a]) == if a.Client? then ClientsOf(acts) + [a.event] else ClientsOf(acts)
  {
    assert (acts + [a])[..|acts|] == acts;
  }

  /** What the protocol can do, the system can: with every persist completing. */
  lemma {:induction false} ProtocolIsSystem(s: System, evs: seq<Event>) returns (acts: seq<Act>)
    requires s.m.phase == Idle && CanRun(Front(s), evs)
    ensures CanGo(s, acts) && ClientsOf(acts) == evs
    ensures Front(Go(s, acts)) == Exec(Front(s), evs) && Go(s, acts).m.phase == Idle
    decreases |evs|
  {
    hide CanGo, Go, CanRun, ClientsOf, Apply, Enabled;
    NothingGone(s);
    if evs == [] {
      acts := [];
    } else {
      var init, last := evs[..|evs| - 1], evs[|evs| - 1];
      CanRunPrefix(Front(s), evs);
      acts := ProtocolIsSystem(s, init);
      CanGoSnoc(s, acts, Client(last));
      ClientsSnoc(acts, Client(last));
      acts := acts + [Client(last)];
      if Go(s, acts).m.phase == Dirty {
        CanGoSnoc(s, acts, Disk(WriteDone));
        ClientsSnoc(acts, Disk(WriteDone));
        CanGoSnoc(s, acts + [Disk(WriteDone)], Disk(RenameDone));
        ClientsSnoc(acts + [Disk(WriteDone)], Disk(RenameDone));
        acts := acts + [Disk(WriteDone)] + [Disk(RenameDone)];
      }
    }
  }

  lemma NothingGone(s: System)
    ensures CanGo(s, []) && Go(s, []) == s && ClientsOf([]) == []
  {
  }

  // ---------- Blocked is sticky, and exactly when ----------

  predicate UnblocksNow(a: Act, u: string) {
    a.Client? && IsUnblockOf(a.event, u)
  }

  ghost predicate Unblocked(acts: seq<Act>, u: string) {
    exists i :: 0 <= i < |acts| && UnblocksNow(acts[i], u)
  }

  /** `u` is blocked, with a time and reason out of `blocks`. */
  predicate BlockedAs(nodes: Nodes, u: string, blocks: set<(Time, string)>) {
    IsBlocked(nodes, u) && (nodes[u].blockedAt, nodes[u].blockReason) in blocks
  }

  /** Memory holds the block, no Unseal of `u` is pending and, if `saved`, the state file holds it too. */
  ghost predicate Held(s: System, u: string, blocks: set<(Time, string)>, saved: bool) {
    && Sound(s.m) && !UnsealPending(Front(s), u)
    && BlockedAs(s.m.mem, u, blocks)
    && (saved ==> BlockedAs(OnDisk(s.m), u, blocks))
  }

  lemma HeldStep(s: System, a: Act, u: string, blocks: set<(Time, string)>, saved: bool)
    requires Held(s, u, blocks, saved) && CanAct(s, a) && !UnblocksNow(a, u)
    requires a == Disk(Crash) ==> saved
    ensures Held(Perform(s, a), u, blocks, saved || a == Disk(RenameDone))
  {
    hide Apply;
    if a.Client? {
      StepStaysBlocked(Front(s), a.event, u);
    }
  }

  /** No crash comes before the first completed rename. */
  ghost predicate SavedFirst(acts: seq<Act>) {
    forall c :: 0 <= c < |acts| && acts[c] == Disk(Crash) ==> Disk(RenameDone) in acts[..c]
  }

  lemma {:induction false} HeldUpTo(s: System, acts: seq<Act>, u: string, blocks: set<(Time, string)>, saved: bool, i: nat)
    requires Held(s, u, blocks, saved) && CanGo(s, acts) && !Unblocked(acts, u) && i <= |acts|
    requires saved || SavedFirst(acts)
    ensures Held(Go(s, acts[..i]), u, blocks, saved || Disk(RenameDone) in acts[..i])
    decreases i
  {
    hide Held, Perform, CanAct, UnblocksNow, Go;
    NothingGone(s);
    if i == 0 {
    } else {
      HeldUpTo(s, acts, u, blocks, saved, i - 1);
      HeldStep(Go(s, acts[..i - 1]), acts[i - 1], u, blocks, saved || Disk(RenameDone) in acts[..i - 1]);
      GoNext(s, acts, i - 1);
      assert acts[..i] == acts[..i - 1] + [acts[i - 1]];
    }
  }

  lemma HeldStays(s: System, acts: seq<Act>, u: string, blocks: set<(Time, string)>, saved: bool)
    requires Held(s, u, blocks, saved) && CanGo(s, acts) && !Unblocked(acts, u)
    requires saved || SavedFirst(acts)
    ensures BlockedAs(Go(s, acts).m.mem, u, blocks)
  {
    HeldUpTo(s, acts, u, blocks, saved, |acts|);
    assert acts[..|acts|] == acts;
  }

  /** Ends the persist that is under way, if any, without completing it. */
  lemma FreeTheMutex(s: System) returns (acts: seq<Act>)
    requires Sound(s.m)
    ensures CanGo(s, acts) && |acts| <= 1 && forall i :: 0 <= i < |acts| ==> acts[i].Disk?
    ensures Go(s, acts) == System(s.m.(phase := Idle), s.inFlight)
  {
    hide CanGo, Go;
    NothingGone(s);
    acts := [];
    if s.m.phase == Dirty {
      CanGoSnoc(s, [], Disk(GiveUp));
      acts := [] + [Disk(GiveUp)];
    } else if s.m.phase == Written {
      CanGoSnoc(s, [], Disk(RenameError));
      acts := [] + [Disk(RenameError)];
    }
  }

  /** The clock reading of an act, if it takes one. */
  function Reading(a: Act): Option<Time> {
    match a
    case Client(Begin(_, _, now)) => Some(now)
    case Client(Commit(_, _, now, _)) => Some(now)
    case Client(Drop(_)) => None
    case Client(Request(op)) => Some(op.now)
    case Disk(_) => None
  }

  /** The lease duration of an act, if it uses one. */
  function LeaseOf(a: Act): Option<Duration> {
    match a
    case Client(Commit(_, _, _, lease)) => Some(lease)
    case Client(Request(op)) => if op.Validate? || op.Check? then None else Some(op.lease)
    case _ => None
  }

  /** Readings from `clock` on that never go back, and one lease duration. */
  ghost predicate Orderly(acts: seq<Act>, clock: Time, lease: Duration) {
    && (forall i :: 0 <= i < |acts| && Reading(acts[i]).Some? ==> clock <= Reading(acts[i]).value)
    && (forall i, j :: 0 <= i < j < |acts| && Reading(acts[i]).Some? && Reading(acts[j]).Some? ==>
          Reading(acts[i]).value <= Reading(acts[j]).value)
    && (forall i :: 0 <= i < |acts| && LeaseOf(acts[i]).Some? ==> LeaseOf(acts[i]).value == lease)
  }

  /** One client act at `clock` behind file-system steps is orderly. */
  lemma OrderlySnoc(acts: seq<Act>, a: Act, clock: Time, lease: Duration)
    requires forall i :: 0 <= i < |acts| ==> acts[i].Disk?
    requires Reading(a) == Some(clock) && LeaseOf(a) == Some(lease)
    ensures Orderly(acts, clock, lease) && Orderly(acts + [a], clock, lease)
  {
    var all := acts + [a];
    forall i | 0 <= i < |acts| ensures all[i] == acts[i] {}
  }

  lemma PendingUnsealLeavesBlocked(s: System, u: string, clock: Time, lease: Duration) returns (acts: seq<Act>)
    requires Sound(s.m) && IsBlocked(s.m.mem, u) && UnsealPending(Front(s), u)
    ensures CanGo(s, acts) && !Unblocked(acts, u) && Orderly(acts, clock, lease)
    ensures forall i :: 0 <= i < |acts| && Reading(acts[i]).Some? ==> Reading(acts[i]).value == clock
    ensures var at := Go(s, acts).m.mem; u in at && at[u] == Bootstrapped(Get(s.m.mem, u), "10.0.0.1", clock, lease)
  {
    hide CanGo, Go, Apply, Orderly;
    var id :| id in s.inFlight && s.inFlight[id] == u;
    acts := FreeTheMutex(s);
    var commit := Client(Commit(id, "10.0.0.1", clock, lease));
    CanGoSnoc(s, acts, commit);
    OrderlySnoc(acts, commit, clock, lease);
    ApplyIsLocal(s.m.mem, Bootstrap(u, "10.0.0.1", clock, lease), u);
    acts := acts + [commit];
  }

  lemma CrashReloads(s: System, u: string) returns (acts: seq<Act>)
    requires Sound(s.m)
    ensures CanGo(s, acts) && !Unblocked(acts, u) && acts == [Disk(Crash)]
    ensures Go(s, acts) == System(Machine(OnDisk(s.m), s.m.files, Idle), map[])
  {
    hide CanGo, Go;
    NothingGone(s);
    CanGoSnoc(s, [], Disk(Crash));
    acts := [] + [Disk(Crash)];
  }

  /** No Unseal of `u` is past Validate, and the state file holds its block. */
  ghost predicate Settled(s: System, u: string) {
    !UnsealPending(Front(s), u) && StillBlocked(s.m.mem, OnDisk(s.m), u)
  }

  lemma UnsettledIsLeft(s: System, u: string, clock: Time, lease: Duration) returns (acts: seq<Act>)
    requires Sound(s.m) && IsBlocked(s.m.mem, u) && !Settled(s, u)
    ensures CanGo(s, acts) && !Unblocked(acts, u) && Orderly(acts, clock, lease)
    ensures !StillBlocked(s.m.mem, Go(s, acts).m.mem, u)
  {
    hide CanGo, Go, Unblocked;
    if UnsealPending(Front(s), u) {
      acts := PendingUnsealLeavesBlocked(s, u, clock, lease);
    } else {
      acts := CrashReloads(s, u);
    }
  }

  /**
    The design says a blocked node is unblocked by the admin call only. The exact condition: a
    blocked node stays blocked, since the same time and for the same reason, through every
    future without that call (crashes and failed persists included) if and only if no Unseal
    of it is past Validate and the state file holds the block. It makes no difference whether
    clocks may go back: the second clause is about futures whose readings begin at any `clock`,
    never decrease, and use any one lease duration.
   */
  lemma BlockedIsStickyExactly(s: System, u: string, clock: Time, lease: Duration)
    requires Sound(s.m) && IsBlocked(s.m.mem, u)
    ensures (forall acts :: CanGo(s, acts) && !Unblocked(acts, u) ==> StillBlocked(s.m.mem, Go(s, acts).m.mem, u))
            <==> !UnsealPending(Front(s), u) && StillBlocked(s.m.mem, OnDisk(s.m), u)
    ensures (forall acts :: CanGo(s, acts) && !Unblocked(acts, u) && Orderly(acts, clock, lease) ==>
               StillBlocked(s.m.mem, Go(s, acts).m.mem, u))
            <==> !UnsealPending(Front(s), u) && StillBlocked(s.m.mem, OnDisk(s.m), u)
  {
    hide CanGo, Go, Unblocked, Orderly;
    if Settled(s, u) {
      forall acts | CanGo(s, acts) && !Unblocked(acts, u)
        ensures StillBlocked(s.m.mem, Go(s, acts).m.mem, u)
      {
        HeldStays(s, acts, u, {(s.m.mem[u].blockedAt, s.m.mem[u].blockReason)}, true);
      }
    } else {
      var acts := UnsettledIsLeft(s, u, clock, lease);
      assert !StillBlocked(s.m.mem, Go(s, acts).m.mem, u);
    }
  }

  /** A future without an Unblock of `u` in which an Unseal of it is let in at `later`. */
  ghost predicate GetsIn(s: System, acts: seq<Act>, u: string, later: Time) {
    CanGo(s, acts) && !Unblocked(acts, u) && LetsIn(Answer(Go(s, acts).m.mem, u, later))
  }

  ghost predicate CanGetIn(s: System, u: string) {
    exists acts, later :: GetsIn(s, acts, u, later)
  }

  /** The same with readings that begin at `clock` and never decrease, up to `later`. */
  ghost predicate CanGetInFrom(s: System, u: string, clock: Time, lease: Duration) {
    exists acts, later :: GetsIn(s, acts, u, later) && Orderly(acts, clock, lease) && NotAfter(acts, later)
  }

  ghost predicate NotAfter(acts: seq<Act>, later: Time) {
    forall i :: 0 <= i < |acts| && Reading(acts[i]).Some? ==> Reading(acts[i]).value <= later
  }

  /** A node that is not blocked after a crash gets in, if need be after a heartbeat. */
  lemma ReloadedGetsIn(s: System, u: string, clock: Time, lease: Duration)
    requires Sound(s.m) && !IsBlocked(OnDisk(s.m), u) && lease > 0
    ensures CanGetInFrom(s, u, clock, lease)
  {
    hide CanGo, Go, Apply, Orderly;
    var acts := CrashReloads(s, u);
    var beat := HeartbeatUUID(u, "10.0.0.1", "", clock, lease);
    var all := acts + [Client(Request(beat))];
    CanGoSnoc(s, acts, Client(Request(beat)));
    OrderlySnoc(acts, Client(Request(beat)), clock, lease);
    ApplyIsLocal(Go(s, acts).m.mem, beat, u);
    assert GetsIn(s, all, u, clock) && NotAfter(all, clock);
  }

  /**
    A blocked node is shut out until an admin unblocks it exactly if no Unseal of it is pending
    and it is blocked on disk, whether clocks may go back or not.
   */
  lemma ShutOutExactly(s: System, u: string, clock: Time, lease: Duration)
    requires Sound(s.m) && IsBlocked(s.m.mem, u) && lease > 0
    ensures !CanGetIn(s, u) <==> !UnsealPending(Front(s), u) && IsBlocked(OnDisk(s.m), u)
    ensures !CanGetInFrom(s, u, clock, lease) <==> !UnsealPending(Front(s), u) && IsBlocked(OnDisk(s.m), u)
  {
    hide CanGo, Go, Unblocked, Orderly;
    if UnsealPending(Front(s), u) {
      var acts := PendingUnsealLeavesBlocked(s, u, clock, lease);
      assert GetsIn(s, acts, u, clock) && NotAfter(acts, clock);
    } else if !IsBlocked(OnDisk(s.m), u) {
      ReloadedGetsIn(s, u, clock, lease);
    } else {
      var mem, disk := s.m.mem[u], OnDisk(s.m)[u];
      forall acts, later ensures !GetsIn(s, acts, u, later) {
        if CanGo(s, acts) && !Unblocked(acts, u) {
          HeldStays(s, acts, u, {(mem.blockedAt, mem.blockReason), (disk.blockedAt, disk.blockReason)}, true);
        }
      }
    }
  }

  /**
    The promise of the dead-man's switch: once a check finds a node silent for too long, and no
    Unseal of it is past Validate, no Unseal of it is let in at any time in any future until an
    admin unblocks it, whatever fails, provided some persist completes before the first crash.
   */
  lemma SilenceShutsOut(s: System, now: Time, timeout: Duration, u: string, acts: seq<Act>, later: Time)
    requires Sound(s.m) && u in OverdueNodes(s.m.mem, now, timeout) && !UnsealPending(Front(s), u)
    requires var check := Client(Request(Check(now, timeout))); CanAct(s, check) && CanGo(Perform(s, check), acts)
    requires !Unblocked(acts, u) && SavedFirst(acts)
    ensures var at := Go(Perform(s, Client(Request(Check(now, timeout)))), acts).m.mem;
            && IsBlocked(at, u) && at[u].blockedAt == now && at[u].blockReason == HEARTBEAT_TIMEOUT
            && !LetsIn(Answer(at, u, later))
  {
    hide CanGo, Go, Unblocked, SavedFirst, Apply;
    var check := Client(Request(Check(now, timeout)));
    ApplyIsLocal(s.m.mem, check.event.op, u);
    HeldStays(Perform(s, check), acts, u, {(now, HEARTBEAT_TIMEOUT)}, false);
  }

  // ---------- Only Unblock leaves Blocked ----------

  /** The check of act `a` blocks `u`. */
  predicate BlocksNow(s: System, a: Act, u: string) {
    && a.Client? && a.event.Request? && a.event.op.Check?
    && u in OverdueNodes(s.m.mem, a.event.op.now, a.event.op.timeout)
  }

  /** A check has blocked `u` and no persist has completed since. */
  ghost predicate Unsaved(s: System, acts: seq<Act>, u: string) {
    acts != [] &&
    var init, last := acts[..|acts| - 1], acts[|acts| - 1];
    UnsavedAfter(Go(s, init), last, u, Unsaved(s, init, u))
  }

  predicate UnsavedAfter(s: System, a: Act, u: string, unsaved: bool) {
    BlocksNow(s, a, u) || (unsaved && a != Disk(RenameDone) && a != Disk(Crash))
  }

  /** No check blocks `u` while an Unseal of it is between its two halves. */
  ghost predicate NoRace(s: System, acts: seq<Act>, u: string) {
    forall i :: 0 <= i < |acts| && BlocksNow(Go(s, acts[..i]), acts[i], u) ==> !UnsealPending(Front(Go(s, acts[..i])), u)
  }

  /** No crash finds `u` blocked between a check that blocked it and the next completed persist. */
  ghost predicate NoLoss(s: System, acts: seq<Act>, u: string) {
    forall i :: 0 <= i < |acts| && acts[i] == Disk(Crash) && IsBlocked(Go(s, acts[..i]).m.mem, u) ==>
      !Unsaved(s, acts[..i], u)
  }

  /** While `u` is blocked, no Unseal of it is pending, and the state file has the block unless it is unsaved. */
  ghost predicate Guarded(s: System, u: string, unsaved: bool) {
    && Sound(s.m)
    && (IsBlocked(s.m.mem, u) ==> !UnsealPending(Front(s), u) && (unsaved || StillBlocked(s.m.mem, OnDisk(s.m), u)))
  }

  lemma NewlyBlocked(s: System, a: Act, u: string)
    requires CanAct(s, a) && a.Client? && !IsBlocked(s.m.mem, u) && IsBlocked(Perform(s, a).m.mem, u)
    ensures BlocksNow(s, a, u)
  {
    hide Apply;
    var op := StoreOp(Front(s), a.event);
    if op.Some? {
      OnlyChecksBlock(s.m.mem, op.value);
      assert u in BecameBlocked(s.m.mem, Apply(s.m.mem, op.value));
    }
  }

  lemma GuardedStep(s: System, a: Act, u: string, unsaved: bool)
    requires Guarded(s, u, unsaved) && CanAct(s, a)
    requires BlocksNow(s, a, u) ==> !UnsealPending(Front(s), u)
    requires a == Disk(Crash) && IsBlocked(s.m.mem, u) ==> !unsaved
    ensures Guarded(Perform(s, a), u, UnsavedAfter(s, a, u, unsaved))
    ensures IsBlocked(s.m.mem, u) && !UnblocksNow(a, u) ==> StillBlocked(s.m.mem, Perform(s, a).m.mem, u)
  {
    hide Apply, OverdueNodes;
    if a.Client? {
      if !IsBlocked(s.m.mem, u) {
        if IsBlocked(Perform(s, a).m.mem, u) {
          NewlyBlocked(s, a, u);
        }
      } else if UnblocksNow(a, u) {
        BlockedLeftOnlyBy(s.m.mem, a.event.op, u);
      } else {
        StepStaysBlocked(Front(s), a.event, u);
      }
    }
  }

  lemma {:induction false} GuardedStays(s: System, acts: seq<Act>, u: string, i: nat)
    requires Guarded(s, u, false) && CanGo(s, acts) && NoRace(s, acts, u) && NoLoss(s, acts, u) && i <= |acts|
    ensures Guarded(Go(s, acts[..i]), u, Unsaved(s, acts[..i], u))
    decreases i
  {
    hide Guarded, Perform, CanAct, BlocksNow, UnsavedAfter, Go;
    NothingGone(s);
    if i == 0 {
    } else {
      GuardedStays(s, acts, u, i - 1);
      GuardedStep(Go(s, acts[..i - 1]), acts[i - 1], u, Unsaved(s, acts[..i - 1], u));
      GoNext(s, acts, i - 1);
      assert acts[..i][..i - 1] == acts[..i - 1];
    }
  }

  /**
    Over every run of the system: if no check races an Unseal of `u` and no crash comes before
    a block of it is saved, then Unblock is the only act that ever leaves Blocked, restarts included.
   */
  lemma OnlyUnblockLeavesBlocked(s: System, acts: seq<Act>, u: string)
    requires Booted(s.m) && s.inFlight == map[]
    requires CanGo(s, acts) && NoRace(s, acts, u) && NoLoss(s, acts, u)
    ensures forall i :: 0 <= i < |acts| && IsBlocked(Go(s, acts[..i]).m.mem, u) && !UnblocksNow(acts[i], u) ==>
              StillBlocked(Go(s, acts[..i]).m.mem, Go(s, acts[..i + 1]).m.mem, u)
  {
    hide Perform, CanAct, BlocksNow, Go, Unsaved;
    forall i | 0 <= i < |acts| && IsBlocked(Go(s, acts[..i]).m.mem, u) && !UnblocksNow(acts[i], u)
      ensures StillBlocked(Go(s, acts[..i]).m.mem, Go(s, acts[..i + 1]).m.mem, u)
    {
      GuardedStays(s, acts, u, i);
      GuardedStep(Go(s, acts[..i]), acts[i], u, Unsaved(s, acts[..i], u));
      GoNext(s, acts, i);
    }
  }

  /**
    The hypothesis is needed: a check blocks node "a", its persist fails, the error is dropped, and a
    crash makes the node active again. It is let in after 60 s of silence with a timeout of 30 s.
   */
  lemma LostBlockWitness() returns (acts: seq<Act>, later: Time)
    ensures CanGo(System(EMPTY, map[]), acts + [Disk(Crash)]) && !Unblocked(acts + [Disk(Crash)], "a")
    ensures IsBlocked(Go(System(EMPTY, map[]), acts).m.mem, "a")
    ensures var at := Go(System(EMPTY, map[]), acts + [Disk(Crash)]).m.mem;
            && "a" in at && LetsIn(Answer(at, "a", later)) && later - at["a"].lastHeartbeatAt == 60
  {
    hide CanGo, Go, Apply, Persists, OverdueNodes;
    var s, check := System(EMPTY, map[]), Client(Request(Check(60, 30)));
    acts := SavedBeat();
    CheckAt60();
    CanGoSnoc(s, acts, check);
    CanGoSnoc(s, acts + [check], Disk(GiveUp));
    CanGoSnoc(s, acts + [check] + [Disk(GiveUp)], Disk(Crash));
    acts, later := acts + [check] + [Disk(GiveUp)], 61;
  }

  lemma SavedBeat() returns (acts: seq<Act>)
    ensures CanGo(System(EMPTY, map[]), acts) && !Unblocked(acts, "a")
    ensures Go(System(EMPTY, map[]), acts) == System(Machine(AfterBeat(1), Files(Image(AfterBeat(1)), Absent), Idle), map[])
  {
    hide CanGo, Go;
    var s, beat := System(EMPTY, map[]), Client(Request(Beat(1)));
    NothingGone(s);
    CanGoSnoc(s, [], beat);
    CanGoSnoc(s, [] + [beat], Disk(WriteDone));
    CanGoSnoc(s, [] + [beat] + [Disk(WriteDone)], Disk(RenameDone));
    acts := [] + [beat] + [Disk(WriteDone)] + [Disk(RenameDone)];
  }

  // ---------- Admission ----------

  /**
    Every Unseal that is let in, anywhere in any run, is for a node that is unregistered or
    was heard of recently enough by the lease and by every check no crash has made forgotten.
   */
  lemma {:induction false} UnsealAdmissionAcrossCrashes(s: System, acts: seq<Act>, id: nat, u: string, now: Time,
                                                        lease: Duration, timeout: Duration)
    requires Booted(s.m) && s.m.mem == map[] && CanGo(s, acts) && CanAct(Go(s, acts), Client(Begin(id, u, now)))
    requires id in Perform(Go(s, acts), Client(Begin(id, u, now))).inFlight
    requires Configured(MicrosOf(s, acts), lease, timeout) && lease > 0
    ensures var nodes, es := Go(s, acts).m.mem, MicrosOf(s, acts);
            u in nodes ==>
              && now - nodes[u].lastHeartbeatAt <= lease
              && (CallsMonotone(es) && timeout < MAX_DURATION && !nodes[u].maintenance ==>
                    forall k :: 0 <= k < |es| && es[k].Call? && es[k].op.Check? && Remembered(s.m, es, k) ==>
                      now - nodes[u].lastHeartbeatAt <= Max(timeout, 0) + (now - es[k].op.now))
  {
    hide CanGo, Go, Live, CanLive, Apply, Remembered, Configured, MicrosOf, CallsMonotone;
    SystemRefinesProcess(s, acts);
    if u in Go(s, acts).m.mem {
      AdmissionBoundAcrossCrashes(s.m, MicrosOf(s, acts), lease, timeout, u, now);
    }
  }
}
