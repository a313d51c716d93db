/**
  The run theorems of LeaseRuns with failed persists and crashes anywhere: what a crash can
  take back, and exactly what it then takes for the deadlines to be kept.
 */
module CrashRuns {
  import opened Options
  import opened Lease
  import opened LeaseRuns
  import opened Durability

  /** The readings of the calls of a run are non-decreasing. */
  ghost predicate CallsMonotone(es: seq<Micro>) {
    forall i, j :: 0 <= i < j < |es| && es[i].Call? && es[j].Call? ==> es[i].op.now <= es[j].op.now
  }

  /** Every call is after the zero time and uses the durations of one configuration. */
  ghost predicate Configured(es: seq<Micro>, lease: Duration, timeout: Duration) {
    forall i :: 0 <= i < |es| && es[i].Call? ==>
      && es[i].op.now > UNSET
      && (!es[i].op.Validate? && !es[i].op.Check? ==> es[i].op.lease == lease)
      && (es[i].op.Check? ==> es[i].op.timeout == timeout)
  }

  /** Every operation memory has seen is a call of the run. */
  lemma {:induction false} SurvivorsAreCalls(es: seq<Micro>)
    ensures forall op :: op in History(es).seen ==> Call(op) in es
    ensures forall op :: op in History(es).durable ==> op in History(es).seen
    decreases |es|
  {
    if es == [] {
    } else {
      SurvivorsAreCalls(es[..|es| - 1]);
    }
  }

  /** Whatever a crash takes back, every record in memory is well kept. */
  lemma {:induction false} RecordInvariantAcrossCrashes(m: Machine, es: seq<Micro>, lease: Duration, timeout: Duration,
                                                        u: string)
    requires Booted(m) && m.mem == map[] && CanLive(m, es) && Configured(es, lease, timeout) && lease > 0
    ensures u in Live(m, es).mem ==> WellKept(Live(m, es).mem[u], lease)
  {
    hide Apply, Replay, Live;
    CrashRefinement(m, es);
    SurvivorsAreCalls(es);
    var seen := History(es).seen;
    forall i | 0 <= i < |seen| ensures Call(seen[i]) in es {
      assert seen[i] in seen;
    }
    RecordInvariant(seen, lease, u);
  }

  // ---------- The admission bound ----------

  /**
    What the check of step `k` knew was not lost: before any later crash, memory and state
    file were in step at least once.
   */
  ghost predicate Remembered(m: Machine, es: seq<Micro>, k: nat) {
    forall c :: k < c < |es| && es[c].Crash? ==> CaughtUp(m, es, k, c)
  }

  /** Between the steps `k` and `i`, memory and state file were in step at least once. */
  ghost predicate CaughtUp(m: Machine, es: seq<Micro>, k: nat, i: nat)
    requires i <= |es|
  {
    exists j :: k < j <= i && Synced(m, es[..j])
  }

  /** In particular a check is remembered until the first crash, and for good if the state file caught up before it. */
  lemma RememberedExactly(m: Machine, es: seq<Micro>, k: nat)
    ensures Remembered(m, es, k) <==>
            forall c :: k < c < |es| && es[c] == Crash ==> exists j :: k < j <= c && Synced(m, es[..j])
  {
    hide Synced;
    if Remembered(m, es, k) {
      forall c | k < c < |es| && es[c] == Crash ensures exists j :: k < j <= c && Synced(m, es[..j]) {
        assert CaughtUp(m, es, k, c);
      }
    }
  }

  lemma CaughtUpNext(m: Machine, es: seq<Micro>, k: nat, i: nat)
    requires k < i <= |es|
    ensures CaughtUp(m, es, k, i) <==> CaughtUp(m, es, k, i - 1) || Synced(m, es[..i])
  {
    hide Synced;
  }

  /** One step; `caught` says that the state file has caught up since. */
  lemma VouchedTick(m: Machine, e: Micro, u: string, since: Time, caught: bool)
    requires Allowed(m, e) && (e.Call? ==> since <= e.op.now)
    requires Vouched(Get(m.mem, u), since) && (caught ==> Vouched(Get(OnDisk(m), u), since))
    requires e.Crash? ==> caught
    ensures Vouched(Get(Tick(m, e).mem, u), since)
    ensures caught && !e.RenameDone? ==> Vouched(Get(OnDisk(Tick(m, e)), u), since)
  {
    if e.Call? {
      ApplyIsLocal(m.mem, e.op, u);
      VouchedStep(u, Get(m.mem, u), e.op, since);
    }
  }

  lemma {:induction false} RememberedVouches(m: Machine, es: seq<Micro>, k: nat, i: nat, u: string, since: Time)
    requires Booted(m) && CanLive(m, es) && CallsMonotone(es)
    requires k < i <= |es| && es[k].Call? && since <= es[k].op.now && Remembered(m, es, k)
    requires Vouched(Get(Live(m, es[..k + 1]).mem, u), since)
    ensures Vouched(Get(Live(m, es[..i]).mem, u), since)
    ensures CaughtUp(m, es, k, i) ==> Vouched(Get(OnDisk(Live(m, es[..i])), u), since)
    decreases i
  {
    hide Tick, Allowed, Vouched, Live, CanLive, CaughtUp, Synced, OnDisk;
    CaughtUpNext(m, es, k, i);
    if i == k + 1 {
      NotCaughtUpAtOnce(m, es, k);
    } else {
      RememberedVouches(m, es, k, i - 1, u, since);
      LiveNext(m, es, i - 1);
      VouchedTick(Live(m, es[..i - 1]), es[i - 1], u, since, CaughtUp(m, es, k, i - 1));
      RenamedIsSynced(m, es, i - 1);
    }
    if Synced(m, es[..i]) {
      CanLiveTake(m, es, i);
      SyncedMeansEqual(m, es[..i]);
      BootedOnDisk(Live(m, es[..i]));
    }
  }

  lemma NotCaughtUpAtOnce(m: Machine, es: seq<Micro>, k: nat)
    requires k <= |es|
    ensures !CaughtUp(m, es, k, k)
  {
  }

  lemma BootedOnDisk(m: Machine)
    requires Booted(m)
    ensures OnDisk(m) == m.mem
  {
  }

  lemma LiveNext(m: Machine, es: seq<Micro>, i: nat)
    requires CanLive(m, es) && i < |es|
    ensures Allowed(Live(m, es[..i]), es[i]) && Live(m, es[..i + 1]) == Tick(Live(m, es[..i]), es[i])
  {
    assert es[..i + 1][..i] == es[..i];
  }

  lemma RenamedIsSynced(m: Machine, es: seq<Micro>, i: nat)
    requires i < |es|
    ensures es[i].RenameDone? ==> Synced(m, es[..i + 1])
  {
  }

  /**
    The admission bound with crashes and failed persists anywhere: a node that Validate admits
    was heard of within the lease and, outside maintenance, within the timeout plus the time
    since any check whose knowledge no crash has lost.
   */
  lemma {:induction false} AdmissionBoundAcrossCrashes(m: Machine, es: seq<Micro>, lease: Duration, timeout: Duration,
                                                       u: string, now: Time)
    requires Booted(m) && m.mem == map[] && CanLive(m, es) && Configured(es, lease, timeout) && lease > 0
    requires u in Live(m, es).mem && Answer(Live(m, es).mem, u, now) == Admitted
    ensures now - Live(m, es).mem[u].lastHeartbeatAt <= lease
    ensures CallsMonotone(es) && timeout < MAX_DURATION && !Live(m, es).mem[u].maintenance ==>
              forall k :: 0 <= k < |es| && es[k].Call? && es[k].op.Check? && Remembered(m, es, k) ==>
                now - Live(m, es).mem[u].lastHeartbeatAt <= Max(timeout, 0) + (now - es[k].op.now)
  {
    hide Live, CanLive, Remembered;
    RecordInvariantAcrossCrashes(m, es, lease, timeout, u);
    if CallsMonotone(es) && timeout < MAX_DURATION && !Live(m, es).mem[u].maintenance {
      forall k | 0 <= k < |es| && es[k].Call? && es[k].op.Check? && Remembered(m, es, k)
        ensures now - Live(m, es).mem[u].lastHeartbeatAt <= Max(timeout, 0) + (now - es[k].op.now)
      {
        CheckAtVouches(m, es, lease, timeout, k, u);
        RememberedVouches(m, es, k, |es|, u, es[k].op.now - Max(timeout, 0));
        assert es[..|es|] == es;
      }
    }
  }

  lemma {:induction false} CheckAtVouches(m: Machine, es: seq<Micro>, lease: Duration, timeout: Duration, k: nat, u: string)
    requires Booted(m) && m.mem == map[] && CanLive(m, es) && Configured(es, lease, timeout) && lease > 0
    requires k < |es| && es[k].Call? && es[k].op.Check? && timeout < MAX_DURATION
    ensures Vouched(Get(Live(m, es[..k + 1]).mem, u), es[k].op.now - Max(timeout, 0))
  {
    hide Live, CanLive, Apply;
    CanLiveTake(m, es, k);
    RecordInvariantAcrossCrashes(m, es[..k], lease, timeout, u);
    LiveNext(m, es, k);
    var mem := Live(m, es[..k]).mem;
    ApplyIsLocal(mem, es[k].op, u);
    CheckVouches(u, Get(mem, u), es[k].op);
  }

  ghost predicate CallsSince(es: seq<Micro>, since: Time) {
    forall i :: 0 <= i < |es| && es[i].Call? ==> since <= es[i].op.now
  }

  lemma {:induction false} VouchedStays(m: Machine, es: seq<Micro>, u: string, since: Time)
    requires Sound(m) && Vouched(Get(m.mem, u), since) && Vouched(Get(OnDisk(m), u), since)
    requires CanLive(m, es) && CallsSince(es, since)
    ensures Sound(Live(m, es))
    ensures Vouched(Get(Live(m, es).mem, u), since) && Vouched(Get(OnDisk(Live(m, es)), u), since)
    decreases |es|
  {
    hide Apply;
    if es == [] {
    } else {
      var init, last := es[..|es| - 1], es[|es| - 1];
      CanLivePrefix(m, es);
      VouchedStays(m, init, u, since);
      VouchedTick(Live(m, init), last, u, since, true);
    }
  }

  /** What a check established about a node outlasts every future if and only if the state file agrees with it. */
  lemma CheckOutlastsCrashesExactly(m: Machine, u: string, since: Time)
    requires Sound(m) && Vouched(Get(m.mem, u), since)
    ensures (forall es :: CanLive(m, es) && CallsSince(es, since) ==> Vouched(Get(Live(m, es).mem, u), since))
            <==> Vouched(Get(OnDisk(m), u), since)
  {
    if Vouched(Get(OnDisk(m), u), since) {
      forall es | CanLive(m, es) && CallsSince(es, since)
        ensures Vouched(Get(Live(m, es).mem, u), since)
      {
        VouchedStays(m, es, u, since);
      }
    } else {
      var es := [Crash];
      assert es[..0] == [];
      assert CanLive(m, es) && CallsSince(es, since);
      assert !Vouched(Get(Live(m, es).mem, u), since);
    }
  }

  // ---------- No false blocking ----------

  /**
    A node whose heartbeats, as far as they have survived, are never further apart than lease
    and timeout stays active through every crash and failure: at every call Validate would admit it,
    and no check blocks it.
   */
  lemma {:induction false} NoFalseBlockingAcrossCrashes(m: Machine, es: seq<Micro>, u: string, lease: Duration,
                                                        timeout: Duration, i: nat)
    requires Booted(m) && CanLive(m, es) && i <= |es|
    requires forall j :: 0 <= j <= |es| ==> Steady(m.mem, History(es[..j]).seen, u, lease, timeout)
    ensures var at := Live(m, es[..i]).mem;
            && u in at && at[u].status == Active
            && (i < |es| && es[i].Call? ==> Answer(at, u, es[i].op.now) == Admitted)
            && (i < |es| && es[i].Call? && es[i].op.Check? ==> u !in OverdueNodes(at, es[i].op.now, es[i].op.timeout))
  {
    hide Live, Replay, CanLive, Steady, Answer, OverdueNodes;
    var seen := History(es[..i]).seen;
    CanLiveTake(m, es, i);
    CrashRefinement(m, es[..i]);
    NoFalseBlocking(m.mem, seen, u, lease, timeout);
    assert seen[..|seen|] == seen;
    if i < |es| && es[i].Call? {
      assert es[..i + 1][..i] == es[..i];
      var next := History(es[..i + 1]).seen;
      assert next == seen + [es[i].op];
      NoFalseBlocking(m.mem, next, u, lease, timeout);
      assert next[..|seen|] == seen && next[|seen|] == es[i].op;
    }
  }

  // ---------- What a crash takes back ----------

  const EMPTY: Machine := Machine(map[], Files(Absent, Absent), Idle)

  /** A heartbeat of node "a". */
  function Beat(now: Time): Op {
    HeartbeatUUID("a", "10.0.0.1", "", now, 1000)
  }

  function AfterBeat(now: Time): Nodes {
    map["a" := BeatByUUID(Some(BeatByUUID(None, "10.0.0.1", "", 1, 1000)), "10.0.0.1", "", now, 1000)]
  }

  /** "a" beats at 1, which is saved, and at 50, which is not. */
  const UNSAVED: seq<Micro> := [Call(Beat(1)), WriteDone, RenameDone, Call(Beat(50)), GiveUp]

  lemma BeatSteps()
    ensures Apply(map[], Beat(1)) == AfterBeat(1) && Persists(map[], Beat(1))
    ensures Apply(AfterBeat(1), Beat(50)) == AfterBeat(50) && Persists(AfterBeat(1), Beat(50))
  {
  }

  lemma UnsavedBeat() returns (es: seq<Micro>)
    ensures es == UNSAVED && CanLive(EMPTY, es)
    ensures Live(EMPTY, es) == Machine(AfterBeat(50), Files(Image(AfterBeat(1)), Absent), Idle)
  {
    hide CanLive, Live, Apply, Persists, AfterBeat;
    BeatSteps();
    NothingLived(EMPTY);
    CanLiveSnoc(EMPTY, [], Call(Beat(1)));
    CanLiveSnoc(EMPTY, [] + [Call(Beat(1))], WriteDone);
    CanLiveSnoc(EMPTY, [] + [Call(Beat(1))] + [WriteDone], RenameDone);
    es := [] + [Call(Beat(1))] + [WriteDone] + [RenameDone];
    CanLiveSnoc(EMPTY, es, Call(Beat(50)));
    CanLiveSnoc(EMPTY, es + [Call(Beat(50))], GiveUp);
    es := es + [Call(Beat(50))] + [GiveUp];
  }

  /** A check at 60 finds "a" silent if it beat at 1, and finds nothing if it beat at 50. */
  lemma CheckAt60()
    ensures "a" in OverdueNodes(AfterBeat(1), 60, 30) && Persists(AfterBeat(1), Check(60, 30))
    ensures Apply(AfterBeat(1), Check(60, 30)) == map["a" := Checked(AfterBeat(1)["a"], 60, 30)]
    ensures !Persists(AfterBeat(50), Check(60, 30)) && Apply(AfterBeat(50), Check(60, 30)) == AfterBeat(50)
  {
    assert "a" in OverdueNodes(AfterBeat(1), 60, 30);
    assert OverdueNodes(AfterBeat(50), 60, 30) == {};
  }

  /** The hypothesis of the bound is needed: a check, and the heartbeat it relied on, are forgotten by a crash. */
  lemma LostCheckWitness() returns (es: seq<Micro>, now: Time)
    ensures CanLive(EMPTY, es) && CallsMonotone(es) && Configured(es, 1000, 30) && Call(Check(60, 30)) in es
    ensures var at := Live(EMPTY, es).mem;
            && "a" in at && !at["a"].maintenance && Answer(at, "a", now) == Admitted
            && now - at["a"].lastHeartbeatAt > 30 + (now - 60)
  {
    hide CanLive, Live, Apply, Persists, OverdueNodes;
    var unsaved := UnsavedBeat();
    var check := Call(Check(60, 30));
    CheckAt60();
    CanLiveSnoc(EMPTY, unsaved, check);
    CanLiveSnoc(EMPTY, unsaved + [check], Crash);
    es, now := unsaved + [check] + [Crash], 61;
    assert es[|unsaved|] == check;
  }

  /** And a node that beat ten seconds ago is blocked, because that heartbeat did not survive. */
  lemma LostBeatWitness() returns (es: seq<Micro>)
    ensures CanLive(EMPTY, es + [Call(Check(60, 30))]) && CallsMonotone(es) && Call(Beat(50)) in es
    ensures "a" in OverdueNodes(Live(EMPTY, es).mem, 60, 30)
  {
    hide CanLive, Live, Apply, Persists;
    CheckAt60();
    var unsaved := UnsavedBeat();
    assert unsaved[3] == Call(Beat(50));
    CanLiveSnoc(EMPTY, unsaved, Crash);
    es := unsaved + [Crash];
    CanLiveSnoc(EMPTY, es, Call(Check(60, 30)));
  }
}
