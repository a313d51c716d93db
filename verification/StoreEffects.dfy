/**
  Everything one call of the lease store changes outside its answer, as a function of what was
  there before: the map, the two files, the two gauges and the error counter. The methods of
  the store are proved against it, and what holds over sequences of calls is proved about it.
 */
module StoreEffects {
  import opened Options
  import opened Lease
  import opened LeaseRuns
  import opened Durability

  datatype LeaseError =
    | LeaseExpired
    | LeaseNotFound
    | NodeIPNotFound
    | LeaseBlocked
    | StoreFailure(stage: string)

  datatype View = View(nodes: Nodes, files: Files, active: int, expired: int, errors: multiset<string>)

  // ---------- Gauges ----------

  /** Of `keys`, the nodes the expired gauge counts. */
  function Tally(nodes: Nodes, keys: set<string>, now: Time): set<string> {
    set u | u in keys && u in nodes && (nodes[u].status == Blocked || CountsExpired(nodes[u], now))
  }

  function GaugeExpired(nodes: Nodes, now: Time): set<string> {
    Tally(nodes, nodes.Keys, now)
  }

  /** The gauges after they are refreshed; without metrics nothing is. */
  function Gauged(counted: bool, v: View, now: Time): View {
    if !counted then v
    else v.(active := |v.nodes| - |GaugeExpired(v.nodes, now)|, expired := |GaugeExpired(v.nodes, now)|)
  }

  // ---------- Persisting ----------

  function PersistError(path: string, fate: Fate): Option<LeaseError> {
    if path == "" then None
    else
      match fate
      case Completes => None
      case MkdirFails => Some(StoreFailure("mkdir"))
      case EncodeFails => Some(StoreFailure("encode"))
      case WriteFails(_) => Some(StoreFailure("write"))
      case RenameFails => Some(StoreFailure("rename"))
  }

  function FilesAfter(path: string, files: Files, nodes: Nodes, fate: Fate): Files {
    if path == "" then files else AfterPersist(files, nodes, fate)
  }

  function ErrorsAfter(path: string, counted: bool, errors: multiset<string>, fate: Fate): multiset<string> {
    match PersistError(path, fate)
    case Some(StoreFailure(stage)) => if counted then errors + multiset{stage} else errors
    case _ => errors
  }

  function Persisted(path: string, counted: bool, v: View, fate: Fate): View {
    v.(files := FilesAfter(path, v.files, v.nodes, fate), errors := ErrorsAfter(path, counted, v.errors, fate))
  }

  // ---------- Calls ----------

  /** SetMaintenance is the one operation that persists without refreshing the gauges. */
  function Effect(path: string, counted: bool, v: View, op: Op, fate: Fate): View {
    var after := v.(nodes := Apply(v.nodes, op));
    if !Persists(v.nodes, op) then after
    else Persisted(path, counted, Gauged(counted && !op.SetMaintenance?, after, op.now), fate)
  }

  /**
    A call spelled out. One that persists leaves, in this order of failure, what the disk then
    holds; its gauges count blocked, tagged and run-out nodes as expired and all others as active
    (SetMaintenance leaves them); each failure counts one error of its stage. Any other call
    changes nothing.
   */
  lemma EffectExactly(path: string, counted: bool, v: View, op: Op, fate: Fate)
    ensures var after := Effect(path, counted, v, op, fate);
            if !Persists(v.nodes, op) then after == v
            else
              && after.nodes == Apply(v.nodes, op)
              && after.files == (if path == "" then v.files
                                 else match fate
                                   case Completes => Files(Image(after.nodes), Absent)
                                   case MkdirFails => v.files
                                   case EncodeFails => v.files
                                   case WriteFails(left) => Files(v.files.main, left)
                                   case RenameFails => Files(v.files.main, Image(after.nodes)))
              && after.errors == (if path == "" || !counted then v.errors
                                  else match fate
                                    case Completes => v.errors
                                    case MkdirFails => v.errors + multiset{"mkdir"}
                                    case EncodeFails => v.errors + multiset{"encode"}
                                    case WriteFails(_) => v.errors + multiset{"write"}
                                    case RenameFails => v.errors + multiset{"rename"})
              && (if counted && !op.SetMaintenance? then
                    var expired := set u | u in after.nodes &&
                      (|| after.nodes[u].status == Blocked || after.nodes[u].status == Expired
                       || (after.nodes[u].leaseUntil != UNSET && op.now > after.nodes[u].leaseUntil));
                    after.expired == |expired| && after.active == |after.nodes.Keys - expired|
                  else after.expired == v.expired && after.active == v.active)
  {
    hide Apply, Persists;
    if !Persists(v.nodes, op) {
      UnpersistedChangesNothing(v.nodes, op);
    } else {
      ExpiredSet(Apply(v.nodes, op), op.now);
      hide GaugeExpired;
    }
  }

  lemma ExpiredSet(nodes: Nodes, now: Time)
    ensures var expired := set u | u in nodes &&
              (|| nodes[u].status == Blocked || nodes[u].status == Expired
               || (nodes[u].leaseUntil != UNSET && now > nodes[u].leaseUntil));
            && GaugeExpired(nodes, now) == expired
            && |nodes| - |expired| == |nodes.Keys - expired|
  {
    var expired := GaugeExpired(nodes, now);
    assert nodes.Keys == expired + (nodes.Keys - expired);
    assert |nodes| == |nodes.Keys|;
  }

  /** Which error the caller gets. */
  lemma PersistErrorExactly(path: string, fate: Fate)
    ensures PersistError(path, fate) == None <==> path == "" || fate == Completes
    ensures path != "" ==>
              match fate
              case Completes => true
              case MkdirFails => PersistError(path, fate) == Some(StoreFailure("mkdir"))
              case EncodeFails => PersistError(path, fate) == Some(StoreFailure("encode"))
              case WriteFails(_) => PersistError(path, fate) == Some(StoreFailure("write"))
              case RenameFails => PersistError(path, fate) == Some(StoreFailure("rename"))
  {
  }

  /**
    Which calls persist: the ones that act on a node they find and that is not blocked, all
    Bootstraps and first heartbeats, admin calls of a known node, and checks that block.
   */
  lemma PersistsExactly(nodes: Nodes, op: Op)
    ensures Apply(nodes, op) != nodes ==> Persists(nodes, op)
    ensures Persists(nodes, op) <==>
            match op
            case Bootstrap(_, _, _, _) => true
            case HeartbeatIP(_, found, _, _) =>
              exists u :: found == Some(u) && u in nodes && nodes[u].status != Blocked
            case Validate(u, now) =>
              && u in nodes && nodes[u].status != Blocked
              && (nodes[u].status == Expired || (nodes[u].leaseUntil != UNSET && now > nodes[u].leaseUntil))
            case HeartbeatUUID(u, _, _, _, _) => !(u in nodes && nodes[u].status == Blocked)
            case Unblock(u, _, _) => u in nodes
            case SetMaintenance(u, _, _, _) => u in nodes
            case Check(now, timeout) =>
              exists u :: u in Apply(nodes, op) && Apply(nodes, op)[u].status == Blocked && nodes[u].status != Blocked
  {
    if !Persists(nodes, op) {
      UnpersistedChangesNothing(nodes, op);
    }
    if op.Check? {
      OnlyChecksBlock(nodes, op);
      forall u | u in OverdueNodes(nodes, op.now, op.timeout)
        ensures u in Apply(nodes, op) && Apply(nodes, op)[u].status == Blocked && nodes[u].status != Blocked
      {
        assert u in BecameBlocked(nodes, Apply(nodes, op));
      }
      forall u | u in Apply(nodes, op) && Apply(nodes, op)[u].status == Blocked && nodes[u].status != Blocked
        ensures u in OverdueNodes(nodes, op.now, op.timeout)
      {
        assert u in BecameBlocked(nodes, Apply(nodes, op));
      }
    }
  }

  ghost function Effects(path: string, counted: bool, v: View, ops: seq<Op>, fates: seq<Fate>): View
    requires |ops| == |fates|
  {
    if ops == [] then v
    else
      var n := |ops| - 1;
      Effect(path, counted, Effects(path, counted, v, ops[..n], fates[..n]), ops[n], fates[n])
  }

  lemma NoEffects(path: string, counted: bool, v: View)
    ensures Effects(path, counted, v, [], []) == v
  {
  }

  lemma EffectsSnoc(path: string, counted: bool, v: View, ops: seq<Op>, fates: seq<Fate>, op: Op, fate: Fate)
    requires |ops| == |fates|
    ensures Effects(path, counted, v, ops + [op], fates + [fate]) ==
            Effect(path, counted, Effects(path, counted, v, ops, fates), op, fate)
  {
    assert (ops + [op])[..|ops|] == ops && (fates + [fate])[..|ops|] == fates;
  }

  lemma UpToTwoEffects(path: string, counted: bool, v: View, ops: seq<Op>, fate1: Fate, fate2: Fate)
    requires |ops| <= 2
    ensures Effects(path, counted, v, ops, [fate1, fate2][..|ops|]) ==
            if |ops| == 0 then v
            else
              var first := Effect(path, counted, v, ops[0], fate1);
              if |ops| == 1 then first else Effect(path, counted, first, ops[1], fate2)
  {
    hide Effect, Effects;
    NoEffects(path, counted, v);
    assert |ops| == 0 ==> ops == [] && [fate1, fate2][..0] == [];
    assert |ops| == 1 ==> ops == ops[..1];
    if |ops| > 0 {
      EffectsSnoc(path, counted, v, [], [], ops[0], fate1);
      assert [] + [ops[0]] == ops[..1] && [] + [fate1] == [fate1, fate2][..1];
    }
    if |ops| > 1 {
      EffectsSnoc(path, counted, v, ops[..1], [fate1, fate2][..1], ops[1], fate2);
      assert ops[..1] + [ops[1]] == ops && [fate1, fate2][..1] + [fate2] == [fate1, fate2][..2];
    }
  }

  lemma {:induction false} EffectsReplay(path: string, counted: bool, v: View, ops: seq<Op>, fates: seq<Fate>)
    requires |ops| == |fates|
    ensures Effects(path, counted, v, ops, fates).nodes == Replay(v.nodes, ops)
    decreases |ops|
  {
    hide Apply;
    if ops == [] {
    } else {
      EffectsReplay(path, counted, v, ops[..|ops| - 1], fates[..|ops| - 1]);
    }
  }

  /** The two gauges add up to the nodes. */
  predicate Balanced(v: View) {
    v.active + v.expired == |v.nodes|
  }

  lemma MaintenanceKeepsSize(nodes: Nodes, op: Op)
    requires op.SetMaintenance?
    ensures |Apply(nodes, op)| == |nodes|
  {
    assert Apply(nodes, op).Keys == nodes.Keys;
    assert |nodes| == |nodes.Keys| && |Apply(nodes, op)| == |Apply(nodes, op).Keys|;
  }

  lemma EffectIsBalanced(path: string, v: View, op: Op, fate: Fate)
    requires Balanced(v)
    ensures Balanced(Effect(path, true, v, op, fate))
  {
    hide Apply, Persists, GaugeExpired, FilesAfter, ErrorsAfter;
    if !Persists(v.nodes, op) {
      UnpersistedChangesNothing(v.nodes, op);
    } else if op.SetMaintenance? {
      MaintenanceKeepsSize(v.nodes, op);
    }
  }

  /** Nodes are conserved: whatever calls are made and however their persists end, the gauges add up to the nodes. */
  lemma {:induction false} GaugesAreConserved(path: string, v: View, ops: seq<Op>, fates: seq<Fate>)
    requires |ops| == |fates| && Balanced(v)
    ensures Balanced(Effects(path, true, v, ops, fates))
    decreases |ops|
  {
    hide Effect, Balanced;
    if ops == [] {
    } else {
      var n := |ops| - 1;
      GaugesAreConserved(path, v, ops[..n], fates[..n]);
      EffectIsBalanced(path, Effects(path, true, v, ops[..n], fates[..n]), ops[n], fates[n]);
    }
  }

  // ---------- The error counter and the files ----------

  /** The state file loads to exactly what is in memory. */
  ghost predicate InStep(v: View) {
    Reload(v.files.main) == Some(v.nodes)
  }

  lemma ErrorsGrow(path: string, errors: multiset<string>, fate: Fate)
    ensures errors <= ErrorsAfter(path, true, errors, fate)
    ensures ErrorsAfter(path, true, errors, fate) == errors ==> PersistError(path, fate) == None
  {
    if PersistError(path, fate).Some? {
      var stage := PersistError(path, fate).value.stage;
      assert ErrorsAfter(path, true, errors, fate)[stage] == errors[stage] + 1;
    }
  }

  lemma EffectCountsErrors(path: string, v: View, op: Op, fate: Fate)
    requires path != ""
    ensures v.errors <= Effect(path, true, v, op, fate).errors
    ensures InStep(v) && Effect(path, true, v, op, fate).errors == v.errors ==> InStep(Effect(path, true, v, op, fate))
  {
    hide Apply, Persists, GaugeExpired, ErrorsAfter;
    ErrorsGrow(path, v.errors, fate);
    if !Persists(v.nodes, op) {
      UnpersistedChangesNothing(v.nodes, op);
    }
  }

  /** While the error counter has not moved, the state file is memory, so a restart would change nothing. */
  lemma {:induction false} QuietCounterMeansDurable(path: string, v: View, ops: seq<Op>, fates: seq<Fate>)
    requires |ops| == |fates| && path != "" && InStep(v)
    ensures v.errors <= Effects(path, true, v, ops, fates).errors
    ensures Effects(path, true, v, ops, fates).errors == v.errors ==> InStep(Effects(path, true, v, ops, fates))
    decreases |ops|
  {
    hide Effect, InStep;
    if ops == [] {
    } else {
      var n := |ops| - 1;
      QuietCounterMeansDurable(path, v, ops[..n], fates[..n]);
      EffectCountsErrors(path, Effects(path, true, v, ops[..n], fates[..n]), ops[n], fates[n]);
    }
  }

  // ---------- Calls are runs of the process ----------

  /** A call with a state file is a run of the file-system steps of Durability. */
  lemma EffectIsARun(path: string, counted: bool, v: View, op: Op, fate: Fate, m: Machine, es: seq<Micro>)
    returns (es': seq<Micro>)
    requires path != "" && Possible(v.nodes, op)
    requires CanLive(m, es) && Live(m, es) == Machine(v.nodes, v.files, Idle)
    ensures var after := Effect(path, counted, v, op, fate);
            CanLive(m, es') && Live(m, es') == Machine(after.nodes, after.files, Idle)
  {
    hide Apply, Persists, CanLive, Live, Possible, GaugeExpired;
    CanLiveSnoc(m, es, Call(op));
    es' := es + [Call(op)];
    if Persists(v.nodes, op) {
      var steps := StepsOf(fate);
      CanLiveSnoc(m, es', steps[0]);
      es' := es' + [steps[0]];
      if |steps| == 2 {
        CanLiveSnoc(m, es', steps[1]);
        es' := es' + [steps[1]];
      }
    }
  }

  /** So every theorem about those runs is about sequences of calls. */
  lemma {:induction false} EffectsAreARun(path: string, counted: bool, v: View, ops: seq<Op>, fates: seq<Fate>)
    returns (es: seq<Micro>)
    requires |ops| == |fates| && path != "" && PossibleRun(v.nodes, ops)
    ensures var m, after := Machine(v.nodes, v.files, Idle), Effects(path, counted, v, ops, fates);
            CanLive(m, es) && Live(m, es) == Machine(after.nodes, after.files, Idle)
    decreases |ops|
  {
    hide Effect, Apply, Replay, Possible;
    var m := Machine(v.nodes, v.files, Idle);
    es := [];
    if ops == [] {
    } else {
      var n := |ops| - 1;
      PossiblePrefix(v.nodes, ops, ops[..n]);
      es := EffectsAreARun(path, counted, v, ops[..n], fates[..n]);
      EffectsReplay(path, counted, v, ops[..n], fates[..n]);
      es := EffectIsARun(path, counted, Effects(path, counted, v, ops[..n], fates[..n]), ops[n], fates[n], m, es);
    }
  }
}
