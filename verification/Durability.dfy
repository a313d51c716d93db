/**
  Persistence of the node map: memory is rewritten first, then the whole map is written
  to a temporary file, then the temporary file is renamed over the state file. A crash may
  come at any point; on restart only the state file is read.

  JSON is taken as a faithful image of the map (`Image`); a partly written or damaged file
  is `Garbled`.
 */
module Durability {
  import opened Options
  import opened Lease
  import opened UnsealProtocol

  datatype File = Absent | Empty | Image(nodes: Nodes) | Garbled

  datatype Files = Files(main: File, tmp: File)

  /** `load`: a missing or empty state file is an empty store; an undecodable one is an error. */
  function Reload(f: File): Option<Nodes> {
    match f
    case Absent => Some(map[])
    case Empty => Some(map[])
    case Image(nodes) => Some(nodes)
    case Garbled => None
  }

  /** How one call of `persistLocked` ends; a failed write leaves anything in the temporary file. */
  datatype Fate = Completes | MkdirFails | EncodeFails | WriteFails(left: File) | RenameFails

  function AfterPersist(files: Files, nodes: Nodes, fate: Fate): Files {
    match fate
    case Completes => Files(Image(nodes), Absent)
    case MkdirFails => files
    case EncodeFails => files
    case WriteFails(left) => files.(tmp := left)
    case RenameFails => files.(tmp := Image(nodes))
  }

  // ---------- The store process, one file-system step at a time ----------

  datatype Phase =
    | Idle      // mutex free
    | Dirty     // memory rewritten, nothing durable yet
    | Written   // temporary file complete, not yet renamed

  datatype Machine = Machine(mem: Nodes, files: Files, phase: Phase)

  datatype Micro =
    | Call(op: Op)            // an operation takes the mutex and rewrites memory
    | GiveUp                  // directory creation or encoding fails
    | Chunk(left: File)       // part of the temporary file reaches the disk
    | WriteError(left: File)  // writing the temporary file fails
    | WriteDone               // the temporary file is complete
    | RenameError
    | RenameDone
    | Crash                   // the process dies and is started again

  ghost predicate Allowed(m: Machine, e: Micro) {
    match e
    case Call(op) => m.phase == Idle && Possible(m.mem, op)
    case GiveUp => m.phase == Dirty
    case Chunk(_) => m.phase == Dirty
    case WriteError(_) => m.phase == Dirty
    case WriteDone => m.phase == Dirty
    case RenameError => m.phase == Written
    case RenameDone => m.phase == Written
    case Crash => Reload(m.files.main).Some?
  }

  function Tick(m: Machine, e: Micro): Machine {
    match e
    case Call(op) => m.(mem := Apply(m.mem, op), phase := if Persists(m.mem, op) then Dirty else Idle)
    case GiveUp => m.(phase := Idle)
    case Chunk(left) => m.(files := m.files.(tmp := left))
    case WriteError(left) => m.(files := m.files.(tmp := left), phase := Idle)
    case WriteDone => m.(files := m.files.(tmp := Image(m.mem)), phase := Written)
    case RenameError => m.(phase := Idle)
    case RenameDone => m.(files := Files(m.files.tmp, Absent), phase := Idle)
    case Crash => m.(mem := if Reload(m.files.main).Some? then Reload(m.files.main).value else map[], phase := Idle)
  }

  ghost function Live(m: Machine, es: seq<Micro>): Machine {
    if es == [] then m else Tick(Live(m, es[..|es| - 1]), es[|es| - 1])
  }

  ghost predicate CanLive(m: Machine, es: seq<Micro>) {
    forall i :: 0 <= i < |es| ==> Allowed(Live(m, es[..i]), es[i])
  }

  lemma CanLivePrefix(m: Machine, es: seq<Micro>)
    requires CanLive(m, es) && es != []
    ensures CanLive(m, es[..|es| - 1]) && Allowed(Live(m, es[..|es| - 1]), es[|es| - 1])
  {
    var init := es[..|es| - 1];
    forall i | 0 <= i < |init| ensures Allowed(Live(m, init[..i]), init[i]) {
      assert init[..i] == es[..i];
    }
  }

  lemma CanLiveTake(m: Machine, es: seq<Micro>, i: nat)
    requires CanLive(m, es) && i <= |es|
    ensures CanLive(m, es[..i])
  {
    var init := es[..i];
    forall j | 0 <= j < i ensures Allowed(Live(m, init[..j]), init[j]) {
      assert init[..j] == es[..j];
    }
  }

  lemma CanLiveSnoc(m: Machine, es: seq<Micro>, e: Micro)
    requires CanLive(m, es) && Allowed(Live(m, es), e)
    ensures CanLive(m, es + [e]) && Live(m, es + [e]) == Tick(Live(m, es), e)
  {
    var all := es + [e];
    assert all[..|es|] == es;
    forall i | 0 <= i < |all| ensures Allowed(Live(m, all[..i]), all[i]) {
      if i < |es| {
        assert all[..i] == es[..i];
      }
    }
  }

  /** A process just started on a readable state file; the temporary file may hold anything. */
  ghost predicate Booted(m: Machine) {
    m.phase == Idle && Reload(m.files.main) == Some(m.mem)
  }

  /** What a restart would load. */
  ghost function OnDisk(m: Machine): Nodes {
    if Reload(m.files.main).Some? then Reload(m.files.main).value else map[]
  }

  /** A written temporary file holds memory, and the state file loads: so in every reachable state. */
  ghost predicate Sound(m: Machine) {
    Reload(m.files.main).Some? && (m.phase == Written ==> m.files.tmp == Image(m.mem))
  }

  // ---------- Crash refinement ----------

  /** Memory as it was when the latest rename completed; the loaded map if none has. */
  ghost function LatestRenamed(m: Machine, es: seq<Micro>): Nodes {
    if es == [] then m.mem
    else
      var init := es[..|es| - 1];
      if es[|es| - 1].RenameDone? then Live(m, init).mem else LatestRenamed(m, init)
  }

  /** The operations memory has seen, and those the state file has seen. */
  datatype Logs = Logs(seen: seq<Op>, durable: seq<Op>)

  ghost function History(es: seq<Micro>): Logs {
    if es == [] then Logs([], [])
    else
      var before, last := History(es[..|es| - 1]), es[|es| - 1];
      match last
      case Call(op) => before.(seen := before.seen + [op])
      case RenameDone => before.(durable := before.seen)
      case Crash => before.(seen := before.durable)
      case _ => before
  }

  /**
    At every point of every run, crashes and failures included: the state file reloads to
    memory as of the latest completed rename, never a mixture; memory is the replay of the
    operations that survived; and the state file is the replay of a prefix of those.
   */
  lemma {:induction false} CrashRefinement(m: Machine, es: seq<Micro>)
    requires Booted(m) && CanLive(m, es)
    ensures var now, logs := Live(m, es), History(es);
            && Reload(now.files.main) == Some(LatestRenamed(m, es))
            && now.mem == Replay(m.mem, logs.seen)
            && LatestRenamed(m, es) == Replay(m.mem, logs.durable)
            && logs.durable <= logs.seen
            && PossibleRun(m.mem, logs.seen)
            && Sound(now)
    decreases |es|
  {
    hide Apply, Replay, Possible, PossibleRun, Persists;
    EmptyReplay(m.mem);
    if es == [] {
      NothingPossible(m.mem);
    } else {
      var init, last := es[..|es| - 1], es[|es| - 1];
      CanLivePrefix(m, es);
      CrashRefinement(m, init);
      var logs := History(init);
      if last.Call? {
        ReplaySnoc(m.mem, logs.seen, last.op);
        PossibleSnoc(m.mem, logs.seen, last.op);
      } else if last.Crash? {
        PossiblePrefix(m.mem, logs.seen, logs.durable);
      }
    }
  }

  /** A crash is always survivable, whatever the temporary file held. */
  lemma RestartNeverFails(m: Machine, es: seq<Micro>)
    requires Booted(m) && CanLive(m, es)
    ensures Allowed(Live(m, es), Crash)
    ensures Booted(Tick(Live(m, es), Crash))
  {
    CrashRefinement(m, es);
  }

  /** A write torn at any point by a crash leaves what the state file had. */
  lemma TornWriteIsHarmless(m: Machine, left: File)
    requires Sound(m) && m.phase == Dirty
    ensures CanLive(m, [Chunk(left), Crash])
    ensures Live(m, [Chunk(left), Crash]) == Machine(OnDisk(m), Files(m.files.main, left), Idle)
  {
    hide CanLive, Live;
    NothingLived(m);
    CanLiveSnoc(m, [], Chunk(left));
    CanLiveSnoc(m, [] + [Chunk(left)], Crash);
    assert [] + [Chunk(left)] + [Crash] == [Chunk(left), Crash];
  }

  lemma NothingLived(m: Machine)
    ensures CanLive(m, []) && Live(m, []) == m
  {
  }

  /** The latest persist succeeded (calls that needed none do not count). */
  ghost predicate Synced(m: Machine, es: seq<Micro>) {
    if es == [] then true
    else
      var init, last := es[..|es| - 1], es[|es| - 1];
      match last
      case Call(op) => Synced(m, init) && !Persists(Live(m, init).mem, op)
      case RenameDone => true
      case Crash => true
      case _ => Synced(m, init)
  }

  /** It holds at the start, after a completed rename and after a crash, and outlasts calls that do not persist. */
  lemma SyncedExactly(m: Machine, es: seq<Micro>, e: Micro)
    ensures Synced(m, [])
    ensures Synced(m, es + [e]) <==>
            || e == RenameDone || e == Crash
            || (Synced(m, es) && (e.Call? ==> !Persists(Live(m, es).mem, e.op)))
  {
    assert (es + [e])[..|es|] == es;
  }

  lemma {:induction false} SyncedMeansEqual(m: Machine, es: seq<Micro>)
    requires Booted(m) && CanLive(m, es) && Synced(m, es)
    ensures Booted(Live(m, es))
    decreases |es|
  {
    if es == [] {
    } else {
      var init, last := es[..|es| - 1], es[|es| - 1];
      CanLivePrefix(m, es);
      CrashRefinement(m, init);
      if Synced(m, init) {
        SyncedMeansEqual(m, init);
        if last.Call? {
          UnpersistedChangesNothing(Live(m, init).mem, last.op);
        }
      }
    }
  }

  /** Whenever the latest persist succeeded, a restart changes nothing at all, so nothing later can tell. */
  lemma SyncedRestartIsInvisible(m: Machine, es: seq<Micro>)
    requires Booted(m) && CanLive(m, es) && Synced(m, es)
    ensures Tick(Live(m, es), Crash) == Live(m, es)
  {
    SyncedMeansEqual(m, es);
  }

  // ---------- One persist call is a path of file-system steps ----------

  function StepsOf(fate: Fate): seq<Micro> {
    match fate
    case Completes => [WriteDone, RenameDone]
    case MkdirFails => [GiveUp]
    case EncodeFails => [GiveUp]
    case WriteFails(left) => [WriteError(left)]
    case RenameFails => [WriteDone, RenameError]
  }

  /** `AfterPersist` is where those steps end, and only a completed one changes the state file. */
  lemma PersistIsAPath(m: Machine, fate: Fate)
    requires m.phase == Dirty
    ensures CanLive(m, StepsOf(fate))
    ensures Live(m, StepsOf(fate)) == Machine(m.mem, AfterPersist(m.files, m.mem, fate), Idle)
    ensures Reload(AfterPersist(m.files, m.mem, fate).main) ==
            if fate == Completes then Some(m.mem) else Reload(m.files.main)
  {
  }

  // ---------- Blocked across crashes ----------

  /** No call of the run is an Unblock or a Bootstrap of `u`. */
  ghost predicate NeverReleased(es: seq<Micro>, u: string) {
    forall i :: 0 <= i < |es| && es[i].Call? && (es[i].op.Unblock? || es[i].op.Bootstrap?) ==> es[i].op.uuid != u
  }

  ghost predicate DurablyBlocked(before: Nodes, m: Machine, u: string) {
    Sound(m) && StillBlocked(before, m.mem, u) && StillBlocked(before, OnDisk(m), u)
  }

  lemma {:induction false} DurablyBlockedStays(before: Nodes, m: Machine, es: seq<Micro>, u: string)
    requires DurablyBlocked(before, m, u)
    requires CanLive(m, es) && NeverReleased(es, u)
    ensures DurablyBlocked(before, Live(m, es), u)
    decreases |es|
  {
    if es == [] {
    } else {
      var init, last := es[..|es| - 1], es[|es| - 1];
      CanLivePrefix(m, es);
      DurablyBlockedStays(before, m, init, u);
      if last.Call? {
        BlockedLeftOnlyBy(Live(m, init).mem, last.op, u);
      }
    }
  }

  /**
    A block survives every future of crashes, failures and operations (Unblock and Bootstrap
    of the node aside) if and only if the state file has it: a check ignores the error of its
    own persist, so a block that never reached the file is forgotten by a crash.
   */
  lemma BlockSurvivesCrashesExactly(m: Machine, u: string)
    requires IsBlocked(m.mem, u) && Sound(m)
    ensures (forall es :: CanLive(m, es) && NeverReleased(es, u) ==> StillBlocked(m.mem, Live(m, es).mem, u))
            <==> StillBlocked(m.mem, OnDisk(m), u)
  {
    if StillBlocked(m.mem, OnDisk(m), u) {
      forall es | CanLive(m, es) && NeverReleased(es, u)
        ensures StillBlocked(m.mem, Live(m, es).mem, u)
      {
        DurablyBlockedStays(m.mem, m, es, u);
      }
    } else {
      var es := [Crash];
      assert es[..0] == [];
      assert CanLive(m, es) && NeverReleased(es, u);
      assert !StillBlocked(m.mem, Live(m, es).mem, u);
    }
  }
}
