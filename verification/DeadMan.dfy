/** The dead-man's switch of pkg/server/deadman.go: one check, and checks among the calls of everyone else. */
module DeadMan {
  import opened Lease
  import opened LeaseRuns
  import opened Durability
  import opened StoreEffects
  import opened LeaseStores

  lemma NothingCounted(nodes: Nodes)
    ensures TimeoutCounter(nodes, []) == 0
  {
  }

  class DeadManSwitch {
    const store: LeaseStore
    const metrics: Metrics
    const timeout: Duration

    constructor (store: LeaseStore, metrics: Metrics, timeout: Duration)
      ensures this.store == store && this.metrics == metrics && this.timeout == timeout
    {
      this.store, this.metrics, this.timeout := store, metrics, timeout;
    }

    /** Counts exactly the nodes that became blocked, and returns them for the log. */
    method Check(now: Time, fate: Fate) returns (blocked: seq<string>)
      requires store.Valid()
      modifies store`nodes, store`history, store.disk
      modifies store.metrics`activeLeases, store.metrics`expiredLeases, store.metrics`storeErrors
      modifies metrics`heartbeatTimeouts
      ensures store.Valid() && store.Did(Op.Check(now, timeout), fate)
      ensures forall i, j :: 0 <= i < j < |blocked| ==> blocked[i] != blocked[j]
      ensures forall u :: u in blocked <==> u in BecameBlocked(old(store.nodes), store.nodes)
      ensures metrics.heartbeatTimeouts == old(metrics.heartbeatTimeouts)
                + if metrics.enabled then |OverdueNodes(old(store.nodes), now, timeout)| else 0
    {
      hide Replay, PossibleRun;
      blocked := store.BlockExpiredNodes(now, timeout, fate);
      OnlyChecksBlock(old(store.nodes), Op.Check(now, timeout));
      hide Apply, OverdueNodes, Effect, BecameBlocked;
      if |blocked| == 0 {
        return;
      }
      if metrics.enabled {
        metrics.heartbeatTimeouts := metrics.heartbeatTimeouts + |blocked|;
      }
    }

    /**
      The loop of Run until it is cancelled, among the calls of all other parties: `calls` is
      what takes the mutex, in that order, the ticks of this switch included. The counter grows
      by the number of times any node became blocked.
     */
    method Run(calls: seq<Op>, fates: seq<Fate>) returns (ghost done: seq<Op>)
      requires store.Valid() && |fates| == |calls|
      requires forall i :: 0 <= i < |calls| && calls[i].Check? ==> calls[i].timeout == timeout
      modifies store`nodes, store`history, store.disk
      modifies store.metrics`activeLeases, store.metrics`expiredLeases, store.metrics`storeErrors
      modifies metrics`heartbeatTimeouts
      ensures store.Valid() && store.history == old(store.history) + done
      ensures |done| == |calls| && forall i :: 0 <= i < |calls| ==> SameCall(calls[i], done[i])
      ensures store.Seen() == Effects(store.path, store.metrics.enabled, old(store.Seen()), done, fates)
      ensures metrics.heartbeatTimeouts == old(metrics.heartbeatTimeouts)
                + if metrics.enabled then Blockings(old(store.nodes), done) else 0
    {
      hide Apply, Replay, TimeoutCounter, OverdueNodes, Effect, Effects, PossibleRun, BecameBlocked;
      ghost var path, counted, before := store.path, store.metrics.enabled, store.Seen();
      done := [];
      NothingCounted(store.nodes);
      NoEffects(path, counted, before);
      for i := 0 to |calls|
        invariant store.Valid() && store.history == old(store.history) + done && |done| == i
        invariant forall j :: 0 <= j < i ==> SameCall(calls[j], done[j])
        invariant store.Seen() == Effects(path, counted, before, done, fates[..i])
        invariant metrics.heartbeatTimeouts == old(metrics.heartbeatTimeouts)
                    + if metrics.enabled then TimeoutCounter(before.nodes, done) else 0
      {
        EffectsReplay(path, counted, before, done, fates[..i]);
        ghost var next;
        if calls[i].Check? {
          next := calls[i];
          var _ := Check(calls[i].now, fates[i]);
        } else {
          next := store.Perform(calls[i], fates[i]);
        }
        EffectsSnoc(path, counted, before, done, fates[..i], next, fates[i]);
        TimeoutCounterSnoc(before.nodes, done, next);
        assert fates[..i + 1] == fates[..i] + [fates[i]];
        done := done + [next];
      }
      assert fates[..|calls|] == fates;
      CounterCountsBlockings(before.nodes, done);
    }
  }
}
