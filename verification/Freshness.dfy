/**
  Signature freshness and lease admission together: what an admitted node's latest sign of
  life was, and for one that came over HTTP, when it was signed.
 */
module Freshness {
  import opened Options
  import opened Wire
  import opened Lease
  import opened Durability
  import opened CrashRuns
  import opened Silence
  import opened Signatures

  /** The request behind a heartbeat by UUID, in seconds: its timestamp, when it was signed, the clock it was checked against. */
  datatype Request = Request(ts: int64, signedAt: int64, clock: int64)

  /**
    The handler let the request through, and its signature was made for that node and address at
    `signedAt`. The lease reading follows the clock reading by at most `delay`, which includes
    the fraction of a second that the clock reading drops.
   */
  ghost predicate Genuine(a: HMACAuth, op: Op, sent: Request, delay: int) {
    op.HeartbeatUUID? ==>
      && sent.signedAt >= 0 && 0 <= sent.clock < TWO63 - 60
      && TimestampOk(sent.ts, sent.clock)
      && a.Accepts(op.uuid + op.ip, sent.ts, Some(a.Sign(op.uuid, op.ip, sent.signedAt)))
      && op.now - sent.clock * SECOND <= delay
  }

  /** The operation is a sign of life of `u`, recent enough; over HTTP it is counted from its signature. */
  ghost predicate SignOfLife(op: Op, u: string, sent: Request, now: Time, lease: Duration, delay: int) {
    || ((op.Bootstrap? || op.Unblock?) && op.uuid == u && now - op.now <= lease)
    || (op.SetMaintenance? && op.uuid == u && !op.enabled && now - op.now <= lease)
    || (op.HeartbeatIP? && op.found == Some(u) && now - op.now <= lease)
    || (op.HeartbeatUUID? && op.uuid == u && now - sent.signedAt * SECOND <= lease + delay + 119 * SECOND)
  }

  /** The operation that refreshed `u` last. */
  lemma {:induction false} LatestRefresh(ops: seq<Op>, u: string) returns (i: nat)
    requires u in Replay(map[], ops)
    ensures i < |ops| && RefreshesRecord(u, Get(Replay(map[], ops[..i]), u), ops[i])
    ensures ops[i].now == LastRefresh(map[], ops, u)
    decreases |ops|
  {
    hide Apply, StepNode;
    if ops == [] {
      assert false;
    } else {
      var init, last := ops[..|ops| - 1], ops[|ops| - 1];
      ApplyIsLocal(Replay(map[], init), last, u);
      RefreshStep(u, Get(Replay(map[], init), u), last);
      if RefreshesRecord(u, Get(Replay(map[], init), u), last) {
        i := |ops| - 1;
      } else {
        i := LatestRefresh(init, u);
        assert init[..i] == ops[..i] && init[i] == ops[i];
      }
    }
  }

  lemma {:induction false} RefreshIsSignOfLife(a: HMACAuth, u: string, r: Option<LeaseRecord>, op: Op, sent: Request,
                                               now: Time, lease: Duration, delay: int)
    requires a.CollisionFree() && Genuine(a, op, sent, delay)
    requires RefreshesRecord(u, r, op) && now - op.now <= lease
    ensures SignOfLife(op, u, sent, now, lease, delay)
  {
    hide TimestampOk;
    if op.HeartbeatUUID? {
      HeartbeatFreshness(a, op.uuid, op.ip, sent.ts, sent.signedAt, sent.clock);
      assert (sent.clock - sent.signedAt) * SECOND <= 119 * SECOND;
    }
  }

  /**
    A registered node that Validate admits, in any run with crashes and failures: among the
    surviving operations is a Bootstrap, a heartbeat over gRPC or an admin call of it within the
    lease, or a heartbeat over HTTP that was signed for it within the lease and 119 s (and the
    time between the two clock readings of the handler).
   */
  lemma {:induction false} AdmittedMeansFresh(a: HMACAuth, m: Machine, es: seq<Micro>, lease: Duration, timeout: Duration,
                                              u: string, now: Time, sent: Op -> Request, delay: int)
    requires a.CollisionFree() && Booted(m) && m.mem == map[] && CanLive(m, es) && Configured(es, lease, timeout) && lease > 0
    requires forall op :: Call(op) in es ==> Genuine(a, op, sent(op), delay)
    requires u in Live(m, es).mem && Answer(Live(m, es).mem, u, now) == Admitted
    ensures exists op :: op in History(es).seen && Call(op) in es &&
              (|| ((op.Bootstrap? || op.Unblock?) && op.uuid == u && now - op.now <= lease)
               || (op.SetMaintenance? && op.uuid == u && !op.enabled && now - op.now <= lease)
               || (op.HeartbeatIP? && op.found == Some(u) && now - op.now <= lease)
               || (op.HeartbeatUUID? && op.uuid == u && now - sent(op).signedAt * SECOND <= lease + delay + 119 * SECOND))
  {
    hide Live, CanLive, Replay, LastRefresh, RefreshesRecord, Genuine, Configured, Apply, History;
    var seen := History(es).seen;
    CrashRefinement(m, es);
    SurvivorsAreCalls(es);
    AdmissionBoundAcrossCrashes(m, es, lease, timeout, u, now);
    StoredTimeIsLastRefresh(map[], seen, u);
    var i := LatestRefresh(seen, u);
    assert seen[i] in seen;
    RefreshIsSignOfLife(a, u, Get(Replay(map[], seen[..i]), u), seen[i], sent(seen[i]), now, lease, delay);
  }
}
