/**
  The HTTP handlers of pkg/server/http.go as guarded steps on the lease store, after the
  request is decoded (`None` is a body that does not decode).
 */
module HttpApi {
  import opened Options
  import opened Wire
  import opened Lease
  import opened Durability
  import opened StoreEffects
  import opened LeaseStores
  import opened Signatures
  import opened Freshness

  datatype HeartbeatRequest = HeartbeatRequest(nodeUUID: string, nodeIP: string, hostname: string, timestamp: int64)
  datatype IdentifyRequest = IdentifyRequest(nodeIP: string, timestamp: int64)

  class HTTPHandler {
    const store: LeaseStore
    const auth: HMACAuth
    const adminToken: string
    const lease: Duration

    constructor (store: LeaseStore, auth: HMACAuth, adminToken: string, lease: Duration)
      ensures this.store == store && this.auth == auth && this.adminToken == adminToken && this.lease == lease
    {
      this.store, this.auth, this.adminToken, this.lease := store, auth, adminToken, lease;
    }

    /** `clock` is the reading, in seconds, the timestamp is checked against; `now` the later one of the lease. */
    method HandleHeartbeat(req: Option<HeartbeatRequest>, signature: Option<bytes>, clock: int64, now: Time, fate: Fate)
      returns (code: int)
      requires store.Valid()
      modifies store`nodes, store`history, store.disk
      modifies store.metrics`activeLeases, store.metrics`expiredLeases, store.metrics`storeErrors
      ensures store.Valid()
      ensures code == 400 <==>
              req == None ||
              var r := req.value;
              !(&& r.nodeUUID != "" && r.nodeIP != "" && r.timestamp != 0
                && (|| -60 <= clock - r.timestamp <= 60
                   || -60 <= clock - r.timestamp - TWO64 <= 60 || -60 <= clock - r.timestamp + TWO64 <= 60
                   || clock - r.timestamp == TWO63 || clock - r.timestamp == -TWO63))
      ensures code != 400 ==>
                var r := req.value;
                code != 401 <==>
                || signature == Some(auth.mac(r.nodeUUID + r.nodeIP + Decimal(RoundTimestamp(r.timestamp))))
                || signature == Some(auth.mac(r.nodeUUID + r.nodeIP + Decimal(ToInt64(RoundTimestamp(r.timestamp) - 30))))
                || signature == Some(auth.mac(r.nodeUUID + r.nodeIP + Decimal(ToInt64(RoundTimestamp(r.timestamp) + 30))))
      ensures code == 400 || code == 401 ==> store.DidNothing()
      ensures code != 400 && code != 401 ==>
                && var r := req.value;
                && store.Did(Op.HeartbeatUUID(r.nodeUUID, r.nodeIP, r.hostname, now, lease), fate)
                && code == if r.nodeUUID in old(store.nodes) && old(store.nodes)[r.nodeUUID].status == Blocked then 403
                           else if store.path != "" && fate != Completes then 500 else 200
      ensures code != 400 && code != 401 ==>
                forall signedAt: int64, delay: int ::
                  && signedAt >= 0 && 0 <= clock < TWO63 - 60 && now - clock * SECOND <= delay
                  && signature == Some(auth.Sign(req.value.nodeUUID, req.value.nodeIP, signedAt)) ==>
                    Genuine(auth, Op.HeartbeatUUID(req.value.nodeUUID, req.value.nodeIP, req.value.hostname, now, lease),
                            Request(req.value.timestamp, signedAt, clock), delay)
    {
      hide Apply, Effect, Replay, PossibleRun, RoundTimestamp, ToInt64, Decimal;
      PersistErrorExactly(store.path, fate);
      if req == None {
        return 400;
      }
      var r := req.value;
      if r.nodeUUID == "" || r.nodeIP == "" || r.timestamp == 0 {
        return 400;
      }
      var inRange := ValidateTimestamp(r.timestamp, clock);
      if !inRange {
        return 400;
      }
      var signed := auth.Verify(r.nodeUUID, r.nodeIP, r.timestamp, signature);
      if !signed {
        return 401;
      }
      var _, err := store.HeartbeatByUUID(r.nodeUUID, r.nodeIP, r.hostname, now, lease, fate);
      if err.Some? {
        return if err.value == LeaseBlocked then 403 else 500;
      }
      return 200;
    }

    /** Answers with a node of the address; the holder of the address if there is one. */
    method HandleIdentify(req: Option<IdentifyRequest>, signature: Option<bytes>, clock: int64)
      returns (code: int, uuid: string, status: Status)
      ensures code == 400 <==>
              req == None ||
              var r := req.value;
              !(&& r.nodeIP != "" && r.timestamp != 0
                && (|| -60 <= clock - r.timestamp <= 60
                   || -60 <= clock - r.timestamp - TWO64 <= 60 || -60 <= clock - r.timestamp + TWO64 <= 60
                   || clock - r.timestamp == TWO63 || clock - r.timestamp == -TWO63))
      ensures code != 400 ==>
                var r := req.value;
                code != 401 <==>
                || signature == Some(auth.mac(r.nodeIP + Decimal(RoundTimestamp(r.timestamp))))
                || signature == Some(auth.mac(r.nodeIP + Decimal(ToInt64(RoundTimestamp(r.timestamp) - 30))))
                || signature == Some(auth.mac(r.nodeIP + Decimal(ToInt64(RoundTimestamp(r.timestamp) + 30))))
      ensures code != 400 && code != 401 ==>
                && (code == 200 || code == 404)
                && Identifies(store.nodes, req.value.nodeIP, if code == 200 then Some(uuid) else None)
                && (code == 200 ==> uuid in store.nodes && status == store.nodes[uuid].status)
    {
      hide RoundTimestamp, ToInt64, Decimal;
      uuid, status := "", Other("");
      if req == None {
        return 400, uuid, status;
      }
      var r := req.value;
      if r.nodeIP == "" || r.timestamp == 0 {
        return 400, uuid, status;
      }
      var inRange := ValidateTimestamp(r.timestamp, clock);
      if !inRange {
        return 400, uuid, status;
      }
      var signed := auth.VerifyIdentify(r.nodeIP, r.timestamp, signature);
      if !signed {
        return 401, uuid, status;
      }
      var record, err;
      uuid, record, err := store.LookupByIP(r.nodeIP);
      code, status := if err.Some? then 404 else 200, record.status;
    }

    predicate AuthenticateAdmin(token: string) {
      token != "" && token == adminToken
    }

    method HandleUnblockNode(token: string, uuid: string, now: Time, fate: Fate) returns (code: int)
      requires store.Valid()
      modifies store`nodes, store`history, store.disk
      modifies store.metrics`activeLeases, store.metrics`expiredLeases, store.metrics`storeErrors
      ensures store.Valid()
      ensures token == "" || token != adminToken ==> code == 401
      ensures token != "" && token == adminToken && uuid == "" ==> code == 400
      ensures token == "" || token != adminToken || uuid == "" ==> store.DidNothing()
      ensures token != "" && token == adminToken && uuid != "" ==>
                && store.Did(Op.Unblock(uuid, now, lease), fate)
                && code == if uuid !in old(store.nodes) then 404
                           else if store.path != "" && fate != Completes then 500 else 200
    {
      hide Apply, Effect, Replay, PossibleRun;
      PersistErrorExactly(store.path, fate);
      if !AuthenticateAdmin(token) {
        return 401;
      }
      if uuid == "" {
        return 400;
      }
      var _, err := store.Unblock(uuid, now, lease, fate);
      code := if err == None then 200 else if err.value == LeaseNotFound then 404 else 500;
    }

    method HandleSetMaintenance(token: string, uuid: string, enabled: Option<bool>, now: Time, fate: Fate)
      returns (code: int)
      requires store.Valid()
      modifies store`nodes, store`history, store.disk, store.metrics`storeErrors
      ensures store.Valid()
      ensures token == "" || token != adminToken ==> code == 401
      ensures token != "" && token == adminToken && (uuid == "" || enabled == None) ==> code == 400
      ensures token == "" || token != adminToken || uuid == "" || enabled == None ==> store.DidNothing()
      ensures token != "" && token == adminToken && uuid != "" && enabled.Some? ==>
                && store.Did(Op.SetMaintenance(uuid, enabled.value, now, lease), fate)
                && code == if uuid !in old(store.nodes) then 404
                           else if store.path != "" && fate != Completes then 500 else 200
    {
      hide Apply, Effect, Replay, PossibleRun;
      PersistErrorExactly(store.path, fate);
      if !AuthenticateAdmin(token) {
        return 401;
      }
      if uuid == "" {
        return 400;
      }
      if enabled == None {
        return 400;
      }
      var _, err := store.SetMaintenance(uuid, enabled.value, now, lease, fate);
      code := if err == None then 200 else if err.value == LeaseNotFound then 404 else 500;
    }
  }
}
