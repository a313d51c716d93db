# Lease protocol and wire codec of the KMS server

A Dafny model of the KMS server of this repository: the lease store with its dead-man's
switch and the Unseal admission that depends on it, the persistence of the store, the
generated Protocol Buffers codec of its two messages, the request signatures, the
Seal/Unseal envelope and the retry delays of the agent. `dafny verify dfyconfig.toml`
checks everything.

## How it is built

- `Lease.dfy`: lease records and the seven operations of the store as functions of the node
  map (`Apply`), sequences of them (`Replay`), and what one operation does to one node
  (`StepNode`). Times are integers, 0 is the zero time, and every operation carries its own
  clock reading. The source reads the clock before it takes the mutex, so a theorem that
  needs the readings to be non-decreasing in lock order says so (`Monotone`).
- `LeaseRuns.dfy`, `Lookups.dfy`, `Silence.dfy`, `Records.dfy`: theorems about every sequence of
  operations, when a lookup by address has one outcome, when silence gets a node blocked, and
  every field of a record as a function of the history.
- `UnsealProtocol.dfy`: Unseal is two store operations with the mutex free in between; every
  interleaving of Unseals, heartbeats, admin calls and checks is an event sequence here.
- `Durability.dfy`, `CrashRuns.dfy`: memory, state file and temporary file, one file-system
  step at a time, with failures and crashes at every step, and the theorems about runs there.
- `LeaseSystem.dfy`: both in one machine. A client event is a call that takes the mutex, its
  persist moves by file-system steps, and a crash forgets memory and every Unseal in progress.
- `StoreEffects.dfy`: what one call does to map, files, gauges and error counter, as a
  function, and what holds over sequences of calls.
- `LeaseStore.dfy`, `DeadMan.dfy`, `Server.dfy`, `HttpApi.dfy`: the objects of the source as
  classes. A loop over a Go map takes any remaining key. How a persist ends (`Fate`), clock
  readings, random bytes and the peer address are parameters. A store object keeps the
  history of its calls in a ghost field, `Valid` says that its map is the replay of that
  history, and `Did` that a call changed exactly what `StoreEffects` says, so the theorems
  about sequences are theorems about the objects.
- `Wire.dfy`, `WireFields.dfy`, `Readings.dfy`, `Messages.dfy`, `CodecLaws.dfy`, `Codec.dfy`:
  varints, the skipping of unknown fields and its grammar, what encoding and decoding compute, the laws
  of the codec, and the two message classes with their index-and-buffer code. Request and
  Response are one message type with two known fields and with one.
- `Signatures.dfy`, `Freshness.dfy`, `Backoff.dfy`: the signature windows and the timestamp
  check, what they mean for admission, and the delays.

## What turned out not to hold as documented

- README.md:39-40 of the repository says that a blocked node cannot obtain a key and that
  only the admin API unblocks it. There are two ways around it. An Unseal that passed Validate
  before a check blocked its node goes on to Bootstrap, which makes the node active again
  (`RaceWitness`). And a check drops the error of its own persist, so a crash may bring back
  a state file without the block (`LostBlockWitness`). These are all:
  `LeaseSystem.BlockedIsStickyExactly` says that a blocked node stays blocked through every
  future without Unblock, crashes and failures included, if and only if no Unseal of it is
  between its two halves and the state file holds the block; `ShutOutExactly` says the same of
  being let in.
- After a crash the timeout of a check may be exceeded (`LostCheckWitness`) and a punctual node
  blocked (`LostBeatWitness`), when a persist had failed before it. `CheckOutlastsCrashesExactly`
  and `CheckBlocksExactly` are the exact conditions.
- README.md:37-38 of the repository says that a node silent for longer than the timeout becomes
  blocked. A check passes over nodes that are tagged expired, and a later heartbeat makes such a
  node active again without an admin (`ExpiredEscapesWitness`). `SilenceBlocksExactly`: a silent
  node is blocked exactly if it is not in maintenance and nobody has noticed that its lease ran
  out; `ExpiredIsNoticed` says when that is.
- The stored "expired" tag and the clock can disagree: switching maintenance off renews the
  lease of an expired node but keeps the tag (`StaleTagWitness`). `ValidateIgnoresTag` says
  exactly when Validate is affected.
- Identifying an address depends on map order if no node booted on it and several gave it in
  heartbeats (`AmbiguityWitness`); `IdentifyByHistory` is the exact condition. The lookup
  behind a gRPC heartbeat does not, for any non-empty address (`LookupByHistory`).
- The timestamp check accepts one timestamp 2^63 s away, because the negated difference wraps
  (`TimestampCheckExactly`), and a request may be signed for it (`OppositeTimestampWitness`).
  `FreshnessExactly`: that timestamp is the only way past the bound.
- Signed texts have no separators, so a signature for one node and address also serves another
  pair that spells the same text (`SplitWitness`). `SignatureBindsHeartbeat`: with today's clocks
  it serves no other text, and for node names of one length no other pair.
- The delay is the capped doubling only while the product fits 64 bits or the platform
  saturates (`DelayIsCappedDoubling`); for the default base that is up to 29 failures in a row
  (`DefaultBaseFits`), the loops do not bound the failures, and the next delay may be negative
  (`NegativeDelayWitness`). Then the identify loop does not wait; the heartbeat loop still keeps to
  its ticker (`AttemptsKeepToTicks`).
- Skipping, as it is assumed here (see "Left out"), takes a group that ends with the end tag of
  another field, which the specification does not have (`MismatchedGroupWitness`).
  `SpecifiedExactly` and `SpecifiedMessageExactly` are the exact conditions: the one reading of
  the text has no such group.

## Model

| member | source | states |
|---|---|---|
| Lease.UnpersistedChangesNothing | pkg/server/lease_store.go:131-133 | an operation that returns without persisting has changed nothing in memory |
| LeaseRuns.RecordInvariant | pkg/server/lease_store.go:88-339 | in every reachable map: lease end = last heartbeat + lease duration, both set; blocked iff blocked-at is set iff a reason is set; maintenance iff its time is set; first-seen set |
| LeaseRuns.NodesAreKept | pkg/server/lease_store.go:97-102 | no run ever removes a node or changes when it was first seen |
| LeaseRuns.HeardSinceCheck | pkg/server/lease_store.go:301-339 | after any check, however much later, an active node outside maintenance was heard of since that check minus the timeout |
| LeaseRuns.AdmissionBound | pkg/server/lease_store.go:157-185 | over all runs, a registered node that Validate admits was heard of within the lease duration and, outside maintenance, within the timeout plus the time since any check |
| LeaseRuns.AddressIndexIsHistory | pkg/server/lease_store.go:104-113 | a node holds a non-empty address iff the latest Bootstrap on it was by that node and that node's latest Bootstrap was on it |
| Lookups.LookupExactly | pkg/server/lease_store.go:362-370 | for every map: a lookup has the same outcome in every iteration order iff no two nodes hold the address |
| Lookups.IdentifyExactly | pkg/server/lease_store.go:343-360 | for every map: an identification has, iff exactly one node holds the address, or none does and at most one gave it |
| Lookups.HolderIsHistory | pkg/server/lease_store.go:88-117 | who holds any address, the empty one included, from the history of Bootstraps and heartbeats |
| Lookups.ReporterIsHistory | pkg/server/lease_store.go:198-237 | which address a node last gave, from the history |
| Lookups.LookupByHistory | pkg/server/lease_store.go:362-370 | the first condition in terms of the history; it always holds for a non-empty address |
| Lookups.LookupFinds | pkg/server/lease_store.go:362-370 | what a lookup of a non-empty address finds is a function of the history |
| Lookups.IdentifyByHistory | pkg/server/lease_store.go:343-360 | the second condition in terms of the history |
| Lookups.AmbiguityWitness | pkg/server/http.go:136-140 | after two HTTP heartbeats with one address, identifying it may answer either node |
| LeaseRuns.ExpiredTagInvariant | pkg/server/lease_store.go:135-137 | with non-decreasing time an expired tag means the lease has run out, unless maintenance was switched off on the expired node |
| LeaseRuns.ValidateIgnoresTag | pkg/server/lease_store.go:168-182 | Validate answers from blocked, now and lease end alone, except exactly while a stale tag hides a running lease |
| LeaseRuns.StaleTagWitness | pkg/server/lease_store.go:286-292 | a run in which a renewed lease is refused because of its tag |
| LeaseRuns.NoFalseBlocking | pkg/server/lease_store.go:198-237 | a node whose heartbeats are never further apart than lease and timeout stays active, would be admitted at every step and is in no check's list, whatever else interleaves |
| LeaseRuns.CounterCountsBlockings | pkg/server/deadman.go:74-80 | over every run the timeout counter is the number of times any node became blocked by any step |
| UnsealProtocol.ProtocolRefinesStore | pkg/server/server.go:193-269 | every interleaving of two-step Unseals with other calls is a run of store operations |
| UnsealProtocol.UnsealAdmissionBound | pkg/server/server.go:305-344 | any Unseal let in during any interleaving is for an unregistered node or one heard of within both deadlines |
| UnsealProtocol.RaceWitness | pkg/server/server.go:198-258 | a run from the empty store in which a Bootstrap undoes a check |
| Durability.CrashRefinement | pkg/server/lease_store.go:372-438 | at every file-system step of every run the state file reloads to memory as of the latest completed rename, memory is the replay of the surviving operations and the file the replay of a prefix of them |
| Durability.RestartNeverFails | pkg/server/lease_store.go:372-403 | a crash at any step leaves a state file that loads |
| Durability.SyncedRestartIsInvisible | pkg/server/lease_store.go:405-438 | whenever the latest persist succeeded a restart leaves the whole state as it was |
| Durability.TornWriteIsHarmless | pkg/server/lease_store.go:426-430 | a crash in the middle of a write, whatever it leaves, restarts from what the state file had |
| CrashRuns.AdmissionBoundAcrossCrashes | pkg/server/lease_store.go:157-185 | the admission bound with failed persists and crashes at every step: by the lease always, by the timeout for every check after which the state file caught up before the next crash |
| CrashRuns.CheckOutlastsCrashesExactly | pkg/server/lease_store.go:309-336 | what a check established about a node holds in every future iff the state file agrees with it |
| CrashRuns.LostCheckWitness | pkg/server/lease_store.go:333-336 | a run in which a check and the heartbeat it relied on are forgotten, and the bound by the timeout is exceeded |
| CrashRuns.RecordInvariantAcrossCrashes | pkg/server/lease_store.go:88-339 | the record invariant in every state of every run with crashes |
| CrashRuns.NoFalseBlockingAcrossCrashes | pkg/server/lease_store.go:198-237 | a node whose surviving heartbeats are never further apart than lease and timeout stays active and admitted through crashes and failures, and no check blocks it |
| CrashRuns.LostBeatWitness | pkg/server/lease_store.go:333-336 | a run in which a node that beat ten seconds ago is blocked, because that heartbeat was lost |
| Silence.StoredTimeIsLastRefresh | pkg/server/lease_store.go:88-297 | over all runs, the stored heartbeat time is the reading of the latest operation that refreshed the node, and the maintenance flag its history of bootings and admin calls |
| Silence.CheckBlocksExactly | pkg/server/lease_store.go:309-331 | for every run with crashes and failures, a check blocks a node iff it is active, not in maintenance, and its latest surviving refresh of any kind is further back than the timeout |
| Silence.ExpiredIsNoticed | pkg/server/lease_store.go:135-137 | a node is tagged expired iff Validate or a gRPC heartbeat came upon it after its lease had run out and no Bootstrap, Unblock or heartbeat by UUID came since |
| Silence.SilenceBlocksExactly | pkg/server/lease_store.go:309-331 | over all runs, a check leaves a node silent beyond the timeout blocked iff it was blocked, or is neither in maintenance nor noticed to be expired |
| Silence.ExpiredEscapesWitness | pkg/server/lease_store.go:310-312 | a run in which a node silent for far longer than the timeout is passed over by a check and is admitted again after a heartbeat |
| Freshness.AdmittedMeansFresh | pkg/server/http.go:172-185 | in any run with crashes, an admitted registered node was booted, beat over gRPC or was touched by an admin within the lease, or a heartbeat that the handler let through was signed for it within the lease and 119 s and the handler's own delay |
| Records.FieldsAreHistory | pkg/server/lease_store.go:88-297 | over all runs: first-seen is the reading of the operation that registered the node, last-unseal that of its latest Bootstrap, the host name the last non-empty one of a heartbeat not refused, the maintenance time that of the call that began it |
| Records.BlockIsHistory | pkg/server/lease_store.go:301-339 | over all runs: blocked, since when and why are what the checks say that found the node silent, active and outside maintenance, if no Unblock or Bootstrap came since |
| Records.RecordIsHistory | pkg/server/lease_store.go:88-339 | over all runs, all twelve fields of every record are functions of the history |
| Durability.BlockSurvivesCrashesExactly | pkg/server/lease_store.go:333-336 | a block survives all crashes and failures iff the state file holds it |
| LeaseSystem.SystemRefinesProcess | pkg/server/lease_store.go:88-438 | every run of clients, file-system steps, failures and crashes together is a run of the process of Durability, so crash refinement holds in all of them |
| LeaseSystem.ReachableIsSound | pkg/server/lease_store.go:372-438 | wherever a run has led, the state file loads and a complete temporary file is memory: the hypothesis of the next two rows |
| LeaseSystem.BlockedIsStickyExactly | pkg/server/server.go:198-258 | a blocked node keeps status, time and reason in every future without Unblock, crashes and failed persists included, iff no Unseal of it is past Validate and the state file holds the block; the same for futures with non-decreasing readings from any time on |
| LeaseSystem.ShutOutExactly | pkg/server/server.go:305-344 | no future without Unblock lets an Unseal of a blocked node in iff none is past Validate and it is blocked on disk; the same for futures with non-decreasing readings from any time on |
| LeaseSystem.SilenceShutsOut | pkg/server/deadman.go:74-92 | once a check finds a node silent and no Unseal of it is pending, no later Unseal of it is let in until an admin unblocks it, if some persist completes before the first crash |
| LeaseSystem.OnlyUnblockLeavesBlocked | pkg/server/server.go:198-258 | over every run, restarts included: if no check blocks the node between the halves of its Unseal and no crash comes before the block is saved, only Unblock ever leaves Blocked |
| LeaseSystem.LostBlockWitness | pkg/server/lease_store.go:333-336 | a run from the empty store in which a check's persist fails, a crash follows, and a node silent for twice the timeout is let in |
| LeaseSystem.ProtocolIsSystem | pkg/server/server.go:193-269 | every interleaving of UnsealProtocol, the race among them, is a run of the system with the same clients and the same outcome |
| LeaseSystem.UnsealAdmissionAcrossCrashes | pkg/server/server.go:305-344 | any Unseal let in during any run of the system is for an unregistered node or one heard of within the lease and within the timeout of every check no crash has made forgotten |
| StoreEffects.GaugesAreConserved | pkg/server/lease_store.go:440-457 | over every sequence of calls, however their persists end, active gauge + expired gauge = number of nodes |
| StoreEffects.EffectExactly | pkg/server/lease_store.go:405-457 | files, gauges and error counter after every call: how each ending leaves both files, the expired gauge as the number of blocked, tagged and run-out nodes, one error of its stage per failure, nothing if the call does not persist |
| StoreEffects.PersistsExactly | pkg/server/lease_store.go:88-339 | which calls persist, operation by operation, and that any call that changes the map does |
| StoreEffects.QuietCounterMeansDurable | pkg/server/lease_store.go:405-438 | the error counter never shrinks, and while it has not moved the state file is memory, so a restart would change nothing |
| StoreEffects.EffectsAreARun | pkg/server/lease_store.go:405-438 | every sequence of calls with a state file is a run of file-system steps with the same map and files |
| LeaseStores.LeaseStore.Open | pkg/server/lease_store.go:67-85 | the node map for each kind of state file, and an error exactly on an unreadable or undecodable one |
| LeaseStores.LeaseStore.UpdateLeaseMetrics | pkg/server/lease_store.go:440-457 | the counting loop sets the expired gauge to the number of blocked or expired nodes and the two gauges to the number of nodes together |
| LeaseStores.LeaseStore.Persist | pkg/server/lease_store.go:405-438 | both files, the returned error and the error counter for every way a persist can end |
| LeaseStores.LeaseStore.Bootstrap | pkg/server/lease_store.go:88-117 | for every iteration order the new map, files, gauges and error counter, the record and the error |
| LeaseStores.LeaseStore.DisplaceOthers | pkg/server/lease_store.go:104-111 | the loop over the map it changes takes the address from every other node and touches nothing else |
| LeaseStores.LeaseStore.RecordByIP | pkg/server/lease_store.go:362-370 | returns some holder, and fails only if there is none |
| LeaseStores.LeaseStore.HeartbeatByIP | pkg/server/lease_store.go:120-154 | the found node is a holder; map, files, gauges, error counter and result for unknown, blocked, expired and active nodes |
| LeaseStores.LeaseStore.Validate | pkg/server/lease_store.go:157-185 | map, files, gauges, error counter and result for each of the four answers and for a failed persist |
| LeaseStores.LeaseStore.HeartbeatByUUID | pkg/server/lease_store.go:198-237 | map, files, gauges, error counter, record and error for new, blocked and other nodes |
| LeaseStores.LeaseStore.Unblock | pkg/server/lease_store.go:251-270 | map, files, gauges, error counter, record and error, with and without the node |
| LeaseStores.LeaseStore.SetMaintenance | pkg/server/lease_store.go:274-297 | map, files, error counter, record and error; the gauges are untouched |
| LeaseStores.LeaseStore.BlockExpiredNodes | pkg/server/lease_store.go:301-339 | for every iteration order a list without duplicates of exactly the overdue nodes; map, files, gauges and error counter, all untouched if there are none; a persist error is dropped |
| LeaseStores.LeaseStore.LookupByIP | pkg/server/lease_store.go:343-360 | a holder if there is one, else a node that gave the address, else the error |
| DeadMan.DeadManSwitch.Check | pkg/server/deadman.go:74-92 | the list is the nodes that became blocked, the counter grows by their number, and map, files, gauges and error counter change as a check does |
| DeadMan.DeadManSwitch.Run | pkg/server/deadman.go:52-71 | checks among any calls of all other parties: map, files, gauges and error counter are those of the sequence, and the timeout counter has grown by the number of blockings |
| Servers.Server.ValidateLease | pkg/server/server.go:305-344 | the refusal, spelled out for absent, blocked, expired and running leases; map, files, gauges and error counter; nothing done when leases are off |
| Servers.Server.Unseal | pkg/server/server.go:180-277 | a blocked or expired node is given nothing and is told so, and a success gives what the node's key opened, with a Bootstrap of that node from the peer on record, or 32 random bytes without one; effect on map, files, gauges and error counter |
| Servers.LeaseDecides | pkg/server/server.go:193-201 | no blocked, tagged or run-out node is answered with success, each gets its own error, and so do cancelled and unnamed calls |
| Servers.DataDecides | pkg/server/server.go:203-277 | for a node that is not refused, the answer follows from the key in use and the data alone: what opens, 32 random bytes if it does not, or the error of the first step that fails |
| Servers.OperationsDecided | pkg/server/server.go:193-269 | Bootstrap is performed exactly for data that opened under the key in use, of a node not refused, from a known peer |
| Servers.Server.Heartbeat | pkg/server/server.go:123-177 | the answer, spelled out for unknown, blocked, expired and running leases and for a failed persist, and the effect on map, files, gauges and error counter |
| Servers.UnsealIsBeginThenCommit | pkg/server/server.go:193-269 | an uninterrupted Unseal is the two protocol events and has their effect |
| Servers.SealThenUnseal | pkg/server/server.go:101-119 | Unseal gives back every sealed passphrase under the same key, for any nonce, and random bytes under any other key that the cipher tells apart, when lease, peer and persist allow |
| Servers.SealExactly | pkg/server/server.go:71-120 | the answer is the nonce, the first 12 random bytes, followed by the passphrase sealed under the node's own key, or under the first 32 random bytes if it has none, or the error of the first check that fails |
| HttpApi.HTTPHandler.HandleHeartbeat | pkg/server/http.go:158-221 | past 400 and 401 only with all fields, a timestamp near the clock or opposite it, and the MAC of node, address and one of three windows; then the code and the effect on the store, none otherwise; what passes and was signed is genuine for the admission theorem |
| HttpApi.HTTPHandler.HandleIdentify | pkg/server/http.go:109-156 | past 400 and 401 only with all fields, a timestamp near the clock or opposite it, and the MAC of the address and one of three windows; then the node the lookup identifies, with its lease status |
| HttpApi.HTTPHandler.HandleUnblockNode | pkg/server/http.go:270-310 | status for every guard; the effect of Unblock on map, files, gauges and error counter only with the admin token, none otherwise |
| HttpApi.HTTPHandler.HandleSetMaintenance | pkg/server/http.go:312-363 | status for every guard; the effect on map, files and error counter only with the admin token, none otherwise |
| Signatures.HMACAuth.VerifySubject | pkg/server/hmac.go:37-58 | the loop accepts iff one of the three windows has the signature |
| Signatures.HMACAuth.VerifyIdentify | pkg/server/hmac.go:78-98 | the same over the address alone |
| Signatures.AcceptsByWindow | pkg/server/hmac.go:26-63 | with a collision-free MAC a signature is accepted exactly in the windows around its own, over all 64-bit times |
| Signatures.DecimalSaysTheNumber | pkg/server/hmac.go:28 | the signed decimal text, read back, is the number: digits only, a sign if negative, no leading zero |
| Signatures.SignatureFreshness | pkg/server/hmac.go:26-63 | for non-negative times: exactly the same and adjacent windows, so always within 30 s and never beyond 59 s |
| Signatures.ValidateTimestamp | pkg/server/hmac.go:102-109 | over all 64-bit values: within 60 s on the 64-bit circle, or exactly opposite |
| Signatures.TimestampCheckExactly | pkg/server/hmac.go:102-109 | for a clock short of overflow: within 60 s, or the one timestamp 2^63 away |
| Signatures.FreshnessExactly | pkg/server/http.go:172-183 | over all 64-bit timestamps and signing times: what passes both checks was signed within 148 s of the server's clock iff its timestamp is not the opposite one; within 119 s if signed at a non-negative time |
| Signatures.OppositeTimestampWitness | pkg/server/hmac.go:102-109 | for every clock the opposite timestamp passes both checks, signed 2^63 s away |
| Signatures.WideWindowWitness | pkg/server/hmac.go:60-63 | 148 s is reached around the zero time, where rounding toward zero doubles a window |
| Signatures.HeartbeatFreshness | pkg/server/http.go:172-183 | a heartbeat accepted with any timestamp and signed at a non-negative time was signed within 119 s of the server's clock |
| Signatures.IdentifyFreshness | pkg/server/http.go:123-134 | so was an accepted identify request |
| Signatures.HonestAgentIsAccepted | cmd/kms-agent/main.go:223-244 | an agent that signs its own timestamp within a minute of the server's clock is never refused |
| Signatures.SignatureBindsRequest | pkg/server/hmac.go:26-58 | with node and address of the signed lengths: the signed node and address, in the signed or an adjacent window |
| Signatures.SignatureBindsSubject | pkg/server/hmac.go:26-58 | while timestamps keep their number of digits, a signature is good for exactly the signed text of node and address, in the signed or an adjacent window |
| Signatures.SignatureBindsHeartbeat | pkg/server/http.go:172-183 | both checks of a heartbeat for clocks from 2001 to 2286: unless its timestamp is the opposite one, it passes iff it is within a minute, in the signed or an adjacent window, and spells the signed node and address; one node and one address for node names of one length |
| Signatures.SplitWitness | pkg/server/hmac.go:26-35 | at every time a signature for one node and address passes for another node and address that spell the same text |
| Signatures.ShiftedDigitWitness | pkg/server/hmac.go:26-35 | the number of digits is needed: for a clock within a minute of the zero time a digit can move into the address |
| Wire.VarintRoundTrip | api/kms/kms_vtproto.pb.go:232-245 | reading undoes writing for every 64-bit value, whatever follows |
| Wire.VarintIsShortest | api/kms/kms_vtproto.pb.go:260-273 | no accepted varint is shorter than the one written for its value |
| Wire.ValueByPosition | api/kms/kms_vtproto.pb.go:232-245 | every byte of a varint weighs 128 times as much as the one before |
| Wire.VarintOf150 | api/kms/kms_vtproto.pb.go:232-245 | the specification's example: 150 is 96 01 |
| Wire.UnreadableExactly | api/kms/kms_vtproto.pb.go:232-245 | overflow exactly if ten bytes say that more follow, end of input exactly if all of fewer bytes do |
| Wire.SizeOfVarintIsExact | api/kms/kms_vtproto.pb.go:200-203 | the bit-length formula is the number of bytes written |
| Wire.OrDisjoint | api/kms/kms_vtproto.pb.go:232-245 | bitwise or of a number and a multiple of a larger power of two is their sum |
| WireFields.SkipIsExact | api/kms/kms_vtproto.pb.go:321-334 | the depth-counting scan stops at n iff the first n bytes are a well-formed field of the model's grammar, groups included |
| WireFields.SkippedIsField | api/kms/kms_vtproto.pb.go:321-334 | whatever is skipped is the text of such a field, which is produced |
| WireFields.OpenGroupFails | api/kms/kms_vtproto.pb.go:321-334 | a group that is not closed runs into the end of the input, whatever fields it holds |
| WireFields.MismatchedGroupWitness | api/kms/kms_vtproto.pb.go:321-334 | two bytes the scan takes for a field although no field of the specification has that text |
| Readings.NestedGroupWitness | api/kms/kms_vtproto.pb.go:321-334 | the same inside another group, next to a text whose nested groups match |
| Readings.OneReading | api/kms/kms_vtproto.pb.go:226-342 | the grammar is unambiguous: a text has at most one reading as a sequence of fields |
| Readings.SkippedIsSpecifiedExactly | api/kms/kms_vtproto.pb.go:321-334 | what is skipped has one reading, which is produced, and is a field of the specification iff every group of it ends with its own number |
| Readings.SpecifiedExactly | api/kms/kms_vtproto.pb.go:321-334 | for every input: its first n bytes are a field of the specification iff the scan stops at n and no reading of them has a mismatched group |
| Messages.DecodeConcat | api/kms/kms_vtproto.pb.go:226-342 | decoding a ++ b is decoding b on top of the result of a, errors of b included |
| Messages.DecodeMoves | api/kms/kms_vtproto.pb.go:278-284 | 64-bit wrap-around of indices never changes what is accepted |
| Messages.MergeLaw | api/kms/kms_vtproto.pb.go:226-342 | two accepted messages concatenated decode to the second merged onto the first |
| CodecLaws.AcceptedExactly | api/kms/kms_vtproto.pb.go:226-342 | an input is accepted iff it is the text of well-formed fields with positive numbers, those of known numbers length-delimited |
| CodecLaws.SpecifiedMessageExactly | api/kms/kms_vtproto.pb.go:226-342 | for every input: it is a message of the specification iff it is accepted and the groups of its one reading, which is produced, end with their own numbers |
| CodecLaws.DecodeTexts | api/kms/kms_vtproto.pb.go:226-342 | the text of such fields decodes to what the fields mean, at every index of the buffer |
| CodecLaws.EveryByteIsAccountedFor | api/kms/kms_vtproto.pb.go:229-341 | on every input: what is read is a prefix that is the text of acceptable fields, the message is what these mean, the input is accepted iff the prefix is all of it, behind an error no acceptable field begins, and the prefix has no other reading |
| CodecLaws.LastOneWins | api/kms/kms_vtproto.pb.go:285-320 | a known field ends with the last of its values among the fields read, or keeps the one it had |
| CodecLaws.LastValueExactly | api/kms/kms_vtproto.pb.go:285-320 | the last value is that of the field with the number behind which no other has it |
| CodecLaws.UnknownsAreAppended | api/kms/kms_vtproto.pb.go:321-334 | the unknown fields among those read are kept byte for byte, in order |
| CodecLaws.DecodedUnknownIsForeign | api/kms/kms_vtproto.pb.go:333-334 | the stored unknown bytes are always well-formed fields with foreign numbers, even after an error |
| CodecLaws.RoundTrip | api/kms/kms_vtproto.pb.go:107-152 | decoding the encoding gives the message back iff its unknown bytes are well-formed fields with numbers it does not know |
| CodecLaws.ReencodingIsStable | api/kms/kms_vtproto.pb.go:226-342 | whatever was decoded encodes to no more bytes and decodes to the same message again |
| Codec.CopyTo | api/kms/kms_vtproto.pb.go:134-135 | copies into place and touches nothing else |
| Codec.EncodeVarint | api/kms/kms_vtproto.pb.go:140-142 | the forward-writing loop fills exactly the bytes in front of the offset |
| Codec.PutField | api/kms/kms_vtproto.pb.go:137-143 | one backward step puts tag, length and value in front of what was written, which stays |
| Codec.OrIsPlus | api/kms/kms_vtproto.pb.go:232-245 | seven more bits never overlap those read, so bitwise or is addition, and only the tenth byte is cut |
| Codec.ReadUvarint | api/kms/kms_vtproto.pb.go:232-245 | the shift-and-or loop in 64 bits reads the value of the bytes, or the right error |
| Codec.ReadField | api/kms/kms_vtproto.pb.go:259-286 | length checks with wrap-around; the value lies inside the buffer |
| Codec.SkipUnknown | api/kms/kms_vtproto.pb.go:321-334 | index checks with wrap-around; the skipped field lies inside the buffer |
| Codec.ReadStep | api/kms/kms_vtproto.pb.go:229-336 | one iteration of the loop: field, unknown field or the right error |
| Codec.Request.SizeVT | api/kms/kms_vtproto.pb.go:194-210 | exactly the length of the encoding |
| Codec.Request.MarshalToSizedBufferVT | api/kms/kms_vtproto.pb.go:125-152 | backward filling leaves, at the end of the buffer, 0a, length and node name, 12, length and data, each if not empty, and the unknown bytes; the front is untouched |
| Codec.Request.MarshalVT | api/kms/kms_vtproto.pb.go:107-118 | those bytes fill a buffer of the computed size |
| Codec.Request.UnmarshalVT | api/kms/kms_vtproto.pb.go:226-342 | terminates on every input with the error and, partial results included, the last value of field 1 as node name, of field 2 as data, and the unknown fields appended; the fields read are produced |
| Codec.Request.EqualVT | api/kms/kms_vtproto.pb.go:66-79 | equality of fields and unknown bytes |
| Codec.Response.SizeVT | api/kms/kms_vtproto.pb.go:212-224 | exactly the length of the encoding |
| Codec.Response.MarshalToSizedBufferVT | api/kms/kms_vtproto.pb.go:172-192 | as for Request, with 0a for the data |
| Codec.Response.MarshalVT | api/kms/kms_vtproto.pb.go:154-165 | as for Request |
| Codec.Response.UnmarshalVT | api/kms/kms_vtproto.pb.go:343-427 | as for Request, with field 1 as data |
| Codec.Response.EqualVT | api/kms/kms_vtproto.pb.go:88-98 | as for Request |
| Backoff.BackoffDuration | cmd/kms-agent/main.go:342-356 | the product form computes the recursively doubled, capped delay |
| Backoff.DelayIsCappedDoubling | cmd/kms-agent/main.go:342-356 | the delay is min(base * 2^(n-1), 5 min) iff the product is below 2^63 ns or the conversion saturates above the cap |
| Backoff.DelayIsMonotone | cmd/kms-agent/main.go:342-356 | in that range delays never shrink and stay between base and cap |
| Backoff.DefaultBaseFits | cmd/kms-agent/main.go:274-275 | for 30 s the range is exactly up to 29 failures |
| Backoff.NegativeDelayWitness | cmd/kms-agent/main.go:342-356 | thirty failures at 30 s give a negative delay, hence no wait for it, where the conversion yields the smallest integer |
| Backoff.HeartbeatLoop | cmd/kms-agent/main.go:157-214 | every delay is that of the failures in a row, and every attempt after the first is sent when the ticker allows after that delay |
| Backoff.DelayAfterFailures | cmd/kms-agent/main.go:197-198 | no delay behind a success, and that of n failures behind the n-th failure in a row |
| Backoff.SentExactly | cmd/kms-agent/main.go:171-212 | each attempt is sent at the earliest moment after the one before and its delay by which the ticker has fired again |
| Backoff.AttemptsKeepToTicks | cmd/kms-agent/main.go:171-180 | whatever the delays, each attempt takes a tick of its own, so heartbeats are never more frequent than the interval |
| Backoff.IdentifyLoop | cmd/kms-agent/main.go:265-289 | it stops at the first success, and its delays are those of 1, 2, 3, ... failures |
| UnsealProtocol.BeginExactly | pkg/server/server.go:305-344 | step: whom the first half of Unseal lets in |
| StoreEffects.PersistErrorExactly | pkg/server/lease_store.go:405-438 | step: the error of each way a persist can end |
| WireFields.SkipByType | api/kms/kms_vtproto.pb.go:321-334 | step: what each wire type takes, on the bytes |
| Messages.FieldNumExactly | api/kms/kms_vtproto.pb.go:246 | step: the field number is the tag's, cut to a signed 32-bit integer |
| Messages.TagErrors | api/kms/kms_vtproto.pb.go:248-253 | step: the errors of a tag in the order in which they are found |
| Messages.LengthErrors | api/kms/kms_vtproto.pb.go:273-284 | step: the errors of a length: negative as a 64-bit integer, wrapped, or beyond the buffer |
| Backoff.TicksExactly | cmd/kms-agent/main.go:168 | step: the ticks are the multiples of the interval |
| Lease.ApplyIsLocal | pkg/server/lease_store.go:88-339 | step: an operation acts on each node from that node's record alone; nodes meet only when a Bootstrap takes an address away |
| LeaseRuns.OverdueIsSilence | pkg/server/lease_store.go:309-324 | step: saturation of the time difference never changes what a check finds, for a timeout below the largest duration |
| Servers.UnsealResponseSize | pkg/server/server.go:228-250 | step: every successful response has 32 bytes, decrypted or drawn at random |
| LeaseRuns.AliveStep | pkg/server/lease_store.go:224-232 | step: any operation keeps a node active that was heard of within lease and timeout |
| LeaseRuns.CheckIsIdempotent | pkg/server/lease_store.go:309-331 | step: a check repeated at the same time finds and changes nothing |
| LeaseRuns.OnlyChecksBlock | pkg/server/lease_store.go:326-330 | step: the nodes that become blocked in a step are the overdue ones of a check and none otherwise |
| UnsealProtocol.BlockedLeftOnlyBy | pkg/server/lease_store.go:251-270 | step: only Unblock and Bootstrap of the node itself leave Blocked; everything else keeps status, time and reason |
| Durability.PersistIsAPath | pkg/server/lease_store.go:405-438 | step: one persist call is a path of those steps, and only a completed one changes what reloads |

## Left out

- The helper package of the generated codec (EncodeVarint, SizeOfVarint, Skip; module github.com/planetscale/vtprotobuf of go.mod:6) is not part of this repository. EncodeVarint and SizeOfVarint follow the Protocol Buffers Encoding specification, section "Base 128 Varints". Skip is assumed to be a flat scan over tags that counts the depth of open groups and does not compare their numbers: the generated code hands it the bytes alone and uses only the length it returns, and counting depth is the least that finds it. The specification, section "Message Structure", wants the numbers of a group's two tags to be equal, so every row about skipped groups rests on this assumption; the rows of module Readings say where the difference shows.
- JSON text, time formatting and file-system calls: a written state file is taken to hold the map exactly (strings that are not valid UTF-8 would not survive the real encoding), and a rename to be atomic.
- Servers.SealThenUnseal: that a sealed text does not open under another key is a hypothesis about the two keys at hand; as a law of all keys it would contradict the fixed length of the tag.
- AES-GCM, HMAC-SHA-256 and hexadecimal text: an abstract cipher with its laws, an abstract keyed function, and decoded bytes.
- Nil receivers, the difference between nil and empty byte slices (EqualVT ignores it), the reuse of the old `Data` array by UnmarshalVT, CloneVT and MarshalToVT.
- Codec.Request.UnmarshalVT: requires a buffer of at most 2^63 - 1 bytes, which every Go slice is.
- Backoff.BackoffDuration: multiplies in integers; the floating-point product of the source is the same for a base below 2^53 ns, and the result of an out-of-range conversion is a parameter.
- LeaseRuns.AdmissionBound: the bound by the timeout needs a timeout below the largest duration; with the largest one the saturating difference never exceeds it and nothing is ever blocked.
- Servers.Server.Unseal: one uninterrupted call; interference between its two store operations is in UnsealProtocol and LeaseSystem. The one-second sleeps and the key check value in the log are not modelled.
- Logging, Prometheus registration and request labels, peer address parsing, TLS, HTTP routing and response bodies, the plain reads Get and ListAll, and the command-line tools.
