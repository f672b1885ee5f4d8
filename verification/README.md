# LightAPR verification

A Dafny model of LightAPR, the in-memory service registry with an MQTT/WebSocket control plane, an
HTTP query plane and client SDKs that keep a replica of the registry.  `dafny verify dfyconfig.toml`
checks everything.

Each component has a class or a set of methods that work as the C++ (or JavaScript) code does, with
its loops and its fields, proved against specification functions; the results are lemmas about those
functions, over every input and every run.

| files | component |
|---|---|
| RegistryState, RegistryQueries, Registry, MapSum, Decimals | the registry: state, queries, and the class that updates it in place |
| RegistryRuns, NodeIds, GraceTiming, RoundRobin | what holds over whole runs of it: accounting, ids, expiry, fairness |
| SessionIds, SessionNodes | the MQTT sessions over one registry: the node ids they use, and what their frames leave stored |
| Replica, Convergence, Divergence, ExtraData | the SDKs' replica, its convergence to the registry, and exactly when it fails |
| ConnectionGuard, SessionLifecycle | connection limits, and the conservation of connection slots |
| StreamAccumulator, WebSocketCodec, WebSocketLoop, MqttSession, MqttStreams, MqttEffects | from received bytes to frames to handled packets, what whole streams can do, and the session as a function of its frames |
| HttpParsing, HttpSession, HttpRequests | request boundaries and pipelining, and both for requests laid out by RFC 9112 |
| MqttPacket, WireFormats, MqttTopic, Broadcast, Base64, Bytes | packets, their layouts in MQTT 3.1.1, topic filters, fan-out, Base64 |
| SdkHandshake, SdkReader | the C++ client's packets, and how it reads the server's |

Modelling choices.  Bytes are integers below 256 (bit vectors in Base64).  Where a `size_t` or
`uint64_t` can wrap around at 2^64 the arithmetic says so.  Exceptions and error returns are `Option`
or result datatypes.  Time is an argument of each operation.  A mutex-protected region is one step.
An `unordered_map` is iterated in an order that is an argument, any order that lists every key once.
A JSON value is the text it dumps to.

Where the code does not do what its documentation or its standard promises, the code is modelled as it
is, and the results say exactly when the promise holds:

- The receive loop goes on after a DISCONNECT that came in the same read (`handle_disconnect` does not
  set `closing_`): with reads of at most r bytes the outcome is independent of how the stream was cut
  exactly when no complete frame lies in the r - 1 bytes behind a DISCONNECT
  (`WebSocketLoop.CutsAgreeExactly`; r is 4096, `sizeof(rx_buffer_)`).
- `decode_remaining_length` refuses the four-byte lengths that section 2.2.3 of MQTT 3.1.1 allows, so a
  PUBLISH round trip needs a body below 2^21 bytes (`MqttPacket.PublishRoundTrip`).
- `X/#` misses the parent level `X` when X ends in a literal level; apart from that the topic matcher is
  the level-wise relation of section 4.7 (`MqttTopic.MatchesIsLevelwise`).
- The registry gauge drifts by every change of role length on re-registration
  (`RegistryRuns.GaugeExactIff`).
- A page number so large that its start wraps around shows an earlier page again
  (`RegistryQueries.PageIsRight`).
- Two filters whose `role + ":" + worker` coincide share a round-robin index: a filter is fair over
  every run exactly when it has at most one candidate or no other filter in use shares its key and has
  candidates (`RoundRobin.FairIff`).
- A registration with an empty id adds a node exactly when no earlier registration supplied the id that
  is generated for it, with that node still stored (`NodeIds.AddsNodeIff`); over MQTT it always does
  (`SessionIds.FirstRegistrationAddsNode`).
- A sweep collects and removes under separate locks: it leaves the right nodes exactly when no collected
  node that is still stored was registered, restored, marked or given extra data in between
  (`GraceTiming.SplitSweepExact`).
- Observers are called after the registry's lock is released, so events can overtake each other: with the
  same events in any order, the replica converges exactly when the last OK or ERASED event of each node,
  and whether a GRACE event came after it, are the same (`Divergence.BootOrderIff`).
- The SDKs do not wait for the subscription before they load the snapshot: with events lost in between, a
  node is in step exactly if it has had an OK or ERASED event since, or the snapshot still agrees with the
  registry up to a status that a GRACE event has set (`Divergence.MissedEvents`).
- The snapshot is one page of 1000: beyond that, a node is in step exactly if it is on the page, has had
  an OK or ERASED event, or no longer exists (`Divergence.LargeRegistryIff`).
- The SDKs apply only the status of a GRACE event: the replica has a node's extra data exactly if what was
  written to it in GRACE since its last OK event comes to what it held then (`ExtraData.ExtraIff`).
- The C++ SDK casts remaining lengths to one byte (`SdkHandshake.ConnectRecovered`,
  `SdkHandshake.SubscribeRecovered`), and reads one byte of them: it gets a message exactly if topic and
  payload take less than 126 bytes together, and nothing of a longer one (`SdkReader.SdkReadsIff`).

## Model

| member | source | states |
|---|---|---|
| Registry.Registry.TrySetExtra | src/core/registry.cpp:46-64 | a value is stored exactly if the worker is listed and the dump is within the cap; the gauge moves by the change of the node's total size |
| Registry.Registry.PruneStaleExtra | src/core/registry.cpp:66-77 | exactly the extra data of unlisted workers goes, and the gauge with it |
| Registry.Registry.AnnounceExtras | src/core/registry.cpp:133-137 | the loop over the announced extras, in any key order, stores exactly the acceptable ones |
| Registry.Registry.RegisterOrUpdateNode | src/core/registry.cpp:87-152 | the whole new state, the returned node and the one event, as `Apply` says |
| Registry.Registry.MarkNodeGrace | src/core/registry.cpp:154-174 | the whole new state and the event; nothing for an unknown id |
| Registry.Registry.RestoreNodeActive | src/core/registry.cpp:176-196 | the whole new state and the event; nothing for an unknown id |
| Registry.Registry.UpdateNodeExtra | src/core/registry.cpp:198-218 | the whole new state and the event; nothing changes if the worker or the size is refused |
| Registry.Registry.RemoveNodePermanently | src/core/registry.cpp:220-244 | the node goes with its bytes in both gauges, and observers get it as ERASED |
| Registry.Registry.GetNode | src/core/registry.cpp:246-260 | the stored node, in GRACE with the time that remains |
| Registry.Registry.GetStats | src/core/registry.cpp:262-280 | the counts are the cardinalities they should be: nodes, nodes by status, by role, and listings by worker |
| Registry.Registry.QueryRegistry | src/core/registry.cpp:282-329 | the number of all matches and one page of them, size_t wrap-around included |
| Registry.Registry.ResolveNode | src/core/registry.cpp:331-362 | the candidate whose turn it is; only the index of this filter's key moves |
| Registry.Registry.SweepExpiredNodes | src/core/registry.cpp:364-382 | the state and the events after removing the collected ids one by one |
| RegistryRuns.RegistrationStores | src/core/registry.cpp:101-137 | worker by worker what a registration leaves stored, the peer address filled in, added_at kept |
| RegistryRuns.GraceAndBack | src/core/registry.cpp:154-196 | GRACE has 180 seconds from its beginning; marked and restored, an OK node differs from before in active_at only, and no gauge moves |
| RegistryRuns.ExtraStored | src/core/registry.cpp:198-218 | extra data is stored exactly if the worker is listed and the dump within the cap, nothing else but active_at changes |
| RegistryRuns.NodesWeigh | src/core/registry.cpp:131 | the registry gauge counts struct, role and id of a new node, gives back those of a removed one, and no other operation moves it |
| RegistryRuns.WritesWeigh | src/core/registry.cpp:60-62 | the extra gauge moves by the dump of the new value less that of the old |
| RegistryRuns.OthersUnchanged | src/core/registry.cpp:87-244 | no operation changes a node other than its target |
| RegistryRuns.SweepIsRemovals | src/core/registry.cpp:379-381 | a sweep is a run of removals, so every run result covers it |
| RegistryRuns.RunKeeps | src/core/registry.cpp:46-77 | in every reachable state: no ERASED node, key equals id, expires_in set exactly in GRACE, extra data only for listed workers and within the cap, extra gauge equal to the sum over all nodes and workers |
| RegistryRuns.EventIsPostState | src/core/registry.cpp:139-149 | every event holds the node as stored afterwards, ERASED exactly when it is gone |
| RegistryRuns.GaugeDrifts | src/core/registry.cpp:106-131 | the registry gauge is off by exactly the summed shrinkage of re-registered roles |
| RegistryRuns.GaugeExactIff | src/core/registry.cpp:106-131 | the registry gauge is the sum over live nodes throughout a run if and only if its re-registrations keep the role's length |
| RegistryRuns.EmptyRegistryWeighsMinusOne | src/core/registry.cpp:220-230 | a concrete run that ends with no nodes and a gauge of -1 |
| RegistryRuns.StatsAddUp | src/core/registry.cpp:262-280 | in every reachable state alive + grace = total, and the role counts sum to total |
| NodeIds.GeneratedIdInjective | src/core/registry.cpp:79-85 | equal generated ids come from the same second and the same counter (decimal printing, last '-') |
| NodeIds.UnsuppliedAreGenerated | src/core/registry.cpp:79-131 | in every run a stored id that no registration supplied was generated, from an earlier counter |
| NodeIds.AddsNodeIff | src/core/registry.cpp:96-131 | a registration with an empty id adds a node if and only if no earlier registration supplied exactly the id generated now with that node still stored |
| NodeIds.EmptyIdAddsNode | src/core/registry.cpp:96-131 | if all supplied ids are earlier returned ones, it gets an id never returned before and adds a node |
| NodeIds.MadeUpIdCollides | src/core/registry.cpp:96-106 | calls of the registry in which a made-up id is generated later, and no node is added |
| SessionIds.SessionsAreTrusting | src/mqtt/mqtt_server.cpp:263-316 | over any interleaving of sessions every id supplied to the registry was returned by it earlier, and no two sessions ever have the same node id |
| SessionIds.FirstRegistrationAddsNode | src/mqtt/mqtt_server.cpp:290-291 | so the first registration of every session adds a node |
| SessionIds.FrameAsksOwn | src/mqtt/mqtt_server.cpp:270-316 | one frame asks the registry for at most one operation, and a registration carries the session's own id, which then is the one answered |
| SessionNodes.UserHolds | src/mqtt/mqtt_server.cpp:228-261 | over any interleaving a session is authenticated, and has the role of its user, exactly by the last CONNECT among its own frames that was accepted |
| SessionNodes.RegistrationStored | src/mqtt/mqtt_server.cpp:270-291 | after a PUBLISH on apr/node/meta the registry stores, under the session's id or a new one, the role the payload names or else the user name up to '_', the workers, the endpoint with the peer's address filled in, the accepted extra data; every other node is as before |
| SessionNodes.AnnouncementStored | src/mqtt/mqtt_server.cpp:295-316 | after a PUBLISH on apr/node/extra the data is stored under its worker in the session's node, or nothing has changed |
| SessionNodes.EndPutsInGrace | src/mqtt/mqtt_server.cpp:24-29 | a close, a close frame or a DISCONNECT puts the session's stored node into GRACE for 180 seconds, once, and changes no other |
| GraceTiming.SweepExact | src/core/registry.cpp:364-382 | an atomic sweep keeps exactly the unexpired nodes, unchanged |
| GraceTiming.RemovesCollected | src/core/registry.cpp:379-381 | from whatever state, exactly the collected ids are removed |
| GraceTiming.SplitSweepExact | src/core/registry.cpp:364-382 | with any later operations between the two halves, exactly the unexpired nodes are left if and only if no collected node that is still stored was touched in between |
| GraceTiming.TouchedYetRemoved | src/core/registry.cpp:368-381 | a collected node that is re-registered, given extra data, restored or marked again before its removal is removed although it has not expired |
| GraceTiming.ZeroMeansSwept | src/core/registry.cpp:246-314 | the remaining time reported is 0 exactly when a sweep at that instant removes the node |
| GraceTiming.ExpiresInIsTimeLeft | src/core/registry.cpp:246-314 | a queried copy differs in expires_in only, and only in GRACE: a sweep d seconds later removes the node if and only if d is at least that number |
| GraceTiming.GraceEndsBySweep | src/core/registry.cpp:154-162 | over any run that does not touch it, a GRACE node is there, unchanged, exactly until a sweep 180 or more seconds after its active_at |
| GraceTiming.GoneInTime | src/main.cpp:57-71 | with sweeps at most 5 seconds apart it is gone at a sweep between 180 and 185 seconds, and not before |
| RegistryQueries.MatchedExactly | src/core/registry.cpp:290-316 | the matches are the dated copies of exactly the nodes that are not ERASED, have the role asked for if one is, and list the worker asked for if one is |
| RegistryQueries.MatchedCount | src/core/registry.cpp:318 | the total is the number of ids of such nodes |
| RegistryQueries.PageIsRight | src/core/registry.cpp:319-328 | a page is the right slice if and only if its start wraps past the end or its end does not wrap |
| RegistryQueries.PagesPartition | src/core/registry.cpp:319-328 | pages 1..p of one list put together are its first min(p * count, total) entries in order |
| RegistryQueries.QueriesPartition | src/core/registry.cpp:282-329 | queried page by page at whatever times, the first p pages name the first min(p * count, total) matching ids, none lost or repeated |
| RegistryQueries.PageZeroIsPageOne | src/core/registry.cpp:319 | page 0 is page 1 |
| RegistryQueries.FarPageRepeats | src/core/registry.cpp:320 | a page number beyond 2^63 that shows page 1 again |
| RegistryQueries.CandidatesExactly | src/core/registry.cpp:334-350 | the candidates are exactly the OK nodes of the role that list the worker |
| RegistryQueries.Turn | src/core/registry.cpp:356-361 | the index picked is in range for every stored index and candidate count |
| RoundRobin.KeyInjective | src/core/registry.cpp:356 | without ':' in the roles different filters have different keys |
| RoundRobin.Rounds | src/core/registry.cpp:356-361 | after any run the index stands m steps after q whole rounds, and each candidate has answered accordingly |
| RoundRobin.Fair | src/core/registry.cpp:331-362 | over any interleaving each of n candidates answers floor(N/n) or ceil(N/n) of its filter's N calls, if every other filter of its key in the run has no candidates |
| RoundRobin.FairIff | src/core/registry.cpp:331-362 | a filter is fair over every run drawn from a set of filters if and only if it has at most one candidate or every other filter of the set with its key has none |
| RoundRobin.FairWithoutColons | src/core/registry.cpp:331-362 | the same for every run whose roles have no ':' |
| RoundRobin.SharedKeyStarves | src/core/registry.cpp:356-361 | any two filters of one key, the first with two or more candidates and the second with some: runs of any length that give every call of the first to one node |
| RoundRobin.KeysCanCollide | src/core/registry.cpp:356 | two different filters with one key |
| Replica.AprClient.FetchSnapshot | sdk/nodejs/index.js:149-163 | the snapshot's nodes put in by id; nothing on failure |
| Replica.AprClient.ReconcileQueue | sdk/nodejs/index.js:165-171 | the queue replayed in order, emptied, and the client live |
| Replica.AprClient.ApplyNodeEvent | sdk/nodejs/index.js:173-186 | OK stores, GRACE changes only the status of a known node, ERASED deletes |
| Replica.AprClient.HandleMessage | sdk/ts/src/index.ts:226-243 | apr/ messages are queued before reconciliation and applied after it; app/ messages are emitted as application events; others are dropped |
| Replica.AprClient.ResolveNode | sdk/cpp/src/apr_client.cpp:150-179 | the same round robin as the server's, over the replica |
| Replica.BootIsReplay | sdk/cpp/src/apr_client.cpp:114-119 | wherever snapshot and reconciliation fall between the events, the replica is the snapshot with all of them applied in order |
| Replica.GraceTimeFollows | sdk/nodejs/index.js:173-182 | after an OK or GRACE event a JavaScript replica shows its status and time left, 180 seconds where it says none; the C++ one keeps the time it had |
| Replica.BootAmongMessages | sdk/nodejs/index.js:91-206 | among messages of every kind the replica is the snapshot with the nodes of the apr/ messages applied in order, and the application gets exactly the app/ messages, in order, those before the snapshot too |
| Convergence.VisibleIff | include/apr/mqtt_topic.hpp:11-37 | `apr/+` matches `apr/` + role exactly when the role is not empty and has no '/' before its last character |
| Convergence.AllDelivered | src/mqtt/mqtt_server.cpp:372-376 | if the registered roles are visible, every event of the run is delivered |
| Convergence.StaysInStep | sdk/nodejs/index.js:173-186 | once the replica agrees with the registry about an id it always does |
| Convergence.DecisiveEventSyncs | sdk/nodejs/index.js:173-186 | an OK or ERASED event makes it agree, whatever it held |
| Convergence.InStepIff | sdk/nodejs/index.js:173-186 | from any start, it agrees about an id if and only if there was such an event or the start was good for that id |
| Convergence.Converges | sdk/nodejs/index.js:149-186 | events after S_j on top of the snapshot S_k, j <= k: after event m >= k exactly the registry's nodes, equal in id, role, workers, endpoint and status |
| Convergence.BootConverges | sdk/nodejs/index.js:149-206 | the same of the client itself, with the events cut anywhere by snapshot and reconciliation |
| Divergence.QuietIff | src/http/http_server.cpp:155-173 | without events the snapshot suffices if and only if there are at most 1000 nodes |
| Divergence.LargeRegistryIff | src/http/http_server.cpp:155-173 | for a registry of any size, a node is in step if and only if it was on the page, or has had an OK or ERASED event since S_j, or is not in S_m |
| ExtraData.ExtraAsOfSyncPoint | sdk/nodejs/index.js:173-182 | the replica's extra data is exactly the registry's as of the node's last OK event, or as of the snapshot |
| ExtraData.ExtraSince | src/core/registry.cpp:198-206 | since the last OK event of a node its extra data has changed by exactly the writes that hit it in GRACE |
| ExtraData.ExtraIff | sdk/nodejs/index.js:173-182 | the replica has the registry's extra data of a node if and only if the writes that hit it in GRACE since then come to what it held |
| ExtraData.ExtraConverges | sdk/nodejs/index.js:173-182 | in particular if there was no such write |
| ExtraData.StaleExtra | src/core/registry.cpp:198-217 | a write in GRACE that the replica never sees |
| Divergence.SaidIsLeft | sdk/nodejs/index.js:173-186 | for any events in any order and any start, what is left of a node: its last OK or ERASED event, graced if a GRACE event follows |
| Divergence.DeliveryIff | sdk/nodejs/index.js:165-186 | with events lost, repeated or reordered, a node is in step if and only if what was said of it comes to the same as the registry's events |
| Divergence.OrderIff | src/core/registry.cpp:143-149 | with the same events in any order, a node is in step if and only if the last word on it is the same |
| Divergence.BootOrderIff | sdk/nodejs/index.js:149-206 | the client as a whole, its events in any order and cut anywhere, converges if and only if this holds of every node |
| Divergence.PerNodeOrderSuffices | src/core/registry.cpp:143-149 | events of different nodes may overtake each other freely |
| Divergence.OvertakenRemoval | src/core/registry.cpp:143-149 | a removal that overtakes its registration leaves a node in the replica for good |
| Divergence.MissedEvents | sdk/nodejs/index.js:47-62 | if the subscription took effect after the snapshot, a node is in step if and only if it has had an OK or ERASED event since, or the snapshot and the registry agree about it up to a status that a GRACE event has set |
| Divergence.MissedRemoval | sdk/nodejs/index.js:47-62 | a run in which a node removed in between stays in the replica |
| ConnectionGuard.Guard.TryAcquireAt | src/core/connection_guard.cpp:7-35 | the answer and the whole new state, the popping loop included |
| ConnectionGuard.Guard.ReleaseOne | src/core/connection_guard.cpp:37-46 | the whole new state, no count stored as zero |
| ConnectionGuard.TrimCounts | src/core/connection_guard.cpp:23-25 | the popped queue holds exactly the young entries of the full admission log |
| ConnectionGuard.ExactLimiter | src/core/connection_guard.cpp:7-35 | after any run an attempt succeeds if and only if total, per-ip count and the window counted over the full log allow it |
| ConnectionGuard.WindowNeverExceeded | src/core/connection_guard.cpp:20-30 | no closed interval of the window's length holds more admissions of one ip than allowed |
| SessionLifecycle.TcpSession.CloseSession | include/apr/tcp_session.hpp:81-88 | the first call releases one slot, every later call does nothing |
| SessionLifecycle.Server.DoAccept | src/mqtt/mqtt_server.cpp:419-453 | a session exists exactly if the guard admitted it |
| SessionLifecycle.Server.Handle | include/apr/tcp_session.hpp:63-109 | every handler that ends a session closes just that one |
| SessionLifecycle.ReleaseIsExact | src/core/connection_guard.cpp:39-44 | the release made by a close never meets a counter at zero |
| SessionLifecycle.Conservation | src/http/http_server.cpp:28-30 | over any interleaving the total is the number of open sessions, per ip too and never stored as zero, one release per session, the caps hold |
| SessionLifecycle.CloseIsIdempotent | include/apr/tcp_session.hpp:78-88 | a second close for whatever cause changes nothing |
| SessionLifecycle.AllClosedAllFree | src/mqtt/mqtt_server.cpp:20-29 | when all sessions have closed, no slot is taken |
| SessionLifecycle.GuardRuns | src/core/connection_guard.cpp:7-46 | the guard inside the system is the guard after the acquires and releases that its steps make |
| SessionLifecycle.AcceptedIff | src/mqtt/mqtt_server.cpp:419-453 | over any interleaving a connection becomes a session if and only if the open sessions are below both caps and its ip's admissions within the window are below the rate limit |
| SessionLifecycle.AdmissionsAreSessions | src/core/connection_guard.cpp:20-34 | the admission log grows exactly with the sessions opened |
| StreamAccumulator.Accumulator.Append | include/apr/stream_accumulator.hpp:25-30 | the reader sees the data behind what it has not consumed yet |
| StreamAccumulator.Accumulator.Consume | include/apr/stream_accumulator.hpp:29-37 | the reader sees what it saw without the first n bytes, and nothing is moved |
| StreamAccumulator.Accumulator.CompactIfNeeded | include/apr/stream_accumulator.hpp:43-54 | consumed bytes are dropped when all is consumed or the threshold is reached, and the reader sees no difference |
| StreamAccumulator.RunIsQueue | include/apr/stream_accumulator.hpp:25-54 | over any run the view behaves as a plain queue |
| StreamAccumulator.CapacityAfterCompact | include/apr/stream_accumulator.hpp:43-58 | right after compaction the capacity is below size + threshold |
| StreamAccumulator.AmortisedCost | include/apr/stream_accumulator.hpp:43-54 | over any run (bytes shifted) * threshold <= (bytes consumed) * (largest unconsumed size) |
| WebSocketCodec.DecodeFrame | src/mqtt/websocket_codec.cpp:204-252 | the decoder over all three length classes, wrap-around of the length sum included |
| WebSocketCodec.DecodedHeader | src/mqtt/websocket_codec.cpp:204-241 | FIN, opcode, mask bit and the three length forms of section 5.2 of RFC 6455: where the payload of a decoded frame starts and how long it is |
| WebSocketCodec.DecodedPayload | src/mqtt/websocket_codec.cpp:243-248 | bit k of byte i of a masked payload is bit k on the wire plus bit k of byte i % 4 of the masking key, modulo 2; an unmasked one is the bytes on the wire |
| WebSocketCodec.UndecodedWhy | src/mqtt/websocket_codec.cpp:204-241 | undecided exactly while header or payload is not all there; a frame of 2^64 bytes or more fails as soon as its header is |
| WebSocketCodec.MaskedPing | src/mqtt/websocket_codec.cpp:204-252 | a client's PINGREQ under the masking key 01 02 03 04, byte by byte |
| Bytes.XorIsBitwise | src/mqtt/websocket_codec.cpp:245 | each bit of an exclusive or is the sum of the two bits modulo 2 |
| Bytes.BitsDecide | src/mqtt/websocket_codec.cpp:245 | no two bytes have the same eight bits |
| WebSocketCodec.EncodedLayout | src/mqtt/websocket_codec.cpp:254-273 | the encoded header byte by byte: FIN and opcode, then the length in 7, 16 or 64 bits, high byte first |
| WebSocketCodec.EncodeFrame | src/mqtt/websocket_codec.cpp:254-273 | the frame for a payload of any length class |
| WebSocketCodec.RoundTrip | src/mqtt/websocket_codec.cpp:204-273 | decoding a frame followed by anything gives back payload and opcode and consumes exactly the frame |
| WebSocketCodec.MaskedRoundTrip | src/mqtt/websocket_codec.cpp:232-248 | a masked frame decodes to its unmasked payload |
| WebSocketCodec.ProperPrefixIncomplete | src/mqtt/websocket_codec.cpp:204-230 | no proper prefix of a frame decodes |
| WebSocketCodec.DecodeStable | src/mqtt/websocket_codec.cpp:204-252 | more bytes do not change what has been decoded |
| WebSocketLoop.Session.OnBytesRead | src/mqtt/mqtt_server.cpp:154-194 | one read: append, cap check, dispatch loop, compaction |
| WebSocketLoop.Session.DispatchFrames | src/mqtt/mqtt_server.cpp:165-187 | the loop dispatches the frames of the recursive decoding, leaves its rest, and ends |
| WebSocketLoop.BufferedRunIsPlain | src/mqtt/mqtt_server.cpp:154-194 | over any run of reads that does not hit the cap, the lazily compacted buffer does not show |
| WebSocketLoop.CapNeverHit | src/mqtt/mqtt_server.cpp:157-162 | a cap with room for the longest undecoded tail, one read and the compaction threshold is never hit in a run |
| WebSocketLoop.CappedIff | src/mqtt/mqtt_server.cpp:157-162 | over any run of reads the session ends by the cap if and only if some read, while it reads, brings the buffer beyond it |
| WebSocketLoop.FrameArrives | src/mqtt/mqtt_server.cpp:165-187 | the frame at the front, masked or not, is dispatched and its bytes are consumed; behind a close frame nothing is read |
| WebSocketLoop.FramesArrive | src/mqtt/mqtt_server.cpp:165-187 | a stream of frames, masked or not, is dispatched frame by frame in order while the session is not closing |
| WebSocketLoop.TailUndecodable | src/mqtt/mqtt_server.cpp:168-171 | what is left over is exactly an undecodable tail |
| WebSocketLoop.RunIsWhole | src/mqtt/mqtt_server.cpp:165-187 | if nothing readable follows a DISCONNECT, every cutting into reads of at most r bytes dispatches what decoding the stream whole does |
| WebSocketLoop.ReadsAreWhole | src/mqtt/mqtt_server.cpp:154-194 | the same of on_bytes_read with its buffer, compaction and cap, for every cap with that much room |
| WebSocketLoop.CutsAgreeExactly | include/apr/tcp_session.hpp:63-76 | all cuttings into reads of at most r bytes agree if and only if no complete frame lies in the r - 1 bytes behind a DISCONNECT |
| MqttSession.Session.OnConnect | src/mqtt/mqtt_server.cpp:228-261 | CONNECT: refusal with close, or the role up to the first '_' |
| MqttSession.Session.OnPublish | src/mqtt/mqtt_server.cpp:263-328 | PUBLISH: acknowledgement, then by topic a registration under the session's id, an announcement if it has one, a relay, or nothing |
| MqttSession.Session.OnSubscribe | src/mqtt/mqtt_server.cpp:330-347 | SUBSCRIBE: every filter added and granted |
| MqttStreams.PingBehindDisconnect | src/mqtt/mqtt_server.cpp:353-356 | a concrete stream, DISCONNECT then PINGREQ, whose outcome depends on the cuts |
| MqttStreams.LongFrameBehindDisconnect | src/mqtt/mqtt_server.cpp:165-187 | a frame of 4096 bytes or more behind a DISCONNECT is never dispatched, however the stream is cut |
| MqttStreams.AuthenticatedIff | src/mqtt/mqtt_server.cpp:228-261 | over any dispatched frames a session is authenticated if and only if one of them held an accepted CONNECT |
| MqttStreams.OthersAfterConnect | src/mqtt/mqtt_server.cpp:196-334 | whatever a session registers, announces or relays comes after an accepted CONNECT in the stream |
| MqttStreams.RefusalIsLast | src/mqtt/mqtt_server.cpp:228-249 | at most one refusal is ever sent, it is the last thing sent, and the session is closing exactly when it was |
| MqttStreams.OwnIdThroughout | src/mqtt/mqtt_server.cpp:290-316 | a session registers with no id first, then with the id it was given, and announces under that id only |
| MqttStreams.StreamGuards | src/mqtt/mqtt_server.cpp:196-356 | all of this over every run of reads of a new session, subscriptions included |
| MqttStreams.BufferedStreamGuards | src/mqtt/mqtt_server.cpp:154-356 | and of on_bytes_read with its buffer, whatever the cap |
| MqttEffects.SessionIsItsFrames | src/mqtt/mqtt_server.cpp:196-356 | over any dispatched frames the session is a function of them: user and role, node id, subscriptions, closed or not, and the whole log of answers and of what is handed to others, by packet types and layouts |
| MqttEffects.ReadsAreFrames | src/mqtt/mqtt_server.cpp:154-356 | the same of on_bytes_read over any run of reads, whatever the cap |
| MqttEffects.OriginOf | src/mqtt/mqtt_server.cpp:263-328 | every registration in the log comes from a PUBLISH on apr/node/meta whose payload parses to it, its role the payload's or else the user name up to '_' of the last accepted CONNECT; every announcement from one on apr/node/extra; every relayed message is the topic and payload of one outside apr/ |
| MqttEffects.PublishLeaves | src/mqtt/mqtt_server.cpp:263-328 | and every such PUBLISH of a known user leaves its entry |
| MqttEffects.RoleOfIsRole | src/mqtt/mqtt_server.cpp:251-256 | the role is the part of the user name before its first '_', or all of it |
| MqttEffects.AnswersAreLaidOut | src/mqtt/mqtt_packet.cpp:73-106 | every answer is a CONNACK, PUBACK, SUBACK or PINGRESP of MQTT 3.1.1, type, remaining length, packet id and codes, to the packet that asks for it |
| MqttEffects.ConnectAccepted | src/mqtt/mqtt_server.cpp:228-261 | a CONNECT of section 3.1 is accepted if and only if there is no access key, or its password is key and user name |
| MqttEffects.SubscribeStores | src/mqtt/mqtt_server.cpp:330-347 | after a SUBSCRIBE of section 3.8 the session gets exactly what it got before and what one of the new filters matches |
| MqttEffects.PublishIsRelayed | src/mqtt/mqtt_server.cpp:263-328 | a PUBLISH outside apr/ is acknowledged at QoS 1 and relayed as it is, and what subscribers are sent for it is read as the same topic and payload |
| HttpParsing.IEquals | src/http/http_parsing.cpp:8-16 | equality up to ASCII case |
| HttpParsing.FindRequestBoundary | src/http/http_parsing.cpp:118-153 | the header loop computes the boundary, the last Content-Length counting, wrap-around included |
| HttpParsing.BoundaryStable | src/http/http_parsing.cpp:118-153 | a found boundary survives any suffix |
| HttpParsing.NoEarlierBoundary | src/http/http_parsing.cpp:118-153 | no shorter prefix yields a boundary |
| HttpParsing.BoundaryCoversHeaders | src/http/http_parsing.cpp:150-152 | the boundary covers the headers, four bytes at least, if and only if the length sum does not wrap |
| HttpParsing.BoundaryExact | src/http/http_parsing.cpp:118-153 | without wrap-around a prefix has the boundary if and only if it reaches it |
| HttpRequests.DecimalIsRead | src/http/http_parsing.cpp:135-142 | the decimal digits of n are read as n modulo 2^64, and reading goes on behind them |
| HttpRequests.AnnouncedLength | src/http/http_parsing.cpp:130-144 | a line "Content-Length:", in any case, with any spaces, a number and anything that is no digit announces that number, 0 without a digit |
| HttpRequests.OtherLine | src/http/http_parsing.cpp:130-134 | no other line announces anything |
| HttpRequests.BoundaryWithLength | src/http/http_parsing.cpp:118-153 | header lines, a blank line, and the last Content-Length line announcing n: the boundary is n bytes behind the header, and not there before them; modulo 2^64 |
| HttpRequests.BoundaryWithoutLength | src/http/http_parsing.cpp:118-153 | without such a line it is the end of the header |
| HttpRequests.RequestsServed | src/http/http_server.cpp:36-103 | of a stream of requests laid out by RFC 9112, however cut, a settled session has served these requests in order, all of them unless a response closed the connection |
| HttpSession.Session.OnBytesRead | src/http/http_server.cpp:36-47 | append, cap check, next request |
| HttpSession.Session.TryProcessNextRequest | src/http/http_server.cpp:49-103 | one request is cut off and answered, or one more read is started |
| HttpSession.Session.OnWriteDone | src/http/http_server.cpp:92-102 | after a write: close, or the next request |
| HttpSession.OneAtATime | src/http/http_server.cpp:36-103 | in every reachable state at most one read or write is outstanding, and none follows the last response |
| HttpSession.RequestCap | src/http/http_server.cpp:65-73 | with cap N > 0 at most N requests are served, the N-th with close |
| HttpSession.KeepAliveExactly | src/http/http_server.cpp:63-73 | in every reachable state a response keeps the connection open if and only if its request asks for it and it is below the request cap |
| HttpSession.CappedIff | src/http/http_server.cpp:36-47 | a session is closed by the buffer cap if and only if some read brought the buffer beyond it |
| HttpSession.ClosedIff | src/http/http_server.cpp:36-103 | a session is closed if and only if a read or write failed, the timer fired, the cap was hit, or its last response has been written |
| HttpSession.AlwaysTracks | src/http/http_server.cpp:36-103 | in every reachable state, capped, timed out or failed ones too, what was served is what the received bytes say, and the buffer holds what is left |
| HttpSession.ServedIsPrefix | src/http/http_server.cpp:36-103 | of any two sessions on the same stream, whatever ended them, one has served a prefix of what the other has |
| HttpSession.SettledIsComplete | src/http/http_server.cpp:49-103 | a settled session has served every request of the stream up to the last word |
| HttpSession.PipeliningIsChunkInvariant | src/http/http_server.cpp:36-103 | two sessions that settled on the same stream served the same requests, however it was cut |
| HttpSession.CapNeverHit | src/http/http_server.cpp:40-44 | a cap with room for the longest unserved tail, one read and the compaction threshold is never hit in a run |
| HttpSession.PipeliningWithRoom | src/http/http_server.cpp:36-103 | so with that much room cutting the stream differently changes nothing |
| MqttPacket.EncodeRemainingLength | src/mqtt/mqtt_packet.cpp:6-15 | the base-128 digits, low one first |
| MqttPacket.DecodeRemainingLength | src/mqtt/mqtt_packet.cpp:17-34 | value and size of the field, or refusal, multiplier bound included |
| MqttPacket.LengthRoundTrip | src/mqtt/mqtt_packet.cpp:6-34 | decoding inverts encoding exactly below 2^21 and refuses everything above |
| MqttPacket.FourByteLengthsRefused | src/mqtt/mqtt_packet.cpp:17-34 | the four-byte lengths of section 2.2.3 of MQTT 3.1.1 are all refused |
| MqttPacket.EncodePublish | src/mqtt/mqtt_packet.cpp:108-123 | the packet, with its packet id for QoS > 0 |
| MqttPacket.DecodePublish | src/mqtt/mqtt_packet.cpp:161-188 | the fields of the packet, or None for each failure |
| MqttPacket.PublishRoundTrip | src/mqtt/mqtt_packet.cpp:108-188 | topic, payload, QoS and packet id come back, with any trailing bytes, if and only if topic < 2^16 and body < 2^21 |
| MqttPacket.DecodeConnect | src/mqtt/mqtt_packet.cpp:125-159 | protocol check, flags, will, user name and password |
| MqttPacket.ReadTopics | src/mqtt/mqtt_packet.cpp:201-207 | the loop reads all topics, advancing at least three bytes a turn |
| MqttPacket.DecodeSubscribe | src/mqtt/mqtt_packet.cpp:190-212 | packet id and topics, or None for each failure |
| WireFormats.PublishLayout | src/mqtt/mqtt_packet.cpp:108-123 | the server's PUBLISH by section 3.3: type 3, DUP and RETAIN 0, QoS in bits 1 and 2, a remaining length that counts what follows, topic, packet id, payload |
| WireFormats.PublishIsRead | src/mqtt/mqtt_packet.cpp:161-188 | a client's PUBLISH with any DUP, QoS and RETAIN is read back, with anything behind it |
| WireFormats.ConnectIsRead | src/mqtt/mqtt_packet.cpp:125-159 | a CONNECT of section 3.1 under either protocol name, with any combination of will, user name and password, is read, the will skipped |
| WireFormats.SubscribeIsRead | src/mqtt/mqtt_packet.cpp:190-212 | all filters of a SUBSCRIBE of section 3.8 are read, in order |
| WireFormats.CutPacketRefused | src/mqtt/mqtt_packet.cpp:17-212 | no proper prefix of a packet is taken for one by any decoder |
| SdkHandshake.SendConnect | sdk/cpp/src/apr_client.cpp:223-252 | the CONNECT packet, remaining length cast to a byte |
| SdkHandshake.SendSubscribe | sdk/cpp/src/apr_client.cpp:254-268 | the SUBSCRIBE packet, remaining length cast to a byte |
| SdkHandshake.ConnectRecovered | sdk/cpp/src/apr_client.cpp:223-252 | the server recovers the three strings if and only if the cast length is below 128 and no string outgrows its prefix |
| SdkHandshake.RoleOfUsername | src/mqtt/mqtt_server.cpp:251-256 | the derived role is the SDK's if and only if that has no '_' |
| SdkHandshake.Handshake | src/mqtt/mqtt_server.cpp:228-261 | under the same access key the CONNECT is accepted whenever its strings come back, a remaining length of at most 127 being the plain case, and the role recovered exactly without '_' |
| SdkHandshake.HandshakeRefused | src/mqtt/mqtt_server.cpp:228-236 | with the continuation bit in the cast length the CONNECT is refused with 0x01 and the session closes |
| SdkHandshake.SubscribeRecovered | sdk/cpp/src/apr_client.cpp:254-268 | the one topic comes back for exactly these lengths, all up to 122 bytes among them |
| SdkHandshake.SubscribeStored | src/mqtt/mqtt_server.cpp:330-347 | for those lengths an authenticated session stores the topic and grants it |
| SdkReader.ProcessMqttBuffer | sdk/cpp/src/apr_client.cpp:390-410 | the loop takes the packets of the recursive reading, and stops at one that is not all there or whose topic does not fit |
| SdkReader.SdkReadsIff | sdk/cpp/src/apr_client.cpp:390-410 | the client reads a message that the server sends if and only if its remaining length is below 128, and nothing of a longer one |
| SdkReader.SdkReadsAll | sdk/cpp/src/apr_client.cpp:390-410 | a run of short messages is read whole and in order |
| Broadcast.MatchesTopic | src/mqtt/mqtt_server.cpp:86-94 | some filter of the session matches |
| Broadcast.Publish | src/mqtt/mqtt_server.cpp:397-417 | every matching session is sent exactly one buffer, every other none |
| Broadcast.WireIsRead | src/mqtt/mqtt_server.cpp:397-417 | framed or raw, the buffer is a packet of type 3 that decodes to the published topic and payload, if and only if within the packet's bounds |
| MqttTopic.Matches | include/apr/mqtt_topic.hpp:11-37 | the two-index loop computes the recursive walk |
| MqttTopic.MatchesIsLevelwise | include/apr/mqtt_topic.hpp:11-37 | on well-formed names the matcher is the level-wise relation of section 4.7 less the parent-level cases below a literal |
| MqttTopic.HashFreeMatchesExactly | include/apr/mqtt_topic.hpp:11-37 | without '#' the agreement is exact |
| Base64.Encode | src/mqtt/websocket_codec.cpp:94-121 | the three-byte state loop computes the group encoding |
| Base64.EncodeRest | src/mqtt/websocket_codec.cpp:123-139 | the last one or two bytes with their padding |
| Base64.RoundTrip | src/mqtt/websocket_codec.cpp:94-142 | a decoder written from section 4 of RFC 4648 recovers every byte string |
| Base64.GroupsOfSix | src/mqtt/websocket_codec.cpp:94-142 | each four symbols are the 24 bits of three bytes, six at a time from the left, with zero bits and '=' for missing bytes (section 4 of RFC 4648) |
| Base64.Shape | src/mqtt/websocket_codec.cpp:94-142 | length 4 * ceil(n / 3), symbols of the alphabet, then the right number of '=' |
| Base64.Injective | src/mqtt/websocket_codec.cpp:94-142 | different byte strings have different encodings |

## Left out

- Sockets, asio, real timers, threads, logging, file rotation, daemon and configuration code, embedded pages.
- JSON parsing and printing: a value is its dump; a message is its parsed node, or None.
- Base64's neighbours: the SHA-1 function and the text of the WebSocket handshake; the model starts after it.
- Plain-TCP MQTT: one read is taken as one packet there, so there is no reassembly to state anything about.
- `parse_raw_http`, `parse_query` and `route_request`: what a request wants (keep-alive) is a parameter.
- HttpSession.Session.TryProcessNextRequest: excludes requests whose routing throws, such as `GET /registry?page=x` (`std::stoul` in src/http/http_server.cpp:161); the exception leaves the handler, the request is not answered and the session is not closed.
- HttpSession.OneAtATime: excludes them too.
- HttpSession.SettledIsComplete: is about sessions that nothing but the last word has ended; `ServedIsPrefix` covers the others.
- HttpSession.PipeliningIsChunkInvariant: excludes sessions closed by the buffer cap, a timeout or an I/O error, which may stop earlier; `ServedIsPrefix` says what those have served, and `CapNeverHit` when the cap is out of reach.
- WebSocketLoop.ReadsAreWhole: excludes runs that hit the buffer cap; `CapNeverHit` says when they cannot.
- SessionLifecycle.TcpSession.CloseSession: does not put the session's node into GRACE; SessionIds does.
- SessionLifecycle.Conservation: assumes that a session's `peer_ip_` is the ip that was acquired for it.
- Convergence.Converges: takes events in the order of the mutations and the client's first boot, with an empty map; it assumes that the subscription has taken effect before the snapshot is made, which the SDKs do not wait for; module Divergence says exactly what becomes of a node otherwise. Reconnects are not modelled. How long a message may be for the C++ client to read it at all is `SdkReader.SdkReadsIff`.
- The C# replica: its queue is unordered, so the ordered replay does not apply.
- Aliasing in the JavaScript replica (an event object that is stored and later changed by a GRACE event): nodes are values.
- Registry.Registry.SweepExpiredNodes: no other operation comes between its two halves; `SplitSweepExact` is about the ones that can.
- NodeIds.EmptyIdAddsNode: the 64-bit counter is unbounded, and the two readings of the clock in a registration are taken to be one.
- ConnectionGuard: counters and clock are unbounded integers; the clock does not go backwards.
- The other memory gauges, process statistics, and event callbacks being added or removed while the registry runs.
- Topics that start with '$' (section 4.7.2 of MQTT 3.1.1): the code does not treat them specially.
