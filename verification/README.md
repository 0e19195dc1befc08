# Proximity Internet Mesh: verified models

Dafny models of the stateful core of PIM, a mesh networking daemon, with proofs about them.

| module | part of the system |
|---|---|
| `Wrappers`, `Bytes` | options, results, big-endian fields |
| `Routing`, `RoutingProperties`, `RoutingRuns`, `RoutingEngine` | one distance-vector routing table: operations as functions on values, their laws, whole histories of calls, and the table as a class |
| `RouteAges` | what renews a route, and when it expires |
| `Mesh` | an asynchronous network of tables: frames delayed, lost, duplicated, reordered, peers coming and going |
| `LoopFreedom` | two-node forwarding loops |
| `Rounds`, `Convergence`, `GatewayFlags`, `Stabilisation`, `LinkChanges` | synchronous rounds: convergence from fresh tables, how gateway flags spread, recovery from any tables, and links that come and go |
| `PortPool`, `Conntrack`, `Checksum`, `NatPackets`, `Gateway` | the userspace NAT: both port allocators, connection tracking, packet rewriting, both engines |
| `Fragments`, `Reassembly` | fragmentation, its wire format, and reassembly |
| `SendBuffer` | the store-and-forward priority buffer |
| `Calendar` | the two conversions from Unix time to a date |
| `Framing` | the Bluetooth and TCP length-prefixed stream decoders |
| `Session` | nonce counters and replay protection |
| `RateLimiter` | the per-peer token bucket |
| `IcmpEcho` | the ICMP echo reply builder |

Components that update state in place are classes or methods on arrays. Each is proved equal to a
function on values. The properties below are then proved about that function, over all inputs or all runs.

## Main results

- **Convergence.** From fresh tables on any symmetric topology, after k rounds each table holds exactly the destinations at distance 1 to min(k+1, 15), with shortest-path lengths and next hops one hop closer (`ConvergesToShortestPaths`).
- **Recovery.** From any well-formed tables, whatever stale routes they hold, routes to unreachable nodes are gone after 15 rounds and the tables are exact after 31 (`StaleRoutesAgeOut`, `RecoversShortestPaths`). Such runs of any length exist (`RecoveryExists`). Every state an asynchronous history can reach qualifies once peers and next hops match the links (`AnyHistoryIsReady`).
- **Links that come and go.** Through any sequence of rounds and link changes that nodes follow with `add_peer` and `remove_peer`, 31 rounds after the last change every table is exact (`RecoversAfterLastChange`). A route through a node that is no longer heard survives a round exactly when no neighbour offers a shorter path (`OrphanStaysExactly`).
- **No phantom routes** in any asynchronous run (`NoPhantomRoutes`).
- **An accepted update is one pointwise Bellman-Ford step**, in whatever order its lines come (`UpdateIsBellmanFord`, `UpdateIgnoresOrder`).
- **Route ages.** In every history a route survives expiry exactly when it was last renewed at most the maximum age ago (`RenewalDecidesExpiry`). What renews a route is given exactly (`AgeExactly`), and so is every field an update leaves (`UpdateFieldByField`, `SenderFieldByField`).
- **Gateway flags.** In the runs of convergence, after k rounds every route to a node at distance 1 to min(k, 15) says truly whether that node is a gateway (`GatewayFlagsSpread`).
- **Two-node loops** never arise when exchanges are atomic (`TwoNodeLoopFreedom`), can arise with frames in flight (`InFlightFramesCloseALoop`), and arise from a delivery exactly under a stated condition (`DeliveryLoopsExactly`).
- **Address index** sound in every history, and equal to a scan while no collision was counted (`LookupMeshIpIsScan`); what each insertion and removal does to it is given exactly (`InsertIndexesExactly`, `RemoveIndexesExactly`).
- **Route replay protection**: the sequence numbers accepted from a peer strictly increase until the peer is removed (`RecordedStrictlyIncrease`).
- **NAT** maps and port pool stay a bijection in every history, and replies reach their flow (`EngineStaysBijective`, `ReplyReachesSender`); every rewrite leaves a verifying checksum and touches nothing else (`RewriteIsCorrect`). A reply to a translated packet gets back, byte for byte, the source address and port of the original (`ReplyComesHome`). A sweep forgets a flow, its port and its reverse entry exactly when its last use is longer ago than its protocol allows (`IdleFlowIsSwept`, `CleanupRemovesExactly`).
- **Reassembly** undoes fragmentation in any order, with duplicates and foreign traffic (`ReassemblesInAnyOrder`).
- **Priority buffer** keeps the most urgent frames of all pushed (`KeepsMostUrgent`). Within a priority the older frames stay, and only the last place can go to a later one: a tie on a full buffer replaces the newest (`KeepsOldest`, `TieReplacesNewest`).
- **Calendar** closed form steps through the calendar on all integers and agrees with the counting loop (`ClosedFormSteps`, `ConversionsAgree`).
- **Framing** of legal payloads is independent of chunking (`PayloadsSurviveAnyChunking`); on arbitrary bytes it is so for TCP, and for Bluetooth exactly when no frame shares a read with a bad length (`ChunkingIsIrrelevant`, `BluetoothDeliversExactly`); **replay protection** accepts exactly the new maxima (`AcceptedExactly`), **rate limiting** obeys its window bound for each peer among many (`PeerWindowBound`), and lets through bursts up to the capacity and peers that wait for a token (`BurstPasses`, `PatientPeerPasses`).

## Where the code differs from its documentation

- The routing documentation says poison reverse prevents two-node loops. The code does so only for advertisements applied at once. `InFlightFramesCloseALoop` builds a history with delayed frames in which two nodes point at each other, and `DeliveryLoopsExactly` says when a delivery closes such a loop.
- `apply_update` is documented to report a change of routes. A route through the sender that only got longer is not reported (`LongerRouteIsUnreported`). `ChangedExactly` states which changes are.
- After an address collision the losing node is not put into the index when the winner leaves, but only when its own route is next inserted (`LoserWaitsForRefresh`).
- An insertion gives up the address the route stored before without asking who owns the index entry. After a prefix change this can take a live node out of the index (`RefreshEvictsWinner`). `InsertIndexesExactly` gives both conditions exactly.
- Blacklisting is documented to force traffic onto other paths. Updates of a blacklisted peer are still applied, and one that offers a shorter path takes a usable route away (`BlacklistedSenderTakesRoute`). `BlacklistedSenderTakesExactly` gives the condition.
- Removing a peer also forgets its sequence number, so every frame of it that was accepted before is accepted again afterwards (`RemovalAcceptsAgain`).
- The Bluetooth decoder is documented to return the complete payloads. If a bad length is in the same read, it drops them (`BadLengthTakesFramesAlong`). `BluetoothDeliversExactly` says when nothing is lost.
- The connection-tracking comment in `engine.rs` names 60 seconds of idle time for UDP; the code and the model use 30.
- `encode` of the TCP codec accepts payloads its own decoder refuses. `DecodableExactly` gives the limit.
- An outbound packet too short to be rewritten is refused, but its flow has already been opened (`ShortTcpOpensFlow`). `RefusalOpensExactly` says when a refused packet changes the engine.
- The echo responder also answers packets that declare a header of 4 bytes. `ShortRequestFails` shows one whose reply has no valid checksum, and `ReplyVerifies` says when the checksums verify.

## Model

| member | source | states |
|---|---|---|
| `RoutingProperties.InsertKeepsIndexSound` | crates/pim-routing/src/table.rs:180-206 | installing a route keeps every index entry pointing at a live route that stores that address |
| `RoutingProperties.RemoveKeepsValid` | crates/pim-routing/src/table.rs:211-219 | removing any set of routes keeps the table invariant |
| `RoutingProperties.AddPeerKeepsValid` | crates/pim-routing/src/table.rs:227-248 | adding a peer keeps the invariant if and only if the peer is another node |
| `RoutingProperties.RemovePeerKeepsValid` | crates/pim-routing/src/table.rs:251-255 | removing a peer keeps the invariant and leaves no route through it |
| `RoutingProperties.UpdateKeepsValid` | crates/pim-routing/src/table.rs:263-455 | applying any frame, accepted or not, keeps the invariant: own id never a key, 1 to 15 hops, learned_from equals next_hop, route sequence at most the recorded maximum |
| `RoutingProperties.EntriesPointwise` | crates/pim-routing/src/table.rs:338-430 | the relaxation loop over distinct destinations treats each destination by its own line alone |
| `RoutingProperties.UpdateIsBellmanFord` | crates/pim-routing/src/table.rs:263-455 | for every destination other than the sender an accepted update is one Bellman-Ford rule: replace if absent, shorter or already via the sender; drop if via the sender and poisoned or unlisted; else keep |
| `RoutingProperties.UpdateAtSender` | crates/pim-routing/src/table.rs:316-430 | the sender itself ends as a refreshed or new route relaxed by its own line |
| `RoutingProperties.UpdateIgnoresOrder` | crates/pim-routing/src/table.rs:338-448 | the resulting routes do not depend on the order of the advertised lines |
| `RoutingProperties.UpdateFieldByField` | crates/pim-routing/src/table.rs:338-448 | every field of the route an accepted update leaves for another destination: an adopted line gives next hop, hops plus one, the advertised flag, the frame's number and the time of the call, and keeps load and latency only of a gateway that got no closer; a route via the sender without such a line is gone; any other is untouched |
| `RoutingProperties.SenderFieldByField` | crates/pim-routing/src/table.rs:316-430 | the same for the sender: its line is adopted, or its route is only renewed, or it is new at one hop without the gateway flag, or it poisoned itself and is gone |
| `RoutingProperties.AddPeerFieldByField` | crates/pim-routing/src/table.rs:227-248 | every field of the route to an added peer, and that no other route changes |
| `RoutingProperties.RemovePeerExactly` | crates/pim-routing/src/table.rs:251-255 | removing a peer drops exactly the routes through it, the peer and its number |
| `RoutingProperties.BlacklistExactly` | crates/pim-routing/src/table.rs:531-538 | blacklisting drops exactly the routes through the peer and keeps it as a peer |
| `RoutingProperties.LookupExactly` | crates/pim-routing/src/table.rs:556-564 | a destination is reached through a hop if and only if its route names that hop and the hop is not blacklisted |
| `RoutingProperties.ExpireExactly` | crates/pim-routing/src/table.rs:676-692 | a route expires if and only if it was renewed more than the maximum age ago |
| `RouteAges.AgeExactly` | crates/pim-routing/src/table.rs:227-455 | a route present after any call was renewed by it at that time, or is as old as before; renewing are exactly adding the peer, an accepted frame of the peer itself, and an adopted line |
| `RouteAges.RenewalDecidesExpiry` | crates/pim-routing/src/table.rs:401-414 | in every history, a route renewed at some time and left alone since survives expiry if and only if that time is at most the maximum age back |
| `RoutingProperties.ChangedExactly` | crates/pim-routing/src/table.rs:316-455 | for distinct destinations an update is reported as a change if and only if the sender had no route or some route appeared, disappeared, got shorter or changed its gateway flag |
| `RoutingProperties.ChangedBeforehand` | crates/pim-routing/src/table.rs:316-455 | the same report in terms of the frame and the table before the call: the sender is unknown, some line replaces or removes a route reportably, or a route learned from the sender is not listed |
| `RoutingProperties.ReportedIsChanged` | crates/pim-routing/src/table.rs:316-455 | for every accepted frame, repeated lines included, no such change goes unreported |
| `RoutingRuns.InsertKeepsCompleteExactly` | crates/pim-routing/src/table.rs:180-206 | an insertion keeps every route findable by address if and only if no other live route stores the derived address |
| `RoutingRuns.InsertIndexesExactly` | crates/pim-routing/src/table.rs:180-206 | in any sound table the inserted route is indexed if and only if no other indexed route holds its address, and another route stays indexed if and only if its address is not one the inserted destination gives up |
| `RoutingRuns.RemoveIndexesExactly` | crates/pim-routing/src/table.rs:211-219 | a removal takes out of the index only what it removes |
| `RoutingRuns.PerformKeepsValid` | crates/pim-routing/src/table.rs:167-255 | each call the daemon makes keeps the table invariant |
| `RoutingRuns.RunKeepsInvariant` | crates/pim-routing/src/table.rs:147-710 | after any sequence of calls, prefix changes included, the table invariant and the tracking of collisions hold |
| `RoutingRuns.LookupMeshIpIsScan` | crates/pim-routing/src/table.rs:567-574 | in every reachable state a lookup by address returns only routes a scan would find, all of them while the collision counter is zero, and no destination is indexed twice |
| `RoutingRuns.InjectiveDerivationNeverCollides` | crates/pim-routing/src/table.rs:180-206 | with a fixed prefix and a derivation injective on the nodes involved, no history ever counts a collision |
| `RoutingRuns.InjectiveLookupIsScan` | crates/pim-routing/src/table.rs:567-574 | from a fresh table, with a fixed prefix and an injective derivation, a lookup by address finds exactly the usable routes whose derived address it is |
| `RoutingRuns.LoserWaitsForRefresh` | crates/pim-routing/src/table.rs:180-219 | a concrete history in which the loser of a collision stays unreachable by address after the winner left, until its route is inserted again |
| `RoutingRuns.RefreshEvictsWinner` | crates/pim-routing/src/table.rs:180-206 | a concrete history in which, after a prefix change, refreshing the loser removes the index entry of the live winner |
| `RoutingRuns.RecordedStrictlyIncrease` | crates/pim-routing/src/table.rs:263-292 | in every history the sequence numbers recorded from a peer strictly increase until the peer is removed |
| `RoutingRuns.RemovalForgetsSequence` | crates/pim-routing/src/table.rs:251-255 | right after a peer is removed, every frame of its own with a positive number is fresh again |
| `RoutingRuns.RemovalAcceptsAgain` | crates/pim-routing/src/table.rs:251-292 | a frame accepted once is accepted again after its sender was removed, whatever was accepted in between |
| `RoutingRuns.SequenceCountsFrames` | crates/pim-routing/src/table.rs:463-470 | in every history from a new table its sequence number is how many frames it has generated |
| `RoutingRuns.MinorCallExactly` | crates/pim-routing/src/table.rs:167-672 | generating, pardoning, setting prefix or address, and reporting load or latency change exactly one thing; load and latency only on a gateway's route |
| `RoutingRuns.PardonRestoresExactly` | crates/pim-routing/src/table.rs:531-564 | blacklisting hides exactly what was reached through the peer, and pardoning it makes its remaining routes usable again |
| `RoutingRuns.BlacklistedSenderTakesExactly` | crates/pim-routing/src/table.rs:263-455 | an update from a blacklisted peer makes a successful lookup fail if and only if it offers a strictly shorter path |
| `RoutingRuns.BlacklistedSenderTakesRoute` | crates/pim-routing/src/table.rs:531-538 | a concrete history in which a blacklisted node announces itself and the lookup that found a way around fails |
| `RoutingRuns.LongerRouteIsUnreported` | crates/pim-routing/src/table.rs:386-427 | a concrete history in which a route through the sender gets longer and the update is reported as no change |
| `RoutingRuns.RepeatedLineIsReported` | crates/pim-routing/src/table.rs:338-430 | a concrete frame with repeated lines that is reported as a change though every route ends as it was |
| `RoutingEngine.RoutingTable.constructor` | crates/pim-routing/src/table.rs:147-161 | a new table is empty and satisfies the invariant |
| `RoutingEngine.RoutingTable.SetIpv4Prefix` | crates/pim-routing/src/table.rs:167-169 | only the prefix changes |
| `RoutingEngine.RoutingTable.SetSelfMeshIp` | crates/pim-routing/src/table.rs:222-224 | only the own address changes |
| `RoutingEngine.RoutingTable.InsertRoute` | crates/pim-routing/src/table.rs:180-206 | routes, index and collision counter after an insertion |
| `RoutingEngine.RoutingTable.RemoveRoute` | crates/pim-routing/src/table.rs:211-219 | removes the route and only the index entry it owns, and returns the route |
| `RoutingEngine.RoutingTable.RemoveEach` | crates/pim-routing/src/table.rs:676-710 | removing routes one at a time in any order equals removing them together |
| `RoutingEngine.RoutingTable.AddPeer` | crates/pim-routing/src/table.rs:227-248 | equals the value-level step for every argument; keeps the invariant if and only if the peer is another node |
| `RoutingEngine.RoutingTable.RemoveRoutesVia` | crates/pim-routing/src/table.rs:695-710 | removes exactly the routes through the peer; reports a change if and only if there was one |
| `RoutingEngine.RoutingTable.RemovePeer` | crates/pim-routing/src/table.rs:251-255 | forgets the peer, its sequence number and all routes through it; the report is exact |
| `RoutingEngine.RoutingTable.BlacklistPeer` | crates/pim-routing/src/table.rs:534-538 | blacklists the peer and drops the routes through it; the report is exact |
| `RoutingEngine.RoutingTable.UnblacklistPeer` | crates/pim-routing/src/table.rs:541-543 | only the blacklist changes |
| `RoutingEngine.RoutingTable.ExpireStale` | crates/pim-routing/src/table.rs:676-692 | removes exactly the routes not refreshed in time; the report is exact |
| `RoutingEngine.RoutingTable.UpdateGatewayLoad` | crates/pim-routing/src/table.rs:651-660 | changes the load of an installed gateway route only |
| `RoutingEngine.RoutingTable.UpdateGatewayRtt` | crates/pim-routing/src/table.rs:663-672 | changes the latency of an installed gateway route only |
| `RoutingEngine.RoutingTable.FindSuspicious` | crates/pim-routing/src/table.rs:284-291 | finds a zero-hop claim for a node other than the sender if and only if there is one |
| `RoutingEngine.RoutingTable.RelaxEntry` | crates/pim-routing/src/table.rs:338-430 | one pass of the relaxation loop equals the value-level step, and so does its report |
| `RoutingEngine.RoutingTable.ApplyUpdate` | crates/pim-routing/src/table.rs:263-455 | the three loops equal the value-level update for every frame and sender, report the same result, and keep the invariant for every sender but the node itself |
| `RoutingEngine.RoutingTable.ApplyAccepted` | crates/pim-routing/src/table.rs:316-455 | touching the sender, relaxing and withdrawing, with the report they add up to |
| `RoutingEngine.RoutingTable.GenerateAdvertisement` | crates/pim-routing/src/table.rs:463-510 | the frame lists the node itself and every other route once, poisoned towards the peer it was learned from |
| `RoutingEngine.RoutingTable.GenerateAllAdvertisements` | crates/pim-routing/src/table.rs:514-523 | one frame for each direct peer, with consecutive sequence numbers |
| `RoutingEngine.RoutingTable.Lookup` | crates/pim-routing/src/table.rs:556-564 | the next hop of a live route that is not blacklisted |
| `RoutingEngine.RoutingTable.LookupMeshIp` | crates/pim-routing/src/table.rs:567-574 | the indexed destination and its next hop unless blacklisted |
| `Mesh.AdvertisementIsBacked` | crates/pim-routing/src/table.rs:463-510 | every finite distance in a generated frame is the length of a walk from its origin |
| `Mesh.UpdateIsBacked` | crates/pim-routing/src/table.rs:263-455 | applying a backed frame installs only backed routes |
| `Mesh.LocalIsBacked` | crates/pim-routing/src/table.rs:227-255 | every local call keeps all routes backed |
| `Mesh.StepIsSound` | crates/pim-routing/src/table.rs:227-523 | every step of the asynchronous network keeps all tables well formed and all routes and frames backed by walks |
| `Mesh.NoPhantomRoutes` | crates/pim-routing/src/table.rs:227-523 | in every state of every asynchronous run a route of h hops has 1 <= h <= 15 and is witnessed by a walk of exactly h once-registered links starting at its next hop |
| `LoopFreedom.DeliveryLoopsExactly` | crates/pim-routing/src/table.rs:338-430 | a delivery makes two nodes point at each other if and only if the receiver is already the sender's next hop and the stale line still offers it an acceptable path |
| `LoopFreedom.ExchangeClosesNoLoop` | crates/pim-routing/src/table.rs:478-497 | an advertisement applied at once never closes a two-node loop |
| `LoopFreedom.StepKeepsLoopFree` | crates/pim-routing/src/table.rs:227-523 | every step of the network with atomic exchanges keeps it free of two-node loops |
| `LoopFreedom.TwoNodeLoopFreedom` | crates/pim-routing/src/table.rs:13-18 | in every state of every such run no two nodes have each other as next hop for one destination |
| `LoopFreedom.InFlightFramesCloseALoop` | crates/pim-routing/src/table.rs:13-18 | a concrete asynchronous history that ends with two nodes pointing at each other |
| `Rounds.LineOfAdvertisement` | crates/pim-routing/src/table.rs:463-510 | what a generated frame says about each destination |
| `Rounds.OwnLineOfAdvertisement` | crates/pim-routing/src/table.rs:463-510 | a frame carries the next sequence number, starts with the sender itself at zero hops with its own gateway flag and address, says nothing of the receiver, and has one line for every other route |
| `Rounds.AdvertisementIsAccepted` | crates/pim-routing/src/table.rs:263-292 | a generated frame that is fresh is never taken for suspicious |
| `Rounds.DeliveryIsBooked` | crates/pim-routing/src/table.rs:263-455 | a frame of this round from a neighbour not heard yet is always accepted and recorded |
| `Rounds.BooksBalance` | crates/pim-routing/src/table.rs:263-292 | after a round no recorded sequence number is ahead of its sender |
| `Rounds.AdvertisementExists` | crates/pim-routing/src/table.rs:463-510 | every well-formed table can generate an advertisement for every peer |
| `Rounds.RoundExists` | crates/pim-routing/src/table.rs:463-523 | from every steady network there is a round |
| `Convergence.HeardRouteIsShortest` | crates/pim-routing/src/table.rs:338-448 | hearing a neighbour that knows all shortest paths up to a radius yields a shortest path or nothing |
| `Convergence.HearingMakesProgress` | crates/pim-routing/src/table.rs:263-455 | one delivery keeps all routes shortest and adds exactly the destinations that neighbour discloses |
| `Convergence.HeardAllConverges` | crates/pim-routing/src/table.rs:263-455 | having heard every neighbour, the table holds exactly one more ring of destinations |
| `Convergence.RoundAdvances` | crates/pim-routing/src/table.rs:263-523 | a round takes a network exact up to radius r to one exact up to min(r+1, 15) |
| `Convergence.StartsAtOne` | crates/pim-routing/src/table.rs:227-248 | fresh tables told of their neighbours hold exactly the direct neighbours |
| `Convergence.ConvergesToShortestPaths` | crates/pim-routing/src/table.rs:227-523 | after k rounds each table holds exactly the destinations at distance 1 to min(k+1, 15), with shortest lengths and next hops one hop closer |
| `GatewayFlags.SenderFlagExactly` | crates/pim-routing/src/table.rs:316-336 | after a frame of a neighbour is accepted, its route carries its gateway flag if it was known before, and none if it was not |
| `GatewayFlags.RoundTells` | crates/pim-routing/src/table.rs:463-510 | after a round every route carries the flag its next hop held for that destination at the start of the round |
| `GatewayFlags.GatewayFlagsSpread` | crates/pim-routing/src/table.rs:227-523 | in the runs of convergence, after k rounds every route to a node at distance 1 to min(k, 15) carries that node's own gateway flag |
| `Stabilisation.HearingOutcome` | crates/pim-routing/src/table.rs:263-510 | for any tables the effect of a generated frame on one destination is to adopt the offer, drop the route or keep it, by the offer and the current path alone |
| `Stabilisation.RoundSources` | crates/pim-routing/src/table.rs:263-523 | after a round from any tables every route goes through a neighbour and is one hop longer than that neighbour offered |
| `Stabilisation.RoutesAge` | crates/pim-routing/src/table.rs:263-523 | a route shorter than the true distance gains at least one hop in every round |
| `Stabilisation.OffersAreFair` | crates/pim-routing/src/table.rs:463-497 | poison reverse never hides a shortest path from a node that needs it |
| `Stabilisation.RoundCorrects` | crates/pim-routing/src/table.rs:263-523 | once no route is too short, each round makes one more ring of destinations exact |
| `Stabilisation.StaleRoutesAgeOut` | crates/pim-routing/src/table.rs:263-523 | after 15 rounds from any well-formed tables every installed route leads to a reachable destination and claims no less than its distance |
| `Stabilisation.RecoversShortestPaths` | crates/pim-routing/src/table.rs:263-523 | after 31 rounds from any well-formed tables every table holds exactly the destinations at distance 1 to 15 with shortest paths |
| `Stabilisation.RecoveryExists` | crates/pim-routing/src/table.rs:263-523 | every network that is ready has a run of any number of rounds |
| `Stabilisation.AnyHistoryIsReady` | crates/pim-routing/src/table.rs:227-523 | every state of every asynchronous run whose peers and next hops match the links meets what recovery asks for |
| `LinkChanges.OrphanStaysExactly` | crates/pim-routing/src/table.rs:263-523 | a route through a node that is no longer heard survives a round if and only if no neighbour offers a strictly shorter path; otherwise a shorter route replaces it |
| `LinkChanges.ReconnectedMatches` | crates/pim-routing/src/table.rs:227-255 | after removing lost peers and adding new ones, in any order, the table's peers and next hops match the new links and no recorded sequence number grew |
| `LinkChanges.ReconnectedIsReady` | crates/pim-routing/src/table.rs:227-255 | a network that has followed a change of its links so is ready to recover |
| `LinkChanges.RecoversAfterLastChange` | crates/pim-routing/src/table.rs:227-523 | through any sequence of rounds and link changes from fresh tables, 31 rounds after the last change every table holds exactly the shortest paths of the current links |
| `PortPool.AllocationIsUnique` | crates/pim-gateway/src/engine.rs:120-140 | the first free port in cyclic order and the pool after taking it are unique |
| `PortPool.FailsExactlyWhenFull` | crates/pim-gateway/src/engine.rs:120-140 | allocation fails if and only if all 30000 ports are in use |
| `PortPool.PoolIsBounded` | crates/pim-gateway/src/engine.rs:104-118 | at most 30000 ports are ever in use, and 30000 if and only if every port of the range is |
| `PortPool.PortsInLiteralRange` | crates/pim-gateway/src/engine.rs:104-140 | every allocated port lies from 30000 to 59999 |
| `PortPool.FreedPortComesBack` | crates/pim-gateway/src/engine.rs:120-144 | a released port can be allocated again: it is the next one handed out when all others are taken |
| `PortPool.PortPoolV4.constructor` | crates/pim-gateway/src/engine.rs:113-118 | an empty pool starting at port 30000 |
| `PortPool.PortPoolV4.Allocate` | crates/pim-gateway/src/engine.rs:120-140 | the loop back to the start returns the first free port in cyclic order, or nothing and no change |
| `PortPool.PortPoolV4.Release` | crates/pim-gateway/src/engine.rs:142-144 | the port becomes free and the search position stays |
| `PortPool.PortPoolV6.constructor` | crates/pim-gateway/src/ipv6.rs:53-58 | an empty pool starting at port 30000 |
| `PortPool.PortPoolV6.Allocate` | crates/pim-gateway/src/ipv6.rs:60-74 | the counted attempts return the same port and reach the same pool as the other allocator |
| `PortPool.PortPoolV6.Release` | crates/pim-gateway/src/ipv6.rs:76-78 | the port becomes free and the search position stays |
| `Conntrack.TrackKeepsBijective` | crates/pim-gateway/src/ipv6.rs:109-152 | looking up or opening a flow, also when the pool is full, keeps both maps mutually inverse and the used ports those of live entries |
| `Conntrack.ResolveKeepsBijective` | crates/pim-gateway/src/ipv6.rs:155-181 | resolving a reply, found or not, keeps the bijection |
| `Conntrack.CleanupKeepsBijective` | crates/pim-gateway/src/ipv6.rs:184-206 | a sweep keeps the bijection |
| `Conntrack.BijectiveCounts` | crates/pim-gateway/src/engine.rs:200-300 | entries in both maps and ports in use are equally many, at most 30000 |
| `Conntrack.BijectiveForever` | crates/pim-gateway/src/engine.rs:200-300 | the bijection and the equal counts hold after any prefix of any sequence of outbound, inbound and cleanup events from the empty table |
| `Conntrack.StepKeepsPort` | crates/pim-gateway/src/ipv6.rs:109-206 | a flow disappears only in a sweep that finds it expired, and never changes its port |
| `Conntrack.PortIsKept` | crates/pim-gateway/src/ipv6.rs:109-206 | a flow keeps the port it was given for as long as it stays tracked, whatever other flows do |
| `Conntrack.ReplyFindsFlow` | crates/pim-gateway/src/ipv6.rs:155-181 | in every such later state a reply to that port finds the original node, address and port |
| `Conntrack.TimelySweepsKeepFlow` | crates/pim-gateway/src/ipv6.rs:184-206 | a flow survives every sweep within its idle timeout |
| `Conntrack.SweepForgetsExactly` | crates/pim-gateway/src/ipv6.rs:184-206 | a sweep keeps a flow, unchanged and with its port, if and only if it was idle for at most the limit of its protocol, 300, 30, 10 or 30 seconds; otherwise its port and reverse entry are gone too |
| `Conntrack.LastSeenIsLastUse` | crates/pim-gateway/src/ipv6.rs:109-181 | while a flow is tracked its time is that of its last outbound packet or resolved reply, whatever other flows do |
| `Conntrack.IdleFlowIsSwept` | crates/pim-gateway/src/ipv6.rs:184-206 | in every history a sweep keeps an open flow if and only if its last use is at most the limit ago, and the port and the reverse entry exactly with it |
| `Conntrack.QuietFlowIsGone` | crates/pim-gateway/src/ipv6.rs:184-206 | in every history a flow that is not used after it was opened is gone after any sweep later than its limit |
| `Conntrack.GoneStaysGone` | crates/pim-gateway/src/ipv6.rs:109-206 | a flow that is gone stays gone until it sends again |
| `Checksum.Fold` | crates/pim-gateway/src/ipv6.rs:420-425 | folding ends below 65536, keeps the sum modulo 65535 and gives zero only for zero |
| `Checksum.StoredChecksumVerifies` | crates/pim-gateway/src/ipv6.rs:377-425 | storing the complement of the folded sum at an even offset makes the data verify |
| `Checksum.VerifiesExactly` | crates/pim-gateway/src/ipv6.rs:407-425 | data verifies if and only if its word sum is a positive multiple of 65535 |
| `Checksum.WordSumBound` | crates/pim-gateway/src/ipv6.rs:407-418 | the word sum of n bytes is at most 65535 for each started pair of bytes |
| `Checksum.WordSumIsByteSum` | crates/pim-gateway/src/ipv6.rs:407-418 | the sum is that of the even bytes times 256 and the odd bytes |
| `Checksum.WorkedExample` | crates/pim-gateway/src/ipv6.rs:407-425 | the checksum of the example of section 3 of RFC 1071 |
| `Checksum.OnesComplementSum` | crates/pim-gateway/src/ipv6.rs:407-418 | the 32-bit accumulator computes the word sum without overflow for up to 131074 bytes, odd lengths included |
| `Checksum.FoldChecksum` | crates/pim-gateway/src/ipv6.rs:420-425 | the folding loop terminates with the complement of the folded sum |
| `NatPackets.TransportChecksumVerifies` | crates/pim-gateway/src/ipv6.rs:377-405 | with the computed checksum stored, pseudo-header and segment verify |
| `NatPackets.RewriteIsCorrect` | crates/pim-gateway/src/ipv6.rs:321-375 | a rewrite succeeds if and only if the packet is long enough for its protocol; then it has the new address and port, verifies, and no other byte changed |
| `NatPackets.FlowBytes` | crates/pim-gateway/src/ipv6.rs:275-319 | flow and error of any packet, read from bytes 0, 6, 8 to 24 and 40 to 42, or 44 to 46 for ICMPv6 |
| `NatPackets.ReplyPortBytes` | crates/pim-gateway/src/ipv6.rs:301-319 | the port a reply is looked up by is read from bytes 42 to 44, or 44 to 46 for ICMPv6 |
| `NatPackets.RewritableBytes` | crates/pim-gateway/src/ipv6.rs:321-405 | which packets can be rewritten, by length, version and protocol byte |
| `NatPackets.ChecksumErrorBytes` | crates/pim-gateway/src/ipv6.rs:377-395 | when a checksum cannot be stored, and the error, by length and protocol |
| `NatPackets.SourceRewriteBytes` | crates/pim-gateway/src/ipv6.rs:321-355 | a source rewrite puts address and port into bytes 8 to 24 and 40 to 42, or 44 to 46 for ICMPv6, makes the checksum over source, destination, length, protocol and payload verify, and changes nothing else but the checksum field |
| `NatPackets.DestinationRewriteBytes` | crates/pim-gateway/src/ipv6.rs:329-375 | a destination rewrite does so with bytes 24 to 40 and 42 to 44, or 44 to 46 |
| `NatPackets.RecalculateChecksum` | crates/pim-gateway/src/ipv6.rs:377-405 | stores the transport checksum in place, or names the error for a short packet or an unsupported protocol and leaves it untouched |
| `NatPackets.RewriteInPlace` | crates/pim-gateway/src/ipv6.rs:321-375 | the in-place rewrite, with what it has already written when it fails part-way |
| `Gateway.OutboundIsMasqueraded` | crates/pim-gateway/src/ipv6.rs:109-152 | an outbound packet is sent if and only if it can be rewritten and its flow has a port; it then comes from the external address and that port, verifies, and is otherwise unchanged |
| `Gateway.RefusalOpensExactly` | crates/pim-gateway/src/ipv6.rs:109-152 | a refused outbound packet changes the engine if and only if it can be parsed but not rewritten and its flow is new with a port free, or known and used at a new time |
| `Gateway.ShortTcpOpensFlow` | crates/pim-gateway/src/ipv6.rs:109-152 | a concrete TCP packet of 44 bytes is refused by a fresh engine and leaves its flow open |
| `Gateway.CallHasEffect` | crates/pim-gateway/src/ipv6.rs:109-206 | each call, failing or not, moves the engine by its effect on the connection table and keeps it well formed |
| `Gateway.RunIsHistory` | crates/pim-gateway/src/ipv6.rs:109-206 | after any calls the engine's connection table is the one the calls' effects lead to |
| `Gateway.EngineStaysBijective` | crates/pim-gateway/src/ipv6.rs:109-206 | the bijection and equal counts hold after any calls on any packets |
| `Gateway.ReplyReachesSender` | crates/pim-gateway/src/ipv6.rs:109-206 | once a flow was given port p, in every later state in which it has not expired a well-formed reply to p is rewritten to the flow's address and port, verifies, and is handed to the flow's node |
| `Gateway.OutboundBytes` | crates/pim-gateway/src/ipv6.rs:109-152 | an outbound packet that is let out has the gateway's address and a port from 30000 to 59999 in its source bytes, a valid checksum, and is otherwise unchanged |
| `Gateway.InboundBytes` | crates/pim-gateway/src/ipv6.rs:155-181 | an inbound packet is accepted if and only if its destination bytes name a tracked port; it then carries the address and port of that flow in its destination bytes |
| `Gateway.ReplyComesHome` | crates/pim-gateway/src/ipv6.rs:109-181 | in every history a reply sent to the source port of a translated packet gets back the original source address and port, byte for byte, and goes to the node that sent it, while the flow has not expired |
| `Gateway.FirstFlowGets30000` | crates/pim-gateway/src/ipv6.rs:53-74 | the first packet of a new engine leaves from port 30000 |
| `Gateway.CleanupRemovesExactly` | crates/pim-gateway/src/engine.rs:281-300 | in either engine a cleanup keeps a flow if and only if it was idle for at most 300 s (TCP), 30 s (UDP), 10 s (echo) or 30 s (others), and frees the ports of the others |
| `Gateway.EngineForgetsIdleFlow` | crates/pim-gateway/src/ipv6.rs:184-206 | in every history of the engine a flow that neither sends nor is replied to within its limit is gone after the next cleanup |
| `Gateway.FlowSurvivesTimelySweeps` | crates/pim-gateway/src/ipv6.rs:184-206 | a flow does not expire while every sweep comes within its idle timeout |
| `Gateway.GatewayEngine.constructor` | crates/pim-gateway/src/engine.rs:178-196 | empty maps and an empty pool |
| `Gateway.GatewayEngine.TrackOutbound` | crates/pim-gateway/src/engine.rs:200-238 | map and pool changes of an outbound packet, keeping the bijection |
| `Gateway.GatewayEngine.FindOrOpen` | crates/pim-gateway/src/engine.rs:209-227 | looks the flow up or opens it with a port of the pool, for any maps |
| `Gateway.GatewayEngine.ResolveInbound` | crates/pim-gateway/src/engine.rs:247-276 | map changes of an inbound packet, keeping the bijection |
| `Gateway.GatewayEngine.CleanupExpired` | crates/pim-gateway/src/engine.rs:281-300 | removes exactly the expired flows from both maps and frees their ports |
| `Gateway.GatewayEngineV6.constructor` | crates/pim-gateway/src/ipv6.rs:96-106 | empty maps and an empty pool |
| `Gateway.GatewayEngineV6.TrackOutbound` | crates/pim-gateway/src/ipv6.rs:109-152 | map and pool changes of an outbound packet |
| `Gateway.GatewayEngineV6.TranslateOutbound` | crates/pim-gateway/src/ipv6.rs:109-152 | result, packet and state of an outbound call, error paths included |
| `Gateway.GatewayEngineV6.TranslateInbound` | crates/pim-gateway/src/ipv6.rs:155-181 | result, packet and state of an inbound call, error paths included |
| `Gateway.GatewayEngineV6.CleanupExpired` | crates/pim-gateway/src/ipv6.rs:184-206 | removes exactly the expired flows from both maps and frees their ports |
| `Fragments.WireRoundTrip` | crates/pim-protocol/src/fragment_frame.rs:37-69 | decoding an encoded fragment returns it if it stays within its packet and refuses it otherwise |
| `Bytes.Be16Bytes` | crates/pim-protocol/src/fragment_frame.rs:37-48 | a 16-bit field is written highest byte first |
| `Bytes.Be32Bytes` | crates/pim-protocol/src/fragment_frame.rs:37-48 | a 32-bit field is written highest byte first |
| `Fragments.WireFormat` | crates/pim-protocol/src/fragment_frame.rs:37-48 | the bytes of a fragment: identifier, offset and total length, highest byte first, then the payload |
| `Fragments.FragmentPacket` | crates/pim-protocol/src/fragment_frame.rs:82-103 | the fragments are the 1200-byte slices in order, and their payloads joined are the packet |
| `Fragments.FragmentFormat` | crates/pim-protocol/src/fragment_frame.rs:82-103 | fragment k of a packet of up to 65535 bytes carries up to 1200 bytes from offset 1200 k and names the whole length |
| `Reassembly.SlicesReassemble` | crates/pim-protocol/src/reassembler.rs:50-87 | if all chunks are slices of one packet, overlapping or not, a complete set gives back that packet |
| `Reassembly.TryReassemble` | crates/pim-protocol/src/reassembler.rs:50-87 | for arbitrary chunks returns a packet if and only if every byte is covered and nothing passes the end; each byte is then that of the last chunk covering it |
| `Reassembly.CheckCoverage` | crates/pim-protocol/src/reassembler.rs:50-76 | the running maximum finds a gap if and only if there is one |
| `Reassembly.CopyChunks` | crates/pim-protocol/src/reassembler.rs:78-86 | copying in offset order leaves at each byte the chunk with the largest offset covering it |
| `Reassembly.Reassembler.constructor` | crates/pim-protocol/src/reassembler.rs:117-122 | no buffers and the given timeout |
| `Reassembly.Reassembler.Insert` | crates/pim-protocol/src/reassembler.rs:128-147 | new buffers and result for any fragment, mismatching totals included |
| `Reassembly.Reassembler.ExpireStale` | crates/pim-protocol/src/reassembler.rs:151-154 | drops exactly the buffers older than the timeout |
| `Reassembly.InsertExactly` | crates/pim-protocol/src/reassembler.rs:128-147 | a fragment touches only the buffer of its identifier: refused if the total differs, added unless its offset is taken, and the buffer gone when the packet is complete |
| `Reassembly.SweepDropsExactly` | crates/pim-protocol/src/reassembler.rs:151-154 | a buffer is kept, unchanged, if and only if it is younger than the timeout |
| `Reassembly.ChunksComplete` | crates/pim-protocol/src/reassembler.rs:50-87 | the slices received so far are complete if and only if every fragment was seen |
| `Reassembly.FragmentAdvances` | crates/pim-protocol/src/reassembler.rs:128-147 | one more fragment either completes the packet and frees the buffer or is kept without output |
| `Reassembly.ReassemblesInAnyOrder` | crates/pim-protocol/src/reassembler.rs:128-147 | fragments sent over the wire in any order, with duplicates, foreign fragments and sweeps in between, give nothing until the last distinct one and then exactly the packet |
| `SendBuffer.PartitionPoint` | crates/pim-daemon/src/send_buffer.rs:76-104 | the insertion point: everything before it goes first, the element at it does not |
| `SendBuffer.PeerBuffer.constructor` | crates/pim-daemon/src/send_buffer.rs:68-74 | empty buffer |
| `SendBuffer.PeerBuffer.RetainLive` | crates/pim-daemon/src/send_buffer.rs:76-80 | keeps exactly the frames that are not too old, in order |
| `SendBuffer.PeerBuffer.Push` | crates/pim-daemon/src/send_buffer.rs:76-104 | buffer after dropping old frames, evicting or refusing, and inserting |
| `SendBuffer.PeerBuffer.Drain` | crates/pim-daemon/src/send_buffer.rs:107-115 | returns the live frames in order and empties the buffer |
| `SendBuffer.PeerBuffer.Expire` | crates/pim-daemon/src/send_buffer.rs:118-125 | keeps the live frames and counts the others |
| `SendBuffer.PushKeepsOrder` | crates/pim-daemon/src/send_buffer.rs:76-104 | a push keeps the buffer sorted by priority then time, and within capacity |
| `SendBuffer.InsertAppends` | crates/pim-daemon/src/send_buffer.rs:92-104 | an insertion puts a frame behind all others of its priority |
| `SendBuffer.EvictionKeepsMostUrgent` | crates/pim-daemon/src/send_buffer.rs:82-91 | evicting the last or refusing the newcomer keeps the most urgent of all frames seen |
| `SendBuffer.RunKeepsOrder` | crates/pim-daemon/src/send_buffer.rs:76-125 | in every run with expiry and drains the buffer is sorted, within capacity, and holds each priority's frames in arrival order |
| `SendBuffer.DrainIsOrdered` | crates/pim-daemon/src/send_buffer.rs:107-115 | a drain lists the live frames by priority and within a priority in arrival order |
| `SendBuffer.KeepsMostUrgent` | crates/pim-daemon/src/send_buffer.rs:76-104 | without expiry the buffer holds min(capacity, n) of the n frames pushed since the last drain, none less urgent than one left out |
| `SendBuffer.TieReplacesNewest` | crates/pim-daemon/src/send_buffer.rs:82-104 | when the buffer is full, a frame as urgent as the worst one takes the place of the newest of those |
| `SendBuffer.KeepsOldest` | crates/pim-daemon/src/send_buffer.rs:76-104 | without expiry the buffer holds, of each priority, the oldest frames pushed, except that the last place may have gone to one pushed later, and all of them while there is room or something less urgent in it |
| `SendBuffer.DrainServesUrgentTypesFirst` | crates/pim-daemon/src/send_buffer.rs:31-40 | with frames pushed at the priority of their type, a drain never lists a frame before one of a more urgent type |
| `Calendar.ClosedFormSteps` | crates/pim-daemon/src/rpc.rs:800-812 | on all integers the closed form of the next day is the calendar's next day |
| `Calendar.ClosedFormIsDate` | crates/pim-daemon/src/rpc.rs:800-812 | the closed form is the n-th day after 1970-01-01 |
| `Calendar.CountYears` | crates/pim-bluetooth/src/rfcomm/mod.rs:361-369 | the year loop stops at the year containing the day |
| `Calendar.CountMonths` | crates/pim-bluetooth/src/rfcomm/mod.rs:370-392 | the month loop stops at the month containing the day |
| `Calendar.CountDays` | crates/pim-bluetooth/src/rfcomm/mod.rs:355-398 | both loops together give the n-th day after 1970-01-01 |
| `Calendar.YmdhmsFromUnix` | crates/pim-bluetooth/src/rfcomm/mod.rs:355-398 | date and time of a Unix timestamp, equal to the other conversion while the year fits 31 bits |
| `Calendar.ConversionsAgree` | crates/pim-daemon/src/rpc.rs:783-812 | the two conversions give the same six fields if and only if the 32-bit year is below 2^31 |
| `Calendar.CastsKeepLowBits` | crates/pim-daemon/src/rpc.rs:800-812 | the casts of the year keep its low 32 bits |
| `Framing.EncodeFrame` | crates/pim-bluetooth/src/rfcomm/frame.rs:23-38 | length prefix and payload, or the error for an empty or too long payload |
| `Framing.DecodeFrames` | crates/pim-bluetooth/src/rfcomm/frame.rs:43-67 | all complete frames, the undecoded rest and the error that stopped decoding |
| `Framing.ReceiveFrames` | crates/pim-bluetooth/src/rfcomm/session.rs:116-151 | the receive loop hands over the frames of every read up to the first one with a bad length |
| `Framing.EncodeInto` | crates/pim-protocol/src/length_delimited.rs:16-19 | appends length prefix and payload |
| `Framing.DecodeNext` | crates/pim-protocol/src/length_delimited.rs:27-48 | takes exactly one frame off the buffer, or leaves it untouched |
| `Framing.DecodeAvailable` | crates/pim-protocol/src/length_delimited.rs:27-48 | calling the decoder until it has nothing yields the same frames as the other decoder would under the same limits |
| `Framing.DecodeAppended` | crates/pim-bluetooth/src/rfcomm/frame.rs:43-67 | decoding a longer stream continues where decoding the shorter one stopped |
| `Framing.ChunkingIsIrrelevant` | crates/pim-protocol/src/length_delimited.rs:27-48 | for arbitrary bytes, bad lengths included, a receiver that takes frames one by one gets the same frames, rest and error however the stream is cut |
| `Framing.BluetoothDeliversExactly` | crates/pim-bluetooth/src/rfcomm/frame.rs:43-67 | for arbitrary bytes and reads the Bluetooth receiver reports the error of the stream, and hands over all its frames if and only if the read in which a bad length comes up completes no frame |
| `Framing.BadLengthTakesFramesAlong` | crates/pim-bluetooth/src/rfcomm/frame.rs:43-67 | a frame and a bad length in one read hand over nothing; in two reads the frame arrives |
| `Framing.DecodesEncodings` | crates/pim-bluetooth/src/rfcomm/frame.rs:23-67 | decoding the concatenated encodings of legal payloads gives them back with nothing left |
| `Framing.PayloadsSurviveAnyChunking` | crates/pim-protocol/src/length_delimited.rs:16-48 | every way of cutting those encodings into reads delivers exactly the payloads in order and leaves an empty buffer |
| `Framing.BluetoothPayloadsSurviveAnyChunking` | crates/pim-bluetooth/src/rfcomm/frame.rs:23-67 | the same for the Bluetooth receiver and every list of payloads its encoder accepts |
| `Framing.DecodableExactly` | crates/pim-protocol/src/length_delimited.rs:16-48 | a payload of any length that the TCP encoder accepts is decoded again if and only if it has at most 1048576 bytes |
| `Framing.FrameFormat` | crates/pim-bluetooth/src/rfcomm/frame.rs:23-38 | a frame is the payload length in four bytes, highest first, and the payload |
| `Framing.BluetoothDecodableExactly` | crates/pim-bluetooth/src/rfcomm/frame.rs:23-67 | the Bluetooth decoder returns an encoded payload if and only if it has 1 to 65536 bytes, and names the error otherwise |
| `Framing.TooLargeIsNamed` | crates/pim-protocol/src/length_delimited.rs:27-48 | the TCP decoder refuses a payload of more than 1048576 bytes and names its length |
| `Framing.BadLengthEndsStream` | crates/pim-bluetooth/src/rfcomm/frame.rs:43-67 | frames before a bad length are decoded and the bad header stays in the buffer |
| `Session.SessionCipher.constructor` | crates/pim-crypto/src/session.rs:37-45 | counter zero and no frame received |
| `Session.SessionCipher.Encrypt` | crates/pim-crypto/src/session.rs:48-66 | the frame for the current counter, or exhaustion; the counter advances and wraps |
| `Session.SessionCipher.Decrypt` | crates/pim-crypto/src/session.rs:72-94 | replay check, authentication and counter update, in that order |
| `Session.LastIsMaximum` | crates/pim-crypto/src/session.rs:72-94 | the stored counter is the largest among authentic frames so far |
| `Session.AcceptedExactly` | crates/pim-crypto/src/session.rs:72-94 | a frame is accepted if and only if it is authentic and its counter exceeds those of all authentic frames before it |
| `Session.CounterIsCallNumber` | crates/pim-crypto/src/session.rs:48-66 | the counter that call i finds, bumped once by every call before it, is i modulo 2^32 |
| `Session.NoncesRepeatExactly` | crates/pim-crypto/src/session.rs:48-66 | two successful sends use the same nonce if and only if their positions agree modulo 2^32 |
| `Session.ExhaustionComesFirst` | crates/pim-crypto/src/session.rs:48-66 | up to the first exhaustion every send succeeds with its own position as counter |
| `Session.NonceFormat` | crates/pim-crypto/src/session.rs:160-165 | a nonce is the prefix in its first eight bytes and the counter in its last four, highest first |
| `Session.ExhaustedAt` | crates/pim-crypto/src/session.rs:48-66 | of the calls up to number 4294967294 exactly that one is refused |
| `Session.RefusedExactly` | crates/pim-crypto/src/session.rs:72-94 | a frame is a replay if and only if an authentic frame before it had at least its counter, and otherwise fails if and only if it is not authentic |
| `Session.DeliveryExactly` | crates/pim-crypto/src/session.rs:48-94 | under any reordering, loss and duplication, and whichever calls failed, an arriving frame yields the plaintext of its call if and only if it is newer than all that arrived before it, and is a replay otherwise |
| `Session.DeliveryInOrder` | crates/pim-crypto/src/session.rs:72-94 | accepted frames are in sending order without repeats |
| `Session.OrderedDeliveryYieldsAll` | crates/pim-crypto/src/session.rs:48-94 | delivered in order, every frame that arrives yields its plaintext |
| `RateLimiter.TokenBucket.constructor` | crates/pim-daemon/src/rate_limiter.rs:31-38 | a full bucket |
| `RateLimiter.TokenBucket.TryConsume` | crates/pim-daemon/src/rate_limiter.rs:41-53 | refill capped at capacity, then take one token if there is one; tokens stay between 0 and capacity |
| `RateLimiter.PeerLimiter.constructor` | crates/pim-daemon/src/rate_limiter.rs:64-70 | no buckets; well formed if and only if the rate is not negative |
| `RateLimiter.PeerLimiter.Allow` | crates/pim-daemon/src/rate_limiter.rs:73-80 | the peer's own bucket, created full on first use; no other bucket changes |
| `RateLimiter.PeerLimiter.RemovePeer` | crates/pim-daemon/src/rate_limiter.rs:83-85 | forgets the peer's bucket only |
| `RateLimiter.RunKeepsOk` | crates/pim-daemon/src/rate_limiter.rs:41-53 | tokens stay between 0 and capacity in every state of every run |
| `RateLimiter.TokensAccountForCalls` | crates/pim-daemon/src/rate_limiter.rs:41-53 | tokens left plus calls allowed since never exceed capacity plus what was refilled |
| `RateLimiter.WindowBound` | crates/pim-daemon/src/rate_limiter.rs:31-53 | in any window [s, t] at most capacity + rate * (t - s) calls are allowed |
| `RateLimiter.PeerWindowBound` | crates/pim-daemon/src/rate_limiter.rs:73-85 | among any events of other peers, as long as a peer is not removed, at most capacity + rate * (t - s) of its messages are let through in any window [s, t] |
| `RateLimiter.AllowedExactly` | crates/pim-daemon/src/rate_limiter.rs:41-53 | a call is allowed if and only if there is room for a token and what is left and what was refilled since make at least one |
| `RateLimiter.ConsumedExactly` | crates/pim-daemon/src/rate_limiter.rs:41-53 | the tokens a call leaves: what was there and what was refilled, up to the capacity, less one if allowed |
| `RateLimiter.PatientPeerPasses` | crates/pim-daemon/src/rate_limiter.rs:73-85 | among any traffic of others, a message that comes at least 1/rate after the peer's previous one is let through |
| `RateLimiter.BurstPasses` | crates/pim-daemon/src/rate_limiter.rs:73-85 | among any traffic of others, the first `capacity` messages of a newly heard peer are let through |
| `IcmpEcho.ReplyVerifies` | crates/pim-daemon/src/runtime_config.rs:17-83 | both checksums of every reply verify for headers of at least 12 bytes; for 4 bytes the header verifies if and only if that of the request does, and the ICMP part if and only if the header's checksum equals bytes 10 and 11 modulo 65535 |
| `IcmpEcho.HeaderLengths` | crates/pim-daemon/src/runtime_config.rs:17-34 | a packet taken for an echo request declares a header of 4 bytes or of at least 12 |
| `IcmpEcho.AnsweredExactly` | crates/pim-daemon/src/runtime_config.rs:17-34 | which packets are answered, by length, protocol, type and code byte |
| `IcmpEcho.ShortRequestFails` | crates/pim-daemon/src/runtime_config.rs:17-83 | a concrete packet of 28 bytes that declares a header of 4 is answered, and neither part of the reply verifies |
| `IcmpEcho.ReplyMirrorsRequest` | crates/pim-daemon/src/runtime_config.rs:17-83 | for every header length the reply is the request with the two addresses swapped and the type cleared, and differs in nothing else but the two checksum fields |
| `IcmpEcho.IcmpEchoReply` | crates/pim-daemon/src/runtime_config.rs:17-83 | the in-place construction gives that reply, and nothing for any other packet |
| `IcmpEcho.SwapInPlace` | crates/pim-daemon/src/runtime_config.rs:37-40 | the swapping loop exchanges source and destination |
| `IcmpEcho.RenewInPlace` | crates/pim-daemon/src/runtime_config.rs:42-82 | zeroing, summing and storing a checksum over part of the packet |

## Left out

Within the modelled files:

- Choosing a gateway (`best_gateway_entry`, `gateway_score` and the gateway listings): a read-only query that does not feed back into the routes.
- Sequence numbers and the collision counter are unbounded naturals; their 64-bit limit is not modelled.
- Mesh addresses are derived by an arbitrary function and an unspecified address is an option. The cross-check of advertised addresses is dropped, because it only writes to the log.
- Node ids, addresses and prefixes are opaque values; clocks are parameters.
- RoutingProperties.ChangedExactly: covers frames with distinct destinations, as `generate_advertisement` produces them; for repeated destinations only `ReportedIsChanged` holds, and `RepeatedLineIsReported` shows why.
- RoutingProperties.UpdateFieldByField: covers frames with distinct destinations, for the same reason.
- RoutingProperties.SenderFieldByField: covers frames with distinct destinations, for the same reason.
- RouteAges.AgeExactly: covers frames with distinct destinations, for the same reason.
- RouteAges.RenewalDecidesExpiry: covers histories of frames with distinct destinations, for the same reason.
- Stabilisation.StaleRoutesAgeOut: asks that next hops are current neighbours; `OrphanStaysExactly` shows what rounds do to other routes, and `RecoversAfterLastChange` needs no such assumption.
- Stabilisation.RecoversShortestPaths: asks the same, for the same reason.
- Convergence and recovery are stated for synchronous rounds; frames left over from before the first round are not delivered in them, and `expire_stale` does not run between rounds.
- Parsing and rewriting of IPv4 packets: `engine/packet.rs` is not part of this model, so the IPv4 engine covers maps and pool only.
- Checksum.OnesComplementSum: covers data of up to 131074 bytes, beyond which the 32-bit sum can overflow; an IPv6 packet has at most 65575.
- NatPackets.RecalculateChecksum: covers packets of up to 131074 bytes, for the same reason.
- NatPackets.RewriteInPlace: covers packets of up to 131074 bytes, for the same reason.
- Gateway.GatewayEngineV6.TranslateOutbound: covers packets of up to 131074 bytes, for the same reason.
- Gateway.GatewayEngineV6.TranslateInbound: covers packets of up to 131074 bytes, for the same reason.
- IcmpEcho.IcmpEchoReply: covers packets of up to 131074 bytes, for the same reason.
- IcmpEcho.RenewInPlace: covers packets of up to 131074 bytes, for the same reason.
- The rule of section 8.1 of RFC 8200 that a computed UDP checksum of zero is sent as 0xFFFF: the code does not implement it.
- Reassembly.ReassemblesInAnyOrder: covers packets of 1 to 65535 bytes; longer ones have their total length cut to 16 bits.
- Calendar.ConversionsAgree: takes 32-bit year arithmetic as wrapping, as in a build without overflow checks; with them, years from 2^31 on abort instead.
- The map from peers to their priority buffers, and the binary search of `partition_point`, modelled as the prefix length it returns.
- The in-place variants of encryption and decryption. The cipher is an arbitrary pair of functions, and concurrent calls are sequential.
- RateLimiter.PeerWindowBound: counts in exact reals, not in `f64`, and between removals of the peer, each of which starts a new bucket.
- RateLimiter.WindowBound: counts in exact reals, not in `f64`.
- RateLimiter.PatientPeerPasses: counts in exact reals, not in `f64`.
- RateLimiter.BurstPasses: counts in exact reals, not in `f64`.

Elsewhere in the repository:

- Sockets, TUN devices, Bluetooth and Wi-Fi Direct control, firewall commands and JNI: effects outside the process.
- JSON-RPC dispatch, configuration, storage, messaging, CLI and logging: they pass data between libraries and keep none of the state modelled here.
- Handshake, heartbeat, control, discovery and route-frame codecs: fixed layouts whose frames enter the model as values.
- Reputation scores, backoff, reconnection and timers: they decide when the modelled calls happen, which the runs leave arbitrary.
- The cryptographic strength of the primitives.
