# Midscale in Dafny

Midscale is a WireGuard control plane (`backend/app`) with a client daemon (`midscaled/daemon`). This project models
its algorithmic parts and proves what they keep over every input and every run. `dafny verify dfyconfig.toml` checks
everything.

Code that updates things in place is a class (or a method with a loop) here too. Such a method is proved equal to a
specification function on its old state, and the theorems are lemmas about that function. Values that the program gets
from outside (time, random identifiers, what a socket yields, whether a command's output could be read) are
parameters, and one handler or one call is one atomic step of a run.

## The parts

| part | modules | main results |
|---|---|---|
| planning and forwarding | `Address`, `Topology`, `Forwarding`, `ForwardingCases`, `RouteThieves` | plans are complete and mutual; for any advertised routes, exactly how many hops a packet for another device takes, or that it never arrives, and which packets the receivers accept |
| configuration text | `Text`, `Decimal`, `IniFormat`, `IniPrinter`, `IniParser`, `IniRoundTrip` | the daemon reads back what the backend prints if and only if the configuration is well formed |
| relay wire | `RelayWire`, `RelayServer`, `RelayRuns`, `RelayRegistry`, `RelayClient`, `RelayDelivery` | framing does not depend on chunks; over every run, exactly which devices are registered for which connections, and what each client is handed |
| rate limiter | `RateLimiter` | the deque stands for the full history; a window never holds more than the limit |
| STUN | `Bits`, `Stun` | the exchange returns the address the server saw; which other attributes the client can walk over |
| session lifecycles | `RelaySessions`, `NatSessions`, `EndpointRows`, `PromotionRuns`, `PathPromotion` | gauges, final states and counters over runs; which rows are active, when a promotion raises and when it is preferred; a validated path is the one served |
| endpoint choice | `StableSort`, `Endpoints`, `ConfigV2` | the emitted endpoint is the head of a sorted permutation; exact relay flags |
| reconciliation | `WgController`, `WgRuntime` | convergence, exactly when it holds; applying twice is applying once |
| addresses and names | `Ipam`, `DnsRecords` | distinct hosts over runs, exact capacity; reverse names compose |

The modules named after a part with `Meaning` say the same things without the model's own helper functions: which bytes
and lines are written, which numbers count, and what each step writes into which field.

`PrintedConfigIsApplied` and `ValidatedPathIsServed` join parts: the first goes from the backend's record through the
text to the daemon's interface, the second from a validated NAT session through the endpoint rows to the served
configuration.

## Where the code and its documentation differ, or a law needs a condition

The model follows the code; each law below is proved with its exact condition.

- **Configuration text** (`RoundTripIff`). Reading back fails for an empty private key, where the pattern runs on to the
  next line (`EmptyKeyFields`), and for values with a newline or leading white space, a peer value with `[` (a bracketed
  IPv6 endpoint), an interface value with `[Peer]`, an address with `/`, an empty public key, or a list item that is
  empty, untrimmed or holds a comma. In all other cases it succeeds, up to the normal form: the subnet becomes
  `0.0.0.0/p`, a given endpoint gets port 51820 when it has none, and falsy options become None.
- **Forwarding** (`HopsExactly`, `OneHopIff`, `ClientToClientIff`). A /32 route advertised by a device later in the list
  takes the packets of the device that has this address. In the hybrid plan the hub itself is reached through the subnet prefix
  alone, so any longer advertised route takes its packets. `Delivery` has the usual case, where every advertised prefix
  that overlaps the subnet is shorter than it. In star a stolen packet never arrives, because the thief sends it back to
  the hub (`StolenIsLost`). In mesh and hybrid it arrives in two hops when exactly one device could steal it, since that
  device's own plan leaves its routes out (`OneThiefDetours`), and never when two could. `HostRouteSteals` and
  `LongRouteStealsHub` are networks in which packets are stolen. A hop is a choice of peer and presumes that the peer can
  be reached. WireGuard also drops a packet whose source address does not match the peer it came from; `CheckedExactly`
  and `DeliveryIsAccepted` say which packets pass.
- **Exit node** (`StarExitHop`, `OutsideHop`, `ExitPeerOnlyForSelf`). A star client sends what is for outside the subnet
  to its exit node. In mesh and hybrid the exit node has no part in it: the advertised routes alone decide, but that a
  device that is its own exit node gets itself as a peer for `0.0.0.0/0`.
- **Hub fallback in hybrid** (`HybridHasNoFallback`). The comments of the generators speak of the hub as a routing peer
  and of devices that connect only to the hub. The mesh code gives the hub its own /32 only. The hybrid code lists every
  device, so a packet goes to the hub only when it is for the hub, and a device without endpoint rows has a peer of its
  own without an endpoint.
- **Rate limit hint** (`LoneRetry`; the docstring at lines 73-75 of `rate_limiter.py`). The hint rounds down: a retry
  after just the hinted seconds is accepted if and only if less than one second was left (`HintFallsShort` is a run). One second more always suffices.
- **STUN** (`OneAttributeIff`). Section 15 of RFC 5389 pads attributes to 4 bytes, the client steps over them padded
  to 2, and so finds the address after an attribute if and only if its length leaves 0 or 3 modulo 4. The server's header
  counts 8 bytes where section 6 counts 12. The client's walk needs no more than 4 of them (`WalkFindsAddress`).
- **Relay fallback** (`SpawnedRelays`; line 775 of `docs/user-guide.md` says consecutive failures). Successes do not reset
  the count, so all failures of a session count.
- **Latency 0** (`ZeroLatencyRanksLast`). A candidate at 0 ms ranks as one of unknown latency, 9999 ms.
- **Duplicate reports** (`PromotionRaisesIff`). Each report adds a row, and nothing makes a row active again. A promotion
  raises exactly as long as two such rows of its endpoint have been deactivated neither by a sweep nor by a preferred
  promotion of another endpoint.
- **Relay registration** (`RegistrationIff`, `NullSessionRegisters`). A session id is compared with what is stored for
  the token, and nothing stored is None. So a connect message is accepted if and only if it has a known token with that
  token's session, or an unknown token with a session id of null.
- **Lost connections** (`SpeaksForIff`, `GoesOffIff`, `LostKeepsOthersIff`). A connection speaks for the device of its
  last connect message, refused ones included, until it sends a disconnect. Its disconnect or loss takes that device off
  whichever connection the device is registered for (`RefusedConnectSpeaks`), and its heartbeats keep the device's entry
  alive (`RefusedKeepsAlive`).
- **Controller** (`ReconciledKeys`, `ConvergesIff`, `Converges`, `AddressesReachIff`). The computed updates are never
  applied, so a peer has the allowed addresses that were desired when it was last added (`RecordsOfRun`,
  `AddressesAfterRunIff`). A route that is approved later is missed as long as every cycle wants the device
  (`LateRouteIsMissed`), and arrives once one cycle has not (`RouteArrivesAfterAbsence`). A key that is both wanted and
  flagged for removal is taken out and comes back only in the next cycle.
- **NAT gauge** (`GaugeOverRuns`). It is the number of sessions created minus the number ever expired; connected and
  failed sessions stay in it.

## Model

| member | source | states |
|---|---|---|
| Forwarding.Delivery | backend/app/services/topology.py:294-536 | when overlapping advertised prefixes are shorter than the subnet, longest-prefix lookup over the generated allowed addresses takes every packet between two devices there: in exactly two hops between star clients, whatever their exit nodes, in one hop otherwise |
| Forwarding.OneHopIff | backend/app/services/topology.py:384-536 | mesh and hybrid deliver in one hop if and only if no other device's route takes the packet, for any routes at all |
| Forwarding.ClientToClientIff | backend/app/services/topology.py:294-370 | star clients reach each other in exactly two hops if and only if no later client's /32 route takes the packet at the hub |
| Forwarding.HubToClientIff | backend/app/services/topology.py:324-337 | the same for the hub's own packets, in one hop |
| Forwarding.ClientToHub | backend/app/services/topology.py:338-350 | a star client reaches the hub in one hop, whatever the routes |
| Forwarding.ClientSendsToHub | backend/app/services/topology.py:338-363 | every packet of a star client for the subnet goes to the hub, never to an exit node |
| ForwardingCases.StolenIsLost | backend/app/services/topology.py:294-370 | a star packet whose target is stolen at the hub arrives within no number of hops, from any device; so it takes the exact number of hops or is lost |
| ForwardingCases.HostRouteSteals | backend/app/services/topology.py:324-337 | a network in which a later device's /32 route takes mesh packets and loses star packets |
| ForwardingCases.LongRouteStealsHub | backend/app/services/topology.py:489-498 | a network in which a route longer than the subnet takes a hybrid packet for the hub |
| ForwardingCases.StarExitHop | backend/app/services/topology.py:338-363 | a star client sends a packet for outside the subnet to its exit node if that is set, known, not the hub and has a key, and to nobody otherwise |
| ForwardingCases.OutsideHop | backend/app/services/topology.py:384-536 | in mesh and hybrid the longest advertised route decides where such a packet goes, whatever the exit node, but for the default route of OwnExit |
| ForwardingCases.HybridHasNoFallback | backend/app/services/topology.py:476-529 | with short routes a hybrid packet goes to the hub if and only if it is for the hub, and a target without endpoint rows is served without endpoint and requires a relay |
| RouteThieves.HopsExactly | backend/app/services/topology.py:384-536 | mesh and hybrid, for any routes: one hop if nobody but the sender could steal the packet, two hops if exactly one other device could, and otherwise it arrives within no number of hops |
| RouteThieves.Taker | backend/app/services/topology.py:384-536 | any device sends a packet to its target unless another device could steal it, and to one of those otherwise |
| RouteThieves.TwoThievesKeepIt | backend/app/services/topology.py:384-536 | a packet that two devices could steal goes round among them for ever |
| RouteThieves.OneThiefDetours | backend/app/services/topology.py:402-425 | a network in which a stolen mesh packet arrives through the thief in two hops |
| RouteThieves.CheckedExactly | backend/app/services/topology.py:384-536 | the same law when receivers drop packets whose source address does not lead back to the peer they came from: direct packets pass if nobody but the receiver could steal the sender's, detours if the same device alone could steal both ways |
| RouteThieves.DeliveryIsAccepted | backend/app/services/topology.py:294-536 | under the conditions of Delivery no receiver on the way drops the packet, in star, mesh and hybrid |
| Topology.DirectPeers | backend/app/services/topology.py:402-425 | the shared peer loop yields one peer for each device but one, in order |
| Topology.GenerateStar | backend/app/services/topology.py:294-370 | the star plan the theorems are about, for hub, client and a network without hub |
| Topology.GenerateMeshOrHybrid | backend/app/services/topology.py:384-536 | the mesh and hybrid plans the theorems are about |
| Topology.PlanIsComplete | backend/app/services/topology.py:400-438 | one peer for each other device, in order and with distinct keys, and the exit-node peer only in OwnExit |
| Topology.PlansAreMutual | backend/app/services/topology.py:476-529 | each of two devices is in the other's plan, and a device is in its own plan exactly in OwnExit |
| Topology.ExitPeerOnlyForSelf | backend/app/services/topology.py:427-438 | the exit-node branch adds nothing unless a device is its own exit node; then it adds that device for the default routes |
| IniRoundTrip.RoundTripIff | midscaled/daemon/reconciler.py:21-92 | parsing the printed text gives the configuration's normal form if and only if it is well formed |
| IniRoundTrip.RoundTrip | backend/app/services/topology.py:100-126 | every well-formed configuration is read back: key, address, prefix length, DNS, MTU, port and the peers in order |
| IniRoundTrip.EmptyKeyFields | midscaled/daemon/reconciler.py:22-36 | with an empty private key the key that is read is the address line |
| IniRoundTrip.SectionRange | midscaled/daemon/reconciler.py:27-46 | whatever an interface section holds, the values read from it are single-line, begin with no white space and are free of [Peer], the address is free of /, and DNS items are trimmed and non-empty |
| IniRoundTrip.BlockRange | midscaled/daemon/reconciler.py:49-80 | whatever a peer block holds, the peer read from it is well formed |
| IniPrinter.ToIni | backend/app/services/topology.py:100-126 | the printed lines, joined, are the text the round trip is about |
| IniParser.ParseConfigIni | midscaled/daemon/reconciler.py:21-92 | the block loop computes the parser the round trip is about, with its exception cases |
| IniParser.ParsePeer | midscaled/daemon/reconciler.py:49-80 | one block's peer, a skipped block, or the exception of a bad number |
| Decimal.IntRoundTrip | midscaled/daemon/reconciler.py:58-68 | every integer, negative ones too, is read back from its decimal text |
| Text.ItemsOfJoin | midscaled/daemon/reconciler.py:73 | splitting a printed list at commas, trimming and dropping empty parts gives the list back |
| RelayWire.FramingIsChunkingIndependent | backend/app/services/relay_server.py:52-61 | messages framed by _send_message arrive whole, in order, once each, however the stream is cut, with an empty buffer at the end |
| RelayWire.ReceiveConserves | midscaled/daemon/relay_client.py:162-187 | at every moment of any stream, malformed or not, delivered frames followed by the buffer are the bytes received, and the buffer holds no whole frame |
| RelayWire.ReceiveIsDeframe | backend/app/services/relay_server.py:52-61 | receiving chunk by chunk is deframing the whole stream |
| RelayWire.DeframeConserves | backend/app/services/relay_server.py:52-61 | deframing loses and invents nothing |
| RelayWire.DeframeAppend | backend/app/services/relay_server.py:52-61 | receiving two pieces is receiving them at once |
| RelayWire.HexRoundTrip | midscaled/daemon/relay_client.py:227-233 | hexadecimal text is read back as its bytes |
| RelayClient.RelayedDataArrives | backend/app/services/relay_server.py:132-147 | data of any bytes for a target without a bar, cut into any chunks on both legs, reaches exactly the target's connection and is handed over as exactly that data; nothing else of the server's state changes |
| RelayDelivery.RelayedOverRun | backend/app/services/relay_server.py:132-147 | over every run of the server, with any events in between and any chunks: what a client has been handed is the beginning of the data addressed to the devices registered for its connection at the time, in order, and all of it once it has read everything |
| RelayDelivery.WrittenIsSent | backend/app/services/relay_server.py:86-91 | over every run the bytes written to a connection are the frames of the messages it is sent, in order |
| RelayDelivery.MessageWrites | backend/app/services/relay_server.py:63-173 | one message writes to each connection exactly its forwarded message or its answer |
| RelayDelivery.SentIsAddressed | midscaled/daemon/relay_client.py:189-240 | what a client makes of all messages it is sent is the data addressed to it, answers left aside |
| RelayClient.ServerLeg | backend/app/services/relay_server.py:52-147 | the first leg: the framed forward message is added to the target's stream and nothing else changes |
| RelayClient.ClientLeg | midscaled/daemon/relay_client.py:162-240 | the second leg: the framed forward message, in any chunks, yields exactly the data |
| RelayClient.ServerForwards | backend/app/services/relay_server.py:132-147 | one data message is one write to the target's current connection and nothing else |
| RelayClient.ClientReads | midscaled/daemon/relay_client.py:227-240 | the forwarded message yields the relayed bytes |
| RelayClient.ReceivedAllIsReceive | backend/app/services/relay_server.py:52-61 | the server's handling of chunks is its handling of the frames of the whole stream |
| RelayClient.Client.ReadLoop | midscaled/daemon/relay_client.py:162-187 | for any sequence of reads, timeouts, end and errors the payloads handed on are those of the chunks read before the stop, and the received-byte counter is the sum of their sizes |
| RelayClient.Client.Drain | midscaled/daemon/relay_client.py:175-182 | the inner loop hands on every whole frame and leaves the rest |
| RelayClient.Client.HandleMessage | midscaled/daemon/relay_client.py:189-240 | only well-formed data messages add to what was received and to the byte counter |
| RelayServer.RegistryInvariant | backend/app/services/relay_server.py:220-285 | in every reachable state a registered device has a heartbeat entry; after an expiry each entry is at most 120 s old |
| RelayServer.RegistrationIff | backend/app/services/relay_server.py:96-157 | a message registers a device if and only if it is a connect naming it with a known token and its session, or an unknown token and a null session id; it takes one off if and only if it is a disconnect on a connection that named it; it changes no other registration |
| RelayServer.NullSessionRegisters | backend/app/services/relay_server.py:216-218 | an unknown token with a null session id registers the device it names |
| RelayServer.MessageIsConfined | backend/app/services/relay_server.py:86-173 | a message changes no connection but its own, except that a data message may add bytes to its target's stream; bytes written are never taken back |
| RelayRegistry.RegisteredIff | backend/app/services/relay_server.py:96-157 | over every run, told by messages and events alone: a device is registered for a connection if and only if an accepted connect on it named the device, and since then nothing took it off or registered it again |
| RelayRegistry.GoesOffIff | backend/app/services/relay_server.py:149-285 | a registered device goes off exactly when a connection that speaks for it disconnects or is lost, or it was last heard of more than 120 s before an expiry |
| RelayRegistry.TokenIff | backend/app/services/relay_server.py:213-232 | a token is valid for a session exactly when it was issued for it and since then neither issued again nor dropped with a device of the session's name |
| RelayRegistry.HeartbeatIff | backend/app/services/relay_server.py:220-242 | a device's heartbeat entry is the time of its last registration, heartbeat on a connection that speaks for it, or API beat, unless it was taken off since |
| RelayRegistry.ExpiresIff | backend/app/services/relay_server.py:273-285 | with a clock that never goes back, an expiry takes a registered device off if and only if there was no news of it in the last 120 s |
| RelayRegistry.RefusedKeepsAlive | backend/app/services/relay_server.py:98-173 | a refused connection's heartbeat renews the entry of the device it named |
| RelayRuns.SpeaksForIff | backend/app/services/relay_server.py:96-157 | over every run a connection speaks for a device if and only if the last of its readable connect and disconnect messages is a connect naming it, accepted or refused |
| RelayRuns.ConnectionSpeaksIff | backend/app/services/relay_server.py:52-157 | the same in terms of the bytes that reached the connection, in any chunks |
| RelayRegistry.RefusedConnectSpeaks | backend/app/services/relay_server.py:98-157 | a refused connect followed by a disconnect takes off a device that another connection registered |
| RelayRegistry.LostKeepsOthersIff | backend/app/services/relay_server.py:178-232 | a device registered for another connection survives a lost one if and only if the lost one does not speak for it |
| RelayRuns.RunIsAfter | backend/app/services/relay_server.py:52-84 | a run chunk by chunk is the run of its messages |
| RelayRuns.MessagesAreFrames | backend/app/services/relay_server.py:52-61 | over every run the messages a connection hears are the frames of the bytes that reached it, and its buffer is what is left |
| RelayServer.Server.DataReceived | backend/app/services/relay_server.py:52-61 | the buffer loop handles the frames of buffer and chunk in order and keeps the rest, as the run's step does |
| RelayServer.Server.Process | backend/app/services/relay_server.py:63-84 | the dispatch over the handlers that update registry and connections in place, all kinds of messages and malformed ones, does what the theorems say of one message |
| RelayServer.Server.ProcessConnect | backend/app/services/relay_server.py:96-130 | session token and device id are set before the session is checked; then the device is registered and an answer sent, or an exception leaves it at that |
| RelayServer.Server.ProcessData | backend/app/services/relay_server.py:132-147 | what follows the first bar is forwarded to the target's connection, if there is one |
| RelayServer.Server.ProcessDisconnect | backend/app/services/relay_server.py:149-157 | the named device goes off and the connection forgets it |
| RelayServer.Server.ProcessHeartbeat | backend/app/services/relay_server.py:159-173 | the named device's heartbeat is set and answered |
| RelayServer.Server.ConnectionMade | backend/app/services/relay_server.py:46-50 | a new connection starts open, unnamed and with an empty buffer |
| RelayServer.Server.ConnectionLost | backend/app/services/relay_server.py:178-186 | the device that the connection named is unregistered and its transport is closed; its buffer stays |
| RelayServer.Server.AddValidToken | backend/app/services/relay_server.py:213-214 | a token becomes valid for its session; nothing else changes |
| RelayServer.Server.UpdateHeartbeat | backend/app/services/relay_server.py:239-242 | the heartbeat of the given device is set, whether it is registered or not; nothing else changes |
| RelayServer.Server.RemoveExpiredTokens | backend/app/services/relay_server.py:273-285 | the loop unregisters exactly the devices whose heartbeat is too old |
| RateLimiter.WindowSafety | backend/app/services/rate_limiter.py:81-94 | over any run with a monotone clock, no closed interval of a window's length holds more than max accepted requests of a key that is not reset |
| RateLimiter.DecisionRefinesHistory | backend/app/services/rate_limiter.py:81-94 | every decision and hint, over any run of checks, cleanups and resets, is the one counted on the complete history of accepted requests |
| RateLimiter.DequeRepresentsHistory | backend/app/services/rate_limiter.py:81-94 | the deque is ascending, no longer than the limit, and misses only history older than the window |
| RateLimiter.CleanupChangesNoDecision | backend/app/services/rate_limiter.py:132-143 | a run answers as it would have without its cleanups |
| RateLimiter.LoneRetry | backend/app/services/rate_limiter.py:70-91 | after a denial a lone retry is accepted exactly when the oldest request has left the window; hint plus one second always suffices, the hint alone only when less than a second was left |
| RateLimiter.HintFallsShort | backend/app/services/rate_limiter.py:70-91 | a run whose retry after exactly the hinted seconds is denied again |
| RateLimiter.Limiter.Check | backend/app/services/rate_limiter.py:81-94 | verdict and new deque, including the IndexError of a limit of 0 or less |
| RateLimiter.Limiter.Cleanup | backend/app/services/rate_limiter.py:132-143 | exactly the keys whose newest entry is older than the window go |
| RateLimiter.Limiter.Reset | backend/app/services/rate_limiter.py:125-130 | only the key's entries go |
| Stun.StunRoundTrip | backend/app/services/stun_server.py:44-101 | for every transaction, IPv4 address and port the parsed response to the request is that address and port, and for any other transaction nothing |
| Stun.WalkFindsAddress | midscaled/daemon/stun_client.py:93-125 | any list of other attributes of lengths that leave 0 or 3 modulo 4 is walked over, and the address is found exactly when the header's length covers its attribute header |
| Stun.OneAttributeIff | midscaled/daemon/stun_client.py:123-125 | over one other attribute padded to 4 the client finds the address if and only if its length leaves 0 or 3 modulo 4 |
| Stun.ParseBindingResponse | midscaled/daemon/stun_client.py:61-127 | the attribute walk terminates and computes the parser of the theorems on any bytes, with its exception cases |
| Bits.XorTwice | midscaled/daemon/stun_client.py:104-108 | masking twice gives back the number |
| RelaySessions.GaugeIsExact | backend/app/services/relay.py:39-302 | over every run the gauge of active connections is the number of sessions in state active |
| RelaySessions.EndedForever | backend/app/services/relay.py:83-192 | an expired or failed session is never pending or active again |
| RelaySessions.CleanupLeavesNoneOverdue | backend/app/services/relay.py:253-271 | after a cleanup no open session is overdue, overdue ones are expired, all others are as before |
| RelaySessions.TotalsAreReported | backend/app/services/relay.py:218-250 | a session's byte totals are the sums of what was reported for it over the run |
| RelaySessions.RelayService.CreateRelaySession | backend/app/services/relay.py:39-80 | a fresh pending session and nothing else |
| RelaySessions.RelayService.ActivateRelaySession | backend/app/services/relay.py:83-120 | only a pending session becomes active, and counts in the gauge |
| RelaySessions.RelayService.ExpireRelaySession | backend/app/services/relay.py:123-156 | the session ends, and leaves the gauge only if it was active |
| RelaySessions.RelayService.FailRelaySession | backend/app/services/relay.py:159-192 | the same for failure |
| RelaySessions.RelayService.UpdateRelayStats | backend/app/services/relay.py:218-250 | the deltas are added to the session's totals |
| RelaySessions.RelayService.CleanupExpiredRelays | backend/app/services/relay.py:253-271 | the loop expires exactly the overdue open sessions and answers their number |
| RelaySessions.RelayService.AutoCreateRelayFallback | backend/app/services/relay.py:283-302 | a fresh pending session, and the fallback is counted |
| NatSessions.GaugeOverRuns | backend/app/services/nat.py:42-468 | over every run of NAT, relay and endpoint steps the gauge is sessions created minus sessions ever expired, each counted out once |
| NatSessions.SessionsStayGood | backend/app/services/nat.py:161-330 | connectivity is established exactly when a candidate is selected, and whenever the session is connected |
| NatSessions.EstablishedForever | backend/app/services/nat.py:161-330 | once established, connectivity stays established through any further run |
| NatSessions.SpawnedRelays | backend/app/services/nat.py:217-244 | f failures of a session that starts at 0 spawn max(0, f - 1) relay sessions; the general count for any start |
| NatSessions.RelayGaugeOverRuns | backend/app/services/nat.py:217-267 | the relay gauge stays exact through NAT steps that spawn relay sessions |
| NatSessions.NatService.CreateNatSession | backend/app/services/nat.py:42-77 | a pending session with its timeout, counted in the gauge |
| NatSessions.NatService.Punch | backend/app/services/nat.py:80-113 | starts exactly for a pending session that has not run out |
| NatSessions.NatService.RecordSuccess | backend/app/services/nat.py:161-216 | connects the session and promotes the selected endpoint, or leaves all as it was when the promotion raises, which it reports exactly when two active rows match |
| NatSessions.NatService.RecordFailure | backend/app/services/nat.py:217-267 | counts the failure and spawns a relay session from the second on |
| NatSessions.NatService.ValidateConnectivity | backend/app/services/nat.py:270-355 | a reachable endpoint connects the session and is promoted, with the answer of the promotion, an exception exactly when two active rows match; an unreachable one changes nothing |
| NatSessions.NatService.ExpireStaleSessions | backend/app/services/nat.py:453-468 | the loop expires exactly the waiting sessions that have run out and counts each out of the gauge |
| EndpointRows.RowsStayGood | backend/app/services/daemon.py:96-289 | over every run of reports, probes, promotions and sweeps scores stay in 0..200, counts never decrease, rows keep their identity |
| EndpointRows.PromotionIsExclusive | backend/app/services/nat.py:378-408 | a promotion never lowers a score or touches another device's rows; answering preferred it leaves the endpoint its device's only active one |
| EndpointRows.PreferredRanksBest | backend/app/services/nat.py:400-402 | a preferred endpoint is active and no other active one of its device ranks before it |
| PromotionRuns.PreferredIff | backend/app/services/nat.py:378-408 | a promotion answers preferred if and only if the promoted row ranks before every earlier active row of its device and no later one ranks before it |
| EndpointRows.PromotionOutcome | backend/app/services/nat.py:365-376 | a promotion raises exactly when two active rows match and finds nothing exactly when none does |
| EndpointRows.DuplicateReportsBlockPromotion | backend/app/services/daemon.py:118-129 | after two reports of one endpoint the promotion of it that comes next raises |
| PromotionRuns.PromotionRaisesIff | backend/app/services/nat.py:365-376 | over every run a promotion raises exactly when two reports or first probes added rows for its endpoint that no sweep and no preferred promotion of another endpoint has deactivated since |
| PromotionRuns.ActiveIff | backend/app/services/daemon.py:96-289 | over every run a row is active exactly when no sweep and no preferred promotion has deactivated it since it was added |
| PromotionRuns.PreferredElsewhereUnblocks | backend/app/services/nat.py:400-408 | a preferred promotion of another endpoint of the device ends the exception: the endpoint then has no row to promote |
| EndpointRows.EndpointTable.ReportEndpoint | backend/app/services/daemon.py:96-146 | a report adds one row for a known device and refuses an unknown one |
| EndpointRows.EndpointTable.ProcessProbeResult | backend/app/services/daemon.py:175-289 | a probe updates the one matching row, adds one when none matches, and raises when several do |
| EndpointRows.EndpointTable.PromoteEndpoint | backend/app/services/nat.py:358-410 | the row is scored anew and, when best, the device's other rows are deactivated |
| EndpointRows.EndpointTable.Deactivate | backend/app/services/nat.py:404-407 | the loop deactivates exactly the device's other rows |
| EndpointRows.EndpointTable.StaleEndpointCleanup | backend/app/services/daemon.py:149-172 | the loop deactivates exactly the active rows not seen since the cutoff and answers their number |
| PathPromotion.ValidatedPathIsServed | backend/app/services/nat.py:298-317 | once a validated endpoint is preferred, every mesh or hybrid configuration offers its device at exactly that endpoint, as only candidate and without relay |
| PathPromotion.OnlyActiveAfter | backend/app/services/nat.py:400-408 | after a preferred promotion the device's active rows are the promoted one |
| ConfigV2.ChosenEndpointIsHead | backend/app/services/wireguard.py:304-329 | the candidates are a stably sorted permutation of the device's endpoints, only the head is preferred, and it gives the peer's endpoint and port, whatever was picked by priority |
| ConfigV2.RelayRequiredIff | backend/app/services/wireguard.py:331-335 | a mesh peer or non-hub hybrid peer requires a relay if and only if it has no candidate; the hybrid hub never does |
| ConfigV2.EndpointWithoutRows | backend/app/services/topology.py:410-425 | a mesh or hybrid peer without endpoint rows is served at the configured endpoint if it is the hub, at none otherwise |
| ConfigV2.ServedAsPlanned | backend/app/services/wireguard.py:298-355 | longest-prefix lookup over the served peers picks the same peer as over the plan for every address, so delivery carries over; a peer without candidates keeps its planned endpoint |
| ConfigV2.StarNeverRequiresRelay | backend/app/services/wireguard.py:331-335 | no star peer requires a relay or has candidates |
| ConfigV2.AssemblePeer | backend/app/services/wireguard.py:298-355 | the candidate loop computes the peer the theorems are about |
| ConfigV2.BuildPeers | backend/app/services/wireguard.py:286-356 | one assembled peer for each planned one, in order |
| Endpoints.ComputeScore | backend/app/services/endpoint_scoring.py:28-43 | the step-by-step score is the closed form, clamped to 0..200 |
| Endpoints.ScoreMonotone | backend/app/services/endpoint_scoring.py:28-43 | an endpoint that is no worse in reachability, failures, successes, priority and latency never scores lower; an unknown latency counts as no worse than any that is not negative |
| Endpoints.SelectBestIsBest | backend/app/services/endpoint_scoring.py:46-64 | the selected endpoint is one of those given and none ranks before it |
| Endpoints.ZeroLatencyRanksLast | backend/app/services/endpoint_scoring.py:54-63 | a candidate at 0 ms ranks behind an equal one at any other latency below 9999 ms, and behind no slower one |
| Endpoints.BestPlannedIsBest | backend/app/services/topology.py:269-281 | the planner picks an active endpoint that no active one precedes, and none exactly when none is active |
| StableSort.SortIsStableSort | backend/app/services/endpoint_scoring.py:67-78 | sorting by key gives a sorted permutation that keeps the order of ties |
| StableSort.SortTwice | backend/app/services/nat.py:400-402 | sorting by score before choosing the best does not change the choice |
| WgController.Converges | backend/app/services/wg_controller.py:226-276 | for desired peers as the database yields them a cycle ends with exactly their keys, once each, keeps present wanted records untouched, and the next cycle changes nothing |
| WgController.ConvergesIff | backend/app/services/wg_controller.py:226-276 | for any desired list a cycle ends with the wanted keys if and only if no present key is both wanted and flagged for removal |
| WgController.RecordsOfRun | backend/app/services/wg_controller.py:226-276 | over every run of cycles, each with its own desired peers, a peer is there exactly with the record it got when it was last added |
| WgController.AddressesAfterRunIff | backend/app/services/wg_controller.py:226-276 | after such a run the allowed addresses are as last desired if and only if they were those desired when each peer was last added, or those from before the run |
| WgController.AddressesReachIff | backend/app/services/wg_controller.py:226-276 | after cycles with one desired list every desired peer has its desired allowed addresses if and only if those that were there already had them |
| WgController.LateRouteIsMissed | backend/app/services/wg_controller.py:243-276 | a peer that was added before a route was approved keeps its record, without the route, through every run of cycles that all want it |
| WgController.RouteArrivesAfterAbsence | backend/app/services/wg_controller.py:243-276 | the route arrives once one cycle did not want the device and the next one wants it again |
| WgController.ReconciledKeys | backend/app/services/wg_controller.py:226-276 | the key set after a cycle, for any lists; keys stay distinct and wanted records stay |
| WgController.CountConserved | backend/app/services/wg_controller.py:249-276 | the number of peers changes by added minus removed |
| WgController.DiffIsDisjoint | backend/app/services/wg_controller.py:48-69 | for any desired list, the list to add shares no key with the others, and the lists to update and to remove share none if and only if no present key is both wanted and flagged for removal |
| WgController.DesiredAreFromDatabase | backend/app/services/wg_controller.py:316-348 | devices with distinct keys give exactly one desired peer for each managed device, as Converges assumes |
| WgController.ComputePeerDiff | backend/app/services/wg_controller.py:48-69 | the three lists, for any desired list and in any order of the orphaned keys |
| WgController.GetDesiredPeers | backend/app/services/wg_controller.py:300-348 | the loop over device rows yields the desired peers of DesiredAreFromDatabase |
| WgController.ReconcileInterface | backend/app/services/wg_controller.py:226-276 | removals then additions on the adapter, the two counters, and nothing on a missing interface |
| WgController.WgMockAdapter.AddPeer | backend/app/services/wg_adapter.py:304-333 | the peer with the key is updated in its place, or appended |
| WgController.WgMockAdapter.RemovePeer | backend/app/services/wg_adapter.py:335-339 | exactly the peers with the key go |
| WgRuntime.ApplyReaches | midscaled/daemon/wg_runtime.py:121-146 | from any peers the interface ends with exactly the configured keys, their allowed addresses, and endpoint and keepalive where given, the old ones otherwise |
| WgRuntime.ApplyTwice | midscaled/daemon/wg_runtime.py:121-146 | applying twice is applying once |
| WgRuntime.UnreadableRemovesNothing | midscaled/daemon/wg_runtime.py:117-146 | when the old state cannot be read, peers are set and none is removed |
| WgRuntime.PrintedConfigIsApplied | midscaled/daemon/wg_runtime.py:106-153 | a well-formed configuration printed by the backend, parsed and applied leaves its keys with its allowed addresses, its endpoints and keepalives where given, and its private key and listen port |
| WgRuntime.WireGuardRuntime.ApplyConfig | midscaled/daemon/wg_runtime.py:106-153 | the set loop and the remove loop, for any order of the keys, reach the state the theorems are about; key and port are set |
| Ipam.RunsStayGood | backend/app/services/ipam.py:27-61 | over every run of creation, enrolment, registration and release the addresses of a network are distinct hosts, and only its server holds the first |
| Ipam.RefusedExactlyWhenFull | backend/app/services/ipam.py:27-49 | an allocation is refused exactly when all hosts but the first are held by clients |
| Ipam.NetworkCapacity | backend/app/services/ipam.py:27-49 | a /p network, p at most 30, admits exactly 2^(32-p) - 3 clients |
| Ipam.AllocateIsLeast | backend/app/services/ipam.py:38-49 | the search answers the least free host after the first, and none exactly when none is free |
| Ipam.AllocateIp | backend/app/services/ipam.py:27-49 | the loop with its early return answers that allocation |
| Ipam.HostsAre | backend/app/services/ipam.py:20-24 | the hosts of a /p network, p at most 30, are its addresses but the first and last |
| Ipam.HostsInSubnet | backend/app/services/ipam.py:20-24 | every host is an address of the subnet, /31 and /32 included |
| Ipam.KeyYieldsOneDevice | backend/app/api/v1/devices.py:456-510 | a non-reusable key yields at most one device for each time it was issued, over every run |
| Ipam.Handlers.CreateNetworkWithServer | backend/app/api/v1/networks.py:34-65 | a network with a server at the first host |
| Ipam.Handlers.AddDevice | backend/app/api/v1/networks.py:157-227 | one device at the allocated address, or no change when none is free |
| Ipam.Handlers.CreatePreAuthKey | backend/app/api/v1/networks.py:250-268 | a key that no device has used |
| Ipam.Handlers.EnrollByKey | backend/app/api/v1/devices.py:449-510 | admits only a known, live, unused or reusable key, adds one device and consumes the key; a refusal changes nothing |
| Ipam.Handlers.RegisterDevice | backend/app/api/v1/devices.py:540-581 | the same, without the check that the key was used |
| Ipam.Handlers.ReleaseIp | backend/app/services/ipam.py:52-61 | only the device's address is cleared |
| DnsRecords.ReverseNamesCompose | backend/app/services/dns_records.py:33-65 | for a prefix of length 8 or more and any address in it, record name, dot and zone origin are the address's full in-addr.arpa name (section 3.5 of RFC 1035) |
| DnsRecords.SanitizedIsLabel | backend/app/services/dns_records.py:18-25 | the result is never empty, over a-z, 0-9 and dashes, with no doubled, leading or trailing dash |
| DnsRecords.LabelsAreFixed | backend/app/services/dns_records.py:18-25 | a name is left alone if and only if it is such a label |
| DnsRecords.SanitizeIdempotent | backend/app/services/dns_records.py:18-25 | cleaning up twice is cleaning up once |
| IniMeaning.ReadBack | midscaled/daemon/reconciler.py:21-92 | the text of a well-formed configuration is read back field by field; a given endpoint has the given port, 51820 when that is missing or 0 |
| IniMeaning.PrintedText | backend/app/services/topology.py:100-126 | the printed text is the interface section, then each peer section, each ended by an empty line |
| IniMeaning.PrintedInterface | backend/app/services/topology.py:102-112 | the names, values and order of the interface lines, and when each is left out |
| IniMeaning.PrintedPeer | backend/app/services/topology.py:114-124 | the names, values and order of a peer's lines, and when each is left out |
| IniMeaning.EndpointSplit | midscaled/daemon/reconciler.py:55-65 | an endpoint is split at its last colon; a port that is no number counts as 51820 |
| IniMeaning.BlockOutcome | midscaled/daemon/reconciler.py:49-80 | which blocks are skipped, which raise, and what the others give |
| IniMeaning.SectionOutcome | midscaled/daemon/reconciler.py:33-46 | what an interface section gives, field by field, for any address text, and when a number raises |
| IniMeaning.NoInterfaceIff | midscaled/daemon/reconciler.py:21-30 | there is nothing to read exactly when no interface header is found |
| IniMeaning.SectionEnds | midscaled/daemon/reconciler.py:21-49 | a section ends at the next header, at the end, or before a newline that ends the text |
| IniMeaning.NoFieldInside | midscaled/daemon/reconciler.py:27-36 | a field begins only at the start of a line |
| IniMeaning.LastWins | midscaled/daemon/reconciler.py:27-54 | the last value of a key counts |
| IniMeaning.DigitsAccepted | midscaled/daemon/reconciler.py:58-68 | numbers are digits with single underscores between digits |
| IniMeaning.OneDigitMore | midscaled/daemon/reconciler.py:58-68 | a number's value, digit by digit |
| IniMeaning.SignsAndSpaces | midscaled/daemon/reconciler.py:58-68 | a number may have one sign, and white space around it |
| IniMeaning.DecimalDigits | backend/app/services/topology.py:105-123 | decimal text, digit by digit |
| IniMeaning.StripIs | midscaled/daemon/reconciler.py:49-80 | stripping takes white space off both ends and nothing else |
| IniMeaning.SplitJoins | midscaled/daemon/reconciler.py:38-46 | splitting at a character and joining give the text back |
| IniMeaning.ItemsAre | midscaled/daemon/reconciler.py:73 | the items of a list are its stripped non-empty parts |
| IniMeaning.AppliedPeer | midscaled/daemon/wg_runtime.py:121-137 | each applied peer's addresses, endpoint text with its port, and keepalive; what is not given stays |
| IniMeaning.PrintedPeerIsSet | midscaled/daemon/wg_runtime.py:106-137 | each peer of a printed record, read and applied, has the record's addresses, keepalive, endpoint and port on the interface |
| EndpointMeaning.ScoreIs | backend/app/services/endpoint_scoring.py:24-43 | the score's base, weights and bounds in numbers |
| EndpointMeaning.BestInFields | backend/app/services/endpoint_scoring.py:46-64 | the selected endpoint has the highest score, then is reachable, then has the lowest latency (9999 when unknown or 0), then the lowest priority number, and comes first among equals |
| EndpointMeaning.SortedInFields | backend/app/services/endpoint_scoring.py:67-78 | each candidate is as good, in these fields, as all that follow |
| EndpointMeaning.PlannedInFields | backend/app/services/topology.py:269-281 | the planner picks the active endpoint of the highest priority number, then the most recently seen, then the first |
| EndpointMeaning.ReportIs | backend/app/services/daemon.py:106-146 | a report's row, field by field |
| EndpointMeaning.ProbeUpdates | backend/app/services/daemon.py:202-227 | what a probe writes into the one matching row, and which counter goes up |
| EndpointMeaning.ProbeAdds | backend/app/services/daemon.py:228-254 | the row that a probe adds when none matches |
| EndpointMeaning.ProbeRaisesIff | backend/app/services/daemon.py:202-208 | a probe raises exactly when two rows of the device have the endpoint |
| EndpointMeaning.ProbePreferredIff | backend/app/services/daemon.py:260-289 | a probe answers preferred exactly when its row is active and the best of its device |
| EndpointMeaning.PromotionUpdates | backend/app/services/nat.py:378-410 | what a promotion writes, when it answers preferred, and which rows it deactivates |
| EndpointMeaning.PromotionFinds | backend/app/services/nat.py:365-376 | when a promotion finds no row and when it raises, in row fields |
| EndpointMeaning.SweepIs | backend/app/services/daemon.py:149-172 | a sweep deactivates exactly the active rows last seen before the cutoff |
| EndpointMeaning.SweepCounts | backend/app/services/daemon.py:165-172 | a sweep answers their number |
| EndpointMeaning.CountersAreTallied | backend/app/services/daemon.py:214-217 | over every run a row's counters are the numbers of successful probes and promotions, and of failed probes, that were answered for it |
| EndpointMeaning.RowsAre | backend/app/services/endpoint_scoring.py:28-43 | over every run scores are between 0 and 200, counters are not negative, ids are unique |
| SessionMeaning.NatCreateIs | backend/app/services/nat.py:42-77 | a new session's fields, with 300 seconds to run, and the gauge |
| SessionMeaning.NatPunchIs | backend/app/services/nat.py:80-113 | which sessions start punching, and that only their state changes |
| SessionMeaning.NatSuccessIs | backend/app/services/nat.py:161-216 | a success connects, and promotes exactly when endpoint and port are given |
| SessionMeaning.NatFailureIs | backend/app/services/nat.py:217-267 | a failure counts; the second one and later ones make a relay session for the two devices |
| SessionMeaning.NatValidationIs | backend/app/services/nat.py:270-355 | a reachable endpoint is promoted and connects; an unreachable one does nothing |
| SessionMeaning.NatExpiryIs | backend/app/services/nat.py:453-468 | exactly the pending, coordinating and punching sessions that have run out expire, and the gauge falls by their number |
| SessionMeaning.NatTransitions | backend/app/services/nat.py:42-468 | every change of a session's state is one of five kinds |
| SessionMeaning.EstablishedIs | backend/app/services/nat.py:161-330 | over every run connectivity is established exactly when a candidate is selected, and always when connected |
| SessionMeaning.RelayCreateIs | backend/app/services/relay.py:39-80 | a new relay session's fields, with 24 hours to run |
| SessionMeaning.RelayStepsAre | backend/app/services/relay.py:83-250 | activation, expiry, failure and statistics, field by field and in the gauge |
| SessionMeaning.RelayCleanupIs | backend/app/services/relay.py:253-271 | exactly the pending and active sessions that have run out expire, and the gauge falls by those active |
| SessionMeaning.RelayGaugeIs | backend/app/services/relay.py:39-302 | over every run the gauge is the number of sessions in state active |
| PlanMeaning.StarClientIs | backend/app/services/topology.py:338-350 | a star client's first served peer is the hub, at the configured endpoint and port, for the whole subnet, with keepalive 25 |
| PlanMeaning.StarExitIs | backend/app/services/topology.py:352-363 | when a star client has a second peer, and what it is |
| PlanMeaning.StarHubIs | backend/app/services/topology.py:324-337 | the hub's served peers: each client's address and routes, no endpoint, port or keepalive |
| PlanMeaning.MeshPeerIs | backend/app/services/topology.py:402-425 | a mesh peer's addresses, keepalive and relay flag |
| PlanMeaning.MeshEndpointIs | backend/app/services/topology.py:410-425 | a mesh peer's endpoint and port, by the picked endpoint row, the hub and the configured endpoint |
| PlanMeaning.HybridHubIs | backend/app/services/topology.py:489-498 | the hybrid hub's peer, field by field |
| PlanMeaning.HybridPeerIs | backend/app/services/topology.py:499-516 | any other hybrid peer: direct when an endpoint is picked, by relay otherwise |
| PlanMeaning.OwnExitIs | backend/app/services/topology.py:427-438 | when a mesh or hybrid plan has an exit peer, and what it is |
| PlanMeaning.ServedCandidatesAre | backend/app/services/wireguard.py:304-329 | the served candidates are the device's rows, best first in their fields; the first alone is preferred and gives endpoint and port |
| PlanMeaning.ServedWithoutRows | backend/app/services/wireguard.py:298-355 | a peer without rows is served as planned |
| PlanMeaning.KeyStandsFor | backend/app/services/wireguard.py:286-300 | a key stands for the last device that has it |
| ControllerMeaning.DesiredInFields | backend/app/services/wg_controller.py:316-348 | a peer is desired exactly when an active device of the interface, with a key, an address and not the server, has its key, its address as /32 and then exactly its approved routes |
| ControllerMeaning.DesiredInOrder | backend/app/services/wg_controller.py:327-348 | one desired peer for each such device, in the order of the rows |
| ControllerMeaning.AddedIs | backend/app/services/wg_adapter.py:304-333 | an added peer's record has key and addresses and nothing else, and replaces one with its key |
| ControllerMeaning.CycleChanges | backend/app/services/wg_controller.py:48-69 | which keys a cycle adds and removes |
| RelayMeaning.FrameIs | backend/app/services/relay_server.py:86-91 | a frame is the length in four bytes, most significant first, and the payload |
| RelayMeaning.MessageIs | backend/app/services/relay_server.py:86-91 | a message is MIDSCALE_RELAY_V1, its type and its body |
| RelayMeaning.HexIs | backend/app/services/relay_server.py:141-144 | two lower-case hexadecimal digits a byte |
| RelayMeaning.HexReadIs | midscaled/daemon/relay_client.py:231-233 | which hexadecimal text is read, and as what |
| RelayMeaning.PingIs | backend/app/services/relay_server.py:71-72 | type 1 is answered by type 2 |
| RelayMeaning.ConnectIs | backend/app/services/relay_server.py:96-130 | type 4 names token and device whatever comes of it; the answer says whether it is valid, and a valid one registers the device |
| RelayMeaning.DataIs | backend/app/services/relay_server.py:132-147 | type 3 goes to the connection registered for what is before the first bar, with the sender's device |
| RelayMeaning.DisconnectIs | backend/app/services/relay_server.py:149-157 | type 6 forgets token and device, and takes the device off with its tokens |
| RelayMeaning.HeartbeatIs | backend/app/services/relay_server.py:159-173 | type 7 sets the named device's heartbeat and is answered |
| RelayMeaning.NothingElse | backend/app/services/relay_server.py:63-84 | all other messages do nothing |
| RelayMeaning.LostIs | backend/app/services/relay_server.py:178-186 | a lost connection is closed and its device goes off |
| RelayMeaning.ExpiryIs | backend/app/services/relay_server.py:273-285 | an expiry takes off exactly the devices with a heartbeat more than 120 seconds old |
| RelayMeaning.ClientTakes | midscaled/daemon/relay_client.py:189-240 | the client takes data from type 3 only |
| StunMeaning.XorBits | midscaled/daemon/stun_client.py:104-108 | masking works bit by bit |
| StunMeaning.MaskedBits | backend/app/services/stun_server.py:44-101 | port and address are masked with 0x2112 and 0x2112A442, bit by bit |
| StunMeaning.RequestIs | midscaled/daemon/stun_client.py:43-58 | the bytes of the request |
| StunMeaning.ResponseIs | backend/app/services/stun_server.py:44-101 | which requests are answered, and the bytes of the response |
| StunMeaning.OthersAreIgnored | midscaled/daemon/stun_client.py:79-91 | what is not a binding response with the cookie and the transaction is not read |
| StunMeaning.AttributeIs | midscaled/daemon/stun_client.py:97-125 | what is made of one attribute, by its type, length and family |
| IpamMeaning.HostsInBits | backend/app/services/ipam.py:20-24 | up to length 30 the hosts are the addresses whose host bits are neither all 0 nor all 1 |
| IpamMeaning.SmallNetworks | backend/app/services/ipam.py:20-24 | the hosts of networks of length 31 and 32 |
| IpamMeaning.DeviceRequest | backend/app/api/v1/networks.py:157-227 | a new device gets the least free host after the first, and none exactly when all are taken |
| IpamMeaning.KeyGranted | backend/app/api/v1/devices.py:449-581 | a granted key request adds a device at the next address, and deletes the key or remembers the device |
| IpamMeaning.KeyRefused | backend/app/api/v1/devices.py:456-510 | which key requests are refused |
| DnsMeaning.ReverseNameIs | backend/app/services/dns_records.py:33-65 | the reverse name of a.b.c.d is d.c.b.a.in-addr.arpa |
| DnsMeaning.ZoneAndRecordAre | backend/app/services/dns_records.py:33-65 | zone origin and record name, octet by octet, by the length of the prefix |
| DnsMeaning.SanitizedIsWords | backend/app/services/dns_records.py:18-25 | the cleaned-up name is the runs of letters and digits of the lower-cased name, joined by dashes, or "unnamed" |
| RateMeaning.CheckIs | backend/app/services/rate_limiter.py:81-94 | the verdict, the hint and the new deque of one check, in numbers |
| RateMeaning.CleanupIs | backend/app/services/rate_limiter.py:132-143 | which keys a cleanup forgets |

## Left out

- Sockets, asyncio tasks and timers, subprocess calls, Redis (and its rate-limit path), HTTP clients and files.
- SQL and the ORM: tables are maps or sequences of rows in table order, changes of a JSON column in place persist, and a
  handler is one atomic step, so two requests that read the same free address before either commits are not modelled.
- Cryptography and JSON: relay JSON is read and written through functions given as parameters; where a theorem needs a
  message read back, it says so as a hypothesis. The fields of a connect message are any JSON values, but NaN.
- Relay connections are entries of maps keyed by a number, so aliasing between protocol objects is not captured, nor is
  what a transport buffers; `RelayServer.stop` is not modelled.
- IPv4 text: subnets are a network number and a prefix length, addresses are 32-bit numbers, and the refusal of a bad
  subnet text is not modelled. Other allowed-ips text, such as `::/0`, is opaque and matches no IPv4 packet.
- IPv6 STUN addresses: the parser says that one was found, not its text; the server builds none.
- Configuration text: word characters and digits are the ASCII ones (white space is all of `str.isspace`), and Python's
  limit on the number of digits of an integer is not modelled.
- `lower()` in name cleaning is a parameter of which only the used properties are assumed.
- Time is a real number in seconds; rounding of floating-point clocks and scores is not modelled.
- `wg set` moving an allowed address from one peer to another, and commands that fail halfway.
- Counters other than the two gauges, events, audit entries and log lines.
- The other parts of the served configuration: its hash, revision, interface and DNS section, and the daemon's reader of
  it, `_parse_config_v2`.
- Addresses set from a request (heartbeat, manual enrolment) and the deletion of devices and networks.
- Authentication and ownership, ACLs, WebSocket messages, hole-puncher futures, peer prober, DNS zone builders, dump
  parsers, the frontend and deployment files: outside formats or easy members.
