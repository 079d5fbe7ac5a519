# A verified model of the yggdrasil chain control plane

Yggdrasil runs a chain of proxy nodes. A terminal owns the rules; it publishes
them as a *predicate set* to its upstream relay, which derives listeners from
it and passes the same bytes further up, to the gateway at the head. Operators
ask the chain about itself with walks that go up hop by hop. Packets between
neighbours are sealed and numbered, and carry sequenced, acknowledged control
envelopes.

The model covers that control plane and the rule algebra beneath it: the
recursive walks, predicate propagation with resync after a restart, session
replay protection, the reliability layer, validation, diff, projection and
derivation of rule sets, the wire codecs with their size limits, and the small
state and arithmetic cores around them. Rust integers appear as `nat` or as
ranges with explicit saturation and truncation, strings as sequences of code
points (whose lexicographic order is Rust's byte order) with a concrete UTF-8
codec, mutex-guarded state as classes.

| file | models |
|---|---|
| `Prelude`, `Ordering`, `Indexing`, `Text` | shared vocabulary: machine integers, stable sorting, maps built by insertion, small text operations |
| `Utf8`, `Postcard`, `ControlFrame`, `Wire` | the wire formats |
| `Delivery`, `Session` | sealed packets, replay protection, what an unreliable network delivers |
| `Reliability` | numbering, retransmission, acknowledgement, duplicate suppression |
| `Rules`, `Reload` | validation across files, bind override, the diff a reload applies |
| `Predicates`, `LegacyShape`, `Extractor`, `Derive` | predicate sets: codec, why the legacy fallback is safe, projection on the terminal, derivation on the relay |
| `Publisher` | what the terminal pushes to its relay, and when |
| `Introspection`, `Relay`, `Forwarding`, `ResyncRace`, `Propagation`, `Restarts`, `EndToEnd` | accepting and forwarding predicates: one relay over every run, the same relay lock by lock, a whole chain, a chain whose nodes restart, and all of it joined |
| `HopDiff`, `HopLabels` | what the command line says about a chain |
| `ChainWalk`, `ChainHopWire`, `Canary` | the recursive walks and the size of what they return |
| `PendingPeers`, `LanCidrs` | the staging store for unknown peers, and network membership |

## What turned out not to hold

Where the code and its documentation or comments differ, the model follows the
code. Each entry names the lemma with the exact condition and, after "input",
the one with a concrete case.

- Hop numbers. A hop at position k >= 1 of a walk carries number 2k - 1, not k
  (`crates/ratatoskr/src/control.rs:587`), because the length of the growing
  list and the offset are both counted. Numbers are positions exactly for
  replies of at most two hops: `ChainWalk.IndexIsPositionIff`. Before asking:
  whenever the limits or the path allow for at most two hops, whatever fails,
  and where nothing on the way fails only then:
  `ChainWalk.ShortWalkNumbersPositions`, `ChainWalk.ClearNumbersPositionsIff`.
  With the real encodings that covers every healthy canary chain within 47 hops
  and every healthy summary chain whose hops fit together:
  `Canary.HealthyNumbersPositionsIff`, `ChainHopWire.SmallChainIsClear`; input:
  `Canary.ThreeNodesAreMisnumbered`.
- Depth budget. A budget of b reaches b hops including the responder, where
  `crates/ratatoskr/src/chain_query.rs:68-70` speaks of b additional ones:
  `ChainWalk.WalkIsBounded`, `ChainWalk.ClearWalk`; input:
  `Canary.ThreeNodesAreMisnumbered`.
- Own ceiling. `crates/ratatoskr/src/chain_query.rs:52-54` says that a receiver
  takes the minimum of the budget and a ceiling of its own. It does not, for a
  budget past sixteen either: `Canary.NoCeiling`; input:
  `Canary.CyclePassesSixteen`. What ends a canary walk regardless of its limits
  is the reply cap, at 101 hops: `Canary.AtMost101Hops`,
  `Canary.SlimRowIsWholeIff`.
- Truncation. `crates/ratatoskr/src/chain_query.rs:43-49` caps a reply so that it
  always fits a packet. A reply cut to the local hop is not measured again:
  `ChainHopWire.ChainHopFitsIff`; input: 815 predicates, which every relay
  accepts, make a hop of more than 24,000 bytes, and the reply cannot be sealed:
  `ChainHopWire.CrowdIsAcceptable`, `ChainHopWire.AcceptedSetOverflows`,
  `ChainHopWire.OverflowCannotBeSent`. Canary replies of up to 47 hops are never
  cut: `Canary.CanaryNeverTruncates`.
- In-session order. The comment at `crates/yggdrasil/src/chain/acceptor.rs:10`
  relies on the reliability layer for order, which it does not restore:
  `Reliability.InOrderIff`; input: `Reliability.ResendAfterNewer`.
- Lost refusals. A duplicate that is still in the window is acknowledged as
  accepted whatever the verdict was: `Reliability.VerdictReportedIff`,
  `Reliability.RefusalLostIff`; input: `Reliability.RefusalLost`. One that has
  left the window is dispatched again: `Reliability.LateDuplicateIsRefusedAgain`.
  A terminal that hears such an Ok shows a set that no relay has; it agrees with
  its drained chain exactly when the last body it heard of is the last
  acceptable one: `Propagation.TerminalAgreesIff`; input:
  `EndToEnd.LostRefusalDrifts`.
- Resync. The store's lock is released before sending, so an update can overtake
  a resync copy, with several origins the map's order decides which body goes
  last, and any send can fail: `ResyncRace.StaleExactlyWhenUnlucky`,
  `Forwarding.ResyncConvergesIff`; input: `ResyncRace.StaleSchedule`,
  `ResyncRace.MisorderedSchedule`, `ResyncRace.FailedSendSchedule`,
  `EndToEnd.TwoTerminalsDiverge`.
- Terminal resync. `crates/yggdrasil/src/chain/predicate_publisher.rs:9-11` says
  that on a new session the current set is pushed again so that a restarted
  relay rebuilds its view. One push that is not confirmed, for a new session or
  as the very first, makes later sessions push nothing: they do exactly when
  some change of the rules was accepted and every session since was too:
  `Publisher.SessionPushesIff`, `Restarts.SessionRepairsIff`; input:
  `Restarts.InterruptedResync`, `EndToEnd.RestartedRelayStaysEmpty`.
- Skipped pushes. The publisher leaves out a push that equals the set last
  accepted (`crates/yggdrasil/src/chain/predicate_publisher.rs:267-279`), also
  when a later set arrived unconfirmed. A drained chain shows the rules exactly
  when the last acceptable push that arrived since the first relay's last
  restart was of them: `Restarts.DrainedShowsRulesIff`; input:
  `Restarts.RevertIsNotPushed`. Where pushes arrive and are answered it always
  does: `Restarts.CalmChainShowsRules`.
- Legacy bodies. The fallback is right exactly when a body is empty or does not
  parse as current: `Predicates.LegacyDecodesIff`; input: `Predicates.LegacyMisread`,
  with names that no rule file may use. With valid names it is always right:
  `LegacyShape.ValidLegacyDecodes`.
- Packet size. The buffer check lets plaintexts up to 13 bytes over the declared
  maximum through: `Session.PacketFitsIff`; input: `Session.OverlongPacket`.
- Bind override can make an accepted rule set unacceptable:
  `Rules.BindOverrideAcceptance`; input: `Rules.BindOverrideMayCollide`.
- A terminal can load rule sets that no relay can derive:
  `Derive.PublishedSetIsDerivable`; input: `Derive.PortReuseIsNotDerivable`.
- Approval queries. Lengthening a query of at least eight bytes never adds a
  match, by any text: `PendingPeers.LongerQueryPicksLess`. A shorter one matches
  nothing and can be lengthened to match a key exactly when it spells the start
  of the key's digest or fingerprint: `PendingPeers.ShortQueryGrowsIff`; input,
  for every key: `PendingPeers.EighthCharacterPicks`.

## Model

| member | source | states |
|---|---|---|
| ChainWalk.HandleChainHopQuery | crates/yggdrasil/src/chain/acceptor.rs:521-659 | the handler, restamping loop and recursion included, returns exactly the specified walk on every graph, cyclic or not, whatever links, nodes and reply sizes do |
| ChainWalk.HandleCanaryArm | crates/yggdrasil/src/chain/acceptor.rs:716-881 | the canary handler, which merges upstream errors differently, returns the same walk |
| ChainWalk.JoinUpstream | crates/yggdrasil/src/chain/acceptor.rs:588-594 | the restamping loop yields the closed form: hop at offset j gets number 2j + 1, only the first is timed here |
| ChainWalk.WalkFollowsPath | crates/yggdrasil/src/chain/acceptor.rs:521-659 | under any failures and truncations the hops of a reply are, in order, a contiguous prefix of the responder's upstream path; position 0 is untimed, every later hop carries the round trip measured by the node below it |
| ChainWalk.PartialMeansError | crates/yggdrasil/src/chain/acceptor.rs:571-641 | a reply is partial exactly when it carries an error text |
| ChainWalk.CompleteIff | crates/yggdrasil/src/chain/acceptor.rs:567-641 | a reply is complete exactly when some top of the chain is within budget and deadline and every node on the way answers and fits its own complete reply under the cap |
| ChainWalk.ReachingIsComplete | crates/yggdrasil/src/chain/acceptor.rs:567-641 | a walk that can reach the top returns the whole path to it, hop by hop in closed form |
| ChainWalk.CompleteReaches | crates/yggdrasil/src/chain/acceptor.rs:567-641 | no other walk is complete, and a complete one has one hop per node on the path |
| ChainWalk.StoppedIsWalk | crates/yggdrasil/src/chain/acceptor.rs:521-659 | every walk in closed form, failing ones included: where and why it stops, top, budget, deadline, failed link, silent node or a reply cut for size, decides the reply, which holds exactly the hops up to there and exactly that reason's text |
| ChainWalk.WalkStops | crates/yggdrasil/src/chain/acceptor.rs:521-659 | and every walk from a node that answers stops at some node for one of these reasons |
| ChainWalk.WalkEndsAt | crates/yggdrasil/src/chain/acceptor.rs:567-618 | without cuts and without recursion: if the limits reach h links up, the nodes up to there answer and fit and the node there ends the walk for a stated reason, the reply is those h + 1 hops with that text, partial unless it is the top |
| ChainWalk.LimitTexts | crates/yggdrasil/src/chain/acceptor.rs:596-618 | in the handlers' own words: which text a spent budget, a spent deadline, a failed link and a silent node above leave |
| ChainWalk.CutReply | crates/yggdrasil/src/chain/acceptor.rs:622-641 | an oversize reply becomes the local hop alone with the note that names the cap |
| ChainWalk.WalkIsBounded | crates/yggdrasil/src/chain/acceptor.rs:567-618 | a walk asks at most max(1, min(budget, ceil(deadline / 250))) nodes, answers that are lost or cut included, and a reply holds no more hops than nodes were asked |
| ChainWalk.ClearWalk | crates/yggdrasil/src/chain/acceptor.rs:567-618 | a walk all of whose nodes answer within the cap over links that deliver ends exactly at that limit or at the top, whichever comes first, and is partial exactly when more path remains |
| ChainWalk.HealthyIsClear | crates/yggdrasil/src/chain/acceptor.rs:567-648 | where every node answers, every link delivers and replies of up to n hops fit, every walk that limits or path keep to n hops is such a walk |
| ChainWalk.IndexIsPositionIff | crates/yggdrasil/src/chain/acceptor.rs:588-594 | hop k >= 1 has number 2k - 1 with no 32-bit loss, so numbers equal positions exactly when there are at most two hops |
| ChainWalk.ShortWalkNumbersPositions | crates/yggdrasil/src/chain/acceptor.rs:567-594 | whenever budget and deadline, or the path, allow for at most two hops, numbers are positions, whatever fails |
| ChainWalk.ClearNumbersPositionsIff | crates/yggdrasil/src/chain/acceptor.rs:567-594 | on such a walk exactly then |
| ChainWalk.LocalHopFirst | crates/yggdrasil/src/chain/acceptor.rs:549-571 | a node that can describe itself always puts its own hop first, cut or not |
| ChainHopWire.ChainHopFitsIff | crates/yggdrasil/src/chain/acceptor.rs:622-648 | with the real encoding, an emitted reply respects the 16 KiB cap exactly when it fitted as assembled or the encoded local hop leaves room for what the truncated form adds |
| ChainHopWire.SmallChainIsClear | crates/yggdrasil/src/chain/acceptor.rs:567-648 | where every node answers, every link delivers and n of the largest hops fit the 16 KiB cap, a walk of up to n hops is stopped by nothing but its limits and the top, and its hop numbers are positions exactly when these allow for at most two hops |
| ChainHopWire.ChainHopSize | crates/ratatoskr/src/control.rs:586-610 | what an encoded hop takes, field by field |
| ChainHopWire.CrowdIsAcceptable | crates/ratatoskr/src/predicate.rs:226 | 815 short TCP predicates fit the 8 KiB predicate cap, and every relay accepts them and reads them back |
| ChainHopWire.AcceptedSetOverflows | crates/yggdrasil/src/chain/acceptor.rs:622-648 | a relay that applied them emits more than 24,000 bytes on every walk, cut or not |
| ChainHopWire.OverflowCannotBeSent | crates/ratatoskr/src/auth.rs:649-663 | such a reply cannot be sealed into a packet |
| ChainWalk.Summarise | crates/yggdrasil/src/control/handlers/chain.rs:123-194 | at the node that was asked: itself alone when it is the top, cannot reach its upstream or gets nothing from it, and otherwise every node up to where the upstream's walk stops; partial unless that is the top |
| ChainWalk.SummaryLength | crates/yggdrasil/src/control/handlers/chain.rs:166-185 | so a summary is complete exactly when the upstream walk reaches the top, then has one hop per node, and over a chain that nothing hinders goes up to the limit or the top |
| ChainWalk.DispatchChainSummary | crates/yggdrasil/src/control/handlers/chain.rs:123-194 | the same with depth 16 and 5000 ms when no timeout or zero is given, otherwise the timeout cut to 32 bits; at most 17 hops |
| Canary.ReplyRoundTrip | crates/ratatoskr/src/canary.rs:127-184 | a canary reply decodes to itself, query id, every field of every hop and error text |
| Canary.HopSize | crates/ratatoskr/src/canary.rs:151-184 | a canary hop with a name of at most 32 bytes encodes to at most 81 bytes beside its number, 86 in all |
| Canary.HopSizeIsTight | crates/ratatoskr/src/canary.rs:151-184 | and some take all 81, whatever their number; both bound the encoding, numbers larger than a walk hands out included |
| Canary.ReplySize | crates/ratatoskr/src/canary.rs:75-80 | a reply with an error of up to 200 bytes encodes to at most 210 bytes beside its hops |
| Canary.HandlerTextsAreShort | crates/yggdrasil/src/chain/acceptor.rs:731-866 | the handler's own texts are within the bound the next result asks for |
| Canary.CanaryNeverTruncates | crates/yggdrasil/src/chain/acceptor.rs:843-870 | with the real encoding no node cuts its reply, and every reply fits, whenever limits or path allow for at most 47 hops, the default limits included |
| Canary.HealthyCanaryIsClear | crates/yggdrasil/src/chain/acceptor.rs:793-870 | where every node answers and every link delivers, such a walk is stopped by nothing but its limits and the top |
| Canary.HealthyNumbersPositionsIff | crates/yggdrasil/src/chain/acceptor.rs:817-823 | and its hop numbers are positions exactly when limits or path allow for at most two hops |
| Canary.NoCeiling | crates/yggdrasil/src/chain/acceptor.rs:793-841 | and on a path without a top it has exactly as many hops as the asker's limits allow, for limits of up to 47 |
| Canary.CyclePassesSixteen | crates/yggdrasil/src/chain/acceptor.rs:793-841 | two nodes that are each other's upstream return forty hops when asked for forty |
| Canary.FiveSecondsPayForTwenty | crates/yggdrasil/src/chain/acceptor.rs:789-797 | each forward costs 250 ms: five seconds pay for twenty hops and one millisecond more for the next |
| Canary.ThreeNodesAreMisnumbered | crates/yggdrasil/src/chain/acceptor.rs:817-823 | three healthy nodes in a row, whoever they are, are numbered 0, 1, 3, and a budget of two reaches two of them |
| Canary.AtMost101Hops | crates/yggdrasil/src/chain/acceptor.rs:843-870 | with the real encoding no canary reply has more than 101 hops, whatever the limits and whatever else happens |
| Canary.SlimRowIsWholeIff | crates/yggdrasil/src/chain/acceptor.rs:843-870 | 101 is exact: a row of nameless nodes behind fast links comes back whole exactly when it has at most 101 of them |
| Delivery.Decoded | crates/ratatoskr/src/auth.rs:586-647 | the counter moves exactly when a packet opens, also when its payload then has the wrong shape, and only upward |
| Delivery.OpenedIs | crates/ratatoskr/src/auth.rs:665-693 | which refusal a packet gets: the first of type, session, counter, replay and authenticity that fails |
| Delivery.NoiseChangesNothing | crates/ratatoskr/src/auth.rs:665-693 | a datagram that does not parse, belongs elsewhere or does not open leaves the receiver as it was |
| Delivery.GenuineOpensIff | crates/ratatoskr/src/auth.rs:665-693 | a peer's packet opens exactly when its number exceeds the last seen, and then delivers its message |
| Delivery.DeliversHighs | crates/ratatoskr/src/auth.rs:665-693 | over any drop, duplicate and reorder network with strays, the receiver delivers exactly the messages whose packets were new highs on arrival |
| Delivery.HighsIncrease | crates/ratatoskr/src/auth.rs:676-683 | those numbers strictly increase, so nothing is delivered twice or out of order |
| Delivery.DeliveredIff | crates/ratatoskr/src/auth.rs:676-683 | message n is delivered exactly when its packet arrives before every later one |
| Delivery.NothingOpensTwice | crates/ratatoskr/src/auth.rs:665-693 | over any datagrams at all, damaged headers included, the numbers opened strictly increase, the counter is the last of them, and each yields at most one message |
| Delivery.RetaggedOpensIff | crates/ratatoskr/src/auth.rs:665-693 | a peer's packet with another type byte opens exactly when its number is new, and yields what its plaintext says under that type |
| Session.Session.EncodePacket | crates/ratatoskr/src/auth.rs:649-663 | emits the framed packet for the current counter and advances it by one exactly when the ciphertext fits its buffer and counters last |
| Session.Session.Encode | crates/ratatoskr/src/auth.rs:558-633 | each message kind goes out under its own packet type with the next counter |
| Session.Session.DecodePacket | crates/ratatoskr/src/auth.rs:665-693 | type, session, counter, replay and AEAD checks in order; only success moves the counter |
| Session.Session.Decode | crates/ratatoskr/src/auth.rs:586-647 | opening and payload decoding agree with the specification the delivery theorem is about |
| Session.PayloadRoundTrip | crates/ratatoskr/src/auth.rs:558-647 | every message decodes from its own plaintext to itself |
| Session.PlaintextBytes | crates/ratatoskr/src/auth.rs:558-647 | the plaintext of each message kind, field by field |
| Session.KindBytes | crates/ratatoskr/src/wire.rs:106-117 | the type byte each message goes out under |
| Session.EncodedIsGenuine | crates/ratatoskr/src/auth.rs:558-633 | what one end encodes the other end finds genuine |
| Session.SessionDelivery | crates/ratatoskr/src/auth.rs:516-693 | end to end, a receiver hands up a subsequence of the messages sent, selected by strictly increasing packet numbers, whatever the network does |
| Session.PacketFitsIff | crates/ratatoskr/src/auth.rs:649-663 | an encoded packet is within the maximum exactly when its plaintext is within the declared maximum |
| Session.OverlongPacket | crates/ratatoskr/src/auth.rs:649-663 | a plaintext one byte over the declared maximum is sealed into a packet one byte over the packet maximum |
| Session.EnvelopePacketFits | crates/ratatoskr/src/wire.rs:67-78 | any envelope with a body of at most 16 KiB is sealed and fits one packet |
| Wire.ParseRendered | crates/ratatoskr/src/wire.rs:158-203 | parsing inverts writing preamble, counter and body |
| Wire.RenderParsed | crates/ratatoskr/src/wire.rs:158-203 | parsing loses nothing, and succeeds exactly on packets that can be written |
| Wire.PacketBytes | crates/ratatoskr/src/wire.rs:158-203 | the bytes of a packet: type, session, counter with the highest byte first, ciphertext |
| Wire.TypeBytes | crates/ratatoskr/src/wire.rs:119-131 | the seven type bytes, and no others, are known |
| Wire.HeartbeatRoundTrip | crates/ratatoskr/src/wire.rs:208-221 | heartbeat plaintexts round trip |
| Wire.HeartbeatAckRoundTrip | crates/ratatoskr/src/wire.rs:223-245 | heartbeat-ack plaintexts round trip |
| ControlFrame.FromByte | crates/ratatoskr/src/control_frame.rs:134-149 | a byte maps to a body type exactly when it is that type's byte; the seven bytes are listed and no other maps |
| ControlFrame.EnvelopeRoundTrip | crates/ratatoskr/src/control_frame.rs:35-43 | envelopes round trip |
| ControlFrame.AckRoundTrip | crates/ratatoskr/src/control_frame.rs:46-64 | acknowledgements round trip, all statuses |
| ControlFrame.FrameBytes | crates/ratatoskr/src/control_frame.rs:20-64 | the bytes of an envelope and of each acknowledgement |
| Reliability.ControlChannel.Enqueue | crates/yggdrasil/src/chain/reliability.rs:141-167 | numbers are consecutive; keeps the ledger that every number is waiting or resolved, never both, and was sent at most five times |
| Reliability.ControlChannel.NextDue | crates/yggdrasil/src/chain/reliability.rs:175-198 | one pass reschedules, drops and emits exactly as specified and keeps the ledger |
| Reliability.PassExact | crates/yggdrasil/src/chain/reliability.rs:175-198 | due entries with sends left are rescheduled, due entries without are dropped and told of the timeout, nothing else changes |
| Reliability.PassSends | crates/yggdrasil/src/chain/reliability.rs:175-198 | exactly the due envelopes with sends left are emitted |
| Reliability.PassAscends | crates/yggdrasil/src/chain/reliability.rs:175-198 | each once, lowest number first |
| Reliability.BackoffIs | crates/yggdrasil/src/chain/reliability.rs:258-265 | waits of 200, 400, 800, 1600 and then 2000 ms |
| Reliability.UnansweredSchedule | crates/yggdrasil/src/chain/reliability.rs:141-198 | an envelope that is never answered is sent again 200, 600, 1400 and 3000 ms after it was enqueued and given up after five seconds |
| Reliability.ControlChannel.OnAck | crates/yggdrasil/src/chain/reliability.rs:210-223 | resolves the waiting sender with what the status says, success, rejection with its code or unknown type, and keeps the ledger; unknown numbers change nothing |
| Reliability.ControlChannel.OnInbound | crates/yggdrasil/src/chain/reliability.rs:226-232 | delivers exactly what the window has not seen and remembers it |
| Reliability.ControlChannel.AbortAll | crates/yggdrasil/src/chain/reliability.rs:241-247 | every waiting sender is told the channel closed |
| Reliability.WindowIsRecent | crates/yggdrasil/src/chain/reliability.rs:88-112 | over any arrivals the window is the 256 most recent deliveries |
| Reliability.AtMostOnceIff | crates/yggdrasil/src/chain/reliability.rs:226-232 | nothing is delivered twice exactly when every repeated arrival comes while its number is among the 256 newest numbers seen, and then each number is delivered once, in order of first arrival |
| Reliability.InOrderIff | crates/yggdrasil/src/chain/acceptor.rs:9-12 | deliveries are in order under every loss pattern exactly when nothing is ever sent again after something newer |
| Reliability.ResendAfterNewer | crates/yggdrasil/src/chain/reliability.rs:141-198 | two envelopes sent together and unanswered for 200 ms are sent as 1, 2, 1, 2 |
| Reliability.VerdictReportedIff | crates/yggdrasil/src/heartbeat/server.rs:410-437 | a sender that hears anything hears the dispatcher's verdict exactly when it was Ok or the send it hears about found its number outside the 256-entry window |
| Reliability.RefusalLostIff | crates/yggdrasil/src/heartbeat/server.rs:410-437 | while duplicates come soon, exactly when it was Ok or no earlier send had arrived |
| Reliability.RefusalLost | crates/yggdrasil/src/heartbeat/server.rs:425-434 | one lost answer turns a refusal into a success |
| Reliability.DuplicateAtTheEdge | crates/yggdrasil/src/heartbeat/server.rs:410-437 | after 255 other deliveries the resent envelope is still taken for a duplicate |
| Reliability.LateDuplicateIsRefusedAgain | crates/yggdrasil/src/heartbeat/server.rs:410-437 | after 256 it is dispatched and refused again |
| Rules.ValidateRule | crates/ratatoskr/src/rule/rule_def.rs:67-175 | a rule passes exactly when its name is visible text, its port not zero, its protocol TCP or UDP and it is of one mode: a relay's with a target port, or a terminal's with a target that parses and no PROXY header; idle times are for UDP and version 1 headers for TCP only |
| Rules.NameOkIff | crates/ratatoskr/src/rule/rule_def.rs:68-81 | which names are visible text, by code point |
| Rules.FromFiles | crates/ratatoskr/src/rule/set.rs:30-39 | loading succeeds exactly when every rule and route is valid and the merged set is acceptable, and then returns the merge, all of whose rules are well formed |
| Rules.MergedIs | crates/ratatoskr/src/rule/set.rs:30-39 | the merge is the files' rules and routes one after the other |
| Rules.AcceptedIff | crates/ratatoskr/src/rule/set.rs:68-121 | acceptable in terms of the fields: no name twice, no address twice on one protocol, no hostname twice in any case |
| Rules.CheckDuplicates | crates/ratatoskr/src/rule/set.rs:68-121 | the hash-based check accepts exactly when names, (listen, protocol) pairs and lower-cased hostnames are pairwise distinct |
| Rules.FirstDuplicateListen | crates/ratatoskr/src/rule/set.rs:81-104 | the bucketed listen check finds a duplicate exactly when two rules share address and protocol |
| Rules.AcceptanceIgnoresFileOrder | crates/ratatoskr/src/rule/set.rs:30-121 | acceptance does not depend on the order of the files |
| Rules.BindOverrideAcceptance | crates/ratatoskr/src/rule/rule_def.rs:187-204 | overriding the bind address keeps an accepted set acceptable exactly when no wildcard rule collides with one already explicit on that address, port and protocol |
| Rules.BindOverrideMayCollide | crates/ratatoskr/src/rule/rule_def.rs:187-204 | two rules for which it does not |
| Rules.BindOverrideIs | crates/ratatoskr/src/rule/rule_def.rs:187-204 | an override changes the address alone, and that only from the wildcard of its own family |
| Reload.Diff | crates/ratatoskr/src/rule/set.rs:152-187 | the map-draining loop computes the specified four-way diff, with removals sorted by name and the rest in the order of the new set |
| Reload.DiffPatches | crates/ratatoskr/src/rule/set.rs:152-187 | applying the diff to the old set's name map yields the new one |
| Reload.DiffCounts | crates/ratatoskr/src/rule/set.rs:152-187 | the parts partition both sides with exact counts |
| Reload.DiffSwaps | crates/ratatoskr/src/rule/set.rs:152-187 | swapping the arguments swaps added and removed and reverses the changes |
| Reload.DiffKeepsOrder | crates/ratatoskr/src/rule/set.rs:152-187 | added, changed and kept keep the order of the new set, removed is sorted by name |
| Reload.NoopMeansEqual | crates/ratatoskr/src/rule/set.rs:227-239 | a diff is a no-op exactly when the rules agree up to order and the routes agree |
| Reload.InitialDiffIsDiffFromEmpty | crates/ratatoskr/src/rule/set.rs:189-195 | the watcher's first event is the diff from the empty set |
| Predicates.CurrentRoundTrip | crates/ratatoskr/src/predicate.rs:173-196 | decoding inverts the current encoding for every valid set |
| Predicates.LegacyDecodesIff | crates/ratatoskr/src/predicate.rs:133-188 | a legacy body decodes to its set with HTTP/3 off exactly when it is empty or does not parse as the current shape |
| Predicates.EmptyLegacySet | crates/ratatoskr/src/predicate.rs:133-188 | the empty legacy set has the same bytes in both shapes |
| Predicates.SingleLegacyFailsAsCurrent | crates/ratatoskr/src/predicate.rs:133-188 | a legacy body with one predicate never parses as current, so it always decodes |
| Predicates.SecondNameDecides | crates/ratatoskr/src/predicate.rs:133-188 | a larger legacy body whose second name has at least two bytes always falls back and decodes |
| Predicates.LegacyMisread | crates/ratatoskr/src/predicate.rs:173-188 | a concrete legacy body, with names no rule file may use, that is accepted as a different set |
| LegacyShape.ValidLegacyDecodes | crates/ratatoskr/src/predicate.rs:133-188 | every legacy set with valid names, of any size, decodes to itself with HTTP/3 off |
| LegacyShape.OneByteNameFails | crates/ratatoskr/src/predicate.rs:173-188 | in particular a second name of one visible byte, the only one that could pass for a flag, never lets the body parse as current |
| LegacyShape.ListPassesPresents | crates/ratatoskr/src/predicate.rs:173-188 | reading n current predicates off legacy bytes uses up n of their option bytes past the first name |
| Extractor.Extract | crates/yggdrasil/src/chain/predicate_extractor.rs:60-97 | the loop and in-place sort compute the canonical projection |
| Extractor.ExtractIsCanonical | crates/yggdrasil/src/chain/predicate_extractor.rs:60-97 | permuting the rules never changes what is published, nor does changing the routes as long as there still are some, or none |
| Extractor.ExtractIsSortedProjection | crates/yggdrasil/src/chain/predicate_extractor.rs:60-128 | what is published carries the terminal's key and, sorted by name, one predicate per rule with its name, port, protocol and for UDP its idle time in whole milliseconds, and one for all routes |
| Ordering.ByteOrder | crates/yggdrasil/src/chain/predicate_extractor.rs:80-82 | the order of names used throughout is the order of their UTF-8 bytes |
| Extractor.ExtractIgnoresBindOverride | crates/ratatoskr/src/rule/rule_def.rs:187-204 | rebinding any of the rules, each to its own address, publishes the same set |
| Extractor.ExtractNamesUnique | crates/yggdrasil/src/chain/predicate_extractor.rs:60-128 | published names are unique exactly when no L4 rule is called public-https while routes exist |
| Derive.Derive | crates/yggdrasil/src/chain/derive.rs:135-198 | derivation succeeds exactly when names and ports are valid and pairwise compatible, whatever the relay's configuration, and then yields the derived rules; otherwise the error blames the first predicate that does not fit, and the earlier one it clashes with |
| Derive.DerivedRulesAreAccepted | crates/yggdrasil/src/chain/derive.rs:135-198 | the rules of a derivable set pass cross-rule validation |
| Derive.DerivedRulesAreValid | crates/yggdrasil/src/chain/derive.rs:304-360 | and each passes per-rule validation |
| Derive.DerivedRulesHandOn | crates/yggdrasil/src/chain/derive.rs:304-360 | every derived rule binds the relay's own address and hands on to the same port of its peer, with a version 2 PROXY header for HTTPS, the configured one for TCP and none for UDP |
| Derive.DerivablePermutes | crates/yggdrasil/src/chain/derive.rs:135-198 | derivability does not depend on the order of the predicates |
| Derive.PublishedSetIsDerivable | crates/yggdrasil/src/chain/predicate_extractor.rs:60-128 | what a terminal publishes is derivable exactly when no port is reused on one transport and the routes' port and names are free |
| Derive.PortReuseIsNotDerivable | crates/yggdrasil/src/chain/derive.rs:246-267 | two rules on one port of different addresses load and are not derivable |
| Derive.RelayListensForTerminal | crates/yggdrasil/src/chain/derive.rs:304-360 | publishing then deriving keeps the meaning: the relay listens for exactly the terminal's names, ports, transports and idle timeouts, plus public-https-tcp and, with HTTP/3, public-https-udp with thirty seconds on the routes' port |
| Derive.RelayRulesForTerminal | crates/yggdrasil/src/chain/derive.rs:304-360 | rule by rule: for what a terminal publishes a relay runs exactly its rules on the relay's address, handed on to the same ports, plus those of the routes |
| Introspection.IntrospectionState.RecordApply | crates/yggdrasil/src/chain/introspection.rs:114-121 | the latest applied set replaces any earlier one |
| Relay.AckForIs | crates/yggdrasil/src/chain/acceptor.rs:350-432 | code 101 exactly for a body over 8 KiB, Ok exactly for one that decodes to a derivable set while the supervisor runs, and code 102 otherwise |
| Relay.ChainAcceptor.HandlePredicateSetUpdate | crates/yggdrasil/src/chain/acceptor.rs:350-490 | the answer depends only on the body and the supervisor; a refused update changes nothing, an accepted one is derived and given to the supervisor, applied, stored per origin and forwarded unchanged |
| Relay.ChainAcceptor.Resync | crates/yggdrasil/src/chain/acceptor.rs:228-279 | a round sends every stored body once, in the order of the copied map, and changes nothing else |
| Forwarding.StoreIsLatestPerOrigin | crates/yggdrasil/src/chain/acceptor.rs:434-489 | in every run the store holds exactly the origins accepted so far, each with its latest accepted body |
| Forwarding.OutboxHoldsAcceptedBodies | crates/yggdrasil/src/chain/acceptor.rs:434-489 | every body ever sent up is byte for byte an accepted one |
| Forwarding.ResentIs | crates/yggdrasil/src/chain/acceptor.rs:228-279 | with a running client a resync sends every stored body exactly once, in the order of the copy |
| Forwarding.SlotIsLatestAccepted | crates/yggdrasil/src/chain/introspection.rs:114-121 | the relay shows the latest accepted set |
| Forwarding.NewSessionOffersLatest | crates/yggdrasil/src/chain/acceptor.rs:201-284 | whatever failed before, a new session offers every origin's latest body |
| Forwarding.RestartConverges | crates/yggdrasil/src/chain/acceptor.rs:201-284 | with one origin and whole accepts and resyncs, an upstream that lost any prefix ends on the relay's latest set once drained, however many sends failed before the new session |
| Forwarding.ResyncConvergesIff | crates/yggdrasil/src/chain/acceptor.rs:228-279 | with several origins a resync whose last send succeeds leaves the upstream right exactly when its iteration order ends with the latest set's origin |
| Forwarding.TwoOriginsMayDiverge | crates/yggdrasil/src/chain/acceptor.rs:228-279 | from any state with two stored origins some iteration order leaves the upstream wrong |
| ResyncRace.InvHolds | crates/yggdrasil/src/chain/acceptor.rs:228-279 | every interleaving of insert, send, copy and resend over any number of origins keeps the store newest per origin and a copy no newer than its copying |
| ResyncRace.StaleExactlyWhenUnlucky | crates/yggdrasil/src/chain/acceptor.rs:228-279 | in every state of every schedule, whichever sends fail, the last body sent is not the newest exactly when a newer one was accepted since it was taken from the store, or it is of a resync copy that sent another origin than the latest one at that place |
| ResyncRace.StaleSchedule | crates/yggdrasil/src/chain/acceptor.rs:453-458 | a six-step schedule that ends stale because an update overtook the copy |
| ResyncRace.MisorderedSchedule | crates/yggdrasil/src/chain/acceptor.rs:228-279 | a schedule without overlap that ends stale because of the copy's order |
| ResyncRace.FailedSendSchedule | crates/yggdrasil/src/chain/acceptor.rs:459-486 | a schedule that ends stale because a send failed, and the next session that repairs it |
| Propagation.InvHolds | crates/yggdrasil/src/chain/acceptor.rs:434-489 | in every run of a chain of any length, links lose, alter and reorder nothing and every node shows the last acceptable body it processed |
| Propagation.DrainedChainAgrees | crates/yggdrasil/src/chain/acceptor.rs:434-489 | with empty queues every relay shows the last acceptable set published, whatever the terminal was told; so does a terminal that heard Ok for exactly what was accepted |
| Propagation.TerminalAgreesIff | crates/yggdrasil/src/chain/predicate_publisher.rs:308-325 | whatever it was told, the terminal agrees with its drained chain exactly when the last body it heard Ok for and the last acceptable one are the same set |
| Propagation.DrainedChainHasNoDrift | crates/yggdrasilctl/src/chain.rs:305-325 | and the chain diff over the nodes' snapshots flags no boundary between relays, nor the one above a terminal that heard the truth, whatever their identities, clocks and rules |
| Publisher.Publisher.PublishOne | crates/yggdrasil/src/chain/predicate_publisher.rs:225-396 | pushes exactly what fits and differs from the set last accepted, and shows it when it is accepted |
| Publisher.Publisher.OnRulesChanged | crates/yggdrasil/src/chain/predicate_publisher.rs:160-178 | a change of the rules pushes and remembers as specified |
| Publisher.Publisher.OnNewSession | crates/yggdrasil/src/chain/predicate_publisher.rs:108-159 | a new session pushes and forgets as specified |
| Publisher.SessionPushesIff | crates/yggdrasil/src/chain/predicate_publisher.rs:131-147 | a new session pushes the rules exactly when they fit, some change of them was accepted and so was everything pushed for a new session since |
| Restarts.InvHolds | crates/yggdrasil/src/chain/acceptor.rs:201-284 | in every run of a chain of any length with one origin, through restarts and lost sessions, what a relay shows is stored, and over a live session it is the last body on its way up or already shown there |
| Restarts.DrainedRelaysAgree | crates/yggdrasil/src/chain/acceptor.rs:201-284 | with every session up and empty queues, when the first relay shows a set every relay shows it, whatever restarted and was lost before |
| Restarts.DrainedShowsRulesIff | crates/yggdrasil/src/chain/predicate_publisher.rs:101-180 | such a chain shows the terminal's rules throughout exactly when the last acceptable push that arrived since the first relay's last restart was of them |
| Restarts.CalmChainShowsRules | crates/yggdrasil/src/chain/predicate_publisher.rs:101-180 | if what is pushed arrives and is answered, it always does, as soon as the rules are acceptable |
| Restarts.SessionRepairsIff | crates/yggdrasil/src/chain/predicate_publisher.rs:108-159 | a first relay that came back empty learns the rules from the next session exactly when they are acceptable and the publisher's history says that the session pushes |
| Restarts.InterruptedResync | crates/yggdrasil/src/chain/predicate_publisher.rs:131-147 | after a resync that breaks before its answer, no later session tells the restarted relay, for any acceptable body |
| Restarts.RevertIsNotPushed | crates/yggdrasil/src/chain/predicate_publisher.rs:267-279 | rules changed and changed back, with the acknowledgement of the change lost, leave the relay on the change |
| EndToEnd.PublishedIsAcceptableIff | crates/yggdrasil/src/chain/acceptor.rs:350-432 | what a terminal publishes is accepted by every relay, and read back unchanged, exactly when it fits 8 KiB, no port is reused and the routes' port and names are free |
| EndToEnd.LoadedIsPublishable | crates/ratatoskr/src/rule/set.rs:30-39 | what loads from files meets what the next results ask of a rule set |
| EndToEnd.PublishedIsStoredUnderOrigin | crates/yggdrasil/src/chain/acceptor.rs:434-458 | an accepted body is shown, and stored under the terminal's own key, beside other terminals' bodies |
| EndToEnd.PublishedReachesEveryNode | crates/yggdrasil/src/chain/acceptor.rs:350-490 | once drained, every relay of a chain of any length shows the rule set published last, with the terminal's key as its origin, and runs exactly the terminal's rules on its own address, handed on to the same ports; a terminal that heard the truth shows it too |
| EndToEnd.RestartedChainServesTerminal | crates/yggdrasil/src/chain/predicate_publisher.rs:101-180 | every relay shows the terminal's rule set and derives its listeners through restarts and lost sessions too, if what is pushed arrives and is answered |
| EndToEnd.RestartedRelayStaysEmpty | crates/yggdrasil/src/chain/predicate_publisher.rs:131-147 | one predicate that every relay accepts, and a restarted relay that stays without it |
| EndToEnd.LostRefusalDrifts | crates/yggdrasil/src/heartbeat/server.rs:410-437 | a terminal whose relay refuses a set, loses the answer and re-acknowledges the resent one shows a set its relay has not: the drained chain drifts at the boundary above the terminal |
| EndToEnd.TwoTerminalsDiverge | crates/yggdrasil/src/chain/acceptor.rs:228-279 | two terminals behind one relay and a new session that leaves the upstream wrong |
| HopDiff.ComputeDiff | crates/yggdrasilctl/src/chain.rs:394-456 | a diff is returned exactly for comparable neighbours, and lists exactly the missing, extra and changed names, each once and in order |
| HopDiff.DiffRepairs | crates/yggdrasilctl/src/chain.rs:394-456 | dropping extras, adding missing and replacing changed turns the receiver's name map into the publisher's |
| HopDiff.InSyncMeansEqual | crates/yggdrasilctl/src/chain.rs:254-259 | in sync holds exactly when the name maps and the origins are equal |
| HopDiff.DiffChain | crates/yggdrasilctl/src/chain.rs:305-325 | the walk reports each boundary, and drift exactly when some comparable boundary disagrees |
| HopDiff.NoDriftMeansAgreement | crates/yggdrasilctl/src/chain.rs:305-325 | no drift over comparable boundaries means all hops agree |
| HopLabels.Labels | crates/yggdrasilctl/src/chain.rs:63-85 | the counting loop yields the name, the name with short key where shared, or the short key |
| HopLabels.LabelIs | crates/yggdrasilctl/src/chain.rs:39-85 | which of the three a hop gets: x25519 and the first eight digits of its key without a name, both when another hop has the name too, the name otherwise |
| HopLabels.ShortEqualIff | crates/yggdrasilctl/src/chain.rs:39-54 | short forms are equal exactly when the first four key bytes are |
| HopLabels.LabelsDistinctIff | crates/yggdrasilctl/src/chain.rs:63-85 | labels are pairwise distinct exactly when no two hops share name and short key and no unshared name is an unnamed hop's short key |
| HopLabels.DistinctKeysGiveDistinctLabels | crates/yggdrasilctl/src/chain.rs:63-85 | distinct short keys and no name that is another hop's short key give distinct labels |
| PendingPeers.PendingPeerStore.RecordCandidate | crates/yggdrasil/src/pending_peers.rs:46-58 | counts a repeated knock, saturating, or appends a first one |
| PendingPeers.PendingPeerStore.Approve | crates/yggdrasil/src/pending_peers.rs:84-140 | answer and new store agree with the specification on every query text |
| PendingPeers.EntriesCountKnocks | crates/yggdrasil/src/pending_peers.rs:46-140 | over any run a key has one entry exactly when it knocked since its last approval; it counts those knocks, saturating, and remembers the first |
| PendingPeers.RecordedIs | crates/yggdrasil/src/pending_peers.rs:46-58 | a first knock goes to the end of the list, a repeated one is counted in place, saturating, and keeps the first time |
| PendingPeers.KeysStayDistinct | crates/yggdrasil/src/pending_peers.rs:46-58 | no key is ever staged twice |
| PendingPeers.SoleMatchIsApproved | crates/yggdrasil/src/pending_peers.rs:84-140 | a query that picks exactly one candidate removes and returns it |
| PendingPeers.ApprovalNeedsSoleMatch | crates/yggdrasil/src/pending_peers.rs:84-140 | only such a query changes the store or approves |
| PendingPeers.AnswerIs | crates/yggdrasil/src/pending_peers.rs:84-140 | every answer: too short with both lengths, not found, the one approved, or the fingerprints of all that match, oldest first |
| PendingPeers.PicksIff | crates/yggdrasil/src/pending_peers.rs:84-125 | which key a query matches: trimmed and in lower case it spells the start of the digest for at least eight characters, with or without the algorithm in front |
| PendingPeers.TrimIs | crates/yggdrasil/src/pending_peers.rs:84-85 | what trimming takes off |
| PendingPeers.LongerQueryPicksLess | crates/yggdrasil/src/pending_peers.rs:84-125 | adding any text to a long enough query never picks a new candidate |
| PendingPeers.ShortQueryGrowsIff | crates/yggdrasil/src/pending_peers.rs:84-125 | a query below eight bytes can be lengthened to pick a key exactly when, blanks in front and case aside, it spells the start of the key's digest or fingerprint |
| PendingPeers.EighthCharacterPicks | crates/yggdrasil/src/pending_peers.rs:95-125 | for every key, seven characters of its digest pick nothing and eight pick it |
| LanCidrs.SameBlockIff | crates/yggdrasil/src/lan_cidrs.rs:143-171 | at any width the shift-and-mask test holds exactly when the prefix is in range and both addresses have the same quotient by the block size |
| LanCidrs.ContainsIffInBlock | crates/yggdrasil/src/lan_cidrs.rs:128-134 | a network contains exactly the addresses of one aligned interval of its own family |
| LanCidrs.LongerPrefixContainsLess | crates/yggdrasil/src/lan_cidrs.rs:128-171 | a longer prefix contains less |
| LanCidrs.UnionOfBlocks | crates/yggdrasil/src/lan_cidrs.rs:248-250 | the resolved set is the union of its blocks |

## Left out

- The Noise handshake and the ciphers: an AEAD is a pair of functions with the ideal laws `Session.Ideal` (sealing adds 16 bytes, opening inverts sealing under the same nonce). That the transport refuses to seal when the ciphertext exceeds its buffer or the nonce is used up follows the snow crate, which is not part of this model.
- Altered packets: `Delivery.DeliversHighs` covers drops, repeats, reorderings and datagrams that do not open. For a peer packet whose type byte was changed on the way there are `Delivery.NothingOpensTwice` and `Delivery.RetaggedOpensIff`; which plaintexts read as another type is not worked out.
- Clocks, sockets and task scheduling: time is a parameter, link outcomes and round trips are oracles of the walk, interleavings are modelled only where the resync depends on them.
- The query router and its correlation ids: an upstream query either delivers the next node's reply or fails with a text.
- `ChainWalk` itself measures replies with an arbitrary size function; `ChainHopWire` and `Canary` supply the encodings. Durations inside a rule are written by the humantime crate, whose text is a parameter.
- The canary arm table and its expiry clamp: they do not affect the walk.
- The proxy supervisor beyond whether it takes a rule set, and everything that handles traffic.
- Target parsing, HSTS and static-header checks: parameters of rule validation.
- BLAKE2s: the fingerprint digest is an arbitrary function from keys to text, of 32 hex digits where its form matters; in `Publisher` a body stands for its digest.
- TOML, JSON, command-line parsing and human rendering, configuration, enrolment files, ACME, metrics, logging, bench tools.
- Propagation.DrainedChainAgrees: assumes first-in first-out links and no restarts; `Reliability.InOrderIff` says when links are, and `Restarts` has the restarts.
- Restarts.DrainedRelaysAgree: assumes one terminal, supervisors that take every acceptable set, first-in first-out sessions, and accepts and resyncs as single steps; `Forwarding.ResyncConvergesIff` and `ResyncRace` say what several origins and finer steps change.
- Forwarding.RestartConverges: takes accepts and resyncs as single steps; `ResyncRace` gives the finer steps.
- Reliability.VerdictReportedIff: takes the dispatcher's verdict on an envelope to be the same each time it is dispatched.
- Reliability.ControlChannel.NextDue: visits the numbers in ascending order where the code iterates an ordered map, which comes to the same entries in the same order.
- ChainHopWire.ChainHopSize: measures the encoding and does not decode it; `Canary.ReplyRoundTrip` does for canary replies.
