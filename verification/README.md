# flowsdn, modelled in Dafny

A model of the parts of flowsdn whose correctness is hardest to see by reading:
the BGP speaker, cluster identity allocation, policy lowering, endpoint
ownership under faults, direct-route planning and four self-contained cores.
`dafny verify dfyconfig.toml` checks all of it.

## What is modelled

**BGP (`flowsdn-bgp-proto`).** Bytes up to whole runs of two speakers. `Bytes`,
`Framing`, `OpenCodec`, `OpenParameters`, `Messages`, `Prefixes`, `Update` and
`EncodeUpdate` are the codecs; loops of the source are methods proved against
recursive functions. `OpenGrammar` and `UpdateGrammar` say which octets are an
OPEN and an UPDATE and what they mean, as grammars over the raw bytes, and prove
the readers exact against them; `Attributes` is a reader of path attributes
written from the RFCs, against which the encoder is proved. `Negotiation` is
capability negotiation. `SessionCore` is one step of the
session as a function; `SessionMachine` is the object with fields changed in
place, on a copy that replaces the original on success, proved against it.
`SessionInvariants` is what every step keeps and `SessionRuns` what every run
has; `SessionTimers` bounds its waits, `SessionHold` ties the hold timer to the
last sign of the peer, `SessionTransitions` says what each event does,
`SessionReactions` that no update or export is lost, and `SessionReasons` what
the peer is told and whether it may keep the routes. `Speakers` joins two sessions by byte
streams cut anywhere, with lost and new connections, and proves that both ends
of one connection agree on what they negotiated; `Handshake` shows that such
runs exist for every pair of configurations that can negotiate. `Collision` is
connection ownership. Sockets, clocks and randomness are inputs: a time and an
entropy word per call.

**Policy.** `Ports` expands port ranges into masked blocks, `PolicyLowering` is
the rewrite that puts denies where a longest-prefix lookup finds them,
`PolicyKeys` and `PolicyTrie` are the map key, the entry and the longest-prefix
map, and `Datapath` is the three lookups of the packet path. The result is a
meaning-preservation theorem from rules to packets, with the entries of other
endpoints untouched.

**Identity.** `Identity` is the allocator of one node, `IdentityCluster` any
number of nodes over one create-if-absent store, with stale lists, racing and
late creates, lost replies, foreign objects, deletions and restarts, and
`IdentityRuns` what holds on every run of it; `IdentityLabels` spells the
well-known label sets. A label set is its canonical key:
the format escapes nothing, so two label sets with one canonical key are one
label set here as they are in the code. An acquire is an update guarded by the
resource version that keeps the labels, so it does not change the store. A node
may hold several lists, each a past view of the store, and use any of them.

**Endpoints.** `EndpointStore` is the durable store and the forwarding map as
effects that may each fail, take effect and then report an error, or be the last
before the process stops, and none of it while the machine is healthy;
`Endpoints` is the manager. The machine carries its
history: a list of states from an empty machine to the present one, each one
allowed effect after the one before, and every one of them safe.

**Routes, calendar, URLs, changed packages.** `Routes`, `Calendar`, `Url` and
`Changed`; `Arith` holds the nonlinear arithmetic they share.

## Results that differ from what one might expect

- "No free number means the range is full" fails near the top of the 32-bit
  start range, where the sum wraps inside one scan: it holds for exactly the
  starts up to 2^32 - 65280 (`Identity.NoneMeansFull`).
- Not deleting a *held* identity object is not enough for one number to mean one
  label set: an object nobody holds but some node's list still shows can be taken
  up from that list after its deletion, on a run from a cluster without agents
  (`IdentityRuns.UnheldIsNotEnough`). The
  exact condition on a deletion is that no node counts on the object: none
  reports it, none is about to learn that it was created, and no list in use
  resolves a label set to it (`IdentityRuns.DeletionExactly`).
- Agents do not always converge on one number for a label set, as the comment at
  crates/flowsdn-agent/src/identity.rs:152-154 says. A pass ends on the oldest
  listed number exactly when the node holds no number for the label set, that
  one, or one listed under other labels (`Identity.PassResolvesOldest`). Two nodes
  that lease before either sees the other's object keep different numbers after
  both have seen both (`IdentityRuns.TwoNumbersForOneSet`). Each number still
  means one label set.
- A restart's record checks accept every state a run leaves except one: a
  directory caught between the removal of its file and its own
  (`Endpoints.RestartAccepts`, both directions). The first effect of taking any
  directory down leaves such a state (`Endpoints.TornRefused`), and it is four
  states into a history (`Endpoints.TornReached`).

## Model

| member | source | states |
|---|---|---|
| `Framing.EncodeDecode` | crates/flowsdn-bgp-proto/src/lib.rs:64-111 | Encoding succeeds exactly for the sizes the kind allows, and the frame decodes to the same kind and body whatever bytes follow |
| `Framing.DecodeExactly` | crates/flowsdn-bgp-proto/src/lib.rs:64-95 | For every buffer, from its raw octets: a frame exactly when the header is acceptable and all its bytes are there, a wait only when they are not, an unknown type only when the length could be right, a bad length otherwise |
| `Framing.EncodeExactly` | crates/flowsdn-bgp-proto/src/lib.rs:96-111 | A message is written exactly when the kind allows its size, as sixteen octets of ones, the length, the type and the body |
| `Framing.DecodeStable` | crates/flowsdn-bgp-proto/src/lib.rs:64-95 | A frame or an error found in a prefix of the stream stays the same when more bytes arrive |
| `Framing.DrainFragments` | crates/flowsdn-bgp-proto/src/lib.rs:64-95 | Decoding a stream cut at any point finds the same frames, rest and fault as decoding it whole |
| `Framing.DrainStream` | crates/flowsdn-bgp-proto/src/lib.rs:64-111 | Any list of encodable frames, concatenated, decodes back to exactly that list with nothing left |
| `OpenCodec.EffectiveAsnLoop` | crates/flowsdn-bgp-proto/src/open.rs:88-98 | The capability loop finds the one four-octet AS number, falls back to the two-octet field, and refuses disagreement |
| `OpenCodec.EffectiveAsnExactly` | crates/flowsdn-bgp-proto/src/open.rs:88-98 | The AS number is n exactly when all four-octet capabilities have four bytes and say n, or there is none and the two-octet field says n; every refusal is a malformed OPEN |
| `OpenCodec.EncodeOpenLoop` | crates/flowsdn-bgp-proto/src/open.rs:116-145 | The buffer-building loop produces the OPEN body of its specification, or its error |
| `OpenCodec.DecodeOpenLoop` | crates/flowsdn-bgp-proto/src/open.rs:40-87 | The nested cursor loops read every body as the recursive parse does, with the same error |
| `OpenCodec.OpenRoundTrip` | crates/flowsdn-bgp-proto/src/open.rs:40-145 | Every OPEN that encodes decodes to itself, in 10 to 265 bytes |
| `OpenGrammar.DecodeExactly` | crates/flowsdn-bgp-proto/src/open.rs:40-87 | An OPEN body is read exactly when it is spelled by the grammar (version, fields, parameters of any number of capabilities each, lengths that add up, AS numbers that agree), as what it spells; otherwise the first of size, version and hold time that is wrong is reported |
| `OpenGrammar.ParamsExactly` | crates/flowsdn-bgp-proto/src/open.rs:56-86 | The parameters read as a list of capabilities exactly when they are that list cut into parameters anywhere; every refusal is a malformed OPEN |
| `OpenGrammar.EncodeExactly` | crates/flowsdn-bgp-proto/src/open.rs:116-145 | An OPEN can be sent exactly when its AS numbers agree, its hold time is zero or at least three, every capability has a value its code allows and fits a parameter, and all fit 255 octets; otherwise the exact error |
| `Negotiation.NegotiationSymmetric` | crates/flowsdn-bgp-proto/src/capabilities.rs:91-133 | If one end accepts, the other accepts exactly when the first has a router ID and the expected AS number, and then both agree on hold time, families, four-octet AS numbers, route refresh and graceful restart terms |
| `Negotiation.NegotiateExactly` | crates/flowsdn-bgp-proto/src/capabilities.rs:91-133 | Two OPENs that can be sent negotiate exactly when the peer has the expected AS number, a router ID that is not zero and not ours, and some family is spoken by both; otherwise the refusal is the first of these that fails |
| `Negotiation.NegotiatedExactly` | crates/flowsdn-bgp-proto/src/capabilities.rs:91-185 | What is negotiated, from the two capability lists: the smaller hold time, exactly the families both announce, four-octet AS numbers exactly when both list capability 65, route refresh exactly when both list capability 2, graceful restart exactly when both state terms, with our restart time, the peer's terms and notifications exactly when both support them |
| `Negotiation.RestartExactly` | crates/flowsdn-bgp-proto/src/capabilities.rs:143-175 | The restart terms of an OPEN are those its last such capability states bit by bit: twelve bits of seconds, the restart and notification flags, and exactly the valid families whose tuple keeps forwarding; none when there is none or it is malformed |
| `Negotiation.LocalOpenLoop` | crates/flowsdn-bgp-proto/src/capabilities.rs:52-82 | The loop over the families builds the OPEN of its specification, or its error |
| `Negotiation.LocalOpenAnnounces` | crates/flowsdn-bgp-proto/src/capabilities.rs:52-82 | A locally built OPEN announces exactly the given families and carries the full AS number; its two-octet field is that number, or 23456 when it does not fit |
| `Negotiation.LocalOpensNegotiate` | crates/flowsdn-bgp-proto/src/capabilities.rs:52-133 | Two locally built OPENs with different router IDs and a common family always negotiate, to the same terms on both sides and the smaller hold time |
| `Negotiation.GracefulRestartLoop` | crates/flowsdn-bgp-proto/src/capabilities.rs:38-51 | The loop over the families builds the capability of its specification, or its error |
| `Negotiation.GracefulRestartRead` | crates/flowsdn-bgp-proto/src/capabilities.rs:38-51 | A peer reads back the restart time capped at twelve bits, the restart flag, notification support and no kept forwarding |
| `Messages.NotificationRoundTrip` | crates/flowsdn-bgp-proto/src/messages.rs:9-31 | Exactly the notifications whose data fits encode; a body decodes to exactly the notification whose code, subcode and data it lists, and the two directions are inverse |
| `Messages.HardResetRecovered` | crates/flowsdn-bgp-proto/src/messages.rs:60-78 | The receiver of a wrapped cause recovers it whole and does not keep routes |
| `Messages.RefreshRoundTrip` | crates/flowsdn-bgp-proto/src/messages.rs:33-50 | A valid family survives the ROUTE-REFRESH body, which always fits a frame |
| `Messages.RefreshExactly` | crates/flowsdn-bgp-proto/src/messages.rs:38-50 | For every ROUTE-REFRESH body: refused for its size, else for a family other than IPv4 or IPv6 unicast, else the family in its first two and last octets |
| `Prefixes.NewPrefixCanonical` | crates/flowsdn-bgp-proto/src/update.rs:49-74 | A new prefix has no host bits, and canonical prefixes are fixed points |
| `Prefixes.ReadPrefixesLoop` | crates/flowsdn-bgp-proto/src/update.rs:95-119 | The cursor loop reads every NLRI field as the recursive parse does, with the same error |
| `Prefixes.ReadNlri` | crates/flowsdn-bgp-proto/src/update.rs:81-119 | Any list of canonical prefixes, encoded, reads back as that list |
| `Prefixes.ReadExactly` | crates/flowsdn-bgp-proto/src/update.rs:95-119 | An NLRI field reads as a list of prefixes exactly when it is, entry by entry, a bit length within the family and the octets that many bits need, the host bits cleared; every refusal is an invalid network field |
| `Prefixes.ReadCanonical` | crates/flowsdn-bgp-proto/src/update.rs:95-119 | Whatever the reader accepts consists of canonical prefixes of the right family |
| `Update.AsPathLoop` | crates/flowsdn-bgp-proto/src/update.rs:134-151 | The segment loop accepts exactly the well-formed AS paths |
| `Update.ValidateLoop` | crates/flowsdn-bgp-proto/src/update.rs:180-319 | The validation loops give, for every body, the summary or the failure with data that `UpdateGrammar.ValidateExactly`, `UpdateGrammar.RefusalExplained` and `UpdateGrammar.StructureExplained` characterise |
| `UpdateGrammar.ValidateExactly` | crates/flowsdn-bgp-proto/src/update.rs:180-319 | A body is accepted with a summary exactly when it fits the limit and the grammar of raw octets gives it that summary: withdrawn routes, attributes and NLRI enclosed by their lengths, no attribute twice, each flagged as its code demands with a value its code allows, the mandatory ones present, prefixes and unknown transitive attributes as listed |
| `UpdateGrammar.FieldExactly` | crates/flowsdn-bgp-proto/src/update.rs:225-303 | One attribute passes exactly when its code is new, its flags are those of its code and its value is one its code allows, and it adds exactly its meaning to the summary |
| `UpdateGrammar.PathExactly` | crates/flowsdn-bgp-proto/src/update.rs:134-151 | An AS path passes exactly when it is a concatenation of segments, each a set or a sequence of at least one number of the width |
| `UpdateGrammar.RefusalExplained` | crates/flowsdn-bgp-proto/src/update.rs:180-319 | Every refusal of a structurally sound body names a fault the body has, with the attribute at fault, cut to size, as data for exactly the subcodes that carry it |
| `UpdateGrammar.StructureExplained` | crates/flowsdn-bgp-proto/src/update.rs:190-224 | A body whose structure is broken is refused with subcode 1 where the enclosing lengths or a last single octet do not fit, and otherwise with subcode 5 and everything from the attribute that does not fit |
| `Update.StructuralExactly` | crates/flowsdn-bgp-proto/src/update.rs:190-319 | Within the size limit the attribute-structure error is reported exactly when an enclosing length or some attribute does not fit, whatever earlier content says |
| `Update.ErrorCodes` | crates/flowsdn-bgp-proto/src/update.rs:180-319 | A refusal is a header error exactly for oversized bodies and an UPDATE error otherwise |
| `Update.ErrorScopes` | crates/flowsdn-bgp-proto/src/update.rs:180-319 | A refused body within the limit failed in its content exactly when its structure is sound |
| `Update.LenientDiscardsOnlyStructured` | crates/flowsdn-bgp-proto/src/lib.rs:113-125 | The lenient policy discards only structurally sound messages, the strict one none, and every failure's data fits a NOTIFICATION |
| `EncodeUpdate.BodyValid` | crates/flowsdn-bgp-proto/src/encode_update.rs:59-125 | The body of any batch of the right family within the limit validates and announces exactly the batch |
| `EncodeUpdate.CheckedOutcome` | crates/flowsdn-bgp-proto/src/encode_update.rs:158-162 | A batch becomes a frame exactly when its body fits, of exactly that size, and a receiver reads back the batch and the attributes of the export |
| `EncodeUpdate.AttributesExactly` | crates/flowsdn-bgp-proto/src/encode_update.rs:60-93 | An export is encoded exactly when its family is IPv4 or IPv6 unicast, no AS number is zero, the sequence has at most 1024, the origin is known and the next hop is a host address of the right kind; the family is refused first, with its own error |
| `EncodeUpdate.BodySays` | crates/flowsdn-bgp-proto/src/encode_update.rs:47-99 | Every body carries, as an independent reader finds them, the configured AS path with our own number in front for an external peer, although a two-octet path shows 23456 for large numbers, an AS4_PATH exactly when one is needed, and the origin, next hop and local preference |
| `EncodeUpdate.Announcements` | crates/flowsdn-bgp-proto/src/encode_update.rs:128-157 | Succeeds exactly when the export is well formed, every prefix is of its family and fits a frame alone; then each frame is at most 4096 bytes, decodes and validates, the frames announce the input in order with nothing lost or added, none is split early, and a receiver reads from each the whole AS path (through AS4_PATH where two octets do not suffice), the origin, the next hop and the local preference; otherwise the exact error |
| `EncodeUpdate.Withdrawals` | crates/flowsdn-bgp-proto/src/encode_update.rs:164-210 | Succeeds exactly for a valid family and prefixes of it, however many; for receivers with two-octet and four-octet AS numbers alike the frames decode, validate and withdraw the input in order, none split early |
| `SessionCore.RetryDelayBounded` | crates/flowsdn-bgp-proto/src/session.rs:97-103 | For an accepted interval the delay cannot fail, is at least one and less than two intervals, and the jitter is what the entropy leaves of whole intervals |
| `OpenParameters.OpenParameterSubcodeLoop` | crates/flowsdn-bgp-proto/src/session.rs:653-693 | The walk answers 4 exactly when some complete parameter is of an unknown type and the OPEN cut off before it decodes by itself, or is all header, and 0 otherwise |
| `OpenParameters.NextWhole` | crates/flowsdn-bgp-proto/src/open.rs:40-87 | An OPEN that decodes also decodes when cut off after any of its parameters |
| `SessionInvariants.PollGood` | crates/flowsdn-bgp-proto/src/session.rs:254-289 | From every good state a timer step keeps the invariant, leaves nothing due, takes at most two generations, and fails only for a reversed clock or an exhausted range |
| `SessionInvariants.HandleGood` | crates/flowsdn-bgp-proto/src/session.rs:290-425 | The same for every event; a configuration error never occurs again |
| `SessionInvariants.ReceiveGood` | crates/flowsdn-bgp-proto/src/session.rs:426-470 | The same for received bytes; incomplete input changes nothing, anything else consumes at least one byte and at most all |
| `SessionInvariants.NeverStuck` | crates/flowsdn-bgp-proto/src/session.rs:254-425 | With the clock moving forward and room in both counters no input fails |
| `SessionRuns.EveryReachableState` | crates/flowsdn-bgp-proto/src/session.rs:105-425 | In every state of every run from a new session: parameters negotiated exactly in OpenConfirm and Established, a stopped session idle without timers, a running one before that always with a timer armed, keepalive armed exactly with hold, every deadline in the future |
| `SessionTimers.NoLongWait` | crates/flowsdn-bgp-proto/src/session.rs:229-280 | In every state of every run a reconnect is less than twice the retry interval away, the end of idling five seconds, of an unanswered OPEN four minutes, of silence the hold time, and the next keepalive a third of the hold time and the configured interval |
| `SessionHold.InputHold` | crates/flowsdn-bgp-proto/src/session.rs:229-240 | For every input in every reachable state: a conversation that goes on has its hold timer set anew exactly if the input was a KEEPALIVE or a valid UPDATE of its connection, or the OPEN that began it, and otherwise as it was |
| `SessionHold.HoldFromLastHeard` | crates/flowsdn-bgp-proto/src/session.rs:471-607 | On every run, whenever messages are exchanged, the hold deadline is the negotiated time after the last input on this connection that showed the peer alive |
| `SessionHold.ExpiresExactly` | crates/flowsdn-bgp-proto/src/session.rs:254-264 | On every run, an input ends an exchange for silence (code 4) exactly when the negotiated hold time has passed since the peer was last heard |
| `SessionHold.ConversationLasts` | crates/flowsdn-bgp-proto/src/session.rs:253-264 | On every run in which the peer is heard within every hold interval, no conversation ends for silence |
| `SessionTransitions.AcceptedExactly` | crates/flowsdn-bgp-proto/src/session.rs:105-126 | A session is made exactly of an OPEN that can be sent with a router ID and an AS number, a role that can be connected, and nonzero intervals whose jittered delay stays in range; it starts idle |
| `SessionTransitions.WaitsForSome` | crates/flowsdn-bgp-proto/src/session.rs:105-166 | A session that waits always waits for some connection |
| `SessionTransitions.TickExactly` | crates/flowsdn-bgp-proto/src/session.rs:253-281 | The timer step by the one timer it finds due, in order: silence ends the connection with code 4 and five seconds idle, the idle and retry waits end in a new attempt under a new generation with a new jittered retry, a due keepalive goes out and the next is one interval away; otherwise nothing but the clock |
| `SessionTransitions.TakesUpExactly` | crates/flowsdn-bgp-proto/src/session.rs:343-376 | A new connection is taken up exactly when the session waits for it; then an OPEN goes out that reads back as the configured one and the peer has four minutes; any other connection is told to drop and changes nothing |
| `SessionTransitions.TransitionsExactly` | crates/flowsdn-bgp-proto/src/session.rs:303-425 | In every reachable state, what starting, stopping, resetting and losing a connection do to state, generation, timers and actions, and exactly when they do nothing |
| `SessionTransitions.OpenMovesOn` | crates/flowsdn-bgp-proto/src/session.rs:508-533 | An OPEN that negotiates is answered with a KEEPALIVE, and both timers follow the negotiated hold time |
| `SessionTransitions.HeardGoesOn` | crates/flowsdn-bgp-proto/src/session.rs:562-592 | A message that shows the peer alive leaves the conversation established under its generation, with only the hold timer set anew |
| `SessionTransitions.DiscardUnmoved` | crates/flowsdn-bgp-proto/src/session.rs:582-607 | A refused update of sound structure costs a lenient session nothing but the update: it is discarded with its error and the session is as it was |
| `SessionTransitions.RefreshUnmoved` | crates/flowsdn-bgp-proto/src/session.rs:608-625 | A refresh request and a soft reset change nothing of the session |
| `SessionTransitions.BeatsExactly` | crates/flowsdn-bgp-proto/src/session.rs:241-281 | An input sends a KEEPALIVE exactly when one is due or the peer's OPEN was accepted, and the next is then one interval away and otherwise as it was |
| `SessionReactions.NothingLost` | crates/flowsdn-bgp-proto/src/session.rs:303-641 | Over every run the updates passed on and discarded and the exports asked for are, in order, exactly what the inputs called for in the states they met |
| `SessionReasons.FarewellRead` | crates/flowsdn-bgp-proto/src/session.rs:186-215 | Whatever the cause of a reset, the peer reads exactly it, wrapped in a hard reset or not |
| `SessionReasons.EventTells` | crates/flowsdn-bgp-proto/src/session.rs:303-641 | On every event in every reachable state the peer is told exactly the reason the event is, with its data, and nothing without one |
| `SessionReasons.FrameTells` | crates/flowsdn-bgp-proto/src/session.rs:471-641 | The same for every message in every connected state: a message out of place, an OPEN or UPDATE refused, each with its own code and data |
| `SessionReasons.FramingTells` | crates/flowsdn-bgp-proto/src/session.rs:429-470 | Bytes that break the framing are answered with the length or the type that did it, and only on the connection they came on |
| `SessionReasons.OfferedReads` | crates/flowsdn-bgp-proto/src/session.rs:533-548 | The data of a no-common-family refusal reads back as the multiprotocol capabilities offered |
| `SessionReasons.RetainsExactly` | crates/flowsdn-bgp-proto/src/session.rs:186-228 | An end of a conversation says that the peer may keep the routes exactly when graceful terms allow it for that cause, and an event that ends nothing leaves the last word |
| `SessionReasons.ExpiryRetains` | crates/flowsdn-bgp-proto/src/session.rs:254-264 | For silence, exactly when both ends support notifications |
| `SessionRuns.GenerationsRise` | crates/flowsdn-bgp-proto/src/session.rs:142-166 | Over every run the connection attempts carry fresh, strictly increasing generations between the first and the last state's |
| `SessionRuns.DepartureTakesGeneration` | crates/flowsdn-bgp-proto/src/session.rs:186-228 | Between any two points of a run the generation does not fall, and under one generation a connection only moves forward |
| `SessionRuns.OneEndOfRibPerGeneration` | crates/flowsdn-bgp-proto/src/session.rs:562-575 | Two end-of-RIB exports of a run belong to different generations |
| `SessionRuns.StaleEventInert` | crates/flowsdn-bgp-proto/src/session.rs:343-424 | An event of another generation does nothing beyond the timer step; a late connection is told to drop |
| `SessionRuns.StaleBytesInert` | crates/flowsdn-bgp-proto/src/session.rs:429-470 | The same for received bytes, however they frame |
| `SessionMachine.Offered` | crates/flowsdn-bgp-proto/src/session.rs:533-548 | The capability loop collects the data of an unsupported-capability refusal |
| `SessionMachine.Machine.New` | crates/flowsdn-bgp-proto/src/session.rs:105-126 | A session is made exactly for an accepted configuration (`SessionTransitions.AcceptedExactly`), in the state that starts every run |
| `SessionMachine.Machine.Connect` | crates/flowsdn-bgp-proto/src/session.rs:149-166 | Field by field, the dial-or-listen step and its action, or its error |
| `SessionMachine.Machine.ResetNotification` | crates/flowsdn-bgp-proto/src/session.rs:186-228 | Field by field, the reset step: farewell, close, new generation, idle wait, disposition |
| `SessionMachine.Machine.AdvanceTimers` | crates/flowsdn-bgp-proto/src/session.rs:254-281 | Field by field, the timer step of `SessionTransitions.TickExactly`, or its error; hold expiry wins ties |
| `SessionMachine.Machine.ProcessEvent` | crates/flowsdn-bgp-proto/src/session.rs:303-425 | Field by field, the event step of `SessionTransitions.TransitionsExactly` and `SessionReasons.EventTells` with its actions appended, or its error |
| `SessionMachine.Machine.ReceiveOpen` | crates/flowsdn-bgp-proto/src/session.rs:508-561 | Field by field, the OPEN step: negotiated parameters and timers, or the exact refusal |
| `SessionMachine.Machine.ReceiveUpdate` | crates/flowsdn-bgp-proto/src/session.rs:582-607 | Field by field, the UPDATE step under the strict or lenient policy, so that the hold timer is set anew exactly for a valid update |
| `SessionMachine.Machine.ReceiveFrame` | crates/flowsdn-bgp-proto/src/session.rs:471-641 | Field by field, the step of any frame in any state, whose timers `SessionHold.InputHold`, reports `SessionReactions.NothingLost` and refusals `SessionReasons.FrameTells` pin down |
| `SessionMachine.Machine.Poll` | crates/flowsdn-bgp-proto/src/session.rs:283-289 | Commits the timer step and its actions, or returns the error with nothing changed; the invariant stays |
| `SessionMachine.Machine.Handle` | crates/flowsdn-bgp-proto/src/session.rs:290-302 | Commits the timer and event steps and their actions in order, or returns the error with nothing changed; the invariant stays |
| `SessionMachine.Machine.Receive` | crates/flowsdn-bgp-proto/src/session.rs:429-470 | Commits one message and the bytes it took, waits for more without a change, or returns the error with nothing changed; the invariant stays |
| `Speakers.MoveKeeps` | crates/flowsdn-bgp-proto/src/session.rs:283-470 | Every move of one end (timer, administration, connection, delivery of any piece of the peer's bytes, loss) keeps: each connection starts with this end's OPEN, and a connection past it was negotiated with the peer's |
| `Speakers.BothEndsAgree` | crates/flowsdn-bgp-proto/src/session.rs:429-575 | After any turns of two new sessions joined by byte streams cut anywhere, if both ends of one connection exchange messages they agree on hold time, families, four-octet AS numbers, route refresh and graceful notification support, and these are what the two configured OPENs come to: the smaller hold time, the families both announce, four-octet AS numbers and route refresh exactly when both list capabilities 65 and 2 |
| `Handshake.HandshakeCompletes` | crates/flowsdn-bgp-proto/src/session.rs:303-575 | For every two accepted configurations that negotiate both ways, one dialing and one listening, some run ends with both Established on one connection |
| `Collision.Connections.Allocate` | crates/flowsdn-bgp-proto/src/collision.rs:29-36 | Issues the next number and makes it pending, or nothing when exhausted |
| `Collision.Connections.Abandon` | crates/flowsdn-bgp-proto/src/collision.rs:37-39 | Drops a pending token of this pool, and says whether it was one |
| `Collision.Connections.Established` | crates/flowsdn-bgp-proto/src/collision.rs:47-55 | Marks exactly the current connection |
| `Collision.Connections.Closed` | crates/flowsdn-bgp-proto/src/collision.rs:56-62 | Clears exactly the current connection |
| `Collision.Connections.Consider` | crates/flowsdn-bgp-proto/src/collision.rs:63-99 | The resolution and the new state for every token, direction and pair of router IDs |
| `Collision.ConsiderExactly` | crates/flowsdn-bgp-proto/src/collision.rs:63-99 | For every token, direction and pair of router IDs: the handle is spent if it was pending, the place is taken exactly when free or when held by an unestablished connection of the other direction that is not the preferred one, and the displaced connection is named |
| `Collision.EveryConnectionEnds` | crates/flowsdn-bgp-proto/src/collision.rs:56-99 | Over every run each accepted connection is displaced or closed exactly once, in order of acceptance, except the one still in place |
| `Collision.AcceptedOnce` | crates/flowsdn-bgp-proto/src/collision.rs:63-76 | After a token is accepted and any further operations, considering it again is rejected and changes nothing |
| `Collision.AbandonedNever` | crates/flowsdn-bgp-proto/src/collision.rs:37-39 | A token that was abandoned is rejected after any further operations, and cannot be abandoned again |
| `Collision.AbandonExactly` | crates/flowsdn-bgp-proto/src/collision.rs:37-39 | A token can be abandoned exactly while it is pending in this pool, and then nothing else changes |
| `Collision.AllocateExactly` | crates/flowsdn-bgp-proto/src/collision.rs:29-36 | Every token has a number above all before it and waits to be considered; none is issued exactly when the range is used up |
| `Collision.PlaceExactly` | crates/flowsdn-bgp-proto/src/collision.rs:47-62 | Establishing and closing answer yes exactly for the connection in place: the one marks it, the other frees the place, and any other token changes nothing |
| `Collision.EstablishedStays` | crates/flowsdn-bgp-proto/src/collision.rs:77-88 | Over any operations that do not close it, an established connection keeps its place |
| `Collision.KeepsPreferred` | crates/flowsdn-bgp-proto/src/collision.rs:77-98 | A speaker that considers an inbound and an outbound connection in either order, with any other allocations and abandonments around, ends with the preferred one |
| `Collision.SpeakersKeepTheSame` | crates/flowsdn-bgp-proto/src/collision.rs:63-99 | Two speakers with different nonzero router IDs that each dialed keep the same connection, for every pair of orders: the one dialed by the greater ID |
| `Ports.FromApi` | crates/flowsdn-policy/src/ports.rs:17-34 | A range is made exactly for no end port, or a nonzero start not above the end; it contains exactly the ports asked for, every port for port zero alone, and each refusal has its own error |
| `Ports.Blocks` | crates/flowsdn-policy/src/ports.rs:45-65 | The blocks are aligned, lie end to end from the first port to the last, and none could be larger |
| `Ports.TilingCovers` | crates/flowsdn-policy/src/ports.rs:72-81 | Such blocks match exactly the ports of the range, each by one block |
| `Ports.GreedyIsMinimal` | crates/flowsdn-policy/src/ports.rs:44-65 | No tiling of the range by aligned blocks has fewer blocks |
| `PolicyLowering.HoldsSubset` | crates/flowsdn-agent/src/policy.rs:577-589 | A key that holds another matches all its packets |
| `PolicyLowering.SubsetHolds` | crates/flowsdn-agent/src/policy.rs:577-589 | A key that matches all packets of another holds it |
| `PolicyLowering.SharedNested` | crates/flowsdn-agent/src/policy.rs:577-589 | Keys that share a packet are nested |
| `PolicyLowering.AgainstDenies` | crates/flowsdn-agent/src/policy.rs:603-613 | One allow against every deny: kept exactly when none covers it, and then every deny inside it is repeated at its identity |
| `PolicyLowering.DenyOverAllow` | crates/flowsdn-agent/src/policy.rs:596-617 | The loops keep exactly the uncovered allows, keep every deny, and add only denies repeated inside an allow, all of them for kept allows |
| `PolicyLowering.L4Keys` | crates/flowsdn-agent/src/policy.rs:703-713 | The keys of a rule are well formed, of its identity, and match exactly the rule's packets |
| `PolicyKeys.SameKeyExactly` | crates/flowsdn-bpf-abi/src/policy.rs:15-43 | A key is made exactly for a prefix up to 16, with no port constraint under protocol zero, and two rules get one key exactly when they are of one identity and direction and match the same packets |
| `PolicyKeys.TrieLayout` | crates/flowsdn-bpf-abi/src/policy.rs:190-220 | The octets the lookup compares: endpoint and identity in little-endian order, direction, protocol, and the port in network order |
| `PolicyKeys.EncodedHits` | crates/flowsdn-bpf-abi/src/policy.rs:190-220 | On the trie's bytes, a rule's key holds a full-length lookup exactly for its endpoint, direction and identity and a packet the rule matches |
| `PolicyKeys.LongestUnique` | crates/flowsdn-bpf-abi/src/policy.rs:190-220 | Two rule keys of one length that hold the same lookup are one key |
| `PolicyTrie.EntryCarries` | crates/flowsdn-bpf-abi/src/policy.rs:79-114 | Deny bit, L4 prefix length, no authentication, no proxy port and the precedence read back from the packed entry, bit by bit |
| `PolicyTrie.EntryExactly` | crates/flowsdn-bpf-abi/src/policy.rs:79-114 | An entry is made exactly for a prefix length of zero or eight to twenty-four and an authentication type of seven bits, and every field reads back from its own bits |
| `PolicyTrie.WriteEntries` | crates/flowsdn-agent/src/policy.rs:717-758 | Writes a deny at every deny's key and an allow at every other allow's, changes no other key, and counts the new ones |
| `PolicyTrie.LookupIsolated` | crates/flowsdn-agent/src/policy.rs:717-758 | Writing one endpoint's direction leaves every lookup of any other as it was |
| `Datapath.AggregateStable` | crates/flowsdn-bpf/src/bin/local-delivery/policy.rs:255-278 | A group is its own group, and every group is one of the four aggregates or none |
| `Datapath.AggregateExactly` | crates/flowsdn-bpf/src/bin/local-delivery/policy.rs:255-278 | An identity's group from its parts: 13 for the world scope, 14 for remote nodes, 11 for this cluster and 12 for any other from number 100 on, itself for 0 and the aggregates, none for the other reserved numbers |
| `Datapath.GroupsExactly` | crates/flowsdn-bpf/src/bin/local-delivery/policy.rs:255-278 | An identity that is not an aggregate has a group exactly when it is a member of it |
| `Datapath.IdentityAnswers` | crates/flowsdn-bpf/src/bin/local-delivery/policy.rs:287-308 | The longest match at one identity is a deny exactly when a deny in force there matches, else an allow exactly when a kept allow does, else nothing |
| `Datapath.DenyWins` | crates/flowsdn-bpf/src/bin/local-delivery/policy.rs:258-355 | For every packet and remote, the lookups at the identity, its aggregate and identity 0 allow exactly when some original allow of one of the three matches and no original deny of one of the three does |
| `Datapath.VerdictExactly` | crates/flowsdn-bpf/src/bin/local-delivery/policy.rs:310-355 | For every table whatsoever: an own entry of the highest precedence decides alone; otherwise a packet passes exactly when the found entry of the greatest precedence, then the longest L4 prefix, then the remote's own, does not deny it and no authentication is asked for, by it or, unless it is explicit, by another of its precedence |
| `Datapath.NoSharedKey` | crates/flowsdn-agent/src/policy.rs:596-617 | Kept allows and denies in force never share a map key |
| `Datapath.VerdictIsolated` | crates/flowsdn-bpf/src/bin/local-delivery/policy.rs:310-355 | Writing one endpoint's direction leaves every other verdict as it was |
| `Datapath.EnforceDirection` | crates/flowsdn-agent/src/policy.rs:476-512 | From allow and deny rules of one endpoint's direction, with or without default deny, to packets: a packet is allowed exactly when no deny of its identity, its group or identity 0 matches and an allow of one of them does (or nothing is required), and no other endpoint or direction changes |
| `Datapath.GroupAllows` | crates/flowsdn-agent/src/policy.rs:476-512 | Under default deny, one allow for a group admits exactly the rule's packets from the group's own number and from its members, so an allow at 11 admits exactly identity 11 and this cluster's identities |
| `Identity.WellKnown` | crates/flowsdn-agent/src/identity.rs:72-110 | Well-known label sets get numbers of the reserved range |
| `Identity.WellKnownExactly` | crates/flowsdn-agent/src/identity.rs:68-110 | A label set is well known exactly when it is some number's, the namespace label adding eight, and it gets that number |
| `Identity.WellKnownInjective` | crates/flowsdn-agent/src/identity.rs:72-110 | A well-known number names one label set |
| `IdentityLabels.DnsCanonical` | crates/flowsdn-agent/src/identity.rs:72-98 | The keys the well-known numbers are compared with list exactly the labels of a cluster DNS pod, each once, in the order of their keys |
| `Identity.Oldest` | crates/flowsdn-agent/src/identity.rs:155-165 | The loop builds the table of its specification |
| `Identity.OldestExact` | crates/flowsdn-agent/src/identity.rs:155-165 | The table has exactly the listed label sets, each with its oldest object, ties to the lowest number |
| `Identity.OlderExactly` | crates/flowsdn-agent/src/identity.rs:155-165 | The older object is the one whose creation time comes first in text order, and of equal times the lower number |
| `Identity.OldestConverges` | crates/flowsdn-agent/src/identity.rs:152-165 | The oldest object of a label set depends on which objects are listed, not on their order |
| `Identity.FreeIsFirst` | crates/flowsdn-agent/src/identity.rs:368-375 | The first unused number of the scan, or none when all it visits are used |
| `Identity.NoneMeansFull` | crates/flowsdn-agent/src/identity.rs:368-375 | None means a full range for every set of used numbers exactly when the start is at most 2^32 - 65280 |
| `Identity.Allocator.Reconcile` | crates/flowsdn-agent/src/identity.rs:249-334 | The pass, updating the held map label set by label set, leaves what `Identity.PassLeaves` says and asks for exactly the writes of `Identity.PassActsExactly`, and keeps the allocator's law |
| `Identity.PassActsExactly` | crates/flowsdn-agent/src/identity.rs:249-334 | A write is in a pass exactly when it takes the heartbeat mark off a listed object a wanted label set settled on, under the listed version, or creates the number one settled on that is not listed and whose create is not still on its way |
| `Identity.RecreatesLost` | crates/flowsdn-agent/src/identity.rs:272-297 | A wanted label set whose seen object is no longer listed keeps its number, and the pass creates the object again |
| `Identity.PassLeaves` | crates/flowsdn-agent/src/identity.rs:249-334 | Everything a pass leaves, label set by label set, and nothing for label sets not wanted |
| `Identity.WithoutOnlyWhenFull` | crates/flowsdn-agent/src/identity.rs:300-334 | A wanted label set goes without a number only when every number the scan visits is listed, was held or is held |
| `Identity.Allocator.Created` | crates/flowsdn-agent/src/identity.rs:338-349 | How each outcome of a create changes the held map |
| `Identity.PassKeeps` | crates/flowsdn-agent/src/identity.rs:249-334 | After every pass held numbers are distinct, each listed with exactly its label set or not listed, and the writes of the pass have distinct numbers, each the one its label set holds |
| `Identity.PassExplained` | crates/flowsdn-agent/src/identity.rs:249-334 | A number verified after a pass is well known, the oldest listed for its label set, or was held already; an unverified one was held unverified before or is created by this pass |
| `Identity.PassResolvesOldest` | crates/flowsdn-agent/src/identity.rs:249-334 | For any wanted label sets in any order, a pass reports the oldest listed number of one exactly when nothing was held for it, that number was, or one that is listed under other labels; a held number listed for the label set is kept |
| `Identity.AgentsConverge` | crates/flowsdn-agent/src/identity.rs:152-334 | Two agents with the same objects that both meet that condition report one number |
| `IdentityCluster.NextKeeps` | crates/flowsdn-agent/src/kubernetes_controller.rs:459-511 | Every step of any node, the store or the network keeps the cluster invariant |
| `IdentityRuns.NumbersNameOneSet` | crates/flowsdn-agent/src/identity.rs:249-353 | On every run of any number of nodes, with deletion only of objects no node counts on, a number reported for a label set is stored with exactly it (or is its well-known number), so no number means two label sets |
| `IdentityRuns.DeletionExactly` | crates/flowsdn-agent/src/identity.rs:268-349 | In every state that satisfies the cluster invariant, so in every reachable one, deleting an object keeps every report right on every continuation exactly when no node reports it, is about to learn of its creation, or has a list that resolves a label set to it |
| `IdentityRuns.UnheldIsNotEnough` | crates/flowsdn-agent/src/identity.rs:299-312 | For every ordinary label set, a run from a cluster without agents reaches a state in which no node holds its object and deleting it leads to a report of a number that means nothing |
| `IdentityRuns.TwoNumbersForOneSet` | crates/flowsdn-agent/src/identity.rs:280-349 | For every ordinary label set, a run from an empty cluster ends with two nodes that have both seen both objects and report different numbers for it |
| `IdentityRuns.LeasesComplete` | crates/flowsdn-agent/src/identity.rs:313-349 | Whatever an idle node holds and wants, once the writes of a pass are answered every number it asked to create that no one else had is stored under its label set and reported |
| `IdentityRuns.LostIsStoredAgain` | crates/flowsdn-agent/src/identity.rs:272-349 | An object deleted while a node holds it as seen is stored again under the same number and label set, and reported, once the node has seen a list of what is left and the writes of its next pass are answered |
| `EndpointStore.World.Stage` | crates/flowsdn-agent/src/state.rs:127-158 | Staging is refused without a change when the directory or a leftover exists; otherwise it leaves its own staging directory or nothing, and no published directory changes |
| `EndpointStore.World.Publish` | crates/flowsdn-agent/src/state.rs:195-204 | Publishes the record or nothing, an error being possible after either; forwarding stays owned |
| `EndpointStore.World.Remove` | crates/flowsdn-agent/src/state.rs:161-185 | Removes a directory, leaves it, or leaves it without its file; safe at each point once nothing is forwarded for it |
| `EndpointStore.World.Upsert` | crates/flowsdn-agent/src/endpoints.rs:430-434 | Points an address of a published record at its endpoint; safe at each point |
| `EndpointStore.World.RemoveIfPresent` | crates/flowsdn-agent/src/endpoints.rs:466-469 | Removes one address's forwarding; safe at each point |
| `EndpointStore.OwnEntries` | crates/flowsdn-agent/src/endpoints.rs:198-211 | In every safe state a published record's addresses carry its own entries or none, so the stale-ownership refusal of a restart cannot fire |
| `EndpointStore.EffectSafe` | crates/flowsdn-agent/src/endpoints.rs:312-471 | Each effect the manager may have, on the conditions under which it has it, leaves published records pairwise distinct and every forwarded address owned by one of them |
| `Endpoints.IdPool.Allocate` | crates/flowsdn-agent/src/state.rs:241-247 | The lowest free ID up to the limit, or exhaustion exactly when all are used |
| `Endpoints.IdPool.Reserve` | crates/flowsdn-agent/src/state.rs:248-254 | Reserves exactly a nonzero unused ID, also above the limit |
| `Endpoints.IdPool.Release` | crates/flowsdn-agent/src/state.rs:255-257 | Frees the ID and no other |
| `Endpoints.ValidateOwners` | crates/flowsdn-agent/src/endpoints.rs:65-82 | Accepts exactly lists with nonempty, pairwise distinct names and nonzero, pairwise distinct indices |
| `Endpoints.ReadRecords` | crates/flowsdn-agent/src/state.rs:87-123 | Reads exactly the published records, and exactly when every directory is sound and names, indices, attachments and addresses are distinct |
| `Endpoints.RestartAccepts` | crates/flowsdn-agent/src/state.rs:87-123 | Of the states runs leave, a restart's record checks accept exactly those without a torn directory |
| `Endpoints.TornRefused` | crates/flowsdn-agent/src/state.rs:161-185 | From every safe state, removing the file of any directory without forwarding leaves a safe machine on which a restart is refused |
| `Endpoints.TornReached` | crates/flowsdn-agent/src/state.rs:161-185 | For every endpoint, staging, publishing and removing the file is a history whose last state a restart refuses and whose state before it accepts |
| `Endpoints.Install` | crates/flowsdn-agent/src/endpoints.rs:426-459 | On success every address of the record is forwarded to it; on any failure and rollback no other address changes and the state stays safe throughout |
| `Endpoints.Uninstall` | crates/flowsdn-agent/src/endpoints.rs:460-471 | On success none of the record's addresses is forwarded; no other changes |
| `Endpoints.ForwardsExactly` | crates/flowsdn-agent/src/endpoints.rs:47-60 | A record is forwarded exactly when each address of its document leads to its interface, its endpoint number, the pod's hardware address and the node's |
| `Endpoints.Manager.Create` | crates/flowsdn-agent/src/endpoints.rs:312-399 | For any pattern of failures: live records stay pairwise distinct in ID, attachment, addresses, interface name and index, the pool equals their IDs, durable records are live, every unmarked live record is published and forwarded, and every state on the way is safe; success means live, durable, forwarded and the lowest free ID; failure means live records, directories and forwarding exactly as before, or the record kept and marked; nothing of another endpoint changes either way; success only for a document that shares no attachment, address, interface name or index with a live record, and on a machine without faults always for such a document, under the lowest free ID, unless a leftover staging directory holds that ID |
| `Endpoints.Manager.Delete` | crates/flowsdn-agent/src/endpoints.rs:400-417 | The same invariants; success leaves nothing of the record, failure keeps it live and marked, absence changes nothing; nothing of another endpoint changes in any case; on a machine without faults it succeeds, also after failed attempts |
| `Endpoints.Manager.Restore` | crates/flowsdn-agent/src/endpoints.rs:131-235 | From any state runs leave and any set of host links: exactly the published records whose link is there are live, all published and forwarded, or the start fails with the machine still safe; a torn directory fails before anything changes; on a machine without faults it succeeds exactly when no directory is torn |
| `Endpoints.AnyRun` | crates/flowsdn-agent/src/endpoints.rs:131-471 | Over any sequence of starts, creates, deletes, failures and stops between effects, the machine goes from empty through one allowed effect at a time, every forwarded address belongs to a durable published record in every state, published records are pairwise distinct, and a restart's record checks refuse exactly the states with a torn directory |
| `Routes.OverlapsExactly` | crates/flowsdn-agent/src/kubernetes.rs:441-460 | Two CIDRs overlap under the shorter mask exactly when some address lies in both |
| `Routes.HoldsExactly` | crates/flowsdn-agent/src/kubernetes.rs:441-460 | A CIDR holds exactly the addresses of the aligned block of its size around its address, and its own alone when it is as long as an address |
| `Routes.RouterInside` | crates/flowsdn-agent/src/kubernetes.rs:389-409 | The router address lies in its CIDR, one after the network address |
| `Routes.DerivedCollide` | crates/flowsdn-agent/src/kubernetes.rs:347-387 | The CIDRs derived for two nodes without any overlap, in either family, exactly when the nodes' IPv4 addresses end in the same byte |
| `Routes.NodeCidrsExactly` | crates/flowsdn-agent/src/kubernetes.rs:347-440 | A node's CIDRs are exactly those it publishes and, for each family that is derived and that it publishes none of, the one its first address of the family gives: 10.x/16 from the last octet, and the fixed IPv6 base with the IPv4 network or the low 32 bits of its own address |
| `Routes.DesiredRoutes` | crates/flowsdn-agent/src/kubernetes.rs:477-526 | The nested loops report exactly the overlapping pairs and plan exactly the routes of the rule |
| `Routes.OneNodePerAddress` | crates/flowsdn-agent/src/kubernetes.rs:477-526 | No address lies under routes to two nodes |
| `Routes.LocalStaysLocal` | crates/flowsdn-agent/src/kubernetes.rs:477-526 | No address lies under a route and a pod CIDR of the local node |
| `Routes.RefusedExactly` | crates/flowsdn-agent/src/kubernetes.rs:482-500 | A CIDR is refused exactly when it shares an address with another node's |
| `Routes.WithheldExactly` | crates/flowsdn-agent/src/kubernetes.rs:470-526 | A CIDR with a gateway is routed exactly when no other node's shares an address with it |
| `Routes.AgentsAgree` | crates/flowsdn-agent/src/kubernetes.rs:419-440 | Any two agents plan the same routes to a third node, with the same gateway |
| `Calendar.ToFrom` | crates/flowsdn-agent/src/log.rs:19-30 | Every day converts to a valid date whose day number is that day |
| `Calendar.FromTo` | crates/flowsdn-agent/src/log.rs:19-30 | Every valid date from the epoch on is the conversion of its day number |
| `Calendar.ConversionCounts` | crates/flowsdn-agent/src/log.rs:19-30 | The conversion of day n is the date reached by counting n calendar days, leap years included, from 1970-01-01 |
| `Calendar.ClockIsExact` | crates/flowsdn-agent/src/log.rs:31-37 | Hours, minutes and seconds are in range and with the date determine the second |
| `Calendar.TextExact` | crates/flowsdn-agent/src/log.rs:19-38 | The text has nineteen characters whose fields read back as the date and time, and every second past the last of year 9999 is shown as that one |
| `Calendar.LastSecond` | crates/flowsdn-agent/src/log.rs:6-20 | The last second shown is 23:59:59 on 31 December 9999 |
| `Calendar.CopiesAgree` | crates/flowsdn-version/build_support.rs:39-64 | The build's copy accepts exactly the decimal strings, of any length, through the last second of year 9999, gives the agent's text with a final Z, and the text reads back as the number given |
| `Url.EncodeComponent` | crates/flowsdn-api-client/src/lib.rs:254-266 | The loop escapes exactly the reserved bytes |
| `Url.EscapesExactly` | crates/flowsdn-api-client/src/lib.rs:254-266 | Letters, digits and four marks stay as they are; any other byte becomes a percent sign and two upper-case digits of its value |
| `Url.DecodeLoop` | crates/flowsdn-agent/src/api.rs:939-969 | The loop undoes escapes as the recursive definition does, refusing broken escapes and bytes that are not UTF-8 |
| `Url.DecodeExactly` | crates/flowsdn-agent/src/api.rs:939-969 | A text decodes to bytes exactly when it spells them by plain bytes and escapes in either case, and they encode characters |
| `Url.Utf8Exactly` | crates/flowsdn-agent/src/api.rs:939-969 | Exactly the concatenations of encoded characters, surrogates excluded, pass as UTF-8 |
| `Url.RoundTrip` | crates/flowsdn-agent/src/api.rs:939-969 | Every UTF-8 string survives encoding by the client and decoding by the agent |
| `Url.QueryValuesLoop` | crates/flowsdn-agent/src/api.rs:970-984 | The loop reads a query as the recursive definition does, refusing broken pairs and duplicates |
| `Url.QueryExactly` | crates/flowsdn-agent/src/api.rs:970-984 | A query reads as a table exactly when its pieces between ampersands are empty or pairs that decode, no key twice, and the table is those pairs |
| `Url.QueryRoundTrip` | crates/flowsdn-agent/src/api.rs:970-984 | Any list of pairs with distinct keys, whatever bytes they hold, is read back as exactly those pairs |
| `Url.AllocateArrives` | crates/flowsdn-api-client/src/lib.rs:196-211 | The allocation target splits into the IPAM path and a query that reads back as the owner, family and pool given |
| `Url.AllocateReads` | crates/flowsdn-api-client/src/lib.rs:196-211 | In the query read back the owner is as given, and family and pool are present exactly when not empty, as given |
| `Url.ReleaseArrives` | crates/flowsdn-api-client/src/lib.rs:212-222 | The release target splits into a path whose last part decodes to the address and a query that reads back as the pool |
| `Url.EndpointArrives` | crates/flowsdn-agent/src/api.rs:574-592 | From the request target with an empty query the agent recovers any endpoint identifier, and takes it for the health sub-route exactly when the client asked for it |
| `Changed.Close` | xtask/src/changed.rs:111-123 | The repeat-until-stable loop ends, on cyclic graphs too, with exactly the packages that reach a seed along dependencies |
| `Changed.FindOwner` | xtask/src/changed.rs:95-100 | The innermost package around a file, or none exactly when no package contains it |
| `Changed.OwnerUnique` | xtask/src/changed.rs:95-100 | Two innermost packages of a file have the same directory |
| `Changed.PathsExactly` | xtask/src/changed.rs:78-110 | Global files are those below the specification, inventory and build directories, every manifest and four named files; inert ones are the rest of the documentation and six named files; a package holds what is below its directory |
| `Changed.Select` | xtask/src/changed.rs:78-123 | Every package when some file is global or outside every package and not inert; else exactly the packages that reach a directly changed one |
| `Changed.SystemTls` | xtask/src/changed.rs:195-243 | Exactly the packages that reach one named openssl or openssl-sys in the resolved graph are marked |
| `Changed.MuslSelection` | xtask/src/changed.rs:185-260 | Succeeds exactly when every node and every dependency of the resolved graph is a package with a node and every workspace member has one; then each member's name is there, selected exactly when the last member of that name does not reach OpenSSL |

## Left out

- Endpoints.Manager.Restore: starts from a machine state that runs of the manager leave; for directories written by anything else only the record checks are covered (`Endpoints.ReadRecords`). Which host links exist is given, and a link's index and address matching the record is a step that may fail.
- Endpoints.Manager.Delete: releasing an owned address is taken to succeed, and address leases are not conserved, since a failed create keeps its lease.
- Endpoints.Manager.Create: a leftover staging directory makes staging fail for its ID, as in the source, where pending directories are kept for diagnosis and nothing removes one.
- IdentityRuns.NumbersNameOneSet: a deletion that some node counts on does not happen in these runs; `IdentityRuns.DeletionExactly` says what it would do.
- Identity.Allocator.Reconcile: label sets are canonical keys in any order without repeats, and the list has one object per number and none in the reserved range.
- PolicyLowering.L4Keys: port ranges are not empty, as `Ports.FromApi` makes them.
- Datapath.EnforceDirection: takes rules with their identities already selected; selecting peers from pods, CIDRs and labels is not modelled, nor are audit, learning and connection tracking.
- Collision.Connections.Consider: a pool's identity is a number given to it, where the source compares the address of a shared cell.
- Routes.DesiredRoutes: collisions are records of names and CIDRs, not lines of text.
- Calendar.TextExact: milliseconds of log stamps and the wording of refusals are not modelled.
- Url.ReleaseArrives: the address is text; parsing it is not modelled.
- Changed.Select: the package graph is given; reading it from cargo metadata is not modelled.
- Changed.MuslSelection: the metadata lists each package identifier once; the wording of its refusals is not modelled.
- Retained routes, RIB counters and the exporter that carries out a session's actions.
- The end-of-RIB message body, a fixed text per family.
- Kernel programs and maps other than endpoint forwarding and policy entries: installing and removing them are steps that may fail.
- Kubernetes watches, JSON documents and HTTP: documents appear as their parsed parts, requests as their targets.
- Load balancing, IPAM pools, host policy shaping, tagging, map reuse planning and the fixed-layout codecs besides the policy key and entry: they would add members that one branch settles.
