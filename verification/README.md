# NullPath channel and handshake: a verified model

This Dafny project models the `decoypath` crate (NullPath): the ratcheting multi-path
`SecureChannel`, the anti-replay store behind it, the 1024-byte envelope and its decoys, and the
two-pass handshake that gives both ends the root key of the channel.  It proves what the crate
promises over whole runs: with both ends sending and receiving, every delivered message is the one
the other end sent under its number, at most once; a rejected packet changes nothing; at one endpoint
no position of the key chain serves twice; and the two ends of an accepted handshake agree.  What does
not hold always is stated exactly.  Over both ends no key seals twice, and new messages can still get
through, exactly as long as the ends have not crossed, each having sent a message whose number the
other has not reached.  In one direction late packets within the window are always recovered, and in
two directions a packet is accepted exactly when the two ends counted alike.  A past key can still be
derived exactly when a stored key sits at or below its position.

`dafny verify dfyconfig.toml` checks the project.

## How it is built

- `ByteCodec`, `Symbols`, `PathEngine`, `Envelope`, `Decoy`: bytes, symbolic cryptography, the key
  chain, the envelope and the slots.  A key is a seed and a position.  Every byte on the wire is a
  cell: a plain byte, or one byte of the ciphertext or of the tag of a box, where a box names the
  key, nonce, associated data and plaintext of one AEAD encryption (RFC 8439, section 2.8).  `Seal`
  and `Open` fill, encrypt, decrypt and wipe arrays of cells in place, so the layout of the envelope
  is part of the model, and an envelope with one cell changed does not open.
- `AntiReplay`: the store as a class with its map, its queue and its loops, proved against a function
  on the queue; then what the queue is after any history of calls.
- `ChannelModel`: `send` and `receive` in closed form on values.  `Channel`: the object with its
  fields and loops, proved to compute exactly that.  Its ghost field `history` lists the calls made,
  and `Valid` ties the fields to the run of those calls, so every theorem about runs is about the
  object.
- `Endpoint`, `EndpointTheorems`: one endpoint under any interleaving of sends and receives, with
  whatever envelopes arrive; the invariant and what follows from it for all runs.
- `Stream`: two ends of one root key, each sending and receiving, joined by a network that loses,
  reorders, duplicates, reflects and replaces packets.  It may present plain bytes, boxes under keys
  outside the chain, and any cells seen on the wire from either end in any arrangement, but no
  ciphertext or tag cell under a chain key that was never sent.
- `Delivery`: which untouched packets are accepted, by the key that is tried; conversations in turns;
  and one direction, where late packets are recovered.  `Interleaving`: the same for both ends
  sending, late packets included, by what each end had done when it derived the key.
- `Crossing`: when the two ends seal with one key and stop reaching each other.  Until then one end
  leads, with a ledger that mirrors the other's and goes on with sends under way.
- `ForwardSecrecy`: which keys of the chain a state can still derive.
- `HandshakeTypes`, `HandshakeCrypto`, `Handshake`: the handshake on real bytes, for any suite of
  primitives in which a signature verifies under its own key (RFC 8032, section 5.1) and
  Diffie-Hellman commutes (RFC 7748, section 6.1).  Unforgeability is assumed only of the one
  signature that is being checked, and the absence of an HKDF collision only of the two keys that are
  being compared.  `SecureSession` puts the two parts together.

Random draws (nonces, paddings, decoy keys and payloads, ephemeral secrets) and clock readings are
parameters, so every theorem holds for every outcome of the generator.  The HMAC that picks the slot
is an arbitrary function.

## Where code and documentation differ

- The repository's README derives ratchet keys with HMAC-SHA256; the code uses a prefixed SHA-256
  (src/path_engine.rs:28-36).  The model needs only that it is one derivation per position.
- The comment at src/channel.rs:22-23 bounds the work per packet by 1,000 derivations.  A first packet
  numbered 1,000 costs 1,001 (`DerivationWorkIsBounded`, `FirstPacketCanExceedTheWindow`).
- The comment at src/decoy.rs:10 says a decoy fails under any key; it opens under its own discarded
  key and under no other (`DecoyOpensOnlyUnderItsOwnKey`).
- The 300-second window of the anti-replay store is applied when a packet is accepted, not when a
  packet is looked up: a late duplicate is called replayed by the time of the latest accept, whatever
  the time is now (`ReplayDiagnosisIsExact`).
- The repository's README says that each key is used exactly once to seal (README.md:187), and
  src/envelope.rs:31-35 demands a single-use key for every seal and says the channel guarantees it.
  Both ends advance one chain (src/channel.rs:25-32), and each may send at any time.  No key seals
  twice exactly as long as the ends have not crossed (`SealedOnceExactlyUnlessCrossed`); a send keeps
  it so exactly if its end has reached all that the other sent (`SendKeepsSingleUseExactly`);
  `SharedKeyExactly` says which sends share a key.  First messages that cross share one
  (`CrossingFirstMessagesAreRefused`), and a message sealed with a shared key is never delivered
  (`SharedSendIsNeverDelivered`).  Ends that take turns, in any order of speakers, never share a key
  (`TurnsSealOnce`) and deliver everything (`TurnTakingDelivers`).
- Crossing is permanent.  Each refusal leaves the channel as it was, yet no new number is ever reached
  again at either end, whatever is sent afterwards (`CrossedForever`); ends that have not crossed can
  go on, given a path and counters not at their end (`StuckExactlyWhenCrossed`).  The documentation
  does not mention it.  For a single packet the condition is that the receiver had sent, when it derived the key, as many messages as the
  sender had reached numbers when it sealed (`InStepExactly`, `NewPacketAccepted`,
  `AcceptedExactlyWhenKeysMeet`).
- The repository's README says that past keys are unrecoverable (README.md:176).  The table keeps chain
  keys, and a chain key yields all later ones: a past key can be derived exactly when a stored key sits
  at or below its position (`RecoverableExactly`), the key of a delivered packet exactly as long as a
  lower number is still awaited (`DeliveredKeyRecoverable`), as after a first packet numbered 1
  (`FirstOutOfOrderDeliveryIsRecoverable`).  With an empty table the sentence holds
  (`ForwardSecretExactlyWhenTableEmpty`), and a key once lost is never derivable again (`LostStaysLost`).

## Model

| member | source | states |
|---|---|---|
| Stream.StreamRefinement | src/channel.rs:69-225 | over any admissible schedule with both ends sending and receiving, every packet an end accepted carries the payload and message id of the other end's send with its number, accepted by the key it was sealed at, never one of its own, and no number is accepted twice |
| Stream.NextDeliveryIsGenuineOrHarmless | src/channel.rs:100-225 | whatever is presented next to either end, `receive` answers the payload of the other end's send it claims to be, sealed at the key that was tried and not delivered before, or fails without any change |
| Stream.UntamperedIsAdmissible | src/channel.rs:100-105 | a network that only loses, reorders, duplicates and reflects packets is among the admissible ones |
| Interleaving.AcceptedExactlyWhenKeysMeet | src/channel.rs:100-225 | over any admissible two-way schedule, in order or late, an untouched packet is accepted, with its payload, exactly when its number is within reach and the receiver had sent, when it derived the key, as many messages as the sender had reached numbers when it sealed the packet |
| Interleaving.TwoWayReorderTolerance | src/channel.rs:121-177 | in two directions, an untouched unaccepted packet within 1000 of the last accepted number on either side is accepted exactly when those two counts agree; no eviction interferes |
| Interleaving.NetRunKeepsTally | src/channel.rs:78-93 | over any admissible schedule each end derives positions for its sends and for the numbers it reaches in order, none left out |
| Delivery.ReorderTolerance | src/channel.rs:121-177 | in one direction, an untouched unaccepted packet within 1000 of the last accepted number on either side, or of the start, is accepted with its payload; eviction cannot have reached its key |
| Delivery.OneWayPacketAccepted | src/channel.rs:121-177 | in one direction, an untouched packet is accepted, with its payload, exactly when its number is in the window ahead or its key is still stored |
| Delivery.NewPacketAccepted | src/channel.rs:91-217 | a packet sent now and numbered ahead within the window is accepted with its payload if the receiver has sent as many messages as the sender has reached numbers, and otherwise refused as unauthentic without any change |
| Delivery.CrossingFirstMessagesAreRefused | src/channel.rs:91-197 | first messages that cross are sealed with one key, and each end refuses the other's without any change |
| Delivery.TurnTakingDelivers | src/channel.rs:69-225 | in any conversation in turns, in any order of speakers, every turn was taken and the next one is delivered with its payload, as long as the counters last |
| Crossing.SealedOnceExactlyUnlessCrossed | src/envelope.rs:30-35 | after any admissible schedule, all sends of both ends were sealed with different keys exactly when not each end has sent more than the other reached |
| Crossing.SendKeepsSingleUseExactly | src/channel.rs:78-93 | from ends that have not crossed, a send keeps all sealing keys different exactly if its end has reached all that the other sent |
| Crossing.SharedKeyExactly | src/channel.rs:88-93 | two sends of different ends share a key exactly when number plus numbers reached at sealing agree |
| Crossing.SharedSendIsNeverDelivered | src/channel.rs:121-197 | a send sealed with a key that the receiver sealed with too was not accepted, and whatever is presented under its number is refused |
| Crossing.TurnsSealOnce | src/channel.rs:69-97 | a conversation in turns seals every message with a different key |
| Crossing.CrossedForever | src/channel.rs:69-225 | ends that have crossed stay so under every further schedule, and neither reaches a new number |
| Crossing.StuckExactlyWhenCrossed | src/channel.rs:69-225 | the ends have crossed exactly when no further admissible schedule reaches a new number, given a path and counters not at their end |
| Crossing.RunKeepsLinked | src/channel.rs:78-217 | after any admissible schedule one ledger mirrors the other and goes on with sends, or the ends have crossed and share a key |
| Delivery.HonestPacketAccepted | src/channel.rs:100-225 | over any admissible two-way schedule, the answer to an untouched packet: its payload if the key tried is the one it was sealed at, an authentication failure if it is another, the reason of Step 1 if there is none |
| Stream.OpenedWasSent | src/channel.rs:194-197 | an envelope made of derivable cells that opens under a chain key is the send of that number and message id by one of the ends, sealed at that key |
| EndpointTheorems.ChainConservation | src/channel.rs:78-93 | at one endpoint, the current key is at #sends plus numbers reached; all earlier positions split disjointly into sealed, delivered, stored and evicted, none used twice by it |
| EndpointTheorems.CanonicalTable | src/channel.rs:59-66 | after any run the table is exactly the unaccepted numbers from the watermark to the last accepted one, at most 1000 of them, every evicted number below |
| EndpointTheorems.WatermarkMovesOnlyByEviction | src/channel.rs:210-217 | the watermark never moves back and moves only when a step overfills the table |
| EndpointTheorems.NewKeysSurvive | src/channel.rs:212-215 | an accepted forward step never evicts a key it has just derived |
| EndpointTheorems.AtMostOnce | src/channel.rs:161-174 | an accepted number is refused ever after, without change, even when the store has forgotten it |
| EndpointTheorems.ZeroMutation | src/channel.rs:106-205 | in every reachable state every error of `receive` leaves the whole state unchanged, store included |
| EndpointTheorems.ReceiveAnswersExactly | src/channel.rs:100-225 | in every reachable state the answer of `receive` is that of a table of cases: message id, envelope count, window, late without key (replayed or expired), no path, and whether the designated envelope opens under the chain or stored key |
| Endpoints.StoreNeverRejects | src/channel.rs:202-205 | Step 4 never rejects a packet that has a target key, so prune-then-reject is unreachable |
| EndpointTheorems.ReplayDiagnosisIsExact | src/channel.rs:161-170 | at or below the last number without a stored key the answer is replayed exactly when that packet was accepted within the last 10,000 accepts and 300 s before the latest one, else expired |
| EndpointTheorems.OrderIndependence | src/channel.rs:143-177 | receivers that accepted the same set in any order, with the same watermark, have equal last number, current key and table |
| EndpointTheorems.InStepExactly | src/channel.rs:91-157 | for a number ahead within the window, the key tried is the other end's sealing key exactly when this end has sent as many messages as the other has reached numbers |
| EndpointTheorems.SendingFallsOutOfStep | src/channel.rs:91-157 | against a peer that never received, that is exactly when this end has never sent |
| ForwardSecrecy.RecoverableExactly | src/channel.rs:25-32 | after any run, a key before the current one can be derived from the state exactly when a stored key sits at or below its position |
| ForwardSecrecy.ForwardSecretExactlyWhenTableEmpty | src/channel.rs:25-32 | no past key can be derived exactly when the table is empty |
| ForwardSecrecy.DeliveredKeyRecoverable | src/channel.rs:210-222 | the key of an accepted packet can be derived exactly as long as a lower number is stored |
| ForwardSecrecy.EvictedKeysAreGone | src/channel.rs:59-66 | after any run no evicted key can be derived |
| ForwardSecrecy.LostStaysLost | src/channel.rs:69-225 | no run of calls makes a key derivable that the state could not derive |
| ForwardSecrecy.FirstOutOfOrderDeliveryIsRecoverable | src/channel.rs:128-141 | the concrete run whose delivered key can still be derived |
| Endpoints.StepKeepsInv | src/channel.rs:69-225 | every send and receive keeps the global invariant of counters, table, evictions, ledger and store |
| Endpoints.RunKeepsInv | src/channel.rs:35-225 | the invariant holds after any run from `new` |
| ChannelModel.SendIsAtomic | src/channel.rs:69-97 | a failed send changes nothing although the ratchet is committed before the slots; success exactly when id, path count and payload fit |
| ChannelModel.ReceiveRefusesFirst | src/channel.rs:106-157 | an id over 256 bytes, then fewer envelopes than paths, then a number over 1000 past the last (or over 1000 at the start) is refused with its own error and without change |
| ChannelModel.SendRefusesExactly | src/channel.rs:74-89 | the three errors of `send` by id, path count and payload size, in that order |
| ChannelModel.SentSlotsExactly | src/channel.rs:83-96 | the real envelope carries the drawn nonce; every other slot opens under that slot's drawn key, with the same associated data, to its drawn payload |
| ChannelModel.AadLayout | src/channel.rs:50-56 | the associated data byte by byte: the 21-byte tag, the number in eight bytes big-endian, the message id |
| ChannelModel.SlotAgreement | src/channel.rs:83-96 | a send yields one envelope per path; the one in the receiver's slot opens to the payload and no other opens under that key |
| ChannelModel.AadInjective | src/channel.rs:50-56 | the associated data determines the 64-bit number and the message id |
| ChannelModel.DerivationWorkIsBounded | src/channel.rs:123-157 | the exact number of derivations is at most 1000, and 1001 exactly for a first packet numbered 1000 |
| ChannelModel.FirstPacketCanExceedTheWindow | src/channel.rs:128-141 | the concrete packet that exceeds the documented bound |
| ChannelModel.EvictionKeepsNewest | src/channel.rs:59-66 | eviction keeps the newest 1000 keys with their values, everything dropped lying below and at least 1000 away from the bound |
| ChannelModel.EvictionStopsAtLimit | src/channel.rs:59-66 | a table of more than 1000 keys is cut to exactly 1000 |
| Channel.SecureChannel.constructor | src/channel.rs:37-46 | a new channel is the endpoint of the empty run |
| Channel.SecureChannel.Send | src/channel.rs:69-97 | the fields and the answer are those of the model; failures change nothing |
| Channel.SecureChannel.Receive | src/channel.rs:100-225 | the fields, the answer and the number of derivations are those of the model; failures change nothing, the map of the anti-replay store included |
| Channel.SecureChannel.ComputeTarget | src/channel.rs:114-177 | Step 1 with its four arrival cases finds the chain key of the number and the keys passed over, touching nothing |
| Channel.SecureChannel.PassOver | src/channel.rs:134-138 | the ratchet loop collects exactly the keys of the numbers passed over, one derivation each |
| Channel.SecureChannel.CommitForward | src/channel.rs:212-217 | the table after a forward commit is the eviction of the union |
| Channel.SecureChannel.EvictOldestSkippedKeys | src/channel.rs:59-66 | the loop brings the table to its eviction |
| AntiReplay.QueueIsTheLiveSuffix | src/anti_replay.rs:49-88 | after any calls with a clock that never goes back the queue is the longest suffix of the insertions that fits capacity and window |
| AntiReplay.AnswerIsExact | src/anti_replay.rs:49-66 | a key is refused exactly when that suffix at the time of the offer holds it |
| AntiReplay.LiveSuffixIsLongest | src/anti_replay.rs:49-66 | no suffix of the insertions that fits is longer than the one called live |
| AntiReplay.HeadPruningIsFiltering | src/anti_replay.rs:69-80 | on a queue in time order head-only pruning drops all and only the expired entries |
| AntiReplay.PrunesUpToFirstYoung | src/anti_replay.rs:69-80 | on any queue pruning stops at the first entry not more than the window old, an entry from the future included |
| AntiReplay.CheckInsertExactly | src/anti_replay.rs:49-66 | the answer and the queue after one call on any queue, entry by entry: what is pruned, refused, evicted and added |
| AntiReplay.AntiReplayStore.CheckAndInsert | src/anti_replay.rs:49-66 | queue and answer are those of the model, and the map stays in agreement with the queue |
| AntiReplay.AntiReplayStore.Prune | src/anti_replay.rs:69-80 | drops the expired head from map and queue alike |
| AntiReplay.AntiReplayStore.EvictOldest | src/anti_replay.rs:83-89 | drops exactly the oldest entry, so the retry in the loop is redundant |
| AntiReplay.AntiReplayStore.Contains | src/anti_replay.rs:42-45 | membership in the map is membership in the queue |
| AntiReplay.AntiReplayStore.Len | src/anti_replay.rs:92-94 | the size of the map is the length of the queue |
| AntiReplay.AgreeingMapIsUnique | src/anti_replay.rs:12-17 | the queue determines the map |
| Envelopes.Seal | src/envelope.rs:36-79 | the envelope is nonce, ciphertext and tag of the box over the framed payload, or the payload is too large |
| Envelopes.Open | src/envelope.rs:82-119 | the answer is the parse of what the envelope decrypts to, all slices in bounds |
| Envelopes.OpenOfSeal | src/envelope.rs:36-119 | `open` undoes `seal` under the same key and associated data and fails under any other, for every payload, nonce and padding |
| Envelopes.SealedExactly | src/envelope.rs:36-79 | over 992 bytes refused; else bytes 0 to 11 are the drawn nonce and the rest is one box under it whose plaintext is 1, 0, the length big-endian, the payload and the drawn padding |
| Envelopes.OpenedExactly | src/envelope.rs:98-118 | for the envelope of any box: wrong key or data, wrong version or length, and otherwise the bytes the length names |
| Envelopes.ParsedFrameIsBuildable | src/envelope.rs:102-113 | a frame that `open` accepts is one `seal` could have built exactly when its flags byte is zero |
| Envelopes.DecryptsExactlyItsBox | src/envelope.rs:98-100 | an envelope decrypts to a plaintext exactly when it is, cell for cell, the envelope of such a box |
| Envelopes.TamperingIsDetected | src/envelope.rs:87-100 | changing any one cell of an envelope makes it undecryptable |
| Decoys.GenerateMultiPathSlots | src/decoy.rs:38-63 | the loop puts the genuine envelope in its slot and a decoy in every other, or names the bad argument |
| Decoys.SlotsExactly | src/decoy.rs:38-63 | which arguments are refused and how; the genuine envelope in its slot and each other slot sealed with that slot's own key, nonce and payload |
| Decoys.OnlyTheValidSlotOpens | src/decoy.rs:53-60 | no decoy opens under a ratchet key, whatever was drawn |
| Decoys.DecoyOpensOnlyUnderItsOwnKey | src/decoy.rs:11-28 | a decoy opens under its own key and associated data and nothing else |
| PathEngine.SelectSlot | src/path_engine.rs:63-84 | fails exactly for zero paths and otherwise yields a slot in range |
| PathEngine.SlotFromDigest | src/path_engine.rs:72-83 | the slot is the first eight bytes of the digest of the message id, written out by place value, modulo the number of paths |
| PathEngine.Advance | src/path_engine.rs:28-36 | repeated derivation moves the position of the key and keeps its seed |
| Handshake.Agreement | src/handshake.rs:53-86 | an accepted 144-byte response of an honest responder comes from a session on this initiator's identity, ephemeral key and nonce, with the same root key |
| Handshake.InitiationIsAuthentic | src/handshake.rs:95-116 | an accepted initiation under an honest identity was sent by it, for this responder, and is from the expected initiator if one was named |
| Handshake.HonestHandshakeSucceeds | src/handshake.rs:22-155 | undisturbed, the handshake over wire bytes succeeds and both root keys are equal |
| Handshake.InitiateExactly | src/handshake.rs:22-52 | state and message carry the identity, the expected responder and the draws; the signature is over tag and four fields |
| Handshake.RespondRefusesExactly | src/handshake.rs:95-116 | refuses an unexpected initiator, then a signature that does not verify on the initiation, and nothing else |
| Handshake.RespondAnswersExactly | src/handshake.rs:118-155 | identity, draws and signature of the response, and the root key as the literal HKDF call |
| Handshake.FinalizeRefusesExactly | src/handshake.rs:57-73 | refuses an unexpected responder, then a signature that does not verify on the session, and nothing else |
| Handshake.FinalizeAnswersExactly | src/handshake.rs:75-87 | the root key as the literal HKDF call: both nonces, the Diffie-Hellman secret, tag, identities and ephemeral keys |
| Handshake.FinalizeKeysEqualExactly | src/crypto.rs:144-167 | without a collision, two accepted runs give one key exactly when secret, identities, ephemeral keys and nonces agree |
| Handshake.RespondKeysEqualExactly | src/crypto.rs:144-167 | the same for two responders |
| Handshake.EndsAgreeExactly | src/crypto.rs:144-167 | without a collision, the two ends hold one key exactly when they saw one session and share the secret |
| Handshake.RecordedMessagesAreSigned | src/crypto.rs:60-116 | the messages a party is recorded to have signed are those that `Initiate` and `Respond` sign |
| HandshakeCrypto.InitTranscriptInjective | src/crypto.rs:69-74 | the initiation transcript determines every field |
| HandshakeCrypto.ResponseTranscriptInjective | src/crypto.rs:109-116 | the response transcript determines every field |
| HandshakeCrypto.TranscriptsNeverCoincide | src/crypto.rs:70-110 | the two transcripts never coincide, nor does one begin the other |
| HandshakeCrypto.RootInputsInjective | src/crypto.rs:153-160 | salt and info determine identities, ephemeral keys and nonces |
| HandshakeTypes.InitRoundTrip | src/types.rs:95-126 | the initiation codec round-trips in both directions and refuses exactly wrong lengths and non-points |
| HandshakeTypes.InitLayout | src/types.rs:95-102 | the 144 bytes of an initiation, slice by slice |
| HandshakeTypes.ResponseLayout | src/types.rs:140-147 | the 144 bytes of a response, slice by slice |
| HandshakeTypes.ResponseRoundTrip | src/types.rs:140-171 | the same for the response codec |
| HandshakeTypes.InitToBytes | src/types.rs:95-102 | the array holds the four fields in order |
| HandshakeTypes.ResponseToBytes | src/types.rs:140-147 | the array holds the four fields in order |
| SecureSession.HandshakeThenStream | src/handshake.rs:53-155 | of two channels opened from an accepted handshake, each delivers only what the other sent, at most once |

## Left out

- CanSend: `send` past number 2^64 - 1 is not modelled, because `s + 1` (src/channel.rs:80) then panics or wraps with the build profile.
- Encryption failure: `seal` of a 996-byte frame cannot fail in ChaCha20-Poly1305, so `EncryptionFailure` and the `CryptoFailure` of a 32-byte HKDF expansion have no case.
- Cryptographic strength: keys are collision-free terms and boxes cannot be forged; hash collisions and guessed tags are outside the model, and the insides of the primitives are not part of it.
- Payload bytes are plain bytes, so an application that sends ciphertext of the same channel as a payload is not represented.
- Hash map iteration order, pre-allocated capacities and memory limits on the number of paths.
- Zeroization beyond the wiping of local buffers, constant-time comparison, drop order and move errors.
- Randomness quality, slot distribution, traffic indistinguishability and timing.
- The C interface (src/ffi.rs) and its handles; it reports a short output buffer after the channel has committed, so the transactional claims do not cover it.
- Error display texts and the channel errors that no modelled function returns.
