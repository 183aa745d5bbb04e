# Adaptive FEC tunnel: a verified model

This project models the protocol logic of an adaptive forward-error-correction tunnel for UDP and
proves what it promises. Each component is a pure specification (a step function on a state) and,
where the program updates objects in place, a class whose methods are proved to take exactly that
step. The theorems are about the step functions, over every run.

The centre is the tunnel itself. An encoder cuts datagrams into fragments, packs fragments into
groups of up to ten shards, pads them, adds parity and numbers the frames. A decoder receives the
frames in any order, with loss and duplication, delivers data shards at once, rebuilds missing ones
and reassembles datagrams. `Delivery.ExactDelivery` states the outcome end to end, for the decoder
with its prunes and for runs of any length: a datagram whose frames come promptly is output exactly
once if it gets through and never otherwise, whatever becomes of the others.
`Arrivals.AcceptedAreArrived` says which frames are accepted, from the arrivals alone.
`Integrity.OutputsAreInputs` holds without any time or size condition: whatever expires or is
evicted, nothing but the sender's datagrams comes out.

Around it: loss accounting and the redundancy controller, the pacer, replay protection and
channel-bound authentication, the QUIC carrier, the server's session table, CIDR subtraction with
the rule edit that uses it, and the revision transaction of the controller.

## How it is laid out

| file | what it holds |
|---|---|
| Bytes | big-endian integers and wrappers |
| Ledger, Reassembly | the reference account of reassembly; the table both decoders keep, proved to be that account |
| Fragments, Erasure, Frames | cutting datagrams, the erasure code as a hypothesis, the frame |
| Encoder, EncoderHistory, StreamOrder | the encoder and what a run of it has sent |
| Decoder, DecoderReassembly, GroupRecovery | the decoder, its two layers |
| Tunnel, Integrity | sender and receiver together; nothing but the sender's datagrams comes out |
| Reception, Delivery | what a run accepted and when; exact delivery |
| Arrivals, Traffic | the conditions of exact delivery from the arrivals, for short runs and for runs of any length |
| SixteenField, CauchyCode | a code that meets the erasure hypothesis |
| SequenceWindow, Adaptive | loss reports and the redundancy controller |
| Pacer, ReplayCache, Authentication, Carrier, Sessions, Wire | the other protocol parts |
| Cidr, RouteRules, Revision | the control plane |

## Hypotheses

- The Reed-Solomon library is a pair of functions (`Erasure.Code`) with one property,
  `GroupRecovery.HonestCode`: for the group shapes the encoder emits, any `data` shards of a group
  determine the rest. `CauchyCode.HonestCodeExists` proves a code with this property.
- The keyed hash is any function with values of a fixed length, and the V3 cipher any pair in which
  decryption undoes encryption (`Wire.SuiteExists` gives one). Nothing is claimed about forgery.
- `collapse_addresses` of the Python library keeps the addresses covered.
- Fewer than 2^64 datagrams are sent by one encoder, so packet numbers do not wrap. Where late and
  duplicate counts are claimed, fewer than 2^64 observations are made, so no counter saturates.
- Clock readings are parameters, one for each place where the program reads the clock. Where time
  matters they never go back, and replay expiries stay below 2^64 seconds.
- Revision ids are never reused; they are made from a nanosecond clock and the process id.

## Where the code and its comments differ

- The pacer's capacity floor is said to fit one maximum-size frame. It is the size of a V1 frame; a
  full V3 frame is 27 bytes larger, so below 2.838 Mbit/s the bucket goes into debt
  (`Pacing.LargestFrameFitsIff`). The rate bound still holds, with the frame size in place of the
  capacity.
- A failed commit is said to leave a state from which the caller may retry. That is so exactly when it
  failed before moving the candidate, or on opening the temporary pointer with the candidate moved
  back. In the other two cases, a temporary pointer left behind or a candidate left among the
  revisions, the transaction is never committed, whatever is called (`Revision.RetryOrNever`), and a
  temporary pointer left behind also stops every other commit and rollback
  (`Revision.LeftoverFreezes`).
- An envelope is meant to be accepted once. While its timestamp is in the window it is accepted again
  in exactly two cases: its nonce has expired, which can only be if the timestamp was ahead of the
  verifier's clock (`Authentication.AheadIff`), or `capacity` other acceptances have crowded it out of
  the cache (`Authentication.AcceptedAgainIff`; one input of each kind in
  `Authentication.AheadIsAcceptedTwice` and `Authentication.CrowdedOutIsAcceptedTwice`).
- The redundancy controller's integer average stops up to three parts per million below a constant
  input, so a loss on a band edge, or at most two above one, may settle one level too low
  (`AdaptiveControl.ReachesOwnTargetIff`, `AdaptiveControl.BandEdgeIsNotReached`).
- The decoder takes datagrams of at most 64 fragments, the encoder sends up to 65,535. Exact delivery
  is stated for all datagrams, with that limit as part of the condition. UDP datagrams are below it.
- A V3 frame whose device selector happens to equal the legacy magic number is refused by the server
  (`Wire.ServerReadsDevice`).

## Model

| member | source | states |
|---|---|---|
| `Delivery.ExactDelivery` | src/main.rs:469-801 | For the decoder with its prunes, runs of any length, any datagrams, flush points, reports and parity changes on the sending side, and any loss, order and duplication on the receiving side, with no group refused and no reassembly evicted: the outputs are the datagrams numbered `ids`, and a datagram whose groups each come within the group lifetime and whose fragments are let out within the reassembly lifetime is among them once if each of its fragments had its own frame accepted or at least `data` distinct frames of its group, and else never |
| `Arrivals.DeliveredInTime` | src/main.rs:703-801 | The same with nothing to ask of the run but its arrivals: at most 4096 datagrams in at most 2048 groups, frames arriving in any order and number within two seconds; then every datagram comes out once if it gets through and else never |
| `Arrivals.AcceptedAreArrived` | src/main.rs:621-638 | If no frame is overtaken by one numbered 64 or more above it, the accepted shard frames are exactly those that arrived, but for those numbered below the first arrival, which are lost |
| `Traffic.LightTrafficFits` | src/main.rs:728-800 | For runs of any length: if at each accepted frame at most 2048 groups had one within a group's lifetime, and at most 4096 datagrams of more than one fragment had one in their groups within the lifetime of a reassembly, no group is refused and no reassembly evicted |
| `Traffic.DeliveredInLightTraffic` | src/main.rs:469-801 | Exact delivery for runs of any length with that condition in place of the one on the tables |
| `Arrivals.SmallSenderFits` | src/main.rs:728-800 | A sender of at most 2048 groups and 4096 datagrams never meets a limit of the decoder: no group refused, no reassembly evicted |
| `Arrivals.TimelyIsPrompt` | src/main.rs:777-785 | If all frames come within a group's lifetime, every datagram is prompt |
| `Integrity.OutputsAreInputs` | src/main.rs:669-801 | Integrity over every run with loss, duplication, reordering, expiry, eviction and arbitrary forgetting: each output is byte for byte a datagram the encoder was given |
| `Arrivals.NeverRefused` | src/main.rs:728-730 | A sender of at most 2048 groups is never refused at the group limit, prunes or not |
| `Arrivals.FewReassemblies` | src/main.rs:685-700 | At no point of any run are there more open reassemblies than datagrams sent |
| `GroupRecovery.DeliverExact` | src/main.rs:733-764 | Which data shards of a group are delivered depends only on which of its frames were accepted: a shard's own, or at least `data` of them |
| `GroupRecovery.ReleasedExact` | src/main.rs:746-764 | One frame releases exactly the data shards that were not out before it and are out after it, each once |
| `GroupRecovery.DeliverSound` | src/main.rs:754-764 | A group that holds only shards of its codeword releases only that codeword's data shards, and reconstruction never fails |
| `DecoderReassembly.PlaceExact` | src/main.rs:685-701 | A fragment completes its datagram exactly when the ledger of arrivals and sweeps says so, and then yields that datagram |
| `DecoderReassembly.PlaceSound` | src/main.rs:685-701 | The reassembly table holds only the datagram's own chunks, and anything completed is the datagram |
| `Ledger.CleanOnce` | src/main.rs:685-701 | A message none of whose parts comes after it lapsed or was complete is completed once if all its parts came and else never; until then all of them are held |
| `Reassembly.PutKept` | src/main.rs:685-701 | One part moves the table on exactly as the ledger, and a message that completes is joined whole |
| `Reassembly.SweepKept` | src/main.rs:784-785 | A sweep removes from the table exactly what the ledger forgets |
| `Fragments.PaddedShardParses` | src/main.rs:670-692 | A shard followed by any number of zeros parses to the fragment it was made from, iff the datagram has at most 64 fragments |
| `Fragments.ChunksRejoin` | src/main.rs:477-488 | The chunks of a datagram, in order, are the datagram, also when it is empty |
| `Fragments.ChunksShape` | src/main.rs:472-481 | The number of chunks is the ceiling the code computes, and each fits a shard |
| `CauchyCode.HonestCodeExists` | src/main.rs:545-548 | There is a code for every group shape the encoder emits in which any `data` shards determine the rest |
| `CauchyCode.Unique` | src/main.rs:754-756 | A Cauchy system over the field of 16 elements with at least as many equations as unknowns has only the zero solution |
| `CauchyCode.OneExplanation` | src/main.rs:754-756 | Enough received shards of a group have only one explanation |
| `EncoderHistory.StreamLaw` | src/main.rs:453-568 | Over any mix of datagrams, flushes, reports and feedback: frames and groups are numbered from 1 without gap, blocks tile the fragment stream of all datagrams in order, fewer than ten shards are pending, each group has at most min(4, data) parity shards, and every frame is a report or the one frame of its place in its block |
| `StreamOrder.DataFramesInOrder` | src/main.rs:469-568 | The unpadded data frames in order of sending, then the pending shards, are the bytes of all fragments in order |
| `EncoderHistory.TranscriptIsFaithful` | src/main.rs:453-568 | The written record of a run takes the encoder's own steps and appends the frames they return |
| `EncoderHistory.StreamMembers` | src/main.rs:469-494 | The stream holds exactly the fragments of the datagrams |
| `EncoderHistory.StreamDistinct` | src/main.rs:469-494 | No fragment is in the stream twice |
| `FecEncoder.ParityIsLevel` | src/main.rs:501-513 | A group's parity is the controller's level, or its number of data shards if that is smaller |
| `Tunnel.SampleTravels` | src/main.rs:1002-1006 | A loss sample is never the idle value, and reads back from the report frame that carries it |
| `FecEncoder.Encoder.Flush` | src/main.rs:496-568 | The loops over shards and parity produce the frames and the new state of the flush step |
| `FecEncoder.Encoder.EncodeDatagram` | src/main.rs:469-495 | The chunk loop produces the frames and the new state of the datagram step, or the too-large error with the packet number spent |
| `FecEncoder.Encoder.ReportFrame` | src/main.rs:453-468 | A report takes the next sequence number and changes nothing else |
| `FecDecoder.DeliverShard` | src/main.rs:743-764 | The present count, reconstruction and recovery loop agree with the group step |
| `FecDecoder.Decoder.Fragment` | src/main.rs:669-702 | The reassembly of one shard agrees with its step, joining parts in order |
| `FecDecoder.Decoder.Prune` | src/main.rs:777-800 | Exactly the unexpired groups stay; of the unexpired reassemblies the newest stay, up to the limit |
| `FecDecoder.Decoder.Frame` | src/main.rs:703-776 | Every branch and error of one frame, with a prune before and, on success, after |
| `FecDecoder.PruneSweeps` | src/main.rs:777-800 | Within the reassembly limit a prune removes exactly what is past its lifetime |
| `FecDecoder.Decoder.ObserveSeq` | src/main.rs:621-638 | One observation agrees with its step |
| `FecDecoder.Decoder.TakeReport` | src/main.rs:639-668 | One loss report agrees with its step |
| `SequenceWindow.AcceptedAtMostOnce` | src/main.rs:621-638 | In any run of observations and reports no sequence number is accepted twice, although numbers are forgotten once finalized |
| `SequenceWindow.ReportsTile` | src/main.rs:639-668 | Report windows tile the range from the baseline to the finalized number; each counts exactly the numbers of its range the whole run accepted, calls the others missing, and its gap is at most 1,000,000 ppm, so never the idle value |
| `SequenceWindow.NothingLost` | src/main.rs:651-658 | The received counts of all reports plus the pending set are all accepted numbers |
| `SequenceWindow.EveryObservationCounted` | src/main.rs:621-668 | The late and duplicate counts of all reports, with those pending, are the observations of closed numbers and of numbers already accepted; every other observation was accepted |
| `SequenceWindow.AcceptedIffObserved` | src/main.rs:621-638 | If no number is first observed after one 64 or more above it, the accepted numbers are exactly those observed above the baseline, losses and reports in between or not |
| `SequenceWindow.ReorderingIsNotLoss` | src/main.rs:621-668 | If each number arrives before any number 64 or more above it, every report has zero missing, whichever number arrives first |
| `AdaptiveControl.Adaptive.Report` | src/main.rs:344-409 | One report agrees with the controller's step |
| `AdaptiveControl.ReachableControl` | src/main.rs:344-409 | Over all report runs: parity at most 4, bad at most 1, good and idle counts at most 14; bypass is on exactly when three real samples of 30% or more came with no lower real one since |
| `AdaptiveControl.BypassHysteresis` | src/main.rs:367-390 | In bypass parity is 0; the first lower real sample sets it to the smoothed target; any other report moves it by at most one |
| `AdaptiveControl.IdleRetires` | src/main.rs:345-363 | After any run, n idle reports lower parity by one level for every fifteenth, leave the rise, fall and bypass counters alone, and drop the average with the last level |
| `AdaptiveControl.ErrorDecays` | src/main.rs:366-366 | Under constant loss the distance of the average from its limit shrinks by 3/4 or better each report |
| `AdaptiveControl.Converges` | src/main.rs:335-409 | From any reachable state a constant loss L below 30% brings the average to a value in [max(0, L-3), L] within 78 reports and parity to that value's target within 60 more, and both stay |
| `AdaptiveControl.ReachesOwnTargetIff` | src/main.rs:335-409 | Parity ends at the target of L iff no band edge lies in (L-3, L] and above the average at the start |
| `AdaptiveControl.BandEdgeIsNotReached` | src/main.rs:335-343 | A constant 10,000 ppm from a fresh start leaves parity at 0 |
| `Pacing.RateBound` | src/main.rs:904-941 | For every run and every two calls i <= j with frames of at most m bytes: the bytes released by calls i..j are at most max(capacity, m) + rate * (time between the two releases), and tokens stay within [min(0, capacity - m), capacity] |
| `Pacing.LargestFrameFitsIff` | src/main.rs:910-914 | The largest V3 frame is within the bucket's capacity iff the rate is at least 2.838 Mbit/s |
| `Pacing.NewIsValid` | src/main.rs:905-921 | A pacer is made exactly for rates from 1 to 1000 Mbit/s, and starts full |
| `Pacing.Pacer.Wait` | src/main.rs:923-940 | One wait asks for the delay to a full bucket iff tokens are short, and leaves the state of its step |
| `ReplayProtection.CacheRefinesLog` | src/quic_auth.rs:45-72 | Over every run with a steady clock: the queue is exactly the map's entries, sorted by expiry and no longer than the capacity, and a nonce is accepted iff it is not one of the last `capacity` accepted nonces still unexpired |
| `ReplayProtection.ReplayCache.TryInsert` | src/quic_auth.rs:45-71 | The two loops agree with the step |
| `ReplayProtection.CheckRefines` | src/quic_auth.rs:45-71 | One check on a cache that mirrors its log decides as the log does and keeps mirroring it |
| `Authentication.AcceptedOnce` | src/quic_auth.rs:113-143 | Over every run with a steady clock: an envelope accepted at a time not before its timestamp is never accepted again, by any key or connection, unless it comes within one window of that time and `capacity` acceptances came in between. Acceptances beyond that window do not matter |
| `Authentication.AcceptedInRunIff` | src/quic_auth.rs:113-143 | Over every run: a try is accepted iff its envelope is genuine and no earlier acceptance of its nonce is both within one window of it and followed by fewer than `capacity` acceptances |
| `Authentication.AcceptedAgainIff` | src/quic_auth.rs:126-137 | Over every run: an accepted envelope whose nonce was not accepted anew in between is accepted again iff its timestamp is still in the window and either more than one window has passed or at least `capacity` acceptances came in between |
| `Authentication.AheadIff` | src/quic_auth.rs:126-137 | With nothing in between, an accepted envelope can be accepted again at some later time iff its timestamp was ahead of the clock |
| `Authentication.AheadIsAcceptedTwice` | src/quic_auth.rs:126-137 | An envelope stamped 130 is accepted at 100 and at 131 with a window of 30, at any capacity |
| `Authentication.CrowdedOutIsAcceptedTwice` | src/quic_auth.rs:58-66 | With capacity 1, an envelope, another one, and the first again are all accepted at the same time |
| `Authentication.AcceptedIff` | src/quic_auth.rs:113-143 | An envelope is accepted with given claims iff it is the one its key makes for them on this connection, the device is not zero, the timestamp is in the window and the nonce is new |
| `Authentication.RefusalLeavesCache` | src/quic_auth.rs:121-137 | A malformed, stale or unauthentic envelope leaves the cache as it was |
| `Authentication.MadeReadsBack` | src/quic_auth.rs:82-111 | An envelope reads back as the claims it was made for |
| `Authentication.VerifyEnvelope` | src/quic_auth.rs:113-143 | Verification on the shared cache agrees with its step |
| `Carrier.RoundTrip` | src/quic_relay.rs:183-224 | Any number of messages, interleaved, repeated, delayed and expiring in any way, with no refusal at the group limit: each arrival returns its message's payload exactly when it is the last part missing since the message was last complete or expired |
| `Carrier.EachMessageOnce` | src/quic_relay.rs:183-224 | Whatever else arrives or expires: a message of which no part comes later than the lifetime of its first, nor again once complete, is handed on exactly once if all its parts arrive, at the last of them, as its payload (or as the size error above 65,535 bytes), and else never |
| `Carrier.LightIsNotRefused` | src/quic_relay.rs:197-201 | From the arrivals alone: if at each of them at most 2048 messages are its own or have more than one part and came within the lifetime before it, no part is refused |
| `Carrier.FewAreNotRefused` | src/quic_relay.rs:197-201 | At most 2048 messages in all are never refused |
| `Carrier.DuplicateChangesNothing` | src/quic_relay.rs:194-214 | A push of a part already held of an incomplete message does no more than the sweep every push makes |
| `Carrier.PushKeepsRest` | src/quic_relay.rs:183-224 | Any bytes at all leave at most 2048 groups, each incomplete with 1 to 128 slots |
| `Carrier.SentIsMessage` | src/quic_relay.rs:227-256 | A send that reaches the connection puts on it the frames of exactly one message, or the first of them if it fails midway, each within the negotiated size, of parts that join to the payload |
| `Carrier.SendsAreMessages` | src/quic_relay.rs:227-256 | Over any run of fewer than 2^64 sends, failed ones included, messages are numbered from 1, each joins to its own payload, and every frame sent is a part of one of them |
| `Carrier.HeartbeatsAreApart` | src/quic_relay.rs:44-45 | A heartbeat is never taken for a fragment, nor a fragment for a heartbeat |
| `Carrier.Sender.Send` | src/quic_relay.rs:227-256 | The chunk loop sends the frames of its step; a send refused at once spends no message number, one that fails midway spends it and leaves a partial message |
| `Carrier.CarrierReassembly.Push` | src/quic_relay.rs:183-224 | One push agrees with its step, errors included |
| `Sessions.TableSafe` | src/main.rs:1216-1285 | Over every run of frames, cleanups and worker updates: one session per device and at most the limit in all |
| `Sessions.LeavesIff` | src/main.rs:1053-1071 | Over every run, a session leaves the table in the next step iff that is a cleanup that finds it finished or idle, or one of the first 32 frames of another session of its device, which then is in the table |
| `Sessions.OpensIff` | src/main.rs:1217-1265 | Exactly when a session is in the table after a frame of it |
| `Sessions.SessionTable.Receive` | src/main.rs:1216-1273 | One frame agrees with its step |
| `Sessions.SessionTable.Cleanup` | src/main.rs:1274-1285 | One cleanup keeps exactly the sessions neither finished nor idle |
| `Wire.LegacyRoundTrip` | src/main.rs:160-233 | A V2 frame, or a V1 frame without key id, survives the wire |
| `Wire.V3RoundTrip` | src/main.rs:235-297 | A V3 frame survives the wire and is 79 bytes longer than its payload |
| `Wire.ServerReadsDevice` | src/main.rs:850-866 | A device's V3 frame reaches the server iff its selector is not the legacy magic number |
| `Wire.ServerAcceptsOnlyV3` | src/main.rs:850-866 | Every frame the server accepts is a V3 frame of the device its selector names |
| `Wire.ClientReadsServer` | src/main.rs:310-316 | The client reads the server's V3 frames |
| `Cidr.SubtractNetworks` | deploy/add-google-stable-route.py:32-48 | Never raises, and covers exactly the IPv4 and IPv6 addresses of the source in no excluded block |
| `Cidr.NoPartialOverlap` | deploy/add-google-stable-route.py:37-44 | Aligned blocks of one version that overlap are nested, so the partial-overlap error is unreachable |
| `Cidr.ExcludeExact` | deploy/add-google-stable-route.py:41-42 | Taking a block out of another leaves aligned blocks covering exactly the difference |
| `Cidr.RemainingExact` | deploy/add-google-stable-route.py:36-44 | One block less one removal, through every branch |
| `RouteRules.Replace` | deploy/add-google-stable-route.py:79-84 | The managed rule is in the list once, right before the first TCP rule or at the end; the other rules are unchanged and in order |
| `RouteRules.PlacementUnique` | deploy/add-google-stable-route.py:63-84 | Those two facts determine the list, so the edit is idempotent and only the last one counts |
| `Revision.PointerAndContentsSafe` | src/controller.rs:177-288 | Over any run of any number of transactions, whatever file operations fail: `current` is as at first or names an existing revision, and every committed revision holds exactly the files its validator approved |
| `Revision.PointerMovesOnlyOnSuccess` | src/controller.rs:250-277 | A failed commit or rollback leaves `current`; a successful one sets it to its target |
| `Revision.StageAtomic` | src/controller.rs:219-235 | A staged artifact is there in full or not at all, and other files are untouched, but for the temporary one a failure may leave |
| `Revision.RetryOrNever` | src/controller.rs:250-262 | Over every run, after a failed commit: if the candidate was there and no temporary pointer, and it failed before the move, or on opening the temporary pointer with the candidate moved back, a fault-free retry at once succeeds; otherwise the transaction is never committed, whatever calls follow |
| `Revision.RetryIff` | src/controller.rs:250-262 | The same for one commit and one retry from any files: the retry succeeds iff that condition holds |
| `Revision.RetryCanFail` | src/controller.rs:253-259 | Two failing commits after which a fault-free retry fails: the pointer half written, and the candidate not moved back |
| `Revision.LeftoverFreezes` | src/controller.rs:300-311 | Once a temporary pointer is left behind, no later call of any transaction changes `current` |
| `Revision.RevisionTransaction.Stage` | src/controller.rs:214-236 | Staging agrees with its step, including what a failure leaves behind |
| `Revision.RevisionTransaction.Validate` | src/controller.rs:238-248 | Validation moves on only when the validator approves the candidate directory |
| `Revision.RevisionTransaction.Commit` | src/controller.rs:250-262 | Commit agrees with its step, including the attempt to restore the candidate |
| `Revision.RevisionTransaction.Rollback` | src/controller.rs:264-277 | Rollback agrees with its step |

## Left out

- Sockets, timers, task scheduling, QUIC and TLS set-up, certificate loading: only the state steps they call are modelled.
- The insides of BLAKE3, XChaCha20-Poly1305, the TLS exporter and Reed-Solomon: used through the hypotheses above.
- Floating-point rounding in the pacer: arithmetic is over the reals, and a sleep lasts at least as long as asked.
- Delivery at most once after a group tombstone has been pruned, or after a carrier message has completed: the program does not promise it.
- Wrap-around of 64-bit sequence, packet and group counters.
- `collapse_addresses` itself: assumed to keep the addresses covered. Downloading and parsing the ranges is not modelled.
- The Windows branch of `write_pointer`, and concurrent calls on one transaction root.
- Creating the `candidates` and `revisions` directories is one operation with the candidate directory, which may fail.
- V1 sessions in runs of the session table: the server no longer decodes V1 frames. The branch is in the step function.
- The product configuration, the planner, the SOCKS balancer, carrier statistics, keyring parsing, the command line, and the installer and supervisor scripts: finite case analysis, network clients or deployment glue.
- The sing-box merge script: it filters and appends rules of a JSON file.
