# A verified model of the NFD forwarder

This project models the parts of the NDN Forwarding Daemon whose behaviour spans many steps
and proves what they keep over whole runs. The variant modelled here keeps its Pending
Interest Table (PIT) in Path ORAM.

`dafny verify dfyconfig.toml` checks everything.

| area | files | main results |
|---|---|---|
| reliability of an NDNLPv2 link | `TxRing`, `LpWindow`, `LpWindowInvariants`, `LpWindowRuns`, `LpWindowLoss`, `LpWindowContents`, `LpWindowEffects`, `AckQueue`, `DuplicateFilter`, `LpReliability` | the send window stays on one arc of the 64-bit ring, fragment lists partition it, packets are conserved, retransmissions are bounded and carry what was first sent, acks leave in order or are lost under an exact condition, duplicates are found and forgotten within an exact condition |
| fragmentation and reassembly | `LpPacket`, `LpCodec`, `LpFragmenter`, `GenericLinkService`, `LinkBudget`, `LpReassembler`, `LinkIntegrity`, `LinkSenders` | every packet fits its MTU, measured on its encoding; what is reassembled is what was sent, for every schedule of the link; round trip in any order |
| forwarding pipelines | `PitEntry`, `Pipelines`, `ForwarderRuns`, `ForwarderRules`, `ForwarderLoops`, `ForwarderTimers`, `ForwarderData`, `Forwarder` | flow balance per face, PIT conservation, HopLimit and scope rules, loop safety, how long an Interest stays pending, delivery to every waiting downstream; all but the last whatever the strategy sends, to whom and when, and whether or not it answers loops |
| best-route | `RetxSuppression`, `BestRoute` | each decision is the right one for the FIB entry and the out-records; retransmissions rotate over the eligible next hops; when the suppression interval backs off at all |
| Path ORAM and the PIT kept in it | `PathOram`, `PathOramMemory`, `PathOramBuckets`, `PathOramStash`, `OramReadPathEviction`, `PitStore`, `PitCapacity` | ORAM answers as a flat memory whatever leaves are drawn, exactly if its buckets have room; write-back is greedy; the PIT's Interests survive the trip through it |
| RIB to FIB | `Rib`, `FibUpdates`, `RouteUpdates`, `RibRuns`, `RibFindings`, `FibUpdater` | the incremental FIB updates under route inheritance give the FIB computed from the whole RIB, exactly if a condition on one entry holds, for registering, updating and unregistering routes |
| stream framing | `StreamTransport`, `TlvCodec` | any way of cutting a byte stream into reads gives the packets that were encoded into it |
| CIDR ranges | `Network` | the min/max test is agreement on the prefix bits |

Code that changes objects step by step is modelled by classes and loops (`LpReliability`,
`GenericLinkService`, `LpReassembler`, `StreamTransport`, `Forwarder`, `BestRouteStrategy`,
`OramReadPathEviction`, `Pit`, `FibUpdater`). Each method is proved against a function or relation on values, and the
theorems over runs are proved about those. An event of a run is one call into the object, one
timer, or one choice of the environment (the network, the strategy, the Content Store, a random
leaf), so a theorem over all runs covers all of these choices. The timer of a PIT
entry is an event that may happen at any time from when it is due; the other timers are events that
may happen whenever the record that owns them exists. The clock, the RTO and random numbers are inputs. When
`assignTxSequence` throws, the run ends.

## Findings

The proofs turned up inputs for which the code does not do what one would expect. Each is a
lemma with the exact condition.

- `piggyback` compares the size of the packet, not its TLV-LENGTH, with 253, so a packet of 253
  or 254 octets can be made up to 2 octets too long (`PiggybackRespectsMtu`,
  `PiggybackCanExceedMtu`).
- The congestion mark is added after the acks have filled the MTU (`MarkAfterAcksCanExceedMtu`).
- In both cases the packet is dropped as over the MTU and its acks are lost with it;
  `AcksAreLostIff` says exactly when, and `AcksLostInEveryRun` says it of every packet of a run.
- An effective MTU one octet smaller than a reservation turns into `MTU_UNLIMITED`
  (`UnlimitedAfterReservation`).
- An effective MTU smaller than the reservations, such as 0 with reliability, fails the assertion
  that means to allow it. Without assertions the packet is passed on whole and, with reliability,
  always dropped (`BudgetHoldsIff`, `ZeroMtuFailsAssertion`, `FailedBudgetIsHuge`, `FailedBudgetDrops`).
- A Sequence queued behind one that was received again can be remembered longer than its RTO
  (`OutlivesItsRto`); `ForgottenIff` says exactly when it is forgotten, `ForgottenWithin` how late.
- With an effective MTU below 16 the idle-ack loop makes no progress (`DrainStuckBelow16`).
- A bucket keeps 4 blocks whatever the configured bucket size. The ORAM is a memory exactly if the
  bucket size or the number of blocks is at most 4 (`IsMemoryIff`); otherwise eleven accesses lose
  a write (`LargeBucketsLoseAWrite`). The daemon uses 4.
- The suppression interval is rounded down to milliseconds at each step, so an initial interval that
  grows by less than one millisecond never grows (`ReachesMaximumIff`, `OneMillisecondNeverGrows`).
- An IPv6 address with a scope id is not in a range whose largest address has the same octets
  (`ContainsIffPrefixAgrees`).
- An entry satisfied by long-lived Data forgets its Nonces, so a late copy of the Interest is not
  recognised as a loop (`LongLivedDataForgets`, with the condition in `FinalizeBuriesIff`).
- The FIB can stop being the one of the RIB. `StepIsRightIff` has the exact condition of each update,
  and `RibFindings` an input for each kind: erasing the last route of a name when it captures
  (`ErasedCaptureKeepsBlocking`) or the costlier of two routes on a face (`ErasedRouteTakesCheaperAway`),
  adding a capturing route above a face the name passes on (`CaptureTakesOwnRouteAway`) or a route on
  an inherited face (`InheritedFaceStaysRecorded`), raising a cost (`RaisedCostCrashes`
  with `UpdateCrashesIff`, `WrongRouteSucceeds`), changing the capture flag (`ChangedCaptureIsNotCounted`), and a new name
  below one with two routes on a face (`FirstRouteIsInherited`).

## Model

| member | source | states |
|---|---|---|
| TxRing.NextKeyIsNearest | daemon/face/lp-reliability.cpp:385-393 | stepping a map iterator and jumping from the end to the beginning goes to the circularly nearest outstanding TxSequence |
| TxRing.FreshUnlessFirst | daemon/face/lp-reliability.cpp:219-227 | for a window on one arc, the next TxSequence is in use exactly if it equals the first outstanding one, so that comparison alone proves it unused |
| TxRing.AssignKeepsArc | daemon/face/lp-reliability.cpp:80-96 | adding the next TxSequence keeps all outstanding ones on the arc from the first to the last assigned |
| TxRing.EraseKeepsArc | daemon/face/lp-reliability.cpp:379-397 | erasing any fragment, with the first pointer moved to the next key around the ring, keeps the arc |
| TxRing.WalkMeetsOlderKeys | daemon/face/lp-reliability.cpp:245-269 | the loss-detection walk ends and meets exactly the outstanding TxSequences circularly older than the acknowledged one |
| TxRing.WalkIsOrdered | daemon/face/lp-reliability.cpp:245-269 | the walk meets them oldest first, none twice |
| LpWindowInvariants.HandleOutgoingKeepsInv | daemon/face/lp-reliability.cpp:62-98 | handing over a packet keeps arc, list partition, liveness of lists and conservation |
| LpWindowInvariants.OnLostKeepsInv | daemon/face/lp-reliability.cpp:272-352 | handling a lost fragment, by giving up or retransmitting, keeps all of them |
| LpWindowRuns.FindLostIsExact | daemon/face/lp-reliability.cpp:245-269 | exactly the older outstanding fragments are incremented, and exactly those reaching the threshold are reported |
| LpWindowRuns.OnLostReportsRemovals | daemon/face/lp-reliability.cpp:272-352 | no fragment leaves the window in onLpPacketLost without being reported as removed |
| LpWindowRuns.StillOutstanding | daemon/face/lp-reliability.cpp:143-156 | with the removed set kept by the caller, every later lost TxSequence is still in the map, so the assertion at line 274 holds |
| LpWindowRuns.WindowOnArcInEveryRun | daemon/face/lp-reliability.cpp:80-96 | in every reachable state the first pointer is end() exactly if nothing is outstanding, all TxSequences lie on the arc, and assignTxSequence throws exactly if its number is in use |
| LpWindowRuns.ListsPartitionInEveryRun | daemon/face/lp-reliability.cpp:292-335 | in every reachable state each outstanding TxSequence is in exactly one live network packet's list, once, and no list is empty |
| LpWindowRuns.PacketsConservedInEveryRun | daemon/face/lp-reliability.cpp:62-98 | packets handed over = nAcknowledged + nRetransmitted + nRetxExhausted + live packets, over every run |
| LpWindowRuns.RetransmissionsBoundedInEveryRun | daemon/face/lp-reliability.cpp:292-349 | over every run no fragment is sent more than 1 + maxRetx times, and a dropped Interest is reported at most once, after its packet is gone and one fragment used up its sends |
| LpWindowRuns.AcksLeaveInOrderInEveryRun | daemon/face/lp-reliability.cpp:187-216 | over every run, with an MTU and congestion that may change from packet to packet, the acks of all received fragments are attached in arrival order, each to one packet, or still wait; acks on sent packets, on dropped packets and in the queue add up |
| LpWindowRuns.AcksLostInEveryRun | daemon/face/generic-link-service.cpp:91-110 | over every run, a packet with acks is dropped, and its acks lost, exactly if the octets left over are fewer than what the mark and the TLV-LENGTH add |
| LpWindowLoss.NothingLostIsOutstandingInEveryRun | daemon/face/lp-reliability.cpp:136-156 | between events no outstanding fragment has reached the loss threshold |
| LpWindowLoss.AckClassifiesPacketInEveryRun | daemon/face/lp-reliability.cpp:355-376 | in every reachable state, an ack counts its packet exactly when it is the last fragment, as retransmitted exactly if some fragment was sent twice |
| AckQueue.Piggyback | daemon/face/lp-reliability.cpp:187-216 | the loop attaches the longest prefix of the queue that fits the remaining space, and leaves the rest |
| AckQueue.TransmitKeepsFifo | daemon/face/lp-reliability.cpp:199-215 | every ack ever queued stays on exactly one packet or in the queue, in order |
| AckQueue.AcksAreLostIff | daemon/face/generic-link-service.cpp:91-110 | for every packet, MTU and mark: dropped with its acks exactly if the octets left over are fewer than the growth; up to MTU 65539 the growth is that of the mark plus 2 if the TLV-LENGTH leaves one octet |
| AckQueue.SentAndDropped | daemon/face/generic-link-service.cpp:103-109 | acks on packets passed to the transport and on dropped packets are together the acks of all packets |
| AckQueue.PiggybackRespectsMtu | daemon/face/lp-reliability.cpp:192-198 | for every MTU, a packet given acks exceeds the limit exactly if its TLV-LENGTH grows by more than the octets left over; up to 65539 octets exactly if it was 253 or 254 octets before and fewer than 2 were left, and then by at most 2 |
| AckQueue.PiggybackCanExceedMtu | daemon/face/lp-reliability.cpp:192-198 | such a packet: 254 octets, MTU 266, one ack |
| AckQueue.IdleTakesAnAck | daemon/face/generic-link-service.cpp:82-97 | an IDLE packet carries an ack exactly if the MTU is unlimited or at least 16 |
| AckQueue.DrainOnIdle | daemon/face/lp-reliability.cpp:230-242 | the idle drain loop ends with an empty queue if every MTU is at least 16 or unlimited; every ack is on one IDLE packet, in order, sent or dropped; without a mark, up to MTU 65539, it is sent |
| AckQueue.DrainStuckBelow16 | daemon/face/lp-reliability.cpp:230-242 | below 16 octets an iteration of that loop removes nothing |
| DuplicateFilter.CheckDuplicate | daemon/face/lp-reliability.cpp:164-178 | the expiry loop and the insertion compute the filter of the specification and report a remembered Sequence |
| DuplicateFilter.NothingLeaksInEveryRun | daemon/face/lp-reliability.cpp:164-178 | after any arrivals, with any changes of the RTO, every remembered Sequence is in the expiry queue, so none is kept for ever |
| DuplicateFilter.DuplicateWithinRtoIsReported | daemon/face/lp-reliability.cpp:164-178 | a Sequence received again within one RTO of its recorded time is reported, as long as the RTO does not fall below that meanwhile |
| DuplicateFilter.RepeatWithinRtoIsReported | daemon/face/lp-reliability.cpp:164-178 | a Sequence received again within one RTO of its first arrival is reported, under the same condition |
| DuplicateFilter.NoFalseDuplicates | daemon/face/lp-reliability.cpp:164-178 | only a Sequence received before is ever reported, however the RTO changes |
| DuplicateFilter.ForgottenIff | daemon/face/lp-reliability.cpp:170-174 | the expiry loop forgets a Sequence exactly if its record and those of all Sequences queued before it are older than the RTO |
| DuplicateFilter.ForgottenWithin | daemon/face/lp-reliability.cpp:164-178 | over every run, an arrival that finds n places in the queue is forgotten within n times the largest RTO |
| DuplicateFilter.OutlivesItsRto | daemon/face/lp-reliability.cpp:164-178 | six arrivals after which a Sequence is remembered beyond its RTO |
| LpReliabilities.LpReliability.AssignTxSequence | daemon/face/lp-reliability.cpp:219-227 | the fragment gets the next TxSequence; throws exactly in the range-exceeded state |
| LpReliabilities.LpReliability.HandleOutgoing | daemon/face/lp-reliability.cpp:62-98 | the object becomes the specified window, of which `ContentsInEveryRun` says what each outstanding fragment carries, and keeps its invariant; fragments come back with their TxSequences |
| LpWindowContents.ContentsInEveryRun | daemon/face/lp-reliability.cpp:62-98 | over every run, fragment s of the p-th packet handed over is held, while it is outstanding, exactly as it was handed over but for its TxSequence, and every transmission or retransmission so far carried such a fragment |
| LpWindowContents.OnLostKeeps | daemon/face/lp-reliability.cpp:291-342 | a lost fragment with retries left is sent again once, as it was first handed over but for its TxSequence, and every outstanding fragment still is the one of its packet |
| LpWindowEffects.HandedIsOutstanding | daemon/face/lp-reliability.cpp:62-98 | each fragment handed over is outstanding under the next TxSequence in turn, and those outstanding before are untouched |
| LpWindowEffects.NumberingStartsAtZero | daemon/face/lp-reliability.cpp:43 | the fragments of the first packet have the TxSequences from 0 on |
| LpWindowEffects.LossEffect | daemon/face/lp-reliability.cpp:277-350 | a lost fragment is sent again under the next TxSequence exactly if it has retries left; otherwise exactly the fragments of its packet leave, and an Interest is reported; no other fragment changes |
| LpWindowEffects.UnknownAckIsIgnored | daemon/face/lp-reliability.cpp:108-115 | an ack of a TxSequence that is not outstanding changes no fragment, packet or counter |
| LpWindowEffects.AckEffect | daemon/face/lp-reliability.cpp:133-155 | an ack makes a circularly older fragment that enough acks have passed be sent again, or give up its packet without retries; it adds one to the count of any other older fragment, and leaves newer ones alone |
| LpWindowEffects.AckEnds | daemon/face/lp-reliability.cpp:138-155 | the acknowledged fragment is outstanding no more, nothing becomes outstanding that was not, and a packet ends only with its last fragment or for want of retries |
| LpWindowEffects.AcksOneByOne | daemon/face/lp-reliability.cpp:108-155 | the acks of one packet work like packets with one ack each |
| LpWindowEffects.OnlyInterestsAreReportedInEveryRun | daemon/face/lp-reliability.cpp:304-309 | over every run, only packets handed over as Interests are reported as dropped, and no packet changes its kind |
| LpReliabilities.LpReliability.FindLostLpPackets | daemon/face/lp-reliability.cpp:245-269 | the wrapping loop ends, bumps the older fragments and returns the lost ones, as specified |
| LpReliabilities.LpReliability.OnLpPacketAcknowledged | daemon/face/lp-reliability.cpp:355-376 | removes the fragment from map and list by swapping with the last, or closes and counts the packet |
| LpReliabilities.LpReliability.OnLpPacketLost | daemon/face/lp-reliability.cpp:272-352 | gives up on the whole packet or moves the fragment to a new TxSequence, returning what was removed |
| LpReliabilities.LpReliability.DeleteUnackedFrag | daemon/face/lp-reliability.cpp:379-397 | erases one fragment and advances the first pointer around the ring |
| LpReliabilities.LpReliability.ProcessIncomingPacket | daemon/face/lp-reliability.cpp:101-184 | all acks processed, ack queued, duplicate reported, invariant kept, unless assignTxSequence throws |
| LpFragmenters.NeedsTwoFragments | daemon/face/lp-fragmenter.cpp:72-96 | a packet refused by the fast path needs at least two fragments |
| LpFragmenters.FragmentFits | daemon/face/lp-fragmenter.cpp:44-57 | the overhead constant covers every field that fragmentation and sequencing add |
| LpFragmenters.FragmentPacket | daemon/face/lp-fragmenter.cpp:66-129 | fails exactly if the MTU is too small or there are too many fragments; otherwise whole, or at least two fragments that join to the payload; all fit the MTU after a Sequence is added |
| LpFragmenters.Cut | daemon/face/lp-fragmenter.cpp:98-128 | the cutting loop fills exactly fragCount fragments whose payloads concatenate to the input |
| LinkServices.UnlimitedAfterReservation | daemon/face/generic-link-service.cpp:190-205 | the MTU left after reservations is "unlimited" exactly if there was none or it was one octet below a reservation |
| LinkServices.ReservedSpaceSuffices | daemon/face/generic-link-service.cpp:190-205 | a packet within the reduced MTU fits the effective MTU after TxSequence and congestion mark are added |
| AckQueue.MarkAfterAcksCanExceedMtu | daemon/face/generic-link-service.cpp:91-110 | an IDLE packet with five acks and a mark on a 64-octet link is dropped, and the five acks are gone |
| LinkServices.GenericLinkService.AssignSequences | daemon/face/generic-link-service.cpp:144-149 | consecutive Sequences after the last one, around 2^64 |
| LinkServices.GenericLinkService.SendLpPacket | daemon/face/generic-link-service.cpp:91-110 | acks, mark, MTU check: the attempt is recorded as sent or dropped, as specified |
| LinkServices.GenericLinkService.SendOne | daemon/face/generic-link-service.cpp:91-110 | the packet is dropped and counted in nOutOverMtu exactly if it is over the MTU with its acks and mark; without acks waiting, a packet that fits is sent |
| LpReliabilities.LpReliability.SendLpPacket | daemon/face/generic-link-service.cpp:91-110 | the same code when a fragment is sent again |
| LinkServices.BudgetHoldsIff | daemon/face/generic-link-service.cpp:199-200 | the assertion on the remaining MTU holds exactly if the effective MTU covers the reservations, is unlimited, or is 11 or 23 and turns into unlimited |
| LinkServices.ZeroMtuFailsAssertion | daemon/face/generic-link-service.cpp:199-200 | an MTU of 0 passes it exactly without reliability and congestion marking |
| LinkServices.FailedBudgetIsHuge | daemon/face/generic-link-service.cpp:202-204 | without assertions, a failed budget makes the fragmenter pass every packet whole |
| LinkServices.FailedBudgetDrops | daemon/face/generic-link-service.cpp:103-108 | with reliability, such a packet is over the effective MTU |
| LinkServices.GenericLinkService.SendNetPacket | daemon/face/generic-link-service.cpp:185-240 | the assertion fails exactly if the budget does; otherwise every fragment is tried in order; those sent are numbered consecutively and fit the effective MTU; with fragmentation, the budget kept and no acks waiting all are sent; with reliability and a failed budget none is |
| LinkServices.GenericLinkService.DoReceivePacket | daemon/face/generic-link-service.cpp:288-321 | duplicates, IDLE packets and unwanted fragments never reach the reassembler; the rest do |
| LpReassemblers.ReceiveFrame | daemon/face/lp-reassembler.cpp:45-119 | a fragment touches no partial packet but its own |
| LpCodec.WireSizeIsExact | daemon/face/generic-link-service.cpp:103-104 | the size on which every MTU decision of the model rests is the number of octets of the packet's NDNLPv2 encoding |
| LpCodec.LpPacketIsAnElement | daemon/face/generic-link-service.cpp:103-109 | and a packet with link-layer headers is one element of a byte stream |
| LinkBudget.DroppedIffOverEither | daemon/face/generic-link-service.hpp:145-151 | a packet is over the MTU exactly if the transport has one and the packet is larger than it or than the override |
| LinkBudget.FragmentsIff | daemon/face/generic-link-service.cpp:187-203 | fragmentation is at work exactly if it is allowed and the transport has an MTU, but for the values of `UnlimitedAfterReservation`, with what the reservations leave of the smaller MTU |
| LinkBudget.AcceptedIffWithinCapacity | daemon/face/lp-fragmenter.cpp:72-107 | a packet is accepted exactly if it fits whole, or one octet fits the first fragment and the payload is within the capacity of the allowed number of fragments |
| LinkBudget.SequenceIsNext | daemon/face/generic-link-service.cpp:226-230 | each fragment leaves with the next Sequence, unless the packet is sent whole on an unreliable link, which then has none |
| LpReassemblers.LpReassembler.ReceiveFragment | daemon/face/lp-reassembler.cpp:45-119 | the object's partial packets and result are those of the function about which `SinglePacketRoundTrip`, `IgnoredIffUnusable` and the round trips of LinkIntegrity are proved |
| LpReassemblers.IgnoredIffUnusable | daemon/face/lp-reassembler.cpp:49-102 | a packet leaves no trace exactly if its index is not below its count, it has too many fragments, it is one of several and has no Sequence, or its partial packet has another count or that fragment already |
| LpReassemblers.LpReassembler.DoReassembly | daemon/face/lp-reassembler.cpp:122-139 | measuring, allocating and copying gives the concatenation of the payloads |
| LpReassemblers.LpReassembler.TimeoutPartialPacket | daemon/face/lp-reassembler.cpp:142-151 | the entry is gone and counted, if there was one |
| LinkIntegrity.FullJoinsToPacket | daemon/face/lp-reassembler.cpp:106-112 | a full partial packet joins to the bytes that were sent |
| LinkIntegrity.IntegrityInEveryRun | daemon/face/lp-reassembler.cpp:45-139 | for every schedule of loss, duplication, reordering, interleaving and timeouts, a completed packet has the bytes and first-fragment headers of one packet of that endpoint |
| LinkIntegrity.CollectsWhatArrives | daemon/face/lp-reassembler.cpp:85-104 | a partial packet holds exactly the fragments that have arrived, whatever else arrives |
| LinkIntegrity.RoundTrip | daemon/face/lp-reassembler.cpp:82-118 | fragments in any order, repeated and mixed with other traffic complete exactly when the last missing one arrives, with the original bytes, and leave no entry |
| LinkSenders.SendersReuseNothing | daemon/face/generic-link-service.cpp:144-149 | the messages of any senders that have numbered at most 2^64 fragments each reuse no first Sequence |
| LinkSenders.WhatArrivesWasSent | daemon/face/generic-link-service.cpp:185-240 | end to end: for any calls of sendNetPacket at any endpoints and any schedule of the link, with IDLE packets between, every packet that completes has the bytes and first headers of one that its endpoint sent |
| LinkSenders.SinglePacketRoundTrip | daemon/face/lp-reassembler.cpp:70-73 | every transmission of a packet that was not fragmented, with any acks and TxSequence, is delivered at once with its bytes and headers exactly if its bytes are valid TLV and single packets are allowed, whatever is being reassembled; it changes no partial packet |
| LinkSenders.EveryTransmissionIsOffered | daemon/face/lp-reliability.cpp:62-98 | every transmission of a run of the window is one that the link theorems allow: a fragment of a packet that was handed over, changed in nothing but TxSequence, acks and congestion mark |
| LinkIntegrity.EmittedCarries | daemon/face/generic-link-service.cpp:185-240 | what sendNetPacket emits are fragments of one message in the sense of the integrity theorem |
| PitEntries.FindDuplicateNonce | daemon/fw/algorithm.cpp:55-82 | each of the four flags is set exactly if a record of that kind carries the Nonce |
| PitEntries.LastExpiry | daemon/fw/forwarder.cpp:202-207 | the maximum expiry over the in-records |
| PitEntries.HasPendingOutRecords | daemon/fw/algorithm.cpp:85-93 | true exactly if some out-record is unexpired and has no Nack |
| ForwarderRuns.InterestSpends | daemon/fw/forwarder.cpp:90-249 | one received Interest allows at most one more Data, Nack or in-record for its face and none for others, on every branch |
| ForwarderRuns.SingleMatchSpends | daemon/fw/forwarder.cpp:328-350 | Data for one entry: whatever the strategy sends is paid for with in-records that go |
| ForwarderRuns.MultiMatchSpends | daemon/fw/forwarder.cpp:349-395 | Data for several entries is sent once per face, which loses at least one in-record for it |
| ForwarderRuns.FlowBalanceInEveryRun | daemon/fw/forwarder.cpp:90-249 | over every run and for every face, Data sent + Nacks sent + live in-records never exceed the Interests received, whatever Interests, Nacks, timers and returns of Data the strategy chooses, at once or later, and whether or not it answers loops |
| ForwarderRuns.PitConservedInEveryRun | daemon/fw/forwarder.cpp:281-300 | in every reachable state every entry has a pending timer, entries created = satisfied + unsatisfied + live, and no entry is finalized twice |
| ForwarderRuns.StepKeys | daemon/fw/forwarder.cpp:139-143 | PIT entries come only by insertion and go only by their timer |
| ForwarderRules.UnacceptableIsDropped | daemon/fw/forwarder.cpp:104-120 | an Interest with HopLimit 0, or about /localhost from another host, is counted and changes nothing else |
| ForwarderRules.TaggedInterestLeaves | daemon/fw/forwarder.cpp:187-227 | an Interest with a next-hop tag leaves there exactly once with its Nonce and a HopLimit one lower, or the configured default; with HopLimit 0 left, only to a local face |
| ForwarderRules.InterestLeavesIff | daemon/fw/forwarder.cpp:252-278 | an Interest is sent exactly if it has hops left or the face is local; only its out-record changes, to its Nonce, the time and the end of its lifetime |
| ForwarderRules.TimerIsSet | daemon/fw/forwarder.cpp:568-576 | the timer is set to now plus the duration, or to now if that is negative, and nothing else changes |
| ForwarderRules.NackLeavesIff | daemon/fw/forwarder.cpp:494-536 | a Nack is sent exactly on a valid point-to-point face with an in-record, which it uses up; otherwise nothing changes |
| ForwarderRules.DataIsReturnedIff | daemon/fw/strategy.cpp:255-274 | a face gets the Data exactly if its in-record is not over, it is not the ingress unless ad hoc, it is valid, and /localhost stays local; exactly the waiting ones lose their in-record |
| ForwarderRules.SendNacksIsEachNack | daemon/fw/strategy.cpp:277-296 | sendNacks is one sendNack for each downstream not excluded, in any order |
| ForwarderRules.NackCountsIff | daemon/fw/forwarder.cpp:439-491 | a Nack is recorded, whatever the strategy then does, exactly if it comes from a point-to-point upstream with the Nonce last sent there; any other changes nothing |
| ForwarderRules.RemovalForgetsFace | daemon/table/cleanup.cpp:43-45 | a removed face is in no PIT record any more; all other records and state stay |
| ForwarderRules.CountersInEveryRun | daemon/fw/forwarder.cpp:288-294 | in every reachable state the satisfied and unsatisfied counters are the numbers of entries finalized satisfied and not |
| ForwarderRules.StepIsLawful | daemon/fw/forwarder.cpp:252-278 | whatever the strategy does, no event sends an Interest with HopLimit 0 to a remote face, a Nack to a shared medium, Data to an invalid face, or /localhost Data to a remote face |
| ForwarderRules.SentLawfullyInEveryRun | daemon/fw/forwarder.cpp:412-436 | the same of everything sent in every reachable state |
| ForwarderLoops.SendingStepGuards | daemon/fw/forwarder.cpp:252-278 | any event that sends an Interest to an upstream, also while Data is handled, leaves it guarded, for an entry not satisfied by long-lived Data |
| ForwarderLoops.FinalizeBuriesIff | daemon/fw/forwarder.cpp:579-607 | finalization puts a Nonce on the Dead Nonce List exactly if some out-record holds it and the entry is unsatisfied, or wants fresh Data and got short-lived Data |
| ForwarderLoops.StepKeepsGuard | daemon/fw/forwarder.cpp:281-300 | any event that does not replace the Nonce, remove the upstream, satisfy the entry with long-lived Data or evict the Nonce keeps the guard |
| ForwarderLoops.LoopsAreCaughtInEveryRun | daemon/fw/forwarder.cpp:122-156 | over every run, the guarded name and Nonce arriving again is a loop exactly unless a point-to-point face repeats its own Nonce while it is only in the PIT; a loop adds no PIT record and sends nothing but one Nack to a point-to-point ingress, if the strategy answers loops |
| ForwarderLoops.SentInterestsAreCaughtInEveryRun | daemon/fw/forwarder.cpp:122-156 | the same from the event that sends the Interest |
| ForwarderLoops.LongLivedDataForgets | daemon/fw/forwarder.cpp:579-607 | after finalization of an entry satisfied by long-lived Data, the Interest is not a loop |
| ForwarderTimers.StepKeepsWaiting | daemon/fw/forwarder.cpp:568-576 | an in-record keeps its due time, and the entry a timer not before it, through every event but the stated ones: the strategy ends it, Data matches, the last upstream sends a Nack, the face goes, or the same downstream asks again |
| ForwarderTimers.JoiningWaits | daemon/fw/forwarder.cpp:198-207 | an Interest that is not refused, looping or answered from the Content Store is pending until its lifetime, at most ten days, is over |
| ForwarderTimers.PendingUntilDueInEveryRun | daemon/fw/forwarder.cpp:198-207 | over every run: it stays pending with that due time, and its entry is not finalized before, as long as none of the stated events happens; meanwhile a copy of it is a loop, unless a point-to-point face repeats its own Nonce |
| ForwarderTimers.TimerIsDueWithAnInterest | daemon/fw/forwarder.cpp:198-207 | and not longer: the timer of the entry is due when one of the Interests pending in it is |
| ForwarderTimers.LastNackEndsNow | daemon/fw/forwarder.cpp:481-487 | when the last upstream that could answer sends a Nack, the entry is due at once |
| ForwarderTimers.HitEndsNow | daemon/fw/forwarder.cpp:230-249 | a Content Store match satisfies the entry, makes it due at once, leaves no in-record and sends the Data to the ingress if scope allows |
| ForwarderData.DataGoesToWhoWaits | daemon/fw/forwarder.cpp:303-395 | with the base handling of Data, each downstream whose in-record is not over, in any entry that the name answers exactly or as a prefix, gets exactly one copy if it may carry it and is not the ingress, unless ad hoc; no other face gets one |
| ForwarderData.MatchedEntriesAreDone | daemon/fw/forwarder.cpp:303-395 | every matching entry is satisfied, expires now, has lost the upstream's record and owes nobody but the ingress; other entries are unchanged |
| Forwarders.Forwarder.OnIncomingInterest | daemon/fw/forwarder.cpp:90-167 | the pipeline does what the relation used in the run theorems says |
| Forwarders.Forwarder.OnContentStoreMiss | daemon/fw/forwarder.cpp:187-227 | in-record, timer at the last expiry, then next-hop tag or strategy, as the relation of `JoiningWaits`, `TimerIsDueWithAnInterest` and `TaggedInterestLeaves` says |
| Forwarders.Forwarder.OnContentStoreHit | daemon/fw/forwarder.cpp:230-249 | satisfied, expires now, Data to the ingress |
| Forwarders.Forwarder.OnInterestFinalize | daemon/fw/forwarder.cpp:281-300 | Dead Nonce List, counter, erase |
| Forwarders.Forwarder.OnIncomingData | daemon/fw/forwarder.cpp:303-395 | single-match and multi-match branches as specified |
| Forwarders.Forwarder.OnIncomingNack | daemon/fw/forwarder.cpp:439-491 | drops, Nack recorded, timer set to now when nothing is pending, then the strategy |
| Forwarders.Forwarder.OnOutgoingNack | daemon/fw/forwarder.cpp:494-536 | sent exactly to a valid point-to-point face with an in-record, which is erased |
| Forwarders.Forwarder.InsertDeadNonceList | daemon/fw/forwarder.cpp:579-607 | adds the Nonces of all out-records, or of one upstream, exactly if needed |
| Forwarders.Forwarder.SendToAll | daemon/fw/strategy.cpp:255-274 | the loop sends to all waiting downstreams and erases exactly their in-records |
| Forwarders.Forwarder.SendNacksTo | daemon/fw/strategy.cpp:277-296 | the loop sends one Nack per in-record that can take it and erases exactly those |
| Forwarders.Forwarder.CleanupOnFaceRemoval | daemon/table/cleanup.cpp:43-45 | no record of any PIT entry names the face any more; nothing else changes in the PIT |
| RetxSuppressions.GrowStaysInBounds | daemon/fw/retx-suppression-exponential.cpp:92-93 | the suppression interval never shrinks and never exceeds its maximum |
| RetxSuppressions.AcceptedIffInBounds | daemon/fw/retx-suppression-exponential.cpp:56-71 | the constructor accepts exactly the positive initial intervals and parameters for which every later interval stays between the initial and the largest one |
| RetxSuppressions.GrowthIsExponential | daemon/fw/retx-suppression-exponential.hpp:36-40 | for every multiplier the interval is at most initial * multiplier^i, and it is min(initial * multiplier^i, max) as long as no step was rounded |
| RetxSuppressions.WholeMultiplierIsExact | daemon/fw/retx-suppression-exponential.hpp:36-40 | a whole multiplier, such as the default, never rounds |
| RetxSuppressions.ReachesMaximumIff | daemon/fw/retx-suppression-exponential.cpp:92-93 | the interval ever reaches its maximum exactly if it starts there or initial * (multiplier - 1) is at least one millisecond |
| RetxSuppressions.SlowGrowthIsNone | daemon/fw/retx-suppression-exponential.cpp:92-93 | otherwise it keeps its initial value for ever |
| RetxSuppressions.OneMillisecondNeverGrows | daemon/fw/retx-suppression-exponential.cpp:92-93 | such a configuration: 1 ms, multiplier 1.5 |
| RetxSuppressions.DecidePerPitEntry | daemon/fw/retx-suppression-exponential.cpp:74-96 | new without pending out-records; otherwise suppressed exactly within the interval since the last send |
| BestRoutes.FindEarliest | daemon/fw/algorithm.cpp:109-128 | an eligible next hop used longest ago; every eligible next hop has an out-record when the search is reached |
| BestRoutes.BestRouteStrategy.AfterReceiveInterest | daemon/fw/best-route-strategy.cpp:61-118 | every Interest goes to a next hop that is not the ingress, unless ad hoc, and does not violate /localhost or /localhop; a new Interest goes to the cheapest such next hop, or is answered with NoRoute exactly if there is none; a retransmission is suppressed exactly within the interval, else goes to the cheapest one not asked yet or to the one asked longest ago |
| BestRoutes.ReactionIsRight | daemon/fw/algorithm.cpp:108-152 | the same of the relation used for runs, from the FIB entry, the out-records and the scope rules alone |
| BestRoutes.NoRouteEndsWait | daemon/fw/best-route-strategy.cpp:80-87 | without a route the entry is due at once and a point-to-point downstream gets one Nack for its in-record |
| BestRoutes.BestRouteStrategy.NewEntryStartsAfresh | daemon/fw/retx-suppression-exponential.cpp:85 | an entry starts without an interval, whatever an earlier entry of its key had |
| BestRoutes.ChoiceIsSent | daemon/fw/best-route-strategy.cpp:88-91 | the chosen upstream, sent through the forwarder, renews exactly its out-record and gets the Interest with its Nonce and HopLimit |
| BestRoutes.ArrivalKeepsRotation | daemon/fw/best-route-strategy.cpp:61-118 | one arrival keeps the out-records in rotation order |
| BestRoutes.RotationInEveryRun | daemon/fw/best-route-strategy.cpp:61-118 | over any run of arrivals the k-th forwarded Interest goes to eligible next hop k mod n in FIB order |
| PathOrams.LevelOfBucket | daemon/table/oram/OramReadPathEviction.cpp:178-185 | path buckets are in range, and buckets of one level are numbered together |
| PathOrams.PathGoesDownTheTree | daemon/table/oram/OramReadPathEviction.cpp:178-185 | a path starts at the root, each bucket is a child of the one before, and each leaf has a last bucket of its own |
| PathOrams.PathBucketsDiffer | daemon/table/oram/OramReadPathEviction.cpp:178-185 | different levels have different buckets |
| PathOramMemory.PathBlocksConserve | daemon/table/oram/OramReadPathEviction.cpp:59-66 | absorbing a path moves its real blocks, each once, and no others |
| PathOramMemory.EvictBounded | daemon/table/oram/OramReadPathEviction.cpp:112-165 | write-back of a whole path duplicates and invents no block, whatever the bucket size |
| PathOramMemory.EvictConserves | daemon/table/oram/OramReadPathEviction.cpp:112-165 | it loses none if the bucket size or the number of blocks in the stash is at most 4 |
| PathOramMemory.EvictPlaces | daemon/table/oram/OramReadPathEviction.cpp:112-165 | after write-back every block in the tree lies on the path of its leaf, whatever the bucket size |
| PathOramMemory.AccessIsMemory | daemon/table/oram/OramReadPathEviction.cpp:47-176 | an access keeps the invariant and READ returns what is stored, whatever the bucket size; if buckets have room, READ changes no block and WRITE replaces or adds exactly its block |
| PathOramMemory.EveryRunIsFlatMemory | daemon/table/oram/OramReadPathEviction.cpp:47-176 | with a bucket size or a number of blocks of at most 4, every sequence of accesses, with any leaves drawn, answers exactly as a flat memory |
| PathOramMemory.BucketKeepsPickedIff | daemon/table/oram/Bucket.cpp:48-54 | a bucket keeps all blocks picked for it exactly if there are at most 4 |
| PathOramBuckets.LargeBucketsLoseAWrite | daemon/table/oram/Bucket.h:29 | from any first state with larger buckets and more blocks: reading and then writing blocks 0 to 4 with leaf 0 drawn each time, the final READ of block 4 returns zeros instead of what was written |
| PathOramBuckets.IsMemoryIff | daemon/table/oram/Bucket.cpp:48-54 | every legal run from a first state answers as a flat memory if and only if the bucket size or the number of blocks is at most 4 |
| PathOramStash.AccessIsGreedy | daemon/table/oram/OramReadPathEviction.cpp:112-165 | after an access the accessed block alone has a new leaf, the one drawn, and a block stays in the stash or above a bucket of the path that its leaf allows only if that bucket is full |
| PathOramStash.StashOnlyUnderFullRoot | daemon/table/oram/OramReadPathEviction.cpp:112-165 | nothing stays in the stash while the root bucket has room |
| OramClients.EnoughSpace | daemon/table/oram/OramReadPathEviction.cpp:20-26 | the space check cannot fail for a positive bucket size |
| OramClients.OramReadPathEviction.constructor | daemon/table/oram/OramReadPathEviction.cpp:14-45 | the first state holds only dummies, and it is a memory exactly if the bucket size or the number of blocks is at most 4 |
| OramClients.OramReadPathEviction.EvictPath | daemon/table/oram/OramReadPathEviction.cpp:112-165 | the level and stash loops compute the specified write-back |
| OramClients.OramReadPathEviction.Access | daemon/table/oram/OramReadPathEviction.cpp:47-176 | for every bucket size the object's new state and answer are those specified; where buckets have room, those of a memory |
| PitStores.DecodeInvertsEncode | daemon/table/pit.cpp:90-139 | an Interest written to a block as valid flag, id and wire is read back exactly |
| PitStores.InterestComesBack | daemon/table/pit.cpp:90-139 | an Interest encoded as a TLV element of at most 8792 octets is read back from its block; an element of any other TLV-TYPE is not |
| PitStores.DecodeOfZeros | daemon/table/pit.cpp:142-147 | a cleared or unwritten block decodes to nothing |
| PitStores.Pit.constructor | daemon/table/pit.cpp:54-68 | all block ids free, no Interest stored |
| PitStores.Pit.FindOrInsert | daemon/table/pit.cpp:183-248 | a lookup through the ORAM returns the Interest that was inserted; a new one is refused exactly if the pool is empty or it does not fit; ids stay partitioned into free and used |
| PitStores.Pit.Erase | daemon/table/pit.cpp:274-293 | the Interest is gone, its block holds zeros, its id is at the end of the free list, the others are unchanged |
| PitCapacity.TableFollowsStore | daemon/table/pit.cpp:183-248 | an arriving Interest changes the keys of the forwarder's table as findOrInsert changes those of the store |
| PitCapacity.PitFitsStoreInEveryRun | daemon/table/pit.cpp:183-248 | with room decided by the pool of blocks, no reachable state has more than 1024 entries |
| Ribs.NextHopAfter | daemon/rib/rib.cpp:282-303 | after a change of one entry, another name's recomputed next hop is what that entry passes on if it reaches the name, and the same as before otherwise |
| Ribs.AncestorIsOffered | daemon/rib/rib.cpp:282-303 | getAncestorRoutes finds a route on a face exactly if one is offered |
| FibUpdates.UpdateIsRightIff | daemon/rib/fib-updater.cpp:618-673 | carrying out the decisions for one entry gives the FIB and the inherited routes of the whole new RIB exactly if those of the entry itself and the offers to its children are right |
| RouteUpdates.NewEntryIsRightIff | daemon/rib/fib-updater.cpp:358-402 | a new name: exactly if the route captures or ancestors offer what getAncestorRoutes finds |
| RouteUpdates.NewRouteIsRightIff | daemon/rib/fib-updater.cpp:405-441 | a new route: exactly if it does not replace an inherited one without capturing, and capture takes no route of the name itself away from a descendant |
| RouteUpdates.UpdateOfRouteIsRightIff | daemon/rib/fib-updater.cpp:444-540 | an updated route that keeps its capture flag: exactly if the right route succeeds it at the name and for its children |
| RouteUpdates.UpdateCrashesIff | daemon/rib/fib-updater.cpp:458-469 | an update follows a null pointer exactly if the route cost less than all others on its face, now costs more than another, and no route on the face is for children |
| RouteUpdates.UnregisterIsRightIff | daemon/rib/fib-updater.cpp:137-171 | an erased route: the exact condition on the remaining routes, the ancestors' offers and the faces that reach a descendant |
| RouteUpdates.SecondIsCheapestLeftIff | daemon/rib/rib-entry.cpp:178-200 | the route that stands in for an erased one is a cheapest one of those left exactly if the erased one was a cheapest one or two of those left are |
| RibRuns.StepIsRightIff | daemon/rib/fib-updater.cpp:64-85 | an update keeps FIB, inherited routes and capture counters right if and only if it is safe |
| RibRuns.FibIsRecomputedInEveryRun | daemon/rib/fib-updater.cpp:64-85 | over every run of safe updates the FIB is the one computed from the whole RIB, and the first unsafe update ends that |
| RibFindings.PlainNameIsSafe | daemon/rib/fib-updater.cpp:358-402 | if no name has two routes on a face, registering a new name is always safe |
| RibFindings.PlainUnregisterIff | daemon/rib/fib-updater.cpp:543-607 | and unregistering is right exactly if no reached face is offered from above while the last route of the entry captures, or kept by the entry at another cost when the ancestors' routes are brought back |
| RibFindings.UnsafeIsWrong | daemon/rib/rib.cpp:407-435 | in any run, safe updates followed by an unsafe one leave tables that are not right |
| RibFindings.ErasedCaptureKeepsBlocking | daemon/rib/fib-updater.cpp:543-607 | such a run: root route for children, capturing route, route below, and the capturing route erased |
| RibFindings.ErasedRouteTakesCheaperAway | daemon/rib/fib-updater.cpp:155-164 | two routes on a face, and the costlier one erased |
| RibFindings.CaptureTakesOwnRouteAway | daemon/rib/fib-updater.cpp:423-432 | a name with a route for children on a face of its ancestors, and a capturing route added |
| RibFindings.InheritedFaceStaysRecorded | daemon/rib/fib-updater.cpp:434-441 | a route added on a face that the name has inherited |
| RibFindings.RaisedCostCrashes | daemon/rib/fib-updater.cpp:465-469 | the cheaper of two ordinary routes on a face becomes the costlier: a null pointer is followed |
| RibFindings.WrongRouteSucceeds | daemon/rib/fib-updater.cpp:465-469 | with a third, costlier route for children: that one is installed |
| RibFindings.FirstRouteIsInherited | daemon/rib/rib.cpp:282-303 | a new name below one whose first route on a face is not the cheapest |
| RibFindings.ChangedCaptureIsNotCounted | daemon/rib/rib.cpp:102-111 | an update that changes the capture flag is never safe |
| FibUpdaters.FibUpdater.GetAncestorRoutes | daemon/rib/rib.cpp:282-303 | the loop over the ancestors finds what is specified |
| FibUpdaters.FibUpdater.TraverseSubTree | daemon/rib/fib-updater.cpp:628-673 | the recursion ends, and exactly the entries that a route from the root of the subtree reaches take the change |
| FibUpdaters.FibUpdater.ModifyChildrensInheritedRoutes | daemon/rib/fib-updater.cpp:618-625 | the same for all children, each subtree once |
| FibUpdaters.FibUpdater.CreateFibUpdatesForNewRibEntry | daemon/rib/fib-updater.cpp:358-402 | the updates are those of the plan, for the four combinations of flags |
| FibUpdaters.FibUpdater.CreateFibUpdatesForNewRoute | daemon/rib/fib-updater.cpp:405-441 | the updates are those of the plan |
| FibUpdaters.FibUpdater.CreateFibUpdatesForUpdatedRoute | daemon/rib/fib-updater.cpp:444-540 | the updates are those of the plan, or a null pointer is followed, exactly as specified |
| FibUpdaters.FibUpdater.CreateFibUpdatesForErasedRoute | daemon/rib/fib-updater.cpp:543-607 | the updates are those of the plan |
| FibUpdaters.SecondLowest | daemon/rib/rib-entry.cpp:178-199 | a route that comes second in some order by cost, if there are two on the face |
| FibUpdaters.FibUpdater.Finish | daemon/rib/rib.cpp:407-469 | the plan is carried out, and every name met by modifyInheritedRoutes has an entry, as it asserts |
| FibUpdaters.FibUpdater.Register | daemon/rib/fib-updater.cpp:88-134 | a registration does what the relation of the run theorem says and keeps the tables right if and only if it is safe; the exact condition for following a null pointer |
| FibUpdaters.FibUpdater.Unregister | daemon/rib/fib-updater.cpp:137-171 | the same for an unregistration |
| StreamTransports.GreedyKeepsBytes | daemon/face/stream-transport.hpp:249-258 | elements delivered and bytes left are the bytes read |
| StreamTransports.GreedyResumes | daemon/face/stream-transport.hpp:249-258 | parsing may stop anywhere and resume with the bytes left |
| StreamTransports.GreedyInvertsFlatten | daemon/face/stream-transport.hpp:249-258 | any sequence of elements sent back to back is recovered |
| StreamTransports.ChunksDoNotMatter | daemon/face/stream-transport.hpp:230-277 | for every cutting of a stream into reads, elements and tail are those of the one-shot parse |
| StreamTransports.FailurePointIsIntrinsic | daemon/face/stream-transport.hpp:269-274 | whether a prefix of the stream fills the buffer does not depend on the reads |
| StreamTransports.TailFits | daemon/face/stream-transport.hpp:230-277 | after any reads that were offered space the unparsed tail fits the buffer |
| StreamTransports.StreamTransport.StartReceive | daemon/face/stream-transport.hpp:230-237 | a new read has at least one free octet |
| StreamTransports.StreamTransport.Compact | daemon/face/stream-transport.hpp:264-268 | the unparsed bytes move to the front in place |
| StreamTransports.StreamTransport.HandleReceive | daemon/face/stream-transport.hpp:241-277 | all complete elements delivered, the tail buffered, failure exactly if the tail fills the buffer |
| StreamTransports.TlvIsPrefixStable | daemon/face/stream-transport.hpp:251-257 | the TLV parser does not change its mind about a complete element; `TlvSizeInverts` and `TlvSizeWaits` say which elements it finds |
| TlvCodec.TlvSizeInverts | daemon/face/stream-transport.hpp:251-257 | the parser finds exactly the element that an independent TLV encoder wrote, whatever follows it |
| TlvCodec.TlvSizeWaits | daemon/face/stream-transport.hpp:251-257 | and nothing in any proper prefix of it |
| TlvCodec.InvalidTypeIsRefused | daemon/face/stream-transport.hpp:251-257 | a TLV-TYPE of 0 or above 2^32 - 1 is never an element |
| TlvCodec.StreamComesBack | daemon/face/stream-transport.hpp:249-258 | packets encoded back to back, the last one cut off anywhere, come back one by one; the octets of the unfinished one wait |
| TlvCodec.SentIsReceived | daemon/face/stream-transport.hpp:230-277 | the same for every sequence of reads |
| Networks.MakeMask | core/network.cpp:136-141 | the mask has exactly the leading prefix-length bits set |
| Networks.ParsePrefix | core/network.cpp:130-179 | accepts exactly lengths up to the address width, and computes the range |
| Networks.RangeIsMask | core/network.hpp:44-48 | min <= candidate <= max in byte order exactly if candidate and address agree under the mask |
| Networks.ContainsIffPrefixAgrees | core/network.hpp:44-48 | membership is agreement on the prefix bits, with the exact exception for scope ids |
| Networks.ContainsItself | core/network.hpp:44-48 | a range contains the address it was made from, with the same exception |

## Left out

- AckQueue.DrainOnIdle: that an unmarked IDLE packet is always sent is stated for MTUs up to 65539 octets; beyond that thousands of acks can lengthen the TLV-LENGTH by more than piggyback reserves, as `AcksAreLostIff` says.
- RetxSuppressions.GrowthIsExponential: over exact real numbers instead of floats.
- BestRoutes.RotationInEveryRun: assumes what the rotation needs to be defined: one downstream, a fixed FIB entry, no Nack, no expired out-record and no HopLimit drop.
- LinkIntegrity.RoundTrip: covers packets whose bytes are valid TLV; `ReceiveFragment` models the other case, in which the full entry stays until its timeout.
- LinkServices.GenericLinkService.SendNetPacket: the effective MTU of one link service object stays the same; the run theorems of the reliability window allow it to change with every packet.
- OramClients.OramReadPathEviction.Access: oblivious selections are written as the conditionals they compute, so nothing is said about memory access patterns or secrecy; the ORAM stash is not bounded.
- ForwarderRuns.FlowBalanceInEveryRun: strategies act through sendInterest, sendNack, sendDataToAll and setExpiryTimer, handle Content Store hits as the base class does, and answer a loop with one Nack or not at all, which covers the strategies of the repository.
- Forwarders.Forwarder.CleanupOnFaceRemoval: covers the PIT, not the FIB next hops and name tree entries that are cleaned up in the same pass.
- The Content Store's index and replacement policy: the pipelines take its answer as an input.
- Fields that only some pipelines pass through: forwarding hints, PIT tokens, implicit digests in names, packet tags.
- The send queue of StreamTransport, sockets and their errors: only easy members.
- FibUpdaters.FibUpdater.Register: all FIB commands succeed; timeouts, errors and the removal of a face, for which some updates are not sent, are not modelled. The children of an entry are computed from the names instead of kept as pointers.
- RibRuns.FibIsRecomputedInEveryRun: describes runs up to the first unsafe update, not what later updates do to tables that are not right any more.
- RTT estimation, the timing of congestion marks, changing options at run time, management, configuration and the decisions of the other strategies.
- Decoding of link-layer fields into Interests, Data and Nacks: branch by branch, without a property that spans them.
