# DNX: the stream, the namespace tree and the registries, verified

DNX gives machines names instead of addresses. Registries bind names to keys and number them,
routers forward frames by those numbers, and nodes exchange byte streams over datagrams. This
project models the four parts of it that keep state across calls, and proves what they keep.

**The reliable stream** (`internal/stream/stream.go`). `StreamProtocol` is one endpoint as
functions over unbounded byte offsets; `StreamSystem` puts two of them on a network that may
drop, duplicate and reorder every frame ever sent. `StreamInvariant` is the invariant of the
pair; `StreamTheorems`, `StreamMemory`, `StreamOverrun`, `StreamFlow`, `StreamRetries`,
`StreamTiming` and `StreamLiveness` are what follows: delivery, tiling of the send queue, end of
file, the true memory bound, flow control, the bound on transmissions, the round-trip estimate,
the dead-peer deadline and recovery from a lost window update. `Stream32` is the stream as it is
written: a class with 32-bit fields updated in place and frames as bytes, every method proved to
take the step of the unbounded endpoint.
`StreamPair` runs two of these objects against each other.

**The namespace tree** (`internal/nspath`). `NsTable` is the tree as a value with its
operations; `NsShape` and `NsTree` are the node objects with their two indexes and the methods
over them, each proved to compute the value-level function; `NsRestore` rebuilds a tree from a
snapshot. `NsGraft`, `NsSnapshot`, `NsHistory`, `NsListing` and `NsReplica` hold the laws:
replication in any order, exact restore, no identifier ever reused, a canonical listing.
`NsPath` is the path as bytes and as text, `Names` the splitting of names into labels.

**Routers and registries.** `Forwarding` is the walk through one node and the journey across
all of them. `Zone`, `ZoneLabels` and `Delegations` are the containment rules and the
delegation table; `Federation`, `FederationLimits` and `RegistryNids` are several registries
numbering one namespace; `Referrals` is the resolver that follows delegations; `Ownership` is the table of
names and keys.

Three promises of the code hold less widely than its comments say, and the exact boundary is
proved for each:

- The receive limit is not enforced when parked data is drained. Calls on two streams lead
  beyond it (`StreamOverrun.LimitIsBroken`), one event does so exactly as
  `StreamOverrun.LimitBreaksIff` says, and the bound that holds in every run is
  RecvBufMax + 65535 (`StreamMemory.ReceiveMemoryBounded`); with in-order acknowledgements
  RecvBufMax itself holds (`StreamFlow.FlowControlHolds`).
- A counter that has wrapped is forgotten. Snapshot and restore are exact, and a restart keeps
  forgotten paths unused, exactly while no counter has wrapped (`NsSnapshot.RoundTripExactIff`,
  `NsHistory.ReloadKeepsDeadIff`, `NsHistory.ReissuedInALife`). A graft keeps counters ahead of
  the numbers in use exactly when it is safe (`NsGraft.GraftFromKeepsInvIff`), it keeps forgotten
  paths unused exactly when it is fresh (`NsHistory.GraftKeepsDeadIff`, `NsHistory.GraftReissues`),
  and after an unsafe one a live identifier is handed out again (`NsGraft.LiveIdentifierIsReissued`).
- One numbering needs three things of a parent and its grants: delegated zones that do not nest,
  nothing beneath them when they are granted, and no counter left behind the numbers in use where
  the parent numbers. Together they are exact (`FederationLimits.OneNumberingIff`). Grants that are
  safe when they are made give the third (`Federation.SafeGrantsAreSound`), and an accepted file
  with the prefixes 1.4294967295 and 1.4294967294 breaks that one alone
  (`FederationLimits.LastIdentifierClashes`). One numbering also needs names whose text contains
  the zone that their labels put them in: a name such as `x.eng..com` passes the text test of the
  delegation and is then split into the labels of `x.eng.com` (`FederationLimits.StaysOutIff`,
  `FederationLimits.UnguardedNameClashes`, `FederationLimits.DoubledDotReachesIn`).

Times are integers in nanoseconds and parameters of the operations. Signatures, key syntax and
address lookup are parameters (`Referrals.Library`, `Ownership.Library`). Each region the source
runs under one lock is one step. `dafny verify dfyconfig.toml` checks the project.

## Model

| member | source | states |
|---|---|---|
| StreamTheorems.DeliveredIsWhatWasWritten | internal/stream/stream.go:365-416 | In every reachable state of two endpoints over a network that drops, duplicates and reorders, the bytes read followed by the bytes buffered are exactly the first rcvNext bytes the peer wrote |
| StreamInvariant.StepKeepsInv | internal/stream/stream.go:311-361 | Any enabled event (write, read, close, tick, ack, delivery of any frame ever sent) keeps the invariant of the pair: tiling, offsets, parked pieces, frames in flight |
| StreamInvariant.RunKeepsInv | internal/stream/stream.go:311-361 | The invariant holds after any run of such events |
| StreamInvariant.ReachableInv | internal/stream/stream.go:147-159 | Every state reachable from two fresh streams satisfies the invariant |
| StreamTheorems.QueueIsTheFlight | internal/stream/stream.go:235-241 | sndQueue is contiguous non-empty segments of at most MaxSegment bytes covering [sndUnack, sndNext) with the bytes written, and the flight is at most 65535 bytes |
| StreamTheorems.AcksNeverSplitSegments | internal/stream/stream.go:420-458 | Every acknowledgement number ever sent falls on a segment boundary |
| StreamTheorems.ParkedIsStillOutstanding | internal/stream/stream.go:387-416 | Every parked entry lies strictly above rcvNext and is the FIN or a whole segment the sender still holds |
| StreamTheorems.TrimIsNeverNeeded | internal/stream/stream.go:371-380 | Data of any frame in flight is wholly old or wholly new, so the partial-overlap trim never applies |
| StreamInvariant.NeverPartialOverlap | internal/stream/stream.go:371-380 | The same for one segment and one receiver state |
| StreamTheorems.EofMeansComplete | internal/stream/stream.go:261-282 | When Read reports EOF the reader has every byte the peer wrote before Close, and no continuation adds one |
| StreamTheorems.FinNeverJumpsAGap | internal/stream/stream.go:332-345 | A FIN takes effect only when all bytes before it have arrived, and displaces no parked data |
| StreamTheorems.ControlStaysInRange | internal/stream/stream.go:444-458 | cwnd, ssthresh, RTO and probe interval stay in range and the two 32-bit products and sums of the ACK path never overflow |
| StreamTheorems.SwapReachable | internal/stream/stream.go:102-145 | The pair is symmetric: whatever is proved of A as sender holds of B |
| StreamInvariant.RetireTiles | internal/stream/stream.go:425-442 | Retiring acknowledged segments leaves a queue that tiles from the acknowledged offset, and the bytes acknowledged are the distance moved |
| StreamInvariant.GrowCwndInRange | internal/stream/stream.go:444-455 | Slow start and additive increase keep the congestion window between its initial value and RecvBufMax |
| StreamInvariant.ProcessAckKeepsSender | internal/stream/stream.go:420-458 | An acknowledgement inside the flight keeps the sender invariant |
| StreamInvariant.DrainKeepsInv | internal/stream/stream.go:401-416 | Draining parked pieces keeps the receiver equal to a prefix of what was written and leaves nothing at rcvNext |
| StreamInvariant.AcceptDataKeepsInv | internal/stream/stream.go:365-397 | Accepting a sent segment, whether new, old or out of order, keeps the receiver invariant |
| StreamInvariant.AcceptFinKeepsInv | internal/stream/stream.go:332-345 | Accepting the FIN keeps the receiver invariant |
| StreamInvariant.ScanResends | internal/stream/stream.go:496-529 | A pass of Tick changes only retry counts and send times of the queue, and resends whole queued segments |
| StreamInvariant.TickKeepsEndpoint | internal/stream/stream.go:490-564 | Tick keeps the sender invariant in all its outcomes |
| StreamInvariant.TickFrames | internal/stream/stream.go:490-564 | Every frame a Tick emits carries original bytes of a sent segment, or is a probe or an ACK, stamped with the current state |
| StreamMemory.ReceiveMemoryBounded | internal/stream/stream.go:382-416 | Under any reordering, buffered plus parked bytes are at most RecvBufMax + 65535 |
| StreamOverrun.LimitIsBroken | internal/stream/stream.go:382-416 | RecvBufMax itself is not a bound: calls on two streams, nothing but writes and deliveries of frames that were sent, lead to a state with more than RecvBufMax bytes in one buffer |
| StreamOverrun.LimitBreaksIff | internal/stream/stream.go:382-416 | In every run, an event carries a receiver over RecvBufMax exactly when it delivers new, unparked data that passes the guard on the buffer alone but does not fit together with what is parked |
| StreamOverrun.AcceptanceBreaksLimitIff | internal/stream/stream.go:365-416 | The same for one sent segment and one receiver |
| StreamMemory.DrainConserves | internal/stream/stream.go:401-416 | Draining moves bytes and loses none |
| StreamMemory.PlaceConserves | internal/stream/stream.go:382-397 | New data is held in full or refused by the guard |
| StreamMemory.ParkedFits | internal/stream/stream.go:387-397 | Parked pieces are disjoint and add up to no more than what is unacknowledged |
| StreamFlow.FlowControlHolds | internal/stream/stream.go:572-594 | If the frames travelling back keep their order, the sender never passes the advertised right edge, the receiver never holds more than RecvBufMax, and the guard never refuses new data |
| StreamFlow.RightEdgeNeverRetreats | internal/stream/stream.go:585-594 | In such runs ack + wnd never decreases |
| StreamFlow.StepKeepsFlow | internal/stream/stream.go:311-361 | One event of such a run keeps the flow-control invariant |
| StreamRetries.TransmissionsAreBounded | internal/stream/stream.go:496-529 | Counted over all frames ever sent, each segment goes out at most 13 times; the retry counter is that count less one, so sampled segments were sent once |
| StreamRetries.StepKeepsRetries | internal/stream/stream.go:496-529 | Every event keeps the agreement between retry counters and the frames sent |
| StreamRetries.ScanCounts | internal/stream/stream.go:496-514 | One pass of Tick resends a segment exactly when it counts a retry for it |
| StreamLiveness.BlockedHasCause | internal/stream/stream.go:220-223 | A blocked writer of an open stream has unacknowledged segments or a zero peer window |
| StreamLiveness.DeadPeerIsDetected | internal/stream/stream.go:488-529 | With Ticks at least every gap, 13*(maxRTO+gap) after its first transmission a segment is acknowledged or the stream is declared dead |
| StreamLiveness.TickBreaksTheSilence | internal/stream/stream.go:531-547 | A Tick taken maxRTO or more later retransmits, probes or declares the peer dead |
| StreamLiveness.LostWindowUpdateRecovers | internal/stream/stream.go:347-354 | With room for the oldest segment at the receiver (a byte when there is none), delivering what that Tick sends and then the answer leaves a blocked sender with the window the receiver has then, and with that segment acknowledged or the window open |
| StreamLiveness.TickKeepsDeadline | internal/stream/stream.go:496-529 | The schedule behind the deadline is kept by every Tick |
| RttEstimator.EstimateStaysInRange | internal/stream/stream.go:462-482 | Over any history of samples and timeouts SRTT stays between the least and the greatest sample and minRTO <= RTO <= maxRTO (estimator of sections 2.2, 2.3 and 3 of RFC 6298) |
| RttEstimator.UpdateKeepsInv | internal/stream/stream.go:462-482 | One sample keeps the estimator invariant |
| StreamTiming.EstimateOfARun | internal/stream/stream.go:425-442 | In every run the estimator holds the estimate over the round trips of the acknowledged segments that were sent once, with one backoff for every Tick that resent something; no sample is negative, and SRTT lies between the least and the greatest |
| StreamTiming.ActFeeds | internal/stream/stream.go:425-442 | Exactly what one event feeds into the estimator |
| StreamWire.SerialOrderExact | internal/stream/stream.go:613-614 | seqLT and seqLE on wrapped numbers agree with integer order exactly when the distance is in [-2^31, 2^31) (comparison as in section 3.2 of RFC 1982) |
| StreamWire.WrapInjective | internal/stream/stream.go:613-614 | Offsets less than 2^32 apart have different images |
| StreamWire.FrameRoundTrip | internal/stream/stream.go:165-199 | Decoding undoes encoding, with trailing bytes too, exactly for payloads of at most 65535 bytes |
| StreamWire.DecodeIsFaithful | internal/stream/stream.go:184-199 | Whatever is accepted is the encoding the bytes began with |
| StreamWire.Uint32RoundTrip | internal/stream/stream.go:165-199 | Big-endian 32-bit fields are read back as written, in both directions |
| Stream32.ArrivalFits | internal/stream/stream.go:311-361 | In any reachable pair, a frame the peer sent that is not 2^31 bytes stale meets every demand of the 32-bit code |
| Stream32.Stream.constructor | internal/stream/stream.go:147-159 | A new stream is the image of the initial endpoint |
| Stream32.Stream.WindowAvailable | internal/stream/stream.go:572-582 | Returns min(cwnd, peerWnd) minus the true flight, computed in 32 bits |
| Stream32.Stream.AdvertiseWindow | internal/stream/stream.go:585-594 | Returns the free space clamped to 16 bits |
| Stream32.Stream.Push | internal/stream/stream.go:235-246 | Queues and sends one segment, as the unbounded endpoint does |
| Stream32.Stream.WriteSegment | internal/stream/stream.go:207-253 | One lock-held region of Write: refuses, blocks or sends one segment, as the unbounded endpoint does |
| Stream32.Stream.Write | internal/stream/stream.go:207-253 | Takes the longest row of segment writes that the window and the state of the stream admit: state, frames on the wire, bytes taken, and the reason it stopped |
| Stream32.WriteAllTakes | internal/stream/stream.go:207-253 | Such a row takes a prefix of the data and stops short only when the stream is finished or the window shut |
| Stream32.Stream.Read | internal/stream/stream.go:257-282 | Returns the buffered bytes, EOF or the error in the order of the source, and sends the window update after draining |
| Stream32.Stream.Close | internal/stream/stream.go:285-304 | Marks the stream closed and sends one FIN, once |
| Stream32.Stream.SendAck | internal/stream/stream.go:596-602 | Emits the current acknowledgement and window |
| Stream32.Stream.UpdateRTT | internal/stream/stream.go:462-482 | Updates the estimator fields as the specification does |
| Stream32.Stream.RetireAcked | internal/stream/stream.go:425-442 | Filters the queue by 32-bit comparisons and retires exactly the acknowledged segments, sampling only those sent once |
| Stream32.Stream.GrowWindow | internal/stream/stream.go:444-455 | Grows cwnd in slow start or congestion avoidance; sum and product are demanded to fit 32 bits, and do at the only call |
| Stream32.Stream.ProcessAck | internal/stream/stream.go:420-458 | The whole ACK path equals the unbounded one |
| Stream32.Stream.DrainOOO | internal/stream/stream.go:401-416 | The drain loop ends with the state of the unbounded drain |
| Stream32.Stream.AcceptData | internal/stream/stream.go:365-397 | Drops, trims, appends or parks by 32-bit comparisons exactly as by integer order |
| Stream32.Stream.AcceptFin | internal/stream/stream.go:332-345 | Takes or parks the FIN as the unbounded endpoint does |
| Stream32.Stream.Dispatch | internal/stream/stream.go:311-346 | The lock-held part of OnFrame equals the unbounded step |
| Stream32.Stream.OnFrame | internal/stream/stream.go:311-361 | Undecodable bytes change nothing; any other frame moves the endpoint by the unbounded step, and exactly data and FIN frames are answered by an ACK |
| Stream32.Stream.ResendExpired | internal/stream/stream.go:496-514 | The pass over the queue: what is resent, what retries are counted, and where it stops |
| Stream32.Stream.BackOff | internal/stream/stream.go:518-529 | The loss response on ssthresh, cwnd and RTO |
| Stream32.Stream.ProbeWindow | internal/stream/stream.go:531-547 | The persist timer probes a closed window at doubling intervals |
| Stream32.Stream.ScanOrDie | internal/stream/stream.go:496-529 | The pass with its outcome: dead, backed off or unchanged |
| Stream32.Stream.FinishTick | internal/stream/stream.go:531-564 | Probe and pending ACK after the pass, in the order of the source |
| Stream32.Stream.Tick | internal/stream/stream.go:490-564 | The whole Tick equals the unbounded one in state and frames, and reports whether the stream is alive |
| StreamPair.Pair.BytesArriveIntact | internal/stream/stream.go:207-416 | Two 32-bit streams exchanging bytes, with any interleaving, loss, duplication and reordering of frames less than 2^31 bytes stale: what one has read and buffers is what the other wrote |
| Stream32.OldIsKnownIff | internal/stream/stream.go:371-397 | Why staleness is bounded: an old segment is recognised exactly while its end is at most 2^31 below rcvNext; beyond that the 32-bit code takes it for early data and parks it |
| StreamPair.Pair.Do | internal/stream/stream.go:207-564 | Each call on either 32-bit stream takes the system to a reachable state of the unbounded pair |
| StreamSystem.StepReachable | internal/stream/stream.go:311-361 | Events lead from reachable states to reachable states |
| StreamSystem.CallReachableIsReachable | internal/stream/stream.go:311-361 | Whatever calls on two streams lead to, each with the ACK it owes, is reachable |
| Names.SplitNameIsGood | internal/nspath/nspath.go:206-218 | Whatever text comes in, the labels are lower-case, trimmed, non-empty and free of dots |
| Names.NameRoundTrip | internal/nspath/nspath.go:206-218 | Writing such labels as a name and splitting it gives them back |
| Names.NamesDiffer | internal/nspath/nspath.go:206-218 | Different label lists have different written names |
| Names.SplitLabels | internal/nspath/nspath.go:206-218 | The loop of splitName computes this splitting |
| Names.ReverseInPlace | internal/nspath/nspath.go:214-217 | The swap loop reverses the labels |
| NsTable.PathsAreUnique | internal/nspath/nspath.go:16-27 | Parent-scoped identifiers are enough: two names with the same path are the same name |
| NsTable.NamesAreMembers | internal/nspath/nspath.go:255-275 | A name resolves exactly when it is in the table |
| NsTable.InsertKeepsInv | internal/nspath/nspath.go:235-249 | Creating a child with a fresh identifier below the counter keeps the node invariant: identifiers non-zero, distinct among siblings, below the counter |
| NsTable.CounterIsFresh | internal/nspath/nspath.go:238-246 | The identifier the counter hands out is unused among the siblings |
| NsTable.AllocateIsAllOrNothing | internal/nspath/nspath.go:223-252 | Allocate gives the name a path and keeps every earlier assignment, or changes nothing; it creates only levels of that name, keeps the node invariant, and siblings stay apart exactly when the first new level takes a number not in use |
| NsTable.AllocateKeepsNumberingIff | internal/nspath/nspath.go:235-249 | From any level on, also with a counter that a graft has left behind: the descent keeps siblings apart exactly when its first new level takes a free number |
| NsTable.AllocateTwice | internal/nspath/nspath.go:223-252 | Allocating a name that has a path changes nothing |
| NsTable.AllocateBelowNewNode | internal/nspath/nspath.go:235-249 | Below a newly created level nothing can fail |
| NsTable.ExtendsKeepsPath | internal/nspath/nspath.go:223-252 | Later insertions leave every path as it was |
| NsGraft.GraftWorks | internal/nspath/persist.go:42-94 | Graft keeps all assignments and keeps siblings apart, adds only levels of the name, and on success the name has exactly the demanded path; counters stay ahead exactly when the graft is safe, as every graft is while no counter has wrapped |
| NsGraft.GraftFromKeepsInvIff | internal/nspath/persist.go:58-92 | Exactly when it is kept: no level is created, or the counter of the deepest existing level has not wrapped, or the demanded identifier exceeds those of all children there |
| NsGraft.WrappedCounterIsLiftedBack | internal/nspath/persist.go:87-89 | Two grafts into a new tree leave a counter behind: one of identifier 2^32-1 wraps it, and any smaller one after it is accepted and lifts it to below the first |
| NsGraft.LiveIdentifierIsReissued | internal/nspath/nspath.go:235-249 | What follows: after grafts of 2^32-1 and 2^32-2 the next name allocated beside them is given the identifier that a live name bears |
| NsGraft.GraftSucceedsIff | internal/nspath/persist.go:58-92 | A graft succeeds exactly when every existing level agrees, no identifier is zero and the first new level takes a free number |
| NsGraft.GraftIsAtomicIff | internal/nspath/persist.go:58-92 | A graft that fails leaves the table unchanged exactly when no zero identifier follows the first new level |
| NsGraft.AdoptWorks | cmd/dnx-routerd/namespace.go:92-99 | Adopting entries of one authority into a partial replica always succeeds and adds exactly those names and their ancestors, whatever the counters of the authority |
| NsGraft.ReplicationIsOrderIndependent | cmd/dnx-routerd/namespace.go:92-99 | Any order and any repetition of the same entries is accepted and gives the same names with the same paths, and the same table, counters included, when no counter of the authority has wrapped |
| NsGraft.ReplicaIsExact | cmd/dnx-routerd/namespace.go:92-99 | After all entries the replica resolves every name as the authority does; adopting again changes nothing |
| NsSnapshot.AcceptedIsSound | internal/nspath/persist.go:168-211 | Any snapshot Restore accepts gives a tree with the full node invariant, the depth limit and no wrapped counter |
| NsSnapshot.SnapshotAcceptedIff | internal/nspath/persist.go:147-211 | The snapshot of a tree is accepted exactly when no wrapped counter has a live child |
| NsSnapshot.SnapshotRestores | internal/nspath/persist.go:147-211 | What it restores to: every slot the same, wrapped counters started again |
| NsSnapshot.RoundTripExactIff | internal/nspath/persist.go:147-211 | Restore of Snapshot is the identical table, counters included, exactly when no counter has wrapped |
| NsHistory.NeverReused | internal/nspath/nspath.go:169-183 | Over every history of allocations, grafts of numbers never issued there, removals of leaves or subtrees and restarts without wrapped counters, a path ever borne by one name is never borne by another |
| NsHistory.GraftKeepsDeadIff | internal/nspath/persist.go:58-92 | A graft keeps every dead path dead exactly when it creates no level or its first new level asks for a number that was never issued there |
| NsHistory.GraftReissues | internal/nspath/persist.go:74-89 | The smallest life in which it does not: allocate a name, forget it, graft another with its path |
| NsHistory.ReloadKeepsDeadIff | internal/nspath/persist.go:147-211 | A restart keeps every dead path dead exactly when no counter has wrapped |
| NsHistory.RestartAfterWrapReuses | internal/nspath/persist.go:179-182 | Wherever a counter has wrapped and the snapshot is accepted, the first name allocated there after the restart takes a path that was dead |
| NsHistory.ReissuedInALife | internal/nspath/persist.go:179-182 | A life of one tree in which that path had been borne: allocate, graft, forget both, save, restore, allocate another name, which gets the first one its path |
| NsHistory.HistoryKeepsClaim | internal/nspath/nspath.go:309-334 | Along a history a path once issued still names the same name or is dead |
| NsHistory.PrunedIsDead | internal/nspath/nspath.go:309-334 | Forgetting a name makes its path and all paths below it dead |
| NsHistory.PerformKeepsInv | internal/nspath/nspath.go:309-334 | Every permitted operation keeps the node invariant |
| NsShape.IndexedBelow | internal/nspath/nspath.go:169-183 | children and byNID of every node hold exactly the children the table has, by label and by identifier |
| NsShape.IndexedBy | internal/nspath/nspath.go:169-183 | The two indexes are mutually inverse |
| NsShape.LinkedFits | internal/nspath/nspath.go:243-245 | Linking a finished subtree under a node keeps every index right |
| NsShape.Link | internal/nspath/nspath.go:243-245 | The two map writes achieve that in the heap |
| NsShape.NewChild | internal/nspath/nspath.go:243-246 | Creates, links and counts one new node |
| NsShape.UnlinkedFits | internal/nspath/nspath.go:331-332 | Cutting a subtree off keeps every index right |
| NsShape.Unlink | internal/nspath/nspath.go:331-332 | The two deletes achieve that in the heap, and the counter stays |
| NsTree.Tree.constructor | internal/nspath/nspath.go:202-202 | A new tree is the table with the root alone |
| NsTree.Tree.AllocateLevel | internal/nspath/nspath.go:235-246 | One level of the descent: the child there is, a new one, or exhaustion |
| NsTree.Tree.AllocateLevels | internal/nspath/nspath.go:232-251 | The descent over the pointer tree computes the table function and the path |
| NsTree.Tree.Allocate | internal/nspath/nspath.go:223-252 | The whole operation, errors included; on success the name resolves to the returned path |
| NsTree.Tree.GraftLevel | internal/nspath/persist.go:60-91 | One level of a graft: agreement, conflict by label, conflict by number, or a new node and a raised counter |
| NsTree.Tree.Graft | internal/nspath/persist.go:42-94 | The whole operation, errors included |
| NsTree.Tree.Forget | internal/nspath/nspath.go:309-334 | Cuts the whole subtree off, or reports the name as not allocated and changes nothing |
| NsTree.Tree.Resolve | internal/nspath/nspath.go:255-275 | Returns the path of the name, or says it is empty or not allocated |
| NsTree.Tree.Reverse | internal/nspath/nspath.go:282-305 | Returns the written name that bears the path; refuses exactly the paths no name bears |
| NsTree.Tree.Descend | internal/nspath/persist.go:110-128 | Whatever order the children come in, adds one line for every named node of the subtree and no other |
| NsTree.Tree.Walk | internal/nspath/persist.go:105-131 | Returns one line for every named node with its path and nothing else, in the order of the written names, levels with an empty label left out; strictly sorted, and the canonical listing, when the labels are well formed |
| NsTree.Tree.PackNode | internal/nspath/persist.go:151-161 | Packs a subtree with its counters |
| NsTree.Tree.Snapshot | internal/nspath/persist.go:147-163 | Packs the whole tree |
| NsRestore.Unpack | internal/nspath/persist.go:175-204 | Builds the subtree of a snapshot node, exactly when it passes every check |
| NsRestore.Restore | internal/nspath/persist.go:168-211 | Succeeds exactly on consistent snapshots and gives a sound tree that holds what the snapshot says |
| NsRestore.DottedLabelIsAccepted | internal/nspath/persist.go:168-211 | Restore accepts snapshots in which two different names are written the same, because a label has a dot in it |
| NsListing.ListingIsCanonical | internal/nspath/persist.go:102-105 | The listing depends only on what names resolve to, not on counters, order of allocation or map iteration |
| NsListing.SortedIsUnique | internal/nspath/persist.go:129-130 | A strictly sorted list is determined by its elements |
| NsListing.SortByName | internal/nspath/persist.go:129-129 | Sorting keeps the lines, each as often as it was there, and orders them by name, strictly when no two names are equal |
| NsListing.CollectionIsListing | internal/nspath/persist.go:105-131 | A complete collection, sorted, is the listing |
| NsReplica.AdoptNamespace | cmd/dnx-routerd/namespace.go:92-99 | The adoption loop: grafts line by line, and the first refusal ends it, keeping what came before |
| NsReplica.ListingReplicates | cmd/dnx-routerd/namespace.go:84-99 | A router that adopts the published listing in any order resolves every name as the authority does and would publish the same listing |
| NsReplica.UpdatesKeepNames | internal/nspath/persist.go:42-94 | No text that is registered, grafted or forgotten makes a name in the table malformed |
| NsPath.PathRoundTrip | internal/nspath/nspath.go:66-103 | Exactly paths of 1 to 16 levels encode, and they are read back also when a payload follows |
| NsPath.DecodedBytes | internal/nspath/nspath.go:84-103 | Whatever decodes is the encoding the bytes began with |
| NsPath.EncodePath | internal/nspath/nspath.go:66-79 | The buffer-filling loop computes the encoding, errors included |
| NsPath.DecodePath | internal/nspath/nspath.go:84-103 | The reading loop computes the decoding, errors included |
| NsPath.ParseExact | internal/nspath/nspath.go:119-150 | Parsing accepts exactly the canonical text of a path of 1 to 16 non-zero identifiers, up to surrounding white space |
| NsPath.TextRoundTrip | internal/nspath/nspath.go:119-150 | Parse undoes String on such paths |
| NsPath.DecimalInjective | internal/nspath/nspath.go:119-125 | Different identifiers have different decimal keys |
| Forwarding.FrameRoundTrip | cmd/dnx-routerd/main.go:71-111 | A frame is read back whole, its counter modulo 2^16 |
| Forwarding.DecodedFrame | cmd/dnx-routerd/main.go:85-111 | Whatever is accepted has 1 to 16 levels and re-encodes to the same bytes |
| Forwarding.Host | cmd/dnx-routerd/main.go:227-230 | Every configured level is hosted, each under its own depth, the last entry for a level winning |
| Forwarding.Route | cmd/dnx-routerd/main.go:268-338 | The loop over local routers computes where the frame leaves and with which counter, every drop included |
| Forwarding.MatchWithinPath | cmd/dnx-routerd/main.go:62-68 | A level beyond the path never matches |
| Forwarding.TravelIsBounded | cmd/dnx-routerd/main.go:268-338 | Along a journey through any hop tables, cyclic ones too, the matched levels are consecutive and no more than the levels left |
| Forwarding.RouteIsAStretch | cmd/dnx-routerd/main.go:268-338 | What one node does is a stretch of the journey |
| Forwarding.RelayKeepsFrame | cmd/dnx-routerd/main.go:243-348 | One box to the next: path and payload untouched, counter raised and never truncated |
| Forwarding.NoFrameCirculates | cmd/dnx-routerd/main.go:243-348 | Whatever bytes enter, they are passed on at most 16 times |
| Forwarding.TravelFollowsTree | internal/nspath/nspath.go:16-27 | With tables that follow a tree, a journey visits the routers of successive nodes along the path |
| Forwarding.JourneyFollowsReverse | internal/nspath/nspath.go:277-305 | A frame injected at the root visits routers of successive nodes on the way to one name, and when it is matched on every level that name is the one reversing its path gives |
| Forwarding.EveryNameIsReached | internal/nspath/nspath.go:277-305 | Through tables with an entry for every child, a frame with the path of any name is matched once on every level, and arrives exactly when the name is a leaf |
| Zone.NarrowerIsDeeper | internal/zone/zone.go:36-60 | A strictly narrower zone is strictly deeper and contained, and not the other way round |
| Zone.ContainedIsDeeper | internal/zone/zone.go:25-60 | A contained name is at least as deep, equally deep only when equal |
| Zone.ContainsIsTransitive | internal/zone/zone.go:25-34 | Containment is transitive |
| Zone.CoveringZonesNest | internal/zone/zone.go:25-34 | Two zones containing one name are nested, the deeper in the other |
| Zone.NormaliseTwiceIff | internal/zone/zone.go:14-16 | Normalising again changes nothing exactly when the result ends in neither a dot nor a space |
| ZoneLabels.ContainsIsPrefix | internal/zone/zone.go:18-50 | On well-formed names containment is the prefix order of the labels, and narrower is proper prefix |
| ZoneLabels.ContainedHasPrefix | internal/zone/zone.go:25-34 | On any text, containment in a well-formed zone implies the label prefix |
| ZoneLabels.GuardExactIff | internal/zone/zone.go:25-34 | The text test agrees with the labels on every zone exactly when the name contains its own labels as text |
| ZoneLabels.WrittenIsHonest | internal/zone/zone.go:25-34 | Well-formed text contains its own labels |
| ZoneLabels.SplitNormalised | internal/nspath/nspath.go:206-218 | The labels of a name are those of its normal form |
| ZoneLabels.ZoneText | internal/zone/zone.go:54-60 | The text of a zone is its own normal form, and its depth is the number of labels |
| Delegations.LoadDelegations | cmd/dnx-registry/main.go:88-123 | Accepts exactly the tables whose every entry is strictly beneath the own zone and has a key and an endpoint |
| Delegations.DelegationFor | cmd/dnx-registry/main.go:126-137 | Finds a delegation exactly when one covers the name, and the one found lies in every other that does |
| Federation.RefusedGrantChangesNothing | cmd/dnx-registry/nids.go:114-132 | A refused prefix leaves the table as it was |
| Federation.ParentKeeps | cmd/dnx-registry/nids.go:156-160 | Numbering a name that is guarded or lies outside the own zone grows nothing beneath a delegated zone |
| Federation.ChildKeeps | cmd/dnx-registry/nids.go:148-154 | A child numbers only inside its zone, whatever the text of the name |
| FederationLimits.StaysOutIff | cmd/dnx-registry/nids.go:148-160 | A registry keeps out of every zone it may delegate exactly when it numbers names whose text contains the zone of their labels or that lie outside its own zone |
| FederationLimits.DoubledDotReachesIn | cmd/dnx-registry/nids.go:148-160 | The registry of a zone such as com numbers names with one dot too many, such as x.eng..com, inside a zone it gave away |
| Federation.GrantWorks | cmd/dnx-registry/nids.go:208-229 | A granted zone has exactly its prefix and earlier assignments stay, for every prefix the parser accepts |
| Federation.GrantsReserve | cmd/dnx-registry/nids.go:202-229 | After all grants every zone has its prefix and nothing beneath it |
| Federation.OneNumbering | cmd/dnx-registry/nids.go:9-30 | Between the parent and each child and between any two children, names and paths determine each other, whatever starts, restarts and delegations of its own a child goes through; the parent has nothing beneath a zone it gave away, and a child numbers under its prefix |
| Federation.ParentNumbers | cmd/dnx-registry/nids.go:144-170 | A parent whose counters are ahead wherever it numbers keeps them so, and its names apart, with every name it numbers |
| Federation.SafeGrantsAreSound | cmd/dnx-registry/nids.go:202-229 | Counters are ahead after all grants if every grant is safe when it is made |
| Federation.ParentAndChild | cmd/dnx-registry/nids.go:24-30 | For one name of each table: same path exactly when same name |
| Federation.TwoChildren | cmd/dnx-registry/nids.go:24-30 | The same for two children of one parent whose zones do not nest |
| Federation.BelowPrefix | cmd/dnx-registry/nids.go:24-30 | What a child numbers beneath its zone extends its prefix |
| FederationLimits.EveryGrantSucceeds | cmd/dnx-registry/nids.go:208-229 | Every zone that is not top-level can be granted every prefix of its depth without a zero by the registry of any zone around it, from an entry that its loader accepts, and a child can be seeded with it |
| FederationLimits.OneNumberingIff | cmd/dnx-registry/nids.go:9-30 | The exact condition on a parent that has granted a zone: it and its children agree whatever they go on to number, if and only if no delegated zone lies in another, the parent had nothing beneath any of them, and the grants left no counter behind the numbers in use where the parent numbers |
| FederationLimits.UnsoundClashes | cmd/dnx-registry/nids.go:144-170 | A parent with a counter left behind where it numbers can come to give one path to two names |
| FederationLimits.LastIdentifierClashes | cmd/dnx-registry/nids.go:202-229 | A delegation file that loads and is granted in full, for any labels: a.o at 1.4294967295 and b.o at 1.4294967294; the next name registered beside them is given the path of a.o, so parent and child disagree |
| FederationLimits.KidsAgreeIff | cmd/dnx-registry/nids.go:24-30 | The children of one parent agree, whatever they number, exactly when no delegated zone lies in another |
| FederationLimits.NestedZonesClash | cmd/dnx-registry/nids.go:24-30 | Whenever one parent has granted two nested zones, there are children of theirs that contradict each other |
| FederationLimits.IntruderClashes | cmd/dnx-registry/nids.go:24-30 | Whoever else numbers anything beneath a zone that was given away is contradicted by some child of that zone |
| FederationLimits.NestedGrantsExist | cmd/dnx-registry/nids.go:202-229 | Delegations of nested zones that the loader accepts are both granted, so the condition can fail |
| FederationLimits.UnguardedNameClashes | cmd/dnx-registry/nids.go:148-160 | For every other name there is a registry that granted one delegation its loader accepts and, once it has numbered this name, disagrees with a child of that delegation |
| Federation.DescendantIsConfined | cmd/dnx-registry/nids.go:24-30 | Delegation may go on: what is confined to a branch of a confined table is confined to the larger branch |
| Federation.GrantAllKeepsConfined | cmd/dnx-registry/nids.go:208-229 | A child that grants branches of its own stays inside its zone |
| FederationLimits.WrittenIsGuarded | cmd/dnx-registry/nids.go:156-160 | Well-formed text is always safe to number |
| RegistryNids.SeedZonePrefix | cmd/dnx-registry/nids.go:114-132 | Seeds the own prefix, or says why not |
| RegistryNids.GrantDelegationPrefixes | cmd/dnx-registry/nids.go:208-229 | The loop over the delegation table, skipping entries without a path and ending at the first refusal |
| RegistryNids.AllocateName | cmd/dnx-registry/nids.go:144-170 | Numbers a bound name only inside the own zone and outside delegated ones |
| Referrals.Resolve | cmd/dnxd/session.go:472-577 | Succeeds exactly when the replies are fewer than eight acceptable referrals and then an acceptable answer, and returns what that answer says |
| Referrals.CheckReferral | cmd/dnxd/session.go:511-535 | Accepts exactly the referrals that hold under the current trust |
| Referrals.CheckAnswer | cmd/dnxd/session.go:537-570 | Accepts exactly the answers that hold under the current trust |
| Referrals.AnswerForAnotherName | cmd/dnxd/session.go:537-570 | For any two names there are a registry key and a signed answer about the second that the resolution of the first accepts |
| Referrals.ChainNarrows | cmd/dnxd/session.go:435-446 | Every zone of a followed chain contains the target and lies beneath the one before, every link is signed by the key the link before installed, and the chain is no longer than the target is deep |
| Referrals.EveryStepIsSigned | cmd/dnxd/session.go:472-577 | With a configured key every link and the answer are verified, and at most min(8, depth) referrals are followed |
| Referrals.OwnReferralsAreFollowed | cmd/dnx-registry/main.go:587-612 | A referral from a loaded delegation table is accepted by a resolver that believes that registry |
| Ownership.StepExact | cmd/dnx-registry/main.go:288-400 | Exactly when one event removes a name, changes its key, or renews its time |
| Ownership.OwnerKeepsName | cmd/dnx-registry/main.go:380-400 | Over any run of events, saves and restarts from the last save, an owner whose saved name is neither handed on under its signature nor let go keeps it under the same key; a restart sets the time it was last heard back to that of the last save |
| Ownership.ChangeHasCause | cmd/dnx-registry/main.go:324-378 | If the owner of a saved name changed, there was a moment, the key being the same in memory and file until then, when it was handed on under a signature of that key, released, or pruned more than bindingRetention after it was last heard by what memory knows |
| Ownership.TransferNeedsSave | cmd/dnx-registry/main.go:576-587 | A transfer that is saved survives a restart; a restart before the save brings the old key back |
| Ownership.SaveLoadExact | cmd/dnx-registry/main.go:207-259 | Saving and loading gives exactly the same names, keys and times |
| Ownership.Registry.BindName | cmd/dnx-registry/main.go:290-322 | The registration rule: first key owns, same key refreshes, other key is rejected |
| Ownership.Registry.RebindName | cmd/dnx-registry/main.go:331-358 | The transfer rule with its four refusals, in two critical sections with or without a pruning between them |
| Ownership.RebindDuringExact | cmd/dnx-registry/main.go:331-358 | A pruning in between is the pruning and then the transfer, except that a name which that pruning drops is gone although the transfer reports success |
| Ownership.Registry.ReleaseName | cmd/dnx-registry/main.go:367-378 | Removes one name |
| Ownership.Registry.PruneNames | cmd/dnx-registry/main.go:384-400 | The loop in any order clears quiet endpoints, drops expired names only, and counts both |
| Ownership.Registry.Save | cmd/dnx-registry/main.go:207-216 | Writes one line for every name |
| Ownership.Registry.Load | cmd/dnx-registry/main.go:238-259 | Reads the lines back |

## Left out

- Sockets, goroutines, condition variables, files, JSON, flags, logging, telemetry and the dashboard: input and output only.
- Cryptography (`internal/secure`, `internal/proto`): library calls; signatures are an abstract predicate.
- The session handshake, sealed frames, pings and tunnels of `cmd/dnxd`: only the referral loop of that program is modelled.
- `internal/locator`: one map lookup, superseded by the namespace tree.
- Eventual delivery under fair scheduling, and delivery of the FIN: the FIN is sent once and never again, so end of file is a safety property here.
- The callback that sends frames after the lock is released: a frame joins the log of the network at the end of the step that built it, and the network may hold it back for any time.
- Sleeping: where Write and Read wait on a condition, `Stream32.Stream.Write` and `Stream32.Stream.Read` return and say that they would block; waking up is calling them again.
- `Stats`, `Path.Equal`, `zone.Parent`, `levelName` and the retired forwarding format beyond its refusal: nothing to add.
- The one-time numbering of restored names: the step of `RegistryNids.AllocateName` in sorted order.
- 64-bit overflow of durations: times are unbounded integers.
- Unicode: case folding and white space are those of ASCII, and strings are ordered by character.
- Error texts: errors are constructors, and where the source wraps several causes into one restore failure, `NsRestore.Restore` returns no tree.
- StreamPair.Pair.BytesArriveIntact: excludes frames that are 2^31 or more bytes stale when they arrive, because 32-bit numbers cannot place those (`Stream32.OldIsKnownIff`).
- StreamMemory.ReceiveMemoryBounded: states RecvBufMax + 65535 and not RecvBufMax, which the code does not keep (`StreamOverrun.LimitIsBroken`).
- NsTree.Tree.Walk: with labels that contain a dot two names can be written the same (`NsRestore.DottedLabelIsAccepted`), and which of their lines comes first is open. `NsReplica.UpdatesKeepNames` shows that no operation but Restore brings such labels in.
- NsTree.Tree.Allocate: requires that the first new level takes a number no sibling has, as every allocation does while counters are ahead; otherwise the source overwrites the entry of the older sibling in byNID, and the two indexes no longer agree. `NsTable.AllocateKeepsNumberingIff` and `NsGraft.LiveIdentifierIsReissued` cover that case on the table.
- NsTree.Tree.AllocateLevels: the same.
- NsTree.Tree.AllocateLevel: the same.
- RegistryNids.AllocateName: the same, for names that it numbers.
- NsTree.Tree.Graft: does not promise that counters stay ahead; `NsGraft.GraftWorks` says exactly when they do.
- NsHistory.NeverReused: ranges over grafts that are fresh and restarts without a wrapped counter; `NsHistory.GraftKeepsDeadIff` and `NsHistory.ReloadKeepsDeadIff` show both conditions to be exact.
- Federation.OneNumbering: requires delegated zones that do not nest, nothing beneath them before and counters that are ahead where the parent numbers (`FederationLimits.OneNumberingIff` shows this to be exact), and names inside the own zone whose text contains the zone of their labels (`FederationLimits.StaysOutIff` and `FederationLimits.UnguardedNameClashes` show this to be exact).
- FederationLimits.OneNumberingIff: is about a parent that granted at least one zone; with none there is nobody to agree with.
- Referrals.Resolve: does not state that the answer names the target that was asked for, because the code verifies the answer over the target it carries and never compares the two (`Referrals.AnswerForAnotherName`).
- Referrals.EveryStepIsSigned: requires a configured key; without one the first registry is believed unsigned, as in the source.
- Ownership.Registry.RebindName: a run of `Ownership.Step` takes a transfer as one event; `Ownership.RebindDuringExact` says what a pruning inside it changes.
- Ownership.Registry.Save: is one step; two saves that overlap in time are not modelled.
- Forwarding.Route: does not model the telemetry events it emits.
- Aliasing of the label and path slices that Walk appends to: sequences are values.
