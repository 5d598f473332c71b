# uPCN core, modelled and proved in Dafny

uPCN is a node of a delay-tolerant network that speaks versions 6 and 7 of the Bundle Protocol. This project
models the parts of it that carry state over long runs or have to invert each other, and proves what they
keep: the bundle store, the queue between tasks, the hash table, fragmentation and reassembly, duplicate
suppression, the routing tables with their capacity accounts, the fragment planner, and the codecs (SDNV,
BPv6, AAP, configuration commands, CRC).

`dafny verify dfyconfig.toml` checks everything. Code that updates things in place is modelled by classes and
loops; each is tied to a function on values, and the long-run properties are proved of that function.
Automatic induction is off in every lemma to which Dafny would apply it: inductions are written out.

| files | part of uPCN |
|---|---|
| Basics, Bytes, Masks | what several modules need |
| AvlShapes, AvlTree, BundleStorage, Sums | bundle store: pointer AVL tree, ids, byte counter |
| RingQueue | queue between tasks as interleaved semaphore steps |
| HashLittle, HashMix, HashTable | string hash and chained table |
| Fragmentation, Fragmenter, FragmentSizes, FragmentRoundTrip | splitting BPv7 bundles |
| CborHeads, Bundle7Serializer | writing BPv7 bundles and their announced sizes |
| Reassembly, Reassembler, KnownBundles | reassembly, duplicate suppression |
| LocalDelivery, LocalRuns, LocalReassembly | local delivery: the two together |
| Contacts, EidIndex, RoutingTable, IndexComplete, NodeChanges, Capacity, Planner | routing state and planning |
| Sdnv, Bundle6Dictionary, Bundle6Parser, Bundle6Serializer, Bundle6RoundTrip, Bundle6Limits | BPv6 codec |
| Bundle6Receiver, Bundle6Frames | the task that feeds the BPv6 parser |
| Aap, AapSerializer, AapFrames, AapAgent | application agent protocol |
| ConfigParser, ConfigPrinter, ConfigCommands, ConfigGrammar | configuration commands |
| CrcBits, Crc | checksums |

Main results, and where the code does less than its evident intent:

- **Store.** Every addition and deletion keeps the tree ordered, its parent links and cached heights exact and
  its balance within one, and acts on the map from id to bundle as it should. Over all runs the byte counter
  is the sum of the lengths counted plus what payloads had lost when they were deleted, modulo 2^32; below 4
  GB it is the sum if and only if nothing was lost (`CounterIsSum`), and then no deletion of a payload that
  has not grown is aborted (`DeleteIsCovered`). The delivery code does lose something: it zeroes a payload
  length before it deletes the bundle.
- **Queue.** Over all interleavings what comes out is a prefix of what went in, and every call that starts and
  ends has its effect in between: a push appends its item, a pop takes the oldest, and a forced push appends
  if it got a token when it started (`CallTakesEffect`). Otherwise a forced push replaces the newest item, but
  if nothing waits in the queue by then, its item is lost (`ForceStores`; `ForcedItemLost` is such a run).
- **Hash.** All ways of reading a key give one hash of its bytes, and the mixing is reversible, so keys that
  differ in one full block alone never come to the same state before the last one (`MixReversible`,
  `OneBlockTells`).
- **Fragments.** A bundle is split by any nodes on its way, and its fragments arrive at a node any number of
  times, in any order and among other traffic. An arrival delivers the payload, exactly, if and only if with
  it all data has come and no fragment without data came first behind the one with data at the same offset,
  unless that one ends the payload (`SplitAndDeliver`; `EmptyBehindData` is a run in which nothing is ever
  delivered). Fragments without data are made: the first fragment gets fewer bytes than planned (`FirstCut`),
  and none just when exactly the missing ones were planned (`EmptyFirst`); `LaterCut` is the exact cut of the
  later ones. A split keeps to its size bound if and only if the bundle was a fragment before (`SplitFits`),
  because the size of the fragment fields is reserved in the wrong case. Announced sizes are those of the
  bytes written, unless flags that BPv7 does not know lengthen the number (`SizeExactly`).
- **Delivery.** A whole bundle for a local endpoint is delivered, with exactly its data, if and only if it
  comes before its deadline and no entry with its identity is reached (`WholeExactly`). Over any run of whole
  bundles and fragments an ADU with a timestamp is delivered at most once (`DeliveredAtMostOnce`), and any
  other one again only if it comes back with an earlier deadline or after the old one has passed
  (`DeliveredAgain`). Both hold up to the first fragment that `bundle_attempt_reassembly` discards as
  belonging to a delivered ADU, since it then goes on with it. One fragment that holds its whole ADU is
  discarded in this way on its first arrival, because it finds its own entry (`OneFragmentIsLost`).
- **Reassembly.** Whatever is delivered is the original data, for any overlaps and any order. A complete set
  of fragments is delivered if and only if none starts behind the end of the one before it, up to the first
  that reaches the total length (`CoveredIsDelivered`); a fragment inside its predecessor can break that
  (`NestedIsRefused`).
- **Duplicates.** Over any run an identity with one deadline is accepted once. It can be accepted again if and
  only if it comes back with an earlier deadline, or after the old one has passed (`AcceptedAgain`,
  `AcceptedTwice`); in every run, what is accepted is what the walk does not reach (`AnswersExact`).
- **Routing.** What the differences and unions of endpoints and contacts hold is stated by membership
  (`MergeExactly`, `MinusExactly`), and a contact gets into the list if and only if, at its turn, no listed
  one of its node overlaps it and fewer than the limit overlap, modulo 256 (`AdmittedExactly`). Contacts of
  one node never overlap. An admitted contact keeps to the configured number of open contacts if and only if
  there is room at its start and at the starts inside it (`AdmitKeeps`), and there is, unless the 8-bit
  counter of the check goes round (`CounterGoesRound` builds such a list for every limit). Contacts listed
  already are refused when their node is added again, so the index stays complete if and only if nothing added
  to the node is new to them (`ExtendComplete`; `MergedEndpointMissing` is a run in which it does not).
- **Capacity.** Booking and release are inverse in 32-bit counters; the total is duration times bitrate, cut
  where the code cuts it (`TotalExactly`).
- **Planner.** Plans add up, and there is one if and only if the fragments have room for the payload
  (`PlanExactly`). A plan of two fragments or more fits if and only if the last header is not larger than the
  middle one or the remainder for the last fragment fits with it (`PlanFits`). A route holds a contact without
  room if and only if the walk takes one with a negative capacity, which looks like a large one, and no later
  deterministic contact replaces it (`UnsoundExactly`, `NegativeCapacity`). What the walk passes over and what
  it counts as preemption are exact as well (`SkipAt`, `RouteImproved`).
- **Codecs.** Parsing inverts printing for SDNV, BPv6, AAP and configuration commands. For BPv6 and AAP the
  result does not depend on how the stream is cut; for BPv6 that includes block data read in bulk past the
  buffer (`TurnsRead`, `Received`). Convergence layers that count the bytes of a frame do not count those read
  in bulk: they lose a bundle if and only if its last block is empty and nothing was read in bulk, because
  they reset the parser before it is called for the empty data (`FrameOutcome`). An AAP message with a payload
  and an empty EID is not read to its end (`RoundTrip`); one receive brings out one message at most, the
  others wait (`OneComesOut`, `AllOutExactly`). Of any bytes the parser makes the messages and errors that are
  read off their positions (`OutcomesAreFrames`), and of any characters of a configuration command what its
  language says (`CommandJudged`). A BPv6 bundle is received if and only if it keeps to the quota
  (`ReceivedExactly`); a quota is compared with a sum of 32 bits, and behind EID references that sum starts
  from their number (`DataRefused`, `ReferencesRead`). `bundle6_get_dict_length` is wrong for most EIDs
  without a colon (`CountedRight`).
- **CRC.** The table-driven checksum is the remainder of a polynomial division. The reflected fast path agrees
  with it on all inputs if and only if the initial value is its own reversal (`FastAgrees`), and otherwise,
  for divisors with the lowest bit set, on none (`FastAgreesEver`); `crc16_riello` is a predefined model of
  that kind (`RielloDiffers`).

## Model

| member | source | states |
|---|---|---|
| AvlShapes.SingleRotation | components/upcn/bundle_storage_manager.c:63-104 | one rotation restores the balance of a tree that is heavy on the outside, and by how much the height changes |
| AvlShapes.DoubleRotation | components/upcn/bundle_storage_manager.c:147-171 | two rotations restore the balance of a tree that is heavy on the inside |
| AvlShapes.FixKeeps | components/upcn/bundle_storage_manager.c:147-171 | rebalancing a node keeps its nodes and their order |
| AvlShapes.RebalanceUpCorrect | components/upcn/bundle_storage_manager.c:147-171 | rebalancing all the way up balances the whole tree and keeps its nodes and their order |
| AvlShapes.HeightFits | components/upcn/bundle_storage_manager.c:10-32 | a balanced tree of at most 65535 nodes is no higher than 22, so heights fit `int8_t` |
| AvlShapes.SpliceCorrect | components/upcn/bundle_storage_manager.c:173-250 | replacing a node by its neighbour in order removes just that node and leaves a tree that rebalancing can repair |
| AvlTree.RotateNodes | components/upcn/bundle_storage_manager.c:63-104 | the pointer rotation yields the rotated tree with exact parents and heights and touches no other node |
| AvlTree.Tree.FindSlot | components/upcn/bundle_storage_manager.c:106-131 | the search ends at the node with the id, or at the empty place for it |
| AvlTree.Tree.RebalanceFrom | components/upcn/bundle_storage_manager.c:133-171 | the loop up the parent links turns the tree into the rebalanced one; its assertions hold |
| AvlTree.Tree.AddNode | components/upcn/bundle_storage_manager.c:252-275 | a new node leaves a valid AVL tree whose map has the id added |
| AvlTree.Tree.DeleteAt | components/upcn/bundle_storage_manager.c:173-250 | deleting a node with no, one or two successors leaves a valid AVL tree whose map has just the id removed |
| AvlTree.Tree.Lookup | components/upcn/bundle_storage_manager.c:315-335 | the search agrees with the map |
| AvlTree.Tree.Remove | components/upcn/bundle_storage_manager.c:337-361 | removal agrees with the map |
| BundleStorage.Storage.Get | components/upcn/bundle_storage_manager.c:315-335 | the stored bundle of an id, none for the invalid id |
| BundleStorage.Storage.Contains | components/upcn/bundle_storage_manager.c:301-313 | whether the id is in the map |
| BundleStorage.Storage.AllocateId | components/upcn/bundle_storage_manager.c:279-288 | the wrapping search ends with the first free non-zero id from the counter on whenever one is free |
| BundleStorage.Storage.Add | components/upcn/bundle_storage_manager.c:279-299 | the bundle gets a fresh id, is in the map under it and is counted; nothing gets lost from the counter |
| BundleStorage.Storage.Delete | components/upcn/bundle_storage_manager.c:337-361 | if the counter covers the length the payload has now, just this id leaves the map and the counter goes down by that length; if not, the program ends with nothing changed; an unknown id changes nothing |
| BundleStorage.CountsAfterAdd | components/upcn/bundle_storage_manager.c:277-299 | an addition keeps the counter at the sum of the lengths counted and of what was lost, also when it wraps |
| BundleStorage.CountsAfterDelete | components/upcn/bundle_storage_manager.c:337-361 | so does a deletion, which loses what the payload lost while it was stored |
| BundleStorage.CounterIsSum | components/upcn/bundle_storage_manager.c:277-361 | below 4 GB the counter is the sum of the lengths counted if and only if nothing was lost, modulo its width |
| BundleStorage.DeleteIsCovered | components/upcn/bundle_storage_manager.c:352-355 | then the assertion holds for a payload that has not grown, and the counter stays the sum if and only if the length is unchanged |
| RingQueue.WriteStores | components/platform/posix/simple_queue.c:234-246 | a push appends its item and overwrites nothing unread |
| RingQueue.CopyStores | components/platform/posix/simple_queue.c:174-183 | a pop takes the oldest item |
| RingQueue.ForceStores | components/platform/posix/simple_queue.c:194-209 | a forced push replaces exactly the newest item, or nothing if the queue has been emptied meanwhile |
| RingQueue.StepKeeps | components/platform/posix/simple_queue.c:144-253 | every step of every thread keeps mutual exclusion, the contents of the ring and the balance of the semaphores |
| RingQueue.RunKeeps | components/platform/posix/simple_queue.c:144-253 | so does every run |
| RingQueue.QueueSafe | components/platform/posix/simple_queue.c:46-68 | in every reachable state the popped items are a prefix of the pushed ones, tokens and threads account for every slot, and one thread at most is in the critical section |
| RingQueue.NoDeadlock | components/platform/posix/simple_queue.c:144-253 | while a call is in progress some thread can go on, otherwise a push or a pop can start |
| RingQueue.ForcedItemLost | components/platform/posix/simple_queue.c:200-209 | a run in which a forced push returns although its item never was in the queue |
| RingQueue.ForceUninterrupted | components/platform/posix/simple_queue.c:194-209 | a forced push without a token that goes on alone ends with the threads restored and the newest item replaced |
| RingQueue.ForceWhenFull | components/platform/posix/simple_queue.c:194-209 | that is what the call does on a full idle queue |
| RingQueue.PushAlone | components/platform/posix/simple_queue.c:192-250 | on an idle queue with room a push, forced or not, runs to its end, appends its item and leaves everything else as it was |
| RingQueue.PopAlone | components/platform/posix/simple_queue.c:144-190 | on an idle queue with items a pop runs to its end and takes the oldest one |
| RingQueue.StartsWhen | components/platform/posix/simple_queue.c:144-253 | when each call can start: a push with a free slot, a pop with an item, a forced push always |
| RingQueue.CallTakesEffect | components/platform/posix/simple_queue.c:144-253 | among any other threads, a call that starts and ends has its effect in some step between: a push, or a forced one that got a token, appends its item, a pop takes the oldest |
| RingQueue.IncrementStays | components/platform/posix/simple_queue.c:46-56 | the pointers never get past the end of the buffer |
| HashLittle.ReadWord | external/util/src/htab_hash.c:189-268 | a masked 32-bit load reads the bytes of the key and nothing of what lies behind |
| HashLittle.ReadHalves | external/util/src/htab_hash.c:270-330 | two 16-bit loads, or their remainder, read the same word |
| HashLittle.AddBytes | external/util/src/htab_hash.c:332-398 | adding bytes one by one, falling through at the end, adds the same word |
| HashLittle.HashKey | external/util/src/htab_hash.c:175-403 | by each of the three paths the hash is a function of the key bytes alone |
| HashMix.MixReversible | external/util/src/htab_hash.c:50-60 | mixing is undone by its lines in reverse order, so it loses nothing, as documented |
| HashMix.FinalReversible | external/util/src/htab_hash.c:125-138 | so is the last mixing, as long as all three words are kept |
| HashMix.OneBlockTells | external/util/src/htab_hash.c:185-207 | keys of one length that differ in one full block come to different states before the last block |
| HashMix.RotBack | external/util/src/htab_hash.c:37-48 | a rotation and one by the remaining bits give the word back |
| HashMix.XorBit | external/util/src/htab_hash.c:94-102 | the exclusive or, bit by bit |
| HashTable.FindUnlink | components/upcn/simplehtab.c:176-201 | unlinking a key from a chain without duplicates hides just that key |
| HashTable.Table.Search | components/upcn/simplehtab.c:67-94 | the walk along a chain finds the first element with the key, or its end |
| HashTable.Table.Add | components/upcn/simplehtab.c:96-132 | the value of this key is set if it had none; no other key changes |
| HashTable.Table.Get | components/upcn/simplehtab.c:134-153 | the value of the key, wherever the string lies in memory |
| HashTable.Table.RemoveKey | components/upcn/simplehtab.c:176-206 | the old value is returned, the key has none afterwards, no other key changes |
| Fragmentation.Decide | components/bundle7/fragment.c:12-29 | a cut point lies inside the payload |
| Fragmentation.ReplicatedAgain | components/bundle7/fragment.c:36-64 | replicating replicated blocks loses none |
| Fragmentation.SplitHalves | components/bundle7/fragment.c:12-131 | the two parts hold the payload, keep what identifies the ADU, have consecutive offsets; the first keeps every block, the second just the replicated ones and the payload behind them |
| Fragmentation.FragmentsDivide | components/upcn/router_task.c:341-363 | along any chain of splits, of a bundle or of a fragment: payloads add up in order, offsets are consecutive, the total length is constant, and each fragment has the blocks it should have |
| Fragmentation.LastHasData | components/bundle7/fragment.c:22-29 | fragments may be empty, but the last one of a bundle with data never is |
| Fragmenter.BundleObject.FragmentBundle | components/bundle7/fragment.c:12-131 | the in-place split: too small a bound, nothing to do, or the two parts in the old and a new object |
| Fragmenter.BundleObject.GetFirstMin | components/bundle7/bundle7.c:183-223 | the loop over the blocks computes the minimal size of a first fragment |
| Fragmenter.BundleObject.GetLastMin | components/bundle7/bundle7.c:226-265 | the loop over the blocks computes the minimal size of a later fragment |
| Fragmenter.InitializeFirst | components/upcn/bundle_fragmenter.c:57-90 | a new object with all blocks, marked as a fragment |
| Fragmenter.ApplyFragmentation | components/upcn/router_task.c:330-363 | the array of fragments, the last one named again where no split was needed, or failure when a bound was too low |
| FragmentSizes.FirstSize | components/bundle7/bundle7.c:94-223 | the exact serialized size of the first part of a split |
| FragmentSizes.SplitFits | components/bundle7/bundle7.c:183-223 | the first part keeps to the bound if and only if the bundle was a fragment, or the 32-bit length wrapped |
| FragmentSizes.FirstCut | components/upcn/router_task.c:345-357 | how many bytes the first fragment gets of those planned: all just when the bundle was a fragment |
| FragmentSizes.EmptyFirst | components/upcn/router_task.c:345-357 | a bundle that was no fragment gets a first fragment without data if and only if exactly the bytes of the fragment fields, twice, were planned for it |
| FragmentSizes.LaterMin | components/bundle7/bundle7.c:226-265 | what a later fragment needs at least, from the sizes of the whole bundle |
| FragmentSizes.LaterCut | components/upcn/router_task.c:345-363 | the exact cut of each later fragment for a planned size |
| CborHeads.HeadRead | components/bundle7/bundle7.c:24-45 | the size counted for a number is that of an encoding from which it is read back |
| CborHeads.HeadShortest | components/bundle7/bundle7.c:24-45 | no shorter encoding says the number |
| CborHeads.WireBits | components/bundle7/bundle7.c:81-91 | which flags of a block are encoded |
| Bundle7Serializer.WriteBundle | components/bundle7/serializer.c:122-270 | the pieces written are the serialized bundle |
| Bundle7Serializer.SizeExactly | components/bundle7/bundle7.c:94-160 | the announced size is the number of bytes written if and only if flags that BPv7 does not know do not lengthen the number |
| Bundle7Serializer.PriorityCounts | components/bundle7/serializer.c:115-120 | with a flag of BPv6 that encodes the normal priority a bundle is announced one byte too long |
| Bundle7Serializer.RoundTrip | components/bundle7/parser.c:120-640 | read item by item, a written bundle gives back numbers, known flags, checksums and blocks after exactly its bytes if and only if the payload comes last |
| FragmentRoundTrip.SplitKeepsTiles | components/bundle7/fragment.c:66-117 | after splitting a piece, with data or without, the pieces still hold the ADU one after the other and the last one has data |
| FragmentRoundTrip.SplitAndDeliver | components/upcn/bundle_processor.c:404-601 | fragments of repeated splits, empty ones included and none of them whole, in any order, repeated and mixed with other traffic: an arrival delivers the payload if and only if with it all data has come and no empty fragment came first behind the data of its offset, unless that data ends the payload |
| FragmentRoundTrip.DeliveredWithoutEmpty | components/upcn/bundle_processor.c:404-601 | if all fragments have data, the payload is delivered exactly when all of them have come |
| Reassembly.AddToList | components/upcn/bundle_processor.c:454-478 | the walk inserts before the first greater offset |
| Reassembly.InsertKeepsOrder | components/upcn/bundle_processor.c:454-478 | the list stays ordered by offset and gains just this fragment |
| Reassembly.CheckGaps | components/upcn/bundle_processor.c:490-501 | the first loop of the reassembly, with its 32-bit sums, decides the absence of gaps |
| Reassembly.TryReassemble | components/upcn/bundle_processor.c:480-558 | a buffer of the total length that starts with what the fragments assemble, just when there is no gap |
| Reassembly.AssembleSound | components/upcn/bundle_processor.c:480-558 | whenever the check succeeds, copying yields the ADU, for any overlaps, although check and copy track different ends |
| Reassembly.DeliveredIsAdu | components/upcn/bundle_processor.c:480-558 | what is delivered is the ADU |
| Reassembly.CoveredIsDelivered | components/upcn/bundle_processor.c:490-501 | an ADU whose bytes are all there is delivered if and only if no fragment starts behind the end of the one before it, up to the first that reaches the total length |
| Reassembly.DeliveredUnlessStuck | components/upcn/bundle_processor.c:490-501 | pieces that tile an ADU, mixed with empty ones, are delivered if and only if no empty one lies behind the data of its offset that does not end the ADU |
| Reassembly.NoGapNeedsAll | components/upcn/bundle_processor.c:490-501 | nothing is delivered while a piece with data is missing |
| Reassembly.DeliveredIsCovered | components/upcn/bundle_processor.c:490-501 | nothing is delivered while a byte is missing |
| Reassembly.NestedIsRefused | components/upcn/bundle_processor.c:490-501 | a nested fragment makes the check give up although all bytes are there |
| Reassembler.ReassemblyList.Attempt | components/upcn/bundle_processor.c:576-601 | behind the first check: the fragment joins the list of its ADU; what is delivered and what stays pending |
| Reassembler.DeliveredWhenComplete | components/upcn/bundle_processor.c:576-601 | fragments that reach the reassembly, pieces that tile an ADU once each and empty ones, in any order: an arrival delivers the ADU if and only if it completes the pieces and nothing obstructs |
| Reassembler.EmptyBehindData | components/upcn/bundle_processor.c:490-501 | a run in which all bytes arrive and nothing is ever delivered |
| KnownBundles.KnownList.RecordAndCheck | components/upcn/bundle_processor.c:917-956 | search, lazy expiry and ordered insertion in one walk |
| KnownBundles.KnownList.AddReassembled | components/upcn/bundle_processor.c:980-1005 | ordered insertion of a reassembled identity |
| KnownBundles.KnownList.ReassembledIsKnown | components/upcn/bundle_processor.c:958-978 | the walk that looks for the identity of a reassembled ADU |
| KnownBundles.LookupExact | components/upcn/bundle_processor.c:923-942 | an identity is found if and only if an entry with it is reached: all before it have expired or do not expire later |
| KnownBundles.AnswersExact | components/upcn/bundle_processor.c:917-956 | in every run a delivery is accepted if and only if it comes in time and its identity is not found that way |
| KnownBundles.KnownStaysKnown | components/upcn/bundle_processor.c:917-956 | while an entry has not expired, no delivery of its identity with the same or a later deadline is accepted |
| KnownBundles.AcceptedAgain | components/upcn/bundle_processor.c:917-1005 | over any run with a clock that does not go back, an identity accepted or reassembled is accepted again only with an earlier deadline or after the old one has passed |
| KnownBundles.AcceptedAtMostOnce | components/upcn/bundle_processor.c:917-1005 | so with one deadline it is accepted at most once |
| KnownBundles.StaysSorted | components/upcn/bundle_processor.c:917-1005 | the list stays ordered by deadline over any run |
| KnownBundles.AcceptedTwice | components/upcn/bundle_processor.c:923-942 | for all deadlines and times that allow it, earlier or later, a run in which the identity is accepted twice |
| LocalDelivery.Processor.Deliver | components/upcn/bundle_processor.c:404-443 | known bundles and those for nobody are dropped, whole ones delivered with exactly their data if accepted, fragments of known ADUs discarded, others reassembled and the ADU recorded |
| LocalDelivery.WholeExactly | components/upcn/bundle_processor.c:404-443 | an unfragmented bundle is delivered, with its data, if and only if it is wanted, not behind its deadline and none with its identity is reached in the known list |
| LocalRuns.DeliveredAgain | components/upcn/bundle_processor.c:404-601 | over any run an ADU is delivered again only if it comes back with an earlier deadline or after the one remembered has passed |
| LocalRuns.DeliveredAtMostOnce | components/upcn/bundle_processor.c:404-601 | so an ADU with a timestamp and one lifetime is delivered at most once |
| LocalRuns.WholeFragmentIsLost | components/upcn/bundle_processor.c:403-436 | an accepted fragment that holds its whole ADU is discarded as if the ADU had been delivered |
| LocalReassembly.DeliveredLocally | components/upcn/bundle_processor.c:404-601 | pieces that tile an ADU and empty ones, repeated, in time and among other bundles: an arrival delivers the ADU if and only if it completes the pieces and no empty one came first behind the data of its offset |
| LocalReassembly.OneFragmentIsLost | components/upcn/bundle_processor.c:564-574 | an ADU in one fragment is discarded with its first arrival |
| LocalReassembly.FirstWholeIsDelivered | components/upcn/bundle_processor.c:404-443 | in any run the first arrival of a whole bundle in time is delivered |
| LocalReassembly.WholeIsDeliveredOnce | components/upcn/bundle_processor.c:404-443 | and with a timestamp and one lifetime no other arrival of it is |
| Contacts.AddToOrderedList | components/upcn/node.c:496-524 | the walk inserts by start or end, unless the contact is met |
| Contacts.RemoveFromList | components/upcn/node.c:526-545 | the walk removes the contact |
| Contacts.InsertKeeps | components/upcn/node.c:496-578 | order and absence of duplicates are kept, and the list gains just this contact |
| Contacts.RemoveKeeps | components/upcn/node.c:526-598 | order and absence of duplicates are kept, and the list loses just this contact |
| Contacts.CheckForInvalidOverlaps | components/upcn/routing_table.c:417-440 | reading part of the list decides: a contact of the same node overlaps, or the overlaps modulo 256 reach the limit |
| Contacts.RoomAlways | components/upcn/routing_table.c:417-440 | there is room during the whole contact if and only if there is at its start and at the starts inside it |
| Contacts.AdmitKeeps | components/upcn/routing_table.c:296-329 | an admitted contact keeps the list sorted, free of duplicates and of overlaps within a node; it keeps the limit of open contacts if and only if there is room, and there is, unless the counter went round |
| Contacts.DropKeeps | components/upcn/routing_table.c:331-372 | so does a removal |
| Contacts.CounterGoesRound | components/upcn/routing_table.c:419-439 | for every limit a list on which the counter lets one contact too many through |
| Contacts.ListedIsRefused | components/upcn/routing_table.c:305-308 | a listed contact is refused because it overlaps itself |
| EidIndex.AddToOk | components/upcn/routing_table.c:374-395 | the contact is listed under one more EID and nothing else changes; entries stay non-empty, ordered by end, without duplicates, their count right modulo 2^16 |
| EidIndex.RemoveFromOk | components/upcn/routing_table.c:397-415 | the contact is no longer listed under the EID, nothing is added, and nothing else is lost unless the count wrapped |
| RoutingTable.DropAllOk | components/upcn/routing_table.c:331-372 | taking a node out takes out all its contacts and no others |
| RoutingTable.ContactListUnion | components/upcn/node.c:287-341 | the merge by start time and the endpoints it moves |
| RoutingTable.ContactListDifference | components/upcn/node.c:343-402 | the loops compute the difference, which MinusExactly describes |
| RoutingTable.DifferenceExactly | components/upcn/node.c:151-182 | an EID is left just when it is in the first list and not in the second; order is kept |
| RoutingTable.DifferenceCounts | components/upcn/node.c:151-182 | with repetitions: each EID named takes out one of its occurrences |
| RoutingTable.MergeOk | components/upcn/node.c:287-341 | the merged list is sorted and free of duplicates, as asserted, and keeps all old contacts |
| RoutingTable.Table.AdmitContact | components/upcn/routing_table.c:303-328 | one contact checked and entered under all its EIDs; the tables stay consistent |
| RoutingTable.Table.AddNodeToTables | components/upcn/routing_table.c:296-329 | all contacts of a node in turn; the tables stay consistent |
| RoutingTable.Table.RemoveNodeFromTables | components/upcn/routing_table.c:331-372 | the tables are those without the contacts of the node; contacts of other nodes stay |
| RoutingTable.Table.AddNode | components/upcn/routing_table.c:139-194 | a new node, or new endpoints and contacts for an old one, keep the tables consistent |
| RoutingTable.Table.ReplaceNode | components/upcn/routing_table.c:196-212 | the contacts of the old node leave, those of the new one are admitted in turn, those of other nodes stay |
| RoutingTable.Table.DeleteNode | components/upcn/routing_table.c:214-232 | the contacts of the node leave list and index; contacts of other nodes stay |
| RoutingTable.Table.DeleteFromNode | components/upcn/routing_table.c:234-289 | endpoints and contacts are taken out of a node and the tables rebuilt for it; a removed EID stays in the index only as one of the node or of a contact |
| RoutingTable.Table.DeleteContact | components/upcn/routing_table.c:453-485 | afterwards the contact is in no index, no list and no node |
| RoutingTable.DeleteOk | components/upcn/routing_table.c:453-485 | removing a contact under its own EIDs removes it everywhere and leaves other contacts alone |
| IndexComplete.ListedStays | components/upcn/routing_table.c:296-329 | whatever contacts are added, a listed contact is in the index under the same EIDs as before |
| IndexComplete.NewIsIndexed | components/upcn/routing_table.c:296-329 | a contact that gets into the list gets into the index under all its EIDs |
| IndexComplete.MergeOwnExact | components/upcn/node.c:287-341 | the endpoints a contact has after a merge: its own, and those named for its times if it is the first with its start |
| IndexComplete.ExtendComplete | components/upcn/routing_table.c:147-193 | adding to a known node keeps every listed contact in the index under all its EIDs if and only if nothing that is added is new to a listed contact |
| IndexComplete.InstallComplete | components/upcn/routing_table.c:139-148 | adding a new node always does |
| IndexComplete.MergeMisses | components/upcn/routing_table.c:159-190 | an endpoint merged into a listed contact is one of its EIDs and not in the index |
| IndexComplete.MergedEndpointMissing | components/upcn/routing_table.c:139-194 | such a run of the operations |
| NodeChanges.MergeExactly | components/upcn/node.c:287-341 | which contacts a merge holds: the old ones, and the new ones with a start of their own |
| NodeChanges.MinusExactly | components/upcn/node.c:343-402 | which contacts a difference leaves, and with which endpoints |
| NodeChanges.AdmittedExactly | components/upcn/routing_table.c:296-329 | which contacts of a node are listed after their admission in turn |
| NodeChanges.UnopposedIsAdmitted | components/upcn/routing_table.c:296-329 | a contact that no other one being added and no listed one of its node overlaps is listed in the end, if few others overlap |
| Capacity.EnterOk | components/upcn/router.c:484-510 | one more bundle keeps the account of a contact for every priority, in 32-bit counters |
| Capacity.LeaveOk | components/upcn/router.c:512-541 | one bundle less keeps it |
| Capacity.LeftExact | components/upcn/router.c:484-541 | a counter is the capacity less the bytes booked if and only if not more than 2 GB are overbooked |
| Capacity.RouteOk | components/upcn/router.c:571-600 | routing a bundle keeps lists and routes in step and every account right |
| Capacity.UnrouteOk | components/upcn/router.c:602-620 | so does taking it off its route |
| Capacity.RouteThenUnroute | components/upcn/router.c:571-620 | taking a bundle off again restores every contact |
| Capacity.TotalExactly | components/upcn/node.c:452-471 | the capacity is duration times bitrate, cut to 31 bits, also for contacts longer than 2^32 seconds and for those that end before they start |
| Capacity.WithoutOneOf | components/upcn/router.c:519-537 | taking a bundle out leaves the others in their order |
| Capacity.Router.Recalculate | components/upcn/node.c:452-471 | the new capacity, written out, shifts what is left for every priority and keeps the account, in 32-bit counters |
| Capacity.Router.AddToRoute | components/upcn/router.c:571-600 | the bundle comes last on all contacts of its route and on no others, accounts and links hold, or the program ends because there is no contact or one without capacity left |
| Capacity.Router.RemoveFromRoute | components/upcn/router.c:602-620 | the bundle is on none of them; accounts and links hold |
| Capacity.Router.Reschedule | components/upcn/routing_table.c:511-536 | it ends, announces the bundles of the contact in order, takes them off everywhere and leaves the contact with its full capacity |
| Planner.PlanFragments | components/upcn/router.c:284-318 | the loop computes the plan, which adds up and fills every fragment but the last, or that there is none |
| Planner.PlanExactly | components/upcn/router.c:284-318 | when there is a plan, for all sizes: the first fragment and the others have room for the least payload, or for all that is left, and ten together hold the payload; from 2 GB on the first one takes all |
| Planner.PlanFilled | components/upcn/router.c:292-313 | every fragment but the last is filled |
| Planner.PlanSum | components/upcn/router.c:292-318 | the planned payloads add up to the payload |
| Planner.PlanCount | components/upcn/router.c:293-293 | there are at most ROUTER_MAX_FRAGMENTS of them |
| Planner.PlanFits | components/upcn/router.c:292-313 | every fragment of a plan with two or more fits the bound if and only if the last header is not larger than the middle one or the remainder for the last fragment fits with it |
| Planner.LargeLastHeader | components/upcn/router.c:301-313 | a plan whose last fragment exceeds the bound |
| Planner.CalculateFragmentRoute | components/upcn/router.c:184-252 | the loop computes the route and reports whether it is probable enough |
| Planner.RouteIsSound | components/upcn/router.c:184-252 | a route holds at most four distinct contacts, none excluded or over, and its probability is one minus the product of the misses; each has room for the fragment if and only if its capacity is not negative |
| Planner.UnsoundExactly | components/upcn/router.c:184-252 | a route holds a contact without room if and only if the walk, not ended before, takes one with a negative capacity that no later deterministic contact replaces |
| Planner.SoundWithoutNegative | components/upcn/router.c:184-252 | without negative capacities every contact of every route has room |
| Planner.ContactsAt | components/upcn/router.c:184-252 | which contacts of the list are in the route: those taken and not replaced by a later deterministic one |
| Planner.SkipAt | components/upcn/router.c:217-226 | contacts whose room the bytes before take up are passed over, and what is left of those bytes counts against the next |
| Planner.RouteImproved | components/upcn/router.c:227-233 | the number of contacts, modulo 256, that are refused and would have room with the capacity for the priority |
| Planner.DeterministicIsFound | components/upcn/router.c:237-243 | a contact of deterministic confidence that seems usable leads to success unless four others came first |
| Planner.NegativeCapacity | components/upcn/router.c:217-218 | a contact without room that is taken |
| Sdnv.ReaderExact | components/bundle6/sdnv.c:15-92 | on any bytes up to the first terminator the reader is done, in progress or at fault exactly as limit and value say, and never wraps |
| Sdnv.Reader.Read | components/bundle6/sdnv.c:53-92 | one byte, in place |
| Sdnv.GetSize | components/bundle6/sdnv.c:94-148 | the masks give the number of 7-bit groups |
| Sdnv.Write | components/bundle6/sdnv.c:149-190 | the buffer holds the groups, the marker in all bytes but the last |
| Sdnv.RoundTrip | components/bundle6/sdnv.c:15-190 | reading back ends done with the value after exactly the bytes written |
| Sdnv.NotDoneEarly | components/bundle6/sdnv.c:53-72 | and not before |
| Sdnv.EncodeMinimal | components/bundle6/sdnv.c:94-148 | no shorter sequence of groups stands for the value |
| Bundle6Dictionary.WriteDictionary | components/bundle6/bundle6.c:145-233 | the bytes of the dictionary and the offsets of its schemes |
| Bundle6Dictionary.DictionaryRead | components/bundle6/parser.c:124-151 | the offsets lead to zero-terminated strings that give the EID back |
| Bundle6Dictionary.NormalIsEid | components/bundle6/bundle6.c:13-54 | an EID with a colon is kept as it is |
| Bundle6Dictionary.CountedRight | components/bundle6/bundle6.c:81-113 | the separate length count is right if and only if there is no EID, a colon, or by chance eight characters |
| Bundle6Parser.ReadBuffer | components/bundle6/parser.c:595-640 | the call without a buffer ends a block read in bulk; the loop over a buffer reads it, block data as a whole |
| Bundle6Parser.BufferOfStream | components/bundle6/parser.c:609-637 | reading a buffer first does not change what the stream is read to |
| Bundle6Parser.BufferEnds | components/bundle6/parser.c:612-619 | bytes of a buffer are left only by a finished parser or in front of a bulk read |
| Bundle6Receiver.Receiver.ChunkRead | components/cla/cla_contact_rx_task.c:240-307 | the buffer with new bytes is read to the end of the bundle or to a bulk read |
| Bundle6Receiver.Receiver.BulkRead | components/cla/cla_contact_rx_task.c:126-230 | block data is filled from the buffer and from any number of reads, then the parser goes on without a buffer; a failed read resets it |
| Bundle6Receiver.TurnsRead | components/cla/cla_contact_rx_task.c:309-369 | for every cut, chunk reads and bulk reads together read the whole stream |
| Bundle6Receiver.TurnsSettle | components/cla/cla_contact_rx_task.c:309-369 | and come to an end |
| Bundle6Serializer.WriteBundle | components/bundle6/serializer.c:23-126 | the written pieces are the serialized bundle |
| Bundle6Serializer.MaskedFits | components/bundle6/serializer.c:44-59 | the mask keeps the fragment flag and fits 32 bits |
| Masks.MaskTwice | components/bundle6/serializer.c:44-59 | masking again changes nothing |
| Masks.MaskBits | components/bundle6/serializer.c:44-59 | the mask keeps just the bits it names |
| Bundle6RoundTrip.NumberRead | components/bundle6/parser.c:300-318 | a written number takes the parser to what follows it |
| Bundle6RoundTrip.PrimaryRead | components/bundle6/parser.c:320-499 | the rest of the primary block gives numbers and EIDs |
| Bundle6RoundTrip.BlocksRead | components/bundle6/parser.c:500-592 | the blocks are collected one after the other |
| Bundle6RoundTrip.RoundTrip | components/bundle6/parser.c:320-640 | reading a serialized bundle from a stream takes exactly its bytes and gives back masked flags, EIDs, timestamps, lifetime in seconds, fragment fields and blocks |
| Bundle6Limits.AnyNumberRead | components/bundle6/parser.c:300-318 | a number written in any length is read, or is an error just when its width does not hold it |
| Bundle6Limits.FieldRefused | components/bundle6/parser.c:169-440 | a number of the primary block is refused if and only if it is too large for its field, or the length of a dictionary that is empty or exceeds the quota |
| Bundle6Limits.DataRefused | components/bundle6/parser.c:240-262 | the data of a block is refused if and only if its length has more than 32 bits or, added in 32 bits, exceeds the quota |
| Bundle6Limits.PrimaryBound | components/bundle6/parser.c:320-335 | whatever comes, the primary block takes no more bytes than it announces |
| Bundle6Limits.ReceivedExactly | components/bundle6/parser.c:320-640 | a serialized bundle is received if and only if dictionary and data keep to the quota, and is an error otherwise |
| Bundle6Limits.ReferencesRead | components/bundle6/parser.c:524-571 | a block gets the EIDs it refers to, in reverse order, or is an error if one cannot be read; the quota is counted from their number on |
| Bundle6Frames.Received | components/cla/cla_contact_rx_task.c:309-369 | such a bundle is received from every cut of the stream, and the bytes behind it stay |
| Bundle6Frames.FrameOutcome | components/cla/posix/cla_mtcp.c:286-336 | in a frame of its length it is received if and only if its last block has data or something was read in bulk; otherwise the frame ends before the empty data is |
| Aap.DriveSplit | components/agents/posix/application_agent.c:120-138 | parsing in two goes is parsing in one |
| Aap.DriveStops | components/aap/aap_parser.c:82-202 | while nothing is decided less than eight bytes are left, and a decision consumes something |
| Aap.StreamDecides | components/agents/posix/application_agent.c:360-403 | however the stream is cut, what came out followed by what the kept bytes hold is what the stream holds |
| Aap.BufferHasRoom | components/agents/posix/application_agent.c:368-374 | the buffer is never full before a receive |
| Aap.OneComesOut | components/agents/posix/application_agent.c:376-395 | a receive brings out the first message or error that the bytes hold, and the others wait |
| Aap.AllOutExactly | components/agents/posix/application_agent.c:360-403 | everything has come out if and only if the kept bytes decide nothing more; with more messages than receives something waits |
| Aap.SecondMessageWaits | components/agents/posix/application_agent.c:382-395 | a second message in one receive waits for the next |
| AapSerializer.SerializedSize | components/aap/aap_serializer.c:23-49 | the announced size is the size written |
| AapSerializer.WriteMessage | components/aap/aap_serializer.c:51-88 | the written pieces are the serialized message |
| AapSerializer.RoundTrip | components/aap/aap_parser.c:44-202 | the message is read back from exactly its bytes if and only if it is not one with payload and empty EID |
| AapSerializer.MessagesRoundTrip | components/aap/aap_parser.c:44-202 | a stream of messages yields these messages |
| AapFrames.FirstExactly | components/aap/aap_parser.c:44-202 | of any bytes: the message or error that their positions say, after exactly its bytes, or nothing yet; errors are a wrong version, an unknown type and a payload above the limit |
| AapFrames.OutcomesAreFrames | components/aap/aap_parser.c:44-202 | so the messages and errors of any stream are those of its frames |
| AapAgent.Parser.ParseNext | components/aap/aap_parser.c:44-202 | one stage, in place |
| AapAgent.Parser.ParseInput | components/agents/posix/application_agent.c:120-138 | the loop over the stages |
| AapAgent.Agent.ReceiveFromSocket | components/agents/posix/application_agent.c:360-403 | one receive with the buffer shifted in place; there is room for the next |
| ConfigParser.ReadBuffer | components/agents/config_parser.c:465-484 | the loop over a buffer; an error starts the parser anew |
| ConfigPrinter.PrintedIsRead | pyupcn/agents.py:75-103 | reading a printed command through the stages of config_parser.c gives its fields back |
| ConfigCommands.OrderIsRead | components/agents/config_parser.c:173-441 | commands in any form, with a reliability, sections empty or left out, endpoints of contacts: reading gives what they say, and fails just when the lowest 16 bits of the reliability are not between 100 and 1000 |
| ConfigGrammar.CommandJudged | components/agents/config_parser.c:173-441 | of any characters: the command that they start with, an error, or more is needed, just as the language has it |
| ConfigGrammar.EidChars | components/agents/config_parser.c:62-83 | EIDs are of visible characters but five |
| ConfigGrammar.NumbersAre | components/agents/config_parser.c:154-182 | numbers are cut to what the conversions return |
| CrcBits.DivideIsRemainder | pyupcn/crc.py:206-221 | the bitwise register holds the remainder of a polynomial division |
| CrcBits.DivideInjective | pyupcn/crc.py:206-221 | with the lowest bit of the divisor set, different initial values never give the same register |
| CrcBits.ByteIsBits | pyupcn/crc.py:152-168 | a byte by the table is eight bits by the register |
| Crc.BytesIsRemainder | pyupcn/crc.py:136-175 | the table-driven register holds the remainder for every message |
| Crc.FastBytesReversed | pyupcn/crc.py:177-204 | the fast path is the slow one with everything reversed, the initial value included |
| Crc.FastAgrees | pyupcn/crc.py:145-147 | it agrees with the slow one on all messages if and only if the initial value is its own reversal |
| Crc.FastAgreesEver | pyupcn/crc.py:145-147 | with the lowest bit of the divisor set, it agrees on any one message if and only if the initial value is its own reversal |
| Crc.RielloDiffers | pyupcn/crc.py:275-275 | with the initial value of one predefined model it differs on every message |
| Crc.Reflect | pyupcn/crc.py:47-60 | the loop reverses the bits |
| Crc.CalculateTable | pyupcn/crc.py:206-243 | the table, plain or reflected |
| Crc.Calculator.Call | pyupcn/crc.py:136-175 | with lazily computed tables, the checksum of the model wherever the fast path agrees |
| Crc.ChunksDoNotMatter | components/upcn/crc.c:291-297 | feeding any pieces is feeding the whole |
| Crc.StreamIsChecksum | components/upcn/crc.c:68-92 | the stream ends with the checksum of the whole input |
| Crc.Stream.FeedBytes | components/upcn/crc.c:261-297 | the loop over the bytes of a piece |

## Left out

- Memory allocation failure and freeing, locks of the bundle store, logging, tasks, sockets and clocks; times and addresses are parameters.
- The byte-wise BPv7 parser and the encoding of its EIDs, which rest on a CBOR library that is not in the repository, custody transfer, the route optimizer, the BPv6 fragmenter and the STM32 platform.
- BundleStorage.Storage.Add: requires a free id, since the source searches without end when all 65535 are taken; bundles without a payload block count with length 0.
- AvlTree.RotateNodes: the two rotations, and the mirrored branches of the deletion, are one member with the side as a parameter.
- RingQueue: time-outs of push and pop and `queueReset`; a forced push with a time-out, which would take a second token.
- Fragmenter.BundleObject.FragmentBundle: takes a cut at 0 as a split; on a C library whose `realloc` of size 0 returns NULL, the assertion at components/bundle7/fragment.c:112 ends the program there.
- LocalDelivery.Processor.Deliver: says nothing about the state behind a fragment that is used after it was discarded (components/upcn/bundle_processor.c:564-574), where the source lacks a return.
- Fragmenter.ApplyFragmentation: keeps finished fragments as values; that fragments are stored and routed afterwards is not modelled.
- Fragmentation: the encoded size of the EIDs enters as a number, and failures of the header length calculation do not occur for version 7.
- RoutingTable: nodes are named by their EIDs; the order of endpoints by address, CLA addresses, and which contacts of a dropped node are active are not modelled; bundles of dropped contacts are in Capacity.
- RoutingTable.Table.AddNode: requires contacts that are new objects, ordered by start, as `node_prepare_and_verify` leaves them.
- Capacity: lists handed to a transmission task are not modelled.
- Planner: the choice of the maximum fragment size and the reuse of routes; no claim that the fragments of one route together fit a contact.
- Bundle7Serializer.RoundTrip: the bundle is there as a whole and its EIDs are known by their encoded size; checksums are a parameter.
- Bundle6Serializer.WriteBundle: no EID references in blocks, which the serializer indexes per block.
- Bundle6RoundTrip.RoundTrip: no EID references, dictionary below 64 KiB, only the last block marked, a length field of the primary block that is not too small, quota not exceeded.
- Bundle6Parser: its fields are one record; an allocation of no bytes for an empty block succeeds.
- Bundle6Receiver: what follows a bundle, the choice of the protocol version and the size of the buffer.
- Bundle6Frames.FrameOutcome: the header of a frame is read before; components/cla/posix/cla_tcpclv3.c counts in the same way.
- Aap: a failing allocation and payloads above the address space; what the agent does with a message.
- ConfigParser: the buffers in which texts grow; `atoi` beyond `int` is taken to be that of a C library that converts to a 64-bit `long` first.
- Crc: numbers are bit strings of their width, so bits that Python's integers carry above it are not kept; CRC-16/CCITT-FALSE streaming.
- Crc.StreamIsChecksum: the constant tables of components/upcn/crc.c are taken to be the generated ones.
- Crc.Stream.FeedBytes: likewise.
- HashTable: comparing keys by address only; all keys are distinct strings in memory.
