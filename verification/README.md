# Verified models of the DFS storage cluster

A Dafny model of the parts of the DFS distributed file system (Rust) where several steps, nodes or
threads have to agree: how a chunk's pending patches are logged, replayed and dropped; how replicas are
placed on the hash ring; how a node's view of its peers, the ring and the quorum stay in step; how
acknowledged writes survive a crash; how the client keeps its chunk map newest; how messages cross a
fragmented byte stream. Integers are unbounded unless a width is written out. Clocks, hashes, disk
results and network replies are parameters, so every theorem holds for all of them.

`dafny verify dfyconfig.toml` checks the whole project.

| module | models | form |
|---|---|---|
| `PatchReplay`, `PatchSlot` | the meaning of a log of patches, and of a slot that drops, folds and evicts | values, runs of events |
| `DeltaFormat`, `PatchAccumulator` | the delta file, its parsers, and the object that merges a patch | loops and a class |
| `Durability` | the coalescing flush worker, with crashes | step machine |
| `ChunkIndex` | the in-memory chunk index, its paging, and overlapping operations on it | class and step machine |
| `Membership`, `Detector`, `Quorum`, `ClusterManager` | node registry, failure detector, leader and remembered size | events on a view, refined by a class |
| `CompactionRace`, `CompactionRuns` | the race for compaction, over whole runs of the cluster | values, step machine |
| `Placement` | capacity-aware placement | values |
| `HashRing` | the consistent hash ring | class, refined to a preference list |
| `Arbitration` | which chunk location wins a scan | values and a loop |
| `ReadEngine`, `InodeReadEngine` | the client's chunk map, its offset index and range queries | events, refined by a class |
| `Framing` | length-prefixed and split frames over fragments | class with an incremental reader |
| `Locks` | byte-range locks | class, runs of operations |
| `Repack` | repacking into full blocks | loops over a reference function |
| `UsableCapacity`, `CapacityPlacement` | usable capacity, and the placements it is measured against | loops over a reference function |
| `Basics`, `SortedSets` | shared definitions | |

## What the proofs found

These are places where the code does not do what its comments or its purpose suggest. The model follows
the code. Each entry names a lemma at a failing input, the lemma that says exactly when the promise holds, and
where the input comes from.

- **A dropped patch can be lost** (`PatchSlot.DroppedWriteIsLost`; exactly when: `AlwaysRightIff`). A patch
  that changes nothing is not logged. If a lower-numbered patch to the same bytes arrives later, it wins where
  the dropped one should have. The comment at `dfs-server/src/server.rs:14614-14620` says this cannot happen;
  the input is a patch that reaches the node after one with a higher number, which the same comment allows for.
- **An append cut inside a record makes the whole delta unreadable** (`PatchAccumulator.TornRecordIsUnreadable`;
  exactly when: `TornReadsIff`). The input is a full disk during the append at
  `dfs-server/src/server.rs:14891-14893`.
- **A flush that fails after the rename loses the delta** (`PatchAccumulator.Accumulator.MergePatch`, its
  clause on `NotRecorded`; exactly when: its clause on `Readable`). The file is then under a name that the patch
  state does not record, and every later merge fails. The input is a failed syncfs at
  `dfs-server/src/server.rs:14905-14909`, or a failed patch-state write at `14947-14949`.
- **A write and a delete of one chunk that overlap can leave a phantom in the chunk index, or lose a file from
  it** (`ChunkIndex.OverlapLeavesPhantom`; exactly when: `AlwaysSafeIff`). The input is any `delete_chunk` during
  a `write_chunk` of the same id; the storage object takes no lock across either.
- **Peers met before start-up loads the cluster size can be forgotten by the next restart**
  (`Quorum.AnnouncedPeersAreForgotten`, `DepartedPeersAreForgotten`; exactly when: `RestartRecallsIff`). The
  listener runs before the size is loaded (`dfs-server/src/main.rs:423-499`).
- **Scan order decides between locations** (`Arbitration.PhantomWinsByOrder`; exactly when:
  `OrderIrrelevantIff`). The input is two rows of one slot in the chunk table.
- **Two processes can both lock the last byte of a range, and a one-byte lock reaches to the end of the file**
  (`Locks.LastByteIsShared`; exactly when: `RefusedIff`). FUSE ends are inclusive; the conversion at
  `dfs-client/src/fuse_impl.rs:9604` takes them as exclusive, for every lock request of the kernel.
- **The greedy capacity is not always the most that fits**, not even for the cluster in its own comment
  (`CapacityPlacement.DocumentedClusterHoldsMore`; exactly when: `GreedyReachesBoundIff`).
- **An accepted chunk without an offset desynchronises the offset index** (`ReadEngine.UnplacedChunkIsIndexed`;
  exactly when: `SingleRebuildsIff`). `dfs-client/src/client.rs:3820` and `4633` pass on locations as they come,
  and their offset is optional.
- **`add_node` puts a node on the ring whatever its status** (`Membership.FailedRecordJoinsRing`; exactly when:
  `KeepsExactIff`). The input is a seed's reply to a join (`dfs-server/src/main.rs:1090-1095`), which lists its
  failed nodes too.
- **A peer that leaves while its own message is being handled ends Online and off the ring**
  (`Membership.LeaveInsideContact`; exactly when: `InterruptedContactIff`). The handler awaits between its two
  calls (`dfs-server/src/server.rs:27829-27852`), and the leave is handled on another connection.
- **Some frames cannot be told from a split frame** (`Framing.EmptyWriteWaits`; exactly when:
  `RoundTripsExactly`). The reader takes the request, but no caller sends it today: the client's inline writer
  (`dfs-client/src/client.rs:7241-7263`) is never called, and the admin tool writes only what its buffer holds
  when not empty (`dfs-admin/src/main.rs:1472-1492`).
- **Placement aborts when no node is considered** (`Placement.EmptyRingPanics`; exactly when: `PanicsIff`). An
  operator who removes the only node empties the ring (`Membership.RemovingItselfEmptiesRing`), and the next
  write asks for a placement (`dfs-server/src/server.rs:10744-10746`).
- **An unlock at offset `u64::MAX` does nothing** (`Locks.LockOnLastOffsetStays`; exactly when:
  `UnlockUndoesLock`). No caller supplies this offset today: all calls come from FUSE, whose offsets are signed.

## Model

| member | source | states |
|---|---|---|
| PatchReplay.StableSortFacts | dfs-server/src/server.rs:996-997 | The replay order is a permutation of the log, ascending by write number, and keeps the arrival order of records with equal numbers. |
| PatchReplay.LatestWriteWins | dfs-server/src/server.rs:958-998 | Without mentioning the sort: each byte of the composed chunk comes from the record with the highest number covering it, the last to arrive among equals; a byte nobody wrote keeps the base, or is zero past its end. |
| PatchReplay.ReplicasConverge | dfs-server/src/server.rs:960-966 | Replicas that received the same patches hold the same bytes, for every order of arrival and however often each patch was resent, provided a number names one patch. |
| PatchReplay.BothOrdersAgreeIff | dfs-server/src/server.rs:960-966 | Two writes give the same bytes in both orders exactly when their numbers differ or they agree wherever they overlap. |
| PatchReplay.FoldKeepsContentIff | dfs-server/src/server.rs:3488-3491 | Folding a log into a new base and patching on equals replaying everything over the old base exactly when, at every byte both wrote, the folded write is no later than the logged one or left the same value. |
| PatchReplay.FoldKeepsContent | dfs-server/src/server.rs:3488-3491 | In particular when no folded write is later than a new one. |
| PatchReplay.ReplayBytes | dfs-server/src/server.rs:7885-7896 | Replaying records in a given order leaves at each byte the last record covering it, and grows the chunk, zero-filled, to the furthest end. |
| PatchSlot.NewestGoesOnTop | dfs-server/src/server.rs:14611-14614 | Writing a patch with a new highest number straight onto the composed content equals sorting it into the log and replaying from the base. |
| PatchSlot.MergeKeepsWarm | dfs-server/src/server.rs:14751-14826 | Every merge keeps the cached buffer equal to the replayed log, and its number at least every logged number. |
| PatchSlot.SkipIsRight | dfs-server/src/server.rs:14756-14816 | At the moment a patch is dropped, the slot still holds what all arrivals together prescribe. |
| PatchSlot.FoldAndEvictKeepContent | dfs-server/src/server.rs:3488-3491 | A fold empties the log and an eviction the cache; neither changes what the slot holds or should hold. |
| PatchSlot.DropsAscend | dfs-server/src/server.rs:14751-14816 | As long as the cache is kept, patches are dropped only in ascending order of their numbers. |
| PatchSlot.ArrivalIsRightIff | dfs-server/src/server.rs:14820-14839 | From a correct slot, logging a patch leaves it correct exactly when the patch takes no byte that a dropped or folded later write should keep, unless with the same value. |
| PatchSlot.AlwaysRightIff | dfs-server/src/server.rs:14606-14839 | Over any run of arrivals, folds and evictions: the slot is correct at every point if and only if every logged arrival was harmless in that sense. |
| PatchSlot.InOrderHoldsAll | dfs-server/src/server.rs:14606-14839 | If no patch arrives numbered below one already dropped or folded, the slot holds every write that arrived. |
| PatchSlot.SlotsAgree | dfs-server/src/server.rs:14606-14839 | Two replicas with the same patches and such arrivals hold the same bytes, whatever each dropped, folded or evicted on the way. |
| PatchSlot.DroppedWriteIsLost | dfs-server/src/server.rs:14615-14620 | Writes 1, 3, 2 to one byte, 3 repeating 1: the slot ends with the byte of 2 although 3 is the latest. |
| DeltaFormat.LeRoundTrip | dfs-server/src/server.rs:926-933 | A little-endian number of fixed width decodes to itself. |
| DeltaFormat.ReadsExactlyEncodings | dfs-server/src/server.rs:980-995 | Reading a record stream succeeds with a list of records exactly when the bytes are that list's encoding; every truncated or padded stream fails. Both record formats. |
| DeltaFormat.ReadsPrefixIff | dfs-server/src/server.rs:981-995 | A cut encoding of records can be read if and only if the cut falls between records. |
| DeltaFormat.FileRoundTrip | dfs-server/src/server.rs:14829-14839 | A fresh file, with any records appended later, parses to all records in order and is never taken for the older format. |
| DeltaFormat.LegacyToldApartIff | dfs-server/src/server.rs:954-956 | A file of the older format is recognised, and read back in order, exactly when its first offset is not the magic number. |
| DeltaFormat.LegacyKeepsArrivalOrder | dfs-server/src/server.rs:1036-1053 | Records without numbers are replayed in arrival order. |
| DeltaFormat.ReadRecords | dfs-server/src/server.rs:981-995 | The position-advancing loop returns the reference parse, failing on a short header or short data. |
| DeltaFormat.ParseDeltaRecords | dfs-server/src/server.rs:975-998 | The parser returns the file's records in replay order, or fails exactly when the file is not an encoding. |
| DeltaFormat.MaxSeqInDeltaRecords | dfs-server/src/server.rs:1009-1030 | The highest number in the file: attained and not exceeded; none exactly for an older, damaged or empty file. |
| DeltaFormat.ComposePatch | dfs-server/src/server.rs:7885-7896 | The splice loop over a file's bytes produces the content those records mean over the base. |
| PatchAccumulator.Materialize | dfs-server/src/server.rs:14705-14711 | Sizing the buffer once for all records and copying them in equals growing it record by record. |
| PatchAccumulator.IsNoop | dfs-server/src/server.rs:14760-14763 | Answers whether every range lies inside the buffer and already holds its bytes. |
| PatchAccumulator.Accumulator.TakeBaseline | dfs-server/src/server.rs:14657-14749 | The buffer and number compared with are the cached ones, or those rebuilt from base and file; both equal the replayed log. A file of the older format gives none. |
| PatchAccumulator.Accumulator.MergePatch | dfs-server/src/server.rs:14634-14949 | The whole merge on named files and cache, for both formats, is the slot's merge step: what is appended, what is cached, whether the patch was dropped. After a failure the log can be read if and only if the append was not cut inside a record and the file was not renamed away from the recorded name; a lost log fails every later merge. |
| PatchAccumulator.TornReadsIff | dfs-server/src/server.rs:14886-14893 | After an append that wrote only its first k bytes, the whole file can be read if and only if k falls between two of the new records. |
| PatchAccumulator.TornRecordIsUnreadable | dfs-server/src/server.rs:14891-14893 | One record cut anywhere inside makes the whole file, earlier records included, unreadable. |
| Durability.StepKeepsInvariant | dfs-server/src/storage.rs:112-224 | Each step of writers, worker, disk and crashes keeps: requests conserved in order, answers owed to flushes, each flush covering its batch. |
| Durability.RunKeepsInvariant | dfs-server/src/storage.rs:112-224 | The same over every run from a fresh start. |
| Durability.AcknowledgedWritesSurvive | dfs-server/src/storage.rs:487-500 | A write reported durable is still on disk after any later crash and anything that follows. |
| Durability.OkAnswerWasCovered | dfs-server/src/storage.rs:112-224 | Every Ok answer was earned by a successful syncfs that began when the file was already in place. |
| Durability.OutcomeReachesBatch | dfs-server/src/storage.rs:164-179 | A finished syncfs followed by one reply per request answers the whole batch, in order, with what the syncfs returned; Ok acknowledges exactly the writes of the batch, an error none. |
| Durability.AboardIsAnswered | dfs-server/src/storage.rs:164-179 | In every run without a crash: whoever is aboard when a syncfs ends gets its result, in boarding order and before anyone else, at the latest when the worker is done with the batch. |
| Durability.OkSyncCoversAll | dfs-server/src/storage.rs:164-170 | An Ok syncfs puts every file on disk that was in place when it began, whatever happened meanwhile; a failed one promises nothing. |
| Durability.AnsweredOnceInOrder | dfs-server/src/storage.rs:112-224 | Answers follow channel order, at most one per request, and the flushes' batches laid end to end are a prefix of the channel, so no request rides twice. |
| Durability.SweepLeavesNoneBehind | dfs-server/src/storage.rs:159-162 | When the sweep ends, every request sent so far is aboard or already answered; the syncfs may begin later. |
| Durability.ForegroundEndsLinger | dfs-server/src/storage.rs:112-224 | The worker never lingers with a foreground request aboard. |
| Durability.LingersIff | dfs-server/src/storage.rs:128-157 | The worker lingers exactly from taking a background request until a foreground one comes or the time is up. |
| Durability.WorkerDrains | dfs-server/src/storage.rs:112-224 | Left alone, the worker stops after a bounded number of steps, and only with every request answered. |
| Durability.SenderIsAnswered | dfs-server/src/storage.rs:112-224 | From any reachable state, whoever sends a request has its answer once the worker comes to rest. |
| ChunkIndex.PageFacts | dfs-server/src/storage.rs:993-1008 | A page is strictly ascending, within the limit, made of indexed ids beyond the cursor; a page short of the limit has all of them. |
| ChunkIndex.PageSkipsNothing | dfs-server/src/storage.rs:993-1008 | Whatever a page leaves out lies beyond its last id. |
| ChunkIndex.RotationVisitsOnce | dfs-server/src/storage.rs:993-1008 | A full rotation over a changing index visits no id twice, and visits every id that stayed in the index. |
| ChunkIndex.ZeroLimitSeesNothing | dfs-server/src/storage.rs:993-1008 | With limit zero the rotation ends at once, having seen nothing. |
| ChunkIndex.ChunkStorage.WriteChunk | dfs-server/src/storage.rs:444-518 | Disk and index after each outcome: a failed file changes neither, a failed shared flush strands the file, success indexes it. |
| ChunkIndex.ChunkStorage.DeleteChunk | dfs-server/src/storage.rs:785-825 | Index entry goes with the file; a failed removal leaves both. |
| ChunkIndex.ChunkStorage.QuarantineChunk | dfs-server/src/storage.rs:722-734 | A quarantined chunk leaves the data directory and the index together. |
| ChunkIndex.ChunkStorage.ListChunks | dfs-server/src/storage.rs:949-977 | The first listing returns the directory walk in its own order and builds the index from it, stranded files included; a failed walk fails and builds nothing; afterwards the index answers, ascending. |
| ChunkIndex.ChunkStorage.ListChunksPage | dfs-server/src/storage.rs:993-1008 | The page of the current index, built on first use; fails only if that walk fails. |
| ChunkIndex.ChunkStorage.ChunksPresentBatch | dfs-server/src/storage.rs:1024-1031 | Presence answers, one per id in order, are exactly the files on disk that are not stranded. |
| ChunkIndex.AloneIsMethod | dfs-server/src/storage.rs:444-825 | The steps of one write, failed write or delete, run alone, change disk and index as the storage object's methods do and leave nothing pending. |
| ChunkIndex.AlwaysCoherentIff | dfs-server/src/storage.rs:444-825 | With writes and deletes interleaved step by step, index and disk stay coherent at every point of a run if and only if no write and delete of one chunk overlap in it. |
| ChunkIndex.DisciplinedIff | dfs-server/src/storage.rs:444-825 | A step from a coherent state is a write starting inside a delete of the same chunk, or a delete inside a write, if and only if some order of finishing everything in flight leaves a phantom or loses a flushed file. |
| ChunkIndex.AlwaysSafeIff | dfs-server/src/storage.rs:444-825 | A whole run is safe at every point, whatever order the operations in flight finish in, if and only if no write and delete of one chunk overlap in it. |
| ChunkIndex.QuietIndexIsTruthful | dfs-server/src/storage.rs:444-825 | Once nothing is in flight the index is exactly the files on disk, less those renamed into place whose flush failed and that were not written or deleted since. |
| ChunkIndex.OverlapLeavesPhantom | dfs-server/src/storage.rs:444-825 | One such order: a delete run between a write's flush and its index insert leaves the index claiming a file that is gone. |
| Membership.KeepsExactIff | dfs-server/src/cluster.rs:240-348 | Each operation keeps "on the ring exactly when registered and neither failed nor leaving" if and only if its caller meets a stated demand, such as adding only live records. |
| Membership.RunKeepsExact | dfs-server/src/cluster.rs:240-348 | The same over every admissible run. |
| Membership.RingNeverHoldsTheDead | dfs-server/src/cluster.rs:1065-1183 | From a fresh start, failed, leaving, removed and purged nodes are never on the ring, and live ones always are. |
| Membership.MergeAllExact | dfs-server/src/cluster.rs:306-348 | Merging any gossip keeps the ring exact. |
| Membership.TickExact | dfs-server/src/cluster.rs:1065-1183 | A detector tick keeps the ring exact. |
| Membership.ContactIsExact | dfs-server/src/server.rs:27829-27852 | Re-adding a sender and then re-stamping its heartbeat keeps the ring exact whatever status the sender reports, and leaves it Online. |
| Membership.InterruptedContactIff | dfs-server/src/server.rs:27829-27852 | Between the two calls a contact makes, the second leaves the ring exact at every point if and only if no operation in between marks the sender leaving, fails or purges it in a tick, adds another node whose record is not alive, beats for another node off the ring, or removes this node itself. |
| Membership.LeaveInsideContact | dfs-server/src/server.rs:27992-27996 | A peer whose graceful leave is handled between the two calls ends Online and off the ring. |
| Membership.FailedRecordJoinsRing | dfs-server/src/main.rs:1090-1095 | A record that already says Failed, as a seed may hand it to a joining node, is put on the ring. |
| Membership.RemovingItselfEmptiesRing | dfs-server/src/server.rs:19089-19115 | Removing the only node leaves the ring empty. |
| Detector.StatusChange | dfs-server/src/cluster.rs:1065-1183 | The only ways a remote node becomes suspected, leaving or failed. |
| Detector.AlwaysExplained | dfs-server/src/cluster.rs:1065-1183 | At every point of every trace, each node's bad status has its cause earlier in the trace. |
| Detector.FailureNeedsEvidence | dfs-server/src/cluster.rs:1065-1183 | No remote node is failed without two late ticks on record, or a departure past its grace period. |
| Detector.TickOnRemote | dfs-server/src/cluster.rs:1065-1183 | What one tick does to a remote node, case by case on its status, last heartbeat, departure time and ring place: suspected, failed, revived, purged or left alone. |
| Detector.SilenceIsFatal | dfs-server/src/cluster.rs:1087-1106 | Over runs: a remote Online node of which nothing is heard between two late ticks, whatever else happens there, is off the ring after the second and Failed; within a day it is still registered. |
| Detector.HeardStaysOnline | dfs-server/src/cluster.rs:291-301 | A node that is heard from stays Online and keeps its ring place through any run in which every tick comes within the timeout. |
| Detector.DepartureIsFinal | dfs-server/src/cluster.rs:470-486 | A node that announces its departure and stays silent leaves the ring at once and is Failed, or purged, by the first tick after the grace period. |
| Detector.GossipOnRemote | dfs-server/src/cluster.rs:306-348 | One report about a node: a newer one moves its clock and, if it says Online, revives a suspected node, and a failed one with its ring place; an older one does nothing. |
| Detector.OthersAreSpared | dfs-server/src/cluster.rs:240-564 | No operation but the tick changes a remote node it does not name. |
| Quorum.QuorumsIntersect | dfs-server/src/cluster.rs:218-220 | Two quorate views of a cluster neither underestimates share an online node. |
| Quorum.AtMostOneSideLeads | dfs-server/src/cluster.rs:388-399 | The two sides of a partition cannot both have a leader. |
| Quorum.SplitBrainIff | dfs-server/src/cluster.rs:218-220 | Two disjoint groups of an n-node cluster can both have a leader exactly when the majorities of their remembered sizes sum to at most n. |
| Quorum.RunRemembers | dfs-server/src/cluster.rs:164-215 | Over any run with the size loaded first, memory and disk both cover the peak membership. |
| Quorum.KnownSizeCoversPeak | dfs-server/src/cluster.rs:164-215 | The remembered size covers every membership seen, across restarts, less operator removals. |
| Quorum.LoadedSidesNeverSplit | dfs-server/src/cluster.rs:164-220 | Two nodes that each once met a whole cluster, over any runs of their own, cannot lead two sides of it. |
| Quorum.RestartRecallsIff | dfs-server/src/cluster.rs:164-215 | Over any boot that meets peers before the size is loaded, and the restart after it: the next boot counts the peak if and only if the size file already did, the saved peer list does, start-up counted more nodes than it had met, or the file was written later in that boot. |
| Quorum.SavedPeersAreCounted | dfs-server/src/main.rs:464-500 | Whatever happened before, the next start counts at least the size on file, and itself with its seeds and saved peers. |
| Quorum.AnnouncedPeersAreForgotten | dfs-server/src/server.rs:27971-27979 | Two peers that announce leadership before the size is loaded reach neither file, so the next boot counts one node instead of three. |
| Quorum.DepartedPeersAreForgotten | dfs-server/src/main.rs:464-500 | Two peers met early and saved, who leave before another is met: the next boot counts two nodes instead of three. |
| ClusterManager.ClusterManager.constructor | dfs-server/src/cluster.rs:129-159 | A new manager knows itself only; its ring is exact and its size covers what the files remember. |
| ClusterManager.ClusterManager.AddNodeRecord | dfs-server/src/cluster.rs:240-275 | Registry, ring and remembered size move as one add event. A valid manager (ring exact, size at least the registered nodes and, once loaded, at least the past) stays valid exactly when the record looks alive or is its own. |
| ClusterManager.ClusterManager.HandleRemoveNode | dfs-server/src/server.rs:19089-19115 | Removes a known node and lowers the remembered size; an unknown one is refused and nothing changes. The manager stays valid exactly when the node is not itself. |
| ClusterManager.ClusterManager.Heartbeat | dfs-server/src/cluster.rs:291-301 | A valid manager stays valid exactly when the refreshed node is unknown, itself, or on the ring; unknown senders change nothing. |
| ClusterManager.ClusterManager.HandleContact | dfs-server/src/server.rs:27829-27852 | A message from a peer of any status, handled without interruption, leaves a valid manager valid, the sender Online and on the ring, and a new peer in the saved list. |
| ClusterManager.ClusterManager.MergeClusterGossip | dfs-server/src/cluster.rs:306-348 | The loop over entries is the gossip event and keeps the manager valid. |
| ClusterManager.ClusterManager.MarkLeaving | dfs-server/src/cluster.rs:470-486 | A departing node leaves the ring together with its status change, so a valid manager stays valid. |
| ClusterManager.ClusterManager.LeaveLocally | dfs-server/src/cluster.rs:490-504 | Announcing the local departure keeps the manager valid. |
| ClusterManager.ClusterManager.RecoverLocally | dfs-server/src/cluster.rs:552-564 | After local recovery the node is Online and on the ring, and the manager stays valid. |
| ClusterManager.ClusterManager.MarkNodeRecovered | dfs-server/src/cluster.rs:1210-1226 | A failed node is Online, stamped with the present and on the ring afterwards; the manager stays valid. |
| ClusterManager.ClusterManager.CheckFailedNodes | dfs-server/src/cluster.rs:1065-1183 | The judging loop, ring update and purge together are one tick of the reference detector and keep the manager valid: late Online nodes are Suspected afterwards, late Suspected ones Failed and off the ring. |
| ClusterManager.ClusterManager.InitKnownClusterSize | dfs-server/src/cluster.rs:164-175 | After loading, the size is at least the file, the size before and the nodes start-up may join, and covers the peak. |
| ClusterManager.ClusterManager.ForgetClusterMember | dfs-server/src/cluster.rs:194-201 | Lowers the size by exactly one if it exceeds the registered nodes, never below them, nor below one. |
| ClusterManager.ClusterManager.IsLeader | dfs-server/src/cluster.rs:382-399 | Leads exactly when more than half of the larger of the nodes known and the remembered size are Online, and none of those has a smaller id. |
| CompactionRace.StaleIntentIsInert | dfs-server/src/cluster.rs:606-677 | An intent past the cutoff neither wins nor blocks. |
| CompactionRace.WinnerIff | dfs-server/src/cluster.rs:665-677 | A node wins exactly when its intent is at most seven seconds old and precedes, by time and then id, every other intent that recent. |
| CompactionRace.WinnerIsEarliest | dfs-server/src/cluster.rs:606-677 | Among proposers who heard each other, any winner is the earliest, so there is at most one. |
| CompactionRace.AgreedTableHasOneWinner | dfs-server/src/cluster.rs:606-677 | With equal fresh tables exactly one proposer wins. |
| CompactionRuns.WinsNeverOverlap | dfs-server/src/cluster.rs:606-677 | In every run of proposals, messages in any order and decisions by any number of nodes: if no intent travels longer than the wait, and nodes propose again only after their last intent went stale, then of any two wins one was decided after the other's proposal had gone stale. |
| CompactionRuns.RunKeepsInvariant | dfs-server/src/cluster.rs:585-677 | The invariant behind it, over every such run. |
| CompactionRuns.UnheardIntentsBothWin | dfs-server/src/cluster.rs:597-605 | The accepted risk: two nodes that do not hear each other both win at the same time. |
| CompactionRuns.HeardIntentsOneWins | dfs-server/src/cluster.rs:606-677 | Two nodes that propose together and hear each other: only the one with the lower id wins. |
| CompactionRuns.EarlierIntentPrevails | dfs-server/src/cluster.rs:585-677 | A node that has heard of an earlier intent does not win as long as that intent counts. |
| Placement.PanicsIff | dfs-server/src/cluster.rs:747-839 | Placement aborts exactly when the ring is empty, or none is asked for and none is online. |
| Placement.EmptyRingPanics | dfs-server/src/cluster.rs:747-839 | With an empty ring every placement aborts. |
| Placement.ChoosesEnough | dfs-server/src/cluster.rs:747-839 | It returns the requested number of different ring members, or all there are. |
| Placement.ChoosesHealthy | dfs-server/src/cluster.rs:747-839 | Online nodes only, if enough are online; nodes above the floor only, if enough have room. |
| Placement.RoomIff | dfs-server/src/cluster.rs:786-815 | A node has room exactly when nothing is known of it, its total is unknown, its fresh figures show 20 GiB free, or its stale ones 40 GiB in all. |
| Placement.WhoCounts | dfs-server/src/cluster.rs:753-769 | Online are the ring members not registered as anything else; the others are considered only if too few are online. |
| Placement.SeedDecidesOrder | dfs-server/src/cluster.rs:773-779 | With no more nodes than asked for, all are taken in ring order, starting where the chunk's seed points. |
| Placement.ChoosesHighestKeys | dfs-server/src/cluster.rs:747-839 | No candidate left out has a higher sampling key than one chosen. |
| Placement.TiesGoToEmptier | dfs-server/src/cluster.rs:817-836 | When too few have room, a tie between sampling keys goes to the node with more free bytes. |
| HashRing.PreferenceWithout | dfs-common/src/hash.rs:43-83 | Removing a node changes every chunk's preference list only by erasing that node. |
| HashRing.ReplicasAfterRemoval | dfs-common/src/hash.rs:43-83 | Only chunks the node held move, and each gains exactly the next node in line. |
| HashRing.RingForgetsHistory | dfs-common/src/hash.rs:30-51 | Two histories of adds and removes that end with the same members end with the same ring, provided no two of the nodes they name share a position. |
| HashRing.AddOrderMattersOnlyOnCollision | dfs-common/src/hash.rs:30-40 | Adding two nodes in either order gives the same ring exactly when they share no position. |
| HashRing.PreferenceIsMembers | dfs-common/src/hash.rs:54-83 | The preference list is a permutation of the members. |
| HashRing.PreferenceIsClockwise | dfs-common/src/hash.rs:54-83 | Each node of the preference list has a point nearer to the chunk, clockwise and wrapping round, than every point of the nodes after it. |
| HashRing.ReplicasAreNearest | dfs-common/src/hash.rs:54-83 | If any node is passed over, a chunk gets the number of nodes asked for, at least one, and each is nearer than every node passed over. |
| HashRing.Ring.AddNode | dfs-common/src/hash.rs:30-40 | Adds the node's points over whatever was there and lists it once; points always belong to listed nodes, and the ring stays exactly theirs unless two of them collide. |
| HashRing.Ring.RemoveNode | dfs-common/src/hash.rs:43-51 | Removes the node's points and its listing; without a collision the others' points are untouched and the ring stays exact. |
| HashRing.Ring.GetNodes | dfs-common/src/hash.rs:54-83 | On any ring the early-stopping walk returns the first n of the preference list; asking for none still yields one. |
| Arbitration.ChunkLocationsForInfo | dfs-server/src/server.rs:17625-17663 | The scan keeps, per slot, the row the pairwise rule leaves after folding the slot's rows in scan order, with no generation known. |
| Arbitration.BeaterWins | dfs-server/src/server.rs:5994-6086 | A row that beats every other wins in any order. |
| Arbitration.RecencyIsLexicographic | dfs-server/src/server.rs:5994-6086 | Two different known generations decide; otherwise the causal comparison is lexicographic: write number with none lowest, then folds, then the clock. |
| Arbitration.OrderIrrelevantIff | dfs-server/src/server.rs:17625-17663 | Scan order is irrelevant exactly when one row beats every other on its own. |
| Arbitration.NewestExists | dfs-server/src/server.rs:5994-6086 | Without generations, as the scan calls it, the causal part of the rule has a newest row in every non-empty slot. |
| Arbitration.NewestWinsIff | dfs-server/src/server.rs:5994-6086 | If no two rows tie, the newest wins in every scan order exactly when it is a fold, has reached the durability floor, or is at least as replicated as every other. |
| Arbitration.PhantomWinsByOrder | dfs-server/src/server.rs:17625-17663 | A one-replica phantom beats a healthy older row in one scan order and loses in the other. |
| Arbitration.UnknownGenerationCycle | dfs-server/src/server.rs:6529-6537 | With only some generations known, three rows beat each other in a circle. |
| ReadEngine.SingleRebuildsIff | dfs-client/src/read_engine.rs:303-367 | After an accepted update the edited offset index equals a rebuilt one exactly when the location has an offset, or no size, or only trims an empty map. |
| ReadEngine.UnplacedChunkIsIndexed | dfs-client/src/read_engine.rs:303-367 | A first chunk with a size and no offset is indexed at the front of the file, while a rebuilt index gives it no bytes. |
| ReadEngine.OwnWriteGoesIn | dfs-client/src/read_engine.rs:407-455 | A confirmed write's entry with an offset, a live id and a place in the map ends up in its slot whatever the numbers say, unless a later entry of the window names the slot. |
| ReadEngine.RefreshGoesInIff | dfs-client/src/read_engine.rs:407-455 | A server refresh with the slot's own id, or with both ids live, replaces the entry exactly when its number is not below the slot's, no number counting as lowest. |
| ReadEngine.SingleGoesInIff | dfs-client/src/read_engine.rs:303-367 | A single update with the slot's own id, or with both ids live, goes in unless both are numbered and its number is lower; the other slots are left alone. |
| ReadEngine.WindowKeepsOthers | dfs-client/src/read_engine.rs:378-481 | Slots a window does not name keep their entries, but for trailing placeholders. |
| ReadEngine.ReadsOwnWrite | dfs-client/src/read_engine.rs:378-523 | After a confirmed multi-chunk write every byte of it is looked up in exactly the chunk just written, at the slot its offset gives. |
| ReadEngine.ReadsOwnSingleWrite | dfs-client/src/read_engine.rs:303-367 | The same for a single chunk, unless its number is below that of the chunk it replaces. |
| ReadEngine.RunKeepsIndexed | dfs-client/src/read_engine.rs:263-481 | Over every run whose single updates carry an offset, the index stays a rebuilt prefix of the map with nothing beyond it. |
| ReadEngine.PartitionPoint | dfs-client/src/read_engine.rs:501-523 | The binary search finds the first entry ending after the offset. |
| ReadEngine.TouchesIff | dfs-client/src/read_engine.rs:501-523 | A range meets a chunk exactly when they share a byte; an empty range, when it lies strictly inside. |
| ReadEngine.ChunksForRange | dfs-client/src/read_engine.rs:501-523 | The early-stopping query returns exactly the overlapping entries in order. |
| ReadEngine.QueryReachable | dfs-client/src/read_engine.rs:501-523 | In every state reached by well-slotted updates the query returns what the chunk map calls for. |
| ReadEngine.WantedExactly | dfs-client/src/read_engine.rs:501-523 | A read finds each overlapping chunk once, in file order, and nothing else. |
| ReadEngine.UpdatesNeverPin | dfs-client/src/read_engine.rs:196-207 | No update path puts a proven-absent id into a slot that did not hold it. |
| ReadEngine.RunNeverPins | dfs-client/src/read_engine.rs:196-481 | The same over runs. |
| ReadEngine.DeadSlotAccepts | dfs-client/src/read_engine.rs:303-367 | By the single-chunk path a slot pinned to a dead id takes any other live id, however old. |
| ReadEngine.WindowUnpins | dfs-client/src/read_engine.rs:378-481 | By the window path a pinned slot is freed by any live entry for it, and holds that entry if the window names the slot once. |
| ReadEngine.AbsentIsBounded | dfs-client/src/read_engine.rs:153-179 | The set of dead ids holds patch tokens only and never exceeds its cap. |
| ReadEngine.RunIsNewest | dfs-client/src/read_engine.rs:303-481 | While nothing is proven absent, after any run of numbered deliveries each slot holds the newest one for it. |
| ReadEngine.NewestIsHighest | dfs-client/src/read_engine.rs:303-481 | That delivery has the highest write number of all delivered. |
| ReadEngine.SeqNeverReverts | dfs-client/src/read_engine.rs:303-481 | A delivery never lowers a slot's write number while nothing is proven absent. |
| ReadEngine.DeliveriesConverge | dfs-client/src/read_engine.rs:303-481 | The same deliveries in any order and grouping leave the same map. |
| InodeReadEngine.InodeReadEngine.UpdateChunkMap | dfs-client/src/read_engine.rs:263-282 | The full refresh leaves exactly the given locations, a rebuilt index and the dead ids as they were. |
| InodeReadEngine.InodeReadEngine.UpdateSingleChunk | dfs-client/src/read_engine.rs:303-367 | The in-place edit of map and index is the single-chunk event, keeps soundness, pins no new slot, and answers whether it was accepted. |
| InodeReadEngine.InodeReadEngine.UpdateChunkMapWindow | dfs-client/src/read_engine.rs:378-481 | The window merge loop is the window event, keeps soundness and pins no new slot. Of a confirmed write every live entry is in its slot afterwards, and slots not named are kept. |
| InodeReadEngine.InodeReadEngine.MarkChunkProvenAbsent | dfs-client/src/read_engine.rs:153-179 | An id with the patch token prefix is in the set afterwards, any other changes nothing; the set keeps to tokens and its cap, and below the cap forgets none. |
| InodeReadEngine.InodeReadEngine.Query | dfs-client/src/read_engine.rs:501-523 | On a sound engine the query returns what the map calls for. |
| Framing.Be32RoundTrip | dfs-common/src/protocol.rs:17-29 | A 32-bit big-endian length decodes to itself. |
| Framing.FillPatchesRoundTrip | dfs-client/src/client.rs:7811-7817 | Dealing a shared raw payload back onto emptied patches restores them. |
| Framing.RoundTripsExactly | dfs-server/src/network.rs:427-609 | A sent message is received as itself, whatever follows on the wire, exactly when its shape is not ambiguous. |
| Framing.Arrives | dfs-server/src/network.rs:582-594 | In the fields the sender was given: the receiver gets the same ids and statistics and, as data, the data itself, all of the shared buffer, or the bytes of the requested slice, one by one; writes and patch lists arrive as they were. |
| Framing.InlineArrivesIff | dfs-server/src/network.rs:452-530 | A message sent inline survives exactly when it is not one of the three split kinds or brings some bytes of its own. |
| Framing.EmptyWriteWaits | dfs-server/src/network.rs:477-501 | An inline write of no bytes leaves its reader waiting for a payload. |
| Framing.StreamRoundTrip | dfs-server/src/network.rs:427-609 | A stream of unambiguous messages parses to those messages and ends cleanly. |
| Framing.CutStream | dfs-server/src/network.rs:427-575 | A stream that breaks off at any byte yields a prefix of the messages, and ends cleanly only if the break is between messages. |
| Framing.Connection.ReadMessage | dfs-server/src/network.rs:427-575 | The incremental reader returns what the reference parser says of all bytes still to come, and keeps exactly the bytes behind the message. |
| Framing.Connection.ReadAll | dfs-server/src/network.rs:427-575 | Reading to the end of any fragmentation gives the reference parse of the concatenation. |
| Framing.DealPatches | dfs-server/src/network.rs:427-575 | The payload walk fills each patch in turn, or fails exactly when the payload is short. |
| Framing.Deliver | dfs-server/src/network.rs:427-609 | End to end: any fragmentation of the messages' bytes is received as those messages, in order, each with what its sender was given. |
| Locks.OverlapIsSharedByte | dfs-client/src/locks.rs:46-67 | Two ranges overlap exactly when some byte is in both. |
| Locks.BlocksIff | dfs-client/src/locks.rs:46-162 | A held lock stands in the way exactly when the owners differ, they do not share a known process, one of the two is exclusive and some byte is in both. |
| Locks.ReleaseFreesOwner | dfs-client/src/locks.rs:253-275 | Releasing an owner leaves none of its locks on the inode and all others in their old number and order. |
| Locks.UnlockFreesRange | dfs-client/src/locks.rs:192-219 | An unlock drops the owner's locks that overlap the range, and keeps all others in their old number and order. |
| Locks.LockReplacesOwn | dfs-client/src/locks.rs:107-162 | A granted lock stands last, in place of the owner's locks it overlaps, the others as they were; a blocked one changes nothing. |
| Locks.ApplySound | dfs-client/src/locks.rs:107-275 | Every operation keeps: locks that share a byte are both shared, or belong to one process, and no owner holds a byte twice. |
| Locks.RunSound | dfs-client/src/locks.rs:107-275 | The same in every reachable table. |
| Locks.ExclusiveByteIsPrivate | dfs-client/src/locks.rs:74-162 | Anyone else standing on an exclusively held byte is the same known process. |
| Locks.UnlockUndoesLock | dfs-client/src/locks.rs:192-219 | A granted lock on fresh bytes followed by its unlock restores the table exactly when the start is not the last offset. |
| Locks.LockOnLastOffsetStays | dfs-client/src/locks.rs:192-219 | A lock at offset `u64::MAX` is still held after its unlock. |
| Locks.LockedBytes | dfs-client/src/fuse_impl.rs:9602-9604 | Through the FUSE entry a request locks every byte it asks for but the last, and a one-byte request locks everything from that byte on. |
| Locks.RefusedIff | dfs-client/src/fuse_impl.rs:9602-9632 | Of two competing requests the second is refused if and only if they share a byte and neither begins on the last byte of the other, or one asks for a single byte before the other. |
| Locks.AskedByteIsPrivate | dfs-client/src/fuse_impl.rs:9602-9632 | In every run, a byte asked for exclusively and not the last of its range is held by no other process for which it is not the last either. |
| Locks.LastByteIsShared | dfs-client/src/fuse_impl.rs:9602-9604 | Two processes are both granted the byte where one range ends and the other begins. |
| Locks.LockManager.TryLockRange | dfs-client/src/locks.rs:107-162 | Grants exactly when no held lock conflicts, then replaces the owner's overlapping locks. |
| Locks.LockManager.UnlockBytes | dfs-client/src/locks.rs:192-219 | Drops the owner's overlapping locks and empty inode entries, keeps the other locks in number and order, and touches no other inode. |
| Locks.LockManager.GetConflict | dfs-client/src/locks.rs:224-249 | Reports a blocking lock; none exactly when the request would be granted. |
| Locks.LockManager.ReleaseOwner | dfs-client/src/locks.rs:253-275 | Drops all of an owner's locks on the inode, keeps the others in number and order, and touches no other inode. |
| Repack.SplitFacts | dfs-admin/src/main.rs:1420-1544 | Cutting into blocks and gluing are inverse; only the last block may be short. |
| Repack.FlushBlock | dfs-admin/src/main.rs:1420-1544 | A flush keeps content, contiguity and node spread, and makes progress. |
| Repack.HandleRepack | dfs-admin/src/main.rs:1414-1544 | The loop writes exactly the split of the concatenated chunks, at contiguous offsets covering the file; the recorded ids and sizes are those the nodes reported, block by block, on the next two listed nodes in turn; it aborts on any failed read or write. |
| UsableCapacity.CalculateUsableCapacity | dfs-common/src/storage_stats.rs:13-55 | The in-place, value-matching loop returns the reference answer modulo the u64 range. |
| UsableCapacity.SwapIsRound | dfs-common/src/storage_stats.rs:39-51 | Subtracting by value match takes from RF distinct nodes, as a multiset. |
| UsableCapacity.UsableOrderIndependent | dfs-common/src/storage_stats.rs:13-55 | Node order and exhausted nodes do not matter. |
| UsableCapacity.UsableIsFeasible | dfs-common/src/storage_stats.rs:13-55 | RF copies of the answer fit under the per-node cap. |
| UsableCapacity.UsableConserves | dfs-common/src/storage_stats.rs:13-55 | RF times the answer plus what is left equals what was there. |
| UsableCapacity.NoWrap | dfs-common/src/storage_stats.rs:36-37 | The u64 total is exact unless the raw bytes reach RF times the u64 range. |
| CapacityPlacement.StorableIff | dfs-common/src/storage_stats.rs:13-55 | t bytes can be placed with each byte on RF different nodes and no node overfilled if and only if RF copies fit with no node counted for more than t. |
| CapacityPlacement.StorableByCapacities | dfs-common/src/storage_stats.rs:13-55 | t bytes can be stored if and only if for every k below RF the nodes other than the k largest have room for RF - k copies of them. |
| CapacityPlacement.MostThatFits | dfs-common/src/storage_stats.rs:13-55 | The most that fits, in the capacities alone: the least, over k below RF, of what the nodes other than the k largest hold, divided by RF - k. |
| CapacityPlacement.UsableIsStorable | dfs-common/src/storage_stats.rs:13-55 | The greedy answer can be placed. |
| CapacityPlacement.UsableIsOptimalIff | dfs-common/src/storage_stats.rs:4-55 | The greedy answer is the most that any placement stores if and only if one more byte fails the capped-sum test. |
| CapacityPlacement.GreedyReachesBoundIff | dfs-common/src/storage_stats.rs:4-55 | The greedy answer never exceeds that bound and is the most that fits if and only if it reaches it. |
| CapacityPlacement.GapIsStranded | dfs-common/src/storage_stats.rs:13-55 | No placement beats the greedy answer by more than the bytes it leaves stranded, divided by RF. |
| CapacityPlacement.LittleStrandedIsOptimal | dfs-common/src/storage_stats.rs:13-55 | With fewer than RF bytes stranded the greedy answer is the most that fits. |
| CapacityPlacement.OneCopyIsOptimal | dfs-common/src/storage_stats.rs:13-55 | With RF 1 the answer is the whole capacity and is the most that fits. |
| CapacityPlacement.FewNodesIsOptimal | dfs-common/src/storage_stats.rs:13-55 | With at most RF nodes that have room the answer is the most that fits. |
| CapacityPlacement.UsableIsNotOptimal | dfs-common/src/storage_stats.rs:4-7 | Three nodes of 100 at RF 2 give 100, although 150 can be stored. |
| CapacityPlacement.DocumentedClusterHoldsMore | dfs-common/src/storage_stats.rs:9-12 | Nodes of 100, 100, 100 and 10 at RF 3 give 100, although 103 can be stored. |

## Left out

- PatchSlot.InOrderHoldsAll: the condition on arrivals is sufficient, not necessary; `AlwaysRightIff` has the exact condition, which also looks at the bytes.
- PatchAccumulator.Accumulator.MergePatch: the name a merge gives its file is a parameter; what later merges make of a delta that was torn inside a record is not modelled, nor are crashes between its steps; offsets near the end of the 64-bit range are not treated.
- ClusterManager.ClusterManager.HandleContact: taken as uninterrupted; what may come between its two calls is in `Membership.InterruptedContactIff`.
- ClusterManager.ClusterManager.CheckFailedNodes: a failure timeout of zero, for which the code divides by zero, is not treated.
- Quorum.KnownSizeCoversPeak: assumes the size file can be written; a failed write is modelled in the steps but not promised anything.
- Quorum.RestartRecallsIff: a node has one address; the size file can be written after it is loaded.
- HashRing.RingForgetsHistory: assumes no two nodes of the two histories share a ring position; `AddOrderMattersOnlyOnCollision` shows that this is needed.
- CompactionRuns.WinsNeverOverlap: one clock for all nodes; the delivery bound is an assumption at each decision, and how long the compaction itself takes is not modelled.
- Framing.StreamRoundTrip: the serializer is a parameter assumed to invert itself, and lengths are assumed to fit 32 bits.
- ReadEngine.RunKeepsSound: the sum of an offset and a size is not checked for 64-bit overflow.
- Detector.FailureNeedsEvidence: assumes the records handed to `add_node` say Online, as a peer describes itself.
- ReadEngine.RunIsNewest: numbered deliveries and server refreshes only; the write path's own merge and proven-absent ids are covered by `UpdatesNeverPin`, `DeadSlotAccepts` and `WindowUnpins`.
- The check that a patch addresses the slot's current token, which comes before the merge, and the fold protocol between replicas.
- Healing, scrubbing, the metadata store, FUSE operations other than locking and the administration commands other than repack.
- The directory walk of the chunk index is one step; in the code other operations may run during it.
- The non-coalesced durability path, which flushes each file on its own.
- TCP errors, timeouts, connection pools and back-pressure.
- Refresh bookkeeping of the read engine: time-to-live, known size, window bounds and lookahead.
- Waiting for a lock, and splitting a range on a partial unlock, which the code does not do either.
- BLAKE3, bincode, floating-point sampling keys and syncfs are parameters.
- A window merge is one step; in the code readers may see the old snapshot while it runs.
- Chunk caches, statistics, notifications, leave reasons and logging.
