# A verified model of LSFS

LSFS is a replicated, versioned key-value store with a gossip overlay and a file layer on top.
This project models its hard parts in Dafny and proves what they promise over every input, every
message sequence or every run.

- **Versions and replicas.** Version vectors form a join semilattice (`Versions`). A replica keeps
  a sibling list per file key (`Siblings`) and one merged entry per directory key (`DirMetadata`,
  `Directories`). `Store` is the peer's store, `Handlers` its write handlers.
- **The write protocol.** `Protocol` is a state machine over all clients and peers: issue,
  retransmission, delivery in any order and any number of times, forwarding, anti-entropy
  transfers, replies, return and timeout. `Freshness` proves that no two writes share a vector,
  `Durability` that an acknowledged write stays stored by every peer that was counted, unless the
  write was retransmitted and the peer had refused it, `Completion` that a write delivered to peers
  which can store it collects their replies and returns, `Convergence` that peers which cover all
  writes of a key agree, that an anti-entropy exchange makes a peer cover what the other covers and
  that reads return the bytes written, `EndToEnd` that a read hearing from an intersecting quorum of
  the slice finds an acknowledged write. `ClientWrites` proves the client's operations to be the
  client steps of the protocol.
- **Reads.** `ReadHandlers` is a peer's side of a read, `ClientReads` the client's choice among
  replied versions. `Flood` proves that forwarding of writes and reads stops.
- **The overlay.** `Groups`, `GroupConstruction` and `LoadBalancer` split and merge groups of peers
  in powers of two; `PeerSampling` is the bounded view exchange; `Slices` routes keys.
- **The file layer.** `FileBlocks` refines a byte sequence, `CompositeKeys` and `Reassembly` cover
  metadata sent in blocks under printed keys, `DirCache` is the LRU directory cache.

`dafny verify dfyconfig.toml` checks the whole project.

## How the source is represented

- A message handler or a client call is one atomic step. Messages may be lost, repeated, delayed and
  reordered; random choices (reply chance, shuffles, targets) are free choices.
- LevelDB operations succeed, and a value read is the value written: serialization is the identity.
  A directory's bytes are its metadata, so a put carries either bytes or metadata; where bytes are
  reassembled, deserialization is a function given from outside.
- Client and peer ids are wrapped integers. Clocks are unbounded. Positions are reals. The 64-bit
  wrap-around of the slice walk is written out.
- Loops over ordered or unordered maps take the entries in any order, except where the printed form
  depends on the order of client ids.
- An iterator into the list of the directory cache is represented by the node it leads to; a write
  through it changes the list and the index together.
- The parallel limits of the block layer are positive multiples of the block size, as
  lsfs/fuse_lsfs/util.cpp:106-107 demands of the configuration.
- The seen log with its periodic emptying is modelled; the runs of `Protocol` include the emptying,
  `Flood` excludes it.

Where the code and its comments disagree the code is followed:
`verify_if_version_exists_db` answers true when the asked version is above the stored one
(df_store/kv_store_leveldb.h:595-604), against its comment at line 581.

Stronger claims that the code does not meet are shown by a concrete input, and an exact condition
says when they hold:

- dominated siblings: `DominatedSiblingCanRemain`, with `PlacedAntichainIff` and
  `AlwaysAntichainIff` for the list and `DominatedIff` for one version in it;
- dominated read results: `SelectionCanBeDominated`, with `SelectionIsMaximalIff`;
- read results that depend on the order of replies: `OrderCanMatter`, with `ChainOrderIff` and
  `ConcurrentOrderIff`;
- lost priority removals: `PriorityRemovalCanBeLost`, with `PriorityRemovalIff`;
- order-dependent directory merges: `SameClientWritesCanDiverge` and `StoredEntryCanDiverge`, with
  `TwoWritesFromAnyStartIff` and `TwoDirectoryPutsConvergeIff`;
- untruthful retry replies: `RetriedChildCanBeAckedUncovered` and `RetriedPutCanBeAckedUncovered`,
  with `RetryIsTruthfulIff`;
- dropped block tails: `TailCanBeDropped`, with `WriteRefinesBytesIff`;
- unaligned reads: `UnalignedReadCanBeWrong`, with `ReadIsExactIff`;
- mixed-up senders: `SendersCanBeConfused`, with `MixturesAreWholeIff`;
- hashes that no slice takes: `LastHashIsNotRouted`, with `WalkReachesIff`.

## Model

| member | source | states |
|---|---|---|
| `Versions.CompVersion` | df_util/util.cpp:120-159 | the flags, the counter and the sizes decide exactly the order in which a vector is below another when the other knows all its clients with clocks no smaller |
| `Versions.CompareByCounting` | df_util/util.cpp:151-158 | the three flags, the counter and the sizes decide equality and the order in both directions |
| `Versions.CompareIsDual` | df_util/util.cpp:120-159 | comparing the other way round swaps Lower and Bigger |
| `Versions.VersionEquals` | df_store/kv_store_value/kv_store_version.h:30-43 | equality holds exactly when the versions are the same, that is Equal vectors and equal client ids |
| `Versions.MergeKv` | df_util/util.cpp:161-177 | yields the join of the vectors with the smaller client id |
| `Versions.JoinIsLub` | df_util/util.cpp:161-177 | the join is the least upper bound of the two vectors |
| `Versions.AddVv` | df_util/util.cpp:179-183 | joins one clock entry into the base and keeps the smaller of the base's client id and the default |
| `Versions.IssuedIsFresh` | df_client/client.cpp:145-148 | a version issued with an unseen clock is strictly above its base and not below anything that has not seen that clock |
| `Versions.Clock.IncrementAndGet` | df_client/clock_vv.h:24-26 | returns the clock after adding one |
| `Siblings.Place` | df_store/kv_store_leveldb.h:292-305 | the loop with its early break and its count replaces the first dominated sibling, appends when all are concurrent, and otherwise changes nothing |
| `Siblings.PlacedCovers` | df_store/kv_store_leveldb.h:292-305 | after a put some sibling is at or above the written version |
| `Siblings.PlacedKeepsCover` | df_store/kv_store_leveldb.h:292-305 | whatever was covered before the put is covered after it |
| `Siblings.PlacedAntichainIff` | df_store/kv_store_leveldb.h:294-302 | a put keeps the list free of dominated siblings exactly when it dominates at most one of them |
| `Siblings.AlwaysAntichainIff` | df_store/kv_store_leveldb.h:294-302 | over a whole history the list stays free of dominated siblings exactly when no put dominates two of the siblings it finds |
| `Siblings.DominatedSiblingCanRemain` | df_store/kv_store_leveldb.h:296-299 | a concrete list and write after which one sibling dominates another |
| `Siblings.DominatedIff` | df_store/kv_store_leveldb.h:294-302 | a stored version is dominated by some write exactly when a put left it behind: one that dominated it but broke off at an earlier sibling, or its own put going past a sibling above it |
| `Siblings.SiblingsRefineHistory` | df_store/kv_store_leveldb.h:277-320 | after any sequence of puts only written entries are stored and every written version is covered |
| `Siblings.FrontierIsKept` | df_store/kv_store_leveldb.h:277-320 | the maximal vectors of the list are the maximal vectors of all writes |
| `Siblings.SameWritesSameFrontier` | df_store/kv_store_leveldb.h:277-320 | replicas with the same writes in any order and multiplicity keep the same maximal vectors |
| `DirMetadata.MetadataChilds.AddChild` | lsfs/fuse_lsfs/metadata/metadata_childs.cpp:6-14 | the child is present, logged as added, whether or not it was there |
| `DirMetadata.MetadataChilds.RemoveChild` | lsfs/fuse_lsfs/metadata/metadata_childs.cpp:16-21 | a known child is logged as removed and keeps its type, an unknown one changes nothing |
| `DirMetadata.MetadataChilds.ResetAddRemoveLog` | lsfs/fuse_lsfs/metadata/metadata_childs.cpp:23-38 | removed children are gone and all others are unlogged with their type |
| `DirMetadata.MetadataChilds.IsEmpty` | lsfs/fuse_lsfs/metadata/metadata_childs.cpp:46-56 | true exactly when no child would survive a reset of the log |
| `DirMetadata.MergePasses` | lsfs/fuse_lsfs/storage_specific.cpp:14-45 | the two passes over the maps equal one decision per child from the pair of its entries |
| `DirMetadata.MergedIff` | lsfs/fuse_lsfs/storage_specific.cpp:14-45 | a child is in the merge exactly if the priority side added it, holds it unchanged and the other has not removed it, removed it and the other holds it unchanged, or does not know it and the other holds it; its type is that of the side it comes from |
| `DirMetadata.MergeMetadata` | lsfs/fuse_lsfs/storage_specific.cpp:10-63 | the merge applies the decision to every child, unlogs the survivors, keeps the priority side's attributes and takes the later of each timestamp, by seconds and then nanoseconds |
| `DirMetadata.MergeAppliesLog` | lsfs/fuse_lsfs/storage_specific.cpp:47-49 | survivors carry no pending change and merging a directory with itself only applies its log |
| `DirMetadata.PriorityRemovalIff` | lsfs/fuse_lsfs/storage_specific.cpp:22-30 | a removal on the priority side takes effect exactly when the other side does not hold the child as unchanged |
| `DirMetadata.PriorityRemovalCanBeLost` | lsfs/fuse_lsfs/storage_specific.cpp:27-30 | a concrete pair of child logs in which a removal by the priority side is undone |
| `DirMetadata.MergeCommutesIff` | lsfs/fuse_lsfs/storage_specific.cpp:10-63 | both priorities give the same directory exactly when the sides agree on every child they share and on the attributes other than timestamps |
| `Directories.AppliedJoins` | df_store/kv_store_leveldb.h:355-373 | every directory write moves the stored vector to its join with the write's vector |
| `Directories.ChildWriteEdits` | df_store/kv_store_leveldb.h:762-804 | after a child write that is not at or below the stored version a created child is there as added with the given type, a removed one that was known is there as removed with its type, and every other child, the attributes and, but for the join, the version are unchanged; any other child write changes nothing |
| `Directories.DirWriteMerges` | df_store/kv_store_leveldb.h:344-388 | a newer directory write replaces the entry, an older or equal one changes nothing, and of two concurrent ones that of the smaller client has priority |
| `Directories.VectorIsJoinOfWrites` | df_store/kv_store_leveldb.h:336-392 | after any interleaving, reordering or repetition of directory and child writes the stored vector is the least upper bound of all of them |
| `Directories.DirectoryVectorsConverge` | df_store/kv_store_leveldb.h:762-804 | replicas that applied the same set of vectors agree on the stored vector |
| `Directories.TwoWritesConvergeIff` | df_store/kv_store_leveldb.h:355-373 | two writes in opposite orders end in the same vector, client id and data exactly when they are ordered, identical, or concurrent with different clients or nothing to disagree about |
| `Directories.TwoWritesFromAnyStartIff` | df_store/kv_store_leveldb.h:344-388 | from any stored entry two writes in opposite orders end in the same entry exactly when one is already covered, or the entry is below both and the condition on the two writes holds, or client id, attributes and every child fare the same both ways |
| `Directories.ConvergeIffFatesAgree` | df_store/kv_store_leveldb.h:355-373 | the entries after both orders are equal exactly when client id, attributes and each child, followed through the two effects, are |
| `Directories.IndependentConvergeIff` | df_store/kv_store_leveldb.h:355-373 | independent writes of three clients converge exactly when every child fares the same in both orders; client id and attributes never disagree |
| `Directories.IndependentAddsConverge` | lsfs/fuse_lsfs/storage_specific.cpp:10-63 | which they do as long as no child is logged as removed |
| `Directories.SameClientWritesCanDiverge` | df_store/kv_store_leveldb.h:355-373 | a concrete pair of concurrent writes of one client whose order matters |
| `Directories.StoredEntryCanDiverge` | df_store/kv_store_leveldb.h:355-373 | a concrete stored entry and two writes of different clients whose order matters on it, though not on an absent key |
| `Store.KvStore.Put` | df_store/kv_store_leveldb.h:267-325 | logs the request, and in its own slice stores a file in the sibling list or merges a directory, refusing a key of the other type |
| `Store.KvStore.PutWithMerge` | df_store/kv_store_leveldb.h:336-392 | replaces a lower entry, skips a lower or equal write, merges a concurrent one with the smaller client id having priority |
| `Store.KvStore.PutMetadataChild` | df_store/kv_store_leveldb.h:762-804 | unless the write is at or below the stored version, a created child is stored as added with the given type and a removed one that was known as removed with its type, every other child and the attributes stay, and the versions are joined; fails exactly without a directory |
| `Store.KvStore.UpdatePartition` | df_store/kv_store_leveldb.h:190-199 | takes over slice and slice count and empties the log only when the count changes, never touching the data |
| `Store.KvStore.SeenIt` | df_store/kv_store.h:155-163 | the key is logged, after emptying the log on every garbage-collection count |
| `Store.LogHoldsLatest` | df_store/kv_store.h:155-163 | a log holds exactly the latest requests: those since the last emptying and the one that emptied it |
| `Store.KvStore.GetLatestVersion` | df_store/kv_store_leveldb.h:707-731 | all stored versions of the key, in order, or nothing for an unknown key |
| `Store.KvStore.GetData` | df_store/kv_store_leveldb.h:635-659 | the payload of the first stored sibling with exactly the asked version, or the metadata of a directory with exactly that version, and nothing if there is none |
| `Store.DataIsFirstStored` | df_store/kv_store_leveldb.h:642-657 | what is found under a version is exactly the payload of the first value stored with it |
| `Store.PutThenGetIff` | df_store/kv_store_leveldb.h:267-325 | after a put a read of its version gives what was put exactly if the put landed in the store or the read gave that before, and always if the put is what brought the version in |
| `Store.KvStore.LogReq` | df_store/kv_store.h:236-243 | the read request is logged, after emptying the log on every garbage-collection count |
| `Store.KvStore.VerifyIfVersionExists` | df_store/kv_store_leveldb.h:583-610 | true exactly when some stored version is at or below the asked one |
| `Store.PutCovers` | df_store/kv_store_leveldb.h:267-392 | a put that succeeds leaves a version at or above the written one |
| `Store.PutAccepted` | df_store/kv_store_leveldb.h:281-291 | a put is refused exactly where the key holds a value of the other type, changes no other key, and refused changes nothing |
| `Store.ChildCovers` | df_store/kv_store_leveldb.h:762-804 | a child write that succeeds leaves a version at or above the written one |
| `Store.ChildDbEdits` | df_store/kv_store_leveldb.h:774-796 | the stored entry after a child write, child by child |
| `Store.ChildAccepted` | df_store/kv_store_leveldb.h:762-775 | a child write is refused exactly where there is no directory, changes no other key, and refused changes nothing |
| `Store.PutKeepsCover` | df_store/kv_store_leveldb.h:267-392 | a put of any key and type uncovers nothing |
| `Store.ChildKeepsCover` | df_store/kv_store_leveldb.h:762-804 | a child write uncovers nothing |
| `Store.TwoDirectoryPutsConvergeIff` | df_store/kv_store_leveldb.h:344-388 | on any database two directory puts give the same answer and the same database in both orders exactly under the condition for what the key holds: nothing, a file, or an entry |
| `Handlers.DataHandler.ProcessPutMessage` | df_data_handlers/data_handler_listener.cpp:287-342 | a new request is stored if the peer is of the slice and can store it, then answered exactly if the group has not answered it or the draw is lucky, and passed on to the slice marked as answered; otherwise it goes to the decider; a seen one is dropped, or on retransmission answered if the store claims the version |
| `Handlers.DataHandler.ProcessPutChildMessage` | df_data_handlers/data_handler_listener.cpp:451-501 | the same for child writes, which can be stored exactly where there is a directory |
| `Handlers.FirstAnswerIff` | df_data_handlers/data_handler_listener.cpp:287-321 | a request not seen before is answered exactly if the peer is of the slice and can store it, and the group has not answered it or the draw is lucky; database, log and the message passed on follow |
| `Handlers.LoggedAnswerIff` | df_data_handlers/data_handler_listener.cpp:322-342 | a seen request is answered exactly if it is retransmitted, for the own slice, at or above a stored version, and the group has not answered it or the draw is lucky; it changes nothing |
| `Handlers.HandleKeepsCover` | df_data_handlers/data_handler_listener.cpp:287-321 | no handled message uncovers anything at the peer |
| `Handlers.FirstReplyIsTruthful` | df_data_handlers/data_handler_listener.cpp:301-311 | a reply to a first transmission means the peer covers the version |
| `Handlers.RetryIsTruthfulIff` | df_data_handlers/data_handler_listener.cpp:481-493 | a logged write is acknowledged on retransmission only if it is equal to or bigger than a stored version, of whatever type, and truthfully exactly if it is equal to or lower than one; for a directory that leaves equality |
| `Handlers.RetriedChildCanBeAckedUncovered` | df_data_handlers/data_handler_listener.cpp:481-493 | a concrete run in which a retransmitted child write is acknowledged by a peer that does not have it |
| `Handlers.RetriedPutCanBeAckedUncovered` | df_store/kv_store_leveldb.h:593-607 | a concrete run in which a directory put on the key of a file is refused and its retransmission acknowledged |
| `ReadHandlers.ReadHandler.ProcessGetMessage` | df_data_handlers/data_handler_listener.cpp:81-172 | a new request is logged and answered with the payload of the first value stored under the version unless the group already answered and the draw fails, and passed on to the own group, to others, or by a peer outside the slice not at all; a logged one is dropped |
| `ReadHandlers.ReadHandler.ProcessGetLatestVersionMessage` | df_data_handlers/data_handler_listener.cpp:175-259 | the same for the latest versions, which a peer of the slice always answers |
| `ReadHandlers.ReadAnswerIff` | df_data_handlers/data_handler_listener.cpp:81-172 | a new read is answered exactly if the peer can, and the group has not answered it or the draw is lucky; where it goes next follows from that and the slice |
| `ReadHandlers.DataAnswerIsStored` | df_data_handlers/data_handler_listener.cpp:112-129 | the payload answered is that of the first value stored under the version |
| `ReadHandlers.LatestAnswerIsComplete` | df_data_handlers/data_handler_listener.cpp:196-216 | only peers of the key's slice answer, and with all versions they store |
| `Freshness.IssueIsFresh` | df_client/client.cpp:145-148 | an issued version is strictly above its base and not at or below any vector bounded by the clocks |
| `Freshness.FreshnessOverRuns` | df_client/client.cpp:198-201 | in every run all vectors in circulation stay within the clocks, messages trace back to issued writes, and no later write is at or below an earlier one |
| `Freshness.WritesHaveDistinctVectors` | df_client/client.cpp:564-568 | no two writes of a run carry the same vector |
| `Freshness.RegistrationNeverCollides` | df_client/client_reply_handler.cpp:11-26 | the exception for a key registered twice is unreachable |
| `Durability.ReplyIsTruthful` | df_data_handlers/data_handler_listener.cpp:322-335 | a reply, also to a retransmission, comes from a peer of the key's slice that covers the version or had refused the write before |
| `Durability.StepKeepsCovered` | df_store/kv_store_leveldb.h:267-392 | no step of the protocol takes a covered version away from a peer |
| `Durability.SafetyOverRuns` | df_data_handlers/data_handler_listener.cpp:287-342 | in every run replies, pending counts and acknowledgements name only peers of the key's slice that cover the version or refused it, and so do the seen logs |
| `Durability.QuorumDurabilityWithoutResend` | df_client/client.cpp:145-183 | when a write of any kind has returned without retransmission, at least the awaited number of distinct peers of the slice cover it, then and after any continuation of the run |
| `Durability.QuorumDurability` | df_client/client.cpp:564-608 | for retransmitted writes the same holds of every counted peer that did not refuse the write when it handled it |
| `Durability.PutsAreNeverRefused` | df_store/kv_store_leveldb.h:281-320 | on a key used with one file type no peer refuses a whole put, so everyone counted for it stores it |
| `Durability.HoldersNeverRefuse` | df_store/kv_store_leveldb.h:762-804 | a peer that holds the directory refuses no further write of it in any continuation of the run |
| `Completion.DeliveriesAreAnswered` | df_data_handlers/data_handler_listener.cpp:287-321 | from any reached state, every delivery to different peers of the slice that accept the write, by storing it or on retransmission by the version they store, puts their reply into the network |
| `Completion.AnswersAreCounted` | df_client/client_reply_handler.cpp:1034-1050 | those replies are counted, each peer once and nobody else |
| `Completion.AnsweredWriteReturns` | df_client/client_reply_handler.cpp:57-81 | so after the delivery of a pending write to that many peers and of their replies the return is enabled, with exactly these peers counted in addition |
| `Completion.SeenBoundedOverRuns` | df_store/kv_store.h:155-163 | in every run no peer has logged a write that is not yet issued |
| `Completion.IssuedWriteReturns` | df_client/client.cpp:145-183 | in every run a write can be issued, delivered to any different peers of the slice that can store it, and return with exactly these peers as repliers, whatever the draws |
| `Completion.ReadVersionCanBeOverwritten` | lsfs/fuse_lsfs/lsfs_state.cpp:161-170 | in every run a write can be based on any version read from a peer; it is strictly above it and not at or below any version stored anywhere |
| `Completion.ResentWriteReturns` | df_client/client.cpp:154-177 | from any reached state a pending write can be sent again and return with the peers counted so far and those that accept it: that can store it, or have seen it and store a version at or below it |
| `Convergence.TracedOverRuns` | df_store/kv_store_leveldb.h:281-320 | in every run each file sibling is an issued write and each directory vector is below every upper bound of the issued ones |
| `Convergence.CaughtUpFile` | df_store/kv_store_leveldb.h:277-320 | in every run the maximal vectors of a file at a peer that covers all writes of the key are the maximal vectors of those writes |
| `Convergence.CaughtUpDirectory` | df_store/kv_store_leveldb.h:336-392 | in every run the vector of a directory at such a peer is the join of all writes of the key |
| `Convergence.CaughtUpPeersAgree` | df_store/kv_store_leveldb.h:762-804 | so two such peers agree on frontier or vector |
| `Convergence.AntiEntropyCatchesUp` | df_data_handlers/data_handler_listener.cpp:1021-1050 | in every run, after one peer has sent its entries of a key by anti-entropy, a peer of the slice that can store them covers all that the sender covered |
| `Convergence.StoredDataWasIssued` | df_store/kv_store_leveldb.h:653-655 | in every run the bytes found under a version of a file are those of an issued put of this key and version |
| `Convergence.ReadReturnsWrittenBytes` | df_store/kv_store_leveldb.h:653-655 | so whichever peer has the version of an issued file put has the bytes of that put under it |
| `ClientWrites.Client.NewVersion` | df_client/client.cpp:146-148 | advances the clock and returns the issued version, strictly above a base that respects the clock |
| `ClientWrites.OthersLeaveAlone` | df_client/client_reply_handler.cpp:1019-1051 | no step that is not this client's touches its clock or its reply table |
| `ClientWrites.Client.StartPut` | df_client/client.cpp:564-572 | in every run, registering a fresh version never fails, the request carries the key, the content and the client's own id, and it is the issue step of the protocol on the client's part of the state |
| `ClientWrites.Client.ProcessPutReply` | df_client/client_reply_handler.cpp:1034-1050 | taking in a reply from the network is the reply step of the protocol on the client's part of the state |
| `ClientWrites.Client.CompletePut` | df_client/client_reply_handler.cpp:57-81 | succeeds exactly when the return step of the protocol is enabled and then is that step, and every counted peer answers for the key and covers the write, or refused it and the write was sent again |
| `ClientWrites.Client.ClearPutEntries` | df_client/client_reply_handler.cpp:142-155 | forgets exactly the given keys, which are the abandon steps of the protocol |
| `ClientReads.FoldReplies` | df_client/client_reply_handler.cpp:698-723 | the nested loops keep what the sibling loop keeps of the versions no replied delete dominates |
| `ClientReads.ChooseLatestVersion` | df_util/util.cpp:188-197 | the first version of the smallest client id below the default's |
| `ClientReads.WaitForGetLatest` | df_client/client_reply_handler.cpp:695-745 | Ok with the selected version and its data, Deleted exactly when there are deletes and every replied version is at or below one, NoData otherwise |
| `ClientReads.CandidatesCoverReplies` | df_client/client_reply_handler.cpp:700-723 | the candidates are replied and not at or below a replied delete, and cover every such version |
| `ClientReads.ChainSelectsGreatest` | df_client/client_reply_handler.cpp:725-729 | if the live versions form a chain the greatest is selected |
| `ClientReads.ConcurrentSelectsSmallestClient` | df_client/client_reply_handler.cpp:725-729 | if they are pairwise concurrent the one of the smallest client is selected |
| `ClientReads.SelectionIsMaximalIff` | df_client/client_reply_handler.cpp:700-729 | no live reply dominates the selected version exactly when no reply that the fold placed left the selected one behind at its break |
| `ClientReads.MaximalSmallestSelectsMaximal` | df_client/client_reply_handler.cpp:712-729 | in every iteration order, if the live replies of the smallest client are maximal and share their vectors with nobody, one of them is selected and nothing dominates it |
| `ClientReads.ChainOrderIff` | df_client/client_reply_handler.cpp:484-527 | among comparable live replies the iteration order is irrelevant exactly when one version alone has the greatest vector |
| `ClientReads.ConcurrentOrderIff` | df_client/client_reply_handler.cpp:695-745 | among pairwise concurrent live replies the iteration order is irrelevant exactly when the smallest client wrote only one of them |
| `ClientReads.OrderCanMatter` | df_util/util.cpp:188-197 | two concurrent versions of one client between which the order decides |
| `ClientReads.SelectionCanBeDominated` | df_client/client_reply_handler.cpp:712-727 | concrete replies for which a dominated version is selected |
| `EndToEnd.QuorumReadSeesHeldWrite` | df_client/client_reply_handler.cpp:657-765 | a read answered by peers that with the holders of a write exceed the key's slice has the write or a newer one among its candidates, and returns such a version when the replies form a chain |
| `EndToEnd.QuorumReadSeesAckedWrite` | df_client/client.cpp:145-183 | for an acknowledged write of any kind that was not retransmitted, the number of replies it waited for and the number of readers exceeding the slice is enough |
| `EndToEnd.QuorumReadSeesAckedPut` | df_client/client.cpp:145-183 | the same for a whole put on a key of one file type, retransmitted or not |
| `EndToEnd.QuorumReadSeesResentWrite` | df_client/client.cpp:575-590 | for any other retransmitted write the counted peers that did not refuse it take the place of all |
| `EndToEnd.AnsweredPayloadWasIssued` | df_data_handlers/data_handler_listener.cpp:112-129 | in every run each file payload answered to a read of a key and version is that of an issued put of this key and version |
| `EndToEnd.StoreRefinesHistories` | df_store/kv_store_leveldb.h:267-325 | after file puts on many keys each key holds exactly the sibling list of its own history |
| `EndToEnd.ReplicasAgreeOnFrontier` | df_store/kv_store_leveldb.h:277-320 | replicas with the same puts on a key keep the same maximal vectors whatever else they stored |
| `EndToEnd.RoutedPeerIsResponsible` | df_loadbalancing/smart_load_balancer.cpp:528-567 | a client and a peer with the same group count agree: every peer of the slot a key is routed to answers for that key |
| `Flood.DeliveryDecreases` | df_data_handlers/data_handler_listener.cpp:91-172 | each delivery of a write or a read shrinks the pairs of peer and unseen request, or leaves them and shrinks the messages in flight |
| `Flood.FloodTerminates` | df_data_handlers/data_handler_listener.cpp:65-79 | a run of writes and reads delivers at most the messages in flight plus the fan-out for every unseen pair |
| `Flood.ForwardsAtMostOnce` | df_data_handlers/data_handler_listener.cpp:287-321 | after handling a request a peer never sends it on again |
| `Flood.QuiescentFloodIsClosed` | df_data_handlers/data_handler_listener.cpp:186-259 | when nothing is in flight, everyone in the view of a peer that saw a write or a query for the latest versions has seen it |
| `Groups.GroupInRange` | df_core/group_construction.cpp:82-88 | a position in the unit interval has a group between 1 and the group count |
| `Groups.GroupSplits` | df_core/group_construction.cpp:82-88 | doubling the group count splits each group in two neighbours |
| `Groups.AddReceived` | df_core/group_construction.cpp:246-263 | wanted peers are inserted or replace an older entry, all others are returned as not added |
| `Groups.AddedEntries` | df_core/group_construction.cpp:246-263 | exactly the peers held and the wanted ones are in, each with an entry that was held or received, and no younger one was |
| `Groups.IncorporateLocalPeers` | df_core/group_construction.cpp:90-104 | wanted peers are inserted or refresh the age of a known one |
| `Groups.RefreshedEntries` | df_core/group_construction.cpp:90-104 | exactly the peers held and the wanted ones are in with their youngest age, and a known peer keeps its other data |
| `Groups.CleanLocalView` | df_core/group_construction.cpp:139-155 | exactly the members of the group that are not too old remain, and those of other groups are returned |
| `Groups.MaxSlicesOf` | df_core/group_construction.cpp:173-179 | the largest advertised group count, at least one |
| `Groups.MaxSlicesIsMax` | df_core/group_construction.cpp:173-179 | it is at least one, at least every advertised count, and one of them |
| `GroupConstruction.GroupConstruction.RecoverLocalView` | df_core/group_construction.cpp:169-220 | adopts the largest advertised count unless this peer sustains more, with view, recovery flag and request exactly as decided, and keeps the invariant |
| `GroupConstruction.GroupConstruction.ReceiveLocalMessage` | df_core/group_construction.cpp:106-114 | refreshes the local view, or recovers, and keeps the invariant |
| `GroupConstruction.GroupConstruction.ReceiveMessage` | df_core/group_construction.cpp:232-310 | ages, adds and cleans; doubles the count exactly if there are more than the maximum of members, halves it exactly if there are fewer than the minimum and more than one group, and otherwise keeps it; readmits the left-out peers that now match without replacing anyone, and keeps the invariant |
| `GroupConstruction.NextGroupsIff` | df_core/group_construction.cpp:282-293 | when the count doubles, halves and stays |
| `GroupConstruction.KeptEntries` | df_core/group_construction.cpp:232-280 | who is kept when the view has been aged, added to and cleaned: members that are not too old, with one of the youngest entries offered |
| `GroupConstruction.GroupConstruction.Run` | df_core/group_construction.cpp:232-310 | over every message sequence the count is a power of two, own group and store partition follow from it, self is absent and every member shares the group at half granularity |
| `LoadBalancer.InsertWithOrder` | df_loadbalancing/smart_load_balancer.cpp:127-150 | keeps the slot sorted with unique ids, replaces an older entry of the peer, and leaves a slot that has a younger one |
| `LoadBalancer.SplitGroups` | df_loadbalancing/smart_load_balancer.cpp:297-317 | loses no peer and puts each in the slot of its finer group |
| `LoadBalancer.MergeGroups` | df_loadbalancing/smart_load_balancer.cpp:283-295 | joins neighbouring slots within the cap, and every peer stays represented by an entry at least as young, or its slot is full of entries no older |
| `LoadBalancer.IncorporatePeers` | df_loadbalancing/smart_load_balancer.cpp:186-203 | every entry was held or received, is below the age limit and every slot is within the cap, and a held or received peer is missing only because of its age or because its slot is full |
| `LoadBalancer.Reconfigure` | df_loadbalancing/smart_load_balancer.cpp:205-225 | terminates with one slot per group, holding only what the view held, and drops a peer only from a slot that is full of entries no older |
| `LoadBalancer.SmartLoadBalancer.RecoverLocalView` | df_loadbalancing/smart_load_balancer.cpp:227-281 | adopts a group count as decided, with view and local view following, every entry held or received and nobody below the age limit dropped whose slot has room, and keeps the invariant |
| `LoadBalancer.SmartLoadBalancer.ReceiveMessage` | df_loadbalancing/smart_load_balancer.cpp:319-415 | the count doubles, halves or stays as above; every entry of a slot is received or an aged entry of the old view; every received peer and every aged old one below the age limit whose slot has room is represented there, whether or not the count changes; and the invariant holds |
| `LoadBalancer.SmartLoadBalancer.Run` | df_loadbalancing/smart_load_balancer.cpp:319-415 | over every message sequence there is one slot per group, each peer is in the slot of its group, and slots are sorted by age with unique ids |
| `LoadBalancer.SmartLoadBalancer.SlotForKey` | df_loadbalancing/smart_load_balancer.cpp:448-480 | the slot exists and holds exactly the peers of the view that are of the key's slice |
| `PeerSampling.IncorporatedKeeps` | df_pss/pss.cpp:399-417 | incorporating keeps the bound and every id, never lets self in, and only makes entries younger |
| `PeerSampling.IncorporatedTakes` | df_pss/pss.cpp:399-417 | below capacity every offered peer is in, and nobody else came in |
| `PeerSampling.IncorporatedEntries` | df_pss/pss.cpp:399-417 | every entry was held or offered, and below capacity each offered peer has an entry at least as young |
| `PeerSampling.RefilledKeeps` | df_pss/pss.cpp:432-440 | refilling takes back only what was sent, and below capacity all of it |
| `PeerSampling.RefilledEntries` | df_pss/pss.cpp:432-440 | a refill changes no entry held, what comes back is as it was sent, and what is left is the rest of what was sent |
| `PeerSampling.ExchangeConserves` | df_pss/pss.cpp:368-382 | an exchange never shrinks the view and below capacity keeps everyone held and everyone received |
| `PeerSampling.Pss.SelectViewToSend` | df_pss/pss.cpp:97-132 | takes exactly the sent peers out of the view, none at the target's address, as many as the message holds |
| `PeerSampling.Pss.ReceiveNormal` | df_pss/pss.cpp:364-388 | the view stays bounded without self, never shrinks, holds only held and received entries, below capacity keeps every id held and takes in every received peer, and the answer holds peers of the old view not at the sender's address, as many as the message takes |
| `PeerSampling.Pss.ActiveStep` | df_pss/pss.cpp:241-259 | contacts an oldest peer and drops it, and view plus sent peers are exactly the others, aged by one, as many sent as the message holds |
| `PeerSampling.Pss.ReceiveResponse` | df_pss/pss.cpp:390-396 | every entry was kept, sent or received, and below capacity the view holds everyone kept, sent and received |
| `PeerSampling.Pss.ExchangeLosesOnlyTarget` | df_pss/pss.cpp:241-259 | an active step answered by a response that ends below capacity loses only the contacted peer |
| `PeerSampling.Pss.Run` | df_pss/pss.cpp:364-396 | every sequence of steps keeps the view within its size and without self |
| `Slices.PeerSlice` | df_store/kv_store.h:107-131 | the peer's walk terminates without wrap-around with max(1, ceil(hash / step)) |
| `Slices.ClientSlice` | df_loadbalancing/smart_load_balancer.cpp:449-467 | the client's walk yields the same slice |
| `Slices.SliceBounds` | df_store/kv_store.h:119-128 | the slice lies in 1..n and its step interval holds the hash |
| `Slices.SliceIsMonotone` | df_store/kv_store.h:119-128 | larger hashes never go to smaller slices |
| `Slices.WalkReachesIff` | df_store/kv_store.h:119-124 | the wrapping walk reaches a hash within its n steps exactly when the hash is at most n times the step |
| `Slices.LastHashIsNotRouted` | df_store/kv_store.h:119-124 | a concrete hash that the walk over two slices passes without stopping |
| `Slices.UnroutableOverflows` | df_store/kv_store.h:116-124 | for every group count that divides 2^64 the walk towards any other hash is still going when its int counter overflows |
| `Groups.PowersDivideRange` | df_core/group_construction.cpp:282-290 | the group counts in use, powers of two, divide 2^64 |
| `CompositeKeys.Vv2Str` | df_util/util.cpp:71-80 | prints the entries in order of client id, separated by commas |
| `CompositeKeys.VectorTextIsInjective` | df_util/util.cpp:71-80 | different vectors print differently |
| `CompositeKeys.BlockPathSplits` | df_util/util.cpp:39-67 | a block path splits back into its path and block number whatever the path contains |
| `CompositeKeys.KeysNeverCollide` | df_util/util.cpp:82-88 | distinct path, version and block, or path and version of a size, never share a printed key |
| `Reassembly.SplitRoundTrip` | df_util/util.cpp:201-221 | concatenating the blocks gives back the data |
| `Reassembly.AgreedSendersReassemble` | df_store/kv_store_leveldb.h:1220-1251 | if the senders of a path and version agree, all its blocks add up to their data, whatever else was received |
| `Reassembly.MixturesAreWholeIff` | df_store/kv_store_leveldb.h:1226-1238 | blocks and sizes of two senders, in whatever mixture, can only be reassembled to the data of one of them exactly when they differ in at most one block, or, with fewer blocks at one of them, in none of those |
| `Reassembly.TwoSendersReassemble` | df_store/kv_store_leveldb.h:1226-1238 | for such senders every complete database yields the data of one of them |
| `Reassembly.SendersCanBeConfused` | df_store/kv_store_leveldb.h:1226-1238 | two concrete senders whose blocks combine to the data of neither |
| `Reassembly.TmpStore.PutTmpAntiEntropy` | df_store/kv_store_leveldb.h:1165-1183 | for paths of the own slice and keys with a block number the bytes are stored under the versioned key and that number, and otherwise nothing is |
| `Reassembly.TmpStore.CheckIfHaveAllBlocks` | df_store/kv_store_leveldb.h:1220-1251 | succeeds exactly for paths of the own slice whose blocks are all there, and then puts their concatenation into the main store |
| `Reassembly.TmpStore.DeleteFromTmp` | df_store/kv_store_leveldb.h:1295-1310 | erases the size and the blocks one after the other |
| `Reassembly.ErasedKeys` | df_store/kv_store_leveldb.h:1295-1310 | exactly the size and the blocks of this path and version are gone |
| `Reassembly.TmpStore.ProcessBlockReply` | df_data_handlers/data_handler_listener.cpp:1084-1107 | where the senders agree it succeeds exactly for paths of the own slice with the size and all other blocks there, and puts their data into the main store; otherwise the main store is unchanged |
| `Reassembly.TmpStore.Collect` | df_data_handlers/data_handler_listener.cpp:1063-1110 | any sequence of arrivals, reordered, repeated and mixed over paths, versions and senders, changes the main store only by puts of assembled metadata, which is the senders' data wherever they agree |
| `FileBlocks.BlockLayer.PutBlocks` | lsfs/fuse_lsfs/lsfs_state.cpp:47-82 | writes the buffer block by block after the current block |
| `FileBlocks.BlockLayer.PutBlocksLimited` | lsfs/fuse_lsfs/lsfs_state.cpp:25-40 | the chunked write equals writing the buffer at once |
| `FileBlocks.BlockLayer.ReadBlocksLimited` | lsfs/fuse_lsfs/lsfs_state.cpp:90-137 | the chunked read terminates with exactly the bytes of the range |
| `FileBlocks.BlockLayer.ReadAligned` | lsfs/fuse_lsfs/ops_file.cpp:247-284 | a block-aligned read returns exactly the requested part of the file |
| `FileBlocks.BlockLayer.Read` | lsfs/fuse_lsfs/ops_file.cpp:247-284 | an unaligned read copies from the buffer of its block, into the memory after it if need be, and then starts over at that block |
| `FileBlocks.ReadIsExactIff` | lsfs/fuse_lsfs/ops_file.cpp:255-284 | the bytes returned are the requested ones, whatever the memory holds, exactly when the read is aligned, stays in its block, or that block repeats |
| `FileBlocks.UnalignedReadCanBeWrong` | lsfs/fuse_lsfs/ops_file.cpp:255-272 | an unaligned read of one block inside a file of two that depends on uninitialised memory |
| `FileBlocks.BlockLayer.ReadLastBlock` | lsfs/fuse_lsfs/lsfs_state.cpp:90-100 | a read past a short last block repeats that block until it has enough bytes |
| `FileBlocks.CycledAt` | lsfs/fuse_lsfs/lsfs_state.cpp:90-100 | the repetition starts with the block and has its length as period |
| `FileBlocks.BlockLayer.Write` | lsfs/fuse_lsfs/ops_file.cpp:333-392 | refuses an unaligned write past the end, and otherwise the head block and the chunked rest equal one write of the kept head and the buffer, with the size extended |
| `FileBlocks.WriteRefinesBytesIff` | lsfs/fuse_lsfs/ops_file.cpp:333-385 | the stored blocks are those of the overwritten file exactly when the write ends at or past the end of file or on a block boundary |
| `FileBlocks.TailCanBeDropped` | lsfs/fuse_lsfs/ops_file.cpp:367-367 | a concrete write after which the tail of a block is missing |
| `FileBlocks.OtherKeysUntouched` | lsfs/fuse_lsfs/lsfs_state.cpp:66-71 | a write to one file changes no block of another |
| `FileBlocks.BlockLayer.WriteAll` | lsfs/fuse_lsfs/ops_file.cpp:333-392 | any sequence of such writes leaves the bytes of the corresponding overwrites |
| `DirCache.DirectoryCache.AddToDirCache` | lsfs/fuse_lsfs/lsfs_state.cpp:370-426 | the path becomes the most recent with the new metadata, and the last path is evicted when there are too many |
| `DirCache.DirectoryCache.GetIfCached` | lsfs/fuse_lsfs/lsfs_state.cpp:859-883 | a hit returns the metadata and moves the path to the front, a miss changes nothing |
| `DirCache.DirectoryCache.RemoveFromDirCache` | lsfs/fuse_lsfs/lsfs_state.cpp:457-476 | the path leaves list, index and mutexes |
| `DirCache.DirectoryCache.EditChildInDirCache` | lsfs/fuse_lsfs/lsfs_state.cpp:547-562 | a cached directory's child is edited without changing the recency order |
| `DirCache.DirectoryCache.ClearAllDirCache` | lsfs/fuse_lsfs/lsfs_state.cpp:979-984 | everything is empty |
| `DirCache.OrderIsLastTouch` | lsfs/fuse_lsfs/lsfs_state.cpp:370-426 | after any operations the list holds distinct paths ordered by last touch, at most the maximum |
| `DirCache.EvictsLeastRecent` | lsfs/fuse_lsfs/lsfs_state.cpp:405-423 | an add evicts at most one other path, the least recently touched |
| `DirCache.StepDecides` | lsfs/fuse_lsfs/lsfs_state.cpp:370-605 | after each operation exactly which paths are cached, and with which metadata: an added path is cached and first, a removed one is gone |
| `DirCache.HitReturnsLastStored` | lsfs/fuse_lsfs/lsfs_state.cpp:547-605 | a hit returns the last stored metadata with the later child edits applied |
| `DirCache.DirectoryCache.Run` | lsfs/fuse_lsfs/lsfs_state.cpp:370-605 | every sequence of operations on the list, index and mutexes follows the abstract cache, and every hit returns the last stored metadata with later child edits |

## Left out

- Deletes (`remove`, `remove_from_main_db`, `client::del`): their comparison erases versions equal to or newer than the deleted one, so durability does not hold with them.
- Durability.QuorumDurability: a counted peer that ever refused the write, which was then sent to it again, is not claimed to store it; `RetryIsTruthfulIff` says when its reply is truthful.
- EndToEnd.QuorumReadSeesResentWrite: leaves out the same peers.
- Slices.PeerSlice: hashes above n times the step are excluded; there the counter of the walk overflows, which is undefined (`UnroutableOverflows`).
- Slices.ClientSlice: the same hashes are excluded.
- Store.KvStore.Put: requires a routable key for the same reason.
- Store.KvStore.PutWithMerge: requires a routable key for the same reason.
- Store.KvStore.PutMetadataChild: requires a routable key for the same reason.
- Handlers.DataHandler.ProcessPutMessage: requires a routable key for the same reason.
- Handlers.DataHandler.ProcessPutChildMessage: requires a routable key for the same reason.
- ReadHandlers.ReadHandler.ProcessGetMessage: requires a routable key for the same reason.
- ReadHandlers.ReadHandler.ProcessGetLatestVersionMessage: requires a routable key for the same reason.
- Flood.FloodTerminates: no emptying of the logs, no retransmission and no change of partition.
- Flood.QuiescentFloodIsClosed: does not cover reads for one version, which a peer outside the slice that can answer does not pass on.
- FileBlocks.ReadIsExactIff: leaves out the reads that BlockLayer.Read leaves out.
- FileBlocks.BlockLayer.Read: reads over a short last block that want more than a further block are excluded; they wait for a block that was never written.
- FileBlocks.BlockLayer.Write: the 32-bit narrowing of sizes, holes after an aligned write past the end, and truncation are not modelled.
- ClientReads.ChainOrderIff: mixed replies, neither a chain nor pairwise concurrent, have no condition on the order here; `SelectionIsMaximalIff` covers what is selected from them.
- Directories.IndependentAddsConverge: one direction; `IndependentConvergeIff` has the exact condition.
- Reassembly.MixturesAreWholeIff: two senders; with more of them a mixture of two can be the data of a third.
- Reassembly.TmpStore.Collect: the lookup of incomplete blocks is not modelled.
- LoadBalancer.SmartLoadBalancer.ReceiveMessage: that nobody is dropped is stated for a minimum of members not above the maximum.
- Completion.IssuedWriteReturns: one possible continuation of a run; that messages are delivered at all is up to the network.
- `put_metadata_stat`, which no handler calls.
- Sockets, message encoding, serialization, LevelDB internals and failures, locks, condition variables and real time.
- Anti-entropy key sampling, recovery over TCP, the bootstrapper, the view logger, the dynamic load balancer and the refresh of the directory cache.
- FUSE operations other than reading and writing file blocks.
