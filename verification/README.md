# Trillian's Merkle core, verified

A Dafny model of the part of Trillian that has to be right for its promises to hold: how logs and maps are hashed,
stored, proved and verified.

- **Logs.** The compact tree that integrates leaves and writes nodes, the subtrees those nodes are stored in, the
  sequencers that commit batches, the server that finds and rehashes stored nodes into proofs, the in-memory tree that
  evaluates lazily, the verifiers, and the client that keeps a trusted root. All of it is measured against MTH, PATH and
  PROOF as section 2.1 of RFC 6962 defines them.
- **Maps.** HStar2, the writer that shards an update over subtrees, runs of batches of which some fail, map subtrees in
  storage, the reader that serves proofs and the verifier. All of it is measured against the naive sparse tree over a
  finite map.
- **Node ids and storage.** The byte paths that name nodes, the subtree slots they fall into, the cache over those
  slots, and what a new cache finds after the old one was flushed.

Nothing is assumed about the hash functions. They are parameters, so every theorem holds for every hasher; a
soundness theorem does not assume that collisions are absent, it names a function that computes one from the
accepted proof.

## Layout

| file | models |
|---|---|
| `Bits.dfy` | shifts, bit lengths and single bits of natural numbers |
| `Hashing.dfy` | the log hasher as a parameter, and what a collision is |
| `Rfc6962.dfy` | MTH, PATH and PROOF of RFC 6962 on ranges of a leaf list |
| `LogTree.dfy` | tree coordinates, the canonical store, and proofs as lists of siblings by level |
| `LogVerifier.dfy` | merkle/log_verifier.go |
| `CompactSpec.dfy`, `CompactTree.dfy` | merkle/compact_merkle_tree.go |
| `MerklePath.dfy` | merkle/merkle_path.go |
| `ProofFetcher.dfy` | server/proof_fetcher.go and the two proof requests of server/log_rpc_server.go |
| `MemoryTree.dfy` | merkle/memory_merkle_tree.go |
| `LogSubtree.dfy` | storage/cache/log_subtree_cache.go |
| `Sequencer.dfy` | log/sequencer.go |
| `LogClient.dfy` | client/log_client.go, client/log_verifier.go |
| `LogService.dfy` | the server and the client over any run of the sequencers |
| `SparseTree.dfy` | the naive sparse tree, and storage that holds exactly its non-empty nodes |
| `HStar2.dfy` | merkle/hstar2.go |
| `EmptyBranches.dfy` | empty subtrees that are treated as if there were something in them, and when that shows |
| `SparseWriter.dfy` | the writer of merkle/sparse_merkle_tree.go |
| `SparseBatches.dfy` | batches of map leaves one after the other, some of which fail |
| `MapVerifier.dfy` | merkle/map_verifier.go and the reader of merkle/sparse_merkle_tree.go |
| `MapSubtree.dfy` | storage/cache/map_subtree_cache.go |
| `NodeIds.dfy` | storage/types.go |
| `SubtreeCache.dfy` | storage/cache/subtree_cache.go |
| `CacheReload.dfy` | flushing a cache and reading it back, for maps and for logs |

## How it is modelled

- `Hash` is an uninterpreted type. A log hasher is `children` and `emptyRoot`; a map hasher is `bits`, `empty`, `leaf`
  and `children`. Leaf hashing of log data is left to the caller, as in `AddLeafHash`. The tree id that map hashers mix
  in is part of these functions.
- `Canonical(h, d, store)` says that storage holds exactly the leaves and the nodes with two children of the tree over
  the leaf hashes `d`, with their hashes. It is the one link between the code that writes nodes (compact tree,
  sequencer, subtrees) and the code that reads them (proof addresses, rehasher, restored trees).
- Map nodes are named by height and index; `StoreOk` says that storage holds exactly the non-empty nodes of the naive
  tree. Map indices are numbers of `bits` bits, which is what the code computes with too.
- Callbacks become lists or maps of what they were called with. Storage reads become a map, read at one revision.
- 64-bit integers are natural numbers where values only shrink from a tree size; where a shift can lose bits
  (`NewNodeIDForTreeCoords`) or a count is kept in a byte (`Suffix.Bits`), the truncation is written out.
- The sequencer is a state machine over whole transactions: any number of sequencers take snapshots and finish in
  any order; a commit whose revision is already stored is rejected, as the log storage contract has it. Which of the
  committed roots a storage back end calls the latest is left open: a transaction may read any of them.
- Keys of stored subtrees are suffixes as bytes, as `Split` makes them, with their number of bits in one byte.

## What does not hold

- Splitting a node id and joining it again gives an equivalent id exactly if the suffix has fewer than 256 bits,
  because the suffix counts its bits in one byte (`NodeIds.SplitRoundTrip`, `NodeIds.SplitLosesCount`). For the same
  reason the bottom nodes of a stratum are kept as leaves exactly if the stratum has fewer than 256 levels
  (`NodeIds.LeafSlots`). No two nodes ever share a slot (`NodeIds.SlotsAreNodes`).
- A map that is flushed and read back by a new cache has every node it had exactly if no stratum has 256 levels.
  A stratum of 256 levels has no leaves for the reason just given, and `Flush` writes no subtree without leaves, so that
  nothing at all is found again (`CacheReload.FlushAndReloadMap`). The strata in use are shallower.
- Revisions do not always rise in the order of commits, nor do sizes. `SignRoot` does not check that the log has a root;
  without one it stores revision one, and an `InitLog` that began before can still store revision zero afterwards
  (`Sequencer.SignBeforeInit`). Revisions rise by one with every commit exactly if `InitLog` never finds revision zero
  free in a log that has a root (`Sequencer.RevisionsRiseIff`), and sizes never shrink exactly if it never commits after
  leaves were sequenced (`Sequencer.SizesRiseIff`). In order of revision both always hold (`Sequencer.OneChain`).
- The client does not always check the signature of a root that it adopts: not if the root is newer and repeats the
  trusted size and hash, nor if it is newer and has size zero while nothing larger is trusted; in every other case it does
  (`LogClient.UnsignedAdoptedIff`). A time taken from an unsigned root keeps out every root that is not later
  (`LogClient.UnsignedTimeBlocks`).
- A consistency proof from zero leaves says nothing about the old root: unless the new tree is empty too it is not
  compared with anything (`LogVerifier.ConsistencyFromEmpty`, `LogVerifier.EmptyRootUnchecked`). The client does not ask
  for such proofs.
- A log that is emptied is not reported. Every root of at least one leaf that does not extend what is trusted makes the
  update fail, up to a computed collision (`LogClient.ForkReported`); a root of size zero does not
  (`LogClient.EmptiedNotReported`).
- Log coordinates have distinct ids exactly if paths have at most 64 bits, because the index is shifted in a 64-bit
  word (`NodeIds.CoordsAreFaithful`, `NodeIds.CoordsCollide`). The log uses 64.
- A map proof is not unique: a missing element may be replaced by the empty-branch hash it stands for, once the path
  below it is not empty (`MapVerifier.TwoProofs`). `MapVerifier.MapProofComplete` and `MapVerifier.MapProofSound` say that
  this is the only freedom.
- A batch that makes the map writer fail does not leave storage as it was. Each child writes its nodes in a transaction
  of its own, and nothing undoes the children that did not fail. Storage still holds the old tree exactly if every leaf
  of those children was in the map before with the same hash (`SparseWriter.FailedBatch`,
  `SparseWriter.FailedBatchStores`). Nothing above the children is written.
- What a failed batch left behind can come back. A later batch that succeeds reads it in every child it has leaves for,
  so that its root is that of the map without the failed batch exactly if nothing is hidden there that the batch does
  not replace, up to a computed clash (`SparseBatches.ShownIff`, `SparseBatches.NextRootIff`,
  `SparseBatches.LeftoverShown`). Over any run, only leaves that a failed batch left in a child with no successful batch
  since are hidden (`SparseBatches.HiddenWasLeft`). A back end that refuses to write a subtree twice at one revision
  would turn such a batch into an error instead; back ends are not modelled.
- A leaf that the map writer rejects can still change the root. An index that is too short is rejected after the child
  for its first byte was created. The root is the map's exactly if every child that was created has something in it or
  beside it, up to two computed preimages of one hash (`SparseWriter.SparseMerkleTreeWriter.RootShown`,
  `SparseBatches.RejectedLeafCounts`); for hashers that hash an empty branch as a node, such as merkle/maphasher, it
  always is. Storage holds the tree of the map exactly if every child has something in it
  (`SparseWriter.WholeIffNoneEmpty`).

## Model

| member | source | states |
|---|---|---|
| `LogVerifier.RootFromInclusionProof` | merkle/log_verifier.go:65-106 | for every proof the loop computes the root that the recursion of RFC 6962 does, and fails exactly on a bad index, too few or too many hashes |
| `LogVerifier.VerifyInclusionProof` | merkle/log_verifier.go:48-60 | accepts exactly if the recursion of RFC 6962 leads from the leaf hash and the proof to the given root; otherwise the calculated root is reported |
| `LogVerifier.InclusionIsRfc` | merkle/log_verifier.go:65-106 | for every proof, honest or not: the bottom-up climb is the top-down recursion of section 2.1.1, and the right number of hashes is that of PATH |
| `LogVerifier.InclusionRangeErrors` | merkle/log_verifier.go:66-76 | which error a bad index or size gets |
| `LogVerifier.InclusionComplete` | merkle/log_verifier.go:65-106 | the PATH of every leaf in every prefix of a log is accepted against the MTH of that prefix |
| `LogVerifier.InclusionSound` | merkle/log_verifier.go:48-106 | anything accepted against the MTH of a leaf list has an index in range, the leaf hash at that index and exactly the RFC proof, or yields a computed collision |
| `LogVerifier.VerifyConsistencyProof` | merkle/log_verifier.go:110-214 | accepts exactly if the recursion of RFC 6962 leads to both roots; for equal sizes, equal roots and no hashes; from zero leaves, no hashes |
| `LogVerifier.ConsistencyIsRfc` | merkle/log_verifier.go:139-214 | for every proof and any two roots, honest or not: the climb with two hashes accepts exactly if the top-down recursion of section 2.1.2 leads to both roots |
| `LogVerifier.WrongRootsReported` | merkle/log_verifier.go:183-208 | if it leads to other roots, the old one is reported first, then the new one |
| `LogVerifier.ConsistencyErrors` | merkle/log_verifier.go:110-214 | which error is reported, by the sizes and by the number of hashes, of which PROOF has the right one |
| `LogVerifier.ConsistencyFromEmpty` | merkle/log_verifier.go:131-137 | from zero leaves exactly the empty proof is accepted, and the old root is compared only if the new tree is empty too |
| `LogVerifier.EmptyRootUnchecked` | merkle/log_verifier.go:131-137 | from zero leaves to one, two different old roots are accepted |
| `LogVerifier.ConsistencyComplete` | merkle/log_verifier.go:110-214 | PROOF between any two prefixes of a log, and no hashes from the empty one, is accepted against their MTH roots |
| `LogVerifier.ConsistencySound` | merkle/log_verifier.go:110-214 | if the new root is MTH of a leaf list, an accepted proof is PROOF and an accepted old root is MTH of its prefix, unless that is empty and the list is not, or a computed collision results |
| `LogVerifier.HonestRootsArePrefixes` | merkle/log_verifier.go:110-214 | two roots of leaf lists with an accepted proof between them belong to lists one of which is a prefix of the other, up to a computed collision |
| `CompactTree.CompactMerkleTree.constructor` | merkle/compact_merkle_tree.go:112-120 | the empty tree represents the empty leaf list |
| `CompactTree.CompactMerkleTree.RecalculateRoot` | merkle/compact_merkle_tree.go:144-172 | folds the kept hashes into the root and reports the partial nodes it made on the way |
| `CompactTree.CompactMerkleTree.Insert` | merkle/compact_merkle_tree.go:190-253 | the carry leaves exactly the kept hashes of the longer leaf list; the branch that stores a hash above the leaf and the final error are unreachable |
| `CompactTree.CompactMerkleTree.AddLeafHash` | merkle/compact_merkle_tree.go:190-254 | the tree represents the longer leaf list, the returned position is the old size, and the reported writes turn every canonical store of the old list into the canonical store of the new one |
| `CompactTree.CompactMerkleTree.WithState` | merkle/compact_merkle_tree.go:70-109 | from a canonical store the restored tree is the tree over the leaves, so later additions cannot tell it from the original; from any store, a tree accepted for the root of a leaf list is the tree over that list or its nodes yield a collision; a missing node is reported exactly if one is missing and the size is not a power of two, and otherwise a root that does not match |
| `CompactTree.CompactMerkleTree.FetchNodes` | merkle/compact_merkle_tree.go:86-97 | succeeds exactly if every node that a set bit of the size asks for is there, and returns those; otherwise it names one that is missing |
| `CompactSpec.FoldRootIsRoot` | merkle/compact_merkle_tree.go:144-172 | folding the kept hashes gives MTH of all leaves |
| `CompactSpec.FoldRootSound` | merkle/compact_merkle_tree.go:99-107 | hashes that fold to MTH of a list are the hashes kept for that list, or a fold step collides |
| `CompactSpec.CarryDone` | merkle/compact_merkle_tree.go:204-249 | clearing the trailing ones, setting the bit above and keeping the rest gives the kept hashes of the longer list |
| `CompactSpec.CarryStep` | merkle/compact_merkle_tree.go:229-233 | hashing a kept hash with the running hash gives the tree node above both |
| `CompactSpec.EdgeWritesSuffice` | merkle/compact_merkle_tree.go:144-254 | writing every stored node above the new leaf, and nothing else, turns one canonical store into the next: no stale right-edge hash is left |
| `CompactSpec.AddWritesKeepCanonical` | merkle/compact_merkle_tree.go:144-254 | the carry writes and the root recalculation writes together are such a set of writes |
| `MerklePath.SkipMissingLevels` | merkle/merkle_path.go:405-415 | finds the first level down from the sibling at which storage has a node |
| `MerklePath.SiblingIdSkipLevels` | merkle/merkle_path.go:443-446 | the same as a node id, or an error if it does not fit |
| `MerklePath.CheckRecomputation` | merkle/merkle_path.go:421-438 | accepts exactly the fetch lists that are all rehashed or a single plain fetch |
| `MerklePath.RecomputePastSnapshot` | merkle/merkle_path.go:214-316 | returns the fetches that rebuild the last node of a level as of an earlier size, nothing if the level is above that tree, and fails exactly if the size is beyond the tree or an id on the way does not fit |
| `MerklePath.RehashTowardsRoot` | merkle/merkle_path.go:256-316 | the second loop, from the last complete node up to the level asked for |
| `MerklePath.LastSiblingIsRight` | merkle/merkle_path.go:180-200 | the level at which the recomputation would mark a lone node for rehashing is never asked for |
| `MerklePath.PathFromNodeToRootAtSnapshot` | merkle/merkle_path.go:142-205 | returns, level by level, the fetches for the siblings on the path, or an error exactly if one does not fit |
| `MerklePath.SnapshotConsistency` | merkle/merkle_path.go:104-140 | the fetch for the old edge node, unless it is the whole old tree, then the path from it |
| `MerklePath.CalcInclusionProofNodeAddresses` | merkle/merkle_path.go:60-75 | every argument check in order, then the fetches of the path |
| `MerklePath.CalcConsistencyProofNodeAddresses` | merkle/merkle_path.go:85-100 | every argument check in order, then the fetches of the proof |
| `ProofFetcher.Rehasher.Process` | server/proof_fetcher.go:55-75 | one fetched node moves the rehasher's state as the state machine specifies |
| `ProofFetcher.Rehasher.RehashedProof` | server/proof_fetcher.go:93-99 | flushes a pending chain and returns the proof |
| `ProofFetcher.FetchNodes` | server/proof_fetcher.go:103-127 | succeeds exactly if every node is stored, and returns them in order; otherwise the number of nodes is reported |
| `ProofFetcher.CheckFetched` | server/proof_fetcher.go:115-126 | whatever storage returned: accepted exactly if there are as many nodes as asked for and each is the one asked for, and which error it gets otherwise |
| `ProofFetcher.BuildProof` | server/proof_fetcher.go:32-44 | running the rehasher over the nodes gives what the state machine makes of the fetches |
| `ProofFetcher.FetchNodesAndBuildProof` | server/proof_fetcher.go:32-44 | fails exactly if a node is missing, and otherwise returns what the state machine makes of the fetches |
| `ProofFetcher.LevelValue` | merkle/merkle_path.go:142-205 | the fetches of one level are stored and stand for exactly the sibling of that level, whether taken as it is, found below skipped levels or rebuilt for an earlier size |
| `ProofFetcher.PathRun` | server/proof_fetcher.go:55-99 | run through the rehasher, the fetches of a path yield exactly its siblings, with at most one chain open at the end |
| `ProofFetcher.ServedInclusion` | merkle/merkle_path.go:142-316 | for every index below every snapshot up to the tree size, all fetches exist in the canonical store and give exactly PATH |
| `ProofFetcher.ServedConsistency` | merkle/merkle_path.go:85-205 | for every pair of snapshots up to the tree size, all fetches exist in the canonical store and give exactly PROOF |
| `ProofFetcher.FetchesRepresentable` | server/log_rpc_server.go:36 | stored nodes of a tree of up to 2^bits leaves have ids that fit |
| `ProofFetcher.GetInclusionProof` | server/log_rpc_server.go:531-539 | from a canonical store every request in range is answered with PATH, which the client's check accepts; from any store it fails exactly on the specified arguments, on an id that does not fit and on a node that is missing, each with its error |
| `ProofFetcher.GetConsistencyProof` | server/log_rpc_server.go:291-330 | from a canonical store every request in range is answered with PROOF, which the client's check accepts; from any store it fails exactly on the specified arguments, on an id that does not fit and on a node that is missing, each with its error |
| `MemoryTree.InMemoryMerkleTree.constructor` | merkle/memory_merkle_tree.go:130-138 | an empty tree is valid |
| `MemoryTree.InMemoryMerkleTree.AddLeafHash` | merkle/memory_merkle_tree.go:240-261 | appends a leaf whatever has been evaluated, and keeps the level count right |
| `MemoryTree.InMemoryMerkleTree.FillRow` | merkle/memory_merkle_tree.go:315-349 | replaces the stale end of a level by the parents of the level below |
| `MemoryTree.InMemoryMerkleTree.UpdateToSnapshot` | merkle/memory_merkle_tree.go:297-356 | advances the evaluation and returns MTH of the prefix |
| `MemoryTree.InMemoryMerkleTree.RootAtSnapshot` | merkle/memory_merkle_tree.go:278-294 | MTH of the prefix, or nothing beyond the tree, however far the evaluation has advanced |
| `MemoryTree.InMemoryMerkleTree.CurrentRoot` | merkle/memory_merkle_tree.go:268-270 | MTH of all leaves |
| `MemoryTree.InMemoryMerkleTree.RecomputePastSnapshot` | merkle/memory_merkle_tree.go:360-418 | MTH of an evaluated prefix and, if asked for, the last node of a level as of that prefix; asked for where the top level has one node, so that the panic for several is not reached |
| `MemoryTree.InMemoryMerkleTree.PathToRootAtSnapshot` | merkle/memory_merkle_tree.go:438-444 | PATH in the prefix, or nothing out of range, however far the evaluation has advanced |
| `MemoryTree.InMemoryMerkleTree.PathToCurrentRoot` | merkle/memory_merkle_tree.go:427-429 | PATH in the whole tree |
| `MemoryTree.InMemoryMerkleTree.PathFromNodeToRootAtSnapshot` | merkle/memory_merkle_tree.go:448-491 | the siblings from a node to the root of a prefix; no internal panic is reached, that of the root with several nodes included |
| `MemoryTree.InMemoryMerkleTree.SnapshotConsistency` | merkle/memory_merkle_tree.go:497-529 | PROOF between two prefixes, or nothing out of range |
| `LogSubtree.Subtree.Prepare` | storage/cache/log_subtree_cache.go:126-139 | counts the internal nodes and drops them exactly for a full subtree |
| `LogSubtree.Subtree.SetNodes` | storage/cache/log_subtree_cache.go:71-87 | keeps the compact tree's nodes under their suffixes, except the root, for full subtrees only |
| `LogSubtree.Subtree.AddLeaves` | storage/cache/log_subtree_cache.go:63-95 | feeding dense leaves in order gives MTH of the leaves and, for a full subtree, exactly the canonical nodes; a gap is an error |
| `LogSubtree.Subtree.Populate` | storage/cache/log_subtree_cache.go:45-108 | rebuilds a full subtree, leaves others alone and sets the root hash; a wrong depth, a gap in the leaves and a wrong node count are errors |
| `LogSubtree.SuffixIsSplit` | storage/types.go:97-126 | under any prefix, the byte suffix of a node of the subtree is what the code splits from the id it builds for the node |
| `LogSubtree.SubtreeLeavesDense` | storage/cache/log_subtree_cache.go:45-66 | the leaves of every subtree of every canonical store are numbered from zero without a gap |
| `LogSubtree.FullSubtreeNode` | storage/cache/log_subtree_cache.go:45-108 | every node of a full subtree is made of that subtree's leaf hashes alone, whatever comes later in the log |
| `LogSubtree.FullSubtreeMirrors` | storage/cache/log_subtree_cache.go:126-139 | the internal nodes of a full subtree are those of the tree over its leaves, even if its last leaf is a partial node |
| `LogSubtree.FullSubtreeRoot` | storage/cache/log_subtree_cache.go:95 | the root hash set for a full subtree is the hash of its root node in the whole tree |
| `LogSubtree.LeaflessIsEmpty` | storage/cache/subtree_cache.go:364-370 | a subtree without leaves has no internal nodes, so not writing it loses nothing |
| `LogSubtree.StoreAndReload` | storage/cache/log_subtree_cache.go:45-139 | writing any subtree of any canonical store and reading it back returns every node, and the count check does not fail |
| `Sequencer.UpdateCompactTree` | log/sequencer.go:172-222 | fails exactly if a leaf index is not the next position, and reports the first that is not; otherwise collects nodes that extend the canonical store by the leaves |
| `Sequencer.InitMerkleTreeFromStorage` | log/sequencer.go:224-231 | restores the tree over the sequenced leaves from a canonical store, and an empty tree without reading; otherwise storage is reported as corrupt |
| `Sequencer.AssignIndices` | log/sequencer.go:257-272 | gives dequeued leaves consecutive indices from the tree size |
| `Sequencer.IntegrateBatch` | log/sequencer.go:287-413 | fails without a root or on a wrong revision, does nothing if there is nothing to do, and otherwise produces the commit that appends the batch; storage is never found corrupt |
| `Sequencer.SignRoot` | log/sequencer.go:445-483 | produces the next root over the same leaves; without a root that is revision one over none, and there is no error |
| `Sequencer.CommitKeepsInv` | log/sequencer.go:287-413 | a commit that follows the log keeps its invariant (revisions, sizes, roots, stored nodes, leaf indices and the queue) and that of every other open transaction |
| `Sequencer.InitFollows` | server/log_rpc_server.go:562-616 | so does the initial root, whenever revision zero is free |
| `Sequencer.RootOfLeaves` | log/sequencer.go:287-413 | every committed root is MTH of a prefix of the sequenced leaves, those that were sequenced when it was committed |
| `Sequencer.ReadAtRoot` | log/sequencer.go:224-231 | read at the revision of any committed root, storage is canonical for the leaves of that root, whatever was committed since |
| `Sequencer.CommitsIffCurrent` | log/sequencer.go:287-413 | the next revision of a transaction is taken exactly if a higher one than it read has been stored |
| `Sequencer.OvertakenIsRejected` | log/sequencer.go:287-483 | a transaction commits exactly if the root it read still has the highest revision, and InitLog exactly if revision zero is free; otherwise nothing changes |
| `Sequencer.StepKeepsInv` | log/sequencer.go:287-483 | every step of every sequencer, signing on a log without a root included, keeps the invariant of the whole system, and the log only grows |
| `Sequencer.RunKeepsInv` | log/sequencer.go:287-483 | in every run of any number of sequencers the invariant holds throughout and commits are never undone |
| `Sequencer.OneChain` | log/sequencer.go:287-483 | in every reachable state no revision is stored twice and none from one up to the highest is missing, sizes never shrink with the revision, each root hash is MTH of that many of the final leaves, leaves keep their indices, and no queued leaf is lost or sequenced twice |
| `Sequencer.RevisionsRiseIff` | log/sequencer.go:445-483 | in every run, revisions rise by one with every commit exactly if InitLog never finds revision zero free in a log that has a root |
| `Sequencer.SizesRiseIff` | log/sequencer.go:445-483 | sizes never shrink in commit order exactly if InitLog never commits after leaves were sequenced |
| `Sequencer.SignBeforeInit` | log/sequencer.go:445-483 | a run with the revisions 1, 2, 0 and the sizes 0, 1, 0: signing and integrating come before an InitLog that had begun |
| `LogService.ReachableStore` | server/log_rpc_server.go:531-539 | in every reachable state, storage read at the revision of any committed root is canonical for its leaves, and the root hash is theirs |
| `LogService.ServeInclusion` | server/log_rpc_server.go:531-539 | in every reachable state and for every committed root, an inclusion request in range is answered with PATH, which the client accepts |
| `LogService.ServeConsistency` | server/log_rpc_server.go:291-330 | likewise a consistency request with PROOF |
| `LogService.ClientFollowsRun` | client/log_client.go:140-193 | a client that trusts one committed root takes every other of a higher revision and a later time, with the proof served for it |
| `LogClient.Client.constructor` | client/log_client.go:40-46 | a new client trusts a root of size and time zero |
| `LogClient.Client.UpdateRoot` | client/log_client.go:180-193 | fails exactly if a call failed, if a new root of at least one leaf is not signed, or if it is not consistent with a trusted one, each with its error, and then leaves the trusted root alone; otherwise trusts the root in the reply if it is later and not smaller |
| `LogClient.UpdateIsProved` | client/log_client.go:140-176 | a non-empty trusted root is replaced only by the same root or by one with an accepted consistency proof |
| `LogClient.TrustNeverShrinks` | client/log_client.go:140-193 | over every sequence of replies, trusted size and timestamp never decrease |
| `LogClient.TrustedRootsAreOneLog` | client/log_client.go:140-193 | if the current trusted root is MTH of a leaf list, every earlier non-empty one is MTH of a prefix of it, or a computed collision results |
| `LogClient.IncludedForever` | client/log_verifier.go:103-113 | a leaf proved against any trusted root is at that index in the leaf list of every later one, or a computed collision results |
| `LogClient.HonestUpdateAccepted` | client/log_verifier.go:69-99 | a newer root of the same log with the RFC proof is taken |
| `LogClient.FirstRootTrusted` | client/log_client.go:140-193 | with nothing trusted yet, the first signed root is trusted |
| `LogClient.ForkReported` | client/log_client.go:140-176 | a root of a non-empty leaf list that the trusted leaves are not a prefix of, a shorter one included, makes the update fail, or its proof yields a computed collision |
| `LogClient.EmptiedNotReported` | client/log_client.go:167-174 | a root of size zero where something is trusted makes no update fail, and changes nothing |
| `LogClient.UnsignedAdoptedIff` | client/log_client.go:140-176 | a root without a valid signature is adopted exactly if it is newer and repeats the trusted size and hash, or has size zero while that is trusted |
| `LogClient.TimeBlocks` | client/log_client.go:168-174 | over every sequence of replies none of which is later than the trusted time, the trusted root stays |
| `LogClient.UnsignedTimeBlocks` | client/log_client.go:149-174 | a signed root and then the same one with a later time and no signature: nothing up to that time is adopted any more |
| `SparseTree.TreeFrame` | merkle/hstar2.go:97-128 | the hash of a node depends only on the map's entries below it |
| `SparseTree.ShardedTree` | merkle/sparse_merkle_tree.go:122-155 | a tree whose leaves are the roots of its subtrees has the same hashes above them |
| `SparseTree.RootBindsMap` | merkle/hstar2.go:97-147 | two maps with one root are the same map, or a clash is computed: two preimages of one hash, or a leaf of only one of them with the hash of an empty leaf |
| `HStar2.FirstAtLeast` | merkle/hstar2.go:116 | the search returns the first value at or after the split point |
| `HStar2.FailsOnSharedIndex` | merkle/hstar2.go:97-128 | the recursion fails exactly if two values share an index |
| `HStar2.HStarRoot` | merkle/hstar2.go:97-147 | from storage that holds the old tree, the recursion returns the node's hash in the naive tree over the updated map |
| `HStar2.HStarSets` | merkle/hstar2.go:97-155 | a node is set exactly if a value lies below it, to its hash in the new tree |
| `HStar2.SortSorts` | merkle/hstar2.go:157-172 | sorting orders the values by index and keeps them |
| `HStar2.HStar2NodesCorrect` | merkle/hstar2.go:78-147 | for values in any order: fails exactly on a shared index, returns the naive root of the updated map, and its set calls turn the stored old tree into the stored new one |
| `HStar2.NodesError` | merkle/hstar2.go:78-128 | the error is that the subtree does not fit, or else that two values share an index |
| `HStar2.RootNotRead` | merkle/hstar2.go:97-128 | if there is a value, what the getter has for the root of the subtree and above makes no difference |
| `HStar2.OnePass` | merkle/hstar2.go:60-63 | without a getter and at any depth, it fails exactly on a shared index and otherwise returns the naive root of the values alone |
| `SparseWriter.SparseMerkleTreeWriter.constructor` | merkle/sparse_merkle_tree.go:343-355 | a new writer has no leaves |
| `SparseWriter.SparseMerkleTreeWriter.SetLeaf` | merkle/sparse_merkle_tree.go:159-182 | a leaf of full length joins the child for its first byte; one of a byte is taken for the root of a child; any other is rejected, but still creates the child if it is longer than a byte |
| `SparseWriter.SparseMerkleTreeWriter.OpenChild` | merkle/sparse_merkle_tree.go:122-155 | a child seen for the first time joins the top subtree's queue |
| `SparseWriter.SparseMerkleTreeWriter.SetLeaves` | merkle/sparse_merkle_tree.go:425-432 | a batch is added in order |
| `SparseWriter.ChildBuilt` | merkle/sparse_merkle_tree.go:203-287 | whatever storage has for its root, a child fails exactly on a shared index, writes only below its own root, and hands on its root in the new tree and exactly the touched nodes; without leaves it hands on what is stored for it |
| `SparseWriter.TopBuilt` | merkle/sparse_merkle_tree.go:203-287 | whatever its values, the top subtree fails exactly on a shared place, and otherwise returns the tree over the updated roots of the children and stores exactly that tree from those roots up |
| `SparseWriter.SparseMerkleTreeWriter.BuildChildren` | merkle/sparse_merkle_tree.go:122-155 | children that see each other's writes in turn hand on the roots of their new trees, or what is stored for them if they have no leaves, and store exactly the nodes that the leaves of the children that did not fail touch; one fails exactly if two leaves share an index |
| `SparseWriter.SparseMerkleTreeWriter.CalculateRoot` | merkle/sparse_merkle_tree.go:435-438 | from storage with any tree below the roots of the children and any other above: the exact failure, the root, and both trees that storage holds afterwards. From storage that held the tree of one map: for leaves of full length in any order the naive root of the updated map and exactly its tree; with rejected leaves the root is the map's exactly if every child has something in it or beside it, up to a computed collision, and storage holds its tree exactly if every child has something in it; after a failure it holds the old tree exactly if the stored leaves had been there |
| `SparseWriter.WholeIsHeld` | merkle/sparse_merkle_tree.go:203-287 | storage holds the tree of a map exactly if it holds it below the roots of the children and the tree over those roots above them |
| `SparseWriter.NextRoots` | merkle/sparse_merkle_tree.go:203-287 | when the trees below and above the roots of the children are those of two maps, the new roots are those of the map that has the new entries in the children with leaves and the old ones elsewhere, and of the empty children |
| `SparseWriter.SparseMerkleTreeWriter.RootShown` | merkle/sparse_merkle_tree.go:203-287 | the new root is that of this map exactly if every child has something in it or beside it, or empty branches are hashed as nodes, up to a computed collision |
| `SparseWriter.WholeIffNoneEmpty` | merkle/sparse_merkle_tree.go:203-287 | storage then holds the tree of the map exactly if no child is empty |
| `EmptyBranches.OpenedTree` | merkle/sparse_merkle_tree.go:122-155 | an empty child that is handed on as if it were not changes no hash above it if there is something beside it |
| `EmptyBranches.OpenedTreePlain` | merkle/maphasher/maphasher.go:60-70 | nor does any, if empty branches are hashed as the node over their halves |
| `EmptyBranches.OpenedShows` | merkle/sparse_merkle_tree.go:122-155 | if nothing is beside it, every node above it has another hash, or two preimages of one hash are computed |
| `SparseWriter.BuiltPrefix` | merkle/sparse_merkle_tree.go:203-287 | of a failing batch, a child's leaves are stored all together or not at all |
| `SparseWriter.FailedBatch` | merkle/sparse_merkle_tree.go:203-287 | after a failure, with the built leaves below the roots of the children and the old tree above, storage holds the old tree exactly if every leaf that was stored was in the map before |
| `SparseWriter.FailedBatchStores` | server/map_rpc_server.go:167-177 | one leaf for one child and one index twice for another: the failing batch stores a leaf that the map never had |
| `SparseBatches.RejectedLeafCounts` | merkle/sparse_merkle_tree.go:159-182 | a writer over the empty map, with a hasher that has one hash for empty branches and another for nodes: a single leaf is rejected, and the root is not that of the empty map |
| `SparseBatches.SetBatch` | server/map_rpc_server.go:157-226 | one batch: it fails exactly on a shared index, its root is that of the map shown then, and storage is in the next state |
| `SparseBatches.SetBatches` | server/map_rpc_server.go:157-226 | over every sequence of batches, failing or not, each root is that of the map shown then, and storage is in the state that the batches lead to |
| `SparseBatches.NoneFails` | server/map_rpc_server.go:157-226 | if none fails, that map is the one after all batches, and nothing is hidden |
| `SparseBatches.ShownIff` | merkle/sparse_merkle_tree.go:203-287 | a batch shows what was shown before and its own leaves exactly if nothing is hidden in its children that it does not replace |
| `SparseBatches.NextRootIff` | merkle/sparse_merkle_tree.go:203-287 | after every run, its root is the root of that map exactly then, up to a computed clash |
| `SparseBatches.HiddenWasLeft` | merkle/sparse_merkle_tree.go:203-287 | over every run, what is hidden at an index was left by a failed batch, and no batch with leaves for that child has succeeded since |
| `SparseBatches.LeftoverShown` | server/map_rpc_server.go:211-226 | a batch that fails and one that succeeds: the second shows a leaf of the first |
| `MapVerifier.VerifyMapInclusionProof` | merkle/map_verifier.go:32-94 | the length checks in order, naming the first element that is malformed, then acceptance exactly if the climb with empty branches kept apart reaches the root, which is reported otherwise |
| `MapVerifier.MapProofComplete` | merkle/map_verifier.go:32-94 | for present and absent keys, every proof that is the map's up to spelled-out empty siblings is accepted |
| `MapVerifier.MapProofAccepted` | merkle/map_verifier.go:32-94 | the map's own proof is accepted with the map's value, or with none for an absent key |
| `MapVerifier.TwoProofs` | merkle/map_verifier.go:55-79 | for the one leaf of a map, two different proofs are accepted: the empty sibling left out, or spelled out |
| `MapVerifier.MapProofSound` | merkle/map_verifier.go:32-94 | anything accepted against a map's root has the map's value, or none exactly for an absent key, and is the map's proof up to spelled-out empty siblings, or yields two computed preimages of one hash |
| `MapVerifier.RootBindsValue` | merkle/map_verifier.go:32-94 | no root, honest or not, has accepted proofs of two answers for one index, up to two computed preimages of one hash |
| `MapVerifier.MapProofSoundPlain` | merkle/maphasher/maphasher.go:60-70 | soundness for hashers whose empty branches are ordinary nodes, without counting those as collisions |
| `MapVerifier.RootBindsValuePlain` | merkle/maphasher/maphasher.go:60-70 | for such hashers too, no root has accepted proofs of two answers for one index, up to two computed preimages of one hash that are not an empty branch and its node |
| `MapVerifier.InclusionProof` | merkle/sparse_merkle_tree.go:385-422 | fails exactly if storage returned a node that was not asked for, and says for how many ids; otherwise each element is the hash of the last node returned for that sibling, or missing if none was |
| `MapVerifier.ReadProof` | merkle/sparse_merkle_tree.go:385-422 | read from a stored map, no node is left over and the proof is the map's own |
| `MapVerifier.ServedMapProof` | merkle/sparse_merkle_tree.go:385-422 | from a stored map, what the reader builds for any index is accepted with the map's value, or with none for an absent key |
| `MapSubtree.MapSubtreeProto.LeafValues` | storage/cache/map_subtree_cache.go:41-58 | lists the leaves once each, in whatever order, and fails exactly on a suffix that is not a whole number of bytes, which it names |
| `MapSubtree.MapSubtreeProto.SetNodes` | storage/cache/map_subtree_cache.go:61-77 | keeps the nodes it is given under their suffixes, except the root of a subtree below the top |
| `MapSubtree.MapSubtreeProto.Populate` | storage/cache/map_subtree_cache.go:39-84 | a subtree of the naive tree gets back exactly its non-empty internal nodes and its root hash; a suffix that is no whole number of bytes and a subtree deeper than the hasher are errors |
| `MapSubtree.Rebuilt` | merkle/hstar2.go:97-147 | from its leaves alone, HStar2 computes a subtree's root and sets exactly its non-empty nodes, position-dependent empty branches included |
| `MapSubtree.SetsInside` | merkle/hstar2.go:97-128 | whatever the values, the setter is only called for nodes of the subtree above its leaves |
| `MapSubtree.StoreAndReload` | storage/cache/map_subtree_cache.go:39-95 | writing a subtree of the naive tree, of fewer than 256 levels, and reading it back returns every node under its byte suffix |
| `NodeIds.String` | storage/types.go:243-250 | one character for each bit that counts, from the left: 1 exactly if the bit is set, and 0 otherwise |
| `NodeIds.SameStringIff` | storage/types.go:243-250 | two ids have one string exactly if they are equivalent |
| `NodeIds.CoordKey` | log/sequencer.go:172-222 | the key of a node in the map of nodes to store, in paths of at most 64 bits: the binary digits of its index, as many as there are levels above it |
| `NodeIds.SameKeyIff` | log/sequencer.go:172-222 | two nodes have one key exactly if they are the same node |
| `NodeIds.Split` | storage/types.go:333-357 | the prefix is the leading bytes; the suffix holds the bits after it, zeros after those, and their number modulo 256 |
| `NodeIds.SplitRoundTrip` | storage/types.go:321-357 | joining the parts again gives an equivalent id exactly if the suffix has fewer than 256 bits |
| `NodeIds.SplitLosesCount` | storage/types.go:349 | an id of 256 bits in one stratum is not restored |
| `NodeIds.StratumFits` | storage/cache/subtree_cache.go:126-135 | every node has at least one and not too many bits in its stratum, so `Split` does not panic |
| `NodeIds.SlotsAreNodes` | storage/cache/subtree_cache.go:132-135 | under every valid layout two ids share a slot exactly if they are equivalent |
| `NodeIds.LeafSlots` | storage/cache/subtree_cache.go:285-289 | a node is kept as a leaf exactly if it is at the bottom of a stratum of fewer than 256 levels |
| `NodeIds.SplitNumber` | storage/types.go:333-357 | as numbers, splitting an id cuts its index in two: the prefix above and the bits of the suffix below |
| `NodeIds.SameCoordIff` | storage/types.go:333-357 | ids of one length stand for the same coordinates exactly if they are equivalent |
| `NodeIds.MaskLeft` | storage/types.go:287-301 | keeps the leading bits and clears the rest |
| `NodeIds.FlipRightBit` | storage/types.go:276-279 | changes one bit, counted from the right, and no other |
| `NodeIds.Siblings` | storage/types.go:311-318 | lists, bottom up, for each node of the path the other child of its parent |
| `NodeIds.SiblingNumber` | merkle/map_verifier.go:55-79 | as a number, the sibling at a height is the shifted index with its lowest bit flipped, padded with zeros |
| `NodeIds.NewNodeIDForTreeCoords` | storage/types.go:199-218 | fails exactly out of range; the id stands for the index shifted up in a 64-bit word and down again, which in a path of at most 64 bits is the index itself |
| `NodeIds.CoordsAreFaithful` | storage/types.go:199-218 | different coordinates have different ids exactly if paths have at most 64 bits |
| `NodeIds.CoordsCollide` | storage/types.go:208 | in every longer path, nodes 0 and 1 at level 64 have one id |
| `SubtreeCache.StrataOf` | storage/cache/subtree_cache.go:89-115 | every byte of a path is assigned to the stratum it belongs to, counted from the given depths: that begins below the strata before it and has its depth |
| `SubtreeCache.NodePlace` | storage/cache/subtree_cache.go:126-135 | a node whose last bit is in a stratum has as prefix the bytes that the strata before it take, and as suffix the rest of its bits |
| `SubtreeCache.SlotIsKey` | storage/cache/subtree_cache.go:130-135 | the slot of every node is a well-formed key under a prefix where a stratum begins, and the two give back the coordinates of the node |
| `SubtreeCache.KeyIsSlot` | storage/cache/subtree_cache.go:130-135 | every such key is the slot of a node |
| `SubtreeCache.DeepStratumIff` | storage/cache/subtree_cache.go:89-115 | a stratum of 256 levels is the only one |
| `SubtreeCache.Cache.constructor` | storage/cache/subtree_cache.go:116-124 | a new cache has the layout of the given depths and shows what storage holds; over empty storage its keys are in order unless its one stratum has 256 levels |
| `SubtreeCache.Cache.GetNodeHash` | storage/cache/subtree_cache.go:239-301 | returns the flat map's entry and changes no entry |
| `SubtreeCache.Cache.SetNodeHash` | storage/cache/subtree_cache.go:304-346 | changes the entry of the equivalent ids and of no other id; that subtree and no other becomes dirty; keys stay in order |
| `SubtreeCache.Cache.Preload` | storage/cache/subtree_cache.go:140-193 | brings in every needed subtree, replaces none, changes no entry, and keeps keys in order; the clobbering error is unreachable |
| `SubtreeCache.Cache.GetNodes` | storage/cache/subtree_cache.go:197-236 | returns, in the order of the ids, the entry of each id that has one and of no other; as many as asked for exactly if all have one |
| `SubtreeCache.Cache.Flush` | storage/cache/subtree_cache.go:349-377 | writes exactly the dirty subtrees that have leaves |
| `SubtreeCache.SameView` | storage/cache/subtree_cache.go:349-377 | a new cache over what was written has the same entry for every node, if the subtrees are read back as they were and none that was left out has nodes |
| `CacheReload.SetNode` | storage/cache/subtree_cache.go:304-346 | a node set in the cache is set at its tree coordinates, and nowhere else |
| `CacheReload.WriteNodes` | storage/types.go:199-218 | nodes written under the ids made for their coordinates are found at these coordinates, and it fails exactly if one is out of range |
| `CacheReload.ReadNode` | storage/types.go:199-218 | a node is read back at its coordinates, and nothing else changes |
| `CacheReload.FetchCached` | server/proof_fetcher.go:103-127 | the nodes of a proof read through the cache: all of them in order, or an error exactly if one is not stored |
| `CacheReload.InclusionFromCache` | server/log_rpc_server.go:531-539 | from a cache that holds the canonical store of a log, every request in range is answered with PATH |
| `CacheReload.ConsistencyFromCache` | server/log_rpc_server.go:291-330 | likewise with PROOF |
| `CacheReload.MapSubtreeHeld` | storage/cache/map_subtree_cache.go:39-84 | if the cache holds the naive tree of a map, each cached subtree has exactly the non-empty nodes that lie in it, leaves apart from internal nodes |
| `CacheReload.MapInternalHasLeaf` | storage/cache/subtree_cache.go:364-370 | under every internal node of a map subtree there is a leaf of it, so a subtree that is not written has no nodes |
| `CacheReload.FlushAndReloadMap` | storage/cache/subtree_cache.go:349-377 | a cache that holds the naive tree of a map, flushed, written without internal nodes and rebuilt in a new cache: every node is found as before if no stratum has 256 levels, and none is if one has |
| `CacheReload.LogSubtreeHeld` | storage/cache/log_subtree_cache.go:45-108 | if the cache holds the canonical store of a log, each cached subtree is the part of it that lies there |
| `CacheReload.FlushAndReloadLog` | storage/cache/subtree_cache.go:349-377 | a cache that holds the canonical store of up to 2^63 leaves, flushed and read back by a new cache, holds it again |
| `CacheReload.StoreBatch` | log/sequencer.go:287-413 | the nodes of a batch of leaves, written through a cache, flushed and read back by a new one: storage is canonical for the longer log |

## Left out

- gRPC handlers, generated code, flags, metrics, logging, quota, elections and the admin API have no part in these properties.
- Concrete hash functions, object hashing, signatures and keys: hashers are parameters and a signature check is a flag in the client's reply.
- MySQL, Spanner and in-memory storage: only the contract of atomic transactions read at a revision is used; a lower-level race inside a storage back end is not modelled.
- Goroutines, channels and mutexes: the map writer's children run one after the other, in any order of first arrival, each seeing what the ones before wrote; the cache is used by one caller.
- More than two strata in the map writer: the code builds only the layout of 8 levels above the rest.
- SetLeaf: an index is a whole number of bytes, and not longer than the hasher's: the code panics on a longer one, so that the guard of this panic is a precondition.
- CalculateRoot: nodes written at an older revision are a map; revision numbers of map nodes and errors of storage are not modelled.
- Flush: preparing a subtree for writing changes the cached object too; reading the flushed cache itself again is not modelled, only a new one. The check that a cached subtree has the prefix it is kept under, which no caller can fail, is dropped.
- base64 and protocol buffer encodings of suffixes and subtrees are taken to be injective, so suffixes themselves are the keys.
- StoreAndReload: the round trip of a log subtree is for eight levels, the only depth the log uses; that of a map subtree of 256 levels is `FlushAndReloadMap`'s failing case.
- Populate: for a log subtree of a depth other than eight only the errors are stated; what the root hash of one that is not full means for the whole tree is not stated, as nothing reads it.
- NewNodeIDForTreeCoords: node ids are values, so that updates in place and the sharing of a path between copies are not captured.
- UpdateRoot: the wait loops around it, leaf submission and inclusion by hash over several candidate indices are not modelled.
- WithState: errors of the node getter other than a missing node are not modelled.
- VerifyMapInclusionProof: leaf hashing does not fail, as in both hashers of the repository.
- FlushAndReloadMap: the hasher's bits are the bits of a path, and no stratum reaches below the leaves, as with the 256 bits of both hashers.
- TreeEntryDescriptor coordinates and the lazily computed bytes of the in-memory tree's entries are dropped; paths are lists of hashes.
- IntegrateBatch: guard windows, sequencing limits and timing metrics are parameters of what was dequeued and when.
