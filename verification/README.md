# White Protocol relayer: a verified model

White Protocol settles deposits in two phases. A deposit puts a commitment into an on-chain pending
buffer; a sequencer later moves the first pending commitments into an on-chain Merkle tree with a
batch proof. The relayer keeps its own copy of that tree, follows the chain, prepares the
settlements and processes withdrawals. This project models that logic in Dafny and proves what it
guarantees.

## What is modelled

**The trees.** The repository computes the root and the paths of one thing, a hash tree of fixed
depth over zero-padded leaves, in four ways: level by level (`DenseTree`), in a map of the nodes
that differ from their level's zero hash (`SparseTree`), in ragged levels, and from the frontier of
filled subtrees (`Frontier`). `Merkle` says what the tree is: `Node`, `Root` and `Path` over a leaf
list. Each of the four is proved against it. The hash is an abstract function of two arguments and
the depth a parameter. No theorem assumes that the hash is injective, which a hash with a bounded
range cannot be. Where security rests on collisions being hard to find, the theorem names the place
of one instead: two trees that hash different pairs into equal nodes at the same place
(`TreesCollide`), or two paths that hash different pairs to one value at the same level of one index
(`FoldsCollide`, `WitnessCollides`). Both pairs are among the values that the trees and paths at hand
really hash, so the alternative is never true for free, and the binding theorems say that it is the
exact one.

**Settlement and sync.** `Protocol` has the relayer's operations as functions on values, `SyncLaws`
and `SettleLaws` what one of them does, `Runs` whole runs of deposits, settlements by anybody, syncs
and preparations that overlap at every point where they wait, scans that fail, pending buffers that
do not parse, submissions that land or fail, logs written in part, and restarts, and `EventScan` the
recovery scan. `ApiExtensions` has the same operations as methods on the objects of the source, each
proved to have exactly the effect of its function, and `TickLaws` shows that a sync, a preparation
and a whole tick of these objects are runs, so that what holds of runs holds of them. The chain is
the environment: it accepts a batch only for its current root, its next index and the first pending
commitments, with a witness that chains the old root to the new one leaf by leaf.

**Withdrawals.** `Withdrawals` has requests interleaving at every await, with all errors and
timeouts, including a transaction that lands after its request has given up.

**Bytes and text.** `BigEndian`, `Words`, `ProofCodec`, `Commitments`, `AccountLayout`,
`PendingLayout`, `TokenAmount` and `NoteFormat` have the multi-precision arithmetic, the proof,
hash and account layouts, decimal amounts and base64url notes. `Arith`, `Bits`, `Numerals`, `Sets`
and `Results` support them.

## What the proofs found

- **Settlement is safe in every run** (`Runs.SettlementSafety`): whatever a relayer's tree, cursor
  and files hold, and whatever overlapped, a settlement prepared from one chain snapshot proposes the
  true next root if that snapshot is still current or the local tree is no longer than `startIndex`;
  or the local tree collides with the tree of the settled leaves, or a witness that the chain accepted
  before collides with the true paths. A current snapshot is enough because the local tree never
  outgrows the settled leaves, short of being filled to the last leaf (`Runs.RunIsBounded`).
- **Without both conditions it can be wrong, but then it does not land.** On a tree longer than
  `startIndex`, whose surplus leaves the root check cannot see because they are zero, the new root is
  right only for all-zero batches (`SettleLaws.BuiltRootExact`). A run gets there with a settled zero
  commitment, a snapshot from before it was settled and batches of at least two
  (`Runs.StaleReadMisleads`; the source is configured for batches of one). The chain has moved on and
  does not accept it; what lands is right in every run (`Runs.LandedIsRight`).
- **The sync keeps a relayer right in every clean run, even when syncs overlap**
  (`Runs.CleanRunIsRight`, `Runs.CleanSync`). An older sync may finish after a newer one; its cursor
  is then the older read, which is still a true one.
- **A reply that arrives late is not harmless** (`Runs.LateReplyErases`). A sync whose read is older
  than the local tree takes it for an on-chain reset and wipes tree, cursor, settled log and files; a
  restart finds nothing, and the new cursor is false unless the read was of an empty tree or buffer.
- **A held cursor corrupts.** The saved cursor is a true snapshot exactly when the recovery caught up,
  or there is nothing pending, or the held cursor is already at the read (`SyncLaws.SyncCursorExact`).
  Otherwise the source saves a fresh pending list beside a held cursor, although its comment says that
  this lets a later sync try again; `SyncLaws.HeldCursorCorrupts` is a run of two syncs, the second
  with a complete scan, that ends with the wrong leaves.
- **Restarts**: replaying the settled log gives a prefix of the settled leaves exactly when every gap
  of the log stands for a zero commitment (`SyncLaws.ReplayExact`). A sequencer that settles alone and
  logs what it settles has no gaps (`Runs.OnlyOurRunIsClean`).
- **`simulateBatchInsert` does not always put leaves and nodes back.** Its comment promises not to
  mutate the tree. When the batch does not fit, the path lookup throws, and the tree is as before
  exactly if it was full and needed no padding up to `startIndex`; otherwise the padding and the
  leaves that fitted stay (`SparseTree.ServerMerkleTree.SimulateBatchInsert`).
- **The frontier path is a leaf's path exactly when no later leaf is set**
  (`Frontier.FrontierIffLast`): right for the next free index, wrong for a note that others follow.
- **The withdrawal guard keys on the first nullifier only.** Over a whole run it keeps the requests
  inside apart on all their nullifiers exactly when no request that it lets in shares one with a
  request inside (`Withdrawals.ApartExact`); without second nullifiers that always holds
  (`Withdrawals.FirstNullifiersAreApart`). Otherwise two requests inside may share their second
  nullifier, or the second of one may be the first of the other, which may be a version 1 request
  (`Withdrawals.SecondNullifierIsNotGuarded`). That none is credited twice then rests on the chain
  (`Withdrawals.CreditedOnce`).
- **The two account parsers differ** in the sign of `lastInsertionAt` from 2^63 on and in a buffer
  that lacks only its last byte, the version, which the app accepts
  (`AccountLayout.ParsersAgree`).
- **The two field encoders** agree exactly below the scalar order, **the two commitments preimages**
  exactly below the base field modulus (`BigEndian.EncodersAgreeBelowOrder`,
  `Commitments.ScriptAgreesBelowP`).

## Model

| member | source | states |
|---|---|---|
| Merkle.RootByHalves | github-relayer-api-extensions.ts:114-129 | the root is the hash of the roots of the two halves of the leaves, the first half on the left; at depth zero it is the first leaf, or zero without one |
| Merkle.NodeAgree | relayer/src/api-extensions.ts:133-139 | a node depends on no leaf but those below it, which is what lets one branch be rewritten alone |
| Merkle.RootAgree | github-relayer-api-extensions.ts:114-129 | the root is a function of the first 2^depth zero-padded leaves |
| Merkle.OffBranch | relayer/src/api-extensions.ts:162-191 | writing a leaf changes no node off its branch |
| Merkle.FoldPut | tools/_scratch/settle_pending_current.ts:136-141 | folding any value along the siblings of leaf k up to any level gives the branch node of the tree that holds the value at k |
| Merkle.PathFoldsToRoot | relayer/src/api-extensions.ts:168-210 | a path folds the stored leaf to the present root and any other value to the root after writing it |
| Merkle.PathOpens | relayer/src/api-extensions.ts:193-210 | folding by the returned side bits alone, a path opens the root to the stored leaf and the root after writing any other value to that value |
| Merkle.PathBitsAreDigits | relayer/src/api-extensions.ts:205 | the side bits are the binary digits of the index, lowest first |
| Merkle.NodeBinding | relayer/src/api-extensions.ts:158-191 | given equal nodes over lists that differ at a leaf below them, returns the level on that leaf's branch at which the two trees hash different pairs into equal nodes |
| Merkle.RootBinding | relayer/src/api-extensions.ts:158-191 | trees with equal roots agree on all 2^depth padded leaves exactly when they nowhere hash different pairs into equal nodes at one place |
| Merkle.FoldBinding | relayer/src/api-extensions.ts:193-210 | given two different openings of one root at one index, returns the level at which the two folds hash different pairs to one value |
| Merkle.PathBinding | relayer/src/api-extensions.ts:193-210 | the true path opens the root to leaf k; any path of the right length that opens it to any value is the true one, with the true leaf, exactly when its fold does not collide with the true fold at some level |
| NodeKeys.NodeKeyInjective | relayer/src/api-extensions.ts:141-143 | the string keys `level:index` of two nodes are equal exactly when level and index are |
| SparseTree.ServerMerkleTree.constructor | relayer/src/api-extensions.ts:127-139 | the empty node map already answers every lookup like the tree of zero leaves |
| SparseTree.ServerMerkleTree.SetNode | relayer/src/api-extensions.ts:149-156 | storing keeps the map canonical: inside the tree and without any zero hash of a level |
| SparseTree.ServerMerkleTree.GetRoot | relayer/src/api-extensions.ts:158-160 | the root of the zero-padded tree over the leaves |
| SparseTree.ServerMerkleTree.UpdatePath | relayer/src/api-extensions.ts:168-191 | turns a map that stands for a leaf list into the map that stands for the list with one leaf written, at every node of the tree |
| SparseTree.ServerMerkleTree.GetMerklePath | relayer/src/api-extensions.ts:193-210 | throws exactly outside 0 to 2^depth - 1; otherwise its two outputs together open the root to the leaf at the index, the elements are the path of the zero-padded tree and the bits the digits of the index |
| SparseTree.ServerMerkleTree.Insert | relayer/src/api-extensions.ts:212-217 | appends the leaf, returns its index, and the map again stands for the leaves |
| SparseTree.ServerMerkleTree.InsertAt | relayer/src/api-extensions.ts:219-229 | throws exactly out of range, changing nothing; otherwise one leaf is written, behind a zero-filled gap if need be, and the map stands for the new leaves |
| SparseTree.ServerMerkleTree.RebuildNode | relayer/src/api-extensions.ts:250-261 | one pair: skipped or hashed, the parent node is then right |
| SparseTree.ServerMerkleTree.RebuildLevel | relayer/src/api-extensions.ts:248-262 | skipping pairs without a stored child still completes the level |
| SparseTree.ServerMerkleTree.SetLeaves | relayer/src/api-extensions.ts:239-263 | after the bulk rebuild the map stands for the given leaves |
| SparseTree.ServerMerkleTree.InsertBatch | relayer/src/api-extensions.ts:278-284 | path i is that of the tree just before leaf i is inserted; at the capacity it throws with exactly the leaves that fitted inserted |
| SparseTree.ServerMerkleTree.SimulateBatchInsert | relayer/src/api-extensions.ts:270-291 | when the padded leaves and the batch fit: the batch's paths, the root of the leaves padded to startIndex followed by the batch, and leaves and nodes as before; when not: throws, the padded leaves and what fitted stay, and nothing has changed exactly if the tree was full and needed no padding |
| SparseTree.LevelDone | relayer/src/api-extensions.ts:172-187 | one turn of the update loop completes one level and leaves every other node alone |
| SparseTree.RebuiltPair | relayer/src/api-extensions.ts:250-261 | one turn of the rebuild loop, skipped or hashed, gives the true parent node |
| SparseTree.NodesDeterminedByLeaves | relayer/src/api-extensions.ts:149-156 | two maps that stand for the same padded leaves are the same map, however they came about |
| TreeLaws.BatchPathsAreWitness | relayer/src/api-extensions.ts:265-291 | path i at index startIndex + i folds a zero to the root before step i and commitment i to the root after it, from the old root to the new one |
| TreeLaws.AppendOne | relayer/src/api-extensions.ts:278-284 | the next free index opens the root to zero, and the same path opens the next root to the appended leaf |
| TreeLaws.WitnessBindsNewRoot | relayer/src/api-extensions.ts:2442-2460 | a chained witness from the true root has the true paths exactly when none of them collides with the true path of its step, and then proves the true new root and no other |
| TreeLaws.PutAllMembers | relayer/src/api-extensions.ts:1019-1022 | a run of insertAt calls at distinct indices leaves each value at its index and all other leaves alone |
| TreeLaws.InsertEntries | relayer/src/api-extensions.ts:1019-1022 | a run of insertAt calls turns the leaves into what writing the entries one after the other gives |
| TreeLaws.WritesCommute | relayer/src/api-extensions.ts:162-191 | permuting writes at distinct indices changes neither the leaf list nor the node map |
| TreeLaws.InsertInAnyOrder | relayer/src/api-extensions.ts:162-191 | two trees that start alike and take the same insertAt calls at distinct indices in different orders end with the same leaves and the very same node map |
| TreeLaws.SparseRefinesDense | github-relayer-api-extensions.ts:114-166 | after the same insertAt calls, with gaps and overwrites, the sparse and the dense tree give the same root and the same path at every index |
| TreeLaws.MapIsSparse | relayer/src/api-extensions.ts:123-125 | the map has at most depth + 1 nodes for each non-zero leaf |
| DenseTree.DenseMerkleTree.constructor | github-relayer-api-extensions.ts:100-112 | the zeros are the hashes of empty subtrees |
| DenseTree.DenseMerkleTree.GetRoot | github-relayer-api-extensions.ts:114-129 | the root of the zero-padded tree |
| DenseTree.DenseMerkleTree.GetMerklePath | github-relayer-api-extensions.ts:131-153 | the path of any index, past the capacity too; inside the tree its two outputs together open the root to the leaf, and the bits are the digits of the index |
| DenseTree.DenseMerkleTree.NextLevel | github-relayer-api-extensions.ts:145-149 | hashing a level in pairs gives the next level of the tree |
| DenseTree.DenseMerkleTree.InsertAt | github-relayer-api-extensions.ts:161-166 | writes one leaf, filling a gap with zeros |
| DenseTree.PairsAreLevel | tools/_scratch/settle_pending_current.ts:82-88 | a shorter level, completed by one zero hash, still stands for the whole padded level |
| Frontier.ComputeInsertPath | tools/_scratch/settle_pending_current.ts:73-93 | ragged levels give the path of the fully padded tree for every leaf list and index |
| Frontier.FallbackPath | tools/_scratch/settle_pending_current.ts:127-134 | the script's fallback path is the frontier path |
| Frontier.ComputeSolanaMerklePath | app/src/lib/chainService.ts:138-159 | the app computes the same frontier path; its bits are the digits of the index, and with true filled subtrees and no later leaf its two outputs together open the root to the leaf |
| Frontier.FoldRoot | tools/_scratch/settle_pending_current.ts:136-141 | the fold of the commitment along the path, bottom up |
| Frontier.FrontierIsPath | tools/_scratch/settle_pending_current.ts:127-134 | with every filled subtree in use the left neighbour of its level and no leaf after k, the frontier gives the path of k |
| Frontier.FrontierIffLast | app/src/lib/chainService.ts:137-159 | given true filled subtrees, the frontier path of k is its path if no later leaf is set, and only then unless the tree collides with the empty tree at one place |
| Frontier.SettleOneRoot | tools/_scratch/settle_pending_current.ts:124-141 | at the next free index the frontier path is the tree's path and folds the commitment to the root after appending it |
| Frontier.SettleOne | tools/_scratch/settle_pending_current.ts:115-141 | on either branch, with a true leaf list or true filled subtrees, the new root is that of the settled leaves followed by the commitment |
| Protocol.InsertRecovered | relayer/src/api-extensions.ts:1019-1022 | the leaves after recovery: the found commitments at their indices, the old leaves elsewhere, no longer than the last find |
| Protocol.InsertRun | relayer/src/api-extensions.ts:1128-1135 | the leaves after the inferred commitments are inserted at consecutive indices |
| SyncLaws.InferredTrue | relayer/src/api-extensions.ts:1110-1147 | from a cursor that is a true snapshot the FIFO inference writes only commitments that are right for their index, and misses none that the cursor's list held |
| SyncLaws.CaughtUpLeaves | relayer/src/api-extensions.ts:1087-1136 | every leaf value after a sync whose recovery caught up in length, for any cursor: what the cursor's list says where it reaches, else what the tree held or the scan found, else zero |
| SyncLaws.SyncLeavesExact | relayer/src/api-extensions.ts:1068-1136 | after a sync with any cursor, the local leaves are the settled ones exactly when nothing is settled, or the tree had the right length or the scan found the last leaf, the cursor's list is right where it reaches, and every other missing leaf is covered |
| SyncLaws.SyncedCursor | relayer/src/api-extensions.ts:1110-1161 | the cursor after a sync: the read if the recovery caught up; otherwise the read's pending list at the old index, pulled back to the end of the local tree if it lay beyond the read; and it is saved |
| SyncLaws.SyncCursorExact | relayer/src/api-extensions.ts:1110-1161 | the saved cursor is a true snapshot exactly when the recovery caught up, nothing is pending, or the cursor stood at the read |
| SyncLaws.HeldCursorCorrupts | relayer/src/api-extensions.ts:1152-1161 | two syncs from true reads, one scan empty and one complete, that end with wrong leaves |
| SyncLaws.RecoverKeepsGood | relayer/src/api-extensions.ts:929-1039 | a complete scan makes the leaves exactly the settled ones and keeps all saved state true |
| SyncLaws.SettleKeepsGood | relayer/src/api-extensions.ts:1110-1161 | the second half of a sync, on a tree not behind its read, however old the read is by then: no leaf changes, the cursor becomes the read, and all saved state stays true |
| SyncLaws.SyncKeepsGood | relayer/src/api-extensions.ts:1041-1171 | with a complete scan the leaves become the settled ones, the cursor becomes the read, and all saved state stays true |
| SyncLaws.OldReadErases | relayer/src/api-extensions.ts:1072-1085 | a sync from a read older than the local tree leaves nothing but the read's pending list beside a cursor at zero, and a restart restores no more |
| SyncLaws.ReplayLeaves | relayer/src/api-extensions.ts:735-742 | the replayed tree holds every logged commitment at its index and zero elsewhere |
| SyncLaws.ReplayExact | relayer/src/api-extensions.ts:735-742 | the replayed leaves are a prefix of the settled ones exactly when every gap of the log stands for a zero commitment |
| SyncLaws.RestartKeepsGood | relayer/src/api-extensions.ts:732-764 | a restart from a log without gaps rebuilds a relayer that is right |
| SettleLaws.BuiltWitness | relayer/src/api-extensions.ts:2427-2460 | a settlement built on a tree no longer than startIndex chains the root read from the chain to its new root |
| SettleLaws.BuiltRootIsRight | relayer/src/api-extensions.ts:2405-2473 | the root check and the simulated insert together make the new root that of the settled leaves and the first pending commitments, along their true paths, whatever the local tree holds, unless it collides with the tree of the settled leaves |
| SettleLaws.BuiltRootExact | relayer/src/api-extensions.ts:2427-2443 | the new root is right exactly when the local tree is no longer than startIndex or the batch is all zeros, unless the local tree collides with the settled one, before or after the batch |
| SettleLaws.PrepareOutcome | relayer/src/api-extensions.ts:2420-2443 | nothing to settle exactly when nothing is pending; an error exactly when the roots still differ after the recovery or the batch does not fit |
| SettleLaws.ProposeSucceeds | relayer/src/api-extensions.ts:2420-2473 | a tree equal to the settled leaves passes the root check and yields the full batch with the true new root, and the relayer is left unchanged |
| Runs.SyncAlone | relayer/src/api-extensions.ts:1041-1171 | a sync that nothing overlaps, taken from wait to wait, has exactly the effect of the one step |
| Runs.PrepareAlone | relayer/src/api-extensions.ts:2405-2473 | the same for a preparation |
| Runs.RunIsSound | relayer/src/sequencer.ts:136-149 | in every run, each root the chain has recorded is that of its settled leaves, unless a witness accepted on the way there collides with the true paths; every read in use is true; the settled log names only settled commitments at their own indices |
| Runs.PreparedIsSafe | relayer/src/api-extensions.ts:2379-2474 | a settlement from one true read is for the first pending commitments, the chain accepts it while the read is current, and its new root is right unless the local tree or an accepted witness holds a collision |
| Runs.RunIsBounded | relayer/src/api-extensions.ts:1041-1171 | in every run the local tree and its saved copy are no longer than the settled sequence, unless an overflowing batch has filled the tree |
| Runs.SettlementSafety | relayer/src/api-extensions.ts:2379-2474 | the same after every run, with old reads, partial and failed scans, overlapping syncs, failed submissions, part-written logs and restarts, whenever the read is still current or the local tree is no longer than startIndex |
| Runs.LandedIsRight | relayer/src/sequencer.ts:129-134 | in every run a settlement that lands, whatever it was built on, makes the chain's root that of its settled leaves, unless an accepted witness collides |
| Runs.StaleReadMisleads | relayer/src/api-extensions.ts:2427-2443 | a run whose preparation, from a read older than a settled zero commitment, puts forward a settlement that is wrong unless two given trees collide, and that the chain does not accept |
| Runs.CleanRunIsRight | relayer/src/api-extensions.ts:776-789 | in every run, however syncs and preparations overlap, with scans that find what is still missing when they end, no reply older than the local tree, room for each batch and restarts from logs without gaps, tree, cursor and files stay a true picture of the chain |
| Runs.CleanSync | relayer/src/api-extensions.ts:1041-1171 | each sync of such a run ends with its read as cursor and saved cursor, on settled leaves that reach at least as far, and exactly at the read unless something that overlapped it had gone further |
| Runs.CleanSyncAlone | relayer/src/api-extensions.ts:1041-1171 | a sync that nothing overlaps leaves such a run's relayer exactly at the read: leaves, cursor and saved cursor |
| Runs.StandingSettles | relayer/src/api-extensions.ts:2379-2474 | a relayer that stands at a read always gets a safe settlement with the true new root from it while the batch fits, without a scan, unless an accepted witness has already collided |
| Runs.LateReplyErases | relayer/src/api-extensions.ts:1072-1085 | a reply older than the local tree is possible, wipes the relayer and its files, and leaves a false cursor unless the read was of an empty tree or, for different commitments only then, an empty buffer |
| Runs.RunIsSaved | relayer/src/api-extensions.ts:1023-1161 | in every run in which each batch fits, the saved cursor is the cursor, and the saved leaves are the leaves while the log is empty or no restart has happened |
| Runs.RestartLosesNothing | relayer/src/api-extensions.ts:732-764 | in such a run a restart keeps the cursor, and everything while the log is empty |
| Runs.ReplayEntries | relayer/src/sequencer.ts:136-149 | replaying the log of a commitment sequence gives the sequence back, and that log has no gaps |
| Runs.OnlyOurRunIsClean | relayer/src/sequencer.ts:86-164 | with one sequencer that logs all it settles, the log is the settled sequence in order, a restart rebuilds the settled tree from it, and the run is clean without any hypothesis on restarts |
| EventScan.NotePagesNotes | relayer/src/api-extensions.ts:948-1009 | the scan yields for every index the first useful event on the pages it may read, and nothing else |
| EventScan.FullIsFinal | relayer/src/api-extensions.ts:949-964 | once as many leaves are found as are wanted, no further transaction or page can change the result |
| EventScan.Scan | relayer/src/api-extensions.ts:945-1009 | finds for every index below the target the commitment of the first insertion into this pool that the pages it may read show for it, and nothing else |
| EventScan.ScanPages | relayer/src/api-extensions.ts:948-1009 | the loop over the pages with its early exits finds what reading on would have found |
| EventScan.FlattenPagesExact | relayer/src/api-extensions.ts:948-961 | the pages that may be read are those before the first empty one, no more than the maximum, and their events are met in order |
| EventScan.FlattenOne | relayer/src/api-extensions.ts:969-988 | a transaction contributes its events, and one that cannot be fetched or has no logs none |
| EventScan.FlattenAppend | relayer/src/api-extensions.ts:963-988 | transactions contribute their events one after the other |
| EventScan.ScanPage | relayer/src/api-extensions.ts:963-1008 | the same for the transactions of one page |
| ApiExtensions.RelayerApiExtensions.RecoverMerkleTreeFromEvents | relayer/src/api-extensions.ts:929-1039 | tree, files and cursor change as the recovery step says, for what the scan of the pages finds |
| ApiExtensions.RelayerApiExtensions.ResetState | relayer/src/api-extensions.ts:1072-1085 | a detected reset empties tree, cursor, settled log and files |
| ApiExtensions.RelayerApiExtensions.CatchUp | relayer/src/api-extensions.ts:1068-1085 | recovers when behind, resets when ahead, otherwise nothing |
| ApiExtensions.RelayerApiExtensions.DetectSettled | relayer/src/api-extensions.ts:1087-1161 | tree, files and cursor change as the second half of the sync step says |
| ApiExtensions.RelayerApiExtensions.SyncMerkleTree | relayer/src/api-extensions.ts:1041-1171 | the whole state changes as the sync step says; not at all without a readable tree account, by the recovery stage only when the pending buffer does not parse |
| ApiExtensions.RelayerApiExtensions.PrepareBatch | relayer/src/api-extensions.ts:2416-2473 | answer and state are those of the preparation step, with both root checks and the batch that does not fit |
| ApiExtensions.RelayerApiExtensions.SettlePendingDeposits | relayer/src/api-extensions.ts:2379-2474 | a sync, then a preparation from a second read; nothing to settle without both accounts, an error when an account does not parse or the proof fails |
| ApiExtensions.RelayerApiExtensions.ReplayLog | relayer/src/api-extensions.ts:735-742 | rebuilds the replayed leaves, or throws exactly on an entry beyond the tree |
| ApiExtensions.RelayerApiExtensions.Initialize | relayer/src/api-extensions.ts:726-774 | the log, failing that the saved leaves, and the saved cursor are restored and one sync follows; without a readable tree account that is all, and the files stay as they are |
| ApiExtensions.Sequencer.LogBatch | relayer/src/sequencer.ts:136-152 | the log grows by the batch's entries in order, or by the first of them when a write fails |
| ApiExtensions.Sequencer.Tick | relayer/src/sequencer.ts:69-164 | the whole tick with its call of settlePendingDeposits: relayer and files end as that call leaves them, the log grows by exactly what landed and could be written, the count by one for it, and an error is kept exactly when something failed before the log |
| TickLaws.ScanExact | relayer/src/api-extensions.ts:948-1017 | a scan of pages whose useful events are true finds only settled commitments at their indices, and finds all that is missing exactly when the pages it may read mention every missing leaf |
| TickLaws.SyncReadsIsRun | relayer/src/api-extensions.ts:1041-1171 | a sync with any outcome of its reads is a run of events that nothing overlaps |
| TickLaws.SettleReadsIsRun | relayer/src/api-extensions.ts:2379-2474 | settlePendingDeposits with any outcome of its reads is the run of its sync and its preparation, and its answer is what that run puts in flight |
| TickLaws.TickIsRun | relayer/src/sequencer.ts:86-164 | a whole tick is such a run, ended by a submission that lands or is dropped; relayer and chain end as the run leaves them |
| TickLaws.TickOutcome | relayer/src/sequencer.ts:73-134 | a tick has nothing to do exactly when an account is missing or nothing is pending, and fails exactly when an account does not parse, the roots differ, the batch does not fit, the proof fails or the submission does |
| TickLaws.SettlePendingIsSafe | relayer/src/api-extensions.ts:2379-2474 | after any run, with accounts and pages that were true at some moment, settlePendingDeposits answers only with safe settlements, if its second read is current or its tree no longer than startIndex |
| Withdrawals.CalculateFee | relayer/src/index.ts:806-808 | the fee is the whole part of amount times feeBps by 10000 |
| Withdrawals.RelayerService.TryEnter | relayer/src/index.ts:891-896 | a request enters the guard exactly when its nullifier is not pending, and makes it pending |
| Withdrawals.RelayerService.ProcessGuarded | relayer/src/index.ts:889-948 | whatever fails, the pending set ends as it began, and the totals grow by one transaction and the floor of its share in ten-thousandths exactly when the submission succeeded, even if the used mark then fails |
| Withdrawals.GuardStep | relayer/src/index.ts:1029-1089 | every event keeps the pending set equal to the nullifiers of the requests in the guard, one request each |
| Withdrawals.StepKeepsInv | relayer/src/index.ts:1146-1203 | every event keeps guard, credits, bounds and totals in step |
| Withdrawals.EveryInterleaving | relayer/src/index.ts:889-948 | in every interleaving the pending nullifiers are exactly those of the requests in the guard, no two of these share one, credits are listed once, and the totals count the credits |
| Withdrawals.CreditedOnce | relayer/src/index.ts:926-929 | two credits on one chain never share a nullifier, first or second |
| Withdrawals.Accounting | relayer/src/index.ts:806-808 | feeBps times the credited amounts exceeds 10000 times the fees earned by at least 0 and at most 9999 per transaction; with nobody in the guard nothing is pending |
| Withdrawals.FeesRoundDown | relayer/src/index.ts:806-808 | the rounding loss of a sequence of fees lies between 0 and 9999 ten-thousandths for each |
| Withdrawals.GuardApartExact | relayer/src/index.ts:1029-1036 | a request at the guard leaves those inside apart on all their nullifiers exactly when it is turned away for its first one or shares none with a request inside |
| Withdrawals.OthersKeepApart | relayer/src/index.ts:1038-1089 | no other event brings two requests with a common nullifier together |
| Withdrawals.ApartExact | relayer/src/index.ts:1029-1089 | in every run the requests inside are apart throughout exactly when every request that came to the guard was turned away or shared no nullifier with one inside |
| Withdrawals.FirstNullifiersAreApart | relayer/src/index.ts:889-948 | in every run, while no request inside has a second nullifier, those inside are apart |
| Withdrawals.SecondNullifierIsNotGuarded | relayer/src/index.ts:1029-1036 | two reachable states with two requests inside the guard: in one they share their second nullifier, in the other the second nullifier of one is the first of the other, which has no second |
| BigEndian.BytesToBigIntBE | relayer/src/api-extensions.ts:370-376 | the number whose big-endian bytes were given |
| BigEndian.NatToBytes | relayer/src/api-extensions.ts:314-323 | encoding the number of a byte string at its length gives the string back |
| BigEndian.ToBytesNat | relayer/src/api-extensions.ts:370-376 | decoding the encoding of a number that fits gives the number back |
| BigEndian.FeToBytes32BE | relayer/src/api-extensions.ts:314-323 | the detour over the padded hex string gives the 32 big-endian bytes |
| BigEndian.FeToBytes32BEReducing | github-relayer-api-extensions.ts:193-201 | the 32 bytes of the value reduced modulo the scalar order, for negative values too |
| BigEndian.EncodersAgreeBelowOrder | github-relayer-api-extensions.ts:193-201 | both encoders run on one value below 2^256: one keeps it, the other its remainder, and they give the same bytes exactly below the scalar order |
| BigEndian.IsGteBigEndian | tools/_scratch/settle_pending_current.ts:155-161 | decides the numeric order of two 32-byte strings |
| BigEndian.SubBigEndian | tools/_scratch/settle_pending_current.ts:163-177 | the borrow loop computes the exact difference modulo 2^256 |
| BigEndian.PBytes | tools/_scratch/settle_pending_current.ts:148-153 | the byte table is the BN254 base field modulus |
| BigEndian.CurveParameter | relayer/src/index.ts:2010-2017 | the base field modulus and the scalar order are the two polynomials of the BN254 curve parameter |
| BigEndian.ReduceModP | tools/_scratch/settle_pending_current.ts:179-185 | gives the 32 bytes of the value modulo P for every value below 2^256, in value / P subtractions, at most five |
| BigEndian.MaskIsClear | tools/_scratch/settle_pending_current.ts:190-191 | masking with 2^253 - 1 and clearing the digest's top three bits give one number, below the scalar order |
| BigEndian.MaskMod | relayer/src/api-extensions.ts:358-361 | masking keeps the remainder modulo 2^253 |
| BigEndian.PubkeyToScalar | relayer/src/index.ts:1994-2005 | the number of the key's first 31 bytes, always below the scalar order |
| BigEndian.ScalarsIdentifyPrefix | relayer/src/index.ts:1994-2005 | two keys have one scalar exactly when they agree on all bytes but the last |
| ProofCodec.SerializeGroth16Proof | relayer/src/api-extensions.ts:325-343 | each of the eight 32-byte slices, by offset, holds its coordinate, with each G2 pair swapped |
| ProofCodec.SerializeThenDeserialize | relayer/src/index.ts:2028-2060 | deserializing a serialized proof gives back all eight coordinates below 2^256 |
| ProofCodec.DeserializeThenSerialize | relayer/src/index.ts:2028-2060 | exactly the strings of 256 bytes are accepted, and serializing the result gives the string back |
| Words.WordRoundTrip | relayer/src/api-extensions.ts:325-343 | each 32-byte word written is read back at its place |
| Words.BytesRoundTrip | relayer/src/index.ts:2033-2045 | writing the words that were read gives the same bytes |
| Commitments.ComputeCommitmentsHash | relayer/src/api-extensions.ts:352-362 | the digest, modulo 2^253, of the string that holds the batch as 32-byte big-endian words and zeros up to the maximum |
| Commitments.PreimageExact | relayer/src/api-extensions.ts:352-358 | there is exactly one such string, and it is what is hashed |
| Commitments.ComputeHash | circuits/test-hash2.js:4-28 | the bit-by-bit construction gives the same hash as the byte one for any batch within the maximum |
| Commitments.PackBits | circuits/test-hash2.js:9-23 | packing the reversed low bits of a value gives its big-endian bytes |
| Commitments.PackLoop | circuits/test-hash2.js:18-23 | groups all bits into bytes, highest first |
| Commitments.AllBits | circuits/test-hash2.js:5-17 | the bits of all slots pack into the padded batch's 32-byte words |
| Commitments.LowBits | circuits/test-hash2.js:9-15 | the pushed and reversed bits are the low bits, highest first |
| Commitments.ZeroTail | relayer/src/api-extensions.ts:353-357 | the untouched zero tail of the buffer is the padding by zero commitments |
| Commitments.SettleOneHash | tools/_scratch/settle_pending_current.ts:187-191 | the digest, modulo 2^253, of the 32 bytes of the commitment reduced modulo P; the same as the relayer's hash of the reduced commitment |
| Commitments.ScriptAgreesBelowP | tools/_scratch/settle_pending_current.ts:143-191 | script and relayer hash one preimage exactly for commitments below P |
| Commitments.HashIsFieldElement | relayer/src/api-extensions.ts:358-361 | every commitments hash is below the scalar order |
| AccountLayout.SkipVectors | relayer/src/api-extensions.ts:431-447 | skips the three vectors to the trailing fields, with the history counters, or throws where a length lies outside the buffer |
| AccountLayout.ParseMerkleTreeAccount | relayer/src/api-extensions.ts:414-468 | returns exactly on buffers that hold a whole account, so it never reads past the end, and then with the account's fields |
| AccountLayout.ParseMerkleTreeAccountApp | app/src/lib/chainService.ts:62-126 | returns exactly on buffers that hold an account but for perhaps the version, and then with all its fields and vectors |
| AccountLayout.ReadBytes32Vec | app/src/lib/chainService.ts:92-97 | the entries of a length-prefixed vector, wherever it lies inside the buffer |
| AccountLayout.ParsersAgree | app/src/lib/chainService.ts:62-126 | both parsers run on one buffer: the relayer returns exactly when the app returns with a version; pool, depth, next index, root, both history counters, leaf total and version are then equal, and lastInsertionAt is exactly below 2^63 and differs by 2^64 from there on; the app alone accepts only buffers that end just before the version |
| AccountLayout.LeIsReversed | relayer/src/api-extensions.ts:424-452 | a little-endian integer is the big-endian one of the reversed bytes |
| AccountLayout.LayoutExact | relayer/src/api-extensions.ts:414-468 | a buffer holds the encoding of an account exactly when the relayer accepts it and finds that account, for any vector lengths and any trailing bytes |
| PendingLayout.ParseDeposits | relayer/src/api-extensions.ts:481-490 | one parsed deposit for each 40-byte entry, in order |
| PendingLayout.ParsePendingBufferAccount | relayer/src/api-extensions.ts:470-514 | returns exactly on buffers that hold the whole account, and then with every field; each deposit has its 32 bytes, the number that they write in big-endian order, and the signed timestamp that lies behind them |
| PendingLayout.PendingRoundTrip | relayer/src/api-extensions.ts:470-514 | parsing the encoding of an account gives back every deposit and field |
| PendingLayout.PendingLayoutExact | relayer/src/api-extensions.ts:470-514 | a buffer holds the encoding of a pending account exactly when the parser accepts it and finds that account |
| TokenAmount.FormatThenParse | app/src/lib/balanceService.ts:62-76 | parsing a formatted amount gives it back, for every number of decimals, zero too, and in spite of trimmed zeros |
| TokenAmount.ShownForm | app/src/lib/balanceService.ts:62-70 | a dot is shown exactly when there is a fraction, which then does not end in a zero, behind the whole part without leading zeros |
| TokenAmount.ParseShortFraction | app/src/lib/balanceService.ts:72-76 | a fraction of at most `decimals` places is read exactly |
| TokenAmount.ParseLongFraction | app/src/lib/balanceService.ts:72-76 | further places are cut off, never rounded up |
| TokenAmount.ParseAccepts | app/src/lib/balanceService.ts:72-76 | an amount is accepted exactly if its whole part and the places kept are decimal digits; what follows a second dot does not matter |
| Numerals.DigitTable | relayer/src/api-extensions.ts:314-323 | the digits up to base 16 are those of toString and parseInt |
| NoteFormat.DecodeBase64Url | app/src/lib/noteFormat.ts:24-31 | gives back every encoded byte string; accepts exactly a body in either alphabet, of a length not one above a multiple of four, with all, some or none of its padding, and reads the body's sextets |
| NoteFormat.AtobOfBtoa | app/src/lib/noteFormat.ts:19-29 | standard base64 decodes what it encoded, for every byte string |
| NoteFormat.EncodedText | app/src/lib/noteFormat.ts:17-21 | a note's text is URL-safe and has no padding |
| NoteFormat.SextetsWriteBytes | app/src/lib/noteFormat.ts:19 | the sextets write the same number as the bytes, with zero bits filling up a short last group, as section 4 of RFC 4648 asks |
| NoteFormat.Alphabets | app/src/lib/noteFormat.ts:20 | the characters are those of sections 4 and 5 of RFC 4648 |
| NoteFormat.PaddingRestored | app/src/lib/noteFormat.ts:24-28 | padding restored from the length modulo four is the padding that was stripped |
| NoteFormat.EncodeThenDecode | app/src/lib/noteFormat.ts:17-31 | decoding an encoded note gives back its bytes |

## Left out

- Poseidon, SHA-256, proving and verifying: parameters of the model; that a proof exists is the chained witness that the chain asks for.
- The on-chain program and the circuits: the environment, which accepts what the section on settlement and sync says.
- Routes, authentication, RPC calls, retries, transaction building, logging, metrics: they would add no property of the state.
- The manual `/merkle/insert`, `/settle-note` and `/track-deposit` routes, and the Base (EVM) sequencer and its saved state.
- The account cache: a cached value is returned whatever lifetime a caller asks for, so the two accounts may be read at different moments. Runs assume that each sync and each preparation sees one moment of the chain, which may be long past.
- Overlap inside the objects of `ApiExtensions`: their methods run without interruption, and `TickLaws` connects them with the overlapping runs.
- An on-chain reset is detected and acted on as in the source, but the modelled chain never shrinks; the only reads that trigger it are late ones.
- Several sequencers in one process: one settlement is in flight at a time.
- SyncLaws.SyncCursorExact: the direction from a true cursor is for pairwise different commitments; with repeated ones a held cursor may match by coincidence.
- Capacity: `insert`, `setLeaves` and settled counts beyond 2^depth, negative numbers and values from 2^256 on are excluded by preconditions.
- Integer width: the model's depth is any number and its index arithmetic exact; the source's 32-bit shifts agree with that for depths up to 30.
- The totals' saved file and a restart of the withdrawal service; `running`, `lastSettleAt` and the polling delays of the sequencer.
- The checks before the withdrawal guard (format, asset, fee registry, proof): one event that may refuse a request. Amount bounds are kept. `validateFieldElement` is a comparison and has no member of its own.
- The map's iteration order: the recovery's sort is modelled as the ascending walk it produces.
- The UTF-8 layer of notes and whitespace in base64 text; amounts that `BigInt` reads as something other than decimal digits count as errors.
- Circuit breaker, chain registry, asset lists, user interface: small state or table lookups that would add only easy members.
