# Verified model of the append-only ledger

A Dafny model of the Merkle log, the ledger built on it, and the smaller stateful components beside it
in indy-plenum, with proofs about every tree size, every proof offered to the verifier and every run.

Five independent algorithms of the repository have to agree on one object, the tree hash of section 2.1 of
RFC 6962: a recursive hasher, a binary counter of perfect subtrees with carries, a flat store of nodes
numbered by closed-form arithmetic, top-down proof generators, and bottom-up verifiers that shift indices.
The proofs connect them through *levels*: hashing neighbours pairwise (`Up`) preserves the tree hash
(`MthUp`), so a top-down split and a bottom-up shift describe the same tree.

| file | content |
|---|---|
| `Bits.dfy` | bit tricks on tree sizes, alignment to powers of two |
| `MerkleHash.dfy` | tree hash, recursive hasher, compact list (`Peaks`), levels |
| `MerkleProofs.dfy` | audit paths and consistency proofs, top-down and by levels |
| `MerkleRebuild.dfy` | the roots a proof stands for, rebuilt top-down from any hashes |
| `MerkleVerifier.dfy` | the verifier's loops, soundness and completeness |
| `HashStores.dfy` | node numbering, keyed and sequential layout, reading ranges back |
| `RangeExactness.dfy` | exactly which ranges are answered with their tree hash |
| `CompactMerkleTree.dfy` | the tree class: carry, append, extend, served proofs and their memo table |
| `Ledger.dfy` | committed and uncommitted ledger, recovery, runs |
| `UncommittedTracker.dfy` | batch tracker and the handler that couples it to a ledger |
| `IntervalList.dfy`, `BatchSplitter.dfy`, `OptimisticKvStore.dfy` | interval sets, batch splitting, layered store |
| `Quorums.dfy`, `Propagator.dfy` | quorum sizes, table of propagated requests |
| `PropagateHistory.dfy` | what the table holds, told by the steps of the run |

Modelling choices:

- A hash is a value of a free datatype (`EmptyHash | LeafHash | NodeHash`): `hash_leaf` and `hash_children` are
  injective and never meet, which is what the domain prefixes and SHA-256 are relied upon for.
- Serialisation of a transaction is an arbitrary function, a parameter of the ledger.
- Exceptions are constructors of result types; a plain boolean result stands for "raises" where there is one error.
- A database hash store and a file hash store are two layouts of one class, so each result about a tree or a
  ledger holds for both. Where a hash is missing the first returns `None` and the second raises, and the model
  keeps the two apart.
- `lru_cache` around `merkle_tree_hash` is a table that keeps every returned value, `None` included, and no
  exception. The cache of the source is shared by all trees and bounded, so a miss may drop any entries.
- In an object that is updated in place, a ghost field names what the object stands for (`leaves` of a tree,
  `committed` of a ledger, `batches` of a handler) and `Valid()` ties the real fields to it: size, compact hashes,
  smallest height and root of a tree are functions of its leaves, so two operations that end with the same
  leaves (`Extend` and repeated `Append`, recovery from the log and from the store) end in the same state.

## Results worth knowing before reading the proofs

- Against the true root of a log the consistency verifier accepts exactly the true older root with a proof that starts
  with the RFC 6962 proof. It reports `ConsistencyError` only for an old size that is not a power of two;
  for a power of two a wrong old root shows up as `ProofError`, although the documentation of the verifier
  promises `ConsistencyError` for an inconsistency (`ConsistencyExact`).
- With no log in sight, for any sizes, roots and proof, the bit-shifting loops of the verifier give the verdict of the
  recursion in section 2.1.2 of RFC 6962: rebuild both roots from as many hashes as such a proof has, and
  compare (`VerdictIsRebuilt`; `AuditIsRebuilt` for audit paths).
- A hash store that disagrees with the log in a count, be it behind or ahead, is thrown away and rebuilt from the log;
  one that agrees in both counts is believed (`RecoverTree`).
- Recovery is right after a crash at any point between the writes of one append: rebuilding the compact state never reads
  a node that ends at the last leaf, and a partial append fails the count check (`RecoverTree`, `CrashPoints`).
- `add` on a ledger keeps the uncommitted root right exactly when no uncommitted tree is cached. `appendTxns([])`
  caches one although nothing is pending, so `add` directly after it leaves a stale root (`Ledger.Add`,
  `StaleUncommittedRoot`).
- A memoised range hash stays right through later appends exactly when its range does not end past the old leaves
  and within the new ones. Only a database store lets such an entry arise: `merkleInfo(1)` on an empty ledger answers
  `None`, and goes on answering it after the first transaction (`MemoExact`, `NoneExact`, `StaleMerkleInfo`).
- `commitTxns(count)` slices: too large a count commits what there is and a negative one spares the last
  transactions, but the range reported then does not end at the new size (`Ledger.CommitTxns`).
- `discardTxns(count)` with a negative count keeps that many of the oldest pending transactions (`Ledger.DiscardTxns`).
- `auditProof` of a number past the end answers with the path of the last transaction (`Ledger.AuditProof`).
- `on_catchup_finished` with transactions still pending records a root that is not the committed one
  (`AuditBatchHandler.OnCatchupFinished`).
- `merkle_tree_hash` answers a range with its tree hash exactly when the range starts at a multiple of its first
  subtree; over leaves 2 and 3 it returns leaf 3 alone (`RangeHashExact`, `UnalignedPair`). The generators
  only ask for such ranges.
- Every entry of the request table is a function of the steps since its creation: who propagated it last with what,
  whether and when it was forwarded, and how many reports are outstanding (`LifeExact`, `RemovedExact`).
- Where code and comments differ the model follows the code: `getNodePosition` takes the sequence number of the last
  leaf of a subtree, not the first, and `canForward` forwards at f + 1 or more propagates, not exactly f + 1.

## Model

| member | source | states |
|---|---|---|
| Bits.CountBitsSet | ledger/util.py:5-11 | clearing the lowest bit until nothing is left counts the binary digits 1 |
| Bits.HighestBitSet | ledger/util.py:24-32 | repeated halving gives the number of binary digits |
| Bits.LowestBitSet | ledger/util.py:18-21 | `i & -i` in two's complement isolates the lowest set bit, whose 1-based index is returned |
| Bits.AndPredecessor | ledger/util.py:9 | `i & (i - 1)` is smaller and has exactly one set bit fewer |
| Bits.AndNegation | ledger/util.py:21 | `i & -i` is the power of two of the lowest set bit |
| MerkleHash.HashFold | ledger/tree_hasher.py:64-69 | the accumulator loop is the right fold, and on the compact list of any leaves it gives their RFC 6962 root |
| MerkleHash.FoldLast | ledger/tree_hasher.py:64-69 | folding any list at all joins the last two hashes first |
| MerkleHash.HashFullCorrect | ledger/tree_hasher.py:30-62 | exactly the valid ranges are hashed, to the RFC 6962 root and to the roots of the perfect subtrees given by the digits of the width; the left side of every split is one hash, as the source asserts |
| MerkleHash.HashRangeCorrect | ledger/tree_hasher.py:45-62 | the recursion returns root and compact list of its range for every range |
| MerkleHash.MthUp | ledger/merkle_verifier.py:85-121 | one level of pairwise hashing with an odd node promoted preserves the tree hash: bottom-up equals top-down |
| MerkleHash.FoldPeaks | ledger/compact_merkle_tree.py:81-88 | folding the compact list of any non-empty log gives its RFC 6962 root |
| MerkleHash.PeaksCount | ledger/compact_merkle_tree.py:35-40 | the compact list has as many hashes as the size has set bits, so `_update` accepts it |
| MerkleHash.PeaksConcat | ledger/compact_merkle_tree.py:181-184 | below the alignment of the tree, compact lists concatenate |
| MerkleHash.RootInjective | ledger/tree_hasher.py:20-28 | two logs with the same root are the same log |
| MerkleProofs.PathDenotes | ledger/compact_merkle_tree.py:217-249 | the range list of `_path` denotes PATH(m, D[n]) of section 2.1.1 of RFC 6962 |
| MerkleProofs.PathBeyond | ledger/compact_merkle_tree.py:237-249 | asked for a leaf past the end, `_path` describes the last leaf |
| MerkleProofs.SubproofDenotes | ledger/compact_merkle_tree.py:213-235 | the range list of `_subproof` denotes SUBPROOF(m, D[n], b) of section 2.1.2 of RFC 6962 |
| MerkleProofs.AuditPathIsSiblingPath | ledger/compact_merkle_tree.py:237-249 | the top-down audit path is the list of siblings met while climbing by levels |
| MerkleProofs.ConsistencyPathIsAnchored | ledger/compact_merkle_tree.py:221-235 | the top-down consistency proof is: climb while a right child, own hash unless it is the old root, then siblings |
| MerkleProofs.AppendPath | ledger/compact_merkle_tree.py:155-160 | the reversed compact list is the audit path of the next leaf, whatever that leaf is |
| MerkleRebuild.PairUp | ledger/merkle_verifier.py:101-121 | the top-down rebuild of both roots from a node and its siblings is the rebuild one level up from the parent, the first sibling used up |
| MerkleRebuild.EvenRebuild | ledger/merkle_verifier.py:82-89 | for an even number of old leaves the rebuild is the one a level up, with the same proof |
| MerkleRebuild.OddRebuild | ledger/merkle_verifier.py:91-99 | for an odd number of old leaves the rebuild starts from the first hash, or from the old root, and climbs by the rest |
| MerkleVerifier.VerifyTreeConsistency | ledger/merkle_verifier.py:22-153 | for every input: ValueError exactly for bad sizes, equal sizes compare the roots, size 0 accepts, and otherwise the verdict of the top-down rebuild of section 2.1.2 of RFC 6962; so against the root of any log it accepts if and only if the old root is that of the first m leaves and the proof starts with the RFC 6962 proof |
| MerkleVerifier.ConsistencyLoops | ledger/merkle_verifier.py:82-153 | the three shifting loops give the verdict of the top-down rebuild for all roots and every proof, also too short and too long ones |
| MerkleVerifier.VerdictIsRebuilt | ledger/merkle_verifier.py:82-153 | for all sizes, roots and proofs, roots of no log included, shifting indices and splitting top-down give the same verdict |
| MerkleVerifier.ClimbRebuilds | ledger/merkle_verifier.py:101-121 | from any start hashes the loops rebuild both roots out of the siblings an audit path has, leave the surplus, and stop short exactly with fewer |
| MerkleVerifier.RebuildGenuine | ledger/merkle_verifier.py:75-80 | from the genuine proof of a log the rebuild gives the genuine roots |
| MerkleVerifier.ConsistencyExact | ledger/merkle_verifier.py:82-153 | which of acceptance, bad proof and inconsistency is reported, for every old root and every proof |
| MerkleVerifier.ConsistencySound | ledger/merkle_verifier.py:58-65 | an accepted old root is the root of the log's first m leaves |
| MerkleVerifier.ConsistencyComplete | ledger/merkle_verifier.py:22-153 | the generated proof is accepted for every prefix of every log, the empty and the full one included |
| MerkleVerifier.AcceptedIsPrefix | ledger/merkle_verifier.py:22-153 | for any two logs, some proof between their roots is accepted if and only if the first log is a prefix of the second |
| MerkleVerifier.ClimbComplete | ledger/merkle_verifier.py:91-121 | genuine hashes rebuild both roots and leave exactly the surplus of the proof unread |
| MerkleVerifier.ClimbSound | ledger/merkle_verifier.py:101-121 | reaching the true new root forces the start hash and every sibling to be genuine |
| MerkleVerifier.CalculateRootHashFromAuditPath | ledger/merkle_verifier.py:155-181 | for every path: the root rebuilt top-down, or the error for the exact length |
| MerkleVerifier.AuditIsRebuilt | ledger/merkle_verifier.py:155-181 | for every leaf hash and path, shifting indices and splitting top-down give the same root or length error |
| MerkleVerifier.AuditLengthExact | ledger/merkle_verifier.py:155-193 | "too short" and "too long" are raised exactly when the path is shorter or longer than `audit_path_length` |
| MerkleVerifier.AuditPathLength | ledger/merkle_verifier.py:183-193 | the result is the length of the RFC 6962 audit path of that leaf in every log of that size |
| MerkleVerifier.AuditComplete | ledger/merkle_verifier.py:155-181 | the sibling path of any leaf rebuilds the root without a length error |
| MerkleVerifier.AuditSound | ledger/merkle_verifier.py:155-181 | rebuilding the true root forces leaf hash and path to be the genuine ones |
| MerkleVerifier.InclusionExact | ledger/merkle_verifier.py:219-238 | exactly the genuine leaf hash with the genuine path rebuilds the root |
| MerkleVerifier.VerifyLeafHashInclusion | ledger/merkle_verifier.py:195-238 | invalid sizes raise ValueError; otherwise accepted exactly if the top-down rebuild gives the claimed root, whatever that is; against the root of any log exactly the genuine leaf hash and path are accepted |
| MerkleVerifier.VerifyLeafInclusion | ledger/merkle_verifier.py:240-266 | the same for leaf data: ValueError exactly for invalid sizes, the rebuild against any claimed root, and against the root of any list of leaves exactly the genuine data and path |
| HashStores.NodePositionIndex | ledger/hash_stores/hash_store.py:87-104 | the closed form is: nodes of the smaller tree, plus the height |
| HashStores.NodeNumbering | ledger/hash_stores/hash_store.py:87-104 | over every run of appends the computed position of each node written is its 1-based write index |
| HashStores.NodeWritesCount | ledger/compact_merkle_tree.py:269-278 | n appends write n minus popcount(n) nodes |
| HashStores.NodeAt | ledger/hash_stores/hash_store.py:129-136 | the node of height h ending at leaf c sits at its position with the RFC 6962 hash of its leaves |
| HashStores.HoldsReads | plenum/persistence/db_hash_store.py:47-59 | what a store holds determines every read and both counts; a missing position reads as None from a database and raises from a file or below 1 |
| HashStores.HoldsLeaf | plenum/persistence/db_hash_store.py:38-40 | a leaf written joins the leaves held, behind the others, and no node changes |
| HashStores.HoldsNode | plenum/persistence/db_hash_store.py:42-45 | a node written at the next position joins the nodes held, behind the others, and no leaf changes |
| HashStores.LayoutsAgree | ledger/hash_stores/file_hash_store.py:62-89 | after every run of appends, each writing its leaf and then its nodes, both stores hold the same counts and hashes; where there is none, one returns None and the other raises |
| HashStores.PlanReadsPeaks | ledger/hash_stores/hash_store.py:106-127 | the plan for an aligned range reads only hashes already written, and they are the compact list of the range without its last leaf |
| HashStores.PlanFolds | ledger/compact_merkle_tree.py:203-211 | folding what the plan reads gives the RFC 6962 hash of the range |
| HashStores.RangeHashCorrect | ledger/compact_merkle_tree.py:197-211 | the store-backed hash of every aligned range within the log is its RFC 6962 hash, even before the nodes of the last append are written |
| HashStores.RangeHashStable | ledger/compact_merkle_tree.py:197-211 | the hash of an aligned range within the log is the same before and after later appends |
| HashStores.NoneExact | ledger/compact_merkle_tree.py:198-211 | the answer is None if and only if a database store is asked for a range past its leaves that takes one read: a single leaf, or a pair with odd start |
| HashStores.MemoExact | ledger/compact_merkle_tree.py:197-211 | an answer memoised before any appends is the answer after them if and only if the range ends within the old leaves or past the new ones |
| CompactMerkleTrees.MemoKept | ledger/compact_merkle_tree.py:197 | a right memo table stays right through any appends if and only if no entry ends past the old leaves and within the new ones, and such an entry is a None |
| RangeExactness.RangeHashExact | ledger/compact_merkle_tree.py:197-211 | in a log of distinct leaves the answer is the RFC 6962 hash of the range if and only if the start is a multiple of the size of the first subtree read, and even for two or more leaves |
| RangeExactness.LaterNode | ledger/hash_stores/hash_store.py:87-104 | nodes numbered past the count of a prefix end behind that prefix |
| RangeExactness.UnalignedPair | ledger/hash_stores/hash_store.py:118-123 | an unaligned pair is answered with its second leaf |
| HashStores.PathWellPlaced | ledger/compact_merkle_tree.py:237-249 | `_path` asks only for aligned ranges |
| HashStores.SubproofWellPlaced | ledger/compact_merkle_tree.py:221-235 | `_subproof` asks only for aligned ranges |
| HashStores.GetExpectedNodeCount | ledger/compact_merkle_tree.py:269-278 | the halving loop counts the nodes written for every log of that size |
| HashStores.PartialAppend | ledger/compact_merkle_tree.py:125-136 | after the leaf and any number of its nodes, the store holds exactly those behind everything older |
| HashStores.CompleteAppend | ledger/compact_merkle_tree.py:125-136 | a complete append turns the store of a log into the store of the longer log |
| CompactMerkleTrees.PushSmaller | ledger/compact_merkle_tree.py:138-142 | a smaller subtree adds one digit to the size and one hash at the end of the compact list |
| CompactMerkleTrees.PushEqual | ledger/compact_merkle_tree.py:143-153 | a carry removes the smallest digit, leaves a larger or no smallest subtree, and joins two equal subtrees |
| CompactMerkleTrees.CompactMerkleTree.Update | ledger/compact_merkle_tree.py:35-45 | refuses a number of hashes other than the set bits of the size, otherwise sets size, hashes and smallest height |
| CompactMerkleTrees.CompactMerkleTree.Copy | ledger/compact_merkle_tree.py:62-63 | a copy stands for the same leaves and has a store of its own |
| CompactMerkleTrees.CompactMerkleTree.RootHash | ledger/compact_merkle_tree.py:81-88 | the cached or folded value is the RFC 6962 root, the empty hash for no leaves |
| CompactMerkleTrees.CompactMerkleTree.PushSubtreeHash | ledger/compact_merkle_tree.py:138-153 | the carry recursion terminates, trips neither assertion, keeps the compact invariant and returns the nodes of the perfect subtrees it completes |
| CompactMerkleTrees.CompactMerkleTree.PushSubtree | ledger/compact_merkle_tree.py:95-136 | raises exactly for sizes that are no power of two or exceed the smallest subtree; otherwise extends the leaves and writes the completed nodes |
| CompactMerkleTrees.CompactMerkleTree.Append | ledger/compact_merkle_tree.py:155-160 | adds the leaf, returns its RFC 6962 audit path in the new tree, keeps a complete store complete |
| CompactMerkleTrees.CompactMerkleTree.Extend | ledger/compact_merkle_tree.py:162-185 | terminates and ends in the state of appending the leaves one by one |
| CompactMerkleTrees.CompactMerkleTree.MerkleTreeHash | ledger/compact_merkle_tree.py:197 | a memoised answer is given unread; otherwise the store's, which is kept unless it was an exception; a right table stays right and then makes no difference |
| CompactMerkleTrees.CompactMerkleTree.ReadTreeHash | ledger/compact_merkle_tree.py:198-211 | the reading loops compute the specified range hash, None or exception |
| CompactMerkleTrees.FoldReads | ledger/tree_hasher.py:64-69 | hashes fold to one; a lone None comes back, None beside anything else raises |
| CompactMerkleTrees.CompactMerkleTree.InclusionProof | ledger/compact_merkle_tree.py:217-219 | from a store of the log and a right memo table the RFC 6962 audit path is served; one past the end it is the reversed compact list; the table stays right |
| CompactMerkleTrees.CompactMerkleTree.ConsistencyProof | ledger/compact_merkle_tree.py:213-215 | from a store of the log and a right memo table the RFC 6962 consistency proof is served; the table stays right |
| CompactMerkleTrees.CompactMerkleTree.VerifyConsistency | ledger/compact_merkle_tree.py:280-289 | passes exactly when both counts match; the store of every reachable tree passes with its own size and no other |
| CompactMerkleTrees.CompactMerkleTree.Reset | ledger/compact_merkle_tree.py:291-294 | tree and store are those of the empty log |
| Ledgers.Ledger.AddToLedger | ledger/ledger.py:115-154 | log, number, tree and store move together to the longer log; root and audit path returned are those of the new transaction |
| Ledgers.Ledger.Add | plenum/common/ledger.py:59-65 | numbers a transaction without number, commits it, keeps the uncommitted root right if and only if no uncommitted tree is cached, and the memo table if and only if no entry ends at the new size |
| Ledgers.StaleUncommittedRoot | plenum/common/ledger.py:38-65 | from every ledger with nothing pending, `appendTxns([])` and then `add` end with an uncommitted root that is not the root |
| Ledgers.Ledger.MerkleInfoOf | ledger/ledger.py:196-205 | with a right memo table, root and audit path are those returned when the transaction was added, at any later size; past the end it raises, except that a database store answers number 1 with None; a table without entries past the end gets one if and only if that happened |
| Ledgers.StaleMerkleInfo | ledger/ledger.py:196-205 | from every empty database-backed ledger, asking for number 1, adding it and asking again answers None both times |
| Ledgers.Ledger.AuditProof | ledger/ledger.py:207-217 | with a right memo table, root and audit path at the current size; past the end the path of the last transaction |
| Ledgers.AuditProofVerifies | ledger/ledger.py:207-217 | the path handed out convinces the verifier for that transaction and for nothing else |
| Ledgers.Ledger.RecoverTreeFromTxnLog | ledger/ledger.py:94-105 | replaying the log restores tree, store and number, whatever the store held |
| Ledgers.Ledger.RecoverTreeFromHashStore | ledger/ledger.py:107-113 | from a store that serves some leaves, the reversed path of the leaf to come restores exactly their compact state; fails exactly when a count differs |
| Ledgers.Ledger.RecoverTree | ledger/ledger.py:70-92 | for every store that answers for some leaves, with a right memo table: if both counts are those of the log the tree stands for these leaves, otherwise, also when the store is ahead, it is rebuilt from the log; so from every state a crash inside an append can leave, the ledger comes back consistent with its whole log, and what recovery memoised is right for it |
| Ledgers.CrashPoints | ledger/ledger.py:124-130 | every prefix of the writes of an append leaves such a state |
| Ledgers.ImageServes | ledger/ledger.py:107-113 | such a state answers for a prefix of the log and passes the count check only when it is complete |
| Ledgers.Ledger.UncommittedRootHash | plenum/common/ledger.py:22-28 | the root of committed followed by uncommitted transactions |
| Ledgers.Ledger.AppendTxnsMetadata | plenum/common/ledger.py:30-36 | one common time and consecutive numbers after everything pending |
| Ledgers.Ledger.TreeWithAppliedTxns | plenum/common/ledger.py:129-143 | a fresh tree over the leaves of the base followed by the transactions; an empty current tree does not count |
| Ledgers.Ledger.AppendTxns | plenum/common/ledger.py:38-57 | refuses exactly unnumbered transactions and then changes nothing; otherwise they are pending behind the others, a tree and root of everything applied are cached, even for no transactions, and the range of numbers is returned |
| Ledgers.Ledger.AddAll | plenum/common/ledger.py:84-86 | each committed transaction gets the root and audit path of its own moment; the memo table stays right if and only if no entry ends among the new transactions |
| Ledgers.Ledger.CommitTxns | plenum/common/ledger.py:75-100 | for every integer count moves the slice of the oldest pending transactions to the log and changes neither uncommitted root nor uncommitted size; the reported end is the new size if and only if the count was in bounds or nothing was committed |
| Ledgers.Ledger.DiscardTxns | plenum/common/ledger.py:102-127 | for every integer count the newest pending transactions the slice leaves out are gone, the committed ones stay, and uncommitted root and size are those of what is left; refuses more than there are |
| Ledgers.Ledger.ResetUncommitted | plenum/common/ledger.py:145-148 | nothing is pending, the committed transactions stay, uncommitted root and size are the committed ones |
| Ledgers.Ledger.GetBySeqNoUncommitted | plenum/common/ledger.py:163-168 | reads committed followed by uncommitted transactions by number |
| Ledgers.AppendOnly | plenum/common/ledger.py:75-148 | over every run the committed log only grows |
| Ledgers.RunConsecutive | plenum/common/ledger.py:30-148 | over every run of numbered batches, commits, discards and resets, numbers stay consecutive |
| Ledgers.RunConsistent | plenum/common/ledger.py:38-148 | for any two points of any run the verifier accepts the consistency proof between their roots |
| UncommittedTrackers.LedgerUncommittedTracker.CommitBatch | plenum/common/ledger_uncommitted_tracker.py:29-43 | pops the oldest batch and counts from the last committed size |
| UncommittedTrackers.LedgerUncommittedTracker.RejectBatch | plenum/common/ledger_uncommitted_tracker.py:45-60 | pops the newest batch and counts down to its predecessor or the last committed size |
| UncommittedTrackers.AuditBatchHandler.PostBatchApplied | plenum/server/batch_handlers/audit_batch_handler.py:27-31 | stamps the batch with numbers and time, applies and tracks it; ledger and tracker stay coupled |
| UncommittedTrackers.AuditBatchHandler.CommitBatch | plenum/server/batch_handlers/audit_batch_handler.py:39-44 | the tracker's count is the size of the oldest batch, exactly that batch is committed, each transaction with root and path of its moment, and the ledger is at the root the tracker returned |
| UncommittedTrackers.AuditBatchHandler.PostBatchRejected | plenum/server/batch_handlers/audit_batch_handler.py:33-37 | the tracker's count is the size of the newest batch, exactly that batch is dropped, and the uncommitted root is the one the tracker returned |
| UncommittedTrackers.AuditBatchHandler.OnCatchupFinished | plenum/server/batch_handlers/audit_batch_handler.py:46-49 | the tracker records the uncommitted root with the committed size and keeps its batches; with nothing pending ledger and tracker are coupled again; the recorded root is the committed one if and only if nothing is pending |
| IntervalLists.IntervalList.Add | plenum/server/replica_helper.py:88-128 | keeps the intervals sorted, disjoint and not adjacent, and adds exactly the item |
| IntervalLists.IntervalList.Contains | plenum/server/replica_helper.py:85-86 | membership in the set of items added |
| IntervalLists.IntervalList.Len | plenum/server/replica_helper.py:77-78 | the sum of interval lengths is the number of distinct items |
| IntervalLists.CanonicalUnique | plenum/server/replica_helper.py:80-83 | lists of the same set are equal however they were built, so comparing intervals compares sets |
| BatchSplitter.SplitMessagesOnBatches | plenum/common/prepare_batch.py:8-31 | terminates; returns None exactly when some message alone is too long; otherwise batches that cover the messages in order, each under the limit with every prefix and not with one message more |
| BatchSplitter.FillBatch | plenum/common/prepare_batch.py:14-22 | fills a batch so that only the last message may have taken it over the limit |
| BatchSplitter.SplitUnique | plenum/common/prepare_batch.py:11-28 | the greedy split is the only one with that property |
| BatchSplitter.SplitConserves | plenum/common/prepare_batch.py:24-28 | batch sizes add up to the number of messages and every batch is non-empty and under the limit |
| OptimisticKvStores.OptimisticKVStore.Get | storage/optimistic_kv_store.py:49-60 | searching newest first reads the store overlaid by batches in order and then pending writes |
| OptimisticKvStores.OptimisticKVStore.SetKey | storage/optimistic_kv_store.py:62-66 | an uncommitted write changes the view at its key only; a committed one changes the store only |
| OptimisticKvStores.OptimisticKVStore.CreateBatchFromCurrent | storage/optimistic_kv_store.py:27-29 | the pending writes become the newest batch, the view does not change |
| OptimisticKvStores.OptimisticKVStore.CommitBatch | storage/optimistic_kv_store.py:38-47 | the oldest batch moves into the store, the view does not change, its identifier is returned |
| OptimisticKvStores.OptimisticKVStore.RejectBatch | storage/optimistic_kv_store.py:31-36 | the newest batch and the pending writes are gone, the view is that of the preceding batches |
| OptimisticKvStores.RunView | storage/optimistic_kv_store.py:27-66 | from any state, over every run without rejects the view is the start overlaid by the writes in order, whenever batches are created or committed |
| OptimisticKvStores.RunSurvivors | storage/optimistic_kv_store.py:27-66 | over every run of writes, creates, commits and rejects on a new store, the view is the base overlaid by the writes that survive, and the backing store holds those of them before the first open batch |
| OptimisticKvStores.RejectUndoes | storage/optimistic_kv_store.py:31-47 | from any state, creating a batch, then writes, matched creates and rejects and commits of older batches, then a reject end in the state of the commits alone |
| QuorumSizes.MaxFailuresExact | plenum/common/util.py:220-231 | f is the largest number with n >= 3f + 1 |
| QuorumSizes.StrongIntersect | plenum/server/quorums.py:15-28 | two sets of n - f nodes share at least f + 1 nodes |
| QuorumSizes.WeakHasHonest | plenum/server/quorums.py:20-22 | f + 1 nodes include one outside every faulty set of at most f |
| QuorumSizes.HonestReach | plenum/server/quorums.py:15-28 | whichever nodes of at most f are faulty, the others alone reach both quorums |
| Propagators.ReqWithAcceptableQuorum | plenum/server/propagator.py:38-46 | grouping senders by digest returns the request at which some digest first reaches the quorum |
| Propagators.FirstAcceptableSound | plenum/server/propagator.py:38-46 | an accepted request was propagated and its digest has the quorum of distinct named senders |
| Propagators.FirstAcceptableComplete | plenum/server/propagator.py:38-46 | a digest with a named sender and the quorum makes some request acceptable |
| Propagators.FirstAcceptableExact | plenum/server/propagator.py:38-46 | the request accepted is that of the first propagate that brings its digest to the quorum; none exactly if no propagate does |
| Propagators.PutExact | plenum/server/propagator.py:111-120 | the pair takes the place of the sender's old one or comes last, every other pair stays, senders stay distinct |
| Propagators.ForwardsExact | plenum/server/propagator.py:241-271 | the check says yes if and only if enough distinct named senders propagated an entry not forwarded yet |
| Propagators.NextOk | plenum/server/propagator.py:75-179 | every operation keeps: senders are distinct, propagates match their entry, finalised entries have their quorum, forwarded ones are finalised, the counter is exact |
| PropagateHistories.PropagateSafety | plenum/server/propagator.py:241-271 | in every run a finalised or forwarded request was propagated, by a step of that run, by a node outside any faulty set of at most f, and the counter is the number of finalised entries |
| PropagateHistories.LifeExact | plenum/server/propagator.py:75-179 | in every run an entry is what the steps since its creation make it: creating request, each sender once with what it sent last, executed if told so, forwarded and finalised exactly at the first attempt with a quorum of distinct nodes, counters the replicas minus the reports since |
| PropagateHistories.RemovedExact | plenum/server/propagator.py:142-179 | in every run an entry appears exactly by an add or a propagate, and disappears exactly when forced, or when reported executed or freed once it is executed and freed as often as it was forwarded |
| PropagateHistories.VoterSent | plenum/server/propagator.py:111-120 | in every run each voter recorded for a key propagated that key |
| Propagators.ForwardedOnce | plenum/server/propagator.py:258-259 | in every run, between two forwardings of a key its entry was removed |
| Propagators.Requests.AddPropagate | plenum/server/propagator.py:111-120 | creates the entry if needed; the sender's pair takes the place of its old one or comes last, and every other pair stays |
| Propagators.Requests.MarkAsExecuted | plenum/server/propagator.py:142-151 | marks the entry and removes it once every replica freed it |
| Propagators.Requests.FreeEntry | plenum/server/propagator.py:153-165 | counts a replica down and removes an executed entry |
| Propagators.Requests.ForceFree | plenum/server/propagator.py:167-173 | removes the entry and corrects the counter |
| Propagators.Propagator.Propagate | plenum/server/propagator.py:204-218 | broadcasts and records the own vote exactly once |
| Propagators.Propagator.TestForward | plenum/server/propagator.py:241-271 | says yes exactly for an unforwarded entry with a quorum, and then finalises it; missing and forwarded entries are told apart |
| Propagators.Propagator.TryForwarding | plenum/server/propagator.py:300-314 | hands the key to the replicas exactly in that case and marks the entry forwarded |
| Propagators.Propagator.RecordAndPropagate | plenum/server/propagator.py:289-298 | broadcasts exactly if the node had not propagated it; hands the key to the replicas exactly if it was not forwarded and the senders so far with the node itself reach the quorum; the table is that of the run add, own vote unless given before, try to forward |

## Left out

- Byte level of hashes: SHA-256, the length of a hash and the concatenation inside `hash_children` are replaced by injective constructors; nothing is claimed about proofs with hashes of other lengths.
- Byte level of stores: files as fixed-size records with seek offsets, RocksDB and LevelDB; a record is one hash.
- `MemoryHashStore`, `readLeafs`, `readNodes` and `dataGen`: the memory store keeps whole tuples and serves no proofs; a copied tree gets an empty sequential store in its place.
- `lru_cache`: which entries a full cache drops is left open, and nothing is stated about a table that outlives a `reset` of its tree other than through recovery.
- `load`, `save` and `extended` of the tree: thin wrappers of `_update` and `extend`.
- CompactMerkleTrees.CompactMerkleTree.Extend: says nothing about the store, into which the source writes one subtree hash per chunk and nothing for the tail.
- Ledgers.Ledger.RecoverTreeFromTxnLog: a read-only ledger, which skips the reset before the replay, is not modelled.
- Ledgers.Ledger.RecoverTreeFromHashStore: nothing is stated about a store that serves no list of leaves; the source would take over a `None` read from a gap, the model reports an error.
- Ledgers.Ledger.RecoverTree: a non-persistent store and a read-only ledger are not modelled, nothing is claimed about stores that answer for no list of leaves, and nothing about the memo table after a store that was not a prefix of the log.
- Genesis transactions, `get`, `getAllTxn`, base58 of roots: initial file loading, scans of the log and an encoding, none of which touches the tree or the pending transactions.
- Aliasing of transaction dictionaries between ledger and caller: transactions are values here; the merkle info that `commitTxns` adds to them is returned beside them.
- State roots of batches are carried along but not interpreted; the state trie is not part of this model.
- The audit transaction's content: `PostBatchApplied` takes the transactions of a batch, none when the batch has no audit transaction.
- `OrderedTracker`: one interval list per view number, each call passed on to the list of its view; what an interval list guarantees is stated for the list.
- BatchSplitter.SplitMessagesOnBatches: popping from and inserting into the caller's list is modelled by a position in it; what is left of the list is returned.
- `remove` and `do_ops_in_batch` of the optimistic store: the uncommitted filter keeps the removed key, which has no view to speak of.
- Quorums of n - f - 1: the thresholds that leave out the node's own vote.
- Float division in `getMaxFailures`: integer division here, the same for every pool a float can count.
- Node-level message handling, view change, ordering, checkpoints: only the steps visible in the propagator are modelled; sent messages are recorded, not delivered.
- Monitoring, metrics, wallets, network stacks, configuration: rounding, clocks and I/O.
