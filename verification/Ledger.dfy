/** The ledger: transaction log plus Merkle tree (ledger/ledger.py), and the optimistic,
    not yet committed extension of it (plenum/common/ledger.py). */
module Ledgers {
  import opened Bits
  import opened MerkleHash
  import opened MerkleProofs
  import opened HashStores
  import opened MerkleVerifier
  import opened CompactMerkleTrees
  import opened Wrappers

  datatype Txn = Txn(payload: Bytes, seqNo: Option<nat>, txnTime: Option<nat>)

  datatype MerkleInfo = MerkleInfo(rootHash: Hash, auditPath: seq<Hash>)

  /** Root and audit path as read back from the hash store; the reader may be handed None for a hash. */
  datatype ServedInfo = ServedInfo(rootHash: Option<Hash>, auditPath: seq<Option<Hash>>)

  datatype LedgerError =
    | MissingSeqNo    // appendTxns was given a transaction without sequence number
    | LogicError      // discardTxns was asked for more than there is
    | BadSeqNo        // seqNo must be positive
    | StoreError      // a hash was not found, or the range was empty
    | ConsistencyVerificationFailed

  function TxnLeaves(serialize: Txn -> Bytes, txns: seq<Txn>): (r: seq<Hash>)
    ensures |r| == |txns|
    ensures forall i | 0 <= i < |r| :: r[i] == LeafHash(serialize(txns[i]))
  {
    seq(|txns|, i requires 0 <= i < |txns| => LeafHash(serialize(txns[i])))
  }

  lemma {:induction false} TxnLeavesConcat(serialize: Txn -> Bytes, a: seq<Txn>, b: seq<Txn>)
    ensures TxnLeaves(serialize, a + b) == TxnLeaves(serialize, a) + TxnLeaves(serialize, b)
  {
  }

  /** The transaction log: keys count from 1. */
  function LogOf(txns: seq<Txn>): map<int, Txn> {
    map i | 1 <= i <= |txns| :: TxnAt(txns, i)
  }

  function TxnAt(txns: seq<Txn>, i: int): Txn
    requires 1 <= i <= |txns|
  {
    txns[i - 1]
  }

  lemma {:induction false} LogOfSnoc(txns: seq<Txn>, txn: Txn)
    ensures LogOf(txns)[|txns| + 1 := txn] == LogOf(txns + [txn])
  {
  }

  lemma {:induction false} LogOfSize(txns: seq<Txn>)
    ensures |LogOf(txns)| == |txns|
  {
    if txns != [] {
      var init := txns[..|txns| - 1];
      LogOfSize(init);
      LogOfSnoc(init, txns[|txns| - 1]);
      assert txns == init + [txns[|txns| - 1]];
    }
  }

  lemma {:induction false} LogEntry(serialize: Txn -> Bytes, txns: seq<Txn>, i: nat)
    requires i < |txns|
    ensures i + 1 in LogOf(txns) && LogOf(txns)[i + 1] == txns[i]
    ensures TxnLeaves(serialize, txns[..i + 1]) == TxnLeaves(serialize, txns[..i]) + [LeafHash(serialize(txns[i]))]
  {
  }

  /** Number the transactions start + 1, start + 2, ... */
  function Numbering(txns: seq<Txn>, start: nat): (r: seq<Txn>)
    ensures |r| == |txns|
    ensures forall i | 0 <= i < |r| :: r[i] == txns[i].(seqNo := Some(start + i + 1))
  {
    seq(|txns|, i requires 0 <= i < |txns| => txns[i].(seqNo := Some(start + i + 1)))
  }

  // ----- The ledger as a state machine -----

  datatype LedgerState = LedgerState(committed: seq<Txn>, uncommitted: seq<Txn>)

  datatype Step = Apply(txns: seq<Txn>) | Commit(count: int) | Discard(count: int) | Reset

  /** Where the slice [:count] of a list of n elements ends; a negative count is taken from the end. */
  function SliceEnd(n: nat, count: int): (k: nat)
    ensures k <= n
  {
    var end := if count < 0 then n + count else count;
    if end < 0 then 0 else if end > n then n else end
  }

  function Next(s: LedgerState, step: Step): LedgerState {
    var n := |s.uncommitted|;
    match step
    case Apply(txns) =>
      if exists t <- txns :: t.seqNo == None then s else s.(uncommitted := s.uncommitted + txns)
    case Commit(count) =>
      var k := SliceEnd(n, count);
      LedgerState(s.committed + s.uncommitted[..k], s.uncommitted[k..])
    case Discard(count) =>
      if count == 0 || count > n then s else s.(uncommitted := s.uncommitted[..SliceEnd(n, -count)])
    case Reset => s.(uncommitted := [])
  }

  function Run(s: LedgerState, steps: seq<Step>): LedgerState
    decreases |steps|
  {
    if steps == [] then s else Run(Next(s, steps[0]), steps[1..])
  }

  /** Over every run, committed transactions are never changed or removed. */
  lemma {:induction false} AppendOnly(s: LedgerState, steps: seq<Step>)
    ensures s.committed <= Run(s, steps).committed
    decreases |steps|
  {
    if steps != [] { AppendOnly(Next(s, steps[0]), steps[1..]); }
  }

  /** Transaction i + 1 carries the number i + 1. */
  predicate Consecutive(s: LedgerState) {
    forall i | 0 <= i < |s.committed + s.uncommitted| :: (s.committed + s.uncommitted)[i].seqNo == Some(i + 1)
  }

  /** Every applied batch was numbered by append_txns_metadata just before. */
  predicate NumberedRun(s: LedgerState, steps: seq<Step>)
    decreases |steps|
  {
    steps != [] ==>
      && (steps[0].Apply? ==> forall i | 0 <= i < |steps[0].txns| ::
            steps[0].txns[i].seqNo == Some(|s.committed| + |s.uncommitted| + i + 1))
      && NumberedRun(Next(s, steps[0]), steps[1..])
  }

  /** Over every run of numbered batches, commits, discards and resets, the numbers stay consecutive. */
  lemma {:induction false} RunConsecutive(s: LedgerState, steps: seq<Step>)
    requires Consecutive(s) && NumberedRun(s, steps)
    ensures Consecutive(Run(s, steps))
    decreases |steps|
  {
    if steps != [] {
      NextConsecutive(s, steps[0]);
      RunConsecutive(Next(s, steps[0]), steps[1..]);
    }
  }

  lemma {:induction false} NextConsecutive(s: LedgerState, step: Step)
    requires Consecutive(s)
    requires step.Apply? ==> forall i | 0 <= i < |step.txns| ::
               step.txns[i].seqNo == Some(|s.committed| + |s.uncommitted| + i + 1)
    ensures Consecutive(Next(s, step))
  {
    var all := s.committed + s.uncommitted;
    var next := Next(s, step);
    match step {
      case Apply(txns) =>
        if next != s { assert next.committed + next.uncommitted == all + txns; }
      case Commit(count) =>
        var k := SliceEnd(|s.uncommitted|, count);
        assert s.uncommitted == s.uncommitted[..k] + s.uncommitted[k..];
        assert next.committed + next.uncommitted == all;
      case Discard(count) => assert next.committed + next.uncommitted == all[..|next.committed + next.uncommitted|];
      case Reset => assert next.committed + next.uncommitted == all[..|s.committed|];
    }
  }

  /** For any two points of any run, the later tree proves to the verifier that it extends the earlier one. */
  lemma {:induction false} RunConsistent(serialize: Txn -> Bytes, s: LedgerState, steps: seq<Step>)
    ensures var before := TxnLeaves(serialize, s.committed);
            var after := TxnLeaves(serialize, Run(s, steps).committed);
            && |before| <= |after|
            && ConsistencyVerdict(|before|, |after|, Root(before), Root(after),
                 if before == [] then [] else ConsistencyPath(after, |before|, true)) == Accepted
  {
    hide Root, ConsistencyPath, ConsistencyVerdict, Run;
    AppendOnly(s, steps);
    var before := TxnLeaves(serialize, s.committed);
    var after := TxnLeaves(serialize, Run(s, steps).committed);
    assert before == after[..|before|];
    ConsistencyComplete(after, |before|);
  }

  class Ledger {
    const serialize: Txn -> Bytes
    const tree: CompactMerkleTree
    var log: map<int, Txn>
    var seqNo: nat
    var uncommittedTxns: seq<Txn>
    var uncommittedRootHash: Option<Hash>
    var uncommittedTree: CompactMerkleTree?

    /** The committed transactions, in order. */
    ghost var committed: seq<Txn>

    ghost function Leaves(txns: seq<Txn>): seq<Hash> {
      TxnLeaves(serialize, txns)
    }

    ghost function State(): LedgerState
      reads this
    {
      LedgerState(committed, uncommittedTxns)
    }

    /** Log, sequence number, tree and hash store all describe the committed transactions. */
    ghost predicate CommittedOk()
      reads this, tree, tree.store
    {
      && log == LogOf(committed)
      && seqNo == |committed|
      && tree.Valid() && tree.leaves == Leaves(committed)
      && tree.store.layout.Stores(tree.leaves)
    }

    /** The cached uncommitted tree and root are those of committed followed by uncommitted. */
    ghost predicate UncommittedOk()
      reads this, uncommittedTree
    {
      if uncommittedTree == null then uncommittedTxns == [] && uncommittedRootHash == None
      else
        && uncommittedTree != tree && uncommittedTree.store != tree.store
        && uncommittedTree.Valid()
        && uncommittedTree.leaves == Leaves(committed + uncommittedTxns)
        && uncommittedRootHash == Some(Root(uncommittedTree.leaves))
    }

    ghost predicate Valid()
      reads this, tree, tree.store, uncommittedTree
    {
      CommittedOk() && UncommittedOk()
    }

    /** Every memoised range hash is the one the hash store gives. */
    ghost predicate CacheOk()
      reads tree, tree.store, tree.cache
    {
      Agrees(tree.cache.entries, tree.store.layout)
    }

    /** No memoised range ends past the committed transactions, so that appends cannot make one stale. */
    ghost predicate CacheSettled()
      reads this, tree.cache
    {
      forall r <- tree.cache.entries :: r.1 <= |committed|
    }

    lemma StoredLeaves()
      requires CommittedOk()
      ensures tree.leaves == Leaves(committed) && tree.store.layout.Stores(tree.leaves)
    {
    }

    lemma SeqNoIsSize()
      requires Valid()
      ensures seqNo == Size() == |committed|
    {
    }

    /** A ledger over an empty log and store. */
    constructor (serialize: Txn -> Bytes, store: HashStore)
      requires store.layout.Stores([])
      ensures Valid() && committed == [] && uncommittedTxns == []
      ensures this.serialize == serialize && tree.store == store && fresh(tree)
      ensures CacheOk() && CacheSettled()
    {
      this.serialize := serialize;
      tree := new CompactMerkleTree(store);
      log, seqNo := map[], 0;
      uncommittedTxns, uncommittedRootHash, uncommittedTree := [], None, null;
      committed := [];
    }

    // ----- Committed part -----

    method AddToLedger(txn: Txn) returns (info: MerkleInfo)
      requires CommittedOk()
      modifies this`log, this`seqNo, this`committed, tree, tree.store
      ensures CommittedOk() && committed == old(committed) + [txn]
      ensures info == MerkleInfo(Root(Leaves(committed)), AuditPath(Leaves(committed), |committed| - 1))
      ensures tree.store.layout.Keyed? <==> old(tree.store.layout.Keyed?)
    {
      hide AuditPath, Root, NodeWrites, NewNodes, PutNodes, Peaks;
      log := log[seqNo + 1 := txn];
      LogOfSnoc(committed, txn);
      TxnLeavesConcat(serialize, committed, [txn]);
      var auditPath := tree.Append(serialize(txn));
      seqNo := seqNo + 1;
      committed := committed + [txn];
      assert tree.leaves == Leaves(committed);
      var root := tree.RootHash();
      info := MerkleInfo(root, auditPath);
    }

    /** What uncommitted_root_hash returns. */
    ghost function UncommittedRoot(): Hash
      reads this, tree
    {
      if uncommittedRootHash.Some? then uncommittedRootHash.value else Root(tree.leaves)
    }

    lemma {:induction false} PendingRoot()
      requires Valid()
      ensures UncommittedRoot() == Root(Leaves(committed + uncommittedTxns))
      ensures UncommittedSize() == |committed + uncommittedTxns|
    {
      if uncommittedTree == null { assert committed + uncommittedTxns == committed; }
    }

    /** add: number the transaction if it has no number, then commit it directly. The uncommitted root stays
        the root of committed followed by uncommitted exactly when no uncommitted tree is cached. */
    method Add(txn: Txn) returns (info: MerkleInfo)
      requires Valid()
      modifies this`log, this`seqNo, this`committed, tree, tree.store
      ensures CommittedOk()
      ensures committed == old(committed) + [if txn.seqNo == None then txn.(seqNo := Some(old(seqNo) + 1)) else txn]
      ensures info == MerkleInfo(Root(Leaves(committed)), AuditPath(Leaves(committed), |committed| - 1))
      ensures uncommittedTree == null ==> Valid()
      ensures UncommittedRoot() == Root(Leaves(committed + uncommittedTxns)) <==> uncommittedTree == null
      ensures old(CacheOk()) ==> (CacheOk() <==> forall r <- tree.cache.entries :: r.1 != |committed|)
    {
      hide Root, AuditPath, TxnLeaves, LogOf, Peaks, NodeWrites, Lowest, RangeHash;
      ghost var before := committed + uncommittedTxns;
      ghost var leaves := tree.leaves;
      info := AddToLedger(if txn.seqNo == None then txn.(seqNo := Some(seqNo + 1)) else txn);
      if old(CacheOk()) {
        MemoAfter(tree.cache.entries, old(tree.store.layout), tree.store.layout, leaves, tree.leaves);
      }
      if uncommittedTree != null {
        RootOfSize(serialize, before, committed + uncommittedTxns);
      } else {
        assert committed + uncommittedTxns == committed;
      }
    }

    /** getBySeqNo; None stands for KeyError. */
    function GetBySeqNo(s: int): Option<Txn>
      reads this
    {
      if s in log then Some(log[s]) else None
    }

    function Size(): nat
      reads tree
    {
      tree.treeSize
    }

    /** merkleInfo: root and audit path as of the time transaction s was added, whatever came later. Past the
        end a database store answers number 1 with None and an empty path; that None is then memoised. */
    method MerkleInfoOf(s: int) returns (r: Result<ServedInfo, LedgerError>)
      requires CommittedOk()
      modifies tree.cache
      ensures s <= 0 ==> r == Err(BadSeqNo) && tree.cache.entries == old(tree.cache.entries)
      ensures s >= 1 && (0, s) in old(tree.cache.entries) && r.Ok? ==>
                r.value.rootHash == old(tree.cache.entries)[(0, s)]
      ensures s == 1 && (0, 1) in old(tree.cache.entries) ==> r.Ok?
      ensures r.Ok? && s == 1 ==> (0, 1) in tree.cache.entries && tree.cache.entries[(0, 1)] == r.value.rootHash
                                  && r.value.auditPath == []
      ensures old(CacheOk()) ==> CacheOk()
      ensures old(CacheOk()) && 1 <= s <= |committed| ==>
                r == Ok(ServedInfo(Some(Root(Leaves(committed[..s]))), Somes(AuditPath(Leaves(committed[..s]), s - 1))))
      ensures old(CacheOk()) && s > |committed| ==>
                r == if s == 1 && tree.store.layout.Keyed? then Ok(ServedInfo(None, [])) else Err(StoreError)
      ensures old(CacheOk() && CacheSettled()) ==> (CacheSettled() <==> s <= |committed| || r.Err?)
    {
      hide AuditPath, RangeHash, WellPlaced, NodeWrites, Mth, Path, LogOf, TxnLeaves, Peaks, Lowest;
      if s <= 0 { return Err(BadSeqNo); }
      ghost var agreed := CacheOk();
      var root := tree.MerkleTreeHash(0, s);
      if agreed {
        StoredRoot(tree.store.layout, tree.leaves, s);
        StoresServes(tree.store.layout, tree.leaves);
        assert s <= |committed| ==> tree.leaves[..s] == Leaves(committed[..s]);
      }
      if root.Err? { return Err(StoreError); }
      PathWithin(s - 1, 0, s);
      var path := tree.InclusionProof(s - 1, s);
      if path.Err? { return Err(StoreError); }
      r := Ok(ServedInfo(root.value, path.value));
    }

    /** auditProof: root and audit path at the current size. A number past the end gets the path of the
        last transaction. */
    method AuditProof(s: int) returns (r: Result<ServedInfo, LedgerError>)
      requires CommittedOk()
      modifies tree.cache
      ensures s <= 0 ==> r == Err(BadSeqNo)
      ensures old(CacheOk()) ==> CacheOk()
      ensures old(CacheOk()) && s > 0 && committed == [] ==> r == Err(StoreError)
      ensures old(CacheOk()) && s > 0 && committed != [] ==>
                r == Ok(ServedInfo(Some(Root(Leaves(committed))),
                                   Somes(AuditPath(Leaves(committed), if s <= |committed| then s - 1 else |committed| - 1))))
      ensures old(CacheOk() && CacheSettled()) ==> CacheSettled()
    {
      hide AuditPath, RangeHash, WellPlaced, NodeWrites, Mth, Path, LogOf, TxnLeaves, Peaks, Lowest;
      if s <= 0 { return Err(BadSeqNo); }
      var size := tree.treeSize;
      ghost var agreed := CacheOk();
      var root := tree.MerkleTreeHash(0, size);
      if agreed {
        StoredRoot(tree.store.layout, tree.leaves, size);
        StoresServes(tree.store.layout, tree.leaves);
        assert tree.leaves[..size] == tree.leaves;
      }
      if root.Err? || size == 0 { return Err(StoreError); }
      if s > size { PathBeyond(s - 1, 0, size); }
      PathWithin(if s <= size then s - 1 else size - 1, 0, size);
      var path := tree.InclusionProof(s - 1, size);
      if path.Err? { return Err(StoreError); }
      r := Ok(ServedInfo(root.value, path.value));
    }

    // ----- Recovery -----

    /** recoverTreeFromTxnLog: replay the log into an emptied tree and store. */
    method RecoverTreeFromTxnLog()
      requires log == LogOf(committed)
      modifies this`seqNo, tree, tree.store
      ensures CommittedOk() && (tree.store.layout.Keyed? <==> old(tree.store.layout.Keyed?))
    {
      hide Peaks, NodeWrites, NewNodes, PutNodes, AuditPath, Lowest, LogOf, TxnLeaves;
      LogOfSize(committed);
      tree.Reset();
      seqNo := 0;
      for i := 0 to |log|
        invariant seqNo == i && tree.Valid() && tree.leaves == Leaves(committed[..i])
        invariant tree.store.layout.Stores(tree.leaves)
        invariant tree.store.layout.Keyed? <==> old(tree.store.layout.Keyed?)
      {
        LogEntry(serialize, committed, i);
        var entry := log[i + 1];
        var _ := tree.Append(serialize(entry));
        seqNo := seqNo + 1;
      }
      assert committed[..|committed|] == committed;
    }

    /** recoverTreeFromHashStore: rebuild the compact state from the path of the leaf to come. */
    method RecoverTreeFromHashStore(ghost stored: seq<Hash>) returns (r: Result<(), LedgerError>)
      modifies this`seqNo, tree, tree.cache
      ensures old(CacheOk()) ==> CacheOk()
      ensures forall k <- tree.cache.entries ::
                var n := tree.store.layout.LeafCount(); k in old(tree.cache.entries) || k in Path(n, 0, n + 1)
      ensures Serves(tree.store.layout, stored) && old(CacheOk()) ==>
                && seqNo == |stored| && tree.Valid() && tree.leaves == stored
                && r == (if |log| == |stored| && NodeCount(|stored|) == tree.store.layout.NodeCount() then Ok(())
                         else Err(ConsistencyVerificationFailed))
    {
      hide Peaks, NodeWrites, NodeCount, Lowest, Popcount, RangeHash, Path, Serves, Reverse, AuditPath, Somes, Values;
      var treeSize := tree.store.layout.LeafCount();
      seqNo := treeSize;
      var proof := tree.InclusionProof(treeSize, treeSize + 1);
      if Serves(tree.store.layout, stored) {
        ServedCount(tree.store.layout, stored);
        PeaksCount(stored);
        NextHashes(Peaks(stored));
      }
      if proof.Err? || None in proof.value { return Err(StoreError); }
      var ok := tree.Update(treeSize, Reverse(Values(proof.value)));
      if !ok { return Err(StoreError); }
      tree.leaves := stored;
      ok := tree.VerifyConsistency(|log|);
      r := if ok then Ok(()) else Err(ConsistencyVerificationFailed);
    }

    /** recoverTree: try the hash store, fall back to the log. For every store that answers for some leaves,
        behind the log or ahead of it: with both counts as the log has them the tree stands for those leaves,
        otherwise it is rebuilt from the log. So from every state a crash inside an append can leave behind, the
        ledger comes back consistent with its whole log. */
    method RecoverTree() returns (r: Result<(), LedgerError>)
      requires log == LogOf(committed)
      modifies this`seqNo, tree, tree.store, tree.cache
      ensures old(CacheOk()) ==> forall stored {:trigger Serves(old(tree.store.layout), stored)} ::
                Serves(old(tree.store.layout), stored) ==>
                  && r.Ok?
                  && (if |stored| == |committed| && NodeCount(|stored|) == old(tree.store.layout).NodeCount()
                      then tree.Valid() && tree.leaves == stored && seqNo == |stored|
                           && (stored != [] ==> tree.store.layout == old(tree.store.layout))
                      else CommittedOk())
      ensures old(CrashImage(tree.store.layout, Leaves(committed)) && CacheOk()) ==> r.Ok? && CommittedOk()
      ensures old(tree.cache.entries) == map[] ==> forall stored {:trigger Serves(old(tree.store.layout), stored)} ::
                Serves(old(tree.store.layout), stored) && stored <= Leaves(committed) && CommittedOk() ==>
                  CacheOk() && CacheSettled()
      ensures old(CrashImage(tree.store.layout, Leaves(committed)) && tree.cache.entries == map[]) ==>
                CacheOk() && CacheSettled()
      ensures old(tree.store.layout.LeafCount()) == 0 ==> r.Ok? && CommittedOk()
    {
      hide Peaks, NodeWrites, NewNodes, NodeCount, TxnLeaves, LogOf, Lowest, RangeHash, Path, CrashImage, Serves;
      ghost var found, leaves := tree.store.layout, Leaves(committed);
      ghost var stored := leaves;
      LogOfSize(committed);
      if CrashImage(found, leaves) {
        stored := ImageServes(found, leaves);
      } else if exists ls :: Serves(found, ls) {
        stored :| Serves(found, stored);
      }
      if Serves(found, stored) {
        ServedCount(found, stored);
        ServesOnly(found, stored);
      }
      if tree.store.layout.LeafCount() == 0 {
        RecoverTreeFromTxnLog();
        r := Ok(());
      } else {
        r := RecoverTreeFromHashStore(stored);
        if r == Err(ConsistencyVerificationFailed) {
          RecoverTreeFromTxnLog();
          r := Ok(());
        }
      }
      if Serves(found, stored) && stored <= leaves && old(tree.cache.entries) == map[] && CommittedOk() {
        RecoveredCache(tree.cache.entries, found, tree.store.layout, stored, leaves);
      }
    }

    // ----- Uncommitted part -----

    method UncommittedRootHash() returns (r: Hash)
      requires Valid()
      modifies tree`rootHash
      ensures Valid() && r == Root(Leaves(committed + uncommittedTxns))
      ensures Size() == |committed| && UncommittedSize() == |committed + uncommittedTxns|
    {
      if uncommittedRootHash.Some? {
        r := uncommittedRootHash.value;
      } else {
        r := tree.RootHash();
        assert committed + uncommittedTxns == committed;
      }
    }

    function UncommittedSize(): nat
      reads this, tree
    {
      tree.treeSize + |uncommittedTxns|
    }

    /** append_txns_metadata: one common time if given, and consecutive numbers after everything pending. */
    method AppendTxnsMetadata(txns: seq<Txn>, txnTime: Option<nat>) returns (r: seq<Txn>)
      ensures |r| == |txns|
      ensures forall i | 0 <= i < |r| ::
                r[i] == Txn(txns[i].payload, Some(seqNo + |uncommittedTxns| + i + 1),
                            if txnTime.Some? then txnTime else txns[i].txnTime)
    {
      var stamped := txns;
      if txnTime.Some? {
        for i := 0 to |txns|
          invariant |stamped| == |txns|
          invariant forall k | 0 <= k < |txns| ::
                      stamped[k] == if k < i then txns[k].(txnTime := txnTime) else txns[k]
        {
          stamped := stamped[i := stamped[i].(txnTime := txnTime)];
        }
      }
      r := Numbering(stamped, seqNo + |uncommittedTxns|);
    }

    /** treeWithAppliedTxns: a copy of a tree (an empty one does not count) with the transactions appended. */
    method TreeWithAppliedTxns(txns: seq<Txn>, current: CompactMerkleTree?) returns (t: CompactMerkleTree)
      requires tree.Valid() && (current != null ==> current.Valid())
      ensures fresh(t) && fresh(t.store) && t.Valid()
      ensures var base := if current == null || current.treeSize == 0 then tree else current;
              t.leaves == base.leaves + Leaves(txns)
    {
      hide Peaks, AuditPath, NewNodes, PutNodes, NodeWrites;
      var base := if current == null || current.treeSize == 0 then tree else current;
      t := new CompactMerkleTree.Copy(base);
      for i := 0 to |txns|
        invariant fresh(t) && fresh(t.store) && t.Valid()
        invariant t.leaves == base.leaves + Leaves(txns[..i])
      {
        var _ := t.Append(serialize(txns[i]));
        assert Leaves(txns[..i + 1]) == Leaves(txns[..i]) + [LeafHash(serialize(txns[i]))];
      }
      assert txns[..|txns|] == txns;
    }

    /** appendTxns: apply without committing; returns the range of sequence numbers. */
    method AppendTxns(txns: seq<Txn>) returns (r: Result<(nat, nat), LedgerError>)
      requires Valid()
      modifies this`uncommittedTxns, this`uncommittedTree, this`uncommittedRootHash
      ensures Valid()
      ensures r.Err? <==> exists t <- txns :: t.seqNo == None
      ensures State() == Next(old(State()), Apply(txns))
      ensures committed == old(committed)
      ensures r.Ok? ==> uncommittedTree != null && uncommittedTxns == old(uncommittedTxns) + txns
      ensures r.Err? ==> r == Err(MissingSeqNo) && uncommittedTxns == old(uncommittedTxns)
                         && uncommittedTree == old(uncommittedTree) && uncommittedRootHash == old(uncommittedRootHash)
      ensures UncommittedRoot() == Root(Leaves(committed + uncommittedTxns))
      ensures r.Ok? ==> r.value.1 == |committed + uncommittedTxns|
                        && r.value.0 == if txns == [] then r.value.1 else r.value.1 - |txns| + 1
    {
      hide Root, Peaks, NodeWrites, LogOf, Lowest, TxnLeaves;
      PendingRoot();
      if exists t <- txns :: t.seqNo == None { return Err(MissingSeqNo); }
      var uncommittedSize := tree.treeSize + |uncommittedTxns|;
      if uncommittedTree == null || uncommittedTree.treeSize == 0 {
        assert committed + uncommittedTxns == committed;
      }
      ghost var pending := committed + uncommittedTxns;
      var t := TreeWithAppliedTxns(txns, uncommittedTree);
      TxnLeavesConcat(serialize, pending, txns);
      var root := t.RootHash();
      uncommittedTree, uncommittedRootHash := t, Some(root);
      uncommittedTxns := uncommittedTxns + txns;
      assert pending + txns == committed + uncommittedTxns;
      if txns != [] {
        r := Ok((uncommittedSize + 1, uncommittedSize + |txns|));
      } else {
        r := Ok((uncommittedSize, uncommittedSize));
      }
    }

    /** Root and audit path of transaction k + 1 at the moment it was added. */
    ghost function InfoAt(txns: seq<Txn>, k: nat): MerkleInfo
      requires k < |txns|
    {
      MerkleInfo(Root(Leaves(txns[..k + 1])), AuditPath(Leaves(txns[..k + 1]), k))
    }

    lemma {:induction false} InfoPrefix(all: seq<Txn>, upto: seq<Txn>, k: nat, info: MerkleInfo)
      requires k < |all| && upto == all[..k + 1]
      requires info == MerkleInfo(Root(Leaves(upto)), AuditPath(Leaves(upto), |upto| - 1))
      ensures info == InfoAt(all, k)
    {
    }

    /** The loop of commitTxns: add the transactions one by one. */
    method AddAll(todo: seq<Txn>) returns (txns: seq<(Txn, MerkleInfo)>)
      requires CommittedOk()
      modifies this`log, this`seqNo, this`committed, tree, tree.store
      ensures CommittedOk() && committed == old(committed) + todo
      ensures |txns| == |todo|
      ensures forall k | 0 <= k < |todo| :: txns[k] == (todo[k], InfoAt(committed, |old(committed)| + k))
      ensures old(CacheOk()) ==> (CacheOk() <==> forall r <- tree.cache.entries ::
                                    r.1 <= |old(committed)| || r.1 > |committed|)
    {
      hide Root, AuditPath, NodeWrites, TxnLeaves, Peaks, LogOf, RangeHash, Ledger.InfoAt;
      ghost var before, all := committed, committed + todo;
      StoredLeaves();
      ghost var layout, leaves := tree.store.layout, tree.leaves;
      txns := [];
      for i := 0 to |todo|
        invariant CommittedOk() && committed == all[..|before| + i] && |txns| == i
        invariant tree.store.layout.Keyed? <==> old(tree.store.layout.Keyed?)
        invariant forall k | 0 <= k < i :: txns[k] == (todo[k], InfoAt(all, |before| + k))
      {
        var info := AddToLedger(todo[i]);
        assert all[..|before| + i] + [todo[i]] == all[..|before| + i + 1];
        InfoPrefix(all, committed, |before| + i, info);
        txns := txns + [(todo[i], info)];
      }
      assert all[..|all|] == all;
      if old(CacheOk()) {
        StoredLeaves();
        TxnLeavesConcat(serialize, before, todo);
        MemoAfter(tree.cache.entries, layout, tree.store.layout, leaves, tree.leaves);
      }
    }

    /** commitTxns: move the first count pending transactions (or all, if there are fewer; all but the last ones,
        for a negative count) to the log. Neither the uncommitted root nor the uncommitted size changes. The
        reported end of the range is the new size exactly when count was in bounds, or nothing was committed. */
    method CommitTxns(count: int) returns (range: (int, int), txns: seq<(Txn, MerkleInfo)>)
      requires Valid()
      modifies this, tree, tree.store
      ensures Valid() && committed + uncommittedTxns == old(committed + uncommittedTxns)
      ensures UncommittedRoot() == old(UncommittedRoot()) && UncommittedSize() == old(UncommittedSize())
      ensures State() == Next(old(State()), Commit(count))
      ensures uncommittedTree != old(uncommittedTree) ==> uncommittedTree == null
      ensures var n := SliceEnd(|old(uncommittedTxns)|, count);
              && committed == old(committed) + old(uncommittedTxns)[..n]
              && |txns| == n
              && (forall k | 0 <= k < n ::
                    txns[k] == (old(uncommittedTxns)[k], InfoAt(committed, |old(committed)| + k)))
              && range == (if n == 0 then (|old(committed)|, |old(committed)|)
                           else (|old(committed)| + 1, |old(committed)| + count))
      ensures var n := |old(uncommittedTxns)|;
              && (count >= 0 ==> |txns| == if count <= n then count else n)
              && (count < 0 ==> |uncommittedTxns| == if -count <= n then -count else n)
      ensures range.1 == |committed| <==>
                0 <= count <= |old(uncommittedTxns)| || SliceEnd(|old(uncommittedTxns)|, count) == 0
      ensures old(CacheOk()) ==> (CacheOk() <==> forall r <- tree.cache.entries ::
                                    r.1 <= |old(committed)| || r.1 > |committed|)
    {
      hide Root, AuditPath, NodeWrites, TxnLeaves, Peaks, LogOf, Lowest, RangeHash;
      var committedSize := tree.treeSize;
      ghost var before, pending := committed, uncommittedTxns;
      PendingRoot();
      var n := SliceEnd(|uncommittedTxns|, count);
      txns := AddAll(uncommittedTxns[..n]);
      uncommittedTxns := uncommittedTxns[n..];
      assert pending == pending[..n] + pending[n..];
      assert before + pending == committed + uncommittedTxns;
      if uncommittedTxns == [] {
        uncommittedTree, uncommittedRootHash := null, None;
        assert committed + [] == committed;
      }
      range := if txns != [] then (committedSize + 1, committedSize + count) else (committedSize, committedSize);
    }

    /** discardTxns: drop the last count pending transactions; a negative count keeps that many of the first. */
    method DiscardTxns(count: int) returns (r: Result<(), LedgerError>)
      requires Valid()
      modifies this`uncommittedTxns, this`uncommittedTree, this`uncommittedRootHash
      ensures Valid()
      ensures r == if count > |old(uncommittedTxns)| then Err(LogicError) else Ok(())
      ensures State() == Next(old(State()), Discard(count))
      ensures committed == old(committed)
      ensures var n := |old(uncommittedTxns)|;
              uncommittedTxns == if count == 0 || count > n then old(uncommittedTxns)
                                 else old(uncommittedTxns)[..SliceEnd(n, -count)]
      ensures var n := |old(uncommittedTxns)|;
              && (0 <= count <= n ==> |uncommittedTxns| == n - count)
              && (count < 0 ==> |uncommittedTxns| == if -count <= n then -count else n)
      ensures UncommittedRoot() == Root(Leaves(committed + uncommittedTxns))
      ensures UncommittedSize() == |committed + uncommittedTxns|
    {
      hide Root, Peaks, NodeWrites, LogOf, Lowest, TxnLeaves;
      PendingRoot();
      if count == 0 { return Ok(()); }
      if count > |uncommittedTxns| { return Err(LogicError); }
      uncommittedTxns := uncommittedTxns[..SliceEnd(|uncommittedTxns|, -count)];
      if uncommittedTxns == [] {
        uncommittedTree, uncommittedRootHash := null, None;
      } else {
        var t := TreeWithAppliedTxns(uncommittedTxns, null);
        var root := t.RootHash();
        TxnLeavesConcat(serialize, committed, uncommittedTxns);
        uncommittedTree, uncommittedRootHash := t, Some(root);
      }
      PendingRoot();
      r := Ok(());
    }

    method ResetUncommitted()
      requires CommittedOk()
      modifies this`uncommittedTxns, this`uncommittedTree, this`uncommittedRootHash
      ensures Valid() && State() == Next(old(State()), Reset)
      ensures uncommittedTxns == [] && committed == old(committed)
      ensures UncommittedRoot() == Root(Leaves(committed)) && UncommittedSize() == |committed|
    {
      uncommittedTxns, uncommittedRootHash, uncommittedTree := [], None, null;
    }

    /** get_by_seq_no_uncommitted reads committed followed by uncommitted. */
    method GetBySeqNoUncommitted(s: int) returns (r: Option<Txn>)
      requires Valid()
      ensures r == if 1 <= s <= |committed + uncommittedTxns| then Some((committed + uncommittedTxns)[s - 1]) else None
    {
      hide Peaks, NodeWrites, TxnLeaves;
      if s > UncommittedSize() { return None; }
      if s > Size() { return Some(uncommittedTxns[s - Size() - 1]); }
      r := GetBySeqNo(s);
    }
  }

  /** appendTxns([]) caches a tree although nothing is pending, so that add directly after it leaves the
      uncommitted root behind the ledger. */
  method StaleUncommittedRoot(ledger: Ledger, txn: Txn) returns (info: MerkleInfo)
    requires ledger.Valid() && ledger.uncommittedTxns == [] && ledger.uncommittedTree == null
    modifies ledger, ledger.tree, ledger.tree.store
    ensures |ledger.committed| == |old(ledger.committed)| + 1 && ledger.uncommittedTxns == []
    ensures info.rootHash == Root(ledger.Leaves(ledger.committed)) != ledger.UncommittedRoot()
    ensures ledger.UncommittedRoot() != Root(ledger.Leaves(ledger.committed + ledger.uncommittedTxns))
  {
    hide Root, AuditPath, TxnLeaves, LogOf, Peaks, NodeWrites, Lowest, RangeHash;
    var r := ledger.AppendTxns([]);
    info := ledger.Add(txn);
    assert ledger.committed + ledger.uncommittedTxns == ledger.committed;
  }

  /** Asking an empty database-backed ledger about transaction 1 memoises None, which is still the answer after
      the transaction has been added. */
  method StaleMerkleInfo(ledger: Ledger, txn: Txn) returns (early: Result<ServedInfo, LedgerError>, info: MerkleInfo,
                                                            late: Result<ServedInfo, LedgerError>)
    requires ledger.Valid() && ledger.committed == [] && ledger.tree.store.layout.Keyed? && ledger.CacheOk()
    modifies ledger, ledger.tree, ledger.tree.store, ledger.tree.cache
    ensures early == late == Ok(ServedInfo(None, []))
    ensures |ledger.committed| == 1 && info.rootHash == Root(ledger.Leaves(ledger.committed))
    ensures !ledger.CacheOk()
  {
    hide Root, AuditPath, TxnLeaves, LogOf, Peaks, NodeWrites, Lowest, RangeHash;
    early := ledger.MerkleInfoOf(1);
    info := ledger.Add(txn);
    assert (0, 1) in ledger.tree.cache.entries;
    late := ledger.MerkleInfoOf(1);
    StoredRoot(ledger.tree.store.layout, ledger.tree.leaves, 1);
    assert RangeHash(ledger.tree.store.layout, 0, 1) != Ok(ledger.tree.cache.entries[(0, 1)]);
  }

  /** What a crash between the writes of one append can leave in the hash store, when the log already holds
      the last transaction: everything, nothing of the last append, or its leaf and some of its nodes. */
  ghost predicate CrashImage(layout: Layout, leaves: seq<Hash>) {
    || layout.Stores(leaves)
    || (leaves != [] && layout.Stores(leaves[..|leaves| - 1]))
    || (leaves != [] && exists k: nat | k <= |NewNodes(leaves)| :: PartImage(layout, leaves, k))
  }

  ghost predicate PartImage(layout: Layout, leaves: seq<Hash>, k: nat)
    requires leaves != [] && k <= |NewNodes(leaves)|
  {
    layout.Holds(leaves, NodeHashes(NodeWrites(leaves[..|leaves| - 1]) + NewNodes(leaves)[..k]))
  }

  /** Every crash point of an append leaves such an image. */
  lemma {:induction false} CrashPoints(layout: Layout, leaves: seq<Hash>, next: Hash, k: nat)
    requires layout.Stores(leaves) && k <= |NewNodes(leaves + [next])|
    ensures CrashImage(layout, leaves + [next])
    ensures CrashImage(PutNodes(layout.PutLeaf(next), NewNodes(leaves + [next])[..k]), leaves + [next])
  {
    hide NodeWrites, NewNodes;
    var all := leaves + [next];
    assert all[..|all| - 1] == leaves;
    PartialAppend(layout, leaves, next, k);
    assert PartImage(PutNodes(layout.PutLeaf(next), NewNodes(all)[..k]), all, k);
  }

  /** A crash image serves the leaves it holds, and passes the consistency check only when it is complete. */
  lemma {:induction false} ImageServes(layout: Layout, leaves: seq<Hash>) returns (stored: seq<Hash>)
    requires CrashImage(layout, leaves)
    ensures Serves(layout, stored) && stored <= leaves
    ensures |stored| == |leaves| && NodeCount(|stored|) == layout.NodeCount() ==>
              stored == leaves && layout.Stores(leaves)
  {
    hide NodeCount, NewNodes;
    if leaves != [] && exists k: nat | k <= |NewNodes(leaves)| :: PartImage(layout, leaves, k) {
      stored := leaves;
      var k: nat :| k <= |NewNodes(leaves)| && PartImage(layout, leaves, k);
      PartServes(layout, leaves, k);
    } else {
      stored := if layout.Stores(leaves) then leaves else leaves[..|leaves| - 1];
      StoresServes(layout, stored);
    }
  }

  lemma {:induction false} PartServes(layout: Layout, leaves: seq<Hash>, k: nat)
    requires leaves != [] && k <= |NewNodes(leaves)| && PartImage(layout, leaves, k)
    ensures Serves(layout, leaves)
    ensures NodeCount(|leaves|) == layout.NodeCount() ==> layout.Stores(leaves)
  {
    hide NodeCount, NewNodes;
    var prev := leaves[..|leaves| - 1];
    var part := NodeWrites(prev) + NewNodes(leaves)[..k];
    NodeWritesCount(prev);
    NodeWritesCount(leaves);
    assert part == NodeWrites(leaves)[..|part|];
    assert Covers(leaves, NodeHashes(part));
    HoldsReads(layout, leaves, NodeHashes(part));
  }

  /** Logs of different size have different roots. */
  lemma {:induction false} RootOfSize(serialize: Txn -> Bytes, a: seq<Txn>, b: seq<Txn>)
    requires |a| != |b|
    ensures Root(TxnLeaves(serialize, a)) != Root(TxnLeaves(serialize, b))
  {
    hide Root;
    RootInjective(TxnLeaves(serialize, a), TxnLeaves(serialize, b));
  }

  /** The range of the first s leaves: their root, or past the end None for one leaf of a database store. */
  lemma {:induction false} StoredRoot(layout: Layout, leaves: seq<Hash>, s: nat)
    requires layout.Stores(leaves)
    ensures s == 0 ==> RangeHash(layout, 0, s) == Err(BadRange)
    ensures 1 <= s <= |leaves| ==> RangeHash(layout, 0, s) == Ok(Some(Root(leaves[..s])))
    ensures s > |leaves| && s >= 1 ==>
              RangeHash(layout, 0, s) == if s == 1 && layout.Keyed? then Ok(None) else Err(MissingHash)
  {
    hide PlanFrom, NodeWrites, Fold, Mth, WellPlaced;
    if 1 <= s <= |leaves| {
      StoresServes(layout, leaves);
      WholePlaced(s);
      RangeHashCorrect(layout, leaves, 0, s);
      assert leaves[0..s] == leaves[..s];
    } else {
      NoneExact(layout, leaves, 0, s);
    }
  }

  lemma {:induction false} ServedCount(layout: Layout, stored: seq<Hash>)
    requires Serves(layout, stored)
    ensures layout.LeafCount() == |stored|
  {
    var nodes :| layout.Holds(stored, nodes) && Covers(stored, nodes);
    HoldsReads(layout, stored, nodes);
  }

  /** A store answers for one list of leaves. */
  lemma {:induction false} ServesOnly(layout: Layout, stored: seq<Hash>)
    requires Serves(layout, stored)
    ensures forall ls :: Serves(layout, ls) ==> ls == stored
  {
    forall ls | Serves(layout, ls) ensures ls == stored {
      ServedLeaves(layout, ls);
      ServedLeaves(layout, stored);
      assert forall i | 0 <= i < |ls| :: ls[i] == layout.ReadLeaf(i + 1).hash == stored[i];
    }
  }

  lemma {:induction false} ServedLeaves(layout: Layout, stored: seq<Hash>)
    requires Serves(layout, stored)
    ensures layout.LeafCount() == |stored|
    ensures forall i | 0 <= i < |stored| :: layout.ReadLeaf(i + 1) == Found(stored[i])
  {
    var nodes :| layout.Holds(stored, nodes) && Covers(stored, nodes);
    HoldsReads(layout, stored, nodes);
  }

  lemma {:induction false} NextHashes(peaks: seq<Hash>)
    ensures None !in Somes(Reverse(peaks)) && Reverse(Values(Somes(Reverse(peaks)))) == peaks
  {
    assert Values(Somes(Reverse(peaks))) == Reverse(peaks);
  }

  lemma {:induction false} MemoAfter(entries: map<Range, Option<Hash>>, before: Layout, after: Layout,
                                     leaves: seq<Hash>, all: seq<Hash>)
    requires leaves <= all && before.Stores(leaves) && after.Stores(all) && (before.Keyed? <==> after.Keyed?)
    requires Agrees(entries, before)
    ensures Agrees(entries, after) <==> forall r <- entries :: r.1 <= |leaves| || r.1 > |all|
  {
    hide Agrees, NodeWrites;
    assert leaves + all[|leaves|..] == all;
    MemoKept(entries, before, after, leaves, all[|leaves|..]);
  }

  /** What recovery memoises while it reads a crash image is right for the whole log as well. */
  lemma {:induction false} RecoveredCache(entries: map<Range, Option<Hash>>, image: Layout, after: Layout,
                                          stored: seq<Hash>, leaves: seq<Hash>)
    requires Serves(image, stored) && stored <= leaves && after.Stores(leaves)
    requires Agrees(entries, image) && forall k <- entries :: k in Path(|stored|, 0, |stored| + 1)
    ensures Agrees(entries, after) && forall k <- entries :: k.1 <= |leaves|
  {
    hide RangeHash, Path, Serves, NodeWrites, WellPlaced;
    PathPlacement(|stored|, |stored| + 1);
    PathWithin(|stored|, 0, |stored| + 1);
    StoresServes(after, leaves);
    forall k <- entries ensures RangeHash(after, k.0, k.1) == Ok(entries[k]) && k.1 <= |leaves| {
      RangeHashCorrect(image, stored, k.0, k.1);
      RangeHashCorrect(after, leaves, k.0, k.1);
      assert stored[k.0..k.1] == leaves[k.0..k.1];
    }
  }

  /** The audit path handed out for transaction s convinces the verifier, and no other leaf or path does. */
  lemma {:induction false} AuditProofVerifies(serialize: Txn -> Bytes, committed: seq<Txn>, s: nat, leaf: Bytes, path: seq<Hash>)
    requires 1 <= s <= |committed|
    ensures RootFromAuditPath(LeafHash(leaf), s - 1, |committed| - 1, path) ==
              Calculated(Root(TxnLeaves(serialize, committed))) <==>
            leaf == serialize(committed[s - 1]) && path == AuditPath(TxnLeaves(serialize, committed), s - 1)
  {
    hide RootFromAuditPath, AuditPath, Mth;
    InclusionExact(TxnLeaves(serialize, committed), s - 1, LeafHash(leaf), path);
  }

  lemma {:induction false} WholePlaced(n: nat)
    requires n > 0
    ensures WellPlaced(0, n)
  {
    if n > 1 { ZeroAligned(FirstHeight(n)); }
  }
}
