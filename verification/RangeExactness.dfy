/** Exactly which ranges merkle_tree_hash answers with their tree hash (ledger/compact_merkle_tree.py,
    ledger/hash_stores/hash_store.py). */
module RangeExactness {
  import opened Bits
  import opened MerkleHash
  import opened MerkleProofs
  import opened HashStores
  import opened Wrappers

  predicate DistinctLeaves(leaves: seq<Hash>) {
    && (forall i | 0 <= i < |leaves| :: leaves[i].LeafHash?)
    && (forall i, j | 0 <= i < j < |leaves| :: leaves[i] != leaves[j])
  }

  /** A tree hash depends on a leaf hash. */
  predicate Mentions(h: Hash, leaf: Hash) {
    match h
    case NodeHash(l, r) => Mentions(l, leaf) || Mentions(r, leaf)
    case _ => h == leaf
  }

  lemma {:induction false} MthMentions(leaves: seq<Hash>, leaf: Hash)
    requires leaves != [] && forall i | 0 <= i < |leaves| :: leaves[i].LeafHash?
    ensures Mentions(Mth(leaves), leaf) <==> leaf in leaves
    decreases |leaves|
  {
    hide Split;
    if |leaves| > 1 {
      var k := Split(|leaves|);
      MthMentions(leaves[..k], leaf);
      MthMentions(leaves[k..], leaf);
      MthNode(leaves, k);
      assert leaves == leaves[..k] + leaves[k..];
    }
  }

  /** Nodes past the count of a prefix were written later: they end behind it. */
  lemma {:induction false} LaterNode(leaves: seq<Hash>, c: nat, i: nat)
    requires c <= |leaves| && NodeCount(c) <= i < |NodeWrites(leaves)|
    ensures var w := NodeWrites(leaves)[i];
            && c < w.start <= |leaves| && Pow2(w.height) <= w.start
            && w.hash == Mth(leaves[w.start - Pow2(w.height)..w.start])
    decreases |leaves|
  {
    hide NodeCount, NewNodes, Mth, Lowest, Pow2;
    NodeWritesCount(leaves);
    var n := |leaves|;
    assert c < n;
    var prev := leaves[..n - 1];
    if i < |NodeWrites(prev)| {
      LaterNode(prev, c, i);
      var w := NodeWrites(prev)[i];
      assert prev[w.start - Pow2(w.height)..w.start] == leaves[w.start - Pow2(w.height)..w.start];
    } else {
      var h := i - |NodeWrites(prev)| + 1;
      NewNodeAt(leaves, h);
      assert leaves[n - Pow2(h)..] == leaves[n - Pow2(h)..n];
    }
  }

  /** For an unaligned start, the first node of the plan is missing or ends behind the range it should cover. */
  lemma {:induction false} WrongNode(leaves: seq<Hash>, start: nat, c: nat, pwr: nat)
    requires DistinctLeaves(leaves) && pwr >= 1 && c == start + Pow2(pwr) <= |leaves| && !Aligned(start, pwr)
    ensures var pos := NodePosition(c, pwr);
            && pos >= 1
            && (pos <= |NodeWrites(leaves)| ==> NodeWrites(leaves)[pos - 1].hash != Mth(leaves[start..c]))
  {
    hide NodePosition, NodeCount, NodeWrites, Mth, Lowest, Aligned;
    AlignedPow2(pwr, pwr);
    AlignedSum(Pow2(pwr), start, pwr);
    LowestAligned(c, pwr);
    NodePositionIndex(c, pwr);
    NodeCountStep(c);
    var pos := NodePosition(c, pwr);
    if pos <= |NodeWrites(leaves)| {
      LaterNode(leaves, c, pos - 1);
      var w := NodeWrites(leaves)[pos - 1];
      var covered := leaves[w.start - Pow2(w.height)..w.start];
      var last := leaves[w.start - 1];
      assert last == covered[|covered| - 1];
      MthMentions(covered, last);
      MthMentions(leaves[start..c], last);
    }
  }

  /** An unaligned range of three or more leaves is not answered with its tree hash. */
  lemma {:induction false} UnalignedLong(layout: Layout, leaves: seq<Hash>, start: nat, end: nat)
    requires layout.Stores(leaves) && DistinctLeaves(leaves)
    requires start + 2 < end <= |leaves| && !WellPlaced(start, end)
    ensures RangeHash(layout, start, end) != Ok(Some(Mth(leaves[start..end])))
  {
    hide NodePosition, NodeWrites, Mth, Aligned, DistinctLeaves;
    var d := end - 1 - start;
    var pwr := BitLength(d) - 1;
    TopBounds(d);
    var c := Pow2(pwr) + start;
    WrongNode(leaves, start, c, pwr);
    var nodes := NodeHashes(NodeWrites(leaves));
    HoldsReads(layout, leaves, nodes);
    var plan := PlanFrom(end, start);
    var at := |plan.leafs| + |plan.nodes|;
    assert plan.nodes[|plan.nodes| - 1] == NodePosition(c, pwr);
    assert PlanRead(layout, end, plan, at) == layout.ReadNode(NodePosition(c, pwr));
    if AllPresent(layout, end, plan) {
      var read := Reverse(ReadValues(layout, end, plan));
      assert Found(read[0]) == PlanRead(layout, end, plan, at);
      assert Fold(read).left == read[0];
      var range := leaves[start..end];
      MthNode(range, c - start);
      SliceSplit(leaves, start, c, end);
    }
  }

  /** An unaligned pair is answered with its second leaf. */
  lemma {:induction false} UnalignedPair(layout: Layout, leaves: seq<Hash>, start: nat)
    requires layout.Stores(leaves) && start + 2 <= |leaves| && start % 2 == 1
    ensures RangeHash(layout, start, start + 2) == Ok(Some(leaves[start + 1]))
  {
    hide NodePosition, NodeWrites;
    HoldsReads(layout, leaves, NodeHashes(NodeWrites(leaves)));
    var plan := PlanFrom(start + 2, start);
    assert BitLength(1) == 1;
    assert plan == ReadPlan([], []);
    assert PlanRead(layout, start + 2, plan, 0) == Found(leaves[start + 1]);
    SingleRead(layout, start + 2, leaves[start + 1]);
  }

  /** In a log of distinct leaves, the answer is the tree hash of the range exactly for the well placed ranges. */
  lemma {:induction false} RangeHashExact(layout: Layout, leaves: seq<Hash>, start: nat, end: nat)
    requires layout.Stores(leaves) && DistinctLeaves(leaves) && start < end <= |leaves|
    ensures RangeHash(layout, start, end) == Ok(Some(Mth(leaves[start..end]))) <==> WellPlaced(start, end)
  {
    hide RangeHash, Mth, NodeWrites, Serves;
    if WellPlaced(start, end) {
      StoresServes(layout, leaves);
      RangeHashCorrect(layout, leaves, start, end);
    } else if end - start == 2 {
      assert Aligned(start, 1) <==> start % 2 == 0;
      UnalignedPair(layout, leaves, start);
      MthPair(leaves[start..end]);
    } else {
      UnalignedLong(layout, leaves, start, end);
    }
  }
}
