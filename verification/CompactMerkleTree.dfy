/** The append-only compact Merkle tree (ledger/compact_merkle_tree.py). */
module CompactMerkleTrees {
  import opened Bits
  import opened MerkleHash
  import opened MerkleProofs
  import opened HashStores
  import opened Wrappers

  class HashStore {
    var layout: Layout

    constructor (layout: Layout)
      ensures this.layout == layout
    {
      this.layout := layout;
    }

    method WriteLeaf(h: Hash)
      modifies this
      ensures layout == old(layout).PutLeaf(h)
    {
      layout := layout.PutLeaf(h);
    }

    method WriteNode(node: Node)
      modifies this
      ensures layout == old(layout).PutNode(node)
    {
      layout := layout.PutNode(node);
    }

    method Reset()
      modifies this
      ensures layout == old(layout).Cleared()
    {
      layout := layout.Cleared();
    }
  }

  /** The memo table that functools.lru_cache keeps for merkle_tree_hash. Only returned values are kept, None
      among them; an exception is not. */
  class RangeCache {
    var entries: map<Range, Option<Hash>>

    constructor ()
      ensures entries == map[]
    {
      entries := map[];
    }
  }

  /** Every memoised answer is the one the store gives. */
  ghost predicate Agrees(entries: map<Range, Option<Hash>>, layout: Layout) {
    forall r <- entries :: RangeHash(layout, r.0, r.1) == Ok(entries[r])
  }

  // ----- The carry -----

  /** Nodes completed by pushing a perfect subtree of height index h: those from height h upwards. */
  function CarryNodes(leaves: seq<Hash>, h: nat): seq<Node>
    requires leaves != [] && 1 <= h <= Lowest(|leaves|)
  {
    NewNodes(leaves)[h - 1..]
  }

  /** No carry: the pushed subtree is smaller than the smallest peak. */
  lemma {:induction false} PushSmaller(leaves: seq<Hash>, sub: seq<Hash>, h: nat)
    requires 1 <= h && |sub| == Pow2(h - 1)
    requires leaves == [] || h < Lowest(|leaves|)
    ensures Popcount(|leaves| + |sub|) == Popcount(|leaves|) + 1
    ensures Lowest(|leaves| + |sub|) == h
    ensures Peaks(leaves + sub) == Peaks(leaves) + [Mth(sub)]
    ensures CarryNodes(leaves + sub, h) == []
  {
    hide Mth, Peaks, Lowest, Popcount;
    if leaves == [] { ZeroAligned(h); } else { LowestAligned(|leaves|, h); }
    AlignedDigits(|leaves|, |sub|, h);
    Pow2Digits(h - 1);
    PeaksSnoc(leaves, sub, h - 1);
  }

  /** Carry: the smallest peak has the size of the pushed subtree and joins it. */
  lemma {:induction false} PushEqual(leaves: seq<Hash>, sub: seq<Hash>, h: nat)
    requires leaves != [] && h == Lowest(|leaves|) && |sub| == Pow2(h - 1)
    ensures var n := |leaves| - |sub|;
            && n >= 0
            && Popcount(n) == Popcount(|leaves|) - 1
            && (n == 0 || Lowest(n) > h)
            && Peaks(leaves) == Peaks(leaves[..n]) + [Mth(leaves[n..])]
            && Mth(leaves[n..] + sub) == NodeHash(Mth(leaves[n..]), Mth(sub))
            && |leaves[n..] + sub| == Pow2(h)
  {
    hide Mth, Peaks, Popcount;
    DropLowest(|leaves|);
    var n := |leaves| - |sub|;
    if n > 0 { LowestAligned(n, h); }
    PeaksSnoc(leaves[..n], leaves[n..], h - 1);
    assert leaves == leaves[..n] + leaves[n..];
    MthJoin(leaves[n..], sub, h - 1);
  }

  /** The nodes of a carry start with the joined subtree. */
  lemma {:induction false} CarryStep(leaves: seq<Hash>, sub: seq<Hash>, h: nat)
    requires leaves != [] && h >= 1 && |sub| == Pow2(h) <= |leaves|
    requires sub == leaves[|leaves| - |sub|..] && h < Lowest(|leaves|)
    ensures CarryNodes(leaves, h) == [Node(|leaves|, h, Mth(sub))] + CarryNodes(leaves, h + 1)
  {
    hide NewNodes, Mth;
    NewNodeAt(leaves, h);
  }

  lemma {:induction false} CarryNodesStart(leaves: seq<Hash>, h: nat)
    requires leaves != [] && 1 <= h <= Lowest(|leaves|)
    ensures forall w <- CarryNodes(leaves, h) :: w.start == |leaves| && w.height >= 1
  {
  }

  class CompactMerkleTree {
    var treeSize: nat
    var hashes: seq<Hash>
    var mintreeHeight: nat
    var rootHash: Option<Hash>
    const store: HashStore
    const cache: RangeCache

    /** The leaf hashes this tree stands for. */
    ghost var leaves: seq<Hash>

    /** The compact state is the one the binary digits of the size call for. */
    ghost predicate Valid()
      reads this
    {
      && treeSize == |leaves|
      && hashes == Peaks(leaves)
      && mintreeHeight == Lowest(treeSize)
      && (rootHash.Some? ==> rootHash.value == Root(leaves))
    }

    constructor (store: HashStore)
      ensures Valid() && leaves == [] && this.store == store
      ensures fresh(cache) && cache.entries == map[]
    {
      this.store := store;
      cache := new RangeCache();
      treeSize, hashes, mintreeHeight, rootHash := 0, [], 0, None;
      leaves := [];
    }

    /** __copy__: same size and hashes, an empty store of its own. */
    constructor Copy(other: CompactMerkleTree)
      requires other.Valid()
      ensures Valid() && leaves == other.leaves && fresh(store) && store.layout.Stores([])
      ensures fresh(cache) && cache.entries == map[]
    {
      PeaksCount(other.leaves);
      cache := new RangeCache();
      store := new HashStore(Sequential([], []));
      treeSize, hashes, rootHash := other.treeSize, other.hashes, None;
      mintreeHeight := Lowest(other.treeSize);
      leaves := other.leaves;
      new;
      EmptyStores();
    }

    method Update(size: nat, newHashes: seq<Hash>) returns (ok: bool)
      modifies this`treeSize, this`hashes, this`mintreeHeight, this`rootHash
      ensures ok <==> |newHashes| == Popcount(size)
      ensures ok ==> treeSize == size && hashes == newHashes && mintreeHeight == Lowest(size) && rootHash == None
      ensures !ok ==> treeSize == old(treeSize) && hashes == old(hashes)
                      && mintreeHeight == old(mintreeHeight) && rootHash == old(rootHash)
    {
      var bitsSet := CountBitsSet(size);
      ok := |newHashes| == bitsSet;
      if ok {
        treeSize, hashes, rootHash := size, newHashes, None;
        mintreeHeight := LowestBitSet(size);
      }
    }

    method RootHash() returns (r: Hash)
      requires Valid()
      modifies this`rootHash
      ensures Valid() && r == Root(leaves)
    {
      if rootHash == None {
        if hashes != [] {
          r := HashFold(hashes);
          assert hashes == Peaks(leaves);
        } else {
          r := EmptyHash;
          if leaves != [] { FoldPeaks(leaves); }
        }
        rootHash := Some(r);
      } else {
        r := rootHash.value;
      }
    }

    /** The carry recursion of the source; its two assertions and its updates never fail. */
    method PushSubtreeHash(subtreeH: nat, subHash: Hash, ghost sub: seq<Hash>) returns (newNodes: seq<(Hash, nat)>)
      requires Valid() && subtreeH >= 1
      requires |sub| == Pow2(subtreeH - 1) && subHash == Mth(sub)
      requires mintreeHeight == 0 || subtreeH <= mintreeHeight
      modifies this
      ensures Valid() && leaves == old(leaves) + sub
      ensures subtreeH <= Lowest(|leaves|)
      ensures var nodes := CarryNodes(leaves, subtreeH);
              |newNodes| == |nodes| && forall i | 0 <= i < |nodes| :: newNodes[i] == (nodes[i].hash, nodes[i].height)
      decreases treeSize
    {
      hide Mth, Peaks, Popcount, Lowest, Pow2, CarryNodes;
      var size, mintreeH := Pow2(subtreeH - 1), mintreeHeight;
      PeaksCount(leaves);
      LowestZero(treeSize);
      if subtreeH < mintreeH || mintreeH == 0 {
        PushSmaller(leaves, sub, subtreeH);
        var ok := Update(treeSize + size, hashes + [subHash]);
        assert ok;
        leaves := leaves + sub;
        newNodes := [];
      } else {
        assert subtreeH == mintreeH;
        PushEqual(leaves, sub, subtreeH);
        ghost var n := treeSize - size;
        LowestZero(n);
        ghost var joined := leaves[n..] + sub;
        ghost var all := leaves + sub;
        var prevHash := hashes[|hashes| - 1];
        var ok := Update(treeSize - size, hashes[..|hashes| - 1]);
        assert ok;
        leaves := leaves[..n];
        var newMintreeH := mintreeHeight;
        assert mintreeH < newMintreeH || newMintreeH == 0;
        var nextHash := NodeHash(prevHash, subHash);
        var rest := PushSubtreeHash(subtreeH + 1, nextHash, joined);
        assert leaves == all;
        CarryStep(leaves, joined, subtreeH);
        newNodes := [(nextHash, subtreeH)] + rest;
      }
    }

    /** Extend with a perfect subtree no larger than the smallest peak; false stands for ValueError.
        The hasher returns a single subtree hash here, and that is what reaches the leaf store. */
    method PushSubtree(data: seq<Bytes>) returns (ok: bool)
      requires Valid()
      modifies this, store
      ensures ok <==> Popcount(|data|) == 1 && (old(mintreeHeight) == 0 || Lowest(|data|) <= old(mintreeHeight))
      ensures Valid() && leaves == if ok then old(leaves) + LeafHashes(data) else old(leaves)
      ensures !ok ==> store.layout == old(store.layout)
      ensures ok ==> leaves != [] && 1 <= Lowest(|data|) <= Lowest(|leaves|)
      ensures ok ==> store.layout == PutNodes(old(store.layout).PutLeaf(Mth(LeafHashes(data))),
                                              CarryNodes(leaves, Lowest(|data|)))
    {
      hide Mth, Peaks, Lowest, Popcount, CarryNodes;
      var size := |data|;
      var bits := CountBitsSet(size);
      if bits != 1 { return false; }
      SingleBit(size);
      LowestZero(size);
      var subtreeH := LowestBitSet(size);
      var mintreeH := mintreeHeight;
      if mintreeH > 0 && subtreeH > mintreeH { return false; }

      ghost var hs := LeafHashes(data);
      HashWhole(data, subtreeH - 1);
      var full := HashRange(data, 0, size);
      store.WriteLeaf(full.hashes[0]);
      var newNodes := PushSubtreeHash(subtreeH, full.root, hs);

      ghost var nodes := CarryNodes(leaves, subtreeH);
      CarryNodesStart(leaves, subtreeH);
      ghost var start := store.layout;
      var i := 0;
      while i < |newNodes|
        invariant 0 <= i <= |newNodes|
        invariant Valid() && leaves == old(leaves) + hs
        invariant store.layout == PutNodes(start, nodes[..i])
      {
        var node := Node(treeSize, newNodes[i].1, newNodes[i].0);
        assert nodes[..i + 1] == nodes[..i] + [node];
        store.WriteNode(node);
        i := i + 1;
      }
      assert nodes[..i] == nodes;
      ok := true;
    }

    /** Append one leaf and return its audit path. The store stays complete if it was. */
    method Append(newLeaf: Bytes) returns (auditPath: seq<Hash>)
      requires Valid()
      modifies this, store
      ensures Valid() && leaves == old(leaves) + [LeafHash(newLeaf)]
      ensures auditPath == AuditPath(leaves, |leaves| - 1)
      ensures old(store.layout.Stores(leaves)) ==> store.layout.Stores(leaves)
      ensures store.layout == PutNodes(old(store.layout).PutLeaf(LeafHash(newLeaf)), NewNodes(leaves))
    {
      hide Mth, Peaks, Lowest, Popcount, AuditPath, NewNodes, NodeWrites;
      auditPath := Reverse(hashes);
      AppendPath(leaves, LeafHash(newLeaf));
      SingletonPush(newLeaf);
      ghost var before := leaves;
      var ok := PushSubtree([newLeaf]);
      assert NewNodes(leaves)[0..] == NewNodes(leaves);
      if old(store.layout.Stores(leaves)) {
        CompleteAppend(old(store.layout), before, LeafHash(newLeaf));
      }
    }

    /** Extend with many leaves: perfect subtrees first, then the rest in one go. */
    method Extend(newLeaves: seq<Bytes>)
      requires Valid()
      modifies this, store
      ensures Valid() && leaves == old(leaves) + LeafHashes(newLeaves)
    {
      hide Mth, Peaks, Lowest, Popcount, Pow2, PutNodes, CarryNodes, LeafHashes, HashRange;
      var size := |newLeaves|;
      var finalSize := treeSize + size;
      var idx := 0;
      while true
        invariant 0 <= idx <= size
        invariant Valid() && leaves == old(leaves) + LeafHashes(newLeaves[..idx])
        decreases size - idx
      {
        var maxH := mintreeHeight;
        var maxSize := if maxH > 0 then Pow2(maxH - 1) else 0;
        if maxH > 0 && size - idx >= maxSize {
          Pow2Digits(maxH - 1);
          var ok := PushSubtree(newLeaves[idx..idx + maxSize]);
          assert ok;
          LeafHashesSlice(newLeaves, idx, idx + maxSize);
          idx := idx + maxSize;
        } else {
          break;
        }
      }
      LowestZero(treeSize);
      LeafHashesSlice(newLeaves, idx, size);
      assert newLeaves[..size] == newLeaves;
      if idx < size {
        var full := HashRange(newLeaves, idx, size);
        ghost var tail := LeafHashes(newLeaves[idx..size]);
        HashTail(newLeaves, idx);
        TailFill(leaves, tail);
        PeaksCount(leaves + tail);
        var ok := Update(finalSize, hashes + full.hashes);
        assert ok;
        leaves := leaves + tail;
      }
      assert treeSize == finalSize;
    }

    // ----- Reading proofs back from the store -----

    /** The body of merkle_tree_hash: read the plan of the range and fold it. */
    method ReadTreeHash(start: nat, end: nat) returns (r: Result<Option<Hash>, RangeError>)
      ensures r == RangeHash(store.layout, start, end)
    {
      hide PlanFrom, Fold;
      if end <= start { return Err(BadRange); }
      ghost var plan0 := RangePlan(start, end);
      var last := store.layout.ReadLeaf(end);
      assert last == PlanRead(store.layout, end, plan0, 0);
      if last == Raises { return Err(MissingHash); }
      if end - start == 1 {
        if last.Absent? { return Ok(None); }
        SingleRead(store.layout, end, last.hash);
        return Ok(Some(last.hash));
      }
      var plan := PlanFrom(end, start);
      var hs := [last];
      for i := 0 to |plan.leafs|
        invariant |hs| == 1 + i
        invariant forall k | 0 <= k < |hs| :: hs[k] == PlanRead(store.layout, end, plan, k) != Raises
      {
        var h := store.layout.ReadLeaf(plan.leafs[i]);
        assert h == PlanRead(store.layout, end, plan, i + 1);
        if h == Raises { return Err(MissingHash); }
        hs := hs + [h];
      }
      for i := 0 to |plan.nodes|
        invariant |hs| == 1 + |plan.leafs| + i
        invariant forall k | 0 <= k < |hs| :: hs[k] == PlanRead(store.layout, end, plan, k) != Raises
      {
        var h := store.layout.ReadNode(plan.nodes[i]);
        assert h == PlanRead(store.layout, end, plan, |hs|);
        if h == Raises { return Err(MissingHash); }
        hs := hs + [h];
      }
      r := FoldReads(hs);
      if r.Ok? && r.value.Some? {
        assert AllPresent(store.layout, end, plan);
        assert ReadValues(store.layout, end, plan) == Hashes(hs);
      }
    }

    /** merkle_tree_hash behind its memo table. The table is shared by all trees and bounded, so that any entry
        may be gone after a miss. */
    method MerkleTreeHash(start: nat, end: nat) returns (r: Result<Option<Hash>, RangeError>)
      modifies cache
      ensures (start, end) in old(cache.entries) ==> r == Ok(old(cache.entries)[(start, end)])
      ensures (start, end) !in old(cache.entries) ==> r == RangeHash(store.layout, start, end)
      ensures r.Ok? ==> (start, end) in cache.entries && cache.entries[(start, end)] == r.value
      ensures r.Err? || (start, end) in old(cache.entries) ==> cache.entries == old(cache.entries)
      ensures forall k <- cache.entries ::
                (r.Ok? && k == (start, end)) || (k in old(cache.entries) && cache.entries[k] == old(cache.entries)[k])
      ensures old(Agrees(cache.entries, store.layout)) ==>
                Agrees(cache.entries, store.layout) && r == RangeHash(store.layout, start, end)
    {
      hide RangeHash;
      if (start, end) in cache.entries { return Ok(cache.entries[(start, end)]); }
      r := ReadTreeHash(start, end);
      if r.Ok? {
        var dropped: set<Range> := *;
        cache.entries := (cache.entries - dropped)[(start, end) := r.value];
      }
    }

    /** The hashes of a list of ranges, in order, up to the first exception. */
    method RangeList(ranges: seq<Range>) returns (r: Result<seq<Option<Hash>>, RangeError>)
      modifies cache
      ensures ranges == [] ==> r == Ok([]) && cache.entries == old(cache.entries)
      ensures forall k <- cache.entries :: k in old(cache.entries) || k in ranges
      ensures old(Agrees(cache.entries, store.layout)) ==>
                Agrees(cache.entries, store.layout) && Served(store.layout, ranges, r)
    {
      hide RangeHash;
      var hs := [];
      ghost var agreed := Agrees(cache.entries, store.layout);
      for i := 0 to |ranges|
        invariant |hs| == i
        invariant i == 0 ==> cache.entries == old(cache.entries)
        invariant forall k <- cache.entries :: k in old(cache.entries) || k in ranges
        invariant agreed ==> Agrees(cache.entries, store.layout)
        invariant agreed ==> forall k | 0 <= k < i :: RangeHash(store.layout, ranges[k].0, ranges[k].1) == Ok(hs[k])
      {
        var h := MerkleTreeHash(ranges[i].0, ranges[i].1);
        assert (ranges[i].0, ranges[i].1) == ranges[i];
        if h.Err? { return Err(h.error); }
        hs := hs + [h.value];
      }
      r := Ok(hs);
    }

    /** The served audit path is the RFC 6962 path of leaf m among the first n leaves, or of the last of
        them when m is too large; for m one past the stored leaves it is the path of the leaf to come. */
    method InclusionProof(m: nat, n: nat) returns (r: Result<seq<Option<Hash>>, RangeError>)
      requires 0 < n
      modifies cache
      ensures n == 1 ==> r == Ok([]) && cache.entries == old(cache.entries)
      ensures forall k <- cache.entries :: k in old(cache.entries) || k in Path(m, 0, n)
      ensures old(Agrees(cache.entries, store.layout)) ==> Agrees(cache.entries, store.layout)
      ensures old(Agrees(cache.entries, store.layout)) ==> forall ls {:trigger Serves(store.layout, ls)} ::
                Serves(store.layout, ls) && n <= |ls| ==>
                  r == Ok(Somes(AuditPath(ls[..n], if m < n then m else n - 1)))
      ensures old(Agrees(cache.entries, store.layout)) ==> forall ls {:trigger Serves(store.layout, ls)} ::
                Serves(store.layout, ls) && m == |ls| && n == m + 1 ==> r == Ok(Somes(Reverse(Peaks(ls))))
    {
      hide RangeHash, AuditPath, Peaks, Serves;
      ghost var agreed := Agrees(cache.entries, store.layout);
      r := RangeList(Path(m, 0, n));
      if agreed {
        forall ls {:trigger Serves(store.layout, ls)} | Serves(store.layout, ls) && n <= |ls|
          ensures r == Ok(Somes(AuditPath(ls[..n], if m < n then m else n - 1)))
        {
          if m >= n { PathBeyond(m, 0, n); }
          ServedPath(store.layout, ls, if m < n then m else n - 1, n, r);
        }
        forall ls {:trigger Serves(store.layout, ls)} | Serves(store.layout, ls) && m == |ls| && n == m + 1
          ensures r == Ok(Somes(Reverse(Peaks(ls))))
        {
          ServedNextPath(store.layout, ls, r);
        }
      }
    }

    /** The served consistency proof is the RFC 6962 proof between the first m and the first n leaves. */
    method ConsistencyProof(m: nat, n: nat) returns (r: Result<seq<Option<Hash>>, RangeError>)
      requires 1 <= m <= n
      modifies cache
      ensures forall k <- cache.entries :: k in old(cache.entries) || k in Subproof(m, 0, n, true)
      ensures old(Agrees(cache.entries, store.layout)) ==> Agrees(cache.entries, store.layout)
      ensures old(Agrees(cache.entries, store.layout)) ==> forall ls {:trigger Serves(store.layout, ls)} ::
                Serves(store.layout, ls) && n <= |ls| ==> r == Ok(Somes(ConsistencyPath(ls[..n], m, true)))
    {
      hide RangeHash, ConsistencyPath, Serves;
      ghost var agreed := Agrees(cache.entries, store.layout);
      r := RangeList(Subproof(m, 0, n, true));
      if agreed {
        forall ls {:trigger Serves(store.layout, ls)} | Serves(store.layout, ls) && n <= |ls|
          ensures r == Ok(Somes(ConsistencyPath(ls[..n], m, true)))
        {
          ServedSubproof(store.layout, ls, m, n, r);
        }
      }
    }

    /** True, or ConsistencyVerificationFailed: the counts of the store must match. */
    method VerifyConsistency(expectedLeafCount: nat) returns (ok: bool)
      ensures ok <==> expectedLeafCount == store.layout.LeafCount()
                      && NodeCount(expectedLeafCount) == store.layout.NodeCount()
      ensures forall ls {:trigger store.layout.Stores(ls)} ::
                store.layout.Stores(ls) ==> (ok <==> expectedLeafCount == |ls|)
    {
      hide NodeCount, NodeWrites;
      var expected := GetExpectedNodeCount(store.layout.LeafCount());
      ok := expectedLeafCount == store.layout.LeafCount() && expected == store.layout.NodeCount();
      forall ls {:trigger store.layout.Stores(ls)} | store.layout.Stores(ls)
        ensures store.layout.LeafCount() == |ls| && store.layout.NodeCount() == NodeCount(|ls|)
      {
        NodeWritesCount(ls);
        HoldsReads(store.layout, ls, NodeHashes(NodeWrites(ls)));
      }
    }

    method Reset()
      modifies this, store
      ensures Valid() && leaves == [] && store.layout.Stores([])
      ensures store.layout.Keyed? <==> old(store.layout.Keyed?)
    {
      store.Reset();
      var ok := Update(0, []);
      leaves := [];
      assert Numbered([]) == map[];
    }
  }

  // ----- What the store serves -----

  function Somes(hs: seq<Hash>): (r: seq<Option<Hash>>)
    ensures |r| == |hs| && forall k | 0 <= k < |r| :: r[k] == Some(hs[k])
  {
    seq(|hs|, k requires 0 <= k < |hs| => Some(hs[k]))
  }

  function Values(hs: seq<Option<Hash>>): (r: seq<Hash>)
    requires forall k | 0 <= k < |hs| :: hs[k].Some?
    ensures |r| == |hs| && forall k | 0 <= k < |r| :: hs[k] == Some(r[k])
  {
    seq(|hs|, k requires 0 <= k < |hs| => hs[k].value)
  }

  predicate AllFound(got: seq<Read>) {
    forall k | 0 <= k < |got| :: got[k].Found?
  }

  function Hashes(got: seq<Read>): (r: seq<Hash>)
    requires AllFound(got)
    ensures |r| == |got| && forall k | 0 <= k < |r| :: got[k] == Found(r[k])
  {
    seq(|got|, k requires 0 <= k < |got| => got[k].hash)
  }

  /** _hash_fold over what was read: a lone None comes back as it is, hashing None with anything raises. */
  method FoldReads(got: seq<Read>) returns (r: Result<Option<Hash>, RangeError>)
    requires got != [] && forall k | 0 <= k < |got| :: got[k] != Raises
    ensures if AllFound(got) then r == Ok(Some(Fold(Reverse(Hashes(got)))))
            else r == if |got| == 1 then Ok(None) else Err(MissingHash)
  {
    if AllFound(got) {
      var folded := HashFold(Reverse(Hashes(got)));
      return Ok(Some(folded));
    }
    r := if |got| == 1 then Ok(None) else Err(MissingHash);
  }

  /** After any appends the memo table still agrees with the store exactly if it holds no entry that ends past
      the old leaves and within the new ones; such an entry can only be a None. */
  lemma {:induction false} MemoKept(entries: map<Range, Option<Hash>>, before: Layout, after: Layout,
                                    leaves: seq<Hash>, more: seq<Hash>)
    requires before.Stores(leaves) && after.Stores(leaves + more) && (before.Keyed? <==> after.Keyed?)
    requires Agrees(entries, before)
    ensures Agrees(entries, after) <==> forall r <- entries :: r.1 <= |leaves| || r.1 > |leaves + more|
    ensures forall r <- entries :: r.1 > |leaves| ==> entries[r] == None
  {
    hide RangeHash, NodeWrites;
    forall r <- entries
      ensures RangeHash(after, r.0, r.1) == Ok(entries[r]) <==> r.1 <= |leaves| || r.1 > |leaves + more|
      ensures r.1 > |leaves| ==> entries[r] == None
    {
      assert RangeHash(before, r.0, r.1) == Ok(entries[r]);
      MemoExact(before, after, leaves, more, r.0, r.1);
      NoneExact(before, leaves, r.0, r.1);
    }
  }

  ghost predicate Served(layout: Layout, ranges: seq<Range>, r: Result<seq<Option<Hash>>, RangeError>) {
    && (r.Ok? ==> |r.value| == |ranges| && forall k | 0 <= k < |ranges| ::
                    RangeHash(layout, ranges[k].0, ranges[k].1) == Ok(r.value[k]))
    && (r.Err? ==> exists k | 0 <= k < |ranges| :: RangeHash(layout, ranges[k].0, ranges[k].1) == Err(r.error))
  }

  lemma {:induction false} ServedRanges(layout: Layout, leaves: seq<Hash>, ranges: seq<Range>,
                                        r: Result<seq<Option<Hash>>, RangeError>)
    requires Serves(layout, leaves) && Served(layout, ranges, r)
    requires AllWithin(ranges, 0, |leaves|) && AllWellPlaced(ranges)
    ensures r == Ok(Somes(RangeHashes(leaves, ranges)))
  {
    hide RangeHash, Mth, WellPlaced, Serves;
    forall k | 0 <= k < |ranges|
      ensures RangeHash(layout, ranges[k].0, ranges[k].1) == Ok(Somes(RangeHashes(leaves, ranges))[k])
    {
      RangeHashCorrect(layout, leaves, ranges[k].0, ranges[k].1);
    }
    if r.Ok? { assert r.value == Somes(RangeHashes(leaves, ranges)); }
  }

  lemma {:induction false} ServedPath(layout: Layout, leaves: seq<Hash>, m: nat, n: nat,
                                      r: Result<seq<Option<Hash>>, RangeError>)
    requires Serves(layout, leaves) && m < n <= |leaves| && Served(layout, Path(m, 0, n), r)
    ensures r == Ok(Somes(AuditPath(leaves[..n], m)))
  {
    hide RangeHash, AuditPath, Path, Serves;
    PathPlacement(m, n);
    PathDenotes(leaves, m, 0, n);
    ServedRanges(layout, leaves, Path(m, 0, n), r);
    assert leaves[0..n] == leaves[..n];
  }

  lemma {:induction false} PathPlacement(m: nat, n: nat)
    requires m < n
    ensures AllWellPlaced(Path(m, 0, n))
  {
    var t := BitLength(n - 1);
    BitLengthBound(n, t);
    ZeroAligned(t);
    PathWellPlaced(m, 0, n, t);
  }

  lemma {:induction false} ServedNextPath(layout: Layout, leaves: seq<Hash>, r: Result<seq<Option<Hash>>, RangeError>)
    requires Serves(layout, leaves) && Served(layout, Path(|leaves|, 0, |leaves| + 1), r)
    ensures r == Ok(Somes(Reverse(Peaks(leaves))))
  {
    hide RangeHash, AuditPath, Path, Serves, Mth, Peaks;
    var n := |leaves|;
    var ranges := Path(n, 0, n + 1);
    var next := EmptyHash;
    var all := leaves + [next];
    PathPlacement(n, n + 1);
    PathWithin(n, 0, n + 1);
    ServedRanges(layout, leaves, ranges, r);
    PathDenotes(all, n, 0, n + 1);
    assert all[0..n + 1] == all;
    AppendPath(leaves, next);
    assert RangeHashes(all, ranges) == RangeHashes(leaves, ranges) by {
      forall i | 0 <= i < |ranges| ensures all[ranges[i].0..ranges[i].1] == leaves[ranges[i].0..ranges[i].1] {}
    }
  }

  lemma {:induction false} ServedSubproof(layout: Layout, leaves: seq<Hash>, m: nat, n: nat,
                                          r: Result<seq<Option<Hash>>, RangeError>)
    requires Serves(layout, leaves) && 1 <= m <= n <= |leaves| && Served(layout, Subproof(m, 0, n, true), r)
    ensures r == Ok(Somes(ConsistencyPath(leaves[..n], m, true)))
  {
    hide RangeHash, ConsistencyPath, Subproof, Serves;
    var t := BitLength(n - 1);
    BitLengthBound(n, t);
    ZeroAligned(t);
    SubproofWellPlaced(m, 0, n, true, t);
    SubproofDenotes(leaves, m, 0, n, true);
    ServedRanges(layout, leaves, Subproof(m, 0, n, true), r);
    assert leaves[0..n] == leaves[..n];
  }

  lemma {:induction false} LeafHashesSlice(data: seq<Bytes>, a: nat, b: nat)
    requires a <= b <= |data|
    ensures LeafHashes(data[..b]) == LeafHashes(data[..a]) + LeafHashes(data[a..b])
  {
  }

  lemma {:induction false} HashTail(data: seq<Bytes>, idx: nat)
    requires idx < |data|
    ensures HashRange(data, idx, |data|).hashes == Peaks(LeafHashes(data[idx..|data|]))
  {
    hide Mth, Peaks;
    HashRangeCorrect(data, idx, |data|);
    assert LeafHashes(data)[idx..|data|] == LeafHashes(data[idx..|data|]);
  }

  /** Hashing a perfect list of leaves yields one subtree hash, its root. */
  lemma {:induction false} HashWhole(data: seq<Bytes>, t: nat)
    requires |data| == Pow2(t)
    ensures HashRange(data, 0, |data|) == Full(Mth(LeafHashes(data)), [Mth(LeafHashes(data))])
  {
    hide Mth, Peaks;
    HashRangeCorrect(data, 0, |data|);
    assert LeafHashes(data)[0..|data|] == LeafHashes(data);
    PeaksPerfect(LeafHashes(data), t);
  }

  lemma {:induction false} SingletonPush(leaf: Bytes)
    ensures Popcount(1) == 1 && Lowest(1) == 1
    ensures LeafHashes([leaf]) == [LeafHash(leaf)] && Mth([LeafHash(leaf)]) == LeafHash(leaf)
  {
  }

  /** Fewer leaves than the smallest peak, or any number into an empty tree, add their peaks at the end. */
  lemma {:induction false} TailFill(leaves: seq<Hash>, tail: seq<Hash>)
    requires leaves == [] || |tail| < Pow2(Lowest(|leaves|) - 1)
    ensures Peaks(leaves + tail) == Peaks(leaves) + Peaks(tail)
  {
    hide Mth;
    if leaves == [] {
      assert leaves + tail == tail;
    } else {
      var t := Lowest(|leaves|) - 1;
      LowestAligned(|leaves|, t);
      PeaksConcat(leaves, tail, t);
    }
  }
}
