/** The flat stores of leaf and node hashes (ledger/hash_stores/hash_store.py,
    ledger/hash_stores/file_hash_store.py, plenum/persistence/db_hash_store.py):
    closed-form node numbering, the two layouts, and reading a range back. */
module HashStores {
  import opened Bits
  import opened MerkleHash
  import opened MerkleProofs
  import opened Wrappers

  type Positive = n: nat | n > 0 witness 1

  /** The argument of writeNode: tree size at the time of writing, height, hash. */
  datatype Node = Node(start: Positive, height: nat, hash: Hash)

  // ----- Positions -----

  /** getNodePosition; a height of 0 stands for the omitted argument. */
  function NodePosition(start: Positive, height: nat): int {
    var pwr := BitLength(start) - 1;
    var h := if height == 0 then pwr else height;
    if Popcount(start) == 1 then start - 1 + (h - pwr)
    else
      TopBelow(start);
      var c := Pow2(pwr);
      NodePosition(c, pwr) + NodePosition(start - c, h)
  }

  lemma {:induction false} TopBelow(n: nat)
    requires n > 0 && Popcount(n) != 1
    ensures Top(n) < n
  {
    TopBounds(n);
    Pow2Digits(BitLength(n) - 1);
  }

  datatype ReadPlan = ReadPlan(leafs: seq<nat>, nodes: seq<int>)

  /** getPath (its caller has ruled out offset >= seqNo, a ValueError): the leaves and nodes that, with leaf seqNo, cover (offset, seqNo]. */
  function PlanFrom(seqNo: nat, offset: nat): ReadPlan
    requires offset < seqNo
    decreases seqNo - offset
  {
    var d := seqNo - 1 - offset;
    var pwr := BitLength(d) - 1;
    if pwr <= 0 then
      if seqNo % 2 == 0 then ReadPlan([seqNo - 1], []) else ReadPlan([], [])
    else
      TopBounds(d);
      var c := Pow2(pwr) + offset;
      var inner := PlanFrom(seqNo, c);
      ReadPlan(inner.leafs, inner.nodes + [NodePosition(c, pwr)])
  }

  // ----- The nodes written by a run of appends -----

  /** Number of inner nodes of the perfect subtrees of an n-leaf tree. */
  function NodeCount(n: nat): (r: nat) {
    PopcountBound(n);
    n - Popcount(n)
  }

  lemma {:induction false} PopcountBound(n: nat)
    ensures Popcount(n) <= n
  {
    if n > 0 { PopcountBound(n / 2); }
  }

  /** Nodes completed by the last leaf: one for every perfect subtree that ends there. */
  function NewNodes(leaves: seq<Hash>): (r: seq<Node>)
    requires leaves != []
    ensures |r| == Lowest(|leaves|) - 1
  {
    var n := |leaves|;
    seq(Lowest(n) - 1, j requires 0 <= j < Lowest(n) - 1 =>
      SubtreeFits(n, j + 1);
      Node(n, j + 1, Mth(leaves[n - Pow2(j + 1)..])))
  }

  lemma {:induction false} NewNodeAt(leaves: seq<Hash>, h: nat)
    requires leaves != [] && 1 <= h < Lowest(|leaves|)
    ensures Pow2(h) <= |leaves|
    ensures NewNodes(leaves)[h - 1] == Node(|leaves|, h, Mth(leaves[|leaves| - Pow2(h)..]))
  {
    hide Mth, Lowest, Pow2;
    SubtreeFits(|leaves|, h);
  }

  lemma {:induction false} SubtreeFits(n: nat, h: nat)
    requires n > 0 && h < Lowest(n)
    ensures Aligned(n, h) && Pow2(h) <= n
  {
    LowestAligned(n, h);
    AlignedSize(n, h);
  }

  lemma {:induction false} AlignedSize(n: nat, h: nat)
    requires n > 0 && Aligned(n, h)
    ensures Pow2(h) <= n
  {
    if h > 0 { AlignedSize(n / 2, h - 1); }
  }

  /** Every node written while appending the leaves one at a time, in order. */
  function NodeWrites(leaves: seq<Hash>): seq<Node> {
    if leaves == [] then [] else NodeWrites(leaves[..|leaves| - 1]) + NewNodes(leaves)
  }

  function NodeHashes(nodes: seq<Node>): (r: seq<Hash>)
    ensures |r| == |nodes|
  {
    seq(|nodes|, i requires 0 <= i < |nodes| => nodes[i].hash)
  }

  lemma {:induction false} PopcountPredecessor(n: nat)
    requires n > 0
    ensures Popcount(n - 1) + 1 == Popcount(n) + Lowest(n) - 1
  {
    hide Popcount, Lowest;
    var q := n / 2;
    if n % 2 == 1 {
      Digit(q, 0);
      Digit(q, 1);
      assert n == 2 * q + 1 && n - 1 == 2 * q + 0;
    } else {
      PopcountPredecessor(q);
      Digit(q - 1, 1);
      Digit(q, 0);
      assert n == 2 * q + 0 && n - 1 == 2 * (q - 1) + 1;
    }
  }

  lemma {:induction false} NodeCountStep(n: nat)
    requires n > 0
    ensures NodeCount(n) == NodeCount(n - 1) + Lowest(n) - 1
  {
    PopcountPredecessor(n);
  }

  /** After n appends, n - popcount(n) nodes have been written. */
  lemma {:induction false} NodeWritesCount(leaves: seq<Hash>)
    ensures |NodeWrites(leaves)| == NodeCount(|leaves|)
  {
    if leaves != [] {
      hide NodeCount;
      NodeWritesCount(leaves[..|leaves| - 1]);
      NodeCountStep(|leaves|);
    } else {
      assert Popcount(0) == 0;
    }
  }

  /** Later appends never touch earlier writes. */
  lemma {:induction false} NodeWritesPrefix(leaves: seq<Hash>, c: nat)
    requires c <= |leaves|
    ensures NodeWrites(leaves[..c]) <= NodeWrites(leaves)
  {
    if c == |leaves| {
      assert leaves[..c] == leaves;
    } else {
      var prev := leaves[..|leaves| - 1];
      NodeWritesPrefix(prev, c);
      assert prev[..c] == leaves[..c];
    }
  }

  // ----- Node numbering -----

  /** The closed form: nodes of the trees before this leaf, then one per height. */
  lemma {:induction false} NodePositionIndex(start: nat, h: nat)
    requires start > 0 && h >= 1
    ensures NodePosition(start, h) == NodeCount(start - 1) + h
  {
    var pwr := BitLength(start) - 1;
    var c := Pow2(pwr);
    DropTop(start);
    TopBounds(start);
    if start == c {
      Pow2Digits(pwr);
      AllOnesDigits(pwr);
    } else {
      var rest := start - c;
      PopcountPositive(rest);
      NodePositionIndex(rest, h);
      PowerPosition(pwr);
      LowRest(start);
    }
  }

  lemma {:induction false} PowerPosition(pwr: nat)
    ensures NodePosition(Pow2(pwr), pwr) == Pow2(pwr) - 1
  {
    Pow2Digits(pwr);
  }

  /** Dropping the top bit of start drops that many nodes from the count before it. */
  lemma {:induction false} LowRest(start: nat)
    requires start > 0 && start != Top(start)
    ensures Top(start) < start
    ensures NodeCount(start - 1) == Top(start) - 1 + NodeCount(start - Top(start) - 1)
  {
    TopBounds(start);
    var c := Top(start);
    TopUnique(start - 1, c);
    DropTop(start - 1);
  }

  /** Each node is written at the position its start and height compute: write order and
      closed form are the same numbering. */
  lemma {:induction false} NodeNumbering(leaves: seq<Hash>, i: nat)
    requires i < |NodeWrites(leaves)|
    ensures var w := NodeWrites(leaves)[i]; NodePosition(w.start, w.height) == i + 1
    decreases |leaves|
  {
    hide NodePosition, NodeCount, NewNodes, Lowest;
    var n := |leaves|;
    var prev := leaves[..n - 1];
    NodeWritesCount(prev);
    if i < |NodeWrites(prev)| {
      NodeNumbering(prev, i);
    } else {
      var h := i - |NodeWrites(prev)| + 1;
      NewNodeAt(leaves, h);
      NodePositionIndex(n, h);
    }
  }

  /** The node of height h that ends at leaf c is stored, at its position, with the hash of its leaves. */
  lemma {:induction false} NodeAt(leaves: seq<Hash>, c: nat, h: nat)
    requires 0 < c <= |leaves| && 1 <= h && Aligned(c, h)
    ensures Pow2(h) <= c
    ensures var pos := NodePosition(c, h);
            && 1 <= pos <= NodeCount(c) <= |NodeWrites(leaves)|
            && NodeWrites(leaves)[pos - 1] == Node(c, h, Mth(leaves[c - Pow2(h)..c]))
  {
    hide NodePosition, NodeCount, Mth, NewNodes, Lowest, Pow2, Aligned;
    LowestAligned(c, h);
    NodePositionIndex(c, h);
    var upto := leaves[..c];
    NodeWritesPrefix(leaves, c);
    NodeWritesCount(upto);
    NodeWritesCount(upto[..c - 1]);
    NodeCountStep(c);
    NewNodeAt(upto, h);
    assert NodeWrites(upto)[NodeCount(c - 1) + h - 1] == NewNodes(upto)[h - 1];
    assert upto[c - Pow2(h)..] == leaves[c - Pow2(h)..c];
  }

  // ----- Layouts -----

  function Numbered(s: seq<Hash>): map<int, Hash> {
    map i | 1 <= i <= |s| :: At(s, i)
  }

  function At(s: seq<Hash>, i: int): Hash
    requires 1 <= i <= |s|
  {
    s[i - 1]
  }

  lemma {:induction false} NumberedSnoc(s: seq<Hash>, h: Hash)
    ensures Numbered(s)[|s| + 1 := h] == Numbered(s + [h])
  {
  }

  lemma {:induction false} NumberedSize(s: seq<Hash>)
    ensures |Numbered(s)| == |s|
  {
    if s != [] {
      var init := s[..|s| - 1];
      NumberedSize(init);
      NumberedSnoc(init, s[|s| - 1]);
      assert s == init + [s[|s| - 1]];
    }
  }

  /** What a read gives: a hash, the value None (a database store that lacks the position), or an exception
      (a file store that lacks it, or a position below 1). */
  datatype Read = Found(hash: Hash) | Absent | Raises

  /** Keyed is the database store, Sequential the file store. Both keep only the hash of a node. */
  datatype Layout =
    | Keyed(leavesDb: map<int, Hash>, nodesDb: map<int, Hash>, leafCounter: nat)
    | Sequential(leavesFile: seq<Hash>, nodesFile: seq<Hash>)
  {
    function PutLeaf(h: Hash): Layout {
      match this
      case Keyed(ls, ns, n) => Keyed(ls[n + 1 := h], ns, n + 1)
      case Sequential(ls, ns) => Sequential(ls + [h], ns)
    }

    function PutNode(node: Node): Layout {
      match this
      case Keyed(ls, ns, n) => Keyed(ls, ns[NodePosition(node.start, node.height) := node.hash], n)
      case Sequential(ls, ns) => Sequential(ls, ns + [node.hash])
    }

    function ReadLeaf(pos: int): Read {
      match this
      case Keyed(ls, _, _) => if pos >= 1 && pos in ls then Found(ls[pos]) else Miss(pos)
      case Sequential(ls, _) => if 1 <= pos <= |ls| then Found(ls[pos - 1]) else Miss(pos)
    }

    function ReadNode(pos: int): Read {
      match this
      case Keyed(_, ns, _) => if pos >= 1 && pos in ns then Found(ns[pos]) else Miss(pos)
      case Sequential(_, ns) => if 1 <= pos <= |ns| then Found(ns[pos - 1]) else Miss(pos)
    }

    /** The outcome of reading a position that is not there. */
    function Miss(pos: int): Read {
      if Keyed? && pos >= 1 then Absent else Raises
    }

    function LeafCount(): nat {
      match this
      case Keyed(_, _, n) => n
      case Sequential(ls, _) => |ls|
    }

    function NodeCount(): nat {
      match this
      case Keyed(_, ns, _) => |ns|
      case Sequential(_, ns) => |ns|
    }

    function Cleared(): Layout {
      match this
      case Keyed(_, _, _) => Keyed(map[], map[], 0)
      case Sequential(_, _) => Sequential([], [])
    }

    /** Holds exactly these leaf hashes and these node hashes, each at its 1-based position. */
    ghost predicate Holds(leaves: seq<Hash>, nodes: seq<Hash>) {
      match this
      case Keyed(ls, ns, n) => ls == Numbered(leaves) && ns == Numbered(nodes) && n == |leaves|
      case Sequential(ls, ns) => ls == leaves && ns == nodes
    }

    /** Holds the outcome of appending the leaves one at a time. */
    ghost predicate Stores(leaves: seq<Hash>) {
      Holds(leaves, NodeHashes(NodeWrites(leaves)))
    }
  }

  /** Every read and count of a store is determined by what it holds, in either layout. */
  lemma {:induction false} HoldsReads(layout: Layout, leaves: seq<Hash>, nodes: seq<Hash>)
    requires layout.Holds(leaves, nodes)
    ensures layout.LeafCount() == |leaves| && layout.NodeCount() == |nodes|
    ensures forall pos {:trigger layout.ReadLeaf(pos)} ::
              layout.ReadLeaf(pos) == if 1 <= pos <= |leaves| then Found(leaves[pos - 1]) else layout.Miss(pos)
    ensures forall pos {:trigger layout.ReadNode(pos)} ::
              layout.ReadNode(pos) == if 1 <= pos <= |nodes| then Found(nodes[pos - 1]) else layout.Miss(pos)
  {
    NumberedSize(nodes);
  }

  /** A leaf written is read back behind the leaves already held; nothing else changes. */
  lemma {:induction false} HoldsLeaf(layout: Layout, leaves: seq<Hash>, nodes: seq<Hash>, h: Hash)
    requires layout.Holds(leaves, nodes)
    ensures layout.PutLeaf(h).Holds(leaves + [h], nodes)
  {
    NumberedSnoc(leaves, h);
  }

  /** A node written at the next position is read back behind the nodes already held; nothing else changes. */
  lemma {:induction false} HoldsNode(layout: Layout, leaves: seq<Hash>, nodes: seq<Hash>, node: Node)
    requires layout.Holds(leaves, nodes)
    requires NodePosition(node.start, node.height) == |nodes| + 1
    ensures layout.PutNode(node).Holds(leaves, nodes + [node.hash])
  {
    hide NodePosition;
    NumberedSnoc(nodes, node.hash);
  }

  // ----- What one append does to a store -----

  function PutNodes(layout: Layout, nodes: seq<Node>): (r: Layout)
    ensures r.Keyed? <==> layout.Keyed?
  {
    if nodes == [] then layout
    else PutNodes(layout, nodes[..|nodes| - 1]).PutNode(nodes[|nodes| - 1])
  }

  /** Writing the new leaf and the first k of its new nodes after a complete run of appends. */
  lemma {:induction false} PartialAppend(layout: Layout, leaves: seq<Hash>, next: Hash, k: nat)
    requires layout.Stores(leaves)
    requires k <= |NewNodes(leaves + [next])|
    ensures PutNodes(layout.PutLeaf(next), NewNodes(leaves + [next])[..k])
              .Holds(leaves + [next], NodeHashes(NodeWrites(leaves) + NewNodes(leaves + [next])[..k]))
    decreases k
  {
    hide NodePosition, NewNodes;
    var all := leaves + [next];
    var written, nodes := NodeWrites(leaves), NewNodes(all);
    if k == 0 {
      HoldsLeaf(layout, leaves, NodeHashes(written), next);
      assert written + nodes[..0] == written;
    } else {
      PartialAppend(layout, leaves, next, k - 1);
      var init, node := nodes[..k - 1], nodes[k - 1];
      assert nodes[..k] == init + [node];
      AppendPosition(leaves, next, k - 1);
      HoldsNode(PutNodes(layout.PutLeaf(next), init), all, NodeHashes(written + init), node);
      assert NodeHashes(written + init) + [node.hash] == NodeHashes(written + nodes[..k]);
    }
  }

  lemma {:induction false} AppendPosition(leaves: seq<Hash>, next: Hash, k: nat)
    requires k < |NewNodes(leaves + [next])|
    ensures var node := NewNodes(leaves + [next])[k];
            NodePosition(node.start, node.height) == |NodeWrites(leaves)| + k + 1
  {
    hide NodePosition, NewNodes;
    var all := leaves + [next];
    assert all[..|all| - 1] == leaves;
    NodeNumbering(all, |NodeWrites(leaves)| + k);
  }

  /** A complete append keeps the store complete. */
  lemma {:induction false} CompleteAppend(layout: Layout, leaves: seq<Hash>, next: Hash)
    requires layout.Stores(leaves)
    ensures PutNodes(layout.PutLeaf(next), NewNodes(leaves + [next])).Stores(leaves + [next])
  {
    hide NodePosition, NewNodes;
    var all := leaves + [next];
    var nodes := NewNodes(all);
    PartialAppend(layout, leaves, next, |nodes|);
    assert nodes[..|nodes|] == nodes;
    assert all[..|all| - 1] == leaves;
  }

  /** The store after appending the leaves one at a time: for each its hash, then the nodes it completes. */
  function Appended(layout: Layout, leaves: seq<Hash>): Layout {
    if leaves == [] then layout
    else PutNodes(Appended(layout, leaves[..|leaves| - 1]).PutLeaf(leaves[|leaves| - 1]), NewNodes(leaves))
  }

  lemma {:induction false} AppendedStores(layout: Layout, leaves: seq<Hash>)
    requires layout.Stores([])
    ensures Appended(layout, leaves).Stores(leaves)
    decreases |leaves|
  {
    hide NewNodes, NodePosition, NodeWrites;
    if leaves != [] {
      var init, last := leaves[..|leaves| - 1], leaves[|leaves| - 1];
      AppendedStores(layout, init);
      assert leaves == init + [last];
      CompleteAppend(Appended(layout, init), init, last);
    }
  }

  /** For every run of appends, the keyed and the sequential store end up with the same counts and the same hash
      at every leaf and node position; where there is none, the one returns None and the other raises. */
  lemma {:induction false} LayoutsAgree(leaves: seq<Hash>, pos: int)
    ensures var db := Appended(Keyed(map[], map[], 0), leaves);
            var file := Appended(Sequential([], []), leaves);
            && db.LeafCount() == file.LeafCount() == |leaves|
            && db.NodeCount() == file.NodeCount() == NodeCount(|leaves|)
            && db.ReadLeaf(pos) == (if 1 <= pos <= |leaves| then file.ReadLeaf(pos) else db.Miss(pos))
            && db.ReadNode(pos) == (if 1 <= pos <= NodeCount(|leaves|) then file.ReadNode(pos) else db.Miss(pos))
            && (file.ReadLeaf(pos).Found? <==> 1 <= pos <= |leaves|)
            && (file.ReadNode(pos).Found? <==> 1 <= pos <= NodeCount(|leaves|))
  {
    hide NodeWrites, NodeCount, NewNodes;
    var nodes := NodeHashes(NodeWrites(leaves));
    EmptyStores();
    AppendedStores(Keyed(map[], map[], 0), leaves);
    AppendedStores(Sequential([], []), leaves);
    NodeWritesCount(leaves);
    HoldsReads(Appended(Keyed(map[], map[], 0), leaves), leaves, nodes);
    HoldsReads(Appended(Sequential([], []), leaves), leaves, nodes);
  }

  lemma {:induction false} EmptyStores()
    ensures Keyed(map[], map[], 0).Stores([]) && Sequential([], []).Stores([])
  {
    assert Numbered([]) == map[];
  }

  // ----- Reading a range back -----

  /** Height of the first subtree read for a range of two or more leaves; pairs are read leaf by leaf. */
  function FirstHeight(width: nat): nat
    requires width >= 2
  {
    if width <= 3 then 1 else BitLength(width - 1) - 1
  }

  /** The start of the range is a multiple of the size of its first subtree, and even. */
  predicate WellPlaced(start: nat, end: nat) {
    start < end && (end - start == 1 || Aligned(start, FirstHeight(end - start)))
  }

  /** The node hashes available at least cover every subtree that ends before the last leaf. */
  ghost predicate Covers(leaves: seq<Hash>, nodes: seq<Hash>) {
    && nodes <= NodeHashes(NodeWrites(leaves))
    && (leaves == [] || NodeCount(|leaves| - 1) <= |nodes|)
  }

  predicate PlanInRange(plan: ReadPlan, leafCount: nat, nodeCount: nat) {
    && (forall i | 0 <= i < |plan.leafs| :: 1 <= plan.leafs[i] <= leafCount)
    && (forall i | 0 <= i < |plan.nodes| :: 1 <= plan.nodes[i] <= nodeCount)
  }

  function PlanHashes(plan: ReadPlan, leaves: seq<Hash>, nodes: seq<Hash>): seq<Hash>
    requires PlanInRange(plan, |leaves|, |nodes|)
  {
    seq(|plan.leafs|, i requires 0 <= i < |plan.leafs| => leaves[plan.leafs[i] - 1]) +
    seq(|plan.nodes|, i requires 0 <= i < |plan.nodes| => nodes[plan.nodes[i] - 1])
  }

  lemma {:induction false} NodeCountMonotone(a: nat, b: nat)
    requires a <= b
    ensures NodeCount(a) <= NodeCount(b)
    decreases b
  {
    hide NodeCount;
    if a < b {
      NodeCountStep(b);
      NodeCountMonotone(a, b - 1);
    }
  }

  /** The plan for a range reads only hashes already written, and what it reads, largest first,
      are the peaks of the range without its last leaf. */
  lemma {:induction false} PlanReadsPeaks(leaves: seq<Hash>, nodes: seq<Hash>, end: nat, start: nat)
    requires start < end <= |leaves| && start % 2 == 0 && WellPlaced(start, end)
    requires Covers(leaves, nodes)
    ensures PlanInRange(PlanFrom(end, start), |leaves|, |nodes|)
    ensures Reverse(PlanHashes(PlanFrom(end, start), leaves, nodes)) == Peaks(leaves[start..end - 1])
    decreases end - start
  {
    hide NodePosition, NodeCount, Mth, NodeWrites, PlanHashes, PlanInRange, Peaks, Reverse;
    if end - 1 - start <= 1 {
      PlanReadsLeaf(leaves, nodes, end, start);
    } else {
      var pwr, c := PlanStep(end, start);
      PlanReadsPeaks(leaves, nodes, end, c);
      NodeAt(leaves, c, pwr);
      NodeCountMonotone(c, |leaves| - 1);
      PlanSnoc(leaves, nodes, PlanFrom(end, c), NodePosition(c, pwr), Mth(leaves[start..c]));
      PeaksSlice(leaves, start, c, end - 1);
    }
  }

  /** The first subtree of a well placed range of three or more leaves, and the range that remains. */
  lemma {:induction false} PlanStep(end: nat, start: nat) returns (pwr: nat, c: nat)
    requires start + 2 < end && start % 2 == 0 && WellPlaced(start, end)
    ensures pwr >= 1 && c == Pow2(pwr) + start < end
    ensures Pow2(pwr) == Top(end - 1 - start)
    ensures Aligned(c, pwr) && c % 2 == 0 && WellPlaced(c, end)
    ensures PlanFrom(end, start) ==
            ReadPlan(PlanFrom(end, c).leafs, PlanFrom(end, c).nodes + [NodePosition(c, pwr)])
  {
    hide NodePosition;
    var d := end - 1 - start;
    pwr := BitLength(d) - 1;
    TopBounds(d);
    c := Pow2(pwr) + start;
    AlignedPow2(pwr, pwr);
    AlignedSum(start, Pow2(pwr), pwr);
    WellPlacedBy(c, end, pwr);
  }

  lemma {:induction false} PlanReadsLeaf(leaves: seq<Hash>, nodes: seq<Hash>, end: nat, start: nat)
    requires start < end <= |leaves| && start % 2 == 0 && end - 1 - start <= 1
    ensures PlanInRange(PlanFrom(end, start), |leaves|, |nodes|)
    ensures Reverse(PlanHashes(PlanFrom(end, start), leaves, nodes)) == Peaks(leaves[start..end - 1])
  {
    hide Peaks, Mth, NodePosition;
    var rest := leaves[start..end - 1];
    if |rest| == 1 {
      assert BitLength(1) == 1;
      assert PlanFrom(end, start) == ReadPlan([end - 1], []);
      PeaksPerfect(rest, 0);
      MthSingle(rest);
    } else {
      assert PlanFrom(end, start) == ReadPlan([], []);
      assert rest == [];
      PeaksNone();
    }
  }

  lemma {:induction false} PlanSnoc(leaves: seq<Hash>, nodes: seq<Hash>, plan: ReadPlan, pos: int, h: Hash)
    requires PlanInRange(plan, |leaves|, |nodes|)
    requires 1 <= pos <= |nodes| && nodes[pos - 1] == h
    ensures PlanInRange(ReadPlan(plan.leafs, plan.nodes + [pos]), |leaves|, |nodes|)
    ensures Reverse(PlanHashes(ReadPlan(plan.leafs, plan.nodes + [pos]), leaves, nodes)) ==
            [h] + Reverse(PlanHashes(plan, leaves, nodes))
  {
    assert PlanHashes(ReadPlan(plan.leafs, plan.nodes + [pos]), leaves, nodes) ==
           PlanHashes(plan, leaves, nodes) + [h];
  }

  lemma {:induction false} PeaksSlice(leaves: seq<Hash>, start: nat, c: nat, end: nat)
    requires start < c <= end <= |leaves| && c - start == Top(end - start)
    ensures Peaks(leaves[start..end]) == [Mth(leaves[start..c])] + Peaks(leaves[c..end])
  {
    PeaksTop(leaves[start..end], c - start);
    SliceSplit(leaves, start, c, end);
  }

  lemma {:induction false} EvenStart(start: nat, end: nat)
    requires start + 1 < end && WellPlaced(start, end)
    ensures start % 2 == 0
  {
    assert BitLength((end - start - 1) / 2) >= 1 || end - start == 2;
    AlignedMonotone(start, 1, FirstHeight(end - start));
  }

  /** Folding what the plan reads, after the last leaf, gives the RFC 6962 hash of the range. */
  lemma {:induction false} PlanFolds(leaves: seq<Hash>, nodes: seq<Hash>, start: nat, end: nat)
    requires start + 1 < end <= |leaves| && WellPlaced(start, end) && Covers(leaves, nodes)
    ensures PlanInRange(PlanFrom(end, start), |leaves|, |nodes|)
    ensures Fold(Reverse([leaves[end - 1]] + PlanHashes(PlanFrom(end, start), leaves, nodes))) ==
            Mth(leaves[start..end])
  {
    hide Mth, Covers, PlanHashes, PlanFrom;
    EvenStart(start, end);
    PlanReadsPeaks(leaves, nodes, end, start);
    var read := PlanHashes(PlanFrom(end, start), leaves, nodes);
    assert Reverse([leaves[end - 1]] + read) == Reverse(read) + [leaves[end - 1]];
    FoldSnoc(leaves[start..end - 1], leaves[end - 1]);
    assert leaves[start..end - 1] + [leaves[end - 1]] == leaves[start..end];
  }

  /** What merkle_tree_hash reads k-th: the last leaf, then the leaves and nodes of the plan. */
  function PlanRead(layout: Layout, end: nat, plan: ReadPlan, k: nat): Read
    requires k <= |plan.leafs| + |plan.nodes|
  {
    if k == 0 then layout.ReadLeaf(end)
    else if k <= |plan.leafs| then layout.ReadLeaf(plan.leafs[k - 1])
    else layout.ReadNode(plan.nodes[k - 1 - |plan.leafs|])
  }

  predicate AllPresent(layout: Layout, end: nat, plan: ReadPlan) {
    forall k | 0 <= k <= |plan.leafs| + |plan.nodes| :: PlanRead(layout, end, plan, k).Found?
  }

  function ReadValues(layout: Layout, end: nat, plan: ReadPlan): (r: seq<Hash>)
    requires AllPresent(layout, end, plan)
    ensures |r| == 1 + |plan.leafs| + |plan.nodes|
    ensures forall k | 0 <= k < |r| :: PlanRead(layout, end, plan, k) == Found(r[k])
  {
    seq(1 + |plan.leafs| + |plan.nodes|, k requires 0 <= k < 1 + |plan.leafs| + |plan.nodes| =>
      PlanRead(layout, end, plan, k).hash)
  }

  datatype RangeError = BadRange | MissingHash

  /** The reads of merkle_tree_hash: the last leaf alone for a single leaf, otherwise the whole plan. */
  function RangePlan(start: nat, end: nat): ReadPlan
    requires start < end
  {
    if end - start == 1 then ReadPlan([], []) else PlanFrom(end, start)
  }

  /** merkle_tree_hash over the contents of a store. A single read that gives None is returned as it is, since
      folding one value leaves it alone; folding None with anything else raises. */
  function RangeHash(layout: Layout, start: nat, end: nat): Result<Option<Hash>, RangeError> {
    if end <= start then Err(BadRange)
    else
      var plan := RangePlan(start, end);
      if AllPresent(layout, end, plan) then Ok(Some(Fold(Reverse(ReadValues(layout, end, plan)))))
      else if plan == ReadPlan([], []) && PlanRead(layout, end, plan, 0) == Absent then Ok(None)
      else Err(MissingHash)
  }

  /** The store answers for these leaves: it holds their hashes and at least the nodes
      that end before the last of them. */
  ghost predicate Serves(layout: Layout, leaves: seq<Hash>) {
    exists nodes :: layout.Holds(leaves, nodes) && Covers(leaves, nodes)
  }

  lemma {:induction false} StoresServes(layout: Layout, leaves: seq<Hash>)
    requires layout.Stores(leaves)
    ensures Serves(layout, leaves)
  {
    hide NodeWrites, NodeCount;
    var nodes := NodeHashes(NodeWrites(leaves));
    NodeWritesCount(leaves);
    if leaves != [] { NodeCountMonotone(|leaves| - 1, |leaves|); }
    assert layout.Holds(leaves, nodes) && Covers(leaves, nodes);
  }

  /** The store-backed range hash is the RFC 6962 tree hash of the range, for every well placed range
      within the log and for either layout; no read misses. */
  lemma {:induction false} RangeHashCorrect(layout: Layout, leaves: seq<Hash>, start: nat, end: nat)
    requires Serves(layout, leaves) && WellPlaced(start, end) && end <= |leaves|
    ensures RangeHash(layout, start, end) == Ok(Some(Mth(leaves[start..end])))
  {
    hide PlanFrom, Aligned, Mth, PlanHashes, PlanInRange, NodeWrites, NodeHashes, Fold;
    var nodes :| layout.Holds(leaves, nodes) && Covers(leaves, nodes);
    if end - start == 1 {
      HoldsReads(layout, leaves, nodes);
      SingleRead(layout, end, leaves[end - 1]);
      MthSingle(leaves[start..end]);
    } else {
      PlanFolds(leaves, nodes, start, end);
      var plan := PlanFrom(end, start);
      PlanReadHolds(layout, leaves, nodes, end, plan);
      assert ReadValues(layout, end, plan) == [leaves[end - 1]] + PlanHashes(plan, leaves, nodes);
    }
  }

  lemma {:induction false} SingleRead(layout: Layout, end: nat, h: Hash)
    requires layout.ReadLeaf(end) == Found(h)
    ensures AllPresent(layout, end, ReadPlan([], []))
    ensures Fold(Reverse(ReadValues(layout, end, ReadPlan([], [])))) == h
  {
    assert PlanRead(layout, end, ReadPlan([], []), 0) == Found(h);
    assert Reverse(ReadValues(layout, end, ReadPlan([], []))) == [h];
  }

  lemma {:induction false} PlanReadHolds(layout: Layout, leaves: seq<Hash>, nodes: seq<Hash>, end: nat, plan: ReadPlan)
    requires layout.Holds(leaves, nodes) && 1 <= end <= |leaves|
    requires PlanInRange(plan, |leaves|, |nodes|)
    ensures |PlanHashes(plan, leaves, nodes)| == |plan.leafs| + |plan.nodes|
    ensures forall k | 0 <= k <= |plan.leafs| + |plan.nodes| ::
              PlanRead(layout, end, plan, k) == Found(([leaves[end - 1]] + PlanHashes(plan, leaves, nodes))[k])
  {
    HoldsReads(layout, leaves, nodes);
  }

  /** The hash of a well placed range within the log is the same before and after later appends. */
  lemma {:induction false} RangeHashStable(before: Layout, after: Layout, leaves: seq<Hash>, more: seq<Hash>,
                                           start: nat, end: nat)
    requires Serves(before, leaves) && Serves(after, leaves + more)
    requires WellPlaced(start, end) && end <= |leaves|
    ensures RangeHash(after, start, end) == RangeHash(before, start, end) == Ok(Some(Mth(leaves[start..end])))
  {
    hide RangeHash, Serves, Aligned;
    RangeHashCorrect(before, leaves, start, end);
    RangeHashCorrect(after, leaves + more, start, end);
    assert (leaves + more)[start..end] == leaves[start..end];
  }

  // ----- Answers past the end, and memoised answers -----

  /** None is answered exactly by a database store for a range that ends past its leaves and needs a single read. */
  lemma {:induction false} NoneExact(layout: Layout, leaves: seq<Hash>, start: nat, end: nat)
    requires layout.Stores(leaves)
    ensures RangeHash(layout, start, end) == Ok(None) <==>
            && layout.Keyed? && start < end && end > |leaves|
            && (end - start == 1 || (end - start == 2 && start % 2 == 1))
    ensures end > |leaves| ==> RangeHash(layout, start, end) in {Ok(None), Err(BadRange), Err(MissingHash)}
  {
    hide NodeWrites, NodePosition, Fold;
    HoldsReads(layout, leaves, NodeHashes(NodeWrites(leaves)));
    if start < end {
      var plan := RangePlan(start, end);
      assert PlanRead(layout, end, plan, 0) == layout.ReadLeaf(end);
      SinglePlan(start, end);
    }
  }

  lemma {:induction false} SinglePlan(start: nat, end: nat)
    requires start < end
    ensures RangePlan(start, end) == ReadPlan([], []) <==>
            end - start == 1 || (end - start == 2 && start % 2 == 1)
  {
    hide NodePosition;
    if end - start >= 3 {
      TopBounds(end - 1 - start);
      assert BitLength(end - 1 - start) >= 2 by { BitLengthBound(end - start, 1); }
    } else if end - start == 2 {
      assert BitLength(1) == 1;
    }
  }

  /** An answer given before some appends is still the answer after them, unless it was the None of a range
      that ends past the old leaves and within the new ones. */
  lemma {:induction false} MemoExact(before: Layout, after: Layout, leaves: seq<Hash>, more: seq<Hash>,
                                     start: nat, end: nat)
    requires before.Stores(leaves) && after.Stores(leaves + more) && (before.Keyed? <==> after.Keyed?)
    requires RangeHash(before, start, end).Ok?
    ensures RangeHash(after, start, end) == RangeHash(before, start, end) <==>
            end <= |leaves| || end > |leaves + more|
  {
    hide NodeWrites, NodePosition, Fold, PlanFrom;
    var all := leaves + more;
    var nodes, nodes' := NodeHashes(NodeWrites(leaves)), NodeHashes(NodeWrites(all));
    HoldsReads(before, leaves, nodes);
    HoldsReads(after, all, nodes');
    NodeWritesPrefix(all, |leaves|);
    assert all[..|leaves|] == leaves;
    var plan := RangePlan(start, end);
    assert PlanRead(before, end, plan, 0) == before.ReadLeaf(end);
    assert PlanRead(after, end, plan, 0) == after.ReadLeaf(end);
    if AllPresent(before, end, plan) {
      forall k | 0 <= k <= |plan.leafs| + |plan.nodes|
        ensures PlanRead(after, end, plan, k) == PlanRead(before, end, plan, k)
      {
        assert PlanRead(before, end, plan, k).Found?;
      }
      assert ReadValues(after, end, plan) == ReadValues(before, end, plan);
    } else {
      assert !before.ReadLeaf(end).Found?;
    }
  }

  // ----- The generators only ask for well placed ranges -----

  lemma {:induction false} WellPlacedBy(start: nat, end: nat, t: nat)
    requires start < end <= start + Pow2(t) && Aligned(start, t)
    ensures WellPlaced(start, end)
  {
    hide Aligned;
    if end - start > 1 {
      BitLengthBound(end - start, t);
      AlignedMonotone(start, FirstHeight(end - start), t);
    }
  }

  /** Both halves of a split range are aligned to the size of the left half. */
  lemma {:induction false} SplitAligned(start: nat, end: nat, t: nat) returns (p: nat)
    requires start + 1 < end <= start + Pow2(t) && Aligned(start, t)
    ensures Split(end - start) == Pow2(p)
    ensures Aligned(start, p) && Aligned(start + Pow2(p), p)
  {
    hide Aligned, Pow2;
    var n := end - start;
    p := BitLength(n - 1) - 1;
    BitLengthBound(n, t);
    AlignedMonotone(start, p, t);
    AlignedPow2(p, p);
    AlignedSum(start, Pow2(p), p);
  }

  predicate AllWellPlaced(ranges: seq<Range>) {
    forall i | 0 <= i < |ranges| :: WellPlaced(ranges[i].0, ranges[i].1)
  }

  lemma {:induction false} PathWellPlaced(m: nat, start: nat, end: nat, t: nat)
    requires start + m < end <= start + Pow2(t) && Aligned(start, t)
    ensures AllWellPlaced(Path(m, start, end))
    decreases end - start
  {
    hide Split, WellPlaced;
    if end - start > 1 {
      var p := SplitAligned(start, end, t);
      var k := Pow2(p);
      WellPlacedBy(start, start + k, p);
      WellPlacedBy(start + k, end, p);
      if m < k { PathWellPlaced(m, start, start + k, p); }
      else { PathWellPlaced(m - k, start + k, end, p); }
    }
  }

  lemma {:induction false} SubproofWellPlaced(m: nat, start: nat, end: nat, b: bool, t: nat)
    requires 1 <= m && start + m <= end <= start + Pow2(t) && Aligned(start, t)
    ensures AllWellPlaced(Subproof(m, start, end, b))
    decreases end - start
  {
    hide Split, WellPlaced;
    if start + m == end {
      WellPlacedBy(start, end, t);
    } else {
      var p := SplitAligned(start, end, t);
      var k := Pow2(p);
      WellPlacedBy(start, start + k, p);
      WellPlacedBy(start + k, end, p);
      if m <= k { SubproofWellPlaced(m, start, start + k, b, p); }
      else { SubproofWellPlaced(m - k, start + k, end, false, p); }
    }
  }

  lemma {:induction false} ZeroAligned(t: nat)
    ensures Aligned(0, t)
  {
    if t > 0 { ZeroAligned(t - 1); }
  }

  // ----- Node counting -----

  /** get_expected_node_count: the halving loop of the source. */
  method GetExpectedNodeCount(leafCount: nat) returns (count: nat)
    ensures count == NodeCount(leafCount)
    ensures forall leaves: seq<Hash> | |leaves| == leafCount :: count == |NodeWrites(leaves)|
  {
    var rest := leafCount;
    count := 0;
    while rest > 1
      invariant 0 <= rest && count + NodeCount(rest) == NodeCount(leafCount)
    {
      HalvingStep(rest);
      rest := rest / 2;
      count := count + rest;
    }
    assert NodeCount(rest) == 0;
    forall leaves: seq<Hash> | |leaves| == leafCount ensures count == |NodeWrites(leaves)| {
      NodeWritesCount(leaves);
    }
  }

  lemma {:induction false} HalvingStep(n: nat)
    ensures NodeCount(n) == n / 2 + NodeCount(n / 2)
  {
  }
}
