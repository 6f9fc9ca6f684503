/** Tree hashes (ledger/tree_hasher.py and section 2.1 of RFC 6962).

    Hashing is modelled as a free constructor: leaf and node hashes never collide, which is
    what the 0x00 / 0x01 domain prefixes and SHA-256 are relied upon for. */
module MerkleHash {
  import opened Bits

  newtype byte = x: int | 0 <= x < 256
  type Bytes = seq<byte>

  datatype Hash = EmptyHash | LeafHash(data: Bytes) | NodeHash(left: Hash, right: Hash)

  function LeafHashes(data: seq<Bytes>): (r: seq<Hash>)
    ensures |r| == |data|
  {
    seq(|data|, i requires 0 <= i < |data| => LeafHash(data[i]))
  }

  /** The largest power of two smaller than n. */
  function Split(n: nat): (k: nat)
    requires n >= 2
    ensures 1 <= k < n <= 2 * k
  {
    TopBounds(n - 1);
    Top(n - 1)
  }

  /** Hash of the Merkle tree over a non-empty list of leaf hashes: section 2.1 of RFC 6962. */
  function Mth(leaves: seq<Hash>): Hash
    requires leaves != []
    decreases |leaves|
  {
    if |leaves| == 1 then leaves[0]
    else
      var k := Split(|leaves|);
      NodeHash(Mth(leaves[..k]), Mth(leaves[k..]))
  }

  /** Root of a log: the empty hash when there are no leaves. */
  function Root(leaves: seq<Hash>): Hash {
    if leaves == [] then EmptyHash else Mth(leaves)
  }

  /** Roots of the perfect subtrees given by the binary digits of the size, largest first. */
  function Peaks(leaves: seq<Hash>): seq<Hash>
    decreases |leaves|
  {
    if leaves == [] then []
    else
      TopBounds(|leaves|);
      var k := Top(|leaves|);
      [Mth(leaves[..k])] + Peaks(leaves[k..])
  }

  // ----- The hasher of the source -----

  datatype Full = Full(root: Hash, hashes: seq<Hash>)
  datatype FullResult = IndexError | Hashed(full: Full)

  /** Hash the leaves between left and right as an entire tree; hashes are those of its perfect subtrees. */
  function HashFull(leaves: seq<Bytes>, left: int, right: int): (r: FullResult) {
    if left < 0 || right < left || right > |leaves| then IndexError
    else Hashed(HashRange(leaves, left, right))
  }

  function HashRange(leaves: seq<Bytes>, left: nat, right: nat): (r: Full)
    requires left <= right <= |leaves|
    decreases right - left
  {
    var width := right - left;
    if width == 0 then Full(EmptyHash, [])
    else if width == 1 then Full(LeafHash(leaves[left]), [LeafHash(leaves[left])])
    else
      var k := Split(width);
      Join(width, HashRange(leaves, left, left + k), HashRange(leaves, left + k, right))
  }

  function Join(width: nat, l: Full, r: Full): Full
    requires width >= 2
  {
    var root := NodeHash(l.root, r.root);
    Full(root, if 2 * Split(width) == width then [root] else l.hashes + r.hashes)
  }

  /** Right fold of a descending list of subtree hashes. */
  function Fold(hashes: seq<Hash>): Hash
    requires hashes != []
  {
    if |hashes| == 1 then hashes[0] else NodeHash(hashes[0], Fold(hashes[1..]))
  }

  /** The accumulator loop of the source, from the smallest subtree to the largest. */
  method HashFold(hashes: seq<Hash>) returns (accum: Hash)
    requires hashes != []
    ensures accum == Fold(hashes)
    ensures forall leaves {:trigger Peaks(leaves)} :: hashes == Peaks(leaves) ==> accum == Mth(leaves)
  {
    var i := |hashes| - 1;
    accum := hashes[i];
    while i > 0
      invariant 0 <= i < |hashes|
      invariant accum == Fold(hashes[i..])
    {
      i := i - 1;
      assert hashes[i..][1..] == hashes[i + 1..];
      accum := NodeHash(hashes[i], accum);
    }
    assert hashes[0..] == hashes;
    forall leaves {:trigger Peaks(leaves)} | hashes == Peaks(leaves) ensures accum == Mth(leaves) {
      FoldPeaks(leaves);
    }
  }

  // ----- Levels: the bottom-up view of the same tree -----

  /** One level up: neighbours are hashed together, an odd last node is promoted. */
  function Up(level: seq<Hash>): (r: seq<Hash>)
    ensures |r| == (|level| + 1) / 2
  {
    seq((|level| + 1) / 2, i requires 0 <= i < (|level| + 1) / 2 =>
      if 2 * i + 1 < |level| then NodeHash(level[2 * i], level[2 * i + 1]) else level[2 * i])
  }

  lemma {:induction false} UpSplit(level: seq<Hash>, k: nat)
    requires k <= |level| && k % 2 == 0
    ensures Up(level)[..k / 2] == Up(level[..k])
    ensures Up(level)[k / 2..] == Up(level[k..])
  {
    assert |level[k..]| == |level| - k;
    forall i | 0 <= i < |Up(level[k..])| ensures Up(level)[k / 2..][i] == Up(level[k..])[i] {
      assert level[k..][2 * i] == level[k + 2 * i];
    }
  }

  /** The node above node i. */
  lemma {:induction false} UpParent(level: seq<Hash>, i: nat)
    requires i < |level|
    ensures i / 2 < |Up(level)|
    ensures Up(level)[i / 2] ==
            if i % 2 == 1 then NodeHash(level[i - 1], level[i])
            else if i + 1 < |level| then NodeHash(level[i], level[i + 1])
            else level[i]
  {
  }

  /** The split of a level is half the split of the level below. */
  lemma {:induction false} SplitHalves(n: nat)
    requires n >= 3
    ensures Split(n) == 2 * Split((n + 1) / 2)
  {
    assert (n + 1) / 2 - 1 == (n - 1) / 2;
  }

  lemma {:induction false} MthNode(leaves: seq<Hash>, k: nat)
    requires |leaves| >= 2 && k == Split(|leaves|)
    ensures Mth(leaves) == NodeHash(Mth(leaves[..k]), Mth(leaves[k..]))
  {
  }

  lemma {:induction false} MthSingle(level: seq<Hash>)
    requires |level| == 1
    ensures Mth(level) == level[0]
  {
  }

  lemma {:induction false} MthPair(leaves: seq<Hash>)
    requires |leaves| == 2
    ensures Mth(leaves) == NodeHash(leaves[0], leaves[1])
    ensures Up(leaves) == [Mth(leaves)]
  {
    assert Split(2) == 1;
  }

  lemma {:induction false} MthUpNode(leaves: seq<Hash>, h: nat)
    requires |leaves| > 2 && Split(|leaves|) == 2 * h
    requires Split(|Up(leaves)|) == h
    requires Mth(Up(leaves[..2 * h])) == Mth(leaves[..2 * h])
    requires Mth(Up(leaves[2 * h..])) == Mth(leaves[2 * h..])
    ensures Mth(Up(leaves)) == Mth(leaves)
  {
    hide Split;
    UpSplit(leaves, 2 * h);
    MthNode(leaves, 2 * h);
    MthNode(Up(leaves), h);
  }

  /** Moving one level up preserves the tree hash: top-down splitting agrees with bottom-up pairing. */
  lemma {:induction false} MthUp(leaves: seq<Hash>)
    requires leaves != []
    ensures Mth(Up(leaves)) == Mth(leaves)
    decreases |leaves|
  {
    hide Split;
    var n := |leaves|;
    if n == 1 {
      assert Up(leaves) == leaves;
    } else if n == 2 {
      MthPair(leaves);
    } else {
      SplitHalves(n);
      var h := Split((n + 1) / 2);
      MthUp(leaves[..2 * h]);
      MthUp(leaves[2 * h..]);
      MthUpNode(leaves, h);
    }
  }

  // ----- The compact representation -----

  /** The compact list determines the tree hash. */
  lemma {:induction false} FoldPeaks(leaves: seq<Hash>)
    requires leaves != []
    ensures Peaks(leaves) != []
    ensures Fold(Peaks(leaves)) == Mth(leaves)
    decreases |leaves|
  {
    hide Mth;
    var n := |leaves|;
    TopBounds(n);
    var k := Top(n);
    PeaksTop(leaves, k);
    if k == n {
      assert leaves[..k] == leaves && leaves[k..] == [];
    } else {
      TopUnique(n - 1, k);
      FoldPeaks(leaves[k..]);
      MthNode(leaves, k);
      assert Peaks(leaves)[1..] == Peaks(leaves[k..]);
    }
  }

  /** Only one power of two k satisfies k <= n < 2k. */
  lemma {:induction false} TopUnique(n: nat, k: nat)
    requires exists t: nat :: k == Pow2(t)
    requires k <= n < 2 * k
    ensures Top(n) == k
  {
    var t: nat :| k == Pow2(t);
    if t == 0 {
      assert n == 1;
    } else {
      assert Pow2(t - 1) == k / 2;
      TopUnique(n / 2, k / 2);
    }
  }

  lemma {:induction false} PeaksTop(leaves: seq<Hash>, k: nat)
    requires leaves != [] && k == Top(|leaves|) <= |leaves|
    ensures Peaks(leaves) == [Mth(leaves[..k])] + Peaks(leaves[k..])
  {
  }

  lemma {:induction false} PeaksCount(leaves: seq<Hash>)
    ensures |Peaks(leaves)| == Popcount(|leaves|)
    decreases |leaves|
  {
    if leaves != [] {
      var n := |leaves|;
      TopBounds(n);
      PeaksCount(leaves[Top(n)..]);
      DropTop(n);
    }
  }

  lemma {:induction false} DropTop(n: nat)
    requires n > 0
    ensures Top(n) <= n && Popcount(n) == 1 + Popcount(n - Top(n))
  {
    TopBounds(n);
    if n > 1 {
      var q, b := n / 2, n % 2;
      DropTop(q);
      assert n - Top(n) == 2 * (q - Top(q)) + b;
      Digit(q - Top(q), b);
    }
  }

  /** A perfect tree has a single peak. */
  lemma {:induction false} PeaksPerfect(leaves: seq<Hash>, t: nat)
    requires |leaves| == Pow2(t)
    ensures Peaks(leaves) == [Mth(leaves)]
  {
    Pow2Digits(t);
    assert leaves[..Pow2(t)] == leaves;
  }

  /** Below the alignment of the first part, peaks concatenate. */
  lemma {:induction false} PeaksConcat(a: seq<Hash>, b: seq<Hash>, t: nat)
    requires Aligned(|a|, t) && |b| < Pow2(t)
    ensures Peaks(a + b) == Peaks(a) + Peaks(b)
    decreases |a|
  {
    hide Mth;
    if a == [] {
      assert a + b == b;
    } else {
      AlignedDigits(|a|, |b|, t);
      AlignedTop(|a|, t);
      var k := Top(|a|);
      PeaksConcat(a[k..], b, t);
      PeaksConcatNode(a, b, k);
    }
  }

  lemma {:induction false} PeaksConcatNode(a: seq<Hash>, b: seq<Hash>, k: nat)
    requires a != [] && k == Top(|a|) == Top(|a| + |b|) <= |a|
    requires Peaks(a[k..] + b) == Peaks(a[k..]) + Peaks(b)
    ensures Peaks(a + b) == Peaks(a) + Peaks(b)
  {
    hide Mth, Top;
    var c := a + b;
    assert c[..k] == a[..k];
    assert c[k..] == a[k..] + b;
    PeaksTop(a, k);
    PeaksTop(c, k);
  }

  /** The perfect subtree at the low end of an aligned tree is its last peak. */
  lemma {:induction false} PeaksSnoc(a: seq<Hash>, b: seq<Hash>, t: nat)
    requires Aligned(|a|, t + 1) && |b| == Pow2(t)
    ensures Peaks(a + b) == Peaks(a) + [Mth(b)]
  {
    PeaksConcat(a, b, t + 1);
    PeaksPerfect(b, t);
  }

  /** The carry step: two equal perfect trees join into the next one. */
  lemma {:induction false} MthJoin(a: seq<Hash>, b: seq<Hash>, t: nat)
    requires |a| == |b| == Pow2(t)
    ensures Mth(a + b) == NodeHash(Mth(a), Mth(b))
  {
    var k := Pow2(t);
    TopUnique(2 * k - 1, k);
    assert (a + b)[..k] == a && (a + b)[k..] == b;
    MthNode(a + b, k);
  }

  /** Peaks followed by one more leaf fold to the tree with that leaf appended. */
  lemma {:induction false} FoldSnoc(leaves: seq<Hash>, last: Hash)
    ensures Fold(Peaks(leaves) + [last]) == Mth(leaves + [last])
    decreases |leaves|
  {
    if leaves != [] {
      hide Mth;
      var k := Top(|leaves|);
      TopBounds(|leaves|);
      var rest := leaves[k..];
      FoldSnoc(rest, last);
      PeaksTop(leaves, k);
      assert (Peaks(leaves) + [last])[1..] == Peaks(rest) + [last];
      MthSnoc(leaves, last, k);
    }
  }

  lemma {:induction false} MthSnoc(leaves: seq<Hash>, last: Hash, k: nat)
    requires leaves != [] && k == Top(|leaves|)
    ensures k <= |leaves| && Mth(leaves + [last]) == NodeHash(Mth(leaves[..k]), Mth(leaves[k..] + [last]))
  {
    TopBounds(|leaves|);
    var all := leaves + [last];
    MthNode(all, k);
    assert all[..k] == leaves[..k] && all[k..] == leaves[k..] + [last];
  }

  /** The recursive hasher computes the RFC 6962 root and the compact list of its range. */
  lemma {:induction false} HashRangeCorrect(leaves: seq<Bytes>, left: nat, right: nat)
    requires left <= right <= |leaves|
    ensures HashRange(leaves, left, right) == FullOf(LeafHashes(leaves)[left..right])
    decreases right - left
  {
    hide Split;
    var hs := LeafHashes(leaves)[left..right];
    if |hs| == 1 {
      PeaksPerfect(hs, 0);
    } else if |hs| > 1 {
      var mid := left + Split(|hs|);
      HashRangeCorrect(leaves, left, mid);
      HashRangeCorrect(leaves, mid, right);
      assert hs[..mid - left] == LeafHashes(leaves)[left..mid];
      assert hs[mid - left..] == LeafHashes(leaves)[mid..right];
      JoinCorrect(hs, mid - left);
      HashRangeNode(leaves, left, right, mid - left);
    }
  }

  /** Folding any list joins its last two hashes first. */
  lemma {:induction false} FoldLast(init: seq<Hash>, x: Hash, y: Hash)
    ensures Fold([x]) == x
    ensures Fold(init + [x, y]) == Fold(init + [NodeHash(x, y)])
    decreases |init|
  {
    if init != [] {
      FoldLast(init[1..], x, y);
      assert (init + [x, y])[1..] == init[1..] + [x, y];
      assert (init + [NodeHash(x, y)])[1..] == init[1..] + [NodeHash(x, y)];
    }
  }

  /** Exactly the valid ranges are hashed, each to its RFC 6962 root and compact list; the left side of a split
      always comes back as one hash. */
  lemma {:induction false} HashFullCorrect(leaves: seq<Bytes>, left: int, right: int)
    ensures HashFull(leaves, left, right) ==
            if 0 <= left <= right <= |leaves| then Hashed(FullOf(LeafHashes(leaves)[left..right])) else IndexError
    ensures 0 <= left && left + 2 <= right <= |leaves| ==>
              |HashRange(leaves, left, left + Split(right - left)).hashes| == 1
  {
    hide HashRange, Split, Peaks;
    if 0 <= left <= right <= |leaves| { HashRangeCorrect(leaves, left, right); }
    if 0 <= left && left + 2 <= right <= |leaves| {
      var k := Split(right - left);
      HashRangeCorrect(leaves, left, left + k);
      PerfectLeft(LeafHashes(leaves)[left..left + k], right - left);
    }
  }

  lemma {:induction false} PerfectLeft(hs: seq<Hash>, n: nat)
    requires n >= 2 && |hs| == Split(n)
    ensures |Peaks(hs)| == 1
  {
    hide Peaks;
    PeaksPerfect(hs, BitLength(n - 1) - 1);
  }

  lemma {:induction false} HashRangeNode(leaves: seq<Bytes>, left: nat, right: nat, k: nat)
    requires left + 2 <= right <= |leaves| && k == Split(right - left)
    ensures HashRange(leaves, left, right) ==
            Join(right - left, HashRange(leaves, left, left + k), HashRange(leaves, left + k, right))
  {
  }

  function FullOf(hs: seq<Hash>): Full {
    Full(Root(hs), Peaks(hs))
  }

  lemma {:induction false} JoinCorrect(hs: seq<Hash>, k: nat)
    requires |hs| >= 2 && k == Split(|hs|)
    ensures Join(|hs|, FullOf(hs[..k]), FullOf(hs[k..])) == FullOf(hs)
  {
    PeaksSplit(hs, k);
  }

  /** Peaks of a tree from those of the two sides of its root. */
  lemma {:induction false} PeaksSplit(leaves: seq<Hash>, k: nat)
    requires |leaves| >= 2 && k == Split(|leaves|)
    ensures Peaks(leaves) ==
            if 2 * k == |leaves| then [Mth(leaves)] else Peaks(leaves[..k]) + Peaks(leaves[k..])
  {
    var t := BitLength(|leaves| - 1) - 1;
    if 2 * k == |leaves| {
      assert |leaves| == Pow2(t + 1);
      PeaksPerfect(leaves, t + 1);
    } else {
      PeaksPerfect(leaves[..k], t);
      TopUnique(|leaves|, k);
      PeaksTop(leaves, k);
    }
  }

  // ----- Injectivity of the root -----

  function LeafCount(h: Hash): nat {
    match h
    case EmptyHash => 0
    case LeafHash(_) => 1
    case NodeHash(l, r) => LeafCount(l) + LeafCount(r)
  }

  lemma {:induction false} MthLeafCount(leaves: seq<Hash>)
    requires leaves != [] && forall h | h in leaves :: h.LeafHash?
    ensures LeafCount(Mth(leaves)) == |leaves|
    decreases |leaves|
  {
    if |leaves| > 1 {
      MthLeafCount(leaves[..Split(|leaves|)]);
      MthLeafCount(leaves[Split(|leaves|)..]);
    }
  }

  /** Equal roots mean equal logs: no two different logs share a root. */
  lemma {:induction false} RootInjective(a: seq<Hash>, b: seq<Hash>)
    requires forall h | h in a :: h.LeafHash?
    requires forall h | h in b :: h.LeafHash?
    ensures Root(a) == Root(b) ==> a == b
    decreases |a|
  {
    if Root(a) == Root(b) {
      if a != [] { MthLeafCount(a); }
      if b != [] { MthLeafCount(b); }
      assert |a| == |b|;
      if |a| > 1 {
        var k := Split(|a|);
        RootInjective(a[..k], b[..k]);
        RootInjective(a[k..], b[k..]);
        assert a == a[..k] + a[k..] && b == b[..k] + b[k..];
      }
    }
  }
}
