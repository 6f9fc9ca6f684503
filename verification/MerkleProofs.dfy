/** Proof generation (ledger/compact_merkle_tree.py; sections 2.1.1 and 2.1.2 of RFC 6962):
    the top-down range lists of the source, the hash lists they denote, and the bottom-up
    description by levels that the verifier follows. */
module MerkleProofs {
  import opened Bits
  import opened MerkleHash

  type Range = (nat, nat)

  // ----- Top-down range lists, as the source computes them -----

  /** Ranges of the audit path of leaf m (counted from start) in the tree over [start, end). */
  function Path(m: nat, start: nat, end: nat): (r: seq<Range>)
    requires start < end
    decreases end - start
  {
    var n := end - start;
    if n == 1 then []
    else
      var k := Split(n);
      if m < k then Path(m, start, start + k) + [(start + k, end)]
      else Path(m - k, start + k, end) + [(start, start + k)]
  }

  /** Ranges of the consistency proof between the first m leaves and all leaves of [start, end). */
  function Subproof(m: nat, start: nat, end: nat, b: bool): (r: seq<Range>)
    requires 1 <= m && start + m <= end
    decreases end - start
  {
    var n := end - start;
    if m == n then (if b then [] else [(start, end)])
    else
      var k := Split(n);
      if m <= k then Subproof(m, start, start + k, b) + [(start + k, end)]
      else Subproof(m - k, start + k, end, false) + [(start, start + k)]
  }

  predicate Within(r: Range, start: nat, end: nat) {
    start <= r.0 < r.1 <= end
  }

  predicate AllWithin(ranges: seq<Range>, start: nat, end: nat) {
    forall i | 0 <= i < |ranges| :: Within(ranges[i], start, end)
  }

  function RangeHashes(leaves: seq<Hash>, ranges: seq<Range>): (r: seq<Hash>)
    requires AllWithin(ranges, 0, |leaves|)
    ensures |r| == |ranges|
  {
    seq(|ranges|, i requires 0 <= i < |ranges| => Mth(leaves[ranges[i].0..ranges[i].1]))
  }

  // ----- RFC 6962 proofs over a list of leaf hashes -----

  /** PATH(m, D[n]) of section 2.1.1. */
  function AuditPath(leaves: seq<Hash>, m: nat): seq<Hash>
    requires m < |leaves|
    decreases |leaves|
  {
    if |leaves| == 1 then []
    else
      var k := Split(|leaves|);
      if m < k then AuditPath(leaves[..k], m) + [Mth(leaves[k..])]
      else AuditPath(leaves[k..], m - k) + [Mth(leaves[..k])]
  }

  /** SUBPROOF(m, D[n], b) of section 2.1.2. */
  function ConsistencyPath(leaves: seq<Hash>, m: nat, b: bool): seq<Hash>
    requires 1 <= m <= |leaves|
    decreases |leaves|
  {
    if m == |leaves| then (if b then [] else [Mth(leaves)])
    else
      var k := Split(|leaves|);
      if m <= k then ConsistencyPath(leaves[..k], m, b) + [Mth(leaves[k..])]
      else ConsistencyPath(leaves[k..], m - k, false) + [Mth(leaves[..k])]
  }

  // ----- Bottom-up description by levels -----

  /** The sibling of node i on a level, if it has one. */
  function Sibling(level: seq<Hash>, i: nat): seq<Hash>
    requires i < |level|
  {
    if i % 2 == 1 then [level[i - 1]]
    else if i + 1 < |level| then [level[i + 1]]
    else []
  }

  /** Siblings met while climbing from node i to the root. */
  function SiblingPath(level: seq<Hash>, i: nat): seq<Hash>
    requires i < |level|
    decreases |level|
  {
    if |level| == 1 then [] else Sibling(level, i) + SiblingPath(Up(level), i / 2)
  }

  /** Climb from the last node of the old tree while it is a right child, then list its own hash
      (unless it is the old root, which the verifier already has) and its siblings. */
  function AnchoredPath(level: seq<Hash>, m: nat, b: bool): seq<Hash>
    requires 1 <= m <= |level|
    decreases |level|
  {
    if m % 2 == 0 then AnchoredPath(Up(level), m / 2, b)
    else Seed(level, m, b) + SiblingPath(level, m - 1)
  }

  function Seed(level: seq<Hash>, m: nat, b: bool): seq<Hash>
    requires 1 <= m <= |level|
  {
    if b && m == 1 then [] else [level[m - 1]]
  }

  // ----- The range lists denote the RFC proofs -----

  /** Every range of an audit path lies in the tree and beside the leaf. */
  lemma {:induction false} PathWithin(m: nat, start: nat, end: nat)
    requires start + m < end
    ensures AllWithin(Path(m, start, end), start, end)
    ensures AllBeside(Path(m, start, end), start + m)
    decreases end - start
  {
    hide Split;
    if end - start > 1 {
      var k := Split(end - start);
      if m < k { PathWithin(m, start, start + k); } else { PathWithin(m - k, start + k, end); }
    }
  }

  predicate AllBeside(ranges: seq<Range>, i: nat) {
    forall j | 0 <= j < |ranges| :: ranges[j].1 <= i || i < ranges[j].0
  }

  /** Asked for a leaf past the end, the recursion describes the path of the last leaf. */
  lemma {:induction false} PathBeyond(m: nat, start: nat, end: nat)
    requires start < end <= start + m
    ensures Path(m, start, end) == Path(end - start - 1, start, end)
    decreases end - start
  {
    hide Split;
    if end - start > 1 {
      var k := Split(end - start);
      PathBeyond(m - k, start + k, end);
    }
  }

  lemma {:induction false} SubproofWithin(m: nat, start: nat, end: nat, b: bool)
    requires 1 <= m && start + m <= end
    ensures AllWithin(Subproof(m, start, end, b), start, end)
    decreases end - start
  {
    hide Split;
    if start + m != end {
      var k := Split(end - start);
      if m <= k { SubproofWithin(m, start, start + k, b); }
      else { SubproofWithin(m - k, start + k, end, false); }
    }
  }

  lemma {:induction false} WithinWider(ranges: seq<Range>, start: nat, end: nat, size: nat)
    requires AllWithin(ranges, start, end) && end <= size
    ensures AllWithin(ranges, 0, size)
  {
  }

  lemma {:induction false} RangeHashesSnoc(leaves: seq<Hash>, ranges: seq<Range>, start: nat, end: nat)
    requires AllWithin(ranges, 0, |leaves|) && start < end <= |leaves|
    ensures AllWithin(ranges + [(start, end)], 0, |leaves|)
    ensures RangeHashes(leaves, ranges + [(start, end)]) == RangeHashes(leaves, ranges) + [Mth(leaves[start..end])]
  {
    hide Mth;
  }

  lemma {:induction false} PathDenotes(leaves: seq<Hash>, m: nat, start: nat, end: nat)
    requires start + m < end <= |leaves|
    ensures AllWithin(Path(m, start, end), 0, |leaves|)
    ensures RangeHashes(leaves, Path(m, start, end)) == AuditPath(leaves[start..end], m)
    decreases end - start
  {
    hide Split, Mth, RangeHashes, AllWithin, AuditPath;
    PathWithin(m, start, end);
    WithinWider(Path(m, start, end), start, end, |leaves|);
    if end - start == 1 {
      RangeHashesEmpty(leaves);
      AuditPathSingle(leaves[start..end]);
    } else {
      var mid := start + Split(end - start);
      SliceSplit(leaves, start, mid, end);
      AuditPathNode(leaves[start..end], m, mid - start);
      if m < mid - start {
        PathDenotes(leaves, m, start, mid);
        RangeHashesSnoc(leaves, Path(m, start, mid), mid, end);
      } else {
        PathDenotes(leaves, start + m - mid, mid, end);
        RangeHashesSnoc(leaves, Path(start + m - mid, mid, end), start, mid);
      }
    }
  }

  lemma {:induction false} RangeHashesEmpty(leaves: seq<Hash>)
    ensures AllWithin([], 0, |leaves|) && RangeHashes(leaves, []) == []
  {
  }

  lemma {:induction false} SliceSplit(leaves: seq<Hash>, start: nat, mid: nat, end: nat)
    requires start <= mid <= end <= |leaves|
    ensures leaves[start..end][..mid - start] == leaves[start..mid]
    ensures leaves[start..end][mid - start..] == leaves[mid..end]
  {
  }

  lemma {:induction false} SubproofDenotes(leaves: seq<Hash>, m: nat, start: nat, end: nat, b: bool)
    requires 1 <= m && start + m <= end <= |leaves|
    ensures AllWithin(Subproof(m, start, end, b), 0, |leaves|)
    ensures RangeHashes(leaves, Subproof(m, start, end, b)) == ConsistencyPath(leaves[start..end], m, b)
    decreases end - start
  {
    hide Split, Mth, RangeHashes, AllWithin;
    SubproofWithin(m, start, end, b);
    WithinWider(Subproof(m, start, end, b), start, end, |leaves|);
    if start + m == end {
      RangeHashesEmpty(leaves);
      RangeHashesSnoc(leaves, [], start, end);
      assert [] + [(start, end)] == [(start, end)];
    } else {
      var mid := start + Split(end - start);
      SliceSplit(leaves, start, mid, end);
      if m <= mid - start {
        SubproofDenotes(leaves, m, start, mid, b);
        RangeHashesSnoc(leaves, Subproof(m, start, mid, b), mid, end);
      } else {
        SubproofDenotes(leaves, start + m - mid, mid, end, false);
        RangeHashesSnoc(leaves, Subproof(start + m - mid, mid, end, false), start, mid);
      }
    }
  }

  // ----- Top-down proofs agree with the bottom-up description -----

  lemma {:induction false} Assoc(a: seq<Hash>, b: seq<Hash>, c: seq<Hash>)
    ensures a + b + c == a + (b + c)
  {
  }

  lemma {:induction false} AuditPathNode(leaves: seq<Hash>, m: nat, k: nat)
    requires m < |leaves| && |leaves| >= 2 && k == Split(|leaves|)
    ensures AuditPath(leaves, m) ==
            if m < k then AuditPath(leaves[..k], m) + [Mth(leaves[k..])]
            else AuditPath(leaves[k..], m - k) + [Mth(leaves[..k])]
  {
    hide Split, Mth;
  }

  /** One level of the audit path. */
  lemma {:induction false} AuditPathUp(leaves: seq<Hash>, m: nat)
    requires m < |leaves| && |leaves| >= 2
    ensures AuditPath(leaves, m) == Sibling(leaves, m) + AuditPath(Up(leaves), m / 2)
    decreases |leaves|
  {
    hide Split, Mth, AuditPath, Up, Sibling;
    var n := |leaves|;
    if n == 2 {
      AuditPathPair(leaves, m);
    } else {
      SplitHalves(n);
      var h := Split((n + 1) / 2);
      var k := 2 * h;
      UpSplit(leaves, k);
      var l, r := leaves[..k], leaves[k..];
      MthUp(l);
      MthUp(r);
      AuditPathNode(leaves, m, k);
      AuditPathNode(Up(leaves), m / 2, h);
      if m < k {
        AuditPathUp(l, m);
        SiblingLeft(leaves, m, k);
        Assoc(Sibling(leaves, m), AuditPath(Up(l), m / 2), [Mth(r)]);
      } else {
        SiblingRight(leaves, m, k);
        assert m / 2 - h == (m - k) / 2;
        if |r| == 1 {
          UpSingle(r);
          AuditPathSingle(r);
        } else {
          AuditPathUp(r, m - k);
        }
        Assoc(Sibling(leaves, m), AuditPath(Up(r), (m - k) / 2), [Mth(l)]);
      }
    }
  }

  lemma {:induction false} AuditPathSingle(leaves: seq<Hash>)
    requires |leaves| == 1
    ensures AuditPath(leaves, 0) == [] == Sibling(leaves, 0)
  {
  }

  lemma {:induction false} SiblingLeft(leaves: seq<Hash>, m: nat, k: nat)
    requires m < k < |leaves| && k % 2 == 0
    ensures Sibling(leaves, m) == Sibling(leaves[..k], m)
  {
  }

  lemma {:induction false} SiblingRight(leaves: seq<Hash>, m: nat, k: nat)
    requires k <= m < |leaves| && k % 2 == 0
    ensures Sibling(leaves, m) == Sibling(leaves[k..], m - k)
  {
  }

  lemma {:induction false} UpSingle(level: seq<Hash>)
    requires |level| == 1
    ensures Up(level) == level
  {
  }

  lemma {:induction false} AuditPathPair(leaves: seq<Hash>, m: nat)
    requires m < |leaves| == 2
    ensures AuditPath(leaves, m) == Sibling(leaves, m) + AuditPath(Up(leaves), m / 2)
  {
    assert Split(2) == 1;
  }

  /** The RFC 6962 audit path is the list of siblings on the way up. */
  lemma {:induction false} AuditPathIsSiblingPath(leaves: seq<Hash>, m: nat)
    requires m < |leaves|
    ensures AuditPath(leaves, m) == SiblingPath(leaves, m)
    decreases |leaves|
  {
    if |leaves| > 1 {
      AuditPathUp(leaves, m);
      AuditPathIsSiblingPath(Up(leaves), m / 2);
    }
  }

  lemma {:induction false} ConsistencyPathFull(leaves: seq<Hash>, m: nat, b: bool)
    requires 1 <= m == |leaves|
    ensures ConsistencyPath(leaves, m, b) == if b then [] else [Mth(leaves)]
  {
    hide Mth;
  }

  /** With an even old size, the consistency proof is that of the level above. */
  lemma {:induction false} ConsistencyPathEven(leaves: seq<Hash>, m: nat, b: bool)
    requires 1 <= m <= |leaves| && m % 2 == 0
    ensures ConsistencyPath(leaves, m, b) == ConsistencyPath(Up(leaves), m / 2, b)
    decreases |leaves|
  {
    hide Split, Mth, ConsistencyPath, Up;
    var n := |leaves|;
    if m == n {
      MthUp(leaves);
      ConsistencyPathFull(leaves, m, b);
      ConsistencyPathFull(Up(leaves), m / 2, b);
    } else {
      SplitHalves(n);
      var h := Split((n + 1) / 2);
      var k := 2 * h;
      UpSplit(leaves, k);
      var l, r := leaves[..k], leaves[k..];
      MthUp(l);
      MthUp(r);
      ConsistencyPathNode(leaves, m, b, k);
      ConsistencyPathNode(Up(leaves), m / 2, b, h);
      if m <= k { ConsistencyPathEven(l, m, b); }
      else {
        assert m / 2 - h == (m - k) / 2;
        ConsistencyPathEven(r, m - k, false);
      }
    }
  }

  lemma {:induction false} ConsistencyPathNode(leaves: seq<Hash>, m: nat, b: bool, k: nat)
    requires 1 <= m < |leaves| && k == Split(|leaves|)
    ensures ConsistencyPath(leaves, m, b) ==
            if m <= k then ConsistencyPath(leaves[..k], m, b) + [Mth(leaves[k..])]
            else ConsistencyPath(leaves[k..], m - k, false) + [Mth(leaves[..k])]
  {
    hide Split, Mth;
  }

  lemma {:induction false} ConsistencyPathOne(leaves: seq<Hash>, b: bool)
    requires |leaves| == 1
    ensures ConsistencyPath(leaves, 1, b) == Seed(leaves, 1, b) + AuditPath(leaves, 0)
  {
  }

  /** With an odd old size, it is the hash of the old last leaf followed by that leaf's audit path. */
  lemma {:induction false} ConsistencyPathOdd(leaves: seq<Hash>, m: nat, b: bool)
    requires 1 <= m <= |leaves| && m % 2 == 1 && (m < |leaves| || m == 1)
    ensures ConsistencyPath(leaves, m, b) == Seed(leaves, m, b) + AuditPath(leaves, m - 1)
    decreases |leaves|
  {
    hide Split, Mth, ConsistencyPath, AuditPath, Seed;
    var n := |leaves|;
    if m == n {
      ConsistencyPathOne(leaves, b);
    } else {
      var k := Split(n);
      OddBeyondSplit(m, n);
      ConsistencyPathNode(leaves, m, b, k);
      AuditPathNode(leaves, m - 1, k);
      var l, r := leaves[..k], leaves[k..];
      SeedSides(leaves, m, b, k);
      if m <= k {
        ConsistencyPathOdd(l, m, b);
        Assoc(Seed(l, m, b), AuditPath(l, m - 1), [Mth(r)]);
      } else {
        ConsistencyPathOdd(r, m - k, false);
        Assoc(Seed(r, m - k, false), AuditPath(r, m - k - 1), [Mth(l)]);
      }
    }
  }

  lemma {:induction false} OddBeyondSplit(m: nat, n: nat)
    requires m % 2 == 1 && m < n
    ensures 1 <= Split(n) < n
    ensures if m > Split(n) then (m - Split(n)) % 2 == 1 else m < Split(n) || m == 1
  {
    hide Split;
    if n > 2 { SplitHalves(n); }
  }

  lemma {:induction false} SeedSides(leaves: seq<Hash>, m: nat, b: bool, k: nat)
    requires 1 <= m <= |leaves| && 1 <= k < |leaves|
    ensures m <= k ==> Seed(leaves[..k], m, b) == Seed(leaves, m, b)
    ensures m > k ==> Seed(leaves[k..], m - k, false) == Seed(leaves, m, b)
  {
  }

  /** The RFC 6962 consistency proof is the anchored sibling path. */
  lemma {:induction false} ConsistencyPathIsAnchored(leaves: seq<Hash>, m: nat, b: bool)
    requires 1 <= m < |leaves|
    ensures ConsistencyPath(leaves, m, b) == AnchoredPath(leaves, m, b)
    decreases |leaves|
  {
    hide Up, SiblingPath, AuditPath, ConsistencyPath, Seed;
    if m % 2 == 0 {
      ConsistencyPathEven(leaves, m, b);
      ConsistencyPathIsAnchored(Up(leaves), m / 2, b);
    } else {
      ConsistencyPathOdd(leaves, m, b);
      AuditPathIsSiblingPath(leaves, m - 1);
    }
  }

  // ----- The path handed out by append -----

  function Reverse(s: seq<Hash>): (r: seq<Hash>)
    ensures |r| == |s|
    ensures forall i | 0 <= i < |s| :: r[i] == s[|s| - 1 - i]
  {
    seq(|s|, i requires 0 <= i < |s| => s[|s| - 1 - i])
  }

  lemma {:induction false} PeaksNone()
    ensures Peaks([]) == []
  {
  }

  /** The reversed peaks of a tree are the audit path of the next leaf, whatever that leaf is. */
  lemma {:induction false} AppendPath(leaves: seq<Hash>, next: Hash)
    ensures AuditPath(leaves + [next], |leaves|) == Reverse(Peaks(leaves))
    decreases |leaves|
  {
    hide Mth, AuditPath, Peaks;
    var all := leaves + [next];
    if leaves == [] {
      AuditPathSingle(all);
      PeaksNone();
    } else {
      var k := Top(|leaves|);
      TopBounds(|leaves|);
      assert all[..k] == leaves[..k] && all[k..] == leaves[k..] + [next];
      AuditPathNode(all, |leaves|, k);
      AppendPath(leaves[k..], next);
      PeaksTop(leaves, k);
      assert Reverse([Mth(leaves[..k])] + Peaks(leaves[k..])) == Reverse(Peaks(leaves[k..])) + [Mth(leaves[..k])];
    }
  }
}
