/** What a proof stands for without any log at hand: the roots rebuilt from it along the recursion of sections
    2.1.1 and 2.1.2 of RFC 6962, and how that recursion looks level by level. */
module MerkleRebuild {
  import opened MerkleHash
  import opened MerkleProofs

  // ----- Audit paths -----

  /** Length of PATH(i, D[n]). */
  function AuditDepth(i: nat, n: nat): nat
    requires i < n
    decreases n
  {
    if n == 1 then 0
    else
      var k := Split(n);
      1 + if i < k then AuditDepth(i, k) else AuditDepth(i - k, n - k)
  }

  /** The root of n leaves rebuilt from leaf i; the last hash of the path is the sibling just below the root. */
  function AuditRebuild(i: nat, n: nat, leaf: Hash, path: seq<Hash>): Hash
    requires i < n && |path| == AuditDepth(i, n)
    decreases n
  {
    if n == 1 then leaf
    else
      var k, below, sibling := Split(n), path[..|path| - 1], path[|path| - 1];
      if i < k then NodeHash(AuditRebuild(i, k, leaf, below), sibling)
      else NodeHash(sibling, AuditRebuild(i - k, n - k, leaf, below))
  }

  // ----- Consistency proofs -----

  /** Roots of the first m leaves and of all n leaves. */
  datatype Roots = Roots(oldRoot: Hash, newRoot: Hash)

  /** Length of SUBPROOF(m, D[n], b). */
  function ProofDepth(m: nat, n: nat, b: bool): nat
    requires 1 <= m <= n
    decreases n
  {
    if m == n then (if b then 0 else 1)
    else
      var k := Split(n);
      1 + if m <= k then ProofDepth(m, k, b) else ProofDepth(m - k, n - k, false)
  }

  /** Both roots rebuilt: a right sibling belongs to the new tree only, a left one to both. A whole old subtree
      is given by the old root itself or by the first hash of the proof. */
  function Rebuild(m: nat, n: nat, b: bool, oldRoot: Hash, proof: seq<Hash>): Roots
    requires 1 <= m <= n && |proof| == ProofDepth(m, n, b)
    decreases n
  {
    if m == n then (if b then Roots(oldRoot, oldRoot) else Roots(proof[0], proof[0]))
    else
      var k, below, sibling := Split(n), proof[..|proof| - 1], proof[|proof| - 1];
      if m <= k then
        var left := Rebuild(m, k, b, oldRoot, below);
        Roots(left.oldRoot, NodeHash(left.newRoot, sibling))
      else
        var right := Rebuild(m - k, n - k, false, oldRoot, below);
        Roots(NodeHash(sibling, right.oldRoot), NodeHash(sibling, right.newRoot))
  }

  /** Both roots rebuilt from the last node i of the old tree and its siblings. */
  function PairRebuild(i: nat, n: nat, start: Roots, path: seq<Hash>): Roots
    requires i < n && |path| == AuditDepth(i, n)
    decreases n
  {
    if n == 1 then start
    else
      var k, below, sibling := Split(n), path[..|path| - 1], path[|path| - 1];
      if i < k then
        var left := PairRebuild(i, k, start, below);
        Roots(left.oldRoot, NodeHash(left.newRoot, sibling))
      else
        var right := PairRebuild(i - k, n - k, start, below);
        Roots(NodeHash(sibling, right.oldRoot), NodeHash(sibling, right.newRoot))
  }

  // ----- One level up -----

  predicate HasSibling(i: nat, n: nat) {
    i % 2 == 1 || i + 1 < n
  }

  /** The split of a tree and the split one level up put node i and its parent on the same side. */
  lemma {:induction false} SplitUp(i: nat, n: nat)
    requires i < n && n > 2
    ensures var k, h := Split(n), Split((n + 1) / 2);
            && 2 <= k < n && k % 2 == 0 && (k + 1) / 2 == k / 2 == h < (n + 1) / 2
            && (n - k + 1) / 2 == (n + 1) / 2 - h
            && (i < k <==> i / 2 < h)
            && (i >= k ==> (i - k) / 2 == i / 2 - h && (i - k) % 2 == i % 2)
  {
    hide Split;
    SplitHalves(n);
  }

  lemma {:induction false} DepthUp(i: nat, n: nat)
    requires i < n && n > 1
    ensures AuditDepth(i, n) == (if HasSibling(i, n) then 1 else 0) + AuditDepth(i / 2, (n + 1) / 2)
    decreases n
  {
    hide Split;
    if n > 2 {
      SplitUp(i, n);
      var k := Split(n);
      if i < k {
        DepthUp(i, k);
      } else if n - k > 1 {
        DepthUp(i - k, n - k);
      }
    }
  }

  /** One sibling, if there is one, moves both hashes one level up. */
  function Lifted(i: nat, start: Roots, sibling: Hash): Roots {
    if i % 2 == 1 then Roots(NodeHash(sibling, start.oldRoot), NodeHash(sibling, start.newRoot))
    else Roots(start.oldRoot, NodeHash(start.newRoot, sibling))
  }

  lemma {:induction false} PairUp(i: nat, n: nat, start: Roots, path: seq<Hash>)
    requires i < n && n > 1 && |path| == AuditDepth(i, n)
    requires HasSibling(i, n)
    ensures |path| == 1 + AuditDepth(i / 2, (n + 1) / 2)
    ensures PairRebuild(i, n, start, path) == PairRebuild(i / 2, (n + 1) / 2, Lifted(i, start, path[0]), path[1..])
    decreases n
  {
    hide Split;
    DepthUp(i, n);
    if n > 2 {
      SplitUp(i, n);
      var k, below := Split(n), path[..|path| - 1];
      if i < k {
        PairUp(i, k, start, below);
      } else {
        PairUp(i - k, n - k, start, below);
      }
      assert path[1..][..|path| - 2] == below[1..];
    }
  }

  lemma {:induction false} PairPromoted(i: nat, n: nat, start: Roots, path: seq<Hash>)
    requires i < n && n > 1 && |path| == AuditDepth(i, n)
    requires !HasSibling(i, n)
    ensures |path| == AuditDepth(i / 2, (n + 1) / 2)
    ensures PairRebuild(i, n, start, path) == PairRebuild(i / 2, (n + 1) / 2, start, path)
    decreases n
  {
    hide Split;
    DepthUp(i, n);
    SplitUp(i, n);
    var k := Split(n);
    if n - k > 1 { PairPromoted(i - k, n - k, start, path[..|path| - 1]); }
  }

  /** Along an audit path the new root is the audit rebuild. */
  lemma {:induction false} PairNew(i: nat, n: nat, start: Roots, path: seq<Hash>)
    requires i < n && |path| == AuditDepth(i, n)
    ensures PairRebuild(i, n, start, path).newRoot == AuditRebuild(i, n, start.newRoot, path)
    decreases n
  {
    hide Split;
    if n > 1 {
      var k, below := Split(n), path[..|path| - 1];
      if i < k { PairNew(i, k, start, below); } else { PairNew(i - k, n - k, start, below); }
    }
  }

  lemma {:induction false} EvenSplit(m: nat, n: nat)
    requires 1 <= m < n && m % 2 == 0
    ensures var k, h := Split(n), Split((n + 1) / 2);
            && 2 <= k < n && (k + 1) / 2 == h < (n + 1) / 2 && m / 2 < (n + 1) / 2
            && (n - k + 1) / 2 == (n + 1) / 2 - h
            && (m <= k <==> m / 2 <= h)
            && (m > k ==> (m - k) / 2 == m / 2 - h && (m - k) % 2 == 0)
  {
    hide Split;
    SplitUp(m, n);
  }

  /** An even number of old leaves looks the same one level up. */
  lemma {:induction false} EvenDepth(m: nat, n: nat, b: bool)
    requires 1 <= m <= n && m % 2 == 0
    ensures ProofDepth(m, n, b) == ProofDepth(m / 2, (n + 1) / 2, b)
    decreases n
  {
    hide Split;
    if m < n {
      EvenSplit(m, n);
      var k := Split(n);
      if m <= k { EvenDepth(m, k, b); } else { EvenDepth(m - k, n - k, false); }
    }
  }

  lemma {:induction false} EvenRebuild(m: nat, n: nat, b: bool, oldRoot: Hash, proof: seq<Hash>)
    requires 1 <= m <= n && m % 2 == 0 && |proof| == ProofDepth(m, n, b)
    ensures |proof| == ProofDepth(m / 2, (n + 1) / 2, b)
    ensures Rebuild(m, n, b, oldRoot, proof) == Rebuild(m / 2, (n + 1) / 2, b, oldRoot, proof)
    decreases n
  {
    hide Split;
    EvenDepth(m, n, b);
    if m < n {
      EvenSplit(m, n);
      var k, below := Split(n), proof[..|proof| - 1];
      if m <= k {
        EvenRebuild(m, k, b, oldRoot, below);
      } else {
        EvenRebuild(m - k, n - k, false, oldRoot, below);
      }
    }
  }

  /** The hash the climb starts from, and the siblings after it. */
  function Seeds(m: nat, b: bool): nat {
    if b && m == 1 then 0 else 1
  }

  lemma {:induction false} OddDepth(m: nat, n: nat, b: bool)
    requires 1 <= m <= n && m % 2 == 1 && (m < n || m == 1)
    ensures ProofDepth(m, n, b) == Seeds(m, b) + AuditDepth(m - 1, n)
    decreases n
  {
    hide Split;
    if m < n {
      OddBeyondSplit(m, n);
      var k := Split(n);
      if m <= k { OddDepth(m, k, b); } else { OddDepth(m - k, n - k, false); }
    }
  }

  /** For an odd number of old leaves the proof is a start hash and an audit path of the last of them. */
  lemma {:induction false} OddRebuild(m: nat, n: nat, b: bool, oldRoot: Hash, proof: seq<Hash>)
    requires 1 <= m <= n && m % 2 == 1 && (m < n || m == 1) && |proof| == ProofDepth(m, n, b)
    ensures |proof| == Seeds(m, b) + AuditDepth(m - 1, n)
    ensures var seed := if b && m == 1 then oldRoot else proof[0];
            Rebuild(m, n, b, oldRoot, proof) == PairRebuild(m - 1, n, Roots(seed, seed), proof[Seeds(m, b)..])
    decreases n
  {
    hide Split;
    OddDepth(m, n, b);
    if m < n {
      OddBeyondSplit(m, n);
      var k, below, s := Split(n), proof[..|proof| - 1], Seeds(m, b);
      if m <= k {
        OddRebuild(m, k, b, oldRoot, below);
      } else {
        OddRebuild(m - k, n - k, false, oldRoot, below);
      }
      assert proof[s..][..|proof| - s - 1] == below[s..];
    }
  }
}
