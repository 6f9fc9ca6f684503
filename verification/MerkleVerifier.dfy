/** Proof verification (ledger/merkle_verifier.py): the bit-shifting loops of the source and
    exactly which proofs they accept. */
module MerkleVerifier {
  import opened Bits
  import opened MerkleHash
  import opened MerkleProofs
  import opened MerkleRebuild
  import opened Wrappers

  // ----- Specification of the consistency loops -----

  /** While the old last node is a right child, everything below is in both trees. */
  function Strip(node: nat, last: nat): (r: (nat, nat))
    requires node < last
    ensures r.0 < r.1 && r.0 % 2 == 0
  {
    if node % 2 == 1 then Strip(node / 2, last / 2) else (node, last)
  }

  datatype Climbed = Climbed(oldHash: Hash, newHash: Hash, rest: seq<Hash>)

  /** Rebuild the two roots in parallel from the hash of the current node in each tree. */
  function Climb(node: nat, last: nat, oldHash: Hash, newHash: Hash, proof: seq<Hash>): Option<Climbed>
    requires node <= last
    decreases last
  {
    if last == 0 then Some(Climbed(oldHash, newHash, proof))
    else if node % 2 == 1 then
      if proof == [] then None
      else Climb(node / 2, last / 2, NodeHash(proof[0], oldHash), NodeHash(proof[0], newHash), proof[1..])
    else if node < last then
      if proof == [] then None
      else Climb(node / 2, last / 2, oldHash, NodeHash(newHash, proof[0]), proof[1..])
    else Climb(node / 2, last / 2, oldHash, newHash, proof)
  }

  datatype Verdict =
    | Accepted
    | ValueError          // the tree sizes are invalid
    | ProofError          // the proof is too short or does not lead to the new root
    | ConsistencyError    // the proof leads to the new root and contradicts the old one

  function Judge(climbed: Option<Climbed>, oldRoot: Hash, newRoot: Hash): Verdict {
    match climbed
    case None => ProofError
    case Some(c) =>
      if c.newHash != newRoot then ProofError
      else if c.oldHash != oldRoot then ConsistencyError
      else Accepted
  }

  function ConsistencyVerdict(oldSize: int, newSize: int, oldRoot: Hash, newRoot: Hash, proof: seq<Hash>): Verdict {
    if oldSize < 0 || newSize < 0 || oldSize > newSize then ValueError
    else if oldSize == newSize then (if oldRoot == newRoot then Accepted else ConsistencyError)
    else if oldSize == 0 then Accepted
    else
      var (node, last) := Strip(oldSize - 1, newSize - 1);
      if node == 0 then Judge(Climb(node, last, oldRoot, oldRoot, proof), oldRoot, newRoot)
      else if proof == [] then ProofError
      else Judge(Climb(node, last, proof[0], proof[0], proof[1..]), oldRoot, newRoot)
  }

  /** The verdict that the recursion of section 2.1.2 of RFC 6962 calls for: rebuild both roots from as much of
      the proof as a proof between these sizes has, and compare. Surplus hashes are ignored. */
  function RebuiltVerdict(m: nat, n: nat, oldRoot: Hash, newRoot: Hash, proof: seq<Hash>): Verdict
    requires 0 < m < n
  {
    var length := ProofDepth(m, n, true);
    if |proof| < length then ProofError
    else
      var rebuilt := Rebuild(m, n, true, oldRoot, proof[..length]);
      if rebuilt.newRoot != newRoot then ProofError
      else if rebuilt.oldRoot != oldRoot then ConsistencyError
      else Accepted
  }

  // ----- The verifier of the source -----

  method VerifyTreeConsistency(oldSize: int, newSize: int, oldRoot: Hash, newRoot: Hash, proof: seq<Hash>)
    returns (verdict: Verdict)
    ensures verdict == ConsistencyVerdict(oldSize, newSize, oldRoot, newRoot, proof)
    ensures verdict == ValueError <==> oldSize < 0 || newSize < 0 || oldSize > newSize
    ensures 0 <= oldSize == newSize ==> verdict == if oldRoot == newRoot then Accepted else ConsistencyError
    ensures 0 == oldSize < newSize ==> verdict == Accepted
    ensures 0 < oldSize < newSize ==> verdict == RebuiltVerdict(oldSize, newSize, oldRoot, newRoot, proof)
    ensures forall leaves: seq<Hash> {:trigger Mth(leaves)} ::
              0 < oldSize < newSize == |leaves| && newRoot == Mth(leaves) ==>
                (verdict == Accepted <==>
                  oldRoot == Mth(leaves[..oldSize]) && ConsistencyPath(leaves, oldSize, true) <= proof)
  {
    hide RebuiltVerdict, Strip, Climb;
    forall leaves: seq<Hash> {:trigger Mth(leaves)}
      | 0 < oldSize < newSize == |leaves| && newRoot == Mth(leaves)
      ensures ConsistencyVerdict(oldSize, newSize, oldRoot, newRoot, proof) == Accepted <==>
              oldRoot == Mth(leaves[..oldSize]) && ConsistencyPath(leaves, oldSize, true) <= proof
    {
      ConsistencyExact(leaves, oldSize, oldRoot, proof);
    }
    if oldSize < 0 || newSize < 0 || oldSize > newSize {
      return ValueError;
    }
    if oldSize == newSize {
      return if oldRoot == newRoot then Accepted else ConsistencyError;
    }
    if oldSize == 0 {
      return Accepted;
    }
    verdict := ConsistencyLoops(oldSize, newSize, oldRoot, newRoot, proof);
  }

  /** The three kinds of step of the climb. */
  lemma {:induction false} ClimbUp(node: nat, last: nat, oldHash: Hash, newHash: Hash, proof: seq<Hash>, p: nat)
    requires node <= last && last > 0 && p <= |proof|
    ensures p == |proof| && (node % 2 == 1 || node < last) ==> Climb(node, last, oldHash, newHash, proof[p..]) == None
    ensures p < |proof| && node % 2 == 1 ==>
              Climb(node, last, oldHash, newHash, proof[p..]) ==
              Climb(node / 2, last / 2, NodeHash(proof[p], oldHash), NodeHash(proof[p], newHash), proof[p + 1..])
    ensures p < |proof| && node % 2 == 0 && node < last ==>
              Climb(node, last, oldHash, newHash, proof[p..]) ==
              Climb(node / 2, last / 2, oldHash, NodeHash(newHash, proof[p]), proof[p + 1..])
    ensures node % 2 == 0 && node == last ==>
              Climb(node, last, oldHash, newHash, proof[p..]) == Climb(node / 2, last / 2, oldHash, newHash, proof[p..])
  {
    if p < |proof| { assert proof[p..][0] == proof[p] && proof[p..][1..] == proof[p + 1..]; }
  }

  lemma {:induction false} ClimbDone(oldHash: Hash, newHash: Hash, proof: seq<Hash>)
    ensures Climb(0, 0, oldHash, newHash, proof) == Some(Climbed(oldHash, newHash, proof))
  {
  }

  lemma {:induction false} VerdictStart(oldSize: nat, newSize: nat, oldRoot: Hash, newRoot: Hash, proof: seq<Hash>,
                                        node: nat, last: nat)
    requires 0 < oldSize < newSize && node < last && node % 2 == 0
    requires Strip(node, last) == Strip(oldSize - 1, newSize - 1)
    ensures ConsistencyVerdict(oldSize, newSize, oldRoot, newRoot, proof) ==
            if node == 0 then Judge(Climb(node, last, oldRoot, oldRoot, proof[0..]), oldRoot, newRoot)
            else if proof == [] then ProofError
            else Judge(Climb(node, last, proof[0], proof[0], proof[1..]), oldRoot, newRoot)
  {
    hide Climb;
    assert proof[0..] == proof;
  }

  method ConsistencyLoops(oldSize: nat, newSize: nat, oldRoot: Hash, newRoot: Hash, proof: seq<Hash>)
    returns (verdict: Verdict)
    requires 0 < oldSize < newSize
    ensures verdict == ConsistencyVerdict(oldSize, newSize, oldRoot, newRoot, proof)
    ensures verdict == RebuiltVerdict(oldSize, newSize, oldRoot, newRoot, proof)
  {
    VerdictIsRebuilt(oldSize, newSize, oldRoot, newRoot, proof);
    hide Climb, RebuiltVerdict, ConsistencyVerdict;
    var node, last := oldSize - 1, newSize - 1;
    while node % 2 == 1
      invariant 0 <= node < last
      invariant Strip(node, last) == Strip(oldSize - 1, newSize - 1)
      decreases node
    {
      node, last := node / 2, last / 2;
    }

    VerdictStart(oldSize, newSize, oldRoot, newRoot, proof, node, last);
    var p := 0;
    var newHash, oldHash := oldRoot, oldRoot;
    if node != 0 {
      if proof == [] { return ProofError; }
      newHash, oldHash, p := proof[0], proof[0], 1;
    }
    ghost var climbed := Climb(node, last, oldHash, newHash, proof[p..]);
    hide Strip;

    while node != 0
      invariant 0 <= node <= last && p <= |proof|
      invariant climbed == Climb(node, last, oldHash, newHash, proof[p..])
      decreases node
    {
      ClimbUp(node, last, oldHash, newHash, proof, p);
      if node % 2 == 1 {
        if p == |proof| { return ProofError; }
        var nextNode := proof[p];
        oldHash, newHash := NodeHash(nextNode, oldHash), NodeHash(nextNode, newHash);
        p := p + 1;
      } else if node < last {
        if p == |proof| { return ProofError; }
        newHash := NodeHash(newHash, proof[p]);
        p := p + 1;
      }
      node, last := node / 2, last / 2;
    }

    while last != 0
      invariant 0 <= last && p <= |proof|
      invariant climbed == Climb(0, last, oldHash, newHash, proof[p..])
    {
      ClimbUp(0, last, oldHash, newHash, proof, p);
      if p == |proof| { return ProofError; }
      newHash := NodeHash(newHash, proof[p]);
      p := p + 1;
      last := last / 2;
    }

    ClimbDone(oldHash, newHash, proof[p..]);
    if newHash != newRoot { return ProofError; }
    if oldHash != oldRoot { return ConsistencyError; }
    return Accepted;
  }

  // ----- What the climb computes -----

  /** The genuine node and siblings rebuild both roots and leave the rest of the proof unread. */
  lemma {:induction false} ClimbComplete(oldLevel: seq<Hash>, level: seq<Hash>, rest: seq<Hash>)
    requires 1 <= |oldLevel| <= |level| && oldLevel[..|oldLevel| - 1] == level[..|oldLevel| - 1]
    ensures Climb(|oldLevel| - 1, |level| - 1, oldLevel[|oldLevel| - 1], level[|oldLevel| - 1], SiblingPath(level, |oldLevel| - 1) + rest)
            == Some(Climbed(Mth(oldLevel), Mth(level), rest))
    decreases |level|
  {
    hide Mth, Up, Climb;
    var node := |oldLevel| - 1;
    if |level| == 1 {
      MthSingle(oldLevel);
      MthSingle(level);
      ClimbDone(oldLevel[node], level[node], rest);
      assert SiblingPath(level, node) + rest == rest;
    } else {
      var above := SiblingPath(Up(level), node / 2) + rest;
      assert SiblingPath(level, node) + rest == Sibling(level, node) + above;
      LevelPrefix(oldLevel, level);
      ClimbStep(oldLevel, level, above);
      ClimbComplete(Up(oldLevel), Up(level), rest);
      MthUp(oldLevel);
      MthUp(level);
    }
  }

  /** One genuine sibling moves both hashes one level up. */
  lemma {:induction false} ClimbStep(oldLevel: seq<Hash>, level: seq<Hash>, above: seq<Hash>)
    requires 1 <= |oldLevel| <= |level| && |level| > 1
    requires oldLevel[..|oldLevel| - 1] == level[..|oldLevel| - 1]
    ensures var node := |oldLevel| - 1;
            Climb(node, |level| - 1, oldLevel[node], level[node], Sibling(level, node) + above) ==
            Climb(node / 2, |Up(level)| - 1, Up(oldLevel)[|Up(oldLevel)| - 1], Up(level)[node / 2], above)
  {
    hide Up, Climb;
    var node := |oldLevel| - 1;
    UpParent(level, node);
    LevelPrefix(oldLevel, level);
    var path := Sibling(level, node) + above;
    ClimbUp(node, |level| - 1, oldLevel[node], level[node], path, 0);
    assert path[0..] == path;
    if Sibling(level, node) != [] {
      assert path[0] == Sibling(level, node)[0] && path[1..] == above;
    } else {
      assert path == above;
    }
  }

  /** The old tree stays a prefix of the new one, but for its last node, on every level. */
  lemma {:induction false} LevelPrefix(oldLevel: seq<Hash>, level: seq<Hash>)
    requires 1 <= |oldLevel| <= |level| && oldLevel[..|oldLevel| - 1] == level[..|oldLevel| - 1]
    ensures var h := |Up(oldLevel)| - 1;
            && h == (|oldLevel| - 1) / 2
            && h < |Up(level)|
            && Up(oldLevel)[..h] == Up(level)[..h]
            && Up(oldLevel)[h] == if |oldLevel| % 2 == 0 then NodeHash(level[|oldLevel| - 2], oldLevel[|oldLevel| - 1]) else oldLevel[|oldLevel| - 1]
  {
    var h := |Up(oldLevel)| - 1;
    forall i | 0 <= i < h ensures Up(oldLevel)[i] == Up(level)[i] {
      assert oldLevel[2 * i] == oldLevel[..|oldLevel| - 1][2 * i] == level[2 * i];
      assert oldLevel[2 * i + 1] == oldLevel[..|oldLevel| - 1][2 * i + 1] == level[2 * i + 1];
    }
    if |oldLevel| % 2 == 0 {
      assert oldLevel[|oldLevel| - 2] == oldLevel[..|oldLevel| - 1][|oldLevel| - 2];
    }
  }

  /** Reaching the genuine new root forces the start hash and every sibling to be genuine. */
  lemma {:induction false} ClimbSound(level: seq<Hash>, node: nat, oldHash: Hash, newHash: Hash, proof: seq<Hash>)
    requires node < |level|
    requires Climb(node, |level| - 1, oldHash, newHash, proof).Some?
    requires Climb(node, |level| - 1, oldHash, newHash, proof).value.newHash == Mth(level)
    ensures newHash == level[node]
    ensures SiblingPath(level, node) <= proof
    decreases |level|
  {
    hide Mth, Up, Climb;
    var last := |level| - 1;
    if last == 0 {
      ClimbDone(oldHash, newHash, proof);
      MthSingle(level);
    } else {
      MthUp(level);
      var up := Up(level);
      UpParent(level, node);
      ClimbUp(node, last, oldHash, newHash, proof, 0);
      assert proof[0..] == proof;
      if node % 2 == 1 {
        ClimbSound(up, node / 2, NodeHash(proof[0], oldHash), NodeHash(proof[0], newHash), proof[1..]);
      } else if node < last {
        ClimbSound(up, node / 2, oldHash, NodeHash(newHash, proof[0]), proof[1..]);
      } else {
        ClimbSound(up, node / 2, oldHash, newHash, proof);
      }
    }
  }

  // ----- Without a log: the climb rebuilds what the recursion rebuilds -----

  /** For any start hashes and any proof, the climb rebuilds both roots from the hashes an audit path has, and
      stops short exactly when there are fewer. */
  lemma {:induction false} ClimbRebuilds(i: nat, n: nat, start: Roots, proof: seq<Hash>)
    requires i < n
    ensures var length := AuditDepth(i, n);
            Climb(i, n - 1, start.oldRoot, start.newRoot, proof) ==
            if |proof| < length then None
            else
              var rebuilt := PairRebuild(i, n, start, proof[..length]);
              Some(Climbed(rebuilt.oldRoot, rebuilt.newRoot, proof[length..]))
    decreases n
  {
    hide PairRebuild, AuditDepth, Climb;
    var length := AuditDepth(i, n);
    if n == 1 {
      ClimbDone(start.oldRoot, start.newRoot, proof);
      OneLeaf(start);
      assert proof[0..] == proof;
    } else {
      assert (n - 1) / 2 == (n + 1) / 2 - 1 && proof[0..] == proof;
      DepthUp(i, n);
      ClimbUp(i, n - 1, start.oldRoot, start.newRoot, proof, 0);
      if !HasSibling(i, n) {
        ClimbRebuilds(i / 2, (n + 1) / 2, start, proof);
        if |proof| >= length { PairPromoted(i, n, start, proof[..length]); }
      } else if proof != [] {
        ClimbRebuilds(i / 2, (n + 1) / 2, Lifted(i, start, proof[0]), proof[1..]);
        if |proof| >= length {
          PairUp(i, n, start, proof[..length]);
          assert proof[..length][1..] == proof[1..][..length - 1] && proof[1..][length - 1..] == proof[length..];
        }
      }
    }
  }

  lemma {:induction false} OneLeaf(start: Roots)
    ensures AuditDepth(0, 1) == 0 && PairRebuild(0, 1, start, []) == start
  {
  }

  /** For all sizes, roots and proofs, with no log behind them, the loops of the source give the verdict of the
      top-down recursion. */
  lemma {:induction false} VerdictIsRebuilt(m: nat, n: nat, oldRoot: Hash, newRoot: Hash, proof: seq<Hash>)
    requires 0 < m < n
    ensures ConsistencyVerdict(m, n, oldRoot, newRoot, proof) == RebuiltVerdict(m, n, oldRoot, newRoot, proof)
    decreases n
  {
    hide Rebuild, ProofDepth, ConsistencyVerdict;
    if m % 2 == 0 {
      var length := ProofDepth(m, n, true);
      EvenVerdict(m, n, oldRoot, newRoot, proof);
      VerdictIsRebuilt(m / 2, (n + 1) / 2, oldRoot, newRoot, proof);
      EvenDepth(m, n, true);
      if |proof| >= length { EvenRebuild(m, n, true, oldRoot, proof[..length]); }
    } else {
      OddVerdict(m, n, oldRoot, newRoot, proof);
    }
  }

  lemma {:induction false} EvenVerdict(m: nat, n: nat, oldRoot: Hash, newRoot: Hash, proof: seq<Hash>)
    requires 0 < m < n && m % 2 == 0
    ensures m / 2 < (n + 1) / 2
    ensures ConsistencyVerdict(m, n, oldRoot, newRoot, proof) ==
            ConsistencyVerdict(m / 2, (n + 1) / 2, oldRoot, newRoot, proof)
  {
    hide Strip, Climb;
    StripEven(m, n);
  }

  lemma {:induction false} StripEven(m: nat, n: nat)
    requires 0 < m < n && m % 2 == 0
    ensures Strip(m - 1, n - 1) == Strip(m / 2 - 1, (n + 1) / 2 - 1)
  {
    assert (m - 1) / 2 == m / 2 - 1 && (n - 1) / 2 == (n + 1) / 2 - 1;
  }

  lemma {:induction false} StripOdd(m: nat, n: nat)
    requires 0 < m < n && m % 2 == 1
    ensures Strip(m - 1, n - 1) == (m - 1, n - 1)
  {
  }

  lemma {:induction false} OddVerdict(m: nat, n: nat, oldRoot: Hash, newRoot: Hash, proof: seq<Hash>)
    requires 0 < m < n && m % 2 == 1
    ensures ConsistencyVerdict(m, n, oldRoot, newRoot, proof) == RebuiltVerdict(m, n, oldRoot, newRoot, proof)
  {
    hide Rebuild, ProofDepth, PairRebuild, AuditDepth, Climb, Strip, Split;
    StripOdd(m, n);
    OddDepth(m, n, true);
    if m == 1 {
      ClimbOdd(m, n, oldRoot, oldRoot, proof);
    } else if proof != [] {
      ClimbOdd(m, n, oldRoot, proof[0], proof);
    }
  }

  lemma {:induction false} ClimbOdd(m: nat, n: nat, oldRoot: Hash, seed: Hash, proof: seq<Hash>)
    requires 0 < m < n && m % 2 == 1
    requires if m == 1 then seed == oldRoot else proof != [] && seed == proof[0]
    ensures var climbed := Climb(m - 1, n - 1, seed, seed, proof[Seeds(m, true)..]);
            var length := ProofDepth(m, n, true);
            if |proof| < length then climbed == None
            else
              var rebuilt := Rebuild(m, n, true, oldRoot, proof[..length]);
              climbed.Some? && climbed.value.oldHash == rebuilt.oldRoot && climbed.value.newHash == rebuilt.newRoot
    ensures m == 1 ==> proof[Seeds(m, true)..] == proof
  {
    hide Rebuild, ProofDepth, PairRebuild, AuditDepth, Climb, Split;
    var s, length := Seeds(m, true), ProofDepth(m, n, true);
    OddDepth(m, n, true);
    ClimbRebuilds(m - 1, n, Roots(seed, seed), proof[s..]);
    if |proof| >= length {
      OddRebuild(m, n, true, oldRoot, proof[..length]);
      assert proof[..length][s..] == proof[s..][..length - s];
    }
  }

  // ----- Stripping -----

  /** Stripping reaches a level where the old tree has odd size and is still a prefix of the new one. */
  lemma {:induction false} StripLevels(leaves: seq<Hash>, m: nat) returns (level: seq<Hash>, node: nat)
    requires 0 < m < |leaves|
    ensures Strip(m - 1, |leaves| - 1) == (node, |level| - 1)
    ensures node % 2 == 0 && node < |level| - 1
    ensures Mth(level) == Mth(leaves) && Mth(level[..node + 1]) == Mth(leaves[..m])
    ensures AnchoredPath(leaves, m, true) == (if node == 0 then [] else [level[node]]) + SiblingPath(level, node)
    ensures node == 0 <==> Popcount(m) == 1
    decreases |leaves|
  {
    hide Mth, Up, SiblingPath, Strip, Popcount;
    if m % 2 == 0 {
      StripEven(m, |leaves|);
      Digit(m / 2, 0);
      UpSplit(leaves, m);
      MthUp(leaves);
      MthUp(leaves[..m]);
      level, node := StripLevels(Up(leaves), m / 2);
    } else {
      level, node := leaves, m - 1;
      StripOdd(m, |leaves|);
      PopcountOdd(m);
    }
  }

  // ----- Consistency proofs: soundness and completeness -----

  /** Against the root of a log, the verifier accepts exactly the genuine root of the first m leaves
      together with a proof that starts with the RFC 6962 consistency proof; it reports an
      inconsistency exactly when that proof is genuine, the old root is not, and the old size is
      not a power of two; everything else is a bad proof. */
  lemma {:induction false} ConsistencyExact(leaves: seq<Hash>, m: nat, oldRoot: Hash, proof: seq<Hash>)
    requires 0 < m < |leaves|
    ensures ConsistencyVerdict(m, |leaves|, oldRoot, Mth(leaves), proof) ==
            if !(ConsistencyPath(leaves, m, true) <= proof) then ProofError
            else if oldRoot == Mth(leaves[..m]) then Accepted
            else if Popcount(m) == 1 then ProofError
            else ConsistencyError
  {
    hide Mth, Climb, ConsistencyPath, AnchoredPath, SiblingPath, Popcount;
    ConsistencyPathIsAnchored(leaves, m, true);
    var level, node := StripLevels(leaves, m);
    if node == 0 {
      MthSingle(level[..1]);
      assert [] + SiblingPath(level, node) == SiblingPath(level, node);
      JudgeExact(level, node, oldRoot, oldRoot, proof);
    } else if proof != [] {
      JudgeExact(level, node, proof[0], oldRoot, proof[1..]);
      assert proof == [proof[0]] + proof[1..];
    }
  }

  lemma {:induction false} JudgeExact(level: seq<Hash>, node: nat, seed: Hash, oldRoot: Hash, proof: seq<Hash>)
    requires node < |level|
    ensures Judge(Climb(node, |level| - 1, seed, seed, proof), oldRoot, Mth(level)) ==
            if !(seed == level[node] && SiblingPath(level, node) <= proof) then ProofError
            else if oldRoot == Mth(level[..node + 1]) then Accepted
            else ConsistencyError
  {
    hide Mth, Climb, SiblingPath;
    var climbed := Climb(node, |level| - 1, seed, seed, proof);
    var path := SiblingPath(level, node);
    if seed == level[node] && path <= proof {
      ClimbComplete(level[..node + 1], level, proof[|path|..]);
      assert proof == path + proof[|path|..];
    } else if climbed.Some? && climbed.value.newHash == Mth(level) {
      ClimbSound(level, node, seed, seed, proof);
      assert false;
    }
  }

  /** From the genuine proof of a log the recursion rebuilds the genuine roots. */
  lemma {:induction false} RebuildGenuine(leaves: seq<Hash>, m: nat)
    requires 0 < m < |leaves|
    ensures |ConsistencyPath(leaves, m, true)| == ProofDepth(m, |leaves|, true)
    ensures Rebuild(m, |leaves|, true, Mth(leaves[..m]), ConsistencyPath(leaves, m, true)) ==
            Roots(Mth(leaves[..m]), Mth(leaves))
  {
    hide Mth, ConsistencyPath, Rebuild, ProofDepth, ConsistencyVerdict;
    var proof := ConsistencyPath(leaves, m, true);
    ConsistencyPathDepth(leaves, m, true);
    ConsistencyExact(leaves, m, Mth(leaves[..m]), proof);
    VerdictIsRebuilt(m, |leaves|, Mth(leaves[..m]), Mth(leaves), proof);
    assert proof[..|proof|] == proof;
  }

  lemma {:induction false} ConsistencyPathDepth(leaves: seq<Hash>, m: nat, b: bool)
    requires 1 <= m <= |leaves|
    ensures |ConsistencyPath(leaves, m, b)| == ProofDepth(m, |leaves|, b)
    decreases |leaves|
  {
    hide Split, Mth;
    if m < |leaves| {
      var k := Split(|leaves|);
      if m <= k { ConsistencyPathDepth(leaves[..k], m, b); } else { ConsistencyPathDepth(leaves[k..], m - k, false); }
    }
  }

  /** Soundness: an accepted old root is the root of the log's first m leaves. */
  lemma ConsistencySound(leaves: seq<Hash>, m: nat, oldRoot: Hash, proof: seq<Hash>)
    requires 0 < m <= |leaves|
    requires ConsistencyVerdict(m, |leaves|, oldRoot, Mth(leaves), proof) == Accepted
    ensures oldRoot == Mth(leaves[..m])
  {
    if m < |leaves| {
      ConsistencyExact(leaves, m, oldRoot, proof);
    } else {
      assert leaves[..m] == leaves;
    }
  }

  /** Completeness: the generated proof is accepted for every prefix, the empty and the full one included. */
  lemma ConsistencyComplete(leaves: seq<Hash>, m: nat)
    requires m <= |leaves|
    ensures ConsistencyVerdict(m, |leaves|, Root(leaves[..m]), Root(leaves),
              if m == 0 then [] else ConsistencyPath(leaves, m, true)) == Accepted
  {
    if 0 < m < |leaves| {
      ConsistencyExact(leaves, m, Mth(leaves[..m]), ConsistencyPath(leaves, m, true));
    } else if m == |leaves| {
      assert leaves[..m] == leaves;
    }
  }

  /** For any two logs, the verifier accepts some proof between their roots exactly if the first is a prefix of
      the second. */
  lemma {:induction false} AcceptedIsPrefix(a: seq<Hash>, b: seq<Hash>)
    requires forall h | h in a :: h.LeafHash?
    requires forall h | h in b :: h.LeafHash?
    ensures (exists proof :: ConsistencyVerdict(|a|, |b|, Root(a), Root(b), proof) == Accepted) <==> a <= b
  {
    hide ConsistencyVerdict, ConsistencyPath, Mth;
    if a <= b {
      ConsistencyComplete(b, |a|);
      assert b[..|a|] == a;
    }
    forall proof | ConsistencyVerdict(|a|, |b|, Root(a), Root(b), proof) == Accepted ensures a <= b {
      AcceptedSizes(|a|, |b|, Root(a), Root(b), proof);
      if a != [] {
        ConsistencySound(b, |a|, Root(a), proof);
        RootInjective(a, b[..|a|]);
      }
    }
  }

  lemma {:induction false} AcceptedSizes(oldSize: nat, newSize: nat, oldRoot: Hash, newRoot: Hash, proof: seq<Hash>)
    requires ConsistencyVerdict(oldSize, newSize, oldRoot, newRoot, proof) == Accepted
    ensures oldSize <= newSize
  {
  }

  // ----- Audit paths -----

  datatype AuditResult = TooShort | TooLong | Calculated(hash: Hash)

  /** Rebuild the root from a leaf hash. As in the source, an empty path is reported as too short on
      every level below the root, even on one that needs no sibling. */
  function RootFromAuditPath(h: Hash, node: nat, last: nat, path: seq<Hash>): AuditResult
    requires node <= last
    decreases last
  {
    if last == 0 then (if path == [] then Calculated(h) else TooLong)
    else if path == [] then TooShort
    else if node % 2 == 1 then RootFromAuditPath(NodeHash(path[0], h), node / 2, last / 2, path[1..])
    else if node < last then RootFromAuditPath(NodeHash(h, path[0]), node / 2, last / 2, path[1..])
    else RootFromAuditPath(h, node / 2, last / 2, path)
  }

  /** Number of levels on which the node has a sibling. */
  function AuditLength(node: int, last: int): nat
    decreases if last > 0 then last else 0
  {
    if last <= 0 then 0
    else (if node % 2 == 1 || node < last then 1 else 0) + AuditLength(node / 2, last / 2)
  }

  /** What the recursion of section 2.1.1 of RFC 6962 makes of a leaf hash and a path. */
  function RebuiltAudit(leaf: Hash, i: nat, n: nat, path: seq<Hash>): AuditResult
    requires i < n
  {
    if |path| < AuditDepth(i, n) then TooShort
    else if |path| > AuditDepth(i, n) then TooLong
    else Calculated(AuditRebuild(i, n, leaf, path))
  }

  /** For every leaf hash and every path, with no log behind them, the loop gives the result of the recursion. */
  lemma {:induction false} AuditIsRebuilt(leaf: Hash, i: nat, n: nat, path: seq<Hash>)
    requires i < n
    ensures RootFromAuditPath(leaf, i, n - 1, path) == RebuiltAudit(leaf, i, n, path)
    decreases n
  {
    hide AuditRebuild, AuditDepth;
    if n == 1 {
      OneLeafAudit(leaf);
    } else {
      assert (n - 1) / 2 == (n + 1) / 2 - 1;
      DepthUp(i, n);
      if path == [] {
        DepthPositive(i, n);
      } else if HasSibling(i, n) {
        var above := if i % 2 == 1 then NodeHash(path[0], leaf) else NodeHash(leaf, path[0]);
        AuditIsRebuilt(above, i / 2, (n + 1) / 2, path[1..]);
        if |path| == AuditDepth(i, n) { AuditUp(i, n, leaf, path); }
      } else {
        AuditIsRebuilt(leaf, i / 2, (n + 1) / 2, path);
        if |path| == AuditDepth(i, n) { AuditUp(i, n, leaf, path); }
      }
    }
  }

  lemma {:induction false} OneLeafAudit(leaf: Hash)
    ensures AuditDepth(0, 1) == 0 && AuditRebuild(0, 1, leaf, []) == leaf
  {
  }

  lemma {:induction false} DepthPositive(i: nat, n: nat)
    requires i < n && n > 1
    ensures AuditDepth(i, n) > 0
  {
  }

  lemma {:induction false} AuditUp(i: nat, n: nat, leaf: Hash, path: seq<Hash>)
    requires i < n && n > 1 && |path| == AuditDepth(i, n)
    ensures HasSibling(i, n) ==>
              && |path| == 1 + AuditDepth(i / 2, (n + 1) / 2)
              && AuditRebuild(i, n, leaf, path) ==
                 AuditRebuild(i / 2, (n + 1) / 2, Lifted(i, Roots(leaf, leaf), path[0]).newRoot, path[1..])
    ensures !HasSibling(i, n) ==>
              && |path| == AuditDepth(i / 2, (n + 1) / 2)
              && AuditRebuild(i, n, leaf, path) == AuditRebuild(i / 2, (n + 1) / 2, leaf, path)
  {
    hide AuditRebuild, PairRebuild, AuditDepth;
    var start := Roots(leaf, leaf);
    PairNew(i, n, start, path);
    if HasSibling(i, n) {
      PairUp(i, n, start, path);
      PairNew(i / 2, (n + 1) / 2, Lifted(i, start, path[0]), path[1..]);
    } else {
      PairPromoted(i, n, start, path);
      PairNew(i / 2, (n + 1) / 2, start, path);
    }
  }

  method CalculateRootHashFromAuditPath(leafHash: Hash, nodeIndex: nat, auditPath: seq<Hash>, treeSize: nat)
    returns (r: AuditResult)
    requires nodeIndex < treeSize
    ensures r == RootFromAuditPath(leafHash, nodeIndex, treeSize - 1, auditPath)
    ensures r == RebuiltAudit(leafHash, nodeIndex, treeSize, auditPath)
  {
    AuditIsRebuilt(leafHash, nodeIndex, treeSize, auditPath);
    hide AuditRebuild, AuditDepth;
    var hash, node, last, path := leafHash, nodeIndex, treeSize - 1, auditPath;
    while last > 0
      invariant 0 <= node <= last
      invariant RootFromAuditPath(hash, node, last, path) ==
                RootFromAuditPath(leafHash, nodeIndex, treeSize - 1, auditPath)
    {
      if path == [] { return TooShort; }
      if node % 2 == 1 {
        hash, path := NodeHash(path[0], hash), path[1..];
      } else if node < last {
        hash, path := NodeHash(hash, path[0]), path[1..];
      }
      node, last := node / 2, last / 2;
    }
    if path != [] { return TooLong; }
    return Calculated(hash);
  }

  method AuditPathLength(index: int, treeSize: int) returns (length: nat)
    ensures length == AuditLength(index, treeSize - 1)
    ensures forall leaves: seq<Hash> | 0 <= index < treeSize == |leaves| :: length == |AuditPath(leaves, index)|
  {
    hide AuditPath, SiblingPath;
    length := 0;
    var i, last := index, treeSize - 1;
    while last > 0
      invariant length + AuditLength(i, last) == AuditLength(index, treeSize - 1)
    {
      if i % 2 == 1 || i < last {
        length := length + 1;
      }
      i, last := i / 2, last / 2;
    }
    forall leaves: seq<Hash> | 0 <= index < treeSize == |leaves| ensures length == |AuditPath(leaves, index)| {
      AuditPathIsSiblingPath(leaves, index);
      SiblingPathLength(leaves, index);
    }
  }

  method VerifyLeafHashInclusion(leafHash: Hash, leafIndex: int, proof: seq<Hash>, treeSize: int, rootHash: Hash)
    returns (verdict: Verdict)
    ensures verdict == ValueError <==> treeSize <= leafIndex || treeSize < 0 || leafIndex < 0
    ensures 0 <= leafIndex < treeSize ==>
              verdict == if RebuiltAudit(leafHash, leafIndex, treeSize, proof) == Calculated(rootHash) then Accepted
                         else ProofError
    ensures forall leaves: seq<Hash> {:trigger Mth(leaves)} ::
              0 <= leafIndex < treeSize == |leaves| && rootHash == Mth(leaves) ==>
                (verdict == Accepted <==> leafHash == leaves[leafIndex] && proof == AuditPath(leaves, leafIndex))
  {
    if treeSize <= leafIndex || treeSize < 0 || leafIndex < 0 {
      return ValueError;
    }
    var r := CalculateRootHashFromAuditPath(leafHash, leafIndex, proof, treeSize);
    forall leaves: seq<Hash> {:trigger Mth(leaves)} | treeSize == |leaves| && rootHash == Mth(leaves)
      ensures r == Calculated(rootHash) <==> leafHash == leaves[leafIndex] && proof == AuditPath(leaves, leafIndex)
    {
      InclusionExact(leaves, leafIndex, leafHash, proof);
    }
    return if r == Calculated(rootHash) then Accepted else ProofError;
  }

  method VerifyLeafInclusion(leaf: Bytes, leafIndex: int, proof: seq<Hash>, treeSize: int, rootHash: Hash)
    returns (verdict: Verdict)
    ensures verdict == ValueError <==> treeSize <= leafIndex || treeSize < 0 || leafIndex < 0
    ensures 0 <= leafIndex < treeSize ==>
              verdict == if RebuiltAudit(LeafHash(leaf), leafIndex, treeSize, proof) == Calculated(rootHash) then Accepted
                         else ProofError
    ensures forall data: seq<Bytes> {:trigger LeafHashes(data)} ::
              0 <= leafIndex < treeSize == |data| && rootHash == Mth(LeafHashes(data)) ==>
                (verdict == Accepted <==> leaf == data[leafIndex] && proof == AuditPath(LeafHashes(data), leafIndex))
  {
    verdict := VerifyLeafHashInclusion(LeafHash(leaf), leafIndex, proof, treeSize, rootHash);
  }

  lemma {:induction false} SiblingPathLength(level: seq<Hash>, i: nat)
    requires i < |level|
    ensures |SiblingPath(level, i)| == AuditLength(i, |level| - 1)
    ensures |level| > 1 ==> SiblingPath(level, i) != []
    decreases |level|
  {
    hide Up;
    if |level| > 1 {
      assert |Up(level)| - 1 == (|level| - 1) / 2;
      SiblingPathLength(Up(level), i / 2);
    }
  }

  /** The verifier complains about the length of a path exactly when it differs from audit_path_length. */
  lemma {:induction false} AuditLengthExact(h: Hash, node: nat, last: nat, path: seq<Hash>)
    requires node <= last
    ensures RootFromAuditPath(h, node, last, path).TooShort? <==> |path| < AuditLength(node, last)
    ensures RootFromAuditPath(h, node, last, path).TooLong? <==> |path| > AuditLength(node, last)
    decreases last
  {
    if last > 0 {
      if path == [] {
        AuditLengthPositive(node, last);
      } else if node % 2 == 1 {
        AuditLengthExact(NodeHash(path[0], h), node / 2, last / 2, path[1..]);
      } else if node < last {
        AuditLengthExact(NodeHash(h, path[0]), node / 2, last / 2, path[1..]);
      } else {
        AuditLengthExact(h, node / 2, last / 2, path);
      }
    }
  }

  lemma {:induction false} AuditLengthPositive(node: nat, last: nat)
    requires node <= last && last > 0
    ensures AuditLength(node, last) > 0
    decreases last
  {
    if node % 2 == 0 && node == last {
      AuditLengthPositive(node / 2, last / 2);
    }
  }

  lemma {:induction false} AuditComplete(level: seq<Hash>, i: nat)
    requires i < |level|
    ensures RootFromAuditPath(level[i], i, |level| - 1, SiblingPath(level, i)) == Calculated(Mth(level))
    decreases |level|
  {
    hide Mth, Up;
    if |level| == 1 {
      MthSingle(level);
    } else {
      SiblingPathLength(level, i);
      AuditStep(level, i, SiblingPath(Up(level), i / 2));
      AuditComplete(Up(level), i / 2);
      MthUp(level);
    }
  }

  /** One genuine sibling moves the verifier one level up. */
  lemma {:induction false} AuditStep(level: seq<Hash>, i: nat, above: seq<Hash>)
    requires i < |level| && |level| > 1
    requires Sibling(level, i) + above != []
    ensures RootFromAuditPath(level[i], i, |level| - 1, Sibling(level, i) + above) ==
            RootFromAuditPath(Up(level)[i / 2], i / 2, |Up(level)| - 1, above)
  {
    hide Up;
    UpParent(level, i);
    var path := Sibling(level, i) + above;
    if Sibling(level, i) != [] {
      assert path[1..] == above;
    } else {
      assert path == above;
    }
  }

  lemma {:induction false} AuditSound(level: seq<Hash>, i: nat, h: Hash, path: seq<Hash>)
    requires i < |level|
    requires RootFromAuditPath(h, i, |level| - 1, path) == Calculated(Mth(level))
    ensures h == level[i] && path == SiblingPath(level, i)
    decreases |level|
  {
    hide Mth, Up;
    var last := |level| - 1;
    if last == 0 {
      MthSingle(level);
    } else {
      MthUp(level);
      var up := Up(level);
      UpParent(level, i);
      if i % 2 == 1 {
        AuditSound(up, i / 2, NodeHash(path[0], h), path[1..]);
      } else if i < last {
        AuditSound(up, i / 2, NodeHash(h, path[0]), path[1..]);
      } else {
        AuditSound(up, i / 2, h, path);
      }
    }
  }

  /** Against the root of a log, exactly the genuine leaf hash with the RFC 6962 audit path passes. */
  lemma {:induction false} InclusionExact(leaves: seq<Hash>, m: nat, leafHash: Hash, proof: seq<Hash>)
    requires m < |leaves|
    ensures RootFromAuditPath(leafHash, m, |leaves| - 1, proof) == Calculated(Mth(leaves)) <==>
            leafHash == leaves[m] && proof == AuditPath(leaves, m)
  {
    hide Mth, Split;
    AuditPathIsSiblingPath(leaves, m);
    AuditComplete(leaves, m);
    if RootFromAuditPath(leafHash, m, |leaves| - 1, proof) == Calculated(Mth(leaves)) {
      AuditSound(leaves, m, leafHash, proof);
    }
  }
}
