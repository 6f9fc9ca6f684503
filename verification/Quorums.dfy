/** Quorum sizes (plenum/server/quorums.py, plenum/common/util.py). */
module QuorumSizes {

  /** f: the number of faulty nodes a pool of n nodes tolerates. */
  function MaxFailures(n: nat): (f: nat) {
    if n >= 4 then (n - 1) / 3 else 0
  }

  predicate IsReached(quorum: int, count: int) {
    count >= quorum
  }

  /** f + 1 (propagate, reply, ...) and n - f (commit, view change, ...). */
  datatype Quorums = Quorums(weak: int, strong: int)

  function QuorumsFor(n: nat): Quorums {
    var f := MaxFailures(n);
    Quorums(f + 1, n - f)
  }

  /** f is the largest number with n >= 3f + 1. */
  lemma MaxFailuresExact(n: nat, g: nat)
    requires n >= 1
    ensures g <= MaxFailures(n) <==> 3 * g + 1 <= n
  {
  }

  lemma {:induction false} SubsetSize<T>(a: set<T>, b: set<T>)
    requires a <= b
    ensures |a| <= |b|
  {
    if a != {} {
      var x :| x in a;
      SubsetSize(a - {x}, b - {x});
    }
  }

  /** A weak quorum holds a node outside every faulty set. */
  lemma {:induction false} WeakHasHonest<T>(voters: set<T>, faulty: set<T>, n: nat) returns (honest: T)
    requires IsReached(QuorumsFor(n).weak, |voters|) && |faulty| <= MaxFailures(n)
    ensures honest in voters && honest !in faulty
  {
    if voters <= faulty {
      SubsetSize(voters, faulty);
    }
    honest :| honest in voters && honest !in faulty;
  }

  /** Whatever nodes are faulty, the others alone reach both quorums. */
  lemma {:induction false} HonestReach<T>(nodes: set<T>, faulty: set<T>)
    requires nodes != {} && faulty <= nodes && |faulty| <= MaxFailures(|nodes|)
    ensures IsReached(QuorumsFor(|nodes|).weak, |nodes - faulty|)
    ensures IsReached(QuorumsFor(|nodes|).strong, |nodes - faulty|)
  {
    assert |nodes - faulty| == |nodes| - |faulty|;
    assert |nodes| >= 1;
    MaxFailuresExact(|nodes|, MaxFailures(|nodes|));
  }

  /** Two strong quorums of a pool share f + 1 nodes, hence an honest one. */
  lemma {:induction false} StrongIntersect<T>(nodes: set<T>, a: set<T>, b: set<T>)
    requires nodes != {} && a <= nodes && b <= nodes
    requires IsReached(QuorumsFor(|nodes|).strong, |a|) && IsReached(QuorumsFor(|nodes|).strong, |b|)
    ensures IsReached(QuorumsFor(|nodes|).weak, |a * b|)
  {
    SubsetSize(a + b, nodes);
    assert |a + b| == |a| + |b| - |a * b|;
    assert |nodes| >= 1;
    MaxFailuresExact(|nodes|, MaxFailures(|nodes|));
  }
}
