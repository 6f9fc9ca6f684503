/** Sets of integers kept as sorted intervals (plenum/server/replica_helper.py). */
module IntervalLists {

  datatype Interval = Interval(lo: int, hi: int)

  predicate Has(s: seq<Interval>, x: int) {
    exists i | 0 <= i < |s| :: s[i].lo <= x <= s[i].hi
  }

  /** Sorted, disjoint and not even adjacent. */
  predicate Canonical(s: seq<Interval>) {
    && (forall i | 0 <= i < |s| :: s[i].lo <= s[i].hi)
    && (forall i, j | 0 <= i < j < |s| :: s[i].hi + 1 < s[j].lo)
  }

  /** The integers from lo to hi. */
  ghost function Span(lo: int, hi: int): (r: set<int>)
    ensures forall x :: x in r <==> lo <= x <= hi
    ensures |r| == if lo <= hi then hi - lo + 1 else 0
    decreases hi - lo + 1
  {
    if lo > hi then {} else Span(lo, hi - 1) + {hi}
  }

  /** The set of integers a list stands for. */
  ghost function Items(s: seq<Interval>): set<int> {
    if s == [] then {} else Span(s[0].lo, s[0].hi) + Items(s[1..])
  }

  lemma {:induction false} HasCons(s: seq<Interval>, x: int)
    requires s != []
    ensures Has(s, x) <==> s[0].lo <= x <= s[0].hi || Has(s[1..], x)
  {
    var tail := s[1..];
    if Has(tail, x) {
      var i :| 0 <= i < |tail| && tail[i].lo <= x <= tail[i].hi;
      assert s[i + 1] == tail[i];
    }
    if Has(s, x) && !(s[0].lo <= x <= s[0].hi) {
      var i :| 0 <= i < |s| && s[i].lo <= x <= s[i].hi;
      assert tail[i - 1] == s[i];
    }
  }

  lemma {:induction false} ItemsHas(s: seq<Interval>, x: int)
    ensures x in Items(s) <==> Has(s, x)
  {
    if s != [] {
      hide Span, Items, Has;
      ItemsCons(s);
      ItemsHas(s[1..], x);
      HasCons(s, x);
    }
  }

  // ----- The edits of add -----

  lemma {:induction false} ItemsNone()
    ensures Items([]) == {}
  {
  }

  lemma {:induction false} ItemsCons(s: seq<Interval>)
    requires s != []
    ensures Items(s) == Span(s[0].lo, s[0].hi) + Items(s[1..])
  {
  }

  lemma {:induction false} ItemsOne(i: Interval)
    ensures Items([i]) == Span(i.lo, i.hi)
  {
    hide Span;
    assert [i][1..] == [];
  }

  lemma {:induction false} ItemsConcat(a: seq<Interval>, b: seq<Interval>)
    ensures Items(a + b) == Items(a) + Items(b)
    decreases |a|
  {
    hide Span, Items;
    var c := a + b;
    if a == [] {
      assert c == b;
      ItemsNone();
    } else {
      ItemsConcat(a[1..], b);
      ItemsCons(a);
      ItemsCons(c);
      assert c[1..] == a[1..] + b;
    }
  }

  /** Replacing the intervals from i to j by one that covers exactly their items and one more. */
  lemma {:induction false} Replaced(s: seq<Interval>, i: nat, j: nat, merged: Interval, item: int)
    requires i <= j <= |s|
    requires Span(merged.lo, merged.hi) == Items(s[i..j]) + {item}
    ensures Items(s[..i] + [merged] + s[j..]) == Items(s) + {item}
  {
    hide Span, Items;
    var a, b, c := s[..i], s[i..j], s[j..];
    ItemsOne(merged);
    ItemsConcat(a, [merged]);
    ItemsConcat(a + [merged], c);
    ItemsConcat(a, b);
    ItemsConcat(a + b, c);
    assert s == a + b + c;
  }

  lemma {:induction false} ReplacedCanonical(s: seq<Interval>, i: nat, j: nat, merged: Interval)
    requires Canonical(s) && i <= j <= |s|
    requires merged.lo <= merged.hi
    requires i > 0 ==> s[i - 1].hi + 1 < merged.lo
    requires j < |s| ==> merged.hi + 1 < s[j].lo
    ensures Canonical(s[..i] + [merged] + s[j..])
  {
    var r := s[..i] + [merged] + s[j..];
    forall k | 0 <= k < i ensures s[k].hi + 1 < merged.lo && r[k] == s[k] {
      assert s[k].hi <= s[i - 1].hi;
    }
    forall k | i < k < |r| ensures merged.hi + 1 < r[k].lo && r[k] == s[k - i - 1 + j] {
      assert s[j].lo <= s[k - i - 1 + j].lo;
    }
  }

  /** The three ways in which add makes one interval out of the item and the intervals from i to j. */
  predicate Covers(s: seq<Interval>, i: nat, j: nat, merged: Interval, item: int)
    requires i <= j <= |s|
  {
    || (j == i && merged == Interval(item, item))
    || (j == i + 1 && item == s[i].hi + 1 && merged == Interval(s[i].lo, item))
    || (j == i + 1 && item == s[i].lo - 1 && merged == Interval(item, s[i].hi))
    || (j == i + 2 && item == s[i].hi + 1 == s[i + 1].lo - 1 && merged == Interval(s[i].lo, s[i + 1].hi))
  }

  lemma {:induction false} CoversItems(s: seq<Interval>, i: nat, j: nat, merged: Interval, item: int)
    requires i <= j <= |s| && (forall k | i <= k < j :: s[k].lo <= s[k].hi)
    requires Covers(s, i, j, merged, item)
    ensures Span(merged.lo, merged.hi) == Items(s[i..j]) + {item}
  {
    hide Span, Items;
    if j == i {
      assert s[i..j] == [];
      ItemsNone();
    } else if j == i + 1 {
      assert s[i..j] == [s[i]];
      ItemsOne(s[i]);
    } else {
      assert s[i..j] == [s[i]] + [s[i + 1]];
      ItemsConcat([s[i]], [s[i + 1]]);
      ItemsOne(s[i]);
      ItemsOne(s[i + 1]);
    }
  }

  class IntervalList {
    var intervals: seq<Interval>

    ghost predicate Valid()
      reads this
    {
      Canonical(intervals)
    }

    constructor ()
      ensures Valid() && Items(intervals) == {}
    {
      intervals := [];
    }

    method Contains(item: int) returns (b: bool)
      ensures b <==> item in Items(intervals)
    {
      ItemsHas(intervals, item);
      b := exists i | 0 <= i < |intervals| :: intervals[i].lo <= item <= intervals[i].hi;
    }

    /** __len__: the sum of the interval lengths is the number of items. */
    method Len() returns (n: int)
      requires Valid()
      ensures n == |Items(intervals)|
    {
      n := 0;
      for i := 0 to |intervals|
        invariant n == Total(intervals[..i])
      {
        assert intervals[..i + 1][..i] == intervals[..i];
        n := n + intervals[i].hi - intervals[i].lo + 1;
      }
      assert intervals[..|intervals|] == intervals;
      TotalIsCount(intervals);
    }

    /** add: keeps the list canonical and adds exactly the item. */
    method Add(item: int)
      requires Valid()
      modifies this
      ensures Valid() && Items(intervals) == old(Items(intervals)) + {item}
    {
      var s := intervals;
      var single := Interval(item, item);
      if |s| == 0 {
        Put(0, 0, single, item);
        return;
      }
      if item < s[0].lo - 1 {
        Put(0, 0, single, item);
        return;
      }
      if item == s[0].lo - 1 {
        Put(0, 1, Interval(s[0].lo - 1, s[0].hi), item);
        return;
      }
      if s[0].lo <= item <= s[0].hi {
        Present(s, 0, item);
        return;
      }
      var i := 0;
      while i + 1 < |s|
        invariant 0 <= i < |s| && s == intervals == old(intervals)
        invariant item > s[i].hi
      {
        var prev, next := s[i], s[i + 1];
        if item == prev.hi + 1 {
          if prev.hi + 1 == next.lo - 1 {
            Put(i, i + 2, Interval(prev.lo, next.hi), item);
          } else {
            Put(i, i + 1, Interval(prev.lo, prev.hi + 1), item);
          }
          return;
        }
        if prev.hi + 1 < item < next.lo - 1 {
          Put(i + 1, i + 1, single, item);
          return;
        }
        if item == next.lo - 1 {
          Put(i + 1, i + 2, Interval(next.lo - 1, next.hi), item);
          return;
        }
        if next.lo <= item <= next.hi {
          Present(s, i + 1, item);
          return;
        }
        i := i + 1;
      }
      if item == s[i].hi + 1 {
        Put(i, i + 1, Interval(s[i].lo, s[i].hi + 1), item);
        return;
      }
      Put(|s|, |s|, single, item);
    }

    /** One edit of the list: intervals i to j become a single one. */
    method Put(i: nat, j: nat, merged: Interval, item: int)
      requires Valid() && i <= j <= |intervals|
      requires merged.lo <= item <= merged.hi
      requires i > 0 ==> intervals[i - 1].hi + 1 < merged.lo
      requires j < |intervals| ==> merged.hi + 1 < intervals[j].lo
      requires Covers(intervals, i, j, merged, item)
      modifies this
      ensures Valid() && Items(intervals) == old(Items(intervals)) + {item}
      ensures intervals == old(intervals)[..i] + [merged] + old(intervals)[j..]
    {
      var s := intervals;
      hide Span, Items, Covers;
      CoversItems(s, i, j, merged, item);
      Replaced(s, i, j, merged, item);
      ReplacedCanonical(s, i, j, merged);
      intervals := s[..i] + [merged] + s[j..];
    }
  }

  lemma {:induction false} Present(s: seq<Interval>, i: nat, item: int)
    requires i < |s| && s[i].lo <= item <= s[i].hi
    ensures Items(s) == Items(s) + {item}
  {
    ItemsHas(s, item);
  }

  // ----- Length -----

  function Total(s: seq<Interval>): int {
    if s == [] then 0 else Total(s[..|s| - 1]) + s[|s| - 1].hi - s[|s| - 1].lo + 1
  }

  lemma {:induction false} TotalIsCount(s: seq<Interval>)
    requires Canonical(s)
    ensures Total(s) == |Items(s)|
    decreases |s|
  {
    if s != [] {
      var n := |s| - 1;
      var init, last := s[..n], s[n];
      TotalIsCount(init);
      var span := Span(last.lo, last.hi);
      hide Span, Items;
      ItemsConcat(init, [last]);
      ItemsOne(last);
      assert s == init + [last];
      forall x | x in Items(init) ensures x !in span {
        InitBelow(s, x);
      }
      assert Items(init) !! span;
    }
  }

  lemma {:induction false} InitBelow(s: seq<Interval>, x: int)
    requires Canonical(s) && s != [] && x in Items(s[..|s| - 1])
    ensures x < s[|s| - 1].lo
  {
    hide Items;
    var init := s[..|s| - 1];
    ItemsHas(init, x);
    var i :| 0 <= i < |init| && init[i].lo <= x <= init[i].hi;
    assert init[i] == s[i];
  }

  // ----- Canonical form -----

  /** Two canonical lists of the same set are equal, however they were built. */
  lemma {:induction false} CanonicalUnique(a: seq<Interval>, b: seq<Interval>)
    requires Canonical(a) && Canonical(b) && Items(a) == Items(b)
    ensures a == b
    decreases |a|
  {
    if a == [] {
      if b != [] { FirstItem(b); }
    } else {
      FirstItem(a);
      if b == [] {
        assert false;
      }
      FirstItem(b);
      SameFirst(a, b);
      SameFirst(b, a);
      TailItems(a);
      TailItems(b);
      CanonicalUnique(a[1..], b[1..]);
      assert a == [a[0]] + a[1..] && b == [b[0]] + b[1..];
    }
  }

  /** The first interval starts at the smallest item and ends at the last item before a gap. */
  lemma {:induction false} FirstItem(s: seq<Interval>)
    requires Canonical(s) && s != []
    ensures s[0].lo in Items(s) && s[0].hi in Items(s) && s[0].hi + 1 !in Items(s)
    ensures forall x :: x in Items(s) ==> s[0].lo <= x
    ensures forall x :: s[0].lo <= x <= s[0].hi ==> x in Items(s)
  {
    ItemsHas(s, s[0].hi + 1);
    forall x ensures x in Items(s) ==> s[0].lo <= x {
      ItemsHas(s, x);
    }
    forall x ensures s[0].lo <= x <= s[0].hi ==> x in Items(s) {
      ItemsHas(s, x);
    }
  }

  lemma {:induction false} SameFirst(a: seq<Interval>, b: seq<Interval>)
    requires Canonical(a) && Canonical(b) && Items(a) == Items(b) && a != [] && b != []
    ensures a[0].lo <= b[0].lo && a[0].hi >= b[0].hi
  {
    FirstItem(a);
    FirstItem(b);
    assert !(b[0].lo <= a[0].hi + 1 <= b[0].hi);
  }

  lemma {:induction false} TailItems(s: seq<Interval>)
    requires Canonical(s) && s != []
    ensures Canonical(s[1..]) && Items(s[1..]) == Items(s) - Span(s[0].lo, s[0].hi)
  {
    forall x ensures !(x in Items(s[1..]) && x in Span(s[0].lo, s[0].hi)) {
      ItemsHas(s[1..], x);
    }
  }
}
