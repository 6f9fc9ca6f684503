/** Splitting messages into batches under a length limit (plenum/common/prepare_batch.py). */
module BatchSplitter {

  datatype Split =
    | Batches(batches: seq<(string, nat)>)
    | MessageTooLong      // the source returns None
    | PopFromEmpty        // IndexError: a limit that not even the empty batch meets

  ghost predicate Under<M(!new)>(msgs: seq<M>, make: seq<M> -> string, under: nat -> bool, a: nat, b: nat)
    requires a <= b <= |msgs|
  {
    under(|make(msgs[a..b])|)
  }

  /** The n messages from position a on make a batch that is under the limit with every prefix of it, and
      that would not be with one message more. */
  ghost predicate Greedy<M(!new)>(msgs: seq<M>, make: seq<M> -> string, under: nat -> bool, a: nat, n: nat) {
    && 1 <= n && a + n <= |msgs|
    && (forall b | a < b <= a + n :: Under(msgs, make, under, a, b))
    && (a + n < |msgs| ==> !Under(msgs, make, under, a, a + n + 1))
  }

  /** The batches cover the first k messages in order, each with its text and number of messages. */
  ghost predicate SplitsUpTo<M(!new)>(msgs: seq<M>, make: seq<M> -> string, under: nat -> bool, k: nat,
                                      batches: seq<(string, nat)>)
    decreases |batches|
  {
    if batches == [] then k == 0
    else
      var (text, n) := batches[|batches| - 1];
      && n <= k && Greedy(msgs, make, under, k - n, n)
      && text == make(msgs[k - n..k])
      && SplitsUpTo(msgs, make, under, k - n, batches[..|batches| - 1])
  }

  ghost predicate Fits<M(!new)>(make: seq<M> -> string, under: nat -> bool, m: M) {
    under(|make([m])|)
  }

  /** The inner loop: move messages from the front of the list into the batch while it is under the limit. Only
      the last message moved may have taken it over. */
  method FillBatch<M(!new)>(msgs: seq<M>, make: seq<M> -> string, under: nat -> bool, k: nat)
    returns (tooLong: bool, batch: string, n: nat)
    requires k < |msgs|
    ensures k + n <= |msgs| && (tooLong ==> k + n < |msgs|)
    ensures forall i | k <= i < k + n :: Fits(make, under, msgs[i])
    ensures tooLong ==> under(0) && !Fits(make, under, msgs[k + n])
    ensures n == 0 && !tooLong ==> !under(0) && batch == ""
    ensures n > 0 ==> under(0) && batch == make(msgs[k..k + n])
    ensures forall b | k < b < k + n :: Under(msgs, make, under, k, b)
    ensures !tooLong && k + n < |msgs| ==> !under(|batch|)
  {
    batch, n, tooLong := "", 0, false;
    var forBatch := [];
    while k + n < |msgs| && under(|batch|)
      invariant k + n <= |msgs| && forBatch == msgs[k..k + n]
      invariant batch == if n == 0 then "" else make(forBatch)
      invariant forall b | k < b < k + n :: Under(msgs, make, under, k, b)
      invariant forall i | k <= i < k + n :: Fits(make, under, msgs[i])
      invariant n > 0 ==> under(0)
      decreases |msgs| - k - n
    {
      var msg := msgs[k + n];
      if !under(|make([msg])|) {
        return true, batch, n;
      }
      forBatch := forBatch + [msg];
      assert n > 0 ==> Under(msgs, make, under, k, k + n);
      batch := make(forBatch);
      n := n + 1;
      assert forBatch == msgs[k..k + n];
    }
  }

  /** The source pops from the caller's list and puts an overloading message back; rest is what is left of it. */
  method SplitMessagesOnBatches<M(!new)>(msgs: seq<M>, make: seq<M> -> string, under: nat -> bool)
    returns (r: Split, rest: seq<M>)
    ensures msgs == [] ==> r == Batches([(make([]), 0)]) && rest == []
    ensures msgs != [] ==> (r.PopFromEmpty? <==> !under(0))
    ensures msgs != [] && under(0) ==> (r.MessageTooLong? <==> exists m <- msgs :: !Fits(make, under, m))
    ensures msgs != [] && r.Batches? ==> SplitsUpTo(msgs, make, under, |msgs|, r.batches) && rest == []
    ensures r.MessageTooLong? ==> exists k | 0 <= k < |msgs| :: !Fits(make, under, msgs[k]) && rest == msgs[k + 1..]
                                    && forall i | 0 <= i < k :: Fits(make, under, msgs[i])
  {
    hide Fits, SplitsUpTo, Greedy;
    SplitsNone(msgs, make, under);
    var batches: seq<(string, nat)> := [];
    var k := 0;
    while k < |msgs|
      invariant 0 <= k <= |msgs|
      invariant SplitsUpTo(msgs, make, under, k, batches)
      invariant forall i | 0 <= i < k :: Fits(make, under, msgs[i])
      invariant k > 0 ==> under(0)
    {
      var tooLong, batch, n := FillBatch(msgs, make, under, k);
      if tooLong {
        return MessageTooLong, msgs[k + n + 1..];
      }
      if !under(|batch|) {
        if n == 0 { return PopFromEmpty, msgs[k..]; }
        FirstFits(msgs, make, under, k, n);
        n := n - 1;
        batch := make(msgs[k..k + n]);
      }
      SplitsSnoc(msgs, make, under, k, n, batches, batch);
      batches := batches + [(batch, n)];
      k := k + n;
    }
    SplitsAll(msgs, make, under, k, batches);
    if |batches| == 0 {
      batches := [(make([]), 0)];
    }
    r, rest := Batches(batches), [];
  }

  lemma {:induction false} SplitsNone<M(!new)>(msgs: seq<M>, make: seq<M> -> string, under: nat -> bool)
    ensures SplitsUpTo(msgs, make, under, 0, [])
  {
  }

  lemma {:induction false} SplitsAll<M(!new)>(msgs: seq<M>, make: seq<M> -> string, under: nat -> bool, k: nat,
                                              batches: seq<(string, nat)>)
    requires SplitsUpTo(msgs, make, under, k, batches)
    ensures batches == [] <==> k == 0
  {
  }

  lemma {:induction false} SplitsSnoc<M(!new)>(msgs: seq<M>, make: seq<M> -> string, under: nat -> bool, k: nat, n: nat,
                                               batches: seq<(string, nat)>, batch: string)
    requires SplitsUpTo(msgs, make, under, k, batches)
    requires 1 <= n && k + n <= |msgs| && batch == make(msgs[k..k + n])
    requires forall b | k < b <= k + n :: Under(msgs, make, under, k, b)
    requires k + n < |msgs| ==> !Under(msgs, make, under, k, k + n + 1)
    ensures SplitsUpTo(msgs, make, under, k + n, batches + [(batch, n)])
  {
    var all := batches + [(batch, n)];
    assert all[..|all| - 1] == batches;
  }

  /** A message that fits alone is never the one that overloads a batch it starts. */
  lemma {:induction false} FirstFits<M(!new)>(msgs: seq<M>, make: seq<M> -> string, under: nat -> bool, k: nat, n: nat)
    requires 1 <= n && k + n <= |msgs| && Fits(make, under, msgs[k]) && !Under(msgs, make, under, k, k + n)
    ensures n >= 2
  {
    assert msgs[k..k + 1] == [msgs[k]];
  }

  // ----- The split is determined by its specification -----

  lemma {:induction false} GreedyUnique<M(!new)>(msgs: seq<M>, make: seq<M> -> string, under: nat -> bool,
                                                 a: nat, n: nat, n': nat)
    requires Greedy(msgs, make, under, a, n) && Greedy(msgs, make, under, a, n')
    ensures n <= n'
  {
  }

  lemma {:induction false} SameLength<M(!new)>(msgs: seq<M>, make: seq<M> -> string, under: nat -> bool,
                                               k: nat, k': nat, bs: seq<(string, nat)>, bs': seq<(string, nat)>)
    requires SplitsUpTo(msgs, make, under, k, bs) && SplitsUpTo(msgs, make, under, k', bs') && |bs| == |bs'|
    ensures k == k' && bs == bs'
    decreases |bs|
  {
    if bs != [] {
      var m := |bs| - 1;
      var n, n' := bs[m].1, bs'[m].1;
      SameLength(msgs, make, under, k - n, k' - n', bs[..m], bs'[..m]);
      GreedyUnique(msgs, make, under, k - n, n, n');
      GreedyUnique(msgs, make, under, k - n, n', n);
      assert bs == bs[..m] + [bs[m]] && bs' == bs'[..m] + [bs'[m]];
    }
  }

  /** The first m of the batches cover strictly fewer messages. */
  lemma {:induction false} Shorter<M(!new)>(msgs: seq<M>, make: seq<M> -> string, under: nat -> bool,
                                            k: nat, bs: seq<(string, nat)>, m: nat) returns (j: nat)
    requires SplitsUpTo(msgs, make, under, k, bs) && m < |bs|
    ensures j < k && SplitsUpTo(msgs, make, under, j, bs[..m])
    decreases |bs|
  {
    var init := bs[..|bs| - 1];
    j := k - bs[|bs| - 1].1;
    if m < |init| {
      j := Shorter(msgs, make, under, j, init, m);
      assert init[..m] == bs[..m];
    }
  }

  /** There is only one way to split: the method returns it. */
  lemma {:induction false} SplitUnique<M(!new)>(msgs: seq<M>, make: seq<M> -> string, under: nat -> bool,
                                                bs: seq<(string, nat)>, bs': seq<(string, nat)>)
    requires SplitsUpTo(msgs, make, under, |msgs|, bs) && SplitsUpTo(msgs, make, under, |msgs|, bs')
    ensures bs == bs'
  {
    if |bs| < |bs'| {
      var j := Shorter(msgs, make, under, |msgs|, bs', |bs|);
      SameLength(msgs, make, under, |msgs|, j, bs, bs'[..|bs|]);
    } else if |bs'| < |bs| {
      var j := Shorter(msgs, make, under, |msgs|, bs, |bs'|);
      SameLength(msgs, make, under, j, |msgs|, bs[..|bs'|], bs');
    } else {
      SameLength(msgs, make, under, |msgs|, |msgs|, bs, bs');
    }
  }

  function CountMessages(bs: seq<(string, nat)>): nat {
    if bs == [] then 0 else CountMessages(bs[..|bs| - 1]) + bs[|bs| - 1].1
  }

  /** Nothing is lost or repeated: the batch sizes add up, and every batch is under the limit. */
  lemma {:induction false} SplitConserves<M(!new)>(msgs: seq<M>, make: seq<M> -> string, under: nat -> bool,
                                                   k: nat, bs: seq<(string, nat)>)
    requires SplitsUpTo(msgs, make, under, k, bs)
    ensures k <= |msgs| && CountMessages(bs) == k
    ensures forall b <- bs :: under(|b.0|) && b.1 >= 1
    decreases |bs|
  {
    if bs != [] {
      var m := |bs| - 1;
      SplitConserves(msgs, make, under, k - bs[m].1, bs[..m]);
      assert Under(msgs, make, under, k - bs[m].1, k);
      assert bs == bs[..m] + [bs[m]];
    }
  }
}
