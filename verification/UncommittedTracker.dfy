/** Batches applied but not yet committed (plenum/common/ledger_uncommitted_tracker.py), and the handler that
    runs a tracker beside a ledger (plenum/server/batch_handlers/audit_batch_handler.py). */
module UncommittedTrackers {
  import opened MerkleHash
  import opened Ledgers
  import opened Wrappers

  /** State root, transaction root and future ledger size of a batch. */
  datatype Batch = Batch(stateRoot: Option<Hash>, txnRoot: Hash, size: int)

  datatype Tracked = Tracked(stateRoot: Option<Hash>, txnRoot: Hash, count: int)

  datatype TrackerError = PlenumValueError | LogicError

  class LedgerUncommittedTracker {
    var unCommitted: seq<Batch>
    var lastCommitted: Batch

    constructor (last: Batch)
      ensures unCommitted == [] && lastCommitted == last
    {
      unCommitted, lastCommitted := [], last;
    }

    method ApplyBatch(batch: Batch) returns (r: Result<(), TrackerError>)
      modifies this`unCommitted
      ensures r == if batch.size < 0 then Err(PlenumValueError) else Ok(())
      ensures unCommitted == if r.Ok? then old(unCommitted) + [batch] else old(unCommitted)
    {
      if batch.size < 0 { return Err(PlenumValueError); }
      unCommitted := unCommitted + [batch];
      r := Ok(());
    }

    /** Pop the oldest batch; the count is its size beyond the last committed one. */
    method CommitBatch() returns (r: Result<Tracked, TrackerError>)
      modifies this
      ensures old(unCommitted) == [] ==> r == Err(PlenumValueError) && unCommitted == [] && lastCommitted == old(lastCommitted)
      ensures old(unCommitted) != [] ==>
                && unCommitted == old(unCommitted)[1..] && lastCommitted == old(unCommitted)[0]
                && r == Ok(Tracked(lastCommitted.stateRoot, lastCommitted.txnRoot, lastCommitted.size - old(lastCommitted).size))
    {
      if unCommitted == [] { return Err(PlenumValueError); }
      var before := lastCommitted.size;
      var first := unCommitted[0];
      unCommitted, lastCommitted := unCommitted[1..], first;
      r := Ok(Tracked(first.stateRoot, first.txnRoot, first.size - before));
    }

    /** Pop the newest batch; return what to go back to and how many transactions that drops. */
    method RejectBatch() returns (r: Result<Tracked, TrackerError>)
      modifies this`unCommitted
      ensures old(unCommitted) == [] ==> r == Err(TrackerError.LogicError) && unCommitted == []
      ensures old(unCommitted) != [] ==>
                var n := |old(unCommitted)|;
                var back := if n == 1 then lastCommitted else old(unCommitted)[n - 2];
                && unCommitted == old(unCommitted)[..n - 1]
                && r == Ok(Tracked(back.stateRoot, back.txnRoot, old(unCommitted)[n - 1].size - back.size))
    {
      if unCommitted == [] { return Err(TrackerError.LogicError); }
      var prevSize := unCommitted[|unCommitted| - 1].size;
      unCommitted := unCommitted[..|unCommitted| - 1];
      var back := if unCommitted == [] then lastCommitted else unCommitted[|unCommitted| - 1];
      r := Ok(Tracked(back.stateRoot, back.txnRoot, prevSize - back.size));
    }

    method SetLastCommitted(last: Batch)
      modifies this`lastCommitted
      ensures lastCommitted == last
    {
      lastCommitted := last;
    }
  }

  function Flatten(batches: seq<seq<Txn>>): seq<Txn> {
    if batches == [] then [] else Flatten(batches[..|batches| - 1]) + batches[|batches| - 1]
  }

  lemma {:induction false} FlattenCons(batches: seq<seq<Txn>>)
    requires batches != []
    ensures Flatten(batches) == batches[0] + Flatten(batches[1..])
    decreases |batches|
  {
    var n := |batches|;
    if n > 1 {
      FlattenCons(batches[..n - 1]);
      assert batches[..n - 1][1..] == batches[1..][..n - 2];
    } else {
      assert batches[..0] == [] && batches[1..] == [];
    }
  }

  /** The tracker's entry for each batch: size and root of the ledger up to and including it. */
  ghost predicate Tracks(entries: seq<Batch>, serialize: Txn -> Bytes, committed: seq<Txn>, batches: seq<seq<Txn>>) {
    && |entries| == |batches|
    && forall i | 0 <= i < |batches| :: EntryFor(entries[i], serialize, committed + Flatten(batches[..i + 1]))
  }

  ghost predicate EntryFor(entry: Batch, serialize: Txn -> Bytes, txns: seq<Txn>) {
    entry.size == |txns| && entry.txnRoot == Root(TxnLeaves(serialize, txns))
  }

  lemma {:induction false} TracksSnoc(entries: seq<Batch>, serialize: Txn -> Bytes, committed: seq<Txn>,
                                      batches: seq<seq<Txn>>, entry: Batch, batch: seq<Txn>)
    requires Tracks(entries, serialize, committed, batches)
    requires EntryFor(entry, serialize, committed + Flatten(batches + [batch]))
    ensures Tracks(entries + [entry], serialize, committed, batches + [batch])
  {
    hide EntryFor, Flatten;
    var all := batches + [batch];
    forall i | 0 <= i < |all| ensures EntryFor((entries + [entry])[i], serialize, committed + Flatten(all[..i + 1])) {
      if i < |batches| { assert all[..i + 1] == batches[..i + 1]; } else { assert all[..i + 1] == all; }
    }
  }

  lemma {:induction false} TracksInit(entries: seq<Batch>, serialize: Txn -> Bytes, committed: seq<Txn>,
                                      batches: seq<seq<Txn>>)
    requires Tracks(entries, serialize, committed, batches) && batches != []
    ensures Tracks(entries[..|entries| - 1], serialize, committed, batches[..|batches| - 1])
  {
    hide EntryFor, Flatten;
    var init, es := batches[..|batches| - 1], entries[..|entries| - 1];
    forall i | 0 <= i < |init|
      ensures EntryFor(es[i], serialize, committed + Flatten(init[..i + 1]))
    {
      assert init[..i + 1] == batches[..i + 1];
    }
  }

  lemma {:induction false} TracksTail(entries: seq<Batch>, serialize: Txn -> Bytes, committed: seq<Txn>,
                                      batches: seq<seq<Txn>>)
    requires Tracks(entries, serialize, committed, batches) && batches != []
    ensures Tracks(entries[1..], serialize, committed + batches[0], batches[1..])
  {
    hide EntryFor, Flatten;
    var tail := batches[1..];
    forall i | 0 <= i < |tail|
      ensures EntryFor(entries[1..][i], serialize, committed + batches[0] + Flatten(tail[..i + 1]))
    {
      var upto := batches[..i + 2];
      FlattenCons(upto);
      assert upto[1..] == tail[..i + 1];
      assert committed + Flatten(upto) == committed + batches[0] + Flatten(tail[..i + 1]);
    }
  }

  class AuditBatchHandler {
    const ledger: Ledger
    const tracker: LedgerUncommittedTracker

    /** The batches applied and not yet committed, oldest first. */
    ghost var batches: seq<seq<Txn>>

    /** Tracker and ledger describe the same batches. */
    ghost predicate Coupled()
      reads this, tracker, ledger, ledger.tree, ledger.tree.store, ledger.uncommittedTree
    {
      && ledger.Valid()
      && ledger.uncommittedTxns == Flatten(batches)
      && EntryFor(tracker.lastCommitted, ledger.serialize, ledger.committed)
      && Tracks(tracker.unCommitted, ledger.serialize, ledger.committed, batches)
    }

    constructor (ledger: Ledger)
      requires ledger.Valid()
      modifies ledger.tree`rootHash
      ensures this.ledger == ledger && fresh(tracker)
      ensures ledger.uncommittedTxns == [] ==> Coupled() && batches == []
    {
      hide Root, TxnLeaves, Ledger.Valid;
      this.ledger := ledger;
      var root := ledger.UncommittedRootHash();
      tracker := new LedgerUncommittedTracker(Batch(None, root, ledger.Size()));
      batches := [];
      assert ledger.committed + [] == ledger.committed;
    }

    /** post_batch_applied: number and apply a batch, then track the ledger's future size and root. */
    method PostBatchApplied(txns: seq<Txn>, txnTime: Option<nat>) returns (stamped: seq<Txn>)
      requires Coupled()
      modifies this`batches, tracker, ledger, ledger.tree
      ensures Coupled() && batches == old(batches) + [stamped] && |stamped| == |txns|
      ensures ledger.committed == old(ledger.committed)
      ensures forall i | 0 <= i < |txns| ::
                stamped[i] == Txn(txns[i].payload, Some(|ledger.committed| + |old(ledger.uncommittedTxns)| + i + 1),
                                  if txnTime.Some? then txnTime else txns[i].txnTime)
    {
      hide Root, TxnLeaves, Tracks, Flatten, Ledger.Valid;
      ledger.SeqNoIsSize();
      stamped := ledger.AppendTxnsMetadata(txns, txnTime);
      if stamped != [] {
        var r := ledger.AppendTxns(stamped);
        assert r.Ok?;
      }
      assert ledger.uncommittedTxns == Flatten(batches) + stamped;
      var root := ledger.UncommittedRootHash();
      var entry := Batch(None, root, ledger.UncommittedSize());
      NewEntry(entry, ledger.serialize, ledger.committed, batches, stamped);
      TracksSnoc(tracker.unCommitted, ledger.serialize, ledger.committed, batches, entry, stamped);
      var ok := tracker.ApplyBatch(entry);
      batches := batches + [stamped];
    }

    /** commit_batch: commits exactly the oldest batch and leaves the ledger at the root the tracker returned. */
    method CommitBatch() returns (r: Result<Tracked, TrackerError>, txns: seq<(Txn, MerkleInfo)>)
      requires Coupled()
      modifies this`batches, tracker, ledger, ledger.tree, ledger.tree.store
      ensures Coupled()
      ensures old(batches) == [] ==> r == Err(PlenumValueError) && batches == [] && txns == []
                                     && ledger.committed == old(ledger.committed)
      ensures old(batches) != [] ==>
                && r.Ok? && r.value.count == |old(batches)[0]|
                && batches == old(batches)[1..]
                && ledger.committed == old(ledger.committed) + old(batches)[0]
                && r.value.txnRoot == Root(ledger.Leaves(ledger.committed))
                && |txns| == |old(batches)[0]|
                && forall k | 0 <= k < |txns| ::
                     txns[k] == (old(batches)[0][k], ledger.InfoAt(ledger.committed, |old(ledger.committed)| + k))
    {
      hide Root, TxnLeaves, Tracks, Flatten, Ledger.Valid, Ledger.InfoAt, Ledger.CacheOk;
      ghost var bs, entries, committed := batches, tracker.unCommitted, ledger.committed;
      txns := [];
      TracksCount(entries, ledger.serialize, committed, bs);
      r := tracker.CommitBatch();
      if r.Err? { return; }
      FlattenCons(bs);
      TracksTail(entries, ledger.serialize, committed, bs);
      FirstEntry(entries, ledger.serialize, committed, bs);
      var range;
      range, txns := ledger.CommitTxns(r.value.count);
      batches := bs[1..];
      assert ledger.uncommittedTxns == Flatten(batches);
    }

    /** post_batch_rejected: drops exactly the newest batch; the uncommitted root is the one the tracker returned. */
    method PostBatchRejected() returns (r: Result<Tracked, TrackerError>)
      requires Coupled()
      modifies this`batches, tracker, ledger
      ensures Coupled() && ledger.committed == old(ledger.committed)
      ensures old(batches) == [] ==> r == Err(TrackerError.LogicError) && batches == []
      ensures old(batches) != [] ==>
                && r.Ok? && r.value.count == |old(batches)[|old(batches)| - 1]|
                && batches == old(batches)[..|old(batches)| - 1]
                && r.value.txnRoot == Root(ledger.Leaves(ledger.committed + ledger.uncommittedTxns))
    {
      hide Root, TxnLeaves, Tracks, Flatten, Ledger.Valid;
      ghost var bs, entries, committed := batches, tracker.unCommitted, ledger.committed;
      TracksCount(entries, ledger.serialize, committed, bs);
      r := tracker.RejectBatch();
      if r.Err? { return; }
      TracksInit(entries, ledger.serialize, committed, bs);
      LastEntries(tracker.lastCommitted, entries, ledger.serialize, committed, bs);
      FlattenSnoc(bs[..|bs| - 1], bs[|bs| - 1]);
      assert bs[..|bs| - 1] + [bs[|bs| - 1]] == bs;
      var ok := ledger.DiscardTxns(r.value.count);
      batches := bs[..|bs| - 1];
      assert ledger.uncommittedTxns == Flatten(batches);
    }

    /** on_catchup_finished: the ledger was extended directly; with nothing pending the tracker is in step again.
        With something pending the recorded root is not that of the committed ledger. */
    method OnCatchupFinished()
      requires ledger.Valid()
      modifies this`batches, tracker, ledger.tree`rootHash
      ensures tracker.unCommitted == old(tracker.unCommitted) && tracker.lastCommitted.size == |ledger.committed|
      ensures tracker.lastCommitted.txnRoot == Root(ledger.Leaves(ledger.committed + ledger.uncommittedTxns))
      ensures tracker.unCommitted == [] && ledger.uncommittedTxns == [] ==> Coupled() && batches == []
      ensures EntryFor(tracker.lastCommitted, ledger.serialize, ledger.committed) <==> ledger.uncommittedTxns == []
    {
      hide Root, TxnLeaves, Ledger.Valid;
      var root := ledger.UncommittedRootHash();
      tracker.SetLastCommitted(Batch(None, root, ledger.Size()));
      if ledger.uncommittedTxns == [] {
        assert ledger.committed + [] == ledger.committed;
        batches := if tracker.unCommitted == [] then [] else batches;
      } else {
        RootOfSize(ledger.serialize, ledger.committed, ledger.committed + ledger.uncommittedTxns);
      }
    }
  }

  lemma {:induction false} TracksCount(entries: seq<Batch>, serialize: Txn -> Bytes, committed: seq<Txn>,
                                       batches: seq<seq<Txn>>)
    requires Tracks(entries, serialize, committed, batches)
    ensures |entries| == |batches|
  {
  }

  lemma {:induction false} NewEntry(entry: Batch, serialize: Txn -> Bytes, committed: seq<Txn>,
                                    batches: seq<seq<Txn>>, batch: seq<Txn>)
    requires EntryFor(entry, serialize, committed + (Flatten(batches) + batch))
    ensures EntryFor(entry, serialize, committed + Flatten(batches + [batch]))
    ensures Flatten(batches + [batch]) == Flatten(batches) + batch
  {
    hide EntryFor;
    FlattenSnoc(batches, batch);
  }

  lemma {:induction false} FlattenSnoc(batches: seq<seq<Txn>>, batch: seq<Txn>)
    ensures Flatten(batches + [batch]) == Flatten(batches) + batch
  {
    assert (batches + [batch])[..|batches|] == batches;
  }

  lemma {:induction false} FirstEntry(entries: seq<Batch>, serialize: Txn -> Bytes, committed: seq<Txn>,
                                      batches: seq<seq<Txn>>)
    requires Tracks(entries, serialize, committed, batches) && batches != []
    ensures EntryFor(entries[0], serialize, committed + batches[0])
  {
    hide EntryFor;
    assert batches[..1] == [batches[0]];
    assert Flatten([batches[0]]) == batches[0];
  }

  /** The two newest entries, the last committed one standing in for a missing predecessor. */
  lemma {:induction false} LastEntries(last: Batch, entries: seq<Batch>, serialize: Txn -> Bytes, committed: seq<Txn>,
                                       batches: seq<seq<Txn>>)
    requires EntryFor(last, serialize, committed)
    requires Tracks(entries, serialize, committed, batches) && batches != []
    ensures var n := |batches|;
            && EntryFor(entries[n - 1], serialize, committed + Flatten(batches))
            && EntryFor(if n == 1 then last else entries[n - 2], serialize, committed + Flatten(batches[..n - 1]))
  {
    hide EntryFor;
    var n := |batches|;
    assert batches[..n] == batches;
    if n == 1 { assert committed + Flatten(batches[..0]) == committed; }
  }
}
