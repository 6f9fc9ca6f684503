/** The table of propagated requests and the decision to forward one (plenum/server/propagator.py). */
module Propagators {
  import opened QuorumSizes
  import opened Wrappers

  /** The key of a request is its digest. */
  datatype Request = Request(digest: string, body: string)

  /** Some propagates arrive under a name that is not a string; they are kept but never counted. */
  datatype Sender = Named(name: string) | Raw(bytes: seq<int>)

  datatype ReqState = ReqState(
    request: Request,
    forwarded: bool,
    forwardedTo: int,
    propagates: seq<(Sender, Request)>,   // insertion order
    finalised: Option<Request>,
    executed: bool,
    unorderedByReplicas: int)

  function FreshState(req: Request): ReqState {
    ReqState(req, false, 0, [], None, false, 0)
  }

  /** Dictionary assignment: an existing sender keeps its place. */
  function PutPropagate(ps: seq<(Sender, Request)>, sender: Sender, req: Request): (r: seq<(Sender, Request)>)
    decreases |ps|
  {
    if ps == [] then [(sender, req)]
    else if ps[0].0 == sender then [(sender, req)] + ps[1..]
    else [ps[0]] + PutPropagate(ps[1..], sender, req)
  }

  predicate DistinctSenders(ps: seq<(Sender, Request)>) {
    forall i, j | 0 <= i < j < |ps| :: ps[i].0 != ps[j].0
  }

  /** The new pair takes the place of the sender's old one or comes last; every other pair stays. */
  lemma {:induction false} PutExact(ps: seq<(Sender, Request)>, sender: Sender, req: Request)
    requires DistinctSenders(ps)
    ensures (forall i | 0 <= i < |ps| :: ps[i].0 != sender) ==> PutPropagate(ps, sender, req) == ps + [(sender, req)]
    ensures forall i | 0 <= i < |ps| && ps[i].0 == sender :: PutPropagate(ps, sender, req) == ps[i := (sender, req)]
    ensures DistinctSenders(PutPropagate(ps, sender, req))
    decreases |ps|
  {
    if ps != [] {
      var r, rest := PutPropagate(ps, sender, req), ps[1..];
      if ps[0].0 == sender {
        assert r == ps[0 := (sender, req)];
      } else {
        PutExact(rest, sender, req);
        if i :| 0 <= i < |rest| && rest[i].0 == sender {
          assert ps[i + 1].0 == sender;
          assert r == ps[i + 1 := (sender, req)];
        } else {
          assert forall i | 0 <= i < |rest| :: rest[i] == ps[i + 1];
          assert forall i | 0 < i < |ps| :: ps[i] == rest[i - 1];
          assert r == ps + [(sender, req)];
        }
      }
    }
  }

  /** The named senders whose propagate has digest d. */
  ghost function Voters(ps: seq<(Sender, Request)>, d: string): set<string> {
    if ps == [] then {}
    else
      var (sender, req) := ps[|ps| - 1];
      Voters(ps[..|ps| - 1], d) + (if sender.Named? && req.digest == d then {sender.name} else {})
  }

  lemma {:induction false} VotersExact(ps: seq<(Sender, Request)>, d: string, v: string)
    ensures v in Voters(ps, d) <==> exists i | 0 <= i < |ps| :: ps[i].0 == Named(v) && ps[i].1.digest == d
    decreases |ps|
  {
    if ps != [] {
      var init := ps[..|ps| - 1];
      VotersExact(init, d, v);
      assert forall i | 0 <= i < |init| :: init[i] == ps[i];
    }
  }

  lemma {:induction false} VotersBound(ps: seq<(Sender, Request)>, d: string)
    ensures |Voters(ps, d)| <= |ps|
    decreases |ps|
  {
    if ps != [] { VotersBound(ps[..|ps| - 1], d); }
  }

  /** The request at which some digest first reaches the quorum. */
  ghost function FirstAcceptable(ps: seq<(Sender, Request)>, quorum: int): Option<Request> {
    if ps == [] then None
    else
      var before := FirstAcceptable(ps[..|ps| - 1], quorum);
      var (sender, req) := ps[|ps| - 1];
      if before.Some? then before
      else if sender.Named? && IsReached(quorum, |Voters(ps, req.digest)|) then Some(req)
      else None
  }

  /** req_with_acceptable_quorum: group the senders by digest until one group is large enough. */
  method ReqWithAcceptableQuorum(ps: seq<(Sender, Request)>, quorum: int) returns (r: Option<Request>)
    ensures r == FirstAcceptable(ps, quorum)
  {
    hide FirstAcceptable, Voters;
    var digests: map<string, set<string>> := map[];
    VotersStart(quorum);
    assert ps[..0] == [];
    for i := 0 to |ps|
      invariant FirstAcceptable(ps[..i], quorum) == None
      invariant forall d :: (if d in digests then digests[d] else {}) == Voters(ps[..i], d)
    {
      var (sender, req) := ps[i];
      VotersStep(ps, i, quorum);
      FirstPrefix(ps, i + 1, quorum);
      if sender.Named? {
        var known := if req.digest in digests then digests[req.digest] else {};
        digests := digests[req.digest := known + {sender.name}];
        if IsReached(quorum, |digests[req.digest]|) {
          return Some(req);
        }
      }
    }
    assert ps[..|ps|] == ps;
    r := None;
  }

  lemma {:induction false} VotersStart(quorum: int)
    ensures FirstAcceptable([], quorum) == None
    ensures forall d :: Voters([], d) == {}
  {
  }

  lemma {:induction false} VotersStep(ps: seq<(Sender, Request)>, i: nat, quorum: int)
    requires i < |ps|
    ensures forall d :: Voters(ps[..i + 1], d) ==
              Voters(ps[..i], d) + (if ps[i].0.Named? && ps[i].1.digest == d then {ps[i].0.name} else {})
    ensures FirstAcceptable(ps[..i], quorum) == None ==>
              FirstAcceptable(ps[..i + 1], quorum) ==
              if ps[i].0.Named? && IsReached(quorum, |Voters(ps[..i + 1], ps[i].1.digest)|) then Some(ps[i].1) else None
  {
    assert ps[..i + 1][..i] == ps[..i];
  }

  lemma {:induction false} FirstPrefix(ps: seq<(Sender, Request)>, i: nat, quorum: int)
    requires i <= |ps|
    ensures FirstAcceptable(ps[..i], quorum).Some? ==> FirstAcceptable(ps, quorum) == FirstAcceptable(ps[..i], quorum)
    decreases |ps|
  {
    if i < |ps| {
      var init := ps[..|ps| - 1];
      FirstPrefix(init, i, quorum);
      assert init[..i] == ps[..i];
    } else {
      assert ps[..i] == ps;
    }
  }

  /** The propagate at position i brings its digest to the quorum. */
  ghost predicate Reaches(ps: seq<(Sender, Request)>, quorum: int, i: nat)
    requires i < |ps|
  {
    ps[i].0.Named? && IsReached(quorum, |Voters(ps[..i + 1], ps[i].1.digest)|)
  }

  /** The request accepted is that of the first propagate that brings its digest to the quorum. */
  lemma {:induction false} FirstAcceptableExact(ps: seq<(Sender, Request)>, quorum: int)
    ensures FirstAcceptable(ps, quorum) == None <==> forall i | 0 <= i < |ps| :: !Reaches(ps, quorum, i)
    ensures forall i | 0 <= i < |ps| && Reaches(ps, quorum, i) && (forall j | 0 <= j < i :: !Reaches(ps, quorum, j)) ::
              FirstAcceptable(ps, quorum) == Some(ps[i].1)
    decreases |ps|
  {
    if ps != [] {
      var n := |ps| - 1;
      var init := ps[..n];
      FirstAcceptableExact(init, quorum);
      assert ps[..n + 1] == ps;
      forall i | 0 <= i < n ensures Reaches(init, quorum, i) <==> Reaches(ps, quorum, i) {
        assert init[..i + 1] == ps[..i + 1];
      }
      if FirstAcceptable(init, quorum).Some? {
        var i :| 0 <= i < n && Reaches(init, quorum, i);
        assert Reaches(ps, quorum, i);
      } else {
        assert FirstAcceptable(ps, quorum) == None <==> !Reaches(ps, quorum, n);
        assert forall i | 0 <= i < n :: !Reaches(init, quorum, i);
      }
    }
  }

  // ----- The table as a state machine -----

  type Table = map<string, ReqState>

  datatype PState = PState(table: Table, finalisedCount: int)

  const EMPTY := PState(map[], 0)

  datatype Step =
    | Add(req: Request)
    | Propagate(req: Request, sender: Sender)
    | TryForward(req: Request, replicas: int)
    | MarkExecuted(req: Request)
    | Free(key: string)
    | ForceFree(key: string)
    | OrderedByReplica(key: string)

  function WithEntry(t: Table, req: Request): Table {
    if req.digest in t then t else t[req.digest := FreshState(req)]
  }

  function Removed(s: PState, key: string): PState
    requires key in s.table
  {
    PState(s.table - {key}, if s.table[key].finalised.Some? then s.finalisedCount - 1 else s.finalisedCount)
  }

  /** _clean: pops the key of the request the entry was created for. */
  function Clean(s: PState, key: string): PState
    requires key in s.table
  {
    var st := s.table[key];
    if st.executed && st.forwardedTo <= 0 then
      PState(s.table - {st.request.digest}, if st.finalised.Some? then s.finalisedCount - 1 else s.finalisedCount)
    else s
  }

  /** canForward finds a quorum for an entry that was not forwarded yet. */
  ghost predicate Forwards(s: PState, quorum: int, req: Request) {
    && req.digest in s.table
    && !s.table[req.digest].forwarded
    && IsReached(quorum, |s.table[req.digest].propagates|)
    && FirstAcceptable(s.table[req.digest].propagates, quorum).Some?
  }

  /** Operations on a missing key raise KeyError or do nothing; the table stays as it is. */
  ghost function Next(s: PState, quorum: int, step: Step): PState {
    match step
    case Add(req) => s.(table := WithEntry(s.table, req))
    case Propagate(req, sender) =>
      var t := WithEntry(s.table, req);
      var st := t[req.digest];
      s.(table := t[req.digest := st.(propagates := PutPropagate(st.propagates, sender, req))])
    case TryForward(req, replicas) =>
      if !Forwards(s, quorum, req) then s
      else
        var st := s.table[req.digest];
        PState(s.table[req.digest := st.(finalised := FirstAcceptable(st.propagates, quorum), forwarded := true,
                                         forwardedTo := replicas, unorderedByReplicas := replicas)],
               if st.finalised.Some? then s.finalisedCount else s.finalisedCount + 1)
    case MarkExecuted(req) =>
      if req.digest !in s.table then s
      else Clean(s.(table := s.table[req.digest := s.table[req.digest].(executed := true)]), req.digest)
    case Free(key) =>
      if key !in s.table then s
      else
        var st := s.table[key];
        Clean(s.(table := s.table[key := st.(forwardedTo := st.forwardedTo - 1)]), key)
    case ForceFree(key) => if key !in s.table then s else Removed(s, key)
    case OrderedByReplica(key) =>
      if key !in s.table then s
      else
        var st := s.table[key];
        s.(table := s.table[key := st.(unorderedByReplicas := st.unorderedByReplicas - 1)])
  }

  ghost function Run(s: PState, quorum: int, steps: seq<Step>): PState {
    if steps == [] then s else Next(Run(s, quorum, steps[..|steps| - 1]), quorum, steps[|steps| - 1])
  }

  // ----- Invariants of every run -----

  /** Every recorded propagate is for the entry's own key; a finalised entry has its quorum of distinct named
      senders; a forwarded entry is finalised. */
  ghost predicate EntryOk(key: string, st: ReqState, quorum: int) {
    && st.request.digest == key
    && DistinctSenders(st.propagates)
    && (forall i | 0 <= i < |st.propagates| :: st.propagates[i].1.digest == key)
    && (st.finalised.Some? ==> st.finalised.value.digest == key && IsReached(quorum, |Voters(st.propagates, key)|))
    && (st.forwarded ==> st.finalised.Some?)
  }

  ghost function FinalisedKeys(t: Table): set<string> {
    set k | k in t && t[k].finalised.Some?
  }

  ghost predicate InOrder(s: PState, quorum: int) {
    && (forall k | k in s.table :: EntryOk(k, s.table[k], quorum))
    && s.finalisedCount == |FinalisedKeys(s.table)|
  }

  lemma {:induction false} VotersCons(ps: seq<(Sender, Request)>, d: string)
    requires ps != []
    ensures Voters(ps, d) == (if ps[0].0.Named? && ps[0].1.digest == d then {ps[0].0.name} else {}) + Voters(ps[1..], d)
    decreases |ps|
  {
    var n := |ps| - 1;
    if n > 0 {
      VotersCons(ps[..n], d);
      assert ps[..n][1..] == ps[1..][..n - 1];
    } else {
      assert ps[..0] == [] && ps[1..] == [];
    }
  }

  /** Recording a propagate for the same digest only adds voters. */
  lemma {:induction false} PutGrows(ps: seq<(Sender, Request)>, sender: Sender, req: Request)
    requires forall i | 0 <= i < |ps| :: ps[i].1.digest == req.digest
    ensures Voters(ps, req.digest) <= Voters(PutPropagate(ps, sender, req), req.digest)
    ensures forall i | 0 <= i < |PutPropagate(ps, sender, req)| :: PutPropagate(ps, sender, req)[i].1.digest == req.digest
    decreases |ps|
  {
    hide Voters;
    var r := PutPropagate(ps, sender, req);
    VotersCons(r, req.digest);
    if ps != [] {
      VotersCons(ps, req.digest);
      if ps[0].0 == sender {
        assert r[1..] == ps[1..];
      } else {
        PutGrows(ps[1..], sender, req);
        assert r[1..] == PutPropagate(ps[1..], sender, req);
      }
    } else {
      VotersNone(req.digest);
    }
  }

  lemma {:induction false} VotersNone(d: string)
    ensures Voters([], d) == {}
  {
  }

  /** An accepted request was propagated, and its digest has the quorum. */
  lemma {:induction false} FirstAcceptableSound(ps: seq<(Sender, Request)>, quorum: int)
    ensures var r := FirstAcceptable(ps, quorum);
            r.Some? ==> (exists i | 0 <= i < |ps| :: ps[i].1 == r.value)
                        && Voters(ps, r.value.digest) != {}
                        && IsReached(quorum, |Voters(ps, r.value.digest)|)
    decreases |ps|
  {
    if ps != [] {
      var init := ps[..|ps| - 1];
      FirstAcceptableSound(init, quorum);
      var before := FirstAcceptable(init, quorum);
      if before.Some? {
        var i :| 0 <= i < |init| && init[i].1 == before.value;
        assert ps[i].1 == before.value;
        SubsetSize(Voters(init, before.value.digest), Voters(ps, before.value.digest));
      } else {
        assert ps[|ps| - 1].1 == ps[|ps| - 1].1;
      }
    }
  }

  /** Nothing is accepted only if no digest with a named sender has the quorum. */
  lemma {:induction false} FirstAcceptableComplete(ps: seq<(Sender, Request)>, quorum: int, d: string)
    requires Voters(ps, d) != {} && IsReached(quorum, |Voters(ps, d)|)
    ensures FirstAcceptable(ps, quorum).Some?
    decreases |ps|
  {
    if ps == [] {
      assert false;
    } else {
      var init := ps[..|ps| - 1];
      if Voters(init, d) != {} && IsReached(quorum, |Voters(init, d)|) {
        FirstAcceptableComplete(init, quorum, d);
      }
    }
  }

  lemma {:induction false} UpdateFinalised(t: Table, key: string, st: ReqState)
    ensures FinalisedKeys(t[key := st]) == (if st.finalised.Some? then {key} else {}) + (FinalisedKeys(t) - {key})
  {
  }

  lemma {:induction false} RemoveFinalised(t: Table, key: string)
    ensures FinalisedKeys(t - {key}) == FinalisedKeys(t) - {key}
  {
  }

  /** Replacing an entry by one that agrees on being finalised keeps the table in order. */
  lemma {:induction false} UpdateOk(s: PState, quorum: int, key: string, st: ReqState)
    requires InOrder(s, quorum) && EntryOk(key, st, quorum)
    requires key in s.table ==> (st.finalised.Some? <==> s.table[key].finalised.Some?)
    requires key !in s.table ==> st.finalised == None
    ensures InOrder(s.(table := s.table[key := st]), quorum)
  {
    hide EntryOk;
    UpdateFinalised(s.table, key, st);
    assert FinalisedKeys(s.table[key := st]) == FinalisedKeys(s.table);
  }

  lemma {:induction false} RemovedOk(s: PState, quorum: int, key: string)
    requires InOrder(s, quorum) && key in s.table
    ensures InOrder(Removed(s, key), quorum)
  {
    hide EntryOk;
    RemoveFinalised(s.table, key);
  }

  lemma {:induction false} PropagateOk(s: PState, quorum: int, req: Request, sender: Sender)
    requires InOrder(s, quorum)
    ensures InOrder(Next(s, quorum, Propagate(req, sender)), quorum)
  {
    hide Voters, FinalisedKeys, PutPropagate;
    VotersNone(req.digest);
    var entry := if req.digest in s.table then s.table[req.digest] else FreshState(req);
    var st := entry.(propagates := PutPropagate(entry.propagates, sender, req));
    PutExact(entry.propagates, sender, req);
    PutGrows(entry.propagates, sender, req);
    SubsetSize(Voters(entry.propagates, req.digest), Voters(st.propagates, req.digest));
    UpdateOk(s, quorum, req.digest, st);
    assert WithEntry(s.table, req)[req.digest := st] == s.table[req.digest := st];
  }

  lemma {:induction false} ForwardOk(s: PState, quorum: int, req: Request, replicas: int)
    requires InOrder(s, quorum)
    ensures InOrder(Next(s, quorum, TryForward(req, replicas)), quorum)
  {
    if Forwards(s, quorum, req) {
      hide Voters, FirstAcceptable, FinalisedKeys;
      var key := req.digest;
      var st := s.table[key];
      var next := Next(s, quorum, TryForward(req, replicas));
      assert EntryOk(key, next.table[key], quorum) by {
        FirstAcceptableSound(st.propagates, quorum);
      }
      hide EntryOk;
      UpdateFinalised(s.table, key, next.table[key]);
      if st.finalised.Some? {
        assert FinalisedKeys(next.table) == FinalisedKeys(s.table);
      } else {
        assert FinalisedKeys(next.table) == {key} + FinalisedKeys(s.table);
      }
    }
  }

  lemma {:induction false} NextOk(s: PState, quorum: int, step: Step)
    requires InOrder(s, quorum)
    ensures InOrder(Next(s, quorum, step), quorum)
  {
    hide InOrder, Forwards;
    match step {
      case Add(req) => AddOk(s, quorum, req);
      case Propagate(req, sender) => PropagateOk(s, quorum, req, sender);
      case TryForward(req, replicas) => ForwardOk(s, quorum, req, replicas);
      case MarkExecuted(req) => if req.digest in s.table { ExecutedOk(s, quorum, req.digest); }
      case Free(key) => if key in s.table { FreeOk(s, quorum, key); }
      case ForceFree(key) => if key in s.table { RemovedOk(s, quorum, key); }
      case OrderedByReplica(key) => if key in s.table { OrderedOk(s, quorum, key); }
    }
  }

  lemma {:induction false} AddOk(s: PState, quorum: int, req: Request)
    requires InOrder(s, quorum)
    ensures InOrder(s.(table := WithEntry(s.table, req)), quorum)
  {
    if req.digest !in s.table { UpdateOk(s, quorum, req.digest, FreshState(req)); }
  }

  lemma {:induction false} ExecutedOk(s: PState, quorum: int, key: string)
    requires InOrder(s, quorum) && key in s.table
    ensures InOrder(Clean(s.(table := s.table[key := s.table[key].(executed := true)]), key), quorum)
  {
    var next := s.(table := s.table[key := s.table[key].(executed := true)]);
    UpdateOk(s, quorum, key, next.table[key]);
    RemovedOk(next, quorum, key);
  }

  lemma {:induction false} FreeOk(s: PState, quorum: int, key: string)
    requires InOrder(s, quorum) && key in s.table
    ensures var st := s.table[key];
            InOrder(Clean(s.(table := s.table[key := st.(forwardedTo := st.forwardedTo - 1)]), key), quorum)
  {
    var st := s.table[key];
    var next := s.(table := s.table[key := st.(forwardedTo := st.forwardedTo - 1)]);
    UpdateOk(s, quorum, key, next.table[key]);
    RemovedOk(next, quorum, key);
  }

  lemma {:induction false} OrderedOk(s: PState, quorum: int, key: string)
    requires InOrder(s, quorum) && key in s.table
    ensures var st := s.table[key];
            InOrder(s.(table := s.table[key := st.(unorderedByReplicas := st.unorderedByReplicas - 1)]), quorum)
  {
    var st := s.table[key];
    UpdateOk(s, quorum, key, st.(unorderedByReplicas := st.unorderedByReplicas - 1));
  }

  lemma {:induction false} RunOk(quorum: int, steps: seq<Step>)
    ensures InOrder(Run(EMPTY, quorum, steps), quorum)
    decreases |steps|
  {
    hide Next;
    if steps == [] {
      assert FinalisedKeys(map[]) == {};
    } else {
      RunOk(quorum, steps[..|steps| - 1]);
      NextOk(Run(EMPTY, quorum, steps[..|steps| - 1]), quorum, steps[|steps| - 1]);
    }
  }

  /** In a table in order, the check finds a quorum exactly when enough distinct named senders propagated the
      request of an entry not forwarded yet. */
  lemma {:induction false} ForwardsExact(s: PState, quorum: int, req: Request)
    requires InOrder(s, quorum)
    ensures Forwards(s, quorum, req) <==>
            && req.digest in s.table && !s.table[req.digest].forwarded
            && Voters(s.table[req.digest].propagates, req.digest) != {}
            && IsReached(quorum, |Voters(s.table[req.digest].propagates, req.digest)|)
  {
    hide Voters, FirstAcceptable, FinalisedKeys;
    var key := req.digest;
    if key in s.table {
      var ps := s.table[key].propagates;
      assert EntryOk(key, s.table[key], quorum);
      FirstAcceptableSound(ps, quorum);
      VotersBound(ps, key);
      if Voters(ps, key) != {} && IsReached(quorum, |Voters(ps, key)|) {
        FirstAcceptableComplete(ps, quorum, key);
      }
    }
  }

  // ----- Forwarding happens once per entry -----

  ghost predicate ForwardsKey(s: PState, quorum: int, step: Step, key: string) {
    step.TryForward? && step.req.digest == key && Forwards(s, quorum, step.req)
  }

  /** While an entry stays in the table it stays forwarded. */
  lemma {:induction false} StaysForwarded(s: PState, quorum: int, step: Step, key: string)
    requires key in s.table && s.table[key].forwarded && key in Next(s, quorum, step).table
    ensures Next(s, quorum, step).table[key].forwarded
  {
  }

  /** In every run, between two forwardings of the same key its entry was removed. */
  lemma {:induction false} ForwardedOnce(s: PState, quorum: int, steps: seq<Step>, i: nat, j: nat, key: string)
    requires i < j < |steps|
    requires ForwardsKey(Run(s, quorum, steps[..i]), quorum, steps[i], key)
    requires ForwardsKey(Run(s, quorum, steps[..j]), quorum, steps[j], key)
    ensures exists l | i < l < j :: key !in Run(s, quorum, steps[..l]).table
  {
    if forall l | i < l < j :: key in Run(s, quorum, steps[..l]).table {
      ForwardedUntil(s, quorum, steps, i, j, key);
      assert false;
    }
  }

  lemma {:induction false} ForwardedUntil(s: PState, quorum: int, steps: seq<Step>, i: nat, j: nat, key: string)
    requires i < j <= |steps|
    requires ForwardsKey(Run(s, quorum, steps[..i]), quorum, steps[i], key)
    requires forall l | i < l <= j :: key in Run(s, quorum, steps[..l]).table
    ensures Run(s, quorum, steps[..j]).table[key].forwarded
    decreases j
  {
    hide Forwards;
    var m := j - 1;
    assert steps[..j][..m] == steps[..m];
    assert Run(s, quorum, steps[..j]) == Next(Run(s, quorum, steps[..m]), quorum, steps[m]);
    if m > i {
      ForwardedUntil(s, quorum, steps, i, m, key);
      StaysForwarded(Run(s, quorum, steps[..m]), quorum, steps[m], key);
    }
  }

  // ----- The classes of the source -----

  /** Only forwarding looks at the quorum. */
  lemma {:induction false} QuorumFree(s: PState, q: int, q': int, step: Step)
    requires !step.TryForward?
    ensures Next(s, q, step) == Next(s, q', step)
  {
  }

  ghost predicate HasPropagated(s: PState, req: Request, name: string) {
    req.digest in s.table && exists p <- s.table[req.digest].propagates :: p.0 == Named(name)
  }

  /** What is recorded for a key; nothing without an entry. */
  ghost function Recorded(t: Table, key: string): seq<(Sender, Request)> {
    if key in t then t[key].propagates else []
  }

  class Requests {
    var table: Table
    var finalisedCount: int

    ghost function State(): PState
      reads this
    {
      PState(table, finalisedCount)
    }

    constructor ()
      ensures State() == EMPTY
    {
      table, finalisedCount := map[], 0;
    }

    method Add(req: Request)
      modifies this`table
      ensures State() == Next(old(State()), 0, Step.Add(req))
    {
      if req.digest !in table {
        table := table[req.digest := FreshState(req)];
      }
    }

    method AddPropagate(req: Request, sender: Sender)
      modifies this`table
      ensures State() == Next(old(State()), 0, Step.Propagate(req, sender))
      ensures var before, now := Recorded(old(table), req.digest), Recorded(table, req.digest);
              DistinctSenders(before) ==>
                && ((forall i | 0 <= i < |before| :: before[i].0 != sender) ==> now == before + [(sender, req)])
                && (forall i | 0 <= i < |before| && before[i].0 == sender :: now == before[i := (sender, req)])
    {
      hide PutPropagate;
      if DistinctSenders(Recorded(table, req.digest)) { PutExact(Recorded(table, req.digest), sender, req); }
      Add(req);
      var data := table[req.digest];
      table := table[req.digest := data.(propagates := PutPropagate(data.propagates, sender, req))];
    }

    method OrderedByReplica(key: string)
      modifies this`table
      ensures State() == Next(old(State()), 0, Step.OrderedByReplica(key))
    {
      if key !in table { return; }
      var st := table[key];
      table := table[key := st.(unorderedByReplicas := st.unorderedByReplicas - 1)];
    }

    /** False stands for KeyError. */
    method MarkAsExecuted(req: Request) returns (ok: bool)
      modifies this
      ensures ok <==> req.digest in old(table)
      ensures State() == Next(old(State()), 0, Step.MarkExecuted(req))
    {
      if req.digest !in table { return false; }
      table := table[req.digest := table[req.digest].(executed := true)];
      CleanEntry(req.digest);
      ok := true;
    }

    method FreeEntry(key: string)
      modifies this
      ensures State() == Next(old(State()), 0, Step.Free(key))
    {
      if key !in table { return; }
      var st := table[key];
      table := table[key := st.(forwardedTo := st.forwardedTo - 1)];
      CleanEntry(key);
    }

    method ForceFree(key: string)
      modifies this
      ensures State() == Next(old(State()), 0, Step.ForceFree(key))
    {
      if key !in table { return; }
      if table[key].finalised.Some? {
        finalisedCount := finalisedCount - 1;
      }
      table := table - {key};
    }

    method CleanEntry(key: string)
      requires key in table
      modifies this
      ensures State() == Clean(old(State()), key)
    {
      var st := table[key];
      if st.executed && st.forwardedTo <= 0 {
        if st.finalised.Some? {
          finalisedCount := finalisedCount - 1;
        }
        table := table - {st.request.digest};
      }
    }

    /** set_finalised: counts an entry only the first time. */
    method SetFinalised(req: Request)
      requires req.digest in table
      modifies this
      ensures table == old(table)[req.digest := old(table)[req.digest].(finalised := Some(req))]
      ensures finalisedCount == if old(table)[req.digest].finalised.Some? then old(finalisedCount) else old(finalisedCount) + 1
    {
      var st := table[req.digest];
      if st.finalised == None {
        finalisedCount := finalisedCount + 1;
      }
      table := table[req.digest := st.(finalised := Some(req))];
    }

    method MarkAsForwarded(req: Request, to: int)
      requires req.digest in table
      modifies this`table
      ensures table == old(table)[req.digest := old(table)[req.digest].(forwarded := true, forwardedTo := to,
                                                                        unorderedByReplicas := to)]
    {
      table := table[req.digest := table[req.digest].(forwarded := true, forwardedTo := to, unorderedByReplicas := to)];
    }
  }

  datatype CanForward = Yes | AlreadyForwarded | NotFinalised | KeyError

  class Propagator {
    const requests: Requests
    const name: string
    const quorum: int
    var numReplicas: int

    /** Keys handed to the replicas, and requests broadcast as PROPAGATE. */
    var forwardedKeys: seq<string>
    var broadcast: seq<Request>

    constructor (name: string, n: nat, numReplicas: int)
      ensures this.name == name && quorum == QuorumsFor(n).weak && this.numReplicas == numReplicas
      ensures fresh(requests) && requests.State() == EMPTY && forwardedKeys == [] && broadcast == []
    {
      this.name, this.quorum, this.numReplicas := name, QuorumsFor(n).weak, numReplicas;
      requests := new Requests();
      forwardedKeys, broadcast := [], [];
    }

    /** propagate: broadcast a request once and record the own vote. */
    method Propagate(req: Request)
      modifies this`broadcast, requests
      ensures var done := HasPropagated(old(requests.State()), req, name);
              && requests.State() == (if done then old(requests.State())
                                      else Next(old(requests.State()), quorum, Step.Propagate(req, Named(name))))
              && broadcast == (if done then old(broadcast) else old(broadcast) + [req])
    {
      if req.digest in requests.table && exists p <- requests.table[req.digest].propagates :: p.0 == Named(name) {
        return;
      }
      QuorumFree(requests.State(), 0, quorum, Step.Propagate(req, Named(name)));
      requests.AddPropagate(req, Named(name));
      broadcast := broadcast + [req];
    }

    /** canForward: looks for a quorum and, when it finds one, finalises the request. */
    method TestForward(req: Request) returns (r: CanForward)
      requires InOrder(requests.State(), quorum)
      modifies requests
      ensures r == KeyError <==> req.digest !in old(requests.table)
      ensures r == AlreadyForwarded <==> req.digest in old(requests.table) && old(requests.table)[req.digest].forwarded
      ensures r == Yes <==> old(Forwards(requests.State(), quorum, req))
      ensures r != Yes ==> requests.State() == old(requests.State())
      ensures r == Yes ==>
                var st := old(requests.table)[req.digest];
                && requests.table == old(requests.table)[req.digest := st.(finalised := FirstAcceptable(st.propagates, quorum))]
                && requests.finalisedCount ==
                     (if st.finalised.Some? then old(requests.finalisedCount) else old(requests.finalisedCount) + 1)
    {
      if req.digest !in requests.table { return KeyError; }
      var st := requests.table[req.digest];
      if st.forwarded { return AlreadyForwarded; }
      if !IsReached(quorum, |st.propagates|) { return NotFinalised; }
      var accepted := ReqWithAcceptableQuorum(st.propagates, quorum);
      if accepted == None { return NotFinalised; }
      FirstAcceptableSound(st.propagates, quorum);
      assert EntryOk(req.digest, st, quorum);
      requests.SetFinalised(accepted.value);
      r := Yes;
    }

    method Forward(req: Request)
      requires req.digest in requests.table
      modifies this`forwardedKeys, requests`table
      ensures forwardedKeys == old(forwardedKeys) + [req.digest]
      ensures requests.table == old(requests.table)[req.digest :=
                old(requests.table)[req.digest].(forwarded := true, forwardedTo := numReplicas, unorderedByReplicas := numReplicas)]
    {
      forwardedKeys := forwardedKeys + [req.digest];
      requests.MarkAsForwarded(req, numReplicas);
    }

    /** tryForwarding: forwards exactly when the entry has its quorum and was not forwarded before. */
    method TryForwarding(req: Request)
      requires InOrder(requests.State(), quorum)
      modifies this`forwardedKeys, requests
      ensures requests.State() == Next(old(requests.State()), quorum, TryForward(req, numReplicas))
      ensures InOrder(requests.State(), quorum)
      ensures forwardedKeys == if old(Forwards(requests.State(), quorum, req)) then old(forwardedKeys) + [req.digest]
                               else old(forwardedKeys)
    {
      hide InOrder, Forwards;
      ghost var before := requests.State();
      var r := TestForward(req);
      if r == Yes {
        YesPresent(before, quorum, req);
        Forward(req);
      }
      NextOk(before, quorum, TryForward(req, numReplicas));
    }

    /** recordAndPropagate: the steps of a node that receives the client's request. */
    method RecordAndPropagate(req: Request)
      requires InOrder(requests.State(), quorum)
      modifies this`forwardedKeys, this`broadcast, requests
      ensures InOrder(requests.State(), quorum)
      ensures var vote := if HasPropagated(old(requests.State()), req, name) then []
                          else [Step.Propagate(req, Named(name))];
              requests.State() == Run(old(requests.State()), quorum, [Add(req)] + vote + [TryForward(req, numReplicas)])
      ensures broadcast == old(broadcast) + if HasPropagated(old(requests.State()), req, name) then [] else [req]
      ensures var key := req.digest;
              var voters := Voters(Recorded(old(requests.table), key), key) + {name};
              var forwarded := key in old(requests.table) && old(requests.table)[key].forwarded;
              forwardedKeys == old(forwardedKeys) + if !forwarded && IsReached(quorum, |voters|) then [key] else []
    {
      hide InOrder, Forwards, Next, Voters;
      ghost var s0 := requests.State();
      NextOk(s0, quorum, Add(req));
      QuorumFree(s0, 0, quorum, Add(req));
      AddKeepsVotes(s0, quorum, req, name);
      requests.Add(req);
      NextOk(requests.State(), quorum, Step.Propagate(req, Named(name)));
      Propagate(req);
      OwnVote(s0, quorum, req, name);
      ForwardsExact(requests.State(), quorum, req);
      TryForwarding(req);
      ghost var vote := if HasPropagated(s0, req, name) then [] else [Step.Propagate(req, Named(name))];
      RunThree(s0, quorum, Add(req), vote, TryForward(req, numReplicas));
    }
  }

  lemma {:induction false} AddKeepsVotes(s: PState, quorum: int, req: Request, name: string)
    ensures HasPropagated(Next(s, quorum, Add(req)), req, name) <==> HasPropagated(s, req, name)
  {
  }

  /** After the own vote, whether new or given before, the voters are those before and the node itself. */
  lemma {:induction false} OwnVote(s: PState, quorum: int, req: Request, name: string)
    requires InOrder(s, quorum)
    ensures var key := req.digest;
            var added := Next(s, quorum, Add(req));
            var voted := if HasPropagated(s, req, name) then added else Next(added, quorum, Propagate(req, Named(name)));
            && key in voted.table
            && voted.table[key].forwarded == (key in s.table && s.table[key].forwarded)
            && Voters(voted.table[key].propagates, key) == Voters(Recorded(s.table, key), key) + {name}
  {
    hide Voters, FinalisedKeys, PutPropagate;
    var key := req.digest;
    var ps := Recorded(s.table, key);
    if key in s.table { assert EntryOk(key, s.table[key], quorum); }
    if HasPropagated(s, req, name) {
      VotersExact(ps, key, name);
    } else {
      PutExact(ps, Named(name), req);
      VotersSnoc(ps, Named(name), req);
    }
  }

  lemma {:induction false} VotersSnoc(ps: seq<(Sender, Request)>, sender: Sender, req: Request)
    ensures Voters(ps + [(sender, req)], req.digest) ==
            Voters(ps, req.digest) + if sender.Named? then {sender.name} else {}
  {
    assert (ps + [(sender, req)])[..|ps|] == ps;
  }

  lemma {:induction false} YesPresent(s: PState, quorum: int, req: Request)
    requires Forwards(s, quorum, req)
    ensures req.digest in s.table
  {
  }

  lemma {:induction false} RunThree(s: PState, quorum: int, first: Step, middle: seq<Step>, last: Step)
    requires |middle| <= 1
    ensures var mid := Next(s, quorum, first);
            Run(s, quorum, [first] + middle + [last]) ==
            Next(if middle == [] then mid else Next(mid, quorum, middle[0]), quorum, last)
  {
    hide Next;
    var all := [first] + middle + [last];
    assert all[..|all| - 1] == [first] + middle;
    assert Run(s, quorum, [first]) == Next(s, quorum, first) by { assert [first][..0] == []; }
    if middle == [] {
      assert [first] + middle == [first];
    } else {
      assert ([first] + middle)[..1] == [first];
    }
  }
}
