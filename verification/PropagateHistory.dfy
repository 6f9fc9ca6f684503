/** What the table of propagated requests holds, told by the steps that led to it (plenum/server/propagator.py). */
module PropagateHistories {
  import opened QuorumSizes
  import opened Propagators
  import opened Wrappers

  // ----- The life of an entry -----

  /** The steps since the entry of a key was created, none if there is no entry. */
  ghost function Life(quorum: int, steps: seq<Step>, key: string): seq<Step> {
    if steps == [] || key !in Run(EMPTY, quorum, steps).table then []
    else Life(quorum, steps[..|steps| - 1], key) + [steps[|steps| - 1]]
  }

  predicate Sends(step: Step, key: string, sender: Sender) {
    step.Propagate? && step.req.digest == key && step.sender == sender
  }

  predicate NamedFor(step: Step, key: string) {
    step.Propagate? && step.req.digest == key && step.sender.Named?
  }

  /** The nodes that propagated the key. */
  ghost function Senders(life: seq<Step>, key: string): set<string> {
    set i | 0 <= i < |life| && NamedFor(life[i], key) :: life[i].sender.name
  }

  /** What a sender propagated last for the key. */
  ghost function LastSent(life: seq<Step>, key: string, sender: Sender): Option<Request> {
    if life == [] then None
    else if Sends(life[|life| - 1], key, sender) then Some(life[|life| - 1].req)
    else LastSent(life[..|life| - 1], key, sender)
  }

  /** The position of the first attempt to forward the key with a quorum of distinct nodes before it. */
  ghost function ForwardedAt(life: seq<Step>, key: string, quorum: int): (r: Option<nat>)
    ensures r.Some? ==> r.value < |life| && life[r.value].TryForward?
  {
    if life == [] then None
    else
      var init, last := life[..|life| - 1], life[|life| - 1];
      var before := ForwardedAt(init, key, quorum);
      if before.Some? then before
      else if last.TryForward? && last.req.digest == key
              && Senders(init, key) != {} && IsReached(quorum, |Senders(init, key)|) then Some(|init|)
      else None
  }

  /** The number of replicas the key was forwarded to, and the steps after that. */
  ghost function Handed(life: seq<Step>, key: string, quorum: int): int {
    var at := ForwardedAt(life, key, quorum);
    if at.Some? then life[at.value].replicas else 0
  }

  ghost function Since(life: seq<Step>, key: string, quorum: int): seq<Step> {
    var at := ForwardedAt(life, key, quorum);
    if at.Some? then life[at.value + 1..] else life
  }

  predicate Executes(step: Step, key: string) {
    step.MarkExecuted? && step.req.digest == key
  }

  ghost predicate WasSent(life: seq<Step>, key: string, req: Request) {
    req.digest == key && exists i | 0 <= i < |life| :: life[i].Propagate? && life[i].req == req
  }

  /** Each sender is recorded once, with what it sent last; nobody else is recorded. */
  ghost predicate VotesExplained(ps: seq<(Sender, Request)>, life: seq<Step>, key: string) {
    && DistinctSenders(ps)
    && (forall i | 0 <= i < |ps| :: LastSent(life, key, ps[i].0) == Some(ps[i].1))
    && (forall s :: LastSent(life, key, s).Some? ==> exists i | 0 <= i < |ps| :: ps[i].0 == s)
  }

  ghost predicate FlagsExplained(st: ReqState, life: seq<Step>, key: string, quorum: int) {
    && (st.executed <==> exists i | 0 <= i < |life| :: Executes(life[i], key))
    && (st.forwarded <==> ForwardedAt(life, key, quorum).Some?)
    && (st.finalised.Some? <==> st.forwarded)
    && (st.finalised.Some? ==> WasSent(life, key, st.finalised.value))
    && st.forwardedTo == Handed(life, key, quorum) - multiset(Since(life, key, quorum))[Free(key)]
    && st.unorderedByReplicas == Handed(life, key, quorum) - multiset(Since(life, key, quorum))[OrderedByReplica(key)]
  }

  ghost predicate Explained(st: ReqState, life: seq<Step>, key: string, quorum: int) {
    && life != [] && (life[0].Add? || life[0].Propagate?) && st.request == life[0].req && st.request.digest == key
    && VotesExplained(st.propagates, life, key)
    && FlagsExplained(st, life, key, quorum)
  }

  // ----- Senders, votes and the last propagate -----

  lemma {:induction false} LastSentSoundly(life: seq<Step>, key: string, sender: Sender)
    ensures LastSent(life, key, sender).Some? <==> exists i | 0 <= i < |life| :: Sends(life[i], key, sender)
    ensures LastSent(life, key, sender).Some? ==> WasSent(life, key, LastSent(life, key, sender).value)
    decreases |life|
  {
    if life != [] {
      var init := life[..|life| - 1];
      LastSentSoundly(init, key, sender);
      assert forall i | 0 <= i < |init| :: init[i] == life[i];
    }
  }

  /** The voters recorded are the nodes that propagated. */
  lemma {:induction false} VotersAreSenders(ps: seq<(Sender, Request)>, life: seq<Step>, key: string)
    requires VotesExplained(ps, life, key) && forall i | 0 <= i < |ps| :: ps[i].1.digest == key
    ensures Voters(ps, key) == Senders(life, key)
  {
    hide Voters, LastSent;
    forall v ensures v in Voters(ps, key) <==> v in Senders(life, key) {
      VotersExact(ps, key, v);
      LastSentSoundly(life, key, Named(v));
      if v in Voters(ps, key) {
        var i :| 0 <= i < |ps| && ps[i].0 == Named(v);
        assert LastSent(life, key, ps[i].0).Some?;
        var j :| 0 <= j < |life| && Sends(life[j], key, Named(v));
        assert NamedFor(life[j], key);
      }
      if v in Senders(life, key) {
        var j :| 0 <= j < |life| && NamedFor(life[j], key) && life[j].sender.name == v;
        assert Sends(life[j], key, Named(v));
        assert LastSent(life, key, Named(v)).Some?;
      }
    }
  }

  // ----- One step of a life -----

  function KeyOf(step: Step): string {
    match step
    case Add(req) => req.digest
    case Propagate(req, _) => req.digest
    case TryForward(req, _) => req.digest
    case MarkExecuted(req) => req.digest
    case Free(key) => key
    case ForceFree(key) => key
    case OrderedByReplica(key) => key
  }

  /** A step about another key does not touch the entry. */
  lemma {:induction false} OtherKey(s: PState, quorum: int, step: Step, key: string)
    requires InOrder(s, quorum) && KeyOf(step) != key
    ensures key in Next(s, quorum, step).table <==> key in s.table
    ensures key in s.table ==> Next(s, quorum, step).table[key] == s.table[key]
  {
    hide Voters, FirstAcceptable, FinalisedKeys, PutPropagate;
    var other := KeyOf(step);
    if other in s.table { assert EntryOk(other, s.table[other], quorum); }
  }

  lemma {:induction false} VotesStep(ps: seq<(Sender, Request)>, life: seq<Step>, key: string, step: Step)
    requires VotesExplained(ps, life, key)
    ensures step.Propagate? && step.req.digest == key ==>
              VotesExplained(PutPropagate(ps, step.sender, step.req), life + [step], key)
    ensures !(step.Propagate? && step.req.digest == key) ==> VotesExplained(ps, life + [step], key)
  {
    hide PutPropagate;
    var longer := life + [step];
    assert longer[..|longer| - 1] == life;
    forall s ensures LastSent(longer, key, s) == if Sends(step, key, s) then Some(step.req) else LastSent(life, key, s) {}
    hide LastSent;
    if step.Propagate? && step.req.digest == key {
      var r := PutPropagate(ps, step.sender, step.req);
      PutExact(ps, step.sender, step.req);
      if k :| 0 <= k < |ps| && ps[k].0 == step.sender {
        assert r == ps[k := (step.sender, step.req)];
        assert forall i | 0 <= i < |ps| :: r[i].0 == ps[i].0;
      } else {
        assert r == ps + [(step.sender, step.req)];
        assert r[|ps|].0 == step.sender;
        assert forall i | 0 <= i < |ps| :: r[i] == ps[i];
      }
    }
  }

  lemma {:induction false} ExecutedStep(life: seq<Step>, key: string, step: Step)
    ensures (exists i | 0 <= i < |life + [step]| :: Executes((life + [step])[i], key)) <==>
            Executes(step, key) || exists i | 0 <= i < |life| :: Executes(life[i], key)
  {
    var longer := life + [step];
    assert longer[|life|] == step;
    assert forall i | 0 <= i < |life| :: longer[i] == life[i];
  }

  lemma {:induction false} WasSentStep(life: seq<Step>, key: string, req: Request, step: Step)
    requires WasSent(life, key, req)
    ensures WasSent(life + [step], key, req)
  {
    var i :| 0 <= i < |life| && life[i].Propagate? && life[i].req == req;
    assert (life + [step])[i] == life[i];
  }

  /** What the check accepts was propagated. */
  lemma {:induction false} AcceptedWasSent(ps: seq<(Sender, Request)>, life: seq<Step>, key: string, quorum: int)
    requires VotesExplained(ps, life, key) && FirstAcceptable(ps, quorum).Some?
    ensures WasSent(life, key, FirstAcceptable(ps, quorum).value)
  {
    hide FirstAcceptable, LastSent, WasSent;
    FirstAcceptableSound(ps, quorum);
    var i :| 0 <= i < |ps| && ps[i].1 == FirstAcceptable(ps, quorum).value;
    LastSentSoundly(life, key, ps[i].0);
  }

  /** The attempt that forwards. */
  ghost predicate FirstForward(life: seq<Step>, key: string, quorum: int, step: Step) {
    && ForwardedAt(life, key, quorum) == None
    && step.TryForward? && step.req.digest == key
    && Senders(life, key) != {} && IsReached(quorum, |Senders(life, key)|)
  }

  lemma {:induction false} ForwardedStep(life: seq<Step>, key: string, quorum: int, step: Step)
    ensures var longer := life + [step];
            if FirstForward(life, key, quorum, step) then
              && ForwardedAt(longer, key, quorum) == Some(|life|)
              && Handed(longer, key, quorum) == step.replicas && Since(longer, key, quorum) == []
            else
              && ForwardedAt(longer, key, quorum) == ForwardedAt(life, key, quorum)
              && Handed(longer, key, quorum) == Handed(life, key, quorum)
              && Since(longer, key, quorum) == Since(life, key, quorum) + [step]
  {
    hide Senders;
    var longer := life + [step];
    assert longer[..|longer| - 1] == life;
  }

  lemma {:induction false} FlagsStep(s: PState, quorum: int, life: seq<Step>, key: string, step: Step)
    requires InOrder(s, quorum) && key in s.table && KeyOf(step) == key && key in Next(s, quorum, step).table
    requires Explained(s.table[key], life, key, quorum)
    ensures FlagsExplained(Next(s, quorum, step).table[key], life + [step], key, quorum)
  {
    hide Voters, FirstAcceptable, FinalisedKeys, PutPropagate, ForwardedAt, Handed, Since, Senders, VotesExplained,
         WasSent;
    ExecutedStep(life, key, step);
    ForwardedStep(life, key, quorum, step);
    assert EntryOk(key, s.table[key], quorum);
    if s.table[key].finalised.Some? { WasSentStep(life, key, s.table[key].finalised.value, step); }
    if step.TryForward? {
      if Forwards(s, quorum, step.req) {
        AcceptedWasSent(s.table[key].propagates, life, key, quorum);
        WasSentStep(life, key, FirstAcceptable(s.table[key].propagates, quorum).value, step);
      }
      VotersAreSenders(s.table[key].propagates, life, key);
      ForwardsExact(s, quorum, step.req);
    }
  }

  lemma {:induction false} LifeStep(s: PState, quorum: int, life: seq<Step>, key: string, step: Step)
    requires InOrder(s, quorum) && key in s.table && key in Next(s, quorum, step).table
    requires Explained(s.table[key], life, key, quorum)
    ensures Explained(Next(s, quorum, step).table[key], life + [step], key, quorum)
  {
    hide InOrder, VotesExplained, FlagsExplained, FirstAcceptable, PutPropagate, Forwards;
    VotesStep(s.table[key].propagates, life, key, step);
    if KeyOf(step) == key {
      FlagsStep(s, quorum, life, key, step);
    } else {
      OtherKey(s, quorum, step, key);
      OtherFlags(s.table[key], life, key, quorum, step);
    }
  }

  lemma {:induction false} OtherFlags(st: ReqState, life: seq<Step>, key: string, quorum: int, step: Step)
    requires FlagsExplained(st, life, key, quorum) && KeyOf(step) != key
    ensures FlagsExplained(st, life + [step], key, quorum)
  {
    hide ForwardedAt, Handed, Since, Senders, WasSent;
    if st.finalised.Some? { WasSentStep(life, key, st.finalised.value, step); }
    ExecutedStep(life, key, step);
    ForwardedStep(life, key, quorum, step);
  }

  lemma {:induction false} Born(s: PState, quorum: int, key: string, step: Step)
    requires InOrder(s, quorum) && key !in s.table
    ensures key in Next(s, quorum, step).table <==> (step.Add? || step.Propagate?) && step.req.digest == key
    ensures key in Next(s, quorum, step).table ==> Explained(Next(s, quorum, step).table[key], [step], key, quorum)
  {
    hide Next, InOrder, VotesExplained, FlagsExplained, PutPropagate;
    if KeyOf(step) != key {
      OtherKey(s, quorum, step, key);
    } else {
      NewEntry(s, quorum, key, step);
      if step.Add? || step.Propagate? {
        NoVotes(key);
        VotesStep([], [], key, step);
        NewFlags(Next(s, quorum, step).table[key], key, quorum, step);
        assert [] + [step] == [step];
      }
    }
  }

  lemma {:induction false} NewEntry(s: PState, quorum: int, key: string, step: Step)
    requires key !in s.table && KeyOf(step) == key
    ensures key in Next(s, quorum, step).table <==> step.Add? || step.Propagate?
    ensures step.Add? ==> Next(s, quorum, step).table[key] == FreshState(step.req).(propagates := [])
    ensures step.Propagate? ==> Next(s, quorum, step).table[key] ==
                                FreshState(step.req).(propagates := PutPropagate([], step.sender, step.req))
  {
    hide PutPropagate;
  }

  lemma {:induction false} NoVotes(key: string)
    ensures VotesExplained([], [], key)
  {
  }

  lemma {:induction false} NewFlags(st: ReqState, key: string, quorum: int, step: Step)
    requires st == FreshState(st.request).(propagates := st.propagates) && (step.Add? || step.Propagate?)
    ensures FlagsExplained(st, [step], key, quorum)
  {
    hide Senders, ForwardedAt, Handed, Since;
    NothingForwarded(key, quorum);
    ExecutedStep([], key, step);
    ForwardedStep([], key, quorum, step);
    assert [] + [step] == [step];
  }

  lemma {:induction false} NothingForwarded(key: string, quorum: int)
    ensures ForwardedAt([], key, quorum) == None && Handed([], key, quorum) == 0 && Since([], key, quorum) == []
  {
  }

  // ----- Every run -----

  /** In every run, each entry is what the steps since its creation make it: the request that created it, the
      distinct senders with what each sent last, executed exactly if told so, forwarded exactly at the first attempt
      with a quorum of distinct nodes, and the two counters are the replicas minus the reports since then. */
  lemma {:induction false} LifeExact(quorum: int, steps: seq<Step>, key: string)
    requires key in Run(EMPTY, quorum, steps).table
    ensures Explained(Run(EMPTY, quorum, steps).table[key], Life(quorum, steps, key), key, quorum)
    decreases |steps|
  {
    hide InOrder, Next, Explained;
    var init, last := steps[..|steps| - 1], steps[|steps| - 1];
    var s := Run(EMPTY, quorum, init);
    RunOk(quorum, init);
    if key in s.table {
      LifeExact(quorum, init, key);
      LifeStep(s, quorum, Life(quorum, init, key), key, last);
    } else {
      Born(s, quorum, key, last);
      NoLife(quorum, init, key);
      assert [] + [last] == [last];
    }
  }

  lemma {:induction false} NoLife(quorum: int, steps: seq<Step>, key: string)
    requires key !in Run(EMPTY, quorum, steps).table
    ensures Life(quorum, steps, key) == []
  {
  }

  /** A life is the end of the run. */
  lemma {:induction false} LifeSuffix(quorum: int, steps: seq<Step>, key: string)
    ensures |Life(quorum, steps, key)| <= |steps|
    ensures Life(quorum, steps, key) == steps[|steps| - |Life(quorum, steps, key)|..]
    decreases |steps|
  {
    if steps != [] && key in Run(EMPTY, quorum, steps).table {
      LifeSuffix(quorum, steps[..|steps| - 1], key);
    }
  }

  /** In every run, an entry appears exactly when its request is added or propagated, and disappears exactly when it
      is freed by force, or when a report that it was executed or freed finds it executed and freed as often
      as it was forwarded. */
  lemma {:induction false} RemovedExact(quorum: int, steps: seq<Step>, key: string, step: Step)
    ensures var s, next := Run(EMPTY, quorum, steps), Run(EMPTY, quorum, steps + [step]);
            var life := Life(quorum, steps, key) + [step];
            if key !in s.table then
              key in next.table <==> (step.Add? || step.Propagate?) && step.req.digest == key
            else
              key !in next.table <==>
                || step == ForceFree(key)
                || ((Executes(step, key) || step == Free(key))
                    && (exists i | 0 <= i < |life| :: Executes(life[i], key))
                    && multiset(Since(life, key, quorum))[Free(key)] >= Handed(life, key, quorum))
  {
    hide InOrder, FirstAcceptable, Forwards, PutPropagate, Since, Handed, ForwardedAt, VotesExplained;
    var s, life := Run(EMPTY, quorum, steps), Life(quorum, steps, key);
    assert (steps + [step])[..|steps|] == steps;
    RunOk(quorum, steps);
    if key !in s.table {
      Born(s, quorum, key, step);
    } else {
      LifeExact(quorum, steps, key);
      if KeyOf(step) != key {
        OtherKey(s, quorum, step, key);
      } else {
        ExecutedStep(life, key, step);
        ForwardedStep(life, key, quorum, step);
      }
    }
  }

  predicate SentBy(step: Step, key: string, name: string) {
    Sends(step, key, Named(name))
  }

  /** In every run, a voter recorded for a key did propagate it. */
  lemma {:induction false} VoterSent(quorum: int, steps: seq<Step>, key: string, v: string)
    requires key in Run(EMPTY, quorum, steps).table && v in Voters(Run(EMPTY, quorum, steps).table[key].propagates, key)
    ensures exists i | 0 <= i < |steps| :: SentBy(steps[i], key, v)
  {
    hide Run, Voters, FlagsExplained, VotesExplained, InOrder;
    var life := Life(quorum, steps, key);
    LifeExact(quorum, steps, key);
    RunVotesFor(quorum, steps, key);
    VotersAreSenders(Run(EMPTY, quorum, steps).table[key].propagates, life, key);
    LifeSuffix(quorum, steps, key);
    var j :| 0 <= j < |life| && NamedFor(life[j], key) && life[j].sender.name == v;
    assert SentBy(steps[|steps| - |life| + j], key, v);
  }

  lemma {:induction false} RunVotesFor(quorum: int, steps: seq<Step>, key: string)
    requires key in Run(EMPTY, quorum, steps).table
    ensures forall i | 0 <= i < |Run(EMPTY, quorum, steps).table[key].propagates| ::
              Run(EMPTY, quorum, steps).table[key].propagates[i].1.digest == key
    ensures EntryOk(key, Run(EMPTY, quorum, steps).table[key], quorum)
  {
    hide Run;
    RunOk(quorum, steps);
  }

  /** Safety of every run in a pool of n nodes: the counter is the number of finalised entries, and every finalised
      or forwarded request was propagated, in the run, by a node outside any faulty set of at most f nodes. */
  lemma {:induction false} PropagateSafety(n: nat, steps: seq<Step>, key: string, faulty: set<string>)
    requires |faulty| <= MaxFailures(n)
    ensures var s := Run(EMPTY, QuorumsFor(n).weak, steps);
            && s.finalisedCount == |FinalisedKeys(s.table)|
            && (key in s.table && (s.table[key].finalised.Some? || s.table[key].forwarded) ==>
                  exists v :: v in Voters(s.table[key].propagates, key) && v !in faulty
                              && exists i | 0 <= i < |steps| :: SentBy(steps[i], key, v))
  {
    hide Run, Voters;
    var quorum := QuorumsFor(n).weak;
    RunOk(quorum, steps);
    var s := Run(EMPTY, quorum, steps);
    if key in s.table && s.table[key].finalised.Some? {
      var v := WeakHasHonest(Voters(s.table[key].propagates, key), faulty, n);
      VoterSent(quorum, steps, key, v);
    }
  }
}
