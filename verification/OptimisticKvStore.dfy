/** A key-value store with batches of uncommitted writes on top (storage/optimistic_kv_store.py). */
module OptimisticKvStores {
  import opened Wrappers

  // ----- The store as a state machine -----

  /** Backing store, created batches (oldest first) and the operations of the batch being built. */
  datatype KvState<I, K(==), V> = KvState(store: map<K, V>, batches: seq<(I, map<K, V>)>, ops: seq<(K, V)>)

  /** A dictionary built from a list of pairs: the last write to a key wins. */
  function Dict<K(==), V>(ops: seq<(K, V)>): map<K, V> {
    if ops == [] then map[] else Dict(ops[..|ops| - 1])[ops[|ops| - 1].0 := ops[|ops| - 1].1]
  }

  function Overlay<I, K(==), V>(base: map<K, V>, batches: seq<(I, map<K, V>)>): map<K, V> {
    if batches == [] then base else Overlay(base, batches[..|batches| - 1]) + batches[|batches| - 1].1
  }

  /** What uncommitted reads see: store, then batches in order, then pending operations. */
  function View<I, K(==), V>(s: KvState<I, K, V>): map<K, V> {
    Overlay(s.store, s.batches) + Dict(s.ops)
  }

  datatype Step<I, K, V> = Set(key: K, value: V) | Create(idr: I) | Commit | Reject

  /** Commit and reject need a created batch; without one the source raises and nothing changes. */
  function Next<I, K(==), V>(s: KvState<I, K, V>, step: Step<I, K, V>): KvState<I, K, V> {
    match step
    case Set(k, v) => s.(ops := s.ops + [(k, v)])
    case Create(idr) => KvState(s.store, s.batches + [(idr, Dict(s.ops))], [])
    case Commit => if s.batches == [] then s else s.(store := s.store + s.batches[0].1, batches := s.batches[1..])
    case Reject => if s.batches == [] then s else KvState(s.store, s.batches[..|s.batches| - 1], [])
  }

  function Run<I, K(==), V>(s: KvState<I, K, V>, steps: seq<Step<I, K, V>>): KvState<I, K, V> {
    if steps == [] then s else Next(Run(s, steps[..|steps| - 1]), steps[|steps| - 1])
  }

  lemma {:induction false} OverlayCons<I, K, V>(base: map<K, V>, batches: seq<(I, map<K, V>)>)
    requires batches != []
    ensures Overlay(base, batches) == Overlay(base + batches[0].1, batches[1..])
    decreases |batches|
  {
    var n := |batches| - 1;
    if n > 0 {
      OverlayCons(base, batches[..n]);
      assert batches[..n][1..] == batches[1..][..n - 1];
    } else {
      assert batches[..0] == [] && batches[1..] == [];
    }
  }

  /** Committing moves the oldest batch into the store without changing what readers see. */
  lemma {:induction false} CommitKeepsView<I, K, V>(s: KvState<I, K, V>)
    ensures View(Next(s, Commit)) == View(s)
  {
    if s.batches != [] { OverlayCons(s.store, s.batches); }
  }

  lemma {:induction false} CreateKeepsView<I, K, V>(s: KvState<I, K, V>, idr: I)
    ensures View(Next(s, Create(idr))) == View(s)
  {
    var created := s.batches + [(idr, Dict(s.ops))];
    assert created[..|created| - 1] == s.batches;
  }

  lemma {:induction false} SetView<I, K, V>(s: KvState<I, K, V>, k: K, v: V)
    ensures View(Next(s, Set(k, v))) == View(s)[k := v]
  {
    var ops := s.ops + [(k, v)];
    assert ops[..|ops| - 1] == s.ops;
  }

  lemma {:induction false} DictNone<K, V>()
    ensures Dict<K, V>([]) == map[]
  {
  }

  lemma {:induction false} DictSnoc<K, V>(base: map<K, V>, ops: seq<(K, V)>, k: K, v: V)
    ensures base + Dict(ops + [(k, v)]) == (base + Dict(ops))[k := v]
  {
    assert (ops + [(k, v)])[..|ops|] == ops;
  }

  /** The writes of a run, in order. */
  function Writes<I, K, V>(steps: seq<Step<I, K, V>>): seq<(K, V)> {
    if steps == [] then []
    else
      var init, last := Writes(steps[..|steps| - 1]), steps[|steps| - 1];
      if last.Set? then init + [(last.key, last.value)] else init
  }

  /** Over every run without rejects, readers see the start overlaid by the writes in order, no matter when
      batches are created or committed. */
  lemma {:induction false} RunView<I, K, V>(s: KvState<I, K, V>, steps: seq<Step<I, K, V>>)
    requires forall st <- steps :: !st.Reject?
    ensures View(Run(s, steps)) == View(s) + Dict(Writes(steps))
    decreases |steps|
  {
    hide View, Dict, Next;
    if steps == [] {
      DictNone<K, V>();
    } else {
      var init, last := steps[..|steps| - 1], steps[|steps| - 1];
      RunView(s, init);
      var before := Run(s, init);
      match last {
        case Set(k, v) =>
          SetView(before, k, v);
          DictSnoc(View(s), Writes(init), k, v);
        case Create(idr) => CreateKeepsView(before, idr);
        case Commit => CommitKeepsView(before);
        case Reject =>
      }
    }
  }

  // ----- The writes that survive -----

  /** The writes not undone so far, and cuts among them: what lies before the first cut is committed, each
      created batch lies between two cuts, and the batch being built follows the last. */
  datatype Journal<K, V> = Journal(log: seq<(K, V)>, cuts: seq<nat>) {
    predicate Ordered() {
      && cuts != [] && cuts[|cuts| - 1] <= |log|
      && forall a, b | 0 <= a <= b < |cuts| :: cuts[a] <= cuts[b]
    }
  }

  /** A reject takes back everything from the last but one cut on. */
  function Advance<I, K, V>(j: Journal<K, V>, step: Step<I, K, V>): (r: Journal<K, V>)
    requires j.Ordered()
    ensures r.Ordered()
  {
    var n := |j.cuts| - 1;
    match step
    case Set(k, v) => j.(log := j.log + [(k, v)])
    case Create(_) => j.(cuts := j.cuts + [|j.log|])
    case Commit => if n == 0 then j else j.(cuts := j.cuts[1..])
    case Reject => if n == 0 then j else Journal(j.log[..j.cuts[n - 1]], j.cuts[..n])
  }

  function Survivors<I, K, V>(steps: seq<Step<I, K, V>>): (j: Journal<K, V>)
    ensures j.Ordered()
  {
    if steps == [] then Journal([], [0]) else Advance(Survivors(steps[..|steps| - 1]), steps[|steps| - 1])
  }

  /** The state holds exactly the journal on top of the base: committed writes, batches and pending ones. */
  ghost predicate Reflects<I, K, V>(s: KvState<I, K, V>, base: map<K, V>, j: Journal<K, V>)
    requires j.Ordered()
  {
    && |s.batches| == |j.cuts| - 1
    && s.store == base + Dict(j.log[..j.cuts[0]])
    && (forall i | 0 <= i < |s.batches| :: s.batches[i].1 == Dict(j.log[j.cuts[i]..j.cuts[i + 1]]))
    && s.ops == j.log[j.cuts[|j.cuts| - 1]..]
  }

  lemma {:induction false} DictConcat<K, V>(base: map<K, V>, a: seq<(K, V)>, b: seq<(K, V)>)
    ensures base + Dict(a + b) == base + Dict(a) + Dict(b)
    decreases |b|
  {
    if b == [] {
      assert a + b == a;
    } else {
      var init, last := b[..|b| - 1], b[|b| - 1];
      DictConcat(base, a, init);
      assert a + b == (a + init) + [(last.0, last.1)];
      DictSnoc(base, a + init, last.0, last.1);
    }
  }

  lemma {:induction false} OverlayJournal<I, K, V>(s: KvState<I, K, V>, base: map<K, V>, j: Journal<K, V>, n: nat)
    requires j.Ordered() && Reflects(s, base, j) && n <= |s.batches|
    ensures Overlay(s.store, s.batches[..n]) == base + Dict(j.log[..j.cuts[n]])
    decreases n
  {
    hide Dict;
    if n > 0 {
      OverlayJournal(s, base, j, n - 1);
      assert s.batches[..n][..n - 1] == s.batches[..n - 1];
      DictConcat(base, j.log[..j.cuts[n - 1]], j.log[j.cuts[n - 1]..j.cuts[n]]);
      assert j.log[..j.cuts[n - 1]] + j.log[j.cuts[n - 1]..j.cuts[n]] == j.log[..j.cuts[n]];
    }
  }

  lemma {:induction false} SameCuts<K, V>(j: Journal<K, V>, r: Journal<K, V>, n: nat)
    requires j.Ordered() && n < |j.cuts|
    requires j.cuts[n] <= |r.log| && r.log[..j.cuts[n]] == j.log[..j.cuts[n]]
    ensures r.log[..j.cuts[0]] == j.log[..j.cuts[0]]
    ensures forall i | 0 <= i < n :: r.log[j.cuts[i]..j.cuts[i + 1]] == j.log[j.cuts[i]..j.cuts[i + 1]]
  {
    forall i | 0 <= i < n ensures r.log[j.cuts[i]..j.cuts[i + 1]] == j.log[j.cuts[i]..j.cuts[i + 1]] {
      var a, b, end := j.cuts[i], j.cuts[i + 1], j.cuts[n];
      assert a <= b <= end;
      assert r.log[a..b] == r.log[..end][a..b] == j.log[..end][a..b];
    }
  }

  lemma {:induction false} BuildReflects<I, K, V>(s: KvState<I, K, V>, base: map<K, V>, j: Journal<K, V>,
                                                  step: Step<I, K, V>)
    requires j.Ordered() && Reflects(s, base, j) && (step.Set? || step.Create?)
    ensures Reflects(Next(s, step), base, Advance(j, step))
  {
    hide Dict;
    var n := |j.cuts| - 1;
    if step.Set? {
      SameCuts(j, Advance(j, step), n);
    } else {
      assert j.log[j.cuts[n]..|j.log|] == j.log[j.cuts[n]..];
    }
  }

  lemma {:induction false} CommitReflects<I, K, V>(s: KvState<I, K, V>, base: map<K, V>, j: Journal<K, V>)
    requires j.Ordered() && Reflects(s, base, j)
    ensures Reflects(Next(s, Commit), base, Advance(j, Step<I, K, V>.Commit))
  {
    hide Dict;
    if |j.cuts| > 1 {
      DictConcat(base, j.log[..j.cuts[0]], j.log[j.cuts[0]..j.cuts[1]]);
      assert j.log[..j.cuts[0]] + j.log[j.cuts[0]..j.cuts[1]] == j.log[..j.cuts[1]];
    }
  }

  lemma {:induction false} RejectReflects<I, K, V>(s: KvState<I, K, V>, base: map<K, V>, j: Journal<K, V>)
    requires j.Ordered() && Reflects(s, base, j)
    ensures Reflects(Next(s, Reject), base, Advance(j, Step<I, K, V>.Reject))
  {
    hide Dict;
    if |j.cuts| > 1 { SameCuts(j, Advance(j, Step<I, K, V>.Reject), |j.cuts| - 2); }
  }

  lemma {:induction false} NewReflects<I, K, V>(base: map<K, V>)
    ensures Reflects(KvState<I, K, V>.KvState(base, [], []), base, Journal([], [0]))
  {
  }

  lemma {:induction false} RunReflects<I, K, V>(base: map<K, V>, steps: seq<Step<I, K, V>>)
    ensures Reflects(Run(KvState(base, [], []), steps), base, Survivors(steps))
    decreases |steps|
  {
    hide Dict, Reflects, Next, Advance;
    if steps == [] {
      NewReflects<I, K, V>(base);
    } else {
      var init, last := steps[..|steps| - 1], steps[|steps| - 1];
      RunReflects(base, init);
      var s, j := Run(KvState(base, [], []), init), Survivors(init);
      match last {
        case Commit => CommitReflects(s, base, j);
        case Reject => RejectReflects(s, base, j);
        case _ => BuildReflects(s, base, j, last);
      }
    }
  }

  /** Over every run of writes, creates, commits and rejects on a new store, readers see the base overlaid by
      the writes that survive, and the backing store holds those of them before the first cut. */
  lemma {:induction false} RunSurvivors<I, K, V>(base: map<K, V>, steps: seq<Step<I, K, V>>)
    ensures var s := Run(KvState(base, [], []), steps);
            var j := Survivors(steps);
            View(s) == base + Dict(j.log) && s.store == base + Dict(j.log[..j.cuts[0]])
  {
    hide Dict, Survivors, Run;
    var s, j := Run(KvState(base, [], []), steps), Survivors(steps);
    var n := |j.cuts| - 1;
    RunReflects(base, steps);
    OverlayJournal(s, base, j, n);
    assert s.batches[..n] == s.batches;
    DictConcat(base, j.log[..j.cuts[n]], s.ops);
    assert j.log[..j.cuts[n]] + s.ops == j.log;
  }

  // ----- What a reject undoes -----

  function Commits<I, K, V>(steps: seq<Step<I, K, V>>): nat {
    if steps == [] then 0
    else Commits(steps[..|steps| - 1]) + (if steps[|steps| - 1].Commit? then 1 else 0)
  }

  /** Creates minus rejects. */
  function Height<I, K, V>(steps: seq<Step<I, K, V>>): int {
    if steps == [] then 0
    else
      var h := Height(steps[..|steps| - 1]);
      if steps[|steps| - 1].Create? then h + 1 else if steps[|steps| - 1].Reject? then h - 1 else h
  }

  /** Every reject is matched by a create among the steps before it. */
  predicate Matched<I, K, V>(steps: seq<Step<I, K, V>>) {
    steps == [] || (Height(steps) >= 0 && Matched(steps[..|steps| - 1]))
  }

  function CommitTimes<I, K(==), V>(s: KvState<I, K, V>, n: nat): KvState<I, K, V> {
    if n == 0 then s else Next(CommitTimes(s, n - 1), Commit)
  }

  /** Creating a batch, then any writes, matched creates and rejects and commits of older batches, then a reject,
      is the same as the commits alone: reject undoes exactly its batch and the writes after it. */
  lemma {:induction false} RejectUndoes<I, K, V>(s: KvState<I, K, V>, idr: I, steps: seq<Step<I, K, V>>)
    requires Matched(steps) && Height(steps) == 0 && Commits(steps) <= |s.batches|
    ensures Next(Run(Next(s, Create(idr)), steps), Reject) ==
            CommitTimes(s, Commits(steps)).(ops := [])
    ensures View(Next(Run(Next(s, Create(idr)), steps), Reject)) == Overlay(s.store, s.batches)
  {
    hide Dict, Run, Overlay, CommitTimes, Commits, Matched, Height;
    RunUnder(s, idr, steps);
    DictNone<K, V>();
    var end := Run(Next(s, Create(idr)), steps);
    var base := CommitTimes(s, Commits(steps));
    assert end.batches[..|end.batches| - 1] == base.batches;
    CommitTimesView(s.(ops := []), Commits(steps));
    CommitTimesOps(s, Commits(steps));
  }

  /** The batches of one state are those of an older one, a given batch and h more. */
  ghost predicate Above<I, K, V>(s: KvState<I, K, V>, older: KvState<I, K, V>, top: (I, map<K, V>), h: int) {
    && h >= 0 && s.store == older.store
    && |s.batches| == |older.batches| + 1 + h
    && s.batches[..|older.batches| + 1] == older.batches + [top]
  }

  lemma {:induction false} AboveStep<I, K, V>(s: KvState<I, K, V>, older: KvState<I, K, V>, top: (I, map<K, V>), h: int,
                                              step: Step<I, K, V>)
    requires Above(s, older, top, h) && (step.Reject? ==> h > 0) && (step.Commit? ==> older.batches != [])
    ensures Above(Next(s, step), if step.Commit? then Next(older, step) else older, top,
                  if step.Create? then h + 1 else if step.Reject? then h - 1 else h)
  {
    hide Dict;
    if step.Commit? {
      assert s.batches[0] == (older.batches + [top])[0];
      assert s.batches[1..][..|older.batches|] == (older.batches + [top])[1..];
    }
  }

  lemma {:induction false} RunUnder<I, K, V>(s: KvState<I, K, V>, idr: I, steps: seq<Step<I, K, V>>)
    requires Matched(steps) && Commits(steps) <= |s.batches|
    ensures Above(Run(Next(s, Create(idr)), steps), CommitTimes(s, Commits(steps)), (idr, Dict(s.ops)), Height(steps))
    ensures |CommitTimes(s, Commits(steps)).batches| == |s.batches| - Commits(steps)
    decreases |steps|
  {
    hide Dict, Above;
    if steps == [] {
      Created(s, idr);
    } else {
      var init, last := steps[..|steps| - 1], steps[|steps| - 1];
      RunUnder(s, idr, init);
      AboveStep(Run(Next(s, Create(idr)), init), CommitTimes(s, Commits(init)), (idr, Dict(s.ops)), Height(init), last);
    }
  }

  lemma {:induction false} Created<I, K, V>(s: KvState<I, K, V>, idr: I)
    ensures Above(Next(s, Create(idr)), s, (idr, Dict(s.ops)), 0)
  {
  }

  lemma {:induction false} CommitTimesView<I, K, V>(s: KvState<I, K, V>, n: nat)
    ensures View(CommitTimes(s, n)) == View(s)
  {
    if n > 0 {
      CommitTimesView(s, n - 1);
      CommitKeepsView(CommitTimes(s, n - 1));
    }
  }

  lemma {:induction false} CommitTimesOps<I, K, V>(s: KvState<I, K, V>, n: nat)
    ensures CommitTimes(s.(ops := []), n) == CommitTimes(s, n).(ops := [])
  {
    if n > 0 { CommitTimesOps(s, n - 1); }
  }

  // ----- The class of the source -----

  class OptimisticKVStore<I(==), K(==), V> {
    var store: map<K, V>
    var unCommitted: seq<(I, map<K, V>)>
    var currentBatchOps: seq<(K, V)>

    function State(): KvState<I, K, V>
      reads this
    {
      KvState(store, unCommitted, currentBatchOps)
    }

    constructor (kvStore: map<K, V>)
      ensures State() == KvState(kvStore, [], [])
    {
      store, unCommitted, currentBatchOps := kvStore, [], [];
    }

    method CreateBatchFromCurrent(idr: I)
      modifies this
      ensures State() == Next(old(State()), Create(idr)) && View(State()) == old(View(State()))
      ensures store == old(store) && currentBatchOps == []
      ensures unCommitted == old(unCommitted) + [(idr, Dict(old(currentBatchOps)))]
    {
      CreateKeepsView(State(), idr);
      unCommitted := unCommitted + [(idr, Dict(currentBatchOps))];
      currentBatchOps := [];
    }

    /** False stands for LogicError. */
    method RejectBatch() returns (ok: bool)
      modifies this
      ensures ok <==> old(unCommitted) != []
      ensures State() == Next(old(State()), Reject)
      ensures store == old(store)
      ensures if ok then unCommitted == old(unCommitted)[..|old(unCommitted)| - 1] && currentBatchOps == []
              else unCommitted == old(unCommitted) && currentBatchOps == old(currentBatchOps)
      ensures ok ==> View(State()) == Overlay(store, old(unCommitted)[..|old(unCommitted)| - 1])
    {
      if |unCommitted| == 0 { return false; }
      currentBatchOps := [];
      unCommitted := unCommitted[..|unCommitted| - 1];
      ok := true;
    }

    /** None stands for ValueError. */
    method CommitBatch() returns (idr: Option<I>)
      modifies this
      ensures idr == if old(unCommitted) == [] then None else Some(old(unCommitted)[0].0)
      ensures State() == Next(old(State()), Commit) && View(State()) == old(View(State()))
      ensures currentBatchOps == old(currentBatchOps)
      ensures if idr.Some? then unCommitted == old(unCommitted)[1..] && store == old(store) + old(unCommitted)[0].1
              else unCommitted == [] && store == old(store)
    {
      CommitKeepsView(State());
      if unCommitted == [] { return None; }
      idr := Some(unCommitted[0].0);
      store := store + unCommitted[0].1;
      unCommitted := unCommitted[1..];
    }

    /** get: search pending operations and then batches, newest first; None stands for KeyError. */
    method Get(key: K, isCommitted: bool) returns (r: Option<V>)
      ensures isCommitted ==> r == (if key in store then Some(store[key]) else None)
      ensures !isCommitted ==> r == (if key in View(State()) then Some(View(State())[key]) else None)
    {
      if isCommitted { return if key in store then Some(store[key]) else None; }
      var i := |currentBatchOps|;
      assert currentBatchOps[..i] == currentBatchOps;
      while i > 0
        invariant 0 <= i <= |currentBatchOps|
        invariant key in Dict(currentBatchOps) <==> key in Dict(currentBatchOps[..i])
        invariant key in Dict(currentBatchOps) ==> Dict(currentBatchOps)[key] == Dict(currentBatchOps[..i])[key]
      {
        i := i - 1;
        assert currentBatchOps[..i + 1][..i] == currentBatchOps[..i];
        if currentBatchOps[i].0 == key { return Some(currentBatchOps[i].1); }
      }
      i := |unCommitted|;
      assert unCommitted[..i] == unCommitted;
      while i > 0
        invariant 0 <= i <= |unCommitted|
        invariant key in Overlay(store, unCommitted) <==> key in Overlay(store, unCommitted[..i])
        invariant key in Overlay(store, unCommitted) ==>
                    Overlay(store, unCommitted)[key] == Overlay(store, unCommitted[..i])[key]
      {
        i := i - 1;
        assert unCommitted[..i + 1][..i] == unCommitted[..i];
        if key in unCommitted[i].1 { return Some(unCommitted[i].1[key]); }
      }
      return if key in store then Some(store[key]) else None;
    }

    /** set: a committed write goes to the store, others join the batch being built. */
    method SetKey(key: K, value: V, isCommitted: bool)
      modifies this
      ensures isCommitted ==> State() == old(State()).(store := old(store)[key := value])
      ensures !isCommitted ==> State() == Next(old(State()), Set(key, value))
                               && View(State()) == old(View(State()))[key := value]
    {
      SetView(State(), key, value);
      if isCommitted {
        store := store[key := value];
      } else {
        currentBatchOps := currentBatchOps + [(key, value)];
      }
    }
  }
}
