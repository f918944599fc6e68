/**
 The single-flight cache, as the interleaving of its atomic segments: a caller runs from `get` to its first
 await, a compute task ends, a waiting caller wakes, the dependencies of entries are invalidated.
 */
module ContentCache {
  import opened Ordering
  import opened Wrappers

  type Digest = string -> string

  datatype Metrics = Metrics(hit: nat, coalesced: nat, miss: nat, stale: nat)

  datatype Store = Store(values: map<string, (string, string)>, deps: map<string, set<string>>,
                         flights: map<string, nat>, metrics: Metrics)

  function EmptyStore(): Store {
    Store(map[], map[], map[], Metrics(0, 0, 0, 0))
  }

  // ---------- The atomic segments ----------

  /** How a `get` goes on: with a value, an error, an existing task, or the task it launches. */
  datatype Start = Hit(value: string) | Corrupt | Join(task: nat) | Launch

  function StartOf(sha: Digest, st: Store, k: string): Start {
    if k in st.values then
      if sha(st.values[k].0) != st.values[k].1 then Corrupt else Hit(st.values[k].0)
    else if k in st.flights then Join(st.flights[k])
    else Launch
  }

  /** `get` up to its first await; `task` is the task it would create. */
  function AfterStart(sha: Digest, st: Store, k: string, task: nat): Store {
    match StartOf(sha, st, k)
    case Hit(_) => st.(metrics := st.metrics.(hit := st.metrics.hit + 1))
    case Corrupt => st
    case Join(_) => st.(metrics := st.metrics.(coalesced := st.metrics.coalesced + 1))
    case Launch => st.(flights := st.flights[k := task])
  }

  /** The end of `run` when `compute` returned. */
  function AfterCompute(sha: Digest, st: Store, k: string, value: string, deps: set<string>): Store {
    Store(st.values[k := (value, sha(value))], st.deps[k := deps], st.flights,
          st.metrics.(miss := st.metrics.miss + 1))
  }

  /** The `finally` of the launching caller. */
  function AfterFlight(st: Store, k: string): Store {
    st.(flights := st.flights - {k})
  }

  function Doomed(st: Store, changed: set<string>): set<string> {
    set k | k in st.deps && st.deps[k] * changed != {}
  }

  function AfterInvalidate(st: Store, changed: set<string>): Store {
    var doomed := Doomed(st, changed);
    Store(st.values - doomed, st.deps - doomed, st.flights,
          st.metrics.(stale := st.metrics.stale + |doomed|))
  }

  // ---------- The object ----------

  class Cache {
    const sha: Digest
    var values: map<string, (string, string)>
    var deps: map<string, set<string>>
    var flights: map<string, nat>
    var metrics: Metrics

    ghost function Abstract(): Store
      reads this
    {
      Store(values, deps, flights, metrics)
    }

    constructor (digest: Digest)
      ensures sha == digest && Abstract() == EmptyStore()
    {
      sha := digest;
      values, deps, flights, metrics := map[], map[], map[], Metrics(0, 0, 0, 0);
    }

    method BeginGet(k: string, task: nat) returns (start: Start)
      modifies this
      ensures start == StartOf(sha, old(Abstract()), k)
      ensures k in old(values) ==>
                start == if sha(old(values)[k].0) == old(values)[k].1 then Hit(old(values)[k].0) else Corrupt
      ensures Abstract() == AfterStart(sha, old(Abstract()), k, task)
    {
      if k in values {
        var (value, digest) := values[k];
        if sha(value) != digest {
          return Corrupt;
        }
        metrics := metrics.(hit := metrics.hit + 1);
        return Hit(value);
      }
      if k in flights {
        metrics := metrics.(coalesced := metrics.coalesced + 1);
        return Join(flights[k]);
      }
      flights := flights[k := task];
      start := Launch;
    }

    method FinishCompute(k: string, value: string, needs: set<string>)
      modifies this
      ensures Abstract() == AfterCompute(sha, old(Abstract()), k, value, needs)
    {
      values := values[k := (value, sha(value))];
      deps := deps[k := needs];
      metrics := metrics.(miss := metrics.miss + 1);
    }

    method EndFlight(k: string)
      modifies this
      ensures Abstract() == AfterFlight(old(Abstract()), k)
    {
      flights := flights - {k};
    }

    /** `invalidate`: the doomed keys are dropped, and returned in order. */
    method Invalidate(changed: set<string>) returns (doomed: seq<string>)
      modifies this
      ensures Abstract() == AfterInvalidate(old(Abstract()), changed)
      ensures Sorted(StringLe, doomed) && |doomed| == |Doomed(old(Abstract()), changed)|
      ensures forall k :: k in doomed <==> k in Doomed(old(Abstract()), changed)
    {
      var all := set k | k in deps && deps[k] * changed != {};
      var rest := all;
      ghost var done: set<string> := {};
      while rest != {}
        invariant rest + done == all
        invariant values == old(values) - done && deps == old(deps) - done
        invariant flights == old(flights) && metrics == old(metrics)
        decreases |rest|
      {
        var k :| k in rest;
        OneLess(old(values), done, k);
        OneLess(old(deps), done, k);
        values, deps := values - {k}, deps - {k};
        rest, done := rest - {k}, done + {k};
      }
      metrics := metrics.(stale := metrics.stale + |all|);
      doomed := SortedKeys(all);
    }

    /** The `requests` of `receipt`: whatever run led here, the calls of `get` only under the condition stated. */
    method Receipt() returns (requests: nat)
      ensures requests == Requests(metrics)
      ensures forall steps | Run(sha, steps).store == Abstract() ::
        (requests == |Run(sha, steps).callers|
         <==> metrics.stale == Count(Run(sha, steps).tasks, false) + Count(Run(sha, steps).tasks, true))
    {
      requests := metrics.hit + metrics.coalesced + metrics.miss + metrics.stale;
      forall steps | Run(sha, steps).store == Abstract()
        ensures requests == |Run(sha, steps).callers|
                <==> metrics.stale == Count(Run(sha, steps).tasks, false) + Count(Run(sha, steps).tasks, true)
      {
        RequestsAreCallsIff(sha, steps);
      }
    }
  }

  lemma OneLess<V>(m: map<string, V>, done: set<string>, k: string)
    ensures m - done - {k} == m - (done + {k})
  {
  }

  // ---------- Interleavings ----------

  datatype Task = Running(key: string, deps: set<string>) | Done(key: string, value: string) | Broken(key: string)

  datatype Caller =
    | Launching(key: string, task: nat) | Waiting(key: string, task: nat)
    | Returned(key: string, value: string) | Raised(key: string)

  /** What the history records, for the properties over whole runs. */
  datatype Event =
    | Launched(key: string) | Stored(key: string, deps: set<string>) | Crashed(key: string)
    | Changed(names: set<string>)

  datatype System = System(store: Store, tasks: seq<Task>, callers: seq<Caller>, history: seq<Event>)

  /** A caller calls `get`, a task ends, a caller wakes after its task has ended, entries are invalidated. */
  datatype Step =
    | Get(key: string, deps: set<string>) | Complete(task: nat, value: string) | Fail(task: nat)
    | Wake(caller: nat) | Invalidate(changed: set<string>)

  function Initial(): System {
    System(EmptyStore(), [], [], [])
  }

  predicate Pending(s: System, c: nat) {
    c < |s.callers| && (s.callers[c].Launching? || s.callers[c].Waiting?)
  }

  predicate Enabled(s: System, step: Step) {
    match step
    case Get(_, _) => true
    case Complete(t, _) => t < |s.tasks| && s.tasks[t].Running?
    case Fail(t) => t < |s.tasks| && s.tasks[t].Running?
    case Wake(c) => Pending(s, c) && s.callers[c].task < |s.tasks| && !s.tasks[s.callers[c].task].Running?
    case Invalidate(_) => true
  }

  function Outcome(task: Task): Caller
    requires !task.Running?
  {
    if task.Done? then Returned(task.key, task.value) else Raised(task.key)
  }

  function DoGet(sha: Digest, s: System, k: string, deps: set<string>): System {
    var store := AfterStart(sha, s.store, k, |s.tasks|);
    match StartOf(sha, s.store, k)
    case Hit(v) => s.(store := store, callers := s.callers + [Returned(k, v)])
    case Corrupt => s.(store := store, callers := s.callers + [Raised(k)])
    case Join(t) => s.(store := store, callers := s.callers + [Waiting(k, t)])
    case Launch =>
      System(store, s.tasks + [Running(k, deps)], s.callers + [Launching(k, |s.tasks|)], s.history + [Launched(k)])
  }

  function Next(sha: Digest, s: System, step: Step): System {
    if !Enabled(s, step) then s
    else
      match step
      case Get(k, deps) => DoGet(sha, s, k, deps)
      case Complete(t, v) =>
        var k, deps := s.tasks[t].key, s.tasks[t].deps;
        System(AfterCompute(sha, s.store, k, v, deps), s.tasks[t := Done(k, v)], s.callers,
               s.history + [Stored(k, deps)])
      case Fail(t) =>
        var k := s.tasks[t].key;
        s.(tasks := s.tasks[t := Broken(k)], history := s.history + [Crashed(k)])
      case Wake(c) =>
        var caller := s.callers[c];
        s.(callers := s.callers[c := Outcome(s.tasks[caller.task])],
           store := if caller.Launching? then AfterFlight(s.store, caller.key) else s.store)
      case Invalidate(changed) =>
        s.(store := AfterInvalidate(s.store, changed), history := s.history + [Changed(changed)])
  }

  function Run(sha: Digest, steps: seq<Step>): System {
    if steps == [] then Initial() else Next(sha, Run(sha, steps[..|steps| - 1]), steps[|steps| - 1])
  }

  // ---------- Invariants ----------

  /** Values and dependencies have the same keys, and every value its digest. */
  ghost predicate StoreInv(sha: Digest, s: System) {
    s.store.values.Keys == s.store.deps.Keys
    && forall k | k in s.store.values :: s.store.values[k].1 == sha(s.store.values[k].0)
  }

  predicate TaskFor(tasks: seq<Task>, t: nat, k: string) {
    t < |tasks| && tasks[t].key == k
  }

  predicate CallerOk(flights: map<string, nat>, tasks: seq<Task>, caller: Caller) {
    match caller
    case Launching(k, t) => k in flights && flights[k] == t
    case Waiting(k, t) => TaskFor(tasks, t, k)
    case _ => true
  }

  ghost predicate CallersOk(flights: map<string, nat>, tasks: seq<Task>, callers: seq<Caller>) {
    forall c {:trigger callers[c]} | 0 <= c < |callers| :: CallerOk(flights, tasks, callers[c])
  }

  ghost predicate FlightsOk(flights: map<string, nat>, tasks: seq<Task>, callers: seq<Caller>) {
    forall k | k in flights :: TaskFor(tasks, flights[k], k) && Caller.Launching(k, flights[k]) in callers
  }

  ghost predicate OneLauncher(callers: seq<Caller>) {
    forall c, d {:trigger callers[c], callers[d]} | 0 <= c < d < |callers| ::
      callers[c].Launching? && callers[d].Launching? ==> callers[c].key != callers[d].key
  }

  /** A key is in flight exactly while its one launcher waits, and the flight is the launcher's own task. */
  ghost predicate FlightInv(s: System) {
    && CallersOk(s.store.flights, s.tasks, s.callers) && FlightsOk(s.store.flights, s.tasks, s.callers)
    && OneLauncher(s.callers)
  }

  /** A running task is the flight of its key, which has no value yet. */
  ghost predicate RunningInv(s: System) {
    forall t {:trigger s.tasks[t]} | 0 <= t < |s.tasks| && s.tasks[t].Running? ::
      s.tasks[t].key in s.store.flights && s.store.flights[s.tasks[t].key] == t && s.tasks[t].key !in s.store.values
  }

  /** A caller that launches nothing joins. */
  lemma AddCaller(s: System, caller: Caller, store: Store)
    requires FlightInv(s) && store.flights == s.store.flights && !caller.Launching?
    requires CallerOk(s.store.flights, s.tasks, caller)
    ensures FlightInv(s.(store := store, callers := s.callers + [caller]))
  {
    hide CallerOk, TaskFor;
  }

  /** A launcher joins with its new task. */
  lemma AddFlight(flights: map<string, nat>, tasks: seq<Task>, callers: seq<Caller>, k: string, task: Task)
    requires CallersOk(flights, tasks, callers) && FlightsOk(flights, tasks, callers) && OneLauncher(callers)
    requires k !in flights && task.key == k
    ensures var f, ts, cs := flights[k := |tasks|], tasks + [task], callers + [Caller.Launching(k, |tasks|)];
            CallersOk(f, ts, cs) && FlightsOk(f, ts, cs) && OneLauncher(cs)
  {
    var n := |callers|;
    var f, ts, cs := flights[k := |tasks|], tasks + [task], callers + [Caller.Launching(k, |tasks|)];
    assert CallersOk(f, ts, cs) by {
      forall c {:trigger cs[c]} | 0 <= c < |cs| ensures CallerOk(f, ts, cs[c]) {
        assert c < n ==> cs[c] == callers[c] && CallerOk(flights, tasks, callers[c]);
      }
    }
    assert FlightsOk(f, ts, cs) by {
      assert cs[n] == Caller.Launching(k, |tasks|);
      forall j | j in f ensures TaskFor(ts, f[j], j) && Caller.Launching(j, f[j]) in cs {
        assert j != k ==> TaskFor(tasks, flights[j], j) && Caller.Launching(j, flights[j]) in callers;
      }
    }
    assert OneLauncher(cs) by {
      forall c | 0 <= c < n ensures callers[c].Launching? ==> callers[c].key != k {
        assert CallerOk(flights, tasks, callers[c]);
      }
    }
  }

  /** A task ends. */
  lemma EndTask(s: System, t: nat, task: Task)
    requires FlightInv(s) && t < |s.tasks| && task.key == s.tasks[t].key
    ensures var ts := s.tasks[t := task];
            CallersOk(s.store.flights, ts, s.callers) && FlightsOk(s.store.flights, ts, s.callers)
  {
    var ts := s.tasks[t := task];
    assert forall u: nat, k {:trigger TaskFor(ts, u, k)} :: TaskFor(ts, u, k) <==> TaskFor(s.tasks, u, k);
    forall c {:trigger s.callers[c]} | 0 <= c < |s.callers| ensures CallerOk(s.store.flights, ts, s.callers[c]) {
      assert CallerOk(s.store.flights, s.tasks, s.callers[c]);
    }
  }

  /** A waiting caller leaves. */
  lemma LeaveWaiting(s: System, c: nat, outcome: Caller)
    requires FlightInv(s) && c < |s.callers| && !s.callers[c].Launching? && (outcome.Returned? || outcome.Raised?)
    ensures FlightInv(s.(callers := s.callers[c := outcome]))
  {
    hide TaskFor;
    var cs := s.callers[c := outcome];
    assert forall d {:trigger cs[d]} | 0 <= d < |cs| :: cs[d] == if d == c then outcome else s.callers[d];
    forall k | k in s.store.flights ensures Caller.Launching(k, s.store.flights[k]) in cs {
      assert Caller.Launching(k, s.store.flights[k]) in s.callers;
      var d :| 0 <= d < |s.callers| && s.callers[d] == Caller.Launching(k, s.store.flights[k]);
      assert cs[d] == s.callers[d];
    }
  }

  /** A launcher leaves and takes its flight with it; the flights of the others stay. */
  lemma LeaveLaunching(s: System, c: nat, outcome: Caller)
    requires FlightInv(s) && c < |s.callers| && s.callers[c].Launching? && (outcome.Returned? || outcome.Raised?)
    ensures s.callers[c].key in s.store.flights && s.store.flights[s.callers[c].key] == s.callers[c].task
    ensures FlightInv(s.(callers := s.callers[c := outcome], store := AfterFlight(s.store, s.callers[c].key)))
  {
    hide TaskFor;
    var k, cs := s.callers[c].key, s.callers[c := outcome];
    var f := s.store.flights - {k};
    assert CallerOk(s.store.flights, s.tasks, s.callers[c]);
    assert forall d {:trigger cs[d]} | 0 <= d < |cs| :: cs[d] == if d == c then outcome else s.callers[d];
    forall d {:trigger cs[d]} | 0 <= d < |cs| ensures CallerOk(f, s.tasks, cs[d]) {
      assert d != c ==> CallerOk(s.store.flights, s.tasks, s.callers[d]);
    }
    forall j | j in f ensures TaskFor(s.tasks, f[j], j) && Caller.Launching(j, f[j]) in cs {
      assert Caller.Launching(j, s.store.flights[j]) in s.callers;
      var d :| 0 <= d < |s.callers| && s.callers[d] == Caller.Launching(j, s.store.flights[j]);
      assert cs[d] == s.callers[d];
    }
  }

  ghost predicate Inv(sha: Digest, s: System) {
    StoreInv(sha, s) && FlightInv(s) && RunningInv(s)
  }

  lemma GetKeepsInv(sha: Digest, s: System, k: string, deps: set<string>)
    requires Inv(sha, s)
    ensures Inv(sha, DoGet(sha, s, k, deps))
  {
    hide CallersOk, FlightsOk, OneLauncher;
    match StartOf(sha, s.store, k) {
      case Hit(v) => AddCaller(s, Returned(k, v), AfterStart(sha, s.store, k, |s.tasks|));
      case Corrupt => assert false;
      case Join(t) =>
        FlightTask(s, k);
        AddCaller(s, Waiting(k, t), AfterStart(sha, s.store, k, |s.tasks|));
      case Launch => AddFlight(s.store.flights, s.tasks, s.callers, k, Running(k, deps));
    }
  }

  lemma FlightTask(s: System, k: string)
    requires FlightInv(s) && k in s.store.flights
    ensures TaskFor(s.tasks, s.store.flights[k], k)
  {
  }

  lemma EndKeepsInv(sha: Digest, s: System, step: Step)
    requires Inv(sha, s) && (step.Complete? || step.Fail?)
    ensures Inv(sha, Next(sha, s, step))
  {
    hide CallersOk, FlightsOk, OneLauncher;
    if Enabled(s, step) {
      var k := s.tasks[step.task].key;
      EndTask(s, step.task, if step.Complete? then Done(k, step.value) else Broken(k));
    }
  }

  lemma WakeKeepsInv(sha: Digest, s: System, c: nat)
    requires Inv(sha, s)
    ensures Inv(sha, Next(sha, s, Wake(c)))
  {
    hide CallersOk, FlightsOk, OneLauncher;
    if Enabled(s, Wake(c)) {
      var outcome := Outcome(s.tasks[s.callers[c].task]);
      if s.callers[c].Launching? {
        LeaveLaunching(s, c, outcome);
      } else {
        LeaveWaiting(s, c, outcome);
      }
    }
  }

  lemma StepKeepsInv(sha: Digest, s: System, step: Step)
    requires Inv(sha, s)
    ensures Inv(sha, Next(sha, s, step))
  {
    match step
    case Get(k, deps) =>
      GetKeepsInv(sha, s, k, deps);
    case Complete(_, _) =>
      EndKeepsInv(sha, s, step);
    case Fail(_) =>
      EndKeepsInv(sha, s, step);
    case Wake(c) =>
      WakeKeepsInv(sha, s, c);
    case Invalidate(changed) =>
  }

  /** Single flight, in every interleaving. */
  lemma {:induction false} RunInv(sha: Digest, steps: seq<Step>)
    ensures Inv(sha, Run(sha, steps))
  {
    if steps != [] {
      RunInv(sha, steps[..|steps| - 1]);
      StepKeepsInv(sha, Run(sha, steps[..|steps| - 1]), steps[|steps| - 1]);
    }
  }

  /** What the invariant says about one key: one launcher at most, one running compute at most, its own flight. */
  lemma SingleFlight(sha: Digest, steps: seq<Step>, k: string)
    ensures var s := Run(sha, steps);
            && (forall t, u | 0 <= t < |s.tasks| && 0 <= u < |s.tasks| && s.tasks[t].Running? && s.tasks[u].Running?
                              && s.tasks[t].key == k == s.tasks[u].key :: t == u)
            && (forall c, d | 0 <= c < |s.callers| && 0 <= d < |s.callers| && s.callers[c].Launching?
                              && s.callers[d].Launching? && s.callers[c].key == k == s.callers[d].key :: c == d)
            && (k in s.store.flights <==>
                  exists c :: 0 <= c < |s.callers| && s.callers[c].Launching? && s.callers[c].key == k)
            && (forall c | 0 <= c < |s.callers| && s.callers[c].Launching? && s.callers[c].key == k ::
                  k in s.store.flights && s.store.flights[k] == s.callers[c].task)
            && (k in s.store.values <==> k in s.store.deps)
  {
    hide Run, TaskFor;
    RunInv(sha, steps);
    var s := Run(sha, steps);
    assert k in s.store.values.Keys <==> k in s.store.deps.Keys;
    forall c | 0 <= c < |s.callers| && s.callers[c].Launching? && s.callers[c].key == k
      ensures k in s.store.flights && s.store.flights[k] == s.callers[c].task
    {
      assert CallerOk(s.store.flights, s.tasks, s.callers[c]);
    }
    if k in s.store.flights {
      assert Caller.Launching(k, s.store.flights[k]) in s.callers;
      var c :| 0 <= c < |s.callers| && s.callers[c] == Caller.Launching(k, s.store.flights[k]);
    }
  }

  /** A launcher that wakes removes no flight but its own. */
  lemma LauncherRemovesOwnFlight(sha: Digest, steps: seq<Step>, c: nat, k: string)
    requires var s := Run(sha, steps); Enabled(s, Wake(c)) && s.callers[c].Launching?
    ensures var s := Run(sha, steps);
            var after := Next(sha, s, Wake(c)).store.flights;
            && s.callers[c].key in s.store.flights && s.store.flights[s.callers[c].key] == s.callers[c].task
            && (k in after <==> k in s.store.flights && s.store.flights[k] != s.callers[c].task)
            && (k in after ==> after[k] == s.store.flights[k])
  {
    hide Run;
    var s := Run(sha, steps);
    RunInv(sha, steps);
    assert CallerOk(s.store.flights, s.tasks, s.callers[c]);
    assert k in s.store.flights ==> TaskFor(s.tasks, s.store.flights[k], k);
    assert TaskFor(s.tasks, s.callers[c].task, s.callers[c].key);
  }

  /** No caller is stuck: as long as one waits, its task can end or the caller can wake. */
  lemma NeverStuck(sha: Digest, steps: seq<Step>, c: nat, value: string)
    requires Pending(Run(sha, steps), c)
    ensures var s := Run(sha, steps);
            Enabled(s, Wake(c)) || Enabled(s, Complete(s.callers[c].task, value))
  {
    hide Run;
    var s := Run(sha, steps);
    RunInv(sha, steps);
    assert CallerOk(s.store.flights, s.tasks, s.callers[c]);
    if s.callers[c].Launching? {
      FlightTask(s, s.callers[c].key);
    }
  }

  // ---------- Where values come from ----------

  /** Stored and returned values are results of tasks for their key. */
  ghost predicate Sourced(s: System) {
    && (forall k | k in s.store.values :: Done(k, s.store.values[k].0) in s.tasks)
    && (forall c {:trigger s.callers[c]} | 0 <= c < |s.callers| && s.callers[c].Returned? ::
          Done(s.callers[c].key, s.callers[c].value) in s.tasks)
  }

  lemma DoneStays(tasks: seq<Task>, t: nat, task: Task, done: Task)
    requires t < |tasks| && tasks[t].Running? && done.Done? && done in tasks
    ensures done in tasks[t := task]
  {
    var u :| 0 <= u < |tasks| && tasks[u] == done;
    assert tasks[t := task][u] == done;
  }

  lemma EndKeepsSourced(sha: Digest, s: System, step: Step)
    requires Sourced(s) && (step.Complete? || step.Fail?)
    ensures Sourced(Next(sha, s, step))
  {
    if Enabled(s, step) {
      var u := Next(sha, s, step);
      var t, k := step.task, s.tasks[step.task].key;
      var task := if step.Complete? then Done(k, step.value) else Broken(k);
      assert u.tasks == s.tasks[t := task] && u.tasks[t] == task;
      forall j | j in u.store.values ensures Done(j, u.store.values[j].0) in u.tasks {
        if step.Fail? || j != k {
          DoneStays(s.tasks, t, task, Done(j, s.store.values[j].0));
        }
      }
      forall c {:trigger s.callers[c]} | 0 <= c < |s.callers| && s.callers[c].Returned?
        ensures Done(s.callers[c].key, s.callers[c].value) in u.tasks
      {
        DoneStays(s.tasks, t, task, Done(s.callers[c].key, s.callers[c].value));
      }
    }
  }

  lemma StepKeepsSourced(sha: Digest, s: System, step: Step)
    requires Sourced(s)
    ensures Sourced(Next(sha, s, step))
  {
    match step
    case Get(k, deps) =>
      var u := DoGet(sha, s, k, deps);
      assert forall done | done in s.tasks :: done in u.tasks;
    case Complete(_, _) =>
      EndKeepsSourced(sha, s, step);
    case Fail(_) =>
      EndKeepsSourced(sha, s, step);
    case Wake(c) =>
    case Invalidate(changed) =>
  }

  /** Every completed task in the run used this function. */
  predicate Computes(f: string -> string, tasks: seq<Task>) {
    forall t {:trigger tasks[t]} | 0 <= t < |tasks| && tasks[t].Done? :: tasks[t].value == f(tasks[t].key)
  }

  /** When compute is a function of the key, every successful `get` returns its value, hit or not. */
  lemma {:induction false} GetReturnsF(sha: Digest, steps: seq<Step>, f: string -> string)
    requires Computes(f, Run(sha, steps).tasks)
    ensures forall c {:trigger Run(sha, steps).callers[c]} | 0 <= c < |Run(sha, steps).callers| ::
              Run(sha, steps).callers[c].Returned? ==>
                Run(sha, steps).callers[c].value == f(Run(sha, steps).callers[c].key)
  {
    hide Run;
    RunSourced(sha, steps);
    var s := Run(sha, steps);
    forall c | 0 <= c < |s.callers| && s.callers[c].Returned? ensures s.callers[c].value == f(s.callers[c].key) {
      var t :| 0 <= t < |s.tasks| && s.tasks[t] == Done(s.callers[c].key, s.callers[c].value);
    }
  }

  lemma {:induction false} RunSourced(sha: Digest, steps: seq<Step>)
    ensures Sourced(Run(sha, steps))
  {
    if steps != [] {
      RunSourced(sha, steps[..|steps| - 1]);
      StepKeepsSourced(sha, Run(sha, steps[..|steps| - 1]), steps[|steps| - 1]);
    }
  }

  // ---------- The cache as a simple map over the history ----------

  datatype KeyState = Absent | Flying | Held(deps: set<string>)

  /** What the history alone says about one key. */
  function StateOf(history: seq<Event>, k: string): KeyState {
    if history == [] then Absent
    else
      var before := StateOf(history[..|history| - 1], k);
      match history[|history| - 1]
      case Launched(j) => if j == k then Flying else before
      case Stored(j, deps) => if j == k then Held(deps) else before
      case Crashed(j) => if j == k then Absent else before
      case Changed(names) => if before.Held? && before.deps * names != {} then Absent else before
  }

  predicate IsFlying(s: System, k: string) {
    k in s.store.flights && s.store.flights[k] < |s.tasks| && s.tasks[s.store.flights[k]].Running?
  }

  /** The state of the key is what the history says. */
  predicate Agrees(s: System, k: string) {
    && (k in s.store.deps <==> StateOf(s.history, k).Held?)
    && (k in s.store.deps ==> StateOf(s.history, k) == Held(s.store.deps[k]))
    && (IsFlying(s, k) <==> StateOf(s.history, k).Flying?)
  }

  lemma StateSnoc(history: seq<Event>, e: Event, k: string)
    ensures StateOf(history + [e], k) ==
            match e
            case Launched(j) => if j == k then Flying else StateOf(history, k)
            case Stored(j, deps) => if j == k then Held(deps) else StateOf(history, k)
            case Crashed(j) => if j == k then Absent else StateOf(history, k)
            case Changed(names) =>
              if StateOf(history, k).Held? && StateOf(history, k).deps * names != {} then Absent
              else StateOf(history, k)
  {
    assert (history + [e])[..|history|] == history;
  }

  lemma GetAgrees(sha: Digest, s: System, j: string, deps: set<string>, k: string)
    requires Inv(sha, s) && Agrees(s, k)
    ensures Agrees(Next(sha, s, Get(j, deps)), k)
  {
    hide StateOf, CallersOk, OneLauncher;
    StateSnoc(s.history, Launched(j), k);
  }

  lemma EndAgrees(sha: Digest, s: System, t: nat, step: Step, k: string)
    requires Inv(sha, s) && Agrees(s, k) && Enabled(s, step)
    requires step == Step.Fail(t) || (step.Complete? && step.task == t)
    ensures Agrees(Next(sha, s, step), k)
  {
    hide StateOf, CallersOk, OneLauncher;
    StateSnoc(s.history, Crashed(s.tasks[t].key), k);
    StateSnoc(s.history, Stored(s.tasks[t].key, s.tasks[t].deps), k);
  }

  lemma WakeAgrees(sha: Digest, s: System, c: nat, k: string)
    requires Inv(sha, s) && Agrees(s, k) && Enabled(s, Wake(c))
    ensures Agrees(Next(sha, s, Wake(c)), k)
  {
    hide StateOf, OneLauncher, FlightsOk;
    assert CallerOk(s.store.flights, s.tasks, s.callers[c]);
  }

  lemma InvalidateAgrees(sha: Digest, s: System, changed: set<string>, k: string)
    requires Agrees(s, k)
    ensures Agrees(Next(sha, s, Invalidate(changed)), k)
  {
    hide StateOf;
    StateSnoc(s.history, Changed(changed), k);
  }

  lemma StepAgrees(sha: Digest, s: System, step: Step, k: string)
    requires Inv(sha, s) && Agrees(s, k)
    ensures Agrees(Next(sha, s, step), k)
  {
    hide Agrees, Inv;
    if Enabled(s, step) {
      match step
      case Get(j, deps) => GetAgrees(sha, s, j, deps, k);
      case Complete(t, _) => EndAgrees(sha, s, t, step, k);
      case Fail(t) => EndAgrees(sha, s, t, step, k);
      case Wake(c) => WakeAgrees(sha, s, c, k);
      case Invalidate(changed) => InvalidateAgrees(sha, s, changed, k);
    }
  }

  lemma {:induction false} RunAgrees(sha: Digest, steps: seq<Step>, k: string)
    ensures Agrees(Run(sha, steps), k)
  {
    if steps != [] {
      RunAgrees(sha, steps[..|steps| - 1], k);
      RunInv(sha, steps[..|steps| - 1]);
      StepAgrees(sha, Run(sha, steps[..|steps| - 1]), steps[|steps| - 1], k);
    }
  }

  /**
   In every run a `get` is a hit if and only if the key was stored and nothing it depends on was invalidated
   since; a stored value is never found corrupt, and a task is launched only for a key that is neither held
   nor in flight.
   */
  lemma HitIffHeld(sha: Digest, steps: seq<Step>, k: string)
    ensures var s := Run(sha, steps);
            && (StartOf(sha, s.store, k).Hit? <==> StateOf(s.history, k).Held?)
            && !StartOf(sha, s.store, k).Corrupt?
            && (StartOf(sha, s.store, k).Launch? ==> StateOf(s.history, k) == Absent)
  {
    hide Run, StateOf, FlightInv, RunningInv;
    RunInv(sha, steps);
    RunAgrees(sha, steps, k);
    var s := Run(sha, steps);
    assert k in s.store.values.Keys <==> k in s.store.deps.Keys;
  }

  ghost predicate LaunchesWhenAbsent(history: seq<Event>) {
    forall i | 0 <= i < |history| && history[i].Launched? :: StateOf(history[..i], history[i].key) == Absent
  }

  lemma {:induction false} RunLaunches(sha: Digest, steps: seq<Step>)
    ensures LaunchesWhenAbsent(Run(sha, steps).history)
  {
    hide StateOf, StartOf;
    if steps != [] {
      var front, last := steps[..|steps| - 1], steps[|steps| - 1];
      RunLaunches(sha, front);
      var s, u := Run(sha, front), Run(sha, steps);
      if last.Get? {
        HitIffHeld(sha, front, last.key);
      }
      forall i | 0 <= i < |u.history| && u.history[i].Launched?
        ensures StateOf(u.history[..i], u.history[i].key) == Absent
      {
        if i < |s.history| {
          assert u.history[..i] == s.history[..i] && u.history[i] == s.history[i];
        } else {
          assert u.history[..i] == s.history;
        }
      }
    }
  }

  /** The event takes the key out of flight or out of the cache. */
  predicate Removes(history: seq<Event>, m: nat, k: string)
    requires m < |history|
  {
    match history[m]
    case Crashed(j) => j == k
    case Changed(names) => StateOf(history[..m], k).Held? && StateOf(history[..m], k).deps * names != {}
    case _ => false
  }

  lemma {:induction false} AbsentHasReason(history: seq<Event>, k: string, i: nat, j: nat) returns (m: nat)
    requires i < j <= |history| && history[i] == Launched(k) && StateOf(history[..j], k) == Absent
    ensures i < m < j && Removes(history, m, k)
    decreases j
  {
    assert history[..j][..j - 1] == history[..j - 1];
    if i < j - 1 && StateOf(history[..j - 1], k) == Absent {
      m := AbsentHasReason(history, k, i, j - 1);
    } else {
      m := j - 1;
    }
  }

  /**
   A key is computed again only for a reason: between two launches of it lies the failure of its task or an
   invalidation that dropped its entry.
   */
  lemma LaunchesApart(sha: Digest, steps: seq<Step>, k: string, i: nat, j: nat) returns (m: nat)
    requires var h := Run(sha, steps).history; i < j < |h| && h[i] == h[j] == Launched(k)
    ensures i < m < j && Removes(Run(sha, steps).history, m, k)
  {
    hide Run, StateOf, Removes;
    RunLaunches(sha, steps);
    m := AbsentHasReason(Run(sha, steps).history, k, i, j);
  }

  // ---------- What an invalidation reaches ----------

  /** A key that has a value while it is in flight got it from that flight. */
  predicate Landed(s: System, k: string) {
    k in s.store.values && k in s.store.flights ==>
      s.store.flights[k] < |s.tasks| && s.tasks[s.store.flights[k]] == Done(k, s.store.values[k].0)
  }

  lemma StepLanded(sha: Digest, s: System, step: Step, k: string)
    requires Inv(sha, s) && Landed(s, k)
    ensures Landed(Next(sha, s, step), k)
  {
    hide FlightInv;
  }

  lemma {:induction false} RunLanded(sha: Digest, steps: seq<Step>, k: string)
    ensures Landed(Run(sha, steps), k)
  {
    if steps != [] {
      var front := steps[..|steps| - 1];
      RunLanded(sha, front, k);
      RunInv(sha, front);
      StepLanded(sha, Run(sha, front), steps[|steps| - 1], k);
    }
  }

  /**
   Exactly when a key is computed afresh after an invalidation. In every run the next `get` launches a compute
   if and only if the key is not in flight and its value, if any, was dropped. A dropped key in flight is joined
   instead: its task has ended, its launcher has not woken, and the task still holds the dropped value.
   */
  lemma RecomputesIff(sha: Digest, steps: seq<Step>, names: set<string>, k: string)
    ensures var s := Run(sha, steps);
            var start := StartOf(sha, AfterInvalidate(s.store, names), k);
            && (start.Launch? <==> k !in s.store.flights && (k in s.store.values ==> k in Doomed(s.store, names)))
            && (k in Doomed(s.store, names) && k in s.store.flights ==>
                  start == Join(s.store.flights[k]) && k in s.store.values
                  && s.store.flights[k] < |s.tasks| && s.tasks[s.store.flights[k]] == Done(k, s.store.values[k].0))
  {
    hide Run, FlightInv, RunningInv;
    RunInv(sha, steps);
    RunLanded(sha, steps, k);
    var s := Run(sha, steps);
    assert k in s.store.values.Keys <==> k in s.store.deps.Keys;
  }

  /** The value is what a task from the n-th on computed for the key. */
  predicate ComputedSince(tasks: seq<Task>, n: nat, k: string, value: string) {
    exists t :: n <= t < |tasks| && tasks[t] == Done(k, value)
  }

  predicate CallerSince(tasks: seq<Task>, n: nat, k: string, caller: Caller) {
    caller.key == k ==>
      && ((caller.Launching? || caller.Waiting?) ==> n <= caller.task)
      && (caller.Returned? ==> ComputedSince(tasks, n, k, caller.value))
  }

  /** The cache and the callers from the m-th on know the key only from tasks from the n-th on. */
  ghost predicate OnlySince(s: System, n: nat, m: nat, k: string) {
    && n <= |s.tasks| && m <= |s.callers|
    && (k in s.store.values ==> ComputedSince(s.tasks, n, k, s.store.values[k].0))
    && (k in s.store.flights ==> n <= s.store.flights[k])
    && forall c {:trigger s.callers[c]} | m <= c < |s.callers| :: CallerSince(s.tasks, n, k, s.callers[c])
  }

  /** Tasks are only added, and one that is done stays as it is. */
  predicate Extends(before: seq<Task>, after: seq<Task>) {
    |before| <= |after| && forall t | 0 <= t < |before| && before[t].Done? :: after[t] == before[t]
  }

  lemma SinceStays(before: seq<Task>, after: seq<Task>, n: nat, k: string, value: string)
    requires Extends(before, after) && ComputedSince(before, n, k, value)
    ensures ComputedSince(after, n, k, value)
  {
    var t :| n <= t < |before| && before[t] == Done(k, value);
    assert after[t] == Done(k, value);
  }

  lemma CallersStay(s: System, tasks: seq<Task>, n: nat, m: nat, k: string)
    requires OnlySince(s, n, m, k) && Extends(s.tasks, tasks)
    ensures forall c {:trigger s.callers[c]} | m <= c < |s.callers| :: CallerSince(tasks, n, k, s.callers[c])
    ensures k in s.store.values ==> ComputedSince(tasks, n, k, s.store.values[k].0)
  {
    hide Extends, ComputedSince;
    if k in s.store.values {
      SinceStays(s.tasks, tasks, n, k, s.store.values[k].0);
    }
    forall c {:trigger s.callers[c]} | m <= c < |s.callers| ensures CallerSince(tasks, n, k, s.callers[c]) {
      var caller := s.callers[c];
      assert CallerSince(s.tasks, n, k, caller);
      if caller.key == k && caller.Returned? {
        SinceStays(s.tasks, tasks, n, k, caller.value);
      }
    }
  }

  lemma GetOnlySince(sha: Digest, s: System, j: string, deps: set<string>, n: nat, m: nat, k: string)
    requires OnlySince(s, n, m, k)
    ensures OnlySince(DoGet(sha, s, j, deps), n, m, k)
  {
    hide ComputedSince;
    var u := DoGet(sha, s, j, deps);
    CallersStay(s, u.tasks, n, m, k);
    forall c {:trigger u.callers[c]} | m <= c < |u.callers| ensures CallerSince(u.tasks, n, k, u.callers[c]) {
      assert c < |s.callers| ==> u.callers[c] == s.callers[c];
    }
  }

  lemma CompleteOnlySince(sha: Digest, s: System, t: nat, value: string, n: nat, m: nat, k: string)
    requires RunningInv(s) && OnlySince(s, n, m, k) && Enabled(s, Complete(t, value))
    ensures OnlySince(Next(sha, s, Complete(t, value)), n, m, k)
  {
    var u := Next(sha, s, Complete(t, value));
    CallersStay(s, u.tasks, n, m, k);
    if s.tasks[t].key == k {
      assert u.tasks[t] == Done(k, value) && n <= t;
    }
  }

  lemma FailOnlySince(sha: Digest, s: System, t: nat, n: nat, m: nat, k: string)
    requires OnlySince(s, n, m, k) && Enabled(s, Step.Fail(t))
    ensures OnlySince(Next(sha, s, Step.Fail(t)), n, m, k)
  {
    CallersStay(s, Next(sha, s, Step.Fail(t)).tasks, n, m, k);
  }

  lemma WakeOnlySince(sha: Digest, s: System, c: nat, n: nat, m: nat, k: string)
    requires FlightInv(s) && OnlySince(s, n, m, k) && Enabled(s, Wake(c))
    ensures OnlySince(Next(sha, s, Wake(c)), n, m, k)
  {
    var u := Next(sha, s, Wake(c));
    var caller := s.callers[c];
    assert CallerOk(s.store.flights, s.tasks, caller);
    assert caller.Launching? ==> TaskFor(s.tasks, s.store.flights[caller.key], caller.key);
    assert m <= c ==> CallerSince(s.tasks, n, k, caller);
    assert s.tasks[caller.task].key == caller.key;
    if s.tasks[caller.task].Done? && n <= caller.task {
      assert ComputedSince(s.tasks, n, caller.key, s.tasks[caller.task].value);
    }
    forall d {:trigger u.callers[d]} | m <= d < |u.callers| ensures CallerSince(u.tasks, n, k, u.callers[d]) {
      assert d != c ==> u.callers[d] == s.callers[d];
    }
  }

  lemma StepOnlySince(sha: Digest, s: System, step: Step, n: nat, m: nat, k: string)
    requires Inv(sha, s) && OnlySince(s, n, m, k)
    ensures OnlySince(Next(sha, s, step), n, m, k)
  {
    if Enabled(s, step) {
      match step
      case Get(j, deps) =>
        GetOnlySince(sha, s, j, deps, n, m, k);
      case Complete(t, value) =>
        CompleteOnlySince(sha, s, t, value, n, m, k);
      case Fail(t) =>
        FailOnlySince(sha, s, t, n, m, k);
      case Wake(c) =>
        WakeOnlySince(sha, s, c, n, m, k);
      case Invalidate(changed) =>
    }
  }

  lemma {:induction false} RunOnlySince(sha: Digest, front: seq<Step>, later: seq<Step>, n: nat, m: nat, k: string)
    requires OnlySince(Run(sha, front), n, m, k)
    ensures OnlySince(Run(sha, front + later), n, m, k)
  {
    hide OnlySince, Inv, Next;
    if later == [] {
      assert front + later == front;
    } else {
      var l := later[..|later| - 1];
      RunOnlySince(sha, front, l, n, m, k);
      RunInv(sha, front + l);
      RunStep(sha, front + l, later[|later| - 1]);
      assert front + l + [later[|later| - 1]] == front + later;
      StepOnlySince(sha, Run(sha, front + l), later[|later| - 1], n, m, k);
    }
  }

  /**
   What an invalidation guarantees for good. In every run, once it has dropped a key that is not in flight, every
   later `get` of the key that returns gives what a task launched after it computed, however the calls, failures
   and further invalidations interleave.
   */
  lemma DroppedStaysDropped(sha: Digest, front: seq<Step>, names: set<string>, later: seq<Step>, k: string, c: nat)
    requires k in Doomed(Run(sha, front).store, names) && k !in Run(sha, front).store.flights
    requires var s, u := Run(sha, front), Run(sha, front + [Invalidate(names)] + later);
             |s.callers| <= c < |u.callers| && u.callers[c].Returned? && u.callers[c].key == k
    ensures var s, u := Run(sha, front), Run(sha, front + [Invalidate(names)] + later);
            ComputedSince(u.tasks, |s.tasks|, k, u.callers[c].value)
  {
    hide Run, ComputedSince;
    var s, u := Run(sha, front), Run(sha, front + [Invalidate(names)] + later);
    RunStep(sha, front, Invalidate(names));
    assert k !in AfterInvalidate(s.store, names).values;
    RunOnlySince(sha, front + [Invalidate(names)], later, |s.tasks|, |s.callers|, k);
    assert CallerSince(u.tasks, |s.tasks|, k, u.callers[c]);
  }

  /**
   A run in which a dropped value comes back: the task stored it, an invalidation dropped it before the launcher
   woke, and a later `get` joined the finished flight.
   */
  lemma DroppedValueReturns(sha: Digest, k: string, name: string, value: string)
    ensures var steps := [Get(k, {name}), Complete(0, value), Invalidate({name}), Get(k, {name})];
            var s := Run(sha, steps);
            && s.callers == [Caller.Launching(k, 0), Waiting(k, 0)] && StateOf(s.history, k) == Absent
            && Next(sha, s, Wake(1)).callers == [Caller.Launching(k, 0), Returned(k, value)]
  {
    hide Run, StateOf, Agrees;
    var a, b, c, d := Get(k, {name}), Complete(0, value), Invalidate({name}), Get(k, {name});
    RunStep(sha, [], a);
    RunStep(sha, [a], b);
    RunStep(sha, [a, b], c);
    RunStep(sha, [a, b, c], d);
    assert [] + [a] == [a] && [a] + [b] == [a, b] && [a, b] + [c] == [a, b, c] && [a, b, c] + [d] == [a, b, c, d];
    var s := Run(sha, [a, b, c, d]);
    LaunchAndStore(sha, k, name, value);
    DropAndJoin(sha, k, name, value);
    assert s.callers == [Caller.Launching(k, 0), Waiting(k, 0)];
    RunAgrees(sha, [a, b, c, d], k);
    AbsentUnheld(s, k);
  }

  /** The cache after one compute of the key, whose launcher has not woken. */
  function StoredInFlight(sha: Digest, k: string, name: string, value: string): System {
    System(Store(map[k := (value, sha(value))], map[k := {name}], map[k := 0], Metrics(0, 0, 1, 0)),
           [Done(k, value)], [Caller.Launching(k, 0)], [Launched(k), Stored(k, {name})])
  }

  lemma LaunchAndStore(sha: Digest, k: string, name: string, value: string)
    ensures Next(sha, Next(sha, Initial(), Get(k, {name})), Complete(0, value)) == StoredInFlight(sha, k, name, value)
  {
    var s := Next(sha, Initial(), Get(k, {name}));
    assert s.tasks == [Running(k, {name})] && s.callers == [Caller.Launching(k, 0)] && s.history == [Launched(k)];
  }

  lemma DropAndJoin(sha: Digest, k: string, name: string, value: string)
    ensures var s := Next(sha, StoredInFlight(sha, k, name, value), Invalidate({name}));
            var u := Next(sha, s, Get(k, {name}));
            && u.store.flights == map[k := 0] && k !in u.store.deps && u.tasks == [Done(k, value)]
            && u.callers == [Caller.Launching(k, 0), Waiting(k, 0)]
            && Next(sha, u, Wake(1)).callers == [Caller.Launching(k, 0), Returned(k, value)]
  {
    var s := Next(sha, StoredInFlight(sha, k, name, value), Invalidate({name}));
    assert name in {name} * {name};
    assert k !in s.store.values && k !in s.store.deps && s.store.flights == map[k := 0];
  }

  lemma AbsentUnheld(s: System, k: string)
    requires Agrees(s, k) && k !in s.store.deps && !IsFlying(s, k)
    ensures StateOf(s.history, k) == Absent
  {
    hide StateOf;
  }

  lemma RunStep(sha: Digest, steps: seq<Step>, step: Step)
    ensures Run(sha, []) == Initial() && Run(sha, steps + [step]) == Next(sha, Run(sha, steps), step)
  {
    hide Next;
    assert (steps + [step])[..|steps|] == steps;
  }

  function Invalidated(sha: Digest, s: System, changes: seq<set<string>>): System {
    if changes == [] then s
    else Next(sha, Invalidated(sha, s, changes[..|changes| - 1]), Invalidate(changes[|changes| - 1]))
  }

  /** No number of invalidations during a flight reaches it: what it stores afterwards is held all the same. */
  lemma {:induction false} InvalidationMissesFlight(sha: Digest, steps: seq<Step>, t: nat, changes: seq<set<string>>,
                                                    value: string)
    requires Enabled(Run(sha, steps), Complete(t, value))
    ensures var s := Run(sha, steps);
            var u := Invalidated(sha, s, changes);
            && u.tasks == s.tasks
            && StartOf(sha, Next(sha, u, Complete(t, value)).store, s.tasks[t].key) == Hit(value)
            && Next(sha, u, Complete(t, value)).store.deps[s.tasks[t].key] == s.tasks[t].deps
  {
    hide Run, Doomed;
    if changes != [] {
      InvalidationMissesFlight(sha, steps, t, changes[..|changes| - 1], value);
    }
  }

  // ---------- Accounting ----------

  function Count(tasks: seq<Task>, running: bool): nat {
    if tasks == [] then 0
    else
      Count(tasks[..|tasks| - 1], running)
      + var t := tasks[|tasks| - 1]; if (if running then t.Running? else t.Broken?) then 1 else 0
  }

  lemma {:induction false} CountUpdate(tasks: seq<Task>, t: nat, task: Task, running: bool)
    requires t < |tasks| && tasks[t].Running? && !task.Running?
    ensures Count(tasks[t := task], running)
            == Count(tasks, running) - (if running then 1 else 0) + (if !running && task.Broken? then 1 else 0)
  {
    var n := |tasks| - 1;
    var u := tasks[t := task];
    if t < n {
      assert u[..n] == tasks[..n][t := task];
      CountUpdate(tasks[..n], t, task, running);
    } else {
      assert u[..n] == tasks[..n];
    }
  }

  lemma CountSnoc(tasks: seq<Task>, task: Task, running: bool)
    ensures Count(tasks + [task], running)
            == Count(tasks, running) + if (if running then task.Running? else task.Broken?) then 1 else 0
  {
    assert (tasks + [task])[..|tasks|] == tasks;
  }

  /** Every call of `get` is a hit, coalesced, or launched a task; every task ran to a miss, failed, or runs. */
  predicate Accounted(s: System) {
    && |s.callers| == s.store.metrics.hit + s.store.metrics.coalesced + |s.tasks|
    && |s.tasks| == s.store.metrics.miss + Count(s.tasks, false) + Count(s.tasks, true)
  }

  lemma StepAccounts(sha: Digest, s: System, step: Step)
    requires Accounted(s) && Inv(sha, s)
    ensures Accounted(Next(sha, s, step))
  {
    hide Count, RunningInv;
    if Enabled(s, step) {
      match step
      case Get(k, deps) =>
        CountSnoc(s.tasks, Running(k, deps), true);
        CountSnoc(s.tasks, Running(k, deps), false);
      case Complete(t, v) =>
        CountUpdate(s.tasks, t, Done(s.tasks[t].key, v), true);
        CountUpdate(s.tasks, t, Done(s.tasks[t].key, v), false);
      case Fail(t) =>
        CountUpdate(s.tasks, t, Broken(s.tasks[t].key), true);
        CountUpdate(s.tasks, t, Broken(s.tasks[t].key), false);
      case Wake(c) =>
      case Invalidate(names) =>
    }
  }

  lemma {:induction false} RunAccounts(sha: Digest, steps: seq<Step>)
    ensures Accounted(Run(sha, steps))
  {
    if steps != [] {
      var front := steps[..|steps| - 1];
      RunAccounts(sha, front);
      RunInv(sha, front);
      StepAccounts(sha, Run(sha, front), steps[|steps| - 1]);
    } else {
      assert Count([], true) == 0;
    }
  }

  function Requests(m: Metrics): nat {
    m.hit + m.coalesced + m.miss + m.stale
  }

  /**
   The receipt's `requests` adds up all metrics, dropped entries included. It is the number of calls exactly
   when as many entries were dropped as tasks have failed or still run.
   */
  lemma RequestsAreCallsIff(sha: Digest, steps: seq<Step>)
    ensures var s := Run(sha, steps);
            Requests(s.store.metrics) == |s.callers|
            <==> s.store.metrics.stale == Count(s.tasks, false) + Count(s.tasks, true)
  {
    hide Run, Count;
    RunAccounts(sha, steps);
  }

  /**
   Runs on which `requests` is not the number of calls: a failed compute is not counted, and a dropped entry is
   counted although nobody called.
   */
  lemma RequestsMiscount(sha: Digest, k: string, name: string, value: string)
    ensures var failed := Run(sha, [Get(k, {name}), Step.Fail(0)]);
            Requests(failed.store.metrics) == 0 && |failed.callers| == 1
    ensures var dropped := Run(sha, [Get(k, {name}), Complete(0, value), Invalidate({name})]);
            Requests(dropped.store.metrics) == 2 && |dropped.callers| == 1
  {
    hide Run;
    var a, b, c, d := Get(k, {name}), Step.Fail(0), Complete(0, value), Invalidate({name});
    RunStep(sha, [], a);
    RunStep(sha, [a], b);
    RunStep(sha, [a], c);
    RunStep(sha, [a, c], d);
    assert [] + [a] == [a] && [a] + [b] == [a, b] && [a] + [c] == [a, c] && [a, c] + [d] == [a, c, d];
    LaunchAndStore(sha, k, name, value);
    OneDropped(sha, k, name, value);
    assert Next(sha, Initial(), a).store.metrics == Metrics(0, 0, 0, 0);
  }

  lemma OneDropped(sha: Digest, k: string, name: string, value: string)
    ensures var s := Next(sha, StoredInFlight(sha, k, name, value), Invalidate({name}));
            s.store.metrics == Metrics(0, 0, 1, 1) && |s.callers| == 1
  {
    var s := StoredInFlight(sha, k, name, value);
    assert name in {name} * {name};
    assert Doomed(s.store, {name}) == {k};
  }
}
