/**
 The engine and its in-memory store as objects: every method is shown to do what its counterpart in
 WorkflowModel does to the state. Clock readings and fresh run ids are arguments.
 */
module WorkflowEngine {
  import M = WorkflowModel
  import opened Options
  import opened WorkflowSafety
  import opened WorkflowModel

  datatype Error = NotFound | AlreadyExists | Conflict | InvalidArgument
  datatype Result<T> = Ok(value: T) | Err(error: Error)

  predicate Named<N(==)>(d: Definition<N>, ns: N, name: N) {
    d.id.ns == ns && d.id.name == name
  }

  /** `w` is stored and has the highest version under its name. */
  ghost predicate IsLatest<N(!new)>(defs: Definitions<N>, w: WorkflowId<N>, ns: N, name: N) {
    && w in defs && Named(defs[w], ns, name)
    && forall v :: v in defs && Named(defs[v], ns, name) ==> defs[v].id.version <= defs[w].id.version
  }

  lemma {:induction false} PutFirst<N(!new)>(steps: seq<StepRun<N>>, s: StepRun<N>, i: nat)
    requires i < |steps| && steps[i].id == s.id && forall j :: 0 <= j < i ==> steps[j].id != s.id
    ensures PutStep(steps, s) == steps[i := s]
  {
    if i > 0 {
      PutFirst(steps[1..], s, i - 1);
      assert steps[i := s] == [steps[0]] + steps[1..][i - 1 := s];
    }
  }

  lemma {:induction false} PutNone<N(!new)>(steps: seq<StepRun<N>>, s: StepRun<N>)
    requires forall j :: 0 <= j < |steps| ==> steps[j].id != s.id
    ensures PutStep(steps, s) == steps
  {
    if steps != [] {
      PutNone(steps[1..], s);
      assert steps == [steps[0]] + steps[1..];
    }
  }

  class Store<N(==,!new)> {
    var defs: Definitions<N>
    var runs: Runs<N>
    var queue: Queue<N>

    constructor ()
      ensures defs == map[] && runs == map[] && queue == map[]
    {
      defs, runs, queue := map[], map[], map[];
    }

    method CreateDefinition(d: Definition<N>) returns (ok: bool)
      modifies this`defs
      ensures ok <==> d.id !in old(defs)
      ensures defs == if ok then old(defs)[d.id := d] else old(defs)
    {
      ok := d.id !in defs;
      if ok {
        defs := defs[d.id := d];
      }
    }

    /** The stored version of a workflow with the highest number. */
    method GetDefinitionByName(ns: N, name: N) returns (r: Result<Definition<N>>)
      ensures r.Ok? ==> exists w :: IsLatest(defs, w, ns, name) && defs[w] == r.value
      ensures r.Err? ==> r == Err(NotFound) && forall w :: w in defs ==> !Named(defs[w], ns, name)
      ensures r.Ok? ==> r.value in defs.Values && r.value.id.ns == ns && r.value.id.name == name
      ensures forall w :: w in defs && defs[w].id.ns == ns && defs[w].id.name == name ==>
        r.Ok? && defs[w].id.version <= r.value.id.version
    {
      r := Err(NotFound);
      var todo := defs.Keys;
      while todo != {}
        invariant todo <= defs.Keys
        invariant if r.Ok? then r.value in defs.Values && Named(r.value, ns, name) else r == Err(NotFound)
        invariant forall w :: w in defs && w !in todo && Named(defs[w], ns, name) ==>
          r.Ok? && defs[w].id.version <= r.value.id.version
        decreases todo
      {
        var w :| w in todo;
        var d := defs[w];
        if Named(d, ns, name) {
          if r.Err? || d.id.version > r.value.id.version {
            r := Ok(d);
          }
        }
        todo := todo - {w};
      }
      if r.Ok? {
        ghost var w :| w in defs && defs[w] == r.value;
        assert IsLatest(defs, w, ns, name);
      }
    }

    method CreateRun(key: RunKey<N>, run: Run<N>) returns (ok: bool)
      modifies this`runs
      ensures ok <==> key !in old(runs)
      ensures runs == if ok then old(runs)[key := run] else old(runs)
    {
      ok := key !in runs;
      if ok {
        runs := runs[key := run];
      }
    }

    /** The state is overwritten whatever it was. */
    method UpdateRunState(key: RunKey<N>, to: RunState) returns (ok: bool)
      modifies this`runs
      ensures ok <==> key in old(runs)
      ensures runs == if ok then old(runs)[key := old(runs)[key].(state := to)] else old(runs)
    {
      ok := key in runs;
      if ok {
        runs := runs[key := runs[key].(state := to)];
      }
    }

    /** Overwrites the first step of the run that has the given name. */
    method UpdateStepState(key: RunKey<N>, step: StepRun<N>) returns (ok: bool)
      modifies this`runs
      ensures ok <==> key in old(runs) && exists s :: s in old(runs)[key].steps && s.id == step.id
      ensures key !in old(runs) ==> runs == old(runs)
      ensures key in old(runs) ==>
        runs == old(runs)[key := old(runs)[key].(steps := PutStep(old(runs)[key].steps, step))]
    {
      if key !in runs {
        return false;
      }
      var steps := runs[key].steps;
      for i := 0 to |steps|
        invariant runs == old(runs)
        invariant forall j :: 0 <= j < i ==> steps[j].id != step.id
      {
        if steps[i].id == step.id {
          PutFirst(steps, step, i);
          assert steps[i] in steps;
          runs := runs[key := runs[key].(steps := steps[i := step])];
          return true;
        }
      }
      PutNone(steps, step);
      assert runs[key].(steps := steps) == runs[key];
      ok := false;
    }

    method Enqueue(k: QueueKey<N>, item: Item)
      modifies this`queue
      ensures queue == old(queue)[k := item]
    {
      queue := queue[k := item];
    }

    /** Leases visible items in whatever order the map yields them, at most `limit` if that is positive. */
    method DequeueAny(limit: int, now: int) returns (leased: seq<QueueKey<N>>)
      modifies this`queue
      ensures MayLease(old(queue), if limit > 0 then limit else |leased| + 1, now, leased)
      ensures queue == Lease(old(queue), leased, now)
      ensures queue.Keys == old(queue).Keys && forall k :: k in queue ==>
        if k in leased then queue[k] == Item(old(queue)[k].enqueuedAt, now + 30, old(queue)[k].attempt + 1)
        else queue[k] == old(queue)[k]
    {
      leased := [];
      var todo := queue.Keys;
      while todo != {}
        invariant todo <= old(queue).Keys && (limit > 0 ==> |leased| < limit)
        invariant forall i, j :: 0 <= i < j < |leased| ==> leased[i] != leased[j]
        invariant forall k :: k in leased <==> k in old(queue) && k !in todo && old(queue)[k].visibleAt < now
        invariant queue == Lease(old(queue), leased, now)
        decreases todo
      {
        var k :| k in todo;
        todo := todo - {k};
        if queue[k].visibleAt < now {
          queue := queue[k := Item(queue[k].enqueuedAt, now + LEASE, queue[k].attempt + 1)];
          leased := leased + [k];
          assert queue == Lease(old(queue), leased, now);
          if limit > 0 && |leased| >= limit {
            return;
          }
        }
      }
    }

    method CompleteStep(k: QueueKey<N>) returns (ok: bool)
      modifies this`queue
      ensures ok <==> k in old(queue)
      ensures queue == old(queue) - {k}
    {
      ok := k in queue;
      queue := queue - {k};
    }
  }

  // ---- Loops of the engine over the steps of a run ----

  /** Sets the state of the first step called `id` in the engine's copy of a run, and hands back that step. */
  method SetFirst<N(==,!new)>(before: seq<StepRun<N>>, id: N, st: StepState)
    returns (steps: seq<StepRun<N>>, hit: Option<StepRun<N>>)
    ensures steps == SetState(before, id, st)
    ensures hit.Some? ==> PutStep(before, hit.value) == steps
    ensures hit.None? ==> steps == before
  {
    steps := before;
    for i := 0 to |steps|
      invariant steps == before
      invariant forall j :: 0 <= j < i ==> before[j].id != id
    {
      if steps[i].id == id {
        var s := steps[i].(state := st);
        steps := steps[i := s];
        FirstHit(before, id, st, i);
        return steps, Some(s);
      }
    }
    NoHit(before, id, st);
    hit := None;
  }

  lemma {:induction false} FirstHit<N(!new)>(steps: seq<StepRun<N>>, id: N, st: StepState, i: nat)
    requires i < |steps| && steps[i].id == id && forall j :: 0 <= j < i ==> steps[j].id != id
    ensures SetState(steps, id, st) == steps[i := steps[i].(state := st)]
    ensures PutStep(steps, steps[i].(state := st)) == steps[i := steps[i].(state := st)]
  {
    if i > 0 {
      FirstHit(steps[1..], id, st, i - 1);
    }
  }

  lemma {:induction false} NoHit<N(!new)>(steps: seq<StepRun<N>>, id: N, st: StepState)
    requires forall j :: 0 <= j < |steps| ==> steps[j].id != id
    ensures SetState(steps, id, st) == steps
  {
    if steps != [] {
      NoHit(steps[1..], id, st);
    }
  }

  /** The dependency and state tables and the scan for ready steps. */
  method FindReadySteps<N(==,!new)>(def: Definition<N>, steps: seq<StepRun<N>>) returns (ready: seq<StepRun<N>>)
    ensures ready == ReadySteps(def, steps)
  {
    var deps: map<N, seq<N>> := map[];
    for i := 0 to |def.steps|
      invariant deps == DependsOn(def.steps[..i])
    {
      assert def.steps[..i + 1][..i] == def.steps[..i];
      deps := deps[def.steps[i].id := def.steps[i].dependsOn];
    }
    var states: map<N, StepState> := map[];
    for i := 0 to |steps|
      invariant states == States(steps[..i])
    {
      assert steps[..i + 1][..i] == steps[..i];
      states := states[steps[i].id := steps[i].state];
    }
    assert def.steps[..|def.steps|] == def.steps && steps[..|steps|] == steps;
    ready := [];
    for i := 0 to |steps|
      invariant ready == Filter(deps, states, steps[..i])
    {
      assert steps[..i + 1][..i] == steps[..i];
      var s := steps[i];
      if s.state == Pending {
        var need := if s.id in deps then deps[s.id] else [];
        var allDone := true;
        for k := 0 to |need|
          invariant allDone <==> DepsDone(states, need[..k])
        {
          if need[k] !in states || !Done(states[need[k]]) {
            allDone := false;
            assert need[..k + 1][k] == need[k];
          } else {
            assert need[..k + 1] == need[..k] + [need[k]];
          }
        }
        assert need[..|need|] == need;
        if allDone {
          ready := ready + [s];
        }
      }
    }
    assert steps[..|steps|] == steps;
  }

  method FindStepDef<N(==,!new)>(steps: seq<StepDef<N>>, id: N) returns (r: seq<StepDef<N>>)
    ensures r == FindStep(steps, id)
  {
    for i := 0 to |steps|
      invariant FindStep(steps, id) == FindStep(steps[i..], id)
    {
      if steps[i].id == id {
        return [steps[i]];
      }
      assert steps[i..][1..] == steps[i + 1..];
    }
    assert steps[|steps|..] == [];
    r := [];
  }

  class Engine<N(==,!new)> {
    const store: Store<N>
    const handlers: Handlers<N>
    const maxDequeue: nat
    var executed: seq<QueueKey<N>>

    constructor (store: Store<N>, handlers: Handlers<N>, maxDequeue: int)
      ensures this.store == store && this.handlers == handlers && executed == []
      ensures this.maxDequeue == if maxDequeue <= 0 then 32 else maxDequeue
    {
      this.store, this.handlers := store, handlers;
      this.maxDequeue := if maxDequeue <= 0 then 32 else maxDequeue;
      executed := [];
    }

    function State(): M.State<N>
      reads this, store
    {
      M.State(store.defs, store.runs, store.queue, executed)
    }

    /** `steps` is the engine's copy of the run; copy and stored run stay equal. */
    method EnqueueReadySteps(key: RunKey<N>, def: Definition<N>, copy: seq<StepRun<N>>, now: int)
      requires key in store.runs && store.runs[key].steps == copy
      modifies store
      ensures State() == EnqueueReady(old(State()), key, def, now)
    {
      var steps := copy;
      var ready := FindReadySteps(def, steps);
      var run := store.runs[key];
      for i := 0 to |ready|
        invariant store.defs == old(store.defs)
        invariant steps == MarkQueued(copy, ready[..i])
        invariant store.runs == old(store.runs)[key := run.(steps := steps)]
        invariant store.queue == EnqueueAll(old(store.queue), key, ready[..i], now)
      {
        assert ready[..i + 1][..i] == ready[..i];
        steps := EnqueueStep(key, steps, ready[i], now);
      }
      assert ready[..|ready|] == ready;
    }

    /** Queues one ready step and marks it in the copy and in the store. */
    method EnqueueStep(key: RunKey<N>, copy: seq<StepRun<N>>, s: StepRun<N>, now: int) returns (steps: seq<StepRun<N>>)
      requires key in store.runs && store.runs[key].steps == copy
      modifies store
      ensures store.defs == old(store.defs) && steps == SetState(copy, s.id, Queued)
      ensures store.queue == old(store.queue)[QueueKey(key, s.id) := Item(now, now, s.attempt + 1)]
      ensures store.runs == old(store.runs)[key := old(store.runs)[key].(steps := steps)]
    {
      store.Enqueue(QueueKey(key, s.id), Item(now, now, s.attempt + 1));
      var hit;
      steps, hit := SetFirst(copy, s.id, Queued);
      if hit.Some? {
        var _ := store.UpdateStepState(key, hit.value);
      }
    }

    /** Submits the latest definition of that name; without one, without steps or under a used id it is refused. */
    method Submit(ns: N, name: N, runId: N, now: int) returns (r: Result<N>)
      modifies store
      ensures (forall w :: w in old(store.defs) ==> !Named(old(store.defs)[w], ns, name)) ==>
        r == Err(NotFound) && State() == old(State())
      ensures (exists w :: w in old(store.defs) && Named(old(store.defs)[w], ns, name)) ==>
        exists w :: IsLatest(old(store.defs), w, ns, name)
          && (r == if old(store.defs)[w].steps == [] then Err(InvalidArgument)
                   else if RunKey(ns, runId) in old(store.runs) then Err(AlreadyExists) else Ok(runId))
          && State() == M.Submit(old(State()), old(store.defs)[w], RunKey(ns, runId), now)
    {
      var d := store.GetDefinitionByName(ns, name);
      if d.Err? {
        return Err(d.error);
      }
      var def := d.value;
      ghost var w :| IsLatest(store.defs, w, ns, name) && store.defs[w] == def;
      if |def.steps| == 0 {
        return Err(InvalidArgument);
      }
      var key := RunKey(def.id.ns, runId);
      var copy := NewSteps(def);
      var ok := store.CreateRun(key, Run(def.id, RunPending, copy));
      if !ok {
        return Err(AlreadyExists);
      }
      ok := store.UpdateRunState(key, RunQueued);
      assert store.runs == old(store.runs)[key := Run(def.id, RunQueued, copy)];
      EnqueueReadySteps(key, def, copy, now);
      assert State() == M.Submit(old(State()), def, key, now);
      r := Ok(runId);
    }

    method Cancel(key: RunKey<N>) returns (r: Result<()>)
      modifies store
      ensures State() == M.Cancel(old(State()), key)
      ensures key !in old(store.runs) ==> r == Err(NotFound)
      ensures key in old(store.runs) ==>
        var st := old(store.runs)[key].state;
        if st == RunSucceeded || st == RunFailed || st == RunCancelled || st == RunTimedOut then r == Err(Conflict)
        else r == Ok(())
      ensures r.Ok? ==> store.runs == old(store.runs)[key := old(store.runs)[key].(state := RunCancelled)]
      ensures r.Err? ==> store.runs == old(store.runs)
      ensures store.queue == old(store.queue) && store.defs == old(store.defs)
    {
      if key !in store.runs {
        return Err(NotFound);
      }
      if IsTerminal(store.runs[key].state) {
        return Err(Conflict);
      }
      var _ := store.UpdateRunState(key, RunCancelled);
      r := Ok(());
    }

    method FailStep(k: QueueKey<N>, attempt: int)
      requires k.run in store.runs
      modifies store
      ensures State() == M.FailStep(old(State()), k, attempt)
    {
      var _ := store.UpdateStepState(k.run, StepRun(k.step, Failed, attempt));
      var _ := store.CompleteStep(k);
      var _ := store.UpdateRunState(k.run, RunFailed);
    }

    method CompleteStep(k: QueueKey<N>, def: Definition<N>, copy: seq<StepRun<N>>, now: int)
      requires k.run in store.runs && store.runs[k.run].steps == copy
      modifies store
      ensures State() == M.CompleteStep(old(State()), k, def, now)
    {
      var ok := store.CompleteStep(k);
      if !ok {
        assert store.queue == old(store.queue);
        return;
      }
      var steps, hit := SetFirst(copy, k.step, Succeeded);
      if hit.Some? {
        var _ := store.UpdateStepState(k.run, hit.value);
      }
      ghost var run := old(store.runs)[k.run];
      assert store.runs == old(store.runs)[k.run := run.(steps := steps)];
      var allDone := true;
      for i := 0 to |steps|
        invariant allDone ==> forall j :: 0 <= j < i ==> Done(steps[j].state)
        invariant !allDone ==> !AllDone(steps)
      {
        if !Done(steps[i].state) {
          allDone := false;
        }
      }
      if allDone {
        var _ := store.UpdateRunState(k.run, RunSucceeded);
      } else {
        EnqueueReadySteps(k.run, def, steps, now);
      }
    }

    /** Runs the handler of one leased item. `QueuedStep` shows that the step definition is always found. */
    method ExecuteLease(k: QueueKey<N>, attempt: int, now: int)
      modifies store, this`executed
      ensures State() == Execute(old(State()), k, attempt, handlers, now)
    {
      if k.run !in store.runs || store.runs[k.run].workflow !in store.defs {
        return;
      }
      var run := store.runs[k.run];
      var def := store.defs[run.workflow];
      var found := FindStepDef(def.steps, k.step);
      if found == [] {
        return;
      }
      if !handlers.known(found[0].handler) {
        FailStep(k, attempt);
        return;
      }
      var steps, hit := SetFirst(run.steps, k.step, Running);
      if hit.Some? {
        var _ := store.UpdateStepState(k.run, hit.value);
      }
      executed := executed + [k];
      assert store.runs == old(store.runs)[k.run := run.(steps := steps)];
      if handlers.succeeds(k) {
        CompleteStep(k, def, steps, now);
      } else {
        FailStep(k, attempt);
      }
    }

    /** One pass: lease up to `maxDequeue` visible items and process them in turn. */
    method ProcessLeases(now: int, clock: nat -> int) returns (leased: seq<QueueKey<N>>)
      requires maxDequeue > 0
      modifies store, this`executed
      ensures MayLease(old(store.queue), maxDequeue, now, leased)
      ensures State() == M.ProcessLeases(old(State()), leased, handlers, now, clock)
    {
      leased := store.DequeueAny(maxDequeue, now);
      var leases := store.queue;
      ghost var start := State();
      for i := 0 to |leased|
        invariant forall k :: k in leased ==> k in leases
        invariant State() == ExecuteAll(start, leased[..i], leases, handlers, clock)
      {
        assert leased[..i + 1][..i] == leased[..i];
        ExecuteLease(leased[i], leases[leased[i]].attempt, clock(i));
      }
      assert leased[..|leased|] == leased;
    }
  }
}
