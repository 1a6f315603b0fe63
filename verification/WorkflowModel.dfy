/**
 Definitions, runs, the lease queue and one value-level function per engine operation.
 Names (namespaces, run, step and handler names) are any type with equality: the engine only compares them.
 */
module WorkflowModel {

  datatype StepState = Pending | Queued | Running | Succeeded | Failed | Skipped
  datatype RunState = RunPending | RunQueued | RunRunning | RunSucceeded | RunFailed | RunCancelled | RunTimedOut

  predicate IsTerminal(s: RunState) {
    s.RunSucceeded? || s.RunFailed? || s.RunCancelled? || s.RunTimedOut?
  }

  predicate Done(s: StepState) {
    s.Succeeded? || s.Skipped?
  }

  datatype StepDef<N> = StepDef(id: N, handler: N, dependsOn: seq<N>)
  datatype WorkflowId<N> = WorkflowId(ns: N, name: N, version: int)
  datatype Definition<N> = Definition(id: WorkflowId<N>, steps: seq<StepDef<N>>)

  datatype StepRun<N> = StepRun(id: N, state: StepState, attempt: int)
  datatype Run<N> = Run(workflow: WorkflowId<N>, state: RunState, steps: seq<StepRun<N>>)

  datatype RunKey<N> = RunKey(ns: N, id: N)
  datatype QueueKey<N> = QueueKey(run: RunKey<N>, step: N)
  datatype Item = Item(enqueuedAt: int, visibleAt: int, attempt: int)

  type Definitions<N(==)> = map<WorkflowId<N>, Definition<N>>
  type Runs<N(==)> = map<RunKey<N>, Run<N>>
  type Queue<N(==)> = map<QueueKey<N>, Item>

  /** `executed` records the handler calls in the order they were made. */
  datatype State<N(==)> = State(defs: Definitions<N>, runs: Runs<N>, queue: Queue<N>, executed: seq<QueueKey<N>>)

  /** How long a dequeued item stays invisible, in seconds. */
  const LEASE := 30

  // ---- Steps of one run ----

  /** The first step called `id` gets state `st`. */
  function SetState<N(==)>(steps: seq<StepRun<N>>, id: N, st: StepState): (r: seq<StepRun<N>>)
    ensures |r| == |steps|
  {
    if steps == [] then []
    else if steps[0].id == id then [steps[0].(state := st)] + steps[1..]
    else [steps[0]] + SetState(steps[1..], id, st)
  }

  /** The first step called `s.id` is overwritten by `s`. */
  function PutStep<N(==)>(steps: seq<StepRun<N>>, s: StepRun<N>): (r: seq<StepRun<N>>)
    ensures |r| == |steps|
  {
    if steps == [] then []
    else if steps[0].id == s.id then [s] + steps[1..]
    else [steps[0]] + PutStep(steps[1..], s)
  }

  /** State by step name; of several steps with one name the last counts. */
  function States<N(==)>(steps: seq<StepRun<N>>): map<N, StepState> {
    if steps == [] then map[]
    else var s := steps[|steps| - 1]; States(steps[..|steps| - 1])[s.id := s.state]
  }

  /** Dependencies by step name; of several definitions with one name the last counts. */
  function DependsOn<N(==)>(steps: seq<StepDef<N>>): map<N, seq<N>> {
    if steps == [] then map[]
    else var s := steps[|steps| - 1]; DependsOn(steps[..|steps| - 1])[s.id := s.dependsOn]
  }

  predicate DepsDone<N(==)>(states: map<N, StepState>, deps: seq<N>) {
    forall k :: 0 <= k < |deps| ==> deps[k] in states && Done(states[deps[k]])
  }

  predicate IsReady<N(==)>(deps: map<N, seq<N>>, states: map<N, StepState>, s: StepRun<N>) {
    s.state == Pending && DepsDone(states, if s.id in deps then deps[s.id] else [])
  }

  /** The ready steps of `steps`, in order. */
  function Filter<N(==)>(deps: map<N, seq<N>>, states: map<N, StepState>, steps: seq<StepRun<N>>): seq<StepRun<N>> {
    if steps == [] then []
    else
      var s := steps[|steps| - 1];
      Filter(deps, states, steps[..|steps| - 1]) + if IsReady(deps, states, s) then [s] else []
  }

  function ReadySteps<N(==)>(def: Definition<N>, steps: seq<StepRun<N>>): seq<StepRun<N>> {
    Filter(DependsOn(def.steps), States(steps), steps)
  }

  predicate AllDone<N(==)>(steps: seq<StepRun<N>>) {
    forall i :: 0 <= i < |steps| ==> Done(steps[i].state)
  }

  function MarkQueued<N(==)>(steps: seq<StepRun<N>>, ready: seq<StepRun<N>>): (r: seq<StepRun<N>>)
    ensures |r| == |steps|
  {
    if ready == [] then steps
    else SetState(MarkQueued(steps, ready[..|ready| - 1]), ready[|ready| - 1].id, Queued)
  }

  function EnqueueAll<N(==)>(queue: Queue<N>, run: RunKey<N>, ready: seq<StepRun<N>>, now: int): Queue<N> {
    if ready == [] then queue
    else
      var s := ready[|ready| - 1];
      EnqueueAll(queue, run, ready[..|ready| - 1], now)[QueueKey(run, s.id) := Item(now, now, s.attempt + 1)]
  }

  // ---- Engine operations ----

  function EnqueueReady<N(==)>(s: State<N>, key: RunKey<N>, def: Definition<N>, now: int): State<N>
    requires key in s.runs
  {
    var run := s.runs[key];
    var ready := ReadySteps(def, run.steps);
    s.(runs := s.runs[key := run.(steps := MarkQueued(run.steps, ready))],
       queue := EnqueueAll(s.queue, key, ready, now))
  }

  function NewSteps<N(==)>(def: Definition<N>): seq<StepRun<N>> {
    seq(|def.steps|, i requires 0 <= i < |def.steps| => StepRun(def.steps[i].id, Pending, 0))
  }

  function Submit<N(==)>(s: State<N>, def: Definition<N>, key: RunKey<N>, now: int): State<N> {
    if def.steps == [] || key in s.runs then s
    else EnqueueReady(s.(runs := s.runs[key := Run(def.id, RunQueued, NewSteps(def))]), key, def, now)
  }

  function Cancel<N(==)>(s: State<N>, key: RunKey<N>): State<N> {
    if key !in s.runs || IsTerminal(s.runs[key].state) then s
    else s.(runs := s.runs[key := s.runs[key].(state := RunCancelled)])
  }

  /** Each leased item is counted and hidden for the length of a lease. */
  function Lease<N(==)>(queue: Queue<N>, leased: seq<QueueKey<N>>, now: int): Queue<N> {
    map k | k in queue :: if k in leased then Item(queue[k].enqueuedAt, now + LEASE, queue[k].attempt + 1) else queue[k]
  }

  function FailStep<N(==)>(s: State<N>, k: QueueKey<N>, attempt: int): State<N>
    requires k.run in s.runs
  {
    var run := s.runs[k.run];
    s.(runs := s.runs[k.run := run.(steps := PutStep(run.steps, StepRun(k.step, Failed, attempt)), state := RunFailed)],
       queue := s.queue - {k})
  }

  function CompleteStep<N(==)>(s: State<N>, k: QueueKey<N>, def: Definition<N>, now: int): State<N>
    requires k.run in s.runs
  {
    if k !in s.queue then s
    else
      var run := s.runs[k.run];
      var steps := SetState(run.steps, k.step, Succeeded);
      if AllDone(steps)
      then s.(runs := s.runs[k.run := run.(steps := steps, state := RunSucceeded)], queue := s.queue - {k})
      else EnqueueReady(s.(runs := s.runs[k.run := run.(steps := steps)], queue := s.queue - {k}), k.run, def, now)
  }

  function FindStep<N(==)>(steps: seq<StepDef<N>>, id: N): (r: seq<StepDef<N>>)
    ensures |r| <= 1 && forall d :: d in r ==> d in steps && d.id == id
    ensures r == [] <==> forall i :: 0 <= i < |steps| ==> steps[i].id != id
  {
    if steps == [] then [] else if steps[0].id == id then [steps[0]] else FindStep(steps[1..], id)
  }

  /** Which handlers the registry knows and which calls succeed. */
  datatype Handlers<!N> = Handlers(known: N -> bool, succeeds: QueueKey<N> -> bool)

  function Execute<N(==)>(s: State<N>, k: QueueKey<N>, attempt: int, h: Handlers<N>, now: int): State<N> {
    if k.run !in s.runs || s.runs[k.run].workflow !in s.defs then s
    else
      var run, def := s.runs[k.run], s.defs[s.runs[k.run].workflow];
      var found := FindStep(def.steps, k.step);
      if found == [] then s
      else if !h.known(found[0].handler) then FailStep(s, k, attempt)
      else
        var started := s.(executed := s.executed + [k],
                          runs := s.runs[k.run := run.(steps := SetState(run.steps, k.step, Running))]);
        if h.succeeds(k) then CompleteStep(started, k, def, now) else FailStep(started, k, attempt)
  }

  /** The leases are processed one after the other; `clock(i)` is the time read for the i-th. */
  function ExecuteAll<N(==)>(
      s: State<N>, leased: seq<QueueKey<N>>, leases: Queue<N>, h: Handlers<N>, clock: nat -> int): State<N>
    requires forall k :: k in leased ==> k in leases
  {
    if leased == [] then s
    else
      var k := leased[|leased| - 1];
      Execute(ExecuteAll(s, leased[..|leased| - 1], leases, h, clock), k, leases[k].attempt, h, clock(|leased| - 1))
  }

  /** Which leases one dequeue may hand out: distinct visible items, up to the limit. */
  ghost predicate MayLease<N(!new)>(queue: Queue<N>, limit: nat, now: int, leased: seq<QueueKey<N>>) {
    && (forall i, j :: 0 <= i < j < |leased| ==> leased[i] != leased[j])
    && (forall k :: k in leased ==> k in queue && queue[k].visibleAt < now)
    && (|leased| < limit ==> forall k :: k in queue && queue[k].visibleAt < now ==> k in leased)
    && |leased| <= limit
  }

  function ProcessLeases<N(==)>(
      s: State<N>, leased: seq<QueueKey<N>>, h: Handlers<N>, now: int, clock: nat -> int): State<N>
    requires forall k :: k in leased ==> k in s.queue
  {
    var leases := Lease(s.queue, leased, now);
    ExecuteAll(s.(queue := leases), leased, leases, h, clock)
  }
}
