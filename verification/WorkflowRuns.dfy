/**
 Whole runs of the engine: the invariant of WorkflowSafety holds after every sequence of operations.
 */
module WorkflowRuns {
  import opened WorkflowModel
  import opened WorkflowSafety

  // ---- Safety over every sequence of operations ----

  datatype Op<!N> =
    | CreateOp(def: Definition<N>)
    | SubmitOp(workflow: WorkflowId<N>, key: RunKey<N>, now: int)
    | CancelOp(key: RunKey<N>)
    | ProcessOp(leased: seq<QueueKey<N>>, limit: nat, h: Handlers<N>, now: int, clock: nat -> int)

  function CreateDefinition<N(==)>(s: State<N>, def: Definition<N>): State<N> {
    if def.id in s.defs then s else s.(defs := s.defs[def.id := def])
  }

  /** One engine operation; a submit of an unknown workflow changes nothing. */
  ghost predicate Next<N(!new)>(s: State<N>, op: Op<N>, t: State<N>) {
    match op
    case CreateOp(def) => DistinctDefs(def.steps) && t == CreateDefinition(s, def)
    case SubmitOp(w, key, now) => t == if w in s.defs then Submit(s, s.defs[w], key, now) else s
    case CancelOp(key) => t == Cancel(s, key)
    case ProcessOp(leased, limit, h, now, clock) =>
      MayLease(s.queue, limit, now, leased) && t == ProcessLeases(s, leased, h, now, clock)
  }

  ghost predicate IsRun<N(!new)>(states: seq<State<N>>, ops: seq<Op<N>>) {
    && |states| == |ops| + 1
    && states[0] == State(map[], map[], map[], [])
    && forall i :: 0 <= i < |ops| ==> Next(states[i], ops[i], states[i + 1])
  }

  lemma {:induction false} LeaseKeeps<N(!new)>(s: State<N>, leased: seq<QueueKey<N>>, now: int)
    requires Inv(s)
    ensures Inv(s.(queue := Lease(s.queue, leased, now)))
  {
    var t := s.(queue := Lease(s.queue, leased, now));
    forall key ensures QueuedOf(t.queue, key) == QueuedOf(s.queue, key) { }
    forall key | key in t.runs ensures RunOk(t, key) { assert RunOk(s, key); }
  }

  /** The leases of one pass are settled one after the other; items that were not leased stay as they are. */
  lemma {:induction false} ExecuteAllKeeps<N(!new)>(
      s: State<N>, leased: seq<QueueKey<N>>, leases: Queue<N>, h: Handlers<N>, clock: nat -> int, t: State<N>)
    requires Inv(s) && forall k :: k in leased ==> k in s.queue && k in leases
    requires forall i, j :: 0 <= i < j < |leased| ==> leased[i] != leased[j]
    requires t == ExecuteAll(s, leased, leases, h, clock)
    ensures Inv(t) && t.defs == s.defs
    ensures forall x :: x in s.queue && x !in leased ==> x in t.queue && t.queue[x] == s.queue[x]
    decreases |leased|
  {
    if leased != [] {
      var rest, k := leased[..|leased| - 1], leased[|leased| - 1];
      SplitLast([], leased);
      var mid := ExecuteAll(s, rest, leases, h, clock);
      ExecuteAllKeeps(s, rest, leases, h, clock, mid);
      ExecuteOne(mid, k, leases[k].attempt, h, clock(|leased| - 1), t);
    }
  }

  lemma {:induction false} ExecuteOne<N(!new)>(
      s: State<N>, k: QueueKey<N>, attempt: int, h: Handlers<N>, now: int, t: State<N>)
    requires Inv(s) && k in s.queue && t == Execute(s, k, attempt, h, now)
    ensures Inv(t) && t.defs == s.defs
    ensures forall x :: x in s.queue && x != k ==> x in t.queue && t.queue[x] == s.queue[x]
  {
    ExecuteKeeps(s, k, attempt, h, now, t);
  }

  lemma {:induction false} SubmitKeeps<N(!new)>(s: State<N>, w: WorkflowId<N>, key: RunKey<N>, now: int, t: State<N>)
    requires Inv(s) && w in s.defs && t == Submit(s, s.defs[w], key, now)
    ensures Inv(t)
  {
    var def := s.defs[w];
    if def.steps != [] && key !in s.runs {
      var run := Run(w, RunQueued, MarkQueued(NewSteps(def), ReadySteps(def, NewSteps(def))));
      SubmitIs(s, w, key, now, run);
      NewRunInv(def, run.steps);
      SubmitQueue(s, key, def, now, t.queue);
      NewRunExec(s, key, def, run);
      NewRunKeeps(s, t, w, key, run);
    }
  }

  lemma {:induction false} SubmitIs<N(!new)>(s: State<N>, w: WorkflowId<N>, key: RunKey<N>, now: int, run: Run<N>)
    requires w in s.defs && s.defs[w].steps != [] && key !in s.runs && s.defs[w].id == w
    requires run == Run(w, RunQueued, MarkQueued(NewSteps(s.defs[w]), ReadySteps(s.defs[w], NewSteps(s.defs[w]))))
    ensures Submit(s, s.defs[w], key, now) ==
            State(s.defs, s.runs[key := run],
              EnqueueAll(s.queue, key, ReadySteps(s.defs[w], NewSteps(s.defs[w])), now), s.executed)
  {
  }

  lemma {:induction false} NewRunKeeps<N(!new)>(s: State<N>, t: State<N>, w: WorkflowId<N>, key: RunKey<N>, run: Run<N>)
    requires Inv(s) && w in s.defs && key !in s.runs && run.workflow == w
    requires t == State(s.defs, s.runs[key := run], t.queue, s.executed)
    requires RunInv(s.defs[w], run, QueuedOf(t.queue, key)) && ExecInv(t.runs, t.executed)
    requires forall x :: x in s.runs ==> QueuedOf(t.queue, x) == QueuedOf(s.queue, x)
    requires forall k :: k in t.queue ==> k.run in s.runs || k.run == key
    ensures Inv(t)
  {
    assert RunOk(t, key);
    OneRunChanges(s, t, key);
  }

  lemma {:induction false} SubmitQueue<N(!new)>(
      s: State<N>, key: RunKey<N>, def: Definition<N>, now: int, queue: Queue<N>)
    requires key !in s.runs && forall k :: k in s.queue ==> k.run in s.runs
    requires queue == EnqueueAll(s.queue, key, ReadySteps(def, NewSteps(def)), now)
    ensures QueuedOf(queue, key) == ReadySet(def, NewSteps(def))
    ensures forall x :: x in s.runs ==> QueuedOf(queue, x) == QueuedOf(s.queue, x)
    ensures forall k :: k in queue ==> k.run in s.runs || k.run == key
  {
    forall x { QueuedEnqueue(s.queue, key, def, NewSteps(def), now, x); }
    assert QueuedOf(s.queue, key) == {};
    forall x | x in queue ensures x.run in s.runs || x.run == key {
      EnqueueAllKeys(s.queue, key, ReadySteps(def, NewSteps(def)), now, x);
    }
  }

  lemma {:induction false} NewRunExec<N(!new)>(s: State<N>, key: RunKey<N>, def: Definition<N>, run: Run<N>)
    requires ExecInv(s.runs, s.executed) && key !in s.runs
    requires run.steps == MarkQueued(NewSteps(def), ReadySteps(def, NewSteps(def)))
    requires DistinctDefs(def.steps)
    ensures ExecInv(s.runs[key := run], s.executed)
  {
    var after := s.runs[key := run];
    forall x, i | x in after && 0 <= i < |after[x].steps| ensures StepExecInv(after, s.executed, x, i) {
      if x == key {
        MarkQueuedAt(NewSteps(def), ReadySteps(def, NewSteps(def)), i);
      } else {
        assert StepExecInv(s.runs, s.executed, x, i);
      }
    }
  }

  lemma {:induction false} CancelKeeps<N(!new)>(s: State<N>, key: RunKey<N>)
    requires Inv(s)
    ensures Inv(Cancel(s, key))
  {
    var t := Cancel(s, key);
    if t != s {
      assert RunOk(s, key);
      forall x | x in t.runs ensures RunOk(t, x) { assert RunOk(s, x); }
      forall x, i | x in t.runs && 0 <= i < |t.runs[x].steps| ensures StepExecInv(t.runs, t.executed, x, i) {
        assert StepExecInv(s.runs, s.executed, x, i);
      }
      forall k | k in t.executed ensures HasStep(t.runs, k) { assert HasStep(s.runs, k); }
    }
  }

  lemma {:induction false} CreateKeeps<N(!new)>(s: State<N>, def: Definition<N>)
    requires Inv(s) && DistinctDefs(def.steps)
    ensures Inv(CreateDefinition(s, def))
  {
    var t := CreateDefinition(s, def);
    forall x | x in t.runs ensures RunOk(t, x) { assert RunOk(s, x); }
  }

  lemma {:induction false} NextKeeps<N(!new)>(s: State<N>, op: Op<N>, t: State<N>)
    requires Inv(s) && Next(s, op, t)
    ensures Inv(t)
  {
    match op
    case CreateOp(def) => CreateKeeps(s, def);
    case SubmitOp(w, key, now) => if w in s.defs { SubmitKeeps(s, w, key, now, t); }
    case CancelOp(key) => CancelKeeps(s, key);
    case ProcessOp(leased, limit, h, now, clock) =>
      LeaseKeeps(s, leased, now);
      ExecuteAllKeeps(s.(queue := Lease(s.queue, leased, now)), leased, Lease(s.queue, leased, now), h, clock, t);
  }

  /** The invariant holds in every state of every run. */
  lemma {:induction false} EveryRunIsSafe<N(!new)>(states: seq<State<N>>, ops: seq<Op<N>>, i: nat)
    requires IsRun(states, ops) && i < |states|
    ensures Inv(states[i])
  {
    if i > 0 {
      EveryRunIsSafe(states, ops, i - 1);
      NextKeeps(states[i - 1], ops[i - 1], states[i]);
    }
  }

  /** The invariant in the words of the engine's users. */
  lemma {:induction false} SafetyMeaning<N(!new)>(s: State<N>, key: RunKey<N>, i: nat)
    requires Inv(s) && key in s.runs && i < |s.runs[key].steps|
    ensures s.runs[key].workflow in s.defs && |s.defs[s.runs[key].workflow].steps| == |s.runs[key].steps|
    ensures s.runs[key].steps[i].state != Pending ==>
      forall d :: d in s.defs[s.runs[key].workflow].steps[i].dependsOn ==>
        exists j :: 0 <= j < |s.runs[key].steps| && s.runs[key].steps[j].id == d && Done(s.runs[key].steps[j].state)
    ensures s.runs[key].steps[i].state == Queued <==> QueueKey(key, s.runs[key].steps[i].id) in s.queue
    ensures s.runs[key].state == RunSucceeded <==> AllDone(s.runs[key].steps)
    ensures s.runs[key].steps[i].state == Failed ==> s.runs[key].state != RunSucceeded
  {
    assert RunOk(s, key);
    var steps, def := s.runs[key].steps, s.defs[s.runs[key].workflow];
    if steps[i].state != Pending {
      var deps := def.steps[i].dependsOn;
      forall d | d in deps
        ensures exists j :: 0 <= j < |steps| && steps[j].id == d && Done(steps[j].state)
      {
        var k :| 0 <= k < |deps| && deps[k] == d;
        assert d in States(steps) && Done(States(steps)[d]);
        StatesAt(steps, d);
      }
    }
  }
}
