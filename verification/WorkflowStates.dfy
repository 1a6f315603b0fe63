/**
 States of runs and numbers of attempts over every run of the engine, and what submitting creates.
 */
module WorkflowStates {
  import opened WorkflowModel
  import opened WorkflowSafety
  import opened WorkflowRuns
  import opened WorkflowProgress
  import opened WorkflowOutcomes
  import opened Sequences

  // ---- What one lease makes of the steps of its run ----

  /** A step other than the leased one stays as it is, or is queued because it became ready. */
  ghost predicate Untouched<N>(a: StepRun<N>, b: StepRun<N>) {
    b == a || (a.state == Pending && b == a.(state := Queued))
  }

  /** How the run of a lease ends, step by step. */
  ghost predicate Ended<N(!new)>(a: Run<N>, b: Run<N>, step: N, attempt: int, ok: bool) {
    && |b.steps| == |a.steps|
    && (forall i :: 0 <= i < |a.steps| ==>
      if a.steps[i].id == step
      then b.steps[i] == (if ok then a.steps[i].(state := Succeeded) else StepRun(step, Failed, attempt))
      else Untouched(a.steps[i], b.steps[i]))
    && b.state == if !ok then RunFailed else if AllDone(b.steps) then RunSucceeded else a.state
  }

  lemma {:induction false} FailEnded<N(!new)>(a: Run<N>, step: N, attempt: int, called: bool, b: Run<N>)
    requires DistinctSteps(a.steps)
    requires b == a.(
      steps := PutStep(if called then SetState(a.steps, step, Running) else a.steps, StepRun(step, Failed, attempt)),
      state := RunFailed)
    ensures Ended(a, b, step, attempt, false)
  {
    var mid := if called then SetState(a.steps, step, Running) else a.steps;
    forall i | 0 <= i < |a.steps|
      ensures mid[i].id == a.steps[i].id && (a.steps[i].id != step ==> mid[i] == a.steps[i])
    {
      SetStateAt(a.steps, step, Running, i);
    }
    forall i | 0 <= i < |a.steps|
      ensures b.steps[i] == if a.steps[i].id == step then StepRun(step, Failed, attempt) else a.steps[i]
    {
      PutStepAt(mid, StepRun(step, Failed, attempt), i);
    }
  }

  lemma {:induction false} CompleteEnded<N(!new)>(
      def: Definition<N>, a: Run<N>, step: N, attempt: int, steps: seq<StepRun<N>>, b: Run<N>)
    requires DistinctSteps(a.steps) && steps == SetState(SetState(a.steps, step, Running), step, Succeeded)
    requires b == Completed(def, a, steps)
    ensures Ended(a, b, step, attempt, true)
  {
    SetTwice(a.steps, step, Running, Succeeded);
    if !AllDone(steps) {
      MarkedEnded(def, steps);
    }
  }

  lemma {:induction false} MarkedEnded<N(!new)>(def: Definition<N>, steps: seq<StepRun<N>>)
    requires DistinctSteps(steps) && !AllDone(steps)
    ensures var marked := MarkQueued(steps, ReadySteps(def, steps));
      !AllDone(marked) && forall i :: 0 <= i < |steps| ==> Untouched(steps[i], marked[i])
  {
    var marked := MarkQueued(steps, ReadySteps(def, steps));
    forall i | 0 <= i < |steps| ensures Untouched(steps[i], marked[i]) {
      MarkQueuedAt(steps, ReadySteps(def, steps), i);
      if Names(ReadySteps(def, steps), steps[i].id) {
        ReadyPending(def, steps, i);
      }
    }
    var j :| 0 <= j < |steps| && !Done(steps[j].state);
    assert !Done(marked[j].state);
  }

  lemma {:induction false} ReadyPending<N(!new)>(def: Definition<N>, steps: seq<StepRun<N>>, i: nat)
    requires DistinctSteps(steps) && i < |steps| && Names(ReadySteps(def, steps), steps[i].id)
    ensures steps[i].state == Pending
  {
    var s :| s in ReadySteps(def, steps) && s.id == steps[i].id;
    FilterMember(DependsOn(def.steps), States(steps), steps, s);
    var j :| 0 <= j < |steps| && steps[j] == s;
  }

  /** Only the run of the lease changes, and its step was queued. */
  ghost predicate OneEnds<N(!new)>(s: State<N>, t: State<N>, k: QueueKey<N>) {
    && k.run in s.runs && t.runs.Keys == s.runs.Keys && WasQueued(s.runs[k.run].steps, k.step)
    && forall x :: x in s.runs && x != k.run ==> t.runs[x] == s.runs[x]
  }

  ghost predicate WasQueued<N(!new)>(steps: seq<StepRun<N>>, n: N) {
    && (exists i :: 0 <= i < |steps| && steps[i].id == n)
    && forall i :: 0 <= i < |steps| && steps[i].id == n ==> steps[i].state == Queued
  }

  /** What one lease does to the engine: its run ends as its handler decides, other runs stay. */
  lemma {:induction false} LeaseEnds<N(!new)>(
      s: State<N>, k: QueueKey<N>, attempt: int, h: Handlers<N>, now: int, t: State<N>)
    requires Inv(s) && k in s.queue && t == Execute(s, k, attempt, h, now)
    ensures Inv(t) && SameShape(s, t) && OneEnds(s, t, k)
    ensures Ended(s.runs[k.run], t.runs[k.run], k.step, attempt, Callable(s, k, h) && h.succeeds(k))
  {
    var def, i := QueuedStep(s, k);
    CallableIff(s, k, h, def);
    LeaseExplained(s, k, attempt, h, now, t, k.run, 0, Failed);
    ExecuteKeeps(s, k, attempt, h, now, t);
    if Callable(s, k, h) && h.succeeds(k) {
      var steps := SetState(SetState(s.runs[k.run].steps, k.step, Running), k.step, Succeeded);
      CompleteIs(s, k, def, now, steps);
      CompleteEnded(def, s.runs[k.run], k.step, attempt, steps, Completed(def, s.runs[k.run], steps));
    } else {
      var d, run := FailRun(s, k, attempt, Callable(s, k, h));
      FailIs(s, k, attempt, Callable(s, k, h), run);
      FailEnded(s.runs[k.run], k.step, attempt, Callable(s, k, h), run);
    }
  }

  // ---- States of runs ----

  ghost predicate SomeFailed<N(!new)>(steps: seq<StepRun<N>>) {
    exists i :: 0 <= i < |steps| && steps[i].state == Failed
  }

  /** A run is FAILED exactly if one of its steps is; otherwise it is queued, cancelled or SUCCEEDED. */
  ghost predicate RunStateOk<N(!new)>(run: Run<N>) {
    && (run.state == RunFailed <==> SomeFailed(run.steps))
    && (run.state == RunQueued || run.state == RunCancelled || run.state == RunFailed || run.state == RunSucceeded)
  }

  ghost predicate RunStatesOk<N(!new)>(s: State<N>) {
    forall key :: key in s.runs ==> RunStateOk(s.runs[key])
  }

  lemma {:induction false} EndedState<N(!new)>(a: Run<N>, b: Run<N>, step: N, attempt: int, ok: bool)
    requires RunStateOk(a) && Ended(a, b, step, attempt, ok)
    requires WasQueued(a.steps, step)
    ensures RunStateOk(b)
  {
    var i :| 0 <= i < |a.steps| && a.steps[i].id == step;
    if ok {
      assert forall j :: 0 <= j < |a.steps| ==> (a.steps[j].state == Failed <==> b.steps[j].state == Failed);
      assert SomeFailed(a.steps) <==> SomeFailed(b.steps);
    } else {
      assert b.steps[i].state == Failed;
    }
  }

  lemma {:induction false} LeaseStates<N(!new)>(
      s: State<N>, k: QueueKey<N>, attempt: int, h: Handlers<N>, now: int, t: State<N>)
    requires Inv(s) && RunStatesOk(s) && k in s.queue && t == Execute(s, k, attempt, h, now)
    ensures RunStatesOk(t)
  {
    LeaseEnds(s, k, attempt, h, now, t);
    StatesOn(s, t, k, attempt, Callable(s, k, h) && h.succeeds(k));
  }

  lemma {:induction false} StatesOn<N(!new)>(s: State<N>, t: State<N>, k: QueueKey<N>, attempt: int, ok: bool)
    requires RunStatesOk(s) && OneEnds(s, t, k) && Ended(s.runs[k.run], t.runs[k.run], k.step, attempt, ok)
    ensures RunStatesOk(t)
  {
    EndedState(s.runs[k.run], t.runs[k.run], k.step, attempt, ok);
  }

  lemma {:induction false} PassStates<N(!new)>(
      s: State<N>, leased: seq<QueueKey<N>>, leases: Queue<N>, h: Handlers<N>, clock: nat -> int, t: State<N>)
    requires Inv(s) && RunStatesOk(s) && (forall k :: k in leased ==> k in s.queue && k in leases)
    requires forall i, j :: 0 <= i < j < |leased| ==> leased[i] != leased[j]
    requires t == ExecuteAll(s, leased, leases, h, clock)
    ensures RunStatesOk(t)
    decreases |leased|
  {
    if leased != [] {
      var rest, k := leased[..|leased| - 1], leased[|leased| - 1];
      SplitLast([], leased);
      var mid := ExecuteAll(s, rest, leases, h, clock);
      ExecuteAllKeeps(s, rest, leases, h, clock, mid);
      PassStates(s, rest, leases, h, clock, mid);
      LeaseStates(mid, k, leases[k].attempt, h, clock(|leased| - 1), t);
    }
  }

  lemma {:induction false} SubmitStates<N(!new)>(s: State<N>, def: Definition<N>, k: RunKey<N>, now: int, t: State<N>)
    requires DistinctDefs(def.steps) && RunStatesOk(s) && t == Submit(s, def, k, now)
    ensures RunStatesOk(t)
  {
    forall key | key in t.runs ensures RunStateOk(t.runs[key]) {
      if key !in s.runs {
        forall i | 0 <= i < |t.runs[key].steps| ensures t.runs[key].steps[i].state != Failed {
          SubmitUnfinished(s, def, k, now, t, key, i);
        }
      }
    }
  }

  lemma {:induction false} NextStates<N(!new)>(s: State<N>, op: Op<N>, t: State<N>)
    requires Inv(s) && RunStatesOk(s) && Next(s, op, t)
    ensures RunStatesOk(t)
  {
    match op
    case CreateOp(def) =>
    case SubmitOp(w, k, now) => if w in s.defs { SubmitStates(s, s.defs[w], k, now, t); }
    case CancelOp(k) =>
    case ProcessOp(leased, limit, h, now, clock) =>
      var mid := s.(queue := Lease(s.queue, leased, now));
      LeaseKeeps(s, leased, now);
      PassStates(mid, leased, Lease(s.queue, leased, now), h, clock, t);
  }

  /** Over every run of the engine, a run is FAILED exactly if one of its steps is. */
  lemma {:induction false} FailedIff<N(!new)>(states: seq<State<N>>, ops: seq<Op<N>>, n: nat)
    requires IsRun(states, ops) && n < |states|
    ensures RunStatesOk(states[n])
  {
    if n > 0 {
      FailedIff(states, ops, n - 1);
      EveryRunIsSafe(states, ops, n - 1);
      assert Next(states[n - 1], ops[n - 1], states[n]);
      NextStates(states[n - 1], ops[n - 1], states[n]);
    }
  }

  // ---- Cancellation ----

  ghost predicate CancelAsked<N(!new)>(ops: seq<Op<N>>, n: nat, key: RunKey<N>) {
    exists j :: 0 <= j < n && j < |ops| && ops[j] == CancelOp(key)
  }

  /** A run is cancelled only if it was asked to be. */
  lemma {:induction false} CancelledWasAsked<N(!new)>(states: seq<State<N>>, ops: seq<Op<N>>, n: nat, key: RunKey<N>)
    requires IsRun(states, ops) && n < |states| && key in states[n].runs && states[n].runs[key].state == RunCancelled
    ensures CancelAsked(ops, n, key)
  {
    if n > 0 && ops[n - 1] != CancelOp(key) {
      EveryRunIsSafe(states, ops, n - 1);
      CancelledBefore(states[n - 1], ops[n - 1], states[n], states, ops, n - 1, key);
      CancelledWasAsked(states, ops, n - 1, key);
    }
  }

  lemma {:induction false} CancelledBefore<N(!new)>(
      s: State<N>, op: Op<N>, t: State<N>, states: seq<State<N>>, ops: seq<Op<N>>, i: nat, key: RunKey<N>)
    requires IsRun(states, ops) && i < |ops| && s == states[i] && op == ops[i] && t == states[i + 1] && Inv(s)
    requires key in t.runs && t.runs[key].state == RunCancelled && op != CancelOp(key)
    ensures key in s.runs && s.runs[key].state == RunCancelled
  {
    assert Next(states[i], ops[i], states[i + 1]);
    StillCancelled(s, op, t, key);
  }

  lemma {:induction false} StillCancelled<N(!new)>(s: State<N>, op: Op<N>, t: State<N>, key: RunKey<N>)
    requires Inv(s) && Next(s, op, t) && key in t.runs && t.runs[key].state == RunCancelled && op != CancelOp(key)
    ensures key in s.runs && s.runs[key].state == RunCancelled
  {
    if op.ProcessOp? {
      var leases := Lease(s.queue, op.leased, op.now);
      LeaseKeeps(s, op.leased, op.now);
      PassCancelled(s.(queue := leases), op.leased, leases, op.h, op.clock, t, key);
    }
  }

  lemma {:induction false} PassCancelled<N(!new)>(
      s: State<N>, leased: seq<QueueKey<N>>, leases: Queue<N>, h: Handlers<N>, clock: nat -> int, t: State<N>,
      key: RunKey<N>)
    requires Inv(s) && (forall k :: k in leased ==> k in s.queue && k in leases)
    requires forall i, j :: 0 <= i < j < |leased| ==> leased[i] != leased[j]
    requires t == ExecuteAll(s, leased, leases, h, clock) && key in t.runs && t.runs[key].state == RunCancelled
    ensures key in s.runs && s.runs[key].state == RunCancelled
    decreases |leased|
  {
    if leased != [] {
      var rest, k := leased[..|leased| - 1], leased[|leased| - 1];
      SplitLast([], leased);
      var mid := ExecuteAll(s, rest, leases, h, clock);
      ExecuteAllKeeps(s, rest, leases, h, clock, mid);
      LeaseCancelled(mid, k, leases[k].attempt, h, clock(|leased| - 1), t, key);
      PassCancelled(s, rest, leases, h, clock, mid, key);
    }
  }

  lemma {:induction false} LeaseCancelled<N(!new)>(
      s: State<N>, k: QueueKey<N>, attempt: int, h: Handlers<N>, now: int, t: State<N>, key: RunKey<N>)
    requires Inv(s) && k in s.queue && t == Execute(s, k, attempt, h, now)
    requires key in t.runs && t.runs[key].state == RunCancelled
    ensures key in s.runs && s.runs[key].state == RunCancelled
  {
    LeaseEnds(s, k, attempt, h, now, t);
  }

  // ---- Attempts ----

  /** A step has been tried if it FAILED: twice counted, once when it was queued and once when it was leased. */
  ghost predicate TriedOk<N(!new)>(steps: seq<StepRun<N>>) {
    forall i :: 0 <= i < |steps| ==> steps[i].attempt == if steps[i].state == Failed then 2 else 0
  }

  /** Items still to be leased count one attempt, those of `leased` two. */
  ghost predicate CountsOk<N(!new)>(s: State<N>, leased: set<QueueKey<N>>) {
    && (forall key :: key in s.runs ==> TriedOk(s.runs[key].steps))
    && forall k :: k in s.queue ==> s.queue[k].attempt == if k in leased then 2 else 1
  }

  lemma {:induction false} EndedTried<N(!new)>(a: Run<N>, b: Run<N>, step: N, ok: bool)
    requires TriedOk(a.steps) && Ended(a, b, step, 2, ok) && WasQueued(a.steps, step)
    ensures TriedOk(b.steps)
  {
  }

  lemma {:induction false} EnqueuedItem<N(!new)>(
      queue: Queue<N>, run: RunKey<N>, ready: seq<StepRun<N>>, now: int, k: QueueKey<N>)
    requires k in EnqueueAll(queue, run, ready, now)
    ensures (k in queue && EnqueueAll(queue, run, ready, now)[k] == queue[k]) ||
      exists s :: s in ready && k == QueueKey(run, s.id) &&
        EnqueueAll(queue, run, ready, now)[k] == Item(now, now, s.attempt + 1)
    decreases |ready|
  {
    if ready != [] {
      var rest, last := ready[..|ready| - 1], ready[|ready| - 1];
      assert last in ready;
      if k != QueueKey(run, last.id) {
        EnqueuedItem(queue, run, rest, now, k);
        assert forall s :: s in rest ==> s in ready;
      }
    }
  }

  /** The items new in the queue after a lease are first attempts of steps that became ready. */
  lemma {:induction false} LeaseItems<N(!new)>(
      s: State<N>, k: QueueKey<N>, attempt: int, h: Handlers<N>, now: int, t: State<N>, x: QueueKey<N>)
    requires Inv(s) && k in s.queue && t == Execute(s, k, attempt, h, now) && x in t.queue && x !in s.queue
    requires k.run in s.runs ==> TriedOk(s.runs[k.run].steps)
    ensures t.queue[x] == Item(now, now, 1)
  {
    var def, i := QueuedStep(s, k);
    CallableIff(s, k, h, def);
    if Callable(s, k, h) && h.succeeds(k) {
      CompletedItems(s, k, def, now, x);
    } else {
      var d, run := FailRun(s, k, attempt, Callable(s, k, h));
      FailIs(s, k, attempt, Callable(s, k, h), run);
    }
  }

  lemma {:induction false} CompletedItems<N(!new)>(
      s: State<N>, k: QueueKey<N>, def: Definition<N>, now: int, x: QueueKey<N>)
    requires k.run in s.runs && k in s.queue && TriedOk(s.runs[k.run].steps) && DistinctSteps(s.runs[k.run].steps)
    requires x !in s.queue
    ensures var t := CompleteStep(Started(s, k), k, def, now); x in t.queue ==> t.queue[x] == Item(now, now, 1)
  {
    var steps := SetState(SetState(s.runs[k.run].steps, k.step, Running), k.step, Succeeded);
    CompleteIs(s, k, def, now, steps);
    SetTwice(s.runs[k.run].steps, k.step, Running, Succeeded);
    EnqueuedFirst(s.queue - {k}, k.run, def, steps, now, x);
  }

  lemma {:induction false} EnqueuedFirst<N(!new)>(
      queue: Queue<N>, run: RunKey<N>, def: Definition<N>, steps: seq<StepRun<N>>, now: int, x: QueueKey<N>)
    requires forall i :: 0 <= i < |steps| && steps[i].state == Pending ==> steps[i].attempt == 0
    ensures var more := EnqueueAll(queue, run, ReadySteps(def, steps), now);
      x in more && x !in queue ==> more[x] == Item(now, now, 1)
  {
    var ready := ReadySteps(def, steps);
    if x in EnqueueAll(queue, run, ready, now) && x !in queue {
      EnqueuedItem(queue, run, ready, now, x);
      var s :| s in ready && x == QueueKey(run, s.id) &&
        EnqueueAll(queue, run, ready, now)[x] == Item(now, now, s.attempt + 1);
      FilterMember(DependsOn(def.steps), States(steps), steps, s);
    }
  }

  lemma {:induction false} LeaseTried<N(!new)>(s: State<N>, k: QueueKey<N>, h: Handlers<N>, now: int, t: State<N>)
    requires Inv(s) && k in s.queue && t == Execute(s, k, 2, h, now)
    requires forall key :: key in s.runs ==> TriedOk(s.runs[key].steps)
    ensures forall key :: key in t.runs ==> TriedOk(t.runs[key].steps)
  {
    LeaseEnds(s, k, 2, h, now, t);
    TriedOn(s, t, k, Callable(s, k, h) && h.succeeds(k));
  }

  lemma {:induction false} TriedOn<N(!new)>(s: State<N>, t: State<N>, k: QueueKey<N>, ok: bool)
    requires OneEnds(s, t, k) && Ended(s.runs[k.run], t.runs[k.run], k.step, 2, ok)
    requires forall key :: key in s.runs ==> TriedOk(s.runs[key].steps)
    ensures forall key :: key in t.runs ==> TriedOk(t.runs[key].steps)
  {
    EndedTried(s.runs[k.run], t.runs[k.run], k.step, ok);
  }

  lemma {:induction false} LeaseCounts<N(!new)>(
      s: State<N>, k: QueueKey<N>, h: Handlers<N>, now: int, t: State<N>, leased: set<QueueKey<N>>)
    requires Inv(s) && CountsOk(s, leased) && k in leased && leased <= s.queue.Keys && t == Execute(s, k, 2, h, now)
    ensures CountsOk(t, leased - {k}) && leased - {k} <= t.queue.Keys
  {
    LeaseTried(s, k, h, now, t);
    QueueKept(s, k, 2, h, now, t);
    forall x | x in t.queue && x !in s.queue ensures t.queue[x].attempt == 1 {
      LeaseItems(s, k, 2, h, now, t, x);
    }
    QueueCounts(s.queue, t.queue, k, leased);
  }

  lemma {:induction false} QueueCounts<N(!new)>(a: Queue<N>, b: Queue<N>, k: QueueKey<N>, leased: set<QueueKey<N>>)
    requires k !in b && leased <= a.Keys && (forall x :: x in a && x != k ==> x in b && b[x] == a[x])
    requires forall x :: x in b && x !in a ==> b[x].attempt == 1
    requires forall x :: x in a ==> a[x].attempt == if x in leased then 2 else 1
    ensures leased - {k} <= b.Keys && forall x :: x in b ==> b[x].attempt == if x in leased - {k} then 2 else 1
  {
  }

  lemma {:induction false} QueueKept<N(!new)>(
      s: State<N>, k: QueueKey<N>, attempt: int, h: Handlers<N>, now: int, t: State<N>)
    requires Inv(s) && k in s.queue && t == Execute(s, k, attempt, h, now)
    ensures k !in t.queue && forall x :: x in s.queue && x != k ==> x in t.queue && t.queue[x] == s.queue[x]
  {
    ExecuteKeeps(s, k, attempt, h, now, t);
  }

  ghost function Rest<T>(s: seq<T>, n: nat): set<T>
    requires n <= |s|
  {
    set i | n <= i < |s| :: s[i]
  }

  lemma {:induction false} CountsUpTo<N(!new)>(
      states: seq<State<N>>, leased: seq<QueueKey<N>>, leases: Queue<N>, h: Handlers<N>, clock: nat -> int, n: nat)
    requires |states| == |leased| + 1 && n <= |leased| && Inv(states[0]) && Distinct(leased)
    requires (forall k :: k in leased ==> k in leases && leases[k].attempt == 2)
    requires CountsOk(states[0], Rest(leased, 0)) && Rest(leased, 0) <= states[0].queue.Keys
    requires forall i :: 0 <= i < |leased| ==> LeaseAt(states, leased, leases, h, clock, i)
    ensures Inv(states[n]) && CountsOk(states[n], Rest(leased, n)) && Rest(leased, n) <= states[n].queue.Keys
  {
    if n > 0 {
      CountsUpTo(states, leased, leases, h, clock, n - 1);
      assert LeaseAt(states, leased, leases, h, clock, n - 1);
      var k := leased[n - 1];
      RestStep(leased, n - 1);
      LeaseCounts(states[n - 1], k, h, clock(n - 1), states[n], Rest(leased, n - 1));
      ExecuteOne(states[n - 1], k, 2, h, clock(n - 1), states[n]);
    }
  }

  lemma {:induction false} RestStep<T>(s: seq<T>, n: nat)
    requires n < |s| && Distinct(s)
    ensures s[n] in Rest(s, n) && Rest(s, n + 1) == Rest(s, n) - {s[n]}
  {
  }

  lemma {:induction false} PassCounts<N(!new)>(
      s: State<N>, leased: seq<QueueKey<N>>, h: Handlers<N>, now: int, clock: nat -> int)
    requires Inv(s) && CountsOk(s, {}) && Distinct(leased) && forall k :: k in leased ==> k in s.queue
    ensures CountsOk(ProcessLeases(s, leased, h, now, clock), {})
  {
    var leases := Lease(s.queue, leased, now);
    var mid := s.(queue := leases);
    LeaseKeeps(s, leased, now);
    assert forall k :: k in Rest(leased, 0) <==> k in leased;
    var states := LeasesOf(mid, leased, leases, h, clock);
    CountsUpTo(states, leased, leases, h, clock, |leased|);
    assert Rest(leased, |leased|) == {};
  }

  // ---- What submitting creates ----

  /** The first item and the first state of a step: queued now if it has no dependencies, else pending. */
  lemma {:induction false} SubmitCreates<N(!new)>(
      s: State<N>, def: Definition<N>, key: RunKey<N>, now: int, t: State<N>, i: nat)
    requires DistinctDefs(def.steps) && i < |def.steps| && key !in s.runs && t == Submit(s, def, key, now)
    requires forall k :: k in s.queue ==> k.run != key
    ensures t.defs == s.defs && t.executed == s.executed && t.runs.Keys == s.runs.Keys + {key}
    ensures forall x :: x in s.runs ==> t.runs[x] == s.runs[x]
    ensures t.runs[key].workflow == def.id && t.runs[key].state == RunQueued && |t.runs[key].steps| == |def.steps|
    ensures var first := if def.steps[i].dependsOn == [] then Queued else Pending;
      t.runs[key].steps[i] == StepRun(def.steps[i].id, first, 0)
    ensures var k := QueueKey(key, def.steps[i].id);
      if def.steps[i].dependsOn == [] then k in t.queue && t.queue[k] == Item(now, now, 1) else k !in t.queue
    ensures forall k: QueueKey<N> :: k.run != key ==>
      (k in t.queue <==> k in s.queue) && (k in s.queue ==> t.queue[k] == s.queue[k])
  {
    var steps := NewSteps(def);
    var ready, k := ReadySteps(def, steps), QueueKey(key, def.steps[i].id);
    ReadyNames(def, steps, i);
    NothingDone(steps, def.steps[i].dependsOn);
    MarkQueuedAt(steps, ready, i);
    EnqueueAllKeys(s.queue, key, ready, now, k);
    EnqueuedFirst(s.queue, key, def, steps, now, k);
    forall x: QueueKey<N> | x.run != key
      ensures (x in t.queue <==> x in s.queue) && (x in s.queue ==> t.queue[x] == s.queue[x])
    {
      EnqueueAllKeys(s.queue, key, ready, now, x);
    }
  }

  lemma {:induction false} NothingDone<N(!new)>(steps: seq<StepRun<N>>, deps: seq<N>)
    requires DistinctSteps(steps) && forall i :: 0 <= i < |steps| ==> steps[i].state == Pending
    ensures DepsDone(States(steps), deps) <==> deps == []
  {
    if deps != [] {
      StatesAt(steps, deps[0]);
    }
  }

  lemma {:induction false} SubmitCounts<N(!new)>(s: State<N>, def: Definition<N>, key: RunKey<N>, now: int, t: State<N>)
    requires Inv(s) && CountsOk(s, {}) && DistinctDefs(def.steps) && t == Submit(s, def, key, now)
    ensures CountsOk(t, {})
  {
    if def.steps != [] && key !in s.runs {
      var steps := NewSteps(def);
      forall i | 0 <= i < |def.steps|
        ensures t.runs[key].steps[i].attempt == 0 && t.runs[key].steps[i].state != Failed
      {
        SubmitCreates(s, def, key, now, t, i);
      }
      forall k | k in t.queue ensures t.queue[k].attempt == 1 {
        EnqueuedFirst(s.queue, key, def, steps, now, k);
        if k in s.queue {
          EnqueueAllKeys(s.queue, key, ReadySteps(def, steps), now, k);
        }
      }
    }
  }

  lemma {:induction false} NextCounts<N(!new)>(s: State<N>, op: Op<N>, t: State<N>)
    requires Inv(s) && CountsOk(s, {}) && Next(s, op, t)
    ensures CountsOk(t, {})
  {
    match op
    case CreateOp(def) =>
    case SubmitOp(w, k, now) => if w in s.defs { SubmitCounts(s, s.defs[w], k, now, t); }
    case CancelOp(k) =>
    case ProcessOp(leased, limit, h, now, clock) => PassCounts(s, leased, h, now, clock);
  }

  /** Over every run of the engine: FAILED steps count two attempts, others none, and waiting items one. */
  lemma {:induction false} AttemptsCounted<N(!new)>(states: seq<State<N>>, ops: seq<Op<N>>, n: nat)
    requires IsRun(states, ops) && n < |states|
    ensures CountsOk(states[n], {})
  {
    if n > 0 {
      AttemptsCounted(states, ops, n - 1);
      EveryRunIsSafe(states, ops, n - 1);
      assert Next(states[n - 1], ops[n - 1], states[n]);
      NextCounts(states[n - 1], ops[n - 1], states[n]);
    }
  }
}
