/**
 What every sequential run of the engine keeps, with failing handlers and cancellations included.
 */
module WorkflowSafety {
  import opened WorkflowModel

  // ---- One run ----

  ghost predicate DistinctSteps<N>(steps: seq<StepRun<N>>) {
    forall i, j :: 0 <= i < j < |steps| ==> steps[i].id != steps[j].id
  }

  ghost predicate DistinctDefs<N>(steps: seq<StepDef<N>>) {
    forall i, j :: 0 <= i < j < |steps| ==> steps[i].id != steps[j].id
  }

  ghost predicate Matches<N>(def: Definition<N>, steps: seq<StepRun<N>>) {
    && |steps| == |def.steps| > 0
    && DistinctSteps(steps)
    && forall i :: 0 <= i < |steps| ==> steps[i].id == def.steps[i].id
  }

  /** A step is pending exactly while some dependency is not done. */
  ghost predicate PendingIffBlocked<N>(def: Definition<N>, steps: seq<StepRun<N>>)
    requires |steps| == |def.steps|
  {
    forall i :: 0 <= i < |steps| ==> (steps[i].state == Pending <==> !DepsDone(States(steps), def.steps[i].dependsOn))
  }

  ghost predicate Settled<N>(steps: seq<StepRun<N>>) {
    forall i :: 0 <= i < |steps| ==> !steps[i].state.Running? && !steps[i].state.Skipped?
  }

  /** The steps with an item in the queue are the queued ones. */
  ghost predicate QueueAgrees<N(!new)>(steps: seq<StepRun<N>>, queued: set<N>) {
    && (forall i :: 0 <= i < |steps| ==> (steps[i].state == Queued <==> steps[i].id in queued))
    && forall n :: n in queued ==> exists i :: 0 <= i < |steps| && steps[i].id == n
  }

  ghost predicate RunInv<N(!new)>(def: Definition<N>, run: Run<N>, queued: set<N>) {
    && Matches(def, run.steps)
    && PendingIffBlocked(def, run.steps)
    && Settled(run.steps)
    && QueueAgrees(run.steps, queued)
    && (run.state == RunSucceeded <==> AllDone(run.steps))
  }

  lemma {:induction false} SetStateAt<N(!new)>(steps: seq<StepRun<N>>, id: N, st: StepState, i: nat)
    requires DistinctSteps(steps) && i < |steps|
    ensures SetState(steps, id, st)[i] == if steps[i].id == id then steps[i].(state := st) else steps[i]
  {
    if steps[0].id != id && i > 0 {
      SetStateAt(steps[1..], id, st, i - 1);
    }
  }

  lemma {:induction false} PutStepAt<N(!new)>(steps: seq<StepRun<N>>, s: StepRun<N>, i: nat)
    requires DistinctSteps(steps) && i < |steps|
    ensures PutStep(steps, s)[i] == if steps[i].id == s.id then s else steps[i]
  {
    if steps[0].id != s.id && i > 0 {
      PutStepAt(steps[1..], s, i - 1);
    }
  }

  lemma {:induction false} StatesAt<N(!new)>(steps: seq<StepRun<N>>, n: N)
    requires DistinctSteps(steps)
    ensures n in States(steps) <==> exists i :: 0 <= i < |steps| && steps[i].id == n
    ensures forall i :: 0 <= i < |steps| && steps[i].id == n ==> States(steps)[n] == steps[i].state
  {
    if steps != [] {
      StatesAt(steps[..|steps| - 1], n);
    }
  }

  lemma {:induction false} DependsOnAt<N(!new)>(steps: seq<StepDef<N>>, i: nat)
    requires DistinctDefs(steps) && i < |steps|
    ensures steps[i].id in DependsOn(steps) && DependsOn(steps)[steps[i].id] == steps[i].dependsOn
  {
    if i < |steps| - 1 {
      DependsOnAt(steps[..|steps| - 1], i);
    }
  }

  lemma {:induction false} FilterMember<N(!new)>(
      deps: map<N, seq<N>>, states: map<N, StepState>, steps: seq<StepRun<N>>, s: StepRun<N>)
    ensures s in Filter(deps, states, steps) <==> s in steps && IsReady(deps, states, s)
  {
    if steps != [] {
      FilterMember(deps, states, steps[..|steps| - 1], s);
      assert steps == steps[..|steps| - 1] + [steps[|steps| - 1]];
    }
  }

  /** `ready` names a step. */
  ghost predicate Names<N(!new)>(ready: seq<StepRun<N>>, n: N) {
    exists s :: s in ready && s.id == n
  }

  lemma {:induction false} MarkQueuedAt<N(!new)>(steps: seq<StepRun<N>>, ready: seq<StepRun<N>>, i: nat)
    requires DistinctSteps(steps) && i < |steps|
    ensures MarkQueued(steps, ready)[i] == if Names(ready, steps[i].id) then steps[i].(state := Queued) else steps[i]
    decreases |ready|
  {
    if ready != [] {
      var rest, last := ready[..|ready| - 1], ready[|ready| - 1];
      forall j | 0 <= j < |steps| ensures MarkQueued(steps, rest)[j].id == steps[j].id {
        MarkQueuedAt(steps, rest, j);
      }
      MarkQueuedAt(steps, rest, i);
      SetStateAt(MarkQueued(steps, rest), last.id, Queued, i);
      assert ready == rest + [last];
      assert Names(ready, steps[i].id) <==> Names(rest, steps[i].id) || last.id == steps[i].id;
    }
  }

  lemma {:induction false} EnqueueAllKeys<N(!new)>(
      queue: Queue<N>, run: RunKey<N>, ready: seq<StepRun<N>>, now: int, k: QueueKey<N>)
    ensures k in EnqueueAll(queue, run, ready, now) <==> k in queue || (k.run == run && Names(ready, k.step))
    ensures k in EnqueueAll(queue, run, ready, now) && !(k.run == run && Names(ready, k.step)) ==>
      EnqueueAll(queue, run, ready, now)[k] == queue[k]
    ensures k.run == run && Names(ready, k.step) ==> EnqueueAll(queue, run, ready, now)[k].visibleAt == now
    decreases |ready|
  {
    if ready != [] {
      var rest, last := ready[..|ready| - 1], ready[|ready| - 1];
      EnqueueAllKeys(queue, run, rest, now, k);
      assert ready == rest + [last];
      assert Names(ready, k.step) <==> Names(rest, k.step) || last.id == k.step;
    }
  }

  /** The ready steps are the pending ones whose dependencies are done. */
  lemma {:induction false} ReadyNames<N(!new)>(def: Definition<N>, steps: seq<StepRun<N>>, i: nat)
    requires Matches(def, steps) && i < |steps|
    ensures Names(ReadySteps(def, steps), steps[i].id) <==>
            steps[i].state == Pending && DepsDone(States(steps), def.steps[i].dependsOn)
  {
    DependsOnAt(def.steps, i);
    var deps, states := DependsOn(def.steps), States(steps);
    FilterMember(deps, states, steps, steps[i]);
    if s :| s in ReadySteps(def, steps) && s.id == steps[i].id {
      FilterMember(deps, states, steps, s);
      assert s == steps[i];
    }
  }

  /** Same names, and whatever is done in `a` is done in `b`. */
  ghost predicate NoLessDone<N>(a: seq<StepRun<N>>, b: seq<StepRun<N>>) {
    && |a| == |b| && DistinctSteps(a) && DistinctSteps(b)
    && forall i :: 0 <= i < |a| ==> a[i].id == b[i].id && (Done(a[i].state) ==> Done(b[i].state))
  }

  lemma {:induction false} DepsDoneMonotone<N(!new)>(a: seq<StepRun<N>>, b: seq<StepRun<N>>, deps: seq<N>)
    requires NoLessDone(a, b) && DepsDone(States(a), deps)
    ensures DepsDone(States(b), deps)
  {
    forall k | 0 <= k < |deps| ensures deps[k] in States(b) && Done(States(b)[deps[k]]) {
      StatesAt(a, deps[k]);
      StatesAt(b, deps[k]);
      var i :| 0 <= i < |a| && a[i].id == deps[k];
      assert States(a)[deps[k]] == a[i].state && b[i].id == deps[k];
    }
  }

  /** A step that left PENDING has its dependencies done. */
  ghost predicate StartedUnblocked<N>(def: Definition<N>, steps: seq<StepRun<N>>)
    requires |steps| == |def.steps|
  {
    forall i :: 0 <= i < |steps| ==> steps[i].state != Pending ==> DepsDone(States(steps), def.steps[i].dependsOn)
  }

  lemma {:induction false} StartedMonotone<N(!new)>(def: Definition<N>, a: seq<StepRun<N>>, b: seq<StepRun<N>>)
    requires |a| == |def.steps| && NoLessDone(a, b) && StartedUnblocked(def, a)
    requires forall i :: 0 <= i < |a| ==> (b[i].state == Pending <==> a[i].state == Pending)
    ensures StartedUnblocked(def, b)
  {
    forall i | 0 <= i < |b| && b[i].state != Pending ensures DepsDone(States(b), def.steps[i].dependsOn) {
      DepsDoneMonotone(a, b, def.steps[i].dependsOn);
    }
  }

  /** Which names the ready steps have. */
  ghost function ReadySet<N(!new)>(def: Definition<N>, steps: seq<StepRun<N>>): set<N> {
    set i | 0 <= i < |steps| && Names(ReadySteps(def, steps), steps[i].id) :: steps[i].id
  }

  /** Marking moves exactly the unblocked pending steps to QUEUED. */
  lemma {:induction false} EnqueueSteps<N(!new)>(def: Definition<N>, steps: seq<StepRun<N>>, marked: seq<StepRun<N>>)
    requires Matches(def, steps) && marked == MarkQueued(steps, ReadySteps(def, steps))
    ensures forall i :: 0 <= i < |steps| ==>
      marked[i] == if steps[i].state == Pending && DepsDone(States(steps), def.steps[i].dependsOn)
                   then steps[i].(state := Queued) else steps[i]
    ensures forall i :: 0 <= i < |steps| ==>
      (steps[i].id in ReadySet(def, steps) <==>
       steps[i].state == Pending && DepsDone(States(steps), def.steps[i].dependsOn))
  {
    forall i | 0 <= i < |steps|
      ensures marked[i] == if steps[i].state == Pending && DepsDone(States(steps), def.steps[i].dependsOn)
                           then steps[i].(state := Queued) else steps[i]
      ensures steps[i].id in ReadySet(def, steps) <==>
              steps[i].state == Pending && DepsDone(States(steps), def.steps[i].dependsOn)
    {
      MarkQueuedAt(steps, ReadySteps(def, steps), i);
      ReadyNames(def, steps, i);
    }
  }

  /** Steps that are done in neither or both block the same steps. */
  lemma {:induction false} SameBlocked<N(!new)>(a: seq<StepRun<N>>, b: seq<StepRun<N>>, deps: seq<N>)
    requires NoLessDone(a, b) && NoLessDone(b, a)
    ensures DepsDone(States(a), deps) <==> DepsDone(States(b), deps)
  {
    if DepsDone(States(a), deps) {
      DepsDoneMonotone(a, b, deps);
    } else if DepsDone(States(b), deps) {
      DepsDoneMonotone(b, a, deps);
    }
  }

  lemma {:induction false} EnqueueAgrees<N(!new)>(
      def: Definition<N>, steps: seq<StepRun<N>>, queued: set<N>, marked: seq<StepRun<N>>)
    requires Matches(def, steps) && QueueAgrees(steps, queued) && marked == MarkQueued(steps, ReadySteps(def, steps))
    ensures QueueAgrees(marked, queued + ReadySet(def, steps))
  {
    EnqueueSteps(def, steps, marked);
    forall n | n in queued + ReadySet(def, steps) ensures exists i :: 0 <= i < |marked| && marked[i].id == n {
      var i :| 0 <= i < |steps| && steps[i].id == n;
      assert marked[i].id == n;
    }
  }

  lemma {:induction false} EnqueueBlocked<N(!new)>(def: Definition<N>, steps: seq<StepRun<N>>, marked: seq<StepRun<N>>)
    requires Matches(def, steps) && StartedUnblocked(def, steps) && marked == MarkQueued(steps, ReadySteps(def, steps))
    ensures PendingIffBlocked(def, marked)
  {
    EnqueueSteps(def, steps, marked);
    assert NoLessDone(steps, marked) && NoLessDone(marked, steps);
    forall i | 0 <= i < |marked|
      ensures DepsDone(States(marked), def.steps[i].dependsOn) <==> DepsDone(States(steps), def.steps[i].dependsOn)
    {
      SameBlocked(steps, marked, def.steps[i].dependsOn);
    }
  }

  /** Queueing what became ready restores the run invariant. */
  lemma {:induction false} EnqueueInv<N(!new)>(def: Definition<N>, run: Run<N>, queued: set<N>, marked: seq<StepRun<N>>)
    requires Matches(def, run.steps) && Settled(run.steps) && QueueAgrees(run.steps, queued)
    requires StartedUnblocked(def, run.steps)
    requires !AllDone(run.steps) && run.state != RunSucceeded
    requires marked == MarkQueued(run.steps, ReadySteps(def, run.steps))
    ensures RunInv(def, run.(steps := marked), queued + ReadySet(def, run.steps))
  {
    EnqueueSteps(def, run.steps, marked);
    EnqueueAgrees(def, run.steps, queued, marked);
    EnqueueBlocked(def, run.steps, marked);
    var i :| 0 <= i < |marked| && !Done(run.steps[i].state);
    assert !Done(marked[i].state);
  }

  /** Step `n` ends in state `st`; other steps stay as they are or go from pending to queued. */
  ghost predicate Moved<N(!new)>(a: seq<StepRun<N>>, b: seq<StepRun<N>>, n: N, st: StepState) {
    && |a| == |b|
    && forall i :: 0 <= i < |a| ==>
      && b[i].id == a[i].id
      && (if a[i].id == n then b[i].state == st
          else b[i] == a[i] || (a[i].state == Pending && b[i].state == Queued))
  }

  /** The run once its step list is `steps`: finished, or with what became ready queued. */
  ghost function Completed<N(!new)>(def: Definition<N>, run: Run<N>, steps: seq<StepRun<N>>): Run<N> {
    if AllDone(steps) then run.(steps := steps, state := RunSucceeded)
    else run.(steps := MarkQueued(steps, ReadySteps(def, steps)))
  }

  ghost function NewlyQueued<N(!new)>(def: Definition<N>, steps: seq<StepRun<N>>): set<N> {
    if AllDone(steps) then {} else ReadySet(def, steps)
  }

  /** Completing a queued step keeps the invariant of its run. */
  lemma {:induction false} CompleteInv<N(!new)>(
      def: Definition<N>, run: Run<N>, queued: set<N>, n: N, steps: seq<StepRun<N>>)
    requires RunInv(def, run, queued) && n in queued
    requires steps == SetState(SetState(run.steps, n, Running), n, Succeeded)
    ensures RunInv(def, Completed(def, run, steps), queued - {n} + NewlyQueued(def, steps))
  {
    SetTwice(run.steps, n, Running, Succeeded);
    assert NoLessDone(run.steps, steps);
    StartedMonotone(def, run.steps, steps);
    assert QueueAgrees(steps, queued - {n});
    if AllDone(steps) {
      assert queued - {n} + {} == queued - {n};
    } else {
      assert run.state != RunSucceeded by {
        var i :| 0 <= i < |steps| && !Done(steps[i].state);
        assert !Done(run.steps[i].state);
      }
      EnqueueInv(def, run.(steps := steps), queued - {n}, MarkQueued(steps, ReadySteps(def, steps)));
    }
  }

  lemma {:induction false} CompleteMoved<N(!new)>(
      def: Definition<N>, before: seq<StepRun<N>>, n: N, steps: seq<StepRun<N>>)
    requires Matches(def, before) && steps == SetState(SetState(before, n, Running), n, Succeeded)
    ensures Moved(before, steps, n, Succeeded)
    ensures Moved(before, MarkQueued(steps, ReadySteps(def, steps)), n, Succeeded)
  {
    SetTwice(before, n, Running, Succeeded);
    forall i | 0 <= i < |steps|
      ensures MarkQueued(steps, ReadySteps(def, steps))[i] == steps[i] ||
              (steps[i].state == Pending && MarkQueued(steps, ReadySteps(def, steps))[i] == steps[i].(state := Queued))
    {
      MarkQueuedAt(steps, ReadySteps(def, steps), i);
      ReadyNames(def, steps, i);
    }
  }

  lemma {:induction false} SetTwice<N(!new)>(steps: seq<StepRun<N>>, n: N, first: StepState, second: StepState)
    requires DistinctSteps(steps)
    ensures DistinctSteps(SetState(steps, n, first))
    ensures forall i :: 0 <= i < |steps| ==>
      SetState(SetState(steps, n, first), n, second)[i] ==
        if steps[i].id == n then steps[i].(state := second) else steps[i]
  {
    forall i | 0 <= i < |steps|
      ensures SetState(steps, n, first)[i] == if steps[i].id == n then steps[i].(state := first) else steps[i]
    {
      SetStateAt(steps, n, first, i);
    }
    forall i | 0 <= i < |steps|
      ensures SetState(SetState(steps, n, first), n, second)[i] ==
        if steps[i].id == n then steps[i].(state := second) else steps[i]
    {
      SetStateAt(SetState(steps, n, first), n, second, i);
    }
  }

  lemma {:induction false} FailSteps<N(!new)>(
      before: seq<StepRun<N>>, n: N, attempt: int, started: bool, steps: seq<StepRun<N>>)
    requires DistinctSteps(before)
    requires steps == PutStep(if started then SetState(before, n, Running) else before, StepRun(n, Failed, attempt))
    ensures FailedAt(before, n, attempt, steps) && Moved(before, steps, n, Failed)
  {
    SetTwice(before, n, Running, Running);
    var base := if started then SetState(before, n, Running) else before;
    forall i | 0 <= i < |steps|
      ensures steps[i] == if before[i].id == n then StepRun(n, Failed, attempt) else before[i]
    {
      SetStateAt(before, n, Running, i);
      PutStepAt(base, StepRun(n, Failed, attempt), i);
    }
  }

  /** Failing a queued step, whether it was started or not, keeps the invariant of its run. */
  lemma {:induction false} FailInv<N(!new)>(
      def: Definition<N>, run: Run<N>, queued: set<N>, n: N, attempt: int, started: bool, steps: seq<StepRun<N>>)
    requires RunInv(def, run, queued) && n in queued
    requires steps == PutStep(
        if started then SetState(run.steps, n, Running) else run.steps, StepRun(n, Failed, attempt))
    ensures RunInv(def, run.(steps := steps, state := RunFailed), queued - {n})
  {
    FailSteps(run.steps, n, attempt, started, steps);
    FailBlocked(def, run.steps, n, attempt, steps);
    FailQueueAgrees(run.steps, queued, n, attempt, steps);
    var q :| 0 <= q < |steps| && run.steps[q].id == n;
    assert !Done(steps[q].state);
  }

  /** Exactly step `n` is replaced by a failed one. */
  ghost predicate FailedAt<N(!new)>(before: seq<StepRun<N>>, n: N, attempt: int, steps: seq<StepRun<N>>) {
    |steps| == |before| && forall i :: 0 <= i < |steps| ==>
      steps[i] == if before[i].id == n then StepRun(n, Failed, attempt) else before[i]
  }

  lemma {:induction false} FailBlocked<N(!new)>(
      def: Definition<N>, before: seq<StepRun<N>>, n: N, attempt: int, steps: seq<StepRun<N>>)
    requires Matches(def, before) && PendingIffBlocked(def, before) && FailedAt(before, n, attempt, steps)
    requires forall i :: 0 <= i < |before| && before[i].id == n ==> before[i].state == Queued
    ensures PendingIffBlocked(def, steps)
  {
    assert NoLessDone(before, steps) && NoLessDone(steps, before);
    forall i | 0 <= i < |steps|
      ensures DepsDone(States(steps), def.steps[i].dependsOn) <==> DepsDone(States(before), def.steps[i].dependsOn)
    {
      SameBlocked(before, steps, def.steps[i].dependsOn);
    }
  }

  lemma {:induction false} FailQueueAgrees<N(!new)>(
      before: seq<StepRun<N>>, queued: set<N>, n: N, attempt: int, steps: seq<StepRun<N>>)
    requires QueueAgrees(before, queued) && FailedAt(before, n, attempt, steps)
    ensures QueueAgrees(steps, queued - {n})
  {
    forall x | x in queued - {n} ensures exists i :: 0 <= i < |steps| && steps[i].id == x {
      var i :| 0 <= i < |before| && before[i].id == x;
      assert steps[i].id == x;
    }
  }

  /** A new run starts with exactly its ready steps queued. */
  lemma {:induction false} NewRunInv<N(!new)>(def: Definition<N>, marked: seq<StepRun<N>>)
    requires DistinctDefs(def.steps) && def.steps != []
    requires marked == MarkQueued(NewSteps(def), ReadySteps(def, NewSteps(def)))
    ensures RunInv(def, Run(def.id, RunQueued, marked), ReadySet(def, NewSteps(def)))
  {
    var steps := NewSteps(def);
    assert !Done(steps[0].state);
    EnqueueInv(def, Run(def.id, RunQueued, steps), {}, marked);
    assert {} + ReadySet(def, steps) == ReadySet(def, steps);
  }

  // ---- The whole engine ----

  ghost function QueuedOf<N(!new)>(queue: Queue<N>, key: RunKey<N>): set<N> {
    set k | k in queue && k.run == key :: k.step
  }

  /** Definitions are stored under their own id and name each step once. */
  ghost predicate DefsInv<N(!new)>(defs: Definitions<N>) {
    forall w :: w in defs ==> defs[w].id == w && DistinctDefs(defs[w].steps)
  }

  ghost predicate RunOk<N(!new)>(s: State<N>, key: RunKey<N>)
    requires key in s.runs
  {
    s.runs[key].workflow in s.defs && RunInv(s.defs[s.runs[key].workflow], s.runs[key], QueuedOf(s.queue, key))
  }

  ghost predicate HasStep<N(!new)>(runs: Runs<N>, k: QueueKey<N>) {
    k.run in runs && exists i :: 0 <= i < |runs[k.run].steps| && runs[k.run].steps[i].id == k.step
  }

  /** Handler calls: none twice, each leaves its step finished, and no step succeeds without one. */
  ghost predicate ExecInv<N(!new)>(runs: Runs<N>, executed: seq<QueueKey<N>>) {
    && (forall i, j :: 0 <= i < j < |executed| ==> executed[i] != executed[j])
    && (forall k :: k in executed ==> HasStep(runs, k))
    && forall key, i :: key in runs && 0 <= i < |runs[key].steps| ==> StepExecInv(runs, executed, key, i)
  }

  ghost predicate StepExecInv<N(!new)>(runs: Runs<N>, executed: seq<QueueKey<N>>, key: RunKey<N>, i: nat)
    requires key in runs && i < |runs[key].steps|
  {
    var s := runs[key].steps[i];
    && (s.state == Succeeded ==> QueueKey(key, s.id) in executed)
    && (QueueKey(key, s.id) in executed ==> s.state == Succeeded || s.state == Failed)
  }

  ghost predicate Inv<N(!new)>(s: State<N>) {
    && DefsInv(s.defs)
    && (forall key :: key in s.runs ==> RunOk(s, key))
    && (forall k :: k in s.queue ==> k.run in s.runs)
    && ExecInv(s.runs, s.executed)
  }

  lemma {:induction false} QueuedRemove<N(!new)>(queue: Queue<N>, k: QueueKey<N>, key: RunKey<N>)
    ensures QueuedOf(queue - {k}, key) == if key == k.run then QueuedOf(queue, key) - {k.step} else QueuedOf(queue, key)
  {
    forall n ensures n in QueuedOf(queue - {k}, key) <==>
                     n in QueuedOf(queue, key) && !(key == k.run && n == k.step)
    {
      assert n in QueuedOf(queue, key) <==> QueueKey(key, n) in queue;
      assert n in QueuedOf(queue - {k}, key) <==> QueueKey(key, n) in queue - {k};
    }
  }

  lemma {:induction false} QueuedEnqueue<N(!new)>(
      queue: Queue<N>, run: RunKey<N>, def: Definition<N>, steps: seq<StepRun<N>>, now: int, key: RunKey<N>)
    ensures QueuedOf(EnqueueAll(queue, run, ReadySteps(def, steps), now), key) ==
            QueuedOf(queue, key) + if key == run then ReadySet(def, steps) else {}
  {
    var ready := ReadySteps(def, steps);
    var after := EnqueueAll(queue, run, ready, now);
    forall n ensures n in QueuedOf(after, key) <==>
                     n in QueuedOf(queue, key) || (key == run && n in ReadySet(def, steps))
    {
      assert n in QueuedOf(queue, key) <==> QueueKey(key, n) in queue;
      assert n in QueuedOf(after, key) <==> QueueKey(key, n) in after;
      EnqueueAllKeys(queue, run, ready, now, QueueKey(key, n));
      if Names(ready, n) {
        var s :| s in ready && s.id == n;
        FilterMember(DependsOn(def.steps), States(steps), steps, s);
        var i :| 0 <= i < |steps| && steps[i] == s;
      }
      assert n in ReadySet(def, steps) <==> Names(ready, n);
    }
  }

  /** Replacing one run and only its queue items keeps the other runs in order. */
  lemma {:induction false} OneRunChanges<N(!new)>(s: State<N>, t: State<N>, key: RunKey<N>)
    requires DefsInv(s.defs) && t.defs == s.defs
    requires forall x :: x in s.runs && x != key ==> RunOk(s, x)
    requires t.runs.Keys == s.runs.Keys + {key} && RunOk(t, key)
    requires forall x :: x in s.runs && x != key ==> t.runs[x] == s.runs[x]
    requires forall x :: x in s.runs && x != key ==> QueuedOf(t.queue, x) == QueuedOf(s.queue, x)
    ensures forall x :: x in t.runs ==> RunOk(t, x)
  {
  }

  lemma {:induction false} ExecMoved<N(!new)>(
      runs: Runs<N>, executed: seq<QueueKey<N>>, k: QueueKey<N>, run: Run<N>, st: StepState, called: bool)
    requires ExecInv(runs, executed) && HasStep(runs, k)
    requires Moved(runs[k.run].steps, run.steps, k.step, st) && ((st == Succeeded && called) || st == Failed)
    requires forall i :: 0 <= i < |runs[k.run].steps| && runs[k.run].steps[i].id == k.step ==>
      !runs[k.run].steps[i].state.Succeeded? && !runs[k.run].steps[i].state.Failed?
    ensures ExecInv(runs[k.run := run], if called then executed + [k] else executed)
  {
    var after, log := runs[k.run := run], if called then executed + [k] else executed;
    assert k !in executed by {
      var i :| 0 <= i < |runs[k.run].steps| && runs[k.run].steps[i].id == k.step;
      assert StepExecInv(runs, executed, k.run, i);
    }
    forall x | x in log ensures HasStep(after, x) {
      assert x in executed || x == k;
      var i :| 0 <= i < |runs[x.run].steps| && runs[x.run].steps[i].id == x.step;
      assert after[x.run].steps[i].id == x.step;
    }
    forall key, i | key in after && 0 <= i < |after[key].steps| ensures StepExecInv(after, log, key, i) {
      assert StepExecInv(runs, executed, key, i);
    }
  }

  /** The lease `k` is settled in state `st`: only its run changed, and only its item left the queue. */
  ghost predicate Settles<N(!new)>(s: State<N>, t: State<N>, k: QueueKey<N>, st: StepState, now: int) {
    && t.defs == s.defs && t.runs.Keys == s.runs.Keys && k.run in s.runs && k !in t.queue
    && (forall x :: x in s.runs && x != k.run ==> t.runs[x] == s.runs[x])
    && t.runs[k.run].workflow == s.runs[k.run].workflow
    && Moved(s.runs[k.run].steps, t.runs[k.run].steps, k.step, st)
    && (forall x :: x in s.queue && x != k ==> x in t.queue && t.queue[x] == s.queue[x])
    && (forall x :: x in t.queue && x !in s.queue ==> t.queue[x].visibleAt == now)
  }

  /** An item in the queue belongs to a queued step of a known run, whose definition has that step. */
  lemma {:induction false} QueuedStep<N(!new)>(s: State<N>, k: QueueKey<N>) returns (def: Definition<N>, i: nat)
    requires Inv(s) && k in s.queue
    ensures k.run in s.runs && s.runs[k.run].workflow in s.defs && def == s.defs[s.runs[k.run].workflow]
    ensures RunInv(def, s.runs[k.run], QueuedOf(s.queue, k.run)) && k.step in QueuedOf(s.queue, k.run)
    ensures i < |s.runs[k.run].steps| && s.runs[k.run].steps[i].id == k.step && s.runs[k.run].steps[i].state == Queued
    ensures HasStep(s.runs, k) && FindStep(def.steps, k.step) != []
    ensures forall j :: 0 <= j < |s.runs[k.run].steps| && s.runs[k.run].steps[j].id == k.step ==> j == i
  {
    assert RunOk(s, k.run);
    def := s.defs[s.runs[k.run].workflow];
    assert k.step in QueuedOf(s.queue, k.run);
    i :| 0 <= i < |s.runs[k.run].steps| && s.runs[k.run].steps[i].id == k.step;
    assert def.steps[i].id == k.step;
  }

  lemma {:induction false} QueuedIsOpen<N(!new)>(s: State<N>, k: QueueKey<N>)
    requires Inv(s) && k in s.queue
    ensures HasStep(s.runs, k)
    ensures DistinctSteps(s.runs[k.run].steps) && QueueAgrees(s.runs[k.run].steps, QueuedOf(s.queue, k.run))
    ensures forall i :: 0 <= i < |s.runs[k.run].steps| && s.runs[k.run].steps[i].id == k.step ==>
      s.runs[k.run].steps[i].state == Queued
  {
    var def, i := QueuedStep(s, k);
  }

  ghost function Started<N(!new)>(s: State<N>, k: QueueKey<N>): State<N>
    requires k.run in s.runs
  {
    s.(executed := s.executed + [k],
       runs := s.runs[k.run := s.runs[k.run].(steps := SetState(s.runs[k.run].steps, k.step, Running))])
  }

  /** Enough for the invariant: the changed run, its queue items and the log fit together. */
  lemma {:induction false} SettleRun<N(!new)>(
      s: State<N>, t: State<N>, k: QueueKey<N>, def: Definition<N>, run: Run<N>, st: StepState, called: bool, now: int)
    requires Inv(s) && k in s.queue && k.run in s.runs && s.runs[k.run].workflow in s.defs
    requires def == s.defs[s.runs[k.run].workflow] && run.workflow == s.runs[k.run].workflow
    requires t == State(s.defs, s.runs[k.run := run], t.queue, if called then s.executed + [k] else s.executed)
    requires RunInv(def, run, QueuedOf(t.queue, k.run))
    requires Moved(s.runs[k.run].steps, run.steps, k.step, st) && ((st == Succeeded && called) || st == Failed)
    requires forall x :: x in s.runs && x != k.run ==> QueuedOf(t.queue, x) == QueuedOf(s.queue, x)
    requires QueueSettled(s.queue, t.queue, k, now)
    ensures Inv(t)
  {
    QueuedIsOpen(s, k);
    assert RunOk(t, k.run);
    assert forall x :: x in t.runs ==> RunOk(t, x) by { OneRunChanges(s, t, k.run); }
    ExecMoved(s.runs, s.executed, k, run, st, called);
  }

  lemma {:induction false} SettleEffect<N(!new)>(
      s: State<N>, t: State<N>, k: QueueKey<N>, run: Run<N>, st: StepState, now: int)
    requires k.run in s.runs && t.defs == s.defs && t.runs == s.runs[k.run := run]
    requires run.workflow == s.runs[k.run].workflow
    requires Moved(s.runs[k.run].steps, run.steps, k.step, st) && QueueSettled(s.queue, t.queue, k, now)
    ensures Settles(s, t, k, st, now)
  {
  }

  /** Only `k` leaves the queue, nothing else changes, and new items belong to `k`'s run and are visible from `now`. */
  ghost predicate QueueSettled<N(!new)>(a: Queue<N>, b: Queue<N>, k: QueueKey<N>, now: int) {
    && k !in b
    && (forall x :: x in a && x != k ==> x in b && b[x] == a[x])
    && (forall x :: x in b && x !in a ==> b[x].visibleAt == now && x.run == k.run)
  }

  lemma {:induction false} FailIs<N(!new)>(s: State<N>, k: QueueKey<N>, attempt: int, called: bool, run: Run<N>)
    requires k.run in s.runs
    requires run == s.runs[k.run].(
      steps := PutStep(if called then SetState(s.runs[k.run].steps, k.step, Running) else s.runs[k.run].steps,
                       StepRun(k.step, Failed, attempt)), state := RunFailed)
    ensures FailStep(if called then Started(s, k) else s, k, attempt) ==
            State(s.defs, s.runs[k.run := run], s.queue - {k}, if called then s.executed + [k] else s.executed)
  {
  }

  lemma {:induction false} CompleteIs<N(!new)>(
      s: State<N>, k: QueueKey<N>, def: Definition<N>, now: int, steps: seq<StepRun<N>>)
    requires k.run in s.runs && k in s.queue
    requires steps == SetState(SetState(s.runs[k.run].steps, k.step, Running), k.step, Succeeded)
    ensures CompleteStep(Started(s, k), k, def, now) ==
            State(s.defs, s.runs[k.run := Completed(def, s.runs[k.run], steps)],
                  if AllDone(steps) then s.queue - {k}
                    else EnqueueAll(s.queue - {k}, k.run, ReadySteps(def, steps), now),
                  s.executed + [k])
  {
    var t := CompleteStep(Started(s, k), k, def, now);
    assert t.runs[k.run] == Completed(def, s.runs[k.run], steps);
  }

  /** What the run of a failing lease becomes. */
  lemma {:induction false} FailRun<N(!new)>(s: State<N>, k: QueueKey<N>, attempt: int, called: bool)
    returns (def: Definition<N>, run: Run<N>)
    requires Inv(s) && k in s.queue
    ensures k.run in s.runs && s.runs[k.run].workflow in s.defs && def == s.defs[s.runs[k.run].workflow]
    ensures run == s.runs[k.run].(
      steps := PutStep(if called then SetState(s.runs[k.run].steps, k.step, Running) else s.runs[k.run].steps,
                       StepRun(k.step, Failed, attempt)), state := RunFailed)
    ensures RunInv(def, run, QueuedOf(s.queue, k.run) - {k.step})
    ensures Moved(s.runs[k.run].steps, run.steps, k.step, Failed)
  {
    var i;
    def, i := QueuedStep(s, k);
    run := s.runs[k.run].(
      steps := PutStep(if called then SetState(s.runs[k.run].steps, k.step, Running) else s.runs[k.run].steps,
                       StepRun(k.step, Failed, attempt)), state := RunFailed);
    FailInv(def, s.runs[k.run], QueuedOf(s.queue, k.run), k.step, attempt, called, run.steps);
    FailSteps(s.runs[k.run].steps, k.step, attempt, called, run.steps);
  }

  lemma {:induction false} FailQueue<N(!new)>(s: State<N>, k: QueueKey<N>, now: int)
    requires k in s.queue
    ensures QueuedOf(s.queue - {k}, k.run) == QueuedOf(s.queue, k.run) - {k.step}
    ensures forall x :: x in s.runs && x != k.run ==> QueuedOf(s.queue - {k}, x) == QueuedOf(s.queue, x)
    ensures QueueSettled(s.queue, s.queue - {k}, k, now)
  {
    forall x { QueuedRemove(s.queue, k, x); }
  }

  lemma {:induction false} FailKeeps<N(!new)>(
      s: State<N>, k: QueueKey<N>, attempt: int, called: bool, now: int, t: State<N>)
    requires Inv(s) && k in s.queue && k.run in s.runs
    requires t == FailStep(if called then Started(s, k) else s, k, attempt)
    ensures Inv(t) && Settles(s, t, k, Failed, now) && t.runs[k.run].state == RunFailed
    ensures t.executed == if called then s.executed + [k] else s.executed
  {
    var def, run := FailRun(s, k, attempt, called);
    FailIs(s, k, attempt, called, run);
    FailQueue(s, k, now);
    SettleRun(s, t, k, def, run, Failed, called, now);
    SettleEffect(s, t, k, run, Failed, now);
  }

  /** What the run of a completing lease becomes. */
  lemma {:induction false} CompleteRun<N(!new)>(s: State<N>, k: QueueKey<N>, steps: seq<StepRun<N>>)
    returns (def: Definition<N>, run: Run<N>)
    requires Inv(s) && k in s.queue && k.run in s.runs
    requires steps == SetState(SetState(s.runs[k.run].steps, k.step, Running), k.step, Succeeded)
    ensures s.runs[k.run].workflow in s.defs && def == s.defs[s.runs[k.run].workflow]
    ensures run == Completed(def, s.runs[k.run], steps)
    ensures RunInv(def, run, QueuedOf(s.queue, k.run) - {k.step} + NewlyQueued(def, steps))
    ensures Moved(s.runs[k.run].steps, run.steps, k.step, Succeeded)
  {
    var i;
    def, i := QueuedStep(s, k);
    run := Completed(def, s.runs[k.run], steps);
    CompleteInv(def, s.runs[k.run], QueuedOf(s.queue, k.run), k.step, steps);
    CompleteMoved(def, s.runs[k.run].steps, k.step, steps);
  }

  lemma {:induction false} CompleteKeeps<N(!new)>(
      s: State<N>, k: QueueKey<N>, def: Definition<N>, now: int, t: State<N>)
    requires Inv(s) && k in s.queue && k.run in s.runs && s.runs[k.run].workflow in s.defs
    requires def == s.defs[s.runs[k.run].workflow] && t == CompleteStep(Started(s, k), k, def, now)
    ensures Inv(t) && Settles(s, t, k, Succeeded, now) && t.executed == s.executed + [k]
  {
    var steps := SetState(SetState(s.runs[k.run].steps, k.step, Running), k.step, Succeeded);
    var def', run := CompleteRun(s, k, steps);
    QueuedIsOpen(s, k);
    CompleteIs(s, k, def, now, steps);
    CompleteQueue(s.queue, k, def, s.runs[k.run].steps, steps, now, t.queue);
    SettleRun(s, t, k, def, run, Succeeded, true, now);
    SettleEffect(s, t, k, run, Succeeded, now);
  }

  /** Newly ready steps were pending, so they had no queue item before. */
  lemma {:induction false} ReadyNotQueued<N(!new)>(
      def: Definition<N>, before: seq<StepRun<N>>, queued: set<N>, k: N, steps: seq<StepRun<N>>, n: N)
    requires DistinctSteps(before) && QueueAgrees(before, queued) && n in queued
    requires steps == SetState(SetState(before, k, Running), k, Succeeded)
    ensures !Names(ReadySteps(def, steps), n)
  {
    SetTwice(before, k, Running, Succeeded);
    forall s | s in ReadySteps(def, steps) ensures s.id != n {
      FilterMember(DependsOn(def.steps), States(steps), steps, s);
      var j :| 0 <= j < |steps| && steps[j] == s;
      assert before[j].state != Queued;
    }
  }

  lemma {:induction false} CompleteQueue<N(!new)>(
      before: Queue<N>, k: QueueKey<N>, def: Definition<N>, was: seq<StepRun<N>>, steps: seq<StepRun<N>>, now: int,
      queue: Queue<N>)
    requires DistinctSteps(was) && QueueAgrees(was, QueuedOf(before, k.run)) && k in before
    requires steps == SetState(SetState(was, k.step, Running), k.step, Succeeded)
    requires queue == if AllDone(steps) then before - {k}
      else EnqueueAll(before - {k}, k.run, ReadySteps(def, steps), now)
    ensures QueueSettled(before, queue, k, now)
    ensures forall x :: x != k.run ==> QueuedOf(queue, x) == QueuedOf(before, x)
    ensures QueuedOf(queue, k.run) == QueuedOf(before, k.run) - {k.step} + NewlyQueued(def, steps)
  {
    forall x { QueuedRemove(before, k, x); }
    if !AllDone(steps) {
      forall x { QueuedEnqueue(before - {k}, k.run, def, steps, now, x); }
      EnqueueSettled(before, k, def, was, steps, now, queue);
    }
  }

  lemma {:induction false} EnqueueSettled<N(!new)>(
      before: Queue<N>, k: QueueKey<N>, def: Definition<N>, was: seq<StepRun<N>>, steps: seq<StepRun<N>>, now: int,
      queue: Queue<N>)
    requires DistinctSteps(was) && QueueAgrees(was, QueuedOf(before, k.run)) && k in before
    requires steps == SetState(SetState(was, k.step, Running), k.step, Succeeded)
    requires queue == EnqueueAll(before - {k}, k.run, ReadySteps(def, steps), now)
    ensures QueueSettled(before, queue, k, now)
  {
    var ready := ReadySteps(def, steps);
    forall x: QueueKey<N>
      ensures x in queue <==> (x in before && x != k) || (x.run == k.run && Names(ready, x.step))
      ensures x in before ==> !(x.run == k.run && Names(ready, x.step))
      ensures x in before && x != k ==> x in queue && queue[x] == before[x]
      ensures x.run == k.run && Names(ready, x.step) ==> queue[x].visibleAt == now
    {
      EnqueueAllKeys(before - {k}, k.run, ready, now, x);
      if x in before && x.run == k.run {
        assert x.step in QueuedOf(before, k.run);
        ReadyNotQueued(def, was, QueuedOf(before, k.run), k.step, steps, x.step);
      }
    }
  }

  /** The handler that the definition names for the leased step is known. */
  ghost predicate Callable<N(!new)>(s: State<N>, k: QueueKey<N>, h: Handlers<N>) {
    && k.run in s.runs && s.runs[k.run].workflow in s.defs
    && exists d :: d in s.defs[s.runs[k.run].workflow].steps && d.id == k.step && h.known(d.handler)
  }

  lemma {:induction false} CallableIff<N(!new)>(s: State<N>, k: QueueKey<N>, h: Handlers<N>, def: Definition<N>)
    requires k.run in s.runs && s.runs[k.run].workflow in s.defs && def == s.defs[s.runs[k.run].workflow]
    requires DistinctDefs(def.steps) && FindStep(def.steps, k.step) != []
    ensures Callable(s, k, h) <==> h.known(FindStep(def.steps, k.step)[0].handler)
  {
    var f := FindStep(def.steps, k.step)[0];
    assert f in FindStep(def.steps, k.step);
    forall d | d in def.steps && d.id == k.step ensures d == f {
      var i :| 0 <= i < |def.steps| && def.steps[i] == d;
      var j :| 0 <= j < |def.steps| && def.steps[j] == f;
    }
  }

  /** Processing one lease keeps the invariant and settles that lease, as its handler decides. */
  lemma {:induction false} ExecuteKeeps<N(!new)>(
      s: State<N>, k: QueueKey<N>, attempt: int, h: Handlers<N>, now: int, t: State<N>)
    requires Inv(s) && k in s.queue && t == Execute(s, k, attempt, h, now)
    ensures Inv(t)
    ensures Settles(s, t, k, Succeeded, now) || Settles(s, t, k, Failed, now)
    ensures Callable(s, k, h) && h.succeeds(k) ==> Settles(s, t, k, Succeeded, now)
    ensures !(Callable(s, k, h) && h.succeeds(k)) ==> Settles(s, t, k, Failed, now) && t.runs[k.run].state == RunFailed
    ensures t.executed == if Callable(s, k, h) then s.executed + [k] else s.executed
  {
    var def, i := QueuedStep(s, k);
    var found := FindStep(def.steps, k.step);
    CallableIff(s, k, h, def);
    if !h.known(found[0].handler) {
      FailKeeps(s, k, attempt, false, now, t);
    } else if h.succeeds(k) {
      CompleteKeeps(s, k, def, now, t);
    } else {
      FailKeeps(s, k, attempt, true, now, t);
    }
  }

  /** With every handler known, a lease whose call succeeds makes its step SUCCEEDED. */
  lemma {:induction false} ExecuteSucceeds<N(!new)>(
      s: State<N>, k: QueueKey<N>, attempt: int, h: Handlers<N>, now: int, t: State<N>)
    requires Inv(s) && k in s.queue && t == Execute(s, k, attempt, h, now) && (forall n :: h.known(n)) && h.succeeds(k)
    ensures Inv(t) && Settles(s, t, k, Succeeded, now) && t.executed == s.executed + [k]
  {
    var def, i := QueuedStep(s, k);
    CallableIff(s, k, h, def);
    ExecuteKeeps(s, k, attempt, h, now, t);
  }

  lemma {:induction false} SplitLast<T>(prefix: seq<T>, s: seq<T>)
    requires s != [] && forall i, j :: 0 <= i < j < |s| ==> s[i] != s[j]
    ensures s[|s| - 1] !in s[..|s| - 1]
    ensures forall x :: x in s <==> x in s[..|s| - 1] || x == s[|s| - 1]
    ensures prefix + s == prefix + s[..|s| - 1] + [s[|s| - 1]]
  {
    assert s == s[..|s| - 1] + [s[|s| - 1]];
  }
}
