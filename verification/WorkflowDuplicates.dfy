/**
 Definitions with repeated step ids. Neither the store nor the engine refuses them, and all updates go to the first
 step with an id: the others stay PENDING, so such a run never succeeds.
 */
module WorkflowDuplicates {
  import opened WorkflowModel
  import opened WorkflowRuns

  /** Step `j` has the id of an earlier step. */
  ghost predicate Shadowed<N(!new)>(steps: seq<StepRun<N>>, j: int) {
    0 <= j < |steps| && exists i :: 0 <= i < j && steps[i].id == steps[j].id
  }

  ghost predicate ShadowedPending<N(!new)>(steps: seq<StepRun<N>>) {
    forall j :: Shadowed(steps, j) ==> steps[j].state == Pending
  }

  /** Same ids, and shadowed steps as before. */
  ghost predicate SparesShadowed<N(!new)>(before: seq<StepRun<N>>, after: seq<StepRun<N>>) {
    && |after| == |before| && (forall i :: 0 <= i < |before| ==> after[i].id == before[i].id)
    && forall j :: Shadowed(before, j) ==> after[j] == before[j]
  }

  lemma {:induction false} SparesOn<N(!new)>(a: seq<StepRun<N>>, b: seq<StepRun<N>>, c: seq<StepRun<N>>)
    requires SparesShadowed(a, b) && SparesShadowed(b, c)
    ensures SparesShadowed(a, c)
  {
    forall j | Shadowed(a, j) ensures c[j] == a[j] {
      var i :| 0 <= i < j && a[i].id == a[j].id;
      assert b[i].id == b[j].id;
      assert Shadowed(b, j);
    }
  }

  lemma {:induction false} SparesKeeps<N(!new)>(a: seq<StepRun<N>>, b: seq<StepRun<N>>)
    requires SparesShadowed(a, b)
    ensures ShadowedPending(a) ==> ShadowedPending(b)
    ensures forall j :: Shadowed(a, j) <==> Shadowed(b, j)
  {
    forall j ensures Shadowed(a, j) <==> Shadowed(b, j) {
      if Shadowed(a, j) {
        var i :| 0 <= i < j && a[i].id == a[j].id;
        assert b[i].id == b[j].id;
      }
      if Shadowed(b, j) {
        var i :| 0 <= i < j && b[i].id == b[j].id;
        assert a[i].id == a[j].id;
      }
    }
  }

  /** What an update of the first step called `id` leaves alone. */
  lemma {:induction false} SetStateAt<N(!new)>(steps: seq<StepRun<N>>, id: N, st: StepState, j: nat)
    requires j < |steps|
    ensures SetState(steps, id, st)[j].id == steps[j].id
    ensures (exists i :: 0 <= i < j && steps[i].id == steps[j].id) ==> SetState(steps, id, st)[j] == steps[j]
  {
    if steps[0].id != id && j > 0 {
      SetStateAt(steps[1..], id, st, j - 1);
      if steps[0].id != steps[j].id && exists i :: 0 <= i < j && steps[i].id == steps[j].id {
        var i :| 0 <= i < j && steps[i].id == steps[j].id;
        assert steps[1..][i - 1].id == steps[1..][j - 1].id;
      } else if steps[0].id == steps[j].id {
        OtherIds(steps[1..], id, st, j - 1);
      }
    }
  }

  lemma {:induction false} OtherIds<N(!new)>(steps: seq<StepRun<N>>, id: N, st: StepState, j: nat)
    requires j < |steps| && steps[j].id != id
    ensures SetState(steps, id, st)[j] == steps[j]
  {
    if steps[0].id != id && j > 0 {
      OtherIds(steps[1..], id, st, j - 1);
    }
  }

  lemma {:induction false} SetStateSpares<N(!new)>(steps: seq<StepRun<N>>, id: N, st: StepState)
    ensures SparesShadowed(steps, SetState(steps, id, st))
  {
    forall j | 0 <= j < |steps|
      ensures SetState(steps, id, st)[j].id == steps[j].id
      ensures Shadowed(steps, j) ==> SetState(steps, id, st)[j] == steps[j]
    {
      SetStateAt(steps, id, st, j);
    }
  }

  lemma {:induction false} PutStepAt<N(!new)>(steps: seq<StepRun<N>>, s: StepRun<N>, j: nat)
    requires j < |steps|
    ensures PutStep(steps, s)[j].id == steps[j].id
    ensures (exists i :: 0 <= i < j && steps[i].id == s.id) ==> PutStep(steps, s)[j] == steps[j]
    ensures steps[j].id != s.id ==> PutStep(steps, s)[j] == steps[j]
  {
    if steps[0].id != s.id && j > 0 {
      PutStepAt(steps[1..], s, j - 1);
      if exists i :: 0 <= i < j && steps[i].id == s.id {
        var i :| 0 <= i < j && steps[i].id == s.id;
        assert steps[1..][i - 1].id == s.id;
      }
    }
  }

  lemma {:induction false} PutStepSpares<N(!new)>(steps: seq<StepRun<N>>, s: StepRun<N>)
    ensures SparesShadowed(steps, PutStep(steps, s))
  {
    forall j | 0 <= j < |steps|
      ensures PutStep(steps, s)[j].id == steps[j].id
      ensures Shadowed(steps, j) ==> PutStep(steps, s)[j] == steps[j]
    {
      PutStepAt(steps, s, j);
    }
  }

  lemma {:induction false} MarkQueuedSpares<N(!new)>(steps: seq<StepRun<N>>, ready: seq<StepRun<N>>)
    ensures SparesShadowed(steps, MarkQueued(steps, ready))
    decreases |ready|
  {
    if ready != [] {
      var rest, last := ready[..|ready| - 1], ready[|ready| - 1];
      MarkQueuedSpares(steps, rest);
      SetStateSpares(MarkQueued(steps, rest), last.id, Queued);
      SparesOn(steps, MarkQueued(steps, rest), MarkQueued(steps, ready));
    }
  }

  // ---- One run ----

  /** A run with a shadowed step has not succeeded, and its shadowed steps are PENDING. */
  ghost predicate Blocked<N(!new)>(run: Run<N>) {
    ShadowedPending(run.steps) && ((exists j :: Shadowed(run.steps, j)) ==> run.state != RunSucceeded)
  }

  ghost predicate AllBlocked<N(!new)>(s: State<N>) {
    forall key :: key in s.runs ==> Blocked(s.runs[key])
  }

  lemma {:induction false} BlockedOn<N(!new)>(run: Run<N>, steps: seq<StepRun<N>>, st: RunState)
    requires Blocked(run) && SparesShadowed(run.steps, steps) && (st == run.state || st != RunSucceeded)
    ensures Blocked(Run(run.workflow, st, steps))
  {
    SparesKeeps(run.steps, steps);
  }

  lemma {:induction false} EnqueueReadyBlocked<N(!new)>(s: State<N>, key: RunKey<N>, def: Definition<N>, now: int)
    requires AllBlocked(s) && key in s.runs
    ensures AllBlocked(EnqueueReady(s, key, def, now))
  {
    var run := s.runs[key];
    var ready := ReadySteps(def, run.steps);
    MarkQueuedSpares(run.steps, ready);
    BlockedOn(run, MarkQueued(run.steps, ready), run.state);
  }

  lemma {:induction false} FailBlocked<N(!new)>(s: State<N>, k: QueueKey<N>, attempt: int)
    requires AllBlocked(s) && k.run in s.runs
    ensures AllBlocked(FailStep(s, k, attempt))
  {
    var run := s.runs[k.run];
    PutStepSpares(run.steps, StepRun(k.step, Failed, attempt));
    BlockedOn(run, PutStep(run.steps, StepRun(k.step, Failed, attempt)), RunFailed);
  }

  lemma {:induction false} CompleteBlocked<N(!new)>(s: State<N>, k: QueueKey<N>, def: Definition<N>, now: int)
    requires AllBlocked(s) && k.run in s.runs
    ensures AllBlocked(CompleteStep(s, k, def, now))
  {
    if k in s.queue {
      var run := s.runs[k.run];
      var steps := SetState(run.steps, k.step, Succeeded);
      SetStateSpares(run.steps, k.step, Succeeded);
      SparesKeeps(run.steps, steps);
      BlockedOn(run, steps, run.state);
      if !AllDone(steps) {
        var mid := s.(runs := s.runs[k.run := run.(steps := steps)], queue := s.queue - {k});
        EnqueueReadyBlocked(mid, k.run, def, now);
      }
    }
  }

  lemma {:induction false} ExecuteBlocked<N(!new)>(s: State<N>, k: QueueKey<N>, attempt: int, h: Handlers<N>, now: int)
    requires AllBlocked(s)
    ensures AllBlocked(Execute(s, k, attempt, h, now))
  {
    if k.run in s.runs && s.runs[k.run].workflow in s.defs {
      var run, def := s.runs[k.run], s.defs[s.runs[k.run].workflow];
      FailBlocked(s, k, attempt);
      SetStateSpares(run.steps, k.step, Running);
      BlockedOn(run, SetState(run.steps, k.step, Running), run.state);
      var started := s.(executed := s.executed + [k],
                        runs := s.runs[k.run := run.(steps := SetState(run.steps, k.step, Running))]);
      FailBlocked(started, k, attempt);
      CompleteBlocked(started, k, def, now);
    }
  }

  lemma {:induction false} ExecuteAllBlocked<N(!new)>(
      s: State<N>, leased: seq<QueueKey<N>>, leases: Queue<N>, h: Handlers<N>, clock: nat -> int)
    requires AllBlocked(s) && forall k :: k in leased ==> k in leases
    ensures AllBlocked(ExecuteAll(s, leased, leases, h, clock))
    decreases |leased|
  {
    if leased != [] {
      var rest, k := leased[..|leased| - 1], leased[|leased| - 1];
      assert k in leased;
      ExecuteAllBlocked(s, rest, leases, h, clock);
      ExecuteBlocked(ExecuteAll(s, rest, leases, h, clock), k, leases[k].attempt, h, clock(|leased| - 1));
    }
  }

  lemma {:induction false} SubmitBlocked<N(!new)>(s: State<N>, def: Definition<N>, key: RunKey<N>, now: int)
    requires AllBlocked(s)
    ensures AllBlocked(Submit(s, def, key, now))
  {
    if def.steps != [] && key !in s.runs {
      EnqueueReadyBlocked(s.(runs := s.runs[key := Run(def.id, RunQueued, NewSteps(def))]), key, def, now);
    }
  }

  // ---- Every run, whatever definitions are created ----

  /** One engine operation; any definition may be created. */
  ghost predicate AnyNext<N(!new)>(s: State<N>, op: Op<N>, t: State<N>) {
    match op
    case CreateOp(def) => t == CreateDefinition(s, def)
    case _ => Next(s, op, t)
  }

  ghost predicate IsAnyRun<N(!new)>(states: seq<State<N>>, ops: seq<Op<N>>) {
    && |states| == |ops| + 1 && states[0] == State(map[], map[], map[], [])
    && forall i :: 0 <= i < |ops| ==> AnyNext(states[i], ops[i], states[i + 1])
  }

  lemma {:induction false} NextBlocked<N(!new)>(s: State<N>, op: Op<N>, t: State<N>)
    requires AllBlocked(s) && AnyNext(s, op, t)
    ensures AllBlocked(t)
  {
    match op
    case CreateOp(def) =>
    case SubmitOp(w, key, now) => if w in s.defs { SubmitBlocked(s, s.defs[w], key, now); }
    case CancelOp(key) =>
    case ProcessOp(leased, limit, h, now, clock) =>
      var leases := Lease(s.queue, leased, now);
      ExecuteAllBlocked(s.(queue := leases), leased, leases, h, clock);
  }

  /** Over every run of the engine, a run with repeated step ids is never SUCCEEDED: the repeated steps stay PENDING. */
  lemma {:induction false} DuplicateNeverSucceeds<N(!new)>(
      states: seq<State<N>>, ops: seq<Op<N>>, n: nat, key: RunKey<N>, j: nat)
    requires IsAnyRun(states, ops) && n < |states| && key in states[n].runs && Shadowed(states[n].runs[key].steps, j)
    ensures states[n].runs[key].steps[j].state == Pending && states[n].runs[key].state != RunSucceeded
  {
    RunBlocked(states, ops, n);
    assert Blocked(states[n].runs[key]);
  }

  lemma {:induction false} RunBlocked<N(!new)>(states: seq<State<N>>, ops: seq<Op<N>>, n: nat)
    requires IsAnyRun(states, ops) && n < |states|
    ensures AllBlocked(states[n])
  {
    if n > 0 {
      RunBlocked(states, ops, n - 1);
      assert AnyNext(states[n - 1], ops[n - 1], states[n]);
      NextBlocked(states[n - 1], ops[n - 1], states[n]);
    }
  }
}
