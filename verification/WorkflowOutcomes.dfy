/**
 What becomes of a step is what its handler made of it: SUCCEEDED only through a call that succeeded, FAILED only
 through one that failed or a handler that is missing, and the calls are made in the order of the leases.
 */
module WorkflowOutcomes {
  import opened WorkflowModel
  import opened WorkflowSafety
  import opened WorkflowRuns
  import opened WorkflowProgress
  import opened Sequences

  /** Step `i` of run `key` is in state `st`. */
  ghost predicate StepIs<N(!new)>(s: State<N>, key: RunKey<N>, i: int, st: StepState) {
    key in s.runs && 0 <= i < |s.runs[key].steps| && s.runs[key].steps[i].state == st
  }

  /** The queue item of step `i` of run `key`. */
  ghost function ItemOf<N(!new)>(s: State<N>, key: RunKey<N>, i: int): QueueKey<N>
    requires key in s.runs && 0 <= i < |s.runs[key].steps|
  {
    QueueKey(key, s.runs[key].steps[i].id)
  }

  // ---- One lease ----

  /** The handler of the leased step is that of its definition. */
  lemma {:induction false} CallableAt<N(!new)>(s: State<N>, k: QueueKey<N>, h: Handlers<N>, i: nat)
    requires DefsInv(s.defs) && k.run in s.runs && RunOk(s, k.run)
    requires i < |s.runs[k.run].steps| && s.runs[k.run].steps[i].id == k.step
    ensures Callable(s, k, h) <==> h.known(s.defs[s.runs[k.run].workflow].steps[i].handler)
  {
    var steps := s.defs[s.runs[k.run].workflow].steps;
    assert steps[i] in steps && steps[i].id == k.step;
    if Callable(s, k, h) {
      var d :| d in steps && d.id == k.step && h.known(d.handler);
      var j :| 0 <= j < |steps| && steps[j] == d;
    }
  }

  lemma {:induction false} SettledAt<N(!new)>(s: State<N>, t: State<N>, k: QueueKey<N>, st: StepState, now: int, i: nat)
    requires Settles(s, t, k, st, now) && i < |s.runs[k.run].steps| && s.runs[k.run].steps[i].id == k.step
    ensures StepIs(t, k.run, i, st)
  {
  }

  /** Processing a lease: a known handler that succeeds makes the step SUCCEEDED, anything else fails step and run. */
  lemma {:induction false} LeaseOutcome<N(!new)>(
      s: State<N>, k: QueueKey<N>, attempt: int, h: Handlers<N>, now: int, t: State<N>, i: nat)
    requires Inv(s) && k in s.queue && t == Execute(s, k, attempt, h, now)
    requires k.run in s.runs && i < |s.runs[k.run].steps| && s.runs[k.run].steps[i].id == k.step
    ensures Inv(t) && RunOk(s, k.run)
    ensures var known := h.known(s.defs[s.runs[k.run].workflow].steps[i].handler);
      && StepIs(t, k.run, i, if known && h.succeeds(k) then Succeeded else Failed)
      && (!(known && h.succeeds(k)) ==> t.runs[k.run].state == RunFailed)
      && t.executed == if known then s.executed + [k] else s.executed
  {
    ExecuteKeeps(s, k, attempt, h, now, t);
    assert RunOk(s, k.run);
    CallableAt(s, k, h, i);
    SettledAt(s, t, k, if Callable(s, k, h) && h.succeeds(k) then Succeeded else Failed, now, i);
  }

  // ---- From state to state ----

  /** Definitions stay, no run comes or goes, and runs keep their workflow and the ids of their steps. */
  ghost predicate SameShape<N(!new)>(s: State<N>, t: State<N>) {
    && t.defs == s.defs && t.runs.Keys == s.runs.Keys
    && forall key :: key in s.runs ==> SameRun(s.runs[key], t.runs[key])
  }

  ghost predicate SameRun<N(!new)>(a: Run<N>, b: Run<N>) {
    && b.workflow == a.workflow && |b.steps| == |a.steps|
    && forall i :: 0 <= i < |a.steps| ==> b.steps[i].id == a.steps[i].id
  }

  /** Handlers `h` explain why the step of item `k` is SUCCEEDED or FAILED. */
  ghost predicate Explains<N(!new)>(s: State<N>, k: QueueKey<N>, h: Handlers<N>, st: StepState) {
    if st == Succeeded then Callable(s, k, h) && h.succeeds(k) else !(Callable(s, k, h) && h.succeeds(k))
  }

  /** Step `i` of run `key` is not newly finished, or one of the leases explains it. */
  ghost predicate Explained<N(!new)>(
      s: State<N>, t: State<N>, leased: seq<QueueKey<N>>, h: Handlers<N>, key: RunKey<N>, i: int, st: StepState)
    requires SameShape(s, t)
  {
    StepIs(t, key, i, st) ==>
      StepIs(s, key, i, st) || (ItemOf(s, key, i) in leased && Explains(s, ItemOf(s, key, i), h, st))
  }

  lemma {:induction false} SettlesShape<N(!new)>(s: State<N>, t: State<N>, k: QueueKey<N>, st: StepState, now: int)
    requires Settles(s, t, k, st, now)
    ensures SameShape(s, t)
  {
  }

  lemma {:induction false} SettlesExplained<N(!new)>(
      s: State<N>, t: State<N>, k: QueueKey<N>, h: Handlers<N>, now: int, key: RunKey<N>, i: int, st: StepState)
    requires st == Succeeded || st == Failed
    requires Settles(s, t, k, if Callable(s, k, h) && h.succeeds(k) then Succeeded else Failed, now) && SameShape(s, t)
    ensures Explained(s, t, [k], h, key, i, st)
  {
  }

  lemma {:induction false} LeaseExplained<N(!new)>(
      s: State<N>, k: QueueKey<N>, attempt: int, h: Handlers<N>, now: int, t: State<N>,
      key: RunKey<N>, i: int, st: StepState)
    requires Inv(s) && k in s.queue && t == Execute(s, k, attempt, h, now) && (st == Succeeded || st == Failed)
    ensures SameShape(s, t) && Explained(s, t, [k], h, key, i, st)
  {
    ExecuteKeeps(s, k, attempt, h, now, t);
    SettlesShape(s, t, k, if Callable(s, k, h) && h.succeeds(k) then Succeeded else Failed, now);
    SettlesExplained(s, t, k, h, now, key, i, st);
  }

  lemma {:induction false} ShapeOn<N(!new)>(a: State<N>, b: State<N>, c: State<N>)
    requires SameShape(a, b) && SameShape(b, c)
    ensures SameShape(a, c)
  {
  }

  lemma {:induction false} ExplainedOn<N(!new)>(
      a: State<N>, b: State<N>, c: State<N>, rest: seq<QueueKey<N>>, k: QueueKey<N>, leased: seq<QueueKey<N>>,
      h: Handlers<N>, key: RunKey<N>, i: int, st: StepState)
    requires SameShape(a, b) && SameShape(b, c) && SameShape(a, c)
    requires Explained(a, b, rest, h, key, i, st) && Explained(b, c, [k], h, key, i, st)
    requires k in leased && forall x :: x in rest ==> x in leased
    ensures Explained(a, c, leased, h, key, i, st)
  {
    if StepIs(c, key, i, st) && !StepIs(b, key, i, st) {
      assert SameRun(a.runs[key], b.runs[key]) && SameRun(b.runs[key], c.runs[key]);
      assert Callable(a, k, h) <==> Callable(b, k, h);
    }
  }

  lemma {:induction false} PassExplained<N(!new)>(
      s: State<N>, leased: seq<QueueKey<N>>, leases: Queue<N>, h: Handlers<N>, clock: nat -> int, t: State<N>,
      key: RunKey<N>, i: int, st: StepState)
    requires Inv(s) && (forall k :: k in leased ==> k in s.queue && k in leases)
    requires forall i, j :: 0 <= i < j < |leased| ==> leased[i] != leased[j]
    requires t == ExecuteAll(s, leased, leases, h, clock) && (st == Succeeded || st == Failed)
    ensures SameShape(s, t) && Explained(s, t, leased, h, key, i, st)
    decreases |leased|
  {
    if leased != [] {
      var rest, k := leased[..|leased| - 1], leased[|leased| - 1];
      SplitLast([], leased);
      var mid := ExecuteAll(s, rest, leases, h, clock);
      ExecuteAllKeeps(s, rest, leases, h, clock, mid);
      PassExplained(s, rest, leases, h, clock, mid, key, i, st);
      LeaseExplained(mid, k, leases[k].attempt, h, clock(|leased| - 1), t, key, i, st);
      ShapeOn(s, mid, t);
      ExplainedOn(s, mid, t, rest, k, leased, h, key, i, st);
    }
  }

  // ---- Over every run ----

  /** Some pass before state `n` leased the step and its handlers explain the step's state. */
  ghost predicate HasCause<N(!new)>(
      states: seq<State<N>>, ops: seq<Op<N>>, n: nat, k: QueueKey<N>, st: StepState)
    requires |states| == |ops| + 1
  {
    exists j :: 0 <= j < n && j < |ops| && CauseAt(states, ops, j, k, st)
  }

  ghost predicate CauseAt<N(!new)>(states: seq<State<N>>, ops: seq<Op<N>>, j: int, k: QueueKey<N>, st: StepState)
    requires 0 <= j < |ops| && |states| == |ops| + 1
  {
    ops[j].ProcessOp? && k in ops[j].leased && Explains(states[j], k, ops[j].h, st)
  }

  lemma {:induction false} NextExplained<N(!new)>(
      s: State<N>, op: Op<N>, t: State<N>, key: RunKey<N>, i: int, st: StepState)
    requires Inv(s) && Next(s, op, t) && StepIs(t, key, i, st) && (st == Succeeded || st == Failed)
    ensures
      || (StepIs(s, key, i, st) && ItemOf(s, key, i) == ItemOf(t, key, i))
      || (op.ProcessOp? && ItemOf(t, key, i) in op.leased && Explains(s, ItemOf(t, key, i), op.h, st))
  {
    match op
    case CreateOp(def) =>
    case SubmitOp(w, k, now) => if w in s.defs { SubmitUnfinished(s, s.defs[w], k, now, t, key, i); }
    case CancelOp(k) =>
    case ProcessOp(leased, limit, h, now, clock) =>
      var mid := s.(queue := Lease(s.queue, leased, now));
      LeaseKeeps(s, leased, now);
      PassExplained(mid, leased, Lease(s.queue, leased, now), h, clock, t, key, i, st);
      assert SameRun(mid.runs[key], t.runs[key]);
      assert Callable(mid, ItemOf(t, key, i), h) <==> Callable(s, ItemOf(t, key, i), h);
  }

  lemma {:induction false} SubmitUnfinished<N(!new)>(
      s: State<N>, def: Definition<N>, k: RunKey<N>, now: int, t: State<N>, key: RunKey<N>, i: int)
    requires DistinctDefs(def.steps) && t == Submit(s, def, k, now) && key in t.runs && 0 <= i < |t.runs[key].steps|
    ensures if key in s.runs then t.runs[key] == s.runs[key]
      else t.runs[key].steps[i].state == Pending || t.runs[key].steps[i].state == Queued
  {
    if key !in s.runs {
      MarkQueuedAt(NewSteps(def), ReadySteps(def, NewSteps(def)), i);
    }
  }

  /**
   Over every run, a step is SUCCEEDED only if some pass leased it with a known handler that succeeded, and FAILED
   only if some pass leased it with a handler that failed or is missing.
   */
  lemma {:induction false} FinishedHasCause<N(!new)>(
      states: seq<State<N>>, ops: seq<Op<N>>, n: nat, key: RunKey<N>, i: int, st: StepState)
    requires IsRun(states, ops) && n < |states| && StepIs(states[n], key, i, st) && (st == Succeeded || st == Failed)
    ensures HasCause(states, ops, n, ItemOf(states[n], key, i), st)
  {
    if n > 0 {
      EveryRunIsSafe(states, ops, n - 1);
      assert Next(states[n - 1], ops[n - 1], states[n]);
      NextExplained(states[n - 1], ops[n - 1], states[n], key, i, st);
      var k := ItemOf(states[n], key, i);
      if CauseAt(states, ops, n - 1, k, st) {
      } else {
        FinishedHasCause(states, ops, n - 1, key, i, st);
        var j :| 0 <= j < n - 1 && j < |ops| && CauseAt(states, ops, j, k, st);
        assert CauseAt(states, ops, j, k, st);
      }
    }
  }

  // ---- The order of the calls ----

  /** The leases whose handlers are known, in order. */
  ghost function Calls<N(!new)>(s: State<N>, leased: seq<QueueKey<N>>, h: Handlers<N>): seq<QueueKey<N>> {
    if leased == [] then []
    else
      var k := leased[|leased| - 1];
      Calls(s, leased[..|leased| - 1], h) + if Callable(s, k, h) then [k] else []
  }

  /** A pass calls the handlers of its leases one after the other, in the order in which they were leased. */
  lemma {:induction false} CallsInOrder<N(!new)>(
      s: State<N>, leased: seq<QueueKey<N>>, leases: Queue<N>, h: Handlers<N>, clock: nat -> int, t: State<N>)
    requires Inv(s) && Distinct(leased) && forall k :: k in leased ==> k in s.queue && k in leases
    requires t == ExecuteAll(s, leased, leases, h, clock)
    ensures t.executed == s.executed + Calls(s, leased, h)
  {
    var states := LeasesOf(s, leased, leases, h, clock);
    CallsUpTo(states, leased, leases, h, clock, |leased|);
    assert leased[..|leased|] == leased;
  }

  /** Where a pass stands after `n` leases. */
  ghost predicate Standing<N(!new)>(first: State<N>, s: State<N>, leased: seq<QueueKey<N>>, h: Handlers<N>, n: nat)
    requires n <= |leased|
  {
    && Inv(s) && SameShape(first, s) && s.executed == first.executed + Calls(first, leased[..n], h)
    && forall i :: n <= i < |leased| ==> leased[i] in s.queue
  }

  lemma {:induction false} CallsUpTo<N(!new)>(
      states: seq<State<N>>, leased: seq<QueueKey<N>>, leases: Queue<N>, h: Handlers<N>, clock: nat -> int, n: nat)
    requires |states| == |leased| + 1 && n <= |leased| && Inv(states[0]) && Distinct(leased)
    requires forall k :: k in leased ==> k in states[0].queue && k in leases
    requires forall i :: 0 <= i < |leased| ==> LeaseAt(states, leased, leases, h, clock, i)
    ensures Standing(states[0], states[n], leased, h, n)
  {
    if n > 0 {
      CallsUpTo(states, leased, leases, h, clock, n - 1);
      assert LeaseAt(states, leased, leases, h, clock, n - 1);
      var k := leased[n - 1];
      StandingOn(states[0], states[n - 1], leased, h, n - 1, leases[k].attempt, clock(n - 1), states[n]);
    } else {
      assert leased[..0] == [];
    }
  }

  lemma {:induction false} StandingOn<N(!new)>(
      first: State<N>, s: State<N>, leased: seq<QueueKey<N>>, h: Handlers<N>, n: nat,
      attempt: int, now: int, t: State<N>)
    requires n < |leased| && Standing(first, s, leased, h, n) && Distinct(leased)
    requires t == Execute(s, leased[n], attempt, h, now)
    ensures Standing(first, t, leased, h, n + 1)
  {
    NextCall(first, s, leased[n], attempt, h, now, t);
    CallsSnoc(first, leased, h, n + 1);
    Regroup(first.executed, Calls(first, leased[..n], h), if Callable(first, leased[n], h) then [leased[n]] else []);
  }

  lemma {:induction false} Regroup<T>(a: seq<T>, b: seq<T>, c: seq<T>)
    ensures a + b + c == a + (b + c)
  {
  }

  lemma {:induction false} CallsSnoc<N(!new)>(s: State<N>, leased: seq<QueueKey<N>>, h: Handlers<N>, n: nat)
    requires 0 < n <= |leased|
    ensures Calls(s, leased[..n], h) ==
      Calls(s, leased[..n - 1], h) + if Callable(s, leased[n - 1], h) then [leased[n - 1]] else []
  {
    assert leased[..n][..n - 1] == leased[..n - 1];
  }

  lemma {:induction false} NextCall<N(!new)>(
      s: State<N>, mid: State<N>, k: QueueKey<N>, attempt: int, h: Handlers<N>, now: int, t: State<N>)
    requires Inv(mid) && k in mid.queue && SameShape(s, mid) && t == Execute(mid, k, attempt, h, now)
    ensures Inv(t) && SameShape(s, t) && t.executed == mid.executed + if Callable(s, k, h) then [k] else []
    ensures forall x :: x in mid.queue && x != k ==> x in t.queue
  {
    ExecuteOne(mid, k, attempt, h, now, t);
    LastCall(s, mid, k, attempt, h, now, t);
    LeaseExplained(mid, k, attempt, h, now, t, k.run, 0, Failed);
    ShapeOn(s, mid, t);
  }

  lemma {:induction false} LastCall<N(!new)>(
      s: State<N>, mid: State<N>, k: QueueKey<N>, attempt: int, h: Handlers<N>, now: int, t: State<N>)
    requires Inv(mid) && k in mid.queue && SameShape(s, mid) && t == Execute(mid, k, attempt, h, now)
    ensures t.executed == mid.executed + if Callable(s, k, h) then [k] else []
  {
    ExecuteKeeps(mid, k, attempt, h, now, t);
    assert k.run in s.runs ==> SameRun(s.runs[k.run], mid.runs[k.run]);
  }
}
