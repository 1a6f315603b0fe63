/**
 Validation of workflow definitions, and what it does and does not rule out.
 */
module WorkflowValidation {
  import opened WorkflowModel
  import opened WorkflowSafety
  import opened WorkflowProgress
  import opened WorkflowRuns

  datatype Verdict =
    | Accepted
    | Empty
    | BadStepId(id: string)
    | Duplicate(id: string)
    | NoHandler(id: string)
    | UnknownDep(id: string, dep: string)

  const MAX_STEP_ID := 64

  /** A lower-case letter followed by at most 63 lower-case letters, digits, dashes or dots. */
  predicate ValidStepId(id: string) {
    1 <= |id| <= MAX_STEP_ID && 'a' <= id[0] <= 'z' &&
    forall i :: 1 <= i < |id| ==> 'a' <= id[i] <= 'z' || '0' <= id[i] <= '9' || id[i] == '-' || id[i] == '.'
  }

  const LETTERS := "abcdefghijklmnopqrstuvwxyz"
  const DIGITS := "0123456789"

  lemma {:induction false} Letters(c: char)
    ensures c in LETTERS <==> 'a' <= c <= 'z'
  {
    if 'a' <= c <= 'z' {
      assert LETTERS[c as int - 'a' as int] == c;
    }
  }

  lemma {:induction false} Digits(c: char)
    ensures c in DIGITS <==> '0' <= c <= '9'
  {
    if '0' <= c <= '9' {
      assert DIGITS[c as int - '0' as int] == c;
    }
  }

  /** The pattern of ids, spelled out. */
  lemma {:induction false} StepIdPattern(id: string)
    ensures ValidStepId(id) <==>
      && 1 <= |id| <= 64 && id[0] in LETTERS
      && forall i :: 1 <= i < |id| ==> id[i] in LETTERS + DIGITS + "-."
  {
    forall i | 0 <= i < |id| ensures id[i] in LETTERS <==> 'a' <= id[i] <= 'z' { Letters(id[i]); }
    forall i | 0 <= i < |id| ensures id[i] in DIGITS <==> '0' <= id[i] <= '9' { Digits(id[i]); }
    forall i | 0 <= i < |id|
      ensures id[i] in LETTERS + DIGITS + "-." <==>
        id[i] in LETTERS || id[i] in DIGITS || id[i] == '-' || id[i] == '.'
    {
    }
  }

  /** Each dependency names this step or an earlier one. */
  ghost predicate DeclaredByUse<N(!new)>(steps: seq<StepDef<N>>) {
    forall i, d :: 0 <= i < |steps| && d in steps[i].dependsOn ==> DeclaredBefore(steps, i + 1, d)
  }

  ghost predicate NoSelfDependency<N(!new)>(steps: seq<StepDef<N>>) {
    forall i :: 0 <= i < |steps| ==> steps[i].id !in steps[i].dependsOn
  }

  ghost predicate Acceptable(steps: seq<StepDef<string>>) {
    && steps != []
    && (forall i :: 0 <= i < |steps| ==> ValidStepId(steps[i].id) && steps[i].handler != "")
    && DistinctDefs(steps)
    && DeclaredByUse(steps)
  }

  /** The ids declared by the first `n` steps. */
  ghost predicate Declares<N(!new)>(ids: set<N>, steps: seq<StepDef<N>>, n: nat)
    requires n <= |steps|
  {
    forall d :: d in ids <==> DeclaredBefore(steps, n, d)
  }

  /** The first `n` steps have nothing wrong with them. */
  ghost predicate Fine(steps: seq<StepDef<string>>, n: nat)
    requires n <= |steps|
  {
    && (forall j :: 0 <= j < n ==> ValidStepId(steps[j].id) && steps[j].handler != "")
    && (forall j, k :: 0 <= j < k < n ==> steps[j].id != steps[k].id)
    && (forall j, d :: 0 <= j < n && d in steps[j].dependsOn ==> DeclaredBefore(steps, j + 1, d))
  }

  ghost predicate FirstUndeclared(steps: seq<StepDef<string>>, i: nat, k: nat)
    requires i < |steps|
  {
    && k < |steps[i].dependsOn| && !DeclaredBefore(steps, i + 1, steps[i].dependsOn[k])
    && forall j :: 0 <= j < k ==> DeclaredBefore(steps, i + 1, steps[i].dependsOn[j])
  }

  /** Step `i` is the first with a fault, and the verdict names the first of its faults. */
  ghost predicate Blames(steps: seq<StepDef<string>>, i: nat, v: Verdict) {
    && i < |steps| && Fine(steps, i)
    && match v
       case BadStepId(id) => id == steps[i].id && !ValidStepId(id)
       case Duplicate(id) => id == steps[i].id && ValidStepId(id) && DeclaredBefore(steps, i, id)
       case NoHandler(id) =>
         id == steps[i].id && ValidStepId(id) && !DeclaredBefore(steps, i, id) && steps[i].handler == ""
       case UnknownDep(id, dep) =>
         && id == steps[i].id && ValidStepId(id) && !DeclaredBefore(steps, i, id) && steps[i].handler != ""
         && exists k: nat :: FirstUndeclared(steps, i, k) && steps[i].dependsOn[k] == dep
       case _ => false
  }

  /** Accepts exactly the acceptable definitions, and otherwise names the first fault. A step's own id counts as
   declared while its dependencies are checked. */
  method ValidateDefinitionSteps(steps: seq<StepDef<string>>) returns (v: Verdict)
    ensures v.Accepted? <==> Acceptable(steps)
    ensures v.Empty? <==> steps == []
    ensures !v.Accepted? && !v.Empty? ==> exists i: nat :: Blames(steps, i, v)
  {
    if |steps| == 0 {
      return Empty;
    }
    var ids: set<string> := {};
    for i := 0 to |steps|
      invariant Declares(ids, steps, i)
      invariant Fine(steps, i)
    {
      var s := steps[i];
      if !ValidStepId(s.id) {
        assert Blames(steps, i, BadStepId(s.id));
        return BadStepId(s.id);
      }
      if s.id in ids {
        assert DeclaredBefore(steps, i, s.id) && Blames(steps, i, Duplicate(s.id));
        return Duplicate(s.id);
      }
      ids := ids + {s.id};
      DeclareOne(ids - {s.id}, steps, i);
      if s.handler == "" {
        assert Blames(steps, i, NoHandler(s.id));
        return NoHandler(s.id);
      }
      var unknown := FirstUnknown(ids, s.dependsOn);
      if unknown < |s.dependsOn| {
        assert s.dependsOn[unknown] in steps[i].dependsOn && FirstUndeclared(steps, i, unknown);
        assert Blames(steps, i, UnknownDep(s.id, s.dependsOn[unknown]));
        return UnknownDep(s.id, s.dependsOn[unknown]);
      }
    }
    v := Accepted;
  }

  lemma {:induction false} DeclareOne<N(!new)>(ids: set<N>, steps: seq<StepDef<N>>, i: nat)
    requires i < |steps| && Declares(ids, steps, i)
    ensures Declares(ids + {steps[i].id}, steps, i + 1)
  {
    forall d ensures d in ids + {steps[i].id} <==> DeclaredBefore(steps, i + 1, d) {
      assert d in ids <==> DeclaredBefore(steps, i, d);
    }
  }

  method FirstUnknown(ids: set<string>, deps: seq<string>) returns (k: nat)
    ensures k <= |deps| && (k < |deps| ==> deps[k] !in ids) && forall j :: 0 <= j < k ==> deps[j] in ids
  {
    k := 0;
    while k < |deps| && deps[k] in ids
      invariant k <= |deps| && forall j :: 0 <= j < k ==> deps[j] in ids
    {
      k := k + 1;
    }
  }

  /** Validation lets a step depend on itself. */
  lemma {:induction false} SelfDependencyAccepted()
    ensures Acceptable([StepDef("a", "h", ["a"])]) && !DeclaredFirst([StepDef("a", "h", ["a"])])
  {
    var steps := [StepDef("a", "h", ["a"])];
    assert steps[0].id == "a";
    assert DeclaredBefore(steps, 1, "a");
    assert "a" in steps[0].dependsOn && !DeclaredBefore(steps, 0, "a");
  }

  /** For accepted definitions, declaration before use is exactly the absence of self-dependencies. */
  lemma {:induction false} DeclaredFirstIff<N(!new)>(steps: seq<StepDef<N>>)
    requires DistinctDefs(steps) && DeclaredByUse(steps)
    ensures DeclaredFirst(steps) <==> NoSelfDependency(steps)
  {
    if NoSelfDependency(steps) {
      forall i, d | 0 <= i < |steps| && d in steps[i].dependsOn ensures DeclaredBefore(steps, i, d) {
        assert DeclaredBefore(steps, i + 1, d);
      }
    }
    if DeclaredFirst(steps) {
      forall i, d | 0 <= i < |steps| && d in steps[i].dependsOn ensures d != steps[i].id {
        assert DeclaredBefore(steps, i, d);
      }
    }
  }

  // ---- A self-dependent step blocks its run for good ----

  /** The definition of run `key` makes step `i` depend on itself. */
  ghost predicate SelfDependent<N(!new)>(s: State<N>, key: RunKey<N>, i: int) {
    && key in s.runs && s.runs[key].workflow in s.defs && 0 <= i < |s.runs[key].steps|
    && i < |s.defs[s.runs[key].workflow].steps|
    && s.defs[s.runs[key].workflow].steps[i].id in s.defs[s.runs[key].workflow].steps[i].dependsOn
  }

  ghost predicate SelfPending<N(!new)>(s: State<N>) {
    forall key, i :: SelfDependent(s, key, i) ==> s.runs[key].steps[i].state == Pending
  }

  /** Such a step cannot be queued: its dependency on itself is not done. */
  lemma {:induction false} NeverQueued<N(!new)>(s: State<N>, key: RunKey<N>, i: int)
    requires Inv(s) && SelfDependent(s, key, i)
    ensures s.runs[key].steps[i].state != Queued
  {
    assert RunOk(s, key);
    var steps, def := s.runs[key].steps, s.defs[s.runs[key].workflow];
    var deps := def.steps[i].dependsOn;
    var k :| 0 <= k < |deps| && deps[k] == steps[i].id;
    StatesAt(steps, steps[i].id);
    assert DepsDone(States(steps), deps) ==> Done(States(steps)[deps[k]]);
  }

  lemma {:induction false} ExecuteStuck<N(!new)>(
      s: State<N>, k: QueueKey<N>, attempt: int, h: Handlers<N>, now: int, t: State<N>)
    requires Inv(s) && SelfPending(s) && k in s.queue && t == Execute(s, k, attempt, h, now)
    ensures SelfPending(t)
  {
    ExecuteKeeps(s, k, attempt, h, now, t);
    QueuedIsOpen(s, k);
    forall key, i | SelfDependent(t, key, i) ensures t.runs[key].steps[i].state == Pending {
      NeverQueued(t, key, i);
      if Settles(s, t, k, Succeeded, now) {
        SettlesStuck(s, k, t, Succeeded, now, key, i);
      } else {
        SettlesStuck(s, k, t, Failed, now, key, i);
      }
    }
  }

  lemma {:induction false} SettlesStuck<N(!new)>(
      s: State<N>, k: QueueKey<N>, t: State<N>, st: StepState, now: int, key: RunKey<N>, i: int)
    requires SelfPending(s) && Settles(s, t, k, st, now) && SelfDependent(t, key, i)
    requires forall j :: 0 <= j < |s.runs[k.run].steps| && s.runs[k.run].steps[j].id == k.step ==>
      s.runs[k.run].steps[j].state == Queued
    ensures t.runs[key].steps[i].state == Pending || t.runs[key].steps[i].state == Queued
  {
    assert SelfDependent(s, key, i);
  }

  lemma {:induction false} ExecuteAllStuck<N(!new)>(
      s: State<N>, leased: seq<QueueKey<N>>, leases: Queue<N>, h: Handlers<N>, clock: nat -> int, t: State<N>)
    requires Inv(s) && SelfPending(s) && forall k :: k in leased ==> k in s.queue && k in leases
    requires forall i, j :: 0 <= i < j < |leased| ==> leased[i] != leased[j]
    requires t == ExecuteAll(s, leased, leases, h, clock)
    ensures SelfPending(t)
    decreases |leased|
  {
    if leased != [] {
      var rest, k := leased[..|leased| - 1], leased[|leased| - 1];
      SplitLast([], leased);
      var mid := ExecuteAll(s, rest, leases, h, clock);
      ExecuteAllKeeps(s, rest, leases, h, clock, mid);
      ExecuteAllStuck(s, rest, leases, h, clock, mid);
      ExecuteStuck(mid, k, leases[k].attempt, h, clock(|leased| - 1), t);
    }
  }

  lemma {:induction false} SubmitStuck<N(!new)>(s: State<N>, w: WorkflowId<N>, key: RunKey<N>, now: int, t: State<N>)
    requires Inv(s) && SelfPending(s) && w in s.defs && t == Submit(s, s.defs[w], key, now)
    ensures SelfPending(t)
  {
    SubmitKeeps(s, w, key, now, t);
    forall x, i | SelfDependent(t, x, i) ensures t.runs[x].steps[i].state == Pending {
      if x in s.runs {
        assert t.runs[x] == s.runs[x];
        assert SelfDependent(s, x, i);
      } else {
        NeverQueued(t, x, i);
        NewStepState(s, s.defs[w], key, now, t, x, i);
      }
    }
  }

  /** The steps of a newly submitted run are pending or queued. */
  lemma {:induction false} NewStepState<N(!new)>(
      s: State<N>, def: Definition<N>, key: RunKey<N>, now: int, t: State<N>, x: RunKey<N>, i: nat)
    requires DistinctDefs(def.steps) && t == Submit(s, def, key, now)
    requires x in t.runs && x !in s.runs && i < |t.runs[x].steps|
    ensures t.runs[x].steps[i].state == Pending || t.runs[x].steps[i].state == Queued
  {
    MarkQueuedAt(NewSteps(def), ReadySteps(def, NewSteps(def)), i);
  }

  lemma {:induction false} CreateStuck<N(!new)>(s: State<N>, op: Op<N>, t: State<N>)
    requires Inv(s) && SelfPending(s) && op.CreateOp? && Next(s, op, t)
    ensures SelfPending(t)
  {
    forall key, i | SelfDependent(t, key, i) ensures t.runs[key].steps[i].state == Pending {
      assert RunOk(s, key) && SelfDependent(s, key, i);
    }
  }

  lemma {:induction false} NextStuck<N(!new)>(s: State<N>, op: Op<N>, t: State<N>)
    requires Inv(s) && SelfPending(s) && Next(s, op, t)
    ensures SelfPending(t)
  {
    match op
    case CreateOp(def) => CreateStuck(s, op, t);
    case SubmitOp(w, key, now) => if w in s.defs { SubmitStuck(s, w, key, now, t); }
    case CancelOp(key) =>
      forall x, i | SelfDependent(t, x, i) ensures t.runs[x].steps[i].state == Pending {
        assert SelfDependent(s, x, i);
      }
    case ProcessOp(leased, limit, h, now, clock) =>
      var mid := s.(queue := Lease(s.queue, leased, now));
      LeaseKeeps(s, leased, now);
      forall x, i | SelfDependent(mid, x, i) ensures mid.runs[x].steps[i].state == Pending {
        assert SelfDependent(s, x, i);
      }
      ExecuteAllStuck(mid, leased, Lease(s.queue, leased, now), h, clock, t);
  }

  lemma {:induction false} StaysPending<N(!new)>(states: seq<State<N>>, ops: seq<Op<N>>, n: nat)
    requires IsRun(states, ops) && n < |states|
    ensures SelfPending(states[n])
  {
    if n > 0 {
      StaysPending(states, ops, n - 1);
      EveryRunIsSafe(states, ops, n - 1);
      assert Next(states[n - 1], ops[n - 1], states[n]);
      NextStuck(states[n - 1], ops[n - 1], states[n]);
    }
  }

  /** Over every run, a step that depends on itself stays PENDING and its run is never SUCCEEDED. */
  lemma {:induction false} SelfDependencyNeverRuns<N(!new)>(states: seq<State<N>>, ops: seq<Op<N>>, n: nat)
    requires IsRun(states, ops) && n < |states|
    ensures SelfPending(states[n])
    ensures forall key, i :: SelfDependent(states[n], key, i) ==> states[n].runs[key].state != RunSucceeded
  {
    EveryRunIsSafe(states, ops, n);
    StaysPending(states, ops, n);
    SelfPendingUnfinished(states[n]);
  }

  lemma {:induction false} SelfPendingUnfinished<N(!new)>(s: State<N>)
    requires Inv(s) && SelfPending(s)
    ensures forall key, i :: SelfDependent(s, key, i) ==> s.runs[key].state != RunSucceeded
  {
    forall key, i | SelfDependent(s, key, i) ensures s.runs[key].state != RunSucceeded {
      assert RunOk(s, key);
    }
  }

  // ---- From submission to success ----

  /** Only accepted definitions without self-dependencies are created, and runs are submitted no later than `from`. */
  ghost predicate OnlySubmits<N(!new)>(ops: seq<Op<N>>, from: int) {
    forall i :: 0 <= i < |ops| ==>
      match ops[i]
      case CreateOp(def) => DeclaredByUse(def.steps) && NoSelfDependency(def.steps)
      case SubmitOp(_, _, now) => now <= from
      case _ => false
  }

  lemma {:induction false} SubmitHealthy<N(!new)>(
      s: State<N>, w: WorkflowId<N>, key: RunKey<N>, now: int, from: int, t: State<N>)
    requires Healthy(s) && VisibleBy(s.queue, from) && w in s.defs && t == Submit(s, s.defs[w], key, now) && now <= from
    ensures Healthy(t) && VisibleBy(t.queue, from)
  {
    SubmitKeeps(s, w, key, now, t);
    SubmitVisible(s, s.defs[w], key, now, from, t);
    forall x, i | x in t.runs && 0 <= i < |t.runs[x].steps| ensures t.runs[x].steps[i].state != Failed {
      SubmitNotFailed(s, s.defs[w], key, now, t, x, i);
    }
  }

  lemma {:induction false} SubmitNotFailed<N(!new)>(
      s: State<N>, def: Definition<N>, key: RunKey<N>, now: int, t: State<N>, x: RunKey<N>, i: nat)
    requires forall y, j :: y in s.runs && 0 <= j < |s.runs[y].steps| ==> s.runs[y].steps[j].state != Failed
    requires DistinctDefs(def.steps)
    requires t == Submit(s, def, key, now) && x in t.runs && i < |t.runs[x].steps|
    ensures t.runs[x].steps[i].state != Failed
  {
    if x in s.runs {
      assert t.runs[x] == s.runs[x];
    } else {
      NewStepState(s, def, key, now, t, x, i);
    }
  }

  lemma {:induction false} SubmitVisible<N(!new)>(
      s: State<N>, def: Definition<N>, key: RunKey<N>, now: int, from: int, t: State<N>)
    requires VisibleBy(s.queue, from) && now <= from && t == Submit(s, def, key, now)
    ensures VisibleBy(t.queue, from)
  {
    forall k | k in t.queue ensures t.queue[k].visibleAt <= from {
      if t != s {
        EnqueueAllKeys(s.queue, key, ReadySteps(def, NewSteps(def)), now, k);
      }
    }
  }

  lemma {:induction false} SubmitsHealthy<N(!new)>(states: seq<State<N>>, ops: seq<Op<N>>, from: int, n: nat)
    requires IsRun(states, ops) && OnlySubmits(ops, from) && n < |states|
    ensures Healthy(states[n]) && VisibleBy(states[n].queue, from)
  {
    if n > 0 {
      SubmitsHealthy(states, ops, from, n - 1);
      var s, op, t := states[n - 1], ops[n - 1], states[n];
      assert Next(s, op, t);
      match op
      case CreateOp(def) =>
        CreateKeeps(s, def);
        DeclaredFirstIff(def.steps);
      case SubmitOp(w, key, now) =>
        if w in s.defs { SubmitHealthy(s, w, key, now, from, t); }
    }
  }

  /**
   End to end: create accepted definitions, submit any runs, then run enough passes with handlers that
   succeed: every run ends SUCCEEDED, every step too, and each handler was called exactly once.
   */
  lemma {:induction false} SubmittedRunsComplete<N(!new)>(states: seq<State<N>>, ops: seq<Op<N>>, from: int,
                                       after: seq<State<N>>, passes: seq<Pass<N>>, limit: nat, h: Handlers<N>,
                                       key: RunKey<N>, i: nat)
    requires IsRun(states, ops) && OnlySubmits(ops, from)
    requires IsPassRun(after, passes, limit, h, from) && after[0] == states[|ops|] && limit >= 1 && AllSucceed(h)
    requires |passes| >= |Unfinished(after[0])|
    requires key in after[|passes|].runs && i < |after[|passes|].runs[key].steps|
    ensures after[|passes|].runs.Keys == states[|ops|].runs.Keys
    ensures after[|passes|].runs[key].state == RunSucceeded
    ensures after[|passes|].runs[key].steps[i].state == Succeeded
    ensures multiset(after[|passes|].executed)[QueueKey(key, after[|passes|].runs[key].steps[i].id)] == 1
  {
    SubmitsHealthy(states, ops, from, |ops|);
    Completion(after, passes, limit, h, from, key, i);
  }
}
