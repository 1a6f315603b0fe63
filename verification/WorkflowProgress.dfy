/**
 Progress: when every handler is known and succeeds and the clock moves on between passes, each pass
 finishes at least one step, each handler runs exactly once and every run ends SUCCEEDED.
 */
module WorkflowProgress {
  import opened WorkflowModel
  import opened WorkflowSafety
  import WorkflowRuns
  import opened Sequences

  /** What definition validation enforces: every dependency is declared earlier, so there are no cycles. */
  ghost predicate DeclaredFirst<N(!new)>(steps: seq<StepDef<N>>) {
    forall i, d :: 0 <= i < |steps| && d in steps[i].dependsOn ==> DeclaredBefore(steps, i, d)
  }

  ghost predicate DeclaredBefore<N(!new)>(steps: seq<StepDef<N>>, i: nat, d: N)
    requires i <= |steps|
  {
    exists j :: 0 <= j < i && steps[j].id == d
  }

  ghost predicate NoFailure<N(!new)>(s: State<N>) {
    forall key, i :: key in s.runs && 0 <= i < |s.runs[key].steps| ==> s.runs[key].steps[i].state != Failed
  }

  ghost predicate RunnableDefs<N(!new)>(defs: Definitions<N>) {
    forall w :: w in defs ==> DeclaredFirst(defs[w].steps)
  }

  ghost predicate Healthy<N(!new)>(s: State<N>) {
    Inv(s) && NoFailure(s) && RunnableDefs(s.defs)
  }

  ghost predicate AllSucceed<N(!new)>(h: Handlers<N>) {
    (forall n :: h.known(n)) && forall k :: h.succeeds(k)
  }

  ghost function Unfinished<N(!new)>(s: State<N>): set<QueueKey<N>> {
    set key, i | key in s.runs && 0 <= i < |s.runs[key].steps| && !Done(s.runs[key].steps[i].state) ::
      QueueKey(key, s.runs[key].steps[i].id)
  }

  /** The first unfinished step in declaration order is queued: nothing it needs is missing. */
  lemma {:induction false} FirstUnfinishedQueued<N(!new)>(s: State<N>, key: RunKey<N>, i: nat)
    requires Healthy(s) && key in s.runs && i < |s.runs[key].steps|
    requires !Done(s.runs[key].steps[i].state)
    requires forall j :: 0 <= j < i ==> Done(s.runs[key].steps[j].state)
    ensures QueueKey(key, s.runs[key].steps[i].id) in s.queue
  {
    assert RunOk(s, key);
    var steps, def := s.runs[key].steps, s.defs[s.runs[key].workflow];
    var deps := def.steps[i].dependsOn;
    forall k | 0 <= k < |deps| ensures deps[k] in States(steps) && Done(States(steps)[deps[k]]) {
      assert DeclaredBefore(def.steps, i, deps[k]);
      var j :| 0 <= j < i && def.steps[j].id == deps[k];
      StatesAt(steps, deps[k]);
      assert steps[j].id == deps[k];
    }
    assert DepsDone(States(steps), deps);
    assert steps[i].state == Queued;
  }

  lemma {:induction false} FirstUnfinished<N(!new)>(steps: seq<StepRun<N>>, i: nat) returns (j: nat)
    requires i < |steps| && !Done(steps[i].state)
    ensures j <= i && !Done(steps[j].state) && forall k :: 0 <= k < j ==> Done(steps[k].state)
  {
    j := 0;
    while Done(steps[j].state)
      invariant j <= i && forall k :: 0 <= k < j ==> Done(steps[k].state)
      decreases i - j
    {
      j := j + 1;
    }
  }

  /** As long as something is unfinished, something is in the queue. */
  lemma {:induction false} WorkIsQueued<N(!new)>(s: State<N>) returns (k: QueueKey<N>)
    requires Healthy(s) && Unfinished(s) != {}
    ensures k in s.queue
  {
    var u :| u in Unfinished(s);
    var i :| 0 <= i < |s.runs[u.run].steps| && !Done(s.runs[u.run].steps[i].state);
    var j := FirstUnfinished(s.runs[u.run].steps, i);
    FirstUnfinishedQueued(s, u.run, j);
    k := QueueKey(u.run, s.runs[u.run].steps[j].id);
  }

  /** One settled lease: its step leaves the unfinished ones, nothing joins them. */
  lemma {:induction false} ExecuteProgress<N(!new)>(
      s: State<N>, k: QueueKey<N>, attempt: int, h: Handlers<N>, now: int, t: State<N>)
    requires Healthy(s) && k in s.queue && AllSucceed(h) && t == Execute(s, k, attempt, h, now)
    ensures Healthy(t) && t.executed == s.executed + [k] && t.runs.Keys == s.runs.Keys
    ensures Unfinished(t) < Unfinished(s)
    ensures QueueStep(s.queue, k, now, t.queue)
  {
    ExecuteSucceeds(s, k, attempt, h, now, t);
    QueuedIsOpen(s, k);
    SettledShrinks(s, t, k, now);
    SettledNoFailure(s, t, k, now);
  }

  lemma {:induction false} SettledShrinks<N(!new)>(s: State<N>, t: State<N>, k: QueueKey<N>, now: int)
    requires Settles(s, t, k, Succeeded, now) && HasStep(s.runs, k)
    requires forall i :: 0 <= i < |s.runs[k.run].steps| && s.runs[k.run].steps[i].id == k.step ==>
      s.runs[k.run].steps[i].state == Queued
    ensures Unfinished(t) < Unfinished(s)
  {
    forall u | u in Unfinished(t) ensures u in Unfinished(s) && u != k {
      var i :| 0 <= i < |t.runs[u.run].steps| && !Done(t.runs[u.run].steps[i].state)
        && t.runs[u.run].steps[i].id == u.step;
      assert s.runs[u.run].steps[i].id == u.step && !Done(s.runs[u.run].steps[i].state);
    }
    var i :| 0 <= i < |s.runs[k.run].steps| && s.runs[k.run].steps[i].id == k.step;
    assert k in Unfinished(s);
  }

  lemma {:induction false} SettledNoFailure<N(!new)>(s: State<N>, t: State<N>, k: QueueKey<N>, now: int)
    requires Settles(s, t, k, Succeeded, now) && NoFailure(s)
    ensures NoFailure(t)
  {
    forall key, i | key in t.runs && 0 <= i < |t.runs[key].steps| ensures t.runs[key].steps[i].state != Failed {
      assert s.runs[key].steps[i].state != Failed;
    }
  }

  /** `states` are the states a pass goes through, lease by lease. */
  ghost predicate LeaseAt<N(!new)>(states: seq<State<N>>, leased: seq<QueueKey<N>>, leases: Queue<N>, h: Handlers<N>,
                                   clock: nat -> int, i: nat)
    requires |states| == |leased| + 1 && i < |leased| && forall k :: k in leased ==> k in leases
  {
    states[i + 1] == Execute(states[i], leased[i], leases[leased[i]].attempt, h, clock(i))
  }

  lemma {:induction false} ExecuteAllAt<N(!new)>(
      s: State<N>, leased: seq<QueueKey<N>>, leases: Queue<N>, h: Handlers<N>, clock: nat -> int, i: nat)
    requires i < |leased| && forall k :: k in leased ==> k in leases
    ensures ExecuteAll(s, leased[..i + 1], leases, h, clock) ==
            Execute(ExecuteAll(s, leased[..i], leases, h, clock), leased[i], leases[leased[i]].attempt, h, clock(i))
  {
    assert leased[..i + 1][..i] == leased[..i];
  }

  lemma {:induction false} LeasesOf<N(!new)>(s: State<N>, leased: seq<QueueKey<N>>, leases: Queue<N>, h: Handlers<N>,
                                             clock: nat -> int) returns (states: seq<State<N>>)
    requires forall k :: k in leased ==> k in leases
    ensures |states| == |leased| + 1 && states[0] == s && states[|leased|] == ExecuteAll(s, leased, leases, h, clock)
    ensures forall i :: 0 <= i < |leased| ==> LeaseAt(states, leased, leases, h, clock, i)
  {
    states := seq(|leased| + 1, i requires 0 <= i <= |leased| => ExecuteAll(s, leased[..i], leases, h, clock));
    forall i | 0 <= i < |leased| ensures LeaseAt(states, leased, leases, h, clock, i) {
      ExecuteAllAt(s, leased, leases, h, clock, i);
    }
    assert leased[..|leased|] == leased;
  }

  lemma {:induction false} LeasesProgress<N(!new)>(
      states: seq<State<N>>, leased: seq<QueueKey<N>>, leases: Queue<N>, h: Handlers<N>, clock: nat -> int, n: nat)
    requires |states| == |leased| + 1 && n <= |leased| && Healthy(states[0]) && AllSucceed(h) && Distinct(leased)
    requires forall k :: k in leased ==> k in states[0].queue && k in leases
    requires forall i :: 0 <= i < |leased| ==> LeaseAt(states, leased, leases, h, clock, i)
    ensures Healthy(states[n]) && states[n].executed == states[0].executed + leased[..n]
    ensures states[n].runs.Keys == states[0].runs.Keys && |Unfinished(states[n])| + n <= |Unfinished(states[0])|
    ensures forall i :: n <= i < |leased| ==> leased[i] in states[n].queue
    ensures FromPass(states[0].queue, leased[..n], clock, states[n].queue)
  {
    if n > 0 {
      LeasesProgress(states, leased, leases, h, clock, n - 1);
      assert LeaseAt(states, leased, leases, h, clock, n - 1);
      OneLease(states[n - 1], leased[n - 1], leases[leased[n - 1]].attempt, h, clock(n - 1), states[n]);
      FromPassOne(states[0].queue, leased[..n - 1], leased[n - 1], clock, states[n - 1].queue, states[n].queue);
      OneMore(states[0].executed, leased, n);
    }
  }

  lemma {:induction false} OneLease<N(!new)>(
      s: State<N>, k: QueueKey<N>, attempt: int, h: Handlers<N>, now: int, t: State<N>)
    requires Healthy(s) && k in s.queue && AllSucceed(h) && t == Execute(s, k, attempt, h, now)
    ensures Healthy(t) && t.executed == s.executed + [k] && t.runs.Keys == s.runs.Keys
    ensures |Unfinished(t)| + 1 <= |Unfinished(s)| && QueueStep(s.queue, k, now, t.queue)
  {
    ExecuteProgress(s, k, attempt, h, now, t);
    StrictSubsetSmaller(Unfinished(t), Unfinished(s));
  }

  lemma {:induction false} OneMore<T>(s: seq<T>, leased: seq<T>, n: nat)
    requires 0 < n <= |leased|
    ensures leased[..n] == leased[..n - 1] + [leased[n - 1]]
    ensures s + leased[..n - 1] + [leased[n - 1]] == s + leased[..n]
  {
  }

  /** One lease: only its item leaves the queue, and new items are visible from `now`. */
  ghost predicate QueueStep<N(!new)>(before: Queue<N>, k: QueueKey<N>, now: int, after: Queue<N>) {
    && (forall x :: x in before && x != k ==> x in after && after[x] == before[x])
    && (forall x :: x in after ==> (x in before && x != k) || after[x].visibleAt == now)
  }

  /** Items in the queue afterwards were not leased, or are visible from a clock reading of the pass. */
  ghost predicate FromPass<N(!new)>(before: Queue<N>, leased: seq<QueueKey<N>>, clock: nat -> int, after: Queue<N>) {
    forall x :: x in after ==>
      (x in before && x !in leased && after[x] == before[x]) || ReadAt(clock, |leased|, after[x].visibleAt)
  }

  lemma {:induction false} FromPassOne<N(!new)>(
      before: Queue<N>, rest: seq<QueueKey<N>>, k: QueueKey<N>, clock: nat -> int, mid: Queue<N>, after: Queue<N>)
    requires FromPass(before, rest, clock, mid) && QueueStep(mid, k, clock(|rest|), after)
    ensures FromPass(before, rest + [k], clock, after)
  {
    ReadMore(clock, |rest|);
  }

  lemma {:induction false} ExecuteAllProgress<N(!new)>(
      s: State<N>, leased: seq<QueueKey<N>>, leases: Queue<N>, h: Handlers<N>, clock: nat -> int, t: State<N>)
    requires Healthy(s) && AllSucceed(h) && Distinct(leased) && forall k :: k in leased ==> k in s.queue && k in leases
    requires t == ExecuteAll(s, leased, leases, h, clock)
    ensures Healthy(t) && t.executed == s.executed + leased && t.runs.Keys == s.runs.Keys
    ensures |Unfinished(t)| + |leased| <= |Unfinished(s)|
    ensures FromPass(s.queue, leased, clock, t.queue)
  {
    var states := LeasesOf(s, leased, leases, h, clock);
    LeasesProgress(states, leased, leases, h, clock, |leased|);
    assert leased[..|leased|] == leased;
  }

  /** `v` is one of the first `n` clock readings. */
  ghost predicate ReadAt(clock: nat -> int, n: nat, v: int) {
    exists i :: 0 <= i < n && clock(i) == v
  }

  lemma {:induction false} ReadMore(clock: nat -> int, n: nat)
    ensures ReadAt(clock, n + 1, clock(n)) && forall v :: ReadAt(clock, n, v) ==> ReadAt(clock, n + 1, v)
  {
  }

  lemma {:induction false} StrictSubsetSmaller<T>(a: set<T>, b: set<T>)
    requires a < b
    ensures |a| < |b|
  {
    var x :| x in b && x !in a;
    SubsetSmaller(a, b - {x});
  }

  lemma {:induction false} SubsetSmaller<T>(a: set<T>, b: set<T>)
    requires a <= b
    ensures |a| <= |b|
  {
    if a != {} {
      var x :| x in a;
      SubsetSmaller(a - {x}, b - {x});
    }
  }

  // ---- Passes ----

  /** One `ProcessLeases` call: which leases it took, when it dequeued, the clock readings and their latest value. */
  datatype Pass<!N> = Pass(leased: seq<QueueKey<N>>, now: int, clock: nat -> int, end: int)

  ghost predicate VisibleBy<N(!new)>(queue: Queue<N>, t: int) {
    forall k :: k in queue ==> queue[k].visibleAt <= t
  }

  /** A pass that starts after time `from`, on a clock that does not run backwards. */
  ghost predicate LegalPass<N(!new)>(s: State<N>, p: Pass<N>, limit: nat, from: int) {
    && from < p.now <= p.end
    && MayLease(s.queue, limit, p.now, p.leased)
    && forall i :: 0 <= i < |p.leased| ==> p.clock(i) <= p.end
  }

  lemma {:induction false} LeasedHealthy<N(!new)>(s: State<N>, leased: seq<QueueKey<N>>, now: int)
    requires Healthy(s)
    ensures Healthy(s.(queue := Lease(s.queue, leased, now)))
    ensures Unfinished(s.(queue := Lease(s.queue, leased, now))) == Unfinished(s)
  {
    WorkflowRuns.LeaseKeeps(s, leased, now);
  }

  /** Each pass strictly lowers the number of unfinished steps and calls each leased handler once. */
  lemma {:induction false} PassProgress<N(!new)>(
      s: State<N>, p: Pass<N>, limit: nat, from: int, h: Handlers<N>, t: State<N>)
    requires Healthy(s) && AllSucceed(h) && limit >= 1 && VisibleBy(s.queue, from) && LegalPass(s, p, limit, from)
    requires t == ProcessLeases(s, p.leased, h, p.now, p.clock)
    ensures Healthy(t) && VisibleBy(t.queue, p.end) && t.runs.Keys == s.runs.Keys
    ensures t.executed == s.executed + p.leased
    ensures Unfinished(s) != {} ==> |Unfinished(t)| < |Unfinished(s)|
    ensures |Unfinished(t)| <= |Unfinished(s)|
  {
    var leases := Lease(s.queue, p.leased, p.now);
    LeasedHealthy(s, p.leased, p.now);
    ExecuteAllProgress(s.(queue := leases), p.leased, leases, h, p.clock, t);
    if Unfinished(s) != {} {
      var k := WorkIsQueued(s);
      assert p.leased != [];
    }
    PassVisible(s.queue, p, limit, from, t.queue);
  }

  lemma {:induction false} PassVisible<N(!new)>(before: Queue<N>, p: Pass<N>, limit: nat, from: int, after: Queue<N>)
    requires VisibleBy(before, from) && from < p.now <= p.end
    requires forall i :: 0 <= i < |p.leased| ==> p.clock(i) <= p.end
    requires forall x :: x in after ==>
      (x in Lease(before, p.leased, p.now) && x !in p.leased && after[x] == Lease(before, p.leased, p.now)[x])
      || ReadAt(p.clock, |p.leased|, after[x].visibleAt)
    ensures VisibleBy(after, p.end)
  {
  }

  /** The states a list of passes goes through. */
  ghost predicate IsPassRun<N(!new)>(
      states: seq<State<N>>, passes: seq<Pass<N>>, limit: nat, h: Handlers<N>, from: int) {
    |states| == |passes| + 1 && forall i :: 0 <= i < |passes| ==> PassAt(states, passes, limit, h, from, i)
  }

  ghost predicate PassAt<N(!new)>(
      states: seq<State<N>>, passes: seq<Pass<N>>, limit: nat, h: Handlers<N>, from: int, i: nat)
    requires |states| == |passes| + 1 && i < |passes|
  {
    && LegalPass(states[i], passes[i], limit, PassStart(passes, from, i))
    && states[i + 1] == ProcessLeases(states[i], passes[i].leased, h, passes[i].now, passes[i].clock)
  }

  /** The latest time read before pass `i`. */
  ghost function PassStart<N(!new)>(passes: seq<Pass<N>>, from: int, i: nat): int
    requires i <= |passes|
  {
    if i == 0 then from else passes[i - 1].end
  }

  lemma {:induction false} PassesProgress<N(!new)>(
      states: seq<State<N>>, passes: seq<Pass<N>>, limit: nat, h: Handlers<N>, from: int, n: nat)
    requires IsPassRun(states, passes, limit, h, from) && limit >= 1 && AllSucceed(h) && n <= |passes|
    requires Healthy(states[0]) && VisibleBy(states[0].queue, from)
    ensures Healthy(states[n]) && states[n].runs.Keys == states[0].runs.Keys
    ensures VisibleBy(states[n].queue, PassStart(passes, from, n))
    ensures Unfinished(states[n]) == {} || |Unfinished(states[n])| + n <= |Unfinished(states[0])|
    decreases n
  {
    if n > 0 {
      PassesProgress(states, passes, limit, h, from, n - 1);
      assert PassAt(states, passes, limit, h, from, n - 1);
      PassProgress(states[n - 1], passes[n - 1], limit, PassStart(passes, from, n - 1), h, states[n]);
      if Unfinished(states[n - 1]) == {} {
        assert |Unfinished(states[n])| == 0;
      }
    }
  }

  lemma {:induction false} OpenIsUnfinished<N(!new)>(s: State<N>, key: RunKey<N>, j: nat)
    requires key in s.runs && j < |s.runs[key].steps|
    ensures Done(s.runs[key].steps[j].state) || QueueKey(key, s.runs[key].steps[j].id) in Unfinished(s)
  {
  }

  /** After as many passes as there were unfinished steps, every run has succeeded and each handler ran exactly once. */
  lemma {:induction false} Completion<N(!new)>(
      states: seq<State<N>>, passes: seq<Pass<N>>, limit: nat, h: Handlers<N>, from: int, key: RunKey<N>, i: nat)
    requires IsPassRun(states, passes, limit, h, from) && limit >= 1 && AllSucceed(h)
    requires Healthy(states[0]) && VisibleBy(states[0].queue, from)
    requires |passes| >= |Unfinished(states[0])|
    requires key in states[|passes|].runs && i < |states[|passes|].runs[key].steps|
    ensures states[|passes|].runs.Keys == states[0].runs.Keys
    ensures states[|passes|].runs[key].state == RunSucceeded
    ensures states[|passes|].runs[key].steps[i].state == Succeeded
    ensures multiset(states[|passes|].executed)[QueueKey(key, states[|passes|].runs[key].steps[i].id)] == 1
  {
    var last := states[|passes|];
    PassesProgress(states, passes, limit, h, from, |passes|);
    assert |Unfinished(last)| == 0;
    forall j | 0 <= j < |last.runs[key].steps| ensures Done(last.runs[key].steps[j].state) {
      OpenIsUnfinished(last, key, j);
    }
    assert RunOk(last, key) && StepExecInv(last.runs, last.executed, key, i);
    OnlyOnce(last.executed, QueueKey(key, last.runs[key].steps[i].id));
  }
}
