/**
 Deficit round-robin dispatch over priority lanes. A visit is one turn of the inner retry loop; the
 scheduler's calls are sequences of visits, and starving lanes may be served out of turn.
 */
module LaneScheduler {
  import opened Options

  datatype Task = Task(id: string, cost: int, enqueuedAt: int, ageBoosted: bool)
  datatype Lane = Lane(quantum: int, capacity: int, threshold: int, tasks: seq<Task>, deficit: int)
  datatype Sched = Sched(lanes: seq<Lane>, round: nat, added: bool, total: int)

  // ---- One step ----

  function Put(s: Sched, i: nat, l: Lane): Sched
    requires i < |s.lanes|
  {
    s.(lanes := s.lanes[i := l])
  }

  function Advance(s: Sched): Sched
    requires |s.lanes| > 0
  {
    s.(round := (s.round + 1) % |s.lanes|, added := false)
  }

  datatype Visited = Visited(s: Sched, task: Option<Task>)

  /** The lane at the round index gets its quantum once per turn and serves its head if the deficit allows. */
  function Visit(s: Sched): Visited
    requires s.round < |s.lanes|
  {
    var lane := s.lanes[s.round];
    if lane.tasks == [] then Visited(Advance(Put(s, s.round, lane.(deficit := 0))), None)
    else
      var credit := if s.added then lane.deficit else lane.deficit + lane.quantum;
      var head, rest := lane.tasks[0], lane.tasks[1..];
      if credit >= head.cost then
        var left := credit - head.cost;
        var popped := lane.(tasks := rest, deficit := if rest == [] then 0 else left);
        var served := Put(s, s.round, popped).(total := s.total - 1);
        Visited(if rest == [] || left < rest[0].cost then Advance(served) else served.(added := true), Some(head))
      else Visited(Advance(Put(s, s.round, lane.(deficit := credit))), None)
  }

  /** A task is normalised when it is accepted; a full lane or an unknown one rejects it. */
  function Accepts(s: Sched, i: nat): bool {
    i < |s.lanes| && |s.lanes[i].tasks| < s.lanes[i].capacity
  }

  function Normal(t: Task): Task {
    if t.cost <= 0 then t.(cost := 1) else t
  }

  function Enqueue(s: Sched, i: nat, t: Task): Sched {
    if !Accepts(s, i) then s
    else Put(s, i, s.lanes[i].(tasks := s.lanes[i].tasks + [Normal(t)])).(total := s.total + 1)
  }

  /** Serving the head of a starving lane out of turn; its deficit and the turn stay as they are. */
  function Starve(s: Sched, i: nat): Sched
    requires i < |s.lanes|
  {
    if s.lanes[i].tasks == [] then s
    else Put(s, i, s.lanes[i].(tasks := s.lanes[i].tasks[1..])).(total := s.total - 1)
  }

  // ---- What every step keeps ----

  ghost function Queued(lanes: seq<Lane>): nat {
    if lanes == [] then 0 else Queued(lanes[..|lanes| - 1]) + |lanes[|lanes| - 1].tasks|
  }

  ghost predicate LaneOk(l: Lane, maxCost: nat, inTurn: bool) {
    && l.quantum >= 1
    && 0 <= l.deficit <= maxCost - 1 + (if inTurn then l.quantum else 0)
    && forall k :: 0 <= k < |l.tasks| ==> 1 <= l.tasks[k].cost <= maxCost
  }

  /** Only the lane whose turn it is may hold its quantum on top of a carried deficit below the largest cost. */
  ghost predicate Inv(s: Sched, maxCost: nat) {
    && s.round < |s.lanes| && maxCost >= 1
    && (forall i :: 0 <= i < |s.lanes| ==> LaneOk(s.lanes[i], maxCost, s.added && i == s.round))
    && s.total == Queued(s.lanes)
  }

  lemma {:induction false} QueuedUpdate(lanes: seq<Lane>, i: nat, l: Lane)
    requires i < |lanes|
    ensures Queued(lanes[i := l]) == Queued(lanes) - |lanes[i].tasks| + |l.tasks|
  {
    var n := |lanes| - 1;
    if i == n {
      assert lanes[i := l][..n] == lanes[..n];
    } else {
      QueuedUpdate(lanes[..n], i, l);
      assert lanes[i := l][..n] == lanes[..n][i := l];
    }
  }

  lemma {:induction false} VisitKeeps(s: Sched, maxCost: nat)
    requires Inv(s, maxCost)
    ensures Inv(Visit(s).s, maxCost)
  {
    QueuedUpdate(s.lanes, s.round, Visit(s).s.lanes[s.round]);
  }

  lemma {:induction false} EnqueueKeeps(s: Sched, maxCost: nat, i: nat, t: Task)
    requires Inv(s, maxCost) && t.cost <= maxCost
    ensures Inv(Enqueue(s, i, t), maxCost)
  {
    if Accepts(s, i) {
      QueuedUpdate(s.lanes, i, Enqueue(s, i, t).lanes[i]);
    }
  }

  lemma {:induction false} StarveKeeps(s: Sched, maxCost: nat, i: nat)
    requires Inv(s, maxCost) && i < |s.lanes|
    ensures Inv(Starve(s, i), maxCost)
  {
    if s.lanes[i].tasks != [] {
      QueuedUpdate(s.lanes, i, Starve(s, i).lanes[i]);
    }
  }

  // ---- Runs ----

  datatype Action = DoVisit | DoEnqueue(lane: nat, task: Task) | DoStarve(lane: nat)

  ghost predicate Legal(s: Sched, a: Action, maxCost: nat) {
    match a
    case DoVisit => true
    case DoEnqueue(_, t) => t.cost <= maxCost
    case DoStarve(i) => i < |s.lanes|
  }

  function Step(s: Sched, a: Action): Sched
    requires s.round < |s.lanes| && (a.DoStarve? ==> a.lane < |s.lanes|)
  {
    match a
    case DoVisit => Visit(s).s
    case DoEnqueue(i, t) => Enqueue(s, i, t)
    case DoStarve(i) => Starve(s, i)
  }

  /** `states` are the states of a run that performs `acts` in order. */
  ghost predicate IsRun(states: seq<Sched>, acts: seq<Action>, maxCost: nat) {
    && |states| == |acts| + 1
    && Inv(states[0], maxCost)
    && forall k :: 0 <= k < |acts| ==> StepAt(states, acts, maxCost, k)
  }

  ghost predicate StepAt(states: seq<Sched>, acts: seq<Action>, maxCost: nat, k: nat)
    requires |states| == |acts| + 1 && k < |acts|
  {
    && Legal(states[k], acts[k], maxCost) && states[k].round < |states[k].lanes|
    && states[k + 1] == Step(states[k], acts[k])
  }

  lemma {:induction false} RunKeeps(states: seq<Sched>, acts: seq<Action>, maxCost: nat, n: nat)
    requires IsRun(states, acts, maxCost) && n < |states|
    ensures Inv(states[n], maxCost) && |states[n].lanes| == |states[0].lanes|
    ensures forall i :: 0 <= i < |states[0].lanes| ==> states[n].lanes[i].quantum == states[0].lanes[i].quantum
  {
    if n > 0 {
      RunKeeps(states, acts, maxCost, n - 1);
      assert StepAt(states, acts, maxCost, n - 1);
      var s := states[n - 1];
      match acts[n - 1]
      case DoVisit => VisitKeeps(s, maxCost);
      case DoEnqueue(i, t) => EnqueueKeeps(s, maxCost, i, t);
      case DoStarve(i) => StarveKeeps(s, maxCost, i);
    }
  }

  /** What one action adds to the queue of lane `i`, and what it dispatches from it. */
  ghost function AcceptedBy(s: Sched, a: Action, i: nat): seq<Task> {
    if a.DoEnqueue? && a.lane == i && Accepts(s, i) then [Normal(a.task)] else []
  }

  ghost function DispatchedBy(s: Sched, a: Action, i: nat): seq<Task>
    requires s.round < |s.lanes|
  {
    match a
    case DoVisit => if i == s.round && Visit(s).task.Some? then [Visit(s).task.value] else []
    case DoEnqueue(_, _) => []
    case DoStarve(j) => if i == j && j < |s.lanes| && s.lanes[j].tasks != [] then [s.lanes[j].tasks[0]] else []
  }

  ghost function Accepted(states: seq<Sched>, acts: seq<Action>, i: nat): seq<Task>
    requires |states| == |acts| + 1
    decreases |acts|
  {
    if acts == [] then []
    else Accepted(states[..|acts|], acts[..|acts| - 1], i) + AcceptedBy(states[|acts| - 1], acts[|acts| - 1], i)
  }

  ghost function Dispatched(states: seq<Sched>, acts: seq<Action>, i: nat): seq<Task>
    requires |states| == |acts| + 1 && forall k :: 0 <= k < |acts| ==> states[k].round < |states[k].lanes|
    decreases |acts|
  {
    if acts == [] then []
    else Dispatched(states[..|acts|], acts[..|acts| - 1], i) + DispatchedBy(states[|acts| - 1], acts[|acts| - 1], i)
  }

  lemma {:induction false} StepFifo(s: Sched, a: Action, i: nat)
    requires s.round < |s.lanes| && i < |s.lanes| && (a.DoStarve? ==> a.lane < |s.lanes|)
    ensures |Step(s, a).lanes| == |s.lanes|
    ensures s.lanes[i].tasks + AcceptedBy(s, a, i) == DispatchedBy(s, a, i) + Step(s, a).lanes[i].tasks
  {
  }

  lemma {:induction false} RunPrefix(states: seq<Sched>, acts: seq<Action>, maxCost: nat)
    requires IsRun(states, acts, maxCost) && acts != []
    ensures IsRun(states[..|acts|], acts[..|acts| - 1], maxCost)
  {
    var s, a := states[..|acts|], acts[..|acts| - 1];
    forall k | 0 <= k < |a| ensures StepAt(s, a, maxCost, k) {
      assert StepAt(states, acts, maxCost, k);
    }
  }

  /**
   Over every run, starvation boosts included, each lane is first in, first out and every accepted task
   is dispatched exactly once: queue at the start plus accepted tasks is dispatched tasks plus queue at the end.
   */
  lemma {:induction false} RunFifo(states: seq<Sched>, acts: seq<Action>, maxCost: nat, i: nat)
    requires IsRun(states, acts, maxCost) && i < |states[0].lanes|
    requires forall k :: 0 <= k < |acts| ==> states[k].round < |states[k].lanes|
    ensures |states[|acts|].lanes| == |states[0].lanes|
    ensures states[0].lanes[i].tasks + Accepted(states, acts, i) ==
            Dispatched(states, acts, i) + states[|acts|].lanes[i].tasks
    decreases |acts|
  {
    if acts != [] {
      var n := |acts| - 1;
      RunPrefix(states, acts, maxCost);
      RunFifo(states[..n + 1], acts[..n], maxCost, i);
      assert StepAt(states, acts, maxCost, n);
      StepFifo(states[n], acts[n], i);
      Shuffle(states[0].lanes[i].tasks, Accepted(states[..n + 1], acts[..n], i),
        Dispatched(states[..n + 1], acts[..n], i),
              states[n].lanes[i].tasks, AcceptedBy(states[n], acts[n], i), DispatchedBy(states[n], acts[n], i),
              states[n + 1].lanes[i].tasks);
    }
  }

  lemma {:induction false} Shuffle<T>(
      start: seq<T>, accepted: seq<T>, dispatched: seq<T>, mid: seq<T>, a: seq<T>, d: seq<T>, end: seq<T>)
    requires start + accepted == dispatched + mid && mid + a == d + end
    ensures start + (accepted + a) == dispatched + d + end
  {
    assert start + (accepted + a) == (start + accepted) + a;
    assert (dispatched + mid) + a == dispatched + (mid + a);
    assert dispatched + (d + end) == dispatched + d + end;
  }
}
