/**
 The scheduler object: enqueueing and the blocking dispatch call as loops over lanes.
 */
module LaneService {
  import opened Arithmetic
  import opened Options
  import opened LaneScheduler
  import opened LaneFairness

  datatype Error = LaneNotFound | LaneFull | InvalidQuantum
  datatype NewLaneResult = Created(lane: Lane) | Rejected(error: Error)

  const DEFAULT_CAPACITY := 10000
  const DEFAULT_THRESHOLD := 30

  /** Rejects a non-positive quantum and fills in the default capacity and starvation threshold. */
  function NewLane(quantum: int, capacity: int, threshold: int): (r: NewLaneResult)
    ensures r.Created? <==> quantum >= 1
    ensures r.Created? ==> LaneOk(r.lane, 1, false) && r.lane.quantum == quantum && r.lane.tasks == []
    ensures r.Created? ==> r.lane.capacity == if capacity > 0 then capacity else 10000
    ensures r.Created? ==> r.lane.threshold == if threshold > 0 then threshold else 30
  {
    if quantum <= 0 then Rejected(InvalidQuantum)
    else Created(Lane(quantum, if capacity <= 0 then DEFAULT_CAPACITY else capacity,
                      if threshold <= 0 then DEFAULT_THRESHOLD else threshold, [], 0))
  }

  predicate IsStarving(l: Lane, now: int) {
    l.tasks != [] && now - l.tasks[0].enqueuedAt >= l.threshold
  }

  /** How a dispatch call may end: some idle visits, then either a served visit or a starving lane's head. */
  ghost predicate Dispatches(s: Sched, idle: nat, t: Sched, task: Task, boosted: bool, lane: nat)
    requires s.round < |s.lanes|
  {
    && Idle(s, idle)
    && (if boosted then
          && lane < |s.lanes| && Visits(s, idle).lanes[lane].tasks != []
          && task == Visits(s, idle).lanes[lane].tasks[0].(ageBoosted := true)
          && t == Starve(Visits(s, idle), lane)
        else Visit(Visits(s, idle)) == Visited(t, Some(task)))
  }

  ghost predicate NoneStarving(lanes: seq<Lane>, clock: nat -> int) {
    forall j :: 0 <= j < |lanes| ==> !IsStarving(lanes[j], clock(j))
  }

  /** How many idle visits come before the `scan`-th starvation scan: two rounds after each earlier one. */
  ghost function VisitsBefore(lanes: nat, scan: nat): nat {
    if scan == 0 then 0 else VisitsBefore(lanes, scan - 1) + 2 * lanes
  }

  /** The first `scans` starvation scans, each after two more rounds of visits, found nothing. */
  ghost predicate Scanned(s: Sched, clock: nat -> nat -> int, scans: nat)
    requires s.round < |s.lanes|
  {
    scans == 0 ||
    (Scanned(s, clock, scans - 1) &&
     NoneStarving(Visits(s, VisitsBefore(|s.lanes|, scans - 1)).lanes, clock(scans - 1)))
  }

  /** A boosted task comes from the first lane found starving; any other from the two rounds after a vain scan. */
  ghost predicate Timely(s: Sched, clock: nat -> nat -> int, scans: nat, idle: nat, boosted: bool, lane: nat)
    requires s.round < |s.lanes|
  {
    if boosted then
      && Scanned(s, clock, scans) && idle == VisitsBefore(|s.lanes|, scans) && lane < |s.lanes|
      && IsStarving(Visits(s, idle).lanes[lane], clock(scans)(lane))
      && forall j :: 0 <= j < lane ==> !IsStarving(Visits(s, idle).lanes[j], clock(scans)(j))
    else
      && Scanned(s, clock, scans + 1)
      && VisitsBefore(|s.lanes|, scans) <= idle < VisitsBefore(|s.lanes|, scans + 1)
  }

  /** How a dispatch call that started in `s` ends in `t`. */
  ghost predicate Ends(s: Sched, maxCost: nat, clock: nat -> nat -> int, scans: nat, idle: nat,
                       t: Sched, task: Task, boosted: bool, lane: nat)
    requires s.round < |s.lanes|
  {
    && Inv(t, maxCost) && Dispatches(s, idle, t, task, boosted, lane) && Timely(s, clock, scans, idle, boosted, lane)
  }

  ghost predicate AtScan(s: Sched, clock: nat -> nat -> int, scan: nat, idle: nat)
    requires s.round < |s.lanes|
  {
    Scanned(s, clock, scan) && idle == VisitsBefore(|s.lanes|, scan)
  }

  lemma {:induction false} BoostTimely(
      s: Sched, clock: nat -> nat -> int, scan: nat, idle: nat, lanes: seq<Lane>, j: nat)
    requires s.round < |s.lanes| && AtScan(s, clock, scan, idle) && lanes == Visits(s, idle).lanes && j < |lanes|
    requires IsStarving(lanes[j], clock(scan)(j)) && forall i :: 0 <= i < j ==> !IsStarving(lanes[i], clock(scan)(i))
    ensures Timely(s, clock, scan, idle, true, j)
  {
  }

  lemma {:induction false} ScanNext(
      s: Sched, clock: nat -> nat -> int, scan: nat, idle: nat, lanes: seq<Lane>, end: nat)
    requires s.round < |s.lanes| && AtScan(s, clock, scan, idle) && lanes == Visits(s, idle).lanes
    requires NoneStarving(lanes, clock(scan))
    ensures end == idle + 2 * |s.lanes| ==> AtScan(s, clock, scan + 1, end)
    ensures idle <= end < idle + 2 * |s.lanes| ==> Timely(s, clock, scan, end, false, 0)
  {
  }

  class DRRScheduler {
    var lanes: seq<Lane>
    var roundIndex: nat
    var quantumAdded: bool
    var totalTasks: int
    ghost var maxCost: nat

    function State(): Sched
      reads this
    {
      Sched(lanes, roundIndex, quantumAdded, totalTasks)
    }

    ghost predicate Valid()
      reads this
    {
      Inv(State(), maxCost)
    }

    constructor (lanes: seq<Lane>)
      requires |lanes| > 0 && forall i :: 0 <= i < |lanes| ==> LaneOk(lanes[i], 1, false) && lanes[i].tasks == []
      ensures Valid() && this.lanes == lanes && totalTasks == 0
    {
      this.lanes, roundIndex, quantumAdded, totalTasks, maxCost := lanes, 0, false, 0, 1;
      NothingQueued(lanes);
    }

    /** `lane` is the lane the task names; the largest cost accepted so far is remembered for the bounds. */
    method Enqueue(lane: nat, task: Task) returns (err: Option<Error>)
      requires Valid()
      modifies this
      ensures Valid() && State() == LaneScheduler.Enqueue(old(State()), lane, task)
      ensures err.None? <==> Accepts(old(State()), lane)
      ensures err == Some(LaneNotFound) <==> lane >= |old(lanes)|
      ensures err == Some(LaneFull) <==> lane < |old(lanes)| && |old(lanes)[lane].tasks| >= old(lanes)[lane].capacity
      ensures err.None? ==> totalTasks == old(totalTasks) + 1 && lane < |old(lanes)| && |lanes| == |old(lanes)|
      ensures err.None? ==>
        lanes[lane].tasks == old(lanes)[lane].tasks + [task.(cost := if task.cost > 0 then task.cost else 1)]
      ensures maxCost == if Accepts(old(State()), lane) && task.cost > old(maxCost) then task.cost else old(maxCost)
    {
      if lane >= |lanes| {
        return Some(LaneNotFound);
      }
      if |lanes[lane].tasks| >= lanes[lane].capacity {
        return Some(LaneFull);
      }
      if task.cost > maxCost {
        maxCost := task.cost;
      }
      EnqueueKeeps(State(), maxCost, lane, task);
      var t := if task.cost <= 0 then task.(cost := 1) else task;
      lanes := lanes[lane := lanes[lane].(tasks := lanes[lane].tasks + [t])];
      totalTasks := totalTasks + 1;
      err := None;
    }

    /** One turn of the inner loop. */
    method VisitLane() returns (task: Option<Task>)
      requires roundIndex < |lanes|
      modifies this`lanes, this`roundIndex, this`quantumAdded, this`totalTasks
      ensures Visit(old(State())) == Visited(State(), task)
    {
      var lane := lanes[roundIndex];
      if |lane.tasks| == 0 {
        lanes := lanes[roundIndex := lane.(deficit := 0)];
        roundIndex, quantumAdded := (roundIndex + 1) % |lanes|, false;
        return None;
      }
      if !quantumAdded {
        lane := lane.(deficit := lane.deficit + lane.quantum);
        quantumAdded := true;
      }
      var head := lane.tasks[0];
      if lane.deficit >= head.cost {
        lane := lane.(tasks := lane.tasks[1..], deficit := lane.deficit - head.cost);
        if |lane.tasks| == 0 {
          lane := lane.(deficit := 0);
          lanes := lanes[roundIndex := lane];
          roundIndex, quantumAdded := (roundIndex + 1) % |lanes|, false;
        } else if lane.deficit < lane.tasks[0].cost {
          lanes := lanes[roundIndex := lane];
          roundIndex, quantumAdded := (roundIndex + 1) % |lanes|, false;
        } else {
          lanes := lanes[roundIndex := lane];
        }
        totalTasks := totalTasks - 1;
        return Some(head);
      }
      lanes := lanes[roundIndex := lane];
      roundIndex, quantumAdded := (roundIndex + 1) % |lanes|, false;
      task := None;
    }

    /** The first lane whose head has waited too long, if any; `clock(i)` is the time read for lane `i`. */
    method FindStarving(clock: nat -> int) returns (i: nat)
      ensures i <= |lanes|
      ensures i < |lanes| ==> lanes[i].tasks != [] && clock(i) - lanes[i].tasks[0].enqueuedAt >= lanes[i].threshold
      ensures forall j :: 0 <= j < i ==>
        lanes[j].tasks == [] || clock(j) - lanes[j].tasks[0].enqueuedAt < lanes[j].threshold
    {
      i := 0;
      while i < |lanes| && !IsStarving(lanes[i], clock(i))
        invariant i <= |lanes| && forall j :: 0 <= j < i ==> !IsStarving(lanes[j], clock(j))
      {
        i := i + 1;
      }
    }

    /**
     With something queued the call returns a task after fewer than (number of lanes) * (largest cost + 1)
     idle visits; with nothing queued the program would wait, and the result is none. `clock(n)` gives the
     times read by the n-th starvation scan.
     */
    method ScheduleNext(clock: nat -> nat -> int)
      returns (task: Option<Task>, ghost idle: nat, ghost boosted: bool, ghost lane: nat, ghost scans: nat)
      requires Valid()
      modifies this
      ensures Valid() && maxCost == old(maxCost)
      ensures task.Some? <==> old(totalTasks) > 0
      ensures task.None? ==> State() == old(State())
      ensures task.Some? ==> Dispatches(old(State()), idle, State(), task.value, boosted, lane)
      ensures task.Some? ==> idle < Times(|lanes|, maxCost + 1)
      ensures task.Some? ==> Timely(old(State()), clock, scans, idle, boosted, lane)
    {
      idle, boosted, lane, scans := 0, false, 0, 0;
      if totalTasks == 0 {
        return None, idle, boosted, lane, scans;
      }
      ghost var busy := SomeQueued(lanes);
      OnCourseStart(State(), maxCost, busy);
      task, idle, boosted, lane, scans := Dispatch(State(), busy, clock);
    }

    /** The outer loop. */
    method Dispatch(ghost start: Sched, ghost busy: nat, clock: nat -> nat -> int)
      returns (task: Option<Task>, ghost idle: nat, ghost boosted: bool, ghost lane: nat, ghost scans: nat)
      requires OnCourse(start, maxCost, busy, 0) && State() == start
      modifies this`lanes, this`roundIndex, this`quantumAdded, this`totalTasks
      ensures |lanes| == |start.lanes| && idle < Times(|start.lanes|, maxCost + 1)
      ensures task.Some? && Ends(start, maxCost, clock, scans, idle, State(), task.value, boosted, lane)
    {
      idle := 0;
      var scan: nat := 0;
      while true
        invariant OnCourse(start, maxCost, busy, idle) && State() == Visits(start, idle)
        invariant AtScan(start, clock, scan, idle)
        decreases Times(|start.lanes|, maxCost + 1) - idle
      {
        task, idle, boosted, lane := Attempt(clock(scan), start, busy, clock, scan, idle);
        if task.Some? {
          scans := scan;
          return;
        }
        scan := scan + 1;
      }
    }

    /** One turn of the outer loop: a starvation scan, then at most two rounds of visits. */
    method Attempt(times: nat -> int, ghost start: Sched, ghost busy: nat, ghost clock: nat -> nat -> int,
        ghost scan: nat, ghost before: nat)
      returns (task: Option<Task>, ghost idle: nat, ghost boosted: bool, ghost lane: nat)
      requires OnCourse(start, maxCost, busy, before) && State() == Visits(start, before)
      requires AtScan(start, clock, scan, before) && times == clock(scan)
      modifies this`lanes, this`roundIndex, this`quantumAdded, this`totalTasks
      ensures OnCourse(start, maxCost, busy, idle)
      ensures |lanes| == |start.lanes|
      ensures task.Some? ==> Ends(start, maxCost, clock, scan, idle, State(), task.value, boosted, lane)
      ensures task.None? ==> State() == Visits(start, idle) && AtScan(start, clock, scan + 1, idle) && idle > before
    {
      idle, boosted, lane := before, false, 0;
      var j := FindStarving(times);
      if j < |lanes| {
        BoostTimely(start, clock, scan, before, lanes, j);
        task := ServeStarving(j);
        StarvedKeeps(start, maxCost, busy, before, j);
        return task, before, true, j;
      }
      ghost var seen := lanes;
      task, idle := TryRounds(start, busy, before);
      ScanNext(start, clock, scan, before, seen, idle);
      if task.Some? {
        ServedKeeps(start, maxCost, busy, idle);
      }
    }

    method ServeStarving(j: nat) returns (task: Option<Task>)
      requires j < |lanes| && lanes[j].tasks != []
      modifies this`lanes, this`totalTasks
      ensures State() == Starve(old(State()), j)
      ensures lanes == old(lanes)[j := old(lanes)[j].(tasks := old(lanes)[j].tasks[1..])]
      ensures totalTasks == old(totalTasks) - 1 && task == Some(old(lanes)[j].tasks[0].(ageBoosted := true))
    {
      var t := lanes[j].tasks[0];
      lanes := lanes[j := lanes[j].(tasks := lanes[j].tasks[1..])];
      totalTasks := totalTasks - 1;
      task := Some(t.(ageBoosted := true));
    }

    /** The inner loop: at most two rounds of visits, stopping at the first that serves a task. */
    method TryRounds(ghost start: Sched, ghost busy: nat, ghost before: nat)
      returns (task: Option<Task>, ghost idle: nat)
      requires OnCourse(start, maxCost, busy, before) && State() == Visits(start, before)
      modifies this`lanes, this`roundIndex, this`quantumAdded, this`totalTasks
      ensures OnCourse(start, maxCost, busy, idle)
      ensures task.Some? ==> Visit(Visits(start, idle)) == Visited(State(), task)
      ensures task.Some? ==> before <= idle < before + 2 * |start.lanes|
      ensures task.None? ==> State() == Visits(start, idle) && idle == before + 2 * |start.lanes|
    {
      idle := before;
      var attempts := 0;
      while attempts < |lanes| * 2
        invariant State() == Visits(start, idle) && OnCourse(start, maxCost, busy, idle)
        invariant idle == before + attempts && 0 <= attempts <= |start.lanes| * 2
        decreases |start.lanes| * 2 - attempts
      {
        task := VisitLane();
        if task.Some? {
          return;
        }
        OnCourseStep(start, maxCost, busy, idle);
        idle := idle + 1;
        attempts := attempts + 1;
      }
      task := None;
    }
  }

  /** `idle` visits from `start`, a state with work in lane `busy`, have dispatched nothing, and more are allowed. */
  ghost predicate OnCourse(start: Sched, maxCost: nat, busy: nat, idle: nat) {
    && Inv(start, maxCost) && busy < |start.lanes| && start.lanes[busy].tasks != []
    && Idle(start, idle) && idle < Times(|start.lanes|, maxCost + 1)
  }

  lemma {:induction false} OnCourseStart(start: Sched, maxCost: nat, busy: nat)
    requires Inv(start, maxCost) && busy < |start.lanes| && start.lanes[busy].tasks != []
    ensures OnCourse(start, maxCost, busy, 0)
  {
    DispatchLimit(start, maxCost, busy, 0);
  }

  lemma {:induction false} OnCourseStep(start: Sched, maxCost: nat, busy: nat, idle: nat)
    requires OnCourse(start, maxCost, busy, idle) && Visit(Visits(start, idle)).task.None?
    ensures OnCourse(start, maxCost, busy, idle + 1) && Visits(start, idle + 1) == Visit(Visits(start, idle)).s
  {
    DispatchLimit(start, maxCost, busy, idle + 1);
  }

  lemma {:induction false} StarvedKeeps(start: Sched, maxCost: nat, busy: nat, idle: nat, j: nat)
    requires OnCourse(start, maxCost, busy, idle) && j < |start.lanes|
    ensures Inv(Starve(Visits(start, idle), j), maxCost)
  {
    DispatchLimit(start, maxCost, busy, idle);
    StarveKeeps(Visits(start, idle), maxCost, j);
  }

  lemma {:induction false} ServedKeeps(start: Sched, maxCost: nat, busy: nat, idle: nat)
    requires OnCourse(start, maxCost, busy, idle)
    ensures Inv(Visit(Visits(start, idle)).s, maxCost)
  {
    DispatchLimit(start, maxCost, busy, idle);
    VisitKeeps(Visits(start, idle), maxCost);
  }

  lemma {:induction false} NothingQueued(lanes: seq<Lane>)
    requires forall i :: 0 <= i < |lanes| ==> lanes[i].tasks == []
    ensures Queued(lanes) == 0
  {
    if lanes != [] {
      NothingQueued(lanes[..|lanes| - 1]);
    }
  }

  lemma {:induction false} SomeQueued(lanes: seq<Lane>) returns (i: nat)
    requires Queued(lanes) > 0
    ensures i < |lanes| && lanes[i].tasks != []
  {
    var n := |lanes| - 1;
    if lanes[n].tasks != [] {
      return n;
    }
    i := SomeQueued(lanes[..n]);
  }
}
