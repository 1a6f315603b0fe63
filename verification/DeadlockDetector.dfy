/**
 The deadlock detector: tasks, the locks they hold and wait for, cycle detection and victim selection.
 Task and lock ids are arbitrary types with one distinguished value each, the program's empty string.
 */
module DeadlockDetector {
  import opened Digraph
  import opened Sequences
  import opened Sorting
  import opened WaitForGraph

  datatype Policy = LowestPriority | Youngest | FewestLocks | Unrecognised
  datatype TaskInfo<T, L> = TaskInfo(id: T, priority: int, startedAt: int, held: set<L>, waiting: L)
  datatype Grant = Granted | Waiting | TaskNotFound
  datatype Selection<T> = Victim(id: T) | NoVictim

  // ---- The wait-for graph ----

  predicate Waits<T(==), L(==)>(tasks: map<T, TaskInfo<T, L>>, holders: map<L, T>, noLock: L, u: T) {
    u in tasks && tasks[u].waiting != noLock && tasks[u].waiting in holders && holders[tasks[u].waiting] != u
  }

  /** A task waits for the holder of the lock it has asked for. */
  function WaitsFor<T(==), L(==)>(tasks: map<T, TaskInfo<T, L>>, holders: map<L, T>, noLock: L): Graph<T> {
    map u | u in tasks && Waits(tasks, holders, noLock, u) :: [holders[tasks[u].waiting]]
  }

  /** Held locks are registered to their task. */
  ghost predicate Consistent<T(!new), L(!new)>(tasks: map<T, TaskInfo<T, L>>, holders: map<L, T>) {
    && (forall t :: t in tasks ==> tasks[t].id == t)
    && forall t, l :: t in tasks && l in tasks[t].held ==> l in holders && holders[l] == t
  }

  /** No lock is held by two tasks. */
  lemma {:induction false} MutualExclusion<T(!new), L(!new)>(
      tasks: map<T, TaskInfo<T, L>>, holders: map<L, T>, t: T, u: T)
    requires Consistent(tasks, holders) && t in tasks && u in tasks && t != u
    ensures tasks[t].held !! tasks[u].held
  {
    forall l | l in tasks[t].held ensures l !in tasks[u].held {
      assert holders[l] == t;
    }
  }

  // ---- Depth-first search ----

  /** The variables the search closure updates. */
  class Search<T(==, !new)> {
    const wfg: Graph<T>
    var visited: set<T>
    var recStack: set<T>
    var path: seq<T>
    var cycles: seq<seq<T>>

    constructor (wfg: Graph<T>)
      ensures this.wfg == wfg && visited == {} && recStack == {} && path == [] && cycles == []
    {
      this.wfg, visited, recStack, path, cycles := wfg, {}, {}, [], [];
    }

    method Dfs(u: T)
      requires Functional(wfg) && u in Nodes(wfg) && u !in visited
      requires recStack == Elems(path) && Elems(path) <= visited
      modifies this
      ensures path == old(path) && recStack == old(recStack)
      ensures var c := Chain(wfg, old(visited), old(path), u);
        visited == old(visited) + Elems(c) && cycles == old(cycles) + Loop(wfg, c)
      decreases Nodes(wfg) - visited
    {
      ghost var chain := Chain(wfg, visited, path, u);
      visited := visited + {u};
      recStack := recStack + {u};
      path := path + [u];
      ElemsConcat(old(path), [u]);
      assert Elems([u]) == {u};
      var next := if u in wfg then wfg[u] else [];
      var i := 0;
      while i < |next|
        invariant 0 <= i <= |next|
        invariant path == old(path) + [u] && recStack == Elems(path)
        invariant i == 0 ==> visited == old(visited) + {u} && cycles == old(cycles)
        invariant i == 1 ==> visited == old(visited) + Elems(chain) && cycles == old(cycles) + Loop(wfg, chain)
        decreases |next| - i
      {
        var v := next[i];
        if v !in visited {
          Dfs(v);
          ChainCovers(old(visited), {u}, chain, |old(path)|);
        } else if v in recStack {
          var start := Find(path, v);
          if start != -1 {
            cycles := cycles + [path[start..]];
          }
        }
        i := i + 1;
      }
      path := path[..|path| - 1];
      recStack := recStack - {u};
    }
  }

  lemma {:induction false} ChainCovers<T(!new)>(visited: set<T>, one: set<T>, chain: seq<T>, k: nat)
    requires k < |chain| && one == {chain[k]}
    ensures visited + one + Elems(chain) == visited + Elems(chain)
  {
  }

  /** The first position of `v`, or -1. */
  method Find<T(==)>(path: seq<T>, v: T) returns (start: int)
    ensures v in path ==> start == IndexOf(path, v)
    ensures v !in path ==> start == -1
  {
    start := 0;
    while start < |path| && path[start] != v
      invariant 0 <= start <= |path| && v !in path[..start]
    {
      start := start + 1;
    }
    if start == |path| {
      return -1;
    }
  }

  // ---- Victims ----

  /** `a` is aborted rather than `b`. */
  predicate Prefer<T, L>(policy: Policy, a: TaskInfo<T, L>, b: TaskInfo<T, L>) {
    match policy
    case LowestPriority => a.priority < b.priority || (a.priority == b.priority && a.startedAt > b.startedAt)
    case Youngest => a.startedAt > b.startedAt
    case FewestLocks => |a.held| < |b.held|
    case Unrecognised => false
  }

  function Preference<T, L>(policy: Policy): (TaskInfo<T, L>, TaskInfo<T, L>) -> bool {
    (a, b) => Prefer(policy, a, b)
  }

  lemma {:induction false} PreferenceIsOrder<T(!new), L(!new)>(policy: Policy)
    ensures StrictWeakOrder(Preference<T, L>(policy))
  {
    var less := Preference<T, L>(policy);
    forall a, b, c | less(a, c) ensures less(a, b) || less(b, c) {
      assert Prefer(policy, a, c);
      assert Prefer(policy, a, b) || Prefer(policy, b, c);
    }
  }

  /** `v` is a registered task of the cycle and no other one is preferred to it. */
  ghost predicate Picks<T(!new), L(!new)>(policy: Policy, tasks: map<T, TaskInfo<T, L>>, cycle: seq<T>, v: T) {
    v in cycle && v in tasks && forall x :: x in cycle && x in tasks ==> !Prefer(policy, tasks[x], tasks[v])
  }

  lemma {:induction false} LeastIsPicked<T(!new), L(!new)>(
      policy: Policy, tasks: map<T, TaskInfo<T, L>>, cycle: seq<T>, cs: seq<TaskInfo<T, L>>,
      sorted: seq<TaskInfo<T, L>>)
    requires cs != [] && (forall t :: t in tasks ==> tasks[t].id == t)
    requires forall c :: c in cs <==> c.id in cycle && c.id in tasks && tasks[c.id] == c
    requires multiset(sorted) == multiset(cs) && Ordered(Preference(policy), sorted)
    ensures sorted != [] && Picks(policy, tasks, cycle, sorted[0].id)
  {
    SameElements(sorted, cs);
    assert |sorted| == |multiset(sorted)| == |cs|;
    var least := sorted[0];
    assert least in sorted;
    forall x | x in cycle && x in tasks ensures !Prefer(policy, tasks[x], least) {
      assert tasks[x] in sorted;
      var i :| 0 <= i < |sorted| && sorted[i] == tasks[x];
      assert i > 0 ==> !Preference(policy)(sorted[i], sorted[0]);
    }
  }

  // ---- Removing tasks ----

  function Released<T(==), L(==)>(holders: map<L, T>, held: set<L>, id: T): map<L, T> {
    map l | l in holders && !(l in held && holders[l] == id) :: holders[l]
  }

  /** Unregistering a task frees exactly the locks it holds; releasing frees that one lock, if the task has it. */
  lemma {:induction false} ReleasedIs<T(!new), L(!new)>(
      tasks: map<T, TaskInfo<T, L>>, holders: map<L, T>, id: T, lock: L, l: L)
    requires Consistent(tasks, holders) && id in tasks
    ensures var freed, less := Released(holders, tasks[id].held, id), Released(holders, {lock}, id);
      && (l in freed <==> l in holders && l !in tasks[id].held)
      && (l in less <==> l in holders && (l != lock || holders[l] != id))
      && (l in freed ==> freed[l] == holders[l]) && (l in less ==> less[l] == holders[l])
  {
    assert l in tasks[id].held ==> l in holders && holders[l] == id;
  }

  /** What remains after some tasks are gone: locks may be freed, but only those the removed tasks held. */
  ghost predicate Removal<T(!new), L(!new)>(tasks: map<T, TaskInfo<T, L>>, holders: map<L, T>,
                                            tasks': map<T, TaskInfo<T, L>>, holders': map<L, T>, gone: set<T>)
  {
    && tasks' == tasks - gone
    && (forall l :: l in holders' ==> l in holders && holders'[l] == holders[l])
    && (forall l :: l in holders && holders[l] !in gone ==> l in holders')
  }

  lemma {:induction false} RemovalStep<T(!new), L(!new)>(
      tasks: map<T, TaskInfo<T, L>>, holders: map<L, T>, tasks': map<T, TaskInfo<T, L>>, holders': map<L, T>,
      gone: set<T>, held: set<L>, id: T)
    requires Removal(tasks, holders, tasks', holders', gone)
    ensures Removal(tasks, holders, tasks' - {id}, Released(holders', held, id), gone + {id})
  {
    assert tasks' - {id} == tasks - (gone + {id});
  }

  lemma {:induction false} RemovalGraph<T(!new), L(!new)>(tasks: map<T, TaskInfo<T, L>>, holders: map<L, T>,
                                       tasks': map<T, TaskInfo<T, L>>, holders': map<L, T>, gone: set<T>, noLock: L)
    requires Removal(tasks, holders, tasks', holders', gone)
    ensures var g, h := WaitsFor(tasks, holders, noLock), WaitsFor(tasks', holders', noLock);
      && Within(h, g)
      && h.Keys !! gone
      && forall u, v :: u !in gone && v !in gone && Edge(g, u, v) ==> Edge(h, u, v)
  {
  }

  /** `u` waits for `v` exactly if `v` holds the lock `u` has asked for. */
  lemma {:induction false} WaitsForHolder<T(!new), L(!new)>(
      tasks: map<T, TaskInfo<T, L>>, holders: map<L, T>, noLock: L, u: T, v: T)
    ensures Edge(WaitsFor(tasks, holders, noLock), u, v) <==>
      && u in tasks && v != u && tasks[u].waiting != noLock
      && tasks[u].waiting in holders && holders[tasks[u].waiting] == v
  {
    if u in tasks && Waits(tasks, holders, noLock, u) {
      assert WaitsFor(tasks, holders, noLock)[u] == [holders[tasks[u].waiting]];
    }
  }

  lemma {:induction false} GraphShape<T(!new), L(!new)>(tasks: map<T, TaskInfo<T, L>>, holders: map<L, T>, noLock: L)
    ensures Functional(WaitsFor(tasks, holders, noLock)) && WaitsFor(tasks, holders, noLock).Keys <= tasks.Keys
  {
  }

  /** The selections actually carried out: the empty id is never aborted. */
  ghost function Aborted<T>(picked: seq<T>, noTask: T): seq<T> {
    if picked == [] then []
    else
      var front, last := picked[..|picked| - 1], picked[|picked| - 1];
      Aborted(front, noTask) + if last == noTask then [] else [last]
  }

  lemma {:induction false} AbortedElems<T(!new)>(picked: seq<T>, noTask: T)
    ensures Elems(Aborted(picked, noTask)) == Elems(picked) - {noTask}
    ensures noTask !in picked ==> Aborted(picked, noTask) == picked
  {
    if picked != [] {
      var front, last := picked[..|picked| - 1], picked[|picked| - 1];
      AbortedElems(front, noTask);
      assert picked == front + [last];
      ElemsConcat(front, [last]);
      ElemsConcat(Aborted(front, noTask), if last == noTask then [] else [last]);
    }
  }

  /** Each cycle lost the task picked for it, and only the empty id can save a cycle. */
  lemma {:induction false} Resolved<T(!new), L(!new)>(policy: Policy, tasks: map<T, TaskInfo<T, L>>, holders: map<L, T>,
                                   tasks': map<T, TaskInfo<T, L>>, holders': map<L, T>,
                                   cycles: seq<seq<T>>, picked: seq<T>, noTask: T, noLock: L)
    requires FoundAll(WaitsFor(tasks, holders, noLock), cycles) && |picked| == |cycles|
    requires Picked(policy, tasks, cycles, picked)
    requires Removal(tasks, holders, tasks', holders', Elems(picked) - {noTask})
    ensures Acyclic(WaitsFor(tasks', holders', noLock)) <==> noTask !in picked
  {
    var g, h := WaitsFor(tasks, holders, noLock), WaitsFor(tasks', holders', noLock);
    GraphShape(tasks, holders, noLock);
    RemovalGraph(tasks, holders, tasks', holders', Elems(picked) - {noTask}, noLock);
    if noTask !in picked {
      PickedGone(policy, tasks, g, h, cycles, picked, noTask);
    } else {
      PickedKept(policy, tasks, g, h, cycles, picked, noTask);
    }
  }

  lemma {:induction false} PickedGone<T(!new), L(!new)>(
      policy: Policy, tasks: map<T, TaskInfo<T, L>>, g: Graph<T>, h: Graph<T>, cycles: seq<seq<T>>, picked: seq<T>,
      noTask: T)
    requires Functional(g) && FoundAll(g, cycles) && |picked| == |cycles| && Picked(policy, tasks, cycles, picked)
    requires noTask !in picked && Within(h, g) && h.Keys !! Elems(picked) - {noTask}
    ensures Acyclic(h)
  {
    forall i | 0 <= i < |cycles| ensures picked[i] in cycles[i] && picked[i] !in h {
      assert picked[i] in Elems(picked) - {noTask};
    }
    AllBroken(g, h, cycles, picked);
  }

  lemma {:induction false} PickedKept<T(!new), L(!new)>(
      policy: Policy, tasks: map<T, TaskInfo<T, L>>, g: Graph<T>, h: Graph<T>, cycles: seq<seq<T>>, picked: seq<T>,
      noTask: T)
    requires FoundAll(g, cycles) && |picked| == |cycles| && Picked(policy, tasks, cycles, picked) && noTask in picked
    requires forall u, v ::
      u !in Elems(picked) - {noTask} && v !in Elems(picked) - {noTask} && Edge(g, u, v) ==> Edge(h, u, v)
    ensures !Acyclic(h)
  {
    var i :| 0 <= i < |picked| && picked[i] == noTask;
    forall u | u in cycles[i] ensures u !in Elems(picked) - {noTask} {
      OnlyOwnPick(policy, tasks, g, cycles, picked, i, u);
    }
    Unbroken(g, h, cycles[i]);
  }

  /** A task of one cycle is picked only for that cycle. */
  lemma {:induction false} OnlyOwnPick<T(!new), L(!new)>(
      policy: Policy, tasks: map<T, TaskInfo<T, L>>, g: Graph<T>, cycles: seq<seq<T>>, picked: seq<T>, i: nat, u: T)
    requires FoundAll(g, cycles) && |picked| == |cycles| && i < |cycles| && u in cycles[i]
    requires Picked(policy, tasks, cycles, picked)
    ensures u in picked ==> u == picked[i]
  {
    if u in picked {
      var j :| 0 <= j < |picked| && picked[j] == u;
      assert Picks(policy, tasks, cycles[j], picked[j]);
      assert u in Elems(cycles[i]) && u in Elems(cycles[j]);
    }
  }

  // ---- The detector ----

  function Waiters<T(==), L(==)>(waiters: map<L, seq<T>>, l: L): seq<T> {
    if l in waiters then waiters[l] else []
  }

  function Without<T(==)>(s: seq<T>, id: T): seq<T> {
    if s == [] then [] else Without(s[..|s| - 1], id) + if s[|s| - 1] == id then [] else [s[|s| - 1]]
  }

  lemma {:induction false} WithoutIs<T(!new)>(s: seq<T>, id: T)
    ensures multiset(Without(s, id)) == multiset(s)[id := 0]
  {
    if s != [] {
      var front, last := s[..|s| - 1], s[|s| - 1];
      WithoutIs(front, id);
      assert s == front + [last];
    }
  }

  class Detector<T(==, !new), L(==, !new)> {
    const noTask: T
    const noLock: L
    var tasks: map<T, TaskInfo<T, L>>
    var lockHolders: map<L, T>
    var lockWaiters: map<L, seq<T>>

    ghost predicate Valid()
      reads this
    {
      Consistent(tasks, lockHolders)
    }

    ghost function Graph(): Graph<T>
      reads this
    {
      WaitsFor(tasks, lockHolders, noLock)
    }

    constructor (noTask: T, noLock: L)
      ensures Valid() && tasks == map[] && lockHolders == map[] && lockWaiters == map[]
      ensures this.noTask == noTask && this.noLock == noLock
    {
      this.noTask, this.noLock := noTask, noLock;
      tasks, lockHolders, lockWaiters := map[], map[], map[];
    }

    /** Registering an id again forgets the locks it holds, which stay marked as held. */
    method RegisterTask(id: T, priority: int, startedAt: int)
      requires Valid()
      modifies this`tasks
      ensures Valid() && tasks == old(tasks)[id := TaskInfo(id, priority, startedAt, {}, noLock)]
    {
      tasks := tasks[id := TaskInfo(id, priority, startedAt, {}, noLock)];
    }

    method UnregisterTask(id: T)
      requires Valid()
      modifies this
      ensures Valid() && tasks == old(tasks) - {id}
      ensures id !in old(tasks) ==> lockHolders == old(lockHolders) && lockWaiters == old(lockWaiters)
      ensures id in old(tasks) ==> lockHolders == Released(old(lockHolders), old(tasks)[id].held, id)
      ensures id in old(tasks) ==>
        lockWaiters == if old(tasks)[id].waiting == noLock then old(lockWaiters)
        else old(lockWaiters)[old(tasks)[id].waiting := Without(Waiters(old(lockWaiters), old(tasks)[id].waiting), id)]
    {
      if id !in tasks {
        return;
      }
      var t := tasks[id];
      FreeLocks(t.held, id);
      if t.waiting != noLock {
        var filtered := DropWaiter(Waiters(lockWaiters, t.waiting), id);
        lockWaiters := lockWaiters[t.waiting := filtered];
      }
      tasks := tasks - {id};
    }

    static method DropWaiter(waiters: seq<T>, id: T) returns (filtered: seq<T>)
      ensures filtered == Without(waiters, id)
    {
      filtered := [];
      var i := 0;
      while i < |waiters|
        invariant 0 <= i <= |waiters| && filtered == Without(waiters[..i], id)
      {
        assert waiters[..i + 1][..i] == waiters[..i];
        if waiters[i] != id {
          filtered := filtered + [waiters[i]];
        }
        i := i + 1;
      }
      assert waiters[..i] == waiters;
    }

    /** The loop over the held locks, in any order. */
    method FreeLocks(held: set<L>, id: T)
      modifies this`lockHolders
      ensures lockHolders == Released(old(lockHolders), held, id)
    {
      var todo := held;
      while todo != {}
        invariant todo <= held && lockHolders == Released(old(lockHolders), held - todo, id)
        decreases todo
      {
        var l :| l in todo;
        if l in lockHolders && lockHolders[l] == id {
          lockHolders := lockHolders - {l};
        }
        todo := todo - {l};
      }
    }

    method AcquireLock(taskID: T, lockID: L) returns (r: Grant)
      requires Valid()
      modifies this
      ensures Valid()
      ensures r == if taskID !in old(tasks) then TaskNotFound
        else if lockID in old(lockHolders) && old(lockHolders)[lockID] != taskID then Waiting else Granted
      ensures r.TaskNotFound? ==> tasks == old(tasks)
      ensures r.Waiting? ==> tasks == old(tasks)[taskID := old(tasks)[taskID].(waiting := lockID)]
      ensures r.Waiting? ==> lockWaiters == old(lockWaiters)[lockID := Waiters(old(lockWaiters), lockID) + [taskID]]
      ensures !r.Waiting? ==> lockWaiters == old(lockWaiters)
      ensures r.Granted? ==> tasks == old(tasks)[taskID :=
        old(tasks)[taskID].(held := old(tasks)[taskID].held + {lockID}, waiting := noLock)]
      ensures lockHolders == if r.Granted? then old(lockHolders)[lockID := taskID] else old(lockHolders)
    {
      if taskID !in tasks {
        return TaskNotFound;
      }
      var t := tasks[taskID];
      if lockID in lockHolders && lockHolders[lockID] != taskID {
        tasks := tasks[taskID := t.(waiting := lockID)];
        lockWaiters := lockWaiters[lockID := Waiters(lockWaiters, lockID) + [taskID]];
        return Waiting;
      }
      lockHolders := lockHolders[lockID := taskID];
      tasks := tasks[taskID := t.(held := t.held + {lockID}, waiting := noLock)];
      r := Granted;
    }

    method ReleaseLock(taskID: T, lockID: L) returns (ok: bool)
      requires Valid()
      modifies this`tasks, this`lockHolders
      ensures Valid() && ok == (taskID in old(tasks))
      ensures !ok ==> tasks == old(tasks) && lockHolders == old(lockHolders)
      ensures ok ==> tasks == old(tasks)[taskID := old(tasks)[taskID].(held := old(tasks)[taskID].held - {lockID})]
      ensures ok ==> lockHolders == Released(old(lockHolders), {lockID}, taskID)
    {
      if taskID !in tasks {
        return false;
      }
      tasks := tasks[taskID := tasks[taskID].(held := tasks[taskID].held - {lockID})];
      if lockID in lockHolders && lockHolders[lockID] == taskID {
        lockHolders := lockHolders - {lockID};
      }
      ok := true;
    }

    method BuildWaitForGraph() returns (wfg: Graph<T>)
      ensures wfg == Graph()
    {
      wfg := map[];
      var todo := tasks.Keys;
      while todo != {}
        invariant todo <= tasks.Keys
        invariant wfg == map u | u in tasks && u !in todo && Waits(tasks, lockHolders, noLock, u) ::
          [lockHolders[tasks[u].waiting]]
        decreases todo
      {
        var u :| u in todo;
        if tasks[u].waiting != noLock && tasks[u].waiting in lockHolders && lockHolders[tasks[u].waiting] != u {
          wfg := wfg[u := [lockHolders[tasks[u].waiting]]];
        }
        todo := todo - {u};
      }
    }

    /** Exactly the cycles of the wait-for graph, whatever the order in which tasks are visited. */
    method DetectDeadlocks() returns (cycles: seq<seq<T>>)
      ensures FoundAll(Graph(), cycles)
    {
      var wfg := BuildWaitForGraph();
      GraphShape(tasks, lockHolders, noLock);
      var search := new Search(wfg);
      var todo := wfg.Keys;
      while todo != {}
        invariant todo <= wfg.Keys && wfg.Keys - todo <= search.visited
        invariant search.path == [] && search.recStack == {} && search.wfg == wfg
        invariant Found(wfg, search.visited, search.cycles)
        modifies search
        decreases todo
      {
        var u :| u in todo;
        if u !in search.visited {
          SearchFinds(wfg, search.visited, search.cycles, u);
          search.Dfs(u);
        }
        todo := todo - {u};
      }
      SeenAll(wfg, search.visited, search.cycles);
      cycles := search.cycles;
    }

    /** A least task of the cycle under the policy; which of several is not specified. */
    method SelectVictim(cycle: seq<T>, policy: Policy) returns (r: Selection<T>)
      requires Valid()
      ensures r.Victim? <==> exists x :: x in cycle && x in tasks
      ensures r.Victim? ==> Picks(policy, tasks, cycle, r.id)
      ensures r.Victim? && policy.LowestPriority? ==> forall x :: x in cycle && x in tasks ==>
        && tasks[r.id].priority <= tasks[x].priority
        && (tasks[r.id].priority == tasks[x].priority ==> tasks[r.id].startedAt >= tasks[x].startedAt)
      ensures r.Victim? && policy.Youngest? ==>
        forall x :: x in cycle && x in tasks ==> tasks[r.id].startedAt >= tasks[x].startedAt
      ensures r.Victim? && policy.FewestLocks? ==>
        forall x :: x in cycle && x in tasks ==> |tasks[r.id].held| <= |tasks[x].held|
    {
      if |cycle| == 0 {
        return NoVictim;
      }
      var candidates: seq<TaskInfo<T, L>> := [];
      var i := 0;
      while i < |cycle|
        invariant 0 <= i <= |cycle|
        invariant forall c :: c in candidates <==> c.id in cycle[..i] && c.id in tasks && tasks[c.id] == c
      {
        assert cycle[..i + 1] == cycle[..i] + [cycle[i]];
        if cycle[i] in tasks {
          candidates := candidates + [tasks[cycle[i]]];
        }
        i := i + 1;
      }
      assert cycle[..i] == cycle;
      forall x | x in cycle && x in tasks ensures tasks[x] in candidates {
        assert tasks[x].id == x;
      }
      if |candidates| == 0 {
        return NoVictim;
      }
      var sorted := SortBy(Preference(policy), candidates);
      PreferenceIsOrder<T, L>(policy);
      SortOrdered(Preference(policy), candidates);
      LeastIsPicked(policy, tasks, cycle, candidates, sorted);
      r := Victim(sorted[0].id);
    }

    static method AnyAborted(cycle: seq<T>, aborted: set<T>) returns (b: bool)
      ensures b <==> Elems(cycle) * aborted != {}
    {
      var i := 0;
      while i < |cycle|
        invariant 0 <= i <= |cycle| && Elems(cycle[..i]) !! aborted
      {
        if cycle[i] in aborted {
          assert cycle[i] in Elems(cycle) * aborted;
          return true;
        }
        i := i + 1;
      }
      assert cycle[..i] == cycle;
      b := false;
    }

    /**
     One victim per cycle, least under the policy; afterwards no task waits for itself, unless a cycle's
     least task has the empty id. `victims` are the ids passed to the abort callback.
     */
    method ResolveDeadlocks(policy: Policy)
      returns (count: nat, victims: seq<T>, ghost cycles: seq<seq<T>>, ghost picked: seq<T>)
      requires Valid()
      modifies this
      ensures Valid() && FoundAll(old(Graph()), cycles) && |picked| == |cycles|
      ensures Picked(policy, old(tasks), cycles, picked)
      ensures victims == Aborted(picked, noTask) && count == |victims|
      ensures tasks == old(tasks) - Elems(victims)
      ensures Acyclic(Graph()) <==> noTask !in picked
      ensures noTask !in old(tasks) ==> Acyclic(Graph()) && victims == picked
    {
      var found := DetectDeadlocks();
      count, victims, picked := AbortAll(found, policy);
      cycles := found;
      AbortedElems(picked, noTask);
      Resolved(policy, old(tasks), old(lockHolders), tasks, lockHolders, cycles, picked, noTask, noLock);
      NeverEmpty(policy, old(tasks), cycles, picked, noTask);
    }

    /** The loop over the detected cycles. */
    method AbortAll(cycles: seq<seq<T>>, policy: Policy) returns (count: nat, victims: seq<T>, ghost picked: seq<T>)
      requires Valid() && FoundAll(Graph(), cycles)
      modifies this
      ensures Valid() && |picked| == |cycles| && Picked(policy, old(tasks), cycles, picked)
      ensures victims == Aborted(picked, noTask) && count == |victims|
      ensures Removal(old(tasks), old(lockHolders), tasks, lockHolders, Elems(picked) - {noTask})
    {
      picked, count, victims := [], 0, [];
      var aborted: set<T> := {};
      var k := 0;
      while k < |cycles|
        invariant 0 <= k <= |cycles| && |picked| == k && Valid() && count == |victims|
        invariant Resolving(policy, old(tasks), old(lockHolders), cycles, tasks, lockHolders, picked, noTask, aborted)
        invariant victims == Aborted(picked, noTask)
      {
        StillCyclic(policy, old(tasks), old(lockHolders), noLock, cycles, picked, aborted, k);
        var broken := AnyAborted(cycles[k], aborted);
        if !broken {
          ghost var t, h := tasks, lockHolders;
          var id := BreakCycle(cycles[k], policy);
          ResolvingNext(policy, old(tasks), old(lockHolders), cycles, t, h, picked, noTask, aborted, id);
          picked := picked + [id];
          if id != noTask {
            aborted := aborted + {id};
            victims := victims + [id];
            count := count + 1;
          }
        }
        k := k + 1;
      }
    }

    /** Aborts the victim of one cycle; the empty id is selected but not aborted. */
    method BreakCycle(cycle: seq<T>, policy: Policy) returns (id: T)
      requires Valid() && cycle != [] && cycle[0] in tasks
      modifies this
      ensures Valid() && Picks(policy, old(tasks), cycle, id)
      ensures id == noTask ==> tasks == old(tasks) && lockHolders == old(lockHolders)
      ensures id != noTask ==>
        tasks == old(tasks) - {id} && lockHolders == Released(old(lockHolders), old(tasks)[id].held, id)
    {
      var victim := SelectVictim(cycle, policy);
      if victim.Victim? && victim.id != noTask {
        UnregisterTask(victim.id);
      }
      id := victim.id;
    }
  }

  ghost predicate Picked<T(!new), L(!new)>(
      policy: Policy, tasks: map<T, TaskInfo<T, L>>, cycles: seq<seq<T>>, picked: seq<T>) {
    |picked| <= |cycles| && forall i :: 0 <= i < |picked| ==> Picks(policy, tasks, cycles[i], picked[i])
  }

  /** The state of the loop over the cycles: each so far has its victim, and those but the empty id are gone. */
  ghost predicate Resolving<T(!new), L(!new)>(
      policy: Policy, tasks: map<T, TaskInfo<T, L>>, holders: map<L, T>, cycles: seq<seq<T>>,
      tasks': map<T, TaskInfo<T, L>>, holders': map<L, T>, picked: seq<T>, noTask: T, aborted: set<T>) {
    && Picked(policy, tasks, cycles, picked) && aborted == Elems(picked) - {noTask}
    && Removal(tasks, holders, tasks', holders', aborted)
  }

  lemma {:induction false} ResolvingNext<T(!new), L(!new)>(
      policy: Policy, tasks: map<T, TaskInfo<T, L>>, holders: map<L, T>, cycles: seq<seq<T>>,
      tasks': map<T, TaskInfo<T, L>>, holders': map<L, T>, picked: seq<T>, noTask: T, aborted: set<T>, id: T)
    requires Resolving(policy, tasks, holders, cycles, tasks', holders', picked, noTask, aborted)
    requires |picked| < |cycles| && Elems(cycles[|picked|]) !! aborted && Picks(policy, tasks', cycles[|picked|], id)
    ensures var t := if id == noTask then tasks' else tasks' - {id};
      var h := if id == noTask then holders' else Released(holders', tasks'[id].held, id);
      var gone := if id == noTask then aborted else aborted + {id};
      Resolving(policy, tasks, holders, cycles, t, h, picked + [id], noTask, gone)
    ensures Aborted(picked + [id], noTask) == Aborted(picked, noTask) + if id == noTask then [] else [id]
  {
    PickedMore(policy, tasks, tasks', aborted, cycles, picked, id, noTask);
    if id != noTask {
      RemovalStep(tasks, holders, tasks', holders', aborted, tasks'[id].held, id);
    }
  }

  lemma {:induction false} NeverEmpty<T(!new), L(!new)>(
      policy: Policy, tasks: map<T, TaskInfo<T, L>>, cycles: seq<seq<T>>, picked: seq<T>, noTask: T)
    requires Picked(policy, tasks, cycles, picked)
    ensures noTask !in tasks ==> noTask !in picked
  {
    forall i | 0 <= i < |picked| ensures picked[i] in tasks {
      assert Picks(policy, tasks, cycles[i], picked[i]);
    }
  }

  lemma {:induction false} PickedMore<T(!new), L(!new)>(
      policy: Policy, tasks: map<T, TaskInfo<T, L>>, tasks': map<T, TaskInfo<T, L>>, gone: set<T>, cycles: seq<seq<T>>,
      picked: seq<T>, id: T, noTask: T)
    requires Picked(policy, tasks, cycles, picked) && |picked| < |cycles|
    requires tasks' == tasks - gone && Elems(cycles[|picked|]) !! gone && Picks(policy, tasks', cycles[|picked|], id)
    ensures Picked(policy, tasks, cycles, picked + [id])
    ensures Elems(picked + [id]) - {noTask} == if id == noTask then Elems(picked) - {noTask}
      else (Elems(picked) - {noTask}) + {id}
    ensures Aborted(picked + [id], noTask) == Aborted(picked, noTask) + if id == noTask then [] else [id]
  {
    SamePick(policy, tasks, tasks', gone, cycles[|picked|], id);
    ElemsConcat(picked, [id]);
    assert (picked + [id])[..|picked|] == picked;
  }

  /** The tasks of a cycle not yet dealt with are all still there. */
  lemma {:induction false} StillCyclic<T(!new), L(!new)>(
      policy: Policy, tasks: map<T, TaskInfo<T, L>>, holders: map<L, T>, noLock: L, cycles: seq<seq<T>>,
      picked: seq<T>, aborted: set<T>, k: nat)
    requires FoundAll(WaitsFor(tasks, holders, noLock), cycles) && k < |cycles| && |picked| == k
    requires aborted <= Elems(picked)
    requires Picked(policy, tasks, cycles, picked)
    ensures Elems(cycles[k]) !! aborted && cycles[k] != [] && cycles[k][0] in tasks - aborted
  {
    var g := WaitsFor(tasks, holders, noLock);
    UntouchedYet(policy, tasks, g, cycles, picked, aborted, k);
    GraphShape(tasks, holders, noLock);
    CycleNodes(g, cycles[k]);
    assert cycles[k][0] in Elems(cycles[k]);
  }

  lemma {:induction false} UntouchedYet<T(!new), L(!new)>(
      policy: Policy, tasks: map<T, TaskInfo<T, L>>, g: Graph<T>, cycles: seq<seq<T>>, picked: seq<T>, aborted: set<T>,
      k: nat)
    requires FoundAll(g, cycles) && k < |cycles| && |picked| == k && aborted <= Elems(picked)
    requires Picked(policy, tasks, cycles, picked)
    ensures Elems(cycles[k]) !! aborted
  {
    forall x | x in aborted ensures x !in cycles[k] {
      var i :| 0 <= i < |picked| && picked[i] == x;
      assert Picks(policy, tasks, cycles[i], picked[i]);
      assert x in Elems(cycles[i]);
    }
  }

  /** Removing tasks of other cycles does not change which tasks of this one are least. */
  lemma {:induction false} SamePick<T(!new), L(!new)>(
      policy: Policy, tasks: map<T, TaskInfo<T, L>>, tasks': map<T, TaskInfo<T, L>>, gone: set<T>, cycle: seq<T>, v: T)
    requires tasks' == tasks - gone && Elems(cycle) !! gone && Picks(policy, tasks', cycle, v)
    ensures Picks(policy, tasks, cycle, v)
  {
    forall x | x in cycle && x in tasks ensures !Prefer(policy, tasks[x], tasks[v]) {
      assert x in Elems(cycle);
      assert tasks'[x] == tasks[x];
    }
  }
}
