/**
 Wait-for graphs in which every task waits for at most one other: the chain a depth-first search
 follows from a task, and the cycle it may close.
 */
module WaitForGraph {
  import opened Digraph
  import opened Sequences

  ghost predicate Functional<T(!new)>(g: Graph<T>) {
    forall u :: u in g ==> |g[u]| == 1
  }

  lemma {:induction false} ElemsConcat<T(!new)>(a: seq<T>, b: seq<T>)
    ensures Elems(a + b) == Elems(a) + Elems(b)
  {
  }

  lemma {:induction false} DistinctHalves<T(!new)>(a: seq<T>, b: seq<T>)
    requires Distinct(a + b)
    ensures Distinct(a) && Distinct(b) && Elems(a) !! Elems(b)
  {
    forall i, j | 0 <= i < |a| && 0 <= j < |b| ensures a[i] != b[j] {
      assert (a + b)[i] != (a + b)[|a| + j];
    }
    forall i, j | 0 <= i < j < |b| ensures b[i] != b[j] {
      assert (a + b)[|a| + i] != (a + b)[|a| + j];
    }
    forall i, j | 0 <= i < j < |a| ensures a[i] != a[j] {
      assert (a + b)[i] != (a + b)[j];
    }
  }

  function Nodes<T(==)>(g: Graph<T>): set<T> {
    g.Keys + set u, i | u in g && 0 <= i < |g[u]| :: g[u][i]
  }

  ghost predicate Chained<T(!new)>(g: Graph<T>, p: seq<T>) {
    forall k :: 0 <= k < |p| - 1 ==> Edge(g, p[k], p[k + 1])
  }

  /** A simple cycle, listed from one of its tasks in waiting order. */
  ghost predicate IsCycle<T(!new)>(g: Graph<T>, c: seq<T>) {
    |c| >= 1 && Distinct(c) && Chained(g, c) && Edge(g, c[|c| - 1], c[0])
  }

  ghost predicate Closed<T(!new)>(g: Graph<T>, s: set<T>) {
    forall u, v :: u in s && Edge(g, u, v) ==> v in s
  }

  /** The cycles are simple, disjoint, and hold every task of `seen` that waits for itself. */
  ghost predicate Found<T(!new)>(g: Graph<T>, seen: set<T>, cycles: seq<seq<T>>) {
    && Closed(g, seen)
    && (forall i :: 0 <= i < |cycles| ==> IsCycle(g, cycles[i]) && Elems(cycles[i]) <= seen)
    && (forall i, j :: 0 <= i < j < |cycles| ==> Elems(cycles[i]) !! Elems(cycles[j]))
    && (forall u :: u in seen && Reach(g, u, u) ==> Listed(cycles, u))
  }

  ghost predicate Listed<T(!new)>(cycles: seq<seq<T>>, u: T) {
    exists i :: 0 <= i < |cycles| && u in cycles[i]
  }

  // ---- The search from one task ----

  /** The tasks on the stack when the search from `u` gets stuck. */
  ghost function Chain<T(!new)>(g: Graph<T>, visited: set<T>, path: seq<T>, u: T): (c: seq<T>)
    requires Functional(g) && u in Nodes(g) && u !in visited
    ensures |c| > |path| && c[..|path|] == path && c[|path|] == u
    decreases Nodes(g) - visited
  {
    if u in g && g[u][0] !in visited + {u} then
      var c := Chain(g, visited + {u}, path + [u], g[u][0]);
      assert c[..|path|] == c[..|path| + 1][..|path|];
      assert c[|path|] == c[..|path| + 1][|path|];
      c
    else path + [u]
  }

  function IndexOf<T(==)>(s: seq<T>, x: T): (i: nat)
    requires x in s
    ensures i < |s| && s[i] == x && x !in s[..i]
  {
    if s[0] == x then 0 else IndexOf(s[1..], x) + 1
  }

  /** The part of the chain from the task its last one waits for, if that task is on it. */
  ghost function Loop<T(!new)>(g: Graph<T>, chain: seq<T>): seq<seq<T>>
    requires Functional(g) && chain != []
  {
    var last := chain[|chain| - 1];
    if last in g && g[last][0] in chain then [chain[IndexOf(chain, g[last][0])..]] else []
  }

  ghost predicate Stuck<T(!new)>(g: Graph<T>, seen: set<T>, chain: seq<T>) {
    && chain != [] && Distinct(chain) && Chained(g, chain)
    && forall v :: Edge(g, chain[|chain| - 1], v) ==> v in seen || v in chain
  }

  lemma {:induction false} PathGrows<T(!new)>(g: Graph<T>, seen: set<T>, path: seq<T>, u: T)
    requires u !in seen + Elems(path) && Distinct(path) && Chained(g, path) && Elems(path) !! seen
    requires path != [] ==> Edge(g, path[|path| - 1], u)
    ensures var p := path + [u];
      seen + Elems(path) + {u} == seen + Elems(p) && Distinct(p) && Chained(g, p) && Elems(p) !! seen
  {
    ElemsConcat(path, [u]);
    assert Elems([u]) == {u};
  }

  lemma {:induction false} ChainShape<T(!new)>(g: Graph<T>, seen: set<T>, visited: set<T>, path: seq<T>, u: T)
    requires Functional(g) && u in Nodes(g) && u !in visited && visited == seen + Elems(path)
    requires Distinct(path) && Chained(g, path) && Elems(path) !! seen
    requires path != [] ==> Edge(g, path[|path| - 1], u)
    ensures var c := Chain(g, visited, path, u); Stuck(g, seen, c) && Elems(c) !! seen
    decreases Nodes(g) - visited
  {
    PathGrows(g, seen, path, u);
    if u in g && g[u][0] !in visited + {u} {
      ChainShape(g, seen, visited + {u}, path + [u], g[u][0]);
    } else {
      EndOfChain(g, seen, visited + {u}, path + [u]);
    }
  }

  lemma {:induction false} EndOfChain<T(!new)>(g: Graph<T>, seen: set<T>, visited: set<T>, p: seq<T>)
    requires Functional(g) && p != [] && Distinct(p) && Chained(g, p) && visited == seen + Elems(p)
    requires p[|p| - 1] !in g || g[p[|p| - 1]][0] in visited
    ensures Stuck(g, seen, p)
  {
  }

  // ---- Reachability inside closed sets ----

  lemma {:induction false} StaysIn<T(!new)>(g: Graph<T>, s: set<T>, u: T, v: T, n: nat)
    requires Closed(g, s) && u in s && Steps(g, u, v, n)
    ensures v in s
    decreases n
  {
    if n > 0 {
      var w :| Edge(g, u, w) && Steps(g, w, v, n - 1);
      StaysIn(g, s, w, v, n - 1);
    }
  }

  /** A task outside a closed set that waits only for tasks inside it never waits for itself. */
  lemma {:induction false} NoReturn<T(!new)>(g: Graph<T>, s: set<T>, u: T)
    requires Closed(g, s) && u !in s && forall v :: Edge(g, u, v) ==> v in s
    ensures !Reach(g, u, u) && Closed(g, s + {u})
  {
    if Reach(g, u, u) {
      var n: nat :| n >= 1 && Steps(g, u, u, n);
      var w :| Edge(g, u, w) && Steps(g, w, u, n - 1);
      StaysIn(g, s, w, u, n - 1);
    }
  }

  /** A chain that runs into a closed set holds no cycle. */
  lemma {:induction false} ChainLeaves<T(!new)>(g: Graph<T>, s: set<T>, p: seq<T>)
    requires Functional(g) && Closed(g, s) && Distinct(p) && Chained(g, p) && Elems(p) !! s
    requires p != [] ==> forall v :: Edge(g, p[|p| - 1], v) ==> v in s
    ensures Closed(g, s + Elems(p)) && forall u :: u in p ==> !Reach(g, u, u)
    decreases |p|
  {
    if p == [] {
      assert s + Elems(p) == s;
    } else {
      var u, front := p[|p| - 1], p[..|p| - 1];
      NoReturn(g, s, u);
      assert front != [] ==> Edge(g, front[|front| - 1], u);
      ChainLeaves(g, s + {u}, front);
      assert s + {u} + Elems(front) == s + Elems(p);
    }
  }

  lemma {:induction false} ChainedWalk<T(!new)>(g: Graph<T>, p: seq<T>)
    requires p != [] && Chained(g, p)
    ensures Walk(g, p)
  {
    if |p| > 1 {
      assert Edge(g, p[0], p[1]);
      var rest := p[1..];
      forall k | 0 <= k < |rest| - 1 ensures Edge(g, rest[k], rest[k + 1]) {
        assert Edge(g, p[k + 1], p[k + 2]);
      }
      ChainedWalk(g, rest);
    }
  }

  lemma {:induction false} CycleReaches<T(!new)>(g: Graph<T>, c: seq<T>, i: nat)
    requires IsCycle(g, c) && i < |c|
    ensures Reach(g, c[i], c[i])
  {
    ChainedWalk(g, c);
    ClosedWalkIsCycle(g, c, c[0]);
    if i > 0 {
      ChainedWalk(g, c[..i + 1]);
      WalkReach(g, c[..i + 1]);
      ChainedWalk(g, c[i..]);
      WalkSnoc(g, c[i..], c[0]);
      WalkReach(g, c[i..] + [c[0]]);
      ReachTrans(g, c[i], c[0], c[i]);
    }
  }

  lemma {:induction false} CycleClosed<T(!new)>(g: Graph<T>, c: seq<T>)
    requires Functional(g) && IsCycle(g, c)
    ensures Closed(g, Elems(c))
  {
    forall u, v | u in Elems(c) && Edge(g, u, v) ensures v in Elems(c) {
      var k :| 0 <= k < |c| && c[k] == u;
      if k < |c| - 1 {
        assert Edge(g, c[k], c[k + 1]);
      }
    }
  }

  // ---- What one search adds ----

  lemma {:induction false} LoopIsCycle<T(!new)>(g: Graph<T>, chain: seq<T>, i: nat)
    requires Functional(g) && chain != [] && Distinct(chain) && Chained(g, chain)
    requires i < |chain| && Edge(g, chain[|chain| - 1], chain[i])
    ensures IsCycle(g, chain[i..])
  {
    var c := chain[i..];
    forall k | 0 <= k < |c| - 1 ensures Edge(g, c[k], c[k + 1]) {
      assert Edge(g, chain[i + k], chain[i + k + 1]);
    }
  }

  /** After a search the closed set has grown by the chain, and its cyclic tasks are those of the loop. */
  lemma {:induction false} ChainCycles<T(!new)>(g: Graph<T>, seen: set<T>, chain: seq<T>)
    requires Functional(g) && Closed(g, seen) && Stuck(g, seen, chain) && Elems(chain) !! seen
    ensures Closed(g, seen + Elems(chain))
    ensures forall i ::
      0 <= i < |Loop(g, chain)| ==> IsCycle(g, Loop(g, chain)[i]) && Elems(Loop(g, chain)[i]) <= Elems(chain)
    ensures forall u :: u in chain && Reach(g, u, u) ==> Listed(Loop(g, chain), u)
  {
    var last := chain[|chain| - 1];
    if last in g && g[last][0] in chain {
      var i := IndexOf(chain, g[last][0]);
      var c := chain[i..];
      assert Loop(g, chain) == [c];
      LoopIsCycle(g, chain, i);
      CycleClosed(g, c);
      LeadIn(g, seen, chain, i);
    } else {
      ChainLeaves(g, seen, chain);
    }
  }

  /** The tasks of the chain before the cycle are not on one. */
  lemma {:induction false} LeadIn<T(!new)>(g: Graph<T>, seen: set<T>, chain: seq<T>, i: nat)
    requires Functional(g) && Closed(g, seen) && Distinct(chain) && Chained(g, chain) && Elems(chain) !! seen
    requires i < |chain| && IsCycle(g, chain[i..]) && Closed(g, Elems(chain[i..]))
    ensures Closed(g, seen + Elems(chain))
    ensures forall u :: u in chain && Reach(g, u, u) ==> Listed([chain[i..]], u)
  {
    var c, front := chain[i..], chain[..i];
    assert chain == front + c;
    ElemsConcat(front, c);
    DistinctHalves(front, c);
    LeadInto(g, seen, front, c);
    assert seen + Elems(c) + Elems(front) == seen + Elems(chain);
    assert [c][0] == c;
  }

  lemma {:induction false} LeadInto<T(!new)>(g: Graph<T>, seen: set<T>, front: seq<T>, c: seq<T>)
    requires Functional(g) && Closed(g, seen) && Closed(g, Elems(c)) && c != []
    requires Distinct(front) && Chained(g, front + c) && Elems(front) !! seen && Elems(front) !! Elems(c)
    ensures Closed(g, seen + Elems(c) + Elems(front)) && forall u :: u in front ==> !Reach(g, u, u)
  {
    var all := front + c;
    forall k | 0 <= k < |front| - 1 ensures Edge(g, front[k], front[k + 1]) {
      assert Edge(g, all[k], all[k + 1]);
    }
    if front != [] {
      assert Edge(g, all[|front| - 1], all[|front|]);
    }
    ChainLeaves(g, seen + Elems(c), front);
  }

  lemma {:induction false} ListedEither<T(!new)>(a: seq<seq<T>>, b: seq<seq<T>>, u: T)
    requires Listed(a, u) || Listed(b, u)
    ensures Listed(a + b, u)
  {
    var all := a + b;
    if Listed(a, u) {
      var i :| 0 <= i < |a| && u in a[i];
      assert all[i] == a[i];
    } else {
      var i :| 0 <= i < |b| && u in b[i];
      assert all[|a| + i] == b[i];
    }
  }

  lemma {:induction false} SearchFinds<T(!new)>(g: Graph<T>, seen: set<T>, cycles: seq<seq<T>>, u: T)
    requires Functional(g) && Found(g, seen, cycles) && u in Nodes(g) && u !in seen
    ensures var c := Chain(g, seen, [], u); Found(g, seen + Elems(c), cycles + Loop(g, c))
  {
    StartShape(g, seen, u);
    var c := Chain(g, seen, [], u);
    ChainCycles(g, seen, c);
    FoundMore(g, seen, cycles, Elems(c), Loop(g, c));
  }

  lemma {:induction false} StartShape<T(!new)>(g: Graph<T>, seen: set<T>, u: T)
    requires Functional(g) && u in Nodes(g) && u !in seen
    ensures var c := Chain(g, seen, [], u); Stuck(g, seen, c) && Elems(c) !! seen
  {
    assert seen + Elems<T>([]) == seen;
    ChainShape(g, seen, seen, [], u);
  }

  lemma {:induction false} FoundMore<T(!new)>(
      g: Graph<T>, seen: set<T>, cycles: seq<seq<T>>, more: set<T>, loop: seq<seq<T>>)
    requires Found(g, seen, cycles) && Closed(g, seen + more) && more !! seen && |loop| <= 1
    requires forall i :: 0 <= i < |loop| ==> IsCycle(g, loop[i]) && Elems(loop[i]) <= more
    requires forall u :: u in more && Reach(g, u, u) ==> Listed(loop, u)
    ensures Found(g, seen + more, cycles + loop)
  {
    forall x | x in seen + more && Reach(g, x, x) ensures Listed(cycles + loop, x) {
      ListedEither(cycles, loop, x);
    }
  }

  // ---- What a complete list of cycles means ----

  /** Exactly the cycles of the graph: what a finished search has found. */
  ghost predicate FoundAll<T(!new)>(g: Graph<T>, cycles: seq<seq<T>>) {
    Found(g, Nodes(g), cycles)
  }

  lemma {:induction false} SeenAll<T(!new)>(g: Graph<T>, seen: set<T>, cycles: seq<seq<T>>)
    requires Found(g, seen, cycles) && g.Keys <= seen
    ensures FoundAll(g, cycles)
  {
    forall u | u in Nodes(g) && Reach(g, u, u) ensures Listed(cycles, u) {
      ReachHasEdge(g, u);
    }
    forall i | 0 <= i < |cycles| ensures Elems(cycles[i]) <= Nodes(g) {
      CycleNodes(g, cycles[i]);
    }
  }

  lemma {:induction false} CycleNodes<T(!new)>(g: Graph<T>, c: seq<T>)
    requires IsCycle(g, c)
    ensures Elems(c) <= g.Keys
  {
    forall k | 0 <= k < |c| ensures c[k] in g {
      if k < |c| - 1 {
        assert Edge(g, c[k], c[k + 1]);
      }
    }
  }

  /** The list holds exactly the tasks that wait for themselves. */
  lemma {:induction false} FoundIff<T(!new)>(g: Graph<T>, cycles: seq<seq<T>>, u: T)
    requires FoundAll(g, cycles)
    ensures Reach(g, u, u) <==> Listed(cycles, u)
  {
    if Reach(g, u, u) {
      ReachHasEdge(g, u);
    }
    if Listed(cycles, u) {
      var i :| 0 <= i < |cycles| && u in cycles[i];
      var k :| 0 <= k < |cycles[i]| && cycles[i][k] == u;
      CycleReaches(g, cycles[i], k);
    }
  }

  lemma {:induction false} CycleInside<T(!new)>(g: Graph<T>, c: seq<T>, s: set<T>, i: nat, k: nat)
    requires IsCycle(g, c) && Closed(g, s) && i < |c| && c[i] in s && k < |c|
    ensures c[k] in s
    decreases if k < i then |c| + k else k
  {
    if k != i {
      if k == 0 {
        CycleInside(g, c, s, i, |c| - 1);
        assert Edge(g, c[|c| - 1], c[0]);
      } else {
        CycleInside(g, c, s, i, k - 1);
        assert Edge(g, c[k - 1], c[k]);
      }
    }
  }

  lemma {:induction false} SharedMeansSame<T(!new)>(g: Graph<T>, c: seq<T>, d: seq<T>, u: T)
    requires Functional(g) && IsCycle(g, c) && IsCycle(g, d) && u in c && u in d
    ensures Elems(c) == Elems(d)
  {
    CycleClosed(g, c);
    CycleClosed(g, d);
    var i :| 0 <= i < |c| && c[i] == u;
    var j :| 0 <= j < |d| && d[j] == u;
    forall k | 0 <= k < |c| ensures c[k] in Elems(d) { CycleInside(g, c, Elems(d), i, k); }
    forall k | 0 <= k < |d| ensures d[k] in Elems(c) { CycleInside(g, d, Elems(c), j, k); }
  }

  /** Every cycle of the graph is listed exactly once, up to where the listing starts. */
  lemma {:induction false} ListedOnce<T(!new)>(g: Graph<T>, cycles: seq<seq<T>>, c: seq<T>)
    requires Functional(g) && FoundAll(g, cycles) && IsCycle(g, c)
    ensures exists i :: 0 <= i < |cycles| && Elems(cycles[i]) == Elems(c)
    ensures forall i, j ::
      0 <= i < |cycles| && 0 <= j < |cycles| && Elems(cycles[i]) == Elems(c) == Elems(cycles[j]) ==> i == j
  {
    CycleReaches(g, c, 0);
    FoundIff(g, cycles, c[0]);
    var i :| 0 <= i < |cycles| && c[0] in cycles[i];
    SharedMeansSame(g, cycles[i], c, c[0]);
    forall i, j | 0 <= i < |cycles| && 0 <= j < |cycles| && Elems(cycles[i]) == Elems(c) == Elems(cycles[j])
      ensures i == j
    {
      assert c[0] in Elems(c) && c[0] in Elems(cycles[i]) * Elems(cycles[j]);
    }
  }

  // ---- Breaking cycles ----

  /** `h` is `g` with some edges removed. */
  ghost predicate Within<T(!new)>(h: Graph<T>, g: Graph<T>) {
    forall u, v :: Edge(h, u, v) ==> Edge(g, u, v)
  }

  lemma {:induction false} StepsWithin<T(!new)>(h: Graph<T>, g: Graph<T>, u: T, v: T, n: nat)
    requires Within(h, g) && Steps(h, u, v, n)
    ensures Steps(g, u, v, n)
    decreases n
  {
    if n > 0 {
      var w :| Edge(h, u, w) && Steps(h, w, v, n - 1);
      StepsWithin(h, g, w, v, n - 1);
    }
  }

  /** In a functional graph, what a self-waiting task waits for waits for itself as well. */
  lemma {:induction false} CyclicSuccessor<T(!new)>(g: Graph<T>, h: Graph<T>, u: T, v: T)
    requires Functional(g) && Within(h, g) && Reach(h, u, u) && Edge(g, u, v)
    ensures Reach(h, v, v)
  {
    var n: nat :| n >= 1 && Steps(h, u, u, n);
    var w :| Edge(h, u, w) && Steps(h, w, u, n - 1);
    assert Edge(g, u, w) && w == v;
    assert Steps(h, v, v, 0);
    assert Steps(h, u, v, 1);
    StepsTrans(h, v, u, v, n - 1, 1);
  }

  /** Removing one task of a cycle leaves none of its tasks waiting for itself. */
  lemma {:induction false} BrokenAt<T(!new)>(g: Graph<T>, h: Graph<T>, c: seq<T>, i: nat, k: nat)
    requires Functional(g) && Within(h, g) && IsCycle(g, c) && i < |c| && k < |c| && Reach(h, c[i], c[i])
    ensures Reach(h, c[k], c[k])
    decreases if k < i then |c| + k else k
  {
    if k != i {
      var prev := if k == 0 then |c| - 1 else k - 1;
      BrokenAt(g, h, c, i, prev);
      assert Edge(g, c[prev], c[k]);
      CyclicSuccessor(g, h, c[prev], c[k]);
    }
  }

  /** Taking away one task of every listed cycle leaves a graph without cycles. */
  lemma {:induction false} AllBroken<T(!new)>(g: Graph<T>, h: Graph<T>, cycles: seq<seq<T>>, victims: seq<T>)
    requires Functional(g) && Within(h, g) && FoundAll(g, cycles)
    requires |victims| == |cycles| && forall i :: 0 <= i < |cycles| ==> victims[i] in cycles[i] && victims[i] !in h
    ensures Acyclic(h)
  {
    forall u ensures !Reach(h, u, u) {
      if Reach(h, u, u) {
        var n: nat :| n >= 1 && Steps(h, u, u, n);
        StepsWithin(h, g, u, u, n);
        FoundIff(g, cycles, u);
        var i :| 0 <= i < |cycles| && u in cycles[i];
        var c := cycles[i];
        var k :| 0 <= k < |c| && c[k] == u;
        var j :| 0 <= j < |c| && c[j] == victims[i];
        BrokenAt(g, h, c, k, j);
        ReachHasEdge(h, c[j]);
      }
    }
  }

  /** A cycle all of whose edges survive is still a cycle. */
  lemma {:induction false} Unbroken<T(!new)>(g: Graph<T>, h: Graph<T>, c: seq<T>)
    requires IsCycle(g, c) && forall u, v :: u in c && v in c && Edge(g, u, v) ==> Edge(h, u, v)
    ensures !Acyclic(h)
  {
    forall k | 0 <= k < |c| - 1 ensures Edge(h, c[k], c[k + 1]) {
      assert Edge(g, c[k], c[k + 1]);
    }
    assert IsCycle(h, c);
    CycleReaches(h, c, 0);
  }

  lemma {:induction false} ReachHasEdge<T(!new)>(g: Graph<T>, u: T)
    requires Reach(g, u, u)
    ensures u in g
  {
    var n: nat :| n >= 1 && Steps(g, u, u, n);
    var w :| Edge(g, u, w) && Steps(g, w, u, n - 1);
  }
}
