/**
 Finite directed graphs given as dependency lists: `g[u]` lists what `u` depends on.
 Shared by the graph mutator, the deadlock detector and the workflow analyzer.
 */
module Digraph {
  import opened Sequences

  type Graph<T> = map<T, seq<T>>

  predicate Edge<T(==)>(g: Graph<T>, u: T, v: T) {
    u in g && v in g[u]
  }

  /** The nodes listed for `d` in a table of inverted edges. */
  function Children<T(==)>(inverted: map<T, seq<T>>, d: T): seq<T> {
    if d in inverted then inverted[d] else []
  }

  ghost predicate NoDangling<T(!new)>(g: Graph<T>) {
    forall u, v :: Edge(g, u, v) ==> v in g
  }

  /** `v` can be reached from `u` along exactly `n` edges. */
  ghost predicate Steps<T(!new)>(g: Graph<T>, u: T, v: T, n: nat)
    decreases n
  {
    if n == 0 then u == v else exists w :: Edge(g, u, w) && Steps(g, w, v, n - 1)
  }

  /** `u` depends, directly or transitively, on `v`: `v` runs before `u`. */
  ghost predicate Reach<T(!new)>(g: Graph<T>, u: T, v: T) {
    exists n: nat :: n >= 1 && Steps(g, u, v, n)
  }

  ghost predicate Acyclic<T(!new)>(g: Graph<T>) {
    forall u :: !Reach(g, u, u)
  }

  ghost predicate ValidDag<T(!new)>(g: Graph<T>) {
    NoDangling(g) && Acyclic(g)
  }

  /** A listed walk: consecutive entries are edges. */
  ghost predicate Walk<T(!new)>(g: Graph<T>, p: seq<T>) {
    |p| >= 1 && (|p| == 1 || (Edge(g, p[0], p[1]) && Walk(g, p[1..])))
  }

  lemma {:induction false} ReachEdge<T(!new)>(g: Graph<T>, u: T, v: T)
    requires Edge(g, u, v)
    ensures Reach(g, u, v)
  {
    assert Steps(g, v, v, 0);
    assert Steps(g, u, v, 1);
  }

  lemma {:induction false} StepsTrans<T(!new)>(g: Graph<T>, u: T, v: T, w: T, m: nat, n: nat)
    requires Steps(g, u, v, m) && Steps(g, v, w, n)
    ensures Steps(g, u, w, m + n)
    decreases m
  {
    if m > 0 {
      var x :| Edge(g, u, x) && Steps(g, x, v, m - 1);
      StepsTrans(g, x, v, w, m - 1, n);
      assert Steps(g, x, w, m + n - 1);
    }
  }

  lemma {:induction false} ReachTrans<T(!new)>(g: Graph<T>, u: T, v: T, w: T)
    requires Reach(g, u, v) && Reach(g, v, w)
    ensures Reach(g, u, w)
  {
    var m: nat :| m >= 1 && Steps(g, u, v, m);
    var n: nat :| n >= 1 && Steps(g, v, w, n);
    StepsTrans(g, u, v, w, m, n);
  }

  lemma {:induction false} WalkReach<T(!new)>(g: Graph<T>, p: seq<T>)
    requires Walk(g, p) && |p| >= 2
    ensures Reach(g, p[0], p[|p| - 1])
  {
    ReachEdge(g, p[0], p[1]);
    if |p| > 2 {
      WalkReach(g, p[1..]);
      ReachTrans(g, p[0], p[1], p[|p| - 1]);
    }
  }

  lemma {:induction false} WalkSnoc<T(!new)>(g: Graph<T>, p: seq<T>, v: T)
    requires Walk(g, p) && Edge(g, p[|p| - 1], v)
    ensures Walk(g, p + [v])
  {
    if |p| == 1 {
      assert (p + [v])[1..] == [v];
    } else {
      WalkSnoc(g, p[1..], v);
      assert (p + [v])[1..] == p[1..] + [v];
    }
  }

  lemma {:induction false} WalkDrop<T(!new)>(g: Graph<T>, p: seq<T>, k: nat)
    requires Walk(g, p) && k < |p|
    ensures Walk(g, p[k..])
  {
    if k > 0 {
      WalkDrop(g, p[1..], k - 1);
      assert p[1..][k - 1..] == p[k..];
    }
  }

  ghost predicate CanStay<T(!new)>(g: Graph<T>, s: set<T>, u: T) {
    exists v :: v in s && Edge(g, u, v)
  }

  ghost function Successor<T(!new)>(g: Graph<T>, s: set<T>, u: T): (v: T)
    requires CanStay(g, s, u)
    ensures v in s && Edge(g, u, v)
  {
    var v :| v in s && Edge(g, u, v); v
  }

  /** In a finite graph a set of nodes that can always be left along an edge into itself holds a cycle. */
  lemma {:induction false} EndlessSetHasCycle<T(!new)>(g: Graph<T>, s: set<T>)
    requires s != {}
    requires forall u {:trigger CanStay(g, s, u)} :: u in s ==> CanStay(g, s, u)
    ensures !Acyclic(g)
  {
    var next := map u | u in s :: Successor(g, s, u);
    var u :| u in s;
    GrowWalk(g, s, next, [u]);
  }

  /** An edge from the end of a walk back onto the walk closes a cycle. */
  lemma {:induction false} ClosedWalkIsCycle<T(!new)>(g: Graph<T>, p: seq<T>, v: T)
    requires Walk(g, p) && v in p && Edge(g, p[|p| - 1], v)
    ensures Reach(g, v, v)
  {
    var i :| 0 <= i < |p| && p[i] == v;
    WalkDrop(g, p, i);
    WalkSnoc(g, p[i..], v);
    WalkReach(g, p[i..] + [v]);
  }

  lemma {:induction false} GrowWalk<T(!new)>(g: Graph<T>, s: set<T>, next: map<T, T>, p: seq<T>)
    requires Walk(g, p) && Distinct(p) && forall i :: 0 <= i < |p| ==> p[i] in s
    requires next.Keys == s
    requires forall u {:trigger next[u]} :: u in next ==> next[u] in s && Edge(g, u, next[u])
    ensures !Acyclic(g)
    decreases |s| - |p|
  {
    var v := next[p[|p| - 1]];
    if v in p {
      ClosedWalkIsCycle(g, p, v);
    } else {
      WalkSnoc(g, p, v);
      DistinctBound(p + [v], s);
      GrowWalk(g, s, next, p + [v]);
    }
  }

  ghost predicate Ranks<T(!new)>(g: Graph<T>, rank: map<T, nat>) {
    rank.Keys == g.Keys && forall u, v :: Edge(g, u, v) ==> v in g && rank[v] < rank[u]
  }

  /** Acyclicity gives every node a height above its dependencies: the basis for induction on a DAG. */
  lemma {:induction false} RankExists<T(!new)>(g: Graph<T>) returns (rank: map<T, nat>)
    requires ValidDag(g)
    ensures Ranks(g, rank) && forall u :: u in rank ==> rank[u] < |g|
  {
    rank := map[];
    var todo := g.Keys;
    while todo != {}
      invariant todo <= g.Keys && rank.Keys == g.Keys - todo
      invariant forall u :: u in rank ==> rank[u] < |rank|
      invariant forall u, v :: u in rank && Edge(g, u, v) ==> v in rank && rank[v] < rank[u]
      decreases todo
    {
      if forall u {:trigger CanStay(g, todo, u)} :: u in todo ==> CanStay(g, todo, u) {
        EndlessSetHasCycle(g, todo);
      }
      var u :| u in todo && !CanStay(g, todo, u);
      rank := rank[u := |rank|];
      todo := todo - {u};
    }
    assert |rank.Keys| == |g.Keys|;
  }

  lemma {:induction false} StepsDescend<T(!new)>(g: Graph<T>, rank: map<T, nat>, u: T, v: T, n: nat)
    requires Ranks(g, rank) && Steps(g, u, v, n) && n >= 1
    ensures u in g && v in g && rank[v] < rank[u]
    decreases n
  {
    var w :| Edge(g, u, w) && Steps(g, w, v, n - 1);
    if n > 1 {
      StepsDescend(g, rank, w, v, n - 1);
    }
  }

  /** A ranking is also enough: it refutes every cycle. */
  lemma {:induction false} RankedIsValid<T(!new)>(g: Graph<T>, rank: map<T, nat>)
    requires Ranks(g, rank)
    ensures ValidDag(g)
  {
    forall u ensures !Reach(g, u, u) {
      if Reach(g, u, u) {
        var n: nat :| n >= 1 && Steps(g, u, u, n);
        StepsDescend(g, rank, u, u, n);
      }
    }
  }
}
