/**
 The linter's reachability rules: steps no entry point leads to, and dependencies on steps that do not exist.
 */
module Reachability {
  import opened Digraph
  import opened Sequences
  import opened Sorting

  // ---- Steps an entry point leads to ----

  /** `u` leads back to a step without dependencies in `n` dependency steps. */
  ghost predicate GroundedIn<T(!new)>(g: Graph<T>, u: T, n: nat) {
    exists r :: r in g && g[r] == [] && Steps(g, u, r, n)
  }

  ghost predicate Grounded<T(!new)>(g: Graph<T>, u: T) {
    u in g && exists n: nat :: GroundedIn(g, u, n)
  }

  lemma {:induction false} RootGrounded<T(!new)>(g: Graph<T>, r: T)
    requires r in g && g[r] == []
    ensures Grounded(g, r)
  {
    assert Steps(g, r, r, 0);
    assert GroundedIn(g, r, 0);
  }

  lemma {:induction false} ChildGrounded<T(!new)>(g: Graph<T>, u: T, d: T)
    requires Edge(g, u, d) && Grounded(g, d)
    ensures Grounded(g, u)
  {
    var n: nat :| GroundedIn(g, d, n);
    var r :| r in g && g[r] == [] && Steps(g, d, r, n);
    assert Steps(g, u, r, n + 1);
    assert GroundedIn(g, u, n + 1);
  }

  /** Holds every entry point, and every step that depends on one of its members. */
  ghost predicate ClosedDown<T(!new)>(g: Graph<T>, s: set<T>) {
    && (forall r :: r in g && g[r] == [] ==> r in s)
    && (forall u, d :: d in s && d in g && Edge(g, u, d) ==> u in s)
  }

  lemma {:induction false} GroundedInside<T(!new)>(g: Graph<T>, s: set<T>, u: T, n: nat)
    requires ClosedDown(g, s) && u in g && GroundedIn(g, u, n)
    ensures u in s
    decreases n
  {
    var r :| r in g && g[r] == [] && Steps(g, u, r, n);
    if n > 0 {
      var d :| Edge(g, u, d) && Steps(g, d, r, n - 1);
      assert d in g by {
        if n > 1 { var x :| Edge(g, d, x) && Steps(g, x, r, n - 2); }
      }
      assert GroundedIn(g, d, n - 1);
      GroundedInside(g, s, d, n - 1);
    }
  }

  /** In a graph without cycles and missing steps every step is grounded. */
  lemma {:induction false} ValidIsGrounded<T(!new)>(g: Graph<T>, u: T)
    requires ValidDag(g) && u in g
    ensures Grounded(g, u)
  {
    var rank := RankExists(g);
    RankGrounded(g, rank, u);
  }

  lemma {:induction false} RankGrounded<T(!new)>(g: Graph<T>, rank: map<T, nat>, u: T)
    requires Ranks(g, rank) && u in g
    ensures Grounded(g, u)
    decreases rank[u]
  {
    if g[u] == [] {
      RootGrounded(g, u);
    } else {
      var d := g[u][0];
      assert Edge(g, u, d);
      RankGrounded(g, rank, d);
      ChildGrounded(g, u, d);
    }
  }

  // ---- The inverted edges ----

  /** `children[d]` lists the steps of `from` that depend on `d`. */
  ghost predicate Inverted<T(!new)>(g: Graph<T>, from: set<T>, children: map<T, seq<T>>) {
    forall d, u :: InvertedAt(g, from, children, d, u)
  }

  ghost predicate InvertedAt<T(!new)>(g: Graph<T>, from: set<T>, children: map<T, seq<T>>, d: T, u: T) {
    u in Children(children, d) <==> d in g && u in from && Edge(g, u, d)
  }

  method Invert<T(==, !new)>(g: Graph<T>) returns (children: map<T, seq<T>>)
    ensures Inverted(g, g.Keys, children)
  {
    children := map[];
    var todo := g.Keys;
    assert forall d, u :: InvertedAt(g, {}, children, d, u);
    while todo != {}
      invariant todo <= g.Keys && Inverted(g, g.Keys - todo, children)
      decreases todo
    {
      var id :| id in todo;
      children := InvertStep(g, children, g.Keys - todo, id);
      assert g.Keys - todo + {id} == g.Keys - (todo - {id});
      todo := todo - {id};
    }
    assert g.Keys - todo == g.Keys;
  }

  /** The dependencies of `id` among the first `n` entries of its list. */
  ghost predicate PartAt<T(!new)>(g: Graph<T>, from: set<T>, id: T, n: nat, children: map<T, seq<T>>, d: T, u: T)
    requires id in g && n <= |g[id]|
  {
    u in Children(children, d) <==> d in g && ((u in from && Edge(g, u, d)) || (u == id && d in g[id][..n]))
  }

  method InvertStep<T(==, !new)>(g: Graph<T>, before: map<T, seq<T>>, ghost from: set<T>, id: T)
    returns (children: map<T, seq<T>>)
    requires id in g && id !in from && Inverted(g, from, before)
    ensures Inverted(g, from + {id}, children)
  {
    children := before;
    var deps := g[id];
    forall d, u ensures PartAt(g, from, id, 0, children, d, u) {
      assert InvertedAt(g, from, before, d, u);
    }
    for i := 0 to |deps|
      invariant forall d, u :: PartAt(g, from, id, i, children, d, u)
    {
      ghost var was := children;
      if deps[i] in g {
        children := children[deps[i] := Children(children, deps[i]) + [id]];
      }
      ghost var n := i + 1;
      forall d, u ensures PartAt(g, from, id, n, children, d, u) {
        assert PartAt(g, from, id, i, was, d, u);
        PartStep(g, from, id, i, was, children, d, u);
      }
    }
    forall d, u ensures InvertedAt(g, from + {id}, children, d, u) {
      assert PartAt(g, from, id, |deps|, children, d, u);
      assert deps[..|deps|] == deps;
    }
  }

  lemma {:induction false} PartStep<T(!new)>(
      g: Graph<T>, from: set<T>, id: T, i: nat, was: map<T, seq<T>>, children: map<T, seq<T>>, d: T, u: T)
    requires id in g && i < |g[id]| && PartAt(g, from, id, i, was, d, u)
    requires children == if g[id][i] in g then was[g[id][i] := Children(was, g[id][i]) + [id]] else was
    ensures PartAt(g, from, id, i + 1, children, d, u)
  {
    assert g[id][..i + 1] == g[id][..i] + [g[id][i]];
  }

  // ---- Breadth-first search ----

  /** `visited` is grounded, and what is not queued any more has passed its mark on. */
  ghost predicate Wave<T(!new)>(g: Graph<T>, visited: set<T>, queue: seq<T>) {
    && (forall u :: u in visited ==> Grounded(g, u))
    && (forall u :: u in queue ==> u in visited)
    && (forall r :: r in g && g[r] == [] ==> r in visited)
    && (forall u, d :: d in visited && d !in queue && d in g && Edge(g, u, d) ==> u in visited)
  }

  method Roots<T(==, !new)>(g: Graph<T>) returns (queue: seq<T>, visited: set<T>)
    ensures forall u :: u in visited <==> u in g && g[u] == []
    ensures forall u :: u in queue <==> u in visited
  {
    queue, visited := [], {};
    var todo := g.Keys;
    while todo != {}
      invariant todo <= g.Keys
      invariant forall u :: u in visited <==> u in g && u !in todo && g[u] == []
      invariant forall u :: u in queue <==> u in visited
      decreases todo
    {
      var id :| id in todo;
      if |g[id]| == 0 {
        queue := queue + [id];
        visited := visited + {id};
      }
      todo := todo - {id};
    }
  }

  lemma {:induction false} RootWave<T(!new)>(g: Graph<T>, visited: set<T>, queue: seq<T>)
    requires forall u :: u in visited <==> u in g && g[u] == []
    requires forall u :: u in queue <==> u in visited
    ensures Wave(g, visited, queue)
  {
    forall u | u in visited ensures Grounded(g, u) { RootGrounded(g, u); }
  }

  /** The queue loop: everything it marks is grounded, and everything grounded is marked. */
  method Spread<T(==, !new)>(g: Graph<T>, children: map<T, seq<T>>) returns (visited: set<T>)
    requires Inverted(g, g.Keys, children)
    ensures forall u :: u in visited <==> Grounded(g, u)
  {
    var queue;
    queue, visited := Roots(g);
    RootWave(g, visited, queue);
    while |queue| > 0
      invariant Wave(g, visited, queue)
      decreases g.Keys - visited, |queue|
    {
      var curr := queue[0];
      queue, visited := Visit(g, children, curr, queue[1..], visited);
    }
    forall u ensures u in visited <==> Grounded(g, u) {
      if Grounded(g, u) {
        var n: nat :| GroundedIn(g, u, n);
        GroundedInside(g, visited, u, n);
      }
    }
  }

  /** Marks and queues the unmarked children of `curr`. */
  method Visit<T(==, !new)>(g: Graph<T>, children: map<T, seq<T>>, curr: T, rest: seq<T>, before: set<T>)
    returns (queue: seq<T>, visited: set<T>)
    requires Inverted(g, g.Keys, children) && Wave(g, before, [curr] + rest)
    ensures Wave(g, visited, queue) && before <= visited && (visited == before ==> queue == rest)
  {
    queue, visited := rest, before;
    var next := Children(children, curr);
    assert curr in [curr] + rest;
    for i := 0 to |next|
      invariant before <= visited && (visited == before ==> queue == rest)
      invariant forall j :: 0 <= j < i ==> next[j] in visited
      invariant forall u :: u in queue <==> u in rest || (u in visited && u !in before)
      invariant forall u :: u in visited && u !in before ==> u in next[..i]
    {
      assert next[..i + 1] == next[..i] + [next[i]];
      if next[i] !in visited {
        visited := visited + {next[i]};
        queue := queue + [next[i]];
      }
    }
    WaveOn(g, children, curr, rest, before, queue, visited);
  }

  lemma {:induction false} WaveOn<T(!new)>(
      g: Graph<T>, children: map<T, seq<T>>, curr: T, rest: seq<T>, before: set<T>, queue: seq<T>, visited: set<T>)
    requires Inverted(g, g.Keys, children) && Wave(g, before, [curr] + rest) && before <= visited
    requires forall u :: u in Children(children, curr) ==> u in visited
    requires forall u :: u in queue <==> u in rest || (u in visited && u !in before)
    requires forall u :: u in visited && u !in before ==> u in Children(children, curr)
    ensures Wave(g, visited, queue)
  {
    assert curr in [curr] + rest;
    forall u | u in visited ensures Grounded(g, u) {
      if u !in before {
        assert InvertedAt(g, g.Keys, children, curr, u);
        ChildGrounded(g, u, curr);
      }
    }
    forall u | u in queue ensures u in visited {
      if u in rest { assert u in [curr] + rest; }
    }
    forall u, d | d in visited && d !in queue && d in g && Edge(g, u, d) ensures u in visited {
      if d == curr {
        assert InvertedAt(g, g.Keys, children, curr, u);
      } else {
        assert d in before && d !in [curr] + rest;
      }
    }
  }

  /** Reports once, in order of id, exactly the steps that no entry point leads to. */
  method FindUnreachable<T(==, !new)>(less: (T, T) -> bool, g: Graph<T>) returns (ids: seq<T>)
    requires StrictWeakOrder(less)
    ensures forall u :: u in ids <==> u in g && !Grounded(g, u)
    ensures Ordered(less, ids) && Distinct(ids)
    ensures ValidDag(g) ==> ids == []
  {
    if |g| == 0 {
      return [];
    }
    var children := Invert(g);
    var visited := Spread(g, children);
    var found: seq<T> := [];
    var todo := g.Keys;
    while todo != {}
      invariant todo <= g.Keys && Distinct(found)
      invariant forall u :: u in found <==> u in g && u !in todo && u !in visited
      decreases todo
    {
      var id :| id in todo;
      if id !in visited {
        found := found + [id];
      }
      todo := todo - {id};
    }
    ids := SortBy(less, found);
    SameElements(ids, found);
    DistinctPermutation(found, ids);
    SortOrdered(less, found);
    if ValidDag(g) {
      forall u | u in g ensures Grounded(g, u) { ValidIsGrounded(g, u); }
      if ids != [] { assert ids[0] in ids; }
    }
  }

  // ---- Missing dependencies ----

  datatype Missing<T> = Missing(step: T, dep: T)

  /** Reports are sorted by step, those of one step by their message. */
  predicate ReportedBefore<T(==)>(less: (T, T) -> bool, text: Missing<T> -> string, a: Missing<T>, b: Missing<T>) {
    if a.step != b.step then less(a.step, b.step) else Less(text(a), text(b))
  }

  lemma {:induction false} ReportOrder<T(!new)>(less: (T, T) -> bool, text: Missing<T> -> string)
    requires TotalOrder(less)
    ensures StrictWeakOrder((a, b) => ReportedBefore(less, text, a, b))
  {
    LessIsOrder();
    var before := (a, b) => ReportedBefore(less, text, a, b);
    forall x, y, z | before(x, y) && before(y, z) ensures before(x, z) { }
    forall x, y, z | before(x, z) ensures before(x, y) || before(y, z) { }
  }

  /** How often a dependency that does not exist is listed. */
  ghost function Dangling<T(!new)>(g: Graph<T>, m: Missing<T>): nat {
    if m.step in g && m.dep !in g then multiset(g[m.step])[m.dep] else 0
  }

  /** Reports every listing of a dependency that does not exist, and nothing else, in order. */
  method FindMissing<T(==, !new)>(less: (T, T) -> bool, text: Missing<T> -> string, g: Graph<T>)
    returns (diags: seq<Missing<T>>)
    requires TotalOrder(less)
    ensures forall m :: multiset(diags)[m] == Dangling(g, m)
    ensures forall m :: m in diags <==> Edge(g, m.step, m.dep) && m.dep !in g
    ensures diags == [] <==> NoDangling(g)
    ensures Ordered((a, b) => ReportedBefore(less, text, a, b), diags)
  {
    var found: seq<Missing<T>> := [];
    var todo := g.Keys;
    while todo != {}
      invariant todo <= g.Keys
      invariant forall m :: multiset(found)[m] == if m.step in todo then 0 else Dangling(g, m)
      decreases todo
    {
      var id :| id in todo;
      var more := MissingOf(g, id);
      found := found + more;
      todo := todo - {id};
    }
    diags := SortBy((a, b) => ReportedBefore(less, text, a, b), found);
    ReportOrder(less, text);
    SortOrdered((a, b) => ReportedBefore(less, text, a, b), found);
    DanglingIff(g, diags);
  }

  lemma {:induction false} DanglingIff<T(!new)>(g: Graph<T>, diags: seq<Missing<T>>)
    requires forall m :: multiset(diags)[m] == Dangling(g, m)
    ensures forall m :: m in diags <==> Edge(g, m.step, m.dep) && m.dep !in g
    ensures diags == [] <==> NoDangling(g)
  {
    forall m ensures m in diags <==> Edge(g, m.step, m.dep) && m.dep !in g {
      assert m in diags <==> m in multiset(diags);
      assert m.step in g ==> (m.dep in g[m.step] <==> m.dep in multiset(g[m.step]));
    }
    if diags == [] {
      forall u, v | Edge(g, u, v) ensures v in g { assert Missing(u, v) !in diags; }
    } else {
      assert diags[0] in diags;
    }
  }

  method MissingOf<T(==, !new)>(g: Graph<T>, id: T) returns (diags: seq<Missing<T>>)
    requires id in g
    ensures forall m :: multiset(diags)[m] == if m.step == id then Dangling(g, m) else 0
  {
    diags := [];
    var deps := g[id];
    for i := 0 to |deps|
      invariant forall m ::
        multiset(diags)[m] == if m.step == id && m.dep !in g then multiset(deps[..i])[m.dep] else 0
    {
      assert deps[..i + 1] == deps[..i] + [deps[i]];
      if deps[i] !in g {
        diags := diags + [Missing(id, deps[i])];
      }
    }
    assert deps[..|deps|] == deps;
  }

  /** A workflow the cycle rule and the missing rule both pass has no unreachable step. */
  lemma {:induction false} CleanMeansReachable<T(!new)>(g: Graph<T>)
    requires Acyclic(g) && NoDangling(g)
    ensures forall u :: u in g ==> Grounded(g, u)
  {
    forall u | u in g ensures Grounded(g, u) { ValidIsGrounded(g, u); }
  }
}
