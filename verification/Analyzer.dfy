/**
 The workflow linter's cycle rule: circular dependencies by three-colour depth-first search.
 */
module Analyzer {
  import opened Digraph
  import opened Sequences
  import opened Sorting

  datatype Color = White | Gray | Black

  /** What the cycle rule reports: a step that names itself, or a path that ends where it starts. */
  datatype CycleReport<T> = SelfLoop(step: T) | Circle(step: T, path: seq<T>)

  /** The report is true of the graph, and its path visits no other step twice. */
  ghost predicate RealCycle<T(!new)>(g: Graph<T>, r: CycleReport<T>) {
    match r
    case SelfLoop(u) => Edge(g, u, u)
    case Circle(u, p) =>
      && |p| >= 2 && Walk(g, p) && p[0] == p[|p| - 1] && p[|p| - 2] == u
      && Distinct(p[..|p| - 1])
  }

  lemma {:induction false} RealCycleReaches<T(!new)>(g: Graph<T>, r: CycleReport<T>)
    requires RealCycle(g, r)
    ensures !Acyclic(g)
  {
    match r
    case SelfLoop(u) => ReachEdge(g, u, u);
    case Circle(u, p) => WalkReach(g, p);
  }

  // ---- Finishing order ----

  /** What a finished step depends on, as far as it exists, finished before it. */
  ghost predicate FinishedInOrder<T(!new)>(g: Graph<T>, f: seq<T>) {
    forall i :: 0 <= i < |f| ==> Follows(g, f[..i], f[i])
  }

  ghost predicate Follows<T(!new)>(g: Graph<T>, done: seq<T>, u: T) {
    forall v :: Edge(g, u, v) && v in g ==> v in done
  }

  lemma {:induction false} OrderDescends<T(!new)>(g: Graph<T>, f: seq<T>, u: T, v: T, n: nat, i: nat)
    requires FinishedInOrder(g, f) && Steps(g, u, v, n) && n >= 1 && v in g && i < |f| && f[i] == u
    ensures v in f[..i]
    decreases n
  {
    var w :| Edge(g, u, w) && Steps(g, w, v, n - 1);
    if n == 1 {
      assert Follows(g, f[..i], f[i]);
    } else {
      assert w in g by { var x :| Edge(g, w, x) && Steps(g, x, v, n - 2); }
      assert Follows(g, f[..i], f[i]);
      var j :| 0 <= j < i && f[j] == w;
      OrderDescends(g, f, w, v, n - 1, j);
      assert f[..j] <= f[..i];
    }
  }

  /** If every step finished without a report, there is no cycle. */
  lemma {:induction false} FinishedAcyclic<T(!new)>(g: Graph<T>, f: seq<T>)
    requires FinishedInOrder(g, f) && Distinct(f) && forall u :: u in g ==> u in f
    ensures Acyclic(g)
  {
    forall u ensures !Reach(g, u, u) {
      if Reach(g, u, u) {
        var n: nat :| n >= 1 && Steps(g, u, u, n);
        var w :| Edge(g, u, w) && Steps(g, w, u, n - 1);
        var i :| 0 <= i < |f| && f[i] == u;
        OrderDescends(g, f, u, u, n, i);
        assert false;
      }
    }
  }

  lemma {:induction false} FinishMore<T(!new)>(g: Graph<T>, f: seq<T>, u: T)
    requires FinishedInOrder(g, f) && Follows(g, f, u)
    ensures FinishedInOrder(g, f + [u])
  {
    var more := f + [u];
    forall i | 0 <= i < |more| ensures Follows(g, more[..i], more[i]) {
      assert more[..i] == if i < |f| then f[..i] else f;
    }
  }

  ghost predicate Kept<T(!new)>(before: seq<T>, after: seq<T>) {
    forall u :: u in before ==> u in after
  }

  lemma {:induction false} KeptOn<T(!new)>(a: seq<T>, b: seq<T>, c: seq<T>)
    requires Kept(a, b) && Kept(b, c)
    ensures Kept(a, c)
  {
  }

  /** The first `i` entries of `deps` that exist are done. */
  ghost predicate FollowsSome<T(!new)>(g: Graph<T>, deps: seq<T>, i: nat, done: seq<T>) {
    forall j :: 0 <= j < i && j < |deps| && deps[j] in g ==> deps[j] in done
  }

  lemma {:induction false} FollowsMore<T(!new)>(g: Graph<T>, deps: seq<T>, i: nat, before: seq<T>, done: seq<T>)
    requires i < |deps| && FollowsSome(g, deps, i, before) && Kept(before, done) && (deps[i] in g ==> deps[i] in done)
    ensures FollowsSome(g, deps, i + 1, done)
  {
  }

  // ---- The circle a back edge closes ----

  lemma {:induction false} BackEdge<T(!new)>(g: Graph<T>, path: seq<T>, v: T, start: nat)
    requires Walk(g, path) && Distinct(path) && start < |path| && path[start] == v && Edge(g, path[|path| - 1], v)
    ensures RealCycle(g, Circle(path[|path| - 1], path[start..] + [v]))
  {
    var p := path[start..] + [v];
    WalkDrop(g, path, start);
    WalkSnoc(g, path[start..], v);
    assert p[..|p| - 1] == path[start..];
  }

  // ---- The search ----

  /** Gray steps are those on the path, black ones those that have finished. */
  ghost predicate Tracked<T(!new)>(g: Graph<T>, colors: map<T, Color>, path: seq<T>, finished: seq<T>) {
    && colors.Keys == g.Keys
    && (forall u :: u in path <==> u in g && colors[u] == Gray)
    && (forall u :: u in finished <==> u in g && colors[u] == Black)
    && Distinct(path) && Distinct(finished)
  }

  lemma {:induction false} TrackedEnter<T(!new)>(
      g: Graph<T>, colors: map<T, Color>, path: seq<T>, finished: seq<T>, u: T)
    requires Tracked(g, colors, path, finished) && u in g && colors[u] == White
    ensures Tracked(g, colors[u := Gray], path + [u], finished)
  {
    forall x ensures x in path + [u] <==> x in g && colors[u := Gray][x] == Gray {
      assert x in path + [u] <==> x in path || x == u;
    }
  }

  lemma {:induction false} TrackedLeave<T(!new)>(
      g: Graph<T>, colors: map<T, Color>, rest: seq<T>, u: T, finished: seq<T>)
    requires Tracked(g, colors, rest + [u], finished)
    ensures Tracked(g, colors[u := Black], rest, finished + [u])
  {
    var path := rest + [u];
    assert path[|rest|] == u && u in path;
    assert u !in rest && Distinct(rest) by {
      forall i, j | 0 <= i < j < |path| ensures path[i] != path[j] {}
      assert forall i :: 0 <= i < |rest| ==> rest[i] == path[i];
    }
    forall x ensures x in rest <==> x in g && colors[u := Black][x] == Gray {
      assert x in path <==> x in rest || x == u;
    }
    forall x ensures x in finished + [u] <==> x in g && colors[u := Black][x] == Black {
      assert x in finished + [u] <==> x in finished || x == u;
    }
  }

  /** The variables of the search closure; `name` and `selfName` are the strings reports are told apart by. */
  class CycleSearch<T(==, !new), K(==, !new)> {
    const g: Graph<T>
    const name: seq<T> -> K
    const selfName: T -> K
    var colors: map<T, Color>
    var path: seq<T>
    var detected: set<K>
    var diags: seq<CycleReport<T>>
    ghost var finished: seq<T>

    ghost predicate Valid()
      reads this
    {
      && Tracked(g, colors, path, finished)
      && (path != [] ==> Walk(g, path))
      && (detected != {} ==> diags != [])
      && (forall i :: 0 <= i < |diags| ==> RealCycle(g, diags[i]))
      && (diags == [] ==> FinishedInOrder(g, finished))
    }

    ghost function Unvisited(): set<T>
      reads this
    {
      Whites(colors)
    }

    constructor (g: Graph<T>, name: seq<T> -> K, selfName: T -> K)
      ensures Valid() && this.g == g && path == [] && diags == [] && Unvisited() == g.Keys
    {
      this.g, this.name, this.selfName := g, name, selfName;
      colors := map u | u in g :: White;
      path, detected, diags, finished := [], {}, [], [];
    }

    /** Explores everything `u` depends on that has not been explored. */
    method Dfs(u: T)
      requires Valid() && u in g && colors[u] == White && (path != [] ==> Edge(g, path[|path| - 1], u))
      modifies this
      ensures Valid() && path == old(path) && u in finished && Unvisited() <= old(Unvisited()) - {u}
      ensures |diags| >= |old(diags)|
      ensures Kept(old(finished), finished)
      decreases Unvisited(), 1
    {
      Enter(u);
      Explore(u);
      Leave(u);
    }

    /** The loop over the dependencies of the step at the end of the path. */
    method Explore(u: T)
      requires Valid() && path != [] && path[|path| - 1] == u
      modifies this
      ensures Valid() && path == old(path) && Unvisited() <= old(Unvisited()) && |diags| >= |old(diags)|
      ensures Kept(old(finished), finished) && (diags == [] ==> Follows(g, finished, u))
      decreases Unvisited(), 3
    {
      assert u in g by { assert u in path; }
      var deps := g[u];
      var i := 0;
      while i < |deps|
        invariant 0 <= i <= |deps| && Valid() && path == old(path)
        invariant Unvisited() <= old(Unvisited()) && |diags| >= |old(diags)| && Kept(old(finished), finished)
        invariant diags == [] ==> FollowsSome(g, deps, i, finished)
        decreases |deps| - i
      {
        assert deps[i] in g[u];
        ghost var before := finished;
        Look(u, deps[i]);
        KeptOn(old(finished), before, finished);
        if diags == [] { FollowsMore(g, deps, i, before, finished); }
        i := i + 1;
      }
    }

    method Enter(u: T)
      requires Valid() && u in g && colors[u] == White && (path != [] ==> Edge(g, path[|path| - 1], u))
      modifies this`colors, this`path
      ensures Valid() && path == old(path) + [u] && Unvisited() == old(Unvisited()) - {u}
    {
      if path != [] { WalkSnoc(g, path, u); }
      TrackedEnter(g, colors, path, finished, u);
      colors := colors[u := Gray];
      path := path + [u];
    }

    /** One dependency of `u`. */
    method Look(u: T, v: T)
      requires Valid() && path != [] && path[|path| - 1] == u && Edge(g, u, v)
      modifies this
      ensures Valid() && path == old(path) && Unvisited() <= old(Unvisited()) && |diags| >= |old(diags)|
      ensures Kept(old(finished), finished)
      ensures diags == [] && v in g ==> v in finished
      decreases Unvisited(), 2
    {
      if v !in g {
        return;
      }
      if v == u {
        Report(selfName(u), SelfLoop(u));
        return;
      }
      if colors[v] == Gray {
        CloseCircle(u, v);
      } else if colors[v] == White {
        Dfs(v);
      }
    }

    /** A back edge: `v` is on the path. */
    method CloseCircle(u: T, v: T)
      requires Valid() && path != [] && path[|path| - 1] == u && Edge(g, u, v) && v in path
      modifies this`detected, this`diags
      ensures Valid() && diags != [] && |diags| >= |old(diags)|
    {
      var start := FirstIndex(path, v);
      if start >= 0 {
        BackEdge(g, path, v, start);
        var circle := path[start..] + [v];
        Report(name(circle), Circle(u, circle));
      }
    }

    method Report(key: K, r: CycleReport<T>)
      requires Valid() && RealCycle(g, r)
      modifies this`detected, this`diags
      ensures Valid() && diags != [] && |diags| >= |old(diags)|
    {
      if key !in detected {
        detected := detected + {key};
        diags := diags + [r];
      }
    }

    method Leave(u: T)
      requires Valid() && path != [] && path[|path| - 1] == u
      requires diags == [] ==> Follows(g, finished, u)
      modifies this`colors, this`path, this`finished
      ensures Valid() && path == old(path)[..|old(path)| - 1] && Unvisited() == old(Unvisited())
      ensures finished == old(finished) + [u]
    {
      if diags == [] { FinishMore(g, finished, u); }
      var rest := path[..|path| - 1];
      if |path| > 1 { WalkTake(g, path); }
      assert path == rest + [u];
      TrackedLeave(g, colors, rest, u, finished);
      SameWhites(colors, u);
      path := rest;
      colors := colors[u := Black];
      finished := finished + [u];
    }
  }

  ghost function Whites<T(!new)>(colors: map<T, Color>): set<T> {
    set u | u in colors && colors[u] == White
  }

  lemma {:induction false} SameWhites<T(!new)>(colors: map<T, Color>, u: T)
    requires u in colors && colors[u] != White
    ensures Whites(colors[u := Black]) == Whites(colors)
  {
  }

  lemma {:induction false} WalkTake<T(!new)>(g: Graph<T>, path: seq<T>)
    requires Walk(g, path) && |path| > 1
    ensures Walk(g, path[..|path| - 1])
  {
    if |path| > 2 {
      WalkTake(g, path[1..]);
      assert path[..|path| - 1][1..] == path[1..][..|path| - 2];
    }
  }

  method FirstIndex<T(==)>(path: seq<T>, v: T) returns (start: int)
    ensures v in path ==> 0 <= start < |path| && path[start] == v && v !in path[..start]
    ensures v !in path ==> start == -1
  {
    start := 0;
    while start < |path| && path[start] != v
      invariant 0 <= start <= |path| && v !in path[..start]
    {
      start := start + 1;
    }
    if start == |path| {
      return -1;
    }
  }

  /** Reports nothing exactly when the dependencies are acyclic, and every report is a real cycle. */
  method FindCycles<T(==, !new), K(==, !new)>(less: (T, T) -> bool, g: Graph<T>, name: seq<T> -> K, selfName: T -> K)
    returns (diags: seq<CycleReport<T>>)
    ensures diags == [] <==> Acyclic(g)
    ensures forall i :: 0 <= i < |diags| ==> RealCycle(g, diags[i])
  {
    var search := new CycleSearch(g, name, selfName);
    var keys := Keys(g);
    var ids := SortBy(less, keys);
    SameElements(ids, keys);
    SearchFrom(search, ids);
    diags := search.diags;
    if diags == [] {
      FinishedAcyclic(g, search.finished);
    } else {
      RealCycleReaches(g, diags[0]);
    }
  }

  /** The loop over the step ids. */
  method SearchFrom<T(==, !new), K(==, !new)>(search: CycleSearch<T, K>, ids: seq<T>)
    requires search.Valid() && search.path == [] && forall u :: u in ids ==> u in search.g
    modifies search
    ensures search.Valid() && forall u :: u in ids ==> u in search.finished
  {
    for i := 0 to |ids|
      invariant search.Valid() && search.path == []
      invariant forall j :: 0 <= j < i ==> ids[j] in search.finished
    {
      assert ids[i] in ids;
      if search.colors[ids[i]] == White {
        search.Dfs(ids[i]);
      }
    }
  }

  method Keys<T(==, !new)>(g: Graph<T>) returns (ids: seq<T>)
    ensures forall u :: u in ids <==> u in g
  {
    ids := [];
    var todo := g.Keys;
    while todo != {}
      invariant todo <= g.Keys && forall u :: u in ids <==> u in g && u !in todo
      decreases todo
    {
      var u :| u in todo;
      ids := ids + [u];
      todo := todo - {u};
    }
  }
}
