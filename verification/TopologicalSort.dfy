/**
 Kahn's algorithm of the graph mutator: in-degrees with multiplicity, a worklist kept sorted.
 */
module TopologicalSort {
  import opened Digraph
  import opened Sequences
  import opened Sorting

  datatype SortError = DanglingEdge | CycleDetected
  datatype SortResult<T> = Order(ids: seq<T>) | Failed(error: SortError)

  /** A valid execution order: every node once, after everything it depends on. */
  ghost predicate IsOrder<T(!new)>(g: Graph<T>, o: seq<T>) {
    && Distinct(o)
    && (forall u :: u in g <==> u in o)
    && forall k :: 0 <= k < |o| ==> Available(g, o[..k], o[k])
  }

  /** All dependencies of `u` are in `done`. */
  ghost predicate Available<T(!new)>(g: Graph<T>, done: seq<T>, u: T) {
    u in g && forall d :: d in g[u] ==> d in done
  }

  /** `x` comes no later than `y` in the lexicographic order of sequences of ids. */
  ghost predicate LexLe<T(!new)>(less: (T, T) -> bool, x: seq<T>, y: seq<T>) {
    x == y || exists k :: 0 <= k < |x| && k < |y| && x[..k] == y[..k] && less(x[k], y[k])
  }

  /** Each entry is the least id available at its turn. */
  ghost predicate Greedy<T(!new)>(less: (T, T) -> bool, g: Graph<T>, s: seq<T>) {
    forall k :: 0 <= k < |s| ==>
      Available(g, s[..k], s[k]) && LeastAvailable(less, g, s[..k], s[k])
  }

  ghost predicate LeastAvailable<T(!new)>(less: (T, T) -> bool, g: Graph<T>, done: seq<T>, u: T) {
    forall x :: x !in done && Available(g, done, x) ==> !less(x, u)
  }

  // ---- Counting unmet dependencies ----

  /** Positions of `s` whose entry is not in `done`. */
  ghost function Missing<T(!new)>(s: seq<T>, done: seq<T>): nat {
    if s == [] then 0 else (if s[0] in done then 0 else 1) + Missing(s[1..], done)
  }

  lemma {:induction false} MissingZero<T(!new)>(s: seq<T>, done: seq<T>)
    ensures Missing(s, done) == 0 <==> forall d :: d in s ==> d in done
  {
    if s != [] {
      MissingZero(s[1..], done);
      assert forall d :: d in s <==> d == s[0] || d in s[1..];
    }
  }

  lemma {:induction false} MissingNone<T(!new)>(s: seq<T>)
    ensures Missing(s, []) == |s|
  {
    if s != [] {
      MissingNone(s[1..]);
    }
  }

  lemma {:induction false} MissingStep<T(!new)>(s: seq<T>, done: seq<T>, c: T)
    requires c !in done
    ensures Missing(s, done) == Missing(s, done + [c]) + multiset(s)[c]
  {
    if s != [] {
      MissingStep(s[1..], done, c);
      assert s == [s[0]] + s[1..];
    }
  }

  // ---- The two passes over the edges ----

  /** `dependents` inverts the edges that leave the nodes of `from`, with multiplicity. */
  ghost predicate Inverts<T(!new)>(g: Graph<T>, from: set<T>, dependents: map<T, seq<T>>) {
    forall d, u :: InvertsAt(g, from, dependents, d, u)
  }

  ghost predicate InvertsAt<T(!new)>(g: Graph<T>, from: set<T>, dependents: map<T, seq<T>>, d: T, u: T) {
    multiset(Children(dependents, d))[u] == (if u in from && u in g then multiset(g[u])[d] else 0)
  }

  /** Records `id` once under each entry of `deps`. */
  function InvertList<T(==)>(before: map<T, seq<T>>, id: T, deps: seq<T>): map<T, seq<T>> {
    if deps == [] then before
    else
      var d, done := deps[|deps| - 1], InvertList(before, id, deps[..|deps| - 1]);
      done[d := Children(done, d) + [id]]
  }

  lemma {:induction false} CountSnoc<T(!new)>(s: seq<T>, x: T, u: T)
    ensures multiset(s + [x])[u] == multiset(s)[u] + if u == x then 1 else 0
  {
  }

  lemma {:induction false} InvertListCounts<T(!new)>(before: map<T, seq<T>>, id: T, deps: seq<T>, d: T, u: T)
    ensures multiset(Children(InvertList(before, id, deps), d))[u] ==
            multiset(Children(before, d))[u] + (if u == id then multiset(deps)[d] else 0)
  {
    if deps != [] {
      var rest := deps[..|deps| - 1];
      var last := deps[|deps| - 1];
      InvertListCounts(before, id, rest, d, u);
      assert deps == rest + [last];
      CountSnoc(rest, last, d);
      CountSnoc(Children(InvertList(before, id, rest), d), id, u);
    }
  }

  lemma {:induction false} InvertsAtStep<T(!new)>(g: Graph<T>, from: set<T>, id: T, before: map<T, seq<T>>, d: T, u: T)
    requires id in g && id !in from && InvertsAt(g, from, before, d, u)
    ensures InvertsAt(g, from + {id}, InvertList(before, id, g[id]), d, u)
  {
    InvertListCounts(before, id, g[id], d, u);
  }

  lemma {:induction false} InvertsStep<T(!new)>(g: Graph<T>, from: set<T>, id: T, before: map<T, seq<T>>)
    requires id in g && id !in from && Inverts(g, from, before)
    ensures Inverts(g, from + {id}, InvertList(before, id, g[id]))
  {
    forall d, u ensures InvertsAt(g, from + {id}, InvertList(before, id, g[id]), d, u) {
      assert InvertsAt(g, from, before, d, u);
      InvertsAtStep(g, from, id, before, d, u);
    }
  }

  ghost predicate TargetsPresent<T(!new)>(g: Graph<T>, u: T) {
    u in g && forall v :: v in g[u] ==> v in g
  }

  /** Counts incoming dependencies and inverts the edges; a dependency on an absent node is an error. */
  method CountEdges<T(==,!new)>(g: Graph<T>) returns (ok: bool, inDegree: map<T, nat>, dependents: map<T, seq<T>>)
    ensures ok <==> NoDangling(g)
    ensures ok ==> inDegree.Keys == g.Keys && forall u :: u in g ==> inDegree[u] == |g[u]|
    ensures ok ==> Inverts(g, g.Keys, dependents)
  {
    inDegree := map u | u in g :: 0;
    dependents := map[];
    var todo := g.Keys;
    ghost var from: set<T> := {};
    while todo != {}
      invariant todo !! from && todo + from == g.Keys == inDegree.Keys
      invariant forall u :: u in g ==> inDegree[u] == if u in todo then 0 else |g[u]|
      invariant Inverts(g, from, dependents)
      invariant forall u :: u in from ==> TargetsPresent(g, u)
      decreases todo
    {
      var id :| id in todo;
      InvertsStep(g, from, id, dependents);
      var present, degree;
      present, degree, dependents := InvertNode(g, id, dependents);
      if !present {
        ghost var v :| v in g[id] && v !in g;
        assert Edge(g, id, v);
        return false, inDegree, dependents;
      }
      inDegree := inDegree[id := degree];
      todo, from := todo - {id}, from + {id};
    }
    assert from == g.Keys;
    ok := true;
  }

  /** The inner loop of the second pass: the edges leaving `id`. */
  method InvertNode<T(==,!new)>(g: Graph<T>, id: T, before: map<T, seq<T>>)
    returns (ok: bool, degree: nat, dependents: map<T, seq<T>>)
    requires id in g
    ensures ok <==> TargetsPresent(g, id)
    ensures ok ==> degree == |g[id]| && dependents == InvertList(before, id, g[id])
  {
    degree, dependents := 0, before;
    var deps := g[id];
    for k := 0 to |deps|
      invariant degree == k && forall j :: 0 <= j < k ==> deps[j] in g
      invariant dependents == InvertList(before, id, deps[..k])
    {
      var dep := deps[k];
      if dep !in g {
        return false, degree, dependents;
      }
      assert deps[..k + 1][..k] == deps[..k];
      dependents := dependents[dep := Children(dependents, dep) + [id]];
      degree := degree + 1;
    }
    assert deps[..|deps|] == deps;
    ok := true;
  }

  /** Appending to the worklist and sorting it again. */
  lemma {:induction false} PushSorted<T(!new)>(less: (T, T) -> bool, zero: seq<T>, x: T)
    requires StrictWeakOrder(less) && Distinct(zero) && x !in zero
    ensures Distinct(SortBy(less, zero + [x])) && Ordered(less, SortBy(less, zero + [x]))
    ensures forall u :: u in SortBy(less, zero + [x]) <==> u in zero || u == x
  {
    SortOrdered(less, zero + [x]);
    SameElements(SortBy(less, zero + [x]), zero + [x]);
    DistinctPermutation(zero + [x], SortBy(less, zero + [x]));
  }

  lemma {:induction false} CountPrefix<T(!new)>(s: seq<T>, k: nat)
    requires k < |s|
    ensures multiset(s[..k])[s[k]] + 1 <= multiset(s)[s[k]]
    ensures multiset(s[..k + 1]) == multiset(s[..k]) + multiset{s[k]}
  {
    assert s == s[..k] + [s[k]] + s[k + 1..];
    assert s[..k + 1] == s[..k] + [s[k]];
  }

  /** `inDegree` and `zero` after decrementing once per entry of `done`. */
  ghost predicate Released<T(!new)>(
      before: map<T, nat>, ready: seq<T>, done: multiset<T>, inDegree: map<T, nat>, zero: seq<T>) {
    && inDegree.Keys == before.Keys
    && (forall u :: u in before ==> inDegree[u] + done[u] == before[u])
    && (forall u :: u in zero <==> u in ready || (u in done && u in inDegree && inDegree[u] == 0))
  }

  lemma {:induction false} ReleaseKeep<T(!new)>(
      before: map<T, nat>, ready: seq<T>, done: multiset<T>, inDegree: map<T, nat>, zero: seq<T>, child: T)
    requires Released(before, ready, done, inDegree, zero) && child in before && inDegree[child] > 1
    ensures Released(before, ready, done + multiset{child}, inDegree[child := inDegree[child] - 1], zero)
  {
  }

  lemma {:induction false} ReleasePush<T(!new)>(
      before: map<T, nat>, ready: seq<T>, done: multiset<T>, inDegree: map<T, nat>, zero: seq<T>, child: T,
      pushed: seq<T>)
    requires Released(before, ready, done, inDegree, zero) && child in before && inDegree[child] == 1
    requires forall u :: u in pushed <==> u in zero || u == child
    ensures Released(before, ready, done + multiset{child}, inDegree[child := 0], pushed)
  {
  }

  lemma {:induction false} ReleaseRoom<T(!new)>(
      before: map<T, nat>, ready: seq<T>, children: seq<T>, k: nat, inDegree: map<T, nat>, zero: seq<T>)
    requires forall u :: u in children ==> u in before && multiset(children)[u] <= before[u]
    requires forall u :: u in ready ==> u in before && before[u] == 0
    requires k < |children| && Released(before, ready, multiset(children[..k]), inDegree, zero)
    ensures children[k] in before && inDegree[children[k]] >= 1 && children[k] !in zero
    ensures multiset(children[..k + 1]) == multiset(children[..k]) + multiset{children[k]}
  {
    CountPrefix(children, k);
  }

  /** The worklist step: decrement each dependent once per edge and queue it when nothing is left. */
  method Release<T(==,!new)>(less: (T, T) -> bool, before: map<T, nat>, children: seq<T>, ready: seq<T>)
    returns (inDegree: map<T, nat>, zero: seq<T>)
    requires forall u :: u in children ==> u in before && multiset(children)[u] <= before[u]
    requires forall u :: u in ready ==> u in before && before[u] == 0
    requires StrictWeakOrder(less) && Distinct(ready) && Ordered(less, ready)
    ensures Released(before, ready, multiset(children), inDegree, zero)
    ensures Distinct(zero) && Ordered(less, zero)
  {
    inDegree, zero := before, ready;
    for k := 0 to |children|
      invariant Released(before, ready, multiset(children[..k]), inDegree, zero)
      invariant Distinct(zero) && Ordered(less, zero)
    {
      var child := children[k];
      ReleaseRoom(before, ready, children, k, inDegree, zero);
      if inDegree[child] == 1 {
        PushSorted(less, zero, child);
        ReleasePush(before, ready, multiset(children[..k]), inDegree, zero, child, SortBy(less, zero + [child]));
        zero := SortBy(less, zero + [child]);
      } else {
        ReleaseKeep(before, ready, multiset(children[..k]), inDegree, zero, child);
      }
      inDegree := inDegree[child := inDegree[child] - 1];
    }
    assert children[..|children|] == children;
  }

  // ---- The worklist loop ----

  /** `inDegree` counts what is still missing, and `zero` lists exactly the nodes that miss nothing. */
  ghost predicate Frontier<T(!new)>(g: Graph<T>, sorted: seq<T>, inDegree: map<T, nat>, zero: seq<T>) {
    && inDegree.Keys == g.Keys
    && (forall u :: u in g ==> inDegree[u] == Missing(g[u], sorted))
    && (forall u :: u in zero <==> u in g && u !in sorted && inDegree[u] == 0)
    && (forall u :: u in sorted ==> u in g && inDegree[u] == 0)
  }

  ghost predicate LoopInv<T(!new)>(
      less: (T, T) -> bool, g: Graph<T>, sorted: seq<T>, inDegree: map<T, nat>, zero: seq<T>) {
    && Frontier(g, sorted, inDegree, zero)
    && Distinct(zero) && Ordered(less, zero)
    && Distinct(sorted) && Greedy(less, g, sorted)
  }

  method Roots<T(==,!new)>(less: (T, T) -> bool, g: Graph<T>, inDegree: map<T, nat>) returns (zero: seq<T>)
    requires StrictWeakOrder(less)
    requires inDegree.Keys == g.Keys && forall u :: u in g ==> inDegree[u] == |g[u]|
    ensures Frontier(g, [], inDegree, zero) && Distinct(zero) && Ordered(less, zero)
  {
    zero := [];
    var todo := inDegree.Keys;
    while todo != {}
      invariant todo <= g.Keys && Distinct(zero)
      invariant forall u :: u in zero <==> u in g && u !in todo && inDegree[u] == 0
      decreases todo
    {
      var id :| id in todo;
      if inDegree[id] == 0 {
        zero := zero + [id];
      }
      todo := todo - {id};
    }
    SameElements(SortBy(less, zero), zero);
    SortOrdered(less, zero);
    DistinctPermutation(zero, SortBy(less, zero));
    zero := SortBy(less, zero);
    forall u | u in g ensures inDegree[u] == Missing(g[u], []) { MissingNone(g[u]); }
  }

  lemma {:induction false} SortedBound<T(!new)>(g: Graph<T>, sorted: seq<T>)
    requires Distinct(sorted) && forall k :: 0 <= k < |sorted| ==> sorted[k] in g
    ensures |sorted| <= |g|
    ensures |sorted| == |g| ==> forall u :: u in g ==> u in sorted
  {
    DistinctBound(sorted, g.Keys);
    forall u | u in g && |sorted| == |g| ensures u in sorted {
      if u !in sorted {
        DistinctBound(sorted, g.Keys - {u});
      }
    }
  }

  /** The head of the sorted worklist is the least available node. */
  lemma {:induction false} FrontierHead<T(!new)>(
      less: (T, T) -> bool, g: Graph<T>, sorted: seq<T>, inDegree: map<T, nat>, zero: seq<T>)
    requires TotalOrder(less) && Frontier(g, sorted, inDegree, zero) && zero != [] && Ordered(less, zero)
    requires Greedy(less, g, sorted) && Distinct(sorted)
    ensures zero[0] in g && zero[0] !in sorted
    ensures Greedy(less, g, sorted + [zero[0]]) && Distinct(sorted + [zero[0]])
  {
    var curr := zero[0];
    assert curr in zero;
    MissingZero(g[curr], sorted);
    forall x | x !in sorted && Available(g, sorted, x) ensures !less(x, curr) {
      MissingZero(g[x], sorted);
      assert x in zero;
      var k :| 0 <= k < |zero| && zero[k] == x;
    }
    var s := sorted + [curr];
    forall k | 0 <= k < |s| ensures Available(g, s[..k], s[k]) && LeastAvailable(less, g, s[..k], s[k]) {
      assert s[..k] == if k < |sorted| then sorted[..k] else sorted;
    }
  }

  /** Each dependent of `curr` misses `curr` at least once per edge. */
  lemma {:induction false} ReleaseCounts<T(!new)>(
      g: Graph<T>, sorted: seq<T>, curr: T, inDegree: map<T, nat>, dependents: map<T, seq<T>>)
    requires curr !in sorted && inDegree.Keys == g.Keys
    requires forall u :: u in g ==> inDegree[u] == Missing(g[u], sorted)
    requires Inverts(g, g.Keys, dependents)
    ensures forall u :: u in Children(dependents, curr) ==>
      u in inDegree && multiset(Children(dependents, curr))[u] <= inDegree[u]
  {
    forall u | u in Children(dependents, curr)
      ensures u in g && multiset(Children(dependents, curr))[u] <= Missing(g[u], sorted)
    {
      assert multiset(Children(dependents, curr))[u] > 0;
      assert InvertsAt(g, g.Keys, dependents, curr, u);
      MissingStep(g[u], sorted, curr);
    }
  }

  lemma {:induction false} FrontierStep<T(!new)>(
      g: Graph<T>, sorted: seq<T>, curr: T, before: map<T, nat>, rest: seq<T>, dependents: map<T, seq<T>>,
      inDegree: map<T, nat>, zero: seq<T>)
    requires curr in g && curr !in sorted && Inverts(g, g.Keys, dependents)
    requires Distinct([curr] + rest) && Frontier(g, sorted, before, [curr] + rest)
    requires Released(before, rest, multiset(Children(dependents, curr)), inDegree, zero)
    ensures Frontier(g, sorted + [curr], inDegree, zero)
  {
    var now := sorted + [curr];
    forall u | u in g ensures inDegree[u] == Missing(g[u], now) {
      MissingStep(g[u], sorted, curr);
      assert InvertsAt(g, g.Keys, dependents, curr, u);
    }
    forall k | 0 <= k < |rest| ensures rest[k] != curr {
      assert ([curr] + rest)[k + 1] == rest[k] && ([curr] + rest)[0] == curr;
    }
    assert curr in [curr] + rest;
    forall u ensures u in zero <==> u in g && u !in now && inDegree[u] == 0 {
      assert u in [curr] + rest <==> u == curr || u in rest;
      var count := multiset(Children(dependents, curr))[u];
      assert u in multiset(Children(dependents, curr)) <==> count > 0;
      if u in g {
        assert inDegree[u] + count == before[u];
        assert u in now ==> before[u] == 0;
      }
    }
  }

  /** When the worklist runs dry early, every remaining node waits for a remaining node. */
  lemma {:induction false} StuckHasCycle<T(!new)>(g: Graph<T>, sorted: seq<T>, inDegree: map<T, nat>)
    requires NoDangling(g) && Frontier(g, sorted, inDegree, [])
    requires Distinct(sorted) && |sorted| != |g|
    ensures !Acyclic(g)
  {
    var left := set u | u in g && u !in sorted;
    if left == {} {
      assert forall u :: u in g ==> u in left || u in sorted;
      DistinctCovers(g.Keys, sorted);
    }
    forall u | u in left ensures CanStay(g, left, u) {
      MissingZero(g[u], sorted);
      var d :| d in g[u] && d !in sorted;
      assert Edge(g, u, d) && d in left;
    }
    EndlessSetHasCycle(g, left);
  }

  lemma {:induction false} DistinctCovers<T(!new)>(s: set<T>, p: seq<T>)
    requires Distinct(p) && (forall x :: x in s <==> x in p)
    ensures |s| == |p|
  {
    if p != [] {
      var x := p[|p| - 1];
      assert forall y :: y in p <==> y in p[..|p| - 1] || y == x;
      DistinctCovers(s - {x}, p[..|p| - 1]);
    } else {
      assert s == {};
    }
  }

  lemma {:induction false} CompleteIsOrder<T(!new)>(less: (T, T) -> bool, g: Graph<T>, sorted: seq<T>)
    requires TotalOrder(less) && Distinct(sorted) && Greedy(less, g, sorted)
    requires forall u :: u in g ==> u in sorted
    ensures ValidDag(g) && IsOrder(g, sorted)
    ensures forall o :: IsOrder(g, o) ==> LexLe(less, sorted, o)
  {
    OrderIsValid(g, sorted);
    forall o | IsOrder(g, o) ensures LexLe(less, sorted, o) {
      DistinctCovers(g.Keys, sorted);
      DistinctCovers(g.Keys, o);
      GreedyIsLeast(less, g, sorted, o, 0);
    }
  }

  /** Any valid order refutes cycles and dangling edges: positions are a ranking. */
  lemma {:induction false} OrderIsValid<T(!new)>(g: Graph<T>, o: seq<T>)
    requires IsOrder(g, o)
    ensures ValidDag(g)
  {
    var rank := map u | u in g :: Position(o, u);
    forall u, v | Edge(g, u, v) ensures v in g && rank[v] < rank[u] {
      var k := Position(o, u);
      assert Available(g, o[..k], o[k]) && v in o[..k];
      var j :| 0 <= j < k && o[j] == v;
      assert Position(o, v) == j;
    }
    RankedIsValid(g, rank);
  }

  ghost function Position<T(!new)>(o: seq<T>, u: T): (k: nat)
    requires u in o
    ensures k < |o| && o[k] == u
  {
    var k: nat :| k < |o| && o[k] == u; k
  }

  lemma {:induction false} TakeMore<T>(s: seq<T>, o: seq<T>, k: nat)
    requires k < |s| == |o| && s[..k] == o[..k] && s[k] == o[k]
    ensures s[..k + 1] == o[..k + 1]
  {
    assert s[..k + 1] == s[..k] + [s[k]] && o[..k + 1] == o[..k] + [o[k]];
  }

  /** Where a valid order first departs from the greedy one it picks something larger. */
  lemma {:induction false} FirstDifference<T(!new)>(less: (T, T) -> bool, g: Graph<T>, s: seq<T>, o: seq<T>, k: nat)
    requires TotalOrder(less) && Greedy(less, g, s) && IsOrder(g, o) && k < |s| == |o| && s[..k] == o[..k]
    requires s[k] != o[k]
    ensures less(s[k], o[k])
  {
    assert Available(g, o[..k], o[k]) && LeastAvailable(less, g, s[..k], s[k]);
    assert o[k] !in o[..k];
  }

  /** Choosing the least available node each time beats every other valid order. */
  lemma {:induction false} GreedyIsLeast<T(!new)>(less: (T, T) -> bool, g: Graph<T>, s: seq<T>, o: seq<T>, k: nat)
    requires TotalOrder(less) && Greedy(less, g, s) && IsOrder(g, o)
    requires k <= |s| == |o| && s[..k] == o[..k]
    ensures LexLe(less, s, o)
    decreases |s| - k
  {
    if k == |s| {
      assert s == s[..k] && o == o[..k];
    } else if s[k] == o[k] {
      TakeMore(s, o, k);
      GreedyIsLeast(less, g, s, o, k + 1);
    } else {
      FirstDifference(less, g, s, o, k);
    }
  }

  ghost predicate Asymmetric<T(!new)>(less: (T, T) -> bool) {
    forall x, y {:trigger less(x, y)} :: less(x, y) ==> !less(y, x)
  }

  lemma {:induction false} SharedPrefix<T>(a: seq<T>, b: seq<T>, i: nat, j: nat)
    requires i < j < |a| && j < |b| && a[..j] == b[..j]
    ensures a[i] == b[i]
  {
    assert a[..j][i] == b[..j][i];
  }

  lemma {:induction false} LexAntisymmetric<T(!new)>(less: (T, T) -> bool, a: seq<T>, b: seq<T>)
    requires Asymmetric(less) && LexLe(less, a, b) && LexLe(less, b, a)
    ensures a == b
  {
    if a != b {
      var i :| 0 <= i < |a| && i < |b| && a[..i] == b[..i] && less(a[i], b[i]);
      var j :| 0 <= j < |b| && j < |a| && b[..j] == a[..j] && less(b[j], a[j]);
      if i < j {
        SharedPrefix(a, b, i, j);
      } else if j < i {
        SharedPrefix(a, b, j, i);
      }
    }
  }

  /** There is one least order, so the result does not depend on the order in which maps are walked. */
  lemma {:induction false} LeastUnique<T(!new)>(less: (T, T) -> bool, g: Graph<T>, a: seq<T>, b: seq<T>)
    requires TotalOrder(less) && IsOrder(g, a) && IsOrder(g, b)
    requires forall o :: IsOrder(g, o) ==> LexLe(less, a, o)
    requires forall o :: IsOrder(g, o) ==> LexLe(less, b, o)
    ensures a == b
  {
    OrderAsymmetric(less);
    LexAntisymmetric(less, a, b);
  }

  lemma {:induction false} OrderAsymmetric<T(!new)>(less: (T, T) -> bool)
    requires StrictWeakOrder(less)
    ensures Asymmetric(less)
  {
    forall x, y | less(x, y) ensures !less(y, x) {
      assert !less(x, x);
    }
  }

  /** One turn of the worklist loop: emit the head and release what waited for it. */
  method Advance<T(==,!new)>(less: (T, T) -> bool, g: Graph<T>, dependents: map<T, seq<T>>,
                             before: seq<T>, degrees: map<T, nat>, ready: seq<T>)
    returns (sorted: seq<T>, inDegree: map<T, nat>, zero: seq<T>)
    requires TotalOrder(less) && Inverts(g, g.Keys, dependents)
    requires LoopInv(less, g, before, degrees, ready) && ready != []
    ensures LoopInv(less, g, sorted, inDegree, zero)
    ensures |before| + 1 == |sorted| <= |g|
  {
    var curr := ready[0];
    FrontierHead(less, g, before, degrees, ready);
    sorted := before + [curr];
    SortedBound(g, sorted);
    ReleaseCounts(g, before, curr, degrees, dependents);
    var rest := ready[1..];
    assert ready == [curr] + rest;
    inDegree, zero := Release(less, degrees, Children(dependents, curr), rest);
    FrontierStep(g, before, curr, degrees, rest, dependents, inDegree, zero);
  }

  /** Kahn's algorithm. It fails exactly on invalid graphs and otherwise returns the least valid order. */
  method Sort<T(==,!new)>(less: (T, T) -> bool, g: Graph<T>) returns (r: SortResult<T>)
    requires TotalOrder(less)
    ensures r.Order? <==> ValidDag(g)
    ensures r.Failed? ==> r.error == if NoDangling(g) then CycleDetected else DanglingEdge
    ensures r.Order? ==> IsOrder(g, r.ids)
    ensures r.Order? ==> forall o :: IsOrder(g, o) ==> LexLe(less, r.ids, o)
  {
    var ok, inDegree, dependents := CountEdges(g);
    if !ok {
      return Failed(DanglingEdge);
    }
    var zero := Roots(less, g, inDegree);
    var sorted: seq<T> := [];
    while zero != []
      invariant LoopInv(less, g, sorted, inDegree, zero)
      invariant |sorted| <= |g|
      decreases |g| - |sorted|
    {
      sorted, inDegree, zero := Advance(less, g, dependents, sorted, inDegree, zero);
    }
    SortedBound(g, sorted);
    if |sorted| != |g| {
      StuckHasCycle(g, sorted, inDegree);
      return Failed(CycleDetected);
    }
    CompleteIsOrder(less, g, sorted);
    r := Order(sorted);
  }
}
