/**
 The mutable workflow graph: node injection, fan-out expansion and sub-DAG inlining.
 Each operation rewires dependency lists in place and then validates the whole graph.
 */
module GraphMutator {
  import opened Digraph
  import opened Sequences
  import opened Splice
  import Sorting
  import Kahn = TopologicalSort

  datatype NodeType = Task | Approval | FanOut | FanIn | SubDag
  datatype Node<Id> = Node(id: Id, kind: NodeType, metadata: map<string, string>, deps: seq<Id>)
  type Nodes<Id> = map<Id, Node<Id>>

  datatype Error = NodeNotFound | NodeAlreadyExists | CycleDetected | DanglingEdge | EmptySubDag | BadCount
  datatype Outcome = Ok | Err(error: Error)
  datatype SortOutcome<Id> = Sorted(ids: seq<Id>) | Unsorted(error: Error)

  /** The dependency graph of a set of nodes. */
  function Deps<Id(==)>(nodes: Nodes<Id>): Graph<Id> {
    map id | id in nodes :: nodes[id].deps
  }

  ghost predicate KeyedById<Id(!new)>(nodes: Nodes<Id>) {
    forall id :: id in nodes ==> nodes[id].id == id
  }

  // ---- What each operation writes ----

  /** `s` with each `from` overwritten by `to`. */
  function Replace<Id(==)>(s: seq<Id>, from: Id, to: Id): seq<Id> {
    seq(|s|, i requires 0 <= i < |s| => if s[i] == from then to else s[i])
  }

  lemma {:induction false} ReplaceIsSubstitute<Id(!new)>(s: seq<Id>, from: Id, to: Id)
    ensures Replace(s, from, to) == Substitute(s, from, [to])
  {
    if s != [] {
      ReplaceIsSubstitute(s[1..], from, to);
      assert Replace(s, from, to) == Replace(s[..1], from, to) + Replace(s[1..], from, to);
    }
  }

  function InjectedBefore<Id(==)>(nodes: Nodes<Id>, target: Id, n: Node<Id>): Nodes<Id>
    requires target in nodes
  {
    nodes[n.id := n.(deps := nodes[target].deps)][target := nodes[target].(deps := [n.id])]
  }

  function Ids<Id(==)>(ns: seq<Node<Id>>): seq<Id> {
    seq(|ns|, i requires 0 <= i < |ns| => ns[i].id)
  }

  /** Later branches overwrite earlier ones with the same id. */
  function AddAll<Id(==)>(nodes: Nodes<Id>, branches: seq<Node<Id>>, deps: seq<Id>): Nodes<Id> {
    if branches == [] then nodes
    else
      var b := branches[|branches| - 1];
      AddAll(nodes, branches[..|branches| - 1], deps)[b.id := b.(deps := deps)]
  }

  /** Every node outside `skip` depends on `to` where it depended on `from`. */
  function Rewired<Id(==)>(nodes: Nodes<Id>, skip: set<Id>, from: Id, to: seq<Id>): Nodes<Id> {
    map id | id in nodes ::
      if id in skip then nodes[id] else nodes[id].(deps := Substitute(nodes[id].deps, from, to))
  }

  function InjectedAfter<Id(==)>(nodes: Nodes<Id>, target: Id, n: Node<Id>): Nodes<Id>
    requires target in nodes
  {
    Rewired(nodes[n.id := n.(deps := [target])], {n.id, target}, target, [n.id])
  }

  function Grown<Id(==)>(nodes: Nodes<Id>, template: Id, branches: seq<Node<Id>>, reduce: Node<Id>): Nodes<Id>
    requires template in nodes
  {
    AddAll(nodes, branches, nodes[template].deps)[reduce.id := reduce.(deps := Ids(branches))]
  }

  function FannedOut<Id(==)>(nodes: Nodes<Id>, template: Id, branches: seq<Node<Id>>, reduce: Node<Id>): Nodes<Id>
    requires template in nodes
  {
    Rewired(Grown(nodes, template, branches, reduce), {reduce.id}, template, [reduce.id]) - {template}
  }

  function Rooted<Id(==)>(nodes: Nodes<Id>, sub: Nodes<Id>, upstream: seq<Id>): Nodes<Id> {
    map id | id in nodes.Keys + sub.Keys ::
      if id !in sub then nodes[id]
      else if sub[id].deps == [] then sub[id].(deps := upstream) else sub[id]
  }

  function Inlined<Id(==)>(nodes: Nodes<Id>, composite: Id, sub: Nodes<Id>, exits: seq<Id>): Nodes<Id>
    requires composite in nodes
  {
    Rewired(Rooted(nodes, sub, nodes[composite].deps), {composite}, composite, exits) - {composite}
  }

  // ---- Each operation is a splice ----

  function PairGraph<Id(==)>(first: Id, second: Id): Graph<Id> {
    map[first := [], second := [first]]
  }

  /** Injection and expansion are only promised to work with ids that are not in use. */
  ghost predicate FanOutFresh<Id(!new)>(nodes: Nodes<Id>, branches: seq<Node<Id>>, reduce: Node<Id>) {
    && branches != [] && Distinct(Ids(branches))
    && reduce.id !in nodes && reduce.id !in Ids(branches)
    && forall i :: 0 <= i < |branches| ==> branches[i].id !in nodes
  }

  function FanGraph<Id(==)>(branches: seq<Node<Id>>, reduce: Node<Id>): Graph<Id> {
    map id | id in Ids(branches) + [reduce.id] :: if id == reduce.id then Ids(branches) else []
  }

  lemma {:induction false} PairValid<Id(!new)>(first: Id, second: Id)
    requires first != second
    ensures ValidDag(PairGraph(first, second)) && ListsExits(PairGraph(first, second), [second])
  {
    var g := PairGraph(first, second);
    RankedIsValid(g, map[first := 0, second := 1]);
    assert Edge(g, second, first);
  }

  lemma {:induction false} PairReach<Id(!new)>(first: Id, second: Id)
    requires first != second
    ensures Reach(PairGraph(first, second), second, first)
    ensures !Reach(PairGraph(first, second), first, second)
  {
    var g := PairGraph(first, second);
    PairValid(first, second);
    ReachEdge(g, second, first);
    if Reach(g, first, second) {
      ReachTrans(g, first, second, first);
    }
  }

  lemma {:induction false} SubstituteSelf<Id(!new)>(s: seq<Id>, c: Id)
    ensures Substitute(s, c, [c]) == s
  {
    ReplaceIsSubstitute(s, c, c);
  }

  lemma {:induction false} BeforeExpands<Id(!new)>(nodes: Nodes<Id>, target: Id, n: Node<Id>)
    requires target in nodes && n.id !in nodes
    ensures Deps(InjectedBefore(nodes, target, n)) == Expand(Deps(nodes), target, PairGraph(n.id, target), [target])
  {
    var made := Deps(InjectedBefore(nodes, target, n));
    var wanted := Expand(Deps(nodes), target, PairGraph(n.id, target), [target]);
    assert made.Keys == wanted.Keys;
    forall id | id in made ensures made[id] == wanted[id] {
      if id != n.id && id != target {
        SubstituteSelf(nodes[id].deps, target);
      }
    }
  }

  lemma {:induction false} BeforeIsSplice<Id(!new)>(nodes: Nodes<Id>, target: Id, n: Node<Id>)
    requires target in nodes && n.id !in nodes && ValidDag(Deps(nodes))
    ensures Spliceable(Deps(nodes), target, PairGraph(n.id, target), [target])
    ensures Deps(InjectedBefore(nodes, target, n)) == Expand(Deps(nodes), target, PairGraph(n.id, target), [target])
  {
    PairValid(n.id, target);
    assert target in PairGraph(n.id, target);
    BeforeExpands(nodes, target, n);
  }

  lemma {:induction false} AfterExpands<Id(!new)>(nodes: Nodes<Id>, target: Id, n: Node<Id>)
    requires target in nodes && n.id !in nodes
    ensures Deps(InjectedAfter(nodes, target, n)) == Expand(Deps(nodes), target, PairGraph(target, n.id), [n.id])
  {
    var made := Deps(InjectedAfter(nodes, target, n));
    var wanted := Expand(Deps(nodes), target, PairGraph(target, n.id), [n.id]);
    assert made.Keys == wanted.Keys;
    assert forall id :: id in made ==> made[id] == wanted[id];
  }

  lemma {:induction false} AfterIsSplice<Id(!new)>(nodes: Nodes<Id>, target: Id, n: Node<Id>)
    requires target in nodes && n.id !in nodes && ValidDag(Deps(nodes))
    ensures Spliceable(Deps(nodes), target, PairGraph(target, n.id), [n.id])
    ensures Deps(InjectedAfter(nodes, target, n)) == Expand(Deps(nodes), target, PairGraph(target, n.id), [n.id])
  {
    PairValid(target, n.id);
    assert target in PairGraph(target, n.id);
    AfterExpands(nodes, target, n);
  }

  lemma {:induction false} AddAllAt<Id(!new)>(nodes: Nodes<Id>, branches: seq<Node<Id>>, deps: seq<Id>, id: Id)
    requires forall i :: 0 <= i < |branches| ==> branches[i].id !in nodes
    ensures id in AddAll(nodes, branches, deps) <==> id in nodes || id in Ids(branches)
    ensures id in nodes ==> AddAll(nodes, branches, deps)[id] == nodes[id]
    ensures id in Ids(branches) ==> AddAll(nodes, branches, deps)[id].deps == deps
  {
    if branches != [] {
      var rest := branches[..|branches| - 1];
      AddAllAt(nodes, rest, deps, id);
      assert Ids(branches) == Ids(rest) + [branches[|branches| - 1].id];
    }
  }

  lemma {:induction false} FanValid<Id(!new)>(branches: seq<Node<Id>>, reduce: Node<Id>)
    requires branches != [] && reduce.id !in Ids(branches)
    ensures ValidDag(FanGraph(branches, reduce)) && ListsExits(FanGraph(branches, reduce), [reduce.id])
    ensures FanGraph(branches, reduce).Keys != {}
  {
    var g := FanGraph(branches, reduce);
    RankedIsValid(g, map id | id in g :: if id == reduce.id then 1 else 0);
    assert reduce.id in g;
    forall u | u in Ids(branches) ensures Edge(g, reduce.id, u) { }
  }

  lemma {:induction false} FanReach<Id(!new)>(branches: seq<Node<Id>>, reduce: Node<Id>, b: Id)
    requires b in Ids(branches) && reduce.id !in Ids(branches)
    ensures Reach(FanGraph(branches, reduce), reduce.id, b)
    ensures forall d :: !Reach(FanGraph(branches, reduce), b, d)
  {
    var g := FanGraph(branches, reduce);
    ReachEdge(g, reduce.id, b);
    forall d ensures !Reach(g, b, d) {
      if n: nat :| n >= 1 && Steps(g, b, d, n) {
        assert false;
      }
    }
  }

  lemma {:induction false} FanAt<Id(!new)>(
      nodes: Nodes<Id>, template: Id, branches: seq<Node<Id>>, reduce: Node<Id>, id: Id)
    requires template in nodes && FanOutFresh(nodes, branches, reduce) && template !in nodes[template].deps
    ensures id in FannedOut(nodes, template, branches, reduce) <==>
            (id in nodes && id != template) || id in FanGraph(branches, reduce)
    ensures id in FannedOut(nodes, template, branches, reduce) ==>
      FannedOut(nodes, template, branches, reduce)[id].deps ==
        if id == reduce.id then Ids(branches)
        else if id in nodes then Substitute(nodes[id].deps, template, [reduce.id])
        else nodes[template].deps
  {
    AddAllAt(nodes, branches, nodes[template].deps, id);
    SubstituteAbsent(nodes[template].deps, template, [reduce.id]);
  }

  lemma {:induction false} FanExpands<Id(!new)>(
      nodes: Nodes<Id>, template: Id, branches: seq<Node<Id>>, reduce: Node<Id>)
    requires template in nodes && FanOutFresh(nodes, branches, reduce) && template !in nodes[template].deps
    ensures Deps(FannedOut(nodes, template, branches, reduce)) ==
            Expand(Deps(nodes), template, FanGraph(branches, reduce), [reduce.id])
  {
    var after, wanted := Deps(FannedOut(nodes, template, branches, reduce)),
                         Expand(Deps(nodes), template, FanGraph(branches, reduce), [reduce.id]);
    forall id ensures id in after <==> id in wanted { FanAt(nodes, template, branches, reduce, id); }
    forall id | id in wanted ensures after[id] == wanted[id] { FanAt(nodes, template, branches, reduce, id); }
  }

  lemma {:induction false} FanIsSplice<Id(!new)>(
      nodes: Nodes<Id>, template: Id, branches: seq<Node<Id>>, reduce: Node<Id>)
    requires template in nodes && FanOutFresh(nodes, branches, reduce) && ValidDag(Deps(nodes))
    ensures Spliceable(Deps(nodes), template, FanGraph(branches, reduce), [reduce.id])
    ensures Deps(FannedOut(nodes, template, branches, reduce)) ==
            Expand(Deps(nodes), template, FanGraph(branches, reduce), [reduce.id])
  {
    FanValid(branches, reduce);
    NoSelfDependency(Deps(nodes), template);
    FanExpands(nodes, template, branches, reduce);
    forall id | id in FanGraph(branches, reduce) ensures id !in nodes { }
  }

  lemma {:induction false} NoSelfDependency<Id(!new)>(g: Graph<Id>, u: Id)
    requires ValidDag(g) && u in g
    ensures u !in g[u]
  {
    if u in g[u] {
      ReachEdge(g, u, u);
    }
  }

  lemma {:induction false} InlineExpands<Id(!new)>(nodes: Nodes<Id>, composite: Id, sub: Nodes<Id>, exits: seq<Id>)
    requires composite in nodes && composite !in nodes[composite].deps
    requires NoDangling(Deps(sub)) && sub.Keys !! nodes.Keys
    ensures Deps(Inlined(nodes, composite, sub, exits)) == Expand(Deps(nodes), composite, Deps(sub), exits)
  {
    SubstituteAbsent(nodes[composite].deps, composite, exits);
    forall id | id in sub ensures Substitute(sub[id].deps, composite, exits) == sub[id].deps {
      assert composite in sub[id].deps ==> Edge(Deps(sub), id, composite);
      SubstituteAbsent(sub[id].deps, composite, exits);
    }
  }

  lemma {:induction false} InlineIsSplice<Id(!new)>(nodes: Nodes<Id>, composite: Id, sub: Nodes<Id>, exits: seq<Id>)
    requires composite in nodes && ValidDag(Deps(nodes))
    requires sub != map[] && ValidDag(Deps(sub)) && sub.Keys !! nodes.Keys && ListsExits(Deps(sub), exits)
    ensures Spliceable(Deps(nodes), composite, Deps(sub), exits)
    ensures Deps(Inlined(nodes, composite, sub, exits)) == Expand(Deps(nodes), composite, Deps(sub), exits)
  {
    assert Deps(sub).Keys == sub.Keys;
    NoSelfDependency(Deps(nodes), composite);
    InlineExpands(nodes, composite, sub, exits);
  }

  // ---- The order each operation leaves ----

  /** Injecting before `target` keeps every old order relation and puts the new node between. */
  lemma {:induction false} InjectBeforeOrder<Id(!new)>(nodes: Nodes<Id>, target: Id, n: Node<Id>, after: Graph<Id>)
    requires target in nodes && n.id !in nodes && ValidDag(Deps(nodes))
    requires after == Deps(InjectedBefore(nodes, target, n))
    ensures ValidDag(after)
    ensures forall u, v :: u in nodes && v in nodes ==>
      (Reach(after, u, v) <==> Reach(Deps(nodes), u, v))
    ensures forall u :: u in nodes ==>
      (Reach(after, n.id, u) <==> Reach(Deps(nodes), target, u))
    ensures forall u :: u in nodes ==>
      (Reach(after, u, n.id) <==> u == target || Reach(Deps(nodes), u, target))
  {
    var g, sub := Deps(nodes), PairGraph(n.id, target);
    BeforeIsSplice(nodes, target, n);
    SpliceTheorem(g, target, sub, [target], after);
    PairReach(n.id, target);
    PairValid(n.id, target);
  }

  /** Injecting after `target` likewise. */
  lemma {:induction false} InjectAfterOrder<Id(!new)>(nodes: Nodes<Id>, target: Id, n: Node<Id>, after: Graph<Id>)
    requires target in nodes && n.id !in nodes && ValidDag(Deps(nodes))
    requires after == Deps(InjectedAfter(nodes, target, n))
    ensures ValidDag(after)
    ensures forall u, v :: u in nodes && v in nodes ==>
      (Reach(after, u, v) <==> Reach(Deps(nodes), u, v))
    ensures forall u :: u in nodes ==>
      (Reach(after, n.id, u) <==> u == target || Reach(Deps(nodes), target, u))
    ensures forall u :: u in nodes ==>
      (Reach(after, u, n.id) <==> Reach(Deps(nodes), u, target))
  {
    var g, sub := Deps(nodes), PairGraph(target, n.id);
    AfterIsSplice(nodes, target, n);
    SpliceTheorem(g, target, sub, [n.id], after);
    PairReach(target, n.id);
    PairValid(target, n.id);
  }

  /** Fan-out keeps the order of the survivors and puts branches and join where the template was. */
  lemma {:induction false} FanOutOrder<Id(!new)>(
      nodes: Nodes<Id>, template: Id, branches: seq<Node<Id>>, reduce: Node<Id>, after: Graph<Id>)
    requires template in nodes && FanOutFresh(nodes, branches, reduce) && ValidDag(Deps(nodes))
    requires after == Deps(FannedOut(nodes, template, branches, reduce))
    ensures ValidDag(after)
    ensures forall u, v :: u in nodes && v in nodes && u != template && v != template ==>
      (Reach(after, u, v) <==> Reach(Deps(nodes), u, v))
    ensures forall s, u :: s in FanGraph(branches, reduce) && u in nodes && u != template ==>
      (Reach(after, s, u) <==> Reach(Deps(nodes), template, u))
    ensures forall s, u :: s in FanGraph(branches, reduce) && u in nodes && u != template ==>
      (Reach(after, u, s) <==> Reach(Deps(nodes), u, template))
  {
    var g, sub := Deps(nodes), FanGraph(branches, reduce);
    FanIsSplice(nodes, template, branches, reduce);
    SpliceTheorem(g, template, sub, [reduce.id], after);
  }

  /** Branches are unordered among themselves and all run before the join. */
  lemma {:induction false} FanOutBranches<Id(!new)>(
      nodes: Nodes<Id>, template: Id, branches: seq<Node<Id>>, reduce: Node<Id>, after: Graph<Id>, b: Id, d: Id)
    requires template in nodes && FanOutFresh(nodes, branches, reduce) && ValidDag(Deps(nodes))
    requires after == Deps(FannedOut(nodes, template, branches, reduce))
    requires b in Ids(branches) && d in Ids(branches)
    ensures Reach(after, reduce.id, b)
    ensures !Reach(after, b, d) && !Reach(after, b, reduce.id)
  {
    var g, sub := Deps(nodes), FanGraph(branches, reduce);
    FanIsSplice(nodes, template, branches, reduce);
    FanReach(branches, reduce, b);
    assert b in sub && d in sub && reduce.id in sub;
    SpliceOrder(g, template, sub, [reduce.id], reduce.id, b);
    SpliceOrder(g, template, sub, [reduce.id], b, d);
    SpliceOrder(g, template, sub, [reduce.id], b, reduce.id);
  }

  /** Inlining keeps both orders exactly and places the whole sub-DAG where the composite node was. */
  lemma {:induction false} InlineOrder<Id(!new)>(
      nodes: Nodes<Id>, composite: Id, sub: Nodes<Id>, exits: seq<Id>, after: Graph<Id>)
    requires composite in nodes && ValidDag(Deps(nodes))
    requires sub != map[] && ValidDag(Deps(sub)) && sub.Keys !! nodes.Keys && ListsExits(Deps(sub), exits)
    requires after == Deps(Inlined(nodes, composite, sub, exits))
    ensures ValidDag(after)
    ensures after.Keys == nodes.Keys - {composite} + sub.Keys
    ensures forall u, v :: u in nodes && v in nodes && u != composite && v != composite ==>
      (Reach(after, u, v) <==> Reach(Deps(nodes), u, v))
    ensures forall s, t :: s in sub && t in sub ==>
      (Reach(after, s, t) <==> Reach(Deps(sub), s, t))
    ensures forall s, u :: s in sub && u in nodes && u != composite ==>
      (Reach(after, s, u) <==> Reach(Deps(nodes), composite, u))
    ensures forall s, u :: s in sub && u in nodes && u != composite ==>
      (Reach(after, u, s) <==> Reach(Deps(nodes), u, composite))
  {
    var g, inner := Deps(nodes), Deps(sub);
    InlineIsSplice(nodes, composite, sub, exits);
    SpliceTheorem(g, composite, inner, exits, after);
  }

  // ---- When validation succeeds ----

  /** None of `ids` is named as a dependency. */
  ghost predicate Unused<Id(!new)>(nodes: Nodes<Id>, ids: set<Id>) {
    forall u, v :: Edge(Deps(nodes), u, v) ==> v !in ids
  }

  /** With an id nobody named before, injecting before a node is valid if and only if the graph was. */
  lemma {:induction false} InjectBeforeValid<Id(!new)>(nodes: Nodes<Id>, target: Id, n: Node<Id>)
    requires target in nodes && n.id !in nodes && Unused(nodes, {n.id})
    ensures ValidDag(Deps(InjectedBefore(nodes, target, n))) <==> ValidDag(Deps(nodes))
  {
    PairValid(n.id, target);
    assert target in PairGraph(n.id, target);
    BeforeExpands(nodes, target, n);
    SpliceValidIff(Deps(nodes), target, PairGraph(n.id, target), [target]);
  }

  lemma {:induction false} InjectAfterValid<Id(!new)>(nodes: Nodes<Id>, target: Id, n: Node<Id>)
    requires target in nodes && n.id !in nodes && Unused(nodes, {n.id})
    ensures ValidDag(Deps(InjectedAfter(nodes, target, n))) <==> ValidDag(Deps(nodes))
  {
    PairValid(target, n.id);
    assert target in PairGraph(target, n.id);
    AfterExpands(nodes, target, n);
    SpliceValidIff(Deps(nodes), target, PairGraph(target, n.id), [n.id]);
  }

  lemma {:induction false} LoopInvalid<Id(!new)>(g: Graph<Id>, u: Id, v: Id)
    requires Edge(g, u, v) && Edge(g, v, u)
    ensures !ValidDag(g)
  {
    ReachEdge(g, u, v);
    ReachEdge(g, v, u);
    ReachTrans(g, u, v, u);
  }

  /** A template that depends on itself turns into branches that wait for their own join. */
  lemma {:induction false} FanOutSelf<Id(!new)>(
      nodes: Nodes<Id>, template: Id, branches: seq<Node<Id>>, reduce: Node<Id>)
    requires template in nodes && FanOutFresh(nodes, branches, reduce) && template in nodes[template].deps
    ensures !ValidDag(Deps(nodes)) && !ValidDag(Deps(FannedOut(nodes, template, branches, reduce)))
  {
    ReachEdge(Deps(nodes), template, template);
    var after, b := FannedOut(nodes, template, branches, reduce), branches[0].id;
    assert Ids(branches)[0] == b;
    AddAllAt(nodes, branches, nodes[template].deps, b);
    AddAllAt(nodes, branches, nodes[template].deps, reduce.id);
    SubstituteMember(nodes[template].deps, template, [reduce.id], reduce.id);
    LoopInvalid(Deps(after), b, reduce.id);
  }

  lemma {:induction false} FanOutValid<Id(!new)>(
      nodes: Nodes<Id>, template: Id, branches: seq<Node<Id>>, reduce: Node<Id>)
    requires template in nodes && FanOutFresh(nodes, branches, reduce)
    requires Unused(nodes, FanGraph(branches, reduce).Keys)
    ensures ValidDag(Deps(FannedOut(nodes, template, branches, reduce))) <==> ValidDag(Deps(nodes))
  {
    if template in nodes[template].deps {
      FanOutSelf(nodes, template, branches, reduce);
    } else {
      FanValid(branches, reduce);
      FanExpands(nodes, template, branches, reduce);
      forall id | id in FanGraph(branches, reduce) ensures id !in nodes { }
      SpliceValidIff(Deps(nodes), template, FanGraph(branches, reduce), [reduce.id]);
    }
  }

  /** A composite that depends on itself makes the roots of the sub-DAG wait for its exits. */
  lemma {:induction false} InlineSelf<Id(!new)>(nodes: Nodes<Id>, composite: Id, sub: Nodes<Id>, exits: seq<Id>)
    requires composite in nodes && composite in nodes[composite].deps
    requires sub != map[] && ValidDag(Deps(sub)) && sub.Keys !! nodes.Keys && ListsExits(Deps(sub), exits)
    ensures !ValidDag(Deps(nodes)) && !ValidDag(Deps(Inlined(nodes, composite, sub, exits)))
  {
    ReachEdge(Deps(nodes), composite, composite);
    var inner, after := Deps(sub), Deps(Inlined(nodes, composite, sub, exits));
    assert inner.Keys == sub.Keys;
    var e := SomeExit(inner);
    if ValidDag(after) {
      var rank := RankExists(after);
      forall u | u in inner && inner[u] != [] ensures after[u] == inner[u] {
        assert composite in sub[u].deps ==> Edge(inner, u, composite);
        SubstituteAbsent(sub[u].deps, composite, exits);
      }
      var r := RootBelow(inner, after, rank, e);
      SubstituteMember(nodes[composite].deps, composite, exits, e);
      assert Edge(after, r, e);
      assert false;
    }
  }

  /** The nodes of the sub-DAG keep their edges, so a circle among them survives. */
  lemma {:induction false} InlineKeepsSub<Id(!new)>(nodes: Nodes<Id>, composite: Id, sub: Nodes<Id>, exits: seq<Id>)
    requires composite in nodes && NoDangling(Deps(sub)) && sub.Keys !! nodes.Keys
    requires ValidDag(Deps(Inlined(nodes, composite, sub, exits)))
    ensures ValidDag(Deps(sub))
  {
    var inner, after := Deps(sub), Deps(Inlined(nodes, composite, sub, exits));
    var rank := RankExists(after);
    var ranks := map u | u in inner :: rank[u];
    forall u, v | Edge(inner, u, v) ensures v in inner && ranks[v] < ranks[u] {
      assert composite in sub[u].deps ==> Edge(inner, u, composite);
      SubstituteAbsent(sub[u].deps, composite, exits);
      assert Edge(after, u, v);
    }
    RankedIsValid(inner, ranks);
  }

  /** Inlining does not check the sub-DAG: with unused ids the result is valid if and only if both graphs were. */
  lemma {:induction false} InlineValid<Id(!new)>(nodes: Nodes<Id>, composite: Id, sub: Nodes<Id>, exits: seq<Id>)
    requires composite in nodes && Unused(nodes, sub.Keys)
    requires sub != map[] && NoDangling(Deps(sub)) && sub.Keys !! nodes.Keys && ListsExits(Deps(sub), exits)
    ensures ValidDag(Deps(Inlined(nodes, composite, sub, exits))) <==> ValidDag(Deps(nodes)) && ValidDag(Deps(sub))
  {
    if !ValidDag(Deps(sub)) {
      if ValidDag(Deps(Inlined(nodes, composite, sub, exits))) {
        InlineKeepsSub(nodes, composite, sub, exits);
      }
    } else if composite in nodes[composite].deps {
      InlineSelf(nodes, composite, sub, exits);
    } else {
      assert Deps(sub).Keys == sub.Keys;
      InlineExpands(nodes, composite, sub, exits);
      SpliceValidIff(Deps(nodes), composite, Deps(sub), exits);
    }
  }

  // ---- What a failed validation leaves behind ----

  ghost function InvalidError<Id(!new)>(g: Graph<Id>): Error {
    if NoDangling(g) then CycleDetected else DanglingEdge
  }

  ghost function Verdict<Id(!new)>(nodes: Nodes<Id>): Outcome {
    if ValidDag(Deps(nodes)) then Ok else Err(InvalidError(Deps(nodes)))
  }

  /** Undoing the rewiring of an injection maps every use of the new id back, whoever made it. */
  function RolledBack<Id(==)>(nodes: Nodes<Id>, newId: Id, target: Id): Nodes<Id> {
    Rewired(nodes, {}, newId, [target])
  }

  /** The rollback of a failed injection restores the graph iff nobody already depended on the new id. */
  lemma {:induction false} RollbackExact<Id(!new)>(nodes: Nodes<Id>, newId: Id, target: Id)
    requires newId != target
    ensures RolledBack(nodes, newId, target) == nodes <==> forall u :: !Edge(Deps(nodes), u, newId)
  {
    if RolledBack(nodes, newId, target) == nodes {
      forall u ensures !Edge(Deps(nodes), u, newId) {
        if u in nodes {
          SubstituteMember(nodes[u].deps, newId, [target], newId);
        }
      }
    } else {
      if forall u :: !Edge(Deps(nodes), u, newId) {
        forall u | u in nodes ensures Substitute(nodes[u].deps, newId, [target]) == nodes[u].deps {
          assert !Edge(Deps(nodes), u, newId);
          SubstituteAbsent(nodes[u].deps, newId, [target]);
        }
        assert false;
      }
    }
  }

  lemma {:induction false} UndoBefore<Id(!new)>(nodes: Nodes<Id>, target: Id, n: Node<Id>)
    requires target in nodes && n.id !in nodes
    ensures var after := InjectedBefore(nodes, target, n);
      target in after && (after - {n.id})[target := after[target].(deps := nodes[target].deps)] == nodes
  {
  }

  lemma {:induction false} UndoInject<Id(!new)>(nodes: Nodes<Id>, target: Id, n: Node<Id>)
    requires target in nodes && n.id !in nodes
    ensures Rewired(InjectedAfter(nodes, target, n) - {n.id}, {}, n.id, [target]) == RolledBack(nodes, n.id, target)
  {
    forall id | id in nodes
      ensures Replace(Replace(nodes[id].deps, target, n.id), n.id, target) == Replace(nodes[id].deps, n.id, target)
      ensures Substitute(Substitute(nodes[id].deps, target, [n.id]), n.id, [target]) ==
              Substitute(nodes[id].deps, n.id, [target])
    {
      ReplaceIsSubstitute(nodes[id].deps, target, n.id);
      ReplaceIsSubstitute(nodes[id].deps, n.id, target);
      ReplaceIsSubstitute(Replace(nodes[id].deps, target, n.id), n.id, target);
    }
  }

  /** A graph that uses the new id and is broken elsewhere: the injection fails and its rollback changes the graph. */
  lemma {:induction false} RollbackLoses<Id(!new)>(t: Node<Id>, a: Node<Id>, b: Node<Id>, n: Node<Id>, m: Id)
    requires Distinct([t.id, a.id, b.id, n.id, m]) && t.deps == [] && a.deps == [n.id] && b.deps == [m]
    ensures var nodes := map[t.id := t, a.id := a, b.id := b];
      && !ValidDag(Deps(InjectedAfter(nodes, t.id, n)))
      && RolledBack(nodes, n.id, t.id) != nodes
  {
    var ids := [t.id, a.id, b.id, n.id, m];
    assert ids[0] != ids[3] && ids[1] != ids[3] && ids[2] != ids[3] && ids[0] != ids[2] && ids[1] != ids[2];
    assert ids[0] != ids[4] && ids[1] != ids[4] && ids[2] != ids[4] && ids[3] != ids[4] && ids[0] != ids[1];
    var nodes := map[t.id := t, a.id := a, b.id := b];
    var after := InjectedAfter(nodes, t.id, n);
    SubstituteMember(b.deps, t.id, [n.id], m);
    assert Edge(Deps(after), b.id, m) && m !in Deps(after);
    assert Edge(Deps(nodes), a.id, n.id);
    RollbackExact(nodes, n.id, t.id);
  }

  function NewIds<Id(==)>(branches: seq<Node<Id>>, reduce: Node<Id>): set<Id> {
    (set id | id in Ids(branches)) + {reduce.id}
  }

  /** The template as the rollback finds it: rewired like any other node, unless a new node has taken its id. */
  function TemplateLeft<Id(==)>(nodes: Nodes<Id>, template: Id, branches: seq<Node<Id>>, reduce: Node<Id>): Node<Id>
    requires template in nodes
  {
    if template in NewIds(branches, reduce) then nodes[template]
    else nodes[template].(deps := Substitute(nodes[template].deps, template, [reduce.id]))
  }

  /** A failed fan-out removes the new nodes and puts the template back; other nodes stay rewired. */
  function FanOutUndone<Id(==)>(nodes: Nodes<Id>, template: Id, branches: seq<Node<Id>>, reduce: Node<Id>): Nodes<Id>
    requires template in nodes
  {
    (FannedOut(nodes, template, branches, reduce) - NewIds(branches, reduce))
      [template := TemplateLeft(nodes, template, branches, reduce)]
  }

  lemma {:induction false} AddAllOther<Id(!new)>(nodes: Nodes<Id>, branches: seq<Node<Id>>, deps: seq<Id>, id: Id)
    requires id !in Ids(branches)
    ensures id in AddAll(nodes, branches, deps) <==> id in nodes
    ensures id in nodes ==> AddAll(nodes, branches, deps)[id] == nodes[id]
  {
    if branches != [] {
      var rest, last := branches[..|branches| - 1], branches[|branches| - 1];
      assert Ids(branches) == Ids(rest) + [last.id];
      AddAllOther(nodes, rest, deps, id);
    }
  }

  lemma {:induction false} UndoneAt<Id(!new)>(
      nodes: Nodes<Id>, template: Id, branches: seq<Node<Id>>, reduce: Node<Id>, id: Id)
    requires template in nodes
    ensures var undone := FanOutUndone(nodes, template, branches, reduce);
      && (id in undone <==> id == template || (id in nodes && id !in NewIds(branches, reduce)))
      && (id in undone && id != template ==>
            undone[id] == nodes[id].(deps := Substitute(nodes[id].deps, template, [reduce.id])))
  {
    if id !in NewIds(branches, reduce) {
      assert id !in Ids(branches);
      AddAllOther(nodes, branches, nodes[template].deps, id);
    }
  }

  /** What a caller can check beforehand: no new id is taken by another node, and nobody depends on the template. */
  ghost predicate FanOutRestorable<Id(!new)>(
      nodes: Nodes<Id>, template: Id, branches: seq<Node<Id>>, reduce: Node<Id>) {
    && (forall id :: id in NewIds(branches, reduce) && id in nodes ==> id == template)
    && (reduce.id == template || forall u ::
      Edge(Deps(nodes), u, template) ==> u == template && template in Ids(branches))
  }

  /** A failed fan-out leaves the graph as it was exactly under that condition. */
  lemma {:induction false} FanOutUndoneIff<Id(!new)>(
      nodes: Nodes<Id>, template: Id, branches: seq<Node<Id>>, reduce: Node<Id>)
    requires template in nodes
    ensures FanOutUndone(nodes, template, branches, reduce) == nodes
      <==> FanOutRestorable(nodes, template, branches, reduce)
  {
    var undone := FanOutUndone(nodes, template, branches, reduce);
    if FanOutRestorable(nodes, template, branches, reduce) {
      forall id ensures id in undone <==> id in nodes { UndoneAt(nodes, template, branches, reduce, id); }
      forall id | id in nodes ensures undone[id] == nodes[id] {
        UndoneAt(nodes, template, branches, reduce, id);
        if id != template || template !in NewIds(branches, reduce) {
          UndoneSame(nodes, template, branches, reduce, id);
        }
      }
    }
    if undone == nodes {
      forall id | id in NewIds(branches, reduce) && id in nodes ensures id == template {
        UndoneAt(nodes, template, branches, reduce, id);
      }
      if reduce.id != template {
        forall u | Edge(Deps(nodes), u, template) ensures u == template && template in Ids(branches) {
          UndoneAt(nodes, template, branches, reduce, u);
          SubstituteMember(nodes[u].deps, template, [reduce.id], template);
        }
      }
    }
  }

  lemma {:induction false} UndoneSame<Id(!new)>(
      nodes: Nodes<Id>, template: Id, branches: seq<Node<Id>>, reduce: Node<Id>, id: Id)
    requires template in nodes && FanOutRestorable(nodes, template, branches, reduce) && id in nodes
    requires id != template || template !in NewIds(branches, reduce)
    ensures Substitute(nodes[id].deps, template, [reduce.id]) == nodes[id].deps
  {
    if reduce.id == template {
      SubstituteSelf(nodes[id].deps, template);
    } else {
      assert template in nodes[id].deps ==> Edge(Deps(nodes), id, template);
      SubstituteAbsent(nodes[id].deps, template, [reduce.id]);
    }
  }

  /** On an invalid graph a fan-out with unused ids fails, and undoes itself exactly if nobody depends on the
   template. */
  lemma {:induction false} FanOutFailure<Id(!new)>(
      nodes: Nodes<Id>, template: Id, branches: seq<Node<Id>>, reduce: Node<Id>)
    requires template in nodes && FanOutFresh(nodes, branches, reduce) && !ValidDag(Deps(nodes))
    requires Unused(nodes, FanGraph(branches, reduce).Keys)
    ensures !ValidDag(Deps(FannedOut(nodes, template, branches, reduce)))
    ensures FanOutUndone(nodes, template, branches, reduce) == nodes <==> forall u :: !Edge(Deps(nodes), u, template)
  {
    FanOutValid(nodes, template, branches, reduce);
    FanOutUndoneIff(nodes, template, branches, reduce);
    forall id | id in NewIds(branches, reduce) ensures id !in nodes {
      if id in Ids(branches) {
        var i :| 0 <= i < |Ids(branches)| && Ids(branches)[i] == id;
        assert branches[i].id == id;
      }
    }
    assert template !in Ids(branches) by {
      assert template in Ids(branches) ==> template in NewIds(branches, reduce);
    }
  }

  /** A graph broken elsewhere: the fan-out fails, and what depended on the template now waits for the removed join. */
  lemma {:induction false} FanOutLoses<Id(!new)>(t: Node<Id>, a: Node<Id>, b: Node<Id>, x: Node<Id>, r: Node<Id>, m: Id)
    requires Distinct([t.id, a.id, b.id, x.id, r.id, m]) && t.deps == [] && a.deps == [t.id] && b.deps == [m]
    ensures var nodes := map[t.id := t, a.id := a, b.id := b];
      && !ValidDag(Deps(FannedOut(nodes, t.id, [x], r)))
      && FanOutUndone(nodes, t.id, [x], r) != nodes
  {
    var nodes, ids := map[t.id := t, a.id := a, b.id := b], [t.id, a.id, b.id, x.id, r.id, m];
    assert forall i, j :: 0 <= i < j < |ids| ==> ids[i] != ids[j];
    assert ids[0] != ids[1] && ids[0] != ids[2] && ids[1] != ids[2];
    assert ids[3] !in ids[..3] && ids[4] !in ids[..4] && ids[5] !in ids[..5];
    assert Edge(Deps(nodes), b.id, m) && m !in Deps(nodes);
    assert Edge(Deps(nodes), a.id, t.id);
    assert Ids([x]) == [x.id];
    FanOutFailure(nodes, t.id, [x], r);
  }

  /** A failed inlining puts the composite back and leaves the rest: copied nodes stay, dependencies stay rewired. */
  function InlineUndone<Id(==)>(nodes: Nodes<Id>, composite: Id, sub: Nodes<Id>, exits: seq<Id>): Nodes<Id>
    requires composite in nodes
  {
    Inlined(nodes, composite, sub, exits)[composite := nodes[composite]]
  }

  /** With ids of its own, a failed inlining never undoes itself: every node of the sub-DAG stays behind. */
  lemma {:induction false} InlineFailure<Id(!new)>(nodes: Nodes<Id>, composite: Id, sub: Nodes<Id>, exits: seq<Id>)
    requires composite in nodes && sub != map[] && sub.Keys !! nodes.Keys
    ensures InlineUndone(nodes, composite, sub, exits).Keys == nodes.Keys + sub.Keys
    ensures InlineUndone(nodes, composite, sub, exits) != nodes
  {
    var id :| id in sub;
    assert id in InlineUndone(nodes, composite, sub, exits) && id !in nodes;
  }

  /** A copied node as it ends up in the parent. */
  function Copied<Id(==)>(upstream: seq<Id>, composite: Id, n: Node<Id>, exits: seq<Id>): Node<Id> {
    n.(deps := Substitute(if n.deps == [] then upstream else n.deps, composite, exits))
  }

  /**
   What a caller can check beforehand: the parent already has every copied node as it would be copied, and no
   other node depends on the composite, unless the composite is the only exit.
   */
  ghost predicate InlineRestorable<Id(!new)>(nodes: Nodes<Id>, composite: Id, sub: Nodes<Id>, exits: seq<Id>)
    requires composite in nodes
  {
    && (forall id :: id in sub && id != composite ==>
      id in nodes && nodes[id] == Copied(nodes[composite].deps, composite, sub[id], exits))
    && (exits == [composite] || forall u :: Edge(Deps(nodes), u, composite) ==> u == composite || u in sub)
  }

  /** A failed inlining leaves the graph as it was exactly under that condition. */
  lemma {:induction false} InlineUndoneIff<Id(!new)>(nodes: Nodes<Id>, composite: Id, sub: Nodes<Id>, exits: seq<Id>)
    requires composite in nodes
    ensures InlineUndone(nodes, composite, sub, exits) == nodes <==> InlineRestorable(nodes, composite, sub, exits)
  {
    var undone := InlineUndone(nodes, composite, sub, exits);
    forall id | id in nodes && id != composite && id !in sub
      ensures undone[id] == nodes[id] <==> exits == [composite] || composite !in nodes[id].deps
    {
      SubstituteSame(nodes[id].deps, composite, exits);
    }
    if InlineRestorable(nodes, composite, sub, exits) {
      assert undone.Keys == nodes.Keys;
      forall id | id in nodes ensures undone[id] == nodes[id] {
        assert composite in nodes[id].deps ==> Edge(Deps(nodes), id, composite);
      }
    }
    if undone == nodes {
      forall id | id in sub && id != composite
        ensures id in nodes && nodes[id] == Copied(nodes[composite].deps, composite, sub[id], exits)
      {
        assert id in undone;
      }
      assert InlineRestorable(nodes, composite, sub, exits);
    }
  }

  lemma {:induction false} SelfLoop<Id(!new)>(x: Node<Id>)
    requires x.deps == [x.id]
    ensures NoDangling(Deps(map[x.id := x])) && ListsExits(Deps(map[x.id := x]), []) && !ValidDag(Deps(map[x.id := x]))
  {
    assert Edge(Deps(map[x.id := x]), x.id, x.id);
    LoopInvalid(Deps(map[x.id := x]), x.id, x.id);
  }

  lemma {:induction false} InlineLeftAt<Id(!new)>(
      nodes: Nodes<Id>, composite: Id, sub: Nodes<Id>, exits: seq<Id>, id: Id)
    requires composite in nodes && id in nodes && id !in sub && id != composite
    ensures id in InlineUndone(nodes, composite, sub, exits)
    ensures InlineUndone(nodes, composite, sub, exits)[id].deps == Substitute(nodes[id].deps, composite, exits)
  {
  }

  /** A valid graph and a sub-DAG that waits for itself: inlining fails, and a dependency on the composite is lost. */
  lemma {:induction false} InlineLoses<Id(!new)>(c: Node<Id>, d: Node<Id>, x: Node<Id>)
    requires Distinct([c.id, d.id, x.id]) && c.deps == [] && d.deps == [c.id] && x.deps == [x.id]
    ensures var nodes, sub := map[c.id := c, d.id := d], map[x.id := x];
      && ValidDag(Deps(nodes)) && ListsExits(Deps(sub), [])
      && !ValidDag(Deps(Inlined(nodes, c.id, sub, [])))
      && x.id in InlineUndone(nodes, c.id, sub, [])
      && d.id in InlineUndone(nodes, c.id, sub, []) && InlineUndone(nodes, c.id, sub, [])[d.id].deps == []
  {
    var nodes, sub, ids := map[c.id := c, d.id := d], map[x.id := x], [c.id, d.id, x.id];
    assert ids[0] != ids[1] && ids[0] != ids[2] && ids[1] != ids[2];
    RankedIsValid(Deps(nodes), map[c.id := 0, d.id := 1]);
    SelfLoop(x);
    InlineLeftAt(nodes, c.id, sub, [], d.id);
    assert Substitute(d.deps, c.id, []) == [];
    if ValidDag(Deps(Inlined(nodes, c.id, sub, []))) {
      InlineKeepsSub(nodes, c.id, sub, []);
    }
  }

  // ---- From a valid graph, with fresh ids, nothing fails ----

  lemma {:induction false} InjectBeforeWorks<Id(!new)>(nodes: Nodes<Id>, target: Id, n: Node<Id>)
    requires target in nodes && n.id !in nodes && ValidDag(Deps(nodes))
    ensures ValidDag(Deps(InjectedBefore(nodes, target, n)))
  {
    InjectBeforeOrder(nodes, target, n, Deps(InjectedBefore(nodes, target, n)));
  }

  lemma {:induction false} InjectAfterWorks<Id(!new)>(nodes: Nodes<Id>, target: Id, n: Node<Id>)
    requires target in nodes && n.id !in nodes && ValidDag(Deps(nodes))
    ensures ValidDag(Deps(InjectedAfter(nodes, target, n)))
  {
    InjectAfterOrder(nodes, target, n, Deps(InjectedAfter(nodes, target, n)));
  }

  lemma {:induction false} FanOutWorks<Id(!new)>(
      nodes: Nodes<Id>, template: Id, branches: seq<Node<Id>>, reduce: Node<Id>)
    requires template in nodes && FanOutFresh(nodes, branches, reduce) && ValidDag(Deps(nodes))
    ensures ValidDag(Deps(FannedOut(nodes, template, branches, reduce)))
  {
    FanOutOrder(nodes, template, branches, reduce, Deps(FannedOut(nodes, template, branches, reduce)));
  }

  ghost predicate Inlinable<Id(!new)>(nodes: Nodes<Id>, composite: Id, sub: Nodes<Id>) {
    composite in nodes && ValidDag(Deps(nodes)) && sub != map[] && ValidDag(Deps(sub)) && sub.Keys !! nodes.Keys
  }

  lemma {:induction false} InlineWorks<Id(!new)>(nodes: Nodes<Id>, composite: Id, sub: Nodes<Id>, exits: seq<Id>)
    requires composite in nodes && ListsExits(Deps(sub), exits)
    ensures Inlinable(nodes, composite, sub) ==> Verdict(Inlined(nodes, composite, sub, exits)).Ok?
  {
    if Inlinable(nodes, composite, sub) {
      InlineOrder(nodes, composite, sub, exits, Deps(Inlined(nodes, composite, sub, exits)));
    }
  }

  // ---- The mutable graph ----

  /** `ids` come from any type with a total order; in the program they are strings, compared by `<`. */
  class DAG<Id(==,!new)> {
    const less: (Id, Id) -> bool
    var nodes: Nodes<Id>

    ghost predicate Valid()
      reads this
    {
      Sorting.TotalOrder(less) && KeyedById(nodes)
    }

    constructor (less: (Id, Id) -> bool)
      requires Sorting.TotalOrder(less)
      ensures Valid() && nodes == map[] && this.less == less
    {
      this.less := less;
      nodes := map[];
    }

    method AddNode(n: Node<Id>) returns (r: Outcome)
      requires Valid()
      modifies this
      ensures Valid()
      ensures r == if n.id in old(nodes) then Err(NodeAlreadyExists) else Ok
      ensures nodes == if n.id in old(nodes) then old(nodes) else old(nodes)[n.id := n]
    {
      if n.id in nodes {
        return Err(NodeAlreadyExists);
      }
      nodes := nodes[n.id := n];
      r := Ok;
    }

    method TopologicalSort() returns (r: SortOutcome<Id>)
      requires Valid()
      ensures r.Sorted? <==> ValidDag(Deps(nodes))
      ensures r.Unsorted? ==> r.error == if NoDangling(Deps(nodes)) then CycleDetected else DanglingEdge
      ensures r.Sorted? ==> Kahn.IsOrder(Deps(nodes), r.ids)
      ensures r.Sorted? ==> forall o :: Kahn.IsOrder(Deps(nodes), o) ==> Kahn.LexLe(less, r.ids, o)
    {
      var s := Kahn.Sort(less, Deps(nodes));
      match s
      case Order(ids) => r := Sorted(ids);
      case Failed(e) => r := Unsorted(if e.DanglingEdge? then DanglingEdge else CycleDetected);
    }

    method Validate() returns (r: Outcome)
      requires Valid()
      ensures r == Verdict(nodes)
    {
      var s := TopologicalSort();
      r := if s.Sorted? then Ok else Err(s.error);
    }

    /** The target now depends solely on the new node, which inherits its dependencies. */
    method InjectBefore(target: Id, n: Node<Id>) returns (r: Outcome)
      requires Valid()
      modifies this
      ensures Valid()
      ensures target !in old(nodes) ==> r == Err(NodeNotFound) && nodes == old(nodes)
      ensures target in old(nodes) && n.id in old(nodes) ==> r == Err(NodeAlreadyExists) && nodes == old(nodes)
      ensures target in old(nodes) && n.id !in old(nodes) ==>
        && r == Verdict(InjectedBefore(old(nodes), target, n))
        && nodes == if r.Ok? then InjectedBefore(old(nodes), target, n) else old(nodes)
      ensures target in old(nodes) && n.id !in old(nodes) && ValidDag(Deps(old(nodes))) ==> r.Ok?
    {
      if target !in nodes {
        return Err(NodeNotFound);
      }
      if n.id in nodes {
        return Err(NodeAlreadyExists);
      }
      if ValidDag(Deps(nodes)) {
        InjectBeforeWorks(nodes, target, n);
      }
      UndoBefore(nodes, target, n);
      var origDeps := nodes[target].deps;
      nodes := nodes[n.id := n.(deps := origDeps)];
      nodes := nodes[target := nodes[target].(deps := [n.id])];
      assert nodes == InjectedBefore(old(nodes), target, n);
      r := Validate();
      if r.Err? {
        nodes := nodes - {n.id};
        nodes := nodes[target := nodes[target].(deps := origDeps)];
      }
    }

    /** Overwrites `from` by `to` in the dependency list of every node outside `skip`, one slot at a time. */
    method Rewire(skip: set<Id>, from: Id, to: Id)
      requires Valid()
      modifies this
      ensures Valid() && nodes == Rewired(old(nodes), skip, from, [to])
    {
      var todo := nodes.Keys;
      while todo != {}
        invariant todo <= nodes.Keys == old(nodes).Keys
        invariant forall id :: id in nodes ==>
          nodes[id] == if id in todo then old(nodes)[id] else Rewired(old(nodes), skip, from, [to])[id]
        decreases todo
      {
        var id :| id in todo;
        if id !in skip {
          var deps := nodes[id].deps;
          for i := 0 to |deps|
            invariant |deps| == |nodes[id].deps|
            invariant forall j :: 0 <= j < |deps| ==>
              deps[j] == if j < i && nodes[id].deps[j] == from then to else nodes[id].deps[j]
          {
            if deps[i] == from {
              deps := deps[i := to];
            }
          }
          assert deps == Replace(nodes[id].deps, from, to);
          ReplaceIsSubstitute(nodes[id].deps, from, to);
          nodes := nodes[id := nodes[id].(deps := deps)];
        }
        todo := todo - {id};
      }
    }

    /** The new node depends on `target`; whatever depended on `target` now depends on the new node. */
    method InjectAfter(target: Id, n: Node<Id>) returns (r: Outcome)
      requires Valid()
      modifies this
      ensures Valid()
      ensures target !in old(nodes) ==> r == Err(NodeNotFound) && nodes == old(nodes)
      ensures target in old(nodes) && n.id in old(nodes) ==> r == Err(NodeAlreadyExists) && nodes == old(nodes)
      ensures target in old(nodes) && n.id !in old(nodes) ==>
        && r == Verdict(InjectedAfter(old(nodes), target, n))
        && nodes == if r.Ok? then InjectedAfter(old(nodes), target, n) else RolledBack(old(nodes), n.id, target)
      ensures target in old(nodes) && n.id !in old(nodes) && ValidDag(Deps(old(nodes))) ==> r.Ok?
    {
      if target !in nodes {
        return Err(NodeNotFound);
      }
      if n.id in nodes {
        return Err(NodeAlreadyExists);
      }
      if ValidDag(Deps(nodes)) {
        InjectAfterWorks(nodes, target, n);
      }
      nodes := nodes[n.id := n.(deps := [target])];
      Rewire({n.id, target}, target, n.id);
      r := Validate();
      if r.Err? {
        nodes := nodes - {n.id};
        Rewire({}, n.id, target);
        UndoInject(old(nodes), target, n);
      }
    }

    /** Replaces `template` by one node per branch, all before the join node `reduce`. */
    method ExpandFanOut(template: Id, count: int, branchFactory: nat -> Node<Id>, reduce: Node<Id>)
      returns (r: Outcome)
      requires Valid()
      modifies this
      ensures Valid()
      ensures count <= 0 ==> r == Err(BadCount) && nodes == old(nodes)
      ensures count > 0 && template !in old(nodes) ==> r == Err(NodeNotFound) && nodes == old(nodes)
      ensures count > 0 && template in old(nodes) ==>
        var branches := seq(count, branchFactory);
        && r == Verdict(FannedOut(old(nodes), template, branches, reduce))
        && nodes == if r.Ok? then FannedOut(old(nodes), template, branches, reduce)
                    else FanOutUndone(old(nodes), template, branches, reduce)
      ensures
        && count > 0 && template in old(nodes) && ValidDag(Deps(old(nodes)))
        && FanOutFresh(old(nodes), seq(count, branchFactory), reduce)
        ==> r.Ok?
    {
      if count <= 0 {
        return Err(BadCount);
      }
      if template !in nodes {
        return Err(NodeNotFound);
      }
      var branches := seq(count, branchFactory);
      if ValidDag(Deps(nodes)) && FanOutFresh(nodes, branches, reduce) {
        FanOutWorks(nodes, template, branches, reduce);
      }
      var placeholder := FanOut(template, branches, reduce);
      r := Validate();
      if r.Err? {
        nodes := nodes - {reduce.id};
        nodes := nodes - set id | id in Ids(branches);
        nodes := nodes[template := placeholder];
        UndoneInSteps(old(nodes), template, branches, reduce);
      }
    }

    /**
     Inserts branches and join, rewires what depended on the template and deletes it. The result is the
     template node, whose own list is rewired too while it is part of the graph.
     */
    method FanOut(template: Id, branches: seq<Node<Id>>, reduce: Node<Id>) returns (placeholder: Node<Id>)
      requires Valid() && template in nodes
      modifies this
      ensures Valid() && nodes == FannedOut(old(nodes), template, branches, reduce)
      ensures placeholder == TemplateLeft(old(nodes), template, branches, reduce)
    {
      placeholder := nodes[template];
      var upstream := placeholder.deps;
      for i := 0 to |branches|
        invariant Valid() && nodes == AddAll(old(nodes), branches[..i], upstream)
      {
        assert branches[..i + 1][..i] == branches[..i];
        nodes := nodes[branches[i].id := branches[i].(deps := upstream)];
      }
      assert branches[..|branches|] == branches;
      nodes := nodes[reduce.id := reduce.(deps := Ids(branches))];
      var present := template !in Ids(branches) && template != reduce.id;
      if present {
        AddAllOther(old(nodes), branches, upstream, template);
      }
      Rewire({reduce.id}, template, reduce.id);
      if present {
        placeholder := nodes[template];
      }
      nodes := nodes - {template};
    }

    /** Lists the nodes of a graph without dependencies, and those nothing depends on. */
    static method RootsAndExits(sub: Nodes<Id>) returns (roots: seq<Id>, exits: seq<Id>)
      ensures forall id :: id in roots <==> id in sub && sub[id].deps == []
      ensures Distinct(roots) && Distinct(exits) && ListsExits(Deps(sub), exits)
    {
      var hasOutgoing: set<Id> := {};
      var todo := sub.Keys;
      while todo != {}
        invariant todo <= sub.Keys
        invariant forall d :: d in hasOutgoing <==> exists id :: id !in todo && Edge(Deps(sub), id, d)
        decreases todo
      {
        var id :| id in todo;
        hasOutgoing := hasOutgoing + set d | d in sub[id].deps;
        todo := todo - {id};
      }
      assert forall d :: d in hasOutgoing <==> exists id :: Edge(Deps(sub), id, d);
      roots, exits := [], [];
      todo := sub.Keys;
      while todo != {}
        invariant todo <= sub.Keys
        invariant Distinct(roots) && Distinct(exits)
        invariant forall id :: id in roots <==> id in sub.Keys - todo && sub[id].deps == []
        invariant forall id :: id in exits <==> id in sub.Keys - todo && id !in hasOutgoing
        decreases todo
      {
        var id :| id in todo;
        if |sub[id].deps| == 0 {
          roots := roots + [id];
        }
        if id !in hasOutgoing {
          exits := exits + [id];
        }
        todo := todo - {id};
      }
    }

    /**
     Expands `composite` into the nodes of `sub`. `exits` is the order in which the exit nodes were
     listed, which the program leaves open.
     */
    method InlineSubDAG(composite: Id, sub: DAG<Id>) returns (r: Outcome, ghost exits: seq<Id>)
      requires Valid() && sub.Valid() && sub != this
      modifies this
      ensures Valid() && ListsExits(Deps(sub.nodes), exits)
      ensures composite !in old(nodes) ==> r == Err(NodeNotFound) && nodes == old(nodes)
      ensures composite in old(nodes) && sub.nodes == map[] ==> r == Err(EmptySubDag) && nodes == old(nodes)
      ensures composite in old(nodes) && sub.nodes != map[] ==>
        && r == Verdict(Inlined(old(nodes), composite, sub.nodes, exits))
        && nodes == if r.Ok? then Inlined(old(nodes), composite, sub.nodes, exits)
                    else InlineUndone(old(nodes), composite, sub.nodes, exits)
      ensures Inlinable(old(nodes), composite, sub.nodes) ==> r.Ok?
    {
      var subRoots, subExits := RootsAndExits(sub.nodes);
      exits := subExits;
      if composite !in nodes {
        return Err(NodeNotFound), exits;
      }
      if |sub.nodes| == 0 {
        return Err(EmptySubDag), exits;
      }
      InlineWorks(nodes, composite, sub.nodes, exits);
      var removed := nodes[composite];
      AttachSub(sub.nodes, subRoots, removed.deps);
      RewireToExits(composite, subExits);
      nodes := nodes - {composite};
      r := Validate();
      if r.Err? {
        nodes := nodes[composite := removed];
      }
    }

    /** Copies the sub-DAG in and connects the composite's upstream to its roots. */
    method AttachSub(sub: Nodes<Id>, roots: seq<Id>, upstream: seq<Id>)
      requires Valid() && KeyedById(sub)
      requires forall id :: id in roots <==> id in sub && sub[id].deps == []
      requires Distinct(roots)
      modifies this
      ensures Valid() && nodes == Rooted(old(nodes), sub, upstream)
    {
      nodes := nodes + sub;
      assert nodes == RootedSome(old(nodes), sub, [], upstream);
      for i := 0 to |roots|
        invariant nodes == RootedSome(old(nodes), sub, roots[..i], upstream)
      {
        RootStep(old(nodes), sub, roots, i, upstream);
        var root := roots[i];
        nodes := nodes[root := nodes[root].(deps := nodes[root].deps + upstream)];
      }
      assert roots[..|roots|] == roots;
      AllRooted(old(nodes), sub, roots, upstream);
    }

    /** Rebuilds every other dependency list with the exits in place of the composite. */
    method RewireToExits(composite: Id, exits: seq<Id>)
      requires Valid()
      modifies this
      ensures Valid() && nodes == Rewired(old(nodes), {composite}, composite, exits)
    {
      var todo := nodes.Keys;
      while todo != {}
        invariant todo <= nodes.Keys == old(nodes).Keys
        invariant forall id :: id in nodes ==>
          nodes[id] == if id in todo then old(nodes)[id] else Rewired(old(nodes), {composite}, composite, exits)[id]
        decreases todo
      {
        var id :| id in todo;
        if id != composite {
          var deps, newDeps := nodes[id].deps, [];
          for i := 0 to |deps|
            modifies {}
            invariant newDeps == Substitute(deps[..i], composite, exits)
          {
            SubstituteSnoc(deps[..i], deps[i], composite, exits);
            assert deps[..i + 1] == deps[..i] + [deps[i]];
            newDeps := newDeps + if deps[i] == composite then exits else [deps[i]];
          }
          assert deps[..|deps|] == deps;
          nodes := nodes[id := nodes[id].(deps := newDeps)];
        }
        todo := todo - {id};
      }
    }
  }

  /** The copied sub-DAG once the roots listed in `done` are connected upstream. */
  ghost function RootedSome<Id(!new)>(nodes: Nodes<Id>, sub: Nodes<Id>, done: seq<Id>, upstream: seq<Id>): Nodes<Id> {
    map id | id in nodes.Keys + sub.Keys ::
      if id !in sub then nodes[id] else if id in done then sub[id].(deps := upstream) else sub[id]
  }

  lemma {:induction false} RootStep<Id(!new)>(
      nodes: Nodes<Id>, sub: Nodes<Id>, roots: seq<Id>, i: nat, upstream: seq<Id>)
    requires i < |roots| && Distinct(roots) && roots[i] in sub && sub[roots[i]].deps == []
    ensures var before, root := RootedSome(nodes, sub, roots[..i], upstream), roots[i];
      && root in before
      && before[root := before[root].(deps := before[root].deps + upstream)]
        == RootedSome(nodes, sub, roots[..i + 1], upstream)
  {
    assert roots[i] !in roots[..i];
    assert [] + upstream == upstream;
    assert roots[..i + 1] == roots[..i] + [roots[i]];
  }

  lemma {:induction false} AllRooted<Id(!new)>(nodes: Nodes<Id>, sub: Nodes<Id>, roots: seq<Id>, upstream: seq<Id>)
    requires forall id :: id in roots <==> id in sub && sub[id].deps == []
    ensures RootedSome(nodes, sub, roots, upstream) == Rooted(nodes, sub, upstream)
  {
  }

  lemma {:induction false} UndoneInSteps<Id(!new)>(
      nodes: Nodes<Id>, template: Id, branches: seq<Node<Id>>, reduce: Node<Id>)
    requires template in nodes
    ensures FannedOut(nodes, template, branches, reduce) - {reduce.id} - (set id | id in Ids(branches)) ==
            FannedOut(nodes, template, branches, reduce) - NewIds(branches, reduce)
  {
  }
}
