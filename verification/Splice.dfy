/**
 Replacing one node of a DAG by a whole sub-DAG. Every structural operation of the graph mutator
 is an instance: see GraphMutator. The main theorem says exactly which order relations hold afterwards.
 */
module Splice {
  import opened Digraph

  /** `s` with each occurrence of `c` replaced by the list `repl`. */
  function Substitute<T(==)>(s: seq<T>, c: T, repl: seq<T>): seq<T> {
    if s == [] then [] else (if s[0] == c then repl else [s[0]]) + Substitute(s[1..], c, repl)
  }

  lemma {:induction false} SubstituteMember<T(!new)>(s: seq<T>, c: T, repl: seq<T>, x: T)
    ensures x in Substitute(s, c, repl) <==> (x in s && x != c) || (c in s && x in repl)
  {
    if s != [] {
      SubstituteMember(s[1..], c, repl, x);
      assert forall y :: y in s <==> y == s[0] || y in s[1..];
    }
  }

  lemma {:induction false} SubstituteSnoc<T(!new)>(s: seq<T>, x: T, c: T, repl: seq<T>)
    ensures Substitute(s + [x], c, repl) == Substitute(s, c, repl) + (if x == c then repl else [x])
  {
    var last := if x == c then repl else [x];
    if s == [] {
      assert s + [x] == [x];
      assert last + [] == last;
    } else {
      var first := if s[0] == c then repl else [s[0]];
      SubstituteSnoc(s[1..], x, c, repl);
      assert (s + [x])[1..] == s[1..] + [x];
      assert first + (Substitute(s[1..], c, repl) + last) == (first + Substitute(s[1..], c, repl)) + last;
    }
  }

  lemma {:induction false} SubstituteAbsent<T(!new)>(s: seq<T>, c: T, repl: seq<T>)
    requires c !in s
    ensures Substitute(s, c, repl) == s
  {
    if s != [] {
      SubstituteAbsent(s[1..], c, repl);
    }
  }

  lemma {:induction false} SubstituteLength<T(!new)>(s: seq<T>, c: T, repl: seq<T>)
    ensures repl == [] ==> |Substitute(s, c, repl)| <= |s|
    ensures repl == [] && c in s ==> |Substitute(s, c, repl)| < |s|
    ensures |repl| >= 1 ==> |Substitute(s, c, repl)| >= |s|
    ensures |repl| >= 2 && c in s ==> |Substitute(s, c, repl)| > |s|
  {
    if s != [] {
      SubstituteLength(s[1..], c, repl);
    }
  }

  lemma {:induction false} SubstituteItself<T(!new)>(s: seq<T>, c: T)
    ensures Substitute(s, c, [c]) == s
  {
    if s != [] {
      SubstituteItself(s[1..], c);
    }
  }

  /** Substituting changes nothing exactly when there is nothing to replace or the replacement is the same. */
  lemma {:induction false} SubstituteSame<T(!new)>(s: seq<T>, c: T, repl: seq<T>)
    ensures Substitute(s, c, repl) == s <==> c !in s || repl == [c]
  {
    if c !in s {
      SubstituteAbsent(s, c, repl);
    } else {
      SubstituteItself(s, c);
      SubstituteLength(s, c, repl);
      SubstituteMember(s, c, repl, c);
    }
  }

  /** Nothing in the graph depends on `u`. */
  ghost predicate IsExit<T(!new)>(g: Graph<T>, u: T) {
    u in g && forall v :: !Edge(g, v, u)
  }

  ghost predicate ListsExits<T(!new)>(g: Graph<T>, exits: seq<T>) {
    forall u :: u in exits <==> IsExit(g, u)
  }

  /**
   `g` with the node `c` replaced by the graph `sub`: nodes of `sub` without dependencies take over
   those of `c`, and whatever depended on `c` depends on `exits`. `c` itself may be a node of `sub`.
   */
  function Expand<T(==)>(g: Graph<T>, c: T, sub: Graph<T>, exits: seq<T>): Graph<T>
    requires c in g
  {
    map u | u in g.Keys - {c} + sub.Keys ::
      if u in sub then (if sub[u] == [] then g[c] else sub[u]) else Substitute(g[u], c, exits)
  }

  ghost predicate Spliceable<T(!new)>(g: Graph<T>, c: T, sub: Graph<T>, exits: seq<T>) {
    && ValidDag(g) && c in g
    && ValidDag(sub) && sub.Keys != {} && sub.Keys !! (g.Keys - {c})
    && ListsExits(sub, exits)
  }

  /** The node of the original graph that a node of the expanded graph stands for. */
  function Origin<T(==)>(c: T, sub: Graph<T>, u: T): T {
    if u in sub then c else u
  }

  /** Which edges the expanded graph has. */
  lemma {:induction false} ExpandEdge<T(!new)>(g: Graph<T>, c: T, sub: Graph<T>, exits: seq<T>, a: T, b: T)
    requires Spliceable(g, c, sub, exits)
    requires a in Expand(g, c, sub, exits)
    ensures Edge(Expand(g, c, sub, exits), a, b) <==>
      if a in sub then (if b in sub then Edge(sub, a, b) else sub[a] == [] && Edge(g, c, b))
      else (if b in sub then Edge(g, a, c) && IsExit(sub, b) else Edge(g, a, b) && b != c)
  {
    if a in sub {
      assert Edge(sub, a, b) ==> b in sub;
      if Edge(g, c, b) {
        ReachEdge(g, c, b);
        assert b != c && b in g;
      }
    } else {
      SubstituteMember(g[a], c, exits, b);
      assert Edge(g, a, b) ==> b in g;
    }
  }

  lemma {:induction false} LiftSteps<T(!new)>(g: Graph<T>, c: T, sub: Graph<T>, exits: seq<T>, a: T, b: T, n: nat)
    requires Spliceable(g, c, sub, exits) && a in sub && Steps(sub, a, b, n)
    ensures Steps(Expand(g, c, sub, exits), a, b, n)
    decreases n
  {
    if n > 0 {
      var w :| Edge(sub, a, w) && Steps(sub, w, b, n - 1);
      ExpandEdge(g, c, sub, exits, a, w);
      LiftSteps(g, c, sub, exits, w, b, n - 1);
    }
  }

  /** From every node a node without dependencies is reached. */
  lemma {:induction false} ToRoot<T(!new)>(sub: Graph<T>, rank: map<T, nat>, a: T) returns (r: T, n: nat)
    requires Ranks(sub, rank) && a in sub
    ensures r in sub && sub[r] == [] && Steps(sub, a, r, n)
    decreases rank[a]
  {
    if sub[a] == [] {
      return a, 0;
    }
    assert Edge(sub, a, sub[a][0]);
    r, n := ToRoot(sub, rank, sub[a][0]);
    n := n + 1;
  }

  /** Every node is reached from an exit. */
  lemma {:induction false} FromExit<T(!new)>(sub: Graph<T>, rank: map<T, nat>, b: T) returns (e: T, n: nat)
    requires Ranks(sub, rank) && b in sub && forall u :: u in rank ==> rank[u] < |sub|
    ensures IsExit(sub, e) && Steps(sub, e, b, n)
    decreases |sub| - rank[b]
  {
    if IsExit(sub, b) {
      return b, 0;
    }
    var v :| Edge(sub, v, b);
    e, n := FromExit(sub, rank, v);
    assert Steps(sub, b, b, 0) && Steps(sub, v, b, 1);
    StepsTrans(sub, e, v, b, n, 1);
    n := n + 1;
  }

  /** One edge of `g` becomes a path between all nodes that stand for its ends. */
  lemma {:induction false} LiftEdge<T(!new)>(g: Graph<T>, c: T, sub: Graph<T>, exits: seq<T>, a: T, b: T)
    requires Spliceable(g, c, sub, exits)
    requires a in Expand(g, c, sub, exits) && b in Expand(g, c, sub, exits)
    requires Edge(g, Origin(c, sub, a), Origin(c, sub, b))
    ensures Reach(Expand(g, c, sub, exits), a, b)
  {
    var h := Expand(g, c, sub, exits);
    var rank := RankExists(sub);
    ReachEdge(g, Origin(c, sub, a), Origin(c, sub, b));
    if a in sub {
      var r, n := ToRoot(sub, rank, a);
      LiftSteps(g, c, sub, exits, a, r, n);
      ExpandEdge(g, c, sub, exits, r, b);
      assert Steps(h, b, b, 0) && Steps(h, r, b, 1);
      StepsTrans(h, a, r, b, n, 1);
    } else if b in sub {
      var e, n := FromExit(sub, rank, b);
      LiftSteps(g, c, sub, exits, e, b, n);
      ExpandEdge(g, c, sub, exits, a, e);
      assert Steps(h, a, b, n + 1);
    } else {
      ExpandEdge(g, c, sub, exits, a, b);
      ReachEdge(h, a, b);
    }
  }

  lemma {:induction false} LiftPath<T(!new)>(g: Graph<T>, c: T, sub: Graph<T>, exits: seq<T>, a: T, b: T, n: nat)
    requires Spliceable(g, c, sub, exits) && n >= 1
    requires a in Expand(g, c, sub, exits) && b in Expand(g, c, sub, exits)
    requires Steps(g, Origin(c, sub, a), Origin(c, sub, b), n)
    ensures Reach(Expand(g, c, sub, exits), a, b)
    decreases n
  {
    var w :| Edge(g, Origin(c, sub, a), w) && Steps(g, w, Origin(c, sub, b), n - 1);
    if n == 1 {
      LiftEdge(g, c, sub, exits, a, b);
    } else {
      var m: T;
      if w == c {
        m :| m in sub;
      } else {
        m := w;
      }
      LiftEdge(g, c, sub, exits, a, m);
      LiftPath(g, c, sub, exits, m, b, n - 1);
      ReachTrans(Expand(g, c, sub, exits), a, m, b);
    }
  }

  /** What the order between two nodes of the expanded graph is, read off the two original graphs. */
  ghost predicate SplicedReach<T(!new)>(g: Graph<T>, c: T, sub: Graph<T>, a: T, b: T) {
    if a in sub && b in sub then Reach(sub, a, b) else Reach(g, Origin(c, sub, a), Origin(c, sub, b))
  }

  lemma {:induction false} ProjectPath<T(!new)>(g: Graph<T>, c: T, sub: Graph<T>, exits: seq<T>, a: T, b: T, n: nat)
    requires Spliceable(g, c, sub, exits) && n >= 1 && Steps(Expand(g, c, sub, exits), a, b, n)
    ensures b in Expand(g, c, sub, exits)
    ensures (a in sub && b in sub && Reach(sub, a, b)) || Reach(g, Origin(c, sub, a), Origin(c, sub, b))
    decreases n
  {
    var h := Expand(g, c, sub, exits);
    var w :| Edge(h, a, w) && Steps(h, w, b, n - 1);
    ExpandEdge(g, c, sub, exits, a, w);
    var inside := a in sub && w in sub;
    if inside {
      ReachEdge(sub, a, w);
    } else {
      assert Edge(g, Origin(c, sub, a), Origin(c, sub, w));
      ReachEdge(g, Origin(c, sub, a), Origin(c, sub, w));
    }
    if n > 1 {
      ProjectPath(g, c, sub, exits, w, b, n - 1);
      if inside && b in sub && Reach(sub, w, b) {
        ReachTrans(sub, a, w, b);
      } else if !inside && Reach(g, Origin(c, sub, w), Origin(c, sub, b)) {
        ReachTrans(g, Origin(c, sub, a), Origin(c, sub, w), Origin(c, sub, b));
      }
    }
  }

  /**
   The order after splicing is exactly that of `sub` inside, that of `g` outside, and every node of
   `sub` sits where `c` sat.
   */
  lemma {:induction false} SpliceOrder<T(!new)>(g: Graph<T>, c: T, sub: Graph<T>, exits: seq<T>, a: T, b: T)
    requires Spliceable(g, c, sub, exits)
    requires a in Expand(g, c, sub, exits) && b in Expand(g, c, sub, exits)
    ensures Reach(Expand(g, c, sub, exits), a, b) <==> SplicedReach(g, c, sub, a, b)
  {
    var h := Expand(g, c, sub, exits);
    if Reach(h, a, b) {
      var n: nat :| n >= 1 && Steps(h, a, b, n);
      ProjectPath(g, c, sub, exits, a, b, n);
    } else if a in sub && b in sub {
      if Reach(sub, a, b) {
        var n: nat :| n >= 1 && Steps(sub, a, b, n);
        LiftSteps(g, c, sub, exits, a, b, n);
      }
    } else if Reach(g, Origin(c, sub, a), Origin(c, sub, b)) {
      var n: nat :| n >= 1 && Steps(g, Origin(c, sub, a), Origin(c, sub, b), n);
      LiftPath(g, c, sub, exits, a, b, n);
    }
  }

  lemma {:induction false} SpliceValid<T(!new)>(g: Graph<T>, c: T, sub: Graph<T>, exits: seq<T>)
    requires Spliceable(g, c, sub, exits)
    ensures ValidDag(Expand(g, c, sub, exits))
  {
    var h := Expand(g, c, sub, exits);
    forall a, b | Edge(h, a, b) ensures b in h {
      ExpandEdge(g, c, sub, exits, a, b);
      assert Edge(g, a, b) ==> b in g;
      assert Edge(g, c, b) ==> b in g && (b == c ==> Reach(g, c, c)) by {
        if Edge(g, c, b) { ReachEdge(g, c, b); }
      }
    }
    forall a ensures !Reach(h, a, a) {
      if Reach(h, a, a) {
        var n: nat :| n >= 1 && Steps(h, a, a, n);
        ProjectPath(g, c, sub, exits, a, a, n);
      }
    }
  }

  /** The whole theorem: the result is a valid DAG with exactly the spliced order. */
  lemma {:induction false} SpliceTheorem<T(!new)>(g: Graph<T>, c: T, sub: Graph<T>, exits: seq<T>, after: Graph<T>)
    requires Spliceable(g, c, sub, exits) && after == Expand(g, c, sub, exits)
    ensures ValidDag(after) && after.Keys == g.Keys - {c} + sub.Keys
    ensures forall u, v :: u in after && v in after ==> (Reach(after, u, v) <==> SplicedReach(g, c, sub, u, v))
    ensures forall u, v :: u in g && v in g && u != c && v != c ==>
      (Reach(after, u, v) <==> Reach(g, u, v))
    ensures forall s, t :: s in sub && t in sub ==> (Reach(after, s, t) <==> Reach(sub, s, t))
    ensures forall s, u :: s in sub && u in g && u != c ==> (Reach(after, s, u) <==> Reach(g, c, u))
    ensures forall s, u :: s in sub && u in g && u != c ==> (Reach(after, u, s) <==> Reach(g, u, c))
  {
    SpliceValid(g, c, sub, exits);
    forall u, v | u in after && v in after ensures Reach(after, u, v) <==> SplicedReach(g, c, sub, u, v) {
      SpliceOrder(g, c, sub, exits, u, v);
    }
  }

  // ---- Splicing neither hides nor repairs a defect ----

  /** Nobody in `g` names a node that splicing brings in. */
  ghost predicate Unnamed<T(!new)>(g: Graph<T>, c: T, sub: Graph<T>) {
    forall u, v :: Edge(g, u, v) && v in sub ==> v == c
  }

  ghost predicate Attachable<T(!new)>(g: Graph<T>, c: T, sub: Graph<T>, exits: seq<T>) {
    && c in g && ValidDag(sub) && sub.Keys != {} && sub.Keys !! (g.Keys - {c})
    && ListsExits(sub, exits) && Unnamed(g, c, sub)
  }

  /** Following dependencies inside `sub` leads to a root that ranks no higher. */
  lemma {:induction false} RootBelow<T(!new)>(sub: Graph<T>, h: Graph<T>, rank: map<T, nat>, a: T) returns (r: T)
    requires NoDangling(sub) && Ranks(h, rank) && a in sub && sub.Keys <= h.Keys
    requires forall u :: u in sub && sub[u] != [] ==> h[u] == sub[u]
    ensures r in sub && sub[r] == [] && rank[r] <= rank[a]
    decreases rank[a]
  {
    if sub[a] == [] {
      return a;
    }
    assert Edge(h, a, sub[a][0]) && Edge(sub, a, sub[a][0]);
    r := RootBelow(sub, h, rank, sub[a][0]);
  }

  /** In the spliced graph everything the composite depends on ranks below every node of `sub`. */
  lemma {:induction false} BelowSub<T(!new)>(
      g: Graph<T>, c: T, sub: Graph<T>, exits: seq<T>, rank: map<T, nat>, a: T, d: T)
    requires Attachable(g, c, sub, exits) && Ranks(Expand(g, c, sub, exits), rank) && a in sub && Edge(g, c, d)
    ensures d in g && d != c && d in rank && rank[d] < rank[a]
  {
    var h := Expand(g, c, sub, exits);
    var r := RootBelow(sub, h, rank, a);
    assert Edge(h, r, d);
    if d in sub {
      var r' := RootBelow(sub, h, rank, d);
      assert Edge(h, r', d);
      assert false;
    }
  }

  /** What depends on the composite ranks above every exit of `sub`. */
  lemma {:induction false} AboveExit<T(!new)>(
      g: Graph<T>, c: T, sub: Graph<T>, exits: seq<T>, rank: map<T, nat>, u: T, v: T, e: T)
    requires Attachable(g, c, sub, exits) && Ranks(Expand(g, c, sub, exits), rank) && IsExit(sub, e)
    requires u != c && Edge(g, u, v)
    ensures u in rank && v in g && (v == c ==> rank[e] < rank[u]) && (v != c ==> v in rank && rank[v] < rank[u])
  {
    var h := Expand(g, c, sub, exits);
    SubstituteMember(g[u], c, exits, if v == c then e else v);
    assert Edge(h, u, if v == c then e else v);
  }

  lemma {:induction false} SomeExit<T(!new)>(sub: Graph<T>) returns (e: T)
    requires ValidDag(sub) && sub.Keys != {}
    ensures IsExit(sub, e)
  {
    var rank := RankExists(sub);
    var b :| b in sub;
    var n;
    e, n := FromExit(sub, rank, b);
  }

  lemma {:induction false} SplicedFrom<T(!new)>(g: Graph<T>, c: T, sub: Graph<T>, exits: seq<T>)
    requires Attachable(g, c, sub, exits) && ValidDag(Expand(g, c, sub, exits))
    ensures ValidDag(g)
  {
    var h := Expand(g, c, sub, exits);
    var rank := RankExists(h);
    var e := SomeExit(sub);
    var ranks := map u | u in g :: if u == c then rank[e] else rank[u];
    forall u, v | Edge(g, u, v) ensures v in g && ranks[v] < ranks[u] {
      if u == c {
        BelowSub(g, c, sub, exits, rank, e, v);
      } else {
        AboveExit(g, c, sub, exits, rank, u, v, e);
      }
    }
    RankedIsValid(g, ranks);
  }

  /** With ids nobody named before, the spliced graph is a DAG if and only if the original was. */
  lemma {:induction false} SpliceValidIff<T(!new)>(g: Graph<T>, c: T, sub: Graph<T>, exits: seq<T>)
    requires Attachable(g, c, sub, exits)
    ensures ValidDag(Expand(g, c, sub, exits)) <==> ValidDag(g)
  {
    if ValidDag(g) {
      SpliceValid(g, c, sub, exits);
    }
    if ValidDag(Expand(g, c, sub, exits)) {
      SplicedFrom(g, c, sub, exits);
    }
  }
}
