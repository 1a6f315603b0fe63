/**
 Deficit round-robin: every call dispatches after a bounded number of visits, and lanes that stay
 backlogged are served in proportion to their quanta.
 */
module LaneFairness {
  import opened Arithmetic
  import opened Options
  import opened LaneScheduler

  // ---- Progress ----

  ghost function Visits(s: Sched, k: nat): (r: Sched)
    requires s.round < |s.lanes|
    ensures |r.lanes| == |s.lanes| && r.round < |r.lanes|
  {
    if k == 0 then s else Visit(Visits(s, k - 1)).s
  }

  /** None of the first `k` visits dispatches a task. */
  ghost predicate Idle(s: Sched, k: nat)
    requires s.round < |s.lanes|
  {
    k == 0 || (Idle(s, k - 1) && Visit(Visits(s, k - 1)).task.None?)
  }

  /** How many of the first `k` visits went to lane `j`. */
  ghost function VisitsTo(s: Sched, k: nat, j: nat): nat
    requires s.round < |s.lanes|
  {
    if k == 0 then 0 else VisitsTo(s, k - 1, j) + if Visits(s, k - 1).round == j then 1 else 0
  }

  /** Visits that pass before lane `j` is reached. */
  ghost function Distance(s: Sched, j: nat): nat
    requires s.round < |s.lanes| && j < |s.lanes|
  {
    if s.round <= j then j - s.round else j + |s.lanes| - s.round
  }

  lemma {:induction false} NextRound(s: Sched)
    requires s.round < |s.lanes|
    ensures Advance(s).round == if s.round + 1 == |s.lanes| then 0 else s.round + 1
  {
    if s.round + 1 < |s.lanes| {
      UniqueRemainder(s.round + 1, |s.lanes|, 0, s.round + 1);
    } else {
      UniqueRemainder(s.round + 1, |s.lanes|, 1, 0);
    }
  }

  /** An idle visit moves on, and a lane with work gains its quantum unless it already had it. */
  lemma {:induction false} IdleVisit(s: Sched, maxCost: nat, j: nat)
    requires Inv(s, maxCost) && Visit(s).task.None? && j < |s.lanes| && s.lanes[j].tasks != []
    ensures !Visit(s).s.added && Visit(s).s.round == if s.round + 1 == |s.lanes| then 0 else s.round + 1
    ensures Visit(s).s.lanes[j].tasks == s.lanes[j].tasks
    ensures j != s.round ==> Visit(s).s.lanes[j].deficit == s.lanes[j].deficit
    ensures j == s.round && !s.added ==> Visit(s).s.lanes[j].deficit >= s.lanes[j].deficit + 1
    ensures j == s.round ==> Visit(s).s.lanes[j].deficit >= s.lanes[j].deficit
    ensures j == s.round ==> Visit(s).s.lanes[j].deficit <= maxCost - 1
  {
    NextRound(s);
    VisitKeeps(s, maxCost);
  }

  lemma {:induction false} IdleKeeps(s: Sched, maxCost: nat, j: nat, k: nat)
    requires Inv(s, maxCost) && j < |s.lanes| && s.lanes[j].tasks != [] && Idle(s, k)
    ensures Inv(Visits(s, k), maxCost) && Visits(s, k).lanes[j].tasks == s.lanes[j].tasks
    ensures k > 0 ==> !Visits(s, k).added
  {
    if k > 0 {
      IdleKeeps(s, maxCost, j, k - 1);
      IdleVisit(Visits(s, k - 1), maxCost, j);
      VisitKeeps(Visits(s, k - 1), maxCost);
    }
  }

  /** The visits so far and those still to come before lane `j` fit in one round more than lane `j` has had. */
  lemma {:induction false} IdleRounds(s: Sched, maxCost: nat, j: nat, k: nat)
    requires Inv(s, maxCost) && j < |s.lanes| && s.lanes[j].tasks != [] && Idle(s, k)
    ensures k + Distance(Visits(s, k), j) + 1 <= Times(|s.lanes|, VisitsTo(s, k, j) + 1)
  {
    if k > 0 {
      IdleRounds(s, maxCost, j, k - 1);
      IdleKeeps(s, maxCost, j, k - 1);
      IdleVisit(Visits(s, k - 1), maxCost, j);
    }
  }

  /** Each idle visit to lane `j` after the first raised its deficit, which stays below the largest cost. */
  lemma {:induction false} IdleDeficit(s: Sched, maxCost: nat, j: nat, k: nat)
    requires Inv(s, maxCost) && j < |s.lanes| && s.lanes[j].tasks != [] && Idle(s, k)
    ensures VisitsTo(s, k, j) >= 1 ==> VisitsTo(s, k, j) - 1 <= Visits(s, k).lanes[j].deficit <= maxCost - 1
  {
    if k > 0 {
      IdleDeficit(s, maxCost, j, k - 1);
      IdleKeeps(s, maxCost, j, k - 1);
      IdleVisit(Visits(s, k - 1), maxCost, j);
    }
  }

  lemma {:induction false} DispatchLimit(s: Sched, maxCost: nat, j: nat, k: nat)
    requires Inv(s, maxCost) && j < |s.lanes| && s.lanes[j].tasks != [] && Idle(s, k)
    ensures Inv(Visits(s, k), maxCost) && k < Times(|s.lanes|, maxCost + 1)
  {
    IdleKeeps(s, maxCost, j, k);
    IdleRounds(s, maxCost, j, k);
    IdleDeficit(s, maxCost, j, k);
    TimesMonotone(|s.lanes|, VisitsTo(s, k, j) + 1, maxCost + 1);
  }

  /** With work in some lane, a task is dispatched within (number of lanes) * (largest cost + 1) visits. */
  lemma {:induction false} DispatchWithin(s: Sched, maxCost: nat, j: nat, k: nat)
    requires Inv(s, maxCost) && j < |s.lanes| && s.lanes[j].tasks != [] && Idle(s, k)
    ensures k < |s.lanes| * (maxCost + 1)
  {
    DispatchLimit(s, maxCost, j, k);
    TimesIsProduct(|s.lanes|, maxCost + 1);
  }

  // ---- Fairness ----

  ghost function Cost(ts: seq<Task>): int {
    if ts == [] then 0 else Cost(ts[..|ts| - 1]) + ts[|ts| - 1].cost
  }

  /** Whether an action hands lane `i` its quantum. */
  ghost predicate GetsQuantum(s: Sched, a: Action, i: nat)
    requires s.round < |s.lanes|
  {
    a.DoVisit? && s.round == i && !s.added && s.lanes[i].tasks != []
  }

  ghost function Quanta(states: seq<Sched>, acts: seq<Action>, i: nat): nat
    requires |states| == |acts| + 1 && forall k :: 0 <= k < |acts| ==> states[k].round < |states[k].lanes|
    decreases |acts|
  {
    if acts == [] then 0
    else
      var given := if GetsQuantum(states[|acts| - 1], acts[|acts| - 1], i) then 1 else 0;
      Quanta(states[..|acts|], acts[..|acts| - 1], i) + given
  }

  /** Lane `i` has work in every state of the run, and nothing is served out of turn. */
  ghost predicate Backlogged(states: seq<Sched>, acts: seq<Action>, i: nat) {
    && (forall k :: 0 <= k < |states| ==> i < |states[k].lanes| && states[k].lanes[i].tasks != [])
    && (forall k :: 0 <= k < |states| ==> states[k].round < |states[k].lanes|)
    && (forall k :: 0 <= k < |acts| ==> !acts[k].DoStarve?)
  }

  lemma {:induction false} BacklogPrefix(states: seq<Sched>, acts: seq<Action>, maxCost: nat, i: nat)
    requires IsRun(states, acts, maxCost) && Backlogged(states, acts, i) && acts != []
    ensures IsRun(states[..|acts|], acts[..|acts| - 1], maxCost) && Backlogged(states[..|acts|], acts[..|acts| - 1], i)
  {
    RunPrefix(states, acts, maxCost);
  }

  lemma {:induction false} StepAccount(s: Sched, a: Action, i: nat)
    requires s.round < |s.lanes| && i < |s.lanes| && !a.DoStarve?
    requires s.lanes[i].tasks != [] && Step(s, a).lanes[i].tasks != []
    ensures Step(s, a).lanes[i].deficit + Cost(DispatchedBy(s, a, i)) ==
            s.lanes[i].deficit + if GetsQuantum(s, a, i) then s.lanes[i].quantum else 0
  {
    if a.DoVisit? && s.round == i && Visit(s).task.Some? {
      assert Cost([Visit(s).task.value]) == Visit(s).task.value.cost by {
        assert [Visit(s).task.value][..0] == [];
      }
    }
  }

  lemma {:induction false} CostConcat(a: seq<Task>, b: seq<Task>)
    ensures Cost(a + b) == Cost(a) + Cost(b)
    decreases |b|
  {
    if b == [] {
      assert a + b == a;
    } else {
      CostConcat(a, b[..|b| - 1]);
      assert (a + b)[..|a + b| - 1] == a + b[..|b| - 1];
    }
  }

  lemma {:induction false} SameQuantum(states: seq<Sched>, acts: seq<Action>, maxCost: nat, n: nat, i: nat)
    requires IsRun(states, acts, maxCost) && n < |acts| && i < |states[0].lanes|
    ensures i < |states[n].lanes| && states[n].lanes[i].quantum == states[0].lanes[i].quantum
    ensures states[n].round < |states[n].lanes| && (acts[n].DoStarve? ==> acts[n].lane < |states[n].lanes|)
    ensures states[n + 1] == Step(states[n], acts[n])
  {
    RunKeeps(states, acts, maxCost, n);
    assert StepAt(states, acts, maxCost, n);
  }

  /** Credit is conserved: cost served plus deficit at the end is quanta received plus deficit at the start. */
  lemma {:induction false} Conservation(states: seq<Sched>, acts: seq<Action>, maxCost: nat, i: nat)
    requires IsRun(states, acts, maxCost) && Backlogged(states, acts, i)
    ensures states[|acts|].lanes[i].deficit + Cost(Dispatched(states, acts, i)) ==
            states[0].lanes[i].deficit + Times(states[0].lanes[i].quantum, Quanta(states, acts, i))
    decreases |acts|
  {
    if acts != [] {
      var n := |acts| - 1;
      BacklogPrefix(states, acts, maxCost, i);
      Conservation(states[..n + 1], acts[..n], maxCost, i);
      SameQuantum(states, acts, maxCost, n, i);
      StepAccount(states[n], acts[n], i);
      CostConcat(Dispatched(states[..n + 1], acts[..n], i), DispatchedBy(states[n], acts[n], i));
    }
  }

  /** Completed rounds and position within the round, counted from the lane whose turn it was at the start. */
  datatype Clock = Clock(rounds: nat, pos: nat)

  ghost function Turns(states: seq<Sched>, acts: seq<Action>): (c: Clock)
    requires |states| == |acts| + 1 && forall k :: 0 <= k < |acts| ==> states[k].round < |states[k].lanes|
    decreases |acts|
  {
    if acts == [] then Clock(0, 0)
    else
      var c, s := Turns(states[..|acts|], acts[..|acts| - 1]), states[|acts| - 1];
      if acts[|acts| - 1].DoVisit? && !Visit(s).s.added
      then (if c.pos + 1 == |s.lanes| then Clock(c.rounds + 1, 0) else c.(pos := c.pos + 1))
      else c
  }

  /** Position of lane `i` in the round that starts at lane `start`. */
  ghost function Offset(start: nat, i: nat, n: nat): nat
    requires start < n && i < n
  {
    if start <= i then i - start else i + n - start
  }

  /** The turn counter agrees with the round index. */
  lemma {:induction false} TurnPosition(states: seq<Sched>, acts: seq<Action>, maxCost: nat, i: nat)
    requires IsRun(states, acts, maxCost) && Backlogged(states, acts, i)
    ensures Turns(states, acts).pos < |states[0].lanes| == |states[|acts|].lanes|
    ensures states[|acts|].round < |states[0].lanes|
    ensures Offset(states[0].round, states[|acts|].round, |states[0].lanes|) == Turns(states, acts).pos
    decreases |acts|
  {
    if acts != [] {
      var n := |acts| - 1;
      BacklogPrefix(states, acts, maxCost, i);
      TurnPosition(states[..n + 1], acts[..n], maxCost, i);
      assert StepAt(states, acts, maxCost, n);
      if acts[n].DoVisit? {
        NextRound(states[n]);
        VisitTurn(states[n]);
      }
    }
  }

  /** A backlogged lane has had one quantum per turn. */
  lemma {:induction false} TurnInv(states: seq<Sched>, acts: seq<Action>, maxCost: nat, i: nat)
    requires IsRun(states, acts, maxCost) && Backlogged(states, acts, i) && !states[0].added
    ensures Turns(states, acts).pos < |states[0].lanes|
    ensures var c := Turns(states, acts);
      var o := Offset(states[0].round, i, |states[0].lanes|);
      Quanta(states, acts, i) == c.rounds + if o < c.pos || (o == c.pos && states[|acts|].added) then 1 else 0
    decreases |acts|
  {
    TurnPosition(states, acts, maxCost, i);
    if acts != [] {
      var n := |acts| - 1;
      BacklogPrefix(states, acts, maxCost, i);
      TurnInv(states[..n + 1], acts[..n], maxCost, i);
      TurnPosition(states[..n + 1], acts[..n], maxCost, i);
      assert StepAt(states, acts, maxCost, n);
      if acts[n].DoVisit? {
        VisitTurn(states[n]);
      }
    }
  }

  /** A visit either ends the turn and clears the quantum flag, or serves and keeps the turn with the flag set. */
  lemma {:induction false} VisitTurn(s: Sched)
    requires s.round < |s.lanes|
    ensures !Visit(s).s.added ==> Visit(s).s.round == Advance(s).round
    ensures Visit(s).s.added ==> Visit(s).s.round == s.round && s.lanes[s.round].tasks != []
  {
  }

  /** Between turn boundaries two backlogged lanes receive quanta that differ by at most one. */
  lemma {:induction false} QuantaAlternate(states: seq<Sched>, acts: seq<Action>, maxCost: nat, i: nat, j: nat)
    requires IsRun(states, acts, maxCost) && Backlogged(states, acts, i) && Backlogged(states, acts, j)
    requires !states[0].added && !states[|acts|].added
    ensures -1 <= Quanta(states, acts, i) - Quanta(states, acts, j) <= 1
  {
    TurnInv(states, acts, maxCost, i);
    TurnInv(states, acts, maxCost, j);
  }

  lemma {:induction false} CrossProduct(si: int, q: int, n: int, d: int, r: int)
    requires si == q * n + d
    ensures si * r == (q * r) * n + d * r
  {
    assert (q * n + d) * r == (q * n) * r + d * r;
    assert (q * n) * r == (q * r) * n;
  }

  lemma {:induction false} Difference(si: int, sj: int, qi: int, qj: int, ni: int, nj: int)
    ensures si * qj - sj * qi == (qi * qj) * (ni - nj) + (si - qi * ni) * qj - (sj - qj * nj) * qi
  {
    CrossProduct(si, qi, ni, si - qi * ni, qj);
    CrossProduct(sj, qj, nj, sj - qj * nj, qi);
    assert qj * qi == qi * qj;
    assert (qi * qj) * (ni - nj) == (qi * qj) * ni - (qi * qj) * nj;
  }

  lemma {:induction false} AtMostOne(p: int, x: int)
    requires p >= 0 && -1 <= x <= 1
    ensures -p <= p * x <= p
  {
    assert x == -1 || x == 0 || x == 1;
  }

  lemma {:induction false} Spread(b: int, x: int, y: int)
    ensures b * (x + y) == b * x + b * y
  {
  }

  /** `served` is `n` quanta of `q`, up to `b`. */
  ghost predicate Near(served: int, q: int, n: nat, b: int) {
    q >= 1 && -b <= served - Times(q, n) <= b
  }

  /** `si` and `sj` are in the ratio of `qi` and `qj`, up to one quantum each and `b`. */
  ghost predicate InRatio(si: int, sj: int, qi: int, qj: int, b: int) {
    -(qi * qj + b * (qi + qj)) <= si * qj - sj * qi <= qi * qj + b * (qi + qj)
  }

  lemma {:induction false} FairArithmetic(si: int, sj: int, qi: int, qj: int, ni: nat, nj: nat, b: int)
    requires -1 <= ni - nj <= 1 && Near(si, qi, ni, b) && Near(sj, qj, nj, b)
    ensures InRatio(si, sj, qi, qj, b)
  {
    TimesIsProduct(qi, ni);
    TimesIsProduct(qj, nj);
    Difference(si, sj, qi, qj, ni, nj);
    AtMostOne(qi * qj, ni - nj);
    Bounded(si - qi * ni, qj, b);
    Bounded(sj - qj * nj, qi, b);
    Spread(b, qi, qj);
  }

  lemma {:induction false} Bounded(x: int, q: int, b: int)
    requires q >= 1 && -b <= x <= b
    ensures -(b * q) <= x * q <= b * q
  {
    assert (b - x) * q >= 0 && (x + b) * q >= 0;
    assert (b - x) * q == b * q - x * q && (x + b) * q == x * q + b * q;
  }

  lemma {:induction false} BoundaryDeficit(states: seq<Sched>, acts: seq<Action>, maxCost: nat, i: nat)
    requires IsRun(states, acts, maxCost) && !states[0].added && !states[|acts|].added && i < |states[0].lanes|
    ensures states[0].lanes[i].quantum >= 1 && 0 <= states[0].lanes[i].deficit <= maxCost - 1
    ensures i < |states[|acts|].lanes| && 0 <= states[|acts|].lanes[i].deficit <= maxCost - 1
  {
    RunKeeps(states, acts, maxCost, |acts|);
  }

  /** Between turn boundaries a backlogged lane is served its quanta up to the largest task cost. */
  lemma {:induction false} ServedCost(states: seq<Sched>, acts: seq<Action>, maxCost: nat, i: nat)
    requires IsRun(states, acts, maxCost) && Backlogged(states, acts, i)
    requires !states[0].added && !states[|acts|].added
    ensures Near(Cost(Dispatched(states, acts, i)), states[0].lanes[i].quantum, Quanta(states, acts, i), maxCost - 1)
  {
    BoundaryDeficit(states, acts, maxCost, i);
    Conservation(states, acts, maxCost, i);
  }

  /**
   Fairness: between turn boundaries, the costs served to two lanes that stay backlogged are in the ratio
   of their quanta up to one quantum each and the largest task cost.
   */
  lemma {:induction false} Fair(states: seq<Sched>, acts: seq<Action>, maxCost: nat, i: nat, j: nat)
    requires IsRun(states, acts, maxCost) && Backlogged(states, acts, i) && Backlogged(states, acts, j)
    requires !states[0].added && !states[|acts|].added
    ensures InRatio(Cost(Dispatched(states, acts, i)), Cost(Dispatched(states, acts, j)),
                    states[0].lanes[i].quantum, states[0].lanes[j].quantum, maxCost - 1)
  {
    ServedCost(states, acts, maxCost, i);
    ServedCost(states, acts, maxCost, j);
    QuantaAlternate(states, acts, maxCost, i, j);
    FairArithmetic(Cost(Dispatched(states, acts, i)), Cost(Dispatched(states, acts, j)),
                   states[0].lanes[i].quantum, states[0].lanes[j].quantum,
                   Quanta(states, acts, i), Quanta(states, acts, j), maxCost - 1);
  }
}
