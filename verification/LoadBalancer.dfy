/**
 The balancer's targets, its list of healthy ones, and the weighted branch of selection.
 */
module LoadBalancer {
  import opened SmoothRoundRobin
  import opened Sequences
  import opened Sorting

  datatype Outcome = Ok | DuplicateTarget | TargetNotFound

  class Target<Id> {
    const id: Id
    const weight: int
    var healthy: bool
    var currentWeight: int

    constructor (id: Id, weight: int)
      ensures this.id == id && this.weight == weight && healthy && currentWeight == 0
    {
      this.id, this.weight, healthy, currentWeight := id, weight, true, 0;
    }
  }

  function WeightsOf<Id>(list: seq<Target<Id>>): (w: seq<int>)
    ensures |w| == |list|
  {
    seq(|list|, i requires 0 <= i < |list| => list[i].weight)
  }

  function CurrentsOf<Id>(list: seq<Target<Id>>): (c: seq<int>)
    reads list
    ensures |c| == |list|
  {
    seq(|list|, i requires 0 <= i < |list| reads list => list[i].currentWeight)
  }

  class Balancer<Id(==, !new)> {
    const less: (Id, Id) -> bool
    var targets: map<Id, Target<Id>>
    var healthyList: seq<Target<Id>>

    /** Targets are filed under their ids and weigh at least one. */
    ghost predicate Filed()
      reads this
    {
      TotalOrder(less) && forall id :: id in targets ==> targets[id].id == id && targets[id].weight >= 1
    }

    /** The healthy list holds exactly the healthy targets, once each, by id. */
    ghost predicate Valid()
      reads this, targets.Values
    {
      && Filed()
      && (forall i ::
        0 <= i < |healthyList| ==> healthyList[i].id in targets && targets[healthyList[i].id] == healthyList[i])
      && (forall id :: id in targets ==> (targets[id].healthy <==> targets[id] in healthyList))
      && (forall i, j :: 0 <= i < j < |healthyList| ==> less(healthyList[i].id, healthyList[j].id))
    }

    constructor (less: (Id, Id) -> bool)
      requires TotalOrder(less)
      ensures Valid() && targets == map[] && healthyList == []
    {
      this.less := less;
      targets, healthyList := map[], [];
    }

    /** A non-positive weight counts as one. */
    method AddTarget(id: Id, weight: int) returns (r: Outcome)
      requires Valid()
      modifies this
      ensures Valid() && r == if id in old(targets) then DuplicateTarget else Ok
      ensures r == DuplicateTarget ==> targets == old(targets) && healthyList == old(healthyList)
      ensures r == Ok ==> id in targets && targets == old(targets)[id := targets[id]] && fresh(targets[id])
      ensures r == Ok ==>
        && targets[id].weight == (if weight <= 0 then 1 else weight)
        && targets[id].currentWeight == 0 && targets[id].healthy
    {
      if id in targets {
        return DuplicateTarget;
      }
      var t := new Target(id, if weight <= 0 then 1 else weight);
      targets := targets[id := t];
      Rebuild();
      r := Ok;
    }

    method RemoveTarget(id: Id) returns (r: Outcome)
      requires Valid()
      modifies this
      ensures Valid() && r == (if id in old(targets) then Ok else TargetNotFound) && targets == old(targets) - {id}
    {
      if id !in targets {
        return TargetNotFound;
      }
      targets := targets - {id};
      Rebuild();
      r := Ok;
    }

    method SetHealth(id: Id, healthy: bool) returns (r: Outcome)
      requires Valid()
      modifies this`healthyList, (if id in targets then {targets[id]} else {})`healthy
      ensures Valid() && r == if id in targets then Ok else TargetNotFound
      ensures r == Ok ==> targets[id].healthy == healthy
    {
      if id !in targets {
        return TargetNotFound;
      }
      targets[id].healthy := healthy;
      Rebuild();
      r := Ok;
    }

    /** Collects the healthy targets in any order and sorts them by id. */
    method Rebuild()
      requires Filed()
      modifies this`healthyList
      ensures Valid()
    {
      var ids := HealthyIds();
      var sorted := SortBy(less, ids);
      SameElements(sorted, ids);
      SortOrdered(less, ids);
      DistinctPermutation(ids, sorted);
      forall i | 0 <= i < |sorted| ensures sorted[i] in targets { assert sorted[i] in sorted; }
      healthyList := seq(|sorted|,
        i requires 0 <= i < |sorted| reads this requires sorted[i] in targets => targets[sorted[i]]);
      forall id | id in targets && targets[id].healthy ensures targets[id] in healthyList {
        assert id in sorted;
        var i :| 0 <= i < |sorted| && sorted[i] == id;
        assert healthyList[i] == targets[id];
      }
    }

    method HealthyIds() returns (ids: seq<Id>)
      requires Filed()
      ensures Distinct(ids) && forall id :: id in ids <==> id in targets && targets[id].healthy
    {
      ids := [];
      var todo := targets.Keys;
      while todo != {}
        invariant todo <= targets.Keys && Distinct(ids)
        invariant forall id :: id in ids <==> id in targets && id !in todo && targets[id].healthy
        decreases todo
      {
        var id :| id in todo;
        if targets[id].healthy {
          ids := ids + [id];
        }
        todo := todo - {id};
      }
    }

    /**
     The weighted round-robin branch: one step of the abstract selection on the healthy targets' weights.
     With no healthy target the program returns an error.
     */
    method Select() returns (chosen: Target?<Id>)
      requires Valid()
      modifies (set t | t in healthyList)`currentWeight
      ensures Valid() && (chosen == null <==> healthyList == [])
      ensures healthyList != [] ==> chosen == healthyList[Pick(WeightsOf(healthyList), old(CurrentsOf(healthyList)))]
      ensures healthyList != [] ==>
        CurrentsOf(healthyList) == Next(WeightsOf(healthyList), old(CurrentsOf(healthyList)))
    {
      if |healthyList| == 0 {
        return null;
      }
      forall i, j | 0 <= i < j < |healthyList| ensures healthyList[i] != healthyList[j] {
        assert less(healthyList[i].id, healthyList[j].id);
      }
      chosen := SelectFrom(healthyList);
    }
  }

  method SelectFrom<Id(==, !new)>(list: seq<Target<Id>>) returns (chosen: Target<Id>)
    requires list != [] && Distinct(list)
    modifies (set t | t in list)`currentWeight
    ensures chosen == list[Pick(WeightsOf(list), old(CurrentsOf(list)))]
    ensures CurrentsOf(list) == Next(WeightsOf(list), old(CurrentsOf(list)))
  {
    ghost var w, c := WeightsOf(list), CurrentsOf(list);
    ghost var p := Pick(w, c);
    var total;
    total, chosen := BumpAll(list);
    ghost var bumped := CurrentsOf(list);
    Charge(list, p, chosen, total);
    assert Next(w, c) == bumped[p := bumped[p] - total];
  }

  method Charge<Id(==, !new)>(list: seq<Target<Id>>, ghost p: nat, best: Target<Id>, total: int)
    requires Distinct(list) && p < |list| && best == list[p]
    modifies best`currentWeight
    ensures CurrentsOf(list) == old(CurrentsOf(list))[p := old(CurrentsOf(list))[p] - total]
  {
    best.currentWeight := best.currentWeight - total;
    forall j | 0 <= j < |list| && j != p ensures list[j] != best {}
  }

  /** The loop: every current weight grows by its weight, and the first largest is remembered. */
  method BumpAll<Id(==, !new)>(list: seq<Target<Id>>) returns (total: int, best: Target<Id>)
    requires list != [] && Distinct(list)
    modifies (set t | t in list)`currentWeight
    ensures total == Sum(WeightsOf(list))
    ensures CurrentsOf(list) == Bumped(WeightsOf(list), old(CurrentsOf(list)))
    ensures best == list[BestOf(CurrentsOf(list), |list|)]
  {
    ghost var w, c := WeightsOf(list), CurrentsOf(list);
    ghost var b := Bumped(w, c);
    total := 0;
    var found: Target?<Id> := null;
    for i := 0 to |list|
      invariant total == Sum(w[..i])
      invariant forall j :: 0 <= j < |list| ==> list[j].currentWeight == if j < i then b[j] else c[j]
      invariant (found == null <==> i == 0) && (i > 0 ==> found == list[BestOf(b, i)])
    {
      var t := list[i];
      t.currentWeight := t.currentWeight + t.weight;
      total := total + t.weight;
      assert w[..i + 1][..i] == w[..i];
      if found == null || t.currentWeight > found.currentWeight {
        found := t;
      }
    }
    assert w[..|w|] == w;
    assert CurrentsOf(list) == b;
    best := found;
  }
}
