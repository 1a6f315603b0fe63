/**
 Leases over whole runs of the election: a grant excludes every other candidate until it lapses or is released, and
 nothing else does. Grants and accepted writes are read off their logs.
 */
module ElectionLeases {
  import opened Election

  // ---- Reading a run ----

  /** The action asks for the lease. */
  predicate Requests<Id, K>(a: Action<Id, K>) {
    a.Campaign? || a.RenewCall?
  }

  /** Action `j` asks for the lease and gets it: the log of grants grows. */
  ghost predicate GrantedAt<Id(!new), K(!new)>(states: seq<System<Id, K>>, acts: seq<Action<Id, K>>, j: int) {
    && 0 <= j < |acts| && |states| == |acts| + 1 && Requests(acts[j])
    && |states[j + 1].grants| == |states[j].grants| + 1
  }

  ghost predicate ReleasedAt<Id(!new), K(!new)>(acts: seq<Action<Id, K>>, j: int, id: Id) {
    0 <= j < |acts| && acts[j] == Release(id)
  }

  /** The last grant before action `n` is the one of action `j`, and its owner has not released it since. */
  ghost predicate Holds<Id(!new), K(!new)>(states: seq<System<Id, K>>, acts: seq<Action<Id, K>>, n: nat, j: int) {
    && GrantedAt(states, acts, j) && j < n
    && forall k :: j < k < n ==> !GrantedAt(states, acts, k) && !ReleasedAt(acts, k, acts[j].id)
  }

  function Lapse<Id, K>(a: Action<Id, K>): int
    requires Requests(a)
  {
    a.now + a.ttl
  }

  // ---- One step ----

  /** Whether an action is granted, and what the record becomes. */
  lemma {:induction false} StepGrants<Id(!new), K(!new)>(
      none: Id, states: seq<System<Id, K>>, acts: seq<Action<Id, K>>, i: nat)
    requires IsRun(none, states, acts) && i < |acts|
    ensures acts[i].id != none
    ensures GrantedAt(states, acts, i) ==>
      && states[i + 1].record.leader == acts[i].id && states[i + 1].record.expires == Lapse(acts[i])
      && states[i + 1].grants == states[i].grants + [Grant(acts[i].id, states[i + 1].record.term)]
    ensures Requests(acts[i]) ==>
      (GrantedAt(states, acts, i) <==>
        var r := states[i].record; r.leader == none || r.leader == acts[i].id || r.expires <= acts[i].now)
    ensures !GrantedAt(states, acts, i) && !(acts[i].Release? && acts[i].id == states[i].record.leader) ==>
      states[i + 1].record == states[i].record
    ensures acts[i].Release? && acts[i].id == states[i].record.leader ==> states[i + 1].record.leader == none
  {
    assert StepAt(none, states, acts, i);
  }

  /** What the record says after `n` actions: who holds the lease and when it lapses. */
  ghost predicate RecordTells<Id(!new), K(!new)>(
      none: Id, states: seq<System<Id, K>>, acts: seq<Action<Id, K>>, n: nat, j: int)
    requires n < |states|
  {
    && (states[n].record.leader != none ==>
      Holds(states, acts, n, j) && acts[j].id == states[n].record.leader && Lapse(acts[j]) == states[n].record.expires)
    && (states[n].record.leader == none ==> forall i :: !Holds(states, acts, n, i))
  }

  lemma {:induction false} OneHolder<Id(!new), K(!new)>(
      states: seq<System<Id, K>>, acts: seq<Action<Id, K>>, n: nat, i: int, j: int)
    requires Holds(states, acts, n, i) && Holds(states, acts, n, j)
    ensures i == j
  {
  }

  lemma {:induction false} NotHeld<Id(!new), K(!new)>(
      states: seq<System<Id, K>>, acts: seq<Action<Id, K>>, n: nat, i: int, was: int)
    requires !GrantedAt(states, acts, n)
    requires !Holds(states, acts, n, i) || (Holds(states, acts, n, was) && ReleasedAt(acts, n, acts[was].id))
    ensures !Holds(states, acts, n + 1, i)
  {
  }

  lemma {:induction false} RecordIsLastGrant<Id(!new), K(!new)>(
      none: Id, states: seq<System<Id, K>>, acts: seq<Action<Id, K>>, n: nat) returns (j: int)
    requires IsRun(none, states, acts) && n < |states|
    ensures RecordTells(none, states, acts, n, j)
  {
    if n == 0 {
      return -1;
    }
    var was := RecordIsLastGrant(none, states, acts, n - 1);
    StepGrants(none, states, acts, n - 1);
    if GrantedAt(states, acts, n - 1) {
      j := n - 1;
    } else {
      j := was;
      if states[n].record.leader == none {
        forall i ensures !Holds(states, acts, n, i) {
          NotHeld(states, acts, n - 1, i, was);
        }
      }
    }
  }

  // ---- The laws of the lease ----

  /**
   A request is granted exactly if no other candidate holds the lease: was granted it last, has not released it, and
   the time of that grant plus its duration is still to come.
   */
  lemma {:induction false} GrantIff<Id(!new), K(!new)>(
      none: Id, states: seq<System<Id, K>>, acts: seq<Action<Id, K>>, i: nat)
    requires IsRun(none, states, acts) && i < |acts| && Requests(acts[i])
    ensures GrantedAt(states, acts, i) <==>
      forall j :: Holds(states, acts, i, j) && acts[j].id != acts[i].id ==> Lapse(acts[j]) <= acts[i].now
  {
    StepGrants(none, states, acts, i);
    var last := RecordIsLastGrant(none, states, acts, i);
    forall j | Holds(states, acts, i, j) ensures states[i].record.leader != none && j == last {
      OneHolder(states, acts, i, j, last);
    }
  }

  /** Requests come in the order of their times. */
  ghost predicate InTime<Id(!new), K(!new)>(acts: seq<Action<Id, K>>) {
    forall i, j :: 0 <= i < j < |acts| && Requests(acts[i]) && Requests(acts[j]) ==> acts[i].now <= acts[j].now
  }

  /**
   A live lease excludes all others: once granted to `acts[j].id`, and until that candidate is granted anew or
   releases, nobody else is granted before it lapses.
   */
  lemma {:induction false} LeaseExcludes<Id(!new), K(!new)>(
      none: Id, states: seq<System<Id, K>>, acts: seq<Action<Id, K>>, i: nat, j: nat)
    requires IsRun(none, states, acts) && InTime(acts) && j < i < |acts|
    requires GrantedAt(states, acts, j) && GrantedAt(states, acts, i) && acts[i].id != acts[j].id
    requires forall k :: j < k < i ==>
      !ReleasedAt(acts, k, acts[j].id) && !(GrantedAt(states, acts, k) && acts[k].id == acts[j].id)
    ensures Lapse(acts[j]) <= acts[i].now
    decreases i
  {
    if k :| j < k < i && GrantedAt(states, acts, k) {
      LeaseExcludes(none, states, acts, k, j);
    } else {
      assert Holds(states, acts, i, j);
      GrantIff(none, states, acts, i);
    }
  }

  ghost predicate Renews<Id(!new), K(!new)>(states: seq<System<Id, K>>, acts: seq<Action<Id, K>>, i: nat)
    requires i < |acts| && Requests(acts[i])
  {
    exists j :: Holds(states, acts, i, j) && acts[j].id == acts[i].id && acts[i].now <= Lapse(acts[j])
  }

  /** A renewal no later than the lapse of one's own lease keeps the term; every other grant starts the next term. */
  lemma {:induction false} RenewalKeepsTerm<Id(!new), K(!new)>(
      none: Id, states: seq<System<Id, K>>, acts: seq<Action<Id, K>>, i: nat)
    requires IsRun(none, states, acts) && GrantedAt(states, acts, i)
    ensures states[i + 1].record.term == states[i].record.term + if Renews(states, acts, i) then 0 else 1
  {
    assert StepAt(none, states, acts, i);
    var last := RecordIsLastGrant(none, states, acts, i);
    forall j | Holds(states, acts, i, j) ensures states[i].record.leader != none && j == last {
      OneHolder(states, acts, i, j, last);
    }
  }

  // ---- The fence ----

  ghost predicate WrittenAt<Id(!new), K(!new)>(states: seq<System<Id, K>>, acts: seq<Action<Id, K>>, j: int) {
    && 0 <= j < |acts| && |states| == |acts| + 1 && acts[j].Mutate?
    && |states[j + 1].writes| == |states[j].writes| + 1
  }

  /** The highest token seen of a key is that of an accepted write. */
  ghost predicate HighestWritten<Id(!new), K(!new)>(s: System<Id, K>) {
    forall key :: key in s.highest ==>
      exists i :: 0 <= i < |s.writes| && s.writes[i].key == key && s.writes[i].token == s.highest[key]
  }

  lemma {:induction false} HighestKept<Id(!new), K(!new)>(
      none: Id, states: seq<System<Id, K>>, acts: seq<Action<Id, K>>, n: nat)
    requires IsRun(none, states, acts) && n < |states|
    ensures HighestWritten(states[n])
  {
    if n > 0 {
      HighestKept(none, states, acts, n - 1);
      assert StepAt(none, states, acts, n - 1);
      var s, t := states[n - 1], states[n];
      forall key | key in t.highest
        ensures exists i :: 0 <= i < |t.writes| && t.writes[i].key == key && t.writes[i].token == t.highest[key]
      {
        if t.writes != s.writes && key == acts[n - 1].key {
          assert t.writes[|s.writes|].key == key;
        } else {
          var i :| 0 <= i < |s.writes| && s.writes[i].key == key && s.writes[i].token == s.highest[key];
          assert t.writes[i] == s.writes[i];
        }
      }
    }
  }

  ghost predicate NoneHigher<Id(!new), K(!new)>(writes: seq<Write<Id, K>>, key: K, token: nat) {
    forall i :: 0 <= i < |writes| && writes[i].key == key ==> writes[i].token <= token
  }

  /** A write is accepted exactly if its token has not expired and no accepted write of the key had a higher one. */
  lemma {:induction false} AcceptedIff<Id(!new), K(!new)>(
      none: Id, states: seq<System<Id, K>>, acts: seq<Action<Id, K>>, n: nat)
    requires IsRun(none, states, acts) && n < |acts| && acts[n].Mutate?
    ensures WrittenAt(states, acts, n) <==> !acts[n].expired && NoneHigher(states[n].writes, acts[n].key, acts[n].term)
    ensures WrittenAt(states, acts, n) ==>
      states[n + 1].writes == states[n].writes + [Write(acts[n].key, acts[n].id, acts[n].term)]
  {
    assert StepAt(none, states, acts, n);
    RunKeeps(none, states, acts, n);
    HighestKept(none, states, acts, n);
  }

  /** Who believes to lead: a granted campaign makes a leader of its term, a refused one or stepping down ends it. */
  lemma {:induction false} BeliefFollows<Id(!new), K(!new)>(
      none: Id, states: seq<System<Id, K>>, acts: seq<Action<Id, K>>, i: nat, id: Id)
    requires IsRun(none, states, acts) && i < |acts| && id in states[i].members
    ensures id in states[i + 1].members
    ensures acts[i].id != id || !(acts[i].Campaign? || acts[i].StepDown?) ==>
      states[i + 1].members[id].isLeader == states[i].members[id].isLeader
    ensures acts[i] == StepDown(id) ==> !states[i + 1].members[id].isLeader
    ensures acts[i].Campaign? && acts[i].id == id ==>
      (states[i + 1].members[id].isLeader <==> GrantedAt(states, acts, i))
    ensures acts[i].Campaign? && acts[i].id == id && GrantedAt(states, acts, i) ==>
      states[i + 1].members[id].term == states[i + 1].record.term
  {
    assert StepAt(none, states, acts, i);
  }
}
