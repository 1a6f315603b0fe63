/**
 Leader election and fencing as one state machine: candidates campaign, renew and step down in any
 interleaving, and anyone who was ever granted a term may write with it, however late.
 `none` is the empty id, which no candidate has.
 */
module Election {

  datatype Record<Id> = Record(leader: Id, term: nat, expires: int)
  datatype Role = Follower | Contender | Leader
  datatype Member = Member(role: Role, term: nat, isLeader: bool)

  /** A term handed to a candidate. */
  datatype Grant<Id> = Grant(id: Id, term: nat)
  datatype Granted<Id> = Granted(record: Record<Id>, ok: bool)

  const ZERO_TIME := 0

  // ---- The coordinator ----

  function TryAcquire<Id(==)>(r: Record<Id>, none: Id, id: Id, now: int, ttl: int): Granted<Id> {
    if r.leader != none && r.leader != id && now < r.expires then Granted(r, false)
    else Granted(Record(id, if r.leader != id || now > r.expires then r.term + 1 else r.term, now + ttl), true)
  }

  function Released<Id(==)>(r: Record<Id>, none: Id, id: Id): Record<Id> {
    if r.leader == id then r.(leader := none, expires := ZERO_TIME) else r
  }

  // ---- Fenced storage ----

  /** An accepted put or delete. */
  datatype Write<Id, K> = Write(key: K, id: Id, token: nat)

  function Accepts<K(==)>(highest: map<K, nat>, key: K, token: nat): bool {
    key !in highest || token >= highest[key]
  }

  // ---- The system ----

  datatype System<Id, K> = System(
    record: Record<Id>,
    members: map<Id, Member>,
    grants: seq<Grant<Id>>,
    highest: map<K, nat>,
    writes: seq<Write<Id, K>>)

  datatype Action<Id, K> =
    | Campaign(id: Id, now: int, ttl: int)
    | RenewCall(id: Id, now: int, ttl: int)
    | RenewStore(id: Id, term: nat)
    | StepDown(id: Id)
    | Release(id: Id)
    | Mutate(id: Id, key: K, term: nat, expired: bool)

  function Acquired<Id(==), K>(s: System<Id, K>, none: Id, id: Id, now: int, ttl: int): System<Id, K> {
    var g := TryAcquire(s.record, none, id, now, ttl);
    if g.ok then s.(record := g.record, grants := s.grants + [Grant(id, g.record.term)]) else s
  }

  /** What a campaign makes of its candidate. */
  function Campaigned<Id>(m: Member, g: Granted<Id>): Member {
    if g.ok then Member(Leader, g.record.term, true) else m.(role := Follower, isLeader := false)
  }

  function Act<Id(==), K(==)>(s: System<Id, K>, none: Id, a: Action<Id, K>): System<Id, K>
    requires a.id in s.members
  {
    var m := s.members[a.id];
    match a
    case Campaign(id, now, ttl) =>
      Acquired(s, none, id, now, ttl).(
        members := s.members[id := Campaigned(m, TryAcquire(s.record, none, id, now, ttl))])
    case RenewCall(id, now, ttl) => Acquired(s, none, id, now, ttl)
    case RenewStore(id, term) => s.(members := s.members[id := m.(term := term)])
    case StepDown(id) => s.(members := s.members[id := m.(role := Follower, isLeader := false)])
    case Release(id) => s.(record := Released(s.record, none, id))
    case Mutate(id, key, term, expired) =>
      if expired || !Accepts(s.highest, key, term) then s
      else s.(highest := s.highest[key := term], writes := s.writes + [Write(key, id, term)])
  }

  /** Candidates store and use only terms they were granted, possibly long ago. */
  ghost predicate Enabled<Id(!new), K(!new)>(s: System<Id, K>, none: Id, a: Action<Id, K>) {
    && a.id in s.members && a.id != none
    && (a.RenewStore? ==> Grant(a.id, a.term) in s.grants)
    && (a.Mutate? ==> Grant(a.id, a.term) in s.grants)
  }

  ghost predicate IsRun<Id(!new), K(!new)>(none: Id, states: seq<System<Id, K>>, acts: seq<Action<Id, K>>) {
    && |states| == |acts| + 1 && Initial(none, states[0])
    && forall i :: 0 <= i < |acts| ==> StepAt(none, states, acts, i)
  }

  ghost predicate StepAt<Id(!new), K(!new)>(none: Id, states: seq<System<Id, K>>, acts: seq<Action<Id, K>>, i: nat)
    requires |states| == |acts| + 1 && i < |acts|
  {
    Enabled(states[i], none, acts[i]) && states[i + 1] == Act(states[i], none, acts[i])
  }

  ghost predicate Initial<Id(!new), K(!new)>(none: Id, s: System<Id, K>) {
    && s.record == Record(none, 0, ZERO_TIME) && s.grants == [] && s.highest == map[] && s.writes == []
    && forall id :: id in s.members ==> s.members[id] == Member(Follower, 0, false)
  }

  // ---- Invariants ----

  ghost predicate GrantsOrdered<Id(!new)>(grants: seq<Grant<Id>>) {
    forall i, j :: 0 <= i < j < |grants| ==>
      grants[i].term <= grants[j].term && (grants[i].term == grants[j].term ==> grants[i].id == grants[j].id)
  }

  /** No grant exceeds the recorded term, and the recorded leader owns it. */
  ghost predicate GrantsCurrent<Id(!new)>(r: Record<Id>, none: Id, grants: seq<Grant<Id>>) {
    && (forall i :: 0 <= i < |grants| ==> grants[i].term <= r.term)
    && (r.leader != none ==> forall i :: 0 <= i < |grants| && grants[i].term == r.term ==> grants[i].id == r.leader)
  }

  ghost predicate MembersOk<Id(!new)>(members: map<Id, Member>, grants: seq<Grant<Id>>) {
    forall id :: id in members && members[id].isLeader ==> Grant(id, members[id].term) in grants
  }

  ghost predicate WritesOk<Id(!new), K(!new)>(highest: map<K, nat>, writes: seq<Write<Id, K>>, grants: seq<Grant<Id>>) {
    && (forall i :: 0 <= i < |writes| ==> Grant(writes[i].id, writes[i].token) in grants)
    && (forall i :: 0 <= i < |writes| ==> writes[i].key in highest && writes[i].token <= highest[writes[i].key])
    && (forall i, j :: 0 <= i < j < |writes| && writes[i].key == writes[j].key ==> writes[i].token <= writes[j].token)
  }

  ghost predicate Inv<Id(!new), K(!new)>(none: Id, s: System<Id, K>) {
    && GrantsOrdered(s.grants) && GrantsCurrent(s.record, none, s.grants)
    && MembersOk(s.members, s.grants) && WritesOk(s.highest, s.writes, s.grants)
  }

  lemma {:induction false} AcquireKeeps<Id(!new)>(
      r: Record<Id>, none: Id, grants: seq<Grant<Id>>, id: Id, now: int, ttl: int)
    requires GrantsOrdered(grants) && GrantsCurrent(r, none, grants) && id != none
    requires TryAcquire(r, none, id, now, ttl).ok
    ensures var t := TryAcquire(r, none, id, now, ttl).record;
      GrantsOrdered(grants + [Grant(id, t.term)]) && GrantsCurrent(t, none, grants + [Grant(id, t.term)])
  {
  }

  lemma {:induction false} MoreGrants<Id(!new), K(!new)>(
      members: map<Id, Member>, highest: map<K, nat>, writes: seq<Write<Id, K>>, grants: seq<Grant<Id>>, g: Grant<Id>)
    requires MembersOk(members, grants) && WritesOk(highest, writes, grants)
    ensures MembersOk(members, grants + [g]) && WritesOk(highest, writes, grants + [g])
  {
    forall x | x in grants ensures x in grants + [g] {}
  }

  lemma {:induction false} AcquiredKeeps<Id(!new), K(!new)>(s: System<Id, K>, none: Id, id: Id, now: int, ttl: int)
    requires Inv(none, s) && id != none
    ensures Inv(none, Acquired(s, none, id, now, ttl))
  {
    var g := TryAcquire(s.record, none, id, now, ttl);
    if g.ok {
      AcquireKeeps(s.record, none, s.grants, id, now, ttl);
      MoreGrants(s.members, s.highest, s.writes, s.grants, Grant(id, g.record.term));
    }
  }

  lemma {:induction false} MemberKeeps<Id(!new)>(members: map<Id, Member>, grants: seq<Grant<Id>>, id: Id, m: Member)
    requires MembersOk(members, grants) && (m.isLeader ==> Grant(id, m.term) in grants)
    ensures MembersOk(members[id := m], grants)
  {
  }

  lemma {:induction false} CampaignKeeps<Id(!new), K(!new)>(s: System<Id, K>, none: Id, id: Id, now: int, ttl: int)
    requires Inv(none, s) && id != none && id in s.members
    ensures Inv(none, Act(s, none, Campaign(id, now, ttl)))
  {
    AcquiredKeeps(s, none, id, now, ttl);
    var t, g := Acquired(s, none, id, now, ttl), TryAcquire(s.record, none, id, now, ttl);
    if g.ok {
      assert t.grants[|s.grants|] == Grant(id, g.record.term);
    }
    MemberKeeps(s.members, t.grants, id, Campaigned(s.members[id], g));
  }

  lemma {:induction false} MutateKeeps<Id(!new), K(!new)>(
      highest: map<K, nat>, writes: seq<Write<Id, K>>, grants: seq<Grant<Id>>, w: Write<Id, K>)
    requires WritesOk(highest, writes, grants) && Accepts(highest, w.key, w.token) && Grant(w.id, w.token) in grants
    ensures WritesOk(highest[w.key := w.token], writes + [w], grants)
  {
  }

  lemma {:induction false} ActKeeps<Id(!new), K(!new)>(s: System<Id, K>, none: Id, a: Action<Id, K>)
    requires Inv(none, s) && Enabled(s, none, a)
    ensures Inv(none, Act(s, none, a))
  {
    match a
    case Campaign(id, now, ttl) => CampaignKeeps(s, none, id, now, ttl);
    case RenewCall(id, now, ttl) => AcquiredKeeps(s, none, id, now, ttl);
    case RenewStore(id, term) => MemberKeeps(s.members, s.grants, id, s.members[id].(term := term));
    case StepDown(id) => MemberKeeps(s.members, s.grants, id, s.members[id].(role := Follower, isLeader := false));
    case Release(id) =>
    case Mutate(id, key, term, expired) =>
      if !expired && Accepts(s.highest, key, term) {
        MutateKeeps(s.highest, s.writes, s.grants, Write(key, id, term));
      }
  }

  lemma {:induction false} RunKeeps<Id(!new), K(!new)>(
      none: Id, states: seq<System<Id, K>>, acts: seq<Action<Id, K>>, n: nat)
    requires IsRun(none, states, acts) && n < |states|
    ensures Inv(none, states[n])
  {
    if n > 0 {
      RunKeeps(none, states, acts, n - 1);
      assert StepAt(none, states, acts, n - 1);
      ActKeeps(states[n - 1], none, acts[n - 1]);
    }
  }

  // ---- What the invariants mean ----

  /** In every reachable state two candidates that both believe to lead hold different terms. */
  lemma {:induction false} NoSplitTerm<Id(!new), K(!new)>(
      none: Id, states: seq<System<Id, K>>, acts: seq<Action<Id, K>>, n: nat, a: Id, b: Id)
    requires IsRun(none, states, acts) && n < |states| && a != b && a in states[n].members && b in states[n].members
    requires states[n].members[a].isLeader && states[n].members[b].isLeader
    ensures states[n].members[a].term != states[n].members[b].term
  {
    RunKeeps(none, states, acts, n);
    SameTermSameOwner(states[n].grants, Grant(a, states[n].members[a].term), Grant(b, states[n].members[b].term));
  }

  lemma {:induction false} SameTermSameOwner<Id(!new)>(grants: seq<Grant<Id>>, x: Grant<Id>, y: Grant<Id>)
    requires GrantsOrdered(grants) && x in grants && y in grants
    ensures x.term == y.term ==> x.id == y.id
  {
    var i :| 0 <= i < |grants| && grants[i] == x;
    var j :| 0 <= j < |grants| && grants[j] == y;
  }

  /** Terms are granted in non-decreasing order, and every term to one candidate only. */
  lemma {:induction false} TermsNeverDecrease<Id(!new), K(!new)>(
      none: Id, states: seq<System<Id, K>>, acts: seq<Action<Id, K>>, n: nat, i: nat, j: nat)
    requires IsRun(none, states, acts) && n < |states| && i < j < |states[n].grants|
    ensures states[n].grants[i].term <= states[n].grants[j].term
    ensures states[n].grants[i].term == states[n].grants[j].term ==> states[n].grants[i].id == states[n].grants[j].id
  {
    RunKeeps(none, states, acts, n);
  }

  /**
   No zombie writes: on every key, accepted puts and deletes come in the order of their terms, and those of
   one term all come from the candidate it was granted to.
   */
  lemma {:induction false} NoZombieWrites<Id(!new), K(!new)>(
      none: Id, states: seq<System<Id, K>>, acts: seq<Action<Id, K>>, n: nat, i: nat, j: nat)
    requires IsRun(none, states, acts) && n < |states| && i < j < |states[n].writes|
    requires states[n].writes[i].key == states[n].writes[j].key
    ensures states[n].writes[i].token <= states[n].writes[j].token
    ensures states[n].writes[i].token == states[n].writes[j].token ==> states[n].writes[i].id == states[n].writes[j].id
  {
    RunKeeps(none, states, acts, n);
    var x, y := states[n].writes[i], states[n].writes[j];
    SameTermSameOwner(states[n].grants, Grant(x.id, x.token), Grant(y.id, y.token));
  }
}
