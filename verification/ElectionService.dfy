/**
 The coordinator, candidate, fenced storage and token generator objects, each method one atomic step.
 */
module ElectionService {
  import opened Election
  import opened Options

  class InMemCoordinator<Id(==, !new)> {
    const none: Id
    var record: Record<Id>

    constructor (none: Id)
      ensures this.none == none && record == Record(none, 0, ZERO_TIME)
    {
      this.none := none;
      record := Record(none, 0, ZERO_TIME);
    }

    method TryAcquireOrRenew(candidateID: Id, now: int, ttl: int) returns (rec: Record<Id>, acquired: bool)
      modifies this
      ensures Granted(record, acquired) == TryAcquire(old(record), none, candidateID, now, ttl) && rec == record
      ensures acquired <==>
        old(record).leader == none || old(record).leader == candidateID || old(record).expires <= now
      ensures acquired ==> record.leader == candidateID && record.expires == now + ttl
      ensures !acquired ==> record == old(record)
    {
      if record.leader != none && record.leader != candidateID && now < record.expires {
        return record, false;
      }
      if record.leader != candidateID || now > record.expires {
        record := record.(term := record.term + 1);
      }
      record := record.(leader := candidateID, expires := now + ttl);
      return record, true;
    }

    method ReleaseLease(candidateID: Id)
      modifies this
      ensures record == Released(old(record), none, candidateID)
    {
      if record.leader == candidateID {
        record := record.(leader := none, expires := ZERO_TIME);
      }
    }
  }

  class Candidate<Id(==, !new)> {
    const id: Id
    const coord: InMemCoordinator<Id>
    const leaseDuration: int
    var state: Role
    var term: nat
    var isLeader: bool

    function AsMember(): Member
      reads this
    {
      Member(state, term, isLeader)
    }

    constructor (id: Id, coord: InMemCoordinator<Id>, leaseDuration: int)
      ensures this.id == id && this.coord == coord && AsMember() == Member(Follower, 0, false)
      ensures this.leaseDuration == if leaseDuration <= 0 then 500 else leaseDuration
    {
      this.id, this.coord := id, coord;
      this.leaseDuration := if leaseDuration <= 0 then 500 else leaseDuration;
      state, term, isLeader := Follower, 0, false;
    }

    /** One campaign, under the candidate's lock: it becomes leader of the granted term, or a follower. */
    method TryCampaign(now: int) returns (won: bool)
      modifies this, coord
      ensures var g := TryAcquire(old(coord.record), coord.none, id, now, leaseDuration);
        coord.record == g.record && won == g.ok && AsMember() == Campaigned(old(AsMember()), g)
    {
      state := Contender;
      var rec, acquired := coord.TryAcquireOrRenew(id, now, leaseDuration);
      if acquired {
        state, term, isLeader := Leader, rec.term, true;
        return true;
      }
      state, isLeader := Follower, false;
      won := false;
    }

    /** The heartbeat's call; its result is stored later, by `StoreTerm` or `StandDown`. */
    method CallRenew(now: int) returns (rec: Record<Id>, renewed: bool)
      modifies coord
      ensures Granted(coord.record, renewed) == TryAcquire(old(coord.record), coord.none, id, now, leaseDuration)
      ensures rec == coord.record
    {
      rec, renewed := coord.TryAcquireOrRenew(id, now, leaseDuration);
    }

    method StoreTerm(t: nat)
      modifies this`term
      ensures AsMember() == old(AsMember()).(term := t)
    {
      term := t;
    }

    /** The locked part of stepping down; a former leader releases its lease afterwards. */
    method StandDown() returns (wasLeader: bool)
      modifies this`state, this`isLeader
      ensures wasLeader == (old(state) == Leader) && AsMember() == old(AsMember()).(role := Follower, isLeader := false)
    {
      wasLeader := state == Leader;
      state, isLeader := Follower, false;
    }
  }

  // ---- Fenced storage ----

  datatype Token<R, Id> = Token(resource: R, number: nat, owner: Id, epoch: nat, issuedAt: int, expiresAt: int)
  datatype Stored<V, R, Id> = Stored(value: V, token: Token<R, Id>)
  datatype Lookup<V, R, Id> = Present(entry: Stored<V, R, Id>) | Missing
  datatype Outcome = Done | TokenExpired | StaleToken

  predicate IsExpired<R, Id>(t: Token<R, Id>, now: int) {
    now > t.expiresAt
  }

  /** Some accepted write of `key` carried the token `n`. */
  ghost predicate Written<Id, K>(writes: seq<Write<Id, K>>, key: K, n: nat) {
    exists i :: 0 <= i < |writes| && writes[i].key == key && writes[i].token == n
  }

  /** No accepted write of `key` carried a higher token than `n`. */
  ghost predicate Newest<Id, K>(writes: seq<Write<Id, K>>, key: K, n: nat) {
    forall i :: 0 <= i < |writes| && writes[i].key == key ==> writes[i].token <= n
  }

  /** The highest token of a key is that of an accepted write, and the writes of a key are ordered by token. */
  ghost predicate WritesHeld<Id, K(!new)>(highest: map<K, nat>, writes: seq<Write<Id, K>>) {
    && (forall k | k in highest :: Written(writes, k, highest[k]))
    && (forall i :: 0 <= i < |writes| ==> writes[i].key in highest && writes[i].token <= highest[writes[i].key])
    && (forall i, j :: 0 <= i < j < |writes| && writes[i].key == writes[j].key ==> writes[i].token <= writes[j].token)
  }

  lemma {:induction false} NewestIff<Id, K(!new)>(highest: map<K, nat>, writes: seq<Write<Id, K>>, key: K, n: nat)
    requires WritesHeld(highest, writes)
    ensures Newest(writes, key, n) <==> key !in highest || highest[key] <= n
  {
    if key in highest {
      assert Written(writes, key, highest[key]);
    }
  }

  lemma {:induction false} WriteKeeps<Id, K(!new)>(highest: map<K, nat>, writes: seq<Write<Id, K>>, w: Write<Id, K>)
    requires WritesHeld(highest, writes) && Newest(writes, w.key, w.token)
    ensures WritesHeld(highest[w.key := w.token], writes + [w])
  {
    var now, more := highest[w.key := w.token], writes + [w];
    forall k | k in now ensures Written(more, k, now[k]) {
      if k == w.key {
        assert more[|writes|] == w;
      } else {
        assert Written(writes, k, highest[k]);
        var i :| 0 <= i < |writes| && writes[i].key == k && writes[i].token == highest[k];
        assert more[i] == writes[i];
      }
    }
  }

  class FencedStorage<K(==, !new), V, R, Id(==, !new)> {
    var store: map<K, Stored<V, R, Id>>
    var highestToken: map<K, nat>
    var rejected: nat
    /** Accepted puts and deletes, oldest first. */
    ghost var writes: seq<Write<Id, K>>

    /** A stored entry carries the highest token of its key, which is that of an accepted write. */
    ghost predicate Valid()
      reads this
    {
      && (forall k :: k in store ==> k in highestToken && store[k].token.number == highestToken[k])
      && WritesHeld(highestToken, writes)
    }

    constructor ()
      ensures Valid() && store == map[] && highestToken == map[] && writes == [] && rejected == 0
    {
      store, highestToken, rejected, writes := map[], map[], 0, [];
    }

    method Put(key: K, value: V, token: Token<R, Id>, now: int) returns (r: Outcome)
      requires Valid()
      modifies this
      ensures Valid()
      ensures r == TokenExpired <==> now > token.expiresAt
      ensures r == Done <==> now <= token.expiresAt && Newest(old(writes), key, token.number)
      ensures r == Done ==>
        store == old(store)[key := Stored(value, token)] && highestToken == old(highestToken)[key := token.number]
      ensures r == Done ==> writes == old(writes) + [Write(key, token.owner, token.number)]
      ensures r != Done ==> store == old(store) && highestToken == old(highestToken) && writes == old(writes)
      ensures rejected == old(rejected) + if r == StaleToken then 1 else 0
    {
      if IsExpired(token, now) {
        return TokenExpired;
      }
      NewestIff(highestToken, writes, key, token.number);
      if key in highestToken && token.number < highestToken[key] {
        rejected := rejected + 1;
        return StaleToken;
      }
      WriteKeeps(highestToken, writes, Write(key, token.owner, token.number));
      highestToken := highestToken[key := token.number];
      store := store[key := Stored(value, token)];
      writes := writes + [Write(key, token.owner, token.number)];
      r := Done;
    }

    /** An entry that can be read was written with the highest token its key has seen. */
    method Get(key: K) returns (r: Lookup<V, R, Id>)
      requires Valid()
      ensures r == if key in store then Present(store[key]) else Missing
      ensures r.Present? ==> key in highestToken && r.entry.token.number == highestToken[key]
      ensures r.Present? ==> forall i ::
        0 <= i < |writes| && writes[i].key == key ==> writes[i].token <= r.entry.token.number
    {
      if key !in store {
        return Missing;
      }
      r := Present(store[key]);
    }

    /** A delete keeps the highest token, so that earlier tokens stay refused. */
    method Delete(key: K, token: Token<R, Id>, now: int) returns (r: Outcome)
      requires Valid()
      modifies this
      ensures Valid()
      ensures r == TokenExpired <==> now > token.expiresAt
      ensures r == Done <==> now <= token.expiresAt && Newest(old(writes), key, token.number)
      ensures r == Done ==> store == old(store) - {key} && highestToken == old(highestToken)[key := token.number]
      ensures r == Done ==> writes == old(writes) + [Write(key, token.owner, token.number)]
      ensures r != Done ==> store == old(store) && highestToken == old(highestToken) && writes == old(writes)
      ensures rejected == old(rejected) + if r == StaleToken then 1 else 0
    {
      if IsExpired(token, now) {
        return TokenExpired;
      }
      NewestIff(highestToken, writes, key, token.number);
      if key in highestToken && token.number < highestToken[key] {
        rejected := rejected + 1;
        return StaleToken;
      }
      WriteKeeps(highestToken, writes, Write(key, token.owner, token.number));
      highestToken := highestToken[key := token.number];
      store := store - {key};
      writes := writes + [Write(key, token.owner, token.number)];
      r := Done;
    }
  }

  // ---- Token generator ----

  datatype Issued<R> = Issued(resource: R, number: nat)

  /** How many tokens were issued for `r`. */
  ghost function CountFor<R(!new)>(log: seq<Issued<R>>, r: R): nat {
    if log == [] then 0 else CountFor(log[..|log| - 1], r) + if log[|log| - 1].resource == r then 1 else 0
  }

  /** Each resource's tokens are numbered 1, 2, 3, ... in the order of issue. */
  ghost predicate Numbered<R(!new)>(log: seq<Issued<R>>) {
    forall i :: 0 <= i < |log| ==> log[i].number == CountFor(log[..i + 1], log[i].resource)
  }

  lemma {:induction false} CountGrows<R(!new)>(log: seq<Issued<R>>, i: nat, j: nat, r: R)
    requires i <= j <= |log|
    ensures CountFor(log[..i], r) <= CountFor(log[..j], r)
    decreases j
  {
    if i < j {
      assert log[..j][..j - 1] == log[..j - 1];
      CountGrows(log, i, j - 1, r);
    }
  }

  /** Tokens of one resource strictly increase, whatever epochs are started in between. */
  lemma {:induction false} TokensIncrease<R(!new)>(log: seq<Issued<R>>, i: nat, j: nat)
    requires Numbered(log) && i < j < |log| && log[i].resource == log[j].resource
    ensures log[i].number < log[j].number
  {
    CountGrows(log, i + 1, j, log[i].resource);
    assert log[..j + 1][..j] == log[..j];
  }

  lemma {:induction false} NumberedSnoc<R(!new)>(log: seq<Issued<R>>, r: R)
    requires Numbered(log)
    ensures Numbered(log + [Issued(r, CountFor(log, r) + 1)])
    ensures forall x ::
      CountFor(log + [Issued(r, CountFor(log, r) + 1)], x) == CountFor(log, x) + if x == r then 1 else 0
  {
    var more := log + [Issued(r, CountFor(log, r) + 1)];
    assert more[..|log|] == log;
    forall i | 0 <= i < |more| ensures more[i].number == CountFor(more[..i + 1], more[i].resource) {
      if i < |log| {
        assert more[..i + 1] == log[..i + 1];
      } else {
        assert more[..i + 1] == more;
      }
    }
  }

  /** The last token issued for `r`. */
  ghost function LastFor<R(!new), Id>(log: seq<Token<R, Id>>, r: R): Option<Token<R, Id>> {
    if log == [] then None
    else if log[|log| - 1].resource == r then Some(log[|log| - 1])
    else LastFor(log[..|log| - 1], r)
  }

  lemma {:induction false} LastForIs<R(!new), Id>(log: seq<Token<R, Id>>, r: R)
    ensures LastFor(log, r).None? ==> forall i :: 0 <= i < |log| ==> log[i].resource != r
    ensures LastFor(log, r).Some? ==>
      exists i :: 0 <= i < |log| && log[i] == LastFor(log, r).value && log[i].resource == r
        && forall j :: i < j < |log| ==> log[j].resource != r
  {
    if log != [] {
      var n := |log| - 1;
      if log[n].resource == r {
        assert log[n] == LastFor(log, r).value;
      } else {
        LastForIs(log[..n], r);
        assert forall i :: 0 <= i < n ==> log[..n][i] == log[i];
      }
    }
  }

  lemma {:induction false} LastForSnoc<R(!new), Id>(log: seq<Token<R, Id>>, t: Token<R, Id>)
    ensures forall r :: LastFor(log + [t], r) == if r == t.resource then Some(t) else LastFor(log, r)
  {
    assert (log + [t])[..|log|] == log;
  }

  function At<R>(m: map<R, nat>, r: R): nat {
    if r in m then m[r] else 0
  }

  /** Counters and active tokens are what the tokens issued so far make them. */
  ghost predicate TokensOk<R(!new), Id>(
      last: map<R, nat>, active: map<R, Token<R, Id>>, issued: seq<Issued<R>>, log: seq<Token<R, Id>>) {
    && Numbered(issued)
    && (forall r :: At(last, r) == CountFor(issued, r))
    && (forall r :: r in active <==> CountFor(issued, r) > 0)
    && (forall r :: r in active ==> active[r].resource == r && active[r].number == At(last, r))
    && (forall r :: LastFor(log, r) == if r in active then Some(active[r]) else None)
    && |log| == |issued| && (forall i :: 0 <= i < |log| ==> issued[i] == Issued(log[i].resource, log[i].number))
  }

  lemma {:induction false} IssueKeeps<R(!new), Id>(
      last: map<R, nat>, active: map<R, Token<R, Id>>, issued: seq<Issued<R>>, log: seq<Token<R, Id>>, t: Token<R, Id>)
    requires TokensOk(last, active, issued, log) && t.number == At(last, t.resource) + 1
    ensures TokensOk(last[t.resource := t.number], active[t.resource := t],
                     issued + [Issued(t.resource, t.number)], log + [t])
  {
    NumberedSnoc(issued, t.resource);
    LastForSnoc(log, t);
  }

  class TokenGenerator<R(==, !new), Id> {
    var lastToken: map<R, nat>
    var epochs: map<R, nat>
    var activeTokens: map<R, Token<R, Id>>
    ghost var issued: seq<Issued<R>>
    ghost var log: seq<Token<R, Id>>

    ghost predicate Valid()
      reads this
    {
      TokensOk(lastToken, activeTokens, issued, log)
    }

    constructor ()
      ensures Valid() && issued == [] && log == [] && epochs == map[]
    {
      lastToken, epochs, activeTokens, issued, log := map[], map[], map[], [], [];
    }

    /** Issues the resource's next number; its first token also sets the epoch to 1. */
    method AcquireToken(resource: R, owner: Id, ttl: int, now: int) returns (t: Token<R, Id>)
      requires Valid()
      modifies this
      ensures Valid() && issued == old(issued) + [Issued(resource, t.number)]
      ensures t.number == CountFor(old(issued), resource) + 1
      ensures t == Token(resource, t.number, owner, At(epochs, resource), now, now + if ttl <= 0 then 30 else ttl)
      ensures epochs == if t.number == 1 then old(epochs)[resource := 1] else old(epochs)
      ensures activeTokens == old(activeTokens)[resource := t] && log == old(log) + [t]
    {
      lastToken := lastToken[resource := At(lastToken, resource) + 1];
      var number := lastToken[resource];
      var epoch := At(epochs, resource);
      if number == 1 {
        epoch := 1;
        epochs := epochs[resource := 1];
      }
      t := Token(resource, number, owner, epoch, now, now + if ttl <= 0 then 30 else ttl);
      activeTokens := activeTokens[resource := t];
      issued := issued + [Issued(resource, number)];
      log := log + [t];
      IssueKeeps(old(lastToken), old(activeTokens), old(issued), old(log), t);
    }

    /** Advances the epoch only: the numbering goes on where it was. */
    method NextEpoch(resource: R) returns (epoch: nat)
      requires Valid()
      modifies this`epochs
      ensures Valid() && epoch == At(old(epochs), resource) + 1 && epochs == old(epochs)[resource := epoch]
    {
      epochs := epochs[resource := At(epochs, resource) + 1];
      epoch := epochs[resource];
    }

    /** The most recently issued token of a resource, if any. */
    method LatestToken(resource: R) returns (r: Option<Token<R, Id>>)
      requires Valid()
      ensures r.Some? <==> exists i :: 0 <= i < |issued| && issued[i].resource == resource
      ensures r.Some? ==> exists i ::
        && 0 <= i < |issued| && log[i] == r.value && issued[i] == Issued(resource, r.value.number)
        && forall j :: i < j < |issued| ==> issued[j].resource != resource
    {
      LastForIs(log, resource);
      if resource in activeTokens {
        return Some(activeTokens[resource]);
      }
      return None;
    }
  }
}
