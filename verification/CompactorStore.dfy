/**
 The store object: its loops over memtable and tables, tied to the steps of `Compactor`.
 Keys are any totally ordered type; values any type.
 */
module CompactorStore {
  import opened Compactor
  import opened Options
  import opened Sequences
  import opened Sorting

  // ---- Looking up one table ----

  /** `sort.Search`: the first row whose key is not below `key`. */
  method Search<K(==, !new), V>(less: (K, K) -> bool, rows: seq<Entry<K, V>>, key: K) returns (idx: nat)
    requires TotalOrder(less) && Sorted(less, rows)
    ensures idx <= |rows|
    ensures forall i :: 0 <= i < idx ==> less(rows[i].key, key)
    ensures forall i :: idx <= i < |rows| ==> !less(rows[i].key, key)
  {
    var lo, hi := 0, |rows|;
    while lo < hi
      invariant 0 <= lo <= hi <= |rows|
      invariant forall i :: 0 <= i < lo ==> less(rows[i].key, key)
      invariant forall i :: hi <= i < |rows| ==> !less(rows[i].key, key)
    {
      var h := (lo + hi) / 2;
      if less(rows[h].key, key) {
        lo := h + 1;
      } else {
        hi := h;
      }
    }
    idx := lo;
  }

  function Lookup<K(==), V>(m: Entries<K, V>, key: K): Option<Entry<K, V>> {
    if key in m then Some(m[key]) else None
  }

  lemma {:induction false} SearchAnswers<K(!new), V>(less: (K, K) -> bool, rows: seq<Entry<K, V>>, key: K, idx: nat)
    requires TotalOrder(less) && Sorted(less, rows) && idx <= |rows|
    requires forall i :: 0 <= i < idx ==> less(rows[i].key, key)
    requires forall i :: idx <= i < |rows| ==> !less(rows[i].key, key)
    ensures Lookup(ByKey(rows), key) == if idx < |rows| && rows[idx].key == key then Some(rows[idx]) else None
  {
    ByKeyHas(rows, key);
    if idx < |rows| && rows[idx].key == key {
      ByKeyAt(less, rows, idx);
    } else {
      forall i | 0 <= i < |rows| ensures rows[i].key != key {
        assert idx < i ==> less(rows[idx].key, rows[i].key);
      }
    }
  }

  lemma {:induction false} OutOfRange<K(!new), V>(less: (K, K) -> bool, rows: seq<Entry<K, V>>, key: K)
    requires TotalOrder(less) && Sorted(less, rows)
    requires rows == [] || less(key, rows[0].key) || less(rows[|rows| - 1].key, key)
    ensures key !in ByKey(rows)
  {
    ByKeyHas(rows, key);
    forall i | 0 <= i < |rows| ensures rows[i].key != key {
      assert 0 < i ==> less(rows[0].key, rows[i].key);
      assert i < |rows| - 1 ==> less(rows[i].key, rows[|rows| - 1].key);
    }
  }

  method GetFrom<K(==, !new), V(!new)>(less: (K, K) -> bool, t: Table<K, V>, key: K) returns (r: Option<Entry<K, V>>)
    requires TotalOrder(less) && TableOk(less, t)
    ensures r == Lookup(ByKey(Rows(t)), key)
  {
    if t.EmptyTable? || less(key, t.minKey) || less(t.maxKey, key) {
      OutOfRange(less, Rows(t), key);
      return None;
    }
    var idx := Search(less, t.rows, key);
    SearchAnswers(less, t.rows, key, idx);
    if idx < |t.rows| && t.rows[idx].key == key {
      return Some(t.rows[idx]);
    }
    r := None;
  }

  // ---- Building a table ----

  /** `es` lists exactly the entries of `m`, each once. */
  ghost predicate Lists<K(!new), V(!new)>(es: seq<Entry<K, V>>, m: Entries<K, V>) {
    && (forall e :: e in es <==> e.key in m && m[e.key] == e)
    && (forall i, j :: 0 <= i < j < |es| ==> es[i].key != es[j].key)
  }

  function ByKeyOrder<K, V>(less: (K, K) -> bool): (Entry<K, V>, Entry<K, V>) -> bool {
    (a: Entry<K, V>, b: Entry<K, V>) => less(a.key, b.key)
  }

  lemma {:induction false} KeyOrder<K(!new), V(!new)>(less: (K, K) -> bool)
    requires TotalOrder(less)
    ensures StrictWeakOrder(ByKeyOrder<K, V>(less))
  {
    var lt := ByKeyOrder<K, V>(less);
    forall x: Entry<K, V>, y: Entry<K, V>, z: Entry<K, V>
      ensures !lt(x, x) && (lt(x, y) && lt(y, z) ==> lt(x, z)) && (lt(x, z) ==> lt(x, y) || lt(y, z))
    {
      assert lt(x, y) == less(x.key, y.key) && lt(y, z) == less(y.key, z.key) && lt(x, z) == less(x.key, z.key);
    }
  }

  lemma {:induction false} DistinctKeys<K(!new), V(!new)>(
      es: seq<Entry<K, V>>, sorted: seq<Entry<K, V>>, i: nat, j: nat)
    requires multiset(sorted) == multiset(es) && i < j < |sorted|
    requires forall a, b :: 0 <= a < b < |es| ==> es[a].key != es[b].key
    ensures sorted[i].key != sorted[j].key
  {
    assert Distinct(es);
    DistinctPermutation(es, sorted);
    SameElements(sorted, es);
    assert sorted[i] in sorted && sorted[j] in sorted;
    var a :| 0 <= a < |es| && es[a] == sorted[i];
    var b :| 0 <= b < |es| && es[b] == sorted[j];
  }

  lemma {:induction false} SortedTable<K(!new), V(!new)>(
      less: (K, K) -> bool, es: seq<Entry<K, V>>, m: Entries<K, V>, sorted: seq<Entry<K, V>>)
    requires TotalOrder(less) && Lists(es, m) && Keyed(m)
    requires multiset(sorted) == multiset(es) && Ordered(ByKeyOrder(less), sorted)
    ensures TableOf(less, NewTable(sorted), m)
  {
    forall i, j | 0 <= i < j < |sorted| ensures less(sorted[i].key, sorted[j].key) {
      DistinctKeys(es, sorted, i, j);
      assert !ByKeyOrder(less)(sorted[j], sorted[i]);
    }
    SameElements(sorted, es);
    RowsOf(less, sorted, m);
    assert Rows(NewTable(sorted)) == sorted;
  }

  lemma {:induction false} RowsOf<K(!new), V(!new)>(less: (K, K) -> bool, rows: seq<Entry<K, V>>, m: Entries<K, V>)
    requires TotalOrder(less) && Sorted(less, rows) && Keyed(m)
    requires forall e :: e in rows <==> e.key in m && m[e.key] == e
    ensures ByKey(rows) == m
  {
    forall k ensures k in ByKey(rows) <==> k in m {
      ByKeyHas(rows, k);
      if k in m {
        assert m[k] in rows;
      }
    }
    forall k | k in m ensures ByKey(rows)[k] == m[k] {
      assert m[k] in rows;
      var i :| 0 <= i < |rows| && rows[i] == m[k];
      ByKeyAt(less, rows, i);
    }
  }

  /** The loop over a map in any order, then the sort. */
  method BuildTable<K(==, !new), V(!new)>(less: (K, K) -> bool, m: Entries<K, V>) returns (t: Table<K, V>)
    requires TotalOrder(less) && Keyed(m)
    ensures TableOf(less, t, m)
  {
    var es: seq<Entry<K, V>> := [];
    var todo := m.Keys;
    while todo != {}
      invariant todo <= m.Keys && Lists(es, m - todo)
      decreases todo
    {
      var k :| k in todo;
      ListOne(es, m, todo, k);
      es := es + [m[k]];
      todo := todo - {k};
    }
    assert m - todo == m;
    var sorted := SortBy(ByKeyOrder(less), es);
    KeyOrder<K, V>(less);
    SortOrdered(ByKeyOrder(less), es);
    SortedTable(less, es, m, sorted);
    t := NewTable(sorted);
  }

  lemma {:induction false} ListOne<K(!new), V(!new)>(es: seq<Entry<K, V>>, m: Entries<K, V>, todo: set<K>, k: K)
    requires Keyed(m) && k in todo && k in m && Lists(es, m - todo)
    ensures Lists(es + [m[k]], m - (todo - {k}))
  {
    var more := es + [m[k]];
    forall e ensures e in more <==> e.key in m - (todo - {k}) && (m - (todo - {k}))[e.key] == e {
      assert e in more <==> e in es || e == m[k];
    }
    forall i, j | 0 <= i < j < |more| ensures more[i].key != more[j].key {
      assert more[i] in es;
    }
  }

  // ---- Purging and merging ----

  function Purged<K, V>(rows: seq<Entry<K, V>>): seq<Entry<K, V>> {
    if rows == [] then []
    else Purged(rows[..|rows| - 1]) + if rows[|rows| - 1].Tombstone? then [] else [rows[|rows| - 1]]
  }

  lemma {:induction false} PurgedRows<K(!new), V(!new)>(less: (K, K) -> bool, rows: seq<Entry<K, V>>)
    requires Sorted(less, rows)
    ensures Sorted(less, Purged(rows)) && forall e :: e in Purged(rows) <==> e in rows && e.Live?
  {
    if rows != [] {
      var front, last := rows[..|rows| - 1], rows[|rows| - 1];
      PurgedRows(less, front);
      assert rows == front + [last];
      var kept := Purged(front);
      forall i | 0 <= i < |kept| ensures less(kept[i].key, last.key) {
        assert kept[i] in front;
        var j :| 0 <= j < |front| && front[j] == kept[i];
        assert less(rows[j].key, rows[|rows| - 1].key);
      }
    }
  }

  lemma {:induction false} PurgedTable<K(!new), V(!new)>(less: (K, K) -> bool, t: Table<K, V>)
    requires TotalOrder(less) && TableOk(less, t)
    ensures TableOf(less, NewTable(Purged(Rows(t))), LiveEntries(ByKey(Rows(t))))
  {
    var rows := Rows(t);
    var live := LiveEntries(ByKey(rows));
    PurgedRows(less, rows);
    forall k | k in ByKey(rows) ensures ByKey(rows)[k].key == k { ByKeyHas(rows, k); }
    forall e ensures e in Purged(rows) <==> e.key in live && live[e.key] == e {
      ByKeyHas(rows, e.key);
      if e in rows {
        var i :| 0 <= i < |rows| && rows[i] == e;
        ByKeyAt(less, rows, i);
      }
    }
    RowsOf(less, Purged(rows), live);
    assert Rows(NewTable(Purged(rows))) == Purged(rows);
  }

  method Purge<K(==, !new), V(!new)>(rows: seq<Entry<K, V>>) returns (live: seq<Entry<K, V>>)
    ensures live == Purged(rows)
  {
    live := [];
    for i := 0 to |rows|
      invariant live == Purged(rows[..i])
    {
      assert rows[..i + 1][..i] == rows[..i];
      if !rows[i].Tombstone? {
        live := live + [rows[i]];
      }
    }
    assert rows[..|rows|] == rows;
  }

  method Merge<K(==, !new), V(!new)>(tables: seq<Table<K, V>>) returns (latest: Entries<K, V>)
    ensures latest == MergeTables(tables)
  {
    latest := map[];
    for i := 0 to |tables|
      invariant latest == MergeTables(tables[..i])
    {
      assert tables[..i + 1] == tables[..i] + [tables[i]];
      MergeSnoc(tables[..i], tables[i]);
      latest := MergeOne(latest, Rows(tables[i]));
    }
    assert tables[..|tables|] == tables;
  }

  method MergeOne<K(==, !new), V(!new)>(before: Entries<K, V>, rows: seq<Entry<K, V>>) returns (latest: Entries<K, V>)
    ensures latest == MergeRows(before, rows)
  {
    latest := before;
    for j := 0 to |rows|
      invariant latest == MergeRows(before, rows[..j])
    {
      assert rows[..j + 1][..j] == rows[..j];
      var e := rows[j];
      if e.key !in latest || e.seqNo > latest[e.key].seqNo {
        latest := latest[e.key := e];
      }
    }
    assert rows[..|rows|] == rows;
  }

  /** One table is purged in place; several are merged by sequence number first. */
  method CompactedTable<K(==, !new), V(!new)>(less: (K, K) -> bool, tables: seq<Table<K, V>>, ghost marks: seq<nat>)
    returns (t: Table<K, V>)
    requires TotalOrder(less) && Layered(tables, marks) && tables != []
    requires forall i :: 0 <= i < |tables| ==> TableOk(less, tables[i])
    ensures TableOf(less, t, LiveEntries(if |tables| == 1 then ByKey(Rows(tables[0])) else MergeTables(tables)))
  {
    if |tables| == 1 {
      PurgedTable(less, tables[0]);
      var live := Purge(Rows(tables[0]));
      return NewTable(live);
    }
    MergedKeyed(less, tables, marks);
    var latest := Merge(tables);
    t := BuildTable(less, map k | k in latest && !latest[k].Tombstone? :: latest[k]);
  }

  // ---- Reading through the tables ----

  lemma {:induction false} NewestSplit<K(!new), V>(tables: seq<Table<K, V>>, i: nat)
    requires i <= |tables|
    ensures Newest(tables) == Newest(tables[..i]) + Newest(tables[i..])
  {
    if i == 0 {
      assert tables[0..] == tables;
      assert map[] + Newest(tables) == Newest(tables);
    } else {
      NewestSplit(tables[1..], i - 1);
      assert tables[1..][..i - 1] == tables[..i][1..] && tables[1..][i - 1..] == tables[i..];
      MapAssoc(ByKey(Rows(tables[0])), Newest(tables[..i][1..]), Newest(tables[i..]));
    }
  }

  lemma {:induction false} NewestFrom<K(!new), V>(tables: seq<Table<K, V>>, i: nat)
    requires i < |tables|
    ensures Newest(tables[i..]) == ByKey(Rows(tables[i])) + Newest(tables[i + 1..])
  {
    assert tables[i..][1..] == tables[i + 1..];
  }

  // ---- Counting live keys ----

  function Flags<K(==), V>(m: Entries<K, V>): map<K, bool> {
    map k | k in m :: m[k].Live?
  }

  /** Adds the flag of `e` unless a newer entry of its key has been seen. */
  function See<K(==), V>(seen: map<K, bool>, e: Entry<K, V>): map<K, bool> {
    if e.key in seen then seen else seen[e.key := !e.Tombstone?]
  }

  lemma {:induction false} SeeFlags<K(!new), V>(rows: Entries<K, V>, newer: Entries<K, V>, e: Entry<K, V>)
    requires e.key !in rows
    ensures See(Flags(rows + newer), e) == Flags(rows[e.key := e] + newer)
  {
  }

  lemma {:induction false} FreshKey<K(!new), V(!new)>(less: (K, K) -> bool, rows: seq<Entry<K, V>>, j: nat)
    requires TotalOrder(less) && Sorted(less, rows) && j < |rows|
    ensures rows[j].key !in ByKey(rows[..j])
    ensures ByKey(rows[..j + 1]) == ByKey(rows[..j])[rows[j].key := rows[j]]
  {
    ByKeyHas(rows[..j], rows[j].key);
    assert rows[..j + 1][..j] == rows[..j];
    forall i | 0 <= i < j ensures rows[..j][i].key != rows[j].key {
      assert less(rows[i].key, rows[j].key);
    }
  }

  method SeeRows<K(==, !new), V(!new)>(
      less: (K, K) -> bool, t: Table<K, V>, before: map<K, bool>, ghost newer: Entries<K, V>)
    returns (seen: map<K, bool>)
    requires TotalOrder(less) && TableOk(less, t) && before == Flags(newer)
    ensures seen == Flags(ByKey(Rows(t)) + newer)
  {
    var rows := Rows(t);
    seen := before;
    assert map[] + newer == newer;
    for j := 0 to |rows|
      invariant seen == Flags(ByKey(rows[..j]) + newer)
    {
      FreshKey(less, rows, j);
      SeeFlags(ByKey(rows[..j]), newer, rows[j]);
      var e := rows[j];
      if e.key !in seen {
        seen := seen[e.key := !e.Tombstone?];
      }
    }
    assert rows[..|rows|] == rows;
  }

  method CountTrue<K(==, !new)>(seen: map<K, bool>) returns (n: nat)
    ensures n == |set k | k in seen && seen[k]|
  {
    n := 0;
    var todo := seen.Keys;
    ghost var counted: set<K> := {};
    while todo != {}
      invariant todo <= seen.Keys && counted == set k | k in seen && k !in todo && seen[k]
      invariant n == |counted|
      decreases todo
    {
      var k :| k in todo;
      if seen[k] {
        n := n + 1;
        counted := counted + {k};
      }
      todo := todo - {k};
    }
    assert counted == set k | k in seen && seen[k];
  }

  lemma {:induction false} LiveKeys<K(!new), V>(m: Entries<K, V>)
    ensures |set k | k in Flags(m) && Flags(m)[k]| == |LiveOnly(m)|
  {
    assert (set k | k in Flags(m) && Flags(m)[k]) == LiveOnly(m).Keys;
    assert |LiveOnly(m)| == |LiveOnly(m).Keys|;
  }

  // ---- The store ----

  datatype Written = Sequence(n: nat) | StoreClosed
  datatype GetResult<V> = Found(value: V) | Absent | GetClosed

  const DEFAULT_THRESHOLD := 50

  class Store<K(==, !new), V(!new)> {
    const less: (K, K) -> bool
    const flushThreshold: int
    var memTable: Entries<K, V>
    var snapshots: seq<Table<K, V>>
    var seqCounter: nat
    var closed: bool
    ghost var marks: seq<nat>

    ghost function State(): StoreState<K, V>
      reads this
    {
      StoreState(memTable, snapshots, seqCounter, closed)
    }

    ghost predicate Valid()
      reads this
    {
      TotalOrder(less) && Inv(less, State(), marks)
    }

    ghost function Contents(): map<K, V>
      reads this
    {
      View(State())
    }

    constructor (less: (K, K) -> bool, threshold: int)
      requires TotalOrder(less)
      ensures Valid() && Contents() == map[] && !closed && State() == StoreState(map[], [], 0, false)
      ensures flushThreshold == if threshold <= 0 then DEFAULT_THRESHOLD else threshold
    {
      this.less := less;
      flushThreshold := if threshold <= 0 then DEFAULT_THRESHOLD else threshold;
      memTable, snapshots, seqCounter, closed, marks := map[], [], 0, false, [0];
      assert Newest<K, V>([]) + map[] == map[];
    }

    method Put(key: K, value: V) returns (r: Written)
      requires Valid()
      modifies this
      ensures Valid() && closed == old(closed)
      ensures r == if old(closed) then StoreClosed else Sequence(old(seqCounter) + 1)
      ensures Next(less, flushThreshold, old(State()), PutOp(key, value), State())
      ensures !closed ==> Contents() == old(Contents())[key := value]
      ensures closed ==> State() == old(State())
    {
      if closed {
        return StoreClosed;
      }
      Record(Live(key, value, seqCounter + 1));
      r := Sequence(seqCounter);
    }

    method Delete(key: K) returns (r: Written)
      requires Valid()
      modifies this
      ensures Valid() && closed == old(closed)
      ensures r == if old(closed) then StoreClosed else Sequence(old(seqCounter) + 1)
      ensures Next(less, flushThreshold, old(State()), DeleteOp(key), State())
      ensures !closed ==> Contents() == old(Contents()) - {key}
      ensures closed ==> State() == old(State())
    {
      if closed {
        return StoreClosed;
      }
      Record(Tombstone(key, seqCounter + 1));
      r := Sequence(seqCounter);
    }

    method Record(e: Entry<K, V>)
      requires Valid() && !closed && e.seqNo == seqCounter + 1
      modifies this
      ensures Valid() && Writes(less, flushThreshold, old(State()), e, State()) && !closed && seqCounter == e.seqNo
      ensures Contents() == if e.Live? then old(Contents())[e.key := e.value] else old(Contents()) - {e.key}
    {
      Insert(e);
      if |memTable| >= flushThreshold {
        FlushLocked();
      }
    }

    method Insert(e: Entry<K, V>)
      requires Valid() && e.seqNo == seqCounter + 1
      modifies this`memTable, this`seqCounter
      ensures Valid() && State() == Recorded(old(State()), e)
      ensures Contents() == if e.Live? then old(Contents())[e.key := e.value] else old(Contents()) - {e.key}
    {
      RecordKeeps(less, State(), marks, e);
      seqCounter := seqCounter + 1;
      memTable := memTable[e.key := e];
    }

    method FlushLocked()
      requires Valid()
      modifies this`memTable, this`snapshots, this`marks
      ensures Valid() && Flushes(less, old(State()), State()) && Contents() == old(Contents()) && memTable == map[]
    {
      if |memTable| == 0 {
        return;
      }
      ghost var before := State();
      var snap := BuildTable(less, memTable);
      snapshots := snapshots + [snap];
      memTable := map[];
      marks := FlushKeeps(less, before, marks, State());
    }

    method Flush() returns (ok: bool)
      requires Valid()
      modifies this
      ensures Valid() && ok == !old(closed) && closed == old(closed) && Contents() == old(Contents())
      ensures Next(less, flushThreshold, old(State()), FlushOp, State())
      ensures ok ==> memTable == map[]
    {
      if closed {
        return false;
      }
      FlushLocked();
      ok := true;
    }

    /** The latest live value, newest table first. */
    method Get(key: K) returns (r: GetResult<V>)
      requires Valid()
      ensures r == if closed then GetClosed else if key in Contents() then Found(Contents()[key]) else Absent
    {
      if closed {
        return GetClosed;
      }
      if key in memTable {
        if memTable[key].Tombstone? {
          return Absent;
        }
        return Found(memTable[key].value);
      }
      var i := |snapshots|;
      assert snapshots[i..] == [];
      while i > 0
        invariant 0 <= i <= |snapshots| && key !in Newest(snapshots[i..])
      {
        i := i - 1;
        NewestFrom(snapshots, i);
        NewestSplit(snapshots, i);
        var e := GetFrom(less, snapshots[i], key);
        if e.Some? {
          if e.value.Tombstone? {
            return Absent;
          }
          return Found(e.value.value);
        }
      }
      assert snapshots[0..] == snapshots;
      r := Absent;
    }

    /** Merges all tables into one without tombstones; no lookup changes. */
    method Compact() returns (ok: bool)
      requires Valid()
      modifies this
      ensures Valid() && ok == !old(closed) && closed == old(closed) && Contents() == old(Contents())
      ensures Next(less, flushThreshold, old(State()), CompactOp, State())
      ensures ok ==> memTable == map[] && |snapshots| <= 1
      ensures ok && |snapshots| == 1
        ==> forall k :: k in ByKey(Rows(snapshots[0])) ==> ByKey(Rows(snapshots[0]))[k].Live?
    {
      if closed {
        return false;
      }
      FlushLocked();
      assert Flushes(less, old(State()), State());
      MergeSnapshots();
      ok := true;
    }

    method MergeSnapshots()
      requires Valid() && memTable == map[]
      modifies this`snapshots, this`marks
      ensures Valid() && Merges(less, old(State()), State()) && Contents() == old(Contents()) && |snapshots| <= 1
      ensures |snapshots| == 1 ==> forall k :: k in ByKey(Rows(snapshots[0])) ==> ByKey(Rows(snapshots[0]))[k].Live?
    {
      ghost var before := State();
      if |snapshots| > 0 {
        var table := CompactedTable(less, snapshots, marks);
        snapshots := [table];
      }
      assert Merges(less, before, State());
      marks := MergeKeeps(less, before, marks, State());
    }

    /** The number of live keys and of tables. */
    method Stats() returns (live: nat, tables: nat)
      requires Valid()
      ensures live == |Contents()| && tables == |snapshots|
    {
      var seen := map k | k in memTable :: !memTable[k].Tombstone?;
      var i := |snapshots|;
      assert snapshots[i..] == [] && map[] + memTable == memTable;
      while i > 0
        invariant 0 <= i <= |snapshots| && seen == Flags(Newest(snapshots[i..]) + memTable)
      {
        i := i - 1;
        NewestFrom(snapshots, i);
        MapAssoc(ByKey(Rows(snapshots[i])), Newest(snapshots[i + 1..]), memTable);
        seen := SeeRows(less, snapshots[i], seen, Newest(snapshots[i + 1..]) + memTable);
      }
      assert snapshots[0..] == snapshots;
      LiveKeys(Newest(snapshots) + memTable);
      live := CountTrue(seen);
      tables := |snapshots|;
    }

    method Close()
      requires Valid()
      modifies this`closed
      ensures Valid() && closed && Contents() == old(Contents())
      ensures Next(less, flushThreshold, old(State()), CloseOp, State())
    {
      closed := true;
    }
  }

  lemma {:induction false} MergedKeyed<K(!new), V(!new)>(
      less: (K, K) -> bool, tables: seq<Table<K, V>>, marks: seq<nat>)
    requires TotalOrder(less) && Layered(tables, marks) && forall i :: 0 <= i < |tables| ==> TableOk(less, tables[i])
    ensures Keyed(MergeTables(tables))
  {
    MergeIsNewest(less, tables, marks, |tables|);
    assert tables[..|tables|] == tables;
    NewestKeyed(tables);
  }

  lemma {:induction false} NewestKeyed<K(!new), V>(tables: seq<Table<K, V>>)
    ensures Keyed(Newest(tables))
  {
    if tables != [] {
      NewestKeyed(tables[1..]);
      forall k | k in ByKey(Rows(tables[0])) ensures ByKey(Rows(tables[0]))[k].key == k {
        ByKeyHas(Rows(tables[0]), k);
      }
    }
  }
}
