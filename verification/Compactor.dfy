/**
 The compactor's key-value store: a memtable over sorted snapshot tables with tombstones. Every
 operation acts on the plain map of live entries as if the tables were not there.
 */
module Compactor {
  import opened Options
  import opened Sorting

  datatype Entry<K, V> = Live(key: K, value: V, seqNo: nat) | Tombstone(key: K, seqNo: nat)
  type Entries<K, V> = map<K, Entry<K, V>>
  datatype Table<K, V> = EmptyTable | Table(minKey: K, maxKey: K, rows: seq<Entry<K, V>>)
  datatype StoreState<K, V> = StoreState(mem: Entries<K, V>, tables: seq<Table<K, V>>, seqNo: nat, closed: bool)

  function NewTable<K, V>(entries: seq<Entry<K, V>>): Table<K, V> {
    if |entries| == 0 then EmptyTable else Table(entries[0].key, entries[|entries| - 1].key, entries)
  }

  function Rows<K, V>(t: Table<K, V>): seq<Entry<K, V>> {
    if t.EmptyTable? then [] else t.rows
  }

  // ---- What the store means ----

  /** The entries of a table by key. */
  function ByKey<K(==), V>(rows: seq<Entry<K, V>>): Entries<K, V> {
    if rows == [] then map[] else ByKey(rows[..|rows| - 1])[rows[|rows| - 1].key := rows[|rows| - 1]]
  }

  /** Newer tables, which come later, hide older ones. */
  function Newest<K(==), V>(tables: seq<Table<K, V>>): Entries<K, V> {
    if tables == [] then map[] else ByKey(Rows(tables[0])) + Newest(tables[1..])
  }

  function LiveOnly<K(==), V>(m: Entries<K, V>): map<K, V> {
    map k | k in m && m[k].Live? :: m[k].value
  }

  /** The plain map the store stands for. */
  function View<K(==), V>(s: StoreState<K, V>): map<K, V> {
    LiveOnly(Newest(s.tables) + s.mem)
  }

  // ---- Invariant ----

  ghost predicate Sorted<K(!new), V>(less: (K, K) -> bool, rows: seq<Entry<K, V>>) {
    forall i, j :: 0 <= i < j < |rows| ==> less(rows[i].key, rows[j].key)
  }

  ghost predicate SeqBelow<K(!new), V>(m: Entries<K, V>, n: nat) {
    forall k :: k in m ==> m[k].seqNo < n
  }

  ghost predicate SeqFrom<K(!new), V>(m: Entries<K, V>, n: nat) {
    forall k :: k in m ==> n <= m[k].seqNo
  }

  ghost predicate Keyed<K(!new), V>(m: Entries<K, V>) {
    forall k :: k in m ==> m[k].key == k
  }

  ghost predicate TableOk<K(!new), V(!new)>(less: (K, K) -> bool, t: Table<K, V>) {
    t == NewTable(Rows(t)) && Sorted(less, Rows(t))
  }

  /** Sequence numbers grow from table to table: `marks[i]` separates what is before table `i` from it. */
  ghost predicate Layered<K(!new), V>(tables: seq<Table<K, V>>, marks: seq<nat>) {
    && |marks| == |tables| + 1
    && (forall i, j :: 0 <= i <= j < |marks| ==> marks[i] <= marks[j])
    && forall i ::
      0 <= i < |tables| ==> SeqFrom(ByKey(Rows(tables[i])), marks[i]) && SeqBelow(ByKey(Rows(tables[i])), marks[i + 1])
  }

  ghost predicate Inv<K(!new), V(!new)>(less: (K, K) -> bool, s: StoreState<K, V>, marks: seq<nat>) {
    && Keyed(s.mem)
    && (forall i :: 0 <= i < |s.tables| ==> TableOk(less, s.tables[i]))
    && Layered(s.tables, marks)
    && SeqFrom(s.mem, marks[|s.tables|]) && SeqBelow(s.mem, s.seqNo + 1) && marks[|s.tables|] <= s.seqNo + 1
  }

  // ---- Tables ----

  lemma {:induction false} ByKeyHas<K(!new), V>(rows: seq<Entry<K, V>>, k: K)
    ensures k in ByKey(rows) <==> exists i :: 0 <= i < |rows| && rows[i].key == k
    ensures k in ByKey(rows) ==> ByKey(rows)[k] in rows && ByKey(rows)[k].key == k
  {
    if rows != [] {
      var front, last := rows[..|rows| - 1], rows[|rows| - 1];
      ByKeyHas(front, k);
      assert rows[|rows| - 1] == last;
      assert forall i :: 0 <= i < |front| ==> front[i] == rows[i];
    }
  }

  lemma {:induction false} ByKeyAt<K(!new), V>(less: (K, K) -> bool, rows: seq<Entry<K, V>>, i: nat)
    requires TotalOrder(less) && Sorted(less, rows) && i < |rows|
    ensures rows[i].key in ByKey(rows) && ByKey(rows)[rows[i].key] == rows[i]
  {
    ByKeyHas(rows, rows[i].key);
    var e := ByKey(rows)[rows[i].key];
    var j :| 0 <= j < |rows| && rows[j] == e;
    assert !less(rows[i].key, rows[j].key);
  }

  lemma {:induction false} NewestSnoc<K(!new), V>(tables: seq<Table<K, V>>, t: Table<K, V>)
    ensures Newest(tables + [t]) == Newest(tables) + ByKey(Rows(t))
  {
    if tables == [] {
      assert tables + [t] == [t];
      assert Newest([t][1..]) == map[];
    } else {
      NewestSnoc(tables[1..], t);
      assert (tables + [t])[1..] == tables[1..] + [t];
      MapAssoc(ByKey(Rows(tables[0])), Newest(tables[1..]), ByKey(Rows(t)));
    }
  }

  lemma {:induction false} MapAssoc<K, V>(a: map<K, V>, b: map<K, V>, c: map<K, V>)
    ensures a + b + c == a + (b + c)
  {
  }

  // ---- Merging by sequence number ----

  function MergeEntry<K(==), V>(latest: Entries<K, V>, e: Entry<K, V>): Entries<K, V> {
    if e.key !in latest || e.seqNo > latest[e.key].seqNo then latest[e.key := e] else latest
  }

  function MergeRows<K(==), V>(latest: Entries<K, V>, rows: seq<Entry<K, V>>): Entries<K, V> {
    if rows == [] then latest else MergeEntry(MergeRows(latest, rows[..|rows| - 1]), rows[|rows| - 1])
  }

  function MergeTables<K(==), V>(tables: seq<Table<K, V>>): Entries<K, V> {
    if tables == [] then map[] else MergeRows(MergeTables(tables[..|tables| - 1]), Rows(tables[|tables| - 1]))
  }

  lemma {:induction false} MergeIsOverride<K(!new), V>(
      less: (K, K) -> bool, latest: Entries<K, V>, rows: seq<Entry<K, V>>, mark: nat)
    requires TotalOrder(less) && Sorted(less, rows) && SeqBelow(latest, mark)
    requires forall e :: e in rows ==> mark <= e.seqNo
    ensures MergeRows(latest, rows) == latest + ByKey(rows)
  {
    if rows != [] {
      var front, last := rows[..|rows| - 1], rows[|rows| - 1];
      MergeIsOverride(less, latest, front, mark);
      ByKeyHas(front, last.key);
      assert last in rows;
      assert last.key !in ByKey(front) by {
        forall i | 0 <= i < |front| ensures front[i].key != last.key {
          assert less(rows[i].key, rows[|rows| - 1].key);
        }
      }
      OverrideOne(latest, ByKey(front), last.key, last);
    }
  }

  lemma {:induction false} OverrideOne<K, V>(a: map<K, V>, b: map<K, V>, k: K, v: V)
    ensures (a + b)[k := v] == a + b[k := v]
  {
  }

  lemma {:induction false} RowsFrom<K(!new), V>(less: (K, K) -> bool, rows: seq<Entry<K, V>>, mark: nat)
    requires TotalOrder(less) && Sorted(less, rows) && SeqFrom(ByKey(rows), mark)
    ensures forall e :: e in rows ==> mark <= e.seqNo
  {
    forall e | e in rows ensures mark <= e.seqNo {
      var i :| 0 <= i < |rows| && rows[i] == e;
      ByKeyAt(less, rows, i);
    }
  }

  lemma {:induction false} NewestBelow<K(!new), V>(tables: seq<Table<K, V>>, marks: seq<nat>, n: nat)
    requires Layered(tables, marks) && n <= |tables|
    ensures SeqBelow(Newest(tables[..n]), marks[n])
  {
    if n > 0 {
      NewestBelow(tables, marks, n - 1);
      NewestSnoc(tables[..n - 1], tables[n - 1]);
      assert tables[..n] == tables[..n - 1] + [tables[n - 1]];
      assert marks[n - 1] <= marks[n];
    }
  }

  lemma {:induction false} MergeTable<K(!new), V(!new)>(
      less: (K, K) -> bool, before: Entries<K, V>, t: Table<K, V>, mark: nat)
    requires TotalOrder(less) && TableOk(less, t) && SeqBelow(before, mark) && SeqFrom(ByKey(Rows(t)), mark)
    ensures MergeRows(before, Rows(t)) == before + ByKey(Rows(t))
  {
    RowsFrom(less, Rows(t), mark);
    MergeIsOverride(less, before, Rows(t), mark);
  }

  lemma {:induction false} MergeSnoc<K(!new), V>(tables: seq<Table<K, V>>, t: Table<K, V>)
    ensures MergeTables(tables + [t]) == MergeRows(MergeTables(tables), Rows(t))
  {
    assert (tables + [t])[..|tables|] == tables;
  }

  /** Keeping the largest sequence number per key agrees with looking in the newest table first. */
  lemma {:induction false} MergeIsNewest<K(!new), V(!new)>(
      less: (K, K) -> bool, tables: seq<Table<K, V>>, marks: seq<nat>, n: nat)
    requires TotalOrder(less) && Layered(tables, marks) && n <= |tables|
    requires forall i :: 0 <= i < |tables| ==> TableOk(less, tables[i])
    ensures MergeTables(tables[..n]) == Newest(tables[..n])
  {
    if n > 0 {
      var before, t := tables[..n - 1], tables[n - 1];
      MergeIsNewest(less, tables, marks, n - 1);
      assert tables[..n] == before + [t];
      MergeSnoc(before, t);
      NewestSnoc(before, t);
      NewestBelow(tables, marks, n - 1);
      MergeTable(less, Newest(before), t, marks[n - 1]);
    }
  }

  // ---- Steps ----

  function LiveEntries<K(==), V>(m: Entries<K, V>): Entries<K, V> {
    map k | k in m && m[k].Live? :: m[k]
  }

  /** `t` is a sorted table of exactly the entries of `m`. */
  ghost predicate TableOf<K(!new), V(!new)>(less: (K, K) -> bool, t: Table<K, V>, m: Entries<K, V>) {
    TableOk(less, t) && ByKey(Rows(t)) == m
  }

  ghost predicate Flushes<K(!new), V(!new)>(less: (K, K) -> bool, s: StoreState<K, V>, t: StoreState<K, V>) {
    if s.mem == map[] then t == s
    else
      && |t.tables| == |s.tables| + 1 && TableOf(less, t.tables[|s.tables|], s.mem)
      && t == s.(mem := map[], tables := s.tables + [t.tables[|s.tables|]])
  }

  function Recorded<K, V>(s: StoreState<K, V>, e: Entry<K, V>): StoreState<K, V> {
    s.(mem := s.mem[e.key := e], seqNo := e.seqNo)
  }

  /** A put or delete enters the memtable, which is flushed when it reaches the threshold. */
  ghost predicate Writes<K(!new), V(!new)>(
      less: (K, K) -> bool, threshold: int, s: StoreState<K, V>, e: Entry<K, V>, t: StoreState<K, V>) {
    && e.seqNo == s.seqNo + 1
    && if |Recorded(s, e).mem| >= threshold then Flushes(less, Recorded(s, e), t) else t == Recorded(s, e)
  }

  ghost predicate Merges<K(!new), V(!new)>(less: (K, K) -> bool, s: StoreState<K, V>, t: StoreState<K, V>) {
    if s.tables == [] then t == s
    else
      && |t.tables| == 1 && t == s.(tables := [t.tables[0]])
      && TableOf(less, t.tables[0],
        LiveEntries(if |s.tables| == 1 then ByKey(Rows(s.tables[0])) else MergeTables(s.tables)))
  }

  lemma {:induction false} FlushKeeps<K(!new), V(!new)>(
      less: (K, K) -> bool, s: StoreState<K, V>, marks: seq<nat>, t: StoreState<K, V>)
    returns (marks': seq<nat>)
    requires Inv(less, s, marks) && Flushes(less, s, t)
    ensures Inv(less, t, marks') && View(t) == View(s) && t.mem == map[] && t.closed == s.closed
  {
    if s.mem == map[] {
      return marks;
    }
    var n := |s.tables|;
    marks' := marks + [s.seqNo + 1];
    FlushView(s.tables, t.tables[n], s.mem);
    LayerOnTop(s.tables, marks, t.tables[n], s.seqNo + 1);
  }

  lemma {:induction false} FlushView<K(!new), V>(tables: seq<Table<K, V>>, t: Table<K, V>, mem: Entries<K, V>)
    requires ByKey(Rows(t)) == mem
    ensures LiveOnly(Newest(tables + [t]) + map[]) == LiveOnly(Newest(tables) + mem)
  {
    NewestSnoc(tables, t);
  }

  lemma {:induction false} LayerOnTop<K(!new), V>(tables: seq<Table<K, V>>, marks: seq<nat>, t: Table<K, V>, top: nat)
    requires Layered(tables, marks) && marks[|tables|] <= top
    requires SeqFrom(ByKey(Rows(t)), marks[|tables|]) && SeqBelow(ByKey(Rows(t)), top)
    ensures Layered(tables + [t], marks + [top])
  {
    var all, m := tables + [t], marks + [top];
    forall i | 0 <= i < |all| ensures SeqFrom(ByKey(Rows(all[i])), m[i]) && SeqBelow(ByKey(Rows(all[i])), m[i + 1]) {
      assert i < |tables| ==> all[i] == tables[i];
    }
  }

  lemma {:induction false} RecordKeeps<K(!new), V(!new)>(
      less: (K, K) -> bool, s: StoreState<K, V>, marks: seq<nat>, e: Entry<K, V>)
    requires Inv(less, s, marks) && e.seqNo == s.seqNo + 1
    ensures Inv(less, Recorded(s, e), marks)
    ensures View(Recorded(s, e)) == if e.Live? then View(s)[e.key := e.value] else View(s) - {e.key}
  {
    OverrideOne(Newest(s.tables), s.mem, e.key, e);
  }

  lemma {:induction false} WriteKeeps<K(!new), V(!new)>(
      less: (K, K) -> bool, threshold: int, s: StoreState<K, V>, marks: seq<nat>, e: Entry<K, V>, t: StoreState<K, V>)
    returns (marks': seq<nat>)
    requires Inv(less, s, marks) && Writes(less, threshold, s, e, t)
    ensures Inv(less, t, marks') && t.closed == s.closed
    ensures View(t) == if e.Live? then View(s)[e.key := e.value] else View(s) - {e.key}
  {
    RecordKeeps(less, s, marks, e);
    marks' := marks;
    if |Recorded(s, e).mem| >= threshold {
      marks' := FlushKeeps(less, Recorded(s, e), marks, t);
    }
  }

  lemma {:induction false} NewestOne<K(!new), V>(t: Table<K, V>)
    ensures Newest([t]) == ByKey(Rows(t))
  {
    assert [t][1..] == [];
    assert ByKey(Rows(t)) + map[] == ByKey(Rows(t));
  }

  /** Merging drops hidden entries and tombstones, none of which a lookup can see. */
  lemma {:induction false} MergeKeeps<K(!new), V(!new)>(
      less: (K, K) -> bool, s: StoreState<K, V>, marks: seq<nat>, t: StoreState<K, V>)
    returns (marks': seq<nat>)
    requires TotalOrder(less) && Inv(less, s, marks) && s.mem == map[] && Merges(less, s, t)
    ensures Inv(less, t, marks') && View(t) == View(s) && t.closed == s.closed
  {
    var n := |s.tables|;
    if n == 0 {
      return marks;
    }
    var all := MergedEntries(less, s.tables, marks);
    marks' := [0, marks[n]];
    NewestOne(t.tables[0]);
    SameLive(all);
    OneLayer(t.tables[0], marks[n]);
  }

  lemma {:induction false} SameLive<K(!new), V>(all: Entries<K, V>)
    ensures LiveOnly(LiveEntries(all) + map[]) == LiveOnly(all + map[])
  {
  }

  lemma {:induction false} OneLayer<K(!new), V>(t: Table<K, V>, mark: nat)
    requires SeqBelow(ByKey(Rows(t)), mark)
    ensures Layered([t], [0, mark])
  {
  }

  lemma {:induction false} MergedEntries<K(!new), V(!new)>(
      less: (K, K) -> bool, tables: seq<Table<K, V>>, marks: seq<nat>)
    returns (all: Entries<K, V>)
    requires TotalOrder(less) && Layered(tables, marks) && tables != []
    requires forall i :: 0 <= i < |tables| ==> TableOk(less, tables[i])
    ensures all == (if |tables| == 1 then ByKey(Rows(tables[0])) else MergeTables(tables))
    ensures all == Newest(tables) && SeqBelow(all, marks[|tables|])
  {
    var n := |tables|;
    all := Newest(tables);
    assert tables[..n] == tables;
    NewestBelow(tables, marks, n);
    if n == 1 {
      NewestOne(tables[0]);
      assert tables == [tables[0]];
    } else {
      MergeIsNewest(less, tables, marks, n);
    }
  }

  // ---- Every run refines a plain map ----

  datatype Op<K, V> = PutOp(key: K, value: V) | DeleteOp(key: K) | FlushOp | CompactOp | CloseOp

  ghost predicate Next<K(!new), V(!new)>(
      less: (K, K) -> bool, threshold: int, s: StoreState<K, V>, op: Op<K, V>, t: StoreState<K, V>) {
    if s.closed then t == s
    else
      match op
      case PutOp(k, v) => Writes(less, threshold, s, Live(k, v, s.seqNo + 1), t)
      case DeleteOp(k) => Writes(less, threshold, s, Tombstone(k, s.seqNo + 1), t)
      case FlushOp => Flushes(less, s, t)
      case CompactOp => exists mid :: Flushes(less, s, mid) && Merges(less, mid, t)
      case CloseOp => t == s.(closed := true)
  }

  /** A plain map with a lock on its door. */
  datatype Plain<K, V> = Plain(m: map<K, V>, closed: bool)

  function Act<K(==), V>(p: Plain<K, V>, op: Op<K, V>): Plain<K, V> {
    if p.closed then p
    else
      match op
      case PutOp(k, v) => p.(m := p.m[k := v])
      case DeleteOp(k) => p.(m := p.m - {k})
      case CloseOp => p.(closed := true)
      case _ => p
  }

  function ActAll<K(==), V>(ops: seq<Op<K, V>>): Plain<K, V> {
    if ops == [] then Plain(map[], false) else Act(ActAll(ops[..|ops| - 1]), ops[|ops| - 1])
  }

  ghost function Abstract<K(!new), V(!new)>(s: StoreState<K, V>): Plain<K, V> {
    Plain(View(s), s.closed)
  }

  lemma {:induction false} NextRefines<K(!new), V(!new)>(
      less: (K, K) -> bool, threshold: int, s: StoreState<K, V>, marks: seq<nat>, op: Op<K, V>, t: StoreState<K, V>)
    returns (marks': seq<nat>)
    requires TotalOrder(less) && Inv(less, s, marks) && Next(less, threshold, s, op, t)
    ensures Inv(less, t, marks') && Abstract(t) == Act(Abstract(s), op)
  {
    marks' := marks;
    if !s.closed {
      match op
      case PutOp(k, v) => marks' := WriteKeeps(less, threshold, s, marks, Live(k, v, s.seqNo + 1), t);
      case DeleteOp(k) => marks' := WriteKeeps(less, threshold, s, marks, Tombstone(k, s.seqNo + 1), t);
      case FlushOp => marks' := FlushKeeps(less, s, marks, t);
      case CompactOp =>
        var mid :| Flushes(less, s, mid) && Merges(less, mid, t);
        marks' := FlushKeeps(less, s, marks, mid);
        marks' := MergeKeeps(less, mid, marks', t);
      case CloseOp =>
    }
  }

  ghost predicate IsRun<K(!new), V(!new)>(
      less: (K, K) -> bool, threshold: int, states: seq<StoreState<K, V>>, ops: seq<Op<K, V>>) {
    && |states| == |ops| + 1 && states[0] == StoreState(map[], [], 0, false)
    && forall i :: 0 <= i < |ops| ==> Next(less, threshold, states[i], ops[i], states[i + 1])
  }

  /** After any operations the store stands for the map obtained by performing them on a plain map. */
  lemma {:induction false} RunRefines<K(!new), V(!new)>(
      less: (K, K) -> bool, threshold: int, states: seq<StoreState<K, V>>, ops: seq<Op<K, V>>, n: nat)
    returns (marks: seq<nat>)
    requires TotalOrder(less) && IsRun(less, threshold, states, ops) && n <= |ops|
    ensures Inv(less, states[n], marks) && Abstract(states[n]) == ActAll(ops[..n])
  {
    if n == 0 {
      marks := [0];
      assert Newest<K, V>([]) + map[] == map[];
    } else {
      marks := RunRefines(less, threshold, states, ops, n - 1);
      assert Next(less, threshold, states[n - 1], ops[n - 1], states[n]);
      marks := NextRefines(less, threshold, states[n - 1], marks, ops[n - 1], states[n]);
      assert ops[..n][..n - 1] == ops[..n - 1];
    }
  }
}
