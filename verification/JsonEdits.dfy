/**
 What adding, removing and replacing do to the value found on the way: an edit below a path acts on the value
 there alone, and within it leaves alone every member and element that it does not start at.
 */
module JsonEdits {
  import opened Decimal
  import opened JsonPointer
  import opened JsonPatch
  import opened JsonRoundTrip

  ghost predicate Edits(op: Op) {
    op.kind.Add? || op.kind.Remove? || op.kind.Replace?
  }

  // ---- An operation below a path acts on the value there ----

  function Edit(t: Json, kind: OpType, toks: seq<string>, v: Json): Result
    requires kind.Add? || kind.Remove? || kind.Replace?
  {
    if kind.Add? then AddValue(t, toks, v)
    else
      var cut := RemoveValue(t, toks);
      if kind.Remove? || cut.Err? then cut else AddValue(cut.value, toks, v)
  }

  /** The result for the whole value, from the result for the part at `p`. */
  function Within(t: Json, p: seq<string>, r: Result): Result
    requires Get(t, p).Ok?
  {
    if r.Ok? then Ok(Put(t, p, r.value)) else r
  }

  /** Adding right below a value. */
  function AddTo(x: Json, last: string, v: Json): Result {
    match x
    case Obj(m) => Ok(Obj(m[last := v]))
    case Arr(s) =>
      if last == "-" then Ok(Arr(s + [v]))
      else if Atoi(last).Index? && 0 <= Atoi(last).i <= |s|
      then Ok(Arr(s[..Atoi(last).i] + [v] + s[Atoi(last).i..]))
      else Err(PatchFailed)
    case _ => Err(PatchFailed)
  }

  /** Removing right below a value. */
  function RemoveFrom(x: Json, last: string): Result {
    match x
    case Obj(m) => if last in m then Ok(Obj(m - {last})) else Err(PathNotFound)
    case Arr(s) =>
      if Atoi(last).Index? && 0 <= Atoi(last).i < |s|
      then Ok(Arr(s[..Atoi(last).i] + s[Atoi(last).i + 1..]))
      else Err(PathNotFound)
    case _ => Err(PatchFailed)
  }

  lemma {:induction false} AddIs(t: Json, up: seq<string>, last: string, v: Json)
    requires t != Null
    ensures AddValue(t, up + [last], v) ==
      match Get(t, up) case Err(e) => Err(e) case Ok(x) => Within(t, up, AddTo(x, last, v))
  {
    assert (up + [last])[..|up|] == up && (up + [last])[|up|] == last;
  }

  lemma {:induction false} RemoveIs(t: Json, up: seq<string>, last: string)
    ensures RemoveValue(t, up + [last]) ==
      match Get(t, up) case Err(e) => Err(e) case Ok(x) => Within(t, up, RemoveFrom(x, last))
  {
    assert (up + [last])[..|up|] == up && (up + [last])[|up|] == last;
  }

  lemma {:induction false} WithinWithin(t: Json, p: seq<string>, x: Json, up: seq<string>, r: Result)
    requires Get(t, p) == Ok(x) && Get(x, up).Ok?
    ensures Get(t, p + up).Ok? && Within(t, p + up, r) == Within(t, p, Within(x, up, r))
  {
    GetConcat(t, p, up);
    if r.Ok? {
      PutConcat(t, p, up, r.value);
    }
  }

  lemma {:induction false} PutNotNull(x: Json, up: seq<string>, c: Json)
    requires Get(x, up).Ok? && c != Null
    ensures Put(x, up, c) != Null
  {
  }

  lemma {:induction false} AddWithin(t: Json, p: seq<string>, x: Json, r: seq<string>, v: Json)
    requires Get(t, p) == Ok(x) && x != Null && r != []
    ensures AddValue(t, p + r, v) == Within(t, p, AddValue(x, r, v))
  {
    var up, last := r[..|r| - 1], r[|r| - 1];
    assert r == up + [last] && p + r == (p + up) + [last];
    NotNull(t, p);
    AddIs(t, p + up, last, v);
    AddIs(x, up, last, v);
    GetConcat(t, p, up);
    if Get(x, up).Ok? {
      WithinWithin(t, p, x, up, AddTo(Get(x, up).value, last, v));
    }
  }

  lemma {:induction false} RemoveWithin(t: Json, p: seq<string>, x: Json, r: seq<string>)
    requires Get(t, p) == Ok(x) && r != []
    ensures RemoveValue(t, p + r) == Within(t, p, RemoveValue(x, r))
  {
    var up, last := r[..|r| - 1], r[|r| - 1];
    assert r == up + [last] && p + r == (p + up) + [last];
    RemoveIs(t, p + up, last);
    RemoveIs(x, up, last);
    GetConcat(t, p, up);
    if Get(x, up).Ok? {
      WithinWithin(t, p, x, up, RemoveFrom(Get(x, up).value, last));
    }
  }

  lemma {:induction false} RemoveNotNull(x: Json, r: seq<string>)
    requires r != [] && RemoveValue(x, r).Ok?
    ensures RemoveValue(x, r).value != Null
  {
    var up, last := r[..|r| - 1], r[|r| - 1];
    assert r == up + [last];
    RemoveIs(x, up, last);
    PutNotNull(x, up, RemoveFrom(Get(x, up).value, last).value);
  }

  lemma {:induction false} EditWithin(t: Json, p: seq<string>, x: Json, kind: OpType, r: seq<string>, v: Json)
    requires kind.Add? || kind.Remove? || kind.Replace?
    requires Get(t, p) == Ok(x) && x != Null && r != []
    ensures Edit(t, kind, p + r, v) == Within(t, p, Edit(x, kind, r, v))
  {
    AddWithin(t, p, x, r, v);
    RemoveWithin(t, p, x, r);
    if kind.Replace? && RemoveValue(x, r).Ok? {
      var cut := RemoveValue(x, r).value;
      RemoveNotNull(x, r);
      GetPut(t, p, cut);
      AddWithin(Put(t, p, cut), p, cut, r, v);
    }
  }

  /** `op` edits something strictly below `p`. */
  ghost predicate Inside(op: Op, p: seq<string>) {
    Edits(op) && Parse(op.path).Tokens? && |p| < |Parse(op.path).toks| && Parse(op.path).toks[..|p|] == p
  }

  lemma {:induction false} OpWithin(t: Json, p: seq<string>, x: Json, op: Op)
    requires Inside(op, p) && Get(t, p) == Ok(x) && x != Null
    ensures ApplyOp(t, op) == Within(t, p, Edit(x, op.kind, Parse(op.path).toks[|p|..], op.value))
  {
    var toks := Parse(op.path).toks;
    assert toks == p + toks[|p|..];
    EditWithin(t, p, x, op.kind, toks[|p|..], op.value);
  }

  // ---- Members that no operation touches ----

  ghost predicate SameAt<K, V>(m: map<K, V>, n: map<K, V>, k: K) {
    (k in m <==> k in n) && (k in m ==> m[k] == n[k])
  }

  lemma {:induction false} EditObj(m: map<string, Json>, kind: OpType, r: seq<string>, v: Json, k: string)
    requires kind.Add? || kind.Remove? || kind.Replace?
    requires r != [] && Edit(Obj(m), kind, r, v).Ok?
    ensures Edit(Obj(m), kind, r, v).value.Obj?
    ensures r[0] != k ==> SameAt(m, Edit(Obj(m), kind, r, v).value.fields, k)
  {
    if kind.Add? {
      AddObj(m, r, v, k);
    } else {
      RemoveObj(m, r, k);
      if kind.Replace? {
        AddObj(RemoveValue(Obj(m), r).value.fields, r, v, k);
      }
    }
  }

  lemma {:induction false} PutObj(m: map<string, Json>, up: seq<string>, c: Json, k: string)
    requires up != [] && Get(Obj(m), up).Ok?
    ensures Put(Obj(m), up, c).Obj?
    ensures up[0] != k ==> SameAt(m, Put(Obj(m), up, c).fields, k)
  {
  }

  lemma {:induction false} AddObj(m: map<string, Json>, r: seq<string>, v: Json, k: string)
    requires r != [] && AddValue(Obj(m), r, v).Ok?
    ensures AddValue(Obj(m), r, v).value.Obj?
    ensures r[0] != k ==> SameAt(m, AddValue(Obj(m), r, v).value.fields, k)
  {
    var up := r[..|r| - 1];
    if up != [] {
      forall c { PutObj(m, up, c, k); }
    }
  }

  lemma {:induction false} RemoveObj(m: map<string, Json>, r: seq<string>, k: string)
    requires r != [] && RemoveValue(Obj(m), r).Ok?
    ensures RemoveValue(Obj(m), r).value.Obj?
    ensures r[0] != k ==> SameAt(m, RemoveValue(Obj(m), r).value.fields, k)
  {
    var up := r[..|r| - 1];
    if up != [] {
      forall c { PutObj(m, up, c, k); }
    }
  }

  ghost predicate SparesMember(op: Op, p: seq<string>, k: string) {
    Inside(op, p) && Parse(op.path).toks[|p|] != k
  }

  lemma {:induction false} ObjStep(t: Json, p: seq<string>, m: map<string, Json>, op: Op, k: string)
    requires Get(t, p) == Ok(Obj(m)) && Inside(op, p) && ApplyOp(t, op).Ok?
    ensures Get(ApplyOp(t, op).value, p).Ok? && Get(ApplyOp(t, op).value, p).value.Obj?
    ensures SparesMember(op, p, k) ==> SameAt(m, Get(ApplyOp(t, op).value, p).value.fields, k)
  {
    var toks := Parse(op.path).toks[|p|..];
    OpWithin(t, p, Obj(m), op);
    EditObj(m, op.kind, toks, op.value, k);
    GetPut(t, p, Edit(Obj(m), op.kind, toks, op.value).value);
  }

  /** Operations below an object leave an object; a member none of them starts at is as before. */
  lemma {:induction false} ObjRun(t: Json, p: seq<string>, m: map<string, Json>, ops: seq<Op>, k: string)
    requires Get(t, p) == Ok(Obj(m)) && forall op :: op in ops ==> Inside(op, p)
    requires ApplyAll(t, ops).Ok?
    ensures Get(ApplyAll(t, ops).value, p).Ok? && Get(ApplyAll(t, ops).value, p).value.Obj?
    ensures (forall op :: op in ops ==> SparesMember(op, p, k)) ==>
      SameAt(m, Get(ApplyAll(t, ops).value, p).value.fields, k)
    decreases |ops|
  {
    if ops != [] {
      var rest, op := ops[..|ops| - 1], ops[|ops| - 1];
      assert op in ops;
      ObjRun(t, p, m, rest, k);
      var mid := ApplyAll(t, rest).value;
      ObjStep(mid, p, Get(mid, p).value.fields, op, k);
    }
  }

  // ---- Elements that no operation touches ----

  lemma {:induction false} AddToKeeps(s: seq<Json>, last: string, v: Json, i: nat)
    requires i < |s| && AddTo(Arr(s), last, v).Ok? && Atoi(last).Index? && Atoi(last).i > i
    ensures AddTo(Arr(s), last, v).value.Arr? && i < |AddTo(Arr(s), last, v).value.elems|
    ensures AddTo(Arr(s), last, v).value.elems[i] == s[i]
  {
  }

  lemma {:induction false} RemoveFromKeeps(s: seq<Json>, last: string, i: nat)
    requires i < |s| && RemoveFrom(Arr(s), last).Ok? && Atoi(last).Index? && Atoi(last).i > i
    ensures RemoveFrom(Arr(s), last).value.Arr? && i < |RemoveFrom(Arr(s), last).value.elems|
    ensures RemoveFrom(Arr(s), last).value.elems[i] == s[i]
  {
  }

  /** An edit right below a value. */
  lemma {:induction false} EditIs(x: Json, kind: OpType, last: string, v: Json)
    requires x != Null && (kind.Add? || kind.Remove? || kind.Replace?)
    ensures Edit(x, kind, [last], v) ==
      if kind.Add? then AddTo(x, last, v)
      else if kind.Remove? || RemoveFrom(x, last).Err? then RemoveFrom(x, last)
      else AddTo(RemoveFrom(x, last).value, last, v)
  {
    assert [] + [last] == [last];
    AddIs(x, [], last, v);
    RemoveIs(x, [], last);
    if RemoveFrom(x, last).Ok? {
      AddIs(RemoveFrom(x, last).value, [], last, v);
    }
  }

  /** An edit right below an array keeps place `i` if it replaces or lies behind. */
  lemma {:induction false} EditEnd(s: seq<Json>, kind: OpType, last: string, v: Json, i: nat)
    requires kind.Add? || kind.Remove? || kind.Replace?
    requires i < |s| && Edit(Arr(s), kind, [last], v).Ok?
    requires kind.Replace? || (Atoi(last).Index? && Atoi(last).i > i)
    ensures Edit(Arr(s), kind, [last], v).value.Arr? && i < |Edit(Arr(s), kind, [last], v).value.elems|
    ensures Atoi(last).Index? && Atoi(last).i != i ==> Edit(Arr(s), kind, [last], v).value.elems[i] == s[i]
  {
    EditIs(Arr(s), kind, last, v);
    if kind.Replace? {
      RefillPlace(s, Atoi(last).i, last, v);
    } else if kind.Add? {
      AddToKeeps(s, last, v, i);
    } else {
      RemoveFromKeeps(s, last, i);
    }
  }

  lemma {:induction false} RefillPlace(s: seq<Json>, j: nat, last: string, v: Json)
    requires j < |s| && Atoi(last) == Index(j)
    ensures AddTo(Arr(s[..j] + s[j + 1..]), last, v) == Ok(Arr(s[j := v]))
  {
    CutThenInsert(s, j, v);
  }

  lemma {:induction false} PutArr(s: seq<Json>, up: seq<string>, c: Json)
    requires up != [] && Get(Arr(s), up).Ok?
    ensures Atoi(up[0]).Index? && Put(Arr(s), up, c).Arr? && |Put(Arr(s), up, c).elems| == |s|
    ensures forall i :: 0 <= i < |s| && i != Atoi(up[0]).i ==> Put(Arr(s), up, c).elems[i] == s[i]
  {
  }

  lemma {:induction false} EditDeep(s: seq<Json>, kind: OpType, r: seq<string>, v: Json, i: nat)
    requires kind.Add? || kind.Remove? || kind.Replace?
    requires |r| >= 2 && i < |s| && Edit(Arr(s), kind, r, v).Ok?
    ensures Edit(Arr(s), kind, r, v).value.Arr? && i < |Edit(Arr(s), kind, r, v).value.elems|
    ensures Atoi(r[0]).Index? && Atoi(r[0]).i != i ==> Edit(Arr(s), kind, r, v).value.elems[i] == s[i]
  {
    if kind.Add? {
      AddDeep(s, r, v);
    } else {
      RemoveDeep(s, r);
      if kind.Replace? {
        AddDeep(RemoveValue(Arr(s), r).value.elems, r, v);
      }
    }
  }

  lemma {:induction false} AddDeep(s: seq<Json>, r: seq<string>, v: Json)
    requires |r| >= 2 && AddValue(Arr(s), r, v).Ok?
    ensures Atoi(r[0]).Index? && AddValue(Arr(s), r, v).value.Arr? && |AddValue(Arr(s), r, v).value.elems| == |s|
    ensures forall i :: 0 <= i < |s| && i != Atoi(r[0]).i ==> AddValue(Arr(s), r, v).value.elems[i] == s[i]
  {
    var up, last := r[..|r| - 1], r[|r| - 1];
    assert r == up + [last];
    AddIs(Arr(s), up, last, v);
    PutArr(s, up, AddTo(Get(Arr(s), up).value, last, v).value);
  }

  lemma {:induction false} RemoveDeep(s: seq<Json>, r: seq<string>)
    requires |r| >= 2 && RemoveValue(Arr(s), r).Ok?
    ensures Atoi(r[0]).Index? && RemoveValue(Arr(s), r).value.Arr? && |RemoveValue(Arr(s), r).value.elems| == |s|
    ensures forall i :: 0 <= i < |s| && i != Atoi(r[0]).i ==> RemoveValue(Arr(s), r).value.elems[i] == s[i]
  {
    var up, last := r[..|r| - 1], r[|r| - 1];
    assert r == up + [last];
    RemoveIs(Arr(s), up, last);
    PutArr(s, up, RemoveFrom(Get(Arr(s), up).value, last).value);
  }

  /** Place `i` of the array at `p` stays in place: right below the array `op` only replaces or acts behind. */
  ghost predicate KeepsPlace(op: Op, p: seq<string>, i: nat) {
    && Inside(op, p)
    && var toks := Parse(op.path).toks;
      |toks| == |p| + 1 ==> op.kind.Replace? || (Atoi(toks[|p|]).Index? && Atoi(toks[|p|]).i > i)
  }

  ghost predicate SparesElement(op: Op, p: seq<string>, i: nat) {
    KeepsPlace(op, p, i) && var tok := Parse(op.path).toks[|p|]; Atoi(tok).Index? && Atoi(tok).i != i
  }

  lemma {:induction false} EditArr(s: seq<Json>, kind: OpType, r: seq<string>, v: Json, i: nat)
    requires kind.Add? || kind.Remove? || kind.Replace?
    requires r != [] && i < |s| && Edit(Arr(s), kind, r, v).Ok?
    requires |r| == 1 ==> kind.Replace? || (Atoi(r[0]).Index? && Atoi(r[0]).i > i)
    ensures Edit(Arr(s), kind, r, v).value.Arr? && i < |Edit(Arr(s), kind, r, v).value.elems|
    ensures Atoi(r[0]).Index? && Atoi(r[0]).i != i ==> Edit(Arr(s), kind, r, v).value.elems[i] == s[i]
  {
    if |r| == 1 {
      assert r == [r[0]];
      EditEnd(s, kind, r[0], v, i);
    } else {
      EditDeep(s, kind, r, v, i);
    }
  }

  lemma {:induction false} ArrStep(t: Json, p: seq<string>, s: seq<Json>, op: Op, i: nat)
    requires Get(t, p) == Ok(Arr(s)) && i < |s| && KeepsPlace(op, p, i) && ApplyOp(t, op).Ok?
    ensures Get(ApplyOp(t, op).value, p).Ok? && Get(ApplyOp(t, op).value, p).value.Arr?
    ensures i < |Get(ApplyOp(t, op).value, p).value.elems|
    ensures SparesElement(op, p, i) ==> Get(ApplyOp(t, op).value, p).value.elems[i] == s[i]
  {
    var toks := Parse(op.path).toks[|p|..];
    OpWithin(t, p, Arr(s), op);
    EditArr(s, op.kind, toks, op.value, i);
    GetPut(t, p, Edit(Arr(s), op.kind, toks, op.value).value);
  }

  /** Operations that keep place `i` leave an array that has it; if all start elsewhere it is as before. */
  lemma {:induction false} ArrRun(t: Json, p: seq<string>, s: seq<Json>, ops: seq<Op>, i: nat)
    requires Get(t, p) == Ok(Arr(s)) && i < |s| && forall op :: op in ops ==> KeepsPlace(op, p, i)
    requires ApplyAll(t, ops).Ok?
    ensures Get(ApplyAll(t, ops).value, p).Ok? && Get(ApplyAll(t, ops).value, p).value.Arr?
    ensures i < |Get(ApplyAll(t, ops).value, p).value.elems|
    ensures (forall op :: op in ops ==> SparesElement(op, p, i)) ==>
      Get(ApplyAll(t, ops).value, p).value.elems[i] == s[i]
    decreases |ops|
  {
    if ops != [] {
      var rest, op := ops[..|ops| - 1], ops[|ops| - 1];
      assert op in ops;
      ArrRun(t, p, s, rest, i);
      var mid := ApplyAll(t, rest).value;
      ArrStep(mid, p, Get(mid, p).value.elems, op, i);
    }
  }
}
