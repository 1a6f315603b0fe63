/**
 Array positions that turn null or stop being null. The diff removes or inserts them instead of replacing them,
 which shifts all later positions: such changes can only round-trip if they balance.
 */
module JsonArrays {
  import opened Decimal
  import opened JsonPointer
  import opened JsonPatch
  import opened JsonDiff
  import opened JsonRoundTrip
  import opened JsonEdits
  import opened JsonKeys

  // ---- Counting the length of an array ----

  /** By how much an edit lengthens the array at `p`. */
  ghost function Growth(op: Op, p: seq<string>): int
    requires Inside(op, p)
  {
    if |Parse(op.path).toks| > |p| + 1 || op.kind.Replace? then 0 else if op.kind.Add? then 1 else -1
  }

  lemma {:induction false} EndGrows(s: seq<Json>, kind: OpType, last: string, v: Json)
    requires kind.Add? || kind.Remove? || kind.Replace?
    requires Edit(Arr(s), kind, [last], v).Ok?
    ensures Edit(Arr(s), kind, [last], v).value.Arr?
    ensures |Edit(Arr(s), kind, [last], v).value.elems| ==
      |s| + if kind.Replace? then 0 else if kind.Add? then 1 else -1
  {
    EditIs(Arr(s), kind, last, v);
  }

  lemma {:induction false} DeepKeeps(s: seq<Json>, kind: OpType, r: seq<string>, v: Json)
    requires kind.Add? || kind.Remove? || kind.Replace?
    requires |r| >= 2 && Edit(Arr(s), kind, r, v).Ok?
    ensures Edit(Arr(s), kind, r, v).value.Arr? && |Edit(Arr(s), kind, r, v).value.elems| == |s|
  {
    if kind.Add? {
      AddDeep(s, r, v);
    } else {
      RemoveDeep(s, r);
      if kind.Replace? {
        AddDeep(RemoveValue(Arr(s), r).value.elems, r, v);
      }
    }
  }

  ghost predicate LengthAt(t: Json, p: seq<string>, n: int) {
    Get(t, p).Ok? && Get(t, p).value.Arr? && |Get(t, p).value.elems| == n
  }

  lemma {:induction false} GrowStep(t: Json, p: seq<string>, n: int, op: Op)
    requires LengthAt(t, p, n) && Inside(op, p) && ApplyOp(t, op).Ok?
    ensures LengthAt(ApplyOp(t, op).value, p, n + Growth(op, p))
  {
    var toks, s := Parse(op.path).toks[|p|..], Get(t, p).value.elems;
    OpWithin(t, p, Arr(s), op);
    if |toks| == 1 {
      assert toks == [toks[0]];
      EndGrows(s, op.kind, toks[0], op.value);
    } else {
      DeepKeeps(s, op.kind, toks, op.value);
    }
    GetPut(t, p, Edit(Arr(s), op.kind, toks, op.value).value);
  }

  /** The operations make the array at `p` longer by `n`, whatever is in it. */
  ghost predicate Grow(ops: seq<Op>, p: seq<string>, n: int) {
    forall t, m :: LengthAt(t, p, m) && ApplyAll(t, ops).Ok? ==> LengthAt(ApplyAll(t, ops).value, p, m + n)
  }

  lemma {:induction false} GrowConcat(a: seq<Op>, b: seq<Op>, p: seq<string>, m: int, n: int)
    requires Grow(a, p, m) && Grow(b, p, n)
    ensures Grow(a + b, p, m + n)
  {
    forall t, k | LengthAt(t, p, k) && ApplyAll(t, a + b).Ok?
      ensures LengthAt(ApplyAll(t, a + b).value, p, k + (m + n))
    {
      ApplyConcat(t, a, b);
      assert LengthAt(ApplyAll(t, a).value, p, k + m);
    }
  }

  lemma {:induction false} GrowSingle(op: Op, p: seq<string>)
    requires Inside(op, p)
    ensures Grow([op], p, Growth(op, p))
  {
    forall t, m | LengthAt(t, p, m) && ApplyAll(t, [op]).Ok?
      ensures LengthAt(ApplyAll(t, [op]).value, p, m + Growth(op, p))
    {
      One(t, op);
      GrowStep(t, p, m, op);
    }
  }

  lemma {:induction false} GrowNone(ops: seq<Op>, p: seq<string>)
    requires forall op :: op in ops ==> Inside(op, p) && Growth(op, p) == 0
    ensures Grow(ops, p, 0)
    decreases |ops|
  {
    if ops != [] {
      var rest, op := ops[..|ops| - 1], ops[|ops| - 1];
      assert op in ops && ops == rest + [op];
      GrowNone(rest, p);
      GrowSingle(op, p);
      GrowConcat(rest, [op], p, 0, 0);
    }
  }

  lemma {:induction false} GrowOne(path: string, p: seq<string>, j: nat, op: Op)
    requires Parse(path) == Tokens(p) && Edits(op) && op.path == path + "/" + Itoa(j)
    ensures Inside(op, p) && Grow([op], p, Growth(op, p))
    ensures Growth(op, p) == if op.kind.Replace? then 0 else if op.kind.Add? then 1 else -1
  {
    AtoiItoa(j);
    AtKey(path, Itoa(j), op);
    ParseUnder(path, p, Itoa(j), op.path);
    GrowSingle(op, p);
  }

  /** How a compared position changes the length: it stops being null, turns null, or neither. */
  function Flip(src: Json, dst: Json): int {
    if src == Null && dst != Null then 1 else if src != Null && dst == Null then -1 else 0
  }

  function Flips(src: seq<Json>, dst: seq<Json>, n: nat): int
    requires n <= |src| && n <= |dst|
  {
    if n == 0 then 0 else Flips(src, dst, n - 1) + Flip(src[n - 1], dst[n - 1])
  }

  lemma {:induction false} ElementGrows(path: string, p: seq<string>, j: nat, src: Json, dst: Json)
    requires Parse(path) == Tokens(p)
    ensures Grow(Diff(path + "/" + Itoa(j), src, dst), p, Flip(src, dst))
  {
    var ops := Diff(path + "/" + Itoa(j), src, dst);
    if src == dst {
    } else if src == Null {
      GrowOne(path, p, j, MkAdd(path + "/" + Itoa(j), dst));
    } else if dst == Null {
      GrowOne(path, p, j, MkRemove(path + "/" + Itoa(j)));
    } else {
      AtoiItoa(j);
      DiffUnder(path + "/" + Itoa(j), src, dst);
      forall op | op in ops ensures Inside(op, p) && Growth(op, p) == 0 {
        ParseUnder(path, p, Itoa(j), op.path);
      }
      GrowNone(ops, p);
    }
  }

  lemma {:induction false} ElementsGrow(path: string, p: seq<string>, n: nat, src: Json, dst: Json)
    requires src.Arr? && dst.Arr? && n <= |src.elems| && n <= |dst.elems| && Parse(path) == Tokens(p)
    ensures Grow(Elements(path, n, src, dst), p, Flips(src.elems, dst.elems, n))
    decreases n
  {
    if n > 0 {
      var a, b, flips := src.elems[n - 1], dst.elems[n - 1], Flips(src.elems, dst.elems, n - 1);
      ElementsGrow(path, p, n - 1, src, dst);
      ElementGrows(path, p, n - 1, a, b);
      GrowConcat(Elements(path, n - 1, src, dst), Diff(path + "/" + Itoa(n - 1), a, b), p, flips, Flip(a, b));
    }
  }

  lemma {:induction false} AppendsGrow(path: string, p: seq<string>, lo: nat, hi: nat, dst: Json)
    requires dst.Arr? && hi <= |dst.elems| && Parse(path) == Tokens(p)
    ensures Grow(Appends(path, lo, hi, dst), p, if lo < hi then hi - lo else 0)
    decreases hi
  {
    if lo < hi {
      AppendsGrow(path, p, lo, hi - 1, dst);
      GrowOne(path, p, hi - 1, MkAdd(path + "/" + Itoa(hi - 1), dst.elems[hi - 1]));
      GrowConcat(Appends(path, lo, hi - 1, dst), [MkAdd(path + "/" + Itoa(hi - 1), dst.elems[hi - 1])], p,
        hi - 1 - lo, 1);
    }
  }

  lemma {:induction false} TruncationsGrow(path: string, p: seq<string>, lo: nat, hi: nat)
    requires Parse(path) == Tokens(p)
    ensures Grow(Truncations(path, lo, hi), p, if lo < hi then lo - hi else 0)
    decreases hi
  {
    if lo < hi {
      TruncationsGrow(path, p, lo, hi - 1);
      GrowOne(path, p, hi - 1, MkRemove(path + "/" + Itoa(hi - 1)));
      GrowConcat([MkRemove(path + "/" + Itoa(hi - 1))], Truncations(path, lo, hi - 1), p, -1, lo - (hi - 1));
    }
  }

  lemma {:induction false} DiffGrows(src: Json, dst: Json)
    requires src.Arr? && dst.Arr? && src != dst
    ensures var n := Min(|src.elems|, |dst.elems|);
      Grow(Diff("", src, dst), [], |dst.elems| - |src.elems| + Flips(src.elems, dst.elems, n))
  {
    var n, s, d := Min(|src.elems|, |dst.elems|), |src.elems|, |dst.elems|;
    var a, b, c := Elements("", n, src, dst), Appends("", s, d, dst), Truncations("", d, s);
    var flips, more, less := Flips(src.elems, dst.elems, n), if s < d then d - s else 0, if d < s then d - s else 0;
    ElementsGrow("", [], n, src, dst);
    AppendsGrow("", [], s, d, dst);
    TruncationsGrow("", [], d, s);
    GrowConcat(a, b, [], flips, more);
    GrowConcat(a + b, c, [], flips + more, less);
  }

  /** Whatever else changes: arrays round-trip only if as many positions turn null as stop being null. */
  lemma {:induction false} ArrayNullFlipsBalance(s: seq<Json>, d: seq<Json>)
    requires ApplyAll(Arr(s), Diff("", Arr(s), Arr(d))) == Ok(Arr(d))
    ensures Flips(s, d, Min(|s|, |d|)) == 0
  {
    if s == d {
      NoFlips(s, |s|);
    } else {
      DiffGrows(Arr(s), Arr(d));
      LengthAfter(s, Diff("", Arr(s), Arr(d)), |d| - |s| + Flips(s, d, Min(|s|, |d|)), Arr(d));
    }
  }

  lemma {:induction false} LengthAfter(s: seq<Json>, ops: seq<Op>, n: int, r: Json)
    requires Grow(ops, [], n) && ApplyAll(Arr(s), ops) == Ok(r)
    ensures r.Arr? && |r.elems| == |s| + n
  {
    assert LengthAt(Arr(s), [], |s|);
    assert LengthAt(ApplyAll(Arr(s), ops).value, [], |s| + n);
  }

  lemma {:induction false} NoFlips(s: seq<Json>, n: nat)
    requires n <= |s|
    ensures Flips(s, s, n) == 0
  {
    if n > 0 {
      NoFlips(s, n - 1);
    }
  }

  lemma {:induction false} OneFlip(s: seq<Json>, i: nat, v: Json, n: nat)
    requires i < |s| && n <= |s|
    ensures Flips(s, s[i := v], n) == if i < n then Flip(s[i], v) else 0
  {
    if n > 0 {
      OneFlip(s, i, v, n - 1);
    }
  }

  /** In particular a single position that turns null or stops being null never round-trips. */
  lemma {:induction false} ArrayNullFlipFails(s: seq<Json>, i: nat, v: Json)
    requires i < |s| && (s[i] == Null <==> v != Null)
    ensures ApplyAll(Arr(s), Diff("", Arr(s), Arr(s[i := v]))) != Ok(Arr(s[i := v]))
  {
    OneFlip(s, i, v, |s|);
    if ApplyAll(Arr(s), Diff("", Arr(s), Arr(s[i := v]))) == Ok(Arr(s[i := v])) {
      ArrayNullFlipsBalance(s, s[i := v]);
    }
  }

  // ---- Flips that cancel ----

  lemma {:induction false} RemoveElem(s: seq<Json>, i: nat)
    requires i < |s|
    ensures ApplyAll(Arr(s), [MkRemove("" + "/" + Itoa(i))]) == Ok(Arr(s[..i] + s[i + 1..]))
  {
    One(Arr(s), MkRemove("" + "/" + Itoa(i)));
    AtoiItoa(i);
    ParseSnoc("", [], Itoa(i));
    RemoveFromArr(Arr(s), [], s, Itoa(i), i);
  }

  lemma {:induction false} AppendOne(s: seq<Json>, v: Json)
    ensures ApplyAll(Arr(s), [MkAdd("" + "/" + Itoa(|s|), v)]) == Ok(Arr(s + [v]))
  {
    One(Arr(s), MkAdd("" + "/" + Itoa(|s|), v));
    AppendElem(Arr(s), "", [], s, v);
  }

  lemma {:induction false} RemoveThenAppend(s: seq<Json>, i: nat, last: nat, v: Json)
    requires i < |s| == last + 1
    ensures ApplyAll(Arr(s), [MkRemove("" + "/" + Itoa(i))] + [MkAdd("" + "/" + Itoa(last), v)])
         == Ok(Arr(s[..i] + s[i + 1..] + [v]))
  {
    RemoveElem(s, i);
    AppendOne(s[..i] + s[i + 1..], v);
    ApplyConcat(Arr(s), [MkRemove("" + "/" + Itoa(i))], [MkAdd("" + "/" + Itoa(last), v)]);
  }

  /** Two such flips in a row can cancel out, so no condition on single positions is both sufficient and necessary. */
  lemma {:induction false} ArrayNullFlipsCanCancel(s: seq<Json>, d: seq<Json>, i: nat)
    requires |s| == |d| == i + 2 && (forall j :: 0 <= j < i ==> s[j] == d[j])
    requires s[i] != Null && s[i + 1] == Null && d[i] == Null && d[i + 1] != Null
    ensures ApplyAll(Arr(s), Diff("", Arr(s), Arr(d))) == Ok(Arr(d))
  {
    CancelDiff(s, d, i);
    RemoveThenAppend(s, i, i + 1, d[i + 1]);
    ShiftedByOne(s, d, i);
  }

  lemma {:induction false} ShiftedByOne<T>(s: seq<T>, d: seq<T>, i: nat)
    requires |s| == |d| == i + 2 && (forall j :: 0 <= j < i ==> s[j] == d[j]) && s[i + 1] == d[i]
    ensures s[..i] + s[i + 1..] + [d[i + 1]] == d
  {
  }

  lemma {:induction false} CancelDiff(s: seq<Json>, d: seq<Json>, i: nat)
    requires |s| == |d| == i + 2 && (forall j :: 0 <= j < i ==> s[j] == d[j])
    requires s[i] != Null && s[i + 1] == Null && d[i] == Null && d[i + 1] != Null
    ensures Diff("", Arr(s), Arr(d)) == [MkRemove("" + "/" + Itoa(i))] + [MkAdd("" + "/" + Itoa(i + 1), d[i + 1])]
  {
    var src, dst := Arr(s), Arr(d);
    assert s[i] != d[i];
    DiffArrs("", src, dst);
    SamePrefix("", i, src, dst);
    assert Elements("", i + 1, src, dst) == Elements("", i, src, dst) + Diff("" + "/" + Itoa(i), s[i], d[i]);
    assert Elements("", i + 2, src, dst)
        == Elements("", i + 1, src, dst) + Diff("" + "/" + Itoa(i + 1), s[i + 1], d[i + 1]);
  }

  lemma {:induction false} SamePrefix(path: string, n: nat, src: Json, dst: Json)
    requires src.Arr? && dst.Arr? && n <= |src.elems| && n <= |dst.elems|
    requires forall j :: 0 <= j < n ==> src.elems[j] == dst.elems[j]
    ensures Elements(path, n, src, dst) == []
  {
    if n > 0 {
      SamePrefix(path, n - 1, src, dst);
      DiffSame(path + "/" + Itoa(n - 1), src.elems[n - 1]);
    }
  }
}
