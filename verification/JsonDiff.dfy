/**
 The structural diff of two JSON values.
 */
module JsonDiff {
  import opened Decimal
  import opened JsonPointer
  import opened JsonPatch
  import Sorting

  // ---- Sorted object keys ----

  lemma {:induction false} LeastExists(s: set<string>)
    requires s != {}
    ensures exists k :: IsLeast(s, k)
  {
    var x :| x in s;
    if s - {x} == {} {
      assert s == {x};
      assert IsLeast(s, x);
    } else {
      LeastExists(s - {x});
      var k :| IsLeast(s - {x}, k);
      Sorting.LessTotal(x, k);
      if Sorting.Less(x, k) {
        forall y | y in s && y != x ensures Sorting.Less(x, y) {
          if y != k { Sorting.LessTransitive(x, k, y); }
        }
        assert IsLeast(s, x);
      } else {
        assert IsLeast(s, k);
      }
    }
  }

  predicate IsLeast(s: set<string>, k: string) {
    k in s && forall y :: y in s && y != k ==> Sorting.Less(k, y)
  }

  function SortedKeys(s: set<string>): (r: seq<string>)
    ensures forall k :: k in r <==> k in s
    ensures forall i, j :: 0 <= i < j < |r| ==> r[i] != r[j] && Sorting.Less(r[i], r[j])
  {
    if s == {} then []
    else
      LeastExists(s);
      assert forall a, b :: IsLeast(s, a) && IsLeast(s, b) ==> a == b by { LeastUnique(s); }
      var k :| IsLeast(s, k);
      [k] + SortedKeys(s - {k})
  }

  lemma {:induction false} LeastUnique(s: set<string>)
    ensures forall a, b :: IsLeast(s, a) && IsLeast(s, b) ==> a == b
  {
    forall a, b | IsLeast(s, a) && IsLeast(s, b) ensures a == b {
      if a != b {
        Sorting.LessTransitive(a, b, a);
        Sorting.LessIrreflexive(a);
      }
    }
  }

  // ---- The diff ----

  function MkAdd(path: string, v: Json): Op { Op(Add, path, "", v) }
  function MkRemove(path: string): Op { Op(Remove, path, "", Null) }
  function MkReplace(path: string, v: Json): Op { Op(Replace, path, "", v) }

  function Diff(path: string, src: Json, dst: Json): seq<Op>
    decreases dst, 1, 0
  {
    if src == dst then []
    else if src == Null then [MkAdd(path, dst)]
    else if dst == Null then [MkRemove(path)]
    else if src.Obj? && dst.Obj? then
      Removals(path, SortedKeys(src.fields.Keys), dst.fields) +
      Members(path, SortedKeys(dst.fields.Keys), src, dst)
    else if src.Arr? && dst.Arr? then
      Elements(path, Min(|src.elems|, |dst.elems|), src, dst) +
      Appends(path, |src.elems|, |dst.elems|, dst) + Truncations(path, |dst.elems|, |src.elems|)
    else [MkReplace(path, dst)]
  }

  lemma {:induction false} DiffSame(path: string, v: Json)
    ensures Diff(path, v, v) == []
  {
  }

  function Min(a: nat, b: nat): nat { if a < b then a else b }

  /** Keys of the source that the target lacks. */
  function Removals(path: string, keys: seq<string>, dst: map<string, Json>): seq<Op> {
    if keys == [] then []
    else
      var k := keys[|keys| - 1];
      Removals(path, keys[..|keys| - 1], dst) + if k in dst then [] else [MkRemove(path + "/" + k)]
  }

  /** Keys of the target: added if new, else compared. */
  function Members(path: string, keys: seq<string>, src: Json, dst: Json): seq<Op>
    requires src.Obj? && dst.Obj? && forall k :: k in keys ==> k in dst.fields
    decreases dst, 0, |keys|
  {
    if keys == [] then []
    else
      var k := keys[|keys| - 1];
      Members(path, keys[..|keys| - 1], src, dst) +
      if k in src.fields then Diff(path + "/" + k, src.fields[k], dst.fields[k])
      else [MkAdd(path + "/" + k, dst.fields[k])]
  }

  /** The first `n` elements, compared position by position. */
  function Elements(path: string, n: nat, src: Json, dst: Json): seq<Op>
    requires src.Arr? && dst.Arr? && n <= |src.elems| && n <= |dst.elems|
    decreases dst, 0, n
  {
    if n == 0 then []
    else Elements(path, n - 1, src, dst) + Diff(path + "/" + Itoa(n - 1), src.elems[n - 1], dst.elems[n - 1])
  }

  /** Elements `lo`, ..., `hi - 1` of the target, added in order. */
  function Appends(path: string, lo: nat, hi: nat, dst: Json): seq<Op>
    requires dst.Arr? && hi <= |dst.elems|
    decreases hi
  {
    if hi <= lo then []
    else Appends(path, lo, hi - 1, dst) + [MkAdd(path + "/" + Itoa(hi - 1), dst.elems[hi - 1])]
  }

  /** Positions `hi - 1`, ..., `lo`, removed from the end. */
  function Truncations(path: string, lo: nat, hi: nat): seq<Op>
    decreases hi
  {
    if hi <= lo then [] else [MkRemove(path + "/" + Itoa(hi - 1))] + Truncations(path, lo, hi - 1)
  }

  lemma {:induction false} DiffObjs(path: string, src: Json, dst: Json)
    requires src.Obj? && dst.Obj? && src != dst
    ensures Diff(path, src, dst) ==
      Removals(path, SortedKeys(src.fields.Keys), dst.fields) + Members(path, SortedKeys(dst.fields.Keys), src, dst)
  {
  }

  lemma {:induction false} DiffArrs(path: string, src: Json, dst: Json)
    requires src.Arr? && dst.Arr? && src != dst && |src.elems| == |dst.elems|
    ensures Diff(path, src, dst) == Elements(path, |src.elems|, src, dst)
  {
  }

  // ---- The loops of the program ----

  method DiffRecursive(path: string, src: Json, dst: Json, patch: seq<Op>) returns (out: seq<Op>)
    ensures out == patch + Diff(path, src, dst)
    decreases dst, 1
  {
    if src == dst {
      return patch;
    }
    if src == Null && dst != Null {
      return patch + [MkAdd(path, dst)];
    }
    if src != Null && dst == Null {
      return patch + [MkRemove(path)];
    }
    if src.Obj? && dst.Obj? {
      out := DiffMaps(path, src, dst, patch);
    } else if src.Arr? && dst.Arr? {
      out := DiffSlices(path, src, dst, patch);
    } else {
      out := patch + [MkReplace(path, dst)];
    }
  }

  method DiffMaps(path: string, src: Json, dst: Json, patch: seq<Op>) returns (out: seq<Op>)
    requires src.Obj? && dst.Obj?
    ensures out == patch + (Removals(path, SortedKeys(src.fields.Keys), dst.fields) +
                            Members(path, SortedKeys(dst.fields.Keys), src, dst))
    decreases dst, 0, 1
  {
    var srcKeys, dstKeys := SortedKeys(src.fields.Keys), SortedKeys(dst.fields.Keys);
    out := RemoveMissing(path, srcKeys, dst.fields, patch);
    out := DiffMembers(path, dstKeys, src, dst, out);
    Assoc(patch, Removals(path, srcKeys, dst.fields), Members(path, dstKeys, src, dst));
  }

  lemma {:induction false} Assoc<T>(a: seq<T>, b: seq<T>, c: seq<T>)
    ensures a + b + c == a + (b + c)
  {
  }

  /** The first loop of the object comparison. */
  method RemoveMissing(path: string, keys: seq<string>, dst: map<string, Json>, patch: seq<Op>) returns (out: seq<Op>)
    ensures out == patch + Removals(path, keys, dst)
  {
    out := patch;
    for i := 0 to |keys|
      invariant out == patch + Removals(path, keys[..i], dst)
    {
      assert keys[..i + 1][..i] == keys[..i];
      if keys[i] !in dst {
        Assoc(patch, Removals(path, keys[..i], dst), [MkRemove(path + "/" + keys[i])]);
        out := out + [MkRemove(path + "/" + keys[i])];
      }
    }
    assert keys[..|keys|] == keys;
  }

  /** The second loop of the object comparison. */
  method DiffMembers(path: string, keys: seq<string>, src: Json, dst: Json, patch: seq<Op>) returns (out: seq<Op>)
    requires src.Obj? && dst.Obj? && forall k :: k in keys ==> k in dst.fields
    ensures out == patch + Members(path, keys, src, dst)
    decreases dst, 0, 0
  {
    out := patch;
    for i := 0 to |keys|
      invariant out == patch + Members(path, keys[..i], src, dst)
    {
      ghost var done := Members(path, keys[..i], src, dst);
      var k := keys[i];
      assert keys[..i + 1][..i] == keys[..i] && k in keys;
      ghost var more := if k in src.fields then Diff(path + "/" + k, src.fields[k], dst.fields[k])
                        else [MkAdd(path + "/" + k, dst.fields[k])];
      assert Members(path, keys[..i + 1], src, dst) == done + more;
      if k in src.fields {
        out := DiffRecursive(path + "/" + k, src.fields[k], dst.fields[k], out);
      } else {
        out := out + [MkAdd(path + "/" + k, dst.fields[k])];
      }
      Assoc(patch, done, more);
    }
    assert keys[..|keys|] == keys;
  }

  method DiffSlices(path: string, src: Json, dst: Json, patch: seq<Op>) returns (out: seq<Op>)
    requires src.Arr? && dst.Arr?
    ensures out == patch + (Elements(path, Min(|src.elems|, |dst.elems|), src, dst) +
                            Appends(path, |src.elems|, |dst.elems|, dst) + Truncations(path, |dst.elems|, |src.elems|))
    decreases dst, 0, 1
  {
    out := DiffElements(path, src, dst, patch);
    if |dst.elems| > |src.elems| {
      out := AppendFrom(path, |src.elems|, dst, out);
    }
    if |src.elems| > |dst.elems| {
      out := TruncateFrom(path, |dst.elems|, |src.elems|, out);
    }
    ghost var a, b, c := Elements(path, Min(|src.elems|, |dst.elems|), src, dst),
                         Appends(path, |src.elems|, |dst.elems|, dst), Truncations(path, |dst.elems|, |src.elems|);
    Assoc(patch, a, b);
    Assoc(patch, a + b, c);
  }

  /** The loop that adds what the target has in excess. */
  method AppendFrom(path: string, lo: nat, dst: Json, patch: seq<Op>) returns (out: seq<Op>)
    requires dst.Arr? && lo <= |dst.elems|
    ensures out == patch + Appends(path, lo, |dst.elems|, dst)
  {
    out := patch;
    for i := lo to |dst.elems|
      invariant out == patch + Appends(path, lo, i, dst)
    {
      Assoc(patch, Appends(path, lo, i, dst), [MkAdd(path + "/" + Itoa(i), dst.elems[i])]);
      out := out + [MkAdd(path + "/" + Itoa(i), dst.elems[i])];
    }
  }

  /** The loop over the common prefix. */
  method DiffElements(path: string, src: Json, dst: Json, patch: seq<Op>) returns (out: seq<Op>)
    requires src.Arr? && dst.Arr?
    ensures out == patch + Elements(path, Min(|src.elems|, |dst.elems|), src, dst)
    decreases dst, 0, 0
  {
    out := patch;
    var minLen := Min(|src.elems|, |dst.elems|);
    for i := 0 to minLen
      invariant out == patch + Elements(path, i, src, dst)
    {
      ghost var done, more := Elements(path, i, src, dst), Diff(path + "/" + Itoa(i), src.elems[i], dst.elems[i]);
      out := DiffRecursive(path + "/" + Itoa(i), src.elems[i], dst.elems[i], out);
      Assoc(patch, done, more);
    }
  }

  /** The loop that removes surplus elements, last one first. */
  method TruncateFrom(path: string, lo: nat, hi: nat, patch: seq<Op>) returns (out: seq<Op>)
    requires lo <= hi
    ensures out == patch + Truncations(path, lo, hi)
  {
    out := patch;
    var i := hi;
    while i > lo
      invariant lo <= i <= hi
      invariant patch + Truncations(path, lo, hi) == out + Truncations(path, lo, i)
    {
      var op := MkRemove(path + "/" + Itoa(i - 1));
      Assoc(out, [op], Truncations(path, lo, i - 1));
      out := out + [op];
      i := i - 1;
    }
  }
}
