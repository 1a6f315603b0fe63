/**
 Applying a diff with plain keys to its source: what comes out.
 */
module JsonRoundTrip {
  import opened Decimal
  import opened JsonPointer
  import opened JsonPatch
  import opened JsonDiff
  import opened Sequences

  /** The diff can be applied: differing members have plain keys, and no array position turns null or stops being
   null. */
  ghost predicate Patchable(src: Json, dst: Json)
    decreases dst
  {
    if src == dst || src == Null || dst == Null then true
    else if src.Obj? && dst.Obj? then
      && (forall k :: k in src.fields || k in dst.fields ==> SameMember(src, dst, k) || PlainKey(k))
      && (forall k :: k in dst.fields && k in src.fields ==> Patchable(src.fields[k], dst.fields[k]))
    else if src.Arr? && dst.Arr? then
      forall i :: 0 <= i < |src.elems| && i < |dst.elems| ==>
        (src.elems[i] == Null <==> dst.elems[i] == Null) && Patchable(src.elems[i], dst.elems[i])
    else true
  }

  predicate SameMember(src: Json, dst: Json, k: string)
    requires src.Obj? && dst.Obj?
  {
    k in src.fields && k in dst.fields && src.fields[k] == dst.fields[k]
  }

  /** The target, less the members that go from some value to null: those are removed. */
  ghost function Forget(src: Json, dst: Json): Json
    decreases dst, 1
  {
    if src == dst || src == Null || dst == Null then dst
    else if src.Obj? && dst.Obj? then Obj(map k | k in dst.fields && Kept(src, dst, k) :: ForgetMember(src, dst, k))
    else if src.Arr? && dst.Arr? then
      Arr(seq(|dst.elems|, i requires 0 <= i < |dst.elems| => ForgetElem(src, dst, i)))
    else dst
  }

  ghost predicate Kept(src: Json, dst: Json, k: string)
    requires src.Obj? && dst.Obj? && k in dst.fields
  {
    k in src.fields && src.fields[k] != Null ==> dst.fields[k] != Null
  }

  ghost function ForgetMember(src: Json, dst: Json, k: string): Json
    requires src.Obj? && dst.Obj? && k in dst.fields
    decreases dst, 0
  {
    if k in src.fields then Forget(src.fields[k], dst.fields[k]) else dst.fields[k]
  }

  ghost function ForgetElem(src: Json, dst: Json, i: nat): Json
    requires src.Arr? && dst.Arr? && i < |dst.elems|
    decreases dst, 0
  {
    if i < |src.elems| then Forget(src.elems[i], dst.elems[i]) else dst.elems[i]
  }

  lemma {:induction false} ForgetSame(v: Json)
    ensures Forget(v, v) == v
  {
  }

  // ---- What one operation does at the end of a path ----

  lemma {:induction false} AddMember(t: Json, path: string, p: seq<string>, m: map<string, Json>, k: string, v: Json)
    requires t != Null && Parse(path) == Tokens(p) && Get(t, p) == Ok(Obj(m)) && PlainKey(k)
    ensures ApplyOp(t, MkAdd(path + "/" + k, v)) == Ok(Put(t, p, Obj(m[k := v])))
  {
    ParseSnoc(path, p, k);
    AddToObj(t, p, m, k, v);
  }

  lemma {:induction false} RemoveMember(t: Json, path: string, p: seq<string>, m: map<string, Json>, k: string)
    requires Parse(path) == Tokens(p) && Get(t, p) == Ok(Obj(m)) && PlainKey(k) && k in m
    ensures ApplyOp(t, MkRemove(path + "/" + k)) == Ok(Put(t, p, Obj(m - {k})))
  {
    ParseSnoc(path, p, k);
    RemoveFromObj(t, p, m, k);
  }

  lemma {:induction false} AddTail(t: Json, p: seq<string>, s: seq<Json>, tok: string, v: Json)
    requires Get(t, p) == Ok(Arr(s)) && Atoi(tok) == Index(|s|)
    ensures AddValue(t, p + [tok], v) == Ok(Put(t, p, Arr(s + [v])))
  {
    AddToArr(t, p, s, tok, |s|, v);
    assert s[..|s|] + [v] + s[|s|..] == s + [v];
  }

  lemma {:induction false} RemoveTail(t: Json, p: seq<string>, s: seq<Json>, tok: string)
    requires Get(t, p) == Ok(Arr(s)) && s != [] && Atoi(tok) == Index(|s| - 1)
    ensures RemoveValue(t, p + [tok]) == Ok(Put(t, p, Arr(s[..|s| - 1])))
  {
    RemoveFromArr(t, p, s, tok, |s| - 1);
    assert s[..|s| - 1] + s[|s|..] == s[..|s| - 1];
  }

  lemma {:induction false} AppendElem(t: Json, path: string, p: seq<string>, s: seq<Json>, v: Json)
    requires Parse(path) == Tokens(p) && Get(t, p) == Ok(Arr(s))
    ensures ApplyOp(t, MkAdd(path + "/" + Itoa(|s|), v)) == Ok(Put(t, p, Arr(s + [v])))
  {
    AtoiItoa(|s|);
    ParseSnoc(path, p, Itoa(|s|));
    AddTail(t, p, s, Itoa(|s|), v);
  }

  lemma {:induction false} DropElem(t: Json, path: string, p: seq<string>, s: seq<Json>)
    requires Parse(path) == Tokens(p) && Get(t, p) == Ok(Arr(s)) && s != []
    ensures ApplyOp(t, MkRemove(path + "/" + Itoa(|s| - 1))) == Ok(Put(t, p, Arr(s[..|s| - 1])))
  {
    AtoiItoa(|s| - 1);
    ParseSnoc(path, p, Itoa(|s| - 1));
    RemoveTail(t, p, s, Itoa(|s| - 1));
  }

  lemma {:induction false} ParentOf(t: Json, up: seq<string>, last: string)
    requires Get(t, up + [last]).Ok?
    ensures Get(t, up).Ok? && HasChild(Get(t, up).value, last)
  {
    if up == [] {
      assert up + [last] == [last];
    } else {
      assert (up + [last])[1..] == up[1..] + [last];
      ParentOf(Child(t, up[0]), up[1..], last);
    }
  }

  /** Taking a part out and putting something else in its place is one replacement. */
  lemma {:induction false} CutAndFill(t: Json, up: seq<string>, cut: Json, full: Json)
    requires Get(t, up).Ok? && cut != Null
    ensures Put(t, up, cut) != Null && Get(Put(t, up, cut), up) == Ok(cut)
    ensures Put(Put(t, up, cut), up, full) == Put(t, up, full)
  {
    GetPut(t, up, cut);
  }

  lemma {:induction false} RemoveThenSet<K, V>(m: map<K, V>, k: K, v: V)
    ensures (m - {k})[k := v] == m[k := v]
  {
  }

  lemma {:induction false} AddToObj(t: Json, up: seq<string>, m: map<string, Json>, last: string, v: Json)
    requires t != Null && Get(t, up) == Ok(Obj(m))
    ensures AddValue(t, up + [last], v) == Ok(Put(t, up, Obj(m[last := v])))
  {
    assert (up + [last])[..|up|] == up && (up + [last])[|up|] == last;
  }

  lemma {:induction false} RemoveFromObj(t: Json, up: seq<string>, m: map<string, Json>, last: string)
    requires Get(t, up) == Ok(Obj(m)) && last in m
    ensures RemoveValue(t, up + [last]) == Ok(Put(t, up, Obj(m - {last})))
  {
    assert (up + [last])[..|up|] == up && (up + [last])[|up|] == last;
  }

  lemma {:induction false} ReplaceInObj(t: Json, up: seq<string>, m: map<string, Json>, last: string, v: Json)
    requires Get(t, up) == Ok(Obj(m)) && last in m
    ensures RemoveValue(t, up + [last]) == Ok(Put(t, up, Obj(m - {last})))
    ensures AddValue(Put(t, up, Obj(m - {last})), up + [last], v) == Ok(Put(t, up, Obj(m[last := v])))
  {
    RemoveFromObj(t, up, m, last);
    CutAndFill(t, up, Obj(m - {last}), Obj(m[last := v]));
    AddToObj(Put(t, up, Obj(m - {last})), up, m - {last}, last, v);
    RemoveThenSet(m, last, v);
  }

  lemma {:induction false} CutThenInsert<T>(s: seq<T>, i: nat, v: T)
    requires i < |s|
    ensures (s[..i] + s[i + 1..])[..i] + [v] + (s[..i] + s[i + 1..])[i..] == s[i := v]
  {
  }

  lemma {:induction false} AddToArr(t: Json, up: seq<string>, s: seq<Json>, last: string, i: nat, v: Json)
    requires t != Null && Get(t, up) == Ok(Arr(s)) && Atoi(last) == Index(i) && i <= |s|
    ensures AddValue(t, up + [last], v) == Ok(Put(t, up, Arr(s[..i] + [v] + s[i..])))
  {
    assert (up + [last])[..|up|] == up && (up + [last])[|up|] == last;
  }

  lemma {:induction false} RemoveFromArr(t: Json, up: seq<string>, s: seq<Json>, last: string, i: nat)
    requires Get(t, up) == Ok(Arr(s)) && Atoi(last) == Index(i) && i < |s|
    ensures RemoveValue(t, up + [last]) == Ok(Put(t, up, Arr(s[..i] + s[i + 1..])))
  {
    assert (up + [last])[..|up|] == up && (up + [last])[|up|] == last;
  }

  lemma {:induction false} ReplaceInArr(t: Json, up: seq<string>, s: seq<Json>, last: string, i: nat, v: Json)
    requires Get(t, up) == Ok(Arr(s)) && Atoi(last) == Index(i) && i < |s|
    ensures RemoveValue(t, up + [last]) == Ok(Put(t, up, Arr(s[..i] + s[i + 1..])))
    ensures AddValue(Put(t, up, Arr(s[..i] + s[i + 1..])), up + [last], v) == Ok(Put(t, up, Arr(s[i := v])))
  {
    var cut := s[..i] + s[i + 1..];
    RemoveFromArr(t, up, s, last, i);
    CutAndFill(t, up, Arr(cut), Arr(s[i := v]));
    AddToArr(Put(t, up, Arr(cut)), up, cut, last, i, v);
    CutThenInsert(s, i, v);
  }

  lemma {:induction false} PutOne(v: Json, tok: string, c: Json)
    requires HasChild(v, tok)
    ensures Get(v, [tok]) == Ok(Child(v, tok)) && Put(v, [tok], c) == SetChild(v, tok, c)
  {
    assert [tok][1..] == [];
  }

  lemma {:induction false} ReplaceValue(t: Json, p: seq<string>, v: Json)
    requires Get(t, p).Ok?
    ensures RemoveValue(t, p).Ok? && AddValue(RemoveValue(t, p).value, p, v) == Ok(Put(t, p, v))
  {
    if p != [] {
      var up, last := p[..|p| - 1], p[|p| - 1];
      assert p == up + [last];
      ParentOf(t, up, last);
      var parent := Get(t, up).value;
      PutConcat(t, up, [last], v);
      PutOne(parent, last, v);
      match parent
      case Obj(m) => ReplaceInObj(t, up, m, last, v);
      case Arr(s) => ReplaceInArr(t, up, s, last, Atoi(last).i, v);
    }
  }

  /** Replace is remove and add: together they overwrite the value at the path. */
  lemma {:induction false} ReplaceAt(t: Json, path: string, p: seq<string>, v: Json)
    requires Parse(path) == Tokens(p) && Get(t, p).Ok?
    ensures ApplyOp(t, MkReplace(path, v)) == Ok(Put(t, p, v))
  {
    ReplaceValue(t, p, v);
  }

  // ---- Objects ----

  lemma {:induction false} One(t: Json, op: Op)
    ensures ApplyAll(t, [op]) == ApplyOp(t, op)
  {
    assert [op][..0] == [];
  }

  lemma {:induction false} NotNull(t: Json, p: seq<string>)
    requires Get(t, p).Ok? && Get(t, p).value != Null
    ensures t != Null
  {
  }

  ghost predicate InMerged(src: Json, dst: Json, done: set<string>, k: string)
    requires src.Obj? && dst.Obj?
  {
    k in dst.fields && if k in done then Kept(src, dst, k) else k in src.fields
  }

  /** The object while its members are compared: those in `done` are final, the others still as in the source. */
  ghost function Merged(src: Json, dst: Json, done: set<string>): map<string, Json>
    requires src.Obj? && dst.Obj?
  {
    map k | k in dst.fields && InMerged(src, dst, done, k) ::
      if k in done then ForgetMember(src, dst, k) else src.fields[k]
  }

  ghost function MemberOps(path: string, src: Json, dst: Json, k: string): seq<Op>
    requires src.Obj? && dst.Obj? && k in dst.fields
  {
    if k in src.fields then Diff(path + "/" + k, src.fields[k], dst.fields[k])
      else [MkAdd(path + "/" + k, dst.fields[k])]
  }

  /** How the object changes when member `k` is done. */
  lemma {:induction false} MergedStep(src: Json, dst: Json, done: set<string>, k: string)
    requires src.Obj? && dst.Obj? && k in dst.fields && k !in done
    ensures k in Merged(src, dst, done) <==> k in src.fields
    ensures k in src.fields ==> Merged(src, dst, done)[k] == src.fields[k]
    ensures Kept(src, dst, k) ==> Merged(src, dst, done + {k}) == Merged(src, dst, done)[k := ForgetMember(src, dst, k)]
    ensures !Kept(src, dst, k) ==> Merged(src, dst, done + {k}) == Merged(src, dst, done) - {k}
  {
  }

  lemma {:induction false} MemberStep(
      path: string, p: seq<string>, t: Json, src: Json, dst: Json, done: set<string>, k: string)
    requires src.Obj? && dst.Obj? && k in dst.fields && k !in done
    requires Parse(path) == Tokens(p) && Get(t, p) == Ok(Obj(Merged(src, dst, done)))
    requires SameMember(src, dst, k) || PlainKey(k)
    requires k in src.fields ==> Patchable(src.fields[k], dst.fields[k])
    ensures ApplyAll(t, MemberOps(path, src, dst, k)) == Ok(Put(t, p, Obj(Merged(src, dst, done + {k}))))
    decreases dst, 0
  {
    var m := Merged(src, dst, done);
    MergedStep(src, dst, done, k);
    NotNull(t, p);
    if SameMember(src, dst, k) {
      assert m[k := src.fields[k]] == m;
      GetPut(t, p, Null);
    } else if k !in src.fields || src.fields[k] == Null {
      AddMember(t, path, p, m, k, dst.fields[k]);
      One(t, MkAdd(path + "/" + k, dst.fields[k]));
    } else if dst.fields[k] == Null {
      RemoveMember(t, path, p, m, k);
      One(t, MkRemove(path + "/" + k));
    } else {
      ParseSnoc(path, p, k);
      GetConcat(t, p, [k]);
      PutOne(Obj(m), k, ForgetMember(src, dst, k));
      Patch(path + "/" + k, p + [k], t, src.fields[k], dst.fields[k]);
      PutConcat(t, p, [k], ForgetMember(src, dst, k));
    }
  }

  lemma {:induction false} ElemsSnoc<T>(keys: seq<T>)
    requires keys != [] && forall i, j :: 0 <= i < j < |keys| ==> keys[i] != keys[j]
    ensures keys[|keys| - 1] !in Elems(keys[..|keys| - 1])
    ensures Elems(keys) == Elems(keys[..|keys| - 1]) + {keys[|keys| - 1]}
    ensures forall k :: k in keys[..|keys| - 1] ==> k in keys
  {
    assert keys == keys[..|keys| - 1] + [keys[|keys| - 1]];
  }

  lemma {:induction false} MembersApply(path: string, p: seq<string>, t: Json, src: Json, dst: Json, keys: seq<string>)
    requires src.Obj? && dst.Obj? && (forall k :: k in keys ==> k in dst.fields)
    requires forall i, j :: 0 <= i < j < |keys| ==> keys[i] != keys[j]
    requires Parse(path) == Tokens(p) && Get(t, p) == Ok(Obj(Merged(src, dst, {})))
    requires forall k :: k in dst.fields ==> SameMember(src, dst, k) || PlainKey(k)
    requires forall k :: k in dst.fields && k in src.fields ==> Patchable(src.fields[k], dst.fields[k])
    ensures ApplyAll(t, Members(path, keys, src, dst)) == Ok(Put(t, p, Obj(Merged(src, dst, Elems(keys)))))
    decreases dst, 1, |keys|
  {
    if keys == [] {
      assert Elems(keys) == {};
      GetPut(t, p, Null);
    } else {
      var rest, k := keys[..|keys| - 1], keys[|keys| - 1];
      ElemsSnoc(keys);
      MembersApply(path, p, t, src, dst, rest);
      var mid := Obj(Merged(src, dst, Elems(rest)));
      GetPut(t, p, mid);
      MemberStep(path, p, Put(t, p, mid), src, dst, Elems(rest), k);
      ApplyConcat(t, Members(path, rest, src, dst), MemberOps(path, src, dst, k));
    }
  }

  ghost function Gone<K, V>(keys: seq<K>, dst: map<K, V>): set<K> {
    set k | k in keys && k !in dst
  }

  lemma {:induction false} GoneSnoc<K, V>(m: map<K, V>, keys: seq<K>, dst: map<K, V>)
    requires keys != [] && keys[|keys| - 1] in m
    requires forall i, j :: 0 <= i < j < |keys| ==> keys[i] != keys[j]
    ensures keys[|keys| - 1] in m - Gone(keys[..|keys| - 1], dst)
    ensures m - Gone(keys, dst) ==
            (m - Gone(keys[..|keys| - 1], dst)) - (if keys[|keys| - 1] in dst then {} else {keys[|keys| - 1]})
  {
    ElemsSnoc(keys);
    var rest, k := keys[..|keys| - 1], keys[|keys| - 1];
    assert Gone(keys, dst) == Gone(rest, dst) + if k in dst then {} else {k};
  }

  lemma {:induction false} RemovalsApply(
      path: string, p: seq<string>, t: Json, m: map<string, Json>, keys: seq<string>, dst: map<string, Json>)
    requires Parse(path) == Tokens(p) && Get(t, p) == Ok(Obj(m)) && (forall k :: k in keys ==> k in m)
    requires forall i, j :: 0 <= i < j < |keys| ==> keys[i] != keys[j]
    requires forall k :: k in keys && k !in dst ==> PlainKey(k)
    ensures ApplyAll(t, Removals(path, keys, dst)) == Ok(Put(t, p, Obj(m - Gone(keys, dst))))
    decreases |keys|
  {
    if keys == [] {
      assert m - Gone(keys, dst) == m;
      GetPut(t, p, Null);
    } else {
      var rest, k := keys[..|keys| - 1], keys[|keys| - 1];
      ElemsSnoc(keys);
      GoneSnoc(m, keys, dst);
      RemovalsApply(path, p, t, m, rest, dst);
      var mid := m - Gone(rest, dst);
      if k in dst {
        assert Removals(path, rest, dst) + [] == Removals(path, rest, dst);
        assert m - Gone(keys, dst) == mid - {} == mid;
      } else {
        assert m - Gone(keys, dst) == mid - {k};
        GetPut(t, p, Obj(mid));
        RemoveMember(Put(t, p, Obj(mid)), path, p, mid, k);
        One(Put(t, p, Obj(mid)), MkRemove(path + "/" + k));
        ApplyConcat(t, Removals(path, rest, dst), [MkRemove(path + "/" + k)]);
      }
    }
  }

  /** Where the comparison of two objects starts and ends. */
  lemma {:induction false} MergedEnds(src: Json, dst: Json)
    requires src.Obj? && dst.Obj? && src != dst
    ensures src.fields - Gone(SortedKeys(src.fields.Keys), dst.fields) == Merged(src, dst, {})
    ensures Obj(Merged(src, dst, Elems(SortedKeys(dst.fields.Keys)))) == Forget(src, dst)
  {
    assert Elems(SortedKeys(dst.fields.Keys)) == dst.fields.Keys;
    assert Merged(src, dst, dst.fields.Keys) == Forget(src, dst).fields;
  }

  lemma {:induction false} PatchObj(path: string, p: seq<string>, t: Json, src: Json, dst: Json)
    requires src.Obj? && dst.Obj? && src != dst
    requires Parse(path) == Tokens(p) && Get(t, p) == Ok(src) && Patchable(src, dst)
    ensures ApplyAll(t, Diff(path, src, dst)) == Ok(Put(t, p, Forget(src, dst)))
    decreases dst, 2
  {
    var srcKeys, dstKeys := SortedKeys(src.fields.Keys), SortedKeys(dst.fields.Keys);
    RemovalsApply(path, p, t, src.fields, srcKeys, dst.fields);
    MergedEnds(src, dst);
    var mid := Obj(Merged(src, dst, {}));
    GetPut(t, p, mid);
    MembersApply(path, p, Put(t, p, mid), src, dst, dstKeys);
    ApplyConcat(t, Removals(path, srcKeys, dst.fields), Members(path, dstKeys, src, dst));
  }

  // ---- Arrays ----

  /** The array while its elements are compared: the first `n` are final. */
  ghost function Mixed(src: Json, dst: Json, n: nat): (r: seq<Json>)
    requires src.Arr? && dst.Arr? && n <= |src.elems| && n <= |dst.elems|
    ensures |r| == |src.elems|
  {
    seq(|src.elems|, i requires 0 <= i < |src.elems| => if i < n then ForgetElem(src, dst, i) else src.elems[i])
  }

  lemma {:induction false} ElementStep(path: string, p: seq<string>, t: Json, src: Json, dst: Json, i: nat)
    requires src.Arr? && dst.Arr? && i < |src.elems| && i < |dst.elems|
    requires Parse(path) == Tokens(p) && Get(t, p) == Ok(Arr(Mixed(src, dst, i)))
    requires (src.elems[i] == Null <==> dst.elems[i] == Null) && Patchable(src.elems[i], dst.elems[i])
    ensures ApplyAll(t, Diff(path + "/" + Itoa(i), src.elems[i], dst.elems[i]))
      == Ok(Put(t, p, Arr(Mixed(src, dst, i + 1))))
    decreases dst, 0
  {
    var s, f := Mixed(src, dst, i), ForgetElem(src, dst, i);
    assert Mixed(src, dst, i + 1) == s[i := f];
    if src.elems[i] == dst.elems[i] {
      ForgetSame(dst.elems[i]);
      assert s[i := f] == s;
      GetPut(t, p, Null);
    } else {
      AtoiItoa(i);
      ParseSnoc(path, p, Itoa(i));
      GetConcat(t, p, [Itoa(i)]);
      PutOne(Arr(s), Itoa(i), f);
      Patch(path + "/" + Itoa(i), p + [Itoa(i)], t, src.elems[i], dst.elems[i]);
      PutConcat(t, p, [Itoa(i)], f);
    }
  }

  lemma {:induction false} ElementNext(
      path: string, p: seq<string>, t: Json, before: seq<Op>, src: Json, dst: Json, i: nat)
    requires src.Arr? && dst.Arr? && i < |src.elems| && i < |dst.elems| && Parse(path) == Tokens(p) && Get(t, p).Ok?
    requires (src.elems[i] == Null <==> dst.elems[i] == Null) && Patchable(src.elems[i], dst.elems[i])
    requires ApplyAll(t, before) == Ok(Put(t, p, Arr(Mixed(src, dst, i))))
    ensures ApplyAll(t, before + Diff(path + "/" + Itoa(i), src.elems[i], dst.elems[i]))
      == Ok(Put(t, p, Arr(Mixed(src, dst, i + 1))))
    decreases dst, 1, 0
  {
    var mid, next := Arr(Mixed(src, dst, i)), Arr(Mixed(src, dst, i + 1));
    PutTwice(t, p, mid, next);
    ElementStep(path, p, Put(t, p, mid), src, dst, i);
    ApplyConcat(t, before, Diff(path + "/" + Itoa(i), src.elems[i], dst.elems[i]));
  }

  lemma {:induction false} ElementsApply(path: string, p: seq<string>, t: Json, src: Json, dst: Json, n: nat)
    requires src.Arr? && dst.Arr? && n <= |src.elems| && n <= |dst.elems|
    requires Parse(path) == Tokens(p) && Get(t, p) == Ok(src)
    requires forall i :: 0 <= i < n ==>
      (src.elems[i] == Null <==> dst.elems[i] == Null) && Patchable(src.elems[i], dst.elems[i])
    ensures ApplyAll(t, Elements(path, n, src, dst)) == Ok(Put(t, p, Arr(Mixed(src, dst, n))))
    decreases dst, 1, n
  {
    if n == 0 {
      assert Arr(Mixed(src, dst, 0)) == src;
      GetPut(t, p, Null);
    } else {
      ElementsApply(path, p, t, src, dst, n - 1);
      ElementNext(path, p, t, Elements(path, n - 1, src, dst), src, dst, n - 1);
    }
  }

  lemma {:induction false} PutTwice(t: Json, p: seq<string>, c: Json, d: Json)
    requires Get(t, p).Ok?
    ensures Get(Put(t, p, c), p) == Ok(c) && Put(Put(t, p, c), p, d) == Put(t, p, d)
  {
    GetPut(t, p, c);
  }

  lemma {:induction false} AppendsApply(
      path: string, p: seq<string>, t: Json, x: Json, full: seq<Json>, lo: nat, hi: nat, dst: Json)
    requires dst.Arr? && lo <= hi <= |full| == |dst.elems| && forall j :: lo <= j < hi ==> full[j] == dst.elems[j]
    requires Parse(path) == Tokens(p) && Get(t, p).Ok? && x == Put(t, p, Arr(full[..lo]))
    ensures ApplyAll(x, Appends(path, lo, hi, dst)) == Ok(Put(t, p, Arr(full[..hi])))
    decreases hi
  {
    if lo < hi {
      AppendsApply(path, p, t, x, full, lo, hi - 1, dst);
      AppendNext(path, p, t, x, Appends(path, lo, hi - 1, dst), full, hi - 1);
    }
  }

  lemma {:induction false} AppendNext(
      path: string, p: seq<string>, t: Json, x: Json, ops: seq<Op>, full: seq<Json>, n: nat)
    requires n < |full| && Parse(path) == Tokens(p) && Get(t, p).Ok?
    requires ApplyAll(x, ops) == Ok(Put(t, p, Arr(full[..n])))
    ensures ApplyAll(x, ops + [MkAdd(path + "/" + Itoa(n), full[n])]) == Ok(Put(t, p, Arr(full[..n + 1])))
  {
    assert full[..n] + [full[n]] == full[..n + 1];
    AppendStep(path, p, t, x, ops, full[..n], full[n]);
  }

  lemma {:induction false} AppendStep(
      path: string, p: seq<string>, t: Json, x: Json, ops: seq<Op>, mid: seq<Json>, v: Json)
    requires Parse(path) == Tokens(p) && Get(t, p).Ok? && ApplyAll(x, ops) == Ok(Put(t, p, Arr(mid)))
    ensures ApplyAll(x, ops + [MkAdd(path + "/" + Itoa(|mid|), v)]) == Ok(Put(t, p, Arr(mid + [v])))
  {
    PutTwice(t, p, Arr(mid), Arr(mid + [v]));
    AppendElem(Put(t, p, Arr(mid)), path, p, mid, v);
    ApplySnoc(x, ops, MkAdd(path + "/" + Itoa(|mid|), v));
  }

  lemma {:induction false} TruncationsApply(path: string, p: seq<string>, t: Json, s: seq<Json>, lo: nat, hi: nat)
    requires lo <= hi <= |s| && Parse(path) == Tokens(p) && Get(t, p).Ok?
    ensures ApplyAll(Put(t, p, Arr(s[..hi])), Truncations(path, lo, hi)) == Ok(Put(t, p, Arr(s[..lo])))
    decreases hi
  {
    if lo < hi {
      TruncationsApply(path, p, t, s, lo, hi - 1);
      assert s[..hi][..hi - 1] == s[..hi - 1];
      TruncateStep(path, p, t, s[..hi], Truncations(path, lo, hi - 1), Ok(Put(t, p, Arr(s[..lo]))));
    }
  }

  lemma {:induction false} TruncateStep(path: string, p: seq<string>, t: Json, s: seq<Json>, rest: seq<Op>, end: Result)
    requires s != [] && Parse(path) == Tokens(p) && Get(t, p).Ok? && ApplyAll(Put(t, p, Arr(s[..|s| - 1])), rest) == end
    ensures ApplyAll(Put(t, p, Arr(s)), [MkRemove(path + "/" + Itoa(|s| - 1))] + rest) == end
  {
    var op, u := MkRemove(path + "/" + Itoa(|s| - 1)), Put(t, p, Arr(s));
    PutTwice(t, p, Arr(s), Arr(s[..|s| - 1]));
    DropElem(u, path, p, s);
    One(u, op);
    ApplyConcat(u, [op], rest);
  }

  lemma {:induction false} PatchArr(path: string, p: seq<string>, t: Json, src: Json, dst: Json)
    requires src.Arr? && dst.Arr? && src != dst
    requires Parse(path) == Tokens(p) && Get(t, p) == Ok(src) && Patchable(src, dst)
    ensures ApplyAll(t, Diff(path, src, dst)) == Ok(Put(t, p, Forget(src, dst)))
    decreases dst, 2
  {
    var n := Min(|src.elems|, |dst.elems|);
    ElementsApply(path, p, t, src, dst, n);
    var s := Mixed(src, dst, n);
    GetPut(t, p, Arr(s));
    var first, second, third := Elements(path, n, src, dst), Appends(path, |src.elems|, |dst.elems|, dst),
                                Truncations(path, |dst.elems|, |src.elems|);
    ApplyConcat(t, first, second);
    ApplyConcat(t, first + second, third);
    MixedEnd(src, dst);
    if |src.elems| <= |dst.elems| {
      var full := s + dst.elems[|s|..|dst.elems|];
      assert full[..|s|] == s && full[..|full|] == full;
      AppendsApply(path, p, t, Put(t, p, Arr(s)), full, |s|, |full|, dst);
    } else {
      TruncationsApply(path, p, t, s, |dst.elems|, |s|);
      assert s[..|s|] == s;
    }
  }

  lemma {:induction false} MixedEnd(src: Json, dst: Json)
    requires src.Arr? && dst.Arr? && src != dst
    ensures |src.elems| <= |dst.elems| ==>
      Arr(Mixed(src, dst, |src.elems|) + dst.elems[|src.elems|..|dst.elems|]) == Forget(src, dst)
    ensures |src.elems| >= |dst.elems| ==> Arr(Mixed(src, dst, |dst.elems|)[..|dst.elems|]) == Forget(src, dst)
  {
    if |src.elems| <= |dst.elems| {
      assert Mixed(src, dst, |src.elems|) + dst.elems[|src.elems|..|dst.elems|] == Forget(src, dst).elems;
    }
    if |src.elems| >= |dst.elems| {
      assert Mixed(src, dst, |dst.elems|)[..|dst.elems|] == Forget(src, dst).elems;
    }
  }

  /** At any path: the diff of two non-null values turns the source found there into the target, less forgotten
   nulls. */
  lemma {:induction false} Patch(path: string, p: seq<string>, t: Json, src: Json, dst: Json)
    requires Parse(path) == Tokens(p) && Get(t, p) == Ok(src) && Patchable(src, dst)
    requires src != Null && dst != Null
    ensures ApplyAll(t, Diff(path, src, dst)) == Ok(Put(t, p, Forget(src, dst)))
    decreases dst, 3
  {
    if src == dst {
      GetPut(t, p, Null);
    } else if src.Obj? && dst.Obj? {
      PatchObj(path, p, t, src, dst);
    } else if src.Arr? && dst.Arr? {
      PatchArr(path, p, t, src, dst);
    } else {
      ReplaceAt(t, path, p, dst);
      One(t, MkReplace(path, dst));
    }
  }
}
