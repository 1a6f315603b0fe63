/**
 The laws of diff and apply: the exact result, when it is the target, and the families where it is not.
 */
module JsonLaws {
  import opened Decimal
  import opened JsonPointer
  import opened JsonPatch
  import opened JsonDiff
  import opened JsonRoundTrip
  import opened JsonKeys

  /** At any path: the diff turns the source there into the target, less forgotten nulls, iff all keys are plain. */
  lemma {:induction false} PatchIff(path: string, p: seq<string>, t: Json, src: Json, dst: Json)
    requires Parse(path) == Tokens(p) && Get(t, p) == Ok(src) && NullsInPlace(src, dst)
    requires src != Null && dst != Null
    ensures ApplyAll(t, Diff(path, src, dst)) == Ok(Put(t, p, Forget(src, dst))) <==> PlainDiffs(src, dst)
  {
    PatchableIff(src, dst);
    if PlainDiffs(src, dst) {
      Patch(path, p, t, src, dst);
    } else {
      Fails(path, p, t, src, dst, Forget(src, dst));
      GetPut(t, p, Forget(src, dst));
    }
  }

  /** Applying the diff to its source yields the target, less forgotten nulls, if and only if all keys are plain. */
  lemma {:induction false} DiffThenApply(src: Json, dst: Json)
    requires NullsInPlace(src, dst)
    ensures ApplyAll(src, Diff("", src, dst)) == Ok(Forget(src, dst)) <==> PlainDiffs(src, dst)
  {
    if src == dst {
    } else if src == Null {
      One(src, MkAdd("", dst));
    } else if dst == Null {
      One(src, MkRemove(""));
    } else {
      PatchIff("", [], src, src, dst);
    }
  }

  /** No compared member goes from a value to null. */
  ghost predicate KeepsNulls(src: Json, dst: Json)
    decreases dst
  {
    if src == dst || src == Null || dst == Null then true
    else if src.Obj? && dst.Obj? then
      forall k :: k in dst.fields ==>
        Kept(src, dst, k) && (k in src.fields ==> KeepsNulls(src.fields[k], dst.fields[k]))
    else if src.Arr? && dst.Arr? then
      forall i :: 0 <= i < |src.elems| && i < |dst.elems| ==> KeepsNulls(src.elems[i], dst.elems[i])
    else true
  }

  lemma {:induction false} ForgetsNothing(src: Json, dst: Json)
    ensures Forget(src, dst) == dst <==> KeepsNulls(src, dst)
    decreases dst
  {
    if src == dst || src == Null || dst == Null {
    } else if src.Obj? && dst.Obj? {
      ForgetsNoMember(src, dst);
    } else if src.Arr? && dst.Arr? {
      forall i | 0 <= i < |src.elems| && i < |dst.elems|
        ensures ForgetElem(src, dst, i) == dst.elems[i] <==> KeepsNulls(src.elems[i], dst.elems[i])
      {
        ForgetsNothing(src.elems[i], dst.elems[i]);
      }
      var f := Forget(src, dst).elems;
      assert forall i :: 0 <= i < |f| ==> f[i] == ForgetElem(src, dst, i);
      if KeepsNulls(src, dst) {
        assert f == dst.elems;
      }
    }
  }

  lemma {:induction false} ForgetsNoMember(src: Json, dst: Json)
    requires src.Obj? && dst.Obj? && src != dst
    ensures Forget(src, dst) == dst <==> KeepsNulls(src, dst)
    decreases dst, 0
  {
    var f := Forget(src, dst).fields;
    forall k | k in dst.fields
      ensures k in f <==> Kept(src, dst, k)
      ensures k in f ==> f[k] == ForgetMember(src, dst, k)
      ensures k in src.fields ==> (ForgetMember(src, dst, k) == dst.fields[k]
        <==> KeepsNulls(src.fields[k], dst.fields[k]))
    {
      if k in src.fields {
        ForgetsNothing(src.fields[k], dst.fields[k]);
      }
    }
    if KeepsNulls(src, dst) {
      assert f == dst.fields;
    } else {
      var k :| k in dst.fields && !(Kept(src, dst, k)
        && (k in src.fields ==> KeepsNulls(src.fields[k], dst.fields[k])));
      assert k !in f || f[k] != dst.fields[k];
    }
  }

  /** The round trip law, exactly: no compared member is set to null, and every differing key is plain. */
  lemma {:induction false} RoundTripIff(src: Json, dst: Json)
    requires NullsInPlace(src, dst)
    ensures ApplyAll(src, Diff("", src, dst)) == Ok(dst) <==> KeepsNulls(src, dst) && PlainDiffs(src, dst)
  {
    if PlainDiffs(src, dst) {
      DiffThenApply(src, dst);
      ForgetsNothing(src, dst);
    } else {
      Fails("", [], src, src, dst, dst);
    }
  }

  lemma {:induction false} NullMemberPlain(src: Json, dst: Json, k: string)
    requires src.Obj? && dst.Obj? && src != dst && k in dst.fields && dst.fields[k] == Null && PlainKey(k)
    requires src.fields.Keys == dst.fields.Keys
    requires forall j :: j in dst.fields && j != k ==> src.fields[j] == dst.fields[j]
    ensures NullsInPlace(src, dst) && PlainDiffs(src, dst)
  {
  }

  lemma {:induction false} NullMemberForgotten(src: Json, dst: Json, k: string)
    requires src.Obj? && dst.Obj? && src != dst && k in src.fields && src.fields[k] != Null
    requires src.fields.Keys == dst.fields.Keys && dst.fields[k] == Null
    requires forall j :: j in dst.fields && j != k ==> src.fields[j] == dst.fields[j]
    ensures Forget(src, dst) == Obj(src.fields - {k})
  {
    var f := Forget(src, dst).fields;
    assert f.Keys == (src.fields - {k}).Keys;
    forall j | j in f ensures f[j] == (src.fields - {k})[j] {
      assert f[j] == ForgetMember(src, dst, j);
      ForgetSame(src.fields[j]);
    }
    assert f == src.fields - {k};
  }

  /** Setting a member to null removes it instead. */
  lemma {:induction false} NullMemberLost(m: map<string, Json>, k: string)
    requires k in m && m[k] != Null && PlainKey(k)
    ensures ApplyAll(Obj(m), Diff("", Obj(m), Obj(m[k := Null]))) == Ok(Obj(m - {k}))
  {
    var src, dst := Obj(m), Obj(m[k := Null]);
    assert dst.fields[k] != src.fields[k];
    NullMemberPlain(src, dst, k);
    DiffThenApply(src, dst);
    NullMemberForgotten(src, dst, k);
  }

  // ---- A condition on each value alone ----

  /** No nulls anywhere inside, and no slash or tilde in any key. */
  ghost predicate Clean(v: Json) {
    match v
    case Obj(m) => forall k :: k in m ==> SimpleKey(k) && m[k] != Null && Clean(m[k])
    case Arr(s) => forall i :: 0 <= i < |s| ==> s[i] != Null && Clean(s[i])
    case _ => true
  }

  ghost predicate SimpleKey(k: string) {
    forall i :: 0 <= i < |k| ==> k[i] != '/' && k[i] != '~'
  }

  lemma {:induction false} CleanIsPlain(src: Json, dst: Json)
    requires Clean(src) && Clean(dst)
    ensures NullsInPlace(src, dst) && PlainDiffs(src, dst) && KeepsNulls(src, dst)
    decreases dst
  {
    if src == dst || src == Null || dst == Null {
    } else if src.Obj? && dst.Obj? {
      forall k | k in src.fields || k in dst.fields ensures PlainKey(k) {
        PlainIfNoSpecials(k);
      }
      forall k | k in src.fields && k in dst.fields
        ensures NullsInPlace(src.fields[k], dst.fields[k]) && PlainDiffs(src.fields[k], dst.fields[k])
        ensures KeepsNulls(src.fields[k], dst.fields[k])
      {
        CleanIsPlain(src.fields[k], dst.fields[k]);
      }
    } else if src.Arr? && dst.Arr? {
      forall i | 0 <= i < |src.elems| && i < |dst.elems|
        ensures NullsInPlace(src.elems[i], dst.elems[i]) && PlainDiffs(src.elems[i], dst.elems[i])
        ensures KeepsNulls(src.elems[i], dst.elems[i])
      {
        CleanIsPlain(src.elems[i], dst.elems[i]);
      }
    }
  }

  /** Round trip for all values without inner nulls and without slash or tilde in keys; the root may be null. */
  lemma {:induction false} RoundTrip(src: Json, dst: Json)
    requires Clean(src) && Clean(dst)
    ensures ApplyAll(src, Diff("", src, dst)) == Ok(dst)
  {
    CleanIsPlain(src, dst);
    RoundTripIff(src, dst);
  }

  // ---- One member ----

  /** The conditions for two objects that differ in member `k` alone. */
  lemma {:induction false} OneMember(src: Json, dst: Json, k: string)
    requires src.Obj? && dst.Obj? && (k in src.fields || k in dst.fields) && !SameMember(src, dst, k)
    requires forall j :: (j in src.fields || j in dst.fields) && j != k ==> SameMember(src, dst, j)
    ensures k in src.fields && k in dst.fields ==>
      && (NullsInPlace(src, dst) <==> NullsInPlace(src.fields[k], dst.fields[k]))
      && (PlainDiffs(src, dst) <==> PlainKey(k) && PlainDiffs(src.fields[k], dst.fields[k]))
      && (KeepsNulls(src, dst) <==> Kept(src, dst, k) && KeepsNulls(src.fields[k], dst.fields[k]))
    ensures k !in src.fields || k !in dst.fields ==>
      NullsInPlace(src, dst) && KeepsNulls(src, dst) && (PlainDiffs(src, dst) <==> PlainKey(k))
  {
    assert src != dst;
  }

  /** Adding a member round-trips if and only if its key is plain. */
  lemma {:induction false} AddedMemberIff(m: map<string, Json>, k: string, v: Json)
    requires k !in m
    ensures ApplyAll(Obj(m), Diff("", Obj(m), Obj(m[k := v]))) == Ok(Obj(m[k := v])) <==> PlainKey(k)
  {
    OneMember(Obj(m), Obj(m[k := v]), k);
    RoundTripIff(Obj(m), Obj(m[k := v]));
  }

  /** So does removing one. */
  lemma {:induction false} RemovedMemberIff(m: map<string, Json>, k: string)
    requires k in m
    ensures ApplyAll(Obj(m), Diff("", Obj(m), Obj(m - {k}))) == Ok(Obj(m - {k})) <==> PlainKey(k)
  {
    OneMember(Obj(m), Obj(m - {k}), k);
    RoundTripIff(Obj(m), Obj(m - {k}));
  }

  /** Changing one round-trips if and only if its key is plain, it is not set to null, and its own change does. */
  lemma {:induction false} ChangedMemberIff(m: map<string, Json>, k: string, v: Json)
    requires k in m && m[k] != v && NullsInPlace(m[k], v)
    ensures ApplyAll(Obj(m), Diff("", Obj(m), Obj(m[k := v]))) == Ok(Obj(m[k := v])) <==>
      PlainKey(k) && v != Null && KeepsNulls(m[k], v) && PlainDiffs(m[k], v)
  {
    OneMember(Obj(m), Obj(m[k := v]), k);
    RoundTripIff(Obj(m), Obj(m[k := v]));
  }

  // ---- Empty patches ----

  lemma {:induction false} RemovalsEmpty(path: string, keys: seq<string>, dst: map<string, Json>, k: string)
    requires Removals(path, keys, dst) == [] && k in keys
    ensures k in dst
  {
    var n := |keys| - 1;
    if k != keys[n] {
      assert k in keys[..n];
      RemovalsEmpty(path, keys[..n], dst, k);
    }
  }

  lemma {:induction false} MembersEmpty(path: string, keys: seq<string>, src: Json, dst: Json, k: string)
    requires src.Obj? && dst.Obj? && (forall x :: x in keys ==> x in dst.fields)
    requires Members(path, keys, src, dst) == [] && k in keys
    ensures k in src.fields && Diff(path + "/" + k, src.fields[k], dst.fields[k]) == []
    decreases |keys|
  {
    var n := |keys| - 1;
    if k != keys[n] {
      assert k in keys[..n];
      MembersEmpty(path, keys[..n], src, dst, k);
    }
  }

  lemma {:induction false} ElementsEmpty(path: string, n: nat, src: Json, dst: Json, i: nat)
    requires src.Arr? && dst.Arr? && i < n <= |src.elems| && n <= |dst.elems|
    requires Elements(path, n, src, dst) == []
    ensures Diff(path + "/" + Itoa(i), src.elems[i], dst.elems[i]) == []
    decreases n
  {
    if i < n - 1 {
      ElementsEmpty(path, n - 1, src, dst, i);
    }
  }

  /** A diff is empty exactly if there is nothing to change. */
  lemma {:induction false} EmptyIff(path: string, src: Json, dst: Json)
    ensures Diff(path, src, dst) == [] <==> src == dst
    decreases dst
  {
    if src.Obj? && dst.Obj? && src != dst && Diff(path, src, dst) == [] {
      DiffObjs(path, src, dst);
      forall k | k in src.fields ensures k in dst.fields {
        RemovalsEmpty(path, SortedKeys(src.fields.Keys), dst.fields, k);
      }
      forall k | k in dst.fields ensures k in src.fields && src.fields[k] == dst.fields[k] {
        MembersEmpty(path, SortedKeys(dst.fields.Keys), src, dst, k);
        EmptyIff(path + "/" + k, src.fields[k], dst.fields[k]);
      }
    } else if src.Arr? && dst.Arr? && src != dst && Diff(path, src, dst) == [] {
      DiffArrs(path, src, dst);
      assert |src.elems| == |dst.elems|;
      forall i | 0 <= i < |dst.elems| ensures src.elems[i] == dst.elems[i] {
        ElementsEmpty(path, |dst.elems|, src, dst, i);
        EmptyIff(path + "/" + Itoa(i), src.elems[i], dst.elems[i]);
      }
    }
  }
}
