/**
 What each patch operation does to the document, told by reading paths before and after, and exactly when it fails.
 */
module JsonOps {
  import opened Decimal
  import opened JsonPointer
  import opened JsonPatch
  import opened JsonRoundTrip
  import opened JsonEdits

  // ---- Places that have nothing to do with each other ----

  /**
   In `v`, the paths `p` and `q` part at some point: in an object by name, in an array by position. `p` must exist
   up to there.
   */
  ghost predicate Apart(v: Json, p: seq<string>, q: seq<string>)
    decreases |p|
  {
    && p != [] && q != []
    && match v
       case Obj(m) => p[0] != q[0] || (p[0] in m && Apart(m[p[0]], p[1..], q[1..]))
       case Arr(s) => HasChild(v, p[0]) && (Atoi(p[0]) != Atoi(q[0]) || Apart(Child(v, p[0]), p[1..], q[1..]))
       case _ => false
  }

  lemma {:induction false} PutApart(v: Json, p: seq<string>, q: seq<string>, c: Json)
    requires Get(v, p).Ok? && Apart(v, p, q)
    ensures Get(Put(v, p, c), q) == Get(v, q)
    decreases |p|
  {
    if v.Obj? && p[0] == q[0] {
      PutApart(v.fields[p[0]], p[1..], q[1..], c);
    } else if v.Arr? && Atoi(p[0]) == Atoi(q[0]) {
      PutApart(Child(v, p[0]), p[1..], q[1..], c);
    }
  }

  /** The two objects agree on every member but `k`. */
  ghost predicate SameOff<K(!new), V>(m: map<K, V>, n: map<K, V>, k: K) {
    forall j :: j != k ==> SameAt(m, n, j)
  }

  lemma {:induction false} ApartPrefix(v: Json, up: seq<string>, last: string, q: seq<string>)
    requires up != []
    ensures (up + [last])[0] == up[0] && (up + [last])[1..] == up[1..] + [last]
  {
  }

  /** Changing member `last` of the object at `up` leaves alone every path apart from it. */
  lemma {:induction false} MemberApart(
      v: Json, up: seq<string>, m: map<string, Json>, n: map<string, Json>, last: string, q: seq<string>)
    requires Get(v, up) == Ok(Obj(m)) && SameOff(m, n, last) && Apart(v, up + [last], q)
    ensures Get(Put(v, up, Obj(n)), q) == Get(v, q)
    decreases |up|
  {
    if up == [] {
      assert (up + [last])[1..] == [];
      assert q[0] != last && SameAt(m, n, q[0]);
    } else {
      ApartPrefix(v, up, last, q);
      var c := Child(v, up[0]);
      if v.Obj? && up[0] == q[0] {
        MemberApart(c, up[1..], m, n, last, q[1..]);
      } else if v.Arr? && Atoi(up[0]) == Atoi(q[0]) {
        MemberApart(c, up[1..], m, n, last, q[1..]);
      }
    }
  }

  lemma {:induction false} ReadMember(v: Json, up: seq<string>, n: map<string, Json>, last: string)
    requires Get(v, up).Ok?
    ensures Get(Put(v, up, Obj(n)), up + [last]) == if last in n then Ok(n[last]) else Err(PathNotFound)
  {
    GetPut(v, up, Obj(n));
    GetConcat(Put(v, up, Obj(n)), up, [last]);
    assert [last][1..] == [];
  }

  // ---- Adding and removing members ----

  /** The path leads to a member, present or not, of an object. */
  ghost predicate InObject(t: Json, p: seq<string>) {
    p != [] && Get(t, p[..|p| - 1]).Ok? && Get(t, p[..|p| - 1]).value.Obj?
  }

  lemma {:induction false} SplitPath(p: seq<string>)
    requires p != []
    ensures p == p[..|p| - 1] + [p[|p| - 1]]
  {
  }

  lemma {:induction false} AddLaw(t: Json, p: seq<string>, v: Json)
    requires InObject(t, p)
    ensures AddValue(t, p, v).Ok? && Get(AddValue(t, p, v).value, p) == Ok(v)
    ensures forall q :: Apart(t, p, q) ==> Get(AddValue(t, p, v).value, q) == Get(t, q)
  {
    var up, last := p[..|p| - 1], p[|p| - 1];
    var m := Get(t, up).value.fields;
    SplitPath(p);
    NotNull(t, up);
    AddToObj(t, up, m, last, v);
    ReadMember(t, up, m[last := v], last);
    forall q | Apart(t, p, q) ensures Get(AddValue(t, p, v).value, q) == Get(t, q) {
      MemberApart(t, up, m, m[last := v], last, q);
    }
  }

  lemma {:induction false} RemoveLaw(t: Json, p: seq<string>)
    requires InObject(t, p)
    ensures RemoveValue(t, p).Ok? <==> Get(t, p).Ok?
    ensures RemoveValue(t, p).Ok? ==> Get(RemoveValue(t, p).value, p).Err?
    ensures RemoveValue(t, p).Ok? ==> forall q :: Apart(t, p, q) ==> Get(RemoveValue(t, p).value, q) == Get(t, q)
    ensures RemoveValue(t, p).Err? ==> RemoveValue(t, p).error == PathNotFound
  {
    var up, last := p[..|p| - 1], p[|p| - 1];
    var m := Get(t, up).value.fields;
    SplitPath(p);
    GetConcat(t, up, [last]);
    assert [last][1..] == [];
    RemoveIs(t, up, last);
    if last in m {
      ReadMember(t, up, m - {last}, last);
      forall q | Apart(t, p, q) ensures Get(RemoveValue(t, p).value, q) == Get(t, q) {
        MemberApart(t, up, m, m - {last}, last, q);
      }
    }
  }

  // ---- Copying and moving ----

  /** Copying is adding what `from` reads, and moving is removing it first; both fail if `from` reads nothing. */
  lemma {:induction false} Composes(t: Json, path: string, from: string, x: Json, f: seq<string>)
    requires Parse(path).Tokens? && Parse(from) == Tokens(f)
    ensures Get(t, f).Err? ==> ApplyOp(t, Op(Copy, path, from, x)).Err? && ApplyOp(t, Op(Move, path, from, x)).Err?
    ensures Get(t, f).Ok? ==> ApplyOp(t, Op(Copy, path, from, x)) == ApplyOp(t, Op(Add, path, "", Get(t, f).value))
    ensures Get(t, f).Ok? ==>
      ApplyOp(t, Op(Move, path, from, x)) ==
      ApplyAll(t, [Op(Remove, from, "", Null), Op(Add, path, "", Get(t, f).value)])
  {
    if Get(t, f).Ok? {
      var cut, add := Op(Remove, from, "", Null), Op(Add, path, "", Get(t, f).value);
      One(t, cut);
      ApplySnoc(t, [cut], add);
      assert [cut] + [add] == [cut, add];
    }
  }

  /** Copying puts what `from` reads at the path; `from` and everything else apart from the path read as before. */
  lemma {:induction false} CopyLaw(t: Json, path: string, from: string, x: Json, p: seq<string>, f: seq<string>)
    requires Parse(path) == Tokens(p) && Parse(from) == Tokens(f) && InObject(t, p)
    ensures var r := ApplyOp(t, Op(Copy, path, from, x));
      && (r.Ok? <==> Get(t, f).Ok?)
      && (r.Ok? ==> Get(r.value, p) == Get(t, f))
      && (r.Ok? ==> forall q :: Apart(t, p, q) ==> Get(r.value, q) == Get(t, q))
  {
    Composes(t, path, from, x, f);
    if Get(t, f).Ok? {
      AddOpLaw(t, path, "", Get(t, f).value, p);
    }
  }

  /** After a member is removed, paths apart from it lead to the same kind of place. */
  lemma {:induction false} PlaceKept(v: Json, up: seq<string>, m: map<string, Json>, last: string, p: seq<string>)
    requires Get(v, up) == Ok(Obj(m)) && Apart(v, up + [last], p) && InObject(v, p)
    ensures InObject(Put(v, up, Obj(m - {last})), p)
    decreases |up|
  {
    var w, q := Put(v, up, Obj(m - {last})), p[..|p| - 1];
    if up == [] {
      assert (up + [last])[1..] == [];
      if q != [] {
        assert q[0] == p[0] != last;
      }
    } else {
      ApartPrefix(v, up, last, p);
      if q != [] {
        var same := if v.Obj? then up[0] == p[0] else Atoi(up[0]) == Atoi(p[0]);
        if same {
          assert p[1..][..|p[1..]| - 1] == q[1..];
          PlaceKept(Child(v, up[0]), up[1..], m, last, p[1..]);
        }
      }
    }
  }

  lemma {:induction false} ApartKept(
      v: Json, up: seq<string>, m: map<string, Json>, last: string, p: seq<string>, q: seq<string>)
    requires Get(v, up) == Ok(Obj(m)) && Apart(v, up + [last], p) && Apart(v, p, q)
    ensures Apart(Put(v, up, Obj(m - {last})), p, q)
    decreases |up|
  {
    if up == [] {
      assert (up + [last])[1..] == [];
    } else {
      ApartPrefix(v, up, last, p);
      var same := if v.Obj? then up[0] == p[0] else Atoi(up[0]) == Atoi(p[0]);
      var on := if v.Obj? then p[0] == q[0] else Atoi(p[0]) == Atoi(q[0]);
      if same && on {
        ApartKept(Child(v, up[0]), up[1..], m, last, p[1..], q[1..]);
      }
    }
  }

  lemma {:induction false} ApartSwap(v: Json, p: seq<string>, q: seq<string>)
    requires Apart(v, p, q) && InObject(v, q)
    ensures Apart(v, q, p)
    decreases |p|
  {
    assert |q| > 1 ==> q[1..][..|q[1..]| - 1] == q[..|q| - 1][1..];
    if v.Obj? && p[0] == q[0] {
      ApartSwap(v.fields[p[0]], p[1..], q[1..]);
    } else if v.Arr? {
      assert |q| > 1 && HasChild(v, q[0]);
      if Atoi(p[0]) == Atoi(q[0]) {
        ApartSwap(Child(v, p[0]), p[1..], q[1..]);
      }
    }
  }

  lemma {:induction false} MoveIs(t: Json, path: string, from: string, x: Json, p: seq<string>, f: seq<string>)
    requires Parse(path) == Tokens(p) && Parse(from) == Tokens(f) && (RemoveValue(t, f).Ok? <==> Get(t, f).Ok?)
    ensures var r := ApplyOp(t, Op(Move, path, from, x));
      if Get(t, f).Ok? then r == AddValue(RemoveValue(t, f).value, p, Get(t, f).value) else r.Err?
  {
  }

  /**
   Moving between members of objects apart from each other: the path reads what `from` read, `from` is no longer
   found, and whatever is apart from both reads as before.
   */
  lemma {:induction false} MoveLaw(t: Json, path: string, from: string, x: Json, p: seq<string>, f: seq<string>)
    requires Parse(path) == Tokens(p) && Parse(from) == Tokens(f)
    requires InObject(t, p) && InObject(t, f) && Apart(t, f, p)
    ensures var r := ApplyOp(t, Op(Move, path, from, x));
      && (r.Ok? <==> Get(t, f).Ok?)
      && (r.Ok? ==> Get(r.value, p) == Get(t, f) && Get(r.value, f).Err?)
      && (r.Ok? ==> forall q :: Apart(t, p, q) && Apart(t, f, q) ==> Get(r.value, q) == Get(t, q))
  {
    RemoveLaw(t, f);
    MoveIs(t, path, from, x, p, f);
    if Get(t, f).Ok? {
      MoveParts(t, p, f, Get(t, f).value);
    }
  }

  lemma {:induction false} MoveParts(t: Json, p: seq<string>, f: seq<string>, v: Json)
    requires InObject(t, p) && InObject(t, f) && Apart(t, f, p) && Get(t, f) == Ok(v)
    ensures RemoveValue(t, f).Ok?
    ensures var r := AddValue(RemoveValue(t, f).value, p, v);
      && r.Ok? && Get(r.value, p) == Ok(v) && Get(r.value, f).Err?
      && forall q :: Apart(t, p, q) && Apart(t, f, q) ==> Get(r.value, q) == Get(t, q)
  {
    var up, last := f[..|f| - 1], f[|f| - 1];
    var m := Get(t, up).value.fields;
    SplitPath(f);
    RemoveLaw(t, f);
    RemoveIs(t, up, last);
    var cut := RemoveValue(t, f).value;
    PlaceKept(t, up, m, last, p);
    AddLaw(cut, p, v);
    ApartSwap(t, f, p);
    ApartKept(t, up, m, last, p, f);
    forall q | Apart(t, p, q) && Apart(t, f, q) ensures Get(AddValue(cut, p, v).value, q) == Get(t, q) {
      ApartKept(t, up, m, last, p, q);
    }
  }

  // ---- Moving up and moving into itself ----

  lemma {:induction false} ApartOne(m: map<string, Json>, k: string, q: seq<string>)
    ensures Apart(Obj(m), [k], q) <==> q != [] && q[0] != k
  {
    if q != [] && k in m {
      assert !Apart(m[k], [k][1..], q[1..]);
    }
  }

  /** A path at or above a removed member keeps its place, and what is apart from it stays apart. */
  lemma {:induction false} AboveKept(
      v: Json, up: seq<string>, m: map<string, Json>, last: string, p: seq<string>, q: seq<string>)
    requires Get(v, up) == Ok(Obj(m)) && p <= up + [last] && InObject(v, p)
    ensures InObject(Put(v, up, Obj(m - {last})), p)
    ensures Apart(v, p, q) ==> Apart(Put(v, up, Obj(m - {last})), p, q) && Apart(v, up + [last], q)
    decreases |up|
  {
    var w := Put(v, up, Obj(m - {last}));
    if up == [] {
      assert p == [last] && up + [last] == [last] && p[..0] == [];
      ApartOne(m, last, q);
      ApartOne(m - {last}, last, q);
    } else {
      ApartPrefix(v, up, last, p);
      assert p[0] == (up + [last])[0];
      if |p| == 1 {
        assert p[..0] == [] && p == [up[0]];
        ApartOne(v.fields, up[0], q);
        ApartOne(w.fields, up[0], q);
        if q != [] && q[0] != up[0] {
          assert Apart(v, up + [last], q);
        }
      } else {
        var c := Child(v, up[0]);
        assert p[..|p| - 1][0] == up[0] && p[..|p| - 1][1..] == p[1..][..|p[1..]| - 1];
        AboveKept(c, up[1..], m, last, p[1..], if q == [] then [] else q[1..]);
      }
    }
  }

  lemma {:induction false} NothingBelow(v: Json, f: seq<string>, r: seq<string>)
    requires Get(v, f).Err?
    ensures Get(v, f + r) == Err(PathNotFound)
  {
    assert (f + r)[0] == f[0] && (f + r)[1..] == f[1..] + r;
    if HasChild(v, f[0]) {
      NothingBelow(Child(v, f[0]), f[1..], r);
    }
  }

  /** A value can be moved up, over an object that holds it, or onto itself. */
  lemma {:induction false} MoveUpLaw(t: Json, path: string, from: string, x: Json, p: seq<string>, f: seq<string>)
    requires Parse(path) == Tokens(p) && Parse(from) == Tokens(f)
    requires InObject(t, p) && InObject(t, f) && p <= f
    ensures var r := ApplyOp(t, Op(Move, path, from, x));
      && (r.Ok? <==> Get(t, f).Ok?)
      && (r.Ok? ==> Get(r.value, p) == Get(t, f))
      && (r.Ok? ==> forall q :: Apart(t, p, q) ==> Get(r.value, q) == Get(t, q))
  {
    RemoveLaw(t, f);
    MoveIs(t, path, from, x, p, f);
    if Get(t, f).Ok? {
      MoveUpParts(t, p, f, Get(t, f).value);
    }
  }

  lemma {:induction false} MoveUpParts(t: Json, p: seq<string>, f: seq<string>, v: Json)
    requires InObject(t, p) && InObject(t, f) && p <= f && Get(t, f) == Ok(v)
    ensures RemoveValue(t, f).Ok?
    ensures var r := AddValue(RemoveValue(t, f).value, p, v);
      r.Ok? && Get(r.value, p) == Ok(v) && forall q :: Apart(t, p, q) ==> Get(r.value, q) == Get(t, q)
  {
    var up, last := f[..|f| - 1], f[|f| - 1];
    var m := Get(t, up).value.fields;
    SplitPath(f);
    RemoveLaw(t, f);
    RemoveIs(t, up, last);
    AboveKept(t, up, m, last, p, []);
    var cut := RemoveValue(t, f).value;
    AddLaw(cut, p, v);
    forall q | Apart(t, p, q) ensures Get(AddValue(cut, p, v).value, q) == Get(t, q) {
      AboveKept(t, up, m, last, p, q);
    }
  }

  /** Moving a value to a place inside itself fails. */
  lemma {:induction false} MoveIntoItself(t: Json, path: string, from: string, x: Json, p: seq<string>, f: seq<string>)
    requires Parse(path) == Tokens(p) && Parse(from) == Tokens(f) && InObject(t, f) && f < p
    ensures ApplyOp(t, Op(Move, path, from, x)) == Err(PathNotFound)
  {
    RemoveLaw(t, f);
    MoveIs(t, path, from, x, p, f);
    NotFoundOnly(t, f);
    if Get(t, f).Ok? {
      CutLeavesNothing(t, f);
      AddBelow(RemoveValue(t, f).value, p, f, Get(t, f).value);
    }
  }

  lemma {:induction false} CutLeavesNothing(t: Json, f: seq<string>)
    requires InObject(t, f) && Get(t, f).Ok?
    ensures RemoveValue(t, f).Ok? && RemoveValue(t, f).value != Null && Get(RemoveValue(t, f).value, f).Err?
  {
    var up, last := f[..|f| - 1], f[|f| - 1];
    SplitPath(f);
    RemoveLaw(t, f);
    RemoveIs(t, up, last);
    PutNotNull(t, up, Obj(Get(t, up).value.fields - {last}));
  }

  lemma {:induction false} AddBelow(t: Json, p: seq<string>, f: seq<string>, v: Json)
    requires t != Null && Get(t, f).Err? && f < p
    ensures AddValue(t, p, v) == Err(PathNotFound)
  {
    var above := p[..|p| - 1];
    assert above == f + above[|f|..];
    NothingBelow(t, f, above[|f|..]);
  }

  // ---- Testing, adding, removing, replacing ----

  lemma {:induction false} NotFoundOnly(v: Json, p: seq<string>)
    ensures Get(v, p).Err? ==> Get(v, p).error == PathNotFound
  {
    if p != [] && HasChild(v, p[0]) {
      NotFoundOnly(Child(v, p[0]), p[1..]);
    }
  }

  /** A test succeeds exactly if the path reads the given value, and never changes the document. */
  lemma {:induction false} TestLaw(t: Json, path: string, from: string, x: Json, p: seq<string>)
    requires Parse(path) == Tokens(p)
    ensures var r := ApplyOp(t, Op(Test, path, from, x));
      && (r.Ok? <==> Get(t, p) == Ok(x)) && (r.Ok? ==> r.value == t)
      && (r.Err? ==> r.error == if Get(t, p).Ok? then TestFailed else PathNotFound)
  {
    NotFoundOnly(t, p);
  }

  lemma {:induction false} AddOpLaw(t: Json, path: string, from: string, x: Json, p: seq<string>)
    requires Parse(path) == Tokens(p) && InObject(t, p)
    ensures var r := ApplyOp(t, Op(Add, path, from, x));
      && r.Ok? && Get(r.value, p) == Ok(x) && forall q :: Apart(t, p, q) ==> Get(r.value, q) == Get(t, q)
  {
    AddLaw(t, p, x);
  }

  lemma {:induction false} RemoveOpLaw(t: Json, path: string, from: string, x: Json, p: seq<string>)
    requires Parse(path) == Tokens(p) && InObject(t, p)
    ensures var r := ApplyOp(t, Op(Remove, path, from, x));
      && (r.Ok? <==> Get(t, p).Ok?) && (r.Ok? ==> Get(r.value, p).Err?)
      && (r.Ok? ==> forall q :: Apart(t, p, q) ==> Get(r.value, q) == Get(t, q))
  {
    RemoveLaw(t, p);
  }

  /** What can be read can be removed, and nothing else. */
  lemma {:induction false} RemoveFinds(t: Json, p: seq<string>)
    requires p != []
    ensures RemoveValue(t, p).Ok? <==> Get(t, p).Ok?
  {
    var up, last := p[..|p| - 1], p[|p| - 1];
    SplitPath(p);
    RemoveIs(t, up, last);
    if Get(t, up).Ok? {
      GetConcat(t, up, [last]);
      assert [last][1..] == [];
    } else if Get(t, p).Ok? {
      ParentOf(t, up, last);
    }
  }

  /** Replacing succeeds exactly where something can be read; it reads the new value there and the rest as before. */
  lemma {:induction false} ReplaceLaw(t: Json, path: string, from: string, x: Json, p: seq<string>)
    requires Parse(path) == Tokens(p)
    ensures var r := ApplyOp(t, Op(Replace, path, from, x));
      && (r.Ok? <==> Get(t, p).Ok?) && (r.Ok? ==> Get(r.value, p) == Ok(x))
      && (r.Ok? ==> forall q :: Apart(t, p, q) ==> Get(r.value, q) == Get(t, q))
  {
    if Get(t, p).Ok? {
      ReplaceValue(t, p, x);
      GetPut(t, p, x);
      forall q | Apart(t, p, q) ensures Get(Put(t, p, x), q) == Get(t, q) {
        PutApart(t, p, q, x);
      }
    } else {
      RemoveFinds(t, p);
    }
  }

  /** Adding below an array inserts at a position up to its length, or appends at the dash; nothing else is allowed. */
  lemma {:induction false} AddToArrayLaw(t: Json, up: seq<string>, last: string, v: Json, s: seq<Json>)
    requires Get(t, up) == Ok(Arr(s))
    ensures var r := AddValue(t, up + [last], v);
      && (last == "-" ==> r.Ok? && Get(r.value, up) == Ok(Arr(s + [v])))
      && (Atoi(last).Index? && 0 <= Atoi(last).i <= |s| ==>
        r.Ok? && Get(r.value, up) == Ok(Arr(s[..Atoi(last).i] + [v] + s[Atoi(last).i..])))
      && (last != "-" && !(Atoi(last).Index? && 0 <= Atoi(last).i <= |s|) ==> r == Err(PatchFailed))
      && (r.Ok? ==> forall q :: Apart(t, up, q) ==> Get(r.value, q) == Get(t, q))
  {
    NotNull(t, up);
    AddIs(t, up, last, v);
    var r := AddTo(Arr(s), last, v);
    if r.Ok? {
      GetPut(t, up, r.value);
      forall q | Apart(t, up, q) ensures Get(Put(t, up, r.value), q) == Get(t, q) { PutApart(t, up, q, r.value); }
    }
  }

  lemma {:induction false} RemoveFromArrayLaw(t: Json, up: seq<string>, last: string, s: seq<Json>)
    requires Get(t, up) == Ok(Arr(s))
    ensures var r := RemoveValue(t, up + [last]);
      && (Atoi(last).Index? && 0 <= Atoi(last).i < |s| ==>
        r.Ok? && Get(r.value, up) == Ok(Arr(s[..Atoi(last).i] + s[Atoi(last).i + 1..])))
      && (!(Atoi(last).Index? && 0 <= Atoi(last).i < |s|) ==> r == Err(PathNotFound))
      && (r.Ok? ==> forall q :: Apart(t, up, q) ==> Get(r.value, q) == Get(t, q))
  {
    RemoveIs(t, up, last);
    var r := RemoveFrom(Arr(s), last);
    if r.Ok? {
      GetPut(t, up, r.value);
      forall q | Apart(t, up, q) ensures Get(Put(t, up, r.value), q) == Get(t, q) { PutApart(t, up, q, r.value); }
    }
  }

  /** Where there is no container to edit: a missing parent is not found, any other value cannot be edited. */
  lemma {:induction false} NoContainer(t: Json, up: seq<string>, last: string, v: Json)
    requires t != Null && (Get(t, up).Ok? ==> !Get(t, up).value.Obj? && !Get(t, up).value.Arr?)
    ensures AddValue(t, up + [last], v) == Err(if Get(t, up).Ok? then PatchFailed else PathNotFound)
    ensures RemoveValue(t, up + [last]) == Err(if Get(t, up).Ok? then PatchFailed else PathNotFound)
  {
    NotFoundOnly(t, up);
    AddIs(t, up, last, v);
    RemoveIs(t, up, last);
  }

  /** The whole document: adding or replacing sets it, removing leaves null, and a null document takes members. */
  lemma {:induction false} RootLaws(t: Json, from: string, x: Json, k: string)
    ensures ApplyOp(t, Op(Add, "", from, x)) == Ok(x) && ApplyOp(t, Op(Replace, "", from, x)) == Ok(x)
    ensures ApplyOp(t, Op(Remove, "", from, x)) == Ok(Null)
    ensures AddValue(Null, [k], x) == Ok(Obj(map[k := x]))
  {
    assert [k][..0] == [];
  }

  /** Pointers without a leading slash are refused, for the path always and for `from` where it is used. */
  lemma {:induction false} PointerLaw(t: Json, op: Op)
    ensures Parse(op.path).InvalidPointer? <==> op.path != "" && op.path[0] != '/'
    ensures Parse(op.path).InvalidPointer? ==> ApplyOp(t, op) == Err(BadPointer)
    ensures Parse(op.from).InvalidPointer? && (op.kind.Move? || op.kind.Copy?) ==> ApplyOp(t, op) == Err(BadPointer)
  {
  }
}
