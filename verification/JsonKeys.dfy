/**
 Object keys go into paths unescaped. An operation made from a key that is not a plain token starts at a shorter
 name, so the longest differing key of that kind is never touched: applying the diff misses the target.
 */
module JsonKeys {
  import opened Decimal
  import opened JsonPointer
  import opened JsonPatch
  import opened JsonDiff
  import opened Sequences
  import opened JsonRoundTrip
  import opened JsonEdits

  // ---- Tokens of a path ----

  /** The name at which an operation made from key `k` starts. */
  function FirstToken(k: string): string {
    Unescape(Split(k)[0])
  }

  lemma {:induction false} ReplaceShrinks(s: string, pat: string, repl: string)
    requires |pat| == 2 && |repl| == 1
    ensures |ReplaceAll(s, pat, repl)| <= |s|
    ensures |ReplaceAll(s, pat, repl)| == |s| ==> ReplaceAll(s, pat, repl) == s
    decreases |s|
  {
    if |s| < |pat| {
    } else if s[..|pat|] == pat {
      ReplaceShrinks(s[|pat|..], pat, repl);
    } else {
      ReplaceShrinks(s[1..], pat, repl);
      assert s == [s[0]] + s[1..];
    }
  }

  lemma {:induction false} UnescapeShrinks(s: string)
    ensures |Unescape(s)| <= |s|
    ensures |Unescape(s)| == |s| ==> Unescape(s) == s
  {
    ReplaceShrinks(s, "~1", "/");
    ReplaceShrinks(ReplaceAll(s, "~1", "/"), "~0", "~");
  }

  lemma {:induction false} SplitShrinks(s: string)
    ensures |Split(s)[0]| <= |s|
    ensures |Split(s)[0]| == |s| ==> NoSlash(s)
  {
    if s != "" {
      SplitShrinks(s[1..]);
      if s[0] != '/' && NoSlash(s[1..]) {
        forall i | 0 <= i < |s| ensures s[i] != '/' {
          assert i > 0 ==> s[i] == s[1..][i - 1];
        }
      }
    }
  }

  lemma {:induction false} FirstTokenShorter(k: string)
    ensures PlainKey(k) ==> FirstToken(k) == k
    ensures !PlainKey(k) ==> |FirstToken(k)| < |k|
  {
    SplitShrinks(k);
    UnescapeShrinks(Split(k)[0]);
    if NoSlash(k) {
      SplitToken(k, "");
    }
  }

  /** `q` points at or below `path`. */
  ghost predicate Extends(q: string, path: string) {
    |path| <= |q| && q[..|path|] == path && (q == path || q[|path|] == '/')
  }

  lemma {:induction false} ExtendsUp(q: string, path: string, k: string)
    requires Extends(q, path + "/" + k)
    ensures Extends(q, path) && q != path
  {
    var longer := path + "/" + k;
    assert q[..|path|] == q[..|longer|][..|path|] == path;
    assert q[|path|] == q[..|longer|][|path|] == '/';
  }

  lemma {:induction false} SplitFirst(k: string, rest: string)
    requires rest == "" || rest[0] == '/'
    ensures Split(k + rest)[0] == Split(k)[0]
    ensures NoSlash(k) ==> (|Split(k + rest)| == 1 <==> rest == "")
  {
    if rest == "" {
      assert k + rest == k;
    } else {
      assert k + rest == k + "/" + rest[1..];
      SplitConcat(k, rest[1..]);
    }
    if NoSlash(k) {
      SplitToken(k, "");
    }
  }

  /** Where a path at or below member `k` leads. */
  lemma {:induction false} ParseUnder(path: string, p: seq<string>, k: string, q: string)
    requires Parse(path) == Tokens(p) && Extends(q, path + "/" + k)
    ensures Parse(q).Tokens? && |p| < |Parse(q).toks| && Parse(q).toks[..|p|] == p
    ensures Parse(q).toks[|p|] == FirstToken(k)
    ensures PlainKey(k) ==> (|Parse(q).toks| == |p| + 1 <==> q == path + "/" + k)
  {
    var longer := path + "/" + k;
    var rest := q[|longer|..];
    assert q == longer + rest == path + "/" + (k + rest);
    ParseJoin(path, p, k + rest);
    SplitFirst(k, rest);
  }

  // ---- Where the operations of a diff lie ----

  ghost predicate Under(path: string, op: Op) {
    Edits(op) && Extends(op.path, path)
  }

  ghost predicate SameKind(src: Json, dst: Json) {
    (src.Obj? && dst.Obj?) || (src.Arr? && dst.Arr?)
  }

  lemma {:induction false} DiffUnder(path: string, src: Json, dst: Json)
    ensures forall op :: op in Diff(path, src, dst) ==> Under(path, op)
    ensures src != Null && dst != Null ==>
      forall op :: op in Diff(path, src, dst) && op.path == path ==> op.kind.Replace?
    ensures SameKind(src, dst) ==> forall op :: op in Diff(path, src, dst) ==> op.path != path
    decreases dst, 2, 0
  {
    if src == dst || !SameKind(src, dst) {
      assert path[..|path|] == path;
    } else if src.Obj? {
      RemovalsUnder(path, SortedKeys(src.fields.Keys), dst.fields);
      MembersUnder(path, SortedKeys(dst.fields.Keys), src, dst);
    } else {
      ElementsUnder(path, Min(|src.elems|, |dst.elems|), src, dst);
      AppendsUnder(path, |src.elems|, |dst.elems|, dst);
      TruncationsUnder(path, |dst.elems|, |src.elems|);
    }
  }

  lemma {:induction false} OpUnder(path: string, k: string, op: Op)
    requires Under(path + "/" + k, op)
    ensures Under(path, op) && op.path != path
  {
    ExtendsUp(op.path, path, k);
  }

  lemma {:induction false} AtKey(path: string, k: string, op: Op)
    requires Edits(op) && op.path == path + "/" + k
    ensures Under(path + "/" + k, op)
  {
    assert op.path[..|op.path|] == op.path;
  }

  lemma {:induction false} RemovalsUnder(path: string, keys: seq<string>, dst: map<string, Json>)
    ensures forall op :: op in Removals(path, keys, dst) ==> Under(path, op) && op.path != path
  {
    if keys != [] {
      var k := keys[|keys| - 1];
      RemovalsUnder(path, keys[..|keys| - 1], dst);
      AtKey(path, k, MkRemove(path + "/" + k));
      OpUnder(path, k, MkRemove(path + "/" + k));
    }
  }

  lemma {:induction false} MemberUnder(path: string, src: Json, dst: Json, k: string)
    requires src.Obj? && dst.Obj? && k in dst.fields
    ensures forall op :: op in MemberOps(path, src, dst, k) ==> Under(path + "/" + k, op)
    decreases dst, 0
  {
    if k in src.fields {
      DiffUnder(path + "/" + k, src.fields[k], dst.fields[k]);
    } else {
      AtKey(path, k, MkAdd(path + "/" + k, dst.fields[k]));
    }
  }

  lemma {:induction false} MembersUnder(path: string, keys: seq<string>, src: Json, dst: Json)
    requires src.Obj? && dst.Obj? && forall k :: k in keys ==> k in dst.fields
    ensures forall op :: op in Members(path, keys, src, dst) ==> Under(path, op) && op.path != path
    decreases dst, 1, |keys|
  {
    if keys != [] {
      var rest, k := keys[..|keys| - 1], keys[|keys| - 1];
      MembersUnder(path, rest, src, dst);
      MemberUnder(path, src, dst, k);
      forall op | op in MemberOps(path, src, dst, k) ensures Under(path, op) && op.path != path {
        OpUnder(path, k, op);
      }
      assert Members(path, keys, src, dst) == Members(path, rest, src, dst) + MemberOps(path, src, dst, k);
    }
  }

  lemma {:induction false} ElementsUnder(path: string, n: nat, src: Json, dst: Json)
    requires src.Arr? && dst.Arr? && n <= |src.elems| && n <= |dst.elems|
    ensures forall op :: op in Elements(path, n, src, dst) ==> Under(path, op) && op.path != path
    decreases dst, 1, n
  {
    if n > 0 {
      var ops := Diff(path + "/" + Itoa(n - 1), src.elems[n - 1], dst.elems[n - 1]);
      ElementsUnder(path, n - 1, src, dst);
      DiffUnder(path + "/" + Itoa(n - 1), src.elems[n - 1], dst.elems[n - 1]);
      forall op | op in ops ensures Under(path, op) && op.path != path {
        OpUnder(path, Itoa(n - 1), op);
      }
      assert Elements(path, n, src, dst) == Elements(path, n - 1, src, dst) + ops;
    }
  }

  lemma {:induction false} AppendsUnder(path: string, lo: nat, hi: nat, dst: Json)
    requires dst.Arr? && hi <= |dst.elems|
    ensures forall op :: op in Appends(path, lo, hi, dst) ==> Under(path, op) && op.path != path
    decreases hi
  {
    if lo < hi {
      AppendsUnder(path, lo, hi - 1, dst);
      AtKey(path, Itoa(hi - 1), MkAdd(path + "/" + Itoa(hi - 1), dst.elems[hi - 1]));
      OpUnder(path, Itoa(hi - 1), MkAdd(path + "/" + Itoa(hi - 1), dst.elems[hi - 1]));
    }
  }

  lemma {:induction false} TruncationsUnder(path: string, lo: nat, hi: nat)
    ensures forall op :: op in Truncations(path, lo, hi) ==> Under(path, op) && op.path != path
    decreases hi
  {
    if lo < hi {
      TruncationsUnder(path, lo, hi - 1);
      AtKey(path, Itoa(hi - 1), MkRemove(path + "/" + Itoa(hi - 1)));
      OpUnder(path, Itoa(hi - 1), MkRemove(path + "/" + Itoa(hi - 1)));
    }
  }

  // ---- The condition ----

  /** At compared array positions, null stays null and other values stay other values. */
  ghost predicate NullsInPlace(src: Json, dst: Json)
    decreases dst
  {
    if src == dst || src == Null || dst == Null then true
    else if src.Obj? && dst.Obj? then
      forall k :: k in dst.fields && k in src.fields ==> NullsInPlace(src.fields[k], dst.fields[k])
    else if src.Arr? && dst.Arr? then
      forall i :: 0 <= i < |src.elems| && i < |dst.elems| ==>
        (src.elems[i] == Null <==> dst.elems[i] == Null) && NullsInPlace(src.elems[i], dst.elems[i])
    else true
  }

  /** Every member that is added, removed or changed, at any depth, has a key that is a plain token. */
  ghost predicate PlainDiffs(src: Json, dst: Json)
    decreases dst
  {
    if src == dst || src == Null || dst == Null then true
    else if src.Obj? && dst.Obj? then
      && (forall k :: k in src.fields || k in dst.fields ==> SameMember(src, dst, k) || PlainKey(k))
      && (forall k :: k in dst.fields && k in src.fields ==> PlainDiffs(src.fields[k], dst.fields[k]))
    else if src.Arr? && dst.Arr? then
      forall i :: 0 <= i < |src.elems| && i < |dst.elems| ==> PlainDiffs(src.elems[i], dst.elems[i])
    else true
  }

  lemma {:induction false} PatchableIff(src: Json, dst: Json)
    ensures Patchable(src, dst) <==> NullsInPlace(src, dst) && PlainDiffs(src, dst)
    decreases dst
  {
    if src == dst || src == Null || dst == Null {
    } else if src.Obj? && dst.Obj? {
      forall k | k in dst.fields && k in src.fields
        ensures Patchable(src.fields[k], dst.fields[k]) <==>
          NullsInPlace(src.fields[k], dst.fields[k]) && PlainDiffs(src.fields[k], dst.fields[k])
      {
        PatchableIff(src.fields[k], dst.fields[k]);
      }
    } else if src.Arr? && dst.Arr? {
      forall i | 0 <= i < |src.elems| && i < |dst.elems|
        ensures Patchable(src.elems[i], dst.elems[i]) <==>
          NullsInPlace(src.elems[i], dst.elems[i]) && PlainDiffs(src.elems[i], dst.elems[i])
      {
        PatchableIff(src.elems[i], dst.elems[i]);
      }
    }
  }

  /** A changed value is not what forgetting nulls leaves of the change. */
  lemma {:induction false} ForgetChanges(src: Json, dst: Json)
    requires src != dst
    ensures Forget(src, dst) != src
    decreases dst
  {
    if src == Null || dst == Null {
    } else if src.Obj? && dst.Obj? {
      var k :| (k in src.fields || k in dst.fields) && !SameMember(src, dst, k);
      ForgetMemberChanges(src, dst, k);
    } else if src.Arr? && dst.Arr? && |src.elems| == |dst.elems| {
      var i :| 0 <= i < |src.elems| && src.elems[i] != dst.elems[i];
      ForgetChanges(src.elems[i], dst.elems[i]);
      assert Forget(src, dst).elems[i] == ForgetElem(src, dst, i);
    }
  }

  lemma {:induction false} ForgetMemberChanges(src: Json, dst: Json, k: string)
    requires src.Obj? && dst.Obj? && (k in src.fields || k in dst.fields) && !SameMember(src, dst, k)
    ensures Forget(src, dst).Obj? && !SameAt(src.fields, Forget(src, dst).fields, k)
    decreases dst, 0
  {
    assert src != dst;
    var f := Forget(src, dst).fields;
    if k in src.fields && k in dst.fields {
      ForgetChanges(src.fields[k], dst.fields[k]);
      assert k in f ==> f[k] == ForgetMember(src, dst, k);
    }
  }

  // ---- A differing key that is not plain spoils the result ----

  /** What the diff might be expected to produce: the target itself, or the target less forgotten nulls. */
  ghost predicate IsGoal(src: Json, dst: Json, g: Json) {
    g == dst || g == Forget(src, dst)
  }

  lemma {:induction false} MemberSpares(path: string, p: seq<string>, src: Json, dst: Json, j: string, k: string)
    requires src.Obj? && dst.Obj? && j in dst.fields && Parse(path) == Tokens(p)
    requires SameMember(src, dst, j) || FirstToken(j) != k
    ensures forall op :: op in MemberOps(path, src, dst, j) ==> SparesMember(op, p, k)
  {
    if SameMember(src, dst, j) {
      DiffSame(path + "/" + j, dst.fields[j]);
    } else {
      MemberUnder(path, src, dst, j);
      forall op | op in MemberOps(path, src, dst, j) ensures SparesMember(op, p, k) {
        ParseUnder(path, p, j, op.path);
      }
    }
  }

  lemma {:induction false} MembersSpare(
      path: string, p: seq<string>, keys: seq<string>, src: Json, dst: Json, k: string)
    requires src.Obj? && dst.Obj? && Parse(path) == Tokens(p)
    requires forall j :: j in keys ==> j in dst.fields && (SameMember(src, dst, j) || FirstToken(j) != k)
    ensures forall op :: op in Members(path, keys, src, dst) ==> SparesMember(op, p, k)
    decreases |keys|
  {
    if keys != [] {
      var rest, j := keys[..|keys| - 1], keys[|keys| - 1];
      assert j in keys;
      MembersSpare(path, p, rest, src, dst, k);
      MemberSpares(path, p, src, dst, j, k);
      assert Members(path, keys, src, dst) == Members(path, rest, src, dst) + MemberOps(path, src, dst, j);
    }
  }

  lemma {:induction false} RemovalsSpare(
      path: string, p: seq<string>, keys: seq<string>, dst: map<string, Json>, k: string)
    requires Parse(path) == Tokens(p)
    requires forall j :: j in keys ==> j in dst || FirstToken(j) != k
    ensures forall op :: op in Removals(path, keys, dst) ==> SparesMember(op, p, k)
    decreases |keys|
  {
    if keys != [] {
      var j := keys[|keys| - 1];
      assert j in keys;
      RemovalsSpare(path, p, keys[..|keys| - 1], dst, k);
      if j !in dst {
        AtKey(path, j, MkRemove(path + "/" + j));
        ParseUnder(path, p, j, path + "/" + j);
      }
    }
  }

  /** Whether key `k` is involved in the change and cannot be written into a path. */
  ghost predicate BadKey(src: Json, dst: Json, k: string)
    requires src.Obj? && dst.Obj?
  {
    (k in src.fields || k in dst.fields) && !SameMember(src, dst, k) && !PlainKey(k)
  }

  lemma {:induction false} Longest(keys: set<string>) returns (k: string)
    requires keys != {}
    ensures k in keys && forall j :: j in keys ==> |j| <= |k|
  {
    k :| k in keys;
    var rest := keys - {k};
    if rest != {} {
      var other := Longest(rest);
      if |other| > |k| {
        k := other;
      }
    }
    assert forall j :: j in keys ==> j in rest || j in keys - rest;
  }

  /** No operation starts at the longest bad key. */
  lemma {:induction false} BadKeySpared(path: string, p: seq<string>, src: Json, dst: Json, k: string)
    requires src.Obj? && dst.Obj? && Parse(path) == Tokens(p)
    requires BadKey(src, dst, k) && forall j :: BadKey(src, dst, j) ==> |j| <= |k|
    ensures forall op :: op in Diff(path, src, dst) ==> SparesMember(op, p, k)
  {
    forall j | j in src.fields || j in dst.fields ensures SameMember(src, dst, j) || FirstToken(j) != k {
      FirstTokenShorter(j);
      assert BadKey(src, dst, j) || SameMember(src, dst, j) || PlainKey(j);
    }
    RemovalsSpare(path, p, SortedKeys(src.fields.Keys), dst.fields, k);
    MembersSpare(path, p, SortedKeys(dst.fields.Keys), src, dst, k);
    DiffObjs(path, src, dst);
  }

  lemma {:induction false} BadKeyFails(path: string, p: seq<string>, t: Json, src: Json, dst: Json, g: Json)
    requires src.Obj? && dst.Obj? && Parse(path) == Tokens(p) && Get(t, p) == Ok(src)
    requires (exists k :: BadKey(src, dst, k)) && IsGoal(src, dst, g)
    ensures ApplyAll(t, Diff(path, src, dst)).Ok? ==> Get(ApplyAll(t, Diff(path, src, dst)).value, p) != Ok(g)
  {
    var bad := set k | k in src.fields.Keys + dst.fields.Keys && BadKey(src, dst, k);
    var some :| BadKey(src, dst, some);
    assert some in bad;
    var k := Longest(bad);
    if ApplyAll(t, Diff(path, src, dst)).Ok? {
      BadKeySpared(path, p, src, dst, k);
      ObjRun(t, p, src.fields, Diff(path, src, dst), k);
      ForgetMemberChanges(src, dst, k);
    }
  }

  // ---- The failure comes up from any depth ----

  /** Member `k` of the object at `p` is not `g`. */
  ghost predicate MemberOff(t: Json, p: seq<string>, k: string, g: Json) {
    Get(t, p).Ok? && Get(t, p).value.Obj? && (k in Get(t, p).value.fields ==> Get(t, p).value.fields[k] != g)
  }

  /** Inside member `k` some key spoils the result `g` for that member. */
  ghost predicate Misses(src: Json, dst: Json, k: string, g: Json) {
    && src.Obj? && dst.Obj? && k in src.fields && k in dst.fields
    && NullsInPlace(src.fields[k], dst.fields[k]) && !PlainDiffs(src.fields[k], dst.fields[k])
    && IsGoal(src.fields[k], dst.fields[k], g)
  }

  lemma {:induction false} OwnMemberFails(
      path: string, p: seq<string>, t: Json, m: map<string, Json>, src: Json, dst: Json, k: string, g: Json)
    requires Misses(src, dst, k, g) && PlainKey(k) && Parse(path) == Tokens(p)
    requires Get(t, p) == Ok(Obj(m)) && k in m && m[k] == src.fields[k]
    requires ApplyAll(t, MemberOps(path, src, dst, k)).Ok?
    ensures MemberOff(ApplyAll(t, MemberOps(path, src, dst, k)).value, p, k, g)
    decreases dst, 0
  {
    var ops := MemberOps(path, src, dst, k);
    var end := ApplyAll(t, ops).value;
    ParseSnoc(path, p, k);
    GetConcat(t, p, [k]);
    PutOne(Obj(m), k, Null);
    Fails(path + "/" + k, p + [k], t, src.fields[k], dst.fields[k], g);
    MemberUnder(path, src, dst, k);
    forall op | op in ops ensures Inside(op, p) {
      ParseUnder(path, p, k, op.path);
    }
    ObjRun(t, p, m, ops, k);
    GetConcat(end, p, [k]);
    if k in Get(end, p).value.fields {
      PutOne(Get(end, p).value, k, Null);
    }
  }

  lemma {:induction false} StaysOff(t: Json, p: seq<string>, ops: seq<Op>, k: string, g: Json)
    requires MemberOff(t, p, k, g) && (forall op :: op in ops ==> SparesMember(op, p, k)) && ApplyAll(t, ops).Ok?
    ensures MemberOff(ApplyAll(t, ops).value, p, k, g)
  {
    ObjRun(t, p, Get(t, p).value.fields, ops, k);
  }

  /** Distinct members of the target that are unchanged or have plain keys. */
  ghost predicate PlainMembers(src: Json, dst: Json, keys: seq<string>) {
    && src.Obj? && dst.Obj? && (forall i, j :: 0 <= i < j < |keys| ==> keys[i] != keys[j])
    && forall j :: j in keys ==> j in dst.fields && (SameMember(src, dst, j) || PlainKey(j))
  }

  lemma {:induction false} PlainMembersInit(src: Json, dst: Json, keys: seq<string>)
    requires PlainMembers(src, dst, keys) && keys != []
    ensures PlainMembers(src, dst, keys[..|keys| - 1]) && keys[|keys| - 1] !in keys[..|keys| - 1]
    ensures keys[|keys| - 1] in dst.fields && (SameMember(src, dst, keys[|keys| - 1]) || PlainKey(keys[|keys| - 1]))
    ensures forall k :: k in keys ==> k == keys[|keys| - 1] || k in keys[..|keys| - 1]
  {
    ElemsSnoc(keys);
    assert keys[|keys| - 1] in keys && keys == keys[..|keys| - 1] + [keys[|keys| - 1]];
  }

  /** Members other than `k` leave member `k` as it is. */
  lemma {:induction false} OthersKeep(
      path: string, p: seq<string>, t: Json, m: map<string, Json>, src: Json, dst: Json, keys: seq<string>, k: string)
    requires PlainMembers(src, dst, keys) && k !in keys && Parse(path) == Tokens(p) && Get(t, p) == Ok(Obj(m))
    requires ApplyAll(t, Members(path, keys, src, dst)).Ok?
    ensures var mid := ApplyAll(t, Members(path, keys, src, dst)).value;
      Get(mid, p).Ok? && Get(mid, p).value.Obj? && SameAt(m, Get(mid, p).value.fields, k)
  {
    forall j | j in keys ensures SameMember(src, dst, j) || FirstToken(j) != k {
      FirstTokenShorter(j);
    }
    MembersSpare(path, p, keys, src, dst, k);
    ObjRun(t, p, m, Members(path, keys, src, dst), k);
  }

  lemma {:induction false} LastMemberFails(
      path: string, p: seq<string>, t: Json, m: map<string, Json>, src: Json, dst: Json,
      rest: seq<string>, k: string, g: Json)
    requires Misses(src, dst, k, g) && k !in rest && PlainKey(k) && Parse(path) == Tokens(p)
    requires PlainMembers(src, dst, rest) && Get(t, p) == Ok(Obj(m)) && k in m && m[k] == src.fields[k]
    requires ApplyAll(t, Members(path, rest, src, dst) + MemberOps(path, src, dst, k)).Ok?
    ensures MemberOff(ApplyAll(t, Members(path, rest, src, dst) + MemberOps(path, src, dst, k)).value, p, k, g)
    decreases dst, 1, 0
  {
    ApplyConcat(t, Members(path, rest, src, dst), MemberOps(path, src, dst, k));
    OthersKeep(path, p, t, m, src, dst, rest, k);
    var mid := ApplyAll(t, Members(path, rest, src, dst)).value;
    OwnMemberFails(path, p, mid, Get(mid, p).value.fields, src, dst, k, g);
  }

  lemma {:induction false} OtherMemberAfter(
      path: string, p: seq<string>, t: Json, before: seq<Op>, src: Json, dst: Json, j: string, k: string, g: Json)
    requires src.Obj? && dst.Obj? && j in dst.fields && j != k && Parse(path) == Tokens(p)
    requires SameMember(src, dst, j) || PlainKey(j)
    requires ApplyAll(t, before).Ok? && MemberOff(ApplyAll(t, before).value, p, k, g)
    requires ApplyAll(t, before + MemberOps(path, src, dst, j)).Ok?
    ensures MemberOff(ApplyAll(t, before + MemberOps(path, src, dst, j)).value, p, k, g)
  {
    ApplyConcat(t, before, MemberOps(path, src, dst, j));
    FirstTokenShorter(j);
    MemberSpares(path, p, src, dst, j, k);
    StaysOff(ApplyAll(t, before).value, p, MemberOps(path, src, dst, j), k, g);
  }

  lemma {:induction false} MembersFail(
      path: string, p: seq<string>, t: Json, m: map<string, Json>, src: Json, dst: Json,
      keys: seq<string>, k: string, g: Json)
    requires Misses(src, dst, k, g) && k in keys && PlainMembers(src, dst, keys) && Parse(path) == Tokens(p)
    requires Get(t, p) == Ok(Obj(m)) && k in m && m[k] == src.fields[k]
    requires ApplyAll(t, Members(path, keys, src, dst)).Ok?
    ensures MemberOff(ApplyAll(t, Members(path, keys, src, dst)).value, p, k, g)
    decreases dst, 1, |keys|
  {
    var rest, last := keys[..|keys| - 1], keys[|keys| - 1];
    PlainMembersInit(src, dst, keys);
    MembersSnoc(path, keys, src, dst);
    if last == k {
      LastMemberFails(path, p, t, m, src, dst, rest, k, g);
    } else {
      ApplyConcat(t, Members(path, rest, src, dst), MemberOps(path, src, dst, last));
      MembersFail(path, p, t, m, src, dst, rest, k, g);
      OtherMemberAfter(path, p, t, Members(path, rest, src, dst), src, dst, last, k, g);
    }
  }

  lemma {:induction false} MembersSnoc(path: string, keys: seq<string>, src: Json, dst: Json)
    requires PlainMembers(src, dst, keys) && keys != []
    ensures PlainMembers(src, dst, keys[..|keys| - 1]) && keys[|keys| - 1] in dst.fields
    ensures Members(path, keys, src, dst) ==
      Members(path, keys[..|keys| - 1], src, dst) + MemberOps(path, src, dst, keys[|keys| - 1])
  {
    PlainMembersInit(src, dst, keys);
  }

  lemma {:induction false} GoalMember(src: Json, dst: Json, g: Json, k: string)
    requires src.Obj? && dst.Obj? && IsGoal(src, dst, g) && k in src.fields && k in dst.fields
    requires !PlainDiffs(src.fields[k], dst.fields[k])
    ensures g.Obj? && k in g.fields && IsGoal(src.fields[k], dst.fields[k], g.fields[k])
  {
    assert !SameMember(src, dst, k);
    assert g != dst ==> g.fields[k] == ForgetMember(src, dst, k);
  }

  /** The removals come first and leave member `k` alone. */
  lemma {:induction false} RemovalsKeep(path: string, p: seq<string>, t: Json, src: Json, dst: Json, k: string)
    requires src.Obj? && dst.Obj? && Parse(path) == Tokens(p) && Get(t, p) == Ok(src)
    requires forall j :: j in src.fields || j in dst.fields ==> SameMember(src, dst, j) || PlainKey(j)
    requires k in src.fields && k in dst.fields
    requires ApplyAll(t, Removals(path, SortedKeys(src.fields.Keys), dst.fields)).Ok?
    ensures var mid := ApplyAll(t, Removals(path, SortedKeys(src.fields.Keys), dst.fields)).value;
      Get(mid, p).Ok? && Get(mid, p).value.Obj? && SameAt(src.fields, Get(mid, p).value.fields, k)
  {
    var keys := SortedKeys(src.fields.Keys);
    forall j | j in keys ensures j in dst.fields || FirstToken(j) != k {
      FirstTokenShorter(j);
    }
    RemovalsSpare(path, p, keys, dst.fields, k);
    ObjRun(t, p, src.fields, Removals(path, keys, dst.fields), k);
  }

  lemma {:induction false} ObjFails(path: string, p: seq<string>, t: Json, src: Json, dst: Json, g: Json, k: string)
    requires src.Obj? && dst.Obj? && Parse(path) == Tokens(p) && Get(t, p) == Ok(src)
    requires forall j :: j in src.fields || j in dst.fields ==> SameMember(src, dst, j) || PlainKey(j)
    requires k in src.fields && k in dst.fields && NullsInPlace(src.fields[k], dst.fields[k])
    requires !PlainDiffs(src.fields[k], dst.fields[k]) && IsGoal(src, dst, g)
    ensures ApplyAll(t, Diff(path, src, dst)).Ok? ==> Get(ApplyAll(t, Diff(path, src, dst)).value, p) != Ok(g)
    decreases dst, 2
  {
    assert src.fields[k] != dst.fields[k];
    var removals := Removals(path, SortedKeys(src.fields.Keys), dst.fields);
    var members := Members(path, SortedKeys(dst.fields.Keys), src, dst);
    DiffObjs(path, src, dst);
    ApplyConcat(t, removals, members);
    if ApplyAll(t, removals + members).Ok? {
      RemovalsKeep(path, p, t, src, dst, k);
      var mid := ApplyAll(t, removals).value;
      GoalMember(src, dst, g, k);
      MembersFail(path, p, mid, Get(mid, p).value.fields, src, dst, SortedKeys(dst.fields.Keys), k, g.fields[k]);
    }
  }

  lemma {:induction false} Fails(path: string, p: seq<string>, t: Json, src: Json, dst: Json, g: Json)
    requires Parse(path) == Tokens(p) && Get(t, p) == Ok(src)
    requires NullsInPlace(src, dst) && !PlainDiffs(src, dst) && IsGoal(src, dst, g)
    ensures ApplyAll(t, Diff(path, src, dst)).Ok? ==> Get(ApplyAll(t, Diff(path, src, dst)).value, p) != Ok(g)
    decreases dst, 3
  {
    if src.Obj? && (exists k :: BadKey(src, dst, k)) {
      BadKeyFails(path, p, t, src, dst, g);
    } else if src.Obj? {
      assert forall j :: j in src.fields || j in dst.fields ==>
        SameMember(src, dst, j) || PlainKey(j) || BadKey(src, dst, j);
      var k :| k in dst.fields && k in src.fields && !PlainDiffs(src.fields[k], dst.fields[k]);
      ObjFails(path, p, t, src, dst, g, k);
    } else {
      var i :| 0 <= i < |src.elems| && i < |dst.elems| && !PlainDiffs(src.elems[i], dst.elems[i]);
      ArrFails(path, p, t, src, dst, g, i);
    }
  }

  // ---- Arrays ----

  lemma {:induction false} ElementSpares(path: string, p: seq<string>, src: Json, dst: Json, j: nat, i: nat)
    requires src.Arr? && dst.Arr? && j < |src.elems| && j < |dst.elems| && Parse(path) == Tokens(p)
    requires src.elems[j] == Null <==> dst.elems[j] == Null
    ensures forall op :: op in Diff(path + "/" + Itoa(j), src.elems[j], dst.elems[j]) ==> KeepsPlace(op, p, i)
    ensures j != i ==>
      forall op :: op in Diff(path + "/" + Itoa(j), src.elems[j], dst.elems[j]) ==> SparesElement(op, p, i)
  {
    var ops := Diff(path + "/" + Itoa(j), src.elems[j], dst.elems[j]);
    AtoiItoa(j);
    FirstTokenShorter(Itoa(j));
    DiffUnder(path + "/" + Itoa(j), src.elems[j], dst.elems[j]);
    forall op | op in ops ensures KeepsPlace(op, p, i) && (j != i ==> SparesElement(op, p, i)) {
      ParseUnder(path, p, Itoa(j), op.path);
    }
  }

  lemma {:induction false} ElementsSpare(path: string, p: seq<string>, n: nat, src: Json, dst: Json, i: nat)
    requires src.Arr? && dst.Arr? && n <= |src.elems| && n <= |dst.elems| && n <= i && Parse(path) == Tokens(p)
    requires forall j :: 0 <= j < n ==> (src.elems[j] == Null <==> dst.elems[j] == Null)
    ensures forall op :: op in Elements(path, n, src, dst) ==> SparesElement(op, p, i)
    decreases n
  {
    if n > 0 {
      ElementsSpare(path, p, n - 1, src, dst, i);
      ElementSpares(path, p, src, dst, n - 1, i);
    }
  }

  lemma {:induction false} EndSpares(path: string, p: seq<string>, j: nat, i: nat, op: Op)
    requires Parse(path) == Tokens(p) && i < j && Edits(op) && op.path == path + "/" + Itoa(j)
    ensures SparesElement(op, p, i)
  {
    AtoiItoa(j);
    FirstTokenShorter(Itoa(j));
    AtKey(path, Itoa(j), op);
    ParseUnder(path, p, Itoa(j), op.path);
  }

  lemma {:induction false} AppendsSpare(path: string, p: seq<string>, lo: nat, hi: nat, dst: Json, i: nat)
    requires dst.Arr? && hi <= |dst.elems| && i < lo && Parse(path) == Tokens(p)
    ensures forall op :: op in Appends(path, lo, hi, dst) ==> SparesElement(op, p, i)
    decreases hi
  {
    if lo < hi {
      AppendsSpare(path, p, lo, hi - 1, dst, i);
      EndSpares(path, p, hi - 1, i, MkAdd(path + "/" + Itoa(hi - 1), dst.elems[hi - 1]));
    }
  }

  lemma {:induction false} TruncationsSpare(path: string, p: seq<string>, lo: nat, hi: nat, i: nat)
    requires i < lo && Parse(path) == Tokens(p)
    ensures forall op :: op in Truncations(path, lo, hi) ==> SparesElement(op, p, i)
    decreases hi
  {
    if lo < hi {
      TruncationsSpare(path, p, lo, hi - 1, i);
      EndSpares(path, p, hi - 1, i, MkRemove(path + "/" + Itoa(hi - 1)));
    }
  }

  /** Element `i` of the array at `p` is not `g`. */
  ghost predicate ElementOff(t: Json, p: seq<string>, i: nat, g: Json) {
    Get(t, p).Ok? && Get(t, p).value.Arr? && i < |Get(t, p).value.elems| && Get(t, p).value.elems[i] != g
  }

  lemma {:induction false} ElementStaysOff(t: Json, p: seq<string>, ops: seq<Op>, i: nat, g: Json)
    requires ElementOff(t, p, i, g) && (forall op :: op in ops ==> SparesElement(op, p, i)) && ApplyAll(t, ops).Ok?
    ensures ElementOff(ApplyAll(t, ops).value, p, i, g)
  {
    ArrRun(t, p, Get(t, p).value.elems, ops, i);
  }

  lemma {:induction false} OwnElementFails(
      path: string, p: seq<string>, t: Json, s: seq<Json>, src: Json, dst: Json, i: nat, g: Json)
    requires src.Arr? && dst.Arr? && i < |src.elems| && i < |dst.elems| && Parse(path) == Tokens(p)
    requires NullsInPlace(src.elems[i], dst.elems[i]) && !PlainDiffs(src.elems[i], dst.elems[i])
    requires Get(t, p) == Ok(Arr(s)) && i < |s| && s[i] == src.elems[i] && IsGoal(src.elems[i], dst.elems[i], g)
    requires ApplyAll(t, Diff(path + "/" + Itoa(i), src.elems[i], dst.elems[i])).Ok?
    ensures ElementOff(ApplyAll(t, Diff(path + "/" + Itoa(i), src.elems[i], dst.elems[i])).value, p, i, g)
    decreases dst, 0
  {
    var ops := Diff(path + "/" + Itoa(i), src.elems[i], dst.elems[i]);
    var end := ApplyAll(t, ops).value;
    AtoiItoa(i);
    ParseSnoc(path, p, Itoa(i));
    GetConcat(t, p, [Itoa(i)]);
    PutOne(Arr(s), Itoa(i), Null);
    Fails(path + "/" + Itoa(i), p + [Itoa(i)], t, src.elems[i], dst.elems[i], g);
    ElementSpares(path, p, src, dst, i, i);
    ArrRun(t, p, s, ops, i);
    GetConcat(end, p, [Itoa(i)]);
    PutOne(Get(end, p).value, Itoa(i), Null);
  }

  lemma {:induction false} ElementsFail(
      path: string, p: seq<string>, t: Json, src: Json, dst: Json, n: nat, i: nat, g: Json)
    requires src.Arr? && dst.Arr? && i < n <= |src.elems| && n <= |dst.elems| && Parse(path) == Tokens(p)
    requires forall j :: 0 <= j < n ==> (src.elems[j] == Null <==> dst.elems[j] == Null)
    requires NullsInPlace(src.elems[i], dst.elems[i]) && !PlainDiffs(src.elems[i], dst.elems[i])
    requires Get(t, p) == Ok(src) && IsGoal(src.elems[i], dst.elems[i], g)
    requires ApplyAll(t, Elements(path, n, src, dst)).Ok?
    ensures ElementOff(ApplyAll(t, Elements(path, n, src, dst)).value, p, i, g)
    decreases dst, 1, n
  {
    var before := Elements(path, n - 1, src, dst);
    var ops := Diff(path + "/" + Itoa(n - 1), src.elems[n - 1], dst.elems[n - 1]);
    ApplyConcat(t, before, ops);
    var mid := ApplyAll(t, before).value;
    if i == n - 1 {
      ElementsSpare(path, p, i, src, dst, i);
      ArrRun(t, p, src.elems, before, i);
      OwnElementFails(path, p, mid, Get(mid, p).value.elems, src, dst, i, g);
    } else {
      ElementsFail(path, p, t, src, dst, n - 1, i, g);
      ElementSpares(path, p, src, dst, n - 1, i);
      ElementStaysOff(mid, p, ops, i, g);
    }
  }

  lemma {:induction false} ArrFails(path: string, p: seq<string>, t: Json, src: Json, dst: Json, g: Json, i: nat)
    requires src.Arr? && dst.Arr? && i < |src.elems| && i < |dst.elems| && IsGoal(src, dst, g)
    requires Parse(path) == Tokens(p) && Get(t, p) == Ok(src) && NullsInPlace(src, dst)
    requires !PlainDiffs(src.elems[i], dst.elems[i])
    ensures ApplyAll(t, Diff(path, src, dst)).Ok? ==> Get(ApplyAll(t, Diff(path, src, dst)).value, p) != Ok(g)
    decreases dst, 2
  {
    assert src.elems[i] != dst.elems[i];
    var n := Min(|src.elems|, |dst.elems|);
    var first, second, third := Elements(path, n, src, dst), Appends(path, |src.elems|, |dst.elems|, dst),
                                Truncations(path, |dst.elems|, |src.elems|);
    ApplyConcat(t, first, second);
    ApplyConcat(t, first + second, third);
    if ApplyAll(t, Diff(path, src, dst)).Ok? {
      var part := if g == dst then dst.elems[i] else ForgetElem(src, dst, i);
      ElementsFail(path, p, t, src, dst, n, i, part);
      AppendsSpare(path, p, |src.elems|, |dst.elems|, dst, i);
      TruncationsSpare(path, p, |dst.elems|, |src.elems|, i);
      var mid := ApplyAll(t, first).value;
      ElementStaysOff(mid, p, second, i, part);
      ElementStaysOff(ApplyAll(mid, second).value, p, third, i, part);
      assert g.Arr? && g.elems[i] == part;
    }
  }
}
