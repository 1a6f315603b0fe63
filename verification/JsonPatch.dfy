/**
 JSON values and the six patch operations of section 4 of RFC 6902, applied along parsed pointers.
 Values are immutable here: an update in place becomes the value with the part at that path replaced.
 */
module JsonPatch {
  import opened Decimal
  import opened JsonPointer

  datatype Json =
    | Null
    | Bool(b: bool)
    | Num(n: real)
    | Str(s: string)
    | Arr(elems: seq<Json>)
    | Obj(fields: map<string, Json>)

  datatype Error = BadPointer | PathNotFound | PatchFailed | TestFailed
  datatype Result = Ok(value: Json) | Err(error: Error)

  datatype OpType = Add | Remove | Replace | Move | Copy | Test
  datatype Op = Op(kind: OpType, path: string, from: string, value: Json)

  // ---- Array indices ----

  lemma {:induction false} AtoiItoa(n: nat)
    ensures Atoi(Itoa(n)) == Index(n) && PlainKey(Itoa(n))
  {
    ReadWritten(n);
    ValueItoa(n);
    assert forall i :: 0 <= i < |Itoa(n)| ==> Itoa(n)[i] != '/' && Itoa(n)[i] != '~';
    PlainIfNoSpecials(Itoa(n));
  }

  // ---- Walking and rebuilding along a path ----

  /** Whether `tok` names a child of `v`. */
  predicate HasChild(v: Json, tok: string) {
    match v
    case Obj(m) => tok in m
    case Arr(s) => Atoi(tok).Index? && 0 <= Atoi(tok).i < |s|
    case _ => false
  }

  function Child(v: Json, tok: string): Json
    requires HasChild(v, tok)
  {
    match v
    case Obj(m) => m[tok]
    case Arr(s) => s[Atoi(tok).i]
  }

  function SetChild(v: Json, tok: string, c: Json): Json
    requires HasChild(v, tok)
  {
    match v
    case Obj(m) => Obj(m[tok := c])
    case Arr(s) => Arr(s[Atoi(tok).i := c])
  }

  function Get(v: Json, toks: seq<string>): Result {
    if toks == [] then Ok(v)
    else if HasChild(v, toks[0]) then Get(Child(v, toks[0]), toks[1..])
    else Err(PathNotFound)
  }

  /** `v` with the part at an existing path replaced. */
  function Put(v: Json, toks: seq<string>, c: Json): Json
    requires Get(v, toks).Ok?
  {
    if toks == [] then c else SetChild(v, toks[0], Put(Child(v, toks[0]), toks[1..], c))
  }

  /** The walk of the program, one token at a time. */
  method GetValue(target: Json, toks: seq<string>) returns (r: Result)
    ensures r == Get(target, toks)
  {
    var curr := target;
    for i := 0 to |toks|
      invariant Get(target, toks) == Get(curr, toks[i..])
    {
      if !HasChild(curr, toks[i]) {
        return Err(PathNotFound);
      }
      assert toks[i..][1..] == toks[i + 1..];
      curr := Child(curr, toks[i]);
    }
    assert toks[|toks|..] == [];
    r := Ok(curr);
  }

  function AddValue(target: Json, toks: seq<string>, v: Json): Result {
    if toks == [] then Ok(v)
    else
      var t := if target == Null then Obj(map[]) else target;
      var up, last := toks[..|toks| - 1], toks[|toks| - 1];
      match Get(t, up)
      case Err(e) => Err(e)
      case Ok(Obj(m)) => Ok(Put(t, up, Obj(m[last := v])))
      case Ok(Arr(s)) =>
        if last == "-" then Ok(Put(t, up, Arr(s + [v])))
        else if Atoi(last).Index? && 0 <= Atoi(last).i <= |s|
        then Ok(Put(t, up, Arr(s[..Atoi(last).i] + [v] + s[Atoi(last).i..])))
        else Err(PatchFailed)
      case Ok(_) => Err(PatchFailed)
  }

  function RemoveValue(target: Json, toks: seq<string>): Result {
    if toks == [] then Ok(Null)
    else
      var up, last := toks[..|toks| - 1], toks[|toks| - 1];
      match Get(target, up)
      case Err(e) => Err(e)
      case Ok(Obj(m)) => if last in m then Ok(Put(target, up, Obj(m - {last}))) else Err(PathNotFound)
      case Ok(Arr(s)) =>
        if Atoi(last).Index? && 0 <= Atoi(last).i < |s|
        then Ok(Put(target, up, Arr(s[..Atoi(last).i] + s[Atoi(last).i + 1..])))
        else Err(PathNotFound)
      case Ok(_) => Err(PatchFailed)
  }

  function ApplyOp(target: Json, op: Op): Result {
    match Parse(op.path)
    case InvalidPointer => Err(BadPointer)
    case Tokens(toks) =>
      match op.kind
      case Test =>
        (match Get(target, toks)
         case Err(e) => Err(e)
         case Ok(v) => if v == op.value then Ok(target) else Err(TestFailed))
      case Add => AddValue(target, toks, op.value)
      case Remove => RemoveValue(target, toks)
      case Replace =>
        (match RemoveValue(target, toks)
         case Err(e) => Err(e)
         case Ok(t) => AddValue(t, toks, op.value))
      case Copy =>
        (match Parse(op.from)
         case InvalidPointer => Err(BadPointer)
         case Tokens(from) =>
           match Get(target, from)
           case Err(e) => Err(e)
           case Ok(v) => AddValue(target, toks, v))
      case Move =>
        (match Parse(op.from)
         case InvalidPointer => Err(BadPointer)
         case Tokens(from) =>
           match Get(target, from)
           case Err(e) => Err(e)
           case Ok(v) =>
             match RemoveValue(target, from)
             case Err(e) => Err(e)
             case Ok(t) => AddValue(t, toks, v))
  }

  function ApplyAll(target: Json, ops: seq<Op>): Result {
    if ops == [] then Ok(target)
    else
      match ApplyAll(target, ops[..|ops| - 1])
      case Err(e) => Err(e)
      case Ok(t) => ApplyOp(t, ops[|ops| - 1])
  }

  /** The loop over the operations; the first failure stops it. */
  method Apply(target: Json, patch: seq<Op>) returns (r: Result)
    ensures r == ApplyAll(target, patch)
  {
    var current := target;
    for i := 0 to |patch|
      invariant ApplyAll(target, patch[..i]) == Ok(current)
    {
      assert patch[..i + 1][..i] == patch[..i];
      var step := ApplyOp(current, patch[i]);
      if step.Err? {
        FailureStays(target, patch, i + 1);
        return step;
      }
      current := step.value;
    }
    assert patch[..|patch|] == patch;
    r := Ok(current);
  }

  lemma {:induction false} FailureStays(target: Json, patch: seq<Op>, i: nat)
    requires i <= |patch| && ApplyAll(target, patch[..i]).Err?
    ensures ApplyAll(target, patch) == ApplyAll(target, patch[..i])
    decreases |patch| - i
  {
    if i == |patch| {
      assert patch[..i] == patch;
    } else {
      assert patch[..i + 1][..i] == patch[..i];
      FailureStays(target, patch, i + 1);
    }
  }

  // ---- Composition ----

  lemma {:induction false} ApplyConcat(target: Json, a: seq<Op>, b: seq<Op>)
    ensures ApplyAll(target, a + b) ==
            match ApplyAll(target, a) case Err(e) => Err(e) case Ok(t) => ApplyAll(t, b)
    decreases |b|
  {
    if b == [] {
      assert a + b == a;
    } else {
      var init, last := b[..|b| - 1], b[|b| - 1];
      ApplyConcat(target, a, init);
      assert a + b == a + init + [last] && b == init + [last];
      ApplySnoc(target, a + init, last);
      if ApplyAll(target, a).Ok? {
        ApplySnoc(ApplyAll(target, a).value, init, last);
      }
    }
  }

  lemma {:induction false} ApplySnoc(target: Json, ops: seq<Op>, op: Op)
    ensures ApplyAll(target, ops + [op]) == if ApplyAll(target, ops).Ok? then ApplyOp(ApplyAll(target, ops).value, op)
      else ApplyAll(target, ops)
  {
    assert (ops + [op])[..|ops|] == ops;
  }

  lemma {:induction false} GetConcat(v: Json, p: seq<string>, q: seq<string>)
    requires Get(v, p).Ok?
    ensures Get(v, p + q) == Get(Get(v, p).value, q)
  {
    if p == [] {
      assert p + q == q;
    } else {
      GetConcat(Child(v, p[0]), p[1..], q);
      assert (p + q)[1..] == p[1..] + q;
    }
  }

  lemma {:induction false} GetPut(v: Json, p: seq<string>, c: Json)
    requires Get(v, p).Ok?
    ensures Get(Put(v, p, c), p) == Ok(c)
    ensures forall d :: Put(Put(v, p, c), p, d) == Put(v, p, d)
    ensures Put(v, p, Get(v, p).value) == v
  {
    if p != [] {
      GetPut(Child(v, p[0]), p[1..], c);
      GetPut(Child(v, p[0]), p[1..], Get(v, p).value);
    }
  }

  lemma {:induction false} PutConcat(v: Json, p: seq<string>, q: seq<string>, c: Json)
    requires Get(v, p).Ok? && Get(Get(v, p).value, q).Ok?
    ensures Get(v, p + q).Ok?
    ensures Put(v, p + q, c) == Put(v, p, Put(Get(v, p).value, q, c))
  {
    GetConcat(v, p, q);
    if p == [] {
      assert p + q == q;
    } else {
      PutConcat(Child(v, p[0]), p[1..], q, c);
      assert (p + q)[1..] == p[1..] + q;
    }
  }
}
