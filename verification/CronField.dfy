/**
 Parsing one field of a cron expression.
 */
module CronField {
  import opened Arithmetic
  import opened Decimal

  datatype Range = Range(start: int, end: int, step: int)
  datatype Part = Bad | Good(range: Range)
  datatype FieldResult = Invalid | Bits(bits: set<int>)

  // ---- Text ----

  /** `strings.Split` on one character: always at least one piece. */
  function SplitOn(s: string, c: char): (r: seq<string>)
    ensures |r| >= 1
  {
    if s == "" then [""]
    else
      var rest := SplitOn(s[1..], c);
      if s[0] == c then [""] + rest else [[s[0]] + rest[0]] + rest[1..]
  }

  lemma {:induction false} SplitNone(s: string, c: char)
    requires c !in s
    ensures SplitOn(s, c) == [s]
  {
    if s != "" {
      SplitNone(s[1..], c);
      assert s == [s[0]] + s[1..];
    }
  }

  lemma {:induction false} SplitFirst(a: string, b: string, c: char)
    requires c !in a
    ensures SplitOn(a + [c] + b, c) == [a] + SplitOn(b, c)
  {
    var s := a + [c] + b;
    if a == "" {
      assert s[0] == c && s[1..] == b;
    } else {
      assert s[0] == a[0] && s[1..] == a[1..] + [c] + b;
      SplitFirst(a[1..], b, c);
      assert a == [a[0]] + a[1..];
    }
  }

  /** Unicode white space, as `strings.TrimSpace` sees it. */
  predicate IsSpace(c: char) {
    || c == ' ' || '\t' <= c <= '\r' || c == '\U{85}' || c == '\U{A0}'
    || c == '\U{1680}' || '\U{2000}' <= c <= '\U{200A}' || c == '\U{2028}' || c == '\U{2029}'
    || c == '\U{202F}' || c == '\U{205F}' || c == '\U{3000}'
  }

  function TrimLeft(s: string): string {
    if s != "" && IsSpace(s[0]) then TrimLeft(s[1..]) else s
  }

  function TrimRight(s: string): string {
    if s != "" && IsSpace(s[|s| - 1]) then TrimRight(s[..|s| - 1]) else s
  }

  function TrimSpace(s: string): string {
    TrimRight(TrimLeft(s))
  }

  // ---- Parts ----

  /** The step after a slash, 1 without one; 0 stands for an error. */
  function StepOf(part: string): int {
    if '/' !in part then 1
    else
      var sub := SplitOn(part, '/');
      if |sub| != 2 then 0
      else match Atoi(sub[1]) case NotANumber => 0 case Index(i) => if i > 0 then i else 0
  }

  function RangeText(part: string): string {
    if '/' in part then SplitOn(part, '/')[0] else part
  }

  function InBounds(t: Index, min: int, max: int): bool {
    t.Index? && min <= t.i <= max
  }

  function ParseRange(range: string, step: int, min: int, max: int): Part {
    if range == "*" then Good(Range(min, max, step))
    else if '-' in range then
      var r := SplitOn(range, '-');
      if |r| != 2 then Bad
      else
        var start, end := Atoi(r[0]), Atoi(r[1]);
        if InBounds(start, min, max) && InBounds(end, min, max) && start.i <= end.i
        then Good(Range(start.i, end.i, step))
        else Bad
    else if InBounds(Atoi(range), min, max) then Good(Range(Atoi(range).i, Atoi(range).i, step))
    else Bad
  }

  function ParsePart(text: string, min: int, max: int): Part {
    var part := TrimSpace(text);
    if StepOf(part) == 0 then Bad else ParseRange(RangeText(part), StepOf(part), min, max)
  }

  predicate Selects(r: Range, v: int)
    requires r.step >= 1
  {
    r.start <= v <= r.end && (v - r.start) % r.step == 0
  }

  /** The values a range selects. */
  function Progression(r: Range): set<int>
    requires r.step >= 1
  {
    set v | r.start <= v <= r.end && Selects(r, v)
  }

  lemma {:induction false} GoodStep(text: string, min: int, max: int)
    ensures ParsePart(text, min, max).Good? ==> ParsePart(text, min, max).range.step >= 1
    ensures ParsePart(text, min, max).Good?
      ==> min <= ParsePart(text, min, max).range.start && ParsePart(text, min, max).range.end <= max
  {
  }

  function FieldOf(parts: seq<string>, min: int, max: int): (r: FieldResult)
  {
    if parts == [] then Bits({})
    else
      GoodStep(parts[|parts| - 1], min, max);
      match (FieldOf(parts[..|parts| - 1], min, max), ParsePart(parts[|parts| - 1], min, max))
      case (Bits(b), Good(range)) => Bits(b + Progression(range))
      case _ => Invalid
  }

  /** A field is the union of its parts' progressions, all of it within bounds, or an error if any part is bad. */
  lemma {:induction false} FieldMeaning(parts: seq<string>, min: int, max: int)
    ensures FieldOf(parts, min, max).Invalid? <==> exists i :: 0 <= i < |parts| && ParsePart(parts[i], min, max).Bad?
    ensures FieldOf(parts, min, max).Bits? ==> forall v :: v in FieldOf(parts, min, max).bits ==> min <= v <= max
  {
    if parts != [] {
      var n := |parts| - 1;
      FieldMeaning(parts[..n], min, max);
      GoodStep(parts[n], min, max);
      if FieldOf(parts[..n], min, max).Invalid? {
        var i :| 0 <= i < n && ParsePart(parts[..n][i], min, max).Bad?;
        assert ParsePart(parts[i], min, max).Bad?;
      }
      forall i | 0 <= i < n ensures parts[..n][i] == parts[i] {}
    }
  }

  // ---- The loops ----

  /** Sets the bits `start`, `start + step`, ... up to `end`. */
  method SetBits(before: set<int>, range: Range) returns (field: set<int>)
    requires range.step >= 1
    ensures field == before + Progression(range)
  {
    field := before;
    var i := range.start;
    assert Below(range, i) == {};
    while i <= range.end
      invariant i >= range.start && (i - range.start) % range.step == 0
      invariant field == before + Below(range, i)
      decreases range.end - i
    {
      NextBit(range, i);
      field := field + {i};
      i := i + range.step;
    }
    assert Below(range, i) == Progression(range);
  }

  ghost function Below(r: Range, i: int): set<int>
    requires r.step >= 1
  {
    set v | r.start <= v <= r.end && v < i && Selects(r, v)
  }

  lemma {:induction false} NextBit(r: Range, i: int)
    requires r.step >= 1 && r.start <= i <= r.end && (i - r.start) % r.step == 0
    ensures Below(r, i + r.step) == Below(r, i) + {i} && (i + r.step - r.start) % r.step == 0
  {
    Shift(i - r.start, r.step);
    assert i - r.start + r.step == i + r.step - r.start;
    forall v | Selects(r, v) && i < v ensures v >= i + r.step {
      Between(i - r.start, v - r.start, r.step);
    }
    assert Selects(r, i);
  }

  lemma {:induction false} Shift(x: int, n: int)
    requires n > 0 && x % n == 0
    ensures (x + n) % n == 0
  {
    assert x + n == n * (x / n + 1);
    UniqueRemainder(x + n, n, x / n + 1, 0);
  }

  /** Two multiples of `n` are at least `n` apart. */
  lemma {:induction false} Between(x: int, y: int, n: int)
    requires n > 0 && x % n == 0 && y % n == 0 && x < y
    ensures y >= x + n
  {
    Multiples(n, y / n - x / n);
    assert n * (y / n) - n * (x / n) == n * (y / n - x / n);
  }

  method ParseField(f: string, min: int, max: int) returns (r: FieldResult)
    ensures r == FieldOf(SplitOn(f, ','), min, max)
  {
    var parts := SplitOn(f, ',');
    var field: set<int> := {};
    for k := 0 to |parts|
      invariant FieldOf(parts[..k], min, max) == Bits(field)
    {
      assert parts[..k + 1][..k] == parts[..k];
      GoodStep(parts[k], min, max);
      var p := ParsePart(parts[k], min, max);
      if p.Bad? {
        FieldMeaning(parts, min, max);
        return Invalid;
      }
      field := SetBits(field, p.range);
    }
    assert parts[..|parts|] == parts;
    r := Bits(field);
  }
}
