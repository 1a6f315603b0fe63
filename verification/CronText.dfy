/**
 What the text of a cron field means: stars, numbers and ranges, each with an optional step, padded with white space
 and joined by commas. The meaning is given without the parser, and the parser is shown to find it.
 */
module CronText {
  import Arithmetic
  import opened CronField
  import opened Decimal
  import opened Options

  datatype Item = Star | Single(n: nat) | Span(a: nat, b: nat)
  datatype PartText = PartText(before: string, item: Item, step: Option<nat>, after: string)

  function ItemText(item: Item): string {
    match item
    case Star => "*"
    case Single(n) => Itoa(n)
    case Span(a, b) => Itoa(a) + ['-'] + Itoa(b)
  }

  function Body(p: PartText): string {
    if p.step.None? then ItemText(p.item) else ItemText(p.item) + ['/'] + Itoa(p.step.value)
  }

  function Text(p: PartText): string {
    p.before + Body(p) + p.after
  }

  function FieldText(ps: seq<PartText>): string
    requires ps != []
  {
    if |ps| == 1 then Text(ps[0]) else Text(ps[0]) + [','] + FieldText(ps[1..])
  }

  ghost predicate Blank(s: string) {
    forall i :: 0 <= i < |s| ==> IsSpace(s[i])
  }

  ghost predicate Padded(p: PartText) {
    Blank(p.before) && Blank(p.after)
  }

  // ---- Meaning ----

  /** A step of zero, a number out of bounds and a reversed range are errors. */
  ghost predicate Refused(p: PartText, min: int, max: int) {
    || p.step == Some(0)
    || match p.item
       case Star => false
       case Single(n) => n < min || max < n
       case Span(a, b) => a < min || max < b || b < a
  }

  /** `v` is `first` or some steps after it. */
  ghost predicate Reaches(p: PartText, first: int, v: int)
    requires p.step != Some(0)
  {
    p.step.Some? ==> exists k: nat :: v == first + k * p.step.value
  }

  ghost predicate Picks(p: PartText, min: int, max: int, v: int)
    requires p.step != Some(0)
  {
    match p.item
    case Star => min <= v <= max && Reaches(p, min, v)
    case Single(n) => v == n
    case Span(a, b) => a <= v <= b && Reaches(p, a, v)
  }

  // ---- Reading a part ----

  lemma {:induction false} NotInDigits(n: nat, c: char)
    requires c < '0' || c > '9'
    ensures c !in Itoa(n)
  {
    ValueItoa(n);
  }

  lemma {:induction false} DigitEnds(n: nat)
    ensures !IsSpace(Itoa(n)[0]) && !IsSpace(Itoa(n)[|Itoa(n)| - 1])
  {
    ValueItoa(n);
  }

  lemma {:induction false} TrimFront(l: string, x: string)
    requires Blank(l) && x != "" && !IsSpace(x[0])
    ensures TrimLeft(l + x) == x
  {
    if l == "" {
      assert l + x == x;
    } else {
      TrimFront(l[1..], x);
      assert (l + x)[1..] == l[1..] + x;
    }
  }

  lemma {:induction false} TrimBack(x: string, r: string)
    requires Blank(r) && x != "" && !IsSpace(x[|x| - 1])
    ensures TrimRight(x + r) == x
  {
    if r == "" {
      assert x + r == x;
    } else {
      TrimBack(x, r[..|r| - 1]);
      assert (x + r)[..|x + r| - 1] == x + r[..|r| - 1];
    }
  }

  lemma {:induction false} TrimPadding(l: string, x: string, r: string)
    requires Blank(l) && Blank(r) && x != "" && !IsSpace(x[0]) && !IsSpace(x[|x| - 1])
    ensures TrimSpace(l + x + r) == x
  {
    assert l + x + r == l + (x + r);
    TrimFront(l, x + r);
    TrimBack(x, r);
  }

  lemma {:induction false} ItemEnds(item: Item)
    ensures ItemText(item) != "" && !IsSpace(ItemText(item)[0]) && !IsSpace(ItemText(item)[|ItemText(item)| - 1])
  {
    match item
    case Star =>
    case Single(n) => DigitEnds(n);
    case Span(a, b) =>
      DigitEnds(a);
      DigitEnds(b);
  }

  lemma {:induction false} BodyTrims(p: PartText)
    requires Padded(p)
    ensures TrimSpace(Text(p)) == Body(p)
  {
    ItemEnds(p.item);
    if p.step.Some? {
      DigitEnds(p.step.value);
    }
    TrimPadding(p.before, Body(p), p.after);
  }

  lemma {:induction false} SplitTwo(a: string, b: string, c: char)
    requires c !in a && c !in b
    ensures SplitOn(a + [c] + b, c) == [a, b] && c in a + [c] + b
  {
    SplitFirst(a, b, c);
    SplitNone(b, c);
    assert (a + [c] + b)[|a|] == c;
  }

  lemma {:induction false} NoSlash(item: Item)
    ensures '/' !in ItemText(item)
  {
    match item
    case Star =>
    case Single(n) => NotInDigits(n, '/');
    case Span(a, b) =>
      NotInDigits(a, '/');
      NotInDigits(b, '/');
  }

  lemma {:induction false} BodySplits(p: PartText)
    ensures RangeText(Body(p)) == ItemText(p.item)
    ensures StepOf(Body(p)) == if p.step.Some? then p.step.value else 1
  {
    NoSlash(p.item);
    if p.step.Some? {
      NotInDigits(p.step.value, '/');
      SplitTwo(ItemText(p.item), Itoa(p.step.value), '/');
      ReadWritten(p.step.value);
    }
  }

  lemma {:induction false} SpanReads(a: nat, b: nat, step: int, min: int, max: int)
    ensures ParseRange(ItemText(Span(a, b)), step, min, max) ==
      if min <= a <= b <= max then Good(Range(a, b, step)) else Bad
  {
    NotInDigits(a, '-');
    NotInDigits(b, '-');
    SplitTwo(Itoa(a), Itoa(b), '-');
    ReadWritten(a);
    ReadWritten(b);
    assert |ItemText(Span(a, b))| >= 2;
  }

  lemma {:induction false} SingleReads(n: nat, step: int, min: int, max: int)
    ensures ParseRange(ItemText(Single(n)), step, min, max) == if min <= n <= max then Good(Range(n, n, step)) else Bad
  {
    NotInDigits(n, '-');
    NotInDigits(n, '*');
    ReadWritten(n);
    assert Itoa(n) == "*" ==> '*' in Itoa(n);
  }

  /** The range a part stands for. */
  function RangeOf(p: PartText, min: int, max: int): Range {
    var step: int := if p.step.Some? then p.step.value else 1;
    match p.item
    case Star => Range(min, max, step)
    case Single(n) => Range(n, n, step)
    case Span(a, b) => Range(a, b, step)
  }

  lemma {:induction false} PartParses(p: PartText, min: int, max: int)
    requires Padded(p)
    ensures ParsePart(Text(p), min, max) == if Refused(p, min, max) then Bad else Good(RangeOf(p, min, max))
  {
    BodyTrims(p);
    BodySplits(p);
    match p.item
    case Star =>
    case Single(n) => SingleReads(n, StepOf(Body(p)), min, max);
    case Span(a, b) => SpanReads(a, b, StepOf(Body(p)), min, max);
  }

  lemma {:induction false} StepsReach(p: PartText, first: int, v: int)
    requires p.step != Some(0) && first <= v
    ensures Reaches(p, first, v) <==> (v - first) % (if p.step.Some? then p.step.value else 1) == 0
  {
    if p.step.Some? {
      var n := p.step.value;
      if (v - first) % n == 0 {
        var k: nat := (v - first) / n;
        assert v == first + k * n;
      }
      if Reaches(p, first, v) {
        var k: nat :| v == first + k * n;
        Whole(v - first, k, n);
      }
    }
  }

  lemma {:induction false} Whole(x: int, k: nat, n: nat)
    requires n > 0 && x == k * n
    ensures x % n == 0
  {
    Arithmetic.UniqueRemainder(x, n, k, 0);
  }

  lemma {:induction false} RangePicks(p: PartText, min: int, max: int, v: int)
    requires !Refused(p, min, max)
    ensures Selects(RangeOf(p, min, max), v) <==> Picks(p, min, max, v)
  {
    var r := RangeOf(p, min, max);
    if r.start <= v {
      StepsReach(p, r.start, v);
    }
  }

  // ---- Reading a field ----

  lemma {:induction false} NoComma(p: PartText)
    requires Padded(p)
    ensures ',' !in Text(p)
  {
    ItemChars(p.item, ',');
    if p.step.Some? {
      NotInDigits(p.step.value, ',');
    }
  }

  lemma {:induction false} ItemChars(item: Item, c: char)
    requires c == ','
    ensures c !in ItemText(item)
  {
    match item
    case Star =>
    case Single(n) => NotInDigits(n, c);
    case Span(a, b) =>
      NotInDigits(a, c);
      NotInDigits(b, c);
  }

  /** The texts of the parts, one by one. */
  ghost predicate Lists(parts: seq<string>, ps: seq<PartText>) {
    |parts| == |ps| && forall i :: 0 <= i < |ps| ==> parts[i] == Text(ps[i])
  }

  lemma {:induction false} ListsMore(x: string, rest: seq<string>, p: PartText, ps: seq<PartText>)
    requires x == Text(p) && Lists(rest, ps)
    ensures Lists([x] + rest, [p] + ps)
  {
  }

  ghost predicate AllPadded(ps: seq<PartText>) {
    forall i :: 0 <= i < |ps| ==> Padded(ps[i])
  }

  lemma {:induction false} PaddedInit(ps: seq<PartText>)
    requires AllPadded(ps) && ps != []
    ensures AllPadded(ps[..|ps| - 1]) && Padded(ps[|ps| - 1]) && ps == ps[..|ps| - 1] + [ps[|ps| - 1]]
  {
  }

  lemma {:induction false} ListsInit(parts: seq<string>, ps: seq<PartText>)
    requires Lists(parts, ps) && ps != []
    ensures Lists(parts[..|ps| - 1], ps[..|ps| - 1]) && parts[|ps| - 1] == Text(ps[|ps| - 1])
  {
  }

  lemma {:induction false} FieldSplits(ps: seq<PartText>)
    requires ps != [] && AllPadded(ps)
    ensures Lists(SplitOn(FieldText(ps), ','), ps)
  {
    NoComma(ps[0]);
    if |ps| == 1 {
      SplitNone(Text(ps[0]), ',');
    } else {
      FieldSplits(ps[1..]);
      SplitFirst(Text(ps[0]), FieldText(ps[1..]), ',');
      ListsMore(Text(ps[0]), SplitOn(FieldText(ps[1..]), ','), ps[0], ps[1..]);
      assert ps == [ps[0]] + ps[1..];
    }
  }

  /** Some part is refused. */
  ghost predicate AnyRefused(ps: seq<PartText>, min: int, max: int) {
    exists i :: 0 <= i < |ps| && Refused(ps[i], min, max)
  }

  ghost predicate AnyPicks(ps: seq<PartText>, min: int, max: int, v: int)
    requires !AnyRefused(ps, min, max)
  {
    exists i :: 0 <= i < |ps| && ps[i].step != Some(0) && Picks(ps[i], min, max, v)
  }

  lemma {:induction false} RefusedSnoc(ps: seq<PartText>, min: int, max: int)
    requires ps != []
    ensures AnyRefused(ps, min, max) <==> AnyRefused(ps[..|ps| - 1], min, max) || Refused(ps[|ps| - 1], min, max)
  {
    var n := |ps| - 1;
    assert forall i :: 0 <= i < n ==> ps[..n][i] == ps[i];
    if AnyRefused(ps[..n], min, max) {
      var i :| 0 <= i < n && Refused(ps[..n][i], min, max);
      assert Refused(ps[i], min, max);
    }
  }

  lemma {:induction false} PicksSnoc(ps: seq<PartText>, min: int, max: int, v: int)
    requires ps != [] && !AnyRefused(ps, min, max)
    ensures !AnyRefused(ps[..|ps| - 1], min, max) && !Refused(ps[|ps| - 1], min, max)
    ensures AnyPicks(ps, min, max, v) <==>
      AnyPicks(ps[..|ps| - 1], min, max, v) || Picks(ps[|ps| - 1], min, max, v)
  {
    var n := |ps| - 1;
    RefusedSnoc(ps, min, max);
    assert forall i :: 0 <= i < n ==> ps[..n][i] == ps[i];
    if AnyPicks(ps[..n], min, max, v) {
      var i :| 0 <= i < n && ps[..n][i].step != Some(0) && Picks(ps[..n][i], min, max, v);
      assert Picks(ps[i], min, max, v);
    }
  }

  /** The result is an error if `bad`, and otherwise has `v` if `picked`. */
  ghost predicate Reads(r: FieldResult, bad: bool, picked: bool, v: int) {
    (r.Invalid? <==> bad) && (r.Bits? ==> (v in r.bits <==> picked))
  }

  lemma {:induction false} FieldSnoc(
      parts: seq<string>, min: int, max: int, v: int, badBefore: bool, before: bool, bad: bool, range: Range)
    requires parts != [] && ParsePart(parts[|parts| - 1], min, max) == if bad then Bad else Good(range)
    requires Reads(FieldOf(parts[..|parts| - 1], min, max), badBefore, before, v)
    ensures !bad ==> range.step >= 1
    ensures Reads(FieldOf(parts, min, max), badBefore || bad, before || (!bad && Selects(range, v)), v)
  {
    GoodStep(parts[|parts| - 1], min, max);
  }

  ghost predicate Chosen(ps: seq<PartText>, min: int, max: int, v: int) {
    !AnyRefused(ps, min, max) && AnyPicks(ps, min, max, v)
  }

  lemma {:induction false} ChosenSnoc(ps: seq<PartText>, min: int, max: int, v: int)
    requires ps != [] && !AnyRefused(ps, min, max)
    ensures RangeOf(ps[|ps| - 1], min, max).step >= 1
    ensures Chosen(ps, min, max, v) <==>
      Chosen(ps[..|ps| - 1], min, max, v) || Selects(RangeOf(ps[|ps| - 1], min, max), v)
  {
    PicksSnoc(ps, min, max, v);
    RangePicks(ps[|ps| - 1], min, max, v);
  }

  lemma {:induction false} PartStep(
      parts: seq<string>, ps: seq<PartText>, p: PartText, front: seq<PartText>, min: int, max: int, v: int)
    requires ps == front + [p] && Padded(p) && parts != [] && parts[|parts| - 1] == Text(p)
    requires Reads(FieldOf(parts[..|parts| - 1], min, max), AnyRefused(front, min, max), Chosen(front, min, max, v), v)
    ensures Reads(FieldOf(parts, min, max), AnyRefused(ps, min, max), Chosen(ps, min, max, v), v)
  {
    assert ps[..|ps| - 1] == front && ps[|ps| - 1] == p;
    var badBefore, before := AnyRefused(front, min, max), Chosen(front, min, max, v);
    PartParses(p, min, max);
    FieldSnoc(parts, min, max, v, badBefore, before, Refused(p, min, max), RangeOf(p, min, max));
    RefusedSnoc(ps, min, max);
    if !AnyRefused(ps, min, max) {
      ChosenSnoc(ps, min, max, v);
    }
  }

  lemma {:induction false} PartsRead(parts: seq<string>, ps: seq<PartText>, min: int, max: int, v: int)
    requires Lists(parts, ps) && AllPadded(ps)
    ensures Reads(FieldOf(parts, min, max), AnyRefused(ps, min, max), Chosen(ps, min, max, v), v)
    decreases |ps|
  {
    if ps != [] {
      var n := |ps| - 1;
      ListsInit(parts, ps);
      PaddedInit(ps);
      PartsRead(parts[..n], ps[..n], min, max, v);
      PartStep(parts, ps, ps[n], ps[..n], min, max, v);
    }
  }

  /** Every field text is refused exactly if one of its parts is, and otherwise selects exactly what its parts pick. */
  lemma {:induction false} FieldReadsBack(ps: seq<PartText>, min: int, max: int, v: int)
    requires ps != [] && AllPadded(ps)
    ensures var r := FieldOf(SplitOn(FieldText(ps), ','), min, max);
      && (r.Invalid? <==> AnyRefused(ps, min, max))
      && (r.Bits? ==> (v in r.bits <==> AnyPicks(ps, min, max, v)))
  {
    FieldSplits(ps);
    PartsRead(SplitOn(FieldText(ps), ','), ps, min, max, v);
  }

  /** In particular a star alone selects all values, and a number alone just itself. */
  lemma {:induction false} StarAndNumber(min: int, max: int, n: nat, v: int)
    ensures var star := FieldOf(SplitOn("*", ','), min, max);
      star.Bits? && (v in star.bits <==> min <= v <= max)
    ensures var one := FieldOf(SplitOn(Itoa(n), ','), min, max);
      if min <= n <= max then one.Bits? && (v in one.bits <==> v == n) else one.Invalid?
  {
    var star, one := [PartText("", Star, None, "")], [PartText("", Single(n), None, "")];
    assert FieldText(star) == "*" && FieldText(one) == Itoa(n);
    FieldReadsBack(star, min, max, v);
    FieldReadsBack(one, min, max, v);
    assert !Refused(star[0], min, max) && (Picks(star[0], min, max, v) <==> min <= v <= max);
    assert Refused(one[0], min, max) <==> n < min || max < n;
    assert Picks(one[0], min, max, v) <==> v == n;
  }

  // ---- What else is accepted: nothing ----

  lemma {:induction false} SplitPieces(s: string, c: char)
    ensures forall i :: 0 <= i < |SplitOn(s, c)| ==> c !in SplitOn(s, c)[i]
    ensures |SplitOn(s, c)| == 1 ==> s == SplitOn(s, c)[0]
    ensures |SplitOn(s, c)| == 2 ==> s == SplitOn(s, c)[0] + [c] + SplitOn(s, c)[1]
  {
    if s != "" {
      SplitPieces(s[1..], c);
      var rest := SplitOn(s[1..], c);
      assert s == [s[0]] + s[1..];
    }
  }

  /** The text before any step stands for the range from `start` to `end`. */
  ghost predicate Spells(body: string, start: int, end: int, min: int, max: int) {
    if body == "*" then start == min && end == max
    else if '-' in body then
      min <= start <= end <= max && exists a, b :: body == a + ['-'] + b && SpellsBoth(a, b, start, end)
    else min <= start == end <= max && Atoi(body) == Index(start)
  }

  ghost predicate SpellsBoth(a: string, b: string, start: int, end: int) {
    '-' !in a && '-' !in b && Atoi(a) == Index(start) && Atoi(b) == Index(end)
  }

  /** Only stars, numbers and ranges within bounds are accepted, with no step or one slash and a positive number. */
  lemma {:induction false} AcceptedShape(text: string, min: int, max: int) returns (body: string, step: string)
    requires ParsePart(text, min, max).Good?
    ensures var r := ParsePart(text, min, max).range;
      && Spells(body, r.start, r.end, min, max) && r.step > 0 && '/' !in body && '/' !in step
      && ((TrimSpace(text) == body && r.step == 1)
          || (TrimSpace(text) == body + ['/'] + step && Atoi(step) == Index(r.step)))
  {
    var part := TrimSpace(text);
    SplitPieces(part, '/');
    body, step := RangeText(part), if '/' in part then SplitOn(part, '/')[1] else "";
    RangeShape(body, StepOf(part), min, max);
  }

  /** And all of these are, however their numbers are written. */
  lemma {:induction false} ShapeAccepted(
      text: string, body: string, step: string, start: int, end: int, k: int, min: int, max: int)
    requires Spells(body, start, end, min, max) && k > 0 && '/' !in body && '/' !in step
    requires (TrimSpace(text) == body && k == 1) || (TrimSpace(text) == body + ['/'] + step && Atoi(step) == Index(k))
    ensures ParsePart(text, min, max) == Good(Range(start, end, k))
  {
    var part := TrimSpace(text);
    assert StepOf(part) == k && RangeText(part) == body by {
      if '/' in part {
        SplitTwo(body, step, '/');
      } else {
        assert '/' in body + ['/'] + step by { assert (body + ['/'] + step)[|body|] == '/'; }
      }
    }
    RangeAccepted(body, start, end, k, min, max);
  }

  lemma {:induction false} RangeAccepted(body: string, start: int, end: int, k: int, min: int, max: int)
    requires Spells(body, start, end, min, max)
    ensures ParseRange(body, k, min, max) == Good(Range(start, end, k))
  {
    if body != "*" && '-' in body {
      var a, b :| body == a + ['-'] + b && SpellsBoth(a, b, start, end);
      SplitTwo(a, b, '-');
    }
  }

  lemma {:induction false} RangeShape(body: string, step: int, min: int, max: int)
    requires ParseRange(body, step, min, max).Good?
    ensures var r := ParseRange(body, step, min, max).range; r.step == step && Spells(body, r.start, r.end, min, max)
  {
    if body != "*" && '-' in body {
      SplitPieces(body, '-');
      var r, range := SplitOn(body, '-'), ParseRange(body, step, min, max).range;
      assert body == r[0] + ['-'] + r[1] && SpellsBoth(r[0], r[1], range.start, range.end);
    }
  }
}
