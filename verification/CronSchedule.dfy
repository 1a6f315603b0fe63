/**
 Cron expressions as written: five field texts between white space, and the times they stand for.
 */
module CronSchedule {
  import opened Calendar
  import opened CronField
  import opened CronNext
  import opened CronText
  import opened Options

  // ---- Words ----

  /** `strings.Fields`: the maximal runs of characters other than white space. */
  function Words(s: string): seq<string>
    decreases |s|
  {
    if s == "" then []
    else if IsSpace(s[0]) then Words(s[1..])
    else [s[..RunEnd(s)]] + Words(s[RunEnd(s)..])
  }

  function RunEnd(s: string): (n: nat)
    ensures n <= |s| && (s != "" && !IsSpace(s[0]) ==> n > 0)
    ensures forall i :: 0 <= i < n ==> !IsSpace(s[i])
    ensures n < |s| ==> IsSpace(s[n])
  {
    if s == "" || IsSpace(s[0]) then 0 else RunEnd(s[1..]) + 1
  }

  ghost predicate Solid(s: string) {
    s != "" && forall i :: 0 <= i < |s| ==> !IsSpace(s[i])
  }

  lemma {:induction false} SkipBlank(b: string, s: string)
    requires Blank(b)
    ensures Words(b + s) == Words(s)
  {
    if b == "" {
      assert b + s == s;
    } else {
      assert (b + s)[0] == b[0] && (b + s)[1..] == b[1..] + s;
      SkipBlank(b[1..], s);
    }
  }

  lemma {:induction false} FirstWord(w: string, s: string)
    requires Solid(w) && (s == "" || IsSpace(s[0]))
    ensures Words(w + s) == [w] + Words(s)
  {
    var t := w + s;
    var n := RunEnd(t);
    assert t[0] == w[0];
    assert forall i :: 0 <= i < |w| ==> t[i] == w[i];
    assert s != "" ==> t[|w|] == s[0];
    assert t[..n] == w && t[n..] == s;
  }

  /** Words written one after the other, each after its white space. */
  function Written(words: seq<string>, gaps: seq<string>, end: string): string
    requires |gaps| == |words|
  {
    if words == [] then end else gaps[0] + words[0] + Written(words[1..], gaps[1..], end)
  }

  /** Words must be separated, but need nothing in front. */
  ghost predicate Separated(words: seq<string>, gaps: seq<string>, end: string) {
    && |gaps| == |words| && Blank(end) && (forall i :: 0 <= i < |words| ==> Solid(words[i]))
    && (forall i :: 0 <= i < |gaps| ==> Blank(gaps[i])) && (forall i :: 0 < i < |gaps| ==> gaps[i] != "")
  }

  lemma {:induction false} WordsWritten(words: seq<string>, gaps: seq<string>, end: string)
    requires Separated(words, gaps, end)
    ensures Words(Written(words, gaps, end)) == words
  {
    if words == [] {
      SkipBlank(end, "");
      assert end + "" == end;
    } else {
      var rest := Written(words[1..], gaps[1..], end);
      WordsWritten(words[1..], gaps[1..], end);
      if |words| > 1 {
        assert rest[0] == gaps[1][0];
      }
      FirstWord(words[0], rest);
      SkipBlank(gaps[0], words[0] + rest);
      assert gaps[0] + words[0] + rest == gaps[0] + (words[0] + rest);
      assert words == [words[0]] + words[1..];
    }
  }

  // ---- Expressions ----

  datatype Parsed = BadExpression | Parsed(e: Expression)

  function Parse(spec: string): Parsed {
    var parts := Words(spec);
    if |parts| != 5 then BadExpression
    else
      var fields := (
        FieldOf(SplitOn(parts[0], ','), 0, 59), FieldOf(SplitOn(parts[1], ','), 0, 23),
        FieldOf(SplitOn(parts[2], ','), 1, 31), FieldOf(SplitOn(parts[3], ','), 1, 12),
        FieldOf(SplitOn(parts[4], ','), 0, 6));
      match fields
      case (Bits(minutes), Bits(hours), Bits(dom), Bits(months), Bits(dow)) =>
        Parsed(Expression(minutes, hours, dom, months, dow))
      case _ => BadExpression
  }

  method ParseExpression(spec: string) returns (r: Parsed)
    ensures r == Parse(spec)
  {
    var parts := Words(spec);
    if |parts| != 5 {
      return BadExpression;
    }
    var minutes := ParseField(parts[0], 0, 59);
    if minutes.Invalid? {
      return BadExpression;
    }
    var hours := ParseField(parts[1], 0, 23);
    if hours.Invalid? {
      return BadExpression;
    }
    var dom := ParseField(parts[2], 1, 31);
    if dom.Invalid? {
      return BadExpression;
    }
    var months := ParseField(parts[3], 1, 12);
    if months.Invalid? {
      return BadExpression;
    }
    var dow := ParseField(parts[4], 0, 6);
    if dow.Invalid? {
      return BadExpression;
    }
    r := Parsed(Expression(minutes.bits, hours.bits, dom.bits, months.bits, dow.bits));
  }

  // ---- Meaning ----

  /** Five fields as written: minute, hour, day of month, month, day of week. */
  datatype Spec = Spec(minutes: seq<PartText>, hours: seq<PartText>, dom: seq<PartText>, months: seq<PartText>,
                       dow: seq<PartText>)

  ghost predicate Bare(ps: seq<PartText>) {
    ps != [] && forall i :: 0 <= i < |ps| ==> ps[i].before == "" && ps[i].after == ""
  }

  ghost predicate AllBare(s: Spec) {
    Bare(s.minutes) && Bare(s.hours) && Bare(s.dom) && Bare(s.months) && Bare(s.dow)
  }

  function WordsOf(s: Spec): (w: seq<string>)
    requires s.minutes != [] && s.hours != [] && s.dom != [] && s.months != [] && s.dow != []
    ensures |w| == 5
  {
    [FieldText(s.minutes), FieldText(s.hours), FieldText(s.dom), FieldText(s.months), FieldText(s.dow)]
  }

  ghost predicate SpecRefused(s: Spec) {
    || AnyRefused(s.minutes, 0, 59) || AnyRefused(s.hours, 0, 23) || AnyRefused(s.dom, 1, 31)
    || AnyRefused(s.months, 1, 12) || AnyRefused(s.dow, 0, 6)
  }

  /** The minute is one the five fields name; the day must be right by date and by weekday. */
  ghost predicate Named(s: Spec, c: Civil)
    requires Valid(c) && !SpecRefused(s)
  {
    && AnyPicks(s.minutes, 0, 59, c.minute) && AnyPicks(s.hours, 0, 23, c.hour) && AnyPicks(s.dom, 1, 31, c.day)
    && AnyPicks(s.months, 1, 12, c.month) && AnyPicks(s.dow, 0, 6, Weekday(c))
  }

  lemma {:induction false} SolidText(ps: seq<PartText>)
    requires Bare(ps)
    ensures Solid(FieldText(ps))
  {
    SolidPart(ps[0]);
    if |ps| > 1 {
      SolidText(ps[1..]);
    }
  }

  lemma {:induction false} SolidPart(p: PartText)
    requires p.before == "" && p.after == ""
    ensures Solid(Text(p))
  {
    assert Text(p) == Body(p);
    SolidItem(p.item);
    if p.step.Some? {
      SolidNumber(p.step.value);
    }
  }

  lemma {:induction false} SolidItem(item: Item)
    ensures Solid(ItemText(item))
  {
    match item
    case Star =>
    case Single(n) => SolidNumber(n);
    case Span(a, b) =>
      SolidNumber(a);
      SolidNumber(b);
  }

  lemma {:induction false} SolidNumber(n: nat)
    ensures Solid(Decimal.Itoa(n))
  {
    DigitEnds(n);
    forall i | 0 <= i < |Decimal.Itoa(n)| ensures !IsSpace(Decimal.Itoa(n)[i]) {
      if IsSpace(Decimal.Itoa(n)[i]) {
        NotInDigits(n, Decimal.Itoa(n)[i]);
      }
    }
  }

  lemma {:induction false} FiresIff(e: Expression, c: Civil)
    requires Valid(c)
    ensures Fires(e, c) <==>
      && c.minute in e.minutes && c.hour in e.hours && c.day in e.dom && c.month in e.months
      && Weekday(c) in e.dow
  {
  }

  lemma {:induction false} SpecSeparated(s: Spec, gaps: seq<string>, end: string)
    requires AllBare(s) && Gaps(gaps, end)
    ensures Separated(WordsOf(s), gaps, end)
  {
    SolidText(s.minutes);
    SolidText(s.hours);
    SolidText(s.dom);
    SolidText(s.months);
    SolidText(s.dow);
  }

  /** White space in front of each field, needed between them, and at the end. */
  ghost predicate Gaps(gaps: seq<string>, end: string) {
    && |gaps| == 5 && Blank(end)
    && (forall i :: 0 <= i < 5 ==> Blank(gaps[i])) && (forall i :: 0 < i < 5 ==> gaps[i] != "")
  }

  /** Every expression text is refused exactly if one of its fields is, and otherwise fires exactly when it says. */
  lemma {:induction false} ScheduleMeans(s: Spec, gaps: seq<string>, end: string, c: Civil)
    requires AllBare(s) && Gaps(gaps, end) && Valid(c)
    ensures var r := Parse(Written(WordsOf(s), gaps, end));
      && (r.BadExpression? <==> SpecRefused(s))
      && (r.Parsed? ==> (Fires(r.e, c) <==> Named(s, c)))
  {
    SpecSeparated(s, gaps, end);
    WordsWritten(WordsOf(s), gaps, end);
    FieldReadsBack(s.minutes, 0, 59, c.minute);
    FieldReadsBack(s.hours, 0, 23, c.hour);
    FieldReadsBack(s.dom, 1, 31, c.day);
    FieldReadsBack(s.months, 1, 12, c.month);
    FieldReadsBack(s.dow, 0, 6, Weekday(c));
    var r := Parse(Written(WordsOf(s), gaps, end));
    if r.Parsed? {
      FiresIff(r.e, c);
    }
  }

  /** What the search returns for an expression text is the next minute the text names, or there is none in time. */
  lemma {:induction false} NextIsNamed(
      s: Spec, gaps: seq<string>, end: string, e: Expression, after: Civil, until: Civil)
    requires AllBare(s) && Gaps(gaps, end) && Parse(Written(WordsOf(s), gaps, end)) == Parsed(e)
    requires Valid(after) && Valid(until) && Silent(e, after, until)
    ensures !SpecRefused(s) && (Fires(e, until) <==> Named(s, until))
    ensures forall x :: Valid(x) && Minutes(after) < Minutes(x) < Minutes(until) ==> !Named(s, x)
  {
    ScheduleMeans(s, gaps, end, until);
    forall x | Valid(x) && Minutes(after) < Minutes(x) < Minutes(until) ensures !Named(s, x) {
      ScheduleMeans(s, gaps, end, x);
    }
  }

  /** Any number of words but five is refused. */
  lemma {:induction false} FiveWords(words: seq<string>, gaps: seq<string>, end: string)
    requires Separated(words, gaps, end) && |words| != 5
    ensures Parse(Written(words, gaps, end)).BadExpression?
  {
    WordsWritten(words, gaps, end);
  }
}
