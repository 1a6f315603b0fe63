/**
 The next time a cron expression matches: a search that jumps over months, days and hours, proved to
 return the earliest matching minute. A field's bit set is the set of its bit numbers.
 */
module CronNext {
  import opened Calendar
  import opened Options

  type Field = set<int>

  predicate Matches(f: Field, v: int) {
    0 <= v <= 63 && v in f
  }

  datatype Expression = Expression(minutes: Field, hours: Field, dom: Field, months: Field, dow: Field)

  /** All five fields match; day of month and day of week must both. */
  predicate Fires(e: Expression, c: Civil)
    requires Valid(c)
  {
    && Matches(e.months, c.month) && Matches(e.dom, c.day) && Matches(e.dow, Weekday(c))
    && Matches(e.hours, c.hour) && Matches(e.minutes, c.minute)
  }

  /** No minute after `from` and before `to` fires. */
  ghost predicate Silent(e: Expression, from: Civil, until: Civil)
    requires Valid(from) && Valid(until)
  {
    forall x :: Valid(x) && Minutes(from) < Minutes(x) < Minutes(until) ==> !Fires(e, x)
  }

  /** The minutes from `t` up to `next` do not fire if those that share what `next` jumps over do not. */
  lemma {:induction false} SilentOn(e: Expression, from: Civil, t: Civil, next: Civil)
    requires Valid(from) && Valid(t) && Valid(next) && Silent(e, from, t)
    requires forall x :: Valid(x) && !Earlier(x, t) && Earlier(x, next) ==> !Fires(e, x)
    ensures Silent(e, from, next)
  {
    forall x | Valid(x) && Minutes(from) < Minutes(x) < Minutes(next) ensures !Fires(e, x) {
      OrderIff(x, next);
      OrderIff(x, t);
    }
  }

  lemma {:induction false} SkipMonth(e: Expression, from: Civil, t: Civil)
    requires Valid(from) && Valid(t) && Silent(e, from, t) && !Matches(e.months, t.month)
    ensures Valid(NextMonth(t)) && Silent(e, from, NextMonth(t)) && Minutes(t) < Minutes(NextMonth(t))
  {
    MonthJump(t, t);
    OrderIff(t, NextMonth(t));
    forall x | Valid(x) && !Earlier(x, t) && Earlier(x, NextMonth(t)) ensures !Fires(e, x) { MonthJump(t, x); }
    SilentOn(e, from, t, NextMonth(t));
  }

  lemma {:induction false} SkipDay(e: Expression, from: Civil, t: Civil)
    requires Valid(from) && Valid(t) && Silent(e, from, t) && (!Matches(e.dom, t.day) || !Matches(e.dow, Weekday(t)))
    ensures Valid(NextDay(t)) && Silent(e, from, NextDay(t)) && Minutes(t) < Minutes(NextDay(t))
  {
    DayJump(t, t);
    OrderIff(t, NextDay(t));
    forall x | Valid(x) && !Earlier(x, t) && Earlier(x, NextDay(t)) ensures !Fires(e, x) { DayJump(t, x); }
    SilentOn(e, from, t, NextDay(t));
  }

  lemma {:induction false} SkipHour(e: Expression, from: Civil, t: Civil)
    requires Valid(from) && Valid(t) && Silent(e, from, t) && !Matches(e.hours, t.hour)
    ensures Valid(NextHour(t)) && Silent(e, from, NextHour(t)) && Minutes(t) < Minutes(NextHour(t))
  {
    HourJump(t, t);
    OrderIff(t, NextHour(t));
    forall x | Valid(x) && !Earlier(x, t) && Earlier(x, NextHour(t)) ensures !Fires(e, x) { HourJump(t, x); }
    SilentOn(e, from, t, NextHour(t));
  }

  lemma {:induction false} SkipMinute(e: Expression, from: Civil, t: Civil)
    requires Valid(from) && Valid(t) && Silent(e, from, t) && !Fires(e, t)
    ensures Valid(NextMinute(t)) && Silent(e, from, NextMinute(t)) && Minutes(t) < Minutes(NextMinute(t))
  {
    MinuteJump(t, t);
    OrderIff(t, NextMinute(t));
    forall x | Valid(x) && !Earlier(x, t) && Earlier(x, NextMinute(t)) ensures !Fires(e, x) { MinuteJump(t, x); }
    SilentOn(e, from, t, NextMinute(t));
  }

  /**
   The least minute strictly after `after` and before the limit of five years that fires, or none if there
   is none. `after` is the minute that contains the given instant.
   */
  method Next(e: Expression, after: Civil) returns (r: Option<Civil>)
    requires Valid(after)
    ensures Valid(NextMinute(after)) && Valid(FiveYears(NextMinute(after)))
    ensures r.Some? ==> Valid(r.value) && Fires(e, r.value)
    ensures r.Some? ==> Minutes(after) < Minutes(r.value) < Minutes(FiveYears(NextMinute(after)))
    ensures r.Some? ==> Silent(e, after, r.value)
    ensures r.None? ==> Silent(e, after, FiveYears(NextMinute(after)))
  {
    MinuteStep(after);
    var t := NextMinute(after);
    FiveYearsValid(t);
    var limit := FiveYears(t);
    while Minutes(t) < Minutes(limit)
      invariant Valid(t) && Minutes(after) < Minutes(t) && Silent(e, after, t)
      decreases Minutes(limit) - Minutes(t)
    {
      if !Matches(e.months, t.month) {
        SkipMonth(e, after, t);
        t := NextMonth(t);
      } else if !Matches(e.dom, t.day) || !Matches(e.dow, Weekday(t)) {
        SkipDay(e, after, t);
        t := NextDay(t);
      } else if !Matches(e.hours, t.hour) {
        SkipHour(e, after, t);
        t := NextHour(t);
      } else if !Matches(e.minutes, t.minute) {
        SkipMinute(e, after, t);
        t := NextMinute(t);
      } else {
        return Some(t);
      }
    }
    Shrink(e, after, t, limit);
    r := None;
  }

  lemma {:induction false} Shrink(e: Expression, from: Civil, t: Civil, limit: Civil)
    requires Valid(from) && Valid(t) && Valid(limit) && Silent(e, from, t) && Minutes(limit) <= Minutes(t)
    ensures Silent(e, from, limit)
  {
  }

  /** The answer is unique: two earliest firing minutes are the same. */
  lemma {:induction false} EarliestUnique(e: Expression, after: Civil, a: Civil, b: Civil)
    requires Valid(after) && Valid(a) && Valid(b) && Fires(e, a) && Fires(e, b)
    requires Minutes(after) < Minutes(a) && Minutes(after) < Minutes(b) && Silent(e, after, a) && Silent(e, after, b)
    ensures a == b
  {
    OrderIff(a, b);
  }
}
