/** The task views' date classification. "Today" is a parameter instead of a
    read of the clock. A due date may be a date or a datetime; a datetime is
    first reduced to its date. */
module DateFilters {
  import opened Common

  datatype Temporal = DateValue(day: Date) | DateTimeValue(stamp: DateTime)

  function ToDate(v: Temporal): Date
  {
    match v
    case DateValue(d) => d
    case DateTimeValue(t) => DayOf(t)
  }

  /** "This week" reaches this many days past today. */
  const WeekDays: int := 7

  predicate IsToday(target: Option<Temporal>, today: Date)
  {
    match target
    case None => false
    case Some(v) => ToDate(v) == today
  }

  predicate IsThisWeek(target: Option<Temporal>, today: Date)
  {
    match target
    case None => false
    case Some(v) => today <= ToDate(v) <= today + WeekDays
  }

  predicate IsUpcoming(target: Option<Temporal>, today: Date)
  {
    match target
    case None => false
    case Some(v) => ToDate(v) > today + WeekDays
  }

  /** The category labels, in the order the classification tries them. */
  const Categories: seq<string> := ["no_due_date", "overdue", "today", "week", "upcoming"]

  function GetDateCategory(target: Option<Temporal>, today: Date): (r: string)
    ensures r in Categories
    ensures r == "no_due_date" <==> target.None?
    ensures r == "overdue" <==> target.Some? && ToDate(target.value) < today
    ensures r == "today" <==> target.Some? && ToDate(target.value) == today
    ensures r == "week" <==> target.Some? && today < ToDate(target.value) <= today + WeekDays
    ensures r == "upcoming" <==> target.Some? && ToDate(target.value) > today + WeekDays
  {
    if target.None? then "no_due_date"
    else if ToDate(target.value) < today then "overdue"
    else if IsToday(target, today) then "today"
    else if IsThisWeek(target, today) then "week"
    else "upcoming"
  }

  /** Without a due date no view matches. */
  lemma NoDateMatchesNoView(today: Date)
    ensures !IsToday(None, today) && !IsThisWeek(None, today) && !IsUpcoming(None, today)
  {
  }

  lemma TodayIsInThisWeek(target: Option<Temporal>, today: Date)
    ensures IsToday(target, today) ==> IsThisWeek(target, today)
  {
  }

  /** From today on, a date is either in this week or upcoming, never both. */
  lemma WeekOrUpcoming(target: Option<Temporal>, today: Date)
    requires target.Some? && ToDate(target.value) >= today
    ensures IsThisWeek(target, today) != IsUpcoming(target, today)
  {
  }

  /** Past dates and today are never upcoming. */
  lemma UpcomingIsLaterThanAWeek(target: Option<Temporal>, today: Date)
    requires target.Some? && ToDate(target.value) <= today + WeekDays
    ensures !IsUpcoming(target, today)
  {
  }

  /** A datetime is classified by the day it falls on. */
  lemma DateTimeClassifiedByDay(t: DateTime, today: Date)
    ensures IsToday(Some(DateTimeValue(t)), today) == IsToday(Some(DateValue(DayOf(t))), today)
    ensures IsThisWeek(Some(DateTimeValue(t)), today) == IsThisWeek(Some(DateValue(DayOf(t))), today)
    ensures IsUpcoming(Some(DateTimeValue(t)), today) == IsUpcoming(Some(DateValue(DayOf(t))), today)
  {
  }

  /** The days between `lo` and `lo + n - 1`. */
  function DaySpan(lo: Date, n: nat): (r: set<Date>)
    ensures |r| == n
    ensures forall d :: d in r <==> lo <= d < lo + n
  {
    if n == 0 then {}
    else
      var r := DaySpan(lo, n - 1) + {lo + n - 1};
      assert lo + n - 1 !in DaySpan(lo, n - 1);
      r
  }

  /** "This week" is exactly eight days: today and the seven after it. */
  lemma ThisWeekIsEightDays(today: Date)
    ensures forall d :: IsThisWeek(Some(DateValue(d)), today) <==> d in DaySpan(today, 8)
    ensures |DaySpan(today, 8)| == 8
  {
  }
}
