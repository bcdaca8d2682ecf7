/** The day of the year on which a time-zone rule takes effect, and fixing it for a single year. */
module MonthDayTime {
  import opened Civil
  import opened Weekdays

  /** A fixed day of a month, the last such weekday of a month, or such a weekday on or before or after a day. */
  datatype DaySpec =
    | MonthDay(month: int, day: int)
    | MonthLast(month: int, weekday: int)
    | OnOrBefore(month: int, day: int, weekday: int)
    | OnOrAfter(month: int, day: int, weekday: int)

  /** What the rule parser lets through: the day may exceed the month's length. */
  predicate SpecOk(s: DaySpec) {
    && 1 <= s.month <= 12
    && (!s.MonthLast? ==> 1 <= s.day <= 31)
    && (!s.MonthDay? ==> 0 <= s.weekday <= 6)
  }

  /** `MonthDayTime::to_sys_days` */
  function ToSysDays(s: DaySpec, y: int): int
    requires SpecOk(s)
  {
    match s
    case MonthDay(m, d) => ToDays(Date(y, m, d))
    case MonthLast(m, wd) => LastWeekdayToDays(y, m, wd)
    case OnOrBefore(m, d, wd) =>
      var x := ToDays(Date(y, m, d));
      x - WeekdayMinus(WeekdayFromDays(x), wd)
    case OnOrAfter(m, d, wd) =>
      var x := ToDays(Date(y, m, d));
      x + WeekdayMinus(wd, WeekdayFromDays(x))
  }

  /** `MonthDayTime::canonicalize`: what the fields become. */
  function Canonical(s: DaySpec, y: int): (c: DaySpec)
    requires SpecOk(s)
    ensures SpecOk(c)
  {
    if s.MonthDay? then s
    else var ymd := FromDays(ToSysDays(s, y)); MonthDay(ymd.month, ymd.day)
  }

  /** The weekday sought falls outside the year the search starts in. */
  predicate LeavesYear(s: DaySpec, y: int)
    requires SpecOk(s)
  {
    match s
    case MonthDay(_, _) => false
    case MonthLast(_, _) => false
    case OnOrBefore(m, d, wd) => m == 1 && d - WeekdayMinus(WeekdayFromDays(ToDays(Date(y, m, d))), wd) < 1
    case OnOrAfter(m, d, wd) => m == 12 && d + WeekdayMinus(wd, WeekdayFromDays(ToDays(Date(y, m, d)))) > 31
  }

  lemma AnyDayFits(y: int, m: int, d: int)
    requires YearOk(y) && 1 <= m <= 12 && 1 <= d <= 31
    ensures WeekdayFromDays(ToDays(Date(y, m, d))) == (ToDays(Date(y, m, d)) + 4) % 7
  {
    hide ToDays, WeekdayFromDays;
    DayStep(Date(y, m, d));
    DaysFit(Date(y, m, 1));
    WeekdayIsCyclic(ToDays(Date(y, m, d)));
  }

  /** The resolved day has the weekday sought and is the nearest such day on the side sought. */
  lemma ResolvesToNearest(s: DaySpec, y: int)
    requires SpecOk(s) && YearOk(y) && (s.OnOrBefore? || s.OnOrAfter?)
    ensures var x, days := ToDays(Date(y, s.month, s.day)), ToSysDays(s, y);
            && (days + 4) % 7 == s.weekday
            && if s.OnOrBefore? then x - 6 <= days <= x else x <= days <= x + 6
  {
    hide ToDays, WeekdayFromDays, WeekdayMinus;
    var x := ToDays(Date(y, s.month, s.day));
    AnyDayFits(y, s.month, s.day);
    if s.OnOrBefore? {
      WeekdayMinusIsCyclic(WeekdayFromDays(x), s.weekday);
      CyclicDistance(x, s.weekday, x - ToSysDays(s, y), 0);
    } else {
      WeekdayMinusIsCyclic(s.weekday, WeekdayFromDays(x));
      CyclicDistanceForward(x, s.weekday, ToSysDays(s, y) - x);
    }
  }

  /** A last weekday resolves to a day of the month, of that weekday, among the month's last seven. */
  lemma LastWeekdayResolves(m: int, weekday: int, y: int)
    requires SpecOk(MonthLast(m, weekday)) && YearOk(y)
    ensures var days := ToSysDays(MonthLast(m, weekday), y);
            var d := FromDays(days);
            && d.year == y && d.month == m && d.day + 7 > LastDay(y, m)
            && (days + 4) % 7 == weekday
  {
    hide ToDays, FromDays, WeekdayFromDays, LastWeekdayToDays;
    LastWeekdayIsLatest(y, m, weekday);
    WeekdayOf(FromDays(ToSysDays(MonthLast(m, weekday), y)));
  }

  /** A fixed day resolves to itself, if the month has it, and in any case to a day of the year. */
  lemma FixedDayResolves(m: int, d: int, y: int)
    requires SpecOk(MonthDay(m, d))
    ensures var date := FromDays(ToSysDays(MonthDay(m, d), y));
            date.year == y && (Ok(Date(y, m, d)) ==> date == Date(y, m, d))
  {
    hide ToDays, FromDays;
    var days := ToDays(Date(y, m, d));
    DayStep(Date(y, m, d));
    MonthsGrow(y, 1, m);
    MonthsGrow(y, m, 12);
    MonthStep(y, 12);
    DayYear(days, y);
    if Ok(Date(y, m, d)) {
      FromDaysInvertsToDays(Date(y, m, d));
    }
  }

  lemma ResolvedYear(s: DaySpec, y: int)
    requires SpecOk(s) && YearOk(y) && !s.MonthDay?
    ensures FromDays(ToSysDays(s, y)).year == y <==> !LeavesYear(s, y)
  {
    hide ToDays, FromDays, WeekdayFromDays, WeekdayMinus, LastWeekdayToDays;
    if s.MonthLast? {
      LastWeekdayIsLatest(y, s.month, s.weekday);
    } else {
      ResolvesToNearest(s, y);
      DayStep(Date(y, s.month, s.day));
      MonthsGrow(y, 1, s.month);
      MonthsGrow(y, s.month, 12);
      if s.month > 1 { MonthsGrow(y, 2, s.month); MonthStep(y, 1); }
      if s.month < 12 { MonthsGrow(y, s.month, 11); MonthStep(y, 11); }
      MonthStep(y, 12);
      DayYear(ToSysDays(s, y), y);
    }
  }

  lemma DayYear(days: int, y: int)
    ensures FromDays(days).year == y <==> ToDays(Date(y, 1, 1)) <= days < ToDays(Date(y + 1, 1, 1))
  {
    hide ToDays, FromDays;
    WithinYear(FromDays(days));
    if ToDays(Date(y, 1, 1)) <= days < ToDays(Date(y + 1, 1, 1)) {
      YearOfDay(days, y);
    }
  }

  /**
   * Fixing a rule's day for a year keeps the day it stands for in that year, unless the weekday sought falls into a
   * neighbouring year: then the year is lost and the day changes.
   */
  lemma CanonicalKeepsDay(s: DaySpec, y: int)
    requires SpecOk(s) && YearOk(y)
    ensures ToSysDays(Canonical(s, y), y) == ToSysDays(s, y) <==> !LeavesYear(s, y)
  {
    hide ToDays, FromDays, WeekdayFromDays, WeekdayMinus, LastWeekdayToDays;
    if !s.MonthDay? {
      ResolvedYear(s, y);
      var ymd := FromDays(ToSysDays(s, y));
      if ymd.year != y {
        SameDayOtherYear(ymd, y, s);
      }
    }
  }

  /** The canonical form is a fixed day, and in the year the search ends in it is exactly the day found. */
  lemma CanonicalNamesTheDay(s: DaySpec, y: int)
    requires SpecOk(s)
    ensures Canonical(s, y).MonthDay?
    ensures ToSysDays(Canonical(s, y), FromDays(ToSysDays(s, y)).year) == ToSysDays(s, y)
  {
    if s.MonthDay? {
      FixedDayResolves(s.month, s.day, y);
    }
  }

  lemma SameDayOtherYear(ymd: Date, y: int, s: DaySpec)
    requires Ok(ymd) && ymd.year != y
    ensures ToDays(Date(y, ymd.month, ymd.day)) != ToDays(ymd)
  {
    hide ToDays;
    DayStep(Date(y, ymd.month, ymd.day));
    DayStep(ymd);
    FirstsDiffer(y, ymd.year, ymd.month);
  }

  lemma FirstsDiffer(y: int, w: int, m: int)
    requires y != w && 1 <= m <= 12
    ensures ToDays(Date(y, m, 1)) != ToDays(Date(w, m, 1))
  {
    if y < w {
      ToDaysIsMonotone(Date(y, m, 1), Date(w, m, 1));
    } else {
      ToDaysIsMonotone(Date(w, m, 1), Date(y, m, 1));
    }
  }

  /** The year is lost, for example, for the Tuesday on or after December 30 of 2007, which was New Year's Day. */
  lemma CanonicalCanMoveTheDay()
    ensures LeavesYear(OnOrAfter(12, 30, 2), 2007)
    ensures ToSysDays(OnOrAfter(12, 30, 2), 2007) == ToDays(Date(2008, 1, 1))
    ensures ToSysDays(Canonical(OnOrAfter(12, 30, 2), 2007), 2007) == ToDays(Date(2007, 1, 1))
  {
    hide FromDays;
    assert ToDays(Date(2007, 12, 30)) == 13877;
    assert ToDays(Date(2008, 1, 1)) == 13879;
    assert WeekdayFromDays(13877) == 0;
    FromDaysInvertsToDays(Date(2008, 1, 1));
  }

  lemma CanonicalIsIdempotent(s: DaySpec, y: int)
    requires SpecOk(s)
    ensures Canonical(Canonical(s, y), y) == Canonical(s, y)
  {}

  class MonthDayTime {
    var spec: DaySpec

    constructor (spec: DaySpec)
      ensures this.spec == spec
    {
      this.spec := spec;
    }

    method Canonicalize(y: int)
      requires SpecOk(spec)
      modifies this
      ensures spec == Canonical(old(spec), y) && spec.MonthDay?
      ensures ToSysDays(spec, FromDays(ToSysDays(old(spec), y)).year) == ToSysDays(old(spec), y)
    {
      hide FromDays, ToDays, WeekdayFromDays, WeekdayMinus, LastWeekdayToDays, LastDay, IsLeap, Ok;
      CanonicalNamesTheDay(spec, y);
      match spec
      case MonthDay(_, _) =>
      case MonthLast(m, wd) =>
        var ymd := FromDays(LastWeekdayToDays(y, m, wd));
        spec := MonthDay(ymd.month, ymd.day);
      case OnOrBefore(m, d, wd) =>
        var x := ToDays(Date(y, m, d));
        var ymd := FromDays(x - WeekdayMinus(WeekdayFromDays(x), wd));
        spec := MonthDay(ymd.month, ymd.day);
      case OnOrAfter(m, d, wd) =>
        var x := ToDays(Date(y, m, d));
        var ymd := FromDays(x + WeekdayMinus(wd, WeekdayFromDays(x)));
        spec := MonthDay(ymd.month, ymd.day);
    }
  }
}
