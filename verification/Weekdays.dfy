/** Days of the week: of a date, n-th and last of a month, and the ISO week date. */
module Weekdays {
  import opened Civil

  const MONDAY := 1
  const THURSDAY := 4

  /** The years a `date::year` can hold. */
  predicate YearOk(y: int) {
    -32767 <= y <= 32767
  }

  predicate Int32(z: int) {
    -0x8000_0000 <= z < 0x8000_0000
  }

  function Unsigned(z: int): int {
    z % 0x1_0000_0000
  }

  /** `weekday_from_days`, in 32-bit unsigned arithmetic. */
  function WeekdayFromDays(z: int): int {
    var u := Unsigned(z);
    if z >= -4 then Unsigned(u + 4) % 7 else u % 7
  }

  /** The wrap-around does no harm: day 0 is a Thursday and the weekdays take turns, for every 32-bit day number. */
  lemma WeekdayIsCyclic(z: int)
    requires Int32(z)
    ensures WeekdayFromDays(z) == (z + 4) % 7
  {
    if z < 0 { assert Unsigned(z) == z + 0x1_0000_0000; }
  }

  /** The days from weekday y forward to weekday x. */
  function WeekdayMinus(x: int, y: int): int {
    var wdu := x - y;
    var wk := TruncDiv(if wdu >= 0 then wdu else wdu - 6, 7);
    wdu - wk * 7
  }

  lemma WeekdayMinusIsCyclic(x: int, y: int)
    ensures WeekdayMinus(x, y) == (x - y) % 7
  {}

  /** Day numbers of representable years are far from the limits of 32-bit integers. */
  lemma DaysFit(d: Date)
    requires Ok(d) && YearOk(d.year)
    ensures -13_000_000 < ToDays(d) < 13_000_000
  {
    hide ToDays;
    assert ToDays(Date(1970, 1, 1)) == 0 by { ToDaysSplits(Date(1970, 1, 1)); }
    WithinYear(d);
    if d.year < 1970 {
      YearsGrow(d.year, 1970);
      YearLength(d.year);
    } else {
      YearsGrow(1970, d.year);
      YearLength(d.year);
    }
  }

  lemma WeekdayOf(d: Date)
    requires Ok(d) && YearOk(d.year)
    ensures WeekdayFromDays(ToDays(d)) == (ToDays(d) + 4) % 7
  {
    DaysFit(d);
    WeekdayIsCyclic(ToDays(d));
  }

  // ---- The n-th weekday of a month ----

  /** The index-th given weekday of a month. */
  datatype MonthWeekday = MonthWeekday(year: int, month: int, weekday: int, index: int)

  function DayOfIndexed(x: MonthWeekday): int
    requires 1 <= x.month <= 12
  {
    WeekdayMinus(x.weekday, WeekdayFromDays(ToDays(Date(x.year, x.month, 1)))) + (x.index - 1) * 7 + 1
  }

  /** `year_month_weekday::ok` */
  predicate IndexedOk(x: MonthWeekday) {
    && YearOk(x.year) && 1 <= x.month <= 12 && 0 <= x.weekday <= 6 && x.index >= 1
    && (x.index <= 4 || DayOfIndexed(x) <= LastDay(x.year, x.month))
  }

  /** `year_month_weekday::from_days` */
  function IndexedFromDays(days: int): MonthWeekday {
    var ymd := FromDays(days);
    MonthWeekday(ymd.year, ymd.month, WeekdayFromDays(days), (ymd.day - 1) / 7 + 1)
  }

  /** `year_month_weekday::to_days` */
  function IndexedToDays(x: MonthWeekday): int
    requires 1 <= x.month <= 12
  {
    var d := ToDays(Date(x.year, x.month, 1));
    d + WeekdayMinus(x.weekday, WeekdayFromDays(d)) + (x.index - 1) * 7
  }

  /** A valid indexed weekday names a day of its month that has that weekday, in the index-th group of seven. */
  lemma IndexedIsInMonth(x: MonthWeekday)
    requires IndexedOk(x)
    ensures var date := Date(x.year, x.month, DayOfIndexed(x));
            && Ok(date) && ToDays(date) == IndexedToDays(x)
            && WeekdayFromDays(IndexedToDays(x)) == x.weekday
            && 7 * (x.index - 1) < date.day <= 7 * x.index
  {
    hide ToDays, WeekdayFromDays, WeekdayMinus;
    var first := Date(x.year, x.month, 1);
    WeekdayOf(first);
    WeekdayMinusIsCyclic(x.weekday, WeekdayFromDays(ToDays(first)));
    var date := Date(x.year, x.month, DayOfIndexed(x));
    DayStep(date);
    WeekdayOf(date);
  }

  /** Every day is the index-th of its weekday in its month, and comes back from that description. */
  lemma IndexedRoundTrip(days: int)
    requires YearOk(FromDays(days).year)
    ensures var x := IndexedFromDays(days);
            IndexedOk(x) && 1 <= x.index <= 5 && IndexedToDays(x) == days
  {
    hide ToDays, FromDays, WeekdayFromDays, WeekdayMinus;
    var ymd := FromDays(days);
    var first := Date(ymd.year, ymd.month, 1);
    DayStep(ymd);
    WeekdayOf(first);
    WeekdayOf(ymd);
    WeekdayMinusIsCyclic(WeekdayFromDays(days), WeekdayFromDays(ToDays(first)));
    SevenDayGroups(ymd.day, ToDays(first));
  }

  lemma SevenDayGroups(day: int, first: int)
    requires day >= 1
    ensures (((first + day - 1 + 4) % 7 - (first + 4) % 7) % 7) + (day - 1) / 7 * 7 == day - 1
  {}

  /** Conversely every valid indexed weekday comes back from its day. */
  lemma IndexedInverse(x: MonthWeekday)
    requires IndexedOk(x)
    ensures IndexedFromDays(IndexedToDays(x)) == x
  {
    hide ToDays, FromDays, WeekdayFromDays, WeekdayMinus;
    IndexedIsInMonth(x);
    FromDaysInvertsToDays(Date(x.year, x.month, DayOfIndexed(x)));
  }

  // ---- The last weekday of a month ----

  /** `year_month_weekday_last::to_days` */
  function LastWeekdayToDays(y: int, m: int, weekday: int): int
    requires 1 <= m <= 12
  {
    var d := ToDays(Date(y, m, LastDay(y, m)));
    d - WeekdayMinus(WeekdayFromDays(d), weekday)
  }

  /** Seven days in a row have seven weekdays. */
  lemma CyclicDistance(last: int, weekday: int, back: int, k: int)
    requires 0 <= weekday <= 6 && back == ((last + 4) % 7 - weekday) % 7
    ensures 0 <= back <= 6 && (last - back + 4) % 7 == weekday
    ensures 0 <= k < back ==> (last - k + 4) % 7 != weekday
  {}

  lemma CyclicDistanceForward(first: int, weekday: int, forward: int)
    requires 0 <= weekday <= 6 && forward == (weekday - (first + 4) % 7) % 7
    ensures 0 <= forward <= 6 && (first + forward + 4) % 7 == weekday
  {}

  /** The last such weekday: in the month, of that weekday, and with no later day of the month like it. */
  lemma LastWeekdayIsLatest(y: int, m: int, weekday: int)
    requires YearOk(y) && 1 <= m <= 12 && 0 <= weekday <= 6
    ensures var days := LastWeekdayToDays(y, m, weekday);
            var last := ToDays(Date(y, m, LastDay(y, m)));
            && FromDays(days) == Date(y, m, LastDay(y, m) - (last - days))
            && last - 6 <= days <= last
            && WeekdayFromDays(days) == weekday
            && (forall later | days < later <= last :: WeekdayFromDays(later) != weekday)
  {
    hide ToDays, FromDays, WeekdayFromDays, WeekdayMinus;
    var lastDate := Date(y, m, LastDay(y, m));
    var last := ToDays(lastDate);
    WeekdayOf(lastDate);
    WeekdayMinusIsCyclic(WeekdayFromDays(last), weekday);
    var days := LastWeekdayToDays(y, m, weekday);
    CyclicDistance(last, weekday, last - days, 0);
    var date := Date(y, m, LastDay(y, m) - (last - days));
    DayStep(date);
    DayStep(lastDate);
    FromDaysInvertsToDays(date);
    WeekdayOf(date);
    forall later | days < later <= last ensures WeekdayFromDays(later) != weekday {
      var other := Date(y, m, LastDay(y, m) - (last - later));
      DayStep(other);
      WeekdayOf(other);
      CyclicDistance(last, weekday, last - days, last - later);
    }
  }

  // ---- ISO week dates (section 4.1.4 of ISO 8601:2004) ----

  /** Where the week-numbering year starts: the Monday after the last Thursday of the December before. */
  function WeekYearStart(y: int): int {
    LastWeekdayToDays(y - 1, 12, THURSDAY) + WeekdayMinus(MONDAY, THURSDAY)
  }

  /** `%G` of `to_stream` */
  function WeekYear(ld: int): int {
    var y := FromDays(ld + 3).year;
    if ld < WeekYearStart(y) then y - 1 else y
  }

  /** `%V` of `to_stream` */
  function WeekNumber(ld: int): int {
    var y := FromDays(ld + 3).year;
    var st := WeekYearStart(y);
    var start := if ld < st then WeekYearStart(y - 1) else st;
    TruncDiv(ld - start, 7) + 1
  }

  /** `%u` of `to_stream`: Monday is 1 and Sunday is 7. */
  function IsoWeekday(ld: int): int {
    var wd := WeekdayFromDays(ld);
    if wd == 0 then 7 else wd
  }

  /** How `from_stream` rebuilds the day from a week year, a week number and a weekday. */
  function FromWeekDate(weekYear: int, week: int, isoWeekday: int): int {
    var weekday := if isoWeekday != 7 then isoWeekday else 0;
    WeekYearStart(weekYear) + 7 * (week - 1) + WeekdayMinus(weekday, MONDAY)
  }

  /** The week-numbering year starts on the Monday of the week that holds January 4. */
  lemma WeekYearStartIsMonday(y: int)
    requires YearOk(y - 1) && YearOk(y)
    ensures WeekYearStart(y) <= ToDays(Date(y, 1, 4)) <= WeekYearStart(y) + 6
    ensures WeekYearStart(y) % 7 == 4
  {
    hide ToDays, FromDays, WeekdayFromDays, WeekdayMinus, LastWeekdayToDays;
    LastWeekdayIsLatest(y - 1, 12, THURSDAY);
    WeekdayMinusIsCyclic(MONDAY, THURSDAY);
    var days := LastWeekdayToDays(y - 1, 12, THURSDAY);
    MonthStep(y - 1, 12);
    DayStep(Date(y - 1, 12, 31));
    DayStep(Date(y, 1, 4));
    WeekdayOf(FromDays(days));
  }

  /** The Thursday of the week, Monday to Sunday, that the day is in. */
  function ThursdayOfWeek(ld: int): int {
    ld + 3 - WeekdayMinus(WeekdayFromDays(ld), MONDAY)
  }

  /** The days of the years whose week dates are computed from representable years only. */
  predicate WeekDateInRange(ld: int) {
    -12_686_698 <= ld < 11_248_008
  }

  lemma RangeStarts()
    ensures ToDays(Date(-32765, 1, 1)) == -12_686_698 && ToDays(Date(32766, 1, 1)) == 11_248_008
  {
    hide ToDays;
    ToDaysSplits(Date(-32765, 1, 1));
    ToDaysSplits(Date(32766, 1, 1));
  }

  lemma RangeInYears(ld: int)
    ensures WeekDateInRange(ld) <==> -32766 < FromDays(ld).year < 32766
  {
    hide FromDays, ToDays;
    WithinYear(FromDays(ld));
    var y := FromDays(ld).year;
    RangeStarts();
    if y <= -32766 {
      YearsGrow(y + 1, -32765);
    } else {
      YearsGrow(-32765, y);
      if y >= 32766 { YearsGrow(32766, y); } else { YearsGrow(y + 1, 32766); }
    }
  }

  /** A day lies between the start of its week year and that of the next. */
  lemma WeekYearHoldsDay(ld: int)
    requires WeekDateInRange(ld)
    ensures YearOk(WeekYear(ld) - 1) && YearOk(WeekYear(ld) + 1)
    ensures WeekYearStart(WeekYear(ld)) <= ld < WeekYearStart(WeekYear(ld) + 1)
    ensures WeekNumber(ld) == (ld - WeekYearStart(WeekYear(ld))) / 7 + 1
  {
    hide ToDays, FromDays, WeekdayFromDays, WeekdayMinus, LastWeekdayToDays, WeekYearStart;
    RangeInYears(ld);
    var d := FromDays(ld);
    var y := FromDays(ld + 3).year;
    ThreeDaysLater(ld);
    WithinYear(FromDays(ld + 3));
    WeekYearStartIsMonday(y - 1);
    WeekYearStartIsMonday(y);
    WeekYearStartIsMonday(y + 1);
    DayStep(Date(y - 1, 1, 4));
    DayStep(Date(y, 1, 4));
    DayStep(Date(y + 1, 1, 4));
    YearsGrow(y - 1, y);
  }

  lemma ThreeDaysLater(ld: int)
    ensures FromDays(ld).year <= FromDays(ld + 3).year <= FromDays(ld).year + 1
  {
    hide ToDays, FromDays;
    var y := FromDays(ld).year;
    WithinYear(FromDays(ld));
    YearLength(y);
    YearLength(y + 1);
    if ld + 3 < ToDays(Date(y + 1, 1, 1)) {
      YearOfDay(ld + 3, y);
    } else {
      YearOfDay(ld + 3, y + 1);
    }
  }

  /** Writing a date as an ISO week date and reading it back gives the date; weeks are numbered 1 to 53. */
  lemma WeekDateRoundTrip(ld: int)
    requires WeekDateInRange(ld)
    ensures FromWeekDate(WeekYear(ld), WeekNumber(ld), IsoWeekday(ld)) == ld
    ensures 1 <= WeekNumber(ld) <= 53 && 1 <= IsoWeekday(ld) <= 7
  {
    hide ToDays, FromDays, WeekdayFromDays, WeekdayMinus, LastWeekdayToDays, WeekYearStart, WeekYear, WeekNumber;
    RangeInYears(ld);
    var y := WeekYear(ld);
    WeekYearHoldsDay(ld);
    WeekYearStartIsMonday(y);
    WeekYearStartIsMonday(y + 1);
    DayStep(Date(y, 1, 4));
    DayStep(Date(y + 1, 1, 4));
    YearLength(y);
    WeekdayOf(FromDays(ld));
    var weekday := WeekdayFromDays(ld);
    WeekdayMinusIsCyclic(weekday, MONDAY);
  }

  /** Thursday of the week, counted in weeks from a Monday, and from a first of January in that Monday's week. */
  lemma ThursdayOfWeekIs(ld: int, start: int, first: int)
    requires start % 7 == 4 && start <= first + 3 <= start + 6
    ensures ld + 3 - ((ld + 4) % 7 - 1) % 7 == start + 7 * ((ld - start) / 7) + 3
    ensures (start + 7 * ((ld - start) / 7) + 3 - first) / 7 == (ld - start) / 7
  {
    var k := (ld - start) / 7;
    var r := ld - start - 7 * k;
    assert (ld + 4) % 7 == (start + 4 + r) % 7 == (r + 1) % 7;
    assert ((r + 1) % 7 - 1) % 7 == r;
  }

  /** The week year is the calendar year of the week's Thursday, and the week number counts that year's Thursdays. */
  lemma WeekDateFollowsThursday(ld: int)
    requires WeekDateInRange(ld)
    ensures var thursday := ThursdayOfWeek(ld);
            && WeekYear(ld) == FromDays(thursday).year
            && WeekNumber(ld) == (thursday - ToDays(Date(WeekYear(ld), 1, 1))) / 7 + 1
  {
    hide ToDays, FromDays, WeekdayFromDays, WeekdayMinus, LastWeekdayToDays, WeekYearStart, WeekYear, WeekNumber;
    RangeInYears(ld);
    var y := WeekYear(ld);
    WeekYearHoldsDay(ld);
    WeekYearStartIsMonday(y);
    WeekYearStartIsMonday(y + 1);
    DayStep(Date(y, 1, 4));
    DayStep(Date(y + 1, 1, 4));
    WeekdayOf(FromDays(ld));
    WeekdayMinusIsCyclic(WeekdayFromDays(ld), MONDAY);
    ThursdayOfWeekIs(ld, WeekYearStart(y), ToDays(Date(y, 1, 1)));
    YearOfDay(ThursdayOfWeek(ld), y);
  }

  /** Weekdays are numbered from Monday, 1, to Sunday, 7, and day 0 was a Thursday. */
  lemma IsoWeekdayCounts(ld: int)
    requires WeekDateInRange(ld)
    ensures IsoWeekday(ld) == (ld + 3) % 7 + 1
    ensures (ThursdayOfWeek(ld) + 3) % 7 + 1 == 4 && ThursdayOfWeek(ld) == ld + 4 - IsoWeekday(ld)
  {
    hide ToDays, FromDays, WeekdayFromDays, WeekdayMinus;
    RangeInYears(ld);
    WeekdayOf(FromDays(ld));
    WeekdayMinusIsCyclic(WeekdayFromDays(ld), MONDAY);
  }

  /** A week date names a day counted from the start of its year. */
  lemma WeekDateCounts(weekYear: int, week: int, isoWeekday: int)
    requires 1 <= isoWeekday <= 7
    ensures FromWeekDate(weekYear, week, isoWeekday) == WeekYearStart(weekYear) + 7 * (week - 1) + isoWeekday - 1
  {
    hide WeekYearStart, WeekdayMinus;
    WeekdayMinusIsCyclic(if isoWeekday != 7 then isoWeekday else 0, MONDAY);
  }

  /** The week-numbering year has that many weeks: 52, or 53 in long years. */
  predicate HasWeek(weekYear: int, week: int) {
    WeekYearStart(weekYear) + 7 * (week - 1) < WeekYearStart(weekYear + 1)
  }

  /** Which week numbers come back, and where the others lead, for any number that names a day in range. */
  lemma WeekNumberComesBack(weekYear: int, week: int, isoWeekday: int)
    requires -32765 < weekYear < 32765 && 1 <= isoWeekday <= 7
    requires WeekDateInRange(FromWeekDate(weekYear, week, isoWeekday))
    ensures var ld := FromWeekDate(weekYear, week, isoWeekday);
            && (WeekYear(ld) == weekYear && WeekNumber(ld) == week && IsoWeekday(ld) == isoWeekday
                <==> 1 <= week && HasWeek(weekYear, week))
            && (WeekYear(ld) < weekYear <==> week < 1)
            && (WeekYear(ld) > weekYear <==> !HasWeek(weekYear, week))
            && IsoWeekday(ld) == isoWeekday
    ensures HasWeek(weekYear, 52) && !HasWeek(weekYear, 54)
  {
    hide ToDays, FromDays, WeekdayFromDays, WeekdayMinus, LastWeekdayToDays, WeekYearStart, WeekYear, WeekNumber;
    var ld := FromWeekDate(weekYear, week, isoWeekday);
    WeekdayMinusIsCyclic(if isoWeekday != 7 then isoWeekday else 0, MONDAY);
    WeekYearStartIsMonday(weekYear);
    WeekYearStartIsMonday(weekYear + 1);
    DayStep(Date(weekYear, 1, 4));
    DayStep(Date(weekYear + 1, 1, 4));
    YearLength(weekYear);
    RangeInYears(ld);
    WeekYearHoldsDay(ld);
    WeekdayOf(FromDays(ld));
    WeekYearsDoNotOverlap(ld, weekYear);
    WeekYearIsMonotone(ld, weekYear);
  }

  /** Every week number of two digits, as `%V` reads them, names a day whose week date can be written. */
  lemma TwoDigitWeeksFit(weekYear: int, week: int, isoWeekday: int)
    requires -32765 < weekYear < 32765 && 0 <= week <= 99 && 1 <= isoWeekday <= 7
    ensures WeekDateInRange(FromWeekDate(weekYear, week, isoWeekday))
  {
    hide ToDays, FromDays, WeekdayFromDays, WeekdayMinus, LastWeekdayToDays, WeekYearStart;
    var ld := FromWeekDate(weekYear, week, isoWeekday);
    WeekdayMinusIsCyclic(if isoWeekday != 7 then isoWeekday else 0, MONDAY);
    WeekYearStartIsMonday(weekYear);
    DayStep(Date(weekYear, 1, 4));
    YearsGrow(-32765, weekYear - 1);
    YearLength(weekYear - 1);
    YearsGrow(weekYear, weekYear + 2);
    YearsGrow(weekYear + 2, 32766);
    RangeStarts();
  }

  /**
   * Reading a week date and writing it again gives the same week date exactly when the year has that week. The
   * reader takes any two digits without a range check: the others name a day of an earlier or a later week year.
   */
  lemma WeekDateInverse(weekYear: int, week: int, isoWeekday: int)
    requires -32765 < weekYear < 32765 && 0 <= week <= 99 && 1 <= isoWeekday <= 7
    ensures var ld := FromWeekDate(weekYear, week, isoWeekday);
            && (WeekYear(ld) == weekYear && WeekNumber(ld) == week && IsoWeekday(ld) == isoWeekday
                <==> 1 <= week && HasWeek(weekYear, week))
            && (WeekYear(ld) < weekYear <==> week == 0)
            && (WeekYear(ld) > weekYear <==> !HasWeek(weekYear, week))
    ensures HasWeek(weekYear, 52) && !HasWeek(weekYear, 54)
  {
    hide FromWeekDate, WeekDateInRange, WeekYear, WeekNumber, IsoWeekday, HasWeek;
    TwoDigitWeeksFit(weekYear, week, isoWeekday);
    WeekNumberComesBack(weekYear, week, isoWeekday);
  }

  lemma StartFrom(y: int, eve: int)
    requires YearOk(y - 1) && eve == ToDays(Date(y - 1, 12, 31))
    ensures WeekYearStart(y) == eve - ((eve + 4) % 7 - THURSDAY) % 7 + 4
  {
    hide ToDays, WeekdayFromDays, WeekdayMinus;
    WeekdayOf(Date(y - 1, 12, 31));
    WeekdayMinusIsCyclic(WeekdayFromDays(eve), THURSDAY);
    WeekdayMinusIsCyclic(MONDAY, THURSDAY);
  }

  lemma DaysAround2021()
    ensures ToDays(Date(2020, 12, 31)) == 18627 && ToDays(Date(2021, 12, 31)) == 18992
    ensures ToDays(Date(2020, 12, 28)) == 18624 && ToDays(Date(2022, 1, 3)) == 18995
    ensures ToDays(Date(2022, 11, 27)) == 19323
  {}

  /** Weeks 0, 53 and 99 of 2021 do not exist; all are read, as days of 2020 and 2022. */
  lemma WeeksThatDoNotComeBack()
    ensures !HasWeek(2021, 53)
    ensures FromWeekDate(2021, 53, 1) == ToDays(Date(2022, 1, 3))
    ensures FromWeekDate(2021, 0, 1) == ToDays(Date(2020, 12, 28))
    ensures FromWeekDate(2021, 99, 7) == ToDays(Date(2022, 11, 27))
  {
    hide ToDays, WeekYearStart, WeekdayMinus;
    DaysAround2021();
    StartFrom(2021, 18627);
    StartFrom(2022, 18992);
    WeekdayMinusIsCyclic(1, MONDAY);
    WeekdayMinusIsCyclic(0, MONDAY);
  }

  /** The week year of a day is on the side of a year's start that the day is on. */
  lemma WeekYearIsMonotone(ld: int, y: int)
    requires WeekDateInRange(ld) && YearOk(y - 1) && YearOk(y + 1)
    ensures WeekYear(ld) < y <==> ld < WeekYearStart(y)
    ensures WeekYear(ld) > y <==> ld >= WeekYearStart(y + 1)
  {
    hide ToDays, FromDays, WeekdayFromDays, WeekdayMinus, LastWeekdayToDays, WeekYearStart, WeekYear, WeekNumber;
    RangeInYears(ld);
    var w := WeekYear(ld);
    WeekYearHoldsDay(ld);
    WeekYearStartsGrow(w + 1, y);
    WeekYearStartsGrow(y + 1, w);
    WeekYearStartsGrow(y, w);
    WeekYearStartsGrow(w + 1, y + 1);
  }

  lemma WeekYearStartsGrow(y: int, w: int)
    requires YearOk(y - 1) && YearOk(y) && YearOk(w - 1) && YearOk(w)
    ensures y <= w ==> WeekYearStart(y) <= WeekYearStart(w)
  {
    hide ToDays, LastWeekdayToDays, WeekYearStart;
    WeekYearStartIsMonday(y);
    WeekYearStartIsMonday(w);
    if y < w {
      YearsGrow(y, w);
      DayStep(Date(y, 1, 4));
      DayStep(Date(w, 1, 4));
    }
  }

  /** A day is in a week year exactly when it lies between that year's start and the next. */
  lemma WeekYearsDoNotOverlap(ld: int, y: int)
    requires WeekDateInRange(ld) && YearOk(y - 1) && YearOk(y + 1)
    ensures WeekYear(ld) == y <==> WeekYearStart(y) <= ld < WeekYearStart(y + 1)
  {
    hide WeekYear, WeekYearStart;
    WeekYearIsMonotone(ld, y);
  }
}
