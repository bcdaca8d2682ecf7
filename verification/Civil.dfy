/** Civil dates of the proleptic Gregorian calendar and serial day numbers (day 0 is 1970-01-01). */
module Civil {

  datatype Date = Date(year: int, month: int, day: int)

  /** The division of the source language, which truncates toward zero. */
  function TruncDiv(a: int, b: int): int
    requires b > 0
  {
    if a >= 0 then a / b else -((-a) / b)
  }

  predicate IsLeap(y: int) {
    y % 4 == 0 && (y % 100 != 0 || y % 400 == 0)
  }

  function LastDay(y: int, m: int): int
    requires 1 <= m <= 12
  {
    if m != 2 || !IsLeap(y) then [31, 28, 31, 30, 31, 30, 31, 31, 30, 31, 30, 31][m - 1] else 29
  }

  predicate Ok(d: Date) {
    1 <= d.month <= 12 && 1 <= d.day <= LastDay(d.year, d.month)
  }

  /** `year_month_day::to_days`; the day may exceed the month's length. */
  function ToDays(d: Date): int
    requires 1 <= d.month <= 12
  {
    var y := d.year - (if d.month <= 2 then 1 else 0);
    var era := TruncDiv(if y >= 0 then y else y - 399, 400);
    var yoe := y - era * 400;
    var doy := (153 * (if d.month > 2 then d.month - 3 else d.month + 9) + 2) / 5 + d.day - 1;
    var doe := yoe * 365 + yoe / 4 - yoe / 100 + doy;
    era * 146097 + doe - 719468
  }

  predicate Earlier(a: Date, b: Date) {
    || a.year < b.year
    || (a.year == b.year && a.month < b.month)
    || (a.year == b.year && a.month == b.month && a.day < b.day)
  }

  /** The day after, by the lengths of the months. */
  function NextDate(d: Date): Date
    requires Ok(d)
  {
    if d.day < LastDay(d.year, d.month) then Date(d.year, d.month, d.day + 1)
    else if d.month < 12 then Date(d.year, d.month + 1, 1)
    else Date(d.year + 1, 1, 1)
  }

  // ---- Years and months as day counts ----

  /** Days from year 0's March 1 to that of year y, with floored divisions. */
  function YearDays(y: int): int {
    365 * y + y / 4 - y / 100 + y / 400
  }

  function MonthDays(m: int): int
    requires 1 <= m <= 12
  {
    (153 * (if m > 2 then m - 3 else m + 9) + 2) / 5
  }

  lemma EraIsFloor(y: int)
    ensures TruncDiv(if y >= 0 then y else y - 399, 400) == y / 400
  {}

  lemma ToDaysSplits(d: Date)
    requires 1 <= d.month <= 12
    ensures ToDays(d) == YearDays(d.year - (if d.month <= 2 then 1 else 0)) + MonthDays(d.month) + d.day - 719469
  {
    var y := d.year - (if d.month <= 2 then 1 else 0);
    EraIsFloor(y);
    var era, yoe := y / 400, y - y / 400 * 400;
    assert y / 4 == 100 * era + yoe / 4;
    assert y / 100 == 4 * era + yoe / 100;
  }

  /** Day 0 is January 1, 1970. */
  lemma Epoch()
    ensures ToDays(Date(1970, 1, 1)) == 0
  {}

  lemma FloorSteps(y: int)
    ensures (y + 1) / 4 == y / 4 + (if (y + 1) % 4 == 0 then 1 else 0)
    ensures (y + 1) / 100 == y / 100 + (if (y + 1) % 100 == 0 then 1 else 0)
    ensures (y + 1) / 400 == y / 400 + (if (y + 1) % 400 == 0 then 1 else 0)
  {}

  lemma CenturyIsMultipleOfFour(y: int)
    ensures y % 100 == 0 ==> y % 4 == 0
    ensures y % 400 == 0 ==> y % 100 == 0
  {}

  lemma YearStep(y: int)
    ensures YearDays(y + 1) == YearDays(y) + 365 + (if IsLeap(y + 1) then 1 else 0)
  {
    FloorSteps(y);
    CenturyIsMultipleOfFour(y + 1);
  }

  lemma MonthLengths(y: int, m: int)
    requires 1 <= m <= 12
    ensures m != 2 && m < 12 ==> MonthDays(m + 1) == MonthDays(m) + LastDay(y, m)
    ensures m == 12 ==> MonthDays(1) == MonthDays(12) + 31
    ensures m == 2 ==> MonthDays(3) == 0 && MonthDays(2) == 337
  {}

  /** Each month starts as many days after the last one as that one is long. */
  lemma MonthStep(y: int, m: int)
    requires 1 <= m <= 12
    ensures ToDays(if m < 12 then Date(y, m + 1, 1) else Date(y + 1, 1, 1)) == ToDays(Date(y, m, 1)) + LastDay(y, m)
  {
    hide ToDays;
    ToDaysSplits(Date(y, m, 1));
    ToDaysSplits(if m < 12 then Date(y, m + 1, 1) else Date(y + 1, 1, 1));
    MonthLengths(y, m);
    YearStep(y - 1);
  }

  lemma DayStep(d: Date)
    requires 1 <= d.month <= 12
    ensures ToDays(d) == ToDays(Date(d.year, d.month, 1)) + d.day - 1
  {
    hide ToDays;
    ToDaysSplits(d);
    ToDaysSplits(Date(d.year, d.month, 1));
  }

  // ---- Order ----

  lemma {:induction false} MonthsGrow(y: int, m: int, n: int)
    requires 1 <= m <= n <= 12
    ensures ToDays(Date(y, m, 1)) + 28 * (n - m) <= ToDays(Date(y, n, 1))
    decreases n - m
  {
    hide ToDays;
    if m == n {
    } else {
      MonthsGrow(y, m, n - 1);
      MonthStep(y, n - 1);
    }
  }

  lemma {:induction false} YearsGrow(y: int, w: int)
    requires y <= w
    ensures ToDays(Date(y, 1, 1)) + 365 * (w - y) <= ToDays(Date(w, 1, 1)) <= ToDays(Date(y, 1, 1)) + 366 * (w - y)
    decreases w - y
  {
    hide ToDays;
    if y == w {
    } else {
      YearsGrow(y, w - 1);
      YearLength(w - 1);
    }
  }

  lemma YearLength(y: int)
    ensures ToDays(Date(y + 1, 1, 1)) == ToDays(Date(y, 1, 1)) + (if IsLeap(y) then 366 else 365)
  {
    hide ToDays;
    ToDaysSplits(Date(y, 1, 1));
    ToDaysSplits(Date(y + 1, 1, 1));
    YearStep(y - 1);
  }

  /** A valid date lies between its year's first day and the next year's. */
  lemma WithinYear(d: Date)
    requires Ok(d)
    ensures ToDays(Date(d.year, 1, 1)) <= ToDays(d) < ToDays(Date(d.year + 1, 1, 1))
  {
    hide ToDays;
    DayStep(d);
    MonthsGrow(d.year, 1, d.month);
    MonthStep(d.year, d.month);
    if d.month < 12 {
      MonthsGrow(d.year, d.month + 1, 12);
      MonthStep(d.year, 12);
    }
  }

  /** Day numbers preserve the order of dates. */
  lemma ToDaysIsMonotone(a: Date, b: Date)
    requires Ok(a) && Ok(b) && Earlier(a, b)
    ensures ToDays(a) < ToDays(b)
  {
    hide ToDays;
    DayStep(a);
    DayStep(b);
    if a.year < b.year {
      WithinYear(a);
      WithinYear(b);
      YearsGrow(a.year + 1, b.year);
    } else if a.month < b.month {
      MonthStep(a.year, a.month);
      MonthsGrow(a.year, a.month + 1, b.month);
    }
  }

  lemma ToDaysIsInjective(a: Date, b: Date)
    requires Ok(a) && Ok(b) && ToDays(a) == ToDays(b)
    ensures a == b
  {
    hide ToDays;
    if Earlier(a, b) {
      ToDaysIsMonotone(a, b);
    } else if Earlier(b, a) {
      ToDaysIsMonotone(b, a);
    }
  }

  /** Consecutive dates have consecutive day numbers. */
  lemma NextDateIsNextDay(d: Date)
    requires Ok(d)
    ensures Ok(NextDate(d)) && ToDays(NextDate(d)) == ToDays(d) + 1
  {
    hide ToDays;
    DayStep(d);
    if d.day < LastDay(d.year, d.month) {
      DayStep(NextDate(d));
    } else {
      MonthStep(d.year, d.month);
    }
  }

  // ---- from_days ----

  /** The year a day of a 400-year era is in, where years start on March 1. */
  function YearInEra(doe: int): int {
    (doe - doe / 1460 + doe / 36524 - doe / 146096) / 365
  }

  /** The date of a day of such a year. */
  function DateInYear(y: int, doy: int): Date {
    var mp := (5 * doy + 2) / 153;
    var d := doy - (153 * mp + 2) / 5 + 1;
    var m := if mp < 10 then mp + 3 else mp - 9;
    Date(y + (if m <= 2 then 1 else 0), m, d)
  }

  /** The year of a 400-year era, found by centuries, four-year spans and years. */
  lemma YearOfEra(doe: int)
    requires 0 <= doe <= 146096
    ensures var yoe := YearInEra(doe);
            var doy := doe - (365 * yoe + yoe / 4 - yoe / 100);
            && 0 <= yoe <= 399 && 0 <= doy <= 365
            && (doy == 365 ==> IsLeap(yoe + 1))
  {
    var c := if doe == 146096 then 3 else doe / 36524;
    var r := doe - 36524 * c;
    var quad := r / 1461;
    var s := r - 1461 * quad;
    var yr := if s == 1460 then 3 else s / 365;
    SpanYears(doe, c, quad, s);
    assert yr == 3 || s - 365 * yr <= 364;
    var yoe := 100 * c + 4 * quad + yr;
    assert YearInEra(doe) == yoe;
    assert yoe / 4 == 25 * c + quad;
    assert yoe / 100 == c;
  }

  lemma SpanYears(doe: int, c: int, quad: int, s: int)
    requires 0 <= c <= 3 && 0 <= quad <= 24 && 0 <= s <= 1460
    requires doe == 36524 * c + 1461 * quad + s <= 146096
    requires doe == 146096 || c == doe / 36524
    ensures var n := doe - doe / 1460 + doe / 36524 - doe / 146096;
            var yr := if s == 1460 then 3 else s / 365;
            365 * (100 * c + 4 * quad + yr) <= n < 365 * (100 * c + 4 * quad + yr) + 365
  {
    var e := (24 * c + quad + s) / 1460;
    assert doe == 1460 * (25 * c + quad) + (24 * c + quad + s);
    assert doe / 1460 == 25 * c + quad + e;
    assert doe / 36524 - doe / 146096 == c;
  }

  /** The month and day of a day of the year that starts on March 1. */
  lemma MonthOfYear(y: int, doy: int)
    requires 0 <= doy <= 365 && (doy == 365 ==> IsLeap(y + 1))
    ensures var mp := (5 * doy + 2) / 153;
            var d := doy - (153 * mp + 2) / 5 + 1;
            var m := if mp < 10 then mp + 3 else mp - 9;
            && 1 <= m <= 12 && MonthDays(m) + d - 1 == doy
            && 1 <= d <= LastDay(if m <= 2 then y + 1 else y, m)
  {
    var mp := (5 * doy + 2) / 153;
    assert 0 <= mp <= 11;
  }

  lemma LeapInEra(y: int, era: int)
    ensures IsLeap(y + era * 400) == IsLeap(y)
  {
    ShiftedRemainders(y, era);
  }

  lemma ShiftedRemainders(y: int, era: int)
    ensures (y + era * 400) % 4 == y % 4
    ensures (y + era * 400) % 100 == y % 100
    ensures (y + era * 400) % 400 == y % 400
  {
    RemainderOf(y, 100 * era, 4);
    RemainderOf(y, 4 * era, 100);
    RemainderOf(y, era, 400);
  }

  lemma RemainderOf(y: int, k: int, n: int)
    requires n in {4, 100, 400}
    ensures (y + k * n) % n == y % n
  {
    if n == 4 {
      assert (y + k * 4) / 4 == y / 4 + k;
    } else if n == 100 {
      assert (y + k * 100) / 100 == y / 100 + k;
    } else {
      assert (y + k * 400) / 400 == y / 400 + k;
    }
  }

  lemma EraOfYear(yoe: int, era: int)
    requires 0 <= yoe <= 399
    ensures YearDays(yoe + era * 400) == era * 146097 + 365 * yoe + yoe / 4 - yoe / 100
  {
    assert (yoe + era * 400) / 4 == yoe / 4 + 100 * era;
    assert (yoe + era * 400) / 100 == yoe / 100 + 4 * era;
    assert (yoe + era * 400) / 400 == era;
  }

  lemma EraDayIsFloor(z: int)
    ensures var era := TruncDiv(if z >= 0 then z else z - 146096, 146097);
            era == z / 146097 && 0 <= z - era * 146097 <= 146096
  {}

  lemma DateOfEra(days: int, era: int, yoe: int, doy: int)
    requires 0 <= yoe <= 399 && 0 <= doy <= 365 && (doy == 365 ==> IsLeap(yoe + 1))
    requires days + 719468 == era * 146097 + 365 * yoe + yoe / 4 - yoe / 100 + doy
    ensures var date := DateInYear(yoe + era * 400, doy); Ok(date) && ToDays(date) == days
  {
    hide ToDays;
    LeapInEra(yoe + 1, era);
    var y := yoe + era * 400;
    MonthOfYear(y, doy);
    EraOfYear(yoe, era);
    ToDaysSplits(DateInYear(y, doy));
  }

  /** The day of the year that starts on March 1. */
  function DayInYear(doe: int, yoe: int): int {
    doe - (365 * yoe + yoe / 4 - yoe / 100)
  }

  lemma DateOfDay(days: int, era: int, doe: int)
    requires 0 <= doe <= 146096 && days + 719468 == era * 146097 + doe
    ensures var yoe := YearInEra(doe);
            var date := DateInYear(yoe + era * 400, DayInYear(doe, yoe)); Ok(date) && ToDays(date) == days
  {
    hide ToDays, DateInYear, YearInEra, Ok;
    YearOfEra(doe);
    DateOfEra(days, era, YearInEra(doe), DayInYear(doe, YearInEra(doe)));
  }

  /** `year_month_day::from_days`: the valid date with the given day number. */
  function FromDays(days: int): (date: Date)
    ensures Ok(date) && ToDays(date) == days
  {
    hide ToDays, Ok, TruncDiv, YearInEra, DayInYear, DateInYear;
    var z := days + 719468;
    var era := TruncDiv(if z >= 0 then z else z - 146096, 146097);
    var doe := z - era * 146097;
    var yoe := YearInEra(doe);
    EraDayIsFloor(z);
    DateOfDay(days, era, doe);
    DateInYear(yoe + era * 400, DayInYear(doe, yoe))
  }

  /** Every valid date comes back from its day number. */
  lemma FromDaysInvertsToDays(d: Date)
    requires Ok(d)
    ensures FromDays(ToDays(d)) == d
  {
    hide FromDays, ToDays;
    ToDaysIsInjective(FromDays(ToDays(d)), d);
  }

  /** The date of the next day is the calendar's next date. */
  lemma FromDaysSuccessor(days: int)
    ensures FromDays(days + 1) == NextDate(FromDays(days))
  {
    hide FromDays, ToDays;
    NextDateIsNextDay(FromDays(days));
    FromDaysInvertsToDays(NextDate(FromDays(days)));
  }

  lemma FromDaysIsMonotone(a: int, b: int)
    requires a < b
    ensures Earlier(FromDays(a), FromDays(b))
  {
    hide FromDays, ToDays;
    if Earlier(FromDays(b), FromDays(a)) {
      ToDaysIsMonotone(FromDays(b), FromDays(a));
    }
  }

  /** A day number belongs to year y when it lies between two first days of a year. */
  lemma YearOfDay(days: int, y: int)
    requires ToDays(Date(y, 1, 1)) <= days < ToDays(Date(y + 1, 1, 1))
    ensures FromDays(days).year == y
  {
    hide FromDays, ToDays;
    var d := FromDays(days);
    WithinYear(d);
    if d.year < y {
      YearsGrow(d.year + 1, y);
    } else if d.year > y {
      YearsGrow(y + 1, d.year);
    }
  }
}
