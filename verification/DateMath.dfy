/** Calendar arithmetic on whole milliseconds since 1970 (DateMath.cpp, the UTC paths). */
module DateMath {
  import opened Powers

  const MS_PER_SECOND: int := 1000
  const MS_PER_MINUTE: int := 60_000
  const MS_PER_HOUR: int := 3_600_000
  const MS_PER_DAY: int := 86_400_000
  /** msPerDay * 365.2425 */
  const MS_PER_MEAN_YEAR: int := 31_556_952_000

  // C's operators round toward zero; floor is Dafny's division by a positive number.

  function TruncDiv(a: int, b: int): int
    requires b > 0
  {
    if a >= 0 then a / b else -(-a / b)
  }

  function TruncMod(a: int, b: int): int
    requires b > 0
  {
    a - b * TruncDiv(a, b)
  }

  /** A remainder with the dividend's sign, moved up when negative, is the floored one. */
  lemma WrappedRemainder(a: int, b: int)
    requires b > 0
    ensures -b < TruncMod(a, b) < b
    ensures (if TruncMod(a, b) < 0 then TruncMod(a, b) + b else TruncMod(a, b)) == a % b
    ensures (if TruncMod(a, b) < 0 then TruncDiv(a, b) - 1 else TruncDiv(a, b)) == a / b
  {
    var q, r := a / b, a % b;
    assert a == b * q + r;
    if a < 0 {
      var p, s := -a / b, -a % b;
      assert -a == b * p + s;
      assert TruncMod(a, b) == -s;
      if s == 0 {
        Quotients(b, q, r, -p, 0);
      } else {
        Quotients(b, q, r, -p - 1, b - s);
      }
    }
  }

  lemma Quotients(b: int, q: int, r: int, p: int, s: int)
    requires b > 0 && 0 <= r < b && 0 <= s < b && b * q + r == b * p + s
    ensures q == p && r == s
  {
    DivUnique(b * q + r, b, q, r);
    DivUnique(b * p + s, b, p, s);
  }

  // Years.

  function DaysInYear(year: int): int {
    if year % 4 != 0 then 365
    else if year % 400 == 0 then 366
    else if year % 100 == 0 then 365
    else 366
  }

  predicate IsLeapYear(year: int) {
    if year % 4 != 0 then false
    else if year % 400 == 0 then true
    else if year % 100 == 0 then false
    else true
  }

  function DaysFrom1970ToYear(year: int): int {
    365 * (year - 1970) + (year - 1969) / 4 - (year - 1901) / 100 + (year - 1601) / 400
  }

  /** A floor moves on by one exactly when the numerator reaches a multiple. */
  lemma FloorStep(n: int, d: int)
    requires d > 1
    ensures (n + 1) / d - n / d == if (n + 1) % d == 0 then 1 else 0
  {
    var q, r, q1, r1 := n / d, n % d, (n + 1) / d, (n + 1) % d;
    assert n == d * q + r && n + 1 == d * q1 + r1;
    if r + 1 < d {
      Quotients(d, q1, r1, q, r + 1);
    } else {
      assert d * (q + 1) == d * q + d;
      Quotients(d, q1, r1, q + 1, 0);
    }
  }

  lemma SameMultiple(n: int, k: int, d: int)
    requires d > 0 && k % d == 0
    ensures (n - k) % d == 0 <==> n % d == 0
  {
    var q, p := n / d, k / d;
    assert n == d * q + n % d && k == d * p;
    var s := (n - k) / d;
    assert n - k == d * s + (n - k) % d;
    assert d * (q - p) == d * q - d * p;
    Quotients(d, s, (n - k) % d, q - p, n % d);
  }

  /** A term of the day count moves on by one in the years its period divides. */
  lemma LeapDay(year: int, k: int, d: int)
    requires d > 1 && k % d == 0
    ensures (year + 1 - (k + 1)) / d - (year - (k + 1)) / d == if year % d == 0 then 1 else 0
  {
    FloorStep(year - (k + 1), d);
    SameMultiple(year, k, d);
  }

  lemma CoarserMultiple(n: int, a: int, b: int)
    requires a > 0 && b > 0
    ensures a * b > 0 && (n % (a * b) == 0 ==> n % a == 0)
  {
    MulPositive(a, b);
    if n % (a * b) == 0 {
      var q := n / (a * b);
      assert n == (a * b) * q && (a * b) * q == a * (b * q);
      Quotients(a, n / a, n % a, b * q, 0);
    }
  }

  /** The closed form counts 365 or 366 days for every year, before or after 1970. */
  lemma YearsAddUp(year: int)
    ensures DaysFrom1970ToYear(year + 1) == DaysFrom1970ToYear(year) + DaysInYear(year)
    ensures DaysInYear(year) == if IsLeapYear(year) then 366 else 365
    ensures DaysFrom1970ToYear(1970) == 0
  {
    LeapDay(year, 1968, 4);
    LeapDay(year, 1900, 100);
    LeapDay(year, 1600, 400);
    CoarserMultiple(year, 4, 25);
    CoarserMultiple(year, 100, 4);
  }

  lemma {:induction false} LaterYears(y: int, z: int)
    requires y <= z
    ensures DaysFrom1970ToYear(z) >= DaysFrom1970ToYear(y) + 365 * (z - y)
    decreases z - y
  {
    hide DaysFrom1970ToYear, DaysInYear;
    if y < z {
      LaterYears(y, z - 1);
      YearsAddUp(z - 1);
    }
  }

  /** The day belongs to the year. */
  predicate InYear(day: int, year: int) {
    DaysFrom1970ToYear(year) <= day < DaysFrom1970ToYear(year + 1)
  }

  lemma YearIsUnique(day: int, y: int, z: int)
    requires InYear(day, y) && InYear(day, z)
    ensures y == z
  {
    hide DaysFrom1970ToYear;
    if y < z {
      LaterYears(y + 1, z);
    } else if z < y {
      LaterYears(z + 1, y);
    }
  }

  /** The day count stays within a day and a half of the mean year's. */
  lemma NearMeanYears(year: int)
    ensures -12_650 <= 10_000 * DaysFrom1970ToYear(year) - 3_652_425 * (year - 1970) <= 14_725
  {
    var n := year - 1970;
    assert 4 * ((n + 1) / 4) <= n + 1 <= 4 * ((n + 1) / 4) + 3;
    assert 100 * ((n + 69) / 100) <= n + 69 <= 100 * ((n + 69) / 100) + 99;
    assert 400 * ((n + 369) / 400) <= n + 369 <= 400 * ((n + 369) / 400) + 399;
  }

  /** The mean-year estimate is the year, one before it or one after it. */
  lemma EstimateWithinOne(ms: int, y: int)
    requires y == ms / MS_PER_MEAN_YEAR + 1970
    ensures MS_PER_DAY * DaysFrom1970ToYear(y - 1) <= ms < MS_PER_DAY * DaysFrom1970ToYear(y + 2)
  {
    hide DaysFrom1970ToYear, DaysInYear;
    var n := y - 1970;
    assert MS_PER_MEAN_YEAR * n <= ms < MS_PER_MEAN_YEAR * n + MS_PER_MEAN_YEAR;
    NearMeanYears(y - 1);
    NearMeanYears(y + 2);
  }

  function MsToDays(ms: int): int {
    ms / MS_PER_DAY
  }

  lemma DayBounds(ms: int, d: int)
    ensures MS_PER_DAY * d <= ms <==> d <= MsToDays(ms)
  {}

  /** The year a time falls in: an estimate and one correction. */
  method MsToYear(ms: int) returns (y: int)
    ensures InYear(MsToDays(ms), y)
  {
    hide DaysFrom1970ToYear, DaysInYear, MsToDays;
    y := ms / MS_PER_MEAN_YEAR + 1970;
    EstimateWithinOne(ms, y);
    DayBounds(ms, DaysFrom1970ToYear(y - 1));
    DayBounds(ms, DaysFrom1970ToYear(y));
    DayBounds(ms, DaysFrom1970ToYear(y + 1));
    DayBounds(ms, DaysFrom1970ToYear(y + 2));
    YearsAddUp(y);
    var t2 := MS_PER_DAY * DaysFrom1970ToYear(y);
    if t2 > ms {
      y := y - 1;
    } else if t2 + MS_PER_DAY * DaysInYear(y) <= ms {
      y := y + 1;
    }
  }

  function DayInYear(ms: int, year: int): int {
    MsToDays(ms) - DaysFrom1970ToYear(year)
  }

  // Months.

  /** The days of a month, by the calendar. */
  function DaysInMonth(month: int, leap: bool): int
    requires 0 <= month < 12
  {
    if month == 1 then (if leap then 29 else 28)
    else if month == 3 || month == 5 || month == 8 || month == 10 then 30
    else 31
  }

  const FIRST_DAY_OF_MONTH: seq<seq<int>> := [
    [0, 31, 59, 90, 120, 151, 181, 212, 243, 273, 304, 334],
    [0, 31, 60, 91, 121, 152, 182, 213, 244, 274, 305, 335]]

  function MonthToDayInYear(month: int, leap: bool): int
    requires 0 <= month < 12
  {
    FIRST_DAY_OF_MONTH[if leap then 1 else 0][month]
  }

  /** The table adds up the months' lengths, and December ends the year. */
  lemma MonthsAddUp(month: int, leap: bool)
    requires 0 <= month < 12
    ensures MonthToDayInYear(0, leap) == 0
    ensures MonthToDayInYear(month, leap) + DaysInMonth(month, leap)
      == if month < 11 then MonthToDayInYear(month + 1, leap) else if leap then 366 else 365
  {}

  /** Day d (from 0) of the year lies in the month. */
  predicate InMonth(d: int, month: int, leap: bool)
    requires 0 <= month < 12
  {
    MonthToDayInYear(month, leap) <= d < MonthToDayInYear(month, leap) + DaysInMonth(month, leap)
  }

  lemma MonthIsUnique(d: int, m: int, n: int, leap: bool)
    requires 0 <= m < 12 && 0 <= n < 12 && InMonth(d, m, leap) && InMonth(d, n, leap)
    ensures m == n
  {}

  /** Whether the time falls in a leap year. */
  method IsInLeapYear(ms: int) returns (leap: bool)
    ensures forall y :: InYear(MsToDays(ms), y) ==> (leap <==> IsLeapYear(y))
  {
    hide InYear, IsLeapYear;
    var year := MsToYear(ms);
    leap := IsLeapYear(year);
    forall y | InYear(MsToDays(ms), y)
      ensures y == year
    {
      YearIsUnique(MsToDays(ms), y, year);
    }
  }

  /** The cascade of month lengths. */
  method MonthCascade(d: int, leap: bool) returns (month: int)
    requires 0 <= d < if leap then 366 else 365
    ensures 0 <= month < 12 && InMonth(d, month, leap)
  {
    var step := 31;
    if d < step {
      return 0;
    }
    step := step + if leap then 29 else 28;
    if d < step {
      return 1;
    }
    step := step + 31;
    if d < step {
      return 2;
    }
    step := step + 30;
    if d < step {
      return 3;
    }
    step := step + 31;
    if d < step {
      return 4;
    }
    step := step + 30;
    if d < step {
      return 5;
    }
    step := step + 31;
    if d < step {
      return 6;
    }
    step := step + 31;
    if d < step {
      return 7;
    }
    step := step + 30;
    if d < step {
      return 8;
    }
    step := step + 31;
    if d < step {
      return 9;
    }
    step := step + 30;
    if d < step {
      return 10;
    }
    return 11;
  }

  /** The day of the year, in range for its year. */
  lemma DayFitsYear(ms: int, year: int)
    requires InYear(MsToDays(ms), year)
    ensures 0 <= DayInYear(ms, year) < if IsLeapYear(year) then 366 else 365
  {
    hide DaysFrom1970ToYear, DaysInYear, IsLeapYear;
    YearsAddUp(year);
  }

  method MsToMonth(ms: int) returns (month: int)
    ensures 0 <= month < 12
    ensures forall y :: InYear(MsToDays(ms), y) ==> InMonth(DayInYear(ms, y), month, IsLeapYear(y))
  {
    hide InYear, IsLeapYear, InMonth, DayInYear;
    var year := MsToYear(ms);
    var leap := IsInLeapYear(ms);
    DayFitsYear(ms, year);
    month := MonthCascade(DayInYear(ms, year), leap);
    forall y | InYear(MsToDays(ms), y)
      ensures y == year
    {
      YearIsUnique(MsToDays(ms), y, year);
    }
  }

  /** The second cascade, with limits one lower, counts days from one. */
  method DayCascade(d: int, leap: bool) returns (day: int)
    requires 0 <= d < if leap then 366 else 365
    ensures forall m :: 0 <= m < 12 && InMonth(d, m, leap) ==> day == d - MonthToDayInYear(m, leap) + 1
  {
    var next := 30;
    if d <= next {
      return d + 1;
    }
    var step := next;
    next := next + if leap then 29 else 28;
    if d <= next {
      return d - step;
    }
    step := next;
    next := next + 31;
    if d <= next {
      return d - step;
    }
    step := next;
    next := next + 30;
    if d <= next {
      return d - step;
    }
    step := next;
    next := next + 31;
    if d <= next {
      return d - step;
    }
    step := next;
    next := next + 30;
    if d <= next {
      return d - step;
    }
    step := next;
    next := next + 31;
    if d <= next {
      return d - step;
    }
    step := next;
    next := next + 31;
    if d <= next {
      return d - step;
    }
    step := next;
    next := next + 30;
    if d <= next {
      return d - step;
    }
    step := next;
    next := next + 31;
    if d <= next {
      return d - step;
    }
    step := next;
    next := next + 30;
    if d <= next {
      return d - step;
    }
    step := next;
    return d - step;
  }

  method MsToDayInMonth(ms: int) returns (day: int)
    ensures forall y, m :: InYear(MsToDays(ms), y) && 0 <= m < 12 && InMonth(DayInYear(ms, y), m, IsLeapYear(y)) ==>
      day == DayInYear(ms, y) - MonthToDayInYear(m, IsLeapYear(y)) + 1
  {
    hide InYear, IsLeapYear, InMonth, DayInYear, MonthToDayInYear;
    var year := MsToYear(ms);
    var leap := IsInLeapYear(ms);
    DayFitsYear(ms, year);
    day := DayCascade(DayInYear(ms, year), leap);
    forall y | InYear(MsToDays(ms), y)
      ensures y == year
    {
      YearIsUnique(MsToDays(ms), y, year);
    }
  }

  // The time of day. The source takes C remainders and moves negative ones up.

  method Wrapped(a: int, b: int) returns (r: int)
    requires b > 0
    ensures r == a % b
  {
    WrappedRemainder(a, b);
    r := TruncMod(a, b);
    if r < 0 {
      r := r + b;
    }
  }

  /** Days since Thursday, 1 January 1970, as a day of the week from Sunday. */
  function WeekDay(day: int): int {
    (day + 4) % 7
  }

  /** The weekday moves on by one each day and returns after seven. */
  lemma WeekGoesRound(day: int)
    ensures WeekDay(0) == 4 && 0 <= WeekDay(day) < 7
    ensures WeekDay(day + 1) == (if WeekDay(day) == 6 then 0 else WeekDay(day) + 1)
  {
    var q := (day + 4) / 7;
    assert day + 4 == 7 * q + WeekDay(day);
    if WeekDay(day) == 6 {
      DivUnique(day + 5, 7, q + 1, 0);
    } else {
      DivUnique(day + 5, 7, q, WeekDay(day) + 1);
    }
  }

  // Dates.

  /** Days from 1970 to a calendar date, months and days counted from zero and one. */
  function DayNumber(year: int, month: int, day: int): int
    requires 0 <= month < 12
  {
    DaysFrom1970ToYear(year) + MonthToDayInYear(month, IsLeapYear(year)) + day - 1
  }

  predicate ValidDate(year: int, month: int, day: int) {
    0 <= month < 12 && 1 <= day <= DaysInMonth(month, IsLeapYear(year))
  }

  /** A valid date falls into its year and month. */
  lemma DateFallsInPlace(year: int, month: int, day: int)
    requires ValidDate(year, month, day)
    ensures InYear(DayNumber(year, month, day), year)
    ensures InMonth(DayNumber(year, month, day) - DaysFrom1970ToYear(year), month, IsLeapYear(year))
  {
    hide DaysFrom1970ToYear, DaysInYear, IsLeapYear;
    YearsAddUp(year);
    MonthEnds(month, IsLeapYear(year));
  }

  lemma MonthEnds(month: int, leap: bool)
    requires 0 <= month < 12
    ensures 0 <= MonthToDayInYear(month, leap)
    ensures MonthToDayInYear(month, leap) + DaysInMonth(month, leap) <= if leap then 366 else 365
  {}

  /** Different valid dates are different days, in calendar order. */
  lemma DatesAreUnique(y: int, m: int, d: int, y1: int, m1: int, d1: int)
    requires ValidDate(y, m, d) && ValidDate(y1, m1, d1) && DayNumber(y, m, d) == DayNumber(y1, m1, d1)
    ensures y == y1 && m == m1 && d == d1
  {
    hide DaysFrom1970ToYear, IsLeapYear, InMonth, InYear, MonthToDayInYear;
    DateFallsInPlace(y, m, d);
    DateFallsInPlace(y1, m1, d1);
    YearIsUnique(DayNumber(y, m, d), y, y1);
    MonthIsUnique(DayNumber(y, m, d) - DaysFrom1970ToYear(y), m, m1, IsLeapYear(y));
  }

  // The calendar, day by day.

  /** The last day of a month: 30 or 31 in turn, but for two long months running twice, and February. */
  function LastDay(year: int, month: int): int
    requires 0 <= month < 12
  {
    if month != 1 then 30 + (month + month / 7 + 1) % 2
    else if year % 4 == 0 && (year % 100 != 0 || year % 400 == 0) then 29
    else 28
  }

  datatype Date = Date(year: int, month: int, day: int)

  function NextDate(d: Date): Date
    requires 0 <= d.month < 12
  {
    if d.day < LastDay(d.year, d.month) then d.(day := d.day + 1)
    else if d.month < 11 then Date(d.year, d.month + 1, 1)
    else Date(d.year + 1, 0, 1)
  }

  lemma LastDayIsLast(year: int, month: int)
    requires 0 <= month < 12
    ensures DaysInMonth(month, IsLeapYear(year)) == LastDay(year, month)
  {
    if month == 1 {
      CoarserMultiple(year, 4, 25);
      CoarserMultiple(year, 100, 4);
    }
  }

  /** 1 January 1970 is day 0, and each date is one day after the date before it, through all months and years. */
  lemma DaysFollow(d: Date)
    requires 0 <= d.month < 12 && 1 <= d.day <= LastDay(d.year, d.month)
    ensures ValidDate(d.year, d.month, d.day) && 0 <= NextDate(d).month < 12
    ensures var n := NextDate(d);
      ValidDate(n.year, n.month, n.day) && DayNumber(n.year, n.month, n.day) == DayNumber(d.year, d.month, d.day) + 1
    ensures DayNumber(1970, 0, 1) == 0
  {
    hide DaysFrom1970ToYear, DaysInMonth, LastDay, MonthToDayInYear, IsLeapYear;
    LastDayIsLast(d.year, d.month);
    MonthsAddUp(d.month, IsLeapYear(d.year));
    MonthsAddUp(0, IsLeapYear(d.year + 1));
    YearsAddUp(d.year);
    EpochIsDayZero();
    FirstIsValid(d.year, if d.month < 11 then d.month + 1 else 0);
    FirstIsValid(d.year + 1, 0);
  }

  lemma FirstIsValid(year: int, month: int)
    requires 0 <= month < 12
    ensures ValidDate(year, month, 1)
  {}

  lemma EpochIsDayZero()
    ensures DayNumber(1970, 0, 1) == 0
  {}

  /** Any integer month counts as years and a month from 0 to 11. */
  method DateToDayInYear(year0: int, month0: int, day: int) returns (d: int)
    ensures d == DayNumber(year0 + month0 / 12, month0 % 12, day)
  {
    hide DaysFrom1970ToYear, MonthToDayInYear, IsLeapYear;
    WrappedRemainder(month0, 12);
    var year, month := year0 + TruncDiv(month0, 12), TruncMod(month0, 12);
    if month < 0 {
      month := month + 12;
      year := year - 1;
    }
    var yearday := MS_PER_DAY * DaysFrom1970ToYear(year) / MS_PER_DAY;
    DivUnique(MS_PER_DAY * DaysFrom1970ToYear(year), MS_PER_DAY, DaysFrom1970ToYear(year), 0);
    d := yearday + MonthToDayInYear(month, IsLeapYear(year)) + day - 1;
  }

  function TimeToMS(hour: int, min: int, sec: int, ms: int): int {
    ((hour * 60 + min) * 60 + sec) * MS_PER_SECOND + ms
  }

  /** The fields of a time. */
  datatype Fields = Fields(year: int, month: int, monthDay: int, hour: int, minute: int, second: int, weekDay: int, yearDay: int)

  /** The millisecond a time denotes; the source's years count from 1900. */
  function Instant(f: Fields, milli: int): int
    requires 0 <= f.month < 12
  {
    MS_PER_DAY * DayNumber(f.year + 1900, f.month, f.monthDay) + TimeToMS(f.hour, f.minute, f.second, milli)
  }

  /** In milliseconds. */
  lemma InstantInMilliseconds(f: Fields, milli: int)
    requires 0 <= f.month < 12
    ensures Instant(f, milli)
      == 86_400_000 * DayNumber(f.year + 1900, f.month, f.monthDay) + 3_600_000 * f.hour + 60_000 * f.minute + 1000 * f.second + milli
  {
    hide DayNumber;
  }

  /** The epoch is the start of a Thursday; the year's field counts from 1900, those of month, hour and the like from zero. */
  lemma EpochFields(f: Fields)
    requires f.year == 70 && f.month == 0 && f.monthDay == 1 && f.hour == f.minute == f.second == 0 && f.weekDay == 4 && f.yearDay == 0
    ensures ValidFields(f) && Instant(f, 0) == 0
  {
    hide DayNumber, ValidDate, WeekDay, MonthToDayInYear, DaysFrom1970ToYear, Instant, TimeToMS;
    EpochIsDayZero();
    InstantInMilliseconds(f, 0);
    FirstIsValid(f.year + 1900, 0);
    MonthsAddUp(0, IsLeapYear(f.year + 1900));
    WeekGoesRound(0);
  }

  /** All fields in range, and the day of week and year those of the date. */
  predicate ValidFields(f: Fields) {
    && ValidDate(f.year + 1900, f.month, f.monthDay)
    && 0 <= f.hour < 24 && 0 <= f.minute < 60 && 0 <= f.second < 60
    && f.weekDay == WeekDay(DayNumber(f.year + 1900, f.month, f.monthDay))
    && f.yearDay == MonthToDayInYear(f.month, IsLeapYear(f.year + 1900)) + f.monthDay - 1
  }

  /** Hours, minutes, seconds and milliseconds make up the time, within and across days. */
  lemma ClockParts(ms: int)
    ensures var h, m, s, t := (ms / MS_PER_HOUR) % 24, (ms / MS_PER_MINUTE) % 60, (ms / MS_PER_SECOND) % 60, ms % MS_PER_SECOND;
      ms == MS_PER_DAY * MsToDays(ms) + TimeToMS(h, m, s, t)
  {
    var a, b, c := ms / MS_PER_SECOND, ms / MS_PER_MINUTE, ms / MS_PER_HOUR;
    assert ms == 1000 * a + ms % 1000;
    NestedFloor(ms, 1000, 60);
    NestedFloor(ms, 60_000, 60);
    NestedFloor(ms, 3_600_000, 24);
  }

  /** Dividing in two steps is dividing at once. */
  lemma NestedFloor(n: int, b: int, c: int)
    requires b > 0 && c > 0
    ensures b * c > 0 && n / b == c * (n / (b * c)) + (n / b) % c
  {
    MulPositive(b, c);
    var q, r := n / b, n % b;
    var p, s := q / c, q % c;
    assert n == b * q + r && q == c * p + s;
    assert n == (b * c) * p + (b * s + r) by {
      assert b * (c * p + s) == (b * c) * p + b * s;
    }
    MulLe(s, c - 1, b);
    assert b * s + r < b * c;
    MulLe(0, s, b);
    DivUnique(n, b * c, p, b * s + r);
  }

  /** The time of day of valid fields. */
  lemma PartsOfClock(day: int, h: int, m: int, s: int, t: int)
    requires 0 <= h < 24 && 0 <= m < 60 && 0 <= s < 60 && 0 <= t < 1000
    ensures var ms := MS_PER_DAY * day + TimeToMS(h, m, s, t);
      && MsToDays(ms) == day && (ms / MS_PER_HOUR) % 24 == h && (ms / MS_PER_MINUTE) % 60 == m
      && (ms / MS_PER_SECOND) % 60 == s && ms % MS_PER_SECOND == t
  {
    var ms := MS_PER_DAY * day + TimeToMS(h, m, s, t);
    DivUnique(ms, MS_PER_DAY, day, TimeToMS(h, m, s, t));
    DivUnique(ms, MS_PER_HOUR, 24 * day + h, (m * 60 + s) * 1000 + t);
    DivUnique(24 * day + h, 24, day, h);
    DivUnique(ms, MS_PER_MINUTE, (24 * day + h) * 60 + m, s * 1000 + t);
    DivUnique((24 * day + h) * 60 + m, 60, 24 * day + h, m);
    DivUnique(ms, MS_PER_SECOND, ((24 * day + h) * 60 + m) * 60 + s, t);
    DivUnique(((24 * day + h) * 60 + m) * 60 + s, 60, (24 * day + h) * 60 + m, s);
  }

  /** Valid fields and the milliseconds determine the instant, and it determines them. */
  lemma FieldsAreUnique(f: Fields, t: int, f1: Fields, t1: int)
    requires ValidFields(f) && ValidFields(f1) && 0 <= t < 1000 && 0 <= t1 < 1000 && Instant(f, t) == Instant(f1, t1)
    ensures f == f1 && t == t1
  {
    hide DaysFrom1970ToYear, IsLeapYear, MonthToDayInYear, DayNumber;
    var d, d1 := DayNumber(f.year + 1900, f.month, f.monthDay), DayNumber(f1.year + 1900, f1.month, f1.monthDay);
    PartsOfClock(d, f.hour, f.minute, f.second, t);
    PartsOfClock(d1, f1.hour, f1.minute, f1.second, t1);
    DatesAreUnique(f.year + 1900, f.month, f.monthDay, f1.year + 1900, f1.month, f1.monthDay);
  }

  /** The struct tm of the source, with the fields that the UTC paths fill in or read. */
  class GregorianDateTime {
    var second: int
    var minute: int
    var hour: int
    var weekDay: int
    var monthDay: int
    var yearDay: int
    var month: int
    var year: int
    var isDST: bool
    var utcOffset: int

    constructor ()
    {
      second, minute, hour, weekDay, monthDay, yearDay, month, year := 0, 0, 0, 0, 0, 0, 0, 0;
      isDST, utcOffset := false, 0;
    }

    function Value(): Fields
      reads this
    {
      Fields(year, month, monthDay, hour, minute, second, weekDay, yearDay)
    }

    /** Splits a UTC time: valid fields that, with the milliseconds left over, denote it. */
    method FromMS(ms: int, utcOffsetMS: int)
      modifies this
      ensures ValidFields(Value()) && Instant(Value(), ms % MS_PER_SECOND) == ms
      ensures !isDST && utcOffset == TruncDiv(utcOffsetMS, MS_PER_SECOND)
    {
      hide InYear, InMonth, IsLeapYear, DaysFrom1970ToYear, MonthToDayInYear, MsToDays, DayInYear, ValidDate, DayNumber;
      second := Wrapped(ms / MS_PER_SECOND, 60);
      minute := Wrapped(ms / MS_PER_MINUTE, 60);
      hour := Wrapped(ms / MS_PER_HOUR, 24);
      weekDay := Wrapped(MsToDays(ms) + 4, 7);
      monthDay := MsToDayInMonth(ms);
      var y := MsToYear(ms);
      yearDay := DayInYear(ms, y);
      month := MsToMonth(ms);
      var again := MsToYear(ms);
      YearIsUnique(MsToDays(ms), y, again);
      year := again - 1900;
      isDST := false;
      utcOffset := TruncDiv(utcOffsetMS, MS_PER_SECOND);
      ClockParts(ms);
      MonthGivesDate(ms, y, month, monthDay);
    }

    /** The UTC time its date and clock denote, for any integer month. */
    method ToMS(milliSeconds: int) returns (result: int)
      ensures result == MS_PER_DAY * DayNumber(year + 1900 + month / 12, month % 12, monthDay) + TimeToMS(hour, minute, second, milliSeconds)
      ensures 0 <= month < 12 ==> result == Instant(Value(), milliSeconds)
    {
      hide DayNumber;
      var day := DateToDayInYear(year + 1900, month, monthDay);
      var ms := TimeToMS(hour, minute, second, milliSeconds);
      result := day * MS_PER_DAY + ms;
    }
  }

  lemma MonthGivesDate(ms: int, y: int, month: int, day: int)
    requires InYear(MsToDays(ms), y) && 0 <= month < 12 && InMonth(DayInYear(ms, y), month, IsLeapYear(y))
    requires day == DayInYear(ms, y) - MonthToDayInYear(month, IsLeapYear(y)) + 1
    ensures ValidDate(y, month, day) && DayNumber(y, month, day) == MsToDays(ms)
  {
    hide DaysFrom1970ToYear, IsLeapYear, MonthToDayInYear, MsToDays;
  }

  /** Splitting a time and putting it together again gives it back. */
  method SplitThenBuild(ms: int, utcOffsetMS: int) returns (again: int)
    ensures again == ms
  {
    hide ValidFields, Instant;
    var t := new GregorianDateTime();
    t.FromMS(ms, utcOffsetMS);
    assert 0 <= t.month < 12 by { MonthInRange(t.Value()); }
    again := t.ToMS(ms % MS_PER_SECOND);
  }

  lemma MonthInRange(f: Fields)
    requires ValidFields(f)
    ensures 0 <= f.month < 12
  {}

  /** Putting valid fields together and splitting the result gives them back. */
  method BuildThenSplit(t: GregorianDateTime, milliSeconds: int, utcOffsetMS: int)
    requires ValidFields(t.Value()) && 0 <= milliSeconds < MS_PER_SECOND
    modifies t
    ensures t.Value() == old(t.Value())
  {
    hide ValidFields, Instant;
    ghost var f := t.Value();
    MonthInRange(f);
    var ms := t.ToMS(milliSeconds);
    t.FromMS(ms, utcOffsetMS);
    FieldsAreUnique(f, milliSeconds, t.Value(), ms % MS_PER_SECOND);
  }
}
