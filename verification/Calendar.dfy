/**
 * Calendar arithmetic of section 15.9.1 of ECMA-262 5.1: years, months and days from a time
 * value and back, over exact integers.
 */
module Calendar {
  import opened Basics
  import opened Naturals
  import opened Numbers

  const MS_PER_SECOND := 1000
  const MS_PER_MINUTE := 60000
  const MS_PER_HOUR := 3600000
  const MS_PER_DAY := 86400000

  /** 365.2425 days, the average year. */
  const MS_PER_YEAR := 31556952000

  const MAX_LOCAL := 8640002592000000

  // ----- years -----

  function DaysInYear(y: int): int
  {
    if ModTowardZero(if ModTowardZero(y, 100) == 0 then DivTowardZero(y, 100) else y, 4) == 0 then 366 else 365
  }

  function DaysFromYear(y: int): int
  {
    365 * (y - 1970) + ((y - 1) / 4 - 492) - ((y - 1) / 100 - 19) + ((y - 1) / 400 - 4)
  }

  function TimeFromYear(y: int): int
  {
    MS_PER_DAY * DaysFromYear(y)
  }

  /** The leap year rule of section 15.9.1.3. */
  predicate LeapYear(y: int)
  {
    Multiple(y, 4) && (Multiple(y, 100) ==> Multiple(y, 400))
  }

  predicate Multiple(y: int, n: int)
    requires n > 0
  {
    y % n == 0
  }

  lemma DaysInYearIs(y: int)
    ensures DaysInYear(y) == if LeapYear(y) then 366 else 365
  {
    hide DivTowardZero, ModTowardZero, Multiple;
    DividesAlike(y, 100);
    DividesAlike(y, 4);
    DividesAlike(y / 100, 4);
    Centuries(y);
  }

  /** Whether a remainder is zero does not depend on the rounding. */
  lemma DividesAlike(a: int, b: int)
    requires b > 0
    ensures ModTowardZero(a, b) == 0 <==> Multiple(a, b)
    ensures Multiple(a, b) ==> DivTowardZero(a, b) == a / b
  {
    AdjustedIs(a, b);
  }

  lemma Centuries(y: int)
    ensures Multiple(y, 100) ==> (Multiple(y, 400) <==> Multiple(y / 100, 4))
    ensures Multiple(y, 400) ==> Multiple(y, 100)
    ensures Multiple(y, 100) ==> Multiple(y, 4)
  {
  }

  /** The day number of section 15.9.1.3, with its own constants. */
  lemma DaysFromYearIs(y: int)
    ensures DaysFromYear(y) == 365 * (y - 1970) + (y - 1969) / 4 - (y - 1901) / 100 + (y - 1601) / 400
  {
    Shifted(y - 1, 4, 492);
    Shifted(y - 1, 100, 19);
    Shifted(y - 1, 400, 4);
  }

  lemma Shifted(x: int, n: int, k: int)
    requires n in {4, 100, 400}
    ensures x / n - k == (x - n * k) / n
  {
    DivModUnique(x - n * k, n, x / n - k, x % n);
  }

  /** Each year begins as many days after the one before as that year has. */
  lemma NextYear(y: int)
    ensures DaysFromYear(y + 1) == DaysFromYear(y) + DaysInYear(y)
  {
    DaysInYearIs(y);
    Steps(y, 4);
    Steps(y, 100);
    Steps(y, 400);
    LeapDay(y);
    hide DaysInYear, LeapYear, Step;
  }

  function Step(y: int, n: int): int
    requires n > 0
  {
    if Multiple(y, n) then 1 else 0
  }

  lemma LeapDay(y: int)
    ensures Step(y, 4) - Step(y, 100) + Step(y, 400) == if LeapYear(y) then 1 else 0
  {
    Centuries(y);
    hide Multiple;
  }

  lemma Steps(y: int, n: int)
    requires n in {4, 100, 400}
    ensures y / n == (y - 1) / n + Step(y, n)
  {
  }

  lemma {:induction false} YearsInOrder(a: int, b: int)
    requires a < b
    ensures DaysFromYear(a) + 365 * (b - a) <= DaysFromYear(b)
    decreases b - a
  {
    NextYear(b - 1);
    DaysInYearIs(b - 1);
    if a < b - 1 {
      YearsInOrder(a, b - 1);
    }
  }

  /** The days before a year differ by less than four from the average. */
  lemma NearAverage(y: int)
    ensures -40000 < 10000 * DaysFromYear(y) - 3652425 * (y - 1970) < 40000
  {
  }

  function YearFromTime(t: int): int
  {
    var about := t / MS_PER_YEAR + 1970;
    if TimeFromYear(about) > t then about - 1
    else if TimeFromYear(about + 1) <= t then about + 1
    else about
  }

  /** Correcting the estimate by one is enough, for every time value. */
  lemma YearContains(t: int)
    ensures TimeFromYear(YearFromTime(t)) <= t < TimeFromYear(YearFromTime(t) + 1)
  {
    var a := t / MS_PER_YEAR;
    assert MS_PER_YEAR * a <= t < MS_PER_YEAR * (a + 1);
    NearAverage(a + 1969);
    NearAverage(a + 1972);
  }

  lemma YearUnique(t: int, y: int)
    requires TimeFromYear(y) <= t < TimeFromYear(y + 1)
    ensures YearFromTime(t) == y
  {
    YearContains(t);
    var x := YearFromTime(t);
    if x < y && x + 1 != y {
      YearsInOrder(x + 1, y);
    } else if y < x && y + 1 != x {
      YearsInOrder(y + 1, x);
    }
  }

  // ----- months -----

  predicate IsLeap(t: int) { DaysInYear(YearFromTime(t)) == 366 }

  function Day(t: int): int { t / MS_PER_DAY }

  /** The day number by a division towards zero. */
  function Int64Day(t: int): int
  {
    DivTowardZero(if t < 0 then t - (MS_PER_DAY - 1) else t, MS_PER_DAY)
  }

  lemma Int64DayIsDay(t: int)
    ensures Int64Day(t) == Day(t)
  {
    if t < 0 {
      var n := -t + MS_PER_DAY - 1;
      assert n == MS_PER_DAY * (n / MS_PER_DAY) + n % MS_PER_DAY;
      DivModUnique(t, MS_PER_DAY, -(n / MS_PER_DAY), MS_PER_DAY - 1 - n % MS_PER_DAY);
    }
  }

  function DayWithinYear(t: int): int { Day(t) - DaysFromYear(YearFromTime(t)) }

  const DAYS_MAP: seq<seq<int>> := [
    [31, 28, 31, 30, 31, 30, 31, 31, 30, 31, 30, 31],
    [31, 29, 31, 30, 31, 30, 31, 31, 30, 31, 30, 31]]

  const MONTH_MAP: seq<seq<int>> := [
    [0, 31, 59, 90, 120, 151, 181, 212, 243, 273, 304, 334],
    [0, 31, 60, 91, 121, 152, 182, 213, 244, 274, 305, 335]]

  function DaysMap(leap: bool, m: int): int
    requires 0 <= m < 12
  {
    DAYS_MAP[if leap then 1 else 0][m]
  }

  function MonthToDaysInYear(m: int, leap: bool): int
    requires 0 <= m < 12
  {
    MONTH_MAP[if leap then 1 else 0][m]
  }

  /** The days of the year before month m, summed over the lengths of the months. */
  function MonthStart(leap: bool, m: nat): int
    requires m <= 12
  {
    if m == 0 then 0 else MonthStart(leap, m - 1) + DaysMap(leap, m - 1)
  }

  /** DayWithinYear at the first of each month, by the list in section 15.9.1.4. */
  function FirstOfMonth(m: int, leap: bool): int
    requires 0 <= m < 12
  {
    var one := if leap then 1 else 0;
    match m
    case 0 => 0
    case 1 => 31
    case 2 => 59 + one
    case 3 => 90 + one
    case 4 => 120 + one
    case 5 => 151 + one
    case 6 => 181 + one
    case 7 => 212 + one
    case 8 => 243 + one
    case 9 => 273 + one
    case 10 => 304 + one
    case 11 => 334 + one
  }

  /** A month begins where the standard says, and the next one after as many days as its length. */
  lemma MonthStarts(leap: bool, m: int)
    requires 0 <= m < 12
    ensures MonthStart(leap, m) == FirstOfMonth(m, leap)
    ensures MonthStart(leap, m + 1) == if m < 11 then FirstOfMonth(m + 1, leap) else if leap then 366 else 365
    ensures DaysMap(leap, m) == MonthStart(leap, m + 1) - FirstOfMonth(m, leap)
  {
    MonthTables(leap);
  }

  /** The table of month starts is the running sum of the table of month lengths, and they make a year. */
  lemma MonthTables(leap: bool)
    ensures forall m :: 0 <= m < 12 ==> MonthToDaysInYear(m, leap) == MonthStart(leap, m)
    ensures MonthStart(leap, 12) == if leap then 366 else 365
  {
    assert MonthStart(leap, 1) == MonthToDaysInYear(1, leap);
    assert MonthStart(leap, 2) == MonthToDaysInYear(2, leap);
    assert MonthStart(leap, 3) == MonthToDaysInYear(3, leap);
    assert MonthStart(leap, 4) == MonthToDaysInYear(4, leap);
    assert MonthStart(leap, 5) == MonthToDaysInYear(5, leap);
    assert MonthStart(leap, 6) == MonthToDaysInYear(6, leap);
    assert MonthStart(leap, 7) == MonthToDaysInYear(7, leap);
    assert MonthStart(leap, 8) == MonthToDaysInYear(8, leap);
    assert MonthStart(leap, 9) == MonthToDaysInYear(9, leap);
    assert MonthStart(leap, 10) == MonthToDaysInYear(10, leap);
    assert MonthStart(leap, 11) == MonthToDaysInYear(11, leap);
  }

  lemma DayWithinYearInRange(t: int)
    ensures 0 <= DayWithinYear(t) < DaysInYear(YearFromTime(t))
  {
    YearContains(t);
    NextYear(YearFromTime(t));
    assert MS_PER_DAY * Day(t) <= t < MS_PER_DAY * (Day(t) + 1);
  }

  /** `within` lies in month m of the year, on the given date. */
  ghost predicate Falls(leap: bool, within: int, m: int, date: int)
  {
    0 <= m < 12 && MonthStart(leap, m) <= within < MonthStart(leap, m + 1) && date == within - MonthStart(leap, m) + 1
  }

  /** The loop over the months always finds one, so its end is never reached. */
  method FindMonth(leap: bool, within: int) returns (m: int, date: int)
    requires 0 <= within < if leap then 366 else 365
    ensures Falls(leap, within, m, date)
  {
    MonthTables(leap);
    var left := within;
    for i := 0 to 12
      invariant left == within - MonthStart(leap, i) && left >= 0
    {
      left := left - DaysMap(leap, i);
      if left < 0 {
        return i, left + DaysMap(leap, i) + 1;
      }
    }
    assert false;
  }

  method MonthFromTime(t: int) returns (m: int)
    ensures exists date :: Falls(IsLeap(t), DayWithinYear(t), m, date)
  {
    DayWithinYearInRange(t);
    DaysInYearIs(YearFromTime(t));
    var date;
    m, date := FindMonth(IsLeap(t), DayWithinYear(t));
  }

  method DateFromTime(t: int) returns (date: int)
    ensures exists m :: Falls(IsLeap(t), DayWithinYear(t), m, date)
  {
    DayWithinYearInRange(t);
    DaysInYearIs(YearFromTime(t));
    var m;
    m, date := FindMonth(IsLeap(t), DayWithinYear(t));
  }

  method YMDFromTime(t: int) returns (year: int, month: int, date: int)
    ensures year == YearFromTime(t) && Falls(IsLeap(t), DayWithinYear(t), month, date)
  {
    DayWithinYearInRange(t);
    DaysInYearIs(YearFromTime(t));
    var about := t / MS_PER_YEAR + 1970;
    year := if TimeFromYear(about) > t then about - 1 else if TimeFromYear(about + 1) <= t then about + 1 else about;
    month, date := FindMonth(DaysInYear(year) == 366, Day(t) - DaysFromYear(year));
  }

  // ----- making days and times -----

  function DateToDays(year: int, month: int, date: int): int
    requires -12 < month < 12
  {
    var (y, m) := if month < 0 then (year - 1, month + 12) else (year, month);
    DaysFromYear(y) + MonthToDaysInYear(m, DaysInYear(y) == 366) + date - 1
  }

  /** A day number lies before 1970 exactly when its year does. */
  lemma YearDaySign(y: int)
    ensures DaysFromYear(y) >= 0 <==> y >= 1970
  {
    if y < 1970 {
      YearsInOrder(y, 1970);
    } else if y > 1970 {
      YearsInOrder(1970, y);
    }
  }

  /** Every month number, negative ones included, is carried into the year. */
  function DayNumber(y: int, m: int, dt: int): int
  {
    DaysFromYear(y + m / 12) + MonthStart(LeapYear(y + m / 12), m % 12) + dt - 1
  }

  lemma MakeDayIs(y: int, m: int, dt: int)
    ensures DateToDays(y + DivTowardZero(m, 12), ModTowardZero(m, 12), dt) == DayNumber(y, m, dt)
  {
    AdjustedIs(m, 12);
    MonthTables(LeapYear(y + m / 12));
    DaysInYearIs(y + m / 12);
  }

  /**
   * Each argument is cast to an integer of 32 bits, which cuts off its fraction (out of range the cast gives
   * `stray`), and the month is carried into the year whatever its sign.
   */
  function MakeDay(year: Number, month: Number, date: Number, stray: Number -> Int32): (r: Number)
    ensures r ==
      if !IsFinite(year) || !IsFinite(month) || !IsFinite(date) then NaN
      else FromInteger(DayNumber(CastToInt32(year, stray(year)), CastToInt32(month, stray(month)), CastToInt32(date, stray(date))))
  {
    if !IsFinite(year) || !IsFinite(month) || !IsFinite(date) then NaN
    else
      var (y: int, m: int, dt: int) := (CastToInt32(year, stray(year)), CastToInt32(month, stray(month)), CastToInt32(date, stray(date)));
      AdjustedIs(m, 12);
      MakeDayIs(y, m, dt);
      FromInteger(DateToDays(y + DivTowardZero(m, 12), ModTowardZero(m, 12), dt))
  }

  /** Twelve months are a year, and days are counted on and on. */
  lemma MakeDayCarries(y: int, m: int, dt: int, k: int)
    ensures DayNumber(y, m + 12 * k, dt) == DayNumber(y + k, m, dt)
    ensures DayNumber(y, m, dt + k) == DayNumber(y, m, dt) + k
  {
    DivModUnique(m + 12 * k, 12, m / 12 + k, m % 12);
  }

  function TimeNumber(hour: int, min: int, sec: int, ms: int): int
  {
    hour * MS_PER_HOUR + min * MS_PER_MINUTE + sec * MS_PER_SECOND + ms
  }

  function MakeTime(hour: Number, min: Number, sec: Number, ms: Number): Number
  {
    if !IsFinite(hour) || !IsFinite(min) || !IsFinite(sec) || !IsFinite(ms) then NaN
    else FromInteger(TimeNumber(Truncated(Real(hour)), Truncated(Real(min)), Truncated(Real(sec)), Truncated(Real(ms))))
  }

  /** What is not finite gives something not finite, which is either no number or beyond the limit. */
  function MakeDate(day: Number, time: Number): Number
  {
    if !IsFinite(day) || !IsFinite(time) then NaN
    else
      var r := Real(day) * MS_PER_DAY as real + Real(time);
      if (if r < 0.0 then -r else r) > MAX_LOCAL as real then NaN else Finite(r)
  }

  lemma MakeDateIs(day: Number, time: Number)
    ensures IsFinite(day) && IsFinite(time) ==>
      var r := Real(day) * 86400000.0 + Real(time);
      MakeDate(day, time) == if -8640002592000000.0 <= r <= 8640002592000000.0 then Finite(r) else NaN
    ensures !IsFinite(day) || !IsFinite(time) ==> MakeDate(day, time) == NaN
  {
  }

  // ----- the fields of a time value -----

  function HourFromTime(t: int): int { Adjusted(t / MS_PER_HOUR, 24) }

  function MinFromTime(t: int): int { Adjusted(t / MS_PER_MINUTE, 60) }

  function SecFromTime(t: int): int { Adjusted(t / MS_PER_SECOND, 60) }

  function MsFromTime(t: int): int { Adjusted(t, MS_PER_SECOND) }

  function TimeWithinDay(t: int): int { Adjusted(t, MS_PER_DAY) }

  /** The four fields are in their ranges and together are the time within the day. */
  lemma TimeFields(t: int)
    ensures 0 <= HourFromTime(t) < 24 && 0 <= MinFromTime(t) < 60 && 0 <= SecFromTime(t) < 60 && 0 <= MsFromTime(t) < 1000
    ensures TimeNumber(HourFromTime(t), MinFromTime(t), SecFromTime(t), MsFromTime(t)) == TimeWithinDay(t)
    ensures t == Day(t) * MS_PER_DAY + TimeWithinDay(t)
    ensures t == Day(t) * 86400000 + HourFromTime(t) * 3600000 + MinFromTime(t) * 60000 + SecFromTime(t) * 1000 + MsFromTime(t)
  {
    AdjustedIs(t / MS_PER_HOUR, 24);
    AdjustedIs(t / MS_PER_MINUTE, 60);
    AdjustedIs(t / MS_PER_SECOND, 60);
    AdjustedIs(t, MS_PER_SECOND);
    AdjustedIs(t, MS_PER_DAY);
    Nested(t, 1000, 60);
    Nested(t, 60000, 60);
    Nested(t, 3600000, 24);
  }

  lemma Nested(t: int, m: int, n: int)
    requires m > 0 && n > 0
    ensures m * n > 0 && t / m == t / (m * n) * n + t / m % n
  {
    var q, low := t / m, t % m;
    var h, l := q / n, q % n;
    MulStrict(m, 0, n);
    MulMonotone(m, 0, l);
    MulMonotone(m, l, n - 1);
    Unnested(m, n, h, l, low);
    DivModUnique(t, m * n, h, m * l + low);
  }

  lemma Unnested(m: int, n: int, h: int, l: int, low: int)
    ensures m * (n * h + l) + low == (m * n) * h + (m * l + low)
    ensures m * (n - 1) == m * n - m
  {
    Assoc(m, n, h);
  }

  /** Splitting a time value and making it again gives it back, within the limit. */
  lemma SplitAndMake(t: int, m: int, date: int, stray: Number -> Int32)
    requires Falls(IsLeap(t), DayWithinYear(t), m, date) && -MAX_LOCAL <= t <= MAX_LOCAL
    ensures var day := MakeDay(FromInteger(YearFromTime(t)), FromInteger(m), FromInteger(date), stray);
      var time := MakeTime(FromInteger(HourFromTime(t)), FromInteger(MinFromTime(t)), FromInteger(SecFromTime(t)), FromInteger(MsFromTime(t)));
      day == FromInteger(Day(t)) && MakeDate(day, time) == FromInteger(t)
  {
    TimeFields(t);
    SplitDay(t, m, date);
    YearFits(t);
    hide *;
    MakesDay(YearFromTime(t), m, date, stray);
    MakesTime(HourFromTime(t), MinFromTime(t), SecFromTime(t), MsFromTime(t));
    MakesDate(Day(t), TimeWithinDay(t));
  }

  lemma MakesDay(y: Int32, m: Int32, date: Int32, stray: Number -> Int32)
    ensures MakeDay(FromInteger(y), FromInteger(m), FromInteger(date), stray) == FromInteger(DayNumber(y, m, date))
  {
    hide DayNumber;
  }

  lemma MakesTime(h: int, m: int, s: int, n: int)
    ensures MakeTime(FromInteger(h), FromInteger(m), FromInteger(s), FromInteger(n)) == FromInteger(TimeNumber(h, m, s, n))
  {
    hide TimeNumber;
  }

  lemma MakesDate(day: int, time: int)
    requires -MAX_LOCAL <= day * MS_PER_DAY + time <= MAX_LOCAL
    ensures MakeDate(FromInteger(day), FromInteger(time)) == FromInteger(day * MS_PER_DAY + time)
  {
  }

  lemma SplitDay(t: int, m: int, date: int)
    requires Falls(IsLeap(t), DayWithinYear(t), m, date)
    ensures DayNumber(YearFromTime(t), m, date) == Day(t) && 0 <= m < 12 && 1 <= date <= 31
  {
    DaysInYearIs(YearFromTime(t));
    assert m / 12 == 0 && m % 12 == m;
  }

  /** The years within the limit are small. */
  lemma YearFits(t: int)
    requires -MAX_LOCAL <= t <= MAX_LOCAL
    ensures -300000 < YearFromTime(t) < 300000
  {
    YearContains(t);
    NearAverage(YearFromTime(t));
    NearAverage(YearFromTime(t) + 1);
    hide YearFromTime, DaysFromYear;
  }

  /** The fields of a made day are those it was made of. */
  lemma MakeAndSplit(y: int, m: int, date: int, time: int)
    requires 0 <= m < 12 && 1 <= date <= DaysMap(LeapYear(y), m) && 0 <= time < MS_PER_DAY
    ensures var t := DayNumber(y, m, date) * MS_PER_DAY + time;
      YearFromTime(t) == y && Falls(IsLeap(t), DayWithinYear(t), m, date) && TimeWithinDay(t) == time
  {
    var day := DayNumber(y, m, date);
    var t := day * MS_PER_DAY + time;
    DivModUnique(t, MS_PER_DAY, day, time);
    AdjustedIs(t, MS_PER_DAY);
    FallsInYear(y, m, date);
    MadeDay(y, m, date);
    DaysInYearIs(y);
    NextYear(y);
    hide DaysFromYear, DaysInYear, LeapYear, YearFromTime, MonthStart, DaysMap, DayNumber, Falls, MonthToDaysInYear;
    YearUnique(t, y);
  }

  lemma MadeDay(y: int, m: int, date: int)
    requires 0 <= m < 12
    ensures DayNumber(y, m, date) == DaysFromYear(y) + MonthToDaysInYear(m, LeapYear(y)) + date - 1
  {
    assert m / 12 == 0 && m % 12 == m;
    MonthTables(LeapYear(y));
  }

  lemma FallsInYear(y: int, m: int, date: int)
    requires 0 <= m < 12 && 1 <= date <= DaysMap(LeapYear(y), m)
    ensures 0 <= MonthToDaysInYear(m, LeapYear(y)) + date - 1 < DaysInYear(y)
    ensures Falls(LeapYear(y), MonthToDaysInYear(m, LeapYear(y)) + date - 1, m, date)
  {
    MonthStartsInOrder(LeapYear(y), m + 1);
    MonthTables(LeapYear(y));
    DaysInYearIs(y);
  }

  lemma {:induction false} MonthStartsInOrder(leap: bool, m: nat)
    requires m <= 12
    ensures 0 <= MonthStart(leap, m) <= MonthStart(leap, 12)
    decreases 12 - m
  {
    MonthTables(leap);
    if m < 12 {
      assert MonthStart(leap, m) == MonthToDaysInYear(m, leap);
    }
  }

  // ----- week days -----

  function WeekDayFromDay(day: int): int { Adjusted(day + 4, 7) }

  function WeekDay(t: int): int { Adjusted(Day(t) + 4, 7) }

  /** The days of the week follow each other; the epoch was a Thursday. */
  lemma WeekDays(day: int)
    ensures 0 <= WeekDayFromDay(day) < 7 && WeekDayFromDay(day + 1) == (WeekDayFromDay(day) + 1) % 7
    ensures WeekDayFromDay(0) == 4
  {
    hide ModTowardZero;
    AdjustedIs(day + 4, 7);
    AdjustedIs(day + 5, 7);
    AdjustedIs(4, 7);
    NextModulo(day + 4);
  }

  lemma NextModulo(x: int)
    ensures (x + 1) % 7 == (x % 7 + 1) % 7
  {
  }

  /** Both ways to the day of the week agree. */
  lemma WeekDayIs(t: int)
    ensures WeekDay(t) == WeekDayFromDay(Int64Day(t)) == (Day(t) + 4) % 7
  {
    AdjustedIs(Day(t) + 4, 7);
    Int64DayIsDay(t);
    hide ModTowardZero, Day, Int64Day;
  }

  // ----- the cache -----

  datatype CacheState = OK | NG | INVALIDATED

  /** A date object; None is the value of an invalid date. The fields are computed at the first request. */
  class DateInstance {
    var value: Option<int>
    var year: int
    var month: int
    var date: int
    var weekday: int
    var hour: int
    var min: int
    var sec: int
    var ms: int
    var state: CacheState

    /** A valid cache holds the fields of the value. */
    ghost predicate Valid()
      reads this
    {
      && (state == NG <==> value.None?)
      && (state == OK ==> Holds(value.value))
    }

    ghost predicate Holds(t: int)
      reads this
    {
      && year == YearFromTime(t) && Falls(IsLeap(t), DayWithinYear(t), month, date)
      && weekday == WeekDay(t)
      && hour == HourFromTime(t) && min == MinFromTime(t) && sec == SecFromTime(t) && ms == MsFromTime(t)
    }

    constructor (value: Option<int>)
      ensures Valid() && this.value == value
    {
      this.value := value;
      state := if value.None? then NG else INVALIDATED;
    }

    /** The fields stay as they were until they are asked for. */
    method SetValue(value: Option<int>)
      modifies this`value, this`state
      ensures Valid() && this.value == value
    {
      this.value := value;
      state := if value.None? then NG else INVALIDATED;
    }

    method CalculateCache()
      requires Valid()
      modifies this
      ensures Valid() && value == old(value) && (value.Some? ==> Holds(value.value))
      ensures old(state) != INVALIDATED ==> unchanged(this)
    {
      if state != INVALIDATED {
        return;
      }
      var time := value.value;
      var day := Int64Day(time);
      year, month, date := YMDFromTime(time);
      weekday := WeekDayFromDay(day);
      WeekDayIs(time);
      CalculateTime(time, day);
      state := OK;
    }

    /** The fields of the time within the day. */
    method CalculateTime(time: int, day: int)
      requires day == Int64Day(time)
      modifies this`hour, this`min, this`sec, this`ms
      ensures hour == HourFromTime(time) && min == MinFromTime(time) && sec == SecFromTime(time) && ms == MsFromTime(time)
    {
      CachedFields(time);
      hide Int64Day, HourFromTime, MinFromTime, SecFromTime, MsFromTime;
      var timeInDay := time - MS_PER_DAY * day;
      hour := DivTowardZero(timeInDay, MS_PER_HOUR);
      min := ModTowardZero(DivTowardZero(timeInDay, MS_PER_MINUTE), 60);
      sec := ModTowardZero(DivTowardZero(timeInDay, MS_PER_SECOND), 60);
      ms := ModTowardZero(timeInDay, MS_PER_SECOND);
    }

    /** Every getter asks for the cache first; this is the one of the year. */
    method Year() returns (r: int)
      requires Valid()
      modifies this
      ensures Valid() && value == old(value)
      ensures value.Some? ==> r == YearFromTime(value.value)
      ensures value.None? ==> r == old(year) && unchanged(this)
    {
      CalculateCache();
      r := year;
    }

    method MonthAndDate() returns (m: int, d: int)
      requires Valid()
      modifies this
      ensures Valid() && value == old(value)
      ensures value.Some? ==> Falls(IsLeap(value.value), DayWithinYear(value.value), m, d)
      ensures value.None? ==> m == old(month) && d == old(date) && unchanged(this)
    {
      CalculateCache();
      m, d := month, date;
    }
  }

  /** The fields taken from the time within the day are those taken from the time value. */
  lemma CachedFields(t: int)
    ensures var r := t - MS_PER_DAY * Int64Day(t);
      && DivTowardZero(r, MS_PER_HOUR) == HourFromTime(t)
      && ModTowardZero(DivTowardZero(r, MS_PER_MINUTE), 60) == MinFromTime(t)
      && ModTowardZero(DivTowardZero(r, MS_PER_SECOND), 60) == SecFromTime(t)
      && ModTowardZero(r, MS_PER_SECOND) == MsFromTime(t)
  {
    Int64DayIsDay(t);
    TimeFields(t);
    var r := t - MS_PER_DAY * Day(t);
    var h, m, s, n := HourFromTime(t), MinFromTime(t), SecFromTime(t), MsFromTime(t);
    assert r == TimeNumber(h, m, s, n);
    FieldsBack(h, m, s, n);
  }

  lemma FieldsBack(h: int, m: int, s: int, n: int)
    requires 0 <= h && 0 <= m < 60 && 0 <= s < 60 && 0 <= n < 1000
    ensures var r := TimeNumber(h, m, s, n);
      r >= 0 && r / 3600000 == h && r / 60000 % 60 == m && r / 1000 % 60 == s && r % 1000 == n
  {
    var r := TimeNumber(h, m, s, n);
    DivModUnique(r, 1000, (h * 60 + m) * 60 + s, n);
    DivModUnique(r, 60000, h * 60 + m, s * 1000 + n);
    DivModUnique(r, 3600000, h, m * 60000 + s * 1000 + n);
    DivModUnique((h * 60 + m) * 60 + s, 60, h * 60 + m, s);
    DivModUnique(h * 60 + m, 60, h, m);
  }
}
