/** Calendar dates on the proleptic Gregorian calendar, the day-number scale
    they sit on (day 0 is 1970-01-01), and the normalisation the JavaScript
    Date object applies to an overflowing month or day (the MakeDay abstract
    operation of the ECMAScript specification). A JavaScript Date that holds
    local midnight is modelled by the calendar date it shows. */
module Calendar {

  datatype CalendarDate = CalendarDate(year: int, month: int, day: int)

  predicate IsLeapYear(y: int) {
    y % 4 == 0 && (y % 100 != 0 || y % 400 == 0)
  }

  function DaysInYear(y: int): int {
    if IsLeapYear(y) then 366 else 365
  }

  function DaysInMonth(y: int, m: int): int
    requires 1 <= m <= 12
  {
    if m == 2 then (if IsLeapYear(y) then 29 else 28)
    else if m == 4 || m == 6 || m == 9 || m == 11 then 30
    else 31
  }

  predicate IsValid(d: CalendarDate) {
    1 <= d.month <= 12 && 1 <= d.day <= DaysInMonth(d.year, d.month)
  }

  /** A date that exists on the calendar. */
  type Date = d: CalendarDate | IsValid(d) witness CalendarDate(1970, 1, 1)

  const EpochYear: int := 1970

  /** Number of leap years among 1..x when x >= 0; floor division continues
      the count consistently to x < 0. */
  function LeapYearsThrough(x: int): int {
    x / 4 - x / 100 + x / 400
  }

  /** Day number of January 1 of year y. */
  function DaysBeforeYear(y: int): int {
    365 * (y - EpochYear) + LeapYearsThrough(y - 1) - LeapYearsThrough(EpochYear - 1)
  }

  /** Days of year y that come before the first of month m (m = 13 gives the whole year). */
  function DaysBeforeMonth(y: int, m: int): int
    requires 1 <= m <= 13
  {
    var common :=
      if m == 1 then 0 else if m == 2 then 31 else if m == 3 then 59
      else if m == 4 then 90 else if m == 5 then 120 else if m == 6 then 151
      else if m == 7 then 181 else if m == 8 then 212 else if m == 9 then 243
      else if m == 10 then 273 else if m == 11 then 304 else if m == 12 then 334
      else 365;
    common + (if m > 2 && IsLeapYear(y) then 1 else 0)
  }

  /** Position of a date on the day scale. */
  function DayNumber(d: Date): int {
    DaysBeforeYear(d.year) + DaysBeforeMonth(d.year, d.month) + d.day - 1
  }

  // ---------------------------------------------------------------------------
  // Facts about the year and month tables
  // ---------------------------------------------------------------------------

  lemma DivStep(x: int, k: int)
    requires k == 4 || k == 100 || k == 400
    ensures x / k - (x - 1) / k == if x % k == 0 then 1 else 0
  {
  }

  lemma {:induction false} LeapYearStep(y: int)
    ensures LeapYearsThrough(y) - LeapYearsThrough(y - 1) == if IsLeapYear(y) then 1 else 0
  {
    DivStep(y, 4);
    DivStep(y, 100);
    DivStep(y, 400);
    if y % 100 == 0 {
      assert y == 4 * (25 * (y / 100));
    }
    if y % 400 == 0 {
      assert y == 100 * (4 * (y / 400));
    }
  }

  /** Each year is as long as the calendar says. */
  lemma {:induction false} YearStep(y: int)
    ensures DaysBeforeYear(y + 1) == DaysBeforeYear(y) + DaysInYear(y)
  {
    LeapYearStep(y);
  }

  lemma MonthStep(y: int, m: int)
    requires 1 <= m <= 12
    ensures DaysBeforeMonth(y, m + 1) == DaysBeforeMonth(y, m) + DaysInMonth(y, m)
  {
  }

  lemma WholeYear(y: int)
    ensures DaysBeforeMonth(y, 13) == DaysInYear(y)
  {
  }

  lemma {:induction false} YearsIncrease(a: int, b: int)
    requires a <= b
    ensures DaysBeforeYear(a) + 365 * (b - a) <= DaysBeforeYear(b)
    decreases b - a
  {
    if a < b {
      YearsIncrease(a, b - 1);
      YearStep(b - 1);
    }
  }

  lemma {:induction false} YearsAfterEpoch(k: nat)
    ensures DaysBeforeYear(EpochYear + k) <= 366 * k
  {
    if k > 0 {
      YearsAfterEpoch(k - 1);
      YearStep(EpochYear + k - 1);
    }
  }

  lemma {:induction false} YearsBeforeEpoch(k: nat)
    ensures DaysBeforeYear(EpochYear - k) <= -365 * k
  {
    if k > 0 {
      YearsBeforeEpoch(k - 1);
      YearStep(EpochYear - k);
    }
  }

  // ---------------------------------------------------------------------------
  // From a day number back to the date
  // ---------------------------------------------------------------------------

  /** A year no later than the one holding day n. */
  function YearLowerBound(n: int): (y: int)
    ensures DaysBeforeYear(y) <= n
  {
    if n >= 0 then
      YearsAfterEpoch(n / 366);
      EpochYear + n / 366
    else
      YearsBeforeEpoch(-(n / 365));
      EpochYear + n / 365
  }

  /** Walks forward from year y to the year that holds day n. */
  function FindYear(y: int, n: int): (r: int)
    requires DaysBeforeYear(y) <= n
    ensures DaysBeforeYear(r) <= n < DaysBeforeYear(r + 1)
    decreases n - DaysBeforeYear(y)
  {
    YearStep(y);
    if n < DaysBeforeYear(y + 1) then y else FindYear(y + 1, n)
  }

  /** Walks forward from month m to the month of year y holding day r of that year. */
  function FindMonth(y: int, r: int, m: int): (k: int)
    requires 1 <= m <= 12 && DaysBeforeMonth(y, m) <= r < DaysInYear(y)
    ensures 1 <= k <= 12
    ensures DaysBeforeMonth(y, k) <= r < DaysBeforeMonth(y, k + 1)
    decreases 12 - m
  {
    if m == 12 || r < DaysBeforeMonth(y, m + 1) then m else FindMonth(y, r, m + 1)
  }

  /** The date on day r (counted from 0) of year y. */
  function DateInYearAt(y: int, r: int): (d: Date)
    requires 0 <= r < DaysInYear(y)
    ensures d.year == y && DaysBeforeMonth(y, d.month) + d.day - 1 == r
  {
    var m := FindMonth(y, r, 1);
    MonthStep(y, m);
    CalendarDate(y, m, r - DaysBeforeMonth(y, m) + 1)
  }

  /** The date on day n of the scale. */
  function FromDayNumber(n: int): (d: Date)
    ensures DayNumber(d) == n
  {
    var y := FindYear(YearLowerBound(n), n);
    YearStep(y);
    DateInYearAt(y, n - DaysBeforeYear(y))
  }

  lemma {:induction false} YearUnique(y1: int, y2: int, n: int)
    requires DaysBeforeYear(y1) <= n < DaysBeforeYear(y1 + 1)
    requires DaysBeforeYear(y2) <= n < DaysBeforeYear(y2 + 1)
    ensures y1 == y2
  {
    if y1 < y2 {
      YearsIncrease(y1 + 1, y2);
    } else if y2 < y1 {
      YearsIncrease(y2 + 1, y1);
    }
  }

  lemma MonthUnique(y: int, m1: int, m2: int, r: int)
    requires 1 <= m1 <= 12 && 1 <= m2 <= 12
    requires DaysBeforeMonth(y, m1) <= r < DaysBeforeMonth(y, m1 + 1)
    requires DaysBeforeMonth(y, m2) <= r < DaysBeforeMonth(y, m2 + 1)
    ensures m1 == m2
  {
  }

  /** A date's day number falls inside its year and, within the year, inside its month. */
  lemma DateInYear(d: Date)
    ensures DaysBeforeYear(d.year) <= DayNumber(d) < DaysBeforeYear(d.year + 1)
    ensures var r := DayNumber(d) - DaysBeforeYear(d.year);
            DaysBeforeMonth(d.year, d.month) <= r < DaysBeforeMonth(d.year, d.month + 1)
  {
    MonthStep(d.year, d.month);
    WholeYear(d.year);
    YearStep(d.year);
  }

  /** Every date is recovered from its day number. */
  lemma {:induction false} FromDayNumberOfDate(d: Date)
    ensures FromDayNumber(DayNumber(d)) == d
  {
    var e := FromDayNumber(DayNumber(d));
    SameDayNumber(d, e);
  }

  /** Distinct dates have distinct day numbers. */
  lemma DayNumberInjective(a: Date, b: Date)
    ensures DayNumber(a) == DayNumber(b) <==> a == b
  {
    if DayNumber(a) == DayNumber(b) {
      SameDayNumber(a, b);
    }
  }

  lemma SameDayNumber(a: Date, b: Date)
    requires DayNumber(a) == DayNumber(b)
    ensures a == b
  {
    var n := DayNumber(a);
    DateInYear(a);
    DateInYear(b);
    YearUnique(a.year, b.year, n);
    MonthUnique(a.year, a.month, b.month, n - DaysBeforeYear(a.year));
  }

  // ---------------------------------------------------------------------------
  // Months counted from year 0 and the Date constructor's normalisation
  // ---------------------------------------------------------------------------

  /** Day number of the first day of the month with absolute index k, where
      month index k stands for year k / 12 and month k % 12 + 1. */
  function MonthStart(k: int): int {
    DaysBeforeYear(k / 12) + DaysBeforeMonth(k / 12, k % 12 + 1)
  }

  function MonthLength(k: int): int {
    DaysInMonth(k / 12, k % 12 + 1)
  }

  lemma {:induction false} MonthStartStep(k: int)
    ensures MonthStart(k + 1) == MonthStart(k) + MonthLength(k)
  {
    var y := k / 12;
    if k % 12 == 11 {
      assert (k + 1) / 12 == y + 1 && (k + 1) % 12 == 0;
      YearStep(y);
      WholeYear(y);
      MonthStep(y, 12);
    } else {
      assert (k + 1) / 12 == y && (k + 1) % 12 == k % 12 + 1;
      MonthStep(y, k % 12 + 1);
    }
  }

  lemma {:induction false} MonthStartIncreases(j: int, k: int)
    requires j < k
    ensures MonthStart(j) + MonthLength(j) <= MonthStart(k)
    decreases k - j
  {
    MonthStartStep(j);
    if j + 1 < k {
      MonthStartIncreases(j + 1, k);
      MonthLengthPositive(j + 1);
    }
  }

  lemma MonthLengthPositive(k: int)
    ensures MonthLength(k) >= 28
  {
  }

  /** Absolute month number of month index `monthIndex` (0 = January) of
      `year`; the index may lie outside 0..11. */
  function MonthNumber(year: int, monthIndex: int): int {
    12 * year + monthIndex
  }

  /** Absolute month number of a date's month. */
  function MonthIndex(d: CalendarDate): int {
    MonthNumber(d.year, d.month - 1)
  }

  /** The calendar triple for day `day` of the month with absolute number k. */
  function InMonth(k: int, day: int): CalendarDate {
    CalendarDate(k / 12, k % 12 + 1, day)
  }

  lemma MonthStartOfDate(d: Date)
    ensures MonthStart(MonthIndex(d)) == DayNumber(d) - d.day + 1
    ensures 1 <= d.day <= MonthLength(MonthIndex(d))
  {
    var k := MonthIndex(d);
    assert k / 12 == d.year && k % 12 == d.month - 1;
  }

  lemma InMonthDayNumber(k: int, day: int)
    requires 1 <= day <= MonthLength(k)
    ensures IsValid(InMonth(k, day))
    ensures DayNumber(InMonth(k, day)) == MonthStart(k) + day - 1
  {
  }

  // ---------------------------------------------------------------------------
  // Time values
  // ---------------------------------------------------------------------------

  /** A JavaScript Date holding local midnight, as its time value counted in
      whole days from 1970-01-01 (the model leaves out hours, time zones and
      daylight-saving shifts). */
  type Day = int

  /** The calendar date a time value shows (getFullYear, getMonth() + 1, getDate()). */
  function Civil(t: Day): Date {
    FromDayNumber(t)
  }

  /** The date shown by time value t is the valid date whose day number is t. */
  lemma CivilOfValid(e: CalendarDate, t: int)
    requires IsValid(e) && DayNumber(e) == t
    ensures Civil(t) == e
  {
    FromDayNumberOfDate(e);
  }

  /** new Date(year, monthIndex, day) with the year taken literally (the
      MakeDay operation of ECMAScript): the month index is reduced into its
      year, then the day is counted from the first of that month, so both
      may overflow or underflow into neighbouring months. */
  function MakeDay(year: int, monthIndex: int, day: int): Day {
    MonthStart(MonthNumber(year, monthIndex)) + day - 1
  }

  /** When the day fits its month, the time value MakeDay builds shows
      exactly that day of that month. */
  lemma MakeDayInMonth(year: int, monthIndex: int, day: int)
    requires 1 <= day <= MonthLength(MonthNumber(year, monthIndex))
    ensures Civil(MakeDay(year, monthIndex, day)) == InMonth(MonthNumber(year, monthIndex), day)
  {
    CivilInMonth(MonthNumber(year, monthIndex), day, MakeDay(year, monthIndex, day));
  }

  lemma CivilInMonth(k: int, day: int, t: Day)
    requires 1 <= day <= MonthLength(k) && t == MonthStart(k) + day - 1
    ensures Civil(t) == InMonth(k, day)
  {
    InMonthDayNumber(k, day);
    CivilOfValid(InMonth(k, day), t);
  }

  /** MakeDay on a valid date's own fields gives its day number. */
  lemma MakeDayOfDate(d: Date)
    ensures MakeDay(d.year, d.month - 1, d.day) == DayNumber(d)
  {
    var start := MonthStart(MonthIndex(d));
    assert start == DayNumber(d) - d.day + 1 by {
      MonthStartOfDate(d);
    }
  }

  /** Rebuilding a time value from the calendar fields it shows gives it back. */
  lemma {:induction false} MakeDayOfCivil(t: Day)
    ensures var c := Civil(t); MakeDay(c.year, c.month - 1, c.day) == t
  {
    var c := Civil(t);
    assert DayNumber(c) == t;
    MakeDayOfDate(c);
  }

  /** A valid calendar date is shown by exactly the time value MakeDay builds from it. */
  lemma {:induction false} CivilOfMakeDay(d: Date)
    ensures MakeDay(d.year, d.month - 1, d.day) == DayNumber(d)
    ensures Civil(DayNumber(d)) == d
  {
    MakeDayOfDate(d);
    CivilOfValid(d, DayNumber(d));
  }

  /** Fields naming a real date make the time value that shows that date. */
  lemma CivilOfFields(year: int, month: int, day: int)
    requires IsValid(CalendarDate(year, month, day))
    ensures Civil(MakeDay(year, month - 1, day)) == CalendarDate(year, month, day)
  {
    var d: Date := CalendarDate(year, month, day);
    var t := MakeDay(year, month - 1, day);
    assert t == DayNumber(d) by {
      CivilOfMakeDay(d);
    }
    CivilOfValid(d, t);
  }

  // ---------------------------------------------------------------------------
  // The day difference and the two setters the tracker uses
  // ---------------------------------------------------------------------------

  /** new Date(d.getFullYear(), d.getMonth(), d.getDate()) with the year
      taken literally: a new time value built from the year, month and day
      that t shows. MidnightAsWritten is the code as written. */
  function Midnight(t: Day): Day {
    var c := Civil(t);
    MakeDay(c.year, c.month - 1, c.day)
  }

  /** Rebuilding a whole-day time value from the date it shows gives it back. */
  lemma MidnightOfDay(t: Day)
    ensures Midnight(t) == t
  {
    MakeDayOfCivil(t);
  }

  /** Calendar days from `from` to `to`: both are truncated to the midnight of
      the date they show, then differenced; positive when `to` is later. */
  function DayDiff(from: Day, to: Day): (n: int)
    ensures n == to - from
  {
    MidnightOfDay(from);
    MidnightOfDay(to);
    Midnight(to) - Midnight(from)
  }

  // ---------------------------------------------------------------------------
  // dayDiff as written: the Date constructor's two-digit years
  // ---------------------------------------------------------------------------

  /** The year the Date constructor actually uses: a year from 0 to 99 is
      taken as 1900 plus that year (section 21.4.2.1 of ECMA-262). The setters
      setDate and setMonth keep the year as it is. */
  function ConstructorYear(y: int): (r: int)
    ensures !(0 <= r <= 99)
    ensures r == y || r == 1900 + y
    ensures !(0 <= y <= 99) ==> r == y
  {
    if 0 <= y <= 99 then 1900 + y else y
  }

  /** new Date(d.getFullYear(), d.getMonth(), d.getDate()) as written: the
      constructor reads a shown year from 0 to 99 as 1900 plus that year. */
  function MidnightAsWritten(t: Day): Day {
    Rebuild(Civil(t))
  }

  /** new Date(c.year, c.month - 1, c.day) as the constructor builds it. */
  function Rebuild(c: Date): Day {
    MakeDay(ConstructorYear(c.year), c.month - 1, c.day)
  }

  /** dayDiff(from, to) as written. */
  function DayDiffAsWritten(from: Day, to: Day): int {
    MidnightAsWritten(to) - MidnightAsWritten(from)
  }

  /** Outside years 0 to 99 the code as written counts exactly the days from
      `from` to `to`, as DayDiff does. */
  lemma {:induction false} DayDiffAsWrittenAgrees(from: Day, to: Day)
    requires !(0 <= Civil(from).year <= 99) && !(0 <= Civil(to).year <= 99)
    ensures DayDiffAsWritten(from, to) == to - from
  {
    RebuildSame(Civil(from), from);
    RebuildSame(Civil(to), to);
  }

  lemma RebuildSame(c: Date, t: Day)
    requires DayNumber(c) == t && !(0 <= c.year <= 99)
    ensures Rebuild(c) == t
  {
    MakeDayOfDate(c);
  }

  /** Inside them the code as written rebuilds a date 1900 years later, so
      the rebuild is never the date itself. */
  lemma {:induction false} MidnightAsWrittenLater(t: Day)
    requires 0 <= Civil(t).year <= 99
    ensures MidnightAsWritten(t) > t
  {
    RebuildLater(Civil(t), t);
  }

  lemma RebuildLater(c: Date, t: Day)
    requires DayNumber(c) == t && 0 <= c.year <= 99
    ensures Rebuild(c) > t
  {
    EarlyYearLater(c);
  }

  /** The same day and month 1900 years on come later. */
  lemma EarlyYearLater(d: Date)
    ensures MakeDay(1900 + d.year, d.month - 1, d.day) > DayNumber(d)
  {
    MonthsLater(d, 12 * 1900);
    assert MonthNumber(d.year, d.month - 1 + 12 * 1900) == MonthNumber(1900 + d.year, d.month - 1);
  }

  /** 29 February of a leap year y from 0 to 99 whose year 1900 + y is not
      a leap year (year 0 is one, see YearZeroLeap), and the day after, 1
      March, are both rebuilt as 1 March of 1900 + y, so the code as written
      counts 0 days between two different dates. */
  lemma {:induction false} LeapDayFolds(a: Day, b: Day, y: int)
    requires 0 <= y <= 99 && IsLeapYear(y) && !IsLeapYear(1900 + y)
    requires Civil(a) == CalendarDate(y, 2, 29) && Civil(b) == CalendarDate(y, 3, 1)
    ensures b == a + 1
    ensures DayDiffAsWritten(a, b) == 0
  {
    LeapDayFoldsIn(Civil(a), Civil(b));
  }

  /** Year 0 is a leap year and 1900 is not, so 0000-02-29 and 0000-03-01
      meet the requirements of LeapDayFolds. */
  lemma YearZeroLeap()
    ensures IsLeapYear(0) && !IsLeapYear(1900)
  {
    assert 1900 % 400 == 300;
  }

  lemma LeapDayFoldsIn(p: Date, q: Date)
    requires 0 <= p.year <= 99 && IsLeapYear(p.year) && !IsLeapYear(1900 + p.year)
    requires p.month == 2 && p.day == 29 && q == CalendarDate(p.year, 3, 1)
    ensures DayNumber(q) == DayNumber(p) + 1
    ensures Rebuild(p) == Rebuild(q)
  {
    NextDateNumber(p);
    FebruaryFolds(p.year);
  }

  lemma FebruaryFolds(y: int)
    requires 0 <= y <= 99 && !IsLeapYear(1900 + y)
    ensures MakeDay(ConstructorYear(y), 1, 29) == MakeDay(ConstructorYear(y), 2, 1)
  {
    FebruaryEnd(1900 + y);
  }

  /** One day past the end of February is the first of March. */
  lemma FebruaryEnd(y: int)
    ensures MakeDay(y, 1, DaysInMonth(y, 2) + 1) == MakeDay(y, 2, 1)
  {
    var k := MonthNumber(y, 1);
    assert k / 12 == y && k % 12 == 1;
    assert MonthNumber(y, 2) == k + 1;
    MonthStartStep(k);
  }

  /** d.setDate(d.getDate() + n): the day of the month moved by n, with
      ECMAScript's normalisation of days outside the month. */
  function AddDays(t: Day, n: int): Day {
    var c := Civil(t);
    MakeDay(c.year, c.month - 1, c.day + n)
  }

  /** Moving the day of the month by n lands exactly n days later (earlier when n < 0). */
  lemma AddDaysMoves(t: Day, n: int)
    ensures AddDays(t, n) == t + n
  {
    var c := Civil(t);
    MakeDayOfCivil(t);
    MakeDayShift(c.year, c.month - 1, c.day, n);
  }

  /** The calendar date after d, by the rules of the calendar alone. */
  function NextDate(d: Date): Date {
    if d.day < DaysInMonth(d.year, d.month) then CalendarDate(d.year, d.month, d.day + 1)
    else if d.month < 12 then CalendarDate(d.year, d.month + 1, 1)
    else CalendarDate(d.year + 1, 1, 1)
  }

  lemma NextDateNumber(d: Date)
    ensures DayNumber(NextDate(d)) == DayNumber(d) + 1
  {
    if d.day == DaysInMonth(d.year, d.month) {
      MonthStep(d.year, d.month);
      if d.month == 12 {
        WholeYear(d.year);
        YearStep(d.year);
      }
    }
  }

  /** One day on from a time value shows the next calendar date. */
  lemma {:induction false} AddDaysNextDate(t: Day)
    ensures Civil(AddDays(t, 1)) == NextDate(Civil(t))
  {
    var c := Civil(t);
    AddDaysMoves(t, 1);
    NextDateNumber(c);
    CivilOfValid(NextDate(c), t + 1);
  }

  /** Strictly earlier in calendar order: by year, then month, then day. */
  predicate Before(a: CalendarDate, b: CalendarDate) {
    || a.year < b.year
    || (a.year == b.year && a.month < b.month)
    || (a.year == b.year && a.month == b.month && a.day < b.day)
  }

  lemma MonthsIncrease(y: int, m1: int, m2: int)
    requires 1 <= m1 < m2 <= 13
    ensures DaysBeforeMonth(y, m1) < DaysBeforeMonth(y, m2)
  {
  }

  /** Calendar order agrees with day-number order. */
  lemma BeforeNumber(a: Date, b: Date)
    requires Before(a, b)
    ensures DayNumber(a) < DayNumber(b)
  {
    var na, nb := DayNumber(a), DayNumber(b);
    if a.year < b.year {
      var endA, startB := DaysBeforeYear(a.year + 1), DaysBeforeYear(b.year);
      assert na < endA by {
        DateInYear(a);
      }
      assert startB <= nb by {
        DateInYear(b);
      }
      assert endA <= startB by {
        YearsIncrease(a.year + 1, b.year);
      }
    } else if a.month < b.month {
      var y := a.year;
      var endA, startB := DaysBeforeMonth(y, a.month + 1), DaysBeforeMonth(y, b.month);
      assert endA <= startB by {
        if a.month + 1 < b.month {
          MonthsIncrease(y, a.month + 1, b.month);
        }
      }
      assert na - DaysBeforeYear(y) < endA by {
        DateInYear(a);
      }
      assert startB <= nb - DaysBeforeYear(y) by {
        DateInYear(b);
      }
    }
  }

  /** The day difference between two dates is positive exactly when the
      second comes later in calendar order, and zero exactly when they are
      the same date. */
  lemma {:induction false} DayDiffOrder(a: Date, b: Date)
    ensures DayDiff(DayNumber(a), DayNumber(b)) > 0 <==> Before(a, b)
    ensures DayDiff(DayNumber(a), DayNumber(b)) == 0 <==> a == b
  {
    DayNumberInjective(a, b);
    if Before(a, b) {
      BeforeNumber(a, b);
    } else if a != b {
      assert Before(b, a);
      BeforeNumber(b, a);
    }
  }

  /** Moving the day field moves the time value by as many days. */
  lemma MakeDayShift(year: int, monthIndex: int, day: int, n: int)
    ensures MakeDay(year, monthIndex, day + n) == MakeDay(year, monthIndex, day) + n
  {
  }

  /** d.setMonth(d.getMonth() + n): the month moved by n with the day of the
      month kept, under ECMAScript's normalisation. */
  function AddMonths(t: Day, n: int): Day {
    var c := Civil(t);
    MakeDay(c.year, c.month - 1 + n, c.day)
  }

  /** r shows day `day` of month k when month k has that many days; otherwise
      the surplus runs on into month k + 1 (day 31 of a 28-day month is the
      3rd of the next month). */
  predicate LandsIn(r: Day, k: int, day: int) {
    && (day <= MonthLength(k) ==> Civil(r) == InMonth(k, day))
    && (day > MonthLength(k) ==> Civil(r) == InMonth(k + 1, day - MonthLength(k)))
  }

  /** Day 0 of month k is the last day of month k - 1. */
  lemma DayZeroLands(k: int, r: Day)
    requires r == MonthStart(k) - 1
    ensures Civil(r) == InMonth(k - 1, MonthLength(k - 1))
  {
    MonthStartStep(k - 1);
    MonthLengthPositive(k - 1);
    CivilInMonth(k - 1, MonthLength(k - 1), r);
  }

  /** Where the day-th day counted from the start of month k falls, for a day
      of at most 31 (no month is shorter than 28 days, so the surplus fits in
      month k + 1). */
  lemma LandsAt(k: int, day: int, r: Day)
    requires 1 <= day <= 31 && r == MonthStart(k) + day - 1
    ensures LandsIn(r, k, day)
  {
    if day <= MonthLength(k) {
      CivilInMonth(k, day, r);
    } else {
      var len := MonthLength(k);
      assert MonthStart(k + 1) == MonthStart(k) + len by {
        MonthStartStep(k);
      }
      assert MonthLength(k + 1) >= 28 by {
        MonthLengthPositive(k + 1);
      }
      CivilInMonth(k + 1, day - len, r);
    }
  }

  /** n months on from the date t shows: the same day of month MonthIndex + n,
      or, when that month is too short, the surplus days into the month after
      it (January 31 plus one month is March 3 in a common year). */
  lemma AddMonthsLands(t: Day, n: int)
    ensures var c := Civil(t); LandsIn(AddMonths(t, n), MonthNumber(c.year, c.month - 1 + n), c.day)
  {
    var c := Civil(t);
    var k := MonthNumber(c.year, c.month - 1 + n);
    var r := AddMonths(t, n);
    assert r == MonthStart(k) + c.day - 1;
    DateBounds(c);
    LandsAt(k, c.day, r);
  }

  /** Moving forward by a positive number of months gives a later time value. */
  lemma AddMonthsLater(t: Day, n: int)
    requires n > 0
    ensures AddMonths(t, n) > t
  {
    var c := Civil(t);
    MonthsLater(c, n);
  }

  /** The ranges every date's month and day fall in. */
  lemma DateBounds(d: Date)
    ensures 1 <= d.month <= 12 && 1 <= d.day <= 31
  {
  }

  lemma MonthsLater(d: Date, n: int)
    requires n > 0
    ensures MonthStart(MonthNumber(d.year, d.month - 1 + n)) + d.day - 1 > DayNumber(d)
  {
    var j, k := MonthIndex(d), MonthNumber(d.year, d.month - 1 + n);
    var here, len, later, dn := MonthStart(j), MonthLength(j), MonthStart(k), DayNumber(d);
    assert here == dn - d.day + 1 && 1 <= d.day <= len by {
      MonthStartOfDate(d);
    }
    assert here + len <= later by {
      MonthStartIncreases(j, k);
    }
    Shifted(here, len, later, dn, d.day);
  }

  lemma Shifted(here: int, len: int, later: int, dn: int, day: int)
    requires here == dn - day + 1 && 1 <= day <= len && here + len <= later
    ensures later + day - 1 > dn
  {
  }
}
