/** addShelfLife: the expiry date of an item, from its start date and its
    shelf life in days, weeks or months. */
module ShelfLife {
  import opened Calendar

  const Days: string := "days"
  const Weeks: string := "weeks"
  const Months: string := "months"

  predicate IsUnit(unit: string) {
    unit == Days || unit == Weeks || unit == Months
  }

  /** addShelfLife(start, value, unit) on a whole-number value. Days and weeks
      move the date by that many days (seven per week); months keep the day
      of the month and roll surplus days into the following month; any other
      unit leaves the start date unchanged. */
  function AddShelfLife(start: Day, value: int, unit: string): (r: Day)
    ensures unit == Days ==> DayDiff(start, r) == value
    ensures unit == Weeks ==> DayDiff(start, r) == 7 * value
    ensures unit == Months ==>
              var c := Civil(start); LandsIn(r, MonthNumber(c.year, c.month - 1 + value), c.day)
    ensures !IsUnit(unit) ==> r == start
  {
    if unit == Days then
      AddDaysMoves(start, value);
      AddDays(start, value)
    else if unit == Weeks then
      AddDaysMoves(start, value * 7);
      AddDays(start, value * 7)
    else if unit == Months then
      AddMonthsLands(start, value);
      AddMonths(start, value)
    else start
  }

  /** A positive shelf life in a known unit always ends after the start. */
  lemma ShelfLifeEndsLater(start: Day, value: int, unit: string)
    requires value > 0 && IsUnit(unit)
    ensures DayDiff(start, AddShelfLife(start, value, unit)) > 0
  {
    if unit == Months {
      AddMonthsLater(start, value);
    }
  }

  /** One week is seven days. */
  lemma WeekIsSevenDays(start: Day, value: int)
    ensures AddShelfLife(start, value, Weeks) == AddShelfLife(start, 7 * value, Days)
  {
  }

  /** Shelf lives in days add up. */
  lemma DaysCompose(start: Day, a: int, b: int)
    ensures AddShelfLife(AddShelfLife(start, a, Days), b, Days) == AddShelfLife(start, a + b, Days)
  {
  }

  /** A month added to January 31 of 2023 ends on March 3. */
  lemma JanuaryThirtyFirstPlusOneMonth(start: Day)
    requires Civil(start) == CalendarDate(2023, 1, 31)
    ensures Civil(AddShelfLife(start, 1, Months)) == CalendarDate(2023, 3, 3)
  {
    FebruaryTwentyThree();
  }

  lemma FebruaryTwentyThree()
    ensures MonthNumber(2023, 1) == 24277 && MonthLength(24277) == 28
    ensures InMonth(24278, 3) == CalendarDate(2023, 3, 3)
  {
  }
}
