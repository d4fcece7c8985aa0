/** The three date conversions of the tracker: toISODate (a Date to
    "YYYY-MM-DD"), parseISODate ("YYYY-MM-DD" to a local-midnight Date) and
    formatDateRU ("YYYY-MM-DD" to "DD.MM.YYYY"). */
module IsoDates {
  import opened Text
  import opened Calendar
  import opened Optional

  // ---------------------------------------------------------------------------
  // toISODate
  // ---------------------------------------------------------------------------

  /** The ISO text of a calendar date: the year as String() renders it (no
      padding), then the month and the day padded to two digits. */
  function IsoOf(d: Date): string {
    DateBounds(d);
    IntToString(d.year) + "-" + TwoDigits(d.month) + "-" + TwoDigits(d.day)
  }

  /** toISODate(d) for the Date holding time value t. For a year from 0 on,
      the text splits at '-' into exactly three digit fields that read back
      as the year, the month and the day. */
  function ToISODate(t: Day): (s: string)
    ensures var c := Civil(t);
            c.year >= 0 ==> DateFields(s) == Some(Fields(c.year, c.month, c.day))
  {
    var c := Civil(t);
    if c.year >= 0 then
      IsoFields(c);
      IsoOf(c)
    else
      IsoOf(c)
  }

  /** The shape of "Y-MM-DD": the month and the day take two digits each,
      each after a '-'; when `yearDigits` holds, the year in front is a digit
      run too. */
  predicate IsoShaped(s: string, yearDigits: bool) {
    && |s| >= 7 && s[|s| - 6] == '-' && s[|s| - 3] == '-'
    && IsDigits(s[|s| - 5..|s| - 3]) && IsDigits(s[|s| - 2..])
    && (yearDigits ==> IsDigits(s[..|s| - 6]))
  }

  /** toISODate's text always has that shape; from year 0 on, with a digit
      year in front. */
  lemma IsoShape(d: Date)
    ensures IsoShaped(IsoOf(d), d.year >= 0)
  {
    DateBounds(d);
    var y := IntToString(d.year);
    IsoPieces(y, TwoDigits(d.month), TwoDigits(d.day), d.year >= 0);
  }

  lemma IsoPieces(y: string, m: string, d: string, yearDigits: bool)
    requires |y| >= 1 && |m| == 2 && |d| == 2 && IsDigits(m) && IsDigits(d)
    requires yearDigits ==> IsDigits(y)
    ensures IsoShaped(y + "-" + m + "-" + d, yearDigits)
  {
    var s := y + "-" + m + "-" + d;
    assert s[|s| - 5..|s| - 3] == m;
    assert s[|s| - 2..] == d;
    assert s[..|s| - 6] == y;
  }

  // ---------------------------------------------------------------------------
  // Reading "YYYY-MM-DD"
  // ---------------------------------------------------------------------------

  /** The three numbers read from the text. They are kept apart from
      CalendarDate because they need not name a date at all: the Date
      constructor normalises a month of 13 or a day of 0 or 31 in a short
      month into a neighbouring month (see ParseNormalises). */
  datatype Fields = Fields(year: int, month: int, day: int)

  /** Number(field) on a split field: a run of ASCII digits reads as its value
      (the empty run as 0); anything else reads as NaN. */
  function NumberOf(field: string): (r: Option<int>)
    ensures r.Some? <==> IsDigits(field)
    ensures r.Some? ==> r.value >= 0
  {
    if IsDigits(field) then Some(ParseDigits(field)) else None
  }

  /** s.split("-").map(Number), destructured into its first three entries; a
      missing entry is undefined and reads as NaN; entries after the third
      are ignored. */
  function DateFields(s: string): Option<Fields> {
    var parts := Split(s, '-');
    if |parts| < 3 then None
    else
      match (NumberOf(parts[0]), NumberOf(parts[1]), NumberOf(parts[2]))
      case (Some(y), Some(m), Some(d)) => Some(Fields(y, m, d))
      case _ => None
  }

  lemma IsoFields(d: Date)
    requires d.year >= 0
    ensures DateFields(IsoOf(d)) == Some(Fields(d.year, d.month, d.day))
  {
    DateBounds(d);
    ThreeFields(IntToString(d.year), TwoDigits(d.month), TwoDigits(d.day));
  }

  /** Three digit runs joined by '-' read back as their three values. */
  lemma ThreeFields(y: string, m: string, d: string)
    requires IsDigits(y) && IsDigits(m) && IsDigits(d)
    ensures DateFields(y + "-" + m + "-" + d) == Some(Fields(ParseDigits(y), ParseDigits(m), ParseDigits(d)))
  {
    DigitsHaveNoSeparator(y, '-');
    DigitsHaveNoSeparator(m, '-');
    DigitsHaveNoSeparator(d, '-');
    SplitThree(y, m, d, '-');
  }

  // ---------------------------------------------------------------------------
  // parseISODate
  // ---------------------------------------------------------------------------

  /** Time value t shows the date c, when c is a real date. */
  predicate ShowsIfReal(t: Day, c: CalendarDate) {
    IsValid(c) ==> Civil(t) == c
  }

  /** parseISODate(s) exactly as written: new Date(y, m - 1, d), so fields
      naming a year from 0 to 99 give a date in the twentieth century (see
      ParseISODateAsWrittenShows). None is an Invalid Date. */
  function ParseISODateAsWritten(s: string): (r: Option<Day>)
    ensures r.Some? <==> DateFields(s).Some?
  {
    match DateFields(s)
    case None => None
    case Some(f) => Some(FieldsDay(Fields(ConstructorYear(f.year), f.month, f.day)))
  }

  /** What the code as written reads: fields naming a real date outside
      years 0 to 99 give a Date showing that date; fields in years 0 to 99
      give one showing the same day and month 1900 years on, whenever that is
      a real date. */
  lemma ParseISODateAsWrittenShows(s: string)
    ensures DateFields(s).Some? ==>
              var f, t := DateFields(s).value, ParseISODateAsWritten(s).value;
              && (!(0 <= f.year <= 99) ==> ShowsIfReal(t, CalendarDate(f.year, f.month, f.day)))
              && (0 <= f.year <= 99 ==> ShowsIfReal(t, CalendarDate(1900 + f.year, f.month, f.day)))
  {
    if DateFields(s).Some? {
      var f, t := DateFields(s).value, ParseISODateAsWritten(s).value;
      var y := ConstructorYear(f.year);
      assert t == MakeDay(y, f.month - 1, f.day);
      ShowsAt(t, y, f.month, f.day);
    }
  }

  lemma ShowsAt(t: Day, y: int, m: int, d: int)
    requires t == MakeDay(y, m - 1, d)
    ensures ShowsIfReal(t, CalendarDate(y, m, d))
  {
    CivilOfFieldsIfValid(y, m, d);
  }

  /** parseISODate(s) with the year taken literally, as the function's comment
      ("YYYY-MM-DD -> local date") promises. Fields that name a real date give
      that date; other digit fields overflow into neighbouring months the way
      the Date constructor normalises them; anything else is None. */
  function ParseISODate(s: string): (r: Option<Day>)
    ensures r.Some? <==> DateFields(s).Some?
    ensures DateFields(s).Some? ==>
              var f := DateFields(s).value;
              ShowsIfReal(r.value, CalendarDate(f.year, f.month, f.day))
  {
    match DateFields(s)
    case None => None
    case Some(f) => Some(FieldsDay(f))
  }

  /** new Date(y, m - 1, d) on read fields, the year taken literally. */
  function FieldsDay(f: Fields): (t: Day)
    ensures ShowsIfReal(t, CalendarDate(f.year, f.month, f.day))
  {
    CivilOfFieldsIfValid(f.year, f.month, f.day);
    MakeDay(f.year, f.month - 1, f.day)
  }

  lemma CivilOfFieldsIfValid(y: int, m: int, d: int)
    ensures ShowsIfReal(MakeDay(y, m - 1, d), CalendarDate(y, m, d))
  {
    if IsValid(CalendarDate(y, m, d)) {
      CivilOfFields(y, m, d);
    }
  }

  /** Where fields that need not name a real date land under the Date
      constructor, the year taken literally: day 0 is the last day of the
      month before; a day from 1 to 31 is that day of the month, its surplus
      over a short month running into the next one ("2023-02-30" shows
      2023-03-02); a month index past 11 runs into later years. */
  lemma ParseNormalises(s: string)
    requires DateFields(s).Some? && DateFields(s).value.day <= 31
    ensures var f, t := DateFields(s).value, ParseISODate(s).value;
            FieldsLand(t, MonthNumber(f.year, f.month - 1), f.day)
  {
    var f := DateFields(s).value;
    assert ParseISODate(s) == Some(FieldsDay(f));
    FieldsDayLands(f);
  }

  lemma FieldsDayLands(f: Fields)
    requires 0 <= f.day <= 31
    ensures FieldsLand(FieldsDay(f), MonthNumber(f.year, f.month - 1), f.day)
  {
    FieldsDayOf(f);
    DayLands(FieldsDay(f), MonthNumber(f.year, f.month - 1), f.day);
  }

  /** The same for the code as written, whose year is the constructor's
      (years 0 to 99 moved on by 1900): "0000-02-29" shows 1900-03-01. */
  lemma ParseAsWrittenNormalises(s: string)
    requires DateFields(s).Some? && DateFields(s).value.day <= 31
    ensures var f, t := DateFields(s).value, ParseISODateAsWritten(s).value;
            FieldsLand(t, MonthNumber(ConstructorYear(f.year), f.month - 1), f.day)
  {
    var f := DateFields(s).value;
    var g := Fields(ConstructorYear(f.year), f.month, f.day);
    assert ParseISODateAsWritten(s) == Some(FieldsDay(g));
    FieldsDayLands(g);
  }

  /** Time value t is day `day` (0 to 31) counted from the start of month k:
      day 0 is the last day of month k - 1, a later day lands as LandsIn says. */
  predicate FieldsLand(t: Day, k: int, day: int) {
    && (day == 0 ==> Civil(t) == InMonth(k - 1, MonthLength(k - 1)))
    && (day >= 1 ==> LandsIn(t, k, day))
  }

  lemma DayLands(t: Day, k: int, day: int)
    requires 0 <= day <= 31 && t == MonthStart(k) + day - 1
    ensures FieldsLand(t, k, day)
  {
    if day == 0 {
      DayZeroLands(k, t);
    } else {
      LandsAt(k, day, t);
    }
  }

  /** As written, "0100-01-00" reads as 0099-12-31: day 0 of year 100 runs
      back into year 99, a Date in the years the constructor's rule moves,
      although the rule itself was not applied (the year read was 100). */
  lemma YearHundredDayZero(s: string)
    requires DateFields(s) == Some(Fields(100, 1, 0))
    ensures Civil(ParseISODateAsWritten(s).value) == CalendarDate(99, 12, 31)
  {
    ParseAsWrittenNormalises(s);
    LastOfYearNinetyNine();
  }

  lemma LastOfYearNinetyNine()
    ensures MonthNumber(ConstructorYear(100), 1 - 1) - 1 == 1199
    ensures InMonth(1199, MonthLength(1199)) == CalendarDate(99, 12, 31)
  {
  }

  /** Reading back what toISODate wrote gives the same day, for every date
      from year 0 on. */
  lemma {:induction false} ParseToISODate(t: Day)
    requires Civil(t).year >= 0
    ensures ParseISODate(ToISODate(t)) == Some(t)
  {
    MakeDayOfCivil(t);
  }

  /** The code as written round-trips from year 100 on. */
  lemma {:induction false} ParseToISODateAsWritten(t: Day)
    requires Civil(t).year >= 100
    ensures ParseISODateAsWritten(ToISODate(t)) == Some(t)
  {
    var c := Civil(t);
    AsWrittenOfLateFields(ToISODate(t), Fields(c.year, c.month, c.day));
    MakeDayOfCivil(t);
  }

  lemma AsWrittenOfLateFields(s: string, f: Fields)
    requires DateFields(s) == Some(f) && !(0 <= f.year <= 99)
    ensures ParseISODateAsWritten(s) == Some(MakeDay(f.year, f.month - 1, f.day))
  {
    var g := Fields(ConstructorYear(f.year), f.month, f.day);
    assert g == f;
    FieldsDayOf(g);
  }

  /** ...but not before: a date in years 0 to 99 is written out and read
      back 1900 years later, the day counted in that later year's month. */
  lemma {:induction false} AsWrittenShiftsEarlyYears(d: Date)
    requires 0 <= d.year <= 99
    ensures ParseISODateAsWritten(ToISODate(DayNumber(d))) == Some(MakeDay(1900 + d.year, d.month - 1, d.day))
    ensures ParseISODateAsWritten(ToISODate(DayNumber(d))) != Some(DayNumber(d))
  {
    var t := DayNumber(d);
    assert ToISODate(t) == IsoOf(d) by {
      CivilOfValid(d, t);
    }
    AsWrittenOfIso(d);
    EarlyYearLater(d);
  }

  lemma AsWrittenOfIso(d: Date)
    requires 0 <= d.year <= 99
    ensures ParseISODateAsWritten(IsoOf(d)) == Some(MakeDay(1900 + d.year, d.month - 1, d.day))
  {
    IsoFields(d);
    AsWrittenOfFields(IsoOf(d), Fields(d.year, d.month, d.day));
  }

  lemma AsWrittenOfFields(s: string, f: Fields)
    requires DateFields(s) == Some(f) && 0 <= f.year <= 99
    ensures ParseISODateAsWritten(s) == Some(MakeDay(1900 + f.year, f.month - 1, f.day))
  {
    var g := Fields(ConstructorYear(f.year), f.month, f.day);
    assert g == Fields(1900 + f.year, f.month, f.day);
    FieldsDayOf(g);
  }

  lemma FieldsDayOf(f: Fields)
    ensures FieldsDay(f) == MakeDay(f.year, f.month - 1, f.day)
  {
  }

  /** The instance: a Date showing 0050-03-01 is read back as 1950-03-01. */
  lemma YearFifty(t: Day)
    requires Civil(t) == CalendarDate(50, 3, 1)
    ensures ParseISODateAsWritten(ToISODate(t)).Some?
    ensures Civil(ParseISODateAsWritten(ToISODate(t)).value) == CalendarDate(1950, 3, 1)
  {
    AsWrittenShiftsEarlyYears(Civil(t));
    CivilOfFields(1950, 3, 1);
  }

  // ---------------------------------------------------------------------------
  // formatDateRU
  // ---------------------------------------------------------------------------

  /** A destructured entry: the field when present, else String(undefined). */
  function FieldOr(parts: seq<string>, i: nat): string {
    if i < |parts| then parts[i] else "undefined"
  }

  /** formatDateRU(s): the fields of s split at '-', as day.month.year. */
  function FormatDateRU(s: string): string {
    var parts := Split(s, '-');
    FieldOr(parts, 2) + "." + FieldOr(parts, 1) + "." + FieldOr(parts, 0)
  }

  /** The Russian-style text of a date: two-digit day, two-digit month and
      the year, separated by dots. */
  function RussianText(d: Date): string {
    DateBounds(d);
    TwoDigits(d.day) + "." + TwoDigits(d.month) + "." + IntToString(d.year)
  }

  /** On what toISODate writes (from year 0 on), formatDateRU gives the
      Russian-style text of the same date. */
  lemma {:induction false} FormatDateRUOfIso(d: Date)
    requires d.year >= 0
    ensures FormatDateRU(IsoOf(d)) == RussianText(d)
  {
    DateBounds(d);
    FormatThree(IntToString(d.year), TwoDigits(d.month), TwoDigits(d.day));
  }

  lemma FormatThree(y: string, m: string, d: string)
    requires IsDigits(y) && IsDigits(m) && IsDigits(d)
    ensures FormatDateRU(y + "-" + m + "-" + d) == d + "." + m + "." + y
  {
    DigitsHaveNoSeparator(y, '-');
    DigitsHaveNoSeparator(m, '-');
    DigitsHaveNoSeparator(d, '-');
    SplitThree(y, m, d, '-');
  }

  /** A string without '-' is a lone field: the day and month come out as
      "undefined". */
  lemma {:induction false} FormatDateRUOneField(s: string)
    requires '-' !in s
    ensures FormatDateRU(s) == "undefined.undefined." + s
  {
    SplitNoSeparator(s, '-');
    var parts := Split(s, '-');
    assert FieldOr(parts, 2) == "undefined" && FieldOr(parts, 1) == "undefined" && FieldOr(parts, 0) == s;
    assert "undefined" + "." + "undefined" + "." == "undefined.undefined.";
  }
}
