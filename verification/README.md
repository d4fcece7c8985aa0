# Expiry tracker — a Dafny model of its core

The tracker is a single-page browser app (`app.js`). The user enters products with:

- a start date;
- a shelf life in days, weeks or months;
- an optional note.

The app stores the list and shows one row per product:

- the start and expiry dates in Russian day.month.year form;
- the days left;
- a coloured badge ("Просрочено", "Истекает сегодня", "Скоро истекает", "Ок").

The rows can be filtered to expired or soon-expiring products. They are sorted by expiry date and can be deleted one by one or all at once.

This project models that core as pure Dafny functions and proves what the code promises.

- **Dates** (`calendar.dfy`, module `Calendar`). A JavaScript `Date` at local midnight is modelled as a whole number of days since 1970-01-01 (`Day`).
  - `Civil` is what `getFullYear`/`getMonth`/`getDate` report.
  - `MakeDay` is the day arithmetic of `new Date(y, m, d)` with the year taken literally, with ECMAScript's normalisation of out-of-range months and days.
  - `ConstructorYear` is the constructor's extra rule that a year from 0 to 99 means 1900 to 1999. Only the as-written members apply it: the "dayDiff as written" section of `calendar.dfy`, and `ParseISODateAsWritten` with its lemmas in `isodates.dfy` (see Findings).
  - On these rest the two setters used by `addShelfLife` (`AddDays`, `AddMonths`) and `dayDiff`.
  - Independent references: the proleptic Gregorian day count `DayNumber`, `NextDate` and calendar order `Before`.
- **Runtime string functions** (`text.dfy`, module `Text`). `String(n)`, `Number` on digit runs, `padStart`, `split`, `trim` and `replaceAll` with a one-character pattern.
- **Conversions** (`isodates.dfy`, module `IsoDates`). `toISODate`, `parseISODate` (the code as written and a corrected version, see Findings) and `formatDateRU`.
- **Shelf life** (`shelflife.dfy`, module `ShelfLife`). `addShelfLife`.
- **Status** (`status.dfy`, module `Status`). `getStatus` with `SOON_DAYS = 3` and the current date as a parameter, and `formatLeft`.
- **Escaping** (`html.dfy`, module `Html`). `escapeHtml`.
- **The item list** (`itemstore.dfy`, module `ItemStore`).
  - The add form with its validation.
  - Delete by id.
  - Loading the stored list.
- **Sorting** (`sorting.dfy`, module `Sorting`). A generic stable sort by an integer key. It stands for `Array.prototype.sort` with the comparator `(a, b) => a.expiry - b.expiry`.
- **Rendering** (`projection.dfy`, module `Projection`). What `render()` shows: the map to rows, the filter and the sort.
- **The page** (`page.dfy`, module `Page`).
  - The four user actions as one state transition.
  - The default start date.

## Model

| member | source | states |
|---|---|---|
| Calendar.FromDayNumber | app.js:27-29 | the date the getters report for a time value is the valid calendar date whose day count since 1970-01-01 is that value |
| Calendar.FromDayNumberOfDate | app.js:27-29 | every valid calendar date is reported back by the time value of its own day count |
| Calendar.DayNumberInjective | app.js:27-29 | two different calendar dates never share a time value |
| Calendar.CivilOfFields | app.js:36 | `MakeDay`, the constructor's day arithmetic with the year taken literally, on fields naming a real date gives a Date showing exactly that date |
| Calendar.MakeDayInMonth | app.js:36 | a day that fits its month lands on that day of that month |
| Calendar.MidnightOfDay | app.js:49-50 | `Midnight`, the rebuild with the year taken literally, gives a Date's own local midnight back |
| Calendar.DayDiff | app.js:47-53 | with the year taken literally, the calendar-day difference is the number of days from `from` to `to`, so a date is 0 days from itself and swapping the dates negates the count |
| Calendar.DayDiffOrder | app.js:47-53 | the difference is positive exactly when the later date comes after in calendar order, and zero exactly when the dates are equal |
| Calendar.ConstructorYear | app.js:36 | the year the Date constructor uses is the given one or 1900 more, never one from 0 to 99, and any year outside 0 to 99 is kept |
| Calendar.DayDiffAsWrittenAgrees | app.js:47-53 | `dayDiff` as written counts exactly the days from one date to the other when neither lies in years 0 to 99 |
| Calendar.MidnightAsWrittenLater | app.js:49-50 | as written, the rebuild moves a date in years 0 to 99 to a later day, so it is never the date itself |
| Calendar.LeapDayFolds | app.js:49-50 | as written, 29 February and 1 March of a leap year y from 0 to 99 whose 1900 + y is not leap (year 0) are one day apart yet `dayDiff` gives 0 |
| Calendar.AddDaysMoves | app.js:41-42 | `AddDays`, that is `setDate(getDate() + n)`, moves the date by exactly n days, month and year boundaries included |
| Calendar.AddDaysNextDate | app.js:41 | one day on from any date shows the next calendar date, with month-end and year-end rollover |
| Calendar.LandsAt | app.js:43 | for any day up to 31, the day-th day from the start of month k is that day of month k if the month is long enough, otherwise the surplus days into month k + 1 (the predicate `LandsIn`) |
| Calendar.AddMonthsLands | app.js:43 | `AddMonths`, that is `setMonth(getMonth() + n)`, keeps the day of the month n months later; if that month is too short the surplus runs into the next month |
| Calendar.AddMonthsLater | app.js:43 | adding a positive number of months always gives a later date |
| Text.NatToString | app.js:28-29 | `String(n)` is a non-empty digit run that reads back as n, without leading zeros |
| Text.TwoDigits | app.js:28-29 | `String(n).padStart(2, "0")` is exactly two digits reading back as n |
| Text.PadStart | app.js:28-29 | padding reaches the width, keeps the original text at the end and fills only with the fill character |
| Text.Split | app.js:21 | `split` gives at least one field and no field holds the separator |
| Text.JoinSplit | app.js:21 | joining the fields of `split` with the separator gives the original text back |
| Text.SplitThree | app.js:35 | three separator-free fields joined by the separator split back into exactly those three |
| Text.Trim | app.js:146 | `trim` removes exactly the white space at both ends, and is empty exactly when the text is all white space |
| Text.ReplaceAllAppend | app.js:136-140 | `replaceAll` with a one-character pattern works piecewise over concatenation |
| Text.ReplaceAllAbsent | app.js:136-140 | `replaceAll` of a character that does not occur changes nothing |
| IsoDates.ToISODate | app.js:25-31 | for years from 0 on, `toISODate` text splits at '-' into three digit fields that read as the year, month and day shown |
| IsoDates.IsoShape | app.js:25-31 | month and day always take exactly two digits, each after a '-'; from year 0 on the year in front is a digit run |
| IsoDates.NumberOf | app.js:35 | `Number` on a split field is a number exactly when the field is a digit run |
| IsoDates.ThreeFields | app.js:35 | three digit runs joined by '-' read back as their three values |
| IsoDates.ParseISODateAsWrittenShows | app.js:33-37 | the code as written: fields naming a real date outside years 0 to 99 give a Date showing it; fields in years 0 to 99 give one showing the same day and month in 1900 + y, whenever that date is real |
| IsoDates.ParseISODate | app.js:33-37 | a Date exactly when three numeric fields are present; with the year taken literally (the corrected parse, see Findings), fields that name a real date give a Date showing that date |
| Calendar.DayZeroLands | app.js:36 | day 0 of a month, as the Date constructor counts it, is the last day of the month before |
| IsoDates.ParseNormalises | app.js:33-37 | with the year taken literally, fields with a day from 0 to 31 that need not name a real date land where the constructor puts them: day 0 on the last day of the month before, a day past the month's end the surplus into the next month ("2023-02-30" is 2023-03-02), a month past December into the next year |
| IsoDates.ParseAsWrittenNormalises | app.js:33-37 | the same for the code as written, whose year is the constructor's, so "0000-02-29" lands on 1900-03-01 |
| IsoDates.YearHundredDayZero | app.js:36 | as written, "0100-01-00" reads as 0099-12-31, a Date in years 0 to 99 reached by underflow |
| IsoDates.ParseToISODate | app.js:25-37 | reading back what `toISODate` wrote gives the same day, for every date from year 0 on, with the year taken literally (the corrected parse, see Findings) |
| IsoDates.ParseToISODateAsWritten | app.js:25-37 | the code as written round-trips every date from year 100 on |
| IsoDates.AsWrittenShiftsEarlyYears | app.js:36 | the code as written reads a date in years 0 to 99 back 1900 years later, never as itself |
| IsoDates.YearFifty | app.js:36 | the code as written turns a Date showing 0050-03-01 into one showing 1950-03-01 |
| IsoDates.FormatDateRUOfIso | app.js:19-23 | on what `toISODate` writes for a date from year 0 on, `formatDateRU` gives two-digit day, two-digit month and year separated by dots |
| IsoDates.FormatThree | app.js:19-23 | `FormatDateRU` rearranges three digit fields y-m-d as d.m.y |
| IsoDates.FormatDateRUOneField | app.js:21-22 | text without '-' shows as "undefined.undefined." followed by the text |
| ShelfLife.AddShelfLife | app.js:39-45 | days move the date by value days and weeks by 7 × value days; months keep the day of the month, rolling over as LandsIn says; any other unit keeps the start date |
| ShelfLife.ShelfLifeEndsLater | app.js:39-45 | a positive shelf life in a known unit always ends on a later calendar day |
| ShelfLife.WeekIsSevenDays | app.js:41-42 | a shelf life of n weeks ends where one of 7n days does |
| ShelfLife.DaysCompose | app.js:41 | shelf lives in days add up |
| ShelfLife.JanuaryThirtyFirstPlusOneMonth | app.js:43 | one month from 2023-01-31 is 2023-03-03 |
| Status.GetStatus | app.js:55-63 | Danger exactly when the days left are at most 0, Warn exactly when 1 to SOON_DAYS, Ok otherwise or when the date is invalid; each caption matches exactly its case |
| Status.DangerWhenNotLater | app.js:55-63 | an item is Danger exactly when its expiry date is not after today, and "Истекает сегодня" exactly when it is today |
| Status.FormatLeft | app.js:65-68 | the shown text reads back as the count it came from, and as no count for the NaN of an Invalid Date ("NaN дн."); it says "назад" exactly when the count is negative |
| Status.FormatLeftInjective | app.js:65-68 | different counts, NaN included, are always shown differently |
| Html.EscapeHtml | app.js:134-141 | the escaped text contains no `<`, `>`, `"` or `'` |
| Html.EscapeOneChar | app.js:134-141 | the five passes on one character give that character's reference, or the character itself |
| Html.EscapeAmpersand | app.js:136 | `&` becomes `&amp;` |
| Html.EscapeLessThan | app.js:137 | `<` becomes `&lt;` |
| Html.EscapeGreaterThan | app.js:138 | `>` becomes `&gt;` |
| Html.EscapeQuote | app.js:139 | `"` becomes `&quot;` |
| Html.EscapeApostrophe | app.js:140 | `'` becomes `&#039;` |
| Html.EscapeOrdinary | app.js:134-141 | any other character is left as is |
| Html.EscapeHtmlAppend | app.js:134-141 | escaping works piecewise over concatenation |
| Html.EscapeHtmlIsOnePass | app.js:134-141 | the five sequential passes equal a single character-by-character escape, because the ampersand goes first |
| Html.UnescapeEscapeHtml | app.js:134-141 | the escape loses nothing: decoding the five references gives the original text back |
| Html.UnescapeEscaped | app.js:134-141 | decoding undoes the character-by-character escape |
| Html.EscapeHtmlAmpersands | app.js:134-141 | every `&` in the output starts one of the five references, so nothing in it reads as other markup |
| Html.EscapedAmpersands | app.js:134-141 | the same for the one-pass escape |
| Html.UnescapeFront | app.js:134-141 | decoding consumes one escaped character at a time |
| ItemStore.AddItem | app.js:146-168 | a draft failing the checks changes nothing; otherwise exactly one item is appended after the unchanged list, with the given id, start date and shelf life and the trimmed name and note |
| ItemStore.AddedExpiry | app.js:155-162 | the expiry text `ExpiryText` stores in the `NewItem` reads back, under the corrected `ParseISODate` and for dates from year 0 on, as the start date plus the shelf life, and an unreadable start date gives an unreadable expiry |
| ItemStore.InvalidDateUnreadable | app.js:25-37 | what `toISODate` writes for an Invalid Date does not read as a date, whichever way the year is taken |
| ItemStore.DeleteItem | app.js:127 | the result keeps exactly the items with another id, each as often as before |
| ItemStore.DeleteAbsent | app.js:127 | deleting an id no item carries changes nothing |
| ItemStore.DeleteAppend | app.js:127 | deletion works piecewise over concatenation |
| ItemStore.DeleteUndoesAdd | app.js:127 | deleting the item just added under a fresh id gives the old list back |
| ItemStore.AddKeepsIdsUnique | app.js:158-168 | adding under a fresh id keeps all ids distinct |
| ItemStore.DeleteKeepsIdsUnique | app.js:127 | deleting keeps all ids distinct |
| ItemStore.UniqueTail | app.js:127 | the tail of a list with distinct ids has distinct ids, none equal to the head's |
| ItemStore.UniqueCons | app.js:127 | the step of the delete filter that keeps an item: putting it in front of the kept rest, whose ids it does not share, keeps the ids distinct |
| Sorting.Insert | app.js:97 | inserting adds exactly the one element |
| Sorting.InsertSorted | app.js:97 | inserting into a sorted sequence keeps it sorted |
| Sorting.InsertWithKey | app.js:97 | inserting puts the element in front of the elements of the sequence that share its key |
| Sorting.Sort | app.js:97 | the sort is a permutation of its input |
| Sorting.SortSorted | app.js:97 | the sort orders by key, ascending |
| Sorting.SortIsStable | app.js:97 | for every key, the elements with that key come out in their input order |
| Sorting.StableSortUnique | app.js:97 | two sorted sequences with the same elements for every key in the same order are equal |
| Sorting.IsTheStableSort | app.js:97 | every stable sorted arrangement of the input is the one Sort produces |
| Sorting.HeadsAgree | app.js:97 | two such arrangements start with the same element |
| Projection.RowOfWrittenExpiry | app.js:84-89 | `MakeRow` on an item whose expiry text `toISODate` wrote (from year 0 on) reads that date back and counts the days from today to it |
| Projection.FilterRows | app.js:90-96 | the filter keeps exactly the rows its predicate accepts, in their multiplicities |
| Projection.FilterAppend | app.js:90-96 | filtering works piecewise over concatenation, so kept rows keep their relative order |
| Projection.KeepByKind | app.js:90-96 | `Keep`: "expired" keeps exactly the Danger rows, "soon" exactly the Warn rows, every other value keeps every row |
| Projection.KeepEverything | app.js:91-95 | "all" and unknown filter values keep the rows unchanged |
| Projection.Project | app.js:83-97 | the page shows exactly the kept rows, as a permutation, sorted by expiry, and rows with the same expiry in item order |
| Projection.AllFilterShowsEveryItem | app.js:91 | under "all" there is one row per item |
| Page.Apply | app.js:124-184 | submit appends one item or changes nothing; delete keeps exactly the other ids; clear-all empties the list; choosing a filter changes only the filter |
| Page.ApplyKeepsIdsUnique | app.js:124-184 | every action keeps item ids distinct, provided new ids are fresh |
| Page.DeleteRemovesOne | app.js:127 | with distinct ids, a delete removes exactly one item if the id is present and none otherwise |
| Page.DefaultStartDate | app.js:187 | the start date the form offers reads back as today: from year 0 on under the corrected `ParseISODate`, from year 100 on under `parseISODate` as written |

## Left out

- The DOM: reading form fields, building table rows with `innerHTML`, binding buttons and resetting the form (`app.js:99-121`, `171-175`). Only the values they carry are modelled.
- `saveItems` and `localStorage`: I/O. `ItemStore.Load` takes the stored text and the JSON decoder as parameters and carries no contract; with `JSON.parse` left out there is nothing to state about it.
- `createId`: random. The id is a parameter, and freshness is an assumption of the unique-id lemmas.
- The clock: `new Date()` in `getStatus` and for the default start date is the parameter `today`.
- Times of day, milliseconds, time zones and daylight-saving changes. Every Date is taken to be at local midnight and is counted in whole days, so the `Math.round` in `dayDiff` is the identity.
- The Date range limit of ±100,000,000 days: time values are unbounded integers.
- Non-integer shelf lives such as `Number("1.5")`: the draft's shelf life is a whole number or None.
- `Number` syntaxes other than plain digit runs (signs, blanks, exponents, hex). They read as None here, where JavaScript may read a number.
- `JSON.parse` and `JSON.stringify`, which are runtime functions.
- `escapeHtml` on non-string values (`String(str)`): names and notes are always strings.
- IsoDates.ParseToISODate: proved for years from 0 on only, and with the year taken literally (the corrected parse, see Findings). A negative year renders with a leading '-', which `split("-")` breaks apart.
- Projection.Project: requires every kept row to have a readable expiry date. For an Invalid Date the comparator returns NaN, and the resulting order is implementation-defined. Rows read their dates as Projection.MakeRow does, so for years 0 to 99 the order is that of the corrected reading.
- ItemStore.AddItem: does not state the stored expiry in the contract itself. ItemStore.AddedExpiry states it.
- Calendar.CivilOfFields: states `MakeDay` with the year taken literally. The constructor at app.js:36 moves years 0 to 99 on by 1900 (`ConstructorYear`, see Findings), so there it holds only outside those years.
- Calendar.MidnightOfDay: models the corrected rebuild with the year taken literally. As written, app.js:49-50 rebuilds a date in years 0 to 99 1900 years later (Calendar.MidnightAsWrittenLater, see Findings).
- Calendar.DayDiff: models the corrected `dayDiff`. As written it agrees only when neither date lies in years 0 to 99 (Calendar.DayDiffAsWrittenAgrees).
- Calendar.DayDiffOrder: about the corrected `dayDiff`. As written, 0000-02-29 and 0000-03-01 are 0 days apart (Calendar.LeapDayFolds).
- Status.GetStatus: counts days with the corrected `dayDiff`, so for an expiry or a today in years 0 to 99 it can differ from the code as written.
- Status.DangerWhenNotLater: about the corrected `dayDiff`. As written, an expiry in year y from 0 to 99, seen from a today in year 100 or later but before the same date in 1900 + y, is not Danger.
- IsoDates.ParseNormalises: states where a day from 0 to 31 lands. A larger day, which the constructor carries over several months, is stated only as the count from the first of the month that `MakeDay` gives; the same holds for IsoDates.ParseAsWrittenNormalises.
- Strings are sequences of Unicode characters, where JavaScript strings are sequences of UTF-16 code units. Every pattern the core matches (`-`, the five HTML characters, ASCII digits, the white space `trim` removes) is a single code unit, so the difference changes no result stated here.
- IsoDates.FormatDateRUOfIso: stated from year 0 on. For a negative year `toISODate` writes a leading '-', and `formatDateRU` then shows the wrong fields (for example "03.5." for a March date in year -5, which is 6 BC in astronomical year numbering).
- ItemStore.ExpiryText: reads the start date with the corrected `ParseISODate`. As written, a start date "0050-03-01" plus 7 days is stored as "1950-03-08", and here as "50-03-08".
- ItemStore.AddedExpiry: stated through the corrected `ParseISODate` and for expiry dates from year 0 on, for the reasons of ItemStore.ExpiryText and IsoDates.ParseToISODate.
- Projection.MakeRow: reads both dates with the corrected `ParseISODate`. As written, an expiry "0050-01-01" reads as 1950-01-01 and sorts after "1900-06-01"; here it sorts before.
- Projection.RowOfWrittenExpiry: stated for expiry dates from year 0 on, through the corrected `ParseISODate`.
- Projection.AllFilterShowsEveryItem: requires every item's expiry to read as a date, for the reason given under Projection.Project, and reads dates as Projection.MakeRow does.
- Page.DefaultStartDate: its read-back under the corrected `ParseISODate` holds from year 0 on. Under `parseISODate` as written it holds only from year 100 on, which is the second half of its contract.

## Findings

| source | as written | input that shows it | evidently intended | confidence | as-written member | corrected member |
|---|---|---|---|---|---|---|
| app.js:36 | `new Date(y, m - 1, d)` applies the Date constructor's rule that years 0 to 99 mean 1900 to 1999 | a Date showing 0050-03-01: `toISODate` writes "50-03-01", and `parseISODate` reads it as 1950-03-01 | the year taken literally ("YYYY-MM-DD -> local date"), so reading back what `toISODate` wrote gives the same day | not executed | IsoDates.AsWrittenShiftsEarlyYears | IsoDates.ParseToISODate |
| app.js:49-50 | `new Date(x.getFullYear(), x.getMonth(), x.getDate())` applies the same rule, so `dayDiff` rebuilds a date in years 0 to 99 in 1900 to 1999 | two Dates showing 0000-02-29 and 0000-03-01, one day apart: both are rebuilt as 1900-03-01, and `dayDiff` gives 0 | the calendar days between the two dates, with the year taken literally; in the page itself this stays latent, since `parseISODate` as written yields a year from 0 to 99 only when a zero month or day of year 100 underflows (for example "0100-01-00" is 0099-12-31, IsoDates.YearHundredDayZero), and the clock never gives one | not executed | Calendar.LeapDayFolds | Calendar.DayDiffOrder |
