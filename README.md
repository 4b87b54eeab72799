# SchoolCalendar in Dafny

SchoolCalendar publishes an iCalendar feed of numbered school days for
one Manitoba school year: "School Day 1" through "School Day 6", cycling,
on every weekday from the Tuesday after Labour Day to the last weekday
of June, except the holidays. This project models its two core pieces and
proves what they promise:

- `SchoolHolidays.class.php`: the holiday calculator. It picks the
  school-year pair from a reference date. It computes the rule-based
  holidays: Thanksgiving, Remembrance Day, Louis Riel Day, Good Friday
  from a computus, Victoria Day and Spring Break. It appends the winter
  break, expands everything into a skip-day list and answers
  "is this date a holiday?".
- `index.php`: the feed script. It parses the `year` parameter or falls
  back to the current date, then computes the first and last school day.
  It refuses years without a winter break in its table, and walks the
  school year assigning the cycling day numbers.

The model has four modules:

- `CivilDate` (`dates.dfy`) is the proleptic Gregorian calendar that
  PHP's `DateTime` uses. It provides day numbers, weekdays (0 = Sunday,
  as `format('w')`), `+1 day`, `next <weekday>`,
  `previous`/`last <weekday>` and `<nth> <weekday> of`.
- `Easter` (`easter.dfy`) is the computus.
- `Holidays` (`holidays.dfy`) covers the holiday rules, the range
  expansion and the class `SchoolHolidays`, whose fields the source
  updates in place.
- `Feed` (`feed.dfy`) covers the script: the parameter check, the choice
  of school year, the first and last day, the school-day loop and the
  whole pipeline.

Dates are the datatype `Date(year, month, day)`. The source keeps
dates as `Y-m-d` strings: it compares them for equality (`in_array`),
and `getSkipDays` and `printCalendar` parse them back into `DateTime`
and compare those with `<=`. A `Date` stands both for the string it
formats to and for the `DateTime` parsed back from it, and day-number
order is that comparison (`CivilDate.DayNumberOrder`).

The model follows the code as written, including where its behaviour
is easy to overlook:

- Victoria Day is `previous monday` from May 25, so it falls between
  May 18 and May 24.
- Spring Break ends on the Friday four days after its Monday.
- A range whose start is after its end expands to no days, because the
  loop `while ($tmpS <= $tmpE)` never runs.
- The `year` pattern accepts one trailing newline, because PCRE's `$`
  without the `D` modifier matches before a final `"\n"`.
- The two halves of the `year` parameter are not checked to be
  consecutive.
- Before August, the constructor's year pair is the previous year
  twice (see Findings). The model's feed passes September 1 of the
  first year (see `Feed.GenerateCalendar` under Left out), so in the
  model it never takes that branch.

The one place the holiday rules use a corrected formula instead of the
code's is Easter, listed under Left out and Findings.

## Model

| member | source | states |
|---|---|---|
| CivilDate.Weekday | SchoolHolidays.class.php:129 | `format('w')` is a number 0..6 (0 = Sunday) |
| CivilDate.DaysBeforeYearFormula | SchoolHolidays.class.php:156 | the day count before a year equals the Gregorian closed form 365(y-1) + (y-1)/4 - (y-1)/100 + (y-1)/400, for every year |
| CivilDate.DayNumberOrder | SchoolHolidays.class.php:154 | comparing `DateTime`s (`<=`) agrees with calendar order, and two dates with the same day number are the same date |
| CivilDate.NextDay | SchoolHolidays.class.php:156 | `+1 day` gives a valid date exactly one day later, across month and year ends |
| CivilDate.NextWeekday | SchoolHolidays.class.php:132 | `next <weekday>` lands on that weekday, 1 to 7 days later |
| CivilDate.NextWeekdayIsFirst | index.php:93 | no day strictly between the start and `next <weekday>` has that weekday |
| CivilDate.PreviousWeekday | SchoolHolidays.class.php:126 | `previous <weekday>` lands on that weekday, 1 to 7 days earlier |
| CivilDate.PreviousWeekdayIsLast | index.php:96 | no day strictly between `previous <weekday>` and the start has that weekday |
| CivilDate.NthWeekdayOfMonth | SchoolHolidays.class.php:118 | `<nth> <weekday> of` is that weekday in the same month, on day 7(n-1)+1 .. 7n |
| Easter.Epact | SchoolHolidays.class.php:174-176 | the corrected epact `i` lies in 0..28 |
| Easter.EpactArithmetic | SchoolHolidays.class.php:174-176 | the case form used for `i` equals the source's nested reduction, term by term |
| Easter.Computus | SchoolHolidays.class.php:177-182 | the date built from `i`, `j`, `l`, `m`, `d` is a real Sunday between March 22 and April 25 of the year, for any epact correction term |
| Easter.LiteralTerm | SchoolHolidays.class.php:173-174 | for c >= 0 the truncated float term (c - (c - 17) / 25) / 3 equals the integer quotient (24c + 17) / 75 |
| Easter.NeverMultipleOf75 | SchoolHolidays.class.php:173-174 | 24c + 17 is never a multiple of 75, so that float quotient is never a whole number |
| Easter.EasterSunday | SchoolHolidays.class.php:170-183 | the source's computus, line 173 as written (the term of `Easter.LiteralTerm`): a Sunday, March 22 .. April 25 of the year |
| Easter.UsnoEasterSunday | SchoolHolidays.class.php:164-183 | the published computus the source cites: a Sunday, March 22 .. April 25 of the year |
| Easter.EasterFormsAgree | SchoolHolidays.class.php:170-183 | for 1900 .. 2099 the as-written and published forms give the same Easter |
| Easter.EasterFormsDiffer1818 | SchoolHolidays.class.php:173 | in 1818 the as-written form gives March 29 and the published form March 22 |
| Easter.EasterFormsDiffer2106 | SchoolHolidays.class.php:173 | in 2106 the as-written form gives April 25 and the published form April 18 |
| Easter.UsnoEaster2000 | SchoolHolidays.class.php:170-183 | Easter 2000 is April 23 |
| Easter.UsnoEaster2025 | SchoolHolidays.class.php:170-183 | Easter 2025 is April 20 |
| Easter.UsnoEaster2100 | SchoolHolidays.class.php:170-183 | Easter 2100 is March 28 |
| Holidays.SchoolYearOf | index.php:70-78 | the school year of a date: the pair is consecutive and the date lies between August 1 of the first year and July 31 of the second |
| Holidays.SchoolYearIsStable | index.php:70-78 | every date from August 1 of y to July 31 of y+1 gives the pair (y, y+1), so the pair is unique |
| Holidays.ConstructorYears | SchoolHolidays.class.php:35-48 | the constructor's pair as written: from August on it is the school year of the date; before August its first year is still the school year's first |
| Holidays.ConstructorYearsBeforeAugust | SchoolHolidays.class.php:43-48 | before August both stored years are the same, the pair is not the school year, and Louis Riel Day falls before Thanksgiving |
| Holidays.ConstructorYearsMarch2018 | SchoolHolidays.class.php:43-48 | March 15, 2018 stores (2017, 2017) where the school year is (2017, 2018) |
| Holidays.Thanksgiving | SchoolHolidays.class.php:118 | a Monday, October 8 .. 14 of the first year (the second Monday) |
| Holidays.RemembranceDay | SchoolHolidays.class.php:120 | November 11 of the first year |
| Holidays.LouisRielDay | SchoolHolidays.class.php:122 | a Monday, February 15 .. 21 of the second year (the third Monday) |
| Holidays.GoodFriday | SchoolHolidays.class.php:124 | a Friday exactly two days before Easter, March 20 .. April 23 of the second year |
| Holidays.FridayBeforeEaster | SchoolHolidays.class.php:124 | `previous Friday` from any Easter Sunday is two days earlier, in the same year, March 20 .. April 23 |
| Holidays.VictoriaDay | SchoolHolidays.class.php:126 | a Monday, May 18 .. 24 of the second year |
| Holidays.SpringBreakMonday | SchoolHolidays.class.php:129-136 | a Monday, March 25 .. 31; it is March 31 exactly when March 31 is a Monday |
| Holidays.SpringBreak | SchoolHolidays.class.php:128-139 | a range from that Monday to the Friday four days later, which ends between March 29 and April 4 |
| Holidays.SpringBreak2024 | SchoolHolidays.class.php:128-139 | 2024: March 25 .. 29 (March 31 is a Sunday) |
| Holidays.SpringBreak2025 | SchoolHolidays.class.php:128-139 | 2025: March 31 .. April 4 (March 31 is a Monday) |
| Holidays.StandardHolidays | SchoolHolidays.class.php:113-140 | six entries, all well-formed |
| Holidays.StandardHolidaysInSchoolYear | SchoolHolidays.class.php:113-140 | every rule-based holiday falls inside its school year (August 1 .. July 31) |
| Holidays.FirstTermInSchoolYear | SchoolHolidays.class.php:118-122 | Thanksgiving, Remembrance Day and Louis Riel Day fall inside the school year |
| Holidays.SecondTermInSchoolYear | SchoolHolidays.class.php:124-139 | Good Friday, Victoria Day and Spring Break fall inside the school year |
| Holidays.ExpandRange | SchoolHolidays.class.php:152-157 | the expansion has end - start + 1 days, or none when the start is after the end |
| Holidays.ExpandRangeElements | SchoolHolidays.class.php:152-157 | the k-th expanded day is the start plus k days |
| Holidays.ExpandRangeContents | SchoolHolidays.class.php:152-157 | a date is in the expansion exactly when it lies between start and end inclusive; the first is the start, the last the end |
| Holidays.WinterBreak2017Length | index.php:36-39 | the 2017-2018 winter break covers 16 days |
| Holidays.ExpandAllContents | SchoolHolidays.class.php:145-160 | a date is a skip day exactly when some entry covers it |
| Holidays.ExpandAllStep | SchoolHolidays.class.php:146-158 | each iteration appends the expansion of the next entry |
| Holidays.WinterEntry | SchoolHolidays.class.php:50-53 | a winter break adds exactly one entry, none when there is none |
| Holidays.WithWinterEntry | SchoolHolidays.class.php:50-53 | appending the winter entry keeps every entry well-formed and leaves the six rule-based ones in front |
| Holidays.SchoolHolidays.constructor | SchoolHolidays.class.php:31-56 | running calculateHolidays, the winter append and getSkipDays leaves the constructor's year pair, the six rules then the winter break, and their expansion as skip days |
| Holidays.SchoolHolidays.CalculateHolidays | SchoolHolidays.class.php:113-140 | replaces the entries with the six rule-based holidays of the object's years |
| Holidays.SchoolHolidays.GetSkipDays | SchoolHolidays.class.php:145-160 | appends the expansion of every entry, in order, to the skip-day list |
| Holidays.SchoolHolidays.AppendRange | SchoolHolidays.class.php:152-157 | appends the days from start to end inclusive, in order |
| Holidays.SchoolHolidays.IsHoliday | SchoolHolidays.class.php:63-75 | true exactly when the date is in the skip-day list, and exactly when some holiday entry covers it |
| Holidays.SchoolHolidays.GetHolidaysArray | SchoolHolidays.class.php:83-85 | returns the skip-day list, which is the expansion of every holiday entry in order |
| Feed.Pad4RoundTrip | index.php:68-69 | a number written with four digits reads back as itself |
| Feed.FourDigitRoundTrip | index.php:68-69 | a four-digit string is the four-digit writing of the number it reads as |
| Feed.MatchYearParam | index.php:67 | an accepted parameter is two four-digit groups joined by a hyphen, optionally followed by one newline, and the groups are captured |
| Feed.YearParamAccepted | index.php:67 | every such string is accepted with exactly its two groups captured |
| Feed.YearParamRejections | index.php:67 | short groups, leading text, two newlines and a wrong separator are refused |
| Feed.YearTextFourDigits | index.php:72-76 | for years 1000 .. 9999, `date('Y')` and the integer's text are both the four digits |
| Feed.SelectSchoolYear | index.php:66-83 | a matching parameter gives its two numbers and the label `group1-group2`; otherwise the pair is the school year of the current date (switching on August 1) |
| Feed.DefaultLabelFourDigits | index.php:71-83 | for four-digit years the date-based label is the two four-digit years joined by a hyphen |
| Feed.ParameterSelectsItsYears | index.php:67-69 | any well-formed parameter selects exactly the years it names, consecutive or not |
| Feed.DefaultLabelRoundTrip | index.php:66-83 | the label chosen from the date, sent back as the parameter, selects the same school year and label |
| Feed.FirstSchoolDay | index.php:93 | a Tuesday, September 2 .. 8 of the first year |
| Feed.FirstSchoolDayAfterLabourDay | index.php:88-93 | it is the day after the first Monday of September (Labour Day) |
| Feed.LastSchoolDay | index.php:94-98 | a weekday, June 28 .. 30 of the second year; June 30 exactly when June 30 is a weekday |
| Feed.LastSchoolDayIsLastWeekday | index.php:86-98 | every day after it up to June 30 is a weekend day |
| Feed.SchoolDaysBounded | index.php:194-196 | every listed day is a weekday, not a skip day, between the first and last day |
| Feed.SchoolDaysIncreasing | index.php:194-203 | the listed days are strictly increasing, so none appears twice |
| Feed.SchoolDaysComplete | index.php:194-203 | a date in range is listed exactly when it is a weekday that is not a skip day |
| Feed.LabelsCycle | index.php:192-201 | numbering starts at 1, stays in 1..6, and after 6 comes 1 |
| Feed.NextLabel | index.php:198-201 | incrementing and wrapping 7 back to 1 is the count mod 6, plus 1 |
| Feed.PrintCalendar | index.php:154-207 | the loop emits exactly the school days from first to last, in order, numbered 1..6 cyclically |
| Feed.WinterBreakTableValid | index.php:15-40 | every entry of the winter-break table is a pair of real dates, start before end |
| Feed.GenerateCalendar | index.php:66-128 | no calendar exactly when the label has no winter break; otherwise the school days of the chosen year under the rule-based holidays and that winter break, numbered cyclically |

## Left out

- Output and caching (index.php:100-136, 154-270) are not modelled:
  `printCalendar` returns the list of events rather than VCALENDAR text,
  and `createDay`, `getVcalendarHeader`, the cache file, its
  modification-time test and the headers are left out.
- The clock is a parameter (`now` of `Feed.GenerateCalendar`). Time zones
  are not modelled; every date is a local calendar date.
- Holidays.SchoolHolidays.constructor: the source's `DateTimeZone` and
  `today` fields are left out. Its Good Friday entry uses the corrected
  computus, as `Holidays.GoodFriday` says below.
- Holidays.GoodFriday: is two days before the corrected computus
  (`Easter.UsnoEasterSunday`), not before line 124's `calculateEaster`
  as written (`Easter.EasterSunday`). The two agree for 1900 .. 2099
  (`Easter.EasterFormsAgree`), which covers every year in the
  winter-break table. They differ in other years, for example 1818 and
  2106 (`Easter.EasterFormsDiffer1818`, `Easter.EasterFormsDiffer2106`).
- Holidays.StandardHolidays: its Good Friday entry is
  `Holidays.GoodFriday`, so outside 1900 .. 2099 it can differ from the
  source's, for the reason given on the previous line.
- Holidays.SchoolHolidays.CalculateHolidays: stores
  `Holidays.StandardHolidays`, with the same Good Friday caveat.
- Holidays.SchoolHolidays.IsHoliday: takes a `Date`. The timestamp and
  free-text branches (lines 66-73) parse their argument with PHP's date
  parser, which is not part of this model.
- `printHolidays` (SchoolHolidays.class.php:93-108) only prints and is not
  modelled.
- Feed.GenerateCalendar: builds the holiday object from September 1 of
  the first year. index.php:120 passes the string `y0 . "09-01"`, which
  has no hyphen after the year. How PHP's date parser reads that string
  is not part of this model. Any date from August 1 to December 31
  of the first year takes the constructor's August branch and stores
  (y0, y0 + 1) (`Holidays.ConstructorYears`).
- Feed.GenerateCalendar: takes the winter-break table as a parameter;
  the script's own table is `Feed.WinterBreakTable`. For a label whose
  second year lies outside 1900 .. 2099, its Good Friday can differ
  from the source's (see `Holidays.GoodFriday`).
- `Easter.EasterSunday` requires a non-negative year. Line 173 applies
  PHP's float division to `c - 17`, which is modelled exactly only for
  years 0 and later, where the quotient's fractional part can never
  affect the result.
- Exceptions from invalid `DateTime` strings are not modelled. Every
  date the model builds is proved valid.

## Findings

| source | as written | input that shows it | evidently intended | confidence | as-written member | corrected member |
|---|---|---|---|---|---|---|
| SchoolHolidays.class.php:173 | `$k = (int)($c - 17) / 25` casts before dividing, so `k` is a fraction and the `(c - k) / 3` term of line 174 becomes (24c + 17) / 75 | year 1818 (c = 18): the code gives March 29, the published algorithm and the historical date give March 22 | `k = intval((c - 17) / 25)`, the integer quotient of the cited algorithm | not executed | Easter.EasterFormsDiffer1818 | Easter.UsnoEasterSunday |
| SchoolHolidays.class.php:44-47 | `$this->today->sub(new DateInterval('P1Y'))` moves `today` itself back a year before the second element reads `$this->today->format('Y')`, so both elements are the previous year | reference date 2018-03-15: the pair is (2017, 2017), so Louis Riel Day, Good Friday, Victoria Day and Spring Break are taken from 2017 | (Y - 1, Y), as index.php:70-78 computes | not executed | Holidays.ConstructorYearsMarch2018 | Holidays.SchoolYearOf |
