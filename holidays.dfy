/** The Manitoba school holidays of one school year (SchoolHolidays.class.php):
    the year pair, the six rule-based holidays, the optional winter break,
    their expansion into a list of skip days, and the membership query. */
module Holidays {
  import opened CivilDate
  import opened Easter

  datatype Option<T> = None | Some(value: T)

  /** The two calendar years of a school year: September of `first` to June
      of `second`. */
  datatype SchoolYear = SchoolYear(first: int, second: int)

  /** A holiday entry: one day, or an inclusive range of days. */
  datatype Holiday = Single(on: Date) | Span(start: Date, end: Date)

  // ---------------------------------------------------------------------
  // The year pair

  /** After July the school year starts this year, otherwise it started last
      year; so the reference date lies between August 1 of the first year
      and July 31 of the second. */
  function SchoolYearOf(today: Date): (sy: SchoolYear)
    requires today.Valid()
    ensures sy.second == sy.first + 1
    ensures !Before(today, Date(sy.first, 8, 1)) && !Before(Date(sy.second, 7, 31), today)
  {
    if today.month > 7 then SchoolYear(today.year, today.year + 1)
    else SchoolYear(today.year - 1, today.year)
  }

  /** Conversely, every date from August 1 of y to July 31 of y + 1 selects
      the school year (y, y + 1): the pair changes only on August 1. */
  lemma SchoolYearIsStable(today: Date, y: int)
    requires today.Valid()
    requires !Before(today, Date(y, 8, 1)) && !Before(Date(y + 1, 7, 31), today)
    ensures SchoolYearOf(today) == SchoolYear(y, y + 1)
  {
  }

  /** The pair the constructor stores, as written. From August on it reads
      the year, then moves `today` a year on and reads the next. Before
      August it moves `today` a year back first and then reads the moved
      date twice, so both entries are the previous year. */
  function ConstructorYears(today: Date): (sy: SchoolYear)
    requires today.Valid()
    ensures today.month > 7 ==> sy == SchoolYearOf(today)
    ensures today.month <= 7 ==> sy.first == SchoolYearOf(today).first
  {
    if today.month > 7 then SchoolYear(today.year, today.year + 1)
    else SchoolYear(today.year - 1, today.year - 1)
  }

  /** Before August the stored pair is not a school year: both entries are
      the same year, so it differs from the intended pair and Louis Riel Day
      falls before Thanksgiving instead of after it. */
  lemma ConstructorYearsBeforeAugust(today: Date)
    requires today.Valid() && today.month <= 7
    ensures var sy := ConstructorYears(today);
      sy.first == sy.second && sy != SchoolYearOf(today)
      && Before(LouisRielDay(sy.second), Thanksgiving(sy.first))
  {
  }

  /** A reference date of March 15, 2018 stores (2017, 2017) where the
      school year is (2017, 2018). */
  lemma ConstructorYearsMarch2018()
    ensures ConstructorYears(Date(2018, 3, 15)) == SchoolYear(2017, 2017)
    ensures SchoolYearOf(Date(2018, 3, 15)) == SchoolYear(2017, 2018)
  {
  }

  // ---------------------------------------------------------------------
  // The holiday rules

  /** Canadian Thanksgiving: the second Monday of October of the first year. */
  function Thanksgiving(y0: int): (d: Date)
    ensures d.Valid() && d.year == y0 && d.month == 10 && Weekday(d) == Monday
    ensures 8 <= d.day <= 14
  {
    NthWeekdayOfMonth(y0, 10, 2, Monday)
  }

  /** Remembrance Day: November 11 of the first year. */
  function RemembranceDay(y0: int): (d: Date)
    ensures d.Valid() && d.year == y0 && d.month == 11 && d.day == 11
  {
    Date(y0, 11, 11)
  }

  /** Louis Riel Day: the third Monday of February of the second year. */
  function LouisRielDay(y1: int): (d: Date)
    ensures d.Valid() && d.year == y1 && d.month == 2 && Weekday(d) == Monday
    ensures 15 <= d.day <= 21
  {
    NthWeekdayOfMonth(y1, 2, 3, Monday)
  }

  /** Good Friday: the Friday before Easter Sunday of the second year, which
      is exactly two days before it. Easter is taken from the corrected
      computus, which agrees with the source's for 1900 .. 2099
      (Easter.EasterFormsAgree) and not in every other year
      (Easter.EasterFormsDiffer2106). */
  function GoodFriday(y1: int): (d: Date)
    ensures d.Valid() && Weekday(d) == Friday
    ensures DayNumber(d) == DayNumber(UsnoEasterSunday(y1)) - 2
    ensures d.year == y1 && ((d.month == 3 && 20 <= d.day) || (d.month == 4 && d.day <= 23))
  {
    var easter := UsnoEasterSunday(y1);
    FridayBeforeEaster(easter);
    PreviousWeekday(easter, Friday)
  }

  /** The Friday before an Easter Sunday (a Sunday, March 22 .. April 25) is
      two days before it, March 20 .. April 23 of the same year. */
  lemma FridayBeforeEaster(easter: Date)
    requires easter.Valid() && Weekday(easter) == Sunday
    requires (easter.month == 3 && 22 <= easter.day) || (easter.month == 4 && easter.day <= 25)
    ensures DayNumber(PreviousWeekday(easter, Friday)) == DayNumber(easter) - 2
    ensures var d := PreviousWeekday(easter, Friday);
      d.year == easter.year && ((d.month == 3 && 20 <= d.day) || (d.month == 4 && d.day <= 23))
  {
    hide DayNumber;
    TwoDaysBefore(easter, PreviousWeekday(easter, Friday));
  }

  lemma TwoDaysBefore(easter: Date, d: Date)
    requires easter.Valid() && d.Valid() && DayNumber(d) == DayNumber(easter) - 2
    requires (easter.month == 3 && 22 <= easter.day) || (easter.month == 4 && easter.day <= 25)
    ensures d.year == easter.year && ((d.month == 3 && 20 <= d.day) || (d.month == 4 && d.day <= 23))
  {
    if easter.day > 2 {
      SameMonth(easter, -2);
      SameDayNumber(d, Date(easter.year, easter.month, easter.day - 2));
    } else {
      SameMonth(Date(easter.year, 3, 31), easter.day - 2);
      MonthStep(easter.year, 3);
      SameDayNumber(d, Date(easter.year, 3, 29 + easter.day));
    }
  }

  /** Victoria Day: the Monday strictly before May 25 of the second year,
      which is May 18 .. 24 and never May 25 itself. */
  function VictoriaDay(y1: int): (d: Date)
    ensures d.Valid() && d.year == y1 && d.month == 5 && Weekday(d) == Monday
    ensures 18 <= d.day <= 24
  {
    var may25 := Date(y1, 5, 25);
    var d := PreviousWeekday(may25, Monday);
    var k := DayNumber(may25) - DayNumber(d);
    SameMonth(may25, -k);
    SameDayNumber(d, Date(y1, 5, 25 - k));
    d
  }

  /** Spring Break: Monday to Friday of the week of March 31 of the second
      year when that day is a Monday, otherwise from the Monday before March
      31 to the Friday after that Monday. */
  function SpringBreak(y1: int): (h: Holiday)
    ensures h.Span? && h.start.Valid() && h.end.Valid()
    ensures h.start.year == y1 && h.start.month == 3 && 25 <= h.start.day <= 31
    ensures Weekday(h.start) == Monday && Weekday(h.end) == Friday
    ensures h.start.day == 31 <==> Weekday(Date(y1, 3, 31)) == Monday
    ensures DayNumber(h.end) == DayNumber(h.start) + 4
    ensures h.end.year == y1 && ((h.end.month == 3 && 29 <= h.end.day) || (h.end.month == 4 && h.end.day <= 4))
  {
    var monday := SpringBreakMonday(y1);
    var friday := NextWeekday(monday, Friday);
    FourDaysAfter(monday, friday);
    Span(monday, friday)
  }

  /** Four days after March 25 .. 31 is March 29 .. April 4. */
  lemma FourDaysAfter(monday: Date, friday: Date)
    requires monday.Valid() && friday.Valid() && DayNumber(friday) == DayNumber(monday) + 4
    requires monday.month == 3 && 25 <= monday.day
    ensures friday.year == monday.year
    ensures (friday.month == 3 && 29 <= friday.day) || (friday.month == 4 && friday.day <= 4)
  {
    if monday.day <= 27 {
      SameMonth(monday, 4);
      SameDayNumber(friday, Date(monday.year, 3, monday.day + 4));
    } else {
      MonthStep(monday.year, 3);
      SameMonth(Date(monday.year, 4, 1), monday.day - 28);
      SameDayNumber(friday, Date(monday.year, 4, monday.day - 27));
    }
  }

  /** The first day of Spring Break: March 31 when it is a Monday, else the
      Monday before it. */
  function SpringBreakMonday(y1: int): (monday: Date)
    ensures monday.Valid() && Weekday(monday) == Monday
    ensures monday.year == y1 && monday.month == 3 && 25 <= monday.day <= 31
    ensures monday.day == 31 <==> Weekday(Date(y1, 3, 31)) == Monday
  {
    var march31 := Date(y1, 3, 31);
    if Weekday(march31) == Monday then march31
    else
      MondayBeforeMarch31(y1, PreviousWeekday(march31, Monday));
      PreviousWeekday(march31, Monday)
  }

  /** A Monday at most a week before a March 31 that is not itself a
      Monday is March 25 .. 30. */
  lemma MondayBeforeMarch31(y1: int, monday: Date)
    requires monday.Valid() && Weekday(monday) == Monday && Weekday(Date(y1, 3, 31)) != Monday
    requires DayNumber(Date(y1, 3, 31)) - 7 <= DayNumber(monday) < DayNumber(Date(y1, 3, 31))
    ensures monday.year == y1 && monday.month == 3 && 25 <= monday.day <= 30
  {
    hide DayNumber;
    var march31 := Date(y1, 3, 31);
    var k := DayNumber(march31) - DayNumber(monday);
    SameMonth(march31, -k);
    SameDayNumber(monday, Date(y1, 3, 31 - k));
  }

  /** In 2024 March 31 is a Sunday: Spring Break is March 25 .. 29. */
  lemma SpringBreak2024()
    ensures SpringBreak(2024) == Span(Date(2024, 3, 25), Date(2024, 3, 29))
  {
    hide DayNumber, SpringBreak;
    var march31 := Date(2024, 3, 31);
    March31In2024();
    var h := SpringBreak(2024);
    MondayOfMarch(h.start, march31);
    SameMonth(h.start, 4);
    SameDayNumber(h.end, Date(2024, 3, 29));
  }

  lemma March31In2024()
    ensures Weekday(Date(2024, 3, 31)) == Sunday
  {
    hide DaysBeforeYear;
    DaysBeforeYearFormula(2024);
    assert 2023 / 4 == 505 && 2023 / 100 == 20 && 2023 / 400 == 5;
    assert DayNumber(Date(2024, 3, 31)) == 738975;
    assert 738976 / 7 == 105568;
  }

  /** A Monday of March 25 .. 31 in a year whose March 31 is a Sunday is
      March 25. */
  lemma MondayOfMarch(monday: Date, march31: Date)
    requires march31.Valid() && march31.month == 3 && march31.day == 31 && Weekday(march31) == Sunday
    requires monday.Valid() && monday.year == march31.year && monday.month == 3 && 25 <= monday.day
    requires Weekday(monday) == Monday
    ensures monday.day == 25
  {
    SameMonth(monday, 31 - monday.day);
    WeekdayOfDayNumber(monday, march31);
  }

  lemma March31In2025()
    ensures Weekday(Date(2025, 3, 31)) == Monday
  {
    hide DaysBeforeYear;
    DaysBeforeYearFormula(2025);
    assert 2024 / 4 == 506 && 2024 / 100 == 20 && 2024 / 400 == 5;
    assert DayNumber(Date(2025, 3, 31)) == 739340;
    assert 739341 / 7 == 105620;
  }

  /** In 2025 March 31 is a Monday: Spring Break is March 31 .. April 4. */
  lemma SpringBreak2025()
    ensures SpringBreak(2025) == Span(Date(2025, 3, 31), Date(2025, 4, 4))
  {
    hide DayNumber;
    var march31 := Date(2025, 3, 31);
    March31In2025();
    var h := SpringBreak(2025);
    assert h.start == march31;
    MonthStep(2025, 3);
    SameMonth(Date(2025, 4, 1), 3);
    SameDayNumber(h.end, Date(2025, 4, 4));
  }

  predicate ValidHoliday(h: Holiday) {
    match h
    case Single(d) => d.Valid()
    case Span(s, e) => s.Valid() && e.Valid()
  }

  predicate AllValid(hs: seq<Holiday>) {
    forall k :: 0 <= k < |hs| ==> ValidHoliday(hs[k])
  }

  /** The dates the entry stands for: its one day, or every real date from
      its start to its end. */
  predicate Covers(h: Holiday, d: Date)
    requires ValidHoliday(h)
  {
    match h
    case Single(x) => d == x
    case Span(s, e) => d.Valid() && DayNumber(s) <= DayNumber(d) <= DayNumber(e)
  }

  /** Every date an entry covers lies between September 1 of the first year
      and June 30 of the second. */
  predicate WithinSchoolYear(h: Holiday, sy: SchoolYear)
    requires ValidHoliday(h)
  {
    match h
    case Single(d) => Before(Date(sy.first, 9, 1), d) && Before(d, Date(sy.second, 6, 30))
    case Span(s, e) => Before(Date(sy.first, 9, 1), s) && Before(e, Date(sy.second, 6, 30))
  }

  /** calculateHolidays: the six rule-based entries in the source's order. */
  function StandardHolidays(sy: SchoolYear): (hs: seq<Holiday>)
    ensures |hs| == 6 && AllValid(hs)
  {
    var thanksgiving := Thanksgiving(sy.first);
    var remembrance := RemembranceDay(sy.first);
    var louisRiel := LouisRielDay(sy.second);
    var goodFriday := GoodFriday(sy.second);
    var victoria := VictoriaDay(sy.second);
    var springBreak := SpringBreak(sy.second);
    SixEntriesValid(thanksgiving, remembrance, louisRiel, goodFriday, victoria, springBreak);
    [ Single(thanksgiving), Single(remembrance), Single(louisRiel),
      Single(goodFriday), Single(victoria), springBreak ]
  }

  lemma SixEntriesValid(a: Date, b: Date, c: Date, d: Date, e: Date, f: Holiday)
    requires a.Valid() && b.Valid() && c.Valid() && d.Valid() && e.Valid() && ValidHoliday(f)
    ensures AllValid([Single(a), Single(b), Single(c), Single(d), Single(e), f])
  {
    var hs := [Single(a), Single(b), Single(c), Single(d), Single(e), f];
    forall k | 0 <= k < 6
      ensures ValidHoliday(hs[k])
    {
      assert k == 0 || k == 1 || k == 2 || k == 3 || k == 4 || k == 5;
    }
  }

  /** Every rule-based entry falls inside the school year, strictly between
      September 1 of the first year and June 30 of the second. */
  lemma StandardHolidaysInSchoolYear(sy: SchoolYear)
    requires sy.second == sy.first + 1
    ensures forall k :: 0 <= k < 6 ==> WithinSchoolYear(StandardHolidays(sy)[k], sy)
  {
    FirstTermInSchoolYear(sy);
    SecondTermInSchoolYear(sy);
    var hs := StandardHolidays(sy);
    forall k | 0 <= k < 6
      ensures WithinSchoolYear(hs[k], sy)
    {
      assert k == 0 || k == 1 || k == 2 || k == 3 || k == 4 || k == 5;
    }
  }

  lemma FirstTermInSchoolYear(sy: SchoolYear)
    requires sy.second == sy.first + 1
    ensures WithinSchoolYear(StandardHolidays(sy)[0], sy)
    ensures WithinSchoolYear(StandardHolidays(sy)[1], sy)
    ensures WithinSchoolYear(StandardHolidays(sy)[2], sy)
  {
  }

  lemma SecondTermInSchoolYear(sy: SchoolYear)
    requires sy.second == sy.first + 1
    ensures WithinSchoolYear(StandardHolidays(sy)[3], sy)
    ensures WithinSchoolYear(StandardHolidays(sy)[4], sy)
    ensures WithinSchoolYear(StandardHolidays(sy)[5], sy)
  {
  }

  // ---------------------------------------------------------------------
  // Expansion into skip days

  /** The days from s to e inclusive, in order, one day apart; none when s
      is after e (the `while ($tmpS <= $tmpE)` loop of getSkipDays). */
  function ExpandRange(s: Date, e: Date): (r: seq<Date>)
    requires s.Valid() && e.Valid()
    ensures |r| == if DayNumber(s) <= DayNumber(e) then DayNumber(e) - DayNumber(s) + 1 else 0
    decreases DayNumber(e) - DayNumber(s) + 1
  {
    if DayNumber(e) < DayNumber(s) then [] else [s] + ExpandRange(NextDay(s), e)
  }

  /** A non-empty range is its start followed by the range from the next day. */
  lemma ExpandRangeFirst(s: Date, e: Date)
    requires s.Valid() && e.Valid() && DayNumber(s) <= DayNumber(e)
    ensures ExpandRange(s, e) == [s] + ExpandRange(NextDay(s), e)
  {
  }

  /** The k-th day of a range is a real date k days after its start. */
  lemma {:induction false} ExpandRangeElements(s: Date, e: Date)
    requires s.Valid() && e.Valid()
    ensures forall k :: 0 <= k < |ExpandRange(s, e)| ==>
      ExpandRange(s, e)[k].Valid() && DayNumber(ExpandRange(s, e)[k]) == DayNumber(s) + k
    decreases DayNumber(e) - DayNumber(s) + 1
  {
    if DayNumber(s) <= DayNumber(e) {
      var rest := ExpandRange(NextDay(s), e);
      ExpandRangeElements(NextDay(s), e);
      ExpandRangeFirst(s, e);
      forall k | 0 <= k < |ExpandRange(s, e)|
        ensures ExpandRange(s, e)[k].Valid() && DayNumber(ExpandRange(s, e)[k]) == DayNumber(s) + k
      {
        if k > 0 {
          assert ExpandRange(s, e)[k] == rest[k - 1];
        }
      }
    }
  }

  /** A range expands to exactly the real dates between its ends, starting
      with its start and finishing with its end. */
  lemma ExpandRangeContents(s: Date, e: Date, d: Date)
    requires s.Valid() && e.Valid()
    ensures d in ExpandRange(s, e) <==> d.Valid() && DayNumber(s) <= DayNumber(d) <= DayNumber(e)
    ensures DayNumber(s) <= DayNumber(e) ==> ExpandRange(s, e)[0] == s
    ensures DayNumber(s) <= DayNumber(e) ==> ExpandRange(s, e)[|ExpandRange(s, e)| - 1] == e
  {
    var r := ExpandRange(s, e);
    ExpandRangeElements(s, e);
    if d.Valid() && DayNumber(s) <= DayNumber(d) <= DayNumber(e) {
      SameDayNumber(r[DayNumber(d) - DayNumber(s)], d);
    }
    if DayNumber(s) <= DayNumber(e) {
      SameDayNumber(r[0], s);
      SameDayNumber(r[|r| - 1], e);
    }
  }

  /** The 2017-2018 winter break, December 23 to January 7, is sixteen days. */
  lemma WinterBreak2017Length()
    ensures |ExpandRange(Date(2017, 12, 23), Date(2018, 1, 7))| == 16
  {
    hide DaysBeforeYear;
    YearStep(2017);
  }

  function Expand(h: Holiday): (r: seq<Date>)
    requires ValidHoliday(h)
  {
    match h
    case Single(d) => [d]
    case Span(s, e) => ExpandRange(s, e)
  }

  /** The skip-day list: the expansions of the entries, in entry order. */
  function ExpandAll(hs: seq<Holiday>): (r: seq<Date>)
    requires AllValid(hs)
  {
    if hs == [] then [] else ExpandAll(hs[..|hs| - 1]) + Expand(hs[|hs| - 1])
  }

  /** A date is a skip day exactly when some entry covers it: every list
      element comes from an entry, and every covered date is listed. */
  lemma {:induction false} ExpandAllContents(hs: seq<Holiday>, d: Date)
    requires AllValid(hs)
    ensures d in ExpandAll(hs) <==> exists k :: 0 <= k < |hs| && Covers(hs[k], d)
    decreases |hs|
  {
    if hs != [] {
      var last := hs[|hs| - 1];
      var init := hs[..|hs| - 1];
      ExpandAllContents(init, d);
      if last.Span? {
        ExpandRangeContents(last.start, last.end, d);
      }
      if exists k :: 0 <= k < |hs| && Covers(hs[k], d) {
        var k :| 0 <= k < |hs| && Covers(hs[k], d);
        if k < |hs| - 1 {
          assert init[k] == hs[k];
        }
      }
      if d in ExpandAll(init) {
        var k :| 0 <= k < |init| && Covers(init[k], d);
        assert hs[k] == init[k];
      }
    }
  }

  /** Extending a prefix of the entries by one extends the skip days by that
      entry's expansion. */
  lemma ExpandAllStep(hs: seq<Holiday>, i: int)
    requires AllValid(hs) && 0 <= i < |hs|
    ensures ExpandAll(hs[..i + 1]) == ExpandAll(hs[..i]) + Expand(hs[i])
  {
    assert hs[..i + 1][..i] == hs[..i];
  }

  lemma AppendAssociative(a: seq<Date>, b: seq<Date>, c: seq<Date>)
    ensures (a + b) + c == a + (b + c)
  {
  }

  /** The winter-break entry, when the caller supplies one. */
  function WinterEntry(winter: Option<(Date, Date)>): (r: seq<Holiday>)
    ensures |r| == if winter.Some? then 1 else 0
  {
    if winter.Some? then [Span(winter.value.0, winter.value.1)] else []
  }

  /** Appending the winter entry keeps every entry well formed and leaves
      the entries before it in place. */
  lemma WithWinterEntry(hs: seq<Holiday>, winter: Option<(Date, Date)>)
    requires AllValid(hs)
    requires winter.Some? ==> winter.value.0.Valid() && winter.value.1.Valid()
    ensures AllValid(hs + WinterEntry(winter))
    ensures (hs + WinterEntry(winter))[..|hs|] == hs
  {
    var all := hs + WinterEntry(winter);
    forall k | 0 <= k < |all|
      ensures ValidHoliday(all[k])
    {
      if k >= |hs| {
        assert all[k] == Span(winter.value.0, winter.value.1);
      } else {
        assert all[k] == hs[k];
      }
    }
  }

  // ---------------------------------------------------------------------
  // The SchoolHolidays object

  class SchoolHolidays {
    var years: SchoolYear
    var holidays: seq<Holiday>
    var skipDays: seq<Date>

    /** After construction: the six rule-based entries of the stored years
        first, at most one further (winter) entry, and the skip-day list is
        their expansion. */
    ghost predicate Valid()
      reads this
    {
      && AllValid(holidays)
      && 6 <= |holidays| <= 7
      && holidays[..6] == StandardHolidays(years)
      && skipDays == ExpandAll(holidays)
    }

    /** __construct: the year pair from the reference date, the rule-based
        holidays, the winter break when one is supplied, then the skip days. */
    constructor (today: Date, winter: Option<(Date, Date)>)
      requires today.Valid()
      requires winter.Some? ==> winter.value.0.Valid() && winter.value.1.Valid()
      ensures Valid()
      ensures years == ConstructorYears(today)
      ensures holidays == StandardHolidays(years) + WinterEntry(winter)
      ensures skipDays == ExpandAll(holidays)
    {
      hide ConstructorYears, StandardHolidays, ExpandAll, AllValid, WinterEntry, SchoolYearOf;
      years := ConstructorYears(today);
      holidays := [];
      skipDays := [];
      new;
      CalculateHolidays();
      WithWinterEntry(holidays, winter);
      holidays := holidays + WinterEntry(winter);
      GetSkipDays();
      assert skipDays == [] + ExpandAll(holidays) == ExpandAll(holidays);
    }

    /** calculateHolidays: replaces the entries with the six rule-based ones. */
    method CalculateHolidays()
      modifies this`holidays
      ensures holidays == StandardHolidays(years)
    {
      hide *;
      holidays := StandardHolidays(years);
    }

    /** getSkipDays: appends the expansion of every entry, in order, to the
        skip-day list. */
    method GetSkipDays()
      requires AllValid(holidays)
      modifies this`skipDays
      ensures skipDays == old(skipDays) + ExpandAll(holidays)
    {
      var i := 0;
      assert skipDays == old(skipDays) + ExpandAll(holidays[..0]);
      hide ExpandAll, ExpandRange, DayNumber, StandardHolidays;
      while i < |holidays|
        invariant 0 <= i <= |holidays|
        invariant skipDays == old(skipDays) + ExpandAll(holidays[..i])
      {
        var h := holidays[i];
        ghost var before := skipDays;
        assert ValidHoliday(h);
        if h.Single? {
          skipDays := skipDays + [h.on];
        } else {
          AppendRange(h.start, h.end);
        }
        assert skipDays == before + Expand(h);
        ExpandAllStep(holidays, i);
        AppendAssociative(old(skipDays), ExpandAll(holidays[..i]), Expand(h));
        i := i + 1;
      }
      assert holidays[..i] == holidays;
    }

    /** The inner loop of getSkipDays: every day from s to e, stepping with
        '+1 day' while the day is not after e. */
    method AppendRange(s: Date, e: Date)
      requires s.Valid() && e.Valid()
      modifies this`skipDays
      ensures skipDays == old(skipDays) + ExpandRange(s, e)
    {
      hide DayNumber;
      var tmpS := s;
      while DayNumber(tmpS) <= DayNumber(e)
        invariant tmpS.Valid()
        invariant skipDays + ExpandRange(tmpS, e) == old(skipDays) + ExpandRange(s, e)
        decreases DayNumber(e) - DayNumber(tmpS)
      {
        ExpandRangeFirst(tmpS, e);
        skipDays := skipDays + [tmpS];
        tmpS := NextDay(tmpS);
      }
      assert ExpandRange(tmpS, e) == [];
    }

    /** isHoliday for a DateTime argument: whether the date is a skip day,
        that is, whether some holiday entry covers it. Changes nothing. */
    method IsHoliday(d: Date) returns (b: bool)
      requires Valid()
      ensures b <==> d in skipDays
      ensures b <==> exists k :: 0 <= k < |holidays| && Covers(holidays[k], d)
    {
      ExpandAllContents(holidays, d);
      b := d in skipDays;
    }

    /** getHolidaysArray: the skip-day list itself, which is the expansion
        of every holiday entry in order. */
    method GetHolidaysArray() returns (days: seq<Date>)
      requires Valid()
      ensures days == skipDays
      ensures days == ExpandAll(holidays)
    {
      days := skipDays;
    }
  }
}
