/** The feed script: which school year to publish, its first and last
    school days, and the walk from the first to the last day that emits a
    numbered "School Day n" event for every day school is in. */
module Feed {
  import opened CivilDate
  import opened Holidays

  // ---------------------------------------------------------------------
  // The `year` request parameter

  predicate IsDigit(c: char) {
    '0' <= c <= '9'
  }

  predicate IsFourDigits(s: string) {
    |s| == 4 && IsDigit(s[0]) && IsDigit(s[1]) && IsDigit(s[2]) && IsDigit(s[3])
  }

  function DigitValue(c: char): int
    requires IsDigit(c)
  {
    c as int - '0' as int
  }

  function DigitChar(n: int): (c: char)
    requires 0 <= n < 10
    ensures IsDigit(c) && DigitValue(c) == n
  {
    ('0' as int + n) as char
  }

  /** The number a four-digit string stands for, leading zeros allowed (how
      PHP reads the numeric strings the pattern captures). */
  function FourDigitValue(s: string): (n: int)
    requires IsFourDigits(s)
    ensures 0 <= n <= 9999
  {
    1000 * DigitValue(s[0]) + 100 * DigitValue(s[1]) + 10 * DigitValue(s[2]) + DigitValue(s[3])
  }

  /** n written with exactly four digits. */
  function Pad4(n: int): (s: string)
    requires 0 <= n <= 9999
    ensures IsFourDigits(s)
  {
    [DigitChar(n / 1000), DigitChar(n / 100 % 10), DigitChar(n / 10 % 10), DigitChar(n % 10)]
  }

  lemma Pad4RoundTrip(n: int)
    requires 0 <= n <= 9999
    ensures FourDigitValue(Pad4(n)) == n
  {
    assert n / 100 == 10 * (n / 1000) + n / 100 % 10;
    assert n / 10 == 10 * (n / 100) + n / 10 % 10;
    assert n == 10 * (n / 10) + n % 10;
  }

  lemma FourDigitRoundTrip(s: string)
    requires IsFourDigits(s)
    ensures Pad4(FourDigitValue(s)) == s
  {
    var a, b, c, d := DigitValue(s[0]), DigitValue(s[1]), DigitValue(s[2]), DigitValue(s[3]);
    var n := FourDigitValue(s);
    assert n / 1000 == a;
    assert n / 100 == 10 * a + b;
    assert n / 10 == 100 * a + 10 * b + c;
    var p := Pad4(n);
    assert p[0] == s[0] && p[1] == s[1] && p[2] == s[2] && p[3] == s[3];
  }

  /** preg_match('/^([0-9]{4})\-([0-9]{4})$/', s): the two captured groups
      when s is four digits, a hyphen and four digits. PCRE's `$` (no D
      modifier) also matches just before a final newline, so one trailing
      "\n" is accepted. */
  function MatchYearParam(s: string): (r: Option<(string, string)>)
    ensures r.Some? ==> IsFourDigits(r.value.0) && IsFourDigits(r.value.1)
    ensures r.Some? ==> s == r.value.0 + "-" + r.value.1 || s == r.value.0 + "-" + r.value.1 + "\n"
  {
    if (|s| == 9 || (|s| == 10 && s[9] == '\n'))
       && IsFourDigits(s[..4]) && s[4] == '-' && IsFourDigits(s[5..9])
    then
      assert s[..9] == s[..4] + "-" + s[5..9];
      if |s| == 9 then
        assert s == s[..9];
        Some((s[..4], s[5..9]))
      else
        assert s == s[..9] + "\n";
        Some((s[..4], s[5..9]))
    else
      None
  }

  /** Every pair of four-digit groups is accepted, with or without the
      trailing newline, and captured as written. */
  lemma YearParamAccepted(g1: string, g2: string)
    requires IsFourDigits(g1) && IsFourDigits(g2)
    ensures MatchYearParam(g1 + "-" + g2) == Some((g1, g2))
    ensures MatchYearParam(g1 + "-" + g2 + "\n") == Some((g1, g2))
  {
    var s := g1 + "-" + g2;
    assert s[..4] == g1 && s[4] == '-' && s[5..9] == g2;
    var t := s + "\n";
    assert t[..4] == g1 && t[4] == '-' && t[5..9] == g2 && t[9] == '\n';
  }

  /** Strings with anything else around the pattern are refused. */
  lemma YearParamRejections()
    ensures MatchYearParam("2017-18") == None
    ensures MatchYearParam(" 2017-2018") == None
    ensures MatchYearParam("2017-2018\n\n") == None
    ensures MatchYearParam("2017/2018") == None
  {
    assert !IsDigit(" 2017-2018"[0]);
    assert "2017/2018"[4] != '-';
  }

  // ---------------------------------------------------------------------
  // Year numbers as text

  /** PHP's integer-to-string conversion for a non-negative integer. */
  function NatText(n: nat): (s: string)
    ensures |s| >= 1
    decreases n
  {
    if n < 10 then [DigitChar(n)] else NatText(n / 10) + [DigitChar(n % 10)]
  }

  /** PHP's integer-to-string conversion. */
  function IntText(i: int): string {
    if i < 0 then "-" + NatText(-i) else NatText(i)
  }

  function ZeroPad(s: string): (t: string)
    ensures |t| == if |s| >= 4 then |s| else 4
    decreases 4 - |s|
  {
    if |s| >= 4 then s else ZeroPad("0" + s)
  }

  /** date('Y'): the year with at least four digits. */
  function YearText(y: int): string {
    if y < 0 then "-" + ZeroPad(NatText(-y)) else ZeroPad(NatText(y))
  }

  lemma NatTextFourDigits(n: int)
    requires 1000 <= n <= 9999
    ensures NatText(n) == Pad4(n)
  {
    assert n / 10 / 10 == n / 100 && n / 100 / 10 == n / 1000;
    assert n / 1000 < 10 <= n / 100;
    assert NatText(n / 100) == [DigitChar(n / 1000), DigitChar(n / 100 % 10)];
    assert NatText(n / 10) == NatText(n / 100) + [DigitChar(n / 10 % 10)];
  }

  /** For the years 1000 .. 9999 both conversions give the four digits. */
  lemma YearTextFourDigits(y: int)
    requires 1000 <= y <= 9999
    ensures YearText(y) == Pad4(y) && IntText(y) == Pad4(y)
  {
    NatTextFourDigits(y);
  }

  // ---------------------------------------------------------------------
  // Choosing the school year

  /** The pair of years the feed covers and the label it is printed and
      looked up under. */
  datatype SchoolYearChoice = SchoolYearChoice(first: int, second: int, yearLabel: string)

  predicate FromParameter(param: Option<string>) {
    param.Some? && MatchYearParam(param.value).Some?
  }

  /** The request's `year` when it matches the pattern, its halves taken as
      given (no check that the second is the first plus one); otherwise the
      school year of the current date, switching on August 1. The label
      joins the two halves with a hyphen; on the date path one half is
      date('Y') and the other an integer, as the script concatenates them. */
  function SelectSchoolYear(param: Option<string>, now: Date): (c: SchoolYearChoice)
    requires now.Valid()
    ensures FromParameter(param) ==>
      var m := MatchYearParam(param.value).value;
      c == SchoolYearChoice(FourDigitValue(m.0), FourDigitValue(m.1), m.0 + "-" + m.1)
    ensures !FromParameter(param) ==> SchoolYear(c.first, c.second) == SchoolYearOf(now)
  {
    if FromParameter(param) then
      var m := MatchYearParam(param.value).value;
      SchoolYearChoice(FourDigitValue(m.0), FourDigitValue(m.1), m.0 + "-" + m.1)
    else if now.month > 7 then
      SchoolYearChoice(now.year, now.year + 1, YearText(now.year) + "-" + IntText(now.year + 1))
    else
      SchoolYearChoice(now.year - 1, now.year, IntText(now.year - 1) + "-" + YearText(now.year))
  }

  /** For four-digit years the label chosen from the date is the two years
      written with four digits each, joined by a hyphen. */
  lemma DefaultLabelFourDigits(now: Date)
    requires now.Valid() && 1001 <= now.year <= 9998
    ensures var c := SelectSchoolYear(None, now);
      c.yearLabel == Pad4(c.first) + "-" + Pad4(c.second)
  {
    YearTextFourDigits(now.year - 1);
    YearTextFourDigits(now.year);
    YearTextFourDigits(now.year + 1);
  }

  /** A well-formed parameter selects exactly the years it names, even when
      they are not consecutive ("2017-2030" gives 2017 and 2030). */
  lemma ParameterSelectsItsYears(a: int, b: int, now: Date)
    requires 0 <= a <= 9999 && 0 <= b <= 9999 && now.Valid()
    ensures SelectSchoolYear(Some(Pad4(a) + "-" + Pad4(b)), now) == SchoolYearChoice(a, b, Pad4(a) + "-" + Pad4(b))
  {
    YearParamAccepted(Pad4(a), Pad4(b));
    Pad4RoundTrip(a);
    Pad4RoundTrip(b);
  }

  /** The label chosen from the date, sent back as the parameter, selects
      the same school year whatever the date is then. */
  lemma DefaultLabelRoundTrip(now: Date, later: Date)
    requires now.Valid() && later.Valid() && 1001 <= now.year <= 9998
    ensures var c := SelectSchoolYear(None, now); SelectSchoolYear(Some(c.yearLabel), later) == c
  {
    var c := SelectSchoolYear(None, now);
    DefaultLabelFourDigits(now);
    ParameterSelectsItsYears(c.first, c.second, later);
  }

  // ---------------------------------------------------------------------
  // First and last school day

  lemma SeptemberDay(y: int, k: int)
    requires 1 <= k <= 30
    ensures DayNumber(Date(y, 9, k)) == DayNumber(Date(y, 8, 31)) + k
  {
    MonthStep(y, 8);
    SameMonth(Date(y, 9, 1), k - 1);
  }

  /** From August 31 of the first year, 'next monday' (Labour Day) and then
      'next tuesday': the Tuesday after Labour Day, September 2 .. 8. */
  function FirstSchoolDay(y0: int): (d: Date)
    ensures d.Valid() && d.year == y0 && d.month == 9 && 2 <= d.day <= 8
    ensures Weekday(d) == Tuesday
  {
    var aug31 := Date(y0, 8, 31);
    var labourDay := NextWeekday(aug31, Monday);
    var d := NextWeekday(labourDay, Tuesday);
    FirstSchoolDayWindow(aug31, labourDay, d);
    d
  }

  lemma FirstSchoolDayWindow(aug31: Date, labourDay: Date, d: Date)
    requires aug31.Valid() && aug31.month == 8 && aug31.day == 31
    requires labourDay.Valid() && d.Valid() && Weekday(labourDay) == Monday
    requires DayNumber(aug31) < DayNumber(labourDay) <= DayNumber(aug31) + 7
    requires DayNumber(d) == DayNumber(labourDay) + (Tuesday - Weekday(labourDay) + 6) % 7 + 1
    ensures d.year == aug31.year && d.month == 9 && 2 <= d.day <= 8
  {
    hide DayNumber;
    var k := DayNumber(d) - DayNumber(aug31);
    SeptemberDay(aug31.year, k);
    SameDayNumber(d, Date(aug31.year, 9, k));
  }

  /** Equivalently: the day after the first Monday of September. */
  lemma FirstSchoolDayAfterLabourDay(y0: int)
    ensures FirstSchoolDay(y0) == NextDay(NthWeekdayOfMonth(y0, 9, 1, Monday))
  {
    hide DayNumber, NthWeekdayOfMonth, NextDay, FirstSchoolDay, NextWeekday;
    var labourDay := NthWeekdayOfMonth(y0, 9, 1, Monday);
    var d := FirstSchoolDay(y0);
    var next := NextDay(labourDay);
    SameMonth(labourDay, 1);
    SameDayNumber(next, Date(y0, 9, labourDay.day + 1));
    // Both are Tuesdays among September 2 .. 8, so they are the same day.
    SeptemberDay(y0, d.day);
    SeptemberDay(y0, next.day);
    SameWeekWeekday(d, next);
  }

  /** Two days less than a week apart on the same weekday are the same day. */
  lemma SameWeekWeekday(a: Date, b: Date)
    requires a.Valid() && b.Valid() && Weekday(a) == Weekday(b)
    requires DayNumber(a) - 7 < DayNumber(b) < DayNumber(a) + 7
    ensures a == b
  {
    hide DayNumber;
    SameResidue(DayNumber(a), DayNumber(b));
    SameDayNumber(a, b);
  }

  lemma SameResidue(x: int, y: int)
    requires (x + 1) % 7 == (y + 1) % 7 && x - 7 < y < x + 7
    ensures x == y
  {
    assert x + 1 == 7 * ((x + 1) / 7) + (x + 1) % 7;
    assert y + 1 == 7 * ((y + 1) / 7) + (y + 1) % 7;
  }

  /** June 30 of the second year, or the Friday before it ('last friday')
      when it falls on a weekend: a weekday, June 28 .. 30. */
  function LastSchoolDay(y1: int): (d: Date)
    ensures d.Valid() && d.year == y1 && d.month == 6 && 28 <= d.day <= 30
    ensures !IsWeekend(d)
    ensures d.day == 30 <==> !IsWeekend(Date(y1, 6, 30))
  {
    var june30 := Date(y1, 6, 30);
    var d := if IsWeekend(june30) then PreviousWeekday(june30, Friday) else june30;
    LastSchoolDayWindow(june30, d);
    d
  }

  lemma LastSchoolDayWindow(june30: Date, d: Date)
    requires june30.Valid() && june30.month == 6 && june30.day == 30
    requires d == if IsWeekend(june30) then PreviousWeekday(june30, Friday) else june30
    ensures d.Valid() && d.year == june30.year && d.month == 6 && 28 <= d.day <= 30
    ensures !IsWeekend(d)
    ensures d.day == 30 <==> !IsWeekend(june30)
  {
    hide DayNumber;
    if IsWeekend(june30) {
      var k := DayNumber(june30) - DayNumber(d);
      assert k == 1 || k == 2;
      SameMonth(june30, -k);
      SameDayNumber(d, Date(june30.year, 6, 30 - k));
    }
  }

  /** Every day after the last school day up to June 30 is a weekend day:
      it is the last weekday of June. */
  lemma LastSchoolDayIsLastWeekday(y1: int)
    ensures forall e: Date :: e.Valid() && DayNumber(LastSchoolDay(y1)) < DayNumber(e) <= DayNumber(Date(y1, 6, 30)) ==> IsWeekend(e)
  {
    hide DayNumber;
    var d := LastSchoolDay(y1);
    var june30 := Date(y1, 6, 30);
    forall e: Date | e.Valid() && DayNumber(d) < DayNumber(e) <= DayNumber(june30)
      ensures IsWeekend(e)
    {
      // d is then the Friday 1 or 2 days before a weekend June 30.
      var t := DayNumber(e) - DayNumber(d);
      assert Weekday(d) == Friday;
      assert 1 <= t <= 2;
      FridayThenWeekend(DayNumber(d), t);
    }
  }

  lemma FridayThenWeekend(x: int, t: int)
    requires (x + 1) % 7 == Friday && 1 <= t <= 2
    ensures (x + t + 1) % 7 == Saturday || (x + t + 1) % 7 == Sunday
  {
    assert x + t + 1 == 7 * ((x + 1) / 7) + Friday + t;
  }

  // ---------------------------------------------------------------------
  // The school-day walk

  /** One emitted VEVENT: the date and its "School Day n" number. */
  datatype Event = Event(date: Date, schoolDay: int)

  /** A day school is in: Monday .. Friday and not a skip day. */
  predicate IsSchoolDay(skip: seq<Date>, d: Date)
    requires d.Valid()
  {
    0 < Weekday(d) < 6 && d !in skip
  }

  /** The school days from `from` to `to` inclusive, in calendar order. */
  function SchoolDays(skip: seq<Date>, from: Date, to: Date): (r: seq<Date>)
    requires from.Valid() && to.Valid()
    decreases DayNumber(to) - DayNumber(from) + 1
  {
    if DayNumber(to) < DayNumber(from) then []
    else (if IsSchoolDay(skip, from) then [from] else []) + SchoolDays(skip, NextDay(from), to)
  }

  lemma SchoolDaysStep(skip: seq<Date>, from: Date, to: Date)
    requires from.Valid() && to.Valid()
    ensures DayNumber(to) < DayNumber(from) ==> SchoolDays(skip, from, to) == []
    ensures DayNumber(from) <= DayNumber(to) ==>
      SchoolDays(skip, from, to) == (if IsSchoolDay(skip, from) then [from] else []) + SchoolDays(skip, NextDay(from), to)
  {
  }

  /** Every listed day is a school day between `from` and `to`. */
  lemma {:induction false} SchoolDaysBounded(skip: seq<Date>, from: Date, to: Date)
    requires from.Valid() && to.Valid()
    ensures var r := SchoolDays(skip, from, to);
      forall k :: 0 <= k < |r| ==>
        r[k].Valid() && IsSchoolDay(skip, r[k]) && DayNumber(from) <= DayNumber(r[k]) <= DayNumber(to)
    decreases DayNumber(to) - DayNumber(from) + 1
  {
    hide DayNumber, SchoolDays;
    SchoolDaysStep(skip, from, to);
    if DayNumber(from) <= DayNumber(to) {
      var next := NextDay(from);
      SchoolDaysBounded(skip, next, to);
      var rest := SchoolDays(skip, next, to);
      var r := SchoolDays(skip, from, to);
      forall k | 0 <= k < |r|
        ensures r[k].Valid() && IsSchoolDay(skip, r[k]) && DayNumber(from) <= DayNumber(r[k]) <= DayNumber(to)
      {
        if IsSchoolDay(skip, from) && k > 0 {
          assert r[k] == rest[k - 1];
        } else if !IsSchoolDay(skip, from) {
          assert r[k] == rest[k];
        }
      }
    }
  }

  /** The listed days are strictly increasing, so none is listed twice. */
  lemma {:induction false} SchoolDaysIncreasing(skip: seq<Date>, from: Date, to: Date)
    requires from.Valid() && to.Valid()
    ensures var r := SchoolDays(skip, from, to);
      forall i, j :: 0 <= i < j < |r| ==> r[i].Valid() && r[j].Valid() && DayNumber(r[i]) < DayNumber(r[j])
    decreases DayNumber(to) - DayNumber(from) + 1
  {
    hide DayNumber, SchoolDays;
    SchoolDaysStep(skip, from, to);
    if DayNumber(from) <= DayNumber(to) {
      var next := NextDay(from);
      SchoolDaysIncreasing(skip, next, to);
      SchoolDaysBounded(skip, next, to);
      var rest := SchoolDays(skip, next, to);
      var r := SchoolDays(skip, from, to);
      var shift := if IsSchoolDay(skip, from) then 1 else 0;
      forall i, j | 0 <= i < j < |r|
        ensures r[i].Valid() && r[j].Valid() && DayNumber(r[i]) < DayNumber(r[j])
      {
        assert r[j] == rest[j - shift];
        if i >= shift {
          assert r[i] == rest[i - shift];
        }
      }
    }
  }

  /** A date between `from` and `to` is listed exactly when it is a school
      day: nothing in range is skipped or invented. */
  lemma {:induction false} SchoolDaysComplete(skip: seq<Date>, from: Date, to: Date, d: Date)
    requires from.Valid() && to.Valid() && d.Valid()
    requires DayNumber(from) <= DayNumber(d) <= DayNumber(to)
    ensures d in SchoolDays(skip, from, to) <==> IsSchoolDay(skip, d)
    decreases DayNumber(to) - DayNumber(from) + 1
  {
    var next := NextDay(from);
    var r := SchoolDays(skip, from, to);
    SchoolDaysStep(skip, from, to);
    if d == from {
      SchoolDaysBounded(skip, next, to);
      assert d !in SchoolDays(skip, next, to);
    } else {
      DayNumberOrder(d, from);
      SchoolDaysComplete(skip, next, to, d);
    }
  }

  /** The k-th emitted day (from 0) is School Day k mod 6 + 1. */
  function Labelled(days: seq<Date>): (r: seq<Event>)
    ensures |r| == |days|
  {
    seq(|days|, k requires 0 <= k < |days| => Event(days[k], k % 6 + 1))
  }

  /** The numbering the loop keeps: the first day is School Day 1, each next
      day the following number, and after School Day 6 comes School Day 1. */
  lemma LabelsCycle(days: seq<Date>)
    ensures var r := Labelled(days);
      forall k :: 0 <= k < |r| ==> r[k].date == days[k] && 1 <= r[k].schoolDay <= 6
    ensures var r := Labelled(days); |r| > 0 ==> r[0].schoolDay == 1
    ensures var r := Labelled(days);
      forall k :: 0 <= k < |r| - 1 ==>
        r[k + 1].schoolDay == (if r[k].schoolDay == 6 then 1 else r[k].schoolDay + 1)
  {
    var r := Labelled(days);
    forall k | 0 <= k < |r| - 1
      ensures r[k + 1].schoolDay == (if r[k].schoolDay == 6 then 1 else r[k].schoolDay + 1)
    {
      assert k + 1 == 6 * (k / 6) + k % 6 + 1;
      if k % 6 == 5 {
        assert k + 1 == 6 * (k / 6 + 1);
      }
    }
  }

  lemma LabelledSnoc(days: seq<Date>, d: Date)
    ensures Labelled(days + [d]) == Labelled(days) + [Event(d, |days| % 6 + 1)]
  {
  }

  /** printCalendar's loop: from the first to the last school day by
      '+1 day', emitting every weekday that is not a holiday with the
      running School Day number, which wraps from 6 back to 1. */
  method PrintCalendar(holidays: SchoolHolidays, first: Date, last: Date) returns (events: seq<Event>)
    requires holidays.Valid() && first.Valid() && last.Valid()
    ensures events == Labelled(SchoolDays(holidays.skipDays, first, last))
  {
    hide DayNumber, SchoolDays, Labelled, Weekday, NextDay, StandardHolidays, ExpandAll, AllValid;
    var counter := first;
    var schoolDay := 1;
    ghost var done: seq<Date> := [];
    events := [];
    while DayNumber(counter) <= DayNumber(last)
      invariant counter.Valid()
      invariant done + SchoolDays(holidays.skipDays, counter, last) == SchoolDays(holidays.skipDays, first, last)
      invariant events == Labelled(done)
      invariant schoolDay == |done| % 6 + 1
      decreases DayNumber(last) - DayNumber(counter)
    {
      ghost var rest := SchoolDays(holidays.skipDays, NextDay(counter), last);
      SchoolDaysStep(holidays.skipDays, counter, last);
      var w := Weekday(counter);
      var inSession := false;
      if w < 6 && w > 0 {
        var off := holidays.IsHoliday(counter);
        inSession := !off;
      }
      if inSession {
        LabelledSnoc(done, counter);
        events := events + [Event(counter, schoolDay)];
        AppendAssociative(done, [counter], rest);
        NextLabel(|done|);
        done := done + [counter];
        schoolDay := schoolDay + 1;
        if schoolDay > 6 {
          schoolDay := 1;
        }
      } else {
        assert !IsSchoolDay(holidays.skipDays, counter);
        assert SchoolDays(holidays.skipDays, counter, last) == [] + rest == rest;
      }
      counter := NextDay(counter);
    }
    SchoolDaysStep(holidays.skipDays, counter, last);
    assert done == done + [];
  }

  /** Incrementing a label and wrapping 7 back to 1 follows the count. */
  lemma NextLabel(n: int)
    requires 0 <= n
    ensures (if n % 6 + 2 > 6 then 1 else n % 6 + 2) == (n + 1) % 6 + 1
  {
    assert n + 1 == 6 * (n / 6) + n % 6 + 1;
    if n % 6 == 5 {
      assert n + 1 == 6 * (n / 6 + 1);
    }
  }

  // ---------------------------------------------------------------------
  // The whole feed

  /** The skip days of the holiday object the script builds for the year
      pair starting in y0 with the given winter break. */
  function FeedSkipDays(y0: int, winter: (Date, Date)): seq<Date>
    requires winter.0.Valid() && winter.1.Valid()
  {
    WithWinterEntry(StandardHolidays(SchoolYear(y0, y0 + 1)), Some(winter));
    ExpandAll(StandardHolidays(SchoolYear(y0, y0 + 1)) + WinterEntry(Some(winter)))
  }

  /** The script's table of winter breaks, keyed by school-year label. */
  const WinterBreakTable: map<string, (Date, Date)> := map[
    "2012-2013" := (Date(2012, 12, 24), Date(2013, 1, 6)),
    "2013-2014" := (Date(2013, 12, 23), Date(2014, 1, 3)),
    "2014-2015" := (Date(2014, 12, 22), Date(2015, 1, 2)),
    "2015-2016" := (Date(2015, 12, 21), Date(2016, 1, 1)),
    "2016-2017" := (Date(2016, 12, 23), Date(2017, 1, 6)),
    "2017-2018" := (Date(2017, 12, 23), Date(2018, 1, 7))
  ]

  /** Every entry of the table is a pair of real dates, the first before
      the second, so the table meets GenerateCalendar's precondition. */
  lemma WinterBreakTableValid()
    ensures forall key | key in WinterBreakTable ::
      WinterBreakTable[key].0.Valid() && WinterBreakTable[key].1.Valid()
      && Before(WinterBreakTable[key].0, WinterBreakTable[key].1)
  {
  }

  /** The script's computation of the calendar, outside the cache: choose
      the school year, compute the first and last school day, give up (no
      output) when the winter-break table has no entry under the year's
      label, else build the holidays from September 1 of the first year with
      that winter break and walk the school days. */
  method GenerateCalendar(param: Option<string>, now: Date, winterBreaks: map<string, (Date, Date)>)
    returns (calendar: Option<seq<Event>>)
    requires now.Valid()
    requires forall key | key in winterBreaks :: winterBreaks[key].0.Valid() && winterBreaks[key].1.Valid()
    ensures var c := SelectSchoolYear(param, now);
      calendar.None? <==> c.yearLabel !in winterBreaks
    ensures var c := SelectSchoolYear(param, now);
      calendar.Some? ==>
        (c.yearLabel in winterBreaks &&
         calendar.value == Labelled(SchoolDays(FeedSkipDays(c.first, winterBreaks[c.yearLabel]),
                                               FirstSchoolDay(c.first), LastSchoolDay(c.second))))
  {
    hide DayNumber, Weekday, NextWeekday, PreviousWeekday, SchoolDays, Labelled, StandardHolidays, ExpandAll,
      AllValid, SelectSchoolYear, FirstSchoolDay, LastSchoolDay, MatchYearParam;
    var c := SelectSchoolYear(param, now);
    var first := FirstSchoolDay(c.first);
    var last := LastSchoolDay(c.second);
    if c.yearLabel !in winterBreaks {
      return None;
    }
    var winter := winterBreaks[c.yearLabel];
    var holidays := new SchoolHolidays(Date(c.first, 9, 1), Some(winter));
    var events := PrintCalendar(holidays, first, last);
    calendar := Some(events);
  }
}
