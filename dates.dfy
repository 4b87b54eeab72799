/** Proleptic Gregorian civil dates (no time of day, no timezone), the day
    numbering behind them, the weekday numbering PHP's format('w') uses
    (0 = Sunday .. 6 = Saturday) and the relative moves the holiday rules
    make with DateTime::modify. */
module CivilDate {

  datatype Date = Date(year: int, month: int, day: int) {
    /** A real calendar day: a month 1..12 and a day within that month. */
    predicate Valid() {
      1 <= month <= 12 && 1 <= day <= DaysInMonth(year, month)
    }
  }

  const Sunday := 0
  const Monday := 1
  const Tuesday := 2
  const Friday := 5
  const Saturday := 6

  predicate IsLeapYear(y: int) {
    y % 4 == 0 && (y % 100 != 0 || y % 400 == 0)
  }

  function DaysInMonth(y: int, m: int): (n: int)
    requires 1 <= m <= 12
    ensures 28 <= n <= 31
  {
    if m == 2 then (if IsLeapYear(y) then 29 else 28)
    else if m == 4 || m == 6 || m == 9 || m == 11 then 30
    else 31
  }

  function YearLength(y: int): int {
    if IsLeapYear(y) then 366 else 365
  }

  /** Days from 0001-01-01 to January 1 of year y (negative before year 1). */
  function DaysBeforeYear(y: int): int
    decreases if y < 1 then 1 - y else y - 1
  {
    if y == 1 then 0
    else if y > 1 then DaysBeforeYear(y - 1) + YearLength(y - 1)
    else DaysBeforeYear(y + 1) - YearLength(y)
  }

  /** Days from January 1 to the first of month m in year y. */
  function DaysBeforeMonth(y: int, m: int): int
    requires 1 <= m <= 12
  {
    var common :=
      if m == 1 then 0 else if m == 2 then 31 else if m == 3 then 59
      else if m == 4 then 90 else if m == 5 then 120 else if m == 6 then 151
      else if m == 7 then 181 else if m == 8 then 212 else if m == 9 then 243
      else if m == 10 then 273 else if m == 11 then 304 else 334;
    common + (if m > 2 && IsLeapYear(y) then 1 else 0)
  }

  /** The day number of a date: 0001-01-01 is day 0; consecutive days have
      consecutive numbers. PHP compares DateTime values by this order. */
  function DayNumber(d: Date): int
    requires d.Valid()
  {
    DaysBeforeYear(d.year) + DaysBeforeMonth(d.year, d.month) + d.day - 1
  }

  /** PHP format('w'): 0 = Sunday .. 6 = Saturday. 0001-01-01 was a Monday. */
  function Weekday(d: Date): (w: int)
    requires d.Valid()
    ensures 0 <= w < 7
  {
    (DayNumber(d) + 1) % 7
  }

  predicate IsWeekend(d: Date)
    requires d.Valid()
  {
    Weekday(d) == Sunday || Weekday(d) == Saturday
  }

  /** Lexicographic (year, month, day) order: the civil calendar order. */
  predicate Before(a: Date, b: Date) {
    a.year < b.year ||
    (a.year == b.year && (a.month < b.month || (a.month == b.month && a.day < b.day)))
  }

  // ---------------------------------------------------------------------
  // Calendar arithmetic facts

  lemma YearStep(y: int)
    ensures DaysBeforeYear(y + 1) == DaysBeforeYear(y) + YearLength(y)
  {
  }

  /** Year y - 1 is a leap year exactly when the count of multiples of 4,
      100 and 400 below y moves past it. */
  lemma LeapCount(y: int)
    ensures y / 4 - (y - 1) / 4 == (if y % 4 == 0 then 1 else 0)
    ensures y / 100 - (y - 1) / 100 == (if y % 100 == 0 then 1 else 0)
    ensures y / 400 - (y - 1) / 400 == (if y % 400 == 0 then 1 else 0)
    ensures YearLength(y) == 365 + (if y % 4 == 0 then 1 else 0)
      - (if y % 100 == 0 then 1 else 0) + (if y % 400 == 0 then 1 else 0)
  {
    if y % 100 == 0 {
      assert y == 4 * (25 * (y / 100));
    }
    if y % 400 == 0 {
      assert y == 100 * (4 * (y / 400));
    }
  }

  /** The closed form: 365 days a year, plus one for every year divisible by
      4 but not by 100 unless by 400. */
  lemma DaysBeforeYearFormula(y: int)
    ensures DaysBeforeYear(y) == 365 * (y - 1) + (y - 1) / 4 - (y - 1) / 100 + (y - 1) / 400
  {
    if y >= 1 {
      FormulaUpward(y);
    } else {
      FormulaDownward(y);
    }
  }

  lemma {:induction false} FormulaUpward(y: int)
    requires y >= 1
    ensures DaysBeforeYear(y) == 365 * (y - 1) + (y - 1) / 4 - (y - 1) / 100 + (y - 1) / 400
    decreases y
  {
    if y > 1 {
      FormulaUpward(y - 1);
      LeapCount(y - 1);
    }
  }

  lemma {:induction false} FormulaDownward(y: int)
    requires y <= 1
    ensures DaysBeforeYear(y) == 365 * (y - 1) + (y - 1) / 4 - (y - 1) / 100 + (y - 1) / 400
    decreases 1 - y
  {
    if y < 1 {
      FormulaDownward(y + 1);
      LeapCount(y);
    }
  }

  lemma {:induction false} YearOrder(y: int, z: int)
    requires y <= z
    ensures DaysBeforeYear(y) + 365 * (z - y) <= DaysBeforeYear(z)
    decreases z - y
  {
    if y < z {
      YearOrder(y, z - 1);
      YearStep(z - 1);
    }
  }

  lemma MonthStep(y: int, m: int)
    requires 1 <= m < 12
    ensures DaysBeforeMonth(y, m + 1) == DaysBeforeMonth(y, m) + DaysInMonth(y, m)
  {
  }

  lemma MonthOrder(y: int, m: int, n: int)
    requires 1 <= m < n <= 12
    ensures DaysBeforeMonth(y, m) + DaysInMonth(y, m) <= DaysBeforeMonth(y, n)
  {
  }

  /** Every date of year y lies in [DaysBeforeYear(y), DaysBeforeYear(y + 1)). */
  lemma DayNumberInYear(d: Date)
    requires d.Valid()
    ensures DaysBeforeYear(d.year) <= DayNumber(d) < DaysBeforeYear(d.year + 1)
  {
    YearStep(d.year);
    if d.month < 12 {
      MonthOrder(d.year, d.month, 12);
    }
  }

  /** Calendar order and day-number order agree. */
  lemma {:induction false} BeforeMeansSmaller(a: Date, b: Date)
    requires a.Valid() && b.Valid()
    requires Before(a, b)
    ensures DayNumber(a) < DayNumber(b)
  {
    if a.year < b.year {
      DayNumberInYear(a);
      DayNumberInYear(b);
      YearOrder(a.year + 1, b.year);
    } else if a.month < b.month {
      MonthOrder(a.year, a.month, b.month);
    }
  }

  /** The day number is a faithful encoding of the calendar order: it is
      strictly monotone in it, hence one-to-one on real dates. */
  lemma DayNumberOrder(a: Date, b: Date)
    requires a.Valid() && b.Valid()
    ensures Before(a, b) <==> DayNumber(a) < DayNumber(b)
    ensures a == b <==> DayNumber(a) == DayNumber(b)
  {
    if Before(a, b) {
      BeforeMeansSmaller(a, b);
    } else if Before(b, a) {
      BeforeMeansSmaller(b, a);
    }
  }

  /** A day 1 .. month length of d's month, k days away from d in its own month is
      k days away in day numbers. */
  lemma SameMonth(d: Date, k: int)
    requires d.Valid() && 1 <= d.day + k <= DaysInMonth(d.year, d.month)
    ensures Date(d.year, d.month, d.day + k).Valid()
    ensures DayNumber(Date(d.year, d.month, d.day + k)) == DayNumber(d) + k
  {
  }

  lemma SameDayNumber(a: Date, b: Date)
    requires a.Valid() && b.Valid()
    requires DayNumber(a) == DayNumber(b)
    ensures a == b
  {
    DayNumberOrder(a, b);
  }

  // ---------------------------------------------------------------------
  // Moving by days

  /** DateTime::modify('+1 day'). */
  function NextDay(d: Date): (r: Date)
    requires d.Valid()
    ensures r.Valid() && DayNumber(r) == DayNumber(d) + 1
  {
    if d.day < DaysInMonth(d.year, d.month) then
      Date(d.year, d.month, d.day + 1)
    else if d.month < 12 then
      MonthStep(d.year, d.month);
      Date(d.year, d.month + 1, 1)
    else
      YearStep(d.year);
      Date(d.year + 1, 1, 1)
  }

  /** DateTime::modify('-1 day'). */
  function PrevDay(d: Date): (r: Date)
    requires d.Valid()
    ensures r.Valid() && DayNumber(r) == DayNumber(d) - 1
  {
    if d.day > 1 then
      Date(d.year, d.month, d.day - 1)
    else if d.month > 1 then
      MonthStep(d.year, d.month - 1);
      Date(d.year, d.month - 1, DaysInMonth(d.year, d.month - 1))
    else
      YearStep(d.year - 1);
      Date(d.year - 1, 12, 31)
  }

  /** The date n days after d (before d when n is negative). */
  function AddDays(d: Date, n: int): (r: Date)
    requires d.Valid()
    ensures r.Valid() && DayNumber(r) == DayNumber(d) + n
    decreases if n < 0 then -n else n
  {
    if n == 0 then d
    else if n > 0 then AddDays(NextDay(d), n - 1)
    else AddDays(PrevDay(d), n + 1)
  }

  lemma ShiftModSeven(x: int, y: int)
    ensures (y + 1) % 7 == ((x + 1) % 7 + (y - x)) % 7
  {
    var q := (x + 1) / 7;
    assert x + 1 == 7 * q + (x + 1) % 7;
    assert y + 1 == 7 * q + ((x + 1) % 7 + (y - x));
  }

  /** The weekday advances by one, modulo 7, with every day. */
  lemma WeekdayOfDayNumber(a: Date, b: Date)
    requires a.Valid() && b.Valid()
    ensures Weekday(b) == (Weekday(a) + (DayNumber(b) - DayNumber(a))) % 7
  {
    ShiftModSeven(DayNumber(a), DayNumber(b));
  }

  /** Stepping (w - wd + 6) % 7 + 1 days forward from day number x, whose
      weekday is wd, lands on weekday w. */
  lemma ForwardLands(x: int, w: int)
    requires 0 <= w < 7
    ensures (x + ((w - (x + 1) % 7 + 6) % 7 + 1) + 1) % 7 == w
  {
    var a := (x + 1) % 7;
    var g := (w - a + 6) % 7 + 1;
    assert a + g == w || a + g == w + 7;
    assert x + g + 1 == 7 * ((x + 1) / 7) + a + g;
  }

  /** Stepping (wd - w + 6) % 7 + 1 days back from day number x, whose
      weekday is wd, lands on weekday w. */
  lemma BackLands(x: int, w: int)
    requires 0 <= w < 7
    ensures (x - (((x + 1) % 7 - w + 6) % 7 + 1) + 1) % 7 == w
  {
    var a := (x + 1) % 7;
    var g := (a - w + 6) % 7 + 1;
    assert a - g == w || a - g == w - 7;
    assert x - g + 1 == 7 * ((x + 1) / 7) + a - g;
  }

  /** From a day on weekday w, none of the next six days is on weekday w. */
  lemma WeekAhead(x: int, t: int)
    requires 1 <= t <= 6
    ensures (x + t + 1) % 7 != (x + 1) % 7
  {
    assert x + t + 1 == 7 * ((x + 1) / 7) + (x + 1) % 7 + t;
  }

  /** DateTime::modify('next <weekday>'): a date strictly after d, at most a
      week on, that falls on weekday w (the first such: NextWeekdayIsFirst).
      From weekday wd the move is (w - wd + 6) % 7 + 1 days forward. */
  function NextWeekday(d: Date, w: int): (r: Date)
    requires d.Valid() && 0 <= w < 7
    ensures r.Valid() && Weekday(r) == w
    ensures DayNumber(d) < DayNumber(r) <= DayNumber(d) + 7
    ensures DayNumber(r) == DayNumber(d) + (w - Weekday(d) + 6) % 7 + 1
  {
    var r := AddDays(d, (w - Weekday(d) + 6) % 7 + 1);
    NextWeekdayLands(d, w, r);
    r
  }

  lemma NextWeekdayLands(d: Date, w: int, r: Date)
    requires d.Valid() && r.Valid() && 0 <= w < 7
    requires DayNumber(r) == DayNumber(d) + (w - Weekday(d) + 6) % 7 + 1
    ensures Weekday(r) == w
  {
    hide DayNumber;
    ForwardLands(DayNumber(d), w);
  }

  /** No day strictly between d and NextWeekday(d, w) falls on weekday w. */
  lemma NextWeekdayIsFirst(d: Date, w: int)
    requires d.Valid() && 0 <= w < 7
    ensures forall e: Date :: e.Valid() && DayNumber(d) < DayNumber(e) < DayNumber(NextWeekday(d, w)) ==> Weekday(e) != w
  {
    hide DayNumber;
    var r := NextWeekday(d, w);
    forall e: Date | e.Valid() && DayNumber(d) < DayNumber(e) < DayNumber(r)
      ensures Weekday(e) != w
    {
      // Such a day lies 1 .. 6 days before r, which is on weekday w.
      WeekAhead(DayNumber(e), DayNumber(r) - DayNumber(e));
    }
  }

  /** DateTime::modify('previous <weekday>') (and 'last <weekday>'): a date
      strictly before d, at most a week back, that falls on weekday w (the
      last such: PreviousWeekdayIsLast). From weekday wd the move is
      (wd - w + 6) % 7 + 1 days back. */
  function PreviousWeekday(d: Date, w: int): (r: Date)
    requires d.Valid() && 0 <= w < 7
    ensures r.Valid() && Weekday(r) == w
    ensures DayNumber(d) - 7 <= DayNumber(r) < DayNumber(d)
    ensures DayNumber(r) == DayNumber(d) - ((Weekday(d) - w + 6) % 7 + 1)
  {
    var r := AddDays(d, -((Weekday(d) - w + 6) % 7 + 1));
    PreviousWeekdayLands(d, w, r);
    r
  }

  lemma PreviousWeekdayLands(d: Date, w: int, r: Date)
    requires d.Valid() && r.Valid() && 0 <= w < 7
    requires DayNumber(r) == DayNumber(d) - ((Weekday(d) - w + 6) % 7 + 1)
    ensures Weekday(r) == w
  {
    hide DayNumber;
    BackLands(DayNumber(d), w);
  }

  /** No day strictly between PreviousWeekday(d, w) and d falls on weekday w. */
  lemma PreviousWeekdayIsLast(d: Date, w: int)
    requires d.Valid() && 0 <= w < 7
    ensures forall e: Date :: e.Valid() && DayNumber(PreviousWeekday(d, w)) < DayNumber(e) < DayNumber(d) ==> Weekday(e) != w
  {
    hide DayNumber;
    var r := PreviousWeekday(d, w);
    forall e: Date | e.Valid() && DayNumber(r) < DayNumber(e) < DayNumber(d)
      ensures Weekday(e) != w
    {
      // Such a day lies 1 .. 6 days after r, which is on weekday w.
      WeekAhead(DayNumber(r), DayNumber(e) - DayNumber(r));
    }
  }

  /** DateTime::modify('<ordinal> <weekday> of') applied to a date in month m
      of year y: the n-th weekday w of that month, for n = 1 .. 4 (every
      month has at least four of each weekday). */
  function NthWeekdayOfMonth(y: int, m: int, n: int, w: int): (r: Date)
    requires 1 <= m <= 12 && 1 <= n <= 4 && 0 <= w < 7
    ensures r.Valid() && r.year == y && r.month == m && Weekday(r) == w
    ensures 7 * (n - 1) < r.day <= 7 * n
  {
    var first := Date(y, m, 1);
    var offset := (w - Weekday(first)) % 7 + 7 * (n - 1);
    var r := Date(y, m, 1 + offset);
    SameMonth(first, offset);
    WeekdayOfDayNumber(first, r);
    NthGap(Weekday(first), w, n);
    r
  }

  lemma NthGap(wf: int, w: int, n: int)
    requires 0 <= wf < 7 && 0 <= w < 7
    ensures (wf + ((w - wf) % 7 + 7 * (n - 1))) % 7 == w
  {
    var g := (w - wf) % 7;
    assert wf + g == w || wf + g == w + 7;
  }
}
