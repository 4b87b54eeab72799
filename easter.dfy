/** Easter Sunday by the closed-form Gregorian computus of the U.S. Naval
    Observatory (SchoolHolidays::calculateEaster).

    The source computes k as `(int)($c - 17) / 25`: the cast binds to the
    numerator only, so k is a fraction and `intval(($c - $k) / 3)` equals
    (24c + 17) / 75 rather than the computus' (c - (c - 17) div 25) div 3.
    Both forms run through `Computus`, which takes that one term as a
    parameter; everything else is shared. */
module Easter {
  import opened CivilDate

  /** Days from 0001-01-01 to March 1 of year y, written with y / 4, y / 100
      and y / 400 as the computus uses them. */
  lemma MarchFirst(y: int)
    ensures DayNumber(Date(y, 3, 1)) == 365 * (y - 1) + y / 4 - y / 100 + y / 400 + 59
  {
    DaysBeforeYearFormula(y);
    LeapCount(y);
  }

  lemma CenturyQuarter(y: int)
    ensures (y / 100) / 4 == y / 400
  {
    var a := y / 400;
    var b := y % 400;
    assert y == 400 * a + b;
    assert y / 100 == 4 * a + b / 100;
  }

  /** The epact step of the computus: i = (c - c/4 - t + 19n + 15) mod 30,
      lowered by one in the two exceptional cases (i = 29, and i = 28 with
      n > 10). The result is a number of days 0 .. 28. The source writes the
      correction as one arithmetic expression; EpactArithmetic shows it is
      this case split. */
  function Epact(c: int, n: int, t: int): (i: int)
    requires 0 <= n < 19
    ensures 0 <= i <= 28
  {
    var i1 := (c - c / 4 - t + 19 * n + 15) % 30;
    if i1 == 29 || (i1 == 28 && n > 10) then i1 - 1 else i1
  }

  /** The source's correction i1 - (i1 / 28) * (1 - (i1 / 28) * (29 / (i1 + 1))
      * ((21 - n) / 11)), with i1 = i0 - 30 * (i0 / 30), is Epact. */
  lemma EpactArithmetic(c: int, n: int, t: int)
    requires 0 <= n < 19
    ensures var i0 := c - c / 4 - t + 19 * n + 15;
      var i1 := i0 - 30 * (i0 / 30);
      var hi := i1 / 28;
      Epact(c, n, t) == i1 - hi * (1 - hi * (29 / (i1 + 1)) * ((21 - n) / 11))
  {
    var i0 := c - c / 4 - t + 19 * n + 15;
    var i1 := i0 - 30 * (i0 / 30);
    assert i1 == i0 % 30;
    if i1 == 28 {
      assert i1 / 28 == 1 && 29 / (i1 + 1) == 1;
      assert (21 - n) / 11 == (if n <= 10 then 1 else 0);
    } else if i1 == 29 {
      assert i1 / 28 == 1 && 29 / (i1 + 1) == 0;
    } else {
      assert i1 / 28 == 0;
    }
  }

  /** The weekday step of the computus: with j = j0 mod 7 and
      j0 = y + a + i + 2, the day l + 27 after a March 1 whose day number is
      365(y - 1) + a + 59 (l = i - j) is a Sunday. */
  lemma SundayStep(y: int, a: int, i: int, j0: int, j: int)
    requires j0 == y + a + i + 2 && j == j0 - 7 * (j0 / 7)
    ensures (365 * (y - 1) + a + 59 + (i - j) + 27 + 1) % 7 == 0
  {
    assert 365 * (y - 1) + a + 59 + (i - j) + 27 + 1 == 7 * (52 * y - 40 + j0 / 7);
  }

  /** The computus with its (c - k) / 3 term supplied as t. Whatever t is,
      the result is a Sunday between March 22 and April 25 of year y. */
  function Computus(y: int, t: int): (e: Date)
    ensures e.Valid() && e.year == y && Weekday(e) == Sunday
    ensures (e.month == 3 && 22 <= e.day) || (e.month == 4 && e.day <= 25)
  {
    var c := y / 100;
    var n := y - 19 * (y / 19);
    var i := Epact(c, n, t);
    var j0 := y + y / 4 + i + 2 - c + c / 4;
    var j := j0 - 7 * (j0 / 7);
    var l := i - j;
    var m := 3 + (l + 40) / 44;
    var d := l + 28 - 31 * (m / 4);
    var e := Date(y, m, d);
    ComputusIsSunday(y, c, i, j0, j, e);
    e
  }

  lemma ComputusIsSunday(y: int, c: int, i: int, j0: int, j: int, e: Date)
    requires c == y / 100 && 0 <= i <= 28
    requires j0 == y + y / 4 + i + 2 - c + c / 4 && j == j0 - 7 * (j0 / 7)
    requires e == Date(y, 3 + (i - j + 40) / 44, i - j + 28 - 31 * ((3 + (i - j + 40) / 44) / 4))
    ensures e.Valid() && e.year == y && Weekday(e) == Sunday
    ensures (e.month == 3 && 22 <= e.day) || (e.month == 4 && e.day <= 25)
  {
    var l := i - j;
    assert -6 <= l <= 28;
    assert e == if l < 4 then Date(y, 3, l + 28) else Date(y, 4, l - 3);
    MarchFirst(y);
    CenturyQuarter(y);
    var a := y / 4 - y / 100 + y / 400;
    // March (l + 28) and April (l - 3) are both l + 27 days after March 1.
    assert DayNumber(e) == 365 * (y - 1) + a + 59 + l + 27;
    SundayStep(y, a, i, j0, j);
  }

  /** Line 173 divides after the cast, so k = (c - 17) / 25 is a float, and
      line 174 truncates (c - k) / 3. For c >= 0 that quotient is positive
      and equals (24c + 17) / 75 exactly, so its truncation is the integer
      quotient. */
  lemma LiteralTerm(c: int)
    requires c >= 0
    ensures ((c as real - (c - 17) as real / 25.0) / 3.0).Floor == (24 * c + 17) / 75
  {
    assert (c as real - (c - 17) as real / 25.0) / 3.0 == (24 * c + 17) as real / 75.0;
  }

  /** 24c + 17 is never a multiple of 75 (their difference would be a
      multiple of 3 equal to 17), so the float quotient of LiteralTerm is
      never a whole number that rounding could push below itself. */
  lemma NeverMultipleOf75(c: int)
    ensures (24 * c + 17) % 75 != 0
  {
    var q, r := (24 * c + 17) / 75, (24 * c + 17) % 75;
    assert r == 3 * (8 * c - 25 * q) + 17;
  }

  /** calculateEaster as written: (c - k) / 3 with a fractional k, which is
      (24c + 17) / 75 for every c >= 0 (LiteralTerm, NeverMultipleOf75). */
  function EasterSunday(y: int): (e: Date)
    requires 0 <= y
    ensures e.Valid() && e.year == y && Weekday(e) == Sunday
    ensures (e.month == 3 && 22 <= e.day) || (e.month == 4 && e.day <= 25)
  {
    Computus(y, (24 * (y / 100) + 17) / 75)
  }

  /** The computus as published, with the integer k = (c - 17) div 25. */
  function UsnoEasterSunday(y: int): (e: Date)
    ensures e.Valid() && e.year == y && Weekday(e) == Sunday
    ensures (e.month == 3 && 22 <= e.day) || (e.month == 4 && e.day <= 25)
  {
    var c := y / 100;
    Computus(y, (c - (c - 17) / 25) / 3)
  }

  /** In the twentieth and twenty-first centuries both forms of the term are
      6, so the source's Easter is the published one for 1900 .. 2099. */
  lemma EasterFormsAgree(y: int)
    requires 1900 <= y <= 2099
    ensures EasterSunday(y) == UsnoEasterSunday(y)
  {
    var c := y / 100;
    assert c == 19 || c == 20;
    assert (24 * c + 17) / 75 == 6 == (c - (c - 17) / 25) / 3;
  }

  /** Outside that range the two forms part: in 1818 the source's formula
      gives March 29, while Easter fell on March 22. */
  lemma EasterFormsDiffer1818()
    ensures EasterSunday(1818) == Date(1818, 3, 29)
    ensures UsnoEasterSunday(1818) == Date(1818, 3, 22)
  {
    SourceEaster1818();
    UsnoEaster1818();
  }

  lemma SourceEaster1818()
    ensures EasterSunday(1818) == Date(1818, 3, 29)
  {
    hide DayNumber;
    assert 1818 / 100 == 18 && 1818 / 19 == 95 && 1818 / 4 == 454 && 18 / 4 == 4;
    assert (24 * 18 + 17) / 75 == 5 && Epact(18, 13, 5) == 1;
    assert 2261 / 7 == 323 && (1 + 40) / 44 == 0 && 3 / 4 == 0;
  }

  lemma UsnoEaster1818()
    ensures UsnoEasterSunday(1818) == Date(1818, 3, 22)
  {
    hide DayNumber;
    assert 1818 / 100 == 18 && 1818 / 19 == 95 && 1818 / 4 == 454 && 18 / 4 == 4;
    assert (18 - (18 - 17) / 25) / 3 == 6 && Epact(18, 13, 6) == 0;
    assert 2260 / 7 == 322 && (-6 + 40) / 44 == 0;
  }

  /** In the twenty-second century the forms part again: for 2106 the
      source's formula gives April 25 and the published one April 18. */
  lemma EasterFormsDiffer2106()
    ensures EasterSunday(2106) == Date(2106, 4, 25)
    ensures UsnoEasterSunday(2106) == Date(2106, 4, 18)
  {
    SourceEaster2106();
    UsnoEaster2106();
  }

  lemma SourceEaster2106()
    ensures EasterSunday(2106) == Date(2106, 4, 25)
  {
    hide DayNumber;
    assert 2106 / 100 == 21 && 2106 / 19 == 110 && 2106 / 4 == 526 && 21 / 4 == 5;
    assert (24 * 21 + 17) / 75 == 6 && Epact(21, 16, 6) == 28;
    assert 2646 / 7 == 378 && (28 + 40) / 44 == 1 && 4 / 4 == 1;
  }

  lemma UsnoEaster2106()
    ensures UsnoEasterSunday(2106) == Date(2106, 4, 18)
  {
    hide DayNumber;
    assert 2106 / 100 == 21 && 2106 / 19 == 110 && 2106 / 4 == 526 && 21 / 4 == 5;
    assert (21 - (21 - 17) / 25) / 3 == 7 && Epact(21, 16, 7) == 27;
    assert 2645 / 7 == 377 && (21 + 40) / 44 == 1 && 4 / 4 == 1;
  }

  /** The corrected computus reproduces the published date of Easter 2000. */
  lemma UsnoEaster2000()
    ensures UsnoEasterSunday(2000) == Date(2000, 4, 23)
  {
    hide DayNumber;
    assert 2000 / 100 == 20 && 2000 / 19 == 105 && 2000 / 4 == 500 && 20 / 4 == 5;
    assert (20 - (20 - 17) / 25) / 3 == 6 && Epact(20, 5, 6) == 28;
    assert 2515 / 7 == 359 && (26 + 40) / 44 == 1 && 4 / 4 == 1;
  }

  /** The corrected computus reproduces the published date of Easter 2025. */
  lemma UsnoEaster2025()
    ensures UsnoEasterSunday(2025) == Date(2025, 4, 20)
  {
    hide DayNumber;
    assert 2025 / 100 == 20 && 2025 / 19 == 106 && 2025 / 4 == 506 && 20 / 4 == 5;
    assert (20 - (20 - 17) / 25) / 3 == 6 && Epact(20, 11, 6) == 23;
    assert 2541 / 7 == 363 && (23 + 40) / 44 == 1 && 4 / 4 == 1;
  }

  /** The corrected computus reproduces the published date of Easter 2100.
      The two forms' terms differ there (6 and 7), but not their dates. */
  lemma UsnoEaster2100()
    ensures UsnoEasterSunday(2100) == Date(2100, 3, 28)
  {
    hide DayNumber;
    assert 2100 / 100 == 21 && 2100 / 19 == 110 && 2100 / 4 == 525 && 21 / 4 == 5;
    assert (21 - (21 - 17) / 25) / 3 == 7 && Epact(21, 10, 7) == 4;
    assert 2615 / 7 == 373 && (0 + 40) / 44 == 0 && 3 / 4 == 0;
  }
}
