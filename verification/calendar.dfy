/**
 Instants, the proleptic Gregorian calendar, and the month buckets of the
 retention scheme.

 An instant counts nanoseconds from 0001-01-01T00:00:00Z, Go's zero time, so
 `IsZero` is equality with 0. Instants are unbounded, as are years.
 */
module Calendar {
  import opened Text
  import opened Decimal

  type Instant = int

  const DAY: int := 86_400_000_000_000

  predicate IsZero(t: Instant)
  {
    t == 0
  }

  function DayOf(t: Instant): int
  {
    t / DAY
  }

  // ---- Years ----

  predicate IsLeap(y: int)
  {
    y % 4 == 0 && (y % 100 != 0 || y % 400 == 0)
  }

  /** Days from 0001-01-01 to the first day of year `y`. */
  function DaysBeforeYear(y: int): int
  {
    365 * (y - 1) + (y - 1) / 4 - (y - 1) / 100 + (y - 1) / 400
  }

  function YearLength(y: int): int
  {
    if IsLeap(y) then 366 else 365
  }

  lemma NextFourth(y: int)
    ensures y / 4 == (y - 1) / 4 + if y % 4 == 0 then 1 else 0
  {
  }

  lemma NextHundredth(y: int)
    ensures y / 100 == (y - 1) / 100 + if y % 100 == 0 then 1 else 0
    ensures y % 100 == 0 ==> y % 4 == 0
  {
  }

  lemma NextFourHundredth(y: int)
    ensures y / 400 == (y - 1) / 400 + if y % 400 == 0 then 1 else 0
    ensures y % 400 == 0 ==> y % 100 == 0
  {
  }

  lemma YearSpans(y: int)
    ensures DaysBeforeYear(y + 1) == DaysBeforeYear(y) + YearLength(y)
  {
    NextFourth(y);
    NextHundredth(y);
    NextFourHundredth(y);
  }

  lemma {:induction false} YearsAscend(y: int, z: int)
    requires y <= z
    ensures DaysBeforeYear(y) <= DaysBeforeYear(z)
    decreases z - y
  {
    if y < z {
      YearSpans(y);
      YearsAscend(y + 1, z);
    }
  }

  function Min(a: int, b: int): int
  {
    if a < b then a else b
  }

  /** A day as its 400-year cycle, century, 4-year group, year and day of that year. */
  datatype Cycles = Cycles(n: int, c: int, q: int, k: int, rest: int)

  function CyclesOf(d: int): Cycles
  {
    var inCycle := d % 146097;
    var c := Min(inCycle / 36524, 3);
    var inCentury := inCycle - 36524 * c;
    var inFour := inCentury % 1461;
    var k := Min(inFour / 365, 3);
    Cycles(d / 146097, c, inCentury / 1461, k, inFour - 365 * k)
  }

  function YearOf(d: int): int
  {
    var y := CyclesOf(d);
    400 * y.n + 100 * y.c + 4 * y.q + y.k + 1
  }

  lemma CyclesCover(d: int)
    ensures var y := CyclesOf(d);
      && d == 146097 * y.n + 36524 * y.c + 1461 * y.q + 365 * y.k + y.rest
      && 0 <= y.c <= 3 && 0 <= y.q <= 24 && 0 <= y.k <= 3 && 0 <= y.rest <= 365
      && (y.rest == 365 ==> y.k == 3)
      && (y.rest == 365 && y.c < 3 ==> y.q < 24)
  {
    var inCycle := d % 146097;
    var c := Min(inCycle / 36524, 3);
    var inCentury := inCycle - 36524 * c;
    assert 0 <= inCentury <= 36524 && (c < 3 ==> inCentury < 36524);
    var inFour := inCentury % 1461;
    assert inCentury == 1461 * (inCentury / 1461) + inFour;
  }

  lemma CyclesAddUp(n: int, c: int, q: int, k: int)
    requires 0 <= c <= 3 && 0 <= q <= 24 && 0 <= k <= 3
    ensures DaysBeforeYear(400 * n + 100 * c + 4 * q + k + 1) == 146097 * n + 36524 * c + 1461 * q + 365 * k
  {
    var a := 400 * n + 100 * c + 4 * q + k;
    assert a / 4 == 100 * n + 25 * c + q;
    assert a / 100 == 4 * n + c;
    assert a / 400 == n;
  }

  lemma YearOfBrackets(d: int)
    ensures DaysBeforeYear(YearOf(d)) <= d < DaysBeforeYear(YearOf(d) + 1)
  {
    hide DaysBeforeYear, IsLeap, CyclesOf;
    var y := CyclesOf(d);
    CyclesCover(d);
    CyclesAddUp(y.n, y.c, y.q, y.k);
    YearSpans(YearOf(d));
    if y.rest == 365 {
      // Only the last year of a 4-year group reaches a 366th day.
      LastYearLeaps(y.n, y.c, y.q);
    }
  }

  /** A 4-year group ends in a leap year unless it closes a century that is not the fourth. */
  lemma LastYearLeaps(n: int, c: int, q: int)
    requires 0 <= c <= 3 && 0 <= q <= 24 && (c < 3 ==> q < 24)
    ensures IsLeap(400 * n + 100 * c + 4 * q + 4)
  {
    var y := 400 * n + 100 * c + 4 * q + 4;
    assert y == 4 * (100 * n + 25 * c + q + 1);
    if q == 24 {
      assert y == 400 * (n + 1);
    } else {
      assert y == 100 * (4 * n + c) + (4 * q + 4);
    }
  }

  // ---- Dates ----

  datatype Date = Date(year: int, month: int, day: int)

  const MONTH_STARTS: seq<int> := [0, 31, 59, 90, 120, 151, 181, 212, 243, 273, 304, 334, 365]

  /** Days of the year before month `m`; month 13 stands for the year's end. */
  function DaysBeforeMonth(m: int, leap: bool): int
    requires 1 <= m <= 13
  {
    MONTH_STARTS[m - 1] + if leap && m > 2 then 1 else 0
  }

  function MonthLength(m: int, leap: bool): int
    requires 1 <= m <= 12
  {
    DaysBeforeMonth(m + 1, leap) - DaysBeforeMonth(m, leap)
  }

  predicate ValidDate(c: Date)
  {
    1 <= c.month <= 12 && 1 <= c.day <= MonthLength(c.month, IsLeap(c.year))
  }

  function MonthFrom(n: int, leap: bool, m: int): (r: int)
    requires 1 <= m <= 12 && DaysBeforeMonth(m, leap) <= n < DaysBeforeMonth(13, leap)
    ensures m <= r <= 12 && DaysBeforeMonth(r, leap) <= n < DaysBeforeMonth(r + 1, leap)
    decreases 12 - m
  {
    if n < DaysBeforeMonth(m + 1, leap) then m else MonthFrom(n, leap, m + 1)
  }

  function DateOf(d: int): (c: Date)
    ensures ValidDate(c)
  {
    YearOfBrackets(d);
    var y := YearOf(d);
    YearSpans(y);
    var n := d - DaysBeforeYear(y);
    var m := MonthFrom(n, IsLeap(y), 1);
    Date(y, m, n - DaysBeforeMonth(m, IsLeap(y)) + 1)
  }

  function DaysOf(c: Date): int
    requires ValidDate(c)
  {
    DaysBeforeYear(c.year) + DaysBeforeMonth(c.month, IsLeap(c.year)) + c.day - 1
  }

  lemma DateFields(c: Date)
    requires ValidDate(c)
    ensures 1 <= c.month <= 12 && 1 <= c.day <= 31
  {
    hide IsLeap;
  }

  lemma DaysOfDateOf(d: int)
    ensures DaysOf(DateOf(d)) == d
  {
    hide YearOf, DaysBeforeYear, IsLeap, DaysBeforeMonth, MonthFrom;
  }

  lemma MonthsAscend(m: int, k: int, leap: bool)
    requires 1 <= m <= k <= 13
    ensures DaysBeforeMonth(m, leap) <= DaysBeforeMonth(k, leap)
  {
  }

  lemma WithinYear(c: Date)
    requires ValidDate(c)
    ensures DaysBeforeYear(c.year) <= DaysOf(c) < DaysBeforeYear(c.year + 1)
  {
    hide IsLeap, DaysBeforeYear, DaysBeforeMonth;
    YearSpans(c.year);
    MonthsAscend(1, c.month, IsLeap(c.year));
    MonthsAscend(c.month + 1, 13, IsLeap(c.year));
    YearEnds(IsLeap(c.year));
  }

  lemma YearEnds(leap: bool)
    ensures DaysBeforeMonth(1, leap) == 0
    ensures DaysBeforeMonth(13, leap) == if leap then 366 else 365
  {
  }

  /** A day in a later month of the same year comes later. */
  lemma LaterMonthLaterDay(c: Date, e: Date)
    requires ValidDate(c) && ValidDate(e) && c.year == e.year && c.month < e.month
    ensures DaysOf(c) < DaysOf(e)
  {
    hide IsLeap, DaysBeforeYear, DaysBeforeMonth;
    MonthsAscend(c.month + 1, e.month, IsLeap(c.year));
  }

  lemma LaterYearLaterDay(c: Date, e: Date)
    requires ValidDate(c) && ValidDate(e) && c.year < e.year
    ensures DaysOf(c) < DaysOf(e)
  {
    hide IsLeap, DaysBeforeYear, DaysBeforeMonth, DaysOf, ValidDate;
    WithinYear(c);
    WithinYear(e);
    YearsAscend(c.year + 1, e.year);
  }

  /** Day counts order dates as calendars do: by year, then by month. */
  lemma DaysOrder(c: Date, e: Date)
    requires ValidDate(c) && ValidDate(e) && DaysOf(c) <= DaysOf(e)
    ensures c.year < e.year || (c.year == e.year && c.month <= e.month)
  {
    hide IsLeap, DaysBeforeYear, DaysBeforeMonth, DaysOf, ValidDate;
    if e.year < c.year {
      LaterYearLaterDay(e, c);
    } else if c.year == e.year && e.month < c.month {
      LaterMonthLaterDay(e, c);
    }
  }

  lemma DaysDetermineDate(c: Date, e: Date)
    requires ValidDate(c) && ValidDate(e) && DaysOf(c) == DaysOf(e)
    ensures c == e
  {
    hide IsLeap, DaysBeforeYear, DaysBeforeMonth, ValidDate;
    DaysOrder(c, e);
    DaysOrder(e, c);
  }

  /** The calendar and the day count are inverse to each other. */
  lemma DateOfDaysOf(c: Date)
    requires ValidDate(c)
    ensures DateOf(DaysOf(c)) == c
  {
    hide IsLeap, DaysOf, DateOf, ValidDate;
    DaysOfDateOf(DaysOf(c));
    DaysDetermineDate(DateOf(DaysOf(c)), c);
  }

  // ---- The calendar as it is taught ----

  /** The days of a month, by the rules of the Gregorian calendar. */
  function MonthDays(y: int, m: int): int
  {
    if m == 4 || m == 6 || m == 9 || m == 11 then 30
    else if m == 2 then (if y % 4 == 0 && (y % 100 != 0 || y % 400 == 0) then 29 else 28)
    else 31
  }

  function FirstOf(y: int, m: int): (c: Date)
    requires 1 <= m <= 12
    ensures ValidDate(c)
  {
    hide IsLeap;
    Date(y, m, 1)
  }

  function FirstOfNext(y: int, m: int): (c: Date)
    requires 1 <= m <= 12
    ensures ValidDate(c)
  {
    if m == 12 then FirstOf(y + 1, 1) else FirstOf(y, m + 1)
  }

  lemma EpochIsFirst()
    ensures ValidDate(Date(1, 1, 1)) && DaysOf(Date(1, 1, 1)) == 0
  {
  }

  lemma MonthLengthIsDays(y: int, m: int)
    requires 1 <= m <= 12
    ensures MonthLength(m, IsLeap(y)) == MonthDays(y, m)
  {
  }

  /**
   Day 0 is 0001-01-01, and every month, in every year, is as long as the calendar
   says; together these fix the day of every date.
   */
  lemma MonthsAreThatLong(y: int, m: int)
    requires 1 <= m <= 12
    ensures DaysOf(FirstOfNext(y, m)) - DaysOf(FirstOf(y, m)) == MonthDays(y, m)
    ensures DaysOf(FirstOf(1, 1)) == 0
  {
    EpochIsFirst();
    MonthLengthIsDays(y, m);
    hide IsLeap, DaysBeforeYear, MonthDays;
    if m == 12 {
      YearSpans(y);
      YearEnds(IsLeap(y));
      YearEnds(IsLeap(y + 1));
    }
  }

  /** A date is the given month's exactly if its day lies between the firsts of that month and the next. */
  lemma DaysOfMonth(y: int, m: int, c: Date)
    requires 1 <= m <= 12 && ValidDate(c)
    ensures DaysOf(FirstOf(y, m)) <= DaysOf(c) < DaysOf(FirstOf(y, m)) + MonthDays(y, m)
       <==> c.year == y && c.month == m
  {
    MonthsAreThatLong(y, m);
    MonthLengthIsDays(y, m);
    FirstOfMonth(c);
    DateFields(c);
    hide IsLeap, DaysBeforeYear, DaysBeforeMonth, MonthDays;
    if c.year == y && c.month == m {
      assert c.(day := 1) == FirstOf(y, m);
    } else if DaysOf(FirstOf(y, m)) <= DaysOf(c) < DaysOf(FirstOfNext(y, m)) {
      hide DaysOf;
      DaysOrder(FirstOf(y, m), c);
      DaysOrder(c, FirstOfNext(y, m));
    }
  }

  /** From one day to the next the year grows by one at most. */
  lemma NextDayYear(d: int)
    ensures YearOf(d) <= YearOf(d + 1) <= YearOf(d) + 1
  {
    hide YearOf, DaysBeforeYear, IsLeap;
    var y, z := YearOf(d), YearOf(d + 1);
    YearOfBrackets(d);
    YearOfBrackets(d + 1);
    YearSpans(y + 1);
    if z < y {
      YearsAscend(z + 1, y);
    } else if z > y + 1 {
      YearsAscend(y + 2, z);
    }
  }

  /** Months counted through the years, the quantity a bucket stands for. */
  function MonthIndex(t: Instant): int
  {
    var c := DateOf(DayOf(t));
    12 * c.year + c.month
  }

  function MonthStart(t: Instant): Instant
  {
    DaysOf(FirstDay(DateOf(DayOf(t)))) * DAY
  }

  function FirstDay(c: Date): (f: Date)
    requires ValidDate(c)
    ensures ValidDate(f)
  {
    c.(day := 1)
  }

  lemma FirstOfMonth(c: Date)
    requires ValidDate(c)
    ensures ValidDate(c.(day := 1)) && DaysOf(c.(day := 1)) == DaysOf(c) - (c.day - 1)
  {
    hide IsLeap, DaysBeforeYear, DaysBeforeMonth;
  }

  lemma DayBrackets(t: Instant)
    ensures DayOf(t) * DAY <= t < DayOf(t) * DAY + DAY
  {
  }

  lemma MonthBrackets(t: Instant)
    ensures MonthStart(t) <= t < MonthStart(t) + 31 * DAY
  {
    hide DateOf, DaysOf, ValidDate, DayOf;
    var c := DateOf(DayOf(t));
    DaysOfDateOf(DayOf(t));
    FirstOfMonth(c);
    DateFields(c);
    DayBrackets(t);
  }

  lemma DayOfAscends(t: Instant, u: Instant)
    requires t <= u
    ensures DayOf(t) <= DayOf(u)
  {
  }

  lemma MonthIndexAscends(t: Instant, u: Instant)
    requires t <= u
    ensures MonthIndex(t) <= MonthIndex(u)
  {
    hide DateOf, DaysOf, ValidDate, DayOf;
    DayOfAscends(t, u);
    var c, e := DateOf(DayOf(t)), DateOf(DayOf(u));
    DaysOfDateOf(DayOf(t));
    DaysOfDateOf(DayOf(u));
    DateFields(c);
    DateFields(e);
    DaysOrder(c, e);
  }

  // ---- Texts ----

  /** Go's `2006`: four digits, more when the year needs them, a sign before it. */
  function YearText(y: int): string
    decreases y < 0
  {
    if y < 0 then "-" + YearText(-y)
    else if y <= 9999 then Fixed(y, 4)
    else Digits(y)
  }

  function YearValue(s: string): int
    requires s != [] && AllDigits(s[1..]) && (s[0] == '-' || IsDigit(s[0]))
  {
    if s[0] == '-' then -(Value(s[1..]) as int) else Value(s)
  }

  lemma YearTextValue(y: int)
    ensures YearText(y) != [] && AllDigits(YearText(y)[1..])
    ensures YearText(y)[0] == '-' || IsDigit(YearText(y)[0])
    ensures YearValue(YearText(y)) == y
    decreases y < 0
  {
    if y < 0 {
      YearTextValue(-y);
      assert YearText(y)[1..] == YearText(-y);
      NoSign(-y);
    } else if y <= 9999 {
      assert Pow10(4) == 10000;
      FixedValue(y, 4);
    } else {
      DigitsValue(y);
    }
  }

  lemma NoSign(y: nat)
    ensures AllDigits(YearText(y)) && YearText(y) != []
  {
  }

  /** Go's `2006-01-02`. */
  function DateText(c: Date): string
    requires ValidDate(c)
  {
    YearText(c.year) + ("-" + (Fixed(c.month, 2) + ("-" + Fixed(c.day, 2))))
  }

  /** The retention bucket of an instant: the first day of its UTC month. */
  function Period(t: Instant): string
  {
    DateText(FirstDay(DateOf(DayOf(t))))
  }

  /** Instants whose UTC year is written with exactly four digits. */
  predicate FourDigitYear(t: Instant)
  {
    0 <= DateOf(DayOf(t)).year <= 9999
  }

  function AfterMonth(m: nat): string
  {
    "-" + (Fixed(m, 2) + ("-" + Fixed(1, 2)))
  }

  lemma MonthOrder(m: nat, k: nat)
    requires m < 100 && k < 100
    ensures Le(AfterMonth(m), AfterMonth(k)) <==> m <= k
  {
    assert Pow10(2) == 100;
    hide Fixed, Pow10, Le;
    var dd := "-" + Fixed(1, 2);
    FixedOrder(m, k, 2);
    FixedValue(m, 2);
    FixedValue(k, 2);
    LeReflexive(dd);
    LeConcat(Fixed(m, 2), Fixed(k, 2), dd, dd);
    LeConcat("-", "-", Fixed(m, 2) + dd, Fixed(k, 2) + dd);
  }

  lemma BucketOrder(c: Date, e: Date)
    requires ValidDate(c) && ValidDate(e) && c.day == e.day == 1
    requires 0 <= c.year <= 9999 && 0 <= e.year <= 9999
    ensures Le(DateText(c), DateText(e)) <==> 12 * c.year + c.month <= 12 * e.year + e.month
  {
    hide Fixed, Le, ValidDate;
    assert Pow10(4) == 10000;
    DateFields(c);
    DateFields(e);
    FixedOrder(c.year, e.year, 4);
    FixedValue(c.year, 4);
    FixedValue(e.year, 4);
    MonthOrder(c.month, e.month);
    LeConcat(YearText(c.year), YearText(e.year), AfterMonth(c.month), AfterMonth(e.month));
  }

  /**
   Buckets compare as strings exactly as their months compare in time. The
   store's guards and the purge rest on this.
   */
  lemma PeriodOrder(t: Instant, u: Instant)
    requires FourDigitYear(t) && FourDigitYear(u)
    ensures Le(Period(t), Period(u)) <==> MonthIndex(t) <= MonthIndex(u)
    ensures Period(t) == Period(u) <==> MonthIndex(t) == MonthIndex(u)
    ensures t <= u ==> Le(Period(t), Period(u))
  {
    hide DateOf, DayOf, DateText, Le, ValidDate;
    var c, e := FirstDay(DateOf(DayOf(t))), FirstDay(DateOf(DayOf(u)));
    BucketOrder(c, e);
    BucketOrder(e, c);
    if t <= u { MonthIndexAscends(t, u); }
    LeReflexive(Period(t));
    if Le(Period(t), Period(u)) && Le(Period(u), Period(t)) {
      LeAntisymmetric(Period(t), Period(u));
    }
  }

  lemma FirstsDistinguishMonths(c: Date, e: Date)
    requires ValidDate(c) && ValidDate(e)
    ensures DaysOf(FirstDay(c)) == DaysOf(FirstDay(e)) <==> 12 * c.year + c.month == 12 * e.year + e.month
  {
    hide DaysOf, ValidDate;
    DateFields(c);
    DateFields(e);
    if DaysOf(FirstDay(c)) == DaysOf(FirstDay(e)) {
      DaysDetermineDate(FirstDay(c), FirstDay(e));
    }
  }

  lemma DateTextDetermines(c: Date, e: Date)
    requires ValidDate(c) && ValidDate(e) && DateText(c) == DateText(e)
    ensures c == e
  {
    DateFields(c);
    DateFields(e);
    hide ValidDate, Fixed, YearText, YearValue;
    var s, n, k := DateText(c), |YearText(c.year)|, |YearText(e.year)|;
    assert |s| == n + 6 == k + 6;
    assert s[..n] == YearText(c.year) && s[..n] == YearText(e.year);
    YearTextValue(c.year);
    YearTextValue(e.year);
    assert s[n + 1..n + 3] == Fixed(c.month, 2) && s[n + 1..n + 3] == Fixed(e.month, 2);
    assert s[n + 4..] == Fixed(c.day, 2) && s[n + 4..] == Fixed(e.day, 2);
    assert Pow10(2) == 100;
    FixedInjective(c.month, e.month, 2);
    FixedInjective(c.day, e.day, 2);
  }

  /** The instants with the bucket of a month are exactly those of its days, from its first instant to its last. */
  lemma PeriodSpans(y: int, m: int, t: Instant)
    requires 1 <= m <= 12
    ensures Period(t) == DateText(FirstOf(y, m))
       <==> DaysOf(FirstOf(y, m)) * DAY <= t < (DaysOf(FirstOf(y, m)) + MonthDays(y, m)) * DAY
  {
    hide DateOf, DaysOf, DateText, ValidDate, MonthDays;
    var c := DateOf(DayOf(t));
    DaysOfDateOf(DayOf(t));
    DaysOfMonth(y, m, c);
    FirstDayMonth(c);
    FirstOfFields(y, m);
    if DateText(FirstDay(c)) == DateText(FirstOf(y, m)) {
      DateTextDetermines(FirstDay(c), FirstOf(y, m));
    }
    DayWithin(t, DaysOf(FirstOf(y, m)), DaysOf(FirstOf(y, m)) + MonthDays(y, m));
  }

  lemma FirstOfFields(y: int, m: int)
    requires 1 <= m <= 12
    ensures FirstOf(y, m) == Date(y, m, 1)
  {
  }

  lemma DayWithin(t: Instant, a: int, b: int)
    ensures a <= DayOf(t) < b <==> a * DAY <= t < b * DAY
  {
    DayBrackets(t);
  }

  /** How a bucket reads in a four-digit year: `YYYY-MM-01`. */
  lemma PeriodReads(t: Instant)
    requires FourDigitYear(t)
    ensures var p := Period(t); var c := DateOf(DayOf(t));
      && |p| == 10 && p[4] == '-' && p[7..] == "-01"
      && AllDigits(p[..4]) && Value(p[..4]) == c.year
      && AllDigits(p[5..7]) && Value(p[5..7]) == c.month
  {
    hide DateOf, DayOf, ValidDate, Value, Fixed;
    var c, p := DateOf(DayOf(t)), Period(t);
    DateFields(c);
    FirstDayMonth(c);
    YearTextFour(FirstDay(c));
    assert p[..4] == Fixed(c.year, 4) && p[5..7] == Fixed(c.month, 2) && p[7..] == "-" + Fixed(1, 2);
    FirstDayText();
    assert Pow10(4) == 10000 && Pow10(2) == 100;
    FixedValue(c.year, 4);
    FixedValue(c.month, 2);
  }

  lemma FirstDayText()
    ensures Fixed(1, 2) == "01"
  {
    assert Fixed(0, 1) == "0" by { assert Fixed(0, 0) == ""; }
  }

  /** Two instants share a bucket exactly when they share a month, in any year. */
  lemma PeriodIsMonth(t: Instant, u: Instant)
    ensures Period(t) == Period(u) <==> MonthStart(t) == MonthStart(u)
    ensures MonthStart(t) == MonthStart(u) <==> MonthIndex(t) == MonthIndex(u)
  {
    hide DateOf, DayOf, DaysOf, DateText, ValidDate, FirstDay;
    var c, e := DateOf(DayOf(t)), DateOf(DayOf(u));
    FirstsDistinguishMonths(c, e);
    if DateText(FirstDay(c)) == DateText(FirstDay(e)) {
      DateTextDetermines(FirstDay(c), FirstDay(e));
    }
    if MonthStart(t) == MonthStart(u) {
      SameFirstDay(c, e);
    }
  }

  lemma SameFirstDay(c: Date, e: Date)
    requires ValidDate(c) && ValidDate(e) && 12 * c.year + c.month == 12 * e.year + e.month
    ensures FirstDay(c) == FirstDay(e)
  {
    DateFields(c);
    DateFields(e);
    hide ValidDate;
  }

  // ---- The order of buckets beyond four-digit years ----

  function YearAt(t: Instant): int
  {
    DateOf(DayOf(t)).year
  }

  lemma NegativeYearsFirst(c: Date, e: Date)
    requires ValidDate(c) && ValidDate(e) && c.year < 0 <= e.year <= 9999
    ensures !Le(DateText(e), DateText(c))
  {
    hide ValidDate, Fixed;
    assert DateText(c)[0] == '-';
    assert DateText(e)[0] == Fixed(e.year, 4)[0];
  }

  lemma LongYearsByFourDigits(c: Date, e: Date)
    requires ValidDate(c) && ValidDate(e) && 0 <= e.year <= 9999 < c.year
    ensures Le(DateText(e), DateText(c)) <==> e.year <= Leading(c.year)
  {
    DigitsLeading(c.year);
    hide ValidDate, Digits, Fixed;
    var four, rest := Fixed(Leading(c.year), 4), DateText(c)[4..];
    assert DateText(c) == four + rest;
    assert rest[0] == Digits(c.year)[4];
    var after := "-" + (Fixed(e.month, 2) + ("-" + Fixed(e.day, 2)));
    assert Le(after, rest);
    hide Le, DateText;
    assert Pow10(4) == 10000;
    FixedOrder(e.year, Leading(c.year), 4);
    FixedInjective(e.year, Leading(c.year), 4);
    LeConcat(Fixed(e.year, 4), four, after, rest);
    assert DateText(e) == Fixed(e.year, 4) + after by { YearTextFour(e); }
  }

  lemma YearTextFour(e: Date)
    requires ValidDate(e) && 0 <= e.year <= 9999
    ensures DateText(e) == Fixed(e.year, 4) + ("-" + (Fixed(e.month, 2) + ("-" + Fixed(e.day, 2))))
  {
  }

  /**
   What the store's guards compute for any instant, against a bound in a four-digit
   year: up to year 9999 they compare months; beyond it they compare the first four
   digits of the year with the year of the bound.
   */
  lemma BucketBelow(t: Instant, edge: Instant)
    requires FourDigitYear(edge)
    ensures Lt(Period(t), Period(edge))
      <==> if YearAt(t) <= 9999 then MonthIndex(t) < MonthIndex(edge) else Leading(YearAt(t)) < YearAt(edge)
  {
    hide DateOf, DayOf, DateText, Le, Lt, ValidDate, Leading;
    var c, e := DateOf(DayOf(t)), DateOf(DayOf(edge));
    NotLe(Period(t), Period(edge));
    DateFields(c);
    DateFields(e);
    FirstDayMonth(c);
    FirstDayMonth(e);
    if c.year < 0 {
      NegativeYearsFirst(FirstDay(c), FirstDay(e));
    } else if c.year <= 9999 {
      BucketOrder(FirstDay(e), FirstDay(c));
    } else {
      LongYearsByFourDigits(FirstDay(c), FirstDay(e));
    }
  }

  lemma FirstDayMonth(c: Date)
    requires ValidDate(c)
    ensures FirstDay(c).year == c.year && FirstDay(c).month == c.month && FirstDay(c).day == 1
  {
  }

  // ---- The retention window ----

  /** The purge bound: records of earlier buckets have outlived the window. */
  function Cutoff(now: Instant, window: int): string
  {
    Period(now - window)
  }

  lemma SameMonthIsNear(t: Instant, u: Instant)
    requires MonthStart(t) == MonthStart(u)
    ensures u < t + 31 * DAY
  {
    hide MonthStart;
    MonthBrackets(t);
    MonthBrackets(u);
  }

  lemma LaterIsNotEarlierMonth(t: Instant, edge: Instant)
    ensures t >= edge ==> MonthIndex(t) >= MonthIndex(edge) && YearAt(t) >= YearAt(edge)
    ensures YearAt(t) > YearAt(edge) ==> t >= edge
    ensures MonthIndex(t) >= MonthIndex(edge) && t < edge ==> MonthStart(t) == MonthStart(edge)
  {
    hide DateOf, DayOf, MonthStart, ValidDate;
    DateFields(DateOf(DayOf(t)));
    DateFields(DateOf(DayOf(edge)));
    if t >= edge {
      MonthIndexAscends(edge, t);
    } else {
      MonthIndexAscends(t, edge);
      PeriodIsMonth(t, edge);
    }
  }

  /**
   Both sides of the retention bound, for a cutoff in a four-digit year. A record no
   older than the window lies below the cutoff exactly if its year has more than four
   digits and the first four show a year before the cutoff's; a record that is not
   below the cutoff is younger than the window and a month.
   */
  lemma CutoffBrackets(t: Instant, now: Instant, window: int)
    requires FourDigitYear(now - window)
    ensures now - t <= window
        ==> (Lt(Period(t), Cutoff(now, window)) <==> YearAt(t) > 9999 && Leading(YearAt(t)) < YearAt(now - window))
    ensures !Lt(Period(t), Cutoff(now, window)) ==> now - t < window + 31 * DAY
  {
    hide DateOf, DayOf, Period, MonthStart, MonthIndex, Lt, Leading;
    var edge := now - window;
    BucketBelow(t, edge);
    LaterIsNotEarlierMonth(t, edge);
    if MonthStart(t) == MonthStart(edge) {
      SameMonthIsNear(t, edge);
    }
  }

  lemma DayOfYear10000()
    ensures DateOf(DayOf(3652059 * DAY)) == Date(10000, 1, 1)
  {
    assert DaysOf(Date(10000, 1, 1)) == 3652059;
    DateOfDaysOf(Date(10000, 1, 1));
  }
}
