/** Gregorian calendar arithmetic as performed by Python's `datetime.date`,
    `date.replace(day=1)`, `timedelta(days=1)` and dateutil's `relativedelta(months=k)`.
    Years are unbounded (the proleptic Gregorian calendar extended in both directions). */
module Calendar {

  /** A calendar date (year, month 1..12, day 1..length of the month). */
  datatype Date = Date(year: int, month: int, day: int)

  predicate IsLeapYear(y: int) {
    y % 4 == 0 && (y % 100 != 0 || y % 400 == 0)
  }

  function DaysInMonth(y: int, m: int): (n: int)
    requires 1 <= m <= 12
    ensures 28 <= n <= 31
    ensures n == 29 <==> m == 2 && IsLeapYear(y)
  {
    if m == 2 then (if IsLeapYear(y) then 29 else 28)
    else if m == 4 || m == 6 || m == 9 || m == 11 then 30
    else 31
  }

  function DaysInYear(y: int): int {
    if IsLeapYear(y) then 366 else 365
  }

  /** A date that exists in the calendar. */
  predicate Valid(d: Date) {
    1 <= d.month <= 12 && 1 <= d.day <= DaysInMonth(d.year, d.month)
  }

  /** Chronological order: `a < b` on Python dates, lexicographic on (year, month, day). */
  predicate Before(a: Date, b: Date) {
    || a.year < b.year
    || (a.year == b.year && a.month < b.month)
    || (a.year == b.year && a.month == b.month && a.day < b.day)
  }

  /** The month a date falls in, counted as `year * 12 + month - 1`. */
  function MonthIndex(d: Date): int {
    d.year * 12 + d.month - 1
  }

  /** The first day of the month with index `mi`. */
  function FirstDay(mi: int): (d: Date)
    ensures Valid(d) && d.day == 1 && MonthIndex(d) == mi
  {
    Date(mi / 12, mi % 12 + 1, 1)
  }

  /** The last day of the month with index `mi`. */
  function LastDay(mi: int): (d: Date)
    ensures Valid(d) && MonthIndex(d) == mi && IsLastDayOfMonth(d)
  {
    var y := mi / 12;
    var m := mi % 12 + 1;
    Date(y, m, DaysInMonth(y, m))
  }

  predicate IsLastDayOfMonth(d: Date)
    requires 1 <= d.month <= 12
  {
    d.day == DaysInMonth(d.year, d.month)
  }

  /** A valid date is determined by its month index and its day. */
  lemma MonthIndexDetermines(a: Date, b: Date)
    requires Valid(a) && Valid(b)
    ensures MonthIndex(a) == MonthIndex(b) && a.day == b.day <==> a == b
  {
    if MonthIndex(a) == MonthIndex(b) {
      assert a.year * 12 + (a.month - 1) == b.year * 12 + (b.month - 1);
      assert a.year == b.year;
    }
  }

  /** `d.replace(day=1)`: the first day of `d`'s month. */
  function StartOfMonth(d: Date): (r: Date)
    requires Valid(d)
    ensures Valid(r) && r.day == 1 && MonthIndex(r) == MonthIndex(d)
    ensures r == d || Before(r, d)
  {
    Date(d.year, d.month, 1)
  }

  /** `d + relativedelta(months=k)`: the month moves by `k`; the day is kept, or cut
      down to the length of the target month when that month is shorter. */
  function AddMonths(d: Date, k: int): (r: Date)
    requires Valid(d)
    ensures Valid(r) && MonthIndex(r) == MonthIndex(d) + k
    ensures r.day <= d.day
    ensures r.day == d.day || IsLastDayOfMonth(r)
  {
    var mi := MonthIndex(d) + k;
    var y := mi / 12;
    var m := mi % 12 + 1;
    var dim := DaysInMonth(y, m);
    Date(y, m, if d.day <= dim then d.day else dim)
  }

  /** `d - timedelta(days=1)`. */
  function PrevDay(d: Date): (r: Date)
    requires Valid(d)
    ensures Valid(r) && Before(r, d)
  {
    if d.day > 1 then Date(d.year, d.month, d.day - 1) else LastDay(MonthIndex(d) - 1)
  }

  // ---------------------------------------------------------------------------
  // Day ordinals, as Python's `date.toordinal()`: 0001-01-01 is day 1.
  // ---------------------------------------------------------------------------

  function DaysBeforeYear(y: int): int {
    var p := y - 1;
    p * 365 + p / 4 - p / 100 + p / 400
  }

  function DaysBeforeMonth(y: int, m: int): int
    requires 1 <= m <= 12
  {
    [0, 31, 59, 90, 120, 151, 181, 212, 243, 273, 304, 334][m - 1]
      + (if m > 2 && IsLeapYear(y) then 1 else 0)
  }

  function ToOrdinal(d: Date): int
    requires Valid(d)
  {
    DaysBeforeYear(d.year) + DaysBeforeMonth(d.year, d.month) + d.day
  }

  /** Stepping a floor division by one: `x / c` grows exactly when `c` divides `x`. */
  lemma DivStep(x: int, c: int)
    requires c == 4 || c == 100 || c == 400
    ensures x / c - (x - 1) / c == if x % c == 0 then 1 else 0
  {
    if c == 4 {
      assert x / 4 - (x - 1) / 4 == if x % 4 == 0 then 1 else 0;
    } else if c == 100 {
      assert x / 100 - (x - 1) / 100 == if x % 100 == 0 then 1 else 0;
    } else {
      assert x / 400 - (x - 1) / 400 == if x % 400 == 0 then 1 else 0;
    }
  }

  /** Every multiple of 400 is a multiple of 100, and every multiple of 100 one of 4. */
  lemma DivisorChain(y: int)
    ensures y % 400 == 0 ==> y % 100 == 0
    ensures y % 100 == 0 ==> y % 4 == 0
  {
    Mod400Mod100(y);
    Mod100Mod4(y);
  }

  lemma Mod400Mod100(y: int)
    ensures y % 400 == 0 ==> y % 100 == 0
  {
    if y % 400 == 0 {
      var q := y / 400;
      assert y == 400 * q;
      MultipleMod(y, 4 * q, 100);
    }
  }

  lemma Mod100Mod4(y: int)
    ensures y % 100 == 0 ==> y % 4 == 0
  {
    if y % 100 == 0 {
      var q := y / 100;
      assert y == 100 * q;
      MultipleMod(y, 25 * q, 4);
    }
  }

  /** A multiple of `c` leaves no remainder modulo `c`. */
  lemma MultipleMod(y: int, q: int, c: int)
    requires c == 4 || c == 100
    requires c == 4 ==> y == 4 * q
    requires c == 100 ==> y == 100 * q
    ensures y % c == 0
  {
    if c == 4 {
      var d := q - y / 4;
      assert 4 * d == y % 4;
    } else {
      var d := q - y / 100;
      assert 100 * d == y % 100;
    }
  }

  /** Consecutive years start `DaysInYear` days apart. */
  lemma YearLength(y: int)
    ensures DaysBeforeYear(y + 1) == DaysBeforeYear(y) + DaysInYear(y)
  {
    var a := y / 4 - (y - 1) / 4;
    var b := y / 100 - (y - 1) / 100;
    var c := y / 400 - (y - 1) / 400;
    DivStep(y, 4);
    DivStep(y, 100);
    DivStep(y, 400);
    DivisorChain(y);
    assert a - b + c == DaysInYear(y) - 365;
    assert DaysBeforeYear(y + 1) == y * 365 + y / 4 - y / 100 + y / 400;
    assert DaysBeforeYear(y) == (y - 1) * 365 + (y - 1) / 4 - (y - 1) / 100 + (y - 1) / 400;
  }

  /** Consecutive months start `DaysInMonth` days apart, and December ends the year. */
  lemma MonthLength(y: int, m: int)
    requires 1 <= m <= 12
    ensures m < 12 ==> DaysBeforeMonth(y, m + 1) == DaysBeforeMonth(y, m) + DaysInMonth(y, m)
    ensures m == 12 ==> DaysBeforeMonth(y, m) + DaysInMonth(y, m) == DaysInYear(y)
  {
  }

  /** The last month before year `y` is December of year `y - 1`. */
  lemma YearEndDate(y: int)
    ensures LastDay(y * 12 - 1) == Date(y - 1, 12, 31)
  {
    var mi := (y - 1) * 12 + 11;
    assert mi / 12 == y - 1 && mi % 12 == 11;
  }

  /** New Year's Eve is the day before New Year's Day. */
  lemma YearEndOrdinal(y: int)
    ensures ToOrdinal(Date(y - 1, 12, 31)) + 1 == ToOrdinal(Date(y, 1, 1))
  {
    YearLength(y - 1);
    assert DaysBeforeMonth(y - 1, 12) + 31 == DaysInYear(y - 1);
    assert ToOrdinal(Date(y, 1, 1)) == DaysBeforeYear(y) + 1;
  }

  /** Within a year, the last day of a month is the day before the next month's first. */
  lemma MonthEndOrdinal(y: int, m: int)
    requires 2 <= m <= 12
    ensures LastDay(y * 12 + m - 2) == Date(y, m - 1, DaysInMonth(y, m - 1))
    ensures ToOrdinal(LastDay(y * 12 + m - 2)) + 1 == ToOrdinal(Date(y, m, 1))
  {
    var mi := y * 12 + (m - 2);
    assert mi / 12 == y && mi % 12 == m - 2;
    MonthLength(y, m - 1);
  }

  /** The day before a date has the ordinal one less: `PrevDay` is `- timedelta(days=1)`. */
  lemma PrevDayOrdinal(d: Date)
    requires Valid(d)
    ensures ToOrdinal(PrevDay(d)) + 1 == ToOrdinal(d)
  {
    if d.day == 1 {
      var y, m := d.year, d.month;
      assert d == Date(y, m, 1);
      assert PrevDay(d) == LastDay(y * 12 + m - 2);
      if m == 1 {
        YearEndDate(y);
        YearEndOrdinal(y);
      } else {
        MonthEndOrdinal(y, m);
      }
    }
  }

  /** Ordinals of a year's days lie strictly after every earlier year's days. */
  lemma OrdinalWithinYear(d: Date)
    requires Valid(d)
    ensures DaysBeforeYear(d.year) < ToOrdinal(d) <= DaysBeforeYear(d.year + 1)
  {
    YearLength(d.year);
    MonthLength(d.year, 12);
    var m := d.month;
    while m < 12
      invariant d.month <= m <= 12
      invariant DaysBeforeMonth(d.year, d.month) + d.day <= DaysBeforeMonth(d.year, m) + DaysInMonth(d.year, m)
    {
      MonthLength(d.year, m);
      m := m + 1;
    }
  }

  /** Later months of the same year start after earlier months end. */
  lemma {:induction false} MonthOrder(y: int, a: int, b: int)
    requires 1 <= a < b <= 12
    ensures DaysBeforeMonth(y, a) + DaysInMonth(y, a) <= DaysBeforeMonth(y, b)
    decreases b - a
  {
    MonthLength(y, a);
    if a + 1 < b {
      MonthOrder(y, a + 1, b);
      MonthLength(y, a + 1);
    }
  }

  /** Year starts are increasing. */
  lemma {:induction false} YearOrder(a: int, b: int)
    requires a < b
    ensures DaysBeforeYear(a + 1) <= DaysBeforeYear(b)
    decreases b - a
  {
    if a + 1 < b {
      YearOrder(a + 1, b);
      YearLength(a + 1);
    }
  }

  /** Day ordinals order dates exactly as the calendar does, so a strictly increasing
      sequence of ordinals is a strictly increasing sequence of dates. */
  lemma OrdinalOrder(a: Date, b: Date)
    requires Valid(a) && Valid(b)
    ensures Before(a, b) <==> ToOrdinal(a) < ToOrdinal(b)
    ensures ToOrdinal(a) == ToOrdinal(b) <==> a == b
  {
    OrdinalWithinYear(a);
    OrdinalWithinYear(b);
    if a.year < b.year {
      YearOrder(a.year, b.year);
    } else if b.year < a.year {
      YearOrder(b.year, a.year);
    } else if a.month < b.month {
      MonthOrder(a.year, a.month, b.month);
    } else if b.month < a.month {
      MonthOrder(a.year, b.month, a.month);
    }
  }

  /** Months are ordered by their index. */
  lemma MonthIndexOrder(a: Date, b: Date)
    requires Valid(a) && Valid(b)
    ensures MonthIndex(a) < MonthIndex(b) <==> a.year < b.year || (a.year == b.year && a.month < b.month)
  {
    if a.year < b.year {
      assert a.year * 12 + 12 <= b.year * 12;
    } else if b.year < a.year {
      assert b.year * 12 + 12 <= a.year * 12;
    }
  }

  /** The last day of a month comes after the last day of every earlier month. */
  lemma LastDayOrder(x: int, y: int)
    ensures Before(LastDay(x), LastDay(y)) <==> x < y
  {
    MonthIndexOrder(LastDay(x), LastDay(y));
    MonthIndexOrder(LastDay(y), LastDay(x));
  }

  /** Moving the first day of a month by `k` months gives the first day `k` months on. */
  lemma AddMonthsFirstDay(mi: int, k: int)
    ensures AddMonths(FirstDay(mi), k) == FirstDay(mi + k)
  {
    MonthIndexDetermines(AddMonths(FirstDay(mi), k), FirstDay(mi + k));
  }

  /** The day before the first of a month is the last day of the previous month. */
  lemma PrevDayFirstDay(mi: int)
    ensures PrevDay(FirstDay(mi)) == LastDay(mi - 1)
  {
  }

  /** A window of `k` months from the first of month `mi`, closed by stepping back one
      day from its start moved on by `k` months, ends on the last day of month
      `mi + k - 1`. */
  lemma WindowEnd(mi: int, k: int)
    ensures PrevDay(AddMonths(FirstDay(mi), k)) == LastDay(mi + k - 1)
  {
    AddMonthsFirstDay(mi, k);
    PrevDayFirstDay(mi + k);
  }

  /** That last day is the day before the first of month `mi + k`. */
  lemma WindowEndOrdinal(mi: int, k: int)
    ensures ToOrdinal(LastDay(mi + k - 1)) + 1 == ToOrdinal(AddMonths(FirstDay(mi), k))
  {
    var next := AddMonths(FirstDay(mi), k);
    AddMonthsFirstDay(mi, k);
    PrevDayFirstDay(mi + k);
    assert LastDay(mi + k - 1) == PrevDay(next);
    PrevDayOrdinal(next);
  }
}
