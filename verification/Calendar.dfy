/** The proleptic Gregorian calendar behind calendar.timegm and datetime.utcfromtimestamp:
    day numbers from dates, dates from day numbers, and the proof that the two are inverse
    and monotone over leap years and centuries. */
module Calendar {
  import opened Common
  import opened Arithmetic

  datatype Date = Date(year: int, month: int, day: int)

  const MIN_YEAR := 1
  const MAX_YEAR := 9999

  predicate IsLeap(year: int)
  {
    year % 4 == 0 && (year % 100 != 0 || year % 400 == 0)
  }

  function DaysInMonth(year: int, month: int): int
    requires 1 <= month <= 12
  {
    if month == 2 then (if IsLeap(year) then 29 else 28)
    else if month in {4, 6, 9, 11} then 30
    else 31
  }

  /** Days from the start of a common year to the start of each month, and to its end. */
  const DAYS_BEFORE_MONTH := [0, 31, 59, 90, 120, 151, 181, 212, 243, 273, 304, 334, 365]

  /** Days from the start of the year to the start of the month. */
  function DaysBeforeMonth(year: int, month: int): int
    requires 1 <= month <= 13
  {
    DAYS_BEFORE_MONTH[month - 1] + (if month > 2 && IsLeap(year) then 1 else 0)
  }

  lemma MonthLength(year: int, month: int)
    requires 1 <= month <= 12
    ensures DaysBeforeMonth(year, month + 1) == DaysBeforeMonth(year, month) + DaysInMonth(year, month)
  {
  }

  /** Days from 1 January of year 1 to 1 January of the given year. */
  function DaysBeforeYear(year: int): int
  {
    var past := year - 1;
    365 * past + past / 4 - past / 100 + past / 400
  }

  predicate ValidDate(d: Date)
  {
    d.year >= MIN_YEAR && 1 <= d.month <= 12 && 1 <= d.day <= DaysInMonth(d.year, d.month)
  }

  /** The day number of a date; 1 January of year 1 is day 1. */
  function Ordinal(d: Date): int
    requires 1 <= d.month <= 12
  {
    DaysBeforeYear(d.year) + DaysBeforeMonth(d.year, d.month) + d.day
  }

  // ---------------------------------------------------------------- from day numbers

  /** The year that contains day number n, by counting 400-, 100-, 4- and 1-year cycles. */
  function YearOf(n: int): int
    requires n >= 1
  {
    var days := n - 1;
    var n400, r400 := days / 146097, days % 146097;
    var n100, r100 := r400 / 36524, r400 % 36524;
    var n4, r4 := r100 / 1461, r100 % 1461;
    var n1 := r4 / 365;
    var year := 400 * n400 + 100 * n100 + 4 * n4 + n1 + 1;
    if n1 == 4 || n100 == 4 then year - 1 else year
  }

  /** The month that contains the given day of the year (counted from 0). */
  function MonthOf(year: int, dayOfYear: int, month: int): (m: int)
    requires 1 <= month <= 12
    requires DaysBeforeMonth(year, month) <= dayOfYear < DaysBeforeMonth(year, 13)
    ensures 1 <= m <= 12
    ensures DaysBeforeMonth(year, m) <= dayOfYear < DaysBeforeMonth(year, m + 1)
    decreases 12 - month
  {
    if dayOfYear < DaysBeforeMonth(year, month + 1) then month
    else MonthOf(year, dayOfYear, month + 1)
  }

  lemma MonthsOfYear(year: int)
    ensures DaysBeforeMonth(year, 13) == if IsLeap(year) then 366 else 365
  {
  }

  lemma HundredsAreFours(year: int)
    ensures year % 100 == 0 ==> year % 4 == 0
  {
  }

  lemma FourHundredsAreHundreds(year: int)
    ensures year % 400 == 0 ==> year % 100 == 0
  {
  }

  /** One more leap day is counted for a leap year. */
  lemma LeapDays(year: int)
    ensures
      var past := year - 1;
      (past + 1) / 4 - (past + 1) / 100 + (past + 1) / 400 ==
        past / 4 - past / 100 + past / 400 + if IsLeap(year) then 1 else 0
  {
    var past := year - 1;
    NextQuotient(past, 4);
    NextQuotient(past, 100);
    NextQuotient(past, 400);
    HundredsAreFours(year);
    FourHundredsAreHundreds(year);
  }

  lemma YearLength(year: int)
    ensures DaysBeforeMonth(year, 13) == if IsLeap(year) then 366 else 365
    ensures DaysBeforeYear(year + 1) == DaysBeforeYear(year) + DaysBeforeMonth(year, 13)
  {
    hide DaysBeforeMonth, IsLeap;
    MonthsOfYear(year);
    LeapDays(year);
  }

  function LeapDaysCarried(n100: int, n4: int, n1: int): int
  {
    var rest := 4 * n4 + n1;
    n1 / 4 - rest / 100 + (100 * n100 + rest) / 400
  }

  /** The days before a year given by its position in the cycles; a position past the end of
      its cycle names a year of the next one. */
  lemma CycleYear(n400: int, n100: int, n4: int, n1: int)
    requires n400 >= 0 && 0 <= n100 <= 4 && 0 <= n4 <= 24 && 0 <= n1 <= 4
    requires n100 == 4 ==> n4 == 0
    ensures
      var year := 400 * n400 + 100 * n100 + 4 * n4 + n1 + 1;
      var days := 146097 * n400 + 36524 * n100 + 1461 * n4 + 365 * n1;
      DaysBeforeYear(year) == days + LeapDaysCarried(n100, n4, n1)
  {
    var past := 400 * n400 + 100 * n100 + 4 * n4 + n1;
    assert past / 4 == 100 * n400 + 25 * n100 + n4 + n1 / 4;
    assert past / 100 == 4 * n400 + n100 + (4 * n4 + n1) / 100;
    assert past / 400 == n400 + (100 * n100 + 4 * n4 + n1) / 400;
  }

  lemma LeapDaysCarriedValue(n100: int, n4: int, n1: int)
    requires 0 <= n100 <= 3 && 0 <= n4 <= 24 && 0 <= n1 <= 4
    ensures LeapDaysCarried(n100, n4, n1) == if n1 == 4 && (n4 < 24 || n100 == 3) then 1 else 0
  {
  }

  /** The position in the cycles brackets the days of its year. */
  lemma CycleBrackets(n400: int, n100: int, n4: int, n1: int, r1: int)
    requires n400 >= 0 && 0 <= n100 <= 3 && 0 <= n4 <= 24 && 0 <= n1 <= 3
    requires 0 <= r1 < 365 || (r1 == 365 && n1 == 3 && (n4 < 24 || n100 == 3))
    ensures
      var year := 400 * n400 + 100 * n100 + 4 * n4 + n1 + 1;
      var days := 146097 * n400 + 36524 * n100 + 1461 * n4 + 365 * n1 + r1;
      DaysBeforeYear(year) <= days < DaysBeforeYear(year + 1)
  {
    hide *;
    CycleYear(n400, n100, n4, n1);
    CycleYear(n400, n100, n4, n1 + 1);
    LeapDaysCarriedValue(n100, n4, n1);
    LeapDaysCarriedValue(n100, n4, n1 + 1);
  }

  /** The last day of a 400-year or 4-year cycle overflows the division; every other day falls
      inside the year its position names. */
  lemma PositionBrackets(days: int, n400: int, n100: int, n4: int, n1: int, r1: int)
    requires n400 >= 0 && 0 <= n100 && 0 <= n4 && 0 <= n1 && 0 <= r1 < 365
    requires days == 146097 * n400 + 36524 * n100 + 1461 * n4 + 365 * n1 + r1
    requires 36524 * n100 + 1461 * n4 + 365 * n1 + r1 < 146097
    requires 1461 * n4 + 365 * n1 + r1 < 36524
    requires 365 * n1 + r1 < 1461
    ensures
      var year := 400 * n400 + 100 * n100 + 4 * n4 + n1 + 1
                  - (if n1 == 4 || n100 == 4 then 1 else 0);
      year >= 1 && DaysBeforeYear(year) <= days < DaysBeforeYear(year + 1)
  {
    hide *;
    assert n100 <= 4 && n4 <= 24 && n1 <= 4;
    if n100 == 4 {
      assert n4 == 0 && n1 == 0 && r1 == 0;
      CycleBrackets(n400, 3, 24, 3, 365);
    } else if n1 == 4 {
      assert n4 < 24 && r1 == 0;
      CycleBrackets(n400, n100, n4, 3, 365);
    } else {
      CycleBrackets(n400, n100, n4, n1, r1);
    }
  }

  /** Counting cycles finds the year whose days include day number n. */
  lemma YearOfBrackets(n: int)
    requires n >= 1
    ensures YearOf(n) >= 1
    ensures DaysBeforeYear(YearOf(n)) < n <= DaysBeforeYear(YearOf(n) + 1)
  {
    hide DaysBeforeYear;
    var days := n - 1;
    var n400, r400 := days / 146097, days % 146097;
    var n100, r100 := r400 / 36524, r400 % 36524;
    var n4, r4 := r100 / 1461, r100 % 1461;
    var n1, r1 := r4 / 365, r4 % 365;
    PositionBrackets(days, n400, n100, n4, n1, r1);
  }

  /** The date with day number n. */
  function FromOrdinal(n: int): (d: Date)
    requires n >= 1
    ensures ValidDate(d) && Ordinal(d) == n
  {
    var year := YearOf(n);
    YearOfBrackets(n);
    YearLength(year);
    var dayOfYear := n - 1 - DaysBeforeYear(year);
    var month := MonthOf(year, dayOfYear, 1);
    Date(year, month, dayOfYear - DaysBeforeMonth(year, month) + 1)
  }

  // ---------------------------------------------------------------- order

  /** Chronological order of dates. */
  predicate Earlier(a: Date, b: Date)
  {
    a.year < b.year ||
    (a.year == b.year && (a.month < b.month || (a.month == b.month && a.day < b.day)))
  }

  lemma {:induction false} DaysBeforeMonthMonotone(year: int, m: int, k: int)
    requires 1 <= m < k <= 13
    ensures DaysBeforeMonth(year, m) + DaysInMonth(year, m) <= DaysBeforeMonth(year, k)
    decreases k
  {
    MonthLength(year, k - 1);
    if m + 1 < k {
      DaysBeforeMonthMonotone(year, m, k - 1);
    }
  }

  lemma {:induction false} DaysBeforeYearMonotone(y: int, z: int)
    requires y < z
    ensures DaysBeforeYear(y) + DaysBeforeMonth(y, 13) <= DaysBeforeYear(z)
    decreases z - y
  {
    YearLength(y);
    if y + 1 < z {
      YearLength(y + 1);
      DaysBeforeYearMonotone(y + 1, z);
    }
  }

  /** Later dates have larger day numbers. */
  lemma OrdinalMonotone(a: Date, b: Date)
    requires ValidDate(a) && ValidDate(b) && Earlier(a, b)
    ensures Ordinal(a) < Ordinal(b)
  {
    if a.year < b.year {
      DaysBeforeYearMonotone(a.year, b.year);
      DaysBeforeMonthMonotone(a.year, a.month, 13);
      if b.month > 1 {
        DaysBeforeMonthMonotone(b.year, 1, b.month);
      }
    } else if a.month < b.month {
      DaysBeforeMonthMonotone(a.year, a.month, b.month);
    }
  }

  /** Day numbers and valid dates correspond one to one. */
  lemma FromOrdinalInvertsOrdinal(d: Date)
    requires ValidDate(d)
    ensures Ordinal(d) >= 1 && FromOrdinal(Ordinal(d)) == d
  {
    var first := Date(1, 1, 1);
    if Earlier(first, d) {
      OrdinalMonotone(first, d);
    }
    var e := FromOrdinal(Ordinal(d));
    if Earlier(d, e) {
      OrdinalMonotone(d, e);
    } else if Earlier(e, d) {
      OrdinalMonotone(e, d);
    }
  }

  /** Later day numbers are later dates. */
  lemma FromOrdinalMonotone(m: int, n: int)
    requires 1 <= m < n
    ensures Earlier(FromOrdinal(m), FromOrdinal(n))
  {
    var a, b := FromOrdinal(m), FromOrdinal(n);
    if Earlier(b, a) {
      OrdinalMonotone(b, a);
    }
  }

  // ---------------------------------------------------------------- Unix time

  /** The day number of 1 January 1970. */
  const EPOCH := 719163
  const SECONDS_PER_DAY := 86400

  /** calendar.timegm((year, month, 1, 0, 0, 0)), or None where it raises an error. */
  function ToUnixSeconds(year: int, month: int): Option<int>
  {
    if MIN_YEAR <= year <= MAX_YEAR && 1 <= month <= 12 then
      Some((Ordinal(Date(year, month, 1)) - EPOCH) * SECONDS_PER_DAY)
    else None
  }

  /** The date part of datetime.utcfromtimestamp(t), or None where it raises an error. */
  function FromUnixSeconds(t: int): (d: Option<Date>)
    ensures d.Some? ==> ValidDate(d.value) && d.value.year <= MAX_YEAR
  {
    var n := t / SECONDS_PER_DAY + EPOCH;
    if n < 1 || FromOrdinal(n).year > MAX_YEAR then None else Some(FromOrdinal(n))
  }

  /** Months other than February have 31 and 30 days in turn, starting anew in August. */
  lemma MonthsAlternate(year: int, month: int)
    requires 1 <= month <= 12 && month != 2
    ensures
      var next := if month == 12 then Date(year + 1, 1, 1) else Date(year, month + 1, 1);
      Ordinal(next) - Ordinal(Date(year, month, 1)) ==
        if (if month < 8 then month else month - 7) % 2 == 1 then 31 else 30
  {
    hide DaysBeforeYear;
    YearLength(year);
  }

  lemma LeapYears(century: int, year: int)
    requires 0 <= year < 100
    ensures IsLeap(100 * century + year) <==> (if year == 0 then century else year) % 4 == 0
  {
    var y := 100 * century + year;
    DivModUnique(y, 100, century, year);
    if year == 0 {
      DivModUnique(y, 400, century / 4, 100 * (century % 4));
      DivModUnique(y, 4, 25 * century, 0);
    } else {
      DivModUnique(y, 4, 25 * century + year / 4, year % 4);
      FourHundredsAreHundreds(y);
    }
  }

  /** February has 29 days in every fourth year, but of the last years of centuries only every fourth is
      such a year. */
  lemma FebruaryLeaps(century: int, year: int)
    requires 0 <= year < 100
    ensures
      var y := 100 * century + year;
      Ordinal(Date(y, 3, 1)) - Ordinal(Date(y, 2, 1)) ==
        if (if year == 0 then century else year) % 4 == 0 then 29 else 28
  {
    hide DaysBeforeYear, IsLeap;
    LeapYears(century, year);
  }

  lemma EpochIsDay(d: Date)
    requires d == Date(1970, 1, 1)
    ensures Ordinal(d) == EPOCH
  {
  }
}
