/** Dividing time into intervals (bridgedb/schedule.py). */
module Schedule {
  import opened Common
  import opened Text
  import opened Calendar
  import opened Arithmetic

  // ---------------------------------------------------------------- configuration

  datatype Period = Second | Minute | Hour | Day | Week | Month

  /** The count argument of a schedule: absent, a number, or something int() rejects. */
  datatype CountArgument = Absent | Number(n: int) | NotANumber

  datatype Outcome = Configured | UnknownInterval

  /** KNOWN_INTERVALS. */
  function KnownInterval(name: string): Option<Period>
  {
    if name == "second" then Some(Second)
    else if name == "minute" then Some(Minute)
    else if name == "hour" then Some(Hour)
    else if name == "day" then Some(Day)
    else if name == "week" then Some(Week)
    else if name == "month" then Some(Month)
    else None
  }

  /** Lower-case, and without one plural 's'. */
  function Singular(name: string): string
  {
    var lower := Lower(name);
    if |lower| > 0 && lower[|lower| - 1] == 's' then lower[..|lower| - 1] else lower
  }

  function DefaultPeriod(name: string): string { if name == "" then "hour" else name }

  /** A period goes by its English name in any case, singular or plural. */
  lemma PeriodNames(name: string, p: Period)
    ensures
      var one := match p case Second => "second" case Minute => "minute" case Hour => "hour"
                         case Day => "day" case Week => "week" case Month => "month";
      KnownInterval(Singular(name)) == Some(p) <==> Lower(name) == one || Lower(name) == one + "s"
    ensures DefaultPeriod("") == "hour" && (name != "" ==> DefaultPeriod(name) == name)
  {
    var lower := Lower(name);
    if |lower| > 0 && lower[|lower| - 1] == 's' {
      assert lower == lower[..|lower| - 1] + "s";
    }
  }

  // ---------------------------------------------------------------- the arithmetic

  /** math.ceil. */
  function Ceil(x: real): int { -((-x).Floor) }

  /** The length in seconds of the periods that have a fixed length. */
  function Seconds(p: Period): int
    requires p != Month && p != Week
  {
    match p
    case Second => 1
    case Minute => 60
    case Hour => 3600
    case Day => 86400
  }

  lemma LengthIsPositive(p: Period, count: int)
    requires p != Month && p != Week && count >= 1
    ensures Seconds(p) * count >= 1
  {
  }

  /** intervalStart: None where the source raises an error or has no branch. */
  function Start(count: int, p: Period, when: real): Option<int>
    requires count >= 1
  {
    var w := Ceil(when);
    match p
    case Week => None
    case Month =>
      (match FromUnixSeconds(w)
       case None => None
       case Some(date) =>
         var months := date.year * 12 + (date.month - 1);
         var floored := months - months % count;
         ToUnixSeconds(floored / 12, floored % 12 + 1))
    case _ => Some(w - w % (Seconds(p) * count))
  }

  /** nextIntervalStarts: None where the source raises an error or has no branch. */
  function Next(count: int, p: Period, when: real): Option<int>
    requires count >= 1
  {
    match Start(count, p, when)
    case None => None
    case Some(seconds) =>
      match p
      case Week => None
      case Month =>
        (match FromUnixSeconds(seconds)
         case None => None
         case Some(date) =>
           var months := date.month + count;
           if months > 12 then ToUnixSeconds(date.year + 1, months - 12)
           else ToUnixSeconds(date.year, months))
      case _ => Some(seconds + Seconds(p) * count)
  }

  // ---------------------------------------------------------------- months as numbers

  /** Months counted from year 0. */
  function MonthIndex(d: Date): int { 12 * d.year + d.month - 1 }

  /** The second at which month number k starts. */
  function MonthStart(k: int): int
  {
    (Ordinal(Date(k / 12, k % 12 + 1, 1)) - EPOCH) * SECONDS_PER_DAY
  }

  const FIRST_MONTH := 12 * MIN_YEAR
  const LAST_MONTH := 12 * MAX_YEAR + 11

  /** The first second of the last year that datetime knows. */
  const START_OF_LAST_YEAR := 253370764800

  lemma MonthStartMonotone(j: int, k: int)
    requires FIRST_MONTH <= j <= k
    ensures MonthStart(j) <= MonthStart(k)
    ensures j < k ==> MonthStart(j) < MonthStart(k)
  {
    if j < k {
      OrdinalMonotone(Date(j / 12, j % 12 + 1, 1), Date(k / 12, k % 12 + 1, 1));
    }
  }

  /** timegm of the first of a month, in terms of month numbers. */
  lemma ToUnixSecondsOfMonth(year: int, month: int)
    ensures ToUnixSeconds(year, month) ==
      if MIN_YEAR <= year <= MAX_YEAR && 1 <= month <= 12
      then Some(MonthStart(12 * year + month - 1)) else None
  {
    if 1 <= month <= 12 {
      var k := 12 * year + month - 1;
      assert k / 12 == year && k % 12 + 1 == month;
    }
  }

  /** A second lies in the month of its date. */
  lemma MonthOfSecond(t: int)
    requires FromUnixSeconds(t).Some?
    ensures
      var k := MonthIndex(FromUnixSeconds(t).value);
      FIRST_MONTH <= k <= LAST_MONTH && MonthStart(k) <= t < MonthStart(k + 1)
  {
    hide Ordinal, FromOrdinal;
    var d := FromUnixSeconds(t).value;
    var n := t / SECONDS_PER_DAY + EPOCH;
    var k := MonthIndex(d);
    assert k / 12 == d.year && k % 12 + 1 == d.month;
    var following := Date((k + 1) / 12, (k + 1) % 12 + 1, 1);
    assert Earlier(d, following);
    OrdinalMonotone(d, following);
    var first := Date(d.year, d.month, 1);
    if d.day > 1 {
      OrdinalMonotone(first, d);
    }
  }

  /** The first second of a month is dated in that month. */
  lemma DateOfMonthStart(k: int)
    requires FIRST_MONTH <= k <= LAST_MONTH
    ensures FromUnixSeconds(MonthStart(k)) == Some(Date(k / 12, k % 12 + 1, 1))
  {
    hide Ordinal, FromOrdinal;
    var d := Date(k / 12, k % 12 + 1, 1);
    FromOrdinalInvertsOrdinal(d);
    assert MonthStart(k) / SECONDS_PER_DAY + EPOCH == Ordinal(d);
  }

  /** Every second from 1970 up to the end of year 9998 has a date, at least one year before
      the last month. */
  lemma DatesExist(t: int)
    requires 0 <= t < START_OF_LAST_YEAR
    ensures FromUnixSeconds(t).Some?
    ensures 12 * 1970 <= MonthIndex(FromUnixSeconds(t).value) < 12 * MAX_YEAR
  {
    var n := t / SECONDS_PER_DAY + EPOCH;
    var d := FromOrdinal(n);
    var first, last := Date(1970, 1, 1), Date(MAX_YEAR, 1, 1);
    EpochIsDay(first);
    assert Ordinal(last) == START_OF_LAST_YEAR / SECONDS_PER_DAY + EPOCH;
    if Earlier(d, first) {
      OrdinalMonotone(d, first);
    }
    if Earlier(last, d) {
      OrdinalMonotone(last, d);
    }
    assert n < Ordinal(last);
  }

  // ---------------------------------------------------------------- month intervals

  /** Where month intervals start: the last multiple of count at or before the month. */
  lemma StartOfMonths(count: int, when: real)
    requires count >= 1 && FromUnixSeconds(Ceil(when)).Some?
    ensures
      var k := MonthIndex(FromUnixSeconds(Ceil(when)).value);
      var floored := k - k % count;
      Start(count, Month, when) ==
        if floored >= FIRST_MONTH then Some(MonthStart(floored)) else None
  {
    hide MonthStart, FromUnixSeconds, ToUnixSeconds;
    MonthOfSecond(Ceil(when));
    var k := MonthIndex(FromUnixSeconds(Ceil(when)).value);
    var floored := k - k % count;
    ToUnixSecondsOfMonth(floored / 12, floored % 12 + 1);
  }

  /** nextIntervalStarts succeeds exactly while its month number, after one subtraction of 12,
      is a month of a year that datetime knows; it then gives the month count months later. */
  lemma NextOfMonths(count: int, when: real)
    requires count >= 1 && FromUnixSeconds(Ceil(when)).Some?
    ensures
      var k := MonthIndex(FromUnixSeconds(Ceil(when)).value);
      var floored := k - k % count;
      Next(count, Month, when) ==
        if floored >= FIRST_MONTH && floored % 12 + 1 + count <= 24 && floored + count <= LAST_MONTH
        then Some(MonthStart(floored + count)) else None
  {
    hide MonthStart, FromUnixSeconds, ToUnixSeconds, Start;
    StartOfMonths(count, when);
    MonthOfSecond(Ceil(when));
    var k := MonthIndex(FromUnixSeconds(Ceil(when)).value);
    var floored := k - k % count;
    if floored >= FIRST_MONTH {
      DateOfMonthStart(floored);
      var months := floored % 12 + 1 + count;
      ToUnixSecondsOfMonth(floored / 12, months);
      ToUnixSecondsOfMonth(floored / 12 + 1, months - 12);
    }
  }

  /** The tiling property of one moment: its interval contains it, starts where it says it
      starts, and ends where the next one starts. */
  ghost predicate Tiles(count: int, p: Period, when: real)
    requires count >= 1
  {
    var start, next := Start(count, p, when), Next(count, p, when);
    start.Some? && next.Some? &&
    start.value <= Ceil(when) < next.value &&
    Start(count, p, start.value as real) == start &&
    Start(count, p, next.value as real) == next
  }

  lemma MonthsTileTime(count: int, when: real)
    requires 1 <= count <= 12
    requires 0 <= Ceil(when) < START_OF_LAST_YEAR
    ensures Tiles(count, Month, when)
  {
    hide MonthStart, FromUnixSeconds, ToUnixSeconds, Start, Next;
    var w := Ceil(when);
    DatesExist(w);
    MonthOfSecond(w);
    StartOfMonths(count, when);
    NextOfMonths(count, when);
    var k := MonthIndex(FromUnixSeconds(w).value);
    var floored := k - k % count;
    RoundDown(k, count);
    var start, next := MonthStart(floored), MonthStart(floored + count);
    MonthStartMonotone(floored, k);
    MonthStartMonotone(k + 1, floored + count);
    MonthsStartAtMultiples(count, floored);
    MonthsStartAtMultiples(count, floored + count);
  }

  /** An interval starts at each month whose number is a multiple of count. */
  lemma MonthsStartAtMultiples(count: int, k: int)
    requires count >= 1 && k % count == 0 && FIRST_MONTH <= k <= LAST_MONTH
    ensures Start(count, Month, MonthStart(k) as real) == Some(MonthStart(k))
  {
    hide MonthStart, FromUnixSeconds, ToUnixSeconds, Start, Ceil;
    var t := MonthStart(k);
    CeilOfInteger(t);
    DateOfMonthStart(k);
    StartOfMonths(count, t as real);
  }

  lemma CeilBounds(x: real)
    ensures (Ceil(x) - 1) as real < x <= Ceil(x) as real
  {
  }

  lemma CeilOfInteger(t: int)
    ensures Ceil(t as real) == t
  {
    assert -(t as real) == (-t) as real;
  }

  // ---------------------------------------------------------------- fixed-length intervals

  /** Intervals of seconds, minutes, hours and days start at multiples of their length since the epoch
      and end one length later. */
  lemma FixedIntervals(count: int, when: real)
    requires count >= 1
    ensures forall p :: p in {Second, Minute, Hour, Day} ==>
      var length := count * (match p case Minute => 60 case Hour => 60 * 60 case Day => 24 * 60 * 60 case _ => 1);
      && Start(count, p, when).Some? && Start(count, p, when).value % length == 0
      && Next(count, p, when) == Some(Start(count, p, when).value + length)
  {
    forall p | p in {Second, Minute, Hour, Day}
      ensures (Ceil(when) - Ceil(when) % (Seconds(p) * count)) % (Seconds(p) * count) == 0
    {
      LengthIsPositive(p, count);
      RoundDown(Ceil(when), Seconds(p) * count);
    }
  }

  /** Intervals of one day are calendar days: they start at midnight of the date of the moment. */
  lemma DaysAreCalendarDays(when: real)
    requires FromUnixSeconds(Ceil(when)).Some?
    ensures
      var date, start := FromUnixSeconds(Ceil(when)).value, Start(1, Day, when);
      start.Some? && start.value == (Ordinal(date) - Ordinal(Date(1970, 1, 1))) * 24 * 60 * 60
  {
    hide FromOrdinal, Ordinal;
    var n := Ceil(when) / SECONDS_PER_DAY + EPOCH;
    EpochIsDay(Date(1970, 1, 1));
  }

  lemma FixedLengthsTileTime(count: int, p: Period, when: real)
    requires count >= 1 && p != Month && p != Week
    ensures Tiles(count, p, when)
  {
    var w := Ceil(when);
    var length := Seconds(p) * count;
    assert length >= 1;
    RoundDown(w, length);
    CeilOfInteger(w - w % length);
    CeilOfInteger(w - w % length + length);
  }

  /** When tiling is promised: for months, counts up to 12 and times from 1970 to the end of 9998. */
  predicate Supported(count: int, p: Period, when: real)
  {
    p != Week && (p == Month ==> count <= 12 && 0 <= Ceil(when) < START_OF_LAST_YEAR)
  }

  /** Intervals tile time, for every period and for month counts 1 to 12. */
  lemma IntervalsTileTime(count: int, p: Period, when: real)
    requires count >= 1 && Supported(count, p, when)
    ensures Tiles(count, p, when)
  {
    if p == Month {
      MonthsTileTime(count, when);
    } else {
      FixedLengthsTileTime(count, p, when);
    }
  }

  lemma TilesWhenSupported(count: int, p: Period, when: real)
    requires count >= 1
    ensures Supported(count, p, when) ==> Tiles(count, p, when)
  {
    if Supported(count, p, when) {
      IntervalsTileTime(count, p, when);
    }
  }

  /** For larger month counts the intervals tile a moment exactly when the start of its interval
      is early enough in its year for a single subtraction of 12 to be enough. */
  lemma LargeMonthCounts(count: int, when: real)
    requires count >= 1 && FromUnixSeconds(Ceil(when)).Some?
    ensures
      var k := MonthIndex(FromUnixSeconds(Ceil(when)).value);
      var floored := k - k % count;
      Tiles(count, Month, when) <==>
        floored >= FIRST_MONTH && floored % 12 + 1 + count <= 24 && floored + count <= LAST_MONTH
  {
    hide MonthStart, FromUnixSeconds, ToUnixSeconds, Start, Next;
    var w := Ceil(when);
    MonthOfSecond(w);
    StartOfMonths(count, when);
    NextOfMonths(count, when);
    var k := MonthIndex(FromUnixSeconds(w).value);
    var floored := k - k % count;
    RoundDown(k, count);
    if floored >= FIRST_MONTH && floored % 12 + 1 + count <= 24 && floored + count <= LAST_MONTH {
      MonthStartMonotone(floored, k);
      MonthStartMonotone(k + 1, floored + count);
      MonthsStartAtMultiples(count, floored);
      MonthsStartAtMultiples(count, floored + count);
    }
  }

  /** From 24 months on, a single subtraction of 12 is never enough. */
  lemma TwoYearsNeverTile(count: int, when: real)
    requires count >= 24
    ensures !Tiles(count, Month, when)
  {
    if FromUnixSeconds(Ceil(when)).Some? {
      hide FromUnixSeconds, Tiles;
      LargeMonthCounts(count, when);
    }
  }

  /** A month that the code fails for: its interval starts 24 - count months into a year, so that
      the month number of the next one is 25. */
  lemma FailingMonth(count: int)
    requires 12 < count < 24
    ensures
      var k := count * 2399;
      k % count == 0 && k % 12 == 24 - count && 12 * 1970 <= k < 12 * MAX_YEAR
  {
    var k := count * 2399;
    assert k == 12 * (200 * count - 2) + (24 - count);
    DivModUnique(k, count, 2399, 0);
  }

  lemma SupportedMonths()
    ensures MonthStart(12 * 1970) == 0 && MonthStart(12 * MAX_YEAR) == START_OF_LAST_YEAR
  {
    assert MonthStart(12 * 1970) == (Ordinal(Date(1970, 1, 1)) - EPOCH) * SECONDS_PER_DAY;
    assert MonthStart(12 * MAX_YEAR) == (Ordinal(Date(MAX_YEAR, 1, 1)) - EPOCH) * SECONDS_PER_DAY;
  }

  lemma SupportedMonth(k: int)
    requires 12 * 1970 <= k < 12 * MAX_YEAR
    ensures 0 <= MonthStart(k) < START_OF_LAST_YEAR
  {
    hide MonthStart;
    SupportedMonths();
    MonthStartMonotone(12 * 1970, k);
    MonthStartMonotone(k, 12 * MAX_YEAR);
  }

  lemma FailingMoment(count: int)
    requires 12 < count < 24
    ensures
      var when := MonthStart(count * 2399) as real;
      0 <= Ceil(when) < START_OF_LAST_YEAR && !Tiles(count, Month, when)
  {
    hide FromUnixSeconds, Tiles, MonthStart, Ceil;
    var k := count * 2399;
    FailingMonth(count);
    SupportedMonth(k);
    CeilOfInteger(MonthStart(k));
    DateOfMonthStart(k);
    LargeMonthCounts(count, MonthStart(k) as real);
  }

  /** Twelve months is the largest count whose intervals tile all moments from 1970 to 9998. */
  lemma MonthCountsThatTile(count: int)
    requires count >= 1
    ensures
      (forall when: real | 0 <= Ceil(when) < START_OF_LAST_YEAR :: Tiles(count, Month, when)) <==>
      count <= 12
  {
    hide Tiles, MonthStart;
    if count <= 12 {
      forall when: real | 0 <= Ceil(when) < START_OF_LAST_YEAR
        ensures Tiles(count, Month, when)
      {
        MonthsTileTime(count, when);
      }
    } else if count < 24 {
      FailingMoment(count);
    } else {
      CeilOfInteger(0);
      TwoYearsNeverTile(count, 0 as real);
    }
  }

  // ---------------------------------------------------------------- the class

  class ScheduledInterval {
    var intervalCount: int
    var intervalPeriod: Period

    /** Every configured schedule has a positive count and never keeps weeks. */
    ghost predicate Valid()
      reads this
    {
      intervalCount >= 1 && intervalPeriod != Week
    }

    constructor ()
      ensures Valid() && intervalCount == 1 && intervalPeriod == Hour
    {
      intervalCount, intervalPeriod := 1, Hour;
    }

    /** _setIntervalCount. */
    method SetIntervalCount(count: CountArgument) returns (outcome: Outcome)
      modifies this`intervalCount
      ensures outcome == UnknownInterval <==> count.NotANumber?
      ensures count.NotANumber? ==> intervalCount == old(intervalCount)
      ensures count.Absent? ==> intervalCount == 1
      ensures count.Number? ==> intervalCount >= 1 && intervalCount >= count.n
      ensures count.Number? ==> intervalCount == 1 || intervalCount == count.n
    {
      if count.NotANumber? {
        return UnknownInterval;
      }
      var n := if count.Absent? then 1 else count.n;
      intervalCount := if n < 1 then 1 else n;
      outcome := Configured;
    }

    /** _setIntervalPeriod: weeks become sevens of days. */
    method SetIntervalPeriod(period: string) returns (outcome: Outcome)
      requires intervalCount >= 1
      modifies this
      ensures outcome == UnknownInterval <==> KnownInterval(Singular(DefaultPeriod(period))).None?
      ensures outcome == UnknownInterval ==>
        intervalCount == old(intervalCount) && intervalPeriod == old(intervalPeriod)
      ensures outcome == Configured ==> Valid()
      ensures outcome == Configured ==>
        var p := KnownInterval(Singular(DefaultPeriod(period))).value;
        if p == Week then intervalPeriod == Day && intervalCount == 7 * old(intervalCount)
        else intervalPeriod == p && intervalCount == old(intervalCount)
    {
      var name := Singular(DefaultPeriod(period));
      var known := KnownInterval(name);
      if known.None? {
        return UnknownInterval;
      }
      intervalPeriod := known.value;
      if known.value == Week {
        intervalPeriod := Day;
        intervalCount := intervalCount * 7;
      }
      outcome := Configured;
    }

    method IntervalStart(when: real) returns (start: Option<int>)
      requires Valid()
      ensures start == Start(intervalCount, intervalPeriod, when)
      ensures Supported(intervalCount, intervalPeriod, when) ==>
        && start.Some? && start.value <= Ceil(when)
        && Start(intervalCount, intervalPeriod, start.value as real) == start
    {
      hide FromUnixSeconds, ToUnixSeconds, Ceil, Seconds, Supported;
      TilesWhenSupported(intervalCount, intervalPeriod, when);
      var w := Ceil(when);
      if intervalPeriod == Month {
        var date := FromUnixSeconds(w);
        if date.None? {
          return None;
        }
        var months := date.value.year * 12 + (date.value.month - 1);
        months := months - months % intervalCount;
        var month := months % 12 + 1;
        start := ToUnixSeconds(months / 12, month);
      } else {
        LengthIsPositive(intervalPeriod, intervalCount);
        var length := Seconds(intervalPeriod) * intervalCount;
        start := Some(w - w % length);
      }
    }

    method NextIntervalStarts(when: real) returns (next: Option<int>)
      requires Valid()
      ensures next == Next(intervalCount, intervalPeriod, when)
      ensures Supported(intervalCount, intervalPeriod, when) ==>
        && next.Some? && Ceil(when) < next.value
        && Start(intervalCount, intervalPeriod, next.value as real) == next
    {
      hide FromUnixSeconds, ToUnixSeconds, Start, Ceil, Supported;
      TilesWhenSupported(intervalCount, intervalPeriod, when);
      var seconds := IntervalStart(when);
      if seconds.None? {
        return None;
      }
      if intervalPeriod == Month {
        var date := FromUnixSeconds(seconds.value);
        if date.None? {
          return None;
        }
        var year := date.value.year;
        var months := date.value.month + intervalCount;
        if months > 12 {
          year := date.value.year + 1;
          months := months - 12;
        }
        next := ToUnixSeconds(year, months);
      } else {
        next := Some(seconds.value + Seconds(intervalPeriod) * intervalCount);
      }
    }
  }
}
