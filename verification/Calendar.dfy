/** Civil date to Unix seconds, in 32-bit arithmetic, against a calendar that steps one day at a time. */
module Calendar {
  const WORD: nat := 0x1_0000_0000

  type uint32 = x: int | 0 <= x < WORD

  // ---- the calendar ----

  datatype Date = Date(year: int, month: int, day: int)

  predicate IsLeap(year: int) {
    year % 4 == 0 && (year % 100 != 0 || year % 400 == 0)
  }

  function DaysIn(year: int, month: int): int {
    if month == 2 then if IsLeap(year) then 29 else 28
    else if month in {4, 6, 9, 11} then 30
    else 31
  }

  predicate ValidDate(d: Date) {
    1970 <= d.year && 1 <= d.month <= 12 && 1 <= d.day <= DaysIn(d.year, d.month)
  }

  function NextDay(d: Date): Date {
    if d.day < DaysIn(d.year, d.month) then Date(d.year, d.month, d.day + 1)
    else if d.month < 12 then Date(d.year, d.month + 1, 1)
    else Date(d.year + 1, 1, 1)
  }

  /** The date `k` days after January 1st, 1970. */
  function After(k: nat): (d: Date)
    ensures ValidDate(d)
  {
    if k == 0 then Date(1970, 1, 1) else NextDay(After(k - 1))
  }

  predicate Before(a: Date, b: Date) {
    a.year < b.year || (a.year == b.year && (a.month < b.month || (a.month == b.month && a.day < b.day)))
  }

  predicate ValidTime(hour: int, minute: int, second: int) {
    0 <= hour < 24 && 0 <= minute < 60 && 0 <= second < 60
  }

  // ---- the conversion ----

  /** What 32 unsigned bits keep of a result. */
  function Wrap(x: int): uint32
    decreases if x < 0 then WORD - x else x
  {
    if x < 0 then Wrap(x + WORD) else if x >= WORD then Wrap(x - WORD) else x
  }

  /** Years to days, every intermediate result wrapped to 32 bits. */
  function YearsToDays(y: uint32): uint32 {
    Wrap(Wrap(Wrap(Wrap(365 * y) + y / 4) - y / 100) + y / 400)
  }

  function MonthsToDays(m: uint32, day: uint32): uint32 {
    Wrap(Wrap(Wrap(30 * m) + Wrap(3 * Wrap(m + 1)) / 5) + day)
  }

  function TimeToSeconds(hour: uint32, minute: uint32, second: uint32): uint32 {
    Wrap(Wrap(Wrap(3600 * hour) + Wrap(60 * minute)) + second)
  }

  function SinceEpoch(y: uint32, m: uint32, day: uint32): uint32 {
    Wrap(Wrap(YearsToDays(y) + MonthsToDays(m, day)) - 719561)
  }

  function InSeconds(days: uint32, time: uint32): uint32 {
    Wrap(Wrap(days * 86400) + time)
  }

  /** January and February count as months 13 and 14 of the year before. */
  function ShiftMonth(month: uint32): uint32 {
    if month <= 2 then Wrap(month + 12) else month
  }

  function ShiftYear(year: uint32, month: uint32): uint32 {
    if month <= 2 then Wrap(year - 1) else year
  }

  function Convert(year: uint32, month: uint32, day: uint32, hour: uint32, minute: uint32, second: uint32): uint32 {
    InSeconds(SinceEpoch(ShiftYear(year, month), ShiftMonth(month), day), TimeToSeconds(hour, minute, second))
  }

  /** The same without any wrapping. */
  function ShiftedCount(y: int, m: int, day: int): int {
    365 * y + LeapYearsUpTo(y) + (MonthDays(m) + day) - 719561
  }

  function DayCount(d: Date): int {
    if d.month <= 2 then ShiftedCount(d.year - 1, d.month + 12, d.day) else ShiftedCount(d.year, d.month, d.day)
  }

  function TimeOfDay(hour: int, minute: int, second: int): int {
    3600 * hour + 60 * minute + second
  }

  function Seconds(d: Date, hour: int, minute: int, second: int): int {
    86400 * DayCount(d) + TimeOfDay(hour, minute, second)
  }

  // ---- the day count follows the calendar ----

  /** How many of the years from 1 to `year` are leap years. */
  function LeapYearsUpTo(year: int): int
    decreases year
  {
    if year <= 0 then 0 else LeapYearsUpTo(year - 1) + if IsLeap(year) then 1 else 0
  }

  lemma FourthIs(y: int, q: int, r: int)
    requires y == 4 * q + r && 0 <= r < 4
    ensures y / 4 == q && y % 4 == r
  {
  }

  lemma HundredthIs(y: int, q: int, r: int)
    requires y == 100 * q + r && 0 <= r < 100
    ensures y / 100 == q && y % 100 == r
  {
  }

  lemma FourHundredthIs(y: int, q: int, r: int)
    requires y == 400 * q + r && 0 <= r < 400
    ensures y / 400 == q && y % 400 == r
  {
  }

  lemma Hundredths(y: int)
    ensures y / 100 == (y - 1) / 100 + if y % 100 == 0 then 1 else 0
    ensures y % 100 == 0 ==> y % 4 == 0
  {
    var q, r := (y - 1) / 100, (y - 1) % 100;
    if r == 99 {
      HundredthIs(y, q + 1, 0);
      FourthIs(y, 25 * (q + 1), 0);
    } else {
      HundredthIs(y, q, r + 1);
    }
  }

  lemma FourHundredths(y: int)
    ensures y / 400 == (y - 1) / 400 + if y % 400 == 0 then 1 else 0
    ensures y % 400 == 0 ==> y % 100 == 0
  {
    var q, r := (y - 1) / 400, (y - 1) % 400;
    if r == 399 {
      FourHundredthIs(y, q + 1, 0);
      HundredthIs(y, 4 * (q + 1), 0);
    } else {
      FourHundredthIs(y, q, r + 1);
    }
  }

  /** Gregorian leap years are counted by three divisions. */
  lemma {:induction false} LeapYearsByDivision(y: nat)
    ensures LeapYearsUpTo(y) == y / 4 - y / 100 + y / 400
  {
    if y > 0 {
      LeapYearsByDivision(y - 1);
      Hundredths(y);
      FourHundredths(y);
    }
  }

  /** Days before month `m` of a shifted year, up to a constant. */
  function MonthDays(m: int): int {
    30 * m + 3 * (m + 1) / 5
  }

  lemma MonthLengths(m: int)
    requires 3 <= m <= 13
    ensures MonthDays(m + 1) == MonthDays(m) + DaysIn(1, if m > 12 then m - 12 else m)
  {
  }

  lemma NextDayIsOneMore(d: Date)
    requires ValidDate(d)
    ensures DayCount(NextDay(d)) == DayCount(d) + 1
  {
    var y, m := d.year, d.month;
    if d.day == DaysIn(y, m) {
      if m == 2 {
        assert DayCount(d) == 365 * (y - 1) + LeapYearsUpTo(y - 1) + MonthDays(14) + d.day - 719561;
        assert DayCount(NextDay(d)) == 365 * y + LeapYearsUpTo(y) + MonthDays(3) + 1 - 719561;
      } else {
        MonthLengths(if m == 1 then 13 else m);
        NextMonth(d);
      }
    }
  }

  lemma NextMonth(d: Date)
    requires ValidDate(d) && d.month != 2 && d.day == DaysIn(d.year, d.month)
    ensures var m := if d.month == 1 then 13 else d.month;
      DayCount(NextDay(d)) - DayCount(d) == MonthDays(m + 1) - MonthDays(m) + 1 - d.day
  {
  }

  lemma EpochIsDayZero(d: Date)
    requires d.year == 1970 && d.month == 1 && d.day == 1
    ensures DayCount(d) == 0
  {
    var y := d.year - 1;
    FourthIs(y, 492, 1);
    HundredthIs(y, 19, 69);
    FourHundredthIs(y, 4, 369);
    LeapYearsByDivision(y);
    assert LeapYearsUpTo(y) == 477 && MonthDays(13) == 398;
  }

  lemma {:induction false} CountsSteps(k: nat)
    ensures DayCount(After(k)) == k
  {
    if k == 0 {
      EpochIsDayZero(After(k));
    } else {
      var d := After(k - 1);
      CountsSteps(k - 1);
      NextDayIsOneMore(d);
      assert After(k) == NextDay(d);
    }
  }

  function PreviousDay(d: Date): Date
    requires ValidDate(d)
  {
    if d.day > 1 then Date(d.year, d.month, d.day - 1)
    else if d.month > 1 then Date(d.year, d.month - 1, DaysIn(d.year, d.month - 1))
    else Date(d.year - 1, 12, 31)
  }

  /** Every date from the epoch on is reached by stepping. */
  lemma Reached(d: Date) returns (k: nat)
    requires ValidDate(d)
    ensures After(k) == d
    decreases d.year, d.month, d.day
  {
    if d == Date(1970, 1, 1) {
      k := 0;
    } else {
      var j := Reached(PreviousDay(d));
      k := j + 1;
    }
  }

  lemma {:induction false} StepsAreInOrder(j: nat, k: nat)
    requires j < k
    ensures Before(After(j), After(k))
    decreases k
  {
    if j < k - 1 {
      StepsAreInOrder(j, k - 1);
    }
  }

  /** The calendar order is the order of the day counts. */
  lemma OrderOfDays(a: Date, b: Date)
    requires ValidDate(a) && ValidDate(b)
    ensures Before(a, b) <==> DayCount(a) < DayCount(b)
    ensures a == b <==> DayCount(a) == DayCount(b)
  {
    var j := Reached(a);
    var k := Reached(b);
    CountsSteps(j);
    CountsSteps(k);
    if j < k {
      StepsAreInOrder(j, k);
    } else if k < j {
      StepsAreInOrder(k, j);
    }
  }

  // ---- wrapping ----

  lemma {:induction false} WrapIsRemainder(x: int)
    ensures Wrap(x) == x % WORD
    decreases if x < 0 then WORD - x else x
  {
    if x < 0 {
      WrapIsRemainder(x + WORD);
    } else if x >= WORD {
      WrapIsRemainder(x - WORD);
    }
  }

  lemma RemainderIs(x: int, q: int, r: int)
    requires x == q * WORD + r && 0 <= r < WORD
    ensures x % WORD == r
  {
  }

  /** Wrapping an operand of a sum changes nothing once the sum is wrapped. */
  lemma WrapSum(x: int, y: int)
    ensures Wrap(Wrap(x) + y) == Wrap(x + y)
  {
    WrapIsRemainder(x);
    WrapIsRemainder(x + y);
    var z := Wrap(x) + y;
    WrapIsRemainder(z);
    RemainderIs(x + y, z / WORD + x / WORD, z % WORD);
  }

  lemma WrapDays(x: int)
    ensures Wrap(Wrap(x) * 86400) == Wrap(x * 86400)
  {
    WrapIsRemainder(x);
    WrapIsRemainder(x * 86400);
    var z := Wrap(x) * 86400;
    WrapIsRemainder(z);
    RemainderIs(x * 86400, z / WORD + x / WORD * 86400, z % WORD);
  }

  lemma FourTerms(a: int, b: int, c: int, d: int)
    ensures Wrap(Wrap(Wrap(Wrap(a) + b) - c) + d) == Wrap(a + b - c + d)
  {
    WrapSum(a, b);
    WrapSum(a + b, -c);
    WrapSum(a + b - c, d);
  }

  lemma YearsByDivision(y: uint32)
    ensures YearsToDays(y) == Wrap(365 * y + y / 4 - y / 100 + y / 400)
  {
    FourTerms(365 * y, y / 4, y / 100, y / 400);
  }

  lemma YearsWrapOnce(y: uint32)
    ensures YearsToDays(y) == Wrap(365 * y + LeapYearsUpTo(y))
  {
    LeapYearsByDivision(y);
    YearsByDivision(y);
    assert 365 * y + y / 4 - y / 100 + y / 400 == 365 * y + (y / 4 - y / 100 + y / 400);
  }

  lemma MonthsDoNotWrap(m: uint32, day: uint32)
    requires m <= 14 && day <= 31
    ensures MonthsToDays(m, day) == MonthDays(m) + day
  {
  }

  lemma TotalWrapsOnce(years: int, months: int, time: int)
    ensures Wrap(Wrap(Wrap(Wrap(Wrap(years) + months) - 719561) * 86400) + time)
         == Wrap(86400 * (years + months - 719561) + time)
  {
    WrapSum(years, months);
    WrapSum(years + months, -719561);
    WrapDays(years + months - 719561);
    WrapSum((years + months - 719561) * 86400, time);
  }

  /** The conversion of a year and month already shifted. */
  lemma ShiftedWrapsOnce(y: uint32, m: uint32, day: uint32, time: uint32)
    requires m <= 14 && day <= 31
    ensures InSeconds(SinceEpoch(y, m, day), time)
         == Wrap(86400 * ShiftedCount(y, m, day) + time)
  {
    YearsWrapOnce(y);
    MonthsDoNotWrap(m, day);
    TotalWrapsOnce(365 * y + LeapYearsUpTo(y), MonthDays(m) + day, time);
  }

  /** All the wrapping amounts to wrapping the result once. */
  lemma ConvertWrapsOnce(d: Date, hour: uint32, minute: uint32, second: uint32)
    requires ValidDate(d) && d.year < WORD && ValidTime(hour, minute, second)
    ensures Convert(d.year, d.month, d.day, hour, minute, second) == Wrap(Seconds(d, hour, minute, second))
  {
    var time := TimeOfDay(hour, minute, second);
    Shifting(d);
    ShiftedWrapsOnce(ShiftYear(d.year, d.month), ShiftMonth(d.month), d.day, time);
  }

  lemma Shifting(d: Date)
    requires ValidDate(d) && d.year < WORD
    ensures ShiftMonth(d.month) <= 14
    ensures DayCount(d) == ShiftedCount(ShiftYear(d.year, d.month), ShiftMonth(d.month), d.day)
  {
  }

  /**
   * The conversion of the date `k` days after the epoch is exactly the seconds elapsed, for all dates up to the last
   * one 32 bits can count, and for no later one.
   */
  lemma ConvertCountsSeconds(k: nat, hour: uint32, minute: uint32, second: uint32)
    requires After(k).year < WORD && ValidTime(hour, minute, second)
    ensures var d := After(k);
      var elapsed := 86400 * k + TimeOfDay(hour, minute, second);
      Convert(d.year, d.month, d.day, hour, minute, second) == elapsed <==> elapsed < WORD
  {
    CountsSteps(k);
    ConvertWrapsOnce(After(k), hour, minute, second);
  }

  /** Later means greater, for any two valid points in time that 32 bits can count. */
  lemma ConvertIsStrictlyIncreasing(a: Date, ah: uint32, am: uint32, asec: uint32,
                                    b: Date, bh: uint32, bm: uint32, bsec: uint32)
    requires ValidDate(a) && a.year < WORD && ValidTime(ah, am, asec) && Seconds(a, ah, am, asec) < WORD
    requires ValidDate(b) && b.year < WORD && ValidTime(bh, bm, bsec) && Seconds(b, bh, bm, bsec) < WORD
    ensures Convert(a.year, a.month, a.day, ah, am, asec) < Convert(b.year, b.month, b.day, bh, bm, bsec)
      <==> Before(a, b) || (a == b && TimeOfDay(ah, am, asec) < TimeOfDay(bh, bm, bsec))
  {
    OrderOfDays(a, b);
    Counted(a, ah, am, asec);
    Counted(b, bh, bm, bsec);
  }

  lemma Counted(d: Date, hour: uint32, minute: uint32, second: uint32)
    requires ValidDate(d) && d.year < WORD && ValidTime(hour, minute, second) && Seconds(d, hour, minute, second) < WORD
    ensures Convert(d.year, d.month, d.day, hour, minute, second) == Seconds(d, hour, minute, second)
  {
    ConvertWrapsOnce(d, hour, minute, second);
    var k := Reached(d);
    CountsSteps(k);
  }

  // ---- second by second ----

  /** A date and a time of day. */
  datatype Moment = Moment(date: Date, hour: int, minute: int, second: int)

  function NextSecond(t: Moment): Moment {
    if t.second < 59 then t.(second := t.second + 1)
    else if t.minute < 59 then t.(minute := t.minute + 1, second := 0)
    else if t.hour < 23 then t.(hour := t.hour + 1, minute := 0, second := 0)
    else Moment(NextDay(t.date), 0, 0, 0)
  }

  predicate ValidMoment(t: Moment) {
    ValidDate(t.date) && ValidTime(t.hour, t.minute, t.second)
  }

  /** The moment `k` seconds after midnight, January 1st, 1970. */
  function AfterSeconds(k: nat): (t: Moment)
    ensures ValidMoment(t)
  {
    if k == 0 then Moment(Date(1970, 1, 1), 0, 0, 0) else NextSecond(AfterSeconds(k - 1))
  }

  function SecondsAt(t: Moment): int {
    Seconds(t.date, t.hour, t.minute, t.second)
  }

  lemma NextSecondIsOneMore(t: Moment)
    requires ValidMoment(t)
    ensures SecondsAt(NextSecond(t)) == SecondsAt(t) + 1
  {
    NextDayIsOneMore(t.date);
  }

  lemma EpochIsSecondZero(t: Moment)
    requires t == Moment(Date(1970, 1, 1), 0, 0, 0)
    ensures SecondsAt(t) == 0
  {
    EpochIsDayZero(t.date);
  }

  lemma OneStepMore(k: nat, t: Moment)
    requires t == AfterSeconds(k)
    ensures SecondsAt(AfterSeconds(k + 1)) == SecondsAt(t) + 1
  {
    NextSecondIsOneMore(t);
  }

  /** The seconds of the moment reached by `k` steps of one second from the epoch are `k`. */
  lemma {:induction false} SecondsCountSteps(k: nat)
    ensures SecondsAt(AfterSeconds(k)) == k
  {
    if k == 0 {
      EpochIsSecondZero(AfterSeconds(0));
    } else {
      SecondsCountSteps(k - 1);
      OneStepMore(k - 1, AfterSeconds(k - 1));
    }
  }
}
