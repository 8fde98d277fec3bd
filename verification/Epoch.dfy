/** Broken-down local time to epoch, in the 32-bit and 64-bit unsigned arithmetic of the library. */
module Epoch {
  import opened Calendar
  import opened Common

  function U32(x: int): int {
    x % TWO32
  }

  function U64(x: int): int {
    x % TWO64
  }

  /** The fields of struct tm that are read: years since 1900, months since January. */
  datatype Tm = Tm(year: int, mon: int, mday: int, hour: int, min: int, sec: int)

  /** The month after the two-month shift, as the unsigned value that indexes the day table. */
  function TableIndex(mon: int): int {
    var month := U32(U32(mon + 1) - 2);
    if month == 0 || month >= TWO32 / 2 then U32(month + 12) else month
  }

  predicate InTable(tm: Tm) {
    TableIndex(tm.mon) < |CUMULATIVE_DAYS|
  }

  /** The year after the two-month shift. */
  function EpochYear(tm: Tm): int {
    var month := U32(U32(tm.mon + 1) - 2);
    if month == 0 || month >= TWO32 / 2 then U32(U32(tm.year + 1900) - 1) else U32(tm.year + 1900)
  }

  /** The day count of tm_mkepoch_local: 32-bit arithmetic on the year, 64-bit additions. */
  function EpochDays(year: int, cumulative: int, day: int): int {
    U64(U64(U64(U64(U32(Leaps(year)) + U32(year * 365)) + cumulative) + day) - DAYS_TO_1970)
  }

  /** tm_mkepoch_local, for a month that stays inside the table of cumulative days. */
  function MkEpochLocal(tm: Tm, gmtoff: int): (epoch: int)
    requires InTable(tm)
    ensures 0 <= epoch < TWO64
  {
    var days := EpochDays(EpochYear(tm), CUMULATIVE_DAYS[TableIndex(tm.mon)], U32(tm.mday));
    AddTime(days, U32(tm.hour), U32(tm.min), U32(tm.sec), gmtoff)
  }

  function AddTime(days: int, hour: int, min: int, sec: int, gmtoff: int): (epoch: int)
    ensures 0 <= epoch < TWO64
  {
    U64(U64(U64(U64(days * 24 + hour) * 60 + min) * 60 + sec) - gmtoff)
  }

  function DateOf(tm: Tm): Date {
    Date(tm.year + 1900, tm.mon + 1, tm.mday)
  }

  /** A real date and time of day, of a year that an int can hold. */
  predicate RealTm(tm: Tm) {
    && ValidDate(DateOf(tm)) && -TWO32 / 2 <= tm.year && tm.year + 1900 < TWO32 / 2
    && 0 <= tm.hour < 24 && 0 <= tm.min < 60 && 0 <= tm.sec < 60
  }

  /** The shifted years for which the 32-bit day arithmetic does not wrap. */
  predicate InSpan(year: int) {
    0 <= year && year * 365 < TWO32
  }

  predicate ValidTm(tm: Tm) {
    RealTm(tm) && InSpan(ShiftedYear(tm.year + 1900, tm.mon + 1))
  }

  /** Seconds of local time since 1970-01-01 00:00:00, by the day-by-day calendar. */
  function LocalSeconds(tm: Tm): int
    requires RealTm(tm)
  {
    DayCount(DateOf(tm)) * 86400 + tm.hour * 3600 + tm.min * 60 + tm.sec
  }

  lemma WholeTurns(x: int, q: int)
    ensures U64(x + TWO64 * q) == U64(x)
  {
  }

  lemma WrapsFrom(a: int, r: int, q: int, k: int, b: int)
    requires a == TWO64 * q + r
    requires k == 1 || k == 24 || k == 60
    ensures U64(r * k + b) == U64(a * k + b)
  {
    WholeTurns(r * k + b, q * k);
    assert k == 24 ==> a * 24 + b == (r * 24 + b) + TWO64 * (q * 24);
    assert k == 60 ==> a * 60 + b == (r * 60 + b) + TWO64 * (q * 60);
  }

  /** Reducing an operand modulo 2^64 first does not change a multiply-and-add modulo 2^64. */
  lemma Wraps(a: int, k: int, b: int)
    requires k == 1 || k == 24 || k == 60
    ensures U64(U64(a) * k + b) == U64(a * k + b)
  {
    WrapsFrom(a, U64(a), a / TWO64, k, b);
  }

  lemma AddTimeWraps(days: int, hour: int, min: int, sec: int, gmtoff: int)
    ensures AddTime(U64(days), hour, min, sec, gmtoff)
         == U64(days * 86400 + hour * 3600 + min * 60 + sec - gmtoff)
  {
    Wraps(days, 24, hour);
    var h := days * 24 + hour;
    Wraps(h, 60, min);
    var m := h * 60 + min;
    Wraps(m, 60, sec);
    Wraps(m * 60 + sec, 1, -gmtoff);
  }

  lemma Small(x: int)
    ensures 0 <= x < TWO32 ==> U32(x) == x
    ensures 0 <= x < TWO64 ==> U64(x) == x
    ensures -TWO32 <= x < 0 ==> U32(x) == x + TWO32
  {
  }

  lemma ShiftIsExact(tm: Tm)
    requires RealTm(tm)
    ensures InTable(tm) && TableIndex(tm.mon) == ShiftedMonth(tm.mon + 1)
    ensures EpochYear(tm) == U32(ShiftedYear(tm.year + 1900, tm.mon + 1))
  {
    Small(tm.mon + 1);
    Small(tm.mon - 1);
    Small(tm.mon + 11);
    Small(tm.mon - 1 + TWO32 + 12 - TWO32);
    assert tm.mon - 1 < 0 ==> U32(U32(tm.mon - 1) + 12) == tm.mon + 11;
    YearBefore(tm.year + 1900);
  }

  lemma YearBefore(year: int)
    ensures U32(U32(year) - 1) == U32(year - 1)
  {
    var q := year / TWO32;
    assert year == TWO32 * q + U32(year);
    assert U32(TWO32 * q + (U32(year) - 1)) == U32(U32(year) - 1);
  }

  lemma LeapsBound(year: int)
    requires 0 <= year
    ensures 0 <= Leaps(year) <= year
  {
  }

  /** By how many days the 32-bit arithmetic misses the closed form. */
  function Gap(year: int): int {
    Leaps(U32(year)) + U32(U32(year) * 365) - DaysBeforeYear(year)
  }

  lemma EpochDaysMiss(year: int, cumulative: nat, day: nat)
    ensures EpochDays(U32(year), cumulative, day)
         == U64(DaysBeforeYear(year) + cumulative + day - DAYS_TO_1970 + Gap(year))
  {
    hide U64, U32, Leaps, DaysBeforeYear;
    var y := U32(year);
    SmallLeaps(year);
    SumsWrap(Leaps(y) + U32(y * 365), cumulative, day, -(DAYS_TO_1970 as int));
  }

  lemma SmallLeaps(year: int)
    ensures U32(Leaps(U32(year))) == Leaps(U32(year))
  {
    LeapsBound(U32(year));
  }

  lemma SumsWrap(a: int, b: int, c: int, d: int)
    ensures U64(U64(U64(U64(a) + b) + c) + d) == U64(a + b + c + d)
  {
    hide U64;
    Wraps(a, 1, b);
    Wraps(a + b, 1, c);
    Wraps(a + b + c, 1, d);
  }

  /** The leap days of a year and of the same year moved up by 2^32. */
  lemma MovedLeaps(year: int)
    ensures 1041529568 <= Leaps(year + TWO32) - Leaps(year) <= 1041529570
  {
    Centuries(year);
    FourCenturies(year);
    assert (year + TWO32) / 4 == year / 4 + 1073741824;
  }

  lemma Centuries(year: int)
    ensures year / 100 + 42949672 <= (year + TWO32) / 100 <= year / 100 + 42949673
  {
  }

  lemma FourCenturies(year: int)
    ensures year / 400 + 10737418 <= (year + TWO32) / 400 <= year / 400 + 10737419
  {
  }

  /** Where the day arithmetic is exact, and that it never misses by a multiple of 2^64 seconds. */
  lemma GapExactly(year: int)
    requires -TWO32 / 2 <= year < TWO32 / 2
    ensures Gap(year) == 0 <==> InSpan(year)
    ensures -TWO32 * 200 < Gap(year) < TWO32 * 200
  {
    var y := U32(year);
    WrappedProduct(year);
    if 0 <= year {
      Small(year);
    } else {
      Small(year);
      MovedLeaps(year);
    }
  }

  lemma WrappedProduct(year: int)
    requires -TWO32 / 2 <= year < TWO32 / 2
    ensures exists k :: -200 < k < 200 && U32(U32(year) * 365) == year * 365 + TWO32 * k
                        && (year >= 0 ==> k <= 0) && (year < 0 ==> k > 0)
                        && (k == 0 <==> 0 <= year && year * 365 < TWO32)
  {
    var y := U32(year);
    Small(year);
    var k := (if year >= 0 then 0 else 365) - y * 365 / TWO32;
    assert y * 365 == TWO32 * (y * 365 / TWO32) + U32(y * 365);
    assert U32(y * 365) == year * 365 + TWO32 * k;
  }

  /** The months whose shifted number stays inside the table of thirteen entries. */
  lemma MonthInTable(tm: Tm)
    requires -TWO32 / 2 <= tm.mon + 1 < TWO32 / 2
    ensures InTable(tm) <==> -10 <= tm.mon + 1 <= 14
  {
  }

  lemma MkEpochMisses(tm: Tm, gmtoff: int)
    requires RealTm(tm)
    ensures InTable(tm)
    ensures MkEpochLocal(tm, gmtoff)
         == U64(LocalSeconds(tm) - gmtoff + 86400 * Gap(ShiftedYear(tm.year + 1900, tm.mon + 1)))
  {
    hide Gap, DaysBeforeYear;
    ShiftIsExact(tm);
    var year := ShiftedYear(tm.year + 1900, tm.mon + 1);
    EpochDaysMiss(year, CUMULATIVE_DAYS[TableIndex(tm.mon)], tm.mday);
    AddTimeWraps(DayCount(DateOf(tm)) + Gap(year), tm.hour, tm.min, tm.sec, gmtoff);
    Small(tm.mday);
    Small(tm.hour);
    Small(tm.min);
    Small(tm.sec);
  }

  /**
   * Modulo 2^64 the closed form counts the seconds from 1970, less the offset from UTC, exactly when
   * the year, shifted so that it starts in March, is in the span of the 32-bit arithmetic.
   */
  lemma MkEpochExactly(tm: Tm, gmtoff: int)
    requires RealTm(tm)
    ensures InTable(tm)
    ensures MkEpochLocal(tm, gmtoff) == U64(LocalSeconds(tm) - gmtoff) <==> ValidTm(tm)
  {
    hide MkEpochLocal, LocalSeconds, Gap, InSpan;
    var year := ShiftedYear(tm.year + 1900, tm.mon + 1);
    MkEpochMisses(tm, gmtoff);
    GapExactly(year);
    NoFullTurn(LocalSeconds(tm) - gmtoff, 86400 * Gap(year));
  }

  lemma NoFullTurn(x: int, miss: int)
    requires -TWO64 < miss < TWO64
    ensures U64(x + miss) == U64(x) <==> miss == 0
  {
    var a, b := (x + miss) / TWO64, x / TWO64;
    assert x + miss == TWO64 * a + U64(x + miss) && x == TWO64 * b + U64(x);
  }

  lemma MkEpochIsExact(tm: Tm, gmtoff: int)
    requires ValidTm(tm)
    ensures InTable(tm)
    ensures MkEpochLocal(tm, gmtoff) == U64(LocalSeconds(tm) - gmtoff)
  {
    hide MkEpochLocal, LocalSeconds;
    MkEpochExactly(tm, gmtoff);
  }

  predicate EarlierTm(a: Tm, b: Tm) {
    || Earlier(DateOf(a), DateOf(b))
    || (DateOf(a) == DateOf(b)
        && (a.hour < b.hour || (a.hour == b.hour && (a.min < b.min || (a.min == b.min && a.sec < b.sec)))))
  }

  lemma LocalSecondsMonotone(a: Tm, b: Tm)
    requires ValidTm(a) && ValidTm(b) && EarlierTm(a, b)
    ensures LocalSeconds(a) < LocalSeconds(b)
  {
    if Earlier(DateOf(a), DateOf(b)) {
      DayCountMonotone(DateOf(a), DateOf(b));
    }
  }

  /** Later local times have strictly larger epochs, for a fixed offset and as long as none wraps. */
  lemma EpochIsMonotone(a: Tm, b: Tm, gmtoff: int)
    requires ValidTm(a) && ValidTm(b) && EarlierTm(a, b)
    requires 0 <= LocalSeconds(a) - gmtoff && LocalSeconds(b) - gmtoff < TWO64
    ensures InTable(a) && InTable(b) && MkEpochLocal(a, gmtoff) < MkEpochLocal(b, gmtoff)
  {
    hide MkEpochLocal, LocalSeconds, EarlierTm;
    MkEpochIsExact(a, gmtoff);
    MkEpochIsExact(b, gmtoff);
    LocalSecondsMonotone(a, b);
    Small(LocalSeconds(a) - gmtoff);
    Small(LocalSeconds(b) - gmtoff);
  }

  /** The same time on the next civil day is 86400 seconds later. */
  lemma NextDayIsADayLater(a: Tm, b: Tm, gmtoff: int)
    requires ValidTm(a) && ValidTm(b)
    requires DateOf(b) == NextDay(DateOf(a)) && (b.hour, b.min, b.sec) == (a.hour, a.min, a.sec)
    ensures InTable(a) && InTable(b)
    ensures MkEpochLocal(b, gmtoff) == U64(MkEpochLocal(a, gmtoff) + 86400)
  {
    hide MkEpochLocal, DayCount, NextDay;
    MkEpochIsExact(a, gmtoff);
    MkEpochIsExact(b, gmtoff);
    DayCountNext(DateOf(a));
    Wraps(LocalSeconds(a) - gmtoff, 1, 86400);
  }
}
