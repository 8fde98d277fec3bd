/** Known names, weekdays and texts. */
module TimeKnown {
  import opened Common
  import opened Calendar
  import opened Decimal
  import opened Epoch
  import opened TimeText
  import opened TimeRoundTrip

  /** The months by number and by name, as they are printed. */
  lemma MonthTable()
    ensures MON_STR[0] == "Jan" && MON_STR[1] == "Feb" && MON_STR[2] == "Mar" && MON_STR[3] == "Apr"
    ensures MON_STR[4] == "May" && MON_STR[5] == "Jun" && MON_STR[6] == "Jul" && MON_STR[7] == "Aug"
    ensures MON_STR[8] == "Sep" && MON_STR[9] == "Oct" && MON_STR[10] == "Nov" && MON_STR[11] == "Dec"
  {
  }

  /** And as they are parsed. */
  lemma MonthNumbers()
    ensures IndexOf(MON_STR, "Jan") == 0 && IndexOf(MON_STR, "Feb") == 1 && IndexOf(MON_STR, "Mar") == 2
    ensures IndexOf(MON_STR, "Apr") == 3 && IndexOf(MON_STR, "May") == 4 && IndexOf(MON_STR, "Jun") == 5
    ensures IndexOf(MON_STR, "Jul") == 6 && IndexOf(MON_STR, "Aug") == 7 && IndexOf(MON_STR, "Sep") == 8
    ensures IndexOf(MON_STR, "Oct") == 9 && IndexOf(MON_STR, "Nov") == 10 && IndexOf(MON_STR, "Dec") == 11
  {
    MonthTable();
    hide IndexOf, MON_STR;
    MonthReadsBack(0);
    MonthReadsBack(1);
    MonthReadsBack(2);
    MonthReadsBack(3);
    MonthReadsBack(4);
    MonthReadsBack(5);
    MonthReadsBack(6);
    MonthReadsBack(7);
    MonthReadsBack(8);
    MonthReadsBack(9);
    MonthReadsBack(10);
    MonthReadsBack(11);
  }

  lemma WeekdayTable()
    ensures WDAY_STR[0] == "Sun" && WDAY_STR[1] == "Mon" && WDAY_STR[2] == "Tue" && WDAY_STR[3] == "Wed"
    ensures WDAY_STR[4] == "Thu" && WDAY_STR[5] == "Fri" && WDAY_STR[6] == "Sat"
  {
  }

  /** The weekday moves on by one a day, whatever the time of day, and 1970-01-01 is a Thursday. */
  lemma WeekdayMovesOn(t: int, s: int)
    requires 0 <= s < 86400
    ensures Weekday(t + 86400) == (Weekday(t) + 1) % 7
    ensures Weekday(t / 86400 * 86400 + s) == Weekday(t)
    ensures WDAY_STR[Weekday(0)] == "Thu"
  {
    assert (t + 86400) / 86400 == t / 86400 + 1;
  }

  // ----- one instant: Friday 5 March 2021, 06:07:08, nine and a half hours behind UTC

  const LOCAL: int := 1614924428
  const BEHIND: int := -34200
  const FRIDAY: Tm := Tm(121, 2, 5, 6, 7, 8)

  lemma FieldsOfFriday()
    ensures GmTime(LOCAL) == FRIDAY && Weekday(LOCAL) == 5
  {
    var d := Date(2021, 3, 5);
    hide CivilDate;
    assert DayCount(d) == 18691;
    CivilOfDayCount(d);
  }

  lemma NumbersOfFriday()
    ensures PadDec(2021, 4) == Dec(2021) == "2021"
    ensures PadDec(3, 2) == "03" && PadDec(5, 2) == "05" && PadDec(6, 2) == "06" && PadDec(7, 2) == "07"
    ensures PadDec(8, 2) == "08" && PadDec(9, 2) == "09" && PadDec(30, 2) == "30" && Dec(5) == "5"
  {
  }

  lemma ZoneOfFriday()
    ensures ZoneText(BEHIND, "") == "-0930" && ZoneText(BEHIND, ":") == "-09:30"
  {
    hide PadDec;
    NumbersOfFriday();
  }

  lemma ClockOfFriday()
    ensures ClockText(FRIDAY, "") == "060708" && ClockText(FRIDAY, ":") == "06:07:08"
  {
    hide PadDec;
    NumbersOfFriday();
  }

  lemma DateOfFriday()
    ensures DateText(FRIDAY, "") == "20210305" && DateText(FRIDAY, "-") == "2021-03-05"
    ensures RfcDateText(FRIDAY, 5) == "Fri, 5 Mar 2021"
  {
    hide PadDec, Dec;
    NumbersOfFriday();
    assert YearField(FRIDAY) == 2021;
  }

  /** The three texts of that instant. */
  lemma TextsOfFriday()
    ensures TextAt(LOCAL, BEHIND, ISO8601_SHORT) == "20210305T060708-0930"
    ensures TextAt(LOCAL, BEHIND, ISO8601_LONG) == "2021-03-05T06:07:08-09:30"
    ensures TextAt(LOCAL, BEHIND, RFC1123) == "Fri, 5 Mar 2021 06:07:08 -0930"
  {
    hide GmTime, Weekday, DateText, ClockText, ZoneText, RfcDateText;
    FieldsOfFriday();
    ZoneOfFriday();
    ClockOfFriday();
    DateOfFriday();
  }

  /** What is printed for its epoch, and what the texts parse to. */
  lemma FridayBothWays(fmt: Format)
    ensures FormatText(1614958628, BEHIND, fmt) == TextAt(LOCAL, BEHIND, fmt)
    ensures LocalParse(TextAt(LOCAL, BEHIND, fmt)) == LocalTime(1614958628, BEHIND)
  {
    hide GmTime, LocalParse, TextAt;
    FieldsOfFriday();
    assert SignedTime(1614958628 + BEHIND) == LOCAL;
    ParseInvertsFormat(1614958628, BEHIND, fmt);
  }

  // ----- the beginning of the epoch

  lemma FieldsOfEpoch()
    ensures GmTime(0) == Tm(70, 0, 1, 0, 0, 0) && Weekday(0) == 4
  {
    var d := Date(1970, 1, 1);
    hide CivilDate;
    assert DayCount(d) == 0;
    CivilOfDayCount(d);
  }

  lemma NumbersOfEpoch()
    ensures PadDec(1970, 4) == Dec(1970) == "1970" && PadDec(1, 2) == "01" && PadDec(0, 2) == "00" && Dec(1) == "1"
  {
  }

  lemma DateOfEpoch()
    ensures var tm := Tm(70, 0, 1, 0, 0, 0);
            && DateText(tm, "") == "19700101" && DateText(tm, "-") == "1970-01-01"
            && RfcDateText(tm, 4) == "Thu, 1 Jan 1970"
  {
    hide PadDec, Dec;
    NumbersOfEpoch();
    assert YearField(Tm(70, 0, 1, 0, 0, 0)) == 1970;
  }

  lemma ClockOfEpoch()
    ensures var tm := Tm(70, 0, 1, 0, 0, 0);
            && ClockText(tm, "") == "000000" && ClockText(tm, ":") == "00:00:00"
            && ZoneText(0, "") == "+0000" && ZoneText(0, ":") == "+00:00"
  {
    hide PadDec;
    NumbersOfEpoch();
  }

  /** In Greenwich the RFC 1123 form names the zone; the others print it as an offset. */
  lemma TextsOfEpoch()
    ensures TextAt(0, 0, ISO8601_SHORT) == "19700101T000000+0000"
    ensures TextAt(0, 0, ISO8601_LONG) == "1970-01-01T00:00:00+00:00"
    ensures TextAt(0, 0, RFC1123) == "Thu, 1 Jan 1970 00:00:00 GMT"
  {
    hide GmTime, Weekday, DateText, ClockText, ZoneText, RfcDateText;
    FieldsOfEpoch();
    DateOfEpoch();
    ClockOfEpoch();
  }

  /** Leap years and month lengths, by known days. */
  lemma KnownDays()
    ensures DayCount(Date(1970, 1, 1)) == 0 && DayCount(Date(1969, 12, 31)) == -1
    ensures DayCount(Date(2000, 2, 29)) == 11016 && DayCount(Date(2000, 3, 1)) == 11017
    ensures DayCount(Date(1900, 2, 28)) + 1 == DayCount(Date(1900, 3, 1)) == -25508
    ensures DayCount(Date(2100, 2, 28)) + 1 == DayCount(Date(2100, 3, 1)) == 47541
    ensures DayCount(Date(2024, 2, 29)) + 1 == DayCount(Date(2024, 3, 1)) == 19783
  {
  }

  lemma KnownMonths()
    ensures DayCount(Date(2021, 2, 1)) == 18659 && DayCount(Date(2021, 3, 1)) == 18687
    ensures DayCount(Date(2021, 4, 1)) == 18718 && DayCount(Date(2021, 5, 1)) == 18748
    ensures DayCount(Date(2021, 6, 1)) == 18779 && DayCount(Date(2021, 7, 1)) == 18809
    ensures DayCount(Date(2021, 8, 1)) == 18840 && DayCount(Date(2021, 9, 1)) == 18871
    ensures DayCount(Date(2021, 10, 1)) == 18901 && DayCount(Date(2021, 11, 1)) == 18932
    ensures DayCount(Date(2021, 12, 1)) == 18962 && DayCount(Date(2022, 1, 1)) == 18993
  {
  }
}
