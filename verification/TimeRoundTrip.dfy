/**
 * Printing and parsing against each other: what every printed form reads back as, and for which
 * instants and offsets nothing is lost.
 */
module TimeRoundTrip {
  import opened Common
  import opened Calendar
  import opened Decimal
  import opened Epoch
  import opened TimeText

  lemma Halves(a: string, b: string)
    ensures (a + b)[..|a|] == a && (a + b)[|a|..] == b
  {
  }

  lemma ReadsBack(n: nat, width: nat)
    ensures ParseNum(PadDec(n, width)) == (true, n)
  {
    NumberOfPadDec(n, width);
    ParseNumOfDigits(PadDec(n, width));
  }

  lemma ReadsBackPlain(n: nat)
    ensures ParseNum(Dec(n)) == (true, n)
  {
    NumberOfDec(n);
    ParseNumOfDigits(Dec(n));
  }

  lemma DashedDate(y: string, m: string, d: string, f: Fields)
    requires |y| == 4 && |m| == 2 && |d| == 2
    ensures ParseDate(y + "-" + m + "-" + d, f) == ParseYmd(f, y, m, d)
  {
    var s := y + "-" + m + "-" + d;
    assert s[0..4] == y && s[5..7] == m && s[8..10] == d;
  }

  lemma PlainDate(y: string, m: string, d: string, f: Fields)
    requires |y| == 4 && |m| == 2 && |d| == 2
    ensures ParseDate(y + "" + m + "" + d, f) == ParseYmd(f, y, m, d)
  {
    var s := y + "" + m + "" + d;
    assert s[0..4] == y && s[4..6] == m && s[6..8] == d;
  }

  lemma YmdReadsBack(f: Fields, y: nat, m: nat, d: nat)
    ensures ParseYmd(f, PadDec(y, 4), PadDec(m, 2), PadDec(d, 2)) == (0, f.(year := y, mon := m, mday := d))
  {
    ReadsBack(y, 4);
    ReadsBack(m, 2);
    ReadsBack(d, 2);
  }

  lemma DateWidths(y: nat, m: nat, d: nat)
    requires y < 10000 && m < 100 && d < 100
    ensures |PadDec(y, 4)| == 4 && |PadDec(m, 2)| == 2 && |PadDec(d, 2)| == 2
  {
    FourWide(y);
    TwoDigits(m);
    TwoDigits(d);
  }

  lemma ParseDateOfText(tm: Tm, sep: string, f: Fields)
    requires InRange(tm) && ShortYear(tm)
    requires sep == "" || sep == "-"
    ensures |DateText(tm, sep)| == 8 + 2 * |sep|
    ensures ParseDate(DateText(tm, sep), f) == (0, f.(year := tm.year + 1900, mon := tm.mon + 1, mday := tm.mday))
  {
    hide PadDec, ParseYmd, ParseDate;
    var y: nat, m: nat, d: nat := tm.year + 1900, tm.mon + 1, tm.mday;
    DateWidths(y, m, d);
    YmdReadsBack(f, y, m, d);
    if sep == "" {
      PlainDate(PadDec(y, 4), PadDec(m, 2), PadDec(d, 2), f);
    } else {
      DashedDate(PadDec(y, 4), PadDec(m, 2), PadDec(d, 2), f);
    }
  }

  // clock and zone

  lemma HmsReadsBack(f: Fields, h: nat, m: nat, s: nat)
    ensures ParseHms(f, PadDec(h, 2), PadDec(m, 2), PadDec(s, 2)) == (0, f.(hour := h, min := m, sec := s))
  {
    ReadsBack(h, 2);
    ReadsBack(m, 2);
    ReadsBack(s, 2);
  }

  lemma ColonClock(h: string, m: string, s: string, zone: string, f: Fields)
    requires |h| == 2 && |m| == 2 && |s| == 2 && AllDigits(h)
    requires ParseHms(f, h, m, s).0 == 0
    ensures ParseTime(h + ":" + m + ":" + s + zone, f) == ParseZone(SkipChar(zone, ' '), ParseHms(f, h, m, s).1)
  {
    var t := h + ":" + m + ":" + s + zone;
    assert t[0] == h[0] && SkipChar(t, 'T') == t;
    assert t[0..2] == h && t[3..5] == m && t[6..8] == s && t[8..] == zone;
  }

  lemma PlainClock(h: string, m: string, s: string, zone: string, f: Fields)
    requires |h| == 2 && |m| == 2 && |s| == 2 && AllDigits(h) && AllDigits(m)
    requires ParseHms(f, h, m, s).0 == 0
    ensures ParseTime(h + "" + m + "" + s + zone, f) == ParseZone(SkipChar(zone, ' '), ParseHms(f, h, m, s).1)
  {
    var t := h + "" + m + "" + s + zone;
    assert t[0] == h[0] && SkipChar(t, 'T') == t && t[2] == m[0];
    assert t[0..2] == h && t[2..4] == m && t[4..6] == s && t[6..] == zone;
  }

  /** The clock text, with or without a T before it, sets the time and leaves the zone to be read. */
  lemma ParseTimeOfText(tm: Tm, sep: string, zone: string, f: Fields)
    requires InRange(tm)
    requires sep == "" || sep == ":"
    ensures var text, g := ClockText(tm, sep) + zone, f.(hour := tm.hour, min := tm.min, sec := tm.sec);
            && ParseTime(text, f) == ParseZone(SkipChar(zone, ' '), g)
            && ParseTime("T" + text, f) == ParseZone(SkipChar(zone, ' '), g)
            && text != "" && IsDigit(text[0])
  {
    var h: nat, m: nat, s: nat := tm.hour, tm.min, tm.sec;
    TwoDigits(h);
    TwoDigits(m);
    TwoDigits(s);
    HmsReadsBack(f, h, m, s);
    if sep == "" {
      PlainClock(PadDec(h, 2), PadDec(m, 2), PadDec(s, 2), zone, f);
    } else {
      ColonClock(PadDec(h, 2), PadDec(m, 2), PadDec(s, 2), zone, f);
    }
    LeadingT(ClockText(tm, sep) + zone, f);
    assert (ClockText(tm, sep) + zone)[0] == PadDec(h, 2)[0];
  }

  lemma LeadingT(text: string, f: Fields)
    requires text != "" && text[0] != 'T'
    ensures ParseTime("T" + text, f) == ParseTime(text, f)
  {
    assert SkipChar("T" + text, 'T') == text == SkipChar(text, 'T');
  }

  lemma ZoneSplits(sign: string, h: string, m: string, sep: string)
    requires (sign == "-" || sign == "+") && |h| == 2 && |m| == 2 && (sep == "" || sep == ":")
    ensures ZoneParts(sign + h + sep + m) == Some((if sign == "-" then -1 else 1, h, m))
  {
    var z := sign + h + sep + m;
    assert z[1..3] == h && z[0] == sign[0];
    if sep == "" {
      assert z[3..5] == m;
    } else {
      assert z[4..6] == m && z[3] == ':';
    }
  }

  /** The offset a zone text can express: its seconds are cut off, towards zero. */
  function WholeMinutePart(offset: int): int {
    if offset < 0 then -(-offset / 60 * 60) else offset / 60 * 60
  }

  lemma WholeMinutes(size: int)
    requires 0 <= size
    ensures (size / 3600 * 60 + size / 60 % 60) * 60 == size / 60 * 60
  {
    assert size / 60 / 60 == size / 3600;
  }

  lemma ZoneReadsBack(sign: string, h: nat, m: nat, sep: string, size: int, f: Fields)
    requires sign == "-" || sign == "+"
    requires h < 100 && m < 100 && (h * 60 + m) * 60 == size
    requires sep == "" || sep == ":"
    ensures var z := sign + PadDec(h, 2) + sep + PadDec(m, 2);
            && ParseZone(z, f) == (0, f.(gmtoff := if sign == "-" then -size else size))
            && SkipChar(z, ' ') == z
  {
    TwoDigits(h);
    TwoDigits(m);
    ReadsBack(h, 2);
    ReadsBack(m, 2);
    ZoneSplits(sign, PadDec(h, 2), PadDec(m, 2), sep);
    SignFirst(sign, PadDec(h, 2), sep, PadDec(m, 2));
  }

  lemma SignFirst(sign: string, h: string, sep: string, m: string)
    requires sign == "-" || sign == "+"
    ensures SkipChar(sign + h + sep + m, ' ') == sign + h + sep + m
  {
    assert (sign + h + sep + m)[0] == sign[0];
  }

  /** Every offset below a hundred hours is read back from its text, without its seconds. */
  lemma ParseZoneOfText(offset: int, sep: string, f: Fields)
    requires -360000 < offset < 360000
    requires sep == "" || sep == ":"
    ensures ParseZone(ZoneText(offset, sep), f) == (0, f.(gmtoff := WholeMinutePart(offset)))
    ensures SkipChar(ZoneText(offset, sep), ' ') == ZoneText(offset, sep)
  {
    hide ParseZone, SkipChar, PadDec;
    var size := if offset < 0 then -offset else offset;
    WholeMinutes(size);
    ZoneReadsBack(if offset < 0 then "-" else "+", size / 3600, size / 60 % 60, sep, size / 60 * 60, f);
  }

  // the RFC 1123 date

  lemma {:induction false} FirstMatch(names: seq<string>, s: string, k: nat)
    requires k < |names| && names[k] <= s
    requires forall i :: 0 <= i < k ==> !(names[i] <= s)
    ensures IndexOf(names, s) == k
  {
    if k > 0 {
      FirstMatch(names[1..], s, k - 1);
    }
  }

  lemma MonthNamesDiffer(i: nat, k: nat)
    requires i < k < 12
    ensures |MON_STR[k]| == |MON_STR[i]| == 3 && !(MON_STR[i] <= MON_STR[k])
  {
    var a, b := MON_STR[i], MON_STR[k];
    assert a[0] != b[0] || a[1] != b[1] || a[2] != b[2];
  }

  lemma MonthReadsBack(k: nat)
    requires k < 12
    ensures |MON_STR[k]| == 3 && IndexOf(MON_STR, MON_STR[k]) == k
  {
    forall i | 0 <= i < k
      ensures !(MON_STR[i] <= MON_STR[k])
    {
      MonthNamesDiffer(i, k);
    }
    FirstMatch(MON_STR, MON_STR[k], k);
  }

  lemma RfcSplits(w: string, d: string, m: string, y: string, rest: string, f: Fields)
    requires |w| == 3 && 1 <= |d| <= 2 && AllDigits(d) && |m| == 3 && |y| == 4
    requires IndexOf(MON_STR, m) < 12 && ParseNum(y).0 && ParseNum(d).0
    requires |w + ", " + d + " " + m + " " + y + rest| >= 16
    ensures ParseDateRfc1123(w + ", " + d + " " + m + " " + y + rest, f)
         == (|w + ", " + d + " " + m + " " + y|,
             f.(year := ParseNum(y).1, mon := IndexOf(MON_STR, m) + 1, mday := ParseNum(d).1))
  {
    hide ParseNum, IndexOf;
    var s := w + ", " + d + " " + m + " " + y + rest;
    var e := 5 + |d|;
    assert s[3] == ',' && s[5] == d[0] && s[e] == ' ';
    assert |d| == 2 ==> s[6] == d[1];
    assert DayEnd(s, 5) == e;
    assert s[5..e] == d && s[e + 1..e + 4] == m && s[e + 5..e + 9] == y;
  }

  lemma RfcWidth(tm: Tm, wday: nat)
    requires InRange(tm) && FourDigitYear(tm) && wday < 7
    ensures |RfcDateText(tm, wday)| == 14 + |Dec(tm.mday)|
    ensures WDAY_STR[wday] <= RfcDateText(tm, wday)
  {
    hide Dec;
    FourDigits(tm.year + 1900);
    MonthReadsBack(tm.mon);
  }

  lemma ParseRfcDateOfText(tm: Tm, wday: nat, rest: string, f: Fields)
    requires InRange(tm) && FourDigitYear(tm) && wday < 7
    requires |rest| >= 1
    ensures |RfcDateText(tm, wday) + rest| >= 16
    ensures ParseDateRfc1123(RfcDateText(tm, wday) + rest, f)
         == (|RfcDateText(tm, wday)|, f.(year := tm.year + 1900, mon := tm.mon + 1, mday := tm.mday))
  {
    hide ParseDateRfc1123, Dec, ParseNum, IndexOf;
    var y: nat, d: nat := tm.year + 1900, tm.mday;
    FourDigits(y);
    TwoDigits(d);
    MonthReadsBack(tm.mon);
    ReadsBackPlain(y);
    ReadsBackPlain(d);
    RfcWidth(tm, wday);
    RfcSplits(WDAY_STR[wday], Dec(d), MON_STR[tm.mon], Dec(y), rest, f);
  }

  // the whole text

  lemma WeekdayIsNoDigit(s: string)
    ensures IndexOf(WDAY_STR, s) < |WDAY_STR| ==> s != "" && !IsDigit(s[0])
  {
    var i := IndexOf(WDAY_STR, s);
    if i < |WDAY_STR| {
      assert WDAY_STR[i] <= s && |WDAY_STR[i]| == 3;
      assert WDAY_STR[i][0] == s[0];
    }
  }

  /** An ISO 8601 date of eight or ten characters, then T and the rest. */
  lemma IsoText(date: string, rest: string, f: Fields)
    requires |date| == 8 || |date| == 10
    requires AllDigits(date[..1]) && ParseDate(date, f).0 >= 0
    requires |date| == 8 ==> |rest| >= 2 && IsDigit(rest[1])
    ensures ParseDateTime(date + ("T" + rest), f) == ParseTime("T" + rest, ParseDate(date, f).1)
  {
    var s := date + ("T" + rest);
    assert s[0] == date[..1][0];
    WeekdayIsNoDigit(s);
    Halves(date, "T" + rest);
    assert s[|date|] == 'T';
    assert |date| == 8 ==> s[10] == rest[1];
    assert SkipChar("T" + rest, ' ') == "T" + rest;
  }

  lemma RfcText(date: string, rest: string, f: Fields, w: nat)
    requires w < 7 && WDAY_STR[w] <= date
    requires rest != "" && rest[0] != ' '
    requires |date + (" " + rest)| >= 16
    requires ParseDateRfc1123(date + (" " + rest), f).0 == |date|
    ensures ParseDateTime(date + (" " + rest), f)
         == ParseTime(rest, ParseDateRfc1123(date + (" " + rest), f).1)
  {
    var s := date + (" " + rest);
    assert WDAY_STR[w] <= s;
    Halves(date, " " + rest);
    assert SkipChar(" " + rest, ' ') == rest;
  }

  function FieldsOf(tm: Tm, gmtoff: int): Fields {
    Fields(tm.year + 1900, tm.mon + 1, tm.mday, tm.hour, tm.min, tm.sec, gmtoff)
  }

  lemma DateFacts(tm: Tm, sep: string, f: Fields)
    requires InRange(tm) && ShortYear(tm)
    requires sep == "" || sep == "-"
    ensures var date := DateText(tm, sep);
            && |date| == 8 + 2 * |sep| && AllDigits(date[..1])
            && ParseDate(date, f) == (0, f.(year := tm.year + 1900, mon := tm.mon + 1, mday := tm.mday))
  {
    hide PadDec, ParseDate;
    ParseDateOfText(tm, sep, f);
    assert DateText(tm, sep)[0] == PadDec(YearField(tm), 4)[0];
  }

  lemma ClockFacts(tm: Tm, sep: string, zone: string, f: Fields)
    requires InRange(tm)
    requires sep == "" || sep == ":"
    ensures var text, g := ClockText(tm, sep) + zone, f.(hour := tm.hour, min := tm.min, sec := tm.sec);
            && ParseTime(text, f) == ParseZone(SkipChar(zone, ' '), g)
            && ParseTime("T" + text, f) == ParseZone(SkipChar(zone, ' '), g)
            && |text| >= 6 && IsDigit(text[0]) && IsDigit(text[1])
  {
    ParseTimeOfText(tm, sep, zone, f);
    ClockStarts(tm, sep);
    SecondOf(ClockText(tm, sep), zone);
  }

  lemma SecondOf(a: string, b: string)
    requires |a| >= 2
    ensures |a + b| >= |a| && (a + b)[0] == a[0] && (a + b)[1] == a[1]
  {
  }

  lemma ClockStarts(tm: Tm, sep: string)
    requires InRange(tm)
    ensures |ClockText(tm, sep)| >= 6 && IsDigit(ClockText(tm, sep)[0]) && IsDigit(ClockText(tm, sep)[1])
  {
    TwoDigits(tm.hour);
    TwoDigits(tm.min);
    TwoDigits(tm.sec);
    var h := PadDec(tm.hour, 2);
    assert ClockText(tm, sep)[0] == h[0] && ClockText(tm, sep)[1] == h[1];
  }

  lemma IsoWhole(tm: Tm, dateSep: string, clockSep: string, zone: string, f: Fields)
    requires InRange(tm) && ShortYear(tm)
    requires (dateSep == "" && clockSep == "") || (dateSep == "-" && clockSep == ":")
    ensures ParseDateTime(DateText(tm, dateSep) + ("T" + (ClockText(tm, clockSep) + zone)), f)
         == ParseZone(SkipChar(zone, ' '), FieldsOf(tm, f.gmtoff))
  {
    hide ParseDateTime, ParseTime, ParseZone, ParseDate, DateText, ClockText, SkipChar;
    DateFacts(tm, dateSep, f);
    ClockFacts(tm, clockSep, zone, ParseDate(DateText(tm, dateSep), f).1);
    IsoText(DateText(tm, dateSep), ClockText(tm, clockSep) + zone, f);
  }

  lemma RfcWhole(tm: Tm, wday: nat, zone: string, f: Fields)
    requires InRange(tm) && FourDigitYear(tm) && wday < 7
    ensures ParseDateTime(RfcDateText(tm, wday) + (" " + (ClockText(tm, ":") + (" " + zone))), f)
         == ParseZone(zone, FieldsOf(tm, f.gmtoff))
  {
    hide ParseDateTime, ParseTime, ParseZone, ParseDateRfc1123, RfcDateText, ClockText, IndexOf;
    var rest := ClockText(tm, ":") + (" " + zone);
    ParseRfcDateOfText(tm, wday, " " + rest, f);
    RfcWidth(tm, wday);
    ClockFacts(tm, ":", " " + zone, ParseDateRfc1123(RfcDateText(tm, wday) + (" " + rest), f).1);
    RfcText(RfcDateText(tm, wday), rest, f, wday);
    assert SkipChar(" " + zone, ' ') == zone;
  }

  lemma ParseOfText(tm: Tm, wday: nat, offset: int, fmt: Format, f: Fields)
    requires InRange(tm) && YearFits(tm, fmt) && wday < 7
    requires -360000 < offset < 360000
    ensures ParseDateTime(TextOf(tm, wday, offset, fmt), f) == (0, FieldsOf(tm, WholeMinutePart(offset)))
  {
    hide ParseDateTime, ParseZone, DateText, ClockText, ZoneText, RfcDateText;
    var g := FieldsOf(tm, f.gmtoff);
    match fmt
    case ISO8601_SHORT =>
      IsoWhole(tm, "", "", ZoneText(offset, ""), f);
      ParseZoneOfText(offset, "", g);
    case ISO8601_LONG =>
      IsoWhole(tm, "-", ":", ZoneText(offset, ":"), f);
      ParseZoneOfText(offset, ":", g);
    case RFC1123 =>
      RfcWhole(tm, wday, if offset == 0 then "GMT" else ZoneText(offset, ""), f);
      if offset == 0 {
        ZeroZoneIsZero("GMT", g);
      } else {
        ParseZoneOfText(offset, "", g);
      }
  }

  lemma GmTimeIsExact(t: int)
    requires FitsInt(GmTime(t).year) && FitsInt(GmTime(t).year + 1900)
    ensures RealTm(GmTime(t)) && LocalSeconds(GmTime(t)) == t
  {
    hide CivilDate, DayCount, ValidDate;
    DayCountOfCivil(t / 86400);
    SecondsOfDay(t % 86400);
    assert DateOf(GmTime(t)) == CivilDate(t / 86400);
  }

  lemma SecondsOfDay(s: int)
    requires 0 <= s < 86400
    ensures 0 <= s / 3600 < 24 && 0 <= s % 3600 / 60 < 60 && 0 <= s % 60 < 60
    ensures s == s / 3600 * 3600 + s % 3600 / 60 * 60 + s % 60
  {
    var r := s % 3600;
    assert r == r / 60 * 60 + r % 60;
    assert r % 60 == s % 60;
  }

  lemma TwoDigitNumber(s: string)
    requires |s| == 2 && AllDigits(s)
    ensures ParseNum(s) == (true, 10 * DigitValue(s[0]) + DigitValue(s[1]))
  {
    ParseNumOfDigits(s);
    assert s[..1] == [s[0]] && s[..1][..0] == "";
    assert NumberOf(s[..1]) == DigitValue(s[0]);
  }

  /** An accepted text whose month is past the table. */
  lemma FifteenthMonth()
    ensures LocalParse("2021-15-01T00:00:00Z") == OutOfTable
  {
    hide ParseDate, ParseTime, ParseDateTime, LocalParse;
    var blank := Fields(0, 0, 0, 0, 0, 0, 0);
    FifteenthDate(blank);
    Midnight(ParseDate("2021-15-01", blank).1);
    assert "T00:00:00Z" == "T" + "00:00:00Z" && "2021-15-01T00:00:00Z" == "2021-15-01" + ("T" + "00:00:00Z");
    IsoText("2021-15-01", "00:00:00Z", blank);
    OutOfTableExactly("2021-15-01T00:00:00Z");
  }

  lemma FifteenthDate(f: Fields)
    ensures ParseDate("2021-15-01", f).0 == 0 && ParseDate("2021-15-01", f).1.mon == 15
  {
    hide ParseNum, NumberOf;
    ParseNumOfDigits("2021");
    TwoDigitNumber("15");
    TwoDigitNumber("01");
    assert "2021-15-01" == "2021" + "-" + "15" + "-" + "01";
    DashedDate("2021", "15", "01", f);
  }

  lemma Midnight(f: Fields)
    ensures ParseTime("T00:00:00Z", f).0 == 0 && ParseTime("T00:00:00Z", f).1.mon == f.mon
  {
    hide ParseNum, NumberOf, ParseTime;
    TwoDigitNumber("00");
    ColonClock("00", "00", "00", "Z", f);
    LeadingT("00:00:00Z", f);
    assert "00" + ":" + "00" + ":" + "00" + "Z" == "00:00:00Z" && "T" + "00:00:00Z" == "T00:00:00Z";
    TimeKeepsDate("T00:00:00Z", f);
  }

  lemma LocalParseOfFields(s: string, tm: Tm, offset: int)
    requires ParseDateTime(s, Fields(0, 0, 0, 0, 0, 0, 0)) == (0, FieldsOf(tm, offset))
    requires RealTm(tm)
    ensures InTable(tm) && LocalParse(s) == LocalTime(MkEpochLocal(tm, offset), offset)
  {
    hide MkEpochLocal;
    MkEpochExactly(tm, offset);
  }

  /** Parsing what was printed, for the years and offsets that fit the format. */
  lemma RoundTripOfTm(tm: Tm, wday: nat, offset: int, fmt: Format)
    requires -360000 < offset < 360000
    requires RealTm(tm) && InRange(tm) && YearFits(tm, fmt) && wday < 7
    ensures InTable(tm)
    ensures LocalParse(TextOf(tm, wday, offset, fmt))
         == LocalTime(MkEpochLocal(tm, WholeMinutePart(offset)), WholeMinutePart(offset))
  {
    hide ParseDateTime, TextOf, MkEpochLocal;
    ParseOfText(tm, wday, offset, fmt, Fields(0, 0, 0, 0, 0, 0, 0));
    LocalParseOfFields(TextOf(tm, wday, offset, fmt), tm, WholeMinutePart(offset));
  }

  lemma RoundTripExactlyOfTm(tm: Tm, wday: nat, offset: int, fmt: Format)
    requires -360000 < offset < 360000
    requires RealTm(tm) && InRange(tm) && YearFits(tm, fmt) && wday < 7
    ensures LocalParse(TextOf(tm, wday, offset, fmt)).LocalTime?
    ensures LocalParse(TextOf(tm, wday, offset, fmt)).offset == WholeMinutePart(offset)
    ensures var whole := LocalTime(U64(LocalSeconds(tm) - WholeMinutePart(offset)), WholeMinutePart(offset));
            LocalParse(TextOf(tm, wday, offset, fmt)) == whole <==> ValidTm(tm)
  {
    hide LocalParse, TextOf, MkEpochLocal, LocalSeconds, WholeMinutePart, U64, RealTm, ValidTm, InTable, YearFits;
    RoundTripOfTm(tm, wday, offset, fmt);
    MkEpochExactly(tm, WholeMinutePart(offset));
  }

  lemma RoundTripAt(t: int, offset: int, fmt: Format)
    requires -360000 < offset < 360000
    requires YearFits(GmTime(t), fmt)
    ensures LocalParse(TextAt(t, offset, fmt)).LocalTime?
    ensures LocalParse(TextAt(t, offset, fmt)).offset == WholeMinutePart(offset)
    ensures var whole := LocalTime(U64(t - WholeMinutePart(offset)), WholeMinutePart(offset));
            LocalParse(TextAt(t, offset, fmt)) == whole <==> ValidTm(GmTime(t))
  {
    hide LocalParse, TextOf, WholeMinutePart, U64, RealTm, ValidTm, YearFits, LocalSeconds, InRange, FitsInt;
    hide GmTime, Weekday;
    ShortFits(GmTime(t), fmt);
    GmTimeIsExact(t);
    RoundTripExactlyOfTm(GmTime(t), Weekday(t), offset, fmt);
  }

  lemma ShortFits(tm: Tm, fmt: Format)
    requires YearFits(tm, fmt)
    ensures FitsInt(tm.year) && FitsInt(tm.year + 1900)
  {
  }

  // ----- the forms that are only parsed

  /** The four names of a zero offset. */
  predicate ZeroZone(z: string) {
    z == "Z" || z == "UT" || z == "GMT" || z == "UTC"
  }

  lemma ZeroZoneIsZero(z: string, f: Fields)
    requires ZeroZone(z)
    ensures ParseZone(z, f) == (0, f.(gmtoff := 0)) && SkipChar(z, ' ') == z
  {
    hide ParseNum;
    TwoDigitNumber("00");
  }

  lemma InvertedSlices(w: string, m: string, d: string, y: string, rest: string)
    requires |w| == 3 && 1 <= |d| <= 2 && AllDigits(d) && |m| == 3 && |y| == 4
    ensures var s, e := w + ", " + m + " " + d + " " + y + rest, 9 + |d|;
            && |s| >= e + 5 && s[3] == ',' && s[5] == m[0] && DayEnd(s, 9) == e
            && s[5..8] == m && s[9..e] == d && s[e + 1..e + 5] == y
  {
    var s := w + ", " + m + " " + d + " " + y + rest;
    var e := 9 + |d|;
    assert s[e] == ' ';
    assert |d| == 2 ==> s[10] == d[1];
  }

  /** An RFC 1123 date with the month before the day. */
  lemma InvertedSplits(w: string, m: string, d: string, y: string, rest: string, f: Fields)
    requires |w| == 3 && 1 <= |d| <= 2 && AllDigits(d) && |m| == 3 && !IsDigit(m[0]) && |y| == 4
    requires IndexOf(MON_STR, m) < 12 && ParseNum(y).0 && ParseNum(d).0
    requires |w + ", " + m + " " + d + " " + y + rest| >= 16
    ensures ParseDateRfc1123(w + ", " + m + " " + d + " " + y + rest, f)
         == (|w + ", " + m + " " + d + " " + y|,
             f.(year := ParseNum(y).1, mon := IndexOf(MON_STR, m) + 1, mday := ParseNum(d).1))
  {
    hide ParseNum, IndexOf, DayEnd, AllDigits;
    InvertedSlices(w, m, d, y, rest);
  }

  function InvertedDateText(tm: Tm, wday: nat, padded: bool): string
    requires InRange(tm) && wday < 7
  {
    var day := if padded then PadDec(tm.mday, 2) else Dec(tm.mday);
    WDAY_STR[wday] + ", " + MON_STR[tm.mon] + " " + day + " " + Dec(YearField(tm))
  }

  lemma InvertedDateReadsBack(tm: Tm, wday: nat, padded: bool, rest: string, f: Fields)
    requires InRange(tm) && FourDigitYear(tm) && wday < 7 && rest != ""
    ensures var date := InvertedDateText(tm, wday, padded);
            && |date + rest| >= 16 && WDAY_STR[wday] <= date
            && ParseDateRfc1123(date + rest, f)
               == (|date|, f.(year := tm.year + 1900, mon := tm.mon + 1, mday := tm.mday))
  {
    hide ParseDateRfc1123, Dec, PadDec, ParseNum, IndexOf;
    var w, m, y: nat, d: nat := WDAY_STR[wday], MON_STR[tm.mon], tm.year + 1900, tm.mday;
    FourDigits(y);
    TwoDigits(d);
    NamesAreThree(wday, tm.mon);
    MonthReadsBack(tm.mon);
    MonthIsNoDigit(tm.mon);
    ReadsBackPlain(y);
    ReadsBackPlain(d);
    ReadsBack(d, 2);
    InvertedSplits(w, m, if padded then PadDec(d, 2) else Dec(d), Dec(y), rest, f);
  }

  lemma MonthIsNoDigit(k: nat)
    requires k < 12
    ensures |MON_STR[k]| == 3 && !IsDigit(MON_STR[k][0])
  {
  }

  /** A whole time with an inverted date reads back every field, under each name of a zero offset. */
  lemma InvertedReadsBack(tm: Tm, wday: nat, padded: bool, zone: string, f: Fields)
    requires InRange(tm) && FourDigitYear(tm) && wday < 7 && ZeroZone(zone)
    ensures ParseDateTime(InvertedDateText(tm, wday, padded) + (" " + (ClockText(tm, ":") + (" " + zone))), f)
         == (0, FieldsOf(tm, 0))
  {
    hide ParseDateTime, ParseTime, ParseZone, ParseDateRfc1123, InvertedDateText, ClockText, IndexOf;
    var rest := ClockText(tm, ":") + (" " + zone);
    InvertedDateReadsBack(tm, wday, padded, " " + rest, f);
    var g := ParseDateRfc1123(InvertedDateText(tm, wday, padded) + (" " + rest), f).1;
    ClockFacts(tm, ":", " " + zone, g);
    RfcText(InvertedDateText(tm, wday, padded), rest, f, wday);
    assert SkipChar(" " + zone, ' ') == zone;
    ZeroZoneIsZero(zone, g.(hour := tm.hour, min := tm.min, sec := tm.sec));
  }

  // ----- texts that do not parse

  /** A date of digits and dashes too long for either ISO form. */
  lemma NotAnIsoDate(date: string, rest: string, f: Fields)
    requires |date| >= 9 && IsDigit(date[0]) && (|date| == 10 ==> date[4] != '-')
    requires forall i :: 0 <= i < |date| ==> IsDigit(date[i]) || date[i] == '-'
    requires rest != "" && IsDigit(rest[0])
    ensures ParseDateTime(date + ("T" + rest), f).0 < 0
  {
    hide ParseNum, ParseYmd, ParseTime, ParseDateRfc1123, IndexOf, AllDigits;
    var s := date + ("T" + rest);
    assert s[0] == date[0] && s[8] == date[8];
    WeekdayIsNoDigit(s);
    if |date| == 9 {
      assert s[10] == rest[0];
    } else if |date| == 10 {
      assert s[..10] == date;
    } else {
      assert s[10] == date[10];
    }
  }

  lemma LongYearFails(y: string, m: string, d: string, sep: string, rest: string, f: Fields)
    requires |y| >= 5 && |m| == 2 && |d| == 2 && AllDigits(y) && AllDigits(m) && AllDigits(d)
    requires sep == "" || sep == "-"
    requires rest != "" && IsDigit(rest[0])
    ensures ParseDateTime(y + sep + m + sep + d + ("T" + rest), f).0 < 0
  {
    hide ParseDateTime;
    var date := y + sep + m + sep + d;
    assert date[0] == y[0] && date[4] == y[4];
    if sep == "" {
      assert date == y + m + d;
    } else {
      assert date == y + "-" + m + "-" + d;
    }
    NotAnIsoDate(date, rest, f);
  }

  /** An ISO date with a year of five digits or more. */
  lemma IsoYearFails(tm: Tm, sep: string, rest: string, f: Fields)
    requires InRange(tm) && YearField(tm) >= 10000
    requires sep == "" || sep == "-"
    requires rest != "" && IsDigit(rest[0])
    ensures ParseDateTime(DateText(tm, sep) + ("T" + rest), f).0 < 0
  {
    hide ParseDateTime, PadDec;
    LongPad(YearField(tm));
    TwoDigits(tm.mon + 1);
    TwoDigits(tm.mday);
    LongYearFails(PadDec(YearField(tm), 4), PadDec(tm.mon + 1, 2), PadDec(tm.mday, 2), sep, rest, f);
  }

  lemma LongPad(n: nat)
    requires n >= 10000
    ensures |PadDec(n, 4)| >= 5 && PadDec(n, 4) == Dec(n)
  {
    TenThousand();
    DecLength(n, 4);
  }

  lemma TenThousand()
    ensures PowerOfTen(2) == 100 && PowerOfTen(3) == 1000 && PowerOfTen(4) == 10000
    ensures PowerOfTen(10) == 10000000000
  {
    assert PowerOfTen(1) == 10 && PowerOfTen(2) == 10 * PowerOfTen(1) && PowerOfTen(3) == 10 * PowerOfTen(2);
    assert PowerOfTen(5) == 10 * PowerOfTen(4) && PowerOfTen(6) == 10 * PowerOfTen(5);
    assert PowerOfTen(8) == 10 * PowerOfTen(7) && PowerOfTen(9) == 10 * PowerOfTen(8);
  }

  // numbers with something behind them

  lemma {:induction false} DigitRunStops(digits: string, tail: string)
    requires AllDigits(digits) && tail != "" && !IsDigit(tail[0])
    ensures DigitRun(digits + tail) == |digits|
  {
    var s := digits + tail;
    if digits == "" {
      assert s == tail;
    } else {
      assert s[0] == digits[0] && s[1..] == digits[1..] + tail;
      DigitRunStops(digits[1..], tail);
    }
  }

  lemma NumberStops(digits: string, tail: string)
    requires digits != "" && AllDigits(digits) && tail != "" && !IsDigit(tail[0])
    ensures !ParseNum(digits + tail).0
  {
    var s := digits + tail;
    assert IsDigit(digits[0]) && s[0] == digits[0];
    assert SkipSpaces(s) == s;
    DigitRunStops(digits, tail);
  }

  lemma RfcBadYear(w: string, d: string, m: string, y: string, rest: string, f: Fields)
    requires |w| == 3 && 1 <= |d| <= 2 && AllDigits(d) && |m| == 3 && |y| == 4
    requires !ParseNum(y).0
    requires |w + ", " + d + " " + m + " " + y + rest| >= 16
    ensures ParseDateRfc1123(w + ", " + d + " " + m + " " + y + rest, f).0 < 0
  {
    hide ParseNum;
    var s := w + ", " + d + " " + m + " " + y + rest;
    var e := 5 + |d|;
    assert s[3] == ',' && s[5] == d[0] && s[e] == ' ';
    assert |d| == 2 ==> s[6] == d[1];
    assert DayEnd(s, 5) == e;
    assert s[e + 5..e + 9] == y;
  }

  lemma RfcTextFails(date: string, rest: string, f: Fields, w: nat)
    requires w < 7 && WDAY_STR[w] <= date && |date + rest| >= 16
    requires ParseDateRfc1123(date + rest, f).0 < 0
    ensures ParseDateTime(date + rest, f).0 < 0
  {
    hide ParseDateRfc1123;
    assert WDAY_STR[w] <= date + rest;
  }

  /** An RFC 1123 date with a year of one to three digits: the space behind it is taken for a digit. */
  lemma RfcShortYearFails(tm: Tm, wday: nat, rest: string, f: Fields)
    requires InRange(tm) && YearField(tm) < 1000 && wday < 7 && |rest| >= 9
    ensures ParseDateTime(RfcDateText(tm, wday) + (" " + rest), f).0 < 0
  {
    hide Dec, ParseNum, ParseDateRfc1123, ParseDateTime, IndexOf;
    var w, d, m, y := WDAY_STR[wday], Dec(tm.mday), MON_STR[tm.mon], Dec(YearField(tm));
    TwoDigits(tm.mday);
    NamesAreThree(wday, tm.mon);
    ShortDec(YearField(tm));
    var tail := (" " + rest)[..4 - |y|];
    var s := RfcDateText(tm, wday) + (" " + rest);
    assert s == w + ", " + d + " " + m + " " + (y + tail) + (" " + rest)[4 - |y|..];
    NumberStops(y, tail);
    RfcBadYear(w, d, m, y + tail, (" " + rest)[4 - |y|..], f);
    RfcTextFails(RfcDateText(tm, wday), " " + rest, f, wday);
  }

  lemma ShortDec(n: nat)
    requires n < 1000
    ensures 1 <= |Dec(n)| <= 3
  {
    TenThousand();
    DecLength(n, 3);
  }

  lemma NamesAreThree(wday: nat, mon: nat)
    requires wday < 7 && mon < 12
    ensures |WDAY_STR[wday]| == 3 && |MON_STR[mon]| == 3
  {
  }

  /** A clock behind the last digits of a long year. */
  lemma TimeAfterDigits(e: string, c: string, f: Fields)
    requires 1 <= |e| <= 6 && AllDigits(e)
    requires |c| >= 12 && IsDigit(c[0]) && IsDigit(c[1]) && c[2] == ':'
    ensures ParseTime(e + (" " + c), f).0 < 0
  {
    hide ParseNum;
    var t := e + (" " + c);
    assert t[0] == e[0] && t[|e|] == ' ' && t[|e| + 1] == c[0] && t[|e| + 2] == c[1] && t[|e| + 3] == ':';
    assert SkipChar(t, 'T') == t;
    assert t[2] != ':';
    if |e| == 1 {
      NumberStops(e, " ");
      assert t[0..2] == e + " ";
    } else if |e| == 2 {
      NumberStops([c[1]], ":");
      assert t[4..6] == [c[1]] + ":";
    } else if |e| == 3 {
      NumberStops([e[2]], " ");
      assert t[2..4] == [e[2]] + " ";
    } else if |e| == 4 {
      assert t[6..] == c[1..];
    } else if |e| == 5 {
      NumberStops([e[4]], " ");
      assert t[4..6] == [e[4]] + " ";
    } else {
      assert t[6..] == " " + c;
    }
  }

  /** An RFC 1123 date with a year of five digits or more: only its first four are taken. */
  lemma RfcLongYearFails(tm: Tm, wday: nat, c: string, f: Fields)
    requires InRange(tm) && YearField(tm) >= 10000 && wday < 7
    requires |c| >= 12 && IsDigit(c[0]) && IsDigit(c[1]) && c[2] == ':'
    ensures ParseDateTime(RfcDateText(tm, wday) + (" " + c), f).0 < 0
  {
    hide Dec, ParseNum, ParseDateRfc1123, ParseTime, ParseDateTime, IndexOf;
    var w, d, m, y := WDAY_STR[wday], Dec(tm.mday), MON_STR[tm.mon], Dec(YearField(tm));
    TwoDigits(tm.mday);
    MonthReadsBack(tm.mon);
    LongDec(YearField(tm));
    ParseNumOfDigits(d);
    ParseNumOfDigits(y[..4]);
    var head, rest := w + ", " + d + " " + m + " " + y[..4], y[4..] + (" " + c);
    assert y == y[..4] + y[4..];
    var s := RfcDateText(tm, wday) + (" " + c);
    assert s == head + rest;
    NamesAreThree(wday, tm.mon);
    RfcSplits(w, d, m, y[..4], rest, f);
    RfcRest(head, rest, wday, f);
    TimeAfterDigits(y[4..], c, ParseDateRfc1123(s, f).1);
  }

  lemma LongDec(n: nat)
    requires 10000 <= n < TWO32
    ensures 5 <= |Dec(n)| <= 10
  {
    TenThousand();
    DecLength(n, 4);
    DecLength(n, 10);
  }

  lemma RfcRest(head: string, rest: string, w: nat, f: Fields)
    requires w < 7 && WDAY_STR[w] <= head && |head + rest| >= 16
    requires ParseDateRfc1123(head + rest, f).0 == |head|
    requires rest != "" && rest[0] != ' '
    ensures ParseDateTime(head + rest, f) == ParseTime(rest, ParseDateRfc1123(head + rest, f).1)
  {
    hide ParseDateRfc1123, ParseTime;
    assert WDAY_STR[w] <= head + rest;
    Halves(head, rest);
  }

  /** An offset of a hundred hours or more takes more characters than a zone may have. */
  lemma LongOffsetFails(offset: int, sep: string, f: Fields)
    requires offset <= -360000 || 360000 <= offset
    requires sep == "" || sep == ":"
    ensures SkipChar(ZoneText(offset, sep), ' ') == ZoneText(offset, sep)
    ensures ParseZone(ZoneText(offset, sep), f).0 < 0
  {
    hide PadDec, ParseNum;
    var size := if offset < 0 then -offset else offset;
    var sign, h, m := if offset < 0 then "-" else "+", PadDec(size / 3600, 2), PadDec(size / 60 % 60, 2);
    LongHour(size / 3600);
    TwoDigits(size / 60 % 60);
    var z := sign + h + sep + m;
    assert z == ZoneText(offset, sep) && z[0] == sign[0] && z[3] == h[2];
  }

  lemma LongHour(n: nat)
    requires n >= 100
    ensures |PadDec(n, 2)| >= 3
  {
    TenThousand();
    DecLength(n, 2);
  }

  /**
   * Round trip: in each of the three formats, the text printed for an instant whose local year has
   * four digits, with an offset below a hundred hours, parses; it gives back the same epoch and
   * offset exactly when the offset is a whole number of minutes.
   */
  lemma ParseInvertsFormat(epoch: int, offset: int, fmt: Format)
    requires 0 <= epoch < TWO64
    requires -360000 < offset < 360000
    requires FourDigitYear(GmTime(SignedTime(epoch + offset)))
    ensures LocalParse(FormatText(epoch, offset, fmt)).LocalTime?
    ensures LocalParse(FormatText(epoch, offset, fmt)) == LocalTime(epoch, offset) <==> offset % 60 == 0
  {
    hide LocalParse, TextAt, GmTime, SignedTime, WholeMinutePart;
    var t := SignedTime(epoch + offset);
    FourDigitsFit(GmTime(t), fmt);
    RoundTripAt(t, offset, fmt);
    RoundTripExactly(epoch, offset, fmt);
  }

  lemma LongField(tm: Tm, fmt: Format)
    requires FitsInt(tm.year) && FitsInt(tm.year + 1900) && !YearFits(tm, fmt)
    ensures if fmt == RFC1123 then YearField(tm) < 1000 || 10000 <= YearField(tm) else 10000 <= YearField(tm)
  {
  }

  lemma ClockChars(tm: Tm, sep: string, tail: string)
    requires InRange(tm)
    ensures var c := ClockText(tm, sep) + tail;
            && |c| >= 6 + |tail| && IsDigit(c[0]) && IsDigit(c[1])
            && (sep == ":" ==> |c| == 8 + |tail| && c[2] == ':')
  {
    hide PadDec;
    TwoDigits(tm.hour);
    TwoDigits(tm.min);
    TwoDigits(tm.sec);
    var c, h := ClockText(tm, sep) + tail, PadDec(tm.hour, 2);
    assert c[0] == h[0] && c[1] == h[1];
    assert sep == ":" ==> c[2] == sep[0];
  }

  lemma LongYearTextFails(tm: Tm, wday: nat, offset: int, fmt: Format, f: Fields)
    requires InRange(tm) && FitsInt(tm.year) && FitsInt(tm.year + 1900) && wday < 7
    requires !YearFits(tm, fmt)
    ensures ParseDateTime(TextOf(tm, wday, offset, fmt), f).0 < 0
  {
    hide ParseDateTime, DateText, ClockText, ZoneText, RfcDateText, YearFits, YearField, FitsInt;
    LongField(tm, fmt);
    match fmt
    case ISO8601_SHORT =>
      ClockChars(tm, "", ZoneText(offset, ""));
      IsoYearFails(tm, "", ClockText(tm, "") + ZoneText(offset, ""), f);
    case ISO8601_LONG =>
      ClockChars(tm, ":", ZoneText(offset, ":"));
      IsoYearFails(tm, "-", ClockText(tm, ":") + ZoneText(offset, ":"), f);
    case RFC1123 =>
      var zone := " " + if offset == 0 then "GMT" else ZoneText(offset, "");
      ZoneChars(offset);
      ClockChars(tm, ":", zone);
      if YearField(tm) < 1000 {
        RfcShortYearFails(tm, wday, ClockText(tm, ":") + zone, f);
      } else {
        RfcLongYearFails(tm, wday, ClockText(tm, ":") + zone, f);
      }
  }

  lemma ZoneChars(offset: int)
    ensures |ZoneText(offset, "")| >= 3
  {
    hide PadDec;
  }

  lemma LongOffsetTextFails(tm: Tm, wday: nat, offset: int, fmt: Format, f: Fields)
    requires InRange(tm) && YearFits(tm, fmt) && wday < 7
    requires offset <= -360000 || 360000 <= offset
    ensures ParseDateTime(TextOf(tm, wday, offset, fmt), f).0 < 0
  {
    hide ParseDateTime, ParseZone, DateText, ClockText, ZoneText, RfcDateText;
    var g := FieldsOf(tm, f.gmtoff);
    match fmt
    case ISO8601_SHORT =>
      IsoWhole(tm, "", "", ZoneText(offset, ""), f);
      LongOffsetFails(offset, "", g);
    case ISO8601_LONG =>
      IsoWhole(tm, "-", ":", ZoneText(offset, ":"), f);
      LongOffsetFails(offset, ":", g);
    case RFC1123 =>
      RfcWhole(tm, wday, ZoneText(offset, ""), f);
      LongOffsetFails(offset, "", g);
  }

  /** Without the bounds nothing printed parses. */
  lemma TextFails(t: int, offset: int, fmt: Format)
    requires FitsInt(GmTime(t).year) && FitsInt(GmTime(t).year + 1900)
    requires !YearFits(GmTime(t), fmt) || offset <= -360000 || 360000 <= offset
    ensures LocalParse(TextAt(t, offset, fmt)).Failed?
  {
    hide ParseDateTime, TextOf, GmTime, Weekday, YearFits, FitsInt, InRange;
    var blank := Fields(0, 0, 0, 0, 0, 0, 0);
    if YearFits(GmTime(t), fmt) {
      LongOffsetTextFails(GmTime(t), Weekday(t), offset, fmt, blank);
    } else {
      LongYearTextFails(GmTime(t), Weekday(t), offset, fmt, blank);
    }
  }

  /** The years that survive: in the ISO forms, of year 0 only the months after February. */
  predicate YearReadsBack(tm: Tm, fmt: Format) {
    var year := tm.year + 1900;
    if fmt == RFC1123 then 1000 <= year < 10000
    else 1 <= year < 10000 || (year == 0 && tm.mon >= 2)
  }

  lemma YearReadsBackExactly(tm: Tm, fmt: Format)
    requires RealTm(tm)
    ensures YearReadsBack(tm, fmt) <==> YearFits(tm, fmt) && ValidTm(tm)
  {
  }

  /**
   * For every instant and offset that time_local_format accepts, parsing gives back the same epoch
   * and offset exactly when the offset is a whole number of minutes of less than a hundred hours and
   * the local year is one that the format can hold.
   */
  lemma RoundTripExactly(epoch: int, offset: int, fmt: Format)
    requires 0 <= epoch < TWO64
    requires var year := GmTime(SignedTime(epoch + offset)).year; FitsInt(year) && FitsInt(year + 1900)
    ensures LocalParse(FormatText(epoch, offset, fmt)) == LocalTime(epoch, offset) <==>
              && offset % 60 == 0 && -360000 < offset < 360000
              && YearReadsBack(GmTime(SignedTime(epoch + offset)), fmt)
  {
    hide LocalParse, TextAt, GmTime, SignedTime, WholeMinutePart, U64, LocalSeconds;
    hide YearFits, ValidTm, RealTm, YearReadsBack, FitsInt;
    var t := SignedTime(epoch + offset);
    GmTimeIsExact(t);
    YearReadsBackExactly(GmTime(t), fmt);
    if YearFits(GmTime(t), fmt) && -360000 < offset < 360000 {
      RoundTripAt(t, offset, fmt);
      SignedWraps(epoch, offset);
      Small(epoch);
      WholeMinuteFixpoint(offset);
    } else {
      TextFails(t, offset, fmt);
    }
  }

  lemma FourDigitsFit(tm: Tm, fmt: Format)
    requires FourDigitYear(tm)
    ensures YearFits(tm, fmt) && YearReadsBack(tm, fmt) && FitsInt(tm.year) && FitsInt(tm.year + 1900)
  {
  }

  lemma WholeMinuteFixpoint(offset: int)
    ensures WholeMinutePart(offset) == offset <==> offset % 60 == 0
  {
  }

  lemma SignedWraps(epoch: int, offset: int)
    ensures U64(SignedTime(epoch + offset) - offset) == U64(epoch)
  {
    var q := (epoch + offset) / TWO64;
    WholeTurns(epoch, -q);
    WholeTurns(epoch, -q - 1);
  }
}
