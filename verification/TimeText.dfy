/** The three printed forms of a local time, and the parser that accepts them. */
module TimeText {
  import opened Common
  import opened Calendar
  import opened Decimal
  import opened Epoch

  const WDAY_STR: seq<string> := ["Sun", "Mon", "Tue", "Wed", "Thu", "Fri", "Sat"]
  const MON_STR: seq<string> := ["Jan", "Feb", "Mar", "Apr", "May", "Jun", "Jul", "Aug", "Sep", "Oct", "Nov", "Dec"]

  datatype Format = ISO8601_SHORT | ISO8601_LONG | RFC1123

  // ----- printing

  /** A 64-bit time_t read as signed. */
  function SignedTime(t: int): int {
    if U64(t) < TWO64 / 2 then U64(t) else U64(t) - TWO64
  }

  /** Every field but the year within the range gmtime_r gives it. */
  predicate InRange(tm: Tm) {
    && 0 <= tm.mon < 12 && 1 <= tm.mday <= 31
    && 0 <= tm.hour < 24 && 0 <= tm.min < 60 && 0 <= tm.sec < 60
  }

  predicate FourDigitYear(tm: Tm) {
    1000 <= tm.year + 1900 < 10000
  }

  /** A year that fills four characters when it is padded. */
  predicate ShortYear(tm: Tm) {
    0 <= tm.year + 1900 < 10000
  }

  /** The years of which a format prints what it can parse. */
  predicate YearFits(tm: Tm, fmt: Format) {
    if fmt == RFC1123 then FourDigitYear(tm) else ShortYear(tm)
  }

  /** gmtime_r: the civil date of the day and the time within it. */
  function GmTime(t: int): (tm: Tm)
    ensures InRange(tm)
  {
    var d, s := CivilDate(t / 86400), t % 86400;
    Tm(d.year - 1900, d.month - 1, d.day, s / 3600, s % 3600 / 60, s % 60)
  }

  function Weekday(t: int): (w: int)
    ensures 0 <= w < 7
  {
    (t / 86400 + 4) % 7
  }

  /** The year as %u prints it. */
  function YearField(tm: Tm): (y: nat)
    ensures 0 <= tm.year + 1900 < TWO32 ==> y == tm.year + 1900
  {
    U32(tm.year + 1900)
  }

  function DateText(tm: Tm, sep: string): string
    requires InRange(tm)
  {
    PadDec(YearField(tm), 4) + sep + PadDec(tm.mon + 1, 2) + sep + PadDec(tm.mday, 2)
  }

  function ClockText(tm: Tm, sep: string): string
    requires InRange(tm)
  {
    PadDec(tm.hour, 2) + sep + PadDec(tm.min, 2) + sep + PadDec(tm.sec, 2)
  }

  function ZoneText(offset: int, sep: string): string {
    var size := if offset < 0 then -offset else offset;
    (if offset < 0 then "-" else "+") + PadDec(size / 3600, 2) + sep + PadDec(size / 60 % 60, 2)
  }

  function RfcDateText(tm: Tm, wday: nat): string
    requires InRange(tm) && wday < 7
  {
    WDAY_STR[wday] + ", " + Dec(tm.mday) + " " + MON_STR[tm.mon] + " " + Dec(YearField(tm))
  }

  function TextOf(tm: Tm, wday: nat, offset: int, fmt: Format): string
    requires InRange(tm) && wday < 7
  {
    match fmt
    case ISO8601_SHORT => DateText(tm, "") + ("T" + (ClockText(tm, "") + ZoneText(offset, "")))
    case ISO8601_LONG => DateText(tm, "-") + ("T" + (ClockText(tm, ":") + ZoneText(offset, ":")))
    case RFC1123 =>
      RfcDateText(tm, wday)
      + (" " + (ClockText(tm, ":") + (" " + if offset == 0 then "GMT" else ZoneText(offset, ""))))
  }

  function TextAt(t: int, offset: int, fmt: Format): string {
    TextOf(GmTime(t), Weekday(t), offset, fmt)
  }

  /** What time_local_format prints, before snprintf truncates it. */
  function FormatText(epoch: int, offset: int, fmt: Format): string {
    TextAt(SignedTime(epoch + offset), offset, fmt)
  }

  /** time_local_format: the text, or as much of it as leaves room for the final NUL. */
  method LocalFormat(epoch: int, offset: int, fmt: Format, s: array<char>) returns (ret: int)
    modifies s
    ensures s.Length == 0 ==> ret == -EINVAL
    ensures s.Length > 0 && !FitsInt(GmTime(SignedTime(epoch + offset)).year) ==> ret == -EOVERFLOW
    ensures ret != 0 ==> s[..] == old(s[..])
    ensures s.Length > 0 && FitsInt(GmTime(SignedTime(epoch + offset)).year) ==>
              var text := FormatText(epoch, offset, fmt);
              var k := if |text| < s.Length then |text| else s.Length - 1;
              ret == 0 && s[..] == text[..k] + ['\0'] + old(s[k + 1..])
  {
    hide FormatText, GmTime, SignedTime;
    if s.Length == 0 {
      return -EINVAL;
    }
    if !FitsInt(GmTime(SignedTime(epoch + offset)).year) {
      return -EOVERFLOW;
    }
    var text := FormatText(epoch, offset, fmt);
    var k := if |text| < s.Length then |text| else s.Length - 1;
    forall i | 0 <= i < k {
      s[i] := text[i];
    }
    s[k] := '\0';
    return 0;
  }

  /** gmtime_r fails when the year does not fit its int field. */
  predicate FitsInt(year: int) {
    -TWO32 / 2 <= year < TWO32 / 2
  }

  // ----- parsing

  /** The out-parameters of the parsers; a failing parse may have overwritten some of them. */
  datatype Fields = Fields(year: int, mon: int, mday: int, hour: int, min: int, sec: int, gmtoff: int)

  function IndexOf(names: seq<string>, s: string): (i: nat)
    ensures i <= |names|
    ensures i < |names| ==> names[i] <= s
    ensures forall j :: 0 <= j < i ==> !(names[j] <= s)
  {
    if names == [] || names[0] <= s then 0 else 1 + IndexOf(names[1..], s)
  }

  /** Three calls of parse_num on date fields, stopping at the first that fails. */
  function ParseYmd(f: Fields, year: string, mon: string, mday: string): (int, Fields) {
    var f1 := f.(year := ParseNum(year).1);
    if !ParseNum(year).0 then (-EINVAL, f1)
    else
      var f2 := f1.(mon := ParseNum(mon).1);
      if !ParseNum(mon).0 then (-EINVAL, f2)
      else
        var f3 := f2.(mday := ParseNum(mday).1);
        (if ParseNum(mday).0 then 0 else -EINVAL, f3)
  }

  function ParseDate(s: string, f: Fields): (int, Fields) {
    if |s| == 10 && s[4] == '-' && s[7] == '-' then ParseYmd(f, s[0..4], s[5..7], s[8..10])
    else if |s| == 8 then ParseYmd(f, s[0..4], s[4..6], s[6..8])
    else (-EINVAL, f)
  }

  /** The end of a one or two digit day of the month that starts at `at`. */
  function DayEnd(s: string, at: nat): nat
    requires at + 1 < |s|
  {
    if s[at + 1] == ' ' then at + 1 else at + 2
  }

  /** parse_date_rfc1123: on success the first component is the number of characters used. */
  function ParseDateRfc1123(s: string, f: Fields): (r: (int, Fields))
    requires |s| >= 16
    ensures r.0 <= 16
  {
    if s[3] != ',' then (-EINVAL, f)
    else
      var inverted := !IsDigit(s[5]);
      var dayAt := if inverted then 9 else 5;
      var dayEnd := DayEnd(s, dayAt);
      var monAt := if inverted then 5 else dayEnd + 1;
      var yearAt := if inverted then dayEnd + 1 else dayEnd + 5;
      var f1 := f.(year := ParseNum(s[yearAt..yearAt + 4]).1);
      if !ParseNum(s[yearAt..yearAt + 4]).0 then (-EINVAL, f1)
      else
        var m := IndexOf(MON_STR, s[monAt..monAt + 3]);
        if m == |MON_STR| then (-ENOENT, f1)
        else
          var f2 := f1.(mon := m + 1, mday := ParseNum(s[dayAt..dayEnd]).1);
          (if ParseNum(s[dayAt..dayEnd]).0 then yearAt + 4 else -EINVAL, f2)
  }

  function SkipChar(s: string, c: char): string {
    if s != "" && s[0] == c then s[1..] else s
  }

  /** The hour and minute digits of a time zone, and its sign, or None if its form is unknown. */
  function ZoneParts(z: string): Option<(int, string, string)> {
    if |z| == 6 && (z[0] == '-' || z[0] == '+') && z[3] == ':' then
      Some((if z[0] == '-' then -1 else 1, z[1..3], z[4..6]))
    else if |z| == 5 && (z[0] == '-' || z[0] == '+') then
      Some((if z[0] == '-' then -1 else 1, z[1..3], z[3..5]))
    else if z == "Z" || z == "GMT" || z == "UT" || z == "UTC" then Some((1, "00", "00"))
    else None
  }

  function ParseZone(z: string, f: Fields): (int, Fields) {
    match ZoneParts(z)
    case None => (-EINVAL, f)
    case Some((sign, hour, min)) =>
      if ParseNum(hour).0 && ParseNum(min).0
      then (0, f.(gmtoff := (ParseNum(hour).1 * 60 + ParseNum(min).1) * 60 * sign))
      else (-EINVAL, f)
  }

  function ParseHms(f: Fields, hour: string, min: string, sec: string): (int, Fields) {
    var f1 := f.(hour := ParseNum(hour).1);
    if !ParseNum(hour).0 then (-EINVAL, f1)
    else
      var f2 := f1.(min := ParseNum(min).1);
      if !ParseNum(min).0 then (-EINVAL, f2)
      else
        var f3 := f2.(sec := ParseNum(sec).1);
        (if ParseNum(sec).0 then 0 else -EINVAL, f3)
  }

  function ParseTime(text: string, f: Fields): (int, Fields) {
    var s := SkipChar(text, 'T');
    if |s| < 6 then (-EINVAL, f)
    else
      var long := |s| >= 8 && s[2] == ':' && s[5] == ':';
      var (ret, f1) := if long then ParseHms(f, s[0..2], s[3..5], s[6..8]) else ParseHms(f, s[0..2], s[2..4], s[4..6]);
      if ret < 0 then (ret, f1)
      else ParseZone(SkipChar(s[if long then 8 else 6..], ' '), f1)
  }

  /** Whether the character at n, or the end of the text there, separates a date from a time. */
  predicate DateEnds(s: string, n: nat) {
    n <= |s| && (n < |s| ==> s[n] == 'T' || s[n] == ' ')
  }

  /** The date at the start of a full time; on success, the number of characters it took. */
  function ParseLeadingDate(s: string, f: Fields): (r: (int, Fields))
    ensures r.0 <= |s|
  {
    if |s| >= 16 && IndexOf(WDAY_STR, s) < |WDAY_STR| then ParseDateRfc1123(s, f)
    else if DateEnds(s, 10) then
      var (ret, g) := ParseDate(s[..10], f); (if ret < 0 then ret else 10, g)
    else if DateEnds(s, 8) then
      var (ret, g) := ParseDate(s[..8], f); (if ret < 0 then ret else 8, g)
    else (-EINVAL, f)
  }

  function ParseDateTime(s: string, f: Fields): (int, Fields) {
    var (ret, g) := ParseLeadingDate(s, f);
    if ret < 0 then (ret, g) else ParseTime(SkipChar(s[ret..], ' '), g)
  }

  datatype Parsed = Failed(ret: int) | OutOfTable | LocalTime(epoch: int, offset: int)

  function TmOf(f: Fields): Tm {
    Tm(f.year - 1900, f.mon - 1, f.mday, f.hour, f.min, f.sec)
  }

  /** time_local_parse; a month past the end of the day table reads outside it. */
  function LocalParse(s: string): Parsed {
    var (ret, f) := ParseDateTime(s, Fields(0, 0, 0, 0, 0, 0, 0));
    if ret < 0 then Failed(ret)
    else if !InTable(TmOf(f)) then OutOfTable
    else LocalTime(MkEpochLocal(TmOf(f), f.gmtoff), f.gmtoff)
  }

  // ----- the months that can be looked up

  /** A month field is read from two characters, or is the number of a name. */
  lemma DateMonthBound(s: string, f: Fields)
    ensures ParseDate(s, f).0 >= 0 ==> -10 < ParseDate(s, f).1.mon < 100
  {
    hide ParseNum;
    if |s| == 10 {
      TwoCharacters(s[5..7]);
    }
    if |s| == 8 {
      TwoCharacters(s[4..6]);
    }
  }

  lemma TwoCharacters(s: string)
    requires |s| <= 2
    ensures -10 < ParseNum(s).1 < 100
  {
    ParseNumBound(s, 2);
    assert PowerOfTen(1) == 10 * PowerOfTen(0);
  }

  lemma RfcMonthBound(s: string, f: Fields)
    requires |s| >= 16
    ensures ParseDateRfc1123(s, f).0 >= 0 ==> 1 <= ParseDateRfc1123(s, f).1.mon <= 12
  {
    hide ParseNum, DayEnd;
  }

  lemma TimeKeepsDate(s: string, f: Fields)
    ensures ParseTime(s, f).1.mon == f.mon
  {
    hide ParseNum;
  }

  lemma MonthBound(s: string, f: Fields)
    ensures ParseDateTime(s, f).0 >= 0 ==> -10 < ParseDateTime(s, f).1.mon < 100
  {
    hide ParseDate, ParseDateRfc1123, ParseTime, IndexOf;
    if |s| >= 16 {
      RfcMonthBound(s, f);
    }
    if |s| >= 10 {
      DateMonthBound(s[..10], f);
    }
    if |s| >= 8 {
      DateMonthBound(s[..8], f);
    }
    var (ret, g) := ParseLeadingDate(s, f);
    if ret >= 0 {
      TimeKeepsDate(SkipChar(s[ret..], ' '), g);
    }
  }

  /** An accepted text makes the conversion read outside its table exactly when its month is above 14. */
  lemma OutOfTableExactly(s: string)
    ensures var (ret, f) := ParseDateTime(s, Fields(0, 0, 0, 0, 0, 0, 0));
            LocalParse(s) == OutOfTable <==> ret >= 0 && f.mon > 14
  {
    hide ParseDateTime, MkEpochLocal, InTable;
    MonthBound(s, Fields(0, 0, 0, 0, 0, 0, 0));
    var (ret, f) := ParseDateTime(s, Fields(0, 0, 0, 0, 0, 0, 0));
    if ret >= 0 {
      MonthInTable(TmOf(f));
    }
  }
}
