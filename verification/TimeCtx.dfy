/** The context that collects a date and an hour, in either order, or both at once. */
module TimeCtx {
  import opened Common
  import opened Decimal
  import opened Epoch
  import opened TimeText

  /** The two bits of `fields`, and the fields of tm with gmtoff; those may hold leftovers. */
  datatype Ctx = Ctx(hasDate: bool, hasHour: bool, tm: Fields)

  const Empty := Ctx(false, false, Fields(0, 0, 0, 0, 0, 0, 0))

  /** struct tm counts years from 1900 and months from 0. */
  function Rebased(f: Fields): Fields {
    f.(year := f.year - 1900, mon := f.mon - 1)
  }

  datatype Call = Date(s: string) | Hour(s: string) | Time(s: string)

  function Progress(c: Ctx): int {
    if c.hasDate && c.hasHour then 0 else -EINPROGRESS
  }

  function AfterCall(c: Ctx, call: Call): (int, Ctx) {
    match call
    case Date(s) =>
      if c.hasDate then (-EEXIST, c)
      else
        var (ret, f) := ParseDate(s, c.tm);
        if ret < 0 then (ret, c.(tm := f))
        else var d := c.(tm := Rebased(f), hasDate := true); (Progress(d), d)
    case Hour(s) =>
      if c.hasHour then (-EEXIST, c)
      else
        var (ret, f) := ParseTime(s, c.tm);
        if ret < 0 then (ret, c.(tm := f))
        else var d := c.(tm := f, hasHour := true); (Progress(d), d)
    case Time(s) =>
      if c.hasDate || c.hasHour then (-EEXIST, c)
      else
        var (ret, f) := ParseDateTime(s, c.tm);
        if ret < 0 then (ret, c.(tm := f))
        else (0, Ctx(true, true, Rebased(f)))
  }

  class TimeContext {
    var hasDate: bool
    var hasHour: bool
    var tm: Fields

    /** Every call made on the context, in order. */
    ghost var calls: seq<Call>

    ghost function View(): Ctx
      reads this
    {
      Ctx(hasDate, hasHour, tm)
    }

    ghost predicate Valid()
      reads this
    {
      View() == Run(calls)
    }

    /** time_ctx_init */
    constructor ()
      ensures Valid() && calls == [] && View() == Empty
    {
      hasDate, hasHour, tm := false, false, Fields(0, 0, 0, 0, 0, 0, 0);
      calls := [];
    }

    method SetDate(s: string) returns (ret: int)
      requires Valid()
      modifies this
      ensures Valid() && calls == old(calls) + [Date(s)]
      ensures (ret, View()) == AfterCall(old(View()), Date(s))
    {
      hide ParseDate, Run;
      RunNext(calls, Date(s));
      calls := calls + [Date(s)];
      if hasDate {
        return -EEXIST;
      }
      var parsed := ParseDate(s, tm);
      tm := parsed.1;
      if parsed.0 < 0 {
        return parsed.0;
      }
      tm := tm.(year := tm.year - 1900);
      tm := tm.(mon := tm.mon - 1);
      hasDate := true;
      ret := if hasDate && hasHour then 0 else -EINPROGRESS;
    }

    method SetHour(s: string) returns (ret: int)
      requires Valid()
      modifies this
      ensures Valid() && calls == old(calls) + [Hour(s)]
      ensures (ret, View()) == AfterCall(old(View()), Hour(s))
    {
      hide ParseTime, Run;
      RunNext(calls, Hour(s));
      calls := calls + [Hour(s)];
      if hasHour {
        return -EEXIST;
      }
      var parsed := ParseTime(s, tm);
      tm := parsed.1;
      if parsed.0 < 0 {
        return parsed.0;
      }
      hasHour := true;
      ret := if hasDate && hasHour then 0 else -EINPROGRESS;
    }

    method SetTime(s: string) returns (ret: int)
      requires Valid()
      modifies this
      ensures Valid() && calls == old(calls) + [Time(s)]
      ensures (ret, View()) == AfterCall(old(View()), Time(s))
    {
      hide ParseDateTime, Run;
      RunNext(calls, Time(s));
      calls := calls + [Time(s)];
      if hasDate || hasHour {
        return -EEXIST;
      }
      var parsed := ParseDateTime(s, tm);
      tm := parsed.1;
      if parsed.0 < 0 {
        return parsed.0;
      }
      tm := tm.(year := tm.year - 1900);
      tm := tm.(mon := tm.mon - 1);
      hasDate, hasHour := true, true;
      return 0;
    }

    /** time_ctx_get_local: a time once the context is complete, and the one its accepted texts mean. */
    method GetLocal() returns (result: Parsed)
      requires Valid()
      ensures result == if Complete(AcceptedBy(calls)) then Meaning(AcceptedBy(calls)) else Failed(-EINPROGRESS)
    {
      hide Complete, AcceptedBy, Meaning, Run;
      Convergence(calls);
      if !(hasDate && hasHour) {
        return Failed(-EINPROGRESS);
      }
      var t := Tm(tm.year, tm.mon, tm.mday, tm.hour, tm.min, tm.sec);
      if !InTable(t) {
        return OutOfTable;
      }
      return LocalTime(MkEpochLocal(t, tm.gmtoff), tm.gmtoff);
    }
  }

  function LocalOf(c: Ctx): Parsed {
    if !(c.hasDate && c.hasHour) then Failed(-EINPROGRESS)
    else
      var t := Tm(c.tm.year, c.tm.mon, c.tm.mday, c.tm.hour, c.tm.min, c.tm.sec);
      if !InTable(t) then OutOfTable else LocalTime(MkEpochLocal(t, c.tm.gmtoff), c.tm.gmtoff)
  }

  function Run(calls: seq<Call>): Ctx {
    if calls == [] then Empty else AfterCall(Run(calls[..|calls| - 1]), calls[|calls| - 1]).1
  }

  lemma RunNext(calls: seq<Call>, call: Call)
    ensures Run(calls + [call]) == AfterCall(Run(calls), call).1
  {
    hide AfterCall;
    assert (calls + [call])[..|calls|] == calls;
  }

  // ----- what a run accepted, without the leftovers

  datatype Accepted = Accepted(date: Option<string>, hour: Option<string>, time: Option<string>)

  const Blank := Fields(0, 0, 0, 0, 0, 0, 0)

  predicate GoodDate(s: string) {
    ParseDate(s, Blank).0 >= 0
  }

  predicate GoodHour(s: string) {
    ParseTime(s, Blank).0 >= 0
  }

  predicate GoodTime(s: string) {
    ParseDateTime(s, Blank).0 >= 0
  }

  /** Only the first good date, the first good hour, or a good full time before both, counts. */
  function Accept(a: Accepted, call: Call): Accepted {
    match call
    case Date(s) => if a.date == None && a.time == None && GoodDate(s) then a.(date := Some(s)) else a
    case Hour(s) => if a.hour == None && a.time == None && GoodHour(s) then a.(hour := Some(s)) else a
    case Time(s) => if a == Accepted(None, None, None) && GoodTime(s) then a.(time := Some(s)) else a
  }

  function AcceptedBy(calls: seq<Call>): Accepted {
    if calls == [] then Accepted(None, None, None)
    else Accept(AcceptedBy(calls[..|calls| - 1]), calls[|calls| - 1])
  }

  predicate SameDate(f: Fields, g: Fields) {
    f.year == g.year && f.mon == g.mon && f.mday == g.mday
  }

  predicate SameClock(f: Fields, g: Fields) {
    f.hour == g.hour && f.min == g.min && f.sec == g.sec && f.gmtoff == g.gmtoff
  }

  /** Whether a date parses, and to what, does not depend on the fields it overwrites. */
  lemma ParseDateIgnoresFields(s: string, f: Fields, g: Fields)
    ensures ParseDate(s, f).0 == ParseDate(s, g).0
    ensures ParseDate(s, f).0 >= 0 ==> SameDate(ParseDate(s, f).1, ParseDate(s, g).1)
    ensures SameClock(ParseDate(s, f).1, f)
  {
    hide ParseNum;
  }

  lemma ParseTimeIgnoresFields(s: string, f: Fields, g: Fields)
    ensures ParseTime(s, f).0 == ParseTime(s, g).0
    ensures ParseTime(s, f).0 >= 0 ==> SameClock(ParseTime(s, f).1, ParseTime(s, g).1)
    ensures SameDate(ParseTime(s, f).1, f)
  {
    hide ParseNum;
  }

  lemma ParseRfcIgnoresFields(s: string, f: Fields, g: Fields)
    requires |s| >= 16
    ensures ParseDateRfc1123(s, f).0 == ParseDateRfc1123(s, g).0
    ensures ParseDateRfc1123(s, f).0 >= 0 ==> SameDate(ParseDateRfc1123(s, f).1, ParseDateRfc1123(s, g).1)
  {
    hide ParseNum, IndexOf, DayEnd;
  }

  lemma ParseLeadingDateIgnoresFields(s: string, f: Fields, g: Fields)
    ensures ParseLeadingDate(s, f).0 == ParseLeadingDate(s, g).0
    ensures ParseLeadingDate(s, f).0 >= 0 ==> SameDate(ParseLeadingDate(s, f).1, ParseLeadingDate(s, g).1)
  {
    hide ParseDate, ParseDateRfc1123, IndexOf;
    if |s| >= 16 {
      ParseRfcIgnoresFields(s, f, g);
    }
    if |s| >= 10 {
      ParseDateIgnoresFields(s[..10], f, g);
    }
    if |s| >= 8 {
      ParseDateIgnoresFields(s[..8], f, g);
    }
  }

  lemma ParseDateTimeIgnoresFields(s: string, f: Fields, g: Fields)
    ensures ParseDateTime(s, f).0 == ParseDateTime(s, g).0
    ensures ParseDateTime(s, f).0 >= 0 ==> ParseDateTime(s, f).1 == ParseDateTime(s, g).1
  {
    hide ParseLeadingDate, ParseTime, SkipChar;
    ParseLeadingDateIgnoresFields(s, f, g);
    var (ret, f1) := ParseLeadingDate(s, f);
    var (ret', g1) := ParseLeadingDate(s, g);
    if ret >= 0 {
      ParseTimeIgnoresFields(SkipChar(s[ret..], ' '), f1, g1);
      ParseTimeIgnoresFields(SkipChar(s[ret..], ' '), g1, g1);
    }
  }

  /** The context a run must have reached, up to the leftovers in fields not accepted yet. */
  predicate Tracks(c: Ctx, a: Accepted) {
    && (a.time.Some? ==> a.date == None && a.hour == None)
    && c.hasDate == (a.date.Some? || a.time.Some?)
    && c.hasHour == (a.hour.Some? || a.time.Some?)
    && (a.time.Some? ==> GoodTime(a.time.value) && c.tm == Rebased(ParseDateTime(a.time.value, Blank).1))
    && (a.date.Some? ==> GoodDate(a.date.value) && SameDate(c.tm, Rebased(ParseDate(a.date.value, Blank).1)))
    && (a.hour.Some? ==> GoodHour(a.hour.value) && SameClock(c.tm, ParseTime(a.hour.value, Blank).1))
  }

  lemma TracksCall(c: Ctx, a: Accepted, call: Call)
    requires Tracks(c, a)
    ensures Tracks(AfterCall(c, call).1, Accept(a, call))
  {
    hide ParseDate, ParseTime, ParseDateTime;
    match call
    case Date(s) => ParseDateIgnoresFields(s, c.tm, Blank);
    case Hour(s) => ParseTimeIgnoresFields(s, c.tm, Blank);
    case Time(s) => ParseDateTimeIgnoresFields(s, c.tm, Blank);
  }

  /** What a call returns, in terms of the texts accepted before and after it. */
  lemma ReturnCodes(calls: seq<Call>, call: Call)
    ensures var a, b, ret := AcceptedBy(calls), Accept(AcceptedBy(calls), call), AfterCall(Run(calls), call).0;
            && (ret == 0 <==> a != b && Complete(b))
            && (ret == -EINPROGRESS <==> a != b && !Complete(b))
            && (ret == -EEXIST <==>
                  match call
                  case Date(_) => a.date.Some? || a.time.Some?
                  case Hour(_) => a.hour.Some? || a.time.Some?
                  case Time(_) => a != Accepted(None, None, None))
  {
    hide ParseDate, ParseTime, ParseDateTime;
    RunTracks(calls);
    var c := Run(calls);
    match call
    case Date(s) =>
      ParseDateIgnoresFields(s, c.tm, Blank);
      DateErrors(s, c.tm);
    case Hour(s) =>
      ParseTimeIgnoresFields(s, c.tm, Blank);
      HourErrors(s, c.tm);
    case Time(s) =>
      ParseDateTimeIgnoresFields(s, c.tm, Blank);
      TimeErrors(s, c.tm);
  }

  lemma DateErrors(s: string, f: Fields)
    ensures ParseDate(s, f).0 == 0 || ParseDate(s, f).0 == -EINVAL
  {
    hide ParseNum;
  }

  lemma HourErrors(s: string, f: Fields)
    ensures ParseTime(s, f).0 == 0 || ParseTime(s, f).0 == -EINVAL
  {
    hide ParseNum;
  }

  lemma TimeErrors(s: string, f: Fields)
    ensures ParseDateTime(s, f).0 == 0 || ParseDateTime(s, f).0 == -EINVAL || ParseDateTime(s, f).0 == -ENOENT
  {
    hide ParseDate, ParseTime, ParseDateRfc1123, IndexOf;
    if |s| >= 16 {
      RfcErrors(s, f);
    }
    if |s| >= 10 {
      DateErrors(s[..10], f);
    }
    if |s| >= 8 {
      DateErrors(s[..8], f);
    }
    var (ret, g) := ParseLeadingDate(s, f);
    if ret >= 0 {
      HourErrors(SkipChar(s[ret..], ' '), g);
    }
  }

  lemma RfcErrors(s: string, f: Fields)
    requires |s| >= 16
    ensures var ret := ParseDateRfc1123(s, f).0; ret >= 0 || ret == -EINVAL || ret == -ENOENT
  {
    hide ParseNum, IndexOf, DayEnd;
  }

  lemma {:induction false} RunTracks(calls: seq<Call>)
    ensures Tracks(Run(calls), AcceptedBy(calls))
  {
    if calls != [] {
      RunTracks(calls[..|calls| - 1]);
      TracksCall(Run(calls[..|calls| - 1]), AcceptedBy(calls[..|calls| - 1]), calls[|calls| - 1]);
    }
  }

  predicate Complete(a: Accepted) {
    a.time.Some? || (a.date.Some? && a.hour.Some?)
  }

  /** The time that a complete pair of accepted texts, or an accepted full text, stands for. */
  function Meaning(a: Accepted): Parsed
    requires Complete(a)
  {
    var f := if a.time.Some? then Rebased(ParseDateTime(a.time.value, Blank).1)
             else
               var d, h := Rebased(ParseDate(a.date.value, Blank).1), ParseTime(a.hour.value, Blank).1;
               Fields(d.year, d.mon, d.mday, h.hour, h.min, h.sec, h.gmtoff);
    LocalOf(Ctx(true, true, f))
  }

  /**
   * Whatever was called, in whatever order and with whatever failures in between, the context gives
   * a time exactly when it accepted a full time or both halves, and then the one they stand for.
   */
  lemma Convergence(calls: seq<Call>)
    ensures LocalOf(Run(calls))
         == if Complete(AcceptedBy(calls)) then Meaning(AcceptedBy(calls)) else Failed(-EINPROGRESS)
  {
    hide ParseDate, ParseTime, ParseDateTime;
    RunTracks(calls);
  }

  // ----- the meaning of the accepted texts, by the parser of full times

  /** An accepted full time means what time_local_parse makes of it. */
  lemma FullTimeMeans(s: string)
    requires GoodTime(s)
    ensures Meaning(Accepted(None, None, Some(s))) == LocalParse(s)
  {
    hide ParseDateTime, InTable, MkEpochLocal;
  }

  /** What starts a weekday is no number. */
  lemma NoWeekday(d: string, rest: string)
    requires GoodDate(d)
    ensures IndexOf(WDAY_STR, d + rest) == |WDAY_STR|
  {
    hide NumberOf, DigitRun;
    var s, i := d + rest, IndexOf(WDAY_STR, d + rest);
    if i < |WDAY_STR| {
      assert WDAY_STR[i] <= s && WDAY_STR[i][0] == s[0] == d[0] == d[0..4][0];
      LetterIsNoNumber(d[0..4]);
    }
  }

  lemma LetterIsNoNumber(t: string)
    requires t != "" && 'A' <= t[0] <= 'Z'
    ensures !ParseNum(t).0
  {
    assert SkipSpaces(t) == t;
    assert DigitRun(t) == 0;
  }

  /** Where a full time made of an accepted date and an accepted hour is cut in two. */
  lemma LeadingDateOf(d: string, h: string)
    requires GoodDate(d) && |h| >= 6
    ensures var s, (ret, f) := d + (" " + h), ParseLeadingDate(d + (" " + h), Blank);
            if |d| == 8 && (h[1] == ' ' || h[1] == 'T') then ret < 0
            else ret == |d| && f == ParseDate(d, Blank).1 && SkipChar(s[ret..], ' ') == h
  {
    hide ParseNum, ParseDateRfc1123, IndexOf;
    var s := d + (" " + h);
    NoWeekday(d, " " + h);
    assert s[|d|] == ' ' && s[..|d|] == d && s[|d|..] == " " + h;
    if |d| == 8 {
      assert s[10] == h[1];
      if h[1] == ' ' || h[1] == 'T' {
        DashIsNoDay(d, s);
      }
    }
  }

  /** A date without dashes, one character too long or two, has none in its eighth place. */
  lemma DashIsNoDay(d: string, s: string)
    requires GoodDate(d) && |d| == 8 && |s| >= 10 && s[..8] == d
    ensures ParseDate(s[..10], Blank).0 < 0
  {
    assert s[..10][7] == d[7] == d[6..8][1];
    if d[7] == '-' {
      EndsInDash(d[6..8]);
    }
  }

  lemma EndsInDash(t: string)
    requires |t| == 2 && t[1] == '-'
    ensures !ParseNum(t).0
  {
    assert DigitRun("-") == 0 && DigitRun("") == 0;
    assert t[1..] == "-";
    if IsSpace(t[0]) {
      assert SkipSpaces(t) == SkipSpaces("-") == "-";
    } else if t[0] == '-' || t[0] == '+' {
      assert DigitRun(t[1..]) == 0;
    } else if IsDigit(t[0]) {
      assert DigitRun(t) == 1;
    }
  }

  /** An accepted hour whose second character is a T or a space is a T, then a space. */
  lemma SecondCharacter(h: string)
    requires GoodHour(h)
    ensures |h| >= 6 && h[1] != 'T'
    ensures h[1] == ' ' ==> h[0] == 'T'
  {
    hide NumberOf, ParseZone;
    var t := SkipChar(h, 'T');
    assert t[0..2][0] == t[0] && t[0..2][1] == t[1];
    if t[0] == 'T' {
      LetterIsNoNumber(t[0..2]);
    }
    if t[1] == 'T' || t[1] == ' ' {
      EndsInLetter(t[0..2]);
    }
  }

  lemma EndsInLetter(t: string)
    requires |t| == 2 && (t[1] == 'T' || t[1] == ' ')
    ensures !ParseNum(t).0
  {
    assert t[1..] == [t[1]];
    assert DigitRun("T") == 0 && DigitRun(" ") == 0 && DigitRun("") == 0;
    assert SkipSpaces("T") == "T" && SkipSpaces(" ") == "" by {
      assert " "[1..] == "";
    }
    if IsDigit(t[0]) {
      assert DigitRun(t) == 1;
    }
  }

  /**
   * An accepted date and an accepted hour mean what time_local_parse makes of both with a space
   * between them, unless eight digits of date are followed by an hour that starts with T and a
   * space: those are taken for a date of ten characters, and refused.
   */
  lemma HalvesMean(d: string, h: string)
    requires GoodDate(d) && GoodHour(h)
    ensures var both := LocalParse(d + (" " + h));
            && (Meaning(Accepted(Some(d), Some(h), None)) == both <==> !(|d| == 8 && "T " <= h))
            && (|d| == 8 && "T " <= h ==> both.Failed?)
  {
    hide ParseDate, ParseTime, ParseLeadingDate, InTable, MkEpochLocal;
    SecondCharacter(h);
    LeadingDateOf(d, h);
    ParseTimeIgnoresFields(h, ParseDate(d, Blank).1, Blank);
    ParseTimeIgnoresFields(h, Blank, Blank);
  }

  /** The month field of the accepted date, or of the accepted full time. */
  function AcceptedMonth(a: Accepted): int
    requires Complete(a)
  {
    if a.time.Some? then ParseDateTime(a.time.value, Blank).1.mon else ParseDate(a.date.value, Blank).1.mon
  }

  /** The conversion reads outside its table exactly when the accepted month is above 14. */
  lemma ContextOutOfTable(calls: seq<Call>)
    ensures LocalOf(Run(calls)) == OutOfTable <==>
              Complete(AcceptedBy(calls)) && AcceptedMonth(AcceptedBy(calls)) > 14
  {
    hide ParseDate, ParseTime, ParseDateTime, InTable, MkEpochLocal;
    RunTracks(calls);
    Convergence(calls);
    var a, c := AcceptedBy(calls), Run(calls);
    if a.time.Some? {
      MonthBound(a.time.value, Blank);
    }
    if a.date.Some? {
      DateMonthBound(a.date.value, Blank);
    }
    if Complete(a) {
      MonthInTable(Tm(c.tm.year, c.tm.mon, c.tm.mday, c.tm.hour, c.tm.min, c.tm.sec));
    }
  }

  // ----- order independence

  function Dates(calls: seq<Call>): seq<string> {
    if calls == [] then []
    else Dates(calls[..|calls| - 1])
         + match calls[|calls| - 1] { case Date(s) => [s] case _ => [] }
  }

  function Hours(calls: seq<Call>): seq<string> {
    if calls == [] then []
    else Hours(calls[..|calls| - 1])
         + match calls[|calls| - 1] { case Hour(s) => [s] case _ => [] }
  }

  predicate NoFullTime(calls: seq<Call>) {
    forall c <- calls :: !c.Time?
  }

  function FirstGood(texts: seq<string>, good: string -> bool): Option<string> {
    if texts == [] then None
    else
      var n := |texts| - 1;
      if FirstGood(texts[..n], good).Some? then FirstGood(texts[..n], good)
      else if good(texts[n]) then Some(texts[n]) else None
  }

  lemma FirstGoodAppend(texts: seq<string>, s: string, good: string -> bool)
    ensures FirstGood(texts + [s], good)
         == if FirstGood(texts, good).Some? then FirstGood(texts, good)
            else if good(s) then Some(s) else None
  {
    assert (texts + [s])[..|texts|] == texts;
  }

  lemma {:induction false} AcceptsFirstGood(calls: seq<Call>)
    requires NoFullTime(calls)
    ensures AcceptedBy(calls) == Accepted(FirstGood(Dates(calls), GoodDate), FirstGood(Hours(calls), GoodHour), None)
  {
    hide GoodDate, GoodHour, GoodTime;
    if calls != [] {
      var prefix, last := calls[..|calls| - 1], calls[|calls| - 1];
      AcceptsFirstGood(prefix);
      match last
      case Date(s) =>
        FirstGoodAppend(Dates(prefix), s, GoodDate);
        assert Hours(calls) == Hours(prefix);
      case Hour(s) =>
        FirstGoodAppend(Hours(prefix), s, GoodHour);
        assert Dates(calls) == Dates(prefix);
    }
  }

  /** Two runs that give the same dates and the same hours, interleaved differently, agree. */
  lemma OrderDoesNotMatter(calls: seq<Call>, other: seq<Call>)
    requires NoFullTime(calls) && NoFullTime(other)
    requires Dates(calls) == Dates(other) && Hours(calls) == Hours(other)
    ensures LocalOf(Run(calls)) == LocalOf(Run(other))
  {
    hide LocalOf;
    Convergence(calls);
    Convergence(other);
    AcceptsFirstGood(calls);
    AcceptsFirstGood(other);
  }
}
