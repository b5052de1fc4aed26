/** Sac_Time_Revise.py: the calendar helpers Date2day, Day2date and Day2day,
    and the per-trace correction that moves a SAC reference time from JST to
    UTC, computes the origin offset `o`, and writes the SAC macro that stores
    both. File reads, the `sac` subprocess and directory handling are outside
    the model; the header fields arrive as inputs. */
module SacTimeRevise {
  import opened Text
  import opened Calendar

  // ---------------------------------------------------------------------------
  // Date2day

  /** Days before each month of a common year, the table Date2day indexes. */
  const CumulativeDays: seq<int> := [0, 31, 59, 90, 120, 151, 181, 212, 243, 273, 304, 334]

  /** The table plus the leap-day correction equals the sum of month lengths. */
  lemma CumulativeDaysAgree(y: int, m: int)
    requires 1 <= m <= 12
    ensures CumulativeDays[m - 1] + (if IsLeap(y) && m > 2 then 1 else 0) == DaysBeforeMonth(y, m)
  {
    assert DaysBeforeMonth(y, 3) == 59 + (if IsLeap(y) then 1 else 0);
    if m > 3 {
      assert DaysBeforeMonth(y, 7) == DaysBeforeMonth(y, 3) + 122;
      if m > 7 {
        assert DaysBeforeMonth(y, 10) == DaysBeforeMonth(y, 7) + 92;
      }
    }
  }

  /** Date2day(year, month, day): the day of the year, from the cumulative
      table plus one in a leap year after February. A month outside 1..12
      makes the script print "month error" and then fail on the unbound
      `sum` (None here). The day itself is not checked. */
  method Date2day(year: int, month: int, day: int) returns (r: Option<int>)
    ensures r.Some? <==> 1 <= month <= 12
    ensures r.Some? ==> r.value == DayOfYear(year, month, day)
    ensures ValidDate(year, month, day) ==>
      r.Some? && 1 <= r.value <= YearLength(year) && MonthDay(year, r.value) == (month, day)
  {
    if !(0 < month <= 12) {
      return None;
    }
    var sum := CumulativeDays[month - 1];
    sum := sum + day;
    var leap := 0;
    if year % 400 == 0 || (year % 4 == 0 && year % 100 != 0) {
      leap := 1;
    }
    if leap == 1 && month > 2 {
      sum := sum + 1;
    }
    CumulativeDaysAgree(year, month);
    if ValidDate(year, month, day) {
      MonthDayOfDate(year, month, day);
    }
    return Some(sum);
  }

  /** The comment's example: Date2day(2008, 5, 2) is 123. */
  lemma Date2dayExample()
    ensures DayOfYear(2008, 5, 2) == 123
  {
    CumulativeDaysAgree(2008, 5);
  }

  // ---------------------------------------------------------------------------
  // Day2date

  /** strftime "%Y-%m-%d" as current CPython renders it: the year
      zero-padded to four digits, month and day to two. */
  function FormatDate(y: nat, m: nat, d: nat): string {
    ZFill(NatToString(y), 4) + "-" + ZFill(NatToString(m), 2) + "-" + ZFill(NatToString(d), 2)
  }

  /** Reads a "Y-M-D" string of three decimal fields back into numbers. */
  function ParseDate(s: string): Option<(int, int, int)> {
    var p := Split(s, '-');
    if |p| == 3 && AllDigits(p[0]) && AllDigits(p[1]) && AllDigits(p[2])
       && |p[0]| > 0 && |p[1]| > 0 && |p[2]| > 0
    then Some((DigitsValue(p[0]), DigitsValue(p[1]), DigitsValue(p[2])))
    else None
  }

  /** Day2date(year, day): datetime(year, 1, 1) + timedelta(days = day - 1),
      formatted. The year must be in datetime's range 1..9999 and so must the
      year the sum lands in, otherwise Python raises (None here). */
  function Day2date(year: int, day: int): Option<string> {
    if !(1 <= year <= 9999) then None
    else
      var (y, n) := Normalize(year, day);
      if !(1 <= y <= 9999) then None
      else
        var (m, d) := MonthDay(y, n);
        Some(FormatDate(y, m, d))
  }

  /** A natural number printed and zero-padded is a non-empty digit string
      that reads back as the number. */
  lemma PaddedNumber(n: nat, w: nat)
    ensures |ZFill(NatToString(n), w)| > 0 && AllDigits(ZFill(NatToString(n), w))
    ensures '-' !in ZFill(NatToString(n), w)
    ensures DigitsValue(ZFill(NatToString(n), w)) == n
  {
    var z := ZFill(NatToString(n), w);
    ZFillDigits(NatToString(n), w);
    assert forall i :: 0 <= i < |z| ==> IsDigit(z[i]);
  }

  /** A formatted date reads back as the same year, month and day. */
  lemma ParseFormatDate(y: int, m: int, d: int)
    requires 1 <= y && ValidDate(y, m, d)
    ensures ParseDate(FormatDate(y, m, d)) == Some((y, m, d))
  {
    var a, b, c := ZFill(NatToString(y), 4), ZFill(NatToString(m), 2), ZFill(NatToString(d), 2);
    PaddedNumber(y, 4);
    PaddedNumber(m, 2);
    PaddedNumber(d, 2);
    assert [a, b, c][1..] == [b, c] && [b, c][1..] == [c];
    assert Join([c], '-') == c;
    assert Join([b, c], '-') == b + ['-'] + c;
    assert Join([a, b, c], '-') == a + ['-'] + (b + ['-'] + c);
    assert FormatDate(y, m, d) == Join([a, b, c], '-');
    SplitJoin([a, b, c], '-');
  }

  /** Day2date and Date2day are inverse: for an ordinal day inside the year,
      Day2date gives a date string that reads back as a valid date of the
      same year whose day of the year is that day. Day2date(2008, 123) is
      "2008-05-02". */
  lemma Day2dateRoundTrip(year: int, day: int)
    requires 1 <= year <= 9999 && 1 <= day <= YearLength(year)
    ensures Day2date(year, day).Some?
    ensures var p := ParseDate(Day2date(year, day).value);
      p.Some? && p.value.0 == year && ValidDate(year, p.value.1, p.value.2)
      && DayOfYear(year, p.value.1, p.value.2) == day
  {
    YearStep(year - 1);
    YearStep(year);
    var (m, d) := MonthDay(year, day);
    ParseFormatDate(year, m, d);
  }

  /** The other direction: a valid date's day of the year formats back to it. */
  lemma Date2dayRoundTrip(y: int, m: int, d: int)
    requires 1 <= y <= 9999 && ValidDate(y, m, d)
    ensures Day2date(y, DayOfYear(y, m, d)) == Some(FormatDate(y, m, d))
  {
    MonthDayOfDate(y, m, d);
    YearStep(y - 1);
    YearStep(y);
  }

  /** A day outside the year still names the right date: the string Day2date
      returns reads back as the date whose absolute day number is that of
      day `day` of `year`. */
  lemma Day2dateAnyDay(year: int, day: int)
    requires Day2date(year, day).Some?
    ensures var p := ParseDate(Day2date(year, day).value);
      p.Some? && 1 <= p.value.0 <= 9999 && ValidDate(p.value.0, p.value.1, p.value.2)
      && DayNumber(p.value.0, DayOfYear(p.value.0, p.value.1, p.value.2)) == DayNumber(year, day)
  {
    var (y, n) := Normalize(year, day);
    var (m, d) := MonthDay(y, n);
    ParseFormatDate(y, m, d);
  }

  lemma FormatExample()
    ensures FormatDate(2008, 5, 2) == "2008-05-02"
  {
    assert NatToString(20) == "20";
    assert NatToString(200) == "200";
    assert NatToString(2008) == "2008";
    assert ZFill(NatToString(2008), 4) == "2008";
    assert ZFill(NatToString(5), 2) == "05";
    assert ZFill(NatToString(2), 2) == "02";
  }

  /** A year below 1000 is padded to four digits: year 5 prints as "0005". */
  lemma FormatSmallYear()
    ensures FormatDate(5, 1, 1) == "0005-01-01"
  {
    assert ZFill(NatToString(5), 4) == "0005";
    assert ZFill(NatToString(1), 2) == "01";
  }

  /** The comment's example, Day2date(2008, 123) == "2008-05-02". */
  lemma Day2dateExample()
    ensures Day2date(2008, 123) == Some("2008-05-02")
  {
    Date2dayExample();
    Date2dayRoundTrip(2008, 5, 2);
    FormatExample();
  }

  // ---------------------------------------------------------------------------
  // Day2day

  /** Day2day(year, day) exactly as written: an overflowing day moves to the
      next year with 366 subtracted, in common years too; a day at or below 0
      moves to the previous year with that year's length added. */
  function Day2day(year: int, day: int): (int, int) {
    if IsLeap(year) && day > 366 then (year + 1, day - 366)
    else if !IsLeap(year) && day > 365 then (year + 1, day - 366)
    else if day <= 0 then
      (if IsLeap(year - 1) then (year - 1, day + 366) else (year - 1, day + 365))
    else (year, day)
  }

  /** The three cases: inside the year nothing changes; at or below 0 the
      previous year's length is added; past the end 366 is subtracted. */
  lemma Day2dayCases(year: int, day: int)
    ensures 1 <= day <= YearLength(year) ==> Day2day(year, day) == (year, day)
    ensures day <= 0 ==> Day2day(year, day) == (year - 1, day + YearLength(year - 1))
    ensures day > YearLength(year) ==> Day2day(year, day) == (year + 1, day - 366)
  {
  }

  /** The comment's example, Day2day(2009, 0) == [2008, 366]. */
  lemma Day2dayExample()
    ensures Day2day(2009, 0) == (2008, 366)
  {
  }

  /** Day2day keeps the absolute day, except when a common year overflows. */
  lemma Day2dayKeepsDay(year: int, day: int)
    requires IsLeap(year) || day <= 365
    ensures var (y, d) := Day2day(year, day); DayNumber(y, d) == DayNumber(year, day)
  {
    YearStep(year - 1);
    YearStep(year);
  }

  /** As written, an overflow in a common year lands one day early: day 366
      of 2009 becomes day 0 of 2010, which is 31 December 2009, not
      1 January 2010. */
  lemma Day2dayCommonYearOverflow(year: int, day: int)
    requires !IsLeap(year) && day > 365
    ensures var (y, d) := Day2day(year, day); DayNumber(y, d) == DayNumber(year, day) - 1
    ensures Day2day(2009, 366) == (2010, 0)
  {
    YearStep(year);
  }

  /** Day2day as evidently intended: subtract the length of the year that
      overflowed. */
  function Day2dayIntended(year: int, day: int): (r: (int, int))
    ensures DayNumber(r.0, r.1) == DayNumber(year, day)
    ensures 1 - YearLength(year - 1) <= day <= YearLength(year) + YearLength(year + 1) ==>
      1 <= r.1 <= YearLength(r.0)
  {
    YearStep(year - 1);
    YearStep(year);
    if day > YearLength(year) then (year + 1, day - YearLength(year))
    else if day <= 0 then (year - 1, day + YearLength(year - 1))
    else (year, day)
  }

  /** The two agree on every day that does not overflow, which includes every
      day the JST-to-UTC shift can produce from a valid header. */
  lemma Day2dayAgreesBelowEnd(year: int, day: int)
    requires day <= YearLength(year)
    ensures Day2day(year, day) == Day2dayIntended(year, day)
  {
  }

  // ---------------------------------------------------------------------------
  // The per-trace correction

  /** The reference-time fields of a SAC header. */
  datatype SacTime = SacTime(nzyear: int, nzjday: int, nzhour: int, nzmin: int, nzsec: int, nzmsec: int)

  /** The origin from CMTSOLUTION: year, day of year (from Date2day), hour,
      minute, and seconds with the catalog's time shift already added. */
  datatype Origin = Origin(year: int, jday: int, hour: int, minute: int, second: real)

  predicate ValidSacTime(t: SacTime) {
    1 <= t.nzjday <= YearLength(t.nzyear) && 0 <= t.nzhour <= 23
  }

  /** Absolute hour of a reference time. */
  function HourNumber(t: SacTime): int {
    DayNumber(t.nzyear, t.nzjday) * 24 + t.nzhour
  }

  /** Absolute time in seconds of a reference time and of an origin. */
  function Instant(t: SacTime): real {
    ((HourNumber(t) * 60 + t.nzmin) * 60 + t.nzsec) as real + t.nzmsec as real / 1000.0
  }

  function OriginInstant(c: Origin): real {
    (((DayNumber(c.year, c.jday) * 24 + c.hour) * 60 + c.minute) * 60) as real + c.second
  }

  /** The origin offset `o` exactly as written: field-wise differences,
      with one per-year multiplier chosen from the leap status of the year
      before the later of the two years (365 when the years are equal). */
  function OffsetAsWritten(c: Origin, u: SacTime): real {
    var dy := c.year - u.nzyear;
    var perYear :=
      if dy > 0 then (if IsLeap(u.nzyear - 1) then 366 else 365)
      else if dy < 0 then (if IsLeap(c.year - 1) then 366 else 365)
      else 365;
    FieldOffset(c, u, perYear)
  }

  /** The field-wise difference of origin and reference time, with the given
      number of days per year of difference. */
  function FieldOffset(c: Origin, u: SacTime, perYear: int): real {
    (((((c.year - u.nzyear) * perYear + (c.jday - u.nzjday)) * 24 + (c.hour - u.nzhour)) * 60 + (c.minute - u.nzmin)) * 60) as real
      + (c.second - u.nzsec as real - u.nzmsec as real / 1000.0)
  }

  /** With the day count of the years in between as the year term, the
      field-wise difference is the elapsed time. */
  lemma FieldOffsetElapsed(c: Origin, u: SacTime, yearDays: int)
    requires DayNumber(c.year, c.jday) - DayNumber(u.nzyear, u.nzjday) == yearDays + (c.jday - u.nzjday)
    ensures FieldOffset(c, u, 0) + (yearDays * 86400) as real == OriginInstant(c) - Instant(u)
  {
  }

  /** Within one year the formula is the elapsed time from the reference
      time to the origin. */
  lemma OffsetSameYear(c: Origin, u: SacTime)
    requires c.year == u.nzyear
    ensures OffsetAsWritten(c, u) == OriginInstant(c) - Instant(u)
  {
  }

  /** Across a year boundary the formula is right only when neither the
      earlier year nor the year before it is a leap year. */
  lemma OffsetNextYear(c: Origin, u: SacTime)
    requires c.year == u.nzyear + 1
    ensures OffsetAsWritten(c, u) == OriginInstant(c) - Instant(u)
      <==> !IsLeap(u.nzyear) && !IsLeap(u.nzyear - 1)
  {
    YearStep(u.nzyear);
    NoConsecutiveLeapYears(u.nzyear - 1);
  }

  lemma OffsetPreviousYear(c: Origin, u: SacTime)
    requires c.year == u.nzyear - 1
    ensures OffsetAsWritten(c, u) == OriginInstant(c) - Instant(u)
      <==> !IsLeap(c.year) && !IsLeap(c.year - 1)
  {
    YearStep(c.year);
    NoConsecutiveLeapYears(c.year - 1);
  }

  /** A trace starting at 23:00 UTC on 31 December 2008 (day 366 of a leap
      year) for an event at 00:00 on 1 January 2009: the origin is 3600 s
      after the reference time, but the formula gives -82800 s. */
  lemma OffsetCounterexample()
    ensures OffsetAsWritten(Origin(2009, 1, 0, 0, 0.0), SacTime(2008, 366, 23, 0, 0, 0)) == -82800.0
    ensures OriginInstant(Origin(2009, 1, 0, 0, 0.0)) - Instant(SacTime(2008, 366, 23, 0, 0, 0)) == 3600.0
  {
    YearStep(2008);
  }

  /** The origin offset as evidently intended: the per-year multiplier is the
      length of the earlier of the two years. */
  function OriginOffset(c: Origin, u: SacTime): (o: real)
    ensures -1 <= c.year - u.nzyear <= 1 ==> o == OriginInstant(c) - Instant(u)
  {
    var dy := c.year - u.nzyear;
    var perYear := if dy >= 0 then YearLength(u.nzyear) else YearLength(c.year);
    OriginOffsetElapsed(c, u, perYear);
    FieldOffset(c, u, perYear)
  }

  lemma OriginOffsetElapsed(c: Origin, u: SacTime, perYear: int)
    requires perYear == if c.year >= u.nzyear then YearLength(u.nzyear) else YearLength(c.year)
    ensures -1 <= c.year - u.nzyear <= 1 ==> FieldOffset(c, u, perYear) == OriginInstant(c) - Instant(u)
  {
    var dy := c.year - u.nzyear;
    if -1 <= dy <= 1 {
      YearStep(u.nzyear);
      YearStep(c.year);
      var yearDays := if dy == 0 then 0 else if dy == 1 then perYear else -perYear;
      assert dy * perYear == yearDays;
      FieldOffsetElapsed(c, u, yearDays);
      FieldOffsetShift(c, u, perYear, yearDays);
    }
  }

  /** The year term enters the field-wise difference linearly. */
  lemma FieldOffsetShift(c: Origin, u: SacTime, perYear: int, yearDays: int)
    requires (c.year - u.nzyear) * perYear == yearDays
    ensures FieldOffset(c, u, perYear) == FieldOffset(c, u, 0) + (yearDays * 86400) as real
  {
  }

  /** The output file: the same file name under `<path>/<sub_output_dir>/`. */
  function OutputPath(path: string, subOutputDir: string, infile: string): string {
    path + "/" + subOutputDir + "/" + LastPiece(infile, '/')
  }

  /** The output keeps the input's file name and sits in the output directory. */
  lemma OutputPathShape(path: string, subOutputDir: string, infile: string)
    ensures LastPiece(OutputPath(path, subOutputDir, infile), '/') == LastPiece(infile, '/')
    ensures OutputPath(path, subOutputDir, infile) == path + "/" + subOutputDir + "/" + LastPiece(infile, '/')
  {
    var name := LastPiece(infile, '/');
    SplitAround(path + "/" + subOutputDir, '/', name);
    SplitNone(name, '/');
    assert path + "/" + subOutputDir + "/" + name == (path + "/" + subOutputDir) + ['/'] + name;
  }

  /** Lines joined with a newline after each one. */
  function Lines(ls: seq<string>): string {
    if |ls| == 0 then "" else Lines(ls[..|ls| - 1]) + (ls[|ls| - 1] + "\n")
  }

  /** The seven macro lines, without their newlines. */
  function MacroLines(infile: string, outfile: string, oText: string, nzyear: int, nzjday: int, nzhour: int): seq<string> {
    ["r " + infile,
     "ch o " + oText + " ",
     "ch nzyear " + IntToString(nzyear) + " ",
     "ch nzjday " + IntToString(nzjday) + " ",
     "ch nzhour " + IntToString(nzhour) + " ",
     "w " + outfile,
     "q "]
  }

  /** The macro fed to `sac` on its standard input. */
  function SacMacro(infile: string, outfile: string, oText: string, nzyear: int, nzjday: int, nzhour: int): string {
    Lines(MacroLines(infile, outfile, oText, nzyear, nzjday, nzhour))
  }

  predicate NoNewlines(ls: seq<string>) {
    forall k :: 0 <= k < |ls| ==> '\n' !in ls[k]
  }

  lemma {:induction false} SplitLines(ls: seq<string>, t: string)
    requires NoNewlines(ls)
    ensures Split(Lines(ls) + t, '\n') == ls + Split(t, '\n')
    decreases |ls|
  {
    if |ls| == 0 {
      assert Lines(ls) + t == t;
    } else {
      var init, last := ls[..|ls| - 1], ls[|ls| - 1];
      var rest := last + "\n" + t;
      LinesLast(ls, t);
      assert NoNewlines(init) && '\n' !in last by {
        assert forall k :: 0 <= k < |init| ==> init[k] == ls[k];
      }
      SplitLines(init, rest);
      SplitLine(last, t);
      SplitLinesStep(Split(Lines(init) + rest, '\n'), init, last, Split(t, '\n'));
      assert ls == init + [last];
    }
  }

  /** Regrouping the pieces after the last line. */
  lemma SplitLinesStep(whole: seq<string>, init: seq<string>, last: string, tail: seq<string>)
    requires whole == init + ([last] + tail)
    ensures whole == (init + [last]) + tail
  {
  }

  /** Peeling the last line off a text of lines. */
  lemma LinesLast(ls: seq<string>, t: string)
    requires |ls| > 0
    ensures Lines(ls) + t == Lines(ls[..|ls| - 1]) + (ls[|ls| - 1] + "\n" + t)
  {
  }

  lemma SplitLine(line: string, t: string)
    requires '\n' !in line
    ensures Split(line + "\n" + t, '\n') == [line] + Split(t, '\n')
  {
    assert line + "\n" + t == line + ['\n'] + t;
    SplitAround(line, '\n', t);
    SplitNone(line, '\n');
  }

  /** Read line by line, the macro is exactly: read the input, set o, nzyear,
      nzjday and nzhour, write the output, quit -- provided no name or value
      contains a newline. */
  lemma MacroReadsBack(infile: string, outfile: string, oText: string, nzyear: int, nzjday: int, nzhour: int)
    requires '\n' !in infile && '\n' !in outfile && '\n' !in oText
    ensures Split(SacMacro(infile, outfile, oText, nzyear, nzjday, nzhour), '\n') ==
      ["r " + infile,
       "ch o " + oText + " ",
       "ch nzyear " + IntToString(nzyear) + " ",
       "ch nzjday " + IntToString(nzjday) + " ",
       "ch nzhour " + IntToString(nzhour) + " ",
       "w " + outfile,
       "q ",
       ""]
  {
    var ls := MacroLines(infile, outfile, oText, nzyear, nzjday, nzhour);
    forall k | 0 <= k < |ls|
      ensures '\n' !in ls[k]
    {
    }
    SplitLines(ls, "");
    assert Lines(ls) + "" == Lines(ls);
  }

  /** What the hour shift and Day2day achieve on a valid header. */
  lemma ShiftFacts(h: SacTime, u: SacTime)
    requires u.nzhour == (if h.nzhour < 9 then h.nzhour + 15 else h.nzhour - 9)
    requires (u.nzyear, u.nzjday) == Day2day(h.nzyear, if h.nzhour < 9 then h.nzjday - 1 else h.nzjday)
    requires u.nzmin == h.nzmin && u.nzsec == h.nzsec && u.nzmsec == h.nzmsec
    ensures ValidSacTime(h) ==> ValidSacTime(u) && HourNumber(u) == HourNumber(h) - 9
    ensures ValidSacTime(h) ==> Instant(u) == Instant(h) - 32400.0
  {
    if ValidSacTime(h) {
      var day := if h.nzhour < 9 then h.nzjday - 1 else h.nzjday;
      Day2dayKeepsDay(h.nzyear, day);
      Day2dayCases(h.nzyear, day);
      assert DayNumber(u.nzyear, u.nzjday) == DayNumber(h.nzyear, h.nzjday) - (if h.nzhour < 9 then 1 else 0);
      assert HourNumber(u) == HourNumber(h) - 9;
      InstantOfHour(h, u);
    }
  }

  /** Nine hours earlier, with the same minutes and seconds, is 32400 s
      earlier. */
  lemma InstantOfHour(h: SacTime, u: SacTime)
    requires HourNumber(u) == HourNumber(h) - 9
    requires u.nzmin == h.nzmin && u.nzsec == h.nzsec && u.nzmsec == h.nzmsec
    ensures Instant(u) == Instant(h) - 32400.0
  {
  }

  /** One trace of one event: shift its reference time from JST to UTC
      (hour minus 9, borrowing a day when the hour goes negative, then
      Day2day), compute the origin offset as written, and build the macro.
      `render` stands for Python's str() of the float offset. */
  method ReviseTrace(c: Origin, h: SacTime, path: string, subOutputDir: string, infile: string,
                     render: real -> string)
    returns (u: SacTime, o: real, macro: string)
    ensures u.nzmin == h.nzmin && u.nzsec == h.nzsec && u.nzmsec == h.nzmsec
    ensures (u.nzyear, u.nzjday) == Day2day(h.nzyear, if h.nzhour < 9 then h.nzjday - 1 else h.nzjday)
    ensures 0 <= h.nzhour <= 23 ==> 0 <= u.nzhour <= 23 && (u.nzhour - (h.nzhour - 9)) % 24 == 0
    ensures ValidSacTime(h) ==> ValidSacTime(u) && HourNumber(u) == HourNumber(h) - 9
    ensures ValidSacTime(h) ==> Instant(u) == Instant(h) - 32400.0
    ensures o == OffsetAsWritten(c, u)
    ensures macro == SacMacro(infile, OutputPath(path, subOutputDir, infile), render(o), u.nzyear, u.nzjday, u.nzhour)
  {
    var nzyear, nzjday, nzhour := h.nzyear, h.nzjday, h.nzhour;
    nzhour := nzhour - 9;
    if nzhour < 0 {
      nzhour := nzhour + 24;
      nzjday := nzjday - 1;
    }
    var tp := Day2day(nzyear, nzjday);
    nzyear, nzjday := tp.0, tp.1;
    u := SacTime(nzyear, nzjday, nzhour, h.nzmin, h.nzsec, h.nzmsec);
    ShiftFacts(h, u);

    o := OffsetAsWritten(c, u);

    var tpath := LastPiece(infile, '/');
    var oufile := path + "/" + subOutputDir + "/" + tpath;
    macro := BuildMacro(infile, oufile, render(o), nzyear, nzjday, nzhour);
  }

  /** Appending a line appends its text and a newline. */
  lemma LinesSnoc(prev: seq<string>, line: string)
    ensures Lines(prev + [line]) == Lines(prev) + (line + "\n")
  {
    assert (prev + [line])[..|prev|] == prev;
  }

  /** The SAC commands of lines written one string at a time: read the
      input, set the four header values, write the output, quit. */
  method BuildMacro(infile: string, oufile: string, oText: string, nzyear: int, nzjday: int, nzhour: int)
    returns (macro: string)
    ensures macro == SacMacro(infile, oufile, oText, nzyear, nzjday, nzhour)
  {
    ghost var done: seq<string> := [];
    macro := "";
    LinesSnoc(done, "r " + infile);
    macro, done := macro + (("r " + infile) + "\n"), done + ["r " + infile];
    LinesSnoc(done, "ch o " + oText + " ");
    macro, done := macro + (("ch o " + oText + " ") + "\n"), done + ["ch o " + oText + " "];
    LinesSnoc(done, "ch nzyear " + IntToString(nzyear) + " ");
    macro, done := macro + (("ch nzyear " + IntToString(nzyear) + " ") + "\n"), done + ["ch nzyear " + IntToString(nzyear) + " "];
    LinesSnoc(done, "ch nzjday " + IntToString(nzjday) + " ");
    macro, done := macro + (("ch nzjday " + IntToString(nzjday) + " ") + "\n"), done + ["ch nzjday " + IntToString(nzjday) + " "];
    LinesSnoc(done, "ch nzhour " + IntToString(nzhour) + " ");
    macro, done := macro + (("ch nzhour " + IntToString(nzhour) + " ") + "\n"), done + ["ch nzhour " + IntToString(nzhour) + " "];
    LinesSnoc(done, "w " + oufile);
    macro, done := macro + (("w " + oufile) + "\n"), done + ["w " + oufile];
    LinesSnoc(done, "q ");
    macro, done := macro + (("q ") + "\n"), done + ["q "];
    assert done == MacroLines(infile, oufile, oText, nzyear, nzjday, nzhour);
  }
}
