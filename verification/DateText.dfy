/** Dates and timestamps as text (Types.cpp): the output operators and castString. */
module DateText {
  import opened Common
  import opened Decimal
  import opened JulianDay

  const MS_PER_DAY: nat := 86400000

  type Word64 = x: nat | x < 0x1_0000_0000_0000_0000

  /** A date is kept in a 32-bit signed integer. */
  type Int32 = x: int | -0x8000_0000 <= x < 0x8000_0000

  predicate InRange(year: nat, month: nat, day: nat) { year <= 9999 && 1 <= month <= 12 && 1 <= day <= 31 }

  // --------------------------------------------------------------------------- Printing

  function DateString(jd: Word32): (s: string) {
    var (year, month, day) := SplitJulianDay(jd);
    Padded(year, 4) + "-" + Padded(month, 2) + "-" + Padded(day, 2)
  }

  /** The output operator of Date; its buffer has room for 29 characters. */
  function PrintDate(value: Int32): string {
    var s := DateString(Wrap(value));
    if |s| <= 29 then s else s[..29]
  }

  function TimeString(t: Time): string {
    Digits(t.hour) + ":" + Padded(t.minute, 2) + ":" + Padded(t.second, 2) + if t.ms != 0 then "." + Padded(t.ms, 3) else ""
  }

  /** The output operator of Timestamp. A null timestamp prints NULL and then goes on. */
  function PrintTimestamp(value: Word64): string {
    (if value == 0 then "NULL" else "")
    + DateString(Wrap(value / MS_PER_DAY)) + " " + TimeString(SplitTime(value % MS_PER_DAY))
  }

  // ---------------------------------------------------------------------------- Parsing

  /** Year, month and day, the day ended by `stop` or by the end, as a day number. */
  function ParseDay(s: string, stop: Option<char>): Result<(nat, string)> {
    var (year, r0) :- Field(s, 0, Some('-'), false);
    var (month, r1) :- Field(r0, 0, Some('-'), false);
    var (day, r2) :- Field(r1, 0, stop, true);
    if InRange(year, month, day) then Ok((MergeJulianDay(year, month, day), r2)) else Err
  }

  function ParseTime(s: string): Result<nat> {
    var (hour, r0) :- Field(s, 0, Some(':'), false);
    var (minute, r1) :- Field(r0, 0, Some(':'), false);
    var (second, r2) :- Field(r1, 0, Some('.'), true);
    var (ms, _) :- Field(r2, 0, None, true);
    if IsTime(Time(hour, minute, second, ms)) then Ok(MergeTime(Time(hour, minute, second, ms))) else Err
  }

  function ParseDate(str: string): Result<nat> {
    var (date, _) :- ParseDay(Trim(str), None);
    Ok(date)
  }

  function ParseTimestamp(str: string): Result<nat> {
    if str == "NULL" then Ok(0) else
      var (date, rest) :- ParseDay(Trim(str), Some(' '));
      var time :- ParseTime(rest);
      Ok(date * MS_PER_DAY + time)
  }

  method CastDay(str: string, start: nat, limit: nat, stop: Option<char>) returns (r: Result<(nat, nat)>)
    requires start <= limit <= |str|
    ensures match ParseDay(str[start..limit], stop)
            case Err => r == Err
            case Ok((value, rest)) => r.Ok? && r.value.0 == value && start <= r.value.1 <= limit && str[r.value.1..limit] == rest
  {
    var year :- ReadField(str, start, limit, Some('-'), false);
    var month :- ReadField(str, year.1, limit, Some('-'), false);
    var day :- ReadField(str, month.1, limit, stop, true);
    if year.0 > 9999 || month.0 < 1 || month.0 > 12 || day.0 < 1 || day.0 > 31 {
      return Err;
    }
    r := Ok((MergeJulianDay(year.0, month.0, day.0), day.1));
  }

  /** Date::castString */
  method CastDate(str: string) returns (r: Result<nat>)
    ensures r == ParseDate(str)
  {
    var iter, limit := TrimBlanks(str);
    var date :- CastDay(str, iter, limit, None);
    r := Ok(date.0);
  }

  method CastTime(str: string, start: nat, limit: nat) returns (r: Result<nat>)
    requires start <= limit <= |str|
    ensures r == ParseTime(str[start..limit])
  {
    var hour :- ReadField(str, start, limit, Some(':'), false);
    var minute :- ReadField(str, hour.1, limit, Some(':'), false);
    var second :- ReadField(str, minute.1, limit, Some('.'), true);
    var ms :- ReadField(str, second.1, limit, None, true);
    if hour.0 >= 24 || minute.0 >= 60 || second.0 >= 60 || ms.0 >= 1000 {
      return Err;
    }
    r := Ok(MergeTime(Time(hour.0, minute.0, second.0, ms.0)));
  }

  /** Timestamp::castString */
  method CastTimestamp(str: string) returns (r: Result<nat>)
    ensures r == ParseTimestamp(str)
  {
    if str == "NULL" {
      return Ok(0);
    }
    var iter, limit := TrimBlanks(str);
    var date :- CastDay(str, iter, limit, Some(' '));
    var time :- CastTime(str, date.1, limit);
    r := Ok(date.0 * MS_PER_DAY + time);
  }

  // ------------------------------------------------------------------------- Round trips

  /** A printed field followed by its stop. */
  lemma ReadPrinted(n: nat, w: nat, c: char, tail: string, endOk: bool)
    requires n < 0x1_0000_0000 && !IsDigit(c)
    ensures Field(Padded(n, w) + ([c] + tail), 0, Some(c), endOk) == Ok((n, tail))
  {
    ReadPadded(n, w, [c] + tail, Some(c), endOk);
    assert ([c] + tail)[1..] == tail;
  }

  /** A printed field at the end. */
  lemma ReadLast(n: nat, w: nat, stop: Option<char>)
    requires n < 0x1_0000_0000 && StopsAt(stop)
    ensures Field(Padded(n, w), 0, stop, true) == Ok((n, ""))
  {
    ReadPadded(n, w, "", stop, true);
    assert Padded(n, w) + "" == Padded(n, w);
  }

  lemma ReadDayAtEnd(jd: Word32)
    requires FIRST_DAY <= jd <= LAST_DAY
    ensures ParseDay(DateString(jd), None) == Ok((jd, ""))
  {
    hide SplitJulianDay, MergeJulianDay;
    var (year, month, day) := SplitJulianDay(jd);
    SplitAndMergeAreInverse(jd);
    assert DateString(jd) == Padded(year, 4) + (['-'] + (Padded(month, 2) + (['-'] + Padded(day, 2))));
    ReadPrinted(year, 4, '-', Padded(month, 2) + (['-'] + Padded(day, 2)), false);
    ReadPrinted(month, 2, '-', Padded(day, 2), false);
    ReadLast(day, 2, None);
  }

  lemma ReadDate(year: Word32, month: Word32, day: Word32, c: char, tail: string)
    requires InRange(year, month, day) && !IsDigit(c)
    ensures ParseDay(Padded(year, 4) + (['-'] + (Padded(month, 2) + (['-'] + (Padded(day, 2) + ([c] + tail))))), Some(c))
         == Ok((MergeJulianDay(year, month, day), tail))
  {
    hide MergeJulianDay;
    var rest := Padded(day, 2) + ([c] + tail);
    ReadPrinted(year, 4, '-', Padded(month, 2) + (['-'] + rest), false);
    ReadPrinted(month, 2, '-', rest, false);
    ReadPrinted(day, 2, c, tail, true);
  }

  lemma ReadDayBefore(jd: Word32, c: char, tail: string)
    requires FIRST_DAY <= jd <= LAST_DAY && !IsDigit(c)
    ensures ParseDay(DateString(jd) + [c] + tail, Some(c)) == Ok((jd, tail))
  {
    hide SplitJulianDay, MergeJulianDay;
    var (year, month, day) := SplitJulianDay(jd);
    SplitAndMergeAreInverse(jd);
    ReadDate(year, month, day, c, tail);
    assert DateString(jd) + [c] + tail
        == Padded(year, 4) + (['-'] + (Padded(month, 2) + (['-'] + (Padded(day, 2) + ([c] + tail)))));
  }

  lemma ReadTime(t: Time)
    requires IsTime(t)
    ensures ParseTime(TimeString(t)) == Ok(MergeTime(t))
  {
    assert Padded(t.hour, 0) == Digits(t.hour);
    if t.ms != 0 {
      assert TimeString(t) == Padded(t.hour, 0) + ([':'] + (Padded(t.minute, 2) + ([':'] + (Padded(t.second, 2) + (['.'] + Padded(t.ms, 3))))));
      ReadPrinted(t.hour, 0, ':', Padded(t.minute, 2) + ([':'] + (Padded(t.second, 2) + (['.'] + Padded(t.ms, 3)))), false);
      ReadPrinted(t.minute, 2, ':', Padded(t.second, 2) + (['.'] + Padded(t.ms, 3)), false);
      ReadPrinted(t.second, 2, '.', Padded(t.ms, 3), true);
      ReadLast(t.ms, 3, None);
    } else {
      assert TimeString(t) == Padded(t.hour, 0) + ([':'] + (Padded(t.minute, 2) + ([':'] + Padded(t.second, 2))));
      ReadPrinted(t.hour, 0, ':', Padded(t.minute, 2) + ([':'] + Padded(t.second, 2)), false);
      ReadPrinted(t.minute, 2, ':', Padded(t.second, 2), false);
      ReadLast(t.second, 2, Some('.'));
    }
  }

  /** Parsing yields days of the years 0 to 9999 only. */
  lemma ParsedDayIsInRange(s: string, stop: Option<char>)
    ensures ParseDay(s, stop).Ok? ==> FIRST_DAY <= ParseDay(s, stop).value.0 <= LAST_DAY
  {
    if ParseDay(s, stop).Ok? {
      var r0 := Field(s, 0, Some('-'), false).value;
      var r1 := Field(r0.1, 0, Some('-'), false).value;
      var r2 := Field(r1.1, 0, stop, true).value;
      MergeIsExact(Date(r0.0, r1.0, r2.0));
    }
  }

  lemma PrintedDay(jd: Word32)
    requires FIRST_DAY <= jd <= LAST_DAY
    ensures |DateString(jd)| == 10 && IsDigit(DateString(jd)[0]) && IsDigit(DateString(jd)[9])
  {
    hide SplitJulianDay, MergeJulianDay;
    var (year, month, day) := SplitJulianDay(jd);
    SplitAndMergeAreInverse(jd);
    FitsIn(year, 4);
    FitsIn(month, 2);
    FitsIn(day, 2);
  }

  lemma FitsIn(n: nat, w: nat)
    requires 1 <= w && n < Pow10(w)
    ensures |Padded(n, w)| == w
  {
    DigitsLength(n, w);
  }

  /** Printing a date and parsing it back returns the date exactly for the days of the years 0 to
    9999. */
  lemma DateRoundTrip(value: Int32)
    ensures ParseDate(PrintDate(value)) == Ok(value) <==> FIRST_DAY <= value <= LAST_DAY
  {
    ParsedDayIsInRange(Trim(PrintDate(value)), None);
    if FIRST_DAY <= value <= LAST_DAY {
      NoWrap(value);
      PrintedDay(value);
      NothingToTrim(DateString(value));
      ReadDayAtEnd(value);
    }
  }

  const FIRST_MS: nat := FIRST_DAY * MS_PER_DAY
  const LAST_MS: nat := LAST_DAY * MS_PER_DAY + (MS_PER_DAY - 1)

  lemma ReadParts(s: string, date: nat, rest: string, time: nat, value: nat)
    requires value == date * MS_PER_DAY + time
    requires s != "NULL" && ParseDay(Trim(s), Some(' ')) == Ok((date, rest)) && ParseTime(rest) == Ok(time)
    ensures ParseTimestamp(s) == Ok(value)
  {
  }

  lemma DayAndTime(day: string, time: string)
    requires |day| == 10 && IsDigit(day[0]) && time != "" && IsDigit(time[|time| - 1])
    ensures var s := day + [' '] + time; Trim(s) == s && s != "NULL"
  {
    NothingToTrim(day + [' '] + time);
  }

  lemma ReadInstant(s: string, jd: Word32, ms: nat, value: nat)
    requires FIRST_DAY <= jd <= LAST_DAY && ms < MS_PER_DAY && jd * MS_PER_DAY + ms == value
    requires s == DateString(jd) + [' '] + TimeString(SplitTime(ms))
    ensures ParseTimestamp(s) == Ok(value)
  {
    var day, time := DateString(jd), TimeString(SplitTime(ms));
    SplitTimeMerges(ms);
    PrintedDay(jd);
    TimeEndsInDigit(SplitTime(ms));
    DayAndTime(day, time);
    ReadDayBefore(jd, ' ', time);
    ReadTime(SplitTime(ms));
    ReadParts(s, jd, time, ms, value);
  }

  lemma DayOfInstant(value: nat)
    requires FIRST_MS <= value <= LAST_MS
    ensures FIRST_DAY <= value / MS_PER_DAY <= LAST_DAY
    ensures value / MS_PER_DAY * MS_PER_DAY + value % MS_PER_DAY == value
  {
  }

  /** Printing a timestamp and parsing it back returns the timestamp exactly for the instants of the
    years 0 to 9999; the null timestamp is not among them. */
  lemma TimestampRoundTrip(value: Word64)
    ensures ParseTimestamp(PrintTimestamp(value)) == Ok(value) <==> FIRST_MS <= value <= LAST_MS
  {
    var s := PrintTimestamp(value);
    if FIRST_MS <= value <= LAST_MS {
      InstantReadsBack(value, s);
    }
    OtherInstantDoesNot(value);
  }

  lemma InstantReadsBack(value: Word64, s: string)
    requires FIRST_MS <= value <= LAST_MS && s == PrintTimestamp(value)
    ensures ParseTimestamp(s) == Ok(value)
  {
    var jd, ms := InstantIsPrinted(value);
    ReadInstant(s, jd, ms, value);
  }

  lemma OtherInstantDoesNot(value: Word64)
    ensures ParseTimestamp(PrintTimestamp(value)) == Ok(value) ==> FIRST_MS <= value <= LAST_MS
  {
    ParsedTimestampIsInRange(PrintTimestamp(value));
    PrintIsLong(value);
  }

  lemma InstantIsPrinted(value: Word64) returns (jd: Word32, ms: nat)
    requires FIRST_MS <= value <= LAST_MS
    ensures FIRST_DAY <= jd <= LAST_DAY && ms < MS_PER_DAY && jd * MS_PER_DAY + ms == value
    ensures PrintTimestamp(value) == DateString(jd) + [' '] + TimeString(SplitTime(ms))
  {
    DayOfInstant(value);
    jd, ms := value / MS_PER_DAY, value % MS_PER_DAY;
    NoWrap(jd);
    NoPrefix(DateString(jd));
  }

  lemma NoPrefix(s: string)
    ensures "" + s == s
  {
  }

  lemma PrintIsLong(value: Word64)
    ensures PrintTimestamp(value) != "NULL"
  {
    assert |PrintTimestamp(value)| > 4;
  }

  lemma TimeEndsInDigit(t: Time)
    ensures var s := TimeString(t); s != "" && IsDigit(s[|s| - 1])
  {
  }

  lemma ParsedTimestampIsInRange(s: string)
    ensures s != "NULL" && ParseTimestamp(s).Ok? ==> FIRST_MS <= ParseTimestamp(s).value <= LAST_MS
  {
    if s == "NULL" || ParseTimestamp(s).Err? {
      return;
    }
    ParsedDayIsInRange(Trim(s), Some(' '));
    var (date, rest) := ParseDay(Trim(s), Some(' ')).value;
    ParsedTimeIsInRange(rest);
    assert ParseTimestamp(s).value == date * MS_PER_DAY + ParseTime(rest).value;
  }

  lemma ParsedTimeIsInRange(s: string)
    ensures ParseTime(s).Ok? ==> ParseTime(s).value < MS_PER_DAY
  {
    if ParseTime(s).Ok? {
      var r0 := Field(s, 0, Some(':'), false).value;
      var r1 := Field(r0.1, 0, Some(':'), false).value;
      var r2 := Field(r1.1, 0, Some('.'), true).value;
      var r3 := Field(r2.1, 0, None, true).value;
      MergeTimeSplits(Time(r0.0, r1.0, r2.0, r3.0));
    }
  }

  /** castString reads NULL as the null timestamp, but the null timestamp does not print as NULL: a
    date follows, and castString rejects the text. */
  lemma NullDoesNotRoundTrip()
    ensures ParseTimestamp("NULL") == Ok(0)
    ensures ParseTimestamp(PrintTimestamp(0)) == Err
  {
    var s := PrintTimestamp(0);
    assert s[0] == 'N' && TrimLeft(s) == s;
    TrimKeepsStart(s);
  }

  lemma {:induction false} TrimKeepsStart(s: string)
    requires s != "" && s[0] != ' '
    ensures TrimRight(s) != "" && TrimRight(s)[0] == s[0]
  {
    if s[|s| - 1] == ' ' {
      TrimKeepsStart(s[..|s| - 1]);
    }
  }

  // ------------------------------------------------------------- Which texts are read, and as what

  /** What a field of digits stands for: leading zeros do not count, and 32 bits are kept. */
  function FieldValue(digits: string): Word32
    requires AllDigits(digits)
  {
    Spelled(digits, 0) % 0x1_0000_0000
  }

  /** Digits for year, month and day, within the ranges that are checked. */
  predicate AreDay(y: string, m: string, d: string) {
    && AllDigits(y) && AllDigits(m) && AllDigits(d)
    && FieldValue(y) <= 9999 && 1 <= FieldValue(m) <= 12 && 1 <= FieldValue(d) <= 31
  }

  function DayOf(y: string, m: string, d: string): int
    requires AreDay(y, m, d)
  {
    DayNumber(Date(FieldValue(y), FieldValue(m), FieldValue(d)))
  }

  ghost predicate IsDateText(s: string, y: string, m: string, d: string) {
    AreDay(y, m, d) && s == y + "-" + m + "-" + d
  }

  lemma ReadsDay(y: string, m: string, d: string, stop: Option<char>, after: string, rest: string)
    requires AreDay(y, m, d) && StopsAt(stop)
    requires (stop.Some? && after == [stop.value] + rest) || (after == "" && rest == "")
    ensures ParseDay(y + "-" + m + "-" + d + after, stop) == Ok((DayOf(y, m, d), rest))
  {
    hide Field, MergeJulianDay, Spelled;
    assert y + "-" + m + "-" + d + after == y + (['-'] + (m + (['-'] + (d + after))));
    FieldReads(y, 0, '-', m + (['-'] + (d + after)), false);
    FieldReads(m, 0, '-', d + after, false);
    if after == "" {
      FieldReadsToEnd(d, 0, stop);
      assert d + after == d;
    } else {
      FieldReads(d, 0, stop.value, rest, true);
    }
    MergeIsExact(Date(FieldValue(y), FieldValue(m), FieldValue(d)));
  }

  lemma DayWasRead(s: string, stop: Option<char>) returns (y: string, m: string, d: string, after: string)
    requires StopsAt(stop) && ParseDay(s, stop).Ok?
    ensures AreDay(y, m, d) && s == y + "-" + m + "-" + d + after
    ensures ParseDay(s, stop).value.0 == DayOf(y, m, d)
    ensures var rest := ParseDay(s, stop).value.1; (stop.Some? && after == [stop.value] + rest) || (after == "" && rest == "")
  {
    hide Field, MergeJulianDay, Spelled;
    var r0 := Field(s, 0, Some('-'), false).value;
    var r1 := Field(r0.1, 0, Some('-'), false).value;
    var r2 := Field(r1.1, 0, stop, true).value;
    y := FieldSplits(s, 0, Some('-'), false);
    m := FieldSplits(r0.1, 0, Some('-'), false);
    d := FieldSplits(r1.1, 0, stop, true);
    after := r1.1[|d|..];
    assert r1.1 == d + after;
    assert s == y + (['-'] + (m + (['-'] + (d + after)))) == y + "-" + m + "-" + d + after;
    MergeIsExact(Date(FieldValue(y), FieldValue(m), FieldValue(d)));
  }

  /** Date::castString reads, between blanks, exactly the texts of three fields of digits with hyphens
    between them whose values are in range, as the number of that day. */
  lemma CastDateIff(str: string, n: int)
    ensures ParseDate(str) == Ok(n) <==> exists y, m, d: string :: IsDateText(Trim(str), y, m, d) && n == DayOf(y, m, d)
  {
    hide DayOf, ParseDay;
    if y, m, d: string :| IsDateText(Trim(str), y, m, d) && n == DayOf(y, m, d) {
      ReadsDay(y, m, d, None, "", "");
      assert y + "-" + m + "-" + d + "" == Trim(str);
    }
    if ParseDate(str) == Ok(n) {
      var y, m, d, after := DayWasRead(Trim(str), None);
      assert y + "-" + m + "-" + d + after == y + "-" + m + "-" + d;
      assert IsDateText(Trim(str), y, m, d) && n == DayOf(y, m, d);
    }
  }

  /** The range check looks at 32 bits only: the year 4294967296 is read as year 0. */
  lemma YearsWrap()
    ensures ParseDate(Digits(4_294_967_296) + "-1-1") == Ok(1721060)
  {
    hide ParseDay, MergeJulianDay, Field, Spelled, Digits, Trim, DayNumber, IsDigit;
    var y := Digits(4_294_967_296);
    SpelledDigits(4_294_967_296, 0);
    One();
    ReadsDay(y, "1", "1", None, "", "");
    assert y + "-" + "1" + "-" + "1" + "" == y + "-1-1";
    NoBlanks(y);
    KnownDays();
  }

  lemma One()
    ensures AllDigits("1") && Spelled("1", 0) == 1
  {
  }

  lemma NoBlanks(y: string)
    requires y != "" && AllDigits(y)
    ensures Trim(y + "-1-1") == y + "-1-1"
  {
    NothingToTrim(y + "-1-1");
  }

  /** Digits for hour, minute and second and, after a point, milliseconds; the point may be missing. */
  predicate AreTime(h: string, m: string, sec: string, f: string) {
    && AllDigits(h) && AllDigits(m) && AllDigits(sec) && AllDigits(f)
    && FieldValue(h) < 24 && FieldValue(m) < 60 && FieldValue(sec) < 60 && FieldValue(f) < 1000
  }

  function TimeOf(h: string, m: string, sec: string, f: string): nat
    requires AreTime(h, m, sec, f)
  {
    ((FieldValue(h) * 60 + FieldValue(m)) * 60 + FieldValue(sec)) * 1000 + FieldValue(f)
  }

  ghost predicate IsTimeText(s: string, h: string, m: string, sec: string, f: string) {
    AreTime(h, m, sec, f) && (s == h + ":" + m + ":" + sec + "." + f || (f == "" && s == h + ":" + m + ":" + sec))
  }

  lemma MergedTime(h: string, m: string, sec: string, f: string)
    requires AreTime(h, m, sec, f)
    ensures MergeTime(Time(FieldValue(h), FieldValue(m), FieldValue(sec), FieldValue(f))) == TimeOf(h, m, sec, f)
  {
    MergeTimeIsExact(Time(FieldValue(h), FieldValue(m), FieldValue(sec), FieldValue(f)));
  }

  lemma ReadsTime(s: string, h: string, m: string, sec: string, f: string)
    requires IsTimeText(s, h, m, sec, f)
    ensures ParseTime(s) == Ok(TimeOf(h, m, sec, f))
  {
    hide Field, MergeTime, Spelled;
    if s == h + ":" + m + ":" + sec + "." + f {
      assert s == h + ([':'] + (m + ([':'] + (sec + (['.'] + f)))));
      FieldReads(h, 0, ':', m + ([':'] + (sec + (['.'] + f))), false);
      FieldReads(m, 0, ':', sec + (['.'] + f), false);
      FieldReads(sec, 0, '.', f, true);
    } else {
      assert s == h + ([':'] + (m + ([':'] + sec)));
      FieldReads(h, 0, ':', m + ([':'] + sec), false);
      FieldReads(m, 0, ':', sec, false);
      FieldReadsToEnd(sec, 0, Some('.'));
    }
    FieldReadsToEnd(f, 0, None);
    MergedTime(h, m, sec, f);
  }

  lemma TimeWasRead(s: string) returns (h: string, m: string, sec: string, f: string)
    requires ParseTime(s).Ok?
    ensures IsTimeText(s, h, m, sec, f) && ParseTime(s).value == TimeOf(h, m, sec, f)
  {
    hide Field, MergeTime, Spelled;
    var r0 := Field(s, 0, Some(':'), false).value;
    var r1 := Field(r0.1, 0, Some(':'), false).value;
    var r2 := Field(r1.1, 0, Some('.'), true).value;
    h := FieldSplits(s, 0, Some(':'), false);
    m := FieldSplits(r0.1, 0, Some(':'), false);
    sec := FieldSplits(r1.1, 0, Some('.'), true);
    f := FieldSplits(r2.1, 0, None, true);
    if r1.1 == sec + (['.'] + r2.1) {
      assert s == h + ([':'] + (m + ([':'] + (sec + (['.'] + f))))) == h + ":" + m + ":" + sec + "." + f;
    } else {
      assert s == h + ([':'] + (m + ([':'] + sec))) == h + ":" + m + ":" + sec;
    }
    MergedTime(h, m, sec, f);
  }

  ghost predicate IsInstantText(s: string, y: string, m: string, d: string, t: string, value: int) {
    && AreDay(y, m, d) && s == y + "-" + m + "-" + d + " " + t
    && exists h, mi, sec, f: string :: IsTimeText(t, h, mi, sec, f) && value == DayOf(y, m, d) * 86_400_000 + TimeOf(h, mi, sec, f)
  }

  /** Timestamp::castString reads NULL as null and otherwise, between blanks, exactly a date, a blank and a
    time of day, as the milliseconds up to that instant. */
  lemma CastTimestampIff(str: string, n: int)
    ensures ParseTimestamp(str) == Ok(n) <==>
      if str == "NULL" then n == 0 else exists y, m, d, t: string :: IsInstantText(Trim(str), y, m, d, t, n)
  {
    hide DayOf, TimeOf, ParseDay, ParseTime, Trim;
    if str != "NULL" {
      if y, m, d, t: string :| IsInstantText(Trim(str), y, m, d, t, n) {
        InstantIsRead(str, y, m, d, t, n);
      }
      if ParseTimestamp(str) == Ok(n) {
        InstantWasRead(str, n);
      }
    }
  }

  lemma InstantIsRead(str: string, y: string, m: string, d: string, t: string, n: int)
    requires str != "NULL" && IsInstantText(Trim(str), y, m, d, t, n)
    ensures ParseTimestamp(str) == Ok(n)
  {
    hide DayOf, TimeOf, ParseDay, ParseTime, Trim, AreDay, AreTime;
    var h, mi, sec, f: string :| IsTimeText(t, h, mi, sec, f) && n == DayOf(y, m, d) * 86_400_000 + TimeOf(h, mi, sec, f);
    ReadsDay(y, m, d, Some(' '), [' '] + t, t);
    assert y + "-" + m + "-" + d + ([' '] + t) == y + "-" + m + "-" + d + " " + t;
    ReadsTime(t, h, mi, sec, f);
  }

  lemma InstantWasRead(str: string, n: int)
    requires str != "NULL" && ParseTimestamp(str) == Ok(n)
    ensures exists y, m, d, t: string :: IsInstantText(Trim(str), y, m, d, t, n)
  {
    hide DayOf, TimeOf, ParseDay, ParseTime, Trim, AreDay, IsTimeText;
    var y, m, d, after := DayWasRead(Trim(str), Some(' '));
    var t := ParseDay(Trim(str), Some(' ')).value.1;
    var h, mi, sec, f := TimeWasRead(t);
    NoEmptyTime(t, h, mi, sec, f);
    assert y + "-" + m + "-" + d + ([' '] + t) == y + "-" + m + "-" + d + " " + t;
    assert IsInstantText(Trim(str), y, m, d, t, n);
  }

  lemma NoEmptyTime(t: string, h: string, m: string, sec: string, f: string)
    requires IsTimeText(t, h, m, sec, f)
    ensures t != ""
  {
  }

  // --------------------------------------------------------------------- What is printed

  lemma PrintsField(n: nat, w: nat)
    requires w >= 1 && n < Pow10(w)
    ensures |Padded(n, w)| == w && AllDigits(Padded(n, w)) && Spelled(Padded(n, w), 0) == n
  {
    SpelledPadded(n, w, 0);
  }

  lemma Powers()
    ensures Pow10(2) == 100 && Pow10(3) == 1000 && Pow10(4) == 10000
  {
  }

  /** Every date of the years 0 to 9999 prints as YYYY-MM-DD. */
  lemma PrintedDate(d: Date)
    requires IsDate(d) && d.year <= 9999
    ensures var s := PrintDate(DayNumber(d));
      && |s| == 10 && s[4] == '-' && s[7] == '-'
      && AllDigits(s[..4]) && AllDigits(s[5..7]) && AllDigits(s[8..])
      && Spelled(s[..4], 0) == d.year && Spelled(s[5..7], 0) == d.month && Spelled(s[8..], 0) == d.day
  {
    hide SplitJulianDay, MergeJulianDay, Spelled, Padded, Pow10, DayNumber, Wrap;
    DateIsPrintable(d);
    var year, month, day := Padded(d.year, 4), Padded(d.month, 2), Padded(d.day, 2);
    Powers();
    PrintsField(d.year, 4);
    PrintsField(d.month, 2);
    PrintsField(d.day, 2);
    var s := year + "-" + month + "-" + day;
    assert PrintDate(DayNumber(d)) == s;
    assert s[..4] == year && s[5..7] == month && s[8..] == day;
  }

  lemma DateIsPrintable(d: Date)
    requires IsDate(d) && d.year <= 9999
    ensures 0 <= DayNumber(d) < 0x8000_0000 && Wrap(DayNumber(d)) == DayNumber(d)
    ensures SplitJulianDay(DayNumber(d)) == (d.year, d.month, d.day)
  {
    hide SplitJulianDay, MergeJulianDay, DayNumber, IsDate;
    InCalendar(d);
    MergeIsExact(d);
    MergeAndSplitAreInverse(d);
  }

  lemma InCalendar(d: Date)
    requires IsDate(d)
    ensures 1 <= d.month <= 12 && 1 <= d.day <= 31
  {
  }

  /** A time of day prints as the hour without leading zeros, :MM:SS, and .mmm unless that is zero. */
  lemma PrintedTime(t: Time)
    requires IsTime(t)
    ensures var s, h := TimeString(t), Digits(t.hour);
      && |s| == |h| + (if t.ms == 0 then 6 else 10) && s[..|h|] == h && s[|h|] == ':' && s[|h| + 3] == ':'
      && AllDigits(s[|h| + 1..|h| + 3]) && Spelled(s[|h| + 1..|h| + 3], 0) == t.minute
      && AllDigits(s[|h| + 4..|h| + 6]) && Spelled(s[|h| + 4..|h| + 6], 0) == t.second
      && (t.ms != 0 ==> s[|h| + 6] == '.' && AllDigits(s[|h| + 7..]) && Spelled(s[|h| + 7..], 0) == t.ms)
  {
    hide Spelled, Padded, Pow10, Digits;
    var s, h, minute, second, ms := TimeString(t), Digits(t.hour), Padded(t.minute, 2), Padded(t.second, 2), Padded(t.ms, 3);
    Powers();
    PrintsField(t.minute, 2);
    PrintsField(t.second, 2);
    PrintsField(t.ms, 3);
    assert s == h + ":" + minute + ":" + second + if t.ms != 0 then "." + ms else "";
    assert s[|h| + 1..|h| + 3] == minute && s[|h| + 4..|h| + 6] == second;
    assert t.ms != 0 ==> s[|h| + 7..] == ms;
  }

  /** A timestamp of these years prints as its date, a blank and its time of day. */
  lemma PrintedTimestamp(d: Date, t: Time)
    requires IsDate(d) && d.year <= 9999 && IsTime(t)
    ensures 0 <= DayNumber(d) * 86_400_000 + MergeTime(t) < 0x1_0000_0000_0000_0000
    ensures PrintTimestamp(DayNumber(d) * 86_400_000 + MergeTime(t)) == PrintDate(DayNumber(d)) + " " + TimeString(t)
  {
    hide SplitJulianDay, MergeJulianDay, MergeTime, SplitTime, TimeString, DayNumber, Wrap, DateString;
    MergeIsExact(d);
    DateIsPrintable(d);
    MergeTimeSplits(t);
    var value := DayNumber(d) * 86_400_000 + MergeTime(t);
    assert value / MS_PER_DAY == DayNumber(d) && value % MS_PER_DAY == MergeTime(t);
    PrintedDay(DayNumber(d));
    NoPrefix(DateString(DayNumber(d)));
  }
}
