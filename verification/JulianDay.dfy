/** Julian day numbers (Types.cpp): mergeJulianDay and splitJulianDay on 32-bit unsigned words,
  the calendar they are meant for, and the conversion of times of day. */
module JulianDay {

  datatype Date = Date(year: nat, month: nat, day: nat)

  datatype Time = Time(hour: nat, minute: nat, second: nat, ms: nat)

  type Word32 = x: nat | x < 0x1_0000_0000

  /** A 32-bit unsigned word can hold x. */
  predicate Fits(x: int) { 0 <= x < 0x1_0000_0000 }

  /** The value a 32-bit unsigned expression keeps. */
  function Wrap(x: int): Word32 {
    if Fits(x) then x else x % 0x1_0000_0000
  }

  // ------------------------------------------------------------------------------ The code

  function MergeJulianDay(year: Word32, month: Word32, day: Word32): Word32 {
    var (y, m) := MarchWords(year, month);
    SumWords(y, m, day)
  }

  function MarchWords(year: Word32, month: Word32): (Word32, Word32) {
    var a := Wrap(14 - month) / 12;
    (Wrap(Wrap(year + 4800) - a), Wrap(Wrap(month + Wrap(12 * a)) - 3))
  }

  function SumWords(y: Word32, m: Word32, day: Word32): Word32 {
    var months := Wrap(Wrap(153 * m) + 2) / 5;
    Wrap(Wrap(Wrap(Wrap(Wrap(Wrap(day + months) + Wrap(365 * y)) + y / 4) - y / 100) + y / 400) - 32045)
  }

  function SplitJulianDay(jd: Word32): (Word32, Word32, Word32) {
    var (b, c) := SplitCentury(jd);
    var (d, e) := SplitYear(c);
    SplitMonth(b, d, e)
  }

  function SplitCentury(jd: Word32): (Word32, Word32) {
    var a := Wrap(jd + 32044);
    var b := Wrap(Wrap(4 * a) + 3) / 146097;
    (b, Wrap(a - Wrap(146097 * b) / 4))
  }

  function SplitYear(c: Word32): (Word32, Word32) {
    var d := Wrap(Wrap(4 * c) + 3) / 1461;
    (d, Wrap(c - Wrap(1461 * d) / 4))
  }

  function SplitMonth(b: Word32, d: Word32, e: Word32): (Word32, Word32, Word32) {
    var m := Wrap(Wrap(5 * e) + 2) / 153;
    var day := Wrap(Wrap(e - Wrap(Wrap(153 * m) + 2) / 5) + 1);
    var month := Wrap(Wrap(m + 3) - Wrap(12 * (m / 10)));
    var year := Wrap(Wrap(Wrap(Wrap(100 * b) + d) - 4800) + m / 10);
    (year, month, day)
  }

  // -------------------------------------------------------------------------- The calendar

  predicate IsLeap(year: nat) { year % 4 == 0 && (year % 100 != 0 || year % 400 == 0) }

  function DaysIn(year: nat, month: nat): nat {
    if month == 2 then (if IsLeap(year) then 29 else 28)
    else if month == 4 || month == 6 || month == 9 || month == 11 then 30
    else 31
  }

  /** A date of the proleptic Gregorian calendar, from year 0 on. */
  predicate IsDate(d: Date) { 1 <= d.month <= 12 && 1 <= d.day <= DaysIn(d.year, d.month) }

  function NextDay(d: Date): Date {
    if d.day < DaysIn(d.year, d.month) then d.(day := d.day + 1)
    else if d.month < 12 then Date(d.year, d.month + 1, 1)
    else Date(d.year + 1, 1, 1)
  }

  // -------------------------------------------------------------- The arithmetic, unbounded

  /** Days before month m of a year that begins in March, m == 0. */
  function MonthStart(m: nat): nat { (153 * m + 2) / 5 }

  /** Days before year y, counted from March. */
  function YearStart(y: nat): int { 365 * y + y / 4 - y / 100 + y / 400 }

  /** The year and the month of a date when years begin in March, 4800 years earlier. */
  function MarchYear(d: Date): nat
    requires 1 <= d.month <= 12
  {
    d.year + 4800 - (14 - d.month) / 12
  }

  function MarchMonth(d: Date): nat
    requires 1 <= d.month <= 12
  {
    d.month + 12 * ((14 - d.month) / 12) - 3
  }

  /** The day number of a date. */
  function DayNumber(d: Date): int
    requires 1 <= d.month <= 12
  {
    d.day + MonthStart(MarchMonth(d)) + YearStart(MarchYear(d)) - 32045
  }

  /** The century of a day number, and the days into it. */
  function Century(jd: nat): (int, int) {
    var a := jd + 32044;
    var b := (4 * a + 3) / 146097;
    (b, a - 146097 * b / 4)
  }

  /** The year of a century, and the days into it. */
  function YearOf(c: int): (int, int) {
    var d := (4 * c + 3) / 1461;
    (d, c - 1461 * d / 4)
  }

  /** The date of a day of a March year. */
  function DateIn(b: int, d: int, e: int): (int, int, int) {
    var m := (5 * e + 2) / 153;
    (100 * b + d - 4800 + m / 10, m + 3 - 12 * (m / 10), e - (153 * m + 2) / 5 + 1)
  }

  /** The date of a day number. */
  function Split(jd: nat): (int, int, int) {
    var (b, c) := Century(jd);
    var (d, e) := YearOf(c);
    DateIn(b, d, e)
  }

  // --------------------------------------------------------------------- Number, then Split

  /** A year of the March calendar by century and year of the century. */
  lemma YearStartByCentury(century: nat, rest: nat)
    requires rest < 100
    ensures YearStart(100 * century + rest) == 146097 * century / 4 + 365 * rest + rest / 4
  {
    var y := 100 * century + rest;
    assert y / 100 == century;
    assert y / 4 == 25 * century + rest / 4;
    assert y / 400 == century / 4;
  }

  /** Where a date falls in its March year; only 29 February is the 366th day. */
  lemma DayOfYear(d: Date) returns (e: nat)
    requires IsDate(d)
    ensures e == MonthStart(MarchMonth(d)) + d.day - 1 <= 365
    ensures e == 365 ==> IsLeap(d.year) && MarchYear(d) == d.year + 4799
    ensures (5 * e + 2) / 153 == MarchMonth(d)
  {
    var m := MarchMonth(d);
    assert m in {0, 1, 2, 3, 4, 5, 6, 7, 8, 9, 10, 11};
    e := MonthStart(m) + d.day - 1;
  }

  lemma YearOfCentury(rest: nat, e: nat)
    requires rest < 100 && e <= 365 && (e == 365 ==> rest % 4 == 3)
    ensures var c := 365 * rest + rest / 4 + e;
      c <= 36524 && (c == 36524 ==> rest == 99 && e == 365) && (4 * c + 3) / 1461 == rest && c - 1461 * rest / 4 == e
  {
    assert 1461 * rest / 4 == 365 * rest + rest / 4;
    assert rest == 99 || rest <= 98;
  }

  lemma CenturyOf(century: nat, c: nat)
    requires c <= 36524 && (c == 36524 ==> century % 4 == 3)
    ensures (4 * (146097 * century / 4 + c) + 3) / 146097 == century
  {
    assert 146097 * century / 4 == 36524 * century + century / 4;
  }

  lemma MonthBack(d: Date)
    requires IsDate(d)
    ensures var m := MarchMonth(d); m + 3 - 12 * (m / 10) == d.month && m / 10 == (14 - d.month) / 12
  {
    assert d.month in {1, 2, 3, 4, 5, 6, 7, 8, 9, 10, 11, 12};
  }

  /** In the March calendar the leap day ends the year before. */
  lemma LeapShift(year: nat)
    requires IsLeap(year)
    ensures (year + 4799) % 100 % 4 == 3
    ensures (year + 4799) % 100 == 99 ==> (year + 4799) / 100 % 4 == 3
  {
    var q := year / 4;
    assert year == 4 * q;
    if (year + 4799) % 100 == 99 {
      assert year % 100 == 0;
      assert year % 400 == 0;
    }
  }

  /** A date's number by century, year of the century and day of the March year. */
  lemma NumberByCentury(d: Date) returns (e: nat)
    requires IsDate(d)
    ensures e == MonthStart(MarchMonth(d)) + d.day - 1 <= 365
    ensures var century, rest := MarchYear(d) / 100, MarchYear(d) % 100;
      && DayNumber(d) + 32044 == 146097 * century / 4 + (365 * rest + rest / 4 + e)
      && (e == 365 ==> rest % 4 == 3 && (rest == 99 ==> century % 4 == 3))
    ensures (5 * e + 2) / 153 == MarchMonth(d)
  {
    var century, rest := MarchYear(d) / 100, MarchYear(d) % 100;
    e := DayOfYear(d);
    if e == 365 {
      LeapShift(d.year);
    }
    YearStartByCentury(century, rest);
  }

  /** What the divisions of splitJulianDay yield on a date's number: century, year of the century and
    day of the March year. */
  lemma SplitSteps(date: Date) returns (b: nat, d: nat, e: nat)
    requires IsDate(date)
    ensures MarchYear(date) == 100 * b + d && d < 100
    ensures e == MonthStart(MarchMonth(date)) + date.day - 1 <= 365 && 365 * d + d / 4 + e <= 36524
    ensures DayNumber(date) >= 365 * date.year && Century(DayNumber(date)) == (b, 365 * d + d / 4 + e)
    ensures YearOf(365 * d + d / 4 + e) == (d, e)
    ensures (5 * e + 2) / 153 == MarchMonth(date)
  {
    b, d := MarchYear(date) / 100, MarchYear(date) % 100;
    e := NumberByCentury(date);
    YearOfCentury(d, e);
    CenturyOf(b, 365 * d + d / 4 + e);
  }

  lemma SplitOfParts(jd: nat, b: int, c: int, d: int, e: int)
    requires Century(jd) == (b, c) && YearOf(c) == (d, e)
    ensures Split(jd) == DateIn(b, d, e)
  {
  }

  lemma DateInGivesDate(date: Date, b: nat, d: nat, e: nat)
    requires IsDate(date) && MarchYear(date) == 100 * b + d
    requires e == MonthStart(MarchMonth(date)) + date.day - 1 && (5 * e + 2) / 153 == MarchMonth(date)
    ensures DateIn(b, d, e) == (date.year, date.month, date.day)
  {
    MonthBack(date);
  }

  /** Splitting a date's number gives the date back. */
  lemma SplitNumber(d: Date)
    requires IsDate(d)
    ensures DayNumber(d) >= 0 && Split(DayNumber(d)) == (d.year, d.month, d.day)
  {
    var century, rest, e := SplitSteps(d);
    SplitOfParts(DayNumber(d), century, 365 * rest + rest / 4 + e, rest, e);
    DateInGivesDate(d, century, rest, e);
  }

  // --------------------------------------------------------------------- Split, then Number

  lemma MarchCalendar(d: Date)
    requires 1 <= d.month <= 12
    ensures MarchMonth(d) == if d.month <= 2 then d.month + 9 else d.month - 3
    ensures MarchYear(d) == if d.month <= 2 then d.year + 4799 else d.year + 4800
  {
    assert d.month in {1, 2, 3, 4, 5, 6, 7, 8, 9, 10, 11, 12};
  }

  /** The months of the March calendar have the lengths of the calendar, the last one excepted. */
  lemma MonthLengths(d: Date)
    requires 1 <= d.month <= 12 && d.month != 2
    ensures MonthStart(MarchMonth(d)) + DaysIn(d.year, d.month) == MonthStart(MarchMonth(d) + 1)
  {
    MarchCalendar(d);
    var m := MarchMonth(d);
    assert m in {0, 1, 2, 3, 4, 5, 6, 7, 8, 9, 10};
  }

  /** The next day of the calendar has the next number, over ends of months, leap days and years. */
  lemma NextDayNumber(d: Date)
    requires IsDate(d)
    ensures IsDate(NextDay(d)) && DayNumber(NextDay(d)) == DayNumber(d) + 1
  {
    MarchCalendar(d);
    MarchCalendar(NextDay(d));
    if d.day == DaysIn(d.year, d.month) {
      if d.month == 2 {
        MarchYearBegins(d.year);
        assert MonthStart(11) == 337 && MonthStart(0) == 0;
      } else {
        MonthLengths(d);
      }
    }
  }

  lemma MarchYearBegins(year: nat)
    ensures YearStart(year + 4800) == YearStart(year + 4799) + if IsLeap(year) then 366 else 365
  {
    StepsBy4(year);
    StepsBy100(year);
    StepsBy400(year);
    CenturiesAreEven(year);
  }

  lemma CenturiesAreEven(year: nat)
    ensures year % 400 == 0 ==> year % 100 == 0
    ensures year % 100 == 0 ==> year % 4 == 0
  {
    if year % 400 == 0 {
      Multiple400(year / 400);
    }
    if year % 100 == 0 {
      Multiple100(year / 100);
    }
  }

  lemma Multiple400(q: nat)
    ensures 400 * q % 100 == 0
  {
    var k := 4 * q;
    assert 400 * q == 100 * k && 100 * k % 100 == 0;
  }

  lemma Multiple100(q: nat)
    ensures 100 * q % 4 == 0
  {
    var k := 25 * q;
    assert 100 * q == 4 * k && 4 * k % 4 == 0;
  }

  lemma StepsBy4(year: nat)
    ensures (year + 4800) / 4 == (year + 4799) / 4 + if year % 4 == 0 then 1 else 0
  {
  }

  lemma StepsBy100(year: nat)
    ensures (year + 4800) / 100 == (year + 4799) / 100 + if year % 100 == 0 then 1 else 0
  {
  }

  lemma StepsBy400(year: nat)
    ensures (year + 4800) / 400 == (year + 4799) / 400 + if year % 400 == 0 then 1 else 0
  {
  }

  const FIRST_DAY: nat := 1721060
  const LAST_DAY: nat := 5373484

  /** Published Julian day numbers; with NextDayNumber they fix all the others. */
  lemma KnownDays()
    ensures DayNumber(Date(0, 1, 1)) == 1721060 && DayNumber(Date(1582, 10, 15)) == 2299161
    ensures DayNumber(Date(1970, 1, 1)) == 2440588 && DayNumber(Date(2000, 3, 1)) == 2451605
    ensures DayNumber(Date(9999, 12, 31)) == 5373484
  {
    hide DayNumber;
    NumberInMarchYear(Date(0, 1, 1), 4799, 10);
    NumberInMarchYear(Date(1582, 10, 15), 6382, 7);
    NumberInMarchYear(Date(1970, 1, 1), 6769, 10);
    NumberInMarchYear(Date(2000, 3, 1), 6800, 0);
    NumberInMarchYear(Date(9999, 12, 31), 14799, 9);
  }

  lemma NumberInMarchYear(d: Date, y: nat, m: nat)
    requires 1 <= d.month <= 12
    requires y == (if d.month <= 2 then d.year + 4799 else d.year + 4800)
    requires m == if d.month <= 2 then d.month + 9 else d.month - 3
    ensures DayNumber(d) == d.day + (153 * m + 2) / 5 + (365 * y + y / 4 - y / 100 + y / 400) - 32045
  {
    hide MarchYear, MarchMonth;
    MarchCalendar(d);
  }

  /** The calendar, day by day from 1 January of year 0. */
  function DateOf(jd: nat): (d: Date)
    requires jd >= FIRST_DAY
    ensures IsDate(d) && DayNumber(d) == jd
  {
    if jd == FIRST_DAY then Date(0, 1, 1)
    else
      NextDayNumber(DateOf(jd - 1));
      NextDay(DateOf(jd - 1))
  }

  /** Every number from 1721060 on splits into a real date, whose number it is. */
  lemma NumberSplit(jd: nat)
    requires jd >= FIRST_DAY
    ensures var (year, month, day) := Split(jd);
      year >= 0 && month >= 0 && day >= 0 && IsDate(Date(year, month, day)) && DayNumber(Date(year, month, day)) == jd
  {
    SplitNumber(DateOf(jd));
  }

  // ------------------------------------------------------------------------- 32-bit words

  lemma NoWrap(x: int)
    requires 0 <= x < 0x1_0000_0000
    ensures Wrap(x) == x
  {
  }

  lemma WrapTwice(x: int, k: nat)
    ensures Wrap(Wrap(x) + k) == Wrap(x + k)
  {
  }

  lemma YearStartGrows(a: nat, b: nat)
    requires a <= b
    ensures YearStart(a) <= YearStart(b)
  {
  }

  lemma NumberRange(d: Date)
    requires d.year <= 9999 && 1 <= d.month <= 12 && 1 <= d.day <= 31
    ensures FIRST_DAY <= DayNumber(d) <= LAST_DAY
  {
    MarchCalendar(d);
    YearStartGrows(4799, MarchYear(d));
    YearStartGrows(MarchYear(d), 14799);
    if d.month <= 2 {
      YearStartGrows(MarchYear(d), 14798);
    } else {
      YearStartGrows(4800, MarchYear(d));
    }
  }

  /** No step that leads to the March calendar wraps: every intermediate value fits. */
  predicate MarchFits(year: nat, month: nat) {
    var a := (14 - month) / 12;
    && Fits(14 - month) && Fits(year + 4800) && Fits(year + 4800 - a)
    && Fits(12 * a) && Fits(month + 12 * a) && Fits(month + 12 * a - 3)
  }

  /** No step of the sum wraps, for year y and month m of the March calendar. */
  predicate SumFits(y: int, m: int, day: nat) {
    var days := day + (153 * m + 2) / 5;
    && Fits(153 * m) && Fits(153 * m + 2) && Fits(days) && Fits(365 * y) && Fits(days + 365 * y)
    && Fits(days + 365 * y + y / 4) && Fits(days + 365 * y + y / 4 - y / 100)
    && Fits(days + YearStart(y)) && Fits(days + YearStart(y) - 32045)
  }

  /** No step of mergeJulianDay wraps. */
  predicate MergeFits(year: nat, month: nat, day: nat) {
    var a := (14 - month) / 12;
    MarchFits(year, month) && SumFits(year + 4800 - a, month + 12 * a - 3, day)
  }

  /** The steps listed are those of the code: when none of them wraps, it computes the unbounded value. */
  lemma MergeFitsIsExact(d: Date)
    requires 1 <= d.month <= 12 && MergeFits(d.year, d.month, d.day)
    requires d.year < 0x1_0000_0000 && d.day < 0x1_0000_0000
    ensures MergeJulianDay(d.year, d.month, d.day) == DayNumber(d)
  {
    MergeFitsParts(d);
    MarchFitsIsExact(d);
    SumFitsIsExact(MarchYear(d), MarchMonth(d), d.day);
    MergeByParts(d.year, d.month, d.day, MarchYear(d), MarchMonth(d));
  }

  lemma MergeFitsParts(d: Date)
    requires 1 <= d.month <= 12 && MergeFits(d.year, d.month, d.day)
    ensures MarchFits(d.year, d.month) && Fits(MarchYear(d)) && Fits(MarchMonth(d))
    ensures SumFits(MarchYear(d), MarchMonth(d), d.day)
  {
  }

  lemma MergeByParts(year: Word32, month: Word32, day: Word32, y: Word32, m: Word32)
    requires MarchWords(year, month) == (y, m)
    ensures MergeJulianDay(year, month, day) == SumWords(y, m, day)
  {
  }

  lemma MarchFitsIsExact(d: Date)
    requires 1 <= d.month <= 12 && MarchFits(d.year, d.month) && d.year < 0x1_0000_0000
    ensures MarchWords(d.year, d.month) == (MarchYear(d), MarchMonth(d))
  {
  }

  lemma SumFitsIsExact(y: Word32, m: Word32, day: Word32)
    requires SumFits(y, m, day)
    ensures SumWords(y, m, day) == day + MonthStart(m) + YearStart(y) - 32045
  {
  }

  /** Up to year 9999 no step of mergeJulianDay wraps. */
  lemma NoMergeStepWraps(d: Date)
    requires d.year <= 9999 && 1 <= d.month <= 12 && 1 <= d.day <= 31
    ensures MergeFits(d.year, d.month, d.day)
  {
    NumberRange(d);
    MarchCalendar(d);
  }

  lemma MergeIsExact(d: Date)
    requires d.year <= 9999 && 1 <= d.month <= 12 && 1 <= d.day <= 31
    ensures MergeJulianDay(d.year, d.month, d.day) == DayNumber(d)
    ensures FIRST_DAY <= DayNumber(d) <= LAST_DAY
  {
    NumberRange(d);
    NoMergeStepWraps(d);
    MergeFitsIsExact(d);
  }

  // The greatest day number whose 4 * a + 3 is below 2^32.
  const LAST_EXACT: nat := 1073709779

  /** No step of splitJulianDay wraps: every intermediate value fits. */
  predicate SplitFits(jd: nat) {
    var (b, c) := Century(jd);
    var (d, e) := YearOf(c);
    CenturyFits(jd) && YearFits(c) && MonthFits(b, d, e)
  }

  predicate CenturyFits(jd: nat) {
    var a := jd + 32044;
    var (b, c) := Century(jd);
    Fits(a) && Fits(4 * a) && Fits(4 * a + 3) && Fits(146097 * b) && Fits(c)
  }

  predicate YearFits(c: int) {
    var (d, e) := YearOf(c);
    Fits(4 * c) && Fits(4 * c + 3) && Fits(1461 * d) && Fits(e)
  }

  predicate MonthFits(b: int, d: int, e: int) {
    var m := (5 * e + 2) / 153;
    && Fits(5 * e) && Fits(5 * e + 2) && Fits(153 * m) && Fits(153 * m + 2)
    && Fits(e - (153 * m + 2) / 5) && Fits(e - (153 * m + 2) / 5 + 1)
    && Fits(m + 3) && Fits(12 * (m / 10)) && Fits(m + 3 - 12 * (m / 10))
    && Fits(100 * b) && Fits(100 * b + d) && Fits(100 * b + d - 4800) && Fits(100 * b + d - 4800 + m / 10)
  }

  /** The steps listed are those of the code: when none of them wraps, it computes the unbounded value. */
  lemma SplitFitsIsExact(jd: Word32)
    requires SplitFits(jd)
    ensures SplitJulianDay(jd) == Split(jd)
  {
    var (b, c) := Century(jd);
    var (d, e) := YearOf(c);
    CenturyFitsIsExact(jd);
    YearFitsIsExact(c);
    SplitByParts(jd, b, c, d, e);
    MonthFitsIsExact(b, d, e);
  }

  lemma SplitByParts(jd: Word32, b: Word32, c: Word32, d: Word32, e: Word32)
    requires SplitCentury(jd) == (b, c) && SplitYear(c) == (d, e)
    ensures SplitJulianDay(jd) == SplitMonth(b, d, e)
  {
  }

  lemma CenturyFitsIsExact(jd: Word32)
    requires CenturyFits(jd)
    ensures SplitCentury(jd) == Century(jd)
  {
  }

  lemma YearFitsIsExact(c: Word32)
    requires YearFits(c)
    ensures SplitYear(c) == YearOf(c)
  {
  }

  lemma MonthFitsIsExact(b: Word32, d: Word32, e: Word32)
    requires MonthFits(b, d, e)
    ensures SplitMonth(b, d, e) == DateIn(b, d, e)
  {
  }

  /** Exactly the days from 1 March of year 0 on, as far as 4 * a + 3 fits, split without wrapping. */
  lemma NoSplitStepWraps(jd: Word32)
    ensures SplitFits(jd) <==> FIRST_DAY + 60 <= jd <= LAST_EXACT
  {
    if jd < FIRST_DAY + 60 {
      EarlyYearWraps(jd);
    } else if jd <= LAST_EXACT {
      LateDayFits(jd);
    }
  }

  /** Before 1 March of year 0 the year, counted from March, is below 4800. */
  lemma EarlyYearWraps(jd: nat)
    requires jd < FIRST_DAY + 60
    ensures !SplitFits(jd)
  {
    var a := jd + 32044;
    var b := (4 * a + 3) / 146097;
    var c := a - 146097 * b / 4;
    var d := (4 * c + 3) / 1461;
    assert b <= 47;
    assert c <= 36524;
    assert d <= 99;
  }

  lemma LateDayFits(jd: nat)
    requires FIRST_DAY + 60 <= jd <= LAST_EXACT
    ensures SplitFits(jd)
  {
    var date := DateOf(jd);
    var b, d, e := SplitSteps(date);
    MonthBack(date);
    MarchCalendar(date);
    SinceMarch(date);
  }

  lemma SinceMarch(d: Date)
    requires IsDate(d) && DayNumber(d) >= FIRST_DAY + 60
    ensures MarchYear(d) >= 4800
  {
    MarchCalendar(d);
  }

  /** From year 0 on, and far beyond year 9999, splitJulianDay is exact, also in the first two months
    of year 0, where a step wraps to -1 and the next one wraps back. */
  lemma SplitIsExact(jd: nat)
    requires FIRST_DAY <= jd <= LAST_EXACT
    ensures SplitJulianDay(jd) == Split(jd)
  {
    var date := DateOf(jd);
    SplitWords(date);
    SplitNumber(date);
  }

  lemma SplitWords(date: Date)
    requires IsDate(date) && FIRST_DAY <= DayNumber(date) <= LAST_EXACT
    ensures SplitJulianDay(DayNumber(date)) == (date.year, date.month, date.day)
  {
    var b, d, e := SplitSteps(date);
    CenturyFitsIsExact(DayNumber(date));
    YearFitsIsExact(365 * d + d / 4 + e);
    SplitByParts(DayNumber(date), b, 365 * d + d / 4 + e, d, e);
    SplitMonthIsExact(date, b, d, e);
  }

  /** 1 January of year 0: subtracting 4800 wraps. The split is right nevertheless, because the next
    step wraps back. */
  lemma FirstDayWraps(jd: Word32)
    requires jd == FIRST_DAY
    ensures !SplitFits(jd) && SplitJulianDay(jd) == (0, 1, 1)
  {
    EarlyYearWraps(jd);
    SplitWords(DateOf(jd));
  }

  lemma SplitMonthIsExact(date: Date, b: Word32, d: Word32, e: Word32)
    requires IsDate(date) && e == MonthStart(MarchMonth(date)) + date.day - 1 <= 365
    requires MarchYear(date) == 100 * b + d && (5 * e + 2) / 153 == MarchMonth(date) && date.year < 0x1000_0000
    ensures SplitMonth(b, d, e) == (date.year, date.month, date.day)
  {
    MonthBack(date);
    MarchCalendar(date);
    WrapTwice(100 * b + d - 4800, MarchMonth(date) / 10);
  }

  /** On all real dates of the years 0 to 9999 the words merge and split to each other. */
  lemma MergeAndSplitAreInverse(d: Date)
    requires IsDate(d) && d.year <= 9999
    ensures FIRST_DAY <= MergeJulianDay(d.year, d.month, d.day) <= LAST_DAY
    ensures SplitJulianDay(MergeJulianDay(d.year, d.month, d.day)) == (d.year, d.month, d.day)
  {
    MergeIsExact(d);
    SplitNumber(d);
    SplitIsExact(DayNumber(d));
  }

  lemma SplitAndMergeAreInverse(jd: nat)
    requires FIRST_DAY <= jd <= LAST_DAY
    ensures var (year, month, day) := SplitJulianDay(jd);
      IsDate(Date(year, month, day)) && year <= 9999 && MergeJulianDay(year, month, day) == jd
  {
    var (year, month, day) := SplitJulianDay(jd);
    SplitIsExact(jd);
    NumberSplit(jd);
    if year > 9999 {
      LaterYear(Date(year, month, day));
    }
    MergeIsExact(Date(year, month, day));
  }

  lemma LaterYear(d: Date)
    requires IsDate(d) && d.year > 9999
    ensures DayNumber(d) > LAST_DAY
  {
  }

  // -------------------------------------------------------------------------- Times of day

  function MergeTime(t: Time): Word32 {
    Wrap(Wrap(Wrap(t.ms + Wrap(1000 * t.second)) + Wrap(60 * 1000 * t.minute)) + Wrap(60 * 60 * 1000 * t.hour))
  }

  function SplitTime(value: nat): Time {
    var seconds := value / 1000;
    var minutes := seconds / 60;
    Time(minutes / 60 % 24, minutes % 60, seconds % 60, value % 1000)
  }

  predicate IsTime(t: Time) { t.hour < 24 && t.minute < 60 && t.second < 60 && t.ms < 1000 }

  /** The milliseconds of a day and its times of day correspond. */
  lemma SplitTimeMerges(value: nat)
    requires value < 86400000
    ensures IsTime(SplitTime(value)) && MergeTime(SplitTime(value)) == value
  {
    MergeTimeIsExact(SplitTime(value));
  }

  lemma MergeTimeSplits(t: Time)
    requires IsTime(t)
    ensures MergeTime(t) < 86400000 && SplitTime(MergeTime(t)) == t
  {
    MergeTimeIsExact(t);
    var seconds := t.second + 60 * t.minute + 3600 * t.hour;
    assert MergeTime(t) / 1000 == seconds;
    assert seconds / 60 == t.minute + 60 * t.hour;
  }

  lemma MergeTimeIsExact(t: Time)
    requires IsTime(t)
    ensures MergeTime(t) == t.ms + 1000 * t.second + 60000 * t.minute + 3600000 * t.hour
  {
  }
}
