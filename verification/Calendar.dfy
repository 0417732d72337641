/**
  muduo's calendar arithmetic: Julian day numbers (Date.cc) and UTC seconds
  (TimeZone.cc), in C's truncating division over unbounded integers.
 */
module Calendar {

  /** C division and remainder: the quotient is truncated toward zero. */
  function Div(a: int, b: int): int
    requires b > 0
  {
    if a >= 0 then a / b else -((-a) / b)
  }

  function Rem(a: int, b: int): int
    requires b > 0
  {
    a - Div(a, b) * b
  }

  datatype Date = Date(year: int, month: int, day: int)

  function JulianDay(d: Date): int {
    var a := Div(14 - d.month, 12);
    var y := d.year + 4800 - a;
    var m := d.month + 12 * a - 3;
    d.day + Div(153 * m + 2, 5) + y * 365 + Div(y, 4) - Div(y, 100) + Div(y, 400) - 32045
  }

  function YearMonthDay(julianDay: int): Date {
    var a := julianDay + 32044;
    var b := Div(4 * a + 3, 146097);
    var c := a - Div(b * 146097, 4);
    var d := Div(4 * c + 3, 1461);
    var e := c - Div(1461 * d, 4);
    var m := Div(5 * e + 2, 153);
    Date(b * 100 + d - 4800 + Div(m, 10), m + 3 - 12 * Div(m, 10), e - Div(153 * m + 2, 5) + 1)
  }

  // ---------- The Gregorian calendar, independently ----------

  predicate IsLeap(year: int) {
    year % 4 == 0 && (year % 100 != 0 || year % 400 == 0)
  }

  function DaysInMonth(year: int, month: int): int {
    if month == 2 then (if IsLeap(year) then 29 else 28)
    else if month == 4 || month == 6 || month == 9 || month == 11 then 30
    else 31
  }

  predicate IsDate(d: Date) {
    1 <= d.month <= 12 && 1 <= d.day <= DaysInMonth(d.year, d.month)
  }

  function NextDay(d: Date): (r: Date)
    requires IsDate(d)
    ensures IsDate(r)
  {
    if d.day < DaysInMonth(d.year, d.month) then d.(day := d.day + 1)
    else if d.month < 12 then Date(d.year, d.month + 1, 1)
    else Date(d.year + 1, 1, 1)
  }

  /** 1 March -4800 is where the computation stays free of negative operands. */
  predicate InRange(d: Date) {
    d.year > -4800 || (d.year == -4800 && d.month >= 3)
  }

  const FIRST_DAY := -32044

  // ---------- Years that start in March ----------

  /** Years since March -4800, and months since March. */
  function MarchYear(d: Date): int {
    if d.month <= 2 then d.year + 4799 else d.year + 4800
  }

  function MarchMonth(d: Date): int {
    if d.month <= 2 then d.month + 9 else d.month - 3
  }

  /** Days before month `m` of a year that starts in March. */
  function DaysBefore(m: int): int
    requires 0 <= m <= 11
  {
    (153 * m + 2) / 5
  }

  function MonthLength(m: int): int
    requires 0 <= m <= 10
  {
    DaysBefore(m + 1) - DaysBefore(m)
  }

  lemma InMarchYears(d: Date)
    requires IsDate(d)
    ensures 0 <= MarchMonth(d) <= 11
    ensures InRange(d) <==> MarchYear(d) >= 0
    ensures MarchMonth(d) <= 10 ==> DaysInMonth(d.year, d.month) == MonthLength(MarchMonth(d))
    ensures MarchMonth(d) == 11 ==> d.month == 2
    ensures var y := MarchYear(d);
            JulianDay(d) + 32044 == d.day - 1 + DaysBefore(MarchMonth(d))
                                    + y * 365 + Div(y, 4) - Div(y, 100) + Div(y, 400)
  {
    var a := Div(14 - d.month, 12);
    assert a == if d.month <= 2 then 1 else 0;
    assert d.year + 4800 - a == MarchYear(d) && d.month + 12 * a - 3 == MarchMonth(d);
  }

  /** The day of a March-based year, counted from 0. */
  function DayOfYear(d: Date): int
    requires IsDate(d)
  {
    InMarchYears(d);
    d.day - 1 + DaysBefore(MarchMonth(d))
  }

  /** Days before March-based year `y` >= 0. */
  function YearStart(y: int): int
    requires y >= 0
  {
    y * 365 + y / 4 - y / 100 + y / 400
  }

  function YearLength(y: int): int
    requires y >= 0
  {
    YearStart(y + 1) - YearStart(y)
  }

  lemma YearLengthIs(y: int)
    requires y >= 0
    ensures YearLength(y) == if IsLeap(y - 4799) then 366 else 365
  {
    Quotients(y);
    Remainders(y + 1);
  }

  /** The calendar repeats itself after 400 years, so the shift by 4800 does not matter. */
  lemma Remainders(x: int)
    ensures (x - 4800) % 4 == x % 4 && (x - 4800) % 100 == x % 100 && (x - 4800) % 400 == x % 400
  {
    assert x - 4800 == 4 * (x / 4 - 1200) + x % 4;
    assert x - 4800 == 100 * (x / 100 - 48) + x % 100;
    assert x - 4800 == 400 * (x / 400 - 12) + x % 400;
  }

  lemma Quotients(y: int)
    ensures (y + 1) / 4 == y / 4 + if (y + 1) % 4 == 0 then 1 else 0
    ensures (y + 1) / 100 == y / 100 + if (y + 1) % 100 == 0 then 1 else 0
    ensures (y + 1) / 400 == y / 400 + if (y + 1) % 400 == 0 then 1 else 0
  {
  }

  /** A date in range is a day of its March-based year. */
  lemma DayOfYearIsInYear(d: Date)
    requires IsDate(d) && InRange(d)
    ensures MarchYear(d) >= 0 && 0 <= DayOfYear(d) < YearLength(MarchYear(d))
    ensures JulianDay(d) + 32044 == YearStart(MarchYear(d)) + DayOfYear(d)
  {
    InMarchYears(d);
    YearLengthIs(MarchYear(d));
  }

  // ---------- The calendar's next day is the next day number ----------

  /** The next day follows in the same March-based year, or it is the first day of the next one. */
  lemma NextInMarchYears(d: Date)
    requires IsDate(d) && InRange(d)
    ensures IsDate(NextDay(d)) && InRange(NextDay(d))
    ensures if MarchMonth(d) == 11 && d.day == DaysInMonth(d.year, d.month)
            then MarchYear(NextDay(d)) == MarchYear(d) + 1 && DayOfYear(NextDay(d)) == 0
            else MarchYear(NextDay(d)) == MarchYear(d) && DayOfYear(NextDay(d)) == DayOfYear(d) + 1
  {
    InMarchYears(d);
    InMarchYears(NextDay(d));
  }

  /** The last day of February closes the year. */
  lemma LastDayOfMarchYear(d: Date)
    requires IsDate(d) && InRange(d) && MarchMonth(d) == 11 && d.day == DaysInMonth(d.year, d.month)
    ensures DayOfYear(d) + 1 == YearLength(MarchYear(d))
  {
    InMarchYears(d);
    YearLengthIs(MarchYear(d));
  }

  lemma NextDayIsNextNumber(d: Date)
    requires IsDate(d) && InRange(d)
    ensures InRange(NextDay(d)) && JulianDay(NextDay(d)) == JulianDay(d) + 1
  {
    NextInMarchYears(d);
    DayOfYearIsInYear(d);
    DayOfYearIsInYear(NextDay(d));
    if MarchMonth(d) == 11 && d.day == DaysInMonth(d.year, d.month) {
      LastDayOfMarchYear(d);
    }
  }

  // ---------- The digits come back one by one ----------

  lemma YearStartSplits(b: int, d: int)
    requires b >= 0 && 0 <= d < 100
    ensures YearStart(100 * b + d) == (b * 146097) / 4 + (1461 * d) / 4
  {
    var y := 100 * b + d;
    assert y / 100 == b && y / 4 == 25 * b + d / 4 && y / 400 == b / 4;
    assert (b * 146097) / 4 == 36524 * b + b / 4;
    assert (1461 * d) / 4 == 365 * d + d / 4;
  }

  lemma CenturyComesBack(b: int, c: int)
    requires b >= 0 && 0 <= c <= 36524 && (c == 36524 ==> b % 4 == 3)
    ensures (4 * ((b * 146097) / 4 + c) + 3) / 146097 == b
  {
    var q, r := b / 4, b % 4;
    assert (b * 146097) / 4 == 36524 * b + q;
    var n := 4 * (36524 * b + q + c) + 3;
    assert n == 146097 * b + (4 * c + 3 - r);
  }

  lemma YearComesBack(d: int, e: int)
    requires 0 <= d < 100 && 0 <= e <= 365 && (e == 365 ==> d % 4 == 3)
    ensures (4 * ((1461 * d) / 4 + e) + 3) / 1461 == d
  {
    var q, r := d / 4, d % 4;
    assert (1461 * d) / 4 == 365 * d + q;
    var n := 4 * (365 * d + q + e) + 3;
    assert n == 1461 * d + (4 * e + 3 - r);
  }

  lemma MonthComesBack(m: int, k: int)
    requires 0 <= m <= 11 && 0 <= k && (m <= 10 ==> k < MonthLength(m)) && (m == 11 ==> k < 29)
    ensures (5 * (DaysBefore(m) + k) + 2) / 153 == m
  {
  }

  /** The year behind `100 * b + d` as a multiple of 4, 100 and 400. */
  lemma LeapDigits(b: int, d: int)
    requires b >= 0 && 0 <= d < 100
    ensures (100 * b + d + 1) % 4 == (d + 1) % 4
    ensures d == 99 ==> (100 * b + d + 1) % 100 == 0 && ((100 * b + d + 1) % 400 == 0 ==> b % 4 == 3)
  {
    var q, r := (b + 1) / 4, (b + 1) % 4;
    assert 100 * b + d + 1 == 4 * (25 * b + (d + 1) / 4) + (d + 1) % 4;
    assert 100 * (b + 1) == 400 * q + 100 * r;
  }

  /** The two digits of a March-based year and the day in it satisfy what the decoder relies on. */
  lemma DigitsInRange(y: int, b: int, d: int, e: int)
    requires b >= 0 && 0 <= d < 100 && y == 100 * b + d && 0 <= e < YearLength(y)
    ensures 0 <= e <= 365 && (e == 365 ==> d % 4 == 3)
    ensures 0 <= (1461 * d) / 4 + e <= 36524 && ((1461 * d) / 4 + e == 36524 ==> b % 4 == 3)
  {
    YearLengthIs(y);
    Remainders(y + 1);
    LeapDigits(b, d);
    assert (1461 * d) / 4 == 365 * d + d / 4;
  }

  lemma DecodeYear(y: int, e: int)
    requires y >= 0 && 0 <= e < YearLength(y)
    ensures var a := YearStart(y) + e;
            var b := Div(4 * a + 3, 146097);
            var c := a - Div(b * 146097, 4);
            var d := Div(4 * c + 3, 1461);
            b == y / 100 && d == y % 100 && c - Div(1461 * d, 4) == e
  {
    var b, d := y / 100, y % 100;
    assert y == 100 * b + d;
    DigitsInRange(y, b, d, e);
    YearStartSplits(b, d);
    CenturyComesBack(b, (1461 * d) / 4 + e);
    YearComesBack(d, e);
  }

  /** Decoding inverts encoding from 1 March -4800 on. */
  lemma YearMonthDayInvertsJulianDay(d: Date)
    requires IsDate(d) && InRange(d)
    ensures YearMonthDay(JulianDay(d)) == d
  {
    DayOfYearIsInYear(d);
    DecodeNumber(JulianDay(d), MarchYear(d), DayOfYear(d));
    MonthIsDecoded(d);
    FromMarchYear(d);
  }

  lemma DecodeNumber(j: int, y: int, e: int)
    requires y >= 0 && 0 <= e < YearLength(y) && j + 32044 == YearStart(y) + e
    ensures var m := (5 * e + 2) / 153;
            YearMonthDay(j) == Date(y - 4800 + m / 10, m + 3 - 12 * (m / 10), e - (153 * m + 2) / 5 + 1)
  {
    DecodeYear(y, e);
    DecodeDay(j, y / 100, y % 100, e);
  }

  lemma MonthIsDecoded(d: Date)
    requires IsDate(d)
    ensures (5 * DayOfYear(d) + 2) / 153 == MarchMonth(d)
  {
    InMarchYears(d);
    MonthComesBack(MarchMonth(d), d.day - 1);
  }

  lemma FromMarchYear(d: Date)
    requires IsDate(d)
    ensures var y, m := MarchYear(d), MarchMonth(d);
            0 <= m <= 11 && Date(y - 4800 + m / 10, m + 3 - 12 * (m / 10), DayOfYear(d) - DaysBefore(m) + 1) == d
  {
  }

  /** What YearMonthDay makes of a century, a year in it and a day in that. */
  lemma DecodeDay(j: int, b: int, d: int, e: int)
    requires e >= 0
    requires var a := j + 32044;
             && b == Div(4 * a + 3, 146097)
             && d == Div(4 * (a - Div(b * 146097, 4)) + 3, 1461)
             && e == a - Div(b * 146097, 4) - Div(1461 * d, 4)
    ensures var m := (5 * e + 2) / 153;
            YearMonthDay(j) == Date(b * 100 + d - 4800 + m / 10, m + 3 - 12 * (m / 10), e - (153 * m + 2) / 5 + 1)
  {
    var m := Div(5 * e + 2, 153);
    assert m == (5 * e + 2) / 153 && Div(153 * m + 2, 5) == (153 * m + 2) / 5 && Div(m, 10) == m / 10;
  }

  /** Every day number from the first on belongs to a date in range. */
  lemma {:induction false} JulianDayIsOnto(j: int) returns (d: Date)
    requires j >= FIRST_DAY
    ensures IsDate(d) && InRange(d) && JulianDay(d) == j
    decreases j - FIRST_DAY
  {
    if j == FIRST_DAY {
      d := Date(-4800, 3, 1);
    } else {
      var before := JulianDayIsOnto(j - 1);
      NextDayIsNextNumber(before);
      d := NextDay(before);
    }
  }

  /** Encoding inverts decoding for every day number from the first on, and the decoded date is a real one. */
  lemma JulianDayInvertsYearMonthDay(j: int)
    requires j >= FIRST_DAY
    ensures IsDate(YearMonthDay(j)) && InRange(YearMonthDay(j)) && JulianDay(YearMonthDay(j)) == j
  {
    var d := JulianDayIsOnto(j);
    YearMonthDayInvertsJulianDay(d);
  }

  /** Before the first day the truncated divisions never produce a real date. */
  lemma NoDateBeforeFirstDay(j: int)
    requires j < FIRST_DAY
    ensures YearMonthDay(j).day <= 0
  {
    var a := j + 32044;
    var b := Div(4 * a + 3, 146097);
    assert b * 146097 >= 4 * a + 3 && b <= 0;
    var c := a - Div(b * 146097, 4);
    assert c <= -1;
    var d := Div(4 * c + 3, 1461);
    assert 1461 * d >= 4 * c + 3 && d <= 0;
    var e := c - Div(1461 * d, 4);
    assert e <= -1;
    var m := Div(5 * e + 2, 153);
    assert 153 * m >= 5 * e + 2 && m <= 0;
  }

  /** The round trip from dates holds exactly from 1 March -4800 on. */
  lemma RoundTripIffInRange(d: Date)
    requires IsDate(d)
    ensures YearMonthDay(JulianDay(d)) == d <==> InRange(d)
  {
    if InRange(d) {
      YearMonthDayInvertsJulianDay(d);
    } else if JulianDay(d) >= FIRST_DAY {
      JulianDayInvertsYearMonthDay(JulianDay(d));
    } else {
      NoDateBeforeFirstDay(JulianDay(d));
    }
  }

  // ---------- UTC seconds ----------

  const SECONDS_PER_DAY := 86400
  /** Date::kJulianDayOf1970_01_01. */
  const EPOCH_DAY := JulianDay(Date(1970, 1, 1))

  /** struct tm, without the zone. */
  datatype Tm = Tm(sec: int, min: int, hour: int, mday: int, mon: int, year: int, wday: int, yday: int)

  /** Date::weekDay. */
  function WeekDay(julianDay: int): int {
    Rem(julianDay + 1, 7)
  }

  /** The day that a second falls on, and the second within it. */
  function DayNumber(t: int): int {
    t / SECONDS_PER_DAY + EPOCH_DAY
  }

  ghost function UtcTime(t: int, yday: bool): Tm {
    var seconds := t % SECONDS_PER_DAY;
    var date := YearMonthDay(DayNumber(t));
    Tm(seconds % 60, seconds / 60 % 60, seconds / 3600, date.day, date.month - 1, date.year - 1900,
       WeekDay(DayNumber(t)), if yday then DayNumber(t) - JulianDay(Date(date.year, 1, 1)) else 0)
  }

  function FromUtcTime(tm: Tm): int {
    var day := JulianDay(Date(tm.year + 1900, tm.mon + 1, tm.mday));
    (day - EPOCH_DAY) * SECONDS_PER_DAY + tm.hour * 3600 + tm.min * 60 + tm.sec
  }

  method FillHMS(seconds: nat, utc: Tm) returns (r: Tm)
    ensures r == utc.(sec := seconds % 60, min := seconds / 60 % 60, hour := seconds / 3600)
  {
    r := utc.(sec := Rem(seconds, 60));
    var minutes := Div(seconds, 60);
    r := r.(min := Rem(minutes, 60));
    r := r.(hour := Div(minutes, 60));
  }

  /** A negative remainder is corrected after the truncating division: together they round down. */
  method FloorDays(t: int) returns (days: int, seconds: int)
    ensures days == t / SECONDS_PER_DAY && seconds == t % SECONDS_PER_DAY
  {
    seconds := Rem(t, SECONDS_PER_DAY);
    days := Div(t, SECONDS_PER_DAY);
    if seconds < 0 {
      seconds := seconds + SECONDS_PER_DAY;
      days := days - 1;
    }
  }

  method ToUtcTime(secondsSinceEpoch: int, yday: bool) returns (utc: Tm)
    ensures utc == UtcTime(secondsSinceEpoch, yday)
  {
    utc := Tm(0, 0, 0, 0, 0, 0, 0, 0);
    var days, seconds := FloorDays(secondsSinceEpoch);
    utc := FillHMS(seconds, utc);
    var julianDay := days + EPOCH_DAY;
    assert julianDay == DayNumber(secondsSinceEpoch);
    var ymd := YearMonthDay(julianDay);
    utc := utc.(year := ymd.year - 1900, mon := ymd.month - 1, mday := ymd.day, wday := WeekDay(julianDay));
    if yday {
      utc := utc.(yday := julianDay - JulianDay(Date(ymd.year, 1, 1)));
    }
  }

  lemma SplitSeconds(s: int)
    requires 0 <= s < SECONDS_PER_DAY
    ensures s / 3600 * 3600 + s / 60 % 60 * 60 + s % 60 == s && 0 <= s / 3600 < 24
  {
    var m := s / 60;
    assert m / 60 == s / 3600;
  }

  lemma JoinSeconds(days: int, hour: int, min: int, sec: int)
    requires 0 <= hour < 24 && 0 <= min < 60 && 0 <= sec < 60
    ensures var s := hour * 3600 + min * 60 + sec;
            && 0 <= s < SECONDS_PER_DAY && s % 60 == sec && s / 60 % 60 == min && s / 3600 == hour
            && (days * SECONDS_PER_DAY + s) / SECONDS_PER_DAY == days
            && (days * SECONDS_PER_DAY + s) % SECONDS_PER_DAY == s
  {
    var s := hour * 3600 + min * 60 + sec;
    assert s / 60 == hour * 60 + min;
  }

  /** Reading a broken-down time back gives the second it came from, negative ones included. */
  lemma FromUtcInvertsToUtc(t: int, yday: bool)
    requires DayNumber(t) >= FIRST_DAY
    ensures FromUtcTime(UtcTime(t, yday)) == t
    ensures var tm := UtcTime(t, yday);
            && 0 <= tm.sec < 60 && 0 <= tm.min < 60 && 0 <= tm.hour < 24
            && IsDate(Date(tm.year + 1900, tm.mon + 1, tm.mday))
  {
    var date := YearMonthDay(DayNumber(t));
    JulianDayInvertsYearMonthDay(DayNumber(t));
    SplitSeconds(t % SECONDS_PER_DAY);
    assert Date(date.year - 1900 + 1900, date.month - 1 + 1, date.day) == date;
    assert t == t / SECONDS_PER_DAY * SECONDS_PER_DAY + t % SECONDS_PER_DAY;
  }

  /** And the other way: a valid broken-down time is what its second is broken down to. */
  lemma ToUtcInvertsFromUtc(d: Date, hour: int, min: int, sec: int, wday: int, yday: int)
    requires IsDate(d) && InRange(d) && 0 <= hour < 24 && 0 <= min < 60 && 0 <= sec < 60
    ensures var tm := Tm(sec, min, hour, d.day, d.month - 1, d.year - 1900, wday, yday);
            var back := UtcTime(FromUtcTime(tm), false);
            back == tm.(wday := back.wday, yday := 0)
  {
    YearMonthDayInvertsJulianDay(d);
    var tm := Tm(sec, min, hour, d.day, d.month - 1, d.year - 1900, wday, yday);
    assert Date(tm.year + 1900, tm.mon + 1, tm.mday) == d;
    SecondOfDay(JulianDay(d), hour, min, sec, FromUtcTime(tm));
  }

  /** A second that is put together from a day number and a time of day comes apart again. */
  lemma SecondOfDay(day: int, hour: int, min: int, sec: int, t: int)
    requires 0 <= hour < 24 && 0 <= min < 60 && 0 <= sec < 60
    requires t == (day - EPOCH_DAY) * SECONDS_PER_DAY + hour * 3600 + min * 60 + sec
    ensures DayNumber(t) == day
    ensures var s := t % SECONDS_PER_DAY; s % 60 == sec && s / 60 % 60 == min && s / 3600 == hour
  {
    JoinSeconds(day - EPOCH_DAY, hour, min, sec);
  }

  /** The day of the week is in range exactly when the truncating remainder is not negative. */
  lemma WeekDayInRange(julianDay: int)
    ensures 0 <= WeekDay(julianDay) <= 6 <==> julianDay >= -1 || (julianDay + 1) % 7 == 0
  {
    var n := -(julianDay + 1);
    if n > 0 {
      assert Rem(-n, 7) == -(n % 7);
    }
  }

  // ---------- Counting days ----------

  /** The calendar's own way from one day to another: one day after the other. */
  function DaysLater(d: Date, n: nat): (r: Date)
    requires IsDate(d)
    ensures IsDate(r)
  {
    if n == 0 then d else NextDay(DaysLater(d, n - 1))
  }

  lemma {:induction false} DaysLaterIs(d: Date, n: nat)
    requires IsDate(d) && InRange(d)
    ensures IsDate(DaysLater(d, n)) && InRange(DaysLater(d, n))
    ensures JulianDay(DaysLater(d, n)) == JulianDay(d) + n
  {
    if n == 0 {
    } else {
      DaysLaterIs(d, n - 1);
      NextInMarchYears(DaysLater(d, n - 1));
      NextDayIsNextNumber(DaysLater(d, n - 1));
    }
  }

  /** Day numbers tell dates apart. */
  lemma SameNumberSameDate(a: Date, b: Date)
    requires IsDate(a) && InRange(a) && IsDate(b) && InRange(b) && JulianDay(a) == JulianDay(b)
    ensures a == b
  {
    YearMonthDayInvertsJulianDay(a);
    YearMonthDayInvertsJulianDay(b);
  }

  /** So counting days and subtracting day numbers are the same. */
  lemma DaysLaterIffDifference(first: Date, d: Date, n: nat)
    requires IsDate(first) && InRange(first) && IsDate(d) && InRange(d)
    ensures DaysLater(first, n) == d <==> JulianDay(d) - JulianDay(first) == n
  {
    DaysLaterIs(first, n);
    if JulianDay(DaysLater(first, n)) == JulianDay(d) {
      SameNumberSameDate(DaysLater(first, n), d);
    }
  }

  lemma EpochDay()
    ensures EPOCH_DAY == 2440588
  {
  }

  lemma WeekRepeats(weeks: nat, x: nat)
    ensures (7 * weeks + x) % 7 == x % 7
  {
    assert 7 * weeks + x == 7 * (weeks + x / 7) + x % 7;
  }

  /** The weekday goes on by one from each day to the next, from the first day that has one in range. */
  lemma WeekDayFollows(d: Date)
    requires IsDate(d) && InRange(d) && JulianDay(d) >= -1
    ensures WeekDay(JulianDay(NextDay(d))) == (WeekDay(JulianDay(d)) + 1) % 7
  {
    NextDayIsNextNumber(d);
    var x := JulianDay(d) + 1;
    assert x + 1 == 7 * (x / 7) + (x % 7 + 1);
    WeekRepeats(x / 7, x % 7 + 1);
  }

  /** 1 January 1970 was a Thursday, and the weekday goes on by one every day from there. */
  lemma WeekDayCounts(n: nat)
    ensures WeekDay(JulianDay(DaysLater(Date(1970, 1, 1), n))) == (4 + n) % 7
  {
    DaysLaterIs(Date(1970, 1, 1), n);
    EpochDay();
    WeekRepeats(348655, 4 + n);
    assert JulianDay(DaysLater(Date(1970, 1, 1), n)) + 1 == 7 * 348655 + (4 + n);
  }

  /** The days since 1 January of the same year. */
  lemma DaysSinceNewYear(d: Date)
    requires IsDate(d) && d.year > -4800
    ensures 0 <= JulianDay(d) - JulianDay(Date(d.year, 1, 1)) < if IsLeap(d.year) then 366 else 365
  {
    var first := Date(d.year, 1, 1);
    DayOfYearIsInYear(d);
    DayOfYearIsInYear(first);
    YearLengthIs(MarchYear(first));
    InMarchYears(d);
    if d.month >= 3 {
      assert MarchYear(d) == MarchYear(first) + 1;
    } else {
      assert MarchYear(d) == MarchYear(first);
    }
  }

  /** From year -4799 on tm_yday is the number of days that the calendar takes from 1 January to the date. */
  lemma YearDayCounts(t: int)
    requires DayNumber(t) >= FIRST_DAY && UtcTime(t, true).year + 1900 > -4800
    ensures var tm := UtcTime(t, true);
            && 0 <= tm.yday < (if IsLeap(tm.year + 1900) then 366 else 365)
            && DaysLater(Date(tm.year + 1900, 1, 1), tm.yday) == Date(tm.year + 1900, tm.mon + 1, tm.mday)
  {
    var d := YearMonthDay(DayNumber(t));
    JulianDayInvertsYearMonthDay(DayNumber(t));
    DaysSinceNewYear(d);
    var yday := DayNumber(t) - JulianDay(Date(d.year, 1, 1));
    DaysLaterIffDifference(Date(d.year, 1, 1), d, yday);
    var tm := UtcTime(t, true);
    assert tm.yday == yday && Date(tm.year + 1900, tm.mon + 1, tm.mday) == d;
  }

  /** The date in a broken-down time. */
  function DateOf(tm: Tm): Date {
    Date(tm.year + 1900, tm.mon + 1, tm.mday)
  }

  lemma DateOfSecond(t: int, yday: bool)
    ensures DateOf(UtcTime(t, yday)) == YearMonthDay(DayNumber(t))
  {
    var date := YearMonthDay(DayNumber(t));
    assert Date(date.year - 1900 + 1900, date.month - 1 + 1, date.day) == date;
  }

  lemma MidnightOf(d: Date, t: int)
    requires IsDate(d) && InRange(d) && t % 86400 == 0 && JulianDay(d) == DayNumber(t)
    ensures var tm := UtcTime(t, false);
            tm.sec == 0 && tm.min == 0 && tm.hour == 0 && DateOf(tm) == d
  {
    DateOfSecond(t, false);
    YearMonthDayInvertsJulianDay(d);
  }

  /** Second 0 is midnight of 1 January 1970, whose day number is 2440588. */
  lemma EpochIsMidnight()
    ensures EPOCH_DAY == 2440588
    ensures var tm := UtcTime(0, false);
            tm.sec == 0 && tm.min == 0 && tm.hour == 0 && DateOf(tm) == Date(1970, 1, 1)
  {
    EpochDay();
    MidnightOf(Date(1970, 1, 1), 0);
  }

  /** The date of a second is as many calendar days from 1 January 1970 as the second is whole days from 0. */
  lemma DateCountsFromEpoch(t: int, yday: bool)
    requires DayNumber(t) >= FIRST_DAY
    ensures IsDate(DateOf(UtcTime(t, yday)))
    ensures t >= 0 ==> DaysLater(Date(1970, 1, 1), t / 86400) == DateOf(UtcTime(t, yday))
    ensures t < 0 ==> DaysLater(DateOf(UtcTime(t, yday)), -(t / 86400)) == Date(1970, 1, 1)
  {
    var date := YearMonthDay(DayNumber(t));
    JulianDayInvertsYearMonthDay(DayNumber(t));
    DateOfSecond(t, yday);
    if t >= 0 {
      DaysLaterIffDifference(Date(1970, 1, 1), date, t / 86400);
    } else {
      DaysLaterIffDifference(date, Date(1970, 1, 1), -(t / 86400));
    }
  }

  /** tm_wday: Thursday for the first day, counted up by one a day, from the first day number that allows it on. */
  lemma WeekDayOfSecond(t: int, yday: bool)
    requires DayNumber(t) >= -1
    ensures UtcTime(t, yday).wday == (4 + t / 86400) % 7
  {
    EpochDay();
    var n := t / 86400 + 2440589;
    assert n == 7 * 348655 + (4 + t / 86400);
    WeekShift(348655, 4 + t / 86400);
  }

  lemma WeekShift(weeks: nat, x: int)
    ensures (7 * weeks + x) % 7 == x % 7
  {
    assert 7 * weeks + x == 7 * (weeks + x / 7) + x % 7;
  }

  lemma NextWeekDay(x: int)
    ensures (x + 1) % 7 == if x % 7 == 6 then 0 else x % 7 + 1
  {
  }

  lemma NextDate(day: int, d: Date)
    requires day >= FIRST_DAY && d == YearMonthDay(day)
    ensures IsDate(d) && YearMonthDay(day + 1) == NextDay(d)
  {
    JulianDayInvertsYearMonthDay(day);
    DecodedNext(d, day);
  }

  lemma DecodedNext(d: Date, day: int)
    requires IsDate(d) && InRange(d) && JulianDay(d) == day
    ensures YearMonthDay(day + 1) == NextDay(d)
  {
    NextDayIsNextNumber(d);
    NextInMarchYears(d);
    YearMonthDayInvertsJulianDay(NextDay(d));
  }

  lemma SameTimeOfDay(t: int)
    ensures (t + 86400) % 86400 == t % 86400 && (t + 86400) / 86400 == t / 86400 + 1
  {
    assert t + 86400 == 86400 * (t / 86400 + 1) + t % 86400;
  }

  /** One day later it is the same time of the next date, on the next weekday. */
  lemma NextDaySameTime(t: int, yday: bool)
    requires DayNumber(t) >= -1
    ensures var a, b := UtcTime(t, yday), UtcTime(t + 86400, yday);
            && b.sec == a.sec && b.min == a.min && b.hour == a.hour
            && b.wday == if a.wday == 6 then 0 else a.wday + 1
    ensures IsDate(DateOf(UtcTime(t, yday)))
    ensures DateOf(UtcTime(t + 86400, yday)) == NextDay(DateOf(UtcTime(t, yday)))
  {
    SameTimeOfDay(t);
    WeekDayOfSecond(t, yday);
    WeekDayOfSecond(t + 86400, yday);
    NextWeekDay(4 + t / 86400);
    NextDateOfSecond(t, yday);
  }

  lemma NextDateOfSecond(t: int, yday: bool)
    requires DayNumber(t) >= -1
    ensures IsDate(DateOf(UtcTime(t, yday)))
    ensures DateOf(UtcTime(t + 86400, yday)) == NextDay(DateOf(UtcTime(t, yday)))
  {
    SameTimeOfDay(t);
    DateOfSecond(t, yday);
    DateOfSecond(t + 86400, yday);
    NextDate(DayNumber(t), YearMonthDay(DayNumber(t)));
    assert DayNumber(t + 86400) == DayNumber(t) + 1;
  }
}
