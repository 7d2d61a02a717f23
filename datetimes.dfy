/** Naive datetimes as Python's datetime holds them: an instant is a whole number
    of microseconds since 0001-01-01T00:00:00 in the proleptic Gregorian
    calendar, bounded by datetime.max (9999-12-31T23:59:59.999999). */
module DateTimes {
  import opened Strings
  import opened Arithmetic

  const MicrosPerSecond: int := 1000000
  const MicrosPerMinute: int := 60000000
  const MicrosPerHour: int := 3600000000
  const MicrosPerDay: int := 86400000000

  /** date.max.toordinal(): the number of days from 0001-01-01 to 9999-12-31 inclusive. */
  const MaxOrdinal: int := 3652059

  /** MaxOrdinal * MicrosPerDay: the first instant past datetime.max. */
  const InstantLimit: int := 315537897600000000

  type Instant = t: int | 0 <= t < 315537897600000000

  /** The calendar fields of a naive datetime. */
  datatype DateTime = DateTime(year: int, month: int, day: int,
                               hour: int, minute: int, second: int, microsecond: int)

  datatype Option<T> = None | Some(value: T)

  /** The Python exceptions the whole model raises, shared by the matcher and
      the compositing planner: the datetime ones here, and ZeroDivisionError
      from the resolution rescale of the render script. */
  datatype Error =
    | OverflowError            // datetime +/- timedelta left [datetime.min, datetime.max]
    | ValueError(year: int)    // Python 2 strftime refuses years before 1900
    | ZeroDivisionError        // float division by a zero image width

  datatype Result<T> = Ok(value: T) | Err(error: Error)

  predicate IsLeap(y: int) {
    y % 4 == 0 && (y % 100 != 0 || y % 400 == 0)
  }

  function DaysInMonth(m: int, leap: bool): int
    requires 1 <= m <= 12
  {
    if m == 2 then (if leap then 29 else 28)
    else if m == 4 || m == 6 || m == 9 || m == 11 then 30
    else 31
  }

  /** Days of the year before the first of month `m` (m == 13: the whole year). */
  function DaysBeforeMonth(m: int, leap: bool): int
    requires 1 <= m <= 13
  {
    var common :=
      if m <= 6 then
        (if m == 1 then 0 else if m == 2 then 31 else if m == 3 then 59
         else if m == 4 then 90 else if m == 5 then 120 else 151)
      else
        (if m == 7 then 181 else if m == 8 then 212 else if m == 9 then 243
         else if m == 10 then 273 else if m == 11 then 304 else if m == 12 then 334 else 365);
    common + (if leap && m > 2 then 1 else 0)
  }

  lemma DaysBeforeNextMonth(m: int, leap: bool)
    requires 1 <= m <= 12
    ensures DaysBeforeMonth(m + 1, leap) == DaysBeforeMonth(m, leap) + DaysInMonth(m, leap)
  {
  }

  /** Days from 0001-01-01 to January 1st of `y` (Python's _days_before_year). */
  function DaysBeforeYear(y: int): int
    requires y >= 1
  {
    var k := y - 1;
    365 * k + k / 4 - k / 100 + k / 400
  }

  predicate ValidDateTime(d: DateTime) {
    && 1 <= d.year <= 9999
    && 1 <= d.month <= 12
    && 1 <= d.day <= DaysInMonth(d.month, IsLeap(d.year))
    && 0 <= d.hour < 24
    && 0 <= d.minute < 60
    && 0 <= d.second < 60
    && 0 <= d.microsecond < 1000000
  }

  /** The instant a valid set of calendar fields names: Python's _ymd2ord
      together with the time of day, as datetime(...) stores it. */
  function FromCivil(d: DateTime): int
    requires ValidDateTime(d)
  {
    var days := DaysBeforeYear(d.year) + DaysBeforeMonth(d.month, IsLeap(d.year)) + d.day - 1;
    days * MicrosPerDay + d.hour * MicrosPerHour + d.minute * MicrosPerMinute
      + d.second * MicrosPerSecond + d.microsecond
  }

  /** Month and day of the `doy`-th day (0-based) of a year, searching from month `m`. */
  function MonthDay(m: int, doy: int, leap: bool): (md: (int, int))
    requires 1 <= m <= 12
    requires 0 <= doy < DaysBeforeMonth(13, leap) - DaysBeforeMonth(m, leap)
    ensures m <= md.0 <= 12 && 1 <= md.1 <= DaysInMonth(md.0, leap)
    ensures DaysBeforeMonth(md.0, leap) + md.1 - 1 == DaysBeforeMonth(m, leap) + doy
    decreases 12 - m
  {
    DaysBeforeNextMonth(m, leap);
    if doy < DaysInMonth(m, leap) then (m, doy + 1)
    else MonthDay(m + 1, doy - DaysInMonth(m, leap), leap)
  }

  /** The leap-year rule on the position of a year inside the 400-, 100-, 4- and
      1-year cycles that Python's _ord2ymd peels off. */
  lemma CycleLeap(a: int, b: int, c: int, d: int)
    requires a >= 0 && 0 <= b <= 3 && 0 <= c <= 24 && 0 <= d <= 3
    ensures IsLeap(400 * a + 100 * b + 4 * c + d + 1) == (d == 3 && (c != 24 || b == 3))
  {
    var y := 400 * a + 100 * b + 4 * c + d + 1;
    if d < 3 {
      DivModOf(y, 4, 100 * a + 25 * b + c, d + 1);
    } else {
      DivModOf(y, 4, 100 * a + 25 * b + c + 1, 0);
      if c < 24 {
        DivModOf(y, 100, 4 * a + b, 4 * c + 4);
      } else if b < 3 {
        DivModOf(y, 100, 4 * a + b + 1, 0);
        DivModOf(y, 400, a, 100 * b + 100);
      } else {
        DivModOf(y, 100, 4 * a + 4, 0);
        DivModOf(y, 400, a + 1, 0);
      }
    }
  }

  /** Days before the year in cycle position (a, b, c, d), as the cycles count them. */
  lemma CycleDays(a: int, b: int, c: int, d: int)
    requires a >= 0 && 0 <= b <= 3 && 0 <= c <= 24 && 0 <= d <= 3
    ensures DaysBeforeYear(400 * a + 100 * b + 4 * c + d + 1)
         == 146097 * a + 36524 * b + 1461 * c + 365 * d
  {
    var k := 400 * a + 100 * b + 4 * c + d;
    DivModOf(k, 4, 100 * a + 25 * b + c, d);
    DivModOf(k, 100, 4 * a + b, 4 * c + d);
    DivModOf(k, 400, a, 100 * b + 4 * c + d);
  }

  /** A year has 366 days when it is a leap year and 365 otherwise. */
  lemma YearLength(y: int)
    requires y >= 1
    ensures DaysBeforeYear(y + 1) == DaysBeforeYear(y) + (if IsLeap(y) then 366 else 365)
  {
    var k := y - 1;
    Step(k, 4);
    Step(k, 100);
    Step(k, 400);
  }

  /** How a quotient moves from k to k + 1. */
  lemma Step(k: int, m: int)
    requires m > 0
    ensures (k + 1) / m == k / m + (if (k + 1) % m == 0 then 1 else 0)
  {
    if k % m == m - 1 {
      DivModOf(k + 1, m, k / m + 1, 0);
    } else {
      DivModOf(k + 1, m, k / m, k % m + 1);
    }
  }

  /** The divmod chain of Python's _ord2ymd: 400-year, 100-year, 4-year and
      1-year cycles peeled off a 0-based day number. */
  predicate Cycles(n0: int, n400: int, r400: int, n100: int, r100: int,
                   n4: int, r4: int, n1: int, doy: int) {
    && n400 == n0 / 146097 && r400 == n0 % 146097
    && n100 == r400 / 36524 && r100 == r400 % 36524
    && n4 == r100 / 1461 && r4 == r100 % 1461
    && n1 == r4 / 365 && doy == r4 % 365
  }

  /** When a cycle count reaches 4 the day is the 31st of December of the year
      before: the last day of a 4-year or of a 400-year cycle. */
  lemma CycleEnd(n0: int, n400: int, r400: int, n100: int, r100: int,
                 n4: int, r4: int, n1: int, doy: int)
    requires 0 <= n0 < MaxOrdinal
    requires Cycles(n0, n400, r400, n100, r100, n4, r4, n1, doy)
    requires n1 == 4 || n100 == 4
    ensures var last := n400 * 400 + n100 * 100 + n4 * 4 + n1;
      && 1 <= last <= 9999 && IsLeap(last)
      && DaysBeforeYear(last) + DaysBeforeMonth(12, true) + 31 - 1 == n0
  {
    var last := n400 * 400 + n100 * 100 + n4 * 4 + n1;
    YearBound(n0, n400, r400, n100, r100, n4, r4, n1);
    if n1 == 4 {
      CycleLeap(n400, n100, n4, 3);
      CycleDays(n400, n100, n4, 3);
      YearLength(last);
      CycleDays(n400, n100, n4 + 1, 0);
    } else {
      CycleLeap(n400, 3, 24, 3);
      CycleDays(n400, 3, 24, 3);
      YearLength(last);
      CycleDays(n400 + 1, 0, 0, 0);
    }
  }

  /** Otherwise the year is read off the cycle counts, its leap flag is the
      one _ord2ymd computes, and `doy` is the 0-based day inside it. */
  lemma CycleInside(n0: int, n400: int, r400: int, n100: int, r100: int,
                    n4: int, r4: int, n1: int, doy: int)
    requires 0 <= n0 < MaxOrdinal
    requires Cycles(n0, n400, r400, n100, r100, n4, r4, n1, doy)
    requires n1 != 4 && n100 != 4
    ensures var year := n400 * 400 + 1 + n100 * 100 + n4 * 4 + n1;
      && 1 <= year <= 9999
      && IsLeap(year) == (n1 == 3 && (n4 != 24 || n100 == 3))
      && DaysBeforeYear(year) + doy == n0
      && 0 <= doy < DaysBeforeMonth(13, IsLeap(year)) - DaysBeforeMonth(1, IsLeap(year))
  {
    YearBound(n0, n400, r400, n100, r100, n4, r4, n1);
    CycleLeap(n400, n100, n4, n1);
    CycleDays(n400, n100, n4, n1);
  }

  /** Year, month and day of the `n0`-th day after 0001-01-01 (Python's _ord2ymd
      applied to the ordinal n0 + 1). */
  function OrdinalDate(n0: int): (ymd: (int, int, int))
    requires 0 <= n0 < MaxOrdinal
    ensures 1 <= ymd.0 <= 9999 && 1 <= ymd.1 <= 12
    ensures 1 <= ymd.2 <= DaysInMonth(ymd.1, IsLeap(ymd.0))
    ensures DaysBeforeYear(ymd.0) + DaysBeforeMonth(ymd.1, IsLeap(ymd.0)) + ymd.2 - 1 == n0
  {
    var n400, r400 := n0 / 146097, n0 % 146097;
    var n100, r100 := r400 / 36524, r400 % 36524;
    var n4, r4 := r100 / 1461, r100 % 1461;
    var n1, doy := r4 / 365, r4 % 365;
    var year := n400 * 400 + 1 + n100 * 100 + n4 * 4 + n1;
    if n1 == 4 || n100 == 4 then
      CycleEnd(n0, n400, r400, n100, r100, n4, r4, n1, doy);
      (year - 1, 12, 31)
    else
      var leap := n1 == 3 && (n4 != 24 || n100 == 3);
      CycleInside(n0, n400, r400, n100, r100, n4, r4, n1, doy);
      var md := MonthDay(1, doy, leap);
      (year, md.0, md.1)
  }

  /** The cycle counts stay in range, and below date.max the year stays below 10000. */
  lemma YearBound(n0: int, n400: int, r400: int, n100: int, r100: int,
                  n4: int, r4: int, n1: int)
    requires 0 <= n0 < MaxOrdinal
    requires n400 == n0 / 146097 && r400 == n0 % 146097
    requires n100 == r400 / 36524 && r100 == r400 % 36524
    requires n4 == r100 / 1461 && r4 == r100 % 1461
    requires n1 == r4 / 365
    ensures 0 <= n400 <= 24 && 0 <= n100 <= 4 && 0 <= n4 <= 24 && 0 <= n1 <= 4
    ensures n100 == 4 ==> r400 == 146096 && n4 == 0 && n1 == 0
    ensures n1 == 4 ==> r4 == 1460 && n100 <= 3 && n4 <= 23
    ensures n100 <= 3 && n1 <= 3 ==> n400 * 400 + 1 + n100 * 100 + n4 * 4 + n1 <= 9999
    ensures n400 * 400 + n100 * 100 + n4 * 4 + n1 <= 9999
  {
    if n400 == 24 {
      assert r400 <= 145730;
      if n100 == 3 {
        assert r100 <= 36158;
        if n4 == 24 {
          assert r4 <= 1094;
        }
      }
    }
  }

  /** The calendar fields of an instant (datetime's year, month, ..., microsecond):
      the day number gives the date, and the microseconds of the day are split
      by divmod into seconds, minutes and hours. */
  function ToCivil(t: Instant): (d: DateTime)
    ensures ValidDateTime(d)
  {
    var ymd := OrdinalDate(t / MicrosPerDay);
    var us := t % MicrosPerDay;
    var seconds, microsecond := us / 1000000, us % 1000000;
    var minutes, second := seconds / 60, seconds % 60;
    var hour, minute := minutes / 60, minutes % 60;
    DateTime(ymd.0, ymd.1, ymd.2, hour, minute, second, microsecond)
  }

  /** Reading the calendar fields back gives the instant again: the conversion
      loses nothing. */
  lemma CivilRoundTrip(t: Instant)
    ensures FromCivil(ToCivil(t)) == t
  {
    var d := ToCivil(t);
    var us := t % MicrosPerDay;
    var seconds := us / 1000000;
    var minutes := seconds / 60;
    assert us == seconds * 1000000 + d.microsecond;
    assert seconds == minutes * 60 + d.second;
    assert minutes == d.hour * 60 + d.minute;
    assert t == (t / MicrosPerDay) * MicrosPerDay + us;
  }

  /** datetime + timedelta(hours=hours): OverflowError outside the datetime range. */
  function AddHours(t: Instant, hours: int): (r: Result<Instant>)
    ensures r.Ok? <==> 0 <= t + hours * MicrosPerHour < InstantLimit
    ensures r.Ok? ==> r.value - t == hours * MicrosPerHour
    ensures r.Err? ==> r.error == OverflowError
  {
    var u := t + hours * MicrosPerHour;
    if 0 <= u < InstantLimit then Ok(u) else Err(OverflowError)
  }

  /** Adding the hours back the other way undoes a shift that did not overflow. */
  lemma AddHoursInverse(t: Instant, hours: int)
    requires AddHours(t, hours).Ok?
    ensures AddHours(AddHours(t, hours).value, -hours) == Ok(t)
  {
  }

  /** The microseconds into a day of a time of day, and the fields `ToCivil`
      reads back from them by divmod. */
  lemma DayMicrosFields(us: int, hour: int, minute: int, second: int, microsecond: int)
    requires 0 <= hour < 24 && 0 <= minute < 60 && 0 <= second < 60
    requires 0 <= microsecond < 1000000
    requires us == ((hour * 60 + minute) * 60 + second) * 1000000 + microsecond
    ensures 0 <= us < MicrosPerDay
    ensures us % 1000000 == microsecond
    ensures (us / 1000000) % 60 == second
    ensures (us / 1000000 / 60) % 60 == minute
    ensures us / 1000000 / 60 / 60 == hour
  {
    DivModOf(us, 1000000, (hour * 60 + minute) * 60 + second, microsecond);
    DivModOf((hour * 60 + minute) * 60 + second, 60, hour * 60 + minute, second);
    DivModOf(hour * 60 + minute, 60, hour, minute);
  }

  /** The calendar fields of the instant `u` that lies `us` microseconds into
      day `q`, when `us` is the time of day named by the time fields. */
  lemma ToCivilOfParts(u: int, q: int, us: int,
                       hour: int, minute: int, second: int, microsecond: int)
    requires 0 <= hour < 24 && 0 <= minute < 60 && 0 <= second < 60
    requires 0 <= microsecond < 1000000
    requires us == ((hour * 60 + minute) * 60 + second) * 1000000 + microsecond
    requires 0 <= q < MaxOrdinal && u == q * MicrosPerDay + us
    ensures 0 <= u < InstantLimit
    ensures var ymd := OrdinalDate(q);
      ToCivil(u) == DateTime(ymd.0, ymd.1, ymd.2, hour, minute, second, microsecond)
  {
    DayMicrosFields(us, hour, minute, second, microsecond);
    assert u < (q + 1) * MicrosPerDay;
    DivModOf(u, MicrosPerDay, q, us);
  }

  /** The time fields of an instant spell out its microseconds into the day. */
  lemma TimeOfDayMicros(t: Instant)
    ensures var d := ToCivil(t);
      t % MicrosPerDay == ((d.hour * 60 + d.minute) * 60 + d.second) * 1000000 + d.microsecond
  {
    var d := ToCivil(t);
    var us := t % MicrosPerDay;
    var seconds := us / 1000000;
    var minutes := seconds / 60;
    assert us == seconds * 1000000 + d.microsecond;
    assert seconds == minutes * 60 + d.second;
    assert minutes == d.hour * 60 + d.minute;
  }

  /** A shift that stays within the day changes the hour field by `hours` and
      leaves the date, the minute, the second and the microsecond as they were. */
  lemma AddHoursWithinDay(t: Instant, hours: int)
    requires 0 <= ToCivil(t).hour + hours < 24
    ensures AddHours(t, hours).Ok?
    ensures var d := ToCivil(t);
      ToCivil(AddHours(t, hours).value) == d.(hour := d.hour + hours)
  {
    var d := ToCivil(t);
    var q := t / MicrosPerDay;
    var us := t % MicrosPerDay;
    TimeOfDayMicros(t);
    ToCivilOfParts(t, q, us, d.hour, d.minute, d.second, d.microsecond);
    var u := t + hours * MicrosPerHour;
    ToCivilOfParts(u, q, us + hours * MicrosPerHour, d.hour + hours, d.minute, d.second, d.microsecond);
    assert ToCivil(u) == DateTime(d.year, d.month, d.day, d.hour + hours, d.minute, d.second, d.microsecond);
    assert AddHours(t, hours).value == u;
  }

  /** Three zero-padded fields separated by `sep`: "%Y-%m-%d" (first width 4)
      and "%H:%M:%S" (first width 2). */
  function Triple(a: nat, width: nat, b: nat, c: nat, sep: char): string {
    Pad(a, width) + [sep] + Pad(b, 2) + [sep] + Pad(c, 2)
  }

  /** strftime("%Y-%m-%dT%H:%M:%S.%f%zZ") of a naive datetime: %z is empty for a
      naive value, so the text ends in the literal Z; %f is six digits. */
  function Strftime(d: DateTime): string
    requires ValidDateTime(d)
  {
    Triple(d.year, 4, d.month, d.day, '-') + "T"
      + Triple(d.hour, 2, d.minute, d.second, ':')
      + "." + Pad(d.microsecond, 6) + "" + "Z"
  }

  /** A reader for `Triple`: `width` digits, `sep`, two digits, `sep`, two digits. */
  function ParseTriple(s: string, width: nat, sep: char): Option<(int, int, int)> {
    if && |s| == width + 6 && s[width] == sep && s[width + 3] == sep
       && AllDigits(s[..width]) && AllDigits(s[width + 1..width + 3]) && AllDigits(s[width + 4..])
    then Some((DigitsValue(s[..width]), DigitsValue(s[width + 1..width + 3]), DigitsValue(s[width + 4..])))
    else None
  }

  lemma TripleRoundTrip(a: nat, width: nat, b: nat, c: nat, sep: char)
    requires width >= 1 && a < Pow10(width) && b < 100 && c < 100
    ensures |Triple(a, width, b, c, sep)| == width + 6
    ensures ParseTriple(Triple(a, width, b, c, sep), width, sep) == Some((a, b, c))
  {
    var x, y, z := Pad(a, width), Pad(b, 2), Pad(c, 2);
    PadDigits(a, width);
    PadDigits(b, 2);
    PadDigits(c, 2);
    assert |x| == width && |y| == 2 && |z| == 2;
    var s := x + [sep] + y + [sep] + z;
    assert s == Triple(a, width, b, c, sep);
    assert s[..width] == x;
    assert s[width + 1..width + 3] == y;
    assert s[width + 4..] == z;
    assert s[width] == sep && s[width + 3] == sep;
  }

  /** A reader for the 27-character "YYYY-MM-DDTHH:MM:SS.ffffffZ" timestamps. */
  function ParseTimestamp(s: string): Option<DateTime> {
    if |s| == 27 && s[10] == 'T' && s[19] == '.' && s[26] == 'Z' && AllDigits(s[20..26]) then
      match (ParseTriple(s[..10], 4, '-'), ParseTriple(s[11..19], 2, ':'))
      case (Some(ymd), Some(hms)) =>
        Some(DateTime(ymd.0, ymd.1, ymd.2, hms.0, hms.1, hms.2, DigitsValue(s[20..26])))
      case _ => None
    else None
  }

  /** Where the pieces of a timestamp sit in its text. */
  lemma TimestampLayout(date: string, time: string, us: string)
    requires |date| == 10 && |time| == 8 && |us| == 6
    ensures var s := date + "T" + time + "." + us + "" + "Z";
      && |s| == 27 && s[..10] == date && s[10] == 'T' && s[11..19] == time
      && s[19] == '.' && s[20..26] == us && s[26] == 'Z'
  {
    var s := date + "T" + time + "." + us + "" + "Z";
    assert s[..10] == date;
    assert s[11..19] == time;
    assert s[20..26] == us;
  }

  /** A formatted timestamp of a year from 1000 on is 27 characters, ends in
      six microsecond digits and a Z, and reads back as the same fields. */
  lemma StrftimeRoundTrip(d: DateTime)
    requires ValidDateTime(d) && d.year >= 1000
    ensures |Strftime(d)| == 27
    ensures Strftime(d)[19] == '.' && Strftime(d)[26] == 'Z'
    ensures AllDigits(Strftime(d)[20..26]) && DigitsValue(Strftime(d)[20..26]) == d.microsecond
    ensures ParseTimestamp(Strftime(d)) == Some(d)
  {
    var date := Triple(d.year, 4, d.month, d.day, '-');
    var time := Triple(d.hour, 2, d.minute, d.second, ':');
    var us := Pad(d.microsecond, 6);
    assert Pow10(4) == 10000 && Pow10(6) == 1000000;
    TripleRoundTrip(d.year, 4, d.month, d.day, '-');
    TripleRoundTrip(d.hour, 2, d.minute, d.second, ':');
    PadDigits(d.microsecond, 6);
    TimestampLayout(date, time, us);
  }

  /** Formatting one bound of the crossover window: ValueError for a year
      before 1900, otherwise the timestamp text of the instant. */
  function FormatNaive(t: Instant): Result<string> {
    var d := ToCivil(t);
    if d.year < 1900 then Err(ValueError(d.year)) else Ok(Strftime(d))
  }

  /** A formatted bound is refused exactly for the years before 1900, and
      otherwise is 27 characters ending in 'Z' that read back as the calendar
      fields of the instant. */
  lemma FormatNaiveSpec(t: Instant)
    ensures FormatNaive(t).Ok? <==> ToCivil(t).year >= 1900
    ensures FormatNaive(t).Err? ==> FormatNaive(t).error == ValueError(ToCivil(t).year)
    ensures FormatNaive(t).Ok? ==> |FormatNaive(t).value| == 27 && FormatNaive(t).value[26] == 'Z'
    ensures FormatNaive(t).Ok? ==> ParseTimestamp(FormatNaive(t).value) == Some(ToCivil(t))
  {
    if ToCivil(t).year >= 1900 {
      StrftimeRoundTrip(ToCivil(t));
    }
  }
}
