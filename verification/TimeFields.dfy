/** RtlTimeToTimeFields: a tick count taken apart into a date and a time of day. */
module TimeFields {
  import opened Calendar

  /** A 32-bit integer. Dafny checks that no value leaves its range. */
  newtype LONG = x: int | -0x8000_0000 <= x < 0x8000_0000

  const TICKSPERSEC := 10000000
  const TICKSPERMSEC := 10000
  const SECSPERDAY := 86400

  /** A value stored in a CSHORT. */
  function Short(x: LONG): int {
    var w := x as int % 0x1_0000;
    if w < 0x8000 then w else w - 0x1_0000
  }

  // ---------------------------------------------------------------- the arithmetic of the date

  /** Days before year y of the calendar that has a leap day every four years. */
  function Julian(y: int): int {
    1461 * y / 4
  }

  ghost function CenturyLeaps(k: nat): nat {
    (3 * k + 3) / 4
  }

  lemma CenturyStart(k: nat)
    ensures March(1600 + 100 * k) == 36524 * k + k / 4 - 306
  {
    assert (1600 + 100 * k) / 4 == 400 + 25 * k;
    assert (1600 + 100 * k) / 100 == 16 + k;
    assert (1600 + 100 * k) / 400 == 4 + k / 4;
  }

  /** The first step finds the century, counted from March. */
  lemma CenturyFound(days: nat, k: nat)
    requires k == (4 * days + 1227) / 146097
    ensures March(1600 + 100 * k) <= days < March(1600 + 100 * (k + 1))
  {
    CenturyStart(k);
    CenturyStart(k + 1);
  }

  lemma LeapsOfCentury(k: nat)
    ensures CenturyLeaps(k) == k - k / 4
  {
  }

  /** The second step finds the year. */
  lemma YearFound(d: nat, y: nat)
    requires d >= 123 && y == (20 * d - 2442) / 7305
    ensures Julian(y) <= d - 123 < Julian(y + 1)
  {
  }

  lemma YearInCentury(days: nat, k: nat, d: nat, y: nat)
    requires March(1600 + 100 * k) <= days < March(1600 + 100 * (k + 1))
    requires d == days + 28188 + CenturyLeaps(k)
    requires Julian(y) <= d - 123 < Julian(y + 1)
    ensures 1600 + 100 * k <= y + 1524 < 1600 + 100 * (k + 1)
  {
    CenturyStart(k);
    CenturyStart(k + 1);
    LeapsOfCentury(k);
    assert Julian(100 * k + 76) == 36525 * k + 27759;
    assert Julian(100 * (k + 1) + 76) == 36525 * (k + 1) + 27759;
  }

  lemma MarchInCentury(k: nat, y: nat)
    requires 1600 + 100 * k <= y + 1524 < 1600 + 100 * (k + 1)
    ensures March(y + 1524) == Julian(y) - 28065 - CenturyLeaps(k)
  {
    LeapsOfCentury(k);
    var n := y + 1524;
    assert n / 100 == 16 + k;
    assert n / 400 == 4 + k / 4;
    assert n / 4 == y / 4 + 381;
    assert Julian(y) == 365 * y + y / 4;
  }

  /** The year after: either in the same century, or the first of the next. */
  lemma NextMarch(days: nat, k: nat, y: nat)
    requires 1600 + 100 * k <= y + 1524 < 1600 + 100 * (k + 1) && days < March(1600 + 100 * (k + 1))
    requires days + 28065 + CenturyLeaps(k) < Julian(y + 1)
    ensures days < March(y + 1525)
  {
    if y + 1525 < 1600 + 100 * (k + 1) {
      MarchInCentury(k, y + 1);
    } else {
      assert y + 1525 == 1600 + 100 * (k + 1);
    }
  }

  /** Together: the year that starts in March, and the day in it. */
  lemma DayInMarchYear(days: nat, k: nat, d: nat, y: nat)
    requires k == (4 * days + 1227) / 146097 && d == days + 28188 + CenturyLeaps(k)
    requires y == (20 * d - 2442) / 7305
    ensures y + 1524 >= 1600 && d - Julian(y) == days - March(y + 1524) + 123
    ensures March(y + 1524) <= days < March(y + 1525)
  {
    CenturyFound(days, k);
    YearFound(d, y);
    YearInCentury(days, k, d, y);
    MarchInCentury(k, y);
    NextMarch(days, k, y);
  }

  /** The third step finds the month and the day, by a straight line through the month lengths. */
  lemma MonthFound(yearday: nat, months: nat)
    requires 123 <= yearday < 489 && months == 64 * yearday / 1959
    ensures 4 <= months <= 15 && 1959 * months / 64 < yearday
    ensures var start := 1959 * months / 64 - 122;
      start == match months
        case 4 => 0 case 5 => 31 case 6 => 61 case 7 => 92 case 8 => 122 case 9 => 153
        case 10 => 184 case 11 => 214 case 12 => 245 case 13 => 275 case 14 => 306 case _ => 337
    ensures yearday - 1959 * months / 64 <= if months in {5, 7, 10, 12} then 30 else 31
  {
  }

  /** The date of a day of a year that starts in March. */
  lemma DateFound(n: nat, yearday: nat, months: nat)
    requires n >= 1600 && 123 <= yearday && yearday - 123 < March(n + 1) - March(n)
    requires n == 1600 ==> months >= 14
    requires months == 64 * yearday / 1959
    ensures var (y, m) := if months < 14 then (n, months - 1) else (n + 1, months - 13);
      var d := yearday - 1959 * months / 64;
      ValidDate(y, m, d) && DayNumber(y, m, d) == March(n) + yearday - 123
  {
    YearLength(n);
    MonthFound(yearday, months);
    if months < 14 {
      MarchIs(n);
      MonthStarts(n);
    } else {
      JanuaryAfter(n);
      MonthStarts(n + 1);
    }
  }

  lemma JanuaryAfter(n: nat)
    requires n >= 1600
    ensures DaysBeforeYear(n + 1) == March(n) + 306
  {
    if n > 1600 {
      MarchIs(n);
      MonthStarts(n);
    }
  }

  lemma YearLength(n: nat)
    requires n >= 1600
    ensures March(n + 1) - March(n) == if Leap(n + 1) then 366 else 365
  {
    LeapCount(n + 1);
  }

  // ---------------------------------------------------------------- the routine

  /** TIME_FIELDS. */
  class Fields {
    var year: int
    var month: int
    var day: int
    var hour: int
    var minute: int
    var second: int
    var milliseconds: int
    var weekday: int
  }

  const TICKSPERDAY := SECSPERDAY * TICKSPERSEC

  /** The date that the arithmetic arrives at, for any day. */
  lemma DateOfDay(days: nat, k: nat, d: nat, years: nat, yearday: nat, months: nat)
    requires k == (4 * days + 1227) / 146097 && d == days + 28188 + CenturyLeaps(k)
    requires years == (20 * d - 2442) / 7305 && yearday == d - Julian(years) && months == 64 * yearday / 1959
    ensures var (y, m) := if months < 14 then (years + 1524, months - 1) else (years + 1525, months - 13);
      ValidDate(y, m, yearday - 1959 * months / 64) && DayNumber(y, m, yearday - 1959 * months / 64) == days
  {
    DayInMarchYear(days, k, d, years);
    if years + 1524 == 1600 {
      assert yearday >= 429;
    }
    DateFound(years + 1524, yearday, months);
  }

  /** The day after the last day of the year 32767, the greatest that a CSHORT holds. */
  const DAYS_OF_SHORT_YEARS := 11383512

  lemma YearFits(y: nat, m: nat, d: nat)
    requires ValidDate(y, m, d)
    ensures y <= 32767 <==> DayNumber(y, m, d) < DAYS_OF_SHORT_YEARS
  {
    DayOfYear(y, m, d);
    MarchIs(32767);
    MonthStarts(32768);
    if y < 32768 {
      YearsGrow(y, 32768);
    } else if y > 32768 {
      YearsGrow(32768, y);
    }
  }

  /** Days, seconds and milliseconds of a tick count. */
  lemma TicksTaken(quadPart: nat, time: nat, days: nat, seconds: nat, ms: nat)
    requires time == quadPart / TICKSPERSEC && days == time / SECSPERDAY && seconds == time % SECSPERDAY
    requires ms == (quadPart % TICKSPERSEC) / TICKSPERMSEC
    ensures days == quadPart / TICKSPERDAY && ms < 1000
    ensures (days * SECSPERDAY + seconds) * 1000 + ms == quadPart / TICKSPERMSEC
  {
    var rest := quadPart % TICKSPERSEC;
    assert quadPart == time * TICKSPERSEC + rest && time == days * SECSPERDAY + seconds;
    assert quadPart == days * TICKSPERDAY + (seconds * TICKSPERSEC + rest);
  }

  method SetTimeOfDay(secondsInDay0: LONG, timeFields: Fields)
    requires 0 <= secondsInDay0 < SECSPERDAY as LONG
    modifies timeFields`hour, timeFields`minute, timeFields`second
    ensures 0 <= timeFields.hour < 24 && 0 <= timeFields.minute < 60 && 0 <= timeFields.second < 60
    ensures (timeFields.hour * 60 + timeFields.minute) * 60 + timeFields.second == secondsInDay0 as int
  {
    var secondsInDay := secondsInDay0;
    timeFields.hour := Short(secondsInDay / 3600);
    secondsInDay := secondsInDay % 3600;
    timeFields.minute := Short(secondsInDay / 60);
    timeFields.second := Short(secondsInDay % 60);
  }

  /** The intermediate values stay small. */
  lemma Ranges(days: nat, k: nat, d: nat, years: nat)
    requires days < 21400000 && k == (4 * days + 1227) / 146097 && d == days + 28188 + CenturyLeaps(k)
    requires years == (20 * d - 2442) / 7305
    ensures CenturyLeaps(k) <= 500 && years <= 58700 && 123 <= d - Julian(years) < 489
  {
    DayInMarchYear(days, k, d, years);
    YearLength(years + 1524);
  }

  /** The year that starts in March, the day in it, and its month; all of it in 32 bits. */
  method MarchDate(days0: LONG) returns (years: LONG, yearday: LONG, months: LONG)
    requires 0 <= days0 < 21400000
    ensures 0 <= years <= 58700 && 123 <= yearday < 489 && months as int == 64 * yearday as int / 1959
    ensures var k := (4 * days0 as nat + 1227) / 146097;
      var d := days0 as nat + 28188 + CenturyLeaps(k);
      years as int == (20 * d - 2442) / 7305 && yearday as int == d - Julian(years as nat)
  {
    ghost var k := (4 * days0 as nat + 1227) / 146097;
    ghost var d := days0 as nat + 28188 + CenturyLeaps(k);
    Ranges(days0 as nat, k, d, (20 * d - 2442) / 7305);
    var days := days0;
    var cleaps: LONG := (3 * ((4 * days + 1227) / 146097) + 3) / 4;
    days := days + (28188 + cleaps);
    years := (20 * days - 2442) / 7305;
    yearday := days - (years * 1461) / 4;
    months := (64 * yearday) / 1959;
  }

  lemma ShortFits(x: LONG)
    requires 0 <= x < 0x1_0000
    ensures Short(x) == x as int <==> x < 0x8000
  {
  }

  method SetDate(days: LONG, timeFields: Fields) returns (ghost y: nat)
    requires 0 <= days < 21400000
    modifies timeFields`year, timeFields`month, timeFields`day
    ensures timeFields.month >= 1 && timeFields.day >= 1 && ValidDate(y, timeFields.month, timeFields.day)
    ensures DayNumber(y, timeFields.month, timeFields.day) == days as int
    ensures timeFields.year == y <==> days as int < DAYS_OF_SHORT_YEARS
  {
    var years, yearday, months := MarchDate(days);
    ghost var k := (4 * days as nat + 1227) / 146097;
    ghost var d := days as nat + 28188 + CenturyLeaps(k);
    DateOfDay(days as nat, k, d, years as nat, yearday as nat, months as nat);
    MonthFound(yearday as nat, months as nat);
    var month := if months < 14 then months - 1 else months - 13;
    var year := if months < 14 then years + 1524 else years + 1525;
    var day := yearday - (1959 * months) / 64;
    y := year as nat;
    YearFits(y, month as nat, day as nat);
    StoreDate(year, month, day, timeFields);
  }

  method StoreDate(year: LONG, month: LONG, day: LONG, timeFields: Fields)
    requires 0 <= year < 0x1_0000 && 0 <= month < 0x8000 && 0 <= day < 0x8000
    modifies timeFields`year, timeFields`month, timeFields`day
    ensures timeFields.month == month as int && timeFields.day == day as int
    ensures timeFields.year == year as int <==> year < 0x8000
  {
    ShortFits(year);
    ShortFits(month);
    ShortFits(day);
    timeFields.month := Short(month);
    timeFields.year := Short(year);
    timeFields.day := Short(day);
  }

  /** The date and the time of day of quadPart, a LONGLONG taken as unsigned, as the source's
      constant makes it. The year fits its field up to the last day of 32767, which is past what a
      LONGLONG that is not negative can reach. */
  method RtlTimeToTimeFields(quadPart: nat, timeFields: Fields) returns (ghost y: nat)
    requires quadPart < 0x1_0000_0000_0000_0000
    modifies timeFields
    ensures timeFields.month >= 1 && timeFields.day >= 1 && ValidDate(y, timeFields.month, timeFields.day)
    ensures DayNumber(y, timeFields.month, timeFields.day) == quadPart / TICKSPERDAY
    ensures timeFields.year == y <==> quadPart / TICKSPERDAY < DAYS_OF_SHORT_YEARS
    ensures quadPart < 0x8000_0000_0000_0000 ==> timeFields.year == y
    ensures 0 <= timeFields.hour < 24 && 0 <= timeFields.minute < 60 && 0 <= timeFields.second < 60
    ensures 0 <= timeFields.milliseconds < 1000
    ensures (((quadPart / TICKSPERDAY * 24 + timeFields.hour) * 60 + timeFields.minute) * 60 + timeFields.second) * 1000
            + timeFields.milliseconds == quadPart / TICKSPERMSEC
    ensures timeFields.weekday == (quadPart / TICKSPERDAY + 1) % 7
  {
    timeFields.milliseconds := (quadPart % TICKSPERSEC) / TICKSPERMSEC;
    var time := quadPart / TICKSPERSEC;
    TicksTaken(quadPart, time, time / SECSPERDAY, time % SECSPERDAY, timeFields.milliseconds);
    var days: LONG := (time / SECSPERDAY) as LONG;
    SetTimeOfDay((time % SECSPERDAY) as LONG, timeFields);
    timeFields.weekday := Short((1 + days) % 7);
    y := SetDate(days, timeFields);
  }

  /** The weekdays count from Sunday: the first of January 2000 was a Saturday. */
  lemma Millennium()
    ensures (DayNumber(2000, 1, 1) + 1) % 7 == 6
  {
    MarchIs(1999);
  }

  // ---------------------------------------------------------------- the Unix epoch

  const TICKS_1601_TO_1970 := 116444736000000000

  /** How long a tick is: the ticks up to the Unix epoch are those of the days up to it. */
  lemma Epoch()
    ensures DayNumber(1970, 1, 1) * TICKSPERDAY == 116444736000000000
    ensures TICKSPERSEC == 1000 * TICKSPERMSEC
  {
    MarchIs(1969);
  }

  lemma SecondsIntoDays(seconds: nat)
    ensures var ticks, day := seconds * TICKSPERSEC + TICKS_1601_TO_1970, DayNumber(1970, 1, 1);
      ticks / TICKSPERDAY == day + seconds / SECSPERDAY && ticks % TICKSPERDAY == seconds % SECSPERDAY * TICKSPERSEC
  {
    Epoch();
    var q, r := DayNumber(1970, 1, 1) + seconds / SECSPERDAY, seconds % SECSPERDAY * TICKSPERSEC;
    assert seconds * TICKSPERSEC + TICKS_1601_TO_1970 == q * TICKSPERDAY + r && 0 <= r < TICKSPERDAY;
  }

  /** RtlSecondsSince1970ToTime, a LARGE_INTEGER by its two halves: as many days and seconds after the
      first of January 1970. */
  method RtlSecondsSince1970ToTime(seconds: nat) returns (lowPart: nat, highPart: nat)
    requires seconds < 0x1_0000_0000
    ensures lowPart < 0x1_0000_0000 && highPart < 0x8000_0000
    ensures var ticks := 0x1_0000_0000 * highPart + lowPart;
      && ticks / TICKSPERDAY == DayNumber(1970, 1, 1) + seconds / SECSPERDAY
      && ticks % TICKSPERDAY == seconds % SECSPERDAY * TICKSPERSEC
  {
    var secs := seconds * TICKSPERSEC + TICKS_1601_TO_1970;
    SecondsIntoDays(seconds);
    lowPart, highPart := secs % 0x1_0000_0000, secs / 0x1_0000_0000;
  }
}
