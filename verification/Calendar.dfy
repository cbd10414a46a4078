/** Unix time and the Gregorian calendar. */
module Calendar {
  import opened Words

  const SECONDS_PER_DAY := 86400

  // ---- the calendar, day by day

  datatype Civil = Civil(year: int, month: int, day: int)

  predicate Leap(y: int) {
    y % 4 == 0 && (y % 100 != 0 || y % 400 == 0)
  }

  function DaysInMonth(y: int, m: int): int {
    if m == 2 then if Leap(y) then 29 else 28
    else if m == 4 || m == 6 || m == 9 || m == 11 then 30
    else 31
  }

  predicate ValidDate(c: Civil) {
    1 <= c.month <= 12 && 1 <= c.day <= DaysInMonth(c.year, c.month)
  }

  function NextDay(c: Civil): Civil {
    if c.day < DaysInMonth(c.year, c.month) then c.(day := c.day + 1)
    else if c.month < 12 then Civil(c.year, c.month + 1, 1)
    else Civil(c.year + 1, 1, 1)
  }

  /** The `n`-th day after January 1st, 1970. */
  function DateOf(n: nat): Civil {
    if n == 0 then Civil(1970, 1, 1) else NextDay(DateOf(n - 1))
  }

  /** Its weekday, Monday being 1; the first day was a Thursday. */
  function WeekdayOf(n: nat): int {
    if n == 0 then 4 else if WeekdayOf(n - 1) == 7 then 1 else WeekdayOf(n - 1) + 1
  }

  // ---- counting days

  /** Years that begin in March: January and February are months 13 and 14 of the year before. */
  function MarchYear(c: Civil): int {
    if c.month <= 2 then c.year - 1 else c.year
  }

  function MarchMonth(c: Civil): int {
    if c.month <= 2 then c.month + 12 else c.month
  }

  function YearDays(y: int): int {
    365 * y + y / 4 - y / 100 + y / 400
  }

  function MonthDays(m: int): int {
    30 * m + 3 * (m + 1) / 5
  }

  /** Days since January 1st, 1970. */
  function DayNumber(c: Civil): int {
    YearDays(MarchYear(c)) + MonthDays(MarchMonth(c)) + c.day - 719561
  }

  lemma Quarters(y: int)
    ensures (y + 1) / 4 == y / 4 + if (y + 1) % 4 == 0 then 1 else 0
  {}

  lemma Centuries(y: int)
    ensures (y + 1) / 100 == y / 100 + if (y + 1) % 100 == 0 then 1 else 0
    ensures (y + 1) % 100 == 0 ==> (y + 1) % 4 == 0
  {}

  lemma FourCenturies(y: int)
    ensures (y + 1) / 400 == y / 400 + if (y + 1) % 400 == 0 then 1 else 0
    ensures (y + 1) % 400 == 0 ==> (y + 1) % 100 == 0
  {
    var q, r := y / 400, y % 400;
    if r == 399 {
      QuotientBy400(y + 1, q + 1, 0);
    } else {
      QuotientBy400(y + 1, q, r + 1);
    }
  }

  lemma QuotientBy400(x: int, q: int, r: int)
    requires x == 400 * q + r && 0 <= r < 400
    ensures x / 400 == q && x % 400 == r && (r == 0 ==> x % 100 == 0)
  {
    assert r == 0 ==> x == 100 * (4 * q);
  }

  lemma YearLength(y: int)
    ensures YearDays(y + 1) - YearDays(y) == if Leap(y + 1) then 366 else 365
  {
    Quarters(y);
    Centuries(y);
    FourCenturies(y);
  }

  /** The next day has the next number. */
  lemma NextDayNumber(c: Civil)
    requires ValidDate(c)
    ensures ValidDate(NextDay(c)) && DayNumber(NextDay(c)) == DayNumber(c) + 1
  {
    hide YearDays, Leap;
    YearLength(MarchYear(c));
  }

  /** Different dates have different numbers. */
  lemma DayNumberInjective(c: Civil, d: Civil)
    requires ValidDate(c) && ValidDate(d)
    ensures DayNumber(c) == DayNumber(d) ==> c == d
  {
    if MarchYear(c) < MarchYear(d) {
      LaterYearLaterDay(c, d);
    } else if MarchYear(d) < MarchYear(c) {
      LaterYearLaterDay(d, c);
    } else {
      hide YearDays, Leap;
      MonthsApart(MarchMonth(c), MarchMonth(d));
      MonthsApart(MarchMonth(d), MarchMonth(c));
    }
  }

  lemma MonthsApart(m: int, n: int)
    ensures 3 <= m < n <= 14 ==>
              MonthDays(n) - MonthDays(m) >= if m == 4 || m == 6 || m == 9 || m == 11 then 30 else 31
  {}

  lemma LaterYearLaterDay(c: Civil, d: Civil)
    requires ValidDate(c) && ValidDate(d) && MarchYear(c) < MarchYear(d)
    ensures DayNumber(c) < DayNumber(d)
  {
    YearLength(MarchYear(c));
    YearsGrow(MarchYear(c) + 1, MarchYear(d));
    hide YearDays;
  }

  lemma {:induction false} YearsGrow(y: int, z: int)
    requires y <= z
    ensures YearDays(y) <= YearDays(z)
    decreases z - y
  {
    if y < z {
      YearLength(z - 1);
      hide YearDays;
      YearsGrow(y, z - 1);
    }
  }

  /** A valid date with number `n` is the `n`-th day. */
  lemma {:induction false} NumberedDate(n: nat)
    ensures ValidDate(DateOf(n)) && DayNumber(DateOf(n)) == n
  {
    if n > 0 {
      NumberedDate(n - 1);
      NextDayNumber(DateOf(n - 1));
    }
  }

  lemma {:induction false} WeekdayCycle(n: nat)
    ensures WeekdayOf(n) == (n + 3) % 7 + 1
  {
    if n > 0 {
      WeekdayCycle(n - 1);
    }
  }

  /** Dates as anybody knows them: a leap day in 2000, none in 2100, the last year of the 16-bit field. */
  lemma KnownDates()
    ensures DateOf(11016) == Civil(2000, 2, 29) && WeekdayOf(11016) == 2
    ensures DateOf(47540) == Civil(2100, 2, 28) && DateOf(47541) == Civil(2100, 3, 1) && WeekdayOf(47541) == 1
    ensures DateOf(23217003) == Civil(65535, 12, 31)
  {
    hide DateOf, WeekdayOf;
    KnownDate(11016, Civil(2000, 2, 29));
    KnownDate(47540, Civil(2100, 2, 28));
    KnownDate(47541, Civil(2100, 3, 1));
    KnownDate(23217003, Civil(65535, 12, 31));
    WeekdayCycle(11016);
    WeekdayCycle(47541);
  }

  lemma KnownDate(n: nat, c: Civil)
    requires ValidDate(c) && DayNumber(c) == n
    ensures DateOf(n) == c
  {
    hide DateOf, DayNumber, ValidDate;
    NumberedDate(n);
    DayNumberInjective(DateOf(n), c);
  }

  // ---- the day of a date, by magic divisions

  /** Day numbers whose year fits the 16-bit year field: up to December 31st, 65535. */
  const LAST_DAY := 23217003

  /** Intermediate results of the conversion of day `u`, without wrap-around. */
  datatype Steps = Steps(q: int, b: int, c: int, d: int, e: int, f: int)

  function StepsOf(u: nat): Steps {
    var q := (4 * u + 102032) / 146097;
    var b := u + 2442113 + (q + 15) - (q + 15) / 4;
    var c := (20 * b - 2442) / 7305;
    var d := b - 365 * c - c / 4;
    var e := d * 1000 / 30601;
    Steps(q, b, c, d, e, d - e * 30 - e * 601 / 1000)
  }

  function CivilOf(s: Steps): Civil {
    if s.e <= 13 then Civil(s.c - 4716, s.e - 1, s.f) else Civil(s.c - 4715, s.e - 13, s.f)
  }

  lemma QuarterDays(b: int, c: int)
    requires c == (20 * b - 2442) / 7305
    ensures 1461 * c <= 4 * b - 489 < 1461 * c + 1461
  {}

  /** The century found from the day is that of the year found from the day. */
  lemma CenturyOfDay(u: int, k: int, r: int, b: int, c: int)
    requires 0 <= r < 4 && 146097 * (4 * k + r) <= 4 * u + 102032 < 146097 * (4 * k + r + 1)
    requires b == u + 2442113 + (4 * k + r + 15) - (k + (r + 15) / 4)
    requires 1461 * c <= 4 * b - 489 < 1461 * c + 1461
    ensures 100 * (4 * k + r + 19) <= c - 4716 <= 100 * (4 * k + r + 19) + 99
  {
    if r == 0 {} else if r == 1 {} else if r == 2 {} else {}
  }

  lemma DayOfYear(b: int, c: int, d: int)
    requires 1461 * c <= 4 * b - 489 < 1461 * c + 1461 && d == b - 365 * c - c / 4
    ensures 4 * d == 4 * b - 1461 * c + c % 4
    ensures 123 <= d <= 488 && (d == 488 ==> (c - 4715) % 4 == 0 && 4 * b == 1461 * c + 1949)
  {}

  /** The last year of a century has a day 488 only if the century ends in a leap February. */
  lemma LastDayOfCentury(u: int, k: int, r: int, b: int, c: int)
    requires 0 <= r < 4 && 4 * u + 102032 < 146097 * (4 * k + r + 1)
    requires b == u + 2442113 + (4 * k + r + 15) - (k + (r + 15) / 4)
    requires c - 4716 == 100 * (4 * k + r + 19) + 99 && 4 * b == 1461 * c + 1949
    ensures r == 0
  {
    assert 4 * u + 102032 == 146097 * (4 * k + r) - r + 146084 + 4 * ((r + 15) / 4);
  }

  /** The month and day found from the day of the year. */
  lemma MonthOfDay(d: int, e: int, f: int)
    requires 123 <= d <= 488 && e == d * 1000 / 30601 && f == d - e * 30 - e * 601 / 1000
    ensures 4 <= e <= 15 && d == MonthDays(e - 1) + f + 30
    ensures 1 <= f <= 31 && (e == 5 || e == 7 || e == 10 || e == 12 ==> f <= 30)
    ensures e == 15 ==> f <= 29 && (f == 29 ==> d == 488)
  {}

  lemma LeapAtDay488(y: int, k: int, r: int)
    requires 0 <= r < 4 && 100 * (4 * k + r + 19) <= y <= 100 * (4 * k + r + 19) + 99 && (y + 1) % 4 == 0
    requires y == 100 * (4 * k + r + 19) + 99 ==> r == 0
    ensures Leap(y + 1)
  {
    if y == 100 * (4 * k + r + 19) + 99 {
      assert y + 1 == 400 * (k + 5);
    }
  }

  lemma CenturyDays(y: int, century: int)
    requires 100 * century <= y <= 100 * century + 99
    ensures YearDays(y) == 365 * y + y / 4 - century + century / 4
  {
    FourCentury(y, century, y - 100 * century, century / 4, century % 4);
    CenturyOf(y, century);
  }

  lemma CenturyOf(y: int, century: int)
    requires 100 * century <= y <= 100 * century + 99
    ensures y / 100 == century
  {}

  lemma CenturyQuotient(u: nat, q: int)
    requires q == (4 * u + 102032) / 146097
    ensures 146097 * q <= 4 * u + 102032 < 146097 * (q + 1)
  {}

  lemma YearOf(u: nat, k: int, r: int, b: int, c: int, d: int)
    requires 0 <= r < 4 && 146097 * (4 * k + r) <= 4 * u + 102032 < 146097 * (4 * k + r + 1)
    requires b == u + 2442113 + (4 * k + r + 15) - (k + (r + 15) / 4)
    requires 1461 * c <= 4 * b - 489 < 1461 * c + 1461 && d == b - 365 * c - c / 4
    ensures 100 * (4 * k + r + 19) <= c - 4716 <= 100 * (4 * k + r + 19) + 99
    ensures 123 <= d <= 488 && (d == 488 ==> Leap(c - 4715))
  {
    hide Leap;
    CenturyOfDay(u, k, r, b, c);
    DayOfYear(b, c, d);
    if d == 488 {
      if c - 4716 == 100 * (4 * k + r + 19) + 99 {
        LastDayOfCentury(u, k, r, b, c);
      }
      LeapAtDay488(c - 4716, k, r);
    }
  }

  lemma QuarterSplit(q: int)
    ensures q == 4 * (q / 4) + q % 4 && (q + 15) / 4 == q / 4 + (q % 4 + 15) / 4
  {}

  lemma YearFacts(u: nat, s: Steps)
    requires s == StepsOf(u)
    ensures 100 * (s.q + 19) <= s.c - 4716 <= 100 * (s.q + 19) + 99
    ensures s.d == u + 2442113 + (s.q + 15) - (s.q + 15) / 4 - 365 * s.c - s.c / 4
    ensures 123 <= s.d <= 488 && (s.d == 488 ==> Leap(s.c - 4715))
    ensures s.e == s.d * 1000 / 30601 && s.f == s.d - s.e * 30 - s.e * 601 / 1000
  {
    CenturyQuotient(u, s.q);
    QuarterDays(s.b, s.c);
    YearOfQuotient(u, s.q, s.b, s.c, s.d);
  }

  lemma YearOfQuotient(u: nat, q: int, b: int, c: int, d: int)
    requires q >= 0 && 146097 * q <= 4 * u + 102032 < 146097 * (q + 1)
    requires b == u + 2442113 + (q + 15) - (q + 15) / 4
    requires 1461 * c <= 4 * b - 489 < 1461 * c + 1461 && d == b - 365 * c - c / 4
    ensures 100 * (q + 19) <= c - 4716 <= 100 * (q + 19) + 99
    ensures 123 <= d <= 488 && (d == 488 ==> Leap(c - 4715))
  {
    hide Leap;
    QuarterSplit(q);
    YearOf(u, q / 4, q % 4, b, c, d);
  }

  lemma SumOfDays(u: int, q: int, c: int, d: int, e: int, f: int)
    requires 100 * (q + 19) <= c - 4716 <= 100 * (q + 19) + 99
    requires d == u + 2442113 + (q + 15) - (q + 15) / 4 - 365 * c - c / 4
    requires d == MonthDays(e - 1) + f + 30
    ensures YearDays(c - 4716) + MonthDays(e - 1) + f - 719561 == u
  {
    hide MonthDays;
    CenturyDays(c - 4716, q + 19);
    hide YearDays;
    assert (c - 4716) / 4 == c / 4 - 1179;
    assert (q + 19) / 4 == (q + 15) / 4 + 1;
  }

  /** The date found for day `u` is valid and has number `u`. */
  lemma StepsNumber(u: nat)
    ensures ValidDate(CivilOf(StepsOf(u))) && DayNumber(CivilOf(StepsOf(u))) == u
  {
    hide StepsOf, YearDays, Leap, MonthDays;
    var s := StepsOf(u);
    YearFacts(u, s);
    MonthOfDay(s.d, s.e, s.f);
    SumOfDays(u, s.q, s.c, s.d, s.e, s.f);
    assert MarchYear(CivilOf(s)) == s.c - 4716 && MarchMonth(CivilOf(s)) == s.e - 1;
  }

  /** The magic divisions find the `u`-th day. */
  lemma StepsFindDate(u: nat)
    ensures CivilOf(StepsOf(u)) == DateOf(u)
  {
    hide StepsOf, CivilOf, DayNumber, ValidDate;
    StepsNumber(u);
    NumberedDate(u);
    DayNumberInjective(CivilOf(StepsOf(u)), DateOf(u));
  }

  /** Up to the last day of the year 65535 no intermediate result wraps and the year fits 16 bits. */
  lemma StepsFit(u: nat)
    requires u <= LAST_DAY
    ensures var s := StepsOf(u);
            && 0 <= s.q < 1000 && 2442 <= 20 * s.b < M32 && 4716 <= s.c <= 70251
            && (s.c == 70251 ==> s.e <= 13)
  {
    var s := StepsOf(u);
    QuarterDays(s.b, s.c);
  }

  // ---- the weekday

  /** Zeller's congruence on a March year `y` = 100 j + k and March month `m`. */
  function Zeller(y: int, m: int, day: int): int {
    var j, k := y / 100, y % 100;
    day + 26 * (m + 1) / 10 + k + k / 4 + 5 * j + j / 4
  }

  lemma CenturyParts(y: int, j: int, k: int)
    requires j == y / 100 && k == y % 100
    ensures y == 100 * j + k && y / 4 == 25 * j + k / 4 && y / 400 == j / 4
  {
    assert y / 4 == 25 * j + k / 4;
    FourCentury(y, j, k, j / 4, j % 4);
  }

  lemma FourCentury(y: int, j: int, k: int, q: int, r: int)
    requires y == 100 * j + k && 0 <= k < 100 && j == 4 * q + r && 0 <= r < 4
    ensures y / 400 == q
  {
    assert y == 400 * q + (100 * r + k);
  }

  lemma MonthParts(m: int)
    ensures 26 * (m + 1) / 10 == 2 * (m + 1) + 3 * (m + 1) / 5
  {}

  lemma SameWeekday(n: int, z: int, weeks: int)
    requires n == z + 7 * weeks
    ensures n % 7 == z % 7
  {}

  /** Modulo 7 it counts days. */
  lemma ZellerCountsDays(y: int, m: int, day: int)
    ensures (Zeller(y, m, day) + 5) % 7 == (YearDays(y) + MonthDays(m) + day - 719561 + 3) % 7
  {
    var j, k := y / 100, y % 100;
    CenturyParts(y, j, k);
    MonthParts(m);
    SumOfZeller(y, m, day, j, k, y / 4, y / 100, y / 400, k / 4, j / 4, 26 * (m + 1) / 10, 3 * (m + 1) / 5);
  }

  lemma SumOfZeller(y: int, m: int, day: int, j: int, k: int, y4: int, y100: int, y400: int, k4: int, j4: int,
                    x: int, x': int)
    requires y == 100 * j + k && y4 == 25 * j + k4 && y100 == j && y400 == j4 && x == 2 * (m + 1) + x'
    ensures (day + x + k + k4 + 5 * j + j4 + 5) % 7 ==
            (365 * y + y4 - y100 + y400 + (30 * m + x') + day - 719561 + 3) % 7
  {
    SameWeekday(365 * y + y4 - y100 + y400 + (30 * m + x') + day - 719561 + 3, day + x + k + k4 + 5 * j + j4 + 5,
                5217 * j + 52 * k + 4 * m - 102795);
  }

  // ---- the conversions

  /** A date and time of day with fields of the source's widths. */
  class DateTime {
    var year: nat
    var month: nat
    var day: nat
    var weekday: nat
    var hours: nat
    var minutes: nat
    var seconds: nat

    constructor ()
      ensures Fits()
    {
      year, month, day, weekday, hours, minutes, seconds := 1970, 1, 1, 4, 0, 0, 0;
    }

    function Date(): Civil
      reads this
    {
      Civil(year, month, day)
    }

    /** The fields have the widths of the source's struct. */
    predicate Fits()
      reads this
    {
      year < 0x10000 && month < 0x100 && day < 0x100 && hours < 0x100 && minutes < 0x100 && seconds < 0x100
    }

    function TimeOfDay(): int
      reads this
    {
      3600 * hours + 60 * minutes + seconds
    }

    /** Unix time to date, in 32-bit arithmetic after the time of day has been split off. */
    method SetUnixTime(unixtime: nat)
      requires unixtime < M64
      modifies this
      ensures Fits() && hours < 24 && minutes < 60 && seconds < 60 && TimeOfDay() == unixtime % SECONDS_PER_DAY
      ensures var n := unixtime / SECONDS_PER_DAY;
              n <= LAST_DAY ==> Date() == DateOf(n) && weekday == WeekdayOf(n)
    {
      var t := unixtime;
      seconds := t % 60;
      t := t / 60;
      minutes := t % 60;
      t := t / 60;
      hours := t % 24;
      t := t / 24;
      SplitTime(unixtime);
      SetDay(t);
    }

    /** Date to Unix time in 32-bit arithmetic. */
    method ToUnixTime() returns (unixtime: nat)
      requires Fits()
      ensures unixtime == Wrap(SECONDS_PER_DAY * DayNumber(Clamped(Date()))
                               + 3600 * (hours % 24) + 60 * (minutes % 60) + seconds % 60)
    {
      hide DayNumber, Wrap;
      var y, m, d := RangeChecked();
      ghost var c := Civil(y, m, d);
      if m <= 2 {
        m := m + 12;
        y := y - 1;
      }
      var t;
      t := DaysSince1970(y, m, d, c);
      t := Wrap(t * 86400);
      t := Wrap(t + 3600 * (hours % 24) + 60 * (minutes % 60) + seconds % 60);
      WrapWrap(SECONDS_PER_DAY * DayNumber(c), 3600 * (hours % 24) + 60 * (minutes % 60) + seconds % 60);
      return t;
    }

    /** The date, with fields out of range replaced. */
    method RangeChecked() returns (y: nat, m: nat, d: nat)
      requires Fits()
      ensures Civil(y, m, d) == Clamped(Date())
    {
      if year < 1970 { y := 1970; } else { y := year; }
      if month < 1 || month > 12 { m := 1; } else { m := month; }
      if day < 1 || day > 31 { d := 1; } else { d := day; }
    }

    method SetDay(t: nat)
      modifies this`year, this`month, this`day, this`weekday
      ensures year < 0x10000 && month < 0x100 && day < 0x100
      ensures t <= LAST_DAY ==> Date() == DateOf(t) && weekday == WeekdayOf(t)
    {
      hide StepsOf, YearDays, MonthDays, DateOf, WeekdayOf, Zeller;
      var c, e, f := FindDate(t);
      if t <= LAST_DAY {
        StepsFindDate(t);
        NumberedDate(t);
        WeekdayCycle(t);
        ZellerCountsDays(MarchYear(Civil(c, e, f)), MarchMonth(Civil(c, e, f)), f);
      }
      year, month, day := c % 0x10000, e % 0x100, f % 0x100;
      weekday := FindWeekday(c, e, f);
    }
  }

  // ---- from date to Unix time

  /** The date a field triple stands for: out-of-range fields count as the first year, month or day. */
  function Clamped(c: Civil): Civil {
    Civil(if c.year < 1970 then 1970 else c.year,
          if c.month < 1 || c.month > 12 then 1 else c.month,
          if c.day < 1 || c.day > 31 then 1 else c.day)
  }

  /** Days since January 1st, 1970 of the date with March year `y` and March month `m`. */
  method DaysSince1970(y: nat, m: nat, d: nat, ghost c: Civil) returns (t: nat)
    requires 1970 <= c.year < 0x10000 && 1 <= c.month <= 12 && 1 <= c.day <= 31
    requires y == MarchYear(c) && m == MarchMonth(c) && d == c.day
    ensures t == DayNumber(c)
  {
    hide Wrap;
    DayNumberNonNegative(c);
    t := Wrap(365 * y + y / 4 - y / 100 + y / 400);
    WrapSmall(YearDays(y));
    t := Wrap(t + 30 * m + 3 * (m + 1) / 5 + d);
    WrapSmall(YearDays(y) + MonthDays(m) + d);
    t := Wrap(t - 719561);
    WrapSmall(DayNumber(c));
  }

  /** Going through a date and back reproduces the Unix time modulo 2^32, up to the year 65535. */
  method ThereAndBack(unixtime: nat) returns (t: nat)
    requires unixtime / SECONDS_PER_DAY <= LAST_DAY
    ensures t == unixtime % M32
  {
    hide DayNumber, DateOf, WeekdayOf;
    var date := new DateTime();
    DayLimit(unixtime);
    date.SetUnixTime(unixtime);
    t := date.ToUnixTime();
    var n := unixtime / SECONDS_PER_DAY;
    NumberedDate(n);
    DateNotBefore1970(n);
    assert SECONDS_PER_DAY * n + unixtime % SECONDS_PER_DAY == unixtime;
  }

  /** Going through Unix time and back reproduces every date and time of day below 2^32 seconds, and
      finds its weekday. */
  method BackAndThere(c: Civil, hours: nat, minutes: nat, seconds: nat) returns (date: DateTime)
    requires ValidDate(c) && 1970 <= c.year && hours < 24 && minutes < 60 && seconds < 60
    requires SECONDS_PER_DAY * DayNumber(c) + 3600 * hours + 60 * minutes + seconds < M32
    ensures date.Date() == c && date.hours == hours && date.minutes == minutes && date.seconds == seconds
    ensures DayNumber(c) >= 0 && date.weekday == WeekdayOf(DayNumber(c))
  {
    hide DayNumber, DateOf, WeekdayOf, Clamped;
    SmallNumber(c);
    date := new DateTime();
    date.year, date.month, date.day := c.year, c.month, c.day;
    date.hours, date.minutes, date.seconds := hours, minutes, seconds;
    var t := date.ToUnixTime();
    var n := DayNumber(c);
    ValidIsClamped(c);
    SplitClock(t, n, hours, minutes, seconds);
    date.SetUnixTime(t);
    NumberedDate(n);
    DayNumberInjective(DateOf(n), c);
    SameClock(date.hours, date.minutes, date.seconds, hours, minutes, seconds);
  }

  /** Fields that are all out of range stand for the first second of 1970. */
  method OutOfRange() returns (t: nat)
    ensures t == 0
  {
    var date := new DateTime();
    date.year, date.month, date.day, date.hours, date.minutes, date.seconds := 1969, 13, 32, 24, 60, 60;
    t := date.ToUnixTime();
  }

  lemma SplitClock(t: nat, n: nat, hours: nat, minutes: nat, seconds: nat)
    requires hours < 24 && minutes < 60 && seconds < 60
    requires SECONDS_PER_DAY * n + 3600 * hours + 60 * minutes + seconds < M32
    requires t == (SECONDS_PER_DAY * n + 3600 * (hours % 24) + 60 * (minutes % 60) + seconds % 60) % M32
    ensures t / SECONDS_PER_DAY == n <= LAST_DAY
    ensures t % SECONDS_PER_DAY == 3600 * hours + 60 * minutes + seconds
  {
    var clock := 3600 * hours + 60 * minutes + seconds;
    assert t == SECONDS_PER_DAY * n + clock;
  }

  /** Dates below 2^32 seconds fit the fields. */
  lemma SmallNumber(c: Civil)
    requires ValidDate(c) && 1970 <= c.year && DayNumber(c) <= 49710
    ensures 0 <= DayNumber(c) && c.year < 0x10000
  {
    DayNumberNonNegative(c);
    assert YearDays(65535) == 23936166;
    if c.year >= 0x10000 {
      YearsGrow(65535, MarchYear(c));
    }
  }

  lemma ValidIsClamped(c: Civil)
    requires ValidDate(c) && 1970 <= c.year
    ensures Clamped(c) == c
  {}

  lemma SameClock(h: nat, m: nat, s: nat, h': nat, m': nat, s': nat)
    requires m < 60 && s < 60 && m' < 60 && s' < 60
    requires 3600 * h + 60 * m + s == 3600 * h' + 60 * m' + s'
    ensures h == h' && m == m' && s == s'
  {}

  lemma DayLimit(t: nat)
    requires t / SECONDS_PER_DAY <= LAST_DAY
    ensures t < M64
  {}

  lemma DayNumberNonNegative(c: Civil)
    requires 1970 <= c.year && 1 <= c.month <= 12 && 1 <= c.day
    ensures DayNumber(c) >= 0
  {
    YearsGrow(if c.month <= 2 then 1969 else 1970, MarchYear(c));
    assert YearDays(1969) == 719162 && YearDays(1970) == 719527;
    hide YearDays;
  }

  lemma DateNotBefore1970(n: nat)
    ensures DateOf(n).year >= 1970
  {
    NumberedDate(n);
  }

  lemma StepsWrapped(t: nat)
    requires t <= LAST_DAY
    ensures var s := StepsOf(t);
            && Wrap(s.q + 15) == s.q + 15 && Wrap(s.b) == s.b && Wrap(20 * s.b - 2442) == 20 * s.b - 2442
            && Wrap(s.d) == s.d && s.c >= 0 && s.d >= 0
  {
    var s := StepsOf(t);
    StepsFit(t);
    YearFacts(t, s);
    hide StepsOf, MonthDays, YearDays, Leap, Wrap;
    WrapSmall(s.q + 15);
    WrapSmall(s.b);
    WrapSmall(20 * s.b - 2442);
    WrapSmall(s.d);
  }

  /** Year and day of the year of the `t`-th day. */
  method FindYear(t: nat) returns (c: nat, d: nat)
    ensures t <= LAST_DAY ==> c == StepsOf(t).c && d == StepsOf(t).d
  {
    hide Wrap;
    var a: nat := Wrap((4 * t + 102032) / 146097 + 15);
    var b: nat := Wrap(t + 2442113 + a - a / 4);
    c := Wrap(20 * b - 2442) / 7305;
    d := Wrap(b - 365 * c - c / 4);
    if t <= LAST_DAY {
      StepsWrapped(t);
    }
  }

  /** Month and day from the day of the year. */
  method FindMonth(year: nat, d: nat) returns (c: nat, e: nat, f: nat)
    ensures 4716 <= year <= 70251 && 123 <= d <= 488 ==>
              var e0 := d * 1000 / 30601;
              Civil(c, e, f) == CivilOf(Steps(0, 0, year, d, e0, d - e0 * 30 - e0 * 601 / 1000))
  {
    hide Wrap;
    c := year;
    e := Wrap(d * 1000) / 30601;
    f := Wrap(d - e * 30 - Wrap(e * 601) / 1000);
    if 4716 <= year <= 70251 && 123 <= d <= 488 {
      ghost var e0 := d * 1000 / 30601;
      ghost var f0 := d - e0 * 30 - e0 * 601 / 1000;
      MonthOfDay(d, e0, f0);
      hide MonthDays;
      WrapSmall(d * 1000);
      WrapSmall(e0 * 601);
      WrapSmall(f0);
      WrapSmall(e0 - 1);
      WrapSmall(c - 4716);
      WrapSmall(c - 4715);
    }
    if e <= 13 {
      c := Wrap(c - 4716);
      e := Wrap(e - 1);
    } else {
      c := Wrap(c - 4715);
      e := e - 13;
    }
  }

  /** Year, month and day of the `t`-th day. */
  method FindDate(t: nat) returns (c: nat, e: nat, f: nat)
    ensures t <= LAST_DAY ==>
              Civil(c, e, f) == CivilOf(StepsOf(t)) && 1 <= c < 0x10000 && 1 <= e <= 12 && 1 <= f <= 31
  {
    var d;
    c, d := FindYear(t);
    c, e, f := FindMonth(c, d);
    if t <= LAST_DAY {
      ghost var s := StepsOf(t);
      StepsFit(t);
      YearFacts(t, s);
      hide StepsOf, MonthDays, YearDays, Leap;
      MonthOfDay(s.d, s.e, s.f);
    }
  }

  /** Weekday of a date, by Zeller's congruence; Monday is 1. */
  method FindWeekday(year: nat, month: nat, day: nat) returns (weekday: nat)
    ensures 1 <= year < 0x10000 && 1 <= month <= 12 && 1 <= day <= 31 ==>
              var date := Civil(year, month, day);
              weekday == (Zeller(MarchYear(date), MarchMonth(date), day) + 5) % 7 + 1
  {
    hide Wrap;
    var c: int, e := year, month;
    WrapSmall(c - 1);
    if e <= 2 {
      e := e + 12;
      c := Wrap(c - 1);
    }
    weekday := ZellerDay(c, e, day);
  }

  method ZellerDay(c: nat, e: nat, day: nat) returns (weekday: nat)
    ensures c < 0x10000 && 1 <= e <= 14 && 1 <= day <= 31 ==> weekday == (Zeller(c, e, day) + 5) % 7 + 1
  {
    hide Wrap;
    var j, k := c / 100, c % 100;
    var h := Wrap(day + 26 * (e + 1) / 10 + k + k / 4 + 5 * j + j / 4);
    ghost var z := Zeller(c, e, day);
    assert c < 0x10000 && 1 <= e <= 14 && 1 <= day <= 31 ==> 0 <= z < 100000;
    WrapSmall(z);
    WrapSmall(z + 5);
    weekday := Wrap(h as int + 5) % 7 + 1;
  }

  lemma SplitTime(t: nat)
    ensures t / 60 / 60 / 24 == t / SECONDS_PER_DAY
    ensures 3600 * (t / 60 / 60 % 24) + 60 * (t / 60 % 60) + t % 60 == t % SECONDS_PER_DAY
  {}
}
