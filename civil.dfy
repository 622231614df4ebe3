/**
 * Calendar arithmetic in one fixed time zone: instants as (day number, time of
 * day), the proleptic Gregorian calendar, and the `YYYY-MM-DD` date text that
 * the rotating writer uses as an archive suffix. The layout is Go's
 * "2006-01-02", which is the full-date production of section 5.6 of RFC 3339.
 */
module Civil {
  import opened Common

  const NanosPerDay: int := 86_400_000_000_000

  /** Nanoseconds since midnight. */
  type TimeOfDay = n: nat | n < 86_400_000_000_000

  /** A point in time: day 0 is 1970-01-01; nanos counts from that day's midnight. */
  datatype Instant = Instant(day: int, nanos: TimeOfDay)

  /** time.Time.Before */
  predicate Before(a: Instant, b: Instant)
  {
    a.day < b.day || (a.day == b.day && a.nanos < b.nanos)
  }

  /** timeMidnight(t, offset): midnight of the day `offset` calendar days after t's day. */
  function Midnight(t: Instant, offset: int): (m: Instant)
    ensures m.nanos == 0
    ensures Before(t, m) <==> offset > 0
  {
    Instant(t.day + offset, 0)
  }

  // ---------------------------------------------------------------------------
  // The calendar

  datatype Date = Date(year: int, month: int, day: int)

  predicate IsLeapYear(y: int)
  {
    y % 4 == 0 && (y % 100 != 0 || y % 400 == 0)
  }

  function DaysInMonth(y: int, m: int): int
    requires 1 <= m <= 12
  {
    if m == 2 then (if IsLeapYear(y) then 29 else 28)
    else if m == 4 || m == 6 || m == 9 || m == 11 then 30
    else 31
  }

  predicate ValidDate(d: Date)
  {
    1 <= d.month <= 12 && 1 <= d.day <= DaysInMonth(d.year, d.month)
  }

  /** The calendar successor of a date, defined day by day (independently of day numbers). */
  function NextDate(d: Date): Date
    requires ValidDate(d)
  {
    if d.day < DaysInMonth(d.year, d.month) then Date(d.year, d.month, d.day + 1)
    else if d.month < 12 then Date(d.year, d.month + 1, 1)
    else Date(d.year + 1, 1, 1)
  }

  // Day numbers are computed on years that start on March 1, so that the leap
  // day is the last day of its year. Month index 0 is March, 11 is February.

  /** Days of a March-based year before each month. */
  const MarchMonthStarts: seq<int> := [0, 31, 61, 92, 122, 153, 184, 214, 245, 275, 306, 337]

  function MarchIndex(m: int): int
    requires 1 <= m <= 12
  {
    if m >= 3 then m - 3 else m + 9
  }

  function MonthOfMarchIndex(mp: int): int
    requires 0 <= mp < 12
  {
    if mp < 10 then mp + 3 else mp - 9
  }

  /** The month (as a March index) that holds day `doy` of a March-based year. */
  function MonthOfDay(doy: int): (mp: int)
    requires 0 <= doy < 366
    ensures 0 <= mp < 12 && MarchMonthStarts[mp] <= doy
    ensures mp < 11 ==> doy < MarchMonthStarts[mp + 1]
  {
    if doy < 31 then 0 else if doy < 61 then 1 else if doy < 92 then 2
    else if doy < 122 then 3 else if doy < 153 then 4 else if doy < 184 then 5
    else if doy < 214 then 6 else if doy < 245 then 7 else if doy < 275 then 8
    else if doy < 306 then 9 else if doy < 337 then 10 else 11
  }

  /** Length of March-based year `yoe` of a 400-year era: its February lies in year yoe + 1. */
  function MarchYearLength(yoe: int): int
  {
    if IsLeapYear(yoe + 1) then 366 else 365
  }

  /** Days of a 400-year era before its March-based year `yoe`. */
  function YearStart(yoe: int): int
    requires 0 <= yoe < 400
  {
    36524 * (yoe / 100) + 1461 * ((yoe % 100) / 4) + 365 * (yoe % 4)
  }

  /** Splits a day of a 400-year era into its year and the day of that year. */
  function SplitEraDay(doe: int): (r: (int, int))
    requires 0 <= doe < 146097
    ensures 0 <= r.0 < 400 && 0 <= r.1 < MarchYearLength(r.0)
    ensures YearStart(r.0) + r.1 == doe
  {
    var c := if doe / 36524 < 3 then doe / 36524 else 3;
    var rc := doe - 36524 * c;
    var q := rc / 1461;
    var rq := rc - 1461 * q;
    var r := if rq / 365 < 3 then rq / 365 else 3;
    SplitEraDayFacts(doe, c, rc, q, rq, r);
    (100 * c + 4 * q + r, rq - 365 * r)
  }

  lemma SplitEraDayFacts(doe: int, c: int, rc: int, q: int, rq: int, r: int)
    requires 0 <= doe < 146097
    requires c == (if doe / 36524 < 3 then doe / 36524 else 3)
    requires rc == doe - 36524 * c && q == rc / 1461 && rq == rc - 1461 * q
    requires r == (if rq / 365 < 3 then rq / 365 else 3)
    ensures 0 <= c < 4 && 0 <= q < 25 && 0 <= r < 4
    ensures 0 <= rq - 365 * r < MarchYearLength(100 * c + 4 * q + r)
    ensures YearStart(100 * c + 4 * q + r) == 36524 * c + 1461 * q + 365 * r
  {
    assert 0 <= rc <= 36524;
    assert c < 3 ==> rc < 36524;
    assert 0 <= q < 25;
    var yoe := 100 * c + 4 * q + r;
    assert yoe / 100 == c && (yoe % 100) / 4 == q && yoe % 4 == r;
    LeapInEra(c, q, r);
  }

  /** Which March-based years of an era are long: the last of a 4-year cycle,
      except at the end of the first three centuries. */
  lemma LeapInEra(c: int, q: int, r: int)
    requires 0 <= c < 4 && 0 <= q < 25 && 0 <= r < 4
    ensures IsLeapYear(100 * c + 4 * q + r + 1) <==> r == 3 && (q < 24 || c == 3)
  {
    var y := 100 * c + 4 * q + r + 1;
    assert y % 4 == (r + 1) % 4;
    if r == 3 {
      assert y == 100 * c + 4 * (q + 1);
      assert y % 100 == 0 <==> q == 24;
      assert y % 400 == 0 <==> q == 24 && c == 3;
    }
  }

  /** A year of an era as (century, 4-year cycle, year of the cycle). */
  lemma YearParts(y: int)
    requires 0 <= y < 400
    ensures 0 <= y / 100 < 4 && 0 <= (y % 100) / 4 < 25 && 0 <= y % 4 < 4
    ensures y == 100 * (y / 100) + 4 * ((y % 100) / 4) + y % 4
  {
  }

  lemma YearStartGapParts(ca: int, qa: int, ra: int, cb: int, qb: int, rb: int)
    requires 0 <= ca < 4 && 0 <= qa < 25 && 0 <= ra < 4
    requires 0 <= cb < 4 && 0 <= qb < 25 && 0 <= rb < 4
    requires 100 * ca + 4 * qa + ra < 100 * cb + 4 * qb + rb
    ensures 36524 * cb + 1461 * qb + 365 * rb
            >= 36524 * ca + 1461 * qa + 365 * ra + MarchYearLength(100 * ca + 4 * qa + ra)
  {
    LeapInEra(ca, qa, ra);
  }

  /** A later year of an era starts no earlier than the end of an earlier one. */
  lemma YearStartGap(a: int, b: int)
    requires 0 <= a < b < 400
    ensures YearStart(b) >= YearStart(a) + MarchYearLength(a)
  {
    YearParts(a);
    YearParts(b);
    YearStartGapParts(a / 100, (a % 100) / 4, a % 4, b / 100, (b % 100) / 4, b % 4);
  }

  /** SplitEraDay inverts YearStart. */
  lemma SplitYearStart(yoe: int, doy: int)
    requires 0 <= yoe < 400 && 0 <= doy < MarchYearLength(yoe)
    ensures YearStart(yoe) + doy < 146097
    ensures SplitEraDay(YearStart(yoe) + doy) == (yoe, doy)
  {
    YearStartBound(yoe, doy);
    var r := SplitEraDay(YearStart(yoe) + doy);
    SplitUnique(r.0, r.1, yoe, doy);
  }

  /** Every day of every year of an era lies inside the era. */
  lemma YearStartBound(yoe: int, doy: int)
    requires 0 <= yoe < 400 && 0 <= doy < MarchYearLength(yoe)
    ensures YearStart(yoe) + doy < 146097
  {
    LastYearOfEra();
    if yoe < 399 {
      YearStartGap(yoe, 399);
    }
  }

  /** The last March-based year of an era is long and ends the era's 146097 days. */
  lemma LastYearOfEra()
    ensures YearStart(399) == 145731 && MarchYearLength(399) == 366
  {
  }

  /** A day of an era belongs to one year only. */
  lemma SplitUnique(a: int, da: int, b: int, db: int)
    requires 0 <= a < 400 && 0 <= da < MarchYearLength(a)
    requires 0 <= b < 400 && 0 <= db < MarchYearLength(b)
    requires YearStart(a) + da == YearStart(b) + db
    ensures a == b && da == db
  {
    if a < b {
      YearStartGap(a, b);
    } else if b < a {
      YearStartGap(b, a);
    }
  }

  /** Leap years repeat every 400 years. */
  lemma LeapPeriodic(k: int, era: int)
    ensures IsLeapYear(k + 400 * era) <==> IsLeapYear(k)
  {
    DivModUnique(k + 400 * era, 4, k / 4 + 100 * era, k % 4);
    DivModUnique(k + 400 * era, 100, k / 100 + 4 * era, k % 100);
    DivModUnique(k + 400 * era, 400, k / 400 + era, k % 400);
  }

  /** Euclidean division is determined by its quotient and remainder bounds. */
  lemma DivModUnique(x: int, m: int, q: int, r: int)
    requires m > 0 && 0 <= r < m && x == m * q + r
    ensures x / m == q && x % m == r
  {
    var q', r' := x / m, x % m;
    assert x == m * q' + r' && 0 <= r' < m;
    if q' < q {
      assert m * q >= m * (q' + 1) by { MulMonotone(m, q' + 1, q); }
    } else if q' > q {
      assert m * q' >= m * (q + 1) by { MulMonotone(m, q + 1, q'); }
    }
  }

  lemma MulMonotone(m: int, a: int, b: int)
    requires m > 0 && a <= b
    ensures m * a <= m * b
  {
  }

  /** Days from 0000-03-01 to 1970-01-01. */
  const EpochShift: int := 719468

  /** The day number of a valid date (1970-01-01 is day 0). */
  function DayNumber(d: Date): int
    requires ValidDate(d)
  {
    var y := if d.month <= 2 then d.year - 1 else d.year;
    (y / 400) * 146097 + YearStart(y % 400) + MarchMonthStarts[MarchIndex(d.month)] + d.day - 1 - EpochShift
  }

  /** The date of a day number. */
  function DateOf(n: int): (d: Date)
    ensures ValidDate(d)
  {
    var z := n + EpochShift;
    EraDayDate(z / 146097, z % 146097)
  }

  /** The date of day `doe` of era `era`. */
  function EraDayDate(era: int, doe: int): (d: Date)
    requires 0 <= doe < 146097
    ensures ValidDate(d)
  {
    var split := SplitEraDay(doe);
    EraDate(era, split.0, split.1)
  }

  /** The date of day `doy` of March-based year `yoe` of era `era`. */
  function EraDate(era: int, yoe: int, doy: int): (d: Date)
    requires 0 <= yoe < 400 && 0 <= doy < MarchYearLength(yoe)
    ensures ValidDate(d)
  {
    var mp := MonthOfDay(doy);
    var m := MonthOfMarchIndex(mp);
    var d := Date(era * 400 + yoe + (if m <= 2 then 1 else 0), m, doy - MarchMonthStarts[mp] + 1);
    DateOfValid(era, yoe, doy, d);
    d
  }

  lemma DateOfValid(era: int, yoe: int, doy: int, d: Date)
    requires 0 <= yoe < 400 && 0 <= doy < MarchYearLength(yoe)
    requires d.month == MonthOfMarchIndex(MonthOfDay(doy))
    requires d.year == era * 400 + yoe + (if d.month <= 2 then 1 else 0)
    requires d.day == doy - MarchMonthStarts[MonthOfDay(doy)] + 1
    ensures ValidDate(d)
  {
    if MonthOfDay(doy) == 11 {
      LeapPeriodic(yoe + 1, era);
      assert d.year == (yoe + 1) + 400 * era;
    }
  }

  /** The March-based coordinates of a valid date: its era, year of era and day of year. */
  lemma MarchCoordinates(d: Date) returns (era: int, yoe: int, mp: int, doy: int)
    requires ValidDate(d)
    ensures 0 <= yoe < 400 && 0 <= mp < 12 && mp == MarchIndex(d.month)
    ensures 400 * era + yoe == (if d.month <= 2 then d.year - 1 else d.year)
    ensures doy == MarchMonthStarts[mp] + d.day - 1 && 0 <= doy < MarchYearLength(yoe)
    ensures DayNumber(d) + EpochShift == 146097 * era + YearStart(yoe) + doy
    ensures MonthOfDay(doy) == mp
  {
    var y := if d.month <= 2 then d.year - 1 else d.year;
    era, yoe := y / 400, y % 400;
    mp := MarchIndex(d.month);
    doy := MarchMonthStarts[mp] + d.day - 1;
    if mp == 11 {
      LeapPeriodic(yoe + 1, era);
      assert d.year == (yoe + 1) + 400 * era;
    }
    MonthOfDayAt(mp, d.day - 1);
  }

  /** Day numbers and dates are in one-to-one correspondence: date to number and back. */
  lemma {:induction false} DateRoundTrip(d: Date)
    requires ValidDate(d)
    ensures DateOf(DayNumber(d)) == d
  {
    var era, yoe, mp, doy := MarchCoordinates(d);
    DateOfParts(DayNumber(d), era, yoe, doy);
    assert MonthOfMarchIndex(mp) == d.month;
  }

  /** The date of a day number, given the number's era, year of era and day of year. */
  lemma DateOfParts(n: int, era: int, yoe: int, doy: int)
    requires 0 <= yoe < 400 && 0 <= doy < MarchYearLength(yoe)
    requires n + EpochShift == 146097 * era + YearStart(yoe) + doy
    ensures DateOf(n) == EraDate(era, yoe, doy)
  {
    var doe := YearStart(yoe) + doy;
    EraDayOfYearStart(era, yoe, doy, doe);
    DateOfEraDay(n, era, doe);
  }

  lemma DateOfEraDay(n: int, era: int, doe: int)
    requires 0 <= doe < 146097 && n + EpochShift == 146097 * era + doe
    ensures DateOf(n) == EraDayDate(era, doe)
  {
    var z := n + EpochShift;
    DivModUnique(z, 146097, era, doe);
    assert DateOf(n) == EraDayDate(z / 146097, z % 146097);
  }

  lemma EraDayOfYearStart(era: int, yoe: int, doy: int, doe: int)
    requires 0 <= yoe < 400 && 0 <= doy < MarchYearLength(yoe) && doe == YearStart(yoe) + doy
    ensures 0 <= doe < 146097
    ensures EraDayDate(era, doe) == EraDate(era, yoe, doy)
  {
    SplitYearStart(yoe, doy);
    var split := SplitEraDay(doe);
    assert split == (yoe, doy);
    assert EraDayDate(era, doe) == EraDate(era, split.0, split.1);
  }

  /** MonthOfDay finds the month that a day of a March-based year falls in. */
  lemma MonthOfDayAt(mp: int, k: int)
    requires 0 <= mp < 12 && 0 <= k
    requires mp < 11 ==> MarchMonthStarts[mp] + k < MarchMonthStarts[mp + 1]
    requires mp == 11 ==> k < 29
    ensures MonthOfDay(MarchMonthStarts[mp] + k) == mp
  {
  }

  /** ... and number to date and back. */
  lemma {:induction false} DayRoundTrip(n: int)
    ensures DayNumber(DateOf(n)) == n
  {
    var z := n + EpochShift;
    var era, doe := z / 146097, z % 146097;
    assert DateOf(n) == EraDayDate(era, doe);
    var split := SplitEraDay(doe);
    assert DateOf(n) == EraDate(era, split.0, split.1);
    EraDateNumber(era, split.0, split.1);
  }

  /** The day number of the date of day `doy` of year `yoe` of era `era`. */
  lemma EraDateNumber(era: int, yoe: int, doy: int)
    requires 0 <= yoe < 400 && 0 <= doy < MarchYearLength(yoe)
    ensures DayNumber(EraDate(era, yoe, doy)) + EpochShift == 146097 * era + YearStart(yoe) + doy
  {
    var d := EraDate(era, yoe, doy);
    var mp := MonthOfDay(doy);
    assert d.month == MonthOfMarchIndex(mp);
    assert MarchIndex(d.month) == mp;
    var y := if d.month <= 2 then d.year - 1 else d.year;
    assert y == 400 * era + yoe;
    DivModUnique(y, 400, era, yoe);
    assert d.day == doy - MarchMonthStarts[mp] + 1;
  }

  /** Consecutive years of an era are adjacent. */
  lemma YearStartStep(a: int)
    requires 0 <= a < 399
    ensures YearStart(a + 1) == YearStart(a) + MarchYearLength(a)
  {
    YearParts(a);
    YearParts(a + 1);
    LeapInEra(a / 100, (a % 100) / 4, a % 4);
  }

  lemma NextDateValid(d: Date)
    requires ValidDate(d)
    ensures ValidDate(NextDate(d))
  {
  }

  /** The successor date has the next day number. */
  lemma DayNumberOfNextDate(d: Date)
    requires ValidDate(d)
    ensures ValidDate(NextDate(d)) && DayNumber(NextDate(d)) == DayNumber(d) + 1
  {
    NextDateValid(d);
    if d.month == 2 && d.day == DaysInMonth(d.year, d.month) {
      NextDayAfterFebruary(d);
    } else {
      NextDayWithinMarchYear(d);
    }
  }

  lemma NextDayWithinMarchYear(d: Date)
    requires ValidDate(d) && ValidDate(NextDate(d))
    requires !(d.month == 2 && d.day == DaysInMonth(d.year, d.month))
    ensures DayNumber(NextDate(d)) == DayNumber(d) + 1
  {
    var e := NextDate(d);
    var era, yoe, mp, doy := MarchCoordinates(d);
    var era', yoe', mp', doy' := MarchCoordinates(e);
    assert 400 * era' + yoe' == 400 * era + yoe;
    DivModUnique(400 * era + yoe, 400, era', yoe');
    DivModUnique(400 * era + yoe, 400, era, yoe);
    assert era' == era && yoe' == yoe;
    assert doy' == doy + 1;
  }

  lemma NextDayAfterFebruary(d: Date)
    requires ValidDate(d) && ValidDate(NextDate(d))
    requires d.month == 2 && d.day == DaysInMonth(d.year, d.month)
    ensures DayNumber(NextDate(d)) == DayNumber(d) + 1
  {
    var e := NextDate(d);
    assert e == Date(d.year, 3, 1);
    var era, yoe, mp, doy := MarchCoordinates(d);
    var era', yoe', mp', doy' := MarchCoordinates(e);
    LastDayOfMarchYear(d, era, yoe, doy);
    assert doy' == 0;
    YearAfter(era, yoe, era', yoe');
  }

  /** The last day of February is the last day of its March-based year. */
  lemma LastDayOfMarchYear(d: Date, era: int, yoe: int, doy: int)
    requires ValidDate(d) && d.month == 2 && d.day == DaysInMonth(d.year, d.month)
    requires 0 <= yoe < 400 && 400 * era + yoe == d.year - 1
    requires doy == MarchMonthStarts[11] + d.day - 1
    ensures doy == MarchYearLength(yoe) - 1
  {
    LeapPeriodic(yoe + 1, era);
    assert d.year == (yoe + 1) + 400 * era;
  }

  /** The March-based year after year `yoe` of era `era` starts where that year ends. */
  lemma YearAfter(era: int, yoe: int, era': int, yoe': int)
    requires 0 <= yoe < 400 && 0 <= yoe' < 400
    requires 400 * era' + yoe' == 400 * era + yoe + 1
    ensures 146097 * era' + YearStart(yoe') == 146097 * era + YearStart(yoe) + MarchYearLength(yoe)
  {
    var y := 400 * era + yoe + 1;
    DivModUnique(y, 400, era', yoe');
    if yoe < 399 {
      DivModUnique(y, 400, era, yoe + 1);
      YearStartStep(yoe);
    } else {
      DivModUnique(y, 400, era + 1, 0);
      assert YearStart(399) + MarchYearLength(399) == 146097;
    }
  }

  /** Calendar arithmetic: the day after day n is dated with the successor of n's date. */
  lemma {:induction false} DateOfNextDay(n: int)
    ensures DateOf(n + 1) == NextDate(DateOf(n))
  {
    var d := DateOf(n);
    DayRoundTrip(n);
    assert DayNumber(d) == n;
    DayNumberOfNextDate(d);
    assert DayNumber(NextDate(d)) == n + 1;
    DateRoundTrip(NextDate(d));
  }

  // ---------------------------------------------------------------------------
  // The date text: Go's layout "2006-01-02" (RFC 3339 full-date)

  predicate IsDigit(c: char)
  {
    '0' <= c <= '9'
  }

  function DigitChar(n: int): char
    requires 0 <= n < 10
  {
    ('0' as int + n) as char
  }

  function DigitValue(c: char): int
    requires IsDigit(c)
  {
    c as int - '0' as int
  }

  /** Decimal digits of n without leading zeros. */
  function Decimal(n: nat): string
  {
    if n < 10 then [DigitChar(n)] else Decimal(n / 10) + [DigitChar(n % 10)]
  }

  function PadZeros(s: string, width: nat): string
    decreases width - |s|
  {
    if |s| >= width then s else PadZeros("0" + s, width)
  }

  /** Go's appendInt(x, width): a sign for negative x, then at least `width` digits. */
  function AppendInt(x: int, width: nat): string
  {
    var u := if x < 0 then -x else x;
    (if x < 0 then "-" else "")
    + (if width == 2 && u < 100 then [DigitChar(u / 10), DigitChar(u % 10)]
       else if width == 4 && u < 10000 then
         [DigitChar(u / 1000), DigitChar(u / 100 % 10), DigitChar(u / 10 % 10), DigitChar(u % 10)]
       else PadZeros(Decimal(u), width))
  }

  /** time.Time.Format with layout "2006-01-02". */
  function FormatDate(d: Date): (s: string)
    ensures ValidDate(d) && 0 <= d.year <= 9999 ==> |s| == 10 && s[4] == '-' && s[7] == '-'
  {
    if ValidDate(d) && 0 <= d.year <= 9999 then
      FourDigitsOf(d.year);
      TwoDigitsOf(d.month);
      TwoDigitsOf(d.day);
      AppendInt(d.year, 4) + "-" + AppendInt(d.month, 2) + "-" + AppendInt(d.day, 2)
    else
      AppendInt(d.year, 4) + "-" + AppendInt(d.month, 2) + "-" + AppendInt(d.day, 2)
  }

  /** time.Parse with layout "2006-01-02": exactly four digits, '-', two digits, '-',
      two digits, and a month and day that exist in the calendar. */
  function ParseDate(s: string): (r: Option<Date>)
    ensures r.Some? ==> |s| == 10 && ValidDate(r.value) && 0 <= r.value.year <= 9999
  {
    if |s| == 10 && s[4] == '-' && s[7] == '-'
       && IsDigit(s[0]) && IsDigit(s[1]) && IsDigit(s[2]) && IsDigit(s[3])
       && IsDigit(s[5]) && IsDigit(s[6]) && IsDigit(s[8]) && IsDigit(s[9])
    then
      var d := Date(1000 * DigitValue(s[0]) + 100 * DigitValue(s[1]) + 10 * DigitValue(s[2]) + DigitValue(s[3]),
                    10 * DigitValue(s[5]) + DigitValue(s[6]),
                    10 * DigitValue(s[8]) + DigitValue(s[9]));
      if ValidDate(d) then Some(d) else None
    else None
  }

  /** timeString: the date suffix of an instant's day. */
  function TimeString(t: Instant): (s: string)
    ensures 0 <= DateOf(t.day).year <= 9999 ==> |s| == 10 && ParseDate(s) == Some(DateOf(t.day))
  {
    var d := DateOf(t.day);
    if 0 <= d.year <= 9999 then
      FormatThenParse(d);
      FormatDate(d)
    else
      FormatDate(d)
  }

  /** time.ParseInLocation("2006-01-02", s, zone): midnight of the parsed date. */
  function ParseSuffix(s: string): (r: Option<Instant>)
    ensures r.Some? <==> ParseDate(s).Some?
    ensures r.Some? ==> r.value.nanos == 0 && DateOf(r.value.day) == ParseDate(s).value
  {
    match ParseDate(s)
    case None => None
    case Some(d) =>
      DateRoundTrip(d);
      Some(Instant(DayNumber(d), 0))
  }

  /** Every valid date of years 0 through 9999 is parsed back from its text. */
  lemma FormatThenParse(d: Date)
    requires ValidDate(d) && 0 <= d.year <= 9999
    ensures |FormatDate(d)| == 10
    ensures ParseDate(FormatDate(d)) == Some(d)
  {
    var y, m, dd := AppendInt(d.year, 4), AppendInt(d.month, 2), AppendInt(d.day, 2);
    FourDigitsOf(d.year);
    TwoDigitsOf(d.month);
    TwoDigitsOf(d.day);
    var s := FormatDate(d);
    assert s == y + "-" + m + "-" + dd;
    assert s[0..4] == y && s[5..7] == m && s[8..10] == dd;
    assert s[4] == '-' && s[7] == '-';
  }

  /** The four characters appendInt writes for a year of 0 through 9999 are digits spelling it. */
  lemma FourDigitsOf(y: int)
    requires 0 <= y <= 9999
    ensures var t := AppendInt(y, 4);
            |t| == 4 && IsDigit(t[0]) && IsDigit(t[1]) && IsDigit(t[2]) && IsDigit(t[3])
            && 1000 * DigitValue(t[0]) + 100 * DigitValue(t[1]) + 10 * DigitValue(t[2]) + DigitValue(t[3]) == y
  {
    DigitSplit(y);
    var t := AppendInt(y, 4);
    assert t == [DigitChar(y / 1000), DigitChar(y / 100 % 10), DigitChar(y / 10 % 10), DigitChar(y % 10)];
  }

  /** The decimal digits of a number below 10000. */
  lemma DigitSplit(y: int)
    requires 0 <= y <= 9999
    ensures 0 <= y / 1000 < 10
    ensures y == 1000 * (y / 1000) + 100 * (y / 100 % 10) + 10 * (y / 10 % 10) + y % 10
  {
    var q1, e := y / 10, y % 10;
    var q2, c := q1 / 10, q1 % 10;
    var q3, b := q2 / 10, q2 % 10;
    DivModUnique(y, 100, q2, 10 * c + e);
    DivModUnique(y, 1000, q3, 100 * b + 10 * c + e);
  }

  /** The two characters appendInt writes for 0 through 99 are digits spelling it. */
  lemma TwoDigitsOf(n: int)
    requires 0 <= n <= 99
    ensures var t := AppendInt(n, 2);
            |t| == 2 && IsDigit(t[0]) && IsDigit(t[1]) && 10 * DigitValue(t[0]) + DigitValue(t[1]) == n
  {
    var t := AppendInt(n, 2);
    assert t == [DigitChar(n / 10), DigitChar(n % 10)];
  }

  lemma DigitRoundTrip(c: char)
    requires IsDigit(c)
    ensures DigitChar(DigitValue(c)) == c
  {
  }

  lemma TwoDigitText(c0: char, c1: char)
    requires IsDigit(c0) && IsDigit(c1)
    ensures AppendInt(10 * DigitValue(c0) + DigitValue(c1), 2) == [c0, c1]
  {
    var v := 10 * DigitValue(c0) + DigitValue(c1);
    DivModUnique(v, 10, DigitValue(c0), DigitValue(c1));
    DigitRoundTrip(c0);
    DigitRoundTrip(c1);
  }

  lemma FourDigitText(c0: char, c1: char, c2: char, c3: char)
    requires IsDigit(c0) && IsDigit(c1) && IsDigit(c2) && IsDigit(c3)
    ensures AppendInt(1000 * DigitValue(c0) + 100 * DigitValue(c1) + 10 * DigitValue(c2) + DigitValue(c3), 4)
            == [c0, c1, c2, c3]
  {
    var a, b, c, e := DigitValue(c0), DigitValue(c1), DigitValue(c2), DigitValue(c3);
    var v := 1000 * a + 100 * b + 10 * c + e;
    DivModUnique(v, 1000, a, 100 * b + 10 * c + e);
    DivModUnique(v, 100, 10 * a + b, 10 * c + e);
    DivModUnique(10 * a + b, 10, a, b);
    DivModUnique(v, 10, 100 * a + 10 * b + c, e);
    DivModUnique(100 * a + 10 * b + c, 10, 10 * a + b, c);
    DigitRoundTrip(c0);
    DigitRoundTrip(c1);
    DigitRoundTrip(c2);
    DigitRoundTrip(c3);
  }

  /** A text that parses is exactly the text of the date it parses to. */
  lemma ParseThenFormat(s: string)
    requires ParseDate(s).Some?
    ensures FormatDate(ParseDate(s).value) == s
    ensures 0 <= ParseDate(s).value.year <= 9999
  {
    var d := ParseDate(s).value;
    FourDigitText(s[0], s[1], s[2], s[3]);
    TwoDigitText(s[5], s[6]);
    TwoDigitText(s[8], s[9]);
    assert s == [s[0], s[1], s[2], s[3]] + "-" + [s[5], s[6]] + "-" + [s[8], s[9]];
  }

  /** Parsing the suffix of an instant gives that instant's midnight. */
  lemma {:induction false} TimeStringParses(t: Instant)
    requires 0 <= DateOf(t.day).year <= 9999
    ensures ParseSuffix(TimeString(t)) == Some(Midnight(t, 0))
  {
    FormatThenParse(DateOf(t.day));
    DayRoundTrip(t.day);
  }

  /** Midnights compose: shifting by a days then by b days shifts by a + b days. */
  lemma MidnightShifts(t: Instant, a: int, b: int)
    ensures Midnight(Midnight(t, a), b) == Midnight(t, a + b)
    ensures !Before(t, Midnight(t, 0)) && Before(t, Midnight(t, 1))
  {
  }
}
