/**
 * Civil date-times and Unix time: the two closed-form conversions, a naive day-by-day calendar to compare them
 * with, and the proof that they are inverse to each other on the whole proleptic Gregorian calendar.
 */
module Calendar {
  import opened Arith

  /** Rust's `/` on signed words truncates toward zero. */
  function TruncDiv(a: int, b: int): int
    requires b > 0
  {
    if a >= 0 then a / b else -((-a) / b)
  }

  datatype Civil = Civil(year: int, month: int, day: int, hour: int, minute: int, second: int)

  datatype Date = Date(year: int, month: int, day: int)

  function DaysFromCivil(year: int, month: int, day: int): int {
    var y := if month <= 2 then year - 1 else year;
    var era := TruncDiv(if y >= 0 then y else y - 399, 400);
    var yoe := y - era * 400;
    var mp := (month + 9) % 12;
    var doy := (153 * mp + 2) / 5 + day - 1;
    var doe := yoe * 365 + yoe / 4 - yoe / 100 + doy;
    era * 146_097 + doe - 719_468
  }

  function UnixTimestamp(c: Civil): int {
    DaysFromCivil(c.year, c.month, c.day) * 86_400 + c.hour * 3_600 + c.minute * 60 + c.second
  }

  function YearOfEra(doe: int): int {
    (doe - doe / 1_460 + doe / 36_524 - doe / 146_096) / 365
  }

  function CivilFromDays(days: int): Date {
    var z := days + 719_468;
    var era := EraOfDay(z);
    DateOfEraAndDay(era, z - era * 146_097)
  }

  function EraOfDay(z: int): int {
    TruncDiv(if z >= 0 then z else z - 146_096, 146_097)
  }

  /** The day `doe` of an era of 400 years that begin in March. */
  function DateOfEraAndDay(era: int, doe: int): Date {
    var yoe := YearOfEra(doe);
    DateOfYearAndDay(yoe + era * 400, doe - (365 * yoe + yoe / 4 - yoe / 100))
  }

  /** Month and day of the day `doy` of the year `y` that begins in March. */
  function DateOfYearAndDay(y: int, doy: int): Date {
    var mp := (5 * doy + 2) / 153;
    var d := doy - (153 * mp + 2) / 5 + 1;
    var m := if mp < 10 then mp + 3 else mp - 9;
    Date(if m <= 2 then y + 1 else y, m, d)
  }

  function CivilFromUnix(secs: int): Civil {
    var date := CivilFromDays(secs / 86_400);
    var secsOfDay := secs % 86_400;
    Civil(date.year, date.month, date.day, secsOfDay / 3_600, secsOfDay % 3_600 / 60, secsOfDay % 60)
  }

  // ── The naive calendar ─────────────────────────────────────────────────────

  predicate IsLeap(year: int) {
    year % 4 == 0 && (year % 100 != 0 || year % 400 == 0)
  }

  function DaysInMonth(year: int, month: int): int {
    if month == 2 then (if IsLeap(year) then 29 else 28)
    else if month == 4 || month == 6 || month == 9 || month == 11 then 30
    else 31
  }

  predicate ValidDate(d: Date) {
    1 <= d.month <= 12 && 1 <= d.day <= DaysInMonth(d.year, d.month)
  }

  function NextDay(d: Date): Date {
    if d.day < DaysInMonth(d.year, d.month) then Date(d.year, d.month, d.day + 1)
    else if d.month < 12 then Date(d.year, d.month + 1, 1)
    else Date(d.year + 1, 1, 1)
  }

  predicate ValidCivil(c: Civil) {
    ValidDate(Date(c.year, c.month, c.day)) && 0 <= c.hour < 24 && 0 <= c.minute < 60 && 0 <= c.second < 60
  }

  // ── Years that begin in March ──────────────────────────────────────────────

  /** Days before the March-based year `y`, counted from 1 March of year 0. */
  function YearStart(y: int): int {
    365 * y + y / 4 - y / 100 + y / 400
  }

  function MarchYear(d: Date): int {
    if d.month <= 2 then d.year - 1 else d.year
  }

  /** Day of the March-based year, 0 on 1 March. */
  function DayOfYear(d: Date): int {
    (153 * ((d.month + 9) % 12) + 2) / 5 + d.day - 1
  }

  /** The February of March-based year `y` lies in civil year `y + 1`. */
  function YearLength(y: int): int {
    if IsLeap(y + 1) then 366 else 365
  }

  lemma EraOfYear(y: int)
    ensures TruncDiv(if y >= 0 then y else y - 399, 400) == y / 400
  {
  }

  lemma EraOfDayFloors(z: int, era: int, doe: int)
    requires 0 <= doe < 146_097 && z == 146_097 * era + doe
    ensures EraOfDay(z) == era
  {
    DivModUnique(z, 146_097, era, doe);
  }

  /** The era `era` of 400 years repeats the first one. */
  lemma EraRepeats(era: int, yoe: int)
    requires 0 <= yoe < 400
    ensures var y := 400 * era + yoe;
            && y / 400 == era && y % 400 == yoe
            && YearStart(y) == 146_097 * era + 365 * yoe + yoe / 4 - yoe / 100
  {
    var y := 400 * era + yoe;
    DivModUnique(y, 400, era, yoe);
    DivModUnique(y, 100, 4 * era + yoe / 100, yoe % 100);
    DivModUnique(y, 4, 100 * era + yoe / 4, yoe % 4);
  }

  lemma LeapRepeats(era: int, year: int)
    ensures IsLeap(400 * era + year) == IsLeap(year)
  {
    var y := 400 * era + year;
    DivModUnique(y, 400, era + year / 400, year % 400);
    DivModUnique(y, 100, 4 * era + year / 100, year % 100);
    DivModUnique(y, 4, 100 * era + year / 4, year % 4);
  }

  lemma DaysAreYearStart(d: Date)
    ensures DaysFromCivil(d.year, d.month, d.day) == YearStart(MarchYear(d)) + DayOfYear(d) - 719_468
  {
    var y := MarchYear(d);
    EraOfYear(y);
    EraRepeats(y / 400, y % 400);
  }

  lemma NextYearStart(y: int)
    ensures YearStart(y + 1) == YearStart(y) + YearLength(y)
  {
    assert (y + 1) / 4 - y / 4 == if (y + 1) % 4 == 0 then 1 else 0;
    assert (y + 1) / 100 - y / 100 == if (y + 1) % 100 == 0 then 1 else 0;
    assert (y + 1) / 400 - y / 400 == if (y + 1) % 400 == 0 then 1 else 0;
  }

  lemma DayOfYearInRange(d: Date)
    requires ValidDate(d)
    ensures 0 <= DayOfYear(d) < YearLength(MarchYear(d))
  {
  }

  // ── The closed form counts days ────────────────────────────────────────────

  /** The closed form advances by one on every step of the naive calendar. */
  lemma NextDayCounts(d: Date)
    requires ValidDate(d)
    ensures ValidDate(NextDay(d))
    ensures var n := NextDay(d); DaysFromCivil(n.year, n.month, n.day) == DaysFromCivil(d.year, d.month, d.day) + 1
  {
    var n := NextDay(d);
    DaysAreYearStart(d);
    DaysAreYearStart(n);
    NextDayOfYear(d);
    if MarchYear(n) != MarchYear(d) {
      NextYearStart(MarchYear(d));
    }
  }

  lemma NextDayOfYear(d: Date)
    requires ValidDate(d)
    ensures var n, y := NextDay(d), MarchYear(d);
            || (MarchYear(n) == y && DayOfYear(n) == DayOfYear(d) + 1)
            || (MarchYear(n) == y + 1 && DayOfYear(n) == 0 && DayOfYear(d) + 1 == YearLength(y))
  {
  }

  // ── The year and month formulas of the inverse ─────────────────────────────

  /** The days of an era in centuries, four-year cycles, years and days. */
  function DayOfEra(c: int, q: int, r: int, doy: int): int {
    36_524 * c + 1_461 * q + 365 * r + doy
  }

  predicate EraParts(c: int, q: int, r: int, doy: int) {
    && 0 <= c < 4 && 0 <= q < 25 && 0 <= r < 4
    && 0 <= doy < if r == 3 && (q < 24 || c == 3) then 366 else 365
  }

  lemma YearOfEraOfParts(c: int, q: int, r: int, doy: int)
    requires EraParts(c, q, r, doy)
    ensures 0 <= DayOfEra(c, q, r, doy) < 146_097
    ensures YearOfEra(DayOfEra(c, q, r, doy)) == 100 * c + 4 * q + r
  {
    var doe := DayOfEra(c, q, r, doy);
    assert doe / 36_524 - doe / 146_096 == c;
    var t := 24 * c + q + 365 * r + doy;
    var e := if t >= 1_460 then 1 else 0;
    assert doe == 1_460 * (25 * c + q) + t;
    assert doe / 1_460 == 25 * c + q + e;
    var n := doe - doe / 1_460 + doe / 36_524 - doe / 146_096;
    assert n == 365 * (100 * c + 4 * q + r) + (doy - e);
    assert 0 <= doy - e < 365;
  }

  lemma PartsOfYear(yoe: int, doy: int) returns (c: int, q: int, r: int)
    requires 0 <= yoe < 400 && 0 <= doy < YearLength(yoe)
    ensures EraParts(c, q, r, doy) && yoe == 100 * c + 4 * q + r
    ensures DayOfEra(c, q, r, doy) == 365 * yoe + yoe / 4 - yoe / 100 + doy
  {
    c, q, r := yoe / 100, yoe % 100 / 4, yoe % 4;
    assert yoe / 4 == 25 * c + q;
  }

  lemma PartsOfDay(doe: int) returns (c: int, q: int, r: int, doy: int)
    requires 0 <= doe < 146_097
    ensures EraParts(c, q, r, doy) && DayOfEra(c, q, r, doy) == doe
  {
    c := if doe == 146_096 then 3 else doe / 36_524;
    var inCentury := doe - 36_524 * c;
    q := inCentury / 1_461;
    var inCycle := inCentury - 1_461 * q;
    r := if inCycle == 1_460 then 3 else inCycle / 365;
    doy := inCycle - 365 * r;
  }

  lemma YearOfParts(c: int, q: int, r: int, doy: int)
    requires EraParts(c, q, r, doy)
    ensures var yoe := 100 * c + 4 * q + r;
            && 0 <= yoe < 400 && 0 <= doy < YearLength(yoe)
            && 365 * yoe + yoe / 4 - yoe / 100 + doy == DayOfEra(c, q, r, doy)
  {
    var yoe := 100 * c + 4 * q + r;
    assert yoe / 100 == c;
    assert yoe / 4 == 25 * c + q;
    assert (yoe + 1) % 4 == (r + 1) % 4;
  }

  lemma MonthFormula(d: Date)
    requires ValidDate(d)
    ensures DateOfYearAndDay(MarchYear(d), DayOfYear(d)) == d
  {
    var mp := (d.month + 9) % 12;
    assert (5 * DayOfYear(d) + 2) / 153 == mp;
  }

  lemma MonthFormulaInverse(y: int, doy: int)
    requires 0 <= doy < YearLength(y)
    ensures var d := DateOfYearAndDay(y, doy); ValidDate(d) && MarchYear(d) == y && DayOfYear(d) == doy
  {
    var mp := (5 * doy + 2) / 153;
    assert 0 <= mp < 12;
    assert IsLeap(y + 1) || doy < 365;
  }

  lemma CivilOfYearAndDay(days: int, y: int, doy: int)
    requires 0 <= doy < YearLength(y) && days == YearStart(y) + doy - 719_468
    ensures CivilFromDays(days) == DateOfYearAndDay(y, doy)
  {
    var era, doe := EraAndDayOfYear(y, doy);
    CivilOfEraAndDay(days, era, doe);
  }

  lemma EraAndDayOfYear(y: int, doy: int) returns (era: int, doe: int)
    requires 0 <= doy < YearLength(y)
    ensures YearStart(y) + doy == 146_097 * era + doe && 0 <= doe < 146_097
    ensures var yoe := YearOfEra(doe); 400 * era + yoe == y && doe - (365 * yoe + yoe / 4 - yoe / 100) == doy
  {
    var yoe := y % 400;
    era := y / 400;
    EraRepeats(era, yoe);
    LeapRepeats(era, yoe + 1);
    var c, q, r := PartsOfYear(yoe, doy);
    YearOfEraOfParts(c, q, r, doy);
    doe := DayOfEra(c, q, r, doy);
  }

  lemma CivilOfEraAndDay(days: int, era: int, doe: int)
    requires 0 <= doe < 146_097 && days + 719_468 == 146_097 * era + doe
    ensures CivilFromDays(days) == DateOfEraAndDay(era, doe)
  {
    var z := days + 719_468;
    EraOfDayFloors(z, era, doe);
    assert z - EraOfDay(z) * 146_097 == doe;
  }

  /** Every day lies in some March-based year. */
  lemma YearAndDayOf(z: int) returns (y: int, doy: int)
    ensures 0 <= doy < YearLength(y) && YearStart(y) + doy == z
  {
    var era, doe := z / 146_097, z % 146_097;
    var c, q, r;
    c, q, r, doy := PartsOfDay(doe);
    YearOfParts(c, q, r, doy);
    var yoe := 100 * c + 4 * q + r;
    y := 400 * era + yoe;
    EraRepeats(era, yoe);
    LeapRepeats(era, yoe + 1);
  }

  // ── The conversions are inverse ────────────────────────────────────────────

  lemma DateRoundTrip(d: Date)
    requires ValidDate(d)
    ensures CivilFromDays(DaysFromCivil(d.year, d.month, d.day)) == d
  {
    DaysAreYearStart(d);
    DayOfYearInRange(d);
    CivilOfYearAndDay(DaysFromCivil(d.year, d.month, d.day), MarchYear(d), DayOfYear(d));
    MonthFormula(d);
  }

  lemma DaysRoundTrip(days: int)
    ensures var d := CivilFromDays(days); ValidDate(d) && DaysFromCivil(d.year, d.month, d.day) == days
  {
    var y, doy := YearAndDayOf(days + 719_468);
    CivilOfYearAndDay(days, y, doy);
    MonthFormulaInverse(y, doy);
    DaysAreYearStart(DateOfYearAndDay(y, doy));
  }

  /** Read as a calendar, the inverse conversion moves to the next day, day by day. */
  lemma CivilFollowsCalendar(days: int)
    ensures CivilFromDays(days + 1) == NextDay(CivilFromDays(days))
  {
    DaysRoundTrip(days);
    StepRoundTrip(CivilFromDays(days), days);
  }

  /** The naive calendar, walked from 1 January 1970. */
  function DayAfterEpoch(n: nat): Date {
    if n == 0 then Date(1970, 1, 1) else NextDay(DayAfterEpoch(n - 1))
  }

  /** Day `n` is the one that `n` steps of the naive calendar lead to from 1 January 1970. */
  lemma CivilCountsFromEpoch(n: nat)
    ensures CivilFromDays(n) == DayAfterEpoch(n)
  {
    DayAfterEpochHasNumber(n, DayAfterEpoch(n));
    DateOfDayNumber(DayAfterEpoch(n), n);
  }

  lemma {:induction false} DayAfterEpochHasNumber(n: nat, d: Date)
    requires d == DayAfterEpoch(n)
    ensures ValidDate(d) && DaysFromCivil(d.year, d.month, d.day) == n
  {
    if n == 0 {
      EpochIsZero();
    } else {
      var before := DayAfterEpoch(n - 1);
      DayAfterEpochHasNumber(n - 1, before);
      NextDayCounts(before);
    }
  }

  lemma EpochIsZero()
    ensures DaysFromCivil(1970, 1, 1) == 0
  {
  }

  lemma StepRoundTrip(d: Date, days: int)
    requires ValidDate(d) && DaysFromCivil(d.year, d.month, d.day) == days
    ensures CivilFromDays(days + 1) == NextDay(d)
  {
    NextDayCounts(d);
    DateOfDayNumber(NextDay(d), days + 1);
  }

  lemma DateOfDayNumber(d: Date, days: int)
    requires ValidDate(d) && DaysFromCivil(d.year, d.month, d.day) == days
    ensures CivilFromDays(days) == d
  {
    DateRoundTrip(d);
  }

  /** Every second has a valid civil time, and that time's timestamp is the second it came from. */
  lemma UnixRoundTrip(secs: int)
    ensures ValidCivil(CivilFromUnix(secs)) && UnixTimestamp(CivilFromUnix(secs)) == secs
  {
    DaysRoundTrip(secs / 86_400);
    TimeOfDaySplit(secs % 86_400);
  }

  lemma TimeOfDaySplit(s: int)
    requires 0 <= s < 86_400
    ensures 0 <= s / 3_600 < 24 && 0 <= s % 3_600 / 60 < 60 && 0 <= s % 60 < 60
    ensures s == s / 3_600 * 3_600 + s % 3_600 / 60 * 60 + s % 60
  {
    var h, rest := s / 3_600, s % 3_600;
    DivModUnique(s, 60, 60 * h + rest / 60, rest % 60);
  }

  lemma TimeOfDayJoin(hour: int, minute: int, second: int)
    requires 0 <= hour < 24 && 0 <= minute < 60 && 0 <= second < 60
    ensures var s := hour * 3_600 + minute * 60 + second;
            0 <= s < 86_400 && s / 3_600 == hour && s % 3_600 / 60 == minute && s % 60 == second
  {
    var s := hour * 3_600 + minute * 60 + second;
    DivModUnique(s, 3_600, hour, minute * 60 + second);
    DivModUnique(minute * 60 + second, 60, minute, second);
    DivModUnique(s, 60, hour * 60 + minute, second);
  }

  /** What the RMC parser lets through: it bounds the day by 31 whatever the month, and the second by 60. */
  predicate PassesRmcGuard(c: Civil) {
    1 <= c.month <= 12 && 1 <= c.day <= 31 && 0 <= c.hour <= 23 && 0 <= c.minute <= 59 && 0 <= c.second <= 60
  }

  /**
   * Of everything the parser lets through to the clock, in any year: the conversion back returns the same civil
   * time exactly when the month has that day and the second is not the leap second.
   */
  lemma CivilRoundTrip(c: Civil)
    requires PassesRmcGuard(c)
    ensures CivilFromUnix(UnixTimestamp(c)) == c <==> c.day <= DaysInMonth(c.year, c.month) && c.second <= 59
  {
    if c.day <= DaysInMonth(c.year, c.month) && c.second <= 59 {
      ValidRoundTrip(c);
    } else {
      UnixRoundTrip(UnixTimestamp(c));
    }
  }

  lemma ValidRoundTrip(c: Civil)
    requires ValidCivil(c)
    ensures CivilFromUnix(UnixTimestamp(c)) == c
  {
    TimeOfDayJoin(c.hour, c.minute, c.second);
    var s := c.hour * 3_600 + c.minute * 60 + c.second;
    DivModUnique(UnixTimestamp(c), 86_400, DaysFromCivil(c.year, c.month, c.day), s);
    DateRoundTrip(Date(c.year, c.month, c.day));
  }

  /** A day that its month does not have comes back as a day of the next month. */
  lemma MissingDayRollsOver(c: Civil)
    requires PassesRmcGuard(c) && c.day > DaysInMonth(c.year, c.month) && c.second <= 59
    ensures CivilFromUnix(UnixTimestamp(c)) == c.(month := c.month + 1, day := c.day - DaysInMonth(c.year, c.month))
  {
    MissingDayCounts(c.year, c.month, c.day);
    ComesBackAs(c, c.(month := c.month + 1, day := c.day - DaysInMonth(c.year, c.month)));
  }

  lemma MissingDayCounts(year: int, month: int, day: int)
    requires 1 <= month <= 12 && DaysInMonth(year, month) < day <= 31
    ensures DaysFromCivil(year, month, day) == DaysFromCivil(year, month + 1, day - DaysInMonth(year, month))
  {
    var days := DaysInMonth(year, month);
    NextDayCounts(Date(year, month, days));
    DaysAddUp(year, month, days, day);
    DaysAddUp(year, month + 1, 1, day - days);
  }

  lemma DaysAddUp(year: int, month: int, from: int, to: int)
    ensures DaysFromCivil(year, month, to) - DaysFromCivil(year, month, from) == to - from
  {
  }

  /** So the 31st of February 2025 comes back as the 3rd of March. */
  lemma ThirtyFirstOfFebruary(c: Civil)
    requires c == Civil(2025, 2, 31, 0, 0, 0)
    ensures PassesRmcGuard(c) && CivilFromUnix(UnixTimestamp(c)) == Civil(2025, 3, 3, 0, 0, 0) != c
  {
    MissingDayRollsOver(c);
  }

  /** The first second of the minute after `c`'s. */
  function NextMinute(c: Civil): Civil {
    if c.minute < 59 then Civil(c.year, c.month, c.day, c.hour, c.minute + 1, 0)
    else if c.hour < 23 then Civil(c.year, c.month, c.day, c.hour + 1, 0, 0)
    else
      var d := NextDay(Date(c.year, c.month, c.day));
      Civil(d.year, d.month, d.day, 0, 0, 0)
  }

  /** The leap second comes back as the first second of the next minute. */
  lemma LeapSecondRollsOver(c: Civil)
    requires c.second == 60 && ValidCivil(c.(second := 0))
    ensures CivilFromUnix(UnixTimestamp(c)) == NextMinute(c) && ValidCivil(NextMinute(c))
  {
    if c.minute == 59 && c.hour == 23 {
      NextDayCounts(Date(c.year, c.month, c.day));
    }
    ComesBackAs(c, NextMinute(c));
  }

  /** The existing day that the clock takes an accepted one for. */
  function OnExistingDay(c: Civil): Civil {
    var days := DaysInMonth(c.year, c.month);
    if c.day > days then c.(month := c.month + 1, day := c.day - days) else c
  }

  lemma SameOnExistingDay(c: Civil)
    requires PassesRmcGuard(c)
    ensures UnixTimestamp(OnExistingDay(c)) == UnixTimestamp(c) && ValidCivil(OnExistingDay(c).(second := 0))
  {
    if c.day > DaysInMonth(c.year, c.month) {
      MissingDayCounts(c.year, c.month, c.day);
    }
  }

  /** All that the parser lets through, missing days and leap seconds at once. */
  lemma ComesBackAsTaken(c: Civil)
    requires PassesRmcGuard(c)
    ensures CivilFromUnix(UnixTimestamp(c)) ==
            if c.second == 60 then NextMinute(OnExistingDay(c)) else OnExistingDay(c)
  {
    SameOnExistingDay(c);
    TakenOnExistingDay(c, OnExistingDay(c));
  }

  lemma TakenOnExistingDay(c: Civil, onDay: Civil)
    requires UnixTimestamp(onDay) == UnixTimestamp(c) && ValidCivil(onDay.(second := 0)) && 0 <= onDay.second <= 60
    ensures CivilFromUnix(UnixTimestamp(c)) == if onDay.second == 60 then NextMinute(onDay) else onDay
  {
    if onDay.second == 60 {
      LeapSecondRollsOver(onDay);
    } else {
      ValidRoundTrip(onDay);
    }
  }

  lemma ComesBackAs(c: Civil, other: Civil)
    requires ValidCivil(other) && UnixTimestamp(c) == UnixTimestamp(other)
    ensures CivilFromUnix(UnixTimestamp(c)) == other
  {
    ValidRoundTrip(other);
  }

  // ── Order ──────────────────────────────────────────────────────────────────

  predicate Earlier(a: Civil, b: Civil) {
    a.year < b.year || (a.year == b.year &&
    (a.month < b.month || (a.month == b.month &&
    (a.day < b.day || (a.day == b.day &&
    (a.hour < b.hour || (a.hour == b.hour &&
    (a.minute < b.minute || (a.minute == b.minute && a.second < b.second)))))))))
  }

  lemma {:induction false} YearStartsIncrease(y: int, z: int)
    requires y < z
    ensures YearStart(y) + YearLength(y) <= YearStart(z)
    decreases z - y
  {
    NextYearStart(y);
    if y + 1 < z {
      YearStartsIncrease(y + 1, z);
    }
  }

  lemma DaysIncrease(a: Date, b: Date)
    requires ValidDate(a) && ValidDate(b)
    requires a.year < b.year || (a.year == b.year && (a.month < b.month || (a.month == b.month && a.day < b.day)))
    ensures DaysFromCivil(a.year, a.month, a.day) < DaysFromCivil(b.year, b.month, b.day)
  {
    DaysAreYearStart(a);
    DaysAreYearStart(b);
    DayOfYearInRange(a);
    DayOfYearInRange(b);
    if MarchYear(a) < MarchYear(b) {
      YearStartsIncrease(MarchYear(a), MarchYear(b));
    } else {
      DayOfYearOrdered(a, b);
    }
  }

  lemma DayOfYearOrdered(a: Date, b: Date)
    requires ValidDate(a) && ValidDate(b) && MarchYear(a) >= MarchYear(b)
    requires a.year < b.year || (a.year == b.year && (a.month < b.month || (a.month == b.month && a.day < b.day)))
    ensures MarchYear(a) == MarchYear(b) && DayOfYear(a) < DayOfYear(b)
  {
    var i, j := (a.month + 9) % 12, (b.month + 9) % 12;
    assert i == if a.month <= 2 then a.month + 9 else a.month - 3;
    assert j == if b.month <= 2 then b.month + 9 else b.month - 3;
    assert i < j || (i == j && a.day < b.day);
  }

  /** Timestamps order valid civil times exactly as the calendar does. */
  lemma TimestampsOrdered(a: Civil, b: Civil)
    requires ValidCivil(a) && ValidCivil(b)
    ensures UnixTimestamp(a) < UnixTimestamp(b) <==> Earlier(a, b)
  {
    ValidRoundTrip(a);
    ValidRoundTrip(b);
    if Earlier(a, b) {
      EarlierIsLess(a, b);
    } else if a != b {
      EarlierIsLess(b, a);
    }
  }

  lemma EarlierIsLess(a: Civil, b: Civil)
    requires ValidCivil(a) && ValidCivil(b) && Earlier(a, b)
    ensures UnixTimestamp(a) < UnixTimestamp(b)
  {
    var da, db := Date(a.year, a.month, a.day), Date(b.year, b.month, b.day);
    if da != db {
      DaysIncrease(da, db);
    }
  }
}
