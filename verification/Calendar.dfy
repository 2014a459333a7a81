/** Calendar arithmetic (kernel/time.c): timestamps to dates, and the day of the week. */
module Calendar {
  import opened Arithmetic
  import opened CIntegers


  predicate InInt64(n: int) { -0x8000_0000_0000_0000 <= n <= 0x7FFF_FFFF_FFFF_FFFF }

  datatype DateTime = DateTime(year: int, month: int, day: int, hour: int, minute: int, second: int, zone: int)

  // ---- The Gregorian calendar

  predicate Leap(year: int) {
    (year % 4 == 0 && year % 100 != 0) || year % 400 == 0
  }

  function YearLength(year: int): int {
    if Leap(year) then 366 else 365
  }

  function MonthLength(year: int, month: int): int
    requires 1 <= month <= 12
  {
    if month == 2 then (if Leap(year) then 29 else 28)
    else if month == 4 || month == 6 || month == 9 || month == 11 then 30
    else 31
  }

  /** Days from the epoch to 1 January. */
  function YearStart(year: int): int
    requires year >= 1970
    decreases year
  {
    if year == 1970 then 0 else YearStart(year - 1) + YearLength(year - 1)
  }

  /** Days from 1 January to the first of the month. */
  function MonthStart(year: int, month: int): int
    requires 1 <= month <= 13
    decreases month
  {
    if month == 1 then 0 else MonthStart(year, month - 1) + MonthLength(year, month - 1)
  }

  predicate ValidDate(dt: DateTime) {
    1 <= dt.month <= 12 && 1 <= dt.day <= MonthLength(dt.year, dt.month)
  }

  predicate ValidTime(dt: DateTime) {
    0 <= dt.hour < 24 && 0 <= dt.minute < 60 && 0 <= dt.second < 60
  }

  predicate Valid(dt: DateTime) {
    dt.year >= 1970 && ValidDate(dt) && ValidTime(dt)
  }

  /** Seconds from the epoch to a date. */
  function Encode(dt: DateTime): int
    requires Valid(dt)
  {
    86400 * (YearStart(dt.year) + MonthStart(dt.year, dt.month) + dt.day - 1)
    + 3600 * dt.hour + 60 * dt.minute + dt.second
  }

  // ---- Facts about the calendar

  lemma {:induction false} MonthsMakeYear(year: int)
    ensures MonthStart(year, 13) == YearLength(year)
    ensures forall month | 1 <= month <= 12 ::
              MonthStart(year, month) == [0, 31, 59, 90, 120, 151, 181, 212, 243, 273, 304, 334][month - 1] +
                                         (if month > 2 && Leap(year) then 1 else 0)
  {
    assert MonthStart(year, 1) == 0 && MonthStart(year, 2) == 31;
    assert MonthStart(year, 3) == 59 + MonthLength(year, 2) - 28;
    assert MonthStart(year, 4) == MonthStart(year, 3) + 31;
    assert MonthStart(year, 5) == MonthStart(year, 3) + 61;
    assert MonthStart(year, 6) == MonthStart(year, 3) + 92;
    assert MonthStart(year, 7) == MonthStart(year, 3) + 122;
    assert MonthStart(year, 8) == MonthStart(year, 3) + 153;
    assert MonthStart(year, 9) == MonthStart(year, 3) + 184;
    assert MonthStart(year, 10) == MonthStart(year, 3) + 214;
    assert MonthStart(year, 11) == MonthStart(year, 3) + 245;
    assert MonthStart(year, 12) == MonthStart(year, 3) + 275;
  }

  lemma {:induction false} YearsGrow(a: int, b: int)
    requires 1970 <= a <= b
    ensures YearStart(b) >= YearStart(a) + 365 * (b - a)
    decreases b
  {
    if a < b { YearsGrow(a, b - 1); }
  }

  /** Leap years up to and including `year`. */
  function Leaps(year: int): int {
    year / 4 - year / 100 + year / 400
  }

  lemma LeapsStep(year: int)
    ensures Leaps(year) == Leaps(year - 1) + if Leap(year) then 1 else 0
  {
    QuotientStep(year, 4);
    QuotientStep(year, 100);
    QuotientStep(year, 400);
    if year % 100 == 0 { MultipleOfMultiple(year, 4, 25); }
    if year % 400 == 0 { MultipleOfMultiple(year, 100, 4); }
  }

  lemma QuotientStep(n: int, d: int)
    requires d > 1
    ensures n / d == (n - 1) / d + if n % d == 0 then 1 else 0
  {
    var q, r := (n - 1) / d, (n - 1) % d;
    assert n == d * q + r + 1;
    if r + 1 == d { assert n == d * (q + 1); DivModUnique(n, d, q + 1, 0); } else { DivModUnique(n, d, q, r + 1); }
  }

  lemma MultipleOfMultiple(n: int, d: int, k: int)
    requires d > 0 && k > 0 && d * k > 0 && n % (d * k) == 0
    ensures n % d == 0
  {
    var q := n / (d * k);
    assert n == d * k * q == d * (k * q);
    DivModUnique(n, d, k * q, 0);
  }

  /** Counting year by year agrees with the closed form. */
  lemma {:induction false} YearStartIs(year: int)
    requires year >= 1970
    ensures YearStart(year) == 365 * (year - 1970) + Leaps(year - 1) - Leaps(1969)
    decreases year
  {
    if year > 1970 {
      YearStartIs(year - 1);
      LeapsStep(year - 1);
    }
  }

  /** A date of each timestamp is unique. */
  lemma EncodeIsInjective(a: DateTime, b: DateTime)
    requires Valid(a) && Valid(b) && Encode(a) == Encode(b)
    ensures a.(zone := b.zone) == b
  {
    EncodeParts(a);
    EncodeParts(b);
    if a.year < b.year { YearsAreApart(a, b); }
    if b.year < a.year { YearsAreApart(b, a); }
    MonthsApart(a.year, a.month, b.month);
    MonthsApart(a.year, b.month, a.month);
  }

  /** The days and the time of day can be read off. */
  lemma EncodeParts(dt: DateTime)
    requires Valid(dt)
    ensures Encode(dt) / 86400 == YearStart(dt.year) + MonthStart(dt.year, dt.month) + dt.day - 1
    ensures Encode(dt) % 86400 == 3600 * dt.hour + 60 * dt.minute + dt.second
    ensures var s := Encode(dt) % 86400; s / 3600 == dt.hour && s % 3600 / 60 == dt.minute && s % 60 == dt.second
    ensures 0 <= MonthStart(dt.year, dt.month) + dt.day - 1 < YearLength(dt.year)
  {
    var days := YearStart(dt.year) + MonthStart(dt.year, dt.month) + dt.day - 1;
    var s := 3600 * dt.hour + 60 * dt.minute + dt.second;
    DivModUnique(Encode(dt), 86400, days, s);
    DivModUnique(s, 3600, dt.hour, 60 * dt.minute + dt.second);
    DivModUnique(60 * dt.minute + dt.second, 60, dt.minute, dt.second);
    DivModUnique(s, 60, 60 * dt.hour + dt.minute, dt.second);
    MonthsMakeYear(dt.year);
    MonthsApart(dt.year, dt.month, 13);
    MonthsApart(dt.year, 1, dt.month);
  }

  lemma YearsAreApart(a: DateTime, b: DateTime)
    requires Valid(a) && Valid(b) && a.year < b.year
    ensures YearStart(a.year) + MonthStart(a.year, a.month) + a.day <= YearStart(b.year)
  {
    EncodeParts(a);
    YearsGrow(a.year + 1, b.year);
  }

  lemma {:induction false} MonthsApart(year: int, a: int, b: int)
    requires 1 <= a <= 13 && 1 <= b <= 13
    ensures a < b ==> MonthStart(year, a) + MonthLength(year, a) <= MonthStart(year, b)
    ensures a <= b ==> MonthStart(year, a) <= MonthStart(year, b)
    decreases b
  {
    if a < b { MonthsApart(year, a, b - 1); }
  }

  // ---- Timestamps to dates

  /** First timestamp of the year 2^31, which no 32-bit `int` holds. */
  const LIMIT: int := 67767976233532800

  lemma LimitIsYearStart()
    ensures LIMIT == 86400 * YearStart(INT_MAX + 1)
  {
    YearStartIs(INT_MAX + 1);
  }

  /** `unix_to_datetime`: the date is valid and encodes to the zone-adjusted timestamp exactly if that is not negative
  and its year fits the field. */
  method UnixToDatetime(timestamp: int, zone: int) returns (dt: DateTime)
    requires InInt64(timestamp) && InInt32(60 * zone) && InInt64(timestamp + 60 * zone)
    ensures Valid(dt) && Encode(dt) == timestamp + 60 * zone <==> 0 <= timestamp + 60 * zone < LIMIT
    ensures dt.zone == zone
  {
    var adjusted := timestamp + zone * 60;
    var days := CDiv(adjusted, 86400);
    var seconds := CMod(adjusted, 86400);
    var hour := CDiv(seconds, 3600);
    var minute := CDiv(CMod(seconds, 3600), 60);
    var second := CMod(seconds, 60);
    var year, rest := FindYear(days);
    var month, left := FindMonth(year, rest);
    dt := DateTime(Wrap32(year), month + 1, left + 1, hour, minute, second, zone);
    ClockParts(adjusted);
    DateIsRight(adjusted, days, year, month, left, dt);
  }

  /** The loop over years. */
  method FindYear(start: int) returns (year: int, days: int)
    ensures year >= 1970 && days < YearLength(year)
    ensures start >= 0 ==> days >= 0 && YearStart(year) + days == start
    ensures start < 365 ==> year == 1970 && days == start
  {
    year, days := 1970, start;
    while true
      invariant year >= 1970
      invariant start >= 0 ==> days >= 0 && YearStart(year) + days == start
      invariant start < 365 ==> year == 1970 && days == start
      decreases days
    {
      var daysInYear := 365;
      if (year % 4 == 0 && year % 100 != 0) || year % 400 == 0 {
        daysInYear := 366;
      }
      if days < daysInYear { break; }
      days := days - daysInYear;
      year := year + 1;
    }
  }

  /** The loop over months; `month` counts from 0. */
  method FindMonth(year: int, start: int) returns (month: nat, days: int)
    requires start < YearLength(year)
    ensures month < 12 && days < MonthLength(year, month + 1)
    ensures start >= 0 ==> days >= 0 && MonthStart(year, month + 1) + days == start
    ensures start < 31 ==> month == 0 && days == start
  {
    var daysInMonth := [31, 28, 31, 30, 31, 30, 31, 31, 30, 31, 30, 31];
    if (year % 4 == 0 && year % 100 != 0) || year % 400 == 0 {
      daysInMonth := daysInMonth[1 := 29];
    }
    month, days := 0, start;
    MonthsMakeYear(year);
    while days >= daysInMonth[month]
      invariant month < 12 && MonthStart(year, month + 1) + days == start
      invariant start >= 0 ==> days >= 0
      invariant start < 31 ==> month == 0 && days == start
      decreases days
    {
      days := days - daysInMonth[month];
      month := month + 1;
    }
  }

  /** Taking a timestamp apart with C's operators gives a day and a time of day, or a negative part. */
  lemma ClockParts(adjusted: int)
    ensures var days, s := CDiv(adjusted, 86400), CMod(adjusted, 86400);
            var hour, minute, second := CDiv(s, 3600), CDiv(CMod(s, 3600), 60), CMod(s, 60);
            if adjusted >= 0
            then && 0 <= hour < 24 && 0 <= minute < 60 && 0 <= second < 60 && days >= 0
                 && adjusted == 86400 * days + 3600 * hour + 60 * minute + second
            else days < 0 || (days == 0 && (hour < 0 || minute < 0 || second < 0))
  {
    var s := CMod(adjusted, 86400);
    if adjusted >= 0 {
      assert adjusted == 86400 * (adjusted / 86400) + adjusted % 86400;
      TimeOfDay(s);
    } else if adjusted > -86400 {
      assert CDiv(adjusted, 86400) == 0 && s == adjusted;
      NegativeTime(-s);
    } else {
      assert -adjusted / 86400 >= 1;
    }
  }

  lemma TimeOfDay(s: int)
    requires 0 <= s < 86400
    ensures 0 <= CDiv(s, 3600) < 24 && 0 <= CDiv(CMod(s, 3600), 60) < 60 && 0 <= CMod(s, 60) < 60
    ensures s == 3600 * CDiv(s, 3600) + 60 * CDiv(CMod(s, 3600), 60) + CMod(s, 60)
  {
  }

  lemma NegativeTime(t: int)
    requires 0 < t < 86400
    ensures CDiv(-t, 3600) < 0 || CDiv(CMod(-t, 3600), 60) < 0 || CMod(-t, 60) < 0
  {
  }

  lemma DateIsRight(adjusted: int, days: int, year: int, month: nat, left: int, dt: DateTime)
    requires year >= 1970 && month < 12 && left < MonthLength(year, month + 1)
    requires dt.year == Wrap32(year) && dt.month == month + 1 && dt.day == left + 1
    requires if adjusted >= 0
             then && ValidTime(dt) && left >= 0 && YearStart(year) + MonthStart(year, month + 1) + left == days
                  && adjusted == 86400 * days + 3600 * dt.hour + 60 * dt.minute + dt.second
             else left < 0 || dt.hour < 0 || dt.minute < 0 || dt.second < 0
    ensures Valid(dt) && Encode(dt) == adjusted <==> 0 <= adjusted < LIMIT
  {
    if adjusted >= 0 {
      var exact := dt.(year := year);
      assert Valid(exact) && Encode(exact) == adjusted;
      YearInLimit(exact);
      if year <= INT_MAX {
        assert dt == exact;
      } else if Valid(dt) && Encode(dt) == adjusted {
        EncodeIsInjective(dt, exact);
      }
    }
  }

  lemma YearInLimit(dt: DateTime)
    requires Valid(dt)
    ensures dt.year <= INT_MAX <==> Encode(dt) < LIMIT
  {
    EncodeParts(dt);
    LimitIsYearStart();
    if dt.year <= INT_MAX { YearsGrow(dt.year + 1, INT_MAX + 1); } else { YearsGrow(INT_MAX + 1, dt.year); }
  }

  // ---- Day of the week

  /** Days from the epoch to a date, for every year. */
  function DaysSinceEpoch(dt: DateTime): int
    requires ValidDate(dt)
  {
    365 * (dt.year - 1970) + Leaps(dt.year - 1) - Leaps(1969) + MonthStart(dt.year, dt.month) + dt.day - 1
  }

  /** It is the count that timestamps decompose into. */
  lemma DaysAreEncoded(dt: DateTime)
    requires Valid(dt)
    ensures Encode(dt) / 86400 == DaysSinceEpoch(dt)
  {
    EncodeParts(dt);
    YearStartIs(dt.year);
  }

  /** In Zeller's congruence January and February are months 13 and 14 of the year before. */
  function ZellerYear(dt: DateTime): int { if dt.month < 3 then dt.year - 1 else dt.year }

  function ZellerMonth(dt: DateTime): int { if dt.month < 3 then dt.month + 12 else dt.month }

  /** The sum in the congruence, before its remainder is taken; divisions round down. */
  function ZellerSum(dt: DateTime): int {
    var y := ZellerYear(dt);
    dt.day + 13 * (ZellerMonth(dt) + 1) / 5 + y + y / 4 - y / 100 + y / 400
  }

  /** The sum as the code forms it, with divisions that round toward zero. */
  function CodeSum(d: int, m: int, y: int): int {
    d + CDiv(13 * (m + 1), 5) + y + CDiv(y, 4) - CDiv(y, 100) + CDiv(y, 400)
  }

  /** Dates for which the code gives the right day: from March of the year 0 on until the sum leaves `int`, and before
  that only in leap years, as long as the sum stays in `int`. */
  predicate WeekdayIsRight(dt: DateTime) {
    var y := ZellerYear(dt);
    if y >= 0 then ZellerSum(dt) <= INT_MAX else Leap(y) && INT_MIN <= ZellerSum(dt)
  }

  /** `get_day_of_week`, on every date with a year that fits `int`. (Arithmetic that leaves `int`, which is undefined in
  C, wraps in the model.) */
  method GetDayOfWeek(dt: DateTime) returns (weekday: int)
    requires ValidDate(dt) && InInt32(dt.year)
    ensures weekday == (DaysSinceEpoch(dt) + 4) % 7 <==> WeekdayIsRight(dt)
    ensures 0 <= weekday < 7
  {
    var y, m, d := dt.year, dt.month, dt.day;
    if m < 3 {
      m := m + 12;
      y := Wrap32(y - 1);
    }
    var first, leaps, centuries, cycles := d + CDiv(13 * (m + 1), 5) + y, CDiv(y, 4), CDiv(y, 100), CDiv(y, 400);
    var sum := Wrap32(Wrap32(Wrap32(Wrap32(first) + leaps) - centuries) + cycles);
    WrapOfSum(first, leaps, centuries, cycles, CodeSum(d, m, y));
    var h := CMod(sum, 7);
    weekday := CMod(h + 6, 7);
    WeekdayOf(sum);
    ZellerAgrees(dt);
    WeekdayIs(dt, y, sum);
  }

  /** The two remainders of the code amount to one of a mathematical kind, also for a negative sum. */
  lemma WeekdayOf(sum: int)
    ensures CMod(CMod(sum, 7) + 6, 7) == (sum + 6) % 7
  {
    var q, r := sum / 7, sum % 7;
    if sum >= 0 || r == 0 {
      Remainders(sum, q, r);
    } else {
      NegativeRemainder(sum);
      Remainders(sum, q + 1, r - 7);
    }
  }

  lemma NegativeRemainder(sum: int)
    requires sum < 0 && sum % 7 != 0
    ensures CMod(sum, 7) == sum % 7 - 7
  {
    DivModUnique(-sum, 7, -(sum / 7) - 1, 7 - sum % 7);
  }

  lemma Remainders(n: int, q: int, r: int)
    requires n == 7 * q + r && -7 < r < 7
    ensures (n + 6) % 7 == (if r >= 1 then r - 1 else r + 6)
  {
    DivModUnique(n + 6, 7, if r >= 1 then q + 1 else q, if r >= 1 then r - 1 else r + 6);
  }

  /** The sum, wrapped to `int`, has the right remainder exactly under that condition. */
  lemma WeekdayIs(dt: DateTime, y: int, sum: int)
    requires ValidDate(dt) && InInt32(dt.year) && y == Wrap32(ZellerYear(dt))
    requires sum == Wrap32(CodeSum(dt.day, ZellerMonth(dt), y))
    ensures (sum + 6) % 7 == (ZellerSum(dt) + 6) % 7 <==> WeekdayIsRight(dt)
  {
    var zeller := ZellerSum(dt);
    if ZellerYear(dt) < INT_MIN {
      BeforeLeastYear(dt);
      assert 1041529570 == 7 * 148789938 + 4;
      Shifted(zeller, 148789938, 4);
    } else {
      CodeSumIs(dt);
      SumBound(dt);
      WrappedShift(zeller, if y >= 0 || Leap(y) then 0 else 1);
    }
  }

  /** A shift by at most one, and then the wrap to `int`, keep the remainder exactly if there is neither. */
  lemma WrappedShift(n: int, e: int)
    requires 0 <= e <= 1 && -0x1_0000_0000 < n < 0xFFFF_FFFF
    ensures (Wrap32(n + e) + 6) % 7 == (n + 6) % 7 <==> e == 0 && InInt32(n)
  {
    if InInt32(n + e) {
      Shifted(n, 0, e);
    } else if n + e > INT_MAX {
      WrapsDown(n + e);
      Shifted(n, -613566757, e + 3);
    } else {
      WrapsUp(n + e);
      Shifted(n, 613566756, e + 4);
    }
  }

  /** A shift changes the remainder by 7 exactly if it is no whole number of weeks. */
  lemma Shifted(n: int, weeks: int, days: int)
    requires 0 <= days < 7
    ensures (n + 7 * weeks + days + 6) % 7 == (n + 6) % 7 <==> days == 0
  {
    var q, r := (n + 6) / 7, (n + 6) % 7;
    if r + days < 7 {
      DivModUnique(n + 7 * weeks + days + 6, 7, q + weeks, r + days);
    } else {
      DivModUnique(n + 7 * weeks + days + 6, 7, q + weeks + 1, r + days - 7);
    }
  }

  lemma WrapsDown(s: int)
    requires INT_MAX < s < 0x1_0000_0000
    ensures Wrap32(s) == s + 7 * -613566757 + 3
  {
  }

  lemma WrapsUp(s: int)
    requires -0x1_0000_0000 < s < INT_MIN
    ensures Wrap32(s) == s + 7 * 613566756 + 4
  {
  }

  /** January and February of the least year: subtracting 1 wraps to the greatest. */
  lemma BeforeLeastYear(dt: DateTime)
    requires ValidDate(dt) && ZellerYear(dt) == INT_MIN - 1
    ensures Wrap32(INT_MIN - 1) == INT_MAX && !Leap(INT_MIN - 1)
    ensures Wrap32(CodeSum(dt.day, ZellerMonth(dt), INT_MAX)) == ZellerSum(dt) + 1041529570
  {
    var rest := dt.day + 13 * (ZellerMonth(dt) + 1) / 5;
    assert CodeSum(dt.day, ZellerMonth(dt), INT_MAX) == rest + 2668248431;
    assert ZellerSum(dt) == rest - 2668248435;
  }

  /** Rounding toward zero changes the sum by 1 in the negative years that are no leap years. */
  lemma CodeSumIs(dt: DateTime)
    requires ValidDate(dt)
    ensures var y := ZellerYear(dt);
            CodeSum(dt.day, ZellerMonth(dt), y) == ZellerSum(dt) + if y >= 0 || Leap(y) then 0 else 1
  {
    var y := ZellerYear(dt);
    assert CDiv(13 * (ZellerMonth(dt) + 1), 5) == 13 * (ZellerMonth(dt) + 1) / 5;
    if y < 0 {
      TruncatedQuotient(y, 4);
      TruncatedQuotient(y, 100);
      TruncatedQuotient(y, 400);
      if y % 100 == 0 { MultipleOfMultiple(y, 4, 25); }
      if y % 400 == 0 { MultipleOfMultiple(y, 100, 4); }
    }
  }

  lemma TruncatedQuotient(n: int, d: nat)
    requires n < 0 < d
    ensures CDiv(n, d) == n / d + if n % d == 0 then 0 else 1
  {
    var q, r := n / d, n % d;
    if r == 0 { DivModUnique(-n, d, -q, 0); } else { DivModUnique(-n, d, -q - 1, d - r); }
  }

  lemma SumBound(dt: DateTime)
    requires ValidDate(dt) && InInt32(dt.year)
    ensures -0x1_0000_0000 < ZellerSum(dt) < 0xFFFF_FFFF
    ensures ZellerYear(dt) >= 0 ==> ZellerSum(dt) >= 0
    ensures ZellerYear(dt) < 0 ==> ZellerSum(dt) < INT_MAX
  {
  }

  lemma WrapOfSum(a: int, b: int, c: int, d: int, sum: int)
    requires sum == a + b - c + d
    ensures Wrap32(Wrap32(Wrap32(Wrap32(a) + b) - c) + d) == Wrap32(sum)
  {
    WrapAdd(a, b);
    WrapAdd(a + b, -c);
    WrapAdd(a + b - c, d);
  }

  lemma WrapAdd(a: int, b: int)
    ensures Wrap32(Wrap32(a) + b) == Wrap32(a + b)
  {
  }

  /** Zeller's congruence, over the integers. */
  lemma ZellerAgrees(dt: DateTime)
    requires ValidDate(dt)
    ensures (ZellerSum(dt) + 6) % 7 == (DaysSinceEpoch(dt) + 4) % 7
  {
    ZellerDifference(dt);
    ShiftOfMonth(dt.month);
    WholeWeeks(ZellerSum(dt) + 6, DaysSinceEpoch(dt) + 4, ShiftBeyondStart(dt.month), dt.year);
  }

  /** What Zeller's month term adds beyond the days of the months before. */
  function ShiftBeyondStart(month: int): int
    requires 1 <= month <= 12
  {
    var m := if month < 3 then month + 12 else month;
    var start := [0, 31, 59, 90, 120, 151, 181, 212, 243, 273, 304, 334][month - 1];
    13 * (m + 1) / 5 - start - if month < 3 then 1 else 0
  }

  lemma ZellerDifference(dt: DateTime)
    requires ValidDate(dt)
    ensures ZellerSum(dt) + 6 - (DaysSinceEpoch(dt) + 4) == ShiftBeyondStart(dt.month) - 364 * dt.year + 719530
  {
    MonthsMakeYear(dt.year);
    LeapsStep(dt.year);
    assert Leaps(1969) == 477;
  }

  lemma ShiftOfMonth(month: int)
    requires 1 <= month <= 12
    ensures ShiftBeyondStart(month) % 7 == 0
  {
  }

  lemma WholeWeeks(a: int, b: int, shift: int, year: int)
    requires shift % 7 == 0 && a - b == shift - 364 * year + 719530
    ensures a % 7 == b % 7
  {
    var k := shift / 7 - 52 * year + 102790;
    assert a == b + 7 * k;
    DivModUnique(a, 7, b / 7 + k, b % 7);
  }
}
