/**
 Days since 1970-01-01 to a Gregorian date: `civil_from_days` of crates/native/src/capture.rs,
 against the calendar's own rules.
 */
module Civil {
  import opened Bytes

  type i64 = x: int | -0x8000_0000_0000_0000 <= x < 0x8000_0000_0000_0000

  datatype Date = Date(year: int, month: int, day: int)

  // ---- The calendar

  predicate IsLeap(y: int) {
    y % 4 == 0 && (y % 100 != 0 || y % 400 == 0)
  }

  function DaysInMonth(y: int, m: int): int {
    if m == 2 then (if IsLeap(y) then 29 else 28)
    else if m == 4 || m == 6 || m == 9 || m == 11 then 30
    else 31
  }

  predicate ValidDate(d: Date) {
    1 <= d.month <= 12 && 1 <= d.day <= DaysInMonth(d.year, d.month)
  }

  /** The day after. */
  function Next(d: Date): Date {
    if d.day < DaysInMonth(d.year, d.month) then d.(day := d.day + 1)
    else if d.month < 12 then Date(d.year, d.month + 1, 1)
    else Date(d.year + 1, 1, 1)
  }

  /** Days before a year, counted from year 1, and days of the year before a month. */
  function DaysBeforeYear(y: int): int {
    365 * (y - 1) + (y - 1) / 4 - (y - 1) / 100 + (y - 1) / 400
  }

  function DaysBeforeMonth(y: int, m: int): int
    requires 1 <= m <= 12
    decreases m
  {
    if m == 1 then 0 else DaysBeforeMonth(y, m - 1) + DaysInMonth(y, m - 1)
  }

  /** Days from 1970-01-01 to a date, by counting. */
  function DayCount(d: Date): int
    requires 1 <= d.month <= 12
  {
    DaysBeforeYear(d.year) + DaysBeforeMonth(d.year, d.month) + d.day - 1 - 719162
  }

  // ---- The algorithm

  /** Division as the source's language does it, towards zero. */
  function TruncDiv(a: int, b: int): int
    requires b > 0
  {
    if a >= 0 then a / b else -((-a) / b)
  }

  /** Number of the 400-year era: the shift before the truncating division makes it a floor. */
  function Era(z: int): (e: int)
    ensures 0 <= z - e * 146097 < 146097
  {
    TruncDiv(if z >= 0 then z else z - 146096, 146097)
  }

  function YearOfEra(doe: nat): int {
    (doe - doe / 1460 + doe / 36524 - doe / 146096) / 365
  }

  function MonthDay(doy: int): (int, int)
    requires doy >= 0
  {
    var mp := (5 * doy + 2) / 153;
    (if mp < 10 then mp + 3 else mp - 9, doy - (153 * mp + 2) / 5 + 1)
  }

  /** The algorithm with a year that cannot overflow. */
  function Civil(days: int): Date {
    var z := days + 719468;
    var era := Era(z);
    DateOf(era, z - era * 146097)
  }

  function DateOf(era: int, doe: nat): Date
    requires doe < 146097
  {
    var yoe := YearOfEra(doe);
    YearIsRight(doe);
    MarchDate(yoe + era * 400, doe - (365 * yoe + yoe / 4 - yoe / 100))
  }

  /** Day `doy` of the year that starts on 1 March of year `y`. */
  function MarchDate(y: int, doy: nat): Date {
    var (m, d) := MonthDay(doy);
    Date(if m <= 2 then y + 1 else y, m, d)
  }

  /** `as i32` on the year. */
  function Wrap32(y: int): i32 {
    var u := y % U32_MOD;
    if u < 0x8000_0000 then u else u - U32_MOD
  }

  function CivilFromDays(days: i64): Date
    requires days + 719468 < 0x8000_0000_0000_0000
  {
    var c := Civil(days);
    c.(year := Wrap32(c.year))
  }

  // ---- Year and day of the year, years starting in March

  function YearStart(y: nat): int {
    365 * y + y / 4 - y / 100
  }

  /** Days of the March year `y` of an era: the leap day is its last. */
  function YearLength(y: nat): int {
    if (y + 1) % 4 == 0 && ((y + 1) % 100 != 0 || y == 399) then 366 else 365
  }

  /** An era cut into centuries, leap cycles, years and days. */
  lemma Decompose(doe: nat) returns (c: nat, k: nat, j: nat, doy: nat)
    requires doe < 146097
    ensures doe == 36524 * c + 1461 * k + 365 * j + doy
    ensures c <= 3 && k <= 24 && j <= 3 && doy <= 365
    ensures doy == 365 ==> j == 3 && (k != 24 || c == 3)
  {
    c := if doe / 36524 <= 3 then doe / 36524 else 3;
    var r := doe - 36524 * c;
    k := r / 1461;
    var s := r - 1461 * k;
    j := if s / 365 <= 3 then s / 365 else 3;
    doy := s - 365 * j;
  }

  lemma Div1460(q: nat, t: nat)
    ensures (1460 * q + t) / 1460 == q + t / 1460
  {
  }

  lemma Centuries36524(c: nat, r: nat)
    requires c <= 3 && (r < 36524 || (r == 36524 && c == 3))
    ensures (36524 * c + r) / 36524 - (36524 * c + r) / 146096 == c
  {
  }

  /** The correction inside the division keeps it within the year. */
  lemma ComposedYear(c: nat, k: nat, j: nat, doy: nat)
    requires c <= 3 && k <= 24 && j <= 3 && doy <= 365
    requires doy == 365 ==> j == 3 && (k != 24 || c == 3)
    ensures YearOfEra(36524 * c + 1461 * k + 365 * j + doy) == 100 * c + 4 * k + j
  {
    var doe, t, r := 36524 * c + 1461 * k + 365 * j + doy, 24 * c + k + 365 * j + doy, 1461 * k + 365 * j + doy;
    assert doe == 1460 * (25 * c + k) + t && doe == 36524 * c + r;
    Div1460(25 * c + k, t);
    Centuries36524(c, r);
    assert t / 1460 <= 1 && (t / 1460 == 1 ==> doy >= 1) && (doy == 365 ==> t / 1460 == 1);
    Div365(100 * c + 4 * k + j, doy - t / 1460);
  }

  lemma Div365(q: nat, t: nat)
    requires t < 365
    ensures (365 * q + t) / 365 == q
  {
  }

  lemma ComposedStart(c: nat, k: nat, j: nat)
    requires c <= 3 && k <= 24 && j <= 3
    ensures var y := 100 * c + 4 * k + j;
            && YearStart(y) == 36524 * c + 1461 * k + 365 * j
            && YearLength(y) == if j == 3 && (k != 24 || c == 3) then 366 else 365
  {
    var y := 100 * c + 4 * k + j;
    assert y / 100 == c && y / 4 == 25 * c + k;
    assert y + 1 == 4 * (25 * c + k) + (j + 1);
    assert y + 1 == 100 * c + (4 * k + j + 1);
  }

  lemma YearIsRight(doe: nat)
    requires doe < 146097
    ensures 0 <= YearOfEra(doe) <= 399
    ensures 0 <= doe - YearStart(YearOfEra(doe)) < YearLength(YearOfEra(doe))
  {
    var c, k, j, doy := Decompose(doe);
    ComposedYear(c, k, j, doy);
    ComposedStart(c, k, j);
    hide YearOfEra, YearStart, YearLength;
  }

  // ---- Months

  /** The day-of-year arithmetic, month by month. */
  lemma MonthTable(doy: nat)
    requires doy <= 365
    ensures MonthDay(doy) ==
      if doy < 31 then (3, doy + 1) else if doy < 61 then (4, doy - 30)
      else if doy < 92 then (5, doy - 60) else if doy < 122 then (6, doy - 91)
      else if doy < 153 then (7, doy - 121) else if doy < 184 then (8, doy - 152)
      else if doy < 214 then (9, doy - 183) else if doy < 245 then (10, doy - 213)
      else if doy < 275 then (11, doy - 244) else if doy < 306 then (12, doy - 274)
      else if doy < 337 then (1, doy - 305) else (2, doy - 336)
  {
  }

  lemma MarchDateNext(y: int, doy: nat)
    requires doy < (if IsLeap(y + 1) then 366 else 365)
    ensures ValidDate(MarchDate(y, doy))
    ensures Next(MarchDate(y, doy)) ==
      if doy + 1 < (if IsLeap(y + 1) then 366 else 365) then MarchDate(y, doy + 1) else MarchDate(y + 1, 0)
  {
    hide MonthDay, IsLeap;
    MonthTable(doy);
    MonthTable(if doy < 365 then doy + 1 else 0);
    MonthTable(0);
  }

  /** Leap years repeat every era, so the algorithm's year lengths are the calendar's. */
  lemma YearLengthIsLeap(yoe: nat, era: int)
    requires yoe <= 399
    ensures YearLength(yoe) == if IsLeap(yoe + era * 400 + 1) then 366 else 365
  {
    var n := yoe + 1;
    var y := n + 400 * era;
    assert yoe + era * 400 + 1 == y;
    Mod4(n, era);
    Mod100(n, era);
    Mod400(n, era);
  }

  lemma Mod4(n: int, e: int)
    ensures (n + 400 * e) % 4 == n % 4
  {
    assert n + 400 * e == 4 * (n / 4 + 100 * e) + n % 4;
    Rem4(n / 4 + 100 * e, n % 4);
  }

  lemma Rem4(q: int, r: int)
    requires 0 <= r < 4
    ensures (4 * q + r) % 4 == r
  {
  }

  lemma Mod100(n: int, e: int)
    ensures (n + 400 * e) % 100 == n % 100
  {
    assert n + 400 * e == 100 * (n / 100 + 4 * e) + n % 100;
    Rem100(n / 100 + 4 * e, n % 100);
  }

  lemma Rem100(q: int, r: int)
    requires 0 <= r < 100
    ensures (100 * q + r) % 100 == r
  {
  }

  lemma Mod400(n: int, e: int)
    ensures (n + 400 * e) % 400 == n % 400
  {
    assert n + 400 * e == 400 * (n / 400 + 1 * e) + n % 400;
    Rem400(n / 400 + 1 * e, n % 400);
  }

  lemma Rem400(q: int, r: int)
    requires 0 <= r < 400
    ensures (400 * q + r) % 400 == r
  {
  }

  /** The next day of an era: same year, next year, or next era. */
  lemma NextOfEra(doe: nat)
    requires doe < 146096
    ensures var y := YearOfEra(doe);
            var doy := doe - YearStart(y);
            if doy + 1 < YearLength(y) then YearOfEra(doe + 1) == y
            else YearOfEra(doe + 1) == y + 1 && doe + 1 == YearStart(y + 1)
  {
    YearIsRight(doe);
    YearIsRight(doe + 1);
    var y, y' := YearOfEra(doe), YearOfEra(doe + 1);
    hide YearOfEra;
    YearsAbut(y);
    YearsAbut(y');
    if y' > y {
      YearStartMonotone(y + 1, y');
    } else if y' < y {
      YearStartMonotone(y' + 1, y);
    }
  }

  lemma YearsAbut(y: nat)
    requires y <= 399
    ensures y < 399 ==> YearStart(y + 1) == YearStart(y) + YearLength(y)
    ensures y == 399 ==> YearStart(y) + YearLength(y) == 146097
  {
  }

  lemma YearStartMonotone(a: nat, b: nat)
    requires a <= b
    ensures YearStart(a) <= YearStart(b)
  {
  }

  // ---- Results

  lemma EraOf(z: int, e: int)
    requires 0 <= z - e * 146097 < 146097
    ensures Era(z) == e
  {
    var d := Era(z);
    assert d < e ==> (e - d) * 146097 >= 146097;
    assert e < d ==> (d - e) * 146097 >= 146097;
  }

  lemma CivilIs(days: int, era: int, doe: nat)
    requires doe < 146097 && days + 719468 == era * 146097 + doe
    ensures Civil(days) == DateOf(era, doe)
  {
    hide Era, DateOf;
    EraOf(days + 719468, era);
  }

  /** From any day to the next, the result goes from a date of the calendar to the date after it. */
  lemma CivilFollowsCalendar(days: int)
    ensures ValidDate(Civil(days))
    ensures Civil(days + 1) == Next(Civil(days))
  {
    hide Civil, Next, ValidDate;
    var era := Era(days + 719468);
    var doe := days + 719468 - era * 146097;
    CivilIs(days, era, doe);
    hide DateOf;
    if doe < 146096 {
      CivilIs(days + 1, era, doe + 1);
      DateOfNext(era, doe);
    } else {
      CivilIs(days + 1, era + 1, 0);
      DateOfLast(era);
    }
  }

  lemma DateOfNext(era: int, doe: nat)
    requires doe < 146096
    ensures ValidDate(DateOf(era, doe)) && DateOf(era, doe + 1) == Next(DateOf(era, doe))
  {
    hide YearOfEra, IsLeap, MarchDate, YearLength, Next, ValidDate;
    YearIsRight(doe);
    YearIsRight(doe + 1);
    var y := YearOfEra(doe);
    var doy := doe - YearStart(y);
    YearLengthIsLeap(y, era);
    MarchDateNext(y + era * 400, doy);
    NextOfEra(doe);
  }

  lemma DateOfLast(era: int)
    ensures ValidDate(DateOf(era, 146096)) && DateOf(era + 1, 0) == Next(DateOf(era, 146096))
  {
    hide YearOfEra, IsLeap, MarchDate, YearLength, Next, ValidDate;
    YearIsRight(146096);
    YearIsRight(0);
    LastOfEra();
    YearLengthIsLeap(399, era);
    MarchDateNext(399 + era * 400, 146096 - YearStart(399));
  }

  /** The last day of an era, and the first of the next. */
  lemma LastOfEra()
    ensures YearOfEra(146096) == 399 && 146096 - YearStart(399) + 1 == YearLength(399)
    ensures YearOfEra(0) == 0 && YearStart(0) == 0
  {
  }

  lemma CivilStarts()
    ensures Civil(0) == Date(1970, 1, 1)
  {
    EraOf(719468, 4);
    assert YearOfEra(135080) == 369 && 135080 - YearStart(369) == 306;
    MonthTable(306);
  }

  /** Counting agrees with the calendar's step. */
  lemma DayCountNext(d: Date)
    requires ValidDate(d)
    ensures DayCount(Next(d)) == DayCount(d) + 1
  {
    if d.day == DaysInMonth(d.year, d.month) && d.month == 12 {
      MonthsOfYear(d.year);
      YearsCount(d.year);
    }
  }

  lemma MonthsOfYear(y: int)
    ensures DaysBeforeMonth(y, 12) + 31 == if IsLeap(y) then 366 else 365
  {
    assert DaysBeforeMonth(y, 3) == 31 + DaysInMonth(y, 2);
    assert DaysBeforeMonth(y, 5) == DaysBeforeMonth(y, 3) + 61;
    assert DaysBeforeMonth(y, 7) == DaysBeforeMonth(y, 5) + 61;
    assert DaysBeforeMonth(y, 9) == DaysBeforeMonth(y, 7) + 62;
    assert DaysBeforeMonth(y, 11) == DaysBeforeMonth(y, 9) + 61;
  }

  lemma YearsCount(y: int)
    ensures DaysBeforeYear(y + 1) == DaysBeforeYear(y) + if IsLeap(y) then 366 else 365
  {
    assert y / 4 == (y - 1) / 4 + if y % 4 == 0 then 1 else 0;
    assert y / 100 == (y - 1) / 100 + if y % 100 == 0 then 1 else 0;
    assert y / 400 == (y - 1) / 400 + if y % 400 == 0 then 1 else 0;
    Centuries(y);
  }

  lemma Centuries(y: int)
    ensures y % 400 == 0 ==> y % 100 == 0
    ensures y % 100 == 0 ==> y % 4 == 0
  {
  }

  /** The algorithm inverts the count, for every day number, negative ones included. */
  lemma {:induction false} CountInvertsCivil(days: int)
    ensures DayCount(Civil(days)) == days
    decreases if days >= 0 then days else -days
  {
    CivilFollowsCalendar(days);
    CivilFollowsCalendar(days - 1);
    hide Civil, Next, DayCount;
    if days > 0 {
      CountInvertsCivil(days - 1);
      DayCountNext(Civil(days - 1));
    } else if days < 0 {
      CountInvertsCivil(days + 1);
      DayCountNext(Civil(days));
    } else {
      CivilStarts();
      EpochCounts();
    }
  }

  lemma EpochCounts()
    ensures DayCount(Date(1970, 1, 1)) == 0
  {
    assert DaysBeforeYear(1970) == 365 * 1969 + 492 - 19 + 4;
    assert DaysBeforeMonth(1970, 1) == 0;
    hide DaysBeforeYear, DaysBeforeMonth;
  }

  /** Two dates with the same count are the same date. */
  lemma DayCountInjective(a: Date, b: Date)
    requires ValidDate(a) && ValidDate(b) && DayCount(a) == DayCount(b)
    ensures a == b
  {
    hide DaysBeforeYear, IsLeap, DaysBeforeMonth, DaysInMonth;
    DayOfYear(a);
    DayOfYear(b);
    MonthStep(a.year, a.month);
    MonthStep(b.year, b.month);
    if a.year < b.year {
      YearsMonotone(a.year + 1, b.year);
      YearsCount(a.year);
    } else if b.year < a.year {
      YearsMonotone(b.year + 1, a.year);
      YearsCount(b.year);
    } else if a.month < b.month {
      MonthsMonotone(a.year, a.month + 1, b.month);
    } else if b.month < a.month {
      MonthsMonotone(a.year, b.month + 1, a.month);
    }
  }

  lemma MonthStep(y: int, m: int)
    requires 1 <= m <= 12
    ensures m < 12 ==> DaysBeforeMonth(y, m + 1) == DaysBeforeMonth(y, m) + DaysInMonth(y, m)
  {
  }

  lemma DayOfYear(d: Date)
    requires ValidDate(d)
    ensures 0 <= DaysBeforeMonth(d.year, d.month) + d.day - 1 < (if IsLeap(d.year) then 366 else 365)
  {
    MonthsMonotone(d.year, 1, d.month);
    if d.month < 12 {
      MonthsMonotone(d.year, d.month + 1, 12);
    }
    MonthsOfYear(d.year);
  }

  lemma {:induction false} MonthsMonotone(y: int, a: int, b: int)
    requires 1 <= a <= b <= 12
    ensures DaysBeforeMonth(y, a) <= DaysBeforeMonth(y, b)
    decreases b
  {
    if a < b {
      MonthsMonotone(y, a, b - 1);
    }
  }

  lemma YearsMonotone(a: int, b: int)
    requires a <= b
    ensures DaysBeforeYear(a) <= DaysBeforeYear(b)
  {
  }

  /** And the count inverts the algorithm: every date of the calendar is some day's date. */
  lemma CivilInvertsCount(d: Date)
    requires ValidDate(d)
    ensures Civil(DayCount(d)) == d
  {
    CountInvertsCivil(DayCount(d));
    CivilFollowsCalendar(DayCount(d));
    DayCountInjective(Civil(DayCount(d)), d);
  }

  /** What is returned is the date, exactly when its year fits the 32 bits it is cast to. */
  lemma CivilFromDaysExactly(days: i64)
    requires days + 719468 < 0x8000_0000_0000_0000
    ensures CivilFromDays(days) == Civil(days)
       <==> DayCount(Date(-0x8000_0000, 1, 1)) <= days <= DayCount(Date(0x7FFF_FFFF, 12, 31))
  {
    var c := Civil(days);
    CountInvertsCivil(days);
    CivilFollowsCalendar(days);
    hide Civil, IsLeap, DaysBeforeYear;
    DayOfYear(c);
    var lo, hi := Date(-0x8000_0000, 1, 1), Date(0x7FFF_FFFF, 12, 31);
    MonthsOfYear(hi.year);
    if c.year < lo.year {
      YearsMonotone(c.year + 1, lo.year);
      YearsCount(c.year);
    } else {
      YearsMonotone(lo.year, c.year);
    }
    if c.year > hi.year {
      YearsMonotone(hi.year + 1, c.year);
      YearsCount(hi.year);
    } else {
      YearsMonotone(c.year + 1, hi.year + 1);
      YearsCount(c.year);
      YearsCount(hi.year);
    }
    assert Wrap32(c.year) == c.year <==> lo.year <= c.year <= hi.year;
  }
}
