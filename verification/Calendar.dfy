/** Days since 1970-01-01 to dates (`civil_from_days` and `ymdhm_from_unix_secs`,
    crates/coreutils/src/ls.rs) against the rules of the Gregorian calendar. */
module Calendar {

  // ----- The calendar itself -----

  datatype Date = Date(y: int, m: int, d: int)

  predicate IsLeap(y: int) {
    y % 4 == 0 && (y % 100 != 0 || y % 400 == 0)
  }

  function MonthLength(y: int, m: int): nat
    requires 1 <= m <= 12
  {
    if m == 2 then if IsLeap(y) then 29 else 28
    else if m == 4 || m == 6 || m == 9 || m == 11 then 30
    else 31
  }

  predicate ValidDate(t: Date) {
    1 <= t.m <= 12 && 1 <= t.d <= MonthLength(t.y, t.m)
  }

  function NextDay(t: Date): Date
    requires ValidDate(t)
  {
    if t.d < MonthLength(t.y, t.m) then Date(t.y, t.m, t.d + 1)
    else if t.m < 12 then Date(t.y, t.m + 1, 1)
    else Date(t.y + 1, 1, 1)
  }

  // ----- The conversion -----

  /** Rust's `/` on `i64` truncates toward zero. */
  function TruncDiv(a: int, b: int): int
    requires b > 0
  {
    if a >= 0 then a / b else -((-a) / b)
  }

  /** The year of the era that holds day `doe` of it, by the closed formula of the source. */
  function YearIndex(doe: nat): int {
    (doe - doe / 1460 + doe / 36524 - doe / 146096) / 365
  }

  /** The date of day `doy` of the year that starts in March of year `y`. */
  function DateInYear(y: int, doy: nat): Date
    requires doy <= 365
  {
    var mp: nat := (5 * doy + 2) / 153;
    var d: nat := doy - (153 * mp + 2) / 5 + 1;
    var m: nat := if mp < 10 then mp + 3 else mp - 9;
    Date(if m <= 2 then y + 1 else y, m, d)
  }

  /** The date of day `doe` of an era. Every value that has an unsigned type in the source is a
      `nat` here, and stays in the range that its comment gives. */
  function DateInEra(era: int, doe: nat): Date
    requires doe < 146097
  {
    YearOfEra(doe);
    var yoe: nat := YearIndex(doe);
    YearsAreShort(yoe);
    var doy: nat := doe - (365 * yoe + yoe / 4 - yoe / 100);
    DateInYear(yoe + era * 400, doy)
  }

  /** `civil_from_days`. */
  function CivilFromDays(days: int): Date {
    var z := days + 719468;
    var era := TruncDiv(if z >= 0 then z else z - 146096, 146097);
    EraIsFloor(z);
    DateInEra(era, z - era * 146097)
  }

  lemma EraIsFloor(z: int)
    ensures TruncDiv(if z >= 0 then z else z - 146096, 146097) == z / 146097
  {
  }

  /** Days of an era (400 years from a first of March) before its year `yoe`. */
  function YearStart(yoe: nat): nat {
    365 * yoe + yoe / 4 - yoe / 100 + yoe / 400
  }

  /** Century `c`, four-year cycle `k`, year `s` of the cycle and day `t` of the cycle: the
      last cycle of a century is a day short, except in the last century. */
  predicate InCycle(c: nat, k: nat, s: nat, t: nat) {
    && c <= 3 && k <= 24 && s <= 3 && 365 * s <= t <= 1460
    && (s < 3 ==> t < 365 * (s + 1))
    && (k == 24 && c < 3 ==> t < 1460)
  }

  lemma SplitDay(doe: nat) returns (c: nat, k: nat, s: nat, t: nat)
    requires doe < 146097
    ensures InCycle(c, k, s, t) && doe == 36524 * c + 1461 * k + t
  {
    c := if doe == 146096 then 3 else doe / 36524;
    var r := doe - 36524 * c;
    k := r / 1461;
    t := r - 1461 * k;
    s := if t == 1460 then 3 else t / 365;
  }

  /** The corrections of the formula cancel the leap days of the cycles before. */
  lemma FormulaAt(c: nat, k: nat, s: nat, t: nat)
    requires InCycle(c, k, s, t)
    ensures var doe := 36524 * c + 1461 * k + t;
      YearIndex(doe) == 100 * c + 4 * k + s
  {
    var doe := 36524 * c + 1461 * k + t;
    var extra := if 24 * c + k + t >= 1460 then 1 else 0;
    assert doe / 1460 == 25 * c + k + extra by {
      assert doe == 1460 * (25 * c + k) + (24 * c + k + t);
    }
    assert doe / 36524 - doe / 146096 == c;
    assert (1460 * k + t - extra) / 365 == 4 * k + s;
  }

  function ShortCycle(c: nat, k: nat): nat {
    if k == 24 && c < 3 then 1 else 0
  }

  lemma YearStartAt(c: nat, k: nat, s: nat)
    requires c <= 3 && k <= 24 && s <= 3
    ensures YearStart(100 * c + 4 * k + s) == 36524 * c + 1461 * k + 365 * s
    ensures s < 3 ==> YearStart(100 * c + 4 * k + s + 1) == 36524 * c + 1461 * k + 365 * (s + 1)
    ensures s == 3 ==> YearStart(100 * c + 4 * k + s + 1) == 36524 * c + 1461 * (k + 1) - ShortCycle(c, k)
  {
    var y := 100 * c + 4 * k + s;
    assert y / 4 == 25 * c + k && y / 100 == c && y / 400 == 0;
    if s == 3 {
      assert (y + 1) / 4 == 25 * c + k + 1;
      assert (y + 1) / 100 == if k == 24 then c + 1 else c;
      assert (y + 1) / 400 == if k == 24 && c == 3 then 1 else 0;
    } else {
      assert (y + 1) / 4 == 25 * c + k && (y + 1) / 100 == c && (y + 1) / 400 == 0;
    }
  }

  /** The year of the era is the one whose days contain `doe`. */
  lemma YearOfEra(doe: nat)
    requires doe < 146097
    ensures 0 <= YearIndex(doe) < 400 && YearStart(YearIndex(doe)) <= doe < YearStart(YearIndex(doe) + 1)
  {
    var c, k, s, t := SplitDay(doe);
    FormulaAt(c, k, s, t);
    YearStartAt(c, k, s);
  }

  /** Days before the month `mp` of a year that starts in March. */
  function MonthStart(mp: nat): nat {
    (153 * mp + 2) / 5
  }

  /** The month is the one whose days contain `doy`. */
  lemma MonthOfYear(doy: nat)
    requires doy <= 365
    ensures var mp := (5 * doy + 2) / 153;
      mp <= 11 && MonthStart(mp) <= doy && (mp < 11 ==> doy < MonthStart(mp + 1))
  {
  }

  /** Only that month does. */
  lemma MonthUnique(doy: nat, mp: nat)
    requires mp <= 11 && MonthStart(mp) <= doy <= 365 && (mp < 11 ==> doy < MonthStart(mp + 1))
    ensures (5 * doy + 2) / 153 == mp
  {
  }

  lemma YearsAreShort(yoe: nat)
    requires yoe < 400
    ensures yoe / 400 == 0 && YearStart(yoe + 1) - YearStart(yoe) <= 366
  {
    LeapStep(yoe + 1);
  }

  lemma Div4Step(n: nat)
    requires n > 0
    ensures n / 4 - (n - 1) / 4 == if n % 4 == 0 then 1 else 0
  {
  }

  lemma Div100Step(n: nat)
    requires n > 0
    ensures n / 100 - (n - 1) / 100 == if n % 100 == 0 then 1 else 0
  {
  }

  lemma Div400Step(n: nat)
    requires n > 0
    ensures n / 400 - (n - 1) / 400 == if n % 400 == 0 then 1 else 0
  {
  }

  lemma Nested(n: int)
    ensures n % 100 == 0 ==> n % 4 == 0
    ensures n % 400 == 0 ==> n % 100 == 0
  {
  }

  lemma LeapStep(n: nat)
    requires n > 0
    ensures YearStart(n) - YearStart(n - 1) == if IsLeap(n) then 366 else 365
  {
    Div4Step(n);
    Div100Step(n);
    Div400Step(n);
    Nested(n);
  }

  lemma Mod4Repeats(q: int, n: int)
    ensures (4 * q + n) % 4 == n % 4
  {
    assert 4 * q + n == 4 * (q + n / 4) + n % 4;
  }

  lemma Mod100Repeats(q: int, n: int)
    ensures (100 * q + n) % 100 == n % 100
  {
    assert 100 * q + n == 100 * (q + n / 100) + n % 100;
  }

  lemma Mod400Repeats(q: int, n: int)
    ensures (400 * q + n) % 400 == n % 400
  {
    assert 400 * q + n == 400 * (q + n / 400) + n % 400;
  }

  lemma LeapRepeats(era: int, n: int)
    ensures IsLeap(era * 400 + n) == IsLeap(n)
  {
    Mod4Repeats(100 * era, n);
    Mod100Repeats(4 * era, n);
    Mod400Repeats(era, n);
  }

  /** A year of the era that starts in March of year `y` ends with the February of `y + 1`. */
  lemma YearLength(era: int, yoe: nat)
    ensures YearStart(yoe + 1) - YearStart(yoe) == if IsLeap(era * 400 + yoe + 1) then 366 else 365
  {
    LeapStep(yoe + 1);
    LeapRepeats(era, yoe + 1);
  }

  // ----- The inverse -----

  /** Month of a year that starts in March: 0 is March, 11 is February. */
  function MarchMonth(m: int): nat
    requires 1 <= m <= 12
  {
    if m > 2 then m - 3 else m + 9
  }

  /** The year in whose March the year that holds `t` started. */
  function MarchYear(t: Date): int {
    if t.m <= 2 then t.y - 1 else t.y
  }

  function DayOfYear(t: Date): int
    requires 1 <= t.m <= 12
  {
    MonthStart(MarchMonth(t.m)) + t.d - 1
  }

  /** Days from 1970-01-01 to the first of March of year `y`, counted by years. */
  function DaysToMarch(y: int): int {
    y / 400 * 146097 + YearStart(y % 400) - 719468
  }

  function DaysFromCivil(t: Date): int
    requires 1 <= t.m <= 12
  {
    DaysToMarch(MarchYear(t)) + DayOfYear(t)
  }

  lemma MonthLengths(y: int, m: int)
    requires 1 <= m <= 12 && m != 2
    ensures MonthLength(y, m) == MonthStart(MarchMonth(m) + 1) - MonthStart(MarchMonth(m))
  {
  }

  lemma MarchLength(y: int)
    ensures DaysToMarch(y + 1) - DaysToMarch(y) == if IsLeap(y + 1) then 366 else 365
  {
    YearLength(y / 400, y % 400);
    assert y / 400 * 400 + y % 400 == y;
    if y % 400 == 399 {
      assert (y + 1) / 400 == y / 400 + 1 && (y + 1) % 400 == 0;
    } else {
      assert (y + 1) / 400 == y / 400 && (y + 1) % 400 == y % 400 + 1;
    }
  }

  /** Within a year the date determines the day, and it is valid if the day exists. */
  lemma DateOfDay(y: int, doy: nat)
    requires doy < if IsLeap(y + 1) then 366 else 365
    ensures var t := DateInYear(y, doy);
      ValidDate(t) && MarchYear(t) == y && DayOfYear(t) == doy
  {
    MonthOfYear(doy);
    var t := DateInYear(y, doy);
    if t.m != 2 {
      MonthLengths(t.y, t.m);
    }
  }

  /** And the day determines the date. */
  lemma DayOfDate(t: Date)
    requires ValidDate(t)
    ensures 0 <= DayOfYear(t) < if IsLeap(MarchYear(t) + 1) then 366 else 365
    ensures DateInYear(MarchYear(t), DayOfYear(t)) == t
  {
    if t.m != 2 {
      MonthLengths(t.y, t.m);
    }
    MonthUnique(DayOfYear(t), MarchMonth(t.m));
  }

  lemma EraOf(days: int, era: int, doe: nat)
    requires days + 719468 == era * 146097 + doe && doe < 146097
    ensures CivilFromDays(days) == DateInEra(era, doe)
  {
    EraIsFloor(days + 719468);
    EraUnique(days + 719468, era, doe);
  }

  lemma YearOf(era: int, doe: nat)
    requires doe < 146097
    ensures 0 <= YearIndex(doe) < 400
    ensures 0 <= doe - YearStart(YearIndex(doe)) <= 365
    ensures DateInEra(era, doe) == DateInYear(YearIndex(doe) + era * 400, doe - YearStart(YearIndex(doe)))
  {
    YearOfEra(doe);
    YearsAreShort(YearIndex(doe));
  }

  lemma EraUnique(z: int, era: int, doe: nat)
    requires z == era * 146097 + doe && doe < 146097
    ensures z / 146097 == era
  {
  }

  lemma MarchOfEra(era: int, yoe: nat)
    requires yoe < 400
    ensures DaysToMarch(yoe + era * 400) == era * 146097 + YearStart(yoe) - 719468
  {
    var y := yoe + era * 400;
    assert y / 400 == era && y % 400 == yoe;
  }

  /** The conversion finds the year and the day in it. */
  lemma FindsYear(days: int) returns (y: int, doy: nat)
    ensures days == DaysToMarch(y) + doy
    ensures doy < if IsLeap(y + 1) then 366 else 365
    ensures CivilFromDays(days) == DateInYear(y, doy)
  {
    var era := (days + 719468) / 146097;
    var doe := days + 719468 - era * 146097;
    EraOf(days, era, doe);
    y, doy := FindsYearInEra(era, doe);
  }

  lemma FindsYearInEra(era: int, doe: nat) returns (y: int, doy: nat)
    requires doe < 146097
    ensures era * 146097 + doe - 719468 == DaysToMarch(y) + doy
    ensures doy < if IsLeap(y + 1) then 366 else 365
    ensures DateInEra(era, doe) == DateInYear(y, doy)
  {
    YearOf(era, doe);
    var yoe := YearIndex(doe);
    y, doy := yoe + era * 400, doe - YearStart(yoe);
    MarchOfEra(era, yoe);
    assert doy < YearStart(yoe + 1) - YearStart(yoe) by {
      YearOfEra(doe);
    }
    YearLength(era, yoe);
  }

  /** Every day number gives a valid date, which counts back to it. */
  lemma DaysRoundTrip(days: int)
    ensures ValidDate(CivilFromDays(days))
    ensures DaysFromCivil(CivilFromDays(days)) == days
  {
    var y, doy := FindsYear(days);
    DateOfDay(y, doy);
  }

  lemma {:induction false} MarchIncreases(a: int, b: int)
    requires a < b
    ensures DaysToMarch(a + 1) <= DaysToMarch(b)
    decreases b - a
  {
    if a + 1 < b {
      MarchIncreases(a + 1, b);
      MarchLength(a + 1);
    }
  }

  /** A day lies in one year only. */
  lemma SameYear(y: int, doy: nat, y': int, doy': nat)
    requires doy < if IsLeap(y + 1) then 366 else 365
    requires doy' < if IsLeap(y' + 1) then 366 else 365
    requires DaysToMarch(y) + doy == DaysToMarch(y') + doy'
    ensures y == y' && doy == doy'
  {
    MarchLength(y);
    MarchLength(y');
    if y < y' {
      MarchIncreases(y, y');
      assert false;
    } else if y' < y {
      MarchIncreases(y', y);
      assert false;
    }
  }

  /** Every valid date is the date of its day number. */
  lemma DatesRoundTrip(t: Date)
    requires ValidDate(t)
    ensures CivilFromDays(DaysFromCivil(t)) == t
  {
    DayOfDate(t);
    var y, doy := FindsYear(DaysFromCivil(t));
    SameYear(y, doy, MarchYear(t), DayOfYear(t));
  }

  // ----- The successor -----

  lemma NextDayCounts(t: Date)
    requires ValidDate(t)
    ensures ValidDate(NextDay(t)) && DaysFromCivil(NextDay(t)) == DaysFromCivil(t) + 1
  {
    if t.d == MonthLength(t.y, t.m) {
      if t.m == 2 {
        MarchLength(MarchYear(t));
      } else {
        MonthLengths(t.y, t.m);
      }
    }
  }

  lemma DateOf(days: int, t: Date)
    requires ValidDate(t) && DaysFromCivil(t) == days
    ensures CivilFromDays(days) == t
  {
    DatesRoundTrip(t);
  }

  /** Consecutive days are consecutive dates under the 4/100/400 rule, from 1970-01-01 on and
      back: this determines the conversion on every integer. */
  lemma ConsecutiveDays(days: int)
    ensures ValidDate(CivilFromDays(days))
    ensures CivilFromDays(days + 1) == NextDay(CivilFromDays(days))
  {
    DaysRoundTrip(days);
    var t := CivilFromDays(days);
    NextDayCounts(t);
    DateOf(days + 1, NextDay(t));
  }

  lemma EpochIsDayZero()
    ensures CivilFromDays(0) == Date(1970, 1, 1)
  {
    var t := Date(1970, 1, 1);
    assert DaysFromCivil(t) == 0;
    DatesRoundTrip(t);
  }

  predicate Before(a: Date, b: Date) {
    a.y < b.y || (a.y == b.y && (a.m < b.m || (a.m == b.m && a.d < b.d)))
  }

  /** Whatever advances day by day is strictly increasing. */
  lemma {:induction false} AdvancesFrom(civil: int -> Date, a: int, b: int)
    requires a < b
    requires forall n :: a <= n < b ==> ValidDate(civil(n)) && civil(n + 1) == NextDay(civil(n))
    ensures Before(civil(a), civil(b))
    decreases b - a
  {
    assert civil(b - 1 + 1) == NextDay(civil(b - 1));
    if a < b - 1 {
      AdvancesFrom(civil, a, b - 1);
    }
  }

  /** The conversion is strictly increasing, hence with the round trips a bijection between the
      integers and the valid dates. */
  lemma Increasing(a: int, b: int)
    requires a < b
    ensures Before(CivilFromDays(a), CivilFromDays(b))
  {
    forall n | a <= n < b
      ensures ValidDate(CivilFromDays(n)) && CivilFromDays(n + 1) == NextDay(CivilFromDays(n))
    {
      ConsecutiveDays(n);
    }
    AdvancesFrom(CivilFromDays, a, b);
  }

  // ----- Seconds -----

  datatype Minute = Minute(date: Date, hour: nat, minute: nat)

  /** `ymdhm_from_unix_secs`, with Euclidean division. */
  function FromUnixSeconds(secs: int): Minute {
    var days := secs / 86400;
    var ofDay := secs % 86400;
    Minute(CivilFromDays(days), ofDay / 3600, ofDay % 3600 / 60)
  }

  /** The result names the minute that contains the second, also before 1970. */
  lemma MinuteOfSecond(secs: int)
    ensures var t := FromUnixSeconds(secs);
      && ValidDate(t.date) && t.hour < 24 && t.minute < 60
      && 0 <= secs - ((DaysFromCivil(t.date) * 24 + t.hour) * 60 + t.minute) * 60 < 60
  {
    DaysRoundTrip(secs / 86400);
  }
}
