/**
 Calendar arithmetic: `ts_to_date` with `GetDayOfWeek` and `GetDayOfYear`, and the
 inverse conversion `RTC_DateToTimestamp`, against a Gregorian calendar that is defined
 by counting years and months. Months and days start at 1, Monday is weekday 1, and
 1 January is day 1 of its year, as the code has it.
 */
module Calendar {
  import Arith
  import opened Basics

  datatype Date = Date(year: int, month: int, day: int)

  // ----- The Gregorian calendar, by counting -----

  predicate Leap(y: int) {
    y % 400 == 0 || (y % 4 == 0 && y % 100 != 0)
  }

  function DaysInMonth(y: int, m: int): int
    requires 1 <= m <= 12
  {
    if m == 2 then (if Leap(y) then 29 else 28)
    else if m == 4 || m == 6 || m == 9 || m == 11 then 30
    else 31
  }

  function DaysBeforeMonth(y: int, m: int): int
    requires 1 <= m <= 13
    decreases m
  {
    if m == 1 then 0 else DaysBeforeMonth(y, m - 1) + DaysInMonth(y, m - 1)
  }

  /** Days from 1 January of year 0 to 1 January of year `y`. */
  function DaysBeforeYear(y: nat): nat {
    if y == 0 then 0 else DaysBeforeYear(y - 1) + (if Leap(y - 1) then 366 else 365)
  }

  predicate ValidDate(x: Date) {
    x.year >= 0 && 1 <= x.month <= 12 && 1 <= x.day <= DaysInMonth(x.year, x.month)
  }

  /** Days from 1 January of year 0 to 1 January 1970; `Epoch` shows that it is that count. */
  const EPOCH_DAYS := 719528

  /** Days from 1 January 1970. */
  function DayNumber(x: Date): int
    requires ValidDate(x)
  {
    DaysBeforeYear(x.year) + DaysBeforeMonth(x.year, x.month) + x.day - 1 - EPOCH_DAYS
  }

  function One(b: bool): int { if b then 1 else 0 }

  /** How the three leap-year counts move from one year to the next. */
  lemma LeapSteps(y: nat)
    ensures (y + 4) / 4 - (y + 3) / 4 == One(y % 4 == 0)
    ensures (y + 100) / 100 - (y + 99) / 100 == One(y % 100 == 0)
    ensures (y + 400) / 400 - (y + 399) / 400 == One(y % 400 == 0)
  {
    Rounding(y, 4);
    Rounding(y, 100);
    Rounding(y, 400);
  }

  /** Rounding a quotient up adds one unless the division is exact. */
  lemma Rounding(y: nat, k: nat)
    requires k == 4 || k == 100 || k == 400
    ensures (y + k) / k == y / k + 1
    ensures (y + k - 1) / k == y / k + 1 - One(y % k == 0)
  {
    assert y == k * (y / k) + y % k;
  }

  lemma LeapCounts(y: nat)
    ensures One(Leap(y)) == One(y % 4 == 0) - One(y % 100 == 0) + One(y % 400 == 0)
  {
    Divisibility(y);
  }

  lemma Divisibility(y: nat)
    ensures y % 400 == 0 ==> y % 100 == 0
    ensures y % 100 == 0 ==> y % 4 == 0
  {
    var a, b := y / 400, y / 100;
    assert y % 400 == 0 ==> y == 100 * (4 * a);
    assert y % 100 == 0 ==> y == 4 * (25 * b);
  }

  lemma LeapSum(y: nat)
    ensures (y + 4) / 4 - (y + 100) / 100 + (y + 400) / 400 == (y + 3) / 4 - (y + 99) / 100 + (y + 399) / 400 + One(Leap(y))
  {
    LeapSteps(y);
    LeapCounts(y);
  }

  lemma {:induction false} DaysBeforeYearClosed(y: nat)
    ensures DaysBeforeYear(y) == 365 * y + (y + 3) / 4 - (y + 99) / 100 + (y + 399) / 400
  {
    if y > 0 {
      DaysBeforeYearClosed(y - 1);
      LeapSum(y - 1);
    }
  }

  lemma Epoch()
    ensures DaysBeforeYear(1970) == EPOCH_DAYS
  {
    DaysBeforeYearClosed(1970);
  }

  /** The number of days in front of a month, written out. */
  lemma MonthTable(y: int, m: int)
    requires 1 <= m <= 13
    ensures var leap := if Leap(y) then 1 else 0;
            DaysBeforeMonth(y, m) ==
            if m == 1 then 0 else if m == 2 then 31 else leap + [59, 90, 120, 151, 181, 212, 243, 273, 304, 334, 365][m - 3]
  {
    if m > 1 {
      MonthTable(y, m - 1);
    }
  }

  lemma {:induction false} YearsIncrease(y: nat, z: nat)
    requires y < z
    ensures DaysBeforeYear(y) + DaysBeforeMonth(y, 13) <= DaysBeforeYear(z)
    decreases z
  {
    MonthTable(y, 13);
    if z > y + 1 {
      YearsIncrease(y, z - 1);
    }
  }

  lemma {:induction false} MonthsIncrease(y: int, m: int, k: int)
    requires 1 <= m < k <= 13
    ensures DaysBeforeMonth(y, m) + DaysInMonth(y, m) <= DaysBeforeMonth(y, k)
    decreases k
  {
    if k > m + 1 {
      MonthsIncrease(y, m, k - 1);
    }
  }

  /** Different dates have different day numbers. */
  lemma DayNumberInjective(x: Date, z: Date)
    requires ValidDate(x) && ValidDate(z) && DayNumber(x) == DayNumber(z)
    ensures x == z
  {
    WithinYear(x);
    WithinYear(z);
    if x.year < z.year {
      YearsIncrease(x.year, z.year);
    } else if z.year < x.year {
      YearsIncrease(z.year, x.year);
    } else if x.month < z.month {
      MonthsIncrease(x.year, x.month, z.month);
    } else if z.month < x.month {
      MonthsIncrease(x.year, z.month, x.month);
    }
  }

  lemma WithinYear(x: Date)
    requires ValidDate(x)
    ensures 0 <= DaysBeforeMonth(x.year, x.month)
    ensures DaysBeforeMonth(x.year, x.month) + x.day <= DaysBeforeMonth(x.year, 13)
  {
    MonthsIncrease(x.year, x.month, 13);
    MonthTable(x.year, x.month);
  }

  // ----- RTC_DateToTimestamp: the day count -----

  /** The day formula of `RTC_DateToTimestamp`; January and February belong to the year before. */
  function RtcDays(y: int, m: int, d: int): int {
    if m <= 2 then MarchDays(y - 1, m + 12, d) else MarchDays(y, m, d)
  }

  /** The same with months 3 to 14 of a year that starts in March. */
  function MarchDays(y: int, m: int, d: int): int {
    365 * y + y / 4 - y / 100 + y / 400 + 30 * m + 3 * (m + 1) / 5 + d - 719561
  }

  /** Rounding down instead of up loses one day, unless the year itself is a leap year. */
  lemma LeapFloors(y: nat)
    ensures y / 4 - y / 100 + y / 400 == (y + 3) / 4 - (y + 99) / 100 + (y + 399) / 400 - 1 + One(Leap(y))
  {
    LeapSteps(y);
    LeapCounts(y);
    assert (y + 4) / 4 == y / 4 + 1 && (y + 100) / 100 == y / 100 + 1 && (y + 400) / 400 == y / 400 + 1;
  }

  /** The closed formula counts days. */
  lemma RtcDaysCounts(x: Date)
    requires ValidDate(x) && x.year >= 1
    ensures RtcDays(x.year, x.month, x.day) == DayNumber(x)
  {
    MonthTable(x.year, x.month);
    if x.month <= 2 {
      var y := x.year - 1;
      YearFloors(y);
      assert DaysBeforeYear(x.year) == DaysBeforeYear(y) + 365 + One(Leap(y));
    } else {
      YearFloors(x.year);
    }
  }

  lemma YearFloors(y: nat)
    ensures 365 * y + y / 4 - y / 100 + y / 400 == DaysBeforeYear(y) - 1 + One(Leap(y))
  {
    DaysBeforeYearClosed(y);
    LeapFloors(y);
  }

  // ----- ts_to_date: from the day number to the date -----

  /** The arithmetic of `ts_to_date` on the day number, with every 32-bit wrap-around. */
  function DateOfDay(n: nat): Date {
    var a := U32((4 * n + 102032) / 146097 + 15);
    var b := U32(n + 2442113 + a - a / 4);
    DateInYear(b, YearIndex(b))
  }

  /** The intermediate value `c`: the year, counted from 4716 years before year 0. */
  function YearIndex(b: nat): (c: nat)
    ensures c <= 587948
  {
    U32(20 * b - 2442) / 7305
  }

  /** The second half: month and day from what is left after taking off `c` years. */
  function DateInYear(b: nat, c: nat): Date {
    var d := U32(b - 365 * c - c / 4);
    var e := U32(d * 1000) / 30601;
    var f := U32(d - e * 30 - U32(e * 601) / 1000);
    if e <= 13 then Date(S32(c - 4716), e - 1, f) else Date(S32(c - 4715), e - 13, f)
  }

  /** The last day number for which no intermediate value wraps. */
  const MAX_DAY := 212302002

  /** The century `cent` of day `n`, counted from 1 March of year 0, and the day `s` in it. */
  lemma Century(n: nat) returns (cent: nat, s: nat)
    ensures (4 * n + 102032) / 146097 + 15 == cent - 4
    ensures n + 719468 + cent - cent / 4 == 36525 * cent + s
    ensures s <= 36524 && (s == 36524 ==> cent % 4 == 3)
    ensures cent >= 19 && (n <= MAX_DAY ==> cent <= 5832)
  {
    var t := n + 719468;
    var q, r := t / 146097, t % 146097;
    var k := (4 * r + 3) / 146097;
    cent := 4 * q + k;
    assert 4 * t + 3 == 146097 * (4 * q) + (4 * r + 3);
    assert 4 * n + 102032 == 4 * t + 3 - 146097 * 19;
    s := r - 36524 * k;
  }

  /** The year `y` since 1 March of year 0, and the day `doy` in it. */
  lemma YearOfCentury(cent: nat, s: nat) returns (y: nat, doy: nat)
    requires s <= 36524 && (s == 36524 ==> cent % 4 == 3)
    ensures y == (20 * (36525 * cent + s) + 18) / 7305 && y / 100 == cent
    ensures 36525 * cent + s == 365 * y + y / 4 + doy && doy <= 365
    ensures doy == 365 ==> Leap(y + 1)
  {
    var k := (20 * s + 18) / 7305;
    y := 100 * cent + k;
    assert 20 * (36525 * cent + s) + 18 == 7305 * (100 * cent) + (20 * s + 18);
    assert k < 100;
    assert y / 4 == 25 * cent + k / 4;
    doy := DayInYear(s, k);
    if doy == 365 {
      CenturyLeap(cent, k);
    }
  }

  /** Year `k + 1` of a century is a leap year when 4 divides it, and at the turn when 4 divides the century. */
  lemma CenturyLeap(cent: nat, k: nat)
    requires k < 100 && k % 4 == 3 && (k == 99 ==> cent % 4 == 3)
    ensures Leap(100 * cent + k + 1)
  {
    var y := 100 * cent + k + 1;
    if k == 99 {
      Arith.DivUnique(y, 400, cent / 4 + 1, 0);
    } else {
      Arith.DivUnique(y, 4, 25 * cent + (k + 1) / 4, 0);
      Arith.DivUnique(y, 100, cent, k + 1);
    }
  }

  lemma DayInYear(s: nat, k: nat) returns (doy: nat)
    requires s <= 36524 && k == (20 * s + 18) / 7305
    ensures s == 365 * k + k / 4 + doy && doy <= 365
    ensures doy == 365 ==> k % 4 == 3 && (k == 99 ==> s == 36524)
  {
    var q, r := k / 4, k % 4;
    assert 20 * s + 18 == 7305 * k + (20 * s + 18) % 7305;
    doy := s - 365 * k - k / 4;
  }

  /** The month of day `d` of a year that starts on 1 March, as `ts_to_date` computes it. */
  function MonthOfDay(doy: nat): Date {
    var d := doy + 123;
    var e := d * 1000 / 30601;
    Date(0, e - 1, d - e * 30 - e * 601 / 1000)
  }

  /** The calendar date of a month counted from March, in year `y` counted from 1 March. */
  function Shifted(y: nat, x: Date): Date {
    if x.month <= 12 then Date(y, x.month, x.day) else Date(y + 1, x.month - 12, x.day)
  }

  /** Month and day come out in range, and the day formula leads back to the day of the year. */
  lemma MonthOfDaySpec(doy: nat)
    requires doy <= 365
    ensures var x := MonthOfDay(doy);
            && 3 <= x.month <= 14
            && 30 * x.month + 3 * (x.month + 1) / 5 + x.day == doy + 93
            && 1 <= x.day <= (if x.month == 14 then (if doy == 365 then 29 else 28)
                              else if x.month in {4, 6, 9, 11} then 30 else 31)
  {
    var d := doy + 123;
    var e := d * 1000 / 30601;
    assert 4 <= e <= 15;
    assert e * 601 / 1000 == 3 * e / 5;
  }

  /** The intermediate values `b` and `c` of `ts_to_date` in terms of year and day of year. */
  lemma YearSplit(n: nat) returns (y: nat, doy: nat, a: nat, b: nat)
    requires n <= MAX_DAY
    ensures doy <= 365 && (doy == 365 ==> Leap(y + 1)) && 1969 <= y < 600_000
    ensures n == 365 * y + y / 4 - y / 100 + y / 400 + doy - 719468
    ensures a == (4 * n + 102032) / 146097 + 15 <= 5828 && b == n + 2442113 + a - a / 4
    ensures (20 * b - 2442) / 7305 == y + 4716
    ensures b == 365 * (y + 4716) + (y + 4716) / 4 + doy + 123
  {
    var cent, s := Century(n);
    y, doy := YearOfCentury(cent, s);
    a := cent - 4;
    b := n + 2442113 + a - a / 4;
    assert cent / 4 == y / 400 && a / 4 == cent / 4 - 1;
    assert b == 36525 * cent + s + 1722642;
    assert 20 * b - 2442 == 20 * (36525 * cent + s) + 18 + 7305 * 4716;
    assert (y + 4716) / 4 == y / 4 + 1179;
  }

  lemma NoWrap(n: nat, a: nat, b: nat)
    requires n <= MAX_DAY && a <= 5828 && b == n + 2442113 + a - a / 4
    ensures U32(a) == a && U32(b) == b && U32(20 * b - 2442) == 20 * b - 2442
  {}

  /** Without wrap-around the code finds year and day of year, both counted from 1 March. */
  lemma DateOfDayParts(n: nat) returns (y: nat, doy: nat)
    requires n <= MAX_DAY
    ensures doy <= 365 && (doy == 365 ==> Leap(y + 1)) && 1969 <= y
    ensures n == 365 * y + y / 4 - y / 100 + y / 400 + doy - 719468
    ensures var x := MonthOfDay(doy);
            DateOfDay(n) == Shifted(y, x)
  {
    var a, b;
    y, doy, a, b := YearSplit(n);
    NoWrap(n, a, b);
    DateInYearSpec(y, doy, b);
  }

  lemma DateInYearSpec(y: nat, doy: nat, b: nat)
    requires doy <= 365 && y < 600_000 && b == 365 * (y + 4716) + (y + 4716) / 4 + doy + 123
    ensures var x := MonthOfDay(doy);
            DateInYear(b, y + 4716) == Shifted(y, x)
  {
    MonthOfDaySpec(doy);
    var d := doy + 123;
    var e := d * 1000 / 30601;
    SmallU32(d);
    SmallU32(d * 1000);
    SmallU32(e * 601);
    SmallU32(d - e * 30 - e * 601 / 1000);
    SmallU32(y);
    SmallU32(y + 1);
  }

  lemma SmallU32(x: nat)
    requires x < 0x8000_0000
    ensures U32(x) == x && S32(x) == x
  {}

  /** `ts_to_date` yields a valid date that encodes the day it started from. */
  lemma DateOfDayCorrect(n: nat)
    requires n <= MAX_DAY
    ensures ValidDate(DateOfDay(n)) && DateOfDay(n).year >= 1970 && DayNumber(DateOfDay(n)) == n
  {
    var y, doy := DateOfDayParts(n);
    ShiftedValid(y, doy);
    RtcDaysCounts(DateOfDay(n));
    if DateOfDay(n).year < 1970 {
      BeforeEpoch(DateOfDay(n));
    }
  }

  lemma BeforeEpoch(x: Date)
    requires ValidDate(x) && x.year < 1970
    ensures DayNumber(x) < 0
  {
    WithinYear(x);
    YearsIncrease(x.year, 1970);
    Epoch();
  }

  lemma ShiftedValid(y: nat, doy: nat)
    requires doy <= 365 && (doy == 365 ==> Leap(y + 1)) && y >= 1
    ensures var x := Shifted(y, MonthOfDay(doy));
            && ValidDate(x) && y <= x.year
            && RtcDays(x.year, x.month, x.day) == 365 * y + y / 4 - y / 100 + y / 400 + doy - 719468
  {
    MonthOfDaySpec(doy);
  }

  /** No 32-bit value of `c` reaches a later year. */
  lemma YearBound(b: nat, c: nat)
    requires c <= 587948
    ensures DateInYear(b, c).year <= 583233
    ensures c == 0 ==> DateInYear(b, c).year < 0
  {}

  /** Just past `MAX_DAY` the product `20 * b - 2442` wraps and no year is left. */
  lemma JustPast(n: nat)
    requires MAX_DAY < n <= MAX_DAY + 365
    ensures DateOfDay(n).year < 0
  {
    var a := (4 * n + 102032) / 146097 + 15;
    assert 5828 <= a <= 5829;
    var b := n + 2442113 + a - a / 4;
    assert U32(a) == a && U32(b) == b && U32(20 * b - 2442) / 7305 == 0;
    YearBound(b, 0);
  }

  lemma LastDayBound(x: Date)
    requires ValidDate(x) && x.year <= 583233
    ensures DayNumber(x) <= MAX_DAY + 365
  {
    WithinYear(x);
    YearsIncrease(x.year, 583234);
    DaysBeforeYearClosed(583234);
  }

  /** Past `MAX_DAY` the year either comes out negative or the day lies before `n`. */
  lemma WrappedDay(n: nat)
    requires n > MAX_DAY && ValidDate(DateOfDay(n))
    ensures DayNumber(DateOfDay(n)) != n
  {
    YearOfDayBound(n);
    LastDayBound(DateOfDay(n));
    if n <= MAX_DAY + 365 {
      JustPast(n);
    }
  }

  lemma YearOfDayBound(n: nat)
    ensures DateOfDay(n).year <= 583233
  {
    var a := U32((4 * n + 102032) / 146097 + 15);
    var b := U32(n + 2442113 + a - a / 4);
    YearBound(b, YearIndex(b));
  }

  /** `ts_to_date` gets the date right exactly up to `MAX_DAY`, for all day numbers. */
  lemma DateOfDayCorrectIff(n: nat)
    ensures ValidDate(DateOfDay(n)) && DayNumber(DateOfDay(n)) == n <==> n <= MAX_DAY
  {
    if n <= MAX_DAY {
      DateOfDayCorrect(n);
    } else if ValidDate(DateOfDay(n)) {
      WrappedDay(n);
    }
  }

  /** Decoding inverts encoding. */
  lemma DecodeEncode(x: Date)
    requires ValidDate(x) && 0 <= DayNumber(x) <= MAX_DAY
    ensures DateOfDay(DayNumber(x)) == x
  {
    DateOfDayCorrect(DayNumber(x));
    DayNumberInjective(x, DateOfDay(DayNumber(x)));
  }

  // ----- Day of the week and day of the year -----

  function U16(x: int): nat { x % 0x1_0000 }

  /** `GetDayOfWeek`: Zeller's congruence, Monday = 1. */
  function DayOfWeek(y: nat, m: nat, d: nat): int {
    if m <= 2 then Zeller(U16(y - 1), m + 12, d) else Zeller(y, m, d)
  }

  function Zeller(y: nat, m: nat, d: nat): int {
    var j, k := y / 100, y % 100;
    var h := d + 26 * (m + 1) / 10 + k + k / 4 + 5 * j + j / 4;
    (h + 5) % 7 + 1
  }

  /** The day count and Zeller's sum agree modulo 7. */
  lemma ZellerSum(y: nat, m: nat, d: nat) returns (w: int)
    requires 3 <= m <= 14
    ensures var j, k := y / 100, y % 100;
            MarchDays(y, m, d) == d + 26 * (m + 1) / 10 + k + k / 4 + 5 * j + j / 4 - 5 + 7 * w
  {
    var j, k := y / 100, y % 100;
    assert y == 100 * j + k;
    assert y / 4 == 25 * j + k / 4 && y / 400 == j / 4;
    assert 26 * (m + 1) / 10 == 2 * (m + 1) + 3 * (m + 1) / 5;
    w := 5217 * j + 52 * k + 4 * m - 102794;
  }

  lemma ZellerCorrect(y: nat, m: nat, d: nat)
    requires 3 <= m <= 14
    ensures Zeller(y, m, d) == (MarchDays(y, m, d) + 3) % 7 + 1
  {
    var w := ZellerSum(y, m, d);
    Mod7(y, m, d, w);
  }

  lemma Mod7(y: nat, m: nat, d: nat, w: int)
    requires var j, k := y / 100, y % 100;
             MarchDays(y, m, d) == d + 26 * (m + 1) / 10 + k + k / 4 + 5 * j + j / 4 - 5 + 7 * w
    ensures Zeller(y, m, d) == (MarchDays(y, m, d) + 3) % 7 + 1
  {
    var j, k := y / 100, y % 100;
    var h := d + 26 * (m + 1) / 10 + k + k / 4 + 5 * j + j / 4;
    Congruent7(MarchDays(y, m, d) + 3, h + 5, w - 1);
  }

  lemma Congruent7(a: int, b: int, w: int)
    requires a == b + 7 * w
    ensures a % 7 == b % 7
  {}

  lemma WeekdayOfCount(y: nat, m: nat, d: nat)
    requires 1 <= y <= 65535 && 1 <= m <= 12
    ensures DayOfWeek(y, m, d) == (RtcDays(y, m, d) + 3) % 7 + 1
  {
    if m <= 2 {
      assert U16(y - 1) == y - 1;
      ZellerCorrect(y - 1, m + 12, d);
    } else {
      ZellerCorrect(y, m, d);
    }
  }

  /** Zeller's congruence gives the weekday of the day count: 1 January 1970 was a Thursday. */
  lemma DayOfWeekCorrect(x: Date)
    requires ValidDate(x) && 1 <= x.year <= 65535
    ensures DayOfWeek(x.year, x.month, x.day) == (DayNumber(x) + 3) % 7 + 1
  {
    RtcDaysCounts(x);
    WeekdayOfCount(x.year, x.month, x.day);
  }

  const DAYS_PER_MONTH: seq<seq<nat>> :=
    [[31, 28, 31, 30, 31, 30, 31, 31, 30, 31, 30, 31],
     [31, 29, 31, 30, 31, 30, 31, 31, 30, 31, 30, 31]]

  /** `GetDayOfYear`: add up the months in front. */
  method GetDayOfYear(y: nat, m: nat, d: nat) returns (ydays: nat)
    requires 1 <= m <= 12 && d <= 31
    ensures ydays == DaysBeforeMonth(y, m) + d
  {
    var leap := 0;
    if y % 400 == 0 {
      leap := 1;
    } else if y % 4 == 0 && !(y % 100 == 0) {
      leap := 1;
    }
    ydays := SumMonths(y, leap, m);
    SmallSum(ydays, d);
    ydays := U16(ydays + d);
  }

  /** The loop of `GetDayOfYear`. */
  method SumMonths(y: nat, leap: nat, m: nat) returns (ydays: nat)
    requires 1 <= m <= 12 && leap == One(Leap(y))
    ensures ydays == DaysBeforeMonth(y, m) <= 341
  {
    ydays := 0;
    var i := 0;
    while i < m - 1
      invariant 0 <= i <= m - 1 && ydays == DaysBeforeMonth(y, i + 1) && ydays <= 31 * i
    {
      TableRow(y, i);
      SmallSum(ydays, DAYS_PER_MONTH[leap][i]);
      ydays := U16(ydays + DAYS_PER_MONTH[leap][i]);
      i := i + 1;
    }
  }

  lemma SmallSum(a: nat, b: nat)
    requires a + b < 0x1_0000
    ensures U16(a + b) == a + b
  {}

  lemma TableRow(y: nat, i: nat)
    requires i < 12
    ensures DAYS_PER_MONTH[One(Leap(y))][i] == DaysInMonth(y, i + 1)
  {}

  // ----- ts_to_date -----

  datatype Tm = Tm(sec: int, min: int, hour: int, mday: int, mon: int, year: int, wday: int, yday: int)

  /** The date of a `struct tm`, whose year counts from 1900. */
  function TmDate(tm: Tm): Date { Date(tm.year + 1900, tm.mon, tm.mday) }

  function Jan1(y: nat): Date { Date(y, 1, 1) }

  /**
   `ts_to_date`: NULL below 1; otherwise the time of day, the one valid date with that
   day number and, while the year fits 16 bits, its weekday and its distance from 1 January.
   */
  method TsToDate(timestamp: int) returns (r: Option<Tm>)
    requires timestamp / 86400 <= MAX_DAY
    ensures r.None? <==> timestamp < 1
    ensures r.Some? ==>
              var tm := r.value; var day := timestamp / 86400;
              && 0 <= tm.sec < 60 && 0 <= tm.min < 60 && 0 <= tm.hour < 24
              && ValidDate(TmDate(tm)) && DayNumber(TmDate(tm)) == day
              && timestamp == 86400 * day + 3600 * tm.hour + 60 * tm.min + tm.sec
              && (TmDate(tm).year <= 65535 ==>
                    && tm.wday == (day + 3) % 7 + 1
                    && tm.yday == day - DayNumber(Jan1(TmDate(tm).year)) + 1)
  {
    if timestamp < 1 {
      return None;
    }
    var sec, min, hour := timestamp % 60, timestamp / 60 % 60, timestamp / 60 / 60 % 24;
    var times := timestamp / 60 / 60 / 24;
    TimeOfDay(timestamp);
    var x, wday, yday := DateFields(times);
    r := Some(Tm(sec, min, hour, x.day, x.month, x.year - 1900, wday, yday));
    assert TmDate(r.value) == x;
  }

  /** The part of `ts_to_date` that works on the day number. */
  method DateFields(times: nat) returns (x: Date, wday: int, yday: nat)
    requires times <= MAX_DAY
    ensures ValidDate(x) && x.year >= 1970 && DayNumber(x) == times
    ensures x.year <= 65535 ==> wday == (times + 3) % 7 + 1 && yday == times - DayNumber(Jan1(x.year)) + 1
  {
    x := DateOfDay(times);
    DateOfDayCorrect(times);
    wday, yday := WeekAndYearDay(x);
  }

  /** `GetDayOfWeek` and `GetDayOfYear` as `ts_to_date` calls them, with the year cut to 16 bits. */
  method WeekAndYearDay(x: Date) returns (wday: int, yday: nat)
    requires ValidDate(x) && x.year >= 1
    ensures x.year <= 65535 ==> wday == (DayNumber(x) + 3) % 7 + 1 && yday == DayNumber(x) - DayNumber(Jan1(x.year)) + 1
  {
    var y := U16(x.year);
    wday := DayOfWeek(y, x.month, x.day);
    yday := GetDayOfYear(y, x.month, x.day);
    if x.year <= 65535 {
      U16Fixed(x.year);
      DayOfWeekCorrect(x);
    }
  }

  lemma U16Fixed(y: nat)
    requires y <= 65535
    ensures U16(y) == y
  {}

  lemma TimeOfDay(t: nat)
    ensures t / 60 / 60 / 24 == t / 86400
    ensures t == 86400 * (t / 86400) + 3600 * (t / 60 / 60 % 24) + 60 * (t / 60 % 60) + t % 60
  {
    var a, b := t / 60, t / 60 / 60;
    assert t == 60 * a + t % 60 && a == 60 * b + a % 60 && b == 24 * (b / 24) + b % 24;
  }

  // ----- RTC_DateToTimestamp -----

  /** The clock registers, each one byte. */
  datatype Rtc = Rtc(century: nat, year: nat, month: nat, day: nat, hours: nat, min: nat, sec: nat)

  function RtcYear(x: Rtc): nat { x.year + 100 * x.century }

  predicate ValidRtc(x: Rtc) {
    && x.century < 256 && x.year < 256 && RtcYear(x) >= 1
    && ValidDate(Date(RtcYear(x), x.month, x.day))
    && x.hours < 24 && x.min < 60 && x.sec < 60
  }

  /** Seconds from the epoch to a clock reading, by counting days. */
  function Seconds(x: Rtc): int
    requires ValidRtc(x)
  {
    86400 * DayNumber(Date(RtcYear(x), x.month, x.day)) + 3600 * x.hours + 60 * x.min + x.sec
  }

  /** `RTC_DateToTimestamp`, step by step in 32-bit arithmetic. */
  function DateToTimestamp(x: Rtc): nat
    requires x.century < 256 && x.year < 256 && x.month < 256
  {
    var y := U16(x.year + x.century * 100);
    var days := if x.month <= 2 then DayCount32(U16(y - 1), x.month + 12, x.day) else DayCount32(y, x.month, x.day);
    U32(U32(days * 86400) + 3600 * x.hours + 60 * x.min + x.sec)
  }

  function DayCount32(y: nat, m: nat, d: nat): nat {
    U32(U32(U32(365 * y + y / 4 - y / 100 + y / 400) + 30 * m + 3 * (m + 1) / 5 + d) - 719561)
  }

  lemma WrapDays(t: int, c: int)
    ensures U32(U32(U32(t) * 86400) + c) == U32(t * 86400 + c)
  {
    var q := t / U32_LIMIT;
    assert t == U32(t) + U32_LIMIT * q;
    WrapAdd(U32(t) * 86400, c);
    WrapShift(U32(t) * 86400 + c, 86400 * q);
  }

  lemma DayCountWraps(y: nat, m: nat, d: nat)
    ensures DayCount32(y, m, d) == U32(MarchDays(y, m, d))
  {
    var a := 365 * y + y / 4 - y / 100 + y / 400;
    var b := 30 * m + 3 * (m + 1) / 5 + d;
    WrapAdd(a, b);
    WrapAdd(a + b, -719561);
  }

  lemma RtcDayCountWraps(x: Rtc)
    requires x.century < 256 && x.year < 256 && 1 <= x.month <= 12 && RtcYear(x) >= 1
    ensures DateToTimestamp(x) == U32(U32(U32(RtcDays(RtcYear(x), x.month, x.day)) * 86400) + 3600 * x.hours + 60 * x.min + x.sec)
  {
    var y := RtcYear(x);
    assert U16(x.year + x.century * 100) == y && U16(y - 1) == y - 1;
    if x.month <= 2 {
      DayCountWraps(y - 1, x.month + 12, x.day);
    } else {
      DayCountWraps(y, x.month, x.day);
    }
  }

  /** The conversion is the true second count reduced to 32 bits. */
  lemma DateToTimestampWraps(x: Rtc)
    requires ValidRtc(x)
    ensures DateToTimestamp(x) == U32(Seconds(x))
  {
    RtcDaysCounts(Date(RtcYear(x), x.month, x.day));
    RtcSecondsWrap(x, DayNumber(Date(RtcYear(x), x.month, x.day)), Seconds(x));
  }

  lemma RtcSecondsWrap(x: Rtc, days: int, t: int)
    requires x.century < 256 && x.year < 256 && 1 <= x.month <= 12 && RtcYear(x) >= 1
    requires days == RtcDays(RtcYear(x), x.month, x.day)
    requires t == 86400 * days + 3600 * x.hours + 60 * x.min + x.sec
    ensures DateToTimestamp(x) == U32(t)
  {
    RtcDayCountWraps(x);
    WrapDays(days, 3600 * x.hours + 60 * x.min + x.sec);
  }

  /** It is the true second count exactly from 1970-01-01 00:00:00 to 2106-02-07 06:28:15. */
  lemma DateToTimestampExactIff(x: Rtc)
    requires ValidRtc(x)
    ensures DateToTimestamp(x) == Seconds(x) <==> 0 <= Seconds(x) < U32_LIMIT
  {
    DateToTimestampWraps(x);
    U32Fixed(Seconds(x));
  }

  lemma U32Fixed(t: int)
    ensures U32(t) == t <==> 0 <= t < U32_LIMIT
  {}

  /** The clock reading a `struct tm` stands for. */
  predicate SameMoment(tm: Tm, x: Rtc) {
    && TmDate(tm) == Date(RtcYear(x), x.month, x.day)
    && tm.hour == x.hours && tm.min == x.min && tm.sec == x.sec
  }

  /** From the clock to a timestamp and back: every field returns, up to 2106-02-07 06:28:15. */
  method ClockRoundTrip(x: Rtc) returns (r: Option<Tm>)
    requires ValidRtc(x) && 1 <= Seconds(x) < U32_LIMIT
    ensures r.Some? && SameMoment(r.value, x)
  {
    DateToTimestampExactIff(x);
    var t := DateToTimestamp(x);
    r := TsToDate(t);
    SplitSeconds(t / 86400, r.value.hour, r.value.min, r.value.sec, DayNumber(Date(RtcYear(x), x.month, x.day)), x.hours, x.min, x.sec);
    DayNumberInjective(TmDate(r.value), Date(RtcYear(x), x.month, x.day));
  }

  lemma SplitSeconds(d: int, h: int, m: int, s: int, d': int, h': int, m': int, s': int)
    requires 0 <= h < 24 && 0 <= m < 60 && 0 <= s < 60 && 0 <= h' < 24 && 0 <= m' < 60 && 0 <= s' < 60
    requires 86400 * d + 3600 * h + 60 * m + s == 86400 * d' + 3600 * h' + 60 * m' + s'
    ensures d == d' && h == h' && m == m' && s == s'
  {}
}
