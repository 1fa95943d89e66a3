/**
 The proleptic Gregorian calendar of `date.h`: the closed-form conversion between
 year/month/day and a count of days since 1970-01-01, and the calendar it is meant to follow.
 The functions up to `Less` transcribe the code (C++ division truncates toward zero and a
 `year` is a 16-bit `short`); the rest is the calendar itself and the proofs that relate the two.
 */
module Civil {

  /** Integer division as C++ computes it: rounded toward zero. */
  function TruncDiv(a: int, b: int): int
    requires b > 0
  {
    if a >= 0 then a / b else -(-a / b)
  }

  /** The value of an `int` stored in the 16-bit `short` of a `year`. */
  function Short(n: int): (y: int)
    ensures -0x8000 <= y < 0x8000
    ensures -0x8000 <= n < 0x8000 ==> y == n
  {
    (n + 0x8000) % 0x1_0000 - 0x8000
  }

  const MIN_YEAR := -32767
  const MAX_YEAR := 32767

  /** A year/month/day triple as the class stores it, not necessarily a date of the calendar. */
  datatype Ymd = Ymd(y: int, m: int, d: int)

  predicate IsLeap(y: int) {
    y % 4 == 0 && (y % 100 != 0 || y % 400 == 0)
  }

  predicate YearOk(y: int) {
    MIN_YEAR <= y <= MAX_YEAR
  }

  const MONTH_LENGTHS: seq<int> := [31, 28, 31, 30, 31, 30, 31, 31, 30, 31, 30, 31]

  /** `year_month_day_last::day`. */
  function LastDay(y: int, m: int): int {
    if (m != 2 || !IsLeap(y)) && 1 <= m <= 12 then MONTH_LENGTHS[m - 1] else 29
  }

  /** `year_month_day::ok`. */
  predicate Ok(x: Ymd) {
    YearOk(x.y) && 1 <= x.m <= 12 && 1 <= x.d <= LastDay(x.y, x.m)
  }

  /** `year_month_day::to_days`. */
  function ToDays(x: Ymd): int
  {
    var y := x.y - if x.m <= 2 then 1 else 0;
    var era := TruncDiv(if y >= 0 then y else y - 399, 400);
    var yoe := y - era * 400;
    var doy := (153 * (if x.m > 2 then x.m - 3 else x.m + 9) + 2) / 5 + x.d - 1;
    var doe := yoe * 365 + yoe / 4 - yoe / 100 + doy;
    era * 146097 + doe - 719468
  }

  /** `year_month_day::from_days`. */
  function FromDays(days: int): Ymd
  {
    var z := days + 719468;
    var era := TruncDiv(if z >= 0 then z else z - 146096, 146097);
    var doe := z - era * 146097;
    var yoe := YearOfEra(doe);
    var y := yoe + era * 400;
    var doy := doe - (365 * yoe + yoe / 4 - yoe / 100);
    var mp := MonthOfYear(doy);
    var d := doy - (153 * mp + 2) / 5 + 1;
    var m := if mp < 10 then mp + 3 else mp - 9;
    Ymd(Short(y + if m <= 2 then 1 else 0), m, d)
  }

  /** The year-of-era expression inside `from_days`. */
  function YearOfEra(doe: int): int {
    (doe - doe / 1460 + doe / 36524 - doe / 146096) / 365
  }

  /** The month expression inside `from_days`, counting months from March. */
  function MonthOfYear(doy: int): int {
    (5 * doy + 2) / 153
  }

  /** `operator<` on `year_month_day`. */
  predicate Less(a: Ymd, b: Ymd) {
    if a.y < b.y then true
    else if a.y > b.y then false
    else if a.m < b.m then true
    else if a.m > b.m then false
    else a.d < b.d
  }

  /** The next date of the calendar, by the leap-year rule and the table of month lengths alone. */
  function Next(x: Ymd): Ymd {
    if x.d < LastDay(x.y, x.m) then Ymd(x.y, x.m, x.d + 1)
    else if x.m < 12 then Ymd(x.y, x.m + 1, 1)
    else Ymd(x.y + 1, 1, 1)
  }

  // ----- Years of an era, counted from 1 March -----

  /** Days of an era before its year `yoe`. */
  function YearStart(yoe: int): int {
    365 * yoe + yoe / 4 - yoe / 100
  }

  /** The length of year `yoe` of an era: its February belongs to calendar year `yoe + 1`. */
  function YearLength(yoe: int): int {
    if IsLeap(yoe + 1) then 366 else 365
  }

  lemma YearStartStep(yoe: int)
    requires 0 <= yoe < 400
    ensures yoe < 399 ==> YearStart(yoe + 1) == YearStart(yoe) + YearLength(yoe)
    ensures yoe == 399 ==> YearStart(yoe) + YearLength(yoe) == 146097
  {
    NextMultiple(yoe, 4);
    NextMultiple(yoe, 100);
  }

  lemma NextMultiple(n: nat, d: nat)
    requires d == 4 || d == 100
    ensures (n + 1) / d == n / d + if (n + 1) % d == 0 then 1 else 0
  {
    if d == 4 {
      assert (n + 1) / 4 == n / 4 + if (n + 1) % 4 == 0 then 1 else 0;
    } else {
      assert (n + 1) / 100 == n / 100 + if (n + 1) % 100 == 0 then 1 else 0;
    }
  }

  lemma CenturyOfEra(yoe: int, r: int)
    requires 0 <= yoe < 400 && 0 <= r < YearLength(yoe)
    ensures var doe := YearStart(yoe) + r; doe / 36524 - doe / 146096 == yoe / 100
  {
    var c, t := yoe / 100, yoe % 100;
    var doe := YearStart(yoe) + r;
    assert yoe / 4 == 25 * c + t / 4;
    assert doe == 36524 * c + 365 * t + t / 4 + r;
    if yoe == 399 && r == 365 {
      assert doe == 146096;
    } else {
      assert 0 <= 365 * t + t / 4 + r < 36524;
      assert doe / 36524 == c;
    }
  }

  /** The year-of-era expression returns the year that contains the day. */
  lemma YearOfEraIsYear(yoe: int, r: int)
    requires 0 <= yoe < 400 && 0 <= r < YearLength(yoe)
    ensures YearOfEra(YearStart(yoe) + r) == yoe
  {
    var doe := YearStart(yoe) + r;
    CenturyOfEra(yoe, r);
    var q, s, c := yoe / 4, yoe % 4, yoe / 100;
    var excess := 365 * s + q - c + r;
    assert doe == 1460 * q + excess;
    assert 0 <= excess < 2920;
    assert doe / 1460 == q + if excess >= 1460 then 1 else 0;
    assert r == 365 ==> s == 3;
    assert r == 0 ==> excess < 1460;
  }

  /** Every day of an era lies in one of its years. */
  lemma YearExists(doe: int) returns (yoe: int)
    requires 0 <= doe < 146097
    ensures 0 <= yoe < 400 && 0 <= doe - YearStart(yoe) < YearLength(yoe)
  {
    yoe := 0;
    while doe - YearStart(yoe) >= YearLength(yoe)
      invariant 0 <= yoe < 400 && YearStart(yoe) <= doe
      decreases 400 - yoe
    {
      YearStartStep(yoe);
      yoe := yoe + 1;
    }
  }

  // ----- Months of a year, counted from March -----

  /** The position of month `m` in a year that starts in March. */
  function MarchMonth(m: int): int {
    if m > 2 then m - 3 else m + 9
  }

  function MonthStart(mp: int): int {
    (153 * mp + 2) / 5
  }

  /** The closed form of the month starts adds up the table of month lengths. */
  lemma MonthStartStep(y: int, m: int)
    requires 1 <= m <= 12
    ensures m != 2 ==> MonthStart(MarchMonth(m) + 1) == MonthStart(MarchMonth(m)) + LastDay(y, m)
    ensures m == 2 ==> MonthStart(MarchMonth(m)) + LastDay(y, m) == if IsLeap(y) then 366 else 365
  {
  }

  lemma MonthOfDay(mp: int, k: int)
    requires 0 <= mp <= 11 && 0 <= k
    requires if mp < 11 then MonthStart(mp) + k < MonthStart(mp + 1) else MonthStart(mp) + k <= 365
    ensures MonthOfYear(MonthStart(mp) + k) == mp
  {
  }

  // ----- The two directions of the bijection -----

  lemma FloorDivisions(y: int)
    ensures TruncDiv(if y >= 0 then y else y - 399, 400) == y / 400
    ensures TruncDiv(if y >= 0 then y else y - 146096, 146097) == y / 146097
  {
  }

  /** The year that starts on 1 March and holds the date. */
  function MarchYear(x: Ymd): int {
    x.y - if x.m <= 2 then 1 else 0
  }

  /** Days before 1 March of year `y`, counted from 1 March of year 0. */
  function MarchBase(y: int): int {
    y / 400 * 146097 + YearStart(y % 400)
  }

  /** The day of the March year. */
  function MarchDay(x: Ymd): int {
    MonthStart(MarchMonth(x.m)) + x.d - 1
  }

  lemma ToDaysSplit(x: Ymd)
    ensures ToDays(x) == MarchBase(MarchYear(x)) + MarchDay(x) - 719468
  {
    FloorDivisions(MarchYear(x));
  }

  lemma LeapOfEra(y: int)
    ensures IsLeap(y % 400 + 1) == IsLeap(y + 1)
  {
    DropMultiple4(y / 400 * 100, y % 400 + 1);
    DropMultiple100(y / 400 * 4, y % 400 + 1);
    DropMultiple400(y / 400, y % 400 + 1);
  }

  lemma DropMultiple4(q: int, r: int)
    ensures (4 * q + r) % 4 == r % 4
  {
  }

  lemma DropMultiple100(q: int, r: int)
    ensures (100 * q + r) % 100 == r % 100
  {
  }

  lemma DropMultiple400(q: int, r: int)
    ensures (400 * q + r) % 400 == r % 400
  {
  }

  lemma MarchDayInYear(x: Ymd)
    requires 1 <= x.m <= 12 && 1 <= x.d <= LastDay(x.y, x.m)
    ensures 0 <= MarchDay(x) < YearLength(MarchYear(x) % 400)
  {
    LeapOfEra(MarchYear(x));
    MonthStartStep(x.y, x.m);
  }

  lemma EraOf(era: int, doe: int)
    requires 0 <= doe < 146097
    ensures (era * 146097 + doe) / 146097 == era
  {
  }

  /** `from_days` takes apart a day number that is put together from an era, a year, a month and a day. */
  lemma FromDaysOfParts(era: int, yoe: int, mp: int, k: int)
    requires 0 <= yoe < 400 && 0 <= mp <= 11 && 0 <= k
    requires MonthStart(mp) + k < if mp < 11 then MonthStart(mp + 1) else YearLength(yoe)
    ensures FromDays(era * 146097 + YearStart(yoe) + MonthStart(mp) + k - 719468)
         == var m := if mp < 10 then mp + 3 else mp - 9;
            Ymd(Short(era * 400 + yoe + if m <= 2 then 1 else 0), m, k + 1)
  {
    var doy := MonthStart(mp) + k;
    var doe := YearStart(yoe) + doy;
    assert 0 <= doy < YearLength(yoe) && doy <= 365 by { hide Short, FromDays, YearOfEra; }
    hide *;
    YearStartMonotone(yoe);
    FromDaysOfEra(era, doe);
    YearOfEraIsYear(yoe, doy);
    MonthOfDay(mp, k);
  }

  lemma FromDaysOfEra(era: int, doe: int)
    requires 0 <= doe < 146097
    ensures FromDays(era * 146097 + doe - 719468)
         == var yoe := YearOfEra(doe);
            var doy := doe - YearStart(yoe);
            var mp := MonthOfYear(doy);
            var m := if mp < 10 then mp + 3 else mp - 9;
            Ymd(Short(yoe + era * 400 + if m <= 2 then 1 else 0), m, doy - MonthStart(mp) + 1)
  {
    hide YearOfEra, MonthOfYear, Short, TruncDiv;
    EraOf(era, doe);
    FloorDivisions(era * 146097 + doe);
  }

  lemma YearStartMonotone(yoe: int)
    requires 0 <= yoe < 400
    ensures 0 <= YearStart(yoe) && YearStart(yoe) + YearLength(yoe) <= 146097
  {
  }

  /** Converting a valid date to a day number and back gives the date. */
  lemma FromDaysToDays(x: Ymd)
    requires Ok(x)
    ensures FromDays(ToDays(x)) == x
  {
    hide ToDays, FromDays, LastDay, IsLeap;
    var y := MarchYear(x);
    ToDaysSplit(x);
    MarchDayInYear(x);
    MonthStartStep(x.y, x.m);
    FromDaysOfParts(y / 400, y % 400, MarchMonth(x.m), x.d - 1);
  }

  /** Every day number is `to_days` of exactly one triple with a month, a day of that month and some year. */
  lemma DateExists(z: int) returns (x: Ymd)
    ensures 1 <= x.m <= 12 && 1 <= x.d <= LastDay(x.y, x.m) && ToDays(x) == z
    ensures FromDays(z) == x.(y := Short(x.y))
  {
    hide *;
    var era, doe := EraExists(z);
    var yoe, doy := YearAndDay(doe);
    var mp := MonthExists(doy);
    var k := doy - MonthStart(mp);
    var y := era * 400 + yoe;
    x := DateOfParts(era, yoe, mp, k);
    FromDaysOfParts(era, yoe, mp, k);
  }

  lemma EraExists(z: int) returns (era: int, doe: int)
    ensures z == era * 146097 + doe - 719468 && 0 <= doe < 146097
  {
    era, doe := (z + 719468) / 146097, (z + 719468) % 146097;
  }

  lemma YearAndDay(doe: int) returns (yoe: int, doy: int)
    requires 0 <= doe < 146097
    ensures 0 <= yoe < 400 && doe == YearStart(yoe) + doy && 0 <= doy < YearLength(yoe) <= 366
  {
    yoe := YearExists(doe);
    doy := doe - YearStart(yoe);
  }

  lemma DateOfParts(era: int, yoe: int, mp: int, k: int) returns (x: Ymd)
    requires 0 <= yoe < 400 && 0 <= mp <= 11 && 0 <= k
    requires MonthStart(mp) + k < if mp < 11 then MonthStart(mp + 1) else YearLength(yoe)
    ensures x.m == if mp < 10 then mp + 3 else mp - 9
    ensures x.y == era * 400 + yoe + if x.m <= 2 then 1 else 0
    ensures x.d == k + 1 <= LastDay(x.y, x.m)
    ensures ToDays(x) == era * 146097 + YearStart(yoe) + MonthStart(mp) + k - 719468
  {
    hide ToDays, YearStart, LastDay, MonthStart, IsLeap;
    var y, m := era * 400 + yoe, if mp < 10 then mp + 3 else mp - 9;
    x := Ymd(y + if m <= 2 then 1 else 0, m, k + 1);
    YearParts(era, yoe);
    LeapOfEra(y);
    MonthStartStep(x.y, m);
    ToDaysSplit(x);
  }

  lemma YearParts(era: int, yoe: int)
    requires 0 <= yoe < 400
    ensures (era * 400 + yoe) / 400 == era && (era * 400 + yoe) % 400 == yoe
  {
  }

  lemma MonthExists(doy: int) returns (mp: int)
    requires 0 <= doy <= 365
    ensures 0 <= mp <= 11 && MonthStart(mp) <= doy && (mp < 11 ==> doy < MonthStart(mp + 1))
  {
    mp := 0;
    while mp < 11 && MonthStart(mp + 1) <= doy
      invariant 0 <= mp <= 11 && MonthStart(mp) <= doy
    {
      mp := mp + 1;
    }
  }

  // ----- Day-by-day counting -----

  lemma EpochIsZero()
    ensures ToDays(Ymd(1970, 1, 1)) == 0
  {
  }

  lemma MarchYearStep(y: int)
    ensures MarchBase(y + 1) == MarchBase(y) + if IsLeap(y + 1) then 366 else 365
  {
    hide IsLeap;
    LeapOfEra(y);
    YearStartStep(y % 400);
    if y % 400 == 399 {
      assert (y + 1) / 400 == y / 400 + 1 && (y + 1) % 400 == 0;
    } else {
      assert (y + 1) / 400 == y / 400 && (y + 1) % 400 == y % 400 + 1;
    }
  }

  /** The closed form counts days one by one: the next date of the calendar is one day later. */
  lemma ToDaysCountsDays(x: Ymd)
    requires 1 <= x.m <= 12 && 1 <= x.d <= LastDay(x.y, x.m)
    ensures ToDays(Next(x)) == ToDays(x) + 1
  {
    hide ToDays, LastDay, IsLeap, MonthStart, MarchBase;
    ToDaysSplit(x);
    ToDaysSplit(Next(x));
    MonthStartStep(x.y, x.m);
    MarchYearStep(x.y - 1);
    FirstOfMarch();
  }

  lemma FirstOfMarch()
    ensures MonthStart(0) == 0 && MonthStart(10) == 306
  {
  }

  lemma NextIsOk(x: Ymd)
    requires Ok(x)
    ensures Ok(Next(x)) <==> x != Ymd(MAX_YEAR, 12, 31)
  {
  }

  /** Whole years in between: the first day of a later year is later than every day of an earlier one. */
  lemma {:induction false} YearsInOrder(y1: int, y2: int)
    requires y1 < y2
    ensures ToDays(Ymd(y1, 12, 31)) < ToDays(Ymd(y2, 1, 1))
    decreases y2 - y1
  {
    hide ToDays, IsLeap;
    ToDaysCountsDays(Ymd(y1, 12, 31));
    if y1 + 1 < y2 {
      YearsInOrder(y1 + 1, y2);
      DaysWithinYear(Ymd(y1 + 1, 1, 1));
    }
  }

  lemma DaysWithinYear(x: Ymd)
    requires 1 <= x.m <= 12 && 1 <= x.d <= LastDay(x.y, x.m)
    ensures ToDays(Ymd(x.y, 1, 1)) <= ToDays(x) <= ToDays(Ymd(x.y, 12, 31))
    ensures ToDays(Ymd(x.y, 12, 31)) - ToDays(Ymd(x.y, 1, 1)) == if IsLeap(x.y) then 365 else 364
  {
    hide ToDays, LastDay, IsLeap, MarchBase;
    ToDaysSplit(x);
    ToDaysSplit(Ymd(x.y, 1, 1));
    ToDaysSplit(Ymd(x.y, 12, 31));
    MarchYearStep(x.y - 1);
    MonthStartStep(x.y, x.m);
    hide MonthStart;
  }

  lemma ToDaysMonotone(a: Ymd, b: Ymd)
    requires 1 <= a.m <= 12 && 1 <= a.d <= LastDay(a.y, a.m)
    requires 1 <= b.m <= 12 && 1 <= b.d <= LastDay(b.y, b.m)
    requires Less(a, b)
    ensures ToDays(a) < ToDays(b)
  {
    if a.y < b.y {
      hide ToDays, LastDay, IsLeap;
      DaysWithinYear(a);
      DaysWithinYear(b);
      YearsInOrder(a.y, b.y);
    } else {
      MonthsInOrder(a, b);
    }
  }

  lemma MonthsInOrder(a: Ymd, b: Ymd)
    requires 1 <= a.m <= 12 && 1 <= a.d <= LastDay(a.y, a.m) && 1 <= b.m <= 12 && 1 <= b.d
    requires a.y == b.y && (a.m < b.m || (a.m == b.m && a.d < b.d))
    ensures ToDays(a) < ToDays(b)
  {
    hide ToDays, LastDay, IsLeap, MarchBase;
    ToDaysSplit(a);
    ToDaysSplit(b);
    MonthStartStep(a.y, a.m);
    MarchYearStep(a.y - 1);
    MonthStartsGrow(MarchMonth(a.m) + 1, MarchMonth(b.m));
    hide MonthStart;
    FirstOfMarch();
  }

  lemma MonthStartsGrow(i: int, j: int)
    ensures i <= j ==> MonthStart(i) <= MonthStart(j)
  {
  }

  /** `to_days` preserves and reflects `operator<`. */
  lemma ToDaysOrder(a: Ymd, b: Ymd)
    requires Ok(a) && Ok(b)
    ensures Less(a, b) <==> ToDays(a) < ToDays(b)
  {
    if Less(a, b) {
      ToDaysMonotone(a, b);
    } else if Less(b, a) {
      ToDaysMonotone(b, a);
    } else {
      assert a == b;
    }
  }

  const MIN_DAYS := ToDays(Ymd(MIN_YEAR, 1, 1))
  const MAX_DAYS := ToDays(Ymd(MAX_YEAR, 12, 31))

  /** Converting a day number to a date and back gives the number exactly when its year fits in a `year`. */
  lemma ToDaysFromDays(z: int)
    ensures MIN_DAYS <= z <= MAX_DAYS <==> Ok(FromDays(z)) && ToDays(FromDays(z)) == z
  {
    hide ToDays, FromDays, LastDay;
    var x := DateExists(z);
    YearsInRange(x);
    if Ok(FromDays(z)) && ToDays(FromDays(z)) == z {
      YearsInRange(FromDays(z));
    }
  }

  lemma YearsInRange(x: Ymd)
    requires 1 <= x.m <= 12 && 1 <= x.d <= LastDay(x.y, x.m)
    ensures MIN_DAYS <= ToDays(x) <= MAX_DAYS <==> YearOk(x.y)
  {
    hide ToDays, IsLeap;
    var first, last := Ymd(MIN_YEAR, 1, 1), Ymd(MAX_YEAR, 12, 31);
    if x.y < MIN_YEAR { ToDaysMonotone(x, first); }
    else if x.y > MAX_YEAR { ToDaysMonotone(last, x); }
    else {
      if x != first { ToDaysMonotone(first, x); }
      if x != last { ToDaysMonotone(x, last); }
    }
  }

  /** The date `n` days after 1970-01-01, found by stepping through the calendar. */
  function After(n: nat): Ymd {
    if n == 0 then Ymd(1970, 1, 1) else Next(After(n - 1))
  }

  /** Both closed forms agree with stepping through the calendar one day at a time. */
  lemma {:induction false} ClosedFormsCount(n: nat)
    requires n <= MAX_DAYS
    ensures Ok(After(n)) && ToDays(After(n)) == n && FromDays(n) == After(n)
  {
    hide ToDays, FromDays;
    if n == 0 {
      EpochIsZero();
    } else {
      ClosedFormsCount(n - 1);
      ToDaysCountsDays(After(n - 1));
      NextIsOk(After(n - 1));
    }
    FromDaysToDays(After(n));
  }
}
