/** Weekdays, the nth weekday of a month and the last weekday of a month. */
module Weekdays {
  import opened Civil
  import opened Octets

  /** `weekday_from_days`, with `z` converted to a 32-bit unsigned number first. */
  function WeekdayFromDays(z: int): int {
    var u := z % WORD;
    if z >= -4 then (u + 4) % WORD % 7 else u % 7
  }

  /** `weekday - weekday`. */
  function WeekdayMinus(x: int, y: int): int {
    var wdu := x - y;
    var wk := TruncDiv(if wdu >= 0 then wdu else wdu - 6, 7);
    wdu - wk * 7
  }

  /** `weekday + days`; the constructor stores 7 as Sunday. */
  function WeekdayPlus(x: int, d: int): int {
    var wdu := x + d;
    var wk := TruncDiv(if wdu >= 0 then wdu else wdu - 6, 7);
    wdu - wk * 7
  }

  /** The wrap-around of the unsigned conversion never shows: 1970-01-01 was a Thursday (4). */
  lemma WeekdayFromDaysIsMod7(z: int)
    requires -0x8000_0000 <= z < 0x8000_0000
    ensures WeekdayFromDays(z) == (z + 4) % 7
  {
    if z < -4 {
      assert z % WORD == z + WORD;
      assert WORD == 613566756 * 7 + 4;
      Mod7Periodic(z + 4, 613566756);
    }
  }

  lemma WeekdayMinusIsMod7(x: int, y: int)
    ensures WeekdayMinus(x, y) == (x - y) % 7
  {
  }

  lemma WeekdayPlusIsMod7(x: int, d: int)
    ensures WeekdayPlus(x, d) == (x + d) % 7
  {
  }

  /** Reduction modulo 7 may be postponed. */
  lemma Mod7Absorbs(a: int, b: int)
    ensures (a % 7 + b) % 7 == (a + b) % 7 && (b - a % 7) % 7 == (b - a) % 7
  {
    Mod7Periodic(a % 7 + b, a / 7);
    Mod7Periodic(b - a % 7, -(a / 7));
  }

  lemma Mod7Periodic(a: int, q: int)
    ensures (a + 7 * q) % 7 == a % 7
  {
  }

  /** Weekdays form a circle of seven on which adding and subtracting days undo each other. */
  lemma WeekdayCircle(x: int, y: int, d: int)
    requires 0 <= x <= 6 && 0 <= y <= 6
    ensures 0 <= WeekdayPlus(x, d) <= 6
    ensures WeekdayPlus(y, WeekdayMinus(x, y)) == x
    ensures WeekdayMinus(WeekdayPlus(x, d), x) == d % 7
  {
    WeekdayMinusIsMod7(x, y);
    WeekdayPlusIsMod7(y, WeekdayMinus(x, y));
    WeekdayPlusIsMod7(x, d);
    WeekdayMinusIsMod7(WeekdayPlus(x, d), x);
    hide *;
    Mod7Absorbs(x - y, y);
    Mod7Absorbs(x + d, -x);
    Mod7Small(x);
  }

  lemma Mod7Small(x: int)
    requires 0 <= x <= 6
    ensures x % 7 == x
  {
  }

  lemma NextWeekday(z: int, d: int)
    requires -0x8000_0000 <= z < 0x8000_0000 && -0x8000_0000 <= z + d < 0x8000_0000
    ensures WeekdayFromDays(z + d) == WeekdayPlus(WeekdayFromDays(z), d)
  {
    hide WeekdayFromDays, WeekdayPlus;
    WeekdayFromDaysIsMod7(z);
    WeekdayFromDaysIsMod7(z + d);
    WeekdayPlusIsMod7(WeekdayFromDays(z), d);
    Mod7Absorbs(z + 4, d);
  }

  // ----- year_month_weekday -----

  /** The `index`-th weekday `wd` (0 is Sunday) of a month. */
  datatype Ymwd = Ymwd(y: int, m: int, wd: int, index: int)

  /** `year_month_weekday::ok`. */
  predicate YmwdOk(x: Ymwd) {
    if !YearOk(x.y) || !(1 <= x.m <= 12) || !(x.wd <= 6) || x.index < 1 then false
    else if x.index <= 4 then true
    else
      var d2 := WeekdayMinus(x.wd, WeekdayFromDays(ToDays(Ymd(x.y, x.m, 1)))) + (x.index - 1) * 7 + 1;
      d2 <= LastDay(x.y, x.m)
  }

  /** `year_month_weekday::from_days`. */
  function YmwdFromDays(z: int): Ymwd {
    var ymd := FromDays(z);
    Ymwd(ymd.y, ymd.m, WeekdayFromDays(z), (ymd.d - 1) / 7 + 1)
  }

  /** `year_month_weekday::to_days`. */
  function YmwdToDays(x: Ymwd): int {
    var d := ToDays(Ymd(x.y, x.m, 1));
    d + WeekdayMinus(x.wd, WeekdayFromDays(d)) + (x.index - 1) * 7
  }

  /** `year_month_weekday_last::to_days`. */
  function LastWeekdayToDays(y: int, m: int, wd: int): int {
    var d := ToDays(Ymd(y, m, LastDay(y, m)));
    d - WeekdayMinus(WeekdayFromDays(d), wd)
  }

  // ----- The calendar's own meaning of "the nth weekday" -----

  /** How many of the first `d` days of a month fall on weekday `wd`. */
  function Occurrences(y: int, m: int, wd: int, d: nat): nat {
    if d == 0 then 0
    else Occurrences(y, m, wd, d - 1) + if (ToDays(Ymd(y, m, 1)) + d - 1 + 4) % 7 == wd then 1 else 0
  }

  /** Day `d` of the month is its `index`-th `wd`. */
  predicate IsNth(x: Ymwd, d: int) {
    && 1 <= d <= LastDay(x.y, x.m)
    && (ToDays(Ymd(x.y, x.m, d)) + 4) % 7 == x.wd
    && Occurrences(x.y, x.m, x.wd, d) == x.index
  }

  lemma DayOfMonth(y: int, m: int, d: int)
    ensures ToDays(Ymd(y, m, d)) == ToDays(Ymd(y, m, 1)) + d - 1
  {
  }

  lemma FirstIsValid(y: int, m: int)
    requires 1 <= m <= 12
    ensures 28 <= LastDay(y, m) <= 31
  {
  }

  /** Every day of a representable year fits the 32-bit day count. */
  lemma DaysFit(x: Ymd)
    requires -0x8000 <= x.y < 0x8000 && 1 <= x.m <= 12 && 1 <= x.d <= LastDay(x.y, x.m)
    ensures -0x4000_0000 < ToDays(x) < 0x4000_0000
  {
    ToDaysSplit(x);
    MonthStartStep(x.y, x.m);
    hide ToDays;
    assert -83 <= MarchYear(x) / 400 <= 82;
  }

  /** The day of the first `wd` in the month. */
  function FirstDay(y: int, m: int, wd: int): int {
    (wd - (ToDays(Ymd(y, m, 1)) + 4)) % 7 + 1
  }

  lemma {:induction false} OccurrencesClosed(y: int, m: int, wd: int, d: nat)
    requires 0 <= wd <= 6
    ensures Occurrences(y, m, wd, d) == (d - FirstDay(y, m, wd) + 7) / 7
  {
    hide ToDays;
    var b := ToDays(Ymd(y, m, 1)) + 4;
    if d > 0 {
      OccurrencesClosed(y, m, wd, d - 1);
      StepCount(b, wd, d);
    }
  }

  lemma StepCount(b: int, wd: int, d: int)
    requires 0 <= wd <= 6
    ensures var f := (wd - b) % 7 + 1;
            (d - f + 7) / 7 == (d - 1 - f + 7) / 7 + if (b + d - 1) % 7 == wd then 1 else 0
  {
    var f := (wd - b) % 7 + 1;
    assert (b + d - 1 - wd) % 7 == (d - f) % 7;
    assert (b + d - 1) % 7 == wd <==> (d - f) % 7 == 0;
  }

  /** The day number that `to_days` gives, as a day of the month. */
  function NthDay(x: Ymwd): int {
    FirstDay(x.y, x.m, x.wd) + (x.index - 1) * 7
  }

  lemma ToDaysIsNthDay(x: Ymwd)
    requires -0x8000 <= x.y < 0x8000 && 1 <= x.m <= 12
    ensures YmwdToDays(x) == ToDays(Ymd(x.y, x.m, NthDay(x)))
    ensures 1 <= FirstDay(x.y, x.m, x.wd) <= 7
    ensures YmwdOk(x) <==> YearOk(x.y) && x.wd <= 6 && 1 <= x.index && NthDay(x) <= LastDay(x.y, x.m)
  {
    hide ToDays, WeekdayFromDays, WeekdayMinus, LastDay;
    var d := Ymd(x.y, x.m, 1);
    FirstIsValid(x.y, x.m);
    DaysFit(d);
    WeekdayFromDaysIsMod7(ToDays(d));
    WeekdayMinusIsMod7(x.wd, WeekdayFromDays(ToDays(d)));
    DayOfMonth(x.y, x.m, NthDay(x));
    Mod7Absorbs(ToDays(d) + 4, x.wd);
  }

  lemma NthDayWeekday(b: int, wd: int, d: int)
    requires 0 <= wd <= 6
    ensures var f := (wd - b) % 7 + 1; (b + d - 1) % 7 == wd <==> (d - f) % 7 == 0
  {
    var f := (wd - b) % 7 + 1;
    assert (b + d - 1 - wd) % 7 == (d - f) % 7;
  }

  /** Only one day of a month is its `index`-th `wd`, and it is the one the code computes. */
  lemma IsNthIsNthDay(x: Ymwd, d: int)
    requires 0 <= x.wd <= 6 && 1 <= x.index
    ensures IsNth(x, d) <==> d == NthDay(x) && d <= LastDay(x.y, x.m)
  {
    DayOfMonth(x.y, x.m, d);
    hide ToDays;
    var b := ToDays(Ymd(x.y, x.m, 1)) + 4;
    NthDayWeekday(b, x.wd, d);
    if 1 <= d {
      OccurrencesClosed(x.y, x.m, x.wd, d);
    }
  }

  /** `ok()` holds exactly when the month has an `index`-th `wd`. */
  lemma YmwdOkIffExists(x: Ymwd)
    requires YearOk(x.y) && 1 <= x.m <= 12 && 0 <= x.wd <= 6
    ensures YmwdOk(x) <==> 1 <= x.index && exists d :: IsNth(x, d)
  {
    hide YmwdOk, NthDay, FirstDay, LastDay, IsNth;
    ToDaysIsNthDay(x);
    if 1 <= x.index {
      IsNthIsNthDay(x, NthDay(x));
      forall d | IsNth(x, d) ensures d == NthDay(x) <= LastDay(x.y, x.m) {
        IsNthIsNthDay(x, d);
      }
    }
  }

  /** For a valid nth weekday, `to_days` gives the date that is the nth such weekday of the month. */
  lemma YmwdToDaysIsNth(x: Ymwd)
    requires YmwdOk(x) && 0 <= x.wd
    ensures 1 <= NthDay(x) <= LastDay(x.y, x.m) && IsNth(x, NthDay(x))
    ensures YmwdToDays(x) == ToDays(Ymd(x.y, x.m, NthDay(x)))
    ensures FromDays(YmwdToDays(x)) == Ymd(x.y, x.m, NthDay(x))
  {
    ToDaysIsNthDay(x);
    IsNthIsNthDay(x, NthDay(x));
    hide IsNth, ToDays, FromDays, YmwdToDays;
    FromDaysToDays(Ymd(x.y, x.m, NthDay(x)));
  }

  /** Nth-weekday dates survive the way to a day number and back. */
  lemma YmwdRoundTrip(x: Ymwd)
    requires YmwdOk(x) && 0 <= x.wd
    ensures YmwdFromDays(YmwdToDays(x)) == x
  {
    var d := NthDay(x);
    YmwdToDaysIsNth(x);
    ToDaysIsNthDay(x);
    var date := Ymd(x.y, x.m, d);
    DaysFit(date);
    WeekdayFromDaysIsMod7(ToDays(date));
    hide ToDays, FromDays, YmwdToDays, WeekdayFromDays, YmwdOk, LastDay;
    assert (d - 1) / 7 + 1 == x.index;
  }

  /** Every day number of a representable year survives the way to an nth-weekday date and back. */
  lemma YmwdFromDaysRoundTrip(z: int)
    requires MIN_DAYS <= z <= MAX_DAYS
    ensures YmwdOk(YmwdFromDays(z)) && YmwdToDays(YmwdFromDays(z)) == z
  {
    hide ToDays, FromDays, YmwdOk, YmwdToDays, IsNth, LastDay, FirstDay;
    ToDaysFromDays(z);
    var ymd, x := FromDays(z), YmwdFromDays(z);
    DaysFit(ymd);
    WeekdayFromDaysIsMod7(z);
    DayOfMonth(ymd.y, ymd.m, ymd.d);
    IndexFromDay(ymd, x);
    ToDaysIsNthDay(x);
  }

  lemma IndexFromDay(ymd: Ymd, x: Ymwd)
    requires x == Ymwd(ymd.y, ymd.m, (ToDays(ymd) + 4) % 7, (ymd.d - 1) / 7 + 1)
    requires 1 <= ymd.d
    ensures NthDay(x) == ymd.d
  {
    hide ToDays;
    DayOfMonth(ymd.y, ymd.m, ymd.d);
    SameWeekday(ToDays(Ymd(ymd.y, ymd.m, 1)) + 4, ymd.d);
  }

  /** The first day with the weekday of day `d`, and the weeks from there to `d`. */
  lemma SameWeekday(b: int, d: int)
    ensures ((b + d - 1) % 7 - b) % 7 + 1 + (d - 1) / 7 * 7 == d
  {
    Mod7Absorbs(b + d - 1, -b);
  }

  /** The last `wd` of a month: it is in the month, falls on `wd`, and a week later is another month. */
  lemma LastWeekdayIsLast(y: int, m: int, wd: int)
    requires -0x8000 <= y < 0x8000 && 1 <= m <= 12 && 0 <= wd <= 6
    ensures var z := LastWeekdayToDays(y, m, wd);
            && (z + 4) % 7 == wd
            && ToDays(Ymd(y, m, 1)) + 21 <= z <= ToDays(Ymd(y, m, LastDay(y, m))) < z + 7
  {
    hide ToDays, WeekdayFromDays, WeekdayMinus, LastDay;
    var end := Ymd(y, m, LastDay(y, m));
    FirstIsValid(y, m);
    DayOfMonth(y, m, LastDay(y, m));
    DaysFit(end);
    WeekdayFromDaysIsMod7(ToDays(end));
    WeekdayMinusIsMod7(WeekdayFromDays(ToDays(end)), wd);
    Mod7Absorbs(ToDays(end) + 4, -wd);
    Mod7Absorbs(ToDays(end) + 4 - wd, ToDays(end) + 4);
  }
}
