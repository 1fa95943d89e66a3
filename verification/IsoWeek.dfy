/**
 ISO week dates: the year and week that `%G` and `%V` print, and the date that `from_stream`
 puts together from `%G`, `%V` and a weekday. A `year` is a 16-bit `short`, so the year before
 the first and the year after the last one wrap around.
 */
module IsoWeek {
  import opened Civil
  import opened Options
  import opened Weekdays

  const THURSDAY := 4
  const MONDAY := 1
  const NOT_A_YEAR := -0x8000
  const NOT_A_WEEK := 100
  const NOT_A_WEEKDAY := 8

  /** The day after which `%G` and `%V` count the weeks of year `y`. */
  function Start(y: int): int {
    LastWeekdayToDays(Short(y - 1), 12, THURSDAY) + WeekdayMinus(MONDAY, THURSDAY)
  }

  /** `%G` of `to_stream`. */
  function IsoYear(ld: int): int {
    var y := FromDays(ld + 3).y;
    if ld < Start(y) then Short(y - 1) else y
  }

  /** `%V` of `to_stream`. */
  function IsoWeekNumber(ld: int): int {
    var y := FromDays(ld + 3).y;
    var st := if ld < Start(y) then Start(Short(y - 1)) else Start(y);
    TruncDiv(ld - st, 7) + 1
  }

  /** The date that `from_stream` computes from `%G`, `%V` and a weekday (0 is Sunday). */
  function FromIso(g: int, v: int, wd: int): Option<Ymd> {
    if g == NOT_A_YEAR || v == NOT_A_WEEK || wd == NOT_A_WEEKDAY then None
    else Some(FromDays(LastWeekdayToDays(Short(g - 1), 12, THURSDAY)
                       + WeekdayMinus(MONDAY, THURSDAY) + 7 * (v - 1) + WeekdayMinus(wd, MONDAY)))
  }

  // ----- Week dates as section 2.2.10 of ISO 8601 defines them -----

  /** 1 January of year `g`. */
  function NewYear(g: int): int {
    ToDays(Ymd(g, 1, 1))
  }

  /** The Monday of week 1 of year `g`, which is the week that contains 4 January. */
  function WeekOne(g: int): int {
    var d := NewYear(g) + 3;
    d - (d + 3) % 7
  }

  /** Day `z` is day `u` (1 is Monday) of week `v` of the ISO year `g`. */
  predicate IsIsoDate(z: int, g: int, v: int, u: int) {
    && 1 <= v && 1 <= u <= 7
    && z == WeekOne(g) + 7 * (v - 1) + u - 1
    && z < WeekOne(g + 1)
  }

  lemma NewYears(g: int)
    ensures NewYear(g) + 365 <= NewYear(g + 1) <= NewYear(g) + 366
    ensures NewYear(g + 1) == ToDays(Ymd(g, 12, 31)) + 1
  {
    LastOfDecember(g);
    ToDaysCountsDays(Ymd(g, 12, 31));
    DaysWithinYear(Ymd(g, 1, 1));
    hide ToDays, LastDay, IsLeap;
  }

  lemma LastOfDecember(g: int)
    ensures LastDay(g, 1) == LastDay(g, 12) == 31 && Next(Ymd(g, 12, 31)) == Ymd(g + 1, 1, 1)
  {
  }

  lemma WeekOneNearNewYear(g: int)
    ensures NewYear(g) - 3 <= WeekOne(g) <= NewYear(g) + 3
    ensures (WeekOne(g) + 3) % 7 == 0
  {
    hide NewYear;
    var d := NewYear(g) + 6;
    assert (d - d % 7) % 7 == 0;
  }

  /** Two multiples of seven apart by less than a week are equal. */
  lemma SameMonday(a: int, b: int)
    requires (a + 3) % 7 == 0 && (b + 3) % 7 == 0 && -7 < a - b < 7
    ensures a == b
  {
  }

  /** The last Thursday of December, plus four days, is the first Monday of the next ISO year. */
  lemma StartIsWeekOne(y: int)
    requires -0x8000 <= y < 0x8000
    ensures Start(y) == WeekOne(if y == -0x8000 then 0x8000 else y)
  {
    hide ToDays, LastWeekdayToDays, WeekOne, NewYear;
    var p := Short(y - 1);
    assert p == if y == -0x8000 then 0x7FFF else y - 1;
    LastWeekdayIsLast(p, 12, THURSDAY);
    WeekdayMinusIsMod7(MONDAY, THURSDAY);
    WeekOneNearNewYear(p + 1);
    NewYears(p);
    DayBeforeNewYear(p);
    FourDaysAfterThursday(LastWeekdayToDays(p, 12, THURSDAY));
    SameMonday(Start(y), WeekOne(p + 1));
  }

  lemma DayBeforeNewYear(p: int)
    ensures LastDay(p, 12) == 31 && NewYear(p + 1) == ToDays(Ymd(p, 12, 31)) + 1
  {
    hide ToDays, NewYear;
    NewYears(p);
  }

  lemma FourDaysAfterThursday(z: int)
    requires (z + 4) % 7 == THURSDAY
    ensures (z + 4 + 3) % 7 == 0
  {
  }

  /** The year of a day, found without the 16-bit `year`. */
  lemma YearOfDay(z: int) returns (y: int)
    ensures NewYear(y) <= z < NewYear(y + 1) && FromDays(z).y == Short(y)
  {
    hide ToDays, FromDays, Short, LastDay;
    var x := DateExists(z);
    y := x.y;
    DaysWithinYear(x);
    NewYears(y);
  }

  /** A day belongs to the ISO year of its calendar year three days later, or to the one before. */
  lemma WeekYearOfDay(z: int, y: int)
    requires NewYear(y) <= z + 3 < NewYear(y + 1)
    ensures WeekOne(y - 1) <= z < WeekOne(y + 1)
  {
    hide NewYear, WeekOne;
    NewYears(y - 1);
    WeekOneNearNewYear(y - 1);
    WeekOneNearNewYear(y + 1);
  }

  /** Counting weeks from the first Monday of its ISO year, a day lies in one of at most 53 weeks. */
  lemma WeeksOfYear(z: int, g: int)
    requires WeekOne(g) <= z < WeekOne(g + 1)
    ensures var v := (z - WeekOne(g)) / 7 + 1;
            1 <= v <= 53 && IsIsoDate(z, g, v, (z + 3) % 7 + 1)
  {
    WeeksInYear(g);
    WeekOneNearNewYear(g);
    hide NewYear, WeekOne;
    WeekAndDay(WeekOne(g), z);
  }

  /** An ISO year has at most 53 weeks. */
  lemma WeeksInYear(g: int)
    ensures 0 < WeekOne(g + 1) - WeekOne(g) <= 53 * 7
  {
    hide NewYear, WeekOne;
    NewYears(g);
    WeekOneNearNewYear(g);
    WeekOneNearNewYear(g + 1);
    MondaysApart(WeekOne(g), WeekOne(g + 1));
  }

  lemma MondaysApart(a: int, b: int)
    requires (a + 3) % 7 == 0 && (b + 3) % 7 == 0 && b - a <= 53 * 7 + 6
    ensures b - a <= 53 * 7
  {
  }

  lemma WeekAndDay(monday: int, z: int)
    requires (monday + 3) % 7 == 0 && 0 <= z - monday < 53 * 7
    ensures var v := (z - monday) / 7 + 1;
            1 <= v <= 53 && z == monday + 7 * (v - 1) + (z + 3) % 7
  {
    var k := z - monday;
    Mod7Periodic(k, (monday + 3) / 7);
    assert monday + 3 == 7 * ((monday + 3) / 7);
    assert (z + 3) % 7 == k % 7;
  }

  /** A day has only one ISO week date. */
  lemma IsoDateUnique(z: int, g: int, v: int, u: int, g': int, v': int, u': int)
    requires IsIsoDate(z, g, v, u) && IsIsoDate(z, g', v', u')
    ensures g == g' && v == v' && u == u'
  {
    hide NewYear, WeekOne;
    WeekOneNearNewYear(g);
    if g < g' { WeekOnesInOrder(g + 1, g'); }
    if g' < g { WeekOnesInOrder(g' + 1, g); }
  }

  lemma {:induction false} WeekOnesInOrder(a: int, b: int)
    requires a <= b
    ensures WeekOne(a) <= WeekOne(b)
    decreases b - a
  {
    hide NewYear, WeekOne;
    if a < b {
      NewYears(b - 1);
      WeekOneNearNewYear(b - 1);
      WeekOneNearNewYear(b);
      WeekOnesInOrder(a, b - 1);
    }
  }

  /** The ends of the representable years, where the 16-bit year wraps around. */
  lemma YearLimits()
    ensures WeekOne(MIN_YEAR) == MIN_DAYS + 2 && NewYear(MIN_YEAR) == MIN_DAYS
    ensures WeekOne(MAX_YEAR + 1) == MAX_DAYS + 1 == NewYear(MAX_YEAR + 1)
    ensures MIN_DAYS < 0 < MAX_DAYS - 7
  {
    hide ToDays, WeekOne;
    FirstYear();
    LastYear();
  }

  lemma FirstYear()
    ensures MIN_DAYS == -12687428 && WeekOne(MIN_YEAR) == MIN_DAYS + 2
  {
  }

  lemma LastYear()
    ensures MAX_DAYS == 11248737 && WeekOne(MAX_YEAR + 1) == MAX_DAYS + 1 == NewYear(MAX_YEAR + 1)
  {
  }

  /**
   What `%G`, `%V` and the weekday say about a date is its ISO week date, and the week is in 1..53,
   except on the first two days of the first representable year.
   */
  lemma FormatIsIso(z: int)
    requires MIN_DAYS <= z <= MAX_DAYS
    ensures MIN_DAYS + 2 <= z <==> IsIsoDate(z, IsoYear(z), IsoWeekNumber(z), (z + 3) % 7 + 1)
    ensures MIN_DAYS + 2 <= z <==> 1 <= IsoWeekNumber(z) <= 53
    ensures MIN_DAYS + 2 <= z <==> IsoYear(z) != NOT_A_YEAR
  {
    hide FromDays, Start, NewYear, WeekOne, IsIsoDate;
    hide LastDay, ToDays;
    var y := YearOfDay(z + 3);
    YearLimits();
    NewYearBounds(y, z + 3);
    WeekYearOfDay(z, y);
    StartIsWeekOne(Short(y));
    StartIsWeekOne(Short(Short(y) - 1));
    if z < WeekOne(y) {
      if y > MIN_YEAR {
        WeeksOfYear(z, y - 1);
        assert IsoYear(z) == y - 1 && IsoWeekNumber(z) == (z - WeekOne(y - 1)) / 7 + 1;
        if z < MIN_DAYS + 2 { WeekOnesInOrder(MIN_YEAR, y - 1); }
      } else {
        assert IsoWeekNumber(z) == TruncDiv(z - WeekOne(MAX_YEAR + 1), 7) + 1;
        assert IsoWeekNumber(z) < 1;
        assert !IsIsoDate(z, IsoYear(z), IsoWeekNumber(z), (z + 3) % 7 + 1) by { NoWeekZero(z, IsoYear(z), IsoWeekNumber(z)); }
      }
    } else {
      WeeksOfYear(z, y);
      if z < MIN_DAYS + 2 { WeekOnesInOrder(MIN_YEAR, y); }
    }
  }

  lemma NoWeekZero(z: int, g: int, v: int)
    requires v < 1
    ensures !IsIsoDate(z, g, v, (z + 3) % 7 + 1)
  {
  }

  lemma NewYearBounds(y: int, z: int)
    requires NewYear(y) <= z < NewYear(y + 1) && MIN_DAYS <= z <= MAX_DAYS + 3
    ensures MIN_YEAR <= y <= MAX_YEAR + 1
  {
    hide ToDays, NewYear;
    YearLimits();
    NewYears(MAX_YEAR + 1);
    if y < MIN_YEAR { NewYearsInOrder(y + 1, MIN_YEAR); }
    if y > MAX_YEAR + 1 { NewYearsInOrder(MAX_YEAR + 2, y); }
  }

  lemma {:induction false} NewYearsInOrder(a: int, b: int)
    requires a <= b
    ensures NewYear(a) <= NewYear(b)
    decreases b - a
  {
    hide NewYear;
    if a < b {
      NewYears(b - 1);
      NewYearsInOrder(a, b - 1);
    }
  }

  /** `from_stream` computes the day that the ISO week date names. */
  lemma FromIsoIsDay(z: int, g: int, v: int, wd: int)
    requires MIN_YEAR <= g <= MAX_YEAR && v != NOT_A_WEEK && 0 <= wd <= 6
    requires IsIsoDate(z, g, v, (wd - 1) % 7 + 1)
    ensures FromIso(g, v, wd) == Some(FromDays(z))
  {
    hide FromDays, LastWeekdayToDays, WeekOne;
    StartIsWeekOne(g);
    WeekdayMinusIsMod7(wd, MONDAY);
  }

  /**
   Reading back what `%G`, `%V` and the weekday printed gives the same date, for every
   representable date but the first two.
   */
  lemma IsoRoundTrip(z: int)
    requires MIN_DAYS <= z <= MAX_DAYS
    ensures MIN_DAYS + 2 <= z
       <==> FromIso(IsoYear(z), IsoWeekNumber(z), WeekdayFromDays(z)) == Some(FromDays(z))
  {
    hide FromDays, FromIso, IsoYear, IsoWeekNumber, WeekOne, IsIsoDate;
    FormatIsIso(z);
    DayCountFits();
    WeekdayFromDaysIsMod7(z);
    if MIN_DAYS + 2 <= z {
      Mod7Absorbs(z + 4, -1);
      IsoYearInRange(z);
      FromIsoIsDay(z, IsoYear(z), IsoWeekNumber(z), WeekdayFromDays(z));
    } else {
      NoYearNoDate(IsoYear(z), IsoWeekNumber(z), WeekdayFromDays(z));
    }
  }

  lemma NoYearNoDate(g: int, v: int, wd: int)
    requires g == NOT_A_YEAR
    ensures FromIso(g, v, wd) == None
  {
  }

  lemma IsoYearInRange(z: int)
    ensures -0x8000 <= IsoYear(z) < 0x8000
  {
    hide FromDays, Start;
    var y := YearOfDay(z + 3);
  }

  lemma DayCountFits()
    ensures -0x8000_0000 <= MIN_DAYS && MAX_DAYS < 0x7000_0000
  {
  }

  /** Printing a day given by an ISO week date prints that week date, if the day is representable. */
  lemma IsoParseFormat(g: int, v: int, wd: int, z: int)
    requires MIN_DAYS + 2 <= z <= MAX_DAYS && 0 <= wd <= 6
    requires IsIsoDate(z, g, v, (wd - 1) % 7 + 1)
    ensures IsoYear(z) == g && IsoWeekNumber(z) == v && WeekdayFromDays(z) == wd
  {
    hide IsIsoDate, IsoYear, IsoWeekNumber;
    FormatIsIso(z);
    IsoDateUnique(z, g, v, (wd - 1) % 7 + 1, IsoYear(z), IsoWeekNumber(z), (z + 3) % 7 + 1);
    DayCountFits();
    WeekdayFromDaysIsMod7(z);
    hide WeekdayFromDays;
    SameWeekday(wd, z);
  }

  lemma SameWeekday(wd: int, z: int)
    requires 0 <= wd <= 6 && (wd - 1) % 7 == (z + 3) % 7
    ensures (z + 4) % 7 == wd
  {
  }
}
