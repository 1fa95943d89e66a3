/** Month arithmetic of `month` and `year_month`. */
module MonthArithmetic {
  import opened Civil
  import opened Octets

  /** `month + months`. */
  function MonthPlus(m: int, dm: int): int {
    var mu := m + dm - 1;
    var yr := TruncDiv(if mu >= 0 then mu else mu - 11, 12);
    mu - yr * 12 + 1
  }

  /** `month - month`, in 32-bit unsigned arithmetic. */
  function MonthMinus(x: int, y: int): int {
    var d := (x - y) % WORD;
    if d <= 11 then d else (d + 12) % WORD
  }

  datatype YearMonth = YearMonth(y: int, m: int)

  predicate Ok(x: YearMonth) {
    -0x8000 <= x.y < 0x8000 && 1 <= x.m <= 12
  }

  /** `year_month + months`. */
  function Plus(ym: YearMonth, dm: int): YearMonth {
    var dmi := ym.m - 1 + dm;
    var dy := TruncDiv(if dmi >= 0 then dmi else dmi - 11, 12);
    YearMonth(Short(ym.y + dy), dmi - dy * 12 + 1)
  }

  /** `year_month - months`. */
  function Minus(ym: YearMonth, dm: int): YearMonth {
    Plus(ym, -dm)
  }

  /** `year_month - year_month`: whole years converted to months, plus a wrapped difference of months. */
  function Between(x: YearMonth, y: YearMonth): int {
    var dm := (x.m - y.m) % WORD;
    (x.y - y.y) * 12 + if dm < WORD / 2 then dm else dm - WORD
  }

  /** Months counted from January of year 0. */
  function Index(x: YearMonth): int {
    x.y * 12 + x.m - 1
  }

  lemma Division(dmi: int)
    ensures TruncDiv(if dmi >= 0 then dmi else dmi - 11, 12) == dmi / 12
  {
  }

  lemma PlusIsFloor(ym: YearMonth, dm: int)
    ensures Plus(ym, dm) == YearMonth(Short(ym.y + (ym.m - 1 + dm) / 12), (ym.m - 1 + dm) % 12 + 1)
  {
    Division(ym.m - 1 + dm);
  }

  lemma FloorsAdd(i: int, b: int)
    ensures (i + b) / 12 == i / 12 + (i % 12 + b) / 12 && (i + b) % 12 == (i % 12 + b) % 12
  {
  }

  /** Adding months always lands on one of the twelve months. */
  lemma PlusIsOk(ym: YearMonth, dm: int)
    ensures Ok(Plus(ym, dm))
  {
    Division(ym.m - 1 + dm);
  }

  /** Adding months is an action of the integers, also when the 16-bit year wraps around on the way. */
  lemma PlusIsAction(ym: YearMonth, a: int, b: int)
    requires Ok(ym)
    ensures Plus(Plus(ym, a), b) == Plus(ym, a + b)
    ensures Plus(ym, 0) == ym
  {
    hide Plus, Short;
    var i := ym.m - 1 + a;
    PlusIsFloor(ym, a);
    PlusIsFloor(Plus(ym, a), b);
    PlusIsFloor(ym, a + b);
    FloorsAdd(i, b);
    ShortAbsorbs(ym.y + i / 12, (i % 12 + b) / 12);
    PlusIsFloor(ym, 0);
  }

  lemma ShortAbsorbs(n: int, k: int)
    ensures Short(Short(n) + k) == Short(n + k)
  {
    var q := (n + 0x8000) / 0x1_0000;
    assert Short(n) == n - q * 0x1_0000;
  }

  /** Subtracting what was added gives the offset back exactly when the year did not wrap around. */
  lemma BetweenUndoesPlus(ym: YearMonth, a: int)
    requires Ok(ym)
    ensures Between(Plus(ym, a), ym) == a <==> -0x8000 * 12 <= Index(ym) + a < 0x8000 * 12
    ensures Minus(Plus(ym, a), a) == ym
  {
    var i := ym.m - 1 + a;
    Division(i);
    PlusIsOk(ym, a);
    PlusIsAction(ym, a, -a);
    assert -0x8000 <= ym.y + i / 12 < 0x8000 <==> -0x8000 * 12 <= Index(ym) + a < 0x8000 * 12;
    BetweenIsDifference(Plus(ym, a), ym);
    assert Short(ym.y + i / 12) == ym.y + i / 12 <==> -0x8000 <= ym.y + i / 12 < 0x8000;
  }

  lemma BetweenIsDifference(x: YearMonth, y: YearMonth)
    requires Ok(x) && Ok(y)
    ensures Between(x, y) == Index(x) - Index(y)
  {
  }

  lemma MonthPlusIsMod12(m: int, dm: int)
    ensures MonthPlus(m, dm) == (m + dm - 1) % 12 + 1
  {
    Division(m + dm - 1);
  }

  lemma MonthMinusIsMod12(x: int, y: int)
    requires 1 <= x <= 12 && 1 <= y <= 12
    ensures MonthMinus(x, y) == if x >= y then x - y else x - y + 12
  {
  }

  /** On the circle of months, `month - month` undoes `month + months` and the other way round. */
  lemma MonthCircle(x: int, y: int, dm: int)
    requires 1 <= x <= 12 && 1 <= y <= 12
    ensures 1 <= MonthPlus(x, dm) <= 12 && 0 <= MonthMinus(x, y) <= 11
    ensures MonthPlus(y, MonthMinus(x, y)) == x
    ensures MonthMinus(MonthPlus(x, dm), x) == dm % 12
  {
    MonthPlusIsMod12(x, dm);
    MonthPlusIsMod12(y, MonthMinus(x, y));
    MonthMinusIsMod12(x, y);
    MonthMinusIsMod12(MonthPlus(x, dm), x);
    hide MonthPlus, MonthMinus;
    FloorsAdd(x + dm - 1, 1 - x);
  }
}
