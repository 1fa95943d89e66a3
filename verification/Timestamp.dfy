/**
 Timestamps: the input stream that `date::parse` reads from, what it reads for `%F`, `%T` and
 `%Ez`, what `date::format` prints for `%FT%TZ`, and `GetUTCTime`, which does one after the other.
 */
module Timestamp {
  import opened Options
  import opened Text
  import opened Civil

  // ----- What the readers find at the front of a text -----

  /** A failed read, or a value and the text that is left. */
  datatype Scan<T> = Fail | Got(value: T, rest: string) {
    predicate IsFailure() { Fail? }

    function PropagateFailure<U>(): Scan<U>
      requires Fail?
    {
      Fail
    }

    function Extract(): (T, string)
      requires Got?
    {
      (value, rest)
    }
  }

  /** The number of digits at the front of `s`, but no more than `max`. */
  function DigitRun(s: string, max: nat): (n: nat)
    ensures n <= |s| && n <= max && IsNumeral(s[..n])
    ensures n == max || n == |s| || !IsDigit(s[n])
  {
    if max == 0 || |s| == 0 || !IsDigit(s[0]) then 0
    else
      var n := 1 + DigitRun(s[1..], max - 1);
      assert s[..n] == [s[0]] + s[1..][..n - 1];
      n
  }

  function ScanUnsigned(s: string, m: nat, M: nat): Scan<nat> {
    var n := DigitRun(s, M);
    if n < m then Fail else Got(Number(s[..n]), s[n..])
  }

  function ScanSigned(s: string, m: nat, M: nat): Scan<int> {
    var signed := |s| > 0 && (s[0] == '-' || s[0] == '+');
    match ScanUnsigned(if signed then s[1..] else s, m, M)
    case Fail => Fail
    case Got(x, rest) => Got(if signed && s[0] == '-' then -(x as int) else x, rest)
  }

  function ScanChar(s: string, c: char): Scan<()> {
    if |s| > 0 && s[0] == c then Got((), s[1..]) else Fail
  }

  /** `i`, and `f` in `k` digits behind the point. */
  function Decimal(i: nat, f: nat, k: nat): real {
    i as real + f as real / Pow10(k) as real
  }

  /** The digits behind the point that follows `n` digits with value `i`. */
  function ScanFraction(i: nat, n: nat, s: string, m: nat, M: nat): Scan<real>
    requires n < M
  {
    var f := DigitRun(s, M - n - 1);
    if n + 1 + f < m then Fail else Got(Decimal(i, Number(s[..f]), f), s[f..])
  }

  /** Seconds with a decimal point: whole digits, and perhaps a point and more digits, `M` characters at most. */
  function ScanSeconds(s: string, m: nat, M: nat): Scan<real> {
    var n := DigitRun(s, M);
    if n < |s| && n < M && s[n] == '.' then ScanFraction(Number(s[..n]), n, s[n + 1..], m, M)
    else if n < m then Fail
    else Got(Number(s[..n]) as real, s[n..])
  }

  /** `%F` */
  function ScanDate(s: string): Scan<Ymd> {
    var (y, s) :- ScanSigned(s, 1, 4);
    var (_, s) :- ScanChar(s, '-');
    var (m, s) :- ScanUnsigned(s, 1, 2);
    var (_, s) :- ScanChar(s, '-');
    var (d, s) :- ScanUnsigned(s, 1, 2);
    Got(Ymd(y, m, d), s)
  }

  /** A time of day, seconds with their fraction. */
  datatype Clock = Clock(h: nat, m: nat, s: real)

  /** `%T` for milliseconds */
  function ScanTime(s: string): Scan<Clock> {
    var (h, s) :- ScanUnsigned(s, 1, 2);
    var (_, s) :- ScanChar(s, ':');
    var (m, s) :- ScanUnsigned(s, 1, 2);
    var (_, s) :- ScanChar(s, ':');
    var (x, s) :- ScanSeconds(s, 1, 6);
    Got(Clock(h, m, x), s)
  }

  /** `%Ez`: signed hours, and minutes if a colon follows; in minutes. */
  function ScanOffset(s: string): Scan<int> {
    var neg := |s| > 0 && s[0] == '-';
    var (h, s) :- ScanSigned(s, 1, 2);
    var hours := if h < 0 then -h else h;
    if |s| > 0 && s[0] == ':' then
      var (m, s) :- ScanUnsigned(s[1..], 2, 2);
      Got(if neg then -(hours * 60 + m) else hours * 60 + m, s)
    else Got(if neg then -(hours * 60) else hours * 60, s)
  }

  /** What a format made of `%FT%T` and either `Z` or `%Ez` reads: a date, a time and an offset. */
  function ScanStamp(s: string, zoned: bool): Scan<(Ymd, Clock, int)> {
    var (date, s) :- ScanDate(s);
    var (_, s) :- ScanChar(s, 'T');
    var (clock, s) :- ScanTime(s);
    if zoned then
      var (offset, s) :- ScanOffset(s);
      Got((date, clock, offset), s)
    else
      var (_, s) :- ScanChar(s, 'Z');
      Got((date, clock, 0), s)
  }

  // ----- The stream -----

  /** A `std::istringstream`: a position in its text, the end-of-file bit and the fail bit. */
  class InputStream {
    const text: string
    var pos: nat
    var eof: bool
    var failed: bool

    predicate Valid()
      reads this
    {
      pos <= |text| && (eof ==> pos == |text|)
    }

    function Rest(): string
      requires Valid()
      reads this
    {
      text[pos..]
    }

    /** The read gave exactly what the front of the text holds. */
    ghost predicate Reads<T>(scan: Scan<T>, x: T)
      reads this
    {
      Valid() && match scan
      case Fail => failed
      case Got(v, rest) => !failed && x == v && Rest() == rest
    }

    constructor (text: string)
      ensures Valid() && !failed && Rest() == text
    {
      this.text, pos, eof, failed := text, 0, false, false;
    }

    /** Looking past the end sets the end-of-file bit; looking again then fails. */
    method Peek() returns (c: Option<char>)
      requires Valid() && !failed
      modifies this`eof, this`failed
      ensures Valid()
      ensures c == if pos < |text| then Some(text[pos]) else None
      ensures pos < |text| ==> !failed && eof == old(eof)
      ensures pos == |text| ==> eof && failed == old(eof)
    {
      if eof {
        failed := true;
        c := None;
      } else if pos == |text| {
        eof := true;
        c := None;
      } else {
        c := Some(text[pos]);
      }
    }

    method ReadChar(c: char)
      requires Valid() && !failed
      modifies this
      ensures Reads(ScanChar(old(Rest()), c), ())
    {
      var ic := Peek();
      if ic != Some(c) {
        failed := true;
      } else {
        pos := pos + 1;
      }
    }

    method ReadUnsigned(m: nat, M: nat) returns (x: nat)
      requires Valid() && !failed && 1 <= m <= M
      modifies this
      ensures Reads(ScanUnsigned(old(Rest()), m, M), x)
    {
      hide DigitRun, Number, IsNumeral;
      x := 0;
      var count := 0;
      ghost var s, start, atEnd := Rest(), pos, eof;
      RunStart(s);
      while true
        invariant pos == start + count <= |text| && count < M && count <= DigitRun(s, M)
        invariant !failed && (eof ==> atEnd && pos == |text|)
        invariant IsNumeral(s[..count]) && x == Number(s[..count])
        decreases M - count
      {
        var ic := Peek();
        if ic == None || !IsDigit(ic.value) {
          RunEnds(s, M, count);
          break;
        }
        RunContinues(s, M, count);
        NumberGrows(s, count);
        pos := pos + 1;
        count := count + 1;
        x := 10 * x + DigitValue(ic.value);
        if count == M {
          break;
        }
      }
      if count < m {
        failed := true;
      }
    }

    method ReadSigned(m: nat, M: nat) returns (x: int)
      requires Valid() && !failed && 1 <= m <= M
      modifies this
      ensures Reads(ScanSigned(old(Rest()), m, M), x)
    {
      var ic := Peek();
      if ic != None {
        var c := ic.value;
        if IsDigit(c) || c == '-' || c == '+' {
          if c == '-' || c == '+' {
            pos := pos + 1;
          }
          x := ReadUnsigned(m, M);
          if !failed {
            if c == '-' {
              x := -x;
            }
            return;
          }
        }
      }
      failed := true;
      x := 0;
    }

    /** The loop of `read_long_double`. */
    method ReadSecondsDigits(ghost m: nat, M: nat) returns (count: nat, p: Partial)
      requires Valid() && !failed && 1 <= m <= M
      modifies this
      ensures Valid() && pos == old(pos) + count && (count > 0 ==> !failed)
      ensures ScanSeconds(text[old(pos)..], m, M) == if count < m then Fail else Got(p.Value(), text[pos..])
    {
      hide SecondsRead, ScanSeconds, DigitRun, Number, IsNumeral, Partial.Value, Partial.Advance;
      count, p := 0, Partial(false, 0, 0, 0);
      ghost var s, start, atEnd := text[pos..], pos, eof;
      SecondsStart(s, M);
      while true
        invariant pos == start + count <= |text| && count < M
        invariant !failed && (eof ==> atEnd && pos == |text|)
        invariant SecondsRead(s, M, count, p)
        decreases M - count
      {
        var ic := Peek();
        if ic == None || !(IsDigit(ic.value) || (ic.value == '.' && !p.point)) {
          SecondsEnd(s, m, M, count, p);
          break;
        }
        SecondsStep(s, M, count, p);
        p := p.Advance(ic.value);
        pos := pos + 1;
        count := count + 1;
        if count == M {
          SecondsFull(s, m, M, p);
          break;
        }
      }
    }

    /** `read_long_double`, in exact arithmetic. */
    method ReadSeconds(m: nat, M: nat) returns (x: real)
      requires Valid() && !failed && 1 <= m <= M
      modifies this
      ensures Reads(ScanSeconds(old(Rest()), m, M), x)
    {
      hide ScanSeconds, Pow10;
      var count, p := ReadSecondsDigits(m, M);
      if count < m {
        failed := true;
        return 0.0;
      }
      x := p.i as real + p.f as real / Pow10(p.fcount) as real;
    }
  }

  // ----- Reading whole formats -----

  /** `read(is, rs{Y, 1, 4}, '-', ru{m, 1, 2}, '-', ru{d, 1, 2})`; each step is skipped once one has failed. */
  method ReadDate(input: InputStream) returns (date: Ymd)
    requires input.Valid() && !input.failed
    modifies input
    ensures input.Reads(ScanDate(old(input.Rest())), date)
  {
    hide ScanSigned, ScanUnsigned, ScanChar;
    var y, m, d := 0, 0, 0;
    y := input.ReadSigned(1, 4);
    if !input.failed { input.ReadChar('-'); }
    if !input.failed { m := input.ReadUnsigned(1, 2); }
    if !input.failed { input.ReadChar('-'); }
    if !input.failed { d := input.ReadUnsigned(1, 2); }
    date := Ymd(y, m, d);
  }

  method ReadTime(input: InputStream) returns (clock: Clock)
    requires input.Valid() && !input.failed
    modifies input
    ensures input.Reads(ScanTime(old(input.Rest())), clock)
  {
    hide ScanSeconds, ScanUnsigned, ScanChar;
    var h, m, x := 0, 0, 0.0;
    h := input.ReadUnsigned(1, 2);
    if !input.failed { input.ReadChar(':'); }
    if !input.failed { m := input.ReadUnsigned(1, 2); }
    if !input.failed { input.ReadChar(':'); }
    if !input.failed { x := input.ReadSeconds(1, 6); }
    clock := Clock(h, m, x);
  }

  method ReadOffset(input: InputStream) returns (offset: int)
    requires input.Valid() && !input.failed
    modifies input
    ensures input.Reads(ScanOffset(old(input.Rest())), offset)
  {
    hide ScanSigned, ScanUnsigned;
    var neg := false;
    offset := 0;
    var ic := input.Peek();
    if ic == Some('-') {
      neg := true;
    }
    if input.failed {
      NothingLeft();
      return;
    }
    var h := input.ReadSigned(1, 2);
    if input.failed { return; }
    offset := 60 * if h < 0 then -h else h;
    if !input.eof {
      ic := input.Peek();
      if ic == Some(':') {
        input.pos := input.pos + 1;
        var m := input.ReadUnsigned(2, 2);
        offset := offset + m;
      }
    }
    if neg {
      offset := -offset;
    }
  }

  lemma NothingLeft()
    ensures ScanSigned("", 1, 2) == Fail
  {
  }

  /** `from_stream` for `%FT%TZ` and, when `zoned`, for `%FT%T%Ez`. */
  method FromStream(input: InputStream, zoned: bool) returns (tp: Option<int>)
    requires input.Valid() && !input.failed
    modifies input
    ensures tp == Parse(old(input.Rest()), zoned)
  {
    hide ScanDate, ScanTime, ScanOffset, ScanChar, Instant;
    var date, clock, offset := Ymd(0, 0, 0), Clock(0, 0, 0.0), 0;
    date := ReadDate(input);
    if !input.failed { input.ReadChar('T'); }
    if !input.failed { clock := ReadTime(input); }
    if !input.failed && zoned { offset := ReadOffset(input); }
    if !input.failed && !zoned { input.ReadChar('Z'); }
    tp := if input.failed then None else Instant(date, clock, offset);
  }

  /** `GetUTCTime` */
  method GetUTCTime(timeStr: string) returns (r: string)
    ensures r == Utc(timeStr)
  {
    hide Parse, Format;
    var input := new InputStream(timeStr);
    var tp := FromStream(input, false);
    if tp == None {
      input := new InputStream(timeStr);
      tp := FromStream(input, true);
    }
    if tp == None {
      return "";
    }
    var text := Format(FloorSeconds(tp.value));
    r := if text == None then "" else text.value;
  }

  /** Seconds read so far: `i` before the point, and after it `f` in `fcount` digits. */
  datatype Partial = Partial(point: bool, i: nat, f: nat, fcount: nat) {
    function Advance(c: char): Partial
      requires IsDigit(c) || c == '.'
    {
      if c == '.' then this.(point := true)
      else if !point then this.(i := 10 * i + DigitValue(c))
      else this.(f := 10 * f + DigitValue(c), fcount := fcount + 1)
    }

    function Value(): real {
      Decimal(i, f, fcount)
    }
  }

  /** The first `count` characters of `s` make up `p`. */
  ghost predicate SecondsRead(s: string, M: nat, count: nat, p: Partial) {
    var n := DigitRun(s, M);
    if !p.point then count <= n && p.fcount == p.f == 0 && p.i == Number(s[..count])
    else
      && n < |s| && n < M && s[n] == '.' && count == n + 1 + p.fcount && p.i == Number(s[..n])
      && p.fcount <= DigitRun(s[n + 1..], M - n - 1) && p.f == Number(s[n + 1..][..p.fcount])
  }

  lemma SecondsStart(s: string, M: nat)
    ensures SecondsRead(s, M, 0, Partial(false, 0, 0, 0))
  {
  }

  lemma SecondsStep(s: string, M: nat, count: nat, p: Partial)
    requires count < M && count < |s| && (IsDigit(s[count]) || (s[count] == '.' && !p.point))
    requires SecondsRead(s, M, count, p)
    ensures SecondsRead(s, M, count + 1, p.Advance(s[count]))
  {
    hide Number, DigitRun, Pow10;
    if s[count] == '.' {
      NoFraction(s, M, count);
    } else if !p.point {
      RunContinues(s, M, count);
      NumberGrows(s, count);
    } else {
      var n := DigitRun(s, M);
      FractionDigit(s[n + 1..], M - n - 1, p.fcount);
      assert s[n + 1..][p.fcount] == s[count];
    }
  }

  /** A point ends the digits before it; no digit follows it yet. */
  lemma NoFraction(s: string, M: nat, count: nat)
    requires count < M && count < |s| && s[count] == '.' && count <= DigitRun(s, M)
    ensures DigitRun(s, M) == count && Number(s[count + 1..][..0]) == 0
  {
    RunEnds(s, M, count);
  }

  lemma FractionDigit(t: string, max: nat, k: nat)
    requires k <= DigitRun(t, max) && k < max && k < |t| && IsDigit(t[k])
    ensures k + 1 <= DigitRun(t, max) && Number(t[..k + 1]) == 10 * Number(t[..k]) + DigitValue(t[k])
  {
    RunContinues(t, max, k);
    NumberGrows(t, k);
  }

  lemma NumberGrows(s: string, k: nat)
    requires k < |s| && IsNumeral(s[..k]) && IsDigit(s[k])
    ensures IsNumeral(s[..k + 1]) && Number(s[..k + 1]) == 10 * Number(s[..k]) + DigitValue(s[k])
  {
    assert s[..k + 1][..k] == s[..k];
    assert forall j :: 0 <= j < k ==> s[..k + 1][j] == s[..k][j];
  }

  /** A text that stops being a number of seconds stops where `ScanSeconds` says. */
  lemma SecondsEnd(s: string, m: nat, M: nat, count: nat, p: Partial)
    requires count < M && SecondsRead(s, M, count, p)
    requires count == |s| || (count < |s| && !IsDigit(s[count]) && (s[count] == '.' ==> p.point))
    ensures ScanSeconds(s, m, M) == if count < m then Fail else Got(p.Value(), s[count..])
  {
    hide Number, Pow10, DigitRun, IsNumeral;
    if p.point {
      var n := DigitRun(s, M);
      assert p.fcount < |s[n + 1..]| ==> s[n + 1..][p.fcount] == s[count];
      RunEnds(s[n + 1..], M - n - 1, p.fcount);
    } else {
      RunEnds(s, M, count);
    }
  }

  lemma SecondsFull(s: string, m: nat, M: nat, p: Partial)
    requires SecondsRead(s, M, M, p)
    ensures ScanSeconds(s, m, M) == if M < m then Fail else Got(p.Value(), s[M..])
  {
    hide Number, Pow10, DigitRun, IsNumeral;
  }

  lemma RunStart(s: string)
    ensures IsNumeral(s[..0]) && Number(s[..0]) == 0
  {
  }

  lemma RunEnds(s: string, M: nat, count: nat)
    requires count <= DigitRun(s, M) && count < M
    requires count == |s| || (count < |s| && !IsDigit(s[count]))
    ensures count == DigitRun(s, M)
  {
    var n := DigitRun(s, M);
    assert forall k :: 0 <= k < n ==> s[k] == s[..n][k];
  }

  lemma RunContinues(s: string, M: nat, count: nat)
    requires count <= DigitRun(s, M) && count < M && count < |s| && IsDigit(s[count])
    ensures count + 1 <= DigitRun(s, M)
  {
  }

  // ----- Parsing and printing an instant -----

  /** `round`: to the nearest integer, ties to even. */
  function RoundHalfEven(x: real): int {
    var t0 := x.Floor;
    var diff0, diff1 := x - t0 as real, t0 as real + 1.0 - x;
    if diff0 == diff1 then (if t0 % 2 == 0 then t0 else t0 + 1)
    else if diff0 < diff1 then t0
    else t0 + 1
  }

  /** The instant, in milliseconds since 1970, of a date, a time of day and an offset in minutes. */
  function Instant(date: Ymd, clock: Clock, offset: int): Option<int> {
    var ms := RoundHalfEven(clock.s * 1000.0);
    if Ok(date) && clock.h < 24 && clock.m < 60 && ms < 60_000 then
      Some(ToDays(date) * 86_400_000 - offset * 60_000 + clock.h * 3_600_000 + clock.m * 60_000 + ms)
    else None
  }

  /** What `in >> parse(format, tp)` stores, for `%FT%TZ` or, when `zoned`, for `%FT%T%Ez`. */
  function Parse(s: string, zoned: bool): Option<int> {
    match ScanStamp(s, zoned)
    case Fail => None
    case Got((date, clock, offset), _) => Instant(date, clock, offset)
  }

  function IntText(n: int): string {
    if n < 0 then "-" + Digits(-n) else Digits(n)
  }

  /** Output with `width(w)`, fill character 0 and right adjustment. */
  function Padded(n: int, w: nat): string {
    var t := IntText(n);
    if |t| < w then Zeros(w - |t|) + t else t
  }

  /** `%F` of a date. */
  function DateText(x: Ymd): string {
    Padded(x.y, 4) + "-" + Padded(x.m, 2) + "-" + Padded(x.d, 2)
  }

  /** `hh_mm_ss` of `d` seconds. */
  function TimeText(d: nat): string {
    var h := d / 3600;
    var m := d / 60 - h * 60;
    var s := d - h * 3600 - m * 60;
    (if h < 10 then "0" else "") + IntText(h) + ":" + (if m < 10 then "0" else "") + IntText(m) + ":" + Padded(s, 2)
  }

  /** The day of an instant in seconds: cut off toward zero, then corrected before 1970. */
  function DayOf(secs: int): int {
    var sd := TruncDiv(secs, 86_400);
    if sd * 86_400 <= secs then sd else sd - 1
  }

  /** `format("%FT%TZ", tp)`; it throws when the year of the instant is not representable. */
  function Format(secs: int): Option<string> {
    var day := DayOf(secs);
    DayOfIsFloor(secs);
    if Ok(FromDays(day)) then Some(DateText(FromDays(day)) + "T" + TimeText(secs - day * 86_400) + "Z") else None
  }

  lemma DayOfIsFloor(secs: int)
    ensures DayOf(secs) == secs / 86_400 && 0 <= secs - DayOf(secs) * 86_400 < 86_400
  {
  }

  /** `floor<seconds>` of milliseconds. */
  function FloorSeconds(ms: int): int {
    var t := TruncDiv(ms, 1000);
    if t * 1000 > ms then t - 1 else t
  }

  /** `GetUTCTime`: the empty text stands for every failure. */
  function Utc(s: string): string {
    var tp := match Parse(s, false) case Some(ms) => Some(ms) case None => Parse(s, true);
    match tp
    case None => ""
    case Some(ms) => match Format(FloorSeconds(ms)) case Some(t) => t case None => ""
  }

  // ----- Printed numbers read back -----

  lemma ScanNumeral(d: string, rest: string, m: nat, M: nat)
    requires IsNumeral(d) && m <= |d| <= M
    requires |d| == M || rest == "" || !IsDigit(rest[0])
    ensures ScanUnsigned(d + rest, m, M) == Got(Number(d), rest)
  {
    var s := d + rest;
    var n := DigitRun(s, M);
    assert forall i :: 0 <= i < |d| ==> s[i] == d[i];
    assert forall i :: 0 <= i < n ==> s[..n][i] == s[i];
    assert |d| < |s| ==> s[|d|] == rest[0];
    assert s[..|d|] == d && s[|d|..] == rest;
  }

  lemma PaddedNatural(n: nat, w: nat)
    ensures var t := Padded(n, w);
            IsNumeral(t) && Number(t) == n && |t| == if |Digits(n)| < w then w else |Digits(n)|
  {
    hide Number;
    NumberOfDigits(n);
    if |Digits(n)| < w {
      LeadingZeros(w - |Digits(n)|, Digits(n));
    }
  }

  lemma PaddedTwo(n: nat)
    requires n < 100
    ensures |Padded(n, 2)| == 2 && IsNumeral(Padded(n, 2)) && Number(Padded(n, 2)) == n
    ensures (if n < 10 then "0" else "") + IntText(n) == Padded(n, 2)
  {
    hide Number, IsNumeral;
    PaddedNatural(n, 2);
    if n >= 10 { assert |Digits(n)| == 2; }
  }

  lemma ScanTwo(n: nat, rest: string)
    requires n < 100
    ensures ScanUnsigned(Padded(n, 2) + rest, 1, 2) == Got(n, rest)
    ensures ScanUnsigned(Padded(n, 2) + rest, 2, 2) == Got(n, rest)
  {
    hide *;
    PaddedTwo(n);
    ScanNumeral(Padded(n, 2), rest, 1, 2);
    ScanNumeral(Padded(n, 2), rest, 2, 2);
  }

  // ----- Dates -----

  /** The years whose `%F` form is read back: four digits, or a sign and three or four digits. */
  predicate Readable(y: int) {
    0 <= y <= 9999 || -9999 <= y <= -100
  }

  lemma YearLengths(n: nat)
    requires n <= 32768
    ensures |Digits(n)| == if n < 10 then 1 else if n < 100 then 2 else if n < 1000 then 3 else if n < 10000 then 4 else 5
  {
    DigitCount(n, 1);
    DigitCount(n, 2);
    DigitCount(n, 3);
    DigitCount(n, 4);
    DigitCount(n, 5);
    assert Pow10(5) == 100000 by { assert Pow10(3) == 1000; }
  }

  lemma ScanReadableYear(y: int, rest: string)
    requires Readable(y) && rest != "" && !IsDigit(rest[0])
    ensures ScanSigned(Padded(y, 4) + rest, 1, 4) == Got(y, rest)
  {
    hide Number, Digits, ScanUnsigned;
    if y >= 0 {
      YearLengths(y);
      PaddedNatural(y, 4);
      ScanNumeral(Padded(y, 4), rest, 1, 4);
      assert IsDigit((Padded(y, 4) + rest)[0]);
    } else {
      YearLengths(-y);
      NumberOfDigits(-y);
      ScanNumeral(Digits(-y), rest, 1, 4);
      var s := Padded(y, 4) + rest;
      assert s == "-" + (Digits(-y) + rest);
      assert s[1..] == Digits(-y) + rest;
    }
  }

  /** A year that is not readable stops the reader before the month, or makes it read a wrong one. */
  lemma ScanUnreadableYear(y: int, rest: string)
    requires -0x8000 <= y <= 0x7FFF && !Readable(y)
    ensures var r := ScanSigned(Padded(y, 4) + rest, 1, 4);
            r.Got? && |r.rest| > 0 && if -99 <= y <= -1 then r.rest == "-" + Digits(-y) + rest else IsDigit(r.rest[0])
  {
    hide Number, Digits, ScanUnsigned, ScanSigned, Padded;
    if y >= 0 || y <= -10000 {
      ScanLongYear(y, rest);
    } else {
      ScanShortNegativeYear(y, rest);
    }
  }

  /** A fifth digit is left unread. */
  lemma ScanLongYear(y: int, rest: string)
    requires -0x8000 <= y <= 0x7FFF && !Readable(y) && (y >= 0 || y <= -10000)
    ensures var r := ScanSigned(Padded(y, 4) + rest, 1, 4);
            r.Got? && |r.rest| > 0 && IsDigit(r.rest[0])
  {
    hide Number, Digits, ScanUnsigned;
    var s := Padded(y, 4) + rest;
    var magnitude: nat := if y >= 0 then y else -y;
    YearLengths(magnitude);
    var d := Digits(magnitude);
    ScanNumeral(d[..4], d[4..] + rest, 1, 4);
    if y >= 0 {
      assert s == d[..4] + (d[4..] + rest);
    } else {
      assert s[1..] == d[..4] + (d[4..] + rest);
    }
  }

  /** The fill characters in front of the sign are read as the year. */
  lemma ScanShortNegativeYear(y: int, rest: string)
    requires -99 <= y <= -1
    ensures var r := ScanSigned(Padded(y, 4) + rest, 1, 4);
            r.Got? && r.rest == "-" + Digits(-y) + rest
  {
    hide Number, Digits, ScanUnsigned;
    var s := Padded(y, 4) + rest;
    YearLengths(-y);
    var z := Zeros(4 - |IntText(y)|);
    ScanNumeral(z, "-" + Digits(-y) + rest, 1, 4);
    assert s == z + ("-" + Digits(-y) + rest);
  }

  lemma ScanReadableDate(x: Ymd, rest: string)
    requires Ok(x) && Readable(x.y)
    ensures ScanDate(DateText(x) + rest) == Got(x, rest)
  {
    hide Padded, Digits, ScanSigned, ScanUnsigned;
    var d := Padded(x.d, 2) + rest;
    var m := Padded(x.m, 2) + ("-" + d);
    assert DateText(x) + rest == Padded(x.y, 4) + ("-" + m);
    ScanReadableYear(x.y, "-" + m);
    ScanTwo(x.m, "-" + d);
    ScanTwo(x.d, rest);
    assert ("-" + m)[1..] == m && ("-" + d)[1..] == d;
  }

  /** An unreadable date is never followed by the `T` that the formats ask for. */
  lemma ScanUnreadableDate(x: Ymd, rest: string)
    requires Ok(x) && !Readable(x.y)
    ensures var r := ScanDate(DateText(x) + rest); r.Fail? || ScanChar(r.rest, 'T') == Fail
  {
    hide Padded, Digits, ScanSigned, ScanUnsigned;
    var d := Padded(x.d, 2) + rest;
    var m := Padded(x.m, 2) + ("-" + d);
    assert DateText(x) + rest == Padded(x.y, 4) + ("-" + m);
    ScanUnreadableYear(x.y, "-" + m);
    if -99 <= x.y <= -1 {
      // the month is read from the digits of the year, and the day from the month
      var y := Digits(-x.y) + ("-" + m);
      assert "-" + Digits(-x.y) + ("-" + m) == "-" + y && ("-" + y)[1..] == y;
      YearLengths(-x.y);
      ScanNumeral(Digits(-x.y), "-" + m, 1, 2);
      assert ("-" + m)[1..] == m;
      ScanTwo(x.m, "-" + d);
    }
  }

  // ----- Times of day -----

  lemma WholeSeconds(n: nat, rest: string)
    requires n < 60 && rest != "" && !IsDigit(rest[0]) && rest[0] != '.'
    ensures ScanSeconds(Padded(n, 2) + rest, 1, 6) == Got(n as real, rest)
  {
    hide Padded, Number, Pow10;
    PaddedTwo(n);
    var s := Padded(n, 2) + rest;
    assert forall i :: 0 <= i < 2 ==> s[i] == Padded(n, 2)[i];
    assert s[2] == rest[0];
    assert DigitRun(s, 6) == 2 by { TwoDigitsRun(s); }
    assert s[..2] == Padded(n, 2) && s[2..] == rest;
  }

  lemma TwoDigitsRun(s: string)
    requires |s| > 2 && IsDigit(s[0]) && IsDigit(s[1]) && !IsDigit(s[2])
    ensures DigitRun(s, 6) == 2
  {
    var n := DigitRun(s, 6);
    assert forall i :: 0 <= i < n ==> s[..n][i] == s[i];
  }

  lemma SplitDay(d: nat)
    requires d < 86_400
    ensures var h := d / 3600;
            var m := d / 60 - h * 60;
            var s := d - h * 3600 - m * 60;
            0 <= h < 24 && 0 <= m < 60 && 0 <= s < 60
  {
  }

  /** `TimeText` is the clock of the hours, minutes and seconds of the day. */
  lemma TimeTextIsClock(d: nat) returns (h: nat, m: nat, s: nat)
    requires d < 86_400
    ensures h < 24 && m < 60 && s < 60 && d == h * 3600 + m * 60 + s
    ensures TimeText(d) == ClockText(h, m, s)
  {
    hide IntText, Padded;
    SplitDay(d);
    h := d / 3600;
    m := d / 60 - h * 60;
    s := d - h * 3600 - m * 60;
    PaddedTwo(h);
    PaddedTwo(m);
  }

  function ClockText(h: nat, m: nat, s: nat): string {
    Padded(h, 2) + ":" + Padded(m, 2) + ":" + Padded(s, 2)
  }

  lemma ScanClock(h: nat, m: nat, s: nat, rest: string)
    requires h < 100 && m < 100 && s < 60
    requires rest != "" && !IsDigit(rest[0]) && rest[0] != '.'
    ensures ScanTime(ClockText(h, m, s) + rest) == Got(Clock(h, m, s as real), rest)
  {
    hide Padded, Digits, ScanUnsigned, ScanSeconds;
    var x := Padded(s, 2) + rest;
    var y := Padded(m, 2) + (":" + x);
    assert ClockText(h, m, s) + rest == Padded(h, 2) + (":" + y);
    ScanTwo(h, ":" + y);
    ScanTwo(m, ":" + x);
    WholeSeconds(s, rest);
    assert (":" + y)[1..] == y && (":" + x)[1..] == x;
  }

  lemma RoundExact(n: nat)
    ensures RoundHalfEven(n as real * 1000.0) == n * 1000
  {
    assert n as real * 1000.0 == (n * 1000) as real;
  }

  // ----- The theorems -----

  /** The text that `format("%FT%TZ", ...)` gives for second `d` of a day. */
  function StampText(x: Ymd, d: nat): string {
    DateText(x) + "T" + TimeText(d) + "Z"
  }

  lemma ScanStampText(x: Ymd, d: nat, zoned: bool)
    requires Ok(x) && d < 86_400
    ensures Readable(x.y) && !zoned ==> Parse(StampText(x, d), zoned) == Some(ToDays(x) * 86_400_000 + d * 1000)
    ensures !Readable(x.y) ==> Parse(StampText(x, d), zoned) == None
  {
    hide DateText, TimeText, ClockText, ScanDate, ScanTime, ToDays, RoundHalfEven;
    var rest := "T" + (TimeText(d) + "Z");
    assert StampText(x, d) == DateText(x) + rest;
    if Readable(x.y) {
      ScanReadableDate(x, rest);
      assert rest[1..] == TimeText(d) + "Z";
      var h, m, sec := TimeTextIsClock(d);
      ScanClock(h, m, sec, "Z");
      RoundExact(sec);
    } else {
      ScanUnreadableDate(x, rest);
    }
  }

  /**
   Parsing the text of a whole-second instant gives the instant exactly when its year is readable;
   this includes every year from 0000 to 9999. Otherwise neither format accepts the text.
   */
  lemma ParseFormat(secs: int)
    requires MIN_DAYS <= DayOf(secs) <= MAX_DAYS
    ensures Format(secs).Some?
    ensures var t, y := Format(secs).value, FromDays(DayOf(secs)).y;
            && (Readable(y) <==> Parse(t, false) == Some(secs * 1000))
            && (!Readable(y) ==> Parse(t, false) == None && Parse(t, true) == None)
  {
    hide *;
    var x, d := FromDays(DayOf(secs)), secs - DayOf(secs) * 86_400;
    FormatIsStamp(secs);
    ScanStampText(x, d, false);
    ScanStampText(x, d, true);
  }

  lemma FormatIsStamp(secs: int)
    requires MIN_DAYS <= DayOf(secs) <= MAX_DAYS
    ensures var day := DayOf(secs);
            && 0 <= secs - day * 86_400 < 86_400
            && Ok(FromDays(day)) && ToDays(FromDays(day)) == day
            && Format(secs) == Some(StampText(FromDays(day), secs - day * 86_400))
  {
    hide Ok, FromDays, ToDays, DateText, TimeText, DayOf;
    DayOfIsFloor(secs);
    ToDaysFromDays(DayOf(secs));
  }

  lemma FloorSecondsIsFloor(ms: int)
    ensures FloorSeconds(ms) == ms / 1000
  {
  }

  /** Printing in UTC and parsing again does not change what `GetUTCTime` returns. */
  lemma UtcOfFormat(secs: int)
    requires MIN_DAYS <= DayOf(secs) <= MAX_DAYS
    ensures Format(secs).Some? && Utc(Format(secs).value)
         == if Readable(FromDays(DayOf(secs)).y) then Format(secs).value else ""
  {
    hide Parse, Format, FromDays, DayOf, ToDays;
    ParseFormat(secs);
    FloorSecondsIsFloor(secs * 1000);
  }

  // ----- What can be parsed at all -----

  lemma UnsignedBound(s: string, m: nat, M: nat)
    requires M <= 4 && ScanUnsigned(s, m, M).Got?
    ensures ScanUnsigned(s, m, M).value < Pow10(M)
  {
    NumberBound(s[..DigitRun(s, M)]);
    PowGrows(DigitRun(s, M), M);
  }

  lemma {:induction false} PowGrows(j: nat, k: nat)
    requires j <= k
    ensures Pow10(j) <= Pow10(k)
  {
    if j < k { PowGrows(j, k - 1); }
  }

  lemma SignedBound(s: string, m: nat, M: nat)
    requires M <= 4 && ScanSigned(s, m, M).Got?
    ensures -(Pow10(M) as int) < ScanSigned(s, m, M).value < Pow10(M)
  {
    hide ScanUnsigned, Pow10;
    var t := if |s| > 0 && (s[0] == '-' || s[0] == '+') then s[1..] else s;
    UnsignedBound(t, m, M);
  }

  lemma SmallPowers()
    ensures Pow10(2) == 100 && Pow10(4) == 10000
  {
    assert Pow10(3) == 1000;
  }

  lemma YearBound(s: string)
    requires ScanDate(s).Got?
    ensures -9999 <= ScanDate(s).value.y <= 9999
  {
    hide ScanSigned, ScanUnsigned, Pow10;
    SignedBound(s, 1, 4);
    SmallPowers();
  }

  lemma OffsetBound(s: string)
    requires ScanOffset(s).Got?
    ensures -6039 <= ScanOffset(s).value <= 6039
  {
    hide ScanSigned, ScanUnsigned, Pow10;
    SignedBound(s, 1, 2);
    SmallPowers();
    var t := ScanSigned(s, 1, 2).rest;
    if |t| > 0 && t[0] == ':' { UnsignedBound(t[1..], 2, 2); }
  }

  lemma SecondsBound(s: string, m: nat, M: nat)
    requires ScanSeconds(s, m, M).Got?
    ensures ScanSeconds(s, m, M).value >= 0.0
  {
    hide Number, DigitRun, Pow10;
  }

  lemma RoundNonNegative(x: real)
    requires x >= 0.0
    ensures RoundHalfEven(x * 1000.0) >= 0
  {
  }

  lemma TimeBound(s: string)
    requires ScanTime(s).Got?
    ensures RoundHalfEven(ScanTime(s).value.s * 1000.0) >= 0
  {
    hide ScanUnsigned, ScanSeconds, RoundHalfEven;
    var (_, s1) := ScanUnsigned(s, 1, 2).Extract();
    var (_, s2) := ScanUnsigned(s1[1..], 1, 2).Extract();
    SecondsBound(s2[1..], 1, 6);
    RoundNonNegative(ScanTime(s).value.s);
  }

  lemma DaysOfYears(x: Ymd)
    requires Ok(x) && -9999 <= x.y <= 9999
    ensures MIN_DAYS + 10 <= ToDays(x) <= MAX_DAYS - 10
  {
    var a, b := Ymd(-10000, 1, 1), Ymd(10000, 1, 1);
    assert MIN_DAYS + 10 <= ToDays(a) && ToDays(b) <= MAX_DAYS - 10;
    hide ToDays;
    ToDaysMonotone(a, x);
    ToDaysMonotone(x, b);
  }

  /** Whatever can be parsed lies within a few days of the years -9999 to 9999. */
  lemma ParsedInRange(s: string, zoned: bool)
    requires Parse(s, zoned).Some?
    ensures MIN_DAYS <= DayOf(FloorSeconds(Parse(s, zoned).value)) <= MAX_DAYS
  {
    hide ScanDate, ScanTime, ScanOffset, ToDays, RoundHalfEven, FloorSeconds, DayOf;
    var ms := Parse(s, zoned).value;
    var (date, s1) := ScanDate(s).Extract();
    var (clock, s2) := ScanTime(s1[1..]).Extract();
    var offset := if zoned then ScanOffset(s2).value else 0;
    YearBound(s);
    TimeBound(s1[1..]);
    if zoned { OffsetBound(s2); }
    DaysOfYears(date);
    FloorSecondsIsFloor(ms);
    DayOfIsFloor(FloorSeconds(ms));
  }

  /** The instant that `GetUTCTime` found in a text, if any, in seconds. */
  function UtcSeconds(s: string): Option<int> {
    var tp := match Parse(s, false) case Some(ms) => Some(ms) case None => Parse(s, true);
    match tp case None => None case Some(ms) => Some(FloorSeconds(ms))
  }

  /** `GetUTCTime` is the same applied twice exactly when it failed or found a readable year. */
  lemma UtcIdempotent(s: string)
    ensures Utc(Utc(s)) == Utc(s)
       <==> UtcSeconds(s) == None || Readable(FromDays(DayOf(UtcSeconds(s).value)).y)
  {
    hide Parse, Format, FromDays, DayOf, FloorSeconds;
    if UtcSeconds(s) == None {
      NothingParsed();
    } else {
      if Parse(s, false).Some? { ParsedInRange(s, false); } else { ParsedInRange(s, true); }
      UtcOfFormat(UtcSeconds(s).value);
      FormatNotEmpty(UtcSeconds(s).value);
    }
  }

  lemma NothingParsed()
    ensures Utc("") == ""
  {
    assert ScanDate("") == Fail;
  }

  lemma FormatNotEmpty(secs: int)
    ensures Format(secs).Some? ==> Format(secs).value != ""
  {
    hide FromDays, DateText, TimeText;
  }

  // ----- Local times with an offset -----

  /** An offset in the form `+hh:mm` or `-hh:mm`. */
  function OffsetText(neg: bool, h: nat, m: nat): string {
    (if neg then "-" else "+") + Padded(h, 2) + ":" + Padded(m, 2)
  }

  lemma ScanOffsetText(neg: bool, h: nat, m: nat, rest: string)
    requires h < 100 && m < 100
    ensures ScanOffset(OffsetText(neg, h, m) + rest)
         == Got(if neg then -(h * 60 + m) else h * 60 + m, rest)
  {
    hide Padded, ScanUnsigned;
    var tail := ":" + (Padded(m, 2) + rest);
    var s := OffsetText(neg, h, m) + rest;
    assert s[1..] == Padded(h, 2) + tail;
    ScanTwo(h, tail);
    ScanTwo(m, rest);
    assert tail[1..] == Padded(m, 2) + rest;
  }

  /**
   A local time with an offset is read as local time minus offset, whatever follows it; since it
   does not end in `Z`, only the second format of `GetUTCTime` accepts it.
   */
  lemma ParseZoned(x: Ymd, h: nat, m: nat, s: nat, neg: bool, oh: nat, om: nat)
    requires Ok(x) && Readable(x.y) && h < 24 && m < 60 && s < 60 && oh < 100 && om < 100
    ensures var t := DateText(x) + "T" + ClockText(h, m, s) + OffsetText(neg, oh, om);
            var offset := if neg then -(oh * 60 + om) else oh * 60 + om;
            && Parse(t, false) == None
            && Parse(t, true) == Some(((ToDays(x) * 86_400 + h * 3600 + m * 60 + s) - offset * 60) * 1000)
  {
    hide DateText, ClockText, Padded, ScanDate, ScanTime, ScanOffset, ToDays, RoundHalfEven;
    var zone := OffsetText(neg, oh, om);
    var rest := "T" + (ClockText(h, m, s) + zone);
    assert DateText(x) + "T" + ClockText(h, m, s) + zone == DateText(x) + rest;
    ScanReadableDate(x, rest);
    assert rest[1..] == ClockText(h, m, s) + zone;
    ScanClock(h, m, s, zone);
    assert zone + "" == zone;
    ScanOffsetText(neg, oh, om, "");
    RoundExact(s);
  }
}
