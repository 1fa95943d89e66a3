/**
 The texts that `GetUTCTime` accepts, as a grammar: a stamp is read exactly when it has one of these forms, and what it
 stands for is told from its numerals.
 */
module TimestampForms {
  import opened Options
  import opened Text
  import opened Civil
  import opened Timestamp

  // ----- The grammar -----

  predicate Sign(s: string) {
    s == "" || s == "+" || s == "-"
  }

  /** Between `m` and `M` digits. */
  predicate Numeral(d: string, m: nat, M: nat) {
    m <= |d| <= M && forall i :: 0 <= i < |d| ==> '0' <= d[i] <= '9'
  }

  /** A numeral with less than `M` digits is not followed by another one. */
  predicate Ends(d: string, M: nat, rest: string) {
    |d| == M || rest == "" || !('0' <= rest[0] <= '9')
  }

  /** Seconds with a decimal point, or without. */
  datatype Seconds = Seconds(whole: string, fraction: Option<string>)

  function SecondsForm(x: Seconds, rest: string): string {
    match x.fraction
    case None => x.whole + rest
    case Some(f) => x.whole + ("." + (f + rest))
  }

  /** Six characters at most, and no more of them than there are. */
  predicate SecondsShaped(x: Seconds, rest: string) {
    match x.fraction
    case None => Numeral(x.whole, 1, 6) && Ends(x.whole, 6, rest) && (|x.whole| < 6 && rest != "" ==> rest[0] != '.')
    case Some(f) => Numeral(x.whole, 0, 5) && Numeral(f, 0, 5 - |x.whole|) && Ends(f, 5 - |x.whole|, rest)
  }

  function SecondsValue(x: Seconds): real
    requires IsNumeral(x.whole) && (x.fraction.Some? ==> IsNumeral(x.fraction.value))
  {
    match x.fraction
    case None => Number(x.whole) as real
    case Some(f) => Number(x.whole) as real + Number(f) as real / Pow10(|f|) as real
  }

  /** One or two digits of hours, with or without a sign, and perhaps a colon and two digits of minutes. */
  datatype Zone = Zone(sign: string, hours: string, minutes: Option<string>)

  function ZoneForm(z: Zone, rest: string): string {
    match z.minutes
    case None => z.sign + (z.hours + rest)
    case Some(m) => z.sign + (z.hours + (":" + (m + rest)))
  }

  predicate ZoneShaped(z: Zone, rest: string) {
    Sign(z.sign) && Numeral(z.hours, 1, 2) &&
    match z.minutes
    case None => Ends(z.hours, 2, rest) && (rest != "" ==> rest[0] != ':')
    case Some(m) => Numeral(m, 2, 2)
  }

  /** In minutes, to the east. */
  function ZoneValue(z: Zone): int
    requires IsNumeral(z.hours) && (z.minutes.Some? ==> IsNumeral(z.minutes.value))
  {
    var minutes := Number(z.hours) * 60 + match z.minutes case None => 0 case Some(m) => Number(m);
    if z.sign == "-" then -minutes else minutes
  }

  /** A stamp without a zone ends with `Z`. */
  datatype Stamp = Stamp(sign: string, year: string, month: string, day: string,
                         hour: string, minute: string, seconds: Seconds, zone: Option<Zone>)

  function EndForm(zone: Option<Zone>, rest: string): string {
    match zone
    case None => "Z" + rest
    case Some(z) => ZoneForm(z, rest)
  }

  function TimeForm(t: Stamp, rest: string): string {
    t.hour + (":" + (t.minute + (":" + SecondsForm(t.seconds, rest))))
  }

  /** The text of a stamp in front of `rest`. */
  function Form(t: Stamp, rest: string): string {
    DateForm(t, "T" + TimeForm(t, EndForm(t.zone, rest)))
  }

  function DateForm(t: Stamp, rest: string): string {
    t.sign + (t.year + ("-" + (t.month + ("-" + (t.day + rest)))))
  }

  predicate DateShaped(t: Stamp) {
    Sign(t.sign) && Numeral(t.year, 1, 4) && Numeral(t.month, 1, 2) && Numeral(t.day, 1, 2)
  }

  predicate Shaped(t: Stamp, rest: string) {
    && DateShaped(t)
    && Numeral(t.hour, 1, 2) && Numeral(t.minute, 1, 2) && SecondsShaped(t.seconds, EndForm(t.zone, rest))
    && (t.zone.Some? ==> ZoneShaped(t.zone.value, rest))
  }

  /** The instant in milliseconds: local time minus offset, unless a field is out of range. */
  function Stood(t: Stamp, rest: string): Option<int>
    requires Shaped(t, rest)
  {
    var year := if t.sign == "-" then -(Number(t.year) as int) else Number(t.year);
    var date := Ymd(year, Number(t.month), Number(t.day));
    var hour, minute, ms := Number(t.hour), Number(t.minute), RoundHalfEven(SecondsValue(t.seconds) * 1000.0);
    var offset := match t.zone case None => 0 case Some(z) => ZoneValue(z);
    if Ok(date) && hour < 24 && minute < 60 && ms < 60_000 then
      Some((ToDays(date) * 1440 + hour * 60 + minute - offset) * 60_000 + ms)
    else None
  }

  // ----- Each form is read -----

  lemma NumeralRead(d: string, rest: string, m: nat, M: nat)
    requires Numeral(d, m, M) && Ends(d, M, rest)
    ensures IsNumeral(d) && ScanUnsigned(d + rest, m, M) == Got(Number(d), rest)
  {
    assert forall i :: 0 <= i < |d| ==> IsDigit(d[i]);
    hide Number, DigitRun, ScanUnsigned;
    ScanNumeral(d, rest, m, M);
  }

  lemma SignedRead(sign: string, d: string, rest: string, m: nat, M: nat)
    requires Sign(sign) && Numeral(d, m, M) && m >= 1 && Ends(d, M, rest)
    ensures IsNumeral(d)
    ensures ScanSigned(sign + (d + rest), m, M) == Got(if sign == "-" then -(Number(d) as int) else Number(d), rest)
  {
    assert '0' <= d[0] <= '9';
    SignCut(sign, d + rest);
    hide *;
    NumeralRead(d, rest, m, M);
    SignScan(sign + (d + rest), m, M);
  }

  lemma SignCut(sign: string, t: string)
    requires Sign(sign) && t != "" && '0' <= t[0] <= '9'
    ensures var s := sign + t;
            s != "" && (s[0] == '-' <==> sign == "-") && (s[0] == '-' || s[0] == '+' <==> sign != "")
            && t == if sign == "" then s else s[1..]
  {
    if sign == "" { assert sign + t == t; }
  }

  lemma SignScan(s: string, m: nat, M: nat)
    requires s != ""
    ensures var scan := ScanUnsigned(if s[0] == '-' || s[0] == '+' then s[1..] else s, m, M);
            ScanSigned(s, m, M) == if scan.Fail? then Fail
                                   else Got(if s[0] == '-' then -(scan.value as int) else scan.value, scan.rest)
  {
    hide ScanUnsigned;
  }

  lemma CharRead(c: char, rest: string)
    ensures ScanChar([c] + rest, c) == Got((), rest)
  {
    assert ([c] + rest)[1..] == rest;
  }

  lemma RunRead(d: string, rest: string, M: nat)
    requires Numeral(d, 0, M) && Ends(d, M, rest)
    ensures IsNumeral(d) && DigitRun(d + rest, M) == |d|
  {
    var s := d + rest;
    var n := DigitRun(s, M);
    assert forall i :: 0 <= i < |d| ==> s[i] == d[i];
    assert forall i :: 0 <= i < n ==> s[..n][i] == s[i];
    assert |d| < |s| ==> s[|d|] == rest[0];
  }

  lemma SecondsRead(x: Seconds, rest: string)
    requires SecondsShaped(x, rest)
    ensures IsNumeral(x.whole) && (x.fraction.Some? ==> IsNumeral(x.fraction.value))
    ensures ScanSeconds(SecondsForm(x, rest), 1, 6) == Got(SecondsValue(x), rest)
  {
    hide ScanSeconds, ScanFraction, DigitRun, IsNumeral, SecondsValue, Decimal;
    match x.fraction
    case None =>
      RunRead(x.whole, rest, 6);
      WholeRead(x.whole, rest);
      SecondsAre(x);
    case Some(f) =>
      RunRead(x.whole, "." + (f + rest), 6);
      RunRead(f, rest, 5 - |x.whole|);
      PointRead(x.whole, f + rest);
      FractionRead(Number(x.whole), |x.whole|, f, rest);
      SecondsAre(x);
  }

  lemma SecondsAre(x: Seconds)
    requires IsNumeral(x.whole) && (x.fraction.Some? ==> IsNumeral(x.fraction.value))
    ensures SecondsValue(x) == match x.fraction
            case None => Number(x.whole) as real
            case Some(f) => Decimal(Number(x.whole), Number(f), |f|)
  {
    hide Number, Pow10;
  }

  lemma WholeRead(d: string, rest: string)
    requires IsNumeral(d) && 1 <= |d| <= 6 && DigitRun(d + rest, 6) == |d|
    requires |d| < 6 && rest != "" ==> rest[0] != '.'
    ensures ScanSeconds(d + rest, 1, 6) == Got(Number(d) as real, rest)
  {
    hide Number, DigitRun, Decimal;
    var s := d + rest;
    assert s[..|d|] == d && s[|d|..] == rest;
    if |d| < |s| { assert s[|d|] == rest[0]; }
  }

  lemma Cut(d: string, rest: string)
    ensures (d + rest)[..|d|] == d && (d + rest)[|d|..] == rest
  {
  }

  lemma PointCut(d: string, tail: string)
    ensures var s := d + ("." + tail);
            |d| < |s| && s[|d|] == '.' && s[..|d|] == d && s[|d| + 1..] == tail
  {
  }

  lemma PointRead(d: string, tail: string)
    requires IsNumeral(d) && |d| <= 5 && DigitRun(d + ("." + tail), 6) == |d|
    ensures ScanSeconds(d + ("." + tail), 1, 6) == ScanFraction(Number(d), |d|, tail, 1, 6)
  {
    PointCut(d, tail);
    hide Number, DigitRun, ScanFraction;
  }

  lemma FractionRead(i: nat, n: nat, f: string, rest: string)
    requires n <= 5 && IsNumeral(f) && DigitRun(f + rest, 5 - n) == |f|
    ensures ScanFraction(i, n, f + rest, 1, 6) == Got(Decimal(i, Number(f), |f|), rest)
  {
    Cut(f, rest);
    hide Number, DigitRun, Decimal;
  }

  lemma ZoneRead(z: Zone, rest: string)
    requires ZoneShaped(z, rest)
    ensures IsNumeral(z.hours) && (z.minutes.Some? ==> IsNumeral(z.minutes.value))
    ensures ScanOffset(ZoneForm(z, rest)) == Got(ZoneValue(z), rest)
  {
    hide ScanUnsigned, ScanSigned, Number;
    match z.minutes
    case None =>
      SignedRead(z.sign, z.hours, rest, 1, 2);
      ZoneSign(z.sign, z.hours, rest);
    case Some(m) =>
      SignedRead(z.sign, z.hours, ":" + (m + rest), 1, 2);
      ZoneSign(z.sign, z.hours, ":" + (m + rest));
      NumeralRead(m, rest, 2, 2);
      assert (":" + (m + rest))[1..] == m + rest;
  }

  lemma ZoneSign(sign: string, d: string, rest: string)
    requires Sign(sign) && Numeral(d, 1, 2)
    ensures var s := sign + (d + rest);
            s != "" && (s[0] == '-' <==> sign == "-") && s[0] != 'Z' && s[0] != '.' && (sign == "" <==> '0' <= s[0] <= '9')
  {
  }

  lemma DateRead(t: Stamp, rest: string)
    requires DateShaped(t) && (rest == "" || !('0' <= rest[0] <= '9'))
    ensures IsNumeral(t.year) && IsNumeral(t.month) && IsNumeral(t.day)
    ensures ScanDate(DateForm(t, rest)) ==
            Got(Ymd(if t.sign == "-" then -(Number(t.year) as int) else Number(t.year), Number(t.month), Number(t.day)), rest)
  {
    hide ScanUnsigned, ScanSigned, ScanChar, Number, Numeral, IsNumeral;
    var d := t.day + rest;
    var m := t.month + (['-'] + d);
    SignedRead(t.sign, t.year, ['-'] + m, 1, 4);
    CharRead('-', m);
    NumeralRead(t.month, ['-'] + d, 1, 2);
    CharRead('-', d);
    NumeralRead(t.day, rest, 1, 2);
  }

  lemma TimeRead(t: Stamp, rest: string)
    requires Numeral(t.hour, 1, 2) && Numeral(t.minute, 1, 2) && SecondsShaped(t.seconds, rest)
    ensures IsNumeral(t.hour) && IsNumeral(t.minute) && IsNumeral(t.seconds.whole)
    ensures t.seconds.fraction.Some? ==> IsNumeral(t.seconds.fraction.value)
    ensures ScanTime(TimeForm(t, rest)) == Got(Clock(Number(t.hour), Number(t.minute), SecondsValue(t.seconds)), rest)
  {
    hide ScanUnsigned, ScanSeconds, ScanChar, Number, Numeral, SecondsForm, SecondsShaped, SecondsValue, IsNumeral;
    var x := SecondsForm(t.seconds, rest);
    var m := t.minute + ([':'] + x);
    NumeralRead(t.hour, [':'] + m, 1, 2);
    CharRead(':', m);
    NumeralRead(t.minute, [':'] + x, 1, 2);
    CharRead(':', x);
    SecondsRead(t.seconds, rest);
  }

  /** A stamp is read as what its numerals stand for, whatever follows it. */
  lemma ParseForm(t: Stamp, rest: string)
    requires Shaped(t, rest)
    ensures Parse(Form(t, rest), t.zone.Some?) == Stood(t, rest)
    ensures Parse(Form(t, rest), t.zone.None?) == None
  {
    hide ScanDate, ScanTime, ScanOffset, Number, Ok, ToDays, RoundHalfEven, DateForm, TimeForm, ZoneForm;
    hide DateShaped, SecondsShaped, ZoneShaped, SecondsValue, ZoneValue, Numeral;
    var end := EndForm(t.zone, rest);
    DateRead(t, "T" + TimeForm(t, end));
    assert ("T" + TimeForm(t, end))[1..] == TimeForm(t, end);
    TimeRead(t, end);
    match t.zone
    case None =>
      assert end[1..] == rest;
      NoZone(rest);
    case Some(z) =>
      ZoneRead(z, rest);
      ZoneFirst(z, rest);
  }

  lemma NoZone(rest: string)
    ensures ScanOffset("Z" + rest) == Fail
  {
  }

  lemma ZoneFirst(z: Zone, rest: string)
    requires ZoneShaped(z, rest)
    ensures ScanChar(ZoneForm(z, rest), 'Z') == Fail
  {
  }

  // ----- Nothing else is read -----

  lemma UnsignedSplit(s: string, m: nat, M: nat) returns (d: string)
    requires ScanUnsigned(s, m, M).Got?
    ensures var rest := ScanUnsigned(s, m, M).rest;
            s == d + rest && Numeral(d, m, M) && Ends(d, M, rest)
  {
    d := s[..DigitRun(s, M)];
    assert forall i :: 0 <= i < |d| ==> IsDigit(d[i]);
    hide Number;
  }

  lemma SignedSplit(s: string, m: nat, M: nat) returns (sign: string, d: string)
    requires m >= 1 && ScanSigned(s, m, M).Got?
    ensures var rest := ScanSigned(s, m, M).rest;
            s == sign + (d + rest) && Sign(sign) && Numeral(d, m, M) && Ends(d, M, rest)
  {
    hide ScanUnsigned;
    if |s| > 0 && (s[0] == '-' || s[0] == '+') {
      sign := s[..1];
      d := UnsignedSplit(s[1..], m, M);
    } else {
      sign := "";
      d := UnsignedSplit(s, m, M);
    }
  }

  lemma CharSplit(s: string, c: char)
    requires ScanChar(s, c).Got?
    ensures s == [c] + ScanChar(s, c).rest
  {
  }

  lemma RunSplit(s: string, M: nat)
    ensures var n := DigitRun(s, M);
            s == s[..n] + s[n..] && Numeral(s[..n], 0, M) && Ends(s[..n], M, s[n..])
  {
    hide DigitRun;
    var n := DigitRun(s, M);
    assert IsNumeral(s[..n]);
    assert n < |s| ==> s[n..][0] == s[n];
  }

  lemma FractionSplit(i: nat, n: nat, tail: string) returns (f: string)
    requires n <= 5
    ensures var scan := ScanFraction(i, n, tail, 1, 6);
            scan.Got? && tail == f + scan.rest && Numeral(f, 0, 5 - n) && Ends(f, 5 - n, scan.rest)
  {
    hide Number, DigitRun, Decimal, Numeral, Ends;
    RunSplit(tail, 5 - n);
    f := tail[..DigitRun(tail, 5 - n)];
  }

  lemma PointSplit(s: string, n: nat)
    requires n < |s| && n < 6 && s[n] == '.' && DigitRun(s, 6) == n
    ensures ScanSeconds(s, 1, 6) == ScanFraction(Number(s[..n]), n, s[n + 1..], 1, 6)
    ensures s[n..] == "." + s[n + 1..]
  {
    hide Number, DigitRun, ScanFraction;
  }

  lemma WholeSplit(s: string, n: nat)
    requires DigitRun(s, 6) == n && ScanSeconds(s, 1, 6).Got? && (n < |s| && n < 6 ==> s[n] != '.')
    ensures n >= 1 && ScanSeconds(s, 1, 6).rest == s[n..]
  {
    hide Number, DigitRun, Decimal, IsNumeral;
  }

  lemma PointJoin(s: string, n: nat, f: string, rest: string)
    requires n < |s| && s[n..] == "." + s[n + 1..] && s[n + 1..] == f + rest
    ensures s == s[..n] + ("." + (f + rest))
  {
    assert s == s[..n] + s[n..];
  }

  lemma FractionShaped(d: string, f: string, rest: string)
    requires Numeral(d, 0, 5) && Numeral(f, 0, 5 - |d|) && Ends(f, 5 - |d|, rest)
    ensures var x := Seconds(d, Some(f));
            SecondsForm(x, rest) == d + ("." + (f + rest)) && SecondsShaped(x, rest)
  {
    hide Numeral, Ends;
  }

  lemma WholeShaped(d: string, rest: string)
    requires Numeral(d, 1, 6) && Ends(d, 6, rest) && (|d| < 6 && rest != "" ==> rest[0] != '.')
    ensures var x := Seconds(d, None);
            SecondsForm(x, rest) == d + rest && SecondsShaped(x, rest)
  {
    hide Numeral, Ends;
  }

  lemma SecondsSplit(s: string) returns (x: Seconds)
    requires ScanSeconds(s, 1, 6).Got?
    ensures var rest := ScanSeconds(s, 1, 6).rest;
            s == SecondsForm(x, rest) && SecondsShaped(x, rest)
  {
    hide *;
    RunSplit(s, 6);
    var n := DigitRun(s, 6);
    var rest := ScanSeconds(s, 1, 6).rest;
    ShortNumeral(s[..n], n);
    if n < |s| && n < 6 && s[n] == '.' {
      PointSplit(s, n);
      var f := FractionSplit(Number(s[..n]), n, s[n + 1..]);
      x := Seconds(s[..n], Some(f));
      PointJoin(s, n, f, rest);
      FractionShaped(s[..n], f, rest);
    } else {
      WholeSplit(s, n);
      x := Seconds(s[..n], None);
      WholeShaped(s[..n], rest);
    }
  }

  lemma ShortNumeral(d: string, n: nat)
    requires Numeral(d, 0, 6) && |d| == n
    ensures n < 6 ==> Numeral(d, 0, 5)
    ensures n >= 1 ==> Numeral(d, 1, 6)
  {
  }

  lemma ZoneSplit(s: string) returns (z: Zone)
    requires ScanOffset(s).Got?
    ensures var rest := ScanOffset(s).rest;
            s == ZoneForm(z, rest) && ZoneShaped(z, rest)
  {
    hide ScanUnsigned, ScanSigned;
    var sign, hours := SignedSplit(s, 1, 2);
    var t := ScanSigned(s, 1, 2).rest;
    if |t| > 0 && t[0] == ':' {
      var m := UnsignedSplit(t[1..], 2, 2);
      z := Zone(sign, hours, Some(m));
      assert t == ":" + t[1..];
    } else {
      z := Zone(sign, hours, None);
    }
  }

  lemma DateSplit(s: string) returns (sign: string, year: string, month: string, day: string)
    requires ScanDate(s).Got?
    ensures Sign(sign) && Numeral(year, 1, 4) && Numeral(month, 1, 2) && Numeral(day, 1, 2)
    ensures s == sign + (year + ("-" + (month + ("-" + (day + ScanDate(s).rest)))))
  {
    hide ScanUnsigned, ScanSigned, ScanChar, Numeral;
    sign, year := SignedSplit(s, 1, 4);
    var s1 := ScanSigned(s, 1, 4).rest;
    CharSplit(s1, '-');
    var s2 := ScanChar(s1, '-').rest;
    month := UnsignedSplit(s2, 1, 2);
    var s3 := ScanUnsigned(s2, 1, 2).rest;
    CharSplit(s3, '-');
    day := UnsignedSplit(ScanChar(s3, '-').rest, 1, 2);
  }

  lemma TimeSplit(s: string) returns (hour: string, minute: string, x: Seconds)
    requires ScanTime(s).Got?
    ensures var rest := ScanTime(s).rest;
            && Numeral(hour, 1, 2) && Numeral(minute, 1, 2) && SecondsShaped(x, rest)
            && s == hour + (":" + (minute + (":" + SecondsForm(x, rest))))
  {
    hide ScanUnsigned, ScanSeconds, ScanChar, Numeral, SecondsForm, SecondsShaped;
    hour := UnsignedSplit(s, 1, 2);
    var s1 := ScanUnsigned(s, 1, 2).rest;
    CharSplit(s1, ':');
    var s2 := ScanChar(s1, ':').rest;
    minute := UnsignedSplit(s2, 1, 2);
    var s3 := ScanUnsigned(s2, 1, 2).rest;
    CharSplit(s3, ':');
    x := SecondsSplit(ScanChar(s3, ':').rest);
  }

  lemma StampSplit(s: string, zoned: bool) returns (t: Stamp, rest: string)
    requires ScanStamp(s, zoned).Got?
    ensures s == Form(t, rest) && Shaped(t, rest) && t.zone.Some? == zoned
  {
    hide ScanDate, ScanTime, ScanOffset, ScanChar, Numeral, SecondsForm, SecondsShaped, ZoneForm, ZoneShaped;
    var sign, year, month, day := DateSplit(s);
    var s1 := ScanDate(s).rest;
    CharSplit(s1, 'T');
    var s2 := ScanChar(s1, 'T').rest;
    var hour, minute, x := TimeSplit(s2);
    var s3 := ScanTime(s2).rest;
    if zoned {
      var z := ZoneSplit(s3);
      rest := ScanOffset(s3).rest;
      t := Stamp(sign, year, month, day, hour, minute, x, Some(z));
    } else {
      CharSplit(s3, 'Z');
      rest := ScanChar(s3, 'Z').rest;
      t := Stamp(sign, year, month, day, hour, minute, x, None);
    }
  }

  // ----- The theorems -----

  /** A text starts with a stamp. */
  predicate Starts(s: string, t: Stamp, rest: string) {
    s == Form(t, rest) && Shaped(t, rest)
  }

  /** Parsing succeeds exactly on the texts that start with a stamp, and gives the instant that it stands for. */
  lemma ParsesStamps(s: string, zoned: bool, ms: int)
    ensures Parse(s, zoned) == Some(ms) <==>
            exists t, rest :: Starts(s, t, rest) && t.zone.Some? == zoned && Stood(t, rest) == Some(ms)
  {
    hide Form, Shaped, Stood, ScanStamp, Instant;
    forall t, rest | Starts(s, t, rest)
      ensures Parse(s, t.zone.Some?) == Stood(t, rest)
    {
      ParseForm(t, rest);
    }
    if Parse(s, zoned) == Some(ms) {
      var t, rest := StampSplit(s, zoned);
      assert Starts(s, t, rest);
    }
  }

  /** A stamp is normalised to the second it stands for, rounded down. */
  lemma UtcOfStamp(s: string, t: Stamp, rest: string)
    requires Starts(s, t, rest)
    ensures Utc(s) ==
            match Stood(t, rest)
            case None => ""
            case Some(ms) => (match Format(ms / 1000) case None => "" case Some(text) => text)
  {
    hide Form, Shaped, Stood, Parse, Format, FloorSeconds;
    ParseForm(t, rest);
    if Stood(t, rest).Some? { FloorSecondsIsFloor(Stood(t, rest).value); }
  }

  /** Any other text gives an empty string. */
  lemma UtcOfOther(s: string)
    requires forall t, rest :: !Starts(s, t, rest)
    ensures Utc(s) == ""
  {
    hide Starts, Parse, Format, Stood;
    if Parse(s, false).Some? { ParsesStamps(s, false, Parse(s, false).value); }
    if Parse(s, true).Some? { ParsesStamps(s, true, Parse(s, true).value); }
  }

  // ----- Seconds and printed stamps -----

  /** To the nearest integer, and to the even one of two. */
  lemma RoundsToNearest(x: real)
    ensures var r := RoundHalfEven(x) as real;
            -0.5 <= r - x <= 0.5 && (r - x == 0.5 || r - x == -0.5 ==> RoundHalfEven(x) % 2 == 0)
  {
  }

  /** Up to three digits of a fraction are exact milliseconds. */
  lemma MillisecondsExact(whole: nat, digits: string)
    requires IsNumeral(digits) && |digits| <= 3
    ensures RoundHalfEven((whole as real + Number(digits) as real / Pow10(|digits|) as real) * 1000.0)
         == 1000 * whole + Number(digits) * (if |digits| == 0 then 1000 else if |digits| == 1 then 100 else if |digits| == 2 then 10 else 1)
  {
    hide Number;
    var n := Number(digits);
    var scale := if |digits| == 0 then 1000 else if |digits| == 1 then 100 else if |digits| == 2 then 10 else 1;
    assert Pow10(|digits|) * scale == 1000;
    Scaled(whole, n, Pow10(|digits|), scale);
    RoundsInteger(1000 * whole + n * scale);
  }

  lemma Scaled(whole: nat, n: nat, p: nat, scale: nat)
    requires p >= 1 && p * scale == 1000
    ensures (whole as real + n as real / p as real) * 1000.0 == (1000 * whole + n * scale) as real
  {
    var q := n as real / p as real;
    assert q * p as real == n as real;
    assert q * 1000.0 == (q * p as real) * scale as real;
  }

  lemma RoundsInteger(n: int)
    ensures RoundHalfEven(n as real) == n
  {
  }

  predicate TwoDigits(d: string, n: nat) {
    |d| == 2 && IsNumeral(d) && Number(d) == n
  }

  /** The numeral of `n` without leading zeros. */
  predicate Plain(d: string, n: nat) {
    d != "" && IsNumeral(d) && Number(d) == n && (|d| > 1 ==> n >= Pow10(|d| - 1))
  }

  /** A year of at least four characters, filled up with zeros in front of its sign. */
  predicate YearFilled(fill: string, sign: string, year: string, y: int) {
    && (forall i :: 0 <= i < |fill| ==> fill[i] == '0')
    && sign == (if y < 0 then "-" else "")
    && Plain(year, if y < 0 then -y else y)
    && |fill| + |sign| + |year| == if |sign| + |year| < 4 then 4 else |sign| + |year|
  }

  lemma DigitsPlain(n: nat)
    ensures Plain(Digits(n), n)
  {
    NumberOfDigits(n);
    if |Digits(n)| > 1 { DigitCount(n, |Digits(n)| - 1); }
    hide Number, Digits, Pow10;
  }

  lemma SignAndDigits(y: int)
    ensures IntText(y) == (if y < 0 then "-" else "") + Digits(if y < 0 then -y else y)
  {
    hide Digits;
    if y >= 0 { assert "" + Digits(y) == Digits(y); }
  }

  lemma YearText(y: int) returns (fill: string, sign: string, year: string)
    ensures YearFilled(fill, sign, year, y) && Padded(y, 4) == fill + (sign + year)
  {
    SignAndDigits(y);
    hide Plain, Digits, IntText;
    sign, year := if y < 0 then "-" else "", Digits(if y < 0 then -y else y);
    DigitsPlain(if y < 0 then -y else y);
    fill := if |IntText(y)| < 4 then Zeros(4 - |IntText(y)|) else "";
    assert fill == "" ==> fill + IntText(y) == IntText(y);
  }

  /** What is printed: the year, and two digits each for the other fields of the day and second of the instant. */
  lemma FormatIsForm(secs: int) returns (fill: string, t: Stamp)
    requires MIN_DAYS <= secs / 86_400 <= MAX_DAYS
    ensures Format(secs) == Some(fill + Form(t, ""))
    ensures var x := FromDays(secs / 86_400);
            && Ok(x) && YearFilled(fill, t.sign, t.year, x.y) && TwoDigits(t.month, x.m) && TwoDigits(t.day, x.d)
            && t.zone == None && t.seconds.fraction == None
            && |t.hour| == 2 && |t.minute| == 2 && |t.seconds.whole| == 2
            && IsNumeral(t.hour) && IsNumeral(t.minute) && IsNumeral(t.seconds.whole)
            && var hour, minute, second := Number(t.hour), Number(t.minute), Number(t.seconds.whole);
               && hour < 24 && minute < 60 && second < 60
               && secs == ((ToDays(x) * 24 + hour) * 60 + minute) * 60 + second
  {
    hide Number, Padded, IsNumeral, YearFilled, FromDays, ToDays, Ok, TimeText, DayOf;
    DayOfIsFloor(secs);
    var day := secs / 86_400;
    ToDaysFromDays(day);
    var x := FromDays(day);
    var h, m, s := TimeTextIsClock(secs - day * 86_400);
    PrintedTwo(h);
    PrintedTwo(m);
    PrintedTwo(s);
    DateFields(x);
    PrintedTwo(x.m);
    PrintedTwo(x.d);
    var sign, year;
    fill, sign, year := YearText(x.y);
    t := Stamp(sign, year, Padded(x.m, 2), Padded(x.d, 2), Padded(h, 2), Padded(m, 2), Seconds(Padded(s, 2), None), None);
    Regroup(fill, sign, year, Padded(x.m, 2), Padded(x.d, 2), Padded(h, 2), Padded(m, 2), Padded(s, 2));
  }

  lemma PrintedTwo(n: nat)
    requires n < 100
    ensures TwoDigits(Padded(n, 2), n)
  {
    hide Number, Padded;
    PaddedTwo(n);
  }

  lemma DateFields(x: Ymd)
    requires Ok(x)
    ensures 0 <= x.m < 100 && 0 <= x.d < 100
  {
  }

  lemma Regroup(fill: string, sign: string, year: string, m: string, d: string, h: string, mi: string, s: string)
    ensures fill + (sign + year) + "-" + m + "-" + d + "T" + (h + ":" + mi + ":" + s) + "Z" ==
            fill + (sign + (year + ("-" + (m + ("-" + (d + ("T" + (h + (":" + (mi + (":" + (s + ("Z" + "")))))))))))))
  {
  }
}
