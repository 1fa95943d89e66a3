/** The routine that finds the next entry of INI data in place, and the entries it finds. */
module IniFinder {
  import opened Options
  import opened Text
  import opened IniLines
  import opened IniBuffer
  import opened IniParser

  // ----- Scanning -----

  method SkipSpaces(buf: array<char>, p: nat) returns (q: nat)
    requires Terminated(buf[..], p)
    ensures p <= q < buf.Length && Terminated(buf[..], q)
    ensures Start(Unread(buf[..], p)) == Unread(buf[..], q)
    ensures buf[q] != NUL ==> !IsSpace(buf[q])
  {
    hide SpaceCount;
    ghost var s := Unread(buf[..], p);
    q := p;
    while buf[q] != NUL && IsSpace(buf[q])
      invariant p <= q < buf.Length
      invariant forall k :: 0 <= k < q - p ==> IsSpace(s[k])
      decreases buf.Length - q
    {
      q := q + 1;
    }
    SpaceCountIs(s, q - p);
  }

  method ScanMark(buf: array<char>, p: nat, mark: char) returns (q: nat)
    requires Terminated(buf[..], p)
    ensures p <= q < buf.Length && q == p + MarkEnd(Unread(buf[..], p), mark)
  {
    hide MarkEnd;
    ghost var s := Unread(buf[..], p);
    q := p;
    while buf[q] != NUL && buf[q] != mark && !IsNewLine(buf[q])
      invariant p <= q < buf.Length
      invariant forall k :: 0 <= k < q - p ==> s[k] != mark && !IsNewLine(s[k])
      decreases buf.Length - q
    {
      q := q + 1;
    }
    MarkEndIs(s, mark, q - p);
  }

  method SkipBlanks(buf: array<char>, p: nat) returns (q: nat)
    requires Terminated(buf[..], p)
    ensures p <= q < buf.Length && q == p + BlankCount(Unread(buf[..], p))
  {
    hide BlankCount;
    ghost var s := Unread(buf[..], p);
    q := p;
    while buf[q] != NUL && !IsNewLine(buf[q]) && IsSpace(buf[q])
      invariant p <= q < buf.Length
      invariant forall k :: 0 <= k < q - p ==> IsSpace(s[k]) && !IsNewLine(s[k])
      decreases buf.Length - q
    {
      q := q + 1;
    }
    BlankCountIs(s, q - p);
  }

  /** Where the white characters at the end of a stretch of the buffer start. */
  method TrimEnd(buf: array<char>, from: nat, to: nat) returns (end: nat)
    requires from <= to <= buf.Length
    ensures from <= end <= to && buf[from..end] == Trimmed(buf[from..to])
  {
    hide Trimmed;
    ghost var s := buf[from..to];
    end := to;
    while end > from && IsSpace(buf[end - 1])
      invariant from <= end <= to
      invariant Trimmed(buf[from..end]) == Trimmed(s)
    {
      TrimmedStep(buf[from..end]);
      assert buf[from..end][..end - from - 1] == buf[from..end - 1];
      end := end - 1;
    }
    TrimmedStep(buf[from..end]);
  }

  lemma TrimmedStep(s: string)
    ensures Trimmed(s) == if s != "" && IsSpace(s[|s| - 1]) then Trimmed(s[..|s| - 1]) else s
  {
  }

  // ----- Positions and texts -----

  /** The data behind a position that a scan reached. */
  lemma At(b: seq<char>, p: nat, q: nat)
    requires Terminated(b, p) && p <= q < |b|
    ensures Terminated(b, q) && Unread(b, p)[q - p..] == Unread(b, q) && Unread(b, p)[..q - p] == b[p..q]
    ensures q - p <= |Unread(b, p)| && (q - p == |Unread(b, p)| <==> b[q] == NUL)
    ensures b[q] != NUL ==> Unread(b, p)[q - p] == b[q]
    ensures b[q] != NUL ==> q + 1 < |b| && Terminated(b, q + 1) && Unread(b, p)[q - p + 1..] == Unread(b, q + 1)
    ensures NUL !in b[p..q]
  {
  }

  /** The data that was not changed. */
  lemma Same(b0: seq<char>, b: seq<char>, p: nat)
    requires |b| == |b0| && p < |b| && b[p..] == b0[p..]
    ensures Terminated(b, p) <==> Terminated(b0, p)
    ensures Unread(b, p) == Unread(b0, p) && b[p] == b0[p]
    ensures forall q :: p <= q < |b| ==> b[q..] == b0[q..]
  {
    assert forall i :: p <= i < |b| ==> b[i] == b[p..][i - p] == b0[p..][i - p] == b0[i];
  }

  ghost function Open(b: seq<char>, header: Option<nat>): Option<string>
    requires header.Some? ==> header.value < |b|
  {
    if header.Some? then Some(Unread(b, header.value)) else None
  }

  /** A header that was not closed runs on to the string at `t`. */
  lemma HeaderRunsOn(b0: seq<char>, b: seq<char>, h: nat, t: nat, section: string, last: string)
    requires Terminated(b0, h) && h <= t < |b0| == |b| && b[h..t] == b0[h..t] && CString(b, t) == last
    requires NUL in b[t..]
    ensures CString(b, h) == SectionName(section, Some(Unread(b0, h)), Unread(b0, t), last)
  {
    hide CString;
    At(b0, h, t);
    CStringEnds(b, t);
    assert b[h..t + |last|] == b[h..t] + last;
    CStringIs(b, h, b0[h..t] + last);
    assert Unread(b0, h)[..|Unread(b0, h)| - |Unread(b0, t)|] == b0[h..t];
  }

  lemma CStringEnds(b: seq<char>, t: nat)
    requires t <= |b| && NUL in b[t..]
    ensures var s := CString(b, t); t + |s| < |b| && b[t + |s|] == NUL && b[t..t + |s|] == s && NUL !in s
  {
    var i := IndexOf(b[t..], NUL);
    assert b[t..][i] == NUL;
    assert forall k :: 0 <= k < i ==> CString(b, t)[k] == b[t..][k];
  }

  // ----- Cutting out strings -----

  /** Trims a stretch of the buffer and ends it with a NUL. */
  method CutString(buf: array<char>, from: nat, to: nat) returns (s: string, ghost end: nat)
    requires from <= to < buf.Length && NUL !in buf[from..to]
    modifies buf
    ensures from <= end <= to && buf[..] == old(buf[..])[end := NUL]
    ensures s == Trimmed(old(buf[from..to])) && CString(buf[..], from) == s
  {
    hide Trimmed, CString;
    ghost var b := buf[..];
    var last := TrimEnd(buf, from, to);
    end := last;
    buf[last] := NUL;
    assert buf[from..last] == b[from..last];
    assert forall c :: c in b[from..last] ==> c in b[from..to];
    CStringIs(buf[..], from, b[from..last]);
    s := ReadString(buf, from);
  }

  /** The value behind an equals sign; goes on to the next line. */
  method FindValue(buf: array<char>, p: nat) returns (value: string, pos: nat)
    requires Terminated(buf[..], p)
    modifies buf
    ensures p <= pos < buf.Length && buf[..p] == old(buf[..p])
    ensures buf[pos..] == old(buf[pos..]) && Terminated(buf[..], pos)
    ensures var s := old(Unread(buf[..], p));
            var line := s[BlankCount(s)..];
            value == Trimmed(line[..LineEnd(line)]) && Unread(buf[..], pos) == AfterLine(line, LineEnd(line))
    ensures p + |value| <= pos
  {
    hide Trimmed, CString, Unread, BlankCount, LineEnd, AfterLine, NewLineLength;
    ghost var b := buf[..];
    var v := SkipBlanks(buf, p);
    At(b, p, v);
    var e := FindLineEnd(buf, v);
    LineAt(b, v, e);
    At(b, v, e);
    pos := e;
    if buf[e] != NUL {
      pos := SkipNewLine(buf, e);
    }
    NextLineIs(b, e, pos);
    ghost var end;
    value, end := CutString(buf, v, e);
    assert b[v..e] == Unread(b, v)[..e - v];
    CutBefore(b, p, end, e, pos);
  }

  lemma NextLineIs(b: seq<char>, e: nat, pos: nat)
    requires Terminated(b, e)
    requires pos == if b[e] != NUL then e + NewLineLength(Unread(b, e)) else e
    ensures pos == NextLine(b, e) && e <= pos < |b| && (b[e] != NUL ==> e < pos) && Terminated(b, pos)
  {
  }

  /** A NUL written before the data that is left does not change it. */
  lemma CutBefore(b: seq<char>, p: nat, end: nat, e: nat, pos: nat)
    requires p <= end <= e <= pos < |b| && Terminated(b, pos) && (e == pos ==> b[e] == NUL)
    ensures var r := b[end := NUL];
            r[pos..] == b[pos..] && r[..p] == b[..p] && Terminated(r, pos) && Unread(r, pos) == Unread(b, pos)
  {
    var r := b[end := NUL];
    assert r[pos..] == b[pos..];
    Same(b, r, pos);
  }

  // ----- Finding an entry -----

  /** What a search delivers: the entry, and the data that is left. */
  ghost predicate Finds(b: seq<char>, pos: nat, entry: Option<Entry>, p: Parsed) {
    match p
    case End => entry == None
    case Parsed(e, rest) => entry == Some(e) && pos < |b| && Terminated(b, pos) && Unread(b, pos) == rest
  }

  /** A key that starts at `t` and ends at the equals sign at `eq`. */
  method FindKey(buf: array<char>, t: nat, eq: nat, section: string, header: Option<nat>, comment: Option<string>, multiLine: bool)
    returns (entry: Option<Entry>, pos: nat)
    requires Terminated(buf[..], t) && t < eq < buf.Length && buf[eq] == '='
    requires header.Some? ==> header.value <= t && Terminated(buf[..], header.value)
    requires eq == t + MarkEnd(Unread(buf[..], t), '=')
    modifies buf
    ensures var s := old(Unread(buf[..], t));
            var name := old(SectionName(section, Open(buf[..], header), s, Trimmed(s[..eq - t])));
            Finds(buf[..], pos, entry, KeyEntry(s, eq - t, name, comment, multiLine))
  {
    hide *;
    StartsInside(buf[..], t);
    ghost var s := Unread(buf[..], t);
    At(buf[..], t, eq);
    var key, name := FindName(buf, t, eq, section, header);
    KeyEntryOf(s, eq - t, name, comment, multiLine);
    entry, pos := FindItem(buf, eq + 1, key, name, comment, multiLine);
  }

  lemma KeyEntryOf(t: string, n: nat, section: string, comment: Option<string>, multiLine: bool)
    requires n < |t|
    ensures KeyEntry(t, n, section, comment, multiLine) ==
            ValueEntry(t[n + 1..], Trimmed(t[..n]), section, comment, multiLine)
  {
  }

  /** The value behind the equals sign of a key, on its line or as tagged lines. */
  method FindItem(buf: array<char>, p: nat, key: string, name: string, comment: Option<string>, multiLine: bool)
    returns (entry: Option<Entry>, pos: nat)
    requires p > 0 && p < buf.Length && Terminated(buf[..], p)
    modifies buf
    ensures Finds(buf[..], pos, entry, old(ValueEntry(Unread(buf[..], p), key, name, comment, multiLine)))
  {
    hide *;
    ghost var s := Unread(buf[..], p);
    var value;
    value, pos := FindValue(buf, p);
    ValueEntryIs(s, key, name, comment, multiLine, value, Unread(buf[..], pos));
    if multiLine && |value| >= 3 && value[..3] == "<<<" {
      var found;
      found, value, pos := FindLines(buf, pos, value[3..]);
      if !found {
        FindsNothing(buf[..], pos);
        return None, pos;
      }
    }
    entry := Some(Entry(name, comment, Some(Item(key, value))));
    FindsIt(buf[..], pos, Entry(name, comment, Some(Item(key, value))), Unread(buf[..], pos));
  }

  lemma FindsNothing(b: seq<char>, pos: nat)
    ensures Finds(b, pos, None, End)
  {
  }

  lemma FindsIt(b: seq<char>, pos: nat, e: Entry, rest: string)
    requires pos < |b| && Terminated(b, pos) && Unread(b, pos) == rest
    ensures Finds(b, pos, Some(e), Parsed(e, rest))
  {
  }

  /** Cuts out the key, and with it the name of a section whose header was not closed. */
  method FindName(buf: array<char>, t: nat, eq: nat, section: string, header: Option<nat>) returns (key: string, name: string)
    requires Terminated(buf[..], t) && t < eq < buf.Length && buf[eq] == '='
    requires header.Some? ==> header.value <= t && Terminated(buf[..], header.value)
    modifies buf
    ensures eq + 1 < buf.Length && Terminated(buf[..], eq + 1)
    ensures var s := old(Unread(buf[..], t));
            && eq - t < |s| && key == Trimmed(s[..eq - t]) && Unread(buf[..], eq + 1) == s[eq - t + 1..]
            && name == old(SectionName(section, Open(buf[..], header), s, Trimmed(s[..eq - t])))
  {
    hide Trimmed, CString, Unread, SectionName, Terminated;
    ghost var b, s := buf[..], Unread(buf[..], t);
    At(b, t, eq);
    ghost var end;
    key, end := CutString(buf, t, eq);
    assert b[t..eq] == s[..eq - t];
    CutKey(b, t, end, eq);
    name := section;
    if header.Some? {
      HeaderCut(b, buf[..], header.value, t, end, section, key);
      name := ReadString(buf, header.value);
    } else {
      NoHeader(section, s, key);
    }
  }

  /** A tagged value, taken from the buffer when it is complete. */
  method FindLines(buf: array<char>, start: nat, tag: string) returns (found: bool, text: string, pos: nat)
    requires start >= 1 && start < buf.Length && Terminated(buf[..], start)
    modifies buf
    ensures var l := old(Tagged(Unread(buf[..], start), tag, "", false));
            && found == l.found
            && (found ==> text == l.text && pos < buf.Length && Terminated(buf[..], pos) && Unread(buf[..], pos) == l.rest)
  {
    hide CString, Unread, Tagged, Terminated, Delivered;
    ghost var b := buf[..];
    found, pos := LoadTagged(buf, start, tag);
    text := "";
    if found {
      DeliveredIs(b, buf[..], start, pos, Tagged(Unread(b, start), tag, "", false));
      text := ReadString(buf, start);
    }
  }

  lemma DeliveredIs(b0: seq<char>, b: seq<char>, start: nat, pos: nat, l: Loaded)
    requires Delivered(b0, b, start, pos, l) && Terminated(b0, start)
    ensures start <= pos < |b| && Terminated(b, pos) && Unread(b, pos) == l.rest && CString(b, start) == l.text
  {
    hide CString;
    Same(b0, b, pos);
  }

  lemma CutKey(b: seq<char>, t: nat, end: nat, eq: nat)
    requires Terminated(b, t) && t <= end <= eq < |b| && b[eq] == '='
    ensures var r := b[end := NUL];
            eq + 1 < |b| && Terminated(r, eq + 1) && Unread(r, eq + 1) == Unread(b, t)[eq - t + 1..]
  {
    At(b, t, eq);
    At(b, eq, eq + 1);
    CutBefore(b, t, end, eq, eq + 1);
  }

  lemma HeaderCut(b: seq<char>, r: seq<char>, h: nat, t: nat, end: nat, section: string, key: string)
    requires Terminated(b, h) && h <= t <= end < |b| && r == b[end := NUL] && CString(r, t) == key
    ensures h <= |r| && CString(r, h) == SectionName(section, Some(Unread(b, h)), Unread(b, t), key)
  {
    hide CString, SectionName;
    assert r[h..t] == b[h..t];
    assert r[t..][end - t] == NUL;
    HeaderRunsOn(b, r, h, t, section, key);
  }

  lemma NoHeader(section: string, s: string, last: string)
    ensures SectionName(section, None, s, last) == section
  {
  }

  lemma ValueEntryIs(s: string, key: string, name: string, comment: Option<string>, multiLine: bool, value: string, rest: string)
    requires var line := s[BlankCount(s)..];
             value == Trimmed(line[..LineEnd(line)]) && rest == AfterLine(line, LineEnd(line))
    ensures ValueEntry(s, key, name, comment, multiLine) ==
            if multiLine && |value| >= 3 && value[..3] == "<<<" then
              var l := Tagged(rest, value[3..], "", false);
              if l.found then Parsed(Entry(name, comment, Some(Item(key, l.text))), l.rest) else End
            else Parsed(Entry(name, comment, Some(Item(key, value))), rest)
  {
    hide BlankCount, LineEnd, AfterLine, Trimmed, Tagged;
    assert "<<<" <= value <==> |value| >= 3 && value[..3] == "<<<";
  }

  /** `FindEntry`, for the flags that have their defaults except for multi-line values. */
  method FindEntry(buf: array<char>, start: nat, section: string, multiLine: bool) returns (entry: Option<Entry>, pos: nat)
    requires Terminated(buf[..], start)
    modifies buf
    ensures Finds(buf[..], pos, entry, old(Next(Unread(buf[..], start), section, None, None, multiLine)))
  {
    hide Next, Unread, Terminated, Start, MarkEnd, Comments, KeyEntry, AfterHeader, LineEnd, SectionName, CString, Trimmed, Delivered;
    ghost var b0 := buf[..];
    StartsInside(b0, start);
    ghost var s0 := Unread(b0, start);
    var p: nat, name, comment: Option<string>, header: Option<nat> := start, section, None, None;
    while true
      invariant start <= p < buf.Length == |b0| && Untouched(b0, buf[..], p, header)
      invariant Next(s0, section, None, None, multiLine) == Next(Unread(b0, p), name, comment, Open(b0, header), multiLine)
      decreases buf.Length - p
    {
      TouchedNothing(b0, buf[..], p, header);
      var t := SkipSpaces(buf, p);
      Later(b0, buf[..], p, t, header);
      FirstUnread(buf[..], t);
      NextStart(Unread(b0, p), name, comment, Open(b0, header), multiLine);
      if buf[t] == NUL {
        NextEnd(Unread(b0, p), name, comment, Open(b0, header), multiLine);
        return None, t;
      } else if IsComment(buf[t]) {
        NextComment(Unread(b0, p), name, comment, Open(b0, header), multiLine);
        p, name, comment := FindComment(buf, b0, t, name, header);
        header := None;
      } else {
        var done;
        if buf[t] == '[' {
          done, entry, pos, header := FindHeader(buf, b0, t, name, comment, header, multiLine);
        } else {
          done, entry, pos := FindKeyLine(buf, b0, t, name, comment, header, multiLine);
        }
        if done {
          return;
        }
        p := pos;
      }
    }
  }

  /** After a line that is not a comment: an entry was found, or the search goes on at `pos` in the same way. */
  ghost predicate LineFound(b0: seq<char>, b: seq<char>, t: nat, name: string, comment: Option<string>, header: Option<nat>,
                            multiLine: bool, done: bool, entry: Option<Entry>, pos: nat, open: Option<nat>)
    requires t < |b0| && (header.Some? ==> header.value < |b0|)
  {
    var found := Next(Unread(b0, t), name, comment, Open(b0, header), multiLine);
    if done then Finds(b, pos, entry, found)
    else
      && t < pos < |b| == |b0| && Untouched(b0, b, pos, open) && (open.Some? ==> open.value < |b0|)
      && found == Next(Unread(b0, pos), name, comment, Open(b0, open), multiLine)
  }

  /** A section header: a section, or a header that is not closed on its line. */
  method FindHeader(buf: array<char>, ghost b0: seq<char>, t: nat, ghost name: string, comment: Option<string>,
                    ghost header: Option<nat>, ghost multiLine: bool)
    returns (done: bool, entry: Option<Entry>, pos: nat, open: Option<nat>)
    requires t < buf.Length && Untouched(b0, buf[..], t, header) && buf[t] == '['
    modifies buf
    ensures t < |b0| && (header.Some? ==> header.value < |b0|)
    ensures LineFound(b0, buf[..], t, name, comment, header, multiLine, done, entry, pos, open)
  {
    hide Next, Untouched, Unread, Start, MarkEnd, AfterHeader, Trimmed, Terminated, Finds, Open, IsSpace;
    MarksAreNotNul();
    TouchedNothing(b0, buf[..], t, header);
    FirstUnread(buf[..], t);
    MarksAreNoSpace();
    StartIsHere(Unread(b0, t));
    var u, n := ScanHeader(buf, t);
    NextHeader(Unread(b0, t), name, comment, Open(b0, header), multiLine);
    At(buf[..], u, n);
    NewHeader(b0, buf[..], t, u, n, header);
    done, pos, open, entry := buf[n] == ']', n, Some(u), None;
    TouchedNothing(b0, buf[..], n, open);
    OpenIs(b0, u);
    if done {
      entry, pos := FindSection(buf, u, n, comment);
    }
  }

  /** A line with a key, or one that is passed over. */
  method FindKeyLine(buf: array<char>, ghost b0: seq<char>, t: nat, name: string, comment: Option<string>, header: Option<nat>,
                     multiLine: bool)
    returns (done: bool, entry: Option<Entry>, pos: nat)
    requires t < buf.Length && Untouched(b0, buf[..], t, header)
    requires buf[t] != NUL && !IsSpace(buf[t]) && !IsComment(buf[t]) && buf[t] != '['
    modifies buf
    ensures t < |b0| && (header.Some? ==> header.value < |b0|)
    ensures LineFound(b0, buf[..], t, name, comment, header, multiLine, done, entry, pos, header)
  {
    hide *;
    TouchedNothing(b0, buf[..], t, header);
    KeyHere(buf[..], t);
    var n := ScanMark(buf, t, '=');
    At(buf[..], t, n);
    MarksAreNotNul();
    done, pos, entry := buf[n] == '=' && n != t, n, None;
    if done {
      NextKey(Unread(b0, t), name, comment, Open(b0, header), multiLine);
      entry, pos := FindKey(buf, t, n, name, header, comment, multiLine);
      EntryFound(b0, buf[..], t, name, comment, header, multiLine, entry, pos);
    } else {
      if buf[n] == '=' {
        pos := FindLineEnd(buf, t);
        At(buf[..], t, pos);
      }
      PassedOver(b0, buf[..], t, n, pos, name, comment, header, multiLine);
    }
  }

  /** The data at a position that starts a key. */
  lemma KeyHere(b: seq<char>, t: nat)
    requires t < |b| && Terminated(b, t) && b[t] != NUL && !IsSpace(b[t]) && !IsComment(b[t]) && b[t] != '['
    ensures Start(Unread(b, t)) == Unread(b, t) && Unread(b, t) != "" && Unread(b, t)[0] == b[t]
    ensures StartsKey(Unread(b, t))
  {
    hide Unread, Terminated, IsComment, Start;
    FirstUnread(b, t);
    StartIsHere(Unread(b, t));
    hide IsSpace;
    KeyStarts(Unread(b, t));
  }

  lemma EntryFound(b0: seq<char>, b: seq<char>, t: nat, name: string, comment: Option<string>, header: Option<nat>,
                   multiLine: bool, entry: Option<Entry>, pos: nat)
    requires t < |b0| && (header.Some? ==> header.value < |b0|)
    requires Finds(b, pos, entry, Next(Unread(b0, t), name, comment, Open(b0, header), multiLine))
    ensures LineFound(b0, b, t, name, comment, header, multiLine, true, entry, pos, header)
  {
    hide Next, Unread, Finds, Open, Untouched;
  }

  /** A line without a key leads to the position behind it. */
  lemma PassedOver(b0: seq<char>, b: seq<char>, t: nat, n: nat, pos: nat, name: string, comment: Option<string>,
                   header: Option<nat>, multiLine: bool)
    requires t < |b| && Untouched(b0, b, t, header)
    requires StartsKey(Unread(b, t)) && Start(Unread(b, t)) == Unread(b, t) && t <= n < |b|
    requires n - t == MarkEnd(Unread(b, t), '=') && !(b[n] == '=' && n != t)
    requires t <= pos < |b| && pos == if b[n] == '=' then t + LineEnd(Unread(b, t)) else n
    ensures t < |b0| && (header.Some? ==> header.value < |b0|)
    ensures LineFound(b0, b, t, name, comment, header, multiLine, false, None, pos, header)
  {
    hide Next, Untouched, Unread, Start, MarkEnd, LineEnd, Terminated, Finds, Open, IsSpace, IsComment, StartsKey;
    MarksAreNotNul();
    TouchedNothing(b0, b, t, header);
    At(b, t, n);
    At(b, t, pos);
    LineNotEmpty(Unread(b, t));
    NextNoKey(Unread(b0, t), name, comment, Open(b0, header), multiLine);
    Later(b0, b, t, pos, header);
    TouchedNothing(b0, b, pos, header);
  }

  lemma LineNotEmpty(t: string)
    requires StartsKey(t) && Start(t) == t
    ensures LineEnd(t) > 0
    ensures MarkEnd(t, '=') == 0 ==> t[0] == '='
  {
  }

  lemma MarksAreNotNul()
    ensures NUL != '=' && NUL != ']' && NUL != '['
  {
  }

  lemma MarksAreNoSpace()
    ensures !IsSpace('[') && !IsSpace(']')
  {
  }

  lemma OpenIs(b: seq<char>, u: nat)
    requires u < |b|
    ensures Open(b, Some(u)) == Some(Unread(b, u))
  {
  }

  lemma StartIsHere(s: string)
    requires s == "" || !IsSpace(s[0])
    ensures Start(s) == s
    ensures s != "" ==> !IsNewLine(s[0])
  {
    SpaceCountIs(s, 0);
    hide SpaceCount;
  }

  lemma NextStart(s: string, section: string, comment: Option<string>, open: Option<string>, multiLine: bool)
    ensures Next(s, section, comment, open, multiLine) == Next(Start(s), section, comment, open, multiLine)
  {
    StartIsHere(Start(s));
    hide Start, Comments, MarkEnd, KeyEntry, AfterHeader, LineEnd, SectionName, Trimmed;
  }

  lemma StartsInside(b: seq<char>, p: nat)
    requires Terminated(b, p)
    ensures p < |b|
  {
  }

  /** From `p` on, and from an open header on, the data is as it was. */
  ghost predicate Untouched(b0: seq<char>, b: seq<char>, p: nat, header: Option<nat>) {
    && |b| == |b0| && p < |b| && b[p..] == b0[p..] && Terminated(b0, p)
    && (header.Some? ==> header.value <= p && b[header.value..] == b0[header.value..] && Terminated(b0, header.value))
  }

  lemma TouchedNothing(b0: seq<char>, b: seq<char>, p: nat, header: Option<nat>)
    requires Untouched(b0, b, p, header)
    ensures |b| == |b0| && p < |b| && Terminated(b, p) && Terminated(b0, p) && Unread(b, p) == Unread(b0, p)
    ensures header.Some? ==> header.value <= p && Terminated(b, header.value) && Terminated(b0, header.value)
    ensures Open(b, header) == Open(b0, header)
  {
    Same(b0, b, p);
    if header.Some? { Same(b0, b, header.value); }
  }

  lemma Later(b0: seq<char>, b: seq<char>, p: nat, q: nat, header: Option<nat>)
    requires Untouched(b0, b, p, header) && p <= q < |b|
    ensures Untouched(b0, b, q, header) && Unread(b, q) == Unread(b0, q)
  {
    Same(b0, b, p);
    Same(b0, b, q);
  }

  lemma NewHeader(b0: seq<char>, b: seq<char>, p: nat, u: nat, n: nat, header: Option<nat>)
    requires Untouched(b0, b, p, header) && p <= u <= n < |b|
    ensures Untouched(b0, b, n, Some(u)) && Unread(b, n) == Unread(b0, n) && Unread(b, u) == Unread(b0, u)
  {
    Same(b0, b, p);
    Same(b0, b, u);
    Same(b0, b, n);
  }

  /** The name behind an opening bracket: where it starts, and where it ends. */
  method ScanHeader(buf: array<char>, t: nat) returns (u: nat, n: nat)
    requires Terminated(buf[..], t) && buf[t] == '['
    ensures t < u <= n < buf.Length && Terminated(buf[..], u)
    ensures Unread(buf[..], t) != "" && Unread(buf[..], u) == Start(Unread(buf[..], t)[1..])
    ensures n == u + MarkEnd(Unread(buf[..], u), ']')
  {
    hide Start, MarkEnd, Unread, Terminated;
    StartsInside(buf[..], t);
    At(buf[..], t, t);
    u := SkipSpaces(buf, t + 1);
    n := ScanMark(buf, u, ']');
    assert Unread(buf[..], t)[0 + 1..] == Unread(buf[..], t + 1);
  }

  method FindSection(buf: array<char>, u: nat, n: nat, comment: Option<string>) returns (entry: Option<Entry>, pos: nat)
    requires Terminated(buf[..], u) && u <= n < buf.Length && buf[n] == ']'
    modifies buf
    ensures var s := old(Unread(buf[..], u));
            && n - u < |s|
            && Finds(buf[..], pos, entry, Parsed(Entry(Trimmed(s[..n - u]), comment, None), AfterHeader(s, n - u)))
  {
    hide Trimmed, CString, Unread, LineEnd, Terminated;
    ghost var b, s := buf[..], Unread(buf[..], u);
    At(b, u, n);
    assert s[..n - u] == b[u..n];
    ghost var end;
    var name;
    name, end := CutString(buf, u, n);
    At(b, n, n + 1);
    CutBefore(b, u, end, n, n + 1);
    pos := FindLineEnd(buf, n + 1);
    At(buf[..], n + 1, pos);
    entry := Some(Entry(name, comment, None));
  }

  /** A comment is found wherever a comment character starts a line. */
  lemma {:induction false} CommentFound(s: string, output: string)
    requires output != "" || (s != "" && IsComment(s[0]))
    ensures Comments(s, true, output).found
    decreases |s|
  {
    if s == "" || !IsComment(s[0]) {
      var k := SpaceCount(s);
      if k < |s| && IsComment(s[k]) { CommentFound(s[k..], output + Lines(NewLineCount(s[..k]))); }
    } else {
      var n := LineEnd(s);
      if n < |s| { CommentFound(AfterLine(s, n), output + s[..n] + "\n"); }
    }
  }

  method FindComment(buf: array<char>, ghost b0: seq<char>, t: nat, section: string, header: Option<nat>)
    returns (pos: nat, name: string, comment: Option<string>)
    requires t < buf.Length && Untouched(b0, buf[..], t, header) && IsComment(buf[t])
    modifies buf
    ensures var s := Unread(b0, t);
            var l := Comments(s, true, "");
            && name == SectionName(section, Open(b0, header), s, l.text) && comment == Some(l.text)
            && t < pos < buf.Length == |b0| && Untouched(b0, buf[..], pos, None) && Unread(b0, pos) == l.rest
  {
    hide Unread, Comments, SectionName, CString, Terminated;
    ghost var b, s := buf[..], Unread(b0, t);
    TouchedNothing(b0, b, t, header);
    FirstUnread(b, t);
    NotNul(b[t]);
    CommentFound(s, "");
    var found;
    found, pos := LoadComments(buf, t, true);
    ghost var l := Comments(s, true, "");
    assert Delivered(b, buf[..], t, pos, l);
    var text := ReadString(buf, t);
    name := section;
    if header.Some? {
      HeaderBefore(b0, b, buf[..], header.value, t, section, text);
      name := ReadString(buf, header.value);
    } else {
      NoHeader(section, s, text);
    }
    AfterComment(b0, b, buf[..], t, pos, header, l);
    comment := Some(text);
  }

  lemma NotNul(c: char)
    requires IsComment(c)
    ensures c != NUL
  {
  }

  lemma HeaderBefore(b0: seq<char>, b: seq<char>, r: seq<char>, h: nat, t: nat, section: string, text: string)
    requires Untouched(b0, b, t, Some(h)) && t <= |r| == |b| && r[..t] == b[..t] && CString(r, t) == text
    requires r[|r| - 1] == NUL
    ensures h <= |r| && CString(r, h) == SectionName(section, Some(Unread(b0, h)), Unread(b0, t), text)
  {
    hide CString, SectionName;
    assert r[h..t] == r[..t][h..] == b[..t][h..] == b[h..t];
    assert b[h..t] == b[h..][..t - h] == b0[h..][..t - h] == b0[h..t];
    assert r[t..][|r| - 1 - t] == NUL;
    HeaderRunsOn(b0, r, h, t, section, text);
  }

  lemma AfterComment(b0: seq<char>, b: seq<char>, r: seq<char>, t: nat, pos: nat, header: Option<nat>, l: Loaded)
    requires Untouched(b0, b, t, header) && Delivered(b, r, t, pos, l)
    requires |l.rest| < |Unread(b0, t)|
    ensures t < pos < |r| && Untouched(b0, r, pos, None) && Unread(b0, pos) == l.rest && r[|r| - 1] == NUL
  {
    hide CString;
    Same(b0, b, t);
    Same(b, r, pos);
    assert r[pos..] == b0[pos..];
  }
}
