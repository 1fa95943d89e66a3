/** The in-place loading of comments and tagged values from a buffer that ends with a NUL. */
module IniBuffer {
  import opened Text
  import opened IniOrder
  import opened IniLines

  const NUL := '\0'

  /** From `p` on, the only NUL is the last character. */
  ghost predicate Terminated(b: seq<char>, p: nat) {
    p < |b| && b[|b| - 1] == NUL && forall i :: p <= i < |b| - 1 ==> b[i] != NUL
  }

  /** The data from `p` on, without the NUL at its end. */
  function Unread(b: seq<char>, p: nat): string
    requires p < |b|
  {
    b[p..|b| - 1]
  }

  /** The string that starts at `p` and goes up to the next NUL. */
  function CString(b: seq<char>, p: nat): string
    requires p <= |b|
  {
    b[p..p + IndexOf(b[p..], NUL)]
  }

  lemma CStringIs(b: seq<char>, p: nat, s: string)
    requires p + |s| < |b| && b[p..p + |s|] == s && b[p + |s|] == NUL && NUL !in s
    ensures CString(b, p) == s
  {
    var t := b[p..];
    assert forall k :: 0 <= k < |s| ==> t[k] == s[k];
    assert t[|s|] == NUL;
    assert IndexOf(t, NUL) == |s|;
  }

  /** Advances to the end of the line. */
  method FindLineEnd(buf: array<char>, p: nat) returns (e: nat)
    requires Terminated(buf[..], p)
    ensures p <= e < buf.Length && e == p + LineEnd(Unread(buf[..], p))
    ensures NUL !in buf[p..e]
  {
    hide LineEnd;
    ghost var s := Unread(buf[..], p);
    e := p;
    while buf[e] != NUL && !IsNewLine(buf[e])
      invariant p <= e < buf.Length
      invariant forall k :: 0 <= k < e - p ==> !IsNewLine(s[k])
      decreases buf.Length - e
    {
      e := e + 1;
    }
    LineEndIs(s, e - p);
  }

  /** `SkipNewLine` */
  method SkipNewLine(buf: array<char>, p: nat) returns (q: nat)
    requires Terminated(buf[..], p) && buf[p] != NUL
    ensures q == p + NewLineLength(Unread(buf[..], p))
    ensures q < buf.Length
  {
    q := p + if buf[p] == '\r' && buf[p + 1] == '\n' then 2 else 1;
  }

  /** The buffer after the line from `p` to `e` is moved down to `d` and ended with a NUL in both places. */
  function Ended(b: seq<char>, d: nat, p: nat, e: nat): (r: seq<char>)
    requires d <= p <= e < |b|
    ensures |r| == |b|
  {
    (if d < p then b[..d] + b[p..e] + [NUL] + b[d + e - p + 1..] else b)[e := NUL]
  }

  lemma EndedIs(b: seq<char>, d: nat, p: nat, e: nat)
    requires d <= p <= e < |b|
    ensures var r := Ended(b, d, p, e);
            && r[..d] == b[..d] && r[d..d + e - p] == b[p..e]
            && r[d + e - p] == NUL && r[e] == NUL && r[e + 1..] == b[e + 1..]
  {
  }

  method EndLine(buf: array<char>, d: nat, p: nat, e: nat) returns (endOfLine: char)
    requires d <= p <= e < buf.Length
    modifies buf
    ensures endOfLine == old(buf[e])
    ensures buf[..] == Ended(old(buf[..]), d, p, e)
  {
    ghost var b := buf[..];
    if d < p {
      forall i | 0 <= i < e - p {
        buf[d + i] := buf[p + i];
      }
      buf[d + (e - p)] := NUL;
      assert buf[..] == b[..d] + b[p..e] + [NUL] + b[d + e - p + 1..];
    }
    endOfLine := buf[e];
    buf[e] := NUL;
  }

  /** Compares the line at `d`, which was read from `p` to `e`, with the tag; a line that matches stays cut off at `end`. */
  method IsTagLine(buf: array<char>, d: nat, p: nat, e: nat, tag: string) returns (same: bool, end: nat)
    requires 1 <= d <= p <= e < buf.Length
    requires buf[e] == NUL && buf[d + e - p] == NUL && NUL !in buf[d..d + e - p]
    modifies buf
    ensures same <==> EndsText(old(buf[d..d + e - p]), tag, d < p)
    ensures IsTagEnd(old(buf[..]), d, p, e, end) && d <= end <= e
    ensures buf[..] == if same then old(buf[..])[end := NUL] else old(buf[..])
  {
    hide TagTrimmed, CString, Folded, Less;
    ghost var b := buf[..];
    end := TrimTag(buf, d, p, e);
    var ch := buf[end];
    buf[end] := NUL;
    TagCandidate(b, d, p, e, end);
    var here := ReadString(buf, d);
    var less := IsLess(here, tag);
    var greater := IsLess(tag, here);
    UnorderedIsSameFolded(here, tag);
    same := !less && !greater;
    if !same {
      buf[end] := ch;
    }
  }

  /** Where a line is cut off before it is compared; of text that was moved, nothing is trimmed. */
  ghost predicate IsTagEnd(b: seq<char>, d: nat, p: nat, e: nat, end: nat)
    requires d <= p <= e < |b|
  {
    if d == p then end == d + |TagTrimmed(b[d..e])| else d + e - p < end <= e
  }

  lemma TagCandidate(b: seq<char>, d: nat, p: nat, e: nat, end: nat)
    requires d <= p <= e < |b| && IsTagEnd(b, d, p, e, end)
    requires b[e] == NUL && b[d + e - p] == NUL && NUL !in b[d..d + e - p]
    ensures d <= end <= e
    ensures CString(b[end := NUL], d) == if d < p then b[d..d + e - p] else TagTrimmed(b[d..e])
  {
    hide TagTrimmed, CString;
    var line := b[d..d + e - p];
    var candidate := if d < p then line else TagTrimmed(line);
    var r := b[end := NUL];
    assert r[d..d + |candidate|] == candidate;
    assert forall c :: c in candidate ==> c in line;
    CStringIs(r, d, candidate);
  }

  method TrimTag(buf: array<char>, d: nat, p: nat, e: nat) returns (end: nat)
    requires 1 <= d <= p <= e < buf.Length
    requires buf[d + e - p] == NUL
    ensures IsTagEnd(buf[..], d, p, e, end) && end <= e
  {
    hide TagTrimmed;
    var pc := e - 1;
    ghost var line := buf[d..e];
    assert line[..e - d] == line;
    while pc > d && IsSpace(buf[pc])
      invariant d - 1 <= pc < e
      invariant d < p ==> pc >= d + e - p
      invariant pc < d ==> line == ""
      invariant TagTrimmed(line[..pc + 1 - d]) == TagTrimmed(line)
    {
      TrimOne(line[..pc + 1 - d]);
      assert line[..pc + 1 - d][..pc - d] == line[..pc - d];
      pc := pc - 1;
    }
    TrimStop(line[..pc + 1 - d]);
    end := pc + 1;
    assert buf[..][d..e] == line;
  }

  method ReadString(buf: array<char>, p: nat) returns (s: string)
    requires p <= buf.Length
    ensures s == CString(buf[..], p)
  {
    s := CString(buf[..], p);
  }

  lemma TrimOne(line: string)
    requires |line| > 1 && IsSpace(line[|line| - 1])
    ensures TagTrimmed(line[..|line| - 1]) == TagTrimmed(line)
  {
  }

  lemma TrimStop(line: string)
    requires |line| <= 1 || !IsSpace(line[|line| - 1])
    ensures TagTrimmed(line) == line
  {
  }

  // ----- Tagged values -----

  /** The state between two lines: `output` is in place from `start` to `d`, and the data from `p` on is untouched. */
  ghost predicate Compacted(b0: seq<char>, b: seq<char>, start: nat, d: nat, p: nat, output: string) {
    && |b| == |b0| && start <= d <= p < |b|
    && b[..start] == b0[..start] && b[start..d] == output && b[p..] == b0[p..]
    && NUL !in output && (output == "" <==> p == start)
  }

  /** What loading delivers: the text is a string at `start`, and the data from `pos` on is left, untouched. */
  ghost predicate Delivered(b0: seq<char>, b: seq<char>, start: nat, pos: nat, l: Loaded) {
    && |b| == |b0| && start <= pos < |b|
    && CString(b, start) == l.text
    && b[pos..] == b0[pos..] && Unread(b0, pos) == l.rest
  }

  /** The line at `p`, when it ends at `e`. */
  lemma LineAt(b0: seq<char>, p: nat, e: nat)
    requires Terminated(b0, p) && e == p + LineEnd(Unread(b0, p))
    ensures p <= e < |b0| && Terminated(b0, e) && NUL !in b0[p..e]
    ensures var s := Unread(b0, p);
            var n := e - p;
            && s[..n] == b0[p..e] && (n == |s| <==> b0[e] == NUL)
            && AfterLine(s, n) == Unread(b0, NextLine(b0, e))
            && (n < |s| ==> NewLineLength(s[n..]) == NextLine(b0, e) - e)
            && (n == |s| ==> Unread(b0, e) == "" && s == b0[p..e])
  {
    hide LineEnd, NewLineLength;
    var s := Unread(b0, p);
    assert e < |b0| - 1 ==> s[e - p..] == Unread(b0, e);
  }

  /** Where the line after the one that ends at `e` starts. */
  function NextLine(b: seq<char>, e: nat): (q: nat)
    requires e < |b|
    ensures e <= q < |b| && (e < |b| - 1 ==> e < q)
  {
    if e == |b| - 1 then e else e + NewLineLength(Unread(b, e))
  }

  /** Puts the newline back, if there is one, and steps over it. */
  method StepOver(buf: array<char>, e: nat, endOfLine: char, ghost b0: seq<char>) returns (q: nat)
    requires e < buf.Length == |b0| && Terminated(b0, e) && b0[e] == endOfLine
    requires buf[e] == NUL && buf[e + 1..] == b0[e + 1..]
    modifies buf
    ensures buf[..] == old(buf[..])[e := endOfLine]
    ensures q == NextLine(b0, e)
  {
    hide NewLineLength;
    q := e;
    if endOfLine != NUL {
      buf[e] := endOfLine;
      assert buf[e..] == b0[e..] && Unread(buf[..], e) == Unread(b0, e);
      q := SkipNewLine(buf, e);
    }
  }

  /** Takes over an ended line that another one follows, with a single newline character. */
  method TakeOver(buf: array<char>, ghost b0: seq<char>, ghost b: seq<char>, start: nat, d: nat, p: nat, e: nat,
                  endOfLine: char, ghost output: string)
    returns (q: nat)
    requires Compacted(b0, b, start, d, p, output) && Terminated(b0, e) && p <= e < |b0| - 1 && NUL !in b0[p..e]
    requires buf.Length == |b0| && buf[..] == Ended(b, d, p, e) && b0[e] == endOfLine
    modifies buf
    ensures q == NextLine(b0, e) && e < q < buf.Length
    ensures Compacted(b0, buf[..], start, d + (e - p) + 1, q, output + b0[p..e] + "\n")
  {
    hide Ended, NextLine, Unread, Compacted;
    CompactedIs(b0, b, start, d, p, output);
    LineEnded(b0, b, start, d, p, e, output);
    q := StepOver(buf, e, endOfLine, b0);
    NextIsInside(b0, e);
    buf[d + (e - p)] := '\n';
    LineTaken(b0, b, start, d, p, e, q, output);
  }

  lemma NextIsInside(b: seq<char>, e: nat)
    requires e < |b| - 1
    ensures e < NextLine(b, e) < |b|
  {
  }

  /** The loading of a tagged value. */
  method LoadTagged(buf: array<char>, start: nat, tag: string) returns (found: bool, pos: nat)
    requires start >= 1 && Terminated(buf[..], start)
    modifies buf
    ensures var l := old(Tagged(Unread(buf[..], start), tag, "", false));
            && found == l.found
            && (found ==> Delivered(old(buf[..]), buf[..], start, pos, l))
            && (!found ==> pos < buf.Length && buf[pos] == NUL)
    ensures buf[..start - 1] == old(buf[..start - 1])
  {
    hide Tagged, EndsText, CString, TagTrimmed, LineEnd, NewLineLength, AfterLine, Ended, Unread, NextLine, IsTagEnd, Delivered;
    ghost var b0, s0 := buf[..], Unread(buf[..], start);
    var d: nat, p: nat := start, start;
    ghost var output := "";
    while true
      invariant Compacted(b0, buf[..], start, d, p, output)
      invariant Terminated(b0, p)
      invariant Tagged(s0, tag, "", false) == Tagged(Unread(b0, p), tag, output, d < p)
      decreases buf.Length - p
    {
      ghost var b := buf[..];
      Untouched(b0, b, start, d, p, output);
      var e := FindLineEnd(buf, p);
      LineAt(b0, p, e);
      LineEnded(b0, b, start, d, p, e, output);
      var endOfLine := EndLine(buf, d, p, e);
      var same, end := IsTagLine(buf, d, p, e, tag);
      if same {
        if start == e {
          TaggedStops(Unread(b0, p), tag, output, d < p);
          assert buf[..start - 1] == Ended(b, d, p, e)[..start][..start - 1];
          return false, e;
        }
        buf[d - 1] := NUL;
        TagDelivers(b0, b, start, d, p, e, end, tag, output);
        pos := StepOver(buf, e, endOfLine, b0);
        return true, pos;
      }
      if endOfLine == NUL {
        EndDelivers(b0, b, start, d, p, e, tag, output);
        return true, e;
      }
      TaggedNext(Unread(b0, p), tag, output, d < p);
      var q := TakeOver(buf, b0, b, start, d, p, e, endOfLine, output);
      output := output + b0[p..e] + "\n";
      d, p := d + (e - p) + 1, q;
    }
  }

  lemma Untouched(b0: seq<char>, b: seq<char>, start: nat, d: nat, p: nat, output: string)
    requires Compacted(b0, b, start, d, p, output) && Terminated(b0, p)
    ensures Terminated(b, p) && Unread(b, p) == Unread(b0, p)
  {
    assert forall i :: p <= i < |b| ==> b[i] == b[p..][i - p] == b0[i];
  }

  /** The buffer after the line at `p` was ended. */
  lemma LineEnded(b0: seq<char>, b: seq<char>, start: nat, d: nat, p: nat, e: nat, output: string)
    requires Compacted(b0, b, start, d, p, output) && p <= e < |b0| && NUL !in b0[p..e]
    ensures b[e] == b0[e]
    ensures var r := Ended(b, d, p, e);
            && r[d..d + e - p] == b0[p..e] && r[d + e - p] == NUL && r[e] == NUL
            && r[..start] == b0[..start] && r[start..d] == output && r[e + 1..] == b0[e + 1..]
  {
    EndedIs(b, d, p, e);
    hide Ended;
    var r := Ended(b, d, p, e);
    assert b[p..e] == b[p..][..e - p] && b[e] == b[p..][e - p] && b[e + 1..] == b[p..][e + 1 - p..];
    assert r[..start] == r[..d][..start] && r[start..d] == r[..d][start..];
    assert b[..start] == b[..d][..start] && b[start..d] == b[..d][start..];
  }

  lemma TaggedNext(s: string, tag: string, output: string, moved: bool)
    requires var n := LineEnd(s); n < |s| && !EndsText(s[..n], tag, moved)
    ensures var n := LineEnd(s);
            Tagged(s, tag, output, moved) ==
            Tagged(AfterLine(s, n), tag, output + s[..n] + "\n", moved || NewLineLength(s[n..]) == 2)
  {
    hide EndsText, LineEnd, NewLineLength, AfterLine;
  }

  lemma TaggedStops(s: string, tag: string, output: string, moved: bool)
    requires EndsText(s[..LineEnd(s)], tag, moved)
    ensures var n := LineEnd(s);
            Tagged(s, tag, output, moved) ==
            if output != "" then Loaded(true, output[..|output| - 1], AfterLine(s, n))
            else if n == 0 then Loaded(false, "", "")
            else Loaded(true, if |TagTrimmed(s[..n])| < n then TagTrimmed(s[..n]) else s, AfterLine(s, n))
  {
    hide EndsText, LineEnd, NewLineLength, AfterLine, TagTrimmed;
  }

  lemma TaggedAtEnd(s: string, tag: string, output: string, moved: bool)
    requires LineEnd(s) == |s| && !EndsText(s, tag, moved)
    ensures Tagged(s, tag, output, moved) == Loaded(true, output + s, "")
  {
    hide EndsText, LineEnd, NewLineLength, AfterLine, TagTrimmed;
    assert s[..|s|] == s;
  }

  /** The next line was taken over. */
  lemma LineTaken(b0: seq<char>, b: seq<char>, start: nat, d: nat, p: nat, e: nat, q: nat, output: string)
    requires Compacted(b0, b, start, d, p, output) && p <= e < q < |b0| && NUL !in b0[p..e]
    ensures Compacted(b0, Ended(b, d, p, e)[e := b0[e]][d + (e - p) := '\n'], start, d + (e - p) + 1, q,
                      output + b0[p..e] + "\n")
  {
    LineEnded(b0, b, start, d, p, e, output);
    hide Ended;
    var r := Ended(b, d, p, e);
    var r' := r[e := b0[e]][d + (e - p) := '\n'];
    assert r'[..start] == r[..start];
    assert r'[start..d] == r[start..d];
    assert r'[d..d + (e - p)] == r[d..d + e - p];
    assert r'[start..d + (e - p) + 1] == output + b0[p..e] + "\n";
    assert r'[q..] == r[e + 1..][q - e - 1..] == b0[q..];
  }

  /** The data ended before the tag: the text goes up to the end. */
  lemma EndDelivers(b0: seq<char>, b: seq<char>, start: nat, d: nat, p: nat, e: nat, tag: string, output: string)
    requires Compacted(b0, b, start, d, p, output) && Terminated(b0, p)
    requires e == p + LineEnd(Unread(b0, p)) && e < |b0| && b0[e] == NUL
    requires !EndsText(b0[p..e], tag, d < p)
    ensures Delivered(b0, Ended(b, d, p, e), start, e, Tagged(Unread(b0, p), tag, output, d < p))
    ensures Tagged(Unread(b0, p), tag, output, d < p).found
    ensures start >= 1 ==> Ended(b, d, p, e)[..start - 1] == b0[..start - 1]
  {
    hide *;
    CompactedIs(b0, b, start, d, p, output);
    LineAt(b0, p, e);
    assert Unread(b0, p)[..e - p] == Unread(b0, p);
    TaggedAtEnd(Unread(b0, p), tag, output, d < p);
    LineEnded(b0, b, start, d, p, e, output);
    var r := Ended(b, d, p, e);
    EndString(b0, r, start, d, p, e, output);
    Deliver(b0, r, start, e, Tagged(Unread(b0, p), tag, output, d < p));
    if start >= 1 { assert r[..start - 1] == r[..start][..start - 1]; }
  }

  lemma CompactedIs(b0: seq<char>, b: seq<char>, start: nat, d: nat, p: nat, output: string)
    requires Compacted(b0, b, start, d, p, output)
    ensures |b| == |b0| && start <= d <= p < |b|
    ensures NUL !in output && (output == "" <==> p == start) && |output| == d - start
  {
  }

  lemma Deliver(b0: seq<char>, b: seq<char>, start: nat, pos: nat, l: Loaded)
    requires |b| == |b0| && start <= pos < |b|
    requires CString(b, start) == l.text
    requires b[pos..] == b0[pos..] && Unread(b0, pos) == l.rest
    ensures Delivered(b0, b, start, pos, l)
  {
  }

  lemma EndString(b0: seq<char>, r: seq<char>, start: nat, d: nat, p: nat, e: nat, output: string)
    requires start <= d <= p <= e < |b0| && |r| == |b0| && b0[e] == NUL && r[e] == NUL && r[e + 1..] == b0[e + 1..]
    requires r[start..d] == output && r[d..d + e - p] == b0[p..e] && r[d + e - p] == NUL
    requires NUL !in output && NUL !in b0[p..e]
    ensures CString(r, start) == output + b0[p..e]
    ensures r[e..] == b0[e..]
  {
    hide CString;
    assert r[start..d + e - p] == output + b0[p..e];
    CStringIs(r, start, output + b0[p..e]);
  }

  /** The tag line was found: the last newline of the text is cut off, and the newline of the tag line put back. */
  lemma TagDelivers(b0: seq<char>, b: seq<char>, start: nat, d: nat, p: nat, e: nat, end: nat, tag: string, output: string)
    requires 1 <= start < e && Compacted(b0, b, start, d, p, output) && Terminated(b0, p)
    requires e == p + LineEnd(Unread(b0, p)) && e < |b0|
    requires EndsText(b0[p..e], tag, d < p) && IsTagEnd(Ended(b, d, p, e), d, p, e, end) && d <= end <= e
    ensures var r := Ended(b, d, p, e)[end := NUL][d - 1 := NUL];
            && r[e] == NUL && r[e + 1..] == b0[e + 1..]
            && Delivered(b0, r[e := b0[e]], start, NextLine(b0, e), Tagged(Unread(b0, p), tag, output, d < p))
            && Tagged(Unread(b0, p), tag, output, d < p).found
            && r[e := b0[e]][..start - 1] == b0[..start - 1]
  {
    hide *;
    CompactedIs(b0, b, start, d, p, output);
    LineAt(b0, p, e);
    TaggedStops(Unread(b0, p), tag, output, d < p);
    LineEnded(b0, b, start, d, p, e, output);
    var b1, pos := Ended(b, d, p, e), NextLine(b0, e);
    var r := b1[end := NUL][d - 1 := NUL];
    Behind(b0, b1, end, start, d, e, pos);
    TagEndIs(b1, d, p, e, end);
    if output == "" {
      FirstLineText(b0, b1, start, e, end);
    } else {
      AllButLast(b1, r[e := b0[e]], start, d, output);
    }
    Deliver(b0, r[e := b0[e]], start, pos, Tagged(Unread(b0, p), tag, output, d < p));
  }

  lemma TagEndIs(b: seq<char>, d: nat, p: nat, e: nat, end: nat)
    requires d <= p <= e < |b| && IsTagEnd(b, d, p, e, end)
    ensures d == p ==> end == d + |TagTrimmed(b[d..e])|
    ensures end >= d
  {
  }

  lemma Behind(b0: seq<char>, b: seq<char>, end: nat, start: nat, d: nat, e: nat, pos: nat)
    requires 1 <= start <= d <= end <= e < |b0| == |b| && e <= pos < |b0|
    requires b[..start] == b0[..start] && b[e] == NUL && b[e + 1..] == b0[e + 1..]
    ensures var r := b[end := NUL][d - 1 := NUL];
            && r[e] == NUL && r[e + 1..] == b0[e + 1..]
            && r[e := b0[e]][pos..] == b0[pos..] && r[e := b0[e]][..start - 1] == b0[..start - 1]
  {
    var r := b[end := NUL][d - 1 := NUL];
    var r' := r[e := b0[e]];
    assert r[e + 1..] == b[e + 1..];
    assert forall i :: e < i < |b0| ==> r'[i] == b[i] == b[e + 1..][i - e - 1] == b0[i];
    assert r'[..start - 1] == b[..start][..start - 1];
  }

  lemma AllButLast(b: seq<char>, r: seq<char>, start: nat, d: nat, output: string)
    requires start < d < |b| == |r| && b[start..d] == output && NUL !in output
    requires forall i :: start <= i < d - 1 ==> r[i] == b[i]
    requires r[d - 1] == NUL
    ensures CString(r, start) == output[..|output| - 1]
  {
    assert r[start..d - 1] == b[start..d][..d - 1 - start];
    CStringIs(r, start, output[..|output| - 1]);
  }

  /** The string at a tag line that came first, after its newline was put back. */
  lemma FirstLineText(b0: seq<char>, b: seq<char>, start: nat, e: nat, end: nat)
    requires Terminated(b0, start) && 1 <= start < e < |b0| == |b|
    requires NUL !in b0[start..e] && b[start..e] == b0[start..e] && b[e] == NUL && b[e + 1..] == b0[e + 1..]
    requires end == start + |TagTrimmed(b0[start..e])|
    ensures CString(b[end := NUL][start - 1 := NUL][e := b0[e]], start) ==
            var trimmed := TagTrimmed(b0[start..e]); if |trimmed| < e - start then trimmed else Unread(b0, start)
  {
    hide TagTrimmed, CString;
    var line, trimmed := b0[start..e], TagTrimmed(b0[start..e]);
    var r := b[end := NUL][start - 1 := NUL][e := b0[e]];
    if |trimmed| < e - start {
      assert r[start..end] == line[..end - start] == trimmed;
      assert forall c :: c in trimmed ==> c in line;
      CStringIs(r, start, trimmed);
    } else {
      assert forall i :: start <= i < e ==> r[i] == b[start..e][i - start] == b0[i];
      assert forall i :: e < i < |b0| ==> r[i] == b[e + 1..][i - e - 1] == b0[i];
      assert r[start..] == b0[start..];
      CStringIs(r, start, Unread(b0, start));
    }
  }

  // ----- Comments -----

  /** Steps over white characters and counts the newlines among them. */
  method SkipBlank(buf: array<char>, p: nat) returns (q: nat, newLines: nat)
    requires Terminated(buf[..], p)
    ensures q == p + SpaceCount(Unread(buf[..], p)) && q < buf.Length
    ensures newLines == NewLineCount(buf[p..q])
  {
    hide NewLineCount, NewLineLength, SpaceCount;
    ghost var s := Unread(buf[..], p);
    ghost var k := SpaceCount(s);
    assert s[0..k] == buf[p..p + k];
    q, newLines := p, 0;
    while IsSpace(buf[q])
      invariant p <= q <= p + k < buf.Length
      invariant newLines + NewLineCount(s[q - p..k]) == NewLineCount(s[0..k])
      decreases buf.Length - q
    {
      assert buf[q] == s[q - p];
      CountFrom(s, k, q - p);
      if IsNewLine(buf[q]) {
        newLines := newLines + 1;
        assert s[q - p..] == Unread(buf[..], q);
        q := SkipNewLine(buf, q);
      } else {
        q := q + 1;
      }
    }
    ghost var stop := if q - p < |s| then s[q - p] else NUL;
    assert stop == buf[q];
    CountNothing(s[q - p..k]);
  }

  lemma CountFrom(s: string, k: nat, i: nat)
    requires k == SpaceCount(s) && i <= k && i < |s| && IsSpace(s[i])
    ensures i < k
    ensures IsNewLine(s[i]) ==>
              var j := i + NewLineLength(s[i..]);
              j <= k && NewLineCount(s[i..k]) == 1 + NewLineCount(s[j..k])
    ensures !IsNewLine(s[i]) ==> NewLineCount(s[i..k]) == NewLineCount(s[i + 1..k])
  {
    Within(s, k, i);
    hide *;
    var t := s[i..k];
    assert t != "" && t[0] == s[i];
    CountStep(t);
    if IsNewLine(s[i]) {
      SliceTail(s, i, k, NewLineLength(t));
    } else {
      SliceTail(s, i, k, 1);
    }
  }

  lemma SliceTail(s: string, i: nat, k: nat, j: nat)
    requires i + j <= k <= |s|
    ensures s[i..k][j..] == s[i + j..k]
  {
  }

  lemma Within(s: string, k: nat, i: nat)
    requires k == SpaceCount(s) && i <= k && (i < |s| ==> IsSpace(s[i]))
    requires i < |s|
    ensures i < k && NewLineLength(s[i..]) == NewLineLength(s[i..k])
  {
    hide SpaceCount;
    var after := if i + 1 < |s| then s[i + 1] else NUL;
    assert after == '\n' ==> IsSpace(after);
  }

  lemma CountStep(s: string)
    requires s != ""
    ensures NewLineCount(s) ==
            if IsNewLine(s[0]) then 1 + NewLineCount(s[NewLineLength(s)..]) else NewLineCount(s[1..])
  {
  }

  lemma CountNothing(s: string)
    requires s == ""
    ensures NewLineCount(s) == 0
  {
  }

  /** The loading of a comment. */
  method LoadComments(buf: array<char>, start: nat, allowBlank: bool) returns (found: bool, pos: nat)
    requires Terminated(buf[..], start)
    requires allowBlank ==> IsComment(buf[start])
    modifies buf
    ensures var l := old(Comments(Unread(buf[..], start), allowBlank, ""));
            && found == l.found
            && (found ==> Delivered(old(buf[..]), buf[..], start, pos, l))
            && (!found ==> buf[..] == old(buf[..]) && pos == start)
    ensures buf[..start] == old(buf[..start])
  {
    hide Comments, Unread, Delivered, Terminated, Lines, Compacted;
    ghost var b0 := buf[..];
    StartCompacted(b0, start);
    ghost var s0 := Unread(b0, start);
    var d: nat, p: nat := start, start;
    ghost var output := "";
    while true
      invariant Compacted(b0, buf[..], start, d, p, output)
      invariant Terminated(b0, p) && p < buf.Length == |b0|
      invariant p == start ==> buf[..] == b0
      invariant allowBlank && p == start ==> IsComment(b0[start])
      invariant Comments(s0, allowBlank, "") == Comments(Unread(b0, p), allowBlank, output)
      decreases buf.Length - p
    {
      CompactedIs(b0, buf[..], start, d, p, output);
      assert buf[p] == b0[p] by { SameAt(b0, buf[..], start, d, p, output); }
      if IsComment(buf[p]) {
        var ended, next, q;
        ended, next, q, output := TakeComment(buf, b0, start, d, p, allowBlank, output);
        if ended {
          return true, q;
        }
        d, p := next, q;
      } else {
        var taken, next, q := TakeBlank(buf, b0, start, d, p, allowBlank, output);
        if taken {
          output := output + Lines(next - d);
          d, p := next, q;
        } else if start == p {
          return false, p;
        } else {
          ghost var b := buf[..];
          buf[d - 1] := NUL;
          StopDelivers(b0, b, start, d, p, output, Comments(Unread(b0, p), allowBlank, output));
          return true, p;
        }
      }
    }
  }

  lemma StartCompacted(b0: seq<char>, start: nat)
    requires Terminated(b0, start)
    ensures start < |b0| && Compacted(b0, b0, start, start, start, "")
  {
  }

  lemma SameAt(b0: seq<char>, b: seq<char>, start: nat, d: nat, p: nat, output: string)
    requires Compacted(b0, b, start, d, p, output)
    ensures p < |b| == |b0| && b[p] == b0[p]
  {
    assert b[p..][0] == b0[p..][0];
  }

  /** Takes over one comment line; after the last line of the data, the comment is delivered. */
  method TakeComment(buf: array<char>, ghost b0: seq<char>, start: nat, d: nat, p: nat, ghost allowBlank: bool,
                     ghost output: string)
    returns (ended: bool, next: nat, q: nat, ghost more: string)
    requires Compacted(b0, buf[..], start, d, p, output) && Terminated(b0, p)
    requires p < |b0| && IsComment(b0[p])
    modifies buf
    ensures ended ==>
              && Comments(Unread(b0, p), allowBlank, output).found
              && Delivered(b0, buf[..], start, q, Comments(Unread(b0, p), allowBlank, output))
              && start <= |b0| == buf.Length && buf[..start] == b0[..start]
    ensures !ended ==>
              && p < q < buf.Length && Terminated(b0, q)
              && Compacted(b0, buf[..], start, next, q, more)
              && Comments(Unread(b0, p), allowBlank, output) == Comments(Unread(b0, q), allowBlank, more)
  {
    hide Comments, LineEnd, NewLineLength, AfterLine, Ended, Unread, NextLine, Delivered, Compacted;
    ghost var b := buf[..];
    CompactedIs(b0, b, start, d, p, output);
    Untouched(b0, b, start, d, p, output);
    FirstUnread(b0, p);
    var e := FindLineEnd(buf, p);
    LineAt(b0, p, e);
    LineEnded(b0, b, start, d, p, e, output);
    var endOfLine := EndLine(buf, d, p, e);
    CommentsLine(Unread(b0, p), allowBlank, output);
    if endOfLine == NUL {
      CommentEndDelivers(b0, b, start, d, p, e, output, Comments(Unread(b0, p), allowBlank, output));
      return true, d, e, "";
    }
    q := TakeOver(buf, b0, b, start, d, p, e, endOfLine, output);
    more := output + b0[p..e] + "\n";
    ended, next := false, d + (e - p) + 1;
  }

  /** Looks past white characters for another comment; if there is one, takes over the newlines between. */
  method TakeBlank(buf: array<char>, ghost b0: seq<char>, start: nat, d: nat, p: nat, allowBlank: bool, ghost output: string)
    returns (taken: bool, next: nat, pCurr: nat)
    requires Compacted(b0, buf[..], start, d, p, output) && Terminated(b0, p)
    requires !IsComment(b0[p]) && (allowBlank ==> start < p)
    modifies buf
    ensures !taken ==>
              && buf[..] == old(buf[..])
              && Comments(Unread(b0, p), allowBlank, output) ==
                 if output == "" then Loaded(false, "", Unread(b0, p)) else Loaded(true, output[..|output| - 1], Unread(b0, p))
    ensures taken ==>
              && allowBlank && d <= next && p < pCurr < buf.Length && Terminated(b0, pCurr)
              && Compacted(b0, buf[..], start, next, pCurr, output + Lines(next - d))
              && Comments(Unread(b0, p), allowBlank, output)
                 == Comments(Unread(b0, pCurr), allowBlank, output + Lines(next - d))
  {
    hide Comments, NewLineCount, SpaceCount, Unread;
    ghost var b := buf[..];
    Untouched(b0, b, start, d, p, output);
    FirstUnread(b0, p);
    var newLines := 0;
    next, pCurr := d, p;
    if allowBlank {
      pCurr, newLines := SkipBlank(buf, p);
      BlankAt(b0, b, p, pCurr);
    }
    taken := allowBlank && IsComment(buf[pCurr]);
    if taken {
      CommentsSkip(Unread(b0, p), output);
      WriteLines(buf, d, newLines);
      BlankTaken(b0, b, buf[..], start, d, p, pCurr, newLines, output);
      next := d + newLines;
    } else {
      CommentsStop(Unread(b0, p), allowBlank, output);
    }
  }

  method WriteLines(buf: array<char>, d: nat, newLines: nat)
    requires d + newLines <= buf.Length
    modifies buf
    ensures buf[..d] == old(buf[..d]) && buf[d..d + newLines] == Lines(newLines)
    ensures buf[d + newLines..] == old(buf[d + newLines..])
  {
    ghost var b := buf[..];
    var i := 0;
    while i < newLines
      invariant i <= newLines && buf[..d] == b[..d] && buf[d + newLines..] == b[d + newLines..]
      invariant forall k :: d <= k < d + i ==> buf[k] == '\n'
    {
      buf[d + i] := '\n';
      i := i + 1;
    }
  }

  lemma FirstUnread(b: seq<char>, p: nat)
    requires Terminated(b, p)
    ensures Unread(b, p) != "" ==> Unread(b, p)[0] == b[p]
    ensures Unread(b, p) == "" <==> b[p] == NUL
  {
  }

  lemma BlankAt(b0: seq<char>, b: seq<char>, p: nat, q: nat)
    requires Terminated(b0, p) && |b| == |b0| && b[p..] == b0[p..]
    requires q == p + SpaceCount(Unread(b0, p))
    ensures q < |b0| && b[q] == b0[q] && Terminated(b0, q) && b[p..q] == b0[p..q]
    ensures var s := Unread(b0, p);
            var k := q - p;
            && s[k..] == Unread(b0, q) && s[..k] == b0[p..q]
            && (k == |s| <==> b0[q] == NUL) && (k < |s| ==> s[k] == b0[q])
            && (b0[p] != NUL && !IsSpace(b0[p]) ==> k == 0)
  {
    hide SpaceCount;
    assert b[p..][q - p] == b0[p..][q - p];
    assert b[p..q] == b[p..][..q - p];
    var s := Unread(b0, p);
    assert SpaceCount(s) > 0 ==> IsSpace(s[0]);
  }

  lemma CommentsSkip(s: string, output: string)
    requires var k := SpaceCount(s); k < |s| && IsComment(s[k]) && !IsComment(s[0])
    ensures var k := SpaceCount(s);
            Comments(s, true, output) == Comments(s[k..], true, output + Lines(NewLineCount(s[..k])))
  {
    hide SpaceCount, NewLineCount, Lines;
  }

  lemma CommentsStop(s: string, allowBlank: bool, output: string)
    requires s == "" || !IsComment(s[0])
    requires allowBlank ==> var k := SpaceCount(s); k == |s| || !IsComment(s[k])
    ensures Comments(s, allowBlank, output) ==
            if output == "" then Loaded(false, "", s) else Loaded(true, output[..|output| - 1], s)
  {
    hide SpaceCount, NewLineCount, Lines;
  }

  lemma CommentsLine(s: string, allowBlank: bool, output: string)
    requires s != "" && IsComment(s[0])
    ensures var n := LineEnd(s);
            Comments(s, allowBlank, output) ==
            if n == |s| then Loaded(true, output + s, "")
            else Comments(AfterLine(s, n), allowBlank, output + s[..n] + "\n")
  {
    hide SpaceCount, NewLineCount, Lines, LineEnd, AfterLine;
  }

  lemma BlankTaken(b0: seq<char>, b: seq<char>, r: seq<char>, start: nat, d: nat, p: nat, q: nat, newLines: nat, output: string)
    requires Compacted(b0, b, start, d, p, output) && p <= q < |b0| && newLines <= q - p && start < p
    requires |r| == |b| && r[..d] == b[..d] && r[d..d + newLines] == Lines(newLines) && r[d + newLines..] == b[d + newLines..]
    ensures Compacted(b0, r, start, d + newLines, q, output + Lines(newLines))
  {
    hide Lines;
    assert r[..start] == r[..d][..start] && r[start..d] == r[..d][start..];
    assert b[..start] == b[..d][..start] && b[start..d] == b[..d][start..];
    assert r[start..d + newLines] == r[start..d] + r[d..d + newLines];
    assert r[q..] == r[d + newLines..][q - d - newLines..] == b[q..] == b[p..][q - p..] == b0[q..];
  }

  /** Data follows that is not part of the comment: the last newline is cut off. */
  lemma StopDelivers(b0: seq<char>, b: seq<char>, start: nat, d: nat, p: nat, output: string, l: Loaded)
    requires Compacted(b0, b, start, d, p, output) && start < p && output != ""
    requires l == Loaded(true, output[..|output| - 1], Unread(b0, p))
    ensures d > start && Delivered(b0, b[d - 1 := NUL], start, p, l)
    ensures b[d - 1 := NUL][..start] == b0[..start]
  {
    hide Unread, CString;
    var r := b[d - 1 := NUL];
    assert |output| == d - start;
    assert r[p..] == b[p..];
    assert r[..start] == b[..start];
    AllButLast(b, r, start, d, output);
  }

  lemma CommentEndDelivers(b0: seq<char>, b: seq<char>, start: nat, d: nat, p: nat, e: nat, output: string, l: Loaded)
    requires Compacted(b0, b, start, d, p, output) && Terminated(b0, p)
    requires e == p + LineEnd(Unread(b0, p)) && e < |b0| && b0[e] == NUL
    requires l == Loaded(true, output + Unread(b0, p), "")
    ensures Delivered(b0, Ended(b, d, p, e), start, e, l)
    ensures Ended(b, d, p, e)[..start] == b0[..start]
  {
    hide *;
    CompactedIs(b0, b, start, d, p, output);
    LineAt(b0, p, e);
    LineEnded(b0, b, start, d, p, e, output);
    EndString(b0, Ended(b, d, p, e), start, d, p, e, output);
    Deliver(b0, Ended(b, d, p, e), start, e, l);
  }
}
