/**
  * Multi-line text in INI data: what comments and tagged values mean, how they are printed, and the routine
  * that compacts them in place.
  */
module IniLines {
  import opened IniOrder

  const END_TAG := "END_OF_TEXT"

  predicate IsSpace(c: char) {
    c == ' ' || c == '\t' || c == '\r' || c == '\n'
  }

  predicate IsComment(c: char) {
    c == ';' || c == '#'
  }

  predicate IsNewLine(c: char) {
    c == '\n' || c == '\r'
  }

  /** The first end of line. */
  function LineEnd(s: string): (n: nat)
    ensures n <= |s| && (n < |s| ==> IsNewLine(s[n]))
    ensures forall k :: 0 <= k < n ==> !IsNewLine(s[k])
  {
    if s == "" || IsNewLine(s[0]) then 0 else 1 + LineEnd(s[1..])
  }

  /** One or two characters, for UNIX and DOS. */
  function NewLineLength(s: string): (n: nat)
    requires s != ""
    ensures 1 <= n <= 2 && n <= |s|
  {
    if |s| > 1 && s[0] == '\r' && s[1] == '\n' then 2 else 1
  }

  /** The text after the newline at position `n`, or nothing at the end. */
  function AfterLine(s: string, n: nat): (t: string)
    requires n <= |s|
    ensures |t| <= |s| && (n < |s| ==> |t| < |s|)
  {
    if n == |s| then "" else s[n + NewLineLength(s[n..])..]
  }

  /** How many white characters a text starts with. */
  function SpaceCount(s: string): (n: nat)
    ensures n <= |s| && (n < |s| ==> !IsSpace(s[n]))
    ensures forall k :: 0 <= k < n ==> IsSpace(s[k])
  {
    if s == "" || !IsSpace(s[0]) then 0 else 1 + SpaceCount(s[1..])
  }

  /** How many newlines there are in a stretch of white characters. */
  function NewLineCount(s: string): (n: nat)
    ensures n <= |s|
    decreases |s|
  {
    if s == "" then 0
    else if IsNewLine(s[0]) then 1 + NewLineCount(s[NewLineLength(s)..])
    else NewLineCount(s[1..])
  }

  function Lines(n: nat): (s: string)
    ensures |s| == n && forall i :: 0 <= i < n ==> s[i] == '\n'
  {
    seq(n, _ => '\n')
  }

  /** A line without the white characters at its end, except for the first character. */
  function TagTrimmed(line: string): (t: string)
    ensures t <= line
  {
    if |line| > 1 && IsSpace(line[|line| - 1]) then TagTrimmed(line[..|line| - 1]) else line
  }

  /** What a comment or tagged value comes to: its text, and the data that is left. */
  datatype Loaded = Loaded(found: bool, text: string, rest: string)

  predicate EndsText(line: string, tag: string, moved: bool) {
    Folded(if moved then line else TagTrimmed(line)) == Folded(tag)
  }

  /**
    * Lines up to one that equals the tag. `output` are the lines so far. Once text was `moved` towards the front
    * because a newline had two characters, the white characters at the end of the tag line count.
    * A tag on the very first line becomes the text itself, and unless white characters follow it the text
    * goes on to the end of the data; an empty tag there ends the data.
    */
  function Tagged(s: string, tag: string, output: string, moved: bool): (l: Loaded)
    ensures |l.rest| <= |s|
    decreases |s|
  {
    var n := LineEnd(s);
    var line := s[..n];
    if EndsText(line, tag, moved) then
      if output != "" then Loaded(true, output[..|output| - 1], AfterLine(s, n))
      else if n == 0 then Loaded(false, "", "")
      else Loaded(true, if |TagTrimmed(line)| < n then TagTrimmed(line) else s, AfterLine(s, n))
    else if n == |s| then Loaded(true, output + line, "")
    else Tagged(AfterLine(s, n), tag, output + line + "\n", moved || NewLineLength(s[n..]) == 2)
  }

  /** Comment lines, with blank lines between them if they are allowed. */
  function Comments(s: string, allowBlank: bool, output: string): (l: Loaded)
    ensures |l.rest| <= |s|
    ensures s != "" && IsComment(s[0]) ==> |l.rest| < |s|
    decreases |s|
  {
    if s == "" || !IsComment(s[0]) then
      var k := SpaceCount(s);
      if allowBlank && k < |s| && IsComment(s[k]) then Comments(s[k..], allowBlank, output + Lines(NewLineCount(s[..k])))
      else if output == "" then Loaded(false, "", s)
      else Loaded(true, output[..|output| - 1], s)
    else
      var n := LineEnd(s);
      if n == |s| then Loaded(true, output + s, "")
      else Comments(AfterLine(s, n), allowBlank, output + s[..n] + "\n")
  }

  // ----- Printing -----

  /** Each line of a text, ended by a newline. */
  function Output(text: string): string {
    if text == "" then "" else text + "\n"
  }

  /** `OutputMultiLineText` */
  method OutputMultiLineText(text: string) returns (written: string)
    ensures written == Output(text)
  {
    written := "";
    var start := 0;
    var more := text != "";
    while more
      invariant start <= |text| + 1
      invariant more ==> start <= |text| && written == text[..start]
      invariant !more ==> written == Output(text)
      decreases |text| + 1 - start, more
    {
      var end := start;
      while end < |text| && text[end] != '\n'
        invariant start <= end <= |text|
        invariant '\n' !in text[start..end]
      {
        end := end + 1;
      }
      more := end < |text|;
      assert text[..start] + text[start..end] == text[..end];
      assert more ==> text[..end] + "\n" == text[..end + 1];
      assert !more ==> text[..end] == text;
      written := written + text[start..end] + "\n";
      start := end + 1;
    }
  }

  /** `IsMultiLineData`: white characters at either end, or a newline. */
  predicate NeedsLines(text: string) {
    text != "" && (IsSpace(text[0]) || IsSpace(text[|text| - 1]) || exists i :: 0 <= i < |text| && IsNewLine(text[i]))
  }

  method IsMultiLineData(text: string) returns (multi: bool)
    ensures multi <==> NeedsLines(text)
  {
    if text == "" {
      return false;
    }
    if IsSpace(text[0]) {
      return true;
    }
    for i := 0 to |text|
      invariant forall k :: 0 <= k < i ==> !IsNewLine(text[k])
    {
      if IsNewLine(text[i]) {
        return true;
      }
    }
    return IsSpace(text[|text| - 1]);
  }

  // ----- Printing and loading -----

  /** No line of a text is taken for the tag. */
  predicate TagFree(text: string, tag: string)
    decreases |text|
  {
    var n := LineEnd(text);
    !EndsText(text[..n], tag, false) && (n < |text| ==> TagFree(text[n + 1..], tag))
  }

  /** A printed text, its tag, and whatever follows. */
  function Printed(text: string, tag: string, rest: string): string {
    Output(text) + tag + "\n" + rest
  }

  lemma LineEndIs(s: string, n: nat)
    requires n <= |s| && (n < |s| ==> IsNewLine(s[n]))
    requires forall k :: 0 <= k < n ==> !IsNewLine(s[k])
    ensures LineEnd(s) == n
  {
  }

  /** A line followed by a single newline character. */
  lemma OneLine(line: string, rest: string)
    requires forall k :: 0 <= k < |line| ==> !IsNewLine(line[k])
    ensures var s := line + "\n" + rest;
            LineEnd(s) == |line| && s[..|line|] == line && AfterLine(s, |line|) == rest
            && NewLineLength(s[|line|..]) == 1 && |line| < |s|
  {
    var s := line + "\n" + rest;
    assert s[|line|] == '\n';
    assert forall k :: 0 <= k < |line| ==> s[k] == line[k];
    LineEndIs(s, |line|);
    assert s[|line|..][0] == '\n';
  }

  lemma TagLine(tag: string)
    requires tag != "" && !IsSpace(tag[|tag| - 1])
    ensures EndsText(tag, tag, false)
  {
  }

  lemma {:induction false} PrintedLoads(text: string, tag: string, rest: string, output: string)
    requires '\r' !in text && TagFree(text, tag)
    requires tag != "" && (forall k :: 0 <= k < |tag| ==> !IsSpace(tag[k]))
    ensures Tagged(text + "\n" + (tag + "\n" + rest), tag, output, false) == Loaded(true, output + text, rest)
    decreases |text|
  {
    hide *;
    var n, after := LineEnd(text), tag + "\n" + rest;
    FirstLine(text, tag);
    if n == |text| {
      assert text[..n] == text;
      LastLineLoads(text, tag, rest, output);
    } else {
      var line, next := text[..n], text[n + 1..];
      Regroup(text, line, next, output, after);
      TaggedStep(line, next + "\n" + after, tag, output);
      PrintedLoads(next, tag, rest, output + line + "\n");
    }
  }

  lemma FirstLine(text: string, tag: string)
    requires '\r' !in text && TagFree(text, tag)
    ensures var n := LineEnd(text);
            && !EndsText(text[..n], tag, false)
            && (n < |text| ==> text == text[..n] + "\n" + text[n + 1..])
            && (n < |text| ==> '\r' !in text[n + 1..] && TagFree(text[n + 1..], tag))
  {
    hide EndsText, LineEnd;
    var n := LineEnd(text);
    if n < |text| { assert text[n] in text; }
  }

  lemma Regroup(text: string, line: string, next: string, output: string, after: string)
    requires text == line + "\n" + next
    ensures text + "\n" + after == line + "\n" + (next + "\n" + after)
    ensures output + line + "\n" + next == output + text
  {
  }

  lemma LastLineLoads(text: string, tag: string, rest: string, output: string)
    requires LineEnd(text) == |text| && !EndsText(text, tag, false)
    requires tag != "" && (forall k :: 0 <= k < |tag| ==> !IsSpace(tag[k]))
    ensures Tagged(text + "\n" + (tag + "\n" + rest), tag, output, false) == Loaded(true, output + text, rest)
  {
    TagLine(tag);
    assert forall k :: 0 <= k < |tag| ==> !IsNewLine(tag[k]);
    hide *;
    TaggedStep(text, tag + "\n" + rest, tag, output);
    TaggedLast(tag, rest, output + text + "\n");
    assert (output + text + "\n")[..|output + text|] == output + text;
  }

  lemma TaggedStep(line: string, after: string, tag: string, output: string)
    requires forall k :: 0 <= k < |line| ==> !IsNewLine(line[k])
    requires !EndsText(line, tag, false)
    ensures Tagged(line + "\n" + after, tag, output, false) == Tagged(after, tag, output + line + "\n", false)
  {
    OneLine(line, after);
    hide EndsText, LineEnd, AfterLine;
  }

  lemma TaggedLast(tag: string, rest: string, output: string)
    requires forall k :: 0 <= k < |tag| ==> !IsNewLine(tag[k])
    requires EndsText(tag, tag, false) && output != ""
    ensures Tagged(tag + "\n" + rest, tag, output, false) == Loaded(true, output[..|output| - 1], rest)
  {
    OneLine(tag, rest);
    hide EndsText, LineEnd, AfterLine;
  }

  /** Loaded text has no carriage returns, unless its tag is missed. */
  lemma {:induction false} NoReturns(s: string, tag: string, output: string, moved: bool)
    requires '\r' !in output
    ensures '\r' !in Tagged(s, tag, output, moved).text || (output == "" && Tagged(s, tag, output, moved).text == s)
    decreases |s|
  {
    hide EndsText, TagTrimmed;
    var n := LineEnd(s);
    assert '\r' !in s[..n];
    if !EndsText(s[..n], tag, moved) && n < |s| {
      NoReturns(AfterLine(s, n), tag, output + s[..n] + "\n", moved || NewLineLength(s[n..]) == 2);
    }
  }

  /** A line taken for the tag ends the text too early. */
  lemma {:induction false} EndsEarly(text: string, after: string, tag: string, output: string)
    requires '\r' !in text && !TagFree(text, tag)
    ensures var l := Tagged(text + "\n" + after, tag, output, false);
            l.found ==> |l.rest| >= |after|
    decreases |text|
  {
    hide *;
    var n := LineEnd(text);
    FirstTagLine(text, tag);
    if n == |text| {
      assert text[..n] == text;
      TaggedEnds(text, after, tag, output);
    } else {
      var line, next := text[..n], text[n + 1..];
      Regroup(text, line, next, output, after);
      if EndsText(line, tag, false) {
        TaggedEnds(line, next + "\n" + after, tag, output);
      } else {
        TaggedStep(line, next + "\n" + after, tag, output);
        EndsEarly(next, after, tag, output + line + "\n");
      }
    }
  }

  lemma FirstTagLine(text: string, tag: string)
    requires '\r' !in text && !TagFree(text, tag)
    ensures var n := LineEnd(text);
            && (n == |text| ==> EndsText(text[..n], tag, false))
            && (n < |text| ==> text == text[..n] + "\n" + text[n + 1..] && '\r' !in text[n + 1..])
            && (n < |text| && !EndsText(text[..n], tag, false) ==> !TagFree(text[n + 1..], tag))
  {
    hide EndsText, LineEnd;
    var n := LineEnd(text);
    if n < |text| { assert text[n] in text; }
  }

  lemma TaggedEnds(line: string, after: string, tag: string, output: string)
    requires forall k :: 0 <= k < |line| ==> !IsNewLine(line[k])
    requires EndsText(line, tag, false)
    ensures var l := Tagged(line + "\n" + after, tag, output, false);
            l.found ==> l.rest == after
  {
    OneLine(line, after);
    hide EndsText, LineEnd, AfterLine, TagTrimmed;
  }

  lemma EndTagHasNoSpaces()
    ensures END_TAG != "" && forall k :: 0 <= k < |END_TAG| ==> !IsSpace(END_TAG[k])
  {
  }

  /** A printed text loads back exactly when its newlines are single characters and no line of it is taken for the tag. */
  lemma PrintedLoadsIff(text: string, rest: string)
    requires text != ""
    ensures Tagged(Printed(text, END_TAG, rest), END_TAG, "", false) == Loaded(true, text, rest)
            <==> '\r' !in text && TagFree(text, END_TAG)
  {
    EndTagHasNoSpaces();
    assert Printed(text, END_TAG, rest) == text + "\n" + (END_TAG + "\n" + rest);
    hide *;
    if '\r' in text {
      NoReturns(Printed(text, END_TAG, rest), END_TAG, "", false);
    } else if TagFree(text, END_TAG) {
      PrintedLoads(text, END_TAG, rest, "");
      assert "" + text == text;
    } else {
      EndsEarly(text, END_TAG + "\n" + rest, END_TAG, "");
    }
  }

  // ----- Comments -----

  /** Lines that start with a comment character and end with one newline character; blank lines between them if allowed. */
  predicate CleanComment(text: string, allowBlank: bool)
    decreases |text|, 1
  {
    && text != "" && IsComment(text[0])
    && var n := LineEnd(text);
       n < |text| ==> text[n] == '\n' && CleanLines(text[n + 1..], allowBlank)
  }

  /** More such lines, perhaps behind blank ones. */
  predicate CleanLines(text: string, allowBlank: bool)
    decreases |text|, 2
  {
    CleanComment(text, allowBlank)
    || (allowBlank && var k := SpaceCount(text); 0 < k && text[..k] == Lines(k) && CleanComment(text[k..], allowBlank))
  }

  /** No comment goes on in the data. */
  predicate NoComment(s: string, allowBlank: bool) {
    s == "" || (!IsComment(s[0]) && (allowBlank ==> SpaceCount(s) == |s| || !IsComment(s[SpaceCount(s)])))
  }

  lemma CommentsEnd(s: string, allowBlank: bool, output: string)
    requires NoComment(s, allowBlank) && output != ""
    ensures Comments(s, allowBlank, output) == Loaded(true, output[..|output| - 1], s)
  {
  }

  /** A comment line followed by a single newline character. */
  lemma CommentStep(line: string, after: string, allowBlank: bool, output: string)
    requires line != "" && IsComment(line[0]) && forall k :: 0 <= k < |line| ==> !IsNewLine(line[k])
    ensures Comments(line + "\n" + after, allowBlank, output) == Comments(after, allowBlank, output + line + "\n")
  {
    OneLine(line, after);
    hide LineEnd, AfterLine;
    assert (line + "\n" + after)[0] == line[0];
  }

  /** Blank lines of one newline character each. */
  lemma BlankStep(k: nat, after: string, output: string)
    requires 0 < k && after != "" && IsComment(after[0])
    ensures Comments(Lines(k) + after, true, output) == Comments(after, true, output + Lines(k))
  {
    var s := Lines(k) + after;
    assert s[k] == after[0] && s[k..] == after && s[..k] == Lines(k);
    BlankLines(k);
    SpacesAre(s, k);
    hide SpaceCount, NewLineCount;
  }

  lemma SpacesAre(s: string, n: nat)
    requires n <= |s| && (n < |s| ==> !IsSpace(s[n])) && forall k :: 0 <= k < n ==> IsSpace(s[k])
    ensures SpaceCount(s) == n
  {
  }

  lemma {:induction false} BlankLines(k: nat)
    ensures NewLineCount(Lines(k)) == k
  {
    if k > 0 {
      assert Lines(k)[1..] == Lines(k - 1);
      BlankLines(k - 1);
    }
  }

  lemma CleanStarts(text: string, allowBlank: bool)
    requires CleanComment(text, allowBlank)
    ensures text != "" && IsComment(text[0]) && 0 < LineEnd(text)
  {
  }

  /** The first line of a clean comment, and the lines behind it. */
  lemma CleanParts(text: string, allowBlank: bool)
    requires CleanComment(text, allowBlank)
    ensures var n := LineEnd(text);
            n < |text| ==>
              var next := text[n + 1..];
              var k := SpaceCount(next);
              && text == text[..n] + "\n" + next
              && (CleanComment(next, allowBlank)
                  || (allowBlank && 0 < k && next == Lines(k) + next[k..] && CleanComment(next[k..], allowBlank)))
  {
    hide LineEnd, SpaceCount, CleanComment, IsComment;
    CleanFirst(text, allowBlank);
    var n := LineEnd(text);
    if n < |text| {
      var next := text[n + 1..];
      assert next == next[..SpaceCount(next)] + next[SpaceCount(next)..];
    }
  }

  lemma CleanFirst(text: string, allowBlank: bool)
    requires CleanComment(text, allowBlank)
    ensures var n := LineEnd(text);
            n < |text| ==> text[n] == '\n' && CleanLines(text[n + 1..], allowBlank)
  {
    hide LineEnd, CleanLines;
  }

  /** A clean comment is read back, whatever follows it that is no comment. */
  lemma {:induction false} CommentLoads(text: string, rest: string, allowBlank: bool, output: string)
    requires CleanComment(text, allowBlank) && NoComment(rest, allowBlank)
    ensures Comments(text + "\n" + rest, allowBlank, output) == Loaded(true, output + text, rest)
    decreases |text|, 0
  {
    hide *;
    var n := LineEnd(text);
    var line := text[..n];
    CleanStarts(text, allowBlank);
    CleanParts(text, allowBlank);
    assert line[0] == text[0];
    if n == |text| {
      assert line == text;
      CommentStep(text, rest, allowBlank, output);
      CommentsEnd(rest, allowBlank, output + text + "\n");
      assert (output + text + "\n")[..|output + text|] == output + text;
    } else {
      var next := text[n + 1..];
      Regroup(text, line, next, output, rest);
      CommentStep(line, next + "\n" + rest, allowBlank, output);
      LinesLoad(next, rest, allowBlank, output + line + "\n");
    }
  }

  lemma {:induction false} LinesLoad(next: string, rest: string, allowBlank: bool, output: string)
    requires CleanComment(next, allowBlank)
      || (allowBlank && 0 < SpaceCount(next) && next == Lines(SpaceCount(next)) + next[SpaceCount(next)..]
          && CleanComment(next[SpaceCount(next)..], allowBlank))
    requires NoComment(rest, allowBlank)
    ensures Comments(next + "\n" + rest, allowBlank, output) == Loaded(true, output + next, rest)
    decreases |next|, 1
  {
    hide *;
    if CleanComment(next, allowBlank) {
      CommentLoads(next, rest, allowBlank, output);
    } else {
      var k := SpaceCount(next);
      var after := next[k..];
      CleanStarts(after, allowBlank);
      assert next + "\n" + rest == Lines(k) + (after + "\n" + rest);
      assert (after + "\n" + rest)[0] == after[0];
      BlankStep(k, after + "\n" + rest, output);
      CommentLoads(after, rest, allowBlank, output + Lines(k));
      assert output + Lines(k) + after == output + next;
    }
  }

  lemma FirstKept(s: string)
    requires s != "" && IsComment(s[0])
    ensures LineEnd(s) > 0 && [s[0]] <= s[..LineEnd(s)]
  {
  }

  /** What was read before stands in front. */
  lemma {:induction false} OutputInFront(s: string, allowBlank: bool, x: string, output: string)
    requires output != "" || (s != "" && IsComment(s[0]))
    ensures var l := Comments(s, allowBlank, output);
            Comments(s, allowBlank, x + output) == Loaded(true, x + l.text, l.rest) && l.found
    decreases |s|
  {
    hide AfterLine, NewLineCount, SpaceCount, LineEnd;
    if s == "" || !IsComment(s[0]) {
      var k := SpaceCount(s);
      if allowBlank && k < |s| && IsComment(s[k]) {
        var lines := Lines(NewLineCount(s[..k]));
        assert x + output + lines == x + (output + lines);
        OutputInFront(s[k..], allowBlank, x, output + lines);
      } else {
        assert (x + output)[..|x + output| - 1] == x + output[..|output| - 1];
      }
    } else {
      var n := LineEnd(s);
      if n == |s| {
        assert x + output + s == x + (output + s);
      } else {
        assert x + output + s[..n] + "\n" == x + (output + s[..n] + "\n");
        OutputInFront(AfterLine(s, n), allowBlank, x, output + s[..n] + "\n");
      }
    }
  }

  /** Whatever comment is loaded is clean: white characters between its lines and carriage returns are gone. */
  lemma {:induction false} CommentsAreClean(s: string, allowBlank: bool)
    requires s != "" && IsComment(s[0])
    ensures CleanComment(Comments(s, allowBlank, "").text, allowBlank)
    decreases |s|
  {
    hide AfterLine, NewLineCount, SpaceCount, CleanComment, CleanLines;
    FirstKept(s);
    var n := LineEnd(s);
    var line := s[..n];
    if n == |s| {
      assert s + "" == s == "" + s;
      CleanFirstLine(s, "", allowBlank);
    } else {
      var t := AfterLine(s, n);
      var k := SpaceCount(t);
      assert "" + line + "\n" == line + "\n";
      if t != "" && IsComment(t[0]) {
        CommentsAreClean(t, allowBlank);
        OutputInFront(t, allowBlank, line + "\n", "");
        assert line + "\n" + "" == line + "\n";
        CleanNext(line, Comments(t, allowBlank, "").text, allowBlank);
      } else if allowBlank && k < |t| && IsComment(t[k]) {
        var c := NewLineCount(t[..k]);
        CommentsAreClean(t[k..], allowBlank);
        OutputInFront(t[k..], allowBlank, line + "\n" + Lines(c), "");
        assert line + "\n" + Lines(c) + "" == line + "\n" + Lines(c);
        CleanBlank(line, c, Comments(t[k..], allowBlank, "").text);
      } else {
        assert (line + "\n")[..n] == line == line + "";
        CleanFirstLine(line, "", allowBlank);
      }
    }
  }

  lemma CleanFirstLine(line: string, after: string, allowBlank: bool)
    requires line != "" && IsComment(line[0]) && forall k :: 0 <= k < |line| ==> !IsNewLine(line[k])
    requires after != "" ==> after[0] == '\n' && CleanLines(after[1..], allowBlank)
    ensures CleanComment(line + after, allowBlank)
  {
    var text := line + after;
    assert forall k :: 0 <= k < |line| ==> text[k] == line[k];
    LineEndIs(text, |line|);
    hide LineEnd, CleanLines;
    assert after != "" ==> text[|line|] == after[0] && text[|line| + 1..] == after[1..];
    assert text[0] == line[0];
  }

  lemma CleanNext(line: string, next: string, allowBlank: bool)
    requires line != "" && IsComment(line[0]) && forall k :: 0 <= k < |line| ==> !IsNewLine(line[k])
    requires CleanComment(next, allowBlank)
    ensures CleanComment(line + "\n" + next, allowBlank)
  {
    hide CleanComment;
    assert ("\n" + next)[1..] == next && line + ("\n" + next) == line + "\n" + next;
    CleanFirstLine(line, "\n" + next, allowBlank);
  }

  lemma CleanBlank(line: string, c: nat, next: string)
    requires line != "" && IsComment(line[0]) && forall k :: 0 <= k < |line| ==> !IsNewLine(line[k])
    requires CleanComment(next, true)
    ensures CleanComment(line + "\n" + Lines(c) + next, true)
  {
    hide *;
    CleanStarts(next, true);
    var more := Lines(c) + next;
    assert line + "\n" + Lines(c) + next == line + "\n" + more;
    if c == 0 {
      assert more == next;
      CleanNext(line, next, true);
    } else {
      BlankInFront(c, next);
      assert ("\n" + more)[1..] == more && line + ("\n" + more) == line + "\n" + more;
      CleanFirstLine(line, "\n" + more, true);
    }
  }

  lemma BlankInFront(c: nat, next: string)
    requires 0 < c && CleanComment(next, true)
    ensures CleanLines(Lines(c) + next, true)
  {
    CleanStarts(next, true);
    var more := Lines(c) + next;
    assert more[c] == next[0];
    SpacesAre(more, c);
    hide CleanComment, SpaceCount;
    assert more[..c] == Lines(c) && more[c..] == next;
  }

  /** The lines of a comment are read back exactly when they are clean. */
  lemma CommentReadIff(text: string, rest: string, allowBlank: bool)
    requires text != "" && IsComment(text[0]) && NoComment(rest, allowBlank)
    ensures Comments(text + "\n" + rest, allowBlank, "") == Loaded(true, text, rest) <==> CleanComment(text, allowBlank)
  {
    hide Comments, CleanComment, NoComment;
    CommentsAreClean(text + "\n" + rest, allowBlank);
    if CleanComment(text, allowBlank) {
      CommentLoads(text, rest, allowBlank, "");
      assert "" + text == text;
    }
  }
}
