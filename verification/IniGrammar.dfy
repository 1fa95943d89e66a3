/** The lines of INI data, told by their characters: comments, keys, section headers, and lines that are passed over. */
module IniGrammar {
  import opened Options
  import opened Text
  import opened IniOrder
  import opened IniLines
  import opened IniBuffer
  import opened IniParser
  import opened IniStore
  import opened IniFile

  // ----- Characters -----

  predicate WhiteChar(c: char) {
    c == ' ' || c == '\t' || c == '\r' || c == '\n'
  }

  predicate White(w: string) {
    forall k :: 0 <= k < |w| ==> w[k] == ' ' || w[k] == '\t' || w[k] == '\r' || w[k] == '\n'
  }

  predicate Blank(b: string) {
    forall k :: 0 <= k < |b| ==> b[k] == ' ' || b[k] == '\t'
  }

  /** No character of a newline. */
  predicate Plain(s: string) {
    forall k :: 0 <= k < |s| ==> s[k] != '\n' && s[k] != '\r'
  }

  /** A text on one line, neither end of which is white. */
  predicate Word(s: string) {
    Plain(s) && (s != "" ==> !WhiteChar(s[0]) && !WhiteChar(s[|s| - 1]))
  }

  /** What ends a line in front of `rest`: a newline of one or two characters, or the end of the data. */
  predicate Ending(eol: string, rest: string) {
    || eol == "\n" || eol == "\r\n"
    || (eol == "\r" && (rest == "" || rest[0] != '\n'))
    || (eol == "" && rest == "")
  }

  /** What is left of the data. */
  predicate Behind(after: string, s: string) {
    |after| <= |s| && s[|s| - |after|..] == after
  }

  lemma SpaceIsWhite(w: string)
    requires White(w)
    ensures forall k :: 0 <= k < |w| ==> IsSpace(w[k])
  {
  }

  lemma WordIsTight(s: string)
    requires Word(s)
    ensures SingleLine(s) && Tight(s)
  {
  }

  lemma LineEnds(line: string, eol: string, rest: string)
    requires Plain(line) && Ending(eol, rest)
    ensures var s := line + (eol + rest);
            LineEnd(s) == |line| && s[..|line|] == line && AfterLine(s, |line|) == rest
  {
    LineStops(line, eol, rest);
    EndingSkipped(eol, rest);
    hide LineEnd, NewLineLength, Plain, Ending;
    assert (line + (eol + rest))[|line|..] == eol + rest;
    AfterIs(line + (eol + rest), |line|);
  }

  lemma LineStops(line: string, eol: string, rest: string)
    requires Plain(line) && Ending(eol, rest)
    ensures LineEnd(line + (eol + rest)) == |line|
  {
    var s := line + (eol + rest);
    assert forall k :: 0 <= k < |line| ==> s[k] == line[k];
    if eol != "" { assert s[|line|] == eol[0]; }
    LineEndIs(s, |line|);
  }

  lemma AfterIs(s: string, n: nat)
    requires n <= |s|
    ensures AfterLine(s, n) == if n == |s| then "" else s[n..][NewLineLength(s[n..])..]
  {
    hide NewLineLength;
    if n < |s| { assert s[n..][NewLineLength(s[n..])..] == s[n + NewLineLength(s[n..])..]; }
  }

  lemma EndingSkipped(eol: string, rest: string)
    requires Ending(eol, rest)
    ensures eol + rest == "" ==> rest == ""
    ensures eol + rest != "" ==> (eol + rest)[NewLineLength(eol + rest)..] == rest
  {
    var t := eol + rest;
    if eol == "\r\n" {
      assert t[0] == '\r' && t[1] == '\n';
    } else if eol == "\r" && rest != "" {
      assert t[1] == rest[0];
    }
  }

  /** White characters in front make no difference. */
  lemma SkipsWhite(w: string, s: string, section: string, comment: Option<string>, multiLine: bool)
    requires White(w)
    ensures Next(w + s, section, comment, None, multiLine) == Next(s, section, comment, None, multiLine)
  {
    SpaceIsWhite(w);
    hide *;
    SameAfterSpace(w, s, section, comment, multiLine);
  }

  lemma EndingIsWhite(eol: string, rest: string)
    requires Ending(eol, rest)
    ensures White(eol)
  {
  }

  // ----- Comments -----

  predicate Marks(c: char) {
    c == ';' || c == '#'
  }

  lemma BehindBoth(a: string, b: string, c: string)
    requires Behind(a, b) && Behind(b, c)
    ensures Behind(a, c)
  {
    assert c[|c| - |b|..][|b| - |a|..] == c[|c| - |a|..];
  }

  lemma AfterIsBehind(s: string, n: nat)
    requires n <= |s|
    ensures Behind(AfterLine(s, n), s)
  {
  }

  /** A comment that was begun goes on with what was read, and takes the data from the front. */
  lemma {:induction false} CommentGrows(s: string, allowBlank: bool, output: string)
    requires output != ""
    ensures var l := Comments(s, allowBlank, output);
            l.found && output[..|output| - 1] <= l.text && Behind(l.rest, s)
    decreases |s|
  {
    hide LineEnd, AfterLine, SpaceCount, NewLineCount, IsComment, Behind;
    assert Behind(s, s) && Behind("", s) by { Ends(s); }
    if s == "" || !IsComment(s[0]) {
      var k := SpaceCount(s);
      if allowBlank && k < |s| && IsComment(s[k]) {
        assert Behind(s[k..], s) by { Cut(s, k); }
        CommentGrows(s[k..], allowBlank, output + Lines(NewLineCount(s[..k])));
        BehindBoth(Comments(s, allowBlank, output).rest, s[k..], s);
      }
    } else {
      var n := LineEnd(s);
      if n < |s| {
        AfterIsBehind(s, n);
        CommentGrows(AfterLine(s, n), allowBlank, output + s[..n] + "\n");
        BehindBoth(Comments(s, allowBlank, output).rest, AfterLine(s, n), s);
      }
    }
  }

  lemma Ends(s: string)
    ensures Behind(s, s) && Behind("", s)
  {
  }

  lemma Cut(s: string, k: nat)
    requires k <= |s|
    ensures Behind(s[k..], s)
  {
  }

  /** A line that starts with a mark begins a comment with itself, which takes nothing before the line behind it. */
  lemma CommentBegins(c: char, line: string, eol: string, rest: string, allowBlank: bool)
    requires Marks(c) && Plain(line) && Ending(eol, rest)
    ensures var l := Comments([c] + line + (eol + rest), allowBlank, "");
            l.found && [c] + line <= l.text && Behind(l.rest, rest)
    ensures Alone(rest, allowBlank) ==>
              Comments([c] + line + (eol + rest), allowBlank, "") == Loaded(true, [c] + line, rest)
  {
    var whole := [c] + line;
    var s := whole + (eol + rest);
    assert Plain(whole) && s[0] == c && IsComment(c);
    LineEnds(whole, eol, rest);
    if Alone(rest, allowBlank) { AloneMeans(rest, allowBlank); }
    hide LineEnd, AfterLine, SpaceCount, NewLineCount, Plain, Behind, Alone, NoComment;
    if |s| == |whole| {
      assert s == whole;
      assert "" + s == s;
      Ends(rest);
    } else {
      assert "" + s[..|whole|] + "\n" == whole + "\n";
      CommentGrows(rest, allowBlank, whole + "\n");
      assert (whole + "\n")[..|whole|] == whole;
      if Alone(rest, allowBlank) { CommentsEnd(rest, allowBlank, whole + "\n"); }
    }
  }

  /** No mark stands first in what follows, nor first behind its white characters where those are passed over. */
  ghost predicate Alone(rest: string, allowBlank: bool) {
    && (rest != "" ==> !Marks(rest[0]))
    && (allowBlank ==> forall w, t :: White(w) && rest == w + t && t != "" ==> !Marks(t[0]))
  }

  lemma AloneMeans(rest: string, allowBlank: bool)
    requires Alone(rest, allowBlank)
    ensures NoComment(rest, allowBlank)
  {
    var k := SpaceCount(rest);
    assert White(rest[..k]);
    assert rest == rest[..k] + rest[k..];
  }

  /**
    * A line that starts with `;` or `#` gives no entry. It starts the comment that the next entry is given, and is all of
    * it unless another such line follows.
    */
  lemma CommentLineRead(w: string, c: char, line: string, eol: string, rest: string, section: string, multiLine: bool)
    returns (text: string, after: string)
    requires c == ';' || c == '#'
    requires White(w) && Plain(line) && Ending(eol, rest)
    ensures [c] + line <= text && Behind(after, rest)
    ensures Alone(rest, true) ==> text == [c] + line && after == rest
    ensures Next(w + ([c] + line + (eol + rest)), section, None, None, multiLine) ==
            Next(after, section, Some(text), None, multiLine)
  {
    var s := [c] + line + (eol + rest);
    assert s != "" && IsComment(s[0]);
    hide *;
    CommentBegins(c, line, eol, rest, true);
    var l := Comments(s, true, "");
    text, after := l.text, l.rest;
    CommentStarts(s);
    NextComment(s, section, None, None, multiLine);
    NoOpenHeader(section, s, text);
    SkipsWhite(w, s, section, None, multiLine);
  }

  /** How many lines end in a text; two characters can make one newline. */
  function Breaks(w: string): nat {
    if w == "" then 0
    else Breaks(w[..|w| - 1]) +
         (if w[|w| - 1] == '\r' then 1
          else if w[|w| - 1] == '\n' && !(|w| > 1 && w[|w| - 2] == '\r') then 1 else 0)
  }

  lemma {:induction false} BreaksJoin(a: string, b: string)
    requires b != "" ==> b[0] != '\n' || a == "" || a[|a| - 1] != '\r'
    ensures Breaks(a + b) == Breaks(a) + Breaks(b)
    decreases |b|
  {
    if b == "" {
      assert a + b == a;
    } else {
      var init := b[..|b| - 1];
      BreaksJoin(a, init);
      assert (a + b)[..|a + b| - 1] == a + init;
      assert (a + b)[|a + b| - 1] == b[|b| - 1];
      if |b| > 1 { assert (a + b)[|a + b| - 2] == b[|b| - 2]; } else if a != "" { assert (a + b)[|a + b| - 2] == a[|a| - 1]; }
    }
  }

  lemma {:induction false} CountsBreaks(w: string)
    ensures NewLineCount(w) == Breaks(w)
    decreases |w|
  {
    if w != "" {
      var n := if IsNewLine(w[0]) then NewLineLength(w) else 1;
      CountsBreaks(w[n..]);
      FirstBreak(w, n);
      BreaksJoin(w[..n], w[n..]);
      assert w == w[..n] + w[n..];
    }
  }

  lemma FirstBreak(w: string, n: nat)
    requires w != "" && n == if IsNewLine(w[0]) then NewLineLength(w) else 1
    ensures n <= |w| && Breaks(w[..n]) == (if IsNewLine(w[0]) then 1 else 0)
    ensures n < |w| ==> w[n] != '\n' || w[..n][n - 1] != '\r'
  {
    OneBreak(w[0]);
    if n == 2 {
      assert w[..2][..1] == [w[0]] && w[..2][1] == w[1];
    } else {
      assert w[..n] == [w[0]];
    }
  }

  lemma OneBreak(c: char)
    ensures Breaks([c]) == if c == '\r' || c == '\n' then 1 else 0
  {
    assert [c][..0] == [];
  }

  /**
    * A comment that was begun goes on with the next line that starts with `;` or `#`, as that line and one newline, whatever its own
    * newline is; white characters between the lines count as many newlines as there are in them.
    */
  lemma CommentGoesOn(w: string, c: char, line: string, eol: string, rest: string, output: string)
    requires (c == ';' || c == '#') && White(w) && Plain(line) && eol != "" && Ending(eol, rest)
    ensures Comments(w + ([c] + line + (eol + rest)), true, output) ==
            Comments(rest, true, output + Lines(Breaks(w)) + ([c] + line) + "\n")
    ensures Comments([c] + line + (eol + rest), false, output) == Comments(rest, false, output + ([c] + line) + "\n")
  {
    var whole := [c] + line;
    var t := whole + (eol + rest);
    assert Plain(whole) && t[0] == c && IsComment(c) && !IsSpace(c);
    LineEnds(whole, eol, rest);
    hide *;
    LineGoesOn(t, whole, eol, rest, false, output);
    if w == "" {
      assert w + t == t;
      LineGoesOn(t, whole, eol, rest, true, output);
      NoBreaks();
      assert output + Lines(0) == output;
    } else {
      WhiteGoesOn(w, t, output);
      CountsBreaks(w);
      LineGoesOn(t, whole, eol, rest, true, output + Lines(Breaks(w)));
    }
  }

  lemma NoBreaks()
    ensures Breaks("") == 0
  {
  }

  lemma LineGoesOn(t: string, whole: string, eol: string, rest: string, allowBlank: bool, output: string)
    requires t == whole + (eol + rest) && t != "" && IsComment(t[0]) && eol != ""
    requires LineEnd(t) == |whole| && t[..|whole|] == whole && AfterLine(t, |whole|) == rest
    ensures Comments(t, allowBlank, output) == Comments(rest, allowBlank, output + whole + "\n")
  {
    hide LineEnd, AfterLine, IsComment;
  }

  lemma WhiteGoesOn(w: string, t: string, output: string)
    requires w != "" && White(w) && t != "" && IsComment(t[0]) && !IsSpace(t[0])
    ensures Comments(w + t, true, output) == Comments(t, true, output + Lines(NewLineCount(w)))
  {
    var s := w + t;
    assert s[|w|] == t[0] && s[|w|..] == t && s[..|w|] == w;
    assert IsSpace(s[0]) && !IsComment(s[0]);
    SpaceIsWhite(w);
    SpaceCountIs(s, |w|);
    hide SpaceCount, NewLineCount, IsComment, White;
  }

  // ----- The comment of the file -----

  lemma NotMarked(s: string)
    requires s == "" || !Marks(s[0])
    ensures Comments(s, false, "") == Loaded(false, "", s)
  {
  }

  lemma Uncut(s: string)
    ensures var cut := s[..IndexOf(s, '\0')];
            (s == "" || s[0] == '\0' <==> cut == "") && (cut != "" ==> cut[0] == s[0])
  {
  }

  lemma CutBehind(line: string, rest: string)
    requires '\0' !in line
    ensures (line + rest)[..IndexOf(line + rest, '\0')] == line + rest[..IndexOf(rest, '\0')]
  {
    var n := IndexOf(rest, '\0');
    hide IndexOf;
    var front := line + rest[..n];
    if n < |rest| {
      assert line + rest == front + ['\0'] + rest[n + 1..];
      IndexOfFound(front, '\0', rest[n + 1..]);
    } else {
      assert '\0' !in rest;
      IndexOfMissing(line + rest, '\0');
    }
    assert (line + rest)[..|front|] == front;
  }

  /** What is loaded into a store without a comment: the comment of the file, if there is one, and the entries behind it. */
  lemma LoadedParts(st: Store, text: string)
    requires st.fileComment == None
    ensures var s := text[..IndexOf(text, '\0')];
            var l := Comments(s, false, "");
            LoadText(st, text) ==
            AddedAll(st.(fileComment := if l.found then Some(l.text) else None), Entries(l.rest, "", st.multiLine))
  {
    hide Comments, Next, IndexOf, Added;
    if text == "" {
      NotMarked(text);
      NextEnd("", "", None, None, st.multiLine);
    }
  }

  lemma {:induction false} AddingKeepsComment(st: Store, entries: seq<Entry>)
    ensures AddedAll(st, entries).fileComment == st.fileComment
    decreases |entries|
  {
    hide Folded;
    if entries != [] { AddingKeepsComment(Added(st, entries[0]), entries[1..]); }
  }

  /** A file has a comment exactly when its first character is `;` or `#`; a store that has one keeps it. */
  lemma FileCommentIff(st: Store, text: string)
    ensures st.fileComment == None ==>
              (LoadText(st, text).fileComment.Some? <==> text != "" && (text[0] == ';' || text[0] == '#'))
    ensures st.fileComment.Some? ==> LoadText(st, text).fileComment == st.fileComment
  {
    hide Comments, Entries, AddedAll, IndexOf;
    var s := text[..IndexOf(text, '\0')];
    if st.fileComment.Some? {
      AddingKeepsComment(st, Entries(s, "", st.multiLine));
    } else {
      LoadedParts(st, text);
      var l := Comments(s, false, "");
      AddingKeepsComment(st.(fileComment := if l.found then Some(l.text) else None), Entries(l.rest, "", st.multiLine));
      Uncut(text);
      if s == "" || !Marks(s[0]) { NotMarked(s); } else { CommentKept(s, ""); }
    }
  }

  lemma FirstCut(c: char, line: string, eol: string, rest: string, data: string)
    requires (c == ';' || c == '#') && '\0' !in line && Ending(eol, rest) && data == rest[..IndexOf(rest, '\0')]
    ensures var first := [c] + line + eol;
            && [c] + line + (eol + rest) == first + rest && [c] + line + (eol + data) == first + data
            && (first + rest)[..IndexOf(first + rest, '\0')] == first + data
    ensures Ending(eol, data) && Marks(c)
  {
    hide IndexOf;
    var first := [c] + line + eol;
    assert '\0' !in first;
    CutBehind(first, rest);
  }

  /** Its first line starts that comment, and gives no entry. */
  lemma FileCommentLine(st: Store, c: char, line: string, eol: string, rest: string)
    returns (comment: string, after: string)
    requires st.fileComment == None && (c == ';' || c == '#')
    requires Plain(line) && '\0' !in line && Ending(eol, rest)
    ensures var data := rest[..IndexOf(rest, '\0')];
            && [c] + line <= comment && Behind(after, data)
            && (Alone(data, false) ==> comment == [c] + line && after == data)
    ensures LoadText(st, [c] + line + (eol + rest)) ==
            AddedAll(st.(fileComment := Some(comment)), Entries(after, "", st.multiLine))
  {
    var data := rest[..IndexOf(rest, '\0')];
    var first := [c] + line + eol;
    FirstCut(c, line, eol, rest, data);
    hide *;
    LoadedParts(st, first + rest);
    CommentBegins(c, line, eol, data, false);
    var l := Comments(first + data, false, "");
    comment, after := l.text, l.rest;
  }

  // ----- Tags -----

  /** A line that is taken for the tag: the tag in any case, and blanks behind it. */
  predicate IsTag(line: string, tag: string) {
    && |tag| <= |line| && (forall k :: 0 <= k < |tag| ==> SameLetter(line[k], tag[k]))
    && Blank(line[|tag|..])
  }

  predicate Solid(tag: string) {
    tag != "" && forall k :: 0 <= k < |tag| ==> !WhiteChar(tag[k])
  }

  lemma {:induction false} TagTrims(line: string, b: string)
    requires line != "" && !WhiteChar(line[|line| - 1]) && Blank(b)
    ensures TagTrimmed(line + b) == line
    decreases |b|
  {
    if b == "" {
      assert line + b == line;
    } else {
      assert (line + b)[..|line + b| - 1] == line + b[..|b| - 1];
      assert (line + b)[|line + b| - 1] == b[|b| - 1];
      TagTrims(line, b[..|b| - 1]);
    }
  }

  lemma {:induction false} TrimmedOff(line: string)
    requires Plain(line)
    ensures Blank(line[|TagTrimmed(line)|..])
    decreases |line|
  {
    if |line| > 1 && IsSpace(line[|line| - 1]) {
      var init := line[..|line| - 1];
      TrimmedOff(init);
      var n := |TagTrimmed(init)|;
      assert forall k :: n <= k < |init| ==> line[k] == init[n..][k - n];
    }
  }

  lemma EndsTextIff(line: string, tag: string)
    requires Plain(line) && Solid(tag)
    ensures EndsText(line, tag, false) <==> IsTag(line, tag)
  {
    if EndsText(line, tag, false) { EndIsTag(line, tag); }
    if IsTag(line, tag) { TagIsEnd(line, tag); }
    hide EndsText, IsTag;
  }

  lemma EndIsTag(line: string, tag: string)
    requires Plain(line) && EndsText(line, tag, false)
    ensures IsTag(line, tag)
  {
    TrimmedOff(line);
    FoldedMeans(TagTrimmed(line), tag);
    hide TagTrimmed, Folded, SameLetter, Blank;
    var core := TagTrimmed(line);
    assert forall k :: 0 <= k < |core| ==> line[k] == core[k];
  }

  lemma TagIsEnd(line: string, tag: string)
    requires Solid(tag) && IsTag(line, tag)
    ensures EndsText(line, tag, false)
  {
    TagCore(line, tag);
    FoldedMeans(line[..|tag|], tag);
    hide TagTrimmed, Folded, SameLetter, Blank;
  }

  lemma TagCore(line: string, tag: string)
    requires Solid(tag) && IsTag(line, tag)
    ensures line != "" && TagTrimmed(line) == line[..|tag|] && |tag| <= |line| && TakenFor(line, tag, false)
  {
    assert SameLetter(line[|tag| - 1], tag[|tag| - 1]);
    assert line == line[..|tag|] + line[|tag|..];
    TagTrims(line[..|tag|], line[|tag|..]);
    hide TagTrimmed;
  }

  predicate NoTag(lines: seq<string>, tag: string) {
    forall k :: 0 <= k < |lines| ==> !IsTag(lines[k], tag)
  }

  lemma NoTagFirst(line: string, lines: seq<string>, tag: string)
    ensures NoTag([line] + lines, tag) <==> !IsTag(line, tag) && NoTag(lines, tag)
  {
    hide IsTag;
    var all := [line] + lines;
    assert all[0] == line;
    if NoTag(all, tag) {
      assert forall k :: 0 <= k < |lines| ==> lines[k] == all[k + 1];
    }
  }

  /** The first line of a text without carriage returns. */
  lemma FirstLineIs(text: string, tag: string)
    requires '\r' !in text
    ensures var n := LineEnd(text);
            && IndexOf(text, '\n') == n && Plain(text[..n])
            && (TagFree(text, tag) <==>
                  !EndsText(text[..n], tag, false) && (n < |text| ==> TagFree(text[n + 1..], tag)))
            && (n < |text| ==> '\r' !in text[n + 1..])
  {
    hide EndsText;
  }

  /** A text can stand in front of its tag exactly when none of its lines is taken for the tag. */
  lemma {:induction false} TagFreeIff(text: string, tag: string)
    requires '\r' !in text && Solid(tag)
    ensures TagFree(text, tag) <==> NoTag(Split(text, '\n'), tag)
    decreases |text|
  {
    hide *;
    FirstLineIs(text, tag);
    var n := LineEnd(text);
    var line := text[..n];
    EndsTextIff(line, tag);
    SplitIs(text, n);
    if n < |text| {
      var rest := text[n + 1..];
      TagFreeIff(rest, tag);
      NoTagFirst(line, Split(rest, '\n'), tag);
    } else {
      NoTagFirst(line, [], tag);
      NoLines(tag);
      assert [line] + [] == [line];
    }
  }

  lemma NoLines(tag: string)
    ensures NoTag([], tag)
  {
  }

  lemma SplitIs(text: string, n: nat)
    requires n == IndexOf(text, '\n')
    ensures Split(text, '\n') == if n == |text| then [text[..n]] else [text[..n]] + Split(text[n + 1..], '\n')
  {
    hide IndexOf;
    if n == |text| { assert text[..n] == text; }
  }

  /** A line as it stands in the data, with its newline. */
  datatype DataLine = DataLine(text: string, eol: string)

  function LinesForm(lines: seq<DataLine>, rest: string): string {
    if lines == [] then rest else lines[0].text + (lines[0].eol + LinesForm(lines[1..], rest))
  }

  /** The lines as they are delivered: one newline after each. */
  function Delivered(lines: seq<DataLine>): string {
    if lines == [] then "" else lines[0].text + "\n" + Delivered(lines[1..])
  }

  /** Blanks behind the tag do not matter, until a newline of two characters has been passed. */
  predicate TakenFor(line: string, tag: string, dos: bool) {
    IsTag(line, tag) && (dos ==> |line| == |tag|)
  }

  predicate Dos(lines: seq<DataLine>) {
    exists k :: 0 <= k < |lines| && lines[k].eol == "\r\n"
  }

  /** Lines with a newline each, none of which is taken for the tag. */
  predicate BeforeTag(lines: seq<DataLine>, rest: string, tag: string, dos: bool) {
    lines == [] || (
      && Plain(lines[0].text) && lines[0].eol != "" && Ending(lines[0].eol, LinesForm(lines[1..], rest))
      && !TakenFor(lines[0].text, tag, dos)
      && BeforeTag(lines[1..], rest, tag, dos || lines[0].eol == "\r\n"))
  }

  lemma EndsTextMeans(line: string, tag: string, dos: bool)
    requires Plain(line) && Solid(tag)
    ensures EndsText(line, tag, dos) <==> TakenFor(line, tag, dos)
  {
    EndsTextIff(line, tag);
    FoldedMeans(line, tag);
    hide Folded, TagTrimmed;
  }

  lemma LineIsBefore(line: string, eol: string, rest: string, tag: string, output: string, dos: bool)
    requires Plain(line) && Solid(tag) && eol != "" && Ending(eol, rest) && !TakenFor(line, tag, dos)
    ensures Tagged(line + (eol + rest), tag, output, dos) == Tagged(rest, tag, output + line + "\n", dos || eol == "\r\n")
  {
    EndsTextMeans(line, tag, dos);
    LineEnds(line, eol, rest);
    BreakLength(line, eol, rest);
    hide EndsText, LineEnd, AfterLine, NewLineLength, TakenFor, Plain;
  }

  lemma BreakLength(line: string, eol: string, rest: string)
    requires eol != "" && Ending(eol, rest)
    ensures var s := line + (eol + rest);
            |line| < |s| && NewLineLength(s[|line|..]) == if eol == "\r\n" then 2 else 1
  {
    assert (line + (eol + rest))[|line|..] == eol + rest;
    if eol == "\r" && rest != "" { assert (eol + rest)[1] == rest[0]; }
  }

  /** The lines in front of the tag are delivered with one newline between them, whatever newlines they have in the data. */
  lemma {:induction false} TaggedLines(lines: seq<DataLine>, tag: string, tagLine: string, eol: string, rest: string,
                                       output: string, dos: bool)
    requires Solid(tag) && Plain(tagLine) && Ending(eol, rest) && (lines != [] || output != "")
    requires BeforeTag(lines, tagLine + (eol + rest), tag, dos) && TakenFor(tagLine, tag, dos || Dos(lines))
    ensures Tagged(LinesForm(lines, tagLine + (eol + rest)), tag, output, dos) ==
            Loaded(true, (output + Delivered(lines))[..|output + Delivered(lines)| - 1], rest)
    decreases |lines|
  {
    hide Tagged, TakenFor, Plain, Ending, Solid;
    var end := tagLine + (eol + rest);
    if lines == [] {
      assert output + "" == output;
      assert TakenFor(tagLine, tag, dos);
      TagEnds(tagLine, tag, eol, rest, output, dos);
    } else {
      var first, more := lines[0], LinesForm(lines[1..], end);
      LineIsBefore(first.text, first.eol, more, tag, output, dos);
      assert lines == [first] + lines[1..];
      DosRest(lines);
      assert output + first.text + "\n" + Delivered(lines[1..]) == output + Delivered(lines);
      TaggedLines(lines[1..], tag, tagLine, eol, rest, output + first.text + "\n", dos || first.eol == "\r\n");
    }
  }

  lemma DosRest(lines: seq<DataLine>)
    requires lines != []
    ensures Dos(lines) <==> lines[0].eol == "\r\n" || Dos(lines[1..])
  {
    if Dos(lines[1..]) {
      var k :| 0 <= k < |lines[1..]| && lines[1..][k].eol == "\r\n";
      assert lines[k + 1].eol == "\r\n";
    }
    if Dos(lines) && lines[0].eol != "\r\n" {
      var k :| 0 <= k < |lines| && lines[k].eol == "\r\n";
      assert lines[1..][k - 1].eol == "\r\n";
    }
  }

  lemma TagEnds(line: string, tag: string, eol: string, rest: string, output: string, dos: bool)
    requires Plain(line) && Solid(tag) && Ending(eol, rest) && TakenFor(line, tag, dos) && output != ""
    ensures Tagged(line + (eol + rest), tag, output, dos) == Loaded(true, output[..|output| - 1], rest)
  {
    EndsTextMeans(line, tag, dos);
    LineEnds(line, eol, rest);
    hide EndsText, LineEnd, AfterLine, TakenFor, Plain;
  }

  /** Without its tag, a text runs to the end of the data. */
  lemma {:induction false} TaggedToTheEnd(lines: seq<DataLine>, tag: string, last: string, output: string, dos: bool)
    requires Solid(tag) && Plain(last) && !TakenFor(last, tag, dos || Dos(lines))
    requires BeforeTag(lines, last, tag, dos)
    ensures Tagged(LinesForm(lines, last), tag, output, dos) == Loaded(true, output + Delivered(lines) + last, "")
    decreases |lines|
  {
    hide Tagged, TakenFor, Plain, Ending, Solid;
    if lines == [] {
      assert output + "" + last == output + last;
      assert !TakenFor(last, tag, dos);
      NoTagEnds(last, tag, output, dos);
    } else {
      var first, more := lines[0], LinesForm(lines[1..], last);
      LineIsBefore(first.text, first.eol, more, tag, output, dos);
      DosRest(lines);
      assert output + first.text + "\n" + Delivered(lines[1..]) + last == output + Delivered(lines) + last;
      TaggedToTheEnd(lines[1..], tag, last, output + first.text + "\n", dos || first.eol == "\r\n");
    }
  }

  lemma NoTagEnds(last: string, tag: string, output: string, dos: bool)
    requires Plain(last) && Solid(tag) && !TakenFor(last, tag, dos)
    ensures Tagged(last, tag, output, dos) == Loaded(true, output + last, "")
  {
    EndsTextMeans(last, tag, dos);
    assert last + ("" + "") == last;
    LineEnds(last, "", "");
    hide EndsText, LineEnd, AfterLine, TakenFor, Plain;
  }

  /** A tag on the first line is the text itself when blanks follow it; otherwise the text runs on to the end of the data. */
  lemma TagAtOnce(line: string, tag: string, eol: string, rest: string)
    requires Plain(line) && Solid(tag) && Ending(eol, rest) && IsTag(line, tag)
    ensures Tagged(line + (eol + rest), tag, "", false) ==
            Loaded(true, if |line| == |tag| then line + (eol + rest) else line[..|tag|], rest)
  {
    TagCore(line, tag);
    hide *;
    EndsTextMeans(line, tag, false);
    LineEnds(line, eol, rest);
    TagFirst(line + (eol + rest), line, tag);
  }

  lemma TagFirst(s: string, line: string, tag: string)
    requires LineEnd(s) == |line| && s[..|line|] == line && line != "" && EndsText(line, tag, false)
    ensures Tagged(s, tag, "", false) ==
            Loaded(true, if |TagTrimmed(line)| < |line| then TagTrimmed(line) else s, AfterLine(s, |line|))
  {
    hide LineEnd, AfterLine, TagTrimmed, EndsText;
  }

  // ----- Keys -----

  /** The first character of a key line. */
  predicate KeyChar(c: char) {
    !WhiteChar(c) && c != ';' && c != '#' && c != '['
  }

  predicate KeyWord(key: string) {
    Word(key) && key != "" && KeyChar(key[0]) && '=' !in key
  }

  lemma {:induction false} TrimsBlanks(s: string, b: string)
    requires Tight(s) && Blank(b)
    ensures Trimmed(s + b) == s
    decreases |b|
  {
    if b == "" {
      assert s + b == s;
      TightTrimmed(s);
    } else {
      assert (s + b)[..|s + b| - 1] == s + b[..|b| - 1];
      assert (s + b)[|s + b| - 1] == b[|b| - 1];
      TrimsBlanks(s, b[..|b| - 1]);
    }
  }

  lemma BlanksSkipped(b: string, s: string)
    requires Blank(b) && (s != "" ==> s[0] != ' ' && s[0] != '\t')
    ensures BlankCount(b + s) == |b| && (b + s)[|b|..] == s
  {
    var t := b + s;
    assert forall k :: 0 <= k < |b| ==> t[k] == b[k];
    if s != "" { assert t[|b|] == s[0]; }
    BlankCountIs(t, |b|);
  }

  /** The end of a word and the blanks behind it. */
  lemma MarkBehind(word: string, b: string, mark: char, after: string)
    requires Plain(word) && mark !in word && Blank(b) && mark != ' ' && mark != '\t'
    ensures var t := word + b + ([mark] + after);
            var n := |word + b|;
            n < |t| && t[n] == mark && MarkEnd(t, mark) == n && t[..n] == word + b && t[n + 1..] == after
  {
    var front := word + b;
    var t := front + ([mark] + after);
    hide MarkEnd;
    assert forall k :: 0 <= k < |front| ==> front[k] in word || front[k] in b;
    assert forall k :: 0 <= k < |front| ==> t[k] == front[k] && t[k] != mark && !IsNewLine(t[k]);
    MarkEndIs(t, mark, |front|);
  }

  /** The key and its blanks, up to the equals sign. */
  lemma KeyCut(key: string, b: string, value: string)
    requires KeyWord(key) && Blank(b)
    ensures var t := key + (b + ("=" + value));
            var n := |key| + |b|;
            && 0 < n < |t| && t[n] == '=' && MarkEnd(t, '=') == n && t[n + 1..] == value
            && Trimmed(t[..n]) == key && t[0] == key[0]
  {
    WordIsTight(key);
    assert Plain(key) && key != "" && '=' !in key;
    hide *;
    assert key + (b + ("=" + value)) == key + b + (['='] + value);
    MarkBehind(key, b, '=', value);
    TrimsBlanks(key, b);
  }

  lemma KeyStartsHere(key: string, t: string)
    requires KeyWord(key) && t != "" && t[0] == key[0]
    ensures StartsKey(t) && Start(t) == t
  {
    SpaceCountIs(t, 0);
    hide SpaceCount;
  }

  lemma KeyEntryHere(t: string, n: nat, section: string, comment: Option<string>, multiLine: bool)
    requires n < |t|
    ensures KeyEntry(t, n, section, comment, multiLine) == ValueEntry(t[n + 1..], Trimmed(t[..n]), section, comment, multiLine)
  {
    hide ValueEntry, Trimmed;
  }

  lemma KeyNext(key: string, b: string, value: string, section: string, comment: Option<string>, multiLine: bool)
    requires KeyWord(key) && Blank(b)
    ensures Next(key + (b + ("=" + value)), section, comment, None, multiLine) ==
            ValueEntry(value, key, section, comment, multiLine)
  {
    hide *;
    var t := key + (b + ("=" + value));
    var n := |key| + |b|;
    KeyCut(key, b, value);
    KeyStartsHere(key, t);
    NextKey(t, section, comment, None, multiLine);
    NoOpenHeader(section, t, Trimmed(t[..n]));
    KeyEntryHere(t, n, section, comment, multiLine);
  }

  /** A value on one line, between blanks. */
  lemma ValueIs(key: string, b: string, value: string, b2: string, eol: string, rest: string,
                section: string, comment: Option<string>, multiLine: bool)
    requires Word(value) && Blank(b) && Blank(b2) && (value == "" ==> b2 == "") && Ending(eol, rest)
    requires !(multiLine && "<<<" <= value)
    ensures ValueEntry(b + (value + b2 + (eol + rest)), key, section, comment, multiLine) ==
            Parsed(Entry(section, comment, Some(Item(key, value))), rest)
  {
    var line := value + b2 + (eol + rest);
    assert Plain(value + b2);
    assert value != "" ==> line[0] == value[0];
    assert value == "" ==> line == eol + rest;
    BlanksSkipped(b, line);
    LineEnds(value + b2, eol, rest);
    WordIsTight(value);
    TrimsBlanks(value, b2);
    hide LineEnd, AfterLine, Trimmed, BlankCount, Word, Blank, Ending, Plain, Tagged;
  }

  /**
    * A line that starts with any other character but `[` is a key up to its first equals sign, without the blanks around
    * it, and the rest of the line is its value; the comment before it is its own, unchanged.
    */
  lemma KeyLineRead(w: string, key: string, b: string, b2: string, value: string, b3: string, eol: string, rest: string,
                    section: string, comment: Option<string>, multiLine: bool)
    requires White(w) && KeyWord(key) && Blank(b) && Blank(b2) && Blank(b3)
    requires Word(value) && (value == "" ==> b3 == "") && !(multiLine && "<<<" <= value) && Ending(eol, rest)
    ensures Next(w + (key + (b + ("=" + (b2 + (value + b3 + (eol + rest)))))), section, comment, None, multiLine) ==
            Parsed(Entry(section, comment, Some(Item(key, value))), rest)
  {
    hide *;
    var after := b2 + (value + b3 + (eol + rest));
    SkipsWhite(w, key + (b + ("=" + after)), section, comment, multiLine);
    KeyNext(key, b, after, section, comment, multiLine);
    ValueIs(key, b2, value, b3, eol, rest, section, comment, multiLine);
  }

  /** With multi-line values, `<<<` and a tag take the lines up to the tag. */
  lemma TaggedRead(w: string, key: string, b: string, b2: string, tag: string, text: string, rest: string,
                   section: string, comment: Option<string>)
    requires White(w) && KeyWord(key) && Blank(b) && Blank(b2)
    requires Solid(tag) && '\r' !in text && NoTag(Split(text, '\n'), tag)
    ensures Next(w + (key + (b + ("=" + (b2 + ("<<<" + tag + "\n" + (text + "\n" + (tag + "\n" + rest))))))),
                 section, comment, None, true) ==
            Parsed(Entry(section, comment, Some(Item(key, text))), rest)
  {
    var head, body := "<<<" + tag, text + "\n" + (tag + "\n" + rest);
    TagFreeIff(text, tag);
    assert tag != "" && Plain(head) && Word(head) && "<<<" <= head && head[3..] == tag;
    hide *;
    var after := b2 + (head + "\n" + body);
    SkipsWhite(w, key + (b + ("=" + after)), section, comment, true);
    KeyNext(key, b, after, section, comment, true);
    TaggedIs(key, b2, tag, body, section, comment);
    NoSpaces(tag);
    PrintedLoads(text, tag, rest, "");
    assert "" + text == text;
  }

  lemma NoSpaces(tag: string)
    requires Solid(tag)
    ensures forall k :: 0 <= k < |tag| ==> !IsSpace(tag[k])
  {
  }

  lemma TaggedIs(key: string, b: string, tag: string, body: string, section: string, comment: Option<string>)
    requires Blank(b) && Word("<<<" + tag)
    ensures var l := Tagged(body, tag, "", false);
            ValueEntry(b + ("<<<" + tag + "\n" + body), key, section, comment, true) ==
            if l.found then Parsed(Entry(section, comment, Some(Item(key, l.text))), l.rest) else End
  {
    var head := "<<<" + tag;
    var line := head + "\n" + body;
    assert line == head + ("\n" + body) && line[0] == '<';
    BlanksSkipped(b, line);
    LineEnds(head, "\n", body);
    WordIsTight(head);
    TightTrimmed(head);
    assert "<<<" <= head && head[3..] == tag;
    hide LineEnd, AfterLine, Trimmed, BlankCount, Word, Blank, Tagged;
  }

  // ----- Lines that are passed over -----

  lemma MarkMissing(line: string, mark: char, eol: string, rest: string)
    requires Plain(line) && mark !in line && mark != '\n' && mark != '\r' && eol != "" && Ending(eol, rest)
    ensures var s := line + (eol + rest);
            var n := MarkEnd(s, mark);
            n == |line| < |s| && s[n] != mark && s[n..] == eol + rest
  {
    var s := line + (eol + rest);
    assert forall k :: 0 <= k < |line| ==> s[k] == line[k] && s[k] in line;
    assert s[|line|] == eol[0];
    MarkEndIs(s, mark, |line|);
    hide MarkEnd;
  }

  /** A line without an equals sign that is no comment and no header gives no entry, and leaves the comment for the next one. */
  lemma KeylessLineSkipped(w: string, line: string, eol: string, rest: string, section: string, comment: Option<string>, multiLine: bool)
    requires White(w) && Plain(line) && line != "" && KeyChar(line[0]) && '=' !in line && eol != "" && Ending(eol, rest)
    ensures Next(w + (line + (eol + rest)), section, comment, None, multiLine) == Next(rest, section, comment, None, multiLine)
  {
    var t := line + (eol + rest);
    assert t[0] == line[0] && StartsKey(t);
    SpaceCountIs(t, 0);
    EndingIsWhite(eol, rest);
    hide *;
    StartIs(t);
    MarkMissing(line, '=', eol, rest);
    SkipsWhite(w, t, section, comment, multiLine);
    NextNoKey(t, section, comment, None, multiLine);
    SkipsWhite(eol, rest, section, comment, multiLine);
  }

  /** So does a line without a key in front of its equals sign. */
  lemma NamelessLineSkipped(w: string, line: string, eol: string, rest: string, section: string, comment: Option<string>, multiLine: bool)
    requires White(w) && Plain(line) && Ending(eol, rest)
    ensures Next(w + ("=" + line + (eol + rest)), section, comment, None, multiLine) == Next(rest, section, comment, None, multiLine)
  {
    var t := "=" + line + (eol + rest);
    assert Plain("=" + line) && t[0] == '=' && StartsKey(t);
    SpaceCountIs(t, 0);
    EndingIsWhite(eol, rest);
    MarkEndIs(t, '=', 0);
    LineEnds("=" + line, eol, rest);
    assert t[|"=" + line|..] == eol + rest;
    hide *;
    StartIs(t);
    SkipsWhite(w, t, section, comment, multiLine);
    NextNoKey(t, section, comment, None, multiLine);
    SkipsWhite(eol, rest, section, comment, multiLine);
  }

  // ----- Section headers -----

  /** A header: white characters may follow its bracket, and whatever stands behind the closing bracket is passed over. */
  lemma HeaderLineRead(w: string, w2: string, name: string, b: string, tail: string, eol: string, rest: string,
                   section: string, comment: Option<string>, multiLine: bool)
    requires White(w) && White(w2) && Blank(b) && Plain(tail) && Ending(eol, rest)
    requires Word(name) && ']' !in name && (name == "" ==> b == "")
    ensures Next(w + ("[" + (w2 + (name + b + ("]" + (tail + (eol + rest)))))), section, comment, None, multiLine) ==
            Parsed(Entry(name, comment, None), eol + rest)
  {
    hide *;
    var u := name + b + ("]" + (tail + (eol + rest)));
    HeaderCut(name, b, tail + (eol + rest));
    TailSkipped(tail, eol, rest);
    HeaderPut(w, w2, u, |name| + |b|, tail + (eol + rest), section, comment, multiLine);
  }

  lemma HeaderPut(w: string, w2: string, u: string, n: nat, after: string, section: string, comment: Option<string>, multiLine: bool)
    requires White(w) && White(w2) && n < |u| && u[n] == ']' && MarkEnd(u, ']') == n && u[n + 1..] == after && !IsSpace(u[0])
    ensures Next(w + ("[" + (w2 + u)), section, comment, None, multiLine) ==
            Parsed(Entry(Trimmed(u[..n]), comment, None), after[LineEnd(after)..])
  {
    hide *;
    HeaderStart(w2, u);
    HeaderNext(w, w2 + u, n, section, comment, multiLine);
  }

  lemma HeaderStart(w: string, u: string)
    requires White(w) && u != "" && !IsSpace(u[0])
    ensures Start(w + u) == u
  {
    SpaceIsWhite(w);
    hide *;
    StartAfter(w, u);
  }

  lemma HeaderNext(w: string, v: string, n: nat, section: string, comment: Option<string>, multiLine: bool)
    requires White(w)
    requires var u := Start(v); n < |u| && u[n] == ']' && MarkEnd(u, ']') == n
    ensures var u := Start(v);
            var after := u[n + 1..];
            Next(w + ("[" + v), section, comment, None, multiLine) ==
            Parsed(Entry(Trimmed(u[..n]), comment, None), after[LineEnd(after)..])
  {
    var t := "[" + v;
    SpaceCountIs(t, 0);
    assert t[1..] == v;
    hide *;
    HeaderRest(Start(v), n);
    StartIs(t);
    NextHeader(t, section, comment, None, multiLine);
    SkipsWhite(w, t, section, comment, multiLine);
  }

  lemma HeaderRest(u: string, n: nat)
    requires n < |u|
    ensures AfterHeader(u, n) == u[n + 1..][LineEnd(u[n + 1..])..]
  {
    hide LineEnd;
  }

  lemma TailSkipped(tail: string, eol: string, rest: string)
    requires Plain(tail) && Ending(eol, rest)
    ensures var s := tail + (eol + rest); s[LineEnd(s)..] == eol + rest
  {
    LineEnds(tail, eol, rest);
    hide LineEnd, Plain, Ending;
  }

  lemma StartAfter(w: string, u: string)
    requires (forall k :: 0 <= k < |w| ==> IsSpace(w[k])) && u != "" && !IsSpace(u[0])
    ensures Start(w + u) == u
  {
    assert (w + u)[|w|] == u[0];
    SpaceCountIs(w + u, |w|);
    hide SpaceCount;
    assert (w + u)[|w|..] == u;
  }

  lemma HeaderCut(name: string, b: string, after: string)
    requires Word(name) && ']' !in name && Blank(b) && (name == "" ==> b == "")
    ensures var u := name + b + ("]" + after);
            var n := |name| + |b|;
            && n < |u| && u[n] == ']' && MarkEnd(u, ']') == n && u[n + 1..] == after && Trimmed(u[..n]) == name
            && !IsSpace(u[0])
  {
    WordIsTight(name);
    assert name != "" ==> !IsSpace(name[0]);
    assert Plain(name) && !IsSpace(']');
    hide *;
    MarkBehind(name, b, ']', after);
    TrimsBlanks(name, b);
    var u := name + b + ([']'] + after);
    assert u[0] == if name == "" then ']' else name[0];
  }

  // ----- What is written -----

  /** A key with a value of any shape that holds no carriage return is written and read back, unless the value is taken for a tag. */
  lemma ValueKept(key: string, value: string, rest: string, section: string, comment: Option<string>)
    requires KeyWord(key) && '\r' !in value && !("<<<" <= value)
    requires NoTag(Split(value, '\n'), "END_OF_TEXT")
    ensures Next(ItemText(Item(key, value), true) + rest, section, comment, None, true) ==
            Parsed(Entry(section, comment, Some(Item(key, value))), rest)
  {
    assert Solid("END_OF_TEXT");
    WordIsTight(key);
    assert CleanKey(key);
    TagFreeIff(value, "END_OF_TEXT");
    assert Writable(value, true) by { hide TagFree, NoTag, Split; }
    hide *;
    assert CleanItem(Item(key, value), true) by { CleanIs(key, value); }
    ItemRoundTrip(Item(key, value), rest, section, comment, true);
  }

  lemma CleanIs(key: string, value: string)
    requires CleanKey(key) && Writable(value, true)
    ensures CleanItem(Item(key, value), true)
  {
    hide CleanKey, Writable;
  }

  /** A value is written on its line, or between tags when a newline is in it or an end of it is white. */
  lemma ItemWritten(key: string, value: string)
    ensures ItemText(Item(key, value), false) == key + " = " + value + "\n"
    ensures var lines := value != "" && (WhiteChar(value[0]) || WhiteChar(value[|value| - 1]) || '\n' in value || '\r' in value);
            ItemText(Item(key, value), true) ==
            if lines then key + " = <<<END_OF_TEXT\n" + value + "\nEND_OF_TEXT\n" else key + " = " + value + "\n"
  {
    NeedsLinesIff(value);
    hide NeedsLines;
    if NeedsLines(value) { RegroupLines(key, value); }
  }

  lemma NeedsLinesIff(value: string)
    ensures NeedsLines(value) <==>
            value != "" && (WhiteChar(value[0]) || WhiteChar(value[|value| - 1]) || '\n' in value || '\r' in value)
  {
  }

  lemma RegroupLines(key: string, value: string)
    ensures key + " = " + ("<<<" + "END_OF_TEXT" + "\n" + (value + "\n") + "END_OF_TEXT") + "\n" ==
            key + " = <<<END_OF_TEXT\n" + value + "\nEND_OF_TEXT\n"
  {
    assert "<<<" + "END_OF_TEXT" + "\n" == "<<<END_OF_TEXT\n";
    assert "\n" + "END_OF_TEXT" + "\n" == "\nEND_OF_TEXT\n";
  }

  /** A comment is written in front of its key behind an empty line, and in front of its section; sections are two lines apart. */
  lemma TextWritten(a: Section, b: Section, line: Line, items: seq<Line>, rest: seq<Section>, multiLine: bool)
    ensures SectionText(a, multiLine) ==
            (if a.comment.None? || a.comment.value == "" then "" else a.comment.value + "\n")
            + (if a.name == "" then "" else "[" + a.name + "]\n") + ItemsText(a.items, multiLine)
    ensures ItemsText([line] + items, multiLine) ==
            (if line.comment.None? then "" else if line.comment.value == "" then "\n" else "\n" + line.comment.value + "\n")
            + ItemText(Item(line.key, line.value), multiLine) + ItemsText(items, multiLine)
    ensures ItemsText([], multiLine) == "" && DocText([], multiLine) == ""
    ensures DocText([a], multiLine) == SectionText(a, multiLine)
    ensures DocText([a, b] + rest, multiLine) == SectionText(a, multiLine) + "\n\n" + DocText([b] + rest, multiLine)
  {
    hide ItemText, ItemsText, SectionText, DocText;
    SectionWritten(a, multiLine);
    ItemsWritten(line, items, multiLine);
    DocWritten(a, b, rest, multiLine);
  }

  lemma SectionWritten(a: Section, multiLine: bool)
    ensures SectionText(a, multiLine) ==
            (if a.comment.None? || a.comment.value == "" then "" else a.comment.value + "\n")
            + (if a.name == "" then "" else "[" + a.name + "]\n") + ItemsText(a.items, multiLine)
  {
    hide ItemsText;
  }

  lemma ItemsWritten(line: Line, items: seq<Line>, multiLine: bool)
    ensures ItemsText([line] + items, multiLine) ==
            (if line.comment.None? then "" else if line.comment.value == "" then "\n" else "\n" + line.comment.value + "\n")
            + ItemText(Item(line.key, line.value), multiLine) + ItemsText(items, multiLine)
    ensures ItemsText([], multiLine) == ""
  {
    hide ItemText;
    assert ([line] + items)[1..] == items;
  }

  lemma DocWritten(a: Section, b: Section, rest: seq<Section>, multiLine: bool)
    ensures DocText([], multiLine) == "" && DocText([a], multiLine) == SectionText(a, multiLine)
    ensures DocText([a, b] + rest, multiLine) == SectionText(a, multiLine) + "\n\n" + DocText([b] + rest, multiLine)
  {
    hide SectionText;
    var doc := [a, b] + rest;
    assert doc[1..] == [b] + rest;
    assert SectionText(a, multiLine) + "" == SectionText(a, multiLine);
  }
}
