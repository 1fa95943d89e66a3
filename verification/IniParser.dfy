/** INI data as a list of entries, and the routine that finds the next entry in place. */
module IniParser {
  import opened Options
  import opened IniLines

  // ----- What an entry is -----

  datatype Item = Item(key: string, value: string)

  /** A section on its own, or a key and its value in a section. */
  datatype Entry = Entry(section: string, comment: Option<string>, item: Option<Item>)

  datatype Parsed = End | Parsed(entry: Entry, rest: string)

  /** How many white characters other than newlines a text starts with. */
  function BlankCount(s: string): (n: nat)
    ensures n <= |s| && (n < |s| ==> !IsSpace(s[n]) || IsNewLine(s[n]))
    ensures forall k :: 0 <= k < n ==> IsSpace(s[k]) && !IsNewLine(s[k])
  {
    if s == "" || !IsSpace(s[0]) || IsNewLine(s[0]) then 0 else 1 + BlankCount(s[1..])
  }

  /** The first `mark` or newline. */
  function MarkEnd(s: string, mark: char): (n: nat)
    ensures n <= |s| && (n < |s| ==> s[n] == mark || IsNewLine(s[n]))
    ensures forall k :: 0 <= k < n ==> s[k] != mark && !IsNewLine(s[k])
  {
    if s == "" || s[0] == mark || IsNewLine(s[0]) then 0 else 1 + MarkEnd(s[1..], mark)
  }

  /** A text without the white characters at its end. */
  function Trimmed(s: string): (t: string)
    ensures t <= s
    ensures t != "" ==> !IsSpace(t[|t| - 1])
  {
    if s != "" && IsSpace(s[|s| - 1]) then Trimmed(s[..|s| - 1]) else s
  }

  /** Where the text after a closed section name goes on. */
  function AfterHeader(u: string, n: nat): (rest: string)
    requires n < |u|
    ensures |rest| < |u|
  {
    u[n + 1..][LineEnd(u[n + 1..])..]
  }

  /** A key ends at position `n` of `t`; its value is the rest of the line, or tagged lines. */
  function KeyEntry(t: string, n: nat, section: string, comment: Option<string>, multiLine: bool): (r: Parsed)
    requires n < |t|
    ensures r.Parsed? ==> |r.rest| < |t|
  {
    ValueEntry(t[n + 1..], Trimmed(t[..n]), section, comment, multiLine)
  }

  /** The value that starts `s`, as the value of a key. */
  function ValueEntry(s: string, key: string, section: string, comment: Option<string>, multiLine: bool): (r: Parsed)
    ensures r.Parsed? ==> |r.rest| <= |s|
  {
    var line := s[BlankCount(s)..];
    var m := LineEnd(line);
    var value := Trimmed(line[..m]);
    if multiLine && "<<<" <= value then
      var l := Tagged(AfterLine(line, m), value[3..], "", false);
      if l.found then Parsed(Entry(section, comment, Some(Item(key, l.text))), l.rest) else End
    else Parsed(Entry(section, comment, Some(Item(key, value))), AfterLine(line, m))
  }

  /** The name of the section: a header that was not closed runs on to the string that ends behind it. */
  function SectionName(section: string, open: Option<string>, t: string, last: string): string {
    if open.Some? && |t| <= |open.value| then open.value[..|open.value| - |t|] + last else section
  }

  /**
    * The next entry of the data `s`, after the comment `comment`. `open` is the data from a section header on that
    * was not closed on its line; the program keeps a pointer to it.
    */
  function Next(s: string, section: string, comment: Option<string>, open: Option<string>, multiLine: bool): (r: Parsed)
    ensures r.Parsed? ==> |r.rest| < |s|
    decreases |s|
  {
    var t := Start(s);
    if t == "" then End
    else if IsComment(t[0]) then
      var l := Comments(t, true, "");
      Next(l.rest, SectionName(section, open, t, l.text), Some(l.text), None, multiLine)
    else if t[0] == '[' then
      var u := Start(t[1..]);
      var n := MarkEnd(u, ']');
      if n < |u| && u[n] == ']' then Parsed(Entry(Trimmed(u[..n]), comment, None), AfterHeader(u, n))
      else Next(u[n..], section, comment, Some(u), multiLine)
    else
      var n := MarkEnd(t, '=');
      if n == |t| || t[n] != '=' then Next(t[n..], section, comment, open, multiLine)
      else if n == 0 then Next(t[LineEnd(t)..], section, comment, open, multiLine)
      else KeyEntry(t, n, SectionName(section, open, t, Trimmed(t[..n])), comment, multiLine)
  }

  /** All entries. */
  function Entries(s: string, section: string, multiLine: bool): seq<Entry>
    decreases |s|
  {
    match Next(s, section, None, None, multiLine)
    case End => []
    case Parsed(e, rest) => [e] + Entries(rest, e.section, multiLine)
  }

  // ----- One step at a time -----

  /** The data after its leading white characters. */
  function Start(s: string): (t: string)
    ensures |t| <= |s| && (t != "" ==> !IsSpace(t[0]))
  {
    s[SpaceCount(s)..]
  }

  lemma NextEnd(s: string, section: string, comment: Option<string>, open: Option<string>, multiLine: bool)
    requires Start(s) == ""
    ensures Next(s, section, comment, open, multiLine) == End
  {
  }

  lemma NextComment(s: string, section: string, comment: Option<string>, open: Option<string>, multiLine: bool)
    requires Start(s) != "" && IsComment(Start(s)[0])
    ensures var t := Start(s);
            var l := Comments(t, true, "");
            Next(s, section, comment, open, multiLine) ==
            Next(l.rest, SectionName(section, open, t, l.text), Some(l.text), None, multiLine)
  {
    hide SpaceCount, MarkEnd, BlankCount, Trimmed, Comments, KeyEntry, AfterHeader, LineEnd, SectionName;
  }

  lemma NextHeader(s: string, section: string, comment: Option<string>, open: Option<string>, multiLine: bool)
    requires Start(s) != "" && Start(s)[0] == '['
    ensures var u := Start(Start(s)[1..]);
            var n := MarkEnd(u, ']');
            Next(s, section, comment, open, multiLine) ==
            if n < |u| && u[n] == ']' then Parsed(Entry(Trimmed(u[..n]), comment, None), AfterHeader(u, n))
            else Next(u[n..], section, comment, Some(u), multiLine)
  {
    hide SpaceCount, MarkEnd, BlankCount, Trimmed, Comments, KeyEntry, AfterHeader, LineEnd, SectionName;
  }

  predicate StartsKey(t: string) {
    t != "" && !IsComment(t[0]) && t[0] != '['
  }

  lemma NextNoKey(s: string, section: string, comment: Option<string>, open: Option<string>, multiLine: bool)
    requires StartsKey(Start(s))
    requires var t := Start(s);
             var n := MarkEnd(t, '=');
             n == 0 || n == |t| || t[n] != '='
    ensures var t := Start(s);
            var n := MarkEnd(t, '=');
            && (n == |t| || t[n] != '=' ==>
                  Next(s, section, comment, open, multiLine) == Next(t[n..], section, comment, open, multiLine))
            && (n == 0 ==>
                  t[n] == '='
                  && Next(s, section, comment, open, multiLine) == Next(t[LineEnd(t)..], section, comment, open, multiLine))
  {
    hide SpaceCount, MarkEnd, BlankCount, Trimmed, Comments, KeyEntry, AfterHeader, LineEnd, SectionName;
  }

  lemma NextKey(s: string, section: string, comment: Option<string>, open: Option<string>, multiLine: bool)
    requires StartsKey(Start(s))
    requires var t := Start(s);
             var n := MarkEnd(t, '=');
             0 < n < |t| && t[n] == '='
    ensures var t := Start(s);
            var n := MarkEnd(t, '=');
            Next(s, section, comment, open, multiLine) ==
            KeyEntry(t, n, SectionName(section, open, t, Trimmed(t[..n])), comment, multiLine)
  {
    hide SpaceCount, MarkEnd, BlankCount, Trimmed, Comments, KeyEntry, AfterHeader, LineEnd, SectionName;
  }

  // ----- What parsing never produces -----

  predicate SingleLine(s: string) {
    forall k :: 0 <= k < |s| ==> !IsNewLine(s[k])
  }

  /** No white characters at either end. */
  predicate Tight(s: string) {
    s != "" ==> !IsSpace(s[0]) && !IsSpace(s[|s| - 1])
  }

  predicate CleanKey(key: string) {
    && SingleLine(key) && Tight(key) && key != "" && '=' !in key
    && key[0] != '[' && !IsComment(key[0])
  }

  predicate CleanValue(value: string) {
    SingleLine(value) && Tight(value)
  }

  predicate CleanName(name: string) {
    SingleLine(name) && Tight(name) && ']' !in name
  }

  lemma TrimmedIsTight(s: string, n: nat)
    requires n <= |s| && (n > 0 ==> !IsSpace(s[0]))
    ensures Tight(Trimmed(s[..n])) && (n > 0 ==> Trimmed(s[..n]) != "" && Trimmed(s[..n])[0] == s[0])
  {
    if n > 0 {
      assert s[..n][0] == s[0];
      TrimmedKeeps(s[..n]);
    }
  }

  lemma {:induction false} TrimmedKeeps(s: string)
    requires s != "" && !IsSpace(s[0])
    ensures Trimmed(s) != "" && Trimmed(s)[0] == s[0]
  {
    if IsSpace(s[|s| - 1]) { TrimmedKeeps(s[..|s| - 1]); }
  }

  // ----- The printed form -----

  /** A key and its value, with the comment before it. */
  datatype Line = Line(key: string, value: string, comment: Option<string>)

  datatype Section = Section(name: string, comment: Option<string>, items: seq<Line>)

  function Bare(line: Line): Item {
    Item(line.key, line.value)
  }

  /** A comment in front of an entry. */
  function CommentText(comment: Option<string>, before: string): string {
    if comment.None? then "" else before + Output(comment.value)
  }

  function ValueText(value: string, multiLine: bool): string {
    if multiLine && NeedsLines(value) then "<<<" + END_TAG + "\n" + Output(value) + END_TAG else value
  }

  function ItemText(item: Item, multiLine: bool): string {
    item.key + " = " + ValueText(item.value, multiLine) + "\n"
  }

  function LineText(line: Line, multiLine: bool): string {
    CommentText(line.comment, "\n") + ItemText(Bare(line), multiLine)
  }

  function ItemsText(items: seq<Line>, multiLine: bool): string {
    if items == [] then "" else LineText(items[0], multiLine) + ItemsText(items[1..], multiLine)
  }

  function Header(name: string): string {
    if name == "" then "" else "[" + name + "]\n"
  }

  function SectionText(section: Section, multiLine: bool): string {
    CommentText(section.comment, "") + Header(section.name) + ItemsText(section.items, multiLine)
  }

  /** Sections in the order they are written; two newlines separate them. */
  function DocText(doc: seq<Section>, multiLine: bool): string {
    if doc == [] then ""
    else SectionText(doc[0], multiLine) + if |doc| == 1 then "" else "\n\n" + DocText(doc[1..], multiLine)
  }

  function ItemEntries(name: string, items: seq<Line>): seq<Entry> {
    if items == [] then [] else [Entry(name, items[0].comment, Some(Bare(items[0])))] + ItemEntries(name, items[1..])
  }

  function SectionEntries(section: Section): seq<Entry> {
    (if section.name == "" then [] else [Entry(section.name, section.comment, None)]) + ItemEntries(section.name, section.items)
  }

  function DocEntries(doc: seq<Section>): seq<Entry> {
    if doc == [] then [] else SectionEntries(doc[0]) + DocEntries(doc[1..])
  }

  /** The values that can be written: on one line, or as lines that are not taken for the tag. */
  predicate Writable(value: string, multiLine: bool) {
    if multiLine && NeedsLines(value) then '\r' !in value && TagFree(value, END_TAG)
    else CleanValue(value) && (multiLine ==> !("<<<" <= value))
  }

  predicate CleanItem(item: Item, multiLine: bool) {
    CleanKey(item.key) && Writable(item.value, multiLine)
  }

  predicate CommentOk(comment: Option<string>) {
    comment.Some? ==> CleanComment(comment.value, true)
  }

  predicate CleanLine(line: Line, multiLine: bool) {
    CommentOk(line.comment) && CleanItem(Bare(line), multiLine)
  }

  predicate CleanItems(items: seq<Line>, multiLine: bool) {
    forall i :: 0 <= i < |items| ==> CleanLine(items[i], multiLine)
  }

  /** A section without a name has no comment of its own: what is written in front of it belongs to its first key. */
  predicate CleanSection(section: Section, multiLine: bool) {
    && CleanName(section.name) && CommentOk(section.comment) && CleanItems(section.items, multiLine)
    && (section.name == "" ==> section.comment == None)
  }

  /** Clean sections; only the first one may have no name. */
  predicate CleanDoc(doc: seq<Section>, multiLine: bool) {
    forall i :: 0 <= i < |doc| ==> CleanSection(doc[i], multiLine) && (doc[i].name == "" ==> i == 0)
  }

  // ----- Reading back one entry -----

  lemma SpaceCountIs(s: string, n: nat)
    requires n <= |s| && (n < |s| ==> !IsSpace(s[n])) && forall k :: 0 <= k < n ==> IsSpace(s[k])
    ensures SpaceCount(s) == n
  {
  }

  lemma BlankCountIs(s: string, n: nat)
    requires n <= |s| && (n < |s| ==> !IsSpace(s[n]) || IsNewLine(s[n]))
    requires forall k :: 0 <= k < n ==> IsSpace(s[k]) && !IsNewLine(s[k])
    ensures BlankCount(s) == n
  {
  }

  lemma MarkEndIs(s: string, mark: char, n: nat)
    requires n <= |s| && (n < |s| ==> s[n] == mark || IsNewLine(s[n]))
    requires forall k :: 0 <= k < n ==> s[k] != mark && !IsNewLine(s[k])
    ensures MarkEnd(s, mark) == n
  {
  }

  lemma TightTrimmed(s: string)
    requires Tight(s)
    ensures Trimmed(s) == s && Trimmed(s + " ") == s
  {
    assert (s + " ")[..|s|] == s;
  }

  /** A key, an equals sign between spaces, and a line that does not start with a blank. */
  lemma KeyLine(key: string, line: string)
    requires CleanKey(key)
    requires line == "" || !IsSpace(line[0]) || IsNewLine(line[0])
    ensures var t := key + " = " + line;
            var n := |key| + 1;
            && SpaceCount(t) == 0 && t[0] == key[0]
            && n < |t| && MarkEnd(t, '=') == n && t[n] == '=' && Trimmed(t[..n]) == key
            && t[n + 1..] == " " + line && (" " + line)[BlankCount(" " + line)..] == line
  {
    KeyEnd(key, " " + line);
    hide *;
    KeyShape(key, line);
    BlankCountOne(line);
  }

  lemma KeyShape(key: string, line: string)
    ensures var t, n := key + " = " + line, |key| + 1;
            t == key + " =" + (" " + line) && t[..n] == key + " " && t[n + 1..] == " " + line
  {
  }

  lemma BlankCountOne(line: string)
    requires line == "" || !IsSpace(line[0]) || IsNewLine(line[0])
    ensures BlankCount(" " + line) == 1 && (" " + line)[1..] == line
  {
    BlankCountIs(" " + line, 1);
  }

  lemma KeyEnd(key: string, after: string)
    requires CleanKey(key)
    ensures var t := key + " =" + after;
            && SpaceCount(t) == 0 && t[0] == key[0]
            && |key| + 1 < |t| && MarkEnd(t, '=') == |key| + 1 && t[|key| + 1] == '='
            && Trimmed(key + " ") == key
  {
    var t := key + " =" + after;
    TightTrimmed(key);
    hide Trimmed, SpaceCount, MarkEnd;
    assert forall k :: 0 <= k < |key| ==> t[k] == key[k] && t[k] in key;
    assert t[|key|] == ' ' && t[|key| + 1] == '=';
    SpaceCountIs(t, 0);
    MarkEndIs(t, '=', |key| + 1);
  }

  lemma NextOfKey(key: string, line: string, section: string, comment: Option<string>, multiLine: bool)
    requires CleanKey(key)
    requires line == "" || !IsSpace(line[0]) || IsNewLine(line[0])
    ensures Next(key + " = " + line, section, comment, None, multiLine) ==
            KeyEntry(key + " = " + line, |key| + 1, section, comment, multiLine)
  {
    KeyLine(key, line);
    hide *;
    var t := key + " = " + line;
    KeyStart(key, t);
    StartIs(t);
    NextKey(t, section, comment, None, multiLine);
    NoOpenHeader(section, t, Trimmed(t[..|key| + 1]));
  }

  lemma KeyStart(key: string, t: string)
    requires CleanKey(key) && t != "" && t[0] == key[0]
    ensures StartsKey(t)
  {
  }

  lemma StartIs(t: string)
    requires SpaceCount(t) == 0
    ensures Start(t) == t
  {
  }

  lemma NoOpenHeader(section: string, t: string, last: string)
    ensures SectionName(section, None, t, last) == section
  {
  }

  lemma KeyEntryIs(key: string, line: string, section: string, comment: Option<string>, multiLine: bool)
    requires CleanKey(key)
    requires line == "" || !IsSpace(line[0]) || IsNewLine(line[0])
    ensures var m := LineEnd(line);
            var value := Trimmed(line[..m]);
            KeyEntry(key + " = " + line, |key| + 1, section, comment, multiLine) ==
            if multiLine && "<<<" <= value then
              var l := Tagged(AfterLine(line, m), value[3..], "", false);
              if l.found then Parsed(Entry(section, comment, Some(Item(key, l.text))), l.rest) else End
            else Parsed(Entry(section, comment, Some(Item(key, value))), AfterLine(line, m))
  {
    KeyLine(key, line);
    hide MarkEnd, SpaceCount, Trimmed, BlankCount, LineEnd, AfterLine, Tagged;
  }

  /** A printed item is read back, after whatever comment, and what follows it is left. */
  lemma ItemRoundTrip(item: Item, rest: string, section: string, comment: Option<string>, multiLine: bool)
    requires CleanItem(item, multiLine)
    ensures Next(ItemText(item, multiLine) + rest, section, comment, None, multiLine) ==
            Parsed(Entry(section, comment, Some(item)), rest)
  {
    if multiLine && NeedsLines(item.value) {
      LinesRoundTrip(item, rest, section, comment);
    } else {
      LineRoundTrip(item, rest, section, comment, multiLine);
    }
  }

  lemma LineRoundTrip(item: Item, rest: string, section: string, comment: Option<string>, multiLine: bool)
    requires CleanItem(item, multiLine) && !(multiLine && NeedsLines(item.value))
    ensures Next(ItemText(item, multiLine) + rest, section, comment, None, multiLine) ==
            Parsed(Entry(section, comment, Some(item)), rest)
  {
    hide Next, KeyEntry, CleanKey, NeedsLines, LineEnd, AfterLine, Trimmed, NewLineLength;
    var line := item.value + "\n" + rest;
    assert ItemText(item, multiLine) + rest == item.key + " = " + line;
    NextOfKey(item.key, line, section, comment, multiLine);
    KeyEntryIs(item.key, line, section, comment, multiLine);
    OneLine(item.value, rest);
    TightTrimmed(item.value);
  }

  lemma LinesRoundTrip(item: Item, rest: string, section: string, comment: Option<string>)
    requires CleanKey(item.key) && '\r' !in item.value && TagFree(item.value, END_TAG) && NeedsLines(item.value)
    ensures Next(ItemText(item, true) + rest, section, comment, None, true) ==
            Parsed(Entry(section, comment, Some(item)), rest)
  {
    assert item.value != "";
    hide *;
    LinesNext(item, rest, section, comment);
    PrintedLoadsIff(item.value, rest);
  }

  /** A value printed as lines is what they load as. */
  lemma LinesNext(item: Item, rest: string, section: string, comment: Option<string>)
    requires CleanKey(item.key) && NeedsLines(item.value)
    ensures var l := Tagged(Printed(item.value, END_TAG, rest), END_TAG, "", false);
            Next(ItemText(item, true) + rest, section, comment, None, true) ==
            if l.found then Parsed(Entry(section, comment, Some(Item(item.key, l.text))), l.rest) else End
  {
    EndTagHasNoSpaces();
    TagHead();
    hide *;
    var head, after := "<<<" + END_TAG, Printed(item.value, END_TAG, rest);
    var line := head + "\n" + after;
    assert line[0] == head[0];
    LinesShape(item, rest);
    NextOfKey(item.key, line, section, comment, true);
    KeyEntryIs(item.key, line, section, comment, true);
    OneLine(head, after);
    TightTrimmed(head);
  }

  lemma TagHead()
    ensures var head := "<<<" + END_TAG;
            && head != "" && (forall k :: 0 <= k < |head| ==> !IsNewLine(head[k]))
            && Tight(head) && "<<<" <= head && head[3..] == END_TAG && !IsSpace(head[0])
  {
  }

  lemma LinesShape(item: Item, rest: string)
    requires NeedsLines(item.value)
    ensures ItemText(item, true) + rest ==
            item.key + " = " + ("<<<" + END_TAG + "\n" + Printed(item.value, END_TAG, rest))
  {
    hide NeedsLines, Output;
  }

  /** White characters in front of an entry make no difference. */
  lemma SpaceBefore(w: string, s: string, section: string, multiLine: bool)
    requires forall k :: 0 <= k < |w| ==> IsSpace(w[k])
    ensures Next(w + s, section, None, None, multiLine) == Next(s, section, None, None, multiLine)
    ensures Entries(w + s, section, multiLine) == Entries(s, section, multiLine)
  {
    SameAfterSpace(w, s, section, None, multiLine);
    hide Next;
  }

  lemma SameAfterSpace(w: string, s: string, section: string, comment: Option<string>, multiLine: bool)
    requires forall k :: 0 <= k < |w| ==> IsSpace(w[k])
    ensures Next(w + s, section, comment, None, multiLine) == Next(s, section, comment, None, multiLine)
  {
    var n := SpaceCount(s);
    SpaceCountIs(w + s, |w| + n);
    assert (w + s)[|w| + n..] == s[n..];
    assert Start(w + s) == Start(s);
    hide Start, SpaceCount, MarkEnd, BlankCount, Trimmed, Comments, KeyEntry, AfterHeader, LineEnd, SectionName;
  }

  lemma HeaderRoundTrip(name: string, rest: string, section: string, comment: Option<string>, multiLine: bool)
    requires CleanName(name)
    ensures Next("[" + name + "]\n" + rest, section, comment, None, multiLine) ==
            Parsed(Entry(name, comment, None), "\n" + rest)
  {
    hide Next;
    var u := name + "]" + ("\n" + rest);
    assert "[" + name + "]\n" + rest == "[" + u;
    NameEnd(name, "\n" + rest);
    NextOfHeader(u, section, comment, multiLine);
    TightTrimmed(name);
    hide Trimmed, LineEnd, CleanName;
    LineEndIs("\n" + rest, 0);
  }

  lemma NameEnd(name: string, after: string)
    requires CleanName(name)
    ensures var u := name + "]" + after;
            && SpaceCount(u) == 0 && MarkEnd(u, ']') == |name| && u[|name|] == ']'
            && u[..|name|] == name && u[|name| + 1..] == after
  {
    hide SpaceCount, MarkEnd;
    var u := name + "]" + after;
    assert forall k :: 0 <= k < |name| ==> u[k] == name[k] && u[k] in name;
    SpaceCountIs(u, 0);
    MarkEndIs(u, ']', |name|);
  }

  lemma NextOfHeader(u: string, section: string, comment: Option<string>, multiLine: bool)
    requires SpaceCount(u) == 0
    requires var n := MarkEnd(u, ']'); n < |u| && u[n] == ']'
    ensures var n := MarkEnd(u, ']');
            Next("[" + u, section, comment, None, multiLine) ==
            Parsed(Entry(Trimmed(u[..n]), comment, None), AfterHeader(u, n))
  {
    var t := "[" + u;
    SpaceCountIs(t, 0);
    hide *;
    StartIs(t);
    StartIs(u);
    assert t[1..] == u;
    NextHeader(t, section, comment, None, multiLine);
  }

  // ----- Reading back comments -----

  /** A clean comment, printed in front of data without one, is handed to the entry that follows. */
  lemma CommentIsRead(comment: Option<string>, before: string, s: string, section: string, multiLine: bool)
    requires CommentOk(comment) && NoComment(s, true) && (before == "" || before == "\n")
    ensures Next(CommentText(comment, before) + s, section, None, None, multiLine) == Next(s, section, comment, None, multiLine)
  {
    hide *;
    CommentShape(comment, before, s);
    if comment.Some? {
      var text := comment.value + "\n" + s;
      assert text[0] == comment.value[0];
      SpacesIn(before);
      SameAfterSpace(before, text, section, None, multiLine);
      CommentStarts(text);
      CommentOkIs(comment.value);
      CommentLoads(comment.value, s, true, "");
      assert "" + comment.value == comment.value;
      NextComment(text, section, None, None, multiLine);
      NoOpenHeader(section, text, comment.value);
    }
  }

  lemma CommentShape(comment: Option<string>, before: string, s: string)
    requires CommentOk(comment)
    ensures comment.None? ==> CommentText(comment, before) + s == s
    ensures comment.Some? ==> comment.value != "" && IsComment(comment.value[0])
    ensures comment.Some? ==> CommentText(comment, before) + s == before + (comment.value + "\n" + s)
  {
  }

  lemma SpacesIn(w: string)
    requires w == "" || w == "\n"
    ensures forall k :: 0 <= k < |w| ==> IsSpace(w[k])
  {
  }

  lemma CommentOkIs(text: string)
    requires CommentOk(Some(text))
    ensures CleanComment(text, true)
  {
  }

  lemma CommentStarts(s: string)
    requires s != "" && IsComment(s[0])
    ensures Start(s) == s
  {
    SpaceCountIs(s, 0);
    hide SpaceCount;
  }

  lemma KeyIsNoComment(item: Item, rest: string, multiLine: bool)
    requires CleanKey(item.key)
    ensures NoComment(ItemText(item, multiLine) + rest, true)
  {
    hide ValueText;
    var s := ItemText(item, multiLine) + rest;
    assert s[0] == item.key[0];
    SpaceCountIs(s, 0);
  }

  lemma HeaderIsNoComment(name: string, rest: string)
    ensures NoComment("[" + name + "]\n" + rest, true)
  {
    SpaceCountIs("[" + name + "]\n" + rest, 0);
  }

  // ----- Reading back a whole text -----

  lemma EntriesStep(s: string, section: string, multiLine: bool, e: Entry, rest: string)
    requires Next(s, section, None, None, multiLine) == Parsed(e, rest)
    ensures Entries(s, section, multiLine) == [e] + Entries(rest, e.section, multiLine)
  {
    hide Next;
  }

  /** A printed item with its comment is read back. */
  lemma CommentedRoundTrip(line: Line, rest: string, section: string, multiLine: bool)
    requires CleanLine(line, multiLine)
    ensures Next(LineText(line, multiLine) + rest, section, None, None, multiLine) ==
            Parsed(Entry(section, line.comment, Some(Bare(line))), rest)
  {
    CleanItemKey(Bare(line), multiLine);
    hide Next, CleanItem, CommentOk, CleanKey, ItemText, CommentText, NoComment;
    var s := ItemText(Bare(line), multiLine) + rest;
    KeyIsNoComment(Bare(line), rest, multiLine);
    assert LineText(line, multiLine) + rest == CommentText(line.comment, "\n") + s;
    CommentIsRead(line.comment, "\n", s, section, multiLine);
    ItemRoundTrip(Bare(line), rest, section, line.comment, multiLine);
  }

  lemma CleanItemKey(item: Item, multiLine: bool)
    requires CleanItem(item, multiLine)
    ensures CleanKey(item.key)
  {
  }

  lemma {:induction false} ItemsRoundTrip(items: seq<Line>, rest: string, section: string, multiLine: bool)
    requires CleanItems(items, multiLine)
    ensures Entries(ItemsText(items, multiLine) + rest, section, multiLine) ==
            ItemEntries(section, items) + Entries(rest, section, multiLine)
  {
    hide Next, Entries, LineText, CleanLine;
    if items == [] {
      assert ItemsText(items, multiLine) + rest == rest;
    } else {
      var text, after := LineText(items[0], multiLine), ItemsText(items[1..], multiLine) + rest;
      assert ItemsText(items, multiLine) + rest == text + after;
      CommentedRoundTrip(items[0], after, section, multiLine);
      EntriesStep(text + after, section, multiLine, Entry(section, items[0].comment, Some(Bare(items[0]))), after);
      ItemsRoundTrip(items[1..], rest, section, multiLine);
    }
  }

  lemma SectionRoundTrip(section: Section, rest: string, before: string, multiLine: bool)
    requires CleanSection(section, multiLine)
    requires section.name == "" ==> before == ""
    ensures Entries(SectionText(section, multiLine) + rest, before, multiLine) ==
            SectionEntries(section) + Entries(rest, section.name, multiLine)
  {
    hide Next, Entries, ItemsText, ItemEntries, CleanItems, CleanName, CommentOk, CommentText, NoComment;
    var items := ItemsText(section.items, multiLine);
    ItemsRoundTrip(section.items, rest, section.name, multiLine);
    if section.name == "" {
      NoCommentText("");
      assert SectionText(section, multiLine) + rest == items + rest;
    } else {
      var text := "[" + section.name + "]\n" + (items + rest);
      assert SectionText(section, multiLine) + rest == CommentText(section.comment, "") + text;
      HeaderIsNoComment(section.name, items + rest);
      CommentIsRead(section.comment, "", text, before, multiLine);
      HeaderRoundTrip(section.name, items + rest, before, section.comment, multiLine);
      EntriesStep(CommentText(section.comment, "") + text, before, multiLine,
                  Entry(section.name, section.comment, None), "\n" + (items + rest));
      SpaceBefore("\n", items + rest, section.name, multiLine);
    }
  }

  lemma NoCommentText(before: string)
    ensures CommentText(None, before) == ""
  {
  }

  /** The printed form of clean sections reads back as their entries. */
  lemma {:induction false} DocRoundTrip(doc: seq<Section>, before: string, multiLine: bool)
    requires CleanDoc(doc, multiLine)
    requires doc != [] && doc[0].name == "" ==> before == ""
    ensures Entries(DocText(doc, multiLine), before, multiLine) == DocEntries(doc)
  {
    hide Next, Entries, SectionText, SectionEntries, CleanSection;
    if doc == [] {
      NoEntries(before, multiLine);
    } else {
      var after := if |doc| == 1 then "" else "\n\n" + DocText(doc[1..], multiLine);
      SectionRoundTrip(doc[0], after, before, multiLine);
      if |doc| == 1 {
        NoEntries(doc[0].name, multiLine);
      } else {
        SpaceBefore("\n\n", DocText(doc[1..], multiLine), doc[0].name, multiLine);
        assert forall i :: 0 <= i < |doc| - 1 ==> doc[1..][i] == doc[i + 1];
        DocRoundTrip(doc[1..], doc[0].name, multiLine);
      }
    }
  }

  lemma NoEntries(section: string, multiLine: bool)
    ensures Entries("", section, multiLine) == []
  {
  }

  // ----- Whatever is parsed is clean -----

  /** Only white characters lie between `p` and the newline before it. */
  ghost predicate LineStart(s: string, p: nat)
    requires p < |s|
  {
    exists q :: 0 <= q < p && IsNewLine(s[q]) && forall r :: q < r < p ==> IsSpace(s[r])
  }

  /** No line but the first starts with a bracket. */
  ghost predicate HeaderFree(s: string) {
    forall p :: 0 <= p < |s| && s[p] == '[' ==> !LineStart(s, p)
  }

  /** The text under a header that is not closed on its line, without another header. */
  ghost predicate Grown(name: string) {
    && name != "" && !IsSpace(name[0]) && HeaderFree(name)
    && MarkEnd(name, ']') < |name| && IsNewLine(name[MarkEnd(name, ']')])
  }

  /** A section name is clean, unless its header was not closed on its line. */
  ghost predicate NameOk(name: string) {
    CleanName(name) || Grown(name)
  }

  /** Comments and keys are clean, and so are section names and values on one line. */
  ghost predicate EntryOk(e: Entry, multiLine: bool) {
    && CommentOk(e.comment)
    && match e.item
       case None => CleanName(e.section)
       case Some(item) => NameOk(e.section) && CleanKey(item.key) && (multiLine || CleanValue(item.value))
  }

  /** Whether a position starts a line depends on the text before it only. */
  lemma PartStart(s: string, w: string, p: nat)
    requires p < |s|
    ensures LineStart(s + w, p) <==> LineStart(s, p)
  {
    assert forall q :: 0 <= q < |s| ==> (s + w)[q] == s[q];
    if LineStart(s, p) {
      var q :| 0 <= q < p && IsNewLine(s[q]) && forall r :: q < r < p ==> IsSpace(s[r]);
      assert IsNewLine((s + w)[q]);
    }
  }

  /** Behind the first character of a line that is not white, no line starts. */
  lemma InsideLine(s: string, line: string, p: nat)
    requires SingleLine(line) && line != "" && !IsSpace(line[0])
    requires |s| < p < |s + line|
    ensures !LineStart(s + line, p)
  {
    assert (s + line)[|s|] == line[0];
    assert forall q :: |s| <= q < p ==> (s + line)[q] == line[q - |s|];
  }

  lemma FreePart(s: string, n: nat)
    requires HeaderFree(s) && n <= |s|
    ensures HeaderFree(s[..n])
  {
    hide LineStart;
    assert s[..n] + s[n..] == s;
    forall p | 0 <= p < n && s[..n][p] == '['
      ensures !LineStart(s[..n], p)
    {
      PartStart(s[..n], s[n..], p);
    }
  }

  lemma FreeLine(line: string)
    requires SingleLine(line)
    ensures HeaderFree(line)
  {
  }

  lemma FreeSpaces(s: string, w: string)
    requires HeaderFree(s) && forall k :: 0 <= k < |w| ==> IsSpace(w[k])
    ensures HeaderFree(s + w)
  {
    hide LineStart;
    assert forall p :: |s| <= p < |s + w| ==> (s + w)[p] == w[p - |s|];
    forall p | 0 <= p < |s| && s[p] == '['
      ensures !LineStart(s + w, p)
    {
      PartStart(s, w, p);
    }
  }

  /** Another line that does not start with a bracket. */
  lemma FreeMore(s: string, line: string)
    requires HeaderFree(s) && SingleLine(line)
    requires line != "" ==> !IsSpace(line[0]) && line[0] != '['
    ensures HeaderFree(s + line)
  {
    hide LineStart, SingleLine;
    forall p | 0 <= p < |s + line| && (s + line)[p] == '['
      ensures !LineStart(s + line, p)
    {
      if p < |s| {
        PartStart(s, line, p);
      } else {
        assert (s + line)[|s|] == line[0];
        InsideLine(s, line, p);
      }
    }
  }

  /** Comments add lines without brackets in front. */
  lemma {:induction false} FreeComments(x: string, s: string, output: string)
    requires HeaderFree(x + output)
    requires output != "" || (s != "" && IsComment(s[0]))
    ensures HeaderFree(x + Comments(s, true, output).text)
    decreases |s|
  {
    hide HeaderFree, LineEnd, AfterLine, NewLineCount, SpaceCount;
    if s == "" || !IsComment(s[0]) {
      var k := SpaceCount(s);
      if k < |s| && IsComment(s[k]) {
        var lines := Lines(NewLineCount(s[..k]));
        FreeSpaces(x + output, lines);
        assert x + (output + lines) == x + output + lines;
        FreeComments(x, s[k..], output + lines);
      } else {
        FreePart(x + output, |x + output| - 1);
        assert (x + output)[..|x + output| - 1] == x + output[..|output| - 1];
      }
    } else {
      var n := LineEnd(s);
      CommentLine(s);
      FreeMore(x + output, s[..n]);
      assert x + (output + s[..n]) == x + output + s[..n];
      if n == |s| {
        assert s[..n] == s;
      } else {
        FreeSpaces(x + output + s[..n], "\n");
        assert x + (output + s[..n] + "\n") == x + output + s[..n] + "\n";
        FreeComments(x, AfterLine(s, n), output + s[..n] + "\n");
      }
    }
  }

  lemma CommentLine(s: string)
    requires s != "" && IsComment(s[0])
    ensures var line := s[..LineEnd(s)]; line != "" && SingleLine(line) && !IsSpace(line[0]) && line[0] != '['
  {
  }

  /** The part of `u` in front of position `a`: a header that is not closed on its line, and lines that are no headers. */
  ghost predicate Passed(u: string, a: nat) {
    && a <= |u| && u != "" && !IsSpace(u[0]) && HeaderFree(u[..a])
    && MarkEnd(u, ']') <= a && MarkEnd(u, ']') < |u| && IsNewLine(u[MarkEnd(u, ']')])
  }

  /** The data `s` is the next line under an open header. */
  ghost predicate OpenOk(open: Option<string>, s: string) {
    open.Some? && s != "" ==>
      && |s| <= |open.value| && open.value[|open.value| - |s|..] == s
      && IsNewLine(s[0]) && Passed(open.value, |open.value| - |s|)
  }

  /** The header and what follows it, up to a position on the next line, may become a name. */
  lemma PassedName(u: string, c: nat)
    requires Passed(u, c) && MarkEnd(u, ']') < c
    ensures Grown(u[..c])
  {
    hide HeaderFree;
    MarkEndIs(u[..c], ']', MarkEnd(u, ']'));
  }

  lemma StartOf(s: string)
    ensures var k := SpaceCount(s); Start(s) == s[k..] && (s != "" && IsNewLine(s[0]) && k < |s| ==> k > 0)
    ensures Start(s) != "" ==> !IsSpace(Start(s)[0]) && !IsNewLine(Start(s)[0])
  {
  }

  /** Under an open header, up to the next character that is not white. */
  lemma {:induction false} PassedSpace(u: string, s: string)
    requires OpenOk(Some(u), s) && Start(s) != ""
    ensures var b := |u| - |Start(s)|;
            b >= 0 && u[b..] == Start(s) && Passed(u, b) && MarkEnd(u, ']') < b
  {
    hide *;
    var a, k := |u| - |s|, SpaceCount(s);
    StartOf(s);
    OpenMeans(u, s);
    PassedSpaces(u, a, k);
    assert u[a..][k..] == u[a + k..];
  }

  lemma OpenMeans(u: string, s: string)
    requires OpenOk(Some(u), s) && s != ""
    ensures |s| <= |u| && u[|u| - |s|..] == s && IsNewLine(s[0]) && Passed(u, |u| - |s|)
  {
    hide Passed, IsNewLine;
  }

  lemma PassedSpaces(u: string, a: nat, k: nat)
    requires Passed(u, a) && a + k <= |u| && forall i :: 0 <= i < k ==> IsSpace(u[a..][i])
    ensures Passed(u, a + k) && MarkEnd(u, ']') <= a
  {
    hide HeaderFree, MarkEnd, IsSpace, IsNewLine;
    FreeSpaces(u[..a], u[a..][..k]);
    assert u[..a + k] == u[..a] + u[a..][..k];
  }

  /** Under an open header, over a part of a line. */
  lemma PassedLine(u: string, b: nat, n: nat)
    requires Passed(u, b) && b + n <= |u| && SingleLine(u[b..][..n])
    requires n > 0 ==> !IsSpace(u[b]) && u[b] != '['
    ensures Passed(u, b + n)
  {
    hide HeaderFree, MarkEnd;
    FreeMore(u[..b], u[b..][..n]);
    assert u[..b + n] == u[..b] + u[b..][..n];
  }

  /** A line without a key leaves the header open. */
  lemma StillOpen(open: Option<string>, s: string, n: nat)
    requires OpenOk(open, s) && Start(s) != "" && Start(s)[0] != '[' && n <= |Start(s)|
    requires SingleLine(Start(s)[..n]) && (n < |Start(s)| ==> IsNewLine(Start(s)[n]))
    ensures OpenOk(open, Start(s)[n..])
  {
    StartOf(s);
    hide HeaderFree, Start, MarkEnd, Passed;
    if open.Some? && s != "" {
      var u := open.value;
      var b := |u| - |Start(s)|;
      PassedSpace(u, s);
      PassedLine(u, b, n);
      assert u[b + n..] == Start(s)[n..];
    }
  }

  /** A key under an open header ends the name of its section. */
  lemma NameAfterKey(section: string, open: Option<string>, s: string, n: nat)
    requires NameOk(section) && OpenOk(open, s) && StartsKey(Start(s)) && n <= |Start(s)| && SingleLine(Start(s)[..n])
    ensures NameOk(SectionName(section, open, Start(s), Trimmed(Start(s)[..n])))
  {
    StartOf(s);
    hide Start, MarkEnd, Passed, CleanName, Trimmed, Grown, IsSpace, IsNewLine, OpenOk;
    if open.Some? {
      var u, t := open.value, Start(s);
      var b := |u| - |t|;
      PassedSpace(u, s);
      PassedKey(u, b, Trimmed(t[..n]), n);
    }
  }

  lemma PassedKey(u: string, b: nat, key: string, n: nat)
    requires b < |u| && Passed(u, b) && MarkEnd(u, ']') < b && StartsKey(u[b..]) && !IsSpace(u[b])
    requires n <= |u[b..]| && key <= u[b..][..n] && SingleLine(u[b..][..n])
    ensures Grown(u[..b] + key)
  {
    hide MarkEnd, Passed, Grown, IsSpace, IsNewLine;
    var t := u[b..];
    assert t[..|key|] == key && t[0] == u[b];
    assert forall k :: 0 <= k < |key| ==> key[k] == t[..n][k];
    PassedLine(u, b, |key|);
    PassedName(u, b + |key|);
    assert u[..b] + key == u[..b + |key|];
  }

  /** So does a comment under it. */
  lemma NameAfterComment(section: string, open: Option<string>, s: string)
    requires NameOk(section) && OpenOk(open, s) && Start(s) != "" && IsComment(Start(s)[0])
    ensures NameOk(SectionName(section, open, Start(s), Comments(Start(s), true, "").text))
  {
    StartOf(s);
    hide HeaderFree, Start, CleanName, Comments, IsComment;
    if open.Some? {
      var u, t, text := open.value, Start(s), Comments(Start(s), true, "").text;
      var b := |u| - |t|;
      PassedSpace(u, s);
      assert u[..b] + "" == u[..b];
      FreeComments(u[..b], t, "");
      MarkEndIs(u[..b] + text, ']', MarkEnd(u, ']'));
    }
  }

  lemma HeaderOk(u: string, n: nat, comment: Option<string>, multiLine: bool)
    requires CommentOk(comment)
    requires n < |u| && n == MarkEnd(u, ']') && !IsSpace(u[0])
    ensures EntryOk(Entry(Trimmed(u[..n]), comment, None), multiLine)
  {
    TrimmedIsTight(u, n);
    hide Trimmed, MarkEnd, CommentOk;
    var name := Trimmed(u[..n]);
    assert forall k :: 0 <= k < |name| ==> name[k] == u[..n][k] == u[k];
  }

  lemma KeyOk(t: string, n: nat)
    requires 0 < n <= |t| && n == MarkEnd(t, '=') && !IsSpace(t[0]) && StartsKey(t)
    ensures CleanKey(Trimmed(t[..n]))
  {
    TrimmedIsTight(t, n);
    hide Trimmed, MarkEnd;
    var key := Trimmed(t[..n]);
    assert forall k :: 0 <= k < |key| ==> key[k] == t[..n][k] == t[k];
  }

  lemma ValueOk(line: string)
    requires line != "" ==> !IsSpace(line[0]) || IsNewLine(line[0])
    ensures CleanValue(Trimmed(line[..LineEnd(line)]))
  {
    var n := LineEnd(line);
    TrimmedIsTight(line, n);
    hide Trimmed, LineEnd;
    var value := Trimmed(line[..n]);
    assert forall k :: 0 <= k < |value| ==> value[k] == line[..n][k] == line[k];
  }

  lemma KeyEntryOk(t: string, n: nat, section: string, comment: Option<string>, multiLine: bool)
    requires CommentOk(comment)
    requires 0 < n < |t| && n == MarkEnd(t, '=') && !IsSpace(t[0]) && StartsKey(t) && NameOk(section)
    ensures var p := KeyEntry(t, n, section, comment, multiLine); p.Parsed? ==> EntryOk(p.entry, multiLine)
  {
    KeyOk(t, n);
    ValueOk(t[n + 1..][BlankCount(t[n + 1..])..]);
    hide Trimmed, LineEnd, BlankCount, MarkEnd, CleanKey, CleanValue, NameOk, Tagged, AfterLine, CommentOk;
  }

  /** Every entry that is found has a clean comment, key and value, and a clean section name or one grown under an open header. */
  lemma {:induction false} NextOk(s: string, section: string, comment: Option<string>, open: Option<string>, multiLine: bool)
    requires NameOk(section) && CommentOk(comment) && OpenOk(open, s)
    ensures var p := Next(s, section, comment, open, multiLine); p.Parsed? ==> EntryOk(p.entry, multiLine)
    decreases |s|
  {
    hide *;
    var t := Start(s);
    StartOf(s);
    if t == "" {
      NextEnd(s, section, comment, open, multiLine);
    } else if IsComment(t[0]) {
      var l := Comments(t, true, "");
      NextComment(s, section, comment, open, multiLine);
      NameAfterComment(section, open, s);
      CommentsAreClean(t, true);
      LoadedCommentOk(l.text);
      NotOpen(l.rest);
      NextOk(l.rest, SectionName(section, open, t, l.text), Some(l.text), None, multiLine);
    } else if t[0] == '[' {
      var u := Start(t[1..]);
      var n := MarkEnd(u, ']');
      NextHeader(s, section, comment, open, multiLine);
      StartOf(t[1..]);
      if n < |u| && u[n] == ']' {
        HeaderOk(u, n, comment, multiLine);
      } else {
        NowOpen(u, n);
        NextOk(u[n..], section, comment, Some(u), multiLine);
      }
    } else {
      var n := MarkEnd(t, '=');
      KeyStarts(t);
      LineParts(t);
      if n == |t| || t[n] != '=' {
        NextNoKey(s, section, comment, open, multiLine);
        StillOpen(open, s, n);
        NextOk(t[n..], section, comment, open, multiLine);
      } else if n == 0 {
        NextNoKey(s, section, comment, open, multiLine);
        StillOpen(open, s, LineEnd(t));
        NextOk(t[LineEnd(t)..], section, comment, open, multiLine);
      } else {
        var name := SectionName(section, open, t, Trimmed(t[..n]));
        NextKey(s, section, comment, open, multiLine);
        NameAfterKey(section, open, s, n);
        KeyEntryOk(t, n, name, comment, multiLine);
      }
    }
  }

  /** The parts of a line that are passed over. */
  lemma LineParts(t: string)
    ensures SingleLine(t[..MarkEnd(t, '=')]) && SingleLine(t[..LineEnd(t)])
    ensures t != "" && !IsNewLine(t[0]) ==> LineEnd(t) > 0
  {
  }

  lemma LoadedCommentOk(text: string)
    requires CleanComment(text, true)
    ensures CommentOk(Some(text))
  {
    hide CleanComment;
  }

  lemma NotOpen(s: string)
    ensures OpenOk(None, s) && CommentOk(None)
  {
  }

  lemma NowOpen(u: string, n: nat)
    requires n == MarkEnd(u, ']') && (n < |u| ==> u[n] != ']' && !IsSpace(u[0]))
    ensures OpenOk(Some(u), u[n..])
  {
    FreeLine(u[..n]);
    hide MarkEnd, HeaderFree;
  }

  lemma KeyStarts(t: string)
    requires t != "" && !IsComment(t[0]) && t[0] != '['
    ensures StartsKey(t)
  {
  }

  /** All comments and keys of any data are clean, and so are its section names but for those of open headers, and its values on one line. */
  lemma {:induction false} EntriesOk(s: string, section: string, multiLine: bool)
    requires NameOk(section)
    ensures forall i :: 0 <= i < |Entries(s, section, multiLine)| ==> EntryOk(Entries(s, section, multiLine)[i], multiLine)
    decreases |s|
  {
    NotOpen(s);
    NextOk(s, section, None, None, multiLine);
    EntryName();
    hide Next, NameOk, CleanName, CleanKey, CleanValue, CommentOk;
    var p := Next(s, section, None, None, multiLine);
    if p.Parsed? { EntriesOk(p.rest, p.entry.section, multiLine); }
  }

  lemma EntryName()
    ensures forall name :: CleanName(name) ==> NameOk(name)
  {
  }

  // ----- Exactly what is read back -----

  /** A printed section name with its comment is read back exactly when both are clean. */
  lemma HeaderReadIff(name: string, comment: Option<string>, rest: string, section: string, multiLine: bool)
    requires NameOk(section)
    ensures Next(CommentText(comment, "") + ("[" + name + "]\n" + rest), section, None, None, multiLine) ==
            Parsed(Entry(name, comment, None), "\n" + rest)
            <==> CleanName(name) && CommentOk(comment)
  {
    hide *;
    var s := "[" + name + "]\n" + rest;
    NotOpen(CommentText(comment, "") + s);
    NextOk(CommentText(comment, "") + s, section, None, None, multiLine);
    OkHeader(name, comment, multiLine);
    HeaderIsNoComment(name, rest);
    if CleanName(name) && CommentOk(comment) {
      CommentIsRead(comment, "", s, section, multiLine);
      HeaderRoundTrip(name, rest, section, comment, multiLine);
    }
  }

  lemma OkHeader(name: string, comment: Option<string>, multiLine: bool)
    ensures EntryOk(Entry(name, comment, None), multiLine) <==> CleanName(name) && CommentOk(comment)
  {
    hide CleanName, CommentOk;
  }

  lemma OkItem(section: string, comment: Option<string>, item: Item, multiLine: bool)
    requires EntryOk(Entry(section, comment, Some(item)), multiLine)
    ensures CommentOk(comment) && CleanKey(item.key) && (!multiLine ==> CleanItem(item, multiLine))
  {
    hide CleanKey, NameOk, NeedsLines, CommentOk;
  }

  /** A printed item with its comment is read back exactly when comment and key are clean and its value can be written in that mode. */
  lemma ItemReadIff(item: Item, comment: Option<string>, rest: string, section: string, multiLine: bool)
    requires NameOk(section)
    ensures Next(CommentText(comment, "\n") + (ItemText(item, multiLine) + rest), section, None, None, multiLine) ==
            Parsed(Entry(section, comment, Some(item)), rest)
            <==> CleanItem(item, multiLine) && CommentOk(comment)
  {
    hide *;
    var s := ItemText(item, multiLine) + rest;
    var text := CommentText(comment, "\n") + s;
    NotOpen(text);
    NextOk(text, section, None, None, multiLine);
    if CleanItem(item, multiLine) && CommentOk(comment) {
      CleanItemKey(item, multiLine);
      KeyIsNoComment(item, rest, multiLine);
      CommentIsRead(comment, "\n", s, section, multiLine);
      ItemRoundTrip(item, rest, section, comment, multiLine);
    } else if Next(text, section, None, None, multiLine) == Parsed(Entry(section, comment, Some(item)), rest) {
      OkItem(section, comment, item, multiLine);
      KeyIsNoComment(item, rest, multiLine);
      CommentIsRead(comment, "\n", s, section, multiLine);
      UnwritableLost(item, comment, rest, section);
    }
  }

  lemma UnwritableLost(item: Item, comment: Option<string>, rest: string, section: string)
    requires CleanKey(item.key) && !CleanItem(item, true)
    ensures Next(ItemText(item, true) + rest, section, comment, None, true) != Parsed(Entry(section, comment, Some(item)), rest)
  {
    WritableMeans(item.value);
    NotWritable(item);
    hide *;
    if NeedsLines(item.value) {
      LinesNext(item, rest, section, comment);
      PrintedLoadsIff(item.value, rest);
    } else {
      TagNext(item, comment, rest, section);
      TaggedTakes(rest, item.value[3..]);
    }
  }

  lemma NotWritable(item: Item)
    requires CleanKey(item.key) && !CleanItem(item, true)
    ensures !Writable(item.value, true)
  {
    hide CleanKey, Writable;
  }

  lemma WritableMeans(value: string)
    ensures NeedsLines(value) ==> value != "" && (Writable(value, true) <==> '\r' !in value && TagFree(value, END_TAG))
    ensures !NeedsLines(value) ==> CleanValue(value) && (Writable(value, true) <==> !("<<<" <= value))
  {
  }

  /** A printed value that looks like a tag is read as lines up to that tag. */
  lemma TagNext(item: Item, comment: Option<string>, rest: string, section: string)
    requires CleanKey(item.key) && CleanValue(item.value) && !NeedsLines(item.value) && "<<<" <= item.value
    ensures var l := Tagged(rest, item.value[3..], "", false);
            Next(ItemText(item, true) + rest, section, comment, None, true) ==
            if l.found then Parsed(Entry(section, comment, Some(Item(item.key, l.text))), l.rest) else End
  {
    hide Next, KeyEntry, CleanKey, NeedsLines, LineEnd, AfterLine, Trimmed, NewLineLength, Tagged;
    var line := item.value + "\n" + rest;
    assert ItemText(item, true) + rest == item.key + " = " + line;
    NextOfKey(item.key, line, section, comment, true);
    KeyEntryIs(item.key, line, section, comment, true);
    OneLine(item.value, rest);
    TightTrimmed(item.value);
  }

  /** Tagged lines take something of the data, or are empty. */
  lemma TaggedTakes(s: string, tag: string)
    ensures var l := Tagged(s, tag, "", false); l.found && l.rest == s ==> l.text == ""
  {
    hide EndsText, TagTrimmed, LineEnd;
  }
}
