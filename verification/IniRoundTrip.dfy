/** Saving a store as text and loading it again: what survives, and exactly which stores do. */
module IniRoundTrip {
  import opened Options
  import opened Text
  import opened IniOrder
  import opened IniLines
  import opened IniBuffer
  import opened IniParser
  import opened IniNames
  import opened IniTable
  import opened IniStore
  import opened IniFile

  // ----- A store as the text of its sections -----

  lemma {:induction false} ItemsWritten(list: seq<Record<string>>, multiLine: bool)
    ensures SavedItems(list, multiLine) == ItemsText(ItemsOf(list), multiLine)
  {
    hide ItemText, ItemsOf, CommentText;
    if list == [] {
      assert ItemsOf(list) == [];
    } else {
      ItemsWritten(list[1..], multiLine);
      assert ItemsOf(list)[1..] == ItemsOf(list[1..]);
    }
  }

  /** What is written is the text of the sections. */
  lemma {:induction false} SectionsWritten(list: seq<Record<Table<string>>>, needNewLine: bool, multiLine: bool)
    requires ValidContents(list)
    ensures SavedSections(list, needNewLine, multiLine) ==
            (if needNewLine && list != [] then "\n\n" else "") + DocText(SectionsOf(list), multiLine)
    decreases |list|
  {
    if list == [] {
      assert SectionsOf(list) == [];
    } else {
      assert ValidContents(list[1..]);
      SectionsWritten(list[1..], true, multiLine);
      SectionWritten(list[0], multiLine);
      hide *;
      SectionsTail(list);
      SavedStep(list, needNewLine, multiLine);
      DocStep(SectionsOf(list), multiLine);
      var text := SectionText(SectionOf(list[0]), multiLine);
      var before := if needNewLine then "\n\n" else "";
      Glue(before, text, SavedSections(list[1..], true, multiLine));
      if |list| == 1 {
        NoDoc(SectionsOf(list[1..]), multiLine);
        assert "" + "" == "";
      }
    }
  }

  lemma Glue(a: string, b: string, c: string)
    ensures a + b + c == a + (b + c)
  {
  }

  lemma NoDoc(doc: seq<Section>, multiLine: bool)
    requires doc == []
    ensures DocText(doc, multiLine) == ""
  {
  }

  lemma SavedStep(list: seq<Record<Table<string>>>, needNewLine: bool, multiLine: bool)
    requires ValidContents(list) && list != []
    requires ValidTable(list[0].content) && ValidContents(list[1..])
    ensures SavedSections(list, needNewLine, multiLine) ==
            (if needNewLine then "\n\n" else "")
            + (CommentText(list[0].comment, "") + Header(list[0].name) + SavedItems(Sorted(list[0].content), multiLine))
            + SavedSections(list[1..], true, multiLine)
  {
    hide *;
    SavedUnfold(list, needNewLine, multiLine);
    Bracketed(if needNewLine then "\n\n" else "", CommentText(list[0].comment, ""), Header(list[0].name),
              SavedItems(Sorted(list[0].content), multiLine));
  }

  lemma {:induction false} SavedUnfold(list: seq<Record<Table<string>>>, needNewLine: bool, multiLine: bool)
    requires ValidContents(list) && list != []
    requires ValidTable(list[0].content) && ValidContents(list[1..])
    ensures SavedSections(list, needNewLine, multiLine) ==
            (if needNewLine then "\n\n" else "") + CommentText(list[0].comment, "") + Header(list[0].name)
            + SavedItems(Sorted(list[0].content), multiLine) + SavedSections(list[1..], true, multiLine)
  {
    hide SavedItems, Sorted, ValidTable, Header, CommentText, ValidContents;
  }

  lemma Bracketed(a: string, b: string, c: string, d: string)
    ensures a + b + c + d == a + (b + c + d)
  {
  }

  lemma DocStep(doc: seq<Section>, multiLine: bool)
    requires doc != []
    ensures DocText(doc, multiLine) ==
            SectionText(doc[0], multiLine) + (if |doc| == 1 then "" else "\n\n" + DocText(doc[1..], multiLine))
  {
    hide SectionText;
  }

  lemma SectionsTail(list: seq<Record<Table<string>>>)
    requires ValidContents(list) && list != []
    ensures ValidContents(list[1..]) && ValidTable(list[0].content)
    ensures SectionsOf(list)[1..] == SectionsOf(list[1..]) && SectionsOf(list)[0] == SectionOf(list[0])
    ensures |SectionsOf(list)| == |list|
  {
    hide ValidTable, SectionOf;
  }

  lemma SectionWritten(r: Record<Table<string>>, multiLine: bool)
    requires ValidTable(r.content)
    ensures SectionText(SectionOf(r), multiLine) ==
            CommentText(r.comment, "") + Header(r.name) + SavedItems(Sorted(r.content), multiLine)
  {
    hide Sorted, SavedItems, ItemsText, ItemsOf, ValidTable, CommentText, Header;
    ItemsWritten(Sorted(r.content), multiLine);
  }

  lemma {:induction false} UnnamedFirstDoc(list: seq<Record<Table<string>>>)
    requires ValidContents(list)
    ensures ValidContents(UnnamedFirst(list))
    ensures SectionsOf(UnnamedFirst(list)) == DocUnnamedFirst(SectionsOf(list))
  {
    hide NoNameIndex, SectionIndex, ValidContents, SectionsOf;
    FirstContents(list);
    SameIndex(list);
    if NoNameIndex(list) < |list| { MovedFirst(list, NoNameIndex(list)); }
  }

  /** The section without a name has the same place in both lists. */
  lemma {:induction false} SameIndex(list: seq<Record<Table<string>>>)
    requires ValidContents(list)
    ensures SectionIndex(SectionsOf(list), "") == NoNameIndex(list)
  {
    hide SectionIndex, NoNameIndex, ValidContents, Folded, SectionsOf;
    NamelessSections(list);
    SectionIndexIs(SectionsOf(list), "", NoNameIndex(list));
  }

  lemma NamelessSections(list: seq<Record<Table<string>>>)
    requires ValidContents(list)
    ensures forall k :: 0 <= k < |list| ==> (Folded(SectionsOf(list)[k].name) == Folded("") <==> list[k].name == "")
  {
    SectionNames(list);
    hide SectionsOf, ValidContents, Folded;
    FoldedEmpty("");
    forall k | 0 <= k < |list|
      ensures Folded(SectionsOf(list)[k].name) == Folded("") <==> list[k].name == ""
    {
      FoldedEmpty(list[k].name);
    }
  }

  lemma MovedFirst(list: seq<Record<Table<string>>>, i: nat)
    requires ValidContents(list) && i < |list|
    ensures var r := [list[i]] + list[..i] + list[i + 1..];
            var doc := SectionsOf(list);
            ValidContents(r) && SectionsOf(r) == [doc[i]] + doc[..i] + doc[i + 1..]
  {
    hide SectionOf, ValidTable;
    var r := [list[i]] + list[..i] + list[i + 1..];
    assert forall k :: 0 <= k < |r| ==> r[k] == list[if k == 0 then i else if k <= i then k - 1 else k];
  }

  lemma SectionNames(list: seq<Record<Table<string>>>)
    requires ValidContents(list)
    ensures forall k :: 0 <= k < |list| ==> SectionsOf(list)[k].name == list[k].name
  {
  }

  /** The text of sections behind a comment for the file. */
  function Written(doc: seq<Section>, fileComment: Option<string>, multiLine: bool): string {
    CommentText(fileComment, "") + (if fileComment.Some? && doc != [] then "\n\n" else "") + DocText(doc, multiLine)
  }

  /** A store is written as the text of its sections behind its file comment. */
  lemma SavedIsDocText(st: Store)
    requires ValidStore(st)
    ensures SavedText(st) == Written(Doc(st), st.fileComment, st.multiLine)
  {
    SortedContents(st);
    UnnamedFirstDoc(Sorted(st.data));
    var list := UnnamedFirst(Sorted(st.data));
    SavedParts(st);
    hide Sorted, SectionsOf, DocText, ValidContents, ValidStore, SavedSections, UnnamedFirst, CommentText, SavedText;
    SectionsWritten(list, st.fileComment.Some?, st.multiLine);
    var before := if st.fileComment.Some? && list != [] then "\n\n" else "";
    Glue(CommentText(st.fileComment, ""), before, DocText(Doc(st), st.multiLine));
  }

  lemma SavedParts(st: Store)
    requires ValidStore(st)
    ensures ValidContents(UnnamedFirst(Sorted(st.data)))
    ensures SavedText(st) ==
            CommentText(st.fileComment, "") + SavedSections(UnnamedFirst(Sorted(st.data)), st.fileComment.Some?, st.multiLine)
  {
    SortedContents(st);
    FirstContents(Sorted(st.data));
    hide Sorted, CommentText, SavedSections, UnnamedFirst, ValidContents, ValidStore;
  }

  // ----- Loading what was saved -----

  predicate NulFreeComment(comment: Option<string>) {
    comment.Some? ==> NUL !in comment.value
  }

  predicate NulFree(doc: seq<Section>) {
    forall i :: 0 <= i < |doc| ==> NUL !in doc[i].name && NulFreeComment(doc[i].comment) && NulFreeItems(doc[i].items)
  }

  predicate NulFreeItems(items: seq<Line>) {
    forall i :: 0 <= i < |items| ==> NUL !in items[i].key && NUL !in items[i].value && NulFreeComment(items[i].comment)
  }

  /** A section without a name has items; without any, nothing of it is written. */
  predicate UnnamedHasItems(doc: seq<Section>) {
    forall i :: 0 <= i < |doc| && doc[i].name == "" ==> doc[i].items != []
  }

  /** The comment for the file has no blank lines, and without one the first section has no comment that would be taken for it. */
  predicate FileCommentOk(fileComment: Option<string>, doc: seq<Section>) {
    match fileComment
    case None => doc != [] ==> doc[0].comment == None
    case Some(c) => CleanComment(c, false)
  }

  lemma NulFreeLines(comment: Option<string>, before: string)
    requires NulFreeComment(comment) && NUL !in before
    ensures NUL !in CommentText(comment, before)
  {
  }

  lemma NulFreeLine(line: Line, multiLine: bool)
    requires NUL !in line.key && NUL !in line.value && NulFreeComment(line.comment)
    ensures NUL !in LineText(line, multiLine)
  {
    hide CommentText, ItemText;
    NulFreeLines(line.comment, "\n");
    NulFreeItem(Bare(line), multiLine);
  }

  lemma NulFreeItem(item: Item, multiLine: bool)
    requires NUL !in item.key && NUL !in item.value
    ensures NUL !in ItemText(item, multiLine)
  {
    assert NUL !in ValueText(item.value, multiLine) by { NulFreeValue(item.value, multiLine); }
    hide ValueText;
  }

  lemma NulFreeValue(value: string, multiLine: bool)
    requires NUL !in value
    ensures NUL !in ValueText(value, multiLine)
  {
    hide NeedsLines;
  }

  lemma {:induction false} NulFreeItemsText(items: seq<Line>, multiLine: bool)
    requires NulFreeItems(items)
    ensures NUL !in ItemsText(items, multiLine)
  {
    hide LineText;
    if items != [] {
      NulFreeLine(items[0], multiLine);
      NulFreeItemsText(items[1..], multiLine);
    }
  }

  lemma NulFreeSection(section: Section, multiLine: bool)
    requires NUL !in section.name && NulFreeComment(section.comment) && NulFreeItems(section.items)
    ensures NUL !in SectionText(section, multiLine)
  {
    hide ItemsText, CommentText, NulFreeItems;
    NulFreeItemsText(section.items, multiLine);
    NulFreeLines(section.comment, "");
  }

  lemma {:induction false} NulFreeText(doc: seq<Section>, multiLine: bool)
    requires NulFree(doc)
    ensures NUL !in DocText(doc, multiLine)
  {
    hide SectionText, NulFreeItems, NulFreeComment;
    if doc != [] {
      NulFreeSection(doc[0], multiLine);
      assert forall i :: 0 <= i < |doc| - 1 ==> doc[1..][i] == doc[i + 1];
      NulFreeText(doc[1..], multiLine);
    }
  }

  lemma NulFreeWritten(doc: seq<Section>, fileComment: Option<string>, multiLine: bool)
    requires NulFree(doc) && NulFreeComment(fileComment)
    ensures NUL !in Written(doc, fileComment, multiLine)
  {
    hide DocText, CommentText, NulFree, NulFreeComment;
    NulFreeText(doc, multiLine);
    NulFreeLines(fileComment, "");
  }

  lemma StopsAtOnce(s: string)
    requires s == "" || !IsComment(s[0])
    ensures Comments(s, false, "") == Loaded(false, "", s)
  {
  }

  /** What loading a text into an empty store comes to. */
  function LoadedEntries(text: string, multiLine: bool): seq<Entry> {
    Entries(Comments(text[..IndexOf(text, NUL)], false, "").rest, "", multiLine)
  }

  /** The comment for the file that a text starts with. */
  function LoadedComment(text: string): Option<string> {
    var l := Comments(text[..IndexOf(text, NUL)], false, "");
    if l.found then Some(l.text) else None
  }

  /** A text loads as the sections of its entries, and its file comment. */
  lemma LoadedDoc(text: string, multiLine: bool)
    ensures ValidStore(LoadText(Empty(multiLine), text))
    ensures PlainDoc(LoadText(Empty(multiLine), text)) == DocAddAll([], LoadedEntries(text, multiLine))
    ensures LoadText(Empty(multiLine), text).fileComment == LoadedComment(text)
    ensures LoadText(Empty(multiLine), text).multiLine == multiLine
  {
    EmptyIsValid(multiLine);
    hide ValidStore, PlainDoc, AddedAll, DocAddAll, Entries, Comments, IndexOf;
    var empty := Empty(multiLine);
    var s := text[..IndexOf(text, NUL)];
    var l := Comments(s, false, "");
    var st := if l.found then empty.(fileComment := Some(l.text)) else empty;
    CommentIsNoSection(empty, st);
    AddAllRefines(st, Entries(l.rest, "", multiLine));
    FlagsKept(st, Entries(l.rest, "", multiLine));
    if text == "" {
      NothingLoaded(multiLine);
      assert s == "";
    }
  }

  lemma EmptyIsValid(multiLine: bool)
    ensures ValidStore(Empty(multiLine)) && PlainDoc(Empty(multiLine)) == []
    ensures Empty(multiLine).multiLine == multiLine && Empty(multiLine).fileComment == None
  {
  }

  lemma NothingLoaded(multiLine: bool)
    ensures Comments("", false, "") == Loaded(false, "", "") && Entries("", "", multiLine) == []
    ensures DocAddAll([], []) == []
  {
  }

  lemma CommentIsNoSection(st: Store, t: Store)
    requires ValidStore(st) && t.data == st.data && t.order == st.order
    ensures ValidStore(t) && PlainDoc(t) == PlainDoc(st)
  {
  }

  lemma {:induction false} FlagsKept(st: Store, entries: seq<Entry>)
    ensures AddedAll(st, entries).multiLine == st.multiLine && AddedAll(st, entries).fileComment == st.fileComment
    decreases |entries|
  {
    hide Folded;
    if entries != [] { FlagsKept(Added(st, entries[0]), entries[1..]); }
  }

  /** Behind its file comment, a written text is read as the text of its sections. */
  lemma WrittenIsRead(doc: seq<Section>, fileComment: Option<string>, multiLine: bool)
    requires NulFree(doc) && NulFreeComment(fileComment)
    requires fileComment.Some? ==> CleanComment(fileComment.value, false)
    requires var text := DocText(doc, multiLine); fileComment.None? ==> text == "" || !IsComment(text[0])
    ensures LoadedComment(Written(doc, fileComment, multiLine)) == fileComment
    ensures LoadedEntries(Written(doc, fileComment, multiLine), multiLine) == Entries(DocText(doc, multiLine), "", multiLine)
  {
    hide *;
    var text, all := DocText(doc, multiLine), Written(doc, fileComment, multiLine);
    NulFreeWritten(doc, fileComment, multiLine);
    IndexOfMissing(all, NUL);
    assert all[..|all|] == all;
    LoadedIs(all, multiLine);
    WrittenShape(doc, fileComment, multiLine);
    if fileComment.None? {
      StopsAtOnce(text);
    } else {
      var c, w := fileComment.value, if doc == [] then "" else "\n\n";
      SpacesOnly(w);
      NoCommentBehind(w, text, doc, multiLine);
      CommentLoads(c, w + text, false, "");
      assert "" + c == c;
      SpaceBefore(w, text, "", multiLine);
    }
  }

  lemma LoadedIs(text: string, multiLine: bool)
    requires IndexOf(text, NUL) == |text| && text[..|text|] == text
    ensures var l := Comments(text, false, "");
            && LoadedComment(text) == (if l.found then Some(l.text) else None)
            && LoadedEntries(text, multiLine) == Entries(l.rest, "", multiLine)
  {
    hide IndexOf, Comments, Entries;
  }

  lemma WrittenShape(doc: seq<Section>, fileComment: Option<string>, multiLine: bool)
    requires fileComment.Some? ==> CleanComment(fileComment.value, false)
    ensures fileComment.None? ==> Written(doc, fileComment, multiLine) == DocText(doc, multiLine)
    ensures fileComment.Some? ==>
              Written(doc, fileComment, multiLine) ==
              fileComment.value + "\n" + ((if doc == [] then "" else "\n\n") + DocText(doc, multiLine))
  {
    hide DocText;
  }

  lemma NoCommentBehind(w: string, text: string, doc: seq<Section>, multiLine: bool)
    requires w == (if doc == [] then "" else "\n\n") && text == DocText(doc, multiLine)
    ensures NoComment(w + text, false)
  {
    if doc == [] { NoDoc(doc, multiLine); }
    hide DocText;
  }

  lemma SpacesOnly(w: string)
    requires w == "" || w == "\n" || w == "\n\n"
    ensures forall k :: 0 <= k < |w| ==> IsSpace(w[k])
  {
  }

  /** A text does not start with a comment if its first section has none. */
  lemma {:induction false} TextStart(doc: seq<Section>, multiLine: bool)
    requires doc != [] ==> doc[0].comment == None
    requires doc != [] && doc[0].items != [] ==> CleanKey(doc[0].items[0].key)
    ensures var text := DocText(doc, multiLine); text == "" || !IsComment(text[0])
  {
    if doc == [] {
      NoDoc(doc, multiLine);
    } else {
      SectionStart(doc[0], multiLine);
      DocStep(doc, multiLine);
      hide SectionText, DocText;
    }
  }

  lemma SectionStart(section: Section, multiLine: bool)
    requires section.comment == None && (section.items != [] ==> CleanKey(section.items[0].key))
    ensures var text := SectionText(section, multiLine); text == "" || !IsComment(text[0])
  {
    hide ItemsText;
    if section.name == "" {
      ItemsStart(section.items, multiLine);
    }
  }

  lemma ItemsStart(items: seq<Line>, multiLine: bool)
    requires items != [] ==> CleanKey(items[0].key)
    ensures var text := ItemsText(items, multiLine); text == "" || !IsComment(text[0])
  {
    if items != [] {
      LineStarts(items[0], multiLine);
      hide LineText;
    }
  }

  lemma LineStarts(line: Line, multiLine: bool)
    requires CleanKey(line.key)
    ensures var text := LineText(line, multiLine); text != "" && !IsComment(text[0])
  {
    hide ValueText;
    assert ItemText(Bare(line), multiLine)[0] == line.key[0];
    hide ItemText;
  }

  // ----- The unnamed section in front -----

  lemma DistinctFirst(doc: seq<Section>)
    requires Distinct(doc)
    ensures Distinct(DocUnnamedFirst(doc))
    ensures |DocUnnamedFirst(doc)| == |doc|
  {
    hide DistinctKeys, SectionIndex, Folded;
    var i := SectionIndex(doc, "");
    if i < |doc| { DistinctMoved(doc, i); }
  }

  /** Where a section was before the one at `i` was moved to the front. */
  function Was(k: nat, i: nat): nat {
    if k == 0 then i else if k <= i then k - 1 else k
  }

  lemma Moved(doc: seq<Section>, i: nat)
    requires i < |doc|
    ensures var r := [doc[i]] + doc[..i] + doc[i + 1..];
            |r| == |doc| && forall k :: 0 <= k < |r| ==> Was(k, i) < |doc| && r[k] == doc[Was(k, i)]
  {
  }

  lemma DistinctMoved(doc: seq<Section>, i: nat)
    requires Distinct(doc) && i < |doc|
    ensures Distinct([doc[i]] + doc[..i] + doc[i + 1..])
  {
    hide DistinctKeys, Folded;
    Moved(doc, i);
    var r := [doc[i]] + doc[..i] + doc[i + 1..];
    forall a, b | 0 <= a < b < |r|
      ensures Folded(r[a].name) != Folded(r[b].name)
    {
      var x, y := Was(a, i), Was(b, i);
      assert x != y && r[a] == doc[x] && r[b] == doc[y];
      assert Folded(doc[if x < y then x else y].name) != Folded(doc[if x < y then y else x].name);
    }
    assert forall k :: 0 <= k < |r| ==> DistinctKeys(r[k].items);
  }

  /** Only the first section can be without a name then. */
  lemma UnnamedIsFirst(doc: seq<Section>)
    requires Distinct(doc)
    ensures var r := DocUnnamedFirst(doc);
            forall k :: 0 <= k < |r| && r[k].name == "" ==> k == 0
    ensures DocUnnamedFirst(DocUnnamedFirst(doc)) == DocUnnamedFirst(doc)
  {
    DistinctFirst(doc);
    hide DistinctKeys, SectionIndex;
    var r := DocUnnamedFirst(doc);
    var i, j := SectionIndex(doc, ""), SectionIndex(r, "");
    NamelessIsEmpty();
    if i == |doc| {
      assert r == doc;
    } else {
      assert r[0] == doc[i];
      SectionIndexIs(r, "", 0);
      assert [r[0]] + r[..0] + r[1..] == r;
    }
    forall k | 0 < k < |r|
      ensures r[k].name != ""
    {
      if i < |doc| {
        assert Folded(r[0].name) != Folded(r[k].name);
      } else {
        assert Folded(doc[k].name) != Folded("");
      }
    }
  }

  lemma NamelessIsEmpty()
    ensures forall s: string :: Folded(s) == Folded("") <==> s == ""
  {
    hide Folded;
    FoldedEmpty("");
    forall s: string
      ensures Folded(s) == Folded("") <==> s == ""
    {
      FoldedEmpty(s);
    }
  }

  lemma ValueInFirst(doc: seq<Section>, section: string, key: string)
    requires Distinct(doc)
    ensures DocValue(DocUnnamedFirst(doc), section, key) == DocValue(doc, section, key)
  {
    hide DistinctKeys, SectionIndex, ItemIndex, Folded;
    var r := DocUnnamedFirst(doc);
    var i, j := SectionIndex(doc, ""), SectionIndex(doc, section);
    if i < |doc| {
      Moved(doc, i);
      var place := if j == i then 0 else if j < i then j + 1 else j;
      forall k | 0 <= k < place
        ensures Folded(r[k].name) != Folded(section)
      {
        assert r[k] == doc[Was(k, i)];
        if j < |doc| { assert Was(k, i) != j; }
      }
      SectionIndexIs(r, section, place);
    }
  }

  // ----- Save and load -----

  /** The sections and the file comment of a store can be written so that they read back. */
  predicate Savable(doc: seq<Section>, fileComment: Option<string>, multiLine: bool) {
    && (forall i :: 0 <= i < |doc| ==> CleanSection(doc[i], multiLine))
    && UnnamedHasItems(doc) && FileCommentOk(fileComment, doc)
  }

  lemma SavableIsClean(st: Store)
    requires ValidStore(st) && Savable(Doc(st), st.fileComment, st.multiLine)
    ensures CleanDoc(Doc(st), st.multiLine) && Distinct(Doc(st)) && DocUnnamedFirst(Doc(st)) == Doc(st)
  {
    DocIsDistinct(st);
    DistinctFirst(PlainDoc(st));
    UnnamedIsFirst(PlainDoc(st));
    hide PlainDoc, ValidStore, CleanSection, Distinct, DocUnnamedFirst;
  }

  lemma SavableIs(doc: seq<Section>, fileComment: Option<string>, multiLine: bool)
    requires Savable(doc, fileComment, multiLine)
    ensures forall i :: 0 <= i < |doc| && doc[i].name == "" ==> doc[i].items != [] && doc[i].comment == None
    ensures fileComment.Some? ==> CleanComment(fileComment.value, false)
    ensures var text := DocText(doc, multiLine); fileComment.None? ==> text == "" || !IsComment(text[0])
  {
    hide CleanName, CommentOk, CleanItems, CleanComment, DocText;
    if fileComment.None? {
      if doc != [] && doc[0].items != [] { FirstKeyClean(doc[0].items, multiLine); }
      TextStart(doc, multiLine);
    }
  }

  lemma FirstKeyClean(items: seq<Line>, multiLine: bool)
    requires CleanItems(items, multiLine) && items != []
    ensures CleanKey(items[0].key)
  {
    assert CleanLine(items[0], multiLine);
    hide CommentOk, CleanKey, Writable;
  }

  /** The sections that loading a saved text builds, and its file comment. */
  lemma LoadedSections(st: Store)
    requires ValidStore(st) && NulFree(Doc(st)) && NulFreeComment(st.fileComment)
    requires Savable(Doc(st), st.fileComment, st.multiLine)
    ensures var t := LoadText(Empty(st.multiLine), SavedText(st));
            && ValidStore(t) && PlainDoc(t) == Doc(st) && t.fileComment == st.fileComment && t.multiLine == st.multiLine
  {
    hide *;
    var doc := Doc(st);
    SavedIsDocText(st);
    SavableIsClean(st);
    SavableIs(doc, st.fileComment, st.multiLine);
    WrittenIsRead(doc, st.fileComment, st.multiLine);
    LoadedDoc(SavedText(st), st.multiLine);
    DocRoundTrip(doc, "", st.multiLine);
    assert [] + doc == doc;
    DocBuilt([], doc);
  }

  lemma DocIs(st: Store)
    requires ValidStore(st)
    ensures Doc(st) == DocUnnamedFirst(PlainDoc(st))
  {
  }

  /**
    * Loading a saved text gives back every section, key and value and every comment in the same order, and saving again
    * the same text.
    */
  lemma SaveLoad(st: Store)
    requires ValidStore(st) && NulFree(Doc(st)) && NulFreeComment(st.fileComment)
    requires Savable(Doc(st), st.fileComment, st.multiLine)
    ensures var t := LoadText(Empty(st.multiLine), SavedText(st));
            && ValidStore(t)
            && Doc(t) == Doc(st) && t.fileComment == st.fileComment
            && SavedText(t) == SavedText(st)
            && forall section, key :: Value(t, section, key) == Value(st, section, key)
  {
    hide *;
    var t := LoadText(Empty(st.multiLine), SavedText(st));
    LoadedSections(st);
    SavableIsClean(st);
    DocIs(st);
    DocIs(t);
    SavedIsDocText(st);
    SavedIsDocText(t);
    DocIsDistinct(st);
    forall section, key
      ensures Value(t, section, key) == Value(st, section, key)
    {
      ValueInDoc(t, section, key);
      ValueInDoc(st, section, key);
      ValueInFirst(PlainDoc(st), section, key);
    }
  }

  // ----- Whatever is loaded is clean -----

  /** Comments and keys are clean, and values too on one line. */
  predicate ItemsOk(items: seq<Line>, multiLine: bool) {
    forall i :: 0 <= i < |items| ==>
      CommentOk(items[i].comment) && CleanKey(items[i].key) && (multiLine || CleanValue(items[i].value))
  }

  /** A name that is not clean comes with the key that ended it. */
  ghost predicate SectionOk(section: Section, multiLine: bool) {
    && NameOk(section.name) && CommentOk(section.comment) && ItemsOk(section.items, multiLine)
    && (CleanName(section.name) || section.items != [])
  }

  ghost predicate DocOk(doc: seq<Section>, multiLine: bool) {
    forall i :: 0 <= i < |doc| ==> SectionOk(doc[i], multiLine)
  }

  lemma ItemsAddOk(items: seq<Line>, item: Item, comment: Option<string>, multiLine: bool)
    requires ItemsOk(items, multiLine) && CommentOk(comment) && CleanKey(item.key) && (multiLine || CleanValue(item.value))
    ensures ItemsOk(ItemsAdd(items, item, comment), multiLine) && ItemsAdd(items, item, comment) != []
  {
    hide CleanKey, CleanValue, CommentOk, ItemIndex;
  }

  lemma DocAddOk(doc: seq<Section>, e: Entry, multiLine: bool)
    requires DocOk(doc, multiLine) && EntryOk(e, multiLine)
    ensures DocOk(DocAdd(doc, e), multiLine)
  {
    NoItemsOk(multiLine);
    hide CleanKey, CleanValue, CleanName, CommentOk, Grown, SectionIndex, ItemsAdd, ItemsOk;
    var i := SectionIndex(doc, e.section);
    var items := if i < |doc| then doc[i].items else [];
    if e.item.Some? { ItemsAddOk(items, e.item.value, e.comment, multiLine); }
  }

  lemma NoItemsOk(multiLine: bool)
    ensures ItemsOk([], multiLine) && CommentOk(None)
  {
  }

  lemma {:induction false} DocAddAllOk(doc: seq<Section>, entries: seq<Entry>, multiLine: bool)
    requires DocOk(doc, multiLine) && forall i :: 0 <= i < |entries| ==> EntryOk(entries[i], multiLine)
    ensures DocOk(DocAddAll(doc, entries), multiLine)
    decreases |entries|
  {
    hide DocOk, EntryOk, DocAdd;
    if entries != [] {
      DocAddOk(doc, entries[0], multiLine);
      DocAddAllOk(DocAdd(doc, entries[0]), entries[1..], multiLine);
    }
  }

  /**
    * Whatever text is loaded, its comments and keys are clean, its section names are clean or grown under an open header,
    * and its values are clean on one line.
    */
  lemma LoadedOk(text: string, multiLine: bool)
    ensures ValidStore(LoadText(Empty(multiLine), text))
    ensures DocOk(Doc(LoadText(Empty(multiLine), text)), multiLine)
    ensures var c := LoadText(Empty(multiLine), text).fileComment; c.Some? ==> CleanComment(c.value, false)
  {
    LoadedDoc(text, multiLine);
    NoNameOk();
    EntriesOk(Comments(text[..IndexOf(text, NUL)], false, "").rest, "", multiLine);
    LoadedCommentClean(text);
    hide ValidStore, PlainDoc, Entries, Comments, IndexOf, EntryOk, LoadText, DocAddAll, SectionIndex, SectionOk, CleanComment;
    DocAddAllOk([], LoadedEntries(text, multiLine), multiLine);
    FirstOk(PlainDoc(LoadText(Empty(multiLine), text)), multiLine);
  }

  lemma LoadedCommentClean(text: string)
    ensures LoadedComment(text).Some? ==> CleanComment(LoadedComment(text).value, false)
  {
    var s := text[..IndexOf(text, NUL)];
    hide IndexOf, CleanComment;
    if s != "" && IsComment(s[0]) {
      CommentsAreClean(s, false);
    } else {
      StopsAtOnce(s);
    }
  }

  lemma NoNameOk()
    ensures NameOk("")
  {
  }

  lemma FirstOk(doc: seq<Section>, multiLine: bool)
    requires DocOk(doc, multiLine)
    ensures DocOk(DocUnnamedFirst(doc), multiLine)
  {
    hide SectionOk, SectionIndex;
    var i := SectionIndex(doc, "");
    if i < |doc| { Moved(doc, i); }
  }

  // ----- What a section without a name is read as -----

  /** Two comments with blank lines between them. */
  function Merged(first: Option<string>, blank: nat, second: Option<string>): Option<string> {
    if first.None? then second
    else if second.None? then first
    else Some(first.value + "\n" + Lines(blank) + second.value)
  }

  lemma {:induction false} MergedIsClean(a: string, k: nat, b: string)
    requires CleanComment(a, true) && CleanComment(b, true)
    ensures CleanComment(a + "\n" + Lines(k) + b, true)
    decreases |a|
  {
    hide *;
    CleanStarts(a, true);
    CleanParts(a, true);
    var n := LineEnd(a);
    var line := a[..n];
    assert line[0] == a[0];
    if n == |a| {
      assert line == a;
      CleanBlank(a, k, b);
    } else {
      var next := a[n + 1..];
      if CleanComment(next, true) {
        MergedIsClean(next, k, b);
        CleanNext(line, next + "\n" + Lines(k) + b, true);
        LineInFront(line, "", next, Lines(k), b);
        assert line + "\n" + "" == line + "\n" && "" + next == next;
      } else {
        var j := SpaceCount(next);
        MergedIsClean(next[j..], k, b);
        CleanBlank(line, j, next[j..] + "\n" + Lines(k) + b);
        LineInFront(line, Lines(j), next[j..], Lines(k), b);
      }
    }
  }

  lemma LineInFront(line: string, blank: string, next: string, lines: string, b: string)
    ensures line + "\n" + blank + (next + "\n" + lines + b) == line + "\n" + (blank + next) + "\n" + lines + b
  {
  }

  lemma MergedOk(first: Option<string>, blank: nat, second: Option<string>)
    requires CommentOk(first) && CommentOk(second)
    ensures CommentOk(Merged(first, blank, second))
  {
    hide CleanComment;
    if first.Some? && second.Some? { MergedIsClean(first.value, blank, second.value); }
  }

  /**
    * The sections that a text is read as. The comment of a section without a name goes to its first key, or without keys
    * to the next section.
    */
  function ReadAs(doc: seq<Section>): seq<Section> {
    if doc == [] || doc[0].name != "" then doc
    else if doc[0].items != [] then
      var first := doc[0].items[0];
      [Section("", None, [first.(comment := Merged(doc[0].comment, 1, first.comment))] + doc[0].items[1..])] + doc[1..]
    else if |doc| == 1 then []
    else [doc[1].(comment := Merged(doc[0].comment, 2, doc[1].comment))] + doc[2..]
  }

  /** Only the first section is without a name. */
  predicate NamedRest(doc: seq<Section>) {
    forall i :: 0 <= i < |doc| && doc[i].name == "" ==> i == 0
  }

  lemma TextIsReadAs(doc: seq<Section>)
    requires DocOk(doc, false) && NamedRest(doc)
    ensures Entries(DocText(doc, false), "", false) == Entries(DocText(ReadAs(doc), false), "", false)
  {
    hide Entries, DocText, NameOk, ItemsOk, CommentOk, CleanName;
    if doc != [] && doc[0].name == "" {
      assert SectionOk(doc[0], false);
      if doc[0].items != [] {
        FirstCommentOk(doc[0].items);
        FirstKeyTakes(doc);
      } else if |doc| == 1 {
        NothingTakes(doc);
      } else {
        assert SectionOk(doc[1], false);
        NextTakes(doc);
      }
    }
  }

  lemma FirstKeyTakes(doc: seq<Section>)
    requires doc != [] && doc[0].name == "" && doc[0].items != []
    requires CommentOk(doc[0].comment) && CommentOk(doc[0].items[0].comment)
    ensures Entries(DocText(doc, false), "", false) == Entries(DocText(ReadAs(doc), false), "", false)
  {
    hide *;
    var first, rest := doc[0].items[0], doc[1..];
    var comment := Merged(doc[0].comment, 1, first.comment);
    var taken := Section("", None, [first.(comment := comment)] + doc[0].items[1..]);
    ReadsFirst(doc);
    assert doc == [doc[0]] + rest;
    if doc[0].comment == None {
      NoneMerged(first.comment);
      assert taken.items == doc[0].items;
    } else {
      var z := ItemText(Bare(first), false) + (ItemsText(doc[0].items[1..], false) + Tail(rest));
      assert taken.items[0] == first.(comment := comment) && taken.items[1..] == doc[0].items[1..];
      SameBare(first, comment);
      UnnamedText(doc[0], rest);
      UnnamedText(taken, rest);
      TakenText(doc[0].comment.value, first.comment, z);
      SpacesOnly("\n");
      SpaceBefore("\n", DocText(doc, false), "", false);
    }
  }

  lemma ReadsFirst(doc: seq<Section>)
    requires doc != [] && doc[0].name == "" && doc[0].items != []
    ensures var first := doc[0].items[0];
            ReadAs(doc) == [Section("", None, [first.(comment := Merged(doc[0].comment, 1, first.comment))] + doc[0].items[1..])] + doc[1..]
  {
    hide Merged;
  }

  lemma NoneMerged(comment: Option<string>)
    ensures Merged(None, 1, comment) == comment
  {
  }

  lemma SameBare(line: Line, comment: Option<string>)
    ensures Bare(line.(comment := comment)) == Bare(line)
  {
  }

  lemma UnnamedText(section: Section, doc: seq<Section>)
    requires section.name == "" && section.items != []
    ensures var first := section.items[0];
            var z := ItemText(Bare(first), false) + (ItemsText(section.items[1..], false) + Tail(doc));
            DocText([section] + doc, false) == CommentText(section.comment, "") + (CommentText(first.comment, "\n") + z)
  {
    TextOf(section, doc);
    hide ItemText, Tail, DocText, CommentText;
  }

  lemma TakenText(c: string, comment: Option<string>, z: string)
    requires CommentOk(Some(c)) && CommentOk(comment)
    ensures CommentText(None, "") + (CommentText(Merged(Some(c), 1, comment), "\n") + z) ==
            "\n" + (CommentText(Some(c), "") + (CommentText(comment, "\n") + z))
  {
    hide *;
    TakenComment(c, comment);
    var a, b := CommentText(Some(c), ""), CommentText(comment, "\n");
    assert "" + ("\n" + (a + b) + z) == "\n" + (a + (b + z));
  }

  lemma TakenComment(c: string, comment: Option<string>)
    requires CommentOk(Some(c)) && CommentOk(comment)
    ensures CommentText(None, "") == ""
    ensures CommentText(Merged(Some(c), 1, comment), "\n") == "\n" + (CommentText(Some(c), "") + CommentText(comment, "\n"))
  {
    NoCommentText("");
    NoCommentText("\n");
    CommentFirst(c);
    if comment.Some? { CommentFirst(comment.value); }
    hide CommentText, CommentOk;
    CommentTextOf(c, "");
    CommentTextOf(c, "\n");
    if comment.Some? {
      CommentTextOf(comment.value, "\n");
      MergedText(c, 1, comment.value, "\n");
      assert Lines(1) == "\n";
    }
  }

  lemma CommentFirst(c: string)
    requires CommentOk(Some(c))
    ensures c != ""
  {
  }

  lemma CommentTextOf(c: string, before: string)
    requires c != ""
    ensures CommentText(Some(c), before) == before + c + "\n"
  {
  }

  lemma MergedText(c: string, k: nat, d: string, before: string)
    requires c != ""
    ensures CommentText(Some(c + "\n" + Lines(k) + d), before) == before + c + "\n" + (Lines(k) + d + "\n")
  {
  }

  lemma FirstCommentOk(items: seq<Line>)
    requires ItemsOk(items, false) && items != []
    ensures CommentOk(items[0].comment)
  {
    hide CommentOk, CleanKey, CleanValue;
  }

  lemma NothingTakes(doc: seq<Section>)
    requires |doc| == 1 && doc[0].name == "" && doc[0].items == [] && CommentOk(doc[0].comment)
    ensures Entries(DocText(doc, false), "", false) == Entries(DocText(ReadAs(doc), false), "", false)
  {
    var text := CommentText(doc[0].comment, "");
    UnnamedAlone(doc[0]);
    assert [doc[0]] == doc && ReadAs(doc) == [];
    NoDoc([], false);
    hide *;
    EmptyNoComment();
    CommentIsRead(doc[0].comment, "", "", "", false);
    assert text + "" == text;
    NextNothing(doc[0].comment);
    SameEntries(text, "", "");
  }

  lemma UnnamedAlone(section: Section)
    requires section.name == "" && section.items == []
    ensures DocText([section], false) == CommentText(section.comment, "")
  {
    hide CommentText;
  }

  lemma EmptyNoComment()
    ensures NoComment("", true)
  {
  }

  lemma NextNothing(comment: Option<string>)
    ensures Next("", "", comment, None, false) == End
  {
  }

  lemma SameEntries(a: string, b: string, section: string)
    requires Next(a, section, None, None, false) == Next(b, section, None, None, false)
    ensures Entries(a, section, false) == Entries(b, section, false)
  {
    hide Next;
  }

  lemma NextTakes(doc: seq<Section>)
    requires |doc| > 1 && doc[0].name == "" && doc[0].items == [] && doc[1].name != ""
    requires CommentOk(doc[0].comment) && CommentOk(doc[1].comment)
    ensures Entries(DocText(doc, false), "", false) == Entries(DocText(ReadAs(doc), false), "", false)
  {
    hide *;
    var comment, above, rest := doc[0].comment, doc[1].comment, doc[2..];
    var y := ItemsText(doc[1].items, false) + Tail(rest);
    var h := "[" + doc[1].name + "]\n" + y;
    ReadsNext(doc);
    UnnamedInFront(doc);
    assert doc[1..] == [doc[1]] + rest;
    NamedText(doc[1], rest);
    NamedText(doc[1].(comment := Merged(comment, 2, above)), rest);
    HeaderIsNoComment(doc[1].name, y);
    TakenAbove(comment, above, h);
  }

  /** The comment above goes to the entry of `h`. */
  lemma TakenAbove(comment: Option<string>, above: Option<string>, h: string)
    requires CommentOk(comment) && CommentOk(above) && NoComment(h, true)
    ensures Entries(CommentText(comment, "") + ("\n\n" + (CommentText(above, "") + h)), "", false) ==
            Entries(CommentText(Merged(comment, 2, above), "") + h, "", false)
  {
    hide *;
    NoCommentText("");
    SpacesOnly("\n\n");
    if comment.None? {
      MergedNone(above);
      assert "" + ("\n\n" + (CommentText(above, "") + h)) == "\n\n" + (CommentText(above, "") + h);
      SpaceBefore("\n\n", CommentText(above, "") + h, "", false);
    } else if above.None? {
      MergedNone(comment);
      BlankNoComment(h);
      CommentIsRead(comment, "", "\n\n" + h, "", false);
      SameAfterSpace("\n\n", h, "", comment, false);
      CommentIsRead(comment, "", h, "", false);
      assert "" + h == h;
      SameEntries(CommentText(comment, "") + ("\n\n" + h), CommentText(comment, "") + h, "");
    } else {
      MergedAbove(comment.value, above.value);
      assert CommentText(comment, "") + ("\n\n" + (CommentText(above, "") + h)) ==
             CommentText(comment, "") + "\n\n" + CommentText(above, "") + h;
    }
  }

  lemma MergedNone(comment: Option<string>)
    ensures Merged(None, 2, comment) == comment && Merged(comment, 2, None) == comment
  {
  }

  lemma MergedAbove(c: string, d: string)
    requires CommentOk(Some(c)) && CommentOk(Some(d))
    ensures CommentText(Merged(Some(c), 2, Some(d)), "") ==
            CommentText(Some(c), "") + "\n\n" + CommentText(Some(d), "")
  {
    CommentFirst(c);
    CommentFirst(d);
    hide CommentText, CommentOk;
    CommentTextOf(c, "");
    CommentTextOf(d, "");
    MergedText(c, 2, d, "");
    assert Lines(2) == "\n\n";
  }

  lemma ReadsNext(doc: seq<Section>)
    requires |doc| > 1 && doc[0].name == "" && doc[0].items == []
    ensures ReadAs(doc) == [doc[1].(comment := Merged(doc[0].comment, 2, doc[1].comment))] + doc[2..]
  {
    hide Merged;
  }

  lemma UnnamedInFront(doc: seq<Section>)
    requires |doc| > 1 && doc[0].name == "" && doc[0].items == []
    ensures DocText(doc, false) == CommentText(doc[0].comment, "") + ("\n\n" + DocText(doc[1..], false))
  {
    hide *;
    UnnamedAlone(doc[0]);
    TextOf(doc[0], []);
    TextOf(doc[0], doc[1..]);
    TailIs(doc[1..]);
    assert [doc[0]] + [] == [doc[0]] && [doc[0]] + doc[1..] == doc;
    assert SectionText(doc[0], false) + "" == SectionText(doc[0], false);
  }

  lemma TailIs(doc: seq<Section>)
    requires doc != []
    ensures Tail([]) == "" && Tail(doc) == "\n\n" + DocText(doc, false)
  {
    hide DocText;
  }

  lemma NamedText(section: Section, doc: seq<Section>)
    requires section.name != ""
    ensures DocText([section] + doc, false) ==
            CommentText(section.comment, "") + ("[" + section.name + "]\n" + (ItemsText(section.items, false) + Tail(doc)))
  {
    TextOf(section, doc);
    hide ItemsText, Tail, DocText, CommentText;
  }

  lemma BlankNoComment(s: string)
    requires NoComment(s, true)
    ensures NoComment("\n\n" + s, true)
  {
    var n := SpaceCount(s);
    var t := "\n\n" + s;
    SpacesAre(t, n + 2);
    hide SpaceCount;
  }

  // ----- Exactly which stores survive -----

  /** What a text is read as has its comments in their places, and a section without a name has items. */
  lemma ReadAsOk(doc: seq<Section>)
    requires DocOk(doc, false) && NamedRest(doc)
    ensures DocOk(ReadAs(doc), false) && NamedRest(ReadAs(doc))
    ensures var r := ReadAs(doc); r != [] && r[0].name == "" ==> r[0].items != [] && r[0].comment == None
  {
    hide CleanName, CleanKey, CleanValue, CommentOk, Grown, Merged;
    NoItemsOk(false);
    if doc != [] && doc[0].name == "" {
      assert SectionOk(doc[0], false);
      if doc[0].items != [] {
        MergedOk(doc[0].comment, 1, doc[0].items[0].comment);
      } else if |doc| > 1 {
        assert SectionOk(doc[1], false);
        MergedOk(doc[0].comment, 2, doc[1].comment);
      }
    }
  }

  /** Only a list that is read as itself has its sections in place. */
  lemma ReadAsItself(doc: seq<Section>)
    requires ReadAs(doc) == doc && NamedRest(doc)
    ensures forall i :: 0 <= i < |doc| && doc[i].name == "" ==> doc[i].items != [] && doc[i].comment == None
  {
    hide Merged;
    ReadAsShorter(doc);
  }

  lemma ReadAsShorter(doc: seq<Section>)
    ensures doc != [] && doc[0].name == "" && doc[0].items == [] ==> |ReadAs(doc)| < |doc|
  {
    hide Merged;
  }

  lemma SameNames(doc: seq<Section>)
    requires NamedRest(doc)
    ensures var r := ReadAs(doc);
            var h := |doc| - |r|;
            && 0 <= h <= 1 && (h == 1 ==> doc[0].name == "")
            && (forall k :: 0 <= k < |r| ==> r[k].name == doc[k + h].name)
  {
    if doc == [] || doc[0].name != "" || (doc[0].items == [] && |doc| == 1) {
      assert ReadAs(doc) == doc || ReadAs(doc) == [];
    } else {
      hide *;
      if doc[0].items != [] {
        ReadsFirst(doc);
        FirstRenamed(ReadAs(doc)[0], doc);
      } else {
        ReadsNext(doc);
        FirstRenamed(ReadAs(doc)[0], doc[1..]);
        assert doc[1..][1..] == doc[2..];
      }
    }
  }

  lemma FirstRenamed(section: Section, doc: seq<Section>)
    requires doc != [] && section.name == doc[0].name
    ensures forall k :: 0 <= k < |doc| ==> ([section] + doc[1..])[k].name == doc[k].name
  {
  }

  lemma ReadAsDistinct(doc: seq<Section>)
    requires Distinct(doc) && NamedRest(doc)
    ensures Distinct(ReadAs(doc))
  {
    SameNames(doc);
    KeysStay(doc);
    hide ReadAs, DistinctKeys, Folded;
    var r := ReadAs(doc);
    var h := |doc| - |r|;
    forall i, j | 0 <= i < j < |r|
      ensures Folded(r[i].name) != Folded(r[j].name)
    {
      assert Folded(doc[i + h].name) != Folded(doc[j + h].name);
    }
  }

  lemma KeysStay(doc: seq<Section>)
    requires Distinct(doc)
    ensures forall i :: 0 <= i < |ReadAs(doc)| ==> DistinctKeys(ReadAs(doc)[i].items)
  {
    hide Merged, Folded, DistinctKeys;
    if doc != [] && doc[0].name == "" && doc[0].items != [] {
      var items := doc[0].items;
      assert DistinctKeys(doc[0].items);
      FirstReplaced(items, items[0].(comment := Merged(doc[0].comment, 1, items[0].comment)));
    }
  }

  lemma FirstReplaced(items: seq<Line>, line: Line)
    requires items != [] && DistinctKeys(items) && line.key == items[0].key
    ensures DistinctKeys([line] + items[1..])
  {
    hide Folded;
    var r := [line] + items[1..];
    assert forall i :: 0 <= i < |r| ==> r[i].key == items[i].key;
  }

  /** The first section whose name is not clean. */
  lemma FirstUnclean(doc: seq<Section>) returns (i: nat)
    requires exists k :: 0 <= k < |doc| && !CleanName(doc[k].name)
    ensures i < |doc| && !CleanName(doc[i].name)
    ensures forall k :: 0 <= k < i ==> CleanName(doc[k].name)
  {
    hide CleanName;
    i := 0;
    while CleanName(doc[i].name)
      invariant i < |doc| && forall k :: 0 <= k < i ==> CleanName(doc[k].name)
      decreases |doc| - i
    {
      i := i + 1;
    }
  }

  /** What is known of every section. */
  lemma OkMeans(doc: seq<Section>)
    requires DocOk(doc, false)
    ensures forall k :: 0 <= k < |doc| ==>
      && CleanItems(doc[k].items, false) && CommentOk(doc[k].comment)
      && (CleanName(doc[k].name) || (Grown(doc[k].name) && doc[k].items != []))
  {
    hide CleanName, Grown, ItemsOk, CleanItems, CommentOk;
    forall k | 0 <= k < |doc|
      ensures CleanItems(doc[k].items, false) && CommentOk(doc[k].comment)
      ensures CleanName(doc[k].name) || (Grown(doc[k].name) && doc[k].items != [])
    {
      assert SectionOk(doc[k], false);
      OkItemsAreClean(doc[k].items);
    }
  }

  lemma OkItemsAreClean(items: seq<Line>)
    requires ItemsOk(items, false)
    ensures CleanItems(items, false)
  {
    hide CleanKey, CleanValue, CommentOk, NeedsLines;
  }

  lemma NamedAreClean(doc: seq<Section>, n: nat)
    requires DocOk(doc, false) && NamedRest(doc) && n <= |doc|
    requires doc != [] && doc[0].name == "" ==> doc[0].comment == None
    requires forall k :: 0 <= k < n ==> CleanName(doc[k].name)
    ensures forall k :: 0 <= k < n ==> CleanSection(doc[k], false)
  {
    OkMeans(doc);
    hide CleanName, CleanItems, CommentOk, Grown, DocOk;
  }

  lemma PartDistinct(doc: seq<Section>, i: nat)
    requires Distinct(doc) && i <= |doc|
    ensures Distinct(doc[..i])
  {
    hide DistinctKeys, Folded;
  }

  /** The places of sections when the one without a name goes first. */
  lemma FirstPlaces(plain: seq<Section>) returns (z: nat)
    ensures var r := DocUnnamedFirst(plain);
            && z <= |plain| == |r| && (forall k :: 0 <= k < z ==> plain[k].name != "")
            && (z < |plain| ==> r[0].name == plain[z].name == "")
            && (forall k :: 0 < k <= z < |plain| ==> r[k] == plain[k - 1])
            && forall k :: z < k < |plain| ==> r[k] == plain[k]
    ensures z == |plain| ==> DocUnnamedFirst(plain) == plain
  {
    hide SectionIndex, Folded;
    NamelessIsEmpty();
    z := SectionIndex(plain, "");
    if z < |plain| { Moved(plain, z); }
  }

  /** If the names of `plain` and `doc` agree up to a place, they agree there, wherever the section without a name is. */
  lemma SamePlace(plain: seq<Section>, h: nat, i: nat)
    requires var doc := DocUnnamedFirst(plain);
             && h <= i < |doc| && h <= 1 && (h == 1 ==> doc[0].name == "")
             && i - h < |plain| && (forall k :: 0 <= k < i - h ==> plain[k].name == doc[k + h].name)
             && (forall k :: 0 < k < |doc| ==> doc[k].name != "")
             && plain[i - h].name != "" && doc[i].name != ""
    ensures plain[i - h].name == DocUnnamedFirst(plain)[i].name
  {
    hide DocUnnamedFirst;
    var z := FirstPlaces(plain);
    assert i > 0 && h == 0 && z < |plain| ==> plain[0].name == "";
  }

  lemma EmptyIsClean()
    ensures CleanName("") && SingleLine("")
  {
  }

  /** The sections in front of the first one with a grown name are read back, and then another name follows. */
  lemma GrownBecomes(doc: seq<Section>) returns (i: nat)
    requires Distinct(doc) && NamedRest(doc) && DocOk(doc, false)
    requires doc != [] && doc[0].name == "" ==> doc[0].items != [] && doc[0].comment == None
    requires exists k :: 0 <= k < |doc| && !CleanName(doc[k].name)
    ensures var r := DocAddAll([], Entries(DocText(doc, false), "", false));
            && i < |doc| && i < |r| && (forall k :: 0 <= k < i ==> r[k].name == doc[k].name)
            && doc[i].name != "" && r[i].name != doc[i].name && r[i].name != ""
  {
    hide *;
    i := FirstUnclean(doc);
    EmptyIsClean();
    OkMeans(doc);
    NamedAreClean(doc, i);
    PartDistinct(doc, i);
    var clean := doc[..i];
    PartParts(doc, i);
    assert doc == clean + ([doc[i]] + doc[i + 1..]);
    GrownRenamed(clean, doc[i], doc[i + 1..]);
  }

  lemma PartParts(doc: seq<Section>, i: nat)
    requires NamedRest(doc) && i <= |doc| && forall k :: 0 <= k < i ==> CleanSection(doc[k], false)
    requires doc != [] && doc[0].name == "" ==> doc[0].items != []
    ensures CleanSections(doc[..i])
    ensures forall k :: 0 <= k < |doc[..i]| && doc[..i][k].name == "" ==> k == 0 && doc[..i][k].items != []
  {
    hide CleanSection;
  }

  /** If the sections of a store are restored, their names are clean. */
  lemma RestoredNames(doc: seq<Section>, plain: seq<Section>)
    requires Distinct(doc) && NamedRest(doc) && DocOk(doc, false)
    requires plain == DocAddAll([], Entries(DocText(ReadAs(doc), false), "", false)) && DocUnnamedFirst(plain) == doc
    ensures forall k :: 0 <= k < |doc| ==> CleanName(doc[k].name)
  {
    hide *;
    EmptyIsClean();
    ReadAsOk(doc);
    ReadAsDistinct(doc);
    SameNames(doc);
    var r := ReadAs(doc);
    if exists k :: 0 <= k < |r| && !CleanName(r[k].name) {
      var i := GrownBecomes(r);
      InPlace(doc, plain, r, i);
    } else {
      AllClean(doc, r);
    }
  }

  /** Up to the same names, the place is the same. */
  lemma InPlace(doc: seq<Section>, plain: seq<Section>, r: seq<Section>, i: nat)
    requires NamedRest(doc) && DocUnnamedFirst(plain) == doc && 0 <= |doc| - |r| <= 1 && (|r| < |doc| ==> doc[0].name == "")
    requires forall k :: 0 <= k < |r| ==> r[k].name == doc[k + (|doc| - |r|)].name
    requires i < |r| && i < |plain| && forall k :: 0 <= k < i ==> plain[k].name == r[k].name
    requires plain[i].name != "" && r[i].name != ""
    ensures plain[i].name == r[i].name
  {
    hide *;
    NamedRestMeans(doc);
    var h := |doc| - |r|;
    forall k | 0 <= k < i
      ensures plain[k].name == doc[k + h].name
    {
      assert r[k].name == doc[k + h].name;
    }
    assert r[i].name == doc[i + h].name;
    SamePlace(plain, h, i + h);
  }

  lemma AllClean(doc: seq<Section>, r: seq<Section>)
    requires 0 <= |doc| - |r| <= 1 && (|r| < |doc| ==> CleanName(doc[0].name))
    requires forall k :: 0 <= k < |r| ==> r[k].name == doc[k + (|doc| - |r|)].name && CleanName(r[k].name)
    ensures forall k :: 0 <= k < |doc| ==> CleanName(doc[k].name)
  {
    hide CleanName;
    var h := |doc| - |r|;
    forall k | h <= k < |doc|
      ensures CleanName(doc[k].name)
    {
      assert r[k - h].name == doc[k - h + h].name;
    }
  }

  lemma NamedRestMeans(doc: seq<Section>)
    requires NamedRest(doc)
    ensures forall k :: 0 < k < |doc| ==> doc[k].name != ""
  {
  }

  /** A comment at the start of the text is taken for the file's. */
  lemma CommentTaken(doc: seq<Section>)
    requires NulFree(doc) && doc != [] && doc[0].comment.Some? && CommentOk(doc[0].comment)
    ensures LoadedComment(Written(doc, None, false)).Some?
  {
    var text := DocText(doc, false);
    StartsWithComment(doc);
    NulFreeText(doc, false);
    IndexOfMissing(text, NUL);
    hide *;
    assert text[..|text|] == text;
    WrittenShape(doc, None, false);
    LoadedIs(text, false);
    CommentKept(text, "");
  }

  lemma StartsWithComment(doc: seq<Section>)
    requires doc != [] && doc[0].comment.Some? && CommentOk(doc[0].comment)
    ensures DocText(doc, false) != "" && IsComment(DocText(doc, false)[0])
  {
    var c := doc[0].comment.value;
    assert c != "" && IsComment(c[0]);
    hide CommentOk, ItemsText, Header;
    CommentTextOf(c, "");
    hide CommentText;
    DocStep(doc, false);
    hide DocText;
    assert SectionText(doc[0], false)[0] == c[0];
  }

  /** A store that is restored could be written so that it reads back. */
  lemma RestoredIsSavable(st: Store)
    requires ValidStore(st) && !st.multiLine && NulFree(Doc(st)) && NulFreeComment(st.fileComment)
    requires var t := LoadText(Empty(false), SavedText(st));
             ValidStore(t) && Doc(t) == Doc(st) && t.fileComment == st.fileComment
    ensures Savable(Doc(st), st.fileComment, false)
  {
    hide *;
    var doc, fileComment := Doc(st), st.fileComment;
    var t := LoadText(Empty(false), SavedText(st));
    LoadedOk(SavedText(st), false);
    LoadedDoc(SavedText(st), false);
    SavedIsDocText(st);
    DocIsDistinct(st);
    DistinctFirst(PlainDoc(st));
    UnnamedIsFirst(PlainDoc(st));
    FirstCommentIsOk(doc);
    DocIs(st);
    DocIs(t);
    NamedRestIs(doc);
    if fileComment.None? && doc != [] && doc[0].comment.Some? {
      CommentTaken(doc);
    } else {
      StartsPlain(doc, fileComment);
      WrittenIsRead(doc, fileComment, false);
      TextIsReadAs(doc);
      RestoredNames(doc, PlainDoc(t));
      RestoredInPlace(doc, PlainDoc(t));
      SavableParts(doc, fileComment);
    }
  }

  lemma NamedRestIs(doc: seq<Section>)
    requires forall k :: 0 <= k < |doc| && doc[k].name == "" ==> k == 0
    ensures NamedRest(doc)
  {
  }

  lemma FirstCommentIsOk(doc: seq<Section>)
    requires DocOk(doc, false)
    ensures doc != [] ==> CommentOk(doc[0].comment)
  {
    hide CommentOk, CleanName, Grown, ItemsOk;
    if doc != [] { assert SectionOk(doc[0], false); }
  }

  lemma StartsPlain(doc: seq<Section>, fileComment: Option<string>)
    requires DocOk(doc, false) && !(fileComment.None? && doc != [] && doc[0].comment.Some?)
    ensures var text := DocText(doc, false); fileComment.None? ==> text == "" || !IsComment(text[0])
  {
    OkMeans(doc);
    hide CleanName, CommentOk, DocText, Grown, DocOk;
    if fileComment.None? {
      if doc != [] && doc[0].items != [] { FirstKeyClean(doc[0].items, false); }
      TextStart(doc, false);
    }
  }

  /** If the sections are restored and their names are clean, they are read as themselves. */
  lemma RestoredInPlace(doc: seq<Section>, plain: seq<Section>)
    requires Distinct(doc) && NamedRest(doc) && DocOk(doc, false)
    requires plain == DocAddAll([], Entries(DocText(ReadAs(doc), false), "", false)) && DocUnnamedFirst(plain) == doc
    requires forall k :: 0 <= k < |doc| ==> CleanName(doc[k].name)
    ensures forall k :: 0 <= k < |doc| ==> CleanSection(doc[k], false)
    ensures UnnamedHasItems(doc)
  {
    hide *;
    var r := ReadAs(doc);
    ReadAsOk(doc);
    ReadAsDistinct(doc);
    SameNames(doc);
    NamesClean(doc, r);
    NamedAreClean(r, |r|);
    FirstStays(r);
    CleanDocIs(r);
    DocRoundTrip(r, "", false);
    UnnamedParts(r);
    assert [] + r == r;
    DocBuilt([], r);
    ReadAsItself(doc);
    UnnamedHasItemsIs(doc);
  }

  lemma NamesClean(doc: seq<Section>, r: seq<Section>)
    requires |r| <= |doc| && forall k :: 0 <= k < |r| ==> r[k].name == doc[k + (|doc| - |r|)].name
    requires forall k :: 0 <= k < |doc| ==> CleanName(doc[k].name)
    ensures forall k :: 0 <= k < |r| ==> CleanName(r[k].name)
  {
    hide CleanName;
  }

  lemma FirstStays(doc: seq<Section>)
    requires NamedRest(doc)
    ensures DocUnnamedFirst(doc) == doc
  {
    hide SectionIndex, Folded;
    NamelessIsEmpty();
    var i := SectionIndex(doc, "");
    if i < |doc| { assert [doc[0]] + doc[..0] + doc[1..] == doc; }
  }

  lemma CleanDocIs(doc: seq<Section>)
    requires NamedRest(doc) && forall k :: 0 <= k < |doc| ==> CleanSection(doc[k], false)
    ensures CleanDoc(doc, false)
  {
    hide CleanSection;
  }

  lemma UnnamedParts(doc: seq<Section>)
    requires NamedRest(doc) && (doc != [] && doc[0].name == "" ==> doc[0].items != [] && doc[0].comment == None)
    ensures forall i :: 0 <= i < |doc| && doc[i].name == "" ==> doc[i].items != [] && doc[i].comment == None
  {
  }

  lemma UnnamedHasItemsIs(doc: seq<Section>)
    requires forall i :: 0 <= i < |doc| && doc[i].name == "" ==> doc[i].items != []
    ensures UnnamedHasItems(doc)
  {
  }

  lemma SavableParts(doc: seq<Section>, fileComment: Option<string>)
    requires forall k :: 0 <= k < |doc| ==> CleanSection(doc[k], false)
    requires UnnamedHasItems(doc) && !(fileComment.None? && doc != [] && doc[0].comment.Some?)
    requires fileComment.Some? ==> CleanComment(fileComment.value, false)
    ensures Savable(doc, fileComment, false)
  {
    hide CleanSection, CleanComment;
  }

  /**
    * With single-line values, a store is loaded back exactly when its names, keys, values and comments are clean, a section
    * without a name has items and no comment, and the first section has no comment that would be taken for the file's.
    */
  lemma SaveLoadIff(st: Store)
    requires ValidStore(st) && !st.multiLine && NulFree(Doc(st)) && NulFreeComment(st.fileComment)
    ensures var t := LoadText(Empty(false), SavedText(st));
            && ValidStore(t)
            && (Doc(t) == Doc(st) && t.fileComment == st.fileComment <==> Savable(Doc(st), st.fileComment, false))
  {
    var t := LoadText(Empty(false), SavedText(st));
    LoadedOk(SavedText(st), false);
    hide *;
    if Savable(Doc(st), st.fileComment, false) {
      SaveLoad(st);
    } else if Doc(t) == Doc(st) && t.fileComment == st.fileComment {
      RestoredIsSavable(st);
    }
  }

  // ----- The order of what is written -----

  /** The sections with a name, in their order. */
  function Named(doc: seq<Section>): seq<Section> {
    if doc == [] then [] else (if doc[0].name == "" then [] else [doc[0]]) + Named(doc[1..])
  }

  function Unnamed(doc: seq<Section>): seq<Section> {
    if doc == [] then [] else (if doc[0].name == "" then [doc[0]] else []) + Unnamed(doc[1..])
  }

  lemma {:induction false} AllNamed(doc: seq<Section>)
    requires forall i :: 0 <= i < |doc| ==> doc[i].name != ""
    ensures Named(doc) == doc && Unnamed(doc) == []
    decreases |doc|
  {
    if doc != [] {
      AllNamed(doc[1..]);
      assert doc == [doc[0]] + doc[1..];
    }
  }

  lemma {:induction false} OneUnnamed(doc: seq<Section>, i: nat)
    requires i < |doc| && doc[i].name == "" && forall k :: 0 <= k < |doc| && k != i ==> doc[k].name != ""
    ensures Named(doc) == doc[..i] + doc[i + 1..] && Unnamed(doc) == [doc[i]]
    decreases |doc|
  {
    if i == 0 {
      AllNamed(doc[1..]);
      assert doc[..0] + doc[1..] == doc[1..];
    } else {
      OneUnnamed(doc[1..], i - 1);
      assert doc[..i] + doc[i + 1..] == [doc[0]] + (doc[1..][..i - 1] + doc[1..][i..]);
    }
  }

  lemma FoldsToNothing(name: string)
    ensures Folded(name) == Folded("") <==> name == ""
  {
    FoldedEmpty(name);
    FoldedEmpty("");
    hide Folded;
  }

  lemma OthersNamed(doc: seq<Section>, i: nat)
    requires Distinct(doc) && i == SectionIndex(doc, "")
    ensures i < |doc| ==> doc[i].name == ""
    ensures forall k :: 0 <= k < |doc| && k != i ==> doc[k].name != ""
  {
    forall k | 0 <= k < |doc|
      ensures Folded(doc[k].name) == Folded("") <==> doc[k].name == ""
    {
      FoldsToNothing(doc[k].name);
    }
    hide Folded, SectionIndex, DistinctKeys;
    if i < |doc| {
      assert forall k :: 0 <= k < |doc| && k != i ==> Folded(doc[k].name) != Folded(doc[i].name);
    }
  }

  lemma FirstIs(doc: seq<Section>, i: nat)
    requires i == SectionIndex(doc, "")
    ensures DocUnnamedFirst(doc) == if i < |doc| then [doc[i]] + doc[..i] + doc[i + 1..] else doc
  {
    hide SectionIndex, Folded;
  }

  lemma Together<T>(a: seq<T>, b: seq<T>, c: seq<T>)
    ensures a + b + c == a + (b + c)
  {
  }

  lemma UnnamedThenNamed(doc: seq<Section>)
    requires Distinct(doc)
    ensures DocUnnamedFirst(doc) == Unnamed(doc) + Named(doc)
  {
    hide *;
    var i := SectionIndex(doc, "");
    OthersNamed(doc, i);
    FirstIs(doc, i);
    if i < |doc| {
      OneUnnamed(doc, i);
      Together([doc[i]], doc[..i], doc[i + 1..]);
    } else {
      AllNamed(doc);
      assert [] + doc == doc;
    }
  }

  /**
    * What is written: the comment of the file, two newlines if a section follows it, the section without a name, and the
    * others in load order.
    */
  lemma SavedLayout(st: Store)
    requires ValidStore(st)
    ensures Distinct(PlainDoc(st)) && Doc(st) == Unnamed(PlainDoc(st)) + Named(PlainDoc(st))
    ensures SavedText(st) ==
            (match st.fileComment case None => "" case Some(c) => if c == "" then "" else c + "\n")
            + (if st.fileComment.Some? && Doc(st) != [] then "\n\n" else "") + DocText(Doc(st), st.multiLine)
  {
    DocIsDistinct(st);
    SavedIsDocText(st);
    UnnamedThenNamed(PlainDoc(st));
    DocIs(st);
    CommentIs(st.fileComment);
    hide ValidStore, PlainDoc, Doc, DocText, SavedText, CommentText, Distinct, Named, Unnamed;
  }

  lemma CommentIs(comment: Option<string>)
    ensures CommentText(comment, "") == match comment case None => "" case Some(c) => if c == "" then "" else c + "\n"
  {
  }
}
