/** `CSimpleIni`: what saving writes and loading reads. */
module IniFile {
  import opened Options
  import opened Text
  import opened IniOrder
  import opened IniLines
  import opened IniBuffer
  import opened IniParser
  import opened IniFinder
  import opened IniTable
  import opened IniStore

  // ----- Saving -----

  function SavedItems(list: seq<Record<string>>, multiLine: bool): string {
    if list == [] then ""
    else CommentText(list[0].comment, "\n") + ItemText(Item(list[0].name, list[0].content), multiLine)
         + SavedItems(list[1..], multiLine)
  }

  /** Sections, with two newlines before each that something was written before. */
  ghost function SavedSections(list: seq<Record<Table<string>>>, needNewLine: bool, multiLine: bool): string
    requires ValidContents(list)
    decreases |list|
  {
    if list == [] then ""
    else (if needNewLine then "\n\n" else "") + CommentText(list[0].comment, "") + Header(list[0].name)
         + SavedItems(Sorted(list[0].content), multiLine) + SavedSections(list[1..], true, multiLine)
  }

  function NoNameIndex<T>(list: seq<Record<T>>): (i: nat)
    ensures i <= |list| && (i < |list| ==> list[i].name == "")
    ensures forall k :: 0 <= k < i ==> list[k].name != ""
  {
    if list == [] || list[0].name == "" then 0 else 1 + NoNameIndex(list[1..])
  }

  /** A section without a name comes first, whenever it was loaded. */
  function UnnamedFirst<T>(list: seq<Record<T>>): (r: seq<Record<T>>)
    ensures |r| == |list|
    ensures forall x :: x in r ==> x in list
  {
    var i := NoNameIndex(list);
    if i < |list| then [list[i]] + list[..i] + list[i + 1..] else list
  }

  lemma FirstContents(list: seq<Record<Table<string>>>)
    requires ValidContents(list)
    ensures ValidContents(UnnamedFirst(list))
  {
    hide ValidTable, UnnamedFirst;
    var r := UnnamedFirst(list);
    assert forall i :: 0 <= i < |r| ==> r[i] in list;
  }

  /** What `Save` writes. */
  ghost function SavedText(st: Store): string
    requires ValidStore(st)
  {
    SortedContents(st);
    FirstContents(Sorted(st.data));
    CommentText(st.fileComment, "") + SavedSections(UnnamedFirst(Sorted(st.data)), st.fileComment.Some?, st.multiLine)
  }

  /** The sections in the order they are written. */
  ghost function Doc(st: Store): seq<Section>
    requires ValidStore(st)
  {
    DocUnnamedFirst(PlainDoc(st))
  }

  function DocUnnamedFirst(doc: seq<Section>): seq<Section> {
    var i := SectionIndex(doc, "");
    if i < |doc| then [doc[i]] + doc[..i] + doc[i + 1..] else doc
  }

  // ----- Loading -----

  /** `LoadData`: the data up to the first NUL is a comment for the file, if it starts with one, and then entries. */
  function LoadText(st: Store, text: string): Store {
    if text == "" then st
    else
      var s := text[..IndexOf(text, NUL)];
      var l := Comments(s, false, "");
      if st.fileComment.Some? then AddedAll(st, Entries(s, "", st.multiLine))
      else AddedAll(if l.found then st.(fileComment := Some(l.text)) else st, Entries(l.rest, "", st.multiLine))
  }

  // ----- The class -----

  class SimpleIni {
    var data: Table<Table<string>>
    var order: int
    var fileComment: Option<string>
    const multiLine: bool

    function View(): Store
      reads this
    {
      Store(data, order, fileComment, multiLine)
    }

    ghost predicate Valid()
      reads this
    {
      ValidStore(View())
    }

    constructor (multiLine: bool)
      ensures Valid() && View() == Empty(multiLine)
    {
      data, order, fileComment := map[], 0, None;
      this.multiLine := multiLine;
    }

    /** `AddEntry`, without multiple keys; true for what the program calls inserted. */
    method AddEntry(section: string, item: Option<Item>, comment: Option<string>) returns (inserted: bool)
      requires Valid()
      modifies this
      ensures Valid() && View() == Added(old(View()), Entry(section, comment, item))
      ensures inserted <==> old(if item.Some? then Value(View(), section, item.value.key) == None else Folded(section) !in data)
    {
      hide Folded, ValidStore, Added, Value, WithSection, WithItem;
      ghost var st := View();
      AddRefines(st, Entry(section, comment, item));
      AddedIs(st, section, item, comment);
      inserted := AddSection(section, if item.None? then comment else None);
      if item.Some? {
        inserted := AddItem(section, item.value, comment);
      }
    }

    /** Puts an item into a section that is there. */
    method AddItem(section: string, item: Item, comment: Option<string>) returns (inserted: bool)
      requires Folded(section) in data
      modifies `data, `order
      ensures old(Folded(section) in View().data) && View() == WithItem(old(View()), section, item, comment)
      ensures inserted <==> old(Folded(item.key) !in data[Folded(section)].content)
    {
      hide Folded;
      var name, key := Folded(section), Folded(item.key);
      var keys := data[name].content;
      inserted := key !in keys;
      order := order + 1;
      if inserted {
        keys := keys[key := Record(item.key, comment, order, item.value)];
      } else {
        keys := keys[key := keys[key].(content := item.value)];
      }
      data := data[name := data[name].(content := keys)];
    }

    /** Creates a section if it is not there. */
    method AddSection(name: string, comment: Option<string>) returns (inserted: bool)
      modifies `data, `order
      ensures View() == WithSection(old(View()), name, comment)
      ensures inserted <==> old(Folded(name) !in data)
    {
      hide Folded;
      inserted := Folded(name) !in data;
      if inserted {
        order := order + 1;
        data := data[Folded(name) := Record(name, comment, order, map[])];
      }
    }

    /** `GetValue` */
    method GetValue(section: string, key: string, default: Option<string>) returns (value: Option<string>)
      ensures value == if Value(View(), section, key).Some? then Value(View(), section, key) else default
    {
      hide Folded;
      if Folded(section) !in data {
        return default;
      }
      var keys := data[Folded(section)].content;
      if Folded(key) !in keys {
        return default;
      }
      value := Some(keys[Folded(key)].content);
    }

    /** `LoadData` */
    method LoadData(text: string)
      requires Valid()
      modifies this
      ensures Valid() && View() == LoadText(old(View()), text)
    {
      hide AddedAll, Entries, Next, Comments, IndexOf, ValidStore, Added, Unread, CString;
      if text == "" {
        return;
      }
      ghost var s := text[..IndexOf(text, NUL)];
      var buf := Buffer(text);
      var pos := 0;
      if fileComment == None {
        pos := LoadFileComment(buf, s);
      }
      var section := "";
      ghost var st, rest := View(), Unread(buf[..], pos);
      assert LoadText(old(View()), text) == AddedAll(st, Entries(rest, "", multiLine));
      var entry;
      entry, pos := FindEntry(buf, pos, section, multiLine);
      EntriesUnfold(st, rest, section, multiLine);
      while entry.Some?
        invariant Valid()
        invariant Finds(buf[..], pos, entry, Next(rest, section, None, None, multiLine))
        invariant LoadText(old(View()), text) == AddedAll(View(), Entries(rest, section, multiLine))
        decreases |rest|
      {
        var e := entry.value;
        EntriesUnfold(View(), rest, section, multiLine);
        FoundIs(buf[..], pos, e, Next(rest, section, None, None, multiLine));
        rest := Unread(buf[..], pos);
        var inserted := AddEntry(e.section, e.item, e.comment);
        section := e.section;
        entry, pos := FindEntry(buf, pos, section, multiLine);
      }
      EntriesUnfold(View(), rest, section, multiLine);
    }

    /** `FindFileComment` */
    method LoadFileComment(buf: array<char>, ghost s: string) returns (pos: nat)
      requires Valid() && fileComment == None
      requires Terminated(buf[..], 0) && Unread(buf[..], 0) == s
      modifies this`fileComment, buf
      ensures Valid() && pos < buf.Length && Terminated(buf[..], pos)
      ensures var l := Comments(s, false, "");
              && View() == (if l.found then old(View()).(fileComment := Some(l.text)) else old(View()))
              && Unread(buf[..], pos) == l.rest
    {
      hide Comments, Unread, CString, Terminated, Delivered;
      ghost var b := buf[..];
      var found;
      found, pos := LoadComments(buf, 0, false);
      NotFoundLeaves(s);
      if found {
        DeliveredIs(b, buf[..], 0, pos, Comments(s, false, ""));
        var text := ReadString(buf, 0);
        fileComment := Some(text);
      } else {
        StartsInside(b, 0);
      }
    }

    /** `Save` */
    method Save() returns (text: string)
      requires Valid()
      ensures text == SavedText(View())
    {
      hide Sorted, ValidTable, SavedSections, ValidContents, NoNameIndex;
      SortedContents(View());
      var list := InLoadOrder(data);
      FirstContents(list);
      list := MoveUnnamedFirst(list);
      text := "";
      var needNewLine := false;
      if fileComment.Some? {
        text := OutputMultiLineText(fileComment.value);
        needNewLine := true;
      }
      assert text == CommentText(fileComment, "");
      ghost var all := text + SavedSections(list, needNewLine, multiLine);
      var i := 0;
      assert list[0..] == list;
      while i < |list|
        invariant i <= |list| && ValidContents(list) && ValidContents(list[i..])
        invariant text + SavedSections(list[i..], needNewLine, multiLine) == all
      {
        SectionsFrom(list, i, needNewLine, multiLine);
        var section := SaveSection(list[i], needNewLine);
        SavedMore(text, section, SavedSections(list[i + 1..], true, multiLine), SavedSections(list[i..], needNewLine, multiLine));
        text := text + section;
        needNewLine := true;
        i := i + 1;
      }
      NothingSaved(list[i..], needNewLine, multiLine);
    }

    /** One section, with the comment and the newlines before it. */
    method SaveSection(section: Record<Table<string>>, needNewLine: bool) returns (text: string)
      requires ValidTable(section.content)
      ensures text == SectionSaved(section, needNewLine, multiLine)
    {
      hide Sorted, ValidTable, SavedItems, Output;
      text := "";
      var need := needNewLine;
      if section.comment.Some? {
        if need {
          text := text + "\n\n";
        }
        var comment := OutputMultiLineText(section.comment.value);
        text := text + comment;
        need := false;
      }
      if need {
        text := text + "\n\n";
      }
      assert text == (if needNewLine then "\n\n" else "") + CommentText(section.comment, "");
      ghost var before := text;
      hide CommentText;
      if section.name != "" {
        text := text + ("[" + section.name + "]\n");
      }
      assert text == before + Header(section.name);
      hide Header;
      var list := InLoadOrder(section.content);
      var items := SaveItems(list);
      text := text + items;
    }

    method SaveItems(list: seq<Record<string>>) returns (text: string)
      ensures text == SavedItems(list, multiLine)
    {
      hide SavedItems, ItemText;
      text := "";
      var i := 0;
      assert list[0..] == list;
      while i < |list|
        invariant i <= |list|
        invariant text + SavedItems(list[i..], multiLine) == SavedItems(list, multiLine)
      {
        ItemsFrom(list, i, multiLine);
        var item := SaveItem(list[i]);
        SavedMore(text, item, SavedItems(list[i + 1..], multiLine), SavedItems(list[i..], multiLine));
        text := text + item;
        i := i + 1;
      }
      NoItemsSaved(list[i..], multiLine);
    }

    /** A key and its value, with the comment before it. */
    method SaveItem(key: Record<string>) returns (text: string)
      ensures text == CommentText(key.comment, "\n") + ItemText(Item(key.name, key.content), multiLine)
    {
      hide NeedsLines, Output;
      text := "";
      if key.comment.Some? {
        var comment := OutputMultiLineText(key.comment.value);
        text := "\n" + comment;
      }
      var value := key.content;
      var multi := IsMultiLineData(key.content);
      if multiLine && multi {
        var lines := OutputMultiLineText(key.content);
        value := "<<<END_OF_TEXT\n" + lines + "END_OF_TEXT";
        assert value == "<<<" + END_TAG + "\n" + lines + END_TAG;
      }
      text := text + (key.name + " = " + value + "\n");
    }
  }

  lemma AddedIs(st: Store, section: string, item: Option<Item>, comment: Option<string>)
    ensures var s := WithSection(st, section, if item.None? then comment else None);
            var name := Folded(section);
            && name in s.data
            && (item.None? ==> Added(st, Entry(section, comment, item)) == s)
            && (item.Some? ==>
                  && (Value(st, section, item.value.key) == None <==> Folded(item.value.key) !in s.data[name].content)
                  && Added(st, Entry(section, comment, item)) == WithItem(s, section, item.value, comment))
  {
    hide Folded, WithItem;
  }

  /** The text in a buffer of its own, ended by a NUL; parsing does not go beyond a NUL in the text. */
  method Buffer(text: string) returns (buf: array<char>)
    ensures fresh(buf) && Terminated(buf[..], 0) && Unread(buf[..], 0) == text[..IndexOf(text, NUL)]
  {
    hide IndexOf;
    var n := IndexOf(text, NUL);
    buf := new char[n + 1](i => if 0 <= i < n <= |text| then text[i] else NUL);
    assert Unread(buf[..], 0) == text[..n];
  }

  lemma NotFoundLeaves(s: string)
    ensures !Comments(s, false, "").found ==> Comments(s, false, "").rest == s
  {
    if s != "" && IsComment(s[0]) { CommentKept(s, ""); }
  }

  lemma {:induction false} CommentKept(s: string, output: string)
    requires output != "" || (s != "" && IsComment(s[0]))
    ensures Comments(s, false, output).found
    decreases |s|
  {
    if s != "" && IsComment(s[0]) {
      var n := LineEnd(s);
      if n < |s| { CommentKept(AfterLine(s, n), output + s[..n] + "\n"); }
    }
  }

  lemma EntriesUnfold(st: Store, s: string, section: string, multiLine: bool)
    ensures var p := Next(s, section, None, None, multiLine);
            AddedAll(st, Entries(s, section, multiLine)) ==
            if p == End then st else AddedAll(Added(st, p.entry), Entries(p.rest, p.entry.section, multiLine))
  {
    hide Next, Added;
  }

  lemma FoundIs(b: seq<char>, pos: nat, e: Entry, p: Parsed)
    requires Finds(b, pos, Some(e), p)
    ensures p.Parsed? && p.entry == e && pos < |b| && Terminated(b, pos) && Unread(b, pos) == p.rest
  {
  }

  /** Moves a section without a name to the front. */
  method MoveUnnamedFirst<T>(list: seq<Record<T>>) returns (r: seq<Record<T>>)
    ensures r == UnnamedFirst(list)
  {
    hide NoNameIndex;
    r := list;
    var i := 0;
    while i < |list|
      invariant i <= |list| && r == list
      invariant forall k :: 0 <= k < i ==> list[k].name != ""
    {
      if list[i].name == "" {
        r := [list[i]] + list[..i] + list[i + 1..];
        NoNameIndexIs(list, i);
        return;
      }
      i := i + 1;
    }
    NoNameIndexIs(list, i);
  }

  lemma NoNameIndexIs<T>(list: seq<Record<T>>, i: nat)
    requires i <= |list| && (i < |list| ==> list[i].name == "")
    requires forall k :: 0 <= k < i ==> list[k].name != ""
    ensures NoNameIndex(list) == i
  {
  }

  ghost function SectionSaved(section: Record<Table<string>>, needNewLine: bool, multiLine: bool): string
    requires ValidTable(section.content)
  {
    (if needNewLine then "\n\n" else "") + CommentText(section.comment, "") + Header(section.name)
    + SavedItems(Sorted(section.content), multiLine)
  }

  lemma SectionsFrom(list: seq<Record<Table<string>>>, i: nat, needNewLine: bool, multiLine: bool)
    requires ValidContents(list) && i < |list|
    ensures ValidTable(list[i].content) && ValidContents(list[i..]) && ValidContents(list[i + 1..])
    ensures SavedSections(list[i..], needNewLine, multiLine) ==
            SectionSaved(list[i], needNewLine, multiLine) + SavedSections(list[i + 1..], true, multiLine)
  {
    hide Sorted, SavedItems, ValidTable, CommentText, Header;
    assert list[i..][1..] == list[i + 1..];
  }

  lemma SavedMore(text: string, part: string, rest: string, all: string)
    requires all == part + rest
    ensures text + part + rest == text + all
  {
  }

  lemma NothingSaved(list: seq<Record<Table<string>>>, needNewLine: bool, multiLine: bool)
    requires list == []
    ensures ValidContents(list) && SavedSections(list, needNewLine, multiLine) == ""
  {
  }

  lemma ItemsFrom(list: seq<Record<string>>, i: nat, multiLine: bool)
    requires i < |list|
    ensures SavedItems(list[i..], multiLine) ==
            CommentText(list[i].comment, "\n") + ItemText(Item(list[i].name, list[i].content), multiLine)
            + SavedItems(list[i + 1..], multiLine)
  {
    hide CommentText, ItemText;
    assert list[i..][1..] == list[i + 1..];
  }

  lemma NoItemsSaved(list: seq<Record<string>>, multiLine: bool)
    requires list == []
    ensures SavedItems(list, multiLine) == ""
  {
  }
}
