/** The store behind an INI file: adding entries, looking up values, and the sections it amounts to. */
module IniStore {
  import opened Options
  import opened IniOrder
  import opened IniLines
  import opened IniParser
  import opened IniTable

  /** `m_data`, `m_nOrder` and `m_pFileComment`; keys are single and values may have several lines if `multiLine`. */
  datatype Store = Store(data: Table<Table<string>>, order: int, fileComment: Option<string>, multiLine: bool)

  ghost predicate ValidStore(st: Store) {
    && ValidTable(st.data) && Below(st.data, st.order)
    && forall k :: k in st.data ==> ValidTable(st.data[k].content) && Below(st.data[k].content, st.order)
  }

  /** The section of an entry is created if it is not there. */
  function WithSection(st: Store, name: string, comment: Option<string>): Store {
    if Folded(name) in st.data then st
    else st.(order := st.order + 1, data := st.data[Folded(name) := Record(name, comment, st.order + 1, map[])])
  }

  /** A key keeps its name, comment and place when its value is replaced. */
  function WithValue(keys: Table<string>, item: Item, comment: Option<string>, order: int): Table<string> {
    var k := Folded(item.key);
    keys[k := if k in keys then keys[k].(content := item.value) else Record(item.key, comment, order, item.value)]
  }

  /** The item of an entry is put into its section. */
  function WithItem(s: Store, section: string, item: Item, comment: Option<string>): Store
    requires Folded(section) in s.data
  {
    var r := s.data[Folded(section)];
    s.(order := s.order + 1,
       data := s.data[Folded(section) := r.(content := WithValue(r.content, item, comment, s.order + 1))])
  }

  /** `AddEntry` */
  function Added(st: Store, e: Entry): Store {
    var s := WithSection(st, e.section, SectionComment(e));
    match e.item
    case None => s
    case Some(item) => WithItem(s, e.section, item, e.comment)
  }

  function AddedAll(st: Store, entries: seq<Entry>): Store
    decreases |entries|
  {
    if entries == [] then st else AddedAll(Added(st, entries[0]), entries[1..])
  }

  /** `GetValue` */
  function Value(st: Store, section: string, key: string): Option<string> {
    if Folded(section) !in st.data then None
    else
      var keys := st.data[Folded(section)].content;
      if Folded(key) !in keys then None else Some(keys[Folded(key)].content)
  }

  function Empty(multiLine: bool): Store {
    Store(map[], 0, None, multiLine)
  }

  // ----- Looking up what was added -----

  /** An entry that gives a key a value, under whatever spelling of its names. */
  predicate Gives(e: Entry, section: string, key: string) {
    e.item.Some? && Folded(e.section) == Folded(section) && Folded(e.item.value.key) == Folded(key)
  }

  /** An entry gives its own key its value, and leaves the value of every other key. */
  lemma AddedValue(st: Store, e: Entry, section: string, key: string)
    ensures Value(Added(st, e), section, key) ==
            if Gives(e, section, key) then Some(e.item.value.value) else Value(st, section, key)
  {
    hide Folded;
  }

  /** After any list of entries, a key has the value that the last of them gave it. */
  lemma {:induction false} LastValueCounts(st: Store, entries: seq<Entry>, section: string, key: string)
    ensures (forall i :: 0 <= i < |entries| ==> !Gives(entries[i], section, key)) ==>
              Value(AddedAll(st, entries), section, key) == Value(st, section, key)
    ensures forall i :: 0 <= i < |entries| && Gives(entries[i], section, key)
                        && (forall j :: i < j < |entries| ==> !Gives(entries[j], section, key)) ==>
                        Value(AddedAll(st, entries), section, key) == Some(entries[i].item.value.value)
    decreases |entries|
  {
    hide Folded, Value, Added;
    if entries != [] {
      AddedValue(st, entries[0], section, key);
      LastValueCounts(Added(st, entries[0]), entries[1..], section, key);
      forall i | 0 <= i < |entries| && Gives(entries[i], section, key)
                 && (forall j :: i < j < |entries| ==> !Gives(entries[j], section, key))
        ensures Value(AddedAll(st, entries), section, key) == Some(entries[i].item.value.value)
      {
        if i > 0 { assert entries[1..][i - 1] == entries[i]; }
      }
    }
  }

  /** A key that is there keeps the rest of its record, and so does the record of every other key and section. */
  lemma AddedKeeps(st: Store, e: Entry, section: string, key: string)
    requires Value(st, section, key).Some?
    ensures Value(Added(st, e), section, key).Some?
    ensures var was, now := st.data[Folded(section)], Added(st, e).data[Folded(section)];
            && now == was.(content := now.content)
            && var r := was.content[Folded(key)];
               now.content[Folded(key)] == r.(content := Value(Added(st, e), section, key).value)
  {
    hide Folded;
  }

  // ----- Sections in load order -----

  function LineOf(r: Record<string>): Line {
    Line(r.name, r.content, r.comment)
  }

  ghost function ItemsOf(list: seq<Record<string>>): (items: seq<Line>)
    ensures |items| == |list| && forall i :: 0 <= i < |list| ==> items[i] == LineOf(list[i])
  {
    seq(|list|, i requires 0 <= i < |list| => LineOf(list[i]))
  }

  ghost function SectionOf(r: Record<Table<string>>): Section
    requires ValidTable(r.content)
  {
    Section(r.name, r.comment, ItemsOf(Sorted(r.content)))
  }

  ghost predicate ValidContents(list: seq<Record<Table<string>>>) {
    forall i :: 0 <= i < |list| ==> ValidTable(list[i].content)
  }

  ghost function SectionsOf(list: seq<Record<Table<string>>>): (doc: seq<Section>)
    requires ValidContents(list)
    ensures |doc| == |list| && forall i :: 0 <= i < |list| ==> doc[i] == SectionOf(list[i])
  {
    seq(|list|, i requires 0 <= i < |list| => SectionOf(list[i]))
  }

  lemma SortedContents(st: Store)
    requires ValidStore(st)
    ensures ValidContents(Sorted(st.data))
  {
    hide Sorted, Folded, ValidTable;
    var list := Sorted(st.data);
    assert forall i :: 0 <= i < |list| ==> list[i] == st.data[Folded(list[i].name)];
  }

  /** The sections and their items, in load order. */
  ghost function PlainDoc(st: Store): seq<Section>
    requires ValidStore(st)
  {
    SortedContents(st);
    SectionsOf(Sorted(st.data))
  }

  function SectionIndex(doc: seq<Section>, name: string): (i: nat)
    ensures i <= |doc| && (i < |doc| ==> Folded(doc[i].name) == Folded(name))
    ensures forall k :: 0 <= k < i ==> Folded(doc[k].name) != Folded(name)
  {
    if doc == [] || Folded(doc[0].name) == Folded(name) then 0 else 1 + SectionIndex(doc[1..], name)
  }

  function ItemIndex(items: seq<Line>, key: string): (i: nat)
    ensures i <= |items| && (i < |items| ==> Folded(items[i].key) == Folded(key))
    ensures forall k :: 0 <= k < i ==> Folded(items[k].key) != Folded(key)
  {
    if items == [] || Folded(items[0].key) == Folded(key) then 0 else 1 + ItemIndex(items[1..], key)
  }

  /** Replaces the value of a key, or appends the item. */
  function ItemsAdd(items: seq<Line>, item: Item, comment: Option<string>): seq<Line> {
    var i := ItemIndex(items, item.key);
    if i < |items| then items[i := items[i].(value := item.value)] else items + [Line(item.key, item.value, comment)]
  }

  /** The comment of the section that an entry creates. */
  function SectionComment(e: Entry): Option<string> {
    if e.item.None? then e.comment else None
  }

  /** What an entry does to the list of sections. */
  function DocAdd(doc: seq<Section>, e: Entry): seq<Section> {
    var i := SectionIndex(doc, e.section);
    var d := if i < |doc| then doc else doc + [Section(e.section, SectionComment(e), [])];
    match e.item
    case None => d
    case Some(item) => d[i := d[i].(items := ItemsAdd(d[i].items, item, e.comment))]
  }

  function DocAddAll(doc: seq<Section>, entries: seq<Entry>): seq<Section>
    decreases |entries|
  {
    if entries == [] then doc else DocAddAll(DocAdd(doc, entries[0]), entries[1..])
  }

  lemma SectionIndexIs(doc: seq<Section>, name: string, i: nat)
    requires i <= |doc| && (i < |doc| ==> Folded(doc[i].name) == Folded(name))
    requires forall k :: 0 <= k < i ==> Folded(doc[k].name) != Folded(name)
    ensures SectionIndex(doc, name) == i
  {
  }

  lemma ItemIndexIs(items: seq<Line>, key: string, i: nat)
    requires i <= |items| && (i < |items| ==> Folded(items[i].key) == Folded(key))
    requires forall k :: 0 <= k < i ==> Folded(items[k].key) != Folded(key)
    ensures ItemIndex(items, key) == i
  {
  }

  // ----- The maps refine the lists -----

  /** A record has one place in the sorted list. */
  lemma PlaceOf<T>(m: Table<T>, k: string) returns (i: nat)
    requires ValidTable(m) && k in m
    ensures i < |Sorted(m)| && Sorted(m)[i] == m[k]
    ensures forall j :: 0 <= j < |Sorted(m)| && j != i ==> Folded(Sorted(m)[j].name) != k
  {
    hide Sorted, Folded;
    var list := Sorted(m);
    assert m[k] in list;
    i :| 0 <= i < |list| && list[i] == m[k];
    forall j | 0 <= j < |list| && j != i
      ensures Folded(list[j].name) != k
    {
      assert list[j].order != list[i].order;
    }
  }

  lemma NoPlace<T>(m: Table<T>, k: string)
    requires ValidTable(m) && k !in m
    ensures forall j :: 0 <= j < |Sorted(m)| ==> Folded(Sorted(m)[j].name) != k
  {
    hide Sorted, Folded;
  }

  lemma ValueRefines(keys: Table<string>, item: Item, comment: Option<string>, order: int)
    requires ValidTable(keys) && Below(keys, order - 1)
    ensures var r := WithValue(keys, item, comment, order);
            && ValidTable(r) && Below(r, order)
            && ItemsOf(Sorted(r)) == ItemsAdd(ItemsOf(Sorted(keys)), item, comment)
  {
    hide Sorted, Folded, ItemIndex;
    var k := Folded(item.key);
    var list, items := Sorted(keys), ItemsOf(Sorted(keys));
    var r := WithValue(keys, item, comment, order);
    if k in keys {
      var i := PlaceOf(keys, k);
      ReplacedKeepsPlace(keys, keys[k].(content := item.value), i);
      ItemIndexIs(items, item.key, i);
      assert ItemsOf(list[i := keys[k].(content := item.value)]) == items[i := items[i].(value := item.value)];
    } else {
      NoPlace(keys, k);
      AddedIsLast(keys, Record(item.key, comment, order, item.value));
      ItemIndexIs(items, item.key, |items|);
      assert ItemsOf(list + [Record(item.key, comment, order, item.value)]) == items + [Line(item.key, item.value, comment)];
    }
  }

  /** The place of a section among the sections of the store. */
  lemma SectionPlace(st: Store, name: string) returns (i: nat)
    requires ValidStore(st)
    ensures i == SectionIndex(PlainDoc(st), name)
    ensures |PlainDoc(st)| == |Sorted(st.data)|
    ensures i < |PlainDoc(st)| <==> Folded(name) in st.data
    ensures i < |PlainDoc(st)| ==> Sorted(st.data)[i] == st.data[Folded(name)]
    ensures i < |PlainDoc(st)| ==> PlainDoc(st)[i] == SectionOf(st.data[Folded(name)])
  {
    SortedContents(st);
    hide Sorted, Folded, SectionIndex, SectionOf;
    var k, doc := Folded(name), PlainDoc(st);
    assert forall j :: 0 <= j < |doc| ==> doc[j].name == Sorted(st.data)[j].name by { NamesOf(st); }
    if k in st.data {
      i := PlaceOf(st.data, k);
      SectionIndexIs(doc, name, i);
    } else {
      i := |doc|;
      NoPlace(st.data, k);
      SectionIndexIs(doc, name, i);
    }
  }

  lemma NamesOf(st: Store)
    requires ValidStore(st)
    ensures |PlainDoc(st)| == |Sorted(st.data)|
    ensures forall j :: 0 <= j < |PlainDoc(st)| ==> PlainDoc(st)[j].name == Sorted(st.data)[j].name
  {
    SortedContents(st);
    hide Sorted;
  }

  lemma NewSectionRefines(st: Store, name: string, comment: Option<string>)
    requires ValidStore(st) && Folded(name) !in st.data
    ensures ValidStore(WithSection(st, name, comment))
    ensures PlainDoc(WithSection(st, name, comment)) == PlainDoc(st) + [Section(name, comment, [])]
  {
    hide Sorted, Folded;
    var r: Record<Table<string>> := Record(name, comment, st.order + 1, map[]);
    var s := WithSection(st, name, comment);
    NewSectionValid(st, r);
    SortedContents(st);
    SortedContents(s);
    hide ValidStore, ValidTable, Below;
    assert SectionOf(r) == Section(name, comment, []) by { EmptySection(r); }
    assert SectionsOf(Sorted(st.data) + [r]) == SectionsOf(Sorted(st.data)) + [SectionOf(r)];
  }

  lemma NewSectionValid(st: Store, r: Record<Table<string>>)
    requires ValidStore(st) && Folded(r.name) !in st.data && r.order == st.order + 1 && r.content == map[]
    ensures ValidStore(st.(order := st.order + 1, data := st.data[Folded(r.name) := r]))
    ensures Sorted(st.data[Folded(r.name) := r]) == Sorted(st.data) + [r]
  {
    hide Sorted, Folded;
    AddedIsLast(st.data, r);
  }

  lemma EmptySection(r: Record<Table<string>>)
    requires r.content == map[]
    ensures SectionOf(r) == Section(r.name, r.comment, [])
  {
  }

  /** Replacing the keys of a section. */
  lemma ContentRefines(st: Store, name: string, keys: Table<string>, order: int, i: nat)
    requires ValidStore(st) && Folded(name) in st.data && order >= st.order
    requires ValidTable(keys) && Below(keys, order)
    requires i < |Sorted(st.data)| && Sorted(st.data)[i] == st.data[Folded(name)]
    ensures var section := st.data[Folded(name)];
            var s := st.(order := order, data := st.data[Folded(name) := section.(content := keys)]);
            ValidStore(s) && |PlainDoc(st)| == |Sorted(st.data)|
            && PlainDoc(s) == PlainDoc(st)[i := Section(section.name, section.comment, ItemsOf(Sorted(keys)))]
  {
    hide Sorted, Folded;
    var section := st.data[Folded(name)];
    var r := section.(content := keys);
    var s := st.(order := order, data := st.data[Folded(name) := r]);
    ReplacedKeepsPlace(st.data, r, i);
    assert ValidStore(s) by { StillValid(st, Folded(name), keys, order); }
    SortedContents(st);
    SortedContents(s);
    assert SectionsOf(Sorted(st.data)[i := r]) == SectionsOf(Sorted(st.data))[i := SectionOf(r)];
  }

  lemma StillValid(st: Store, k: string, keys: Table<string>, order: int)
    requires ValidStore(st) && k in st.data && order >= st.order
    requires ValidTable(keys) && Below(keys, order)
    ensures ValidStore(st.(order := order, data := st.data[k := st.data[k].(content := keys)]))
  {
    hide Folded;
  }

  /** Adding an entry to the maps adds it to the list of sections. */
  lemma AddRefines(st: Store, e: Entry)
    requires ValidStore(st)
    ensures ValidStore(Added(st, e)) && PlainDoc(Added(st, e)) == DocAdd(PlainDoc(st), e)
  {
    hide ValidStore, PlainDoc, Sorted, Folded, SectionIndex, SectionOf, ItemsOf, WithSection, WithValue, ItemsAdd;
    var comment := SectionComment(e);
    var s := WithSection(st, e.section, comment);
    SectionThere(st, e.section, comment);
    var i := SectionPlace(s, e.section);
    if e.item.Some? {
      var section := s.data[Folded(e.section)];
      KeysValid(s, Folded(e.section));
      ValueRefines(section.content, e.item.value, e.comment, s.order + 1);
      var keys := WithValue(section.content, e.item.value, e.comment, s.order + 1);
      ContentRefines(s, e.section, keys, s.order + 1, i);
      assert SectionOf(section) == Section(section.name, section.comment, ItemsOf(Sorted(section.content))) by { SectionOfIs(section); }
    }
  }

  lemma SectionOfIs(r: Record<Table<string>>)
    requires ValidTable(r.content)
    ensures SectionOf(r) == Section(r.name, r.comment, ItemsOf(Sorted(r.content)))
  {
  }

  lemma KeysValid(st: Store, k: string)
    requires ValidStore(st) && k in st.data
    ensures ValidTable(st.data[k].content) && Below(st.data[k].content, st.order)
  {
  }

  lemma SectionThere(st: Store, name: string, comment: Option<string>)
    requires ValidStore(st)
    ensures var s := WithSection(st, name, comment);
            var doc := PlainDoc(st);
            var i := SectionIndex(doc, name);
            && ValidStore(s) && Folded(name) in s.data
            && PlainDoc(s) == (if i < |doc| then doc else doc + [Section(name, comment, [])])
            && SectionIndex(PlainDoc(s), name) == i
  {
    hide ValidStore, PlainDoc, Sorted, Folded, SectionIndex, SectionOf;
    var i := SectionPlace(st, name);
    if Folded(name) !in st.data {
      NewSectionRefines(st, name, comment);
      SectionIndexIs(PlainDoc(st) + [Section(name, comment, [])], name, i);
    }
  }

  lemma {:induction false} AddAllRefines(st: Store, entries: seq<Entry>)
    requires ValidStore(st)
    ensures ValidStore(AddedAll(st, entries))
    ensures PlainDoc(AddedAll(st, entries)) == DocAddAll(PlainDoc(st), entries)
    decreases |entries|
  {
    hide ValidStore, PlainDoc, Added, DocAdd;
    if entries != [] {
      AddRefines(st, entries[0]);
      AddAllRefines(Added(st, entries[0]), entries[1..]);
    }
  }

  /** The value of a key in a list of sections. */
  function DocValue(doc: seq<Section>, section: string, key: string): Option<string> {
    var i := SectionIndex(doc, section);
    if i == |doc| then None
    else
      var j := ItemIndex(doc[i].items, key);
      if j == |doc[i].items| then None else Some(doc[i].items[j].value)
  }

  /** Looking up in the maps is looking up in the list. */
  lemma ValueInDoc(st: Store, section: string, key: string)
    requires ValidStore(st)
    ensures Value(st, section, key) == DocValue(PlainDoc(st), section, key)
  {
    hide ValidStore, PlainDoc, Sorted, Folded, SectionIndex, ItemIndex, ItemsOf, SectionOf;
    var i := SectionPlace(st, section);
    if Folded(section) in st.data {
      KeysValid(st, Folded(section));
      SectionOfIs(st.data[Folded(section)]);
      ItemPlace(st.data[Folded(section)].content, key);
    }
  }

  lemma ItemPlace(keys: Table<string>, key: string)
    requires ValidTable(keys)
    ensures var items := ItemsOf(Sorted(keys));
            var j := ItemIndex(items, key);
            (j < |items| <==> Folded(key) in keys) && (j < |items| ==> items[j].value == keys[Folded(key)].content)
  {
    hide Sorted, Folded, ItemIndex;
    var items, k := ItemsOf(Sorted(keys)), Folded(key);
    if k in keys {
      var j := PlaceOf(keys, k);
      ItemIndexIs(items, key, j);
    } else {
      NoPlace(keys, k);
      ItemIndexIs(items, key, |items|);
    }
  }

  // ----- Sections as entries -----

  /** No two sections, and no two keys of a section, have names that differ in case only. */
  predicate Distinct(doc: seq<Section>) {
    DistinctNames(doc) && forall i :: 0 <= i < |doc| ==> DistinctKeys(doc[i].items)
  }

  predicate DistinctNames(doc: seq<Section>) {
    forall i, j :: 0 <= i < j < |doc| ==> Folded(doc[i].name) != Folded(doc[j].name)
  }

  predicate DistinctKeys(items: seq<Line>) {
    forall i, j :: 0 <= i < j < |items| ==> Folded(items[i].key) != Folded(items[j].key)
  }

  lemma AppendSection(doc: seq<Section>, name: string, comment: Option<string>)
    requires SectionIndex(doc, name) == |doc|
    ensures DocAdd(doc, Entry(name, comment, None)) == doc + [Section(name, comment, [])]
  {
    hide SectionIndex;
  }

  lemma AppendItem(done: seq<Section>, section: Section, line: Line)
    requires SectionIndex(done, section.name) == |done|
    requires ItemIndex(section.items, line.key) == |section.items|
    ensures DocAdd(done + [section], Entry(section.name, line.comment, Some(Bare(line)))) ==
            done + [section.(items := section.items + [line])]
  {
    hide SectionIndex, ItemIndex, Folded;
    var doc := done + [section];
    SectionIndexIs(doc, section.name, |done|);
    Replaced(done, section, section.(items := section.items + [line]));
  }

  lemma Replaced(done: seq<Section>, was: Section, section: Section)
    ensures (done + [was])[|done|] == was && (done + [was])[|done| := section] == done + [section]
  {
  }

  lemma FirstItem(done: seq<Section>, name: string, line: Line)
    requires SectionIndex(done, name) == |done|
    ensures DocAdd(done, Entry(name, line.comment, Some(Bare(line)))) == done + [Section(name, None, [line])]
  {
    hide SectionIndex, ItemIndex, Folded;
    NoItems(line.key);
    assert [] + [line] == [line];
    Replaced(done, Section(name, None, []), Section(name, None, [line]));
  }

  lemma {:induction false} ItemsAdded(done: seq<Section>, section: Section, rest: seq<Line>)
    requires SectionIndex(done, section.name) == |done|
    requires DistinctKeys(section.items + rest)
    ensures DocAddAll(done + [section], ItemEntries(section.name, rest)) == done + [section.(items := section.items + rest)]
    decreases |rest|
  {
    hide SectionIndex, ItemIndex, DocAdd, Folded;
    if rest == [] {
      assert section.items + rest == section.items;
    } else {
      var all := section.items + rest;
      assert all[|section.items|] == rest[0];
      assert forall k :: 0 <= k < |section.items| ==> all[k] == section.items[k];
      ItemIndexIs(section.items, rest[0].key, |section.items|);
      AppendItem(done, section, rest[0]);
      assert section.items + [rest[0]] + rest[1..] == all;
      ItemsAdded(done, section.(items := section.items + [rest[0]]), rest[1..]);
    }
  }

  lemma {:induction false} AddAllAppend(doc: seq<Section>, a: seq<Entry>, b: seq<Entry>)
    ensures DocAddAll(doc, a + b) == DocAddAll(DocAddAll(doc, a), b)
    decreases |a|
  {
    hide DocAdd;
    if a == [] {
      assert a + b == b;
    } else {
      AddAllAppend(DocAdd(doc, a[0]), a[1..], b);
      assert (a + b)[1..] == a[1..] + b;
    }
  }

  lemma {:induction false} SectionAdded(done: seq<Section>, section: Section)
    requires SectionIndex(done, section.name) == |done| && DistinctKeys(section.items)
    requires section.name == "" ==> section.items != [] && section.comment == None
    ensures DocAddAll(done, SectionEntries(section)) == done + [section]
  {
    hide DocAddAll, SectionIndex, DistinctKeys, ItemEntries;
    if section.name == "" {
      UnnamedAdded(done, section.items);
      assert SectionEntries(section) == ItemEntries("", section.items);
    } else {
      NamedAdded(done, section);
    }
  }

  lemma {:induction false} UnnamedAdded(done: seq<Section>, items: seq<Line>)
    requires SectionIndex(done, "") == |done| && DistinctKeys(items) && items != []
    ensures DocAddAll(done, ItemEntries("", items)) == done + [Section("", None, items)]
  {
    EntriesOfItems("", items);
    hide *;
    FirstItem(done, "", items[0]);
    assert [items[0]] + items[1..] == items;
    ItemsAdded(done, Section("", None, [items[0]]), items[1..]);
    AddAllStep(done, ItemEntries("", items));
  }

  lemma EntriesOfItems(name: string, items: seq<Line>)
    requires items != []
    ensures var entries := ItemEntries(name, items);
            entries != [] && entries[0] == Entry(name, items[0].comment, Some(Bare(items[0])))
            && entries[1..] == ItemEntries(name, items[1..])
  {
  }

  lemma {:induction false} NamedAdded(done: seq<Section>, section: Section)
    requires SectionIndex(done, section.name) == |done| && DistinctKeys(section.items)
    ensures DocAddAll(done, [Entry(section.name, section.comment, None)] + ItemEntries(section.name, section.items)) ==
            done + [section]
  {
    hide *;
    var entries := [Entry(section.name, section.comment, None)] + ItemEntries(section.name, section.items);
    AppendSection(done, section.name, section.comment);
    var first := Section(section.name, section.comment, []);
    assert [] + section.items == section.items;
    ItemsAdded(done, first, section.items);
    AddAllStep(done, entries);
    assert entries[1..] == ItemEntries(section.name, section.items);
  }

  lemma NoItems(key: string)
    ensures ItemIndex([], key) == 0
  {
  }

  lemma AddAllStep(doc: seq<Section>, entries: seq<Entry>)
    requires entries != []
    ensures DocAddAll(doc, entries) == DocAddAll(DocAdd(doc, entries[0]), entries[1..])
  {
  }

  /** Adding the entries of distinct sections one by one builds those sections. */
  lemma {:induction false} DocBuilt(done: seq<Section>, doc: seq<Section>)
    requires Distinct(done + doc)
    requires forall i :: 0 <= i < |doc| && doc[i].name == "" ==> doc[i].items != [] && doc[i].comment == None
    ensures DocAddAll(done, DocEntries(doc)) == done + doc
    decreases |doc|
  {
    hide SectionIndex, DocAdd, Folded, DistinctKeys, SectionEntries;
    if doc == [] {
      assert done + doc == done;
    } else {
      var all := done + doc;
      assert all[|done|] == doc[0];
      assert forall k :: 0 <= k < |done| ==> all[k] == done[k];
      SectionIndexIs(done, doc[0].name, |done|);
      SectionAdded(done, doc[0]);
      AddAllAppend(done, SectionEntries(doc[0]), DocEntries(doc[1..]));
      assert done + [doc[0]] + doc[1..] == all;
      DocBuilt(done + [doc[0]], doc[1..]);
    }
  }

  /** The sections of a store are distinct. */
  lemma DocIsDistinct(st: Store)
    requires ValidStore(st)
    ensures Distinct(PlainDoc(st))
  {
    NamesDistinct(st);
    SortedContents(st);
    hide Sorted, ItemsOf, ValidStore, ValidTable, DistinctKeys, DistinctNames, SectionOf;
    var list, doc := Sorted(st.data), PlainDoc(st);
    forall i | 0 <= i < |doc|
      ensures DistinctKeys(doc[i].items)
    {
      assert doc[i] == SectionOf(list[i]);
      SectionOfIs(list[i]);
      KeysDistinct(list[i].content);
    }
  }

  lemma NamesDistinct(st: Store)
    requires ValidStore(st)
    ensures DistinctNames(PlainDoc(st))
  {
    NamesOf(st);
    ValidParts(st);
    hide Sorted, Folded, PlainDoc, ValidStore, ValidTable;
    NamesDiffer(st.data);
  }

  lemma ValidParts(st: Store)
    requires ValidStore(st)
    ensures ValidTable(st.data)
  {
  }

  lemma NamesDiffer<T>(m: Table<T>)
    requires ValidTable(m)
    ensures forall i, j :: 0 <= i < j < |Sorted(m)| ==> Folded(Sorted(m)[i].name) != Folded(Sorted(m)[j].name)
  {
    hide Sorted, Folded;
    var list := Sorted(m);
    forall i, j | 0 <= i < j < |list|
      ensures Folded(list[i].name) != Folded(list[j].name)
    {
      assert list[i].order < list[j].order;
    }
  }

  lemma KeysDistinct(keys: Table<string>)
    requires ValidTable(keys)
    ensures DistinctKeys(ItemsOf(Sorted(keys)))
  {
    NamesDiffer(keys);
    hide Sorted, Folded;
  }
}
