/** The ordered maps of the INI store: records found by name regardless of case, and listed in load order. */
module IniTable {
  import opened Options
  import opened IniOrder

  /** `Entry` with the value it maps to: a name, a comment, and the position in load order. */
  datatype Record<T> = Record(name: string, comment: Option<string>, order: int, content: T)

  /** A map whose keys are ordered by `SI_GenericNoCase`: two names are the same key when they fold to the same. */
  type Table<T> = map<string, Record<T>>

  ghost predicate ValidTable<T>(m: Table<T>) {
    && (forall k :: k in m ==> Folded(m[k].name) == k)
    && (forall j, k :: j in m && k in m && j != k ==> m[j].order != m[k].order)
  }

  ghost predicate Below<T>(m: Table<T>, order: int) {
    forall k :: k in m ==> m[k].order <= order
  }

  ghost predicate Increasing<T>(list: seq<Record<T>>) {
    forall i, j :: 0 <= i < j < |list| ==> list[i].order < list[j].order
  }

  /** A list of exactly the records of a table. */
  ghost predicate Lists<T>(m: Table<T>, list: seq<Record<T>>) {
    && (forall i :: 0 <= i < |list| ==> Folded(list[i].name) in m && m[Folded(list[i].name)] == list[i])
    && (forall k :: k in m ==> m[k] in list)
  }

  /** The records in load order. */
  ghost function Sorted<T>(m: Table<T>): (list: seq<Record<T>>)
    requires ValidTable(m)
    ensures Increasing(list) && Lists(m, list)
    decreases |m|
  {
    if m == map[] then []
    else
      var k := Latest(m);
      assert |m - {k}| < |m| by { Fewer(m, k); }
      assert ValidTable(m - {k});
      var rest := Sorted(m - {k});
      assert Increasing(rest + [m[k]]) && Lists(m, rest + [m[k]]) by { AddLast(m, k, rest); }
      rest + [m[k]]
  }

  lemma AddLast<T>(m: Table<T>, k: string, rest: seq<Record<T>>)
    requires ValidTable(m) && k in m && Below(m, m[k].order)
    requires Increasing(rest) && Lists(m - {k}, rest)
    ensures Increasing(rest + [m[k]]) && Lists(m, rest + [m[k]])
  {
    hide Folded;
    var n, list := m - {k}, rest + [m[k]];
    forall i | 0 <= i < |rest|
      ensures rest[i].order < m[k].order
    {
      var j := Folded(rest[i].name);
      assert j in n && n[j] == rest[i] && m[j] == rest[i] && j != k;
    }
    forall j | j in m
      ensures m[j] in list
    {
      if j == k {
        assert list[|rest|] == m[k];
      } else {
        assert n[j] in rest;
        var i :| 0 <= i < |rest| && rest[i] == n[j];
        assert list[i] == m[j];
      }
    }
  }

  /** The name of the record that was loaded last. */
  ghost function Latest<T>(m: Table<T>): (k: string)
    requires m != map[]
    ensures k in m && Below(m, m[k].order)
    decreases |m|
  {
    var k :| k in m;
    var rest := m - {k};
    assert forall j :: j in m ==> j == k || j in rest;
    if rest == map[] then k
    else
      assert |rest| < |m| by { Fewer(m, k); }
      var l := Latest(rest);
      if m[l].order > m[k].order then l else k
  }

  lemma Fewer<T>(m: Table<T>, k: string)
    requires k in m
    ensures |m - {k}| < |m|
  {
    assert (m - {k}).Keys == m.Keys - {k};
    assert |m.Keys - {k}| < |m.Keys|;
  }

  /** A table has only one list in load order. */
  lemma {:induction false} OneOrder<T>(m: Table<T>, a: seq<Record<T>>, b: seq<Record<T>>)
    requires ValidTable(m)
    requires Increasing(a) && Lists(m, a) && Increasing(b) && Lists(m, b)
    ensures a == b
    decreases |a|
  {
    hide Folded;
    if a == [] {
      if b != [] { NotEmpty(m, b); }
      assert forall k :: k in m ==> m[k] in a;
    } else {
      var k := Folded(a[|a| - 1].name);
      assert m[k] in b;
      assert b != [];
      SameLast(m, a, b);
      ListsRest(m, a);
      ListsRest(m, b);
      OneOrder(m - {k}, a[..|a| - 1], b[..|b| - 1]);
    }
  }

  lemma NotEmpty<T>(m: Table<T>, b: seq<Record<T>>)
    requires Lists(m, b) && b != []
    ensures m != map[]
  {
    assert Folded(b[0].name) in m;
  }

  lemma SameLast<T>(m: Table<T>, a: seq<Record<T>>, b: seq<Record<T>>)
    requires Increasing(a) && Lists(m, a) && Increasing(b) && Lists(m, b)
    requires a != [] && b != []
    ensures a[|a| - 1] == b[|b| - 1]
  {
    hide Folded;
    var x, y := a[|a| - 1], b[|b| - 1];
    assert m[Folded(x.name)] in b && m[Folded(y.name)] in a;
    var i :| 0 <= i < |b| && b[i] == x;
    var j :| 0 <= j < |a| && a[j] == y;
  }

  lemma ListsRest<T>(m: Table<T>, a: seq<Record<T>>)
    requires ValidTable(m)
    requires Increasing(a) && Lists(m, a) && a != []
    ensures var k := Folded(a[|a| - 1].name);
            Increasing(a[..|a| - 1]) && Lists(m - {k}, a[..|a| - 1])
  {
    hide Folded;
    var n := |a| - 1;
    var k, rest := Folded(a[n].name), a[..n];
    forall i | 0 <= i < n
      ensures Folded(rest[i].name) != k
    {
      assert a[i].order < a[n].order;
    }
    OthersListed(m, a);
  }

  lemma OthersListed<T>(m: Table<T>, a: seq<Record<T>>)
    requires ValidTable(m) && Lists(m, a) && a != []
    ensures forall j :: j in m && j != Folded(a[|a| - 1].name) ==> m[j] in a[..|a| - 1]
  {
    hide Folded;
    var n := |a| - 1;
    forall j | j in m && j != Folded(a[n].name)
      ensures m[j] in a[..n]
    {
      assert m[j] in a;
      var i :| 0 <= i < |a| && a[i] == m[j];
      assert Folded(a[i].name) == j;
      assert a[..n][i] == m[j];
    }
  }

  // ----- What adding does to the order -----

  lemma AddedIsLast<T>(m: Table<T>, r: Record<T>)
    requires ValidTable(m) && Folded(r.name) !in m && Below(m, r.order - 1)
    ensures ValidTable(m[Folded(r.name) := r])
    ensures Sorted(m[Folded(r.name) := r]) == Sorted(m) + [r]
  {
    hide Folded, Sorted;
    var k := Folded(r.name);
    var n, list := m[k := r], Sorted(m) + [r];
    assert ValidTable(n);
    assert n - {k} == m;
    AddLast(n, k, Sorted(m));
    OneOrder(n, Sorted(n), list);
  }

  lemma ReplacedKeepsPlace<T>(m: Table<T>, r: Record<T>, i: nat)
    requires ValidTable(m) && Folded(r.name) in m
    requires m[Folded(r.name)].name == r.name && m[Folded(r.name)].order == r.order
    requires i < |Sorted(m)| && Sorted(m)[i] == m[Folded(r.name)]
    ensures ValidTable(m[Folded(r.name) := r])
    ensures Sorted(m[Folded(r.name) := r]) == Sorted(m)[i := r]
  {
    hide Folded, Sorted;
    var k := Folded(r.name);
    var n, list := m[k := r], Sorted(m)[i := r];
    assert ValidTable(n);
    ReplacedLists(m, Sorted(m), r, i);
    OneOrder(n, Sorted(n), list);
  }

  lemma ReplacedLists<T>(m: Table<T>, list: seq<Record<T>>, r: Record<T>, i: nat)
    requires ValidTable(m) && Increasing(list) && Lists(m, list)
    requires i < |list| && Folded(r.name) in m && list[i] == m[Folded(r.name)]
    requires list[i].name == r.name && list[i].order == r.order
    ensures Increasing(list[i := r]) && Lists(m[Folded(r.name) := r], list[i := r])
  {
    hide Folded;
    var k, n, placed := Folded(r.name), m[Folded(r.name) := r], list[i := r];
    forall j | 0 <= j < |placed|
      ensures Folded(placed[j].name) in n && n[Folded(placed[j].name)] == placed[j]
    {
      if j != i { assert list[j].order != list[i].order; }
    }
    forall j | j in n
      ensures n[j] in placed
    {
      if j == k {
        assert placed[i] == r;
      } else {
        assert m[j] in list;
        var p :| 0 <= p < |list| && list[p] == m[j];
        assert p != i;
        assert placed[p] == m[j];
      }
    }
  }

  // ----- Listing -----

  /** All records of a table, sorted by load order. */
  method InLoadOrder<T>(m: Table<T>) returns (list: seq<Record<T>>)
    requires ValidTable(m)
    ensures list == Sorted(m)
  {
    hide Folded, Sorted;
    list := [];
    var keys := m.Keys;
    ghost var done: Table<T> := map[];
    while keys != {}
      invariant keys <= m.Keys && done == m - keys
      invariant Increasing(list) && Lists(done, list)
      decreases |keys|
    {
      var k :| k in keys;
      var i := Place(m, list, k);
      Inserted(m, done, list, k, i);
      list := list[..i] + [m[k]] + list[i..];
      keys := keys - {k};
      assert done[k := m[k]] == m - keys;
      done := done[k := m[k]];
    }
    assert done == m;
    OneOrder(m, list, Sorted(m));
  }

  /** Where a record belongs in a sorted list. */
  method Place<T>(m: Table<T>, list: seq<Record<T>>, k: string) returns (i: nat)
    requires Increasing(list) && k in m
    ensures i <= |list|
    ensures forall j :: 0 <= j < i ==> list[j].order < m[k].order
    ensures forall j :: i <= j < |list| ==> list[j].order >= m[k].order
  {
    i := 0;
    while i < |list| && list[i].order < m[k].order
      invariant i <= |list|
      invariant forall j :: 0 <= j < i ==> list[j].order < m[k].order
    {
      i := i + 1;
    }
  }

  lemma Inserted<T>(m: Table<T>, done: Table<T>, list: seq<Record<T>>, k: string, i: nat)
    requires ValidTable(m) && k in m && k !in done
    requires forall j :: j in done ==> j in m && done[j] == m[j]
    requires Increasing(list) && Lists(done, list)
    requires i <= |list|
    requires forall j :: 0 <= j < i ==> list[j].order < m[k].order
    requires forall j :: i <= j < |list| ==> list[j].order >= m[k].order
    ensures Increasing(list[..i] + [m[k]] + list[i..])
    ensures Lists(done[k := m[k]], list[..i] + [m[k]] + list[i..])
  {
    hide Folded;
    forall j | 0 <= j < |list|
      ensures list[j].order != m[k].order
    {
      var other := Folded(list[j].name);
      assert other in done && m[other] == list[j];
    }
    InsertedIncreasing(list, m[k], i);
    InsertedLists(done, list, m[k], i);
  }

  lemma InsertedIncreasing<T>(list: seq<Record<T>>, r: Record<T>, i: nat)
    requires Increasing(list) && i <= |list|
    requires forall j :: 0 <= j < i ==> list[j].order < r.order
    requires forall j :: i <= j < |list| ==> list[j].order > r.order
    ensures Increasing(list[..i] + [r] + list[i..])
  {
  }

  lemma InsertedLists<T>(done: Table<T>, list: seq<Record<T>>, r: Record<T>, i: nat)
    requires Lists(done, list) && i <= |list| && Folded(r.name) !in done
    ensures Lists(done[Folded(r.name) := r], list[..i] + [r] + list[i..])
  {
    hide Folded;
    var longer, more := list[..i] + [r] + list[i..], done[Folded(r.name) := r];
    forall j | 0 <= j < |longer|
      ensures Folded(longer[j].name) in more && more[Folded(longer[j].name)] == longer[j]
    {
      if j != i { assert longer[j] == list[if j < i then j else j - 1]; }
    }
    forall j | j in more
      ensures more[j] in longer
    {
      if j == Folded(r.name) {
        assert longer[i] == r;
      } else {
        assert done[j] in list;
        var p :| 0 <= p < |list| && list[p] == done[j];
        assert longer[if p < i then p else p + 1] == done[j];
      }
    }
  }
}
