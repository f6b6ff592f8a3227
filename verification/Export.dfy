/** The deterministic order of exported tables and rows. */
module Export {
  import opened Options
  import opened Text
  import opened StableSort

  /** The order of Rust strings: by code point, from the left. */
  predicate StringLeq(a: string, b: string) {
    a == "" || (b != "" && (a[0] < b[0] || (a[0] == b[0] && StringLeq(a[1..], b[1..]))))
  }

  lemma {:induction false} StringLeqIsTotal(a: string, b: string)
    ensures StringLeq(a, b) || StringLeq(b, a)
    ensures StringLeq(a, b) && StringLeq(b, a) ==> a == b
  {
    if a != "" && b != "" {
      StringLeqIsTotal(a[1..], b[1..]);
      assert a == [a[0]] + a[1..] && b == [b[0]] + b[1..];
    }
  }

  lemma {:induction false} StringLeqIsTransitive(a: string, b: string, c: string)
    requires StringLeq(a, b) && StringLeq(b, c)
    ensures StringLeq(a, c)
  {
    if a != "" && a[0] == b[0] && b[0] == c[0] {
      StringLeqIsTransitive(a[1..], b[1..], c[1..]);
    }
  }

  ghost predicate DiffersAt(a: string, b: string, i: int) {
    0 <= i < |a| && i < |b| && a[..i] == b[..i] && a[i] != b[i]
  }

  /** The first place where two strings differ, or else the end of the first one, decides. */
  lemma {:induction false} StringLeqIff(a: string, b: string)
    ensures StringLeq(a, b) <==> a <= b || exists i :: DiffersAt(a, b, i) && a[i] < b[i]
  {
    if a != "" && b != "" {
      var restA, restB := a[1..], b[1..];
      if a[0] == b[0] {
        StringLeqIff(restA, restB);
        assert a == [a[0]] + restA && b == [a[0]] + restB;
        if i :| DiffersAt(restA, restB, i) && restA[i] < restB[i] {
          DiffersLater(a[0], restA, restB, i);
        }
        if i :| DiffersAt(a, b, i) && a[i] < b[i] {
          DiffersLater(a[0], restA, restB, i - 1);
        }
      } else {
        assert DiffersAt(a, b, 0);
        assert forall i :: DiffersAt(a, b, i) && i > 0 ==> a[..i][0] == b[..i][0];
      }
    }
  }

  lemma DiffersLater(c: char, a: string, b: string, i: int)
    ensures DiffersAt([c] + a, [c] + b, i + 1) <==> DiffersAt(a, b, i)
  {
    if 0 <= i < |a| && i < |b| {
      assert ([c] + a)[..i + 1] == [c] + a[..i] && ([c] + b)[..i + 1] == [c] + b[..i];
      assert a[..i] == ([c] + a[..i])[1..] && b[..i] == ([c] + b[..i])[1..];
    }
  }

  /** An exported row: its `id` when that is a string, and the rest. */
  datatype Row = Row(id: Option<string>, rest: string)

  /** The sort key: rows with an id by id, then the rows without one. */
  predicate RowLeq(a: Row, b: Row) {
    match (a.id, b.id)
    case (Some(x), Some(y)) => StringLeq(x, y)
    case (Some(_), None) => true
    case (None, Some(_)) => false
    case (None, None) => true
  }

  lemma RowLeqIsPreorder()
    ensures TotalPreorder(RowLeq)
  {
    forall a, b ensures RowLeq(a, b) || RowLeq(b, a) {
      if a.id.Some? && b.id.Some? {
        StringLeqIsTotal(a.id.value, b.id.value);
      }
    }
    forall a, b, c | RowLeq(a, b) && RowLeq(b, c) ensures RowLeq(a, c) {
      if a.id.Some? && b.id.Some? && c.id.Some? {
        StringLeqIsTransitive(a.id.value, b.id.value, c.id.value);
      }
    }
  }

  lemma StringLeqIsPreorder()
    ensures TotalPreorder(StringLeq)
  {
    forall a, b ensures StringLeq(a, b) || StringLeq(b, a) {
      StringLeqIsTotal(a, b);
    }
    forall a, b, c | StringLeq(a, b) && StringLeq(b, c) ensures StringLeq(a, c) {
      StringLeqIsTransitive(a, b, c);
    }
  }

  method SortRows(rows: array<Row>)
    modifies rows
    ensures IsStableSort(RowLeq, old(rows[..]), rows[..])
    ensures multiset(rows[..]) == multiset(old(rows[..]))
  {
    var sorted := Sort(RowLeq, rows[..]);
    RowLeqIsPreorder();
    SortIsStable(RowLeq, rows[..]);
    forall k | 0 <= k < rows.Length {
      rows[k] := sorted[k];
    }
    assert rows[..] == sorted;
  }

  function WithoutId(rows: seq<Row>): seq<Row> {
    if rows == [] then [] else (if rows[0].id.None? then [rows[0]] else []) + WithoutId(rows[1..])
  }

  lemma {:induction false} TiesWithoutId(rows: seq<Row>)
    ensures Ties(RowLeq, rows, Row(None, "")) == WithoutId(rows)
  {
    if rows != [] {
      TiesWithoutId(rows[1..]);
    }
  }

  /** Rows with an id come in the order of their ids, rows without one last and in their original order. */
  lemma RowsWithoutIdComeLast(rows: seq<Row>, sorted: seq<Row>)
    requires IsStableSort(RowLeq, rows, sorted)
    ensures forall i, j :: 0 <= i < j < |sorted| && sorted[i].id.Some? && sorted[j].id.Some? ==>
      StringLeq(sorted[i].id.value, sorted[j].id.value)
    ensures WithoutId(sorted) == WithoutId(rows)
    ensures forall i, j :: 0 <= i < j < |sorted| && sorted[i].id.None? ==> sorted[j].id.None?
  {
    TiesWithoutId(rows);
    TiesWithoutId(sorted);
    assert forall i, j :: 0 <= i < j < |sorted| ==> RowLeq(sorted[i], sorted[j]);
  }

  /** Rows with pairwise different ids are exported in the same order however the database yields them. */
  lemma ExportIsDeterministic(a: seq<Row>, sortedA: seq<Row>, b: seq<Row>, sortedB: seq<Row>)
    requires IsStableSort(RowLeq, a, sortedA) && IsStableSort(RowLeq, b, sortedB)
    requires multiset(a) == multiset(b)
    requires forall x, y :: x in a && y in a && x.id == y.id ==> x == y
    requires forall x :: x in a ==> x.id.Some?
    ensures sortedA == sortedB
  {
    RowLeqIsPreorder();
    StableSortPermutes(RowLeq, a, sortedA);
    StableSortPermutes(RowLeq, b, sortedB);
    forall x, y | x in sortedA && y in sortedA && RowLeq(x, y) && RowLeq(y, x) ensures x == y {
      assert x in multiset(sortedA) && y in multiset(sortedA);
      assert x in a && y in a;
      StringLeqIsTotal(x.id.value, y.id.value);
    }
    SortIgnoresInputOrder(RowLeq, sortedA, sortedB);
  }

  /** Public tables only, in alphabetical order. */
  function Public(names: seq<string>): seq<string> {
    if names == [] then []
    else (if StartsWith(names[0], "_") then [] else [names[0]]) + Public(names[1..])
  }

  /** `tables` is in order and has exactly the public names of `names`, as often as they occur. */
  ghost predicate ListsPublic(names: seq<string>, tables: seq<string>) {
    && Sorted(StringLeq, tables)
    && forall name :: multiset(tables)[name] == if StartsWith(name, "_") then 0 else multiset(names)[name]
  }

  method ListTablesFilter(names: seq<string>) returns (tables: seq<string>)
    ensures ListsPublic(names, tables)
  {
    tables := Public(names);
    StringLeqIsPreorder();
    SortIsStable(StringLeq, tables);
    forall name ensures multiset(tables)[name] == if StartsWith(name, "_") then 0 else multiset(names)[name] {
      PublicCount(names, name);
    }
    tables := Sort(StringLeq, tables);
  }

  lemma {:induction false} PublicCount(names: seq<string>, name: string)
    ensures multiset(Public(names))[name] == if StartsWith(name, "_") then 0 else multiset(names)[name]
  {
    if names != [] {
      PublicCount(names[1..], name);
      assert names == [names[0]] + names[1..];
      var head := if StartsWith(names[0], "_") then [] else [names[0]];
      assert multiset(Public(names)) == multiset(head) + multiset(Public(names[1..]));
    }
  }

  /** The table list does not depend on the order the database reports them in. */
  lemma TableListIsDeterministic(a: seq<string>, tablesA: seq<string>, b: seq<string>, tablesB: seq<string>)
    requires ListsPublic(a, tablesA) && ListsPublic(b, tablesB)
    requires multiset(a) == multiset(b)
    ensures tablesA == tablesB
  {
    assert multiset(tablesA) == multiset(tablesB);
    StringLeqIsPreorder();
    forall x, y | StringLeq(x, y) && StringLeq(y, x) ensures x == y {
      StringLeqIsTotal(x, y);
    }
    SortIgnoresInputOrder(StringLeq, tablesA, tablesB);
  }
}
