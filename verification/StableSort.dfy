/**
 * The stable sort of Rust's standard library (`sort`, `sort_by`, `sort_by_key`):
 * what it returns, and that stability and order determine it completely.
 */
module StableSort {
  ghost predicate TotalPreorder<T(!new)>(leq: (T, T) -> bool) {
    && (forall x, y :: leq(x, y) || leq(y, x))
    && (forall x, y, z :: leq(x, y) && leq(y, z) ==> leq(x, z))
  }

  ghost predicate Sorted<T>(leq: (T, T) -> bool, s: seq<T>) {
    forall i, j :: 0 <= i < j < |s| ==> leq(s[i], s[j])
  }

  /** The elements that compare equal to `x`, in order of appearance. */
  function Ties<T>(leq: (T, T) -> bool, s: seq<T>, x: T): seq<T> {
    if s == [] then []
    else (if leq(x, s[0]) && leq(s[0], x) then [s[0]] else []) + Ties(leq, s[1..], x)
  }

  /** `r` is ordered and lists equal elements in the order `s` lists them. */
  ghost predicate IsStableSort<T(!new)>(leq: (T, T) -> bool, s: seq<T>, r: seq<T>) {
    Sorted(leq, r) && forall x :: Ties(leq, r, x) == Ties(leq, s, x)
  }

  function Insert<T>(leq: (T, T) -> bool, x: T, s: seq<T>): seq<T> {
    if s == [] || leq(x, s[0]) then [x] + s else [s[0]] + Insert(leq, x, s[1..])
  }

  function Sort<T>(leq: (T, T) -> bool, s: seq<T>): seq<T> {
    if s == [] then [] else Insert(leq, s[0], Sort(leq, s[1..]))
  }

  lemma {:induction false} InsertAdds<T>(leq: (T, T) -> bool, x: T, s: seq<T>)
    ensures multiset(Insert(leq, x, s)) == multiset(s) + multiset{x}
  {
    if s != [] && !leq(x, s[0]) {
      InsertAdds(leq, x, s[1..]);
      assert s == [s[0]] + s[1..];
    }
  }

  lemma {:induction false} InsertKeepsOrder<T(!new)>(leq: (T, T) -> bool, x: T, s: seq<T>)
    requires TotalPreorder(leq) && Sorted(leq, s)
    ensures Sorted(leq, Insert(leq, x, s))
  {
    if s != [] && !leq(x, s[0]) {
      var rest := Insert(leq, x, s[1..]);
      InsertKeepsOrder(leq, x, s[1..]);
      InsertAdds(leq, x, s[1..]);
      forall j | 0 <= j < |rest| ensures leq(s[0], rest[j]) {
        assert rest[j] in multiset(rest);
        if rest[j] != x {
          assert rest[j] in s[1..];
        }
      }
    }
  }

  lemma {:induction false} InsertKeepsTies<T(!new)>(leq: (T, T) -> bool, x: T, s: seq<T>, y: T)
    requires TotalPreorder(leq)
    ensures Ties(leq, Insert(leq, x, s), y) == Ties(leq, [x] + s, y)
  {
    assert ([x] + s)[1..] == s;
    if s != [] && !leq(x, s[0]) {
      InsertKeepsTies(leq, x, s[1..], y);
      var rest := Insert(leq, x, s[1..]);
      assert ([x] + s[1..])[1..] == s[1..] && ([s[0]] + rest)[1..] == rest;
      var head := s[0];
      assert leq(x, y) && leq(y, head) ==> leq(x, head);
    }
  }

  lemma {:induction false} SortIsStable<T(!new)>(leq: (T, T) -> bool, s: seq<T>)
    requires TotalPreorder(leq)
    ensures IsStableSort(leq, s, Sort(leq, s))
    ensures multiset(Sort(leq, s)) == multiset(s)
    ensures |Sort(leq, s)| == |s|
  {
    if s != [] {
      var rest := Sort(leq, s[1..]);
      SortIsStable(leq, s[1..]);
      InsertKeepsOrder(leq, s[0], rest);
      InsertAdds(leq, s[0], rest);
      assert s == [s[0]] + s[1..];
      assert |multiset(Sort(leq, s))| == |multiset(s)|;
      forall y ensures Ties(leq, Sort(leq, s), y) == Ties(leq, s, y) {
        InsertKeepsTies(leq, s[0], rest, y);
        assert ([s[0]] + rest)[1..] == rest;
      }
    }
  }

  lemma {:induction false} TiesMembers<T(!new)>(leq: (T, T) -> bool, s: seq<T>, x: T)
    ensures Ties(leq, s, x) != [] ==> exists k :: 0 <= k < |s| && leq(x, s[k]) && leq(s[k], x)
  {
    if s != [] {
      TiesMembers(leq, s[1..], x);
      if Ties(leq, s[1..], x) != [] {
        var k :| 0 <= k < |s[1..]| && leq(x, s[1..][k]) && leq(s[1..][k], x);
        assert s[k + 1] == s[1..][k];
      }
    }
  }

  /** There is only one stable sort of a list, however it is computed. */
  lemma {:induction false} StableSortIsUnique<T(!new)>(leq: (T, T) -> bool, r: seq<T>, t: seq<T>)
    requires TotalPreorder(leq) && Sorted(leq, r) && Sorted(leq, t)
    requires forall x :: Ties(leq, r, x) == Ties(leq, t, x)
    ensures r == t
  {
    assert r != [] ==> Ties(leq, r, r[0]) == Ties(leq, t, r[0]);
    assert t != [] ==> Ties(leq, r, t[0]) == Ties(leq, t, t[0]);
    if r != [] && t != [] {
      FirstIsLeast(leq, r, t);
      FirstIsLeast(leq, t, r);
      assert Ties(leq, r, r[0])[0] == r[0] && Ties(leq, t, r[0])[0] == t[0];
      assert Ties(leq, r, r[0]) == Ties(leq, t, r[0]);
      forall x ensures Ties(leq, r[1..], x) == Ties(leq, t[1..], x) {
        assert Ties(leq, r, x) == Ties(leq, t, x);
        var head := if leq(x, r[0]) && leq(r[0], x) then [r[0]] else [];
        assert Ties(leq, r, x) == head + Ties(leq, r[1..], x);
        assert Ties(leq, t, x) == head + Ties(leq, t[1..], x);
        assert Ties(leq, r[1..], x) == Ties(leq, r, x)[|head|..];
        assert Ties(leq, t[1..], x) == Ties(leq, t, x)[|head|..];
      }
      StableSortIsUnique(leq, r[1..], t[1..]);
    }
  }

  /** Whatever is ordered and stable is the result of `Sort`, and so a permutation. */
  lemma StableSortPermutes<T(!new)>(leq: (T, T) -> bool, s: seq<T>, r: seq<T>)
    requires TotalPreorder(leq) && IsStableSort(leq, s, r)
    ensures r == Sort(leq, s) && multiset(r) == multiset(s)
  {
    SortIsStable(leq, s);
    StableSortIsUnique(leq, r, Sort(leq, s));
  }

  lemma FirstIsLeast<T(!new)>(leq: (T, T) -> bool, r: seq<T>, t: seq<T>)
    requires TotalPreorder(leq) && Sorted(leq, t) && r != [] && t != []
    requires forall x :: Ties(leq, r, x) == Ties(leq, t, x)
    ensures leq(t[0], r[0])
  {
    assert Ties(leq, r, r[0]) != [];
    assert Ties(leq, r, r[0]) == Ties(leq, t, r[0]);
    TiesMembers(leq, t, r[0]);
    var k :| 0 <= k < |t| && leq(r[0], t[k]) && leq(t[k], r[0]);
    assert k > 0 ==> leq(t[0], t[k]);
  }

  /** Without ties between different elements the result does not depend on the input order. */
  lemma {:induction false} SortIgnoresInputOrder<T(!new)>(leq: (T, T) -> bool, r: seq<T>, t: seq<T>)
    requires TotalPreorder(leq) && Sorted(leq, r) && Sorted(leq, t) && multiset(r) == multiset(t)
    requires forall x, y :: x in r && y in r && leq(x, y) && leq(y, x) ==> x == y
    ensures r == t
    decreases |r|
  {
    assert |multiset(r)| == |multiset(t)|;
    if r != [] {
      SameFirst(leq, r, t);
      assert r == [r[0]] + r[1..] && t == [t[0]] + t[1..];
      assert multiset(r[1..]) == multiset(r) - multiset{r[0]};
      assert multiset(t[1..]) == multiset(t) - multiset{t[0]};
      SortIgnoresInputOrder(leq, r[1..], t[1..]);
    }
  }

  lemma SameFirst<T(!new)>(leq: (T, T) -> bool, r: seq<T>, t: seq<T>)
    requires TotalPreorder(leq) && Sorted(leq, r) && Sorted(leq, t) && multiset(r) == multiset(t)
    requires forall x, y :: x in r && y in r && leq(x, y) && leq(y, x) ==> x == y
    requires r != [] && t != []
    ensures r[0] == t[0]
  {
    assert r[0] in multiset(t) && t[0] in multiset(r);
    var i :| 0 <= i < |t| && t[i] == r[0];
    var j :| 0 <= j < |r| && r[j] == t[0];
    assert i > 0 ==> leq(t[0], t[i]);
    assert j > 0 ==> leq(r[0], r[j]);
  }

  /** The first of the sorted list: minimal, and the earliest minimal one. */
  lemma {:induction false} FirstOfSort<T(!new)>(leq: (T, T) -> bool, s: seq<T>) returns (i: nat)
    requires TotalPreorder(leq) && s != []
    ensures i < |s| && Sort(leq, s) != [] && Sort(leq, s)[0] == s[i]
    ensures forall k :: 0 <= k < |s| ==> leq(s[i], s[k])
    ensures forall k :: 0 <= k < i ==> !leq(s[k], s[i])
  {
    i := 0;
    if |s| > 1 {
      var rest := s[1..];
      var k := FirstOfSort(leq, rest);
      if !leq(s[0], rest[k]) {
        i := k + 1;
      }
      forall m | 0 <= m < |s| ensures leq(s[i], s[m]) {
        if m > 0 { assert s[m] == rest[m - 1]; assert leq(rest[k], rest[m - 1]); }
      }
      forall m | 0 <= m < i ensures !leq(s[m], s[i]) {
        if m > 0 { assert s[m] == rest[m - 1]; }
      }
    }
  }

  lemma {:induction false} LastOfInsert<T(!new)>(leq: (T, T) -> bool, x: T, r: seq<T>)
    requires TotalPreorder(leq) && Sorted(leq, r) && r != []
    ensures |Insert(leq, x, r)| == |r| + 1
    ensures Insert(leq, x, r)[|r|] == if leq(x, r[|r| - 1]) then r[|r| - 1] else x
  {
    if leq(x, r[0]) {
      assert |r| > 1 ==> leq(r[0], r[|r| - 1]);
    } else if |r| > 1 {
      LastOfInsert(leq, x, r[1..]);
    }
  }

  /** The last of the sorted list: maximal, and the latest maximal one. */
  lemma {:induction false} LastOfSort<T(!new)>(leq: (T, T) -> bool, s: seq<T>) returns (i: nat)
    requires TotalPreorder(leq) && s != []
    ensures i < |s| && |Sort(leq, s)| == |s| && Sort(leq, s)[|s| - 1] == s[i]
    ensures forall k :: 0 <= k < |s| ==> leq(s[k], s[i])
    ensures forall k :: i < k < |s| ==> !leq(s[i], s[k])
  {
    SortIsStable(leq, s);
    i := 0;
    if |s| > 1 {
      var rest := s[1..];
      var k := LastOfSort(leq, rest);
      SortIsStable(leq, rest);
      LastOfInsert(leq, s[0], Sort(leq, rest));
      if leq(s[0], rest[k]) {
        i := k + 1;
      }
      forall m | 0 <= m < |s| ensures leq(s[m], s[i]) {
        if m > 0 { assert s[m] == rest[m - 1]; assert leq(rest[m - 1], rest[k]); }
      }
      forall m | i < m < |s| ensures !leq(s[i], s[m]) {
        assert s[m] == rest[m - 1];
      }
    }
  }
}
