/**
 * The meaning shared by both matchers of `.mcignore`: a value matches a list of
 * pattern items when it can be cut into consecutive runs, one per item, so that
 * every item accepts its run.
 */
module Tiling {
  function Concat<T>(runs: seq<seq<T>>): seq<T> {
    if runs == [] then [] else runs[0] + Concat(runs[1..])
  }

  ghost predicate IsTiling<P, T>(fits: (P, seq<T>) -> bool, items: seq<P>, value: seq<T>, runs: seq<seq<T>>) {
    && |runs| == |items|
    && Concat(runs) == value
    && forall i :: 0 <= i < |items| ==> fits(items[i], runs[i])
  }

  ghost predicate Tiles<P, T(!new)>(fits: (P, seq<T>) -> bool, items: seq<P>, value: seq<T>) {
    exists runs :: IsTiling(fits, items, value, runs)
  }

  /** The same language, read from item `j` and position `i` onwards: choose where the next run ends. */
  ghost predicate Matches<P, T>(fits: (P, seq<T>) -> bool, items: seq<P>, value: seq<T>, j: nat, i: nat)
    requires j <= |items| && i <= |value|
    decreases |items| - j
  {
    if j == |items| then i == |value|
    else exists k :: i <= k <= |value| && fits(items[j], value[i..k]) && Matches(fits, items, value, j + 1, k)
  }

  lemma {:induction false} MatchesIffTiles<P, T(!new)>(fits: (P, seq<T>) -> bool, items: seq<P>, value: seq<T>,
                                                       j: nat, i: nat)
    requires j <= |items| && i <= |value|
    ensures Matches(fits, items, value, j, i) <==> Tiles(fits, items[j..], value[i..])
    decreases |items| - j
  {
    if Matches(fits, items, value, j, i) {
      TilingOfMatch(fits, items, value, j, i);
    }
    if Tiles(fits, items[j..], value[i..]) {
      var runs :| IsTiling(fits, items[j..], value[i..], runs);
      MatchOfTiling(fits, items, value, j, i, runs);
    }
  }

  lemma {:induction false} TilingOfMatch<P, T(!new)>(fits: (P, seq<T>) -> bool, items: seq<P>, value: seq<T>,
                                                     j: nat, i: nat)
    requires j <= |items| && i <= |value| && Matches(fits, items, value, j, i)
    ensures Tiles(fits, items[j..], value[i..])
    decreases |items| - j
  {
    if j == |items| {
      assert IsTiling(fits, items[j..], value[i..], []);
    } else {
      var k :| i <= k <= |value| && fits(items[j], value[i..k]) && Matches(fits, items, value, j + 1, k);
      TilingOfMatch(fits, items, value, j + 1, k);
      var rest :| IsTiling(fits, items[j + 1..], value[k..], rest);
      var runs := [value[i..k]] + rest;
      assert runs[1..] == rest;
      assert value[i..] == value[i..k] + value[k..];
      assert IsTiling(fits, items[j..], value[i..], runs);
    }
  }

  lemma {:induction false} MatchOfTiling<P, T>(fits: (P, seq<T>) -> bool, items: seq<P>, value: seq<T>, j: nat, i: nat,
                                               runs: seq<seq<T>>)
    requires j <= |items| && i <= |value| && IsTiling(fits, items[j..], value[i..], runs)
    ensures Matches(fits, items, value, j, i)
    decreases |items| - j
  {
    if j < |items| {
      var k := i + |runs[0]|;
      assert value[i..] == runs[0] + Concat(runs[1..]);
      assert value[i..k] == runs[0] && value[k..] == Concat(runs[1..]);
      assert fits(items[j..][0], runs[0]);
      forall m | 0 <= m < |items[j + 1..]| ensures fits(items[j + 1..][m], runs[1..][m]) {
        assert fits(items[j..][m + 1], runs[m + 1]);
      }
      assert IsTiling(fits, items[j + 1..], value[k..], runs[1..]);
      MatchOfTiling(fits, items, value, j + 1, k, runs[1..]);
    }
  }

  // ---- The language of a list, from the languages of its parts ----

  lemma {:induction false} ConcatSplit<T>(a: seq<seq<T>>, b: seq<seq<T>>)
    ensures Concat(a + b) == Concat(a) + Concat(b)
  {
    if a == [] {
      assert a + b == b;
    } else {
      ConcatSplit(a[1..], b);
      assert (a + b)[0] == a[0] && (a + b)[1..] == a[1..] + b;
      assert a[0] + (Concat(a[1..]) + Concat(b)) == (a[0] + Concat(a[1..])) + Concat(b);
    }
  }

  /** The value can be cut at `i` so that each half matches its list. */
  ghost predicate CutAt<P, T(!new)>(fits: (P, seq<T>) -> bool, a: seq<P>, b: seq<P>, value: seq<T>, i: int) {
    0 <= i <= |value| && Tiles(fits, a, value[..i]) && Tiles(fits, b, value[i..])
  }

  lemma TilesOfSum<P, T(!new)>(fits: (P, seq<T>) -> bool, a: seq<P>, b: seq<P>, value: seq<T>)
    ensures Tiles(fits, a + b, value) <==> exists i :: CutAt(fits, a, b, value, i)
  {
    if Tiles(fits, a + b, value) {
      var runs :| IsTiling(fits, a + b, value, runs);
      CutOfTiling(fits, a, b, value, runs);
    }
    if i :| CutAt(fits, a, b, value, i) {
      var front :| IsTiling(fits, a, value[..i], front);
      var back :| IsTiling(fits, b, value[i..], back);
      TilingOfCut(fits, a, b, value, i, front, back);
    }
  }

  lemma CutOfTiling<P, T(!new)>(fits: (P, seq<T>) -> bool, a: seq<P>, b: seq<P>, value: seq<T>, runs: seq<seq<T>>)
    requires IsTiling(fits, a + b, value, runs)
    ensures exists i :: CutAt(fits, a, b, value, i)
  {
    var front, back := runs[..|a|], runs[|a|..];
    assert runs == front + back;
    ConcatSplit(front, back);
    var i := |Concat(front)|;
    assert value[..i] == Concat(front) && value[i..] == Concat(back);
    forall k | 0 <= k < |a| ensures fits(a[k], front[k]) {
      assert fits((a + b)[k], runs[k]);
    }
    forall k | 0 <= k < |b| ensures fits(b[k], back[k]) {
      assert fits((a + b)[|a| + k], runs[|a| + k]);
    }
    assert IsTiling(fits, a, value[..i], front) && IsTiling(fits, b, value[i..], back);
    assert CutAt(fits, a, b, value, i);
  }

  lemma TilingOfCut<P, T(!new)>(fits: (P, seq<T>) -> bool, a: seq<P>, b: seq<P>, value: seq<T>, i: nat,
                                front: seq<seq<T>>, back: seq<seq<T>>)
    requires i <= |value| && IsTiling(fits, a, value[..i], front) && IsTiling(fits, b, value[i..], back)
    ensures Tiles(fits, a + b, value)
  {
    ConcatSplit(front, back);
    assert value == value[..i] + value[i..];
    assert IsTiling(fits, a + b, value, front + back);
  }

  lemma TilesOfOne<P, T(!new)>(fits: (P, seq<T>) -> bool, item: P, value: seq<T>)
    ensures Tiles(fits, [item], value) <==> fits(item, value)
  {
    if Tiles(fits, [item], value) {
      var runs :| IsTiling(fits, [item], value, runs);
      assert runs == [runs[0]] && Concat(runs) == runs[0] + Concat(runs[1..]);
      assert runs[0] + [] == runs[0];
    }
    if fits(item, value) {
      assert [value][1..] == [] && Concat([value]) == value;
      assert IsTiling(fits, [item], value, [value]);
    }
  }

  /** `before` and `after` match the two ends of the value, from the front up to `i` and from `j` on. */
  ghost predicate Ends<P, T(!new)>(fits: (P, seq<T>) -> bool, before: seq<P>, after: seq<P>, value: seq<T>,
                                   i: int, j: int)
  {
    0 <= i <= j <= |value| && Tiles(fits, before, value[..i]) && Tiles(fits, after, value[j..])
  }

  /** An item that accepts everything lets the other items match the two ends. */
  lemma TilesAround<P, T(!new)>(fits: (P, seq<T>) -> bool, before: seq<P>, any: P, after: seq<P>, value: seq<T>)
    requires forall run :: fits(any, run)
    ensures Tiles(fits, before + [any] + after, value) <==> exists i, j :: Ends(fits, before, after, value, i, j)
  {
    TilesOfSum(fits, before + [any], after, value);
    if j :| CutAt(fits, before + [any], after, value, j) {
      TilesOfSum(fits, before, [any], value[..j]);
      var i :| CutAt(fits, before, [any], value[..j], i);
      assert value[..j][..i] == value[..i];
      assert Ends(fits, before, after, value, i, j);
    }
    if i, j :| Ends(fits, before, after, value, i, j) {
      TilesOfOne(fits, any, value[..j][i..]);
      assert value[..j][..i] == value[..i];
      assert CutAt(fits, before, [any], value[..j], i);
      TilesOfSum(fits, before, [any], value[..j]);
      assert CutAt(fits, before + [any], after, value, j);
    }
  }
}
