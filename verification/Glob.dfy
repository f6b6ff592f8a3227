/** Matching one path segment against one pattern segment (`wildcard_match`). */
module Glob {
  import opened Options
  import opened Tiling

  /** `*` accepts any run of characters, `?` any single one, every other character only itself. */
  predicate GlobFits(item: char, run: string) {
    item == '*' || (|run| == 1 && (item == '?' || item == run[0]))
  }

  ghost predicate InGlob(value: string, pattern: string) {
    Tiles(GlobFits, pattern, value)
  }

  /** The star-free items `pattern[j..j+n]` accept the characters of `value` from `i` on, one by one. */
  ghost predicate BlockFits(value: string, pattern: string, j: nat, i: nat, n: nat)
    requires j + n <= |pattern|
  {
    i + n <= |value| && forall c :: j <= c < j + n ==> pattern[c] == '?' || pattern[c] == value[i + c - j]
  }

  ghost predicate StarFree(pattern: string, j: nat, n: nat)
    requires j + n <= |pattern|
  {
    forall c :: j <= c < j + n ==> pattern[c] != '*'
  }

  /** A star-free block can be matched in one way only. */
  lemma {:induction false} ThroughBlock(value: string, pattern: string, j: nat, i: nat, n: nat)
    requires j + n <= |pattern| && i <= |value| && StarFree(pattern, j, n)
    ensures Matches(GlobFits, pattern, value, j, i) <==>
            BlockFits(value, pattern, j, i, n) && Matches(GlobFits, pattern, value, j + n, i + n)
    decreases n
  {
    if n > 0 && i < |value| {
      assert value[i..i + 1] == [value[i]];
      ThroughBlock(value, pattern, j + 1, i + 1, n - 1);
    }
  }

  /** A star at `j` may skip any prefix of what is left. */
  lemma AtStar(value: string, pattern: string, j: nat, i: nat, k: nat)
    requires j < |pattern| && pattern[j] == '*' && i <= k <= |value|
    ensures Matches(GlobFits, pattern, value, j + 1, k) ==> Matches(GlobFits, pattern, value, j, i)
    ensures Matches(GlobFits, pattern, value, j, k) ==> Matches(GlobFits, pattern, value, j, i)
  {
    assert GlobFits(pattern[j], value[i..k]);
    if Matches(GlobFits, pattern, value, j, k) {
      var m :| k <= m <= |value| && Matches(GlobFits, pattern, value, j + 1, m);
      assert GlobFits(pattern[j], value[i..m]);
    }
  }

  /** Without a star: as long as the pattern and equal to it but where it has a `?`. */
  lemma PlainGlob(value: string, pattern: string)
    requires '*' !in pattern
    ensures InGlob(value, pattern) <==>
            |value| == |pattern| && forall k :: 0 <= k < |pattern| ==> pattern[k] == '?' || pattern[k] == value[k]
  {
    MatchesIffTiles(GlobFits, pattern, value, 0, 0);
    assert pattern[0..] == pattern && value[0..] == value;
    ThroughBlock(value, pattern, 0, 0, |pattern|);
  }

  /** Around a star: what comes before it matches the beginning of the value, what comes after it the end. */
  lemma StarSplits(value: string, before: string, after: string)
    ensures InGlob(value, before + "*" + after) <==>
            exists i, j :: 0 <= i <= j <= |value| && InGlob(value[..i], before) && InGlob(value[j..], after)
  {
    TilesAround(GlobFits, before, '*', after, value);
    if i, j :| Ends(GlobFits, before, after, value, i, j) {
      assert InGlob(value[..i], before) && InGlob(value[j..], after);
    }
    if i, j :| 0 <= i <= j <= |value| && InGlob(value[..i], before) && InGlob(value[j..], after) {
      assert Ends(GlobFits, before, after, value, i, j);
    }
  }

  /**
   * Reaching a second star makes the first one irrelevant: whatever the first
   * star could have skipped further, the second one can skip as well.
   */
  lemma NextStar(value: string, pattern: string, sp: nat, sv: nat, n: nat)
    requires sp + 1 + n < |pattern| && pattern[sp] == '*' && pattern[sp + 1 + n] == '*'
    requires StarFree(pattern, sp + 1, n) && BlockFits(value, pattern, sp + 1, sv, n)
    ensures Matches(GlobFits, pattern, value, sp, sv) <==>
            Matches(GlobFits, pattern, value, sp + 1 + n, sv + n)
  {
    if Matches(GlobFits, pattern, value, sp, sv) {
      SecondStarTakesOver(value, pattern, sp, sv, n);
    }
    if Matches(GlobFits, pattern, value, sp + 1 + n, sv + n) {
      ThroughBlock(value, pattern, sp + 1, sv, n);
      AtStar(value, pattern, sp, sv, sv);
    }
  }

  lemma SecondStarTakesOver(value: string, pattern: string, sp: nat, sv: nat, n: nat)
    requires sp + 1 + n < |pattern| && pattern[sp] == '*' && pattern[sp + 1 + n] == '*' && sv <= |value|
    requires StarFree(pattern, sp + 1, n) && sv + n <= |value| && Matches(GlobFits, pattern, value, sp, sv)
    ensures Matches(GlobFits, pattern, value, sp + 1 + n, sv + n)
  {
    var k :| sv <= k <= |value| && Matches(GlobFits, pattern, value, sp + 1, k);
    ThroughBlock(value, pattern, sp + 1, k, n);
    AtStar(value, pattern, sp + 1 + n, sv + n, k + n);
  }

  /** When the block after the star cannot start here, the star must take one more character. */
  lemma StarTakesOne(value: string, pattern: string, sp: nat, sv: nat)
    requires sp < |pattern| && pattern[sp] == '*' && sv <= |value|
    requires !Matches(GlobFits, pattern, value, sp + 1, sv)
    ensures Matches(GlobFits, pattern, value, sp, sv) <==>
            sv < |value| && Matches(GlobFits, pattern, value, sp, sv + 1)
  {
    if Matches(GlobFits, pattern, value, sp, sv) {
      var k :| sv <= k <= |value| && Matches(GlobFits, pattern, value, sp + 1, k);
      AtStar(value, pattern, sp, sv + 1, k);
    }
    if sv < |value| {
      AtStar(value, pattern, sp, sv, sv + 1);
    }
  }

  /**
   * What the matcher's variables mean while it scans: `whole`, the answer for
   * the complete strings, is the answer from the last star on, and the items
   * since that star have accepted the characters up to `vp` one by one.
   */
  ghost predicate Tracks(value: string, pattern: string, star: Option<(nat, nat)>, vp: nat, pp: nat, whole: bool) {
    && vp <= |value| && pp <= |pattern|
    && match star
       case None => whole <==> Matches(GlobFits, pattern, value, pp, vp)
       case Some((sv, sp)) =>
         && sp < pp && sv <= vp && vp - sv == pp - sp - 1
         && pattern[sp] == '*'
         && StarFree(pattern, sp + 1, pp - sp - 1)
         && BlockFits(value, pattern, sp + 1, sv, pp - sp - 1)
         && (whole <==> Matches(GlobFits, pattern, value, sp, sv))
  }

  lemma TracksFromStart(value: string, pattern: string)
    ensures Tracks(value, pattern, None, 0, 0, InGlob(value, pattern))
  {
    assert pattern[0..] == pattern && value[0..] == value;
    MatchesIffTiles(GlobFits, pattern, value, 0, 0);
  }

  lemma TracksNewStar(value: string, pattern: string, star: Option<(nat, nat)>, vp: nat, pp: nat, whole: bool)
    requires Tracks(value, pattern, star, vp, pp, whole) && pp < |pattern| && pattern[pp] == '*'
    ensures Tracks(value, pattern, Some((vp, pp)), vp, pp + 1, whole)
  {
    if star.Some? {
      NextStar(value, pattern, star.value.1, star.value.0, pp - star.value.1 - 1);
    }
  }

  lemma TracksCharacter(value: string, pattern: string, star: Option<(nat, nat)>, vp: nat, pp: nat, whole: bool)
    requires Tracks(value, pattern, star, vp, pp, whole) && pp < |pattern| && pattern[pp] != '*'
    requires vp < |value| && (pattern[pp] == '?' || pattern[pp] == value[vp])
    ensures Tracks(value, pattern, star, vp + 1, pp + 1, whole)
  {
    if star.None? {
      ThroughBlock(value, pattern, pp, vp, 1);
    }
  }

  lemma TracksEnd(value: string, pattern: string, star: Option<(nat, nat)>, whole: bool)
    requires Tracks(value, pattern, star, |value|, |pattern|, whole)
    ensures whole
  {
    if star.Some? {
      var (sv, sp) := star.value;
      ThroughBlock(value, pattern, sp + 1, sv, |pattern| - sp - 1);
      AtStar(value, pattern, sp, sv, sv);
    }
  }

  /** The scan is stuck: only the last star, taking one character more, can still help. */
  lemma TracksMismatch(value: string, pattern: string, star: Option<(nat, nat)>, vp: nat, pp: nat, whole: bool)
    requires Tracks(value, pattern, star, vp, pp, whole) && !(vp == |value| && pp == |pattern|)
    requires pp < |pattern| ==>
      pattern[pp] != '*' && !(vp < |value| && (pattern[pp] == '?' || pattern[pp] == value[vp]))
    ensures star.None? ==> !whole
    ensures star.Some? && star.value.0 >= |value| ==> !whole
    ensures star.Some? && star.value.0 < |value| ==>
      var (sv, sp) := star.value;
      Tracks(value, pattern, Some((sv + 1, sp)), sv + 1, sp + 1, whole)
  {
    if pp < |pattern| {
      ThroughBlock(value, pattern, pp, vp, 1);
    }
    if star.Some? {
      var (sv, sp) := star.value;
      ThroughBlock(value, pattern, sp + 1, sv, pp - sp - 1);
      StarTakesOne(value, pattern, sp, sv);
    }
  }

  method WildcardMatch(value: string, pattern: string) returns (matched: bool)
    ensures matched <==> InGlob(value, pattern)
  {
    ghost var whole := InGlob(value, pattern);
    TracksFromStart(value, pattern);
    var vp: nat, pp: nat := 0, 0;
    var star: Option<(nat, nat)> := None;
    while true
      invariant Tracks(value, pattern, star, vp, pp, whole)
      decreases |pattern| - (if star.Some? then star.value.1 else -1),
                |value| - (if star.Some? then star.value.0 else 0),
                |pattern| - pp
    {
      if pp < |pattern| && pattern[pp] == '*' {
        TracksNewStar(value, pattern, star, vp, pp, whole);
        star := Some((vp, pp));
        pp := pp + 1;
        continue;
      }
      if vp < |value| && pp < |pattern| && (pattern[pp] == '?' || pattern[pp] == value[vp]) {
        TracksCharacter(value, pattern, star, vp, pp, whole);
        vp, pp := vp + 1, pp + 1;
        continue;
      }
      if vp == |value| && pp == |pattern| {
        TracksEnd(value, pattern, star, whole);
        return true;
      }
      TracksMismatch(value, pattern, star, vp, pp, whole);
      if star.Some? {
        var (sv, sp) := star.value;
        if sv >= |value| {
          return false;
        }
        vp, pp := sv + 1, sp + 1;
        star := Some((vp, sp));
        continue;
      }
      return false;
    }
  }

  /** Every string matches itself read as a pattern, wildcards included. */
  lemma {:induction false} MatchesItself(s: string, j: nat)
    requires j <= |s|
    ensures Matches(GlobFits, s, s, j, j)
    decreases |s| - j
  {
    if j < |s| {
      MatchesItself(s, j + 1);
      assert GlobFits(s[j], s[j..j + 1]);
    }
  }
}
