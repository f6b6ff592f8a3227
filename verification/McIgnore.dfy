/** The `.mcignore` pattern set: loading it and deciding whether a path is excluded. */
module McIgnore {
  import opened Options
  import opened Text
  import opened Tiling
  import opened Glob

  // ---- Segment patterns ----

  /** A pattern segment with a `*` is a glob; without one it is literal, `?` included. */
  ghost predicate SegmentAccepts(item: string, segment: string) {
    if '*' in item then InGlob(segment, item) else item == segment
  }

  /** `**` accepts any run of segments, every other item exactly one segment. */
  ghost predicate SegmentFits(item: string, run: seq<string>) {
    item == "**" || (|run| == 1 && SegmentAccepts(item, run[0]))
  }

  ghost predicate InSegments(segments: seq<string>, items: seq<string>) {
    Tiles(SegmentFits, items, segments)
  }

  /** The two shortcuts taken before `wildcard_match` do not change the answer. */
  lemma ShortcutsAreSound(item: string, segment: string)
    ensures item == "*" || item == segment ==> SegmentAccepts(item, segment)
  {
    if item == "*" {
      assert IsTiling(GlobFits, item, segment, [segment]);
    } else if item == segment {
      MatchesItself(item, 0);
      MatchesIffTiles(GlobFits, item, item, 0, 0);
      assert item[0..] == item;
    }
  }

  lemma OneSegment(segments: seq<string>, items: seq<string>, pi: nat, pj: nat)
    requires pj < |items| && pi < |segments| && items[pj] != "**"
    ensures Matches(SegmentFits, items, segments, pj, pi) <==>
            SegmentAccepts(items[pj], segments[pi]) && Matches(SegmentFits, items, segments, pj + 1, pi + 1)
  {
    assert segments[pi..pi + 1] == [segments[pi]];
  }

  method MatchSegments(segments: seq<string>, items: seq<string>, pi: nat, pj: nat) returns (matched: bool)
    requires pi <= |segments| && pj <= |items|
    ensures matched <==> Matches(SegmentFits, items, segments, pj, pi)
    decreases |items| - pj
  {
    if pi == |segments| && pj == |items| {
      return true;
    }
    if pj == |items| {
      return false;
    }
    if items[pj] == "**" {
      ghost var next := pj + 1;
      for i := pi to |segments| + 1
        invariant forall k :: pi <= k < i ==> !Matches(SegmentFits, items, segments, next, k)
      {
        var here := MatchSegments(segments, items, i, pj + 1);
        if here {
          assert SegmentFits(items[pj], segments[pi..i]);
          return true;
        }
      }
      return false;
    }
    if pi >= |segments| {
      return false;
    }
    OneSegment(segments, items, pi, pj);
    ShortcutsAreSound(items[pj], segments[pi]);
    if items[pj] == "*" || items[pj] == segments[pi] {
      matched := MatchSegments(segments, items, pi + 1, pj + 1);
      return;
    }
    if '*' !in items[pj] {
      return false;
    }
    var accepted := WildcardMatch(segments[pi], items[pj]);
    if accepted {
      matched := MatchSegments(segments, items, pi + 1, pj + 1);
      return;
    }
    return false;
  }

  /** Without `**` a pattern only matches paths of its own depth: `*.log` reaches no subdirectory. */
  lemma {:induction false} SameDepth(segments: seq<string>, items: seq<string>)
    requires "**" !in items && InSegments(segments, items)
    ensures |segments| == |items|
  {
    var runs :| IsTiling(SegmentFits, items, segments, runs);
    SinglesConcat(runs);
  }

  lemma {:induction false} SinglesConcat(runs: seq<seq<string>>)
    requires forall k :: 0 <= k < |runs| ==> |runs[k]| == 1
    ensures |Concat(runs)| == |runs|
    ensures forall k :: 0 <= k < |runs| ==> Concat(runs)[k] == runs[k][0]
  {
    if runs != [] {
      SinglesConcat(runs[1..]);
    }
  }

  /** Without `**`: exactly the segment lists of the same length whose segments are accepted one by one. */
  lemma PlainSegments(segments: seq<string>, items: seq<string>)
    requires "**" !in items
    ensures InSegments(segments, items) <==>
            |segments| == |items| && forall k :: 0 <= k < |items| ==> SegmentAccepts(items[k], segments[k])
  {
    if InSegments(segments, items) {
      var runs :| IsTiling(SegmentFits, items, segments, runs);
      assert forall k :: 0 <= k < |items| ==> items[k] in items && SegmentFits(items[k], runs[k]);
      SinglesConcat(runs);
    }
    if |segments| == |items| && forall k :: 0 <= k < |items| ==> SegmentAccepts(items[k], segments[k]) {
      var runs := seq(|items|, k requires 0 <= k < |items| => [segments[k]]);
      SinglesConcat(runs);
      assert IsTiling(SegmentFits, items, segments, runs);
    }
  }

  ghost predicate EndsMatch(segments: seq<string>, before: seq<string>, after: seq<string>, i: int, j: int) {
    0 <= i <= j <= |segments| && InSegments(segments[..i], before) && InSegments(segments[j..], after)
  }

  /** Around a `**`: what comes before it matches the front of the list, what comes after it the end. */
  lemma DoubleStarSplits(segments: seq<string>, before: seq<string>, after: seq<string>)
    ensures InSegments(segments, before + ["**"] + after) <==>
            exists i, j :: EndsMatch(segments, before, after, i, j)
  {
    TilesAround(SegmentFits, before, "**", after, segments);
    if i, j :| Ends(SegmentFits, before, after, segments, i, j) {
      assert EndsMatch(segments, before, after, i, j);
    }
    if i, j :| EndsMatch(segments, before, after, i, j) {
      assert Ends(SegmentFits, before, after, segments, i, j);
    }
  }

  // ---- Whole patterns ----

  ghost predicate GlobDenotes(path: string, pattern: string) {
    InSegments(Split(path, '/'), Split(pattern, '/'))
  }

  /** What a pattern means: a star-free one stands for itself at any depth and for all that is below it. */
  ghost predicate Denotes(path: string, pattern: string) {
    if '*' in pattern then GlobDenotes(path, pattern)
    else GlobDenotes(path, "**/" + pattern) || GlobDenotes(path, pattern + "/**")
  }

  /** `*.log` and its like match only paths of their own depth, segment by segment. */
  lemma StarMeaning(path: string, pattern: string)
    requires '*' in pattern && "**" !in Split(pattern, '/')
    ensures var items, segments := Split(pattern, '/'), Split(path, '/');
            Denotes(path, pattern) <==>
            && |segments| == |items|
            && forall k :: 0 <= k < |items| ==>
                 if '*' in items[k] then InGlob(segments[k], items[k]) else items[k] == segments[k]
  {
    PlainSegments(Split(path, '/'), Split(pattern, '/'));
  }

  /** `a/**/b` and its like: the path begins like what is before the `**` and ends like what is after it. */
  lemma DoubleStarMeaning(path: string, pattern: string, before: seq<string>, after: seq<string>)
    requires '*' in pattern && Split(pattern, '/') == before + ["**"] + after
    ensures Denotes(path, pattern) <==> exists i, j :: EndsMatch(Split(path, '/'), before, after, i, j)
  {
    DoubleStarSplits(Split(path, '/'), before, after);
    assert InSegments(Split(path, '/'), Split(pattern, '/')) <==> InSegments(Split(path, '/'), before + ["**"] + after);
  }

  ghost predicate IsSuffix(suffix: seq<string>, s: seq<string>) {
    |suffix| <= |s| && s[|s| - |suffix|..] == suffix
  }

  lemma {:induction false} LiteralPieces(pattern: string)
    requires '*' !in pattern
    ensures forall k :: 0 <= k < |Split(pattern, '/')| ==> '*' !in Split(pattern, '/')[k]
  {
    if pattern != "" {
      LiteralPieces(pattern[1..]);
    }
  }

  /** Literal items accept exactly their own list. */
  lemma LiteralItems(segments: seq<string>, items: seq<string>)
    requires forall k :: 0 <= k < |items| ==> '*' !in items[k]
    ensures InSegments(segments, items) <==> segments == items
  {
    if InSegments(segments, items) {
      var runs :| IsTiling(SegmentFits, items, segments, runs);
      assert forall k :: 0 <= k < |items| ==> SegmentFits(items[k], runs[k]);
      SinglesConcat(runs);
    }
    if segments == items {
      var runs := seq(|items|, k requires 0 <= k < |items| => [items[k]]);
      SinglesConcat(runs);
      assert IsTiling(SegmentFits, items, segments, runs);
    }
  }

  lemma LeadingDoubleStar(segments: seq<string>, items: seq<string>)
    requires forall k :: 0 <= k < |items| ==> '*' !in items[k]
    ensures InSegments(segments, ["**"] + items) <==> IsSuffix(items, segments)
  {
    if InSegments(segments, ["**"] + items) {
      var runs :| IsTiling(SegmentFits, ["**"] + items, segments, runs);
      var rest := Concat(runs[1..]);
      forall k | 0 <= k < |items| ensures SegmentFits(items[k], runs[1..][k]) {
        assert SegmentFits((["**"] + items)[k + 1], runs[k + 1]);
      }
      assert IsTiling(SegmentFits, items, rest, runs[1..]);
      LiteralItems(rest, items);
    }
    if IsSuffix(items, segments) {
      LiteralItems(items, items);
      var rest :| IsTiling(SegmentFits, items, items, rest);
      var runs := [segments[..|segments| - |items|]] + rest;
      assert runs[1..] == rest;
      assert IsTiling(SegmentFits, ["**"] + items, segments, runs);
    }
  }

  lemma TrailingDoubleStar(segments: seq<string>, items: seq<string>)
    requires forall k :: 0 <= k < |items| ==> '*' !in items[k]
    ensures InSegments(segments, items + ["**"]) <==> items <= segments
  {
    if InSegments(segments, items + ["**"]) {
      var runs :| IsTiling(SegmentFits, items + ["**"], segments, runs);
      var front := runs[..|items|];
      assert runs == front + [runs[|items|]];
      ConcatSplit(front, [runs[|items|]]);
      assert forall k :: 0 <= k < |items| ==> SegmentFits((items + ["**"])[k], runs[k]);
      assert IsTiling(SegmentFits, items, Concat(front), front);
      LiteralItems(Concat(front), items);
    }
    if items <= segments {
      LiteralItems(items, items);
      var front :| IsTiling(SegmentFits, items, items, front);
      var tail := segments[|items|..];
      ConcatSplit(front, [tail]);
      assert Concat([tail]) == tail;
      assert IsTiling(SegmentFits, items + ["**"], segments, front + [tail]);
    }
  }

  /** A star-free pattern in terms of segments: the path ends with it or starts with it. */
  lemma LiteralMeaning(path: string, pattern: string)
    requires '*' !in pattern
    ensures Denotes(path, pattern) <==>
            || IsSuffix(Split(pattern, '/'), Split(path, '/'))
            || Split(pattern, '/') <= Split(path, '/')
  {
    var items := Split(pattern, '/');
    LiteralPieces(pattern);
    SplitAround("**", '/', pattern);
    SplitAround(pattern, '/', "**");
    SplitWhole("**", '/');
    assert "**" + ['/'] + pattern == "**/" + pattern && pattern + ['/'] + "**" == pattern + "/**";
    LeadingDoubleStar(Split(path, '/'), items);
    TrailingDoubleStar(Split(path, '/'), items);
  }

  lemma SuffixIsText(path: string, pattern: string)
    ensures IsSuffix(Split(pattern, '/'), Split(path, '/')) <==> path == pattern || EndsWith(path, "/" + pattern)
  {
    if EndsWith(path, "/" + pattern) {
      PiecesOfSuffix(path, pattern, path[..|path| - |pattern| - 1]);
    }
    if IsSuffix(Split(pattern, '/'), Split(path, '/')) {
      var front := |Split(path, '/')| - |Split(pattern, '/')|;
      FrontAndSuffix(Split(path, '/'), Split(pattern, '/'));
      SuffixOfPieces(path, pattern, Split(path, '/')[..front]);
    }
  }

  lemma FrontAndSuffix(p: seq<string>, q: seq<string>)
    requires IsSuffix(q, p)
    ensures p == p[..|p| - |q|] + q
  {
  }

  lemma PiecesOfSuffix(path: string, pattern: string, front: string)
    requires path == front + ("/" + pattern)
    ensures IsSuffix(Split(pattern, '/'), Split(path, '/'))
  {
    assert path == front + ['/'] + pattern;
    SplitAround(front, '/', pattern);
  }

  lemma SuffixOfPieces(path: string, pattern: string, xs: seq<string>)
    requires Split(path, '/') == xs + Split(pattern, '/')
    ensures path == pattern || EndsWith(path, "/" + pattern)
  {
    JoinOfSplit(path, '/');
    JoinOfSplit(pattern, '/');
    if xs == [] {
      assert [] + Split(pattern, '/') == Split(pattern, '/');
    } else {
      JoinAround(xs, Split(pattern, '/'), '/');
      Associative(Join(xs, '/'), ['/'], pattern);
      EndsWithTail(Join(xs, '/'), ['/'] + pattern, path);
    }
  }

  lemma EndsWithTail(front: string, tail: string, s: string)
    requires s == front + tail
    ensures EndsWith(s, tail)
  {
  }

  lemma PrefixIsText(path: string, pattern: string)
    ensures Split(pattern, '/') <= Split(path, '/') <==> path == pattern || StartsWith(path, pattern + "/")
  {
    if StartsWith(path, pattern + "/") {
      PiecesOfPrefix(path, pattern, path[|pattern| + 1..]);
    }
    if Split(pattern, '/') <= Split(path, '/') {
      var p, q := Split(path, '/'), Split(pattern, '/');
      assert p == q + p[|q|..];
      PrefixOfPieces(path, pattern, p[|q|..]);
    }
  }

  lemma PiecesOfPrefix(path: string, pattern: string, rest: string)
    requires path == pattern + "/" + rest
    ensures Split(pattern, '/') <= Split(path, '/')
  {
    assert path == pattern + ['/'] + rest;
    SplitAround(pattern, '/', rest);
  }

  lemma PrefixOfPieces(path: string, pattern: string, xs: seq<string>)
    requires Split(path, '/') == Split(pattern, '/') + xs
    ensures path == pattern || StartsWith(path, pattern + "/")
  {
    JoinOfSplit(path, '/');
    JoinOfSplit(pattern, '/');
    if xs == [] {
      assert Split(pattern, '/') + [] == Split(pattern, '/');
    } else {
      JoinAround(Split(pattern, '/'), xs, '/');
      StartsWithHead(pattern + "/", Join(xs, '/'), path);
    }
  }

  lemma StartsWithHead(head: string, rest: string, s: string)
    requires s == head + rest
    ensures StartsWith(s, head)
  {
  }

  method MatchesPattern(path: string, pattern: string) returns (matched: bool)
    ensures matched <==> Denotes(path, pattern)
  {
    if '*' !in pattern {
      LiteralMeaning(path, pattern);
      SuffixIsText(path, pattern);
      PrefixIsText(path, pattern);
      return path == pattern || EndsWith(path, "/" + pattern) || StartsWith(path, pattern + "/");
    }
    var segments, items := Split(path, '/'), Split(pattern, '/');
    MatchesIffTiles(SegmentFits, items, segments, 0, 0);
    assert items[0..] == items && segments[0..] == segments;
    matched := MatchSegments(segments, items, 0, 0);
  }

  // ---- The pattern set ----

  datatype Pattern = Pattern(pattern: string, isNegation: bool, dirOnly: bool)

  function TrimStartDotSlash(s: string): (t: string)
    ensures EndsWith(s, t) && !StartsWith(t, "./")
  {
    if StartsWith(s, "./") then TrimStartDotSlash(s[2..]) else s
  }

  function Normalise(path: string): string {
    TrimEndChar(TrimStartDotSlash(path), '/')
  }

  lemma NormaliseIsNormal(path: string)
    ensures !StartsWith(Normalise(path), "./") && !EndsWith(Normalise(path), "/")
    ensures Normalise(Normalise(path)) == Normalise(path)
  {
  }

  /** A path in normal form is left alone. */
  lemma NormalPathsStay(path: string)
    requires !StartsWith(path, "./") && !EndsWith(path, "/")
    ensures Normalise(path) == path
  {
  }

  lemma LeadingDotSlashGoes(path: string)
    ensures Normalise("./" + path) == Normalise(path)
  {
    assert ("./" + path)[..2] == "./" && ("./" + path)[2..] == path;
  }

  /** A trailing slash goes too; on `.` alone the two characters are a leading `./`. */
  lemma TrailingSlashGoes(path: string)
    ensures Normalise(path + "/") == if Normalise(path) == "." then "" else Normalise(path)
  {
    var rest := TrimStartDotSlash(path);
    TrimStartOfLonger(path);
    TrimEndOfLonger(rest);
    DotIsAlone(rest);
    hide TrimStartDotSlash, TrimEndChar;
    assert Normalise(path) == TrimEndChar(rest, '/');
    assert rest == "." ==> TrimEndChar(rest, '/') == "." by { DotTrimmed(); }
  }

  lemma DotTrimmed()
    ensures TrimEndChar(".", '/') == "." && TrimEndChar("", '/') == ""
  {
  }

  lemma TrimEndOfLonger(s: string)
    ensures TrimEndChar(s + "/", '/') == TrimEndChar(s, '/')
  {
    var longer := s + "/";
    assert longer[..|longer| - 1] == s;
  }

  lemma {:induction false} TrimStartOfLonger(path: string)
    ensures TrimStartDotSlash(path + "/") ==
            if TrimStartDotSlash(path) == "." then "" else TrimStartDotSlash(path) + "/"
  {
    var longer := path + "/";
    if StartsWith(path, "./") {
      TrimStartOfLonger(path[2..]);
      assert longer[..2] == path[..2] && longer[2..] == path[2..] + "/";
    } else if path == "." {
      assert longer[..2] == "./" && longer[2..] == "";
    } else {
      DotSlashEarlier(path);
    }
  }

  lemma DotSlashEarlier(path: string)
    ensures StartsWith(path + "/", "./") ==> path == "." || StartsWith(path, "./")
  {
    var longer := path + "/";
    if StartsWith(longer, "./") {
      assert longer[0] == "./"[0] && longer[1] == "./"[1];
      if |path| >= 2 {
        assert path[..2] == longer[..2];
      }
    }
  }

  lemma DotIsAlone(path: string)
    ensures TrimEndChar(path, '/') == "." ==> path == "." || StartsWith(path, "./")
  {
    if TrimEndChar(path, '/') == "." && path != "." {
      assert path[0] == '.' && path[1] == '/';
      assert path[..2] == "./";
    }
  }

  function Copies(s: string, n: nat): string {
    if n == 0 then "" else s + Copies(s, n - 1)
  }

  /** Nothing but copies of `./` in front and slashes at the end is removed. */
  lemma {:induction false} OnlyDotSlashesGo(path: string) returns (m: nat, n: nat)
    ensures path == Copies("./", m) + Normalise(path) + Copies("/", n)
  {
    if StartsWith(path, "./") {
      m, n := OnlyDotSlashesGo(path[2..]);
      assert Normalise(path) == Normalise(path[2..]);
      OneCopyMore(path, m, Normalise(path), Copies("/", n));
      m := m + 1;
    } else {
      var t := TrimEndChar(path, '/');
      m, n := 0, |path| - |t|;
      AllSlashes(path[|t|..]);
      assert path == "" + t + path[|t|..];
    }
  }

  lemma OneCopyMore(path: string, m: nat, middle: string, back: string)
    requires StartsWith(path, "./") && path[2..] == Copies("./", m) + middle + back
    ensures path == Copies("./", m + 1) + middle + back
  {
    var copies := Copies("./", m);
    assert path == "./" + path[2..];
    assert "./" + (copies + middle + back) == ("./" + copies) + middle + back;
  }

  lemma {:induction false} AllSlashes(s: string)
    requires forall k :: 0 <= k < |s| ==> s[k] == '/'
    ensures s == Copies("/", |s|)
  {
    if s != "" {
      AllSlashes(s[1..]);
      assert s == [s[0]] + s[1..];
    }
  }

  /** The pattern has a say on this (normalised) path. */
  ghost predicate Applies(p: Pattern, path: string, isDir: bool) {
    && Denotes(path, p.pattern)
    && !(p.dirOnly && !isDir && IsSuffix(Split(p.pattern, '/'), Split(path, '/')))
  }

  /** The last pattern that applies is a positive one. */
  ghost predicate Ignored(patterns: seq<Pattern>, relativePath: string, isDir: bool) {
    exists k :: LastApplicable(patterns, Normalise(relativePath), isDir, k) && !patterns[k].isNegation
  }

  ghost predicate LastApplicable(patterns: seq<Pattern>, path: string, isDir: bool, k: int) {
    && 0 <= k < |patterns|
    && Applies(patterns[k], path, isDir)
    && forall m :: k < m < |patterns| ==> !Applies(patterns[m], path, isDir)
  }

  lemma AppliesByText(p: Pattern, path: string, isDir: bool)
    ensures Applies(p, path, isDir) <==>
            && Denotes(path, p.pattern)
            && !(p.dirOnly && !isDir && (path == p.pattern || EndsWith(path, "/" + p.pattern)))
  {
    SuffixIsText(path, p.pattern);
  }

  lemma LastDecides(patterns: seq<Pattern>, relativePath: string, isDir: bool, last: int)
    requires -1 <= last < |patterns|
    requires last >= 0 ==> Applies(patterns[last], Normalise(relativePath), isDir)
    requires forall m :: last < m < |patterns| ==> !Applies(patterns[m], Normalise(relativePath), isDir)
    ensures Ignored(patterns, relativePath, isDir) <==> last >= 0 && !patterns[last].isNegation
  {
    assert last >= 0 ==> LastApplicable(patterns, Normalise(relativePath), isDir, last);
    assert forall k :: LastApplicable(patterns, Normalise(relativePath), isDir, k) ==> k == last;
  }

  /** One turn of the loop over the patterns: whether this one decides. */
  method AppliesTo(p: Pattern, normalised: string, isDir: bool) returns (applies: bool)
    ensures applies <==> Applies(p, normalised, isDir)
  {
    AppliesByText(p, normalised, isDir);
    if p.dirOnly {
      var isExact := normalised == p.pattern || EndsWith(normalised, "/" + p.pattern);
      if isExact && !isDir {
        return false;
      }
    }
    applies := MatchesPattern(normalised, p.pattern);
  }

  method IsIgnored(patterns: seq<Pattern>, relativePath: string, isDir: bool) returns (ignored: bool)
    ensures ignored <==> Ignored(patterns, relativePath, isDir)
  {
    var normalised := Normalise(relativePath);
    ghost var verdicts := seq(|patterns|, k requires 0 <= k < |patterns| => Applies(patterns[k], normalised, isDir));
    ghost var last := -1;
    ignored := false;
    for n := 0 to |patterns|
      invariant -1 <= last < n
      invariant last >= 0 ==> verdicts[last]
      invariant forall m :: last < m < n ==> !verdicts[m]
      invariant ignored <==> last >= 0 && !patterns[last].isNegation
    {
      var applies := AppliesTo(patterns[n], normalised, isDir);
      assert verdicts[n] == applies;
      if applies {
        ignored := !patterns[n].isNegation;
        last := n;
      }
    }
    forall m | last < m < |patterns| ensures !Applies(patterns[m], normalised, isDir) {
      assert !verdicts[m];
    }
    LastDecides(patterns, relativePath, isDir, last);
  }

  lemma IgnoredUpToNormalisation(patterns: seq<Pattern>, relativePath: string, isDir: bool)
    ensures Ignored(patterns, relativePath, isDir) <==> Ignored(patterns, Normalise(relativePath), isDir)
  {
    NormaliseIsNormal(relativePath);
  }

  /** Adding a pattern at the end decides every path it applies to and no other. */
  lemma LastMatchWins(patterns: seq<Pattern>, p: Pattern, path: string, isDir: bool)
    ensures Ignored(patterns + [p], path, isDir) <==>
            if Applies(p, Normalise(path), isDir) then !p.isNegation else Ignored(patterns, path, isDir)
    ensures !Ignored([], path, isDir)
  {
    var longer, n := patterns + [p], Normalise(path);
    if Applies(p, n, isDir) {
      assert LastApplicable(longer, n, isDir, |patterns|);
      assert forall k :: LastApplicable(longer, n, isDir, k) ==> k == |patterns|;
    } else {
      forall k
        ensures LastApplicable(longer, n, isDir, k) <==> LastApplicable(patterns, n, isDir, k)
      {
        if LastApplicable(patterns, n, isDir, k) {
          assert longer[k] == patterns[k];
          forall m | k < m < |longer| ensures !Applies(longer[m], n, isDir) {
            assert m < |patterns| ==> longer[m] == patterns[m];
          }
        }
        if LastApplicable(longer, n, isDir, k) {
          assert k != |patterns|;
          forall m | k < m < |patterns| ensures !Applies(patterns[m], n, isDir) {
            assert longer[m] == patterns[m];
          }
        }
      }
    }
  }

  /** A star-free directory pattern excludes a file iff the path starts with it without also ending with it. */
  lemma DirectoryPatternOnFile(pattern: string, isNegation: bool, path: string)
    requires '*' !in pattern
    ensures Applies(Pattern(pattern, isNegation, true), path, false) <==>
            && Split(pattern, '/') <= Split(path, '/')
            && !IsSuffix(Split(pattern, '/'), Split(path, '/'))
  {
    LiteralMeaning(path, pattern);
  }

  /**
   * A directory pattern misses some files beneath its directory: `name/` excludes
   * the file `name/top/leaf` unless the file itself is called `name`.
   */
  lemma DirectoryPatternBeneath(name: string, top: string, leaf: string)
    requires '/' !in name && '/' !in top && '/' !in leaf && '*' !in name
    ensures Applies(Pattern(name, false, true), name + "/" + top + "/" + leaf, false) <==> leaf != name
  {
    var path := name + "/" + top + "/" + leaf;
    SplitOfThree(name, top, leaf);
    SplitWhole(name, '/');
    DirectoryPatternOnFile(name, false, path);
    assert [name, top, leaf][2..] == [leaf];
  }

  /**
   * A plain name excludes a nested directory of that name, but what the directory
   * holds only if the path also starts or ends with the name.
   */
  lemma NestedContents(top: string, name: string, leaf: string)
    requires '/' !in name && '/' !in top && '/' !in leaf && '*' !in name
    ensures Denotes(top + "/" + name, name)
    ensures Denotes(top + "/" + name + "/" + leaf, name) <==> top == name || leaf == name
  {
    SplitWhole(top, '/');
    SplitWhole(name, '/');
    SplitAround(top, '/', name);
    assert [top, name][1..] == [name];
    LiteralMeaning(top + "/" + name, name);
    SplitOfThree(top, name, leaf);
    assert [top, name, leaf][2..] == [leaf];
    LiteralMeaning(top + "/" + name + "/" + leaf, name);
  }

  /** Whether a star-free pattern matches a path beneath the entry `e`. */
  lemma BeneathMeaning(pattern: string, e: string, rest: string)
    requires '*' !in pattern
    ensures var items, segments := Split(pattern, '/'), Split(e, '/') + Split(rest, '/');
            Denotes(e + "/" + rest, pattern) <==> items <= segments || IsSuffix(items, segments)
  {
    SplitAround(e, '/', rest);
    LiteralMeaning(e + "/" + rest, pattern);
  }

  /** It matches everything beneath `e` exactly when the segments of `e` start with its own. */
  lemma ContentsCoveredIff(pattern: string, e: string)
    requires '*' !in pattern
    ensures (forall rest :: Denotes(e + "/" + rest, pattern)) <==> Split(pattern, '/') <= Split(e, '/')
  {
    var items, above := Split(pattern, '/'), Split(e, '/');
    if items <= above {
      forall rest ensures Denotes(e + "/" + rest, pattern) {
        BeneathMeaning(pattern, e, rest);
      }
    } else {
      var rest := seq(|pattern| + 1, _ => 'x');
      SplitWhole(rest, '/');
      PiecesAreNoLonger(pattern, '/');
      assert rest !in items;
      BeneathMeaning(pattern, e, rest);
      PrefixReachesLast(items, above, rest);
      SuffixReachesLast(items, above, rest);
      assert !Denotes(e + "/" + rest, pattern);
    }
  }

  lemma PrefixReachesLast(items: seq<string>, above: seq<string>, last: string)
    ensures items <= above + [last] ==> items <= above || last in items
  {
    if items <= above + [last] {
      if |items| == |above| + 1 {
        assert items[|above|] == last;
      } else {
        assert items <= above;
      }
    }
  }

  lemma SuffixReachesLast(items: seq<string>, above: seq<string>, last: string)
    requires items != []
    ensures IsSuffix(items, above + [last]) ==> last in items
  {
    if IsSuffix(items, above + [last]) {
      assert items[|items| - 1] == last;
    }
  }

  lemma SplitOfThree(a: string, b: string, c: string)
    requires '/' !in a && '/' !in b && '/' !in c
    ensures Split(a + "/" + b + "/" + c, '/') == [a, b, c]
  {
    SplitWhole(a, '/');
    SplitWhole(b, '/');
    SplitWhole(c, '/');
    SplitAround(a, '/', b);
    SplitAround(a + "/" + b, '/', c);
  }

  // ---- Loading ----

  function ParseEntry(trimmed: string): Pattern
    requires trimmed != ""
  {
    var isNegation := trimmed[0] == '!';
    ParseCleaned(if isNegation then trimmed[1..] else trimmed, isNegation)
  }

  function ParseCleaned(cleaned: string, isNegation: bool): Pattern {
    var dirOnly := EndsWith(cleaned, "/");
    Pattern(if dirOnly then TrimEndChar(cleaned, '/') else cleaned, isNegation, dirOnly)
  }

  /** The trimmed lines that are neither blank nor comments. */
  function Entries(lines: seq<string>): (entries: seq<string>)
    ensures "" !in entries
  {
    if lines == [] then [] else Entry(lines[0]) + Entries(lines[1..])
  }

  function Entry(line: string): (entry: seq<string>)
    ensures "" !in entry
  {
    var trimmed := Trim(line);
    if trimmed == "" || trimmed[0] == '#' then [] else [trimmed]
  }

  /** Whitespace around a line, a carriage return included, does not matter; blank lines and comments are no entries. */
  lemma EntryOfLine(front: string, body: string, back: string)
    requires AllWhitespace(front) && AllWhitespace(back)
    requires body == "" || (!IsWhitespace(body[0]) && !IsWhitespace(body[|body| - 1]))
    ensures Entry(front + body + back) == if body == "" || body[0] == '#' then [] else [body]
  {
    TrimAround(front, body, back);
  }

  function ParseAll(entries: seq<string>): seq<Pattern>
    requires "" !in entries
  {
    seq(|entries|, k requires 0 <= k < |entries| => ParseEntry(entries[k]))
  }

  lemma ParseAllConcat(a: seq<string>, b: seq<string>)
    requires "" !in a && "" !in b
    ensures ParseAll(a + b) == ParseAll(a) + ParseAll(b)
  {
  }

  lemma {:induction false} EntriesConcat(a: seq<string>, b: seq<string>)
    ensures Entries(a + b) == Entries(a) + Entries(b)
  {
    if a == [] {
      assert a + b == b;
    } else {
      EntriesConcat(a[1..], b);
      assert (a + b)[0] == a[0] && (a + b)[1..] == a[1..] + b;
      Associative(Entry(a[0]), Entries(a[1..]), Entries(b));
    }
  }

  /** A missing file is an empty pattern set. */
  function LoadedPatterns(file: Option<string>): seq<Pattern> {
    match file
    case None => []
    case Some(text) => ParseAll(Entries(Lines(text)))
  }

  /** Reading gets an error: the file does not open, or a line is not valid text. */
  predicate CannotLoad(file: Option<string>, opens: bool, badLine: Option<nat>) {
    file.Some? && (!opens || (badLine.Some? && badLine.value < |Lines(file.value)|))
  }

  method LoadLine(line: string) returns (added: seq<Pattern>)
    ensures added == ParseAll(Entry(line))
  {
    var trimmed := Trim(line);
    if trimmed == "" || trimmed[0] == '#' {
      return [];
    }
    var isNegation := trimmed[0] == '!';
    var cleaned := if isNegation then trimmed[1..] else trimmed;
    var dirOnly := EndsWith(cleaned, "/");
    if dirOnly {
      cleaned := TrimEndChar(cleaned, '/');
    }
    added := [Pattern(cleaned, isNegation, dirOnly)];
  }

  /** None is the error, after which the caller has no patterns at all. */
  method Load(file: Option<string>, opens: bool, badLine: Option<nat>) returns (loaded: Option<seq<Pattern>>)
    ensures loaded == if CannotLoad(file, opens, badLine) then None else Some(LoadedPatterns(file))
  {
    hide Entry, Entries, ParseAll, Lines;
    if file.None? {
      return Some([]);
    }
    if !opens {
      return None;
    }
    var patterns := [];
    var lines := Lines(file.value);
    NothingLoaded(lines);
    for n := 0 to |lines|
      invariant patterns == ParseAll(Entries(lines[..n]))
      invariant badLine.Some? ==> n <= badLine.value
    {
      if badLine == Some(n) {
        return None;
      }
      EntriesNext(lines, n);
      var added := LoadLine(lines[n]);
      patterns := patterns + added;
    }
    assert lines[..|lines|] == lines;
    loaded := Some(patterns);
  }

  lemma NothingLoaded(lines: seq<string>)
    ensures ParseAll(Entries(lines[..0])) == []
  {
  }

  lemma EntriesNext(lines: seq<string>, n: nat)
    requires n < |lines|
    ensures ParseAll(Entries(lines[..n + 1])) == ParseAll(Entries(lines[..n])) + ParseAll(Entry(lines[n]))
  {
    assert lines[..n + 1] == lines[..n] + [lines[n]];
    EntriesConcat(lines[..n], [lines[n]]);
    assert Entries([lines[n]]) == Entry(lines[n]);
    ParseAllConcat(Entries(lines[..n]), Entry(lines[n]));
  }
}
