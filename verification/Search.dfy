/** Ranking the rows a search has fetched. */
module Search {
  import opened Options
  import opened Text
  import opened StableSort

  datatype Row = Row(path: string, fileType: string, purpose: string, summary: string, features: seq<string>,
                     tags: seq<string>, exportedFunctions: seq<string>)

  datatype Scored = Scored(row: Row, score: nat)

  datatype Query = Query(query: Option<string>, features: Option<seq<string>>, limit: Option<nat>)

  datatype Results = TooLong | ControlCharacter | Rows(rows: seq<Scored>)

  const MAX_QUERY_BYTES: nat := 1000
  const DEFAULT_LIMIT: nat := 50

  /** `lower` stands for `to_lowercase`. */
  type Lower = string -> string

  predicate Contains(s: string, part: string) {
    exists i :: 0 <= i <= |s| && StartsWith(s[i..], part)
  }

  predicate AnyContains(lower: Lower, fields: seq<string>, part: string) {
    exists k :: 0 <= k < |fields| && Contains(lower(fields[k]), part)
  }

  function Points(hit: bool, points: nat): nat {
    if hit then points else 0
  }

  /** The weights of a hit of the whole query. */
  function FullPoints(lower: Lower, r: Row, q: string): nat {
    Points(AnyContains(lower, [r.path], q), 5) + Points(AnyContains(lower, [r.purpose], q), 5) +
    Points(AnyContains(lower, [r.summary], q), 4) + Points(AnyContains(lower, r.features, q), 5) +
    Points(AnyContains(lower, r.tags, q), 4) + Points(AnyContains(lower, r.exportedFunctions, q), 4)
  }

  /** The weights of a hit of one token. */
  function TokenPoints(lower: Lower, r: Row, t: string): nat {
    Points(AnyContains(lower, r.features, t), 4) + Points(AnyContains(lower, r.tags, t), 3) +
    Points(AnyContains(lower, [r.purpose], t), 3) + Points(AnyContains(lower, [r.summary], t), 2) +
    Points(AnyContains(lower, [r.path], t), 3) + Points(AnyContains(lower, r.exportedFunctions, t), 3) +
    Points(AnyContains(lower, [r.fileType], t), 1)
  }

  // ---- What a hit adds ----

  datatype Field = Path | FileType | Purpose | Summary | Features | Tags | Functions

  /** The field, or one of its values, contains `part` when lowered. */
  predicate Hits(lower: Lower, r: Row, f: Field, part: string) {
    match f
    case Path => Contains(lower(r.path), part)
    case FileType => Contains(lower(r.fileType), part)
    case Purpose => Contains(lower(r.purpose), part)
    case Summary => Contains(lower(r.summary), part)
    case Features => exists v :: v in r.features && Contains(lower(v), part)
    case Tags => exists v :: v in r.tags && Contains(lower(v), part)
    case Functions => exists v :: v in r.exportedFunctions && Contains(lower(v), part)
  }

  function FullWeight(f: Field): nat {
    match f
    case Path => 5
    case FileType => 0
    case Purpose => 5
    case Summary => 4
    case Features => 5
    case Tags => 4
    case Functions => 4
  }

  function TokenWeight(f: Field): nat {
    match f
    case Path => 3
    case FileType => 1
    case Purpose => 3
    case Summary => 2
    case Features => 4
    case Tags => 3
    case Functions => 3
  }

  /** `r` hits just the fields `bare` hits, and the field `f`. */
  ghost predicate HitsOneMore(lower: Lower, bare: Row, r: Row, f: Field, part: string) {
    !Hits(lower, bare, f, part) && forall g :: Hits(lower, r, g, part) <==> g == f || Hits(lower, bare, g, part)
  }

  lemma AnyHits(lower: Lower, r: Row, part: string)
    ensures AnyContains(lower, [r.path], part) <==> Hits(lower, r, Path, part)
    ensures AnyContains(lower, [r.fileType], part) <==> Hits(lower, r, FileType, part)
    ensures AnyContains(lower, [r.purpose], part) <==> Hits(lower, r, Purpose, part)
    ensures AnyContains(lower, [r.summary], part) <==> Hits(lower, r, Summary, part)
    ensures AnyContains(lower, r.features, part) <==> Hits(lower, r, Features, part)
    ensures AnyContains(lower, r.tags, part) <==> Hits(lower, r, Tags, part)
    ensures AnyContains(lower, r.exportedFunctions, part) <==> Hits(lower, r, Functions, part)
  {
    OneContains(lower, r.path, part);
    OneContains(lower, r.fileType, part);
    OneContains(lower, r.purpose, part);
    OneContains(lower, r.summary, part);
    SomeContains(lower, r.features, part);
    SomeContains(lower, r.tags, part);
    SomeContains(lower, r.exportedFunctions, part);
  }

  lemma OneContains(lower: Lower, s: string, part: string)
    ensures AnyContains(lower, [s], part) <==> Contains(lower(s), part)
  {
    assert Contains(lower(s), part) ==> Contains(lower([s][0]), part);
  }

  lemma SomeContains(lower: Lower, values: seq<string>, part: string)
    ensures AnyContains(lower, values, part) <==> exists v :: v in values && Contains(lower(v), part)
  {
    if v :| v in values && Contains(lower(v), part) {
      var k :| 0 <= k < |values| && values[k] == v;
      assert Contains(lower(values[k]), part);
    }
    if k :| 0 <= k < |values| && Contains(lower(values[k]), part) {
      assert values[k] in values;
    }
  }

  /** Every field that the whole query hits adds its own weight, and nothing else adds anything. */
  lemma QueryHitsAddUp(lower: Lower, bare: Row, r: Row, f: Field, part: string)
    ensures HitsOneMore(lower, bare, r, f, part) ==>
      FullPoints(lower, r, part) == FullPoints(lower, bare, part) + FullWeight(f)
    ensures (forall g :: !Hits(lower, bare, g, part)) ==> FullPoints(lower, bare, part) == 0
  {
    hide Hits, AnyContains;
    AnyHits(lower, bare, part);
    AnyHits(lower, r, part);
  }

  /** So does every field that a token hits. */
  lemma TokenHitsAddUp(lower: Lower, bare: Row, r: Row, f: Field, part: string)
    ensures HitsOneMore(lower, bare, r, f, part) ==>
      TokenPoints(lower, r, part) == TokenPoints(lower, bare, part) + TokenWeight(f)
    ensures (forall g :: !Hits(lower, bare, g, part)) ==> TokenPoints(lower, bare, part) == 0
  {
    hide Hits, AnyContains;
    AnyHits(lower, bare, part);
    AnyHits(lower, r, part);
  }

  lemma ContainsIff(s: string, part: string)
    ensures Contains(s, part) <==> exists a, b :: s == a + part + b
  {
    if i :| 0 <= i <= |s| && StartsWith(s[i..], part) {
      assert s == s[..i] + part + s[i + |part|..];
    }
    if a, b :| s == a + part + b {
      assert s[|a|..] == part + b;
      assert StartsWith(s[|a|..], part);
    }
  }

  function TokensPoints(lower: Lower, r: Row, tokens: seq<string>): nat {
    if tokens == [] then 0
    else
      var t := tokens[|tokens| - 1];
      TokensPoints(lower, r, tokens[..|tokens| - 1]) + if t == "" then 0 else TokenPoints(lower, r, t)
  }

  function Score(lower: Lower, r: Row, q: string, tokens: seq<string>): nat {
    (if lower(q) == "" then 0 else FullPoints(lower, r, lower(q))) + TokensPoints(lower, r, tokens)
  }

  /** The score is that of the lowered query, unless it is empty, and of every token that is not. */
  lemma ScoreAddsUp(lower: Lower, r: Row, q: string, tokens: seq<string>, t: string)
    ensures Score(lower, r, q, []) == if lower(q) == "" then 0 else FullPoints(lower, r, lower(q))
    ensures Score(lower, r, q, tokens + [t]) ==
            Score(lower, r, q, tokens) + if t == "" then 0 else TokenPoints(lower, r, t)
  {
    hide TokenPoints, FullPoints;
    assert (tokens + [t])[..|tokens|] == tokens;
  }

  method ScoreResult(lower: Lower, r: Row, q: string, tokens: seq<string>) returns (score: nat)
    ensures score == Score(lower, r, q, tokens)
  {
    var qLower := lower(q);
    score := 0;
    if qLower != "" {
      score := score + Points(AnyContains(lower, [r.path], qLower), 5);
      score := score + Points(AnyContains(lower, [r.purpose], qLower), 5);
      score := score + Points(AnyContains(lower, [r.summary], qLower), 4);
      score := score + Points(AnyContains(lower, r.features, qLower), 5);
      score := score + Points(AnyContains(lower, r.tags, qLower), 4);
      score := score + Points(AnyContains(lower, r.exportedFunctions, qLower), 4);
    }
    ghost var full := score;
    for k := 0 to |tokens|
      invariant score == full + TokensPoints(lower, r, tokens[..k])
    {
      assert tokens[..k + 1][..k] == tokens[..k];
      var t := tokens[k];
      if t == "" {
        continue;
      }
      score := score + Points(AnyContains(lower, r.features, t), 4);
      score := score + Points(AnyContains(lower, r.tags, t), 3);
      score := score + Points(AnyContains(lower, [r.purpose], t), 3);
      score := score + Points(AnyContains(lower, [r.summary], t), 2);
      score := score + Points(AnyContains(lower, [r.path], t), 3);
      score := score + Points(AnyContains(lower, r.exportedFunctions, t), 3);
      score := score + Points(AnyContains(lower, [r.fileType], t), 1);
    }
    assert tokens[..|tokens|] == tokens;
  }

  // ---- Tokens ----

  function WordLength(s: string): (n: nat)
    ensures n <= |s| && (n < |s| ==> IsWhitespace(s[n]))
    ensures s != "" && !IsWhitespace(s[0]) ==> n > 0
  {
    if s == "" || IsWhitespace(s[0]) then 0 else 1 + WordLength(s[1..])
  }

  /** `split_whitespace`. */
  function Words(s: string): seq<string>
    decreases |s|
  {
    if s == "" then []
    else if IsWhitespace(s[0]) then Words(s[1..])
    else [s[..WordLength(s)]] + Words(s[WordLength(s)..])
  }

  /** Whitespace separates words, and a text without any is one word. */
  lemma {:induction false} WordsAround(a: string, c: char, b: string)
    requires IsWhitespace(c)
    ensures Words(a + [c] + b) == Words(a) + Words(b)
    decreases |a|
  {
    var s := a + [c] + b;
    if a == "" {
      assert s[0] == c && s[1..] == b;
      assert Words(s) == Words(b);
    } else if IsWhitespace(a[0]) {
      WordsAround(a[1..], c, b);
      assert s[1..] == a[1..] + [c] + b;
    } else {
      WordLengthAround(a, c, b);
      var n := WordLength(a);
      WordsAround(a[n..], c, b);
      assert s[..n] == a[..n] && s[n..] == a[n..] + [c] + b;
    }
  }

  lemma {:induction false} WordLengthAround(a: string, c: char, b: string)
    requires IsWhitespace(c)
    ensures WordLength(a + [c] + b) == WordLength(a)
  {
    var s := a + [c] + b;
    if a != "" && !IsWhitespace(a[0]) {
      WordLengthAround(a[1..], c, b);
      assert s[1..] == a[1..] + [c] + b;
    }
  }

  lemma {:induction false} WordOfItsOwn(w: string)
    requires forall k :: 0 <= k < |w| ==> !IsWhitespace(w[k])
    ensures WordLength(w) == |w| && Words(w) == if w == "" then [] else [w]
  {
    if w != "" {
      WordOfItsOwn(w[1..]);
      assert w[..|w|] == w && w[|w|..] == "";
    }
  }

  function Lowered(lower: Lower, words: seq<string>): seq<string> {
    if words == [] then []
    else (if lower(words[0]) == "" then [] else [lower(words[0])]) + Lowered(lower, words[1..])
  }

  function Tokens(lower: Lower, query: string): seq<string> {
    Lowered(lower, Words(if EndsWith(query, "*") then TrimEndChar(query, '*') else query))
  }

  lemma {:induction false} WordsAreFew(s: string)
    ensures 2 * |Words(s)| <= |s| + 1
    decreases |s|
  {
    if s != "" {
      if IsWhitespace(s[0]) {
        WordsAreFew(s[1..]);
      } else {
        var rest := s[WordLength(s)..];
        if rest != "" {
          assert Words(rest) == Words(rest[1..]);
          WordsAreFew(rest[1..]);
        }
      }
    }
  }

  lemma {:induction false} LoweredIsShorter(lower: Lower, words: seq<string>)
    ensures |Lowered(lower, words)| <= |words| && "" !in Lowered(lower, words)
  {
    if words != [] {
      LoweredIsShorter(lower, words[1..]);
    }
  }

  /** The number of bytes of the UTF-8 encoding. */
  function Utf8Length(s: string): nat {
    if s == "" then 0
    else
      var c := s[0] as int;
      (if c < 0x80 then 1 else if c < 0x800 then 2 else if c < 0x1_0000 then 3 else 4) + Utf8Length(s[1..])
  }

  lemma {:induction false} CharactersAreBytes(s: string)
    ensures |s| <= Utf8Length(s)
  {
    if s != "" {
      CharactersAreBytes(s[1..]);
    }
  }

  /** Stars at the end of a query do not count, and every token is a lowered word. */
  lemma TokensOfQuery(lower: Lower, query: string)
    ensures Tokens(lower, query + "*") == Tokens(lower, query)
    ensures !EndsWith(query, "*") ==>
      forall t :: t in Tokens(lower, query) <==> t != "" && exists w :: w in Words(query) && lower(w) == t
  {
    var longer := query + "*";
    EndsWithChar(query, '*');
    EndsWithChar(longer, '*');
    assert longer[..|longer| - 1] == query;
    assert TrimEndChar(longer, '*') == TrimEndChar(query, '*');
    LoweredMembers(lower, Words(query));
  }

  lemma {:induction false} LoweredMembers(lower: Lower, words: seq<string>)
    ensures forall t :: t in Lowered(lower, words) <==> t != "" && exists w :: w in words && lower(w) == t
  {
    if words != [] {
      LoweredMembers(lower, words[1..]);
      assert forall w :: w in words <==> w == words[0] || w in words[1..];
    }
  }

  /** A query that passes the length check has at most 500 tokens, none of them empty. */
  lemma TokensAreFew(lower: Lower, query: string)
    requires Utf8Length(query) <= MAX_QUERY_BYTES
    ensures |Tokens(lower, query)| <= 500 && "" !in Tokens(lower, query)
  {
    var stripped := if EndsWith(query, "*") then TrimEndChar(query, '*') else query;
    CharactersAreBytes(query);
    WordsAreFew(stripped);
    LoweredIsShorter(lower, Words(stripped));
  }

  // ---- Filtering and ranking ----

  predicate Matches(lower: Lower, r: Row, t: string) {
    || AnyContains(lower, [r.path], t) || AnyContains(lower, [r.fileType], t) || AnyContains(lower, [r.purpose], t)
    || AnyContains(lower, [r.summary], t) || AnyContains(lower, r.features, t) || AnyContains(lower, r.tags, t)
    || AnyContains(lower, r.exportedFunctions, t)
  }

  /** The row passes the feature filter, if there is one, and matches some token, if there are any. */
  predicate Kept(lower: Lower, q: Query, tokens: seq<string>, r: Row) {
    && (q.features.Some? ==>
          exists k :: 0 <= k < |q.features.value| && AnyContains(lower, r.features, lower(q.features.value[k])))
    && (tokens != [] ==> exists k :: 0 <= k < |tokens| && Matches(lower, r, tokens[k]))
  }

  /** The filters in terms of the fields. */
  lemma KeptIff(lower: Lower, q: Query, tokens: seq<string>, r: Row)
    ensures Kept(lower, q, tokens, r) <==>
      && (q.features.Some? ==> exists v :: v in q.features.value && Hits(lower, r, Features, lower(v)))
      && (tokens != [] ==> exists t, f :: t in tokens && Hits(lower, r, f, t))
  {
    forall part ensures Matches(lower, r, part) <==> exists f :: Hits(lower, r, f, part) {
      AnyHits(lower, r, part);
    }
    forall part ensures AnyContains(lower, r.features, part) <==> Hits(lower, r, Features, part) {
      AnyHits(lower, r, part);
    }
    hide Hits, Matches, AnyContains;
    assert tokens != [] ==>
        ((exists k :: 0 <= k < |tokens| && Matches(lower, r, tokens[k])) <==>
         exists t :: t in tokens && Matches(lower, r, t));
    if q.features.Some? {
      var wanted := q.features.value;
      assert (exists k :: 0 <= k < |wanted| && AnyContains(lower, r.features, lower(wanted[k]))) <==>
             exists v :: v in wanted && AnyContains(lower, r.features, lower(v));
    }
  }

  function Retain(lower: Lower, q: Query, tokens: seq<string>, rows: seq<Row>): seq<Row> {
    if rows == [] then []
    else (if Kept(lower, q, tokens, rows[0]) then [rows[0]] else []) + Retain(lower, q, tokens, rows[1..])
  }

  predicate HigherFirst(a: Scored, b: Scored) {
    a.score >= b.score
  }

  /** The kept rows with their scores; without a query every score is 0. */
  function AllScored(lower: Lower, q: Query, tokens: seq<string>, rows: seq<Row>): seq<Scored> {
    seq(|rows|, k requires 0 <= k < |rows| =>
      Scored(rows[k], if q.query.Some? then Score(lower, rows[k], q.query.value, tokens) else 0))
  }

  function Limit(q: Query): nat {
    if q.limit.Some? then q.limit.value else DEFAULT_LIMIT
  }

  predicate IsControl(c: char) {
    c as int < 0x20 || 0x7F <= c as int < 0xA0
  }

  predicate HasControl(s: string) {
    exists k :: 0 <= k < |s| && IsControl(s[k]) && s[k] != '\n' && s[k] != '\t'
  }

  /** From the fetched rows to the answer. */
  method Search(lower: Lower, q: Query, fetched: seq<Row>) returns (results: Results)
    ensures results.TooLong? <==> q.query.Some? && Utf8Length(q.query.value) > MAX_QUERY_BYTES
    ensures results.ControlCharacter? <==>
      q.query.Some? && Utf8Length(q.query.value) <= MAX_QUERY_BYTES && HasControl(q.query.value)
    ensures results.Rows? ==> results.rows == Ranked(lower, q, fetched)
  {
    if q.query.Some? {
      if Utf8Length(q.query.value) > MAX_QUERY_BYTES {
        return TooLong;
      }
      if HasControl(q.query.value) {
        return ControlCharacter;
      }
    }
    var tokens := TokensOf(lower, q);
    var kept := Retain(lower, q, tokens, fetched);
    var rows: seq<Scored> := [];
    for k := 0 to |kept|
      invariant rows == AllScored(lower, q, tokens, kept)[..k]
    {
      var score := 0;
      if q.query.Some? {
        score := ScoreResult(lower, kept[k], q.query.value, tokens);
      }
      rows := rows + [Scored(kept[k], score)];
    }
    assert rows == Candidates(lower, q, fetched);
    if q.query.Some? {
      rows := Sort(HigherFirst, rows);
    }
    if |rows| > Limit(q) {
      rows := rows[..Limit(q)];
    }
    results := Rows(rows);
  }

  function TokensOf(lower: Lower, q: Query): seq<string> {
    Tokens(lower, if q.query.Some? then q.query.value else "")
  }

  function Candidates(lower: Lower, q: Query, fetched: seq<Row>): seq<Scored> {
    var tokens := TokensOf(lower, q);
    AllScored(lower, q, tokens, Retain(lower, q, tokens, fetched))
  }

  function Ranked(lower: Lower, q: Query, fetched: seq<Row>): seq<Scored> {
    var all := Candidates(lower, q, fetched);
    Truncated(if q.query.Some? then Sort(HigherFirst, all) else all, Limit(q))
  }

  function Truncated(rows: seq<Scored>, n: nat): seq<Scored> {
    if |rows| > n then rows[..n] else rows
  }

  /** `top` is the head, at most `n` long, of the stable descending order of `all`; nothing left out scores higher. */
  ghost predicate IsTop(all: seq<Scored>, top: seq<Scored>, rest: seq<Scored>, n: nat) {
    && IsStableSort(HigherFirst, all, top + rest)
    && |top| <= n && (|top| < n ==> rest == [])
    && forall a, b :: a in top && b in rest ==> a.score >= b.score
  }

  lemma TruncatedIsTop(all: seq<Scored>, n: nat) returns (rest: seq<Scored>)
    ensures IsTop(all, Truncated(Sort(HigherFirst, all), n), rest, n)
  {
    hide Ties, Sort;
    SortIsStable(HigherFirst, all);
    var sorted := Sort(HigherFirst, all);
    var top := Truncated(sorted, n);
    rest := sorted[|top|..];
    assert top + rest == sorted;
    forall a, b | a in top && b in rest ensures a.score >= b.score {
      var i :| 0 <= i < |top| && top[i] == a;
      var j :| 0 <= j < |rest| && rest[j] == b;
      assert HigherFirst(sorted[i], sorted[|top| + j]);
    }
  }

  /** With a query the answer is the top of all kept rows. */
  lemma RankedIsTop(lower: Lower, q: Query, fetched: seq<Row>) returns (rest: seq<Scored>)
    requires q.query.Some?
    ensures IsTop(Candidates(lower, q, fetched), Ranked(lower, q, fetched), rest, Limit(q))
  {
    rest := TruncatedIsTop(Candidates(lower, q, fetched), Limit(q));
  }

  /** Without a query the answer is the first of the kept rows, as fetched and with score 0. */
  lemma UnrankedIsPrefix(lower: Lower, q: Query, fetched: seq<Row>)
    requires q.query.None?
    ensures var kept, rows := Retain(lower, q, TokensOf(lower, q), fetched), Ranked(lower, q, fetched);
            && |rows| == (if |kept| <= Limit(q) then |kept| else Limit(q))
            && forall k :: 0 <= k < |rows| ==> rows[k] == Scored(kept[k], 0)
  {
    hide Retain, TokensOf;
  }

  lemma TruncatedMembers(all: seq<Scored>, n: nat, s: Scored)
    requires s in Truncated(Sort(HigherFirst, all), n)
    ensures s in all
  {
    SortIsStable(HigherFirst, all);
    assert s in Sort(HigherFirst, all);
    assert s in multiset(Sort(HigherFirst, all));
  }

  lemma {:induction false} TokensPointsBounds(lower: Lower, r: Row, tokens: seq<string>)
    ensures TokensPoints(lower, r, tokens) <= 19 * |tokens|
    ensures (exists k :: 0 <= k < |tokens| && tokens[k] != "" && Matches(lower, r, tokens[k])) ==>
              TokensPoints(lower, r, tokens) >= 1
  {
    if tokens != [] {
      var n := |tokens| - 1;
      TokensPointsBounds(lower, r, tokens[..n]);
      if k :| 0 <= k < |tokens| && tokens[k] != "" && Matches(lower, r, tokens[k]) {
        if k < n {
          assert tokens[..n][k] == tokens[k];
        }
      }
    }
  }

  lemma {:induction false} RetainMembers(lower: Lower, q: Query, tokens: seq<string>, rows: seq<Row>)
    ensures forall r :: r in Retain(lower, q, tokens, rows) <==> r in rows && Kept(lower, q, tokens, r)
  {
    if rows != [] {
      RetainMembers(lower, q, tokens, rows[1..]);
      assert forall r :: r in rows <==> r == rows[0] || r in rows[1..];
    }
  }

  /** Filtering keeps the order and the number of the rows that pass. */
  lemma {:induction false} RetainSplits(lower: Lower, q: Query, tokens: seq<string>, a: seq<Row>, b: seq<Row>)
    ensures Retain(lower, q, tokens, a + b) == Retain(lower, q, tokens, a) + Retain(lower, q, tokens, b)
  {
    hide Kept;
    if a == [] {
      assert a + b == b;
    } else {
      RetainSplits(lower, q, tokens, a[1..], b);
      assert (a + b)[0] == a[0] && (a + b)[1..] == a[1..] + b;
      var head := if Kept(lower, q, tokens, a[0]) then [a[0]] else [];
      Associative(head, Retain(lower, q, tokens, a[1..]), Retain(lower, q, tokens, b));
    }
  }

  lemma RetainOne(lower: Lower, q: Query, tokens: seq<string>, r: Row)
    ensures Retain(lower, q, tokens, [r]) == if Kept(lower, q, tokens, r) then [r] else []
  {
    hide Kept;
  }

  /** Every scored row scores at least 1 and at most 27 + 19 per token, which a legal query keeps at or below 9527. */
  lemma ScoresAreBounded(lower: Lower, q: Query, fetched: seq<Row>, s: Scored)
    requires q.query.Some? && Utf8Length(q.query.value) <= MAX_QUERY_BYTES
    requires s in Ranked(lower, q, fetched)
    ensures s.row in fetched && Kept(lower, q, TokensOf(lower, q), s.row)
    ensures TokensOf(lower, q) != [] ==> s.score >= 1
    ensures s.score <= 27 + 19 * |TokensOf(lower, q)| <= 9527
  {
    var tokens := TokensOf(lower, q);
    var kept := Retain(lower, q, tokens, fetched);
    var all := Candidates(lower, q, fetched);
    TruncatedMembers(all, Limit(q), s);
    var k :| 0 <= k < |all| && all[k] == s;
    assert s.row == kept[k] && s.row in kept;
    RetainMembers(lower, q, tokens, fetched);
    TokensAreFew(lower, q.query.value);
    ScoreBounds(lower, q, tokens, s.row);
  }

  lemma ScoreBounds(lower: Lower, q: Query, tokens: seq<string>, r: Row)
    requires q.query.Some? && "" !in tokens && Kept(lower, q, tokens, r)
    ensures tokens != [] ==> Score(lower, r, q.query.value, tokens) >= 1
    ensures Score(lower, r, q.query.value, tokens) <= 27 + 19 * |tokens|
  {
    TokensPointsBounds(lower, r, tokens);
    if tokens != [] {
      var k :| 0 <= k < |tokens| && Matches(lower, r, tokens[k]);
      assert tokens[k] in tokens;
    }
  }
}
