/** The string operations of Rust's standard library that the repository relies on. */
module Text {
  lemma Associative<T>(a: seq<T>, b: seq<T>, c: seq<T>)
    ensures a + (b + c) == (a + b) + c
  {
  }

  predicate StartsWith(s: string, prefix: string) {
    |prefix| <= |s| && s[..|prefix|] == prefix
  }

  predicate EndsWith(s: string, suffix: string) {
    |suffix| <= |s| && s[|s| - |suffix|..] == suffix
  }

  lemma EndsWithChar(s: string, c: char)
    ensures EndsWith(s, [c]) <==> s != "" && s[|s| - 1] == c
  {
    if s != "" {
      assert s[|s| - 1..] == [s[|s| - 1]];
    }
  }

  /** `split(sep)`: the pieces between separators; always at least one piece. */
  function Split(s: string, sep: char): (pieces: seq<string>)
    ensures |pieces| >= 1
  {
    if s == "" then [""]
    else
      var rest := Split(s[1..], sep);
      if s[0] == sep then [""] + rest else [[s[0]] + rest[0]] + rest[1..]
  }

  /** `join(sep)`. */
  function Join(pieces: seq<string>, sep: char): string
  {
    if pieces == [] then ""
    else if |pieces| == 1 then pieces[0]
    else pieces[0] + [sep] + Join(pieces[1..], sep)
  }

  lemma {:induction false} PiecesHaveNoSeparator(s: string, sep: char)
    ensures forall k :: 0 <= k < |Split(s, sep)| ==> sep !in Split(s, sep)[k]
  {
    if s != "" {
      PiecesHaveNoSeparator(s[1..], sep);
    }
  }

  lemma {:induction false} PiecesAreNoLonger(s: string, sep: char)
    ensures forall k :: 0 <= k < |Split(s, sep)| ==> |Split(s, sep)[k]| <= |s|
  {
    if s != "" {
      PiecesAreNoLonger(s[1..], sep);
    }
  }

  lemma {:induction false} JoinOfSplit(s: string, sep: char)
    ensures Join(Split(s, sep), sep) == s
  {
    if s != "" {
      JoinOfSplit(s[1..], sep);
      var rest := Split(s[1..], sep);
      if s[0] == sep {
        assert ([""] + rest)[1..] == rest;
      } else {
        assert ([[s[0]] + rest[0]] + rest[1..])[1..] == rest[1..];
      }
    }
  }

  lemma {:induction false} SplitAround(a: string, sep: char, b: string)
    ensures Split(a + [sep] + b, sep) == Split(a, sep) + Split(b, sep)
  {
    if a == "" {
      assert a + [sep] + b == [sep] + b;
      assert ([sep] + b)[1..] == b;
    } else {
      SplitAround(a[1..], sep, b);
      assert a + [sep] + b == [a[0]] + (a[1..] + [sep] + b);
      SplitStep(a[0], a[1..] + [sep] + b, sep);
      SplitStep(a[0], a[1..], sep);
      assert [a[0]] + a[1..] == a;
      WithFirstConcat(a[0], sep, Split(a[1..], sep), Split(b, sep));
    }
  }

  /** One character in front of split text. */
  function WithFirst(c: char, sep: char, pieces: seq<string>): seq<string>
    requires pieces != []
  {
    if c == sep then [""] + pieces else [[c] + pieces[0]] + pieces[1..]
  }

  lemma SplitStep(c: char, s: string, sep: char)
    ensures Split([c] + s, sep) == WithFirst(c, sep, Split(s, sep))
  {
    assert ([c] + s)[1..] == s;
  }

  lemma WithFirstConcat(c: char, sep: char, a: seq<string>, b: seq<string>)
    requires a != []
    ensures WithFirst(c, sep, a + b) == WithFirst(c, sep, a) + b
  {
  }

  lemma {:induction false} SplitWhole(s: string, sep: char)
    requires sep !in s
    ensures Split(s, sep) == [s]
  {
    if s != "" {
      assert s[0] in s;
      SplitWhole(s[1..], sep);
      assert [s[0]] + s[1..] == s;
    }
  }

  lemma {:induction false} SplitOfJoin(pieces: seq<string>, sep: char)
    requires pieces != [] && forall k :: 0 <= k < |pieces| ==> sep !in pieces[k]
    ensures Split(Join(pieces, sep), sep) == pieces
  {
    SplitWhole(pieces[0], sep);
    if |pieces| > 1 {
      SplitOfJoin(pieces[1..], sep);
      SplitAround(pieces[0], sep, Join(pieces[1..], sep));
    }
  }

  lemma {:induction false} JoinAround(a: seq<string>, b: seq<string>, sep: char)
    requires a != [] && b != []
    ensures Join(a + b, sep) == Join(a, sep) + [sep] + Join(b, sep)
  {
    if |a| == 1 {
      assert (a + b)[1..] == b;
    } else {
      JoinAround(a[1..], b, sep);
      assert (a + b)[1..] == a[1..] + b;
    }
  }

  /** `trim_end_matches(c)` for a character. */
  function TrimEndChar(s: string, c: char): (t: string)
    ensures t <= s && !EndsWith(t, [c])
    ensures forall k :: |t| <= k < |s| ==> s[k] == c
  {
    if s != "" && s[|s| - 1] == c then TrimEndChar(s[..|s| - 1], c) else s
  }

  /** The Unicode `White_Space` characters. */
  predicate IsWhitespace(c: char) {
    || '\U{0009}' <= c <= '\U{000D}'
    || c in {' ', '\U{0085}', '\U{00A0}', '\U{1680}', '\U{2028}', '\U{2029}', '\U{202F}', '\U{205F}', '\U{3000}'}
    || '\U{2000}' <= c <= '\U{200A}'
  }

  function TrimStart(s: string): string {
    if s != "" && IsWhitespace(s[0]) then TrimStart(s[1..]) else s
  }

  function TrimEnd(s: string): string {
    if s != "" && IsWhitespace(s[|s| - 1]) then TrimEnd(s[..|s| - 1]) else s
  }

  function Trim(s: string): string {
    TrimEnd(TrimStart(s))
  }

  predicate AllWhitespace(s: string) {
    forall k :: 0 <= k < |s| ==> IsWhitespace(s[k])
  }

  /** `trim`: whatever whitespace is around it, a text that neither begins nor ends with whitespace is what remains. */
  lemma {:induction false} TrimAround(front: string, body: string, back: string)
    requires AllWhitespace(front) && AllWhitespace(back)
    requires body == "" || (!IsWhitespace(body[0]) && !IsWhitespace(body[|body| - 1]))
    ensures Trim(front + body + back) == body
  {
    TrimStartAround(front, body + back);
    assert front + body + back == front + (body + back);
    if body == "" {
      assert body + back == back;
      TrimStartAround(back, "");
      assert back + "" == back;
    } else {
      assert TrimStart(body + back) == body + back;
      TrimEndAround(body, back);
    }
  }

  lemma {:induction false} TrimStartAround(front: string, rest: string)
    requires AllWhitespace(front)
    ensures TrimStart(front + rest) == TrimStart(rest)
  {
    if front == "" {
      assert front + rest == rest;
    } else {
      TrimStartAround(front[1..], rest);
      assert (front + rest)[1..] == front[1..] + rest;
    }
  }

  lemma {:induction false} TrimEndAround(body: string, back: string)
    requires AllWhitespace(back) && body != "" && !IsWhitespace(body[|body| - 1])
    ensures TrimEnd(body + back) == body
  {
    if back == "" {
      assert body + back == body;
    } else {
      TrimEndAround(body, back[..|back| - 1]);
      assert (body + back)[..|body + back| - 1] == body + back[..|back| - 1];
    }
  }

  /** `lines()`; a `\r` before the line end is left in place, every caller trims it. */
  function Lines(s: string): seq<string> {
    var pieces := Split(s, '\n');
    if pieces[|pieces| - 1] == "" then pieces[..|pieces| - 1] else pieces
  }
}
