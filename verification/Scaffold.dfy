/** Merging the default entries into a project's `.mcignore` file. */
module Scaffold {
  import opened Options
  import opened Text
  import opened McIgnore

  const DEFAULTS: seq<string> := [
    "target", "build", "dist", "out", ".env", ".git", ".vscode", ".idea", ".dart_tool", "node_modules", ".pub-cache",
    "vendor", ".DS_Store", "Thumbs.db", "desktop.ini", "ehthumbs.db", "*.tmp", "*.log", ".vs", ".settings", "*.swp",
    ".mercury-cortex"
  ]

  /** A line that is an entry as it stands: trimmed, not empty and no comment. */
  predicate IsEntry(line: string) {
    && line != "" && line[0] != '#'
    && !IsWhitespace(line[0]) && !IsWhitespace(line[|line| - 1])
    && '\n' !in line
  }

  /** An entry that stands for itself as a positive pattern. */
  predicate IsPlain(entry: string) {
    IsEntry(entry) && entry[0] != '!' && entry[|entry| - 1] != '/'
  }

  predicate AllPlain(entries: seq<string>) {
    forall k :: 0 <= k < |entries| ==> IsPlain(entries[k])
  }

  lemma DefaultsArePlain()
    ensures AllPlain(DEFAULTS)
  {
    FirstDefaultsArePlain();
    LastDefaultsArePlain();
  }

  lemma FirstDefaultsArePlain()
    ensures forall k :: 0 <= k < 11 ==> IsPlain(DEFAULTS[k])
  {
  }

  lemma LastDefaultsArePlain()
    ensures |DEFAULTS| == 22 && forall k :: 11 <= k < 22 ==> IsPlain(DEFAULTS[k])
  {
  }

  function EntriesOf(text: string): seq<string> {
    Entries(Lines(text))
  }

  function Missing(wanted: seq<string>, present: seq<string>): seq<string> {
    if wanted == [] then []
    else (if wanted[0] in present then [] else [wanted[0]]) + Missing(wanted[1..], present)
  }

  /** Every entry on a line of its own. */
  function AsLines(entries: seq<string>): string {
    if entries == [] then "" else entries[0] + "\n" + AsLines(entries[1..])
  }

  lemma {:induction false} AsLinesConcat(a: seq<string>, b: seq<string>)
    ensures AsLines(a + b) == AsLines(a) + AsLines(b)
  {
    if a == [] {
      assert a + b == b;
    } else {
      AsLinesConcat(a[1..], b);
      assert (a + b)[1..] == a[1..] + b;
    }
  }

  lemma {:induction false} LinesOfJoin(entries: seq<string>)
    requires entries != []
    ensures Join(entries, '\n') + "\n" == AsLines(entries)
  {
    if |entries| > 1 {
      LinesOfJoin(entries[1..]);
      assert Join(entries, '\n') + "\n" == entries[0] + "\n" + (Join(entries[1..], '\n') + "\n");
    }
  }

  lemma {:induction false} MissingMembers(wanted: seq<string>, present: seq<string>)
    ensures forall e :: e in Missing(wanted, present) <==> e in wanted && e !in present
    ensures AllPlain(wanted) ==> AllPlain(Missing(wanted, present))
  {
    if wanted != [] {
      MissingMembers(wanted[1..], present);
      assert AllPlain(wanted) ==> AllPlain(wanted[1..]);
    }
  }

  lemma {:induction false} NothingMissing(wanted: seq<string>, present: seq<string>)
    requires forall e :: e in wanted ==> e in present
    ensures Missing(wanted, present) == []
  {
    if wanted != [] {
      NothingMissing(wanted[1..], present);
    }
  }

  function Terminated(text: string): string {
    if EndsWith(text, "\n") then text else text + "\n"
  }

  /** The file's content after merging `defaults` into it; `None` when there was no file. */
  function MergedWith(defaults: seq<string>, file: Option<string>): string {
    match file
    case None => AsLines(defaults)
    case Some(text) =>
      var missing := Missing(defaults, EntriesOf(text));
      if missing == [] then text else Terminated(text) + AsLines(missing)
  }

  /** The defaults the merge adds. */
  function Added(defaults: seq<string>, file: Option<string>): seq<string> {
    match file
    case None => defaults
    case Some(text) => Missing(defaults, EntriesOf(text))
  }

  lemma EntriesOfPieces(text: string)
    ensures EntriesOf(text) == Entries(Split(text, '\n'))
  {
    var pieces := Split(text, '\n');
    var n := |pieces| - 1;
    assert pieces == pieces[..n] + [pieces[n]];
    EntriesConcat(pieces[..n], [pieces[n]]);
  }

  lemma EntriesAround(a: string, b: string)
    ensures EntriesOf(a + "\n" + b) == EntriesOf(a) + EntriesOf(b)
  {
    SplitAround(a, '\n', b);
    EntriesOfPieces(a);
    EntriesOfPieces(b);
    EntriesOfPieces(a + "\n" + b);
    EntriesConcat(Split(a, '\n'), Split(b, '\n'));
  }

  lemma EntriesOfTerminated(text: string, more: string)
    ensures EntriesOf(Terminated(text) + more) == EntriesOf(text) + EntriesOf(more)
  {
    if EndsWith(text, "\n") {
      var body := text[..|text| - 1];
      assert text == body + "\n" + "";
      assert text + more == body + "\n" + more;
      EntriesAround(body, more);
      EntriesAround(body, "");
    } else {
      EntriesAround(text, more);
    }
  }

  lemma {:induction false} EntriesOfLines(entries: seq<string>)
    requires forall k :: 0 <= k < |entries| ==> IsEntry(entries[k])
    ensures EntriesOf(AsLines(entries)) == entries
  {
    if entries != [] {
      var e := entries[0];
      EntriesOfLines(entries[1..]);
      EntriesAround(e, AsLines(entries[1..]));
      SplitWhole(e, '\n');
      EntriesOfPieces(e);
      assert Trim(e) == e;
      assert Entries([e]) == [e];
      assert entries == [e] + entries[1..];
    }
  }

  /** The merge keeps every entry in place and appends the defaults that were not there. */
  lemma EntriesOfMerged(defaults: seq<string>, file: Option<string>)
    requires AllPlain(defaults)
    ensures EntriesOf(MergedWith(defaults, file)) ==
            (if file.None? then [] else EntriesOf(file.value)) + Added(defaults, file)
    ensures forall d :: d in defaults ==> d in EntriesOf(MergedWith(defaults, file))
  {
    match file
    case None =>
      EntriesOfLines(defaults);
    case Some(text) =>
      var missing := Added(defaults, file);
      MissingMembers(defaults, EntriesOf(text));
      EntriesOfTerminated(text, AsLines(missing));
      assert forall k :: 0 <= k < |missing| ==> IsPlain(missing[k]);
      EntriesOfLines(missing);
  }

  /** The text that was there stays in front as it is, comments and blank lines included. */
  lemma MergeKeepsText(defaults: seq<string>, text: string)
    ensures text <= MergedWith(defaults, Some(text))
    ensures (forall d :: d in defaults ==> d in EntriesOf(text)) ==> MergedWith(defaults, Some(text)) == text
  {
    if forall d :: d in defaults ==> d in EntriesOf(text) {
      NothingMissing(defaults, EntriesOf(text));
    }
  }

  /** A second run finds nothing missing and leaves the file alone. */
  lemma MergeIsIdempotent(defaults: seq<string>, file: Option<string>)
    requires AllPlain(defaults)
    ensures MergedWith(defaults, Some(MergedWith(defaults, file))) == MergedWith(defaults, file)
  {
    EntriesOfMerged(defaults, file);
    NothingMissing(defaults, EntriesOf(MergedWith(defaults, file)));
  }

  function PlainPatterns(entries: seq<string>): seq<Pattern> {
    seq(|entries|, k requires 0 <= k < |entries| => Pattern(entries[k], false, false))
  }

  /** Loading after the merge: the old patterns, then one positive pattern per default that was added. */
  lemma PatternsAfterMerge(defaults: seq<string>, file: Option<string>)
    requires AllPlain(defaults)
    ensures LoadedPatterns(Some(MergedWith(defaults, file))) ==
            LoadedPatterns(file) + PlainPatterns(Added(defaults, file))
  {
    EntriesOfMerged(defaults, file);
    var added := Added(defaults, file);
    if file.Some? {
      MissingMembers(defaults, EntriesOf(file.value));
    }
    PlainEntriesParse(added);
    AppendedPatterns(if file.None? then [] else EntriesOf(file.value), added);
  }

  lemma AppendedPatterns(before: seq<string>, added: seq<string>)
    requires "" !in before && AllPlain(added)
    ensures "" !in before + added && "" !in added
    ensures ParseAll(before + added) == ParseAll(before) + PlainPatterns(added)
  {
    PlainEntriesParse(added);
    ParseAllConcat(before, added);
  }

  lemma PlainEntriesParse(entries: seq<string>)
    requires AllPlain(entries)
    ensures "" !in entries && ParseAll(entries) == PlainPatterns(entries)
  {
    forall k | 0 <= k < |entries|
      ensures ParseEntry(entries[k]) == Pattern(entries[k], false, false)
    {
      assert IsPlain(entries[k]);
      EndsWithChar(entries[k], '/');
    }
  }

  // ---- Writing patterns down ----

  /** What follows the `!`, if there is one. */
  function CleanedOf(p: Pattern): string {
    if p.dirOnly then p.pattern + "/" else p.pattern
  }

  /** The line that denotes a pattern. */
  function Spelling(p: Pattern): string {
    if p.isNegation then "!" + CleanedOf(p) else CleanedOf(p)
  }

  /** Patterns that a line can denote; no line denotes a positive pattern beginning with `!`. */
  predicate Spellable(p: Pattern) {
    IsEntry(Spelling(p)) && !EndsWith(p.pattern, "/") && (p.isNegation || Spelling(p)[0] != '!')
  }

  lemma TrimOneSlash(s: string)
    requires !EndsWith(s, "/")
    ensures EndsWith(s + "/", "/") && TrimEndChar(s + "/", '/') == s && TrimEndChar(s, '/') == s
  {
    EndsWithChar(s, '/');
    EndsWithChar(s + "/", '/');
    assert (s + "/")[..|s|] == s;
  }

  lemma ParseOfCleaned(p: Pattern)
    requires !EndsWith(p.pattern, "/")
    ensures ParseCleaned(CleanedOf(p), p.isNegation) == p
  {
    TrimOneSlash(p.pattern);
  }

  lemma ParseOfSpelling(p: Pattern)
    requires Spellable(p)
    ensures ParseEntry(Spelling(p)) == p
  {
    ParseOfCleaned(p);
    if p.isNegation {
      assert Spelling(p)[1..] == CleanedOf(p);
    }
  }

  /** Patterns written one per line are loaded back exactly. */
  lemma LoadOfSpelled(patterns: seq<Pattern>)
    requires forall k :: 0 <= k < |patterns| ==> Spellable(patterns[k])
    ensures var lines := seq(|patterns|, k requires 0 <= k < |patterns| => Spelling(patterns[k]));
            LoadedPatterns(Some(AsLines(lines))) == patterns
  {
    var lines := seq(|patterns|, k requires 0 <= k < |patterns| => Spelling(patterns[k]));
    forall k | 0 <= k < |patterns| ensures IsEntry(lines[k]) && ParseEntry(lines[k]) == patterns[k] {
      ParseOfSpelling(patterns[k]);
    }
    EntriesOfLines(lines);
    assert ParseAll(lines) == patterns;
  }

  // ---- The command ----

  lemma AsLinesNext(entries: seq<string>, n: nat)
    requires n < |entries|
    ensures AsLines(entries[..n + 1]) == AsLines(entries[..n]) + entries[n] + "\n"
  {
    assert entries[..n + 1] == entries[..n] + [entries[n]];
    AsLinesConcat(entries[..n], [entries[n]]);
    assert AsLines([entries[n]]) == entries[n] + "\n";
  }

  method AppendMissing(existing: string, missing: seq<string>) returns (content: string)
    ensures content == if missing == [] then existing else Terminated(existing) + AsLines(missing)
  {
    content := existing;
    if missing != [] {
      if !EndsWith(content, "\n") {
        content := content + "\n";
      }
      for n := 0 to |missing|
        invariant content == Terminated(existing) + AsLines(missing[..n])
      {
        AsLinesNext(missing, n);
        content := content + missing[n];
        content := content + "\n";
      }
      assert missing[..|missing|] == missing;
    }
  }

  method CreateOrUpdateMcignore(file: Option<string>) returns (content: string)
    ensures content == MergedWith(DEFAULTS, file)
  {
    if file.None? {
      LinesOfJoin(DEFAULTS);
      content := Join(DEFAULTS, '\n') + "\n";
    } else {
      content := AppendMissing(file.value, Missing(DEFAULTS, EntriesOf(file.value)));
    }
  }
}
