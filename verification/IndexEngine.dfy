/** Answering file-metadata lookups from the cache in front of the runtime index. */
module IndexEngine {
  import opened Options
  import L = LruCache

  datatype FileEntry = FileEntry(projectId: string, fileDataId: string, relativePath: string, contentHash: string,
                                 lastModified: int)

  const MAX_CACHE_ENTRIES: nat := 1000

  /** Some insert among the first `n` was for this path. */
  ghost predicate InsertedBy(inserted: seq<FileEntry>, path: string, n: int) {
    exists k :: 0 <= k < n && k < |inserted| && inserted[k].relativePath == path
  }

  /** The entry is one that was inserted for this path. */
  ghost predicate WasHeld(inserted: seq<FileEntry>, path: string, entry: FileEntry) {
    entry in inserted && entry.relativePath == path
  }

  /** The index holds the last entry inserted for each path. */
  function IndexOf(inserted: seq<FileEntry>): map<string, FileEntry> {
    if inserted == [] then map[]
    else
      var last := inserted[|inserted| - 1];
      IndexOf(inserted[..|inserted| - 1])[last.relativePath := last]
  }

  lemma {:induction false} IndexMembers(inserted: seq<FileEntry>, path: string)
    ensures path in IndexOf(inserted) <==> InsertedBy(inserted, path, |inserted|)
    ensures path in IndexOf(inserted) ==> WasHeld(inserted, path, IndexOf(inserted)[path])
  {
    if inserted != [] {
      var n := |inserted| - 1;
      var init := inserted[..n];
      IndexMembers(init, path);
      assert inserted == init + [inserted[n]];
      if InsertedBy(init, path, n) {
        var k :| 0 <= k < n && init[k].relativePath == path;
        assert inserted[k].relativePath == path;
      }
      if InsertedBy(inserted, path, n + 1) && inserted[n].relativePath != path {
        var k :| 0 <= k < n + 1 && inserted[k].relativePath == path;
        assert init[k].relativePath == path;
      }
    }
  }

  lemma {:induction false} IndexOfConcat(a: seq<FileEntry>, b: seq<FileEntry>)
    ensures IndexOf(a + b) == IndexOf(a) + IndexOf(b)
  {
    if b == [] {
      assert a + b == a;
    } else {
      var init := b[..|b| - 1];
      IndexOfConcat(a, init);
      assert (a + b)[..|a + b| - 1] == a + init;
    }
  }

  /** The index held this entry for the path after the first `n` inserts. */
  ghost predicate HeldAt(inserted: seq<FileEntry>, path: string, entry: FileEntry, n: nat) {
    n <= |inserted| && path in IndexOf(inserted[..n]) && IndexOf(inserted[..n])[path] == entry
  }

  lemma HeldAtStays(inserted: seq<FileEntry>, more: FileEntry, path: string, entry: FileEntry, n: nat)
    requires HeldAt(inserted, path, entry, n)
    ensures HeldAt(inserted + [more], path, entry, n)
  {
    assert (inserted + [more])[..n] == inserted[..n];
  }

  lemma HeldNow(inserted: seq<FileEntry>, path: string)
    requires path in IndexOf(inserted)
    ensures HeldAt(inserted, path, IndexOf(inserted)[path], |inserted|)
  {
    assert inserted[..|inserted|] == inserted;
  }

  lemma HeldWasHeld(inserted: seq<FileEntry>, path: string, entry: FileEntry, n: nat)
    requires HeldAt(inserted, path, entry, n)
    ensures WasHeld(inserted[..n], path, entry) && WasHeld(inserted, path, entry)
  {
    IndexMembers(inserted[..n], path);
  }

  /** The last insert of this path among `inserted`, if there is one, is this entry. */
  predicate NotReplaced(inserted: seq<FileEntry>, path: string, entry: FileEntry) {
    path in IndexOf(inserted) ==> IndexOf(inserted)[path] == entry
  }

  /** An entry held once is still held exactly when no insert since has replaced it. */
  lemma HeldStillIff(inserted: seq<FileEntry>, path: string, entry: FileEntry, n: nat)
    requires HeldAt(inserted, path, entry, n)
    ensures path in IndexOf(inserted) && n <= |inserted|
    ensures IndexOf(inserted)[path] == entry <==> NotReplaced(inserted[n..], path, entry)
  {
    assert inserted == inserted[..n] + inserted[n..];
    IndexOfConcat(inserted[..n], inserted[n..]);
  }

  /** Inserted once, a path has only one possible value. */
  ghost predicate InsertedOnce(inserted: seq<FileEntry>, path: string) {
    forall i, j :: 0 <= i < j < |inserted| ==> !(inserted[i].relativePath == path && inserted[j].relativePath == path)
  }

  lemma OnlyValue(inserted: seq<FileEntry>, path: string, a: FileEntry, b: FileEntry)
    requires InsertedOnce(inserted, path) && WasHeld(inserted, path, a) && WasHeld(inserted, path, b)
    ensures a == b
  {
  }

  // ---- Interleaved lookups ----

  /** A `get_file_metadata` call: each lock is taken separately, so other calls run in between. */
  datatype Call =
    | AskedFor(path: string)
    | MissedCache(path: string)
    | Fetched(path: string, entry: FileEntry, atInsert: nat)
    | Answered(path: string, answer: Option<FileEntry>, atInsert: nat)

  /**
   * `inserted` lists the inserts so far and `cacheEvents` the cache accesses; `atInsert` is the number
   * of inserts when an entry was fetched or an answer determined, and `fetchedAt` is that number for the
   * entry last put into the cache for a path.
   */
  datatype State = State(cache: L.Cache<string, FileEntry>, index: map<string, FileEntry>, inserted: seq<FileEntry>,
                         cacheEvents: seq<L.Event<string, FileEntry>>, fetchedAt: map<string, nat>,
                         calls: map<nat, Call>, project: string)

  function Initial(project: string): State {
    State(L.Emptied(MAX_CACHE_ENTRIES), map[], [], [], map[], map[], project)
  }

  datatype Step =
    | Insert(entry: FileEntry)
    | SetProject(project: string)
    | Ask(call: nat, path: string)
    | LookInCache(call: nat)
    | LookInIndex(call: nat)
    | FillCache(call: nat)

  predicate Enabled(s: State, step: Step) {
    match step
    case Insert(_) => true
    case SetProject(_) => true
    case Ask(call, _) => call !in s.calls
    case LookInCache(call) => call in s.calls && s.calls[call].AskedFor?
    case LookInIndex(call) => call in s.calls && s.calls[call].MissedCache?
    case FillCache(call) => call in s.calls && s.calls[call].Fetched?
  }

  function Do(s: State, step: Step): State
    requires Enabled(s, step)
  {
    match step
    case Insert(entry) =>
      s.(index := s.index[entry.relativePath := entry], inserted := s.inserted + [entry])
    case SetProject(project) => s.(project := project)
    case Ask(call, path) => s.(calls := s.calls[call := AskedFor(path)])
    case LookInCache(call) =>
      var path := s.calls[call].path;
      var now := if path in s.cache.entries then Answered(path, Some(s.cache.entries[path]), |s.inserted|)
                 else MissedCache(path);
      s.(calls := s.calls[call := now],
         cache := L.AfterGet(s.cache, path), cacheEvents := s.cacheEvents + [L.Got(path)])
    case LookInIndex(call) =>
      var path := s.calls[call].path;
      var now := if path in s.index then Fetched(path, s.index[path], |s.inserted|)
                 else Answered(path, None, |s.inserted|);
      s.(calls := s.calls[call := now])
    case FillCache(call) =>
      var c := s.calls[call];
      s.(calls := s.calls[call := Answered(c.path, Some(c.entry), |s.inserted|)],
         cache := L.AfterPut(s.cache, c.path, c.entry), cacheEvents := s.cacheEvents + [L.Stored(c.path, c.entry)],
         fetchedAt := s.fetchedAt[c.path := c.atInsert])
  }

  /** The state after the steps; none when a step was not enabled. */
  function After(steps: seq<Step>, project: string): Option<State> {
    if steps == [] then Some(Initial(project))
    else
      match After(steps[..|steps| - 1], project)
      case None => None
      case Some(s) => if Enabled(s, steps[|steps| - 1]) then Some(Do(s, steps[|steps| - 1])) else None
  }

  predicate IsRun(steps: seq<Step>, project: string, s: State) {
    After(steps, project) == Some(s)
  }

  ghost predicate Inv(s: State) {
    && s.index == IndexOf(s.inserted)
    && s.cache == L.Replay(MAX_CACHE_ENTRIES, s.cacheEvents)
    && CacheInv(s.inserted, s.cache.entries, s.fetchedAt)
    && (forall c :: c in s.calls ==> CallInv(s.inserted, s.calls[c]))
  }

  /** Every cached entry is the one the index held when it was fetched. */
  ghost predicate CacheInv(inserted: seq<FileEntry>, cached: map<string, FileEntry>, fetchedAt: map<string, nat>) {
    forall path :: path in cached ==> path in fetchedAt && HeldAt(inserted, path, cached[path], fetchedAt[path])
  }

  ghost predicate CallInv(inserted: seq<FileEntry>, call: Call) {
    match call
    case AskedFor(_) => true
    case MissedCache(_) => true
    case Fetched(path, entry, n) => HeldAt(inserted, path, entry, n)
    case Answered(path, None, n) => n <= |inserted| && !InsertedBy(inserted, path, n)
    case Answered(path, Some(entry), n) => n <= |inserted| && WasHeld(inserted[..n], path, entry)
  }

  lemma CallInvGrows(inserted: seq<FileEntry>, entry: FileEntry, call: Call)
    requires CallInv(inserted, call)
    ensures CallInv(inserted + [entry], call)
  {
    match call
    case Fetched(path, e, n) =>
      HeldAtStays(inserted, entry, path, e, n);
    case Answered(path, None, n) =>
      assert forall k :: 0 <= k < n ==> (inserted + [entry])[k] == inserted[k];
    case Answered(path, Some(e), n) =>
      assert (inserted + [entry])[..n] == inserted[..n];
    case _ =>
  }

  lemma InsertKeepsInv(s: State, entry: FileEntry)
    requires Inv(s)
    ensures Inv(Do(s, Insert(entry)))
  {
    var t := Do(s, Insert(entry));
    assert t.inserted[..|t.inserted| - 1] == s.inserted;
    forall path | path in t.cache.entries
      ensures HeldAt(t.inserted, path, t.cache.entries[path], t.fetchedAt[path])
    {
      HeldAtStays(s.inserted, entry, path, s.cache.entries[path], s.fetchedAt[path]);
    }
    forall c | c in t.calls ensures CallInv(t.inserted, t.calls[c]) {
      CallInvGrows(s.inserted, entry, s.calls[c]);
    }
  }

  lemma ReplayGot(events: seq<L.Event<string, FileEntry>>, key: string)
    ensures L.Replay(MAX_CACHE_ENTRIES, events + [L.Got(key)]) == L.AfterGet(L.Replay(MAX_CACHE_ENTRIES, events), key)
  {
    assert (events + [L.Got(key)])[..|events|] == events;
  }

  lemma ReplayStored(events: seq<L.Event<string, FileEntry>>, key: string, entry: FileEntry)
    ensures L.Replay(MAX_CACHE_ENTRIES, events + [L.Stored(key, entry)]) ==
            L.AfterPut(L.Replay(MAX_CACHE_ENTRIES, events), key, entry)
  {
    assert (events + [L.Stored(key, entry)])[..|events|] == events;
  }

  lemma LookInCacheKeepsInv(s: State, call: nat)
    requires Inv(s) && Enabled(s, LookInCache(call))
    ensures Inv(Do(s, LookInCache(call)))
  {
    var path := s.calls[call].path;
    ReplayGot(s.cacheEvents, path);
    assert s.inserted[..|s.inserted|] == s.inserted;
    if path in s.cache.entries {
      HeldWasHeld(s.inserted, path, s.cache.entries[path], s.fetchedAt[path]);
    }
  }

  lemma LookInIndexKeepsInv(s: State, call: nat)
    requires Inv(s) && Enabled(s, LookInIndex(call))
    ensures Inv(Do(s, LookInIndex(call)))
  {
    var path := s.calls[call].path;
    IndexMembers(s.inserted, path);
    if path in s.index {
      HeldNow(s.inserted, path);
    }
  }

  lemma FillCacheKeepsInv(s: State, call: nat)
    requires Inv(s) && Enabled(s, FillCache(call))
    ensures Inv(Do(s, FillCache(call)))
  {
    hide HeldAt, IndexOf, L.AfterPut, L.Replay;
    var c := s.calls[call];
    ReplayStored(s.cacheEvents, c.path, c.entry);
    assert s.inserted[..|s.inserted|] == s.inserted;
    HeldWasHeld(s.inserted, c.path, c.entry, c.atInsert);
    PutKeepsCacheInv(s.inserted, s.cache, s.fetchedAt, c.path, c.entry, c.atInsert);
  }

  lemma PutKeepsCacheInv(inserted: seq<FileEntry>, cache: L.Cache<string, FileEntry>, fetchedAt: map<string, nat>,
                         path: string, entry: FileEntry, n: nat)
    requires CacheInv(inserted, cache.entries, fetchedAt) && HeldAt(inserted, path, entry, n)
    ensures CacheInv(inserted, L.AfterPut(cache, path, entry).entries, fetchedAt[path := n])
  {
    var after := L.AfterPut(cache, path, entry).entries;
    forall q | q in after ensures q in fetchedAt[path := n] && HeldAt(inserted, q, after[q], fetchedAt[path := n][q]) {
      if q != path {
        assert q in cache.entries && after[q] == cache.entries[q];
      }
    }
  }

  lemma StepKeepsInv(s: State, step: Step)
    requires Inv(s) && Enabled(s, step)
    ensures Inv(Do(s, step))
  {
    match step
    case Insert(entry) => InsertKeepsInv(s, entry);
    case LookInCache(call) => LookInCacheKeepsInv(s, call);
    case LookInIndex(call) => LookInIndexKeepsInv(s, call);
    case FillCache(call) => FillCacheKeepsInv(s, call);
    case _ =>
  }

  lemma {:induction false} RunsKeepInv(steps: seq<Step>, project: string, s: State)
    requires IsRun(steps, project, s)
    ensures Inv(s)
  {
    if steps != [] {
      var before := After(steps[..|steps| - 1], project).value;
      RunsKeepInv(steps[..|steps| - 1], project, before);
      StepKeepsInv(before, steps[|steps| - 1]);
    }
  }

  /**
   * In every interleaving an answer is `Some` exactly when the path had been
   * inserted by then, its value is one the index held for that path, and the
   * current one if the path was inserted only once.
   */
  lemma AnswersAreHistorical(steps: seq<Step>, project: string, s: State, call: nat)
    requires IsRun(steps, project, s) && call in s.calls && s.calls[call].Answered?
    ensures var Answered(path, answer, n) := s.calls[call];
            && (answer.Some? <==> InsertedBy(s.inserted, path, n))
            && (answer.Some? ==> WasHeld(s.inserted, path, answer.value))
            && (answer.Some? && InsertedOnce(s.inserted, path) ==>
                  path in s.index && s.index[path] == answer.value)
  {
    RunsKeepInv(steps, project, s);
    var Answered(path, answer, n) := s.calls[call];
    assert CallInv(s.inserted, s.calls[call]);
    if answer.Some? {
      var k :| 0 <= k < n && s.inserted[..n][k] == answer.value;
      assert s.inserted[k] == answer.value;
      IndexMembers(s.inserted, path);
      if InsertedOnce(s.inserted, path) {
        OnlyValue(s.inserted, path, s.index[path], answer.value);
      }
    }
  }

  /** Among the most recently touched paths, as many as the cache has slots. */
  predicate RecentlyUsed(events: seq<L.Event<string, FileEntry>>, capacity: nat, path: string) {
    path in L.Take(L.Recency(L.Touches(capacity, events)), L.Slots(capacity))
  }

  /**
   * In every interleaving, exactly when an answer is the current index entry. The cache
   * answers for its most recent paths, with the entry last put into it; whether cached or
   * just fetched, an answer is current iff no insert since its fetch has replaced it.
   */
  lemma AnswerIsCurrentIff(steps: seq<Step>, project: string, s: State, step: Step)
    requires IsRun(steps, project, s) && Enabled(s, step) && (step.LookInCache? || step.FillCache?)
    requires Do(s, step).calls[step.call].Answered?
    ensures var path, answer := s.calls[step.call].path, Do(s, step).calls[step.call].answer;
            && answer.Some? && path in s.index
            && (step.LookInCache? ==> path in s.fetchedAt && L.LastStored(s.cacheEvents, path) == answer)
            && var n := if step.LookInCache? then s.fetchedAt[path] else s.calls[step.call].atInsert;
            && n <= |s.inserted|
            && (answer.value == s.index[path] <==> NotReplaced(s.inserted[n..], path, answer.value))
  {
    RunsKeepInv(steps, project, s);
    var c := s.calls[step.call];
    if step.FillCache? {
      HeldStillIff(s.inserted, c.path, c.entry, c.atInsert);
    } else {
      L.HistoryIsExact(MAX_CACHE_ENTRIES, s.cacheEvents);
      HeldStillIff(s.inserted, c.path, s.cache.entries[c.path], s.fetchedAt[c.path]);
    }
  }

  /** The cache answers exactly for its most recently used paths. */
  lemma CacheAnswersIff(steps: seq<Step>, project: string, s: State, call: nat)
    requires IsRun(steps, project, s) && Enabled(s, LookInCache(call))
    ensures Do(s, LookInCache(call)).calls[call].Answered? <==>
            RecentlyUsed(s.cacheEvents, MAX_CACHE_ENTRIES, s.calls[call].path)
  {
    RunsKeepInv(steps, project, s);
    L.HistoryIsExact(MAX_CACHE_ENTRIES, s.cacheEvents);
  }

  lemma Extend(steps: seq<Step>, project: string, s: State, step: Step)
    requires IsRun(steps, project, s) && Enabled(s, step)
    ensures IsRun(steps + [step], project, Do(s, step))
  {
    assert (steps + [step])[..|steps|] == steps;
  }

  /** One lookup after one insert leaves the entry in the cache. */
  lemma FirstLookup(project: string, first: FileEntry) returns (steps: seq<Step>, s: State)
    ensures IsRun(steps, project, s)
    ensures s.inserted == [first] && 1 !in s.calls
    ensures first.relativePath in s.cache.entries && s.cache.entries[first.relativePath] == first
  {
    var path := first.relativePath;
    steps, s := [], Initial(project);
    Extend(steps, project, s, Insert(first));
    steps, s := steps + [Insert(first)], Do(s, Insert(first));
    Extend(steps, project, s, Ask(0, path));
    steps, s := steps + [Ask(0, path)], Do(s, Ask(0, path));
    Extend(steps, project, s, LookInCache(0));
    steps, s := steps + [LookInCache(0)], Do(s, LookInCache(0));
    Extend(steps, project, s, LookInIndex(0));
    steps, s := steps + [LookInIndex(0)], Do(s, LookInIndex(0));
    Extend(steps, project, s, FillCache(0));
    steps, s := steps + [FillCache(0)], Do(s, FillCache(0));
  }

  /** A second insert does not reach the cache: a later lookup still answers with the entry it replaced. */
  lemma AnswerCanBeStale(project: string, first: FileEntry, second: FileEntry) returns (steps: seq<Step>, s: State)
    requires first.relativePath == second.relativePath
    ensures IsRun(steps, project, s)
    ensures 1 in s.calls && s.calls[1] == Answered(first.relativePath, Some(first), 2)
    ensures first.relativePath in s.index && s.index[first.relativePath] == second
  {
    var path := first.relativePath;
    steps, s := FirstLookup(project, first);
    Extend(steps, project, s, Insert(second));
    steps, s := steps + [Insert(second)], Do(s, Insert(second));
    Extend(steps, project, s, Ask(1, path));
    steps, s := steps + [Ask(1, path)], Do(s, Ask(1, path));
    Extend(steps, project, s, LookInCache(1));
    steps, s := steps + [LookInCache(1)], Do(s, LookInCache(1));
  }

  // ---- The engine, one call at a time ----

  class IndexEngine {
    var entries: map<string, FileEntry>
    var project: string
    const cache: L.LruCache<FileEntry>
    ghost var inserted: seq<FileEntry>
    ghost var fetchedAt: map<string, nat>

    constructor (project: string)
      ensures Valid() && inserted == [] && fresh(cache)
    {
      this.project := project;
      entries, inserted, fetchedAt := map[], [], map[];
      cache := new L.LruCache(MAX_CACHE_ENTRIES);
    }

    ghost predicate Valid()
      reads this, cache
    {
      && cache.Valid() && cache.capacity == MAX_CACHE_ENTRIES
      && entries == IndexOf(inserted)
      && StoredInv(inserted, cache.events, fetchedAt)
    }

    method Insert(entry: FileEntry)
      requires Valid()
      modifies this
      ensures Valid() && inserted == old(inserted) + [entry]
    {
      entries := entries[entry.relativePath := entry];
      inserted := inserted + [entry];
      assert inserted[..|inserted| - 1] == old(inserted);
      forall path | L.LastStored(cache.events, path).Some?
        ensures HeldAt(inserted, path, L.LastStored(cache.events, path).value, fetchedAt[path])
      {
        HeldAtStays(old(inserted), entry, path, L.LastStored(cache.events, path).value, fetchedAt[path]);
      }
    }

    method SetProject(project: string)
      requires Valid()
      modifies this`project
      ensures Valid() && this.project == project
    {
      this.project := project;
    }

    method GetFileMetadata(path: string) returns (entry: Option<FileEntry>)
      requires Valid()
      modifies cache, this`fetchedAt
      ensures Valid()
      ensures entry.Some? <==> InsertedBy(inserted, path, |inserted|)
      ensures entry.Some? ==> WasHeld(inserted, path, entry.value)
      ensures entry.Some? && InsertedOnce(inserted, path) ==> path in entries && entry.value == entries[path]
      ensures path in entries ==>
        && entry.Some?
        && (entry.value == entries[path] <==>
              (RecentlyUsed(old(cache.events), cache.capacity, path) ==>
                 L.LastStored(old(cache.events), path) == Some(entries[path])))
      ensures RecentlyUsed(old(cache.events), cache.capacity, path) ==>
        && fetchedAt == old(fetchedAt) && path in fetchedAt && fetchedAt[path] <= |inserted|
        && path in entries && entry.Some?
        && (entry.value == entries[path] <==> NotReplaced(inserted[fetchedAt[path]..], path, entry.value))
      ensures !RecentlyUsed(old(cache.events), cache.capacity, path) ==>
        fetchedAt == if path in entries then old(fetchedAt)[path := |inserted|] else old(fetchedAt)
    {
      hide HeldAt, IndexOf, InsertedBy, L.Replay, L.Recency, L.Touches, L.Take, L.LastStored;
      entry := cache.Get(path);
      GotKeepsStored(inserted, old(cache.events), fetchedAt, path);
      if entry.Some? {
        HeldWasHeld(inserted, path, entry.value, fetchedAt[path]);
        HeldStillIff(inserted, path, entry.value, fetchedAt[path]);
      } else if path in entries {
        IndexMembers(inserted, path);
        HeldNow(inserted, path);
        PutKeepsStored(inserted, cache.events, fetchedAt, path, entries[path], |inserted|);
        entry := Some(entries[path]);
        cache.Put(path, entries[path]);
        fetchedAt := fetchedAt[path := |inserted|];
      }
      AnswerFacts(inserted, path, entry);
    }
  }

  /** What was last put into the cache for a path is the entry the index held when it was fetched. */
  ghost predicate StoredInv(inserted: seq<FileEntry>, events: seq<L.Event<string, FileEntry>>,
                            fetchedAt: map<string, nat>) {
    forall path :: L.LastStored(events, path).Some? ==>
      path in fetchedAt && HeldAt(inserted, path, L.LastStored(events, path).value, fetchedAt[path])
  }

  lemma GotKeepsStored(inserted: seq<FileEntry>, events: seq<L.Event<string, FileEntry>>, fetchedAt: map<string, nat>,
                       key: string)
    requires StoredInv(inserted, events, fetchedAt)
    ensures StoredInv(inserted, events + [L.Got(key)], fetchedAt)
  {
    assert (events + [L.Got(key)])[..|events|] == events;
  }

  lemma PutKeepsStored(inserted: seq<FileEntry>, events: seq<L.Event<string, FileEntry>>, fetchedAt: map<string, nat>,
                       key: string, entry: FileEntry, n: nat)
    requires StoredInv(inserted, events, fetchedAt) && HeldAt(inserted, key, entry, n)
    ensures StoredInv(inserted, events + [L.Stored(key, entry)], fetchedAt[key := n])
  {
    assert (events + [L.Stored(key, entry)])[..|events|] == events;
  }

  lemma AnswerFacts(inserted: seq<FileEntry>, path: string, answer: Option<FileEntry>)
    requires match answer case None => path !in IndexOf(inserted) case Some(entry) => WasHeld(inserted, path, entry)
    ensures answer.Some? <==> InsertedBy(inserted, path, |inserted|)
    ensures answer.Some? && InsertedOnce(inserted, path) ==>
      path in IndexOf(inserted) && answer.value == IndexOf(inserted)[path]
  {
    IndexMembers(inserted, path);
    if answer.Some? {
      var k :| 0 <= k < |inserted| && inserted[k] == answer.value;
      assert InsertedBy(inserted, path, |inserted|);
      if InsertedOnce(inserted, path) {
        OnlyValue(inserted, path, answer.value, IndexOf(inserted)[path]);
      }
    }
  }
}
