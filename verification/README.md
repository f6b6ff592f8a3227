# Mercury Cortex core: a verified model

This project models the logic of Mercury Cortex core that sits under its database and file I/O, and proves what that
logic promises. Every algorithm that works step by step is a method proved against a declarative meaning; protocols
(restore, the importer, metadata lookups) are state machines whose invariants hold in every run and interleaving.

| file | what it models |
|---|---|
| `Tiling.dfy`, `Glob.dfy`, `McIgnore.dfy`, `Scaffold.dfy` | the `.mcignore` matcher, loading it, merging the default entries |
| `RootPath.dfy` | canonical root paths, safe relative paths, joining inside the root |
| `Projects.dfy`, `Migration.dfy`, `ProjectService.dfy` | the two tables, the repair migration v005 and its runner, project registration |
| `Registrations.dfy` | registrations that run at the same time, statement by statement |
| `Restore.dfy` | the restore protocol with a crash possible between any two file operations |
| `LruCache.dfy`, `IndexEngine.dfy` | the metadata cache and the runtime index behind it |
| `Importer.dfy` | up to eight interleaved import tasks |
| `CircuitBreaker.dfy` | the circuit breaker and the retry loop |
| `Search.dfy`, `Export.dfy`, `StableSort.dfy` | ranking of fetched rows, export order, and what a stable sort determines |
| `Text.dfy`, `Options.dfy` | string operations of the Rust standard library, optional values |

`dafny verify dfyconfig.toml` checks the whole project.

## Assumptions

- A database statement is atomic. `SELECT` lists rows in id order; an id is its rank in the store's key order. A
  `CREATE` gets an id that is not in use and, like `UPDATE`, is refused exactly when a unique index forbids it.
  Statements whose result the code does not inspect are taken to succeed.
- A configured project id that parses as a record id is spelled the way the code itself writes ids.
- The index on `root_path` is defined by v005 only.
- `updated_at` stands for whole epoch seconds, which is what v005 and registration compare, so "newest" and "maximal"
  are meant at that resolution. Of records of the same second v005 keeps the last in id order, registration the first.
- Clocks, lock probes, I/O failures, crashes and the interleaving of tasks are arbitrary inputs or nondeterministic
  choices.
- `to_lowercase` is an arbitrary function. Strings are sequences of Unicode scalar values; byte lengths are computed
  where the code uses them.

## Where the code and its documentation disagree

- `mcignore.rs:103-107` says a plain pattern covers everything nested beneath a matching entry. For an entry that is
  not at the top this is so only if the path also ends with the pattern (`NestedContents`); all contents are covered
  exactly for entries whose path starts with the pattern's segments (`ContentsCoveredIff`). A directory-only pattern
  misses a file of the directory's own name beneath it (`DirectoryPatternBeneath`).
- `retry.rs:10-12` promises `max_retries + 1` calls. With a fresh breaker the fourth call happens only if a whole
  cooldown passes between the third failure and the next check (`CallsOfFreshRetry`).
- `backup.rs:147-151` says a crash cannot lose the original data. That holds for each run that starts with a live
  database, unless the backup given is the non-empty temp directory of `restore` itself (`PreservedIff`). Across runs it
  holds exactly as long as no run with a usable backup starts while the database path is absent (`RerunPreservesIff`),
  which a crash between the two renames brings about (`RerunCanLoseOriginal`).
- `importer.rs:239` says an excluded path is never indexed. Every import task loads `.mcignore` itself and goes on with no
  patterns when that fails (`importer.rs:76-81`), so the promise holds exactly if no task that fails to load it has a
  file for an excluded path inside the root (`ExcludedIsNeverWrittenIff`). A `.mcignore` with the line `target` and one
  line that is not UTF-8 fails for every task, and a staged file for `target` is then imported.

Three consequences of the code that its documentation does not mention: a cached entry is not replaced when its path
is inserted again (`AnswerCanBeStale`), so a lookup is current under an exact condition only (`GetFileMetadata`,
`AnswerIsCurrentIff`); a registration that ends in an identity conflict or an invalid project id has already removed the
duplicates at its root (`RejectionKeepsTables`); canonicalizing a relative prefix such as `a/..` on its own turns it
into `/` (`CanonicalOfPrefix`).

## Model

| member | source | states |
|---|---|---|
| Tiling.MatchesIffTiles | src/engine/index/mcignore.rs:123-200 | the position-by-position reading of a pattern accepts exactly the values that can be cut into one run per item |
| Tiling.TilesOfSum | src/engine/index/mcignore.rs:123-200 | a list of pattern items accepts what its two halves accept one after the other |
| Glob.WildcardMatch | src/engine/index/mcignore.rs:161-200 | terminates and answers true exactly for the values in the glob language of the pattern, although it remembers only the last star |
| Glob.NextStar | src/engine/index/mcignore.rs:168-173 | forgetting every star but the last loses no match: from a second star on, the answer is the same as from the first |
| Glob.TracksMismatch | src/engine/index/mcignore.rs:188-198 | after a mismatch only the last star, taking one more character, can still produce a match |
| Glob.MatchesItself | src/engine/index/mcignore.rs:145 | every string is in the language of itself read as a pattern |
| Glob.PlainGlob | src/engine/index/mcignore.rs:176-183 | a star-free glob accepts exactly the values of its length that agree with it wherever it has no `?` |
| Glob.StarSplits | src/engine/index/mcignore.rs:168-173 | around a star, what is before it accepts the beginning and what is after it the end of the value |
| McIgnore.ShortcutsAreSound | src/engine/index/mcignore.rs:145-150 | the `*` and equality shortcuts give the answer `wildcard_match` would give |
| McIgnore.MatchSegments | src/engine/index/mcignore.rs:123-159 | answers true exactly for the segment lists in the pattern's language, `**` standing for zero or more segments |
| McIgnore.SameDepth | src/engine/index/mcignore.rs:115-120 | a pattern without `**` matches only paths with as many segments as it has, so `*.log` reaches no subdirectory |
| McIgnore.DoubleStarSplits | src/engine/index/mcignore.rs:131-139 | around a `**`, what is before it accepts the front and what is after it the end of the segment list |
| McIgnore.MatchesPattern | src/engine/index/mcignore.rs:108-121 | a star pattern matches segment by segment; a star-free one matches iff `**/pattern` or `pattern/**` does |
| McIgnore.LiteralMeaning | src/engine/index/mcignore.rs:103-113 | a star-free pattern matches exactly the paths whose segments end or start with its own |
| McIgnore.StarMeaning | src/engine/index/mcignore.rs:115-120 | a star pattern without `**` matches exactly the paths of its own depth whose segments it accepts one by one |
| McIgnore.DoubleStarMeaning | src/engine/index/mcignore.rs:115-139 | a pattern with `**` matches exactly the paths that begin like what is before it and end like what is after it |
| McIgnore.SuffixIsText | src/engine/index/mcignore.rs:110-111 | the textual suffix test is the segment-list suffix test |
| McIgnore.PrefixIsText | src/engine/index/mcignore.rs:110-112 | the textual prefix test is the segment-list prefix test |
| McIgnore.IsIgnored | src/engine/index/mcignore.rs:81-101 | true iff the last pattern that applies to the normalised path is a positive one |
| McIgnore.LastMatchWins | src/engine/index/mcignore.rs:75-79 | a pattern added at the end decides every path it applies to and changes no other answer |
| McIgnore.IgnoredUpToNormalisation | src/engine/index/mcignore.rs:82-83 | a path and its normalised form get the same answer |
| McIgnore.NormaliseIsNormal | src/engine/index/mcignore.rs:83 | the normalised path has no leading `./` and no trailing slash, and normalising again changes nothing |
| McIgnore.NormalPathsStay | src/engine/index/mcignore.rs:83 | a path without leading `./` and trailing slash is left alone by the normalisation |
| McIgnore.LeadingDotSlashGoes | src/engine/index/mcignore.rs:83 | one more `./` in front changes nothing |
| McIgnore.TrailingSlashGoes | src/engine/index/mcignore.rs:83 | one more trailing slash changes nothing, unless the rest is `.`, where the two characters are a `./` and both go |
| McIgnore.OnlyDotSlashesGo | src/engine/index/mcignore.rs:83 | a path is copies of `./`, then its normalised form, then slashes |
| McIgnore.DirectoryPatternOnFile | src/engine/index/mcignore.rs:89-95 | a star-free directory pattern applies to a file iff the path starts with it and does not also end with it |
| McIgnore.DirectoryPatternBeneath | src/engine/index/mcignore.rs:89-95 | `name/` applies to the file `name/top/leaf` iff `leaf` is not `name` |
| McIgnore.NestedContents | src/engine/index/mcignore.rs:103-113 | a plain name matches `top/name`, but `top/name/leaf` iff `top` or `leaf` is that name too |
| McIgnore.BeneathMeaning | src/engine/index/mcignore.rs:103-113 | a star-free pattern matches a path beneath any entry iff its segments start or end the path's |
| McIgnore.ContentsCoveredIff | src/engine/index/mcignore.rs:103-113 | a star-free pattern matches everything beneath an entry iff the entry's segments start with the pattern's |
| McIgnore.Load | src/engine/index/mcignore.rs:33-71 | loads one pattern per line that is neither blank nor a comment, in order; a missing file gives none; a file that does not open or has a line that is not text is an error |
| McIgnore.EntryOfLine | src/engine/index/mcignore.rs:44-49 | whitespace around a line, a carriage return included, does not matter; blank lines and comments give no pattern |
| Scaffold.CreateOrUpdateMcignore | src/service/scaffold.rs:101-161 | writes the merge of the file with the default entries |
| Scaffold.DefaultsArePlain | src/service/scaffold.rs:102-125 | every default entry stands for itself as a positive pattern, as the merge lemmas require |
| Scaffold.PatternsAfterMerge | src/service/scaffold.rs:133-158 | after the merge of any text, loading gives the old patterns followed by one positive pattern per missing default |
| Scaffold.LoadOfSpelled | src/engine/index/mcignore.rs:44-66 | patterns written one per line are loaded back exactly |
| Scaffold.EntriesOfMerged | src/service/scaffold.rs:127-158 | the merge keeps every entry in place and leaves every default present |
| Scaffold.MergeKeepsText | src/service/scaffold.rs:133-158 | the text that was there stays in front as it is, and is all there is if no default is missing |
| Scaffold.MergeIsIdempotent | src/service/scaffold.rs:136-148 | a second run changes nothing |
| RootPath.CanonicalizeRootPath | src/util.rs:66-95 | the fold over a path buffer renders the names that following the components leaves |
| RootPath.FoldStepOnRender | src/util.rs:69-80 | one push or pop on the text of the buffer is one step on the stack of names |
| RootPath.NamesOfLonger | src/util.rs:69-80 | one more piece: empty and `.` change nothing, `..` takes the last name away if there is one, any other is one more name |
| RootPath.NamesOfOnePiece | src/util.rs:69-80 | a single piece names itself, or nothing if it is empty, `.` or `..` |
| RootPath.ParentUndoesName | src/util.rs:74-76 | `p/name/..` has the canonical form of `p`, for absolute and relative paths |
| RootPath.ParentOfRoot | src/util.rs:74-76 | `..` above a path that names nothing is `/` |
| RootPath.NormalForm | src/util.rs:60-65 | a canonical path is `/` or proper names joined by single slashes, without trailing slash, and names what the input names |
| RootPath.CanonicalPieces | src/util.rs:60-95 | slashes cut the canonical path into exactly its names, behind one leading slash if it is absolute |
| RootPath.CanonicalIsIdempotent | src/util.rs:60-65 | canonicalizing twice is canonicalizing once |
| RootPath.CanonicalOfPrefix | src/util.rs:66-95 | canonicalizing a prefix first gives the same result iff the prefix is absolute, empty or leaves a name, or the rest leaves none |
| RootPath.SafeIff | src/util.rs:104-115 | accepted are exactly the paths that are not empty, not `.`, do not start with a slash and have no piece `..` |
| RootPath.SafePathsStayInside | src/engine/index/importer.rs:25-30 | an accepted relative path joined to an absolute root canonicalizes to the root's names followed by its own |
| StableSort.SortIsStable | src/db/export.rs:107-109 | the library sort returns an ordered permutation that keeps the order of equal elements |
| StableSort.StableSortIsUnique | src/db/export.rs:107-109 | order and stability determine the result completely |
| StableSort.StableSortPermutes | src/db/export.rs:107-109 | whatever is ordered and stable is the result of the library sort, hence a permutation |
| Migration.Run | src/schema/migration/registry/v005_add_unique_root_path.rs:13-86 | a run stopped after any number of statements leaves a state whose repair is the same; a complete run leaves the repaired tables and the index |
| Migration.RunUntilFinished | src/schema/migration/run.rs:40-82 | any number of interrupted runs and one complete run end in the tables one complete run gives, with every version recorded once |
| Migration.CollectDeleted | src/schema/migration/registry/v005_add_unique_root_path.rs:44-68 | whatever the order of the groups, exactly the projects that do not survive are listed |
| Migration.OneNewestSurvivorPerRoot | src/schema/migration/registry/v005_add_unique_root_path.rs:41-43 | each canonical root other than `/` keeps exactly one project, the last in id order of those with the maximal `updated_at` |
| Migration.RepairedIsClean | src/schema/migration/registry/v005_add_unique_root_path.rs:80-85 | after the repair all roots are canonical, distinct and not `/`, so the unique index can be defined, and no file row is orphaned by it |
| Migration.RepairKeepsTheRest | src/schema/migration/registry/v005_add_unique_root_path.rs:20-78 | survivors keep everything but the spelling of their root, and exactly the files of projects that go are removed |
| Migration.RepairResumes | src/schema/migration/registry/v005_add_unique_root_path.rs:20-78 | from every state a crashed run can leave before deleting the projects, the repair gives the same tables |
| Migration.LosersAreNotSurvivors | src/schema/migration/registry/v005_add_unique_root_path.rs:45-67 | the records a group loses are exactly those that are not the newest of their root |
| ProjectService.Register | src/service/project.rs:61-209 | the step-by-step call leaves the tables and gives the answer of the decision table on reconciled records; stopped before any statement it leaves a state from which it can be repeated |
| ProjectService.OutcomeIff | src/service/project.rs:61-209 | the outcome of every call, from arbitrary tables: each error exactly in its own case, otherwise success with the id of the record that stays at the root, else of the one config.json names, else the new one |
| ProjectService.TargetExists | src/service/project.rs:117-153 | there is always exactly one row a call can write |
| ProjectService.ReconcileRootRecords | src/service/project.rs:304-354 | removes all records at the root, with their files, but the one config.json names or else the newest; stopped before any statement, some of those files only |
| ProjectService.CallKeepsRootsClean | src/service/project.rs:61-209 | on clean tables: roots stay canonical, distinct and not `/`; an error changes nothing; a success leaves its project alone at the root |
| ProjectService.RootIndexNeverRefuses | src/service/project.rs:155-202 | on clean tables the unique index on the root never refuses a write |
| ProjectService.RunsKeepRootsClean | src/service/project.rs:61-209 | every sequence of calls on repaired tables keeps the roots clean and orphans no file row |
| ProjectService.EveryCallOfARun | src/service/project.rs:61-209 | in every such run each success leaves exactly its project at the canonical root and each error leaves the tables unchanged |
| ProjectService.ConflictIff | src/service/project.rs:128-147 | from arbitrary tables the identity conflict is reported iff the config's project lives at another root while this root has a record |
| ProjectService.OnlyDuplicatesGo | src/service/project.rs:294-303 | from arbitrary tables exactly the duplicates at the root and their files are removed, and no other row changes but the answered one |
| ProjectService.DuplicatesDoNotStay | src/service/project.rs:298-303 | the duplicates are exactly the records at the root that are not the one to keep |
| ProjectService.StaysIff | src/service/project.rs:311-331 | of several records at a root the one config.json names stays, else the first in id order of the most recently updated |
| ProjectService.CallLeavesNoOrphans | src/service/project.rs:339-350 | a call never orphans a file row |
| ProjectService.AloneAtRoot | src/service/project.rs:155-208 | a success leaves exactly the answered project at the root, with the call's data |
| ProjectService.AnswerIsTheOneThatStays | src/service/project.rs:298-303 | the answered project is the one config.json names if it is at the root, otherwise the newest there |
| ProjectService.ActionMeaning | src/service/project.rs:117-153 | what each reported action says about the record at the root and the config's project before the call |
| ProjectService.RefusedIff | src/service/project.rs:155-202 | on clean tables a statement is refused iff another project of the owner has the slug |
| ProjectService.RejectionKeepsTables | src/service/project.rs:100-147 | a rejected call leaves the tables as they were iff it stopped before the records were read or the root had at most one |
| ProjectService.RepeatedCall | src/service/project.rs:117-153 | repeating a success gives the same id, removes nothing and only moves `updated_at` |
| ProjectService.StoppedCallLeavesNoOrphans | src/service/project.rs:338-351 | a call that stops between any two statements orphans no file row |
| ProjectService.ReconcilingResumes | src/service/project.rs:338-351 | from every state a stopped removal can leave, reconciling gives the same tables and keeps the same record |
| ProjectService.StoppedCallRepeats | src/service/project.rs:296-303 | repeating a stopped call leaves the tables, and but for the number of duplicates gives the answer, the repetition alone would have |
| ProjectService.StoppedAgain | src/service/project.rs:296-303 | any number of stopped calls in a row leave a state that one stopped call could have left |
| Registrations.RootsStayClean | src/service/project.rs:61-209 | in every interleaving of the statements of any calls on clean tables: roots stay canonical, distinct and not `/`, no call ever finds two records at a root, no row is deleted |
| Registrations.SelectRootMeaning | src/service/project.rs:70-98 | before its look at the root a call stops exactly for `/`, a missing profile or a malformed id; it takes the record to keep, if there is one |
| Registrations.SelectConfigMeaning | src/service/project.rs:100-153 | in every state: a conflict iff config.json names a live project other than the record found; else the row to write is the record found, the one named, or a new one |
| Registrations.RootTakenIff | src/service/project.rs:90-202 | the root index refuses a write iff another call has put another project at the root since this call looked |
| Registrations.StoreOutcome | src/service/project.rs:155-202 | in every interleaving a write succeeds iff root and slug are free, and then leaves its project alone at the root; a refused one changes nothing |
| Registrations.UndisturbedIsRegistered | src/service/project.rs:61-209 | the statements of a call with none of another in between do what the decision table says |
| Registrations.SecondIsRefused | src/service/project.rs:90-172 | of two first registrations of a root that both look before either writes, the second to write is refused |
| Restore.Restoration.Run | src/db/backup.rs:152-236 | every execution is a run of the protocol; it succeeds iff no lock is held on a present database, the backup is a usable directory and no needed operation fails; a locked database stays as it is; after an error the live tree is in place unless the second rename and its roll-back failed or only the last flush did |
| Restore.CopyDirRecursive | src/db/backup.rs:240-256 | a finished copy equals its source; one that fails or crashes anywhere, even inside a file, is a part of it |
| Restore.RemoveTree | src/db/backup.rs:174-178 | a removal that fails or crashes anywhere leaves a part of the tree |
| Restore.StepKeepsRunInv | src/db/backup.rs:172-230 | every file operation keeps the invariant of the protocol |
| Restore.DataIsPreserved | src/db/backup.rs:147-151 | at every point of a run that starts with a live tree, that tree is whole in place or at `.old`, or the complete backup is in place, or the backup was the non-empty temp directory and the database is empty |
| Restore.PreservedIff | src/db/backup.rs:174-182 | every such run preserves the data iff it is not given its own non-empty temp directory as the backup (with a non-empty database to lose) |
| Restore.LiveIsComplete | src/db/backup.rs:147-151 | the database path holds the old tree, nothing, or a complete copy; other paths are untouched |
| Restore.CompleteIff | src/db/backup.rs:174-182 | every run leaves the database path absent, as it was, or with all the backup held, iff the backup is not the non-empty temp directory (or the database was empty before) |
| Restore.NeverPartial | src/db/backup.rs:152-236 | over any sequence of runs and crashes, whatever they restore, the database path is absent or complete, or empty after a restore from the temp directory; other paths are untouched |
| Restore.RunHoldsIff | src/db/backup.rs:147-178 | for any disk and any set of wanted trees: no run loses the last of them iff the database is one of them and so is what the run installs, or the backup is refused and one is there |
| Restore.RerunPreservesIff | src/db/backup.rs:174-178 | after any runs and crashes, the next run is sure to keep the original or a restored tree iff the database path is present (and still holds such a tree, should the temp directory have been restored from), or its backup is refused and nothing was lost before |
| Restore.RerunCanLoseOriginal | src/db/backup.rs:174-178 | after a crash between the two renames the next run can remove the only copy of the original |
| LruCache.LruCache.Get | src/engine/index/cache.rs:33-40 | answers the last value put iff the key is among the most recently touched |
| LruCache.LruCache.Put | src/engine/index/cache.rs:42-56 | leaves the cache that the longer history determines |
| LruCache.LruCache.MoveToFront | src/engine/index/cache.rs:58-63 | moves the key to the front and keeps the order of the others |
| LruCache.HistoryIsExact | src/engine/index/cache.rs:33-63 | after any history the order is exactly the `capacity` most recently touched keys, newest first, without duplicates, and lists the map's keys; capacity 0 acts as 1 |
| LruCache.RecencyIsByLastTouch | src/engine/index/cache.rs:58-63 | recency lists the touched keys by the position of their last touch |
| LruCache.TouchMoves | src/engine/index/cache.rs:42-63 | keeping the most recent keys needs only the kept list and the new touch |
| IndexEngine.IndexEngine.GetFileMetadata | src/engine/index/engine.rs:88-102 | answers iff the path was ever inserted, with a value the index held for it; an answer from the cache, given exactly for the most recently used paths, is current iff no insert since the entry was fetched has replaced it, and any other answer is current |
| IndexEngine.AnswersAreHistorical | src/engine/index/engine.rs:88-102 | in every interleaving of lookups, inserts and project changes an answer is one the index held, the current one if the path was inserted once |
| IndexEngine.AnswerIsCurrentIff | src/engine/index/engine.rs:88-102 | in every interleaving an answer, cached or just fetched, is current iff no insert since its fetch from the index has replaced it |
| IndexEngine.CacheAnswersIff | src/engine/index/engine.rs:92-94 | in every interleaving the cache answers exactly for its most recently used paths |
| IndexEngine.IndexMembers | src/engine/index/runtime_index.rs:44-53 | the index has a path iff it was inserted, and holds an entry inserted for it |
| IndexEngine.IndexOfConcat | src/engine/index/runtime_index.rs:44-53 | later inserts replace earlier ones, path by path |
| IndexEngine.AnswerCanBeStale | src/engine/index/engine.rs:92-94 | after a second insert a lookup can still answer with the first entry |
| Importer.EveryInterleaving | src/engine/index/importer.rs:129-193 | in every interleaving: one row per path, every written row was acceptable to a task that wrote it, index entries name their row, no walked file goes unless upserted or excluded, at most eight tasks run |
| Importer.SucceedsIff | src/engine/index/importer.rs:202-276 | an import ends well iff its file holds metadata for a path inside the root and none of its steps went wrong |
| Importer.IndexedIff | src/engine/index/importer.rs:250-255 | a successful import of a path that is not excluded upserted its metadata, and entered the index iff the file was found on disk; an excluded one did neither |
| Importer.IndexAfterRun | src/engine/index/importer.rs:283-304 | in every state the index is what it was before plus, for every file that entered it, the row of its path |
| Importer.RemovedIff | src/engine/index/importer.rs:240-265 | a staged file is gone iff the step removing it worked, and every success has taken that step |
| Importer.UpdatesIffFound | src/engine/index/importer.rs:310-345 | a task updates only a path that had a row when it looked, and creates one only if it had none |
| Importer.StepKeepsInv | src/engine/index/importer.rs:202-381 | every atomic action of every task keeps the invariant |
| Importer.TableIsLastUpserts | src/engine/index/importer.rs:306-381 | the one row of a path holds the metadata of the last upsert of that path, and is untouched if there was none |
| Importer.WrittenPathsAreInside | src/engine/index/importer.rs:225-249 | every row added or changed names a path that canonicalizes inside an absolute project root, and one the ignore file excludes only if a task that wrote it failed to load the file |
| Importer.ExcludedIsNeverWrittenIff | src/engine/index/importer.rs:76-81 | no run ever writes an excluded path iff no task that fails to load the ignore file has a staged file for an excluded path inside the root |
| Importer.DirectoryGoesIff | src/engine/index/importer.rs:187-190 | the directory, with the files the walk passes over, is removed iff the walk found files and every import succeeded |
| Importer.RunsAreShort | src/engine/index/importer.rs:153-185 | no interleaving is longer than eight steps per file and the final one |
| Importer.NoDeadlock | src/engine/index/importer.rs:153-185 | an import that is not over can always go on |
| CircuitBreaker.ClosedIffBelowThreshold | src/db/pool.rs:55-109 | after any history, closed means fewer than three counted failures, and the count is the streak since the last success or reset |
| CircuitBreaker.OpensAtThirdFailure | src/db/pool.rs:86-102 | the breaker leaves the closed state exactly at the third failure with no success or reset in between |
| CircuitBreaker.NothingDuringCooldown | src/db/pool.rs:59-66 | without a reset an open breaker admits nothing for five seconds after opening |
| CircuitBreaker.OpenIff | src/db/pool.rs:55-109 | after any history the breaker is open iff some failure opened it (third of a streak, or while half-open) and since then there was no reset and no check after the cooldown |
| CircuitBreaker.HalfOpenIff | src/db/pool.rs:59-66 | after any history it is half-open iff a check after the cooldown made it so and only checks followed |
| CircuitBreaker.CircuitBreaker.AllowRequest | src/db/pool.rs:55-68 | admits unless the breaker is open and cooling down; an open breaker past its cooldown becomes half-open |
| CircuitBreaker.CircuitBreaker.RecordSuccess | src/db/pool.rs:71-83 | closes a half-open breaker, clears the count of a closed one and leaves an open one; follows the history |
| CircuitBreaker.CircuitBreaker.RecordFailure | src/db/pool.rs:86-102 | counts, opens a closed breaker at the third failure and a half-open one at once; follows the history |
| CircuitBreaker.CircuitBreaker.ResetBreaker | src/db/pool.rs:105-109 | closes the breaker and clears the count; leaves the state the history with one reset more determines |
| CircuitBreaker.RetryWithBreaker | src/db/retry.rs:27-77 | whatever other tasks do to the shared breaker between the steps, the loop makes the calls, gives the answer and leaves the breaker of the attempt-by-attempt specification; a rejection leaves it open, an error leaves a failure on record, a success leaves it closed without failures unless others opened it |
| CircuitBreaker.AnswerIsLastCall | src/db/retry.rs:42-77 | the answer of a retry is how its last call ended; only a transient failure before the fourth call is followed by another check |
| CircuitBreaker.CallsWhileClosed | src/db/retry.rs:22-74 | exactly how many calls an undisturbed retry makes through a closed breaker: all earlier ones fail transiently, and from the third recorded failure on each takes a whole cooldown |
| CircuitBreaker.CallsOfFreshRetry | src/db/retry.rs:11-20 | with a fresh breaker of its own the fourth call happens iff three transient failures are followed by a whole cooldown; otherwise at most three |
| CircuitBreaker.CallsThroughAnyBreaker | src/db/retry.rs:22-26 | through any breaker, whatever other tasks do to it between the steps, at most four calls, and none iff the first check finds it open and cooling down |
| Search.ScoreResult | src/engine/index/search.rs:263-328 | adds up the weights of the whole query and of every token |
| Search.QueryHitsAddUp | src/engine/index/search.rs:263-292 | each field that the whole query hits adds its own weight (path, purpose, features 5; summary, tags, functions 4) and nothing else does |
| Search.TokenHitsAddUp | src/engine/index/search.rs:294-326 | each field that a token hits adds its own weight (features 4; tags, purpose, path, functions 3; summary 2; type 1) and nothing else does |
| Search.ScoreAddsUp | src/engine/index/search.rs:263-328 | the score is that of the query and of every non-empty token, added up |
| Search.Search | src/engine/index/search.rs:409-569 | rejects too long queries and control characters, otherwise answers the ranking of the fetched rows |
| Search.RankedIsTop | src/engine/index/search.rs:549-561 | the answer is the head of the stable descending order of all kept rows, and no row left out scores higher |
| Search.KeptIff | src/engine/index/search.rs:521-548 | a row is kept iff it has a wanted feature, if any are asked for, and some token hits some field, if there are tokens |
| Search.RetainSplits | src/engine/index/search.rs:521-548 | filtering keeps the order and the number of the rows that pass |
| Search.UnrankedIsPrefix | src/engine/index/search.rs:549-561 | without a query the answer is the first kept rows as fetched, with score 0 |
| Search.ScoresAreBounded | src/engine/index/search.rs:521-561 | every answered row is a kept fetched row scoring at least 1 with tokens, and at most 27 plus 19 per token, hence at most 9527 |
| Search.TokensAreFew | src/engine/index/search.rs:413-439 | a query of at most 1000 bytes has at most 500 tokens, none empty |
| Search.WordsAround | src/engine/index/search.rs:425-439 | whitespace separates the words of a query |
| Search.TokensOfQuery | src/engine/index/search.rs:425-439 | trailing stars do not count, and the tokens are the lowered words that are not empty |
| Export.SortRows | src/db/export.rs:109-114 | leaves the same rows in place, in order of their id, rows with the same or no id in their original order |
| Export.StringLeqIff | src/db/export.rs:60 | strings are ordered by the first place where they differ, a prefix coming first |
| Export.RowsWithoutIdComeLast | src/db/export.rs:107-108 | in every stable order by id, rows with an id come in alphabetical order of it, rows without one last in their original order |
| Export.ExportIsDeterministic | src/db/export.rs:148-157 | for rows with different ids the exported order does not depend on the order of the input |
| Export.ListTablesFilter | src/db/export.rs:57-62 | in alphabetical order, every name that does not start with an underscore as often as it was given, and no other |
| Export.TableListIsDeterministic | src/db/export.rs:57-62 | the table list does not depend on the order the tables are reported in |

## Left out

- The embedded database, SQL text, `LIKE`/`CONTAINS`, JSON parsing, SHA-256 and directory walking: foreign libraries, represented by tables, parameters and arbitrary choices.
- Which rows a search fetches: the SQL `LIMIT` cuts rows before scoring, so ranking is stated for the fetched rows only.
- Search.ScoreResult: scores are natural numbers, because the weights are whole and at most 9527 in sum, where `f64` is exact.
- Restore.Restoration.Run: symbolic links, permissions, hardware flushing, backups nested inside the three working directories or containing them (the copy then runs into itself), and a daemon that changes the database during or between runs are not modelled.
- `backup`, `list_backups` and `dir_size`: a copy of the live directory and reports on it; only the recursive copy is modelled.
- Importer.EveryInterleaving: the staged files, the ignore file and the project's rows are changed by nobody else during one import; which tasks fail to load the ignore file is arbitrary.
- Registrations.RootsStayClean: no other service deletes or moves projects while calls run.
- Migration.Run: graph relation tables are touched by neither the migration nor registration; v001 to v004 only define the schema.
- CircuitBreaker.ClosedIffBelowThreshold: the failure count is unbounded, the wrap-around of a 64-bit counter is not modelled; the sleeps of the retry loop appear only as the times of the breaker checks.
- Filter planning and file writing of `export_tables`, `slugify`, configuration files, the other services, runtime phases and client facades: plumbing or single-branch facts.
