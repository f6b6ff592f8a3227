/** Importing staged metadata files: up to eight tasks interleaved over one table, one index and one directory. */
module Importer {
  import opened Options
  import opened RootPath
  import opened McIgnore

  const MAX_CONCURRENT_IMPORTS: nat := 8

  /** What a staged file holds. */
  datatype Staged = Unreadable | InvalidJson | Metadata(path: string, data: string)

  datatype Row = Row(project: string, path: string, data: string)

  /**
   * What stays fixed during one `import_pending`: the walked files, by position, and the settings.
   * Every task loads the ignore file itself; `unloaded` are the files whose task gets an error from it.
   */
  datatype Setup = Setup(project: string, root: string, ignoreFile: Option<string>, unloaded: set<nat>,
                         staged: seq<Staged>, table: map<nat, Row>, index: map<string, nat>)

  /** The pattern set of the task of file `k`: empty when loading failed. */
  function Patterns(c: Setup, k: nat): seq<Pattern> {
    if k in c.unloaded then [] else LoadedPatterns(c.ignoreFile)
  }

  /** How far the task of one file has come. */
  datatype Task =
    | Queued
    | Reading
    | Deciding
    | RemovingIgnored
    | Hashing
    | Selecting(onDisk: bool)
    | Updating(row: nat, onDisk: bool)
    | Creating(onDisk: bool)
    | Indexing(row: nat)
    | RemovingImported
    | Finished(success: bool)

  /**
   * `removed` are the files removed one by one, `clearing` says that the removal of the whole directory
   * has begun, and `upserts` lists the files whose metadata was written, in order.
   */
  datatype State = State(table: map<nat, Row>, index: map<string, nat>, tasks: seq<Task>, removed: set<nat>,
                         clearing: bool, over: bool, upserts: seq<nat>)

  function Initial(c: Setup): State {
    State(c.table, c.index, seq(|c.staged|, k => Queued), {}, false, false, [])
  }

  /** One atomic action of one task; `ok` says whether the file operation or the statement succeeded. */
  datatype Step =
    | Start(file: nat)
    | Read(file: nat, ok: bool)
    | Decide(file: nat, isFile: bool)
    | Hash(file: nat, ok: bool)
    | Select(file: nat, ok: bool)
    | Update(file: nat, ok: bool)
    | Create(file: nat, ok: bool, newRow: nat)
    | Index(file: nat)
    | Remove(file: nat, ok: bool)
    | Panic(file: nat)
    | Close

  predicate IsRunning(t: Task) {
    !t.Queued? && !t.Finished?
  }

  function Running(tasks: seq<Task>): nat {
    if tasks == [] then 0
    else Running(tasks[..|tasks| - 1]) + (if IsRunning(tasks[|tasks| - 1]) then 1 else 0)
  }

  function PathOf(c: Setup, k: nat): string {
    if k < |c.staged| && c.staged[k].Metadata? then c.staged[k].path else ""
  }

  function DataOf(c: Setup, k: nat): string {
    if k < |c.staged| && c.staged[k].Metadata? then c.staged[k].data else ""
  }

  predicate RowOf(table: map<nat, Row>, project: string, path: string, id: nat) {
    id in table && table[id].project == project && table[id].path == path
  }

  predicate HasRow(table: map<nat, Row>, project: string, path: string) {
    exists id :: id in table && RowOf(table, project, path, id)
  }

  /** The patterns that the task of file `k` has loaded exclude its path. */
  ghost predicate Ignores(c: Setup, k: nat) {
    Ignored(Patterns(c, k), PathOf(c, k), false)
  }

  ghost predicate Acceptable(c: Setup, k: nat) {
    JoinWithinRoot(c.root, PathOf(c, k)).Some? && !Ignores(c, k)
  }

  /** The ignore file, when it can be loaded, excludes the path. */
  ghost predicate Excluded(c: Setup, path: string) {
    Ignored(LoadedPatterns(c.ignoreFile), path, false)
  }

  ghost predicate Enabled(c: Setup, s: State, step: Step) {
    && |s.tasks| == |c.staged|
    && if step.Close? then !s.over && forall k :: 0 <= k < |s.tasks| ==> s.tasks[k].Finished?
       else step.file < |s.tasks| && TaskEnabled(c, s, step, step.file)
  }

  ghost predicate TaskEnabled(c: Setup, s: State, step: Step, k: nat)
    requires k < |s.tasks| == |c.staged|
  {
    match step
    case Start(_) =>
      s.tasks[k].Queued? && Running(s.tasks) < MAX_CONCURRENT_IMPORTS && forall m :: 0 <= m < k ==> !s.tasks[m].Queued?
    case Read(_, ok) => s.tasks[k].Reading? && (ok ==> !c.staged[k].Unreadable?)
    case Decide(_, _) => s.tasks[k].Deciding?
    case Hash(_, _) => s.tasks[k].Hashing?
    case Select(_, _) => s.tasks[k].Selecting?
    case Update(_, _) => s.tasks[k].Updating?
    case Create(_, _, newRow) => s.tasks[k].Creating? && newRow !in s.table
    case Index(_) => s.tasks[k].Indexing?
    case Remove(_, _) => s.tasks[k].RemovingIgnored? || s.tasks[k].RemovingImported?
    case Panic(_) => IsRunning(s.tasks[k])
    case Close => false
  }

  /** After the metadata is written: the index only for a file that exists. */
  function AfterUpsert(row: nat, onDisk: bool): Task {
    if onDisk then Indexing(row) else RemovingImported
  }

  /** The existing row of a path. */
  ghost function ExistingRow(table: map<nat, Row>, project: string, path: string): (id: nat)
    requires HasRow(table, project, path)
    ensures RowOf(table, project, path, id)
  {
    var id :| id in table && RowOf(table, project, path, id);
    id
  }

  /** The two tests on the path; then a file that exists is hashed first. */
  ghost function Decision(c: Setup, k: nat, isFile: bool): (task: Task)
    ensures task in {Finished(false), RemovingIgnored, Hashing, Selecting(false)}
  {
    if JoinWithinRoot(c.root, PathOf(c, k)).None? then Finished(false)
    else if Ignores(c, k) then RemovingIgnored
    else if isFile then Hashing
    else Selecting(false)
  }

  /** Where a step takes the task of file `k`. */
  ghost function NextTask(c: Setup, s: State, step: Step, k: nat): Task
    requires k < |s.tasks| == |c.staged| && TaskEnabled(c, s, step, k)
  {
    match step
    case Start(_) => Reading
    case Read(_, ok) => if ok && c.staged[k].Metadata? then Deciding else Finished(false)
    case Decide(_, isFile) => Decision(c, k, isFile)
    case Hash(_, ok) => if ok then Selecting(true) else Finished(false)
    case Select(_, ok) =>
      if !ok then Finished(false)
      else if HasRow(s.table, c.project, PathOf(c, k)) then
        Updating(ExistingRow(s.table, c.project, PathOf(c, k)), s.tasks[k].onDisk)
      else Creating(s.tasks[k].onDisk)
    case Update(_, ok) => if ok then AfterUpsert(s.tasks[k].row, s.tasks[k].onDisk) else Finished(false)
    case Create(_, ok, newRow) =>
      if ok && !HasRow(s.table, c.project, PathOf(c, k)) then AfterUpsert(newRow, s.tasks[k].onDisk)
      else Finished(false)
    case Index(_) => RemovingImported
    case Remove(_, _) => Finished(true)
    case Panic(_) => Finished(false)
  }

  /** Whether the step writes the metadata of its file. */
  ghost predicate Writes(c: Setup, s: State, step: Step) {
    || (step.Update? && step.ok)
    || (step.Create? && step.ok && !HasRow(s.table, c.project, PathOf(c, step.file)))
  }

  ghost function NextTable(c: Setup, s: State, step: Step): map<nat, Row> {
    if !Writes(c, s, step) then s.table
    else if step.Update? then Updated(s.table, c.project, PathOf(c, step.file), DataOf(c, step.file))
    else s.table[step.newRow := Row(c.project, PathOf(c, step.file), DataOf(c, step.file))]
  }

  ghost function Do(c: Setup, s: State, step: Step): State
    requires Enabled(c, s, step)
  {
    if step.Close? then
      s.(over := true,
         clearing := s.tasks != [] && forall k :: 0 <= k < |s.tasks| ==> s.tasks[k] == Finished(true))
    else
      var k := step.file;
      State(NextTable(c, s, step),
            if step.Index? then s.index[PathOf(c, k) := s.tasks[k].row] else s.index,
            s.tasks[k := NextTask(c, s, step, k)],
            if step.Remove? && step.ok then s.removed + {k} else s.removed,
            s.clearing,
            s.over,
            if Writes(c, s, step) then s.upserts + [k] else s.upserts)
  }

  /** `UPDATE file_data ... WHERE project_id = $project_id AND path = $path`. */
  function Updated(table: map<nat, Row>, project: string, path: string, data: string): map<nat, Row> {
    map id | id in table :: if RowOf(table, project, path, id) then table[id].(data := data) else table[id]
  }

  // ---- The invariant ----

  /** The file is dealt with: its metadata was written, or its path is excluded. */
  ghost predicate Handled(c: Setup, upserts: seq<nat>, k: nat) {
    && k < |c.staged| && c.staged[k].Metadata?
    && (k in upserts || Ignores(c, k))
  }

  /** What a task knows about its file: past deciding, that its path is acceptable. */
  ghost predicate TaskInv(c: Setup, table: map<nat, Row>, upserts: seq<nat>, k: nat, task: Task)
    requires k < |c.staged|
  {
    var acceptable := c.staged[k].Metadata? && Acceptable(c, k);
    match task
    case Queued => true
    case Reading => true
    case Deciding => c.staged[k].Metadata?
    case RemovingIgnored => Handled(c, upserts, k)
    case Hashing => acceptable
    case Selecting(_) => acceptable
    case Updating(row, _) => acceptable && RowOf(table, c.project, PathOf(c, k), row)
    case Creating(_) => acceptable
    case Indexing(row) => acceptable && k in upserts && RowOf(table, c.project, PathOf(c, k), row)
    case RemovingImported => Handled(c, upserts, k)
    case Finished(success) => success ==> Handled(c, upserts, k)
  }

  ghost predicate TasksInv(c: Setup, s: State) {
    && |s.tasks| == |c.staged|
    && forall k :: 0 <= k < |s.tasks| ==> TaskInv(c, s.table, s.upserts, k, s.tasks[k])
  }

  /** The (project, path) index of the table. */
  ghost predicate UniquePaths(table: map<nat, Row>) {
    forall a, b ::
      a in table && b in table && table[a].project == table[b].project && table[a].path == table[b].path ==> a == b
  }

  /** The last file upserted for a path. */
  function LastUpsert(c: Setup, upserts: seq<nat>, path: string): Option<nat> {
    if upserts == [] then None
    else
      var k := upserts[|upserts| - 1];
      if PathOf(c, k) == path then Some(k)
      else LastUpsert(c, upserts[..|upserts| - 1], path)
  }

  /**
   * A row whose path was upserted holds the metadata of the last upsert; any
   * other row is one the table had, unchanged.
   */
  ghost predicate RowInv(c: Setup, upserts: seq<nat>, id: nat, row: Row) {
    var last := LastUpsert(c, upserts, row.path);
    if row.project == c.project && last.Some? then
      && row.data == DataOf(c, last.value)
      && (id in c.table ==> c.table[id].project == row.project && c.table[id].path == row.path)
    else id in c.table && row == c.table[id]
  }

  ghost predicate TableInv(c: Setup, table: map<nat, Row>, upserts: seq<nat>) {
    && UniquePaths(table)
    && (forall id :: id in c.table ==> id in table)
    && (forall id :: id in table ==> RowInv(c, upserts, id, table[id]))
    && (forall path :: LastUpsert(c, upserts, path).Some? ==> HasRow(table, c.project, path))
  }

  /** Every runtime-index entry was there before or names the row of its path. */
  ghost predicate IndexInv(c: Setup, s: State) {
    forall path :: path in s.index ==>
      || (path in c.index && s.index[path] == c.index[path])
      || RowOf(s.table, c.project, path, s.index[path])
  }

  ghost predicate FilesInv(c: Setup, s: State) {
    && (forall k :: k in s.upserts ==> k < |c.staged| && c.staged[k].Metadata? && Acceptable(c, k))
    && (forall k :: k in s.removed ==> Handled(c, s.upserts, k))
    && (s.clearing ==> forall k :: 0 <= k < |c.staged| ==> Handled(c, s.upserts, k))
  }

  ghost predicate Inv(c: Setup, s: State) {
    && TasksInv(c, s) && TableInv(c, s.table, s.upserts) && IndexInv(c, s) && FilesInv(c, s)
    && Running(s.tasks) <= MAX_CONCURRENT_IMPORTS
  }

  lemma UpdateKeepsTableInv(c: Setup, table: map<nat, Row>, upserts: seq<nat>, k: nat, row: nat)
    requires TableInv(c, table, upserts) && RowOf(table, c.project, PathOf(c, k), row)
    ensures TableInv(c, Updated(table, c.project, PathOf(c, k), DataOf(c, k)), upserts + [k])
  {
    var path := PathOf(c, k);
    var after := Updated(table, c.project, path, DataOf(c, k));
    LastAfterWrite(c, upserts, k);
    assert RowOf(after, c.project, path, row);
    forall id | id in after ensures RowInv(c, upserts + [k], id, after[id]) {
      assert RowInv(c, upserts, id, table[id]);
    }
    forall q | LastUpsert(c, upserts + [k], q).Some? ensures HasRow(after, c.project, q) {
      if q != path {
        assert RowOf(after, c.project, q, ExistingRow(table, c.project, q));
      }
    }
  }

  lemma CreateKeepsTableInv(c: Setup, table: map<nat, Row>, upserts: seq<nat>, k: nat, newRow: nat)
    requires TableInv(c, table, upserts) && !HasRow(table, c.project, PathOf(c, k)) && newRow !in table
    ensures TableInv(c, table[newRow := Row(c.project, PathOf(c, k), DataOf(c, k))], upserts + [k])
  {
    var path := PathOf(c, k);
    var after := table[newRow := Row(c.project, path, DataOf(c, k))];
    LastAfterWrite(c, upserts, k);
    assert RowOf(after, c.project, path, newRow);
    forall id | id in after ensures RowInv(c, upserts + [k], id, after[id]) {
      if id != newRow {
        assert RowInv(c, upserts, id, table[id]);
        assert !RowOf(table, c.project, path, id);
      }
    }
    forall q | LastUpsert(c, upserts + [k], q).Some? ensures HasRow(after, c.project, q) {
      if q != path {
        assert RowOf(after, c.project, q, ExistingRow(table, c.project, q));
      }
    }
    forall id | id in table && table[id].project == c.project ensures table[id].path != path {
      assert !RowOf(table, c.project, path, id);
    }
  }

  lemma StepKeepsTableInv(c: Setup, s: State, step: Step)
    requires Inv(c, s) && Enabled(c, s, step)
    ensures TableInv(c, Do(c, s, step).table, Do(c, s, step).upserts)
  {
    if Writes(c, s, step) {
      var k := step.file;
      assert TaskInv(c, s.table, s.upserts, k, s.tasks[k]);
      if step.Update? {
        UpdateKeepsTableInv(c, s.table, s.upserts, k, s.tasks[k].row);
      } else {
        CreateKeepsTableInv(c, s.table, s.upserts, k, step.newRow);
      }
    }
  }

  lemma LastAfterWrite(c: Setup, upserts: seq<nat>, k: nat)
    ensures forall path :: LastUpsert(c, upserts + [k], path) ==
                           if path == PathOf(c, k) then Some(k) else LastUpsert(c, upserts, path)
  {
    assert (upserts + [k])[..|upserts|] == upserts;
  }

  /** Rows keep their project and path, so what is known about a row stays known. */
  lemma RowsStay(c: Setup, s: State, step: Step, path: string, id: nat)
    requires Enabled(c, s, step) && RowOf(s.table, c.project, path, id)
    ensures RowOf(Do(c, s, step).table, c.project, path, id)
  {
  }

  lemma TaskInvStays(c: Setup, s: State, step: Step, k: nat)
    requires Inv(c, s) && Enabled(c, s, step) && k < |s.tasks|
    requires step.Close? || k != step.file
    ensures TaskInv(c, Do(c, s, step).table, Do(c, s, step).upserts, k, s.tasks[k])
  {
    assert TaskInv(c, s.table, s.upserts, k, s.tasks[k]);
    if s.tasks[k].Updating? || s.tasks[k].Indexing? {
      RowsStay(c, s, step, PathOf(c, k), s.tasks[k].row);
    }
  }

  lemma StepKeepsTasksInv(c: Setup, s: State, step: Step)
    requires Inv(c, s) && Enabled(c, s, step)
    ensures TasksInv(c, Do(c, s, step))
  {
    var t := Do(c, s, step);
    forall k | 0 <= k < |t.tasks| ensures TaskInv(c, t.table, t.upserts, k, t.tasks[k]) {
      if step.Close? || k != step.file {
        TaskInvStays(c, s, step, k);
      } else {
        OwnTaskInv(c, s, step);
      }
    }
  }

  lemma OwnTaskInv(c: Setup, s: State, step: Step)
    requires Inv(c, s) && Enabled(c, s, step) && !step.Close?
    ensures TaskInv(c, Do(c, s, step).table, Do(c, s, step).upserts, step.file, NextTask(c, s, step, step.file))
  {
    if step.Update? || step.Create? {
      OwnTaskInvAfterWrite(c, s, step);
    } else if step.Decide? {
      OwnTaskInvAfterDecide(c, s, step);
    } else {
      OwnTaskInvOtherwise(c, s, step);
    }
  }

  lemma OwnTaskInvAfterDecide(c: Setup, s: State, step: Step)
    requires Inv(c, s) && Enabled(c, s, step) && step.Decide?
    ensures TaskInv(c, Do(c, s, step).table, Do(c, s, step).upserts, step.file, NextTask(c, s, step, step.file))
  {
    hide Ignores, JoinWithinRoot;
    assert TaskInv(c, s.table, s.upserts, step.file, s.tasks[step.file]);
  }

  lemma OwnTaskInvOtherwise(c: Setup, s: State, step: Step)
    requires Inv(c, s) && Enabled(c, s, step) && !step.Close? && !step.Update? && !step.Create? && !step.Decide?
    ensures TaskInv(c, Do(c, s, step).table, Do(c, s, step).upserts, step.file, NextTask(c, s, step, step.file))
  {
    hide Acceptable, Ignores;
    assert TaskInv(c, s.table, s.upserts, step.file, s.tasks[step.file]);
  }

  lemma OwnTaskInvAfterWrite(c: Setup, s: State, step: Step)
    requires Inv(c, s) && Enabled(c, s, step) && (step.Update? || step.Create?)
    ensures TaskInv(c, Do(c, s, step).table, Do(c, s, step).upserts, step.file, NextTask(c, s, step, step.file))
  {
    var k := step.file;
    assert TaskInv(c, s.table, s.upserts, k, s.tasks[k]);
    assert Writes(c, s, step) ==> k in Do(c, s, step).upserts;
  }

  lemma {:induction false} RunningAfter(tasks: seq<Task>, k: nat, task: Task)
    requires k < |tasks|
    ensures Running(tasks[k := task]) ==
            Running(tasks) - (if IsRunning(tasks[k]) then 1 else 0) + (if IsRunning(task) then 1 else 0)
  {
    var n := |tasks| - 1;
    if k < n {
      RunningAfter(tasks[..n], k, task);
      assert tasks[k := task][..n] == tasks[..n][k := task];
    } else {
      assert tasks[k := task][..n] == tasks[..n];
    }
  }

  lemma StepKeepsIndexInv(c: Setup, s: State, step: Step)
    requires Inv(c, s) && Enabled(c, s, step)
    ensures IndexInv(c, Do(c, s, step))
  {
    var t := Do(c, s, step);
    if step.Index? {
      assert TaskInv(c, s.table, s.upserts, step.file, s.tasks[step.file]);
    }
    forall path | path in t.index
      ensures (path in c.index && t.index[path] == c.index[path]) || RowOf(t.table, c.project, path, t.index[path])
    {
      if path in s.index && RowOf(s.table, c.project, path, s.index[path]) {
        RowsStay(c, s, step, path, s.index[path]);
      }
    }
  }

  lemma HandledStays(c: Setup, upserts: seq<nat>, more: seq<nat>)
    ensures forall k :: Handled(c, upserts, k) ==> Handled(c, upserts + more, k)
  {
  }

  lemma CloseKeepsFilesInv(c: Setup, s: State)
    requires Inv(c, s) && Enabled(c, s, Close)
    ensures FilesInv(c, Do(c, s, Close))
  {
    var t := Do(c, s, Close);
    forall k | 0 <= k < |c.staged| ensures t.clearing ==> Handled(c, t.upserts, k) {
      assert TaskInv(c, s.table, s.upserts, k, s.tasks[k]);
    }
  }

  lemma TaskKeepsFilesInv(c: Setup, s: State, step: Step)
    requires Inv(c, s) && Enabled(c, s, step) && !step.Close?
    ensures FilesInv(c, Do(c, s, step))
  {
    var t, k := Do(c, s, step), step.file;
    assert TaskInv(c, s.table, s.upserts, k, s.tasks[k]);
    HandledStays(c, s.upserts, if Writes(c, s, step) then [k] else []);
    assert s.upserts + [] == s.upserts;
    assert t.clearing == s.clearing;
    assert step.Remove? ==> Handled(c, s.upserts, k);
  }

  lemma StepKeepsInv(c: Setup, s: State, step: Step)
    requires Inv(c, s) && Enabled(c, s, step)
    ensures Inv(c, Do(c, s, step))
  {
    StepKeepsTasksInv(c, s, step);
    StepKeepsTableInv(c, s, step);
    StepKeepsIndexInv(c, s, step);
    if step.Close? {
      CloseKeepsFilesInv(c, s);
    } else {
      TaskKeepsFilesInv(c, s, step);
      RunningAfter(s.tasks, step.file, NextTask(c, s, step, step.file));
    }
  }

  // ---- Runs ----

  /** The state after the steps; none when a step was not enabled. */
  ghost function After(c: Setup, steps: seq<Step>): Option<State> {
    if steps == [] then Some(Initial(c))
    else
      match After(c, steps[..|steps| - 1])
      case None => None
      case Some(s) => if Enabled(c, s, steps[|steps| - 1]) then Some(Do(c, s, steps[|steps| - 1])) else None
  }

  lemma {:induction false} NoneRunning(c: Setup, n: nat)
    ensures Running(seq(n, k => Queued)) == 0
  {
    if n > 0 {
      assert seq(n, k => Queued)[..n - 1] == seq(n - 1, k => Queued);
      NoneRunning(c, n - 1);
    }
  }

  lemma {:induction false} RunsKeepInv(c: Setup, steps: seq<Step>)
    requires UniquePaths(c.table) && After(c, steps).Some?
    ensures Inv(c, After(c, steps).value)
  {
    if steps == [] {
      NoneRunning(c, |c.staged|);
    } else {
      RunsKeepInv(c, steps[..|steps| - 1]);
      StepKeepsInv(c, After(c, steps[..|steps| - 1]).value, steps[|steps| - 1]);
    }
  }

  lemma IgnoresIff(c: Setup, k: nat)
    ensures Ignores(c, k) <==> k !in c.unloaded && Excluded(c, PathOf(c, k))
  {
  }

  /** File `k` was upserted for this path, which its task had found acceptable. */
  ghost predicate WrittenBy(c: Setup, upserts: seq<nat>, k: nat, path: string) {
    k in upserts && PathOf(c, k) == path && Acceptable(c, k)
  }

  ghost predicate WrittenBySome(c: Setup, upserts: seq<nat>, path: string) {
    exists k :: WrittenBy(c, upserts, k, path)
  }

  /** In every interleaving: the safety of the table, the index and the staged files. */
  lemma EveryInterleaving(c: Setup, steps: seq<Step>)
    requires UniquePaths(c.table) && After(c, steps).Some?
    ensures var s := After(c, steps).value;
            && UniquePaths(s.table)
            && (forall id :: id in s.table ==>
                  (id in c.table && s.table[id] == c.table[id]) || WrittenBySome(c, s.upserts, s.table[id].path))
            && (forall path :: path in s.index ==>
                  || (path in c.index && s.index[path] == c.index[path])
                  || RowOf(s.table, c.project, path, s.index[path]))
            && (forall k :: 0 <= k < |c.staged| && (k in s.removed || s.clearing) ==>
                  k in s.upserts || (k !in c.unloaded && Excluded(c, PathOf(c, k))))
            && Running(s.tasks) <= MAX_CONCURRENT_IMPORTS
  {
    RunsKeepInv(c, steps);
    var s := After(c, steps).value;
    forall id | id in s.table
      ensures (id in c.table && s.table[id] == c.table[id]) || WrittenBySome(c, s.upserts, s.table[id].path)
    {
      assert RowInv(c, s.upserts, id, s.table[id]);
      if LastUpsert(c, s.upserts, s.table[id].path).Some? {
        LastIsUpserted(c, s.upserts, s.table[id].path);
        assert WrittenBy(c, s.upserts, LastUpsert(c, s.upserts, s.table[id].path).value, s.table[id].path);
      }
    }
    forall k | 0 <= k < |c.staged| && (k in s.removed || s.clearing)
      ensures k in s.upserts || (k !in c.unloaded && Excluded(c, PathOf(c, k)))
    {
      IgnoresIff(c, k);
      assert Handled(c, s.upserts, k);
    }
  }

  /**
   * Every row a run adds or changes names a path that resolves, by spelling, inside the project root, and
   * one the ignore file excludes only if a task that wrote it could not load the file.
   */
  lemma WrittenPathsAreInside(c: Setup, steps: seq<Step>, id: nat)
    requires UniquePaths(c.table) && After(c, steps).Some? && IsAbsolute(c.root)
    requires id in After(c, steps).value.table
    requires id in c.table ==> After(c, steps).value.table[id] != c.table[id]
    ensures var s := After(c, steps).value;
            var path := s.table[id].path;
            && JoinWithinRoot(c.root, path).Some?
            && Names(Canonical(JoinWithinRoot(c.root, path).value)) == Names(Canonical(c.root)) + Names(path)
            && (Excluded(c, path) ==> exists k :: k in c.unloaded && WrittenBy(c, s.upserts, k, path))
  {
    EveryInterleaving(c, steps);
    var s := After(c, steps).value;
    var k :| WrittenBy(c, s.upserts, k, s.table[id].path);
    IgnoresIff(c, k);
    SafePathsStayInside(c.root, s.table[id].path);
  }

  lemma {:induction false} LastIsUpserted(c: Setup, upserts: seq<nat>, path: string)
    requires LastUpsert(c, upserts, path).Some?
    ensures LastUpsert(c, upserts, path).value in upserts
    ensures PathOf(c, LastUpsert(c, upserts, path).value) == path
  {
    if PathOf(c, upserts[|upserts| - 1]) != path {
      LastIsUpserted(c, upserts[..|upserts| - 1], path);
    }
  }

  /** The last writer of a path wins, whatever the interleaving, and everything else is as it was. */
  lemma TableIsLastUpserts(c: Setup, steps: seq<Step>, path: string, id: nat)
    requires UniquePaths(c.table) && After(c, steps).Some?
    requires RowOf(After(c, steps).value.table, c.project, path, id)
    ensures var s := After(c, steps).value;
            if LastUpsert(c, s.upserts, path).Some?
            then s.table[id].data == DataOf(c, LastUpsert(c, s.upserts, path).value)
            else id in c.table && s.table[id] == c.table[id]
    ensures forall other :: RowOf(After(c, steps).value.table, c.project, path, other) ==> other == id
  {
    RunsKeepInv(c, steps);
    var s := After(c, steps).value;
    assert RowInv(c, s.upserts, id, s.table[id]);
  }

  // ---- Exactly when an excluded path is written ----

  lemma Extend(c: Setup, steps: seq<Step>, s: State, step: Step)
    requires After(c, steps) == Some(s) && Enabled(c, s, step)
    ensures After(c, steps + [step]) == Some(Do(c, s, step))
  {
    assert (steps + [step])[..|steps|] == steps;
  }

  /** A run in which the first `k` files turn out to be unreadable and the others wait. */
  lemma {:induction false} RunToFile(c: Setup, k: nat) returns (steps: seq<Step>, s: State)
    requires k <= |c.staged|
    ensures After(c, steps) == Some(s) && |s.tasks| == |c.staged|
    ensures forall m :: 0 <= m < |s.tasks| ==> s.tasks[m] == if m < k then Finished(false) else Queued
  {
    hide JoinWithinRoot, Ignores;
    if k == 0 {
      steps, s := [], Initial(c);
    } else {
      steps, s := RunToFile(c, k - 1);
      NothingRuns(s.tasks);
      Extend(c, steps, s, Start(k - 1));
      steps, s := steps + [Start(k - 1)], Do(c, s, Start(k - 1));
      Extend(c, steps, s, Read(k - 1, false));
      steps, s := steps + [Read(k - 1, false)], Do(c, s, Read(k - 1, false));
    }
  }

  lemma DecisionAccepts(c: Setup, k: nat)
    requires Acceptable(c, k)
    ensures Decision(c, k, false) == Selecting(false)
  {
    hide JoinWithinRoot, Ignores;
  }

  /** A run that goes on to start the task of file `k`. */
  lemma RunToReading(c: Setup, k: nat) returns (steps: seq<Step>, s: State)
    requires k < |c.staged|
    ensures After(c, steps) == Some(s) && |s.tasks| == |c.staged| && s.tasks[k] == Reading
  {
    hide JoinWithinRoot, Ignores;
    steps, s := RunToFile(c, k);
    NothingRuns(s.tasks);
    Extend(c, steps, s, Start(k));
    steps, s := steps + [Start(k)], Do(c, s, Start(k));
  }

  /** Until it has passed the tests on its path. */
  lemma RunToSelecting(c: Setup, k: nat) returns (steps: seq<Step>, s: State)
    requires k < |c.staged| && c.staged[k].Metadata? && Acceptable(c, k)
    ensures After(c, steps) == Some(s) && |s.tasks| == |c.staged| && s.tasks[k] == Selecting(false)
  {
    hide Acceptable, Decision, HasRow, Updated, Running;
    DecisionAccepts(c, k);
    steps, s := RunToReading(c, k);
    Extend(c, steps, s, Read(k, true));
    steps, s := steps + [Read(k, true)], Do(c, s, Read(k, true));
    Extend(c, steps, s, Decide(k, false));
    steps, s := steps + [Decide(k, false)], Do(c, s, Decide(k, false));
  }

  /** And then writes its metadata. */
  lemma RunToUpsert(c: Setup, k: nat) returns (steps: seq<Step>, s: State)
    requires k < |c.staged| && c.staged[k].Metadata? && Acceptable(c, k)
    ensures After(c, steps) == Some(s) && k in s.upserts
  {
    hide Acceptable, Decision, HasRow, Updated;
    steps, s := RunToSelecting(c, k);
    Extend(c, steps, s, Select(k, true));
    steps, s := steps + [Select(k, true)], Do(c, s, Select(k, true));
    var newRow := UnusedRow(s.table.Keys);
    var write := if s.tasks[k].Updating? then Update(k, true) else Create(k, true, newRow);
    Extend(c, steps, s, write);
    steps, s := steps + [write], Do(c, s, write);
  }

  ghost predicate Upserted(c: Setup, steps: seq<Step>, k: nat) {
    After(c, steps).Some? && k in After(c, steps).value.upserts
  }

  /**
   * "Never index an excluded path" holds in every run exactly when no file whose task
   * fails to load the ignore file is staged for an excluded path inside the root.
   */
  lemma ExcludedIsNeverWrittenIff(c: Setup)
    requires UniquePaths(c.table)
    ensures (forall steps, k :: Upserted(c, steps, k) ==> !Excluded(c, PathOf(c, k))) <==>
            (forall k :: k in c.unloaded && k < |c.staged| && c.staged[k].Metadata? ==>
               JoinWithinRoot(c.root, PathOf(c, k)).None? || !Excluded(c, PathOf(c, k)))
  {
    if k :| k in c.unloaded && k < |c.staged| && c.staged[k].Metadata? &&
            JoinWithinRoot(c.root, PathOf(c, k)).Some? && Excluded(c, PathOf(c, k)) {
      IgnoresIff(c, k);
      var steps, s := RunToUpsert(c, k);
      assert Upserted(c, steps, k);
    } else {
      forall steps, k | Upserted(c, steps, k) ensures !Excluded(c, PathOf(c, k)) {
        RunsKeepInv(c, steps);
        IgnoresIff(c, k);
      }
    }
  }

  // ---- What became of a file, read off the steps ----

  /** The step belongs to the task of file `k`. */
  predicate IsOf(step: Step, k: nat) {
    !step.Close? && step.file == k
  }

  lemma OtherTasksStay(c: Setup, s: State, step: Step, k: nat)
    requires Enabled(c, s, step) && k < |s.tasks| && !IsOf(step, k)
    ensures Do(c, s, step).tasks[k] == s.tasks[k]
  {
    hide NextTask, NextTable, Running, Writes;
  }

  lemma LastStep(c: Setup, steps: seq<Step>) returns (init: seq<Step>, s: State, step: Step)
    requires steps != [] && After(c, steps).Some?
    ensures steps == init + [step] && init == steps[..|steps| - 1]
    ensures After(c, init) == Some(s) && Enabled(c, s, step) && After(c, steps) == Some(Do(c, s, step))
  {
    hide Enabled, Do;
    init, step := steps[..|steps| - 1], steps[|steps| - 1];
    s := After(c, init).value;
  }

  /** Where a task stands and which of its steps on the index have been taken. */
  ghost predicate Told(c: Setup, steps: seq<Step>, k: nat, task: Task) {
    var onDisk, notOnDisk, indexed := Decide(k, true) in steps, Decide(k, false) in steps, Index(k) in steps;
    match task
    case Queued => !onDisk && !notOnDisk && !indexed
    case Reading => !onDisk && !notOnDisk && !indexed
    case Deciding => !onDisk && !notOnDisk && !indexed
    case RemovingIgnored => Ignores(c, k) && !indexed
    case Hashing => !Ignores(c, k) && onDisk && !notOnDisk && !indexed
    case Selecting(d) => !Ignores(c, k) && onDisk == d && notOnDisk == !d && !indexed
    case Updating(_, d) => !Ignores(c, k) && onDisk == d && notOnDisk == !d && !indexed
    case Creating(d) => !Ignores(c, k) && onDisk == d && notOnDisk == !d && !indexed
    case Indexing(_) => !Ignores(c, k) && onDisk && !notOnDisk && !indexed
    case RemovingImported => !Ignores(c, k) && notOnDisk == !onDisk && indexed == onDisk
    case Finished(true) => if Ignores(c, k) then !indexed else notOnDisk == !onDisk && indexed == onDisk
    case Finished(false) => indexed ==> onDisk && !notOnDisk
  }

  lemma {:induction false} TaskHistory(c: Setup, steps: seq<Step>, k: nat)
    requires After(c, steps).Some? && k < |c.staged|
    ensures |After(c, steps).value.tasks| == |c.staged| && Told(c, steps, k, After(c, steps).value.tasks[k])
  {
    if steps != [] {
      var init, s, step := LastStep(c, steps);
      TaskHistory(c, init, k);
      if IsOf(step, k) {
        OwnHistory(c, init, s, step, k);
      } else {
        OtherTasksStay(c, s, step, k);
        SameHistory(c, init, step, k, s.tasks[k]);
      }
    }
  }

  lemma SameHistory(c: Setup, init: seq<Step>, step: Step, k: nat, task: Task)
    requires !IsOf(step, k) && Told(c, init, k, task)
    ensures Told(c, init + [step], k, task)
  {
    hide Ignores;
    assert forall other :: other in init + [step] && other != step ==> other in init;
  }

  lemma OwnHistory(c: Setup, init: seq<Step>, s: State, step: Step, k: nat)
    requires Enabled(c, s, step) && IsOf(step, k) && k < |s.tasks| && Told(c, init, k, s.tasks[k])
    ensures Told(c, init + [step], k, NextTask(c, s, step, k))
    ensures Do(c, s, step).tasks[k] == NextTask(c, s, step, k)
  {
    hide Ignores, JoinWithinRoot, NextTable, HasRow, Running;
    assert forall other :: other in init + [step] <==> other in init || other == step;
  }

  /**
   * An import that succeeds and is not of an excluded path was found either on disk or
   * not, and it entered the runtime index exactly if it was found on disk.
   */
  lemma IndexedIff(c: Setup, steps: seq<Step>, k: nat)
    requires UniquePaths(c.table) && After(c, steps).Some? && k < |c.staged|
    requires After(c, steps).value.tasks[k] == Finished(true)
    ensures !Ignores(c, k) ==>
      && (Index(k) in steps <==> Decide(k, true) in steps)
      && (Decide(k, false) in steps <==> Decide(k, true) !in steps)
      && k in After(c, steps).value.upserts
    ensures Ignores(c, k) ==> Index(k) !in steps && k !in After(c, steps).value.upserts
  {
    hide Ignores, JoinWithinRoot, After, Running;
    TaskHistory(c, steps, k);
    RunsKeepInv(c, steps);
    var s := After(c, steps).value;
    assert TaskInv(c, s.table, s.upserts, k, s.tasks[k]);
  }

  /** In every later state too the index has the path of every file that entered it, and names the path's row. */
  ghost predicate IndexTold(c: Setup, steps: seq<Step>, s: State) {
    && (forall k :: Index(k) in steps ==>
          PathOf(c, k) in s.index && RowOf(s.table, c.project, PathOf(c, k), s.index[PathOf(c, k)]))
    && (forall path :: path in s.index ==>
          || (exists k :: Index(k) in steps && PathOf(c, k) == path)
          || (path in c.index && s.index[path] == c.index[path]))
    && (forall path :: path in c.index ==> path in s.index)
  }

  /** The runtime index after a run: what it had before, and the row of every file that entered it. */
  lemma {:induction false} IndexAfterRun(c: Setup, steps: seq<Step>)
    requires UniquePaths(c.table) && After(c, steps).Some?
    ensures IndexTold(c, steps, After(c, steps).value)
  {
    if steps != [] {
      var init, s, step := LastStep(c, steps);
      IndexAfterRun(c, init);
      RunsKeepInv(c, init);
      StepKeepsIndexTold(c, init, s, step);
    }
  }

  lemma StepKeepsIndexTold(c: Setup, init: seq<Step>, s: State, step: Step)
    requires Inv(c, s) && Enabled(c, s, step) && IndexTold(c, init, s)
    ensures IndexTold(c, init + [step], Do(c, s, step))
  {
    hide NextTask, NextTable, Running, Acceptable, Inv, RowOf, Enabled;
    var t, steps := Do(c, s, step), init + [step];
    assert forall other :: other in steps <==> other in init || other == step;
    forall k | Index(k) in steps
      ensures PathOf(c, k) in t.index && RowOf(t.table, c.project, PathOf(c, k), t.index[PathOf(c, k)])
    {
      IndexedRowStays(c, init, s, step, k);
    }
    forall path | path in t.index
      ensures (exists k :: Index(k) in steps && PathOf(c, k) == path) ||
              (path in c.index && t.index[path] == c.index[path])
    {
      if step.Index? && PathOf(c, step.file) == path {
        assert Index(step.file) in steps;
      } else if k :| Index(k) in init && PathOf(c, k) == path {
        assert Index(k) in steps;
      }
    }
  }

  lemma IndexedRowStays(c: Setup, init: seq<Step>, s: State, step: Step, k: nat)
    requires Inv(c, s) && Enabled(c, s, step) && IndexTold(c, init, s) && (Index(k) in init || step == Index(k))
    ensures var t := Do(c, s, step);
            PathOf(c, k) in t.index && RowOf(t.table, c.project, PathOf(c, k), t.index[PathOf(c, k)])
  {
    hide NextTask, NextTable, Running, Acceptable, TableInv, IndexInv, FilesInv, Handled;
    if step.Index? {
      assert TaskInv(c, s.table, s.upserts, step.file, s.tasks[step.file]);
      RowsStay(c, s, step, PathOf(c, step.file), s.tasks[step.file].row);
    }
    if !(step.Index? && PathOf(c, step.file) == PathOf(c, k)) {
      RowsStay(c, s, step, PathOf(c, k), s.index[PathOf(c, k)]);
    }
  }

  // ---- Which imports succeed ----

  /** The step goes wrong; a `CREATE` also when its path has got a row in the meantime. */
  ghost predicate Fails(c: Setup, s: State, step: Step) {
    match step
    case Read(_, ok) => !ok
    case Hash(_, ok) => !ok
    case Select(_, ok) => !ok
    case Update(_, ok) => !ok
    case Create(k, ok, _) => !ok || HasRow(s.table, c.project, PathOf(c, k))
    case Panic(_) => true
    case _ => false
  }

  ghost predicate FailsAt(c: Setup, steps: seq<Step>, k: nat, i: int) {
    && 0 <= i < |steps| && IsOf(steps[i], k)
    && After(c, steps[..i]).Some? && Fails(c, After(c, steps[..i]).value, steps[i])
  }

  ghost predicate Failed(c: Setup, steps: seq<Step>, k: nat) {
    exists i :: FailsAt(c, steps, k, i)
  }

  lemma FailedLonger(c: Setup, init: seq<Step>, s: State, step: Step, k: nat)
    requires After(c, init) == Some(s)
    ensures Failed(c, init + [step], k) <==> Failed(c, init, k) || (IsOf(step, k) && Fails(c, s, step))
  {
    hide Fails, After;
    var steps := init + [step];
    assert steps[..|init|] == init;
    forall i
      ensures FailsAt(c, steps, k, i) <==>
              FailsAt(c, init, k, i) || (i == |init| && IsOf(step, k) && Fails(c, s, step))
    {
      if 0 <= i < |init| {
        assert steps[..i] == init[..i] && steps[i] == init[i];
      }
    }
    if IsOf(step, k) && Fails(c, s, step) {
      assert FailsAt(c, steps, k, |init|);
    }
    if i :| FailsAt(c, init, k, i) {
      assert FailsAt(c, steps, k, i);
    }
  }

  ghost predicate SuccessInv(c: Setup, k: nat, task: Task, failed: bool)
    requires k < |c.staged|
  {
    var importable := c.staged[k].Metadata? && JoinWithinRoot(c.root, PathOf(c, k)).Some?;
    match task
    case Queued => !failed
    case Reading => !failed
    case Deciding => !failed && c.staged[k].Metadata?
    case Finished(false) => failed || !importable
    case _ => !failed && importable
  }

  lemma {:induction false} SuccessHistory(c: Setup, steps: seq<Step>, k: nat)
    requires After(c, steps).Some? && k < |c.staged|
    ensures |After(c, steps).value.tasks| == |c.staged|
    ensures SuccessInv(c, k, After(c, steps).value.tasks[k], Failed(c, steps, k))
  {
    if steps != [] {
      var init, s, step := LastStep(c, steps);
      SuccessHistory(c, init, k);
      FailedLonger(c, init, s, step, k);
      if IsOf(step, k) {
        OwnSuccess(c, s, step, k, Failed(c, init, k));
      } else {
        OtherTasksStay(c, s, step, k);
      }
    }
  }

  lemma OwnSuccess(c: Setup, s: State, step: Step, k: nat, failed: bool)
    requires Enabled(c, s, step) && IsOf(step, k) && k < |s.tasks| && SuccessInv(c, k, s.tasks[k], failed)
    ensures SuccessInv(c, k, NextTask(c, s, step, k), failed || Fails(c, s, step))
    ensures Do(c, s, step).tasks[k] == NextTask(c, s, step, k)
  {
    hide Ignores, JoinWithinRoot, NextTable, HasRow, Running;
  }

  /** An import ends well iff its file holds metadata for a path inside the root and none of its steps went wrong. */
  lemma SucceedsIff(c: Setup, steps: seq<Step>, k: nat)
    requires After(c, steps).Some? && k < |c.staged| && k < |After(c, steps).value.tasks|
    requires After(c, steps).value.tasks[k].Finished?
    ensures After(c, steps).value.tasks[k] == Finished(true) <==>
            && c.staged[k].Metadata? && JoinWithinRoot(c.root, PathOf(c, k)).Some?
            && !Failed(c, steps, k)
  {
    SuccessHistory(c, steps, k);
  }

  /** The look for a row of the path, at step `i`, found one. */
  ghost predicate FoundAt(c: Setup, steps: seq<Step>, k: nat, i: int) {
    && 0 <= i < |steps| && steps[i] == Select(k, true)
    && After(c, steps[..i]).Some? && HasRow(After(c, steps[..i]).value.table, c.project, PathOf(c, k))
  }

  ghost predicate Found(c: Setup, steps: seq<Step>, k: nat) {
    exists i :: FoundAt(c, steps, k, i)
  }

  lemma FoundLonger(c: Setup, init: seq<Step>, s: State, step: Step, k: nat)
    requires After(c, init) == Some(s)
    ensures Found(c, init + [step], k) <==>
            Found(c, init, k) || (step == Select(k, true) && HasRow(s.table, c.project, PathOf(c, k)))
  {
    hide HasRow, After;
    var steps := init + [step];
    assert steps[..|init|] == init;
    forall i
      ensures FoundAt(c, steps, k, i) <==>
              || FoundAt(c, init, k, i)
              || (i == |init| && step == Select(k, true) && HasRow(s.table, c.project, PathOf(c, k)))
    {
      if 0 <= i < |init| {
        assert steps[..i] == init[..i] && steps[i] == init[i];
      }
    }
    if step == Select(k, true) && HasRow(s.table, c.project, PathOf(c, k)) {
      assert FoundAt(c, steps, k, |init|);
    }
    if i :| FoundAt(c, init, k, i) {
      assert FoundAt(c, steps, k, i);
    }
  }

  predicate Updates(step: Step, k: nat) {
    step.Update? && step.file == k
  }

  predicate Creates(step: Step, k: nat) {
    step.Create? && step.file == k
  }

  ghost predicate WriteTold(steps: seq<Step>, k: nat, task: Task, found: bool) {
    && (task.Updating? ==> found) && (task.Creating? ==> !found)
    && (task.Queued? || task.Reading? || task.Deciding? || task.Hashing? || task.Selecting? ==>
          !found && forall step :: step in steps ==> !Updates(step, k) && !Creates(step, k))
    && (forall step :: step in steps && Updates(step, k) ==> found)
    && (forall step :: step in steps && Creates(step, k) ==> !found)
  }

  /** A path that has a row when the task looks is updated, and created only if it has none. */
  lemma {:induction false} UpdatesIffFound(c: Setup, steps: seq<Step>, k: nat)
    requires After(c, steps).Some? && k < |c.staged|
    ensures |After(c, steps).value.tasks| == |c.staged|
    ensures WriteTold(steps, k, After(c, steps).value.tasks[k], Found(c, steps, k))
  {
    if steps != [] {
      var init, s, step := LastStep(c, steps);
      UpdatesIffFound(c, init, k);
      FoundLonger(c, init, s, step, k);
      if IsOf(step, k) {
        OwnWriteTold(c, init, s, step, k, Found(c, init, k));
      } else {
        OtherTasksStay(c, s, step, k);
        hide Found, After, Do;
        assert forall other :: other in init + [step] <==> other in init || other == step;
      }
    }
  }

  lemma OwnWriteTold(c: Setup, init: seq<Step>, s: State, step: Step, k: nat, found: bool)
    requires Enabled(c, s, step) && IsOf(step, k) && k < |s.tasks| && WriteTold(init, k, s.tasks[k], found)
    ensures WriteTold(init + [step], k, NextTask(c, s, step, k),
                      found || (step == Select(k, true) && HasRow(s.table, c.project, PathOf(c, k))))
    ensures Do(c, s, step).tasks[k] == NextTask(c, s, step, k)
  {
    hide Ignores, JoinWithinRoot, NextTable, HasRow, Running;
    assert forall other :: other in init + [step] <==> other in init || other == step;
  }

  ghost predicate RemovedTold(steps: seq<Step>, s: State, k: nat, task: Task) {
    && (k in s.removed <==> Remove(k, true) in steps)
    && (task == Finished(true) ==> Remove(k, true) in steps || Remove(k, false) in steps)
  }

  /** The staged file is gone iff the step that removes it worked, and a success has taken that step. */
  lemma {:induction false} RemovedIff(c: Setup, steps: seq<Step>, k: nat)
    requires After(c, steps).Some? && k < |c.staged|
    ensures |After(c, steps).value.tasks| == |c.staged|
    ensures RemovedTold(steps, After(c, steps).value, k, After(c, steps).value.tasks[k])
  {
    if steps != [] {
      var init, s, step := LastStep(c, steps);
      RemovedIff(c, init, k);
      StepKeepsRemovedTold(c, init, s, step, k);
    }
  }

  lemma StepKeepsRemovedTold(c: Setup, init: seq<Step>, s: State, step: Step, k: nat)
    requires Enabled(c, s, step) && k < |s.tasks| && RemovedTold(init, s, k, s.tasks[k])
    ensures RemovedTold(init + [step], Do(c, s, step), k, Do(c, s, step).tasks[k])
  {
    hide Ignores, JoinWithinRoot, NextTable, HasRow, Running, After;
    assert forall other :: other in init + [step] <==> other in init || other == step;
    if !IsOf(step, k) {
      OtherTasksStay(c, s, step, k);
    }
  }

  // ---- The directory ----

  ghost predicate DirectoryInv(c: Setup, s: State) {
    && |s.tasks| == |c.staged|
    && (s.over ==> forall k :: 0 <= k < |s.tasks| ==> s.tasks[k].Finished?)
    && (s.clearing <==> s.over && s.tasks != [] && forall k :: 0 <= k < |s.tasks| ==> s.tasks[k] == Finished(true))
  }

  lemma StepKeepsDirectoryInv(c: Setup, s: State, step: Step)
    requires DirectoryInv(c, s) && Enabled(c, s, step)
    ensures DirectoryInv(c, Do(c, s, step))
  {
    hide NextTask, NextTable;
    if !step.Close? {
      assert !s.tasks[step.file].Finished?;
    }
  }

  /** The directory goes, with the files the walk passes over, iff the walk found some and all imports succeed. */
  lemma {:induction false} DirectoryGoesIff(c: Setup, steps: seq<Step>)
    requires After(c, steps).Some?
    ensures DirectoryInv(c, After(c, steps).value)
  {
    if steps != [] {
      DirectoryGoesIff(c, steps[..|steps| - 1]);
      StepKeepsDirectoryInv(c, After(c, steps[..|steps| - 1]).value, steps[|steps| - 1]);
    }
  }

  // ---- Progress ----

  function Rank(t: Task): nat {
    match t
    case Queued => 7
    case Reading => 6
    case Deciding => 5
    case Hashing => 4
    case Selecting(_) => 3
    case Updating(_, _) => 2
    case Creating(_) => 2
    case Indexing(_) => 1
    case RemovingIgnored => 0
    case RemovingImported => 0
    case Finished(_) => 0
  }

  /** Steps a task has left, counting the last one. */
  function TaskWork(t: Task): nat {
    if t.Finished? then 0 else Rank(t) + 1
  }

  function Work(tasks: seq<Task>): nat {
    if tasks == [] then 0 else Work(tasks[..|tasks| - 1]) + TaskWork(tasks[|tasks| - 1])
  }

  lemma {:induction false} WorkAfter(tasks: seq<Task>, k: nat, task: Task)
    requires k < |tasks|
    ensures Work(tasks[k := task]) == Work(tasks) - TaskWork(tasks[k]) + TaskWork(task)
  {
    var n := |tasks| - 1;
    if k < n {
      WorkAfter(tasks[..n], k, task);
      assert tasks[k := task][..n] == tasks[..n][k := task];
    } else {
      assert tasks[k := task][..n] == tasks[..n];
    }
  }

  lemma {:induction false} WorkOfQueued(n: nat)
    ensures Work(seq(n, k => Queued)) == 8 * n
  {
    if n > 0 {
      assert seq(n, k => Queued)[..n - 1] == seq(n - 1, k => Queued);
      WorkOfQueued(n - 1);
    }
  }

  function WorkLeft(s: State): nat {
    Work(s.tasks) + (if s.over then 0 else 1)
  }

  lemma NextIsLess(c: Setup, s: State, step: Step, k: nat)
    requires k < |s.tasks| == |c.staged| && TaskEnabled(c, s, step, k)
    ensures TaskWork(NextTask(c, s, step, k)) < TaskWork(s.tasks[k])
  {
    hide Ignores, JoinWithinRoot;
  }

  lemma StepsWork(c: Setup, s: State, step: Step)
    requires Enabled(c, s, step)
    ensures WorkLeft(Do(c, s, step)) < WorkLeft(s)
  {
    if !step.Close? {
      NextIsLess(c, s, step, step.file);
      WorkAfter(s.tasks, step.file, NextTask(c, s, step, step.file));
    }
  }

  /** No interleaving is longer than eight steps per file and the final one. */
  lemma {:induction false} RunsAreShort(c: Setup, steps: seq<Step>)
    requires After(c, steps).Some?
    ensures |steps| + WorkLeft(After(c, steps).value) <= 8 * |c.staged| + 1
  {
    if steps == [] {
      WorkOfQueued(|c.staged|);
    } else {
      RunsAreShort(c, steps[..|steps| - 1]);
      StepsWork(c, After(c, steps[..|steps| - 1]).value, steps[|steps| - 1]);
    }
  }

  /** An import that is not over can always go on, and without any task panicking. */
  lemma NoDeadlock(c: Setup, s: State) returns (step: Step)
    requires |s.tasks| == |c.staged| && !s.over
    ensures Enabled(c, s, step) && !step.Panic?
  {
    if exists k :: 0 <= k < |s.tasks| && IsRunning(s.tasks[k]) {
      var k :| 0 <= k < |s.tasks| && IsRunning(s.tasks[k]);
      var newRow := UnusedRow(s.table.Keys);
      step := match s.tasks[k]
        case Reading => Read(k, !c.staged[k].Unreadable?)
        case Deciding => Decide(k, true)
        case Hashing => Hash(k, true)
        case Selecting(_) => Select(k, true)
        case Updating(_, _) => Update(k, true)
        case Creating(_) => Create(k, true, newRow)
        case Indexing(_) => Index(k)
        case RemovingIgnored => Remove(k, true)
        case RemovingImported => Remove(k, true);
    } else if exists k :: 0 <= k < |s.tasks| && s.tasks[k].Queued? {
      var k := FirstQueued(s.tasks);
      NothingRuns(s.tasks);
      step := Start(k);
    } else {
      step := Close;
    }
  }

  lemma {:induction false} UnusedRow(rows: set<nat>) returns (row: nat)
    ensures forall r :: r in rows ==> r < row
  {
    row := 0;
    if rows != {} {
      var any :| any in rows;
      row := UnusedRow(rows - {any});
      row := if any < row then row else any + 1;
      assert forall r :: r in rows ==> r == any || r in rows - {any};
    }
  }

  lemma {:induction false} FirstQueued(tasks: seq<Task>) returns (k: nat)
    requires exists m :: 0 <= m < |tasks| && tasks[m].Queued?
    ensures k < |tasks| && tasks[k].Queued? && forall m :: 0 <= m < k ==> !tasks[m].Queued?
  {
    k := 0;
    while !tasks[k].Queued?
      invariant 0 <= k < |tasks| && forall m :: 0 <= m < k ==> !tasks[m].Queued?
      decreases |tasks| - k
    {
      k := k + 1;
    }
  }

  lemma {:induction false} NothingRuns(tasks: seq<Task>)
    requires forall k :: 0 <= k < |tasks| ==> !IsRunning(tasks[k])
    ensures Running(tasks) == 0
  {
    if tasks != [] {
      NothingRuns(tasks[..|tasks| - 1]);
    }
  }
}
