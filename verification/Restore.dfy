/** Restoring the database directory from a backup, with a crash possible between any two file operations. */
module Restore {
  import opened Options

  // ---- Directory trees ----

  datatype Node = File(content: string) | Dir(entries: map<string, Node>)

  /** What an interrupted copy has written, or an interrupted removal has left, of `whole`. */
  ghost predicate PartOf(part: Node, whole: Node) {
    match (part, whole)
    case (File(written), File(content)) => written <= content
    case (Dir(some), Dir(all)) => some.Keys <= all.Keys && forall name :: name in some ==> PartOf(some[name], all[name])
    case (_, _) => false
  }

  lemma {:induction false} PartOfItself(node: Node)
    ensures PartOf(node, node)
  {
    if node.Dir? {
      forall name | name in node.entries ensures PartOf(node.entries[name], node.entries[name]) {
        PartOfItself(node.entries[name]);
      }
    }
  }

  const EMPTY := Dir(map[])

  /** The live database, its two siblings used by `restore`, and every other path. */
  datatype Place = Live | Temp | Old | Elsewhere(path: string)

  type Disk = map<Place, Node>

  // ---- The protocol ----

  datatype Pc =
    | Checking | DroppingTemp | DroppingOld | CreatingTemp | Copying | Probing | Syncing
    | SwappingOut | SwappingIn | DroppingSaved | Flushing | CleaningUp | RollingBack
    | Finished | Failed

  datatype State = State(disk: Disk, pc: Pc)

  predicate IsDir(disk: Disk, place: Place) {
    place in disk && disk[place].Dir?
  }

  function Renamed(disk: Disk, from: Place, to: Place): Disk
    requires from in disk
  {
    (disk - {from})[to := disk[from]]
  }

  /** `remove_dir_all(place)`: underway or refused (`place` holds a part of what it held), or done. */
  ghost predicate Removing(disk: Disk, after: Disk, place: Place) {
    || after == disk - {place}
    || (place in disk && place in after && PartOf(after[place], disk[place]) && after == disk[place := after[place]])
  }

  /** One file operation of `restore` from the backup at `backup`. */
  ghost predicate Next(backup: Place, s: State, t: State) {
    match s.pc
    case Checking =>
      t.disk == s.disk &&
      if !IsDir(s.disk, backup) then t.pc == Failed
      else t.pc == DroppingTemp || (t.pc == Failed && Live in s.disk)
    case DroppingTemp =>
      && Removing(s.disk, t.disk, Temp)
      && if Temp in t.disk then t.pc in {DroppingTemp, Failed} else t.pc == DroppingOld
    case DroppingOld =>
      && Removing(s.disk, t.disk, Old)
      && if Old in t.disk then t.pc in {DroppingOld, Failed} else t.pc == CreatingTemp
    case CreatingTemp =>
      || (t.disk == s.disk && t.pc == CleaningUp)
      || (t.disk == s.disk[Temp := EMPTY] && t.pc == Copying)
    case Copying =>
      if IsDir(s.disk, backup) then
        || (t.disk == s.disk[Temp := s.disk[backup]] && t.pc == Probing)
        || (Temp in t.disk && PartOf(t.disk[Temp], s.disk[backup]) && t.disk == s.disk[Temp := t.disk[Temp]]
            && t.pc in {Copying, CleaningUp})
      else t == State(s.disk, CleaningUp)
    case Probing => t.disk == s.disk && (t.pc == Syncing || (t.pc == Failed && Live in s.disk))
    case Syncing => t.disk == s.disk && t.pc in {SwappingOut, Failed}
    case SwappingOut =>
      if Live in s.disk then t == State(Renamed(s.disk, Live, Old), SwappingIn) || t == State(s.disk, CleaningUp)
      else t == State(s.disk, SwappingIn)
    case SwappingIn =>
      Temp in s.disk && (t == State(Renamed(s.disk, Temp, Live), DroppingSaved) || t == State(s.disk, RollingBack))
    case RollingBack =>
      || t == State(s.disk, Failed)
      || (Old in s.disk && t == State(Renamed(s.disk, Old, Live), Failed))
    case DroppingSaved => Removing(s.disk, t.disk, Old) && t.pc in {DroppingSaved, Flushing}
    case Flushing => t.disk == s.disk && t.pc in {Finished, Failed}
    case CleaningUp => Removing(s.disk, t.disk, Temp) && t.pc in {CleaningUp, Failed}
    case Finished => false
    case Failed => false
  }

  /** A run of `restore` up to any point, in particular up to a crash. */
  ghost predicate IsRun(backup: Place, start: Disk, trace: seq<State>) {
    if |trace| <= 1 then trace == [State(start, Checking)]
    else
      var sofar := trace[..|trace| - 1];
      IsRun(backup, start, sofar) && Next(backup, sofar[|sofar| - 1], trace[|trace| - 1])
  }

  function Last(trace: seq<State>): State
    requires trace != []
  {
    trace[|trace| - 1]
  }

  // ---- One run ----

  /** What holds after every step; `start` is the disk at the beginning of the run. */
  ghost predicate RunInv(backup: Place, start: Disk, s: State) {
    var d := s.disk;
    var source := IsDir(start, backup);
    && (forall path :: Elsewhere(path) in start <==> Elsewhere(path) in d)
    && (forall path :: Elsewhere(path) in start ==> d[Elsewhere(path)] == start[Elsewhere(path)])
    && (s.pc != Checking && s.pc != Failed ==> source)
    && match s.pc
       case Checking => d == start
       case DroppingTemp => SameLive(start, d)
         && (backup == Old ==> Old in d && d[Old] == start[Old])
       case DroppingOld => SameLive(start, d) && Temp !in d
       case CreatingTemp => SameLive(start, d) && Temp !in d && Old !in d
       case Copying => SameLive(start, d) && Old !in d && Temp in d && (backup == Temp ==> d[Temp] == EMPTY)
       case Probing => SameLive(start, d) && Old !in d && CopyReady(backup, start, d)
       case Syncing => SameLive(start, d) && Old !in d && CopyReady(backup, start, d)
       case SwappingOut => SameLive(start, d) && Old !in d && CopyReady(backup, start, d)
       case SwappingIn => SavedLive(start, d) && CopyReady(backup, start, d)
       case RollingBack => SavedLive(start, d)
       case DroppingSaved => Replaced(backup, start, d)
       case Flushing => Replaced(backup, start, d)
       case Finished => Replaced(backup, start, d)
       case CleaningUp => SameLive(start, d)
       case Failed => SameLive(start, d) || SavedLive(start, d) || (source && Replaced(backup, start, d))
  }

  ghost predicate SameLive(start: Disk, d: Disk) {
    (Live in start <==> Live in d) && (Live in start ==> d[Live] == start[Live])
  }

  /** The live tree has been renamed to `.old`. */
  ghost predicate SavedLive(start: Disk, d: Disk) {
    Live !in d && (if Live in start then Old in d && d[Old] == start[Live] else Old !in d)
  }

  /** The tree `restore` installs: what the backup holds, unless the backup is the temp directory it empties first. */
  ghost function Installed(backup: Place, start: Disk): Node
    requires backup in start
  {
    if backup == Temp then EMPTY else start[backup]
  }

  ghost predicate CopyReady(backup: Place, start: Disk, d: Disk) {
    backup in start && backup != Old && Temp in d && d[Temp] == Installed(backup, start)
  }

  ghost predicate Replaced(backup: Place, start: Disk, d: Disk) {
    backup in start && backup != Old && Live in d && d[Live] == Installed(backup, start)
  }

  lemma StepKeepsRunInv(backup: Place, start: Disk, s: State, t: State)
    requires RunInv(backup, start, s) && Next(backup, s, t)
    ensures RunInv(backup, start, t)
  {
    if s.pc == Copying && IsDir(s.disk, backup) && backup == Temp {
      EmptyHasNoParts(t.disk);
    }
  }

  lemma EmptyHasNoParts(d: Disk)
    ensures Temp in d && PartOf(d[Temp], EMPTY) ==> d[Temp] == EMPTY
  {
    if Temp in d && PartOf(d[Temp], EMPTY) {
      assert d[Temp].entries == map[];
    }
  }

  lemma {:induction false} RunKeepsInv(backup: Place, start: Disk, trace: seq<State>)
    requires IsRun(backup, start, trace)
    ensures RunInv(backup, start, Last(trace))
  {
    if |trace| > 1 {
      var init := trace[..|trace| - 1];
      RunKeepsInv(backup, start, init);
      StepKeepsRunInv(backup, start, Last(init), Last(trace));
    }
  }

  /** The tree is on disk, whole, under its own name or as `.old`, or the complete backup has taken its place. */
  ghost predicate Preserved(backup: Place, start: Disk, d: Disk)
    requires Live in start
  {
    || (Live in d && d[Live] == start[Live])
    || (Old in d && d[Old] == start[Live])
    || (backup in start && Live in d && d[Live] == start[backup])
  }

  /** At no point does a run that starts with a live database lose it, unless it restores from its temp directory. */
  lemma DataIsPreserved(backup: Place, start: Disk, trace: seq<State>)
    requires IsRun(backup, start, trace) && Live in start
    ensures var d := Last(trace).disk;
            || Preserved(backup, start, d)
            || (backup == Temp && IsDir(start, Temp) && start[Temp] != EMPTY && Live in d && d[Live] == EMPTY)
  {
    RunKeepsInv(backup, start, trace);
  }

  /** The database path never holds a partial copy: it is as before, empty, or a complete copy of the backup. */
  lemma LiveIsComplete(backup: Place, start: Disk, trace: seq<State>)
    requires IsRun(backup, start, trace)
    ensures var d := Last(trace).disk;
            Live in d ==>
              || (Live in start && d[Live] == start[Live])
              || (IsDir(start, backup) && d[Live] == Installed(backup, start))
    ensures Last(trace).pc == Finished ==>
      && IsDir(start, backup) && backup != Old
      && Live in Last(trace).disk && Last(trace).disk[Live] == Installed(backup, start)
    ensures forall path :: Elsewhere(path) in start ==>
      Elsewhere(path) in Last(trace).disk && Last(trace).disk[Elsewhere(path)] == start[Elsewhere(path)]
  {
    RunKeepsInv(backup, start, trace);
  }

  // ---- Exactly when a run preserves the data ----

  lemma Extend(backup: Place, start: Disk, trace: seq<State>, t: State)
    requires IsRun(backup, start, trace) && Next(backup, Last(trace), t)
    ensures IsRun(backup, start, trace + [t]) && Last(trace + [t]) == t
  {
    assert (trace + [t])[..|trace|] == trace;
  }

  /** The undisturbed run up to the moment the copy starts. */
  lemma RunToCopying(backup: Place, start: Disk) returns (trace: seq<State>)
    requires IsDir(start, backup)
    ensures IsRun(backup, start, trace)
    ensures Last(trace) == State((start - {Temp, Old})[Temp := EMPTY], Copying)
  {
    var noTemp := start - {Temp};
    var neither := noTemp - {Old};
    assert neither == start - {Temp, Old};
    trace := [State(start, Checking)];
    Extend(backup, start, trace, State(start, DroppingTemp));
    trace := trace + [State(start, DroppingTemp)];
    Extend(backup, start, trace, State(noTemp, DroppingOld));
    trace := trace + [State(noTemp, DroppingOld)];
    Extend(backup, start, trace, State(neither, CreatingTemp));
    trace := trace + [State(neither, CreatingTemp)];
    Extend(backup, start, trace, State(neither[Temp := EMPTY], Copying));
    trace := trace + [State(neither[Temp := EMPTY], Copying)];
  }

  /** The undisturbed run up to the moment before the live tree is moved aside. */
  lemma RunToReady(backup: Place, start: Disk) returns (trace: seq<State>, ready: Disk)
    requires IsDir(start, backup) && backup != Old
    ensures IsRun(backup, start, trace) && Last(trace) == State(ready, SwappingOut)
    ensures ready == (start - {Temp, Old})[Temp := Installed(backup, start)]
  {
    trace := RunToCopying(backup, start);
    ready := Last(trace).disk[Temp := Installed(backup, start)];
    assert ready == (start - {Temp, Old})[Temp := Installed(backup, start)];
    Extend(backup, start, trace, State(ready, Probing));
    trace := trace + [State(ready, Probing)];
    Extend(backup, start, trace, State(ready, Syncing));
    trace := trace + [State(ready, Syncing)];
    Extend(backup, start, trace, State(ready, SwappingOut));
    trace := trace + [State(ready, SwappingOut)];
  }

  /** The same run after the first rename. */
  lemma RunToSwapped(backup: Place, start: Disk) returns (trace: seq<State>, swapped: Disk)
    requires IsDir(start, backup) && backup != Old
    ensures IsRun(backup, start, trace) && Last(trace) == State(swapped, SwappingIn)
    ensures Live !in swapped && Temp in swapped && swapped[Temp] == Installed(backup, start)
    ensures Live in start ==> Old in swapped && swapped[Old] == start[Live]
  {
    var ready;
    trace, ready := RunToReady(backup, start);
    swapped := if Live in ready then Renamed(ready, Live, Old) else ready;
    Extend(backup, start, trace, State(swapped, SwappingIn));
    trace := trace + [State(swapped, SwappingIn)];
  }

  /** The same run after the second rename. */
  lemma RunToReplaced(backup: Place, start: Disk) returns (trace: seq<State>, replaced: Disk)
    requires IsDir(start, backup) && backup != Old
    ensures IsRun(backup, start, trace) && Last(trace) == State(replaced, DroppingSaved)
    ensures Live in replaced && replaced[Live] == Installed(backup, start) && Temp !in replaced
  {
    var swapped;
    trace, swapped := RunToSwapped(backup, start);
    replaced := Renamed(swapped, Temp, Live);
    Extend(backup, start, trace, State(replaced, DroppingSaved));
    trace := trace + [State(replaced, DroppingSaved)];
  }

  /** The undisturbed run to its end. */
  lemma CompleteRun(backup: Place, start: Disk) returns (trace: seq<State>)
    requires IsDir(start, backup) && backup != Old
    ensures IsRun(backup, start, trace) && Last(trace).pc == Finished
    ensures Live in Last(trace).disk && Last(trace).disk[Live] == Installed(backup, start)
    ensures Old !in Last(trace).disk && Temp !in Last(trace).disk
  {
    var replaced;
    trace, replaced := RunToReplaced(backup, start);
    var tidy := replaced - {Old};
    Extend(backup, start, trace, State(tidy, Flushing));
    trace := trace + [State(tidy, Flushing)];
    Extend(backup, start, trace, State(tidy, Finished));
    trace := trace + [State(tidy, Finished)];
  }

  /**
   * Restoring from the temp directory itself empties it before copying it: that
   * run installs an empty database. It is the only way a run that starts with a
   * live database can lose both the data and the backup's.
   */
  lemma PreservedIff(backup: Place, start: Disk)
    requires Live in start
    ensures (forall trace :: IsRun(backup, start, trace) ==> Preserved(backup, start, Last(trace).disk)) <==>
            !(backup == Temp && IsDir(start, Temp) && start[Temp] != EMPTY && start[Live] != EMPTY)
  {
    if backup == Temp && IsDir(start, Temp) && start[Temp] != EMPTY && start[Live] != EMPTY {
      var trace := CompleteRun(backup, start);
      assert !Preserved(backup, start, Last(trace).disk);
    } else {
      forall trace | IsRun(backup, start, trace) ensures Preserved(backup, start, Last(trace).disk) {
        RunKeepsInv(backup, start, trace);
      }
    }
  }

  /** The database path is absent, as it was, or holds all the backup held. */
  ghost predicate CompleteLive(backup: Place, start: Disk, d: Disk) {
    Live in d ==> (Live in start && d[Live] == start[Live]) || (backup in start && d[Live] == start[backup])
  }

  /** A run leaves anything but a complete tree at the database path in the same case only. */
  lemma CompleteIff(backup: Place, start: Disk)
    ensures (forall trace :: IsRun(backup, start, trace) ==> CompleteLive(backup, start, Last(trace).disk)) <==>
            !(backup == Temp && IsDir(start, Temp) && start[Temp] != EMPTY && (Live in start ==> start[Live] != EMPTY))
  {
    if backup == Temp && IsDir(start, Temp) && start[Temp] != EMPTY && (Live in start ==> start[Live] != EMPTY) {
      var trace := CompleteRun(backup, start);
      assert !CompleteLive(backup, start, Last(trace).disk);
    } else {
      forall trace | IsRun(backup, start, trace) ensures CompleteLive(backup, start, Last(trace).disk) {
        LiveIsComplete(backup, start, trace);
      }
    }
  }

  /** One of the wanted trees is on disk, whole, under the database's name or as `.old`. */
  ghost predicate Holds(wanted: set<Node>, d: Disk) {
    (Live in d && d[Live] in wanted) || (Old in d && d[Old] in wanted)
  }

  /** For any disk and any trees worth keeping: exactly when no run, wherever it stops, loses the last of them. */
  lemma RunHoldsIff(wanted: set<Node>, backup: Place, start: Disk)
    ensures (forall trace :: IsRun(backup, start, trace) ==> Holds(wanted, Last(trace).disk)) <==>
            if IsDir(start, backup) then
              Live in start && start[Live] in wanted && (backup != Old ==> Installed(backup, start) in wanted)
            else Holds(wanted, start)
  {
    var first := [State(start, Checking)];
    assert IsRun(backup, start, first);
    if !IsDir(start, backup) {
      forall trace | IsRun(backup, start, trace) ensures Last(trace).disk == start {
        RunWithoutBackup(backup, start, trace);
      }
      assert Last(first).disk == start;
    } else if Live in start && start[Live] in wanted && (backup != Old ==> Installed(backup, start) in wanted) {
      forall trace | IsRun(backup, start, trace) ensures Holds(wanted, Last(trace).disk) {
        RunKeepsInv(backup, start, trace);
      }
    } else {
      var trace := RunToCopying(backup, start);
      if Live in start && start[Live] in wanted {
        trace := CompleteRun(backup, start);
      }
      assert !Holds(wanted, Last(trace).disk);
    }
  }

  lemma {:induction false} RunWithoutBackup(backup: Place, start: Disk, trace: seq<State>)
    requires IsRun(backup, start, trace) && !IsDir(start, backup)
    ensures Last(trace).disk == start
  {
    if |trace| > 1 {
      var init := trace[..|trace| - 1];
      RunKeepsInv(backup, start, init);
      RunWithoutBackup(backup, start, init);
    }
  }

  // ---- Sequences of runs ----

  /** A run with the backup it was given; every run starts from the disk the one before left. */
  datatype Attempt = Attempt(backup: Place, trace: seq<State>)

  ghost predicate AreAttempts(start: Disk, attempts: seq<Attempt>) {
    forall k :: 0 <= k < |attempts| ==> IsRun(attempts[k].backup, DiskAfter(start, attempts[..k]), attempts[k].trace)
  }

  ghost function DiskAfter(start: Disk, attempts: seq<Attempt>): Disk {
    if attempts == [] then start
    else
      var trace := attempts[|attempts| - 1].trace;
      if trace == [] then start else Last(trace).disk
  }

  ghost function Backups(attempts: seq<Attempt>): set<Place> {
    if attempts == [] then {} else Backups(attempts[..|attempts| - 1]) + {attempts[|attempts| - 1].backup}
  }

  /** Some path outside the two working directories held exactly this tree at the beginning. */
  ghost predicate CompleteTree(start: Disk, node: Node) {
    exists place :: place in start && place !in {Temp, Old} && start[place] == node
  }

  /**
   * Over any sequence of runs and crashes the database path is absent or holds a
   * complete tree, or is empty because one of the runs restored from the temp directory.
   */
  lemma {:induction false} NeverPartial(start: Disk, attempts: seq<Attempt>)
    requires AreAttempts(start, attempts)
    ensures var d := DiskAfter(start, attempts);
            && (Live in d ==> CompleteTree(start, d[Live]) || (d[Live] == EMPTY && Temp in Backups(attempts)))
            && (forall path :: Elsewhere(path) in start <==> Elsewhere(path) in d)
            && (forall path :: Elsewhere(path) in start ==> d[Elsewhere(path)] == start[Elsewhere(path)])
  {
    if attempts != [] {
      var init, last := attempts[..|attempts| - 1], attempts[|attempts| - 1];
      AllButLast(start, attempts);
      NeverPartial(start, init);
      RunKeepsInv(last.backup, DiskAfter(start, init), last.trace);
      LiveIsComplete(last.backup, DiskAfter(start, init), last.trace);
    }
  }

  lemma AllButLast(start: Disk, attempts: seq<Attempt>)
    requires AreAttempts(start, attempts) && attempts != []
    ensures var init, last := attempts[..|attempts| - 1], attempts[|attempts| - 1];
            AreAttempts(start, init) && IsRun(last.backup, DiskAfter(start, init), last.trace)
  {
    var init := attempts[..|attempts| - 1];
    forall k | 0 <= k < |init|
      ensures IsRun(init[k].backup, DiskAfter(start, init[..k]), init[k].trace)
    {
      assert init[..k] == attempts[..k] && init[k] == attempts[k];
    }
  }

  /** The trees worth keeping: the database at the beginning and all that was restored. */
  ghost function Wanted(start: Disk, backups: set<Place>): set<Node> {
    set place | place in backups + {Live} && place in start :: start[place]
  }

  /**
   * Preservation does not extend over runs. After any runs and crashes, the next
   * run is sure to keep a wanted tree iff the database path is present, or its
   * backup is refused and nothing was lost before. If the temp directory was ever
   * given as the backup, the database must also still be wanted, and for the next
   * run the empty tree too.
   */
  lemma RerunPreservesIff(start: Disk, attempts: seq<Attempt>, backup: Place)
    requires AreAttempts(start, attempts) && Live in start
    ensures var d, wanted := DiskAfter(start, attempts), Wanted(start, Backups(attempts) + {backup});
            (forall next :: IsRun(backup, d, next) ==> Holds(wanted, Last(next).disk)) <==>
            || (Live in d
                && (Temp in Backups(attempts) ==> d[Live] in wanted)
                && (backup == Temp && IsDir(d, Temp) ==> EMPTY in wanted))
            || (!IsDir(d, backup) && Holds(wanted, d))
  {
    var d, wanted := DiskAfter(start, attempts), Wanted(start, Backups(attempts) + {backup});
    if Temp !in Backups(attempts) {
      LiveIsWanted(start, attempts);
    }
    RunHoldsIff(wanted, backup, d);
    NeverPartial(start, attempts);
  }

  lemma {:induction false} LiveIsWanted(start: Disk, attempts: seq<Attempt>)
    requires AreAttempts(start, attempts) && Temp !in Backups(attempts)
    ensures var d := DiskAfter(start, attempts); Live in d ==> d[Live] in Wanted(start, Backups(attempts))
  {
    if attempts != [] {
      var init, last := attempts[..|attempts| - 1], attempts[|attempts| - 1];
      AllButLast(start, attempts);
      LiveIsWanted(start, init);
      NeverPartial(start, init);
      LiveIsComplete(last.backup, DiskAfter(start, init), last.trace);
      RunKeepsInv(last.backup, DiskAfter(start, init), last.trace);
    }
  }

  /**
   * Such a run: after a crash between the two renames, the cleanup of the next
   * run removes the only copy of the original.
   */
  lemma RerunCanLoseOriginal(start: Disk, backup: Place) returns (first: seq<State>, second: seq<State>)
    requires Live in start && IsDir(start, backup) && backup.Elsewhere?
    ensures IsRun(backup, start, first) && IsRun(backup, Last(first).disk, second)
    ensures AreAttempts(start, [Attempt(backup, first), Attempt(backup, second)])
    ensures var d := Last(second).disk;
            Live !in d && Old !in d && (Temp in d ==> d[Temp] == EMPTY)
  {
    var crashed;
    first, crashed := RunToSwapped(backup, start);
    RunKeepsInv(backup, start, first);
    second := RunToCopying(backup, crashed);
    var attempts := [Attempt(backup, first), Attempt(backup, second)];
    assert attempts[..0] == [] && attempts[..1] == [attempts[0]];
  }

  // ---- The code ----

  /** How a file operation ends: done, refused by the operating system, or cut short by a crash. */
  datatype Io = Done | Refused | Crashed

  /** How the file operations of a run end, in the order of the code. */
  datatype Answers = Answers(dropTemp: Io, dropOld: Io, create: Io, copy: Io, cleanUp: Io, sync: Io, swapOut: Io,
                             swapIn: Io, rollBack: Io, dropSaved: Io, flush: Io)

  /** A failure may hit any of several operations. */
  method Here(answer: Io) returns (io: Io)
    ensures io == answer || io == Done
  {
    if * {
      io := answer;
    } else {
      io := Done;
    }
  }

  method CopyFile(content: string, answer: Io) returns (written: string)
    ensures written <= content && (answer.Done? ==> written == content)
  {
    var n :| 0 <= n <= |content|;
    written := if answer.Done? then content else content[..n];
  }

  /**
   * `copy_dir_recursive(src, dst)` into a fresh `dst`; the entries come in any order,
   * and a failure comes anywhere, inside a file too.
   */
  method CopyDirRecursive(src: Node, answer: Io) returns (dst: Node, io: Io)
    requires src.Dir?
    ensures PartOf(dst, src) && dst.Dir?
    ensures io == answer && (io.Done? ==> dst == src)
    decreases src
  {
    var entries := src.entries;
    var copied: map<string, Node> := map[];
    var remaining := entries.Keys;
    io := Here(answer);
    while io.Done? && remaining != {}
      invariant remaining <= entries.Keys && copied.Keys == entries.Keys - remaining
      invariant forall name :: name in copied ==> PartOf(copied[name], entries[name])
      invariant io.Done? ==> forall name :: name in copied ==> copied[name] == entries[name]
      invariant io == answer || io.Done?
      decreases io.Done?, |remaining|
    {
      var name :| name in remaining;
      remaining := remaining - {name};
      io := Here(answer);
      match entries[name] {
        case Dir(_) =>
          var subtree;
          subtree, io := CopyDirRecursive(entries[name], io);
          copied := copied[name := subtree];
        case File(content) =>
          var written := CopyFile(content, io);
          copied := copied[name := File(written)];
      }
    }
    dst := Dir(copied);
    assert io.Done? ==> copied == entries;
    if io.Done? {
      PartOfItself(src);
    }
    io := answer;
  }

  /** `remove_dir_all` on a directory, in any order: `left` is what is still there unless it is done. */
  method RemoveTree(whole: Node, answer: Io) returns (left: Node, io: Io)
    requires whole.Dir?
    ensures PartOf(left, whole) && left.Dir? && io == answer
    decreases whole
  {
    var entries := whole.entries;
    var kept := entries;
    PartOfItself(whole);
    io := Here(answer);
    while io.Done? && kept != map[]
      invariant kept.Keys <= entries.Keys
      invariant forall name :: name in kept ==> PartOf(kept[name], entries[name])
      invariant io.Done? ==> forall name :: name in kept ==> kept[name] == entries[name]
      invariant io == answer || io.Done?
      decreases io.Done?, |kept.Keys|
    {
      var name :| name in kept.Keys;
      io := Here(answer);
      if kept[name].Dir? {
        var subtree;
        subtree, io := RemoveTree(entries[name], io);
        kept := if io.Done? then kept - {name} else kept[name := subtree];
      } else if io.Done? {
        kept := kept - {name};
      }
    }
    left := Dir(kept);
    io := answer;
  }

  /** Nothing is in the way at `place`, or what is there is a directory and its removal works. */
  predicate Cleared(disk: Disk, place: Place, answer: Io) {
    !answer.Crashed? && (place in disk ==> disk[place].Dir? && answer.Done?)
  }

  /** What it takes for a run to install the backup. */
  predicate Succeeds(start: Disk, backup: Place, lockedBefore: bool, lockedAfter: bool, a: Answers) {
    && IsDir(start, backup) && backup != Old
    && !(Live in start && (lockedBefore || lockedAfter))
    && Cleared(start, Temp, a.dropTemp) && Cleared(start, Old, a.dropOld)
    && a.create.Done? && a.copy.Done? && a.sync.Done?
    && !a.swapOut.Crashed? && (Live in start ==> a.swapOut.Done?)
    && a.swapIn.Done? && !a.dropSaved.Crashed? && a.flush.Done?
  }

  /** A run of `restore`; its ghost trace follows the protocol step by step. */
  class Restoration {
    var disk: Disk
    const backup: Place
    ghost const start: Disk
    ghost var trace: seq<State>

    constructor (disk: Disk, backup: Place)
      ensures this.disk == disk && this.start == disk && this.backup == backup
      ensures At(Checking)
    {
      this.disk, this.start, this.backup := disk, disk, backup;
      trace := [State(disk, Checking)];
    }

    ghost predicate Valid()
      reads this
    {
      IsRun(backup, start, trace) && trace != [] && Last(trace).disk == disk
    }

    ghost predicate At(pc: Pc)
      reads this
    {
      Valid() && Last(trace).pc == pc
    }

    /** The trace has come to where an outcome says. */
    ghost predicate Reached(io: Io, done: Pc)
      reads this
    {
      && Valid()
      && (io.Done? ==> At(done))
      && (io.Refused? ==> At(Failed))
      && (io.Crashed? ==> Last(trace).pc !in {Finished, Failed})
    }

    ghost method Reach(pc: Pc)
      requires IsRun(backup, start, trace) && trace != [] && Next(backup, Last(trace), State(disk, pc))
      modifies this`trace
      ensures At(pc)
    {
      Extend(backup, start, trace, State(disk, pc));
      trace := trace + [State(disk, pc)];
    }

    /** `remove_dir_all(place)`. */
    method RemoveDirAll(place: Place, answer: Io) returns (io: Io)
      requires place in disk
      modifies this`disk
      ensures Removing(old(disk), disk, place)
      ensures io.Done? <==> place !in disk
      ensures io == if old(disk)[place].File? && answer.Done? then Refused else answer
    {
      if disk[place].File? {
        PartOfItself(disk[place]);
        return if answer.Done? then Refused else answer;
      }
      var left;
      left, io := RemoveTree(disk[place], answer);
      disk := if io.Done? then disk - {place} else disk[place := left];
    }

    /** The removal of stale artifacts before the copy. */
    method DropStale(a: Answers) returns (io: Io)
      requires At(DroppingTemp)
      modifies this
      ensures Reached(io, CreatingTemp) && SameLive(old(disk), disk)
      ensures io.Done? <==> Cleared(old(disk), Temp, a.dropTemp) && Cleared(old(disk), Old, a.dropOld)
      ensures io.Done? ==> disk == old(disk) - {Temp, Old}
    {
      hide IsRun, PartOf;
      if Temp in disk {
        io := RemoveDirAll(Temp, a.dropTemp);
        if !io.Done? {
          Reach(if io.Refused? then Failed else DroppingTemp);
          return;
        }
      } else {
        assert disk - {Temp} == disk;
        if a.dropTemp.Crashed? {
          return Crashed;
        }
      }
      Reach(DroppingOld);
      io := DropOld(a.dropOld);
      assert old(disk) - {Temp} - {Old} == old(disk) - {Temp, Old};
    }

    method DropOld(answer: Io) returns (io: Io)
      requires At(DroppingOld)
      modifies this
      ensures Reached(io, CreatingTemp) && SameLive(old(disk), disk)
      ensures io.Done? <==> Cleared(old(disk), Old, answer)
      ensures io.Done? ==> disk == old(disk) - {Old}
    {
      if Old in disk {
        io := RemoveDirAll(Old, answer);
        if !io.Done? {
          Reach(if io.Refused? then Failed else DroppingOld);
          return;
        }
      } else {
        assert disk - {Old} == disk;
        if answer.Crashed? {
          return Crashed;
        }
      }
      Reach(CreatingTemp);
      io := Done;
    }

    /** After a failed copy or a refused first rename: the temp directory is removed if that works. */
    method CleanUp(answer: Io) returns (io: Io)
      requires At(CleaningUp)
      modifies this
      ensures Reached(io, Failed) && !io.Done? && SameLive(old(disk), disk)
      ensures io.Crashed? <==> answer.Crashed?
    {
      if Temp in disk {
        io := RemoveDirAll(Temp, answer);
      } else {
        assert disk - {Temp} == disk;
      }
      if answer.Crashed? {
        Reach(CleaningUp);
        return Crashed;
      }
      Reach(Failed);
      io := Refused;
    }

    method CopyBackup(a: Answers) returns (io: Io)
      requires At(CreatingTemp)
      modifies this
      ensures Reached(io, Probing) && SameLive(old(disk), disk)
      ensures io.Done? <==> a.create.Done? && a.copy.Done? && IsDir(old(disk)[Temp := EMPTY], backup)
      ensures io.Done? ==> disk == old(disk)[Temp := old(disk)[Temp := EMPTY][backup]]
    {
      hide IsRun, PartOf, Removing;
      if a.create.Crashed? {
        return Crashed;
      }
      if a.create.Refused? {
        Reach(CleaningUp);
        io := CleanUp(a.cleanUp);
        return;
      }
      disk := disk[Temp := EMPTY];
      Reach(Copying);
      io := CopyInto(a);
    }

    method CopyInto(a: Answers) returns (io: Io)
      requires At(Copying)
      modifies this
      ensures Reached(io, Probing) && SameLive(old(disk), disk)
      ensures io.Done? <==> a.copy.Done? && IsDir(old(disk), backup)
      ensures io.Done? ==> disk == old(disk)[Temp := old(disk)[backup]]
    {
      if !IsDir(disk, backup) {
        Reach(CleaningUp);
        io := CleanUp(a.cleanUp);
        return;
      }
      var copy;
      copy, io := CopyDirRecursive(disk[backup], a.copy);
      disk := disk[Temp := copy];
      if io.Done? {
        Reach(Probing);
      } else if io.Crashed? {
        Reach(Copying);
      } else {
        Reach(CleaningUp);
        io := CleanUp(a.cleanUp);
      }
    }

    /** The two renames, with the roll-back of the first one when the second fails. */
    method Swap(a: Answers) returns (io: Io)
      requires At(SwappingOut) && Temp in disk && Old !in disk
      modifies this
      ensures Reached(io, Finished)
      ensures io.Done? <==>
        && !a.swapOut.Crashed? && (Live in old(disk) ==> a.swapOut.Done?)
        && a.swapIn.Done? && !a.dropSaved.Crashed? && a.flush.Done?
      ensures io.Done? ==> Live in disk && disk[Live] == old(disk)[Temp] && Temp !in disk
      ensures io.Done? && a.dropSaved.Done? && (Live in old(disk) ==> old(disk)[Live].Dir?) ==> Old !in disk
      ensures io.Refused? && Live in old(disk) ==> AfterRefusedSwap(old(disk), disk, a)
    {
      if a.swapOut.Crashed? {
        return Crashed;
      }
      if Live in disk {
        if a.swapOut.Refused? {
          Reach(CleaningUp);
          io := CleanUp(a.cleanUp);
          return;
        }
        disk := Renamed(disk, Live, Old);
      }
      Reach(SwappingIn);
      io := SwapIn(a);
    }

    method SwapIn(a: Answers) returns (io: Io)
      requires At(SwappingIn) && Temp in disk && Live !in disk
      modifies this
      ensures Reached(io, Finished)
      ensures io.Done? <==> a.swapIn.Done? && !a.dropSaved.Crashed? && a.flush.Done?
      ensures io.Done? ==> Live in disk && disk[Live] == old(disk)[Temp] && Temp !in disk
      ensures io.Done? && a.dropSaved.Done? && (Old in old(disk) ==> old(disk)[Old].Dir?) ==> Old !in disk
      ensures io.Refused? && Old in old(disk) ==>
        || (a.swapIn.Refused? && a.rollBack.Done? && Live in disk && disk[Live] == old(disk)[Old])
        || (a.swapIn.Refused? && a.rollBack.Refused? && disk == old(disk))
        || (a.swapIn.Done? && a.flush.Refused? && Live in disk && disk[Live] == old(disk)[Temp])
    {
      if a.swapIn.Crashed? {
        return Crashed;
      }
      if a.swapIn.Refused? {
        Reach(RollingBack);
        io := RollBack(a.rollBack);
        return;
      }
      disk := Renamed(disk, Temp, Live);
      Reach(DroppingSaved);
      io := DropSaved(a);
    }

    /** The second rename failed: the first one is undone if that works. */
    method RollBack(answer: Io) returns (io: Io)
      requires At(RollingBack)
      modifies this
      ensures Reached(io, Failed) && !io.Done?
      ensures disk == if Old in old(disk) && answer.Done? then Renamed(old(disk), Old, Live) else old(disk)
      ensures io.Crashed? <==> answer.Crashed?
    {
      if answer.Crashed? {
        return Crashed;
      }
      if Old in disk && answer.Done? {
        disk := Renamed(disk, Old, Live);
      }
      Reach(Failed);
      io := Refused;
    }

    /** The best-effort removal of the saved tree and the flush of the renames. */
    method DropSaved(a: Answers) returns (io: Io)
      requires At(DroppingSaved)
      modifies this
      ensures Reached(io, Finished)
      ensures io == if a.dropSaved.Crashed? then Crashed else a.flush
      ensures Live in old(disk) ==> Live in disk && disk[Live] == old(disk)[Live]
      ensures Temp !in old(disk) ==> Temp !in disk
      ensures !io.Crashed? && a.dropSaved.Done? && (Old in old(disk) ==> old(disk)[Old].Dir?) ==> Old !in disk
    {
      if Old in disk {
        io := RemoveDirAll(Old, a.dropSaved);
      } else {
        assert disk - {Old} == disk;
      }
      if a.dropSaved.Crashed? {
        Reach(DroppingSaved);
        return Crashed;
      }
      Reach(Flushing);
      if a.flush.Crashed? {
        return Crashed;
      }
      Reach(if a.flush.Refused? then Failed else Finished);
      io := a.flush;
    }

    /**
     * `lockedBefore` and `lockedAfter` are the answers of the two lock probes when there is a
     * database to probe: a database that is in use stays as it is.
     */
    method Run(lockedBefore: bool, lockedAfter: bool, a: Answers) returns (io: Io)
      requires At(Checking)
      modifies this
      ensures Valid()
      ensures io.Done? <==> Last(trace).pc == Finished
      ensures io.Refused? <==> Last(trace).pc == Failed
      ensures Live in start ==>
        || Preserved(backup, start, disk)
        || (backup == Temp && IsDir(start, Temp) && start[Temp] != EMPTY && Live in disk && disk[Live] == EMPTY)
      ensures io.Done? <==> Succeeds(start, backup, lockedBefore, lockedAfter, a)
      ensures io.Done? ==>
        && backup in start && Live in disk && disk[Live] == Installed(backup, start) && Temp !in disk
        && (a.dropSaved.Done? && (Live in start ==> start[Live].Dir?) ==> Old !in disk)
      ensures !IsDir(start, backup) || (Live in start && lockedBefore) ==> io.Refused? && disk == start
      ensures Live in start && lockedAfter ==> !io.Done? && Live in disk && disk[Live] == start[Live]
      ensures CopyStays(start, backup, lockedBefore, lockedAfter, a) ==>
        io.Refused? && Temp in disk && disk[Temp] == Installed(backup, start)
      ensures io.Refused? && Live in start ==> AfterRefusal(backup, start, disk, a)
    {
      io := Proceed(lockedBefore, lockedAfter, a);
      RunKeepsInv(backup, start, trace);
    }

    method Proceed(lockedBefore: bool, lockedAfter: bool, a: Answers) returns (io: Io)
      requires At(Checking) && disk == start
      modifies this
      ensures Reached(io, Finished)
      ensures io.Done? <==> Succeeds(start, backup, lockedBefore, lockedAfter, a)
      ensures io.Done? ==>
        && backup in start && Live in disk && disk[Live] == Installed(backup, start) && Temp !in disk
        && (a.dropSaved.Done? && (Live in start ==> start[Live].Dir?) ==> Old !in disk)
      ensures !IsDir(start, backup) || (Live in start && lockedBefore) ==> io.Refused? && disk == start
      ensures Live in start && lockedAfter ==> SameLive(start, disk)
      ensures CopyStays(start, backup, lockedBefore, lockedAfter, a) ==>
        io.Refused? && Temp in disk && disk[Temp] == Installed(backup, start)
      ensures io.Refused? && Live in start ==> AfterRefusal(backup, start, disk, a)
    {
      if !IsDir(disk, backup) || (Live in disk && lockedBefore) {
        Reach(Failed);
        return Refused;
      }
      Reach(DroppingTemp);
      io := Replace(lockedAfter, a);
    }

    /** From the removal of stale artifacts on. */
    method Replace(lockedAfter: bool, a: Answers) returns (io: Io)
      requires At(DroppingTemp) && disk == start && IsDir(start, backup)
      modifies this
      ensures Reached(io, Finished)
      ensures io.Done? <==> Succeeds(start, backup, false, lockedAfter, a)
      ensures io.Done? ==>
        && Live in disk && disk[Live] == Installed(backup, start) && Temp !in disk
        && (a.dropSaved.Done? && (Live in start ==> start[Live].Dir?) ==> Old !in disk)
      ensures Live in start && lockedAfter ==> SameLive(start, disk)
      ensures CopyStays(start, backup, false, lockedAfter, a) ==>
        io.Refused? && Temp in disk && disk[Temp] == Installed(backup, start)
      ensures io.Refused? && Live in start ==> AfterRefusal(backup, start, disk, a)
    {
      hide IsRun, Next, RunInv;
      io := DropStale(a);
      if io.Done? {
        io := CopyBackup(a);
        if io.Done? {
          io := Install(lockedAfter, a);
        }
      }
    }

    /** The second lock probe, the flush of the copy and the swap. */
    method Install(lockedAfter: bool, a: Answers) returns (io: Io)
      requires At(Probing) && Temp in disk && Old !in disk
      modifies this
      ensures Reached(io, Finished)
      ensures Live in old(disk) && lockedAfter ==> io.Refused? && disk == old(disk)
      ensures io.Done? <==>
        && !(Live in old(disk) && lockedAfter) && a.sync.Done?
        && !a.swapOut.Crashed? && (Live in old(disk) ==> a.swapOut.Done?)
        && a.swapIn.Done? && !a.dropSaved.Crashed? && a.flush.Done?
      ensures io.Done? ==> Live in disk && disk[Live] == old(disk)[Temp] && Temp !in disk
      ensures io.Done? && a.dropSaved.Done? && (Live in old(disk) ==> old(disk)[Live].Dir?) ==> Old !in disk
      ensures io.Refused? && Live in old(disk) ==> SameLive(old(disk), disk) || AfterRefusedSwap(old(disk), disk, a)
    {
      if Live in disk && lockedAfter {
        Reach(Failed);
        return Refused;
      }
      Reach(Syncing);
      if a.sync.Crashed? {
        return Crashed;
      }
      if a.sync.Refused? {
        Reach(Failed);
        return Refused;
      }
      Reach(SwappingOut);
      io := Swap(a);
    }
  }

  /** The swap ended with an error: nothing has changed, or the roll-back failed, or only the last flush did. */
  ghost predicate AfterRefusedSwap(before: Disk, d: Disk, a: Answers)
    requires Live in before && Temp in before
  {
    || SameLive(before, d)
    || (a.swapIn.Refused? && a.rollBack.Refused? && Live !in d && Old in d && d[Old] == before[Live])
    || (a.swapIn.Done? && a.flush.Refused? && Live in d && d[Live] == before[Temp])
  }

  /**
   * The run ended with an error: the live tree is in place, unless the second rename and its
   * roll-back failed, or nothing but the last flush did.
   */
  ghost predicate AfterRefusal(backup: Place, start: Disk, d: Disk, a: Answers)
    requires Live in start
  {
    || (Live in d && d[Live] == start[Live])
    || (a.swapIn.Refused? && a.rollBack.Refused? && Live !in d && Old in d && d[Old] == start[Live])
    || (a.swapIn.Done? && a.flush.Refused? && backup in start && Live in d && d[Live] == Installed(backup, start))
  }

  /** A daemon has taken the lock during the copy: the run stops with the finished copy left in place. */
  predicate CopyStays(start: Disk, backup: Place, lockedBefore: bool, lockedAfter: bool, a: Answers) {
    && IsDir(start, backup) && backup != Old
    && Live in start && !lockedBefore && lockedAfter
    && Cleared(start, Temp, a.dropTemp) && Cleared(start, Old, a.dropOld)
    && a.create.Done? && a.copy.Done?
  }
}
