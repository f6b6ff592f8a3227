/** The repair migration v005 and the runner that applies pending migrations. */
module Migration {
  import opened Options
  import opened Projects
  import opened RootPath
  import opened StableSort

  // ---- What the repair leaves ----

  /** The newest project of its canonical root; none survives at the filesystem root. */
  ghost predicate Survives(projects: map<Id, Project>, id: Id) {
    && id in projects
    && Canonical(projects[id].root) != "/"
    && forall o :: o in projects && o != id && Canonical(projects[o].root) == Canonical(projects[id].root) ==>
         Older(projects, o, id)
  }

  ghost function Survivors(projects: map<Id, Project>): set<Id> {
    set id | id in projects && Survives(projects, id)
  }

  ghost function RepairedProjects(projects: map<Id, Project>): map<Id, Project> {
    map id | id in Survivors(projects) :: projects[id].(root := Canonical(projects[id].root))
  }

  ghost function RepairedFiles(t: Tables): set<FileRow> {
    set f | f in t.files && f.project !in t.projects.Keys - Survivors(t.projects)
  }

  ghost function Repaired(t: Tables): Tables {
    Tables(RepairedProjects(t.projects), RepairedFiles(t))
  }

  /** After the repair the unique index can be defined. */
  lemma RepairedIsClean(t: Tables)
    ensures CleanRoots(Repaired(t).projects)
    ensures NoOrphans(t) ==> NoOrphans(Repaired(t))
  {
    forall id | id in Repaired(t).projects
      ensures Canonical(Repaired(t).projects[id].root) == Repaired(t).projects[id].root
    {
      CanonicalIsIdempotent(t.projects[id].root);
    }
  }

  /** Survivors keep everything but the spelling of their root, and only the files of projects that go are removed. */
  lemma RepairKeepsTheRest(t: Tables)
    ensures forall id :: id in Repaired(t).projects ==>
      id in t.projects && Repaired(t).projects[id] == t.projects[id].(root := Canonical(t.projects[id].root))
    ensures forall f :: f in Repaired(t).files <==>
      f in t.files && (f.project in t.projects ==> f.project in Repaired(t).projects)
  {
    hide Canonical;
  }

  lemma {:induction false} NewestExists(projects: map<Id, Project>, ids: set<Id>) returns (newest: Id)
    requires ids != {} && ids <= projects.Keys
    ensures newest in ids && forall o :: o in ids && o != newest ==> Older(projects, o, newest)
  {
    var pick :| pick in ids;
    newest := pick;
    var rest := ids - {pick};
    if rest != {} {
      var other := NewestExists(projects, rest);
      if Older(projects, pick, other) {
        newest := other;
      }
      forall o | o in ids && o != newest ensures Older(projects, o, newest) {
        assert o != pick ==> o in rest;
        assert o != pick && o != other ==> Older(projects, o, other);
      }
    } else {
      assert ids == {pick};
    }
  }

  /** Each canonical root but `/` keeps exactly one project, the last in id order of the most recently updated. */
  lemma OneNewestSurvivorPerRoot(projects: map<Id, Project>, root: string) returns (survivor: Id)
    requires root != "/" && exists id :: id in projects && Canonical(projects[id].root) == root
    ensures survivor in projects && Canonical(projects[survivor].root) == root
    ensures survivor in RepairedProjects(projects)
    ensures forall o :: o in RepairedProjects(projects) && RepairedProjects(projects)[o].root == root ==> o == survivor
    ensures forall o :: o in projects && Canonical(projects[o].root) == root ==>
      projects[o].updatedAt < projects[survivor].updatedAt ||
      (projects[o].updatedAt == projects[survivor].updatedAt && o <= survivor)
  {
    var group := set o | o in projects && Canonical(projects[o].root) == root;
    var any :| any in projects && Canonical(projects[any].root) == root;
    assert any in group;
    survivor := NewestExists(projects, group);
    assert Survives(projects, survivor) by {
      forall o | o in projects && o != survivor && Canonical(projects[o].root) == root
        ensures Older(projects, o, survivor)
      {
        assert o in group;
      }
    }
    forall o | Survives(projects, o) && Canonical(projects[o].root) == root ensures o == survivor {
      assert o != survivor ==> Older(projects, o, survivor) && Older(projects, survivor, o);
    }
    assert forall o :: o in projects && Canonical(projects[o].root) == root ==> o in group;
  }

  // ---- Crashed runs ----

  /** A state a run on `t` can leave behind when it stops before the projects are deleted. */
  ghost predicate Underway(t: Tables, u: Tables) {
    && u.projects.Keys == t.projects.Keys
    && (forall id :: id in t.projects ==>
          || u.projects[id] == t.projects[id]
          || u.projects[id] == t.projects[id].(root := Canonical(t.projects[id].root)))
    && Repaired(t).files <= u.files <= t.files
  }

  lemma SameSurvivors(t: Tables, u: Tables, id: Id)
    requires Underway(t, u)
    ensures Survives(u.projects, id) <==> Survives(t.projects, id)
    ensures id in t.projects ==> Canonical(u.projects[id].root) == Canonical(t.projects[id].root)
  {
    forall o | o in t.projects
      ensures Canonical(u.projects[o].root) == Canonical(t.projects[o].root)
    {
      CanonicalIsIdempotent(t.projects[o].root);
    }
    forall a, b | a in t.projects && b in t.projects
      ensures Older(u.projects, a, b) <==> Older(t.projects, a, b)
    {
    }
  }

  lemma RepairResumes(t: Tables, u: Tables)
    requires Underway(t, u)
    ensures Repaired(u) == Repaired(t)
  {
    forall id ensures Survives(u.projects, id) <==> Survives(t.projects, id) {
      SameSurvivors(t, u, id);
    }
    assert Survivors(u.projects) == Survivors(t.projects);
    forall id | id in t.projects
      ensures u.projects[id].(root := Canonical(u.projects[id].root)) ==
              t.projects[id].(root := Canonical(t.projects[id].root))
    {
      SameSurvivors(t, u, id);
    }
    SameRepair(t, u, Survivors(t.projects));
  }

  lemma SameRepair(t: Tables, u: Tables, alive: set<Id>)
    requires alive == Survivors(t.projects) == Survivors(u.projects)
    requires u.projects.Keys == t.projects.Keys && RepairedFiles(t) <= u.files <= t.files
    requires forall id :: id in t.projects ==>
      u.projects[id].(root := Canonical(u.projects[id].root)) == t.projects[id].(root := Canonical(t.projects[id].root))
    ensures Repaired(u) == Repaired(t)
  {
    assert RepairedProjects(u.projects) == RepairedProjects(t.projects);
    assert RepairedFiles(u) == RepairedFiles(t);
  }

  lemma RepairIsIdempotent(t: Tables)
    ensures Repaired(Repaired(t)) == Repaired(t)
  {
    CleanIsRepaired(Repaired(t)) by { RepairedIsClean(t); }
  }

  lemma CleanIsRepaired(t: Tables)
    requires CleanRoots(t.projects)
    ensures Repaired(t) == t
  {
    assert forall id :: id in t.projects ==> Survives(t.projects, id);
    assert Repaired(t).projects == t.projects;
    assert Repaired(t).files == t.files;
  }

  // ---- The groups of one canonical root ----

  /** `records` is what selecting all of `projects` returns. */
  ghost predicate Lists(projects: map<Id, Project>, records: seq<Record>) {
    Rows(projects, projects.Keys, records)
  }

  lemma RowOf(projects: map<Id, Project>, records: seq<Record>, id: Id) returns (k: nat)
    requires Lists(projects, records) && id in projects
    ensures k < |records| && records[k] == RecordOf(projects, id)
  {
    assert RecordOf(projects, id) in records;
    k :| 0 <= k < |records| && records[k] == RecordOf(projects, id);
  }

  /** `deleted` holds exactly the ids that do not survive. */
  ghost predicate ListsLosers(projects: map<Id, Project>, deleted: seq<Id>) {
    forall id :: id in deleted <==> id in projects.Keys - Survivors(projects)
  }

  predicate ByUpdatedAt(a: Record, b: Record) {
    a.updatedAt <= b.updatedAt
  }

  /** The records of one canonical root, in the order they were selected. */
  function Group(records: seq<Record>, root: string): seq<Record> {
    if records == [] then []
    else
      var last := records[|records| - 1];
      Group(records[..|records| - 1], root) + (if Canonical(last.root) == root then [last] else [])
  }

  lemma {:induction false} GroupLists(records: seq<Record>, root: string)
    ensures forall r :: r in Group(records, root) <==> r in records && Canonical(r.root) == root
  {
    if records != [] {
      var init, last := records[..|records| - 1], records[|records| - 1];
      GroupLists(init, root);
      assert records == init + [last];
    }
  }

  lemma {:induction false} GroupMembers(records: seq<Record>, root: string)
    requires InIdOrder(records)
    ensures InIdOrder(Group(records, root))
    ensures forall r :: r in Group(records, root) <==> r in records && Canonical(r.root) == root
  {
    hide Canonical;
    GroupLists(records, root);
    if records != [] {
      var n := |records| - 1;
      var init, last := records[..n], records[n];
      GroupMembers(init, root);
      var group := Group(init, root);
      forall k | 0 <= k < |group| ensures group[k].id < last.id {
        assert group[k] in init;
        var m :| 0 <= m < n && init[m] == group[k];
        assert records[m].id < records[n].id;
      }
    }
  }

  /** The records of a group that go: all of them at `/`, otherwise all but the last by `updated_at`. */
  function Losers(group: seq<Record>, root: string): seq<Record> {
    if root == "/" then group
    else if |group| <= 1 then []
    else
      var sorted := Sort(ByUpdatedAt, group);
      if sorted == [] then [] else sorted[..|sorted| - 1]
  }

  lemma AllButLast(s: seq<Record>, g: seq<Record>)
    requires InIdOrder(g) && multiset(s) == multiset(g) && s != []
    ensures forall r :: r in s[..|s| - 1] <==> r in g && r != s[|s| - 1]
  {
    var init, last := s[..|s| - 1], s[|s| - 1];
    assert s == init + [last];
    assert multiset(s) == multiset(init) + multiset{last};
    assert last in multiset(g);
    Distinct(g, last);
    forall r ensures r in init <==> r in g && r != last {
      assert r in init <==> r in multiset(init);
      assert r in g <==> r in multiset(g);
    }
  }

  lemma {:induction false} Distinct(g: seq<Record>, r: Record)
    requires InIdOrder(g)
    ensures multiset(g)[r] <= 1
  {
    if g != [] {
      Distinct(g[1..], r);
      assert g == [g[0]] + g[1..];
      if g[0] == r {
        assert r !in g[1..];
        assert r !in multiset(g[1..]);
      }
    }
  }

  /** The deleted projects are exactly the ones that do not survive. */
  lemma LosersAreNotSurvivors(projects: map<Id, Project>, records: seq<Record>, root: string, id: Id)
    requires Lists(projects, records) && id in projects
    ensures RecordOf(projects, id) in Losers(Group(records, root), root) <==>
            Canonical(projects[id].root) == root && !Survives(projects, id)
  {
    var g, mine := Group(records, root), RecordOf(projects, id);
    GroupMembers(records, root);
    assert mine in g <==> Canonical(projects[id].root) == root;
    if root != "/" {
      if mine in g {
        LosersOfGroup(projects, g, root, id);
      } else {
        LosersAreMembers(g, root);
      }
    }
  }

  lemma LosersAreMembers(g: seq<Record>, root: string)
    ensures forall r :: r in Losers(g, root) ==> r in g
  {
    SortIsStable(ByUpdatedAt, g);
    var sorted := Sort(ByUpdatedAt, g);
    forall r | r in sorted ensures r in g {
      assert r in multiset(sorted);
    }
  }

  lemma LosersOfGroup(projects: map<Id, Project>, g: seq<Record>, root: string, id: Id)
    requires InIdOrder(g) && root != "/" && id in projects && Canonical(projects[id].root) == root
    requires forall r :: r in g <==> r.id in projects && r == RecordOf(projects, r.id) && Canonical(r.root) == root
    ensures RecordOf(projects, id) in Losers(g, root) <==> !Survives(projects, id)
  {
    assert RecordOf(projects, id) in g;
    if |g| == 1 {
      NewestInGroup(projects, g, root, 0, id);
    } else {
      var i := LosersOfSort(g, root);
      NewestInGroup(projects, g, root, i, id);
    }
  }

  /** In a group of several everything goes but one record, the latest among the newest. */
  lemma LosersOfSort(g: seq<Record>, root: string) returns (i: nat)
    requires InIdOrder(g) && root != "/" && |g| > 1
    ensures i < |g|
    ensures forall r :: r in Losers(g, root) <==> r in g && r != g[i]
    ensures forall k :: 0 <= k < |g| ==> ByUpdatedAt(g[k], g[i])
    ensures forall k :: i < k < |g| ==> !ByUpdatedAt(g[i], g[k])
  {
    SortIsStable(ByUpdatedAt, g);
    i := LastOfSort(ByUpdatedAt, g);
    AllButLast(Sort(ByUpdatedAt, g), g);
  }

  lemma NewestInGroup(projects: map<Id, Project>, g: seq<Record>, root: string, i: nat, id: Id)
    requires InIdOrder(g) && i < |g| && root != "/"
    requires forall r :: r in g <==> r.id in projects && r == RecordOf(projects, r.id) && Canonical(r.root) == root
    requires forall k :: 0 <= k < |g| ==> ByUpdatedAt(g[k], g[i])
    requires forall k :: i < k < |g| ==> !ByUpdatedAt(g[i], g[k])
    requires id in projects && Canonical(projects[id].root) == root
    ensures Survives(projects, id) <==> RecordOf(projects, id) == g[i]
  {
    var newest := g[i].id;
    assert g[i] in g;
    forall o | o in projects && o != newest && Canonical(projects[o].root) == root
      ensures Older(projects, o, newest)
    {
      assert RecordOf(projects, o) in g;
      OlderInGroup(projects, g, i, o);
    }
    assert RecordOf(projects, id) == g[i] <==> id == newest;
    assert Survives(projects, newest);
    if id != newest {
      assert Older(projects, id, newest) && !Older(projects, newest, id);
    }
  }

  lemma OlderInGroup(projects: map<Id, Project>, g: seq<Record>, i: nat, o: Id)
    requires InIdOrder(g) && i < |g| && g[i].id in projects && g[i] == RecordOf(projects, g[i].id)
    requires o in projects && o != g[i].id && RecordOf(projects, o) in g
    requires forall k :: 0 <= k < |g| ==> ByUpdatedAt(g[k], g[i])
    requires forall k :: i < k < |g| ==> !ByUpdatedAt(g[i], g[k])
    ensures Older(projects, o, g[i].id)
  {
    var k :| 0 <= k < |g| && g[k] == RecordOf(projects, o);
    assert ByUpdatedAt(g[k], g[i]);
  }

  // ---- The migration ----

  /** `byRoot` holds the groups of the records seen so far, and no empty one. */
  ghost predicate Grouped(records: seq<Record>, byRoot: map<string, seq<Record>>) {
    && (forall root :: root in byRoot ==> byRoot[root] == Group(records, root))
    && (forall root :: Group(records, root) != [] ==> root in byRoot)
  }

  /** The rows of the first `n` records have their canonical spelling, the others are as they were. */
  ghost predicate Respelled(t: Tables, u: Tables, records: seq<Record>, n: nat)
    requires n <= |records|
  {
    && u.files == t.files && u.projects.Keys == t.projects.Keys
    && (forall k :: 0 <= k < |records| ==> records[k].id in t.projects)
    && (forall k :: 0 <= k < n ==>
          u.projects[records[k].id] == t.projects[records[k].id].(root := Canonical(t.projects[records[k].id].root)))
    && (forall k :: n <= k < |records| ==> u.projects[records[k].id] == t.projects[records[k].id])
  }

  lemma RespelledIsUnderway(t: Tables, u: Tables, records: seq<Record>, n: nat)
    requires n <= |records| && Respelled(t, u, records, n) && Lists(t.projects, records)
    ensures Underway(t, u)
  {
    forall id | id in t.projects
      ensures u.projects[id] == t.projects[id] ||
              u.projects[id] == t.projects[id].(root := Canonical(t.projects[id].root))
    {
      var k := RowOf(t.projects, records, id);
      assert records[k].id == id;
    }
  }

  method RespellRoots(db: Database, crashAfter: Option<nat>, records: seq<Record>)
    returns (finished: bool, left: Option<nat>, byRoot: map<string, seq<Record>>)
    requires Lists(db.tables.projects, records)
    modifies db`tables
    ensures Underway(old(db.tables), db.tables)
    ensures crashAfter.None? ==> finished && left.None?
    ensures finished ==> Respelled(old(db.tables), db.tables, records, |records|) && Grouped(records, byRoot)
  {
    ghost var t := db.tables;
    byRoot, left := map[], crashAfter;
    for n := 0 to |records|
      invariant Respelled(t, db.tables, records, n)
      invariant Grouped(records[..n], byRoot)
      invariant crashAfter.None? ==> left.None?
    {
      var p := records[n];
      assert p in records;
      var canonical := CanonicalizeRootPath(p.root);
      if canonical != p.root {
        if left == Some(0) {
          RespelledIsUnderway(t, db.tables, records, n);
          return false, left, byRoot;
        }
        left := Spend(left);
        db.UpdateRoot(p.id, canonical);
      }
      GroupNext(records, n, byRoot);
      byRoot := byRoot[canonical := (if canonical in byRoot then byRoot[canonical] else []) + [p]];
    }
    assert records[..|records|] == records;
    RespelledIsUnderway(t, db.tables, records, |records|);
    finished := true;
  }

  /** One statement has been executed. */
  function Spend(left: Option<nat>): Option<nat>
    requires left != Some(0)
  {
    match left
    case None => None
    case Some(n) => Some(n - 1)
  }

  lemma GroupNext(records: seq<Record>, n: nat, byRoot: map<string, seq<Record>>)
    requires n < |records| && Grouped(records[..n], byRoot)
    ensures var c := Canonical(records[n].root);
            Grouped(records[..n + 1], byRoot[c := (if c in byRoot then byRoot[c] else []) + [records[n]]])
  {
    assert records[..n + 1][..n] == records[..n];
    forall root
      ensures Group(records[..n + 1], root) ==
              Group(records[..n], root) + (if Canonical(records[n].root) == root then [records[n]] else [])
    {
    }
  }

  /** The ids to delete: everything the groups lose, whatever the order the map yields them in. */
  method CollectDeleted(ghost projects: map<Id, Project>, records: seq<Record>, byRoot: map<string, seq<Record>>)
    returns (deleted: seq<Id>)
    requires Lists(projects, records) && Grouped(records, byRoot)
    ensures ListsLosers(projects, deleted)
  {
    deleted := [];
    var remaining := byRoot.Keys;
    while remaining != {}
      invariant remaining <= byRoot.Keys
      invariant forall id :: id in deleted <==>
        id in projects && Canonical(projects[id].root) in byRoot.Keys - remaining && !Survives(projects, id)
      decreases |remaining|
    {
      var root :| root in remaining;
      remaining := remaining - {root};
      var ids := LosingIds(byRoot[root], root);
      GroupLosers(projects, records, root);
      deleted := deleted + ids;
    }
    forall id | id in projects ensures Canonical(projects[id].root) in byRoot.Keys {
      var root := Canonical(projects[id].root);
      GroupMembers(records, root);
      assert RecordOf(projects, id) in records;
      assert RecordOf(projects, id) in Group(records, root);
    }
  }

  method LosingIds(group: seq<Record>, root: string) returns (ids: seq<Id>)
    ensures ids == IdsOf(Losers(group, root))
  {
    if root == "/" {
      return IdsOf(group);
    }
    if |group| <= 1 {
      return [];
    }
    SortIsStable(ByUpdatedAt, group);
    var sorted := Sort(ByUpdatedAt, group);
    ids := IdsOf(sorted[..|sorted| - 1]);
  }

  lemma GroupLosers(projects: map<Id, Project>, records: seq<Record>, root: string)
    requires Lists(projects, records)
    ensures forall id :: id in IdsOf(Losers(Group(records, root), root)) <==>
                         id in projects && Canonical(projects[id].root) == root && !Survives(projects, id)
  {
    forall id
      ensures id in IdsOf(Losers(Group(records, root), root)) <==>
              id in projects && Canonical(projects[id].root) == root && !Survives(projects, id)
    {
      LosersById(projects, records, root, id);
    }
  }

  lemma LosersById(projects: map<Id, Project>, records: seq<Record>, root: string, id: Id)
    requires Lists(projects, records)
    ensures id in IdsOf(Losers(Group(records, root), root)) <==>
            id in projects && Canonical(projects[id].root) == root && !Survives(projects, id)
  {
    var losers := Losers(Group(records, root), root);
    LosersAreMembers(Group(records, root), root);
    GroupMembers(records, root);
    if id in IdsOf(losers) {
      var k :| 0 <= k < |losers| && IdsOf(losers)[k] == id;
      assert losers[k] in losers;
      assert losers[k] in records;
    }
    if id in projects {
      LosersAreNotSurvivors(projects, records, root, id);
      var mine := RecordOf(projects, id);
      if mine in losers {
        var k :| 0 <= k < |losers| && losers[k] == mine;
        assert IdsOf(losers)[k] == id;
      }
    }
  }

  function Without(u: Tables, deleted: seq<Id>): Tables {
    Tables(map id | id in u.projects && id !in deleted :: u.projects[id],
           set f | f in u.files && f.project !in deleted)
  }

  lemma DeletingCompletesRepair(t: Tables, u: Tables, records: seq<Record>, deleted: seq<Id>)
    requires Respelled(t, u, records, |records|)
    requires Lists(t.projects, records) && ListsLosers(t.projects, deleted)
    ensures Without(u, deleted) == Repaired(t)
  {
    forall id | id in t.projects
      ensures u.projects[id] == t.projects[id].(root := Canonical(t.projects[id].root))
    {
      var k := RowOf(t.projects, records, id);
      assert records[k].id == id;
    }
    assert Without(u, deleted).projects == RepairedProjects(t.projects);
    assert Without(u, deleted).files == RepairedFiles(t);
  }

  method DeleteAll(db: Database, ghost t: Tables, crashAfter: Option<nat>, deleted: seq<Id>)
    returns (finished: bool, left: Option<nat>)
    requires Underway(t, db.tables) && db.tables.files == t.files && Without(db.tables, deleted) == Repaired(t)
    modifies db`tables
    ensures !finished ==> Underway(t, db.tables)
    ensures finished ==> db.tables == Repaired(t)
    ensures crashAfter.None? ==> finished && left.None?
  {
    ghost var u := db.tables;
    left := crashAfter;
    for n := 0 to |deleted|
      invariant db.tables == Tables(u.projects, set f | f in u.files && f.project !in deleted[..n])
      invariant crashAfter.None? ==> left.None?
    {
      assert Repaired(t).files <= db.tables.files;
      if left == Some(0) {
        return false, left;
      }
      left := Spend(left);
      assert deleted[..n + 1] == deleted[..n] + [deleted[n]];
      db.DeleteFilesOf(deleted[n]);
    }
    assert deleted[..|deleted|] == deleted;
    if left == Some(0) {
      return false, left;
    }
    left := Spend(left);
    db.DeleteProjects(deleted);
    finished := true;
  }

  lemma NothingToDelete(u: Tables)
    ensures Without(u, []) == u
  {
    assert Without(u, []).projects == u.projects;
    assert Without(u, []).files == u.files;
  }

  /** The canonicalize and dedup parts of v005. */
  method RepairTables(db: Database, crashAfter: Option<nat>) returns (finished: bool, left: Option<nat>)
    modifies db`tables
    ensures !finished ==> Underway(old(db.tables), db.tables)
    ensures finished ==> db.tables == Repaired(old(db.tables))
    ensures crashAfter.None? ==> finished && left.None?
  {
    ghost var t := db.tables;
    SelectLists(db.tables.projects, db.tables.projects.Keys);
    var records := Select(db.tables.projects, db.tables.projects.Keys);
    assert Lists(t.projects, records);
    var byRoot;
    finished, left, byRoot := RespellRoots(db, crashAfter, records);
    if !finished {
      return;
    }
    var deleted := CollectDeleted(t.projects, records, byRoot);
    DeletingCompletesRepair(t, db.tables, records, deleted);
    if deleted != [] {
      finished, left := DeleteAll(db, t, left, deleted);
    } else {
      NothingToDelete(db.tables);
    }
  }

  lemma UnderwayFromClean(t: Tables, u: Tables)
    requires CleanRoots(t.projects) && Underway(t, u)
    ensures u == t
  {
    CleanIsRepaired(t);
    assert u.projects == t.projects;
  }

  /** v005, stopped before its next statement once `crashAfter` statements have been executed. */
  method Run(db: Database, crashAfter: Option<nat>) returns (finished: bool)
    requires db.Consistent()
    modifies db`tables, db`uniqueRoot
    ensures db.Consistent()
    ensures Repaired(db.tables) == Repaired(old(db.tables))
    ensures crashAfter.None? ==> finished
    ensures finished ==> db.tables == Repaired(old(db.tables)) && db.uniqueRoot
    ensures old(db.uniqueRoot) ==> db.uniqueRoot && db.tables == old(db.tables)
  {
    RepairIsIdempotent(db.tables);
    RepairedIsClean(db.tables);
    var left;
    finished, left := RepairTables(db, crashAfter);
    if old(db.uniqueRoot) {
      CleanIsRepaired(old(db.tables));
    }
    if !finished {
      RepairResumes(old(db.tables), db.tables);
      if old(db.uniqueRoot) {
        UnderwayFromClean(old(db.tables), db.tables);
      }
      return;
    }
    if left == Some(0) {
      return false;
    }
    db.uniqueRoot := true;
  }

  // ---- The runner ----

  /** Where a run of all pending migrations is interrupted. */
  datatype Interruption = Never | InsideRepair(statements: nat) | BeforeRecording(version: nat)

  const VERSIONS: seq<nat> := [1, 2, 3, 4, 5]

  predicate NoneTwice(versions: seq<nat>) {
    forall i, j :: 0 <= i < j < |versions| ==> versions[i] != versions[j]
  }

  /** `run_pending_with_report`: v001 to v004 only define the schema. */
  method RunPending(db: Database, interruption: Interruption) returns (finished: bool)
    requires db.Consistent() && NoneTwice(db.applied)
    modifies db`tables, db`uniqueRoot, db`applied
    ensures db.Consistent() && NoneTwice(db.applied) && old(db.applied) <= db.applied
    ensures Repaired(db.tables) == Repaired(old(db.tables))
    ensures interruption.Never? ==> finished
    ensures finished ==> (forall v :: v in VERSIONS ==> v in db.applied) && db.uniqueRoot
    ensures 5 in db.applied && 5 !in old(db.applied) ==> db.tables == Repaired(old(db.tables))
    ensures 5 in old(db.applied) ==> db.tables == old(db.tables)
  {
    RepairIsIdempotent(db.tables);
    var applied := db.applied;
    for n := 0 to |VERSIONS|
      invariant db.Consistent() && NoneTwice(db.applied) && old(db.applied) <= db.applied
      invariant Repaired(db.tables) == Repaired(old(db.tables))
      invariant forall k :: 0 <= k < n ==> VERSIONS[k] in db.applied
      invariant forall v :: v in db.applied <==> v in applied || v in VERSIONS[..n]
      invariant 5 in db.applied && 5 !in applied ==> db.tables == Repaired(old(db.tables))
      invariant 5 in applied ==> db.tables == old(db.tables)
    {
      var version := VERSIONS[n];
      assert VERSIONS[..n + 1] == VERSIONS[..n] + [version];
      if version in applied {
        continue;
      }
      assert version !in db.applied;
      if version == 5 {
        var crash := if interruption.InsideRepair? then Some(interruption.statements) else None;
        finished := Run(db, crash);
        if !finished {
          return;
        }
      }
      if interruption == BeforeRecording(version) {
        return false;
      }
      db.applied := db.applied + [version];
    }
    finished := true;
  }

  /** Any number of interrupted runs and then a complete one leave what one complete run leaves. */
  method RunUntilFinished(db: Database, interruptions: seq<Interruption>)
    requires db.Consistent() && NoneTwice(db.applied)
    modifies db`tables, db`uniqueRoot, db`applied
    ensures db.Consistent() && db.uniqueRoot && NoneTwice(db.applied)
    ensures forall v :: v in VERSIONS ==> v in db.applied
    ensures 5 !in old(db.applied) ==> db.tables == Repaired(old(db.tables))
    ensures 5 in old(db.applied) ==> db.tables == old(db.tables)
  {
    for n := 0 to |interruptions|
      invariant db.Consistent() && NoneTwice(db.applied) && old(db.applied) <= db.applied
      invariant Repaired(db.tables) == Repaired(old(db.tables))
      invariant 5 in db.applied && 5 !in old(db.applied) ==> db.tables == Repaired(old(db.tables))
      invariant 5 in old(db.applied) ==> db.tables == old(db.tables)
    {
      var _ := RunPending(db, interruptions[n]);
    }
    var _ := RunPending(db, Never);
  }
}
