/** Registering a project: the decision table, the self-healing of duplicates, and what every run keeps. */
module ProjectService {
  import opened Options
  import opened Projects
  import opened RootPath
  import opened StableSort
  import Migration

  /** The project id in config.json: absent, not a record id at all, or a record id. */
  datatype Config = NoConfig | Malformed | ConfigId(id: Id)

  datatype Params = Params(config: Config, name: string, slug: string, rootPath: string)

  datatype Action = Created | CreatedStaleConfig | Reused | ReusedStaleConfig | Moved

  datatype Reason = FilesystemRoot | NoProfile | InvalidProjectId | IdentityConflict | StatementRefused

  datatype Outcome = Done(id: Id, action: Action, duplicatesRemoved: nat) | Rejected(reason: Reason)

  // ---- Reconciling the records of one root ----

  function AtRoot(projects: map<Id, Project>, root: string): set<Id> {
    set id | id in projects && projects[id].root == root
  }

  /** `a` is preferred to `b`: more recently updated, or as recent and earlier in id order. */
  ghost predicate Preferred(projects: map<Id, Project>, a: Id, b: Id)
    requires a in projects && b in projects
  {
    projects[a].updatedAt > projects[b].updatedAt || (projects[a].updatedAt == projects[b].updatedAt && a < b)
  }

  /** The record that stays: the one config.json names if it is at this root, otherwise the newest. */
  ghost predicate Stays(projects: map<Id, Project>, root: string, config: Config, id: Id) {
    var here := AtRoot(projects, root);
    && id in here
    && if config.ConfigId? && config.id in here then id == config.id
       else forall o :: o in here && o != id ==> Preferred(projects, id, o)
  }

  lemma {:induction false} PreferredExists(projects: map<Id, Project>, ids: set<Id>) returns (best: Id)
    requires ids != {} && ids <= projects.Keys
    ensures best in ids && forall o :: o in ids && o != best ==> Preferred(projects, best, o)
  {
    var pick :| pick in ids;
    best := pick;
    var rest := ids - {pick};
    if rest != {} {
      var other := PreferredExists(projects, rest);
      if Preferred(projects, other, pick) {
        best := other;
      }
      forall o | o in ids && o != best ensures Preferred(projects, best, o) {
        assert o != pick ==> o in rest;
        assert o != pick && o != other ==> Preferred(projects, other, o);
      }
    } else {
      assert ids == {pick};
    }
  }

  lemma SomeoneStays(projects: map<Id, Project>, root: string, config: Config)
    requires AtRoot(projects, root) != {}
    ensures exists id :: Stays(projects, root, config, id)
  {
    var best := PreferredExists(projects, AtRoot(projects, root));
    var named := config.ConfigId? && config.id in AtRoot(projects, root);
    assert Stays(projects, root, config, if named then config.id else best);
  }

  ghost function Winner(projects: map<Id, Project>, root: string, config: Config): (id: Id)
    requires AtRoot(projects, root) != {}
    ensures Stays(projects, root, config, id)
  {
    SomeoneStays(projects, root, config);
    var id :| Stays(projects, root, config, id);
    id
  }

  ghost function Duplicates(projects: map<Id, Project>, root: string, config: Config): set<Id> {
    if AtRoot(projects, root) == {} then {} else AtRoot(projects, root) - {Winner(projects, root, config)}
  }

  /** The duplicates and their files are gone, everything else is as it was. */
  ghost function Reconciled(t: Tables, root: string, config: Config): Tables {
    var gone := Duplicates(t.projects, root, config);
    Tables(t.projects - gone, set f | f in t.files && f.project !in gone)
  }

  predicate NewestFirst(a: Record, b: Record) {
    a.updatedAt >= b.updatedAt
  }

  /** `iter().position` on the record ids. */
  function Position(records: seq<Record>, id: Id): (i: Option<nat>)
    ensures i.Some? ==> i.value < |records| && records[i.value].id == id
    ensures i.None? ==> forall k :: 0 <= k < |records| ==> records[k].id != id
  {
    if records == [] then None
    else if records[0].id == id then Some(0)
    else
      match Position(records[1..], id)
      case None => None
      case Some(i) => Some(i + 1)
  }

  /** Taking one record out of the list leaves the ids of the others. */
  lemma WithoutOne(projects: map<Id, Project>, ids: set<Id>, records: seq<Record>, rest: seq<Record>, i: nat)
    requires Rows(projects, ids, records) && i < |records|
    requires multiset(rest) == multiset(records) - multiset{records[i]}
    ensures |rest| == |records| - 1
    ensures forall id :: id in IdsOf(rest) <==> id in ids - {records[i].id}
  {
    Migration.Distinct(records, records[i]);
    assert |multiset(rest)| == |rest| && |multiset(records)| == |records|;
    assert records[i] in records;
    forall id ensures id in IdsOf(rest) <==> id in ids - {records[i].id} {
      if id in IdsOf(rest) {
        var k :| 0 <= k < |rest| && IdsOf(rest)[k] == id;
        assert rest[k] in multiset(rest);
        assert rest[k] in records;
      }
      if id in ids - {records[i].id} {
        var r := RecordOf(projects, id);
        assert r in records;
        assert r in multiset(rest);
        var k :| 0 <= k < |rest| && rest[k] == r;
        assert IdsOf(rest)[k] == id;
      }
    }
  }

  lemma RemoveAt(records: seq<Record>, i: nat)
    requires i < |records|
    ensures multiset(records[..i] + records[i + 1..]) == multiset(records) - multiset{records[i]}
  {
    assert records == records[..i] + [records[i]] + records[i + 1..];
  }

  lemma FirstIsPreferred(projects: map<Id, Project>, ids: set<Id>, records: seq<Record>) returns (i: nat)
    requires Rows(projects, ids, records) && records != []
    ensures i < |records| && Sort(NewestFirst, records) != [] && Sort(NewestFirst, records)[0] == records[i]
    ensures records[i].id in ids
    ensures forall o :: o in ids && o != records[i].id ==> Preferred(projects, records[i].id, o)
  {
    i := FirstOfSort(NewestFirst, records);
    assert records[i] in records;
    forall o | o in ids && o != records[i].id ensures Preferred(projects, records[i].id, o) {
      assert RecordOf(projects, o) in records;
      var k :| 0 <= k < |records| && records[k] == RecordOf(projects, o);
      assert NewestFirst(records[i], records[k]);
      assert k < i ==> !NewestFirst(records[k], records[i]);
    }
  }

  /** Which record stays and which ids go, with at least two records at the root. */
  method ChooseCanonical(ghost projects: map<Id, Project>, ghost root: string, config: Config, records: seq<Record>)
    returns (canonical: Record, deletedIds: seq<Id>)
    requires Rows(projects, AtRoot(projects, root), records) && |records| > 1
    ensures Stays(projects, root, config, canonical.id)
    ensures |deletedIds| == |records| - 1
    ensures forall id :: id in deletedIds <==> id in AtRoot(projects, root) - {canonical.id}
  {
    ghost var here := AtRoot(projects, root);
    var index := if config.ConfigId? then Position(records, config.id) else None;
    if index.Some? {
      var i := index.value;
      canonical := records[i];
      assert canonical in records;
      RemoveAt(records, i);
      WithoutOne(projects, here, records, records[..i] + records[i + 1..], i);
      deletedIds := IdsOf(records[..i] + records[i + 1..]);
    } else {
      ghost var i := FirstIsPreferred(projects, here, records);
      var sorted := Sort(NewestFirst, records);
      canonical := sorted[0];
      SortIsStable(NewestFirst, records);
      RemoveAt(sorted, 0);
      assert sorted[..0] + sorted[1..] == sorted[1..];
      WithoutOne(projects, here, records, sorted[1..], i);
      deletedIds := IdsOf(sorted[1..]);
      if config.ConfigId? && config.id in here {
        assert RecordOf(projects, config.id) in records;
      }
    }
  }

  /** A state the removal of the duplicates leaves when it stops before the projects are deleted. */
  ghost predicate Reconciling(t: Tables, root: string, config: Config, u: Tables) {
    u.projects == t.projects && Reconciled(t, root, config).files <= u.files <= t.files
  }

  /** Stopped before its next statement once `crashAfter` statements have been executed. */
  method DeleteDuplicates(db: Database, ghost root: string, ghost config: Config, deletedIds: seq<Id>,
                          crashAfter: Option<nat>)
    returns (finished: bool, left: Option<nat>)
    requires forall id :: id in deletedIds <==> id in Duplicates(db.tables.projects, root, config)
    modifies db`tables
    ensures crashAfter.None? ==> finished && left.None?
    ensures !finished ==> Reconciling(old(db.tables), root, config, db.tables)
    ensures finished ==> db.tables == Reconciled(old(db.tables), root, config)
  {
    ghost var t := db.tables;
    left := crashAfter;
    for n := 0 to |deletedIds|
      invariant db.tables == t.(files := set f | f in t.files && f.project !in deletedIds[..n])
      invariant crashAfter.None? ==> left.None?
    {
      if left == Some(0) {
        return false, left;
      }
      left := Migration.Spend(left);
      assert deletedIds[..n + 1] == deletedIds[..n] + [deletedIds[n]];
      db.DeleteFilesOf(deletedIds[n]);
    }
    assert deletedIds[..|deletedIds|] == deletedIds;
    if left == Some(0) {
      return false, left;
    }
    left := Migration.Spend(left);
    db.DeleteProjects(deletedIds);
    SameRemoval(t, Duplicates(t.projects, root, config), deletedIds);
    finished := true;
  }

  method ReconcileRootRecords(db: Database, config: Config, ghost root: string, records: seq<Record>,
                              crashAfter: Option<nat>)
    returns (finished: bool, left: Option<nat>, record: Option<Record>, duplicatesRemoved: nat)
    requires Rows(db.tables.projects, AtRoot(db.tables.projects, root), records)
    requires |records| == |AtRoot(db.tables.projects, root)|
    modifies db`tables
    ensures crashAfter.None? ==> finished && left.None?
    ensures !finished ==> Reconciling(old(db.tables), root, config, db.tables)
    ensures finished ==> db.tables == Reconciled(old(db.tables), root, config)
    ensures record.None? <==> AtRoot(old(db.tables).projects, root) == {}
    ensures record.Some? ==> record.value.id == Winner(old(db.tables).projects, root, config)
    ensures duplicatesRemoved == |Duplicates(old(db.tables).projects, root, config)|
  {
    ghost var t, here := db.tables, AtRoot(db.tables.projects, root);
    if |records| <= 1 {
      record := if records == [] then None else Some(records[|records| - 1]);
      NothingToReconcile(t, root, config, records);
      return true, crashAfter, record, 0;
    }
    var canonical, deletedIds := ChooseCanonical(t.projects, root, config, records);
    OnlyOneStays(t.projects, root, config, canonical.id);
    finished, left := DeleteDuplicates(db, root, config, deletedIds, crashAfter);
    record, duplicatesRemoved := Some(canonical), |deletedIds|;
  }

  lemma OnlyOneStays(projects: map<Id, Project>, root: string, config: Config, id: Id)
    requires Stays(projects, root, config, id)
    ensures AtRoot(projects, root) != {} && Winner(projects, root, config) == id
    ensures Duplicates(projects, root, config) == AtRoot(projects, root) - {id}
    ensures |Duplicates(projects, root, config)| == |AtRoot(projects, root)| - 1
  {
    var w := Winner(projects, root, config);
    assert w in AtRoot(projects, root) && id in AtRoot(projects, root);
  }

  lemma SameRemoval(t: Tables, gone: set<Id>, ids: seq<Id>)
    requires forall id :: id in ids <==> id in gone
    ensures Migration.Without(t, ids) == Tables(t.projects - gone, set f | f in t.files && f.project !in gone)
  {
    assert Migration.Without(t, ids).projects == t.projects - gone;
  }

  lemma NothingToReconcile(t: Tables, root: string, config: Config, records: seq<Record>)
    requires Rows(t.projects, AtRoot(t.projects, root), records) && |records| == |AtRoot(t.projects, root)| <= 1
    ensures Reconciled(t, root, config) == t && Duplicates(t.projects, root, config) == {}
    ensures records != [] ==>
      AtRoot(t.projects, root) != {} && records[|records| - 1].id == Winner(t.projects, root, config)
  {
    var here := AtRoot(t.projects, root);
    if here != {} {
      var w := Winner(t.projects, root, config);
      assert here == {w} by {
        assert |here - {w}| == 0;
      }
      assert records[0] in records;
    }
    assert Duplicates(t.projects, root, config) == {};
    assert t.projects - {} == t.projects;
    assert (set f | f in t.files && f.project !in {}) == t.files;
  }

  // ---- Registration ----

  datatype Decision = Create(action: Action) | Update(id: Id, action: Action) | Conflict

  /** The decision table, on reconciled tables: `here` is the record at this root, if any. */
  ghost function Decide(projects: map<Id, Project>, here: Option<Id>, config: Config): Decision {
    match (config, here)
    case (ConfigId(pid), Some(id)) =>
      if pid !in projects then Update(id, ReusedStaleConfig)
      else if pid == id then Update(id, Reused)
      else Conflict
    case (ConfigId(pid), None) => if pid in projects then Update(pid, Moved) else Create(CreatedStaleConfig)
    case (_, Some(id)) => Update(id, Reused)
    case (_, None) => Create(Created)
  }

  ghost function RecordAt(projects: map<Id, Project>, root: string, config: Config): Option<Id> {
    if AtRoot(projects, root) == {} then None else Some(Winner(projects, root, config))
  }

  ghost function Written(t: Tables, uniqueRoot: bool, id: Id, p: Project, action: Action, removed: nat)
    : (Tables, Outcome)
  {
    if Refused(t.projects, uniqueRoot, id, p) then (t, Rejected(StatementRefused))
    else (t.(projects := t.projects[id := p]), Done(id, action, removed))
  }

  /** The rest of a call on the reconciled tables `u`, with the data to write. */
  ghost function Decided(u: Tables, here: Option<Id>, uniqueRoot: bool, config: Config, p: Project, newId: Id,
                         removed: nat): (Tables, Outcome)
  {
    if config.Malformed? then (u, Rejected(InvalidProjectId))
    else
      match Decide(u.projects, here, config)
      case Conflict => (u, Rejected(IdentityConflict))
      case Update(id, action) => Written(u, uniqueRoot, id, p, action, removed)
      case Create(action) => Written(u, uniqueRoot, newId, p, action, removed)
  }

  /** One call, as a whole: the tables it leaves and what it answers. `newId` is the id a `CREATE` would get. */
  ghost function Registered(t: Tables, uniqueRoot: bool, users: seq<string>, params: Params, newId: Id, now: int)
    : (Tables, Outcome)
  {
    var root := Canonical(params.rootPath);
    if root == "/" then (t, Rejected(FilesystemRoot))
    else if users == [] then (t, Rejected(NoProfile))
    else
      Decided(Reconciled(t, root, params.config), RecordAt(t.projects, root, params.config), uniqueRoot,
              params.config, Project(users[0], params.name, params.slug, root, now), newId,
              |Duplicates(t.projects, root, params.config)|)
  }

  /** The match on config.json, the record at the root and the record config.json names. */
  method ChooseAction(ghost projects: map<Id, Project>, config: Config, byRoot: Option<Record>, byId: Option<Id>)
    returns (decision: Decision)
    requires !config.Malformed?
    requires byId == if config.ConfigId? && config.id in projects then Some(config.id) else None
    ensures decision == Decide(projects, if byRoot.Some? then Some(byRoot.value.id) else None, config)
  {
    match (config, byRoot, byId) {
      case (ConfigId(_), Some(existing), None) => decision := Update(existing.id, ReusedStaleConfig);
      case (ConfigId(pid), Some(existing), Some(_)) =>
        decision := if pid == existing.id then Update(existing.id, Reused) else Conflict;
      case (_, Some(existing), _) => decision := Update(existing.id, Reused);
      case (ConfigId(_), None, Some(moved)) => decision := Update(moved, Moved);
      case (ConfigId(_), None, None) => decision := Create(CreatedStaleConfig);
      case (_, None, _) => decision := Create(Created);
    }
  }

  /** What a call that does not get to its end leaves. */
  ghost predicate Stopped(t: Tables, users: seq<string>, params: Params, u: Tables) {
    var root := Canonical(params.rootPath);
    && root != "/" && users != []
    && (Reconciling(t, root, params.config, u) || u == Reconciled(t, root, params.config))
  }

  /** The call, stopped before its next statement once `crashAfter` statements have been executed. */
  method Register(db: Database, params: Params, newId: Id, now: int, crashAfter: Option<nat>)
    returns (finished: bool, outcome: Outcome)
    requires newId !in db.tables.projects
    modifies db`tables
    ensures crashAfter.None? ==> finished
    ensures !finished ==> Stopped(old(db.tables), db.users, params, db.tables)
    ensures finished ==>
      (db.tables, outcome) == Registered(old(db.tables), db.uniqueRoot, db.users, params, newId, now)
  {
    var root := CanonicalizeRootPath(params.rootPath);
    finished := true;
    if root == "/" {
      return finished, Rejected(FilesystemRoot);
    }
    if db.users == [] {
      return finished, Rejected(NoProfile);
    }
    var owner := db.users[0];
    SelectLists(db.tables.projects, AtRoot(db.tables.projects, root));
    var byRoot := Select(db.tables.projects, AtRoot(db.tables.projects, root));
    var left, byRootRecord, duplicatesRemoved;
    finished, left, byRootRecord, duplicatesRemoved :=
      ReconcileRootRecords(db, params.config, root, byRoot, crashAfter);
    outcome := Rejected(InvalidProjectId);
    if !finished || params.config.Malformed? {
      return;
    }
    var byId := if params.config.ConfigId? && params.config.id in db.tables.projects then Some(params.config.id)
                else None;
    var decision := ChooseAction(db.tables.projects, params.config, byRootRecord, byId);
    var target, action;
    match decision {
      case Conflict => return finished, Rejected(IdentityConflict);
      case Update(id, a) => target, action := id, a;
      case Create(a) => target, action := newId, a;
    }
    if left == Some(0) {
      return false, outcome;
    }
    var stored := db.Store(target, Project(owner, params.name, params.slug, root, now));
    outcome := if stored then Done(target, action, duplicatesRemoved) else Rejected(StatementRefused);
  }

  // ---- One call ----

  /** In short: rejected early, rejected with the duplicates gone, or one row written that is alone at its root. */
  lemma Shape(t: Tables, uniqueRoot: bool, users: seq<string>, params: Params, newId: Id, now: int,
              u: Tables, outcome: Outcome)
    requires newId !in t.projects && Registered(t, uniqueRoot, users, params, newId, now) == (u, outcome)
    ensures var root := Canonical(params.rootPath);
            var r := Reconciled(t, root, params.config);
            var p := Project(if users == [] then "" else users[0], params.name, params.slug, root, now);
            && (root == "/" || users == [] ==> outcome.Rejected? && u == t)
            && (root != "/" && users != [] && outcome.Rejected? ==> u == r)
            && (outcome.Done? ==>
                  && root != "/" && users != []
                  && (outcome.id in r.projects || outcome.id == newId)
                  && AtRoot(r.projects, root) <= {outcome.id}
                  && !Refused(r.projects, uniqueRoot, outcome.id, p)
                  && outcome.duplicatesRemoved == |Duplicates(t.projects, root, params.config)|
                  && u == Tables(r.projects[outcome.id := p], r.files))
  {
    var root := Canonical(params.rootPath);
    var r := Reconciled(t, root, params.config);
    var here := RecordAt(t.projects, root, params.config);
    assert AtRoot(r.projects, root) == (if here.Some? then {here.value} else {});
    if root != "/" && users != [] {
      DecidedShape(r, here, uniqueRoot, params.config, Project(users[0], params.name, params.slug, root, now), newId,
                   |Duplicates(t.projects, root, params.config)|, u, outcome);
    }
  }

  lemma DecidedShape(r: Tables, here: Option<Id>, uniqueRoot: bool, config: Config, p: Project, newId: Id, removed: nat,
                     u: Tables, outcome: Outcome)
    requires Decided(r, here, uniqueRoot, config, p, newId, removed) == (u, outcome)
    requires here.Some? ==> here.value in r.projects
    ensures outcome.Rejected? ==> u == r
    ensures outcome.Done? ==>
      && (outcome.id in r.projects || outcome.id == newId)
      && (here.Some? ==> outcome.id == here.value)
      && !Refused(r.projects, uniqueRoot, outcome.id, p)
      && outcome.duplicatesRemoved == removed
      && u == Tables(r.projects[outcome.id := p], r.files)
  {
  }

  lemma AloneAfterWrite(projects: map<Id, Project>, id: Id, p: Project)
    requires AtRoot(projects, p.root) <= {id}
    ensures AtRoot(projects[id := p], p.root) == {id}
    ensures CleanRoots(projects) && Canonical(p.root) == p.root && p.root != "/" ==> CleanRoots(projects[id := p])
  {
    assert forall o :: o in projects && projects[o].root == p.root ==> o in AtRoot(projects, p.root);
  }

  /** Starting from the state v005 leaves: what a call does to the roots. */
  lemma CallKeepsRootsClean(t: Tables, users: seq<string>, params: Params, newId: Id, now: int,
                            u: Tables, outcome: Outcome)
    requires CleanRoots(t.projects) && newId !in t.projects
    requires Registered(t, true, users, params, newId, now) == (u, outcome)
    ensures CleanRoots(u.projects)
    ensures outcome.Rejected? ==> u == t
    ensures outcome.Done? ==>
      && AtRoot(u.projects, Canonical(params.rootPath)) == {outcome.id}
      && outcome.duplicatesRemoved == 0
      && u.files == t.files
  {
    var root := Canonical(params.rootPath);
    CanonicalIsIdempotent(params.rootPath);
    CleanNeedsNoReconciling(t, root, params.config);
    Shape(t, true, users, params, newId, now, u, outcome);
    if outcome.Done? {
      AloneAfterWrite(t.projects, outcome.id, u.projects[outcome.id]);
    }
  }

  lemma CleanNeedsNoReconciling(t: Tables, root: string, config: Config)
    requires CleanRoots(t.projects)
    ensures Duplicates(t.projects, root, config) == {} && Reconciled(t, root, config) == t
    ensures forall id :: id in AtRoot(t.projects, root) ==> AtRoot(t.projects, root) == {id}
  {
    assert Duplicates(t.projects, root, config) == {};
    assert t.projects - {} == t.projects;
    assert (set f | f in t.files && f.project !in {}) == t.files;
  }

  /** The unique index on the root path never refuses a write: leaving it out changes nothing. */
  lemma RootIndexNeverRefuses(t: Tables, users: seq<string>, params: Params, newId: Id, now: int)
    requires CleanRoots(t.projects) && newId !in t.projects
    ensures Registered(t, true, users, params, newId, now) == Registered(t, false, users, params, newId, now)
  {
    CleanNeedsNoReconciling(t, Canonical(params.rootPath), params.config);
  }

  /** The identity conflict, from arbitrary and even duplicated tables. */
  lemma ConflictIff(t: Tables, uniqueRoot: bool, users: seq<string>, params: Params, newId: Id, now: int)
    ensures var root := Canonical(params.rootPath);
            Registered(t, uniqueRoot, users, params, newId, now).1 == Rejected(IdentityConflict) <==>
            && root != "/" && users != []
            && AtRoot(t.projects, root) != {}
            && params.config.ConfigId?
            && params.config.id in t.projects && t.projects[params.config.id].root != root
  {
    var root := Canonical(params.rootPath);
    if root != "/" && users != [] && params.config.ConfigId? && AtRoot(t.projects, root) != {} {
      ConflictAtRoot(t, root, params.config);
    }
  }

  lemma ConflictAtRoot(t: Tables, root: string, config: Config)
    requires config.ConfigId? && AtRoot(t.projects, root) != {}
    ensures Decide(Reconciled(t, root, config).projects, RecordAt(t.projects, root, config), config) == Conflict <==>
            config.id in t.projects && t.projects[config.id].root != root
  {
    ConfigSurvives(t, root, config);
  }

  /** Whatever the tables, a call removes the duplicates at its root with their files and nothing else. */
  lemma OnlyDuplicatesGo(t: Tables, uniqueRoot: bool, users: seq<string>, params: Params, newId: Id, now: int,
                         u: Tables, outcome: Outcome)
    requires newId !in t.projects && Registered(t, uniqueRoot, users, params, newId, now) == (u, outcome)
    ensures var root := Canonical(params.rootPath);
            var gone := if root == "/" || users == [] then {} else Duplicates(t.projects, root, params.config);
            && t.projects.Keys - u.projects.Keys == gone
            && (forall id :: id in gone ==>
                  t.projects[id].root == root && !Stays(t.projects, root, params.config, id))
            && u.files == (set f | f in t.files && f.project !in gone)
            && (forall id :: id in u.projects && !(outcome.Done? && id == outcome.id) ==>
                  id in t.projects && u.projects[id] == t.projects[id])
  {
    Shape(t, uniqueRoot, users, params, newId, now, u, outcome);
    var root := Canonical(params.rootPath);
    if root == "/" || users == [] {
      assert (set f | f in t.files && f.project !in {}) == t.files;
    } else {
      var gone := Duplicates(t.projects, root, params.config);
      forall id | id in gone ensures t.projects[id].root == root && !Stays(t.projects, root, params.config, id) {
        DuplicatesDoNotStay(t.projects, root, params.config, id);
      }
      KeysAfterRemoval(t.projects, gone, u.projects, if outcome.Done? then Some(outcome.id) else None);
    }
  }

  lemma KeysAfterRemoval(before: map<Id, Project>, gone: set<Id>, after: map<Id, Project>, written: Option<Id>)
    requires gone <= before.Keys
    requires match written
             case None => after == before - gone
             case Some(id) => id in after && after == (before - gone)[id := after[id]] && id !in gone
    ensures before.Keys - after.Keys == gone
    ensures forall id :: id in after && Some(id) != written ==> id in before && after[id] == before[id]
  {
  }

  lemma CallLeavesNoOrphans(t: Tables, uniqueRoot: bool, users: seq<string>, params: Params, newId: Id, now: int,
                            u: Tables, outcome: Outcome)
    requires newId !in t.projects && Registered(t, uniqueRoot, users, params, newId, now) == (u, outcome)
    requires NoOrphans(t)
    ensures NoOrphans(u)
  {
    OnlyDuplicatesGo(t, uniqueRoot, users, params, newId, now, u, outcome);
  }

  /** What the reported action says about the tables before the call. */
  lemma ActionMeaning(t: Tables, uniqueRoot: bool, users: seq<string>, params: Params, newId: Id, now: int,
                      u: Tables, outcome: Outcome)
    requires newId !in t.projects && Registered(t, uniqueRoot, users, params, newId, now) == (u, outcome)
    requires outcome.Done?
    ensures var recordHere := AtRoot(t.projects, Canonical(params.rootPath)) != {};
            var live := params.config.ConfigId? && params.config.id in t.projects;
            match outcome.action
            case Created => !recordHere && params.config.NoConfig? && outcome.id == newId
            case CreatedStaleConfig => !recordHere && params.config.ConfigId? && !live && outcome.id == newId
            case Moved => !recordHere && live && outcome.id == params.config.id
            case ReusedStaleConfig => recordHere && params.config.ConfigId? && !live
            case Reused => recordHere && (params.config.NoConfig? || (live && outcome.id == params.config.id))
  {
    var root := Canonical(params.rootPath);
    if params.config.ConfigId? {
      ConfigSurvives(t, root, params.config);
    }
    DecisionOf(Reconciled(t, root, params.config), RecordAt(t.projects, root, params.config), uniqueRoot, params.config,
               Project(users[0], params.name, params.slug, root, now), newId,
               |Duplicates(t.projects, root, params.config)|, outcome);
  }

  lemma DecisionOf(u: Tables, here: Option<Id>, uniqueRoot: bool, config: Config, p: Project, newId: Id, removed: nat,
                   outcome: Outcome)
    requires Decided(u, here, uniqueRoot, config, p, newId, removed).1 == outcome && outcome.Done?
    ensures !config.Malformed?
    ensures if outcome.action in {Created, CreatedStaleConfig}
            then Decide(u.projects, here, config) == Create(outcome.action) && outcome.id == newId
            else Decide(u.projects, here, config) == Update(outcome.id, outcome.action)
  {
  }

  /** Reconciling never removes the project that config.json names. */
  lemma ConfigSurvives(t: Tables, root: string, config: Config)
    requires config.ConfigId?
    ensures config.id in Reconciled(t, root, config).projects <==> config.id in t.projects
  {
    if AtRoot(t.projects, root) != {} {
      assert Stays(t.projects, root, config, Winner(t.projects, root, config));
    }
  }

  /** On clean tables a statement is refused only for a slug that another project of the owner has. */
  lemma RefusedIff(t: Tables, users: seq<string>, params: Params, newId: Id, now: int)
    requires CleanRoots(t.projects) && newId !in t.projects
    requires Canonical(params.rootPath) != "/" && users != [] && !params.config.Malformed?
    ensures var root := Canonical(params.rootPath);
            var target := if AtRoot(t.projects, root) != {} then Winner(t.projects, root, params.config)
                          else if params.config.ConfigId? && params.config.id in t.projects then params.config.id
                          else newId;
            var outcome := Registered(t, true, users, params, newId, now).1;
            outcome != Rejected(IdentityConflict) ==>
            (outcome == Rejected(StatementRefused) <==> SlugTaken(t.projects, users[0], params.slug, target))
  {
    var root := Canonical(params.rootPath);
    CleanNeedsNoReconciling(t, root, params.config);
  }

  ghost predicate SlugTaken(projects: map<Id, Project>, owner: string, slug: string, self: Id) {
    exists o :: o in projects && o != self && projects[o].owner == owner && projects[o].slug == slug
  }

  /** Of several records at the root the call keeps, and answers, the one config.json names, otherwise the newest. */
  lemma AnswerIsTheOneThatStays(t: Tables, uniqueRoot: bool, users: seq<string>, params: Params, newId: Id, now: int,
                                u: Tables, outcome: Outcome)
    requires newId !in t.projects && Registered(t, uniqueRoot, users, params, newId, now) == (u, outcome)
    requires outcome.Done? && AtRoot(t.projects, Canonical(params.rootPath)) != {}
    ensures Stays(t.projects, Canonical(params.rootPath), params.config, outcome.id)
    ensures outcome.duplicatesRemoved == |AtRoot(t.projects, Canonical(params.rootPath))| - 1
  {
    var root := Canonical(params.rootPath);
    Shape(t, uniqueRoot, users, params, newId, now, u, outcome);
    var w := Winner(t.projects, root, params.config);
    OnlyOneStays(t.projects, root, params.config, w);
    assert w in AtRoot(Reconciled(t, root, params.config).projects, root);
  }

  /** A rejected call leaves the tables as they were unless there were duplicates to remove on the way. */
  lemma RejectionKeepsTables(t: Tables, uniqueRoot: bool, users: seq<string>, params: Params, newId: Id, now: int)
    requires Registered(t, uniqueRoot, users, params, newId, now).1.Rejected?
    ensures var root := Canonical(params.rootPath);
            Registered(t, uniqueRoot, users, params, newId, now).0 == t <==>
            root == "/" || users == [] || |AtRoot(t.projects, root)| <= 1
  {
    var root := Canonical(params.rootPath);
    if root != "/" && users != [] {
      ReconciledIsSame(t, root, params.config);
    }
  }

  lemma ReconciledIsSame(t: Tables, root: string, config: Config)
    ensures Reconciled(t, root, config) == t <==> |AtRoot(t.projects, root)| <= 1
  {
    var gone := Duplicates(t.projects, root, config);
    if AtRoot(t.projects, root) != {} {
      var w := Winner(t.projects, root, config);
      OnlyOneStays(t.projects, root, config, w);
    }
    if gone == {} {
      assert t.projects - gone == t.projects;
      assert (set f | f in t.files && f.project !in gone) == t.files;
    } else {
      var id :| id in gone;
      assert id in t.projects && id !in t.projects - gone;
    }
  }

  /** A successful call leaves exactly one project at its root, whatever was there before. */
  lemma AloneAtRoot(t: Tables, uniqueRoot: bool, users: seq<string>, params: Params, newId: Id, now: int,
                    u: Tables, outcome: Outcome)
    requires newId !in t.projects && Registered(t, uniqueRoot, users, params, newId, now) == (u, outcome)
    requires outcome.Done?
    ensures AtRoot(u.projects, Canonical(params.rootPath)) == {outcome.id}
    ensures u.projects[outcome.id] == Project(users[0], params.name, params.slug, Canonical(params.rootPath), now)
    ensures !Refused(u.projects, uniqueRoot, outcome.id, u.projects[outcome.id])
  {
    var root := Canonical(params.rootPath);
    Shape(t, uniqueRoot, users, params, newId, now, u, outcome);
    var r, p := Reconciled(t, root, params.config), u.projects[outcome.id];
    AloneAfterWrite(r.projects, outcome.id, p);
    StillAccepted(r.projects, uniqueRoot, outcome.id, p);
  }

  lemma StillAccepted(projects: map<Id, Project>, uniqueRoot: bool, id: Id, p: Project)
    requires !Refused(projects, uniqueRoot, id, p)
    ensures !Refused(projects[id := p], uniqueRoot, id, p)
  {
  }

  lemma ReconcilingOne(t: Tables, root: string, config: Config, id: Id)
    requires AtRoot(t.projects, root) == {id}
    ensures Reconciled(t, root, config) == t && Duplicates(t.projects, root, config) == {}
    ensures RecordAt(t.projects, root, config) == Some(id)
  {
    assert Winner(t.projects, root, config) == id;
    assert Duplicates(t.projects, root, config) == {};
    assert t.projects - {} == t.projects;
    assert (set f | f in t.files && f.project !in {}) == t.files;
  }

  /** Repeating a successful call answers with the same id, removes nothing and only moves `updated_at`. */
  lemma RepeatedCall(t: Tables, uniqueRoot: bool, users: seq<string>, params: Params, newId: Id, now: int,
                     u: Tables, first: Outcome, newId2: Id, now2: int)
    requires newId !in t.projects && Registered(t, uniqueRoot, users, params, newId, now) == (u, first)
    requires first.Done?
    ensures first.id in u.projects
    ensures var again := Registered(u, uniqueRoot, users, params, newId2, now2);
            && again.0 == u.(projects := u.projects[first.id := u.projects[first.id].(updatedAt := now2)])
            && again.1 in {Done(first.id, Reused, 0), Done(first.id, ReusedStaleConfig, 0)}
  {
    var root := Canonical(params.rootPath);
    Shape(t, uniqueRoot, users, params, newId, now, u, first);
    AloneAtRoot(t, uniqueRoot, users, params, newId, now, u, first);
    ReconcilingOne(u, root, params.config, first.id);
    assert first.id in AtRoot(u.projects, root);
    NoConflictAlone(t, uniqueRoot, users, params, newId, now, u, first);
    var action := if params.config.ConfigId? && params.config.id !in u.projects then ReusedStaleConfig else Reused;
    assert Decide(u.projects, Some(first.id), params.config) == Update(first.id, action);
    var p := Project(users[0], params.name, params.slug, root, now2);
    assert !Refused(u.projects, uniqueRoot, first.id, p);
    assert Written(u, uniqueRoot, first.id, p, action, 0) ==
           (u.(projects := u.projects[first.id := p]), Done(first.id, action, 0));
  }

  /** After a success the config's project, if it exists, is the one at the root. */
  lemma NoConflictAlone(t: Tables, uniqueRoot: bool, users: seq<string>, params: Params, newId: Id, now: int,
                        u: Tables, first: Outcome)
    requires newId !in t.projects && Registered(t, uniqueRoot, users, params, newId, now) == (u, first)
    requires first.Done?
    ensures !params.config.Malformed?
    ensures params.config.ConfigId? && params.config.id in u.projects ==> params.config.id == first.id
  {
    var root := Canonical(params.rootPath);
    var r := Reconciled(t, root, params.config);
    Shape(t, uniqueRoot, users, params, newId, now, u, first);
    DecisionOf(r, RecordAt(t.projects, root, params.config), uniqueRoot, params.config,
               Project(users[0], params.name, params.slug, root, now), newId,
               |Duplicates(t.projects, root, params.config)|, first);
  }

  // ---- Exactly when a call succeeds ----

  /** config.json names a live project of another root while this root has a record. */
  ghost predicate Conflicting(projects: map<Id, Project>, root: string, config: Config) {
    && AtRoot(projects, root) != {}
    && config.ConfigId? && config.id in projects && projects[config.id].root != root
  }

  /** The row a call writes: the one that stays at the root, else the one config.json names, else a new one. */
  ghost predicate IsTarget(projects: map<Id, Project>, root: string, config: Config, newId: Id, id: Id) {
    if AtRoot(projects, root) != {} then Stays(projects, root, config, id)
    else if config.ConfigId? && config.id in projects then id == config.id
    else id == newId
  }

  /** No row that stays keeps the unique indexes from holding the data. */
  ghost predicate Admitted(projects: map<Id, Project>, uniqueRoot: bool, root: string, config: Config, id: Id,
                           p: Project)
  {
    forall o :: o in projects && o != id && (projects[o].root != root || Stays(projects, root, config, o)) ==>
      !(projects[o].owner == p.owner && projects[o].slug == p.slug) && !(uniqueRoot && projects[o].root == p.root)
  }

  /**
   * The outcome of a call, read off the tables before it: each error exactly in its own
   * case, and success, with the target's id, in all that is left.
   */
  lemma OutcomeIff(t: Tables, uniqueRoot: bool, users: seq<string>, params: Params, newId: Id, now: int, target: Id)
    requires newId !in t.projects
    requires IsTarget(t.projects, Canonical(params.rootPath), params.config, newId, target)
    ensures var root, config := Canonical(params.rootPath), params.config;
            var outcome := Registered(t, uniqueRoot, users, params, newId, now).1;
            if root == "/" then outcome == Rejected(FilesystemRoot)
            else if users == [] then outcome == Rejected(NoProfile)
            else if config.Malformed? then outcome == Rejected(InvalidProjectId)
            else if Conflicting(t.projects, root, config) then outcome == Rejected(IdentityConflict)
            else if Admitted(t.projects, uniqueRoot, root, config, target,
                             Project(users[0], params.name, params.slug, root, now))
            then outcome.Done? && outcome.id == target
            else outcome == Rejected(StatementRefused)
  {
    hide Canonical;
    var root, config := Canonical(params.rootPath), params.config;
    if root != "/" && users != [] && !config.Malformed? {
      var p := Project(users[0], params.name, params.slug, root, now);
      var r, here := Reconciled(t, root, config), RecordAt(t.projects, root, config);
      TargetDecided(t, root, config, newId, target);
      if !Conflicting(t.projects, root, config) {
        AdmittedIff(t, uniqueRoot, root, config, target, p);
        DecidedOutcome(r, here, uniqueRoot, config, p, newId, |Duplicates(t.projects, root, config)|, target);
      }
    }
  }

  lemma TargetDecided(t: Tables, root: string, config: Config, newId: Id, target: Id)
    requires newId !in t.projects && IsTarget(t.projects, root, config, newId, target)
    ensures var decision := Decide(Reconciled(t, root, config).projects, RecordAt(t.projects, root, config), config);
            if Conflicting(t.projects, root, config) then decision == Conflict
            else (decision.Update? && decision.id == target) || (decision.Create? && newId == target)
  {
    if config.ConfigId? {
      ConfigSurvives(t, root, config);
    }
    if AtRoot(t.projects, root) != {} {
      OnlyOneStays(t.projects, root, config, target);
    }
  }

  lemma DecidedOutcome(r: Tables, here: Option<Id>, uniqueRoot: bool, config: Config, p: Project, newId: Id,
                       removed: nat, target: Id)
    requires !config.Malformed?
    requires var decision := Decide(r.projects, here, config);
             (decision.Update? && decision.id == target) || (decision.Create? && newId == target)
    ensures var outcome := Decided(r, here, uniqueRoot, config, p, newId, removed).1;
            if Refused(r.projects, uniqueRoot, target, p) then outcome == Rejected(StatementRefused)
            else outcome.Done? && outcome.id == target
  {
    hide Decide, Refused;
  }

  /** The rows that stay are the rows of the reconciled tables. */
  lemma StayingRows(t: Tables, root: string, config: Config, o: Id)
    ensures var r := Reconciled(t, root, config).projects;
            && (o in r <==> o in t.projects && (t.projects[o].root != root || Stays(t.projects, root, config, o)))
            && (o in r ==> r[o] == t.projects[o])
  {
    DuplicatesDoNotStay(t.projects, root, config, o);
  }

  lemma AdmittedIff(t: Tables, uniqueRoot: bool, root: string, config: Config, target: Id, p: Project)
    ensures Refused(Reconciled(t, root, config).projects, uniqueRoot, target, p) <==>
            !Admitted(t.projects, uniqueRoot, root, config, target, p)
  {
    var r := Reconciled(t, root, config).projects;
    forall o
      ensures o in r <==> o in t.projects && (t.projects[o].root != root || Stays(t.projects, root, config, o))
      ensures o in r ==> r[o] == t.projects[o]
    {
      StayingRows(t, root, config, o);
    }
    hide Stays, Reconciled;
  }

  /** Which record stays: the one config.json names, else the first in id order of the most recently updated. */
  lemma StaysIff(projects: map<Id, Project>, root: string, config: Config, id: Id)
    ensures Stays(projects, root, config, id) <==>
      && id in projects && projects[id].root == root
      && (config.ConfigId? && config.id in projects && projects[config.id].root == root ==> id == config.id)
      && (!(config.ConfigId? && config.id in projects && projects[config.id].root == root) ==>
            forall o :: o in projects && projects[o].root == root ==>
              projects[o].updatedAt < projects[id].updatedAt ||
              (projects[o].updatedAt == projects[id].updatedAt && id <= o))
  {
    assert forall o :: o in AtRoot(projects, root) <==> o in projects && projects[o].root == root;
  }

  /** There is always exactly one target. */
  lemma TargetExists(projects: map<Id, Project>, root: string, config: Config, newId: Id) returns (target: Id)
    ensures IsTarget(projects, root, config, newId, target)
    ensures forall id :: IsTarget(projects, root, config, newId, id) ==> id == target
  {
    if AtRoot(projects, root) != {} {
      target := Winner(projects, root, config);
      forall id | Stays(projects, root, config, id) ensures id == target {
        OnlyOneStays(projects, root, config, id);
      }
    } else {
      target := if config.ConfigId? && config.id in projects then config.id else newId;
    }
  }

  /** The duplicates are the records at the root that do not stay. */
  lemma DuplicatesDoNotStay(projects: map<Id, Project>, root: string, config: Config, id: Id)
    ensures id in Duplicates(projects, root, config) <==>
            id in projects && projects[id].root == root && !Stays(projects, root, config, id)
  {
    if id in projects && projects[id].root == root {
      assert id in AtRoot(projects, root);
      if Stays(projects, root, config, id) {
        OnlyOneStays(projects, root, config, id);
      }
    }
  }

  // ---- Stopped calls ----

  /** A call that stops between any two statements orphans no file row. */
  lemma StoppedCallLeavesNoOrphans(t: Tables, users: seq<string>, params: Params, u: Tables)
    requires Stopped(t, users, params, u) && NoOrphans(t)
    ensures NoOrphans(u)
  {
  }

  /** Reconciling can be taken up again: what remains is reconciled to the same tables, and the same record stays. */
  lemma ReconcilingResumes(t: Tables, root: string, config: Config, u: Tables)
    requires Reconciling(t, root, config, u) || u == Reconciled(t, root, config)
    ensures Reconciled(u, root, config) == Reconciled(t, root, config)
    ensures RecordAt(u.projects, root, config) == RecordAt(t.projects, root, config)
  {
    if u.projects == t.projects {
      assert Reconciled(u, root, config).files == Reconciled(t, root, config).files;
    } else if AtRoot(t.projects, root) != {} {
      var w := Winner(t.projects, root, config);
      OnlyOneStays(t.projects, root, config, w);
      assert AtRoot(u.projects, root) == {w};
      ReconcilingOne(u, root, config, w);
    }
  }

  /** So any number of stopped calls in a row count as one. */
  lemma StoppedAgain(t: Tables, users: seq<string>, params: Params, u: Tables, v: Tables)
    requires Stopped(t, users, params, u) && Stopped(u, users, params, v)
    ensures Stopped(t, users, params, v)
  {
    ReconcilingResumes(t, Canonical(params.rootPath), params.config, u);
  }

  /** The same answer but for the number of duplicates this call removed itself. */
  predicate SameAnswer(a: Outcome, b: Outcome) {
    a == b || (a.Done? && b.Done? && a.id == b.id && a.action == b.action)
  }

  lemma RemovedIsOnlyReported(u: Tables, here: Option<Id>, uniqueRoot: bool, config: Config, p: Project, newId: Id,
                              m: nat, n: nat)
    ensures Decided(u, here, uniqueRoot, config, p, newId, m).0 == Decided(u, here, uniqueRoot, config, p, newId, n).0
    ensures SameAnswer(Decided(u, here, uniqueRoot, config, p, newId, m).1,
                       Decided(u, here, uniqueRoot, config, p, newId, n).1)
  {
  }

  /** Repeating a stopped call leaves the tables, and gives the answer, the repetition alone would have. */
  lemma StoppedCallRepeats(t: Tables, uniqueRoot: bool, users: seq<string>, params: Params, u: Tables,
                           newId: Id, now: int)
    requires Stopped(t, users, params, u)
    ensures var again := Registered(u, uniqueRoot, users, params, newId, now);
            var alone := Registered(t, uniqueRoot, users, params, newId, now);
            again.0 == alone.0 && SameAnswer(again.1, alone.1)
  {
    var root := Canonical(params.rootPath);
    ReconcilingResumes(t, root, params.config, u);
    RemovedIsOnlyReported(Reconciled(t, root, params.config), RecordAt(t.projects, root, params.config), uniqueRoot,
                          params.config, Project(users[0], params.name, params.slug, root, now), newId,
                          |Duplicates(u.projects, root, params.config)|, |Duplicates(t.projects, root, params.config)|);
  }

  // ---- Runs ----

  datatype Call = Call(users: seq<string>, params: Params, newId: Id, now: int)

  ghost function Apply(t: Tables, call: Call): (Tables, Outcome) {
    Registered(t, true, call.users, call.params, call.newId, call.now)
  }

  ghost function After(t: Tables, calls: seq<Call>): Tables {
    if calls == [] then t else Apply(After(t, calls[..|calls| - 1]), calls[|calls| - 1]).0
  }

  /** The store hands out ids that are not in use. */
  ghost predicate FreshIds(t: Tables, calls: seq<Call>) {
    forall k :: 0 <= k < |calls| ==> calls[k].newId !in After(t, calls[..k]).projects
  }

  lemma FreshPrefix(t: Tables, calls: seq<Call>, n: nat)
    requires n <= |calls| && FreshIds(t, calls)
    ensures FreshIds(t, calls[..n])
    ensures n < |calls| ==> calls[n].newId !in After(t, calls[..n]).projects
  {
    forall k | 0 <= k < n ensures calls[..n][k].newId !in After(t, calls[..n][..k]).projects {
      assert calls[..n][..k] == calls[..k];
    }
  }

  /** Every state of every run that starts with clean roots has clean roots, and no orphaned files if it had none. */
  lemma {:induction false} RunsStayClean(t: Tables, calls: seq<Call>)
    requires CleanRoots(t.projects) && FreshIds(t, calls)
    ensures CleanRoots(After(t, calls).projects)
    ensures NoOrphans(t) ==> NoOrphans(After(t, calls))
  {
    if calls != [] {
      var n := |calls| - 1;
      var init, last := calls[..n], calls[n];
      FreshPrefix(t, calls, n);
      RunsStayClean(t, init);
      var before := After(t, init);
      var (u, outcome) := Apply(before, last);
      CallKeepsRootsClean(before, last.users, last.params, last.newId, last.now, u, outcome);
      if NoOrphans(t) {
        CallLeavesNoOrphans(before, true, last.users, last.params, last.newId, last.now, u, outcome);
      }
    }
  }

  /** In particular every run that starts with the tables v005 leaves. */
  lemma RunsKeepRootsClean(t: Tables, calls: seq<Call>)
    requires FreshIds(Migration.Repaired(t), calls)
    ensures CleanRoots(After(Migration.Repaired(t), calls).projects)
    ensures NoOrphans(t) ==> NoOrphans(After(Migration.Repaired(t), calls))
  {
    Migration.RepairedIsClean(t);
    RunsStayClean(Migration.Repaired(t), calls);
  }

  /** Every call of every such run: success leaves its project alone at its root, failure leaves no trace. */
  lemma EveryCallOfARun(t: Tables, calls: seq<Call>, k: nat)
    requires FreshIds(Migration.Repaired(t), calls) && k < |calls|
    ensures var before := After(Migration.Repaired(t), calls[..k]);
            var (after, outcome) := Apply(before, calls[k]);
            && after == After(Migration.Repaired(t), calls[..k + 1])
            && (outcome.Rejected? ==> after == before)
            && (outcome.Done? ==>
                  && AtRoot(after.projects, Canonical(calls[k].params.rootPath)) == {outcome.id}
                  && after.files == before.files)
            && Apply(before, calls[k]) ==
               Registered(before, false, calls[k].users, calls[k].params, calls[k].newId, calls[k].now)
  {
    var c := calls[k];
    FreshPrefix(Migration.Repaired(t), calls, k);
    RunsKeepRootsClean(t, calls[..k]);
    assert calls[..k + 1][..k] == calls[..k];
    var before := After(Migration.Repaired(t), calls[..k]);
    var (u, outcome) := Apply(before, c);
    CallKeepsRootsClean(before, c.users, c.params, c.newId, c.now, u, outcome);
    RootIndexNeverRefuses(before, c.users, c.params, c.newId, c.now);
  }
}
