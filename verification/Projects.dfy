/** The two tables that registration and the repair migration work on. */
module Projects {
  import opened RootPath

  /** A record key, as its rank in the store's key order. */
  type Id = nat

  datatype Project = Project(owner: string, name: string, slug: string, root: string, updatedAt: int)

  datatype FileRow = FileRow(project: Id, path: string)

  datatype Tables = Tables(projects: map<Id, Project>, files: set<FileRow>)

  /** A row of `SELECT id, root_path, updated_at FROM projects`. */
  datatype Record = Record(id: Id, root: string, updatedAt: int)

  function RecordOf(projects: map<Id, Project>, id: Id): Record
    requires id in projects
  {
    Record(id, projects[id].root, projects[id].updatedAt)
  }

  lemma {:induction false} LeastExists(ids: set<Id>)
    requires ids != {}
    ensures exists m :: m in ids && forall x :: x in ids ==> m <= x
  {
    var any :| any in ids;
    if ids != {any} {
      var rest := ids - {any};
      LeastExists(rest);
      var m :| m in rest && forall x :: x in rest ==> m <= x;
      var least := if any <= m then any else m;
      assert forall x :: x in ids ==> x == any || x in rest;
      assert least in ids && forall x :: x in ids ==> least <= x;
    }
  }

  function Least(ids: set<Id>): (m: Id)
    requires ids != {}
    ensures m in ids && forall x :: x in ids ==> m <= x
  {
    LeastExists(ids);
    var m :| m in ids && forall x :: x in ids ==> m <= x;
    m
  }

  /** The ids in key order. */
  function Ascending(ids: set<Id>): seq<Id> {
    if ids == {} then [] else [Least(ids)] + Ascending(ids - {Least(ids)})
  }

  lemma {:induction false} AscendingLists(ids: set<Id>)
    ensures forall x :: x in Ascending(ids) <==> x in ids
    ensures |Ascending(ids)| == |ids|
  {
    if ids != {} {
      AscendingLists(ids - {Least(ids)});
    }
  }

  lemma {:induction false} AscendingOrders(ids: set<Id>)
    ensures forall i, j :: 0 <= i < j < |Ascending(ids)| ==> Ascending(ids)[i] < Ascending(ids)[j]
  {
    if ids != {} {
      var rest := Ascending(ids - {Least(ids)});
      AscendingOrders(ids - {Least(ids)});
      AscendingLists(ids - {Least(ids)});
      assert forall i :: 0 <= i < |rest| ==> rest[i] in rest;
    }
  }

  predicate InIdOrder(records: seq<Record>) {
    forall i, j :: 0 <= i < j < |records| ==> records[i].id < records[j].id
  }

  /** `records` lists the records of `ids` in id order. */
  ghost predicate Rows(projects: map<Id, Project>, ids: set<Id>, records: seq<Record>) {
    && ids <= projects.Keys
    && InIdOrder(records)
    && forall r :: r in records <==> r.id in ids && r == RecordOf(projects, r.id)
  }

  /** `SELECT id, root_path, updated_at FROM projects`, restricted to `ids`, in id order. */
  function Select(projects: map<Id, Project>, ids: set<Id>): (records: seq<Record>)
    requires ids <= projects.Keys
  {
    AscendingLists(ids);
    var order := Ascending(ids);
    assert forall k :: 0 <= k < |order| ==> order[k] in order;
    seq(|order|, k requires 0 <= k < |order| => RecordOf(projects, order[k]))
  }

  lemma SelectLists(projects: map<Id, Project>, ids: set<Id>)
    requires ids <= projects.Keys
    ensures Rows(projects, ids, Select(projects, ids)) && |Select(projects, ids)| == |ids|
  {
    AscendingLists(ids);
    AscendingOrders(ids);
    var order, records := Ascending(ids), Select(projects, ids);
    forall r ensures r in records <==> r.id in ids && r == RecordOf(projects, r.id) {
      if r in records {
        var k :| 0 <= k < |records| && records[k] == r;
        assert order[k] in order;
      }
      if r.id in ids && r == RecordOf(projects, r.id) {
        var k :| 0 <= k < |order| && order[k] == r.id;
        assert records[k] == r;
      }
    }
  }

  function IdsOf(records: seq<Record>): (ids: seq<Id>)
    ensures |ids| == |records| && forall k :: 0 <= k < |records| ==> ids[k] == records[k].id
  {
    seq(|records|, k requires 0 <= k < |records| => records[k].id)
  }

  ghost predicate Older(projects: map<Id, Project>, a: Id, b: Id)
    requires a in projects && b in projects
  {
    projects[a].updatedAt < projects[b].updatedAt || (projects[a].updatedAt == projects[b].updatedAt && a < b)
  }

  /** What the unique index on `root_path` promises, together with the canonical spelling. */
  ghost predicate CleanRoots(projects: map<Id, Project>) {
    && (forall id :: id in projects ==>
          Canonical(projects[id].root) == projects[id].root && projects[id].root != "/")
    && (forall a, b :: a in projects && b in projects && projects[a].root == projects[b].root ==> a == b)
  }

  /** A unique index refuses to store `p` under `id`: (owner, slug), and root path once that index exists. */
  predicate Refused(projects: map<Id, Project>, uniqueRoot: bool, id: Id, p: Project) {
    exists o :: o in projects && o != id &&
      ((projects[o].owner == p.owner && projects[o].slug == p.slug) || (uniqueRoot && projects[o].root == p.root))
  }

  /** Every file row belongs to a project. */
  ghost predicate NoOrphans(t: Tables) {
    forall f :: f in t.files ==> f.project in t.projects
  }

  /** The open database: the tables, the unique index on `root_path` and the recorded migrations. */
  class Database {
    var users: seq<string>
    var tables: Tables
    var uniqueRoot: bool
    var applied: seq<nat>

    constructor (users: seq<string>, tables: Tables)
      ensures this.users == users && this.tables == tables && !uniqueRoot && applied == []
    {
      this.users, this.tables, uniqueRoot, applied := users, tables, false, [];
    }

    /** The index exists once v005 has been recorded, and an index that exists holds. */
    ghost predicate Consistent()
      reads this
    {
      && (5 in applied ==> uniqueRoot)
      && (uniqueRoot ==> CleanRoots(tables.projects))
    }

    /** `UPDATE $id SET root_path = $canonical`. */
    method UpdateRoot(id: Id, root: string)
      requires id in tables.projects
      modifies this`tables
      ensures tables == old(tables).(projects := old(tables).projects[id := old(tables).projects[id].(root := root)])
    {
      tables := tables.(projects := tables.projects[id := tables.projects[id].(root := root)]);
    }

    /** `DELETE file_data WHERE project_id = $id`. */
    method DeleteFilesOf(id: Id)
      modifies this`tables
      ensures tables == old(tables).(files := set f | f in old(tables).files && f.project != id)
    {
      tables := tables.(files := set f | f in tables.files && f.project != id);
    }

    /** `DELETE projects WHERE id IN $ids`. */
    method DeleteProjects(ids: seq<Id>)
      modifies this`tables
      ensures tables ==
        old(tables).(projects := map id | id in old(tables).projects && id !in ids :: old(tables).projects[id])
    {
      tables := tables.(projects := map id | id in tables.projects && id !in ids :: tables.projects[id]);
    }

    /** `CREATE projects SET ...` or `UPDATE $id SET ...`; a refused statement changes nothing. */
    method Store(id: Id, p: Project) returns (stored: bool)
      modifies this`tables
      ensures stored <==> !Refused(old(tables).projects, uniqueRoot, id, p)
      ensures tables == if stored then old(tables).(projects := old(tables).projects[id := p]) else old(tables)
    {
      stored := !Refused(tables.projects, uniqueRoot, id, p);
      if stored {
        tables := tables.(projects := tables.projects[id := p]);
      }
    }
  }
}
