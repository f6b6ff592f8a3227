/** Registrations that run at the same time: the statements of any number of calls, in any order. */
module Registrations {
  import opened Options
  import opened Projects
  import opened RootPath
  import opened ProjectService

  datatype Request = Request(users: seq<string>, params: Params, now: int)

  /** How far a call has come; `since` is the number of writes when it looked for the record at its root. */
  datatype Phase =
    | Waiting
    | Selected(here: Option<Id>, since: nat)
    | Chosen(here: Option<Id>, since: nat, decision: Decision)
    | Ended(outcome: Outcome)

  /** A successful `CREATE` or `UPDATE`. */
  datatype Write = Write(call: nat, id: Id, root: string)

  datatype State = State(tables: Tables, phases: seq<Phase>, writes: seq<Write>)

  function Initial(requests: seq<Request>, start: Tables): State {
    State(start, seq(|requests|, k => Waiting), [])
  }

  /** One statement of one call; `newId` is the id a `CREATE` gets. */
  datatype Step = SelectRoot(call: nat) | SelectConfig(call: nat) | Store(call: nat, newId: Id)

  ghost predicate Enabled(requests: seq<Request>, s: State, step: Step) {
    && step.call < |requests| == |s.phases|
    && match step
       case SelectRoot(k) => s.phases[k].Waiting?
       case SelectConfig(k) => s.phases[k].Selected?
       case Store(k, newId) => s.phases[k].Chosen? && !s.phases[k].decision.Conflict? && newId !in s.tables.projects
  }

  function RootOf(r: Request): string {
    Canonical(r.params.rootPath)
  }

  function DataOf(r: Request): Project {
    Project(if r.users == [] then "" else r.users[0], r.params.name, r.params.slug, RootOf(r), r.now)
  }

  function Target(decision: Decision, newId: Id): Id {
    if decision.Update? then decision.id else newId
  }

  /** The checks before the first statement and the look for the record at the root. */
  ghost function AfterSelectRoot(r: Request, s: State): Phase {
    if RootOf(r) == "/" then Ended(Rejected(FilesystemRoot))
    else if r.users == [] then Ended(Rejected(NoProfile))
    else if r.params.config.Malformed? then Ended(Rejected(InvalidProjectId))
    else Selected(RecordAt(s.tables.projects, RootOf(r), r.params.config), |s.writes|)
  }

  ghost function AfterSelectConfig(r: Request, s: State, phase: Phase): Phase
    requires phase.Selected?
  {
    var decision := Decide(s.tables.projects, phase.here, r.params.config);
    if decision.Conflict? then Ended(Rejected(IdentityConflict)) else Chosen(phase.here, phase.since, decision)
  }

  /** There is never more than one record at a root (`RootsStayClean`), so nothing is reconciled in between. */
  ghost function Do(requests: seq<Request>, s: State, step: Step): State
    requires Enabled(requests, s, step)
  {
    var k, r := step.call, requests[step.call];
    match step
    case SelectRoot(_) => s.(phases := s.phases[k := AfterSelectRoot(r, s)])
    case SelectConfig(_) => s.(phases := s.phases[k := AfterSelectConfig(r, s, s.phases[k])])
    case Store(_, newId) =>
      var decision := s.phases[k].decision;
      var id := Target(decision, newId);
      if Refused(s.tables.projects, true, id, DataOf(r)) then
        s.(phases := s.phases[k := Ended(Rejected(StatementRefused))])
      else
        State(s.tables.(projects := s.tables.projects[id := DataOf(r)]),
              s.phases[k := Ended(Done(id, decision.action, 0))],
              s.writes + [Write(k, id, RootOf(r))])
  }

  /** The state after the steps; none when a step was not enabled. */
  ghost function After(requests: seq<Request>, start: Tables, steps: seq<Step>): Option<State> {
    if steps == [] then Some(Initial(requests, start))
    else
      match After(requests, start, steps[..|steps| - 1])
      case None => None
      case Some(s) =>
        if Enabled(requests, s, steps[|steps| - 1]) then Some(Do(requests, s, steps[|steps| - 1])) else None
  }

  // ---- The invariant ----

  /** A write since then put this project at this root. */
  ghost predicate TakenSince(writes: seq<Write>, since: nat, id: Id, root: string) {
    exists i :: since <= i < |writes| && writes[i].id == id && writes[i].root == root
  }

  /** Whoever is at the root of the call was found there or has been put there since. */
  ghost predicate Accounted(s: State, here: Option<Id>, since: nat, root: string) {
    && since <= |s.writes|
    && (here.Some? ==> here.value in s.tables.projects)
    && forall id :: id in AtRoot(s.tables.projects, root) ==> here == Some(id) || TakenSince(s.writes, since, id, root)
  }

  ghost predicate PhaseInv(s: State, r: Request, phase: Phase) {
    match phase
    case Waiting => true
    case Selected(here, since) => RootOf(r) != "/" && Accounted(s, here, since, RootOf(r))
    case Chosen(here, since, decision) =>
      && RootOf(r) != "/" && Accounted(s, here, since, RootOf(r))
      && (decision.Update? ==> decision.id in s.tables.projects)
      && (here.Some? && !decision.Conflict? ==> decision.Update? && decision.id == here.value)
    case Ended(_) => true
  }

  ghost predicate Inv(requests: seq<Request>, start: Tables, s: State) {
    && |s.phases| == |requests|
    && CleanRoots(s.tables.projects)
    && s.tables.files == start.files && start.projects.Keys <= s.tables.projects.Keys
    && (forall k :: 0 <= k < |s.phases| ==> PhaseInv(s, requests[k], s.phases[k]))
    && (forall i :: 0 <= i < |s.writes| ==> s.writes[i].call < |s.phases| && s.phases[s.writes[i].call].Ended?)
  }

  /** A write is accounted for by itself, and what was accounted for stays so. */
  lemma WriteIsAccounted(s: State, t: State, w: Write, p: Project, here: Option<Id>, since: nat, root: string)
    requires Accounted(s, here, since, root) && p.root == w.root
    requires t.writes == s.writes + [w] && t.tables == s.tables.(projects := s.tables.projects[w.id := p])
    ensures Accounted(t, here, since, root)
  {
    forall id | id in AtRoot(t.tables.projects, root)
      ensures here == Some(id) || TakenSince(t.writes, since, id, root)
    {
      if id == w.id {
        assert t.writes[|s.writes|] == w;
      } else {
        assert id in AtRoot(s.tables.projects, root);
        if TakenSince(s.writes, since, id, root) {
          var i :| since <= i < |s.writes| && s.writes[i].id == id && s.writes[i].root == root;
          assert t.writes[i] == s.writes[i];
        }
      }
    }
  }

  lemma FoundIsAccounted(s: State, root: string, config: Config)
    requires CleanRoots(s.tables.projects)
    ensures Accounted(s, RecordAt(s.tables.projects, root, config), |s.writes|, root)
  {
    CleanNeedsNoReconciling(s.tables, root, config);
  }

  lemma SelectKeepsInv(requests: seq<Request>, start: Tables, s: State, step: Step)
    requires Inv(requests, start, s) && Enabled(requests, s, step) && !step.Store?
    ensures Inv(requests, start, Do(requests, s, step))
  {
    hide Canonical;
    var t, k := Do(requests, s, step), step.call;
    FoundIsAccounted(s, RootOf(requests[k]), requests[k].params.config);
    assert PhaseInv(s, requests[k], s.phases[k]);
    forall j | 0 <= j < |t.phases| ensures PhaseInv(t, requests[j], t.phases[j]) {
      assert PhaseInv(s, requests[j], t.phases[j]);
    }
  }

  lemma StoreKeepsInv(requests: seq<Request>, start: Tables, s: State, step: Step)
    requires Inv(requests, start, s) && Enabled(requests, s, step) && step.Store?
    ensures Inv(requests, start, Do(requests, s, step))
  {
    hide Canonical, Refused;
    var t, k, r := Do(requests, s, step), step.call, requests[step.call];
    assert PhaseInv(s, r, s.phases[k]);
    var id := Target(s.phases[k].decision, step.newId);
    if Refused(s.tables.projects, true, id, DataOf(r)) {
      forall j | 0 <= j < |t.phases| ensures PhaseInv(t, requests[j], t.phases[j]) {
        assert PhaseInv(s, requests[j], s.phases[j]);
      }
    } else {
      StoredKeepsRootsClean(s.tables.projects, id, r);
      forall j | 0 <= j < |t.phases| ensures PhaseInv(t, requests[j], t.phases[j]) {
        if j != k {
          PhaseInvStays(s, t, Write(k, id, RootOf(r)), DataOf(r), requests[j], s.phases[j]);
        }
      }
    }
  }

  lemma PhaseInvStays(s: State, t: State, w: Write, p: Project, r: Request, phase: Phase)
    requires PhaseInv(s, r, phase) && p.root == w.root
    requires t.writes == s.writes + [w] && t.tables == s.tables.(projects := s.tables.projects[w.id := p])
    ensures PhaseInv(t, r, phase)
  {
    hide Canonical;
    if phase.Selected? || phase.Chosen? {
      WriteIsAccounted(s, t, w, p, phase.here, phase.since, RootOf(r));
    }
  }

  /** A statement that the root index accepts leaves its project alone at its root. */
  lemma StoredKeepsRootsClean(projects: map<Id, Project>, id: Id, r: Request)
    requires CleanRoots(projects) && RootOf(r) != "/" && !Refused(projects, true, id, DataOf(r))
    ensures CleanRoots(projects[id := DataOf(r)]) && AtRoot(projects[id := DataOf(r)], RootOf(r)) == {id}
  {
    hide Canonical;
    CanonicalIsIdempotent(r.params.rootPath);
    AloneAfterWrite(projects, id, DataOf(r));
  }

  lemma {:induction false} RunsKeepInv(requests: seq<Request>, start: Tables, steps: seq<Step>)
    requires CleanRoots(start.projects) && After(requests, start, steps).Some?
    ensures Inv(requests, start, After(requests, start, steps).value)
  {
    if steps != [] {
      var s, step := After(requests, start, steps[..|steps| - 1]).value, steps[|steps| - 1];
      RunsKeepInv(requests, start, steps[..|steps| - 1]);
      if step.Store? {
        StoreKeepsInv(requests, start, s, step);
      } else {
        SelectKeepsInv(requests, start, s, step);
      }
    }
  }

  // ---- Every interleaving ----

  /**
   * In every interleaving of calls on clean tables the roots stay clean, so that a call
   * never finds two records at its root, no row is deleted and no file row touched.
   */
  lemma RootsStayClean(requests: seq<Request>, start: Tables, steps: seq<Step>, root: string)
    requires CleanRoots(start.projects) && After(requests, start, steps).Some?
    ensures var t := After(requests, start, steps).value.tables;
            && CleanRoots(t.projects)
            && |AtRoot(t.projects, root)| <= 1
            && start.projects.Keys <= t.projects.Keys && t.files == start.files
  {
    RunsKeepInv(requests, start, steps);
    var t := After(requests, start, steps).value.tables;
    CleanNeedsNoReconciling(t, root, NoConfig);
    if id :| id in AtRoot(t.projects, root) {
      assert AtRoot(t.projects, root) == {id};
    }
  }

  /** The root index refuses to put this project at this root. */
  ghost predicate RootTaken(projects: map<Id, Project>, id: Id, root: string) {
    exists o :: o in AtRoot(projects, root) && o != id
  }

  /** Write `i` of another call since this one looked put another project at this root, where it still is. */
  ghost predicate TookIt(s: State, k: nat, since: nat, id: Id, root: string, i: nat) {
    && since <= i < |s.writes|
    && s.writes[i].call != k && s.writes[i].id != id && s.writes[i].root == root
    && s.writes[i].id in AtRoot(s.tables.projects, root)
  }

  /**
   * The root index refuses a write exactly when another call has taken the root between
   * the look for a record there and the write.
   */
  lemma RootTakenIff(requests: seq<Request>, start: Tables, steps: seq<Step>, s: State, k: nat, newId: Id)
    requires CleanRoots(start.projects) && After(requests, start, steps) == Some(s)
    requires Enabled(requests, s, Store(k, newId))
    ensures var id, root, since := Target(s.phases[k].decision, newId), RootOf(requests[k]), s.phases[k].since;
            RootTaken(s.tables.projects, id, root) <==> exists i :: TookIt(s, k, since, id, root, i)
  {
    hide Canonical;
    RunsKeepInv(requests, start, steps);
    var id, root, since := Target(s.phases[k].decision, newId), RootOf(requests[k]), s.phases[k].since;
    assert PhaseInv(s, requests[k], s.phases[k]);
    if RootTaken(s.tables.projects, id, root) {
      var o :| o in AtRoot(s.tables.projects, root) && o != id;
      assert TakenSince(s.writes, since, o, root);
      var i :| since <= i < |s.writes| && s.writes[i].id == o && s.writes[i].root == root;
      assert TookIt(s, k, since, id, root, i);
    }
  }

  /** A write goes through iff the root index and the slug index admit it, and then its project is alone at its root. */
  lemma StoreOutcome(requests: seq<Request>, start: Tables, steps: seq<Step>, s: State, k: nat, newId: Id)
    requires CleanRoots(start.projects) && After(requests, start, steps) == Some(s)
    requires Enabled(requests, s, Store(k, newId))
    ensures var r, id, t := requests[k], Target(s.phases[k].decision, newId), Do(requests, s, Store(k, newId));
            && t.phases[k].Ended?
            && (t.phases[k].outcome.Done? <==>
                  && !RootTaken(s.tables.projects, id, RootOf(r))
                  && !SlugTaken(s.tables.projects, DataOf(r).owner, DataOf(r).slug, id))
            && (t.phases[k].outcome.Done? ==>
                  && t.phases[k].outcome.id == id && AtRoot(t.tables.projects, RootOf(r)) == {id}
                  && t.tables == s.tables.(projects := s.tables.projects[id := DataOf(r)]))
            && (t.phases[k].outcome.Rejected? ==> t.tables == s.tables)
  {
    hide Canonical;
    RunsKeepInv(requests, start, steps);
    var r, id := requests[k], Target(s.phases[k].decision, newId);
    assert PhaseInv(s, r, s.phases[k]);
    RefusedByEither(s.tables.projects, id, DataOf(r));
    if !Refused(s.tables.projects, true, id, DataOf(r)) {
      StoredKeepsRootsClean(s.tables.projects, id, r);
    }
  }

  lemma RefusedByEither(projects: map<Id, Project>, id: Id, p: Project)
    ensures Refused(projects, true, id, p) <==>
            RootTaken(projects, id, p.root) || SlugTaken(projects, p.owner, p.slug, id)
  {
    if RootTaken(projects, id, p.root) {
      var o :| o in AtRoot(projects, p.root) && o != id;
      assert projects[o].root == p.root;
    }
    if o :| o in projects && o != id && projects[o].root == p.root {
      assert o in AtRoot(projects, p.root);
    }
  }

  /** What a call takes from the look at its root: the record there, unless it stops before. */
  lemma SelectRootMeaning(requests: seq<Request>, s: State, k: nat)
    requires Enabled(requests, s, SelectRoot(k))
    ensures var r, phase := requests[k], Do(requests, s, SelectRoot(k)).phases[k];
            if RootOf(r) == "/" then phase == Ended(Rejected(FilesystemRoot))
            else if r.users == [] then phase == Ended(Rejected(NoProfile))
            else if r.params.config.Malformed? then phase == Ended(Rejected(InvalidProjectId))
            else
              && phase.Selected? && phase.since == |s.writes|
              && match phase.here
                 case None => AtRoot(s.tables.projects, RootOf(r)) == {}
                 case Some(id) => Stays(s.tables.projects, RootOf(r), r.params.config, id)
  {
    hide Canonical;
  }

  /** And what it decides to write: the record found, else the one config.json names, else a new one. */
  lemma SelectConfigMeaning(requests: seq<Request>, s: State, k: nat, newId: Id)
    requires Enabled(requests, s, SelectConfig(k))
    ensures var config, here := requests[k].params.config, s.phases[k].here;
            var phase := Do(requests, s, SelectConfig(k)).phases[k];
            var live := config.ConfigId? && config.id in s.tables.projects;
            if live && here.Some? && here.value != config.id then phase == Ended(Rejected(IdentityConflict))
            else
              && phase.Chosen? && phase.here == here && phase.since == s.phases[k].since
              && Target(phase.decision, newId) ==
                 if here.Some? then here.value else if live then config.id else newId
  {
    hide Canonical;
  }

  // ---- A call on its own ----

  /** The statements of one call with none of another in between. */
  ghost function Undisturbed(requests: seq<Request>, s: State, k: nat, newId: Id): State
    requires Enabled(requests, s, SelectRoot(k)) && newId !in s.tables.projects
  {
    var found := Do(requests, s, SelectRoot(k));
    if found.phases[k].Ended? then found
    else
      var chosen := Do(requests, found, SelectConfig(k));
      if chosen.phases[k].Ended? then chosen else Do(requests, chosen, Store(k, newId))
  }

  /** Undisturbed, a call does what the decision table says. */
  lemma UndisturbedIsRegistered(requests: seq<Request>, s: State, k: nat, newId: Id)
    requires Enabled(requests, s, SelectRoot(k)) && newId !in s.tables.projects && CleanRoots(s.tables.projects)
    ensures var r, t := requests[k], Undisturbed(requests, s, k, newId);
            && t.phases[k].Ended?
            && (t.tables, t.phases[k].outcome) == Registered(s.tables, true, r.users, r.params, newId, r.now)
  {
    hide Canonical;
    CleanNeedsNoReconciling(s.tables, RootOf(requests[k]), requests[k].params.config);
  }

  // ---- The root index is needed ----

  lemma Extend(requests: seq<Request>, start: Tables, steps: seq<Step>, s: State, step: Step)
    requires After(requests, start, steps) == Some(s) && Enabled(requests, s, step)
    ensures After(requests, start, steps + [step]) == Some(Do(requests, s, step))
  {
    assert (steps + [step])[..|steps|] == steps;
  }

  /** Two first registrations of a root that both look before either writes: the second write is refused. */
  lemma SecondIsRefused(requests: seq<Request>) returns (steps: seq<Step>, s: State)
    requires |requests| == 2 && requests[0].users != [] && requests[1].users != []
    requires requests[0].params.config.NoConfig? && requests[1].params.config.NoConfig?
    requires RootOf(requests[0]) == RootOf(requests[1]) != "/"
    ensures After(requests, Tables(map[], {}), steps) == Some(s)
    ensures s.phases == [Ended(Done(0, Created, 0)), Ended(Rejected(StatementRefused))]
    ensures s.tables.projects == map[0 := DataOf(requests[0])]
  {
    hide Canonical;
    var start := Tables(map[], {});
    steps, s := [], Initial(requests, start);
    var order := [SelectRoot(0), SelectRoot(1), SelectConfig(0), SelectConfig(1), Store(0, 0), Store(1, 1)];
    assert AtRoot(map[], RootOf(requests[0])) == {};
    Extend(requests, start, steps, s, order[0]);
    steps, s := steps + [order[0]], Do(requests, s, order[0]);
    Extend(requests, start, steps, s, order[1]);
    steps, s := steps + [order[1]], Do(requests, s, order[1]);
    assert s.phases == [Selected(None, 0), Selected(None, 0)];
    Extend(requests, start, steps, s, order[2]);
    steps, s := steps + [order[2]], Do(requests, s, order[2]);
    Extend(requests, start, steps, s, order[3]);
    steps, s := steps + [order[3]], Do(requests, s, order[3]);
    assert s.phases == [Chosen(None, 0, Create(Created)), Chosen(None, 0, Create(Created))];
    Extend(requests, start, steps, s, order[4]);
    steps, s := steps + [order[4]], Do(requests, s, order[4]);
    assert s.tables.projects == map[0 := DataOf(requests[0])];
    Extend(requests, start, steps, s, order[5]);
    steps, s := steps + [order[5]], Do(requests, s, order[5]);
  }
}
