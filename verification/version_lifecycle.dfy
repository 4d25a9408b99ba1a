/** Runs of the version lifecycle: any interleaving of guarded statements, of
    publish requests (a read outside, then the transaction), of full resets
    (a read, then two unguarded deletes), and of seed publishes. */
module VersionLifecycle {
  import opened Wrappers
  import opened VersionTables

  const APPLY := "apply"

  /** What a publish request read before it opened its transaction. */
  datatype Pending = Pending(id: int, moduleID: int, version: string)

  /** The tables, the publish requests that passed their checks, and the
      versions that a full reset has seen as drafts. */
  datatype System = System(db: Tables, publishes: map<int, Pending>, resets: set<int>)

  const START := System(EMPTY, map[], {})

  /** `SeedPublish` is the publish statement by itself, as the seeding of
      bundled modules runs it: nothing is superseded. */
  datatype VersionStatement =
    | Create(moduleID: int, version: string, fields: Fields)
    | Edit(id: int, version: string, fields: Fields)
    | Match(id: int, mode: string)
    | Discard(id: int)
    | RevokeVersion(id: int)
    | SeedPublish(id: int, now: int)

  datatype ScriptStatement =
    | PutScript(id: int, name: string, script: Script)
    | MoveScript(id: int, name: string, newName: string)
    | DropScript(id: int, name: string)

  datatype ActionStatement =
    | PutAction(id: int, key: string, action: Action)
    | DropAction(id: int, key: string)

  datatype ConditionStatement =
    | PutCondition(id: int, test: Test, seqNo: int)
    | EditCondition(id: int, cond: int, test: Test)
    | DropCondition(id: int, cond: int)

  datatype Step =
    | OnVersion(row: VersionStatement)
    | OnScript(script: ScriptStatement)
    | OnAction(action: ActionStatement)
    | OnCondition(condition: ConditionStatement)
    | BeginPublish(tx: int, id: int)
    | CommitPublish(tx: int, actor: int, now: int)
    | BeginReset(id: int)
    | ResetScripts(id: int)
    | ResetActions(id: int)

  function AfterVersion(t: Tables, a: VersionStatement): Tables {
    match a
    case Create(m, version, fields) => CreateDraft(t, m, version, fields).0
    case Edit(id, version, fields) => UpdateDraft(t, id, version, fields).0
    case Match(id, mode) => SetMatchMode(t, id, mode).0
    case Discard(id) => DeleteDraft(t, id).0
    case RevokeVersion(id) => Revoke(t, id).0
    case SeedPublish(id, now) => PublishRow(t, id, None, now).0
  }

  function AfterScript(t: Tables, a: ScriptStatement): Tables {
    match a
    case PutScript(id, name, script) => UpsertScript(t, id, name, script).0
    case MoveScript(id, name, newName) => RenameScript(t, id, name, newName).0
    case DropScript(id, name) => DeleteScript(t, id, name).0
  }

  function AfterAction(t: Tables, a: ActionStatement): Tables {
    match a
    case PutAction(id, key, action) => UpsertAction(t, id, key, action).0
    case DropAction(id, key) => DeleteAction(t, id, key).0
  }

  function AfterCondition(t: Tables, a: ConditionStatement): Tables {
    match a
    case PutCondition(id, test, seqNo) => AddCondition(t, id, test, seqNo).0
    case EditCondition(id, c, test) => UpdateCondition(t, c, id, test).0
    case DropCondition(id, c) => DeleteCondition(t, c, id).0
  }

  /** The checks of `Publish` that run outside its transaction. */
  predicate MayPublish(t: Tables, id: int) {
    IsDraft(t, id) && (id, APPLY) in t.scripts
  }

  /** A commit that goes through: its request is pending, its row still a draft. */
  predicate Commits(s: System, step: Step) {
    step.CommitPublish? && step.tx in s.publishes && IsDraft(s.db, s.publishes[step.tx].id)
  }

  function Next(s: System, step: Step): System {
    match step
    case OnVersion(a) => s.(db := AfterVersion(s.db, a))
    case OnScript(a) => s.(db := AfterScript(s.db, a))
    case OnAction(a) => s.(db := AfterAction(s.db, a))
    case OnCondition(a) => s.(db := AfterCondition(s.db, a))
    case BeginPublish(tx, id) =>
      if MayPublish(s.db, id) then
        s.(publishes := s.publishes[tx := Pending(id, s.db.versions[id].moduleID, s.db.versions[id].version)])
      else s
    case CommitPublish(tx, actor, now) =>
      if tx in s.publishes then
        var p := s.publishes[tx];
        s.(db := PublishTransaction(s.db, p.id, p.moduleID, p.version, actor, now).0, publishes := s.publishes - {tx})
      else s
    case BeginReset(id) => if IsDraft(s.db, id) then s.(resets := s.resets + {id}) else s
    case ResetScripts(id) => if id in s.resets then s.(db := DeleteCustomScripts(s.db, id)) else s
    case ResetActions(id) => if id in s.resets then s.(db := DeleteCustomActions(s.db, id)) else s
  }

  function Run(s: System, steps: seq<Step>): System {
    if steps == [] then s else Next(Run(s, steps[..|steps| - 1]), steps[|steps| - 1])
  }

  // ---------------------------------------------------------------------
  // The invariant of every run
  // ---------------------------------------------------------------------

  type Versions = map<int, VersionRow>

  predicate IsPublished(vs: Versions, id: int) {
    id in vs && vs[id].state == Published
  }

  predicate Issued(vs: Versions, id: int) {
    id in vs && vs[id].state != Draft
  }

  predicate Siblings(vs: Versions, a: int, b: int) {
    a in vs && b in vs && a != b && vs[a].moduleID == vs[b].moduleID
  }

  /** The UNIQUE(module_id, version) constraint. */
  ghost predicate VersionsUnique(vs: Versions) {
    forall a, b :: Siblings(vs, a, b) ==> vs[a].version != vs[b].version
  }

  ghost predicate RowsOk(vs: Versions, nextVersion: int, publications: nat) {
    forall v :: v in vs ==>
      && v < nextVersion
      && vs[v].publishSeq <= publications
      && (vs[v].state == Draft || vs[v].state == Published ==> vs[v].supersededBy == None)
  }

  /** Child rows belong to existing versions. */
  ghost predicate ChildrenOk(t: Tables) {
    && (forall k :: k in t.scripts ==> k.0 in t.versions)
    && (forall k :: k in t.actions ==> k.0 in t.versions)
    && (forall c :: c in t.conditions ==> c < t.nextCondition && t.conditions[c].versionID in t.versions)
  }

  ghost predicate TablesOk(t: Tables) {
    && RowsOk(t.versions, t.nextVersion, t.publications)
    && VersionsUnique(t.versions)
    && ChildrenOk(t)
  }

  /** What requests and resets remember still fits the tables. */
  ghost predicate PendingOk(s: System) {
    && (forall tx :: tx in s.publishes ==> s.publishes[tx].id < s.db.nextVersion)
    && (forall tx :: tx in s.publishes && s.publishes[tx].id in s.db.versions
                     ==> s.db.versions[s.publishes[tx].id].moduleID == s.publishes[tx].moduleID)
    && (forall id :: id in s.resets ==> id < s.db.nextVersion)
  }

  ghost predicate Sound(s: System) {
    TablesOk(s.db) && PendingOk(s)
  }

  /** The rows after a publish transaction that went through. */
  lemma PublishedRows(t: Tables, id: int, moduleID: int, version: string, actor: int, now: int)
    requires IsDraft(t, id)
    ensures var vs := PublishTransaction(t, id, moduleID, version, actor, now).0.versions;
            && vs.Keys == t.versions.Keys
            && vs[id] == t.versions[id].(state := Published, publishedAt := now, publishedBy := Some(actor),
                                         publishSeq := t.publications + 1)
            && (forall v :: v in vs && v != id && IsPublished(t.versions, v) && t.versions[v].moduleID == moduleID
                  ==> vs[v] == t.versions[v].(state := Superseded, supersededBy := Some(version)))
            && (forall v :: v in vs && v != id && !(IsPublished(t.versions, v) && t.versions[v].moduleID == moduleID)
                  ==> vs[v] == t.versions[v])
  {
  }

  /** A statement that changes one row and keeps its module. */
  lemma RowChangeKeeps(t: Tables, id: int, row: VersionRow, publications: nat)
    requires TablesOk(t) && id in t.versions && t.publications <= publications
    requires row.moduleID == t.versions[id].moduleID && row.publishSeq <= publications
    requires row.state == Draft || row.state == Published ==> row.supersededBy == None
    requires row.version == t.versions[id].version || !VersionTaken(t, id, row.moduleID, row.version)
    ensures TablesOk(t.(versions := t.versions[id := row], publications := publications))
  {
    var vs := t.versions[id := row];
    forall a, b | Siblings(vs, a, b) ensures vs[a].version != vs[b].version {
      assert Siblings(t.versions, a, b) && Siblings(t.versions, b, a);
    }
  }

  lemma CreateKeeps(t: Tables, moduleID: int, version: string, fields: Fields)
    requires TablesOk(t)
    ensures TablesOk(CreateDraft(t, moduleID, version, fields).0)
  {
  }

  lemma DiscardKeeps(t: Tables, id: int)
    requires TablesOk(t)
    ensures TablesOk(DeleteDraft(t, id).0)
  {
  }

  lemma VersionStatementKeeps(t: Tables, a: VersionStatement)
    requires TablesOk(t)
    ensures TablesOk(AfterVersion(t, a))
  {
    if a.Create? {
      CreateKeeps(t, a.moduleID, a.version, a.fields);
    } else if a.Discard? {
      DiscardKeeps(t, a.id);
    } else if AfterVersion(t, a) != t {
      var u := AfterVersion(t, a);
      RowChangeKeeps(t, a.id, u.versions[a.id], u.publications);
    }
  }

  lemma ScriptStatementKeeps(t: Tables, a: ScriptStatement)
    requires TablesOk(t)
    ensures TablesOk(AfterScript(t, a))
  {
  }

  lemma ActionStatementKeeps(t: Tables, a: ActionStatement)
    requires TablesOk(t)
    ensures TablesOk(AfterAction(t, a))
  {
  }

  lemma ConditionStatementKeeps(t: Tables, a: ConditionStatement)
    requires TablesOk(t)
    ensures TablesOk(AfterCondition(t, a))
  {
  }

  lemma CustomDeletesKeep(t: Tables, id: int)
    requires TablesOk(t)
    ensures TablesOk(DeleteCustomScripts(t, id)) && TablesOk(DeleteCustomActions(t, id))
  {
  }

  /** Superseding rows keeps the tables in order, whatever the module and name. */
  lemma SupersedeKeeps(t: Tables, moduleID: int, exclude: int, version: string)
    requires TablesOk(t)
    ensures TablesOk(SupersedePublished(t, moduleID, exclude, version))
  {
    var vs := SupersedePublished(t, moduleID, exclude, version).versions;
    forall a, b | Siblings(vs, a, b) ensures vs[a].version != vs[b].version {
      assert Siblings(t.versions, a, b);
    }
  }

  lemma PublishKeeps(t: Tables, id: int, moduleID: int, version: string, actor: int, now: int)
    requires TablesOk(t)
    ensures TablesOk(PublishTransaction(t, id, moduleID, version, actor, now).0)
  {
    if IsDraft(t, id) {
      var u := PublishRow(t, id, Some(actor), now).0;
      RowChangeKeeps(t, id, u.versions[id], u.publications);
      SupersedeKeeps(u, moduleID, id, version);
    }
  }

  /** Versions keep their modules, and new IDs come from the counter. */
  ghost predicate KeepsModules(t: Tables, u: Tables) {
    && t.nextVersion <= u.nextVersion
    && forall v :: v in u.versions && v < t.nextVersion
                   ==> v in t.versions && u.versions[v].moduleID == t.versions[v].moduleID
  }

  lemma VersionStatementKeepsModules(t: Tables, a: VersionStatement)
    requires TablesOk(t)
    ensures KeepsModules(t, AfterVersion(t, a))
  {
  }

  lemma PendingStaysOk(s: System, u: Tables)
    requires Sound(s) && KeepsModules(s.db, u)
    ensures PendingOk(s.(db := u))
  {
  }

  lemma VersionStepKeeps(s: System, a: VersionStatement)
    requires Sound(s)
    ensures Sound(s.(db := AfterVersion(s.db, a)))
  {
    VersionStatementKeeps(s.db, a);
    VersionStatementKeepsModules(s.db, a);
    PendingStaysOk(s, AfterVersion(s.db, a));
  }

  lemma ChildrenChangeKeeps(s: System, u: Tables)
    requires Sound(s) && TablesOk(u) && u.versions == s.db.versions && u.nextVersion == s.db.nextVersion
    ensures Sound(s.(db := u))
  {
  }

  lemma ChildStatementKeeps(s: System, step: Step)
    requires Sound(s) && (step.OnScript? || step.OnAction? || step.OnCondition?)
    ensures Sound(Next(s, step))
  {
    match step {
      case OnScript(a) =>
        ScriptStatementKeeps(s.db, a);
        ChildrenChangeKeeps(s, AfterScript(s.db, a));
      case OnAction(a) =>
        ActionStatementKeeps(s.db, a);
        ChildrenChangeKeeps(s, AfterAction(s.db, a));
      case OnCondition(a) =>
        ConditionStatementKeeps(s.db, a);
        ChildrenChangeKeeps(s, AfterCondition(s.db, a));
    }
  }

  lemma RequestStepKeeps(s: System, step: Step)
    requires Sound(s) && (step.BeginPublish? || step.BeginReset?)
    ensures Sound(Next(s, step))
  {
  }

  lemma ResetStepKeeps(s: System, step: Step)
    requires Sound(s) && (step.ResetScripts? || step.ResetActions?)
    ensures Sound(Next(s, step))
  {
    CustomDeletesKeep(s.db, step.id);
  }

  lemma CommitKeeps(s: System, tx: int, actor: int, now: int)
    requires Sound(s)
    ensures Sound(Next(s, CommitPublish(tx, actor, now)))
  {
    if tx in s.publishes {
      var p := s.publishes[tx];
      var u := PublishTransaction(s.db, p.id, p.moduleID, p.version, actor, now).0;
      PublishKeeps(s.db, p.id, p.moduleID, p.version, actor, now);
      assert KeepsModules(s.db, u);
      PendingStaysOk(s, u);
    }
  }

  lemma NextKeeps(s: System, step: Step)
    requires Sound(s)
    ensures Sound(Next(s, step))
  {
    if step.OnVersion? {
      VersionStepKeeps(s, step.row);
    } else if step.OnScript? || step.OnAction? || step.OnCondition? {
      ChildStatementKeeps(s, step);
    } else if step.BeginPublish? || step.BeginReset? {
      RequestStepKeeps(s, step);
    } else if step.CommitPublish? {
      CommitKeeps(s, step.tx, step.actor, step.now);
    } else {
      ResetStepKeeps(s, step);
    }
  }

  lemma {:induction false} RunKeeps(s: System, steps: seq<Step>)
    requires Sound(s)
    ensures Sound(Run(s, steps))
  {
    if steps == [] {
    } else {
      RunKeeps(s, steps[..|steps| - 1]);
      NextKeeps(Run(s, steps[..|steps| - 1]), steps[|steps| - 1]);
    }
  }

  /** All other steps leave the version rows alone. */
  lemma VersionsUntouched(s: System, step: Step)
    requires !step.OnVersion? && !Commits(s, step)
    ensures Next(s, step).db.versions == s.db.versions && Next(s, step).db.publications == s.db.publications
  {
    match step {
      case OnScript(a) =>
      case OnAction(a) =>
      case OnCondition(a) =>
      case BeginPublish(_, _) =>
      case CommitPublish(_, _, _) =>
      case BeginReset(_) =>
      case ResetScripts(_) =>
      case ResetActions(_) =>
    }
  }

  // ---------------------------------------------------------------------
  // At most one published version
  // ---------------------------------------------------------------------

  ghost predicate AtMostOnePublished(t: Tables) {
    forall a, b :: Siblings(t.versions, a, b) ==> !(IsPublished(t.versions, a) && IsPublished(t.versions, b))
  }

  lemma PublishedIsUnique(t: Tables, v: int, w: int)
    requires AtMostOnePublished(t) && IsPublished(t.versions, v) && IsPublished(t.versions, w)
    requires t.versions[v].moduleID == t.versions[w].moduleID
    ensures v == w
  {
    assert Siblings(t.versions, v, w) <==> v != w;
  }

  lemma FewerPublished(t: Tables, u: Tables)
    requires AtMostOnePublished(t)
    requires forall v :: IsPublished(u.versions, v) ==>
               IsPublished(t.versions, v) && u.versions[v].moduleID == t.versions[v].moduleID
    ensures AtMostOnePublished(u)
  {
    forall a, b | Siblings(u.versions, a, b) && IsPublished(u.versions, a) && IsPublished(u.versions, b) ensures false {
      assert Siblings(t.versions, a, b);
    }
  }

  lemma TransactionKeepsOne(t: Tables, id: int, version: string, actor: int, now: int)
    requires AtMostOnePublished(t) && IsDraft(t, id)
    ensures AtMostOnePublished(PublishTransaction(t, id, t.versions[id].moduleID, version, actor, now).0)
  {
    PublishedRows(t, id, t.versions[id].moduleID, version, actor, now);
    var vs := PublishTransaction(t, id, t.versions[id].moduleID, version, actor, now).0.versions;
    forall a, b | Siblings(vs, a, b) && IsPublished(vs, a) ensures !IsPublished(vs, b) {
      assert Siblings(t.versions, a, b);
    }
  }

  /** Publishing without superseding keeps a single published version exactly
      when the module has no other one. */
  lemma PublishKeepsOneExactly(t: Tables, id: int, actor: Option<int>, now: int)
    requires AtMostOnePublished(t) && IsDraft(t, id)
    ensures AtMostOnePublished(PublishRow(t, id, actor, now).0)
            <==> forall u :: !Supersedes(t, t.versions[id].moduleID, id, u)
  {
    var moduleID, vs := t.versions[id].moduleID, PublishRow(t, id, actor, now).0.versions;
    if u :| Supersedes(t, moduleID, id, u) {
      assert Siblings(vs, id, u) && IsPublished(vs, id) && IsPublished(vs, u);
    } else {
      forall a, b | Siblings(vs, a, b) && IsPublished(vs, a) ensures !IsPublished(vs, b) {
        assert Siblings(t.versions, a, b);
        assert !Supersedes(t, moduleID, id, a) && !Supersedes(t, moduleID, id, b);
      }
    }
  }

  /** It is then the publish transaction, and otherwise it is not. */
  lemma SeedPublishExactly(t: Tables, id: int, version: string, actor: int, now: int)
    requires AtMostOnePublished(t) && IsDraft(t, id)
    ensures AtMostOnePublished(PublishRow(t, id, Some(actor), now).0) <==>
              PublishRow(t, id, Some(actor), now) == PublishTransaction(t, id, t.versions[id].moduleID, version, actor, now)
  {
    var moduleID, after := t.versions[id].moduleID, PublishRow(t, id, Some(actor), now).0;
    PublishKeepsOneExactly(t, id, Some(actor), now);
    TransactionKeepsOne(t, id, version, actor, now);
    if AtMostOnePublished(after) {
      forall u ensures !Supersedes(after, moduleID, id, u) {
        assert !Supersedes(t, moduleID, id, u);
      }
      assert SupersedePublished(after, moduleID, id, version).versions == after.versions;
    }
  }

  /** A seed publish of a draft finds no published version of its module. */
  ghost predicate SeedsAlone(t: Tables, step: Step) {
    step.OnVersion? && step.row.SeedPublish? && IsDraft(t, step.row.id) ==>
      forall u :: !Supersedes(t, t.versions[step.row.id].moduleID, step.row.id, u)
  }

  lemma VersionStatementKeepsOneExactly(t: Tables, a: VersionStatement)
    requires TablesOk(t) && AtMostOnePublished(t)
    ensures AtMostOnePublished(AfterVersion(t, a)) <==> SeedsAlone(t, OnVersion(a))
  {
    if a.SeedPublish? && IsDraft(t, a.id) {
      PublishKeepsOneExactly(t, a.id, None, a.now);
    } else {
      FewerPublished(t, AfterVersion(t, a));
    }
  }

  lemma StepKeepsOneExactly(s: System, step: Step)
    requires Sound(s) && AtMostOnePublished(s.db)
    ensures AtMostOnePublished(Next(s, step).db) <==> SeedsAlone(s.db, step)
  {
    if step.OnVersion? {
      VersionStatementKeepsOneExactly(s.db, step.row);
    } else if Commits(s, step) {
      var p := s.publishes[step.tx];
      TransactionKeepsOne(s.db, p.id, p.version, step.actor, step.now);
    } else {
      VersionsUntouched(s, step);
    }
  }

  ghost predicate RunSeedsAlone(s: System, steps: seq<Step>) {
    steps == [] ||
    var front := steps[..|steps| - 1];
    RunSeedsAlone(s, front) && SeedsAlone(Run(s, front).db, steps[|steps| - 1])
  }

  ghost predicate OnePublishedThroughout(s: System, steps: seq<Step>) {
    AtMostOnePublished(Run(s, steps).db)
    && (steps != [] ==> OnePublishedThroughout(s, steps[..|steps| - 1]))
  }

  /** At no point of a run does a module have two published versions, if and
      only if each seed publish finds no published version of its module. */
  lemma {:induction false} OnePublishedExactly(s: System, steps: seq<Step>)
    requires Sound(s)
    ensures OnePublishedThroughout(s, steps) <==> AtMostOnePublished(s.db) && RunSeedsAlone(s, steps)
  {
    if steps == [] {
    } else {
      var front := steps[..|steps| - 1];
      OnePublishedExactly(s, front);
      RunKeeps(s, front);
      assert OnePublishedThroughout(s, front) ==> AtMostOnePublished(Run(s, front).db);
      if AtMostOnePublished(Run(s, front).db) {
        StepKeepsOneExactly(Run(s, front), steps[|steps| - 1]);
      }
    }
  }

  /** Without seeding no interleaving ever publishes two versions of a module. */
  lemma {:induction false} AtMostOnePublishedWithoutSeeding(s: System, steps: seq<Step>)
    requires Sound(s) && AtMostOnePublished(s.db)
    requires forall i :: 0 <= i < |steps| && steps[i].OnVersion? ==> !steps[i].row.SeedPublish?
    ensures RunSeedsAlone(s, steps) && AtMostOnePublished(Run(s, steps).db)
  {
    if steps == [] {
    } else {
      AtMostOnePublishedWithoutSeeding(s, steps[..|steps| - 1]);
      RunKeeps(s, steps[..|steps| - 1]);
      StepKeepsOneExactly(Run(s, steps[..|steps| - 1]), steps[|steps| - 1]);
    }
  }

  /** A published version is the most recently published one of its module. */
  ghost predicate PublishedIsNewest(vs: Versions) {
    forall a, b :: Siblings(vs, a, b) && IsPublished(vs, a) && Issued(vs, b)
      ==> vs[b].publishSeq < vs[a].publishSeq
  }

  lemma VersionStatementKeepsNewest(t: Tables, a: VersionStatement)
    requires TablesOk(t) && PublishedIsNewest(t.versions) && SeedsAlone(t, OnVersion(a))
    ensures PublishedIsNewest(AfterVersion(t, a).versions)
  {
    var vs := AfterVersion(t, a).versions;
    forall x, y | Siblings(vs, x, y) && IsPublished(vs, x) && Issued(vs, y) ensures vs[y].publishSeq < vs[x].publishSeq {
      if a.SeedPublish? && IsDraft(t, a.id) {
        assert !Supersedes(t, t.versions[a.id].moduleID, a.id, x);
      }
      assert Siblings(t.versions, x, y);
    }
  }

  lemma CommitKeepsNewest(t: Tables, id: int, version: string, actor: int, now: int)
    requires TablesOk(t) && PublishedIsNewest(t.versions) && IsDraft(t, id)
    ensures PublishedIsNewest(PublishTransaction(t, id, t.versions[id].moduleID, version, actor, now).0.versions)
  {
    PublishedRows(t, id, t.versions[id].moduleID, version, actor, now);
    var vs := PublishTransaction(t, id, t.versions[id].moduleID, version, actor, now).0.versions;
    forall x, y | Siblings(vs, x, y) && IsPublished(vs, x) && Issued(vs, y) ensures vs[y].publishSeq < vs[x].publishSeq {
      assert Siblings(t.versions, x, y);
    }
  }

  /** The published version stays the newest one while seed publishes find
      their modules without a published version. */
  lemma {:induction false} NewestThroughout(s: System, steps: seq<Step>)
    requires Sound(s) && PublishedIsNewest(s.db.versions) && RunSeedsAlone(s, steps)
    ensures PublishedIsNewest(Run(s, steps).db.versions)
  {
    if steps == [] {
    } else {
      var m, step := Run(s, steps[..|steps| - 1]), steps[|steps| - 1];
      NewestThroughout(s, steps[..|steps| - 1]);
      RunKeeps(s, steps[..|steps| - 1]);
      if step.OnVersion? {
        VersionStatementKeepsNewest(m.db, step.row);
      } else if Commits(m, step) {
        var p := m.publishes[step.tx];
        CommitKeepsNewest(m.db, p.id, p.version, step.actor, step.now);
      } else {
        VersionsUntouched(m, step);
      }
    }
  }

  /** The row that GetLatestPublishedVersion may return: published, and no
      published row of the module carries a later timestamp. */
  ghost predicate IsLatestPublished(t: Tables, moduleID: int, v: int) {
    && IsPublished(t.versions, v) && t.versions[v].moduleID == moduleID
    && forall w :: IsPublished(t.versions, w) && t.versions[w].moduleID == moduleID
                   ==> t.versions[w].publishedAt <= t.versions[v].publishedAt
  }

  /** The same rows under other publication times. */
  function Restamp(t: Tables, times: int -> int): Tables {
    t.(versions := map v | v in t.versions :: t.versions[v].(publishedAt := times(v)))
  }

  /** Timestamps never decide which version is the latest published one, if
      and only if no module has two of them. */
  lemma TimestampsNeverDecideExactly(t: Tables)
    ensures AtMostOnePublished(t) <==>
              forall times: int -> int, moduleID, v ::
                IsLatestPublished(Restamp(t, times), moduleID, v)
                <==> IsPublished(t.versions, v) && t.versions[v].moduleID == moduleID
  {
    if AtMostOnePublished(t) {
      forall times: int -> int, moduleID, v | IsPublished(t.versions, v) && t.versions[v].moduleID == moduleID
        ensures IsLatestPublished(Restamp(t, times), moduleID, v)
      {
        var u := Restamp(t, times);
        forall w | IsPublished(u.versions, w) && u.versions[w].moduleID == moduleID ensures w == v {
          assert w != v ==> Siblings(t.versions, v, w);
        }
      }
    } else {
      var a, b :| Siblings(t.versions, a, b) && IsPublished(t.versions, a) && IsPublished(t.versions, b);
      var u := Restamp(t, w => if w == a then 1 else 0);
      assert IsPublished(u.versions, a) && u.versions[a].publishedAt > u.versions[b].publishedAt;
      assert !IsLatestPublished(u, t.versions[b].moduleID, b);
    }
  }

  // ---------------------------------------------------------------------
  // States move forward
  // ---------------------------------------------------------------------

  function Rank(s: State): nat {
    match s case Draft => 0 case Published => 1 case Superseded => 2 case Revoked => 3
  }

  lemma CommitMovesForward(t: Tables, id: int, moduleID: int, version: string, actor: int, now: int, v: int)
    requires IsDraft(t, id) && Issued(t.versions, v)
    ensures var vs := PublishTransaction(t, id, moduleID, version, actor, now).0.versions;
            Issued(vs, v) && Rank(t.versions[v].state) <= Rank(vs[v].state)
  {
    PublishedRows(t, id, moduleID, version, actor, now);
  }

  lemma VersionStatementMovesForward(t: Tables, a: VersionStatement, v: int)
    requires TablesOk(t) && Issued(t.versions, v)
    ensures Issued(AfterVersion(t, a).versions, v)
    ensures Rank(t.versions[v].state) <= Rank(AfterVersion(t, a).versions[v].state)
  {
  }

  lemma NextMovesForward(s: System, step: Step, v: int)
    requires Sound(s) && Issued(s.db.versions, v)
    ensures Issued(Next(s, step).db.versions, v)
    ensures Rank(s.db.versions[v].state) <= Rank(Next(s, step).db.versions[v].state)
  {
    if step.OnVersion? {
      VersionStatementMovesForward(s.db, step.row, v);
    } else if Commits(s, step) {
      var p := s.publishes[step.tx];
      CommitMovesForward(s.db, p.id, p.moduleID, p.version, step.actor, step.now, v);
    } else {
      VersionsUntouched(s, step);
    }
  }

  /** Once issued, a version is never lost and its state only moves forward;
      in particular a revoked version stays revoked. */
  lemma {:induction false} StatesMoveForward(s: System, steps: seq<Step>, v: int)
    requires Sound(s) && Issued(s.db.versions, v)
    ensures Issued(Run(s, steps).db.versions, v)
    ensures Rank(s.db.versions[v].state) <= Rank(Run(s, steps).db.versions[v].state)
  {
    if steps == [] {
    } else {
      StatesMoveForward(s, steps[..|steps| - 1], v);
      RunKeeps(s, steps[..|steps| - 1]);
      NextMovesForward(Run(s, steps[..|steps| - 1]), steps[|steps| - 1], v);
    }
  }

  /** The step publishes `v`: a pending request commits, or a seed publish runs,
      while `v` is still a draft. */
  predicate Wins(s: System, step: Step, v: int) {
    IsDraft(s.db, v) &&
    ((step.CommitPublish? && step.tx in s.publishes && s.publishes[step.tx].id == v)
     || (step.OnVersion? && step.row.SeedPublish? && step.row.id == v))
  }

  /** Of all the publishes of one draft, exactly the first goes through: after
      it every other commit or seed publish of that version changes nothing. */
  lemma PublishedOnce(s: System, first: Step, between: seq<Step>, second: Step, v: int)
    requires Sound(s) && Wins(s, first, v)
    ensures IsPublished(Next(s, first).db.versions, v)
    ensures !Wins(Run(Next(s, first), between), second, v)
    ensures var later := Run(Next(s, first), between);
            (second.CommitPublish? && second.tx in later.publishes && later.publishes[second.tx].id == v)
            || (second.OnVersion? && second.row.SeedPublish? && second.row.id == v)
            ==> Next(later, second).db == later.db
  {
    NextKeeps(s, first);
    StatesMoveForward(Next(s, first), between, v);
  }

  lemma CommitLeavesPublished(t: Tables, id: int, version: string, actor: int, now: int, v: int)
    returns (w: int)
    requires IsDraft(t, id) && IsPublished(t.versions, v)
    ensures var vs := PublishTransaction(t, id, t.versions[id].moduleID, version, actor, now).0.versions;
            IsPublished(vs, w) && vs[w].moduleID == t.versions[v].moduleID
  {
    PublishedRows(t, id, t.versions[id].moduleID, version, actor, now);
    w := if t.versions[v].moduleID == t.versions[id].moduleID then id else v;
  }

  lemma VersionStatementKeepsPublished(t: Tables, a: VersionStatement, v: int)
    requires TablesOk(t) && IsPublished(t.versions, v) && a != RevokeVersion(v)
    ensures v in AfterVersion(t, a).versions && AfterVersion(t, a).versions[v] == t.versions[v]
  {
  }

  /** No step but its revocation leaves a module without a published version:
      `w` is one after the step. */
  lemma PublishKeepsAPublishedVersion(s: System, step: Step, v: int) returns (w: int)
    requires Sound(s) && IsPublished(s.db.versions, v) && step != OnVersion(RevokeVersion(v))
    ensures var vs := Next(s, step).db.versions;
            IsPublished(vs, w) && vs[w].moduleID == s.db.versions[v].moduleID
  {
    w := v;
    if step.OnVersion? {
      VersionStatementKeepsPublished(s.db, step.row, v);
    } else if Commits(s, step) {
      var p := s.publishes[step.tx];
      w := CommitLeavesPublished(s.db, p.id, p.version, step.actor, step.now, v);
    } else {
      VersionsUntouched(s, step);
    }
  }
}
